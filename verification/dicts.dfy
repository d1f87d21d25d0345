/** Building a Python dict by assigning key/value pairs in order, where a
    later assignment to a key replaces an earlier one. */
module Dicts {
  import opened Options

  /** The keys mentioned anywhere in `pairs`. */
  function KeysOf<K, V>(pairs: seq<(K, V)>): set<K> {
    set i | 0 <= i < |pairs| :: pairs[i].0
  }

  lemma KeysOfSnoc<K, V>(pairs: seq<(K, V)>)
    requires |pairs| > 0
    ensures KeysOf(pairs) == KeysOf(pairs[..|pairs| - 1]) + {pairs[|pairs| - 1].0}
  {
    var n := |pairs| - 1;
    forall k | k in KeysOf(pairs)
      ensures k in KeysOf(pairs[..n]) + {pairs[n].0}
    {
      var i :| 0 <= i < |pairs| && pairs[i].0 == k;
      if i < n {
        assert pairs[..n][i] == pairs[i];
      }
    }
    forall k | k in KeysOf(pairs[..n])
      ensures k in KeysOf(pairs)
    {
      var i :| 0 <= i < n && pairs[..n][i].0 == k;
      assert pairs[i] == pairs[..n][i];
    }
  }

  /** Position `i` holds the last pair of `pairs` with key `pairs[i].0`. */
  ghost predicate IsLastIndex<K, V>(pairs: seq<(K, V)>, i: int) {
    && 0 <= i < |pairs|
    && forall j :: i < j < |pairs| ==> pairs[j].0 != pairs[i].0
  }

  lemma LastIndexInPrefix<K, V>(pairs: seq<(K, V)>, i: int)
    requires IsLastIndex(pairs, i) && i < |pairs| - 1
    ensures IsLastIndex(pairs[..|pairs| - 1], i) && pairs[..|pairs| - 1][i] == pairs[i]
    ensures pairs[|pairs| - 1].0 != pairs[i].0
  {
  }

  /** `d = {}` followed by `d[k] = v` for every pair `(k, v)` in order. */
  function LastWins<K, V>(pairs: seq<(K, V)>): (m: map<K, V>)
    ensures m.Keys == KeysOf(pairs)
    ensures forall i | IsLastIndex(pairs, i) :: pairs[i].0 in m && m[pairs[i].0] == pairs[i].1
    decreases |pairs|
  {
    if |pairs| == 0 then map[]
    else
      var n := |pairs| - 1;
      var m := LastWins(pairs[..n]);
      LastWinsStep(pairs, m);
      m[pairs[n].0 := pairs[n].1]
  }

  /** The step of `LastWins`: assigning the last pair keeps its contract. */
  lemma LastWinsStep<K, V>(pairs: seq<(K, V)>, m: map<K, V>)
    requires |pairs| > 0
    requires m.Keys == KeysOf(pairs[..|pairs| - 1])
    requires forall i | IsLastIndex(pairs[..|pairs| - 1], i) :: pairs[i].0 in m && m[pairs[i].0] == pairs[i].1
    ensures var m' := m[pairs[|pairs| - 1].0 := pairs[|pairs| - 1].1];
      && m'.Keys == KeysOf(pairs)
      && forall i | IsLastIndex(pairs, i) :: pairs[i].0 in m' && m'[pairs[i].0] == pairs[i].1
  {
    var n := |pairs| - 1;
    var m' := m[pairs[n].0 := pairs[n].1];
    KeysOfSnoc(pairs);
    assert m'.Keys == m.Keys + {pairs[n].0};
    forall i | IsLastIndex(pairs, i)
      ensures pairs[i].0 in m' && m'[pairs[i].0] == pairs[i].1
    {
      if i < n {
        LastIndexInPrefix(pairs, i);
        assert m'[pairs[i].0] == m[pairs[i].0];
      }
    }
  }

  /** Every key of the dict has a last assignment, and its value is the one
      that assignment wrote. */
  lemma LastWinsValue<K, V>(pairs: seq<(K, V)>, k: K)
    requires k in LastWins(pairs)
    ensures exists i :: IsLastIndex(pairs, i) && pairs[i].0 == k && LastWins(pairs)[k] == pairs[i].1
  {
    var i :| 0 <= i < |pairs| && pairs[i].0 == k;
    while !IsLastIndex(pairs, i)
      invariant 0 <= i < |pairs| && pairs[i].0 == k
      decreases |pairs| - i
    {
      var j :| i < j < |pairs| && pairs[j].0 == k;
      i := j;
    }
  }

  /** Assigning one more pair updates the dict at that key only. */
  lemma LastWinsSnoc<K, V>(pairs: seq<(K, V)>, k: K, v: V)
    ensures LastWins(pairs + [(k, v)]) == LastWins(pairs)[k := v]
  {
    assert (pairs + [(k, v)])[..|pairs|] == pairs;
  }

  // ---------------------------------------------------------------------
  // Iteration order: a Python dict keeps its keys in the order they were
  // first assigned, and a later assignment updates the value in place
  // ---------------------------------------------------------------------

  /** The keys of `pairs`, each once, in the order of their first
      assignment. */
  function FirstKeys<K(==), V>(pairs: seq<(K, V)>): (ks: seq<K>)
    ensures forall i, j | 0 <= i < j < |ks| :: ks[i] != ks[j]
    ensures forall i | 0 <= i < |ks| :: ks[i] in KeysOf(pairs)
    ensures forall k | k in KeysOf(pairs) :: k in ks
    decreases |pairs|
  {
    if |pairs| == 0 then []
    else
      var n := |pairs| - 1;
      var ks := FirstKeys(pairs[..n]);
      KeysOfSnoc(pairs);
      if pairs[n].0 in ks then ks else ks + [pairs[n].0]
  }

  /** A key listed before another was already assigned when the other was
      assigned, at any of its assignments. So the keys come in the order of
      their first assignments. */
  lemma {:induction false} FirstKeysOrder<K, V>(pairs: seq<(K, V)>, i: nat, j: nat, b: nat)
    requires i < j < |FirstKeys(pairs)|
    requires b < |pairs| && pairs[b].0 == FirstKeys(pairs)[j]
    ensures FirstKeys(pairs)[i] in KeysOf(pairs[..b])
    decreases |pairs|
  {
    var n := |pairs| - 1;
    var front := pairs[..n];
    var ks := FirstKeys(front);
    assert ks[..] == ks;
    if b < n {
      assert front[b] == pairs[b] && front[..b] == pairs[..b];
      if j < |ks| {
        assert FirstKeys(pairs)[i] == ks[i] && FirstKeys(pairs)[j] == ks[j];
        FirstKeysOrder(front, i, j, b);
      } else {
        assert false;
      }
    } else {
      assert pairs[..b] == front;
      assert FirstKeys(pairs)[i] == ks[i];
    }
  }

  /** The dict built by assigning `pairs` in order, as the sequence of its
      items in iteration order: `list(d.items())`. */
  function Items<K(==), V>(pairs: seq<(K, V)>): (items: seq<(K, V)>)
    ensures forall i, j | 0 <= i < j < |items| :: items[i].0 != items[j].0
    ensures forall i | 0 <= i < |items| :: items[i].0 in LastWins(pairs) && LastWins(pairs)[items[i].0] == items[i].1
    ensures forall k | k in LastWins(pairs) :: exists i :: 0 <= i < |items| && items[i].0 == k
  {
    var ks := FirstKeys(pairs);
    var d := LastWins(pairs);
    assert forall i | 0 <= i < |ks| :: ks[i] in d;
    var items := seq(|ks|, i requires 0 <= i < |ks| => (ks[i], d[ks[i]]));
    ItemsCover(d, ks, items);
    items
  }

  lemma ItemsCover<K, V>(d: map<K, V>, ks: seq<K>, items: seq<(K, V)>)
    requires forall k | k in d :: k in ks
    requires |items| == |ks| && forall i | 0 <= i < |ks| :: items[i].0 == ks[i]
    ensures forall k | k in d :: exists i :: 0 <= i < |items| && items[i].0 == k
  {
    forall k | k in d
      ensures exists i :: 0 <= i < |items| && items[i].0 == k
    {
      var i :| 0 <= i < |ks| && ks[i] == k;
      assert items[i].0 == k;
    }
  }

  /** `d[k] = v`: a key the dict already holds keeps its place and takes the
      new value; a new key goes after all the others. */
  lemma ItemsAssign<K, V>(pairs: seq<(K, V)>, k: K, v: V)
    ensures k !in KeysOf(pairs) ==> Items(pairs + [(k, v)]) == Items(pairs) + [(k, v)]
    ensures forall p | 0 <= p < |Items(pairs)| && Items(pairs)[p].0 == k :: Items(pairs + [(k, v)]) == Items(pairs)[p := (k, v)]
    ensures k in KeysOf(pairs) ==> KeyIndex(Items(pairs), k) < |Items(pairs)|
  {
    if k !in KeysOf(pairs) {
      ItemsAssignNew(pairs, k, v);
    }
    forall p | 0 <= p < |Items(pairs)| && Items(pairs)[p].0 == k
      ensures Items(pairs + [(k, v)]) == Items(pairs)[p := (k, v)]
    {
      ItemsAssignHeld(pairs, k, v, p);
    }
  }

  lemma ItemsAssignNew<K, V>(pairs: seq<(K, V)>, k: K, v: V)
    requires k !in KeysOf(pairs)
    ensures Items(pairs + [(k, v)]) == Items(pairs) + [(k, v)]
  {
    var pairs' := pairs + [(k, v)];
    assert pairs'[..|pairs|] == pairs;
    LastWinsSnoc(pairs, k, v);
    var ks := FirstKeys(pairs);
    assert FirstKeys(pairs') == ks + [k];
    var d := LastWins(pairs);
    forall i | 0 <= i < |ks|
      ensures Items(pairs')[i] == Items(pairs)[i]
    {
      assert ks[i] != k;
    }
  }

  lemma ItemsAssignHeld<K, V>(pairs: seq<(K, V)>, k: K, v: V, p: nat)
    requires p < |Items(pairs)| && Items(pairs)[p].0 == k
    ensures Items(pairs + [(k, v)]) == Items(pairs)[p := (k, v)]
  {
    var pairs' := pairs + [(k, v)];
    assert pairs'[..|pairs|] == pairs;
    LastWinsSnoc(pairs, k, v);
    var ks := FirstKeys(pairs);
    var items, items' := Items(pairs), Items(pairs');
    ItemsShape(pairs);
    ItemsShape(pairs');
    assert ks[p] == k;
    assert FirstKeys(pairs') == ks;
    forall i | 0 <= i < |ks|
      ensures items'[i] == items[p := (k, v)][i]
    {
      if i != p {
        assert ks[i] != k;
      }
    }
  }

  lemma ItemsShape<K, V>(pairs: seq<(K, V)>)
    ensures |Items(pairs)| == |FirstKeys(pairs)|
    ensures forall i | 0 <= i < |Items(pairs)| :: Items(pairs)[i].0 == FirstKeys(pairs)[i]
  {
  }

  /** Where key `k` sits among the items (their length when it is not
      there). */
  function KeyIndex<K(==), V>(items: seq<(K, V)>, k: K): (p: nat)
    ensures p <= |items|
    ensures p < |items| ==> items[p].0 == k
    ensures forall i | 0 <= i < p :: items[i].0 != k
    decreases |items|
  {
    if |items| == 0 then 0
    else if items[0].0 == k then 0
    else 1 + KeyIndex(items[1..], k)
  }

  /** Two assignments to different keys iterate in the order they were
      made, whichever values they hold. */
  lemma ItemsOfTwo<K, V>(a: K, x: V, b: K, y: V)
    requires a != b
    ensures Items([(a, x), (b, y)]) == [(a, x), (b, y)]
  {
    var none: seq<(K, V)> := [];
    assert Items(none) == [];
    ItemsAssign(none, a, x);
    assert none + [(a, x)] == [(a, x)];
    assert KeysOf([(a, x)]) == {a};
    ItemsAssign([(a, x)], b, y);
    assert [(a, x)] + [(b, y)] == [(a, x), (b, y)];
  }

  // ---------------------------------------------------------------------
  // Building a dict from the items of a loop that may skip some of them
  // ---------------------------------------------------------------------

  /** The pairs `f` yields for the elements of `xs`, in order; an element
      for which `f` gives None is skipped. */
  function Collect<A, K, V>(f: A -> Option<(K, V)>, xs: seq<A>): (r: seq<(K, V)>)
    ensures |r| <= |xs|
    decreases |xs|
  {
    if |xs| == 0 then []
    else
      var n := |xs| - 1;
      Collect(f, xs[..n]) + (match f(xs[n]) case None => [] case Some(p) => [p])
  }

  /** An element that yields nothing can be dropped from the loop. */
  lemma {:induction false} CollectSkips<A, K, V>(f: A -> Option<(K, V)>, before: seq<A>, x: A, after: seq<A>)
    requires f(x).None?
    ensures Collect(f, before + [x] + after) == Collect(f, before + after)
    decreases |after|
  {
    var a := before + [x] + after;
    var b := before + after;
    if |after| == 0 {
      assert a[..|a| - 1] == before && b == before;
    } else {
      var n := |after| - 1;
      CollectSkips(f, before, x, after[..n]);
      assert a[..|a| - 1] == before + [x] + after[..n];
      assert b[..|b| - 1] == before + after[..n];
      assert a[|a| - 1] == b[|b| - 1] == after[n];
    }
  }

  /** When every element yields a pair, the pairs are exactly those. */
  lemma {:induction false} CollectAll<A, K, V>(f: A -> Option<(K, V)>, xs: seq<A>, ps: seq<(K, V)>)
    requires |xs| == |ps| && forall m :: 0 <= m < |xs| ==> f(xs[m]) == Some(ps[m])
    ensures Collect(f, xs) == ps
    decreases |xs|
  {
    if |xs| > 0 {
      var n := |xs| - 1;
      CollectAll(f, xs[..n], ps[..n]);
      assert ps == ps[..n] + [ps[n]];
    }
  }

  /** When no element yields a pair, there are none. */
  lemma {:induction false} CollectNone<A, K, V>(f: A -> Option<(K, V)>, xs: seq<A>)
    requires forall m :: 0 <= m < |xs| ==> f(xs[m]).None?
    ensures Collect(f, xs) == []
    decreases |xs|
  {
    if |xs| > 0 {
      CollectNone(f, xs[..|xs| - 1]);
    }
  }

  /** Every key of the resulting dict was yielded by some element. */
  lemma {:induction false} CollectKeyFrom<A, K, V>(f: A -> Option<(K, V)>, xs: seq<A>, k: K)
    requires k in LastWins(Collect(f, xs))
    ensures exists j :: 0 <= j < |xs| && f(xs[j]).Some? && f(xs[j]).value.0 == k
    decreases |xs|
  {
    var n := |xs| - 1;
    var pairs := Collect(f, xs);
    var m :| 0 <= m < |pairs| && pairs[m].0 == k;
    var front := Collect(f, xs[..n]);
    if m < |front| {
      assert front[m] == pairs[m];
      CollectKeyFrom(f, xs[..n], k);
      var j :| 0 <= j < n && f(xs[..n][j]).Some? && f(xs[..n][j]).value.0 == k;
      assert xs[..n][j] == xs[j];
    } else {
      assert f(xs[n]).Some? && f(xs[n]).value == pairs[m];
    }
  }

  /** Every pair collected was yielded by some element. */
  lemma {:induction false} CollectPairFrom<A, K, V>(f: A -> Option<(K, V)>, xs: seq<A>, m: nat)
    requires m < |Collect(f, xs)|
    ensures exists j :: 0 <= j < |xs| && f(xs[j]) == Some(Collect(f, xs)[m])
    decreases |xs|
  {
    var n := |xs| - 1;
    var front := Collect(f, xs[..n]);
    if m < |front| {
      CollectPairFrom(f, xs[..n], m);
      var j :| 0 <= j < n && f(xs[..n][j]) == Some(front[m]);
      assert xs[..n][j] == xs[j];
    } else {
      assert f(xs[n]) == Some(Collect(f, xs)[m]);
    }
  }

  /** One more element adds the pair it yields, if any. */
  lemma CollectAppendOne<A, K, V>(f: A -> Option<(K, V)>, xs: seq<A>, x: A)
    ensures Collect(f, xs + [x]) == Collect(f, xs) + (match f(x) case None => [] case Some(p) => [p])
  {
    assert (xs + [x])[..|xs|] == xs;
  }

  /** One more element updates the dict at the key it yields, if any. */
  lemma CollectSnoc<A, K, V>(f: A -> Option<(K, V)>, xs: seq<A>, x: A)
    ensures xs + [x] != [] && (xs + [x])[..|xs|] == xs
    ensures LastWins(Collect(f, xs + [x])) ==
      match f(x)
      case None => LastWins(Collect(f, xs))
      case Some((k, v)) => LastWins(Collect(f, xs))[k := v]
  {
    assert (xs + [x])[..|xs|] == xs;
    var c := Collect(f, xs);
    match f(x)
    case None =>
      assert Collect(f, xs + [x]) == c + [];
      assert c + [] == c;
    case Some((k, v)) =>
      assert Collect(f, xs + [x]) == c + [(k, v)];
      LastWinsSnoc(c, k, v);
  }

  /** The last element that yields key `k` decides its value. */
  lemma {:induction false} CollectLastWins<A, K, V>(f: A -> Option<(K, V)>, xs: seq<A>, j: nat)
    requires j < |xs| && f(xs[j]).Some?
    requires forall j' :: j < j' < |xs| && f(xs[j']).Some? ==> f(xs[j']).value.0 != f(xs[j]).value.0
    ensures var (k, v) := f(xs[j]).value;
      k in LastWins(Collect(f, xs)) && LastWins(Collect(f, xs))[k] == v
    decreases |xs|
  {
    var n := |xs| - 1;
    var front := xs[..n];
    assert xs == front + [xs[n]];
    CollectSnoc(f, front, xs[n]);
    if j < n {
      assert front[j] == xs[j];
      forall j' | j < j' < n && f(front[j']).Some?
        ensures f(front[j']).value.0 != f(front[j]).value.0
      {
        assert front[j'] == xs[j'];
      }
      CollectLastWins(f, front, j);
    }
  }
}
