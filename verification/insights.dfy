/** The insight generator of core/insights.py: from a flat result dict it
    picks out subject marks and the percentage/total/max aggregates, then
    emits a weakest-subject line, a gap-to-90% line and a performance band,
    in that order. `float(value)` is a parameter `toFloat` (None where
    Python raises ValueError or TypeError); the dict is given by its items
    in iteration order. */
module Insights {
  import opened Options
  import opened Text

  /** What the two loops look at in one key: `key.lower()` tested against
      the excluded terms and against "percent", "total" and "max". */
  datatype KeyClass = KeyClass(excluded: bool, percent: bool, total: bool, max: bool)

  const ExcludedTerms: seq<string> := ["percent", "cgpa", "sgpa", "total", "backlog", "gpa"]

  /** A key that mentions "percent" or "total" is one of the excluded
      terms' keys, so it is never a subject. */
  function Classify(key: string): (c: KeyClass)
    ensures c.percent || c.total ==> c.excluded
  {
    var lk := Lower(key);
    assert ExcludedTerms[0] == "percent" && ExcludedTerms[3] == "total";
    KeyClass(ContainsAny(lk, ExcludedTerms), Contains(lk, "percent"), Contains(lk, "total"), Contains(lk, "max"))
  }

  /** One dict item as the loops see it: its key, the key's class, and
      `float(value)` if that succeeds. */
  datatype Reading = Reading(key: string, cls: KeyClass, value: Option<real>)

  function Readings<V>(items: seq<(string, V)>, toFloat: V -> Option<real>): seq<Reading> {
    seq(|items|, i requires 0 <= i < |items| => Reading(items[i].0, Classify(items[i].0), toFloat(items[i].1)))
  }

  // ---------------------------------------------------------------------
  // Step 1: subjects
  // ---------------------------------------------------------------------

  predicate IsSubject(r: Reading) {
    r.value.Some? && !r.cls.excluded
  }

  /** The subjects dict, in insertion order: every numeric item whose key
      contains no excluded term. */
  function Subjects(rs: seq<Reading>): (s: seq<(string, real)>)
    ensures |s| <= |rs|
    decreases |rs|
  {
    if |rs| == 0 then []
    else
      var n := |rs| - 1;
      Subjects(rs[..n]) + (if IsSubject(rs[n]) then [(rs[n].key, rs[n].value.value)] else [])
  }

  /** A subject is exactly a numeric, non-excluded item. */
  lemma {:induction false} SubjectsIff(rs: seq<Reading>, p: (string, real))
    ensures p in Subjects(rs) <==> exists i :: 0 <= i < |rs| && IsSubject(rs[i]) && p == (rs[i].key, rs[i].value.value)
    decreases |rs|
  {
    if |rs| > 0 {
      var n := |rs| - 1;
      SubjectsIff(rs[..n], p);
      if exists i :: 0 <= i < n && IsSubject(rs[..n][i]) && p == (rs[..n][i].key, rs[..n][i].value.value) {
        var i :| 0 <= i < n && IsSubject(rs[..n][i]) && p == (rs[..n][i].key, rs[..n][i].value.value);
        assert rs[..n][i] == rs[i];
      }
      if exists i :: 0 <= i < |rs| && IsSubject(rs[i]) && p == (rs[i].key, rs[i].value.value) {
        var i :| 0 <= i < |rs| && IsSubject(rs[i]) && p == (rs[i].key, rs[i].value.value);
        if i < n {
          assert rs[..n][i] == rs[i];
        }
      }
    }
  }

  // ---------------------------------------------------------------------
  // Step 2: percentage, total and max total
  // ---------------------------------------------------------------------

  datatype Totals = Totals(percentage: Option<real>, total: real, maxTotal: real)

  /** One iteration of the aggregate loop: "percent" is tested first, then
      "total" without "max", then "max"; a later item overwrites. */
  function Step(t: Totals, r: Reading): Totals {
    if r.value.None? then t
    else if r.cls.percent then t.(percentage := r.value)
    else if r.cls.total && !r.cls.max then t.(total := r.value.value)
    else if r.cls.max then t.(maxTotal := r.value.value)
    else t
  }

  /** The aggregate loop, from `percentage = None`, `total = max = 0`: a
      slot that left its initial value holds the value of a reading picked
      for that slot. */
  function Aggregate(rs: seq<Reading>): (t: Totals)
    ensures t.percentage.Some? ==> exists i :: 0 <= i < |rs| && PercentOf(rs[i]) == t.percentage
    ensures t.total != 0.0 ==> exists i :: 0 <= i < |rs| && TotalOf(rs[i]) == Some(t.total)
    ensures t.maxTotal != 0.0 ==> exists i :: 0 <= i < |rs| && MaxOf(rs[i]) == Some(t.maxTotal)
    decreases |rs|
  {
    if |rs| == 0 then Totals(None, 0.0, 0.0)
    else
      var n := |rs| - 1;
      var before := Aggregate(rs[..n]);
      assert forall i :: 0 <= i < n ==> rs[..n][i] == rs[i];
      Step(before, rs[n])
  }

  /** The readings a slot of the aggregates takes its value from. */
  function PercentOf(r: Reading): Option<real> {
    if r.cls.percent then r.value else None
  }

  function TotalOf(r: Reading): Option<real> {
    if !r.cls.percent && r.cls.total && !r.cls.max then r.value else None
  }

  function MaxOf(r: Reading): Option<real> {
    if !r.cls.percent && r.cls.max then r.value else None
  }

  /** The value of the last reading `sel` picks, if any. */
  function LastOf(rs: seq<Reading>, sel: Reading -> Option<real>): Option<real>
    decreases |rs|
  {
    if |rs| == 0 then None
    else
      var n := |rs| - 1;
      if sel(rs[n]).Some? then sel(rs[n]) else LastOf(rs[..n], sel)
  }

  /** `LastOf` is None exactly when no reading is picked... */
  lemma {:induction false} LastOfNone(rs: seq<Reading>, sel: Reading -> Option<real>)
    ensures LastOf(rs, sel).None? <==> forall i :: 0 <= i < |rs| ==> sel(rs[i]).None?
    decreases |rs|
  {
    if |rs| > 0 {
      var n := |rs| - 1;
      LastOfNone(rs[..n], sel);
      assert forall i :: 0 <= i < n ==> rs[..n][i] == rs[i];
    }
  }

  /** ... and otherwise the value of the last picked reading. */
  lemma {:induction false} LastOfIsLast(rs: seq<Reading>, sel: Reading -> Option<real>, i: nat)
    requires i < |rs| && sel(rs[i]).Some?
    requires forall j :: i < j < |rs| ==> sel(rs[j]).None?
    ensures LastOf(rs, sel) == sel(rs[i])
    decreases |rs|
  {
    var n := |rs| - 1;
    if i < n {
      assert rs[..n][i] == rs[i];
      assert forall j :: i < j < n ==> rs[..n][j] == rs[j];
      LastOfIsLast(rs[..n], sel, i);
    }
  }

  /** The single aggregate loop sets each slot independently: the
      percentage from the last numeric "percent" key, the total from the
      last numeric "total"-without-"max" key that is not a percent key, the
      max total from the last numeric "max" key that is not a percent key
      (so "Max Total" is a max total), each 0 when there is none. */
  lemma {:induction false} AggregateIsLastOf(rs: seq<Reading>)
    ensures Aggregate(rs) == Totals(LastOf(rs, PercentOf), LastOf(rs, TotalOf).GetOr(0.0), LastOf(rs, MaxOf).GetOr(0.0))
    decreases |rs|
  {
    if |rs| > 0 {
      AggregateIsLastOf(rs[..|rs| - 1]);
    }
  }

  // ---------------------------------------------------------------------
  // Steps 3 to 5: the insight lines
  // ---------------------------------------------------------------------

  /** The lines `analyze_student` can emit. */
  datatype Insight =
    | Weakest(subject: string, mark: real)
    | Gap(diff: real)
    | GapUnknown
    | Excellent
    | Good
    | Decent
    | NeedsImprovement
    | PercentNotFound
  {
    predicate IsBand() {
      this in {Excellent, Good, Decent, NeedsImprovement, PercentNotFound}
    }
  }

  /** `min(subjects, key=subjects.get)`: the first subject with the least
      mark. */
  function FirstMin(s: seq<(string, real)>): (i: nat)
    requires |s| > 0
    ensures i < |s|
    ensures forall j :: 0 <= j < |s| ==> s[i].1 <= s[j].1
    ensures forall j :: 0 <= j < i ==> s[j].1 > s[i].1
    decreases |s|
  {
    if |s| == 1 then 0
    else
      var n := |s| - 1;
      var b := FirstMin(s[..n]);
      assert forall j :: 0 <= j < n ==> s[..n][j] == s[j];
      if s[n].1 < s[b].1 then n else b
  }

  /** Step 4: the gap to 90% of the max total, or the note that it cannot
      be computed. */
  function GapLine(t: Totals): (g: Option<Insight>)
    ensures g.Some? ==> g.value.Gap? || g.value == GapUnknown
    ensures g.Some? && g.value.Gap? <==> t.total != 0.0 && t.maxTotal != 0.0 && t.total < 9.0 / 10.0 * t.maxTotal
    ensures g.Some? && g.value.Gap? ==> g.value.diff > 0.0 && t.total + g.value.diff == 9.0 / 10.0 * t.maxTotal
    ensures g == Some(GapUnknown) <==> (t.total == 0.0 || t.maxTotal == 0.0) && t.percentage.None?
  {
    if t.total != 0.0 && t.maxTotal != 0.0 then
      var target := 9.0 / 10.0 * t.maxTotal;
      if t.total < target then Some(Gap(target - t.total)) else None
    else if t.percentage.None? then Some(GapUnknown)
    else None
  }

  /** Step 5: the performance band. */
  function Band(p: Option<real>): (b: Insight)
    ensures b.IsBand()
    ensures b == PercentNotFound <==> p.None?
  {
    match p
    case None => PercentNotFound
    case Some(x) =>
      if x >= 90.0 then Excellent
      else if x >= 75.0 then Good
      else if x >= 60.0 then Decent
      else NeedsImprovement
  }

  /** The bands in increasing order. */
  function Rank(b: Insight): int {
    match b
    case NeedsImprovement => 0
    case Decent => 1
    case Good => 2
    case Excellent => 3
    case _ => -1
  }

  /** A higher percentage never gets a lower band, and each band covers the
      percentages from its threshold up to the next. */
  lemma BandIsMonotone(x: real, y: real)
    requires x <= y
    ensures 0 <= Rank(Band(Some(x))) <= Rank(Band(Some(y)))
    ensures Band(Some(x)) == Excellent <==> x >= 90.0
    ensures Band(Some(x)) == Good <==> 75.0 <= x < 90.0
    ensures Band(Some(x)) == Decent <==> 60.0 <= x < 75.0
    ensures Band(Some(x)) == NeedsImprovement <==> x < 60.0
  {
  }

  /** `analyze_student`, over the readings of the dict's items. */
  function Analyze(rs: seq<Reading>): (lines: seq<Insight>)
    ensures 1 <= |lines| <= 3
    ensures lines[|lines| - 1].IsBand()
    ensures forall k :: 0 <= k < |lines| - 1 ==> !lines[k].IsBand()
    ensures lines[0].Weakest? <==> |Subjects(rs)| > 0
    ensures lines[0].Weakest? ==> (lines[0].subject, lines[0].mark) in Subjects(rs)
    ensures forall k :: 1 <= k < |lines| ==> !lines[k].Weakest?
  {
    var subjects := Subjects(rs);
    var t := Aggregate(rs);
    var weakest := if |subjects| > 0 then var i := FirstMin(subjects); [Weakest(subjects[i].0, subjects[i].1)] else [];
    var gap := match GapLine(t) case None => [] case Some(g) => [g];
    weakest + gap + [Band(t.percentage)]
  }

  /** `analyze_student` on the dict's items: one to three lines ending in
      a band, led by a weakest-subject line exactly when some item has a
      value `float()` accepts and a key free of the excluded terms. */
  function AnalyzeStudent<V>(items: seq<(string, V)>, toFloat: V -> Option<real>): (lines: seq<Insight>)
    ensures 1 <= |lines| <= 3 && lines[|lines| - 1].IsBand()
    ensures lines[0].Weakest? <==>
      exists i :: 0 <= i < |items| && toFloat(items[i].1).Some? && !ContainsAny(Lower(items[i].0), ExcludedTerms)
  {
    var rs := Readings(items, toFloat);
    SubjectsNonEmpty(rs);
    assert forall i :: 0 <= i < |items| ==> rs[i] == Reading(items[i].0, Classify(items[i].0), toFloat(items[i].1));
    Analyze(rs)
  }

  /** There is a subject exactly when some reading is one. */
  lemma SubjectsNonEmpty(rs: seq<Reading>)
    ensures |Subjects(rs)| > 0 <==> exists i :: 0 <= i < |rs| && IsSubject(rs[i])
  {
    if |Subjects(rs)| > 0 {
      var i := SubjectAt(rs, 0);
    }
    if exists i :: 0 <= i < |rs| && IsSubject(rs[i]) {
      var i :| 0 <= i < |rs| && IsSubject(rs[i]);
      SubjectOfReading(rs, i);
    }
  }

  /** The weakest-subject line names a numeric, non-excluded item whose mark
      is the least of all such items, and no such item before it in the dict
      has that mark (`min` keeps the first of equal marks). */
  lemma WeakestIsFirstMinimal(rs: seq<Reading>)
    requires |Subjects(rs)| > 0
    ensures var w := Analyze(rs)[0];
      exists i :: 0 <= i < |rs| && IsSubject(rs[i]) && (rs[i].key, rs[i].value.value) == (w.subject, w.mark)
        && (forall j :: 0 <= j < |rs| && IsSubject(rs[j]) ==> w.mark <= rs[j].value.value)
        && (forall j :: 0 <= j < i && IsSubject(rs[j]) ==> rs[j].value.value > w.mark)
  {
    var s := Subjects(rs);
    var b := FirstMin(s);
    var w := Analyze(rs)[0];
    assert w == Weakest(s[b].0, s[b].1);
    var i := SubjectAt(rs, b);
    forall j | 0 <= j < |rs| && IsSubject(rs[j])
      ensures w.mark <= rs[j].value.value
      ensures j < i ==> rs[j].value.value > w.mark
    {
      SubjectOfReading(rs, j);
      if j < i {
        SubjectsSnoc(rs, j);
        SubjectsPrefix(rs, j + 1, i);
      }
    }
    SubjectOfReading(rs, i);
    assert (rs[i].key, rs[i].value.value) == (w.subject, w.mark);
  }

  /** One more reading adds at most its own pair to the subjects. */
  lemma SubjectsSnoc(rs: seq<Reading>, n: nat)
    requires n < |rs|
    ensures Subjects(rs[..n + 1]) == Subjects(rs[..n]) + (if IsSubject(rs[n]) then [(rs[n].key, rs[n].value.value)] else [])
  {
    assert rs[..n + 1][..n] == rs[..n];
  }

  /** The subjects of a prefix of the readings are a prefix of the subjects. */
  lemma {:induction false} SubjectsPrefix(rs: seq<Reading>, m: nat, n: nat)
    requires m <= n <= |rs|
    ensures Subjects(rs[..m]) <= Subjects(rs[..n])
    decreases n - m
  {
    if m < n {
      SubjectsPrefix(rs, m, n - 1);
      SubjectsSnoc(rs, n - 1);
    }
  }

  /** A subject reading sits in the subjects after those of the readings
      before it. */
  lemma SubjectOfReading(rs: seq<Reading>, i: nat)
    requires i < |rs| && IsSubject(rs[i])
    ensures |Subjects(rs[..i])| < |Subjects(rs)|
    ensures Subjects(rs)[|Subjects(rs[..i])|] == (rs[i].key, rs[i].value.value)
  {
    SubjectsSnoc(rs, i);
    SubjectsPrefix(rs, i + 1, |rs|);
    assert rs[..|rs|] == rs;
  }

  /** Every subject comes from a subject reading. */
  lemma {:induction false} SubjectAt(rs: seq<Reading>, b: nat) returns (i: nat)
    requires b < |Subjects(rs)|
    ensures i < |rs| && IsSubject(rs[i]) && |Subjects(rs[..i])| == b
    decreases |rs|
  {
    var n := |rs| - 1;
    assert Subjects(rs) == Subjects(rs[..n]) + (if IsSubject(rs[n]) then [(rs[n].key, rs[n].value.value)] else []);
    if b < |Subjects(rs[..n])| {
      i := SubjectAt(rs[..n], b);
      assert rs[..n][..i] == rs[..i];
    } else {
      i := n;
    }
  }

  /** The lines come in the fixed order weakest, gap, band, each present
      exactly under its condition. */
  lemma AnalyzeLines(rs: seq<Reading>)
    ensures var lines := Analyze(rs); var t := Aggregate(rs);
      && lines[|lines| - 1] == Band(t.percentage)
      && |lines| == (if |Subjects(rs)| > 0 then 1 else 0) + (if GapLine(t).Some? then 1 else 0) + 1
      && (GapLine(t).Some? ==> lines[|lines| - 2] == GapLine(t).value)
  {
  }

  /** Over the dict itself: an item is a subject exactly when `float()`
      accepts its value and its lowercased key contains none of the
      excluded terms; an item whose value is not numeric is never one. */
  lemma SubjectItems<V>(items: seq<(string, V)>, toFloat: V -> Option<real>, k: string, m: real)
    ensures (k, m) in Subjects(Readings(items, toFloat)) <==>
      exists i :: 0 <= i < |items| && items[i].0 == k && toFloat(items[i].1) == Some(m) && !ContainsAny(Lower(k), ExcludedTerms)
  {
    var rs := Readings(items, toFloat);
    SubjectsIff(rs, (k, m));
    assert forall i :: 0 <= i < |items| ==> rs[i] == Reading(items[i].0, Classify(items[i].0), toFloat(items[i].1));
  }

  /** A record holding only a percentage gets no weakest-subject line and,
      since the percentage is known, no gap line: just its band. */
  lemma PercentageOnly(key: string, p: real)
    requires key == "Percentage"
    ensures AnalyzeStudent([(key, p)], (x: real) => Some(x)) == [Band(Some(p))]
  {
    PercentageKey(key);
    var rs := Readings([(key, p)], (x: real) => Some(x));
    assert rs == [Reading(key, Classify(key), Some(p))];
    assert Subjects(rs) == Subjects(rs[..0]) + [];
    assert Aggregate(rs) == Step(Aggregate(rs[..0]), rs[0]);
  }

  lemma PercentageKey(key: string)
    requires key == "Percentage"
    ensures Classify(key).excluded && Classify(key).percent
  {
    var lk := Lower(key);
    assert lk[..7] == "percent";
    assert OccursAt(lk, ExcludedTerms[0], 0);
  }

  /** The two worked bands: 91 per cent is excellent, 59 needs improvement. */
  lemma PercentageExamples(key: string)
    requires key == "Percentage"
    ensures AnalyzeStudent([(key, 91.0)], (x: real) => Some(x)) == [Excellent]
    ensures AnalyzeStudent([(key, 59.0)], (x: real) => Some(x)) == [NeedsImprovement]
  {
    PercentageOnly(key, 91.0);
    PercentageOnly(key, 59.0);
  }

  /** A term with a character the text lacks does not occur in it. */
  lemma MissingCharNotContained(s: string, t: string, j: nat)
    requires j < |t| && t[j] !in s
    ensures !Contains(s, t)
  {
    forall k: nat | k + |t| <= |s|
      ensures !OccursAt(s, t, k)
    {
      assert s[k..k + |t|][j] == s[k + j];
    }
    ContainsIff(s, t);
  }

  /** Neither "maths" nor "science" contains an excluded term, "percent",
      "total" or "max": each lacks a character of each. */
  lemma PlainLowerKey(lk: string)
    requires lk == "maths" || lk == "science"
    ensures !ContainsAny(lk, ExcludedTerms)
    ensures !Contains(lk, "percent") && !Contains(lk, "total") && !Contains(lk, "max")
  {
    MissingCharNotContained(lk, "percent", 0);
    MissingCharNotContained(lk, "cgpa", 2);
    MissingCharNotContained(lk, "sgpa", 1);
    MissingCharNotContained(lk, "total", 1);
    MissingCharNotContained(lk, "backlog", 0);
    MissingCharNotContained(lk, "gpa", 0);
    if lk == "maths" {
      MissingCharNotContained(lk, "max", 2);
    } else {
      MissingCharNotContained(lk, "max", 0);
    }
  }

  /** "Maths" and "Science" are plain subject keys. */
  lemma PlainSubjectKey(key: string)
    requires key == "Maths" || key == "Science"
    ensures Classify(key) == KeyClass(false, false, false, false)
  {
    var lk := Lower(key);
    if key == "Maths" {
      assert lk == "maths";
    } else {
      assert lk == "science";
    }
    PlainLowerKey(lk);
  }

  /** Of two subjects with the same mark, the one earlier in the dict is
      the weakest: `min` keeps the first of equal marks, so the dict's
      iteration order decides. */
  lemma TieGoesToFirstItem<V>(a: string, x: V, b: string, y: V, toFloat: V -> Option<real>, m: real)
    requires toFloat(x) == Some(m) && toFloat(y) == Some(m)
    requires !ContainsAny(Lower(a), ExcludedTerms) && !ContainsAny(Lower(b), ExcludedTerms)
    ensures AnalyzeStudent([(a, x), (b, y)], toFloat)[0] == Weakest(a, m)
  {
    var rs := Readings([(a, x), (b, y)], toFloat);
    assert rs[0] == Reading(a, Classify(a), Some(m)) && rs[1] == Reading(b, Classify(b), Some(m));
    assert IsSubject(rs[0]);
    SubjectOfReading(rs, 0);
    WeakestIsFirstMinimal(rs);
    var w := Analyze(rs)[0];
    var i :| 0 <= i < |rs| && IsSubject(rs[i]) && (rs[i].key, rs[i].value.value) == (w.subject, w.mark)
      && (forall j :: 0 <= j < i && IsSubject(rs[j]) ==> rs[j].value.value > w.mark);
    assert i == 0;
  }

  /** Two subjects and no aggregates: the lower one is the weakest, the gap
      cannot be computed, and the percentage is missing. */
  lemma TwoSubjectsExample(maths: string, science: string)
    requires maths == "Maths" && science == "Science"
    ensures AnalyzeStudent([(maths, 40.0), (science, 90.0)], (x: real) => Some(x))
      == [Weakest(maths, 40.0), GapUnknown, PercentNotFound]
  {
    PlainSubjectKey(maths);
    PlainSubjectKey(science);
    var rs := Readings([(maths, 40.0), (science, 90.0)], (x: real) => Some(x));
    var plain := KeyClass(false, false, false, false);
    assert rs == [Reading(maths, plain, Some(40.0)), Reading(science, plain, Some(90.0))];
    assert rs[..1][..0] == rs[..0];
    assert Subjects(rs[..1]) == [(maths, 40.0)];
    assert Subjects(rs) == [(maths, 40.0), (science, 90.0)];
    assert Aggregate(rs[..1]) == Totals(None, 0.0, 0.0);
    assert Aggregate(rs) == Totals(None, 0.0, 0.0);
    assert FirstMin(Subjects(rs)) == 0;
  }

  /** "Max Marks" contains no excluded term but does contain "max", so a
      numeric "Max Marks" is both a subject and the max total. */
  lemma MaxMarksIsSubjectAndMax(key: string, m: real)
    requires key == "Max Marks"
    ensures var rs := Readings([(key, m)], (x: real) => Some(x));
      Subjects(rs) == [(key, m)] && Aggregate(rs).maxTotal == m
  {
    MaxMarksKey(key);
    var rs := Readings([(key, m)], (x: real) => Some(x));
    assert rs == [Reading(key, KeyClass(false, false, false, true), Some(m))];
    assert Subjects(rs) == Subjects(rs[..0]) + [(key, m)];
    assert Aggregate(rs) == Step(Aggregate(rs[..0]), rs[0]);
  }

  lemma MaxMarksKey(key: string)
    requires key == "Max Marks"
    ensures Classify(key) == KeyClass(false, false, false, true)
  {
    var lk := Lower(key);
    assert lk == "max marks";
    MaxLowerKey(lk);
  }

  /** "max marks" contains "max" but no excluded term, "percent" or
      "total". */
  lemma MaxLowerKey(lk: string)
    requires lk == "max marks"
    ensures !ContainsAny(lk, ExcludedTerms)
    ensures !Contains(lk, "percent") && !Contains(lk, "total") && Contains(lk, "max")
  {
    MissingCharNotContained(lk, "percent", 0);
    MissingCharNotContained(lk, "cgpa", 2);
    MissingCharNotContained(lk, "sgpa", 1);
    MissingCharNotContained(lk, "total", 0);
    MissingCharNotContained(lk, "backlog", 0);
    MissingCharNotContained(lk, "gpa", 0);
    assert lk[..3] == "max";
    assert OccursAt(lk, "max", 0);
  }

  // ---------------------------------------------------------------------
  // generate_suggestions
  // ---------------------------------------------------------------------

  const NoInsights: string := "No insights available."

  /** The emoji each line starts with. */
  function Icon(line: Insight): (icon: string)
    ensures |icon| > 0 && icon[0] != 'N'
  {
    match line
    case Weakest(_, _) => "\U{1F4C9}"
    case Gap(_) => "\U{1F3AF}"
    case GapUnknown => "\U{26A0}\U{FE0F}"
    case Excellent => "\U{1F31F}"
    case Good => "\U{1F44D}"
    case Decent => "\U{1F642}"
    case NeedsImprovement => "\U{26A0}\U{FE0F}"
    case PercentNotFound => "\U{2139}\U{FE0F}"
  }

  /** The text of one line after its emoji. Python's float formatting is
      not modelled: the mark and the gap are shown by `showMark`
      (`str(float)`) and `showGap` (`format(x, '.1f')`). */
  function Message(line: Insight, showMark: real -> string, showGap: real -> string): string {
    match line
    case Weakest(subject, mark) => "Weakest subject: **" + subject + "** (" + showMark(mark) + " marks)"
    case Gap(diff) => "You need **" + showGap(diff) + "** more marks to reach **90%** overall."
    case GapUnknown => "Total or max marks not found to calculate gap to 90%."
    case Excellent => "Excellent performance! Keep it up."
    case Good => "Good job, aim even higher!"
    case Decent => "Decent performance. Focus on weaker areas."
    case NeedsImprovement => "Needs improvement. Seek help in weak subjects."
    case PercentNotFound => "Percentage not found in data."
  }

  /** One rendered line: its emoji, a space, then its message. */
  function Render(line: Insight, showMark: real -> string, showGap: real -> string): (s: string)
    ensures |Icon(line)| < |s| && s[..|Icon(line)|] == Icon(line) && s[|Icon(line)|] == ' '
    ensures s[|Icon(line)| + 1..] == Message(line, showMark, showGap)
    ensures s[0] != 'N'
  {
    Icon(line) + [' '] + Message(line, showMark, showGap)
  }

  /** Every line rendered, in order. */
  function RenderAll(lines: seq<Insight>, showMark: real -> string, showGap: real -> string): (texts: seq<string>)
    ensures |texts| == |lines|
    ensures forall k :: 0 <= k < |lines| ==> texts[k] == Render(lines[k], showMark, showGap)
  {
    seq(|lines|, k requires 0 <= k < |lines| => Render(lines[k], showMark, showGap))
  }

  /** `generate_suggestions`: the lines joined by newlines, or the fallback
      when there are none; there is always a band line, so the text is never
      the fallback and starts with the first line's emoji. */
  function GenerateSuggestions<V>(items: seq<(string, V)>, toFloat: V -> Option<real>, showMark: real -> string, showGap: real -> string): (r: string)
    ensures r != NoInsights
    ensures |r| > 0 && r[0] == Icon(AnalyzeStudent(items, toFloat)[0])[0]
  {
    var lines := AnalyzeStudent(items, toFloat);
    var texts := RenderAll(lines, showMark, showGap);
    if |texts| > 0 then
      JoinStartsWithFirst(texts, '\n');
      assert texts[0][0] == Icon(lines[0])[0];
      Join(texts, '\n')
    else NoInsights
  }

  /** Splitting the text at newlines gives back the rendered lines when no
      subject key holds a newline and the two number formats print none
      (`str(float)` and `format(x, '.1f')` never do). */
  lemma SuggestionsAreTheLines<V>(items: seq<(string, V)>, toFloat: V -> Option<real>, showMark: real -> string, showGap: real -> string)
    requires forall x :: '\n' !in showMark(x) && '\n' !in showGap(x)
    requires forall i :: 0 <= i < |items| && toFloat(items[i].1).Some? && !ContainsAny(Lower(items[i].0), ExcludedTerms) ==>
      '\n' !in items[i].0
    ensures Split(GenerateSuggestions(items, toFloat, showMark, showGap), {'\n'}) ==
      RenderAll(AnalyzeStudent(items, toFloat), showMark, showGap)
  {
    var texts := RenderAll(AnalyzeStudent(items, toFloat), showMark, showGap);
    RenderedLinesAreOneLine(items, toFloat, showMark, showGap);
    SplitJoin(texts, '\n', {'\n'});
  }

  lemma RenderedLinesAreOneLine<V>(items: seq<(string, V)>, toFloat: V -> Option<real>, showMark: real -> string, showGap: real -> string)
    requires forall x :: '\n' !in showMark(x) && '\n' !in showGap(x)
    requires forall i :: 0 <= i < |items| && toFloat(items[i].1).Some? && !ContainsAny(Lower(items[i].0), ExcludedTerms) ==>
      '\n' !in items[i].0
    ensures var texts := RenderAll(AnalyzeStudent(items, toFloat), showMark, showGap);
      forall k :: 0 <= k < |texts| ==> NoneOf(texts[k], {'\n'})
  {
    var lines := AnalyzeStudent(items, toFloat);
    assert lines == Analyze(Readings(items, toFloat));
    if lines[0].Weakest? {
      SubjectItems(items, toFloat, lines[0].subject, lines[0].mark);
    }
    forall k | 0 <= k < |lines|
      ensures NoneOf(Render(lines[k], showMark, showGap), {'\n'})
    {
      RenderHasNoNewline(lines[k], showMark, showGap);
    }
  }

  /** A rendered line holds no newline when its subject and the two number
      formats hold none. */
  lemma RenderHasNoNewline(line: Insight, showMark: real -> string, showGap: real -> string)
    requires forall x :: '\n' !in showMark(x) && '\n' !in showGap(x)
    requires line.Weakest? ==> '\n' !in line.subject
    ensures NoneOf(Render(line, showMark, showGap), {'\n'})
  {
    IconHasNoNewline(line);
    MessageHasNoNewline(line, showMark, showGap);
    var s := Render(line, showMark, showGap);
    assert forall k :: 0 <= k < |s| ==> s[k] in Icon(line) || s[k] == ' ' || s[k] in Message(line, showMark, showGap);
  }

  lemma IconHasNoNewline(line: Insight)
    ensures '\n' !in Icon(line)
  {
  }

  /** Z3 follows a string literal only some forty characters deep, so each
      long message is first checked on a prefix of it. */
  lemma MessageHasNoNewline(line: Insight, showMark: real -> string, showGap: real -> string)
    requires forall x :: '\n' !in showMark(x) && '\n' !in showGap(x)
    requires line.Weakest? ==> '\n' !in line.subject
    ensures '\n' !in Message(line, showMark, showGap)
  {
    match line {
      case Weakest(_, _) => WeakestIsOneLine(line, showMark, showGap);
      case Gap(_) => GapIsOneLine(line, showMark, showGap);
      case GapUnknown => GapUnknownIsOneLine(line, showMark, showGap);
      case NeedsImprovement => NeedsImprovementIsOneLine(line, showMark, showGap);
      case Excellent => PraiseIsOneLine(line, showMark, showGap);
      case Good => PraiseIsOneLine(line, showMark, showGap);
      case Decent => DecentOrNotFoundIsOneLine(line, showMark, showGap);
      case PercentNotFound => DecentOrNotFoundIsOneLine(line, showMark, showGap);
    }
  }

  lemma WeakestIsOneLine(line: Insight, showMark: real -> string, showGap: real -> string)
    requires forall x :: '\n' !in showMark(x)
    requires line.Weakest? && '\n' !in line.subject
    ensures '\n' !in Message(line, showMark, showGap)
  {
    var m := showMark(line.mark);
    assert Message(line, showMark, showGap) == "Weakest subject: **" + line.subject + "** (" + m + " marks)";
  }

  lemma GapIsOneLine(line: Insight, showMark: real -> string, showGap: real -> string)
    requires forall x :: '\n' !in showGap(x)
    requires line.Gap?
    ensures '\n' !in Message(line, showMark, showGap)
  {
    var g := showGap(line.diff);
    assert '\n' !in "** more marks to reach";
    assert Message(line, showMark, showGap) == "You need **" + g + "** more marks to reach **90%** overall.";
  }

  lemma PraiseIsOneLine(line: Insight, showMark: real -> string, showGap: real -> string)
    requires line == Excellent || line == Good
    ensures '\n' !in Message(line, showMark, showGap)
  {
  }

  lemma DecentOrNotFoundIsOneLine(line: Insight, showMark: real -> string, showGap: real -> string)
    requires line == Decent || line == PercentNotFound
    ensures '\n' !in Message(line, showMark, showGap)
  {
    assert '\n' !in "Decent performance.";
  }

  lemma GapUnknownIsOneLine(line: Insight, showMark: real -> string, showGap: real -> string)
    requires line == GapUnknown
    ensures '\n' !in Message(line, showMark, showGap)
  {
    assert '\n' !in "Total or max marks not fou";
  }

  lemma NeedsImprovementIsOneLine(line: Insight, showMark: real -> string, showGap: real -> string)
    requires line == NeedsImprovement
    ensures '\n' !in Message(line, showMark, showGap)
  {
    assert '\n' !in "Needs improvement. Seek";
  }
}
