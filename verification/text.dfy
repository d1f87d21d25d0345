/** Character classes and the string primitives the parsers are built from:
    Python's `str.strip`, `str.lower`, `in` on strings, `str.split`,
    `str.splitlines` and `str.join`, over `seq<char>`. */
module Text {

  /** Python's `str.isspace()`, which is also what the `\s` class of `re`
      accepts in a text pattern: the ASCII blanks \t \n \v \f \r and space,
      the separators U+001C..U+001F, and the Unicode space characters. */
  predicate IsSpace(c: char) {
    || ('\t' <= c <= '\r')
    || ('\U{1C}' <= c <= '\U{1F}')
    || c == ' '
    || c == '\U{85}'
    || c == '\U{A0}'
    || c == '\U{1680}'
    || ('\U{2000}' <= c <= '\U{200A}')
    || c == '\U{2028}'
    || c == '\U{2029}'
    || c == '\U{202F}'
    || c == '\U{205F}'
    || c == '\U{3000}'
  }

  /** `\d`, restricted to the ASCII digits. */
  predicate IsDigit(c: char) {
    '0' <= c <= '9'
  }

  /** `\w`, restricted to ASCII letters, ASCII digits and underscore. */
  predicate IsWordChar(c: char) {
    ('a' <= c <= 'z') || ('A' <= c <= 'Z') || IsDigit(c) || c == '_'
  }

  /** The regex class `[\w ]`: a word character or a plain space. */
  predicate IsWordOrSpace(c: char) {
    IsWordChar(c) || c == ' '
  }

  /** The line boundaries of Python's `str.splitlines`. */
  const LineBreaks: set<char> :=
    {'\n', '\r', '\U{B}', '\U{C}', '\U{1C}', '\U{1D}', '\U{1E}', '\U{85}', '\U{2028}', '\U{2029}'}

  predicate AllSpace(s: string) {
    forall k :: 0 <= k < |s| ==> IsSpace(s[k])
  }

  /** `str.lower()` on one character, for ASCII letters. */
  function LowerChar(c: char): (r: char)
    ensures IsWordChar(c) <==> IsWordChar(r)
    ensures IsSpace(r) <==> IsSpace(c)
  {
    if 'A' <= c <= 'Z' then (c as int - 'A' as int + 'a' as int) as char else c
  }

  function Lower(s: string): (r: string)
    ensures |r| == |s|
    ensures forall k :: 0 <= k < |s| ==> r[k] == LowerChar(s[k])
  {
    if |s| == 0 then [] else [LowerChar(s[0])] + Lower(s[1..])
  }

  /** Lowercasing leaves no ASCII capital, so lowercasing again changes
      nothing. */
  lemma LowerIsIdempotent(s: string)
    ensures forall k :: 0 <= k < |s| ==> !('A' <= Lower(s)[k] <= 'Z')
    ensures Lower(Lower(s)) == Lower(s)
  {
  }

  // ---------------------------------------------------------------------
  // Whitespace skipping and str.strip()
  // ---------------------------------------------------------------------

  /** The first index at or after `i` that does not hold whitespace
      (a greedy `\s*` starting at `i` ends there). */
  function SkipSpace(s: string, i: nat): (j: nat)
    requires i <= |s|
    ensures i <= j <= |s|
    ensures AllSpace(s[i..j])
    ensures j < |s| ==> !IsSpace(s[j])
    decreases |s| - i
  {
    if i == |s| || !IsSpace(s[i]) then i
    else
      var j := SkipSpace(s, i + 1);
      assert s[i..j] == [s[i]] + s[i + 1..j];
      j
  }

  /** `SkipSpace` stops at the first non-whitespace character. */
  lemma SkipSpaceIsFirst(s: string, i: nat, j: nat)
    requires i <= j <= |s| && AllSpace(s[i..j]) && (j == |s| || !IsSpace(s[j]))
    ensures SkipSpace(s, i) == j
  {
    var e := SkipSpace(s, i);
    assert forall k :: i <= k < j ==> s[i..j][k - i] == s[k];
    assert forall k :: i <= k < e ==> s[i..e][k - i] == s[k];
  }

  /** `\s*` taken from `i` ends at `j`: whitespace up to `j`, and none at `j`. */
  predicate SpaceRunTo(s: string, i: nat, j: nat) {
    i <= j <= |s| && AllSpace(s[i..j]) && (j == |s| || !IsSpace(s[j]))
  }

  /** Walks `j` back over trailing whitespace, but not below `lo`. */
  function TrimEnd(s: string, lo: nat, j: nat): (e: nat)
    requires lo <= j <= |s|
    requires AllSpace(s[j..])
    ensures lo <= e <= j
    ensures AllSpace(s[e..])
    ensures e == lo || !IsSpace(s[e - 1])
    decreases j
  {
    if j > lo && IsSpace(s[j - 1]) then
      assert s[j - 1..] == [s[j - 1]] + s[j..];
      TrimEnd(s, lo, j - 1)
    else j
  }

  /** `r` is `s` with its leading and trailing whitespace removed: a slice of
      `s` that neither starts nor ends with whitespace, with only whitespace
      cut off on either side. */
  ghost predicate IsStripOf(s: string, r: string) {
    exists i, j ::
      && 0 <= i <= j <= |s|
      && r == s[i..j]
      && AllSpace(s[..i])
      && AllSpace(s[j..])
      && IsStripped(r)
  }

  /** `s` neither starts nor ends with whitespace. */
  predicate IsStripped(s: string) {
    s == [] || (!IsSpace(s[0]) && !IsSpace(s[|s| - 1]))
  }

  /** Python's `str.strip()` with no argument. */
  function Strip(s: string): (r: string)
    ensures IsStripOf(s, r)
    ensures |r| <= |s|
    ensures forall c :: c in r ==> c in s
  {
    var i := SkipSpace(s, 0);
    var j := TrimEnd(s, i, |s|);
    StripBounds(s, i, j);
    s[i..j]
  }

  /** The slice between the leading and the trailing whitespace is a strip. */
  lemma StripBounds(s: string, i: nat, j: nat)
    requires i <= j <= |s| && AllSpace(s[0..i]) && (i < |s| ==> !IsSpace(s[i]))
    requires AllSpace(s[j..]) && (j == i || !IsSpace(s[j - 1]))
    ensures IsStripOf(s, s[i..j])
    ensures forall c :: c in s[i..j] ==> c in s
  {
    assert s[..i] == s[0..i];
    assert forall k :: 0 <= k < j - i ==> s[i..j][k] == s[i + k];
    assert IsStripped(s[i..j]);
  }

  /** There is only one way to strip a string. */
  lemma StripIsUnique(s: string, r1: string, r2: string)
    requires IsStripOf(s, r1) && IsStripOf(s, r2)
    ensures r1 == r2
  {
    var i1, j1 :| 0 <= i1 <= j1 <= |s| && r1 == s[i1..j1] && AllSpace(s[..i1]) && AllSpace(s[j1..]) && IsStripped(r1);
    var i2, j2 :| 0 <= i2 <= j2 <= |s| && r2 == s[i2..j2] && AllSpace(s[..i2]) && AllSpace(s[j2..]) && IsStripped(r2);
    StripBoundsAgree(s, i1, j1, i2, j2);
  }

  lemma StripBoundsAgree(s: string, i1: nat, j1: nat, i2: nat, j2: nat)
    requires i1 <= j1 <= |s| && AllSpace(s[..i1]) && AllSpace(s[j1..]) && IsStripped(s[i1..j1])
    requires i2 <= j2 <= |s| && AllSpace(s[..i2]) && AllSpace(s[j2..]) && IsStripped(s[i2..j2])
    ensures s[i1..j1] == s[i2..j2]
  {
    if i1 < j1 {
      assert s[i1..j1][0] == s[i1] && s[i1..j1][j1 - i1 - 1] == s[j1 - 1];
      NotInSpaceBorders(s, i1, i2, j2);
      NotInSpaceBorders(s, j1 - 1, i2, j2);
    }
    if i2 < j2 {
      assert s[i2..j2][0] == s[i2] && s[i2..j2][j2 - i2 - 1] == s[j2 - 1];
      NotInSpaceBorders(s, i2, i1, j1);
      NotInSpaceBorders(s, j2 - 1, i1, j1);
    }
  }

  /** One blank before a stripped string is stripped away. */
  lemma StripLeadingBlank(s: string)
    requires IsStripped(s)
    ensures Strip([' '] + s) == s
  {
    var t := [' '] + s;
    assert t[1..|t|] == s && t[..1] == [' '] && t[|t|..] == [];
    assert IsStripOf(t, s);
    StripIsUnique(t, s, Strip(t));
  }

  /** A non-whitespace character lies between whitespace-only borders. */
  lemma NotInSpaceBorders(s: string, k: nat, i: nat, j: nat)
    requires k < |s| && !IsSpace(s[k]) && i <= j <= |s|
    requires AllSpace(s[..i]) && AllSpace(s[j..])
    ensures i <= k < j
  {
  }

  /** A string that neither starts nor ends with whitespace is its own strip. */
  lemma StripKeeps(s: string)
    requires IsStripped(s)
    ensures Strip(s) == s
  {
    assert s[..0] == [] && s[|s|..] == [] && s[0..|s|] == s;
    assert IsStripOf(s, s);
    StripIsUnique(s, s, Strip(s));
  }

  // ---------------------------------------------------------------------
  // Substring search: Python's `t in s`
  // ---------------------------------------------------------------------

  /** `t` occurs in `s` starting at index `k`. */
  predicate OccursAt(s: string, t: string, k: nat) {
    k + |t| <= |s| && s[k..k + |t|] == t
  }

  predicate ContainsFrom(s: string, t: string, i: nat)
    decreases |s| - i
  {
    i + |t| <= |s| && (OccursAt(s, t, i) || ContainsFrom(s, t, i + 1))
  }

  /** Python's `t in s` for strings. */
  predicate Contains(s: string, t: string) {
    ContainsFrom(s, t, 0)
  }

  /** The scan agrees with the definition of a substring. */
  lemma {:induction false} ContainsFromIff(s: string, t: string, i: nat)
    ensures ContainsFrom(s, t, i) <==> exists k :: i <= k && OccursAt(s, t, k)
    decreases |s| - i
  {
    if i + |t| <= |s| && !OccursAt(s, t, i) {
      ContainsFromIff(s, t, i + 1);
      if exists k :: i <= k && OccursAt(s, t, k) {
        var k :| i <= k && OccursAt(s, t, k);
        assert k != i;
      }
    }
  }

  lemma ContainsIff(s: string, t: string)
    ensures Contains(s, t) <==> exists k :: OccursAt(s, t, k)
  {
    ContainsFromIff(s, t, 0);
  }

  /** Python's `any(t in s for t in terms)`. */
  predicate ContainsAny(s: string, terms: seq<string>) {
    exists k :: 0 <= k < |terms| && Contains(s, terms[k])
  }

  // ---------------------------------------------------------------------
  // Splitting and joining
  // ---------------------------------------------------------------------

  predicate NoneOf(s: string, seps: set<char>) {
    forall k :: 0 <= k < |s| ==> s[k] !in seps
  }

  /** The index of the first character of `s` in `seps`, or `|s|`. */
  function IndexOfAny(s: string, seps: set<char>): (i: nat)
    ensures i <= |s|
    ensures NoneOf(s[..i], seps)
    ensures i < |s| ==> s[i] in seps
    decreases |s|
  {
    if |s| == 0 || s[0] in seps then 0
    else
      var i := 1 + IndexOfAny(s[1..], seps);
      assert forall k :: 1 <= k < i ==> s[..i][k] == s[1..][..i - 1][k - 1];
      i
  }

  /** Cuts `s` at every character in `seps`; always at least one piece, and
      no piece holds a separator. With one separator this is Python's
      `s.split(c)`. */
  function Split(s: string, seps: set<char>): (parts: seq<string>)
    ensures |parts| >= 1
    ensures forall k :: 0 <= k < |parts| ==> NoneOf(parts[k], seps)
    decreases |s|
  {
    var i := IndexOfAny(s, seps);
    if i == |s| then [s] else [s[..i]] + Split(s[i + 1..], seps)
  }

  /** Every character of a piece comes from the split string. */
  lemma {:induction false} SplitPieceChars(s: string, seps: set<char>, j: nat)
    requires j < |Split(s, seps)|
    ensures forall c | c in Split(s, seps)[j] :: c in s
    decreases |s|
  {
    var i := IndexOfAny(s, seps);
    if i < |s| && j > 0 {
      SplitPieceChars(s[i + 1..], seps, j - 1);
      assert forall c | c in s[i + 1..] :: c in s;
    }
  }

  /** Python's `str.splitlines()`, cutting at each line-boundary character.
      It differs from Python only in empty pieces: "\r\n" gives an empty
      piece between its two characters, and a final boundary gives an empty
      last piece, where Python gives neither. No piece holds a boundary, and
      text without one is a single line. */
  function SplitLines(s: string): (lines: seq<string>)
    ensures |lines| >= 1
    ensures forall k :: 0 <= k < |lines| ==> NoneOf(lines[k], LineBreaks)
    ensures NoneOf(s, LineBreaks) ==> lines == [s]
  {
    Split(s, LineBreaks)
  }

  /** Text whose only boundary is "\n" is its lines joined by "\n". */
  lemma SplitLinesJoin(s: string)
    requires NoneOf(s, LineBreaks - {'\n'})
    ensures Join(SplitLines(s), '\n') == s
  {
    SplitSame(s, LineBreaks, {'\n'});
    JoinSplit(s, '\n');
  }

  /** Two separator sets that agree on every character of `s` cut it alike. */
  lemma {:induction false} SplitSame(s: string, a: set<char>, b: set<char>)
    requires forall k :: 0 <= k < |s| ==> (s[k] in a <==> s[k] in b)
    ensures Split(s, a) == Split(s, b)
    decreases |s|
  {
    IndexOfAnySame(s, a, b);
    var i := IndexOfAny(s, a);
    if i < |s| {
      var rest := s[i + 1..];
      assert forall k :: 0 <= k < |rest| ==> rest[k] == s[i + 1 + k];
      SplitSame(rest, a, b);
      assert Split(s, a) == [s[..i]] + Split(rest, a);
    }
  }

  lemma {:induction false} IndexOfAnySame(s: string, a: set<char>, b: set<char>)
    requires forall k :: 0 <= k < |s| ==> (s[k] in a <==> s[k] in b)
    ensures IndexOfAny(s, a) == IndexOfAny(s, b)
    decreases |s|
  {
    if |s| > 0 && s[0] !in a {
      var rest := s[1..];
      assert forall k :: 0 <= k < |rest| ==> rest[k] == s[k + 1];
      IndexOfAnySame(rest, a, b);
    }
  }

  /** Python's `sep.join(parts)` for a one-character separator. */
  function Join(parts: seq<string>, sep: char): string
    decreases |parts|
  {
    if |parts| == 0 then []
    else if |parts| == 1 then parts[0]
    else parts[0] + [sep] + Join(parts[1..], sep)
  }

  /** Splitting at `c` and joining with `c` gives the text back. */
  lemma {:induction false} JoinSplit(s: string, c: char)
    ensures Join(Split(s, {c}), c) == s
    decreases |s|
  {
    var i := IndexOfAny(s, {c});
    if i < |s| {
      var rest := Split(s[i + 1..], {c});
      JoinSplit(s[i + 1..], c);
      assert Split(s, {c}) == [s[..i]] + rest;
      assert Join(Split(s, {c}), c) == s[..i] + [c] + Join(rest, c);
      assert s == s[..i] + [s[i]] + s[i + 1..];
    }
  }

  /** Joining pieces that hold no separator with the separator `c` and
      splitting at the separators gives the pieces back. */
  lemma {:induction false} SplitJoin(parts: seq<string>, c: char, seps: set<char>)
    requires |parts| >= 1 && c in seps
    requires forall k :: 0 <= k < |parts| ==> NoneOf(parts[k], seps)
    ensures Split(Join(parts, c), seps) == parts
    decreases |parts|
  {
    var s := Join(parts, c);
    if |parts| == 1 {
      assert IndexOfAny(s, seps) == |s|;
    } else {
      var tail := Join(parts[1..], c);
      assert s == parts[0] + [c] + tail;
      var i := IndexOfAny(s, seps);
      assert s[|parts[0]|] == c;
      assert s[..i] == parts[0];
      assert s[i + 1..] == tail;
      SplitJoin(parts[1..], c, seps);
      assert parts == [parts[0]] + parts[1..];
    }
  }

  /** The first character of a join is the first character of the first
      part, when that part is not empty. */
  lemma JoinStartsWithFirst(parts: seq<string>, sep: char)
    requires |parts| >= 1 && |parts[0]| >= 1
    ensures |Join(parts, sep)| >= 1 && Join(parts, sep)[0] == parts[0][0]
  {
  }
}
