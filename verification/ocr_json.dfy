/** The fixed-field extractor of core/ocr_json.py: five labelled patterns,
    each searched case-insensitively in the OCR text, giving a dict with
    exactly those five keys.

    Each pattern has the shape `Label\s*[:\-]?\s*(CAPTURE)`, where a
    two-word label has `\s*` between its words. Under Python's backtracking
    matcher the greedy first attempt at a start position is the only one
    that can succeed there (no quantifier can give back a character that
    the next element would accept), so a pattern is modelled as a
    deterministic scanner `MatchAt`, and `re.search` as the leftmost start
    position at which `MatchAt` succeeds. */
module OcrJson {
  import opened Options
  import opened Text
  import opened Dicts

  /** The capture group that ends a pattern. */
  datatype Tail =
    | RestOfLine   // `(.*)`: everything up to the next "\n"
    | Decimal      // `(\d+\.\d+)`
    | PassOrFail   // `(PASS|FAIL)`, case-insensitively

  /** One entry of FIELD_PATTERNS: the output key, the words of the label in
      lower case, and the capture that follows the label. */
  datatype FieldRule = FieldRule(key: string, words: seq<string>, tail: Tail)

  /** FIELD_PATTERNS, in the dict's order. */
  const FieldPatterns: seq<FieldRule> := [
    FieldRule("Student Name", ["student", "name"], RestOfLine),
    FieldRule("College Name", ["college", "name"], RestOfLine),
    FieldRule("SGPA", ["sgpa"], Decimal),
    FieldRule("CGPA", ["cgpa"], Decimal),
    FieldRule("Result", ["result"], PassOrFail)
  ]

  const FieldKeys: set<string> := {"Student Name", "College Name", "SGPA", "CGPA", "Result"}

  // ---------------------------------------------------------------------
  // One pattern at one start position
  // ---------------------------------------------------------------------

  /** The lower-case word `w` occurs at `p`, ignoring case. */
  predicate WordAt(text: string, p: nat, w: string) {
    p + |w| <= |text| && Lower(text[p..p + |w|]) == w
  }

  /** Where the label `words` (joined by `\s*`) ends when it starts at `p`. */
  function LabelEnd(text: string, p: nat, words: seq<string>): (r: Option<nat>)
    requires p <= |text|
    ensures r.Some? ==> p <= r.value <= |text|
    decreases |words|
  {
    if |words| == 0 then Some(p)
    else if !WordAt(text, p, words[0]) then None
    else if |words| == 1 then Some(p + |words[0]|)
    else LabelEnd(text, SkipSpace(text, p + |words[0]|), words[1..])
  }

  /** `[:\-]?` at `i`. */
  function SkipSeparator(text: string, i: nat): (j: nat)
    requires i <= |text|
    ensures j == i || (i < |text| && j == i + 1 && (text[i] == ':' || text[i] == '-'))
    ensures j == i ==> i == |text| || (text[i] != ':' && text[i] != '-')
  {
    if i < |text| && (text[i] == ':' || text[i] == '-') then i + 1 else i
  }

  /** Where the capture starts after a label ending at `e`: `\s*[:\-]?\s*`,
      each part taken greedily. The first `\s*` may cross line breaks. */
  function CaptureStart(text: string, e: nat): (c: nat)
    requires e <= |text|
    ensures e <= c <= |text|
  {
    SkipSpace(text, SkipSeparator(text, SkipSpace(text, e)))
  }

  /** The label `words` runs from `p` to `e`: each word in any letter case,
      consecutive words separated by a run of whitespace that goes as far
      as it can (`\s*`). */
  ghost predicate LabelSpan(text: string, p: nat, words: seq<string>, e: nat)
    decreases |words|
  {
    && |words| > 0
    && WordAt(text, p, words[0])
    && if |words| == 1 then e == p + |words[0]|
       else exists g :: SpaceRunTo(text, p + |words[0]|, g) && LabelSpan(text, g, words[1..], e)
  }

  /** `\s*[:\-]?\s*` runs from `e` to `c`: whitespace as far as it goes,
      then one ':' or '-' when one is there, then whitespace as far as it
      goes. */
  ghost predicate SeparatorSpan(text: string, e: nat, c: nat) {
    exists a :: SpaceRunTo(text, e, a) && DashOrColonThenSpace(text, a, c)
  }

  /** `[:\-]?\s*` runs from `a` to `c`. */
  predicate DashOrColonThenSpace(text: string, a: nat, c: nat) {
    if a < |text| && (text[a] == ':' || text[a] == '-') then SpaceRunTo(text, a + 1, c) else SpaceRunTo(text, a, c)
  }

  /** The index of the first "\n" at or after `i`, or `|text|`. */
  function LineEnd(text: string, i: nat): (j: nat)
    requires i <= |text|
    ensures i <= j <= |text|
    ensures '\n' !in text[i..j]
    ensures j < |text| ==> text[j] == '\n'
    decreases |text| - i
  {
    if i == |text| || text[i] == '\n' then i
    else
      var j := LineEnd(text, i + 1);
      assert text[i..j] == [text[i]] + text[i + 1..j];
      j
  }

  /** The end of the run of digits starting at `i`. */
  function DigitsEnd(text: string, i: nat): (j: nat)
    requires i <= |text|
    ensures i <= j <= |text|
    ensures AllDigits(text[i..j])
    ensures j < |text| ==> !IsDigit(text[j])
    decreases |text| - i
  {
    if i == |text| || !IsDigit(text[i]) then i
    else
      var j := DigitsEnd(text, i + 1);
      assert text[i..j] == [text[i]] + text[i + 1..j];
      j
  }

  predicate AllDigits(s: string) {
    forall k :: 0 <= k < |s| ==> IsDigit(s[k])
  }

  /** `s` has the form `\d+\.\d+`. */
  ghost predicate IsDecimal(s: string) {
    exists d :: 0 < d < |s| - 1 && s[d] == '.' && AllDigits(s[..d]) && AllDigits(s[d + 1..])
  }

  /** `DigitsEnd` stops at the first character that is not a digit. */
  lemma {:induction false} DigitsEndIsFirst(text: string, i: nat, j: nat)
    requires i <= j <= |text| && (forall m :: i <= m < j ==> IsDigit(text[m]))
    requires j == |text| || !IsDigit(text[j])
    ensures DigitsEnd(text, i) == j
    decreases j - i
  {
    if i < j {
      DigitsEndIsFirst(text, i + 1, j);
    }
  }

  /** The digits of a decimal, position by position. */
  lemma DecimalDigits(s: string, d: nat)
    requires 0 < d < |s| - 1 && s[d] == '.' && AllDigits(s[..d]) && AllDigits(s[d + 1..])
    ensures forall m :: 0 <= m < d ==> IsDigit(s[m])
    ensures forall m :: d < m < |s| ==> IsDigit(s[m])
  {
    assert forall m :: 0 <= m < d ==> s[m] == s[..d][m];
    assert forall m :: d < m < |s| ==> s[m] == s[d + 1..][m - d - 1];
  }

  /** A decimal at `c` is a run of digits ending at "." and followed by a
      digit. */
  lemma DecimalAtShape(text: string, c: nat, n: nat)
    requires c < n <= |text| && IsDecimal(text[c..n])
    ensures var d := DigitsEnd(text, c);
      c < d < |text| && text[d] == '.' && DigitsEnd(text, d + 1) > d + 1
  {
    var k := DecimalPoint(text[c..n]);
    DecimalRuns(text, c, text[c..n], k);
  }

  /** The position of the point in a decimal. */
  lemma DecimalPoint(s: string) returns (k: nat)
    requires IsDecimal(s)
    ensures 0 < k < |s| - 1 && s[k] == '.' && AllDigits(s[..k]) && AllDigits(s[k + 1..])
  {
    k :| 0 < k < |s| - 1 && s[k] == '.' && AllDigits(s[..k]) && AllDigits(s[k + 1..]);
  }

  /** The runs of a decimal `value` at `c`, split at its point `k`. */
  lemma DecimalRuns(text: string, c: nat, value: string, k: nat)
    requires c + |value| <= |text| && text[c..c + |value|] == value
    requires 0 < k < |value| - 1 && value[k] == '.' && AllDigits(value[..k]) && AllDigits(value[k + 1..])
    ensures DigitsEnd(text, c) == c + k && c + k + 1 < |text| && text[c + k] == '.'
    ensures DigitsEnd(text, c + k + 1) > c + k + 1
  {
    DecimalInText(text, c, value, k);
    DigitsEndIsFirst(text, c, c + k);
    assert IsDigit(text[c + k + 1]);
  }

  /** Digits, ".", and digits again, make a decimal. */
  lemma DecimalOfRuns(text: string, c: nat, d: nat, e: nat)
    requires c < d && d + 1 < e <= |text| && text[d] == '.'
    requires AllDigits(text[c..d]) && AllDigits(text[d + 1..e])
    ensures IsDecimal(text[c..e])
  {
    var s := text[c..e];
    assert s[d - c] == '.';
    assert s[..d - c] == text[c..d] && s[d - c + 1..] == text[d + 1..e];
  }

  /** `(\d+\.\d+)` matches at `c` exactly when the digits there are followed
      by "." and at least one more digit. */
  lemma DecimalAtIff(text: string, c: nat)
    requires c <= |text|
    ensures var d := DigitsEnd(text, c);
      (exists n :: c < n <= |text| && IsDecimal(text[c..n])) <==>
      (c < d < |text| && text[d] == '.' && DigitsEnd(text, d + 1) > d + 1)
  {
    var d := DigitsEnd(text, c);
    if exists n :: c < n <= |text| && IsDecimal(text[c..n]) {
      var n :| c < n <= |text| && IsDecimal(text[c..n]);
      DecimalAtShape(text, c, n);
    }
    if c < d < |text| && text[d] == '.' && DigitsEnd(text, d + 1) > d + 1 {
      DecimalOfRuns(text, c, d, DigitsEnd(text, d + 1));
    }
  }

  /** The capture group of `tail` at `c`, or None when it does not match. */
  function CaptureAt(text: string, c: nat, tail: Tail): (r: Option<string>)
    requires c <= |text|
    ensures r.Some? ==> OccursAt(text, r.value, c)
    ensures tail == RestOfLine ==> r.Some? && '\n' !in r.value
    ensures tail == RestOfLine ==> c + |r.value| == |text| || text[c + |r.value|] == '\n'
    ensures tail == Decimal ==> (r.Some? <==> exists n :: c < n <= |text| && IsDecimal(text[c..n]))
    ensures tail == Decimal && r.Some? ==> IsDecimal(r.value)
    ensures tail == Decimal && r.Some? ==> c + |r.value| == |text| || !IsDigit(text[c + |r.value|])
    ensures tail == PassOrFail ==> (r.Some? <==> WordAt(text, c, "pass") || WordAt(text, c, "fail"))
    ensures tail == PassOrFail && r.Some? ==> Lower(r.value) == "pass" || Lower(r.value) == "fail"
  {
    match tail
    case RestOfLine =>
      Some(text[c..LineEnd(text, c)])
    case Decimal =>
      DecimalGroupAt(text, c)
    case PassOrFail =>
      if WordAt(text, c, "pass") || WordAt(text, c, "fail") then
        PassOrFailAt(text, c);
        Some(text[c..c + 4])
      else None
  }

  /** The capture of `(\d+\.\d+)` at `c`: digits, a point, digits. */
  function DecimalGroupAt(text: string, c: nat): (r: Option<string>)
    requires c <= |text|
    ensures r.Some? ==> OccursAt(text, r.value, c)
    ensures r.Some? <==> exists n :: c < n <= |text| && IsDecimal(text[c..n])
    ensures r.Some? ==> IsDecimal(r.value)
    ensures r.Some? ==> c + |r.value| == |text| || !IsDigit(text[c + |r.value|])
  {
    DecimalAtIff(text, c);
    var d := DigitsEnd(text, c);
    if d == c || d == |text| || text[d] != '.' then None
    else
      var e := DigitsEnd(text, d + 1);
      if e == d + 1 then None
      else
        DecimalOfRuns(text, c, d, e);
        Some(text[c..e])
  }

  /** The four characters at `c` spell "pass" or "fail". */
  lemma PassOrFailAt(text: string, c: nat)
    requires WordAt(text, c, "pass") || WordAt(text, c, "fail")
    ensures c + 4 <= |text| && OccursAt(text, text[c..c + 4], c)
    ensures Lower(text[c..c + 4]) == "pass" || Lower(text[c..c + 4]) == "fail"
  {
  }

  /** The capture of `rule` when its pattern matches at start position `p`
      (what `re.match(pattern, text[p:], re.IGNORECASE)` captures). */
  function MatchAt(text: string, p: nat, rule: FieldRule): (r: Option<string>)
    ensures r.Some? ==> p <= |text|
    ensures r.Some? && |rule.words| > 0 ==> WordAt(text, p, rule.words[0])
    ensures r.Some? ==> LabelEnd(text, p, rule.words).Some?
    ensures r.Some? ==> exists c :: LabelEnd(text, p, rule.words).value <= c <= |text| && CaptureAt(text, c, rule.tail) == r
    ensures r.Some? ==> exists c :: p <= c <= |text| && OccursAt(text, r.value, c)
  {
    if p > |text| then None
    else
      match LabelEnd(text, p, rule.words)
      case None => None
      case Some(e) => CaptureAt(text, CaptureStart(text, e), rule.tail)
  }

  // ---------------------------------------------------------------------
  // re.search: the leftmost start position
  // ---------------------------------------------------------------------

  /** `cap` is what the leftmost match of `rule` in `text` captures, and that
      match starts at `p`. */
  ghost predicate LeftmostMatch(text: string, rule: FieldRule, p: nat, cap: string) {
    && p <= |text|
    && MatchAt(text, p, rule) == Some(cap)
    && forall k :: 0 <= k < p ==> MatchAt(text, k, rule).None?
  }

  /** The pattern of `rule` matches nowhere in `text`. */
  ghost predicate NoMatch(text: string, rule: FieldRule) {
    forall k :: 0 <= k <= |text| ==> MatchAt(text, k, rule).None?
  }

  /** The first position `k` with `p <= k <= last` at which `at` succeeds,
      together with what it gives there. */
  function FirstFrom<T>(at: nat -> Option<T>, p: nat, last: nat): (r: Option<(nat, T)>)
    requires p <= last
    ensures r.None? ==> forall k | p <= k <= last :: at(k).None?
    ensures r.Some? ==> p <= r.value.0 <= last && at(r.value.0) == Some(r.value.1)
    ensures r.Some? ==> forall k | p <= k < r.value.0 :: at(k).None?
    decreases last - p
  {
    match at(p)
    case Some(v) => Some((p, v))
    case None => if p == last then None else FirstFrom(at, p + 1, last)
  }

  /** `re.search(pattern, text, re.IGNORECASE)`: tries the start positions
      0, 1, ..., |text| in turn and reports the first that matches, with its
      capture. */
  function Search(text: string, rule: FieldRule): (r: Option<(nat, string)>)
    ensures r.None? <==> NoMatch(text, rule)
    ensures r.Some? ==> LeftmostMatch(text, rule, r.value.0, r.value.1)
  {
    var at := (k: nat) => MatchAt(text, k, rule);
    var r := FirstFrom(at, 0, |text|);
    assert r.None? ==> NoMatch(text, rule) by {
      forall k | 0 <= k <= |text| && r.None?
        ensures MatchAt(text, k, rule).None?
      {
        assert at(k).None?;
      }
    }
    assert r.Some? ==> forall k :: 0 <= k < r.value.0 ==> MatchAt(text, k, rule).None? by {
      forall k | r.Some? && 0 <= k < r.value.0
        ensures MatchAt(text, k, rule).None?
      {
        assert at(k).None?;
      }
    }
    r
  }

  /** A leftmost match is unique. */
  lemma LeftmostIsUnique(text: string, rule: FieldRule, p: nat, cap: string, q: nat, cap': string)
    requires LeftmostMatch(text, rule, p, cap) && LeftmostMatch(text, rule, q, cap')
    ensures p == q && cap == cap'
  {
  }

  /** `match.group(1).strip() if match else ""` for one field. */
  function FieldValue(text: string, rule: FieldRule): (v: string)
    ensures NoMatch(text, rule) ==> v == ""
    ensures forall p, cap | LeftmostMatch(text, rule, p, cap) :: v == Strip(cap)
  {
    match Search(text, rule)
    case None => ""
    case Some((q, cap)) =>
      assert forall p, cap' | LeftmostMatch(text, rule, p, cap') :: cap' == cap by {
        forall p, cap' | LeftmostMatch(text, rule, p, cap')
          ensures cap' == cap
        {
          LeftmostIsUnique(text, rule, p, cap', q, cap);
        }
      }
      Strip(cap)
  }

  // ---------------------------------------------------------------------
  // parse_text_with_regex
  // ---------------------------------------------------------------------

  /** The loop of `parse_text_with_regex`: `result[field] = value(pattern)`
      for each entry of `rules` in order. */
  function AssignFields(rules: seq<FieldRule>, value: FieldRule -> string): (r: map<string, string>)
    ensures r.Keys == set i | 0 <= i < |rules| :: rules[i].key
    ensures forall i | 0 <= i < |rules| && (forall j | i < j < |rules| :: rules[j].key != rules[i].key) ::
      r[rules[i].key] == value(rules[i])
  {
    var pairs := seq(|rules|, i requires 0 <= i < |rules| => (rules[i].key, value(rules[i])));
    AssignedPairs(rules, value, pairs);
    LastWins(pairs)
  }

  /** The pairs `AssignFields` assigns: one per rule, in order. */
  lemma AssignedPairs(rules: seq<FieldRule>, value: FieldRule -> string, pairs: seq<(string, string)>)
    requires |pairs| == |rules| && forall i | 0 <= i < |rules| :: pairs[i] == (rules[i].key, value(rules[i]))
    ensures KeysOf(pairs) == set i | 0 <= i < |rules| :: rules[i].key
    ensures forall i | 0 <= i < |rules| && (forall j | i < j < |rules| :: rules[j].key != rules[i].key) ::
      IsLastIndex(pairs, i) && pairs[i] == (rules[i].key, value(rules[i]))
  {
    forall i | 0 <= i < |rules| && (forall j | i < j < |rules| :: rules[j].key != rules[i].key)
      ensures IsLastIndex(pairs, i)
    {
      forall j | i < j < |pairs|
        ensures pairs[j].0 != pairs[i].0
      {
        assert pairs[j].0 == rules[j].key;
      }
    }
  }

  /** `parse_text_with_regex(text)`: exactly the five keys of FIELD_PATTERNS,
      whatever the text. */
  function ParseTextWithRegex(text: string): (r: map<string, string>)
    ensures r.Keys == FieldKeys
  {
    var keys := set i | 0 <= i < |FieldPatterns| :: FieldPatterns[i].key;
    assert keys == FieldKeys by {
      assert FieldPatterns[0].key == "Student Name" && FieldPatterns[1].key == "College Name";
      assert FieldPatterns[2].key == "SGPA" && FieldPatterns[3].key == "CGPA" && FieldPatterns[4].key == "Result";
    }
    AssignFields(FieldPatterns, rule => FieldValue(text, rule))
  }

  /** The value stored under a field's key: "" when its pattern matches
      nowhere in the text (never absent, never an error), otherwise the
      capture of the leftmost match with surrounding whitespace stripped. */
  lemma FieldIsStrippedLeftmostCapture(text: string, i: nat)
    requires i < |FieldPatterns|
    ensures NoMatch(text, FieldPatterns[i]) ==> ParseTextWithRegex(text)[FieldPatterns[i].key] == ""
    ensures forall p, cap | LeftmostMatch(text, FieldPatterns[i], p, cap) ::
      ParseTextWithRegex(text)[FieldPatterns[i].key] == Strip(cap)
  {
    assert forall j | i < j < |FieldPatterns| :: FieldPatterns[j].key != FieldPatterns[i].key;
  }

  /** The stored value is the stripped capture of `re.search`, or "". */
  lemma FieldFromSearch(text: string, i: nat)
    requires i < |FieldPatterns|
    ensures var v := ParseTextWithRegex(text)[FieldPatterns[i].key];
      match Search(text, FieldPatterns[i])
      case None => v == ""
      case Some((_, cap)) => v == Strip(cap)
  {
    FieldIsStrippedLeftmostCapture(text, i);
  }

  /** The dict holds, under each field's key, that field's value. */
  lemma FieldIsFieldValue(text: string, i: nat)
    requires i < |FieldPatterns|
    ensures ParseTextWithRegex(text)[FieldPatterns[i].key] == FieldValue(text, FieldPatterns[i])
  {
    assert forall j | i < j < |FieldPatterns| :: FieldPatterns[j].key != FieldPatterns[i].key;
  }

  /** What a successful match at `p` captures, by kind of capture. */
  lemma MatchAtCapture(text: string, p: nat, rule: FieldRule)
    requires p <= |text| && MatchAt(text, p, rule).Some?
    ensures var cap := MatchAt(text, p, rule).value;
      && Contains(text, cap)
      && (rule.tail == RestOfLine ==> '\n' !in cap)
      && (rule.tail == Decimal ==> IsDecimal(cap))
      && (rule.tail == PassOrFail ==> Lower(cap) == "pass" || Lower(cap) == "fail")
  {
    var e := LabelEnd(text, p, rule.words).value;
    ContainsIff(text, MatchAt(text, p, rule).value);
  }

  lemma DecimalIsStripped(s: string)
    requires IsDecimal(s)
    ensures Strip(s) == s
  {
    var d :| 0 < d < |s| - 1 && s[d] == '.' && AllDigits(s[..d]) && AllDigits(s[d + 1..]);
    assert s[0] == s[..d][0] && s[|s| - 1] == s[d + 1..][|s| - d - 2];
    StripKeeps(s);
  }

  lemma PassOrFailIsStripped(s: string)
    requires Lower(s) == "pass" || Lower(s) == "fail"
    ensures Strip(s) == s
  {
    var l := Lower(s);
    assert |l| == 4 && (l[0] == 'p' || l[0] == 'f') && (l[3] == 's' || l[3] == 'l');
    assert LowerChar(s[0]) == l[0] && LowerChar(s[3]) == l[3];
    StripKeeps(s);
  }

  /** A label needs at least one character, so the empty text matches no
      pattern. */
  lemma NoMatchInEmptyText(text: string, rule: FieldRule)
    requires |text| == 0 && |rule.words| > 0 && |rule.words[0]| > 0
    ensures NoMatch(text, rule)
  {
    assert MatchAt(text, 0, rule).None?;
  }

  /** Empty text gives every one of the five fields as "". */
  lemma EmptyTextGivesEmptyFields(text: string)
    requires |text| == 0
    ensures var r := ParseTextWithRegex(text);
      r["Student Name"] == r["College Name"] == r["SGPA"] == r["CGPA"] == r["Result"] == ""
  {
    EmptyTextField(text, 0);
    EmptyTextField(text, 1);
    EmptyTextField(text, 2);
    EmptyTextField(text, 3);
    EmptyTextField(text, 4);
  }

  lemma EmptyTextField(text: string, i: nat)
    requires |text| == 0 && i < |FieldPatterns|
    ensures ParseTextWithRegex(text)[FieldPatterns[i].key] == ""
  {
    NoMatchInEmptyText(text, FieldPatterns[i]);
    FieldIsStrippedLeftmostCapture(text, i);
  }

  /** A non-empty SGPA or CGPA value has the form digits "." digits. */
  lemma GpaFieldsAreDecimal(text: string)
    ensures var r := ParseTextWithRegex(text);
      && (r["SGPA"] == "" || IsDecimal(r["SGPA"]))
      && (r["CGPA"] == "" || IsDecimal(r["CGPA"]))
  {
    DecimalField(text, 2);
    DecimalField(text, 3);
  }

  lemma DecimalField(text: string, i: nat)
    requires i < |FieldPatterns| && FieldPatterns[i].tail == Decimal
    ensures var v := ParseTextWithRegex(text)[FieldPatterns[i].key]; v == "" || IsDecimal(v)
  {
    FieldFromSearch(text, i);
    var found := Search(text, FieldPatterns[i]);
    if found.Some? {
      MatchAtCapture(text, found.value.0, FieldPatterns[i]);
      DecimalIsStripped(found.value.1);
    }
  }

  /** A non-empty Result value is "PASS" or "FAIL" up to case, spelled exactly
      as it appears in the text. */
  lemma ResultFieldIsPassOrFail(text: string)
    ensures var v := ParseTextWithRegex(text)["Result"];
      v == "" || ((Lower(v) == "pass" || Lower(v) == "fail") && Contains(text, v))
  {
    FieldFromSearch(text, 4);
    var found := Search(text, FieldPatterns[4]);
    if found.Some? {
      MatchAtCapture(text, found.value.0, FieldPatterns[4]);
      PassOrFailIsStripped(found.value.1);
    }
  }

  /** Name and college values never span a line break: `(.*)` stops at "\n". */
  lemma NameFieldsAreSingleLine(text: string)
    ensures var r := ParseTextWithRegex(text);
      '\n' !in r["Student Name"] && '\n' !in r["College Name"]
  {
    assert FieldPatterns[0].key == "Student Name" && FieldPatterns[1].key == "College Name";
    RestOfLineField(text, 0);
    RestOfLineField(text, 1);
  }

  lemma RestOfLineField(text: string, i: nat)
    requires i < |FieldPatterns| && FieldPatterns[i].tail == RestOfLine
    ensures '\n' !in ParseTextWithRegex(text)[FieldPatterns[i].key]
  {
    FieldFromSearch(text, i);
    var found := Search(text, FieldPatterns[i]);
    if found.Some? {
      MatchAtCapture(text, found.value.0, FieldPatterns[i]);
    }
  }

  // ---------------------------------------------------------------------
  // The converse: a labelled line is read
  // ---------------------------------------------------------------------

  /** The words of a label written with one space between them, as a
      marksheet prints them. */
  function LabelText(words: seq<string>): string
    decreases |words|
  {
    if |words| == 0 then ""
    else if |words| == 1 then words[0]
    else words[0] + " " + LabelText(words[1..])
  }

  /** Every word of a label starts with a character that is not whitespace. */
  predicate SolidWords(words: seq<string>) {
    forall k :: 0 <= k < |words| ==> |words[k]| > 0 && !IsSpace(words[k][0])
  }

  lemma FieldWordsAreSolid(i: nat)
    requires i < |FieldPatterns|
    ensures |FieldPatterns[i].words| > 0 && SolidWords(FieldPatterns[i].words)
  {
  }

  /** `caption` lowered is `t`, stated character by character. */
  predicate SpelledAs(caption: string, t: string) {
    |caption| == |t| && forall k :: 0 <= k < |caption| ==> LowerChar(caption[k]) == t[k]
  }

  lemma SpelledAsLower(caption: string, t: string)
    requires SpelledAs(caption, t)
    ensures Lower(caption) == t
  {
  }

  lemma LowerSpelledAs(caption: string, t: string)
    requires Lower(caption) == t
    ensures SpelledAs(caption, t)
  {
  }

  /** A label spelled with single spaces, in any letter case, is read to its
      end. */
  lemma {:induction false} LabelEndAt(text: string, p: nat, words: seq<string>, caption: string)
    requires |words| > 0 && SolidWords(words)
    requires p + |caption| <= |text| && text[p..p + |caption|] == caption && SpelledAs(caption, LabelText(words))
    ensures LabelEnd(text, p, words) == Some(p + |caption|)
    decreases |words|
  {
    if |words| == 1 {
      LastWordAt(text, p, words, caption);
    } else {
      var q, more := NextWordAt(text, p, words, caption);
      LabelEndAt(text, q, words[1..], more);
    }
  }

  /** A one-word label is the whole caption. */
  lemma LastWordAt(text: string, p: nat, words: seq<string>, caption: string)
    requires |words| == 1 && SolidWords(words)
    requires p + |caption| <= |text| && text[p..p + |caption|] == caption && SpelledAs(caption, LabelText(words))
    ensures LabelEnd(text, p, words) == Some(p + |caption|)
  {
    SpelledAsLower(caption, LabelText(words));
    FirstWordAt(text, p, words, caption);
    assert |Lower(caption)| == |words[0]|;
  }

  /** Past the first word and the space after it, the label goes on, and
      the rest of the caption spells the rest of the words. */
  lemma NextWordAt(text: string, p: nat, words: seq<string>, caption: string) returns (q: nat, more: string)
    requires |words| > 1 && SolidWords(words)
    requires p + |caption| <= |text| && text[p..p + |caption|] == caption && SpelledAs(caption, LabelText(words))
    ensures q == p + |words[0]| + 1 && q + |more| == p + |caption| && text[q..q + |more|] == more
    ensures SpelledAs(more, LabelText(words[1..])) && SolidWords(words[1..])
    ensures LabelEnd(text, p, words) == LabelEnd(text, q, words[1..])
  {
    q, more := NextWordSpelled(text, p, words, caption);
    LabelGoesOn(text, p, words, caption);
  }

  lemma NextWordSpelled(text: string, p: nat, words: seq<string>, caption: string) returns (q: nat, more: string)
    requires |words| > 1 && SolidWords(words)
    requires p + |caption| <= |text| && text[p..p + |caption|] == caption && SpelledAs(caption, LabelText(words))
    ensures q == p + |words[0]| + 1 && q + |more| == p + |caption| && text[q..q + |more|] == more
    ensures SpelledAs(more, LabelText(words[1..])) && SolidWords(words[1..])
  {
    SpelledAsLower(caption, LabelText(words));
    q, more := NextWordOf(text, p, words, caption);
    LowerSpelledAs(more, LabelText(words[1..]));
  }

  lemma LabelGoesOn(text: string, p: nat, words: seq<string>, caption: string)
    requires |words| > 1 && SolidWords(words)
    requires p + |caption| <= |text| && text[p..p + |caption|] == caption && SpelledAs(caption, LabelText(words))
    ensures p + |words[0]| + 1 <= |text|
    ensures LabelEnd(text, p, words) == LabelEnd(text, p + |words[0]| + 1, words[1..])
  {
    SpelledAsLower(caption, LabelText(words));
    LabelEndAfterFirstWord(text, p, words, caption);
  }

  lemma NextWordOf(text: string, p: nat, words: seq<string>, caption: string) returns (q: nat, more: string)
    requires |words| > 1 && SolidWords(words)
    requires p + |caption| <= |text| && text[p..p + |caption|] == caption && Lower(caption) == LabelText(words)
    ensures q == p + |words[0]| + 1 && q + |more| == p + |caption| && text[q..q + |more|] == more
    ensures Lower(more) == LabelText(words[1..]) && SolidWords(words[1..])
  {
    var j := |words[0]| + 1;
    FirstWordAt(text, p, words, caption);
    q, more := p + j, caption[j..];
    CaptionSuffix(text, p, caption, j);
    LowerSuffix(caption, j);
    SolidTail(words);
  }

  /** The label goes on past its first word and the space after it. */
  lemma LabelEndAfterFirstWord(text: string, p: nat, words: seq<string>, caption: string)
    requires |words| > 1 && SolidWords(words)
    requires p + |caption| <= |text| && text[p..p + |caption|] == caption && Lower(caption) == LabelText(words)
    ensures p + |words[0]| + 1 <= |text|
    ensures LabelEnd(text, p, words) == LabelEnd(text, p + |words[0]| + 1, words[1..])
  {
    FirstWordAt(text, p, words, caption);
    GapAfterFirstWord(text, p, words, caption);
    LabelEndStep(text, p, words);
  }

  lemma LabelEndStep(text: string, p: nat, words: seq<string>)
    requires |words| > 1 && p + |words[0]| + 1 <= |text| && WordAt(text, p, words[0])
    requires SkipSpace(text, p + |words[0]|) == p + |words[0]| + 1
    ensures LabelEnd(text, p, words) == LabelEnd(text, p + |words[0]| + 1, words[1..])
  {
  }

  /** The first word of a label is found where its caption starts. */
  lemma FirstWordAt(text: string, p: nat, words: seq<string>, caption: string)
    requires |words| > 0 && SolidWords(words)
    requires p + |caption| <= |text| && text[p..p + |caption|] == caption && Lower(caption) == LabelText(words)
    ensures |words[0]| <= |caption| && WordAt(text, p, words[0])
    ensures |words| > 1 ==> |words[0]| + 1 < |caption| && Lower(caption)[|words[0]| + 1..] == LabelText(words[1..])
  {
    var w := words[0];
    LabelTextHead(words);
    var found := Lower(text[p..p + |w|]);
    forall k | 0 <= k < |w|
      ensures found[k] == w[k]
    {
      assert text[p..p + |w|][k] == text[p..p + |caption|][k];
    }
  }

  /** `LabelText` begins with the first word, then a space and the rest. */
  lemma LabelTextHead(words: seq<string>)
    requires |words| > 0 && SolidWords(words)
    ensures var t := LabelText(words);
      && |words[0]| <= |t| && t[..|words[0]|] == words[0]
      && (|words| == 1 ==> t == words[0])
      && (|words| > 1 ==> |words[0]| + 1 < |t| && t[|words[0]|] == ' ' && t[|words[0]| + 1..] == LabelText(words[1..]))
  {
    if |words| > 1 {
      var rest := LabelText(words[1..]);
      assert LabelText(words) == words[0] + " " + rest;
      LabelTextHead(words[1..]);
    }
  }

  /** Between two words of a label there is exactly the one space the
      caption has, and `\s*` takes it. */
  lemma GapAfterFirstWord(text: string, p: nat, words: seq<string>, caption: string)
    requires |words| > 1 && SolidWords(words)
    requires p + |caption| <= |text| && text[p..p + |caption|] == caption && Lower(caption) == LabelText(words)
    ensures |words[0]| + 1 < |caption|
    ensures SkipSpace(text, p + |words[0]|) == p + |words[0]| + 1
  {
    var j := |words[0]|;
    LabelGap(words);
    CaptionCharAt(text, p, caption, j);
    CaptionCharAt(text, p, caption, j + 1);
    SkipOneSpace(text, p + j);
  }

  /** In `LabelText`, the first word is followed by one space and then a
      character that is not whitespace. */
  lemma LabelGap(words: seq<string>)
    requires |words| > 1 && SolidWords(words)
    ensures var t, j := LabelText(words), |words[0]|;
      j + 1 < |t| && t[j] == ' ' && !IsSpace(t[j + 1])
  {
    LabelTextHead(words);
    SolidTail(words);
    LabelTextHead(words[1..]);
    var t, j := LabelText(words), |words[0]|;
    assert t[j + 1] == t[j + 1..][0] == LabelText(words[1..])[..|words[1]|][0];
  }

  /** A character of the caption, as the text holds it and as `Lower` reads it. */
  lemma CaptionCharAt(text: string, p: nat, caption: string, k: nat)
    requires p + |caption| <= |text| && text[p..p + |caption|] == caption && k < |caption|
    ensures text[p + k] == caption[k] && Lower(caption)[k] == LowerChar(text[p + k])
  {
    assert text[p..p + |caption|][k] == text[p + k];
  }

  lemma SkipOneSpace(s: string, i: nat)
    requires i + 1 < |s| && IsSpace(s[i]) && !IsSpace(s[i + 1])
    ensures SkipSpace(s, i) == i + 1
  {
  }

  /** The slice of `text` that holds `caption` holds each of its suffixes. */
  lemma CaptionSuffix(text: string, p: nat, caption: string, j: nat)
    requires p + |caption| <= |text| && text[p..p + |caption|] == caption && j <= |caption|
    ensures text[p + j..p + |caption|] == caption[j..]
  {
    var whole, tail := text[p..p + |caption|], text[p + j..p + |caption|];
    assert forall k :: 0 <= k < |tail| ==> tail[k] == whole[j + k];
  }

  lemma LowerSuffix(s: string, j: nat)
    requires j <= |s|
    ensures Lower(s[j..]) == Lower(s)[j..]
  {
    var t := s[j..];
    var a, b := Lower(t), Lower(s)[j..];
    forall k | 0 <= k < |a|
      ensures a[k] == b[k]
    {
      assert a[k] == LowerChar(t[k]) && t[k] == s[j + k];
    }
  }

  lemma SolidTail(words: seq<string>)
    requires |words| > 0 && SolidWords(words)
    ensures SolidWords(words[1..])
  {
    assert forall k :: 0 <= k < |words| - 1 ==> words[1..][k] == words[k + 1];
  }

  /** `value` is all the capture of `tail` takes when `post` follows it:
      the value has the group's shape and the group cannot go on into
      `post`. */
  ghost predicate Fits(value: string, post: string, tail: Tail) {
    match tail
    case RestOfLine => '\n' !in value && (post == [] || post[0] == '\n')
    case Decimal => IsDecimal(value) && (post == [] || !IsDigit(post[0]))
    case PassOrFail => Lower(value) == "pass" || Lower(value) == "fail"
  }

  lemma {:induction false} LineEndIsFirst(text: string, i: nat, j: nat)
    requires i <= j <= |text| && (forall m :: i <= m < j ==> text[m] != '\n')
    requires j == |text| || text[j] == '\n'
    ensures LineEnd(text, i) == j
    decreases j - i
  {
    if i < j {
      LineEndIsFirst(text, i + 1, j);
    }
  }

  /** A value that fits its capture group is exactly what the group takes. */
  lemma CaptureAtFits(text: string, c: nat, value: string, post: string, tail: Tail)
    requires c + |value| <= |text| && text[c..c + |value|] == value && text[c + |value|..] == post
    requires Fits(value, post, tail)
    ensures CaptureAt(text, c, tail) == Some(value)
  {
    var n := c + |value|;
    assert n < |text| ==> text[n] == post[0];
    match tail
    case RestOfLine =>
      assert forall m :: c <= m < n ==> text[m] == value[m - c];
      LineEndIsFirst(text, c, n);
    case Decimal =>
      DecimalFits(text, c, value);
    case PassOrFail =>
      assert |value| == 4;
  }

  lemma DecimalFits(text: string, c: nat, value: string)
    requires c + |value| <= |text| && text[c..c + |value|] == value && IsDecimal(value)
    requires c + |value| == |text| || !IsDigit(text[c + |value|])
    ensures CaptureAt(text, c, Decimal) == Some(value)
  {
    var n := c + |value|;
    var k :| 0 < k < |value| - 1 && value[k] == '.' && AllDigits(value[..k]) && AllDigits(value[k + 1..]);
    DecimalInText(text, c, value, k);
    DigitsEndIsFirst(text, c, c + k);
    DigitsEndIsFirst(text, c + k + 1, n);
    DecimalCapture(text, c, c + k, n);
  }

  /** Where the two runs of digits end decides the decimal capture. */
  lemma DecimalCapture(text: string, c: nat, d: nat, e: nat)
    requires c < d < |text| && text[d] == '.' && DigitsEnd(text, c) == d
    requires d + 1 < e <= |text| && DigitsEnd(text, d + 1) == e
    ensures CaptureAt(text, c, Decimal) == Some(text[c..e])
  {
  }

  /** The digits and the point of a decimal, at their places in the text. */
  lemma DecimalInText(text: string, c: nat, value: string, k: nat)
    requires c + |value| <= |text| && text[c..c + |value|] == value
    requires 0 < k < |value| - 1 && value[k] == '.' && AllDigits(value[..k]) && AllDigits(value[k + 1..])
    ensures forall m :: c <= m < c + k ==> IsDigit(text[m])
    ensures text[c + k] == '.'
    ensures forall m :: c + k < m < c + |value| ==> IsDigit(text[m])
  {
    DecimalDigits(value, k);
    assert forall m :: c <= m < c + |value| ==> text[m] == value[m - c];
  }

  /** Where the pieces of a labelled line sit in the text. */
  lemma LabelledLineText(text: string, pre: string, caption: string, value: string, post: string)
    requires text == pre + caption + ": " + value + post
    ensures var p := |pre|;
      var e := p + |caption|;
      && e + 2 + |value| <= |text| && text[..p] == pre && text[p..e] == caption && text[e] == ':' && text[e + 1] == ' '
      && text[e + 2..e + 2 + |value|] == value && text[e + 2 + |value|..] == post
  {
  }

  /** After a label that ends at `e`, ": " and a value that fits the
      capture make a match that captures the value. */
  lemma MatchAtAfterLabel(text: string, p: nat, e: nat, value: string, post: string, rule: FieldRule)
    requires p <= e <= |text| && LabelEnd(text, p, rule.words) == Some(e)
    requires e + 2 + |value| <= |text| && text[e] == ':' && text[e + 1] == ' '
    requires text[e + 2..e + 2 + |value|] == value && text[e + 2 + |value|..] == post
    requires |value| > 0 && !IsSpace(value[0]) && Fits(value, post, rule.tail)
    ensures MatchAt(text, p, rule) == Some(value)
  {
    CaptureAfterColon(text, e, value, post, rule.tail);
    MatchAtStep(text, p, rule, e, e + 2);
  }

  lemma CaptureAfterColon(text: string, e: nat, value: string, post: string, tail: Tail)
    requires e + 2 + |value| <= |text| && text[e] == ':' && text[e + 1] == ' '
    requires text[e + 2..e + 2 + |value|] == value && text[e + 2 + |value|..] == post
    requires |value| > 0 && !IsSpace(value[0]) && Fits(value, post, tail)
    ensures CaptureStart(text, e) == e + 2 && CaptureAt(text, e + 2, tail) == Some(value)
  {
    assert text[e + 2] == value[0];
    CaptureStartAfterColon(text, e);
    CaptureAtFits(text, e + 2, value, post, tail);
  }

  lemma MatchAtStep(text: string, p: nat, rule: FieldRule, e: nat, c: nat)
    requires p <= e <= |text| && LabelEnd(text, p, rule.words) == Some(e) && CaptureStart(text, e) == c
    ensures MatchAt(text, p, rule) == CaptureAt(text, c, rule.tail)
  {
  }

  /** `LabelEnd` finds the end of the label exactly when the label spans
      the text from `p` to there. */
  lemma {:induction false} LabelEndSpan(text: string, p: nat, words: seq<string>, e: nat)
    requires p <= |text| && |words| > 0
    ensures LabelEnd(text, p, words) == Some(e) <==> LabelSpan(text, p, words, e)
    decreases |words|
  {
    if |words| > 1 && WordAt(text, p, words[0]) {
      var q := p + |words[0]|;
      var g := SkipSpace(text, q);
      LabelEndSpan(text, g, words[1..], e);
      assert SpaceRunTo(text, q, g);
      if LabelSpan(text, p, words, e) {
        var g' :| SpaceRunTo(text, q, g') && LabelSpan(text, g', words[1..], e);
        SkipSpaceIsFirst(text, q, g');
      }
    }
  }

  /** `CaptureStart` is where the separator that follows the label ends. */
  lemma CaptureStartSpan(text: string, e: nat, c: nat)
    requires e <= |text|
    ensures SeparatorSpan(text, e, c) <==> c == CaptureStart(text, e)
  {
    var a := SkipSpace(text, e);
    assert SpaceRunTo(text, e, a);
    DashOrColonEnd(text, a, c);
    if SeparatorSpan(text, e, c) {
      var a' :| SpaceRunTo(text, e, a') && DashOrColonThenSpace(text, a', c);
      SkipSpaceIsFirst(text, e, a');
    }
  }

  lemma DashOrColonEnd(text: string, a: nat, c: nat)
    requires a <= |text|
    ensures DashOrColonThenSpace(text, a, c) <==> c == SkipSpace(text, SkipSeparator(text, a))
  {
    var b := SkipSeparator(text, a);
    assert SpaceRunTo(text, b, SkipSpace(text, b));
    if DashOrColonThenSpace(text, a, c) {
      SkipSpaceIsFirst(text, b, c);
    }
  }

  /** Whatever label and separator spans follow `p`, the match at `p` is
      what the group captures after them. */
  lemma MatchAtSpans(text: string, p: nat, rule: FieldRule, e: nat, c: nat)
    requires p <= |text| && LabelSpan(text, p, rule.words, e) && SeparatorSpan(text, e, c)
    ensures c <= |text| && MatchAt(text, p, rule) == CaptureAt(text, c, rule.tail)
  {
    LabelEndSpan(text, p, rule.words, e);
    CaptureStartSpan(text, e, c);
    MatchAtStep(text, p, rule, e, c);
  }

  /** A match at `p` has a label span and a separator span, and captures
      what the group takes after them. */
  lemma MatchAtHasSpans(text: string, p: nat, rule: FieldRule) returns (e: nat, c: nat)
    requires |rule.words| > 0 && MatchAt(text, p, rule).Some?
    ensures LabelSpan(text, p, rule.words, e) && SeparatorSpan(text, e, c)
    ensures c <= |text| && MatchAt(text, p, rule) == CaptureAt(text, c, rule.tail)
  {
    e := LabelEnd(text, p, rule.words).value;
    c := CaptureStart(text, e);
    LabelEndSpan(text, p, rule.words, e);
    CaptureStartSpan(text, e, c);
  }

  /** After a label, ": " and then a character that is not whitespace put
      the capture right after the blank. */
  lemma CaptureStartAfterColon(text: string, e: nat)
    requires e + 2 < |text| && text[e] == ':' && text[e + 1] == ' ' && !IsSpace(text[e + 2])
    ensures CaptureStart(text, e) == e + 2
  {
    SkipSpaceIsFirst(text, e, e);
    SkipSpaceIsFirst(text, e + 1, e + 2);
  }

  /** A line "Label: value" is a match of its pattern at the line's start,
      capturing the value, when the caption spells the pattern's words with
      single spaces in any letter case and the value fits the capture. The
      line is given by where its pieces sit in the text: the caption at `p`,
      then ": ", the value, and `post` to the end of the text. */
  lemma MatchAtLabelledLine(text: string, p: nat, caption: string, value: string, post: string, rule: FieldRule)
    requires p + |caption| + 2 + |value| <= |text| && text[p..p + |caption|] == caption
    requires text[p + |caption|] == ':' && text[p + |caption| + 1] == ' '
    requires text[p + |caption| + 2..p + |caption| + 2 + |value|] == value
    requires text[p + |caption| + 2 + |value|..] == post
    requires |rule.words| > 0 && SolidWords(rule.words) && SpelledAs(caption, LabelText(rule.words))
    requires |value| > 0 && !IsSpace(value[0]) && Fits(value, post, rule.tail)
    ensures MatchAt(text, p, rule) == Some(value)
  {
    LabelEndAt(text, p, rule.words, caption);
    MatchAtAfterLabel(text, p, p + |caption|, value, post, rule);
  }

  /** When a labelled line is the first place its pattern matches, the
      pattern's field value is the line's value. The line is given by where
      its pieces sit in the text: a caption at `p` that spells the pattern's
      words with single spaces in any letter case, then ": ", the value, and
      `post` to the end of the text. */
  lemma FieldOfLabelledLine(text: string, p: nat, caption: string, value: string, post: string, rule: FieldRule)
    requires p + |caption| + 2 + |value| <= |text| && text[p..p + |caption|] == caption
    requires text[p + |caption|] == ':' && text[p + |caption| + 1] == ' '
    requires text[p + |caption| + 2..p + |caption| + 2 + |value|] == value
    requires text[p + |caption| + 2 + |value|..] == post
    requires |rule.words| > 0 && SolidWords(rule.words) && SpelledAs(caption, LabelText(rule.words))
    requires |value| > 0 && IsStripped(value) && Fits(value, post, rule.tail)
    requires forall k :: 0 <= k < p ==> MatchAt(text, k, rule).None?
    ensures FieldValue(text, rule) == value
  {
    LabelEndAt(text, p, rule.words, caption);
    FieldValueAfterLabel(text, p, p + |caption|, value, post, rule);
  }

  /** As `FieldOfLabelledLine`, with the label already read from `p` up to
      the colon at `e`. */
  lemma FieldValueAfterLabel(text: string, p: nat, e: nat, value: string, post: string, rule: FieldRule)
    requires p <= e <= |text| && LabelEnd(text, p, rule.words) == Some(e)
    requires e + 2 + |value| <= |text| && text[e] == ':' && text[e + 1] == ' '
    requires text[e + 2..e + 2 + |value|] == value && text[e + 2 + |value|..] == post
    requires |value| > 0 && IsStripped(value) && Fits(value, post, rule.tail)
    requires forall k :: 0 <= k < p ==> MatchAt(text, k, rule).None?
    ensures FieldValue(text, rule) == value
  {
    MatchAtAfterLabel(text, p, e, value, post, rule);
    assert LeftmostMatch(text, rule, p, value);
    StripKeeps(value);
  }

  /** `FieldValueAfterLabel` for one of the five fields, read off the dict. */
  lemma FieldAfterLabel(text: string, p: nat, e: nat, value: string, post: string, i: nat)
    requires i < |FieldPatterns| && p <= e <= |text| && LabelEnd(text, p, FieldPatterns[i].words) == Some(e)
    requires e + 2 + |value| <= |text| && text[e] == ':' && text[e + 1] == ' '
    requires text[e + 2..e + 2 + |value|] == value && text[e + 2 + |value|..] == post
    requires |value| > 0 && IsStripped(value) && Fits(value, post, FieldPatterns[i].tail)
    requires forall k :: 0 <= k < p ==> MatchAt(text, k, FieldPatterns[i]).None?
    ensures ParseTextWithRegex(text)[FieldPatterns[i].key] == value
  {
    FieldValueAfterLabel(text, p, e, value, post, FieldPatterns[i]);
    FieldIsFieldValue(text, i);
  }

  /** A labelled line is read when the text before it lacks the first letter
      of its caption in both cases. */
  lemma FieldAfterFreePrefix(text: string, pre: string, caption: string, value: string, post: string, i: nat,
                             small: char, capital: char)
    requires i < |FieldPatterns| && text == pre + caption + ": " + value + post
    requires LabelEnd(text, |pre|, FieldPatterns[i].words) == Some(|pre| + |caption|)
    requires |value| > 0 && IsStripped(value) && Fits(value, post, FieldPatterns[i].tail)
    requires FieldPatterns[i].words[0][0] == small && 'a' <= small <= 'z' && capital as int == small as int - 32
    requires small !in pre && capital !in pre
    ensures ParseTextWithRegex(text)[FieldPatterns[i].key] == value
  {
    LabelledLineText(text, pre, caption, value, post);
    NoMatchInSegment(text, 0, pre, FieldPatterns[i], small, capital);
    FieldAfterLabel(text, |pre|, |pre| + |caption|, value, post, i);
  }

  /** As `FieldAfterFreePrefix`, when the first letter of the caption occurs
      once before the line, as a capital followed by the wrong second letter. */
  lemma FieldAfterFalseStart(text: string, pre: string, line: string, seg: string, caption: string, value: string,
                             post: string, i: nat, small: char, capital: char)
    requires i < |FieldPatterns| && text == pre + caption + ": " + value + post && pre == line + [capital] + seg
    requires LabelEnd(text, |pre|, FieldPatterns[i].words) == Some(|pre| + |caption|)
    requires |value| > 0 && IsStripped(value) && Fits(value, post, FieldPatterns[i].tail)
    requires |FieldPatterns[i].words| > 0 && |FieldPatterns[i].words[0]| > 1
    requires FieldPatterns[i].words[0][0] == small && 'a' <= small <= 'z' && capital as int == small as int - 32
    requires small !in line && capital !in line && small !in seg && capital !in seg
    requires |seg| > 0 && LowerChar(seg[0]) != FieldPatterns[i].words[0][1]
    ensures ParseTextWithRegex(text)[FieldPatterns[i].key] == value
  {
    LabelledLineText(text, pre, caption, value, post);
    NoMatchBeforeLine(text, pre, line, seg, FieldPatterns[i], small, capital);
    FieldAfterLabel(text, |pre|, |pre| + |caption|, value, post, i);
  }

  /** No match starts in the text before a line that begins with `pre`. */
  lemma NoMatchBeforeLine(text: string, pre: string, line: string, seg: string, rule: FieldRule,
                          small: char, capital: char)
    requires |pre| <= |text| && text[..|pre|] == pre && pre == line + [capital] + seg
    requires |rule.words| > 0 && |rule.words[0]| > 1 && rule.words[0][0] == small
    requires 'a' <= small <= 'z' && capital as int == small as int - 32
    requires small !in line && capital !in line && small !in seg && capital !in seg
    requires |seg| > 0 && LowerChar(seg[0]) != rule.words[0][1]
    ensures forall k :: 0 <= k < |pre| ==> MatchAt(text, k, rule).None?
  {
    FalseStartPieces(text, pre, line, capital, seg);
    NoMatchBeforeFalseStart(text, line, seg, rule, small, capital);
  }

  lemma FalseStartPieces(text: string, pre: string, line: string, capital: char, seg: string)
    requires |pre| <= |text| && text[..|pre|] == pre && pre == line + [capital] + seg
    ensures text[..|line|] == line && text[|line|] == capital && text[|line| + 1..|line| + 1 + |seg|] == seg
  {
    assert text[..|line|] == pre[..|line|];
    assert text[|line| + 1..|line| + 1 + |seg|] == pre[|line| + 1..];
  }

  /** A pattern matches nowhere in a stretch of text that lacks the first
      letter of its caption, but for one capital followed by the wrong
      second letter. */
  lemma NoMatchBeforeFalseStart(text: string, line: string, seg: string, rule: FieldRule, small: char, capital: char)
    requires |line| + 1 + |seg| <= |text| && text[..|line|] == line && text[|line|] == capital
    requires text[|line| + 1..|line| + 1 + |seg|] == seg
    requires |rule.words| > 0 && |rule.words[0]| > 1 && rule.words[0][0] == small
    requires 'a' <= small <= 'z' && capital as int == small as int - 32
    requires small !in line && capital !in line && small !in seg && capital !in seg
    requires |seg| > 0 && LowerChar(seg[0]) != rule.words[0][1]
    ensures forall k :: 0 <= k < |line| + 1 + |seg| ==> MatchAt(text, k, rule).None?
  {
    NoMatchInSegment(text, 0, line, rule, small, capital);
    assert text[|line| + 1] == seg[0];
    NoMatchAtSecondLetter(text, |line|, rule);
    NoMatchInSegment(text, |line| + 1, seg, rule, small, capital);
    forall k | 0 <= k < |line| + 1 + |seg|
      ensures MatchAt(text, k, rule).None?
    {
      if k < |line| {
      } else if k == |line| {
      } else {
      }
    }
  }

  /** A pattern matches nowhere in a stretch of text that lacks its first
      letter in both cases. */
  lemma NoMatchInSegment(text: string, lo: nat, seg: string, rule: FieldRule, small: char, capital: char)
    requires lo + |seg| <= |text| && text[lo..lo + |seg|] == seg
    requires |rule.words| > 0 && |rule.words[0]| > 0 && rule.words[0][0] == small
    requires 'a' <= small <= 'z' && capital as int == small as int - 32
    requires small !in seg && capital !in seg
    ensures forall k :: lo <= k < lo + |seg| ==> MatchAt(text, k, rule).None?
  {
    var w := rule.words[0];
    forall k | lo <= k < lo + |seg|
      ensures MatchAt(text, k, rule).None?
    {
      assert text[k] == seg[k - lo];
      assert LowerChar(text[k]) != small;
      if k + |w| <= |text| {
        assert Lower(text[k..k + |w|])[0] == LowerChar(text[k]);
      }
      assert !WordAt(text, k, w);
    }
  }

  /** A pattern does not match where the second letter of its caption is
      wrong. */
  lemma NoMatchAtSecondLetter(text: string, k: nat, rule: FieldRule)
    requires k + 1 < |text| && |rule.words| > 0 && |rule.words[0]| > 1
    requires LowerChar(text[k + 1]) != rule.words[0][1]
    ensures MatchAt(text, k, rule).None?
  {
    var w := rule.words[0];
    if k + |w| <= |text| {
      assert Lower(text[k..k + |w|])[1] == LowerChar(text[k + 1]);
    }
    assert !WordAt(text, k, w);
  }
}
