/** The regex line parser of ocr/main.py: each stripped, non-empty line that
    matches `(\w[\w ]*):\s*(\w[\w ]*)` at its start yields a key and a
    value; the value becomes an int when `int()` accepts it; keys whose
    lower case is "name", "roll no" or "total" go to the top level and every
    other key goes into the nested "Marks" dict. */
module MarksParse {
  import opened Options
  import opened Text
  import opened Dicts

  /** A parsed value: an int when `int()` accepts the text, else the text. */
  datatype Scalar = Int(i: int) | Str(s: string)

  /** A value of the returned dict: a top-level field, or the nested marks. */
  datatype Entry = Field(value: Scalar) | Marks(marks: map<string, Scalar>)

  // ---------------------------------------------------------------------
  // int()
  // ---------------------------------------------------------------------

  /** The digits of an int literal as `int()` reads them: ASCII digits,
      where single underscores may separate two digits. */
  predicate IsDigitGroups(s: string) {
    && |s| > 0
    && IsDigit(s[0])
    && IsDigit(s[|s| - 1])
    && (forall k :: 0 <= k < |s| ==> IsDigit(s[k]) || s[k] == '_')
    && (forall k :: 0 <= k < |s| - 1 && s[k] == '_' ==> IsDigit(s[k + 1]))
  }

  function DigitValue(c: char): nat
    requires IsDigit(c)
  {
    c as int - '0' as int
  }

  /** The number the digits of `s` spell in base 10, underscores ignored. */
  function DigitsValue(s: string): nat
    decreases |s|
  {
    if |s| == 0 then 0
    else
      var n := |s| - 1;
      if IsDigit(s[n]) then DigitsValue(s[..n]) * 10 + DigitValue(s[n]) else DigitsValue(s[..n])
  }

  /** The number of digits in `s`, underscores and other characters not
      counted. */
  function DigitCount(s: string): (n: nat)
    ensures n <= |s|
    decreases |s|
  {
    if |s| == 0 then 0
    else
      var n := |s| - 1;
      DigitCount(s[..n]) + (if IsDigit(s[n]) then 1 else 0)
  }

  /** CPython's default limit on the digits of a decimal int string
      (`sys.get_int_max_str_digits()`): `int()` raises ValueError on more. */
  const MaxStrDigits: nat := 4300

  /** The unsigned part of an int literal: digit groups of at most
      `MaxStrDigits` digits, and the number they spell. */
  function Unsigned(u: string): (r: Option<nat>)
    ensures r.Some? <==> IsDigitGroups(u) && DigitCount(u) <= MaxStrDigits
  {
    if IsDigitGroups(u) && DigitCount(u) <= MaxStrDigits then Some(DigitsValue(u)) else None
  }

  /** Python's `int(s)` on a string: surrounding whitespace, an optional
      sign, then digit groups of at most `MaxStrDigits` digits; None where
      Python raises ValueError. */
  function ParseInt(s: string): (r: Option<int>)
    ensures r.Some? ==> |Strip(s)| > 0
    ensures r.Some? && r.value < 0 ==> Strip(s)[0] == '-'
    ensures r.Some? ==> DigitCount(Strip(s)) <= MaxStrDigits
  {
    var t := Strip(s);
    if |t| > 0 && (t[0] == '+' || t[0] == '-') then
      match Unsigned(t[1..])
      case None => None
      case Some(n) =>
        SignNotCounted(t);
        Some(if t[0] == '-' then 0 - n else n)
    else Unsigned(t)
  }

  /** A leading sign adds nothing to the digit count. */
  lemma {:induction false} SignNotCounted(t: string)
    requires |t| > 0 && !IsDigit(t[0])
    ensures DigitCount(t) == DigitCount(t[1..])
    decreases |t|
  {
    if |t| > 1 {
      var n := |t| - 1;
      SignNotCounted(t[..n]);
      assert t[..n][1..] == t[1..][..n - 1];
    }
  }

  function DigitChar(d: nat): (c: char)
    requires d < 10
    ensures IsDigit(c) && DigitValue(c) == d
  {
    ('0' as int + d) as char
  }

  /** `str(n)` for a natural number. */
  function NatToString(n: nat): (s: string)
    ensures |s| > 0 && forall k :: 0 <= k < |s| ==> IsDigit(s[k])
  {
    if n < 10 then [DigitChar(n)] else NatToString(n / 10) + [DigitChar(n % 10)]
  }

  /** `str(i)` for an int. */
  function IntToString(i: int): string {
    if i < 0 then ['-'] + NatToString(-i) else NatToString(i)
  }

  lemma {:induction false} NatToStringValue(n: nat)
    ensures IsDigitGroups(NatToString(n)) && DigitsValue(NatToString(n)) == n
    ensures DigitCount(NatToString(n)) == |NatToString(n)|
  {
    var s := NatToString(n);
    if n >= 10 {
      NatToStringValue(n / 10);
      assert s[..|s| - 1] == NatToString(n / 10);
    }
  }

  /** `int(str(i)) == i` for every int of at most `MaxStrDigits` digits;
      one with more is refused. (`str()` refuses such an int too; the model
      prints it regardless.) */
  lemma ParseIntOfIntToString(i: int)
    ensures ParseInt(IntToString(i)) == if |NatToString(if i < 0 then -i else i)| <= MaxStrDigits then Some(i) else None
  {
    if i < 0 {
      ParseIntOfNegative(-i, IntToString(i));
    } else {
      ParseIntOfNatString(i, IntToString(i));
    }
  }

  lemma ParseIntOfNatString(n: nat, s: string)
    requires s == NatToString(n)
    ensures ParseInt(s) == if |s| <= MaxStrDigits then Some(n) else None
  {
    UnsignedOfNatString(n, s);
    ParseIntOfDigits(s);
  }

  lemma ParseIntOfNegative(n: nat, s: string)
    requires n > 0 && s == ['-'] + NatToString(n)
    ensures ParseInt(s) == if |s| - 1 <= MaxStrDigits then Some(0 - n) else None
  {
    var d := NatToString(n);
    assert s[1..] == d;
    UnsignedOfNatString(n, d);
    ParseIntOfMinus(s);
  }

  lemma UnsignedOfNatString(n: nat, s: string)
    requires s == NatToString(n)
    ensures Unsigned(s) == if |s| <= MaxStrDigits then Some(n) else None
    ensures IsDigit(s[0]) && IsDigit(s[|s| - 1])
  {
    NatToStringValue(n);
  }

  /** Stripped text that starts with a digit is read without a sign. */
  lemma ParseIntOfDigits(s: string)
    requires |s| > 0 && IsDigit(s[0]) && IsDigit(s[|s| - 1])
    ensures ParseInt(s) == Unsigned(s)
  {
    StripKeeps(s);
  }

  /** Stripped text that starts with "-" is read as the negated rest. */
  lemma ParseIntOfMinus(s: string)
    requires |s| > 1 && s[0] == '-' && IsDigit(s[|s| - 1])
    ensures ParseInt(s) == match Unsigned(s[1..]) case None => None case Some(n) => Some(0 - n)
  {
    StripKeeps(s);
  }

  /** What `int()` accepts holds nothing but a sign, digits and underscores,
      so a value with an inner space or a dot stays a string. */
  lemma ParseIntChars(s: string)
    requires ParseInt(s).Some?
    ensures forall k :: 0 < k < |Strip(s)| ==> IsDigit(Strip(s)[k]) || Strip(s)[k] == '_'
  {
    var t := Strip(s);
    if t[0] == '+' || t[0] == '-' {
      assert forall k :: 0 < k < |t| ==> t[k] == t[1..][k - 1];
    }
  }

  /** The stored form of a value: an int when `int()` accepts it, otherwise
      the text itself. */
  function ToScalar(v: string): (r: Scalar)
    ensures r.Int? <==> ParseInt(v).Some?
    ensures r.Int? ==> r.i == ParseInt(v).value
    ensures r.Str? ==> r.s == v
  {
    match ParseInt(v)
    case Some(i) => Int(i)
    case None => Str(v)
  }

  // ---------------------------------------------------------------------
  // re.match(r"(\w[\w ]*):\s*(\w[\w ]*)", line)
  // ---------------------------------------------------------------------

  predicate AllWordOrSpace(s: string) {
    forall k :: 0 <= k < |s| ==> IsWordOrSpace(s[k])
  }

  /** The end of the run of `[\w ]` characters starting at `i`. */
  function WordRunEnd(s: string, i: nat): (j: nat)
    requires i <= |s|
    ensures i <= j <= |s|
    ensures AllWordOrSpace(s[i..j])
    ensures j < |s| ==> !IsWordOrSpace(s[j])
    decreases |s| - i
  {
    if i == |s| || !IsWordOrSpace(s[i]) then i
    else
      var j := WordRunEnd(s, i + 1);
      assert s[i..j] == [s[i]] + s[i + 1..j];
      j
  }

  lemma WordRunEndIsFirst(s: string, i: nat, j: nat)
    requires i <= j <= |s| && AllWordOrSpace(s[i..j]) && (j == |s| || !IsWordOrSpace(s[j]))
    ensures WordRunEnd(s, i) == j
  {
  }

  /** The two groups of the pattern matched at the start of `line`, before
      stripping; None when the pattern does not match there. Every `*` is
      greedy and no backtracking can help: a shorter first group would be
      followed by a word character or space instead of ":", a shorter `\s*`
      by whitespace instead of a word character. */
  function MatchLine(line: string): (r: Option<(string, string)>)
    ensures |line| == 0 || !IsWordChar(line[0]) ==> r.None?
    ensures r.Some? ==> var (k, v) := r.value;
      && 0 < |k| < |line| && line[..|k|] == k && line[|k|] == ':' && AllWordOrSpace(k)
      && |v| > 0 && IsWordChar(v[0]) && AllWordOrSpace(v)
  {
    if |line| == 0 || !IsWordChar(line[0]) then None
    else
      var a := WordRunEnd(line, 0);
      if a == |line| || line[a] != ':' then None
      else
        var b := SkipSpace(line, a + 1);
        if b == |line| || !IsWordChar(line[b]) then None
        else Some((line[..a], line[b..WordRunEnd(line, b)]))
  }

  /** The pattern read as a grammar: the key `line[..a]` is a word character
      followed by word characters and spaces, then ":", whitespace up to
      `b`, and the value `line[b..c]`, a word character followed by the
      longest run of word characters and spaces. */
  ghost predicate MatchesWith(line: string, a: nat, b: nat, c: nat) {
    && a < b < c <= |line|
    && IsWordChar(line[0]) && AllWordOrSpace(line[..a]) && line[a] == ':'
    && AllSpace(line[a + 1..b])
    && IsWordChar(line[b]) && AllWordOrSpace(line[b..c])
    && (c == |line| || !IsWordOrSpace(line[c]))
  }

  /** The scanner's match satisfies the grammar. */
  lemma MatchLineSound(line: string)
    requires MatchLine(line).Some?
    ensures exists a: nat, b: nat, c: nat ::
      MatchesWith(line, a, b, c) && MatchLine(line).value == (line[..a], line[b..c])
  {
    var a := WordRunEnd(line, 0);
    var b := SkipSpace(line, a + 1);
    var c := WordRunEnd(line, b);
    assert line[..a] == line[0..a];
    assert MatchesWith(line, a, b, c);
  }

  /** Any way of reading the line by the grammar is the scanner's match, so
      the match is unique. */
  lemma MatchLineComplete(line: string, a: nat, b: nat, c: nat)
    requires MatchesWith(line, a, b, c)
    ensures MatchLine(line) == Some((line[..a], line[b..c]))
  {
    assert line[..a] == line[0..a];
    WordRunEndIsFirst(line, 0, a);
    SkipSpaceIsFirst(line, a + 1, b);
    WordRunEndIsFirst(line, b, c);
  }

  // ---------------------------------------------------------------------
  // One line, and the routing
  // ---------------------------------------------------------------------

  /** `key.lower() in ["name", "roll no", "total"]`. */
  predicate IsInfoKey(key: string) {
    var l := Lower(key);
    l == "name" || l == "roll no" || l == "total"
  }

  /** One turn of the loop: the stripped key and the converted value, or
      None for a blank line or a line the pattern does not match. */
  function LineEntry(line: string): (r: Option<(string, Scalar)>)
    ensures AllSpace(line) ==> r.None?
    ensures r.Some? ==> IsStripped(r.value.0) && |r.value.0| > 0
  {
    var l := Strip(line);
    if l == [] then None
    else
      match MatchLine(l)
      case None => None
      case Some((k, v)) =>
        assert l[0] in k;
        Some((Strip(k), ToScalar(Strip(v))))
  }

  /** The pairs of `ps` whose key is a top-level key (`info`) or a mark
      (`!info`), in order. */
  function Route(ps: seq<(string, Scalar)>, info: bool): (r: seq<(string, Scalar)>)
    ensures |r| <= |ps|
    decreases |ps|
  {
    if |ps| == 0 then []
    else
      var n := |ps| - 1;
      Route(ps[..n], info) + (if IsInfoKey(ps[n].0) == info then [ps[n]] else [])
  }

  lemma RouteSnoc(ps: seq<(string, Scalar)>, p: (string, Scalar), info: bool)
    ensures Route(ps + [p], info) == Route(ps, info) + (if IsInfoKey(p.0) == info then [p] else [])
  {
    assert (ps + [p])[..|ps|] == ps;
  }

  /** `data` with `data["Marks"] = marks` done last. */
  function WithMarks(data: map<string, Scalar>, marks: map<string, Scalar>): map<string, Entry> {
    (map k | k in data :: Field(data[k]))["Marks" := Marks(marks)]
  }

  /** The returned dict for the split lines, as a reference: each
      destination holds the last value written to each of its keys, and
      "Marks" is added at the end. So "Marks" is always there, bound to the
      nested marks; every other key is one whose lower case is "name",
      "roll no" or "total", bound to a plain value; and no key of the marks
      is such a key. */
  function Assemble(lines: seq<string>): (r: map<string, Entry>)
    ensures "Marks" in r && r["Marks"].Marks?
    ensures forall k | k in r && k != "Marks" :: IsInfoKey(k) && r[k].Field?
    ensures forall k | k in r["Marks"].marks :: !IsInfoKey(k)
  {
    var ps := Collect(LineEntry, lines);
    RoutedKeys(ps, true);
    RoutedKeys(ps, false);
    WithMarks(LastWins(Route(ps, true)), LastWins(Route(ps, false)))
  }

  /** Every key routed to a destination belongs there. */
  lemma RoutedKeys(ps: seq<(string, Scalar)>, info: bool)
    ensures forall k | k in LastWins(Route(ps, info)) :: IsInfoKey(k) == info
  {
    forall k | k in LastWins(Route(ps, info))
      ensures IsInfoKey(k) == info
    {
      RouteKeys(ps, info, k);
    }
  }

  /** The two dicts the loop of `parse_text_to_json` fills: the top-level
      fields and the marks. */
  type Dicts2 = (map<string, Scalar>, map<string, Scalar>)

  /** One turn of the loop: a line's pair, if any, is written into the
      top-level dict when its key is a top-level key and into the marks
      otherwise. */
  function Next(state: Dicts2, e: Option<(string, Scalar)>): Dicts2 {
    match e
    case None => state
    case Some((key, value)) =>
      if IsInfoKey(key) then (state.0[key := value], state.1) else (state.0, state.1[key := value])
  }

  /** The loop's state after the given lines. */
  function Fold(entry: string -> Option<(string, Scalar)>, lines: seq<string>): Dicts2
    decreases |lines|
  {
    if |lines| == 0 then (map[], map[])
    else Next(Fold(entry, lines[..|lines| - 1]), entry(lines[|lines| - 1]))
  }

  /** The loop leaves in each destination the last value written to each of
      its keys. */
  lemma {:induction false} FoldIsRouted(entry: string -> Option<(string, Scalar)>, lines: seq<string>)
    ensures Fold(entry, lines) == (LastWins(Route(Collect(entry, lines), true)), LastWins(Route(Collect(entry, lines), false)))
    decreases |lines|
  {
    if |lines| > 0 {
      var n := |lines| - 1;
      FoldIsRouted(entry, lines[..n]);
      assert lines == lines[..n] + [lines[n]];
      RouteLinesStep(entry, lines[..n], lines[n], true);
      RouteLinesStep(entry, lines[..n], lines[n], false);
    }
  }

  /** One more line updates its destination's dict at its key, and leaves
      the other destination's dict alone. */
  lemma RouteLinesStep(entry: string -> Option<(string, Scalar)>, lines: seq<string>, line: string, info: bool)
    ensures LastWins(Route(Collect(entry, lines + [line]), info)) ==
      match entry(line)
      case Some((key, value)) =>
        if IsInfoKey(key) == info then LastWins(Route(Collect(entry, lines), info))[key := value]
        else LastWins(Route(Collect(entry, lines), info))
      case None => LastWins(Route(Collect(entry, lines), info))
  {
    var ps := Collect(entry, lines);
    CollectAppendOne(entry, lines, line);
    match entry(line) {
      case Some((key, value)) =>
        RouteSnoc(ps, (key, value), info);
        if IsInfoKey(key) == info {
          LastWinsSnoc(Route(ps, info), key, value);
        } else {
          assert Route(ps, info) + [] == Route(ps, info);
        }
      case None =>
        assert ps + [] == ps;
    }
  }

  /** The loop of `parse_text_to_json`. */
  method RouteLines(lines: seq<string>, entry: string -> Option<(string, Scalar)>)
    returns (data: map<string, Scalar>, marks: map<string, Scalar>)
    ensures data == LastWins(Route(Collect(entry, lines), true))
    ensures marks == LastWins(Route(Collect(entry, lines), false))
  {
    data := map[];
    marks := map[];
    for i := 0 to |lines|
      invariant (data, marks) == Fold(entry, lines[..i])
    {
      assert lines[..i + 1][..i] == lines[..i];
      match entry(lines[i]) {
        case Some((key, value)) =>
          if IsInfoKey(key) {
            data := data[key := value];
          } else {
            marks := marks[key := value];
          }
        case None =>
      }
    }
    assert lines[..|lines|] == lines;
    FoldIsRouted(entry, lines);
  }

  /** `parse_text_to_json(text)` of ocr/main.py. */
  method ParseTextToJson(text: string) returns (result: map<string, Entry>)
    ensures result == Assemble(Split(text, {'\n'}))
  {
    var data, marks := RouteLines(Split(text, {'\n'}), LineEntry);
    result := WithMarks(data, marks);
  }

  // ---------------------------------------------------------------------
  // Properties of the returned dict
  // ---------------------------------------------------------------------

  /** A routed pair has a key of its destination. */
  lemma {:induction false} RouteKeys(ps: seq<(string, Scalar)>, info: bool, k: string)
    requires k in KeysOf(Route(ps, info))
    ensures IsInfoKey(k) == info
    decreases |ps|
  {
    var n := |ps| - 1;
    var r := Route(ps, info);
    var m :| 0 <= m < |r| && r[m].0 == k;
    if m < |Route(ps[..n], info)| {
      assert Route(ps[..n], info)[m] == r[m];
      RouteKeys(ps[..n], info, k);
    }
  }

  lemma MarksIsNotInfoKey()
    ensures !IsInfoKey("Marks")
  {
    var l := Lower("Marks");
    assert l[0] == 'm' && |l| == 5;
  }

  // ---------------------------------------------------------------------
  // Iteration order of the returned dict
  // ---------------------------------------------------------------------

  /** The top-level pairs as entries of the returned dict. */
  function AsFields(ps: seq<(string, Scalar)>): (fs: seq<(string, Entry)>)
    ensures |fs| == |ps|
    ensures forall i | 0 <= i < |ps| :: fs[i] == (ps[i].0, Field(ps[i].1))
  {
    seq(|ps|, i requires 0 <= i < |ps| => (ps[i].0, Field(ps[i].1)))
  }

  lemma {:induction false} LastWinsAsFields(ps: seq<(string, Scalar)>)
    ensures LastWins(AsFields(ps)) == map k | k in LastWins(ps) :: Field(LastWins(ps)[k])
    decreases |ps|
  {
    if |ps| > 0 {
      var n := |ps| - 1;
      assert AsFields(ps)[..n] == AsFields(ps[..n]);
      LastWinsAsFields(ps[..n]);
    }
  }

  /** `data["Marks"] = marks` is one more assignment to the top-level dict,
      to a key no line can have put there. */
  lemma MarksAssignedLast(lines: seq<string>)
    ensures var ps := Collect(LineEntry, lines);
      var top := AsFields(Route(ps, true));
      && "Marks" !in KeysOf(top)
      && LastWins(top + [("Marks", Marks(LastWins(Route(ps, false))))]) == Assemble(lines)
  {
    var ps := Collect(LineEntry, lines);
    var top := AsFields(Route(ps, true));
    MarksIsNotInfoKey();
    if "Marks" in KeysOf(Route(ps, true)) {
      RouteKeys(ps, true, "Marks");
    }
    LastWinsAsFields(Route(ps, true));
    LastWinsSnoc(top, "Marks", Marks(LastWins(Route(ps, false))));
  }

  /** The returned dict's items in iteration order, which is the order
      `json.dump` writes them: the top-level keys where their first line put
      them, then "Marks", which is assigned after all of them. */
  function AssembleItems(lines: seq<string>): (items: seq<(string, Entry)>)
    ensures |items| > 0 && items[|items| - 1] == ("Marks", Assemble(lines)["Marks"])
    ensures forall i | 0 <= i < |items| :: items[i].0 in Assemble(lines) && Assemble(lines)[items[i].0] == items[i].1
    ensures forall k | k in Assemble(lines) :: exists i :: 0 <= i < |items| && items[i].0 == k
    ensures forall i, j | 0 <= i < j < |items| :: items[i].0 != items[j].0
  {
    var ps := Collect(LineEntry, lines);
    var top := AsFields(Route(ps, true));
    var marks := Marks(LastWins(Route(ps, false)));
    MarksAssignedLast(lines);
    ItemsAssignNew(top, "Marks", marks);
    Items(top + [("Marks", marks)])
  }

  /** The nested marks' items in iteration order: each mark key where its
      first line put it, with the value of its last line. */
  function MarksItems(lines: seq<string>): (items: seq<(string, Scalar)>)
    ensures forall i | 0 <= i < |items| :: items[i].0 in Assemble(lines)["Marks"].marks && Assemble(lines)["Marks"].marks[items[i].0] == items[i].1
    ensures forall k | k in Assemble(lines)["Marks"].marks :: exists i :: 0 <= i < |items| && items[i].0 == k
    ensures forall i, j | 0 <= i < j < |items| :: items[i].0 != items[j].0
  {
    Items(Route(Collect(LineEntry, lines), false))
  }

  /** A line that yields nothing (blank, or not matching the pattern) can be
      dropped without changing the dict. */
  lemma SkippedLineIgnored(before: seq<string>, line: string, after: seq<string>)
    requires LineEntry(line).None?
    ensures Assemble(before + [line] + after) == Assemble(before + after)
  {
    CollectSkips(LineEntry, before, line, after);
  }

  /** Routing the pairs of the lines to one destination is collecting, from
      each line, the pair it yields for that destination. */
  lemma {:induction false} RouteOfCollect(entry: string -> Option<(string, Scalar)>, lines: seq<string>, info: bool)
    ensures Route(Collect(entry, lines), info) == Collect(Destined(entry, info), lines)
    decreases |lines|
  {
    if |lines| > 0 {
      var n := |lines| - 1;
      var front := lines[..n];
      assert lines == front + [lines[n]];
      RouteOfCollect(entry, front, info);
      CollectAppendOne(entry, front, lines[n]);
      CollectAppendOne(Destined(entry, info), front, lines[n]);
      var ps := Collect(entry, front);
      match entry(lines[n])
      case None =>
        assert Collect(entry, lines) == ps + [] == ps;
        assert Collect(Destined(entry, info), lines) == Collect(Destined(entry, info), front) + [];
      case Some(p) =>
        RouteSnoc(ps, p, info);
    }
  }

  /** The pair a line yields for the top level (`info`) or for the marks. */
  function Destined(entry: string -> Option<(string, Scalar)>, info: bool): string -> Option<(string, Scalar)> {
    line => match entry(line)
      case Some((k, v)) => if IsInfoKey(k) == info then Some((k, v)) else None
      case None => None
  }

  /** The last line that yields key `k` decides its value, in the top level
      or in the marks according to `k`. */
  lemma LastLineWins(lines: seq<string>, j: nat)
    requires j < |lines| && LineEntry(lines[j]).Some?
    requires forall j' :: j < j' < |lines| && LineEntry(lines[j']).Some? ==>
      LineEntry(lines[j']).value.0 != LineEntry(lines[j]).value.0
    ensures var (k, v) := LineEntry(lines[j]).value;
      var r := Assemble(lines);
      if IsInfoKey(k) then k in r && r[k] == Field(v)
      else k in r["Marks"].marks && r["Marks"].marks[k] == v
  {
    var (k, v) := LineEntry(lines[j]).value;
    var info := IsInfoKey(k);
    var ps := Collect(LineEntry, lines);
    var d := LastWins(Route(ps, info));
    LastLineWinsIn(LineEntry, lines, j, info);
    assert k in d && d[k] == v;
    MarksIsNotInfoKey();
    assert Assemble(lines) == WithMarks(LastWins(Route(ps, true)), LastWins(Route(ps, false)));
    if info {
      assert k != "Marks";
    }
  }

  lemma LastLineWinsIn(entry: string -> Option<(string, Scalar)>, lines: seq<string>, j: nat, info: bool)
    requires j < |lines| && entry(lines[j]).Some? && IsInfoKey(entry(lines[j]).value.0) == info
    requires forall j' :: j < j' < |lines| && entry(lines[j']).Some? ==>
      entry(lines[j']).value.0 != entry(lines[j]).value.0
    ensures var (k, v) := entry(lines[j]).value;
      var d := LastWins(Route(Collect(entry, lines), info));
      k in d && d[k] == v
  {
    RouteOfCollect(entry, lines, info);
    CollectLastWins(Destined(entry, info), lines, j);
  }

  // ---------------------------------------------------------------------
  // Examples
  // ---------------------------------------------------------------------

  /** On a stripped, non-empty line the entry is read off the match. */
  lemma EntryOfStrippedLine(line: string)
    requires line != [] && IsStripped(line)
    ensures LineEntry(line) ==
      match MatchLine(line)
      case None => None
      case Some((k, v)) => Some((Strip(k), ToScalar(Strip(v))))
  {
    StripKeeps(line);
  }

  /** A line whose stripped text the grammar parses yields the stripped
      groups of that parse. */
  lemma EntryOfGrammarMatch(line: string, a: nat, b: nat, c: nat)
    requires MatchesWith(Strip(line), a, b, c)
    ensures var l := Strip(line);
      LineEntry(line) == Some((Strip(l[..a]), ToScalar(Strip(l[b..c]))))
  {
    MatchLineComplete(Strip(line), a, b, c);
  }

  /** A line yields an entry exactly when the grammar parses its stripped
      text. */
  lemma EntryIffGrammar(line: string)
    ensures LineEntry(line).Some? <==> exists a: nat, b: nat, c: nat :: MatchesWith(Strip(line), a, b, c)
  {
    var l := Strip(line);
    if LineEntry(line).Some? {
      MatchLineSound(l);
    }
    if exists a: nat, b: nat, c: nat :: MatchesWith(l, a, b, c) {
      var a: nat, b: nat, c: nat :| MatchesWith(l, a, b, c);
      EntryOfGrammarMatch(line, a, b, c);
    }
  }

  /** "CGPA: 8.5" stores 8 under "CGPA": the value stops at the dot. */
  lemma DecimalValueIsTruncated(line: string)
    requires line == "CGPA: 8.5"
    ensures LineEntry(line) == Some(("CGPA", Int(8)))
  {
    DecimalLineMatches(line);
    StripKeeps(line);
    EntryOfGrammarMatch(line, 4, 6, 7);
    var key, value := line[..4], line[6..7];
    StrippedWord(key);
    EightIsInt(value);
  }

  lemma StrippedWord(key: string)
    requires key == "CGPA"
    ensures Strip(key) == "CGPA"
  {
    assert IsStripped(key);
    StripKeeps(key);
  }

  lemma EightIsInt(value: string)
    requires value == "8"
    ensures ToScalar(Strip(value)) == Int(8)
  {
    assert IsStripped(value);
    StripKeeps(value);
    assert NatToString(8) == value;
    ParseIntOfNatString(8, value);
  }

  lemma DecimalLineMatches(line: string)
    requires line == "CGPA: 8.5"
    ensures IsStripped(line) && MatchesWith(line, 4, 6, 7)
    ensures line[..4] == "CGPA" && line[6..7] == "8"
  {
    assert AllWordOrSpace(line[..4]) && AllSpace(line[5..6]) && AllWordOrSpace(line[6..7]);
  }

  /** A key run that ends at a character other than ":" means no match. */
  lemma KeyNotFollowedByColon(line: string, a: nat)
    requires 0 < a < |line| && IsWordChar(line[0]) && AllWordOrSpace(line[..a])
    requires !IsWordOrSpace(line[a]) && line[a] != ':'
    ensures MatchLine(line).None?
  {
    assert line[..a] == line[0..a];
    WordRunEndIsFirst(line, 0, a);
  }

  /** A colon followed by whitespace and then neither the end nor a word
      character means no match. */
  lemma NoWordAfterColon(line: string, a: nat, b: nat)
    requires 0 < a < b <= |line| && IsWordChar(line[0]) && AllWordOrSpace(line[..a]) && line[a] == ':'
    requires AllSpace(line[a + 1..b]) && (b == |line| || (!IsSpace(line[b]) && !IsWordChar(line[b])))
    ensures MatchLine(line).None?
  {
    assert line[..a] == line[0..a];
    WordRunEndIsFirst(line, 0, a);
    SkipSpaceIsFirst(line, a + 1, b);
  }

  /** "Roll-No: 5" is skipped: "-" cannot be part of a key. */
  lemma HyphenatedKeySkipped(line: string)
    requires line == "Roll-No: 5"
    ensures LineEntry(line).None?
  {
    HyphenatedLineShape(line);
    EntryOfStrippedLine(line);
    KeyNotFollowedByColon(line, 4);
  }

  lemma HyphenatedLineShape(line: string)
    requires line == "Roll-No: 5"
    ensures line != [] && IsStripped(line) && IsWordChar(line[0]) && AllWordOrSpace(line[..4])
    ensures 4 < |line| && !IsWordOrSpace(line[4]) && line[4] != ':'
  {
    assert AllWordOrSpace(line[..4]);
  }

  /** "Maths: --" is skipped: no word character follows the colon. */
  lemma NoWordAfterColonSkipped(line: string)
    requires line == "Maths: --"
    ensures LineEntry(line).None?
  {
    DashedLineShape(line);
    EntryOfStrippedLine(line);
    NoWordAfterColon(line, 5, 7);
  }

  lemma DashedLineShape(line: string)
    requires line == "Maths: --"
    ensures line != [] && IsStripped(line) && IsWordChar(line[0]) && AllWordOrSpace(line[..5])
    ensures 7 < |line| && line[5] == ':' && AllSpace(line[6..7]) && !IsSpace(line[7]) && !IsWordChar(line[7])
  {
    assert AllWordOrSpace(line[..5]) && AllSpace(line[6..7]);
  }
}
