/** The line-split extractor of gui/guiapp.py: every line that holds a ":"
    is cut at its first colon, and the stripped text before it maps to the
    stripped text after it. */
module GuiParse {
  import opened Options
  import opened Text
  import opened Dicts
  import opened Insights

  /** One turn of the loop: nothing for a line without ":", otherwise the
      stripped key and value on either side of the first colon. */
  function LinePair(line: string): (r: Option<(string, string)>)
    ensures r.None? <==> ':' !in line
    ensures r.Some? ==> ':' !in r.value.0
    ensures r.Some? ==> IsStripped(r.value.0) && IsStripped(r.value.1)
  {
    if ':' !in line then None
    else
      var i := IndexOfAny(line, {':'});
      assert forall c :: c in line[..i] ==> c != ':';
      Some((Strip(line[..i]), Strip(line[i + 1..])))
  }

  /** The dict built from `lines`: a later line with the same key overwrites
      an earlier one. */
  function ParseLines(lines: seq<string>): map<string, string> {
    LastWins(Collect(LinePair, lines))
  }

  /** `parse_text_to_json(text)` of gui/guiapp.py: every entry is the
      stripped key and value of some line of the text, so no key holds a
      colon, and text without a colon gives the empty dict. */
  function ParseTextToJson(text: string): (d: map<string, string>)
    ensures forall k | k in d :: exists j :: 0 <= j < |SplitLines(text)| && LinePair(SplitLines(text)[j]) == Some((k, d[k]))
    ensures forall k | k in d :: ':' !in k && IsStripped(k) && IsStripped(d[k])
    ensures ':' !in text ==> d == map[]
  {
    var lines := SplitLines(text);
    var d := ParseLines(lines);
    EntriesFromLines(lines);
    assert ':' !in text ==> d == map[] by {
      if ':' !in text {
        NoColonNoEntries(text);
      }
    }
    d
  }

  /** The dict's items in iteration order, which is the order `json.dump`
      writes them to the output file: the entries of `ParseTextToJson`, each
      key once, placed where the first line with that key put it. */
  function ParseTextToItems(text: string): (items: seq<(string, string)>)
    ensures forall i | 0 <= i < |items| :: items[i].0 in ParseTextToJson(text) && ParseTextToJson(text)[items[i].0] == items[i].1
    ensures forall k | k in ParseTextToJson(text) :: exists i :: 0 <= i < |items| && items[i].0 == k
    ensures forall i, j | 0 <= i < j < |items| :: items[i].0 != items[j].0
  {
    Items(Collect(LinePair, SplitLines(text)))
  }

  // ---------------------------------------------------------------------
  // Properties
  // ---------------------------------------------------------------------

  /** The cut is at the first colon only: the key is what precedes it and
      the value is everything after it, colons included. A line that starts
      with ":" has the key "". */
  lemma SplitAtFirstColon(k: string, v: string)
    requires ':' !in k
    ensures LinePair(k + [':'] + v) == Some((Strip(k), Strip(v)))
  {
    var line := k + [':'] + v;
    var i := IndexOfAny(line, {':'});
    assert line[|k|] == ':';
    assert line[..i] == k && line[i + 1..] == v;
  }

  /** A line without a colon contributes nothing: dropping it leaves the
      dict unchanged. */
  lemma LineWithoutColonIgnored(before: seq<string>, line: string, after: seq<string>)
    requires ':' !in line
    ensures ParseLines(before + [line] + after) == ParseLines(before + after)
  {
    CollectSkips(LinePair, before, line, after);
  }

  /** Each entry of the dict comes from a line that yields it. */
  lemma EntriesFromLines(lines: seq<string>)
    ensures var d := ParseLines(lines);
      forall k | k in d :: exists j :: 0 <= j < |lines| && LinePair(lines[j]) == Some((k, d[k]))
  {
    var pairs := Collect(LinePair, lines);
    var d := ParseLines(lines);
    forall k | k in d
      ensures exists j :: 0 <= j < |lines| && LinePair(lines[j]) == Some((k, d[k]))
    {
      LastWinsValue(pairs, k);
      var i :| IsLastIndex(pairs, i) && pairs[i].0 == k && d[k] == pairs[i].1;
      CollectPairFrom(LinePair, lines, i);
    }
  }

  /** Text with no colon anywhere, the empty text among it, yields no
      entries. */
  lemma NoColonNoEntries(text: string)
    requires ':' !in text
    ensures ParseLines(SplitLines(text)) == map[]
  {
    var lines := SplitLines(text);
    forall j | 0 <= j < |lines|
      ensures LinePair(lines[j]).None?
    {
      SplitPieceChars(text, LineBreaks, j);
    }
    CollectNone(LinePair, lines);
  }

  /** Every key of the dict is the stripped text before the first colon of
      some line, so no key holds a colon. */
  lemma KeyFromLine(lines: seq<string>, k: string)
    requires k in ParseLines(lines)
    ensures exists j :: 0 <= j < |lines| && ':' in lines[j] && LinePair(lines[j]).value.0 == k
    ensures ':' !in k
  {
    CollectKeyFrom(LinePair, lines, k);
  }

  /** The last line that yields key `k` decides its value. */
  lemma LastLineWins(lines: seq<string>, j: nat)
    requires j < |lines| && ':' in lines[j]
    requires forall j' :: j < j' < |lines| && ':' in lines[j'] ==>
      LinePair(lines[j']).value.0 != LinePair(lines[j]).value.0
    ensures var (k, v) := LinePair(lines[j]).value;
      k in ParseLines(lines) && ParseLines(lines)[k] == v
  {
    CollectLastWins(LinePair, lines, j);
  }

  // ---------------------------------------------------------------------
  // Round trip: writing a dict as "key: value" lines and parsing it back
  // ---------------------------------------------------------------------

  /** A key that survives the round trip: stripped, no colon, no line break. */
  predicate GoodKey(k: string) {
    IsStripped(k) && ':' !in k && NoneOf(k, LineBreaks)
  }

  /** A value that survives the round trip: stripped, no line break (colons
      are fine). */
  predicate GoodValue(v: string) {
    IsStripped(v) && NoneOf(v, LineBreaks)
  }

  function RenderLine(p: (string, string)): string {
    p.0 + [':', ' '] + p.1
  }

  function RenderLines(pairs: seq<(string, string)>): (lines: seq<string>)
    ensures |lines| == |pairs|
    ensures forall m :: 0 <= m < |pairs| ==> lines[m] == RenderLine(pairs[m])
  {
    seq(|pairs|, m requires 0 <= m < |pairs| => RenderLine(pairs[m]))
  }

  /** The pairs written one per line as "key: value". */
  function Render(pairs: seq<(string, string)>): string {
    Join(RenderLines(pairs), '\n')
  }

  /** Parsing the rendering of a list of pairs gives the dict those pairs
      build. */
  lemma RenderThenParse(pairs: seq<(string, string)>)
    requires forall m :: 0 <= m < |pairs| ==> GoodKey(pairs[m].0) && GoodValue(pairs[m].1)
    ensures ParseTextToJson(Render(pairs)) == LastWins(pairs)
  {
    var lines := RenderLines(pairs);
    if |pairs| == 0 {
      assert Render(pairs) == "";
    } else {
      RenderedLinesSplit(pairs);
      RenderedLinesParse(pairs);
      ParseOfSplit(Render(pairs), lines);
    }
  }

  /** Each line is one `result[key] = value`: a key already in the dict
      keeps its place and takes the new value, a new key goes last, and a
      line without a colon changes nothing. */
  lemma LineUpdatesInPlace(lines: seq<string>, line: string)
    ensures ':' !in line ==> Items(Collect(LinePair, lines + [line])) == Items(Collect(LinePair, lines))
    ensures ':' in line ==>
      var (k, v) := LinePair(line).value;
      var items := Items(Collect(LinePair, lines));
      Items(Collect(LinePair, lines + [line])) ==
        if k in ParseLines(lines) then items[KeyIndex(items, k) := (k, v)] else items + [(k, v)]
  {
    var ps := Collect(LinePair, lines);
    CollectAppendOne(LinePair, lines, line);
    match LinePair(line) {
      case None =>
        assert ps + [] == ps;
      case Some((k, v)) =>
        ItemsAssign(ps, k, v);
    }
  }

  /** Parsing the rendering of a list of pairs gives the dict those pairs
      build, in the same iteration order. */
  lemma RenderThenParseItems(pairs: seq<(string, string)>)
    requires forall m :: 0 <= m < |pairs| ==> GoodKey(pairs[m].0) && GoodValue(pairs[m].1)
    ensures ParseTextToItems(Render(pairs)) == Items(pairs)
  {
    if |pairs| == 0 {
      assert Render(pairs) == "";
      assert SplitLines("") == [""];
      assert Collect(LinePair, [""]) == [];
    } else {
      RenderedLinesSplit(pairs);
      RenderedLinesParse(pairs);
    }
  }

  /** Two lines with different keys come out in the order they were
      written, so swapping the lines swaps the items. */
  lemma TwoLinesKeepTheirOrder(a: string, x: string, b: string, y: string)
    requires GoodKey(a) && GoodValue(x) && GoodKey(b) && GoodValue(y) && a != b
    ensures ParseTextToItems(Render([(a, x), (b, y)])) == [(a, x), (b, y)]
  {
    RenderThenParseItems([(a, x), (b, y)]);
    ItemsOfTwo(a, x, b, y);
  }

  /** The output file is what `analyze_student` reads back, in the same
      order: when two subject lines carry the same mark, the weakest subject
      is the one on the earlier line. */
  lemma SameMarkEarlierLineIsWeakest(a: string, x: string, b: string, y: string, toFloat: string -> Option<real>, m: real)
    requires GoodKey(a) && GoodValue(x) && GoodKey(b) && GoodValue(y) && a != b
    requires toFloat(x) == Some(m) && toFloat(y) == Some(m)
    requires !ContainsAny(Lower(a), ExcludedTerms) && !ContainsAny(Lower(b), ExcludedTerms)
    ensures AnalyzeStudent(ParseTextToItems(Render([(a, x), (b, y)])), toFloat)[0] == Weakest(a, m)
  {
    TwoLinesKeepTheirOrder(a, x, b, y);
    TieGoesToFirstItem(a, x, b, y, toFloat, m);
  }

  /** The dict of a text is the dict of its lines. */
  lemma ParseOfSplit(text: string, lines: seq<string>)
    requires SplitLines(text) == lines
    ensures ParseTextToJson(text) == LastWins(Collect(LinePair, lines))
  {
  }

  lemma RenderedLinesParse(pairs: seq<(string, string)>)
    requires forall m :: 0 <= m < |pairs| ==> GoodKey(pairs[m].0) && GoodValue(pairs[m].1)
    ensures Collect(LinePair, RenderLines(pairs)) == pairs
  {
    var lines := RenderLines(pairs);
    forall m | 0 <= m < |lines|
      ensures LinePair(lines[m]) == Some(pairs[m])
    {
      RenderedLine(pairs[m]);
    }
    CollectAll(LinePair, lines, pairs);
  }

  /** The rendered text splits back into the rendered lines. */
  lemma RenderedLinesSplit(pairs: seq<(string, string)>)
    requires |pairs| > 0
    requires forall m :: 0 <= m < |pairs| ==> GoodKey(pairs[m].0) && GoodValue(pairs[m].1)
    ensures SplitLines(Render(pairs)) == RenderLines(pairs)
  {
    var lines := RenderLines(pairs);
    forall m | 0 <= m < |lines|
      ensures NoneOf(lines[m], LineBreaks)
    {
      RenderedLineHasNoBreak(pairs[m]);
    }
    SplitJoin(lines, '\n', LineBreaks);
  }

  lemma RenderedLine(p: (string, string))
    requires GoodKey(p.0) && GoodValue(p.1)
    ensures LinePair(RenderLine(p)) == Some(p)
  {
    assert RenderLine(p) == p.0 + [':'] + ([' '] + p.1);
    SplitAtFirstColon(p.0, [' '] + p.1);
    StripKeeps(p.0);
    StripLeadingBlank(p.1);
  }

  lemma RenderedLineHasNoBreak(p: (string, string))
    requires NoneOf(p.0, LineBreaks) && NoneOf(p.1, LineBreaks)
    ensures NoneOf(RenderLine(p), LineBreaks)
  {
    var l := RenderLine(p);
    forall t | 0 <= t < |l|
      ensures l[t] !in LineBreaks
    {
      if t < |p.0| {
        assert l[t] == p.0[t];
      } else if t >= |p.0| + 2 {
        assert l[t] == p.1[t - |p.0| - 2];
      }
    }
  }
}
