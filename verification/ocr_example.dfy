/** A worked example of the fixed-field extractor of core/ocr_json.py: a
    five-line header in which every field pattern finds its line. */
module OcrExample {
  import opened Options
  import opened Text
  import opened OcrJson

  // Each field is proved the same way. The header is cut into the text
  // before the field's line, the caption, ": ", the value and the rest.
  // No earlier position matches, because the text before the line lacks
  // the caption's first letter in both cases (FieldAfterFreePrefix), or
  // holds it only once, as a capital followed by the wrong second letter
  // (FieldAfterFalseStart). The value fits the group, and
  // MatchAtLabelledLine then reads it. The literal facts about the
  // patterns (first letters, label texts, keys) sit in small lemmas of
  // their own, which keeps each proof small.

  /** A marksheet header, one "Caption: value" line per field. */
  const SampleHeader: string := SampleLine0 + SampleLine1 + SampleLine2 + SampleLine3 + SampleLine4
  const SampleLine0: string := "Student Name" + ": " + "Ann Lee" + "\n"
  const SampleLine1: string := "College Name" + ": " + "MIT" + "\n"
  const SampleLine2: string := "SGPA" + ": " + "8.52" + "\n"
  const SampleLine3: string := "CGPA" + ": " + "8.71" + "\n"
  const SampleLine4: string := "Result" + ": " + "PASS"

  /** Every field of the sample header is found, with the value printed on
      its line. */
  lemma SampleHeaderFields()
    ensures ParseTextWithRegex(SampleHeader) ==
      map["Student Name" := "Ann Lee", "College Name" := "MIT", "SGPA" := "8.52", "CGPA" := "8.71", "Result" := "PASS"]
  {
    SampleStudentName();
    SampleCollegeName();
    SampleSgpa();
    SampleCgpa();
    SampleResult();
    FiveFields(ParseTextWithRegex(SampleHeader), "Ann Lee", "MIT", "8.52", "8.71", "PASS");
  }

  lemma FiveFields(m: map<string, string>, name: string, college: string, sgpa: string, cgpa: string, result: string)
    requires m.Keys == FieldKeys
    requires m["Student Name"] == name && m["College Name"] == college
    requires m["SGPA"] == sgpa && m["CGPA"] == cgpa && m["Result"] == result
    ensures m == map["Student Name" := name, "College Name" := college, "SGPA" := sgpa, "CGPA" := cgpa, "Result" := result]
  {
  }

  lemma SampleStudentName()
    ensures ParseTextWithRegex(SampleHeader)["Student Name"] == "Ann Lee"
  {
    StudentNameSplit();
    StudentNameLine(SampleHeader, "\n" + (SampleLine1 + SampleLine2 + SampleLine3 + SampleLine4));
  }

  lemma StudentNameSplit()
    ensures SampleHeader == "" + "Student Name" + ": " + "Ann Lee"
      + ("\n" + (SampleLine1 + SampleLine2 + SampleLine3 + SampleLine4))
  {
    Regroup(SampleLine0, SampleLine1, SampleLine2 + SampleLine3 + SampleLine4);
    LineParts("Student Name", ": ", "Ann Lee", "\n", SampleLine1 + SampleLine2 + SampleLine3 + SampleLine4);
  }

  lemma Regroup(a: string, b: string, c: string)
    ensures a + b + c == a + (b + c)
  {
  }

  lemma LineParts(k: string, sep: string, v: string, nl: string, rest: string)
    ensures k + sep + v + nl + rest == "" + k + sep + v + (nl + rest)
  {
  }

  lemma StudentNameLine(text: string, post: string)
    requires text == "" + "Student Name" + ": " + "Ann Lee" + post
    requires |post| > 0 && post[0] == '\n'
    ensures ParseTextWithRegex(text)["Student Name"] == "Ann Lee"
  {
    LabelledLineText(text, "", "Student Name", "Ann Lee", post);
    StudentNameLabel(text, 0);
    FieldKeyIs(0, "Student Name");
    FirstLetterIs(0, 's');
    NameValue("Ann Lee", post);
    FieldAfterFreePrefix(text, "", "Student Name", "Ann Lee", post, 0, 's', 'S');
  }

  lemma StudentNameFacts(caption: string)
    requires caption == "Student Name"
    ensures SpelledAs(caption, LabelText(FieldPatterns[0].words))
  {
    StudentNameCaption(caption);
    LabelTextIs(0, "student name");
    LowerSpelledAs(caption, "student name");
  }

  lemma StudentNameLabel(text: string, p: nat)
    requires p + |"Student Name"| <= |text| && text[p..p + |"Student Name"|] == "Student Name"
    ensures LabelEnd(text, p, FieldPatterns[0].words) == Some(p + |"Student Name"|)
  {
    StudentNameFacts("Student Name");
    FieldWordsAreSolid(0);
    LabelEndAt(text, p, FieldPatterns[0].words, "Student Name");
  }

  lemma SampleCollegeName()
    ensures ParseTextWithRegex(SampleHeader)["College Name"] == "MIT"
  {
    CollegeNameSplit();
    NoLetterInLine0(SampleLine0);
    CollegeNameLine(SampleHeader, SampleLine0, "\n" + (SampleLine2 + SampleLine3 + SampleLine4));
  }

  lemma CollegeNameSplit()
    ensures SampleHeader == SampleLine0 + "College Name" + ": " + "MIT"
      + ("\n" + (SampleLine2 + SampleLine3 + SampleLine4))
  {
    Regroup(SampleLine0 + SampleLine1, SampleLine2, SampleLine3);
    Regroup(SampleLine0 + SampleLine1, SampleLine2 + SampleLine3, SampleLine4);
    LineParts("College Name", ": ", "MIT", "\n", SampleLine2 + SampleLine3 + SampleLine4);
    Regroup(SampleLine0, SampleLine1, SampleLine2 + SampleLine3 + SampleLine4);
  }

  lemma CollegeNameLine(text: string, pre: string, post: string)
    requires text == pre + "College Name" + ": " + "MIT" + post
    requires 'c' !in pre && 'C' !in pre
    requires |post| > 0 && post[0] == '\n'
    ensures ParseTextWithRegex(text)["College Name"] == "MIT"
  {
    LabelledLineText(text, pre, "College Name", "MIT", post);
    CollegeNameLabel(text, |pre|);
    FieldKeyIs(1, "College Name");
    FirstLetterIs(1, 'c');
    CollegeValue("MIT", post);
    FieldAfterFreePrefix(text, pre, "College Name", "MIT", post, 1, 'c', 'C');
  }

  lemma CollegeNameFacts(caption: string)
    requires caption == "College Name"
    ensures SpelledAs(caption, LabelText(FieldPatterns[1].words))
  {
    CollegeNameCaption(caption);
    LabelTextIs(1, "college name");
    LowerSpelledAs(caption, "college name");
  }

  lemma CollegeNameLabel(text: string, p: nat)
    requires p + |"College Name"| <= |text| && text[p..p + |"College Name"|] == "College Name"
    ensures LabelEnd(text, p, FieldPatterns[1].words) == Some(p + |"College Name"|)
  {
    CollegeNameFacts("College Name");
    FieldWordsAreSolid(1);
    LabelEndAt(text, p, FieldPatterns[1].words, "College Name");
  }

  lemma SampleSgpa()
    ensures ParseTextWithRegex(SampleHeader)["SGPA"] == "8.52"
  {
    var seg := "tudent Name" + ": " + "Ann Lee" + "\n" + SampleLine1;
    SgpaSplit(seg, "S" + seg);
    NoLetterInSgpaPrefix(seg);
    SgpaLine(SampleHeader, "S" + seg, seg, "\n" + (SampleLine3 + SampleLine4));
  }

  lemma SgpaSplit(seg: string, pre: string)
    requires seg == "tudent Name" + ": " + "Ann Lee" + "\n" + SampleLine1 && pre == "S" + seg
    ensures SampleHeader == pre + "SGPA" + ": " + "8.52" + ("\n" + (SampleLine3 + SampleLine4))
  {
    assert pre == SampleLine0 + SampleLine1;
    assert SampleHeader == (SampleLine0 + SampleLine1) + (SampleLine2 + (SampleLine3 + SampleLine4));
  }

  lemma SgpaLine(text: string, pre: string, seg: string, post: string)
    requires text == pre + "SGPA" + ": " + "8.52" + post && pre == "S" + seg
    requires |seg| > 0 && seg[0] == 't' && 's' !in seg && 'S' !in seg
    requires |post| > 0 && post[0] == '\n'
    ensures ParseTextWithRegex(text)["SGPA"] == "8.52"
  {
    LabelledLineText(text, pre, "SGPA", "8.52", post);
    SgpaLabel(text, |pre|);
    FieldKeyIs(2, "SGPA");
    FirstLetterIs(2, 's');
    GradeValue("8.52", post);
    FieldAfterFalseStart(text, pre, "", seg, "SGPA", "8.52", post, 2, 's', 'S');
  }

  lemma SgpaFacts(caption: string)
    requires caption == "SGPA"
    ensures SpelledAs(caption, LabelText(FieldPatterns[2].words))
  {
    SgpaCaption(caption);
    LabelTextIs(2, "sgpa");
    LowerSpelledAs(caption, "sgpa");
  }

  lemma SgpaLabel(text: string, p: nat)
    requires p + |"SGPA"| <= |text| && text[p..p + |"SGPA"|] == "SGPA"
    ensures LabelEnd(text, p, FieldPatterns[2].words) == Some(p + |"SGPA"|)
  {
    SgpaFacts("SGPA");
    FieldWordsAreSolid(2);
    LabelEndAt(text, p, FieldPatterns[2].words, "SGPA");
  }

  lemma SampleCgpa()
    ensures ParseTextWithRegex(SampleHeader)["CGPA"] == "8.71"
  {
    var seg := "ollege Name" + ": " + "MIT" + "\n" + SampleLine2;
    CgpaSplit(seg, SampleLine0 + "C" + seg);
    NoLetterInLine0(SampleLine0);
    NoLetterInCgpaPrefix(seg);
    CgpaLine(SampleHeader, SampleLine0 + "C" + seg, SampleLine0, seg, "\n" + SampleLine4);
  }

  lemma CgpaSplit(seg: string, pre: string)
    requires seg == "ollege Name" + ": " + "MIT" + "\n" + SampleLine2 && pre == SampleLine0 + "C" + seg
    ensures SampleHeader == pre + "CGPA" + ": " + "8.71" + ("\n" + SampleLine4)
  {
    assert pre == SampleLine0 + SampleLine1 + SampleLine2;
    assert SampleHeader == (SampleLine0 + SampleLine1 + SampleLine2) + (SampleLine3 + SampleLine4);
  }

  lemma CgpaLine(text: string, pre: string, line: string, seg: string, post: string)
    requires text == pre + "CGPA" + ": " + "8.71" + post && pre == line + "C" + seg
    requires 'c' !in line && 'C' !in line
    requires |seg| > 0 && seg[0] == 'o' && 'c' !in seg && 'C' !in seg
    requires |post| > 0 && post[0] == '\n'
    ensures ParseTextWithRegex(text)["CGPA"] == "8.71"
  {
    LabelledLineText(text, pre, "CGPA", "8.71", post);
    CgpaLabel(text, |pre|);
    FieldKeyIs(3, "CGPA");
    FirstLetterIs(3, 'c');
    GradeValue("8.71", post);
    FieldAfterFalseStart(text, pre, line, seg, "CGPA", "8.71", post, 3, 'c', 'C');
  }

  lemma CgpaFacts(caption: string)
    requires caption == "CGPA"
    ensures SpelledAs(caption, LabelText(FieldPatterns[3].words))
  {
    CgpaCaption(caption);
    LabelTextIs(3, "cgpa");
    LowerSpelledAs(caption, "cgpa");
  }

  lemma CgpaLabel(text: string, p: nat)
    requires p + |"CGPA"| <= |text| && text[p..p + |"CGPA"|] == "CGPA"
    ensures LabelEnd(text, p, FieldPatterns[3].words) == Some(p + |"CGPA"|)
  {
    CgpaFacts("CGPA");
    FieldWordsAreSolid(3);
    LabelEndAt(text, p, FieldPatterns[3].words, "CGPA");
  }

  lemma SampleResult()
    ensures ParseTextWithRegex(SampleHeader)["Result"] == "PASS"
  {
    var pre := SampleLine0 + SampleLine1 + SampleLine2 + SampleLine3;
    ResultSplit();
    NoLetterInResultPrefix(pre);
    ResultLine(SampleHeader, pre);
  }

  lemma ResultSplit()
    ensures SampleHeader == (SampleLine0 + SampleLine1 + SampleLine2 + SampleLine3) + "Result" + ": " + "PASS" + ""
  {
  }

  lemma ResultLine(text: string, pre: string)
    requires text == pre + "Result" + ": " + "PASS" + ""
    requires 'r' !in pre && 'R' !in pre
    ensures ParseTextWithRegex(text)["Result"] == "PASS"
  {
    LabelledLineText(text, pre, "Result", "PASS", "");
    ResultLabel(text, |pre|);
    FieldKeyIs(4, "Result");
    FirstLetterIs(4, 'r');
    ResultValue("PASS");
    FieldAfterFreePrefix(text, pre, "Result", "PASS", "", 4, 'r', 'R');
  }

  lemma ResultFacts(caption: string)
    requires caption == "Result"
    ensures SpelledAs(caption, LabelText(FieldPatterns[4].words))
  {
    ResultCaption(caption);
    LabelTextIs(4, "result");
    LowerSpelledAs(caption, "result");
  }

  lemma ResultLabel(text: string, p: nat)
    requires p + |"Result"| <= |text| && text[p..p + |"Result"|] == "Result"
    ensures LabelEnd(text, p, FieldPatterns[4].words) == Some(p + |"Result"|)
  {
    ResultFacts("Result");
    FieldWordsAreSolid(4);
    LabelEndAt(text, p, FieldPatterns[4].words, "Result");
  }

  /** Which first letters the sample's lines lack. */
  lemma NoLetterInLine0(s: string)
    requires s == SampleLine0
    ensures 'c' !in s && 'C' !in s
  {
  }

  lemma NoLetterInSgpaPrefix(s: string)
    requires s == "tudent Name" + ": " + "Ann Lee" + "\n" + SampleLine1
    ensures 's' !in s && 'S' !in s
  {
  }

  lemma NoLetterInCgpaPrefix(s: string)
    requires s == "ollege Name" + ": " + "MIT" + "\n" + SampleLine2
    ensures 'c' !in s && 'C' !in s
  {
  }

  lemma NoLetterInResultPrefix(s: string)
    requires s == SampleLine0 + SampleLine1 + SampleLine2 + SampleLine3
    ensures 'r' !in s && 'R' !in s
  {
  }

  /** The sample's values fit their patterns. */
  lemma NameValue(v: string, post: string)
    requires v == "Ann Lee" && |post| > 0 && post[0] == '\n'
    ensures |v| > 0 && IsStripped(v) && Fits(v, post, RestOfLine)
  {
  }

  lemma CollegeValue(v: string, post: string)
    requires v == "MIT" && |post| > 0 && post[0] == '\n'
    ensures |v| > 0 && IsStripped(v) && Fits(v, post, RestOfLine)
  {
  }

  lemma GradeValue(v: string, post: string)
    requires (v == "8.52" || v == "8.71") && |post| > 0 && post[0] == '\n'
    ensures |v| > 0 && IsStripped(v) && Fits(v, post, Decimal)
  {
    assert v[1] == '.' && AllDigits(v[..1]) && AllDigits(v[2..]);
  }

  lemma ResultValue(v: string)
    requires v == "PASS"
    ensures |v| > 0 && IsStripped(v) && Fits(v, "", PassOrFail)
  {
    assert Lower(v) == "pass";
  }

  /** The label text of each pattern, as `LabelText` spells it. */
  lemma LabelTextIs(i: nat, l: string)
    requires i < |FieldPatterns|
    requires i == 0 ==> l == "student name"
    requires i == 1 ==> l == "college name"
    requires i == 2 ==> l == "sgpa"
    requires i == 3 ==> l == "cgpa"
    requires i == 4 ==> l == "result"
    ensures LabelText(FieldPatterns[i].words) == l
  {
  }

  /** The key each pattern stores its value under. */
  lemma FieldKeyIs(i: nat, k: string)
    requires i < |FieldPatterns|
    requires i == 0 ==> k == "Student Name"
    requires i == 1 ==> k == "College Name"
    requires i == 2 ==> k == "SGPA"
    requires i == 3 ==> k == "CGPA"
    requires i == 4 ==> k == "Result"
    ensures FieldPatterns[i].key == k
  {
  }

  /** The first two letters of each pattern's caption: "st", "co", "sg",
      "cg" and "re". */
  lemma FirstLetterIs(i: nat, c: char)
    requires i < |FieldPatterns|
    requires i == 0 || i == 2 ==> c == 's'
    requires i == 1 || i == 3 ==> c == 'c'
    requires i == 4 ==> c == 'r'
    ensures |FieldPatterns[i].words| > 0 && |FieldPatterns[i].words[0]| > 1 && FieldPatterns[i].words[0][0] == c
    ensures i == 0 ==> FieldPatterns[i].words[0][1] == 't'
    ensures i == 1 ==> FieldPatterns[i].words[0][1] == 'o'
    ensures i == 2 || i == 3 ==> FieldPatterns[i].words[0][1] == 'g'
    ensures i == 4 ==> FieldPatterns[i].words[0][1] == 'e'
  {
  }

  lemma StudentNameCaption(c: string)
    requires c == "Student Name"
    ensures Lower(c) == "student name"
  {
  }

  lemma CollegeNameCaption(c: string)
    requires c == "College Name"
    ensures Lower(c) == "college name"
  {
  }

  lemma SgpaCaption(c: string)
    requires c == "SGPA"
    ensures Lower(c) == "sgpa"
  {
  }

  lemma CgpaCaption(c: string)
    requires c == "CGPA"
    ensures Lower(c) == "cgpa"
  {
  }

  lemma ResultCaption(c: string)
    requires c == "Result"
    ensures Lower(c) == "result"
  {
  }
}
