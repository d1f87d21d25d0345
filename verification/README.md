# Marksheet text extraction: a verified model

The repository reads student marksheets. An external OCR engine turns an
image into text, and plain string logic turns that text into a result
record, a summary CSV row and a few lines of feedback. This project models
that string logic in Dafny and proves properties of it:

- `OcrJson` (core/ocr_json.py): the fixed-field extractor. There are five
  labelled patterns (`FIELD_PATTERNS`), each searched case-insensitively.
  The result dict has exactly those five keys. A value is the stripped
  capture of the leftmost match, or `""`. Each regex is hand-compiled into
  a deterministic scanner. `re.search` becomes the leftmost start position
  at which that scanner succeeds.
- `GuiParse` (gui/guiapp.py): the line-split extractor. Every line with a
  `:` is split at its first colon, and the stripped key maps to the
  stripped value. The last line with a given key wins.
- `MarksParse` (ocr/main.py): the regex line parser. The pattern
  `(\w[\w ]*):\s*(\w[\w ]*)` is applied to each stripped line. The value
  goes through `int()` when that succeeds. The key `name`, `roll no` or
  `total` routes the pair to the top level; any other key puts it in the
  nested `"Marks"` dict.
- `SummaryCsv` (core/csv.py): the three-column projection built with
  `dict.get` defaults, and the append that writes the header only when the
  file did not exist. The file is an abstract state: `None` while absent,
  otherwise its rows.
- `Insights` (core/insights.py): subject and aggregate classification by
  substrings of the lowercased key. It emits a weakest-subject line, a
  gap-to-90% line and a performance band, in that order, and joins them
  into one suggestion text.

There are also shared modules:

- `Text` holds the character classes, `str.strip`, `in` on strings,
  splitting and joining.
- `Dicts` holds a Python dict built by assigning pairs in order. The last
  assignment to a key wins. Keys iterate in the order of their first
  assignment, which is the order `json.dump` writes them and the order
  the insight generator reads them back in.
- `Options` holds the option type.
- `OcrExample` holds a worked example of the fixed-field extractor.

Two points about what the code does:

- The CSV header is written when the file does not *exist*, not when it is
  empty. An existing empty file gets no header.
- There is no value normaliser, no de-duplication of rows and no database
  in this code, so the model has none either. `write_to_csv` appends
  duplicate rows.

## Model

| member | source | states |
|---|---|---|
| `OcrJson.CaptureAt` | core/ocr_json.py:12-16 | A capture is a substring of the text at the capture position. `(.*)` always succeeds, holds no newline and stops at a newline or the end. `(\d+\.\d+)` succeeds exactly when a decimal starts at the position, and yields a decimal followed by a non-digit. `(PASS|FAIL)` succeeds exactly when "pass" or "fail" in any letter case starts there, and yields that word. |
| `OcrJson.CaptureAtFits` | core/ocr_json.py:12-16 | A value with the group's shape, followed by text the group cannot take, is exactly what the group captures. |
| `OcrJson.MatchAt` | core/ocr_json.py:12-16 | A match at a position starts with the label's first word in any letter case and runs through the whole label. The capture occurs in the text. Where the capture starts is pinned by `MatchAtSpans` and `MatchAtHasSpans`. |
| `OcrJson.LabelEndSpan` | core/ocr_json.py:12-13 | The scanner finds where a label ends exactly when the label spans the text up to there. Each word matches in any letter case, and consecutive words are separated by a run of whitespace (`\s*`) that goes as far as it can, possibly empty. |
| `OcrJson.CaptureStartSpan` | core/ocr_json.py:12-16 | The capture starts exactly where `\s*[:\-]?\s*` ends after the label: whitespace as far as it goes, then one ':' or '-' only when one is there, then whitespace as far as it goes. |
| `OcrJson.MatchAtSpans` | core/ocr_json.py:12-16 | For any label span from the position and any separator span after it, the match at the position is what the group captures at the end of the separator. |
| `OcrJson.MatchAtHasSpans` | core/ocr_json.py:12-16 | Every match has a label span and a separator span, and its value is what the group captures after them. |
| `OcrJson.MatchAtLabelledLine` | core/ocr_json.py:12-16 | A line "Label: value" is a match at the line's start that captures the value. This holds when the label spells the pattern's words with single spaces in any letter case, and the value starts with a non-blank and fits the group. |
| `OcrJson.FieldOfLabelledLine` | core/ocr_json.py:33-35 | When such a labelled line is the first place its pattern matches, and the value is stripped, the field's value is the line's value. |
| `OcrExample.SampleHeaderFields` | core/ocr_json.py:31-36 | On a five-line header "Student Name: Ann Lee", "College Name: MIT", "SGPA: 8.52", "CGPA: 8.71", "Result: PASS", every field is filled with the value printed on its line. |
| `OcrJson.Search` | core/ocr_json.py:34 | `re.search` gives None exactly when the pattern matches at no position. Otherwise it gives the leftmost position with a match and that match's capture. |
| `OcrJson.LeftmostIsUnique` | core/ocr_json.py:34 | The leftmost match and its capture are unique, so the search result is well defined. |
| `OcrJson.FieldValue` | core/ocr_json.py:35 | A field is `""` when its pattern matches nowhere. Otherwise it is the leftmost capture with whitespace stripped. |
| `OcrJson.ParseTextWithRegex` | core/ocr_json.py:31-36 | The result has exactly the keys "Student Name", "College Name", "SGPA", "CGPA" and "Result", whatever the text. |
| `OcrJson.FieldIsStrippedLeftmostCapture` | core/ocr_json.py:33-35 | For each of the five patterns, the stored value is `""` when nothing matches. Otherwise it is the stripped capture of the leftmost match. A field is never absent and never an error. |
| `OcrJson.FieldFromSearch` | core/ocr_json.py:34-35 | The stored value is the stripped capture of the search result, or `""` when the search finds nothing. |
| `OcrJson.MatchAtCapture` | core/ocr_json.py:12-16 | A match's capture occurs in the text. For a name it has no newline, for a GPA it is digits "." digits, and for Result it is PASS or FAIL in any case. |
| `OcrJson.EmptyTextGivesEmptyFields` | core/ocr_json.py:33-35 | Empty text gives `""` for all five fields. |
| `OcrJson.GpaFieldsAreDecimal` | core/ocr_json.py:14-15 | A non-empty SGPA or CGPA value has the form digits "." digits. |
| `OcrJson.ResultFieldIsPassOrFail` | core/ocr_json.py:16 | A non-empty Result value lowercases to "pass" or "fail" and occurs in the text as written, with its case kept. |
| `OcrJson.NameFieldsAreSingleLine` | core/ocr_json.py:12-13 | The name and college values never contain a newline. |
| `GuiParse.LinePair` | gui/guiapp.py:19-21 | A line gives a pair exactly when it contains ":". The key has no ":", and key and value are both stripped. |
| `GuiParse.SplitAtFirstColon` | gui/guiapp.py:20 | The split is at the first colon only. The value keeps any later colons, and a line starting with ":" gives the key "". |
| `GuiParse.LineWithoutColonIgnored` | gui/guiapp.py:19 | A line without ":" can be removed without changing the dict. |
| `GuiParse.ParseTextToJson` | gui/guiapp.py:16-22 | Every entry is the stripped key and the stripped value of some line, cut at that line's first colon. So no key holds a ":", and keys and values are stripped. Text without any ":", the empty text included, gives the empty dict. The key order is in `ParseTextToItems`. |
| `GuiParse.ParseTextToItems` | gui/guiapp.py:16-22 | The dict's items in iteration order, the order `json.dump` writes them: exactly the entries of `ParseTextToJson`, each key once. |
| `GuiParse.LineUpdatesInPlace` | gui/guiapp.py:18-21 | Each line with a colon is one `result[key] = value`. A key already present keeps its place and takes the new value, and a new key goes last. A line without a colon changes nothing. |
| `GuiParse.RenderThenParseItems` | gui/guiapp.py:16-22 | Writing stripped pairs as "key: value" lines and parsing the text gives back the items those pairs assign, in the same order. |
| `GuiParse.TwoLinesKeepTheirOrder` | gui/guiapp.py:16-22 | Two lines with different keys come out in the order they were written, so swapping the lines swaps the items. |
| `GuiParse.SameMarkEarlierLineIsWeakest` | core/insights.py:48-50 | When the dict written for two subject lines with the same mark is read back, the weakest subject is the one on the earlier line. |
| `GuiParse.EntriesFromLines` | gui/guiapp.py:18-21 | Each entry of the dict comes from a line that yields exactly that key and value. |
| `GuiParse.KeyFromLine` | gui/guiapp.py:18-21 | Every key of the dict is the stripped prefix, before the first colon, of some line that has a colon. |
| `GuiParse.LastLineWins` | gui/guiapp.py:21 | When several lines share a stripped key, the value comes from the last of them. |
| `GuiParse.RenderThenParse` | gui/guiapp.py:16-22 | Writing stripped pairs as "key: value" lines and parsing the text gives back the dict the pairs assign, last one winning. |
| `MarksParse.ParseInt` | ocr/main.py:40 | `int()` succeeds only on text that is non-empty after stripping and holds at most 4300 digits. A negative result comes from a leading "-". |
| `MarksParse.ParseIntChars` | ocr/main.py:40 | Text that `int()` accepts is, after stripping and past the sign, made only of digits and underscores. |
| `MarksParse.ParseIntOfIntToString` | ocr/main.py:39-42 | An integer of at most 4300 digits is read back from its decimal text as itself. `int()` refuses a longer one. |
| `MarksParse.ToScalar` | ocr/main.py:39-42 | The value is an int exactly when `int()` accepts the text, and it is that int. Otherwise the value is the text unchanged. |
| `MarksParse.MatchLine` | ocr/main.py:33 | The match is anchored at the line's start: a line that does not start with a word character never matches. A match's key is the line's prefix up to a ":" and is made of word characters and spaces. Its value starts with a word character and is made of word characters and spaces. |
| `MarksParse.MatchLineSound` | ocr/main.py:33 | A match of the scanner is a parse of the line by the pattern's grammar. |
| `MarksParse.MatchLineComplete` | ocr/main.py:33 | Any parse of the line by the grammar is the scanner's match, so the match is unique. |
| `MarksParse.LineEntry` | ocr/main.py:29-42 | A blank or whitespace-only line yields nothing. A yielded key is stripped and non-empty. |
| `MarksParse.EntryOfGrammarMatch` | ocr/main.py:29-42 | For any line whose stripped text the grammar parses, the entry is the stripped key and the converted stripped value of that parse. |
| `MarksParse.EntryIffGrammar` | ocr/main.py:29-35 | A line yields an entry exactly when the grammar parses its stripped text. |
| `MarksParse.FoldIsRouted` | ocr/main.py:28-47 | After the loop, each destination dict holds, for each of its keys, the value of the last line with that key. |
| `MarksParse.RouteLines` | ocr/main.py:44-47 | The loop fills the top-level dict with the info-key pairs and the marks dict with the others, last one winning in each. |
| `MarksParse.ParseTextToJson` | ocr/main.py:23-50 | The result is the two routed dicts assembled over the text split at "\n". The key order is in `AssembleItems` and `MarksItems`. |
| `MarksParse.MarksAssignedLast` | ocr/main.py:44-49 | `data["Marks"] = marks` is one more assignment to the top-level dict, to a key that no line can have put there, and it gives the assembled dict. |
| `MarksParse.AssembleItems` | ocr/main.py:44-49 | The result's items in iteration order, the order `json.dump` writes them: exactly the entries of the result, each key once, with "Marks" last. |
| `MarksParse.MarksItems` | ocr/main.py:44-47 | The nested marks' items in iteration order: exactly the entries of the nested dict, each key once. |
| `MarksParse.RouteKeys` | ocr/main.py:44-47 | The top-level pairs have keys whose lowercase is "name", "roll no" or "total". The marks pairs have no such key. |
| `MarksParse.Assemble` | ocr/main.py:44-49 | "Marks" is always present and bound to the nested dict. Every other top-level key is an info key with a plain value. No marks key is an info key. |
| `MarksParse.SkippedLineIgnored` | ocr/main.py:29-34 | A line that yields nothing (blank, or not matching) can be removed without changing the result. |
| `MarksParse.RouteOfCollect` | ocr/main.py:44-47 | Routing the collected pairs equals collecting only the pairs bound for one destination. |
| `MarksParse.LastLineWins` | ocr/main.py:44-47 | For a duplicate key within one destination, the last line's value wins. |
| `MarksParse.KeyNotFollowedByColon` | ocr/main.py:33 | If the key's run of word characters and spaces ends at anything other than ":", the line does not match. |
| `MarksParse.NoWordAfterColon` | ocr/main.py:33 | If the colon and its whitespace are followed by the end of the line or by a character that is not a word character, the line does not match. |
| `MarksParse.DecimalValueIsTruncated` | ocr/main.py:33-42 | "CGPA: 8.5" yields ("CGPA", 8), because the value stops at the ".". |
| `MarksParse.HyphenatedKeySkipped` | ocr/main.py:33 | "Roll-No: 5" yields nothing, because "-" is not a word character or space. |
| `MarksParse.NoWordAfterColonSkipped` | ocr/main.py:33 | "Maths: --" yields nothing, because no word character follows the colon. |
| `SummaryCsv.Get` | core/csv.py:13-15 | `dict.get` gives the stored value for a present key and the default only for an absent one. |
| `SummaryCsv.ExtractKeyFields` | core/csv.py:13-16 | The row always has three elements. |
| `SummaryCsv.KeyFieldColumns` | core/csv.py:13-15 | The "Unknown" defaults apply only to absent keys, and a present `""` is kept. The GPA comes from CGPA if present (even `""`), else from SGPA, else it is "N/A". |
| `SummaryCsv.KeyFieldsOfExtractedText` | core/csv.py:13-15 | Fed the fixed-field extractor's dict, no default fires. The GPA column is then always the CGPA value. |
| `SummaryCsv.WriteToCsv` | core/csv.py:24-30 | Exactly one row is appended and earlier rows are untouched. The header goes first exactly when the file did not exist. |
| `SummaryCsv.WriteAllAppends` | core/csv.py:26-30 | Writes to an existing file append their rows in order and nothing else. Duplicates are kept and there is no header. |
| `SummaryCsv.WriteAllFromScratch` | core/csv.py:24-30 | Starting without a file, the result is one header followed by every row written. |
| `SummaryCsv.ProcessJsonToCsv` | core/csv.py:43-52 | A JSON file that does not parse is skipped. The summary file comes into being exactly when it existed before or some JSON file parses. |
| `SummaryCsv.ProcessIsWriteAll` | core/csv.py:43-49 | The loop over the JSON files is a run of `write_to_csv` calls on the key-field rows of the files that parse, in listing order. |
| `SummaryCsv.ProcessFromScratch` | core/csv.py:18-49 | Starting without a summary file, a run that parses some JSON file writes the header "Name", "GPA", "College" once, then one row per parsed file. |
| `SummaryCsv.EmptyExistingFileGetsNoHeader` | core/csv.py:24-29 | An existing but empty file gets the row and no header. |
| `Insights.Subjects` | core/insights.py:19-31 | The subjects dict has at most one entry per item. `SubjectsIff` states its contents, and `SubjectOfReading` and `SubjectAt` state its order. |
| `Insights.Classify` | core/insights.py:22-25 | A key whose lowercase form contains "percent" or "total" contains an excluded term, so it is never a subject. |
| `Insights.SubjectsIff` | core/insights.py:19-31 | A pair is a subject exactly when some reading is numeric, its key has no excluded term, and the pair is that reading's key and number. |
| `Insights.SubjectItems` | core/insights.py:19-31 | Over the dict's items: a subject is an item whose value `float()` accepts and whose lowercased key contains none of "percent", "cgpa", "sgpa", "total", "backlog" and "gpa". A non-numeric item is never a subject. |
| `Insights.Aggregate` | core/insights.py:33-45 | A slot that left its initial value holds the value of some reading picked for that slot. The initial values are None for the percentage and 0 for the total and the max. |
| `Insights.LastOfNone` | core/insights.py:34-45 | An aggregate slot stays unset exactly when no item qualifies for it. |
| `Insights.LastOfIsLast` | core/insights.py:34-45 | A set slot holds the value of the last qualifying item. |
| `Insights.AggregateIsLastOf` | core/insights.py:34-45 | The single aggregate loop equals three independent last-wins selections. "percent" is tested before "total", a key with both "total" and "max" counts as max, and non-numeric values are skipped. |
| `Insights.FirstMin` | core/insights.py:49 | `min(subjects, key=subjects.get)` returns a subject with the least mark, and no earlier subject has that mark. |
| `Insights.WeakestIsFirstMinimal` | core/insights.py:48-51 | The weakest-subject line names a dict item that is a subject, with its mark. No subject item has a smaller mark. Every subject item before it in the dict has a strictly greater mark. |
| `Insights.SubjectOfReading` | core/insights.py:19-29 | Subjects keep the dict's order: a subject item sits in the subjects right after the subjects of the items before it. |
| `Insights.SubjectAt` | core/insights.py:19-29 | Every subject comes from a subject item, at the position given by the subjects before that item. |
| `Insights.GapLine` | core/insights.py:54-60 | The gap line appears exactly when total and max are non-zero and total < 0.9 * max. Its gap is positive and closes the distance to 0.9 * max. The "not found" line appears exactly when total or max is zero and the percentage is absent. |
| `Insights.Band` | core/insights.py:63-73 | There is always exactly one band line. It is "Percentage not found" exactly when the percentage is absent. |
| `Insights.BandIsMonotone` | core/insights.py:63-71 | The band thresholds are 90, 75 and 60, and a higher percentage never gets a lower band. |
| `Insights.Analyze` | core/insights.py:10-75 | There are 1 to 3 lines. The last line is the only band line. The weakest-subject line comes first, exactly when there is a subject. |
| `Insights.AnalyzeStudent` | core/insights.py:10-75 | Over the dict's items, there are 1 to 3 lines and the last is a band. A weakest-subject line leads exactly when some item has a value `float()` accepts and a lowercased key free of the excluded terms. |
| `Insights.AnalyzeLines` | core/insights.py:47-75 | The lines come in the fixed order weakest, gap, band, each present exactly under its condition. |
| `Insights.PercentageOnly` | core/insights.py:25-73 | A record with only a percentage gets just its band line: no subject, and no gap line. |
| `Insights.PercentageExamples` | core/insights.py:63-71 | A percentage of 91 gives "excellent" and 59 gives "needs improvement". |
| `Insights.TwoSubjectsExample` | core/insights.py:19-73 | With Maths 40 and Science 90 and no aggregates, Maths is the weakest, the gap cannot be computed and the percentage is missing. |
| `Insights.TieGoesToFirstItem` | core/insights.py:48-50 | Of two subjects with the same mark, the one earlier in the dict is the weakest. So the dict's order decides ties. |
| `Insights.MaxMarksIsSubjectAndMax` | core/insights.py:25-43 | A numeric "Max Marks" counts both as a subject and as the max total. |
| `Insights.Render` | core/insights.py:51-73 | Every line is its emoji, one space, then its message. So it never starts with the "N" of the fallback text. |
| `Insights.GenerateSuggestions` | core/insights.py:77-82 | The "No insights available." fallback is never returned, since there is always a band line. The text starts with the first line's emoji. |
| `Insights.SuggestionsAreTheLines` | core/insights.py:77-82 | Splitting the text at newlines gives back the rendered lines. This holds when no subject key holds a newline and the mark and gap formats print none (`str(float)` and `.1f` never do). |
| `Insights.RenderHasNoNewline` | core/insights.py:51-73 | A rendered line holds no newline when its subject and the two number formats hold none: the emoji and the fixed message texts have none. |
| `Text.Strip` | gui/guiapp.py:21 | `str.strip` yields the slice between the leading and the trailing whitespace, with no whitespace left at either end. |
| `Text.StripIsUnique` | gui/guiapp.py:21 | Only one string is a strip of a given string. |
| `Text.Lower` | core/insights.py:22 | Lowercasing keeps the length and lowercases each character on its own. |
| `Text.LowerIsIdempotent` | core/insights.py:22 | No ASCII capital is left after lowercasing, so lowercasing again changes nothing. |
| `Text.SplitLines` | gui/guiapp.py:18 | There is at least one line, no line holds a line boundary, and text without a boundary is a single line. |
| `Text.SplitLinesJoin` | gui/guiapp.py:18 | Text whose only line boundary is "\n" is its lines joined by "\n". |
| `Text.ContainsIff` | core/insights.py:25 | The substring scan agrees with "occurs at some position". |
| `Text.IsSpace` | gui/guiapp.py:21 | The whitespace of `str.strip` and of `\s`: the ASCII blanks, the separators U+001C to U+001F, and the Unicode spaces that `str.isspace` accepts. |
| `Text.Split` | ocr/main.py:27 | `str.split` gives at least one piece, and no piece holds the separator. `JoinSplit` and `SplitJoin` give the round trips. |
| `Text.JoinSplit` | ocr/main.py:27 | Splitting at a character and joining with it gives the text back. |
| `Text.SplitJoin` | core/insights.py:82 | Joining lines that lack the separator and splitting again gives back the lines. |
| `Dicts.LastWins` | gui/guiapp.py:21 | Assigning pairs in order gives a dict whose keys are the assigned keys. Each key maps to the value of its last assignment. This is the dict as a map: its order is in `Items`. |
| `Dicts.FirstKeys` | gui/guiapp.py:21 | The keys of the assigned pairs, each exactly once. |
| `Dicts.FirstKeysOrder` | gui/guiapp.py:21 | A key listed before another had already been assigned at every assignment of the other. So keys come in the order of their first assignments. |
| `Dicts.Items` | gui/guiapp.py:21 | The dict as `list(d.items())`: each key once, with its last value, and every key of the dict present. |
| `Dicts.ItemsAssign` | gui/guiapp.py:21 | `d[k] = v` on an existing key updates its item in place, and on a new key appends the item at the end. |
| `Dicts.ItemsOfTwo` | gui/guiapp.py:21 | Two assignments to different keys iterate in the order they were made. |
| `Dicts.LastWinsValue` | gui/guiapp.py:21 | Every key of the dict has a last assignment, and its value is the one that assignment wrote. |
| `Dicts.Collect` | gui/guiapp.py:18-21 | The loop yields at most one pair per element. `CollectSkips`, `CollectPairFrom` and `CollectLastWins` state the contents. |
| `Dicts.CollectPairFrom` | gui/guiapp.py:18-21 | Every collected pair was yielded by some element of the loop. |
| `Dicts.CollectSkips` | gui/guiapp.py:19 | An element for which the loop body assigns nothing can be dropped. |
| `Dicts.CollectLastWins` | gui/guiapp.py:18-21 | The last element that assigns a key decides its value. |

## Left out

- OCR itself is not modelled: easyocr, pytesseract, OpenCV image loading and `extract_text_from_image` are external engines. The text they produce is the input here.
- JSON and file I/O (`save_to_json`, `load_json_file`, `generate_insights_for_all`, and the directory listing and `json.load` of `process_json_to_csv`) is not modelled. Only the abstract file state of `write_to_csv` is kept: absent, or its rows.
- SummaryCsv.ProcessJsonToCsv: each JSON file is given as its dict of strings or as a parse failure. A JSON document that is not a dict makes `.get` raise AttributeError, which the source does not catch; that case is not modelled. When no file is listed, the source prints and returns, which the model covers as a run over no files.
- The user interfaces are not modelled: Streamlit (app/main.py, with its password hashing, users table and CGPA filter) and Tkinter (`build_gui`, `process_files`). `insert_into_db` is not part of this model.
- CSV quoting and the byte encoding of rows are not modelled. A row is a sequence of strings.
- Python's float formatting is not modelled. `Insights.Render` takes the mark's `str()` and the gap's `.1f` text as parameters.
- Insights.Readings: `float()` is a parameter `toFloat`, None where it raises ValueError or TypeError, which the loops catch. `float()` of an int above about 1.8e308 raises OverflowError, which the loops do not catch, so `analyze_student` raises on such an item. The model has no uncaught error: `toFloat` is total. NaN, infinities and float rounding are not modelled either: numbers are exact reals, and `0.9 * max` is exact.
- `extract_key_fields` is modelled over string-valued dicts, which is what the fixed-field extractor produces. Other JSON values pass through `dict.get` unchanged in the source.
- Unicode semantics are approximated by ASCII:
  - `\w` and `\d` are ASCII.
  - `str.lower` and `re.IGNORECASE` fold ASCII letters only. Characters such as U+017F or the Kelvin sign, which Python folds to ASCII letters, are not.
  - `int()` accepts ASCII digits only.
  - `\s` and `str.strip` use Python's full whitespace set.
- MarksParse.ParseInt: non-ASCII digits, which Python's `int()` also accepts, are not accepted. The digit limit is the default 4300; a limit changed with `sys.set_int_max_str_digits` is not modelled. The round trip and the shape of accepted text are proved, not the full grammar of Python int literals.
- MarksParse.ParseIntOfIntToString: `IntToString` prints any integer, where Python's `str()` raises ValueError above 4300 digits as well. The lemma covers that case by stating that `int()` refuses the text.
- GuiParse.ParseTextToJson: `str.splitlines` is modelled by splitting at every line-boundary character. A "\r\n" pair therefore gives an extra empty piece, a trailing newline gives a final empty piece, and the empty text gives one empty line instead of none. None of these pieces has a ":", so the resulting dict is the same.
- The insight generator reads the dict through its items in iteration order. `Insights.AnalyzeStudent` accepts any item sequence, including one with a repeated key; the items `ParseTextToItems` and `AssembleItems` give have distinct keys.
- The JSON round trip through the output folder is not modelled. `json.dump` followed by `json.load` keeps a dict's keys in order, so the insight generator reads the items in the order `ParseTextToItems` and `AssembleItems` state. The int values of the OCR parser come back as ints and the nested "Marks" dict as a dict.
- OcrJson.ParseTextWithRegex: the result is a map without the dict's key order, which is always the order of `FIELD_PATTERNS`. Its one reader, `extract_key_fields`, looks keys up by name.
