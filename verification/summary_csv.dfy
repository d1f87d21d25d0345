/** The summary table of core/csv.py: the three key fields of a result dict
    as a row, and the append that writes the header only when the file is
    created. The file is an abstract state: None while it does not exist,
    otherwise its rows in order. */
module SummaryCsv {
  import opened Options
  import opened OcrJson

  type Row = seq<string>

  /** `csv.writer`'s file, before or after a call: absent, or its rows. */
  type FileState = Option<seq<Row>>

  const DefaultHeader: Row := ["Name", "GPA", "College"]

  /** `d.get(k, default)`. */
  function Get(d: map<string, string>, k: string, default: string): (v: string)
    ensures k in d ==> v == d[k]
    ensures k !in d ==> v == default
  {
    if k in d then d[k] else default
  }

  /** `extract_key_fields(d)`: [name, gpa, college]. */
  function ExtractKeyFields(d: map<string, string>): (row: Row)
    ensures |row| == 3
  {
    [Get(d, "Student Name", "Unknown"), Get(d, "CGPA", Get(d, "SGPA", "N/A")), Get(d, "College Name", "Unknown")]
  }

  /** Which value each column takes: a present key is used as it is, even
      when it is ""; a default applies only to an absent key; the GPA column
      prefers CGPA, then SGPA, then "N/A". */
  lemma KeyFieldColumns(d: map<string, string>)
    ensures var row := ExtractKeyFields(d);
      && ("Student Name" !in d ==> row[0] == "Unknown")
      && ("Student Name" in d ==> row[0] == d["Student Name"])
      && ("CGPA" in d ==> row[1] == d["CGPA"])
      && ("CGPA" !in d && "SGPA" in d ==> row[1] == d["SGPA"])
      && ("CGPA" !in d && "SGPA" !in d ==> row[1] == "N/A")
      && ("College Name" in d ==> row[2] == d["College Name"])
      && ("College Name" !in d ==> row[2] == "Unknown")
  {
  }

  /** Fed the output of `parse_text_with_regex`, no default ever applies:
      the row is the name, CGPA and college values, so the GPA column is the
      CGPA value even when that is "" and an SGPA was found. */
  lemma KeyFieldsOfExtractedText(text: string)
    ensures var r := ParseTextWithRegex(text);
      ExtractKeyFields(r) == [r["Student Name"], r["CGPA"], r["College Name"]]
  {
  }

  /** `write_to_csv(row, header)`: the file afterwards. The header goes
      first only when the file did not exist; then the row is appended. */
  function WriteToCsv(file: FileState, row: Row, header: Row): (after: seq<Row>)
    ensures file.Some? ==> |after| == |file.value| + 1 && after[..|file.value|] == file.value
    ensures file.None? ==> |after| == 2 && after[0] == header
    ensures after[|after| - 1] == row
  {
    match file
    case None => [header, row]
    case Some(rows) => rows + [row]
  }

  /** Several calls in a row, the file existing after the first. */
  function WriteAll(file: FileState, rows: seq<Row>, header: Row): (after: FileState)
    decreases |rows|
  {
    if |rows| == 0 then file
    else WriteAll(Some(WriteToCsv(file, rows[0], header)), rows[1..], header)
  }

  /** Starting without a file, the header is written once, followed by every
      row in order: repeated rows are all kept, and nothing written earlier
      is altered. */
  lemma {:induction false} WriteAllFromScratch(rows: seq<Row>, header: Row)
    requires |rows| > 0
    ensures WriteAll(None, rows, header) == Some([header] + rows)
  {
    WriteAllAppends([header, rows[0]], rows[1..], header);
    assert [header, rows[0]] + rows[1..] == [header] + rows;
  }

  /** Writing to an existing file appends the rows and nothing else. */
  lemma {:induction false} WriteAllAppends(existing: seq<Row>, rows: seq<Row>, header: Row)
    ensures WriteAll(Some(existing), rows, header) == Some(existing + rows)
    decreases |rows|
  {
    if |rows| == 0 {
      assert existing + rows == existing;
    } else {
      WriteAllAppends(existing + [rows[0]], rows[1..], header);
      assert existing + [rows[0]] + rows[1..] == existing + rows;
    }
  }

  /** The rows `process_json_to_csv` appends: the key fields of every file
      that parsed, in listing order. */
  function KeyRows(docs: seq<Option<map<string, string>>>): seq<Row>
    decreases |docs|
  {
    if |docs| == 0 then []
    else
      match docs[0]
      case None => KeyRows(docs[1..])
      case Some(d) => [ExtractKeyFields(d)] + KeyRows(docs[1..])
  }

  /** `process_json_to_csv`: the JSON files in listing order, each given as
      its dict or as None where `json.load` raises JSONDecodeError; a file
      that does not parse is skipped, and every other one appends its key
      fields under the default header. The file comes into being exactly
      when some JSON file parses. */
  function ProcessJsonToCsv(file: FileState, docs: seq<Option<map<string, string>>>): (after: FileState)
    ensures after.None? <==> file.None? && forall i :: 0 <= i < |docs| ==> docs[i].None?
    decreases |docs|
  {
    if |docs| == 0 then file
    else
      var next := match docs[0]
        case None => file
        case Some(d) => Some(WriteToCsv(file, ExtractKeyFields(d), DefaultHeader));
      assert forall i :: 1 <= i < |docs| ==> docs[i] == docs[1..][i - 1];
      ProcessJsonToCsv(next, docs[1..])
  }

  /** The loop over the JSON files is a run of `write_to_csv` calls on the
      rows of the files that parsed. */
  lemma {:induction false} ProcessIsWriteAll(file: FileState, docs: seq<Option<map<string, string>>>)
    ensures ProcessJsonToCsv(file, docs) == WriteAll(file, KeyRows(docs), DefaultHeader)
    decreases |docs|
  {
    if |docs| > 0 {
      match docs[0]
      case None =>
        ProcessIsWriteAll(file, docs[1..]);
      case Some(d) =>
        var next := Some(WriteToCsv(file, ExtractKeyFields(d), DefaultHeader));
        ProcessIsWriteAll(next, docs[1..]);
        assert KeyRows(docs)[1..] == KeyRows(docs[1..]);
    }
  }

  /** Starting without a summary file, a run that parses at least one JSON
      file writes the default header once, then one row per parsed file. */
  lemma ProcessFromScratch(docs: seq<Option<map<string, string>>>)
    requires |KeyRows(docs)| > 0
    ensures ProcessJsonToCsv(None, docs) == Some([DefaultHeader] + KeyRows(docs))
  {
    ProcessIsWriteAll(None, docs);
    WriteAllFromScratch(KeyRows(docs), DefaultHeader);
  }

  /** A file that exists but is empty gets no header. */
  lemma EmptyExistingFileGetsNoHeader(row: Row, header: Row)
    ensures WriteToCsv(Some([]), row, header) == [row]
  {
  }
}
