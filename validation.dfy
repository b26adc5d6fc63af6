/**
 * The row validator run before the warehouse load: the field rules of the
 * `Content` and `Metadata` record schemas, and the clean-and-validate pass
 * that splits the rows of a CSV file into accepted records and error entries
 * and overwrites the output file with a header and the accepted records.
 */
module Validation {
  import opened Wrappers
  import opened Strings
  import opened Dicts

  /** A CSV row as `csv.DictReader` yields it. A cell a short row lacks is an absent key. */
  type Row = map<string, string>

  /** A rejected row; the text of the validation message is not modelled. */
  datatype ErrorEntry = ErrorEntry(row: Row)

  /** U+25A1 WHITE SQUARE, the one character the content and abstract rules refuse. */
  const WhiteSquare: char := '\U{25A1}'

  // ------------------------------------------------------------------
  // Field rules
  // ------------------------------------------------------------------

  /** `not value.strip()` */
  predicate IsBlank(v: string) {
    Strip(v) == ""
  }

  /** The blank check shared by `content_must_not_be_blank` and `must_not_be_blank`. */
  function NotBlank(v: string): (r: Option<string>)
    ensures r.Some? <==> exists i :: 0 <= i < |v| && !IsSpace(v[i])
    ensures r.Some? ==> r.value == v
  {
    if IsBlank(v) then None else Some(v)
  }

  /** `check_content_special_characters`: the white square is refused. */
  function NoWhiteSquare(v: string): (r: Option<string>)
    ensures r.Some? <==> forall i :: 0 <= i < |v| ==> v[i] != WhiteSquare
    ensures r.Some? ==> r.value == v
  {
    if WhiteSquare in v then None else Some(v)
  }

  /** Only letters, digits and spaces, with at least one letter or digit. */
  predicate LettersDigitsAndSpaces(v: string) {
    && (exists i :: 0 <= i < |v| && IsAlnum(v[i]))
    && forall i :: 0 <= i < |v| ==> IsAlnum(v[i]) || v[i] == ' '
  }

  /** `title_only_letters_and_numbers`: `value.replace(" ", "").isalnum()`, then the value stripped. */
  function TitleOnlyLettersAndNumbers(v: string): (r: Option<string>)
    ensures r.Some? <==> LettersDigitsAndSpaces(v)
    ensures r.Some? ==> r.value == Strip(v)
  {
    var compact := ReplaceAll(v, " ", "");
    RemoveCharChars(v, ' ');
    assert |compact| > 0 <==> exists i :: 0 <= i < |v| && v[i] != ' ' by {
      if |compact| > 0 { assert compact[0] in compact; }
      if exists i :: 0 <= i < |v| && v[i] != ' ' {
        var i :| 0 <= i < |v| && v[i] != ' ';
        assert v[i] in v;
      }
    }
    assert (forall i :: 0 <= i < |compact| ==> IsAlnum(compact[i]))
       <==> (forall i :: 0 <= i < |v| ==> IsAlnum(v[i]) || v[i] == ' ') by {
      forall i | 0 <= i < |v| && (forall j :: 0 <= j < |compact| ==> IsAlnum(compact[j]))
        ensures IsAlnum(v[i]) || v[i] == ' '
      {
        assert v[i] in v;
        if v[i] != ' ' {
          var j :| 0 <= j < |compact| && compact[j] == v[i];
        }
      }
      forall i | 0 <= i < |compact| && (forall j :: 0 <= j < |v| ==> IsAlnum(v[j]) || v[j] == ' ')
        ensures IsAlnum(compact[i])
      {
        assert compact[i] in compact;
      }
    }
    if |compact| > 0 && forall i :: 0 <= i < |compact| ==> IsAlnum(compact[i]) then Some(Strip(v)) else None
  }

  /** The rules on a `Content` title, in declaration order: `must_not_be_blank`, then `title_only_letters_and_numbers`. */
  function ValidateTitle(v: string): (r: Option<string>)
    ensures r.Some? <==> LettersDigitsAndSpaces(v)
    ensures r.Some? ==> r.value == Strip(v)
  {
    match NotBlank(v)
    case None => None
    case Some(v1) => TitleOnlyLettersAndNumbers(v1)
  }

  /** The rules on a `Content` body: `content_must_not_be_blank`, `must_not_be_blank`, `check_content_special_characters`. */
  function ValidateContentText(v: string): (r: Option<string>)
    ensures r.Some? <==> (exists i :: 0 <= i < |v| && !IsSpace(v[i])) && WhiteSquare !in v
    ensures r.Some? ==> r.value == v
  {
    match NotBlank(v)
    case None => None
    case Some(v1) =>
      match NotBlank(v1)
      case None => None
      case Some(v2) => NoWhiteSquare(v2)
  }

  /** One character of the regex class `[\w\d\s\-\:\,]`. */
  predicate IsTextChar(c: char) {
    IsWordChar(c) || IsDigit(c) || IsSpace(c) || c == '-' || c == ':' || c == ','
  }

  /** A full match of `^[\w\d\s\-\:\,]+$`; the class holds `\n`, so `$` before a final newline changes nothing. */
  predicate MatchesTextPattern(v: string) {
    |v| > 0 && forall i :: 0 <= i < |v| ==> IsTextChar(v[i])
  }

  /** `alphanumeric_and_no_trailing_spaces`: the pattern on the raw value, then the value stripped. */
  function AlphanumericAndNoTrailingSpaces(v: string): (r: Option<string>)
    ensures r.Some? <==> MatchesTextPattern(v)
    ensures r.Some? ==> r.value == Strip(v)
  {
    if MatchesTextPattern(v) then Some(Strip(v)) else None
  }

  const ValidStatuses: seq<string> := ["available", "unavailable", "unknown"]

  /** `availability_status_values`: exact, case-sensitive membership. */
  function AvailabilityStatusValues(v: string): (r: Option<string>)
    ensures r.Some? <==> v == "available" || v == "unavailable" || v == "unknown"
    ensures r.Some? ==> r.value == v
  {
    if v in ValidStatuses then Some(v) else None
  }

  /** One character of the regex class `[A-Za-z\s\d:]`. */
  predicate IsReferenceChar(c: char) {
    IsLetter(c) || IsSpace(c) || IsDigit(c) || c == ':'
  }

  /** A full match of `^[A-Za-z\s\d:]+$`. */
  predicate MatchesReferencePattern(v: string) {
    |v| > 0 && forall i :: 0 <= i < |v| ==> IsReferenceChar(v[i])
  }

  /**
   * `biblical_reference_format`: a missing or empty reference passes; any other
   * must match the pattern. The outer option is the verdict.
   */
  function BiblicalReferenceFormat(v: Option<string>): (r: Option<Option<string>>)
    ensures r.Some? <==> v.None? || v.value == "" || MatchesReferencePattern(v.value)
    ensures r.Some? ==> r.value == v
  {
    if v.Some? && v.value != "" && !MatchesReferencePattern(v.value) then None else Some(v)
  }

  // ------------------------------------------------------------------
  // Records
  // ------------------------------------------------------------------

  datatype Content = Content(title: string, subtitle: string, content: string)

  /** The `Content` fields in declaration order: the header of the cleaned file. */
  const ContentFields: seq<string> := ["Title", "Subtitle", "Content"]

  /**
   * `Content.parse_obj(row)`: accepted exactly when every field is present, the
   * title is not blank and is letters, digits and spaces, and the body is not
   * blank and has no white square; the title comes back stripped, the
   * subtitle and body unchanged.
   */
  function ParseContent(row: Row): (r: Option<Content>)
    ensures r.Some? <==>
      && "Title" in row && "Subtitle" in row && "Content" in row
      && (exists i :: 0 <= i < |row["Title"]| && !IsSpace(row["Title"][i]))
      && LettersDigitsAndSpaces(row["Title"])
      && (exists i :: 0 <= i < |row["Content"]| && !IsSpace(row["Content"][i]))
      && WhiteSquare !in row["Content"]
    ensures r.Some? ==> r.value == Content(Strip(row["Title"]), row["Subtitle"], row["Content"])
  {
    if "Title" !in row || "Subtitle" !in row || "Content" !in row then None
    else
      match (ValidateTitle(row["Title"]), ValidateContentText(row["Content"]))
      case (Some(title), Some(content)) => Some(Content(title, row["Subtitle"], content))
      case _ => None
  }

  /** `content.dict()` as `csv.DictWriter` writes it. */
  function ContentValues(c: Content): seq<string> {
    [c.title, c.subtitle, c.content]
  }

  datatype Metadata = Metadata(
    title: string,
    publisher: string,
    availabilityStatus: string,
    biblicalReference: Option<string>,
    appInfoDescription: string,
    abstractText: string)

  /** The `Metadata` fields in declaration order: the header of the cleaned file. */
  const MetadataFields: seq<string> :=
    ["Title", "Publisher", "AvailabilityStatus", "BiblicalReference", "AppInfoDescription", "Abstract"]

  /**
   * `Metadata.parse_obj(row)`: `BiblicalReference` may be absent, every other
   * field is required. Accepted exactly when the three text fields match their
   * pattern, the status is one of the three names, a present non-empty
   * reference matches its pattern and the abstract has no white square; the
   * three text fields come back stripped, the others unchanged.
   */
  function ParseMetadata(row: Row): (r: Option<Metadata>)
    ensures r.Some? <==>
      && "Title" in row && "Publisher" in row && "AvailabilityStatus" in row
      && "AppInfoDescription" in row && "Abstract" in row
      && MatchesTextPattern(row["Title"])
      && MatchesTextPattern(row["Publisher"])
      && (row["AvailabilityStatus"] == "available" || row["AvailabilityStatus"] == "unavailable"
          || row["AvailabilityStatus"] == "unknown")
      && ("BiblicalReference" in row && row["BiblicalReference"] != "" ==>
            MatchesReferencePattern(row["BiblicalReference"]))
      && MatchesTextPattern(row["AppInfoDescription"])
      && WhiteSquare !in row["Abstract"]
    ensures r.Some? ==>
      r.value == Metadata(
        Strip(row["Title"]), Strip(row["Publisher"]), row["AvailabilityStatus"],
        if "BiblicalReference" in row then Some(row["BiblicalReference"]) else None,
        Strip(row["AppInfoDescription"]), row["Abstract"])
  {
    if "Title" !in row || "Publisher" !in row || "AvailabilityStatus" !in row
       || "AppInfoDescription" !in row || "Abstract" !in row
    then None
    else
      var reference := if "BiblicalReference" in row then Some(row["BiblicalReference"]) else None;
      var title := AlphanumericAndNoTrailingSpaces(row["Title"]);
      var publisher := AlphanumericAndNoTrailingSpaces(row["Publisher"]);
      var status := AvailabilityStatusValues(row["AvailabilityStatus"]);
      var ref := BiblicalReferenceFormat(reference);
      var info := AlphanumericAndNoTrailingSpaces(row["AppInfoDescription"]);
      var abs := NoWhiteSquare(row["Abstract"]);
      if title.Some? && publisher.Some? && status.Some? && ref.Some? && info.Some? && abs.Some? then
        Some(Metadata(title.value, publisher.value, status.value, ref.value, info.value, abs.value))
      else None
  }

  /** `metadata.dict()` as `csv.DictWriter` writes it: a missing reference becomes an empty cell. */
  function MetadataValues(m: Metadata): seq<string> {
    [m.title, m.publisher, m.availabilityStatus,
     match m.biblicalReference case None => "" case Some(r) => r,
     m.appInfoDescription, m.abstractText]
  }

  // ------------------------------------------------------------------
  // What the field rules accept
  // ------------------------------------------------------------------

  /** Stripping a value of letters, digits and spaces leaves a non-empty value with an alphanumeric at each end. */
  lemma StrippedTitleShape(v: string)
    requires LettersDigitsAndSpaces(v)
    ensures var t := Strip(v);
      && |t| > 0 && IsAlnum(t[0]) && IsAlnum(t[|t| - 1])
      && forall i :: 0 <= i < |t| ==> IsAlnum(t[i]) || t[i] == ' '
  {
    var t := Strip(v);
    var j :| 0 <= j < |v| && IsAlnum(v[j]);
    assert !IsSpace(v[j]);
    forall i | 0 <= i < |t| ensures IsAlnum(t[i]) || t[i] == ' ' {
      var k :| 0 <= k < |v| && v[k] == t[i];
    }
  }

  /** An accepted title is non-empty, made of letters, digits and spaces, and has no space at either end. */
  lemma AcceptedTitleShape(row: Row)
    requires ParseContent(row).Some?
    ensures var t := ParseContent(row).value.title;
      && |t| > 0 && IsAlnum(t[0]) && IsAlnum(t[|t| - 1])
      && forall i :: 0 <= i < |t| ==> IsAlnum(t[i]) || t[i] == ' '
  {
    StrippedTitleShape(row["Title"]);
  }

  /** The records of the accepted rows, in row order. */
  function ValidRecords<T>(rows: seq<Row>, parse: Row -> Option<T>): seq<T>
    decreases |rows|
  {
    if |rows| == 0 then []
    else
      var init := ValidRecords(rows[..|rows| - 1], parse);
      match parse(rows[|rows| - 1])
      case Some(record) => init + [record]
      case None => init
  }

  /** The error entries of the rejected rows, in row order. */
  function ErrorRecords<T>(rows: seq<Row>, parse: Row -> Option<T>): seq<ErrorEntry>
    decreases |rows|
  {
    if |rows| == 0 then []
    else
      var init := ErrorRecords(rows[..|rows| - 1], parse);
      match parse(rows[|rows| - 1])
      case Some(_) => init
      case None => init + [ErrorEntry(rows[|rows| - 1])]
  }

  predicate StrictlyIncreasing(idx: seq<nat>) {
    forall a, b :: 0 <= a < b < |idx| ==> idx[a] < idx[b]
  }

  /** The positions of the accepted rows, in increasing order. */
  function AcceptedIndices<T>(rows: seq<Row>, parse: Row -> Option<T>): (idx: seq<nat>)
    ensures StrictlyIncreasing(idx)
    ensures forall k :: 0 <= k < |idx| ==> idx[k] < |rows|
    ensures forall i :: 0 <= i < |rows| ==> (i in idx <==> parse(rows[i]).Some?)
    decreases |rows|
  {
    if |rows| == 0 then []
    else
      var init := AcceptedIndices(rows[..|rows| - 1], parse);
      if parse(rows[|rows| - 1]).Some? then init + [|rows| - 1] else init
  }

  /** The positions of the rejected rows, in increasing order. */
  function RejectedIndices<T>(rows: seq<Row>, parse: Row -> Option<T>): (idx: seq<nat>)
    ensures StrictlyIncreasing(idx)
    ensures forall k :: 0 <= k < |idx| ==> idx[k] < |rows|
    ensures forall i :: 0 <= i < |rows| ==> (i in idx <==> parse(rows[i]).None?)
    decreases |rows|
  {
    if |rows| == 0 then []
    else
      var init := RejectedIndices(rows[..|rows| - 1], parse);
      if parse(rows[|rows| - 1]).None? then init + [|rows| - 1] else init
  }

  /** Every row lands in exactly one of the two lists, so the two lengths add up to the row count. */
  lemma {:induction false} PartitionCounts<T>(rows: seq<Row>, parse: Row -> Option<T>)
    ensures |AcceptedIndices(rows, parse)| + |RejectedIndices(rows, parse)| == |rows|
    ensures |ValidRecords(rows, parse)| == |AcceptedIndices(rows, parse)|
    ensures |ErrorRecords(rows, parse)| == |RejectedIndices(rows, parse)|
    ensures |ValidRecords(rows, parse)| + |ErrorRecords(rows, parse)| == |rows|
    decreases |rows|
  {
    if |rows| > 0 {
      PartitionCounts(rows[..|rows| - 1], parse);
    }
  }

  /** The k-th record is the parse of the k-th accepted row: the valid list keeps row order. */
  lemma {:induction false} ValidRecordsInOrder<T>(rows: seq<Row>, parse: Row -> Option<T>)
    ensures |ValidRecords(rows, parse)| == |AcceptedIndices(rows, parse)|
    ensures forall k :: 0 <= k < |AcceptedIndices(rows, parse)| ==>
      ValidRecords(rows, parse)[k] == parse(rows[AcceptedIndices(rows, parse)[k]]).value
    decreases |rows|
  {
    if |rows| > 0 {
      var init := rows[..|rows| - 1];
      ValidRecordsInOrder(init, parse);
      assert forall k :: 0 <= k < |init| ==> init[k] == rows[k];
    }
  }

  /** The k-th error entry holds the k-th rejected row: the error list keeps row order. */
  lemma {:induction false} ErrorRecordsInOrder<T>(rows: seq<Row>, parse: Row -> Option<T>)
    ensures |ErrorRecords(rows, parse)| == |RejectedIndices(rows, parse)|
    ensures forall k :: 0 <= k < |RejectedIndices(rows, parse)| ==>
      ErrorRecords(rows, parse)[k] == ErrorEntry(rows[RejectedIndices(rows, parse)[k]])
    decreases |rows|
  {
    if |rows| > 0 {
      var init := rows[..|rows| - 1];
      ErrorRecordsInOrder(init, parse);
      assert forall k :: 0 <= k < |init| ==> init[k] == rows[k];
    }
  }

  /** A list of rows that all pass is kept whole, with no error entry. */
  lemma {:induction false} AllAcceptedKept<T>(rows: seq<Row>, parse: Row -> Option<T>)
    requires forall i :: 0 <= i < |rows| ==> parse(rows[i]).Some?
    ensures |ValidRecords(rows, parse)| == |rows|
    ensures forall i :: 0 <= i < |rows| ==> ValidRecords(rows, parse)[i] == parse(rows[i]).value
    ensures ErrorRecords(rows, parse) == []
    decreases |rows|
  {
    if |rows| > 0 {
      AllAcceptedKept(rows[..|rows| - 1], parse);
    }
  }

  /** The lines of the cleaned file: the header, then one line per record, in order. */
  function CsvLines<T>(header: seq<string>, records: seq<T>, values: T -> seq<string>): (lines: seq<seq<string>>)
    ensures |lines| == |records| + 1 && lines[0] == header
    ensures forall i :: 0 <= i < |records| ==> lines[i + 1] == values(records[i])
    decreases |records|
  {
    if |records| == 0 then [header]
    else CsvLines(header, records[..|records| - 1], values) + [values(records[|records| - 1])]
  }

  /**
   * The lines after the header that hold at least one cell, in file order:
   * `csv.DictReader` skips a line with no cell.
   */
  function CellLines(lines: seq<seq<string>>): (r: seq<seq<string>>)
    ensures |r| <= |lines|
    ensures forall i :: 0 <= i < |r| ==> r[i] != []
    decreases |lines|
  {
    if |lines| == 0 then []
    else CellLines(lines[..|lines| - 1]) + (if lines[|lines| - 1] == [] then [] else [lines[|lines| - 1]])
  }

  /** Keeping the lines with a cell runs over two runs of lines in turn. */
  lemma {:induction false} CellLinesAppend(a: seq<seq<string>>, b: seq<seq<string>>)
    ensures CellLines(a + b) == CellLines(a) + CellLines(b)
    decreases |b|
  {
    if |b| == 0 {
      assert a + b == a;
    } else {
      var last := b[|b| - 1];
      var tail := if last == [] then [] else [last];
      assert (a + b)[..|a + b| - 1] == a + b[..|b| - 1];
      CellLinesAppend(a, b[..|b| - 1]);
      assert CellLines(a + b) == (CellLines(a) + CellLines(b[..|b| - 1])) + tail;
    }
  }

  /** Lines that all hold a cell are all kept, in order. */
  lemma {:induction false} CellLinesAllFull(lines: seq<seq<string>>)
    requires forall i :: 0 <= i < |lines| ==> lines[i] != []
    ensures CellLines(lines) == lines
    decreases |lines|
  {
    if |lines| > 0 {
      CellLinesAllFull(lines[..|lines| - 1]);
      assert lines[..|lines| - 1] + [lines[|lines| - 1]] == lines;
    }
  }

  /**
   * `csv.DictReader`'s row for one line: the header's names zipped with the
   * line's cells, after which every name the header gives past the line's end
   * is set to `restval`, `None`, which the model writes as an absent key. So a
   * name is a key exactly when all of its positions in the header are within
   * the line.
   */
  function LineRow(header: seq<string>, line: seq<string>): (r: Row)
    ensures forall k :: k in r <==>
      (exists j :: 0 <= j < |header| && header[j] == k)
      && (forall j :: 0 <= j < |header| && header[j] == k ==> j < |line|)
  {
    ZipDict(header, line) - (set j | |line| <= j < |header| :: header[j])
  }

  /** A name that is a key holds the cell at its last position in the header. */
  lemma LineRowValue(header: seq<string>, line: seq<string>, j: nat)
    requires j < |header| && j < |line|
    requires forall j' :: j < j' < |header| ==> header[j'] != header[j]
    ensures header[j] in LineRow(header, line) && LineRow(header, line)[header[j]] == line[j]
  {
    ZipDictLast(header, line, j);
  }

  /** A line with a cell for every name gives the plain zip of the two. */
  lemma LineRowFull(header: seq<string>, line: seq<string>)
    requires |header| <= |line|
    ensures LineRow(header, line) == ZipDict(header, line)
  {
    assert (set j | |line| <= j < |header| :: header[j]) == {};
  }

  /**
   * A name the header repeats past the end of a short line is unset, even
   * though an earlier position has a cell: under the header `Title,Title`
   * the line `x` gives a row without `Title`.
   */
  lemma RepeatedNameUnsetOnShortLine()
    ensures ReadCsv([["Title", "Title"], ["x"]]) == [map[]]
  {
    var lines := [["Title", "Title"], ["x"]];
    assert lines[1..] == [["x"]];
    assert CellLines([["x"]]) == [["x"]] by {
      assert [["x"]][..0] == [];
    }
    var r := LineRow(["Title", "Title"], ["x"]);
    assert "Title" !in r by {
      assert ["Title", "Title"][1] == "Title";
    }
    assert r == map[];
    ReadCsvRow(lines, 0);
  }

  /** One row per data line, each `DictReader`'s row for that line. */
  function HeaderRows(header: seq<string>, data: seq<seq<string>>): (r: seq<Row>)
    ensures |r| == |data|
    decreases |data|
  {
    if |data| == 0 then []
    else HeaderRows(header, data[..|data| - 1]) + [LineRow(header, data[|data| - 1])]
  }

  lemma {:induction false} HeaderRowsAt(header: seq<string>, data: seq<seq<string>>, i: nat)
    requires i < |data|
    ensures HeaderRows(header, data)[i] == LineRow(header, data[i])
    decreases |data|
  {
    if i + 1 < |data| {
      HeaderRowsAt(header, data[..|data| - 1], i);
    }
  }

  /**
   * `csv.DictReader` over a file's lines: the first line names the columns of
   * the others, and each later line that holds a cell gives one row, keyed by
   * the column names the line has a cell for.
   */
  function ReadCsv(lines: seq<seq<string>>): (r: seq<Row>)
    ensures |lines| == 0 ==> r == []
    ensures |lines| > 0 ==> |r| <= |lines| - 1
  {
    if |lines| == 0 then [] else HeaderRows(lines[0], CellLines(lines[1..]))
  }

  /**
   * A column name is a key of a row read back exactly when the header names it
   * and every position the header gives it has a cell on the row's line.
   */
  lemma ReadCsvKeys(lines: seq<seq<string>>, i: nat, k: string)
    requires i < |ReadCsv(lines)|
    ensures |lines| > 0 && i < |CellLines(lines[1..])|
    ensures k in ReadCsv(lines)[i] <==>
      (exists j :: 0 <= j < |lines[0]| && lines[0][j] == k)
      && (forall j :: 0 <= j < |lines[0]| && lines[0][j] == k ==> j < |CellLines(lines[1..])[i]|)
  {
    ReadCsvRow(lines, i);
  }

  /**
   * One more line after the header adds one row, pairing the header with its
   * cells, when the line holds a cell, and nothing when it does not.
   */
  lemma ReadCsvNextLine(lines: seq<seq<string>>, line: seq<string>)
    requires |lines| > 0
    ensures ReadCsv(lines + [line]) == ReadCsv(lines) + (if line == [] then [] else [LineRow(lines[0], line)])
  {
    var all := lines + [line];
    assert all[0] == lines[0];
    assert all[1..] == lines[1..] + [line];
    CellLinesAppend(lines[1..], [line]);
    assert CellLines([line]) == (if line == [] then [] else [line]) by {
      assert [line][..0] == [];
    }
    var data := CellLines(lines[1..]);
    if line != [] {
      assert (data + [line])[..|data|] == data;
    } else {
      assert data + [] == data;
    }
  }

  /** The loop over the reader: each row goes to the valid list or, with its error, to the error list. */
  method SplitRows<T>(rows: seq<Row>, parse: Row -> Option<T>) returns (valid: seq<T>, errors: seq<ErrorEntry>)
    ensures valid == ValidRecords(rows, parse)
    ensures errors == ErrorRecords(rows, parse)
  {
    valid, errors := [], [];
    var i := 0;
    while i < |rows|
      invariant 0 <= i <= |rows|
      invariant valid == ValidRecords(rows[..i], parse)
      invariant errors == ErrorRecords(rows[..i], parse)
    {
      assert rows[..i + 1][..i] == rows[..i];
      match parse(rows[i]) {
        case Some(record) => valid := valid + [record];
        case None => errors := errors + [ErrorEntry(rows[i])];
      }
      i := i + 1;
    }
    assert rows[..|rows|] == rows;
  }

  /** The write step: the header, then `writerow` for each record, into a file opened for overwrite. */
  method WriteRows<T>(header: seq<string>, records: seq<T>, values: T -> seq<string>) returns (lines: seq<seq<string>>)
    ensures lines == CsvLines(header, records, values)
  {
    lines := [header];
    var i := 0;
    while i < |records|
      invariant 0 <= i <= |records|
      invariant lines == CsvLines(header, records[..i], values)
    {
      assert records[..i + 1][..i] == records[..i];
      lines := lines + [values(records[i])];
      i := i + 1;
    }
    assert records[..|records|] == records;
  }

  /**
   * `ContentValidator.clean_and_validate_content_csv`: the pair of the valid
   * records and the error entries, and the new contents of the output file.
   */
  method CleanAndValidateContentCsv(rows: seq<Row>)
    returns (valid: seq<Content>, errors: seq<ErrorEntry>, written: seq<seq<string>>)
    ensures valid == ValidRecords(rows, ParseContent)
    ensures errors == ErrorRecords(rows, ParseContent)
    ensures written == CsvLines(ContentFields, valid, ContentValues)
  {
    valid, errors := SplitRows(rows, ParseContent);
    written := WriteRows(ContentFields, valid, ContentValues);
  }

  /**
   * `MetadataValidator.clean_and_validate_metadata_csv`: the pair of the valid
   * records and the error entries, and the new contents of the output file.
   */
  method CleanAndValidateMetadataCsv(rows: seq<Row>)
    returns (valid: seq<Metadata>, errors: seq<ErrorEntry>, written: seq<seq<string>>)
    ensures valid == ValidRecords(rows, ParseMetadata)
    ensures errors == ErrorRecords(rows, ParseMetadata)
    ensures written == CsvLines(MetadataFields, valid, MetadataValues)
  {
    valid, errors := SplitRows(rows, ParseMetadata);
    written := WriteRows(MetadataFields, valid, MetadataValues);
  }

  // ------------------------------------------------------------------
  // Re-reading the cleaned file
  // ------------------------------------------------------------------

  /** The row `csv.DictReader` reads back from a written `Content` line. */
  lemma ContentLineReadBack(c: Content)
    ensures var r := ZipDict(ContentFields, ContentValues(c));
      && "Title" in r && "Subtitle" in r && "Content" in r
      && r["Title"] == c.title && r["Subtitle"] == c.subtitle && r["Content"] == c.content
  {
    ZipDictDistinct(ContentFields, ContentValues(c));
  }

  /** An accepted `Content`, written out and read back, is accepted again as the same record. */
  lemma ContentRoundTrip(row: Row)
    requires ParseContent(row).Some?
    ensures ParseContent(ZipDict(ContentFields, ContentValues(ParseContent(row).value))) == ParseContent(row)
  {
    var c := ParseContent(row).value;
    var r := ZipDict(ContentFields, ContentValues(c));
    ContentLineReadBack(c);
    AcceptedTitleShape(row);
    assert LettersDigitsAndSpaces(c.title) by {
      assert IsAlnum(c.title[0]);
    }
    assert !IsSpace(c.title[0]);
    StripIdempotent(row["Title"]);
  }

  /** Rows that each parse to the matching record give exactly those records and no error. */
  lemma AllParsedKept<T>(rows: seq<Row>, parse: Row -> Option<T>, records: seq<T>)
    requires |rows| == |records|
    requires forall i :: 0 <= i < |rows| ==> parse(rows[i]) == Some(records[i])
    ensures ValidRecords(rows, parse) == records && ErrorRecords(rows, parse) == []
  {
    AllAcceptedKept(rows, parse);
  }

  /** The k-th record comes from an accepted row that parses to it. */
  lemma ValidRecordAt<T>(rows: seq<Row>, parse: Row -> Option<T>, k: nat)
    requires k < |ValidRecords(rows, parse)|
    ensures var acc := AcceptedIndices(rows, parse);
      k < |acc| && acc[k] < |rows| && parse(rows[acc[k]]) == Some(ValidRecords(rows, parse)[k])
  {
    ValidRecordsInOrder(rows, parse);
    var acc := AcceptedIndices(rows, parse);
    assert acc[k] in acc;
  }

  /** The i-th row read back pairs the header with the i-th line after it that holds a cell. */
  lemma ReadCsvRow(lines: seq<seq<string>>, i: nat)
    requires |lines| > 0 && i < |CellLines(lines[1..])|
    ensures i < |ReadCsv(lines)| && ReadCsv(lines)[i] == LineRow(lines[0], CellLines(lines[1..])[i])
  {
    HeaderRowsAt(lines[0], CellLines(lines[1..]), i);
  }

  /** Each line of the cleaned file, read back, parses to the record written on it. */
  lemma RereadParses<T>(rows: seq<Row>, parse: Row -> Option<T>, header: seq<string>, values: T -> seq<string>)
    requires |header| > 0 && forall v :: |values(v)| == |header|
    requires forall row {:trigger values(parse(row).value)} :: parse(row).Some? ==> parse(ZipDict(header, values(parse(row).value))) == parse(row)
    ensures var valid := ValidRecords(rows, parse);
      var reread := ReadCsv(CsvLines(header, valid, values));
      |reread| == |valid| && forall i :: 0 <= i < |reread| ==> parse(reread[i]) == Some(valid[i])
  {
    var valid := ValidRecords(rows, parse);
    var lines := CsvLines(header, valid, values);
    var reread := ReadCsv(lines);
    assert CellLines(lines[1..]) == lines[1..] by {
      forall k | 0 <= k < |lines[1..]| ensures lines[1..][k] != [] {
        assert lines[1..][k] == values(valid[k]);
      }
      CellLinesAllFull(lines[1..]);
    }
    forall i | 0 <= i < |reread| ensures parse(reread[i]) == Some(valid[i]) {
      var row := rows[AcceptedIndices(rows, parse)[i]] by {
        ValidRecordAt(rows, parse, i);
      }
      assert parse(row) == Some(valid[i]) by {
        ValidRecordAt(rows, parse, i);
      }
      assert reread[i] == ZipDict(header, values(valid[i])) by {
        ReadCsvRow(lines, i);
        LineRowFull(header, values(valid[i]));
      }
    }
  }

  /**
   * When every record is written as a line with one cell per column, and every
   * accepted row's record, written out and read back, parses to itself,
   * cleaning a cleaned file again keeps every record and reports no error.
   */
  lemma RecleanKeepsRecords<T>(rows: seq<Row>, parse: Row -> Option<T>, header: seq<string>, values: T -> seq<string>)
    requires |header| > 0 && forall v :: |values(v)| == |header|
    requires forall row {:trigger values(parse(row).value)} :: parse(row).Some? ==> parse(ZipDict(header, values(parse(row).value))) == parse(row)
    ensures var valid := ValidRecords(rows, parse);
      var reread := ReadCsv(CsvLines(header, valid, values));
      ValidRecords(reread, parse) == valid && ErrorRecords(reread, parse) == []
  {
    var valid := ValidRecords(rows, parse);
    RereadParses(rows, parse, header, values);
    AllParsedKept(ReadCsv(CsvLines(header, valid, values)), parse, valid);
  }

  /** Cleaning the cleaned `Content` file again keeps every record and reports no error. */
  lemma CleanedContentRevalidates(rows: seq<Row>)
    ensures var valid := ValidRecords(rows, ParseContent);
      var reread := ReadCsv(CsvLines(ContentFields, valid, ContentValues));
      ValidRecords(reread, ParseContent) == valid && ErrorRecords(reread, ParseContent) == []
  {
    forall row | ParseContent(row).Some?
      ensures ParseContent(ZipDict(ContentFields, ContentValues(ParseContent(row).value))) == ParseContent(row)
    {
      ContentRoundTrip(row);
    }
    RecleanKeepsRecords(rows, ParseContent, ContentFields, ContentValues);
  }

  /** The row `csv.DictReader` reads back from a written `Metadata` line. */
  lemma MetadataLineReadBack(m: Metadata)
    ensures var r := ZipDict(MetadataFields, MetadataValues(m));
      && "Title" in r && "Publisher" in r && "AvailabilityStatus" in r && "BiblicalReference" in r
      && "AppInfoDescription" in r && "Abstract" in r
      && r["Title"] == m.title && r["Publisher"] == m.publisher
      && r["AvailabilityStatus"] == m.availabilityStatus
      && r["BiblicalReference"] == MetadataValues(m)[3]
      && r["AppInfoDescription"] == m.appInfoDescription && r["Abstract"] == m.abstractText
  {
    var vals := MetadataValues(m);
    ZipDictDistinct(MetadataFields, vals);
    var r := ZipDict(MetadataFields, vals);
    assert MetadataFields[0] in r && r[MetadataFields[0]] == vals[0];
    assert MetadataFields[1] in r && r[MetadataFields[1]] == vals[1];
    assert MetadataFields[2] in r && r[MetadataFields[2]] == vals[2];
    assert MetadataFields[3] in r && r[MetadataFields[3]] == vals[3];
    assert MetadataFields[4] in r && r[MetadataFields[4]] == vals[4];
    assert MetadataFields[5] in r && r[MetadataFields[5]] == vals[5];
  }

  /** A stripped value that matched the text pattern and is not empty still matches it, and strips to itself. */
  lemma StrippedTextField(v: string)
    requires MatchesTextPattern(v) && Strip(v) != ""
    ensures MatchesTextPattern(Strip(v)) && Strip(Strip(v)) == Strip(v)
  {
    StripIdempotent(v);
    var t := Strip(v);
    forall i | 0 <= i < |t| ensures IsTextChar(t[i]) {
      var j :| 0 <= j < |v| && v[j] == t[i];
    }
  }

  /**
   * An accepted `Metadata` whose three text fields are not all whitespace,
   * written out and read back, is accepted again; only a missing reference
   * comes back as an empty one, so the written line is the same.
   */
  lemma MetadataRoundTrip(row: Row)
    requires ParseMetadata(row).Some?
    requires var m := ParseMetadata(row).value; m.title != "" && m.publisher != "" && m.appInfoDescription != ""
    ensures var m := ParseMetadata(row).value;
      ParseMetadata(ZipDict(MetadataFields, MetadataValues(m)))
        == Some(m.(biblicalReference := Some(MetadataValues(m)[3])))
  {
    var m := ParseMetadata(row).value;
    MetadataLineReadBack(m);
    StrippedTextField(row["Title"]);
    StrippedTextField(row["Publisher"]);
    StrippedTextField(row["AppInfoDescription"]);
  }

  /** A written `Metadata` line whose title cell is empty is rejected when read back. */
  lemma EmptyTitleLineRejected(m: Metadata)
    requires m.title == ""
    ensures ParseMetadata(ZipDict(MetadataFields, MetadataValues(m))).None?
  {
    MetadataLineReadBack(m);
  }

  /** A whitespace-only `Metadata` title passes, is written as an empty cell, and that cell fails on re-reading. */
  lemma BlankMetadataTitleNotIdempotent(row: Row)
    requires row == map["Title" := " ", "Publisher" := "P", "AvailabilityStatus" := "unknown",
                        "AppInfoDescription" := "A", "Abstract" := ""]
    ensures ParseMetadata(row) == Some(Metadata("", "P", "unknown", None, "A", ""))
    ensures ParseMetadata(ZipDict(MetadataFields, MetadataValues(ParseMetadata(row).value))).None?
  {
    StripNoEdgeSpace("P");
    StripNoEdgeSpace("A");
    assert AllSpace(" ");
    assert row["Title"] == " " && row["Publisher"] == "P" && row["AppInfoDescription"] == "A";
    assert row["AvailabilityStatus"] == "unknown" && row["Abstract"] == "";
    assert "BiblicalReference" !in row;
    assert MatchesTextPattern(" ") && MatchesTextPattern("P") && MatchesTextPattern("A");
    EmptyTitleLineRejected(Metadata("", "P", "unknown", None, "A", ""));
  }
}
