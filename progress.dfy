/**
 * The results store (app.py lines 22-35, 78-88, 116-121, 153-158, 384-416):
 * an append-only tab-separated file of annotation records, read back in full
 * at the start of every run, and the progress queries over those records.
 */
module Progress {
  import opened Wrappers
  import opened Validation

  /** Field delimiter of the results file, on write and on read. */
  const DELIMITER: char := '\t'

  /** The results file's columns, in order (app.py lines 22-35). */
  const COLUMNS: seq<string> := [
    "doc_id", "annotator",
    "Key Information CC", "Key Information DS",
    "Medical Entities Completeness", "Structure - Headers", "Structure - Content",
    "Content Accuracy", "Made-up Content", "Coherence", "Overall Quality",
    "Feedback"]

  /** One submitted annotation. */
  datatype Record = Record(docId: string, annotator: string, answers: Answers, feedback: string)

  /** One cell of a row: free text, a multi-select answer, or a single-choice answer. */
  datatype Field = Text(text: string) | Labels(labels: seq<string>) | Pick(choice: Choice)

  /** The row written for a record, one cell per column of COLUMNS. */
  function Row(r: Record): (row: seq<Field>)
    ensures |row| == |COLUMNS|
    ensures row[0] == Text(r.docId) && row[1] == Text(r.annotator)
    ensures row[|COLUMNS| - 1] == Text(r.feedback)
  {
    var a := r.answers;
    [Text(r.docId), Text(r.annotator), Labels(a.q1), Labels(a.q2),
     Pick(a.q3), Pick(a.q4), Pick(a.q5), Pick(a.q6), Pick(a.q7), Pick(a.q8), Pick(a.q9),
     Text(r.feedback)]
  }

  /** Reading a row back (the columns are taken by position). */
  function ParseRow(row: seq<Field>): Option<Record>
  {
    if |row| == |COLUMNS| && row[0].Text? && row[1].Text? && row[2].Labels? && row[3].Labels?
       && row[4].Pick? && row[5].Pick? && row[6].Pick? && row[7].Pick? && row[8].Pick?
       && row[9].Pick? && row[10].Pick? && row[11].Text?
    then Some(Record(row[0].text, row[1].text,
                     Answers(row[2].labels, row[3].labels,
                             row[4].choice, row[5].choice, row[6].choice, row[7].choice,
                             row[8].choice, row[9].choice, row[10].choice),
                     row[11].text))
    else None
  }

  /** What is written is read back unchanged. */
  lemma RowRoundTrip(r: Record)
    ensures ParseRow(Row(r)) == Some(r)
  {
  }

  /** A line of the results file: the header, held as its column names, or one data row. */
  datatype Line = HeaderLine(names: seq<string>) | DataLine(row: seq<Field>)

  /** The header line as text: the column names joined by the delimiter. */
  function Join(cells: seq<string>, sep: char): string
  {
    if cells == [] then [] else if |cells| == 1 then cells[0] else cells[0] + [sep] + Join(cells[1..], sep)
  }

  /** Splitting a line at every occurrence of the delimiter. */
  function Split(s: string, sep: char): (r: seq<string>)
    ensures |r| >= 1
  {
    if s == [] then [[]]
    else
      var rest := Split(s[1..], sep);
      if s[0] == sep then [[]] + rest else [[s[0]] + rest[0]] + rest[1..]
  }

  lemma {:induction false} SplitAfterCell(cell: string, rest: string, sep: char)
    requires sep !in cell
    ensures Split(cell + [sep] + rest, sep) == [cell] + Split(rest, sep)
  {
    if cell != [] {
      assert (cell + [sep] + rest)[1..] == cell[1..] + [sep] + rest;
      SplitAfterCell(cell[1..], rest, sep);
      assert [cell[0]] + cell[1..] == cell;
    }
  }

  lemma {:induction false} SplitSingleCell(cell: string, sep: char)
    requires sep !in cell
    ensures Split(cell, sep) == [cell]
  {
    if cell != [] {
      SplitSingleCell(cell[1..], sep);
      assert [cell[0]] + cell[1..] == cell;
    }
  }

  /** Cells that hold no delimiter are recovered by splitting their join. */
  lemma {:induction false} SplitJoin(cells: seq<string>, sep: char)
    requires cells != []
    requires forall k :: 0 <= k < |cells| ==> sep !in cells[k]
    ensures Split(Join(cells, sep), sep) == cells
  {
    if |cells| == 1 {
      SplitSingleCell(cells[0], sep);
    } else {
      SplitJoin(cells[1..], sep);
      SplitAfterCell(cells[0], Join(cells[1..], sep), sep);
      assert [cells[0]] + cells[1..] == cells;
    }
  }

  /**
   * The header written with `sep="\t"` is read back as the same names with
   * `delimiter="\t"`, which is why a header line is held by its names.
   */
  lemma HeaderRoundTrip()
    ensures Split(Join(HEADER.names, DELIMITER), DELIMITER) == HEADER.names
  {
    ColumnsHoldNoDelimiter();
    SplitJoin(COLUMNS, DELIMITER);
  }

  lemma ColumnsHoldNoDelimiter()
    ensures forall k :: 0 <= k < |COLUMNS| ==> DELIMITER !in COLUMNS[k]
  {
    forall k | 0 <= k < |COLUMNS| ensures DELIMITER !in COLUMNS[k] {
      var c := COLUMNS[k];
      forall i | 0 <= i < |c| ensures c[i] != DELIMITER {
        assert c[i] in c;
      }
    }
  }

  /** The header line `to_csv(header=True)` writes. */
  const HEADER: Line := HeaderLine(COLUMNS)

  /** The records held by the data lines, in file order. */
  function DataRecords(lines: seq<Line>): seq<Record>
  {
    if lines == [] then []
    else
      DataRecords(lines[..|lines| - 1])
      + match lines[|lines| - 1]
        case HeaderLine(_) => []
        case DataLine(row) => (match ParseRow(row) case Some(r) => [r] case None => [])
  }

  /** An appended header line adds no record; an appended row adds the record it holds. */
  lemma DataRecordsAfterAppend(lines: seq<Line>, header: bool, row: seq<Field>)
    ensures DataRecords(lines + (if header then [HEADER] else []) + [DataLine(row)])
         == DataRecords(lines) + (match ParseRow(row) case Some(r) => [r] case None => [])
  {
    var mid := lines + (if header then [HEADER] else []);
    assert (mid + [DataLine(row)])[..|mid|] == mid;
    if header {
      assert mid[..|lines|] == lines;
    } else {
      assert mid == lines;
    }
  }

  /**
   * The cell texts `read_csv` turns into a missing value by default, even in
   * a column read with `dtype=str`.
   */
  const PANDAS_NA: set<string> := {
    "", "#N/A", "#N/A N/A", "#NA", "-1.#IND", "-1.#QNAN", "-NaN", "-nan",
    "1.#IND", "1.#QNAN", "<NA>", "N/A", "NA", "NULL", "NaN", "None", "n/a", "nan", "null"}

  /** The doc id cell as app.py line 85 loads it: missing when it is one of those texts. */
  function LoadedDocId(cell: string): Option<string>
  {
    if cell in PANDAS_NA then None else Some(cell)
  }

  /**
   * The status and duplicate queries on the loaded frame: a missing doc id
   * equals no identifier.
   */
  predicate AnnotatedAsLoaded(records: seq<Record>, docId: string, annotator: string)
  {
    exists i :: 0 <= i < |records| && LoadedDocId(records[i].docId) == Some(docId) && records[i].annotator == annotator
  }

  /** On the loaded frame, an identifier in the NA set is never annotated; any other reads as stored. */
  lemma AnnotatedAsLoadedIff(records: seq<Record>, docId: string, annotator: string)
    ensures AnnotatedAsLoaded(records, docId, annotator) <==> docId !in PANDAS_NA && Annotated(records, docId, annotator)
  {
    if docId !in PANDAS_NA && Annotated(records, docId, annotator) {
      var i :| 0 <= i < |records| && records[i].docId == docId && records[i].annotator == annotator;
      assert LoadedDocId(records[i].docId) == Some(docId);
    }
  }

  /** Number of records by `annotator` (app.py lines 118-121). */
  function Count(records: seq<Record>, annotator: string): (n: nat)
    ensures n <= |records|
  {
    if records == [] then 0
    else (if records[0].annotator == annotator then 1 else 0) + Count(records[1..], annotator)
  }

  /** Whether `annotator` has annotated document `docId` (app.py lines 155-158). */
  predicate Annotated(records: seq<Record>, docId: string, annotator: string)
  {
    exists i :: 0 <= i < |records| && records[i].docId == docId && records[i].annotator == annotator
  }

  /** The distinct (doc_id, annotator) pairs present (app.py line 384). */
  function ExistingPairs(records: seq<Record>): set<(string, string)>
  {
    set i | 0 <= i < |records| :: (records[i].docId, records[i].annotator)
  }

  /** The duplicate guard's membership test is the status query. */
  lemma ExistingPairsAreAnnotated(records: seq<Record>, docId: string, annotator: string)
    ensures (docId, annotator) in ExistingPairs(records) <==> Annotated(records, docId, annotator)
  {
    if (docId, annotator) in ExistingPairs(records) {
      var i :| 0 <= i < |records| && (records[i].docId, records[i].annotator) == (docId, annotator);
    }
  }

  /** At most one record per (doc_id, annotator) pair. */
  predicate UniquePairs(records: seq<Record>)
  {
    forall i, j :: 0 <= i < j < |records| ==>
      records[i].docId != records[j].docId || records[i].annotator != records[j].annotator
  }

  /** Appending one record raises only that record's annotator's count, by one. */
  lemma {:induction false} CountAppend(records: seq<Record>, r: Record, annotator: string)
    ensures Count(records + [r], annotator)
         == Count(records, annotator) + (if r.annotator == annotator then 1 else 0)
  {
    if records != [] {
      assert (records + [r])[1..] == records[1..] + [r];
      CountAppend(records[1..], r, annotator);
    }
  }

  /** Some record is by `annotator` exactly when the count is positive. */
  lemma {:induction false} CountPositiveIff(records: seq<Record>, annotator: string)
    ensures Count(records, annotator) > 0 <==> exists i :: 0 <= i < |records| && records[i].annotator == annotator
  {
    if records != [] {
      CountPositiveIff(records[1..], annotator);
      if Count(records[1..], annotator) > 0 {
        var i :| 0 <= i < |records[1..]| && records[1..][i].annotator == annotator;
        assert records[i + 1].annotator == annotator;
      }
      if exists i :: 0 <= i < |records| && records[i].annotator == annotator {
        var i :| 0 <= i < |records| && records[i].annotator == annotator;
        if i > 0 { assert records[1..][i - 1].annotator == annotator; }
      }
    }
  }

  /** After appending `r`, exactly `r`'s pair becomes annotated and no other pair changes. */
  lemma AnnotatedAppend(records: seq<Record>, r: Record, docId: string, annotator: string)
    ensures Annotated(records + [r], docId, annotator)
        <==> Annotated(records, docId, annotator) || (r.docId == docId && r.annotator == annotator)
  {
    var s := records + [r];
    if Annotated(s, docId, annotator) {
      var i :| 0 <= i < |s| && s[i].docId == docId && s[i].annotator == annotator;
      if i < |records| { assert records[i] == s[i]; }
    }
    if Annotated(records, docId, annotator) {
      var i :| 0 <= i < |records| && records[i].docId == docId && records[i].annotator == annotator;
      assert s[i] == records[i];
    }
    if r.docId == docId && r.annotator == annotator {
      assert s[|records|] == r;
    }
  }

  /** Appending a record whose pair is not yet present keeps the pairs unique. */
  lemma UniqueAppend(records: seq<Record>, r: Record)
    requires UniquePairs(records)
    ensures UniquePairs(records + [r]) <==> !Annotated(records, r.docId, r.annotator)
  {
    var s := records + [r];
    if !Annotated(records, r.docId, r.annotator) {
      forall i, j | 0 <= i < j < |s| ensures s[i].docId != s[j].docId || s[i].annotator != s[j].annotator {
        if j == |records| {
          assert s[i] == records[i];
        } else {
          assert s[i] == records[i] && s[j] == records[j];
        }
      }
    } else {
      var i :| 0 <= i < |records| && records[i].docId == r.docId && records[i].annotator == r.annotator;
      assert s[i] == records[i] && s[|records|] == r;
    }
  }

  /** The progress panel: one count per known annotator, 0 when there are no records. */
  method ProgressCounts(records: seq<Record>) returns (counts: seq<nat>)
    ensures |counts| == |ANNOTATORS|
    ensures forall k :: 0 <= k < |ANNOTATORS| ==> counts[k] == Count(records, ANNOTATORS[k])
  {
    counts := [];
    var k := 0;
    while k < |ANNOTATORS|
      invariant 0 <= k <= |ANNOTATORS|
      invariant |counts| == k
      invariant forall m :: 0 <= m < k ==> counts[m] == Count(records, ANNOTATORS[m])
    {
      var reviewed: nat;
      if records != [] {
        reviewed := Count(records, ANNOTATORS[k]);
      } else {
        reviewed := 0;
      }
      counts := counts + [reviewed];
      k := k + 1;
    }
  }

  /** The status panel for one document: per known annotator, annotated or pending. */
  method DocumentStatus(records: seq<Record>, docId: string) returns (annotated: seq<bool>)
    ensures |annotated| == |ANNOTATORS|
    ensures forall k :: 0 <= k < |ANNOTATORS| ==> annotated[k] == Annotated(records, docId, ANNOTATORS[k])
  {
    annotated := [];
    var k := 0;
    while k < |ANNOTATORS|
      invariant 0 <= k <= |ANNOTATORS|
      invariant |annotated| == k
      invariant forall m :: 0 <= m < k ==> annotated[m] == Annotated(records, docId, ANNOTATORS[m])
    {
      annotated := annotated + [Annotated(records, docId, ANNOTATORS[k])];
      k := k + 1;
    }
  }

  /**
   * The file layout: absent and empty, or the header line, then parseable
   * data rows.
   */
  predicate WellFormed(present: bool, lines: seq<Line>)
  {
    if present then
      && |lines| >= 1 && lines[0] == HEADER
      && forall i :: 1 <= i < |lines| ==> lines[i].DataLine? && ParseRow(lines[i].row).Some?
    else lines == []
  }

  /** A row appended to an existing file keeps the layout. */
  lemma LaterAppendWellFormed(lines: seq<Line>, row: seq<Field>)
    requires WellFormed(true, lines) && ParseRow(row).Some?
    ensures WellFormed(true, lines + [DataLine(row)])
  {
    var after := lines + [DataLine(row)];
    assert after[0] == lines[0];
    forall i | 1 <= i < |after| ensures after[i].DataLine? && ParseRow(after[i].row).Some? {
      if i < |lines| { assert after[i] == lines[i]; }
    }
  }

  /**
   * The results file: absent before the first submission, then a header line
   * followed by data lines, one per accepted submission.
   */
  class ResultsFile {
    var present: bool
    var lines: seq<Line>

    /** The layout every write of the submit handler keeps. */
    predicate Valid()
      reads this
    {
      WellFormed(present, lines)
    }

    /** load_progress: the file's records, or none when the file is absent. */
    function Records(): seq<Record>
      reads this
    {
      if present then DataRecords(lines) else []
    }

    /** The first run: no results file yet. */
    constructor Absent()
      ensures Valid() && !present && lines == [] && Records() == []
    {
      present := false;
      lines := [];
    }

    /** `to_csv(mode="a", header=header)`: the header line only when asked, then the row. */
    method Append(row: seq<Field>, header: bool)
      modifies this
      ensures present
      ensures lines == old(lines) + (if header then [HEADER] else []) + [DataLine(row)]
      ensures old(Valid()) && header == !old(present) && ParseRow(row).Some? ==> Valid()
      ensures old(Valid()) && header == !old(present) && ParseRow(row).Some? ==>
        Records() == old(Records()) + [ParseRow(row).value]
    {
      ghost var before := lines;
      lines := lines + (if header then [HEADER] else []) + [DataLine(row)];
      present := true;
      if old(Valid()) && header == !old(present) && ParseRow(row).Some? {
        if !header {
          LaterAppendWellFormed(before, row);
        }
      }
      DataRecordsAfterAppend(before, header, row);
    }
  }
}
