/**
 * Record extraction: the access-log text becomes rows of fields and every row
 * with at least three fields becomes one record of its first three columns.
 */
module LogRecords {
  import opened Text

  /** One access-log entry: the requested path, the raw timestamp text and the
      raw user-agent field. Further columns of the row are not kept. */
  datatype LogRecord = LogRecord(path: string, timestamp: string, browserField: string)

  type Row = seq<string>

  /** The reader's default limit on the length of one field (`csv.field_size_limit()`). */
  const FieldLimit: nat := 131072

  /** A row the reader refuses with an error: one of its fields is longer than the limit. */
  predicate Oversized(row: Row)
  {
    exists j :: 0 <= j < |row| && |row[j]| > FieldLimit
  }

  /** The rows of the text: one per line, each line cut at its commas. */
  function RowsOf(content: string): (rows: seq<Row>)
    ensures |rows| == |Split(content, '\n')|
    ensures forall i :: 0 <= i < |rows| ==> Join(rows[i], ',') == Split(content, '\n')[i]
    ensures forall i, j :: 0 <= i < |rows| && 0 <= j < |rows[i]| ==> ',' !in rows[i][j]
  {
    var lines := Split(content, '\n');
    assert forall i :: 0 <= i < |lines| ==> Join(Split(lines[i], ','), ',') == lines[i] by {
      forall i | 0 <= i < |lines| { JoinSplit(lines[i], ','); }
    }
    seq(|lines|, i requires 0 <= i < |lines| => Split(lines[i], ','))
  }

  /** The record made from columns 0, 1 and 2 of a row. */
  function ToRecord(row: Row): LogRecord
    requires |row| >= 3
  {
    LogRecord(row[0], row[1], row[2])
  }

  /** The records of rows that the reader gets through: one per row of three or
      more fields, in row order. */
  function Kept(rows: seq<Row>): seq<LogRecord>
  {
    if rows == [] then []
    else
      var row := rows[|rows| - 1];
      Kept(rows[..|rows| - 1]) + (if |row| >= 3 then [ToRecord(row)] else [])
  }

  /** The number of rows with at least three fields. */
  function WideRows(rows: seq<Row>): nat
  {
    if rows == [] then 0
    else WideRows(rows[..|rows| - 1]) + (if |rows[|rows| - 1]| >= 3 then 1 else 0)
  }

  /** How many rows the reader gets through before the first oversized row. */
  function FirstOversized(rows: seq<Row>): (n: nat)
    ensures n <= |rows|
    ensures forall j :: 0 <= j < n ==> !Oversized(rows[j])
    ensures n < |rows| ==> Oversized(rows[n])
  {
    if rows == [] || Oversized(rows[0]) then 0 else 1 + FirstOversized(rows[1..])
  }

  /** What parsing yields: the records collected, and whether the reader failed. */
  datatype Parsed = Parsed(records: seq<LogRecord>, failed: bool)

  /** Parsing as a whole: empty text gives no records; otherwise the records of the
      rows before the first oversized row, which ends the parse with a failure. */
  function ParseContent(content: string): (r: Parsed)
    ensures content == [] ==> r == Parsed([], false)
    ensures content != [] ==>
              (r.failed <==> exists i :: 0 <= i < |RowsOf(content)| && Oversized(RowsOf(content)[i]))
    ensures |r.records| <= |RowsOf(content)|
  {
    if content == [] then Parsed([], false)
    else
      var rows := RowsOf(content);
      var n := FirstOversized(rows);
      KeptCount(rows[..n]);
      Parsed(Kept(rows[..n]), n < |rows|)
  }

  /** The parse loop: appends one record per wide row, skips short rows, and on a
      reader error stops, keeping what it has collected. */
  method ProcessData(content: string) returns (data: seq<LogRecord>, failed: bool)
    ensures content == [] ==> data == [] && !failed
    ensures content != [] ==>
              (failed <==> exists i :: 0 <= i < |RowsOf(content)| && Oversized(RowsOf(content)[i]))
    ensures Parsed(data, failed) == ParseContent(content)
  {
    if content == [] {
      return [], false;
    }
    var rows := RowsOf(content);
    data, failed := [], false;
    var i := 0;
    while i < |rows|
      invariant 0 <= i <= |rows|
      invariant forall j :: 0 <= j < i ==> !Oversized(rows[j])
      invariant data == Kept(rows[..i])
    {
      if Oversized(rows[i]) {
        failed := true;
        break;
      }
      if |rows[i]| >= 3 {
        data := data + [ToRecord(rows[i])];
      }
      assert rows[..i + 1][..i] == rows[..i];
      i := i + 1;
    }
    assert failed ==> FirstOversized(rows) == i;
    assert !failed ==> FirstOversized(rows) == |rows| && rows[..i] == rows;
  }

  // ---------------------------------------------------------------------------
  // Properties of record extraction

  /** A single row yields its projection when it has three or more fields, and nothing otherwise. */
  lemma KeptSingle(row: Row)
    ensures |row| >= 3 ==> Kept([row]) == [LogRecord(row[0], row[1], row[2])]
    ensures |row| < 3 ==> Kept([row]) == []
  {
    assert [row][..0] == [];
  }

  /** Extraction works row by row, in order: the records of two runs of rows are the
      records of the first followed by those of the second. */
  lemma {:induction false} KeptAppend(a: seq<Row>, b: seq<Row>)
    ensures Kept(a + b) == Kept(a) + Kept(b)
  {
    if b == [] {
      assert a + b == a;
    } else {
      var b', last := b[..|b| - 1], b[|b| - 1];
      assert (a + b)[..|a + b| - 1] == a + b';
      KeptAppend(a, b');
    }
  }

  /** One record per row with at least three fields. */
  lemma {:induction false} KeptCount(rows: seq<Row>)
    ensures |Kept(rows)| == WideRows(rows) <= |rows|
  {
    if rows != [] {
      KeptCount(rows[..|rows| - 1]);
    }
  }

  /** `r` is the projection of some row of three or more fields. */
  predicate FromWideRow(rows: seq<Row>, r: LogRecord)
  {
    exists i :: 0 <= i < |rows| && |rows[i]| >= 3 && r == ToRecord(rows[i])
  }

  /** Every record is the projection of some row of three or more fields. */
  lemma {:induction false} KeptFromWideRows(rows: seq<Row>)
    ensures forall k :: 0 <= k < |Kept(rows)| ==> FromWideRow(rows, Kept(rows)[k])
  {
    forall k | 0 <= k < |Kept(rows)| ensures FromWideRow(rows, Kept(rows)[k]) {
      KeptSourceAt(rows, k);
    }
  }

  lemma {:induction false} KeptSourceAt(rows: seq<Row>, k: nat)
    requires k < |Kept(rows)|
    ensures FromWideRow(rows, Kept(rows)[k])
  {
    var init, last := rows[..|rows| - 1], rows[|rows| - 1];
    var tail := if |last| >= 3 then [ToRecord(last)] else [];
    assert Kept(rows) == Kept(init) + tail;
    if k < |Kept(init)| {
      KeptSourceAt(init, k);
      var i :| 0 <= i < |init| && |init[i]| >= 3 && Kept(init)[k] == ToRecord(init[i]);
      assert rows[i] == init[i] && Kept(rows)[k] == Kept(init)[k];
    } else {
      assert |last| >= 3 && Kept(rows)[k] == ToRecord(last);
      assert rows[|rows| - 1] == last;
    }
  }

  /** When no field is over the limit, the reader gets through every row and the
      record count is the number of rows with at least three fields. */
  lemma ParsedCount(content: string)
    requires content != []
    requires forall i :: 0 <= i < |RowsOf(content)| ==> !Oversized(RowsOf(content)[i])
    ensures !ParseContent(content).failed
    ensures |ParseContent(content).records| == WideRows(RowsOf(content))
  {
    var rows := RowsOf(content);
    assert rows[..|rows|] == rows;
    KeptCount(rows);
  }
}
