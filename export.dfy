/** The rows `ExpenseScreen.export_csv` (main.py) hands to `csv.writer`: a
    header, then one row per fetched record with that record's five columns
    and the export date. The text rendering of cells and the file itself are
    not modelled; a cell keeps the value it is written from. */
module Export {
  import opened Wrappers
  import opened Decimals
  import opened ExpenseDb

  /** A CSV field before `csv.writer` turns it into text. */
  datatype Cell = IdCell(id: nat) | TextCell(text: string) | AmountCell(amount: Decimal)

  datatype ExportError = NoData

  /** The header row, written before any data row. */
  const Header: seq<Cell> :=
    [TextCell("ID"), TextCell("Date"), TextCell("Category"), TextCell("Description"),
     TextCell("Amount"), TextCell("Export Date")]

  /** `[*row, export_date]`: the five selected columns, then the export date. */
  function ExportRow(r: Record, exportDate: string): (cells: seq<Cell>)
    ensures |cells| == 6 && cells[5] == TextCell(exportDate)
  {
    [IdCell(r.id), TextCell(r.date), TextCell(r.category), TextCell(r.description),
     AmountCell(r.amount), TextCell(exportDate)]
  }

  /** The data rows for `records`, the first written at the clock's
      `start`-th reading and each later one at the next reading. */
  function DataRows(records: seq<Record>, clock: nat -> string, start: nat): (rows: seq<seq<Cell>>)
    ensures |rows| == |records|
  {
    if records == [] then []
    else [ExportRow(records[0], clock(start))] + DataRows(records[1..], clock, start + 1)
  }

  /** The whole table for `records`: the header, then the data rows, with
      the clock read once per row. */
  function ExportTable(records: seq<Record>, clock: nat -> string): (t: seq<seq<Cell>>)
    ensures |t| == |records| + 1 && t[0] == Header
  {
    [Header] + DataRows(records, clock, 0)
  }

  lemma {:induction false} DataRowAt(records: seq<Record>, clock: nat -> string, start: nat, k: nat)
    requires k < |records|
    ensures DataRows(records, clock, start)[k] == ExportRow(records[k], clock(start + k))
  {
    if k > 0 {
      DataRowAt(records[1..], clock, start + 1, k - 1);
    }
  }

  /** Row `k + 1` of the table is record `k` of the fetch, dated by the
      clock's `k`-th reading. */
  lemma ExportRowAt(records: seq<Record>, clock: nat -> string, k: nat)
    requires k < |records|
    ensures ExportTable(records, clock)[k + 1] == ExportRow(records[k], clock(k))
  {
    DataRowAt(records, clock, 0, k);
  }

  /** When every reading of the clock falls on the same day, as it does in
      an export that does not run past midnight, every row carries that day. */
  lemma UniformExportDate(records: seq<Record>, clock: nat -> string, day: string, k: nat)
    requires forall i :: clock(i) == day
    requires k < |records|
    ensures ExportTable(records, clock)[k + 1] == ExportRow(records[k], day)
  {
    ExportRowAt(records, clock, k);
  }

  /** One more record adds one more row, dated by the next reading. */
  lemma {:induction false} DataRowsSnoc(records: seq<Record>, r: Record, clock: nat -> string, start: nat)
    ensures DataRows(records + [r], clock, start)
            == DataRows(records, clock, start) + [ExportRow(r, clock(start + |records|))]
  {
    if records == [] {
      assert [] + [r] == [r];
    } else {
      assert (records + [r])[1..] == records[1..] + [r];
      DataRowsSnoc(records[1..], r, clock, start + 1);
    }
  }

  /** Reads a data row back into the record it was written from. */
  function DecodeRow(cells: seq<Cell>): (r: Option<Record>)
    ensures r.Some? ==> |cells| == 6 && cells[5].TextCell?
  {
    if |cells| == 6 && cells[0].IdCell? && cells[1].TextCell? && cells[2].TextCell?
       && cells[3].TextCell? && cells[4].AmountCell? && cells[5].TextCell?
    then Some(Record(cells[0].id, cells[1].text, cells[2].text, cells[3].text, cells[4].amount))
    else None
  }

  function DecodeRows(rows: seq<seq<Cell>>): (r: Option<seq<Record>>)
    ensures r.Some? ==> |r.value| == |rows|
  {
    if rows == [] then Some([])
    else
      match (DecodeRow(rows[0]), DecodeRows(rows[1..]))
      case (Some(x), Some(xs)) => Some([x] + xs)
      case _ => None
  }

  /** Reads an exported table back: the header, then the records. */
  function DecodeTable(t: seq<seq<Cell>>): (r: Option<seq<Record>>)
    ensures r.Some? ==> |r.value| + 1 == |t|
  {
    if t != [] && t[0] == Header then DecodeRows(t[1..]) else None
  }

  lemma DecodeExportRow(r: Record, exportDate: string)
    ensures DecodeRow(ExportRow(r, exportDate)) == Some(r)
  {
  }

  /** Data rows read back as the records they were written from, whatever
      their export dates. */
  lemma {:induction false} DecodeDataRows(records: seq<Record>, clock: nat -> string, start: nat)
    ensures DecodeRows(DataRows(records, clock, start)) == Some(records)
  {
    if records != [] {
      var rows := DataRows(records, clock, start);
      DecodeExportRow(records[0], clock(start));
      DecodeDataRows(records[1..], clock, start + 1);
      assert rows[1..] == DataRows(records[1..], clock, start + 1);
      assert records == [records[0]] + records[1..];
    }
  }

  /** The export loses nothing: the table reads back as exactly the records,
      in the order they were fetched. */
  lemma ExportRoundTrip(records: seq<Record>, clock: nat -> string)
    ensures DecodeTable(ExportTable(records, clock)) == Some(records)
  {
    var t := ExportTable(records, clock);
    assert t[1..] == DataRows(records, clock, 0);
    DecodeDataRows(records, clock, 0);
  }

  /** No two exports of different records give the same table. */
  lemma ExportInjective(a: seq<Record>, b: seq<Record>, clock: nat -> string)
    requires ExportTable(a, clock) == ExportTable(b, clock)
    ensures a == b
  {
    ExportRoundTrip(a, clock);
    ExportRoundTrip(b, clock);
  }

  /** The header is never mistaken for a record. */
  lemma HeaderIsNotARecord()
    ensures DecodeRow(Header).None?
  {
  }

  /** `export_csv` from the fetch on: nothing is written for an empty
      result; otherwise the header and then one row per record, with the
      clock read afresh for each row. */
  method BuildExport(records: seq<Record>, clock: nat -> string) returns (r: Result<seq<seq<Cell>>, ExportError>)
    ensures r.Failure? <==> records == []
    ensures r.Failure? ==> r.error == NoData
    ensures r.Success? ==> r.value == ExportTable(records, clock)
  {
    if records == [] {
      return Failure(NoData);
    }
    var table := [Header];
    var i := 0;
    while i < |records|
      invariant 0 <= i <= |records|
      invariant table == [Header] + DataRows(records[..i], clock, 0)
    {
      DataRowsSnoc(records[..i], records[i], clock, 0);
      assert records[..i + 1] == records[..i] + [records[i]];
      table := table + [ExportRow(records[i], clock(i))];
      i := i + 1;
    }
    assert records[..i] == records;
    r := Success(table);
  }
}
