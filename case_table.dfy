/**
  The row loop of `fetch_case`: every row of the results table whose cells
  number at least four becomes one six-field record, in table order.
*/
module CaseTable {
  import opened PyText
  import opened CasePatterns

  /** One parsed row, with its six fields in the order the endpoint returns
      them: serial, case information, parties, next date, last date, court
      number. */
  datatype CaseRecord = CaseRecord(
    serial: string,
    caseInfo: string,
    parties: string,
    nextDate: string,
    lastDate: string,
    courtNo: string)

  /** The word removed from the case information cell. */
  const OrdersWord := "Orders"

  /** A row's cell texts, each stripped. */
  function Columns(cells: seq<string>): (cols: seq<string>)
    ensures |cols| == |cells|
  {
    if cells == [] then [] else [Strip(cells[0])] + Columns(cells[1..])
  }

  /** The record built from the (stripped) cells of a row that has at least
      four of them. */
  function ParseRow(cols: seq<string>): (r: CaseRecord)
    requires |cols| >= 4
    ensures NoOuterSpace(r.caseInfo) && NoOuterSpace(r.parties)
    ensures |r.nextDate| <= |cols[3]| && |r.lastDate| <= |cols[3]| && |r.courtNo| <= |cols[3]|
  {
    CaseRecord(
      cols[0],
      Strip(RemoveAll(cols[1], OrdersWord)),
      Strip(cols[2]),
      Extract(cols[3], NextDate),
      Extract(cols[3], LastDate),
      Extract(cols[3], CourtNo))
  }

  /** What one pass of the loop adds for a row with cell texts `cells`. */
  function RowRecords(cells: seq<string>): seq<CaseRecord> {
    var cols := Columns(cells);
    if |cols| >= 4 then [ParseRow(cols)] else []
  }

  /** The records the loop has collected once it has seen `rows`. */
  function ParseRows(rows: seq<seq<string>>): (r: seq<CaseRecord>)
    ensures |r| <= |rows|
  {
    if rows == [] then []
    else ParseRows(rows[..|rows| - 1]) + RowRecords(rows[|rows| - 1])
  }

  lemma ParseRowsSnoc(rows: seq<seq<string>>, cells: seq<string>)
    ensures ParseRows(rows + [cells]) == ParseRows(rows) + RowRecords(cells)
  {
    assert (rows + [cells])[..|rows|] == rows;
  }

  lemma TakeSnoc(rows: seq<seq<string>>, i: nat)
    requires i < |rows|
    ensures rows[..i + 1] == rows[..i] + [rows[i]]
  {
  }

  /** The loop itself: `case_data` starts empty and gains one record per row
      with at least four cells. */
  method ParseTable(rows: seq<seq<string>>) returns (caseData: seq<CaseRecord>)
    ensures caseData == ParseRows(rows)
  {
    caseData := [];
    for i := 0 to |rows|
      invariant caseData == ParseRows(rows[..i])
    {
      var cols := Columns(rows[i]);
      if |cols| >= 4 {
        caseData := caseData + [ParseRow(cols)];
      }
      ParseRowsSnoc(rows[..i], rows[i]);
      TakeSnoc(rows, i);
    }
    assert rows[..|rows|] == rows;
  }

  /** Positions, in increasing order, of the rows with at least four cells:
      each kept position holds such a row, and every such row is kept. */
  function KeptIndices(rows: seq<seq<string>>): (idx: seq<nat>)
    ensures forall k | 0 <= k < |idx| :: idx[k] < |rows| && |rows[idx[k]]| >= 4
    ensures forall k, l | 0 <= k < l < |idx| :: idx[k] < idx[l]
    ensures forall i | 0 <= i < |rows| && |rows[i]| >= 4 :: i in idx
  {
    if rows == [] then []
    else
      var n := |rows| - 1;
      var front := KeptIndices(rows[..n]);
      assert forall i | 0 <= i < n :: rows[..n][i] == rows[i];
      front + if |rows[n]| >= 4 then [n] else []
  }

  /** The output has exactly one record per row with at least four cells, in
      input order: record `k` is parsed from the `k`-th such row. */
  lemma {:induction false} ParseRowsByIndex(rows: seq<seq<string>>)
    ensures |ParseRows(rows)| == |KeptIndices(rows)|
    ensures forall k | 0 <= k < |ParseRows(rows)| ::
      ParseRows(rows)[k] == ParseRow(Columns(rows[KeptIndices(rows)[k]]))
  {
    if rows != [] {
      var n := |rows| - 1;
      var init := rows[..n];
      ParseRowsByIndex(init);
      var out, front, idx := ParseRows(init), KeptIndices(init), KeptIndices(rows);
      assert ParseRows(rows) == out + RowRecords(rows[n]);
      assert idx == front + if |rows[n]| >= 4 then [n] else [];
      forall k | 0 <= k < |ParseRows(rows)|
        ensures ParseRows(rows)[k] == ParseRow(Columns(rows[idx[k]]))
      {
        if k < |out| {
          assert ParseRows(rows)[k] == out[k];
          assert init[front[k]] == rows[front[k]];
        }
      }
    }
  }

  /** No record at all exactly when no row has four cells. */
  lemma ParseRowsEmpty(rows: seq<seq<string>>)
    ensures ParseRows(rows) == [] <==> forall i | 0 <= i < |rows| :: |rows[i]| < 4
  {
    ParseRowsByIndex(rows);
    var idx := KeptIndices(rows);
    if idx != [] {
      assert |rows[idx[0]]| >= 4;
    }
  }

  /** The loop is a concatenation homomorphism: parsing two stretches of
      rows one after the other gives the two outputs one after the other. */
  lemma {:induction false} ParseRowsAppend(a: seq<seq<string>>, b: seq<seq<string>>)
    ensures ParseRows(a + b) == ParseRows(a) + ParseRows(b)
    decreases |b|
  {
    if b != [] {
      var n := |b| - 1;
      assert (a + b)[..|a + b| - 1] == a + b[..n];
      ParseRowsAppend(a, b[..n]);
    } else {
      assert a + b == a;
    }
  }

  /** A row with fewer than four cells contributes nothing, wherever it is. */
  lemma ShortRowIgnored(a: seq<seq<string>>, row: seq<string>, b: seq<seq<string>>)
    requires |row| < 4
    ensures ParseRows(a + [row] + b) == ParseRows(a + b)
  {
    calc {
      ParseRows(a + [row] + b);
      { ParseRowsAppend(a + [row], b); }
      ParseRows(a + [row]) + ParseRows(b);
      { ParseRowsSnoc(a, row); }
      ParseRows(a) + RowRecords(row) + ParseRows(b);
      ParseRows(a) + ParseRows(b);
      { ParseRowsAppend(a, b); }
      ParseRows(a + b);
    }
  }

  /** The fields of a record, stated against the row's raw cell texts: the
      serial and the parties are those cells stripped (stripping the already
      stripped parties cell again changes nothing), and the case information
      has no outer whitespace. */
  lemma RecordFields(cells: seq<string>)
    requires |cells| >= 4
    ensures var r := ParseRow(Columns(cells));
      && r.serial == Strip(cells[0])
      && r.parties == Strip(cells[2])
      && NoOuterSpace(r.caseInfo)
  {
    ColumnsAt(cells, 0);
    ColumnsAt(cells, 2);
    StripIdempotent(cells[2]);
  }

  lemma {:induction false} ColumnsAt(cells: seq<string>, k: nat)
    requires k < |cells|
    ensures Columns(cells)[k] == Strip(cells[k])
  {
    if k > 0 {
      ColumnsAt(cells[1..], k - 1);
    }
  }
}
