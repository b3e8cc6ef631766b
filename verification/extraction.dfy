/** The `extract` stage: turning the rows of the page's first table body into
    raw (Name, MC_USD_Billion) records. The HTTP fetch and the HTML parsing are
    abstracted away: the table body is given as the texts of each row's `td`
    cells, or as absent when the page has no `tbody`. */
module Extraction {
  import opened Wrappers
  import opened Text

  /** The texts of one `tr` row's `td` cells, in document order. */
  type Row = seq<string>

  /** One scraped record; both fields are still text, thousands separators
      included. */
  datatype RawRecord = RawRecord(name: string, usd: string)

  datatype ExtractError =
    /** The page has no `tbody` (Python fails on `None.find_all`). */
    | NoTableBody
    /** A data row has cells, but not the one at index `cell`; `row` is the
        row's position among the `tr` rows of the table body, the header
        being row 0. */
    | MissingCell(row: nat, cell: nat)

  /** Fixed positions of the two columns read from every data row. */
  const NameCell: nat := 1
  const UsdCell: nat := 2

  /** The header row is skipped: Python's `rows_temp[1:]`. */
  function DataRows(rows: seq<Row>): seq<Row> {
    if |rows| == 0 then [] else rows[1..]
  }

  /** The record a long enough data row yields: cells 1 and 2, stripped. */
  function RecordOf(cells: Row): RawRecord
    requires |cells| > UsdCell
  {
    RawRecord(Strip(cells[NameCell]), Strip(cells[UsdCell]))
  }

  /** Rows `j .. k-1` of `data` all have cells and row `k` is the end of the
      data or a row without cells: the loop stops at `k`. */
  ghost predicate RunEndsAt(data: seq<Row>, j: nat, k: nat) {
    && j <= k <= |data|
    && (forall i :: j <= i < k ==> |data[i]| != 0)
    && (k == |data| || |data[k]| == 0)
  }

  /** Every row from `j` up to (excluding) `k` has the cells the record
      needs. */
  ghost predicate AllLongEnough(data: seq<Row>, j: nat, k: nat) {
    forall i :: j <= i < k ==> i < |data| && |data[i]| > UsdCell
  }

  /** `recs` are the records of rows `j ..` of `data`, in order. */
  ghost predicate RecordsOf(data: seq<Row>, j: nat, recs: seq<RawRecord>)
    requires j + |recs| <= |data|
    requires AllLongEnough(data, j, j + |recs|)
  {
    forall t :: 0 <= t < |recs| ==> recs[t] == RecordOf(data[j + t])
  }

  /** The error reported for data row `i`: it has cells, too few of them, and
      every row before it from `j` on was long enough. */
  ghost predicate FirstShortRow(data: seq<Row>, j: nat, i: nat, e: ExtractError) {
    && j <= i < |data|
    && 0 < |data[i]| <= UsdCell
    && AllLongEnough(data, j, i)
    && e == MissingCell(i + 1, |data[i]|)
  }

  /** The loop over the data rows from index `j`: stop at the first row
      without cells, fail at a row with cells but too few of them. */
  function Walk(data: seq<Row>, j: nat): Result<seq<RawRecord>, ExtractError>
    requires j <= |data|
    decreases |data| - j
  {
    if j == |data| || |data[j]| == 0 then Success([])
    else if |data[j]| <= UsdCell then Failure(MissingCell(j + 1, |data[j]|))
    else Prepend([RecordOf(data[j])], Walk(data, j + 1))
  }

  /** `recs` followed by the records of `r`, or `r`'s error. */
  function Prepend(recs: seq<RawRecord>, r: Result<seq<RawRecord>, ExtractError>): Result<seq<RawRecord>, ExtractError> {
    match r
    case Success(tail) => Success(recs + tail)
    case Failure(e) => Failure(e)
  }

  /** What the loop from row `j` computes: on success, the records of the
      rows up to the stopping row, in order; on failure, the first row before
      the stopping row that has cells but too few. */
  lemma {:induction false} WalkSpec(data: seq<Row>, j: nat)
    requires j <= |data|
    ensures Walk(data, j).Success? ==>
      && RunEndsAt(data, j, j + |Walk(data, j).value|)
      && AllLongEnough(data, j, j + |Walk(data, j).value|)
      && RecordsOf(data, j, Walk(data, j).value)
    ensures Walk(data, j).Failure? ==>
      && Walk(data, j).error.MissingCell?
      && Walk(data, j).error.row >= 1
      && FirstShortRow(data, j, Walk(data, j).error.row - 1, Walk(data, j).error)
    decreases |data| - j
  {
    if j == |data| || |data[j]| == 0 {
    } else if |data[j]| <= UsdCell {
    } else {
      WalkSpec(data, j + 1);
      var tail := Walk(data, j + 1);
      if tail.Success? {
        var recs := [RecordOf(data[j])] + tail.value;
        assert Walk(data, j) == Success(recs);
        assert forall t :: 1 <= t < |recs| ==> recs[t] == tail.value[t - 1];
      }
    }
  }

  /** Python's `extract`: the records of the consecutive data rows that have
      cells, in document order. */
  function Extract(body: Option<seq<Row>>): (r: Result<seq<RawRecord>, ExtractError>)
    ensures body.None? ==> r == Failure(NoTableBody)
    ensures body.Some? && r.Success? ==>
      && RunEndsAt(DataRows(body.value), 0, |r.value|)
      && AllLongEnough(DataRows(body.value), 0, |r.value|)
      && RecordsOf(DataRows(body.value), 0, r.value)
    ensures body.Some? && r.Failure? ==>
      && r.error.MissingCell?
      && r.error.row >= 1
      && FirstShortRow(DataRows(body.value), 0, r.error.row - 1, r.error)
  {
    match body
    case None => Failure(NoTableBody)
    case Some(rows) =>
      WalkSpec(DataRows(rows), 0);
      Walk(DataRows(rows), 0)
  }

  /** The stopping row `k` is unique. */
  lemma RunEndUnique(data: seq<Row>, j: nat, k1: nat, k2: nat)
    requires RunEndsAt(data, j, k1) && RunEndsAt(data, j, k2)
    ensures k1 == k2
  {
  }

  /** Characterisation of `extract` against the stopping row `n` of the data
      rows: it succeeds exactly when every row before `n` has the two cells it
      reads, and then yields one record per such row, in order, and nothing
      from row `n` onwards; otherwise it reports the first short row. */
  lemma ExtractSpec(rows: seq<Row>, n: nat)
    requires RunEndsAt(DataRows(rows), 0, n)
    ensures Extract(Some(rows)).Success? <==> AllLongEnough(DataRows(rows), 0, n)
    ensures Extract(Some(rows)).Success? ==>
      |Extract(Some(rows)).value| == n
      && forall t :: 0 <= t < n ==> Extract(Some(rows)).value[t] == RecordOf(rows[t + 1])
    ensures forall i: nat :: i < n && 0 < |DataRows(rows)[i]| <= UsdCell && AllLongEnough(DataRows(rows), 0, i) ==>
      Extract(Some(rows)) == Failure(MissingCell(i + 1, |DataRows(rows)[i]|))
  {
    var data := DataRows(rows);
    var r := Extract(Some(rows));
    if r.Success? {
      RunEndUnique(data, 0, n, |r.value|);
    } else {
      var i: nat := r.error.row - 1;
      assert i < n;
      forall i': nat | i' < n && 0 < |data[i']| <= UsdCell && AllLongEnough(data, 0, i')
        ensures r == Failure(MissingCell(i' + 1, |data[i']|))
      {
        assert i' == i;
      }
    }
  }

  /** Nothing after the first row without cells matters: whatever follows it,
      even rows with cells, contributes no record and no error. */
  lemma {:induction false} WalkStopsAtEmptyRow(data: seq<Row>, tail: seq<Row>, j: nat)
    requires j <= |data|
    ensures Walk(data + [[]] + tail, j) == Walk(data, j)
    decreases |data| - j
  {
    var all := data + [[]] + tail;
    if j == |data| {
      assert all[j] == [];
    } else {
      assert all[j] == data[j];
      if |data[j]| > UsdCell {
        WalkStopsAtEmptyRow(data, tail, j + 1);
      }
    }
  }

  /** The table body cut at its first data row without cells extracts to the
      same result as the whole body. */
  lemma ExtractStopsAtEmptyRow(rows: seq<Row>, tail: seq<Row>)
    requires |rows| > 0
    ensures Extract(Some(rows + [[]] + tail)) == Extract(Some(rows))
  {
    assert DataRows(rows + [[]] + tail) == DataRows(rows) + [[]] + tail;
    WalkStopsAtEmptyRow(DataRows(rows), tail, 0);
  }

  /** The header row never yields a record: replacing it by any other row
      changes nothing. */
  lemma ExtractIgnoresHeader(header: Row, other: Row, data: seq<Row>)
    ensures Extract(Some([header] + data)) == Extract(Some([other] + data))
  {
    assert DataRows([header] + data) == data == DataRows([other] + data);
  }

  /** The stripped cell texts of the example below. */
  lemma StripsOfExample()
    ensures Strip(" Bank A\n") == "Bank A" && Strip("1,000.50\n") == "1,000.50"
    ensures Strip("Bank B") == "Bank B" && Strip(" 500 ") == "500"
    ensures Strip("Bank C") == "Bank C" && Strip("250.25") == "250.25"
  {
    StripUnique(" ", "Bank A", "\n");
    assert " " + "Bank A" + "\n" == " Bank A\n";
    StripUnique("", "1,000.50", "\n");
    assert "" + "1,000.50" + "\n" == "1,000.50\n";
    StripUnique("", "Bank B", "");
    assert "" + "Bank B" + "" == "Bank B";
    StripUnique(" ", "500", " ");
    assert " " + "500" + " " == " 500 ";
    StripUnique("", "Bank C", "");
    assert "" + "Bank C" + "" == "Bank C";
    StripUnique("", "250.25", "");
    assert "" + "250.25" + "" == "250.25";
  }

  /** A page whose header row has no `td` cells, three banks, an empty
      trailer row and a stray row after it: the three banks come out in
      order, their texts stripped, and the stray row is never read. */
  lemma ExtractThreeBanks()
    ensures Extract(Some([
      [],
      ["1", " Bank A\n", "1,000.50\n"],
      ["2", "Bank B", " 500 "],
      ["3", "Bank C", "250.25", "extra"],
      [],
      ["4", "Bank D"]
    ])) == Success([RawRecord("Bank A", "1,000.50"), RawRecord("Bank B", "500"), RawRecord("Bank C", "250.25")])
  {
    var rows: seq<Row> := [
      [],
      ["1", " Bank A\n", "1,000.50\n"],
      ["2", "Bank B", " 500 "],
      ["3", "Bank C", "250.25", "extra"],
      [],
      ["4", "Bank D"]
    ];
    var data := DataRows(rows);
    StripsOfExample();
    assert data[2] == ["3", "Bank C", "250.25", "extra"];
    assert RecordOf(data[2]) == RawRecord("Bank C", "250.25");
    assert RecordOf(data[1]) == RawRecord("Bank B", "500");
    assert RecordOf(data[0]) == RawRecord("Bank A", "1,000.50");
    var a, b, c := RawRecord("Bank A", "1,000.50"), RawRecord("Bank B", "500"), RawRecord("Bank C", "250.25");
    assert Walk(data, 3) == Success([]);
    assert Walk(data, 2) == Success([c]) by { assert [c] + [] == [c]; }
    assert Walk(data, 1) == Success([b, c]) by { assert [b] + [c] == [b, c]; }
    assert Walk(data, 0) == Success([a, b, c]) by { assert [a] + [b, c] == [a, b, c]; }
    assert Extract(Some(rows)) == Walk(data, 0);
  }

  /** The Python loop itself: iterate the data rows, `break` at the first row
      without cells, append one record per row otherwise. */
  method ExtractTable(body: Option<seq<Row>>) returns (r: Result<seq<RawRecord>, ExtractError>)
    ensures r == Extract(body)
  {
    if body.None? {
      return Failure(NoTableBody);
    }
    var rows := DataRows(body.value);
    var records: seq<RawRecord> := [];
    var j := 0;
    assert Prepend(records, Walk(rows, 0)) == Walk(rows, 0) by {
      if Walk(rows, 0).Success? {
        assert records + Walk(rows, 0).value == Walk(rows, 0).value;
      }
    }
    while j < |rows|
      invariant j <= |rows|
      invariant Walk(rows, 0) == Prepend(records, Walk(rows, j))
    {
      var cells := rows[j];
      if |cells| != 0 {
        if |cells| <= UsdCell {
          return Failure(MissingCell(j + 1, |cells|));
        }
        PrependTwice(records, RecordOf(cells), Walk(rows, j + 1));
        records := records + [RecordOf(cells)];
        j := j + 1;
      } else {
        break;
      }
    }
    assert Walk(rows, j) == Success([]);
    assert records + [] == records;
    return Success(records);
  }

  /** Prepending record by record is prepending them all at once. */
  lemma PrependTwice(recs: seq<RawRecord>, x: RawRecord, r: Result<seq<RawRecord>, ExtractError>)
    ensures Prepend(recs, Prepend([x], r)) == Prepend(recs + [x], r)
  {
    if r.Success? {
      assert recs + ([x] + r.value) == (recs + [x]) + r.value;
    }
  }
}
