// The school-directory importer (server/seed_blocks.js): the loop over the
// spreadsheet rows that picks the rows to insert into `school_blocks` and
// counts the inserts that succeed.
module SeedBlocks {
  import opened Text
  import opened Records

  /** A spreadsheet cell as `sheet_to_json(sheet, { header: 1 })` gives it:
      missing, text, or a whole number. */
  datatype Cell = Missing | Str(s: string) | Num(n: int)

  /** One spreadsheet row: `[S.No, District, Block Name, School Name, Address, Pincode]`. */
  type Row = seq<Cell>

  /** What the importer ends with: nothing read, or the rows it inserted
      into the freshly recreated table and `insertedCount`. */
  datatype SeedOutcome = NoData | Seeded(table: seq<SchoolBlock>, insertedCount: nat)

  /** JavaScript truthiness of a cell. */
  predicate CellTruthy(c: Cell) {
    match c
    case Missing => false
    case Str(s) => s != ""
    case Num(n) => n != 0
  }

  /** `cell.toString()` of a present cell. */
  function CellText(c: Cell): string {
    match c
    case Missing => ""
    case Str(s) => s
    case Num(n) => IntToString(n)
  }

  /** `cell ? cell.toString() : ''`. */
  function TextOrEmpty(c: Cell): string {
    if CellTruthy(c) then CellText(c) else ""
  }

  /** A truthy cell has non-empty text. */
  lemma TruthyCellHasText(c: Cell)
    requires CellTruthy(c)
    ensures CellText(c) != ""
  {
    if c.Num? {
      if c.n < 0 {
        NatToStringRoundTrip(-c.n);
      } else {
        NatToStringRoundTrip(c.n);
      }
    }
  }

  /** The guards of the loop body: at least six cells, not the `'S NO'`
      header row, and a truthy district and school name. */
  predicate Qualifies(row: Row) {
    |row| >= 6 && row[0] != Str("S NO") && CellTruthy(row[1]) && CellTruthy(row[3])
  }

  /** The values bound to the insert statement: district, block, school,
      address and pincode from columns 1 to 5, the optional ones as `''`
      when absent. */
  function RowBlock(row: Row): (b: SchoolBlock)
    requires Qualifies(row)
    ensures b.district != "" && b.schoolName != ""
    ensures b.district == CellText(row[1]) && b.schoolName == CellText(row[3])
    ensures !CellTruthy(row[2]) ==> b.blockName == ""
    ensures !CellTruthy(row[4]) ==> b.address == ""
    ensures !CellTruthy(row[5]) ==> b.pincode == ""
  {
    TruthyCellHasText(row[1]);
    TruthyCellHasText(row[3]);
    SchoolBlock(CellText(row[1]), TextOrEmpty(row[2]), CellText(row[3]),
                TextOrEmpty(row[4]), TextOrEmpty(row[5]))
  }

  /** What one row adds to the table: its values when it qualifies and
      the database accepts it, else nothing. */
  function RowInsert(row: Row, ok: bool): seq<SchoolBlock> {
    if Qualifies(row) && ok then [RowBlock(row)] else []
  }

  /** The rows the loop inserts, in order, when `accepted[k]` says whether
      the database takes row `k` (a duplicate or other failure is `false`). */
  function Inserted(data: seq<Row>, accepted: seq<bool>): seq<SchoolBlock>
    requires |accepted| == |data|
    decreases |data|
  {
    if data == [] then []
    else
      var n := |data| - 1;
      Inserted(data[..n], accepted[..n]) + RowInsert(data[n], accepted[n])
  }

  /** `seedBlocks`, from the rows read to the table written. The insert
      outcomes are supplied by the caller. An empty sheet writes nothing;
      otherwise the table is recreated empty, each qualifying row is
      offered to the database, and the count goes up only when the insert
      succeeds. */
  method SeedBlocks(data: seq<Row>, accepted: seq<bool>) returns (outcome: SeedOutcome)
    requires |accepted| == |data|
    ensures data == [] <==> outcome == NoData
    ensures data != [] ==>
      outcome == Seeded(Inserted(data, accepted), |Inserted(data, accepted)|)
  {
    if |data| == 0 {
      return NoData;
    }
    var table: seq<SchoolBlock> := [];
    var insertedCount: nat := 0;
    for i := 0 to |data|
      invariant table == Inserted(data[..i], accepted[..i])
      invariant insertedCount == |table|
    {
      assert data[..i + 1][..i] == data[..i] && accepted[..i + 1][..i] == accepted[..i];
      var row := data[i];
      if |row| >= 6 && row[0] != Str("S NO") {
        if CellTruthy(row[1]) && CellTruthy(row[3]) {
          if accepted[i] {
            table := table + [RowBlock(row)];
            insertedCount := insertedCount + 1;
          }
        }
      }
    }
    assert data[..|data|] == data && accepted[..|accepted|] == accepted;
    return Seeded(table, insertedCount);
  }

  /** Every inserted row comes from a qualifying row the database accepted. */
  lemma {:induction false} InsertedFromQualifying(data: seq<Row>, accepted: seq<bool>, j: nat)
    requires |accepted| == |data| && j < |Inserted(data, accepted)|
    ensures exists k | 0 <= k < |data| ::
      Qualifies(data[k]) && accepted[k] && Inserted(data, accepted)[j] == RowBlock(data[k])
    decreases |data|
  {
    var n := |data| - 1;
    var prefix := Inserted(data[..n], accepted[..n]);
    if j < |prefix| {
      InsertedFromQualifying(data[..n], accepted[..n], j);
      var k :| 0 <= k < n && Qualifies(data[..n][k]) && accepted[..n][k]
        && prefix[j] == RowBlock(data[..n][k]);
      assert data[k] == data[..n][k];
    } else {
      assert Inserted(data, accepted)[j] == RowBlock(data[n]);
    }
  }

  /** Short rows, the header row and rows without a district or school
      name are never inserted; so every stored district and school name
      is non-empty. */
  lemma InsertedRowsHaveNames(data: seq<Row>, accepted: seq<bool>, j: nat)
    requires |accepted| == |data| && j < |Inserted(data, accepted)|
    ensures Inserted(data, accepted)[j].district != ""
    ensures Inserted(data, accepted)[j].schoolName != ""
  {
    InsertedFromQualifying(data, accepted, j);
  }

  /** The count never exceeds the number of qualifying rows, nor therefore
      the number of rows; when every insert succeeds it is exactly the
      number of qualifying rows. */
  lemma {:induction false} InsertedCount(data: seq<Row>, accepted: seq<bool>)
    requires |accepted| == |data|
    ensures |Inserted(data, accepted)| <= |Filter(data, Qualifies)| <= |data|
    ensures (forall k | 0 <= k < |accepted| :: accepted[k]) ==>
      |Inserted(data, accepted)| == |Filter(data, Qualifies)|
    decreases |data|
  {
    if data != [] {
      var n := |data| - 1;
      InsertedCount(data[..n], accepted[..n]);
      assert data == data[..n] + [data[n]];
      FilterAppend(data[..n], [data[n]], Qualifies);
    }
  }

  /** The loop over two stretches of rows inserts what each stretch inserts. */
  lemma {:induction false} InsertedAppend(a: seq<Row>, x: seq<bool>, b: seq<Row>, y: seq<bool>)
    requires |x| == |a| && |y| == |b|
    ensures Inserted(a + b, x + y) == Inserted(a, x) + Inserted(b, y)
    decreases |b|
  {
    if b == [] {
      assert a + b == a && x + y == x;
    } else {
      var n := |b| - 1;
      var ab, xy := a + b, x + y;
      var m := |ab| - 1;
      assert ab[..m] == a + b[..n] && xy[..m] == x + y[..n];
      assert ab[m] == b[n] && xy[m] == y[n];
      InsertedAppend(a, x, b[..n], y[..n]);
      calc {
        Inserted(ab, xy);
        Inserted(ab[..m], xy[..m]) + RowInsert(b[n], y[n]);
        (Inserted(a, x) + Inserted(b[..n], y[..n])) + RowInsert(b[n], y[n]);
        Inserted(a, x) + (Inserted(b[..n], y[..n]) + RowInsert(b[n], y[n]));
        Inserted(a, x) + Inserted(b, y);
      }
    }
  }

  /** Splitting the rows at any point splits the inserted rows there. */
  lemma InsertedSplit(data: seq<Row>, accepted: seq<bool>, k: nat)
    requires |accepted| == |data| && k <= |data|
    ensures Inserted(data, accepted) ==
      Inserted(data[..k], accepted[..k]) + Inserted(data[k..], accepted[k..])
  {
    assert data == data[..k] + data[k..] && accepted == accepted[..k] + accepted[k..];
    InsertedAppend(data[..k], accepted[..k], data[k..], accepted[k..]);
  }

  /** A stretch of rows inserts its first row's values, then the rest's. */
  lemma InsertedFirst(data: seq<Row>, accepted: seq<bool>)
    requires |accepted| == |data| && data != []
    ensures Inserted(data, accepted) == RowInsert(data[0], accepted[0]) + Inserted(data[1..], accepted[1..])
  {
    InsertedSplit(data, accepted, 1);
    assert Inserted(data[..1], accepted[..1]) == Inserted([], []) + RowInsert(data[0], accepted[0]) by {
      assert data[..1][..0] == [] && accepted[..1][..0] == [];
    }
  }

  /** A failed insert (a duplicate, say) is skipped: the rows before and
      after it are inserted as if it were not there. */
  lemma FailedInsertSkipped(data: seq<Row>, accepted: seq<bool>, k: nat)
    requires |accepted| == |data| && k < |data| && !accepted[k]
    ensures Inserted(data, accepted) ==
      Inserted(data[..k], accepted[..k]) + Inserted(data[k + 1..], accepted[k + 1..])
  {
    var before := Inserted(data[..k], accepted[..k]);
    var rest := Inserted(data[k..], accepted[k..]);
    var after := Inserted(data[k + 1..], accepted[k + 1..]);
    InsertedSplit(data, accepted, k);
    assert Inserted(data, accepted) == before + rest;
    InsertedFirst(data[k..], accepted[k..]);
    assert data[k..][1..] == data[k + 1..] && accepted[k..][1..] == accepted[k + 1..];
    assert rest == RowInsert(data[k], accepted[k]) + after;
    assert RowInsert(data[k], accepted[k]) == [];
    assert rest == after;
  }

  /** The header row inserts nothing, whatever the database would say. */
  lemma HeaderRowSkipped(row: Row, ok: bool)
    requires |row| >= 6 && row[0] == Str("S NO")
    ensures Inserted([row], [ok]) == []
  {
  }
}
