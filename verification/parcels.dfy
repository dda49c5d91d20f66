/**
 The rows of one page of assessor search results and the dictionary of parcels they are
 merged into (`extract_parcel_data` in ABQ/property_id.py).

 A row is the list of its cells' texts. Rows are processed in order:
 - a row with no cells is skipped;
 - a row with five or more cells stores its last four read fields under its first cell,
   replacing any earlier entry for that parcel id (last write wins);
 - a row with one to four cells raises an index error before anything is stored; the error
   is caught outside the row loop, so the rest of the page is dropped while the rows
   already stored stay stored.
 */
module Parcels {

  /** The text of one table cell. */
  type Cell = string

  /** The cells of one table row, left to right. */
  type Row = seq<Cell>

  /** The results table of the page on screen: its body may fail to be found. */
  datatype Table = Missing | Body(rows: seq<Row>)

  /** The four columns stored for a parcel, in the table's column order. */
  datatype Fields = Fields(ownerName: string, address: string, rpType: string, year: string)

  /** The accumulated parcel dictionary, keyed by parcel id. */
  type Dataset = map<string, Fields>

  /** Number of cells a row must have for all reads to succeed: the id and four fields. */
  const Columns := 5

  predicate Blank(row: Row) {
    |row| == 0
  }

  predicate Complete(row: Row) {
    |row| >= Columns
  }

  /** A row that has an id cell but raises while its fields are read. */
  predicate Truncated(row: Row) {
    0 < |row| < Columns
  }

  function FieldsOf(row: Row): Fields
    requires Complete(row)
  {
    Fields(row[1], row[2], row[3], row[4])
  }

  /** The ids of the complete rows among `rows`. */
  function Ids(rows: seq<Row>): set<string>
  {
    set j | 0 <= j < |rows| && Complete(rows[j]) :: rows[j][0]
  }

  /** How many rows are looked at before a truncated row ends the page. */
  function Processed(rows: seq<Row>): (k: nat)
    ensures k <= |rows|
    ensures forall j :: 0 <= j < k ==> !Truncated(rows[j])
    ensures k < |rows| ==> Truncated(rows[k])
  {
    if rows == [] then 0
    else if Truncated(rows[0]) then 0
    else 1 + Processed(rows[1..])
  }

  /** The ids written by one pass over `rows`. */
  function Written(rows: seq<Row>): set<string>
  {
    Ids(rows[..Processed(rows)])
  }

  /** True when no complete row at positions j+1 .. k-1 carries the id of row j. */
  predicate LastWriteBefore(rows: seq<Row>, j: nat, k: nat)
    requires j < k <= |rows| && Complete(rows[j])
  {
    forall j' :: j < j' < k && Complete(rows[j']) ==> rows[j'][0] != rows[j][0]
  }

  /** The row loop of `extract_parcel_data` over the rows of one table. */
  function StoreRows(rows: seq<Row>, data: Dataset): (r: Dataset)
    ensures r.Keys == data.Keys + Written(rows)
  {
    if rows == [] then data
    else
      var row := rows[0];
      IdsCons(rows);
      if Blank(row) then StoreRows(rows[1..], data)
      else if Truncated(row) then data
      else StoreRows(rows[1..], data[row[0] := FieldsOf(row)])
  }

  /** `extract_parcel_data`: a missing table body raises before the loop and stores nothing;
      otherwise the ids the row loop writes are added and no entry is removed. */
  function ExtractParcelData(table: Table, data: Dataset): (r: Dataset)
    ensures table.Missing? ==> r == data
    ensures table.Body? ==> r.Keys == data.Keys + Written(table.rows)
  {
    match table
    case Missing => data
    case Body(rows) => StoreRows(rows, data)
  }

  /** Unfolds `Written` by one row. */
  lemma IdsCons(rows: seq<Row>)
    requires rows != []
    ensures !Truncated(rows[0]) ==> Processed(rows) == 1 + Processed(rows[1..])
    ensures Truncated(rows[0]) ==> Written(rows) == {}
    ensures Blank(rows[0]) ==> Written(rows) == Written(rows[1..])
    ensures Complete(rows[0]) ==> Written(rows) == {rows[0][0]} + Written(rows[1..])
  {
    var k := Processed(rows);
    if !Truncated(rows[0]) {
      var tail := rows[1..][..k - 1];
      assert rows[..k] == [rows[0]] + tail;
      forall id | id in Written(rows)
        ensures id in Written(rows[1..]) || (Complete(rows[0]) && id == rows[0][0])
      {
        var j :| 0 <= j < k && Complete(rows[..k][j]) && rows[..k][j][0] == id;
        if j > 0 {
          assert tail[j - 1] == rows[..k][j];
        }
      }
      forall id | id in Written(rows[1..])
        ensures id in Written(rows)
      {
        var j :| 0 <= j < |tail| && Complete(tail[j]) && tail[j][0] == id;
        assert rows[..k][j + 1] == tail[j];
      }
      if Complete(rows[0]) {
        assert rows[..k][0] == rows[0];
      }
    }
  }

  /** Entries whose id no processed complete row carries keep their old value. */
  lemma {:induction false} StoreRowsKeepsOthers(rows: seq<Row>, data: Dataset, id: string)
    requires id in data && id !in Written(rows)
    ensures StoreRows(rows, data)[id] == data[id]
  {
    if rows != [] {
      IdsCons(rows);
      var row := rows[0];
      if Blank(row) {
        StoreRowsKeepsOthers(rows[1..], data, id);
      } else if Complete(row) {
        StoreRowsKeepsOthers(rows[1..], data[row[0] := FieldsOf(row)], id);
      }
    }
  }

  /** Last write wins: the entry for an id is the fields of the last processed complete row
      that carries it. */
  lemma {:induction false} StoreRowsLastWriteWins(rows: seq<Row>, data: Dataset, j: nat)
    requires j < Processed(rows) && Complete(rows[j])
    requires LastWriteBefore(rows, j, Processed(rows))
    ensures rows[j][0] in StoreRows(rows, data)
    ensures StoreRows(rows, data)[rows[j][0]] == FieldsOf(rows[j])
  {
    IdsCons(rows);
    var row := rows[0];
    var rest := rows[1..];
    if j == 0 {
      var data' := data[row[0] := FieldsOf(row)];
      StoreRowsKeepsOthers(rest, data', row[0]);
    } else if Blank(row) {
      assert rows[j] == rest[j - 1];
      StoreRowsLastWriteWins(rest, data, j - 1);
    } else {
      assert rows[j] == rest[j - 1];
      StoreRowsLastWriteWins(rest, data[row[0] := FieldsOf(row)], j - 1);
    }
  }

  /** Every written id has a last processed complete row that carries it. */
  lemma {:induction false} LastWriterExists(rows: seq<Row>, k: nat, id: string)
    requires k <= |rows| && id in Ids(rows[..k])
    ensures exists j :: 0 <= j < k && Complete(rows[j]) && rows[j][0] == id && LastWriteBefore(rows, j, k)
  {
    var j0 :| 0 <= j0 < k && Complete(rows[..k][j0]) && rows[..k][j0][0] == id;
    assert rows[j0] == rows[..k][j0];
    if Complete(rows[k - 1]) && rows[k - 1][0] == id {
      assert LastWriteBefore(rows, k - 1, k);
    } else {
      assert j0 < k - 1;
      assert rows[..k - 1][j0] == rows[j0];
      LastWriterExists(rows, k - 1, id);
      var j :| 0 <= j < k - 1 && Complete(rows[j]) && rows[j][0] == id && LastWriteBefore(rows, j, k - 1);
      assert LastWriteBefore(rows, j, k);
    }
  }

  /** Merging the same page twice leaves the dictionary as merging it once. */
  lemma StoreRowsIdempotent(rows: seq<Row>, data: Dataset)
    ensures StoreRows(rows, StoreRows(rows, data)) == StoreRows(rows, data)
  {
    var once := StoreRows(rows, data);
    var twice := StoreRows(rows, once);
    var k := Processed(rows);
    forall id | id in once
      ensures twice[id] == once[id]
    {
      if id in Written(rows) {
        LastWriterExists(rows, k, id);
        var j :| 0 <= j < k && Complete(rows[j]) && rows[j][0] == id && LastWriteBefore(rows, j, k);
        StoreRowsLastWriteWins(rows, data, j);
        StoreRowsLastWriteWins(rows, once, j);
      } else {
        StoreRowsKeepsOthers(rows, once, id);
      }
    }
  }

  /** Processing stops at the first truncated row: once the first part of a split page has
      hit one, the second part is never looked at. */
  lemma {:induction false} StoreRowsStopped(a: seq<Row>, b: seq<Row>, data: Dataset)
    ensures Processed(a) < |a| ==> StoreRows(a + b, data) == StoreRows(a, data)
  {
    if a != [] {
      var row := a[0];
      assert (a + b)[0] == row;
      assert (a + b)[1..] == a[1..] + b;
      IdsCons(a);
      if Blank(row) {
        StoreRowsStopped(a[1..], b, data);
      } else if Complete(row) {
        StoreRowsStopped(a[1..], b, data[row[0] := FieldsOf(row)]);
      }
    }
  }

  /** A page split after a first part with no truncated row continues from where that part
      left the dictionary. */
  lemma {:induction false} StoreRowsConcat(a: seq<Row>, b: seq<Row>, data: Dataset)
    ensures Processed(a) == |a| ==> StoreRows(a + b, data) == StoreRows(b, StoreRows(a, data))
  {
    if a != [] {
      var row := a[0];
      assert (a + b)[0] == row;
      assert (a + b)[1..] == a[1..] + b;
      IdsCons(a);
      if Blank(row) {
        StoreRowsConcat(a[1..], b, data);
      } else if Complete(row) {
        StoreRowsConcat(a[1..], b, data[row[0] := FieldsOf(row)]);
      }
    } else {
      assert a + b == b;
    }
  }

  /** A row with no cells contributes nothing and does not stop the page. */
  lemma BlankRowSkipped(a: seq<Row>, b: seq<Row>, data: Dataset)
    ensures StoreRows(a + [[]] + b, data) == StoreRows(a + b, data)
  {
    assert a + [[]] + b == a + ([[]] + b);
    StoreRowsStopped(a, [[]] + b, data);
    StoreRowsStopped(a, b, data);
    StoreRowsConcat(a, [[]] + b, data);
    StoreRowsConcat(a, b, data);
    var blank: seq<Row> := [[]] + b;
    assert blank[1..] == b;
  }

  /** A row with one to four cells stores nothing and drops every later row of its page,
      while every row merged before it stays merged. */
  lemma TruncatedRowEndsPage(a: seq<Row>, row: Row, b: seq<Row>, data: Dataset)
    requires Truncated(row)
    ensures StoreRows(a + [row] + b, data) == StoreRows(a, data)
  {
    assert a + [row] + b == a + ([row] + b);
    StoreRowsStopped(a, [row] + b, data);
    StoreRowsConcat(a, [row] + b, data);
  }

  /** Only complete rows write, so every written id is an id on the page. */
  lemma WrittenAreIds(rows: seq<Row>)
    ensures Written(rows) <= Ids(rows)
  {
  }

  /** Starting from an empty dictionary, the dictionary holds only ids of complete rows, so it
      never has more entries than there are distinct ids on the page. */
  lemma StoreRowsSize(rows: seq<Row>)
    ensures StoreRows(rows, map[]).Keys <= Ids(rows)
    ensures |StoreRows(rows, map[])| <= |Ids(rows)|
  {
    WrittenAreIds(rows);
    SubsetSize(StoreRows(rows, map[]).Keys, Ids(rows));
  }

  lemma {:induction false} SubsetSize(a: set<string>, b: set<string>)
    requires a <= b
    ensures |a| <= |b|
  {
    assert b == a + (b - a);
  }
}
