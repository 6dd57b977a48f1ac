/** The BloodStock table: one volume per blood type. */
module BloodStockRepository {
  import opened Database
  import Text

  /** The row stored for each of `types`, in the same order. */
  function RowsOf(stock: map<string, int>, types: seq<string>): (rows: seq<BloodStock>)
    requires forall i :: 0 <= i < |types| ==> types[i] in stock
    ensures |rows| == |types|
    ensures forall i :: 0 <= i < |rows| ==> rows[i] == BloodStock(types[i], stock[types[i]])
  {
    if types == [] then []
    else [BloodStock(types[0], stock[types[0]])] + RowsOf(stock, types[1..])
  }

  lemma RowsOfSorted(stock: map<string, int>, types: seq<string>)
    requires Text.StrictlyAscending(types)
    requires forall i :: 0 <= i < |types| ==> types[i] in stock
    requires forall x :: x in stock ==> x in types
    requires |types| == |stock.Keys|
    ensures var rows := RowsOf(stock, types);
            && (forall i, j :: 0 <= i < j < |rows| ==> Text.Less(rows[i].bloodType, rows[j].bloodType))
            && (forall i :: 0 <= i < |rows| ==> rows[i].bloodType in stock && rows[i].volume == stock[rows[i].bloodType])
            && (forall bt :: bt in stock ==> exists i :: 0 <= i < |rows| && rows[i].bloodType == bt)
            && |rows| == |stock|
  {
    var rows := RowsOf(stock, types);
    forall bt | bt in stock
      ensures exists i :: 0 <= i < |rows| && rows[i].bloodType == bt
    {
      var i :| 0 <= i < |types| && types[i] == bt;
      assert rows[i].bloodType == bt;
    }
  }

  /** Every stock row, ordered by blood type ascending. */
  function GetAllStock(db: State): (rows: seq<BloodStock>)
    ensures forall i, j :: 0 <= i < j < |rows| ==> Text.Less(rows[i].bloodType, rows[j].bloodType)
    ensures forall i :: 0 <= i < |rows| ==>
              rows[i].bloodType in db.stock && rows[i].volume == db.stock[rows[i].bloodType]
    ensures forall bt :: bt in db.stock ==> exists i :: 0 <= i < |rows| && rows[i].bloodType == bt
    ensures |rows| == |db.stock|
  {
    var types := Text.SortedElements(db.stock.Keys);
    RowsOfSorted(db.stock, types);
    RowsOf(db.stock, types)
  }

  /** The ledger a listing describes: blood type to volume. */
  function Ledger(rows: seq<BloodStock>): map<string, int> {
    if rows == [] then map[]
    else Ledger(rows[..|rows| - 1])[rows[|rows| - 1].bloodType := rows[|rows| - 1].volume]
  }

  lemma {:induction false} LedgerOfDistinct(rows: seq<BloodStock>)
    requires forall i, j :: 0 <= i < j < |rows| ==> rows[i].bloodType != rows[j].bloodType
    ensures forall bt :: bt in Ledger(rows) ==> exists i :: 0 <= i < |rows| && rows[i].bloodType == bt
    ensures forall i :: 0 <= i < |rows| ==>
              rows[i].bloodType in Ledger(rows) && Ledger(rows)[rows[i].bloodType] == rows[i].volume
  {
    if rows != [] {
      var init := rows[..|rows| - 1];
      LedgerOfDistinct(init);
      forall bt | bt in Ledger(rows)
        ensures exists i :: 0 <= i < |rows| && rows[i].bloodType == bt
      {
        if bt != rows[|rows| - 1].bloodType {
          var i :| 0 <= i < |init| && init[i].bloodType == bt;
          assert rows[i].bloodType == bt;
        }
      }
    }
  }

  lemma AscendingTypesDistinct(rows: seq<BloodStock>)
    requires forall i, j :: 0 <= i < j < |rows| ==> Text.Less(rows[i].bloodType, rows[j].bloodType)
    ensures forall i, j :: 0 <= i < j < |rows| ==> rows[i].bloodType != rows[j].bloodType
  {
    forall i, j | 0 <= i < j < |rows|
      ensures rows[i].bloodType != rows[j].bloodType
    {
      Text.LessIrreflexive(rows[i].bloodType);
    }
  }

  /** A sorted, complete and exact listing of `stock` describes `stock` itself. */
  lemma LedgerOfListing(stock: map<string, int>, rows: seq<BloodStock>)
    requires forall i, j :: 0 <= i < j < |rows| ==> Text.Less(rows[i].bloodType, rows[j].bloodType)
    requires forall i :: 0 <= i < |rows| ==> rows[i].bloodType in stock && rows[i].volume == stock[rows[i].bloodType]
    requires forall bt :: bt in stock ==> exists i :: 0 <= i < |rows| && rows[i].bloodType == bt
    ensures Ledger(rows) == stock
  {
    AscendingTypesDistinct(rows);
    LedgerOfDistinct(rows);
    var ledger := Ledger(rows);
    assert forall bt :: bt in stock ==> bt in ledger && ledger[bt] == stock[bt] by {
      forall bt | bt in stock
        ensures bt in ledger && ledger[bt] == stock[bt]
      {
        var i :| 0 <= i < |rows| && rows[i].bloodType == bt;
      }
    }
    assert forall bt :: bt in ledger ==> bt in stock by {
      forall bt | bt in ledger
        ensures bt in stock
      {
        var i :| 0 <= i < |rows| && rows[i].bloodType == bt;
      }
    }
    SameEntries(ledger, stock);
  }

  lemma SameEntries(a: map<string, int>, b: map<string, int>)
    requires forall k :: k in b ==> k in a && a[k] == b[k]
    requires forall k :: k in a ==> k in b
    ensures a == b
  {
  }

  /** The listing loses nothing: the ledger it describes is the stored one. */
  lemma ListingRoundTrip(db: State)
    ensures Ledger(GetAllStock(db)) == db.stock
  {
    LedgerOfListing(db.stock, GetAllStock(db));
  }

  /**
   * Upsert: create the row for `bloodType` if absent, otherwise overwrite
   * its volume. Returns the new state and the stored row.
   */
  function UpdateStock(db: State, bloodType: string, volume: int): (r: (State, BloodStock))
    ensures r.1 == BloodStock(bloodType, volume)
    ensures r.0.stock.Keys == db.stock.Keys + {bloodType}
    ensures r.0.stock[bloodType] == volume
    ensures forall bt :: bt in db.stock && bt != bloodType ==> r.0.stock[bt] == db.stock[bt]
    ensures r.0 == db.(stock := r.0.stock)
  {
    (db.(stock := db.stock[bloodType := volume]), BloodStock(bloodType, volume))
  }

  /** Upserting the same row twice is the same as upserting it once. */
  lemma UpdateStockIdempotent(db: State, bloodType: string, volume: int)
    ensures UpdateStock(UpdateStock(db, bloodType, volume).0, bloodType, volume) == UpdateStock(db, bloodType, volume)
  {
    assert db.stock[bloodType := volume][bloodType := volume] == db.stock[bloodType := volume];
  }

  /** The stored volume does not depend on the previous one: no accumulation. */
  lemma UpdateStockOverwrites(db1: State, db2: State, bloodType: string, volume: int)
    requires db1 == db2.(stock := db1.stock)
    requires db1.stock - {bloodType} == db2.stock - {bloodType}
    ensures UpdateStock(db1, bloodType, volume) == UpdateStock(db2, bloodType, volume)
  {
    var m1 := db1.stock[bloodType := volume];
    var m2 := db2.stock[bloodType := volume];
    forall bt
      ensures bt in m1 <==> bt in m2
      ensures bt in m1 ==> m1[bt] == m2[bt]
    {
      if bt != bloodType {
        assert bt in db1.stock <==> bt in db1.stock - {bloodType};
        assert bt in db2.stock <==> bt in db2.stock - {bloodType};
        if bt in db1.stock {
          assert (db1.stock - {bloodType})[bt] == db1.stock[bt];
          assert (db2.stock - {bloodType})[bt] == db2.stock[bt];
        }
      }
    }
    assert m1 == m2;
  }
}
