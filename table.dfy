/**
  The page store and the two table operations. A table owns
  TABLE_MAX_PAGES page slots, each empty until a row on that page is first
  touched, and the number of rows inserted so far; row `i` lives in the
  slot `SlotAddress(i)` names.
*/
module PageStore {
  import opened Common
  import opened Layout
  import opened RowCodec

  type Page = array<byte>

  datatype ExecuteResult = ExecuteSuccess | ExecuteTableFull

  /**
    What inserting `r` into a table holding `rows` reports and leaves:
    refused when the table is at capacity, otherwise appended.
  */
  function InsertSpec(rows: seq<Row>, r: Row): (ExecuteResult, seq<Row>)
  {
    if |rows| >= TABLE_MAX_ROWS then (ExecuteTableFull, rows)
    else (ExecuteSuccess, rows + [r])
  }

  /** Insertion never takes a table past its capacity. */
  lemma InsertKeepsCapacity(rows: seq<Row>, r: Row)
    requires |rows| <= TABLE_MAX_ROWS
    ensures |InsertSpec(rows, r).1| <= TABLE_MAX_ROWS
    ensures InsertSpec(rows, r).0 == ExecuteTableFull <==> |rows| == TABLE_MAX_ROWS
  {
  }

  /**
    Packing a row into the slot of row `n` leaves the slot of every earlier
    row `i` on the same page as it was.
  */
  lemma EarlierSlotKept(before: seq<byte>, after: seq<byte>, i: nat, n: nat, packed: seq<byte>)
    requires i < n && PageOf(i) == PageOf(n) && |packed| == ROW_SIZE && |before| == PAGE_SIZE
    requires after == before[..OffsetOf(n)] + packed + before[OffsetOf(n) + ROW_SIZE..]
    ensures after[OffsetOf(i)..OffsetOf(i) + ROW_SIZE] == before[OffsetOf(i)..OffsetOf(i) + ROW_SIZE]
  {
    SlotsDisjoint(i, n);
    assert OffsetOf(i) + ROW_SIZE <= OffsetOf(n);
  }

  class Table {
    var numRows: nat
    var pages: array<Option<Page>>
    /** The rows inserted so far, in insertion order. */
    ghost var Rows: seq<Row>
    ghost var Repr: set<object>

    /**
      The table invariant: the page slots are TABLE_MAX_PAGES long, every
      allocated page is PAGE_SIZE bytes and owned by this table alone, the
      row count stays within capacity, and the slot of every row below the
      count holds that row, packed.
    */
    ghost predicate Valid()
      reads this, Repr
    {
      && this in Repr && pages in Repr
      && pages.Length == TABLE_MAX_PAGES
      && (forall p :: 0 <= p < pages.Length && pages[p].Some? ==>
            pages[p].value in Repr && pages[p].value.Length == PAGE_SIZE)
      && (forall p, q :: 0 <= p < q < pages.Length && pages[p].Some? && pages[q].Some? ==>
            pages[p].value != pages[q].value)
      && numRows == |Rows| <= TABLE_MAX_ROWS
      && (forall i :: 0 <= i < numRows ==> Holds(i, Rows[i]))
    }

    /** Row number `i` is stored, packed, in its slot. */
    ghost predicate Holds(i: nat, r: Row)
      reads this`pages, this`Repr, pages, Repr
    {
      && i < TABLE_MAX_ROWS
      && pages.Length == TABLE_MAX_PAGES
      && pages[PageOf(i)].Some?
      && pages[PageOf(i)].value in Repr
      && pages[PageOf(i)].value.Length == PAGE_SIZE
      && pages[PageOf(i)].value[OffsetOf(i)..OffsetOf(i) + ROW_SIZE] == EncodeRow(r)
    }

    /** `newTable`: an empty table with every page slot empty. */
    constructor ()
      ensures Valid() && fresh(Repr)
      ensures Rows == [] && numRows == 0
      ensures forall p :: 0 <= p < pages.Length ==> pages[p].None?
    {
      var slots := new Option<Page>[TABLE_MAX_PAGES];
      for i := 0 to TABLE_MAX_PAGES
        invariant forall p :: 0 <= p < i ==> slots[p].None?
      {
        slots[i] := None;
      }
      numRows := 0;
      pages := slots;
      Rows := [];
      Repr := {this, slots};
    }

    /**
      `rowSlot`: the page and byte offset of row `rowNum`, allocating that
      page if, and only if, it is not yet allocated. Nothing else changes.
    */
    method RowSlot(rowNum: nat) returns (pageNum: nat, byteOffset: nat)
      requires Valid()
      requires rowNum < TABLE_MAX_ROWS
      modifies this, pages
      ensures Valid() && fresh(Repr - old(Repr))
      ensures (pageNum, byteOffset) == SlotAddress(rowNum)
      ensures pageNum < pages.Length && pages[pageNum].Some?
      ensures pages == old(pages) && numRows == old(numRows) && Rows == old(Rows)
      ensures old(pages[pageNum]).Some? ==> pages[..] == old(pages[..]) && Repr == old(Repr)
      ensures old(pages[pageNum]).None? ==>
                pages[..] == old(pages[..])[pageNum := pages[pageNum]] && fresh(pages[pageNum].value)
    {
      pageNum := rowNum / ROWS_PER_PAGE;
      if pages[pageNum] == None {
        assert forall i :: 0 <= i < numRows ==> PageOf(i) != pageNum by {
          forall i | 0 <= i < numRows ensures PageOf(i) != pageNum {
            assert Holds(i, Rows[i]);
          }
        }
        var page := new byte[PAGE_SIZE];
        pages[pageNum] := Some(page);
        Repr := Repr + {page};
      }
      var rowOffset := rowNum % ROWS_PER_PAGE;
      byteOffset := rowOffset * ROW_SIZE;
    }

    /**
      `executeInsert`: at capacity, report a full table and change
      nothing; otherwise pack `r` into slot `numRows` and only then count
      it.
    */
    method ExecuteInsert(r: Row) returns (res: ExecuteResult)
      requires Valid()
      modifies Repr
      ensures Valid() && fresh(Repr - old(Repr))
      ensures (res, Rows) == InsertSpec(old(Rows), r)
      ensures res == ExecuteTableFull ==> Repr == old(Repr) && unchanged(old(Repr))
      ensures res == ExecuteSuccess ==> numRows == old(numRows) + 1
    {
      if numRows >= TABLE_MAX_ROWS {
        return ExecuteTableFull;
      }
      ghost var n := numRows;
      var pageNum, byteOffset := RowSlot(numRows);
      var page := pages[pageNum].value;
      ghost var before := page[..];
      SerializeRow(r, page, byteOffset);
      ghost var rows := Rows + [r];
      forall i | 0 <= i < n + 1
        ensures Holds(i, rows[i])
      {
        if i < n {
          assert rows[i] == Rows[i];
          if PageOf(i) == pageNum {
            EarlierSlotKept(before, page[..], i, n, EncodeRow(r));
          }
        }
      }
      numRows := numRows + 1;
      Rows := rows;
      res := ExecuteSuccess;
    }

    /**
      `executeSelect`: the rows in slots 0 .. numRows-1, in that order, as
      they would be printed; nothing is allocated and nothing changes.
    */
    method ExecuteSelect() returns (printed: seq<Row>)
      requires Valid()
      modifies this, pages
      ensures Valid() && Repr == old(Repr)
      ensures printed == Rows
      ensures pages == old(pages) && pages[..] == old(pages[..])
      ensures numRows == old(numRows) && Rows == old(Rows)
    {
      printed := [];
      var i := 0;
      while i < numRows
        invariant Valid() && Repr == old(Repr)
        invariant pages == old(pages) && pages[..] == old(pages[..])
        invariant numRows == old(numRows) && Rows == old(Rows)
        invariant 0 <= i <= numRows && printed == Rows[..i]
      {
        assert Holds(i, Rows[i]);
        var pageNum, byteOffset := RowSlot(i);
        var row := DeserializeRow(pages[pageNum].value, byteOffset);
        RowRoundTrip(Rows[i]);
        printed := printed + [row];
        i := i + 1;
      }
    }
  }

  /** A fresh table given three inserts and then a select prints those three rows, in order. */
  method InsertThreeThenSelect(r1: Row, r2: Row, r3: Row) returns (printed: seq<Row>)
    ensures printed == [r1, r2, r3]
  {
    var table := new Table();
    var res1 := table.ExecuteInsert(r1);
    var res2 := table.ExecuteInsert(r2);
    var res3 := table.ExecuteInsert(r3);
    printed := table.ExecuteSelect();
  }

  /**
    Asking twice for the slot of the same row gives the same slot, and the
    second request allocates nothing and changes nothing.
  */
  method RowSlotTwice(table: Table, rowNum: nat) returns (first: (nat, nat), second: (nat, nat))
    requires table.Valid() && rowNum < TABLE_MAX_ROWS
    modifies table, table.pages
    ensures table.Valid() && first == second == SlotAddress(rowNum)
  {
    var pageNum, byteOffset := table.RowSlot(rowNum);
    first := (pageNum, byteOffset);
    ghost var pagesBefore := table.pages[..];
    ghost var reprBefore := table.Repr;
    pageNum, byteOffset := table.RowSlot(rowNum);
    second := (pageNum, byteOffset);
    assert table.pages[..] == pagesBefore && table.Repr == reprBefore;
  }
}
