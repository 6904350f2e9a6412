/**
  The playing field: a GRID_HEIGHT x GRID_WIDTH grid of 0/1 cells, row 0 at the top,
  and the row-clearing rule that `clear_lines` implements.
*/
module Board {

  const GRID_WIDTH: int := 100
  const GRID_HEIGHT: int := 32

  /** A grid or shape cell. The game only ever stores 0 (empty) or 1 (filled) in its `u8` cells. */
  type Bit = b: int | 0 <= b <= 1

  /** One grid row, ordered by column. */
  type Row = seq<Bit>

  /** A board has GRID_HEIGHT rows of GRID_WIDTH cells each. */
  predicate WellFormed(b: seq<Row>) {
    |b| == GRID_HEIGHT && forall y :: 0 <= y < |b| ==> |b[y]| == GRID_WIDTH
  }

  const EMPTY_ROW: Row := seq(GRID_WIDTH, _ => 0)

  function EmptyRows(n: nat): seq<Row> {
    seq(n, _ => EMPTY_ROW)
  }

  /** The board of a new game: every cell empty. */
  function EmptyBoard(): seq<Row> {
    EmptyRows(GRID_HEIGHT)
  }

  /** A row is complete when every one of its cells is filled. */
  predicate IsFull(row: Row) {
    forall x :: 0 <= x < |row| ==> row[x] == 1
  }

  predicate NoFullRow(rows: seq<Row>) {
    forall y :: 0 <= y < |rows| ==> !IsFull(rows[y])
  }

  /** The rows that are not complete, in their original top-to-bottom order. */
  function NonFullRows(rows: seq<Row>): seq<Row> {
    if rows == [] then []
    else (if IsFull(rows[0]) then [] else [rows[0]]) + NonFullRows(rows[1..])
  }

  /** The number of complete rows. */
  function FullRowCount(rows: seq<Row>): nat {
    if rows == [] then 0
    else (if IsFull(rows[0]) then 1 else 0) + FullRowCount(rows[1..])
  }

  /**
    What a line clear leaves behind: the complete rows are removed, the remaining rows
    stack at the bottom in their original order, and empty rows fill the top.
  */
  function ClearedBoard(b: seq<Row>): seq<Row> {
    EmptyRows(FullRowCount(b)) + NonFullRows(b)
  }

  /** The number of filled cells of a row. */
  function RowCellCount(row: Row): nat {
    if row == [] then 0 else row[0] + RowCellCount(row[1..])
  }

  /** The number of filled cells of a board. */
  function CellCount(rows: seq<Row>): nat {
    if rows == [] then 0 else RowCellCount(rows[0]) + CellCount(rows[1..])
  }

  // ---------------------------------------------------------------------------
  // Properties of the line clear
  // ---------------------------------------------------------------------------

  /** Every row is either kept or counted as cleared. */
  lemma {:induction false} KeptPlusCleared(rows: seq<Row>)
    ensures |NonFullRows(rows)| + FullRowCount(rows) == |rows|
  {
    if rows != [] {
      KeptPlusCleared(rows[1..]);
    }
  }

  /** Selecting the incomplete rows respects concatenation, so it keeps their relative order. */
  lemma {:induction false} NonFullRowsAppend(a: seq<Row>, b: seq<Row>)
    ensures NonFullRows(a + b) == NonFullRows(a) + NonFullRows(b)
    ensures FullRowCount(a + b) == FullRowCount(a) + FullRowCount(b)
  {
    if a == [] {
      assert a + b == b;
    } else {
      var h := if IsFull(a[0]) then [] else [a[0]];
      var ka, kb := NonFullRows(a[1..]), NonFullRows(b);
      assert a + b == [a[0]] + (a[1..] + b);
      RowsCons(a[0], a[1..] + b);
      NonFullRowsAppend(a[1..], b);
      assert a == [a[0]] + a[1..];
      RowsCons(a[0], a[1..]);
      assert h + (ka + kb) == (h + ka) + kb;
    }
  }

  /** One step of both recursions on a board that starts with row `h`. */
  lemma RowsCons(h: Row, t: seq<Row>)
    ensures NonFullRows([h] + t) == (if IsFull(h) then [] else [h]) + NonFullRows(t)
    ensures FullRowCount([h] + t) == (if IsFull(h) then 1 else 0) + FullRowCount(t)
  {
    assert ([h] + t)[0] == h && ([h] + t)[1..] == t;
  }

  /** The kept rows are exactly the incomplete rows of the input. */
  lemma {:induction false} NonFullRowsMembers(rows: seq<Row>)
    ensures NoFullRow(NonFullRows(rows))
    ensures forall r :: r in NonFullRows(rows) <==> r in rows && !IsFull(r)
  {
    if rows != [] {
      NonFullRowsMembers(rows[1..]);
      assert rows == [rows[0]] + rows[1..];
    }
  }

  /** A board without a complete row is left as it is. */
  lemma {:induction false} NoFullRowKept(rows: seq<Row>)
    requires NoFullRow(rows)
    ensures NonFullRows(rows) == rows && FullRowCount(rows) == 0
  {
    if rows != [] {
      NoFullRowKept(rows[1..]);
    }
  }

  /** If no row is removed, every row is kept. */
  lemma {:induction false} AllKept(rows: seq<Row>)
    requires FullRowCount(rows) == 0
    ensures NonFullRows(rows) == rows
  {
    if rows != [] {
      AllKept(rows[1..]);
    }
  }

  lemma EmptyRowNotFull()
    ensures !IsFull(EMPTY_ROW)
  {
    assert EMPTY_ROW[0] == 0;
  }

  /**
    The line clear keeps the board's shape; its top k rows are empty and the rows below
    them are the incomplete rows in order, where k is the number of complete rows.
  */
  lemma ClearedBoardShape(b: seq<Row>)
    requires WellFormed(b)
    ensures WellFormed(ClearedBoard(b))
    ensures forall y :: 0 <= y < FullRowCount(b) ==> ClearedBoard(b)[y] == EMPTY_ROW
    ensures ClearedBoard(b)[FullRowCount(b)..] == NonFullRows(b)
    ensures NoFullRow(ClearedBoard(b))
  {
    KeptPlusCleared(b);
    NonFullRowsMembers(b);
    EmptyRowNotFull();
    var c := ClearedBoard(b);
    var k := FullRowCount(b);
    forall y | 0 <= y < |c|
      ensures |c[y]| == GRID_WIDTH && !IsFull(c[y])
    {
      if y >= k {
        assert c[y] == NonFullRows(b)[y - k];
        assert c[y] in NonFullRows(b);
      }
    }
  }

  /** With no complete row the clear changes nothing. */
  lemma NoFullRowUnchanged(b: seq<Row>)
    requires FullRowCount(b) == 0
    ensures ClearedBoard(b) == b
  {
    AllKept(b);
    assert EmptyRows(0) == [];
  }

  /** Clearing twice is the same as clearing once: no complete row survives a clear. */
  lemma ClearIdempotent(b: seq<Row>)
    requires WellFormed(b)
    ensures ClearedBoard(ClearedBoard(b)) == ClearedBoard(b)
  {
    ClearedBoardShape(b);
    NoFullRowKept(ClearedBoard(b));
    NoFullRowUnchanged(ClearedBoard(b));
  }

  /** A board whose rows are each complete or empty is cleared to the empty board. */
  lemma {:induction false} FullOrEmptyClearsToEmpty(b: seq<Row>)
    requires forall y :: 0 <= y < |b| ==> IsFull(b[y]) || b[y] == EMPTY_ROW
    ensures NonFullRows(b) == EmptyRows(|NonFullRows(b)|)
    ensures ClearedBoard(b) == EmptyRows(|b|)
  {
    KeptPlusCleared(b);
    if b != [] {
      FullOrEmptyClearsToEmpty(b[1..]);
      if !IsFull(b[0]) {
        assert [b[0]] + EmptyRows(|NonFullRows(b[1..])|) == EmptyRows(|NonFullRows(b)|);
      } else {
        assert NonFullRows(b) == NonFullRows(b[1..]);
      }
    }
  }

  /** The empty board stays empty. */
  lemma EmptyBoardClear()
    ensures FullRowCount(EmptyBoard()) == 0
    ensures ClearedBoard(EmptyBoard()) == EmptyBoard()
  {
    EmptyRowNotFull();
    NoFullRowKept(EmptyBoard());
    NoFullRowUnchanged(EmptyBoard());
  }

  lemma {:induction false} FullRowCellCount(row: Row)
    requires IsFull(row)
    ensures RowCellCount(row) == |row|
  {
    if row != [] {
      FullRowCellCount(row[1..]);
    }
  }

  lemma {:induction false} EmptyRowsCellCount(n: nat)
    ensures CellCount(EmptyRows(n)) == 0
  {
    if n > 0 {
      assert EmptyRows(n)[1..] == EmptyRows(n - 1);
      EmptyRowsCellCount(n - 1);
      assert RowCellCount(EMPTY_ROW) == 0 by {
        EmptyRowCellCount(EMPTY_ROW);
      }
    }
  }

  lemma {:induction false} EmptyRowCellCount(row: Row)
    requires forall x :: 0 <= x < |row| ==> row[x] == 0
    ensures RowCellCount(row) == 0
  {
    if row != [] {
      EmptyRowCellCount(row[1..]);
    }
  }

  lemma {:induction false} CellCountAppend(a: seq<Row>, b: seq<Row>)
    ensures CellCount(a + b) == CellCount(a) + CellCount(b)
  {
    if a == [] {
      assert a + b == b;
    } else {
      assert (a + b)[1..] == a[1..] + b;
      CellCountAppend(a[1..], b);
    }
  }

  lemma {:induction false} NonFullRowsCellCount(rows: seq<Row>)
    requires forall y :: 0 <= y < |rows| ==> |rows[y]| == GRID_WIDTH
    ensures CellCount(NonFullRows(rows)) + GRID_WIDTH * FullRowCount(rows) == CellCount(rows)
  {
    if rows != [] {
      NonFullRowsCellCount(rows[1..]);
      if IsFull(rows[0]) {
        FullRowCellCount(rows[0]);
        assert NonFullRows(rows) == NonFullRows(rows[1..]);
      } else {
        CellCountAppend([rows[0]], NonFullRows(rows[1..]));
      }
    }
  }

  /** A clear removes exactly the cells of the complete rows: no cell appears or reappears. */
  lemma ClearRemovesFullRowCells(b: seq<Row>)
    requires WellFormed(b)
    ensures CellCount(ClearedBoard(b)) == CellCount(b) - GRID_WIDTH * FullRowCount(b)
  {
    NonFullRowsCellCount(b);
    EmptyRowsCellCount(FullRowCount(b));
    CellCountAppend(EmptyRows(FullRowCount(b)), NonFullRows(b));
  }

  /**
    If every complete row lies in the band of rows [lo, hi), at most hi - lo rows are
    complete.
  */
  lemma {:induction false} FullRowsInBand(rows: seq<Row>, lo: int, hi: int)
    requires lo <= hi
    requires forall y :: 0 <= y < |rows| && IsFull(rows[y]) ==> lo <= y < hi
    ensures FullRowCount(rows) <= hi - lo
  {
    if rows != [] {
      forall y | 0 <= y < |rows[1..]| && IsFull(rows[1..][y])
        ensures lo - 1 <= y < hi - 1
      {
        assert rows[1..][y] == rows[y + 1];
      }
      if IsFull(rows[0]) {
        assert lo <= 0 < hi;
        forall y | 0 <= y < |rows[1..]| && IsFull(rows[1..][y])
          ensures 0 <= y < hi - 1
        {
          assert rows[1..][y] == rows[y + 1];
        }
        FullRowsInBand(rows[1..], 0, hi - 1);
      } else {
        FullRowsInBand(rows[1..], lo - 1, hi - 1);
      }
    }
  }
}
