/** The playfield of the falling-block game: the board of settled cells,
    the falling piece, the collision test, locking a piece into the board
    and clearing full rows (game.js:133-149, 191-246). */
module Playfield {
  import opened Shapes

  /** Rows of settled cell values, 0 meaning empty and 1..7 a piece colour. */
  type Board = seq<seq<int>>

  /** A board of ROWS rows of COLS cells each. */
  predicate IsBoard(b: Board)
  {
    |b| == ROWS && forall r :: 0 <= r < |b| ==> |b[r]| == COLS
  }

  /** Every cell holds 0 or a piece colour 1..7. */
  ghost predicate CellsInRange(b: Board)
  {
    forall r, c :: 0 <= r < |b| && 0 <= c < |b[r]| ==> 0 <= b[r][c] <= 7
  }

  /** A row of COLS empty cells. */
  const EMPTY_ROW: seq<int> := [0, 0, 0, 0, 0, 0, 0, 0, 0, 0]

  function CreateBoard(): (b: Board)
    ensures IsBoard(b) && CellsInRange(b)
    ensures forall r, c :: 0 <= r < ROWS && 0 <= c < COLS ==> b[r][c] == 0
  {
    seq(ROWS, _ => EMPTY_ROW)
  }

  /** The falling piece. As in game.js it carries its current grid
      (`shape`) alongside the kind and rotation index it came from. */
  datatype Piece = Piece(kind: int, shape: Grid, x: int, y: int, rotation: int)

  /** The grid is the catalogue entry that kind and rotation name. */
  predicate ValidPiece(p: Piece)
  {
    && 0 <= p.kind < |SHAPES|
    && 0 <= p.rotation < |SHAPES[p.kind]|
    && p.shape == SHAPES[p.kind][p.rotation]
  }

  /** A new piece of the given kind; the kind is drawn at random by the
      caller of this model. */
  function CreatePiece(kind: int): (p: Piece)
    requires 0 <= kind < |SHAPES|
    ensures ValidPiece(p) && p.kind == kind && p.rotation == 0
    ensures p.x == 3 && p.y == 0
  {
    Piece(kind, SHAPES[kind][0], COLS / 2 - 2, 0, 0)
  }

  // ---------------------------------------------------------------------
  // Collision

  /** An occupied piece cell landing on board position (col, row) is
      illegal: off either side, below the floor, or on a settled cell.
      Rows above the top only have their column checked. */
  predicate Blocked(b: Board, col: int, row: int)
    requires IsBoard(b)
  {
    col < 0 || col >= COLS || row >= ROWS || (row >= 0 && b[row][col] != 0)
  }

  /** Reference definition: some occupied cell of `shape`, placed with its
      origin at (ox, oy), is blocked. */
  ghost predicate Overlaps(b: Board, shape: Grid, ox: int, oy: int)
    requires IsBoard(b)
  {
    exists i, j :: 0 <= i < |shape| && 0 <= j < |shape[i]| && shape[i][j] != 0 && Blocked(b, ox + j, oy + i)
  }

  /** Cell (a, c) comes at or after cell (i, j) in row-major order. */
  predicate AtOrAfter(a: int, c: int, i: int, j: int)
  {
    a > i || (a == i && c >= j)
  }

  /** `collide`'s nested scan over the grid, row by row, returning true at
      the first blocked occupied cell from (i, j) onwards. */
  function ScanCells(b: Board, shape: Grid, ox: int, oy: int, i: nat, j: nat): (hit: bool)
    requires IsBoard(b)
    requires i <= |shape| && (i < |shape| ==> j <= |shape[i]|)
    ensures hit <==> exists a, c :: 0 <= a < |shape| && 0 <= c < |shape[a]| && AtOrAfter(a, c, i, j)
                                    && shape[a][c] != 0 && Blocked(b, ox + c, oy + a)
    decreases |shape| - i, if i < |shape| then |shape[i]| - j else 0
  {
    if i == |shape| then false
    else if j == |shape[i]| then ScanCells(b, shape, ox, oy, i + 1, 0)
    else if shape[i][j] != 0 && Blocked(b, ox + j, oy + i) then true
    else ScanCells(b, shape, ox, oy, i, j + 1)
  }

  /** `collide(piece, board, dx, dy)`: the piece shifted by (dx, dy) has an
      occupied cell that is blocked. */
  function Collide(p: Piece, b: Board, dx: int, dy: int): (hit: bool)
    requires IsBoard(b)
    ensures hit <==> Overlaps(b, p.shape, p.x + dx, p.y + dy)
  {
    ScanCells(b, p.shape, p.x + dx, p.y + dy, 0, 0)
  }

  // ---------------------------------------------------------------------
  // Locking a piece into the board

  /** Every occupied cell lies within the side walls and above the floor,
      so writing it into the board stays inside the board (cells above the
      top are skipped). */
  ghost predicate Fits(shape: Grid, ox: int, oy: int)
  {
    forall i, j :: 0 <= i < |shape| && 0 <= j < |shape[i]| && shape[i][j] != 0 ==>
      0 <= ox + j < COLS && oy + i < ROWS
  }

  lemma FreeImpliesFits(b: Board, shape: Grid, ox: int, oy: int)
    requires IsBoard(b)
    requires !Overlaps(b, shape, ox, oy)
    ensures Fits(shape, ox, oy)
  {
    forall i, j | 0 <= i < |shape| && 0 <= j < |shape[i]| && shape[i][j] != 0
      ensures 0 <= ox + j < COLS && oy + i < ROWS
    {
      assert !Blocked(b, ox + j, oy + i);
    }
  }

  /** Board cell (r, c) lies under an occupied cell of `shape` placed at
      (ox, oy), among grid rows `from` onwards. */
  predicate CoversFrom(shape: Grid, ox: int, oy: int, from: int, r: int, c: int)
  {
    0 <= from <= r - oy < |shape| && 0 <= c - ox < |shape[r - oy]| && shape[r - oy][c - ox] != 0
  }

  /** Board cell (r, c) lies under an occupied cell of `shape` at (ox, oy). */
  predicate Covers(shape: Grid, ox: int, oy: int, r: int, c: int)
  {
    CoversFrom(shape, ox, oy, 0, r, c)
  }

  /** Writes the occupied cells `cells[j..]` of one grid row into board row
      `row`, starting at column `ox + j`; rows above the top are skipped. */
  function MergeRow(b: Board, cells: seq<int>, ox: int, row: int, j: nat): (m: Board)
    requires IsBoard(b) && j <= |cells|
    requires forall k :: j <= k < |cells| && cells[k] != 0 ==> 0 <= ox + k < COLS && row < ROWS
    ensures IsBoard(m)
    ensures forall r, c :: 0 <= r < ROWS && 0 <= c < COLS ==>
              m[r][c] == if r == row && j <= c - ox < |cells| && cells[c - ox] != 0 then cells[c - ox] else b[r][c]
    decreases |cells| - j
  {
    if j == |cells| then b
    else if cells[j] != 0 && row >= 0 then
      MergeRow(b[row := b[row][ox + j := cells[j]]], cells, ox, row, j + 1)
    else
      MergeRow(b, cells, ox, row, j + 1)
  }

  /** Writes grid rows `i..` of `shape` placed at (ox, oy) into the board. */
  function MergeRows(b: Board, shape: Grid, ox: int, oy: int, i: nat): (m: Board)
    requires IsBoard(b) && Fits(shape, ox, oy) && i <= |shape|
    ensures IsBoard(m)
    ensures forall r, c :: 0 <= r < ROWS && 0 <= c < COLS ==>
              m[r][c] == if CoversFrom(shape, ox, oy, i, r, c) then shape[r - oy][c - ox] else b[r][c]
    decreases |shape| - i
  {
    if i == |shape| then b
    else MergeRows(MergeRow(b, shape[i], ox, oy + i, 0), shape, ox, oy, i + 1)
  }

  /** `mergePiece`: the board with the piece's occupied cells written in. */
  function Merge(b: Board, p: Piece): (m: Board)
    requires IsBoard(b) && Fits(p.shape, p.x, p.y)
    ensures IsBoard(m)
    ensures forall r, c :: 0 <= r < ROWS && 0 <= c < COLS ==>
              m[r][c] == if Covers(p.shape, p.x, p.y, r, c) then p.shape[r - p.y][c - p.x] else b[r][c]
  {
    MergeRows(b, p.shape, p.x, p.y, 0)
  }

  /** Locking a piece that does not collide only fills empty cells, and a
      piece of the catalogue only writes its own colour. */
  lemma MergeFillsFreeCells(b: Board, p: Piece)
    requires IsBoard(b) && CellsInRange(b) && ValidPiece(p)
    requires !Collide(p, b, 0, 0)
    ensures Fits(p.shape, p.x, p.y)
    ensures forall r, c :: 0 <= r < ROWS && 0 <= c < COLS && Covers(p.shape, p.x, p.y, r, c) ==>
              b[r][c] == 0 && Merge(b, p)[r][c] == p.kind + 1
    ensures CellsInRange(Merge(b, p))
  {
    FreeImpliesFits(b, p.shape, p.x, p.y);
    PieceShape(p);
    var m := Merge(b, p);
    forall r, c | 0 <= r < ROWS && 0 <= c < COLS && Covers(p.shape, p.x, p.y, r, c)
      ensures b[r][c] == 0 && m[r][c] == p.kind + 1
    {
      var i, j := r - p.y, c - p.x;
      assert p.shape[i][j] != 0;
      assert !Blocked(b, p.x + j, p.y + i);
    }
    forall r, c | 0 <= r < |m| && 0 <= c < |m[r]|
      ensures 0 <= m[r][c] <= 7
    {
      if Covers(p.shape, p.x, p.y, r, c) {
        assert m[r][c] == p.kind + 1;
      } else {
        assert m[r][c] == b[r][c];
      }
    }
  }

  /** The grid of a catalogue piece holds only empty cells and its colour. */
  lemma PieceShape(p: Piece)
    requires ValidPiece(p)
    ensures IsShapeOf(p.shape, p.kind)
  {
    CatalogueWellFormed();
  }

  // ---------------------------------------------------------------------
  // Clearing full rows

  /** Every cell of the row is occupied. */
  predicate IsFull(row: seq<int>)
  {
    forall c :: 0 <= c < |row| ==> row[c] != 0
  }

  /** Number of full rows. */
  function FullCount(rows: seq<seq<int>>): nat
  {
    if |rows| == 0 then 0
    else FullCount(rows[..|rows| - 1]) + (if IsFull(rows[|rows| - 1]) then 1 else 0)
  }

  /** The rows that are not full, in their original order. */
  function NonFullRows(rows: seq<seq<int>>): seq<seq<int>>
  {
    if |rows| == 0 then []
    else NonFullRows(rows[..|rows| - 1]) + (if IsFull(rows[|rows| - 1]) then [] else [rows[|rows| - 1]])
  }

  /** `n` empty rows. */
  function EmptyRows(n: nat): seq<seq<int>>
  {
    seq(n, _ => EMPTY_ROW)
  }

  lemma EmptyRowNotFull()
    ensures !IsFull(EMPTY_ROW)
  {
    assert EMPTY_ROW[0] == 0;
  }

  lemma {:induction false} PrependNonFull(e: seq<int>, rows: seq<seq<int>>)
    requires !IsFull(e)
    ensures FullCount([e] + rows) == FullCount(rows)
    ensures NonFullRows([e] + rows) == [e] + NonFullRows(rows)
    decreases |rows|
  {
    if |rows| == 0 {
      assert ([e] + rows)[..0] == [];
    } else {
      var n := |rows|;
      assert ([e] + rows)[..n] == [e] + rows[..n - 1];
      PrependNonFull(e, rows[..n - 1]);
    }
  }

  /** Filtering splits over concatenation. */
  lemma {:induction false} NonFullAppend(xs: seq<seq<int>>, ys: seq<seq<int>>)
    ensures FullCount(xs + ys) == FullCount(xs) + FullCount(ys)
    ensures NonFullRows(xs + ys) == NonFullRows(xs) + NonFullRows(ys)
    decreases |ys|
  {
    if |ys| == 0 {
      assert xs + ys == xs;
    } else {
      var n := |ys|;
      assert (xs + ys)[..|xs + ys| - 1] == xs + ys[..n - 1];
      NonFullAppend(xs, ys[..n - 1]);
    }
  }

  /** Result of `clearLines`: the new board and the number of rows removed. */
  datatype Cleared = Cleared(board: Board, lines: nat)

  /** `clearLines`' loop from row `y` upwards: a full row is removed, an
      empty row is put on top and the same index is scanned again;
      otherwise the scan moves one row up. Rows below `y` are untouched. */
  function ClearScan(b: Board, y: int, cleared: nat): (r: Cleared)
    requires -1 <= y < |b|
    ensures r.board == EmptyRows(FullCount(b[..y + 1])) + NonFullRows(b[..y + 1]) + b[y + 1..]
    ensures r.lines == cleared + FullCount(b[..y + 1])
    decreases y + 1 + FullCount(b[..y + 1])
  {
    if y < 0 then Cleared(b, cleared)
    else if IsFull(b[y]) then
      RemoveRowStep(b, y);
      ClearScan([EMPTY_ROW] + b[..y] + b[y + 1..], y, cleared + 1)
    else
      KeepRowStep(b, y);
      ClearScan(b, y - 1, cleared)
  }

  /** Removing full row `y` and putting an empty row on top leaves one
      full row fewer at or above `y`, and the same final layout. */
  lemma RemoveRowStep(b: Board, y: int)
    requires 0 <= y < |b| && IsFull(b[y])
    ensures var b' := [EMPTY_ROW] + b[..y] + b[y + 1..];
      && |b'| == |b|
      && FullCount(b'[..y + 1]) + 1 == FullCount(b[..y + 1])
      && EmptyRows(FullCount(b'[..y + 1])) + NonFullRows(b'[..y + 1]) + b'[y + 1..]
         == EmptyRows(FullCount(b[..y + 1])) + NonFullRows(b[..y + 1]) + b[y + 1..]
  {
    var b' := [EMPTY_ROW] + b[..y] + b[y + 1..];
    EmptyRowNotFull();
    assert b[..y + 1] == b[..y] + [b[y]];
    NonFullAppend(b[..y], [b[y]]);
    assert [b[y]][..0] == [];
    assert b'[..y + 1] == [EMPTY_ROW] + b[..y];
    PrependNonFull(EMPTY_ROW, b[..y]);
    assert b'[y + 1..] == b[y + 1..];
    assert EmptyRows(FullCount(b'[..y + 1])) + [EMPTY_ROW] == EmptyRows(FullCount(b[..y + 1]));
  }

  /** Skipping a row that is not full leaves the final layout unchanged. */
  lemma KeepRowStep(b: Board, y: int)
    requires 0 <= y < |b| && !IsFull(b[y])
    ensures FullCount(b[..y]) == FullCount(b[..y + 1])
    ensures EmptyRows(FullCount(b[..y])) + NonFullRows(b[..y]) + b[y..]
         == EmptyRows(FullCount(b[..y + 1])) + NonFullRows(b[..y + 1]) + b[y + 1..]
  {
    assert b[..y + 1] == b[..y] + [b[y]];
    NonFullAppend(b[..y], [b[y]]);
    assert [b[y]][..0] == [];
    assert b[y..] == [b[y]] + b[y + 1..];
  }

  /** `clearLines`: scans from the bottom row to the top. */
  function ClearLines(b: Board): (r: Cleared)
    requires IsBoard(b)
    ensures r.board == EmptyRows(FullCount(b)) + NonFullRows(b)
    ensures r.lines == FullCount(b)
  {
    assert b[..ROWS] == b && b[ROWS..] == [];
    ClearScan(b, ROWS - 1, 0)
  }

  /** Filtering keeps exactly the rows that are not full, each taken from
      the input, and accounts for every row. */
  lemma NonFullRowsFacts(rows: seq<seq<int>>)
    ensures |NonFullRows(rows)| + FullCount(rows) == |rows|
    ensures forall k :: 0 <= k < |NonFullRows(rows)| ==>
              !IsFull(NonFullRows(rows)[k]) && NonFullRows(rows)[k] in rows
    ensures FullCount(rows) == 0 ==> NonFullRows(rows) == rows
  {
    NonFullRowsCount(rows);
    NonFullRowsMembers(rows);
    NonFullRowsKeepAll(rows);
  }

  lemma {:induction false} NonFullRowsCount(rows: seq<seq<int>>)
    ensures |NonFullRows(rows)| + FullCount(rows) == |rows|
    decreases |rows|
  {
    if |rows| > 0 {
      NonFullRowsCount(rows[..|rows| - 1]);
    }
  }

  lemma {:induction false} NonFullRowsMembers(rows: seq<seq<int>>)
    ensures forall k :: 0 <= k < |NonFullRows(rows)| ==>
              !IsFull(NonFullRows(rows)[k]) && NonFullRows(rows)[k] in rows
    decreases |rows|
  {
    if |rows| > 0 {
      var n := |rows|;
      var init, last := rows[..n - 1], rows[n - 1];
      NonFullRowsMembers(init);
      var kept, tail := NonFullRows(init), if IsFull(last) then [] else [last];
      assert NonFullRows(rows) == kept + tail;
      forall k | 0 <= k < |kept + tail|
        ensures !IsFull((kept + tail)[k]) && (kept + tail)[k] in rows
      {
        if k < |kept| {
          assert (kept + tail)[k] == kept[k];
          var i :| 0 <= i < |init| && init[i] == kept[k];
          assert rows[i] == init[i];
        } else {
          assert (kept + tail)[k] == rows[n - 1];
        }
      }
    }
  }

  lemma {:induction false} NonFullRowsKeepAll(rows: seq<seq<int>>)
    ensures FullCount(rows) == 0 ==> NonFullRows(rows) == rows
    decreases |rows|
  {
    if |rows| > 0 {
      var n := |rows|;
      NonFullRowsKeepAll(rows[..n - 1]);
      assert rows == rows[..n - 1] + [rows[n - 1]];
    }
  }

  /** `clearLines` keeps the board's shape and its colours, leaves no full
      row behind and removes at most every row. */
  lemma ClearLinesWellFormed(b: Board)
    requires IsBoard(b)
    ensures var r := ClearLines(b);
      && IsBoard(r.board)
      && r.lines <= ROWS
      && (forall k :: 0 <= k < ROWS ==> !IsFull(r.board[k]))
      && (CellsInRange(b) ==> CellsInRange(r.board))
  {
    var r := ClearLines(b);
    NonFullRowsFacts(b);
    EmptyRowNotFull();
    var e := EmptyRows(FullCount(b));
    assert r.board == e + NonFullRows(b);
    forall k | 0 <= k < ROWS
      ensures |r.board[k]| == COLS && !IsFull(r.board[k])
      ensures CellsInRange(b) ==> forall c :: 0 <= c < COLS ==> 0 <= r.board[k][c] <= 7
    {
      if k < |e| {
        assert r.board[k] == EMPTY_ROW;
      } else {
        var row := NonFullRows(b)[k - |e|];
        assert r.board[k] == row;
        assert row in b;
      }
    }
  }

  /** A board without full rows is left as it is. */
  lemma ClearLinesNothingFull(b: Board)
    requires IsBoard(b)
    requires forall k :: 0 <= k < ROWS ==> !IsFull(b[k])
    ensures ClearLines(b) == Cleared(b, 0)
  {
    NoFullRowsCountZero(b);
    NonFullRowsFacts(b);
  }

  lemma {:induction false} NoFullRowsCountZero(rows: seq<seq<int>>)
    requires forall k :: 0 <= k < |rows| ==> !IsFull(rows[k])
    ensures FullCount(rows) == 0
    decreases |rows|
  {
    if |rows| > 0 {
      NoFullRowsCountZero(rows[..|rows| - 1]);
    }
  }
}
