/** Concrete plays on the model of game.js: a piece falling to the floor
    and a lock that completes the bottom row. */
module Scenarios {
  import opened Shapes
  import opened Playfield
  import opened Session

  /** A running game on an empty board with an O piece at column 4, row y. */
  function OPieceAt(y: int): (g: Game)
    ensures WellFormed(g)
  {
    var g := NewGame(1);
    g.(piece := g.piece.(x := 4, y := y))
  }

  /** On an empty board an O piece at column 4 moves down freely until its
      lower half lies on the bottom row, at y = 18, and no further: the
      O grid occupies grid rows 0 and 1, so the piece rests at y = 18. */
  lemma OPieceRestsAtRow18(y: int)
    requires 0 <= y <= 18
    ensures Move(OPieceAt(y), 0, 1).moved <==> y < 18
  {
    var g := OPieceAt(y);
    var o := SHAPES[1][0];
    assert g.piece.shape == o;
    if y < 18 {
      forall i, j | 0 <= i < |o| && 0 <= j < |o[i]| && o[i][j] != 0
        ensures !Blocked(g.board, 4 + j, y + 1 + i)
      {
        assert i <= 1 && 1 <= j <= 2;
      }
    } else {
      assert o[1][1] != 0 && Blocked(g.board, 4 + 1, y + 1 + 1);
    }
  }

  /** The bottom row filled with colour 1 except at column 5. */
  function GapBoard(): (b: Board)
    ensures IsBoard(b)
  {
    CreateBoard()[ROWS - 1 := seq(COLS, c => if c == 5 then 0 else 1)]
  }

  /** An upright I piece whose column lies over the gap, resting on the
      floor: its cells are column 5 of rows 16 to 19. */
  function UprightI(): (p: Piece)
    ensures ValidPiece(p)
  {
    Piece(0, SHAPES[0][1], 3, 16, 1)
  }

  /** Column 5 filled with colour 1 from row `from` down, all else empty. */
  function Column5From(from: int): (b: Board)
    ensures IsBoard(b)
  {
    seq(ROWS, r => seq(COLS, c => if c == 5 && r >= from then 1 else 0))
  }

  /** A row of colour 1 in every cell. */
  const FULL_ROW: seq<int> := seq(COLS, _ => 1)

  /** Locking the upright I writes column 5 of rows 16 to 19, which
      completes the bottom row. */
  lemma UprightILocksIntoGap()
    ensures Fits(UprightI().shape, 3, 16)
    ensures Overlaps(GapBoard(), UprightI().shape, 3, 17)
    ensures Merge(GapBoard(), UprightI()) == Column5From(16)[ROWS - 1 := FULL_ROW]
  {
    var b, p := GapBoard(), UprightI();
    var i := SHAPES[0][1];
    assert p.shape == i;
    forall a, c | 0 <= a < |i| && 0 <= c < |i[a]| && i[a][c] != 0
      ensures c == 2
    {
    }
    assert i[3][2] != 0 && Blocked(b, 3 + 2, 16 + 1 + 3);
    var m := Merge(b, p);
    var want := Column5From(16)[ROWS - 1 := FULL_ROW];
    forall r | 0 <= r < ROWS
      ensures m[r] == want[r]
    {
      forall c | 0 <= c < COLS
        ensures m[r][c] == want[r][c]
      {
        assert Covers(i, 3, 16, r, c) <==> c == 5 && r >= 16;
      }
    }
  }

  /** Clearing that board removes the bottom row alone. */
  lemma GapRowClears()
    ensures ClearLines(Column5From(16)[ROWS - 1 := FULL_ROW]) == Cleared(Column5From(17), 1)
  {
    var m := Column5From(16)[ROWS - 1 := FULL_ROW];
    var above := m[..ROWS - 1];
    forall row | 0 <= row < |above|
      ensures !IsFull(above[row])
    {
      assert above[row][0] == 0;
    }
    assert IsFull(m[ROWS - 1]);
    assert m == above + [m[ROWS - 1]];
    NonFullAppend(above, [m[ROWS - 1]]);
    assert [m[ROWS - 1]][..0] == [];
    NoFullRowsCountZero(above);
    NonFullRowsFacts(above);
    var want := Column5From(17);
    forall row | 0 <= row < ROWS
      ensures ([EMPTY_ROW] + above)[row] == want[row]
    {
      forall c | 0 <= c < COLS
        ensures ([EMPTY_ROW] + above)[row][c] == want[row][c]
      {
      }
    }
    assert [EMPTY_ROW] + above == want;
  }

  /** Gravity locks the upright I into the gap; the bottom row becomes
      full and is cleared in the same step, scoring 100, and the I's upper
      three cells move down one row. The next piece spawns freely. */
  lemma UprightIClearsTheBottomRow(nextKind: int)
    requires 0 <= nextKind < |SHAPES|
    ensures var r := Drop(Game(GapBoard(), UprightI(), 0, false, Timer(0, 0)), nextKind);
      && r.score == 100
      && !r.gameOver
      && r.board == Column5From(17)
  {
    UprightILocksIntoGap();
    GapRowClears();
    CatalogueWellFormed();
    var q := CreatePiece(nextKind);
    var b := Column5From(17);
    forall a, c | 0 <= a < |q.shape| && 0 <= c < |q.shape[a]| && q.shape[a][c] != 0
      ensures !Blocked(b, q.x + c, q.y + a)
    {
      assert IsShapeOf(q.shape, nextKind);
    }
  }
}
