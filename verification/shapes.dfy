/** The fixed dimensions of the playfield and the catalogue of the seven
    falling pieces (I, O, T, S, Z, J, L), each listed as pre-rotated 4x4
    grids. A grid cell is 0 (empty) or the kind's index plus one. */
module Shapes {

  /** Width of the playfield in cells. */
  const COLS: int := 10

  /** Height of the playfield in cells; row 0 is the top. */
  const ROWS: int := 20

  /** One rotation state of a piece: rows of cell values. */
  type Grid = seq<seq<int>>

  /** The catalogue, indexed by kind and then by rotation. */
  const SHAPES: seq<seq<Grid>> := [
    // I
    [ [[0,0,0,0],
       [1,1,1,1],
       [0,0,0,0],
       [0,0,0,0]],
      [[0,0,1,0],
       [0,0,1,0],
       [0,0,1,0],
       [0,0,1,0]] ],
    // O
    [ [[0,2,2,0],
       [0,2,2,0],
       [0,0,0,0],
       [0,0,0,0]] ],
    // T
    [ [[0,3,0,0],
       [3,3,3,0],
       [0,0,0,0],
       [0,0,0,0]],
      [[0,3,0,0],
       [0,3,3,0],
       [0,3,0,0],
       [0,0,0,0]],
      [[0,0,0,0],
       [3,3,3,0],
       [0,3,0,0],
       [0,0,0,0]],
      [[0,3,0,0],
       [3,3,0,0],
       [0,3,0,0],
       [0,0,0,0]] ],
    // S
    [ [[0,4,4,0],
       [4,4,0,0],
       [0,0,0,0],
       [0,0,0,0]],
      [[0,4,0,0],
       [0,4,4,0],
       [0,0,4,0],
       [0,0,0,0]] ],
    // Z
    [ [[5,5,0,0],
       [0,5,5,0],
       [0,0,0,0],
       [0,0,0,0]],
      [[0,0,5,0],
       [0,5,5,0],
       [0,5,0,0],
       [0,0,0,0]] ],
    // J
    [ [[6,0,0,0],
       [6,6,6,0],
       [0,0,0,0],
       [0,0,0,0]],
      [[0,6,6,0],
       [0,6,0,0],
       [0,6,0,0],
       [0,0,0,0]],
      [[0,0,0,0],
       [6,6,6,0],
       [0,0,6,0],
       [0,0,0,0]],
      [[0,6,0,0],
       [0,6,0,0],
       [6,6,0,0],
       [0,0,0,0]] ],
    // L
    [ [[0,0,7,0],
       [7,7,7,0],
       [0,0,0,0],
       [0,0,0,0]],
      [[0,7,0,0],
       [0,7,0,0],
       [0,7,7,0],
       [0,0,0,0]],
      [[0,0,0,0],
       [7,7,7,0],
       [7,0,0,0],
       [0,0,0,0]],
      [[7,7,0,0],
       [0,7,0,0],
       [0,7,0,0],
       [0,0,0,0]] ]
  ]

  /** A 4x4 grid whose every cell is empty or carries the colour of `kind`. */
  predicate IsShapeOf(g: Grid, kind: int)
  {
    && |g| == 4
    && (forall i :: 0 <= i < 4 ==> |g[i]| == 4)
    && (forall i, j :: 0 <= i < 4 && 0 <= j < 4 ==> g[i][j] == 0 || g[i][j] == kind + 1)
  }

  /** Number of occupied cells in the first `n` cells of a grid row. */
  function RowCells(row: seq<int>, n: nat): nat
    requires n <= |row|
  {
    if n == 0 then 0 else RowCells(row, n - 1) + (if row[n - 1] != 0 then 1 else 0)
  }

  /** Number of occupied cells in the first `n` rows of a grid. */
  function GridCells(g: Grid, n: nat): nat
    requires n <= |g|
  {
    if n == 0 then 0 else GridCells(g, n - 1) + RowCells(g[n - 1], |g[n - 1]|)
  }

  /** The rotation count of every kind, in catalogue order. */
  const ROTATION_COUNTS: seq<int> := [2, 1, 4, 2, 2, 4, 4]

  /** Every kind has 1, 2 or 4 rotation states; every state is a 4x4 grid
      of the kind's own colour with exactly four occupied cells. */
  lemma CatalogueWellFormed()
    ensures |SHAPES| == 7
    ensures forall k :: 0 <= k < 7 ==> |SHAPES[k]| == ROTATION_COUNTS[k]
    ensures forall k, r :: 0 <= k < 7 && 0 <= r < |SHAPES[k]| ==>
              IsShapeOf(SHAPES[k][r], k) && GridCells(SHAPES[k][r], 4) == 4
  {
    forall k, r | 0 <= k < 7 && 0 <= r < |SHAPES[k]|
      ensures IsShapeOf(SHAPES[k][r], k) && GridCells(SHAPES[k][r], 4) == 4
    {
      var g := SHAPES[k][r];
      assert IsShapeOf(g, k);
      assert GridCells(g, 4) == 4;
    }
  }
}
