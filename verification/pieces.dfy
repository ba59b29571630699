/**
  The piece catalogue of the falling-block game: seven fixed cell matrices.
  A cell is 0 when empty and nonzero (1 in every catalogue piece) when occupied.
 */
module Pieces {

  /** Rows of cells; row 0 is the top row of the piece. */
  type Shape = seq<seq<int>>

  /** A matrix: at least one row, and every row as long as the first one. */
  predicate IsMatrix(s: Shape) {
    |s| > 0 && forall r :: 0 <= r < |s| ==> |s[r]| == |s[0]|
  }

  /** A usable piece: a matrix with at least one column whose cells are all 0 or 1. */
  predicate IsShape(s: Shape) {
    && IsMatrix(s)
    && |s[0]| > 0
    && forall r, c :: 0 <= r < |s| && 0 <= c < |s[r]| ==> s[r][c] == 0 || s[r][c] == 1
  }

  /** True iff the shape has an occupied cell at row `dy`, column `dx`. */
  predicate Occupied(s: Shape, dy: int, dx: int) {
    0 <= dy < |s| && 0 <= dx < |s[dy]| && s[dy][dx] != 0
  }

  const IPiece: Shape := [[1, 1, 1, 1]]
  const OPiece: Shape := [[1, 1], [1, 1]]
  const TPiece: Shape := [[1, 1, 1], [0, 1, 0]]
  const SPiece: Shape := [[1, 1, 0], [0, 1, 1]]
  const ZPiece: Shape := [[0, 1, 1], [1, 1, 0]]
  const LPiece: Shape := [[1, 1, 1], [1, 0, 0]]
  const JPiece: Shape := [[1, 1, 1], [0, 0, 1]]

  /** The catalogue, in the order the game indexes it. */
  const Catalogue: seq<Shape> := [IPiece, OPiece, TPiece, SPiece, ZPiece, LPiece, JPiece]

  /**
    Every catalogue piece is a 0/1 matrix of one or two rows and two to four
    columns whose second top-row cell is occupied. The size bounds are what
    keep a freshly spawned piece inside a board at least 4 wide and 2 high.
   */
  lemma CatalogueShapes(i: nat)
    requires i < |Catalogue|
    ensures IsShape(Catalogue[i])
    ensures 1 <= |Catalogue[i]| <= 2 && 2 <= |Catalogue[i][0]| <= 4
    ensures Occupied(Catalogue[i], 0, 1)
  {
  }
}
