/**
  Rotation of a piece: transpose the matrix, then reverse the order of its rows.
  For an R x C matrix the result is C x R with new[i][j] == old[j][C-1-i],
  which is a quarter turn counter-clockwise.
 */
module Rotation {
  import opened Pieces

  /** Column `i` of the matrix, read top to bottom, becomes row `i`. */
  function Transpose(s: Shape): (t: Shape)
    requires IsMatrix(s)
    ensures |t| == |s[0]|
    ensures forall i :: 0 <= i < |t| ==> |t[i]| == |s|
  {
    seq(|s[0]|, i requires 0 <= i < |s[0]| => seq(|s|, j requires 0 <= j < |s| => s[j][i]))
  }

  /** The rows in the opposite order. */
  function ReverseRows(t: Shape): (r: Shape)
    ensures |r| == |t|
  {
    seq(|t|, i requires 0 <= i < |t| => t[|t| - 1 - i])
  }

  /** Rotation as the game computes it: transpose, then reverse. */
  function Rotate(s: Shape): (r: Shape)
    requires IsMatrix(s)
    ensures |r| == |s[0]|
    ensures forall i :: 0 <= i < |r| ==> |r[i]| == |s|
    ensures forall i, j :: 0 <= i < |r| && 0 <= j < |s| ==> r[i][j] == s[j][|s[0]| - 1 - i]
    ensures |s[0]| > 0 ==> IsMatrix(r) && |r[0]| > 0
    ensures IsShape(s) ==> IsShape(r)
  {
    ReverseRows(Transpose(s))
  }

  /** Two rotations turn the piece by half a turn: same dimensions, cells mirrored in both axes. */
  lemma RotateTwiceIsHalfTurn(s: Shape)
    requires IsMatrix(s) && |s[0]| > 0
    ensures var h := Rotate(Rotate(s));
      && |h| == |s|
      && (forall i :: 0 <= i < |h| ==> |h[i]| == |s[0]|)
      && (forall i, j :: 0 <= i < |s| && 0 <= j < |s[0]| ==> h[i][j] == s[|s| - 1 - i][|s[0]| - 1 - j])
  {
    var q := Rotate(s);
    var h := Rotate(q);
    forall i, j | 0 <= i < |s| && 0 <= j < |s[0]|
      ensures h[i][j] == s[|s| - 1 - i][|s[0]| - 1 - j]
    {
      assert h[i][j] == q[j][|s| - 1 - i];
    }
  }

  /** Four rotations give back the original matrix. */
  lemma RotateFourTimesIsIdentity(s: Shape)
    requires IsMatrix(s) && |s[0]| > 0
    ensures Rotate(Rotate(Rotate(Rotate(s)))) == s
  {
    var h := Rotate(Rotate(s));
    RotateTwiceIsHalfTurn(s);
    RotateTwiceIsHalfTurn(h);
    var f := Rotate(Rotate(h));
    assert |f| == |s|;
    forall i | 0 <= i < |s|
      ensures f[i] == s[i]
    {
      assert |f[i]| == |s[i]|;
      forall j | 0 <= j < |s[i]|
        ensures f[i][j] == s[i][j]
      {
        assert f[i][j] == h[|s| - 1 - i][|s[0]| - 1 - j];
      }
    }
  }

  /** The square O piece is a fixed point of rotation. */
  lemma RotateFixesOPiece()
    ensures Rotate(OPiece) == OPiece
  {
    var r := Rotate(OPiece);
    assert |r| == 2 && |r[0]| == 2 && |r[1]| == 2;
    assert r[0] == [1, 1] && r[1] == [1, 1];
  }

  /** Rotating the 1 x 4 I piece twice gives back the same footprint. */
  lemma RotateIPieceTwice()
    ensures Rotate(IPiece) == [[1], [1], [1], [1]]
    ensures Rotate(Rotate(IPiece)) == IPiece
  {
    var q := Rotate(IPiece);
    assert q[0] == [1] && q[1] == [1] && q[2] == [1] && q[3] == [1];
    var h := Rotate(q);
    assert |h| == 1 && |h[0]| == 4;
    assert h[0] == [1, 1, 1, 1];
  }
}
