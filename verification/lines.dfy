/**
  Line clearing. The game first collects the indices of all full rows, top to
  bottom, and only then removes them one at a time in that order, each removal
  followed by inserting an empty row at the top. The result is proved equal to
  the reference description: as many empty rows as there were full rows,
  followed by the rows that were not full, in their original order.
 */
module Lines {
  import opened Board

  /** A row all of whose cells are occupied. */
  predicate IsFull(row: seq<int>) {
    forall c :: 0 <= c < |row| ==> row[c] != 0
  }

  /** The rows of `b` that are not full, in their original order. */
  function Survivors(b: Board): (r: Board)
    ensures |r| <= |b|
    ensures forall i :: 0 <= i < |r| ==> !IsFull(r[i])
  {
    if |b| == 0 then []
    else
      var last := b[|b| - 1];
      Survivors(b[..|b| - 1]) + (if IsFull(last) then [] else [last])
  }

  /** Survivors are rows of `b`, so they keep the board's row width. */
  lemma {:induction false} SurvivorsKeepWidth(b: Board, w: nat)
    ensures (forall i :: 0 <= i < |b| ==> |b[i]| == w) ==>
      forall i :: 0 <= i < |Survivors(b)| ==> |Survivors(b)[i]| == w
  {
    if |b| > 0 {
      SurvivorsKeepWidth(b[..|b| - 1], w);
    }
  }

  /** The number of full rows of `b`. */
  function FullCount(b: Board): nat {
    |b| - |Survivors(b)|
  }

  /** `k` empty rows of width `w`. */
  function Empties(k: nat, w: nat): (e: Board)
    ensures |e| == k && forall i :: 0 <= i < k ==> e[i] == Zeros(w)
  {
    seq(k, _ => Zeros(w))
  }

  /** The indices of the full rows among the first `n` rows, in ascending order. */
  function FullIndices(b: Board, n: nat): (ys: seq<nat>)
    requires n <= |b|
    ensures forall k :: 0 <= k < |ys| ==> ys[k] < n
  {
    if n == 0 then []
    else FullIndices(b, n - 1) + (if IsFull(b[n - 1]) then [n - 1] else [])
  }

  /** The collected indices are exactly the full rows among the first `n`, strictly ascending. */
  lemma {:induction false} FullIndicesAreFullRows(b: Board, n: nat)
    requires n <= |b|
    ensures var ys := FullIndices(b, n);
      && (forall k, l :: 0 <= k < l < |ys| ==> ys[k] < ys[l])
      && (forall y :: 0 <= y < n ==> (y in ys <==> IsFull(b[y])))
  {
    if n > 0 {
      FullIndicesAreFullRows(b, n - 1);
    }
  }

  /** Removes row `y` and inserts an empty row of width `w` at the top. */
  function SpliceUnshift(b: Board, y: nat, w: nat): (r: Board)
    requires y < |b|
    ensures |r| == |b|
  {
    [Zeros(w)] + b[..y] + b[y + 1..]
  }

  /** Applies `SpliceUnshift` for each index of `ys`, first index first. */
  function SpliceAll(b: Board, ys: seq<nat>, w: nat): (r: Board)
    requires forall k :: 0 <= k < |ys| ==> ys[k] < |b|
    ensures |r| == |b|
  {
    if |ys| == 0 then b
    else SpliceUnshift(SpliceAll(b, ys[..|ys| - 1], w), ys[|ys| - 1], w)
  }

  /** The outcome of a line clear: the new board and the number of rows removed. */
  datatype Cleared = Cleared(board: Board, lines: nat)

  /** Extending the prefix by one row extends its survivors by that row unless it is full. */
  lemma SurvivorsPrefixStep(b: Board, m: nat)
    requires m < |b|
    ensures Survivors(b[..m + 1]) == Survivors(b[..m]) + (if IsFull(b[m]) then [] else [b[m]])
  {
    assert b[..m + 1][..m] == b[..m];
  }

  /** Splicing out the row that follows `e + f` and unshifting an empty row. */
  lemma SpliceAfterPrefix(e: Board, f: Board, row: seq<int>, rest: Board, w: nat)
    ensures SpliceUnshift(e + f + ([row] + rest), |e| + |f|, w) == ([Zeros(w)] + e) + f + rest
  {
    var x := e + f + ([row] + rest);
    assert x[..|e| + |f|] == e + f;
    assert x[|e| + |f| + 1..] == rest;
  }

  /** One step of the induction below, for a full row `m`: it is spliced out and an empty row goes on top. */
  lemma SpliceFullRowStep(b: Board, m: nat, w: nat)
    requires m < |b| && IsFull(b[m])
    requires SpliceAll(b, FullIndices(b, m), w) == Empties(|FullIndices(b, m)|, w) + Survivors(b[..m]) + b[m..]
    ensures SpliceAll(b, FullIndices(b, m + 1), w)
         == Empties(|FullIndices(b, m + 1)|, w) + Survivors(b[..m + 1]) + b[m + 1..]
  {
    var ys := FullIndices(b, m);
    var k := |ys|;
    var e, f, rest := Empties(k, w), Survivors(b[..m]), b[m + 1..];
    var x := SpliceAll(b, ys, w);
    assert FullIndices(b, m + 1) == ys + [m];
    assert SpliceAll(b, ys + [m], w) == SpliceUnshift(x, m, w) by {
      assert (ys + [m])[..|ys|] == ys;
    }
    assert x == e + f + ([b[m]] + rest) by {
      assert b[m..] == [b[m]] + b[m + 1..];
    }
    assert SpliceUnshift(x, m, w) == ([Zeros(w)] + e) + f + rest by {
      SpliceAfterPrefix(e, f, b[m], rest, w);
    }
    assert Empties(k + 1, w) == [Zeros(w)] + e;
    SurvivorsPrefixStep(b, m);
  }

  /** One step of the induction below, for a row `m` that is not full: it moves from the untouched part to the survivors. */
  lemma KeepRowStep(b: Board, m: nat, w: nat)
    requires m < |b| && !IsFull(b[m])
    requires SpliceAll(b, FullIndices(b, m), w) == Empties(|FullIndices(b, m)|, w) + Survivors(b[..m]) + b[m..]
    ensures SpliceAll(b, FullIndices(b, m + 1), w)
         == Empties(|FullIndices(b, m + 1)|, w) + Survivors(b[..m + 1]) + b[m + 1..]
  {
    var ys := FullIndices(b, m);
    var k := |ys|;
    SurvivorsPrefixStep(b, m);
    assert b[m..] == [b[m]] + b[m + 1..];
    assert FullIndices(b, m + 1) == ys;
    AppendShift(Empties(k, w), Survivors(b[..m]), b[m], b[m + 1..]);
  }

  lemma AppendShift<T>(e: seq<T>, f: seq<T>, x: T, g: seq<T>)
    ensures e + f + ([x] + g) == e + (f + [x]) + g
  {
  }

  /**
    Removing the full rows among the first `n`, in ascending order, leaves the
    empty rows on top, then the surviving rows of that prefix, then the rest of
    the board untouched.
   */
  lemma {:induction false} SpliceAllFullIndices(b: Board, n: nat, w: nat)
    requires n <= |b|
    ensures SpliceAll(b, FullIndices(b, n), w)
         == Empties(|FullIndices(b, n)|, w) + Survivors(b[..n]) + b[n..]
  {
    if n == 0 {
      assert b[..0] == [] && b[0..] == b;
    } else {
      SpliceAllFullIndices(b, n - 1, w);
      if IsFull(b[n - 1]) {
        SpliceFullRowStep(b, n - 1, w);
      } else {
        KeepRowStep(b, n - 1, w);
      }
    }
  }

  /** The line clear of the game: collect every full row index, then splice each out. */
  function ClearLines(b: Board, w: nat): (r: Cleared)
    ensures r.lines == FullCount(b)
    ensures r.board == Empties(r.lines, w) + Survivors(b)
    ensures |r.board| == |b|
    ensures (forall i :: 0 <= i < |b| ==> |b[i]| == w) ==> forall i :: 0 <= i < |r.board| ==> |r.board[i]| == w
    ensures w > 0 ==> forall i :: 0 <= i < |r.board| ==> !IsFull(r.board[i])
  {
    var ys := FullIndices(b, |b|);
    var r := Cleared(SpliceAll(b, ys, w), |ys|);
    SpliceAllFullIndices(b, |b|, w);
    assert b[..|b|] == b && b[|b|..] == [];
    assert r.board == Empties(|ys|, w) + Survivors(b);
    assert forall i :: 0 <= i < |r.board| && i >= |ys| ==> r.board[i] == Survivors(b)[i - |ys|];
    SurvivorsKeepWidth(b, w);
    assert w > 0 ==> Zeros(w)[0] == 0;
    r
  }
}
