/**
  The playfield: a grid of `height` rows of `width` cells (0 = empty,
  nonzero = settled block), the placement check that gates every move of the
  active piece, and the lock that copies a piece into the grid.
 */
module Board {
  import opened Pieces

  /** Rows of cells; row 0 is the top of the playfield. */
  type Board = seq<seq<int>>

  /** Board dimensions. The game itself is played on the `Standard` 12 x 20 board. */
  datatype Config = Config(width: nat, height: nat) {
    /** Wide and high enough for every catalogue piece to spawn inside the board. */
    predicate Playable() {
      width >= 4 && height >= 2
    }
  }

  const Standard := Config(12, 20)

  /** The game's own 12 x 20 board is large enough for every spawn. */
  lemma StandardIsPlayable()
    ensures Standard.Playable() && Standard.width == 12 && Standard.height == 20
  {
  }

  /** `b` has exactly the configured dimensions. */
  predicate IsBoard(cfg: Config, b: Board) {
    |b| == cfg.height && forall r :: 0 <= r < |b| ==> |b[r]| == cfg.width
  }

  /** An empty row of `w` cells. */
  function Zeros(w: nat): (row: seq<int>)
    ensures |row| == w && forall c :: 0 <= c < w ==> row[c] == 0
  {
    seq(w, _ => 0)
  }

  /** The board a new game starts with: every cell empty. */
  function EmptyBoard(cfg: Config): (b: Board)
    ensures IsBoard(cfg, b)
    ensures forall r, c :: 0 <= r < |b| && 0 <= c < |b[r]| ==> b[r][c] == 0
  {
    seq(cfg.height, _ => Zeros(cfg.width))
  }

  predicate InBoard(cfg: Config, nx: int, ny: int) {
    0 <= nx < cfg.width && 0 <= ny < cfg.height
  }

  /** Every occupied cell of `s`, anchored at (x, y), lies inside the board. */
  ghost predicate InBounds(cfg: Config, s: Shape, x: int, y: int) {
    forall dy, dx :: Occupied(s, dy, dx) ==> InBoard(cfg, x + dx, y + dy)
  }

  /**
    The intended meaning of a legal placement: every occupied cell of `s`,
    anchored at (x, y), lies inside the board on an empty cell. Empty cells of
    the shape impose nothing and may project outside the board.
   */
  ghost predicate Fits(cfg: Config, b: Board, s: Shape, x: int, y: int)
    requires IsBoard(cfg, b)
  {
    forall dy, dx :: Occupied(s, dy, dx) ==> InBoard(cfg, x + dx, y + dy) && b[y + dy][x + dx] == 0
  }

  /** The test applied to one shape cell landing on (nx, ny). */
  function CellOk(cfg: Config, b: Board, cell: int, nx: int, ny: int): bool
    requires IsBoard(cfg, b)
  {
    cell == 0 || (nx >= 0 && nx < cfg.width && ny >= 0 && ny < cfg.height && b[ny][nx] == 0)
  }

  /** The inner `every` over the cells of one shape row, from column `dx` on. */
  function RowOk(cfg: Config, b: Board, row: seq<int>, x: int, ny: int, dx: nat): (ok: bool)
    requires IsBoard(cfg, b)
    requires dx <= |row|
    ensures ok <==> forall k :: dx <= k < |row| ==> CellOk(cfg, b, row[k], x + k, ny)
    decreases |row| - dx
  {
    if dx == |row| then true
    else CellOk(cfg, b, row[dx], x + dx, ny) && RowOk(cfg, b, row, x, ny, dx + 1)
  }

  /** The outer `every` over the rows of the shape, from row `dy` on. */
  function RowsOk(cfg: Config, b: Board, s: Shape, x: int, y: int, dy: nat): (ok: bool)
    requires IsBoard(cfg, b)
    requires dy <= |s|
    ensures ok <==> forall i, k :: dy <= i < |s| && 0 <= k < |s[i]| ==> CellOk(cfg, b, s[i][k], x + k, y + i)
    decreases |s| - dy
  {
    if dy == |s| then true
    else RowOk(cfg, b, s[dy], x, y + dy, 0) && RowsOk(cfg, b, s, x, y, dy + 1)
  }

  /** The placement check of the game, as it iterates over the shape. */
  function IsValid(cfg: Config, b: Board, s: Shape, x: int, y: int): (ok: bool)
    requires IsBoard(cfg, b)
    ensures ok <==> Fits(cfg, b, s, x, y)
    ensures ok ==> InBounds(cfg, s, x, y)
  {
    var ok := RowsOk(cfg, b, s, x, y, 0);
    assert ok ==> Fits(cfg, b, s, x, y) by {
      if ok {
        forall dy, dx | Occupied(s, dy, dx)
          ensures InBoard(cfg, x + dx, y + dy) && b[y + dy][x + dx] == 0
        {
          assert CellOk(cfg, b, s[dy][dx], x + dx, y + dy);
        }
      }
    }
    assert Fits(cfg, b, s, x, y) ==> ok by {
      if Fits(cfg, b, s, x, y) {
        forall i, k | 0 <= i < |s| && 0 <= k < |s[i]|
          ensures CellOk(cfg, b, s[i][k], x + k, y + i)
        {
          if s[i][k] != 0 {
            assert Occupied(s, i, k);
          }
        }
      }
    }
    ok
  }

  /** Placement validity only looks at occupied cells: two shapes with the same occupied cells agree. */
  lemma IsValidIgnoresEmptyCells(cfg: Config, b: Board, s: Shape, t: Shape, x: int, y: int)
    requires IsBoard(cfg, b)
    requires forall dy, dx :: Occupied(s, dy, dx) <==> Occupied(t, dy, dx)
    ensures IsValid(cfg, b, s, x, y) == IsValid(cfg, b, t, x, y)
  {
  }

  /** Writes the occupied cells of `row`, from column `dx` on, into board row `ny` at column offset `x`. */
  function StampRow(b: Board, row: seq<int>, x: int, ny: int, dx: nat): (r: Board)
    requires dx <= |row|
    requires forall k :: dx <= k < |row| && row[k] != 0 ==> 0 <= ny < |b| && 0 <= x + k < |b[ny]|
    ensures |r| == |b| && forall i :: 0 <= i < |b| ==> |r[i]| == |b[i]|
    ensures forall i, j :: 0 <= i < |b| && 0 <= j < |b[i]| ==>
      r[i][j] == if i == ny && dx <= j - x < |row| && row[j - x] != 0 then row[j - x] else b[i][j]
    decreases |row| - dx
  {
    if dx == |row| then b
    else
      var b' := if row[dx] != 0 then b[ny := b[ny][x + dx := row[dx]]] else b;
      StampRow(b', row, x, ny, dx + 1)
  }

  /** Writes the occupied cells of shape rows `dy` and below into the board at anchor (x, y). */
  function Stamp(b: Board, s: Shape, x: int, y: int, dy: nat): (r: Board)
    requires dy <= |s|
    requires forall i, k :: dy <= i && Occupied(s, i, k) ==> 0 <= y + i < |b| && 0 <= x + k < |b[y + i]|
    ensures |r| == |b| && forall i :: 0 <= i < |b| ==> |r[i]| == |b[i]|
    ensures forall i, j :: 0 <= i < |b| && 0 <= j < |b[i]| ==>
      r[i][j] == if dy <= i - y && Occupied(s, i - y, j - x) then s[i - y][j - x] else b[i][j]
    decreases |s| - dy
  {
    if dy == |s| then b
    else
      assert forall k :: 0 <= k < |s[dy]| && s[dy][k] != 0 ==> Occupied(s, dy, k);
      var b' := StampRow(b, s[dy], x, y + dy, 0);
      Stamp(b', s, x, y, dy + 1)
  }

  /**
    Locks the active piece into the board: every board cell covered by an
    occupied shape cell takes that cell's value, every other cell keeps its
    value, and the dimensions do not change. The game performs no bounds
    check here, so the placement must be in bounds.
   */
  function Lock(cfg: Config, b: Board, s: Shape, x: int, y: int): (r: Board)
    requires IsBoard(cfg, b)
    requires InBounds(cfg, s, x, y)
    ensures IsBoard(cfg, r)
    ensures forall i, j :: 0 <= i < |b| && 0 <= j < |b[i]| ==>
      r[i][j] == if Occupied(s, i - y, j - x) then s[i - y][j - x] else b[i][j]
    ensures IsShape(s) ==> forall dy, dx :: Occupied(s, dy, dx) ==> r[y + dy][x + dx] == 1
  {
    assert forall i, k :: 0 <= i && Occupied(s, i, k) ==> InBoard(cfg, x + k, y + i);
    Stamp(b, s, x, y, 0)
  }
}
