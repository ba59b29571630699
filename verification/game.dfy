/**
  The game session: the active piece with its anchor, the board, the counters
  and the game-over flag, and the operations the timer, the input handlers and
  the restart button invoke. The random choice of the next piece is an input
  (`idx`, an index into the catalogue) of every operation that may spawn.
 */
module Game {
  import opened Pieces
  import opened Rotation
  import opened Board
  import opened Lines
  import opened Progression

  /** The four commands the keyboard, the touch keys and the swipes are translated into. */
  datatype Command = Up | Down | Left | Right

  /** The state of one game: settled cells, the active piece at anchor (x, y), counters, and the flag. */
  datatype State = State(board: Board, piece: Shape, x: int, y: int, progress: Progress, gameOver: bool)

  /**
    What every state reached from a reset satisfies, game over or not: the
    board has its dimensions and the active piece is a 0/1 matrix whose
    occupied cells lie inside the board, so that locking it is safe.
   */
  ghost predicate Consistent(cfg: Config, g: State) {
    && cfg.Playable()
    && IsBoard(cfg, g.board)
    && IsShape(g.piece)
    && InBounds(cfg, g.piece, g.x, g.y)
  }

  /** The play invariant: consistency, counters in range, and a legal placement while the game runs. */
  ghost predicate Invariant(cfg: Config, g: State) {
    && Consistent(cfg, g)
    && WellFormed(g.progress)
    && (!g.gameOver ==> Fits(cfg, g.board, g.piece, g.x, g.y))
  }

  /** The spawn column: the board centre minus half the width of the shape's first row. */
  function SpawnX(cfg: Config, s: Shape): int
    requires |s| > 0
  {
    cfg.width / 2 - |s[0]| / 2
  }

  /** A catalogue piece at its spawn anchor lies inside any board at least 4 wide and 2 high. */
  lemma SpawnInBounds(cfg: Config, idx: nat)
    requires idx < |Catalogue|
    ensures cfg.Playable() ==> InBounds(cfg, Catalogue[idx], SpawnX(cfg, Catalogue[idx]), 0)
  {
    CatalogueShapes(idx);
    var s := Catalogue[idx];
    if cfg.Playable() {
      forall dy, dx | Occupied(s, dy, dx)
        ensures InBoard(cfg, SpawnX(cfg, s) + dx, dy)
      {
        assert |s[dy]| == |s[0]|;
      }
    }
  }

  /**
    Brings catalogue piece `idx` in at the top centre. The board and the
    counters are untouched; the game ends when the spawn placement is illegal,
    and a game already over stays over.
   */
  function Spawn(cfg: Config, g: State, idx: nat): (r: State)
    requires IsBoard(cfg, g.board)
    requires idx < |Catalogue|
    ensures r.piece == Catalogue[idx]
    ensures r.x == cfg.width / 2 - |Catalogue[idx][0]| / 2 && r.y == 0
    ensures r.board == g.board && r.progress == g.progress
    ensures r.gameOver <==> g.gameOver || !Fits(cfg, g.board, r.piece, r.x, r.y)
    ensures cfg.Playable() ==> Consistent(cfg, r)
  {
    var s := Catalogue[idx];
    CatalogueShapes(idx);
    SpawnInBounds(cfg, idx);
    var x := SpawnX(cfg, s);
    State(g.board, s, x, 0, g.progress, g.gameOver || !IsValid(cfg, g.board, s, x, 0))
  }

  /** Starts a new game: empty board, initial counters, not over, and a fresh piece. */
  function Reset(cfg: Config, g: State, idx: nat): (r: State)
    requires idx < |Catalogue|
    ensures r.progress == Initial
    ensures r.piece == Catalogue[idx] && r.x == SpawnX(cfg, Catalogue[idx]) && r.y == 0
    ensures IsBoard(cfg, r.board) && forall i, j :: 0 <= i < |r.board| && 0 <= j < |r.board[i]| ==> r.board[i][j] == 0
    ensures cfg.Playable() ==> Invariant(cfg, r) && !r.gameOver
  {
    var r := Spawn(cfg, g.(board := EmptyBoard(cfg), progress := Initial, gameOver := false), idx);
    assert cfg.Playable() ==> Fits(cfg, r.board, r.piece, r.x, r.y);
    InitialWellFormed();
    r
  }

  /** Shifts the piece `dir` columns if the shifted placement is legal; otherwise nothing changes. */
  function Move(cfg: Config, g: State, dir: int): (r: State)
    requires IsBoard(cfg, g.board)
    ensures Fits(cfg, g.board, g.piece, g.x + dir, g.y) ==> r == g.(x := g.x + dir)
    ensures !Fits(cfg, g.board, g.piece, g.x + dir, g.y) ==> r == g
  {
    if IsValid(cfg, g.board, g.piece, g.x + dir, g.y) then g.(x := g.x + dir) else g
  }

  /** Replaces the piece by its rotation, at the same anchor, if that placement is legal; otherwise nothing changes. */
  function TryRotate(cfg: Config, g: State): (r: State)
    requires IsBoard(cfg, g.board)
    requires IsMatrix(g.piece)
    ensures Fits(cfg, g.board, Rotate(g.piece), g.x, g.y) ==> r == g.(piece := Rotate(g.piece))
    ensures !Fits(cfg, g.board, Rotate(g.piece), g.x, g.y) ==> r == g
  {
    var rotated := Rotate(g.piece);
    if IsValid(cfg, g.board, rotated, g.x, g.y) then g.(piece := rotated) else g
  }

  /**
    One gravity step. If the piece can go one row down it does and nothing
    else changes. Otherwise it is locked into the board, full rows are
    cleared and scored, and piece `idx` is spawned. Either way the new
    placement is legal unless the game is over.
   */
  function Drop(cfg: Config, g: State, idx: nat): (r: State)
    requires Consistent(cfg, g)
    requires idx < |Catalogue|
    ensures Fits(cfg, g.board, g.piece, g.x, g.y + 1) ==> r == g.(y := g.y + 1)
    ensures !Fits(cfg, g.board, g.piece, g.x, g.y + 1) ==>
      var locked := Lock(cfg, g.board, g.piece, g.x, g.y);
      && r.board == Empties(FullCount(locked), cfg.width) + Survivors(locked)
      && r.progress == OnLinesCleared(g.progress, FullCount(locked))
      && r.piece == Catalogue[idx] && r.x == SpawnX(cfg, Catalogue[idx]) && r.y == 0
    ensures Consistent(cfg, r)
    ensures !Fits(cfg, g.board, g.piece, g.x, g.y + 1) ==>
      (r.gameOver <==> g.gameOver || !Fits(cfg, r.board, r.piece, r.x, 0))
    ensures g.gameOver ==> r.gameOver
    ensures !r.gameOver ==> Fits(cfg, r.board, r.piece, r.x, r.y)
  {
    if IsValid(cfg, g.board, g.piece, g.x, g.y + 1) then g.(y := g.y + 1)
    else
      var locked := Lock(cfg, g.board, g.piece, g.x, g.y);
      var cleared := ClearLines(locked, cfg.width);
      Spawn(cfg, g.(board := cleared.board, progress := OnLinesCleared(g.progress, cleared.lines)), idx)
  }

  /** A timer tick: a gravity step, unless the game is over, in which case nothing happens. */
  function Tick(cfg: Config, g: State, idx: nat): (r: State)
    requires Consistent(cfg, g)
    requires idx < |Catalogue|
    ensures g.gameOver ==> r == g
    ensures !g.gameOver ==> r == Drop(cfg, g, idx)
    ensures Consistent(cfg, r)
  {
    if g.gameOver then g else Drop(cfg, g, idx)
  }

  /**
    Command dispatch. It does not look at the game-over flag: after the game
    has ended the commands still act on the last spawned piece.
   */
  function HandleMovement(cfg: Config, g: State, cmd: Command, idx: nat): (r: State)
    requires Consistent(cfg, g)
    requires idx < |Catalogue|
    ensures Consistent(cfg, r)
    ensures g.gameOver ==> r.gameOver
    ensures cmd != Down ==> r.board == g.board && r.progress == g.progress && r.gameOver == g.gameOver
    ensures cmd == Left ==>
      r == if Fits(cfg, g.board, g.piece, g.x - 1, g.y) then g.(x := g.x - 1) else g
    ensures cmd == Right ==>
      r == if Fits(cfg, g.board, g.piece, g.x + 1, g.y) then g.(x := g.x + 1) else g
    ensures cmd == Up ==>
      r == if Fits(cfg, g.board, Rotate(g.piece), g.x, g.y) then g.(piece := Rotate(g.piece)) else g
    ensures cmd == Down ==> r == Drop(cfg, g, idx)
  {
    match cmd
    case Up => TryRotate(cfg, g)
    case Down => Drop(cfg, g, idx)
    case Left => Move(cfg, g, -1)
    case Right => Move(cfg, g, 1)
  }

  /** What can happen to a running game: a timer tick, a command, or the restart button. */
  datatype Event = TimerTick(next: nat) | Input(cmd: Command, next: nat) | Restart(next: nat)

  predicate ValidEvent(e: Event) {
    e.next < |Catalogue|
  }

  function Step(cfg: Config, g: State, e: Event): (r: State)
    requires Consistent(cfg, g)
    requires ValidEvent(e)
    ensures Consistent(cfg, r)
    ensures e.TimerTick? ==> r == if g.gameOver then g else Drop(cfg, g, e.next)
    ensures e.Input? ==> r == HandleMovement(cfg, g, e.cmd, e.next)
    ensures e.Restart? ==> r == Reset(cfg, g, e.next)
  {
    match e
    case TimerTick(idx) => Tick(cfg, g, idx)
    case Input(cmd, idx) => HandleMovement(cfg, g, cmd, idx)
    case Restart(idx) => Reset(cfg, g, idx)
  }

  /** The state after a sequence of events, first event first. */
  function Run(cfg: Config, g: State, events: seq<Event>): (r: State)
    requires Consistent(cfg, g)
    requires forall k :: 0 <= k < |events| ==> ValidEvent(events[k])
    ensures Consistent(cfg, r)
    decreases |events|
  {
    if |events| == 0 then g else Run(cfg, Step(cfg, g, events[0]), events[1..])
  }

  /** Moving and rotating keep the invariant: a change happens only when the new placement is legal. */
  lemma HandleMovementPreservesInvariant(cfg: Config, g: State, cmd: Command, idx: nat)
    requires Invariant(cfg, g)
    requires idx < |Catalogue|
    ensures Invariant(cfg, HandleMovement(cfg, g, cmd, idx))
  {
    if cmd == Down {
      var locked := Lock(cfg, g.board, g.piece, g.x, g.y);
      OnLinesClearedPreserves(g.progress, FullCount(locked));
    }
  }

  /** Every event keeps the invariant. */
  lemma StepPreservesInvariant(cfg: Config, g: State, e: Event)
    requires Invariant(cfg, g)
    requires ValidEvent(e)
    ensures Invariant(cfg, Step(cfg, g, e))
  {
    match e
    case TimerTick(idx) =>
      if !g.gameOver {
        HandleMovementPreservesInvariant(cfg, g, Down, idx);
      }
    case Input(cmd, idx) =>
      HandleMovementPreservesInvariant(cfg, g, cmd, idx);
    case Restart(idx) =>
  }

  /** From any state satisfying the invariant (in particular right after a reset) every run keeps it. */
  lemma {:induction false} RunPreservesInvariant(cfg: Config, g: State, events: seq<Event>)
    requires Invariant(cfg, g)
    requires forall k :: 0 <= k < |events| ==> ValidEvent(events[k])
    ensures Invariant(cfg, Run(cfg, g, events))
    decreases |events|
  {
    if |events| > 0 {
      StepPreservesInvariant(cfg, g, events[0]);
      RunPreservesInvariant(cfg, Step(cfg, g, events[0]), events[1..]);
    }
  }

  /**
    Within one game (no restart) the score and level never go down, the drop
    interval never goes up, and once over the game stays over.
   */
  lemma StepIsMonotone(cfg: Config, g: State, e: Event)
    requires Invariant(cfg, g)
    requires ValidEvent(e) && !e.Restart?
    ensures var r := Step(cfg, g, e);
      && r.progress.score >= g.progress.score
      && r.progress.level >= g.progress.level
      && r.progress.dropInterval <= g.progress.dropInterval
      && (g.gameOver ==> r.gameOver)
  {
    if !(e.TimerTick? && g.gameOver) && !(e.Input? && e.cmd != Down) {
      var locked := Lock(cfg, g.board, g.piece, g.x, g.y);
      OnLinesClearedPreserves(g.progress, FullCount(locked));
    }
  }

  /** A spawn onto a board whose top row is full ends the game and leaves the board as it was. */
  lemma SpawnOnFullTopRowEndsGame(cfg: Config, g: State, idx: nat)
    requires cfg.Playable()
    requires IsBoard(cfg, g.board)
    requires IsFull(g.board[0])
    requires idx < |Catalogue|
    ensures Spawn(cfg, g, idx).gameOver
    ensures Spawn(cfg, g, idx).board == g.board
  {
    var r := Spawn(cfg, g, idx);
    CatalogueShapes(idx);
    SpawnInBounds(cfg, idx);
    assert Occupied(r.piece, 0, 1);
    assert g.board[0][r.x + 1] != 0;
  }

  /** Locking the I piece at the top-left of the 4 x 2 example board. */
  lemma LockExample()
    ensures Lock(Config(4, 2), [[1, 0, 0, 0], [1, 0, 0, 0]], IPiece, 0, 0) == [[1, 1, 1, 1], [1, 0, 0, 0]]
  {
    var cfg := Config(4, 2);
    var locked := Lock(cfg, [[1, 0, 0, 0], [1, 0, 0, 0]], IPiece, 0, 0);
    assert |locked| == 2 && |locked[0]| == 4 && |locked[1]| == 4;
    assert locked[0][0] == 1 && locked[0][1] == 1 && locked[0][2] == 1 && locked[0][3] == 1;
    assert !Occupied(IPiece, 1, 0) && !Occupied(IPiece, 1, 1) && !Occupied(IPiece, 1, 2) && !Occupied(IPiece, 1, 3);
    assert locked[1][0] == 1 && locked[1][1] == 0 && locked[1][2] == 0 && locked[1][3] == 0;
    assert locked[0] == [1, 1, 1, 1] && locked[1] == [1, 0, 0, 0];
  }

  /** Clearing the completed top row of the 4 x 2 example board. */
  lemma ClearExample()
    ensures FullCount([[1, 1, 1, 1], [1, 0, 0, 0]]) == 1
    ensures Empties(1, 4) + Survivors([[1, 1, 1, 1], [1, 0, 0, 0]]) == [[0, 0, 0, 0], [1, 0, 0, 0]]
  {
    var b: Board := [[1, 1, 1, 1], [1, 0, 0, 0]];
    assert IsFull(b[0]);
    assert !IsFull(b[1]) by { assert b[1][1] == 0; }
    assert b[..1] == [b[0]];
    assert Survivors(b[..1]) == [];
    assert Survivors(b) == [[1, 0, 0, 0]];
    assert Zeros(4) == [0, 0, 0, 0];
    assert Empties(1, 4) == [[0, 0, 0, 0]];
  }

  /**
    The dispatch has no game-over guard: on a 4 x 2 board whose game is over,
    a Down command still locks the overlapping piece, clears the completed
    top row and scores it.
   */
  lemma DownAfterGameOverStillScores(cfg: Config, g: State)
    requires cfg == Config(4, 2)
    requires g == State([[1, 0, 0, 0], [1, 0, 0, 0]], IPiece, 0, 0, Initial, true)
    ensures Consistent(cfg, g)
    ensures HandleMovement(cfg, g, Down, 0).gameOver
    ensures HandleMovement(cfg, g, Down, 0).board == [[0, 0, 0, 0], [1, 0, 0, 0]]
    ensures HandleMovement(cfg, g, Down, 0).progress.score == g.progress.score + 100
  {
    assert Consistent(cfg, g) by {
      assert IsShape(IPiece);
    }
    assert !Fits(cfg, g.board, g.piece, g.x, g.y + 1) by {
      assert Occupied(g.piece, 0, 0);
    }
    var locked := Lock(cfg, g.board, g.piece, g.x, g.y);
    LockExample();
    ClearExample();
    var r := Drop(cfg, g, 0);
    assert r.board == Empties(FullCount(locked), 4) + Survivors(locked);
    assert r.progress == OnLinesCleared(g.progress, 1);
  }
}
