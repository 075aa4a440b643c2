/** One game session of game.js: the falling piece moved and rotated by the
    keyboard, gravity driven by a frame timer, locking, scoring and game
    over (game.js:117-124, 248-308, 310-363). The session is a value and
    every operation returns the next session. */
module Session {
  import opened Shapes
  import opened Playfield

  /** Milliseconds of accumulated frame time before gravity acts. */
  const DROP_INTERVAL: int := 1000

  /** Points per cleared row; there is no bonus for several rows at once. */
  const POINTS_PER_LINE: int := 100

  /** The fixed-timestep accumulator: time gathered since the last drop and
      the timestamp of the previous frame, in integer milliseconds. */
  datatype Timer = Timer(dropCounter: int, lastTime: int)

  datatype Game = Game(board: Board, piece: Piece, score: int, gameOver: bool, timer: Timer)

  /** The shape every operation relies on. */
  predicate WellFormed(g: Game)
  {
    IsBoard(g.board) && ValidPiece(g.piece)
  }

  /** Safety invariant: while the game runs, the falling piece never
      overlaps a wall, the floor or a settled cell. */
  ghost predicate Inv(g: Game)
  {
    && WellFormed(g)
    && CellsInRange(g.board)
    && g.score >= 0
    && (!g.gameOver ==> !Collide(g.piece, g.board, 0, 0))
  }

  /** On an empty board any 4x4 grid placed at the spawn position is free. */
  lemma SpawnIsFreeOnEmptyBoard(kind: int)
    requires 0 <= kind < |SHAPES|
    ensures !Collide(CreatePiece(kind), CreateBoard(), 0, 0)
  {
    CatalogueWellFormed();
    var p, b := CreatePiece(kind), CreateBoard();
    forall i, j | 0 <= i < |p.shape| && 0 <= j < |p.shape[i]| && p.shape[i][j] != 0
      ensures !Blocked(b, p.x + j, p.y + i)
    {
      assert IsShapeOf(p.shape, kind);
    }
  }

  /** The state the page starts in and the restart button resets to: an
      empty board, a fresh piece, no score, running, and a zeroed timer. */
  function NewGame(kind: int): (g: Game)
    requires 0 <= kind < |SHAPES|
    ensures Inv(g) && !g.gameOver && g.score == 0
    ensures g.timer == Timer(0, 0)
    ensures g.piece == CreatePiece(kind)
    ensures forall r, c :: 0 <= r < ROWS && 0 <= c < COLS ==> g.board[r][c] == 0
  {
    SpawnIsFreeOnEmptyBoard(kind);
    Game(CreateBoard(), CreatePiece(kind), 0, false, Timer(0, 0))
  }

  // ---------------------------------------------------------------------
  // Moving and rotating

  /** The session after a move, and whether the piece moved. */
  datatype Moved = Moved(game: Game, moved: bool)

  /** `movePiece(dx, dy)`: shifts the piece when the shifted piece is free;
      a finished game and a blocked move change nothing. */
  function Move(g: Game, dx: int, dy: int): (r: Moved)
    requires IsBoard(g.board)
    ensures r.moved <==> !g.gameOver && !Overlaps(g.board, g.piece.shape, g.piece.x + dx, g.piece.y + dy)
    ensures r.moved ==> r.game == g.(piece := g.piece.(x := g.piece.x + dx, y := g.piece.y + dy))
    ensures !r.moved ==> r.game == g
  {
    if g.gameOver then Moved(g, false)
    else if !Collide(g.piece, g.board, dx, dy) then
      Moved(g.(piece := g.piece.(x := g.piece.x + dx, y := g.piece.y + dy)), true)
    else Moved(g, false)
  }

  lemma MovePreservesInv(g: Game, dx: int, dy: int)
    requires Inv(g)
    ensures Inv(Move(g, dx, dy).game)
  {
  }

  /** `rotatePiece`: adopts the next rotation state in place, else one
      column to the left, else one column to the right; if all three are
      blocked the piece is restored exactly. */
  function Rotate(p: Piece, b: Board): (r: Piece)
    requires IsBoard(b) && 0 <= p.kind < |SHAPES| && 0 <= p.rotation
    ensures r.kind == p.kind && r.y == p.y
    ensures var next := (p.rotation + 1) % |SHAPES[p.kind]|;
      var turned := p.(shape := SHAPES[p.kind][next], rotation := next);
      && 0 <= next < |SHAPES[p.kind]|
      && r == (if !Overlaps(b, turned.shape, p.x, p.y) then turned
               else if !Overlaps(b, turned.shape, p.x - 1, p.y) then turned.(x := p.x - 1)
               else if !Overlaps(b, turned.shape, p.x + 1, p.y) then turned.(x := p.x + 1)
               else p)
    ensures !Overlaps(b, p.shape, p.x, p.y) ==> !Overlaps(b, r.shape, r.x, r.y)
    ensures ValidPiece(p) ==> ValidPiece(r)
  {
    CatalogueWellFormed();
    var rotations := SHAPES[p.kind];
    var next := (p.rotation + 1) % |rotations|;
    var turned := p.(shape := rotations[next], rotation := next);
    if !Collide(turned, b, 0, 0) then turned
    else
      var left := turned.(x := turned.x - 1);
      if !Collide(left, b, 0, 0) then left
      else
        var right := left.(x := left.x + 2);
        if !Collide(right, b, 0, 0) then right
        else right.(x := right.x - 1, shape := p.shape, rotation := p.rotation)
  }

  /** The keydown handler: arrows move, up or space rotates, anything else
      and every key after game over is ignored. A key only ever changes
      the falling piece, and it keeps the safety invariant. */
  function HandleKey(g: Game, key: string): (r: Game)
    requires WellFormed(g)
    ensures g.gameOver ==> r == g
    ensures r == g.(piece := r.piece)
    ensures !g.gameOver && key == "ArrowLeft" ==> r == Move(g, -1, 0).game
    ensures !g.gameOver && key == "ArrowRight" ==> r == Move(g, 1, 0).game
    ensures !g.gameOver && key == "ArrowDown" ==> r == Move(g, 0, 1).game
    ensures !g.gameOver && (key == "ArrowUp" || key == " ") ==> r.piece == Rotate(g.piece, g.board)
    ensures key !in {"ArrowLeft", "ArrowRight", "ArrowDown", "ArrowUp", " "} ==> r == g
    ensures Inv(g) ==> Inv(r)
  {
    if g.gameOver then g
    else if key == "ArrowLeft" then Move(g, -1, 0).game
    else if key == "ArrowRight" then Move(g, 1, 0).game
    else if key == "ArrowDown" then Move(g, 0, 1).game
    else if key == "ArrowUp" || key == " " then g.(piece := Rotate(g.piece, g.board))
    else g
  }

  // ---------------------------------------------------------------------
  // Gravity and locking

  /** `dropPiece`: moves the piece one row down if it is free there;
      otherwise locks it into the board, clears full rows, scores them,
      spawns a piece of `nextKind`, and ends the game exactly when that
      piece is blocked at once. A finished game is left alone. */
  function Drop(g: Game, nextKind: int): (r: Game)
    requires IsBoard(g.board) && 0 <= nextKind < |SHAPES|
    requires !g.gameOver ==> Fits(g.piece.shape, g.piece.x, g.piece.y)
    ensures IsBoard(r.board) && r.score >= g.score
    ensures g.gameOver ==> r == g
    ensures !g.gameOver && !Overlaps(g.board, g.piece.shape, g.piece.x, g.piece.y + 1) ==>
              r == g.(piece := g.piece.(y := g.piece.y + 1))
    ensures !g.gameOver && Overlaps(g.board, g.piece.shape, g.piece.x, g.piece.y + 1) ==>
              var cleared := ClearLines(Merge(g.board, g.piece));
              && r.board == cleared.board
              && r.score == g.score + cleared.lines * POINTS_PER_LINE
              && r.piece == CreatePiece(nextKind)
              && (r.gameOver <==> Overlaps(r.board, r.piece.shape, r.piece.x, r.piece.y))
              && r.timer == g.timer
  {
    if g.gameOver then g
    else
      var step := Move(g, 0, 1);
      if step.moved then step.game
      else
        var merged := Merge(g.board, g.piece);
        ClearLinesWellFormed(merged);
        var cleared := ClearLines(merged);
        var next := CreatePiece(nextKind);
        g.(board := cleared.board,
           score := g.score + cleared.lines * POINTS_PER_LINE,
           piece := next,
           gameOver := Collide(next, cleared.board, 0, 0))
  }

  lemma DropPreservesInv(g: Game, nextKind: int)
    requires Inv(g) && 0 <= nextKind < |SHAPES|
    ensures !g.gameOver ==> Fits(g.piece.shape, g.piece.x, g.piece.y)
    ensures Inv(Drop(g, nextKind))
  {
    if !g.gameOver {
      MergeFillsFreeCells(g.board, g.piece);
      if Collide(g.piece, g.board, 0, 1) {
        ClearLinesWellFormed(Merge(g.board, g.piece));
      }
    }
  }

  // ---------------------------------------------------------------------
  // The frame timer

  /** The timer after a frame, and whether gravity acts in it. */
  datatype TimerStep = TimerStep(timer: Timer, fires: bool)

  /** The accumulator part of `gameLoop(time)`: adds the time since the
      previous frame; once the total is strictly above DROP_INTERVAL,
      gravity acts once and the total is reset to zero, not reduced. */
  function Advance(t: Timer, time: int): (r: TimerStep)
    ensures r.timer.lastTime == time
    ensures r.fires <==> t.dropCounter + (time - t.lastTime) > DROP_INTERVAL
    ensures r.fires ==> r.timer.dropCounter == 0
    ensures !r.fires ==> r.timer.dropCounter == t.dropCounter + (time - t.lastTime)
    ensures r.timer.dropCounter <= DROP_INTERVAL
  {
    var counter := t.dropCounter + (time - t.lastTime);
    if counter > DROP_INTERVAL then TimerStep(Timer(0, time), true)
    else TimerStep(Timer(counter, time), false)
  }

  /** The timer after a run of frames, and how often gravity acted. */
  datatype Schedule = Schedule(timer: Timer, drops: nat)

  function RunTimer(t: Timer, times: seq<int>): (r: Schedule)
    decreases |times|
  {
    if |times| == 0 then Schedule(t, 0)
    else
      var step := Advance(t, times[0]);
      var rest := RunTimer(step.timer, times[1..]);
      Schedule(rest.timer, rest.drops + if step.fires then 1 else 0)
  }

  /** Frame timestamps that never go backwards, starting from `start`. */
  predicate Monotone(start: int, times: seq<int>)
  {
    (|times| > 0 ==> start <= times[0])
    && forall i :: 0 < i < |times| ==> times[i - 1] <= times[i]
  }

  /** Gravity never outpaces the clock: with whole-millisecond frame
      times every drop consumes strictly more than DROP_INTERVAL, hence at
      least DROP_INTERVAL + 1, milliseconds, so the drops in a run of
      frames are bounded by the time that passed. */
  lemma {:induction false} DropsBoundedByElapsedTime(t: Timer, times: seq<int>)
    requires t.dropCounter >= 0 && Monotone(t.lastTime, times)
    ensures var r := RunTimer(t, times);
      && r.timer.dropCounter >= 0
      && r.drops * (DROP_INTERVAL + 1) + r.timer.dropCounter <= t.dropCounter + (r.timer.lastTime - t.lastTime)
    decreases |times|
  {
    if |times| > 0 {
      var step := Advance(t, times[0]);
      assert Monotone(step.timer.lastTime, times[1..]);
      DropsBoundedByElapsedTime(step.timer, times[1..]);
    }
  }

  /** One frame, `gameLoop(time)`: the timer advances and, when it fires,
      the session takes exactly one gravity step. */
  function Frame(g: Game, time: int, nextKind: int): (r: Game)
    requires IsBoard(g.board) && 0 <= nextKind < |SHAPES|
    requires !g.gameOver ==> Fits(g.piece.shape, g.piece.x, g.piece.y)
    ensures r.timer == Advance(g.timer, time).timer
    ensures Advance(g.timer, time).fires ==> r == Drop(g, nextKind).(timer := r.timer)
    ensures !Advance(g.timer, time).fires ==> r == g.(timer := r.timer)
  {
    var step := Advance(g.timer, time);
    if step.fires then Drop(g, nextKind).(timer := step.timer) else g.(timer := step.timer)
  }

  lemma FramePreservesInv(g: Game, time: int, nextKind: int)
    requires Inv(g) && 0 <= nextKind < |SHAPES|
    ensures !g.gameOver ==> Fits(g.piece.shape, g.piece.x, g.piece.y)
    ensures Inv(Frame(g, time, nextKind))
  {
    DropPreservesInv(g, nextKind);
  }

  /** One frame's input: its timestamp and the kind the random draw would
      give if a new piece is spawned in it. */
  datatype Tick = Tick(time: int, kind: int)

  predicate KindsInRange(ticks: seq<Tick>)
  {
    forall i :: 0 <= i < |ticks| ==> 0 <= ticks[i].kind < |SHAPES|
  }

  /** A run of frames. It keeps the safety invariant, never lowers the
      score, and once the game is over only the timer changes. */
  function Run(g: Game, ticks: seq<Tick>): (r: Game)
    requires Inv(g) && KindsInRange(ticks)
    ensures Inv(r)
    ensures r.score >= g.score
    ensures g.gameOver ==> r == g.(timer := r.timer)
    decreases |ticks|
  {
    if |ticks| == 0 then g
    else
      FramePreservesInv(g, ticks[0].time, ticks[0].kind);
      Run(Frame(g, ticks[0].time, ticks[0].kind), ticks[1..])
  }

  /** The timer of a run of frames is that of the frame times alone. */
  lemma {:induction false} RunFollowsTimer(g: Game, ticks: seq<Tick>)
    requires Inv(g) && KindsInRange(ticks)
    ensures Run(g, ticks).timer == RunTimer(g.timer, seq(|ticks|, i requires 0 <= i < |ticks| => ticks[i].time)).timer
    decreases |ticks|
  {
    var times := seq(|ticks|, i requires 0 <= i < |ticks| => ticks[i].time);
    if |ticks| > 0 {
      FramePreservesInv(g, ticks[0].time, ticks[0].kind);
      var g' := Frame(g, ticks[0].time, ticks[0].kind);
      RunFollowsTimer(g', ticks[1..]);
      assert times[1..] == seq(|ticks[1..]|, i requires 0 <= i < |ticks[1..]| => ticks[1..][i].time);
    }
  }

  /** Restart sets the previous-frame timestamp to 0 while frame
      timestamps keep counting from page load, so the first frame after a
      restart later than DROP_INTERVAL ms into the page already moves the
      new piece down one row. */
  lemma RestartDropsOnFirstLateFrame(kind: int, time: int, nextKind: int)
    requires 0 <= kind < |SHAPES| && 0 <= nextKind < |SHAPES|
    requires time > DROP_INTERVAL
    ensures var g := NewGame(kind);
      var r := Frame(g, time, nextKind);
      && r.piece == g.piece.(y := 1)
      && r.timer == Timer(0, time)
  {
    var g := NewGame(kind);
    CatalogueWellFormed();
    forall i, j | 0 <= i < |g.piece.shape| && 0 <= j < |g.piece.shape[i]| && g.piece.shape[i][j] != 0
      ensures !Blocked(g.board, g.piece.x + j, g.piece.y + 1 + i)
    {
      assert IsShapeOf(g.piece.shape, kind);
    }
  }
}
