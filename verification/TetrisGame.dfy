/** The game engine: a specification over game values, the class that updates its fields in place,
    and what every run of the engine keeps. */
module TetrisGame {
  import opened Wrappers
  import opened TetrisBoard

  const LINE_SCORES: seq<nat> := [0, 100, 300, 500, 800]

  datatype Game = Game(
    board: Board,
    active: Pose,
    pieceSequence: nat,
    spawnedAt: real,
    currentRecoveryFailures: nat,
    recentPlacementTimeMs: real,
    recentRecoveryFailures: nat,
    score: nat,
    lines: nat,
    paused: bool,
    over: bool
  ) {
    predicate CanAct() {
      !paused && !over
    }

    function Level(): nat {
      LevelOf(lines)
    }

    /** What the engine keeps. While the game is live the piece is on the board and overlaps nothing. */
    predicate Legal() {
      && (!over ==> active.y >= 0 && !Collides(board, active))
      && NoFullRow(board)
      && Occupied(board) == 4 * pieceSequence - BOARD_WIDTH * lines
    }

    /** The part of Legal that a locking step relies on. */
    predicate Lockable() {
      !over ==> !Collides(board, active) && NoFullRow(board)
    }
  }

  datatype GameUpdate = GameUpdate(
    changed: bool,
    dropDistance: nat,
    locked: bool,
    lockedPiece: Option<Kind>,
    linesCleared: nat,
    placementTimeMs: Option<real>,
    recoveryFailureRecorded: bool,
    spawnedPiece: Option<Kind>,
    gameOver: bool
  )

  datatype GameCommand = MoveLeft | MoveRight | RotateClockwise | SoftDrop | HardDrop | GravityTick

  /** A command as the engine sees it: the clock reading and the kind its piece source would return next. */
  datatype Input = Command(command: GameCommand, now: real, next: Kind) | Pausing(paused: bool)

  /** A level for every ten lines, up to the twentieth. */
  function LevelOf(lines: nat): (level: nat)
    ensures level <= 20 && 10 * level <= lines && (level < 20 ==> lines < 10 * level + 10)
  {
    if lines / 10 < 20 then lines / 10 else 20
  }

  function Award(linesCleared: nat, level: nat): nat
    requires linesCleared <= 4
  {
    LINE_SCORES[linesCleared] * (level + 1)
  }

  function NewPiece(kind: Kind): Pose {
    Pose(kind, 0, (BOARD_WIDTH - 4) / 2, 0)
  }

  function NewGame(kind: Kind, startedAt: real): Game {
    var piece := NewPiece(kind);
    Game(EmptyBoard(), piece, 0, startedAt, 0, 0.0, 0, 0, 0, false, Collides(EmptyBoard(), piece))
  }

  function Unchanged(game: Game): GameUpdate {
    GameUpdate(false, 0, false, None, 0, None, false, None, game.over)
  }

  function Refused(game: Game): GameUpdate {
    Unchanged(game).(recoveryFailureRecorded := true)
  }

  function Moved(game: Game, distance: nat): GameUpdate {
    Unchanged(game).(changed := true, dropDistance := distance)
  }

  function Elapsed(since: real, now: real): real {
    if now - since > 0.0 then now - since else 0.0
  }

  predicate ReachesAbove(cells: seq<Coordinate>) {
    exists i :: 0 <= i < |cells| && cells[i].y < 0
  }

  /** The piece fits, so its cells are writable squares; a row can only be completed by one of its four cells. */
  lemma LockingFacts(board: Board, active: Pose)
    requires !Collides(board, active) && NoFullRow(board)
    ensures var cells := Cells(active);
            && (forall i :: 0 <= i < 4 ==> 0 <= cells[i].x < BOARD_WIDTH && cells[i].y < BOARD_HEIGHT)
            && (!ReachesAbove(cells) ==>
                  var stamped := Stamp(board, cells, active.kind);
                  && FullRows(stamped) <= 4
                  && Occupied(stamped) == Occupied(board) + 4
                  && ClearedBoard(stamped).lines == FullRows(stamped))
  {
    var cells := Cells(active);
    assert forall i :: 0 <= i < 4 ==> !Blocked(board, cells[i]);
    if !ReachesAbove(cells) {
      NoFullRowsIsZero(board);
      CellsDiffer(active);
      StampCounts(board, cells, active.kind);
      ClearingConserves(Stamp(board, cells, active.kind));
    }
  }

  /** Once the rows are cleared and counted: score at the new level, spawn, and see whether the new piece fits. */
  function Settled(game: Game, linesCleared: nat, now: real, distance: nat, next: Kind): (Game, GameUpdate)
    requires linesCleared <= 4
  {
    var took := Elapsed(game.spawnedAt, now);
    var piece := NewPiece(next);
    var over := game.over || Collides(game.board, piece);
    (game.(active := piece,
           pieceSequence := game.pieceSequence + 1,
           spawnedAt := now,
           currentRecoveryFailures := 0,
           recentPlacementTimeMs := took,
           recentRecoveryFailures := if game.currentRecoveryFailures < 5 then game.currentRecoveryFailures else 5,
           score := game.score + Award(linesCleared, game.Level()),
           over := over),
     GameUpdate(true, distance, true, Some(game.active.kind), linesCleared, Some(took), false,
                if over then None else Some(next), over))
  }

  /** Locking the piece where it is. A cell above the board ends the game at once. */
  function Locked(game: Game, now: real, distance: nat, next: Kind): (Game, GameUpdate)
    requires game.Lockable() && !game.over
  {
    LockingFacts(game.board, game.active);
    var cells := Cells(game.active);
    var stamped := Stamp(game.board, cells, game.active.kind);
    if ReachesAbove(cells) then
      (game.(board := stamped, over := true),
       GameUpdate(true, distance, true, Some(game.active.kind), 0, Some(Elapsed(game.spawnedAt, now)),
                  false, None, true))
    else
      var cleared := ClearedBoard(stamped);
      Settled(game.(board := cleared.board, lines := game.lines + cleared.lines), cleared.lines, now, distance, next)
  }

  function Moving(game: Game, candidate: Option<Pose>): (Game, GameUpdate) {
    if !game.CanAct() then (game, Unchanged(game))
    else if candidate.Some? && !Collides(game.board, candidate.value) then
      (game.(active := candidate.value), Moved(game, 0))
    else
      (game.(currentRecoveryFailures := game.currentRecoveryFailures + 1), Refused(game))
  }

  function Falling(game: Game, now: real, next: Kind, reward: nat): (Game, GameUpdate)
    requires game.Lockable()
  {
    if !game.CanAct() then (game, Unchanged(game))
    else if !Collides(game.board, Down(game.active)) then
      (game.(active := Down(game.active), score := game.score + reward), Moved(game, 1))
    else Locked(game, now, 0, next)
  }

  function Dropping(game: Game, now: real, next: Kind): (Game, GameUpdate)
    requires game.Lockable()
  {
    if !game.CanAct() then (game, Unchanged(game))
    else
      LandingRests(game.board, game.active);
      var rest := Landing(game.board, game.active);
      var distance := rest.y - game.active.y;
      Locked(game.(active := rest, score := game.score + distance * 2), now, distance, next)
  }

  function Step(game: Game, command: GameCommand, now: real, next: Kind): (Game, GameUpdate)
    requires game.Lockable()
  {
    match command
    case MoveLeft => Moving(game, Some(game.active.(x := game.active.x - 1)))
    case MoveRight => Moving(game, Some(game.active.(x := game.active.x + 1)))
    case RotateClockwise => Moving(game, RotatedPiece(game.board, game.active))
    case SoftDrop => Falling(game, now, next, 1)
    case HardDrop => Dropping(game, now, next)
    case GravityTick => Falling(game, now, next, 0)
  }

  function WithPaused(game: Game, paused: bool): Game {
    if game.over then game else game.(paused := paused)
  }

  // ---------------------------------------------------------------- one step

  /** Four cells arrive, whole rows of ten leave, nothing full is left, and the new piece fits or the game ends. */
  lemma LockedKeepsLegal(game: Game, now: real, distance: nat, next: Kind)
    requires game.Legal() && !game.over
    ensures var (after, update) := Locked(game, now, distance, next);
            && after.Legal()
            && update.locked && update.linesCleared <= 4
            && after.pieceSequence == game.pieceSequence + 1
            && after.lines == game.lines + update.linesCleared
            && after.score == game.score + [0, 100, 300, 500, 800][update.linesCleared] * (after.Level() + 1)
            && after.spawnedAt == now && after.currentRecoveryFailures == 0
            && after.recentPlacementTimeMs == (if game.spawnedAt < now then now - game.spawnedAt else 0.0)
            && update.placementTimeMs == Some(after.recentPlacementTimeMs)
            && update.lockedPiece == Some(game.active.kind) && update.dropDistance == distance
            && after.recentRecoveryFailures
                 == (if game.currentRecoveryFailures > 5 then 5 else game.currentRecoveryFailures)
            && (after.over <==> update.spawnedPiece.None?)
            && after.active == Pose(next, 0, 3, 0) && (after.over <==> Collides(after.board, after.active))
            && Occupied(after.board) == Occupied(game.board) + 4 - BOARD_WIDTH * update.linesCleared
  {
    hide Occupied, Collides, NoFullRow, FullRows, Stamp, ClearedBoard;
    LockingFacts(game.board, game.active);
    ClearingConserves(Stamp(game.board, Cells(game.active), game.active.kind));
  }

  ghost predicate KeepsLegal(game: Game, after: Game, update: GameUpdate) {
    && after.Legal()
    && update.gameOver == after.over
    && after.paused == game.paused
    && after.pieceSequence == game.pieceSequence + (if update.locked then 1 else 0)
    && after.lines == game.lines + update.linesCleared
    && update.linesCleared <= 4
    && after.score >= game.score
    && (update.locked ==> update.changed)
    && (!update.locked ==> after.over == game.over)
    && (!update.changed ==> after == game.(currentRecoveryFailures := after.currentRecoveryFailures))
  }

  lemma MovingKeepsLegal(game: Game, candidate: Option<Pose>)
    requires game.Legal()
    requires candidate.Some? ==> candidate.value.y == game.active.y
    ensures var (after, update) := Moving(game, candidate); KeepsLegal(game, after, update)
  {
  }

  lemma FallingKeepsLegal(game: Game, now: real, next: Kind, reward: nat)
    requires game.Legal()
    ensures var (after, update) := Falling(game, now, next, reward); KeepsLegal(game, after, update)
  {
    if game.CanAct() { LockedKeepsLegal(game, now, 0, next); }
  }

  lemma DroppingKeepsLegal(game: Game, now: real, next: Kind)
    requires game.Legal()
    ensures var (after, update) := Dropping(game, now, next); KeepsLegal(game, after, update)
  {
    if game.CanAct() {
      LandingRests(game.board, game.active);
      var rest := Landing(game.board, game.active);
      var distance := rest.y - game.active.y;
      LockedKeepsLegal(game.(active := rest, score := game.score + distance * 2), now, distance, next);
    }
  }

  lemma StepKeepsLegal(game: Game, command: GameCommand, now: real, next: Kind)
    requires game.Legal()
    ensures var (after, update) := Step(game, command, now, next); KeepsLegal(game, after, update)
  {
    match command
    case MoveLeft => MovingKeepsLegal(game, Some(game.active.(x := game.active.x - 1)));
    case MoveRight => MovingKeepsLegal(game, Some(game.active.(x := game.active.x + 1)));
    case RotateClockwise =>
      FirstFreeIsFree(game.board, game.active.(rotation := (game.active.rotation + 1) % 4), KICKS);
      MovingKeepsLegal(game, RotatedPiece(game.board, game.active));
    case SoftDrop => FallingKeepsLegal(game, now, next, 1);
    case HardDrop => DroppingKeepsLegal(game, now, next);
    case GravityTick => FallingKeepsLegal(game, now, next, 0);
  }

  /** Only a lock changes the board and the lines. */
  lemma OnlyLocksClear(game: Game, command: GameCommand, now: real, next: Kind)
    requires game.Lockable()
    ensures var (after, update) := Step(game, command, now, next);
            !update.locked ==> after.board == game.board && after.lines == game.lines
  {
    hide Occupied, Collides, NoFullRow, Stamp, ClearedBoard;
  }

  // ---------------------------------------------------------------- whole runs

  datatype Outcome = Outcome(game: Game, locks: nat, linesCleared: nat)

  /** The game after a run of inputs, with the locks and the cleared lines its updates reported. */
  ghost function Run(game: Game, inputs: seq<Input>): (outcome: Outcome)
    requires game.Legal()
    ensures outcome.game.Legal()
  {
    if inputs == [] then Outcome(game, 0, 0)
    else
      var before := Run(game, inputs[..|inputs| - 1]);
      match inputs[|inputs| - 1]
      case Pausing(paused) => before.(game := WithPaused(before.game, paused))
      case Command(command, now, next) =>
        StepKeepsLegal(before.game, command, now, next);
        var (after, update) := Step(before.game, command, now, next);
        Outcome(after, before.locks + (if update.locked then 1 else 0), before.linesCleared + update.linesCleared)
  }

  lemma EmptyBoardIsFree()
    ensures Occupied(EmptyBoard()) == 0 && NoFullRow(EmptyBoard())
    ensures forall cell: Coordinate :: 0 <= cell.x < BOARD_WIDTH && 0 <= cell.y < BOARD_HEIGHT
                                       ==> !Blocked(EmptyBoard(), cell)
  {
    var board := EmptyBoard();
    OccupiedEmptyRows(board);
    assert forall y :: 0 <= y < BOARD_HEIGHT ==> board[y][0] == Empty;
  }

  lemma NewGameIsLegal(kind: Kind, startedAt: real)
    ensures NewGame(kind, startedAt).Legal() && !NewGame(kind, startedAt).over
  {
    EmptyBoardIsFree();
    var cells := Cells(NewPiece(kind));
    assert forall i :: 0 <= i < 4 ==> !Blocked(EmptyBoard(), cells[i]);
  }

  predicate InsideBoard(piece: Pose) {
    forall cell <- Cells(piece) :: 0 <= cell.x < BOARD_WIDTH && 0 <= cell.y < BOARD_HEIGHT
  }

  predicate OverlapsNothing(board: Board, piece: Pose)
    requires InsideBoard(piece)
  {
    forall cell <- Cells(piece) :: board[cell.y][cell.x] == Empty
  }

  lemma LivePieceFits(board: Board, piece: Pose)
    requires piece.y >= 0 && !Collides(board, piece)
    ensures InsideBoard(piece) && OverlapsNothing(board, piece)
  {
    var cells := Cells(piece);
    assert forall i :: 0 <= i < 4 ==> !Blocked(board, cells[i]);
  }

  ghost function RunFromStart(kind: Kind, startedAt: real, inputs: seq<Input>): Outcome {
    NewGameIsLegal(kind, startedAt);
    Run(NewGame(kind, startedAt), inputs)
  }

  /** The books balance over a whole run: its updates account for every piece and every line. */
  lemma {:induction false} UpdatesAccountForRun(game: Game, inputs: seq<Input>)
    requires game.Legal()
    ensures var outcome := Run(game, inputs);
            && outcome.game.pieceSequence == game.pieceSequence + outcome.locks
            && outcome.game.lines == game.lines + outcome.linesCleared
            && outcome.game.score >= game.score
  {
    hide NoFullRow, Collides, Occupied;
    if inputs != [] {
      var last := |inputs| - 1;
      UpdatesAccountForRun(game, inputs[..last]);
      if inputs[last].Command? {
        var input := inputs[last];
        StepKeepsLegal(Run(game, inputs[..last]).game, input.command, input.now, input.next);
      }
    }
  }

  /** The board invariant over all runs from a new game, and the books it keeps. */
  lemma EveryRunIsLegal(kind: Kind, startedAt: real, inputs: seq<Input>)
    ensures var outcome := RunFromStart(kind, startedAt, inputs);
            var game := outcome.game;
            && (!game.over ==> InsideBoard(game.active) && OverlapsNothing(game.board, game.active))
            && NoFullRow(game.board)
            && Occupied(game.board) == 4 * outcome.locks - BOARD_WIDTH * outcome.linesCleared
            && game.pieceSequence == outcome.locks
            && game.lines == outcome.linesCleared
  {
    NewGameIsLegal(kind, startedAt);
    UpdatesAccountForRun(NewGame(kind, startedAt), inputs);
    var game := RunFromStart(kind, startedAt, inputs).game;
    if !game.over { LivePieceFits(game.board, game.active); }
  }

  // ---------------------------------------------------------------- the engine

  class TetrisGame {
    var board: Board
    var active: Pose
    var pieceSequence: nat
    var spawnedAt: real
    var currentRecoveryFailures: nat
    var recentPlacementTimeMs: real
    var recentRecoveryFailures: nat
    var scoreValue: nat
    var lineCount: nat
    var pausedValue: bool
    var gameOverValue: bool

    function State(): Game
      reads this
    {
      Game(board, active, pieceSequence, spawnedAt, currentRecoveryFailures, recentPlacementTimeMs,
           recentRecoveryFailures, scoreValue, lineCount, pausedValue, gameOverValue)
    }

    predicate CanAct()
      reads this
    {
      !pausedValue && !gameOverValue
    }

    constructor (first: Kind, startedAt: real)
      ensures State() == NewGame(first, startedAt)
      ensures State().Legal()
    {
      board := EmptyBoard();
      pieceSequence, spawnedAt := 0, startedAt;
      currentRecoveryFailures, recentPlacementTimeMs, recentRecoveryFailures := 0, 0.0, 0;
      scoreValue, lineCount, pausedValue := 0, 0, false;
      active := NewPiece(first);
      gameOverValue := Collides(EmptyBoard(), NewPiece(first));
      new;
      NewGameIsLegal(first, startedAt);
    }

    method SetPaused(paused: bool)
      requires State().Legal()
      modifies this`pausedValue
      ensures State() == WithPaused(old(State()), paused)
      ensures State().Legal()
    {
      if !gameOverValue {
        pausedValue := paused;
      }
    }

    method MoveLeft() returns (update: GameUpdate)
      requires State().Legal()
      modifies this`active, this`currentRecoveryFailures
      ensures forall now, next :: (State(), update) == Step(old(State()), GameCommand.MoveLeft, now, next)
      ensures State().Legal()
    {
      StepKeepsLegal(State(), GameCommand.MoveLeft, 0.0, I);
      update := Move(-1, 0);
    }

    method MoveRight() returns (update: GameUpdate)
      requires State().Legal()
      modifies this`active, this`currentRecoveryFailures
      ensures forall now, next :: (State(), update) == Step(old(State()), GameCommand.MoveRight, now, next)
      ensures State().Legal()
    {
      StepKeepsLegal(State(), GameCommand.MoveRight, 0.0, I);
      update := Move(1, 0);
    }

    method RotateClockwise() returns (update: GameUpdate)
      requires State().Legal()
      modifies this`active, this`currentRecoveryFailures
      ensures forall now, next :: (State(), update) == Step(old(State()), GameCommand.RotateClockwise, now, next)
      ensures State().Legal()
    {
      StepKeepsLegal(State(), GameCommand.RotateClockwise, 0.0, I);
      if !CanAct() {
        return Unchanged(State());
      }
      var candidate := RotatedPiece(board, active);
      FirstFreeIsFree(board, active.(rotation := (active.rotation + 1) % 4), KICKS);
      if candidate.Some? {
        active := candidate.value;
        return Moved(State(), 0);
      }
      currentRecoveryFailures := currentRecoveryFailures + 1;
      update := Refused(State());
    }

    method SoftDrop(now: real, next: Kind) returns (update: GameUpdate)
      requires State().Legal()
      modifies this
      ensures State() == Step(old(State()), GameCommand.SoftDrop, now, next).0
      ensures update == Step(old(State()), GameCommand.SoftDrop, now, next).1
      ensures State().Legal()
    {
      StepKeepsLegal(State(), GameCommand.SoftDrop, now, next);
      if !CanAct() {
        return Unchanged(State());
      }
      var candidate := Down(active);
      if !Collides(board, candidate) {
        active := candidate;
        scoreValue := scoreValue + 1;
        return Moved(State(), 1);
      }
      update := Lock(now, 0, next);
    }

    method HardDrop(now: real, next: Kind) returns (update: GameUpdate)
      requires State().Legal()
      modifies this
      ensures State() == Step(old(State()), GameCommand.HardDrop, now, next).0
      ensures update == Step(old(State()), GameCommand.HardDrop, now, next).1
      ensures State().Legal()
    {
      hide Locked, NoFullRow, Occupied;
      StepKeepsLegal(State(), GameCommand.HardDrop, now, next);
      if !CanAct() {
        return Unchanged(State());
      }
      var distance: nat := 0;
      ghost var rest := Landing(board, active);
      while !Collides(board, Down(active))
        invariant active.y >= 0 && !Collides(board, active)
        invariant State() == old(State()).(active := active)
        invariant distance == active.y - old(active.y)
        invariant Landing(board, active) == rest
        decreases BOARD_HEIGHT - active.y
      {
        assert !Blocked(board, Cells(Down(active))[0]);
        active := Down(active);
        distance := distance + 1;
      }
      scoreValue := scoreValue + distance * 2;
      update := Lock(now, distance, next);
    }

    method Tick(now: real, next: Kind) returns (update: GameUpdate)
      requires State().Legal()
      modifies this
      ensures State() == Step(old(State()), GravityTick, now, next).0
      ensures update == Step(old(State()), GravityTick, now, next).1
      ensures State().Legal()
    {
      StepKeepsLegal(State(), GravityTick, now, next);
      if !CanAct() {
        return Unchanged(State());
      }
      var candidate := Down(active);
      if !Collides(board, candidate) {
        active := candidate;
        return Moved(State(), 1);
      }
      update := Lock(now, 0, next);
    }

    method Move(x: int, y: int) returns (update: GameUpdate)
      modifies this`active, this`currentRecoveryFailures
      ensures State() == Moving(old(State()), Some(old(active).(x := old(active).x + x, y := old(active).y + y))).0
      ensures update == Moving(old(State()), Some(old(active).(x := old(active).x + x, y := old(active).y + y))).1
    {
      if !CanAct() {
        return Unchanged(State());
      }
      var candidate := active.(x := active.x + x, y := active.y + y);
      if Collides(board, candidate) {
        currentRecoveryFailures := currentRecoveryFailures + 1;
        return Refused(State());
      }
      active := candidate;
      update := Moved(State(), 0);
    }

    method Lock(now: real, dropDistance: nat, next: Kind) returns (update: GameUpdate)
      requires State().Lockable() && !gameOverValue
      modifies this
      ensures State() == Locked(old(State()), now, dropDistance, next).0
      ensures update == Locked(old(State()), now, dropDistance, next).1
    {
      hide Settled, ClearedBoard, NoFullRow, Occupied, Collides, FullRows, Elapsed, Stamp, ReachesAbove;
      LockingFacts(board, active);
      var lockedPiece := active.kind;
      var placementTimeMs := Elapsed(spawnedAt, now);
      var cells := Cells(active);
      var written := WriteCells(cells, lockedPiece);
      if !written {
        gameOverValue := true;
        return GameUpdate(true, dropDistance, true, Some(lockedPiece), 0, Some(placementTimeMs), false, None, true);
      }
      var linesCleared := ClearLines();
      update := Settle(lockedPiece, placementTimeMs, linesCleared, now, dropDistance, next);
    }

    /** Writes the piece into the board cell by cell, up to the first one above it; false if there is one. */
    method WriteCells(cells: seq<Coordinate>, lockedPiece: Kind) returns (written: bool)
      requires |cells| == 4 && forall i :: 0 <= i < 4 ==> 0 <= cells[i].x < BOARD_WIDTH && cells[i].y < BOARD_HEIGHT
      modifies this`board
      ensures board == Stamp(old(board), cells, lockedPiece)
      ensures written <==> !ReachesAbove(cells)
    {
      for i := 0 to 4
        invariant forall j :: 0 <= j < i ==> cells[j].y >= 0
        invariant Stamp(board, cells[i..], lockedPiece) == Stamp(old(board), cells, lockedPiece)
      {
        if cells[i].y < 0 {
          return false;
        }
        assert cells[i..][1..] == cells[i + 1..];
        board := SetCell(board, cells[i], lockedPiece);
      }
      written := true;
    }

    /** The rest of a lock once the rows are cleared. */
    method Settle(lockedPiece: Kind, placementTimeMs: real, linesCleared: nat, now: real, dropDistance: nat, next: Kind)
      returns (update: GameUpdate)
      requires linesCleared <= 4
      requires lockedPiece == active.kind && placementTimeMs == Elapsed(spawnedAt, now)
      modifies this
      ensures (State(), update) == Settled(old(State()), linesCleared, now, dropDistance, next)
    {
      hide Collides, LevelOf, Award, NewPiece, Elapsed;
      scoreValue := scoreValue + Award(linesCleared, LevelOf(lineCount));
      recentPlacementTimeMs, recentRecoveryFailures, currentRecoveryFailures :=
        placementTimeMs, if currentRecoveryFailures < 5 then currentRecoveryFailures else 5, 0;
      active, pieceSequence, spawnedAt := NewPiece(next), pieceSequence + 1, now;
      if Collides(board, active) {
        gameOverValue := true;
      }
      update := GameUpdate(true, dropDistance, true, Some(lockedPiece), linesCleared, Some(placementTimeMs), false,
                           if gameOverValue then None else Some(next), gameOverValue);
    }

    method ClearLines() returns (lines: nat)
      modifies this`board, this`lineCount
      ensures board == ClearedBoard(old(board)).board && lines == ClearedBoard(old(board)).lines
      ensures lineCount == old(lineCount) + lines
    {
      var cleared := ClearedBoard(board);
      board := cleared.board;
      lineCount := lineCount + cleared.lines;
      lines := cleared.lines;
    }
  }
}
