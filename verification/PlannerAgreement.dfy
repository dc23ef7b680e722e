/** The planner predicts the engine: what it returns is what replaying the commands does, and nothing the engine
    can do with shifts and one hard drop is missing. */
module PlannerAgreement {
  import opened Wrappers
  import opened TetrisBoard
  import opened TetrisGame
  import opened TetrisPlanner

  /** The engine fed with a list of commands. Only a locking command looks at the clock and the next kind. */
  ghost function Replay(game: Game, commands: seq<GameCommand>, now: real, next: Kind): (after: Game)
    requires game.Legal()
    ensures after.Legal()
  {
    if commands == [] then game
    else
      var before := Replay(game, commands[..|commands| - 1], now, next);
      StepKeepsLegal(before, commands[|commands| - 1], now, next);
      Step(before, commands[|commands| - 1], now, next).0
  }

  ghost predicate AllShifts(commands: seq<GameCommand>) {
    forall c <- commands :: IsShift(c)
  }

  /** One shift moves the engine's piece exactly where the planner says, or is refused exactly when it says None. */
  lemma ShiftIsStep(game: Game, command: GameCommand, now: real, next: Kind)
    requires game.Legal() && game.CanAct() && IsShift(command)
    ensures var after := Step(game, command, now, next).0;
            match Shifted(game.board, game.active, command)
            case Some(piece) => after == game.(active := piece)
            case None => after == game.(currentRecoveryFailures := game.currentRecoveryFailures + 1)
  {
  }

  lemma {:induction false} WalkIsReplayed(game: Game, walk: seq<GameCommand>, now: real, next: Kind)
    requires game.Legal() && game.CanAct() && Walk(game.board, game.active, walk).Some?
    ensures Replay(game, walk, now, next) == game.(active := Walk(game.board, game.active, walk).value)
  {
    if walk != [] {
      var last := |walk| - 1;
      WalkIsReplayed(game, walk[..last], now, next);
      ShiftIsStep(Replay(game, walk[..last], now, next), walk[last], now, next);
    }
  }

  lemma DropIsLanding(game: Game, placement: Placement, now: real, next: Kind)
    requires game.Legal() && game.CanAct() && LandsAs(game.board, game.active, placement)
    ensures var after := Step(game, HardDrop, now, next).0;
            && after.board == placement.board
            && after.lines == game.lines + placement.linesCleared
            && after.pieceSequence == game.pieceSequence + 1
  {
    LandingRests(game.board, game.active);
  }

  /** Replaying any placement the planner stands behind leaves exactly its board and clears exactly its lines. */
  lemma PlacementIsReplayed(game: Game, placement: Placement, now: real, next: Kind)
    requires game.Legal() && game.CanAct() && IsPlanned(game.board, game.active, placement)
    ensures var after := Replay(game, placement.commands, now, next);
            && after.board == placement.board
            && after.lines == game.lines + placement.linesCleared
            && after.pieceSequence == game.pieceSequence + 1
  {
    var walk := placement.commands[..|placement.commands| - 1];
    WalkIsReplayed(game, walk, now, next);
    DropIsLanding(Replay(game, walk, now, next), placement, now, next);
  }

  /** Refused shifts do nothing, so any shifting leads where some effective walk leads that comes no later. */
  lemma {:induction false} ShiftingIsWalk(game: Game, commands: seq<GameCommand>, now: real, next: Kind)
    returns (walk: seq<GameCommand>)
    requires game.Legal() && game.CanAct() && AllShifts(commands)
    ensures NotLater(walk, commands) && Walk(game.board, game.active, walk).Some?
    ensures var after := Replay(game, commands, now, next);
            && after.active == Walk(game.board, game.active, walk).value
            && after == game.(active := after.active, currentRecoveryFailures := after.currentRecoveryFailures)
  {
    if commands == [] {
      walk := [];
    } else {
      var last := |commands| - 1;
      walk := ShiftingIsWalk(game, commands[..last], now, next);
      var before := Replay(game, commands[..last], now, next);
      ShiftIsStep(before, commands[last], now, next);
      assert commands == commands[..last] + [commands[last]];
      AppendingKeepsOrder(walk, commands[..last], commands[last], commands[last]);
      if Shifted(game.board, before.active, commands[last]).Some? {
        WalkExtends(game.board, game.active, walk, before.active, commands[last]);
        walk := walk + [commands[last]];
      }
    }
  }

  /** Every board that shifting and one hard drop can produce is on the planner's list, with commands that come no
      later. */
  lemma EveryDropIsOffered(game: Game, placements: seq<Placement>, commands: seq<GameCommand>, now: real, next: Kind)
    requires game.Legal() && game.CanAct() && AllShifts(commands)
    requires AllPlacements(game.board, game.active, placements)
    ensures var after := Replay(game, commands + [HardDrop], now, next);
            exists k :: 0 <= k < |placements| && placements[k].board == after.board
                        && game.lines + placements[k].linesCleared == after.lines
                        && NotLater(placements[k].commands, commands + [HardDrop])
  {
    hide LandsAs, Walk, Shifted, IsPlanned;
    var walk := ShiftingIsWalk(game, commands, now, next);
    var before := Replay(game, commands, now, next);
    assert (commands + [HardDrop])[..|commands|] == commands;
    assert Offers(game.board, before.active, walk, placements);
    var k :| 0 <= k < |placements| && LandsAs(game.board, before.active, placements[k])
             && NotLater(placements[k].commands, walk + [HardDrop]);
    AppendingKeepsOrder(walk, commands, HardDrop, HardDrop);
    SoonerIsTransitive(placements[k].commands, walk + [HardDrop], commands + [HardDrop]);
    DropIsLanding(before, placements[k], now, next);
  }
}
