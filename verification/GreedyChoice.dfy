/** How the greedy player scores and picks a placement, and why re-planning after every command makes progress. */
module GreedyChoice {
  import opened Wrappers
  import opened TetrisBoard
  import opened TetrisGame
  import opened TetrisPlanner
  import opened PlannerAgreement

  // ---------------------------------------------------------------- scoring

  /** The height of a column: how far its topmost occupied cell stands above the floor. */
  ghost predicate IsHeight(board: Board, x: nat, height: nat)
    requires x < BOARD_WIDTH
  {
    && height <= BOARD_HEIGHT
    && (forall y :: 0 <= y < BOARD_HEIGHT - height ==> board[y][x] == Empty)
    && (height > 0 ==> board[BOARD_HEIGHT - height][x] != Empty)
  }

  ghost function Height(board: Board, x: nat): (height: nat)
    requires x < BOARD_WIDTH
    ensures IsHeight(board, x, height)
  {
    HeightExists(board, x, 0);
    var height :| IsHeight(board, x, height);
    height
  }

  lemma {:induction false} HeightExists(board: Board, x: nat, from: nat)
    requires x < BOARD_WIDTH && from <= BOARD_HEIGHT
    requires forall y :: 0 <= y < from ==> board[y][x] == Empty
    ensures exists height :: IsHeight(board, x, height)
    decreases BOARD_HEIGHT - from
  {
    if from == BOARD_HEIGHT {
      assert IsHeight(board, x, 0);
    } else if board[from][x] != Empty {
      assert IsHeight(board, x, BOARD_HEIGHT - from);
    } else {
      HeightExists(board, x, from + 1);
    }
  }

  lemma HeightIsUnique(board: Board, x: nat, height: nat)
    requires x < BOARD_WIDTH && IsHeight(board, x, height)
    ensures height == Height(board, x)
  {
  }

  /** An empty cell with something above it. */
  ghost predicate IsHole(board: Board, x: nat, y: nat)
    requires x < BOARD_WIDTH && y < BOARD_HEIGHT
  {
    board[y][x] == Empty && exists above :: 0 <= above < y && board[above][x] != Empty
  }

  /** The holes among the first y cells of column x. */
  ghost function HolesInColumn(board: Board, x: nat, y: nat): nat
    requires x < BOARD_WIDTH && y <= BOARD_HEIGHT
  {
    if y == 0 then 0 else HolesInColumn(board, x, y - 1) + (if IsHole(board, x, y - 1) then 1 else 0)
  }

  /** The holes of the first x columns. */
  ghost function Holes(board: Board, x: nat): nat
    requires x <= BOARD_WIDTH
  {
    if x == 0 then 0 else Holes(board, x - 1) + HolesInColumn(board, x - 1, BOARD_HEIGHT)
  }

  ghost function Heights(board: Board): seq<nat> {
    seq(BOARD_WIDTH, x requires 0 <= x < BOARD_WIDTH => Height(board, x))
  }

  function Total(heights: seq<nat>): nat {
    if heights == [] then 0 else Total(heights[..|heights| - 1]) + heights[|heights| - 1]
  }

  function Distance(a: nat, b: nat): nat {
    if a < b then b - a else a - b
  }

  function Bumpiness(heights: seq<nat>): nat {
    if |heights| <= 1 then 0
    else
      var last := |heights| - 1;
      Bumpiness(heights[..last]) + Distance(heights[last], heights[last - 1])
  }

  ghost function Score(placement: Placement): real {
    var heights := Heights(placement.board);
    placement.linesCleared as real * 3.0
      - Total(heights) as real * 0.5
      - Holes(placement.board, BOARD_WIDTH) as real * 3.0
      - Bumpiness(heights) as real * 0.25
  }

  method PlacementScore(placement: Placement) returns (score: real)
    ensures score == Score(placement)
  {
    var heights, holes := MeasureColumns(placement.board);
    var aggregateHeight, bumpiness := MeasureHeights(heights);
    score := placement.linesCleared as real * 3.0 - aggregateHeight as real * 0.5 - holes as real * 3.0
             - bumpiness as real * 0.25;
  }

  /** The height of every column, and the empty squares below an occupied one in all of them. */
  method MeasureColumns(board: Board) returns (heights: seq<nat>, holes: nat)
    ensures heights == Heights(board) && holes == Holes(board, BOARD_WIDTH)
  {
    heights, holes := [], 0;
    for x := 0 to BOARD_WIDTH
      invariant |heights| == x && forall u :: 0 <= u < x ==> heights[u] == Height(board, u)
      invariant holes == Holes(board, x)
    {
      var occupied := false;
      var height: nat := 0;
      for y := 0 to BOARD_HEIGHT
        invariant holes == Holes(board, x) + HolesInColumn(board, x, y)
        invariant occupied <==> exists above :: 0 <= above < y && board[above][x] != Empty
        invariant occupied ==> BOARD_HEIGHT - y < height && IsHeight(board, x, height)
        invariant !occupied ==> height == 0
      {
        if board[y][x] != Empty {
          if !occupied {
            height := BOARD_HEIGHT - y;
          }
          occupied := true;
        } else if occupied {
          holes := holes + 1;
        }
      }
      HeightIsUnique(board, x, height);
      heights := heights + [height];
    }
    assert heights == Heights(board);
  }

  method MeasureHeights(heights: seq<nat>) returns (aggregateHeight: nat, bumpiness: nat)
    ensures aggregateHeight == Total(heights) && bumpiness == Bumpiness(heights)
  {
    aggregateHeight, bumpiness := 0, 0;
    for x := 0 to |heights|
      invariant aggregateHeight == Total(heights[..x])
      invariant bumpiness == Bumpiness(heights[..x])
    {
      assert heights[..x + 1][..x] == heights[..x];
      aggregateHeight := aggregateHeight + heights[x];
      if x > 0 {
        bumpiness := bumpiness + Distance(heights[x], heights[x - 1]);
      }
    }
    assert heights[..|heights|] == heights;
  }

  // ---------------------------------------------------------------- choosing

  /** A higher score wins; between equal scores the command list that comes first does. */
  ghost predicate AtLeastAsGood(best: Placement, other: Placement) {
    Score(best) > Score(other) || (Score(best) == Score(other) && NotLater(best.commands, other.commands))
  }

  /** Among everything the engine can do with shifts and one hard drop, nothing beats this placement. */
  ghost predicate IsBest(board: Board, start: Pose, best: Placement) {
    && IsPlanned(board, start, best)
    && forall other :: IsPlanned(board, start, other) ==> AtLeastAsGood(best, other)
  }

  lemma PlannedIsOffered(board: Board, start: Pose, placements: seq<Placement>, other: Placement) returns (k: nat)
    requires AllPlacements(board, start, placements) && IsPlanned(board, start, other)
    ensures k < |placements| && Score(placements[k]) == Score(other)
    ensures NotLater(placements[k].commands, other.commands)
  {
    hide Score, Walk, LandsAs;
    var walk := other.commands[..|other.commands| - 1];
    var piece := Walk(board, start, walk).value;
    assert Offers(board, piece, walk, placements);
    k :| 0 <= k < |placements| && LandsAs(board, piece, placements[k])
         && NotLater(placements[k].commands, walk + [HardDrop]);
    SameLandingSameScore(board, piece, placements[k], other);
  }

  lemma BestOfList(board: Board, start: Pose, placements: seq<Placement>, best: Placement)
    requires AllPlacements(board, start, placements) && best in placements
    requires forall other <- placements :: AtLeastAsGood(best, other)
    ensures IsBest(board, start, best)
  {
    hide Score, Walk, IsPlanned, Offers;
    forall other | IsPlanned(board, start, other)
      ensures AtLeastAsGood(best, other)
    {
      var k := PlannedIsOffered(board, start, placements, other);
      assert AtLeastAsGood(best, placements[k]);
      if Score(best) == Score(other) {
        SoonerIsTransitive(best.commands, placements[k].commands, other.commands);
      }
    }
  }

  lemma SameLandingSameScore(board: Board, piece: Pose, one: Placement, other: Placement)
    requires LandsAs(board, piece, one) && LandsAs(board, piece, other)
    ensures Score(one) == Score(other)
  {
  }

  /** There is only one best placement: its commands and so its board are determined. */
  lemma BestIsUnique(board: Board, start: Pose, one: Placement, other: Placement)
    requires IsBest(board, start, one) && IsBest(board, start, other)
    ensures one == other
  {
    hide Score, NotLater, IsPlanned;
    SoonerIsNotMutual(one.commands, other.commands);
    SamePlanSamePlacement(board, start, one, other);
  }

  lemma SamePlanSamePlacement(board: Board, start: Pose, one: Placement, other: Placement)
    requires IsPlanned(board, start, one) && IsPlanned(board, start, other) && one.commands == other.commands
    ensures one == other
  {
  }

  /** Picks the best placement; None when planning fails or the piece has no legal placement. */
  method ChooseGreedyPlacement(board: Board, start: Pose) returns (chosen: Option<Placement>)
    ensures chosen.Some? ==> IsBest(board, start, chosen.value)
    ensures start.y >= 0 ==> (chosen.Some? <==> !Collides(board, start))
  {
    hide Score, AllPlacements, IsPlanned, Collides, Offers, Sooner;
    var found := EnumeratePlacements(board, start);
    if found.None? {
      return None;
    }
    var placements := found.value;
    assert InOrder(placements) by { AllAreInOrder(board, start, placements); }
    var best: Option<Placement> := None;
    var bestScore := 0.0;
    for i := 0 to |placements|
      invariant best.None? <==> i == 0
      invariant best.Some? ==> bestScore == Score(best.value) && IsFirstBest(placements, i, best.value)
    {
      var placement := placements[i];
      var score := PlacementScore(placement);
      if best.Some? { NextIsCompared(placements, i, best.value); }
      if best.None? || score > bestScore
         || (score == bestScore && |placement.commands| < |best.value.commands|) {
        best := Some(placement);
        bestScore := score;
      }
    }
    if best.None? {
      SomethingIsOffered(board, start, placements);
      return None;
    }
    BestOfList(board, start, placements, best.value);
    chosen := best;
  }

  /** The best of the first n placements. */
  ghost predicate IsFirstBest(placements: seq<Placement>, n: nat, best: Placement)
    requires n <= |placements|
  {
    && best in placements[..n]
    && forall other <- placements[..n] :: AtLeastAsGood(best, other)
  }

  /** In an ordered list, only a better score displaces what is best so far. */
  lemma NextIsCompared(placements: seq<Placement>, n: nat, best: Placement)
    requires n < |placements| && InOrder(placements) && IsFirstBest(placements, n, best)
    ensures var next := placements[n];
            IsFirstBest(placements, n + 1, if Score(next) > Score(best) then next else best)
    ensures |best.commands| <= |placements[n].commands|
  {
    hide Score, Sooner;
    assert placements[..n + 1] == placements[..n] + [placements[n]];
    var k :| 0 <= k < n && placements[k] == best;
    assert Sooner(best.commands, placements[n].commands);
    SoonerIsShorter(best.commands, placements[n].commands);
  }

  lemma SoonerIsShorter(one: seq<GameCommand>, other: seq<GameCommand>)
    requires NotLater(one, other)
    ensures |one| <= |other|
  {
  }

  lemma AllAreInOrder(board: Board, start: Pose, placements: seq<Placement>)
    ensures AllPlacements(board, start, placements) ==> InOrder(placements)
  {
  }

  lemma SomethingIsOffered(board: Board, start: Pose, placements: seq<Placement>)
    ensures AllPlacements(board, start, placements) ==> placements != []
  {
    if AllPlacements(board, start, placements) {
      assert Walk(board, start, []) == Some(start);
      assert Offers(board, start, [], placements);
    }
  }

  // ---------------------------------------------------------------- re-planning

  lemma LandingIgnoresCommands(board: Board, piece: Pose, placement: Placement, commands: seq<GameCommand>)
    requires LandsAs(board, piece, placement)
    ensures LandsAs(board, piece, placement.(commands := commands))
  {
  }

  lemma RestOfPlanIsPlanned(board: Board, start: Pose, plan: Placement)
    requires IsPlanned(board, start, plan) && |plan.commands| > 1
    ensures IsShift(plan.commands[0]) && Shifted(board, start, plan.commands[0]).Some?
    ensures IsPlanned(board, Shifted(board, start, plan.commands[0]).value, plan.(commands := plan.commands[1..]))
  {
    hide LandsAs, Shifted;
    var walk := plan.commands[..|plan.commands| - 1];
    WalkFromFirst(board, start, walk);
    var rest := plan.commands[1..];
    assert rest[..|rest| - 1] == walk[1..];
    LandingIgnoresCommands(board, Walk(board, start, walk).value, plan, rest);
  }

  lemma LongerPlanIsPlanned(board: Board, start: Pose, command: GameCommand, plan: Placement)
    requires IsShift(command) && Shifted(board, start, command).Some?
    requires IsPlanned(board, Shifted(board, start, command).value, plan)
    ensures IsPlanned(board, start, plan.(commands := [command] + plan.commands))
  {
    hide LandsAs, Shifted;
    var walk := plan.commands[..|plan.commands| - 1];
    WalkPrepends(board, start, command, walk);
    var longer := [command] + plan.commands;
    assert longer[..|longer| - 1] == [command] + walk;
    LandingIgnoresCommands(board, Walk(board, start, [command] + walk).value, plan, longer);
  }

  /** After the first command of a best plan, the best plan is the rest of it. */
  lemma ReplanningProgresses(board: Board, start: Pose, plan: Placement, replan: Placement)
    requires IsBest(board, start, plan) && |plan.commands| > 1
    requires IsShift(plan.commands[0]) && Shifted(board, start, plan.commands[0]).Some?
    requires IsBest(board, Shifted(board, start, plan.commands[0]).value, replan)
    ensures replan == plan.(commands := plan.commands[1..])
  {
    hide LandsAs, Shifted, IsPlanned, Sooner;
    var (first, next) := (plan.commands[0], Shifted(board, start, plan.commands[0]).value);
    var rest := plan.(commands := plan.commands[1..]);
    var longer := replan.(commands := [first] + replan.commands);
    RestOfPlanIsPlanned(board, start, plan);
    LongerPlanIsPlanned(board, start, first, replan);
    assert AtLeastAsGood(replan, rest) && AtLeastAsGood(plan, longer);
    assert Score(rest) == Score(plan) && Score(longer) == Score(replan);
    assert plan.commands == [first] + rest.commands;
    PrependingKeepsOrder(first, rest.commands, replan.commands);
    SoonerIsNotMutual(rest.commands, replan.commands);
    SamePlanSamePlacement(board, next, rest, replan);
  }

  ghost function FirstCommands(plans: seq<Placement>): seq<GameCommand>
    requires forall i :: 0 <= i < |plans| ==> plans[i].commands != []
  {
    seq(|plans|, i requires 0 <= i < |plans| => plans[i].commands[0])
  }

  /** The player at work: before each command it plans afresh from the game as it stands. */
  ghost predicate FollowsPlans(game: Game, plans: seq<Placement>, now: real, next: Kind)
    requires game.Legal()
  {
    && (forall i :: 0 <= i < |plans| ==> plans[i].commands != [])
    && forall i :: 0 <= i < |plans| ==>
         IsBest(game.board, Replay(game, FirstCommands(plans)[..i], now, next).active, plans[i])
  }

  /** With no gravity in between, plan i is what is left of the first after i commands, and nothing but the piece's pose
      has changed before it. */
  lemma {:induction false} PlansShrink(game: Game, plans: seq<Placement>, i: nat, now: real, next: Kind)
    requires game.Legal() && game.CanAct() && FollowsPlans(game, plans, now, next)
    requires i < |plans| && i < |plans[0].commands|
    ensures plans[i] == plans[0].(commands := plans[0].commands[i..])
    ensures var before := Replay(game, FirstCommands(plans)[..i], now, next); before == game.(active := before.active)
  {
    hide Score, NotLater, IsPlanned, Shifted, Step, Collides, Occupied, NoFullRow;
    var firsts := FirstCommands(plans);
    if i == 0 {
      assert firsts[..0] == [];
    } else {
      PlansShrink(game, plans, i - 1, now, next);
      var before := Replay(game, firsts[..i - 1], now, next);
      assert firsts[..i][..i - 1] == firsts[..i - 1];
      RestOfPlanIsPlanned(game.board, before.active, plans[i - 1]);
      ShiftIsStep(before, firsts[i - 1], now, next);
      ReplanningProgresses(game.board, before.active, plans[i - 1], plans[i]);
      assert plans[0].commands[i - 1..][1..] == plans[0].commands[i..];
    }
  }

  /** The player gives exactly the commands of its first plan, though it plans afresh before each of them, and leaves
      exactly the board of that plan. */
  lemma PlayerReachesItsPlan(game: Game, plans: seq<Placement>, now: real, next: Kind)
    requires game.Legal() && game.CanAct() && FollowsPlans(game, plans, now, next)
    requires plans != [] && |plans| == |plans[0].commands|
    ensures FirstCommands(plans) == plans[0].commands
    ensures var after := Replay(game, FirstCommands(plans), now, next);
            && after.pieceSequence == game.pieceSequence + 1
            && after.board == plans[0].board
            && after.lines == game.lines + plans[0].linesCleared
  {
    hide AtLeastAsGood, IsPlanned, LandsAs, Shifted, Step, Collides, Occupied, NoFullRow;
    forall i | 0 <= i < |plans|
      ensures FirstCommands(plans)[i] == plans[0].commands[i]
    {
      PlansShrink(game, plans, i, now, next);
    }
    assert FirstCommands(plans)[..0] == [];
    PlacementIsReplayed(game, plans[0], now, next);
  }
}
