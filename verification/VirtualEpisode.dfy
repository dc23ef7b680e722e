/** The autonomous episode on a virtual clock: one loop that jumps from event to event. */
module VirtualEpisode {
  import opened Wrappers
  import opened TetrisBoard
  import opened TetrisGame
  import opened TetrisPlanner
  import opened GreedyChoice
  import opened Session
  import Protocol = Session
  import opened SessionEngine
  import opened GreedyPlayer
  import DropInterval

  const REFRESH_INTERVAL_MS := 5000.0
  const DEFAULT_DROP_INTERVAL_MS := 800.0
  const SHORTEST_DROP_INTERVAL_MS := 200.0
  const LONGEST_DROP_INTERVAL_MS := 1500.0

  /** The piece source and the provider are functions of how often they have been asked. */
  datatype Options = Options(
    durationMs: real,
    dropIntervalMs: Option<real>,
    provider: Option<nat -> Answer>,
    sessionId: string,
    pacing: Pacing
  ) {
    function SessionConfig(): Config {
      Config(Some(if dropIntervalMs.Some? then dropIntervalMs.value else DEFAULT_DROP_INTERVAL_MS), Immediate)
    }

    predicate Accepted() {
      durationMs > 0.0 && SessionConfig().Valid() && pacing.Valid()
    }
  }

  /** How far an episode came. */
  datatype Reached = Reached(state: Session, elapsedMs: real, piecesLocked: nat, hardDrops: nat)

  /** An episode is rejected for its options, fails with a refresh that fails, or returns its result. */
  datatype Outcome = Finished(result: Reached) | RefreshFailed(reached: Reached) | Rejected

  // ---------------------------------------------------------------- what a run contains

  /** The provider's answers in a run, in order. */
  function Answers(events: seq<Event>): seq<Answer> {
    if events == [] then []
    else
      var last := events[|events| - 1];
      Answers(events[..|events| - 1]) + (if last.ProviderAnswers? then [last.answer] else [])
  }

  predicate IsHardDrop(event: Event) {
    event.Dispatch? && event.sessionCommand == Act(HardDrop)
  }

  /** How many hard drops a run contains. */
  function Drops(events: seq<Event>): nat {
    if events == [] then 0
    else Drops(events[..|events| - 1]) + (if IsHardDrop(events[|events| - 1]) then 1 else 0)
  }

  lemma {:induction false} RunsAdd(events: seq<Event>, more: seq<Event>)
    ensures Answers(events + more) == Answers(events) + Answers(more)
    ensures Drops(events + more) == Drops(events) + Drops(more)
  {
    if more == [] {
      assert events + more == events;
    } else {
      RunsAdd(events, more[..|more| - 1]);
      assert (events + more)[..|events + more| - 1] == events + more[..|more| - 1];
    }
  }

  lemma OneEvent(event: Event)
    ensures Answers([event]) == if event.ProviderAnswers? then [event.answer] else []
    ensures Drops([event]) == if IsHardDrop(event) then 1 else 0
  {
    assert [event][..0] == [];
  }

  /** The answers are the provider's, in the order in which it was asked. */
  ghost predicate AreProvided(answers: seq<Answer>, provider: Option<nat -> Answer>) {
    if provider.None? then answers == [] else forall i :: 0 <= i < |answers| ==> answers[i] == provider.value(i)
  }

  // ---------------------------------------------------------------- spaced events

  ghost predicate Spaced(times: seq<real>, gap: real) {
    forall i :: 0 <= i < |times| - 1 ==> times[i] + gap <= times[i + 1]
  }

  ghost predicate Increasing(times: seq<real>) {
    forall i :: 0 <= i < |times| - 1 ==> times[i] < times[i + 1]
  }

  /** When the next event may come: not before the starting time, and a gap after the last one. */
  function Due(times: seq<real>, gap: real, from: real): real {
    if times == [] then from else times[|times| - 1] + gap
  }

  ghost predicate Paced(times: seq<real>, gap: real, from: real, now: real) {
    Spaced(times, gap) && forall i :: 0 <= i < |times| ==> from <= times[i] <= now
  }

  lemma OneMore(times: seq<real>, gap: real, from: real, now: real, later: real)
    requires Paced(times, gap, from, now) && now <= later && Due(times, gap, from) <= later && gap > 0.0
    ensures Paced(times + [later], gap, from, later)
    ensures Due(times + [later], gap, from) == later + gap
  {
  }

  /** The clock after every iteration so far: it advanced each time. */
  ghost predicate Ticked(clock: seq<real>, now: real) {
    && Increasing(clock)
    && (if clock == [] then now == 0.0 else clock[|clock| - 1] == now)
  }

  lemma OneTick(clock: seq<real>, now: real, later: real)
    requires Ticked(clock, now) && (clock != [] ==> now < later)
    ensures Ticked(clock + [later], later)
  {
  }

  /** The clock never rests longer than the given time. */
  ghost predicate Prompt(clock: seq<real>, wait: real) {
    && (clock != [] ==> clock[0] <= wait)
    && forall i :: 0 <= i < |clock| - 1 ==> clock[i + 1] <= clock[i] + wait
  }

  lemma PromptTick(clock: seq<real>, now: real, later: real, wait: real)
    requires Ticked(clock, now) && Prompt(clock, wait) && later <= now + wait
    ensures Prompt(clock + [later], wait)
  {
  }

  /** Every instant before the end is one at which gravity fired or a command was given. */
  ghost predicate Busy(clock: seq<real>, fires: seq<real>, commands: seq<real>, end: real) {
    forall instant <- clock :: instant < end ==> instant in fires || instant in commands
  }

  lemma BusyTick(clock: seq<real>, fires: seq<real>, commands: seq<real>, end: real, later: real, fired: bool,
                 commanded: bool)
    requires Busy(clock, fires, commands, end) && (fired || commanded || later >= end)
    ensures Busy(clock + [later], if fired then fires + [later] else fires,
                 if commanded then commands + [later] else commands, end)
  {
    var more, others := (if fired then fires + [later] else fires),
                        (if commanded then commands + [later] else commands);
    assert fired ==> more[|fires|] == later;
    assert commanded ==> others[|commands|] == later;
    assert forall i :: 0 <= i < |fires| ==> more[i] == fires[i];
    assert forall i :: 0 <= i < |commands| ==> others[i] == commands[i];
  }

  function Span(count: nat, gap: real): real {
    count as real * gap
  }

  lemma SpanGrows(count: nat, gap: real)
    ensures Span(count + 1, gap) == Span(count, gap) + gap
  {
  }

  lemma {:induction false} SpacedSpan(times: seq<real>, gap: real)
    requires Spaced(times, gap) && times != []
    ensures times[0] + Span(|times| - 1, gap) <= times[|times| - 1]
  {
    hide Span;
    var last := |times| - 1;
    if last == 0 {
      assert Span(0, gap) == 0.0 by { SpanOfNone(gap); }
    } else {
      assert Spaced(times[..last], gap);
      SpacedSpan(times[..last], gap);
      SpanGrows(last - 1, gap);
    }
  }

  lemma SpanOfNone(gap: real)
    ensures Span(0, gap) == 0.0
  {
  }

  /** How many events a stretch of time has room for. */
  function Room(duration: real, gap: real): nat
    requires duration >= 0.0 && gap > 0.0
  {
    Quotient(duration, gap);
    (duration / gap).Floor
  }

  lemma Quotient(duration: real, gap: real)
    requires duration >= 0.0 && gap > 0.0
    ensures duration / gap >= 0.0 && duration / gap * gap == duration
  {
  }

  lemma SpanFits(count: nat, duration: real, gap: real)
    requires duration >= 0.0 && gap > 0.0 && Span(count, gap) <= duration
    ensures count <= Room(duration, gap)
  {
    Quotient(duration, gap);
    if count as real > duration / gap {
      Scaled(count as real, duration / gap, gap);
    }
  }

  lemma Scaled(a: real, b: real, gap: real)
    requires a > b && gap > 0.0
    ensures a * gap > b * gap
  {
  }

  /** Events at least a gap apart within the duration: no more than its room, plus one if the first may come at once. */
  lemma PacedFits(times: seq<real>, gap: real, from: real, now: real, duration: real)
    requires Paced(times, gap, from, now) && 0.0 <= from && 0.0 <= now <= duration && gap > 0.0
    ensures |times| <= Room(duration, gap) + 1
    ensures from >= gap ==> |times| <= Room(duration, gap)
  {
    hide Span, Room;
    if times != [] {
      SpacedSpan(times, gap);
      SpanFits(|times| - 1, duration, gap);
      if from >= gap {
        SpanGrows(|times| - 1, gap);
        SpanFits(|times|, duration, gap);
      }
    }
  }

  // ---------------------------------------------------------------- what happens at one instant

  /** A game command at a session in play. */
  method Perform(session: TetrisSession, command: GameCommand, now: real, next: Kind)
    returns (locked: bool, ghost events: seq<Event>)
    requires session.Valid() && session.State().Status() == Playing && session.State().lastObservedAt <= now
    requires session.policyRefresh.None?
    modifies session, session.game, session.observationWindow
    ensures session.Valid() && session.policyRefresh.None?
    ensures session.game == old(session.game) || fresh(session.game)
    ensures session.observationWindow == old(session.observationWindow) || fresh(session.observationWindow)
    ensures session.State() == Protocol.Run(old(session.State()), events)
    ensures session.State().lastObservedAt == now
    ensures session.State().game.pieceSequence == old(session.State().game.pieceSequence) + (if locked then 1 else 0)
    ensures !locked ==> session.State().Status() == Playing
    ensures !locked ==> session.State().selection == old(session.State()).selection
    ensures IsShift(command) ==> !locked
    ensures command == HardDrop ==> locked
    ensures events == [Event.Dispatch(Act(command), now, next)]
    ensures IsActedOn(old(session.State()), command, now, next, session.State(), locked)
  {
    hide Inv, Collides, NoFullRow, Occupied, LocalInterval, Cancelled;
    ghost var before := session.State();
    events := [Event.Dispatch(Act(command), now, next)];
    LegalGame(before);
    StepKeepsLegal(before.game, command, now, next);
    RunOfOne(before, events[0]);
    ActingIsStep(before, command, now, next);
    var update := session.Dispatch(Act(command), now, next);
    locked := update.value.locked;
  }

  /** The session after a game command, and whether the command locked the piece. */
  ghost predicate IsActedOn(before: Session, command: GameCommand, now: real, next: Kind, after: Session,
                            locked: bool) {
    && before.game.Legal()
    && after == After(before, Event.Dispatch(Act(command), now, next))
    && (locked <==> Step(before.game, command, now, next).1.locked)
  }

  lemma RunOfOne(session: Session, event: Event)
    requires Inv(session)
    ensures Protocol.Run(session, [event]) == After(session, event)
  {
    assert [event][..0] == [];
    assert Protocol.Run(session, []) == session;
  }

  lemma ActingIsStep(session: Session, command: GameCommand, now: real, next: Kind)
    requires Inv(session) && !session.closed && session.lastObservedAt <= now
    ensures var after := After(session, Event.Dispatch(Act(command), now, next));
            && after.game == Step(session.game, command, now, next).0
            && after.lastObservedAt == now && !after.closed && (session.tracked.None? ==> after.tracked.None?)
    ensures !Step(session.game, command, now, next).1.locked ==>
              After(session, Event.Dispatch(Act(command), now, next)).selection == session.selection
    ensures IsShift(command) ==> !Step(session.game, command, now, next).1.locked
    ensures command == HardDrop && session.Status() == Playing ==> Step(session.game, command, now, next).1.locked
  {
    hide Inv, Collides, NoFullRow, Occupied, LocalInterval;
    LegalGame(session);
  }

  /** A refresh that is awaited: it begins, is answered and settles before anything else happens. It fails exactly when
      the answer is out of bounds. */
  method Refreshing(session: TetrisSession, answer: Answer, now: real) returns (failed: bool, ghost events: seq<Event>)
    requires session.Valid() && session.State().Status() == Playing && session.State().lastObservedAt <= now
    requires session.policyRefresh.None?
    modifies session, session.observationWindow
    ensures session.Valid() && session.game == old(session.game) && session.policyRefresh.None?
    ensures session.observationWindow == old(session.observationWindow)
    ensures session.State() == Protocol.Run(old(session.State()), events)
    ensures session.State().Status() == Playing && session.State().lastObservedAt <= now
    ensures session.State().game == old(session.State().game)
    ensures failed <==> OutOfBounds(answer)
    ensures failed ==> session.State().selection == old(session.State().selection)
    ensures events == RefreshEvents(|old(session.refreshes)|, answer, now)
  {
    hide Inv, Collides, NoFullRow, Occupied, LocalInterval, UpdatedSelection, AfterSelection, Summarizes, Pressure,
         EvidenceAfter, OutOfBounds, Refuses;
    ghost var before := session.State();
    var context := session.RefreshPolicy(now, false);
    var id := |session.refreshes| - 1;
    ghost var started := session.State();
    failed := session.ProviderAnswered(id, answer);
    ghost var answered := session.State();
    session.Settled(id);
    RefusedExactlyIf(started, id, answer);
    AnswerKeepsTracking(started, id, answer);
    ThreeSteps(before, StartRefresh(now, false), ProviderAnswers(id, answer), Settle(id));
    events := RefreshEvents(id, answer, now);
  }

  function RefreshEvents(id: nat, answer: Answer, now: real): seq<Event> {
    [StartRefresh(now, false)] + [ProviderAnswers(id, answer)] + [Settle(id)]
  }

  lemma RefreshContains(id: nat, answer: Answer, now: real)
    ensures Answers(RefreshEvents(id, answer, now)) == [answer] && Drops(RefreshEvents(id, answer, now)) == 0
  {
    hide Answers, Drops;
    OneEvent(StartRefresh(now, false));
    OneEvent(ProviderAnswers(id, answer));
    OneEvent(Settle(id));
    RunsAdd([StartRefresh(now, false)], [ProviderAnswers(id, answer)]);
    RunsAdd([StartRefresh(now, false)] + [ProviderAnswers(id, answer)], [Settle(id)]);
  }

  lemma ThreeSteps(session: Session, one: Event, two: Event, three: Event)
    requires Inv(session)
    ensures Inv(After(session, one)) && Inv(After(After(session, one), two))
    ensures Protocol.Run(session, [one] + [two] + [three]) == After(After(After(session, one), two), three)
  {
    hide Inv, After, Protocol.Run;
    LegalGame(session);
    EveryStepKeeps(session, one);
    LegalGame(After(session, one));
    EveryStepKeeps(After(session, one), two);
    LegalGame(After(After(session, one), two));
    RunOfOne(session, one);
    RunOfOne(After(session, one), two);
    RunOfOne(After(After(session, one), two), three);
    RunComposes(session, [one], [two]);
    RunComposes(session, [one] + [two], [three]);
  }

  lemma AnswerKeepsTracking(session: Session, id: nat, answer: Answer)
    requires Inv(session) && session.tracked == Some(id) && session.Status() == Playing && IsLive(session.refreshes[id])
    ensures var after := AfterAnswer(session, id, answer);
            && after.tracked == Some(id) && |after.refreshes| == |session.refreshes| && after.refreshes[id].answered
            && after.Status() == Playing && after.lastObservedAt == session.lastObservedAt && after.game == session.game
    ensures CanApply(session, session.refreshes[id])
  {
    hide UpdatedSelection, LocalInterval, DropInterval.ValidDropInterval;
  }

  /** Gravity fires, and the next fall takes the interval in force afterwards. */
  method FireGravity(session: TetrisSession, now: real, next: Kind)
    returns (locked: bool, gravityAt: real, ghost events: seq<Event>)
    requires session.Valid() && session.State().Status() == Playing && session.State().lastObservedAt <= now
    requires session.policyRefresh.None?
    modifies session, session.game, session.observationWindow
    ensures session.Valid() && session.policyRefresh.None?
    ensures session.game == old(session.game) || fresh(session.game)
    ensures session.observationWindow == old(session.observationWindow) || fresh(session.observationWindow)
    ensures session.State() == Protocol.Run(old(session.State()), events)
    ensures session.State().lastObservedAt == now
    ensures session.State().game.pieceSequence == old(session.State().game.pieceSequence) + (if locked then 1 else 0)
    ensures !locked ==> session.State().Status() == Playing
    ensures gravityAt == now + session.State().selection.intervalMs
    ensures now + SHORTEST_DROP_INTERVAL_MS <= gravityAt <= now + LONGEST_DROP_INTERVAL_MS
    ensures Answers(events) == [] && Drops(events) == 0
    ensures IsActedOn(old(session.State()), GravityTick, now, next, session.State(), locked)
  {
    hide Inv, Step, Protocol.Run, Answers, Drops, IsActedOn;
    locked, events := Perform(session, GravityTick, now, next);
    OneEvent(events[0]);
    IntervalIsBounded(session.State());
    gravityAt := now + session.selection.intervalMs;
  }

  /** The player's turn: it acts if the session is still played and its action is due, and only a hard drop locks. */
  method PlayersTurn(session: TetrisSession, player: GreedyTetrisPlayer, now: real, next: Kind)
    returns (command: Option<GameCommand>, locked: bool, ghost events: seq<Event>)
    requires session.Valid() && player.Valid() && player.session == session && player.Accepts(now)
    requires session.State().lastObservedAt <= now && session.policyRefresh.None?
    modifies session, session.game, session.observationWindow, player
    ensures session.Valid() && player.Valid() && player.Accepts(now) && session.policyRefresh.None?
    ensures session.game == old(session.game) || fresh(session.game)
    ensures session.observationWindow == old(session.observationWindow) || fresh(session.observationWindow)
    ensures session.State() == Protocol.Run(old(session.State()), events)
    ensures session.State().lastObservedAt <= now
    ensures session.State().game.pieceSequence == old(session.State().game.pieceSequence) + (if locked then 1 else 0)
    ensures locked <==> command == Some(HardDrop)
    ensures Answers(events) == [] && Drops(events) == if locked then 1 else 0
    ensures command.Some? ==> old(session.State()).Status() == Playing
    ensures old(session.State()).Status() == Playing ==>
              && (command.Some? <==> old(player.DueAt(now)) <= now)
              && player.pieceSequence == Some(old(session.State()).game.pieceSequence)
              && player.actionAt == Some(if command.Some? then now + player.pacing.commandIntervalMs
                                         else old(player.DueAt(now)))
    ensures IsTurn(old(session.State()), command, now, next, session.State())
    ensures !locked ==> session.State().selection == old(session.State()).selection
  {
    hide Inv, IsBest, Protocol.Run, Step, Answers, Drops, IsActedOn;
    NothingHappens();
    command, locked, events := None, false, [];
    NoEvents(session.State());
    if session.State().Status() == Playing {
      ghost var plan;
      var reply;
      reply, plan := player.NextCommand(now);
      command := reply.value;
      if command.Some? {
        OnlyHardDropLocks(session.State().game, plan.value);
        assert IsChosen(session.State().game, command.value);
        locked, events := Perform(session, command.value, now, next);
        OneEvent(events[0]);
      }
    }
  }

  /** The command is the first one of the best plan for the piece where it stands. */
  ghost predicate IsChosen(game: Game, command: GameCommand) {
    exists plan: Placement ::
      IsBest(game.board, game.active, plan) && plan.commands != [] && command == plan.commands[0]
  }

  /** What the player does with the piece, if anything. */
  ghost predicate IsTurn(before: Session, command: Option<GameCommand>, now: real, next: Kind, after: Session) {
    if command.None? then after == before
    else IsChosen(before.game, command.value)
         && IsActedOn(before, command.value, now, next, after, command == Some(HardDrop))
  }

  /** When the player acts on the piece in play at this instant, given when it was going to: a piece that gravity has
      just brought is new to it. */
  function TurnDue(pacing: Pacing, due: real, fell: bool, now: real): real {
    if fell then DropInterval.Max(now + pacing.reactionDelayMs, due) else due
  }

  /** When it acts next. */
  function NextDue(pacing: Pacing, due: real, fell: bool, command: Option<GameCommand>, now: real): real {
    var next := if command.Some? then now + pacing.commandIntervalMs else TurnDue(pacing, due, fell, now);
    if command == Some(HardDrop) then DropInterval.Max(now + pacing.reactionDelayMs, next) else next
  }

  /** What happens at one instant before any refresh. */
  ghost predicate IsInstant(before: Session, fired: bool, fell: bool, fallen: Session, command: Option<GameCommand>,
                            acted: Session, now: real, pieces: nat -> Kind) {
    && (if fired then IsActedOn(before, GravityTick, now, pieces(before.game.pieceSequence + 1), fallen, fell)
        else fallen == before && !fell)
    && IsTurn(fallen, command, now, pieces(fallen.game.pieceSequence + 1), acted)
  }

  /** Everything that happens at one instant: gravity if it is due, then the player's turn. */
  method Instant(session: TetrisSession, player: GreedyTetrisPlayer, gravityDue: bool, fallsAt: real, now: real,
                 pieces: nat -> Kind)
    returns (gravityAt: real, command: Option<GameCommand>, locks: nat, dropped: bool, ghost events: seq<Event>,
             ghost fell: bool, ghost fallen: Session)
    requires session.Valid() && player.Valid() && player.session == session && player.Accepts(now)
    requires session.State().Status() == Playing && session.State().lastObservedAt <= now
    requires player.pieceSequence == Some(session.State().game.pieceSequence) && session.policyRefresh.None?
    modifies session, session.game, session.observationWindow, player
    ensures session.Valid() && player.Valid() && player.Accepts(now) && session.policyRefresh.None?
    ensures session.game == old(session.game) || fresh(session.game)
    ensures session.observationWindow == old(session.observationWindow) || fresh(session.observationWindow)
    ensures session.State() == Protocol.Run(old(session.State()), events)
    ensures session.State().lastObservedAt <= now
    ensures session.State().game.pieceSequence == old(session.State().game.pieceSequence) + locks
    ensures locks == (if fell then 1 else 0) + (if dropped then 1 else 0)
    ensures IsInstant(old(session.State()), gravityDue, fell, fallen, command, session.State(), now, pieces)
    ensures command.Some? <==>
              fallen.Status() == Playing && TurnDue(player.pacing, old(player.actionAt.value), fell, now) <= now
    ensures session.State().Status() == Playing ==>
              player.DueAt(now) == NextDue(player.pacing, old(player.actionAt.value), fell, command, now)
    ensures gravityDue && locks == 0 ==> gravityAt == now + session.State().selection.intervalMs
    ensures dropped <==> command == Some(HardDrop)
    ensures dropped ==> locks > 0
    ensures Answers(events) == [] && Drops(events) == if dropped then 1 else 0
    ensures if gravityDue then now + SHORTEST_DROP_INTERVAL_MS <= gravityAt <= now + LONGEST_DROP_INTERVAL_MS
            else gravityAt == fallsAt
    ensures command.Some? ==>
              && player.actionAt == Some(now + player.pacing.commandIntervalMs)
              && old(player.actionAt.value) <= now
    ensures command.None? && session.State().Status() == Playing ==>
              && player.actionAt.Some? && now < player.actionAt.value
              && old(player.actionAt.value) <= player.actionAt.value
              && (player.actionAt.value == now + player.pacing.reactionDelayMs
                  || player.actionAt == old(player.actionAt))
    ensures !gravityDue && old(player.actionAt).value <= now ==> command.Some?
  {
    hide Inv, Protocol.Run, TetrisSession.Valid, Answers, Drops, IsActedOn, IsChosen;
    gravityAt, locks, events, fell := fallsAt, 0, [], false;
    NothingHappens();
    ghost var before := session.State();
    SessionHolds(session);
    if gravityDue {
      var locked;
      locked, gravityAt, events := FireGravity(session, now, pieces(session.State().game.pieceSequence + 1));
      locks := if locked then 1 else 0;
      fell := locked;
    }
    fallen := session.State();
    ghost var turn;
    command, dropped, turn := PlayersTurn(session, player, now, pieces(session.State().game.pieceSequence + 1));
    RunComposes(before, events, turn);
    RunsAdd(events, turn);
    events := events + turn;
    locks := if dropped then locks + 1 else locks;
  }

  lemma SessionHolds(session: TetrisSession)
    requires session.Valid()
    ensures Inv(session.State()) && Protocol.Run(session.State(), []) == session.State()
  {
  }

  lemma NothingHappens()
    ensures Answers([]) == [] && Drops([]) == 0
  {
  }

  lemma NoEvents(session: Session)
    requires Inv(session)
    ensures Protocol.Run(session, []) == session
  {
  }

  lemma OnlyHardDropLocks(game: Game, plan: Placement)
    requires IsBest(game.board, game.active, plan)
    ensures plan.commands != [] && (IsShift(plan.commands[0]) || plan.commands[0] == HardDrop)
  {
    hide LandsAs;
    if |plan.commands| > 1 {
      RestOfPlanIsPlanned(game.board, game.active, plan);
    }
  }

  /** After a lock the next fall starts over; the policy is refreshed first if that is due. */
  method AfterLock(session: TetrisSession, options: Options, refreshes: nat, policyAt: real, now: real)
    returns (failed: bool, gravityAt: real, refreshed: nat, nextPolicyAt: real, ghost events: seq<Event>)
    requires session.Valid() && session.State().lastObservedAt <= now && session.policyRefresh.None?
    modifies session, session.observationWindow
    ensures session.Valid() && session.game == old(session.game) && session.policyRefresh.None?
    ensures session.observationWindow == old(session.observationWindow)
    ensures session.State() == Protocol.Run(old(session.State()), events)
    ensures session.State().lastObservedAt <= now
    ensures session.State().Status() == old(session.State()).Status()
    ensures session.State().game == old(session.State().game)
    ensures gravityAt == now + session.State().selection.intervalMs
    ensures now + SHORTEST_DROP_INTERVAL_MS <= gravityAt <= now + LONGEST_DROP_INTERVAL_MS
    ensures Drops(events) == 0
    ensures if options.provider.Some? && now >= policyAt && old(session.State()).Status() == Playing
            then && refreshed == refreshes + 1 && nextPolicyAt == now + REFRESH_INTERVAL_MS
                 && Answers(events) == [options.provider.value(refreshes)]
                 && (failed <==> OutOfBounds(options.provider.value(refreshes)))
                 && events == RefreshEvents(|old(session.State()).refreshes|, options.provider.value(refreshes), now)
            else refreshed == refreshes && nextPolicyAt == policyAt && events == [] && !failed && Answers(events) == []
  {
    hide Inv, Protocol.Run, OutOfBounds, Answers, Drops, RefreshEvents;
    failed, events, refreshed, nextPolicyAt := false, [], refreshes, policyAt;
    NoEvents(session.State());
    NothingHappens();
    if options.provider.Some? && now >= policyAt && session.State().Status() == Playing {
      RefreshContains(|session.refreshes|, options.provider.value(refreshes), now);
      failed, events := Refreshing(session, options.provider.value(refreshes), now);
      refreshed := refreshes + 1;
      nextPolicyAt := now + REFRESH_INTERVAL_MS;
    }
    IntervalIsBounded(session.State());
    gravityAt := now + session.selection.intervalMs;
  }

  lemma IntervalIsBounded(session: Session)
    requires Inv(session)
    ensures SHORTEST_DROP_INTERVAL_MS <= session.selection.intervalMs <= LONGEST_DROP_INTERVAL_MS
  {
  }

  lemma StartIsPlayable(options: Options, first: Kind)
    requires options.Accepted()
    ensures var session := Protocol.RunFromStart(options.SessionConfig(), first, 0.0, []);
            && session == NewSession(options.SessionConfig(), first, 0.0)
            && Inv(session) && session.Status() == Playing
            && session.lastObservedAt == 0.0 && session.game.pieceSequence == 0 && session.tracked.None?
            && session.refreshes == []
  {
    hide Inv, NoFullRow, Occupied, Collides, LocalSelection;
    NewSessionKeeps(options.SessionConfig(), first, 0.0);
    NewGameIsLegal(first, 0.0);
  }

  lemma RunExtends(options: Options, first: Kind, events: seq<Event>, more: seq<Event>)
    requires options.Accepted()
    ensures Protocol.RunFromStart(options.SessionConfig(), first, 0.0, events + more)
         == Protocol.Run(Protocol.RunFromStart(options.SessionConfig(), first, 0.0, events), more)
  {
    hide Inv, NewSession;
    NewSessionKeeps(options.SessionConfig(), first, 0.0);
    RunComposes(NewSession(options.SessionConfig(), first, 0.0), events, more);
  }

  // ---------------------------------------------------------------- the episode

  /** What an episode leaves for its proof: the clock after each iteration, when gravity fired, when the player gave a
      command, when the provider was asked, and every event at the session. */
  datatype Log = Log(clock: seq<real>, fires: seq<real>, commands: seq<real>, asks: seq<real>, events: seq<Event>) {
    function FireDue(): real {
      Due(fires, SHORTEST_DROP_INTERVAL_MS, SHORTEST_DROP_INTERVAL_MS)
    }

    function CommandDue(pacing: Pacing): real {
      Due(commands, pacing.commandIntervalMs, 0.0)
    }

    ghost predicate Kept(options: Options, now: real) {
      && Ticked(clock, now)
      && 0.0 <= now <= options.durationMs
      && Paced(fires, SHORTEST_DROP_INTERVAL_MS, SHORTEST_DROP_INTERVAL_MS, now)
      && Paced(commands, options.pacing.commandIntervalMs, 0.0, now)
      && |clock| <= |fires| + |commands| + (if now < options.durationMs then 0 else 1)
      && (clock == [] ==> commands == [])
      && Prompt(clock, LongestWait(options.pacing))
      && Busy(clock, fires, commands, options.durationMs)
    }

    function Next(now: real, fired: bool, commanded: bool, more: seq<Event>): Log {
      Log(clock + [now],
          if fired then fires + [now] else fires,
          if commanded then commands + [now] else commands,
          asks, events + more)
    }

    /** The provider has been asked once for each answer, no more often than the refresh interval allows, and is not
        asked again before the given time. */
    ghost predicate Asked(options: Options, now: real, policyAt: real) {
      && Paced(asks, REFRESH_INTERVAL_MS, 0.0, now)
      && Due(asks, REFRESH_INTERVAL_MS, 0.0) <= policyAt
      && (options.provider.Some? ==> asks != [] && asks[0] == 0.0)
      && |Answers(events)| == |asks|
      && AreProvided(Answers(events), options.provider)
    }

    /** No answer so far was out of bounds. */
    ghost predicate Unrefused() {
      forall i :: 0 <= i < |Answers(events)| ==> !OutOfBounds(Answers(events)[i])
    }

    /** The last answer was out of bounds, and none before it. */
    ghost predicate RefusedLast() {
      var last := |Answers(events)| - 1;
      && 0 <= last && OutOfBounds(Answers(events)[last])
      && forall i :: 0 <= i < last ==> !OutOfBounds(Answers(events)[i])
    }

    ghost function Remaining(options: Options, now: real): int
      requires options.Accepted()
    {
      Room(options.durationMs, SHORTEST_DROP_INTERVAL_MS) - |fires|
      + Room(options.durationMs, options.pacing.commandIntervalMs) + 1 - |commands|
      + (if now < options.durationMs then 1 else 0)
    }
  }

  /** Every iteration either fires gravity, or gives a command, or reaches the end; so only so many are left. */
  lemma IterationKeeps(log: Log, options: Options, now: real, later: real, fired: bool, commanded: bool,
                       events: seq<Event>)
    requires options.Accepted() && log.Kept(options, now) && now < options.durationMs
    requires now <= later <= options.durationMs && (log.clock != [] ==> now < later)
    requires later <= now + LongestWait(options.pacing)
    requires fired ==> log.FireDue() <= later
    requires commanded ==> log.CommandDue(options.pacing) <= later
    requires fired || commanded || later == options.durationMs
    ensures var next := log.Next(later, fired, commanded, events);
            && next.Kept(options, later)
            && next.FireDue() == (if fired then later + SHORTEST_DROP_INTERVAL_MS else log.FireDue())
            && next.CommandDue(options.pacing) ==
                 (if commanded then later + options.pacing.commandIntervalMs else log.CommandDue(options.pacing))
            && 0 <= next.Remaining(options, later) < log.Remaining(options, now)
  {
    hide Spaced, Increasing, Ticked, Paced, Due, Room, Prompt, Busy, LongestWait;
    OneTick(log.clock, now, later);
    PromptTick(log.clock, now, later, LongestWait(options.pacing));
    BusyTick(log.clock, log.fires, log.commands, options.durationMs, later, fired, commanded);
    NotYet(log.fires, SHORTEST_DROP_INTERVAL_MS, SHORTEST_DROP_INTERVAL_MS, now, later);
    NotYet(log.commands, options.pacing.commandIntervalMs, 0.0, now, later);
    if fired {
      OneMore(log.fires, SHORTEST_DROP_INTERVAL_MS, SHORTEST_DROP_INTERVAL_MS, now, later);
    }
    if commanded {
      OneMore(log.commands, options.pacing.commandIntervalMs, 0.0, now, later);
    }
    KeptIsBounded(log.Next(later, fired, commanded, events), options, later);
  }

  lemma NotYet(times: seq<real>, gap: real, from: real, now: real, later: real)
    requires Paced(times, gap, from, now) && now <= later
    ensures Paced(times, gap, from, later)
  {
  }

  lemma KeptIsBounded(log: Log, options: Options, now: real)
    requires options.Accepted() && log.Kept(options, now)
    ensures |log.fires| <= Room(options.durationMs, SHORTEST_DROP_INTERVAL_MS)
    ensures |log.commands| <= Room(options.durationMs, options.pacing.commandIntervalMs) + 1
    ensures Spaced(log.fires, SHORTEST_DROP_INTERVAL_MS) && Spaced(log.commands, options.pacing.commandIntervalMs)
    ensures 0.0 <= now <= options.durationMs && Ticked(log.clock, now)
    ensures Prompt(log.clock, LongestWait(options.pacing))
    ensures Busy(log.clock, log.fires, log.commands, options.durationMs)
    ensures |log.clock| <= |log.fires| + |log.commands| + 1
  {
    hide Room;
    PacedFits(log.fires, SHORTEST_DROP_INTERVAL_MS, SHORTEST_DROP_INTERVAL_MS, now, options.durationMs);
    PacedFits(log.commands, options.pacing.commandIntervalMs, 0.0, now, options.durationMs);
  }

  /** Something is always due within the longest fall, and within the player's slower pace. */
  function LongestWait(pacing: Pacing): real {
    var pace := if pacing.reactionDelayMs < pacing.commandIntervalMs then pacing.commandIntervalMs
                else pacing.reactionDelayMs;
    if pace < LONGEST_DROP_INTERVAL_MS then pace else LONGEST_DROP_INTERVAL_MS
  }

  function Earliest(gravityAt: real, actionAt: real, end: real): real {
    var either := if gravityAt < actionAt then gravityAt else actionAt;
    if either < end then either else end
  }

  /** The clock moves to whatever is due first: gravity, the player's action, or the end. */
  method Advance(player: GreedyTetrisPlayer, gravityAt: real, end: real, now: real) returns (later: real)
    requires player.Valid() && player.Accepts(now) && player.session.State().Status() == Playing
    requires now < gravityAt && now < end && (player.actionAt.Some? ==> now < player.actionAt.value)
    modifies player
    ensures player.Valid() && player.Accepts(later)
    ensures player.pieceSequence == Some(player.session.State().game.pieceSequence) && player.actionAt.Some?
    ensures player.actionAt.value == old(player.DueAt(now)) && later == Earliest(gravityAt, player.actionAt.value, end)
    ensures now <= later && (old(player.actionAt).Some? ==> now < later)
    ensures old(player.actionAt).Some? ==> old(player.actionAt).value <= player.actionAt.value
    ensures player.actionAt == old(player.actionAt) || player.actionAt.value == now + player.pacing.reactionDelayMs
  {
    var asked := player.NextActionAt(now);
    later := Earliest(gravityAt, asked.value.value, end);
  }

  /** What the loop has counted is what the run contains. */
  ghost predicate Tallies(log: Log, options: Options, reached: Reached, first: Kind, policyAt: real, refreshes: nat,
                          failed: bool)
    requires options.Accepted()
  {
    && reached.state == Protocol.RunFromStart(options.SessionConfig(), first, 0.0, log.events)
    && reached.piecesLocked == reached.state.game.pieceSequence
    && reached.hardDrops == Drops(log.events) <= reached.piecesLocked && reached.hardDrops <= |log.commands|
    && log.Asked(options, reached.elapsedMs, policyAt) && refreshes == |log.asks|
    && (if failed then log.RefusedLast() else log.Unrefused())
  }

  lemma InstantTallies(log: Log, options: Options, reached: Reached, first: Kind, policyAt: real, refreshes: nat,
                       later: Reached, fired: bool, commanded: bool, more: seq<Event>)
    requires options.Accepted() && Tallies(log, options, reached, first, policyAt, refreshes, false)
    requires reached.elapsedMs <= later.elapsedMs && Answers(more) == []
    requires Inv(reached.state) && later.state == Protocol.Run(reached.state, more)
    requires later.piecesLocked - reached.piecesLocked
               == later.state.game.pieceSequence - reached.state.game.pieceSequence
    requires later.hardDrops - reached.hardDrops == Drops(more) <= later.piecesLocked - reached.piecesLocked
    requires Drops(more) <= if commanded then 1 else 0
    ensures Tallies(log.Next(later.elapsedMs, fired, commanded, more), options, later, first, policyAt, refreshes,
                    false)
  {
    hide Answers, Drops, OutOfBounds, Inv, Protocol.Run, Protocol.RunFromStart;
    RunExtends(options, first, log.events, more);
    RunsAdd(log.events, more);
    NotYet(log.asks, REFRESH_INTERVAL_MS, 0.0, reached.elapsedMs, later.elapsedMs);
  }

  /** After a lock the provider has been asked, or nothing has happened. */
  lemma LockTallies(log: Log, options: Options, reached: Reached, first: Kind, policyAt: real, refreshes: nat,
                    after: Session, failed: bool, more: seq<Event>)
    requires options.Accepted() && Tallies(log, options, reached, first, policyAt, refreshes, false)
    requires Inv(reached.state) && after == Protocol.Run(reached.state, more) && after.game == reached.state.game
    requires Drops(more) == 0
    requires more != [] ==>
               && options.provider.Some? && policyAt <= reached.elapsedMs
               && Answers(more) == [options.provider.value(refreshes)]
    requires failed <==> more != [] && OutOfBounds(options.provider.value(refreshes))
    ensures var asks := if more == [] then log.asks else log.asks + [reached.elapsedMs];
            Tallies(log.(events := log.events + more, asks := asks), options, reached.(state := after), first,
                    if more == [] then policyAt else reached.elapsedMs + REFRESH_INTERVAL_MS,
                    if more == [] then refreshes else refreshes + 1, failed)
  {
    hide Answers, Drops, OutOfBounds, Inv, Protocol.Run, Protocol.RunFromStart, Due;
    RunExtends(options, first, log.events, more);
    RunsAdd(log.events, more);
    if more == [] {
      NothingMore(log.events);
    } else {
      OneMore(log.asks, REFRESH_INTERVAL_MS, 0.0, reached.elapsedMs, reached.elapsedMs);
    }
  }

  lemma Tracks(session: TetrisSession)
    ensures session.policyRefresh == session.State().tracked && session.refreshes == session.State().refreshes
  {
  }

  /** A new session, with its first policy refresh if there is a provider, and the first fall. */
  method Begin(options: Options, first: Kind, now: real)
    returns (session: TetrisSession, failed: bool, gravityAt: real, refreshes: nat, ghost events: seq<Event>)
    requires options.Accepted() && now == 0.0
    ensures session.Valid() && fresh(session) && fresh(session.game) && fresh(session.observationWindow)
    ensures session.State() == Protocol.RunFromStart(options.SessionConfig(), first, 0.0, events)
    ensures session.State().game.pieceSequence == 0 && session.State().lastObservedAt <= now
    ensures session.policyRefresh.None? && session.State().Status() == Playing && Drops(events) == 0
    ensures now + SHORTEST_DROP_INTERVAL_MS <= gravityAt <= now + LONGEST_DROP_INTERVAL_MS
    ensures session.State() == Opening(options, first) && gravityAt == session.State().selection.intervalMs
    ensures if options.provider.Some?
            then && refreshes == 1 && Answers(events) == [options.provider.value(0)]
                 && (failed <==> OutOfBounds(options.provider.value(0)))
            else refreshes == 0 && events == [] && !failed && Answers(events) == []
  {
    hide Inv, Protocol.RunFromStart, Protocol.Run, NewSession, TetrisSession.Valid, TetrisSession.State, OutOfBounds,
         Answers, Drops, RefreshEvents;
    session := new TetrisSession(options.SessionConfig(), options.sessionId, first, now);
    StartIsPlayable(options, first);
    Tracks(session);
    NothingHappens();
    failed, refreshes, events := false, 0, [];
    if options.provider.Some? {
      RefreshContains(|session.refreshes|, options.provider.value(refreshes), now);
      failed, events := Refreshing(session, options.provider.value(refreshes), now);
      RunExtends(options, first, [], events);
      assert [] + events == events;
      refreshes := refreshes + 1;
    }
    IntervalInForce(session);
    gravityAt := now + session.State().selection.intervalMs;
  }

  /** What is true of an episode wherever it ends: it is a run of the protocol, counted right, on a clock that advances
      and is bounded, and it has asked the provider as often as it was due. */
  ghost predicate Accounts(options: Options, first: Kind, reached: Reached, log: Log)
    requires options.Accepted()
  {
    && reached.state == Protocol.RunFromStart(options.SessionConfig(), first, 0.0, log.events)
    && 0.0 <= reached.elapsedMs <= options.durationMs
    && reached.piecesLocked == reached.state.game.pieceSequence
    && reached.hardDrops == Drops(log.events) <= reached.piecesLocked && reached.hardDrops <= |log.commands|
    && Ticked(log.clock, reached.elapsedMs)
    && Prompt(log.clock, LongestWait(options.pacing))
    && Busy(log.clock, log.fires, log.commands, options.durationMs)
    && Spaced(log.fires, SHORTEST_DROP_INTERVAL_MS)
    && Spaced(log.commands, options.pacing.commandIntervalMs)
    && Spaced(log.asks, REFRESH_INTERVAL_MS)
    && |log.clock| <= |log.fires| + |log.commands| + 1
    && |log.fires| <= Room(options.durationMs, SHORTEST_DROP_INTERVAL_MS)
    && |log.commands| <= Room(options.durationMs, options.pacing.commandIntervalMs) + 1
    && |log.asks| <= Room(options.durationMs, REFRESH_INTERVAL_MS) + 1
    && (options.provider.Some? ==> log.asks != [] && log.asks[0] == 0.0)
    && |Answers(log.events)| == |log.asks| && AreProvided(Answers(log.events), options.provider)
  }

  lemma Accounted(options: Options, first: Kind, reached: Reached, log: Log, policyAt: real, refreshes: nat,
                  failed: bool, actionAt: Option<real>, gravityAt: real)
    requires options.Accepted()
             && Timely(log, options, actionAt, gravityAt, reached.elapsedMs, reached.state.Status() == Playing)
    requires Tallies(log, options, reached, first, policyAt, refreshes, failed)
    ensures Accounts(options, first, reached, log) && reached.elapsedMs <= options.durationMs
    ensures if failed then log.RefusedLast() else log.Unrefused()
  {
    hide Protocol.RunFromStart, Room, Answers, Drops, Log.Kept, Ticked, Prompt, Busy, OutOfBounds;
    KeptIsBounded(log, options, reached.elapsedMs);
    PacedFits(log.asks, REFRESH_INTERVAL_MS, 0.0, reached.elapsedMs, options.durationMs);
  }

  lemma FailureComesFromTheProvider(options: Options, first: Kind, reached: Reached, log: Log, failed: bool)
    requires options.Accepted() && Accounts(options, first, reached, log)
    requires if failed then log.RefusedLast() else log.Unrefused()
    ensures options.provider.Some? && OutOfBounds(options.provider.value(0)) ==> failed
    ensures failed ==> options.provider.Some? && exists n: nat :: OutOfBounds(options.provider.value(n))
  {
    hide OutOfBounds, Answers, Drops, Protocol.RunFromStart, Ticked, Prompt, Busy, Spaced, Room;
    if failed { assert OutOfBounds(options.provider.value(|Answers(log.events)| - 1)); }
  }

  /** What the loop knows of the time: gravity is due within the longest fall, the player within its pace, and neither
      earlier than the log allows. */
  ghost predicate Timely(log: Log, options: Options, actionAt: Option<real>, gravityAt: real, now: real,
                         playing: bool) {
    && log.Kept(options, now)
    && now < gravityAt <= now + LONGEST_DROP_INTERVAL_MS
    && log.FireDue() <= gravityAt && log.FireDue() <= now + SHORTEST_DROP_INTERVAL_MS
    && (log.clock == [] ==> now == 0.0 && actionAt.None? && log.CommandDue(options.pacing) == 0.0)
    && (log.clock != [] && playing ==>
          && actionAt.Some? && now < actionAt.value && log.CommandDue(options.pacing) <= actionAt.value
          && (|| actionAt.value <= now + options.pacing.reactionDelayMs
              || actionAt.value <= now + options.pacing.commandIntervalMs))
  }

  /** One iteration up to the lock: the clock moves to what is due, and that happens. */
  method Iterate(session: TetrisSession, player: GreedyTetrisPlayer, options: Options, fallsAt: real, now: real,
                 pieces: nat -> Kind, ghost log: Log)
    returns (later: real, gravityAt: real, command: Option<GameCommand>, locks: nat, dropped: bool, ghost next: Log,
             ghost events: seq<Event>, ghost fell: bool, ghost fallen: Session)
    requires options.Accepted() && now < options.durationMs && session.State().Status() == Playing
    requires session.Valid() && player.Valid() && player.session == session && player.pacing == options.pacing
    requires session.State().lastObservedAt <= now && player.Accepts(now) && session.policyRefresh.None?
    requires Timely(log, options, player.actionAt, fallsAt, now, true)
    modifies session, session.game, session.observationWindow, player
    ensures session.Valid() && player.Valid() && player.session == session && player.pacing == options.pacing
    ensures session.game == old(session.game) || fresh(session.game)
    ensures session.observationWindow == old(session.observationWindow) || fresh(session.observationWindow)
    ensures session.State().lastObservedAt <= later && player.Accepts(later) && session.policyRefresh.None?
    ensures session.State() == Protocol.Run(old(session.State()), events)
    ensures session.State().game.pieceSequence == old(session.State().game.pieceSequence) + locks
    ensures dropped <==> command == Some(HardDrop)
    ensures dropped ==> locks > 0
    ensures locks == (if fell then 1 else 0) + (if dropped then 1 else 0)
    ensures later == Earliest(fallsAt, old(player.DueAt(now)), options.durationMs)
    ensures IsInstant(old(session.State()), later == fallsAt, fell, fallen, command, session.State(), later, pieces)
    ensures command.Some? <==>
              fallen.Status() == Playing && TurnDue(options.pacing, old(player.DueAt(now)), fell, later) <= later
    ensures session.State().Status() == Playing ==>
              player.DueAt(later) == NextDue(options.pacing, old(player.DueAt(now)), fell, command, later)
    ensures if later != fallsAt then gravityAt == fallsAt
            else locks == 0 ==> gravityAt == later + session.State().selection.intervalMs
    ensures Answers(events) == [] && Drops(events) == if dropped then 1 else 0
    ensures now <= later && next == log.Next(later, later == fallsAt, command.Some?, events)
    ensures Timely(next, options, player.actionAt, gravityAt, later, session.State().Status() == Playing)
    ensures 0 <= next.Remaining(options, later) < log.Remaining(options, now)
  {
    hide Inv, Protocol.Run, Log.Kept, Log.Remaining, Log.FireDue, Log.CommandDue, TetrisSession.Valid,
         TetrisSession.State, GreedyTetrisPlayer.Valid, GreedyTetrisPlayer.DueAt, Answers, Drops, IsInstant;
    later := Advance(player, fallsAt, options.durationMs, now);
    gravityAt, command, locks, dropped, events, fell, fallen :=
      Instant(session, player, later == fallsAt, fallsAt, later, pieces);
    IterationKeeps(log, options, now, later, later == fallsAt, command.Some?, events);
    next := log.Next(later, later == fallsAt, command.Some?, events);
  }

  /** The refresh after a lock: it happens exactly if there is a provider, it is due and the session is played. */
  ghost predicate IsRefreshed(options: Options, asked: nat, askDue: real, now: real, acted: Session,
                              answer: Option<Answer>, after: Session) {
    && (answer.Some? <==> options.provider.Some? && acted.Status() == Playing && askDue <= now)
    && (if answer.None? then after == acted
        else
          && answer.value == options.provider.value(asked) && Inv(acted)
          && after == Protocol.Run(acted, RefreshEvents(|acted.refreshes|, answer.value, now)))
  }

  lemma RefreshHasEvents(id: nat, options: Options, asked: nat, now: real)
    ensures options.provider.Some? ==> RefreshEvents(id, options.provider.value(asked), now) != []
  {
  }

  /** What follows a lock, and its place in the log. */
  method StartOver(session: TetrisSession, options: Options, refreshes: nat, policyAt: real, fallsAt: real,
                   ghost reached: Reached, ghost first: Kind, ghost player: GreedyTetrisPlayer, ghost log: Log,
                   now: real)
    returns (failed: bool, gravityAt: real, refreshed: nat, nextPolicyAt: real, ghost next: Log,
             ghost answer: Option<Answer>)
    requires player.Valid() && player.session == session
    requires options.Accepted() && session.Valid() && session.State().lastObservedAt <= now
             && session.policyRefresh.None?
    requires reached.state == session.State() && reached.elapsedMs == now
    requires Tallies(log, options, reached, first, policyAt, refreshes, false)
    requires Timely(log, options, player.actionAt, fallsAt, now, session.State().Status() == Playing)
    modifies session, session.observationWindow
    ensures session.Valid() && session.game == old(session.game) && session.policyRefresh.None?
    ensures session.observationWindow == old(session.observationWindow)
    ensures session.State().lastObservedAt <= now && session.State().Status() == old(session.State()).Status()
    ensures failed ==> session.State().Status() == Playing
    ensures Tallies(next, options, reached.(state := session.State()), first, nextPolicyAt, refreshed, failed)
    ensures Timely(next, options, player.actionAt, gravityAt, now, session.State().Status() == Playing)
    ensures next.Remaining(options, now) == log.Remaining(options, now)
    ensures next == log.(events := next.events, asks := if answer.Some? then log.asks + [now] else log.asks)
    ensures IsRefreshed(options, refreshes, policyAt, now, old(session.State()), answer, session.State())
    ensures refreshed == (if answer.Some? then refreshes + 1 else refreshes)
    ensures nextPolicyAt == (if answer.Some? then now + REFRESH_INTERVAL_MS else policyAt)
    ensures gravityAt == now + session.State().selection.intervalMs
    ensures player.Valid() && player.DueAt(now) == old(player.DueAt(now))
  {
    hide Inv, Protocol.Run, Log.Remaining, TetrisSession.Valid, TetrisSession.State, Answers, Drops, Tallies, Timely,
         OutOfBounds, RefreshEvents;
    SessionIsInv(session);
    NothingHappens();
    ghost var more;
    failed, gravityAt, refreshed, nextPolicyAt, more := AfterLock(session, options, refreshes, policyAt, now);
    NoEvents(reached.state);
    answer := if refreshed > refreshes then Some(options.provider.value(refreshes)) else None;
    RefreshHasEvents(|old(session.State()).refreshes|, options, refreshes, now);
    LockTallies(log, options, reached, first, policyAt, refreshes, session.State(), failed, more);
    next := log.(events := log.events + more, asks := if more == [] then log.asks else log.asks + [now]);
    FallStartsOver(log, next, options, player.actionAt, fallsAt, gravityAt, now, session.State().Status() == Playing);
  }

  // ---------------------------------------------------------------- the timeline

  /** One iteration of the loop: its time, whether gravity fired and locked the piece, the player's command, the answer
      to a refresh, and the session in between. */
  datatype Moment = Moment(
    at: real,
    fired: bool,
    fell: bool,
    fallen: Session,
    command: Option<GameCommand>,
    acted: Session,
    answer: Option<Answer>,
    after: Session
  ) {
    predicate Locks() {
      fell || command == Some(HardDrop)
    }
  }

  /** The session before the first iteration. */
  ghost function Opening(options: Options, first: Kind): Session
    requires options.Accepted()
  {
    StartIsPlayable(options, first);
    var session := NewSession(options.SessionConfig(), first, 0.0);
    if options.provider.None? then session
    else Protocol.Run(session, RefreshEvents(0, options.provider.value(0), 0.0))
  }

  ghost function Latest(options: Options, first: Kind, moments: seq<Moment>): Session
    requires options.Accepted()
  {
    if moments == [] then Opening(options, first) else moments[|moments| - 1].after
  }

  /** When gravity is due: the interval in force after the last fall or lock has to pass. */
  ghost function FallDue(options: Options, first: Kind, moments: seq<Moment>): real
    requires options.Accepted()
  {
    if moments == [] then Opening(options, first).selection.intervalMs
    else
      var last := moments[|moments| - 1];
      if last.fired || last.Locks() then last.at + last.after.selection.intervalMs
      else FallDue(options, first, moments[..|moments| - 1])
  }

  /** When the player is due. */
  function ActionDue(pacing: Pacing, moments: seq<Moment>): real {
    if moments == [] then pacing.reactionDelayMs
    else
      var last := moments[|moments| - 1];
      NextDue(pacing, ActionDue(pacing, moments[..|moments| - 1]), last.fell, last.command, last.at)
  }

  /** When the provider may be asked again. */
  function AskDue(moments: seq<Moment>): real {
    if moments == [] then REFRESH_INTERVAL_MS
    else
      var last := moments[|moments| - 1];
      if last.answer.Some? then last.at + REFRESH_INTERVAL_MS else AskDue(moments[..|moments| - 1])
  }

  /** How often it has been asked. */
  function Asks(options: Options, moments: seq<Moment>): nat {
    if moments == [] then if options.provider.Some? then 1 else 0
    else
      Asks(options, moments[..|moments| - 1]) + (if moments[|moments| - 1].answer.Some? then 1 else 0)
  }

  /** What happens next, and when: the clock stops at whatever is due first; gravity fires exactly when it is due, then
      the player acts exactly when it is, and a lock is followed by a refresh exactly when that is due. */
  ghost predicate Follows(options: Options, pieces: nat -> Kind, before: seq<Moment>, moment: Moment)
    requires options.Accepted()
  {
    var (state, due) := (Latest(options, pieces(0), before), ActionDue(options.pacing, before));
    && state.Status() == Playing && (before != [] ==> before[|before| - 1].at < options.durationMs)
    && moment.at == Earliest(FallDue(options, pieces(0), before), due, options.durationMs)
    && (moment.fired <==> moment.at == FallDue(options, pieces(0), before))
    && IsInstant(state, moment.fired, moment.fell, moment.fallen, moment.command, moment.acted, moment.at, pieces)
    && (moment.command.Some? <==>
          moment.fallen.Status() == Playing && TurnDue(options.pacing, due, moment.fell, moment.at) <= moment.at)
    && if moment.Locks()
       then IsRefreshed(options, Asks(options, before), AskDue(before), moment.at, moment.acted, moment.answer,
                        moment.after)
       else moment.answer.None? && moment.after == moment.acted
  }

  ghost predicate IsTimeline(options: Options, pieces: nat -> Kind, moments: seq<Moment>)
    requires options.Accepted()
  {
    forall i :: 0 <= i < |moments| ==> Follows(options, pieces, moments[..i], moments[i])
  }

  /** What the loop knows of the timeline so far. */
  ghost predicate Traced(options: Options, pieces: nat -> Kind, moments: seq<Moment>, state: Session, now: real,
                         gravityAt: real, policyAt: real, refreshes: nat)
    requires options.Accepted()
  {
    && IsTimeline(options, pieces, moments)
    && state == Latest(options, pieces(0), moments)
    && now == (if moments == [] then 0.0 else moments[|moments| - 1].at)
    && gravityAt == FallDue(options, pieces(0), moments)
    && policyAt == AskDue(moments) && refreshes == Asks(options, moments)
  }

  lemma NextMoment(options: Options, pieces: nat -> Kind, moments: seq<Moment>, moment: Moment,
                   state: Session, now: real, fallsAt: real, policyAt: real, refreshes: nat, gravityAt: real,
                   nextPolicyAt: real, refreshed: nat)
    requires options.Accepted() && now < options.durationMs
    requires Traced(options, pieces, moments, state, now, fallsAt, policyAt, refreshes)
    requires Follows(options, pieces, moments, moment)
    requires gravityAt == if moment.fired || moment.Locks() then moment.at + moment.after.selection.intervalMs
                          else fallsAt
    requires nextPolicyAt == if moment.answer.Some? then moment.at + REFRESH_INTERVAL_MS else policyAt
    requires refreshed == if moment.answer.Some? then refreshes + 1 else refreshes
    ensures Traced(options, pieces, moments + [moment], moment.after, moment.at, gravityAt, nextPolicyAt, refreshed)
    ensures ActionDue(options.pacing, moments + [moment])
              == NextDue(options.pacing, ActionDue(options.pacing, moments), moment.fell, moment.command, moment.at)
  {
    hide Follows, Opening, NextDue;
    var more := moments + [moment];
    assert more[..|moments|] == moments;
    forall i | 0 <= i < |more|
      ensures Follows(options, pieces, more[..i], more[i])
    {
      assert i < |moments| ==> more[..i] == moments[..i];
    }
  }

  lemma NextFollows(options: Options, pieces: nat -> Kind, moments: seq<Moment>, moment: Moment, state: Session,
                    now: real, fallsAt: real, policyAt: real, refreshes: nat)
    requires options.Accepted() && now < options.durationMs && state.Status() == Playing
    requires Traced(options, pieces, moments, state, now, fallsAt, policyAt, refreshes)
    requires var due := ActionDue(options.pacing, moments);
             && moment.at == Earliest(fallsAt, due, options.durationMs)
             && (moment.fired <==> moment.at == fallsAt)
             && IsInstant(state, moment.fired, moment.fell, moment.fallen, moment.command, moment.acted, moment.at,
                          pieces)
             && (moment.command.Some? <==>
                   && moment.fallen.Status() == Playing
                   && TurnDue(options.pacing, due, moment.fell, moment.at) <= moment.at)
    requires if moment.Locks()
             then IsRefreshed(options, refreshes, policyAt, moment.at, moment.acted, moment.answer, moment.after)
             else moment.answer.None? && moment.after == moment.acted
    ensures Follows(options, pieces, moments, moment)
  {
    hide IsInstant, IsRefreshed, Opening, TurnDue, Earliest, IsTimeline, FallDue, ActionDue, Asks, AskDue;
  }

  lemma BegunTrace(options: Options, pieces: nat -> Kind, log: Log, gravityAt: real, player: GreedyTetrisPlayer)
    requires options.Accepted() && player.Valid() && player.pacing == options.pacing
    requires player.pieceSequence.None? && player.actionAt.None?
    requires gravityAt == Opening(options, pieces(0)).selection.intervalMs
    requires log.clock == log.fires == log.commands == [] && log.asks == if options.provider.Some? then [0.0] else []
    ensures Traced(options, pieces, [], Opening(options, pieces(0)), 0.0, gravityAt, REFRESH_INTERVAL_MS,
                   if options.provider.Some? then 1 else 0)
    ensures player.DueAt(0.0) == ActionDue(options.pacing, []) && Matches(options, log, [])
  {
    hide Opening;
  }

  /** The moments tell the whole episode: each follows from those before it, the last one leaves the session as it was
      reached, and the log's times are theirs. */
  ghost predicate Retells(options: Options, pieces: nat -> Kind, reached: Reached, log: Log, moments: seq<Moment>)
    requires options.Accepted()
  {
    && IsTimeline(options, pieces, moments)
    && reached.state == Latest(options, pieces(0), moments)
    && reached.elapsedMs == (if moments == [] then 0.0 else moments[|moments| - 1].at)
    && Matches(options, log, moments)
  }

  lemma TraceRetells(options: Options, pieces: nat -> Kind, reached: Reached, log: Log, moments: seq<Moment>,
                     gravityAt: real, policyAt: real, refreshes: nat)
    requires options.Accepted() && Matches(options, log, moments)
    requires Traced(options, pieces, moments, reached.state, reached.elapsedMs, gravityAt, policyAt, refreshes)
    ensures Retells(options, pieces, reached, log, moments)
  {
    hide Matches, IsTimeline, Latest;
  }

  /** The times the log has written down are those of the timeline. */
  function ClockOf(moments: seq<Moment>): seq<real> {
    if moments == [] then [] else ClockOf(moments[..|moments| - 1]) + [moments[|moments| - 1].at]
  }

  function FiresOf(moments: seq<Moment>): seq<real> {
    if moments == [] then []
    else
      var last := moments[|moments| - 1];
      FiresOf(moments[..|moments| - 1]) + (if last.fired then [last.at] else [])
  }

  function CommandsOf(moments: seq<Moment>): seq<real> {
    if moments == [] then []
    else
      var last := moments[|moments| - 1];
      CommandsOf(moments[..|moments| - 1]) + (if last.command.Some? then [last.at] else [])
  }

  function AsksOf(options: Options, moments: seq<Moment>): seq<real> {
    if moments == [] then if options.provider.Some? then [0.0] else []
    else
      var last := moments[|moments| - 1];
      AsksOf(options, moments[..|moments| - 1]) + (if last.answer.Some? then [last.at] else [])
  }

  ghost predicate Matches(options: Options, log: Log, moments: seq<Moment>) {
    && log.clock == ClockOf(moments) && log.fires == FiresOf(moments) && log.commands == CommandsOf(moments)
    && log.asks == AsksOf(options, moments)
  }

  lemma NextMatches(options: Options, log: Log, next: Log, moments: seq<Moment>, moment: Moment)
    requires Matches(options, log, moments)
    requires next.clock == log.clock + [moment.at]
    requires next.fires == if moment.fired then log.fires + [moment.at] else log.fires
    requires next.commands == if moment.command.Some? then log.commands + [moment.at] else log.commands
    requires next.asks == if moment.answer.Some? then log.asks + [moment.at] else log.asks
    ensures Matches(options, next, moments + [moment])
  {
    assert (moments + [moment])[..|moments|] == moments;
  }

  /** One more iteration, as the loop sees it, is one more moment of the timeline. */
  lemma TimelineGoesOn(options: Options, pieces: nat -> Kind, moments: seq<Moment>, moment: Moment, state: Session,
                       now: real, fallsAt: real, policyAt: real, refreshes: nat, gravityAt: real, nextPolicyAt: real,
                       refreshed: nat, log: Log, next: Log)
    requires options.Accepted() && now < options.durationMs && state.Status() == Playing
    requires Traced(options, pieces, moments, state, now, fallsAt, policyAt, refreshes)
    requires Matches(options, log, moments)
    requires var due := ActionDue(options.pacing, moments);
             && moment.at == Earliest(fallsAt, due, options.durationMs)
             && (moment.fired <==> moment.at == fallsAt)
             && IsInstant(state, moment.fired, moment.fell, moment.fallen, moment.command, moment.acted, moment.at,
                          pieces)
             && (moment.command.Some? <==>
                   && moment.fallen.Status() == Playing
                   && TurnDue(options.pacing, due, moment.fell, moment.at) <= moment.at)
    requires if moment.Locks()
             then IsRefreshed(options, refreshes, policyAt, moment.at, moment.acted, moment.answer, moment.after)
             else moment.answer.None? && moment.after == moment.acted
    requires gravityAt == if moment.fired || moment.Locks() then moment.at + moment.after.selection.intervalMs
                          else fallsAt
    requires nextPolicyAt == if moment.answer.Some? then moment.at + REFRESH_INTERVAL_MS else policyAt
    requires refreshed == if moment.answer.Some? then refreshes + 1 else refreshes
    requires next.clock == log.clock + [moment.at]
    requires next.fires == if moment.fired then log.fires + [moment.at] else log.fires
    requires next.commands == if moment.command.Some? then log.commands + [moment.at] else log.commands
    requires next.asks == if moment.answer.Some? then log.asks + [moment.at] else log.asks
    ensures Traced(options, pieces, moments + [moment], moment.after, moment.at, gravityAt, nextPolicyAt, refreshed)
    ensures ActionDue(options.pacing, moments + [moment])
              == NextDue(options.pacing, ActionDue(options.pacing, moments), moment.fell, moment.command, moment.at)
    ensures Matches(options, next, moments + [moment])
  {
    hide IsInstant, IsRefreshed, TurnDue, Earliest, Traced, ActionDue, NextDue, Matches, Follows;
    NextFollows(options, pieces, moments, moment, state, now, fallsAt, policyAt, refreshes);
    NextMoment(options, pieces, moments, moment, state, now, fallsAt, policyAt, refreshes, gravityAt, nextPolicyAt,
               refreshed);
    NextMatches(options, log, next, moments, moment);
  }

  // ---------------------------------------------------------------- what the timeline means

  /** Of all asks so far this is the last one. */
  predicate IsLastAsk(moments: seq<Moment>, k: nat)
    requires k < |moments|
  {
    moments[k].answer.Some? && forall l :: k < l < |moments| ==> moments[l].answer.None?
  }

  lemma {:induction false} AskDueIsAfterTheLastAsk(moments: seq<Moment>)
    ensures forall k :: 0 <= k < |moments| && IsLastAsk(moments, k) ==>
              AskDue(moments) == moments[k].at + REFRESH_INTERVAL_MS
    ensures (forall k :: 0 <= k < |moments| ==> moments[k].answer.None?) ==> AskDue(moments) == REFRESH_INTERVAL_MS
  {
    if moments != [] {
      var (init, last) := (moments[..|moments| - 1], |moments| - 1);
      AskDueIsAfterTheLastAsk(init);
      forall k | 0 <= k < last && IsLastAsk(moments, k)
        ensures IsLastAsk(init, k)
      {
      }
    }
  }

  /** With a provider, a lock that the game survives asks it exactly if a refresh interval has passed since it was last
      asked, which for the first time is at the start. */
  lemma EveryLockAsks(options: Options, pieces: nat -> Kind, moments: seq<Moment>, i: nat)
    requires options.Accepted() && IsTimeline(options, pieces, moments) && i < |moments|
    requires options.provider.Some? && moments[i].Locks() && moments[i].acted.Status() == Playing
    ensures forall k :: 0 <= k < i && IsLastAsk(moments[..i], k) ==>
              (moments[i].answer.Some? <==> moments[k].at + REFRESH_INTERVAL_MS <= moments[i].at)
    ensures (forall k :: 0 <= k < i ==> moments[k].answer.None?) ==>
              (moments[i].answer.Some? <==> REFRESH_INTERVAL_MS <= moments[i].at)
  {
    hide IsInstant, Opening, FallDue, ActionDue, AskDue, IsLastAsk, TurnDue, Earliest, Protocol.Run, Inv;
    assert Follows(options, pieces, moments[..i], moments[i]);
    AskDueIsAfterTheLastAsk(moments[..i]);
  }

  lemma {:induction false} FallStaysDue(options: Options, pieces: nat -> Kind, moments: seq<Moment>, i: nat, n: nat)
    requires options.Accepted() && i < n <= |moments| && (moments[i].fired || moments[i].Locks())
    requires forall k :: i < k < n ==> !moments[k].fired && !moments[k].Locks()
    ensures FallDue(options, pieces(0), moments[..n]) == moments[i].at + moments[i].after.selection.intervalMs
  {
    hide Opening;
    assert moments[..n][..n - 1] == moments[..n - 1];
    if n > i + 1 { FallStaysDue(options, pieces, moments, i, n - 1); }
  }

  /** A lock starts the fall over: until the next lock, gravity fires again exactly when the interval in force after the
      lock has passed, and the clock does not go past that time before. */
  lemma FallStartsOverAtLocks(options: Options, pieces: nat -> Kind, moments: seq<Moment>, i: nat, j: nat)
    requires options.Accepted() && IsTimeline(options, pieces, moments)
    requires i < j < |moments| && (moments[i].fired || moments[i].Locks())
    requires forall k :: i < k < j ==> !moments[k].fired && !moments[k].Locks()
    ensures var due := moments[i].at + moments[i].after.selection.intervalMs;
            moments[j].at <= due && (moments[j].fired <==> moments[j].at == due)
  {
    hide IsInstant, IsRefreshed, Opening, FallDue, ActionDue, TurnDue;
    assert Follows(options, pieces, moments[..j], moments[j]);
    FallStaysDue(options, pieces, moments, i, j);
  }

  /** Without a provider the first fall takes the interval that was asked for, or 800 milliseconds. */
  lemma FirstFallIsFixed(options: Options, first: Kind)
    requires options.Accepted() && options.provider.None?
    ensures FallDue(options, first, []) == if options.dropIntervalMs.Some? then options.dropIntervalMs.value else 800.0
  {
    hide NewGame, Protocol.Run;
  }

  lemma OneThingFollows(options: Options, pieces: nat -> Kind, before: seq<Moment>, one: Moment, other: Moment)
    requires options.Accepted() && Follows(options, pieces, before, one) && Follows(options, pieces, before, other)
    ensures one == other
  {
    hide IsBest, Opening, FallDue, ActionDue, TurnDue, Earliest, AskDue, Asks, Protocol.Run, After, Inv, Step,
         RefreshEvents;
    if one.command.Some? {
      assert one.fallen == other.fallen;
      OneIsChosen(one.fallen.game, one.command.value, other.command.value);
    }
  }

  lemma OneIsChosen(game: Game, one: GameCommand, other: GameCommand)
    requires IsChosen(game, one) && IsChosen(game, other)
    ensures one == other
  {
    hide IsBest;
    var plan: Placement :| IsBest(game.board, game.active, plan) && plan.commands != [] && one == plan.commands[0];
    var rest: Placement :| IsBest(game.board, game.active, rest) && rest.commands != [] && other == rest.commands[0];
    BestIsUnique(game.board, game.active, plan, rest);
  }

  /** Options and pieces determine the episode: of two timelines one begins with the other. */
  lemma {:induction false} TimelineIsDetermined(options: Options, pieces: nat -> Kind, one: seq<Moment>,
                                               other: seq<Moment>)
    requires options.Accepted() && IsTimeline(options, pieces, one) && IsTimeline(options, pieces, other)
    requires |one| <= |other|
    ensures one == other[..|one|]
  {
    hide Follows;
    if one != [] {
      var n := |one| - 1;
      assert IsTimeline(options, pieces, one[..n]) by {
        assert forall i :: 0 <= i < n ==> one[..n][..i] == one[..i];
      }
      TimelineIsDetermined(options, pieces, one[..n], other);
      assert one[..n] == other[..n];
      OneThingFollows(options, pieces, one[..n], one[n], other[n]);
      assert one == one[..n] + [one[n]] && other[..n + 1] == other[..n] + [other[n]];
    }
  }

  /** What the loop knows between two iterations, apart from the session and the player themselves. */
  ghost predicate Knows(options: Options, pieces: nat -> Kind, reached: Reached, log: Log, moments: seq<Moment>,
                        gravityAt: real, policyAt: real, refreshes: nat, failed: bool)
    requires options.Accepted()
  {
    && Tallies(log, options, reached, pieces(0), policyAt, refreshes, failed)
    && Traced(options, pieces, moments, reached.state, reached.elapsedMs, gravityAt, policyAt, refreshes)
    && Matches(options, log, moments)
  }

  /** One iteration: what is due happens, locks are counted, and after a lock the policy is refreshed if that is due and
      the next fall starts over. */
  method PlayOn(session: TetrisSession, player: GreedyTetrisPlayer, options: Options, pieces: nat -> Kind, began: real,
                fallsAt: real, askDue: real, asked: nat, ghost reached: Reached, ghost last: Log,
                ghost before: seq<Moment>)
    returns (now: real, gravityAt: real, policyAt: real, refreshes: nat, locks: nat, drops: nat, failed: bool,
             ghost log: Log, ghost moments: seq<Moment>)
    requires options.Accepted() && began < options.durationMs && session.State().Status() == Playing
    requires session.Valid() && player.Valid() && player.session == session && player.pacing == options.pacing
    requires session.State().lastObservedAt <= began && player.Accepts(began) && session.policyRefresh.None?
    requires reached.state == session.State() && reached.elapsedMs == began
    requires Knows(options, pieces, reached, last, before, fallsAt, askDue, asked, false)
    requires Timely(last, options, player.actionAt, fallsAt, began, true)
    requires player.DueAt(began) == ActionDue(options.pacing, before)
    modifies session, session.game, session.observationWindow, player
    ensures session.Valid() && player.Valid() && player.session == session && player.pacing == options.pacing
    ensures session.game == old(session.game) || fresh(session.game)
    ensures session.observationWindow == old(session.observationWindow) || fresh(session.observationWindow)
    ensures session.State().lastObservedAt <= now && player.Accepts(now) && session.policyRefresh.None?
    ensures Knows(options, pieces,
                  Reached(session.State(), now, reached.piecesLocked + locks, reached.hardDrops + drops), log, moments,
                  gravityAt, policyAt, refreshes, failed)
    ensures failed ==> session.State().Status() == Playing
    ensures Timely(log, options, player.actionAt, gravityAt, now, session.State().Status() == Playing)
    ensures session.State().Status() == Playing ==> player.DueAt(now) == ActionDue(options.pacing, moments)
    ensures 0 <= log.Remaining(options, now) < last.Remaining(options, began)
  {
    hide Inv, Protocol.RunFromStart, Protocol.Run, Room, Log.Kept, Log.Remaining, Log.FireDue, Log.CommandDue,
         NewSession, TetrisSession.Valid, TetrisSession.State, GreedyTetrisPlayer.Valid, Answers, Drops, OutOfBounds,
         Tallies, Timely, Traced, Matches, IsInstant, IsRefreshed, Opening, ActionDue, NextDue,
         GreedyTetrisPlayer.DueAt, Earliest, TurnDue;
    SessionIsInv(session);
    var command, dropped;
    ghost var fell, fallen, events;
    ghost var answer: Option<Answer> := None;
    now, gravityAt, command, locks, dropped, log, events, fell, fallen :=
      Iterate(session, player, options, fallsAt, began, pieces, last);
    drops := if dropped && command == Some(HardDrop) then 1 else 0;
    ghost var acted := Reached(session.State(), now, reached.piecesLocked + locks, reached.hardDrops + drops);
    InstantTallies(last, options, reached, pieces(0), askDue, asked, acted, now == fallsAt, command.Some?, events);
    failed, policyAt, refreshes := false, askDue, asked;
    if locks > 0 {
      failed, gravityAt, refreshes, policyAt, log, answer :=
        StartOver(session, options, asked, askDue, gravityAt, acted, pieces(0), player, log, now);
    }
    ghost var moment := Moment(now, now == fallsAt, fell, fallen, command, acted.state, answer, session.State());
    TimelineGoesOn(options, pieces, before, moment, reached.state, began, fallsAt, askDue, asked, gravityAt, policyAt,
                   refreshes, last, log);
    moments := before + [moment];
  }

  /** The episode. It fails exactly when the provider gives an answer out of bounds to a refresh that is due. */
  method RunAutonomousTetrisSession(options: Options, pieces: nat -> Kind)
    returns (outcome: Outcome, ghost log: Log, ghost moments: seq<Moment>)
    ensures outcome.Rejected? <==> !options.Accepted()
    ensures outcome.Finished? ==>
              && Accounts(options, pieces(0), outcome.result, log)
              && (outcome.result.elapsedMs == options.durationMs || outcome.result.state.Status() != Playing)
              && log.Unrefused()
              && Retells(options, pieces, outcome.result, log, moments)
    ensures outcome.RefreshFailed? ==>
              && Accounts(options, pieces(0), outcome.reached, log)
              && outcome.reached.state.Status() == Playing
              && log.RefusedLast()
              && Retells(options, pieces, outcome.reached, log, moments)
    ensures options.Accepted() && options.provider.Some? && OutOfBounds(options.provider.value(0)) ==>
              outcome.RefreshFailed?
    ensures options.Accepted()
            && (options.provider.None? || forall n: nat :: !OutOfBounds(options.provider.value(n))) ==>
              outcome.Finished?
  {
    hide Inv, Protocol.RunFromStart, Protocol.Run, Room, Log.Kept, Log.Remaining, Log.FireDue, Log.CommandDue,
         NewSession, TetrisSession.Valid, TetrisSession.State, GreedyTetrisPlayer.Valid, Answers, Drops, OutOfBounds,
         Log.Asked, Log.Unrefused, Log.RefusedLast, Accounts, Tallies, Timely, Traced, Matches, Opening, ActionDue,
         GreedyTetrisPlayer.DueAt, Retells, Knows;
    NothingHappens();
    log, moments := Log([], [], [], [], []), [];
    if !options.Accepted() {
      return Rejected, log, moments;
    }
    var now := 0.0;
    var session, failed, gravityAt, refreshes, events := Begin(options, pieces(0), now);
    var player := new GreedyTetrisPlayer(session, options.pacing);
    log := log.(events := events, asks := if options.provider.Some? then [now] else []);
    var piecesLocked: nat, hardDrops: nat := 0, 0;
    var policyAt := REFRESH_INTERVAL_MS;
    BeginsTimely(log, options, gravityAt);
    BegunKnowing(options, pieces, session.State(), log, gravityAt, refreshes, failed, player);
    while !failed && now < options.durationMs && session.State().Status() == Playing
      invariant session.Valid() && player.Valid() && player.session == session && player.pacing == options.pacing
      invariant fresh(session) && fresh(session.game) && fresh(session.observationWindow) && fresh(player)
      invariant session.State().lastObservedAt <= now && player.Accepts(now) && session.policyRefresh.None?
      invariant Knows(options, pieces, Reached(session.State(), now, piecesLocked, hardDrops), log, moments, gravityAt,
                      policyAt, refreshes, failed)
      invariant failed ==> session.State().Status() == Playing
      invariant Timely(log, options, player.actionAt, gravityAt, now, session.State().Status() == Playing)
      invariant session.State().Status() == Playing ==> player.DueAt(now) == ActionDue(options.pacing, moments)
      decreases log.Remaining(options, now)
    {
      var locks, drops;
      ghost var reached := Reached(session.State(), now, piecesLocked, hardDrops);
      now, gravityAt, policyAt, refreshes, locks, drops, failed, log, moments :=
        PlayOn(session, player, options, pieces, now, gravityAt, policyAt, refreshes, reached, log, moments);
      piecesLocked := piecesLocked + locks;
      hardDrops := hardDrops + drops;
    }
    var reached := Reached(session.State(), now, piecesLocked, hardDrops);
    KnowingAccounts(options, pieces, reached, log, moments, gravityAt, policyAt, refreshes, failed, player.actionAt);
    FailureComesFromTheProvider(options, pieces(0), reached, log, failed);
    outcome := if failed then RefreshFailed(reached) else Finished(reached);
    session.CloseSession();
  }

  lemma BegunKnowing(options: Options, pieces: nat -> Kind, session: Session, log: Log, gravityAt: real, refreshes: nat,
                     failed: bool, player: GreedyTetrisPlayer)
    requires options.Accepted() && player.Valid() && player.pacing == options.pacing
    requires player.pieceSequence.None? && player.actionAt.None?
    requires session == Opening(options, pieces(0)) && gravityAt == session.selection.intervalMs
    requires session == Protocol.RunFromStart(options.SessionConfig(), pieces(0), 0.0, log.events)
    requires session.game.pieceSequence == 0 && Drops(log.events) == 0
    requires log.clock == log.fires == log.commands == []
    requires if options.provider.Some?
             then && refreshes == 1 && log.asks == [0.0] && Answers(log.events) == [options.provider.value(0)]
                  && (failed <==> OutOfBounds(options.provider.value(0)))
             else refreshes == 0 && log.asks == [] && !failed && Answers(log.events) == []
    ensures Knows(options, pieces, Reached(session, 0.0, 0, 0), log, [], gravityAt, REFRESH_INTERVAL_MS, refreshes,
                  failed)
    ensures player.DueAt(0.0) == ActionDue(options.pacing, [])
  {
    hide Opening, Protocol.RunFromStart, Answers, Drops, OutOfBounds, Traced, Matches, Log.Asked, Log.Unrefused,
         Log.RefusedLast;
    NothingYet(options, log);
    BegunTallies(log, options, session, pieces(0), refreshes, failed);
    BegunTrace(options, pieces, log, gravityAt, player);
  }

  lemma KnowingAccounts(options: Options, pieces: nat -> Kind, reached: Reached, log: Log, moments: seq<Moment>,
                        gravityAt: real, policyAt: real, refreshes: nat, failed: bool, actionAt: Option<real>)
    requires options.Accepted()
    requires Knows(options, pieces, reached, log, moments, gravityAt, policyAt, refreshes, failed)
    requires Timely(log, options, actionAt, gravityAt, reached.elapsedMs, reached.state.Status() == Playing)
    ensures Accounts(options, pieces(0), reached, log) && reached.elapsedMs <= options.durationMs
    ensures if failed then log.RefusedLast() else log.Unrefused()
    ensures Retells(options, pieces, reached, log, moments)
  {
    hide Tallies, Timely, Traced, Matches, Accounts, Retells;
    Accounted(options, pieces(0), reached, log, policyAt, refreshes, failed, actionAt, gravityAt);
    TraceRetells(options, pieces, reached, log, moments, gravityAt, policyAt, refreshes);
  }

  lemma SessionIsInv(session: TetrisSession)
    requires session.Valid()
    ensures Inv(session.State())
  {
  }

  /** A lock changes when gravity is due, and nothing else of the time. */
  lemma FallStartsOver(before: Log, log: Log, options: Options, actionAt: Option<real>, fallsAt: real, gravityAt: real,
                       now: real, playing: bool)
    requires options.Accepted() && Timely(before, options, actionAt, fallsAt, now, playing)
    requires log == before.(events := log.events, asks := log.asks)
    requires now + SHORTEST_DROP_INTERVAL_MS <= gravityAt <= now + LONGEST_DROP_INTERVAL_MS
    ensures Timely(log, options, actionAt, gravityAt, now, playing)
    ensures log.Remaining(options, now) == before.Remaining(options, now)
  {
  }

  lemma BeginsTimely(log: Log, options: Options, gravityAt: real)
    requires options.Accepted() && log.clock == log.fires == log.commands == []
    requires SHORTEST_DROP_INTERVAL_MS <= gravityAt <= LONGEST_DROP_INTERVAL_MS
    ensures Timely(log, options, None, gravityAt, 0.0, true)
  {
    hide Log.Kept;
    NothingYet(options, log);
  }

  lemma BegunTallies(log: Log, options: Options, session: Session, first: Kind, refreshes: nat, failed: bool)
    requires options.Accepted() && session == Protocol.RunFromStart(options.SessionConfig(), first, 0.0, log.events)
    requires session.game.pieceSequence == 0 && Drops(log.events) == 0 && refreshes == |log.asks|
    requires log.Asked(options, 0.0, REFRESH_INTERVAL_MS) && (if failed then log.RefusedLast() else log.Unrefused())
    ensures Tallies(log, options, Reached(session, 0.0, 0, 0), first, REFRESH_INTERVAL_MS, refreshes, failed)
  {
  }

  lemma NothingMore(events: seq<Event>)
    ensures events + [] == events
  {
  }

  lemma IntervalInForce(session: TetrisSession)
    requires session.Valid()
    ensures SHORTEST_DROP_INTERVAL_MS <= session.State().selection.intervalMs <= LONGEST_DROP_INTERVAL_MS
  {
    IntervalIsBounded(session.State());
  }

  lemma NothingYet(options: Options, log: Log)
    requires options.Accepted() && log.clock == log.fires == log.commands == []
    ensures log.Kept(options, 0.0) && log.FireDue() == SHORTEST_DROP_INTERVAL_MS
            && log.CommandDue(options.pacing) == 0.0
    ensures Answers(log.events) == [] && log.asks == [] && options.provider.None? ==>
              log.Asked(options, 0.0, REFRESH_INTERVAL_MS) && log.Unrefused()
    ensures options.provider.Some? && Answers(log.events) == [options.provider.value(0)] && log.asks == [0.0] ==>
              && log.Asked(options, 0.0, REFRESH_INTERVAL_MS)
              && (if OutOfBounds(options.provider.value(0)) then log.RefusedLast() else log.Unrefused())
  {
    hide Answers, OutOfBounds;
  }
}
