/** The session object: it owns a game and an evidence window, replaces both on a restart, and does on its fields
    exactly what the protocol's steps say. */
module SessionEngine {
  import opened Wrappers
  import opened TetrisBoard
  import opened TetrisGame
  import opened Session
  import Protocol = Session
  import DropInterval

  // ---------------------------------------------------------------- evidence from the board

  function OccupiedFrom(board: Board, y: nat): (row: nat)
    requires y <= BOARD_HEIGHT
    ensures y <= row <= BOARD_HEIGHT
    ensures forall v :: y <= v < row ==> forall x :: 0 <= x < BOARD_WIDTH ==> board[v][x] == Empty
    ensures row < BOARD_HEIGHT ==> exists x :: 0 <= x < BOARD_WIDTH && board[row][x] != Empty
    decreases BOARD_HEIGHT - y
  {
    if y == BOARD_HEIGHT || exists x :: 0 <= x < BOARD_WIDTH && board[y][x] != Empty then y
    else OccupiedFrom(board, y + 1)
  }

  /** How much of the board's height is in use. */
  function Pressure(board: Board): real {
    (BOARD_HEIGHT - OccupiedFrom(board, 0)) as real / BOARD_HEIGHT as real
  }

  method BoardPressure(board: Board) returns (pressure: real)
    ensures pressure == Pressure(board)
  {
    var highestOccupiedRow := BOARD_HEIGHT;
    for y := 0 to BOARD_HEIGHT
      invariant highestOccupiedRow == BOARD_HEIGHT
      invariant OccupiedFrom(board, 0) == OccupiedFrom(board, y)
    {
      if exists x :: 0 <= x < BOARD_WIDTH && board[y][x] != Empty {
        highestOccupiedRow := y;
        break;
      }
    }
    pressure := (BOARD_HEIGHT - highestOccupiedRow) as real / BOARD_HEIGHT as real;
  }

  function ObservationOf(game: Game, sessionId: string): DropInterval.Observation {
    DropInterval.Observation(Pressure(game.board), game.Level(), game.recentPlacementTimeMs,
                             game.recentRecoveryFailures as real, sessionId)
  }

  // ---------------------------------------------------------------- the evidence of a run

  /** What has been recorded since the last start, restart or resume. */
  datatype Evidence = Evidence(
    startedAt: real,
    pressures: seq<DropInterval.PressureChange>,
    placements: seq<DropInterval.PlacementObservation>)

  function PressureAt(game: Game, now: real): DropInterval.PressureChange {
    DropInterval.PressureChange(now, DropInterval.BoundedPressure(Pressure(game.board)))
  }

  function PlacementAt(game: Game, now: real): DropInterval.PlacementObservation {
    DropInterval.PlacementObservation(now, DropInterval.Max(0.0, game.recentPlacementTimeMs),
                                      DropInterval.WholeFailures(game.recentRecoveryFailures as real))
  }

  function NewEvidence(game: Game, now: real): Evidence {
    Evidence(now, [PressureAt(game, now)], [])
  }

  /** A restart that is accepted, or a resume that takes effect. */
  predicate Begins(session: Session, event: Event) {
    && event.Dispatch? && !session.closed && event.now >= session.lastObservedAt
    && (event.sessionCommand.Restart?
        || (event.sessionCommand.Resume? && !session.game.over && session.game.paused))
  }

  predicate Acts(session: Session, event: Event) {
    event.Dispatch? && event.sessionCommand.Act? && !session.closed && event.now >= session.lastObservedAt
  }

  /** Every game command records the board it leaves, and the placement if it locked; a refresh records the board. */
  function EvidenceAfter(evidence: Evidence, session: Session, event: Event): Evidence
    requires session.game.Legal()
  {
    var game := After(session, event).game;
    if Begins(session, event) then NewEvidence(game, event.now)
    else if Acts(session, event) then
      var update := Step(session.game, event.sessionCommand.command, event.now, event.next).1;
      evidence.(pressures := evidence.pressures + [PressureAt(game, event.now)],
                placements := evidence.placements + (if update.locked then [PlacementAt(game, event.now)] else []))
    else if event.StartRefresh? && CanStartRefresh(session, event.startedAt, event.externallyAborted) then
      evidence.(pressures := evidence.pressures + [PressureAt(game, event.startedAt)])
    else evidence
  }

  /** Pausing and resuming gather nothing, unless play begins again. */
  lemma PausingGathers(evidence: Evidence, session: Session, paused: bool, now: real, next: Kind)
    requires session.game.Legal() && !session.closed
    ensures var event := Event.Dispatch(if paused then Pause else Resume, now, next);
            && EvidenceAfter(evidence, session, event)
                 == (if Begins(session, event) then NewEvidence(AfterPausing(session, paused, now).game, now)
                     else evidence)
            && (Begins(session, event) <==>
                  !paused && now >= session.lastObservedAt && !session.game.over && session.game.paused)
  {
    hide Cancelled, NewEvidence;
  }

  /** What a session has gathered after a run. */
  ghost function EvidenceOfRun(config: Config, first: Kind, start: real, events: seq<Event>): Evidence
    requires config.Valid()
  {
    NewSessionKeeps(config, first, start);
    if events == [] then NewEvidence(NewSession(config, first, start).game, start)
    else
      var before := events[..|events| - 1];
      LegalGame(Protocol.RunFromStart(config, first, start, before));
      EvidenceAfter(EvidenceOfRun(config, first, start, before), Protocol.RunFromStart(config, first, start, before),
                    events[|events| - 1])
  }

  /** When a run last began, and how many pieces its game had locked by then. */
  ghost function LastBegin(config: Config, first: Kind, start: real, events: seq<Event>): (real, nat)
    requires config.Valid()
  {
    if events == [] then (start, 0)
    else
      var before := events[..|events| - 1];
      var last := events[|events| - 1];
      if Begins(Protocol.RunFromStart(config, first, start, before), last)
      then (last.now, Protocol.RunFromStart(config, first, start, events).game.pieceSequence)
      else LastBegin(config, first, start, before)
  }

  /** Evidence belongs to the span from its beginning up to the session's last moment: it starts with the board of its
      beginning, is chronological, and ends with the board as it is now. */
  ghost predicate Spans(evidence: Evidence, session: Session) {
    && DropInterval.Covers(evidence.pressures, evidence.startedAt)
    && evidence.pressures[0].observedAt == evidence.startedAt
    && DropInterval.Last(evidence.pressures).observedAt <= session.lastObservedAt
    && DropInterval.Last(evidence.pressures).value == DropInterval.BoundedPressure(Pressure(session.game.board))
  }

  lemma StepSpans(evidence: Evidence, session: Session, event: Event)
    requires Inv(session) && session.game.Legal() && Spans(evidence, session)
    ensures Spans(EvidenceAfter(evidence, session, event), After(session, event))
  {
    hide Inv, Pressure, Step, LocalInterval, Cancelled, LocalSelection, NewGame, Reselected, AfterSelection;
    TimeGoesOn(session, event);
    if !Begins(session, event) && !Acts(session, event) {
      OnlyGameCommandsMove(session, event);
    }
  }

  lemma TimeGoesOn(session: Session, event: Event)
    requires session.game.Legal()
    ensures After(session, event).lastObservedAt >= session.lastObservedAt
    ensures Begins(session, event) || Acts(session, event) ==> After(session, event).lastObservedAt == event.now
    ensures event.StartRefresh? && CanStartRefresh(session, event.startedAt, event.externallyAborted) ==>
              After(session, event).lastObservedAt == event.startedAt
  {
    hide Step, LocalInterval, LocalSelection, NewGame, Reselected, UpdatedSelection;
  }

  lemma OnlyGameCommandsMove(session: Session, event: Event)
    requires session.game.Legal() && !Begins(session, event) && !Acts(session, event)
    ensures After(session, event).game.board == session.game.board
    ensures After(session, event).game.pieceSequence == session.game.pieceSequence
  {
    hide Step, LocalInterval, LocalSelection, NewGame, Reselected, UpdatedSelection;
  }

  /** In every run: the evidence begins at the last start, restart or resume; it goes up to the board as it is now; and
      it holds one placement for every piece locked since. */
  lemma {:induction false} EvidenceIsSinceLastBegin(config: Config, first: Kind, start: real, events: seq<Event>)
    requires config.Valid()
    ensures var evidence := EvidenceOfRun(config, first, start, events);
            var session := Protocol.RunFromStart(config, first, start, events);
            var (began, pieces) := LastBegin(config, first, start, events);
            && evidence.startedAt == began && Spans(evidence, session)
            && |evidence.placements| == session.game.pieceSequence - pieces
  {
    hide Inv, Pressure, Step, LocalInterval, Cancelled, LocalSelection, NewGame, Spans, After, NewSession;
    NewSessionKeeps(config, first, start);
    if events == [] {
      StartSpans(config, first, start);
    } else {
      var before, last := events[..|events| - 1], events[|events| - 1];
      var session := Protocol.RunFromStart(config, first, start, before);
      EvidenceIsSinceLastBegin(config, first, start, before);
      LegalGame(session);
      StepSpans(EvidenceOfRun(config, first, start, before), session, last);
      PlacementsCountLocks(session, last);
    }
  }

  lemma StartSpans(config: Config, first: Kind, start: real)
    requires config.Valid()
    ensures var session := NewSession(config, first, start);
            Spans(NewEvidence(session.game, start), session) && session.game.pieceSequence == 0
  {
    hide Pressure, LocalSelection;
  }

  lemma PlacementsCountLocks(session: Session, event: Event)
    requires Inv(session) && session.game.Legal()
    ensures Acts(session, event) ==>
              After(session, event).game.pieceSequence
                == session.game.pieceSequence
                   + (if Step(session.game, event.sessionCommand.command, event.now, event.next).1.locked then 1 else 0)
    ensures !Acts(session, event) && !Begins(session, event) ==>
              After(session, event).game.pieceSequence == session.game.pieceSequence
  {
    hide Inv, LocalInterval, Reselected, Step;
    if Acts(session, event) {
      StepKeepsLegal(session.game, event.sessionCommand.command, event.now, event.next);
      GameIsStepped(session, event);
    } else if !Begins(session, event) {
      OnlyGameCommandsMove(session, event);
    }
  }

  lemma GameIsStepped(session: Session, event: Event)
    requires session.game.Legal() && Acts(session, event)
    ensures After(session, event).game == Step(session.game, event.sessionCommand.command, event.now, event.next).0
  {
    hide Step, LocalInterval;
  }

  /** The time-weighted mean and the maximum over the last five seconds, or since the evidence begins if that is later,
      and the placements in that time. */
  ghost predicate Summarizes(context: DropInterval.Context, evidence: Evidence, now: real) {
    var from := DropInterval.Max(evidence.startedAt, now - DropInterval.OBSERVATION_WINDOW_MS);
    var placements := DropInterval.Recent(evidence.placements, from);
    && DropInterval.Covers(evidence.pressures, from) && from <= now
    && context.boardPressureMean == DropInterval.Mean(evidence.pressures, from, now)
    && DropInterval.IsMaximum(evidence.pressures, from, now, context.boardPressureMax)
    && context.piecesLocked == |placements|
    && context.recoveryFailures == DropInterval.FailureTotal(placements)
    && context.placementTimeMean * context.piecesLocked as real == DropInterval.TimeTotal(placements)
  }

  class TetrisSession {
    const config: Config
    const sessionId: string
    var game: TetrisGame
    var observationWindow: DropInterval.RollingDropIntervalContext
    var selection: Selection
    var pendingSelection: Option<Selection>
    var freshPiece: bool
    var revisionValue: nat
    var policyGeneration: nat
    /** Every refresh begun, by the order it began in; its entry stands for its controller and its promise. */
    var refreshes: seq<Refresh>
    var policyRefresh: Option<nat>
    var closed: bool
    var lastObservedAt: real

    function State(): Session
      reads this, game
    {
      Session(config, game.State(), selection, pendingSelection, freshPiece, revisionValue, policyGeneration,
              refreshes, policyRefresh, closed, lastObservedAt)
    }

    /** What the evidence window has recorded since it was made. */
    ghost function Gathered(): Evidence
      reads this`observationWindow, observationWindow
    {
      Evidence(observationWindow.startedAt, observationWindow.recorded, observationWindow.placed)
    }

    ghost predicate Valid()
      reads this, game, observationWindow
    {
      && Inv(State())
      && observationWindow.Valid()
      && observationWindow.sessionId == sessionId
      && observationWindow.windowMs == DropInterval.OBSERVATION_WINDOW_MS
      && observationWindow.lastObservedAt <= lastObservedAt
    }

    constructor (config: Config, sessionId: string, first: Kind, now: real)
      requires config.Valid()
      ensures Valid() && fresh(game) && fresh(observationWindow)
      ensures State() == NewSession(config, first, now) && Gathered() == NewEvidence(State().game, now)
      ensures this.config == config && this.sessionId == sessionId
    {
      hide NoFullRow, Occupied, Collides, NewGame, LocalInterval, Pressure;
      var game := new TetrisGame(first, now);
      var window := new DropInterval.RollingDropIntervalContext(
        ObservationOf(game.State(), sessionId), now, DropInterval.OBSERVATION_WINDOW_MS);
      this.config, this.sessionId, this.game, this.observationWindow := config, sessionId, game, window;
      selection := LocalSelection(config, game.State());
      pendingSelection, freshPiece, revisionValue, policyGeneration := None, true, 0, 0;
      refreshes, policyRefresh, closed, lastObservedAt := [], None, false, now;
      new;
      hide LocalSelection, Inv;
      NewSessionKeeps(config, first, now);
    }

    method CancelPolicyRefresh() returns (cancelled: bool)
      modifies this`policyGeneration, this`pendingSelection, this`refreshes, this`policyRefresh
      ensures State() == Cancelled(old(State())) && Gathered() == old(Gathered())
      ensures cancelled <==> old(policyRefresh).Some? || old(pendingSelection).Some?
    {
      if policyRefresh.None? && pendingSelection.None? {
        return false;
      }
      policyGeneration := policyGeneration + 1;
      pendingSelection := None;
      if policyRefresh.Some? {
        refreshes := AbortRefresh(refreshes, policyRefresh.value);
      }
      policyRefresh := None;
      cancelled := true;
    }

    /** The update is what the engine reported, for a game command that reached it. */
    method Dispatch(command: SessionCommand, now: real, next: Kind) returns (update: Option<GameUpdate>)
      requires Valid()
      modifies this, game, observationWindow
      ensures Valid()
      ensures update == if command.Act? && !old(closed) && now >= old(lastObservedAt)
                        then Some(Step(old(State()).game, command.command, now, next).1) else None
      ensures State() == After(old(State()), Event.Dispatch(command, now, next))
      ensures Gathered() == EvidenceAfter(old(Gathered()), old(State()), Event.Dispatch(command, now, next))
      ensures game == old(game) || fresh(game)
      ensures observationWindow == old(observationWindow) || fresh(observationWindow)
    {
      hide Inv, Cancelled, AfterUpdate, Step, LocalInterval, NoFullRow, Occupied, Collides, PressureAt, PlacementAt;
      LegalGame(State());
      EveryStepKeeps(State(), Event.Dispatch(command, now, next));
      update := None;
      if closed {
        return;
      }
      match command
      case Act(gameCommand) => update := ApplyGameCommand(gameCommand, now, next);
      case Pause => SetPaused(true, now);
      case Resume => SetPaused(false, now);
      case Restart => RestartGame(now, next);
    }

    method GameStep(command: GameCommand, now: real, next: Kind) returns (update: GameUpdate)
      requires game.State().Legal()
      modifies game
      ensures (game.State(), update) == Step(old(game.State()), command, now, next)
      ensures game.State().Legal()
    {
      match command
      case MoveLeft => update := game.MoveLeft();
      case MoveRight => update := game.MoveRight();
      case RotateClockwise => update := game.RotateClockwise();
      case SoftDrop => update := game.SoftDrop(now, next);
      case HardDrop => update := game.HardDrop(now, next);
      case GravityTick => update := game.Tick(now, next);
    }

    /** The game moves first, then the evidence window records it, then the policy reacts to what happened. */
    method ApplyGameCommand(command: GameCommand, now: real, next: Kind) returns (applied: Option<GameUpdate>)
      requires Valid() && !closed
      modifies this, game, observationWindow
      ensures applied == if now < old(lastObservedAt) then None
                         else Some(Step(old(State()).game, command, now, next).1)
      ensures State() == AfterActing(old(State()), command, now, next)
      ensures game == old(game) && observationWindow == old(observationWindow) && WindowIsCurrent()
      ensures Gathered() == EvidenceAfter(old(Gathered()), old(State()), Event.Dispatch(Act(command), now, next))
    {
      hide Step, LocalInterval, Inv, AfterUpdate, NoFullRow, Occupied, Collides, PressureAt, PlacementAt;
      LegalGame(State());
      if Acts(State(), Event.Dispatch(Act(command), now, next)) {
        GameIsStepped(State(), Event.Dispatch(Act(command), now, next));
      }
      if now < lastObservedAt {
        return None;
      }
      var update := GameStep(command, now, next);
      RecordGame(now, update.locked);
      lastObservedAt := now;
      UpdateReadsUpdateOnly(old(State()), game.State(), update, now);
      ReactToUpdate(update);
      applied := Some(update);
    }

    method GameObservation() returns (observation: DropInterval.Observation)
      ensures observation == ObservationOf(game.State(), sessionId)
    {
      hide OccupiedFrom;
      var pressure := BoardPressure(game.board);
      observation := DropInterval.Observation(pressure, LevelOf(game.lineCount), game.recentPlacementTimeMs,
                                              game.recentRecoveryFailures as real, sessionId);
    }

    ghost predicate WindowIsCurrent()
      reads this`observationWindow, this`lastObservedAt, observationWindow
    {
      && observationWindow.Valid() && observationWindow.lastObservedAt <= lastObservedAt
      && observationWindow.sessionId == sessionId
      && observationWindow.windowMs == DropInterval.OBSERVATION_WINDOW_MS
    }

    /** The session's own window never refuses an observation. */
    method RecordGame(now: real, pieceLocked: bool)
      requires WindowIsCurrent() && now >= lastObservedAt
      modifies observationWindow
      ensures observationWindow.Valid() && observationWindow.lastObservedAt == now
      ensures Gathered() == old(Gathered()).(
                pressures := old(Gathered()).pressures + [PressureAt(game.State(), now)],
                placements := old(Gathered()).placements
                              + (if pieceLocked then [PlacementAt(game.State(), now)] else []))
    {
      var observation := GameObservation();
      var recorded := observationWindow.Record(observation, now, pieceLocked);
      assert recorded.Success?;
    }

    method ReactToUpdate(update: GameUpdate)
      modifies this`selection, this`pendingSelection, this`freshPiece, this`revisionValue, this`policyGeneration,
               this`refreshes, this`policyRefresh
      ensures State() == AfterUpdate(old(State()), game.State(), update)
    {
      hide LocalInterval, Cancelled, NoFullRow, Occupied, Collides;
      if update.changed || update.recoveryFailureRecorded {
        freshPiece := update.locked && !update.gameOver;
      }
      var selectionChanged := ReselectOnLock(update);
      if update.gameOver {
        var _ := CancelPolicyRefresh();
      }
      if update.changed || update.recoveryFailureRecorded || selectionChanged {
        revisionValue := revisionValue + 1;
      }
    }

    /** A lock re-reads the local interval and lets a queued selection in. */
    method ReselectOnLock(update: GameUpdate) returns (selectionChanged: bool)
      modifies this`selection, this`pendingSelection
      ensures var before := old(State());
              var relocalized := if update.locked && before.IsLocal()
                                 then before.selection.(intervalMs := LocalInterval(config, game.State()))
                                 else before.selection;
              var admits := update.locked && !update.gameOver && before.pending.Some?;
              && selection == (if admits then before.pending.value else relocalized)
              && pendingSelection == (if admits then None else before.pending)
              && selectionChanged == (if admits then relocalized != selection
                                      else update.locked && before.IsLocal() && before.selection != selection)
    {
      hide LocalInterval;
      selectionChanged := false;
      if update.locked && (selection.source == Local || selection.source == LocalFallback) {
        var relocalized := selection.(intervalMs := LocalInterval(config, game.State()));
        selectionChanged := selection != relocalized;
        selection := relocalized;
      }
      if update.locked && !update.gameOver && pendingSelection.Some? {
        selectionChanged := selection != pendingSelection.value;
        selection := pendingSelection.value;
        pendingSelection := None;
      }
    }

    method SetPaused(paused: bool, now: real)
      requires Valid() && !closed
      modifies this, game
      ensures State() == AfterPausing(old(State()), paused, now)
      ensures Gathered() == EvidenceAfter(old(Gathered()), old(State()),
                                          Event.Dispatch(if paused then Pause else Resume, now, I))
      ensures game == old(game) && WindowIsCurrent()
      ensures if Begins(old(State()), Event.Dispatch(if paused then Pause else Resume, now, I))
              then fresh(observationWindow) else observationWindow == old(observationWindow)
    {
      hide Inv, Cancelled, NoFullRow, Occupied, Collides, EvidenceAfter, NewEvidence, Begins;
      LegalGame(State());
      PausingGathers(Gathered(), State(), paused, now, I);
      if game.gameOverValue || game.pausedValue == paused {
        return;
      }
      if now < lastObservedAt {
        return;
      }
      if paused {
        var _ := CancelPolicyRefresh();
      }
      game.SetPaused(paused);
      lastObservedAt := now;
      if !paused {
        NewWindow(now);
      }
      revisionValue := revisionValue + 1;
    }

    method NewWindow(now: real)
      requires now == lastObservedAt
      modifies this`observationWindow
      ensures fresh(observationWindow) && WindowIsCurrent()
      ensures Gathered() == NewEvidence(game.State(), now)
    {
      hide Pressure;
      var observation := GameObservation();
      observationWindow := new DropInterval.RollingDropIntervalContext(
        observation, now, DropInterval.OBSERVATION_WINDOW_MS);
    }

    lemma ValidWindowIsCurrent()
      requires Valid()
      ensures WindowIsCurrent()
    {
    }

    method RestartGame(now: real, next: Kind)
      requires Valid() && !closed
      modifies this
      ensures State() == AfterRestart(old(State()), now, next)
      ensures Gathered() == if now < old(lastObservedAt) then old(Gathered()) else NewEvidence(NewGame(next, now), now)
      ensures game == old(game) || fresh(game)
      ensures if Begins(old(State()), Event.Dispatch(Restart, now, next))
              then fresh(observationWindow) else observationWindow == old(observationWindow)
      ensures WindowIsCurrent()
    {
      hide Inv, Cancelled, LocalInterval, NewGame, LocalSelection, NoFullRow, Occupied, Collides, EmptyBoard, Valid,
           WindowIsCurrent, NewEvidence, Reselected;
      ValidWindowIsCurrent();
      if now < lastObservedAt {
        return;
      }
      var _ := CancelPolicyRefresh();
      BeginNewGame(now, next);
      selection := LocalSelection(config, game.State());
      freshPiece := true;
      revisionValue := revisionValue + 1;
    }

    method BeginNewGame(now: real, next: Kind)
      modifies this`game, this`lastObservedAt, this`observationWindow
      ensures fresh(game) && fresh(observationWindow) && WindowIsCurrent()
      ensures game.State() == NewGame(next, now) && lastObservedAt == now
      ensures Gathered() == NewEvidence(game.State(), now)
    {
      hide NewGame, NoFullRow, Occupied, Collides;
      game := new TetrisGame(next, now);
      lastObservedAt := now;
      NewWindow(now);
    }

    /** Begins a refresh unless the session is not being played, one is in flight, or the caller has given up. The
        policy context is the exact summary, at this moment, of what has been gathered since the last start, restart or
        resume, over the last five seconds. */
    method RefreshPolicy(now: real, externallyAborted: bool)
      returns (context: Option<DropInterval.Context>)
      requires Valid()
      modifies this, observationWindow
      ensures Valid() && game == old(game) && observationWindow == old(observationWindow)
      ensures State() == After(old(State()), StartRefresh(now, externallyAborted))
      ensures context.Some? <==> CanStartRefresh(old(State()), now, externallyAborted)
      ensures context.Some? ==>
                && context.value.sessionId == sessionId
                && context.value.currentLevel == game.State().Level()
                && Summarizes(context.value, Gathered(), now)
      ensures Gathered() == EvidenceAfter(old(Gathered()), old(State()), StartRefresh(now, externallyAborted))
    {
      hide Inv, NoFullRow, Occupied, Collides, Pressure, DropInterval.Mean, DropInterval.IsMaximum, DropInterval.Recent,
           DropInterval.FailureTotal, DropInterval.TimeTotal, DropInterval.Chronological, DropInterval.Bounded,
           DropInterval.AgreeFrom, DropInterval.BoundedPressure;
      EveryStepKeeps(State(), StartRefresh(now, externallyAborted));
      if closed || game.pausedValue || game.gameOverValue || policyRefresh.Some? || externallyAborted {
        return None;
      }
      if now < lastObservedAt {
        return None;
      }
      var observation := GameObservation();
      var snapshot := observationWindow.Snapshot(observation, now);
      assert snapshot.Success?;
      lastObservedAt := now;
      policyRefresh := Some(|refreshes|);
      refreshes := refreshes + [Refresh(policyGeneration, false, false)];
      context := Some(snapshot.value);
    }

    /** The answer is handled once; true when the refresh fails because the answer is refused. */
    method ProviderAnswered(id: nat, answer: Answer) returns (refused: bool)
      requires Valid()
      modifies this
      ensures Valid() && game == old(game) && observationWindow == old(observationWindow)
      ensures State() == After(old(State()), ProviderAnswers(id, answer)) && Gathered() == old(Gathered())
      ensures refused <==> Refuses(old(State()), id, answer)
    {
      hide Inv, LocalInterval, NoFullRow, Occupied, Collides, AfterSelection, UpdatedSelection,
           DropInterval.ValidDropInterval;
      refused := false;
      EveryStepKeeps(State(), ProviderAnswers(id, answer));
      if id >= |refreshes| || refreshes[id].answered {
        return;
      }
      var refresh := refreshes[id];
      refreshes := refreshes[id := refresh.(answered := true)];
      if !CanApply(State(), refresh) {
        return;
      }
      match answer
      case Nothing =>
      case Failed(message) =>
        refused := ApplyPolicySelection(Selection(LocalInterval(config, game.State()), LocalFallback,
                                                  "provider error: " + message, None, None, None));
      case Selected(selected) => refused := ApplyPolicySelection(selected);
    }

    method ApplyPolicySelection(refreshed: Selection) returns (refused: bool)
      modifies this`selection, this`pendingSelection, this`revisionValue
      ensures State() == AfterSelection(old(State()), refreshed)
      ensures refused <==> !DropInterval.ValidDropInterval(
                              UpdatedSelection(old(selection), refreshed, LocalInterval(config, game.State()))
                                .intervalMs)
    {
      hide LocalInterval, UpdatedSelection, DropInterval.ValidDropInterval;
      var next := UpdatedSelection(selection, refreshed, LocalInterval(config, game.State()));
      refused := !DropInterval.ValidDropInterval(next.intervalMs);
      if refused {
        return;
      }
      if config.application == PieceBoundary && !freshPiece {
        pendingSelection := Some(next);
        revisionValue := revisionValue + 1;
        return;
      }
      if selection != next {
        selection := next;
        revisionValue := revisionValue + 1;
      }
    }

    /** The caller's own abort signal fires. */
    method AbortExternally(id: nat)
      requires Valid()
      modifies this`refreshes
      ensures Valid() && State() == After(old(State()), ExternalAbort(id)) && Gathered() == old(Gathered())
    {
      hide Inv;
      EveryStepKeeps(State(), ExternalAbort(id));
      refreshes := AbortRefresh(refreshes, id);
    }

    /** The promise of a refresh settles; only the tracked one is let go of. */
    method Settled(id: nat)
      requires Valid()
      modifies this`policyRefresh
      ensures Valid() && State() == After(old(State()), Settle(id)) && Gathered() == old(Gathered())
    {
      hide Inv;
      EveryStepKeeps(State(), Settle(id));
      if id < |refreshes| && (refreshes[id].aborted || refreshes[id].answered) && policyRefresh == Some(id) {
        policyRefresh := None;
      }
    }

    method CloseSession()
      requires Valid()
      modifies this`policyGeneration, this`pendingSelection, this`refreshes, this`policyRefresh, this`closed,
               this`revisionValue
      ensures Valid() && State() == After(old(State()), Close) && Gathered() == old(Gathered())
    {
      hide Inv, Cancelled;
      EveryStepKeeps(State(), Close);
      if closed {
        return;
      }
      var _ := CancelPolicyRefresh();
      closed := true;
      revisionValue := revisionValue + 1;
    }
  }

  lemma LegalGame(session: Session)
    requires Inv(session)
    ensures session.game.Legal() && session.game.Lockable()
  {
  }
}
