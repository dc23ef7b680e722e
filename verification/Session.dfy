/** The session's policy protocol over session values: commands, asynchronous refreshes, cancellation and the
    queued selection, one atomic step at a time. */
module Session {
  import opened Wrappers
  import opened TetrisBoard
  import opened TetrisGame
  import DropInterval

  datatype Source = Local | Flaggo | FlaggoCached | LocalFallback

  datatype Selection = Selection(
    intervalMs: real,
    source: Source,
    status: string,
    exposureId: Option<string>,
    contractDigest: Option<string>,
    executableDigest: Option<string>)

  datatype Application = Immediate | PieceBoundary

  datatype Config = Config(fallbackIntervalMs: Option<real>, application: Application) {
    predicate Valid() {
      fallbackIntervalMs.Some? ==> DropInterval.ValidDropInterval(fallbackIntervalMs.value)
    }
  }

  datatype SessionCommand = Act(command: GameCommand) | Pause | Resume | Restart

  datatype Status = Playing | Paused | GameOver | Closed

  /** A refresh that has begun: the generation it belongs to, whether its signal is aborted (by its own controller or
      from outside), and whether the provider's answer has been handled. */
  datatype Refresh = Refresh(generation: nat, aborted: bool, answered: bool)

  datatype Answer = Selected(selection: Selection) | Nothing | Failed(message: string)

  datatype Session = Session(
    config: Config,
    game: Game,
    selection: Selection,
    pending: Option<Selection>,
    freshPiece: bool,
    revision: nat,
    generation: nat,
    refreshes: seq<Refresh>,
    tracked: Option<nat>,
    closed: bool,
    lastObservedAt: real
  ) {
    function Status(): Status {
      if closed then Closed else if game.over then GameOver else if game.paused then Paused else Playing
    }

    predicate IsLocal() {
      selection.source == Local || selection.source == LocalFallback
    }
  }

  datatype Event =
    | Dispatch(sessionCommand: SessionCommand, now: real, next: Kind)
    | StartRefresh(startedAt: real, externallyAborted: bool)
    | ProviderAnswers(id: nat, answer: Answer)
    | ExternalAbort(id: nat)
    | Settle(id: nat)
    | Cancel
    | Close

  // ---------------------------------------------------------------- the steps

  function LocalInterval(config: Config, game: Game): real {
    if config.fallbackIntervalMs.Some? then config.fallbackIntervalMs.value
    else DropInterval.LocalDropInterval(game.Level()) as real
  }

  function LocalSelection(config: Config, game: Game): Selection {
    Selection(LocalInterval(config, game), Local,
              if config.fallbackIntervalMs.None? then "local gravity policy" else "fixed local gravity policy",
              None, None, None)
  }

  function UpdatedSelection(current: Selection, refreshed: Selection, localIntervalMs: real): Selection {
    if refreshed.source != LocalFallback || (current.source != Flaggo && current.source != FlaggoCached) then
      if refreshed.source == Local || refreshed.source == LocalFallback then refreshed.(intervalMs := localIntervalMs)
      else refreshed
    else current.(source := FlaggoCached, status := "retained after refresh failure: " + refreshed.status)
  }

  function NewSession(config: Config, first: Kind, now: real): Session {
    var game := NewGame(first, now);
    Session(config, game, LocalSelection(config, game), None, true, 0, 0, [], None, false, now)
  }

  function AbortRefresh(refreshes: seq<Refresh>, id: nat): seq<Refresh> {
    if id < |refreshes| then refreshes[id := refreshes[id].(aborted := true)] else refreshes
  }

  function Cancelled(session: Session): Session {
    if session.tracked.None? && session.pending.None? then session
    else session.(
      generation := session.generation + 1,
      pending := None,
      refreshes := if session.tracked.Some? then AbortRefresh(session.refreshes, session.tracked.value)
                   else session.refreshes,
      tracked := None)
  }

  function AfterClose(session: Session): Session {
    if session.closed then session
    else
      var quiet := Cancelled(session);
      quiet.(closed := true, revision := quiet.revision + 1)
  }

  /** What a game update does to the policy: a lock re-reads the local interval and lets a queued selection in. */
  function AfterUpdate(session: Session, game: Game, update: GameUpdate): Session {
    var (settled, selectionChanged) := Reselected(session, game, update);
    var quiet := if update.gameOver then Cancelled(settled) else settled;
    if update.changed || update.recoveryFailureRecorded || selectionChanged
    then quiet.(revision := quiet.revision + 1) else quiet
  }

  function Reselected(session: Session, game: Game, update: GameUpdate): (Session, bool) {
    var relocalized :=
      if update.locked && session.IsLocal() then session.selection.(intervalMs := LocalInterval(session.config, game))
      else session.selection;
    var admits := update.locked && !update.gameOver && session.pending.Some?;
    var selection := if admits then session.pending.value else relocalized;
    (session.(
       game := game,
       freshPiece := if update.changed || update.recoveryFailureRecorded then update.locked && !update.gameOver
                     else session.freshPiece,
       selection := selection,
       pending := if admits then None else session.pending),
     if admits then relocalized != selection else update.locked && session.IsLocal() && session.selection != selection)
  }

  function AfterActing(session: Session, command: GameCommand, now: real, next: Kind): Session
    requires session.game.Legal()
  {
    if now < session.lastObservedAt then session
    else
      var (game, update) := Step(session.game, command, now, next);
      AfterUpdate(session, game, update).(lastObservedAt := now)
  }

  function AfterRestart(session: Session, now: real, next: Kind): Session {
    if now < session.lastObservedAt then session
    else
      var quiet := Cancelled(session);
      var game := NewGame(next, now);
      quiet.(game := game, lastObservedAt := now, selection := LocalSelection(session.config, game),
             freshPiece := true, revision := quiet.revision + 1)
  }

  function AfterCommand(session: Session, command: SessionCommand, now: real, next: Kind): Session
    requires session.game.Legal()
  {
    match command
    case Act(gameCommand) => AfterActing(session, gameCommand, now, next)
    case Pause => AfterPausing(session, true, now)
    case Resume => AfterPausing(session, false, now)
    case Restart => AfterRestart(session, now, next)
  }

  function AfterPausing(session: Session, paused: bool, now: real): Session {
    if session.game.over || session.game.paused == paused || now < session.lastObservedAt then session
    else
      var quiet := if paused then Cancelled(session) else session;
      quiet.(game := WithPaused(quiet.game, paused), lastObservedAt := now, revision := quiet.revision + 1)
  }

  lemma CancellingReadsPolicyOnly(session: Session, now: real)
    ensures Cancelled(session.(lastObservedAt := now)) == Cancelled(session).(lastObservedAt := now)
  {
  }

  lemma ReselectingReadsUpdateOnly(session: Session, game: Game, update: GameUpdate, now: real)
    ensures var (settled, changed) := Reselected(session, game, update);
            Reselected(session.(game := game, lastObservedAt := now), game, update)
              == (settled.(lastObservedAt := now), changed)
  {
    hide LocalInterval;
  }

  /** An update's effect does not depend on the clock or on the game it replaces. */
  lemma UpdateReadsUpdateOnly(session: Session, game: Game, update: GameUpdate, now: real)
    ensures AfterUpdate(session.(game := game, lastObservedAt := now), game, update)
         == AfterUpdate(session, game, update).(lastObservedAt := now)
  {
    hide Cancelled, Reselected;
    ReselectingReadsUpdateOnly(session, game, update, now);
    CancellingReadsPolicyOnly(Reselected(session, game, update).0, now);
  }

  predicate CanStartRefresh(session: Session, now: real, externallyAborted: bool) {
    session.Status() == Playing && session.tracked.None? && !externallyAborted && session.lastObservedAt <= now
  }

  function AfterStart(session: Session, now: real, externallyAborted: bool): Session {
    if !CanStartRefresh(session, now, externallyAborted) then session
    else session.(
      refreshes := session.refreshes + [Refresh(session.generation, false, false)],
      tracked := Some(|session.refreshes|),
      lastObservedAt := now)
  }

  predicate CanApply(session: Session, refresh: Refresh) {
    session.Status() == Playing && !refresh.aborted && refresh.generation == session.generation
  }

  function AfterSelection(session: Session, refreshed: Selection): Session {
    var next := UpdatedSelection(session.selection, refreshed, LocalInterval(session.config, session.game));
    if !DropInterval.ValidDropInterval(next.intervalMs) then session
    else if session.config.application == PieceBoundary && !session.freshPiece then
      session.(pending := Some(next), revision := session.revision + 1)
    else if session.selection == next then session
    else session.(selection := next, revision := session.revision + 1)
  }

  /** What a provider's error stands for. */
  function Fallback(session: Session, message: string): Selection {
    Selection(LocalInterval(session.config, session.game), LocalFallback, "provider error: " + message, None, None,
              None)
  }

  /** The provider's answer arrives once; whether it counts is decided only now. */
  function AfterAnswer(session: Session, id: nat, answer: Answer): Session {
    if id >= |session.refreshes| || session.refreshes[id].answered then session
    else
      var refresh := session.refreshes[id];
      var handled := session.(refreshes := session.refreshes[id := refresh.(answered := true)]);
      if !CanApply(session, refresh) then handled
      else
        match answer
        case Nothing => handled
        case Failed(message) => AfterSelection(handled, Fallback(session, message))
        case Selected(selection) => AfterSelection(handled, selection)
  }

  /** An answer that would be applied but is refused: the refresh fails. */
  predicate Refuses(session: Session, id: nat, answer: Answer) {
    && id < |session.refreshes| && !session.refreshes[id].answered && CanApply(session, session.refreshes[id])
    && !answer.Nothing?
    && var refreshed := if answer.Selected? then answer.selection else Fallback(session, answer.message);
       var next := UpdatedSelection(session.selection, refreshed, LocalInterval(session.config, session.game));
       !DropInterval.ValidDropInterval(next.intervalMs)
  }

  /** An interval that the decision service should never have answered with. */
  predicate OutOfBounds(answer: Answer) {
    && answer.Selected? && (answer.selection.source == Flaggo || answer.selection.source == FlaggoCached)
    && !DropInterval.ValidDropInterval(answer.selection.intervalMs)
  }

  /** The tracked promise settles once its signal is aborted or its answer is handled. */
  function AfterSettling(session: Session, id: nat): Session {
    if id < |session.refreshes| && (session.refreshes[id].aborted || session.refreshes[id].answered)
       && session.tracked == Some(id)
    then session.(tracked := None)
    else session
  }

  function After(session: Session, event: Event): Session
    requires session.game.Legal()
  {
    match event
    case Dispatch(command, now, next) => if session.closed then session else AfterCommand(session, command, now, next)
    case StartRefresh(now, aborted) => AfterStart(session, now, aborted)
    case ProviderAnswers(id, answer) => AfterAnswer(session, id, answer)
    case ExternalAbort(id) => session.(refreshes := AbortRefresh(session.refreshes, id))
    case Settle(id) => AfterSettling(session, id)
    case Cancel => Cancelled(session)
    case Close => AfterClose(session)
  }

  // ---------------------------------------------------------------- what every step keeps

  predicate IsLive(refresh: Refresh) {
    !refresh.aborted && !refresh.answered
  }

  /** What holds even in the middle of a step. */
  ghost predicate Core(session: Session) {
    && session.game.Legal()
    && session.config.Valid()
    && DropInterval.ValidDropInterval(session.selection.intervalMs)
    && (session.pending.Some? ==>
          DropInterval.ValidDropInterval(session.pending.value.intervalMs)
            && session.config.application == PieceBoundary)
    && (session.tracked.Some? ==> session.tracked.value < |session.refreshes|)
    && (forall id :: 0 <= id < |session.refreshes| ==>
          && session.refreshes[id].generation <= session.generation
          && (IsLive(session.refreshes[id]) ==>
                session.tracked == Some(id) && session.refreshes[id].generation == session.generation))
  }

  /** At most the tracked refresh is live, and only while playing; a selection is queued only behind a piece in play. */
  ghost predicate Inv(session: Session) {
    && Core(session)
    && (session.pending.Some? ==> !session.freshPiece && session.Status() == Playing)
    && (session.Status() != Playing ==> AllDead(session))
  }

  ghost predicate AllDead(session: Session) {
    forall id :: 0 <= id < |session.refreshes| ==> !IsLive(session.refreshes[id])
  }

  lemma LocalIntervalIsBounded(config: Config, game: Game)
    requires config.Valid()
    ensures DropInterval.ValidDropInterval(LocalInterval(config, game))
  {
    DropInterval.LocalIntervalIsValid(game.Level(), game.Level());
  }

  lemma NewSessionKeeps(config: Config, first: Kind, now: real)
    requires config.Valid()
    ensures Inv(NewSession(config, first, now))
  {
    NewGameIsLegal(first, now);
    LocalIntervalIsBounded(config, NewGame(first, now));
  }

  /** Cancelling leaves nothing queued and nothing live, whatever state it was called in. */
  lemma CancelQuiets(session: Session)
    requires Core(session)
    ensures var quiet := Cancelled(session);
            && Inv(quiet) && AllDead(quiet)
            && quiet == session.(generation := quiet.generation, pending := None, refreshes := quiet.refreshes,
                                 tracked := None)
            && |quiet.refreshes| == |session.refreshes|
            && forall id :: 0 <= id < |session.refreshes| && !IsLive(session.refreshes[id]) ==>
                !IsLive(quiet.refreshes[id])
  {
    hide DropInterval.ValidDropInterval;
  }

  lemma UpdateKeeps(session: Session, game: Game, update: GameUpdate)
    requires Inv(session) && KeepsLegal(session.game, game, update)
    requires session.Status() == Playing || game.over == session.game.over
    ensures Inv(AfterUpdate(session, game, update))
    ensures AfterUpdate(session, game, update).game == game
    ensures game.over ==> AllDead(AfterUpdate(session, game, update))
  {
    hide DropInterval.ValidDropInterval, Cancelled, LocalInterval;
    LocalIntervalIsBounded(session.config, game);
    var relocalized :=
      if update.locked && session.IsLocal() then session.selection.(intervalMs := LocalInterval(session.config, game))
      else session.selection;
    var admits := update.locked && !update.gameOver && session.pending.Some?;
    var settled := session.(
      game := game,
      freshPiece := if update.changed || update.recoveryFailureRecorded then update.locked && !update.gameOver
                    else session.freshPiece,
      selection := if admits then session.pending.value else relocalized,
      pending := if admits then None else session.pending);
    assert Core(settled);
    CancelQuiets(settled);
  }

  lemma PausingKeeps(session: Session, paused: bool, now: real)
    requires Inv(session)
    ensures Inv(AfterPausing(session, paused, now))
    ensures paused && now >= session.lastObservedAt ==> AllDead(AfterPausing(session, paused, now))
  {
    hide DropInterval.ValidDropInterval, Cancelled;
    CancelQuiets(session);
  }

  lemma CommandKeeps(session: Session, command: SessionCommand, now: real, next: Kind)
    requires Inv(session) && !session.closed
    ensures Inv(AfterCommand(session, command, now, next))
    ensures command == Restart && now >= session.lastObservedAt ==> AllDead(AfterCommand(session, command, now, next))
    ensures command.Act? && AfterCommand(session, command, now, next).game.over ==>
              AllDead(AfterCommand(session, command, now, next))
  {
    hide DropInterval.ValidDropInterval, Cancelled, LocalInterval, AfterUpdate, Step, NoFullRow, Occupied, Collides,
         AfterPausing;
    match command
    case Act(gameCommand) =>
      if now >= session.lastObservedAt {
        var (game, update) := Step(session.game, gameCommand, now, next);
        StepKeepsLegal(session.game, gameCommand, now, next);
        if !session.game.CanAct() {
          StoppedGameStands(session.game, gameCommand, now, next);
        }
        UpdateKeeps(session, game, update);
      }
    case Pause => PausingKeeps(session, true, now);
    case Resume => PausingKeeps(session, false, now);
    case Restart =>
      CancelQuiets(session);
      NewGameIsLegal(next, now);
      LocalIntervalIsBounded(session.config, NewGame(next, now));
  }

  lemma StoppedGameStands(game: Game, command: GameCommand, now: real, next: Kind)
    requires game.Legal() && !game.CanAct()
    ensures Step(game, command, now, next) == (game, Unchanged(game))
  {
  }

  lemma AnswerKeeps(session: Session, id: nat, answer: Answer)
    requires Inv(session)
    ensures Inv(AfterAnswer(session, id, answer))
  {
    hide DropInterval.ValidDropInterval, LocalInterval, UpdatedSelection, Fallback, NoFullRow, Occupied, Collides;
    LocalIntervalIsBounded(session.config, session.game);
  }

  lemma EveryStepKeeps(session: Session, event: Event)
    requires Inv(session)
    ensures Inv(After(session, event))
  {
    hide DropInterval.ValidDropInterval, LocalInterval, AfterCommand, AfterAnswer, Cancelled;
    match event
    case Dispatch(command, now, next) => if !session.closed { CommandKeeps(session, command, now, next); }
    case ProviderAnswers(id, answer) => AnswerKeeps(session, id, answer);
    case StartRefresh(now, aborted) =>
    case ExternalAbort(id) =>
    case Settle(id) =>
    case Cancel => CancelQuiets(session);
    case Close => CancelQuiets(session);
  }

  /** Refreshes are only ever added, aborted or answered. */
  ghost predicate OnlyDies(before: seq<Refresh>, after: seq<Refresh>) {
    && |before| <= |after|
    && forall id :: 0 <= id < |before| && !IsLive(before[id]) ==> !IsLive(after[id])
  }

  lemma CancelOnlyKills(session: Session)
    ensures OnlyDies(session.refreshes, Cancelled(session).refreshes)
    ensures Cancelled(session).config == session.config
  {
  }

  lemma UpdateOnlyKills(session: Session, game: Game, update: GameUpdate)
    ensures OnlyDies(session.refreshes, AfterUpdate(session, game, update).refreshes)
    ensures AfterUpdate(session, game, update).config == session.config
  {
    hide LocalInterval;
  }

  lemma DeadStaysDead(session: Session, event: Event)
    requires Inv(session)
    ensures OnlyDies(session.refreshes, After(session, event).refreshes)
    ensures After(session, event).config == session.config
  {
    hide DropInterval.ValidDropInterval, LocalInterval, UpdatedSelection, LocalSelection, Step, Cancelled,
         WithPaused, NewGame, AfterUpdate;
    CancelOnlyKills(session);
    match event
    case Dispatch(command, now, next) =>
      if command.Act? && !session.closed && now >= session.lastObservedAt {
        var (game, update) := Step(session.game, command.command, now, next);
        UpdateOnlyKills(session, game, update);
      }
    case _ =>
  }

  // ---------------------------------------------------------------- stale answers

  /** The steps after which nothing asked for earlier may still be applied. */
  predicate Interrupts(session: Session, event: Event, id: nat)
    requires session.game.Legal()
  {
    match event
    case Cancel => true
    case Close => true
    case ExternalAbort(aborted) => aborted == id
    case Dispatch(command, now, next) =>
      && !session.closed && now >= session.lastObservedAt
      && (command == Pause || command == Restart || (command.Act? && After(session, event).game.over))
    case _ => false
  }

  lemma InterruptKills(session: Session, event: Event, id: nat)
    requires Inv(session) && Interrupts(session, event, id) && id < |session.refreshes|
    ensures id < |After(session, event).refreshes| && !IsLive(After(session, event).refreshes[id])
  {
    hide DropInterval.ValidDropInterval, LocalInterval, AfterCommand, Cancelled;
    DeadStaysDead(session, event);
    match event
    case Dispatch(command, now, next) =>
      CommandKeeps(session, command, now, next);
      if command == Pause { PausingKills(session, now, next); }
    case ExternalAbort(_) =>
    case Cancel => CancelQuiets(session);
    case Close => CancelQuiets(session);
  }

  lemma PausingKills(session: Session, now: real, next: Kind)
    requires Inv(session) && now >= session.lastObservedAt
    ensures AllDead(AfterCommand(session, Pause, now, next))
  {
    PausingKeeps(session, true, now);
  }

  function Run(session: Session, events: seq<Event>): (after: Session)
    requires Inv(session)
    ensures Inv(after)
  {
    if events == [] then session
    else
      var before := Run(session, events[..|events| - 1]);
      EveryStepKeeps(before, events[|events| - 1]);
      After(before, events[|events| - 1])
  }

  lemma RunStep(session: Session, events: seq<Event>, n: nat)
    requires Inv(session) && n < |events|
    ensures Run(session, events[..n + 1]) == After(Run(session, events[..n]), events[n])
  {
    assert events[..n + 1][..n] == events[..n];
  }

  lemma {:induction false} RunComposes(session: Session, first: seq<Event>, second: seq<Event>)
    requires Inv(session)
    ensures Run(session, first + second) == Run(Run(session, first), second)
  {
    hide After, Inv;
    if second == [] {
      assert first + second == first;
    } else {
      var last := |second| - 1;
      RunComposes(session, first, second[..last]);
      assert (first + second)[..|first| + last] == first + second[..last];
    }
  }

  lemma {:induction false} DeadThroughout(session: Session, events: seq<Event>, m: nat, n: nat, id: nat)
    requires Inv(session) && m <= n <= |events|
    requires id < |Run(session, events[..m]).refreshes| && !IsLive(Run(session, events[..m]).refreshes[id])
    ensures id < |Run(session, events[..n]).refreshes| && !IsLive(Run(session, events[..n]).refreshes[id])
  {
    hide After, Inv;
    if m < n {
      DeadThroughout(session, events, m, n - 1, id);
      RunStep(session, events, n - 1);
      DeadStaysDead(Run(session, events[..n - 1]), events[n - 1]);
    }
  }

  /** In every run: an answer to a refresh begun before a pause, restart, close, lost game, cancellation or abort
      changes neither the selection in force nor the queued one, nor the revision. */
  lemma StaleAnswerIsIgnored(session: Session, events: seq<Event>, m: nat, n: nat, id: nat)
    requires Inv(session) && m < n < |events|
    requires id < |Run(session, events[..m]).refreshes|
    requires Interrupts(Run(session, events[..m]), events[m], id)
    requires events[n].ProviderAnswers? && events[n].id == id
    ensures var before, after := Run(session, events[..n]), Run(session, events[..n + 1]);
            after == before.(refreshes := after.refreshes)
  {
    hide After, Inv, Run, Interrupts;
    InterruptKills(Run(session, events[..m]), events[m], id);
    RunStep(session, events, m);
    DeadThroughout(session, events, m + 1, n, id);
    RunStep(session, events, n);
    DeadAnswerIsIgnored(Run(session, events[..n]), events[n]);
  }

  lemma DeadAnswerIsIgnored(session: Session, event: Event)
    requires Inv(session) && event.ProviderAnswers?
    requires event.id < |session.refreshes| && !IsLive(session.refreshes[event.id])
    ensures var after := After(session, event); after == session.(refreshes := after.refreshes)
  {
  }

  /** Whatever is in flight but no longer tracked has an aborted signal. */
  lemma UntrackedIsAborted(session: Session, events: seq<Event>, id: nat)
    requires Inv(session) && id < |Run(session, events).refreshes|
    ensures var after := Run(session, events);
            after.tracked != Some(id) && !after.refreshes[id].answered ==> after.refreshes[id].aborted
  {
  }

  /** And an answer that is still live does count, exactly unless it is empty or out of bounds: it is in force at once,
      or queued behind the piece in play. A local answer takes the local interval of this moment; a fallback and an
      error keep what the decision service decided before, and are local otherwise. */
  lemma LiveAnswerCounts(session: Session, id: nat, answer: Answer)
    requires Inv(session) && id < |session.refreshes| && IsLive(session.refreshes[id])
    ensures var after := AfterAnswer(session, id, answer);
            var queues := session.config.application == PieceBoundary && !session.freshPiece;
            var chosen := if queues then after.pending else Some(after.selection);
            if answer.Nothing? || OutOfBounds(answer) then
              after == session.(refreshes := session.refreshes[id := session.refreshes[id].(answered := true)])
            else
              && chosen.Some?
              && (if queues then after.selection == session.selection else after.pending == session.pending)
              && IsChosen(session, answer, chosen.value)
  {
    hide DropInterval.ValidDropInterval, LocalInterval;
    LocalIntervalIsValid(session);
  }

  predicate IsChosen(session: Session, answer: Answer, chosen: Selection) {
    var local := LocalInterval(session.config, session.game);
    var falls := answer.Failed? || (answer.Selected? && answer.selection.source == LocalFallback);
    if falls && !session.IsLocal() then
      && chosen.source == FlaggoCached
      && chosen == session.selection.(source := FlaggoCached, status := chosen.status)
    else if answer.Failed? then chosen.source == LocalFallback && chosen.intervalMs == local && chosen.exposureId.None?
    else
      && answer.Selected?
      && chosen == (if answer.selection.source == Local || answer.selection.source == LocalFallback
                    then answer.selection.(intervalMs := local) else answer.selection)
  }

  lemma LocalIntervalIsValid(session: Session)
    requires Inv(session)
    ensures DropInterval.ValidDropInterval(LocalInterval(session.config, session.game))
    ensures DropInterval.ValidDropInterval(session.selection.intervalMs)
    ensures forall id :: 0 <= id < |session.refreshes| && IsLive(session.refreshes[id]) ==>
              CanApply(session, session.refreshes[id])
  {
    hide DropInterval.ValidDropInterval;
    LocalIntervalIsBounded(session.config, session.game);
  }

  /** A refresh fails exactly when its answer would be applied and comes from the decision service with an interval out
      of bounds; then nothing but the answer's arrival is noted. */
  lemma RefusedExactlyIf(session: Session, id: nat, answer: Answer)
    requires Inv(session) && id < |session.refreshes| && !session.refreshes[id].answered
    ensures Refuses(session, id, answer) <==> CanApply(session, session.refreshes[id]) && OutOfBounds(answer)
    ensures Refuses(session, id, answer) ==>
              AfterAnswer(session, id, answer)
                == session.(refreshes := session.refreshes[id := session.refreshes[id].(answered := true)])
  {
    hide DropInterval.ValidDropInterval, LocalInterval;
    LocalIntervalIsValid(session);
  }

  // ---------------------------------------------------------------- piece boundaries

  /** The steps that end a piece: a lock, or a restart. */
  predicate EndsPiece(session: Session, event: Event)
    requires session.game.Legal()
  {
    && event.Dispatch? && !session.closed && event.now >= session.lastObservedAt
    && (event.sessionCommand == Restart
        || (event.sessionCommand.Act?
            && Step(session.game, event.sessionCommand.command, event.now, event.next).1.locked))
  }

  lemma StepHoldsSelection(session: Session, event: Event)
    requires Inv(session) && session.config.application == PieceBoundary && !session.freshPiece
    requires !EndsPiece(session, event)
    ensures After(session, event).selection == session.selection
    ensures !After(session, event).freshPiece
  {
    hide DropInterval.ValidDropInterval, LocalInterval, UpdatedSelection, Step, LocalSelection;
  }

  /** The first command on a piece that does something, without locking it, makes the piece no longer fresh. */
  lemma EffectiveCommandUsesPiece(session: Session, command: GameCommand, now: real, next: Kind)
    requires Inv(session) && !session.closed && now >= session.lastObservedAt
    requires var update := Step(session.game, command, now, next).1;
             !update.locked && (update.changed || update.recoveryFailureRecorded)
    ensures !After(session, Dispatch(Act(command), now, next)).freshPiece
  {
    hide Step, LocalInterval;
  }

  /** In piece-boundary mode the selection in force cannot change between a piece's first effective command and the
      step that ends it, whatever answers arrive. */
  lemma {:induction false} SelectionIsHeld(session: Session, events: seq<Event>)
    requires Inv(session) && session.config.application == PieceBoundary && !session.freshPiece
    requires forall n :: 0 <= n < |events| ==> !EndsPiece(Run(session, events[..n]), events[n])
    ensures var after := Run(session, events);
            && after.selection == session.selection && !after.freshPiece && after.config == session.config
  {
    hide After, Inv, EndsPiece;
    if events != [] {
      var last := |events| - 1;
      assert forall n :: 0 <= n < last ==> events[..last][..n] == events[..n];
      SelectionIsHeld(session, events[..last]);
      StepHoldsSelection(Run(session, events[..last]), events[last]);
      DeadStaysDead(Run(session, events[..last]), events[last]);
    }
  }

  /** A queued selection comes into force exactly with the lock that brings the next piece; a lock that ends the game
      drops it. */
  lemma QueuedSelectionWaitsForLock(session: Session, command: GameCommand, now: real, next: Kind)
    requires Inv(session) && session.pending.Some? && now >= session.lastObservedAt
    ensures var update := Step(session.game, command, now, next).1;
            var after := After(session, Dispatch(Act(command), now, next));
            && (update.locked && !update.gameOver ==>
                  after.selection == session.pending.value && after.pending.None? && after.freshPiece)
            && (!update.locked ==> after.selection == session.selection && after.pending == session.pending)
            && (update.gameOver ==> after.pending.None?)
  {
    hide DropInterval.ValidDropInterval, LocalInterval, Step, Cancelled, NoFullRow, Occupied, Collides;
    StepKeepsLegal(session.game, command, now, next);
    var (game, update) := Step(session.game, command, now, next);
    UpdateKeeps(session, game, update);
  }

  function RunFromStart(config: Config, first: Kind, now: real, events: seq<Event>): Session
    requires config.Valid()
  {
    NewSessionKeeps(config, first, now);
    Run(NewSession(config, first, now), events)
  }

  /** In every run the interval in force satisfies the bounds; a selection is queued only in piece-boundary mode
      behind a piece that has been played with; and at most the tracked refresh is live. */
  lemma EveryRunIsBounded(config: Config, first: Kind, now: real, events: seq<Event>)
    requires config.Valid()
    ensures var after := RunFromStart(config, first, now, events);
            && DropInterval.ValidDropInterval(after.selection.intervalMs)
            && (after.pending.Some? ==>
                  && after.config.application == PieceBoundary && !after.freshPiece && after.Status() == Playing
                  && DropInterval.ValidDropInterval(after.pending.value.intervalMs))
            && (forall id :: 0 <= id < |after.refreshes| && IsLive(after.refreshes[id]) ==>
                  after.tracked == Some(id) && after.Status() == Playing)
  {
    hide NewSession, Run, DropInterval.ValidDropInterval;
    NewSessionKeeps(config, first, now);
  }

  // ---------------------------------------------------------------- the local policy

  /** A restart that is accepted leaves nothing of what was before but the session's configuration: a new game under the
      local policy of its first level, nothing queued, nothing live, and a fresh piece. */
  lemma RestartStartsOver(session: Session, now: real, next: Kind)
    requires Inv(session)
    ensures var after := After(session, Dispatch(Restart, now, next));
            if session.closed || now < session.lastObservedAt then after == session
            else
              && after.game == NewGame(next, now) && after.Status() == Playing && after.lastObservedAt == now
              && after.selection.source == Local
              && after.selection.intervalMs
                   == (if session.config.fallbackIntervalMs.Some? then session.config.fallbackIntervalMs.value
                       else 800.0)
              && after.selection.exposureId.None? && after.selection.contractDigest.None?
              && after.selection.executableDigest.None?
              && after.pending.None? && after.tracked.None? && AllDead(after) && after.freshPiece
              && after.config == session.config && after.revision == session.revision + 1
  {
    hide NewGame, Cancelled, NoFullRow, Occupied, Collides, DropInterval.ValidDropInterval;
    if !session.closed && now >= session.lastObservedAt {
      CancelQuiets(session);
      NewGameIsLegal(next, now);
      NewGameIsAtFirstLevel(session.config, next, now);
    }
  }

  lemma NewGameIsAtFirstLevel(config: Config, first: Kind, now: real)
    ensures LocalInterval(config, NewGame(first, now))
              == if config.fallbackIntervalMs.Some? then config.fallbackIntervalMs.value else 800.0
    ensures !NewGame(first, now).paused
  {
  }

  /** A local selection in force has the local interval of the level. */
  ghost predicate LocalIsCurrent(session: Session) {
    session.IsLocal() ==> session.selection.intervalMs == LocalInterval(session.config, session.game)
  }

  /** So has one that is queued. */
  ghost predicate QueuedIsCurrent(session: Session) {
    session.pending.Some? && session.pending.value.source in {Local, LocalFallback} ==>
      session.pending.value.intervalMs == LocalInterval(session.config, session.game)
  }

  lemma StepKeepsLocal(session: Session, event: Event)
    requires Inv(session) && QueuedIsCurrent(session)
    ensures QueuedIsCurrent(After(session, event))
    ensures session.config.application == Immediate && LocalIsCurrent(session) ==> LocalIsCurrent(After(session, event))
  {
    hide DropInterval.ValidDropInterval, LocalInterval, AfterAnswer, AfterActing, Cancelled, NewGame, AllDead;
    match event
    case Dispatch(Act(command), now, next) =>
      if !session.closed { ActingKeepsLocal(session, command, now, next); }
    case Dispatch(Restart, now, next) =>
      CancelQuiets(session);
    case Dispatch(_, now, next) =>
      CancelQuiets(session);
      PausingIsNoLevel(session);
    case ProviderAnswers(id, answer) => AnswerKeepsLocal(session, id, answer);
    case _ => CancelQuiets(session);
  }

  lemma PausingIsNoLevel(session: Session)
    ensures forall paused: bool ::
              LocalInterval(session.config, WithPaused(session.game, paused))
                == LocalInterval(session.config, session.game)
  {
  }

  lemma ActingKeepsLocal(session: Session, command: GameCommand, now: real, next: Kind)
    requires Inv(session) && QueuedIsCurrent(session) && !session.closed
    ensures var after := AfterActing(session, command, now, next);
            QueuedIsCurrent(after)
            && (session.config.application == Immediate && LocalIsCurrent(session) ==> LocalIsCurrent(after))
  {
    hide DropInterval.ValidDropInterval, LocalInterval, Step, Cancelled, NoFullRow, Occupied, Collides;
    if now >= session.lastObservedAt {
      var (game, update) := Step(session.game, command, now, next);
      StepKeepsLegal(session.game, command, now, next);
      OnlyLocksClear(session.game, command, now, next);
      if !update.locked { SameLinesSameInterval(session.config, session.game, game); }
      if session.game.CanAct() {
        CancelQuietsPolicy(Reselected(session, game, update).0);
      } else {
        StoppedGameStands(session.game, command, now, next);
        CancelQuietsPolicy(session);
      }
    }
  }

  lemma CancelQuietsPolicy(session: Session)
    ensures var quiet := Cancelled(session);
            && quiet.pending.None? && quiet.selection == session.selection && quiet.config == session.config
            && quiet.game == session.game
  {
  }

  lemma SameLinesSameInterval(config: Config, game: Game, other: Game)
    requires game.lines == other.lines
    ensures LocalInterval(config, game) == LocalInterval(config, other)
  {
  }

  lemma AnswerKeepsLocal(session: Session, id: nat, answer: Answer)
    requires Inv(session) && QueuedIsCurrent(session)
    ensures var after := AfterAnswer(session, id, answer);
            QueuedIsCurrent(after)
            && (session.config.application == Immediate && LocalIsCurrent(session) ==> LocalIsCurrent(after))
  {
    hide DropInterval.ValidDropInterval, LocalInterval;
  }

  /** In every run: unless selections may be queued, a local selection in force has the local interval of the level as
      it is now; one that is queued has it in any case. */
  lemma {:induction false} LocalPolicyFollowsLevel(config: Config, first: Kind, now: real, events: seq<Event>)
    requires config.Valid()
    ensures var after := RunFromStart(config, first, now, events);
            && after.config == config && QueuedIsCurrent(after)
            && (config.application == Immediate ==> LocalIsCurrent(after))
  {
    hide After, Inv, QueuedIsCurrent, LocalIsCurrent, NewSession;
    NewSessionKeeps(config, first, now);
    if events == [] {
      StartIsLocal(config, first, now);
    } else {
      var before := events[..|events| - 1];
      LocalPolicyFollowsLevel(config, first, now, before);
      var session := RunFromStart(config, first, now, before);
      StepKeepsLocal(session, events[|events| - 1]);
      DeadStaysDead(session, events[|events| - 1]);
    }
  }

  lemma StartIsLocal(config: Config, first: Kind, now: real)
    ensures var session := NewSession(config, first, now);
            session.config == config && LocalIsCurrent(session) && QueuedIsCurrent(session)
  {
    hide LocalInterval;
  }

  /** A queued local selection comes into force with the interval of the level before the lock that admits it: it lags
      behind exactly if that lock changes the local interval. */
  lemma QueuedLocalLags(session: Session, command: GameCommand, now: real, next: Kind)
    requires Inv(session) && QueuedIsCurrent(session) && session.pending.Some? && now >= session.lastObservedAt
    requires session.pending.value.source == Local || session.pending.value.source == LocalFallback
    requires var update := Step(session.game, command, now, next).1; update.locked && !update.gameOver
    ensures var after := After(session, Dispatch(Act(command), now, next));
            && after.selection.intervalMs == LocalInterval(session.config, session.game)
            && (LocalIsCurrent(after) <==>
                  || session.config.fallbackIntervalMs.Some?
                  || DropInterval.LocalDropInterval(after.game.Level())
                       == DropInterval.LocalDropInterval(session.game.Level()))
  {
    hide DropInterval.ValidDropInterval, Step, Cancelled, NoFullRow, Occupied, Collides, DropInterval.LocalDropInterval,
         LevelOf, AfterActing;
    QueuedSelectionWaitsForLock(session, command, now, next);
    DeadStaysDead(session, Dispatch(Act(command), now, next));
  }
}
