/** Attribution of play to exposures: how observed time, lines and game overs are cut into reporting windows. */
module Experience {
  import opened Wrappers
  import opened DropInterval

  const WINDOW_DURATION_MS := 5000.0
  const BAND_MINIMUM := 0.15
  const BAND_MAXIMUM := 0.45

  datatype Status = Playing | Paused | GameOver | Closed

  datatype Operation = HardDrop | Restart | Resume | Other

  /** What the tracker reads of a session state. */
  datatype SessionState = SessionState(
    sessionId: string,
    status: Status,
    gameOver: bool,
    boardPressure: real,
    exposureId: Option<string>,
    intervalMs: real,
    pendingExposureId: Option<string>)

  /** A transition, with the lines of its update when the update locked a piece. */
  datatype Transition = Transition(operation: Operation, locked: Option<nat>)

  datatype Registration = Registration(exposureId: string, intervalMs: real)

  datatype ActiveWindow = ActiveWindow(
    registration: Registration,
    startAtMs: real,
    endAtMs: real,
    activePlayMs: real,
    balancedPlayMs: real,
    linesCleared: nat,
    gameOvers: nat)

  datatype ExperienceWindow = ExperienceWindow(
    sequence: nat,
    registration: Registration,
    startAtMs: real,
    endAtMs: real,
    activePlayMs: real,
    challengeBalance: real,
    linesCleared: nat,
    gameOvers: nat,
    episodeComplete: bool)

  datatype Segment = Segment(start: real, end: real, balanced: bool)

  datatype LockEvent = LockEvent(at: real, hardDrop: bool, lines: nat)

  datatype Observed = Observed(state: SessionState, at: real)

  datatype Refusal = OutOfOrder | ForeignSession | UnregisteredExposure | IntervalMismatch

  datatype Totals = Totals(active: real, balanced: real, lines: nat, gameOvers: nat)

  function Sum(one: Totals, two: Totals): Totals {
    Totals(one.active + two.active, one.balanced + two.balanced, one.lines + two.lines, one.gameOvers + two.gameOvers)
  }

  function Nothing(): Totals {
    Totals(0 as real, 0 as real, 0, 0)
  }

  // ---------------------------------------------------------------- the books

  ghost function ReportedBalance(window: ExperienceWindow): real {
    window.challengeBalance * window.activePlayMs
  }

  /** What the windows handed out so far report in total. */
  ghost function Reported(windows: seq<ExperienceWindow>): Totals {
    if windows == [] then Nothing()
    else
      var last := windows[|windows| - 1];
      Sum(Reported(windows[..|windows| - 1]),
          Totals(last.activePlayMs, ReportedBalance(last), last.linesCleared, last.gameOvers))
  }

  function OpenTotals(window: Option<ActiveWindow>): Totals {
    match window
    case None => Nothing()
    case Some(open) => Totals(open.activePlayMs, open.balancedPlayMs, open.linesCleared, open.gameOvers)
  }

  predicate Sane(window: Option<ActiveWindow>) {
    window.Some? ==> 0.0 <= window.value.balancedPlayMs <= window.value.activePlayMs <= WINDOW_DURATION_MS
  }

  /** A window reports no more play than it spans, and no more than it may hold. */
  ghost predicate Sound(window: ExperienceWindow) {
    && 0.0 <= window.activePlayMs <= window.endAtMs - window.startAtMs && window.activePlayMs <= WINDOW_DURATION_MS
    && 0.0 <= window.challengeBalance <= 1.0
  }

  /** Windows are in order and disjoint, and all lie before the given time. */
  ghost predicate Follow(windows: seq<ExperienceWindow>, until: real) {
    && (forall i :: 0 <= i < |windows| ==> Sound(windows[i]) && windows[i].endAtMs <= until)
    && (forall i, j :: 0 <= i < j < |windows| ==> windows[i].endAtMs <= windows[j].startAtMs)
  }

  /** An open window comes last. */
  ghost predicate LinesUp(windows: seq<ExperienceWindow>, window: Option<ActiveWindow>, now: real) {
    && Follow(windows, if window.Some? then window.value.startAtMs else now)
    && (window.Some? ==>
          && window.value.startAtMs + window.value.activePlayMs <= window.value.endAtMs <= now
          && (window.value.activePlayMs == 0.0 ==> window.value.startAtMs == window.value.endAtMs))
  }

  /** Every window reports as much play as it spans. */
  ghost predicate AllExact(windows: seq<ExperienceWindow>, window: Option<ActiveWindow>) {
    && (forall i :: 0 <= i < |windows| ==> windows[i].activePlayMs == windows[i].endAtMs - windows[i].startAtMs)
    && (window.Some? ==> window.value.activePlayMs == window.value.endAtMs - window.value.startAtMs)
  }

  predicate Reaches(window: Option<ActiveWindow>, now: real) {
    window.Some? ==> window.value.endAtMs == now
  }

  /** The windows tile attributed play, up to now if one is open. */
  ghost predicate TilesWith(windows: seq<ExperienceWindow>, window: Option<ActiveWindow>, now: real) {
    LinesUp(windows, window, now) && AllExact(windows, window) && Reaches(window, now)
  }

  /** A window that was left behind: it has room for play, and ends before that play begins. */
  predicate IsStale(window: Option<ActiveWindow>, from: real) {
    window.Some? && window.value.endAtMs < from && window.value.activePlayMs < WINDOW_DURATION_MS
  }

  /** A window, a new one if none is open, that takes on a stretch of play. */
  function Grown(window: Option<ActiveWindow>, registration: Registration, from: real, to: real, balanced: bool)
    : ActiveWindow
  {
    var open := if window.Some? then window.value else ActiveWindow(registration, from, from, 0.0, 0.0, 0, 0);
    open.(activePlayMs := open.activePlayMs + (to - from), endAtMs := to,
          balancedPlayMs := open.balancedPlayMs + (if balanced then to - from else 0.0))
  }

  function Published(window: ActiveWindow, sequence: nat, episodeComplete: bool): ExperienceWindow {
    ExperienceWindow(sequence, window.registration, window.startAtMs, window.endAtMs, window.activePlayMs,
                     Share(window.balancedPlayMs, window.activePlayMs), window.linesCleared, window.gameOvers,
                     episodeComplete)
  }

  /** Publishing a window moves its books from the open side to the reported side and keeps the tiling. */
  lemma PublishingKeepsBooks(windows: seq<ExperienceWindow>, window: ActiveWindow, complete: bool, now: real)
    requires Sane(Some(window))
    ensures var more := windows + [Published(window, |windows| + 1, complete)];
            && Reported(more) == Sum(Reported(windows), OpenTotals(Some(window)))
            && (LinesUp(windows, Some(window), now) ==> LinesUp(more, None, now))
            && (AllExact(windows, Some(window)) <==> AllExact(more, None))
  {
    ShareIsBounded(window.balancedPlayMs, window.activePlayMs);
    var more := windows + [Published(window, |windows| + 1, complete)];
    assert more[..|windows|] == windows;
    assert more[|windows|].activePlayMs == window.activePlayMs;
    assert forall i :: 0 <= i < |windows| ==> more[i] == windows[i];
  }

  /** The window of a session that has stopped is closed, and so is a full one. */
  predicate IsOver(status: Status, window: Option<ActiveWindow>) {
    status != Playing || OpenTotals(window).active == WINDOW_DURATION_MS
  }

  /** What closing a window hands out: nothing if it is empty and the episode goes on. */
  ghost function Closing(windows: seq<ExperienceWindow>, window: Option<ActiveWindow>, complete: bool)
    : seq<ExperienceWindow>
  {
    if window.Some? && (complete || OpenTotals(window) != OpenTotals(None))
    then windows + [Published(window.value, |windows| + 1, complete)] else windows
  }

  lemma NothingCloses(windows: seq<ExperienceWindow>)
    ensures Closing(windows, None, false) == windows
  {
  }

  predicate InBand(pressure: real) {
    BAND_MINIMUM <= pressure <= BAND_MAXIMUM
  }

  // ---------------------------------------------------------------- recent play

  /** How much of a segment lies after a time. */
  function After(segment: Segment, since: real): real {
    if segment.end <= since then 0.0 else segment.end - Max(since, segment.start)
  }

  function PlayedAfter(segments: seq<Segment>, since: real, onlyBalanced: bool): real {
    if segments == [] then 0.0
    else
      var last := segments[|segments| - 1];
      PlayedAfter(segments[..|segments| - 1], since, onlyBalanced)
        + (if onlyBalanced && !last.balanced then 0.0 else After(last, since))
  }

  function EndingAfter(segments: seq<Segment>, since: real): seq<Segment> {
    if segments == [] then []
    else
      var earlier := EndingAfter(segments[..|segments| - 1], since);
      var last := segments[|segments| - 1];
      if last.end > since then earlier + [last] else earlier
  }

  /** What segments that ended before a time take away from a sum that does not leave them out. */
  function Overrun(segments: seq<Segment>, since: real, onlyBalanced: bool): real {
    if segments == [] then 0.0
    else
      var last := segments[|segments| - 1];
      Overrun(segments[..|segments| - 1], since, onlyBalanced)
        + (if (onlyBalanced && !last.balanced) || last.end > since then 0.0 else Max(since, last.start) - last.end)
  }

  lemma {:induction false} OverrunIsNothingExactlyIf(segments: seq<Segment>, since: real)
    ensures 0.0 <= Overrun(segments, since, true) <= Overrun(segments, since, false)
    ensures Overrun(segments, since, false) == 0.0 <==>
            forall segment <- segments :: segment.end > since || segment.end == Max(since, segment.start)
  {
    if segments != [] {
      var init := segments[..|segments| - 1];
      OverrunIsNothingExactlyIf(init, since);
      assert segments == init + [segments[|segments| - 1]];
    }
  }

  /** Segments follow one another and end no later than now. */
  ghost predicate Consecutive(segments: seq<Segment>, now: real) {
    && (forall i :: 0 <= i < |segments| ==> segments[i].start < segments[i].end <= now)
    && (forall i, j :: 0 <= i < j < |segments| ==> segments[i].end <= segments[j].start)
  }

  lemma {:induction false} ForgottenPlayIsOver(segments: seq<Segment>, earlier: real, since: real, onlyBalanced: bool)
    requires earlier <= since
    ensures PlayedAfter(EndingAfter(segments, earlier), since, onlyBalanced)
              == PlayedAfter(segments, since, onlyBalanced)
    ensures EndingAfter(EndingAfter(segments, earlier), since) == EndingAfter(segments, since)
  {
    if segments != [] {
      var init := segments[..|segments| - 1];
      ForgottenPlayIsOver(init, earlier, since, onlyBalanced);
      var kept := EndingAfter(init, earlier);
      var last := segments[|segments| - 1];
      if last.end > earlier { assert (kept + [last])[..|kept|] == kept; }
    }
  }

  /** Disjoint segments cannot hold more play than the window is long, nor more balanced play than play. */
  lemma {:induction false} PlayFitsWindow(segments: seq<Segment>, since: real, now: real)
    requires Consecutive(segments, now) && since <= now
    ensures 0.0 <= PlayedAfter(segments, since, true) <= PlayedAfter(segments, since, false) <= now - since
  {
    if segments != [] {
      var last := segments[|segments| - 1];
      var init := segments[..|segments| - 1];
      if last.start < since {
        PlayFitsWindow(init, since, since);
        assert forall i :: 0 <= i < |init| ==> init[i].end <= since;
        NothingPlayed(init, since);
      } else {
        PlayFitsWindow(init, since, last.start);
      }
    }
  }

  lemma {:induction false} NothingPlayed(segments: seq<Segment>, since: real)
    requires forall i :: 0 <= i < |segments| ==> segments[i].end <= since
    ensures PlayedAfter(segments, since, false) == PlayedAfter(segments, since, true) == 0.0
  {
    if segments != [] { NothingPlayed(segments[..|segments| - 1], since); }
  }

  // ---------------------------------------------------------------- the tracker

  class TetrisExperience {
    var latest: Option<Observed>
    var registrations: map<string, Registration>
    var applied: Option<Registration>
    var window: Option<ActiveWindow>
    var segments: seq<Segment>
    var locks: seq<LockEvent>
    var gameOvers: seq<real>
    var windowSequence: nat
    var completed: bool
    var totals: Totals
    /** The windows handed to the callback, in order. */
    var emitted: seq<ExperienceWindow>
    /** What accrued while no exposure was applied; and all play, locks and lost games since the evidence was last
        cleared. */
    ghost var unattributed: Totals
    ghost var played: seq<Segment>
    ghost var allLocks: seq<LockEvent>
    ghost var allOvers: seq<real>
    ghost var forgottenAt: real

    ghost function Attributed(): Totals
      reads this`emitted, this`window
    {
      Sum(Reported(emitted), OpenTotals(window))
    }

    ghost predicate Kept()
      reads this`window, this`windowSequence, this`emitted, this`applied
    {
      && Sane(window)
      && windowSequence == |emitted|
      && (forall i :: 0 <= i < |emitted| ==> emitted[i].sequence == i + 1)
      && (window.Some? ==> applied.Some? && window.value.registration == applied.value)
    }

    /** Everything accrued is in a reported window, in the open window, or was never attributed. */
    ghost predicate Booked()
      reads this`window, this`windowSequence, this`emitted, this`applied, this`totals, this`unattributed
    {
      Kept() && Sum(Attributed(), unattributed) == totals
    }

    /** The reported windows tile attributed play; an open window belongs to a session that is being played. */
    ghost predicate Tiled()
      reads this`latest, this`emitted, this`window
    {
      if latest.None? then window.None? && emitted == []
      else
        && TilesWith(emitted, window, latest.value.at)
        && (window.Some? ==> latest.value.state.status == Playing)
    }

    /** In every run, whatever was refused: the windows are in order and disjoint, and none reports more play than it
        spans. */
    ghost predicate Lined()
      reads this`latest, this`emitted, this`window
    {
      if latest.None? then window.None? && emitted == [] else LinesUp(emitted, window, latest.value.at)
    }

    /** The kept evidence is all of it since it was last cleared, less what is older than some moment that is at least a
        window ago. */
    ghost predicate Recallable()
      reads this`latest, this`segments, this`played, this`locks,
            this`allLocks, this`gameOvers, this`allOvers, this`forgottenAt
    {
      if latest.None? then segments == played == [] && locks == allLocks == [] && gameOvers == allOvers == []
      else
        && Consecutive(played, latest.value.at)
        && forgottenAt <= latest.value.at - WINDOW_DURATION_MS
        && segments == EndingAfter(played, forgottenAt)
        && locks == LocksSince(allLocks, forgottenAt)
        && gameOvers == TimesSince(allOvers, forgottenAt)
    }

    /** Nothing older than a window is kept, as after every observation that succeeds. */
    ghost predicate Pruned()
      reads this`latest, this`segments, this`played, this`locks, this`allLocks, this`gameOvers, this`allOvers
    {
      latest.Some? ==>
        && segments == EndingAfter(played, latest.value.at - WINDOW_DURATION_MS)
        && locks == LocksSince(allLocks, latest.value.at - WINDOW_DURATION_MS)
        && gameOvers == TimesSince(allOvers, latest.value.at - WINDOW_DURATION_MS)
    }

    ghost predicate IsNew()
      reads this
    {
      && totals == Nothing() && unattributed == Nothing()
      && window.None? && emitted == [] && windowSequence == 0
      && latest.None? && applied.None? && registrations == map[]
      && segments == played == [] && locks == allLocks == [] && gameOvers == allOvers == []
    }

    constructor ()
      ensures IsNew()
    {
      latest, applied, window := None, None, None;
      registrations, segments, locks, gameOvers, emitted := map[], [], [], [], [];
      played, allLocks, allOvers := [], [], [];
      windowSequence, completed, totals, unattributed := 0, false, Nothing(), Nothing();
    }

    lemma NewIsBooked()
      requires IsNew()
      ensures Booked() && Lined() && Tiled() && Recallable() && AllExact(emitted, window)
    {
      hide Sum, Nothing, Reported;
      NothingBooked();
    }

    method EnsureWindow(at: real)
      requires Kept()
      modifies this`window
      ensures Kept() && Attributed() == old(Attributed())
      ensures old(LinesUp(emitted, window, at)) ==> LinesUp(emitted, window, at)
      ensures AllExact(emitted, window) <==> old(AllExact(emitted, window))
      ensures old(Reaches(window, at)) ==> Reaches(window, at)
      ensures old(window).Some? || applied.None? ==> window == old(window)
      ensures old(window).None? && applied.Some? ==>
                window == Some(ActiveWindow(applied.value, at, at, 0.0, 0.0, 0, 0))
    {
      hide Reported;
      if window.Some? || applied.None? {
        return;
      }
      window := Some(ActiveWindow(applied.value, at, at, 0.0, 0.0, 0, 0));
      AddingNothing(Reported(emitted));
    }

    method FinishWindow(episodeComplete: bool)
      requires Kept()
      modifies this`window, this`emitted, this`windowSequence
      ensures Kept() && Attributed() == old(Attributed()) && window.None?
      ensures emitted == Closing(old(emitted), old(window), episodeComplete) && old(emitted) <= emitted
      ensures forall now :: old(LinesUp(emitted, window, now)) ==>
                LinesUp(emitted, None, now) && (AllExact(emitted, None) <==> old(AllExact(emitted, window)))
    {
      hide Reported, Follow;
      var closing := window;
      window := None;
      AddingNothing(Reported(emitted));
      if closing.None? {
        return;
      }
      if closing.value.activePlayMs == 0.0 && closing.value.linesCleared == 0 && closing.value.gameOvers == 0
         && !episodeComplete {
        DroppingKeepsLine(emitted, closing.value);
        return;
      }
      PublishingKeepsBooks(emitted, closing.value, episodeComplete, 0.0);
      forall now {
        PublishingKeepsBooks(emitted, closing.value, episodeComplete, now);
      }
      windowSequence := windowSequence + 1;
      emitted := emitted + [Published(closing.value, windowSequence, episodeComplete)];
      AddingNothing(Reported(emitted));
    }

    /** Spreads a stretch of play over as many windows as it takes. */
    method Accumulate(startAt: real, duration: real, balanced: bool)
      requires Kept() && duration > 0.0
      modifies this`window, this`emitted, this`windowSequence
      ensures Kept()
      ensures Attributed() == if applied.None? then old(Attributed())
              else Sum(old(Attributed()), Stretch(duration, balanced))
      ensures applied.Some? && old(LinesUp(emitted, window, startAt)) ==>
                && LinesUp(emitted, window, startAt + duration)
                && (AllExact(emitted, window) <==> old(AllExact(emitted, window)) && !IsStale(old(window), startAt))
      ensures applied.Some? && OpenTotals(old(window)).active + duration <= WINDOW_DURATION_MS ==>
                && emitted == old(emitted)
                && window == Some(Grown(old(window), applied.value, startAt, startAt + duration, balanced))
      ensures applied.Some? ==> window.Some? && Reaches(window, startAt + duration)
      ensures applied.None? ==> window == old(window) && emitted == old(emitted)
      ensures old(emitted) <= emitted
    {
      hide Reported, LinesUp, AllExact, Sum, Share, Published, Closing;
      AddingNothing(Attributed());
      var remaining := duration;
      var cursor := startAt;
      while remaining > 0.0 && applied.Some?
        invariant Kept() && 0.0 <= remaining <= duration && cursor + remaining == startAt + duration
        invariant Attributed() == Sum(old(Attributed()), Stretch(duration - remaining, balanced))
        invariant old(LinesUp(emitted, window, startAt)) ==>
                    && LinesUp(emitted, window, cursor)
                    && (AllExact(emitted, window) <==>
                          old(AllExact(emitted, window)) && (remaining < duration ==> !IsStale(old(window), startAt)))
        invariant remaining == duration ==>
                    || (window == old(window) && emitted == old(emitted))
                    || (OpenTotals(old(window)).active == WINDOW_DURATION_MS && window.None?)
        invariant remaining < duration ==> Reaches(window, cursor)
        invariant applied.Some? && remaining < duration
                  && OpenTotals(old(window)).active + duration <= WINDOW_DURATION_MS ==>
                    && remaining == 0.0 && emitted == old(emitted)
                    && window == Some(Grown(old(window), applied.value, startAt, startAt + duration, balanced))
        invariant applied.None? ==> remaining == duration && window == old(window) && emitted == old(emitted)
        invariant remaining == 0.0 && applied.Some? ==> window.Some?
        invariant old(emitted) <= emitted
        decreases ((remaining + OpenTotals(window).active) / WINDOW_DURATION_MS).Floor,
                  OpenTotals(window).active < WINDOW_DURATION_MS, remaining > 0.0
      {
        EnsureWindow(cursor);
        var open := window.value;
        if open.activePlayMs == WINDOW_DURATION_MS {
          FinishWindow(false);
          continue;
        }
        var slice := TakeSlice(cursor, remaining, balanced);
        StretchesAdd(old(Attributed()), duration - remaining, slice, balanced);
        cursor := cursor + slice;
        remaining := remaining - slice;
      }
    }

    /** The open window takes on as much of the play as it has room for. */
    method TakeSlice(cursor: real, remaining: real, balanced: bool) returns (slice: real)
      requires Kept() && window.Some? && window.value.activePlayMs < WINDOW_DURATION_MS && remaining > 0.0
      modifies this`window
      ensures Kept() && Attributed() == Sum(old(Attributed()), Stretch(slice, balanced))
      ensures 0.0 < slice <= remaining
      ensures window == Some(Grown(old(window), applied.value, cursor, cursor + slice, balanced))
      ensures slice == remaining || window.value.activePlayMs == WINDOW_DURATION_MS
      ensures old(LinesUp(emitted, window, cursor)) ==>
                && LinesUp(emitted, window, cursor + slice) && old(window).value.endAtMs <= cursor
                && (AllExact(emitted, window) <==>
                      old(AllExact(emitted, window)) && old(window).value.endAtMs == cursor)
    {
      hide Reported, LinesUp, AllExact, Sum;
      var open := window.value;
      slice := if remaining < WINDOW_DURATION_MS - open.activePlayMs then remaining
               else WINDOW_DURATION_MS - open.activePlayMs;
      SliceIsBooked(emitted, open, cursor, slice, balanced);
      window := Some(open.(activePlayMs := open.activePlayMs + slice, endAtMs := cursor + slice,
                           balancedPlayMs := open.balancedPlayMs + (if balanced then slice else 0.0)));
    }

    /** Whether the play since the previous observation goes into a window that was left behind before it. */
    predicate BooksIntoStale(at: real)
      reads this`latest, this`applied, this`window
    {
      PlayedSince(latest, at) && applied.Some? && IsStale(window, latest.value.at)
    }

    /** Whether there is room for that play in the window that is open, or would be. */
    predicate PlayFits(at: real)
      reads this`latest, this`applied, this`window
    {
      PlayedSince(latest, at) && applied.Some? ==>
        OpenTotals(window).active + (at - latest.value.at) <= WINDOW_DURATION_MS
    }

    function AfterPlay(at: real): Option<ActiveWindow>
      reads this`latest, this`applied, this`window
    {
      if PlayedSince(latest, at) && applied.Some?
      then Some(Grown(window, applied.value, latest.value.at, at, InBand(latest.value.state.boardPressure)))
      else window
    }

    /** The first half of an observation: time since the previous one goes to the exposure that was applied. */
    method Elapse(previous: Option<Observed>, state: SessionState, at: real)
      requires Booked() && Recallable()
      requires previous == latest && (previous.Some? ==> previous.value.at <= at)
      modifies this`latest, this`segments, this`played, this`forgottenAt, this`totals, this`unattributed,
               this`window, this`emitted, this`windowSequence
      ensures Booked() && Recallable() && latest == Some(Observed(state, at))
      ensures totals == Sum(old(totals), Played(previous, at))
      ensures unattributed == if applied.Some? then old(unattributed) else Sum(old(unattributed), Played(previous, at))
      ensures played == old(played) + SegmentsOf(previous, at)
      ensures segments == old(segments) + SegmentsOf(previous, at)
      ensures window.Some? <==> old(window).Some? || (applied.Some? && PlayedSince(previous, at))
      ensures old(Lined()) ==>
                && LinesUp(emitted, window, at)
                && (AllExact(emitted, window) <==> old(AllExact(emitted, window)) && !old(BooksIntoStale(at)))
      ensures PlayedSince(previous, at) || old(Tiled()) ==> Reaches(window, at)
      ensures old(PlayFits(at)) ==> emitted == old(emitted) && window == old(AfterPlay(at))
      ensures old(emitted) <= emitted
    {
      hide Sum, Booked, LinesUp, AllExact, EndingAfter, Consecutive, LocksSince, TimesSince, InBand;
      hide Nothing;
      latest := Some(Observed(state, at));
      NothingEnds(at - WINDOW_DURATION_MS);
      if previous.None? {
        forgottenAt := at - WINDOW_DURATION_MS;
        NothingTiles(at);
      } else {
        TilesLater(emitted, previous.value.at, at);
      }
      PlayedLater(played, previous, at);
      NothingSince(forgottenAt);
      AddingNothing(totals);
      AddingNothing(unattributed);
      OnlyAppliedIsOpen();
      if previous.Some? && previous.value.state.status == Playing && at > previous.value.at {
        BookPlay(previous.value.at, at, InBand(previous.value.state.boardPressure));
      }
    }

    lemma OnlyAppliedIsOpen()
      requires Booked()
      ensures window.Some? ==> applied.Some?
    {
    }

    /** A stretch of play becomes evidence, and goes to the applied exposure if there is one. */
    method BookPlay(from: real, at: real, balanced: bool)
      requires Booked() && from < at && forgottenAt < at
      requires Consecutive(played, from) && segments == EndingAfter(played, forgottenAt)
      modifies this`segments, this`played, this`totals, this`unattributed, this`window, this`emitted,
               this`windowSequence
      ensures Booked() && Consecutive(played, at) && segments == EndingAfter(played, forgottenAt)
      ensures segments == old(segments) + [Segment(from, at, balanced)]
      ensures played == old(played) + [Segment(from, at, balanced)]
      ensures totals == Sum(old(totals), Stretch(at - from, balanced))
      ensures unattributed == if applied.Some? then old(unattributed)
                              else Sum(old(unattributed), Stretch(at - from, balanced))
      ensures window.Some? <==> applied.Some?
      ensures old(LinesUp(emitted, window, from)) ==>
                && LinesUp(emitted, window, at)
                && (AllExact(emitted, window) <==>
                      old(AllExact(emitted, window)) && !(applied.Some? && IsStale(old(window), from)))
      ensures Reaches(window, at)
      ensures applied.Some? && OpenTotals(old(window)).active + (at - from) <= WINDOW_DURATION_MS ==>
                emitted == old(emitted) && window == Some(Grown(old(window), applied.value, from, at, balanced))
      ensures applied.None? ==> emitted == old(emitted) && window == old(window)
      ensures old(emitted) <= emitted
    {
      hide Reported, Sum, LinesUp, AllExact, OpenTotals, Sane, Grown, EndingAfter, Consecutive, Share;
      var segment, duration := Segment(from, at, balanced), at - from;
      RecallsMore(played, segment, forgottenAt);
      segments := segments + [segment];
      played := played + [segment];
      SumSwaps(Attributed(), unattributed, Stretch(duration, balanced));
      totals := Sum(totals, Stretch(duration, balanced));
      if applied.None? {
        unattributed := Sum(unattributed, Stretch(duration, balanced));
        TilesLater(emitted, from, at);
      }
      Accumulate(from, duration, balanced);
    }

    /** The second half: a locking command and a lost game belong to the exposure that was applied before. */
    method CountEvents(previous: Option<Observed>, state: SessionState, at: real, transition: Option<Transition>)
      requires Booked()
      modifies this`locks, this`gameOvers, this`allLocks, this`allOvers, this`totals, this`unattributed, this`window
      ensures Booked()
      ensures locks == old(locks) + LocksOf(at, transition) && allLocks == old(allLocks) + LocksOf(at, transition)
      ensures gameOvers == old(gameOvers) + OversOf(previous, state, at)
      ensures allOvers == old(allOvers) + OversOf(previous, state, at)
      ensures window.Some? <==> old(window).Some?
                                || (applied.Some? && (LocksOf(at, transition) != [] || EndsGame(previous, state)))
      ensures totals == Sum(old(totals), Events(previous, state, transition))
      ensures unattributed == if applied.Some? then old(unattributed)
                              else Sum(old(unattributed), Events(previous, state, transition))
      ensures old(LinesUp(emitted, window, at)) ==> LinesUp(emitted, window, at)
      ensures AllExact(emitted, window) <==> old(AllExact(emitted, window))
      ensures old(Reaches(window, at)) ==> Reaches(window, at)
      ensures LocksOf(at, transition) == [] && !EndsGame(previous, state) ==> window == old(window)
    {
      hide Reported, LinesUp, AllExact, Reaches, Sum;
      EventsAdd(totals, previous, state, transition);
      EventsAdd(unattributed, previous, state, transition);
      if transition.Some? && transition.value.locked.Some? {
        var lines := transition.value.locked.value;
        locks := locks + LocksOf(at, transition);
        allLocks := allLocks + LocksOf(at, transition);
        Credit(at, lines, 0);
      }
      if EndsGame(previous, state) {
        gameOvers := gameOvers + [at];
        allOvers := allOvers + [at];
        Credit(at, 0, 1);
      }
    }

    method Credit(at: real, lines: nat, overs: nat)
      requires Booked()
      modifies this`totals, this`unattributed, this`window
      ensures Booked()
      ensures window.Some? <==> applied.Some?
      ensures totals == Sum(old(totals), Counted(lines, overs))
      ensures unattributed == if applied.Some? then old(unattributed) else Sum(old(unattributed), Counted(lines, overs))
      ensures old(LinesUp(emitted, window, at)) ==> LinesUp(emitted, window, at)
      ensures AllExact(emitted, window) <==> old(AllExact(emitted, window))
      ensures old(Reaches(window, at)) ==> Reaches(window, at)
    {
      hide Reported, Follow;
      totals := totals.(lines := totals.lines + lines, gameOvers := totals.gameOvers + overs);
      EnsureWindow(at);
      if window.Some? {
        window := Some(window.value.(linesCleared := window.value.linesCleared + lines,
                                     gameOvers := window.value.gameOvers + overs));
      } else {
        unattributed := unattributed.(lines := unattributed.lines + lines, gameOvers := unattributed.gameOvers + overs);
      }
    }

    /** Whether a window is open once an observation has booked what accrued before it. */
    predicate OpensWindow(state: SessionState, at: real, transition: Option<Transition>)
      reads this`window, this`applied, this`latest
    {
      || window.Some?
      || (applied.Some?
          && (PlayedSince(latest, at) || LocksOf(at, transition) != [] || EndsGame(latest, state)))
    }

    /** Whether an observation has no event of its own, so that only the play before it bears on the windows. */
    predicate IsQuiet(state: SessionState, at: real, transition: Option<Transition>)
      reads this`latest
    {
      LocksOf(at, transition) == [] && !EndsGame(latest, state)
    }

    /** One observation. The books balance, and the windows stay in order, disjoint and sound, whatever happens. A
        window becomes inexact exactly when play is booked into one that was left behind: a mismatched interval is
        reported before the window of a session that has stopped could be closed, so exactly then such a window stays
        open, unless the exposure has changed, which closes it. */
    method Observe(state: SessionState, at: real, transition: Option<Transition>) returns (failure: Option<Refusal>)
      requires Booked() && Recallable()
      modifies this
      ensures Booked() && Recallable()
      ensures old(Lined()) ==> Lined()
      ensures old(Lined()) ==>
                (AllExact(emitted, window) <==>
                   && old(AllExact(emitted, window))
                   && !(failure != Some(OutOfOrder) && failure != Some(ForeignSession) && old(BooksIntoStale(at))))
      ensures old(Tiled()) && latest.Some? ==> TilesWith(emitted, window, latest.value.at)
      ensures old(Tiled()) && failure != Some(IntervalMismatch) ==> Tiled()
      ensures && old(PlayFits(at) && IsQuiet(state, at, transition))
              && failure != Some(OutOfOrder) && failure != Some(ForeignSession) ==>
                if state.exposureId != IdOf(old(applied)) || (failure.None? && IsOver(state.status, old(AfterPlay(at))))
                then window.None? && emitted == Closing(old(emitted), old(AfterPlay(at)), false)
                else window == old(AfterPlay(at)) && emitted == old(emitted)
      ensures old(Tiled()) && failure == Some(IntervalMismatch) ==>
                (Tiled() <==> || state.status == Playing
                              || state.exposureId != IdOf(old(applied))
                              || !old(OpensWindow(state, at, transition)))
      ensures failure == Some(OutOfOrder) <==> old(latest).Some? && at < old(latest).value.at
      ensures failure == Some(ForeignSession) <==>
                old(latest).Some? && at >= old(latest).value.at && state.sessionId != old(latest).value.state.sessionId
      ensures failure == Some(OutOfOrder) || failure == Some(ForeignSession) ==> unchanged(this)
      ensures failure != Some(OutOfOrder) && failure != Some(ForeignSession) ==>
                && latest == Some(Observed(state, at))
                && totals == Sum(old(totals), Accrued(old(latest), state, at, transition))
                && unattributed == (if old(applied).Some? then old(unattributed)
                                    else Sum(old(unattributed), Accrued(old(latest), state, at, transition)))
                && applied == AppliedAfter(old(applied), old(registrations), state.exposureId)
                && old(emitted) <= emitted
                && (failure == Some(UnregisteredExposure) <==>
                      state.exposureId.Some? && applied.None?)
                && (failure == Some(IntervalMismatch) <==>
                      applied.Some? && applied.value.intervalMs != state.intervalMs)
      ensures failure == Some(UnregisteredExposure) || failure == Some(IntervalMismatch) ==>
                && segments == old(segments) + SegmentsOf(old(latest), at)
                   && played == old(played) + SegmentsOf(old(latest), at)
                && locks == old(locks) + LocksOf(at, transition) && allLocks == old(allLocks) + LocksOf(at, transition)
                && gameOvers == old(gameOvers) + OversOf(old(latest), state, at)
                && allOvers == old(allOvers) + OversOf(old(latest), state, at)
                && registrations == old(registrations)
      ensures failure.None? ==>
                && Pruned()
                && played == (if ClearsEvidence(transition) then [] else old(played) + SegmentsOf(old(latest), at))
                && allLocks == (if ClearsEvidence(transition) then [] else old(allLocks) + LocksOf(at, transition))
                && allOvers == (if ClearsEvidence(transition) then []
                                else old(allOvers) + OversOf(old(latest), state, at))
                && (window.Some? ==> state.status == Playing && window.value.activePlayMs < WINDOW_DURATION_MS)
                && (forall id :: id in registrations <==>
                      id in old(registrations) && (Some(id) == state.exposureId || Some(id) == state.pendingExposureId))
                && (forall id <- registrations :: registrations[id] == old(registrations)[id])
    {
      hide Booked, Recallable, Pruned, LinesUp, AllExact, Sum, Accrued, OpensWindow, PlayedSince, PlayFits, AfterPlay,
           BooksIntoStale, Closing, IsOver;
      TiledIsLined();
      if latest.Some? && at < latest.value.at {
        return Some(OutOfOrder);
      }
      if latest.Some? && state.sessionId != latest.value.state.sessionId {
        return Some(ForeignSession);
      }
      Accrue(state, at, transition);
      failure := Conclude(state, at, transition);
    }

    lemma TiledIsLined()
      ensures Tiled() ==> Lined()
      ensures Tiled() ==> AllExact(emitted, window) && !exists at: real :: BooksIntoStale(at)
    {
      hide Follow;
    }

    /** Everything accrued since the previous observation is booked under the exposure that was applied then. */
    method Accrue(state: SessionState, at: real, transition: Option<Transition>)
      requires Booked() && Recallable() && (latest.Some? ==> latest.value.at <= at)
      modifies this`latest, this`segments, this`played, this`forgottenAt, this`locks, this`gameOvers, this`allLocks,
               this`allOvers, this`totals, this`unattributed, this`window, this`emitted, this`windowSequence
      ensures Booked() && Recallable() && latest == Some(Observed(state, at))
      ensures totals == Sum(old(totals), Accrued(old(latest), state, at, transition))
      ensures unattributed == if applied.Some? then old(unattributed)
                              else Sum(old(unattributed), Accrued(old(latest), state, at, transition))
      ensures segments == old(segments) + SegmentsOf(old(latest), at)
              && played == old(played) + SegmentsOf(old(latest), at)
      ensures locks == old(locks) + LocksOf(at, transition) && allLocks == old(allLocks) + LocksOf(at, transition)
      ensures gameOvers == old(gameOvers) + OversOf(old(latest), state, at)
      ensures allOvers == old(allOvers) + OversOf(old(latest), state, at)
      ensures window.Some? <==> old(OpensWindow(state, at, transition))
      ensures old(Lined()) ==>
                && LinesUp(emitted, window, at)
                && (AllExact(emitted, window) <==> old(AllExact(emitted, window)) && !old(BooksIntoStale(at)))
      ensures old(Tiled()) ==> Reaches(window, at)
      ensures old(PlayFits(at)) ==> emitted == old(emitted)
      ensures old(PlayFits(at)) && LocksOf(at, transition) == [] && !EndsGame(old(latest), state) ==>
                window == old(AfterPlay(at))
      ensures old(emitted) <= emitted
    {
      hide Reported, LinesUp, AllExact, Reaches, Sum, EndingAfter, Consecutive, LocksSince, TimesSince, OpenTotals,
           Sane;
      var previous := latest;
      SumSwaps(totals, Played(previous, at), Events(previous, state, transition));
      SumSwaps(unattributed, Played(previous, at), Events(previous, state, transition));
      Elapse(previous, state, at);
      EventsAreRecent(allLocks, allOvers, previous, state, at, transition, forgottenAt);
      CountEvents(previous, state, at, transition);
    }

    /** The rest of an observation, once everything accrued is booked under the old exposure. */
    method Conclude(state: SessionState, at: real, transition: Option<Transition>) returns (failure: Option<Refusal>)
      requires Booked() && Recallable() && latest == Some(Observed(state, at))
      modifies this`applied, this`window, this`emitted, this`windowSequence, this`segments, this`played,
               this`forgottenAt, this`locks, this`allLocks, this`gameOvers, this`allOvers, this`completed,
               this`registrations
      ensures Booked() && Recallable()
      ensures old(LinesUp(emitted, window, at)) ==>
                LinesUp(emitted, window, at) && (AllExact(emitted, window) <==> old(AllExact(emitted, window)))
      ensures old(Reaches(window, at)) ==> Reaches(window, at)
      ensures if state.exposureId != IdOf(old(applied)) || (failure.None? && IsOver(state.status, old(window)))
              then window.None? && emitted == Closing(old(emitted), old(window), false)
              else window == old(window) && emitted == old(emitted)
      ensures old(TilesWith(emitted, window, at)) && failure != Some(IntervalMismatch) ==> Tiled()
      ensures old(TilesWith(emitted, window, at)) && failure == Some(IntervalMismatch) ==>
                (Tiled() <==> state.status == Playing || state.exposureId != IdOf(old(applied)) || old(window).None?)
      ensures old(emitted) <= emitted
      ensures applied == AppliedAfter(old(applied), old(registrations), state.exposureId)
      ensures failure == Some(UnregisteredExposure) <==> state.exposureId.Some? && applied.None?
      ensures failure == Some(IntervalMismatch) <==> applied.Some? && applied.value.intervalMs != state.intervalMs
      ensures failure in {None, Some(UnregisteredExposure), Some(IntervalMismatch)}
      ensures failure.Some? ==> unchanged(`segments, `played, `locks, `allLocks, `gameOvers, `allOvers, `registrations)
      ensures failure.None? ==>
                && Pruned()
                && played == (if ClearsEvidence(transition) then [] else old(played))
                && allLocks == (if ClearsEvidence(transition) then [] else old(allLocks))
                && allOvers == (if ClearsEvidence(transition) then [] else old(allOvers))
                && (window.Some? ==> state.status == Playing && window.value.activePlayMs < WINDOW_DURATION_MS)
                && (forall id :: id in registrations <==>
                      id in old(registrations) && (Some(id) == state.exposureId || Some(id) == state.pendingExposureId))
                && (forall id <- registrations :: registrations[id] == old(registrations)[id])
    {
      hide Booked, Recallable, Pruned, LinesUp, AllExact, ClearsEvidence, Closing;
      Switch(state.exposureId);
      if state.exposureId.Some? && applied.None? {
        return Some(UnregisteredExposure);
      }
      if applied.Some? && applied.value.intervalMs != state.intervalMs {
        return Some(IntervalMismatch);
      }
      NothingCloses(emitted);
      CloseFinished(state.status);
      Forget(state, at, transition);
      failure := None;
    }

    /** A session that has stopped, and a window that is full, are closed. */
    method CloseFinished(status: Status)
      requires Booked()
      modifies this`window, this`emitted, this`windowSequence
      ensures Booked() && old(emitted) <= emitted
      ensures window.Some? ==> status == Playing && window.value.activePlayMs < WINDOW_DURATION_MS
      ensures forall now :: old(LinesUp(emitted, window, now)) ==>
                LinesUp(emitted, window, now) && (AllExact(emitted, window) <==> old(AllExact(emitted, window)))
      ensures if IsOver(status, old(window))
              then window.None? && emitted == Closing(old(emitted), old(window), false)
              else window == old(window) && emitted == old(emitted)
    {
      hide Reported, LinesUp, AllExact, Sum, Closing;
      if status != Playing {
        FinishWindow(false);
      } else if window.Some? && window.value.activePlayMs == WINDOW_DURATION_MS {
        FinishWindow(false);
      }
    }

    /** A new exposure closes the window of the old one. */
    method Switch(exposureId: Option<string>)
      requires Booked()
      modifies this`applied, this`window, this`emitted, this`windowSequence
      ensures Booked() && applied == AppliedAfter(old(applied), registrations, exposureId)
      ensures old(emitted) <= emitted
      ensures exposureId != IdOf(old(applied)) ==>
                window.None? && emitted == Closing(old(emitted), old(window), false)
      ensures exposureId == IdOf(old(applied)) ==> window == old(window) && emitted == old(emitted)
      ensures forall now :: old(LinesUp(emitted, window, now)) ==>
                LinesUp(emitted, window, now) && (AllExact(emitted, window) <==> old(AllExact(emitted, window)))
    {
      hide Reported, LinesUp, AllExact, Sum, Sane, Closing;
      if exposureId != IdOf(applied) {
        FinishWindow(false);
        applied := if exposureId.Some? && exposureId.value in registrations
                   then Some(registrations[exposureId.value]) else None;
      }
    }

    /** Clears the evidence of an earlier run and drops what no longer bears on the last five seconds. */
    method Forget(state: SessionState, at: real, transition: Option<Transition>)
      requires Recallable() && latest == Some(Observed(state, at))
      modifies this`segments, this`played, this`forgottenAt, this`locks, this`allLocks, this`gameOvers, this`allOvers,
               this`completed, this`registrations
      ensures Recallable() && Pruned()
      ensures played == if ClearsEvidence(transition) then [] else old(played)
      ensures allLocks == if ClearsEvidence(transition) then [] else old(allLocks)
      ensures allOvers == if ClearsEvidence(transition) then [] else old(allOvers)
      ensures forall id :: id in registrations <==>
                id in old(registrations) && (Some(id) == state.exposureId || Some(id) == state.pendingExposureId)
      ensures forall id <- registrations :: registrations[id] == old(registrations)[id]
    {
      hide Recallable, Pruned;
      if ClearsEvidence(transition) {
        ClearEvidence();
        completed := false;
      }
      PruneEvidence(at - WINDOW_DURATION_MS);
      ForgetDecisions(state);
    }

    method ClearEvidence()
      requires Recallable()
      modifies this`segments, this`played, this`locks, this`allLocks, this`gameOvers, this`allOvers
      ensures Recallable() && played == [] && allLocks == [] && allOvers == []
    {
      hide LocksSince, TimesSince, EndingAfter, Consecutive;
      segments, locks, gameOvers := [], [], [];
      played, allLocks, allOvers := [], [], [];
      NothingEnds(forgottenAt);
      NothingSince(forgottenAt);
      if latest.Some? { NothingConsecutive(latest.value.at); }
    }

    method PruneEvidence(cutoff: real)
      requires Recallable() && latest.Some? && cutoff == latest.value.at - WINDOW_DURATION_MS
      modifies this`segments, this`forgottenAt, this`locks, this`gameOvers
      ensures Recallable() && Pruned()
    {
      hide LocksSince, TimesSince, EndingAfter, Consecutive;
      ForgottenPlayIsOver(played, forgottenAt, cutoff, false);
      ForgottenLocksAreOver(allLocks, forgottenAt, cutoff);
      ForgottenTimesAreOver(allOvers, forgottenAt, cutoff);
      segments := EndingAfter(segments, cutoff);
      forgottenAt := cutoff;
      locks := LocksSince(locks, cutoff);
      gameOvers := TimesSince(gameOvers, cutoff);
    }

    method ForgetDecisions(state: SessionState)
      modifies this`registrations
      ensures forall id :: id in registrations <==>
                id in old(registrations) && (Some(id) == state.exposureId || Some(id) == state.pendingExposureId)
      ensures forall id <- registrations :: registrations[id] == old(registrations)[id]
    {
      registrations := map id | id in registrations
                               && (Some(id) == state.exposureId || Some(id) == state.pendingExposureId)
                           :: registrations[id];
    }

    /** Evidence for the next decision. What is summed is what is kept: after an observation that succeeded, exactly
        the play, locks and lost games of the last five seconds; after one that failed, each segment that has ended
        too long ago takes away the time since then. */
    method RuntimeInput(sessionId: string) returns (input: Option<RecentPlay>)
      requires Recallable()
      ensures input.None? <==> latest.None? || latest.value.state.sessionId != sessionId
      ensures input.Some? ==>
                var since := latest.value.at - WINDOW_DURATION_MS;
                var play := PlayedAfter(played, since, false) - Overrun(segments, since, false);
                var balanced := PlayedAfter(played, since, true) - Overrun(segments, since, true);
                && input.value.activePlayMs == play
                && input.value.challengeBalance == Share(balanced, play)
                && input.value.hardDropRatio == Share(HardDropsIn(locks) as real, |locks| as real)
                && 0.0 <= input.value.hardDropRatio <= 1.0
                && input.value.linesCleared == LinesIn(locks)
                && input.value.gameOvers == |gameOvers|
      ensures input.Some? && Pruned() ==>
                var since := latest.value.at - WINDOW_DURATION_MS;
                var recent := LocksSince(allLocks, since);
                && input.value.activePlayMs == PlayedAfter(played, since, false)
                && input.value.challengeBalance
                    == Share(PlayedAfter(played, since, true), PlayedAfter(played, since, false))
                && 0.0 <= input.value.activePlayMs <= WINDOW_DURATION_MS
                && 0.0 <= input.value.challengeBalance <= 1.0
                && input.value.hardDropRatio == Share(HardDropsIn(recent) as real, |recent| as real)
                && input.value.linesCleared == LinesIn(recent)
                && input.value.gameOvers == |TimesSince(allOvers, since)|
    {
      if latest.None? || latest.value.state.sessionId != sessionId {
        return None;
      }
      hide PlayedAfter, EndingAfter, Share, LinesIn, HardDropsIn, Overrun, LocksSince, TimesSince, Recallable;
      var cutoff := latest.value.at - WINDOW_DURATION_MS;
      var activePlayMs, balancedPlayMs := SumSegments(cutoff);
      KeptPlayIsEnough(cutoff);
      var hardDrops := HardDropsIn(locks);
      ShareIsBounded(hardDrops as real, |locks| as real);
      input := Some(RecentPlay(activePlayMs, Share(balancedPlayMs, activePlayMs),
                               Share(hardDrops as real, |locks| as real), LinesIn(locks), |gameOvers|));
    }

    /** Play that was forgotten does not matter to the last five seconds; and what is left after pruning is all there
        was. */
    lemma KeptPlayIsEnough(cutoff: real)
      requires Recallable() && latest.Some? && cutoff == latest.value.at - WINDOW_DURATION_MS
      ensures PlayedAfter(segments, cutoff, false) == PlayedAfter(played, cutoff, false)
      ensures PlayedAfter(segments, cutoff, true) == PlayedAfter(played, cutoff, true)
      ensures Pruned() ==>
                && Overrun(segments, cutoff, false) == Overrun(segments, cutoff, true) == 0.0
                && 0.0 <= PlayedAfter(played, cutoff, false) <= WINDOW_DURATION_MS
                && 0.0 <= Share(PlayedAfter(played, cutoff, true), PlayedAfter(played, cutoff, false)) <= 1.0
    {
      hide PlayedAfter, EndingAfter, Consecutive, Share, Overrun, LocksSince, TimesSince;
      ForgottenPlayIsOver(played, forgottenAt, cutoff, false);
      ForgottenPlayIsOver(played, forgottenAt, cutoff, true);
      if Pruned() { RecentPlayIsExact(played, cutoff, latest.value.at); }
    }

    method SumSegments(cutoff: real) returns (activePlayMs: real, balancedPlayMs: real)
      ensures activePlayMs == PlayedAfter(segments, cutoff, false) - Overrun(segments, cutoff, false)
      ensures balancedPlayMs == PlayedAfter(segments, cutoff, true) - Overrun(segments, cutoff, true)
    {
      activePlayMs, balancedPlayMs := 0.0, 0.0;
      for i := 0 to |segments|
        invariant activePlayMs == PlayedAfter(segments[..i], cutoff, false) - Overrun(segments[..i], cutoff, false)
        invariant balancedPlayMs == PlayedAfter(segments[..i], cutoff, true) - Overrun(segments[..i], cutoff, true)
      {
        assert segments[..i + 1][..i] == segments[..i];
        var duration := segments[i].end - Max(cutoff, segments[i].start);
        activePlayMs := activePlayMs + duration;
        if segments[i].balanced {
          balancedPlayMs := balancedPlayMs + duration;
        }
      }
      assert segments[..|segments|] == segments;
    }

    /** A decision is registered once, for this session, with a bounded interval. */
    method RegisterDecision(sessionId: string, exposureId: string, intervalMs: real) returns (registered: bool)
      modifies this`registrations
      ensures registered <==>
                && latest.Some? && latest.value.state.sessionId == sessionId && exposureId != ""
                && ValidDropInterval(intervalMs) && exposureId !in old(registrations)
      ensures registrations == if registered then old(registrations)[exposureId := Registration(exposureId, intervalMs)]
                               else old(registrations)
    {
      if latest.None? || latest.value.state.sessionId != sessionId || exposureId == ""
        || !ValidDropInterval(intervalMs) {
        return false;
      }
      if exposureId in registrations {
        return false;
      }
      registrations := registrations[exposureId := Registration(exposureId, intervalMs)];
      registered := true;
    }

    /** Closing the books of an episode: exactly one final window, however often it is asked for. */
    method CompleteEpisode() returns (accepted: bool)
      requires Booked() && Lined()
      modifies this`window, this`emitted, this`windowSequence, this`completed
      ensures Booked() && Lined() && (old(Tiled()) ==> Tiled())
      ensures AllExact(emitted, window) <==> old(AllExact(emitted, window))
      ensures accepted <==> latest.Some? && latest.value.state.status == Closed && applied.Some?
      ensures !accepted || old(completed) ==> unchanged(this)
      ensures accepted && !old(completed) ==>
                && completed && window.None? && |emitted| == |old(emitted)| + 1
                && old(emitted) <= emitted && emitted[|old(emitted)|].episodeComplete
    {
      hide Reported, LinesUp, AllExact;
      TiledIsLined();
      if latest.None? || latest.value.state.status != Closed || applied.None? {
        return false;
      }
      if completed {
        return true;
      }
      EnsureWindow(latest.value.at);
      FinishWindow(true);
      completed := true;
      accepted := true;
    }
  }

  datatype RecentPlay = RecentPlay(activePlayMs: real, challengeBalance: real, hardDropRatio: real,
                                   linesCleared: nat, gameOvers: nat)

  function Share(part: real, whole: real): real {
    if whole == 0.0 then 0.0 else part / whole
  }

  lemma ShareIsBounded(part: real, whole: real)
    requires 0.0 <= part <= whole
    ensures 0.0 <= Share(part, whole) <= 1.0
    ensures Share(part, whole) * whole == part
    ensures whole == 0.0 ==> Share(part, whole) == 0.0
  {
    if whole > 0.0 {
      assert Area(1.0, whole) == whole;
      DivideBounds(part, 1.0, whole);
    }
  }

  function LinesIn(locks: seq<LockEvent>): nat {
    if locks == [] then 0 else locks[0].lines + LinesIn(locks[1..])
  }

  function HardDropsIn(locks: seq<LockEvent>): (count: nat)
    ensures count <= |locks|
  {
    if locks == [] then 0 else (if locks[0].hardDrop then 1 else 0) + HardDropsIn(locks[1..])
  }

  /** Without segments that have ended before the window, the sum over what is kept is exact. */
  lemma RecentPlayIsExact(played: seq<Segment>, since: real, now: real)
    requires Consecutive(played, now) && since <= now
    ensures Overrun(EndingAfter(played, since), since, false) == Overrun(EndingAfter(played, since), since, true) == 0.0
    ensures 0.0 <= PlayedAfter(played, since, true) <= PlayedAfter(played, since, false) <= now - since
    ensures 0.0 <= Share(PlayedAfter(played, since, true), PlayedAfter(played, since, false)) <= 1.0
  {
    hide PlayedAfter, EndingAfter, Consecutive, Share, Overrun;
    EndingAfterEnds(played, since);
    OverrunIsNothingExactlyIf(EndingAfter(played, since), since);
    PlayFitsWindow(played, since, now);
    ShareIsBounded(PlayedAfter(played, since, true), PlayedAfter(played, since, false));
  }

  lemma {:induction false} EndingAfterEnds(segments: seq<Segment>, since: real)
    ensures forall segment <- EndingAfter(segments, since) :: segment.end > since
  {
    if segments != [] { EndingAfterEnds(segments[..|segments| - 1], since); }
  }

  predicate Covers(window: ExperienceWindow, moment: real) {
    window.startAtMs <= moment < window.endAtMs
  }

  /** The length of the stretches of time the windows cover. */
  ghost function Covered(windows: seq<ExperienceWindow>): real {
    if windows == [] then 0.0
    else
      var last := windows[|windows| - 1];
      Covered(windows[..|windows| - 1]) + (last.endAtMs - last.startAtMs)
  }

  /** Reported play time is at most the time the reported windows cover, and all of it exactly if every window is exact;
      no moment is covered twice. */
  lemma ReportedTimeIsCovered(windows: seq<ExperienceWindow>, until: real)
    requires Follow(windows, until)
    ensures Reported(windows).active <= Covered(windows)
    ensures Reported(windows).active == Covered(windows) <==> AllExact(windows, None)
    ensures forall i, j, moment :: 0 <= i < j < |windows| && Covers(windows[i], moment) ==> !Covers(windows[j], moment)
  {
    hide Reported, Covered, AllExact;
    ReportedAgainstCovered(windows, until);
  }

  lemma {:induction false} ReportedAgainstCovered(windows: seq<ExperienceWindow>, until: real)
    requires Follow(windows, until)
    ensures Reported(windows).active <= Covered(windows)
    ensures Reported(windows).active == Covered(windows) <==> AllExact(windows, None)
  {
    if windows != [] {
      var init, last := windows[..|windows| - 1], windows[|windows| - 1];
      ReportedAgainstCovered(init, until);
      assert Sound(last);
      OneMoreExact(init, last);
      assert windows == init + [last];
      hide Follow, AllExact;
    }
  }

  lemma OneMoreExact(windows: seq<ExperienceWindow>, last: ExperienceWindow)
    ensures AllExact(windows + [last], None) <==>
              AllExact(windows, None) && last.activePlayMs == last.endAtMs - last.startAtMs
  {
    var all := windows + [last];
    assert all[|windows|] == last && forall i :: 0 <= i < |windows| ==> all[i] == windows[i];
  }

  predicate PlayedSince(previous: Option<Observed>, at: real) {
    previous.Some? && previous.value.state.status == Playing && at > previous.value.at
  }

  /** The play between the previous observation and this one. */
  function Played(previous: Option<Observed>, at: real): Totals {
    if PlayedSince(previous, at) then Stretch(at - previous.value.at, InBand(previous.value.state.boardPressure))
    else Nothing()
  }

  function SegmentsOf(previous: Option<Observed>, at: real): seq<Segment> {
    if PlayedSince(previous, at) then [Segment(previous.value.at, at, InBand(previous.value.state.boardPressure))]
    else []
  }

  /** What one observation accrues: the play since the previous one, and its events. */
  function Accrued(previous: Option<Observed>, state: SessionState, at: real, transition: Option<Transition>): Totals {
    Sum(Played(previous, at), Events(previous, state, transition))
  }

  function Events(previous: Option<Observed>, state: SessionState, transition: Option<Transition>): Totals {
    Nothing().(lines := LinesOf(transition), gameOvers := if EndsGame(previous, state) then 1 else 0)
  }

  /** What that is in full: the time since the previous observation if the session was being played then, balanced if
      its pressure then was in the band; the lines of a lock; and a game over that was not there before. */
  lemma AccruedInFull(previous: Option<Observed>, state: SessionState, at: real, transition: Option<Transition>)
    ensures var accrued := Accrued(previous, state, at, transition);
            var played := previous.Some? && previous.value.state.status == Playing && previous.value.at < at;
            && accrued.active == (if played then at - previous.value.at else 0.0)
            && accrued.balanced
                 == (if played && 0.15 <= previous.value.state.boardPressure <= 0.45 then accrued.active else 0.0)
            && accrued.lines == (if transition.Some? && transition.value.locked.Some? then transition.value.locked.value
                                 else 0)
            && accrued.gameOvers
                 == (if state.gameOver && !(previous.Some? && previous.value.state.gameOver) then 1 else 0)
  {
    hide Sum, Nothing;
    NothingInFull();
    SumInFull(Played(previous, at), Events(previous, state, transition));
  }

  lemma NothingInFull()
    ensures Nothing().active == Nothing().balanced == 0.0 && Nothing().lines == Nothing().gameOvers == 0
  {
  }

  lemma SumInFull(one: Totals, two: Totals)
    ensures Sum(one, two).active == one.active + two.active && Sum(one, two).balanced == one.balanced + two.balanced
    ensures Sum(one, two).lines == one.lines + two.lines && Sum(one, two).gameOvers == one.gameOvers + two.gameOvers
  {
  }

  /** And what is kept as evidence of it. */
  lemma EvidenceInFull(previous: Option<Observed>, state: SessionState, at: real, transition: Option<Transition>)
    ensures SegmentsOf(previous, at)
              == if previous.Some? && previous.value.state.status == Playing && previous.value.at < at
                 then [Segment(previous.value.at, at, 0.15 <= previous.value.state.boardPressure <= 0.45)] else []
    ensures LocksOf(at, transition)
              == if transition.Some? && transition.value.locked.Some?
                 then [LockEvent(at, transition.value.operation == HardDrop, transition.value.locked.value)] else []
    ensures OversOf(previous, state, at)
              == if state.gameOver && !(previous.Some? && previous.value.state.gameOver) then [at] else []
    ensures ClearsEvidence(transition) <==> transition.Some? && transition.value.operation in {Restart, Resume}
  {
  }

  function Counted(lines: nat, overs: nat): Totals {
    Nothing().(lines := lines, gameOvers := overs)
  }

  lemma EventsAdd(totals: Totals, previous: Option<Observed>, state: SessionState, transition: Option<Transition>)
    ensures Sum(Sum(totals, Counted(LinesOf(transition), 0)), Counted(0, if EndsGame(previous, state) then 1 else 0))
         == Sum(totals, Events(previous, state, transition))
    ensures Sum(totals, Counted(0, 0)) == totals
    ensures Sum(Sum(totals, Counted(LinesOf(transition), 0)), Counted(0, 0))
              == Sum(totals, Counted(LinesOf(transition), 0))
  {
  }

  lemma NothingEnds(since: real)
    ensures EndingAfter([], since) == []
  {
  }

  function LocksSince(locks: seq<LockEvent>, cutoff: real): seq<LockEvent> {
    if locks == [] then []
    else if locks[0].at >= cutoff then [locks[0]] + LocksSince(locks[1..], cutoff)
    else LocksSince(locks[1..], cutoff)
  }

  function TimesSince(times: seq<real>, cutoff: real): seq<real> {
    if times == [] then []
    else if times[0] >= cutoff then [times[0]] + TimesSince(times[1..], cutoff)
    else TimesSince(times[1..], cutoff)
  }

  /** What is kept of the evidence: segments that end after a time, and locks and lost games not before it, each as
      often as it occurred. */
  lemma {:induction false} SegmentsKeptExactly(segments: seq<Segment>, since: real, segment: Segment)
    ensures multiset(EndingAfter(segments, since))[segment]
              == if segment.end > since then multiset(segments)[segment] else 0
  {
    if segments != [] {
      SegmentsKeptExactly(segments[..|segments| - 1], since, segment);
      assert segments == segments[..|segments| - 1] + [segments[|segments| - 1]];
    }
  }

  lemma {:induction false} LocksKeptExactly(locks: seq<LockEvent>, since: real, lock: LockEvent)
    ensures multiset(LocksSince(locks, since))[lock] == if lock.at >= since then multiset(locks)[lock] else 0
  {
    if locks != [] {
      LocksKeptExactly(locks[1..], since, lock);
      assert locks == [locks[0]] + locks[1..];
    }
  }

  lemma {:induction false} TimesKeptExactly(times: seq<real>, since: real, time: real)
    ensures multiset(TimesSince(times, since))[time] == if time >= since then multiset(times)[time] else 0
  {
    if times != [] {
      TimesKeptExactly(times[1..], since, time);
      assert times == [times[0]] + times[1..];
    }
  }

  /** Lines and hard drops are sums over the locks. */
  lemma {:induction false} LockSumsAdd(locks: seq<LockEvent>, more: seq<LockEvent>)
    ensures LinesIn(locks + more) == LinesIn(locks) + LinesIn(more)
    ensures HardDropsIn(locks + more) == HardDropsIn(locks) + HardDropsIn(more)
    ensures |locks| == 1 ==>
              LinesIn(locks) == locks[0].lines && HardDropsIn(locks) == (if locks[0].hardDrop then 1 else 0)
  {
    if locks == [] {
      assert locks + more == more;
    } else {
      LockSumsAdd(locks[1..], more);
      assert (locks + more)[1..] == locks[1..] + more;
    }
  }

  lemma NothingSince(cutoff: real)
    ensures LocksSince([], cutoff) == [] && TimesSince([], cutoff) == []
  {
  }

  lemma NothingConsecutive(now: real)
    ensures Consecutive([], now)
  {
  }

  lemma {:induction false} ForgottenLocksAreOver(locks: seq<LockEvent>, earlier: real, since: real)
    requires earlier <= since
    ensures LocksSince(LocksSince(locks, earlier), since) == LocksSince(locks, since)
  {
    if locks != [] { ForgottenLocksAreOver(locks[1..], earlier, since); }
  }

  lemma {:induction false} ForgottenTimesAreOver(times: seq<real>, earlier: real, since: real)
    requires earlier <= since
    ensures TimesSince(TimesSince(times, earlier), since) == TimesSince(times, since)
  {
    if times != [] { ForgottenTimesAreOver(times[1..], earlier, since); }
  }

  lemma {:induction false} LocksAppend(locks: seq<LockEvent>, lock: LockEvent, since: real)
    requires lock.at >= since
    ensures LocksSince(locks + [lock], since) == LocksSince(locks, since) + [lock]
  {
    if locks == [] {
      assert [] + [lock] == [lock];
    } else {
      LocksAppend(locks[1..], lock, since);
      assert (locks + [lock])[1..] == locks[1..] + [lock];
    }
  }

  lemma {:induction false} TimesAppend(times: seq<real>, time: real, since: real)
    requires time >= since
    ensures TimesSince(times + [time], since) == TimesSince(times, since) + [time]
  {
    if times == [] {
      assert [] + [time] == [time];
    } else {
      TimesAppend(times[1..], time, since);
      assert (times + [time])[1..] == times[1..] + [time];
    }
  }

  lemma NothingMore<T>(items: seq<T>)
    ensures items + [] == items
  {
  }

  lemma EventsAreRecent(locks: seq<LockEvent>, overs: seq<real>, previous: Option<Observed>, state: SessionState,
                        at: real, transition: Option<Transition>, since: real)
    requires since <= at
    ensures LocksSince(locks + LocksOf(at, transition), since) == LocksSince(locks, since) + LocksOf(at, transition)
    ensures TimesSince(overs + OversOf(previous, state, at), since)
              == TimesSince(overs, since) + OversOf(previous, state, at)
  {
    hide LocksSince, TimesSince;
    if transition.Some? && transition.value.locked.Some? {
      LocksAppend(locks, LocksOf(at, transition)[0], since);
    } else {
      NothingMore(locks);
      NothingMore(LocksSince(locks, since));
    }
    if EndsGame(previous, state) {
      TimesAppend(overs, at, since);
    } else {
      NothingMore(overs);
      NothingMore(TimesSince(overs, since));
    }
  }

  /** The lock and the lost game that an observation adds to the evidence. */
  function LocksOf(at: real, transition: Option<Transition>): seq<LockEvent> {
    if transition.Some? && transition.value.locked.Some?
    then [LockEvent(at, transition.value.operation == HardDrop, transition.value.locked.value)] else []
  }

  function OversOf(previous: Option<Observed>, state: SessionState, at: real): seq<real> {
    if EndsGame(previous, state) then [at] else []
  }

  function LinesOf(transition: Option<Transition>): nat {
    if transition.Some? && transition.value.locked.Some? then transition.value.locked.value else 0
  }

  predicate ClearsEvidence(transition: Option<Transition>) {
    transition.Some? && (transition.value.operation == Restart || transition.value.operation == Resume)
  }

  predicate EndsGame(previous: Option<Observed>, state: SessionState) {
    state.gameOver && (previous.None? || !previous.value.state.gameOver)
  }

  function IdOf(applied: Option<Registration>): Option<string> {
    match applied
    case None => None
    case Some(registration) => Some(registration.exposureId)
  }

  /** The decision in force after a state has been observed; the exposure in force keeps its registration. */
  function AppliedAfter(applied: Option<Registration>, registrations: map<string, Registration>,
                        exposureId: Option<string>): Option<Registration> {
    if exposureId == IdOf(applied) then applied
    else if exposureId.Some? && exposureId.value in registrations then Some(registrations[exposureId.value])
    else None
  }

  lemma TilesLater(windows: seq<ExperienceWindow>, earlier: real, later: real)
    requires earlier <= later
    ensures forall window: Option<ActiveWindow> ::
              LinesUp(windows, window, earlier) ==> LinesUp(windows, window, later)
  {
  }

  lemma NothingTiles(until: real)
    ensures LinesUp([], None, until) && AllExact([], None)
  {
  }

  lemma PlayedLater(played: seq<Segment>, previous: Option<Observed>, at: real)
    requires previous.Some? ==> previous.value.at <= at && Consecutive(played, previous.value.at)
    requires previous.None? ==> played == []
    ensures Consecutive(played, at)
  {
  }

  lemma RecallsMore(played: seq<Segment>, segment: Segment, forgottenAt: real)
    requires Consecutive(played, segment.start) && segment.start < segment.end && forgottenAt < segment.end
    ensures Consecutive(played + [segment], segment.end)
    ensures EndingAfter(played + [segment], forgottenAt) == EndingAfter(played, forgottenAt) + [segment]
  {
    assert (played + [segment])[..|played|] == played;
  }

  function Stretch(duration: real, balanced: bool): Totals {
    Totals(duration, if balanced then duration else 0.0, 0, 0)
  }

  /** An empty window that is dropped spanned nothing. */
  lemma DroppingKeepsLine(windows: seq<ExperienceWindow>, window: ActiveWindow)
    requires window.activePlayMs == 0.0
    ensures forall now :: LinesUp(windows, Some(window), now) ==>
              LinesUp(windows, None, now) && (AllExact(windows, None) <==> AllExact(windows, Some(window)))
  {
  }

  /** An open window that grows by a slice of play. */
  lemma SliceIsBooked(windows: seq<ExperienceWindow>, open: ActiveWindow, cursor: real, slice: real, balanced: bool)
    ensures var more := open.(activePlayMs := open.activePlayMs + slice, endAtMs := cursor + slice,
                              balancedPlayMs := open.balancedPlayMs + (if balanced then slice else 0.0));
            && Sum(Reported(windows), OpenTotals(Some(more)))
                 == Sum(Sum(Reported(windows), OpenTotals(Some(open))), Stretch(slice, balanced))
            && (LinesUp(windows, Some(open), cursor) && slice > 0.0 && open.activePlayMs >= 0.0 ==>
                  && LinesUp(windows, Some(more), cursor + slice)
                  && (AllExact(windows, Some(more)) <==> AllExact(windows, Some(open)) && open.endAtMs == cursor)
                  && open.endAtMs <= cursor)
  {
    hide Reported, Follow;
  }

  lemma StretchesAdd(totals: Totals, one: real, two: real, balanced: bool)
    ensures Sum(Sum(totals, Stretch(one, balanced)), Stretch(two, balanced))
              == Sum(totals, Stretch(one + two, balanced))
  {
  }

  lemma SumSwaps(one: Totals, two: Totals, three: Totals)
    ensures Sum(Sum(one, two), three) == Sum(Sum(one, three), two) == Sum(one, Sum(two, three))
  {
  }

  lemma NothingBooked()
    ensures Reported([]) == OpenTotals(None) == Nothing()
    ensures Sum(Nothing(), Nothing()) == Nothing()
  {
    NothingReported();
    AddingNothing(Nothing());
  }

  lemma NothingReported()
    ensures Reported([]) == Nothing()
  {
  }

  lemma AddingNothing(totals: Totals)
    ensures Sum(totals, Nothing()) == totals
  {
  }

  function Seen(status: Status, exposureId: Option<string>, intervalMs: real): SessionState {
    SessionState("session", status, false, 0.3, exposureId, intervalMs, None)
  }

  lemma NoRefusal(failure: Option<Refusal>)
    ensures failure.None? || failure == Some(OutOfOrder) || failure == Some(ForeignSession)
         || failure == Some(UnregisteredExposure) || failure == Some(IntervalMismatch)
  {
    if failure.Some? {
      match failure.value {
        case OutOfOrder => case ForeignSession => case UnregisteredExposure => case IntervalMismatch =>
      }
    }
  }

  /** A run that leaves a window of a stopped session open: a second of play under a registered exposure, and a pause
      that reports another interval than the registered one. The window is still exact. */
  method LeaveWindowOpen() returns (tracker: TetrisExperience)
    ensures fresh(tracker) && tracker.Booked() && tracker.Recallable() && tracker.Lined() && !tracker.Tiled()
    ensures AllExact(tracker.emitted, tracker.window)
    ensures tracker.latest == Some(Observed(Seen(Paused, Some("exposure"), 600.0), 1000.0))
    ensures tracker.applied == Some(Registration("exposure", 500.0)) && tracker.emitted == []
    ensures tracker.window == Some(ActiveWindow(Registration("exposure", 500.0), 0.0, 1000.0, 1000.0, 1000.0, 0, 0))
  {
    hide Reported, Sum, LinesUp, AllExact, Sane, EndingAfter, Consecutive, LocksSince, TimesSince, Accrued, Share;
    tracker := new TetrisExperience();
    tracker.NewIsBooked();
    var failure := tracker.Observe(Seen(Playing, None, 500.0), 0.0, None);
    NoRefusal(failure);
    var registered := tracker.RegisterDecision("session", "exposure", 500.0);
    failure := tracker.Observe(Seen(Playing, Some("exposure"), 500.0), 0.0, None);
    NoRefusal(failure);
    assert tracker.window.None? && tracker.emitted == [];
    failure := tracker.Observe(Seen(Paused, Some("exposure"), 600.0), 1000.0, None);
    assert failure == Some(IntervalMismatch);
  }

  /** The same run goes on: after another second there is play under the same exposure again, and three seconds are
      published with two of play. */
  method PublishTooLittlePlay() returns (tracker: TetrisExperience)
    ensures tracker.Booked() && tracker.Lined() && tracker.window.None? && |tracker.emitted| == 1
    ensures var published := tracker.emitted[0];
            published.startAtMs == 0.0 && published.endAtMs == 3000.0 && published.activePlayMs == 2000.0
  {
    hide Reported, Sum, LinesUp, AllExact, Sane, EndingAfter, Consecutive, LocksSince, TimesSince, Accrued, Share;
    tracker := LeaveWindowOpen();
    var failure := tracker.Observe(Seen(Playing, Some("exposure"), 500.0), 2000.0, None);
    NoRefusal(failure);
    assert tracker.window.value.endAtMs == tracker.window.value.activePlayMs == 1000.0 && tracker.emitted == [];
    failure := tracker.Observe(Seen(Paused, Some("exposure"), 500.0), 3000.0, None);
    NoRefusal(failure);
  }

  /** A run after which recent play is negative: a second of play, and later nothing but an exposure that was never
      registered, at which the observation fails before it forgets the old play. */
  method NegativePlay() returns (tracker: TetrisExperience, input: Option<RecentPlay>)
    ensures tracker.Booked() && tracker.Tiled() && input.Some? && input.value.activePlayMs == -14000.0
  {
    hide Reported, Sum, LinesUp, AllExact, OpenTotals, Sane, EndingAfter, Consecutive, LocksSince, TimesSince, Accrued,
         PlayedAfter, Overrun, Share, LinesIn, HardDropsIn;
    tracker := new TetrisExperience();
    tracker.NewIsBooked();
    var failure := tracker.Observe(Seen(Playing, None, 500.0), 0.0, None);
    NoRefusal(failure);
    failure := tracker.Observe(Seen(Paused, None, 500.0), 1000.0, None);
    NoRefusal(failure);
    OneSecondOfPlay();
    assert tracker.played == [Segment(0.0, 1000.0, true)];
    failure := tracker.Observe(Seen(Paused, Some("exposure"), 500.0), 20000.0, None);
    assert tracker.played == tracker.segments == [Segment(0.0, 1000.0, true)];
    input := tracker.RuntimeInput("session");
  }

  lemma OneSecondOfPlay()
    ensures var play := [Segment(0.0, 1000.0, true)];
            && EndingAfter(play, -4000.0) == play
            && PlayedAfter(play, 15000.0, false) == 0.0
            && Overrun(play, 15000.0, false) == 14000.0
  {
  }
}
