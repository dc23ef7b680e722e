/** The rolling evidence window over board pressure and placements. The class keeps a pruned list of changes;
    the specification speaks about everything that was ever recorded. */
module DropInterval {

  const OBSERVATION_WINDOW_MS := 5000.0

  datatype PressureChange = PressureChange(observedAt: real, value: real)

  datatype PlacementObservation = PlacementObservation(observedAt: real, placementTimeMs: real, recoveryFailures: nat)

  datatype Observation = Observation(
    boardPressure: real,
    currentLevel: int,
    placementTimeMs: real,
    recoveryFailures: real,
    sessionId: string)

  datatype Context = Context(
    boardPressureMean: real,
    boardPressureMax: real,
    currentLevel: int,
    placementTimeMean: real,
    recoveryFailures: nat,
    piecesLocked: nat,
    sessionId: string)

  datatype Rejection = OtherSession | NotChronological

  datatype Result<T> = Success(value: T) | Failure(rejection: Rejection)

  function Max(a: real, b: real): real {
    if a < b then b else a
  }

  /** Pressure is cut off at its bounds. */
  function BoundedPressure(value: real): (pressure: real)
    ensures 0.0 <= pressure <= 1.0
    ensures 0.0 <= value <= 1.0 ==> pressure == value
    ensures value < 0.0 ==> pressure == 0.0
    ensures value > 1.0 ==> pressure == 1.0
  {
    if value < 0.0 then 0.0 else if value > 1.0 then 1.0 else value
  }

  /** A number of failures is cut down to a whole one, and to none if it is negative. */
  function WholeFailures(value: real): (failures: nat)
    ensures value >= 0.0 ==> failures as real <= value < failures as real + 1.0
    ensures value < 0.0 ==> failures == 0
  {
    if value < 0.0 then 0 else value.Floor
  }

  // ---------------------------------------------------------------- the local policy

  function LocalDropInterval(currentLevel: int): int {
    var level := if currentLevel < 0 then 0 else if currentLevel > 20 then 20 else currentLevel;
    if 800 - level * 50 < 200 then 200 else 800 - level * 50
  }

  predicate ValidDropInterval(value: real) {
    200.0 <= value <= 1500.0 && value.Floor as real == value && value.Floor % 50 == 0
  }

  /** Valid intervals are the multiples of fifty from 200 to 1500. */
  lemma ValidIntervals(value: real)
    ensures ValidDropInterval(value) <==> exists fifties: int :: 4 <= fifties <= 30 && value == (50 * fifties) as real
  {
    if ValidDropInterval(value) {
      assert value == (50 * (value.Floor / 50)) as real;
    }
    if fifties: int :| 4 <= fifties <= 30 && value == (50 * fifties) as real {
      assert value.Floor == 50 * fifties;
    }
  }

  /** The local policy starts at 800 and takes off fifty a level until it comes to 200. It never leaves the bounds, and
      never slows down as the level rises. */
  lemma LocalIntervalIsValid(level: int, higher: int)
    ensures ValidDropInterval(LocalDropInterval(level) as real)
    ensures level <= higher ==> LocalDropInterval(higher) <= LocalDropInterval(level)
    ensures level <= 0 ==> LocalDropInterval(level) == 800
    ensures 0 <= level < 12 ==> LocalDropInterval(level + 1) == LocalDropInterval(level) - 50
    ensures 12 <= level ==> LocalDropInterval(level) == 200
  {
    var interval := LocalDropInterval(level);
    assert (interval as real).Floor == interval;
    assert interval == 200 || interval == 50 * (interval / 50);
  }

  // ---------------------------------------------------------------- the step function of a recording

  /** Recorded in time order; several records may carry the same time. */
  ghost predicate Chronological(changes: seq<PressureChange>) {
    forall i, j :: 0 <= i < j < |changes| ==> changes[i].observedAt <= changes[j].observedAt
  }

  ghost predicate Covers(changes: seq<PressureChange>, from: real) {
    changes != [] && Chronological(changes) && changes[0].observedAt <= from
  }

  function Last(changes: seq<PressureChange>): PressureChange
    requires changes != []
  {
    changes[|changes| - 1]
  }

  function Init(changes: seq<PressureChange>): seq<PressureChange>
    requires changes != []
  {
    changes[..|changes| - 1]
  }

  /** The pressure at a time: the last record made at or before it wins. */
  ghost function ValueAt(changes: seq<PressureChange>, time: real): real
    requires changes != []
  {
    if |changes| == 1 || Last(changes).observedAt <= time then Last(changes).value
    else ValueAt(Init(changes), time)
  }

  /** A value held for a while. */
  function Area(value: real, width: real): real {
    value * width
  }

  /** The time-weighted sum of the pressure between two times. */
  ghost function Integral(changes: seq<PressureChange>, from: real, to: real): real
    requires changes != []
  {
    var last := Last(changes);
    if |changes| == 1 || last.observedAt <= from then Area(last.value, to - from)
    else if last.observedAt >= to then Integral(Init(changes), from, to)
    else Integral(Init(changes), from, last.observedAt) + Area(last.value, to - last.observedAt)
  }

  /** Two recordings that cannot be told apart at or after a time. */
  ghost predicate AgreeFrom(left: seq<PressureChange>, right: seq<PressureChange>, since: real)
    requires left != [] && right != []
  {
    && (forall time :: since <= time ==> ValueAt(left, time) == ValueAt(right, time))
    && (forall from, to :: since <= from <= to ==> Integral(left, from, to) == Integral(right, from, to))
  }

  lemma IntegralExtends(changes: seq<PressureChange>, from: real, middle: real, to: real)
    requires changes != [] && from <= middle <= to && Last(changes).observedAt <= middle
    ensures Integral(changes, from, to) == Integral(changes, from, middle) + Area(Last(changes).value, to - middle)
  {
    hide Area;
    var value, at := Last(changes).value, Last(changes).observedAt;
    AreaOfNothing(value);
    Distribute(value, from, middle, to);
    Distribute(value, at, middle, to);
  }

  lemma CoversAppended(changes: seq<PressureChange>, from: real, change: PressureChange)
    requires Covers(changes, from) && Last(changes).observedAt <= change.observedAt
    ensures Covers(changes + [change], from)
    ensures Bounded(changes) && 0.0 <= change.value <= 1.0 ==> Bounded(changes + [change])
  {
  }

  lemma CoversOverwritten(changes: seq<PressureChange>, from: real, change: PressureChange)
    requires Covers(changes, from) && Last(changes).observedAt == change.observedAt
    ensures Covers(Init(changes) + [change], from)
    ensures Bounded(changes) && 0.0 <= change.value <= 1.0 ==> Bounded(Init(changes) + [change])
  {
  }

  /** Recording the value that already holds changes nothing. */
  lemma RepeatAgrees(changes: seq<PressureChange>, since: real, at: real)
    requires changes != [] && Last(changes).observedAt <= at
    ensures AgreeFrom(changes, changes + [PressureChange(at, Last(changes).value)], since)
  {
    hide Area;
    var longer := changes + [PressureChange(at, Last(changes).value)];
    assert Init(longer) == changes;
    forall from, to | since <= from <= to
      ensures Integral(changes, from, to) == Integral(longer, from, to)
    {
      if from < at < to { IntegralExtends(changes, from, at, to); }
    }
  }

  /** Appending the same record to recordings that agree keeps them in agreement. */
  lemma AppendAgrees(left: seq<PressureChange>, right: seq<PressureChange>, since: real, change: PressureChange)
    requires left != [] && right != [] && AgreeFrom(left, right, since)
    ensures AgreeFrom(left + [change], right + [change], since)
  {
    assert Init(left + [change]) == left && Init(right + [change]) == right;
    assert Last(left + [change]) == change && Last(right + [change]) == change;
    forall from, to | since <= from <= to
      ensures Integral(left + [change], from, to) == Integral(right + [change], from, to)
    {
      if from < change.observedAt < to {
        assert Integral(left, from, change.observedAt) == Integral(right, from, change.observedAt);
      }
    }
  }

  /** Overwriting the last record at its own time is the same as recording after it. */
  lemma OverwriteAgrees(changes: seq<PressureChange>, since: real, value: real)
    requires changes != [] && (|changes| == 1 ==> Last(changes).observedAt <= since)
    ensures var change := PressureChange(Last(changes).observedAt, value);
            AgreeFrom(Init(changes) + [change], changes + [change], since)
  {
    var change := PressureChange(Last(changes).observedAt, value);
    var short, long := Init(changes) + [change], changes + [change];
    assert Init(long) == changes && Init(short) == Init(changes);
    assert Last(long) == change && Last(short) == change;
    forall from, to | since <= from <= to
      ensures Integral(short, from, to) == Integral(long, from, to)
    {
      if |changes| > 1 && from < change.observedAt {
        assert Integral(changes, from, if change.observedAt < to then change.observedAt else to)
            == Integral(Init(changes), from, if change.observedAt < to then change.observedAt else to);
      }
    }
  }

  /** A record is forgotten for good once the next one is no later than the start of the window. */
  lemma {:induction false} ForgettingAgrees(changes: seq<PressureChange>, since: real)
    requires |changes| > 1 && Chronological(changes) && changes[1].observedAt <= since
    ensures AgreeFrom(changes[1..], changes, since)
  {
    hide Area;
    if |changes| > 2 {
      var shorter := Init(changes);
      ForgettingAgrees(shorter, since);
      assert shorter[1..] == Init(changes[1..]);
      AppendAgrees(shorter[1..], shorter, since, Last(changes));
      assert changes == shorter + [Last(changes)] && changes[1..] == shorter[1..] + [Last(changes)];
    } else {
      var first, second := changes[0], changes[1];
      assert changes[1..] == [second] && Init(changes) == [first] && Last(changes) == second;
    }
  }

  lemma AgreementChains(one: seq<PressureChange>, two: seq<PressureChange>, three: seq<PressureChange>, since: real)
    requires one != [] && two != [] && three != []
    requires AgreeFrom(one, two, since) && AgreeFrom(two, three, since)
    ensures AgreeFrom(one, three, since)
  {
  }

  /** What the window reports: the largest value the recording takes between two times. */
  ghost predicate IsMaximum(changes: seq<PressureChange>, from: real, to: real, maximum: real)
    requires changes != []
  {
    && (forall time :: from <= time <= to ==> ValueAt(changes, time) <= maximum)
    && (exists time :: from <= time <= to && ValueAt(changes, time) == maximum)
  }

  ghost predicate Bounded(changes: seq<PressureChange>) {
    forall i :: 0 <= i < |changes| ==> 0.0 <= changes[i].value <= 1.0
  }

  lemma {:induction false} ValueIsBounded(changes: seq<PressureChange>, time: real)
    requires changes != [] && Bounded(changes)
    ensures 0.0 <= ValueAt(changes, time) <= 1.0
  {
    if |changes| > 1 && Last(changes).observedAt > time { ValueIsBounded(Init(changes), time); }
  }

  lemma Distribute(value: real, from: real, middle: real, to: real)
    ensures Area(value, to - from) == Area(value, middle - from) + Area(value, to - middle)
  {
  }

  lemma AreaOfNothing(value: real)
    ensures Area(value, 0.0) == 0.0
  {
  }

  lemma AreaIsMonotone(value: real, bound: real, width: real)
    requires 0.0 <= value <= bound && 0.0 <= width
    ensures 0.0 <= Area(value, width) <= Area(bound, width)
  {
    hide Area;
    AreaIsPositive(value, width);
    AreaIsPositive(bound - value, width);
    AreasSubtract(bound, value, width);
  }

  lemma AreaIsPositive(value: real, width: real)
    requires 0.0 <= value && 0.0 <= width
    ensures 0.0 <= Area(value, width)
  {
  }

  lemma AreasSubtract(one: real, other: real, width: real)
    ensures Area(one - other, width) == Area(one, width) - Area(other, width)
  {
    assert (one - other) * width == one * width - other * width;
  }

  /** What is recorded later than a time has no bearing on it. */
  lemma {:induction false} LaterRecordsDoNotMatter(changes: seq<PressureChange>, count: nat, from: real, to: real)
    requires 0 < count <= |changes| && Chronological(changes) && from <= to
    requires count < |changes| ==> to < changes[count].observedAt
    ensures forall time :: time <= to ==> ValueAt(changes, time) == ValueAt(changes[..count], time)
    ensures Integral(changes, from, to) == Integral(changes[..count], from, to)
  {
    if count < |changes| {
      LaterRecordsDoNotMatter(Init(changes), count, from, to);
      assert Init(changes)[..count] == changes[..count];
    } else {
      assert changes[..count] == changes;
    }
  }

  /** The time-weighted sum lies between nothing and the bound held all the time. */
  lemma {:induction false} IntegralIsBounded(changes: seq<PressureChange>, from: real, to: real, bound: real)
    requires Covers(changes, from) && Bounded(changes) && from <= to
    requires forall time :: from <= time < to ==> ValueAt(changes, time) <= bound
    ensures 0.0 <= Integral(changes, from, to) <= Area(bound, to - from)
  {
    hide Area;
    var last := Last(changes);
    if from == to {
      IntegralOfInstant(changes, from);
      AreaOfNothing(bound);
    } else if |changes| == 1 || last.observedAt <= from {
      assert ValueAt(changes, from) == last.value;
      AreaIsMonotone(last.value, bound, to - from);
    } else {
      var middle := if last.observedAt >= to then to else last.observedAt;
      forall time | from <= time < middle
        ensures ValueAt(Init(changes), time) <= bound
      {
        assert ValueAt(changes, time) == ValueAt(Init(changes), time);
      }
      IntegralIsBounded(Init(changes), from, middle, bound);
      if middle < to {
        assert ValueAt(changes, middle) == last.value;
        AreaIsMonotone(last.value, bound, to - middle);
        Distribute(bound, from, middle, to);
      }
    }
  }

  lemma {:induction false} IntegralOfInstant(changes: seq<PressureChange>, at: real)
    requires changes != []
    ensures Integral(changes, at, at) == 0.0
  {
    if |changes| > 1 && Last(changes).observedAt > at { IntegralOfInstant(Init(changes), at); }
  }

  /** The time-weighted mean; at a single instant, the value there. */
  ghost function Mean(changes: seq<PressureChange>, from: real, to: real): real
    requires changes != [] && from <= to
  {
    if from == to then ValueAt(changes, to) else Integral(changes, from, to) / (to - from)
  }

  lemma MeanIsBounded(changes: seq<PressureChange>, from: real, to: real, maximum: real)
    requires Covers(changes, from) && Bounded(changes) && from <= to
    requires IsMaximum(changes, from, to, maximum)
    ensures 0.0 <= Mean(changes, from, to) <= maximum <= 1.0
  {
    hide Area;
    var time :| from <= time <= to && ValueAt(changes, time) == maximum;
    ValueIsBounded(changes, time);
    if from < to {
      IntegralIsBounded(changes, from, to, maximum);
      DivideBounds(Integral(changes, from, to), maximum, to - from);
    } else {
      ValueIsBounded(changes, to);
    }
  }

  lemma DivideBounds(total: real, bound: real, width: real)
    requires width > 0.0 && 0.0 <= total <= Area(bound, width)
    ensures 0.0 <= total / width <= bound
  {
    var share := total / width;
    assert share * width == total;
    if share > bound { ScaleStrictly(bound, share, width); }
    if share < 0.0 { ScaleStrictly(share, 0.0, width); }
  }

  lemma ScaleStrictly(less: real, more: real, width: real)
    requires less < more && 0.0 < width
    ensures less * width < more * width
  {
    assert (more - less) * width > 0.0;
  }

  // ---------------------------------------------------------------- placements

  function Recent(placements: seq<PlacementObservation>, since: real): seq<PlacementObservation> {
    if placements == [] then []
    else
      var earlier := Recent(placements[..|placements| - 1], since);
      var last := placements[|placements| - 1];
      if last.observedAt >= since then earlier + [last] else earlier
  }

  function TimeTotal(placements: seq<PlacementObservation>): real {
    if placements == [] then 0.0
    else TimeTotal(placements[..|placements| - 1]) + placements[|placements| - 1].placementTimeMs
  }

  function FailureTotal(placements: seq<PlacementObservation>): nat {
    if placements == [] then 0
    else FailureTotal(placements[..|placements| - 1]) + placements[|placements| - 1].recoveryFailures
  }

  /** What is recent are the placements of that time, each as often as it was made. */
  lemma {:induction false} RecentAreExactly(placements: seq<PlacementObservation>, since: real,
                                            placement: PlacementObservation)
    ensures multiset(Recent(placements, since))[placement]
              == if placement.observedAt >= since then multiset(placements)[placement] else 0
  {
    if placements != [] {
      var init := placements[..|placements| - 1];
      RecentAreExactly(init, since, placement);
      assert placements == init + [placements[|placements| - 1]];
    }
  }

  /** Totals are sums over the placements, whatever their order of joining. */
  lemma {:induction false} TotalsAdd(placements: seq<PlacementObservation>, more: seq<PlacementObservation>)
    ensures TimeTotal(placements + more) == TimeTotal(placements) + TimeTotal(more)
    ensures FailureTotal(placements + more) == FailureTotal(placements) + FailureTotal(more)
    ensures |more| == 1 ==> TimeTotal(more) == more[0].placementTimeMs && FailureTotal(more) == more[0].recoveryFailures
  {
    if more == [] {
      assert placements + more == placements;
    } else {
      TotalsAdd(placements, more[..|more| - 1]);
      assert (placements + more)[..|placements + more| - 1] == placements + more[..|more| - 1];
    }
  }

  /** Forgetting early never hides a placement a later window would show. */
  lemma {:induction false} RecentTwice(placements: seq<PlacementObservation>, earlier: real, later: real)
    requires earlier <= later
    ensures Recent(Recent(placements, earlier), later) == Recent(placements, later)
  {
    if placements != [] {
      var init, last := placements[..|placements| - 1], placements[|placements| - 1];
      RecentTwice(init, earlier, later);
      if last.observedAt >= earlier {
        var kept := Recent(init, earlier);
        assert (kept + [last])[..|kept|] == kept;
      }
    }
  }

  // ---------------------------------------------------------------- the window

  class RollingDropIntervalContext {
    const startedAt: real
    const sessionId: string
    const windowMs: real
    var lastObservedAt: real
    var pressureChanges: seq<PressureChange>
    var placementObservations: seq<PlacementObservation>
    /** Every bounded pressure and every placement ever recorded, unpruned. */
    ghost var recorded: seq<PressureChange>
    ghost var placed: seq<PlacementObservation>

    function WindowStart(observedAt: real): real {
      Max(startedAt, observedAt - windowMs)
    }

    ghost predicate Sound(start: real)
      reads this
    {
      && Covers(recorded, startedAt) && Bounded(recorded)
      && Last(recorded).observedAt <= lastObservedAt
      && Covers(pressureChanges, start) && Bounded(pressureChanges)
      && (forall i, j :: 0 <= i < j < |pressureChanges| ==>
          pressureChanges[i].observedAt < pressureChanges[j].observedAt)
      && Last(pressureChanges).observedAt <= lastObservedAt
      && AgreeFrom(pressureChanges, recorded, start)
    }

    ghost predicate Valid()
      reads this
    {
      && windowMs > 0.0
      && startedAt <= lastObservedAt
      && Sound(WindowStart(lastObservedAt))
      && (|pressureChanges| > 1 ==> pressureChanges[1].observedAt > WindowStart(lastObservedAt))
      && placementObservations == Recent(placed, WindowStart(lastObservedAt))
    }

    constructor (initial: Observation, observedAt: real, windowMs: real)
      requires windowMs > 0.0
      ensures Valid()
      ensures startedAt == lastObservedAt == observedAt && sessionId == initial.sessionId && this.windowMs == windowMs
      ensures recorded == [PressureChange(observedAt, BoundedPressure(initial.boardPressure))] && placed == []
    {
      startedAt, lastObservedAt, sessionId, this.windowMs := observedAt, observedAt, initial.sessionId, windowMs;
      pressureChanges := [PressureChange(observedAt, BoundedPressure(initial.boardPressure))];
      placementObservations := [];
      recorded := [PressureChange(observedAt, BoundedPressure(initial.boardPressure))];
      placed := [];
    }

    method CheckObservation(observation: Observation, observedAt: real) returns (rejection: Result<()>)
      ensures rejection.Success? <==> observation.sessionId == sessionId && observedAt >= lastObservedAt
      ensures rejection == Failure(OtherSession) <==> observation.sessionId != sessionId
    {
      if observation.sessionId != sessionId {
        return Failure(OtherSession);
      }
      if observedAt < lastObservedAt {
        return Failure(NotChronological);
      }
      rejection := Success(());
    }

    /** Adds one observation to the recording; an unchanged pressure or one at a repeated time costs no entry. */
    method Record(observation: Observation, observedAt: real, pieceLocked: bool) returns (result: Result<()>)
      requires Valid()
      modifies this
      ensures Valid()
      ensures result.Success? <==> observation.sessionId == sessionId && observedAt >= old(lastObservedAt)
      ensures result.Failure? ==> unchanged(this)
      ensures result.Success? ==>
                && lastObservedAt == observedAt
                && recorded == old(recorded) + [PressureChange(observedAt, BoundedPressure(observation.boardPressure))]
                && placed == if !pieceLocked then old(placed) else old(placed) + [PlacementObservation(
                     observedAt, Max(0.0, observation.placementTimeMs), WholeFailures(observation.recoveryFailures))]
    {
      result := CheckObservation(observation, observedAt);
      if result.Failure? {
        return;
      }
      ghost var start := WindowStart(lastObservedAt);
      AddPressure(BoundedPressure(observation.boardPressure), observedAt);
      if pieceLocked {
        var placement := PlacementObservation(
          observedAt, Max(0.0, observation.placementTimeMs), WholeFailures(observation.recoveryFailures));
        placementObservations := placementObservations + [placement];
        assert (placed + [placement])[..|placed|] == placed;
        placed := placed + [placement];
      }
      assert placementObservations == Recent(placed, start);
      lastObservedAt := observedAt;
      Prune(observedAt, start);
    }

    method AddPressure(pressure: real, observedAt: real)
      requires Valid() && observedAt >= lastObservedAt && 0.0 <= pressure <= 1.0
      modifies this`pressureChanges, this`recorded, this`lastObservedAt
      ensures Sound(WindowStart(old(lastObservedAt))) && lastObservedAt == observedAt
      ensures recorded == old(recorded) + [PressureChange(observedAt, pressure)]
    {
      hide Integral, ValueAt, AgreeFrom, Chronological, Bounded;
      ghost var start := WindowStart(lastObservedAt);
      ghost var change := PressureChange(observedAt, pressure);
      ghost var before := pressureChanges;
      var last := pressureChanges[|pressureChanges| - 1];
      AppendAgrees(before, recorded, start, change);
      CoversAppended(recorded, startedAt, change);
      CoversAppended(before, start, change);
      if last.value != pressure {
        if last.observedAt == observedAt {
          pressureChanges := pressureChanges[|pressureChanges| - 1 := PressureChange(observedAt, pressure)];
          assert pressureChanges == Init(before) + [change];
          CoversOverwritten(before, start, change);
          OverwriteAgrees(before, start, pressure);
        } else {
          pressureChanges := pressureChanges + [PressureChange(observedAt, pressure)];
          AgreesWithItself(pressureChanges, start);
        }
      } else {
        RepeatAgrees(before, start, observedAt);
      }
      AgreementChains(pressureChanges, before + [change], recorded + [change], start);
      recorded := recorded + [change];
      lastObservedAt := observedAt;
    }

    /** Drops what the window no longer needs: all but the change that is still in force when the window starts. */
    method Prune(observedAt: real, ghost earlier: real)
      requires windowMs > 0.0 && startedAt <= observedAt == lastObservedAt
      requires earlier <= WindowStart(observedAt) && Sound(earlier)
      requires placementObservations == Recent(placed, earlier)
      modifies this`pressureChanges, this`placementObservations
      ensures Valid()
    {
      var windowStart := WindowStart(observedAt);
      while |pressureChanges| > 1 && pressureChanges[1].observedAt <= windowStart
        invariant Sound(windowStart) && placementObservations == Recent(placed, earlier)
        decreases |pressureChanges|
      {
        ForgettingAgrees(pressureChanges, windowStart);
        AgreementChains(pressureChanges[1..], pressureChanges, recorded, windowStart);
        pressureChanges := pressureChanges[1..];
      }
      RecentTwice(placed, earlier, windowStart);
      placementObservations := Recent(placementObservations, windowStart);
    }

    /** The window's summary, computed from the pruned list, is the exact summary of everything recorded. */
    method Snapshot(observation: Observation, observedAt: real) returns (result: Result<Context>)
      requires Valid()
      modifies this
      ensures Valid()
      ensures result.Success? <==> observation.sessionId == sessionId && observedAt >= old(lastObservedAt)
      ensures result.Failure? ==> unchanged(this)
      ensures result.Success? ==>
                && recorded == old(recorded) + [PressureChange(observedAt, BoundedPressure(observation.boardPressure))]
                && placed == old(placed) && lastObservedAt == observedAt
                && var from := WindowStart(observedAt);
                   var context := result.value;
                   && context.boardPressureMean == Mean(recorded, from, observedAt)
                   && IsMaximum(recorded, from, observedAt, context.boardPressureMax)
                   && 0.0 <= context.boardPressureMean <= context.boardPressureMax <= 1.0
                   && context.piecesLocked == |Recent(placed, from)|
                   && context.recoveryFailures == FailureTotal(Recent(placed, from))
                   && context.placementTimeMean * context.piecesLocked as real == TimeTotal(Recent(placed, from))
                   && context.currentLevel == observation.currentLevel && context.sessionId == sessionId
    {
      var recording := Record(observation, observedAt, false);
      if recording.Failure? {
        return Failure(recording.rejection);
      }
      var windowStart := WindowStart(observedAt);
      var mean, maximum := SummarizePressure(windowStart, observedAt);
      AgreeingSummaries(pressureChanges, recorded, windowStart, observedAt, maximum);
      MeanIsBounded(recorded, windowStart, observedAt, maximum);
      var placements := Recent(placementObservations, windowStart);
      RecentTwice(placed, windowStart, windowStart);
      var count := |placements|;
      var timeTotal := TimeTotal(placements);
      var timeMean := if count == 0 then 0.0 else timeTotal / count as real;
      result := Success(Context(mean, maximum, observation.currentLevel, timeMean, FailureTotal(placements), count,
                                sessionId));
    }

    method SummarizePressure(windowStart: real, observedAt: real) returns (mean: real, maximum: real)
      requires Covers(pressureChanges, windowStart) && windowStart <= observedAt
      requires forall i, j :: 0 <= i < j < |pressureChanges| ==>
                 pressureChanges[i].observedAt < pressureChanges[j].observedAt
      requires |pressureChanges| > 1 ==> pressureChanges[1].observedAt > windowStart
      ensures mean == Mean(pressureChanges, windowStart, observedAt)
      ensures IsMaximum(pressureChanges, windowStart, observedAt, maximum)
    {
      hide IsMaximum, Integral, ValueAt, Area;
      var value := pressureChanges[0].value;
      var cursor := windowStart;
      var weightedTotal := 0.0;
      maximum := value;
      var i := 0;
      while i < |pressureChanges|
        invariant 0 <= i <= |pressureChanges|
        invariant i == 0 ==> weightedTotal == 0.0 && cursor == windowStart && maximum == pressureChanges[0].value
        invariant windowStart <= cursor <= observedAt
        invariant i > 0 ==> Summarized(pressureChanges[..i], windowStart, cursor, value, weightedTotal, maximum)
      {
        var change := pressureChanges[i];
        ghost var seen := pressureChanges[..i];
        assert pressureChanges[..i + 1] == seen + [change];
        if change.observedAt <= windowStart {
          value := change.value;
          maximum := Max(maximum, value);
          FirstIsSummarized(change, windowStart);
          assert seen + [change] == [change];
        } else {
          if change.observedAt > observedAt {
            break;
          }
          SummaryExtends(seen, change, windowStart, cursor, value, weightedTotal, maximum);
          weightedTotal := weightedTotal + Area(value, change.observedAt - cursor);
          cursor := change.observedAt;
          value := change.value;
          maximum := Max(maximum, value);
        }
        i := i + 1;
      }
      SummaryCloses(pressureChanges, i, windowStart, cursor, observedAt, value, weightedTotal, maximum);
      weightedTotal := weightedTotal + Area(value, observedAt - cursor);
      var duration := observedAt - windowStart;
      mean := if duration == 0.0 then value else weightedTotal / duration;
    }
  }

  /** The running summary of the records seen so far, up to the last of them. */
  ghost predicate Summarized(seen: seq<PressureChange>, from: real, cursor: real, value: real, total: real,
                             maximum: real) {
    && Covers(seen, from)
    && value == Last(seen).value && cursor == Max(from, Last(seen).observedAt)
    && total == Integral(seen, from, cursor)
    && IsMaximum(seen, from, cursor, maximum)
  }

  lemma LastValueHolds(changes: seq<PressureChange>, time: real)
    requires changes != [] && Last(changes).observedAt <= time
    ensures ValueAt(changes, time) == Last(changes).value
  {
  }

  lemma IntegralUpToLast(changes: seq<PressureChange>, from: real)
    requires |changes| > 1 && from < Last(changes).observedAt
    ensures Integral(changes, from, Last(changes).observedAt) == Integral(Init(changes), from, Last(changes).observedAt)
  {
  }

  lemma FirstIsSummarized(change: PressureChange, from: real)
    requires change.observedAt <= from
    ensures Summarized([change], from, from, change.value, 0.0, change.value)
  {
    assert ValueAt([change], from) == change.value;
  }

  lemma SummaryExtends(seen: seq<PressureChange>, change: PressureChange, from: real, cursor: real, value: real,
                       total: real, maximum: real)
    requires Summarized(seen, from, cursor, value, total, maximum)
    requires Last(seen).observedAt < change.observedAt && from < change.observedAt
    ensures Summarized(seen + [change], from, change.observedAt, change.value,
                       total + Area(value, change.observedAt - cursor), Max(maximum, change.value))
  {
    hide Area;
    var longer := seen + [change];
    assert Last(longer) == change;
    IntegralUpToLast(longer, from);
    assert Init(longer) == seen;
    hide Integral, ValueAt, IsMaximum, Chronological;
    MaximumExtends(seen, change, from, cursor, maximum);
    IntegralExtends(seen, from, cursor, change.observedAt);
  }

  lemma SummaryCloses(changes: seq<PressureChange>, count: nat, from: real, cursor: real, to: real, value: real,
                      total: real, maximum: real)
    requires 0 < count <= |changes| && Chronological(changes)
    requires Summarized(changes[..count], from, cursor, value, total, maximum)
    requires from <= cursor <= to && (count < |changes| ==> to < changes[count].observedAt)
    ensures IsMaximum(changes, from, to, maximum)
    ensures Integral(changes, from, to) == total + Area(value, to - cursor)
    ensures ValueAt(changes, to) == value
  {
    hide Area, Integral, ValueAt;
    var seen := changes[..count];
    LastValueHolds(seen, to);
    MaximumHolds(seen, from, cursor, to, maximum);
    IntegralExtends(seen, from, cursor, to);
    LaterRecordsDoNotMatter(changes, count, from, to);
    var best :| from <= best <= to && ValueAt(seen, best) == maximum;
    assert ValueAt(changes, best) == maximum;
  }

  lemma AgreeingSummaries(left: seq<PressureChange>, right: seq<PressureChange>, from: real, to: real, maximum: real)
    requires left != [] && right != [] && from <= to && AgreeFrom(left, right, from)
    ensures Mean(left, from, to) == Mean(right, from, to)
    ensures IsMaximum(left, from, to, maximum) ==> IsMaximum(right, from, to, maximum)
  {
    if IsMaximum(left, from, to, maximum) {
      var best :| from <= best <= to && ValueAt(left, best) == maximum;
      assert ValueAt(right, best) == maximum;
    }
  }

  lemma AgreesWithItself(changes: seq<PressureChange>, since: real)
    requires changes != []
    ensures AgreeFrom(changes, changes, since)
  {
  }

  /** A later record adds one instant: the old maximum still stands below, and the new value joins it. */
  lemma MaximumExtends(changes: seq<PressureChange>, change: PressureChange, from: real, to: real, maximum: real)
    requires Covers(changes, from) && IsMaximum(changes, from, to, maximum)
    requires to == Max(from, Last(changes).observedAt) < change.observedAt
    ensures IsMaximum(changes + [change], from, change.observedAt, Max(maximum, change.value))
  {
    var longer := changes + [change];
    assert Init(longer) == changes;
    assert ValueAt(longer, change.observedAt) == change.value;
    var best :| from <= best <= to && ValueAt(changes, best) == maximum;
    assert ValueAt(longer, best) == maximum;
    assert ValueAt(changes, to) == Last(changes).value;
    forall time | from <= time <= change.observedAt
      ensures ValueAt(longer, time) <= Max(maximum, change.value)
    {
      if to <= time < change.observedAt { assert ValueAt(longer, time) == Last(changes).value; }
    }
  }

  lemma MaximumHolds(changes: seq<PressureChange>, from: real, middle: real, to: real, maximum: real)
    requires Covers(changes, from) && IsMaximum(changes, from, middle, maximum)
    requires middle == Max(from, Last(changes).observedAt) <= to
    ensures IsMaximum(changes, from, to, maximum)
  {
    assert ValueAt(changes, middle) == Last(changes).value;
    var best :| from <= best <= middle && ValueAt(changes, best) == maximum;
    forall time | from <= time <= to
      ensures ValueAt(changes, time) <= maximum
    {
      if middle <= time { assert ValueAt(changes, time) == Last(changes).value; }
    }
  }
}
