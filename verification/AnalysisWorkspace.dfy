/** The durable side of an analysis workspace: one directory of files per cycle and a pointer to the current cycle.
    Every file is written atomically, and a crash or a failed write may come between any two writes of an operation;
    the number of writes an operation gets to make is therefore one of its inputs. A process that is killed inside a
    write leaves its temporary file in the cycle's directory, where a manifest counts it: that is a change of the files,
    followed by a crash. */
module AnalysisWorkspace {
  import opened Wrappers

  datatype Proposal = Proposal(attempt: string, rules: string, manifest: string)

  datatype CandidateRecord = CandidateRecord(executable: string, createdAt: int, created: bool, manifest: string)

  datatype CycleOutcome =
    | Candidate(candidate: CandidateRecord)
    | NoChange | NoCandidate | Failure
    | Superseded(replacement: Option<string>)

  datatype Status = Active | Superseding | Terminal

  /** A cycle's files: its contract, whatever the agent has written, and the journal of its proposal. */
  datatype Cycle = Cycle(
    contract: string,
    evidence: string,
    status: Status,
    pending: Option<Proposal>,
    manifest: Option<string>,
    proposal: Option<Proposal>,
    candidate: Option<CandidateRecord>,
    outcome: Option<CycleOutcome>)

  datatype Workspace = Workspace(current: Option<string>, cycles: map<string, Cycle>)

  function NewCycle(contract: string): Cycle {
    Cycle(contract, "", Active, None, None, None, None, None)
  }

  predicate IsSealed(cycle: Cycle) {
    cycle.manifest.Some? || cycle.pending.Some?
  }

  // ---------------------------------------------------------------- the proposal

  /** The proposal record is published once the sealed manifest still describes the files. */
  function Publish(digestOf: string -> string, cycle: Cycle, writes: nat): (Cycle, Option<Proposal>)
    requires cycle.pending.Some? && cycle.manifest.Some?
  {
    if cycle.manifest.value != cycle.evidence || digestOf(cycle.manifest.value) != cycle.pending.value.manifest
    then (cycle, None)
    else if cycle.proposal.Some? then (cycle, if cycle.proposal == cycle.pending then cycle.pending else None)
    else if writes == 0 then (cycle, None)
    else (cycle.(proposal := cycle.pending), cycle.pending)
  }

  /** The first proposal of a cycle is sealed; afterwards only the same rules find it again. */
  function Prepare(digestOf: string -> string, cycle: Cycle, writable: bool, attempt: string, rules: string,
                   writes: nat)
    : (Cycle, Option<Proposal>)
  {
    if cycle.pending.Some? then
      if cycle.pending.value.rules != rules then (cycle, None)
      else if cycle.manifest.Some? then Publish(digestOf, cycle, writes)
      else if digestOf(cycle.evidence) != cycle.pending.value.manifest || writes == 0 then (cycle, None)
      else Publish(digestOf, cycle.(manifest := Some(cycle.evidence)), writes - 1)
    else if !writable || writes == 0 then (cycle, None)
    else
      var sealed := cycle.(pending := Some(Proposal(attempt, rules, digestOf(cycle.evidence))));
      if writes == 1 then (sealed, None)
      else Publish(digestOf, sealed.(manifest := Some(cycle.evidence)), writes - 2)
  }

  /** The candidate the service answered with; None when it does not fit what is recorded. */
  function Record(cycle: Cycle, record: CandidateRecord, writes: nat): (Cycle, bool) {
    if cycle.proposal.None? || cycle.proposal.value.manifest != record.manifest then (cycle, false)
    else if cycle.candidate.Some? then (cycle, cycle.candidate.value == record)
    else if writes == 0 then (cycle, false)
    else (cycle.(candidate := Some(record)), true)
  }

  // ---------------------------------------------------------------- completion

  predicate MatchesCandidate(cycle: Cycle, outcome: CycleOutcome) {
    outcome.Candidate? ==> cycle.candidate == Some(outcome.candidate)
  }

  function WithCycle(workspace: Workspace, id: string, cycle: Cycle): Workspace {
    workspace.(cycles := workspace.cycles[id := cycle])
  }

  /** A terminal outcome is never changed, and a Candidate outcome is the recorded candidate. The second result is how
      many writes are left once the outcome is there. */
  function Complete(cycle: Cycle, contract: string, outcome: CycleOutcome, writes: nat): (Cycle, Option<nat>) {
    if cycle.contract != contract then (cycle, None)
    else if cycle.outcome.Some? then (cycle, if cycle.outcome.value == outcome then Some(writes) else None)
    else if cycle.manifest.Some? then
      if cycle.manifest.value != cycle.evidence || !MatchesCandidate(cycle, outcome) || writes == 0 then (cycle, None)
      else (cycle.(outcome := Some(outcome)), Some(writes - 1))
    else if writes == 0 then (cycle, None)
    else
      var sealed := cycle.(manifest := Some(cycle.evidence));
      if !MatchesCandidate(cycle, outcome) || writes == 1 then (sealed, None)
      else (sealed.(outcome := Some(outcome)), Some(writes - 2))
  }

  /** A cycle with an outcome can be closed, also after a crash, if its files are still what was sealed. */
  predicate CanReconcile(cycle: Cycle) {
    && cycle.outcome.Some?
    && cycle.manifest == Some(cycle.evidence)
    && MatchesCandidate(cycle, cycle.outcome.value)
  }

  /** Closing writes the cycle's status, the schedule and the pointer, in this order. */
  function Reconciled(workspace: Workspace, id: string, writes: nat): (Workspace, Option<nat>)
    requires id in workspace.cycles
  {
    if !CanReconcile(workspace.cycles[id]) || writes == 0 then (workspace, None)
    else
      var closed := WithCycle(workspace, id, workspace.cycles[id].(status := Terminal));
      if writes < 3 then (closed, None) else (closed.(current := None), Some(writes - 3))
  }

  /** Completing a cycle decides its outcome and closes it; true when nothing is left to do. */
  function Close(workspace: Workspace, id: string, contract: string, outcome: CycleOutcome, writes: nat)
    : (Workspace, bool)
    requires id in workspace.cycles
  {
    var (completed, left) := Complete(workspace.cycles[id], contract, outcome, writes);
    var written := WithCycle(workspace, id, completed);
    if left.None? then (written, false)
    else
      var (closed, rest) := Reconciled(written, id, left.value);
      (closed, rest.Some?)
  }

  // ---------------------------------------------------------------- a new attempt

  /** A cycle of another contract is sealed, decided and closed, in this order. */
  function Supersede(cycle: Cycle, replacement: string, writes: nat): (Cycle, Option<nat>) {
    var sealing := if cycle.manifest.Some? then 0 else 1;
    if (cycle.manifest.Some? && cycle.manifest.value != cycle.evidence) || writes < sealing then (cycle, None)
    else
      var sealed := cycle.(manifest := Some(cycle.evidence));
      var decided := sealed.(outcome := Some(Superseded(Some(replacement))));
      if writes == sealing then (sealed, None)
      else if writes == sealing + 1 then (decided, None)
      else (decided.(status := Terminal), Some(writes - sealing - 2))
  }

  datatype Preparation = Ready(cycle: string) | NotEligible | Failed

  /** What a new attempt finds: a finished cycle is closed, a cycle of the same contract is resumed, a cycle of another
      contract is superseded, and a new cycle is opened when none is left and the schedule allows it. */
  function PrepareCycle(workspace: Workspace, contract: string, newId: string, eligible: bool, writes: nat)
    : (Workspace, Preparation)
    requires workspace.current.Some? ==> workspace.current.value in workspace.cycles
  {
    if workspace.current.None? then Opened(workspace, contract, newId, eligible, writes)
    else
      var id := workspace.current.value;
      var cycle := workspace.cycles[id];
      if cycle.outcome.Some? then
        var (closed, left) := Reconciled(workspace, id, writes);
        if left.None? then (closed, Failed) else Opened(closed, contract, newId, eligible, left.value)
      else if cycle.status.Terminal? then Released(workspace, contract, newId, eligible, writes)
      else if cycle.contract == contract then (workspace, Ready(id))
      else
        var (superseded, left) := Supersede(cycle, contract, writes);
        var written := WithCycle(workspace, id, superseded);
        if left.None? then (written, Failed) else Released(written, contract, newId, eligible, left.value)
  }

  /** The pointer lets go of the current cycle before another one is opened. */
  function Released(workspace: Workspace, contract: string, newId: string, eligible: bool, writes: nat)
    : (Workspace, Preparation)
  {
    if writes == 0 then (workspace, Failed)
    else Opened(workspace.(current := None), contract, newId, eligible, writes - 1)
  }

  /** The contract, the cycle and the attempt are written before the pointer. Stopped in between, the cycle's files are
      left behind and never referred to; a failed write removes them, as if it had stopped before the first one. */
  function Opened(workspace: Workspace, contract: string, newId: string, eligible: bool, writes: nat)
    : (Workspace, Preparation)
  {
    if !eligible then (workspace, NotEligible)
    else if newId in workspace.cycles || writes < 2 then (workspace, Failed)
    else
      var written := WithCycle(workspace, newId, NewCycle(contract));
      if writes < 4 then (written, Failed) else (written.(current := Some(newId)), Ready(newId))
  }

  // ---------------------------------------------------------------- what no operation undoes

  ghost predicate Keeps<T(!new)>(before: Option<T>, after: Option<T>) {
    before.Some? ==> after == before
  }

  /** A cycle's contract is fixed, and its proposal, candidate and outcome are written at most once. */
  ghost predicate OnlyAdds(before: Cycle, after: Cycle) {
    && after.contract == before.contract
    && Keeps(before.pending, after.pending)
    && Keeps(before.proposal, after.proposal)
    && Keeps(before.candidate, after.candidate)
    && Keeps(before.outcome, after.outcome)
  }

  ghost predicate Accumulates(before: Workspace, after: Workspace) {
    forall id <- before.cycles :: id in after.cycles && OnlyAdds(before.cycles[id], after.cycles[id])
  }

  /** The journal of one cycle is consistent: the published proposal is the sealed one, the candidate answers it, and
      a Candidate outcome is the recorded candidate. */
  ghost predicate Consistent(cycle: Cycle) {
    && (cycle.proposal.Some? ==> cycle.proposal == cycle.pending)
    && (cycle.candidate.Some? ==>
        cycle.proposal.Some? && cycle.candidate.value.manifest == cycle.pending.value.manifest)
    && (cycle.outcome.Some? ==> MatchesCandidate(cycle, cycle.outcome.value))
  }

  lemma PreparingKeeps(digestOf: string -> string, cycle: Cycle, writable: bool, attempt: string, rules: string,
                       writes: nat)
    requires Consistent(cycle)
    ensures var (after, proposal) := Prepare(digestOf, cycle, writable, attempt, rules, writes);
            && Consistent(after) && OnlyAdds(cycle, after)
            && after.candidate == cycle.candidate && after.outcome == cycle.outcome
            && (proposal.Some? ==>
                after.pending == proposal && after.proposal == proposal && proposal.value.rules == rules)
            && (after.pending != cycle.pending ==>
                after.pending == Some(Proposal(attempt, rules, digestOf(cycle.evidence))))
  {
  }

  /** Once sealed, a retry with the same rules over unchanged files gets the sealed proposal back, whatever attempt
      makes it and wherever the first one stopped. */
  lemma SealedProposalIsFoundAgain(digestOf: string -> string, cycle: Cycle, writable: bool, attempt: string,
                                   rules: string, writes: nat, again: string, enough: nat)
    requires !IsSealed(cycle) && cycle.proposal.None? && writable && writes > 0 && enough >= 2
    ensures var sealed := Prepare(digestOf, cycle, writable, attempt, rules, writes).0;
            Prepare(digestOf, sealed, false, again, rules, enough).1
              == Some(Proposal(attempt, rules, digestOf(cycle.evidence)))
  {
  }

  /** Exactly when a sealed proposal is found again: the rules are the sealed ones, and the sealed manifest, or what
      would be sealed now if the first attempt stopped before sealing it, is the one the proposal names. */
  lemma SealedProposalIsFoundExactlyIf(digestOf: string -> string, cycle: Cycle, writable: bool, attempt: string,
                                       rules: string, writes: nat)
    requires Consistent(cycle) && cycle.pending.Some? && writes >= 2
    ensures Prepare(digestOf, cycle, writable, attempt, rules, writes).1.Some? <==>
            && rules == cycle.pending.value.rules
            && (cycle.manifest.Some? ==> cycle.manifest.value == cycle.evidence)
            && digestOf(cycle.evidence) == cycle.pending.value.manifest
    ensures cycle.manifest.None? && rules == cycle.pending.value.rules ==>
              (Prepare(digestOf, cycle, writable, attempt, rules, writes).1.Some? <==>
                 digestOf(cycle.evidence) == cycle.pending.value.manifest)
  {
  }

  /** An attempt that stops between sealing the proposal and sealing the manifest, and files that change before the next
      one: the proposal is never found again, however often and with whatever rules it is asked for. */
  lemma ChangedFilesLoseTheProposal(digestOf: string -> string, contract: string, attempt: string, rules: string,
                                    evidence: string, writable: bool, again: string, other: string, enough: nat)
    requires digestOf(evidence) != digestOf("")
    ensures var sealed := Prepare(digestOf, NewCycle(contract), true, attempt, rules, 1).0;
            && Consistent(sealed) && sealed.pending == Some(Proposal(attempt, rules, digestOf("")))
            && Prepare(digestOf, sealed, false, again, rules, 2).1 == sealed.pending
            && Prepare(digestOf, sealed.(evidence := evidence), writable, again, other, enough)
                 == (sealed.(evidence := evidence), None)
  {
  }

  /** Once the files differ from the sealed manifest, by a temporary file that was left behind or otherwise, a cycle
      that is not finished can be resumed by its own contract, but it gets no proposal and no outcome any more; and no
      other contract gets past it. */
  lemma ChangedSealIsFinal(digestOf: string -> string, workspace: Workspace, id: string, writable: bool,
                           attempt: string, rules: string, contract: string, outcome: CycleOutcome, newId: string,
                           eligible: bool, writes: nat)
    requires id in workspace.cycles && workspace.current == Some(id)
    requires var cycle := workspace.cycles[id];
             && cycle.manifest.Some? && cycle.manifest.value != cycle.evidence && !cycle.status.Terminal?
             && (cycle.pending.Some? || !writable)
    ensures var cycle := workspace.cycles[id];
            && Prepare(digestOf, cycle, writable, attempt, rules, writes) == (cycle, None)
            && Supersede(cycle, contract, writes) == (cycle, None)
            && Close(workspace, id, contract, outcome, writes) == (workspace, false)
            && PrepareCycle(workspace, contract, newId, eligible, writes)
                 == (workspace, if cycle.outcome.None? && cycle.contract == contract then Ready(id) else Failed)
  {
    LastWriteWins(workspace, id);
  }

  lemma RecordingKeeps(cycle: Cycle, record: CandidateRecord, writes: nat)
    requires Consistent(cycle)
    ensures var (after, done) := Record(cycle, record, writes);
            && Consistent(after) && OnlyAdds(cycle, after)
            && after.pending == cycle.pending && after.outcome == cycle.outcome
            && (done ==> after.candidate == Some(record))
            && (after.candidate != cycle.candidate ==> after.candidate == Some(record))
  {
  }

  /** Exactly when an answer is recorded: it must equal, in every field, the candidate that is recorded already; without
      one it must be for the published proposal. */
  lemma AnswerIsRecordedExactlyIf(cycle: Cycle, record: CandidateRecord, writes: nat)
    requires Consistent(cycle) && writes > 0
    ensures cycle.candidate.Some? ==> (Record(cycle, record, writes).1 <==> cycle.candidate == Some(record))
    ensures cycle.candidate.None? ==>
              (Record(cycle, record, writes).1 <==>
                 cycle.proposal.Some? && cycle.proposal.value.manifest == record.manifest)
  {
  }

  lemma CompletingKeeps(cycle: Cycle, contract: string, outcome: CycleOutcome, writes: nat)
    requires Consistent(cycle)
    ensures var (after, left) := Complete(cycle, contract, outcome, writes);
            && Consistent(after) && OnlyAdds(cycle, after)
            && after.pending == cycle.pending && after.candidate == cycle.candidate
            && (after.outcome != cycle.outcome ==> after.outcome == Some(outcome) && cycle.contract == contract)
            && (left.Some? ==> after.outcome == Some(outcome))
  {
  }

  ghost predicate AllConsistent(workspace: Workspace) {
    && (workspace.current.Some? ==> workspace.current.value in workspace.cycles)
    && forall id <- workspace.cycles :: Consistent(workspace.cycles[id])
  }

  /** Opening an attempt touches a cycle only to close it, and to supersede it if its contract has moved on. */
  ghost predicate OnlyCloses(before: Workspace, after: Workspace, contract: string) {
    && AllConsistent(after) && Accumulates(before, after)
    && forall id <- after.cycles ::
         if id in before.cycles
         then && after.cycles[id].pending == before.cycles[id].pending
              && after.cycles[id].candidate == before.cycles[id].candidate
              && (after.cycles[id].outcome == before.cycles[id].outcome || after.cycles[id].outcome.value.Superseded?)
         else after.cycles[id] == NewCycle(contract)
  }

  lemma OpeningOnlyAdds(before: Workspace, workspace: Workspace, contract: string, newId: string, eligible: bool,
                        writes: nat)
    requires OnlyCloses(before, workspace, contract) && workspace.cycles.Keys == before.cycles.Keys
    ensures var (after, preparation) := Opened(workspace, contract, newId, eligible, writes);
            && OnlyCloses(before, after, contract)
            && (preparation.Ready? ==> preparation.cycle == newId && after.current == Some(newId)
                                       && newId in after.cycles && after.cycles[newId] == NewCycle(contract))
  {
    hide MatchesCandidate;
  }

  lemma NothingCloses(workspace: Workspace, contract: string)
    requires AllConsistent(workspace)
    ensures OnlyCloses(workspace, workspace, contract)
  {
  }

  /** Writing one cycle and moving the pointer off it, or not yet. */
  lemma ClosingOnlyAdds(workspace: Workspace, id: string, closed: Cycle, contract: string)
    requires AllConsistent(workspace) && id in workspace.cycles
    requires Consistent(closed) && OnlyAdds(workspace.cycles[id], closed)
    requires closed.pending == workspace.cycles[id].pending && closed.candidate == workspace.cycles[id].candidate
    requires closed.outcome == workspace.cycles[id].outcome || closed.outcome.value.Superseded?
    ensures OnlyCloses(workspace, WithCycle(workspace, id, closed), contract)
    ensures OnlyCloses(workspace, WithCycle(workspace, id, closed).(current := None), contract)
    ensures WithCycle(workspace, id, closed).cycles.Keys == workspace.cycles.Keys
  {
    hide MatchesCandidate;
  }

  lemma SupersedingOnlyAdds(cycle: Cycle, replacement: string, writes: nat)
    requires Consistent(cycle) && cycle.outcome.None?
    ensures var superseded := Supersede(cycle, replacement, writes).0;
            && Consistent(superseded) && OnlyAdds(cycle, superseded)
            && superseded.pending == cycle.pending && superseded.candidate == cycle.candidate
            && (superseded.outcome.Some? ==> superseded.outcome.value.Superseded?)
  {
  }

  /** Wherever opening an attempt stops, it has only closed cycles and added one of its own; a cycle it makes ready is
      unfinished and of the caller's contract. */
  lemma PreparingCycleKeeps(workspace: Workspace, contract: string, newId: string, eligible: bool, writes: nat)
    requires AllConsistent(workspace)
    ensures var (after, preparation) := PrepareCycle(workspace, contract, newId, eligible, writes);
            && OnlyCloses(workspace, after, contract)
            && (preparation.Ready? ==>
                  && after.current == Some(preparation.cycle)
                  && preparation.cycle in after.cycles && after.cycles[preparation.cycle].contract == contract
                  && after.cycles[preparation.cycle].outcome.None? && !after.cycles[preparation.cycle].status.Terminal?)
  {
    hide Opened, OnlyCloses, Supersede, WithCycle, CanReconcile;
    assert OnlyCloses(workspace, workspace, contract) by { NothingCloses(workspace, contract); }
    if workspace.current.None? {
      OpeningOnlyAdds(workspace, workspace, contract, newId, eligible, writes);
    } else {
      var id := workspace.current.value;
      var cycle := workspace.cycles[id];
      if cycle.outcome.Some? {
        var (closed, left) := Reconciled(workspace, id, writes);
        ClosingOnlyAdds(workspace, id, cycle.(status := Terminal), contract);
        if left.Some? { OpeningOnlyAdds(workspace, closed, contract, newId, eligible, left.value); }
      } else if cycle.status.Terminal? {
        ClosingOnlyAdds(workspace, id, cycle, contract);
        ReleasingOnlyAdds(workspace, workspace, contract, newId, eligible, writes);
      } else if cycle.contract != contract {
        var (superseded, left) := Supersede(cycle, contract, writes);
        SupersedingOnlyAdds(cycle, contract, writes);
        ClosingOnlyAdds(workspace, id, superseded, contract);
        if left.Some? {
          ReleasingOnlyAdds(workspace, WithCycle(workspace, id, superseded), contract, newId, eligible, left.value);
        }
      }
    }
  }

  lemma ReleasingOnlyAdds(before: Workspace, workspace: Workspace, contract: string, newId: string, eligible: bool,
                          writes: nat)
    requires OnlyCloses(before, workspace, contract) && workspace.cycles.Keys == before.cycles.Keys
    ensures var (after, preparation) := Released(workspace, contract, newId, eligible, writes);
            && OnlyCloses(before, after, contract)
            && (preparation.Ready? ==> preparation.cycle == newId && after.current == Some(newId)
                                       && newId in after.cycles && after.cycles[newId] == NewCycle(contract))
  {
    hide Opened, MatchesCandidate;
    if writes > 0 {
      OpeningOnlyAdds(before, workspace.(current := None), contract, newId, eligible, writes - 1);
    }
  }

  // ---------------------------------------------------------------- recovery from every write boundary

  lemma LastWriteWins(workspace: Workspace, id: string)
    requires id in workspace.cycles
    ensures WithCycle(workspace, id, workspace.cycles[id]) == workspace
    ensures forall first: Cycle, second: Cycle ::
              WithCycle(WithCycle(workspace, id, first), id, second) == WithCycle(workspace, id, second)
  {
    var same := workspace.cycles[id := workspace.cycles[id]];
    assert same == workspace.cycles;
    forall first: Cycle, second: Cycle
      ensures WithCycle(WithCycle(workspace, id, first), id, second) == WithCycle(workspace, id, second)
    {
      assert workspace.cycles[id := first][id := second] == workspace.cycles[id := second];
    }
  }

  /** An attempt that stops anywhere while it closes or supersedes what it finds is finished by the next one: the
      workspace comes out as if the first had not been stopped. */
  lemma InterruptedPreparationIsFinished(workspace: Workspace, contract: string, newId: string, writes: nat,
                                         again: string, enough: nat)
    requires workspace.current.Some? ==> workspace.current.value in workspace.cycles
    requires enough >= 4
    ensures var stopped := PrepareCycle(workspace, contract, newId, false, writes).0;
            && (stopped.current.Some? ==> stopped.current.value in stopped.cycles)
            && PrepareCycle(stopped, contract, again, false, enough)
                == PrepareCycle(workspace, contract, newId, false, enough)
  {
    if workspace.current.Some? { LastWriteWins(workspace, workspace.current.value); }
  }

  /** A completion that stops after deciding the outcome is finished by the next attempt, whoever makes it. */
  lemma InterruptedCompletionIsFinished(workspace: Workspace, id: string, contract: string, outcome: CycleOutcome,
                                        writes: nat, claimer: string, newId: string, enough: nat)
    requires workspace.current == Some(id) && id in workspace.cycles && workspace.cycles[id].outcome.None?
    requires Close(workspace, id, contract, outcome, writes).0.cycles[id].outcome.Some?
    requires enough >= 3
    ensures var stopped := Close(workspace, id, contract, outcome, writes).0;
            PrepareCycle(stopped, claimer, newId, false, enough)
              == (Close(workspace, id, contract, outcome, 5).0, NotEligible)
    ensures Close(workspace, id, contract, outcome, 5).1
  {
    LastWriteWins(workspace, id);
    LastWriteWins(Close(workspace, id, contract, outcome, writes).0, id);
  }

  lemma DecidingIsRestartable(cycle: Cycle, contract: string, outcome: CycleOutcome, writes: nat, enough: nat)
    requires enough >= 5
    ensures var again := Complete(Complete(cycle, contract, outcome, writes).0, contract, outcome, enough);
            var once := Complete(cycle, contract, outcome, enough);
            && again.0 == once.0
            && (again.1.Some? <==> once.1.Some?)
            && (once.1.Some? ==> again.1.value >= 3 && once.1.value >= 3)
  {
  }

  /** A completion tried again ends as one that was never stopped. */
  lemma InterruptedCompletionIsRestartable(workspace: Workspace, id: string, contract: string, outcome: CycleOutcome,
                                           writes: nat, enough: nat)
    requires id in workspace.cycles && enough >= 5
    ensures Close(Close(workspace, id, contract, outcome, writes).0, id, contract, outcome, enough)
              == Close(workspace, id, contract, outcome, enough)
  {
    var cycle := workspace.cycles[id];
    var stopped := Close(workspace, id, contract, outcome, writes).0;
    DecidingIsRestartable(cycle, contract, outcome, writes, enough);
    LastWriteWins(workspace, id);
    LastWriteWins(stopped, id);
    if Complete(cycle, contract, outcome, writes).1.None? {
      hide Complete;
      assert stopped == WithCycle(workspace, id, Complete(cycle, contract, outcome, writes).0);
    } else {
      InterruptedClosingIsRestartable(workspace, id, contract, outcome, writes, enough);
    }
  }

  lemma InterruptedClosingIsRestartable(workspace: Workspace, id: string, contract: string, outcome: CycleOutcome,
                                        writes: nat, enough: nat)
    requires id in workspace.cycles && enough >= 5
    requires Complete(workspace.cycles[id], contract, outcome, writes).1.Some?
    ensures Close(Close(workspace, id, contract, outcome, writes).0, id, contract, outcome, enough)
              == Close(workspace, id, contract, outcome, enough)
  {
    LastWriteWins(workspace, id);
    LastWriteWins(Close(workspace, id, contract, outcome, writes).0, id);
  }

  // ---------------------------------------------------------------- an attempt that is not stopped

  /** With no cycle in the way, a new one is opened exactly if the schedule allows it. */
  function WithNewCycle(workspace: Workspace, contract: string, newId: string, eligible: bool): (Workspace, Preparation)
  {
    if eligible then (WithCycle(workspace, newId, NewCycle(contract)).(current := Some(newId)), Ready(newId))
    else (workspace, NotEligible)
  }

  /** What a new attempt does with the current cycle when none of its writes fails. A decided cycle is closed, and an
      undecided one of another contract is sealed, superseded by the new contract and closed, unless its files are no
      longer what was sealed; an undecided one of the same contract is resumed as it is. */
  lemma PreparationInFull(workspace: Workspace, id: string, contract: string, newId: string, eligible: bool,
                          writes: nat)
    requires workspace.current == Some(id) && id in workspace.cycles && newId !in workspace.cycles && writes >= 8
    ensures var cycle := workspace.cycles[id];
            var released := workspace.(current := None);
            var closed := WithCycle(released, id, cycle.(status := Terminal));
            var superseded := cycle.(manifest := Some(cycle.evidence), outcome := Some(Superseded(Some(contract))),
                                     status := Terminal);
            PrepareCycle(workspace, contract, newId, eligible, writes)
              == if cycle.outcome.Some? then
                   if cycle.manifest == Some(cycle.evidence)
                      && (cycle.outcome.value.Candidate? ==> cycle.candidate == Some(cycle.outcome.value.candidate))
                   then WithNewCycle(closed, contract, newId, eligible) else (workspace, Failed)
                 else if cycle.status.Terminal? then WithNewCycle(released, contract, newId, eligible)
                 else if cycle.contract == contract then (workspace, Ready(id))
                 else if cycle.manifest.Some? && cycle.manifest != Some(cycle.evidence) then (workspace, Failed)
                 else WithNewCycle(WithCycle(released, id, superseded), contract, newId, eligible)
  {
    LastWriteWins(workspace, id);
  }

  lemma FirstPreparationInFull(workspace: Workspace, contract: string, newId: string, eligible: bool, writes: nat)
    requires workspace.current.None? && newId !in workspace.cycles && writes >= 4
    ensures PrepareCycle(workspace, contract, newId, eligible, writes)
              == WithNewCycle(workspace, contract, newId, eligible)
  {
  }
}
