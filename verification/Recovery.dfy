/** How a cycle is decided: the recovery of a sealed proposal and the agent's report, each left to itself, and the one
    case in which no recovery ever decides a cycle. */
module Recovery {
  import opened Wrappers
  import opened AnalysisWorkspace
  import opened SealedProposal
  import Authority = AuthorityStores

  /** What happens after a moment of a run. */
  ghost function Continued(setting: Setting, system: System, events: seq<Event>): (after: System)
    requires Inv(setting, system)
    ensures Inv(setting, after)
    decreases |events|
  {
    if events == [] then system
    else
      EveryEventKeeps(setting, system, events[0]);
      Continued(setting, After(setting, system, events[0]), events[1..])
  }

  lemma OneEvent(setting: Setting, system: System, event: Event, events: seq<Event>)
    requires Inv(setting, system)
    ensures AllCyclesExist(system) && Inv(setting, After(setting, system, event))
    ensures Continued(setting, system, [event] + events) == Continued(setting, After(setting, system, event), events)
  {
    hide Inv, After;
    EveryEventKeeps(setting, system, event);
    assert ([event] + events)[0] == event && ([event] + events)[1..] == events;
  }

  // ---------------------------------------------------------------- rules are never empty

  /** A sealed proposal, and a call about to seal one, has rules. */
  ghost predicate HasRules(system: System) {
    && (forall id <- system.workspace.cycles ::
          system.workspace.cycles[id].pending.Some? ==> system.workspace.cycles[id].pending.value.rules != "")
    && (system.lease.Some? ==>
          forall id <- system.lease.value.calls ::
            system.lease.value.calls[id].Prepares? ==> system.lease.value.calls[id].rules != "")
  }

  lemma EventKeepsRules(setting: Setting, system: System, event: Event)
    requires Inv(setting, system) && HasRules(system)
    ensures AllCyclesExist(system) && HasRules(After(setting, system, event))
  {
    hide Inv, PrepareCycle, AfterCall, AfterCoordinator, CanMove;
    CyclesExist(setting, system);
    AllAreConsistent(setting, system);
    match event
    case Claim(contract, attempt, newId, eligible, writes) =>
      PreparingCycleKeeps(system.workspace, contract, newId, eligible, writes);
    case StepCall(id, writes, now) =>
      if system.lease.Some? && id in system.lease.value.calls {
        CallKeepsRules(setting, system, system.lease.value, id, writes, now);
      }
    case StepCoordinator(writes) =>
      if system.lease.Some? && system.lease.value.phase.Some? {
        CoordinatorKeepsRules(setting, system, system.lease.value, system.lease.value.phase.value, writes);
      }
    case _ =>
  }

  lemma CallKeepsRules(setting: Setting, system: System, lease: Lease, id: nat, writes: nat, now: int)
    requires AllConsistent(system.workspace) && system.lease == Some(lease) && id in lease.calls && HasRules(system)
    requires lease.cycle in system.workspace.cycles
    ensures HasRules(AfterCall(setting, system, lease, id, writes, now))
  {
    hide Prepare, Record, Answer, Consistent, OnlyAdds, Authority.PutAnalysisCandidate, CurrentDigest;
    var cycle := system.workspace.cycles[lease.cycle];
    CycleIsConsistent(system.workspace, lease.cycle);
    match lease.calls[id]
    case Prepares(rules) =>
      PreparingKeeps(setting.digestOf, cycle, lease.writable, lease.attempt, rules, writes);
    case Records(record) => RecordingKeeps(cycle, record, writes);
    case _ =>
  }

  lemma CoordinatorKeepsRules(setting: Setting, system: System, lease: Lease, phase: Phase, writes: nat)
    requires AllConsistent(system.workspace) && system.lease == Some(lease) && lease.phase == Some(phase)
    requires lease.cycle in system.workspace.cycles && HasRules(system)
    ensures HasRules(AfterCoordinator(setting, system, lease, phase, writes))
  {
    hide Close, Consistent, OnlyAdds, CurrentDigest;
    if phase.Completes? { ClosingKeepsProposals(system.workspace, lease.cycle, lease.contract, phase.outcome, writes); }
  }

  lemma ClosingKeepsProposals(workspace: Workspace, id: string, contract: string, outcome: CycleOutcome, writes: nat)
    requires id in workspace.cycles
    ensures var after := Close(workspace, id, contract, outcome, writes).0;
            && after.cycles.Keys == workspace.cycles.Keys
            && forall other <- after.cycles :: after.cycles[other].pending == workspace.cycles[other].pending
  {
    hide MatchesCandidate;
  }

  /** In every run a sealed proposal has rules. */
  lemma {:induction false} RunHasRules(setting: Setting, start: System, events: seq<Event>)
    requires IsFresh(setting, start)
    ensures HasRules(Run(setting, start, events))
  {
    hide Inv, After, HasRules;
    if events == [] {
      FreshHasRules(setting, start);
    } else {
      var before := events[..|events| - 1];
      RunHasRules(setting, start, before);
      EventKeepsRules(setting, Run(setting, start, before), events[|events| - 1]);
    }
  }

  lemma FreshHasRules(setting: Setting, start: System)
    requires IsFresh(setting, start)
    ensures HasRules(start)
  {
  }

  // ---------------------------------------------------------------- a recovery left to itself

  /** What the sealed rules of a cycle compile to. */
  function SealedExecutable(setting: Setting, cycle: Cycle): string
    requires cycle.pending.Some?
  {
    setting.compile(cycle.contract, cycle.pending.value.rules)
  }

  /** The service still takes the sealed proposal, or has taken it: its candidate is admitted under the cycle, or the
      executable is not stored yet, or still waits. */
  predicate IsDecidable(setting: Setting, service: Authority.Stores, id: string, cycle: Cycle)
    requires cycle.pending.Some?
  {
    var executable := SealedExecutable(setting, cycle);
    || (setting.workspaceId, id) in service.admissions
    || executable !in service.executables
    || service.executables[executable].state == Authority.Candidate
  }

  /** A new attempt has found a sealed proposal; the contract is current, and the files are as they were sealed. */
  ghost predicate IsRecovering(setting: Setting, system: System, lease: Lease) {
    && Inv(setting, system) && HasRules(system) && system.lease == Some(lease)
    && lease.phase == Some(ChecksPending) && lease.active && lease.calls == map[]
    && CurrentDigest(setting, system.service) == Some(lease.contract)
    && lease.cycle in system.workspace.cycles
    && var cycle := system.workspace.cycles[lease.cycle];
       && cycle.pending.Some? && cycle.outcome.None?
       && (cycle.manifest.Some? ==> cycle.manifest.value == cycle.evidence)
       && setting.digestOf(cycle.evidence) == cycle.pending.value.manifest
  }

  /** Nothing happens but the attempt's own steps, and no write fails. */
  function Undisturbed(now: int): seq<Event> {
    Asking(now) + Submitting(RECOVERY, now) + Completing()
  }

  function Asking(now: int): seq<Event> {
    [StepCoordinator(0)] + ([StepCall(RECOVERY, 0, now)] + [StepCall(RECOVERY, 2, now)])
  }

  function Submitting(id: nat, now: int): seq<Event> {
    [StepCall(id, 0, now)] + ([StepCall(id, 0, now)] + [StepCall(id, 1, now)])
  }

  function Completing(): seq<Event> {
    [StepCoordinator(0)] + ([StepCoordinator(0)] + [StepCoordinator(5)])
  }

  lemma ThreeEvents(setting: Setting, system: System, one: Event, two: Event, three: Event)
    requires Inv(setting, system)
    ensures AllCyclesExist(system)
    ensures var first := After(setting, system, one);
            && Inv(setting, first) && AllCyclesExist(first)
            && var second := After(setting, first, two);
               && Inv(setting, second) && AllCyclesExist(second)
               && Continued(setting, system, [one] + ([two] + [three])) == After(setting, second, three)
  {
    hide Inv, After;
    CyclesExist(setting, system);
    var first := After(setting, system, one);
    OneEvent(setting, system, one, [two] + [three]);
    OneEvent(setting, first, two, [three]);
    assert [three] + [] == [three];
    OneEvent(setting, After(setting, first, two), three, []);
  }

  lemma {:induction false} ContinuedTwice(setting: Setting, system: System, events: seq<Event>, more: seq<Event>)
    requires Inv(setting, system)
    ensures Continued(setting, system, events + more)
              == Continued(setting, Continued(setting, system, events), more)
    decreases |events|
  {
    hide Inv, After;
    if events == [] {
      assert events + more == more;
    } else {
      EveryEventKeeps(setting, system, events[0]);
      assert (events + more)[0] == events[0] && (events + more)[1..] == events[1..] + more;
      ContinuedTwice(setting, After(setting, system, events[0]), events[1..], more);
    }
  }

  /** One cycle and the only call about it. */
  function Calling(system: System, lease: Lease, cycle: Cycle, id: nat, call: Call): System {
    system.(workspace := WithCycle(system.workspace, lease.cycle, cycle),
            lease := Some(lease.(calls := map[id := call], writable := false)))
  }

  function Recovering(lease: Lease): Lease {
    lease.(phase := Some(Recovers))
  }

  function Published(cycle: Cycle): Cycle
    requires cycle.pending.Some?
  {
    cycle.(manifest := Some(cycle.evidence), proposal := cycle.pending)
  }

  /** The proposal is found again under its own rules, whoever asks for it. */
  lemma AskingFinds(setting: Setting, system: System, lease: Lease, now: int)
    requires IsRecovering(setting, system, lease)
    ensures var cycle := system.workspace.cycles[lease.cycle];
            Continued(setting, system, Asking(now))
              == Calling(system, Recovering(lease), Published(cycle), RECOVERY, ChecksRecord(cycle.pending.value))
  {
    hide Inv, CurrentDigest;
    var cycle := system.workspace.cycles[lease.cycle];
    var rules := cycle.pending.value.rules;
    ThreeEvents(setting, system, StepCoordinator(0), StepCall(RECOVERY, 0, now), StepCall(RECOVERY, 2, now));
    OnlyCall(RECOVERY, Asked(rules), Prepares(rules));
    OnlyCall(RECOVERY, Prepares(rules), ChecksRecord(cycle.pending.value));
    AllAreConsistent(setting, system);
    CycleIsConsistent(system.workspace, lease.cycle);
    assert Prepare(setting.digestOf, cycle, lease.writable, lease.attempt, rules, 2)
        == (Published(cycle), cycle.pending);
  }

  lemma OnlyCall(id: nat, first: Call, second: Call)
    ensures map[][id := first] == map[id := first]
    ensures map[id := first][id := second] == map[id := second]
    ensures map[id := first] - {id} == map[]
  {
  }

  /** The attempt's lease once its only call is over. */
  function Given(lease: Lease): Lease {
    lease.(calls := map[], phase := if lease.phase == Some(Recovers) then None else lease.phase, writable := false)
  }

  /** What the service answers to the sealed proposal: the candidate it has under the cycle, a new one, or nothing. */
  function ServiceAnswer(setting: Setting, service: Authority.Stores, id: string, contract: string, proposal: Proposal,
                         now: int)
    : (Authority.Stores, Option<CandidateRecord>)
  {
    var admission := AdmissionOf(setting, id, contract, proposal, now);
    var (after, outcome) :=
      Authority.PutAnalysisCandidate(service, admission, setting.artifactOf(admission.executable));
    (after, Answer(service, admission, outcome))
  }

  /** The service answers with a candidate exactly if the cycle is decidable. */
  lemma AnswersExactlyIf(setting: Setting, system: System, lease: Lease, now: int)
    requires Inv(setting, system) && system.lease == Some(lease) && lease.cycle in system.workspace.cycles
    requires system.workspace.cycles[lease.cycle].pending.Some?
    requires system.workspace.cycles[lease.cycle].contract == lease.contract
    ensures var cycle := system.workspace.cycles[lease.cycle];
            var (service, answer) :=
              ServiceAnswer(setting, system.service, lease.cycle, lease.contract, cycle.pending.value, now);
            && (answer.Some? <==> IsDecidable(setting, system.service, lease.cycle, cycle))
            && (answer.Some? ==>
                  && answer.value.manifest == cycle.pending.value.manifest
                  && answer.value.executable == SealedExecutable(setting, cycle))
            && service.current == system.service.current
            && (answer.None? ==> service == system.service)
  {
    hide AllConsistent, PhaseHolds, CycleHolds, CallHolds;
    var key := (setting.workspaceId, lease.cycle);
    if key in system.service.admissions {
      assert IsSealedAdmission(setting, system.workspace, lease.cycle, system.service.admissions[key]);
    }
  }

  /** With a recorded candidate the call returns it; otherwise the service is asked, and its answer is recorded. */
  lemma SubmittingEnds(setting: Setting, system: System, lease: Lease, cycle: Cycle, id: nat, now: int)
    requires cycle.pending.Some? && cycle.proposal == cycle.pending && Consistent(cycle)
    requires cycle.contract == lease.contract && lease.active
    requires CurrentDigest(setting, system.service) == Some(lease.contract)
    requires lease.cycle in system.workspace.cycles
    requires Inv(setting, Calling(system, lease, cycle, id, ChecksRecord(cycle.pending.value)))
    ensures var before := Calling(system, lease, cycle, id, ChecksRecord(cycle.pending.value));
            var after := Continued(setting, before, Submitting(id, now));
            var proposal := cycle.pending.value;
            var submission := Submission(lease.cycle, proposal.attempt, proposal.rules, proposal.manifest);
            var (service, answer) := ServiceAnswer(setting, system.service, lease.cycle, lease.contract, proposal, now);
            if cycle.candidate.Some? then after == Calling(system, lease, cycle, id, Returned(cycle.candidate.value))
            else
              var asked := system.(service := service, submissions := system.submissions + [submission]);
              if answer.Some?
              then after == Calling(asked, lease, cycle.(candidate := answer), id, Returned(answer.value))
              else after == asked.(workspace := before.workspace, lease := Some(Given(lease)))
  {
    hide Inv, Authority.PutAnalysisCandidate, Answer;
    var proposal := cycle.pending.value;
    var before := Calling(system, lease, cycle, id, ChecksRecord(proposal));
    var (service, answer) := ServiceAnswer(setting, system.service, lease.cycle, lease.contract, proposal, now);
    ThreeEvents(setting, before, StepCall(id, 0, now), StepCall(id, 0, now), StepCall(id, 1, now));
    OnlyCall(id, ChecksRecord(proposal), Submits(proposal));
    AnswerNamesTheManifest(setting, system.service, lease.cycle, lease.contract, proposal, now);
    if cycle.candidate.Some? {
      OnlyCall(id, ChecksRecord(proposal), Returned(cycle.candidate.value));
    } else if answer.Some? {
      OnlyCall(id, Submits(proposal), Records(answer.value));
      OnlyCall(id, Records(answer.value), Returned(answer.value));
      LastWriteWins(before.workspace, lease.cycle);
      LastWriteWins(system.workspace, lease.cycle);
    }
  }

  lemma AnswerNamesTheManifest(setting: Setting, service: Authority.Stores, id: string, contract: string,
                               proposal: Proposal, now: int)
    ensures var (after, answer) := ServiceAnswer(setting, service, id, contract, proposal, now);
            answer.Some? ==> answer.value.manifest == proposal.manifest
  {
  }

  /** A returned candidate is confirmed and completes the cycle. */
  lemma CompletingDecides(setting: Setting, system: System, lease: Lease, cycle: Cycle)
    requires cycle.candidate.Some? && cycle.outcome.None? && cycle.manifest == Some(cycle.evidence)
    requires cycle.contract == lease.contract && lease.active && lease.cycle in system.workspace.cycles
    requires CurrentDigest(setting, system.service) == Some(lease.contract)
    requires Inv(setting, Calling(system, Recovering(lease), cycle, RECOVERY, Returned(cycle.candidate.value)))
    ensures var before := Calling(system, Recovering(lease), cycle, RECOVERY, Returned(cycle.candidate.value));
            var after := Continued(setting, before, Completing());
            && after.service == system.service && after.lease.Some?
            && after.lease.value.phase.None? && !after.lease.value.active
            && after.workspace == WithCycle(system.workspace, lease.cycle,
                                            cycle.(outcome := Some(Candidate(cycle.candidate.value)), status :=
                                                   Terminal))
                                    .(current := None)
  {
    hide Inv, CurrentDigest;
    var before := Calling(system, Recovering(lease), cycle, RECOVERY, Returned(cycle.candidate.value));
    ThreeEvents(setting, before, StepCoordinator(0), StepCoordinator(0), StepCoordinator(5));
    LastWriteWins(system.workspace, lease.cycle);
    LastWriteWins(before.workspace, lease.cycle);
  }

  /** A lease without calls and phases: its coordinator has given up, and nothing more comes of it. */
  lemma GivenUpStays(setting: Setting, system: System, lease: Lease)
    requires Inv(setting, system) && system.lease == Some(Given(Recovering(lease)))
    ensures Continued(setting, system, Completing()) == system
  {
    hide Inv;
    ThreeEvents(setting, system, StepCoordinator(0), StepCoordinator(0), StepCoordinator(5));
  }

  /** Left to itself, with the service reachable, the files unchanged and the contract current, a recovery completes the
      cycle as Candidate, with what its sealed rules compile to, exactly if the cycle is decidable. Otherwise it gives
      up without a candidate and without an outcome. */
  lemma RecoveryDecidesExactlyIf(setting: Setting, system: System, lease: Lease, now: int)
    requires IsRecovering(setting, system, lease)
    ensures var before := system.workspace.cycles[lease.cycle];
            var after := Continued(setting, system, Undisturbed(now));
            && lease.cycle in after.workspace.cycles
            && var cycle := after.workspace.cycles[lease.cycle];
               if IsDecidable(setting, system.service, lease.cycle, before) then
                 && cycle.status == Terminal && after.workspace.current.None?
                 && cycle.outcome.Some? && cycle.outcome.value.Candidate?
                 && cycle.candidate == Some(cycle.outcome.value.candidate)
                 && cycle.candidate.value.executable == SealedExecutable(setting, before)
               else
                 && after.service == system.service && after.lease == Some(Given(Recovering(lease)))
                 && cycle == Published(before) && cycle.outcome.None? && cycle.candidate.None?
  {
    hide Inv, Continued, CurrentDigest, ServiceAnswer, IsDecidable, WithCycle;
    var before := system.workspace.cycles[lease.cycle];
    var cycle := Published(before);
    var asked := Calling(system, Recovering(lease), cycle, RECOVERY, ChecksRecord(before.pending.value));
    AskingFinds(setting, system, lease, now);
    LeaseContract(setting, system, lease);
    AllAreConsistent(setting, system);
    CycleIsConsistent(system.workspace, lease.cycle);
    ContinuedTwice(setting, system, Asking(now), Submitting(RECOVERY, now));
    ContinuedTwice(setting, system, Asking(now) + Submitting(RECOVERY, now), Completing());
    PublishedIsConsistent(before);
    SubmittingEnds(setting, system, Recovering(lease), cycle, RECOVERY, now);
    AnswersExactlyIf(setting, system, lease, now);
    RecordedIsDecidable(setting, system, lease.cycle);
    var submitted := Continued(setting, asked, Submitting(RECOVERY, now));
    var (service, answer) :=
      ServiceAnswer(setting, system.service, lease.cycle, lease.contract, before.pending.value, now);
    CurrentStays(setting, system.service, service);
    WithCycleHas(system.workspace, lease.cycle);
    if before.candidate.Some? {
      CompletingDecides(setting, system, lease, cycle);
    } else if answer.Some? {
      var submission := Submission(lease.cycle, before.pending.value.attempt, before.pending.value.rules,
                                   before.pending.value.manifest);
      var told := system.(service := service, submissions := system.submissions + [submission]);
      CompletingDecides(setting, told, lease, cycle.(candidate := answer));
    } else {
      GivenUpStays(setting, submitted, lease);
    }
  }

  lemma PublishedIsConsistent(cycle: Cycle)
    requires Consistent(cycle) && cycle.pending.Some?
    ensures Consistent(Published(cycle))
  {
  }

  lemma LeaseContract(setting: Setting, system: System, lease: Lease)
    requires Inv(setting, system) && system.lease == Some(lease)
    ensures lease.cycle in system.workspace.cycles && system.workspace.cycles[lease.cycle].contract == lease.contract
  {
  }

  lemma CurrentStays(setting: Setting, before: Authority.Stores, after: Authority.Stores)
    requires after.current == before.current
    ensures CurrentDigest(setting, after) == CurrentDigest(setting, before)
  {
  }

  lemma WithCycleHas(workspace: Workspace, id: string)
    ensures forall cycle: Cycle ::
              var after := WithCycle(workspace, id, cycle); id in after.cycles && after.cycles[id] == cycle
  {
  }

  /** A recorded candidate is admitted, and compiled from the sealed rules. */
  lemma RecordedIsDecidable(setting: Setting, system: System, id: string)
    requires Inv(setting, system) && id in system.workspace.cycles && system.workspace.cycles[id].pending.Some?
    requires AllConsistent(system.workspace)
    ensures var cycle := system.workspace.cycles[id];
            cycle.candidate.Some? ==>
              && IsDecidable(setting, system.service, id, cycle)
              && cycle.candidate.value.executable == SealedExecutable(setting, cycle)
  {
    hide AllConsistent;
    assert CycleHolds(setting, system, id, system.workspace.cycles[id]);
    if system.workspace.cycles[id].candidate.Some? {
      var key := (setting.workspaceId, id);
      assert IsSealedAdmission(setting, system.workspace, id, system.service.admissions[key]);
    }
  }

  // ---------------------------------------------------------------- an agent's proposal left to itself

  function Proposing(id: nat, rules: string, now: int): seq<Event> {
    [CallTool(id, rules)] + ([StepCall(id, 0, now)] + [StepCall(id, 3, now)])
  }

  /** The agent is at work on a cycle in which nothing is sealed, under the current contract. */
  ghost predicate CanPropose(setting: Setting, system: System, lease: Lease) {
    && Inv(setting, system) && system.lease == Some(lease) && lease.phase == Some(Runs) && lease.active
    && lease.writable && lease.calls == map[] && lease.cycle in system.workspace.cycles
    && !IsSealed(system.workspace.cycles[lease.cycle])
    && CurrentDigest(setting, system.service) == Some(lease.contract)
  }

  /** What a first proposal seals: the attempt, the rules, and the digest of the files as they are. */
  function Sealed(setting: Setting, lease: Lease, cycle: Cycle, rules: string): Cycle {
    Published(cycle.(pending := Some(Proposal(lease.attempt, rules, setting.digestOf(cycle.evidence)))))
  }

  lemma ProposingSeals(setting: Setting, system: System, lease: Lease, id: nat, rules: string, now: int)
    requires CanPropose(setting, system, lease) && id != RECOVERY && rules != ""
    ensures var sealed := Sealed(setting, lease, system.workspace.cycles[lease.cycle], rules);
            && sealed.pending.Some? && Consistent(sealed) && sealed.candidate.None? && sealed.contract == lease.contract
            && Continued(setting, system, Proposing(id, rules, now))
                 == Calling(system, lease, sealed, id, ChecksRecord(sealed.pending.value))
  {
    hide Inv, CurrentDigest;
    var cycle := system.workspace.cycles[lease.cycle];
    ThreeEvents(setting, system, CallTool(id, rules), StepCall(id, 0, now), StepCall(id, 3, now));
    OnlyCall(id, Asked(rules), Prepares(rules));
    OnlyCall(id, Prepares(rules), ChecksRecord(Sealed(setting, lease, cycle, rules).pending.value));
    AllAreConsistent(setting, system);
    CycleIsConsistent(system.workspace, lease.cycle);
    LeaseContract(setting, system, lease);
  }

  /** A first proposal is sealed and submitted as it was made. Its candidate is recorded exactly if what the rules
      compile to is not stored yet, or still waits; it is admitted under the cycle at this moment. */
  lemma ProposalIsRecordedExactlyIf(setting: Setting, system: System, lease: Lease, id: nat, rules: string, now: int)
    requires CanPropose(setting, system, lease) && id != RECOVERY && rules != ""
    ensures var (before, executable) := (system.workspace.cycles[lease.cycle], setting.compile(lease.contract, rules));
            var after := Continued(setting, system, Proposing(id, rules, now) + Submitting(id, now));
            var proposal := Proposal(lease.attempt, rules, setting.digestOf(before.evidence));
            var isNew := executable !in system.service.executables
                         || system.service.executables[executable].state == Authority.Candidate;
            && after.lease.Some? && lease.cycle in after.workspace.cycles
            && after.lease.value.(calls := map[], writable := true) == lease
            && after.service.current == system.service.current && after.workspace.current == system.workspace.current
            && after.submissions
                 == system.submissions + [Submission(lease.cycle, lease.attempt, rules, proposal.manifest)]
            && after.workspace.cycles[lease.cycle]
                 == before.(pending := Some(proposal), manifest := Some(before.evidence), proposal := Some(proposal),
                            candidate := if isNew then Some(CandidateRecord(executable, now, true, proposal.manifest))
                                         else None)
            && after.service.admissions
                 == if isNew then
                      system.service.admissions[(setting.workspaceId, lease.cycle) :=
                        AdmissionOf(setting, lease.cycle, lease.contract, proposal, now)]
                    else system.service.admissions
  {
    hide Inv, CurrentDigest, Continued, ServiceAnswer;
    var sealed := Sealed(setting, lease, system.workspace.cycles[lease.cycle], rules);
    ProposingSeals(setting, system, lease, id, rules, now);
    ContinuedTwice(setting, system, Proposing(id, rules, now), Submitting(id, now));
    NothingIsAdmitted(setting, system, lease.cycle);
    FirstAnswer(setting, system.service, lease, sealed.pending.value, now);
    SubmittingEnds(setting, system, lease, sealed, id, now);
    WithCycleHas(system.workspace, lease.cycle);
  }

  lemma NothingIsAdmitted(setting: Setting, system: System, id: string)
    requires Inv(setting, system) && id in system.workspace.cycles && system.workspace.cycles[id].pending.None?
    ensures (setting.workspaceId, id) !in system.service.admissions
  {
    var key := (setting.workspaceId, id);
    assert key in system.service.admissions ==>
             IsSealedAdmission(setting, system.workspace, id, system.service.admissions[key]);
  }

  lemma FirstAnswer(setting: Setting, service: Authority.Stores, lease: Lease, proposal: Proposal, now: int)
    requires (setting.workspaceId, lease.cycle) !in service.admissions
    ensures var (after, answer) := ServiceAnswer(setting, service, lease.cycle, lease.contract, proposal, now);
            var executable := setting.compile(lease.contract, proposal.rules);
            if executable !in service.executables || service.executables[executable].state == Authority.Candidate then
              && answer == Some(CandidateRecord(executable, now, true, proposal.manifest))
              && after.current == service.current
              && after.admissions == service.admissions[(setting.workspaceId, lease.cycle) :=
                                       AdmissionOf(setting, lease.cycle, lease.contract, proposal, now)]
            else answer.None? && after == service
  {
  }

  // ---------------------------------------------------------------- an agent's report left to itself

  /** The agent has been at work; nobody has decided the cycle, and a sealed manifest still describes the files. */
  ghost predicate IsRunning(setting: Setting, system: System, lease: Lease) {
    && Inv(setting, system) && system.lease == Some(lease) && lease.phase == Some(Runs) && lease.active
    && lease.cycle in system.workspace.cycles
    && var cycle := system.workspace.cycles[lease.cycle];
       cycle.outcome.None? && (cycle.manifest.Some? ==> cycle.manifest.value == cycle.evidence)
  }

  /** The agent reports, and its coordinator goes on undisturbed. */
  function Reporting(report: Report): seq<Event> {
    [AgentReports(report)] + Coordinating()
  }

  function Coordinating(): seq<Event> {
    [StepCoordinator(5)] + ([StepCoordinator(5)] + [StepCoordinator(5)])
  }

  /** The cycle with its outcome, closed and no longer the current one. */
  function Decided(workspace: Workspace, id: string, outcome: CycleOutcome): Workspace
    requires id in workspace.cycles
  {
    var cycle := workspace.cycles[id];
    WithCycle(workspace, id,
              cycle.(manifest := Some(cycle.evidence), outcome := Some(outcome), status := Terminal)).(current := None)
  }

  /** What is written after a report. While the contract is current it is what was reported, except that a candidate
      needs a recorded one, and that a recorded one forbids reporting that there is none: then nothing is written, and
      the cycle stays as it is. If the contract has moved the cycle is superseded, whatever was reported. */
  lemma ReportIsWrittenExactlyIf(setting: Setting, system: System, lease: Lease, report: Report)
    requires IsRunning(setting, system, lease)
    ensures var before := system.workspace.cycles[lease.cycle];
            var after := Continued(setting, system, Reporting(report));
            && after.service == system.service && after.lease.Some? && after.lease.value.phase.None?
            && lease.cycle in after.workspace.cycles
            && var (current, outcome) := (CurrentDigest(setting, system.service),
                                          after.workspace.cycles[lease.cycle].outcome);
               && (outcome == Some(Superseded(current)) <==> current != Some(lease.contract))
               && (outcome == Some(Failure) <==> current == Some(lease.contract) && report == ReportsFailure)
               && (outcome == Some(NoChange) <==>
                     current == Some(lease.contract) && report == ReportsNoChange && before.candidate.None?)
               && (outcome == Some(NoCandidate) <==>
                     current == Some(lease.contract) && report == ReportsNoCandidate && before.candidate.None?)
               && (outcome.Some? && outcome.value.Candidate? <==>
                     current == Some(lease.contract) && report == ReportsCandidate && before.candidate.Some?)
               && (outcome.Some? && outcome.value.Candidate? ==> Some(outcome.value.candidate) == before.candidate)
               && (outcome.None? <==>
                     && current == Some(lease.contract)
                     && if before.candidate.Some? then report == ReportsNoChange || report == ReportsNoCandidate
                        else report == ReportsCandidate)
               && after.workspace == (if outcome.Some? then Decided(system.workspace, lease.cycle, outcome.value)
                                      else system.workspace)
  {
    hide Inv, CurrentDigest, After;
    CyclesExist(setting, system);
    var told := InPhase(system, lease, Some(Rereads(report)));
    assert After(setting, system, AgentReports(report)) == told by { ReportingIsTold(setting, system, lease, report); }
    OneEvent(setting, system, AgentReports(report), Coordinating());
    LeaseContract(setting, system, lease);
    if CurrentDigest(setting, system.service) == Some(lease.contract) {
      ReportIsAccepted(setting, told, lease.(phase := Some(Rereads(report))), report);
    } else {
      MovedContractSupersedes(setting, told, lease.(phase := Some(Rereads(report))), Rereads(report));
    }
  }

  lemma ReportingIsTold(setting: Setting, system: System, lease: Lease, report: Report)
    requires AllCyclesExist(system) && system.lease == Some(lease) && lease.phase == Some(Runs)
    ensures After(setting, system, AgentReports(report)) == InPhase(system, lease, Some(Rereads(report)))
  {
  }

  lemma ReportIsAccepted(setting: Setting, system: System, lease: Lease, report: Report)
    requires Inv(setting, system) && system.lease == Some(lease) && lease.phase == Some(Rereads(report)) && lease.active
    requires lease.cycle in system.workspace.cycles && CurrentDigest(setting, system.service) == Some(lease.contract)
    requires var cycle := system.workspace.cycles[lease.cycle];
             && cycle.contract == lease.contract && cycle.outcome.None?
             && (cycle.manifest.Some? ==> cycle.manifest.value == cycle.evidence)
    ensures var candidate := system.workspace.cycles[lease.cycle].candidate;
            var after := Continued(setting, system, Coordinating());
            && after.service == system.service && after.lease.Some? && after.lease.value.phase.None?
            && after.workspace
                 == match report
                    case ReportsCandidate =>
                      if candidate.None? then system.workspace
                      else Decided(system.workspace, lease.cycle, Candidate(candidate.value))
                    case ReportsNoChange =>
                      if candidate.Some? then system.workspace
                      else Decided(system.workspace, lease.cycle, NoChange)
                    case ReportsNoCandidate =>
                      if candidate.Some? then system.workspace
                      else Decided(system.workspace, lease.cycle, NoCandidate)
                    case ReportsFailure => Decided(system.workspace, lease.cycle, Failure)
  {
    hide Inv, CurrentDigest, After, Close, Decided;
    ThreeEvents(setting, system, StepCoordinator(5), StepCoordinator(5), StepCoordinator(5));
    var reread := InPhase(Reread(setting, system, lease), lease, Some(Accepts(report)));
    CoordinatorGoesOn(setting, system, lease, Rereads(report));
    CoordinatorGoesOn(setting, reread, reread.lease.value, Accepts(report));
    var outcome := OutcomeOf(system.workspace.cycles[lease.cycle], report);
    if outcome.Some? {
      var decided := InPhase(reread, lease, Some(Completes(outcome.value)));
      CoordinatorGoesOn(setting, decided, decided.lease.value, Completes(outcome.value));
      ClosingDecides(system.workspace, lease.cycle, lease.contract, outcome.value);
    } else {
      NothingGoesOn(setting, InPhase(reread, lease, None));
    }
  }

  lemma CoordinatorGoesOn(setting: Setting, system: System, lease: Lease, phase: Phase)
    requires AllCyclesExist(system) && system.lease == Some(lease) && lease.phase == Some(phase)
    ensures After(setting, system, StepCoordinator(5)) == AfterCoordinator(setting, system, lease, phase, 5)
  {
    hide AfterCoordinator;
  }

  lemma NothingGoesOn(setting: Setting, system: System)
    requires AllCyclesExist(system) && system.lease.Some? && system.lease.value.phase.None?
    ensures After(setting, system, StepCoordinator(5)) == system
  {
  }

  lemma ClosingDecides(workspace: Workspace, id: string, contract: string, outcome: CycleOutcome)
    requires id in workspace.cycles
    requires var cycle := workspace.cycles[id];
             && cycle.contract == contract && cycle.outcome.None? && MatchesCandidate(cycle, outcome)
             && (cycle.manifest.Some? ==> cycle.manifest.value == cycle.evidence)
    ensures Close(workspace, id, contract, outcome, 5) == (Decided(workspace, id, outcome), true)
  {
    LastWriteWins(workspace, id);
  }

  lemma MovedContractSupersedes(setting: Setting, system: System, lease: Lease, phase: Phase)
    requires Inv(setting, system) && system.lease == Some(lease) && lease.phase == Some(phase) && lease.active
    requires phase.Rereads? || phase.RereadsAfterRecovery?
    requires lease.cycle in system.workspace.cycles && CurrentDigest(setting, system.service) != Some(lease.contract)
    requires var cycle := system.workspace.cycles[lease.cycle];
             && cycle.contract == lease.contract && cycle.outcome.None?
             && (cycle.manifest.Some? ==> cycle.manifest.value == cycle.evidence)
    ensures var after := Continued(setting, system, Coordinating());
            && after.service == system.service && after.submissions == system.submissions
            && after.lease.Some? && after.lease.value.phase.None?
            && after.workspace
                 == Decided(system.workspace, lease.cycle, Superseded(CurrentDigest(setting, system.service)))
  {
    hide Inv, CurrentDigest, After, Close, Decided;
    var replacement := CurrentDigest(setting, system.service);
    var cycle := system.workspace.cycles[lease.cycle];
    ThreeEvents(setting, system, StepCoordinator(5), StepCoordinator(5), StepCoordinator(5));
    var reread := InPhase(Reread(setting, system, lease), lease, Some(MarksSuperseding(replacement)));
    CoordinatorGoesOn(setting, system, lease, phase);
    CoordinatorGoesOn(setting, reread, reread.lease.value, MarksSuperseding(replacement));
    var marked := AfterCoordinator(setting, reread, reread.lease.value, MarksSuperseding(replacement), 5);
    CoordinatorGoesOn(setting, marked, marked.lease.value, Completes(Superseded(replacement)));
    ClosingDecides(marked.workspace, lease.cycle, lease.contract, Superseded(replacement));
    StatusIsOverwritten(system.workspace, lease.cycle, Superseded(replacement));
  }

  lemma StatusIsOverwritten(workspace: Workspace, id: string, outcome: CycleOutcome)
    requires id in workspace.cycles
    ensures var marked := workspace.cycles[id].(status := AnalysisWorkspace.Superseding);
            Decided(WithCycle(workspace, id, marked), id, outcome) == Decided(workspace, id, outcome)
  {
    LastWriteWins(workspace, id);
  }

  /** A recovery that finds the contract moved supersedes the cycle, without asking the service for anything. */
  lemma RecoverySupersedes(setting: Setting, system: System, lease: Lease, now: int)
    requires Inv(setting, system) && system.lease == Some(lease) && lease.cycle in system.workspace.cycles
    requires lease.phase == Some(ChecksPending) && lease.active && lease.calls == map[]
    requires CurrentDigest(setting, system.service) != Some(lease.contract)
    requires var cycle := system.workspace.cycles[lease.cycle];
             && cycle.pending.Some? && cycle.outcome.None?
             && (cycle.manifest.Some? ==> cycle.manifest.value == cycle.evidence)
    ensures var after := Continued(setting, system, FindingOut(now) + Coordinating());
            && after.service == system.service && after.submissions == system.submissions
            && after.workspace
                 == Decided(system.workspace, lease.cycle, Superseded(CurrentDigest(setting, system.service)))
  {
    hide Inv, CurrentDigest, After, Decided;
    var cycle := system.workspace.cycles[lease.cycle];
    var found := system.(lease := Some(lease.(calls := map[RECOVERY := FoundSuperseded],
                                              phase := Some(RereadsAfterRecovery(false)))));
    RecoveryFindsOut(setting, system, lease, now);
    LeaseContract(setting, system, lease);
    ContinuedTwice(setting, system, FindingOut(now), Coordinating());
    MovedContractSupersedes(setting, found, found.lease.value, RereadsAfterRecovery(false));
  }

  function FindingOut(now: int): seq<Event> {
    [StepCoordinator(5)] + ([StepCall(RECOVERY, 0, now)] + [StepCoordinator(5)])
  }

  lemma RecoveryFindsOut(setting: Setting, system: System, lease: Lease, now: int)
    requires Inv(setting, system) && system.lease == Some(lease) && lease.cycle in system.workspace.cycles
    requires lease.phase == Some(ChecksPending) && lease.calls == map[]
    requires CurrentDigest(setting, system.service) != Some(lease.contract)
    requires system.workspace.cycles[lease.cycle].pending.Some?
    ensures Continued(setting, system, FindingOut(now))
              == system.(lease := Some(lease.(calls := map[RECOVERY := FoundSuperseded],
                                              phase := Some(RereadsAfterRecovery(false)))))
  {
    hide Inv, CurrentDigest;
    ThreeEvents(setting, system, StepCoordinator(5), StepCall(RECOVERY, 0, now), StepCoordinator(5));
    OnlyCall(RECOVERY, Asked(system.workspace.cycles[lease.cycle].pending.value.rules), FoundSuperseded);
  }

  /** While the agent is at work, a poll that finds the contract moved supersedes the cycle; any other does nothing. */
  lemma PollSupersedesExactlyIf(setting: Setting, system: System, lease: Lease)
    requires IsRunning(setting, system, lease)
    ensures var current := CurrentDigest(setting, system.service);
            var after := Continued(setting, system, [Poll] + ([StepCoordinator(5)] + [StepCoordinator(5)]));
            && after.service == system.service
            && (if current == Some(lease.contract) then after == system
                else after.workspace == Decided(system.workspace, lease.cycle, Superseded(current)))
  {
    hide Inv, CurrentDigest, After, Decided, Close;
    var current := CurrentDigest(setting, system.service);
    ThreeEvents(setting, system, Poll, StepCoordinator(5), StepCoordinator(5));
    LeaseContract(setting, system, lease);
    PollIsRead(setting, system, lease);
    if current == Some(lease.contract) {
      CoordinatorGoesOn(setting, system, lease, Runs);
    } else {
      var marking := InPhase(Reread(setting, system, lease), lease, Some(MarksSuperseding(current)));
      CoordinatorGoesOn(setting, marking, marking.lease.value, MarksSuperseding(current));
      var marked := AfterCoordinator(setting, marking, marking.lease.value, MarksSuperseding(current), 5);
      CoordinatorGoesOn(setting, marked, marked.lease.value, Completes(Superseded(current)));
      ClosingDecides(marked.workspace, lease.cycle, lease.contract, Superseded(current));
      StatusIsOverwritten(system.workspace, lease.cycle, Superseded(current));
    }
  }

  lemma PollIsRead(setting: Setting, system: System, lease: Lease)
    requires AllCyclesExist(system) && system.lease == Some(lease) && lease.phase == Some(Runs)
    ensures var current := CurrentDigest(setting, system.service);
            After(setting, system, Poll)
              == if current == Some(lease.contract) then system
                 else InPhase(Reread(setting, system, lease), lease, Some(MarksSuperseding(current)))
  {
    hide CurrentDigest;
  }

  /** An attempt that reaches a limit before anything is sealed decides the cycle as a failure. */
  lemma LimitFails(setting: Setting, system: System, lease: Lease)
    requires Inv(setting, system) && system.lease == Some(lease) && lease.phase == Some(ChecksPending) && lease.active
    requires lease.cycle in system.workspace.cycles
    requires var cycle := system.workspace.cycles[lease.cycle];
             && cycle.pending.None? && cycle.outcome.None?
             && (cycle.manifest.Some? ==> cycle.manifest.value == cycle.evidence)
    ensures Continued(setting, system, [ReachLimit] + ([StepCoordinator(5)] + [StepCoordinator(5)])).workspace
              == Decided(system.workspace, lease.cycle, Failure)
  {
    hide Inv, After, Decided, Close;
    ThreeEvents(setting, system, ReachLimit, StepCoordinator(5), StepCoordinator(5));
    LeaseContract(setting, system, lease);
    LimitIsReached(setting, system, lease);
    var failing := InPhase(system, lease, Some(Completes(Failure)));
    CoordinatorGoesOn(setting, failing, failing.lease.value, Completes(Failure));
    ClosingDecides(system.workspace, lease.cycle, lease.contract, Failure);
    var done := AfterCoordinator(setting, failing, failing.lease.value, Completes(Failure), 5);
    NothingGoesOn(setting, done);
  }

  lemma LimitIsReached(setting: Setting, system: System, lease: Lease)
    requires AllCyclesExist(system) && system.lease == Some(lease) && lease.phase == Some(ChecksPending)
    requires lease.cycle in system.workspace.cycles && system.workspace.cycles[lease.cycle].pending.None?
    ensures After(setting, system, ReachLimit) == InPhase(system, lease, Some(Completes(Failure)))
  {
  }

  // ---------------------------------------------------------------- a whole attempt left to itself

  /** A first attempt is claimed. */
  function Claiming(contract: string, attempt: string, newId: string): seq<Event> {
    [Claim(contract, attempt, newId, true, 8)] + [StepCoordinator(5)]
  }

  /** With no cycle in the way, a claim opens a new one in which the agent can propose. */
  lemma ClaimLetsPropose(setting: Setting, system: System, contract: string, attempt: string, newId: string)
    requires Inv(setting, system) && system.lease.None?
    requires system.workspace.current.None? && newId !in system.workspace.cycles
    requires CurrentDigest(setting, system.service) == Some(contract)
    ensures var after := Continued(setting, system, Claiming(contract, attempt, newId));
            && after.service == system.service && after.submissions == system.submissions && after.lease.Some?
            && var lease := after.lease.value;
               && lease.cycle == newId && lease.attempt == attempt && lease.contract == contract
               && CanPropose(setting, after, lease)
               && after.workspace.cycles == system.workspace.cycles[newId := NewCycle(contract)]
               && after.workspace.current == Some(newId)
  {
    hide Inv, CurrentDigest;
    var claim := Claim(contract, attempt, newId, true, 8);
    CyclesExist(setting, system);
    FirstPreparationInFull(system.workspace, contract, newId, true, 8);
    EveryEventKeeps(setting, system, claim);
    var claimed := After(setting, system, claim);
    OneEvent(setting, system, claim, [StepCoordinator(5)]);
    assert [StepCoordinator(5)] + [] == [StepCoordinator(5)];
    OneEvent(setting, claimed, StepCoordinator(5), []);
  }

  /** A claim that finds its own contract's cycle sealed is about to recover it. */
  lemma ClaimLetsRecover(setting: Setting, system: System, id: string, attempt: string, newId: string)
    requires Inv(setting, system) && HasRules(system) && system.lease.None?
    requires system.workspace.current == Some(id) && id in system.workspace.cycles
    requires newId !in system.workspace.cycles
    requires var cycle := system.workspace.cycles[id];
             && cycle.pending.Some? && cycle.outcome.None? && !cycle.status.Terminal?
             && CurrentDigest(setting, system.service) == Some(cycle.contract)
             && (cycle.manifest.Some? ==> cycle.manifest.value == cycle.evidence)
             && setting.digestOf(cycle.evidence) == cycle.pending.value.manifest
    ensures var claim := Claim(system.workspace.cycles[id].contract, attempt, newId, true, 8);
            && AllCyclesExist(system)
            && var after := After(setting, system, claim);
               && after.workspace == system.workspace && after.service == system.service
               && after.lease.Some? && after.lease.value.cycle == id && IsRecovering(setting, after, after.lease.value)
  {
    hide Inv, CurrentDigest, HasRules;
    var claim := Claim(system.workspace.cycles[id].contract, attempt, newId, true, 8);
    CyclesExist(setting, system);
    PreparationInFull(system.workspace, id, system.workspace.cycles[id].contract, newId, true, 8);
    EveryEventKeeps(setting, system, claim);
    EventKeepsRules(setting, system, claim);
  }

  /** A first attempt left to itself: it is claimed, the agent proposes rules and reports a candidate. The cycle is
      completed with what the rules compile to exactly if that is not stored yet, or still waits; otherwise it stays
      undecided. */
  lemma FirstAttemptDecidesExactlyIf(setting: Setting, system: System, contract: string, attempt: string,
                                     newId: string, rules: string, id: nat, now: int)
    requires Inv(setting, system) && system.lease.None? && id != RECOVERY && rules != ""
    requires system.workspace.current.None? && newId !in system.workspace.cycles
    requires CurrentDigest(setting, system.service) == Some(contract)
    ensures var events := Claiming(contract, attempt, newId) + (Proposing(id, rules, now) + Submitting(id, now))
                            + Reporting(ReportsCandidate);
            var after := Continued(setting, system, events);
            var executable := setting.compile(contract, rules);
            && newId in after.workspace.cycles
            && var cycle := after.workspace.cycles[newId];
               if executable !in system.service.executables
                  || system.service.executables[executable].state == Authority.Candidate
               then
                 && cycle.status == Terminal && after.workspace.current.None?
                 && cycle.outcome == Some(Candidate(CandidateRecord(executable, now, true, setting.digestOf(""))))
               else cycle.outcome.None? && after.workspace.current == Some(newId)
  {
    hide Inv, CurrentDigest, Continued, WithCycle, Decided, Claiming, Proposing, Submitting, Reporting;
    var claimed := Continued(setting, system, Claiming(contract, attempt, newId));
    ClaimLetsPropose(setting, system, contract, attempt, newId);
    var lease := claimed.lease.value;
    ProposalIsRecordedExactlyIf(setting, claimed, lease, id, rules, now);
    var proposing := Proposing(id, rules, now) + Submitting(id, now);
    var proposed := Continued(setting, claimed, proposing);
    ContinuedTwice(setting, system, Claiming(contract, attempt, newId), proposing);
    ContinuedTwice(setting, system, Claiming(contract, attempt, newId) + proposing, Reporting(ReportsCandidate));
    CurrentStays(setting, system.service, proposed.service);
    ReportIsWrittenExactlyIf(setting, proposed, proposed.lease.value, ReportsCandidate);
    DecidedHas(proposed.workspace, newId);
    assert claimed.workspace.cycles[newId].evidence == "";
  }

  lemma DecidedHas(workspace: Workspace, id: string)
    requires id in workspace.cycles
    ensures forall outcome: CycleOutcome ::
              var after := Decided(workspace, id, outcome);
              && id in after.cycles && after.cycles[id].outcome == Some(outcome) && after.cycles[id].status == Terminal
              && after.current.None?
  {
  }

  // ---------------------------------------------------------------- a cycle that no recovery decides

  /** A sealed cycle that is not decidable, between attempts or in the middle of a recovery. */
  ghost predicate IsStuck(setting: Setting, system: System, id: string) {
    && id in system.workspace.cycles && system.workspace.current == Some(id)
    && var cycle := system.workspace.cycles[id];
       && cycle.pending.Some? && cycle.candidate.None? && cycle.outcome.None? && !cycle.status.Terminal?
       && !IsDecidable(setting, system.service, id, cycle)
       && CurrentDigest(setting, system.service) == Some(cycle.contract)
       && (system.lease.Some? ==>
             && system.lease.value.cycle == id
             && (system.lease.value.phase in {None, Some(ChecksPending), Some(Recovers)})
             && forall call <- system.lease.value.calls ::
                  var state := system.lease.value.calls[call];
                  state.Asked? || state.Prepares? || state.ChecksRecord? || state.Submits?)
  }

  /** Attempts are made for the contract, which stays current; anything else may happen. */
  predicate StaysCurrent(setting: Setting, contract: string, event: Event) {
    match event
    case Claim(claimed, _, _, _, _) => claimed == contract
    case MoveService(service) => CurrentDigest(setting, service) == Some(contract)
    case _ => true
  }

  lemma StuckStays(setting: Setting, system: System, id: string, event: Event)
    requires Inv(setting, system) && IsStuck(setting, system, id)
    requires StaysCurrent(setting, system.workspace.cycles[id].contract, event)
    ensures AllCyclesExist(system) && IsStuck(setting, After(setting, system, event), id)
    ensures After(setting, system, event).workspace.cycles[id].contract == system.workspace.cycles[id].contract
  {
    hide Inv, AfterCall, AfterCoordinator, CurrentDigest;
    CyclesExist(setting, system);
    match event
    case MoveService(service) =>
      if CanMove(setting, system.service, service) { StuckThroughMoves(setting, system, id, service); }
    case StepCall(call, writes, now) =>
      if system.lease.Some? && call in system.lease.value.calls {
        StuckThroughCalls(setting, system, id, system.lease.value, call, writes, now);
      }
    case StepCoordinator(writes) =>
      if system.lease.Some? && system.lease.value.phase.Some? {
        StuckThroughPhases(setting, system, id, system.lease.value, system.lease.value.phase.value, writes);
      }
    case _ =>
  }

  lemma StuckThroughMoves(setting: Setting, system: System, id: string, service: Authority.Stores)
    requires IsStuck(setting, system, id) && CanMove(setting, system.service, service)
    requires CurrentDigest(setting, service) == Some(system.workspace.cycles[id].contract)
    ensures IsStuck(setting, system.(service := service), id)
  {
  }

  lemma StuckThroughCalls(setting: Setting, system: System, id: string, lease: Lease, call: nat, writes: nat, now: int)
    requires Inv(setting, system) && IsStuck(setting, system, id) && system.lease == Some(lease) && call in lease.calls
    ensures var after := AfterCall(setting, system, lease, call, writes, now);
            IsStuck(setting, after, id)
            && after.workspace.cycles[id].contract == system.workspace.cycles[id].contract
  {
    hide Inv, Prepare, IsDecidable, Authority.PutAnalysisCandidate, Answer, CurrentDigest, Consistent;
    var cycle := system.workspace.cycles[id];
    AllAreConsistent(setting, system);
    CycleIsConsistent(system.workspace, id);
    LeaseContract(setting, system, lease);
    IsCurrentDigest(setting, system.service, lease.contract);
    match lease.calls[call]
    case Prepares(rules) =>
      PreparingKeeps(setting.digestOf, cycle, lease.writable, lease.attempt, rules, writes);
      PreparingKeepsStatus(setting.digestOf, cycle, lease.writable, lease.attempt, rules, writes);
      DecidabilityReadsProposal(setting, system.service, id, cycle,
                                Prepare(setting.digestOf, cycle, lease.writable, lease.attempt, rules, writes).0);
    case Submits(proposal) =>
      SubmissionIsSealed(setting, system, lease, call, now);
      AnswersExactlyIf(setting, system, lease, now);
    case _ =>
  }

  lemma IsCurrentDigest(setting: Setting, service: Authority.Stores, contract: string)
    ensures CurrentDigest(setting, service) == Some(contract) <==> Authority.IsCurrent(service, setting.name, contract)
  {
  }

  lemma PreparingKeepsStatus(digestOf: string -> string, cycle: Cycle, writable: bool, attempt: string, rules: string,
                             writes: nat)
    ensures Prepare(digestOf, cycle, writable, attempt, rules, writes).0.status == cycle.status
  {
  }

  lemma DecidabilityReadsProposal(setting: Setting, service: Authority.Stores, id: string, one: Cycle, other: Cycle)
    requires one.pending.Some? && other.pending == one.pending && other.contract == one.contract
    ensures IsDecidable(setting, service, id, one) == IsDecidable(setting, service, id, other)
  {
  }

  lemma StuckThroughPhases(setting: Setting, system: System, id: string, lease: Lease, phase: Phase, writes: nat)
    requires Inv(setting, system) && IsStuck(setting, system, id)
    requires system.lease == Some(lease) && lease.phase == Some(phase)
    ensures var after := AfterCoordinator(setting, system, lease, phase, writes);
            IsStuck(setting, after, id)
            && after.workspace.cycles[id].contract == system.workspace.cycles[id].contract
  {
    hide Inv, IsDecidable, CurrentDigest, Close;
  }

  /** Once a sealed cycle is stuck it gets no candidate and no outcome for as long as its contract stays current,
      however often it is recovered: it is never closed, and no other cycle is opened. */
  lemma {:induction false} StuckForGood(setting: Setting, system: System, id: string, events: seq<Event>)
    requires Inv(setting, system) && IsStuck(setting, system, id)
    requires forall event <- events :: StaysCurrent(setting, system.workspace.cycles[id].contract, event)
    ensures IsStuck(setting, Continued(setting, system, events), id)
    decreases |events|
  {
    hide Inv, After, IsStuck, StaysCurrent;
    StuckHasCycle(setting, system, id);
    if events != [] {
      var contract := system.workspace.cycles[id].contract;
      assert events[0] in events;
      StuckStays(setting, system, id, events[0]);
      EveryEventKeeps(setting, system, events[0]);
      var next := After(setting, system, events[0]);
      StuckHasCycle(setting, next, id);
      assert forall event <- events[1..] :: event in events;
      StuckForGood(setting, next, id, events[1..]);
    }
  }

  lemma StuckHasCycle(setting: Setting, system: System, id: string)
    requires IsStuck(setting, system, id)
    ensures id in system.workspace.cycles
  {
  }

  /** A state in which it happens: the sealed rules compile to an executable that is already active. */
  lemma ActiveExecutableIsStuck(setting: Setting, contract: string, id: string, proposal: Proposal)
    ensures var executable := setting.compile(contract, proposal.rules);
            var active := Authority.Executable(contract, setting.artifactOf(executable), Authority.Active, 1);
            var service := Authority.Stores(map[], map[], map[setting.name := contract], map[executable := active],
                                            map[]);
            var sealed := NewCycle(contract).(pending := Some(proposal));
            var system := System(Workspace(Some(id), map[id := sealed]), service, None, [], []);
            Inv(setting, system) && IsStuck(setting, system, id)
  {
  }
}
