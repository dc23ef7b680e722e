/** How one analysis cycle comes to at most one candidate: attempts, tool calls, the recovery of a sealed proposal and
    completion, one durable step at a time, with a crash possible between any two. */
module SealedProposal {
  import opened Wrappers
  import opened AnalysisWorkspace
  import Authority = AuthorityStores

  /** The contract this workspace belongs to, the digest of a manifest, and what the service compiles rules to. */
  datatype Setting = Setting(
    name: string,
    workspaceId: string,
    digestOf: string -> string,
    compile: (string, string) -> string,
    artifactOf: string -> string)

  /** A submission as the service receives it. */
  datatype Submission = Submission(cycle: string, attempt: string, rules: string, manifest: string)

  /** A call of the proposal tool, by the agent or by the coordinator's recovery. */
  datatype Call =
    | Asked(rules: string)
    | Prepares(rules: string)
    | ChecksRecord(proposal: Proposal)
    | Submits(proposal: Proposal)
    | Records(record: CandidateRecord)
    | Returned(candidate: CandidateRecord)
    | FoundSuperseded

  datatype Report = ReportsCandidate | ReportsNoChange | ReportsNoCandidate | ReportsFailure

  datatype Phase =
    | ChecksPending
    | Recovers
    | RereadsAfterRecovery(submitted: bool)
    | Runs
    | Rereads(report: Report)
    | Accepts(report: Report)
    | MarksSuperseding(replacement: Option<string>)
    | Completes(outcome: CycleOutcome)

  /** One claimed attempt: the coordinator's phase until it returns, and the calls still in flight. The claim is
      exclusive and lasts until nothing refers to it any more. */
  datatype Lease = Lease(
    contract: string,
    cycle: string,
    attempt: string,
    active: bool,
    writable: bool,
    phase: Option<Phase>,
    calls: map<nat, Call>)

  const RECOVERY: nat := 0

  datatype System = System(
    workspace: Workspace,
    service: Authority.Stores,
    lease: Option<Lease>,
    submissions: seq<Submission>,
    rereads: seq<(string, Option<string>)>)

  datatype Event =
    | Claim(contract: string, attempt: string, newId: string, eligible: bool, writes: nat)
    | Write(evidence: string)
    | CallTool(id: nat, rules: string)
    | StepCall(id: nat, writes: nat, now: int)
    | FailCall(id: nat)
    | StepCoordinator(writes: nat)
    | ReachLimit
    | AgentReports(report: Report)
    | Poll
    | StopCoordinator
    | Release
    | Crash
    | MoveService(service: Authority.Stores)

  function CurrentDigest(setting: Setting, service: Authority.Stores): Option<string> {
    if setting.name in service.current then Some(service.current[setting.name]) else None
  }

  // ---------------------------------------------------------------- the proposal tool

  /** A call that fails is gone; if it was the recovery's, the coordinator returns its error. */
  function WithoutCall(lease: Lease, id: nat): Lease {
    lease.(calls := lease.calls - {id}, phase := if lease.phase == Some(Recovers) then None else lease.phase)
  }

  function WithCall(lease: Lease, id: nat, call: Call): Lease {
    lease.(calls := lease.calls[id := call])
  }

  function AdmissionOf(setting: Setting, cycle: string, contract: string, proposal: Proposal,
                       now: int): Authority.Admission {
    Authority.Admission(setting.workspaceId, cycle, proposal.attempt, setting.name, contract,
                        setting.compile(contract, proposal.rules), proposal.manifest, now)
  }

  /** The service answers with the stored admission, or refuses. */
  function Answer(service: Authority.Stores, admission: Authority.Admission, outcome: Authority.AdmissionOutcome)
    : Option<CandidateRecord>
  {
    match outcome
    case Admitted => Some(CandidateRecord(admission.executable, admission.createdAt, true, admission.manifest))
    case AlreadyAdmitted =>
      if admission.Key() in service.admissions then
        Some(CandidateRecord(service.admissions[admission.Key()].executable,
                             service.admissions[admission.Key()].createdAt, false, admission.manifest))
      else None
    case _ => None
  }

  function AfterSubmitting(setting: Setting, system: System, lease: Lease, id: nat, proposal: Proposal,
                           now: int): System {
    var logged := system.(submissions :=
      system.submissions + [Submission(lease.cycle, proposal.attempt, proposal.rules, proposal.manifest)]);
    if !Authority.IsCurrent(system.service, setting.name, lease.contract) then
      logged.(lease := Some(WithoutCall(lease, id)))
    else
      var admission := AdmissionOf(setting, lease.cycle, lease.contract, proposal, now);
      var (service, outcome) :=
        Authority.PutAnalysisCandidate(system.service, admission, setting.artifactOf(admission.executable));
      var answer := Answer(system.service, admission, outcome);
      logged.(service := service,
              lease := Some(if answer.Some? then WithCall(lease, id, Records(answer.value))
                            else WithoutCall(lease, id)))
  }

  function AfterCall(setting: Setting, system: System, lease: Lease, id: nat, writes: nat, now: int): System
    requires id in lease.calls && lease.cycle in system.workspace.cycles
  {
    var cycle := system.workspace.cycles[lease.cycle];
    match lease.calls[id]
    case Asked(rules) =>
      system.(lease := Some(
        if CurrentDigest(setting, system.service) != Some(lease.contract) then WithCall(lease, id, FoundSuperseded)
        else if rules == "" then WithoutCall(lease, id)
        else WithCall(lease, id, Prepares(rules))))
    case Prepares(rules) =>
      if !lease.active then system.(lease := Some(WithoutCall(lease, id)))
      else
        var (after, proposal) := Prepare(setting.digestOf, cycle, lease.writable, lease.attempt, rules, writes);
        system.(workspace := WithCycle(system.workspace, lease.cycle, after),
                lease := Some(
                  if proposal.Some? then WithCall(lease, id, ChecksRecord(proposal.value)).(writable := false)
                  else WithoutCall(lease, id)))
    case ChecksRecord(proposal) =>
      system.(lease := Some(
        if cycle.candidate.None? then WithCall(lease, id, Submits(proposal))
        else if cycle.candidate.value.manifest != proposal.manifest then WithoutCall(lease, id)
        else WithCall(lease, id, Returned(cycle.candidate.value))))
    case Submits(proposal) => AfterSubmitting(setting, system, lease, id, proposal, now)
    case Records(record) =>
      if !lease.active then system.(lease := Some(WithoutCall(lease, id)))
      else
        var (after, done) := Record(cycle, record, writes);
        system.(workspace := WithCycle(system.workspace, lease.cycle, after),
                lease := Some(if done then WithCall(lease, id, Returned(record)) else WithoutCall(lease, id)))
    case _ => system
  }

  // ---------------------------------------------------------------- the coordinator

  function InPhase(system: System, lease: Lease, phase: Option<Phase>): System {
    system.(lease := Some(lease.(phase := phase)))
  }

  function Reread(setting: Setting, system: System, lease: Lease): System {
    system.(rereads := system.rereads + [(lease.cycle, CurrentDigest(setting, system.service))])
  }

  function OutcomeOf(cycle: Cycle, report: Report): Option<CycleOutcome> {
    match report
    case ReportsCandidate => if cycle.candidate.Some? then Some(Candidate(cycle.candidate.value)) else None
    case ReportsNoChange => if cycle.candidate.Some? then None else Some(NoChange)
    case ReportsNoCandidate => if cycle.candidate.Some? then None else Some(NoCandidate)
    case ReportsFailure => Some(Failure)
  }

  function AfterCoordinator(setting: Setting, system: System, lease: Lease, phase: Phase, writes: nat): System
    requires lease.cycle in system.workspace.cycles
  {
    var cycle := system.workspace.cycles[lease.cycle];
    var current := CurrentDigest(setting, system.service);
    match phase
    case ChecksPending =>
      if cycle.pending.Some?
      then system.(lease := Some(WithCall(lease, RECOVERY, Asked(cycle.pending.value.rules)).(phase := Some(Recovers))))
      else InPhase(system, lease, Some(Runs))
    case Recovers =>
      if RECOVERY !in lease.calls then InPhase(system, lease, None)
      else if lease.calls[RECOVERY].Returned? then InPhase(system, lease, Some(RereadsAfterRecovery(true)))
      else if lease.calls[RECOVERY].FoundSuperseded? then InPhase(system, lease, Some(RereadsAfterRecovery(false)))
      else system
    case RereadsAfterRecovery(submitted) =>
      var reread := Reread(setting, system, lease);
      if submitted && current == Some(lease.contract) then
        InPhase(reread, lease,
                if cycle.candidate.Some? then Some(Completes(Candidate(cycle.candidate.value))) else None)
      else InPhase(reread, lease, Some(MarksSuperseding(current)))
    case Runs => system
    case Rereads(report) =>
      var reread := Reread(setting, system, lease);
      if current == Some(lease.contract) then InPhase(reread, lease, Some(Accepts(report)))
      else InPhase(reread, lease, Some(MarksSuperseding(current)))
    case Accepts(report) =>
      var outcome := OutcomeOf(cycle, report);
      InPhase(system, lease, if outcome.Some? then Some(Completes(outcome.value)) else None)
    case MarksSuperseding(replacement) =>
      if !lease.active || writes == 0 then InPhase(system, lease, None)
      else
        var marked := cycle.(status := AnalysisWorkspace.Superseding);
        InPhase(system.(workspace := WithCycle(system.workspace, lease.cycle, marked)), lease,
                Some(Completes(Superseded(replacement))))
    case Completes(outcome) =>
      if !lease.active then InPhase(system, lease, None)
      else
        var (after, closed) := Close(system.workspace, lease.cycle, lease.contract, outcome, writes);
        InPhase(system.(workspace := after), lease.(active := !closed), None)
  }

  /** Everyone else at the service: other contracts, other workspaces, deployments, the worker. */
  ghost predicate CanMove(setting: Setting, before: Authority.Stores, after: Authority.Stores) {
    && Authority.Grows(before, after)
    && forall key <- after.admissions :: key.0 == setting.workspaceId ==> key in before.admissions
  }

  /** What can happen while the workspace is claimed. The agent's files may change at any moment, also through a
      process that the agent has left running. */
  function Within(setting: Setting, system: System, lease: Lease, event: Event): System
    requires lease.cycle in system.workspace.cycles
  {
    var cycle := system.workspace.cycles[lease.cycle];
    match event
    case Write(evidence) =>
      system.(workspace := WithCycle(system.workspace, lease.cycle, cycle.(evidence := evidence)))
    case CallTool(id, rules) =>
      if lease.phase == Some(Runs) && id !in lease.calls && id != RECOVERY
      then system.(lease := Some(WithCall(lease, id, Asked(rules)))) else system
    case StepCall(id, writes, now) =>
      if id in lease.calls then AfterCall(setting, system, lease, id, writes, now) else system
    case FailCall(id) =>
      if id in lease.calls then system.(lease := Some(WithoutCall(lease, id))) else system
    case StepCoordinator(writes) =>
      if lease.phase.Some? then AfterCoordinator(setting, system, lease, lease.phase.value, writes) else system
    case ReachLimit =>
      if lease.phase == Some(ChecksPending) && cycle.pending.None?
      then InPhase(system, lease, Some(Completes(Failure))) else system
    case AgentReports(report) =>
      if lease.phase == Some(Runs) then InPhase(system, lease, Some(Rereads(report))) else system
    case Poll =>
      var current := CurrentDigest(setting, system.service);
      if lease.phase == Some(Runs) && current != Some(lease.contract)
      then InPhase(Reread(setting, system, lease), lease, Some(MarksSuperseding(current))) else system
    case StopCoordinator => InPhase(system, lease, None)
    case Release => if lease.phase.None? && lease.calls == map[] then system.(lease := None) else system
    case _ => system
  }

  function AfterClaim(system: System, contract: string, attempt: string, newId: string, eligible: bool, writes: nat)
    : System
    requires AllCyclesExist(system)
  {
    if system.lease.Some? then system
    else
      var (workspace, preparation) := PrepareCycle(system.workspace, contract, newId, eligible, writes);
      system.(workspace := workspace,
              lease := if !preparation.Ready? || preparation.cycle !in workspace.cycles then None
                       else Some(Lease(contract, preparation.cycle, attempt, true,
                                       !IsSealed(workspace.cycles[preparation.cycle]), Some(ChecksPending), map[])))
  }

  predicate AllCyclesExist(system: System) {
    && (system.lease.Some? ==> system.lease.value.cycle in system.workspace.cycles)
    && (system.workspace.current.Some? ==> system.workspace.current.value in system.workspace.cycles)
  }

  ghost function After(setting: Setting, system: System, event: Event): System
    requires AllCyclesExist(system)
  {
    match event
    case MoveService(service) =>
      if CanMove(setting, system.service, service) then system.(service := service) else system
    case Crash => system.(lease := None)
    case Claim(contract, attempt, newId, eligible, writes) =>
      AfterClaim(system, contract, attempt, newId, eligible, writes)
    case _ => if system.lease.None? then system else Within(setting, system, system.lease.value, event)
  }

  /** A call begins only while the agent is at work, or as the recovery of a sealed proposal. */
  lemma CallsBeginExactlyIf(setting: Setting, system: System, lease: Lease, event: Event, id: nat)
    requires AllCyclesExist(system) && system.lease == Some(lease) && id !in lease.calls
    ensures var after := After(setting, system, event);
            after.lease.Some? && id in after.lease.value.calls <==>
              || (event.CallTool? && event.id == id && id != RECOVERY && lease.phase == Some(Runs))
              || (event.StepCoordinator? && id == RECOVERY && lease.phase == Some(ChecksPending)
                  && system.workspace.cycles[lease.cycle].pending.Some?)
  {
    hide CurrentDigest, Prepare, Record, Close, AfterSubmitting;
    match event
    case StepCall(other, writes, now) =>
      if other in lease.calls && lease.calls[other].Submits? {
        SubmittingBeginsNothing(setting, system, lease, other, lease.calls[other].proposal, now, id);
      }
    case _ =>
  }

  lemma SubmittingBeginsNothing(setting: Setting, system: System, lease: Lease, other: nat, proposal: Proposal,
                                now: int, id: nat)
    requires id !in lease.calls && other in lease.calls
    ensures var after := AfterSubmitting(setting, system, lease, other, proposal, now);
            after.lease.Some? && id !in after.lease.value.calls
  {
  }

  /** A claim is let go of by a crash, or once its coordinator has returned and no call is left; then the next attempt
      can be made. */
  lemma ClaimEndsExactlyIf(setting: Setting, system: System, lease: Lease, event: Event)
    requires AllCyclesExist(system) && system.lease == Some(lease)
    ensures After(setting, system, event).lease.None? <==>
              event.Crash? || (event.Release? && lease.phase.None? && lease.calls == map[])
  {
    hide CurrentDigest, Prepare, Record, Close, AfterSubmitting;
    match event
    case StepCall(other, writes, now) =>
      if other in lease.calls && lease.calls[other].Submits? {
        SubmittingKeepsClaim(setting, system, lease, other, lease.calls[other].proposal, now);
      }
    case _ =>
  }

  lemma SubmittingKeepsClaim(setting: Setting, system: System, lease: Lease, id: nat, proposal: Proposal, now: int)
    ensures AfterSubmitting(setting, system, lease, id, proposal, now).lease.Some?
  {
  }

  // ---------------------------------------------------------------- the invariant

  ghost predicate IsSubmitted(workspace: Workspace, submission: Submission) {
    && submission.cycle in workspace.cycles
    && workspace.cycles[submission.cycle].pending
         == Some(Proposal(submission.attempt, submission.rules, submission.manifest))
  }

  /** The admission under a cycle of this workspace is the cycle's sealed proposal. */
  ghost predicate IsSealedAdmission(setting: Setting, workspace: Workspace, cycle: string,
                                    admission: Authority.Admission) {
    && cycle in workspace.cycles && workspace.cycles[cycle].pending.Some?
    && admission == AdmissionOf(setting, cycle, workspace.cycles[cycle].contract, workspace.cycles[cycle].pending.value,
                                admission.createdAt)
  }

  ghost predicate IsAdmitted(setting: Setting, service: Authority.Stores, cycle: string, candidate: CandidateRecord) {
    var key := (setting.workspaceId, cycle);
    && key in service.admissions
    && service.admissions[key].executable == candidate.executable
    && service.admissions[key].manifest == candidate.manifest
    && service.admissions[key].createdAt == candidate.createdAt
  }

  ghost predicate IsConfirmed(rereads: seq<(string, Option<string>)>, cycle: string, contract: string) {
    (cycle, Some(contract)) in rereads
  }

  /** The last digest read again is the contract's own, read for this cycle. */
  predicate IsJustConfirmed(rereads: seq<(string, Option<string>)>, cycle: string, contract: string) {
    |rereads| > 0 && rereads[|rereads| - 1] == (cycle, Some(contract))
  }

  ghost predicate CallHolds(setting: Setting, service: Authority.Stores, id: string, cycle: Cycle, call: Call) {
    match call
    case ChecksRecord(proposal) => cycle.pending == Some(proposal) && cycle.proposal == Some(proposal)
    case Submits(proposal) => cycle.pending == Some(proposal) && cycle.proposal == Some(proposal)
    case Records(record) => IsAdmitted(setting, service, id, record)
    case Returned(candidate) => cycle.candidate == Some(candidate)
    case _ => true
  }

  ghost predicate PhaseHolds(system: System, lease: Lease, cycle: Cycle) {
    match lease.phase
    case Some(Accepts(_)) => IsJustConfirmed(system.rereads, lease.cycle, lease.contract)
    case Some(Completes(Candidate(candidate))) =>
      IsJustConfirmed(system.rereads, lease.cycle, lease.contract) && cycle.candidate == Some(candidate)
    case _ => true
  }

  ghost predicate LeaseHolds(setting: Setting, system: System, lease: Lease) {
    && lease.cycle in system.workspace.cycles
    && system.workspace.cycles[lease.cycle].contract == lease.contract
    && (forall id <- lease.calls ::
          CallHolds(setting, system.service, lease.cycle, system.workspace.cycles[lease.cycle], lease.calls[id]))
    && PhaseHolds(system, lease, system.workspace.cycles[lease.cycle])
  }

  ghost predicate CycleHolds(setting: Setting, system: System, id: string, cycle: Cycle) {
    && (cycle.candidate.Some? ==> IsAdmitted(setting, system.service, id, cycle.candidate.value))
    && (cycle.outcome.Some? && cycle.outcome.value.Candidate? ==> IsConfirmed(system.rereads, id, cycle.contract))
  }

  ghost predicate Inv(setting: Setting, system: System) {
    && AllConsistent(system.workspace)
    && (forall i :: 0 <= i < |system.submissions| ==> IsSubmitted(system.workspace, system.submissions[i]))
    && (forall key <- system.service.admissions :: key.0 == setting.workspaceId ==>
          IsSealedAdmission(setting, system.workspace, key.1, system.service.admissions[key]))
    && (forall id <- system.workspace.cycles :: CycleHolds(setting, system, id, system.workspace.cycles[id]))
    && (system.lease.Some? ==> LeaseHolds(setting, system, system.lease.value))
  }

  /** What no event undoes. */
  ghost predicate Evolves(before: System, after: System) {
    && Accumulates(before.workspace, after.workspace)
    && (forall key <- before.service.admissions ::
          key in after.service.admissions && after.service.admissions[key] == before.service.admissions[key])
    && before.submissions <= after.submissions && before.rereads <= after.rereads
  }

  lemma EvidenceSurvives(setting: Setting, before: System, after: System, id: string)
    requires Evolves(before, after) && id in before.workspace.cycles
    ensures forall submission: Submission ::
              IsSubmitted(before.workspace, submission) ==> IsSubmitted(after.workspace, submission)
    ensures forall candidate: CandidateRecord ::
              IsAdmitted(setting, before.service, id, candidate) ==> IsAdmitted(setting, after.service, id, candidate)
    ensures forall contract: string ::
              IsConfirmed(before.rereads, id, contract) ==> IsConfirmed(after.rereads, id, contract)
    ensures forall call: Call ::
              CallHolds(setting, before.service, id, before.workspace.cycles[id], call) ==>
                CallHolds(setting, after.service, id, after.workspace.cycles[id], call)
  {
  }

  /** A step that only adds keeps the invariant if what it adds is in order. */
  lemma AddingKeeps(setting: Setting, before: System, after: System)
    requires Inv(setting, before) && Evolves(before, after) && AllConsistent(after.workspace)
    requires forall i :: |before.submissions| <= i < |after.submissions| ==>
               IsSubmitted(after.workspace, after.submissions[i])
    requires forall key <- after.service.admissions ::
               key.0 == setting.workspaceId && key !in before.service.admissions ==>
                 IsSealedAdmission(setting, after.workspace, key.1, after.service.admissions[key])
    requires forall id <- after.workspace.cycles ::
               || CycleHolds(setting, after, id, after.workspace.cycles[id])
               || (&& id in before.workspace.cycles
                   && after.workspace.cycles[id].candidate == before.workspace.cycles[id].candidate
                   && after.workspace.cycles[id].outcome == before.workspace.cycles[id].outcome)
    requires after.lease.Some? ==> LeaseHolds(setting, after, after.lease.value)
    ensures Inv(setting, after)
  {
    hide LeaseHolds, AllConsistent, IsAdmitted, IsConfirmed;
    forall i | 0 <= i < |before.submissions|
      ensures IsSubmitted(after.workspace, after.submissions[i])
    {
      assert after.submissions[i] == before.submissions[i];
      assert IsSubmitted(before.workspace, before.submissions[i]);
    }
    forall id | id in before.workspace.cycles
      ensures CycleHolds(setting, after, id, after.workspace.cycles[id])
    {
      EvidenceSurvives(setting, before, after, id);
      assert CycleHolds(setting, before, id, before.workspace.cycles[id]);
    }
  }

  /** A lease goes on to hold when its calls are among the old ones, or new ones that hold by themselves. */
  lemma LeaseGoesOn(setting: Setting, before: System, after: System, lease: Lease, next: Lease)
    requires Evolves(before, after) && LeaseHolds(setting, before, lease)
    requires next.cycle == lease.cycle && next.contract == lease.contract
    requires PhaseHolds(after, next, after.workspace.cycles[lease.cycle])
    requires forall id <- next.calls ::
               || (id in lease.calls && next.calls[id] == lease.calls[id])
               || CallHolds(setting, after.service, lease.cycle, after.workspace.cycles[lease.cycle], next.calls[id])
    ensures LeaseHolds(setting, after, next)
  {
    hide PhaseHolds, IsAdmitted, CallHolds;
    EvidenceSurvives(setting, before, after, lease.cycle);
  }

  lemma PhaseStays(setting: Setting, before: System, after: System, lease: Lease, next: Lease)
    requires Evolves(before, after) && LeaseHolds(setting, before, lease)
    requires next.cycle == lease.cycle && next.contract == lease.contract
    requires (next.phase == lease.phase && after.rereads == before.rereads) || next.phase == None
    ensures PhaseHolds(after, next, after.workspace.cycles[lease.cycle])
  {
  }

  lemma OneCycleChanges(workspace: Workspace, id: string, cycle: Cycle)
    requires AllConsistent(workspace) && id in workspace.cycles
    requires Consistent(cycle) && OnlyAdds(workspace.cycles[id], cycle)
    ensures AllConsistent(WithCycle(workspace, id, cycle)) && Accumulates(workspace, WithCycle(workspace, id, cycle))
  {
  }

  lemma NothingAdds(workspace: Workspace)
    ensures Accumulates(workspace, workspace)
  {
  }

  // ---------------------------------------------------------------- each call step

  lemma AskingKeeps(setting: Setting, system: System, lease: Lease, id: nat, writes: nat, now: int)
    requires Inv(setting, system) && system.lease == Some(lease) && id in lease.calls
    requires !lease.calls[id].Prepares? && !lease.calls[id].Submits? && !lease.calls[id].Records?
    ensures var after := AfterCall(setting, system, lease, id, writes, now);
            Inv(setting, after) && Evolves(system, after)
  {
    hide AllConsistent, IsAdmitted, PhaseHolds, CycleHolds, IsSealedAdmission, IsSubmitted, Accumulates, CurrentDigest,
         OnlyAdds, Prepare, Record, AfterSubmitting;
    var after := AfterCall(setting, system, lease, id, writes, now);
    NothingAdds(system.workspace);
    PhaseStays(setting, system, after, lease, after.lease.value);
    LeaseGoesOn(setting, system, after, lease, after.lease.value);
    AddingKeeps(setting, system, after);
  }

  lemma PrepareStepKeeps(setting: Setting, system: System, lease: Lease, id: nat, writes: nat, now: int)
    requires Inv(setting, system) && system.lease == Some(lease) && id in lease.calls && lease.calls[id].Prepares?
    ensures var after := AfterCall(setting, system, lease, id, writes, now);
            Inv(setting, after) && Evolves(system, after)
  {
    hide AllConsistent, IsAdmitted, PhaseHolds, CycleHolds, IsSealedAdmission, IsSubmitted, Accumulates, Prepare,
         Consistent, OnlyAdds;
    var after := AfterCall(setting, system, lease, id, writes, now);
    NothingAdds(system.workspace);
    if lease.active {
      var cycle := system.workspace.cycles[lease.cycle];
      CycleIsConsistent(system.workspace, lease.cycle);
      PreparingKeeps(setting.digestOf, cycle, lease.writable, lease.attempt, lease.calls[id].rules, writes);
      OneCycleChanges(system.workspace, lease.cycle,
                      Prepare(setting.digestOf, cycle, lease.writable, lease.attempt, lease.calls[id].rules, writes).0);
    }
    PhaseStays(setting, system, after, lease, after.lease.value);
    LeaseGoesOn(setting, system, after, lease, after.lease.value);
    AddingKeeps(setting, system, after);
  }

  lemma CycleIsConsistent(workspace: Workspace, id: string)
    requires AllConsistent(workspace) && id in workspace.cycles
    ensures Consistent(workspace.cycles[id])
  {
  }

  /** The service is asked with the sealed proposal, so it never finds a different candidate admitted for the cycle. */
  lemma SubmissionIsSealed(setting: Setting, system: System, lease: Lease, id: nat, now: int)
    requires Inv(setting, system) && system.lease == Some(lease) && id in lease.calls && lease.calls[id].Submits?
    ensures var proposal := lease.calls[id].proposal;
            var admission := AdmissionOf(setting, lease.cycle, lease.contract, proposal, now);
            && system.workspace.cycles[lease.cycle].pending == Some(proposal)
            && (admission.Key() in system.service.admissions ==>
                  system.service.admissions[admission.Key()].Matches(admission))
            && Authority.PutAnalysisCandidate(system.service, admission, setting.artifactOf(admission.executable)).1
                 != Authority.AdmissionConflict
  {
    hide AllConsistent, PhaseHolds, CycleHolds;
    var proposal := lease.calls[id].proposal;
    assert CallHolds(setting, system.service, lease.cycle, system.workspace.cycles[lease.cycle], lease.calls[id]);
  }

  /** What the service answers is the candidate it has under the cycle, new or found again. */
  lemma AnswerIsAdmitted(setting: Setting, service: Authority.Stores, cycle: string, contract: string,
                         proposal: Proposal, now: int)
    ensures var admission := AdmissionOf(setting, cycle, contract, proposal, now);
            var (after, outcome) :=
              Authority.PutAnalysisCandidate(service, admission, setting.artifactOf(admission.executable));
            var answer := Answer(service, admission, outcome);
            && (answer.Some? ==> IsAdmitted(setting, after, cycle, answer.value))
            && (forall key <- service.admissions ::
                key in after.admissions && after.admissions[key] == service.admissions[key])
            && (forall key <- after.admissions :: key in service.admissions
                  || (key == (setting.workspaceId, cycle) && after.admissions[key] == admission))
  {
  }

  lemma SubmitStepKeeps(setting: Setting, system: System, lease: Lease, id: nat, writes: nat, now: int)
    requires Inv(setting, system) && system.lease == Some(lease) && id in lease.calls && lease.calls[id].Submits?
    ensures var after := AfterCall(setting, system, lease, id, writes, now);
            Inv(setting, after) && Evolves(system, after)
  {
    hide AllConsistent, PhaseHolds, CycleHolds, Accumulates, Consistent, OnlyAdds, Authority.PutAnalysisCandidate,
         Answer, IsAdmitted, Authority.IsCurrent;
    var after := AfterCall(setting, system, lease, id, writes, now);
    var proposal := lease.calls[id].proposal;
    NothingAdds(system.workspace);
    SubmissionIsSealed(setting, system, lease, id, now);
    AnswerIsAdmitted(setting, system.service, lease.cycle, lease.contract, proposal, now);
    PhaseStays(setting, system, after, lease, after.lease.value);
    LeaseGoesOn(setting, system, after, lease, after.lease.value);
    AddingKeeps(setting, system, after);
  }

  lemma RecordStepKeeps(setting: Setting, system: System, lease: Lease, id: nat, writes: nat, now: int)
    requires Inv(setting, system) && system.lease == Some(lease) && id in lease.calls && lease.calls[id].Records?
    ensures var after := AfterCall(setting, system, lease, id, writes, now);
            Inv(setting, after) && Evolves(system, after)
  {
    hide AllConsistent, IsAdmitted, PhaseHolds, IsSealedAdmission, IsSubmitted, Accumulates, Record, Consistent,
         OnlyAdds, IsConfirmed;
    var after := AfterCall(setting, system, lease, id, writes, now);
    NothingAdds(system.workspace);
    if lease.active {
      var cycle := system.workspace.cycles[lease.cycle];
      var record := lease.calls[id].record;
      CycleIsConsistent(system.workspace, lease.cycle);
      RecordingKeeps(cycle, record, writes);
      OneCycleChanges(system.workspace, lease.cycle, Record(cycle, record, writes).0);
      assert CycleHolds(setting, system, lease.cycle, cycle);
      assert CallHolds(setting, system.service, lease.cycle, cycle, lease.calls[id]);
      assert CycleHolds(setting, after, lease.cycle, after.workspace.cycles[lease.cycle]);
    }
    PhaseStays(setting, system, after, lease, after.lease.value);
    LeaseGoesOn(setting, system, after, lease, after.lease.value);
    AddingKeeps(setting, system, after);
  }

  lemma CallKeeps(setting: Setting, system: System, lease: Lease, id: nat, writes: nat, now: int)
    requires Inv(setting, system) && system.lease == Some(lease) && id in lease.calls
    ensures var after := AfterCall(setting, system, lease, id, writes, now);
            Inv(setting, after) && Evolves(system, after)
  {
    hide Inv, Evolves, AfterCall;
    match lease.calls[id]
    case Prepares(_) => PrepareStepKeeps(setting, system, lease, id, writes, now);
    case Submits(_) => SubmitStepKeeps(setting, system, lease, id, writes, now);
    case Records(_) => RecordStepKeeps(setting, system, lease, id, writes, now);
    case _ => AskingKeeps(setting, system, lease, id, writes, now);
  }

  // ---------------------------------------------------------------- each step of the coordinator

  /** Phases that write nothing durable. */
  lemma ReadingPhaseKeeps(setting: Setting, system: System, lease: Lease, phase: Phase, writes: nat)
    requires Inv(setting, system) && system.lease == Some(lease) && lease.phase == Some(phase)
    requires !phase.MarksSuperseding? && !phase.Completes?
    ensures var after := AfterCoordinator(setting, system, lease, phase, writes);
            Inv(setting, after) && Evolves(system, after)
  {
    hide AllConsistent, IsAdmitted, CycleHolds, IsSealedAdmission, IsSubmitted, Accumulates, PhaseHolds,
         AfterCoordinator, CallHolds;
    var after := AfterCoordinator(setting, system, lease, phase, writes);
    NothingAdds(system.workspace);
    ReadingPhaseSteps(setting, system, lease, phase, writes);
    AskedHolds(setting, after.service, lease.cycle, after.workspace.cycles[lease.cycle]);
    LeaseGoesOn(setting, system, after, lease, after.lease.value);
    AddingKeeps(setting, system, after);
  }

  /** What such a phase changes: it may append the digest just read, and go on to a phase that it justifies. */
  lemma ReadingPhaseSteps(setting: Setting, system: System, lease: Lease, phase: Phase, writes: nat)
    requires LeaseHolds(setting, system, lease) && lease.phase == Some(phase)
    requires !phase.MarksSuperseding? && !phase.Completes? && system.lease == Some(lease)
    ensures var after := AfterCoordinator(setting, system, lease, phase, writes);
            && after == system.(lease := after.lease, rereads := after.rereads) && system.rereads <= after.rereads
            && after.lease.Some?
            && var next := after.lease.value;
               && next.cycle == lease.cycle && next.contract == lease.contract
               && (forall id <- next.calls ::
                     (id in lease.calls && next.calls[id] == lease.calls[id]) || next.calls[id].Asked?)
               && PhaseHolds(after, next, system.workspace.cycles[lease.cycle])
  {
    hide IsAdmitted;
  }

  lemma AskedHolds(setting: Setting, service: Authority.Stores, id: string, cycle: Cycle)
    ensures forall call: Call :: call.Asked? ==> CallHolds(setting, service, id, cycle, call)
  {
  }

  lemma MarkingKeeps(setting: Setting, system: System, lease: Lease, phase: Phase, writes: nat)
    requires Inv(setting, system) && system.lease == Some(lease) && lease.phase == Some(phase)
             && phase.MarksSuperseding?
    ensures var after := AfterCoordinator(setting, system, lease, phase, writes);
            Inv(setting, after) && Evolves(system, after)
  {
    hide AllConsistent, IsAdmitted, CycleHolds, IsSealedAdmission, IsSubmitted, Accumulates;
    var after := AfterCoordinator(setting, system, lease, phase, writes);
    var cycle := system.workspace.cycles[lease.cycle];
    NothingAdds(system.workspace);
    CycleIsConsistent(system.workspace, lease.cycle);
    OneCycleChanges(system.workspace, lease.cycle, cycle.(status := AnalysisWorkspace.Superseding));
    LeaseGoesOn(setting, system, after, lease, after.lease.value);
    AddingKeeps(setting, system, after);
  }

  /** Completing changes one cycle; the outcome it writes, if any, is the one it was asked for. */
  lemma ClosingSteps(workspace: Workspace, id: string, contract: string, outcome: CycleOutcome, writes: nat)
    requires AllConsistent(workspace) && id in workspace.cycles
    ensures var (after, closed) := Close(workspace, id, contract, outcome, writes);
            && AllConsistent(after) && Accumulates(workspace, after) && after.cycles.Keys == workspace.cycles.Keys
            && (forall other <- after.cycles :: other != id ==> after.cycles[other] == workspace.cycles[other])
            && after.cycles[id].contract == workspace.cycles[id].contract
            && after.cycles[id].candidate == workspace.cycles[id].candidate
            && (after.cycles[id].outcome != workspace.cycles[id].outcome ==>
                  workspace.cycles[id].outcome.None? && after.cycles[id].outcome == Some(outcome))
            && (closed ==>
                  && after.current.None? && after.cycles[id].status.Terminal?
                  && after.cycles[id].outcome == Some(outcome))
  {
    hide CanReconcile, Complete, Consistent, OnlyAdds;
    var cycle := workspace.cycles[id];
    var (completed, left) := Complete(cycle, contract, outcome, writes);
    CycleIsConsistent(workspace, id);
    CompletingKeeps(cycle, contract, outcome, writes);
    StatusIsFree(cycle, completed);
    OneCycleChanges(workspace, id, completed);
    OneCycleChanges(workspace, id, completed.(status := Terminal));
  }

  lemma StatusIsFree(before: Cycle, after: Cycle)
    requires Consistent(after) && OnlyAdds(before, after)
    ensures Consistent(after.(status := Terminal)) && OnlyAdds(before, after.(status := Terminal))
    ensures before.outcome.Some? ==> after.outcome == before.outcome
  {
  }

  /** A cycle completes as Candidate only with its recorded candidate, and only when the last digest read again was its
      own contract's, read for it. */
  lemma CompletionKeeps(setting: Setting, system: System, lease: Lease, phase: Phase, writes: nat)
    requires Inv(setting, system) && system.lease == Some(lease) && lease.phase == Some(phase) && phase.Completes?
    ensures var after := AfterCoordinator(setting, system, lease, phase, writes);
            Inv(setting, after) && Evolves(system, after)
    ensures var before := system.workspace.cycles[lease.cycle];
            var after := AfterCoordinator(setting, system, lease, phase, writes).workspace.cycles[lease.cycle];
            before.outcome.None? && after.outcome.Some? && after.outcome.value.Candidate? ==>
              && after.candidate == Some(after.outcome.value.candidate)
              && IsJustConfirmed(system.rereads, lease.cycle, before.contract)
  {
    hide AllConsistent, IsAdmitted, IsSealedAdmission, IsSubmitted, Accumulates, Close, Consistent, CallHolds, OnlyAdds,
         WithCycle;
    var after := AfterCoordinator(setting, system, lease, phase, writes);
    NothingAdds(system.workspace);
    ClosingSteps(system.workspace, lease.cycle, lease.contract, phase.outcome, writes);
    assert CycleHolds(setting, system, lease.cycle, system.workspace.cycles[lease.cycle]);
    assert CycleHolds(setting, after, lease.cycle, after.workspace.cycles[lease.cycle]);
    PhaseStays(setting, system, after, lease, after.lease.value);
    LeaseGoesOn(setting, system, after, lease, after.lease.value);
    AddingKeeps(setting, system, after);
  }

  lemma CoordinatorKeeps(setting: Setting, system: System, lease: Lease, phase: Phase, writes: nat)
    requires Inv(setting, system) && system.lease == Some(lease) && lease.phase == Some(phase)
    ensures var after := AfterCoordinator(setting, system, lease, phase, writes);
            Inv(setting, after) && Evolves(system, after)
  {
    hide Inv, Evolves, AfterCoordinator;
    match phase
    case MarksSuperseding(_) => MarkingKeeps(setting, system, lease, phase, writes);
    case Completes(_) => CompletionKeeps(setting, system, lease, phase, writes);
    case _ => ReadingPhaseKeeps(setting, system, lease, phase, writes);
  }

  // ---------------------------------------------------------------- every event, every run

  lemma ClaimKeeps(setting: Setting, system: System, contract: string, attempt: string, newId: string, eligible: bool,
                   writes: nat)
    requires Inv(setting, system)
    ensures var after := AfterClaim(system, contract, attempt, newId, eligible, writes);
            Inv(setting, after) && Evolves(system, after)
  {
    hide IsAdmitted, IsSealedAdmission, PrepareCycle, Consistent, CallHolds, OnlyAdds;
    var after := AfterClaim(system, contract, attempt, newId, eligible, writes);
    NothingAdds(system.workspace);
    if system.lease.None? {
      PreparingCycleKeeps(system.workspace, contract, newId, eligible, writes);
      ClosingHolds(setting, system, after, contract);
      AddingKeeps(setting, system, after);
    }
  }

  lemma ClosingHolds(setting: Setting, before: System, after: System, contract: string)
    requires Inv(setting, before) && OnlyCloses(before.workspace, after.workspace, contract)
    requires after == before.(workspace := after.workspace, lease := after.lease)
    ensures forall id <- after.workspace.cycles :: CycleHolds(setting, after, id, after.workspace.cycles[id])
  {
    hide IsAdmitted, IsSealedAdmission, AllConsistent, CallHolds, LeaseHolds, IsSubmitted, IsConfirmed;
    forall id | id in after.workspace.cycles
      ensures CycleHolds(setting, after, id, after.workspace.cycles[id])
    {
      if id in before.workspace.cycles {
        assert CycleHolds(setting, before, id, before.workspace.cycles[id]);
      }
    }
  }

  lemma WritingKeeps(setting: Setting, system: System, lease: Lease, evidence: string)
    requires Inv(setting, system) && system.lease == Some(lease)
    ensures var after := Within(setting, system, lease, Write(evidence)); Inv(setting, after) && Evolves(system, after)
  {
    hide AllConsistent, IsAdmitted, IsSealedAdmission, IsSubmitted, Accumulates, PhaseHolds;
    var after := Within(setting, system, lease, Write(evidence));
    var cycle := system.workspace.cycles[lease.cycle];
    CycleIsConsistent(system.workspace, lease.cycle);
    OneCycleChanges(system.workspace, lease.cycle, cycle.(evidence := evidence));
    PhaseStays(setting, system, after, lease, lease);
    LeaseGoesOn(setting, system, after, lease, lease);
    AddingKeeps(setting, system, after);
  }

  /** Events that touch nothing durable: a new call, a failure, a report, a poll, a stop, the release of the claim. */
  lemma VolatileKeeps(setting: Setting, system: System, lease: Lease, event: Event)
    requires Inv(setting, system) && system.lease == Some(lease)
    requires !event.Write? && !event.StepCall? && !event.StepCoordinator?
    ensures var after := Within(setting, system, lease, event); Inv(setting, after) && Evolves(system, after)
  {
    hide AllConsistent, IsAdmitted, IsSealedAdmission, IsSubmitted, Accumulates, CycleHolds, CallHolds;
    var after := Within(setting, system, lease, event);
    NothingAdds(system.workspace);
    if after.lease.Some? {
      AskedHolds(setting, after.service, lease.cycle, after.workspace.cycles[lease.cycle]);
      LeaseGoesOn(setting, system, after, lease, after.lease.value);
    }
    AddingKeeps(setting, system, after);
  }

  lemma MovingKeeps(setting: Setting, system: System, service: Authority.Stores)
    requires Inv(setting, system) && CanMove(setting, system.service, service)
    ensures Inv(setting, system.(service := service)) && Evolves(system, system.(service := service))
  {
    hide AllConsistent, IsSealedAdmission, IsSubmitted, Accumulates, PhaseHolds, CallHolds;
    var after := system.(service := service);
    NothingAdds(system.workspace);
    if system.lease.Some? {
      PhaseStays(setting, system, after, system.lease.value, system.lease.value);
      LeaseGoesOn(setting, system, after, system.lease.value, system.lease.value);
    }
    AddingKeeps(setting, system, after);
  }

  lemma WithinKeeps(setting: Setting, system: System, lease: Lease, event: Event)
    requires Inv(setting, system) && system.lease == Some(lease)
    ensures lease.cycle in system.workspace.cycles
    ensures var after := Within(setting, system, lease, event); Inv(setting, after) && Evolves(system, after)
  {
    hide Inv, Evolves, AfterCall, AfterCoordinator;
    CyclesExist(setting, system);
    NothingEvolves(system);
    match event
    case Write(evidence) => WritingKeeps(setting, system, lease, evidence);
    case StepCall(id, writes, now) => if id in lease.calls { CallKeeps(setting, system, lease, id, writes, now); }
    case StepCoordinator(writes) =>
      if lease.phase.Some? { CoordinatorKeeps(setting, system, lease, lease.phase.value, writes); }
    case _ => VolatileKeeps(setting, system, lease, event);
  }

  lemma CrashKeeps(setting: Setting, system: System)
    requires Inv(setting, system)
    ensures Inv(setting, system.(lease := None)) && Evolves(system, system.(lease := None))
  {
    hide AllConsistent, IsSealedAdmission, IsSubmitted, Accumulates, LeaseHolds, IsAdmitted;
    NothingAdds(system.workspace);
    AddingKeeps(setting, system, system.(lease := None));
  }

  lemma NothingEvolves(system: System)
    ensures Evolves(system, system)
  {
  }

  lemma CyclesExist(setting: Setting, system: System)
    requires Inv(setting, system)
    ensures AllCyclesExist(system)
  {
  }

  lemma EveryEventKeeps(setting: Setting, system: System, event: Event)
    requires Inv(setting, system)
    ensures AllCyclesExist(system)
    ensures Inv(setting, After(setting, system, event)) && Evolves(system, After(setting, system, event))
  {
    hide Inv, Evolves, AfterClaim, AfterCall, AfterCoordinator, CanMove;
    CyclesExist(setting, system);
    NothingEvolves(system);
    match event
    case Claim(contract, attempt, newId, eligible, writes) =>
      ClaimKeeps(setting, system, contract, attempt, newId, eligible, writes);
    case MoveService(service) =>
      if CanMove(setting, system.service, service) { MovingKeeps(setting, system, service); }
    case Crash => CrashKeeps(setting, system);
    case _ =>
      if system.lease.Some? { WithinKeeps(setting, system, system.lease.value, event); }
  }

  /** Before the first attempt: no cycles, and a service that knows nothing of this workspace. */
  predicate IsFresh(setting: Setting, system: System) {
    && system.workspace == Workspace(None, map[]) && system.lease.None?
    && system.submissions == [] && system.rereads == []
    && forall key <- system.service.admissions :: key.0 != setting.workspaceId
  }

  ghost function Run(setting: Setting, start: System, events: seq<Event>): (system: System)
    requires IsFresh(setting, start)
    ensures Inv(setting, system)
  {
    if events == [] then start
    else
      var before := Run(setting, start, events[..|events| - 1]);
      EveryEventKeeps(setting, before, events[|events| - 1]);
      After(setting, before, events[|events| - 1])
  }

  /** However often a cycle is attempted, crashes and is recovered, every submission of it carries the same attempt,
      rules and manifest. */
  lemma EverySubmissionIsTheSame(setting: Setting, start: System, events: seq<Event>, i: nat, j: nat)
    requires IsFresh(setting, start)
    requires var submissions := Run(setting, start, events).submissions;
             i < |submissions| && j < |submissions| && submissions[i].cycle == submissions[j].cycle
    ensures Run(setting, start, events).submissions[i] == Run(setting, start, events).submissions[j]
  {
    hide Run, AllConsistent, IsSealedAdmission, CycleHolds, LeaseHolds;
    var system := Run(setting, start, events);
    assert IsSubmitted(system.workspace, system.submissions[i]) && IsSubmitted(system.workspace, system.submissions[j]);
  }

  /** A cycle that completed as Candidate did so with its one recorded candidate, which the service admitted from the
      sealed proposal, after the contract's current digest had been read again and was still the cycle's. */
  lemma CandidateOutcomeIsTheSealedOne(setting: Setting, start: System, events: seq<Event>, id: string)
    requires IsFresh(setting, start)
    requires var cycles := Run(setting, start, events).workspace.cycles;
             id in cycles && cycles[id].outcome.Some? && cycles[id].outcome.value.Candidate?
    ensures var system := Run(setting, start, events);
            var cycle := system.workspace.cycles[id];
            var candidate := cycle.outcome.value.candidate;
            var key := (setting.workspaceId, id);
            && cycle.candidate == Some(candidate)
            && cycle.pending.Some? && candidate.manifest == cycle.pending.value.manifest
            && key in system.service.admissions
            && system.service.admissions[key].attempt == cycle.pending.value.attempt
            && system.service.admissions[key].contract == cycle.contract
            && system.service.admissions[key].executable == candidate.executable
            && candidate.executable == setting.compile(cycle.contract, cycle.pending.value.rules)
            && (id, Some(cycle.contract)) in system.rereads
  {
    hide Run, LeaseHolds, IsSubmitted;
    var system := Run(setting, start, events);
    assert CycleHolds(setting, system, id, system.workspace.cycles[id]);
    CycleIsConsistent(system.workspace, id);
  }

  // ---------------------------------------------------------------- who decides, and on what

  lemma CallsDecideNothing(setting: Setting, system: System, lease: Lease, id: nat, writes: nat, now: int)
    requires Inv(setting, system) && system.lease == Some(lease) && id in lease.calls
    ensures var after := AfterCall(setting, system, lease, id, writes, now).workspace.cycles;
            forall other <- system.workspace.cycles ::
              other in after && after[other].outcome == system.workspace.cycles[other].outcome
  {
    hide Prepare, Record, Answer, Consistent, OnlyAdds, IsSubmitted, IsSealedAdmission, CycleHolds, CallHolds,
         PhaseHolds, Authority.PutAnalysisCandidate;
    var cycle := system.workspace.cycles[lease.cycle];
    CycleIsConsistent(system.workspace, lease.cycle);
    match lease.calls[id]
    case Prepares(rules) =>
      PreparingKeeps(setting.digestOf, cycle, lease.writable, lease.attempt, rules, writes);
    case Records(record) => RecordingKeeps(cycle, record, writes);
    case _ =>
  }

  lemma OthersAreNotDecided(setting: Setting, system: System, lease: Lease, phase: Phase, writes: nat, other: string)
    requires Inv(setting, system) && system.lease == Some(lease) && lease.phase == Some(phase)
    requires other in system.workspace.cycles && (!phase.Completes? || other != lease.cycle)
    ensures var after := AfterCoordinator(setting, system, lease, phase, writes).workspace.cycles;
            other in after && after[other].outcome == system.workspace.cycles[other].outcome
  {
    hide Close, Consistent, OnlyAdds, IsSubmitted, IsSealedAdmission, CycleHolds, CallHolds, PhaseHolds, AllConsistent;
    if phase.Completes? {
      ClosingSteps(system.workspace, lease.cycle, lease.contract, phase.outcome, writes);
    }
  }

  /** A cycle becomes a Candidate cycle only by a step of its own attempt's coordinator, in the moment after which the
      last digest read again is the cycle's own. */
  lemma OnlyConfirmedCyclesBecomeCandidates(setting: Setting, system: System, event: Event, id: string)
    requires Inv(setting, system) && id in system.workspace.cycles && system.workspace.cycles[id].outcome.None?
    ensures AllCyclesExist(system) && id in After(setting, system, event).workspace.cycles
    ensures var after := After(setting, system, event);
            var outcome := after.workspace.cycles[id].outcome;
            outcome.Some? && outcome.value.Candidate? ==>
              && event.StepCoordinator? && system.lease.Some? && system.lease.value.cycle == id
              && system.lease.value.phase == Some(Completes(outcome.value))
              && after.workspace.cycles[id].candidate == Some(outcome.value.candidate)
              && after.rereads == system.rereads
              && IsJustConfirmed(system.rereads, id, system.workspace.cycles[id].contract)
  {
    hide Inv, PrepareCycle, AfterCall, AfterCoordinator, Evolves, CanMove, OnlyAdds, Accumulates, Consistent,
         IsJustConfirmed;
    CyclesExist(setting, system);
    EveryEventKeeps(setting, system, event);
    EvolvingKeepsCycles(system, After(setting, system, event), id);
    match event
    case Claim(contract, attempt, newId, eligible, writes) =>
      AllAreConsistent(setting, system);
      PreparingCycleKeeps(system.workspace, contract, newId, eligible, writes);
    case StepCall(call, writes, now) =>
      if system.lease.Some? && call in system.lease.value.calls {
        CallsDecideNothing(setting, system, system.lease.value, call, writes, now);
      }
    case StepCoordinator(writes) =>
      if system.lease.Some? && system.lease.value.phase.Some? {
        CoordinatorDecides(setting, system, system.lease.value, system.lease.value.phase.value, writes, id);
      }
    case _ =>
  }

  lemma CoordinatorDecides(setting: Setting, system: System, lease: Lease, phase: Phase, writes: nat, id: string)
    requires Inv(setting, system) && system.lease == Some(lease) && lease.phase == Some(phase)
    requires id in system.workspace.cycles && system.workspace.cycles[id].outcome.None?
    ensures lease.cycle in system.workspace.cycles
    ensures var after := AfterCoordinator(setting, system, lease, phase, writes);
            && id in after.workspace.cycles
            && var outcome := after.workspace.cycles[id].outcome;
               outcome.Some? && outcome.value.Candidate? ==>
                 && lease.cycle == id && phase == Completes(outcome.value)
                 && after.workspace.cycles[id].candidate == Some(outcome.value.candidate)
                 && after.rereads == system.rereads
                 && IsJustConfirmed(system.rereads, id, system.workspace.cycles[id].contract)
  {
    hide Inv, Close, IsJustConfirmed, Evolves;
    CyclesExist(setting, system);
    if phase.Completes? && lease.cycle == id {
      CompletionKeeps(setting, system, lease, phase, writes);
      AllAreConsistent(setting, system);
      ClosingSteps(system.workspace, id, lease.contract, phase.outcome, writes);
    } else {
      OthersAreNotDecided(setting, system, lease, phase, writes, id);
    }
  }

  lemma AllAreConsistent(setting: Setting, system: System)
    requires Inv(setting, system)
    ensures AllConsistent(system.workspace)
  {
  }

  lemma EvolvingKeepsCycles(before: System, after: System, id: string)
    requires Evolves(before, after) && id in before.workspace.cycles
    ensures id in after.workspace.cycles && after.workspace.cycles[id].contract == before.workspace.cycles[id].contract
  {
  }

  /** The coordinator has read the digest again, found it unchanged, and goes on towards a Candidate outcome. */
  predicate IsConfirming(phase: Option<Phase>) {
    phase.Some? && (phase.value.Accepts? || (phase.value.Completes? && phase.value.outcome.Candidate?))
  }

  /** Such a phase was either reached before, in the same claim, or has just been justified by the service. */
  lemma ConfirmationHasASource(setting: Setting, system: System, event: Event)
    requires AllCyclesExist(system)
    requires var after := After(setting, system, event); after.lease.Some? && IsConfirming(after.lease.value.phase)
    ensures var next := After(setting, system, event).lease.value;
            && system.lease.Some?
            && system.lease.value.cycle == next.cycle && system.lease.value.contract == next.contract
            && (|| IsConfirming(system.lease.value.phase)
                || CurrentDigest(setting, system.service) == Some(next.contract))
  {
    hide PrepareCycle, AfterCall, AfterCoordinator, CurrentDigest;
    match event
    case StepCall(id, writes, now) =>
      if system.lease.Some? && id in system.lease.value.calls {
        CallsKeepThePhase(setting, system, system.lease.value, id, writes, now);
      }
    case StepCoordinator(writes) =>
      if system.lease.Some? && system.lease.value.phase.Some? {
        CoordinatorConfirms(setting, system, system.lease.value, system.lease.value.phase.value, writes);
      }
    case _ =>
  }

  lemma CoordinatorConfirms(setting: Setting, system: System, lease: Lease, phase: Phase, writes: nat)
    requires lease.cycle in system.workspace.cycles && system.lease == Some(lease) && lease.phase == Some(phase)
    ensures var after := AfterCoordinator(setting, system, lease, phase, writes).lease;
            && after.Some? && after.value.cycle == lease.cycle && after.value.contract == lease.contract
            && (IsConfirming(after.value.phase) ==>
                  IsConfirming(lease.phase) || CurrentDigest(setting, system.service) == Some(lease.contract))
  {
    hide Close, CurrentDigest;
  }

  lemma CallsKeepThePhase(setting: Setting, system: System, lease: Lease, id: nat, writes: nat, now: int)
    requires id in lease.calls && lease.cycle in system.workspace.cycles && system.lease == Some(lease)
    ensures var after := AfterCall(setting, system, lease, id, writes, now).lease;
            && after.Some? && after.value.cycle == lease.cycle && after.value.contract == lease.contract
            && (after.value.phase == lease.phase || after.value.phase.None?)
  {
    hide Prepare, Record, Answer, Authority.PutAnalysisCandidate, CurrentDigest;
  }

  /** From the moment j up to the moment k one claim has held the cycle, and at the moment j the service's current
      digest was that of the cycle's contract. */
  ghost predicate HeldAndConfirmed(setting: Setting, start: System, events: seq<Event>, j: nat, k: nat, id: string)
    requires IsFresh(setting, start) && k <= |events|
  {
    && j < k
    && (forall i | j <= i <= k ::
          var lease := Run(setting, start, events[..i]).lease; lease.Some? && lease.value.cycle == id)
    && Run(setting, start, events[..k]).lease.Some?
    && CurrentDigest(setting, Run(setting, start, events[..j]).service)
         == Some(Run(setting, start, events[..k]).lease.value.contract)
  }

  lemma {:induction false} ConfirmingWasConfirmed(setting: Setting, start: System, events: seq<Event>, k: nat)
    returns (j: nat)
    requires IsFresh(setting, start) && k <= |events|
    requires var lease := Run(setting, start, events[..k]).lease; lease.Some? && IsConfirming(lease.value.phase)
    ensures HeldAndConfirmed(setting, start, events, j, k, Run(setting, start, events[..k]).lease.value.cycle)
  {
    hide Inv, After, IsConfirming, CurrentDigest;
    if k == 0 {
      assert false;
    } else {
      var before := Run(setting, start, events[..k - 1]);
      assert events[..k][..k - 1] == events[..k - 1];
      CyclesExist(setting, before);
      ConfirmationHasASource(setting, before, events[k - 1]);
      if IsConfirming(before.lease.value.phase) {
        j := ConfirmingWasConfirmed(setting, start, events, k - 1);
      } else {
        j := k - 1;
      }
    }
  }

  /** Whenever a cycle becomes a Candidate cycle, the attempt that decides it has itself found the service's current
      digest to be the cycle's own, and has held the workspace ever since. */
  lemma CandidateIsConfirmedByItsOwnAttempt(setting: Setting, start: System, events: seq<Event>, k: nat, id: string)
    requires IsFresh(setting, start) && k < |events|
    requires var before := Run(setting, start, events[..k]).workspace.cycles;
             var after := Run(setting, start, events[..k + 1]).workspace.cycles;
             && id in before && before[id].outcome.None?
             && id in after && after[id].outcome.Some? && after[id].outcome.value.Candidate?
    ensures exists j :: HeldAndConfirmed(setting, start, events, j, k, id)
    ensures Run(setting, start, events[..k]).lease.value.contract
              == Run(setting, start, events[..k]).workspace.cycles[id].contract
  {
    hide After, HeldAndConfirmed, AllConsistent, IsSealedAdmission, IsSubmitted, CycleHolds, CallHolds, PhaseHolds;
    var before := Run(setting, start, events[..k]);
    assert events[..k + 1][..k] == events[..k];
    OnlyConfirmedCyclesBecomeCandidates(setting, before, events[k], id);
    var j := ConfirmingWasConfirmed(setting, start, events, k);
  }

  // ---------------------------------------------------------------- a second answer for the same cycle

  /** Once a candidate is recorded, a later answer for the cycle is the recorded one up to the flag that tells whether
      it was created just then, and it is accepted exactly when the flag is the same. */
  lemma LaterAnswerIsAcceptedExactlyIf(setting: Setting, system: System, lease: Lease, id: nat, writes: nat, now: int)
    requires Inv(setting, system) && system.lease == Some(lease) && id in lease.calls && lease.calls[id].Records?
    requires lease.active && system.workspace.cycles[lease.cycle].candidate.Some?
    ensures var record := lease.calls[id].record;
            var stored := system.workspace.cycles[lease.cycle].candidate.value;
            var after := AfterCall(setting, system, lease, id, writes, now).lease;
            && record == stored.(created := record.created)
            && after.Some?
            && (id in after.value.calls <==> record.created == stored.created)
            && (id in after.value.calls ==> after.value.calls[id] == Returned(record))
  {
    hide AllConsistent, IsSealedAdmission, IsSubmitted, PhaseHolds;
    var cycle := system.workspace.cycles[lease.cycle];
    assert CycleHolds(setting, system, lease.cycle, cycle);
    assert CallHolds(setting, system.service, lease.cycle, cycle, lease.calls[id]);
    CycleIsConsistent(system.workspace, lease.cycle);
  }

  /** One claim on a fresh workspace, and what has come of it so far. */
  function OneClaim(start: System, cycle: Cycle, service: Authority.Stores, lease: Lease,
                    submissions: seq<Submission>): System {
    System(Workspace(Some(lease.cycle), map[lease.cycle := cycle]), service, Some(lease), submissions, start.rereads)
  }

  function TwoCalls(contract: string, id: string, attempt: string, writable: bool, first: Call, second: Call): Lease {
    Lease(contract, id, attempt, true, writable, Some(Runs), map[1 := first, 2 := second])
  }

  lemma NextCalls(contract: string, id: string, attempt: string, writable: bool, first: Call, second: Call, next: Call)
    ensures var lease := TwoCalls(contract, id, attempt, writable, first, second);
            && WithCall(lease, 1, next) == TwoCalls(contract, id, attempt, writable, next, second)
            && WithCall(lease, 2, next) == TwoCalls(contract, id, attempt, writable, first, next)
  {
    assert map[1 := first, 2 := second][1 := next] == map[1 := next, 2 := second];
    assert map[1 := first, 2 := second][2 := next] == map[1 := first, 2 := next];
  }

  lemma OnlyCycle(id: string, first: Cycle, second: Cycle)
    ensures map[id := first][id := second] == map[id := second]
    ensures map[][id := first] == map[id := first]
  {
  }

  lemma RunOn(setting: Setting, start: System, events: seq<Event>, event: Event)
    requires IsFresh(setting, start)
    ensures AllCyclesExist(Run(setting, start, events))
    ensures Run(setting, start, events + [event]) == After(setting, Run(setting, start, events), event)
  {
    hide After, Inv;
    assert (events + [event])[..|events|] == events;
    CyclesExist(setting, Run(setting, start, events));
  }

  /** The agent asks twice with the same rules before it has an answer. */
  function AskedTwice(contract: string, id: string, attempt: string, rules: string): seq<Event> {
    [Claim(contract, attempt, id, true, 4)] + [StepCoordinator(0)] + [CallTool(1, rules)] + [CallTool(2, rules)]
  }

  function SealedBy(setting: Setting, contract: string, attempt: string, rules: string): Cycle {
    var proposal := Proposal(attempt, rules, setting.digestOf(""));
    NewCycle(contract).(pending := Some(proposal), manifest := Some(""), proposal := Some(proposal))
  }

  lemma ClaimingOnce(setting: Setting, start: System, contract: string, id: string, attempt: string)
    requires IsFresh(setting, start)
    ensures var events := [Claim(contract, attempt, id, true, 4)] + [StepCoordinator(0)];
            Run(setting, start, events)
              == OneClaim(start, NewCycle(contract), start.service,
                          Lease(contract, id, attempt, true, true, Some(Runs), map[]), [])
  {
    hide Inv, Run;
    var events := [Claim(contract, attempt, id, true, 4)];
    OnlyCycle(id, NewCycle(contract), NewCycle(contract));
    NothingHasRun(setting, start);
    RunOn(setting, start, [], events[0]);
    assert [] + events == events;
    RunOn(setting, start, events, StepCoordinator(0));
  }

  lemma NothingHasRun(setting: Setting, start: System)
    requires IsFresh(setting, start)
    ensures Run(setting, start, []) == start
  {
  }

  lemma AskingTwice(setting: Setting, start: System, contract: string, id: string, attempt: string, rules: string)
    requires IsFresh(setting, start)
    ensures Run(setting, start, AskedTwice(contract, id, attempt, rules))
              == OneClaim(start, NewCycle(contract), start.service,
                          TwoCalls(contract, id, attempt, true, Asked(rules), Asked(rules)), [])
  {
    hide Inv, Run;
    var events := [Claim(contract, attempt, id, true, 4)] + [StepCoordinator(0)];
    ClaimingOnce(setting, start, contract, id, attempt);
    RunOn(setting, start, events, CallTool(1, rules));
    RunOn(setting, start, events + [CallTool(1, rules)], CallTool(2, rules));
    assert map[][1 := Asked(rules)][2 := Asked(rules)] == map[1 := Asked(rules), 2 := Asked(rules)];
  }

  /** Both calls take their next step, the first one first. */
  lemma BothStep(setting: Setting, start: System, events: seq<Event>, writes: nat, middle: System, last: System)
    requires IsFresh(setting, start)
    requires AllCyclesExist(middle) && AllCyclesExist(Run(setting, start, events))
    requires After(setting, Run(setting, start, events), StepCall(1, writes, 0)) == middle
    requires After(setting, middle, StepCall(2, writes, 0)) == last
    ensures Run(setting, start, events + Both(writes)) == last
    ensures Run(setting, start, events + Both(writes)[..1]) == middle
  {
    hide Inv, After;
    RunOn(setting, start, events, StepCall(1, writes, 0));
    RunOn(setting, start, events + [StepCall(1, writes, 0)], StepCall(2, writes, 0));
    assert events + Both(writes) == events + [StepCall(1, writes, 0)] + [StepCall(2, writes, 0)];
  }

  function Both(writes: nat): (events: seq<Event>)
    ensures |events| == 2 && events[..1] == [StepCall(1, writes, 0)]
  {
    [StepCall(1, writes, 0), StepCall(2, writes, 0)]
  }

  /** Both calls have found the same sealed proposal, and both are about to submit it. */
  function SubmittingTwice(contract: string, id: string, attempt: string, rules: string): seq<Event> {
    AskedTwice(contract, id, attempt, rules) + Both(0) + Both(3) + Both(0)
  }

  lemma AskingBoth(setting: Setting, start: System, contract: string, id: string, attempt: string, rules: string)
    requires IsFresh(setting, start) && rules != "" && CurrentDigest(setting, start.service) == Some(contract)
    ensures Run(setting, start, AskedTwice(contract, id, attempt, rules) + Both(0))
              == OneClaim(start, NewCycle(contract), start.service,
                          TwoCalls(contract, id, attempt, true, Prepares(rules), Prepares(rules)), [])
  {
    hide Inv, Run, AskedTwice, Both, CurrentDigest;
    var asked, prepares := Asked(rules), Prepares(rules);
    AskingTwice(setting, start, contract, id, attempt, rules);
    NextCalls(contract, id, attempt, true, asked, asked, prepares);
    NextCalls(contract, id, attempt, true, prepares, asked, prepares);
    BothStep(setting, start, AskedTwice(contract, id, attempt, rules), 0,
             OneClaim(start, NewCycle(contract), start.service,
                      TwoCalls(contract, id, attempt, true, prepares, asked), []),
             OneClaim(start, NewCycle(contract), start.service,
                      TwoCalls(contract, id, attempt, true, prepares, prepares), []));
  }

  lemma SealingOnce(setting: Setting, start: System, contract: string, id: string, attempt: string, rules: string)
    requires IsFresh(setting, start) && rules != "" && CurrentDigest(setting, start.service) == Some(contract)
    ensures var cycle := SealedBy(setting, contract, attempt, rules);
            var call := ChecksRecord(cycle.pending.value);
            Run(setting, start, AskedTwice(contract, id, attempt, rules) + Both(0) + Both(3))
              == OneClaim(start, cycle, start.service, TwoCalls(contract, id, attempt, false, call, call), [])
  {
    hide Inv, Run, AskedTwice, Both, CurrentDigest;
    var open, cycle := NewCycle(contract), SealedBy(setting, contract, attempt, rules);
    var prepares, checks := Prepares(rules), ChecksRecord(cycle.pending.value);
    AskingBoth(setting, start, contract, id, attempt, rules);
    OnlyCycle(id, open, cycle);
    OnlyCycle(id, cycle, cycle);
    NextCalls(contract, id, attempt, true, prepares, prepares, checks);
    NextCalls(contract, id, attempt, false, checks, prepares, checks);
    BothStep(setting, start, AskedTwice(contract, id, attempt, rules) + Both(0), 3,
             OneClaim(start, cycle, start.service, TwoCalls(contract, id, attempt, false, checks, prepares), []),
             OneClaim(start, cycle, start.service, TwoCalls(contract, id, attempt, false, checks, checks), []));
  }

  lemma CheckingBoth(setting: Setting, start: System, contract: string, id: string, attempt: string, rules: string)
    requires IsFresh(setting, start) && rules != "" && CurrentDigest(setting, start.service) == Some(contract)
    ensures var cycle := SealedBy(setting, contract, attempt, rules);
            var call := Submits(cycle.pending.value);
            Run(setting, start, SubmittingTwice(contract, id, attempt, rules))
              == OneClaim(start, cycle, start.service, TwoCalls(contract, id, attempt, false, call, call), [])
  {
    hide Inv, Run, AskedTwice, Both, CurrentDigest;
    var cycle := SealedBy(setting, contract, attempt, rules);
    var checks, submits := ChecksRecord(cycle.pending.value), Submits(cycle.pending.value);
    SealingOnce(setting, start, contract, id, attempt, rules);
    NextCalls(contract, id, attempt, false, checks, checks, submits);
    NextCalls(contract, id, attempt, false, submits, checks, submits);
    BothStep(setting, start, AskedTwice(contract, id, attempt, rules) + Both(0) + Both(3), 0,
             OneClaim(start, cycle, start.service, TwoCalls(contract, id, attempt, false, submits, checks), []),
             OneClaim(start, cycle, start.service, TwoCalls(contract, id, attempt, false, submits, submits), []));
  }

  function AdmittedOnce(setting: Setting, service: Authority.Stores, admission: Authority.Admission): Authority.Stores {
    Authority.PutAnalysisCandidate(service, admission, setting.artifactOf(admission.executable)).0
  }

  lemma AdmittingTwice(setting: Setting, start: System, id: string, contract: string, proposal: Proposal)
    requires IsFresh(setting, start) && CurrentDigest(setting, start.service) == Some(contract)
    requires setting.compile(contract, proposal.rules) !in start.service.executables
    ensures var admission := AdmissionOf(setting, id, contract, proposal, 0);
            var artifact := setting.artifactOf(admission.executable);
            var service := AdmittedOnce(setting, start.service, admission);
            var created := CandidateRecord(admission.executable, 0, true, proposal.manifest);
            var (first, second) := (Authority.PutAnalysisCandidate(start.service, admission, artifact),
                                    Authority.PutAnalysisCandidate(service, admission, artifact));
            && Answer(start.service, admission, first.1) == Some(created)
            && second.0 == service && Answer(service, admission, second.1) == Some(created.(created := false))
            && Authority.IsCurrent(start.service, setting.name, contract)
            && Authority.IsCurrent(service, setting.name, contract)
  {
  }

  lemma RecordingOnce(setting: Setting, start: System, events: seq<Event>, answered: System, cycle: Cycle, id: string,
                      created: CandidateRecord)
    requires IsFresh(setting, start) && Run(setting, start, events) == answered && created.created
    requires cycle.proposal.Some? && cycle.proposal.value.manifest == created.manifest && cycle.candidate.None?
    requires answered.workspace == Workspace(Some(id), map[id := cycle]) && answered.lease.Some?
    requires var lease := answered.lease.value;
             && lease.active && lease.cycle == id && lease.phase == Some(Runs)
             && lease.calls == map[1 := Records(created), 2 := Records(created.(created := false))]
    ensures var recorded := Run(setting, start, events + Both(1)[..1]);
            var refused := Run(setting, start, events + Both(1));
            && recorded.lease == Some(answered.lease.value.(
                                        calls := map[1 := Returned(created), 2 := Records(created.(created := false))]))
            && refused.lease == Some(answered.lease.value.(calls := map[1 := Returned(created)]))
            && refused.workspace == Workspace(Some(id), map[id := cycle.(candidate := Some(created))])
  {
    hide Inv, Run;
    var lease := answered.lease.value;
    var other := Records(created.(created := false));
    var closed := cycle.(candidate := Some(created));
    OnlyCycle(id, cycle, closed);
    OnlyCycle(id, closed, closed);
    assert lease.calls[1 := Returned(created)] == map[1 := Returned(created), 2 := other];
    assert map[1 := Returned(created), 2 := other] - {2} == map[1 := Returned(created)];
    var middle := answered.(workspace := Workspace(Some(id), map[id := closed]),
                            lease := Some(lease.(calls := map[1 := Returned(created), 2 := other])));
    BothStep(setting, start, events, 1, middle,
             middle.(lease := Some(lease.(calls := map[1 := Returned(created)]))));
  }

  /** Both calls have an answer; the first one is recorded; the second one is refused. */
  ghost predicate IsRefusal(answered: System, recorded: System, refused: System, id: string, created: CandidateRecord) {
    && answered.lease.Some? && recorded.lease.Some? && refused.lease.Some?
    && answered.lease.value.calls == map[1 := Records(created), 2 := Records(created.(created := false))]
    && recorded.lease.value.calls == map[1 := Returned(created), 2 := Records(created.(created := false))]
    && refused.lease.value.calls == map[1 := Returned(created)]
    && id in refused.workspace.cycles && refused.workspace.cycles[id].candidate == Some(created)
  }

  /** A run in which it happens: two calls submit the same proposal, the service admits it once and answers both; the
      first answer is recorded, the second one is refused, since it says that nothing was created. */
  lemma SecondAnswerIsRefused(setting: Setting, start: System, contract: string, id: string, attempt: string,
                              rules: string)
    requires IsFresh(setting, start) && rules != "" && CurrentDigest(setting, start.service) == Some(contract)
    requires setting.compile(contract, rules) !in start.service.executables
    ensures var events := SubmittingTwice(contract, id, attempt, rules);
            var created := CandidateRecord(setting.compile(contract, rules), 0, true, setting.digestOf(""));
            IsRefusal(Run(setting, start, events + Both(0)), Run(setting, start, events + Both(0) + Both(1)[..1]),
                      Run(setting, start, events + Both(0) + Both(1)), id, created)
  {
    hide Inv, Run, SubmittingTwice, Authority.PutAnalysisCandidate, Answer;
    var events := SubmittingTwice(contract, id, attempt, rules);
    var cycle := SealedBy(setting, contract, attempt, rules);
    var proposal := cycle.pending.value;
    var admission := AdmissionOf(setting, id, contract, proposal, 0);
    var service := AdmittedOnce(setting, start.service, admission);
    var created := CandidateRecord(setting.compile(contract, rules), 0, true, proposal.manifest);
    var first, second := Records(created), Records(created.(created := false));
    var submission := Submission(id, attempt, rules, proposal.manifest);
    CheckingBoth(setting, start, contract, id, attempt, rules);
    AdmittingTwice(setting, start, id, contract, proposal);
    NextCalls(contract, id, attempt, false, Submits(proposal), Submits(proposal), first);
    NextCalls(contract, id, attempt, false, first, Submits(proposal), second);
    var answered := OneClaim(start, cycle, service, TwoCalls(contract, id, attempt, false, first, second),
                             [submission, submission]);
    BothStep(setting, start, events, 0,
             OneClaim(start, cycle, service, TwoCalls(contract, id, attempt, false, first, Submits(proposal)),
                      [submission]),
             answered);
    RecordingOnce(setting, start, events + Both(0), answered, cycle, id, created);
  }

  /** The digests recorded as read again are what the service had as current at that moment. */
  lemma RereadsAreCurrent(setting: Setting, system: System, event: Event)
    requires Inv(setting, system)
    ensures AllCyclesExist(system)
    ensures var after := After(setting, system, event);
            && |after.rereads| <= |system.rereads| + 1
            && (|after.rereads| > |system.rereads| ==>
                  && system.lease.Some?
                  && after.rereads[|system.rereads|]
                      == (system.lease.value.cycle, CurrentDigest(setting, system.service)))
  {
    hide Inv, PrepareCycle, Prepare, Record, Complete, Reconciled, Authority.PutAnalysisCandidate;
    CyclesExist(setting, system);
  }

  lemma {:induction false} RunEvolves(setting: Setting, start: System, events: seq<Event>, m: nat, n: nat)
    requires IsFresh(setting, start) && m <= n <= |events|
    ensures Evolves(Run(setting, start, events[..m]), Run(setting, start, events[..n]))
  {
    hide Inv, After, AllCyclesExist;
    var earlier := Run(setting, start, events[..m]);
    if m == n {
      NothingAdds(earlier.workspace);
    } else {
      RunEvolves(setting, start, events, m, n - 1);
      assert events[..n][..n - 1] == events[..n - 1];
      EveryEventKeeps(setting, Run(setting, start, events[..n - 1]), events[n - 1]);
    }
  }

  /** Once sealed, recorded or decided, a cycle's proposal, candidate and outcome stay what they are. */
  lemma WhatIsWrittenStays(setting: Setting, start: System, events: seq<Event>, m: nat, id: string)
    requires IsFresh(setting, start) && m <= |events| && id in Run(setting, start, events[..m]).workspace.cycles
    ensures id in Run(setting, start, events).workspace.cycles
    ensures OnlyAdds(Run(setting, start, events[..m]).workspace.cycles[id],
                     Run(setting, start, events).workspace.cycles[id])
  {
    hide Run, OnlyAdds;
    RunEvolves(setting, start, events, m, |events|);
    assert events[..|events|] == events;
  }

  /** The service is never asked to admit a second, different candidate for a cycle. */
  lemma NoAdmissionConflict(setting: Setting, start: System, events: seq<Event>, id: nat, now: int)
    requires IsFresh(setting, start)
    requires var system := Run(setting, start, events);
             system.lease.Some? && id in system.lease.value.calls && system.lease.value.calls[id].Submits?
    ensures var system := Run(setting, start, events);
            var lease := system.lease.value;
            var admission := AdmissionOf(setting, lease.cycle, lease.contract, lease.calls[id].proposal, now);
            Authority.PutAnalysisCandidate(system.service, admission, setting.artifactOf(admission.executable)).1
              != Authority.AdmissionConflict
  {
    hide Run, Inv;
    var system := Run(setting, start, events);
    SubmissionIsSealed(setting, system, system.lease.value, id, now);
  }
}
