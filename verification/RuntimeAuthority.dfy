/** Who may decide at runtime: concurrent deployments, candidate submissions, manual activations, the background
    worker and catalog reads over the two stores, one store call at a time, with a crash possible between any two. */
module RuntimeAuthority {
  import opened Wrappers
  import opened AuthorityStores

  /** What validation and compilation give. A contract's digest fixes its generated default and, when every authored
      rule is an expression, its authored executable; an executable's digest fixes the contract it is bound to. */
  datatype Compiler = Compiler(
    digestOf: string -> string,
    defaultOf: string -> string,
    authoredOf: string -> Option<string>,
    contractOf: string -> string,
    artifactOf: string -> string,
    autoActivates: string -> bool,
    recompiles: (string, string) -> bool,
    materializes: (string, string, string) -> bool
  ) {
    ghost predicate Valid() {
      && (forall contract: string :: contractOf(defaultOf(contract)) == contract)
      && (forall contract: string :: authoredOf(contract).Some? ==> contractOf(authoredOf(contract).value) == contract)
    }
  }

  // ---------------------------------------------------------------- tasks

  datatype DeployPhase =
    | PutsVersion | ReadsVersion | ReadsActive | PutsDefault | ActivatesDefault | ReadsAfterDefault
    | PutsAuthored | ActivatesAuthored | ReadsAfterAuthored | AwaitsLock | SetsCurrent

  datatype SubmitPhase = ReadsAccepted | AwaitsTurn | ChecksCurrent | PutsAdmission

  datatype WorkPhase = ReadsContract | ReadsCandidate(document: string) | Resolves(action: Action)

  datatype Task =
    | Deploying(name: string, document: string, authority: string, deployPhase: DeployPhase)
    | Submitting(admission: Admission, artifact: string, submitPhase: SubmitPhase)
    | Activating(command: ActivationCommand, found: bool)
    | Working(pending: seq<Snapshot>, workPhase: WorkPhase)
    | Cataloguing(unread: set<string>, missing: bool)

  /** The mutex lives in the process: it is free again once its holder or the process is gone. */
  datatype System = System(stores: Stores, tasks: map<nat, Task>, mutex: Option<nat>)

  datatype Event = Begin(id: nat, task: Task) | Advance(id: nat) | Skip(id: nat) | Crash(id: nat) | Restart

  /** What discovery may report: any page of candidates that are waiting at that moment. */
  ghost predicate IsPending(stores: Stores, snapshot: Snapshot) {
    var admission := snapshot.admission;
    && admission.Key() in stores.admissions && stores.admissions[admission.Key()] == admission
    && admission.executable in stores.executables
    && stores.executables[admission.executable].state == Candidate
    && stores.executables[admission.executable].version == snapshot.candidateVersion
    && snapshot.active == ActiveToken(stores, admission.contract)
  }

  ghost predicate CanBegin(compiler: Compiler, stores: Stores, task: Task) {
    match task
    case Deploying(_, _, _, phase) => phase == PutsVersion
    case Submitting(admission, _, phase) =>
      phase == ReadsAccepted && compiler.contractOf(admission.executable) == admission.contract
    case Activating(_, found) => !found
    case Working(pending, phase) =>
      phase == ReadsContract && pending != [] && forall i :: 0 <= i < |pending| ==> IsPending(stores, pending[i])
    case Cataloguing(unread, missing) => !missing && unread == stores.current.Values
  }

  datatype Progress = Progress(stores: Stores, task: Option<Task>, mutex: Option<nat>)

  ghost function ActiveDigest(stores: Stores, contract: string): Option<string> {
    var token := ActiveToken(stores, contract);
    if token.Some? then Some(token.value.executable) else None
  }

  /** Having read what is active: bootstrap the authored executable, give up, or go on to make the version current. */
  function AfterReading(compiler: Compiler, task: Task, active: Option<string>): Option<Task>
    requires task.Deploying?
  {
    var contract := compiler.digestOf(task.document);
    if compiler.authoredOf(contract).Some? && active == Some(compiler.defaultOf(contract))
    then Some(task.(deployPhase := PutsAuthored))
    else if active.None? then None
    else Some(task.(deployPhase := AwaitsLock))
  }

  ghost function Deploy(compiler: Compiler, stores: Stores, mutex: Option<nat>, id: nat, task: Task): Progress
    requires task.Deploying?
  {
    var contract := compiler.digestOf(task.document);
    var default := compiler.defaultOf(contract);
    match task.deployPhase
    case PutsVersion =>
      var (after, outcome) := PutVersion(stores, task.name, contract, task.document, task.authority);
      Progress(after, if outcome == AuthorityConflict then None else Some(task.(deployPhase := ReadsVersion)), mutex)
    case ReadsVersion =>
      Progress(stores, if (task.name, contract) in stores.versions then Some(task.(deployPhase := ReadsActive))
               else None,
               mutex)
    case ReadsActive =>
      var active := ActiveDigest(stores, contract);
      Progress(stores,
               if active.None? then Some(task.(deployPhase := PutsDefault)) else AfterReading(compiler, task, active),
               mutex)
    case PutsDefault =>
      Progress(PutCandidate(stores, default, contract, compiler.artifactOf(default)),
               Some(task.(deployPhase := ActivatesDefault)), mutex)
    case ActivatesDefault =>
      var (after, outcome) := ActivateBasic(stores, contract, default, None);
      Progress(after,
               if outcome == NotFound || outcome == ContractMismatch then None
               else Some(task.(deployPhase := ReadsAfterDefault)), mutex)
    case ReadsAfterDefault =>
      Progress(stores, AfterReading(compiler, task, ActiveDigest(stores, contract)), mutex)
    case PutsAuthored =>
      if compiler.authoredOf(contract).None? then Progress(stores, None, mutex)
      else
        var authored := compiler.authoredOf(contract).value;
        Progress(PutCandidate(stores, authored, contract, compiler.artifactOf(authored)),
                 Some(task.(deployPhase := ActivatesAuthored)), mutex)
    case ActivatesAuthored =>
      if compiler.authoredOf(contract).None? then Progress(stores, None, mutex)
      else
        var (after, outcome) := ActivateBasic(stores, contract, compiler.authoredOf(contract).value, Some(default));
        Progress(after,
                 if outcome == NotFound || outcome == ContractMismatch then None
                 else Some(task.(deployPhase := ReadsAfterAuthored)), mutex)
    case ReadsAfterAuthored =>
      Progress(stores,
               if ActiveDigest(stores, contract).None? then None else Some(task.(deployPhase := AwaitsLock)), mutex)
    case AwaitsLock =>
      if mutex.Some? then Progress(stores, Some(task), mutex)
      else Progress(stores, Some(task.(deployPhase := SetsCurrent)), Some(id))
    case SetsCurrent => Progress(SetCurrent(stores, task.name, contract), None, None)
  }

  function Submit(stores: Stores, mutex: Option<nat>, id: nat, task: Task): Progress
    requires task.Submitting?
  {
    var admission := task.admission;
    match task.submitPhase
    case ReadsAccepted =>
      Progress(stores,
               if (admission.name, admission.contract) in stores.versions then Some(task.(submitPhase := AwaitsTurn))
               else None, mutex)
    case AwaitsTurn =>
      if mutex.Some? then Progress(stores, Some(task), mutex)
      else Progress(stores, Some(task.(submitPhase := ChecksCurrent)), Some(id))
    case ChecksCurrent =>
      if IsCurrent(stores, admission.name, admission.contract)
      then Progress(stores, Some(task.(submitPhase := PutsAdmission)), mutex)
      else Progress(stores, None, None)
    case PutsAdmission => Progress(PutAnalysisCandidate(stores, admission, task.artifact).0, None, None)
  }

  ghost function ActivateByHand(stores: Stores, mutex: Option<nat>, task: Task): Progress
    requires task.Activating?
  {
    if task.found then Progress(ActivateCandidate(stores, task.command).0, None, mutex)
    else if (task.command.name, task.command.contract) !in stores.versions then Progress(stores, None, mutex)
    else Progress(stores, Some(task.(found := true)), mutex)
  }

  function AssessContract(compiler: Compiler, stores: Stores, admission: Admission): WorkPhase {
    if (admission.name, admission.contract) !in stores.versions then Resolves(Reject)
    else
      var document := stores.versions[(admission.name, admission.contract)];
      if compiler.autoActivates(document) then ReadsCandidate(document) else Resolves(Reject)
  }

  /** A candidate that has moved since discovery is waved through unchecked; everything else is checked first. */
  function AssessCandidate(compiler: Compiler, stores: Stores, snapshot: Snapshot, document: string): Action {
    var digest := snapshot.admission.executable;
    if digest !in stores.executables then Reject
    else
      var candidate := stores.executables[digest];
      if candidate.state != Candidate || candidate.version != snapshot.candidateVersion then Activate
      else if candidate.contract != snapshot.admission.contract then Reject
      else if !compiler.recompiles(document, digest) then Reject
      else if !compiler.materializes(document, candidate.artifact, digest) then Reject
      else Activate
  }

  ghost function Work(compiler: Compiler, stores: Stores, mutex: Option<nat>, task: Task): Progress
    requires task.Working?
  {
    if task.pending == [] then Progress(stores, None, mutex)
    else
      var snapshot := task.pending[0];
      match task.workPhase
      case ReadsContract =>
        Progress(stores, Some(task.(workPhase := AssessContract(compiler, stores, snapshot.admission))), mutex)
      case ReadsCandidate(document) =>
        Progress(stores, Some(task.(workPhase := Resolves(AssessCandidate(compiler, stores, snapshot, document)))),
                 mutex)
      case Resolves(action) =>
        Progress(Resolve(stores, snapshot, action).0,
                 Rest(task.pending), mutex)
  }

  /** The scan goes on with the next candidate, also when the assessment or the resolution of one has failed. */
  function Rest(pending: seq<Snapshot>): Option<Task> {
    if |pending| <= 1 then None else Some(Working(pending[1..], ReadsContract))
  }

  ghost function Catalogue(stores: Stores, mutex: Option<nat>, task: Task): Progress
    requires task.Cataloguing?
  {
    if task.unread == {} then Progress(stores, None, mutex)
    else
      var contract :| contract in task.unread;
      Progress(stores,
               Some(Cataloguing(task.unread - {contract}, task.missing || !HasActive(stores, contract))), mutex)
  }

  ghost function Advanced(compiler: Compiler, stores: Stores, mutex: Option<nat>, id: nat, task: Task): Progress {
    match task
    case Deploying(_, _, _, _) => Deploy(compiler, stores, mutex, id, task)
    case Submitting(_, _, _) => Submit(stores, mutex, id, task)
    case Activating(_, _) => ActivateByHand(stores, mutex, task)
    case Working(_, _) => Work(compiler, stores, mutex, task)
    case Cataloguing(_, _) => Catalogue(stores, mutex, task)
  }

  function Released(mutex: Option<nat>, id: nat): Option<nat> {
    if mutex == Some(id) then None else mutex
  }

  ghost function After(compiler: Compiler, system: System, event: Event): System {
    match event
    case Begin(id, task) =>
      if id in system.tasks || !CanBegin(compiler, system.stores, task) then system
      else system.(tasks := system.tasks[id := task])
    case Advance(id) =>
      if id !in system.tasks then system
      else
        var progress := Advanced(compiler, system.stores, system.mutex, id, system.tasks[id]);
        System(progress.stores,
               if progress.task.Some? then system.tasks[id := progress.task.value] else system.tasks - {id},
               progress.mutex)
    case Crash(id) => system.(tasks := system.tasks - {id}, mutex := Released(system.mutex, id))
    case Skip(id) =>
      if id !in system.tasks || !system.tasks[id].Working? then system
      else
        var next := Rest(system.tasks[id].pending);
        system.(tasks := if next.Some? then system.tasks[id := next.value] else system.tasks - {id})
    case Restart => System(system.stores, map[], None)
  }

  // ---------------------------------------------------------------- what the stores keep

  /** Current versions and admitted candidates belong to contracts that are bootstrapped; a contract with authority got
      it from its default first, which therefore no longer waits; and until then nothing it will need is retired. */
  ghost predicate Authorized(compiler: Compiler, stores: Stores) {
    && Sound(stores)
    && (forall name <- stores.current :: Settled(compiler, stores, stores.current[name]))
    && (forall key <- stores.admissions :: Settled(compiler, stores, stores.admissions[key].contract))
    && (forall digest <- stores.executables :: stores.executables[digest].contract == compiler.contractOf(digest))
    && (forall contract: string :: HasActive(stores, contract) ==> DefaultIsSpent(compiler, stores, contract))
    && (forall contract: string :: IsPristine(compiler, stores, contract))
  }

  /** As long as bootstrapping may still activate them, the default and the authored executable wait as candidates. */
  ghost predicate IsPristine(compiler: Compiler, stores: Stores, contract: string) {
    var default, authored := compiler.defaultOf(contract), compiler.authoredOf(contract);
    && (!HasActive(stores, contract) ==> Waits(stores, default))
    && (!HasActive(stores, contract) || IsActive(stores, contract, default) ==>
          authored.Some? && authored.value != default ==> Waits(stores, authored.value))
  }

  /** Not stored yet, or a candidate. */
  ghost predicate Waits(stores: Stores, digest: string) {
    digest in stores.executables ==> stores.executables[digest].state == Candidate
  }

  ghost predicate KeepsRetired(before: Stores, after: Stores) {
    forall digest <- before.executables :: before.executables[digest].state == Inactive ==>
      digest in after.executables && after.executables[digest].state == Inactive
  }

  ghost predicate DefaultIsSpent(compiler: Compiler, stores: Stores, contract: string) {
    var default := compiler.defaultOf(contract);
    default in stores.executables && stores.executables[default].state != Candidate
  }

  /** Bootstrapping is over: something is active, and it is not the default where an authored executable exists. */
  ghost predicate Settled(compiler: Compiler, stores: Stores, contract: string) {
    && HasActive(stores, contract)
    && (compiler.authoredOf(contract).Some? && compiler.authoredOf(contract).value != compiler.defaultOf(contract) ==>
          !IsActive(stores, contract, compiler.defaultOf(contract)))
  }

  /** What no step undoes. */
  ghost predicate Evolves(compiler: Compiler, before: Stores, after: Stores) {
    && Grows(before, after)
    && KeepsAuthority(before, after)
    && KeepsRetired(before, after)
    && (forall contract: string :: Settled(compiler, before, contract) ==> Settled(compiler, after, contract))
  }

  lemma NothingEvolves(compiler: Compiler, stores: Stores)
    ensures Evolves(compiler, stores, stores)
  {
  }

  /** A step that leaves every active executable in place. */
  lemma QuietStep(compiler: Compiler, before: Stores, after: Stores)
    requires compiler.Valid() && Authorized(compiler, before)
    requires Sound(after) && Grows(before, after) && SameActive(before, after) && OthersWait(before, after, {})
    requires forall name <- after.current ::
               IsCurrent(before, name, after.current[name]) || Settled(compiler, before, after.current[name])
    requires forall key <- after.admissions ::
               key in before.admissions || Settled(compiler, before, after.admissions[key].contract)
    requires forall digest <- after.executables ::
               digest in before.executables || after.executables[digest].contract == compiler.contractOf(digest)
    ensures Authorized(compiler, after) && Evolves(compiler, before, after)
  {
    hide IsActive, OneActive, OthersWait, IsPristine, KeepsRetired, HasActive, SameActive, Settled;
    SameActiveKeeps(before, after);
    SameAuthority(before, after);
    QuietKeepsSettled(compiler, before, after);
    QuietKeepsRetired(before, after);
    forall contract: string
      ensures IsPristine(compiler, after, contract)
    {
      QuietKeepsPristine(compiler, before, after, contract);
    }
  }

  lemma QuietKeepsSettled(compiler: Compiler, before: Stores, after: Stores)
    requires SameActive(before, after)
    ensures forall contract: string :: Settled(compiler, before, contract) ==> Settled(compiler, after, contract)
  {
    hide IsActive, HasActive;
    SameAuthority(before, after);
  }

  lemma QuietKeepsRetired(before: Stores, after: Stores)
    requires Grows(before, after) && SameActive(before, after)
    ensures KeepsRetired(before, after)
  {
    forall digest | digest in before.executables && before.executables[digest].state == Inactive
      ensures after.executables[digest].state == Inactive
    {
      assert !IsActive(before, before.executables[digest].contract, digest);
      assert !IsActive(after, before.executables[digest].contract, digest);
    }
  }

  /** What the bootstrap of an unsettled contract needs is not admitted, so nothing retires it. */
  lemma NotAdmitted(compiler: Compiler, stores: Stores, digest: string)
    requires Authorized(compiler, stores) && digest in stores.executables
    requires !Settled(compiler, stores, compiler.contractOf(digest))
    ensures !IsAdmitted(stores, digest)
  {
    hide Settled, DefaultIsSpent, IsPristine, OneActive;
  }

  lemma QuietKeepsPristine(compiler: Compiler, before: Stores, after: Stores, contract: string)
    requires compiler.Valid() && Authorized(compiler, before)
    requires SameActive(before, after) && OthersWait(before, after, {})
    ensures IsPristine(compiler, after, contract)
  {
    hide IsActive, OneActive, Sound, IsAdmitted;
    SameAuthority(before, after);
    var default, authored := compiler.defaultOf(contract), compiler.authoredOf(contract);
    assert IsPristine(compiler, before, contract);
    if !Settled(compiler, before, contract) {
      if default in before.executables { NotAdmitted(compiler, before, default); }
      if authored.Some? && authored.value in before.executables { NotAdmitted(compiler, before, authored.value); }
    }
  }

  lemma SameAuthority(before: Stores, after: Stores)
    requires SameActive(before, after)
    ensures forall contract: string :: HasActive(after, contract) <==> HasActive(before, contract)
  {
    SameActiveKeeps(before, after);
    assert SameActive(after, before);
    SameActiveKeeps(after, before);
  }

  /** A step that hands a contract over: to its default if nothing was active, otherwise to another candidate. */
  lemma HandoverStep(compiler: Compiler, before: Stores, after: Stores, contract: string, digest: string)
    requires compiler.Valid() && Authorized(compiler, before)
    requires Sound(after) && Grows(before, after) && TakesOver(before, after, contract, digest)
    requires after.current == before.current && after.admissions == before.admissions
    requires after.executables.Keys == before.executables.Keys && OthersWait(before, after, {digest})
    requires digest in before.executables && before.executables[digest].state == Candidate
    requires before.executables[digest].contract == contract
    requires HasActive(before, contract) <==> digest != compiler.defaultOf(contract)
    ensures Authorized(compiler, after) && Evolves(compiler, before, after)
  {
    hide OneActive, OthersWait, IsPristine, KeepsRetired, DefaultIsSpent;
    TakingOverKeeps(before, after, contract, digest);
    HandoverKeepsRetired(before, after, contract, digest);
    forall other: string
      ensures IsPristine(compiler, after, other)
      ensures HasActive(after, other) ==> DefaultIsSpent(compiler, after, other)
    {
      HandoverKeepsSpent(compiler, before, after, contract, digest, other);
      HandoverKeepsPristine(compiler, before, after, contract, digest, other);
    }
  }

  lemma HandoverKeepsRetired(before: Stores, after: Stores, contract: string, digest: string)
    requires Grows(before, after) && TakesOver(before, after, contract, digest)
    requires digest in before.executables && before.executables[digest].state == Candidate
    ensures KeepsRetired(before, after)
  {
    forall other | other in before.executables && before.executables[other].state == Inactive
      ensures after.executables[other].state == Inactive
    {
      var own := before.executables[other].contract;
      assert !IsActive(before, own, other);
      assert !IsActive(after, own, other);
    }
  }

  lemma HandoverKeepsSpent(compiler: Compiler, before: Stores, after: Stores, contract: string, digest: string,
                           other: string)
    requires Authorized(compiler, before) && Grows(before, after) && TakesOver(before, after, contract, digest)
    requires HasActive(before, contract) <==> digest != compiler.defaultOf(contract)
    ensures HasActive(after, other) ==> DefaultIsSpent(compiler, after, other)
  {
    if HasActive(after, other) && (other != contract || HasActive(before, contract)) {
      var active :| active in after.executables && IsActive(after, other, active);
      if other != contract {
        assert IsActive(before, other, active);
      }
      assert HasActive(before, other);
    } else if HasActive(after, other) {
      assert IsActive(after, contract, digest);
    }
  }

  lemma HandoverKeepsPristine(compiler: Compiler, before: Stores, after: Stores, contract: string, digest: string,
                              other: string)
    requires compiler.Valid() && Authorized(compiler, before)
    requires TakesOver(before, after, contract, digest) && OthersWait(before, after, {digest})
    requires digest in before.executables && before.executables[digest].contract == contract
    requires HasActive(before, contract) <==> digest != compiler.defaultOf(contract)
    ensures IsPristine(compiler, after, other)
  {
    hide OneActive, Sound, IsAdmitted, Grows;
    TakingOverKeeps(before, after, contract, digest);
    assert IsPristine(compiler, before, other);
    var default, authored := compiler.defaultOf(other), compiler.authoredOf(other);
    if !Settled(compiler, before, other) {
      if default in before.executables { NotAdmitted(compiler, before, default); }
      if authored.Some? && authored.value in before.executables { NotAdmitted(compiler, before, authored.value); }
    }
  }

  // ---------------------------------------------------------------- what every task may rely on

  /** The candidate has been checked against its accepted contract as it was stored. */
  ghost predicate Validated(compiler: Compiler, stores: Stores, snapshot: Snapshot)
    requires (snapshot.admission.name, snapshot.admission.contract) in stores.versions
  {
    var digest := snapshot.admission.executable;
    var document := stores.versions[(snapshot.admission.name, snapshot.admission.contract)];
    && digest in stores.executables
    && stores.executables[digest].contract == snapshot.admission.contract
    && compiler.recompiles(document, digest)
    && compiler.materializes(document, stores.executables[digest].artifact, digest)
  }

  /** The candidate is no longer what discovery saw, and never will be again. */
  ghost predicate HasMoved(stores: Stores, snapshot: Snapshot) {
    var digest := snapshot.admission.executable;
    && digest in stores.executables
    && (stores.executables[digest].state != Candidate
        || stores.executables[digest].version != snapshot.candidateVersion)
  }

  ghost predicate IsAutomatic(compiler: Compiler, stores: Stores, admission: Admission) {
    && (admission.name, admission.contract) in stores.versions
    && compiler.autoActivates(stores.versions[(admission.name, admission.contract)])
  }

  predicate HoldsLock(task: Task) {
    || (task.Deploying? && task.deployPhase == SetsCurrent)
    || (task.Submitting? && (task.submitPhase == ChecksCurrent || task.submitPhase == PutsAdmission))
  }

  ghost predicate DeployHolds(compiler: Compiler, stores: Stores, task: Task)
    requires task.Deploying?
  {
    var contract := compiler.digestOf(task.document);
    var phase := task.deployPhase;
    && (phase != PutsVersion ==> (task.name, contract) in stores.versions)
    && (phase == ActivatesDefault ==> compiler.defaultOf(contract) in stores.executables)
    && (phase == ReadsAfterDefault ==> HasActive(stores, contract))
    && (phase == PutsAuthored || phase == ActivatesAuthored ==>
          compiler.authoredOf(contract).Some? && HasActive(stores, contract))
    && (phase == ActivatesAuthored ==> compiler.authoredOf(contract).value in stores.executables)
    && (phase == ReadsAfterAuthored || phase == AwaitsLock || phase == SetsCurrent ==>
        Settled(compiler, stores, contract))
  }

  ghost predicate TaskHolds(compiler: Compiler, stores: Stores, mutex: Option<nat>, id: nat, task: Task) {
    && (HoldsLock(task) <==> mutex == Some(id))
    && match task
       case Deploying(_, _, _, _) => DeployHolds(compiler, stores, task)
       case Submitting(admission, _, phase) =>
         && compiler.contractOf(admission.executable) == admission.contract
         && (phase == PutsAdmission ==> IsCurrent(stores, admission.name, admission.contract))
       case Activating(_, _) => true
       case Working(pending, phase) =>
         && pending != []
         && (phase.ReadsCandidate? ==>
               && IsAutomatic(compiler, stores, pending[0].admission)
               && phase.document == stores.versions[(pending[0].admission.name, pending[0].admission.contract)])
         && (phase == Resolves(Activate) ==>
               && IsAutomatic(compiler, stores, pending[0].admission)
               && (Validated(compiler, stores, pending[0]) || HasMoved(stores, pending[0])))
       case Cataloguing(unread, missing) => !missing && forall contract <- unread :: HasActive(stores, contract)
  }

  ghost predicate Inv(compiler: Compiler, system: System) {
    && compiler.Valid()
    && Authorized(compiler, system.stores)
    && (forall id <- system.tasks :: TaskHolds(compiler, system.stores, system.mutex, id, system.tasks[id]))
    && (system.mutex.Some? ==> system.mutex.value in system.tasks)
  }

  /** What others do does not disturb a task: only the lock's holder changes what is current. */
  lemma OthersHold(compiler: Compiler, before: Stores, after: Stores, mutex: Option<nat>, next: Option<nat>,
                   id: nat, task: Task)
    requires TaskHolds(compiler, before, mutex, id, task)
    requires Authorized(compiler, before) && Authorized(compiler, after) && Evolves(compiler, before, after)
    requires mutex == Some(id) <==> next == Some(id)
    requires mutex == Some(id) ==> after.current == before.current
    ensures TaskHolds(compiler, after, next, id, task)
  {
    hide IsPristine, OthersWait, KeepsRetired, DefaultIsSpent, HasActive, OneActive;
  }

  /** What a task's own step gives: the stores evolve, and the task goes on or ends with the lock in order. */
  ghost predicate StepsWell(compiler: Compiler, stores: Stores, mutex: Option<nat>, id: nat, progress: Progress) {
    && Authorized(compiler, progress.stores)
    && Evolves(compiler, stores, progress.stores)
    && (progress.stores.current == stores.current || mutex == Some(id))
    && (progress.mutex == mutex || (mutex.None? && progress.mutex == Some(id))
        || (mutex == Some(id) && progress.mutex.None?))
    && (progress.task.Some? ==> TaskHolds(compiler, progress.stores, progress.mutex, id, progress.task.value))
    && (progress.task.None? ==> progress.mutex != Some(id))
  }

  lemma ActiveDigestIsActive(stores: Stores, contract: string)
    ensures ActiveDigest(stores, contract).Some? <==> HasActive(stores, contract)
    ensures ActiveDigest(stores, contract).Some? ==> IsActive(stores, contract, ActiveDigest(stores, contract).value)
  {
  }

  /** Reading an active executable that is not the default, or that nothing is to replace, settles the contract. */
  lemma ReadingSettles(compiler: Compiler, stores: Stores, task: Task)
    requires task.Deploying? && OneActive(stores)
    ensures var contract := compiler.digestOf(task.document);
            var next := AfterReading(compiler, task, ActiveDigest(stores, contract));
            next.Some? ==>
              && HasActive(stores, contract)
              && (|| (next.value == task.(deployPhase := PutsAuthored) && compiler.authoredOf(contract).Some?)
                  || (next.value == task.(deployPhase := AwaitsLock) && Settled(compiler, stores, contract)))
  {
    hide HasActive;
    var contract := compiler.digestOf(task.document);
    ActiveDigestIsActive(stores, contract);
  }

  /** A store that has not changed leaves the task with whatever it has just learned. */
  lemma SameStores(compiler: Compiler, stores: Stores, mutex: Option<nat>, id: nat, progress: Progress)
    requires Authorized(compiler, stores) && progress.stores == stores
    requires progress.mutex == mutex || (mutex.None? && progress.mutex == Some(id))
             || (mutex == Some(id) && progress.mutex.None?)
    requires progress.task.Some? ==> TaskHolds(compiler, stores, progress.mutex, id, progress.task.value)
    requires progress.task.None? ==> progress.mutex != Some(id)
    ensures StepsWell(compiler, stores, mutex, id, progress)
  {
    hide Authorized;
    NothingEvolves(compiler, stores);
  }

  // ---------------------------------------------------------------- each kind of task

  lemma PutVersionSteps(compiler: Compiler, stores: Stores, mutex: Option<nat>, id: nat, task: Task)
    requires compiler.Valid() && Authorized(compiler, stores) && TaskHolds(compiler, stores, mutex, id, task)
    requires task.Deploying? && task.deployPhase == PutsVersion
    ensures StepsWell(compiler, stores, mutex, id, Deploy(compiler, stores, mutex, id, task))
  {
    hide IsPristine, OthersWait, KeepsRetired, DefaultIsSpent, Sound, Grows, SameActive, PutVersion, Evolves,
         HasActive, Settled;
    var contract := compiler.digestOf(task.document);
    PutVersionKeeps(stores, task.name, contract, task.document, task.authority);
    SameExecutables(stores, PutVersion(stores, task.name, contract, task.document, task.authority).0);
    QuietStep(compiler, stores, PutVersion(stores, task.name, contract, task.document, task.authority).0);
  }

  lemma PutExecutableSteps(compiler: Compiler, stores: Stores, mutex: Option<nat>, id: nat, task: Task)
    requires compiler.Valid() && Authorized(compiler, stores) && TaskHolds(compiler, stores, mutex, id, task)
    requires task.Deploying? && (task.deployPhase == PutsDefault || task.deployPhase == PutsAuthored)
    ensures StepsWell(compiler, stores, mutex, id, Deploy(compiler, stores, mutex, id, task))
  {
    hide IsPristine, OthersWait, KeepsRetired, DefaultIsSpent, Sound, Grows, SameActive, PutCandidate, HasActive,
         Settled;
    var contract := compiler.digestOf(task.document);
    var digest := if task.deployPhase == PutsDefault then compiler.defaultOf(contract)
                  else compiler.authoredOf(contract).value;
    PutCandidateKeeps(stores, digest, contract, compiler.artifactOf(digest));
    var after := PutCandidate(stores, digest, contract, compiler.artifactOf(digest));
    PutKeys(stores, digest, contract, compiler.artifactOf(digest));
    QuietStep(compiler, stores, after);
    KeepsVersions(stores, after);
  }

  lemma KeepsVersions(before: Stores, after: Stores)
    requires Grows(before, after)
    ensures forall key <- before.versions :: key in after.versions && after.versions[key] == before.versions[key]
    ensures forall digest <- before.executables :: digest in after.executables
  {
  }

  lemma PutKeys(stores: Stores, digest: string, contract: string, artifact: string)
    ensures forall other <- PutCandidate(stores, digest, contract, artifact).executables ::
              other in stores.executables || other == digest
  {
  }

  /** Activating the default: either nothing was active before, or something was and still is. */
  lemma ActivateDefaultSteps(compiler: Compiler, stores: Stores, mutex: Option<nat>, id: nat, task: Task)
    requires compiler.Valid() && Authorized(compiler, stores) && TaskHolds(compiler, stores, mutex, id, task)
    requires task.Deploying? && task.deployPhase == ActivatesDefault
    ensures StepsWell(compiler, stores, mutex, id, Deploy(compiler, stores, mutex, id, task))
    ensures var contract := compiler.digestOf(task.document);
            var after := Deploy(compiler, stores, mutex, id, task).stores;
            if HasActive(stores, contract) then after == stores
            else TakesOver(stores, after, contract, compiler.defaultOf(contract))
  {
    hide Authorized, Evolves, OthersWait, Sound, TakesOver, HasActive, Settled, ActivateBasic, Compiler.Valid;
    AuthorizedIsSound(compiler, stores);
    DefaultIsBound(compiler, stores);
    var contract := compiler.digestOf(task.document);
    var default := compiler.defaultOf(contract);
    var (after, outcome) := ActivateBasic(stores, contract, default, None);
    BasicActivationKeeps(stores, contract, default, None);
    NothingEvolves(compiler, stores);
    KeepsVersions(stores, after);
    BasicOutcomes(stores, contract, default, None);
    if outcome == Activated {
      BootstrapWaits(compiler, stores, contract);
      HandoverStep(compiler, stores, after, contract, default);
      TakingOverKeeps(stores, after, contract, default);
    }
  }

  lemma DefaultIsBound(compiler: Compiler, stores: Stores)
    requires compiler.Valid() && Authorized(compiler, stores)
    ensures forall contract: string :: compiler.defaultOf(contract) in stores.executables ==>
              stores.executables[compiler.defaultOf(contract)].contract == contract
  {
    hide Sound, Settled, DefaultIsSpent, IsPristine;
  }

  lemma BootstrapWaits(compiler: Compiler, stores: Stores, contract: string)
    requires Authorized(compiler, stores)
    ensures var default, authored := compiler.defaultOf(contract), compiler.authoredOf(contract);
            && (!HasActive(stores, contract) ==> Waits(stores, default))
            && (IsActive(stores, contract, default) && authored.Some? && authored.value != default ==>
                  Waits(stores, authored.value))
  {
    hide HasActive, Sound, Settled, DefaultIsSpent;
    assert IsPristine(compiler, stores, contract);
  }

  lemma BasicOutcomes(stores: Stores, contract: string, digest: string, expected: Option<string>)
    ensures var (after, outcome) := ActivateBasic(stores, contract, digest, expected);
            && (outcome == Activated ==>
                  && (HasActive(stores, contract) <==> expected.Some?)
                  && (expected.Some? ==> IsActive(stores, contract, expected.value) && digest != expected.value))
            && (outcome == Unchanged ==> HasActive(stores, contract) && expected == Some(digest))
            && (digest in stores.executables && stores.executables[digest].contract == contract ==>
                  outcome == Activated || outcome == Unchanged || outcome == ActivationConflict)
  {
  }

  /** After trying to activate the authored executable over the default, the default is no longer active, whoever got
      there first. */
  lemma AuthoredSettles(compiler: Compiler, stores: Stores, contract: string)
    requires compiler.Valid() && Authorized(compiler, stores) && compiler.authoredOf(contract).Some?
    requires HasActive(stores, contract) && compiler.authoredOf(contract).value in stores.executables
    ensures var (after, outcome) :=
              ActivateBasic(stores, contract, compiler.authoredOf(contract).value, Some(compiler.defaultOf(contract)));
            && Authorized(compiler, after) && Evolves(compiler, stores, after) && after.current == stores.current
            && Settled(compiler, after, contract)
            && (outcome == Activated || outcome == Unchanged || outcome == ActivationConflict)
  {
    hide IsPristine, OthersWait, KeepsRetired, DefaultIsSpent, Sound, Grows, HasActive, ActivateBasic, TakesOver;
    var default := compiler.defaultOf(contract);
    var authored := compiler.authoredOf(contract).value;
    var (after, outcome) := ActivateBasic(stores, contract, authored, Some(default));
    BasicActivationKeeps(stores, contract, authored, Some(default));
    BasicOutcomes(stores, contract, authored, Some(default));
    NothingEvolves(compiler, stores);
    if outcome == Activated {
      BootstrapWaits(compiler, stores, contract);
      HandoverStep(compiler, stores, after, contract, authored);
      TakingOverKeeps(stores, after, contract, authored);
      OnlyOneTakesOver(stores, after, contract, authored, default);
    }
  }

  lemma OnlyOneTakesOver(before: Stores, after: Stores, contract: string, digest: string, other: string)
    requires TakesOver(before, after, contract, digest) && other != digest
    ensures !IsActive(after, contract, other)
  {
  }

  lemma ActivateAuthoredSteps(compiler: Compiler, stores: Stores, mutex: Option<nat>, id: nat, task: Task)
    requires compiler.Valid() && Authorized(compiler, stores) && TaskHolds(compiler, stores, mutex, id, task)
    requires task.Deploying? && task.deployPhase == ActivatesAuthored
    ensures StepsWell(compiler, stores, mutex, id, Deploy(compiler, stores, mutex, id, task))
  {
    hide IsPristine, OthersWait, KeepsRetired, DefaultIsSpent, Authorized, Grows, HasActive, Settled, ActivateBasic,
         KeepsAuthority;
    var contract := compiler.digestOf(task.document);
    var after := ActivateBasic(stores, contract, compiler.authoredOf(contract).value,
                               Some(compiler.defaultOf(contract))).0;
    AuthoredSettles(compiler, stores, contract);
    KeepsVersions(stores, after);
  }

  lemma AuthorizedIsSound(compiler: Compiler, stores: Stores)
    requires Authorized(compiler, stores)
    ensures Sound(stores) && OneActive(stores)
  {
  }

  lemma ReadingSteps(compiler: Compiler, stores: Stores, mutex: Option<nat>, id: nat, task: Task)
    requires compiler.Valid() && Authorized(compiler, stores) && TaskHolds(compiler, stores, mutex, id, task)
    requires task.Deploying?
    requires task.deployPhase == ReadsVersion || task.deployPhase == ReadsActive
             || task.deployPhase == ReadsAfterDefault
             || task.deployPhase == ReadsAfterAuthored || task.deployPhase == AwaitsLock
    ensures StepsWell(compiler, stores, mutex, id, Deploy(compiler, stores, mutex, id, task))
  {
    hide IsPristine, Authorized, HasActive, Settled, StepsWell, AfterReading, Compiler.Valid, ActiveDigest, OneActive;
    AuthorizedIsSound(compiler, stores);
    var contract := compiler.digestOf(task.document);
    ReadingSettles(compiler, stores, task);
    ActiveDigestIsActive(stores, contract);
    SameStores(compiler, stores, mutex, id, Deploy(compiler, stores, mutex, id, task));
  }

  lemma DeploySteps(compiler: Compiler, stores: Stores, mutex: Option<nat>, id: nat, task: Task)
    requires compiler.Valid() && Authorized(compiler, stores) && TaskHolds(compiler, stores, mutex, id, task)
    requires task.Deploying?
    ensures StepsWell(compiler, stores, mutex, id, Deploy(compiler, stores, mutex, id, task))
  {
    hide *;
    match task.deployPhase
    case PutsVersion => PutVersionSteps(compiler, stores, mutex, id, task);
    case PutsDefault => PutExecutableSteps(compiler, stores, mutex, id, task);
    case PutsAuthored => PutExecutableSteps(compiler, stores, mutex, id, task);
    case ActivatesDefault => ActivateDefaultSteps(compiler, stores, mutex, id, task);
    case ActivatesAuthored => ActivateAuthoredSteps(compiler, stores, mutex, id, task);
    case SetsCurrent => SetCurrentSteps(compiler, stores, mutex, id, task);
    case _ => ReadingSteps(compiler, stores, mutex, id, task);
  }

  /** Only a version whose contract has runtime authority becomes current. */
  lemma SetCurrentSteps(compiler: Compiler, stores: Stores, mutex: Option<nat>, id: nat, task: Task)
    requires compiler.Valid() && Authorized(compiler, stores) && TaskHolds(compiler, stores, mutex, id, task)
    requires task.Deploying? && task.deployPhase == SetsCurrent
    ensures StepsWell(compiler, stores, mutex, id, Deploy(compiler, stores, mutex, id, task))
  {
    hide IsPristine, OthersWait, KeepsRetired, DefaultIsSpent, Sound, Grows, SameActive, HasActive, Evolves;
    var contract := compiler.digestOf(task.document);
    SetCurrentKeeps(stores, task.name, contract);
    SameExecutables(stores, SetCurrent(stores, task.name, contract));
    QuietStep(compiler, stores, SetCurrent(stores, task.name, contract));
  }

  /** A candidate is stored while its contract is the current one of its name, and nobody can change that in between. */
  lemma SubmitSteps(compiler: Compiler, stores: Stores, mutex: Option<nat>, id: nat, task: Task)
    requires compiler.Valid() && Authorized(compiler, stores) && TaskHolds(compiler, stores, mutex, id, task)
    requires task.Submitting?
    ensures StepsWell(compiler, stores, mutex, id, Submit(stores, mutex, id, task))
  {
    hide IsPristine, OthersWait, KeepsRetired, DefaultIsSpent, HasActive, Evolves, SameActive, Grows, OneActive,
         PutAnalysisCandidate, Compiler.Valid;
    NothingEvolves(compiler, stores);
    if task.submitPhase == PutsAdmission {
      var after := PutAnalysisCandidate(stores, task.admission, task.artifact).0;
      AdmissionKeeps(stores, task.admission, task.artifact);
      AdmissionKeys(stores, task.admission, task.artifact);
      QuietStep(compiler, stores, after);
    }
  }

  lemma AdmissionKeys(stores: Stores, admission: Admission, artifact: string)
    ensures var after := PutAnalysisCandidate(stores, admission, artifact).0;
            && (forall key <- after.admissions ::
                  key in stores.admissions || after.admissions[key] == admission)
            && (forall digest <- after.executables ::
                  digest in stores.executables
                  || (digest == admission.executable && after.executables[digest].contract == admission.contract))
  {
  }

  lemma ActivateByHandSteps(compiler: Compiler, stores: Stores, mutex: Option<nat>, id: nat, task: Task)
    requires compiler.Valid() && Authorized(compiler, stores) && TaskHolds(compiler, stores, mutex, id, task)
    requires task.Activating?
    ensures StepsWell(compiler, stores, mutex, id, ActivateByHand(stores, mutex, task))
  {
    hide IsPristine, OthersWait, KeepsRetired, HasActive, Evolves, TakesOver, Grows, OneActive, ActivateCandidate;
    NothingEvolves(compiler, stores);
    if task.found {
      var command := task.command;
      var (after, outcome) := ActivateCandidate(stores, command);
      CandidateActivationKeeps(stores, command);
      if outcome == Activated {
        ActiveIsWitness(stores, command.contract, command.active.executable);
        HandoverStep(compiler, stores, after, command.contract, command.executable);
      }
    }
  }

  lemma ActiveIsWitness(stores: Stores, contract: string, digest: string)
    requires IsActive(stores, contract, digest)
    ensures HasActive(stores, contract)
  {
  }

  lemma WorkSteps(compiler: Compiler, stores: Stores, mutex: Option<nat>, id: nat, task: Task)
    requires compiler.Valid() && Authorized(compiler, stores) && TaskHolds(compiler, stores, mutex, id, task)
    requires task.Working?
    ensures StepsWell(compiler, stores, mutex, id, Work(compiler, stores, mutex, task))
  {
    hide IsPristine, OthersWait, KeepsRetired, HasActive, Evolves, TakesOver, SameActive, Grows, OneActive, Resolve,
         Compiler.Valid, ActiveToken;
    NothingEvolves(compiler, stores);
    if task.workPhase.Resolves? {
      ResolvingKeeps(compiler, stores, task.pending[0], task.workPhase.action);
    }
  }

  lemma ResolvingKeeps(compiler: Compiler, stores: Stores, snapshot: Snapshot, action: Action)
    requires compiler.Valid() && Authorized(compiler, stores)
    ensures var after := Resolve(stores, snapshot, action).0;
            && Authorized(compiler, after) && Evolves(compiler, stores, after) && after.current == stores.current
            && Grows(stores, after)
  {
    hide IsPristine, OthersWait, KeepsRetired, HasActive, Evolves, TakesOver, SameActive, Grows, OneActive, Resolve,
         Compiler.Valid, ActiveToken;
    var (after, resolution) := Resolve(stores, snapshot, action);
    ResolutionKeeps(stores, snapshot, action);
    if resolution == Resolved(Activate) {
      MoreChosen(stores, after, {snapshot.admission.executable});
      HandoverStep(compiler, stores, after, snapshot.admission.contract, snapshot.admission.executable);
    } else {
      QuietStep(compiler, stores, after);
    }
  }

  lemma CatalogueSteps(compiler: Compiler, stores: Stores, mutex: Option<nat>, id: nat, task: Task)
    requires compiler.Valid() && Authorized(compiler, stores) && TaskHolds(compiler, stores, mutex, id, task)
    requires task.Cataloguing?
    ensures StepsWell(compiler, stores, mutex, id, Catalogue(stores, mutex, task))
  {
    hide HasActive, Evolves, Authorized;
    NothingEvolves(compiler, stores);
  }

  lemma EveryTaskSteps(compiler: Compiler, stores: Stores, mutex: Option<nat>, id: nat, task: Task)
    requires compiler.Valid() && Authorized(compiler, stores) && TaskHolds(compiler, stores, mutex, id, task)
    ensures StepsWell(compiler, stores, mutex, id, Advanced(compiler, stores, mutex, id, task))
  {
    hide Authorized, StepsWell, TaskHolds, Deploy, Submit, ActivateByHand, Work, Catalogue, Compiler.Valid;
    match task
    case Deploying(_, _, _, _) => DeploySteps(compiler, stores, mutex, id, task);
    case Submitting(_, _, _) => SubmitSteps(compiler, stores, mutex, id, task);
    case Activating(_, _) => ActivateByHandSteps(compiler, stores, mutex, id, task);
    case Working(_, _) => WorkSteps(compiler, stores, mutex, id, task);
    case Cataloguing(_, _) => CatalogueSteps(compiler, stores, mutex, id, task);
  }

  lemma BeginningHolds(compiler: Compiler, stores: Stores, mutex: Option<nat>, id: nat, task: Task)
    requires Authorized(compiler, stores) && CanBegin(compiler, stores, task) && mutex != Some(id)
    ensures TaskHolds(compiler, stores, mutex, id, task)
  {
    hide HasActive, Sound, DefaultIsSpent, ActiveToken;
    if task.Cataloguing? {
      forall contract | contract in stores.current.Values
        ensures HasActive(stores, contract)
      {
        var name :| name in stores.current && stores.current[name] == contract;
      }
    }
  }

  // ---------------------------------------------------------------- every step, every run

  lemma AdvancingKeeps(compiler: Compiler, system: System, id: nat)
    requires Inv(compiler, system) && id in system.tasks
    ensures Inv(compiler, After(compiler, system, Advance(id)))
    ensures Evolves(compiler, system.stores, After(compiler, system, Advance(id)).stores)
  {
    hide Authorized, Evolves, TaskHolds, Advanced, Compiler.Valid;
    var progress := Advanced(compiler, system.stores, system.mutex, id, system.tasks[id]);
    EveryTaskSteps(compiler, system.stores, system.mutex, id, system.tasks[id]);
    var after := After(compiler, system, Advance(id));
    forall other | other in after.tasks && other != id
      ensures TaskHolds(compiler, after.stores, after.mutex, other, after.tasks[other])
    {
      OthersHold(compiler, system.stores, after.stores, system.mutex, after.mutex, other, system.tasks[other]);
    }
    HolderStays(compiler, system, id);
  }

  lemma HolderStays(compiler: Compiler, system: System, id: nat)
    requires id in system.tasks
    requires system.mutex.Some? ==> system.mutex.value in system.tasks
    requires StepsWell(compiler, system.stores, system.mutex, id,
                       Advanced(compiler, system.stores, system.mutex, id, system.tasks[id]))
    ensures var after := After(compiler, system, Advance(id));
            after.mutex.Some? ==> after.mutex.value in after.tasks
  {
    hide Authorized, Evolves, TaskHolds, Advanced;
  }

  lemma EveryStepKeeps(compiler: Compiler, system: System, event: Event)
    requires Inv(compiler, system)
    ensures Inv(compiler, After(compiler, system, event))
    ensures Evolves(compiler, system.stores, After(compiler, system, event).stores)
  {
    hide Authorized, Evolves, Advanced, CanBegin, Compiler.Valid, DeployHolds;
    NothingEvolves(compiler, system.stores);
    match event
    case Begin(id, task) =>
      if id !in system.tasks && CanBegin(compiler, system.stores, task) {
        BeginningHolds(compiler, system.stores, system.mutex, id, task);
      }
    case Advance(id) => if id in system.tasks { AdvancingKeeps(compiler, system, id); }
    case Skip(id) => SkippingKeeps(compiler, system, id);
    case Crash(id) =>
    case Restart =>
  }

  /** A failed candidate changes nothing, and its successor is assessed from the start. */
  lemma SkippingKeeps(compiler: Compiler, system: System, id: nat)
    requires Inv(compiler, system)
    ensures var after := After(compiler, system, Skip(id));
            && Inv(compiler, after) && after.stores == system.stores
            && (id in system.tasks && system.tasks[id].Working? ==>
                  if |system.tasks[id].pending| == 1 then id !in after.tasks
                  else id in after.tasks && after.tasks[id] == Working(system.tasks[id].pending[1..], ReadsContract))
  {
    hide Authorized, Advanced, CanBegin, Compiler.Valid, DeployHolds, Validated, HasMoved, HasActive;
    if id in system.tasks { assert TaskHolds(compiler, system.stores, system.mutex, id, system.tasks[id]); }
  }

  function EmptySystem(): System {
    System(Stores(map[], map[], map[], map[], map[]), map[], None)
  }

  lemma EmptySystemHolds(compiler: Compiler)
    requires compiler.Valid()
    ensures Inv(compiler, EmptySystem())
  {
  }

  ghost function Run(compiler: Compiler, events: seq<Event>): (system: System)
    requires compiler.Valid()
    ensures Inv(compiler, system)
  {
    if events == [] then
      EmptySystemHolds(compiler);
      EmptySystem()
    else
      var before := Run(compiler, events[..|events| - 1]);
      EveryStepKeeps(compiler, before, events[|events| - 1]);
      After(compiler, before, events[|events| - 1])
  }

  lemma RunStep(compiler: Compiler, events: seq<Event>, n: nat)
    requires compiler.Valid() && n < |events|
    ensures Run(compiler, events[..n + 1]) == After(compiler, Run(compiler, events[..n]), events[n])
  {
    assert events[..n + 1][..n] == events[..n];
  }

  lemma {:induction false} RunEvolves(compiler: Compiler, events: seq<Event>, m: nat, n: nat)
    requires compiler.Valid() && m <= n <= |events|
    ensures Evolves(compiler, Run(compiler, events[..m]).stores, Run(compiler, events[..n]).stores)
  {
    hide After, Inv, Grows, HasActive, Settled;
    if m == n {
      NothingEvolves(compiler, Run(compiler, events[..m]).stores);
    } else {
      RunEvolves(compiler, events, m, n - 1);
      RunStep(compiler, events, n - 1);
      EveryStepKeeps(compiler, Run(compiler, events[..n - 1]), events[n - 1]);
      GrowsTwice(Run(compiler, events[..m]).stores, Run(compiler, events[..n - 1]).stores,
                 Run(compiler, events[..n]).stores);
    }
  }

  /** In every run: a contract version that has ever been current has exactly one active executable from then on, and
      no catalog read ever finds one missing. */
  lemma CurrentVersionsKeepAuthority(compiler: Compiler, events: seq<Event>, m: nat, name: string)
    requires compiler.Valid() && m <= |events| && name in Run(compiler, events[..m]).stores.current
    ensures var contract := Run(compiler, events[..m]).stores.current[name];
            var system := Run(compiler, events);
            && HasActive(system.stores, contract)
            && (forall one: string, other: string ::
                  IsActive(system.stores, contract, one) && IsActive(system.stores, contract, other) ==> one == other)
            && (forall id <- system.tasks :: system.tasks[id].Cataloguing? ==> !system.tasks[id].missing)
  {
    hide Run, Inv, Grows, Settled, KeepsRetired;
    var system := Run(compiler, events);
    RunEvolves(compiler, events, m, |events|);
    assert events[..|events|] == events;
    SoundCatalogs(compiler, Run(compiler, events[..m]));
    SoundCatalogs(compiler, system);
    SettledHasActive(compiler, system.stores, Run(compiler, events[..m]).stores.current[name]);
  }

  /** In every run: an executable that has been retired stays retired, although basic activation does not look at the
      state of what it activates. */
  lemma RetiredStaysRetired(compiler: Compiler, events: seq<Event>, m: nat, digest: string)
    requires compiler.Valid() && m <= |events| && digest in Run(compiler, events[..m]).stores.executables
    requires Run(compiler, events[..m]).stores.executables[digest].state == Inactive
    ensures digest in Run(compiler, events).stores.executables
    ensures Run(compiler, events).stores.executables[digest].state == Inactive
  {
    hide Run, Inv, Grows, KeepsAuthority, Settled;
    RunEvolves(compiler, events, m, |events|);
    assert events[..|events|] == events;
  }

  lemma SettledHasActive(compiler: Compiler, stores: Stores, contract: string)
    ensures Settled(compiler, stores, contract) ==> HasActive(stores, contract)
  {
  }

  lemma SoundCatalogs(compiler: Compiler, system: System)
    requires Inv(compiler, system)
    ensures OneActive(system.stores)
    ensures forall name <- system.stores.current :: Settled(compiler, system.stores, system.stores.current[name])
    ensures forall id <- system.tasks :: system.tasks[id].Cataloguing? ==> !system.tasks[id].missing
  {
    hide HasActive, Settled, DeployHolds, IsActive, DefaultIsSpent, IsPristine, Validated, HasMoved, IsAutomatic;
  }

  // ---------------------------------------------------------------- learned authority

  /** A deployment never touches an active executable other than the default of its contract. */
  lemma DeployKeepsLearned(compiler: Compiler, system: System, id: nat, contract: string, learned: string)
    requires Inv(compiler, system) && id in system.tasks && system.tasks[id].Deploying?
    requires IsActive(system.stores, contract, learned) && learned != compiler.defaultOf(contract)
    ensures var after := After(compiler, system, Advance(id)).stores;
            && IsActive(after, contract, learned)
            && after.executables[learned] == system.stores.executables[learned]
  {
    hide TaskHolds, HasActive, TakesOver, Authorized, PutVersion, PutCandidate, ActivateBasic, SetCurrent, AfterReading,
         ActiveDigest;
    var task := system.tasks[id];
    var own := compiler.digestOf(task.document);
    var default, authored := compiler.defaultOf(own), compiler.authoredOf(own);
    SoundCatalogs(compiler, system);
    CatalogWritesTouchNothing(system.stores, task.name, own, task.document, task.authority);
    PutLeavesOthers(system.stores, own, default, compiler.artifactOf(default), learned);
    BasicLeavesOthers(system.stores, own, default, None, contract, learned);
    if authored.Some? {
      PutLeavesOthers(system.stores, own, authored.value, compiler.artifactOf(authored.value), learned);
      BasicLeavesOthers(system.stores, own, authored.value, Some(default), contract, learned);
    }
  }

  lemma CatalogWritesTouchNothing(stores: Stores, name: string, contract: string, document: string, authority: string)
    ensures PutVersion(stores, name, contract, document, authority).0.executables == stores.executables
    ensures SetCurrent(stores, name, contract).executables == stores.executables
  {
  }

  lemma PutLeavesOthers(stores: Stores, contract: string, digest: string, artifact: string, learned: string)
    requires learned in stores.executables
    ensures learned in PutCandidate(stores, digest, contract, artifact).executables
    ensures PutCandidate(stores, digest, contract, artifact).executables[learned] == stores.executables[learned]
  {
  }

  lemma BasicLeavesOthers(stores: Stores, contract: string, digest: string, expected: Option<string>,
                          other: string, learned: string)
    requires OneActive(stores) && IsActive(stores, other, learned)
    requires other == contract ==> expected != Some(learned)
    ensures var after := ActivateBasic(stores, contract, digest, expected).0;
            IsActive(after, other, learned) && after.executables[learned] == stores.executables[learned]
  {
    hide HasActive;
    ActiveIsWitness(stores, other, learned);
    if other == contract {
      TokenIsTheActive(stores, contract, learned);
    }
  }

  /** What bootstrapping a contract aims at. */
  function Target(compiler: Compiler, contract: string): string {
    if compiler.authoredOf(contract).Some? then compiler.authoredOf(contract).value else compiler.defaultOf(contract)
  }

  ghost predicate Bootstrapped(compiler: Compiler, stores: Stores, contract: string) {
    forall digest: string :: IsActive(stores, contract, digest) ==>
      digest == compiler.defaultOf(contract) || compiler.authoredOf(contract) == Some(digest)
  }

  /** The steps by which a candidate becomes active: by hand, or by the worker. */
  ghost predicate Learns(compiler: Compiler, system: System, event: Event, contract: string) {
    && event.Advance? && event.id in system.tasks
    && var task := system.tasks[event.id];
       || (task.Activating? && task.found && task.command.contract == contract
           && ActivateCandidate(system.stores, task.command).1 == Activated)
       || (task.Working? && task.pending != [] && task.workPhase.Resolves?
           && task.pending[0].admission.contract == contract
           && Resolve(system.stores, task.pending[0], task.workPhase.action).1 == Resolved(Activate))
  }

  /** Who is active for the contract after a step that does not learn: whoever was, or what bootstrapping put there. */
  lemma OnlyLearningBringsOthers(compiler: Compiler, system: System, event: Event, contract: string)
    requires Inv(compiler, system) && Bootstrapped(compiler, system.stores, contract)
    requires !Learns(compiler, system, event, contract)
    ensures Bootstrapped(compiler, After(compiler, system, event).stores, contract)
  {
    hide HasActive, Authorized, TaskHolds;
    if event.Advance? && event.id in system.tasks {
      var task := system.tasks[event.id];
      match task
      case Deploying(_, _, _, _) => DeployBringsOwn(compiler, system, event.id, contract);
      case Submitting(_, _, _) => SubmitBringsNone(compiler, system, event.id);
      case Activating(_, _) => HandBringsOwn(compiler, system, event.id, contract);
      case Working(_, _) => WorkBringsOwn(compiler, system, event.id, contract);
      case Cataloguing(_, _) =>
    }
  }

  lemma DeployBringsOwn(compiler: Compiler, system: System, id: nat, contract: string)
    requires Inv(compiler, system) && id in system.tasks && system.tasks[id].Deploying?
    requires Bootstrapped(compiler, system.stores, contract)
    ensures Bootstrapped(compiler, After(compiler, system, Advance(id)).stores, contract)
  {
    hide HasActive, TaskHolds, Grows, ActivateBasic, OneActive, IsActive, AfterReading;
    var task := system.tasks[id];
    var own := compiler.digestOf(task.document);
    var stores := system.stores;
    match task.deployPhase
    case PutsVersion => PutVersionKeeps(stores, task.name, own, task.document, task.authority);
    case PutsDefault =>
      PutCandidateKeeps(stores, compiler.defaultOf(own), own, compiler.artifactOf(compiler.defaultOf(own)));
    case PutsAuthored =>
      if compiler.authoredOf(own).Some? {
        var authored := compiler.authoredOf(own).value;
        PutCandidateKeeps(stores, authored, own, compiler.artifactOf(authored));
      }
    case ActivatesDefault => BasicActivationKeeps(stores, own, compiler.defaultOf(own), None);
    case ActivatesAuthored =>
      if compiler.authoredOf(own).Some? {
        BasicActivationKeeps(stores, own, compiler.authoredOf(own).value, Some(compiler.defaultOf(own)));
      }
    case SetsCurrent => SetCurrentKeeps(stores, task.name, own);
    case _ =>
  }

  lemma SubmitBringsNone(compiler: Compiler, system: System, id: nat)
    requires Inv(compiler, system) && id in system.tasks && system.tasks[id].Submitting?
    ensures SameActive(system.stores, After(compiler, system, Advance(id)).stores)
  {
    hide HasActive, Grows, OneActive, IsActive, PutAnalysisCandidate;
    NothingGrows(system.stores);
    AdmissionKeeps(system.stores, system.tasks[id].admission, system.tasks[id].artifact);
  }

  lemma HandBringsOwn(compiler: Compiler, system: System, id: nat, contract: string)
    requires Inv(compiler, system) && id in system.tasks && system.tasks[id].Activating?
    requires !Learns(compiler, system, Advance(id), contract) && Bootstrapped(compiler, system.stores, contract)
    ensures Bootstrapped(compiler, After(compiler, system, Advance(id)).stores, contract)
  {
    hide HasActive, TaskHolds, Grows, ActivateCandidate, OneActive, IsActive;
    CandidateActivationKeeps(system.stores, system.tasks[id].command);
  }

  lemma WorkBringsOwn(compiler: Compiler, system: System, id: nat, contract: string)
    requires Inv(compiler, system) && id in system.tasks && system.tasks[id].Working?
    requires !Learns(compiler, system, Advance(id), contract) && Bootstrapped(compiler, system.stores, contract)
    ensures Bootstrapped(compiler, After(compiler, system, Advance(id)).stores, contract)
  {
    hide HasActive, TaskHolds, Grows, Resolve, OneActive, IsActive, Sound, OthersWait, Compiler.Valid, AssessContract,
         AssessCandidate;
    var task := system.tasks[id];
    AuthorizedIsSound(compiler, system.stores);
    if task.pending != [] && task.workPhase.Resolves? {
      ResolutionKeeps(system.stores, task.pending[0], task.workPhase.action);
    }
  }

  lemma {:induction false} BootstrapIsAllThereIs(compiler: Compiler, events: seq<Event>, contract: string)
    requires compiler.Valid()
    requires forall n :: 0 <= n < |events| ==> !Learns(compiler, Run(compiler, events[..n]), events[n], contract)
    ensures Bootstrapped(compiler, Run(compiler, events).stores, contract)
  {
    hide After, Inv, Learns;
    if events != [] {
      var last := |events| - 1;
      assert forall n :: 0 <= n < last ==> events[..last][..n] == events[..n];
      BootstrapIsAllThereIs(compiler, events[..last], contract);
      OnlyLearningBringsOthers(compiler, Run(compiler, events[..last]), events[last], contract);
    }
  }

  /** The step with which a deployment of the contract completes. */
  ghost predicate Completes(compiler: Compiler, system: System, event: Event, contract: string) {
    && event.Advance? && event.id in system.tasks
    && system.tasks[event.id].Deploying? && system.tasks[event.id].deployPhase == SetsCurrent
    && compiler.digestOf(system.tasks[event.id].document) == contract
  }

  /** Once any deployment of a contract has completed, however many others crashed or ran beside it, the default is
      never active again where an authored executable exists; and if no candidate was ever activated, exactly the
      executable that bootstrapping aims at is active. */
  lemma DeploymentsConverge(compiler: Compiler, events: seq<Event>, m: nat, contract: string)
    requires compiler.Valid() && m < |events|
    requires Completes(compiler, Run(compiler, events[..m]), events[m], contract)
    ensures Settled(compiler, Run(compiler, events).stores, contract)
    ensures (forall n :: 0 <= n < |events| ==> !Learns(compiler, Run(compiler, events[..n]), events[n], contract)) ==>
              IsActive(Run(compiler, events).stores, contract, Target(compiler, contract))
  {
    hide Run, Learns, Authorized;
    assert Settled(compiler, Run(compiler, events[..m]).stores, contract);
    RunEvolves(compiler, events, m, |events|);
    assert events[..|events|] == events;
    if forall n :: 0 <= n < |events| ==> !Learns(compiler, Run(compiler, events[..n]), events[n], contract) {
      BootstrapIsAllThereIs(compiler, events, contract);
      var stores := Run(compiler, events).stores;
      var active :| active in stores.executables && IsActive(stores, contract, active);
    }
  }

  // ---------------------------------------------------------------- what the worker activates

  /** Whenever a resolution takes effect as an activation, the candidate as stored recompiled to its digest and
      materialized against its accepted contract, which allows automatic activation. */
  lemma WorkerActivatesOnlyValidated(compiler: Compiler, system: System, id: nat)
    requires Inv(compiler, system) && id in system.tasks && system.tasks[id].Working?
    requires system.tasks[id].pending != [] && system.tasks[id].workPhase.Resolves?
    requires Resolve(system.stores, system.tasks[id].pending[0], system.tasks[id].workPhase.action).1
          == Resolved(Activate)
    ensures var snapshot := system.tasks[id].pending[0];
            var after := After(compiler, system, Advance(id)).stores;
            && IsAutomatic(compiler, system.stores, snapshot.admission)
            && Validated(compiler, system.stores, snapshot)
            && IsActive(after, snapshot.admission.contract, snapshot.admission.executable)
            && after.executables[snapshot.admission.executable].artifact
                 == system.stores.executables[snapshot.admission.executable].artifact
  {
    hide HasActive, Resolve, OneActive;
    var task := system.tasks[id];
    ResolutionKeeps(system.stores, task.pending[0], task.workPhase.action);
  }

  /** The early answer of the assessment is harmless: a candidate that has moved is never activated by it. */
  lemma MovedCandidateIsLeftAlone(stores: Stores, snapshot: Snapshot, action: Action)
    requires Sound(stores) && HasMoved(stores, snapshot)
    ensures var (after, resolution) := Resolve(stores, snapshot, action);
            after == stores && resolution != Resolved(Activate) && resolution != Resolved(Reject)
  {
    hide IsNewest, SupersededOthers, SupersededStale, Replaced;
  }

  // ---------------------------------------------------------------- admission

  /** Checking that a contract is current and storing its candidate are one step to everyone else. */
  lemma AdmittedWhileCurrent(compiler: Compiler, system: System, event: Event, key: (string, string))
    requires Inv(compiler, system)
    requires key in After(compiler, system, event).stores.admissions && key !in system.stores.admissions
    ensures var admission := After(compiler, system, event).stores.admissions[key];
            && IsCurrent(system.stores, admission.name, admission.contract)
            && HasActive(system.stores, admission.contract)
  {
    hide HasActive, Sound, TaskHolds, DefaultIsSpent;
    var task := system.tasks[event.id];
    match task
    case Deploying(_, _, _, _) => DeployAdmitsNothing(compiler, system.stores, system.mutex, event.id, task);
    case Submitting(admission, artifact, _) =>
      AdmissionKeys(system.stores, admission, artifact);
      SubmitterIsCurrent(compiler, system, event.id);
    case Activating(_, _) => HandAdmitsNothing(system.stores, system.mutex, task);
    case Working(_, _) => WorkAdmitsNothing(compiler, system.stores, system.mutex, task);
    case Cataloguing(_, _) =>
  }

  lemma SubmitterIsCurrent(compiler: Compiler, system: System, id: nat)
    requires Inv(compiler, system) && id in system.tasks
    requires system.tasks[id].Submitting? && system.tasks[id].submitPhase == PutsAdmission
    ensures IsCurrent(system.stores, system.tasks[id].admission.name, system.tasks[id].admission.contract)
    ensures system.mutex == Some(id)
  {
  }

  lemma DeployAdmitsNothing(compiler: Compiler, stores: Stores, mutex: Option<nat>, id: nat, task: Task)
    requires task.Deploying?
    ensures Deploy(compiler, stores, mutex, id, task).stores.admissions == stores.admissions
  {
    hide AfterReading, PutVersion, PutCandidate, ActivateBasic, SetCurrent, ActiveDigest;
    var contract := compiler.digestOf(task.document);
    var default, authored := compiler.defaultOf(contract), compiler.authoredOf(contract);
    CatalogWritesAdmitNothing(stores, task.name, contract, task.document, task.authority);
    BootstrapWritesAdmitNothing(stores, contract, default, compiler.artifactOf(default), None);
    if authored.Some? {
      BootstrapWritesAdmitNothing(stores, contract, authored.value, compiler.artifactOf(authored.value), Some(default));
    }
  }

  lemma CatalogWritesAdmitNothing(stores: Stores, name: string, contract: string, document: string, authority: string)
    ensures PutVersion(stores, name, contract, document, authority).0.admissions == stores.admissions
    ensures SetCurrent(stores, name, contract).admissions == stores.admissions
  {
  }

  lemma BootstrapWritesAdmitNothing(stores: Stores, contract: string, digest: string, artifact: string,
                                    expected: Option<string>)
    ensures PutCandidate(stores, digest, contract, artifact).admissions == stores.admissions
    ensures ActivateBasic(stores, contract, digest, expected).0.admissions == stores.admissions
  {
    hide HasActive, IsActive, Replaced;
  }

  lemma HandAdmitsNothing(stores: Stores, mutex: Option<nat>, task: Task)
    requires task.Activating?
    ensures ActivateByHand(stores, mutex, task).stores.admissions == stores.admissions
  {
  }

  lemma WorkAdmitsNothing(compiler: Compiler, stores: Stores, mutex: Option<nat>, task: Task)
    requires task.Working?
    ensures Work(compiler, stores, mutex, task).stores.admissions == stores.admissions
  {
  }

  /** A workspace's cycle has at most one candidate, in every run and for good. */
  lemma OneCandidatePerCycle(compiler: Compiler, events: seq<Event>, m: nat, n: nat, key: (string, string))
    requires compiler.Valid() && m <= n <= |events| && key in Run(compiler, events[..m]).stores.admissions
    ensures key in Run(compiler, events[..n]).stores.admissions
    ensures Run(compiler, events[..n]).stores.admissions[key] == Run(compiler, events[..m]).stores.admissions[key]
    ensures Run(compiler, events[..n]).stores.admissions[key].Key() == key
  {
    hide Run, KeepsAuthority, Settled, TaskHolds, OneActive;
    RunEvolves(compiler, events, m, n);
  }

  // ---------------------------------------------------------------- a deployment on its own

  function StepsLeft(phase: DeployPhase): nat {
    match phase
    case PutsVersion => 11
    case ReadsVersion => 10
    case ReadsActive => 9
    case PutsDefault => 8
    case ActivatesDefault => 7
    case ReadsAfterDefault => 6
    case PutsAuthored => 5
    case ActivatesAuthored => 4
    case ReadsAfterAuthored => 3
    case AwaitsLock => 2
    case SetsCurrent => 1
  }

  /** Nobody else holds the lock. */
  predicate Unhindered(system: System, id: nat) {
    system.mutex.None? || system.mutex == Some(id)
  }

  ghost predicate HasCompleted(compiler: Compiler, system: System, name: string, contract: string) {
    IsCurrent(system.stores, name, contract) && Settled(compiler, system.stores, contract)
  }

  ghost predicate OwnsName(stores: Stores, task: Task)
    requires task.Deploying?
  {
    task.deployPhase == PutsVersion && task.name in stores.owners ==> stores.owners[task.name] == task.authority
  }

  /** A deployment with the right authority always has a next step, wherever an earlier attempt crashed. */
  ghost predicate GoesOn(task: Task, next: Option<Task>)
    requires task.Deploying?
  {
    && next.Some? && next.value.Deploying?
    && next.value == task.(deployPhase := next.value.deployPhase)
    && next.value.deployPhase != PutsVersion
    && StepsLeft(next.value.deployPhase) < StepsLeft(task.deployPhase)
  }

  lemma ActivationGoesOn(compiler: Compiler, stores: Stores, mutex: Option<nat>, id: nat, task: Task)
    requires compiler.Valid() && Authorized(compiler, stores) && TaskHolds(compiler, stores, mutex, id, task)
    requires task.Deploying? && (task.deployPhase == ActivatesDefault || task.deployPhase == ActivatesAuthored)
    ensures GoesOn(task, Deploy(compiler, stores, mutex, id, task).task)
  {
    hide IsPristine, OthersWait, KeepsRetired, DefaultIsSpent, HasActive, ActivateBasic, OneActive, IsActive, Settled;
    var contract := compiler.digestOf(task.document);
    if task.deployPhase == ActivatesDefault {
      BasicOutcomes(stores, contract, compiler.defaultOf(contract), None);
    } else {
      BasicOutcomes(stores, contract, compiler.authoredOf(contract).value, Some(compiler.defaultOf(contract)));
    }
  }

  lemma DeployGoesOn(compiler: Compiler, stores: Stores, mutex: Option<nat>, id: nat, task: Task)
    requires compiler.Valid() && Authorized(compiler, stores) && TaskHolds(compiler, stores, mutex, id, task)
    requires task.Deploying? && task.deployPhase != SetsCurrent && OwnsName(stores, task)
    requires mutex.None? || mutex == Some(id)
    ensures GoesOn(task, Deploy(compiler, stores, mutex, id, task).task)
  {
    hide HasActive, ActivateBasic, PutCandidate, ActiveDigest, Settled, Authorized;
    var contract := compiler.digestOf(task.document);
    SettledHasActive(compiler, stores, contract);
    ActiveDigestIsActive(stores, contract);
    if task.deployPhase == ActivatesDefault || task.deployPhase == ActivatesAuthored {
      ActivationGoesOn(compiler, stores, mutex, id, task);
    }
  }

  lemma DeploymentAdvances(compiler: Compiler, system: System, id: nat)
    requires Inv(compiler, system) && id in system.tasks && system.tasks[id].Deploying?
    requires Unhindered(system, id) && OwnsName(system.stores, system.tasks[id])
    ensures var task := system.tasks[id];
            var after := After(compiler, system, Advance(id));
            if task.deployPhase == SetsCurrent
            then HasCompleted(compiler, after, task.name, compiler.digestOf(task.document))
            else
              && id in after.tasks && after.tasks[id].Deploying?
              && after.tasks[id] == task.(deployPhase := after.tasks[id].deployPhase)
              && StepsLeft(after.tasks[id].deployPhase) < StepsLeft(task.deployPhase)
              && Unhindered(after, id) && OwnsName(after.stores, after.tasks[id])
  {
    hide HasActive, Settled, Grows, SameActive, OneActive, Authorized, Deploy;
    var task := system.tasks[id];
    EveryTaskSteps(compiler, system.stores, system.mutex, id, task);
    if task.deployPhase == SetsCurrent {
      CompletingMakesCurrent(compiler, system.stores, system.mutex, id, task);
    } else {
      DeployGoesOn(compiler, system.stores, system.mutex, id, task);
    }
  }

  lemma CompletingMakesCurrent(compiler: Compiler, stores: Stores, mutex: Option<nat>, id: nat, task: Task)
    requires task.Deploying? && task.deployPhase == SetsCurrent && DeployHolds(compiler, stores, task)
    ensures IsCurrent(Deploy(compiler, stores, mutex, id, task).stores, task.name, compiler.digestOf(task.document))
    ensures Settled(compiler, stores, compiler.digestOf(task.document))
  {
  }

  ghost function Alone(compiler: Compiler, system: System, id: nat, steps: nat): System
    decreases steps
  {
    if steps == 0 then system else Alone(compiler, After(compiler, system, Advance(id)), id, steps - 1)
  }

  /** Left to itself, a deployment completes within eleven steps, whatever state earlier attempts left behind. */
  lemma {:induction false} DeploymentCompletes(compiler: Compiler, system: System, id: nat) returns (steps: nat)
    requires Inv(compiler, system) && id in system.tasks && system.tasks[id].Deploying?
    requires Unhindered(system, id) && OwnsName(system.stores, system.tasks[id])
    ensures steps <= StepsLeft(system.tasks[id].deployPhase)
    ensures HasCompleted(compiler, Alone(compiler, system, id, steps), system.tasks[id].name,
                         compiler.digestOf(system.tasks[id].document))
    decreases StepsLeft(system.tasks[id].deployPhase)
  {
    hide Inv, After, HasCompleted, OwnsName;
    var after := After(compiler, system, Advance(id));
    DeploymentAdvances(compiler, system, id);
    EveryStepKeeps(compiler, system, Advance(id));
    if system.tasks[id].deployPhase == SetsCurrent {
      steps := 1;
    } else {
      var rest := DeploymentCompletes(compiler, after, id);
      steps := rest + 1;
    }
  }

  // ---------------------------------------------------------------- a worker left to itself

  /** The candidate's contract is current and accepted, allows automatic activation, and the candidate as stored
      recompiles to its digest and materializes. */
  predicate Deserves(compiler: Compiler, stores: Stores, admission: Admission) {
    && IsCurrent(stores, admission.name, admission.contract)
    && (admission.name, admission.contract) in stores.versions && admission.executable in stores.executables
    && var document := stores.versions[(admission.name, admission.contract)];
       && compiler.autoActivates(document) && compiler.recompiles(document, admission.executable)
       && compiler.materializes(document, stores.executables[admission.executable].artifact, admission.executable)
  }

  /** Left to itself, a worker decides what it discovered: a candidate that deserves it is activated, any other one is
      retired, and no candidate is left waiting under the name. */
  lemma WorkerDecides(compiler: Compiler, system: System, id: nat, name: string) returns (steps: nat)
    requires Sound(system.stores) && id in system.tasks && system.tasks[id].Working?
    requires system.tasks[id].workPhase == ReadsContract && system.tasks[id].pending != []
    requires IsDiscovered(system.stores, name, system.tasks[id].pending[0])
    ensures steps <= 3
    ensures var (before, after) := (system.stores, Alone(compiler, system, id, steps));
            var admission := system.tasks[id].pending[0].admission;
            && admission.executable in after.stores.executables
            && after.stores.executables[admission.executable].state
                 == (if Deserves(compiler, before, admission) then Active else Inactive)
            && (forall other: Admission :: !Competes(after.stores, other, name))
            && after.tasks == (if |system.tasks[id].pending| == 1 then system.tasks - {id}
                               else system.tasks[id := Working(system.tasks[id].pending[1..], ReadsContract)])
  {
    hide Resolve, IsLater, OneActive, HasActive, ActiveIs;
    var snapshot := system.tasks[id].pending[0];
    var phase := AssessContract(compiler, system.stores, snapshot.admission);
    var action := if phase.Resolves? then phase.action
                  else AssessCandidate(compiler, system.stores, snapshot, phase.document);
    steps := if phase.Resolves? then 2 else 3;
    DiscoveredIsResolved(system.stores, name, snapshot, action);
    if IsCurrent(system.stores, name, snapshot.admission.contract) {
      ResolvingChanges(system.stores, snapshot, action, snapshot.admission.executable);
    } else {
      SupersedingChanges(system.stores, snapshot, action, snapshot.admission.executable);
    }
    var read := system.(tasks := system.tasks[id := system.tasks[id].(workPhase := phase)]);
    assert After(compiler, system, Advance(id)) == read;
    var ready := system.(tasks := system.tasks[id := system.tasks[id].(workPhase := Resolves(action))]);
    if !phase.Resolves? {
      assert After(compiler, read, Advance(id)) == ready;
    }
    var done := After(compiler, ready, Advance(id));
    assert done.stores == Resolve(system.stores, snapshot, action).0;
    assert Alone(compiler, ready, id, 1) == Alone(compiler, done, id, 0) == done;
    assert Alone(compiler, system, id, steps) == Alone(compiler, read, id, steps - 1);
  }

  /** Left to itself, with the lock free, a submission for an accepted version is stored exactly if the version is
      current, the cycle has no admission yet, and the executable is not stored or still waits. */
  lemma SubmissionIsStoredExactlyIf(compiler: Compiler, system: System, id: nat) returns (steps: nat)
    requires id in system.tasks && system.tasks[id].Submitting? && system.tasks[id].submitPhase == ReadsAccepted
    requires system.mutex.None?
    requires var admission := system.tasks[id].admission; (admission.name, admission.contract) in system.stores.versions
    ensures steps <= 4
    ensures var (before, after) := (system.stores, Alone(compiler, system, id, steps));
            var (admission, artifact) := (system.tasks[id].admission, system.tasks[id].artifact);
            && after.tasks == system.tasks - {id} && after.mutex.None?
            && after.stores
                 == if && IsCurrent(before, admission.name, admission.contract)
                       && admission.Key() !in before.admissions
                       && (admission.executable in before.executables ==>
                             before.executables[admission.executable].state == Candidate)
                    then before.(admissions := before.admissions[admission.Key() := admission],
                                 executables := if admission.executable in before.executables then before.executables
                                                else before.executables[admission.executable :=
                                                       Executable(admission.contract, artifact, Candidate, 0)])
                    else before
  {
    var task := system.tasks[id];
    var current := IsCurrent(system.stores, task.admission.name, task.admission.contract);
    steps := if current then 4 else 3;
    var turn := system.(tasks := system.tasks[id := task.(submitPhase := AwaitsTurn)]);
    var checks := System(system.stores, system.tasks[id := task.(submitPhase := ChecksCurrent)], Some(id));
    assert After(compiler, system, Advance(id)) == turn && After(compiler, turn, Advance(id)) == checks;
    assert Alone(compiler, system, id, steps) == Alone(compiler, turn, id, steps - 1)
        == Alone(compiler, checks, id, steps - 2);
    if current {
      var puts := checks.(tasks := system.tasks[id := task.(submitPhase := PutsAdmission)]);
      assert After(compiler, checks, Advance(id)) == puts;
      assert Alone(compiler, checks, id, 2) == Alone(compiler, puts, id, 1);
      EndsAlone(compiler, puts, id);
      assert puts.tasks - {id} == system.tasks - {id};
    } else {
      EndsAlone(compiler, checks, id);
    }
    assert checks.tasks - {id} == system.tasks - {id};
  }

  lemma EndsAlone(compiler: Compiler, system: System, id: nat)
    ensures Alone(compiler, system, id, 1) == After(compiler, system, Advance(id))
  {
    assert Alone(compiler, After(compiler, system, Advance(id)), id, 0) == After(compiler, system, Advance(id));
  }

  /** Left to itself, a manual activation takes effect if the version is accepted and nothing the caller saw has moved;
      otherwise nothing happens. */
  lemma ManualActivationTakesEffect(compiler: Compiler, system: System, id: nat) returns (steps: nat)
    requires id in system.tasks && system.tasks[id].Activating? && !system.tasks[id].found
    ensures steps <= 2
    ensures var (after, command) := (Alone(compiler, system, id, steps), system.tasks[id].command);
            && after.tasks == system.tasks - {id} && after.mutex == system.mutex
            && after.stores == (if (command.name, command.contract) in system.stores.versions
                                then ActivateCandidate(system.stores, command).0 else system.stores)
  {
    hide ActivateCandidate;
    var (task, command) := (system.tasks[id], system.tasks[id].command);
    steps := if (command.name, command.contract) in system.stores.versions then 2 else 1;
    if steps == 2 {
      var found := system.(tasks := system.tasks[id := task.(found := true)]);
      assert After(compiler, system, Advance(id)) == found;
      assert Alone(compiler, system, id, 2) == Alone(compiler, found, id, 1);
    }
  }

  /** Left to itself, a catalog read looks at every contract it has set out to read, and reports one missing exactly if
      one of them has no active executable. */
  lemma {:induction false} CatalogueReportsExactly(compiler: Compiler, system: System, id: nat, steps: nat)
    requires id in system.tasks && system.tasks[id].Cataloguing? && steps == |system.tasks[id].unread|
    ensures var after := Alone(compiler, system, id, steps);
            && after.stores == system.stores && id in after.tasks
            && after.tasks[id] == Cataloguing({}, || system.tasks[id].missing
                                                  || exists contract <- system.tasks[id].unread ::
                                                       !HasActive(system.stores, contract))
    decreases steps
  {
    hide HasActive;
    var task := system.tasks[id];
    if task.unread != {} {
      var next := After(compiler, system, Advance(id));
      var contract :| contract in task.unread
                      && next.tasks[id] == Cataloguing(task.unread - {contract},
                                                       task.missing || !HasActive(system.stores, contract));
      assert forall other :: other in task.unread <==> other == contract || other in task.unread - {contract};
      CatalogueReportsExactly(compiler, next, id, steps - 1);
    }
  }
}
