/** The two stores behind runtime authority: accepted contract versions with the current one of each name, and
    executables with their lifecycle and the admissions of analysis candidates. Every write is one immediate
    transaction, so every write is one step. */
module AuthorityStores {
  import opened Wrappers

  datatype Lifecycle = Candidate | Active | Inactive

  datatype Executable = Executable(contract: string, artifact: string, state: Lifecycle, version: nat)

  datatype Admission = Admission(
    workspace: string,
    cycle: string,
    attempt: string,
    name: string,
    contract: string,
    executable: string,
    manifest: string,
    createdAt: int
  ) {
    function Key(): (string, string) {
      (workspace, cycle)
    }

    /** The same submission, whenever it was made. */
    predicate Matches(other: Admission) {
      this == other.(createdAt := createdAt)
    }
  }

  /** An executable as seen at one moment: its digest and its state version. */
  datatype Token = Token(executable: string, version: nat)

  datatype Stores = Stores(
    owners: map<string, string>,
    versions: map<(string, string), string>,
    current: map<string, string>,
    executables: map<string, Executable>,
    admissions: map<(string, string), Admission>)

  // ---------------------------------------------------------------- contract versions

  datatype PutOutcome = Created | Existing | AuthorityConflict

  /** The first authority to use a name owns it, and a version once accepted is never rewritten. */
  function PutVersion(stores: Stores, name: string, contract: string, document: string, authority: string)
    : (Stores, PutOutcome)
  {
    if name in stores.owners && stores.owners[name] != authority then (stores, AuthorityConflict)
    else
      var owned := stores.(owners := stores.owners[name := authority]);
      if (name, contract) in stores.versions then (owned, Existing)
      else (owned.(versions := owned.versions[(name, contract) := document]), Created)
  }

  function SetCurrent(stores: Stores, name: string, contract: string): Stores {
    if (name, contract) !in stores.versions then stores
    else stores.(current := stores.current[name := contract])
  }

  // ---------------------------------------------------------------- candidates

  function PutCandidate(stores: Stores, digest: string, contract: string, artifact: string): Stores {
    if digest in stores.executables then stores
    else stores.(executables := stores.executables[digest := Executable(contract, artifact, Candidate, 0)])
  }

  datatype AdmissionOutcome = Admitted | AlreadyAdmitted | AdmissionConflict | LifecycleConflict

  /** One candidate per workspace and cycle; an identical retry finds it again. */
  function PutAnalysisCandidate(stores: Stores, admission: Admission, artifact: string): (Stores, AdmissionOutcome) {
    if admission.Key() in stores.admissions then
      (stores, if stores.admissions[admission.Key()].Matches(admission) then AlreadyAdmitted else AdmissionConflict)
    else if admission.executable in stores.executables && stores.executables[admission.executable].state != Candidate
    then
      (stores, LifecycleConflict)
    else
      var put := PutCandidate(stores, admission.executable, admission.contract, artifact);
      (put.(admissions := put.admissions[admission.Key() := admission]), Admitted)
  }

  // ---------------------------------------------------------------- activation

  predicate IsActive(stores: Stores, contract: string, digest: string) {
    && digest in stores.executables
    && stores.executables[digest].contract == contract
    && stores.executables[digest].state == Active
  }

  predicate HasActive(stores: Stores, contract: string) {
    exists digest <- stores.executables :: IsActive(stores, contract, digest)
  }

  ghost function ActiveToken(stores: Stores, contract: string): (token: Option<Token>)
    ensures token.Some? <==> HasActive(stores, contract)
    ensures token.Some? ==> IsActive(stores, contract, token.value.executable)
                            && token.value.version == stores.executables[token.value.executable].version
  {
    if HasActive(stores, contract) then
      var digest :| digest in stores.executables && IsActive(stores, contract, digest);
      Some(Token(digest, stores.executables[digest].version))
    else None
  }

  function Retired(executable: Executable): Executable {
    executable.(state := Inactive, version := executable.version + 1)
  }

  /** Whatever is active for the contract steps down, and the digest takes over at the given version. */
  function Replaced(executables: map<string, Executable>, contract: string, digest: string, version: nat)
    : map<string, Executable>
  {
    map other | other in executables ::
      if other == digest then executables[other].(state := Active, version := version)
      else if executables[other].contract == contract && executables[other].state == Active
      then Retired(executables[other])
      else executables[other]
  }

  datatype ActivationOutcome =
    | Activated | Unchanged | NotFound | ContractMismatch | CandidateConflict | CurrentConflict | ActivationConflict

  /** Basic activation, fenced by the digest expected to be active; None expects nothing to be active. */
  ghost function ActivateBasic(stores: Stores, contract: string, digest: string, expected: Option<string>)
    : (Stores, ActivationOutcome)
  {
    var active := ActiveToken(stores, contract);
    if digest !in stores.executables then (stores, NotFound)
    else if stores.executables[digest].contract != contract then (stores, ContractMismatch)
    else if expected != (if active.Some? then Some(active.value.executable) else None) then (stores, ActivationConflict)
    else if active.Some? && active.value.executable == digest then (stores, Unchanged)
    else
      var version := (if active.Some? then active.value.version else 0) + 1;
      (stores.(executables := Replaced(stores.executables, contract, digest, version)), Activated)
  }

  predicate HasAdmission(admissions: map<(string, string), Admission>, name: string, digest: string) {
    exists key <- admissions :: admissions[key].name == name && admissions[key].executable == digest
  }

  /** Every other candidate admitted under the name gives way. */
  function SupersededOthers(stores: Stores, name: string, selected: string): Stores {
    stores.(executables := map digest | digest in stores.executables ::
      if digest != selected && stores.executables[digest].state == Candidate
         && HasAdmission(stores.admissions, name, digest)
      then Retired(stores.executables[digest]) else stores.executables[digest])
  }

  predicate HasStaleAdmission(stores: Stores, name: string, digest: string) {
    exists key <- stores.admissions ::
      && stores.admissions[key].name == name && stores.admissions[key].executable == digest
      && (name !in stores.current || stores.admissions[key].contract != stores.current[name])
  }

  /** Every candidate admitted under the name for a version that is no longer current gives way. */
  function SupersededStale(stores: Stores, name: string): Stores {
    stores.(executables := map digest | digest in stores.executables ::
      if stores.executables[digest].state == Candidate && HasStaleAdmission(stores, name, digest)
      then Retired(stores.executables[digest]) else stores.executables[digest])
  }

  predicate IsCurrent(stores: Stores, name: string, contract: string) {
    name in stores.current && stores.current[name] == contract
  }

  datatype ActivationCommand = ActivationCommand(
    name: string,
    contract: string,
    executable: string,
    candidateVersion: nat,
    active: Token)

  /** Manual activation of a candidate, fenced by its version, the current contract and the active executable. */
  ghost function ActivateCandidate(stores: Stores, command: ActivationCommand): (Stores, ActivationOutcome) {
    var active := ActiveToken(stores, command.contract);
    if command.executable !in stores.executables then (stores, NotFound)
    else
      var candidate := stores.executables[command.executable];
      if candidate.contract != command.contract then (stores, ContractMismatch)
      else if candidate.state != Candidate || candidate.version != command.candidateVersion
      then (stores, CandidateConflict)
      else if !IsCurrent(stores, command.name, command.contract) then (stores, CurrentConflict)
      else if active != Some(command.active) then (stores, ActivationConflict)
      else
        var version := (if command.active.version < command.candidateVersion then command.candidateVersion
                        else command.active.version) + 1;
        var replaced := stores.(executables :=
          Replaced(stores.executables, command.contract, command.executable, version));
        (SupersededOthers(replaced, command.name, command.executable), Activated)
  }

  // ---------------------------------------------------------------- resolution

  /** What discovery hands to the worker about one waiting candidate. */
  datatype Snapshot = Snapshot(admission: Admission, candidateVersion: nat, active: Option<Token>)

  datatype Action = Activate | Reject

  datatype Resolution = Resolved(action: Action) | Superseded | Yielded | AlreadyResolved | MissingAdmission

  predicate Precedes(left: string, right: string) {
    if right == "" then false
    else if left == "" then true
    else left[0] < right[0] || (left[0] == right[0] && Precedes(left[1..], right[1..]))
  }

  /** Admissions are ordered by time, then by executable digest, then by workspace, then by cycle. */
  predicate IsLater(one: Admission, other: Admission) {
    if one.createdAt != other.createdAt then one.createdAt > other.createdAt
    else if one.executable != other.executable then Precedes(other.executable, one.executable)
    else if one.workspace != other.workspace then Precedes(other.workspace, one.workspace)
    else Precedes(other.cycle, one.cycle)
  }

  predicate Waits(stores: Stores, key: (string, string), name: string, contract: string)
    requires key in stores.admissions
  {
    var admission := stores.admissions[key];
    && admission.name == name && admission.contract == contract
    && admission.executable in stores.executables && stores.executables[admission.executable].state == Candidate
  }

  predicate IsNewest(stores: Stores, name: string, contract: string, digest: string) {
    exists key <- stores.admissions ::
      && Waits(stores, key, name, contract) && stores.admissions[key].executable == digest
      && forall other <- stores.admissions ::
           other != key && Waits(stores, other, name, contract) ==>
             IsLater(stores.admissions[key], stores.admissions[other])
  }

  /** The admission the snapshot speaks about, whatever its attempt and manifest. */
  predicate Names(admission: Admission, stored: Admission) {
    && stored.name == admission.name && stored.contract == admission.contract
    && stored.executable == admission.executable
  }

  /** A candidate is activated or rejected only while nothing the snapshot saw has moved; a rejection does not mind
      another executable having become active. */
  ghost function Resolve(stores: Stores, snapshot: Snapshot, action: Action): (Stores, Resolution) {
    var admission := snapshot.admission;
    if admission.Key() !in stores.admissions || !Names(admission, stores.admissions[admission.Key()])
       || admission.executable !in stores.executables
    then (stores, MissingAdmission)
    else
      var candidate := stores.executables[admission.executable];
      if candidate.state != Candidate then (stores, AlreadyResolved)
      else if candidate.version != snapshot.candidateVersion
              || stores.admissions[admission.Key()].createdAt != admission.createdAt
      then (stores, Yielded)
      else if !IsCurrent(stores, admission.name, admission.contract) then
        (SupersededStale(stores, admission.name), Superseded)
      else if !IsNewest(stores, admission.name, admission.contract, admission.executable) then (stores, Yielded)
      else if action == Reject then
        var rejected := stores.(executables := stores.executables[admission.executable := Retired(candidate)]);
        (SupersededOthers(rejected, admission.name, admission.executable), Resolved(Reject))
      else if ActiveToken(stores, admission.contract) != snapshot.active then (stores, Yielded)
      else
        var version := (if snapshot.active.Some? then snapshot.active.value.version else snapshot.candidateVersion) + 1;
        var replaced := stores.(executables :=
          Replaced(stores.executables, admission.contract, admission.executable, version));
        (SupersededOthers(replaced, admission.name, admission.executable), Resolved(Activate))
  }

  // ---------------------------------------------------------------- what every write keeps

  ghost predicate OneActive(stores: Stores) {
    forall contract: string, one: string, other: string ::
      IsActive(stores, contract, one) && IsActive(stores, contract, other) ==> one == other
  }

  /** At most one executable is active per contract, candidates are still at version zero, and admissions and current
      versions point at what exists. */
  ghost predicate Sound(stores: Stores) {
    && OneActive(stores)
    && (forall digest <- stores.executables ::
          stores.executables[digest].state == Candidate ==> stores.executables[digest].version == 0)
    && (forall key <- stores.admissions ::
          && stores.admissions[key].Key() == key
          && stores.admissions[key].executable in stores.executables
          && stores.executables[stores.admissions[key].executable].contract == stores.admissions[key].contract)
    && (forall name <- stores.current :: (name, stores.current[name]) in stores.versions)
  }

  /** Accepted versions, admissions and executable payloads never change; nothing becomes a candidate again. */
  ghost predicate Grows(before: Stores, after: Stores) {
    && (forall key <- before.versions :: key in after.versions && after.versions[key] == before.versions[key])
    && (forall name <- before.owners :: name in after.owners && after.owners[name] == before.owners[name])
    && (forall key <- before.admissions :: key in after.admissions && after.admissions[key] == before.admissions[key])
    && (forall digest <- before.executables ::
          && digest in after.executables
          && after.executables[digest].contract == before.executables[digest].contract
          && after.executables[digest].artifact == before.executables[digest].artifact
          && (before.executables[digest].state != Candidate ==> after.executables[digest].state != Candidate))
  }

  predicate IsAdmitted(stores: Stores, digest: string) {
    exists key <- stores.admissions :: stores.admissions[key].executable == digest
  }

  /** Apart from the chosen ones, only admitted candidates stop waiting, and whatever is new waits. */
  ghost predicate OthersWait(before: Stores, after: Stores, chosen: set<string>) {
    && (forall digest <- before.executables ::
          before.executables[digest].state == Candidate && digest !in chosen && !IsAdmitted(before, digest) ==>
            digest in after.executables && after.executables[digest].state == Candidate)
    && (forall digest <- after.executables ::
          digest !in before.executables ==> after.executables[digest].state == Candidate)
  }

  ghost predicate SameActive(before: Stores, after: Stores) {
    forall contract: string, digest: string :: IsActive(after, contract, digest) <==> IsActive(before, contract, digest)
  }

  /** The digest, and nothing else, is now active for the contract; all other contracts stay as they were. */
  ghost predicate TakesOver(before: Stores, after: Stores, contract: string, digest: string) {
    forall other: string, candidate: string ::
      IsActive(after, other, candidate) <==>
        (if other == contract then candidate == digest else IsActive(before, other, candidate))
  }

  /** A contract that has runtime authority keeps it. */
  ghost predicate KeepsAuthority(before: Stores, after: Stores) {
    forall contract: string :: HasActive(before, contract) ==> HasActive(after, contract)
  }

  lemma SameActiveKeeps(before: Stores, after: Stores)
    requires SameActive(before, after)
    ensures KeepsAuthority(before, after)
    ensures OneActive(before) ==> OneActive(after)
  {
    forall contract: string | HasActive(before, contract)
      ensures HasActive(after, contract)
    {
      var digest :| digest in before.executables && IsActive(before, contract, digest);
      assert IsActive(after, contract, digest);
    }
  }

  lemma TakingOverKeeps(before: Stores, after: Stores, contract: string, digest: string)
    requires TakesOver(before, after, contract, digest)
    ensures KeepsAuthority(before, after) && HasActive(after, contract) && IsActive(after, contract, digest)
    ensures OneActive(before) ==> OneActive(after)
  {
    assert IsActive(after, contract, digest);
    forall other: string | HasActive(before, other)
      ensures HasActive(after, other)
    {
      if other != contract {
        var active :| active in before.executables && IsActive(before, other, active);
        assert IsActive(after, other, active);
      }
    }
  }

  lemma TokenIsTheActive(stores: Stores, contract: string, digest: string)
    requires OneActive(stores) && IsActive(stores, contract, digest)
    ensures ActiveToken(stores, contract) == Some(Token(digest, stores.executables[digest].version))
  {
  }

  // ---------------------------------------------------------------- the writes, one by one

  lemma PutVersionKeeps(stores: Stores, name: string, contract: string, document: string, authority: string)
    requires Sound(stores)
    ensures var (after, outcome) := PutVersion(stores, name, contract, document, authority);
            && Sound(after) && Grows(stores, after) && SameActive(stores, after)
            && after.executables == stores.executables && after.current == stores.current
            && after.admissions == stores.admissions
            && (outcome != AuthorityConflict ==> (name, contract) in after.versions)
            && (outcome == AuthorityConflict <==> name in stores.owners && stores.owners[name] != authority)
            && (outcome == AuthorityConflict ==> after == stores)
            && (outcome != AuthorityConflict ==> after.owners == stores.owners[name := authority])
            && (outcome == Created <==> after.versions != stores.versions)
            && (outcome == Created ==> after.versions == stores.versions[(name, contract) := document])
  {
    hide Sound, SameActive, Grows;
    NothingGrows(stores);
    if name !in stores.owners || stores.owners[name] == authority {
      var owned := stores.(owners := stores.owners[name := authority]);
      ClaimingKeeps(stores, name, authority);
      if (name, contract) !in stores.versions {
        var after := owned.(versions := owned.versions[(name, contract) := document]);
        NewVersionKeeps(owned, (name, contract), document);
        GrowsTwice(stores, owned, after);
        SameActiveTwice(stores, owned, after);
      }
    }
  }

  lemma ClaimingKeeps(stores: Stores, name: string, authority: string)
    requires Sound(stores) && (name in stores.owners ==> stores.owners[name] == authority)
    ensures var after := stores.(owners := stores.owners[name := authority]);
            Sound(after) && Grows(stores, after) && SameActive(stores, after)
  {
    hide OneActive, SameActive;
    SameExecutables(stores, stores.(owners := stores.owners[name := authority]));
  }

  lemma NewVersionKeeps(stores: Stores, key: (string, string), document: string)
    requires Sound(stores) && key !in stores.versions
    ensures var after := stores.(versions := stores.versions[key := document]);
            Sound(after) && Grows(stores, after) && SameActive(stores, after)
  {
    hide OneActive, SameActive;
    SameExecutables(stores, stores.(versions := stores.versions[key := document]));
  }

  lemma SameExecutables(before: Stores, after: Stores)
    requires after.executables == before.executables
    ensures SameActive(before, after) && OthersWait(before, after, {})
    ensures OneActive(before) ==> OneActive(after)
  {
  }

  lemma SetCurrentKeeps(stores: Stores, name: string, contract: string)
    requires Sound(stores)
    ensures var after := SetCurrent(stores, name, contract);
            && Sound(after) && Grows(stores, after) && SameActive(stores, after)
            && after == stores.(current := after.current)
            && after.current == (if (name, contract) in stores.versions then stores.current[name := contract]
                                 else stores.current)
  {
    hide OneActive;
    SameExecutables(stores, SetCurrent(stores, name, contract));
  }

  lemma PutCandidateKeeps(stores: Stores, digest: string, contract: string, artifact: string)
    requires Sound(stores)
    ensures var after := PutCandidate(stores, digest, contract, artifact);
            && Sound(after) && Grows(stores, after) && SameActive(stores, after)
            && digest in after.executables && OthersWait(stores, after, {})
            && after == stores.(executables := after.executables)
            && (if digest in stores.executables then after.executables == stores.executables
                else after.executables == stores.executables[digest := Executable(contract, artifact, Candidate, 0)])
  {
    hide OneActive, SameActive;
    PuttingIsQuiet(stores, digest, contract, artifact);
    SameActiveKeeps(stores, PutCandidate(stores, digest, contract, artifact));
  }

  lemma PuttingIsQuiet(stores: Stores, digest: string, contract: string, artifact: string)
    ensures SameActive(stores, PutCandidate(stores, digest, contract, artifact))
  {
  }

  lemma AddingAdmission(stores: Stores, put: Stores, admission: Admission)
    requires Grows(stores, put) && OthersWait(stores, put, {}) && put.admissions == stores.admissions
    requires admission.Key() !in put.admissions
    ensures var after := put.(admissions := put.admissions[admission.Key() := admission]);
            Grows(stores, after) && OthersWait(stores, after, {})
  {
  }

  /** The first candidate of a cycle is the only one it ever gets. */
  lemma AdmissionKeeps(stores: Stores, admission: Admission, artifact: string)
    requires Sound(stores)
    requires admission.executable in stores.executables ==>
               stores.executables[admission.executable].contract == admission.contract
    ensures var (after, outcome) := PutAnalysisCandidate(stores, admission, artifact);
            && Sound(after) && Grows(stores, after) && SameActive(stores, after) && after.current == stores.current
            && OthersWait(stores, after, {})
            && (outcome == Admitted || outcome == AlreadyAdmitted <==>
                  admission.Key() in after.admissions && after.admissions[admission.Key()].Matches(admission))
            && (outcome == Admitted <==> after.admissions != stores.admissions)
            && (outcome == Admitted ==>
                  && after.admissions == stores.admissions[admission.Key() := admission]
                  && Competes(after, admission, admission.name)
                  && after.executables == stores.executables[
                       admission.executable := Executable(admission.contract,
                         if admission.executable in stores.executables
                         then stores.executables[admission.executable].artifact else artifact, Candidate, 0)])
            && (outcome != Admitted ==> after == stores)
            && (outcome == AlreadyAdmitted || outcome == AdmissionConflict <==> admission.Key() in stores.admissions)
            && (outcome == AlreadyAdmitted ==>
                  var stored := stores.admissions[admission.Key()];
                  stored == admission.(createdAt := stored.createdAt))
            && (outcome == AdmissionConflict ==>
                  var stored := stores.admissions[admission.Key()];
                  stored != admission.(createdAt := stored.createdAt))
  {
    hide OneActive, SameActive, PutCandidate, OthersWait, Grows;
    PutCandidateKeeps(stores, admission.executable, admission.contract, artifact);
    var put := PutCandidate(stores, admission.executable, admission.contract, artifact);
    NothingGrows(stores);
    SameExecutables(put, put.(admissions := put.admissions[admission.Key() := admission]));
    if admission.Key() !in stores.admissions {
      AddingAdmission(stores, put, admission);
    }
    SameActiveTwice(stores, put, put.(admissions := put.admissions[admission.Key() := admission]));
  }

  lemma ReplacingTakesOver(stores: Stores, contract: string, digest: string, version: nat)
    requires Sound(stores) && digest in stores.executables && stores.executables[digest].contract == contract
    ensures var after := stores.(executables := Replaced(stores.executables, contract, digest, version));
            && Sound(after) && Grows(stores, after) && TakesOver(stores, after, contract, digest)
            && OthersWait(stores, after, {digest}) && after.executables.Keys == stores.executables.Keys
  {
    var after := stores.(executables := Replaced(stores.executables, contract, digest, version));
    assert TakesOver(stores, after, contract, digest);
    TakingOverKeeps(stores, after, contract, digest);
  }

  lemma SupersedingOthersKeeps(stores: Stores, name: string, selected: string)
    requires Sound(stores)
    ensures var after := SupersededOthers(stores, name, selected);
            && Sound(after) && Grows(stores, after) && SameActive(stores, after)
            && OthersWait(stores, after, {}) && after.executables.Keys == stores.executables.Keys
            && (selected in stores.executables ==> after.executables[selected] == stores.executables[selected])
  {
    hide OneActive, SameActive, SupersededOthers;
    SupersedingOthersIsQuiet(stores, name, selected);
    SameActiveKeeps(stores, SupersededOthers(stores, name, selected));
    SupersedingOthersGrows(stores, name, selected);
  }

  lemma SupersedingOthersIsQuiet(stores: Stores, name: string, selected: string)
    ensures SameActive(stores, SupersededOthers(stores, name, selected))
  {
    hide HasAdmission;
  }

  lemma SupersedingOthersGrows(stores: Stores, name: string, selected: string)
    ensures var after := SupersededOthers(stores, name, selected);
            && after == stores.(executables := after.executables)
            && after.executables.Keys == stores.executables.Keys
            && (forall digest <- stores.executables ::
                  || after.executables[digest] == stores.executables[digest]
                  || (&& after.executables[digest] == Retired(stores.executables[digest]) && digest != selected
                      && stores.executables[digest].state == Candidate && IsAdmitted(stores, digest)))
  {
  }

  lemma SupersedingStaleKeeps(stores: Stores, name: string)
    requires Sound(stores)
    ensures var after := SupersededStale(stores, name);
            && Sound(after) && Grows(stores, after) && SameActive(stores, after)
            && OthersWait(stores, after, {}) && after.executables.Keys == stores.executables.Keys
  {
    hide OneActive;
    SameActiveKeeps(stores, SupersededStale(stores, name));
  }

  /** Basic activation either does nothing or hands the contract's authority over. */
  lemma BasicActivationKeeps(stores: Stores, contract: string, digest: string, expected: Option<string>)
    requires Sound(stores)
    ensures var (after, outcome) := ActivateBasic(stores, contract, digest, expected);
            && Sound(after) && Grows(stores, after) && after.executables.Keys == stores.executables.Keys
            && OthersWait(stores, after, {digest})
            && (outcome == Activated ==> TakesOver(stores, after, contract, digest) && after.current == stores.current
                                         && after.admissions == stores.admissions)
            && (outcome != Activated ==> after == stores)
            && (outcome == Activated || outcome == Unchanged ==> IsActive(after, contract, digest))
            && (outcome == ActivationConflict <==>
                  && digest in stores.executables && stores.executables[digest].contract == contract
                  && !(if expected.Some? then IsActive(stores, contract, expected.value)
                       else !HasActive(stores, contract)))
  {
    hide TakesOver, Replaced, OthersWait, IsAdmitted;
    NothingGrows(stores);
    var active := ActiveToken(stores, contract);
    if expected.Some? && IsActive(stores, contract, expected.value) {
      TokenIsTheActive(stores, contract, expected.value);
    }
    if digest in stores.executables && stores.executables[digest].contract == contract {
      var version := (if active.Some? then active.value.version else 0) + 1;
      ReplacingTakesOver(stores, contract, digest, version);
      TakingOverKeeps(stores, stores.(executables := Replaced(stores.executables, contract, digest, version)),
                      contract, digest);
    }
  }

  /** On its own, basic activation would bring a retired executable back: exactly when the contract is its own and what
      is expected to be active is, or nothing is active and nothing is expected. */
  lemma BasicActivationRevives(stores: Stores, contract: string, digest: string, expected: Option<string>)
    requires Sound(stores) && digest in stores.executables && stores.executables[digest].state == Inactive
    ensures IsActive(ActivateBasic(stores, contract, digest, expected).0, stores.executables[digest].contract,
                     digest) <==>
            && contract == stores.executables[digest].contract
            && (if expected.Some? then IsActive(stores, contract, expected.value) else !HasActive(stores, contract))
  {
    hide TakesOver, Replaced, OthersWait, Grows, HasActive, ActivateBasic, OneActive;
    BasicActivationKeeps(stores, contract, digest, expected);
    var (after, outcome) := ActivateBasic(stores, contract, digest, expected);
    RetiredIsNotUnchanged(stores, contract, digest, expected);
    if outcome == Activated {
      TakingOverKeeps(stores, after, contract, digest);
    }
  }

  lemma RetiredIsNotUnchanged(stores: Stores, contract: string, digest: string, expected: Option<string>)
    requires digest in stores.executables && stores.executables[digest].state == Inactive
    ensures var outcome := ActivateBasic(stores, contract, digest, expected).1;
            && (outcome == Activated || outcome == ActivationConflict || outcome == ContractMismatch)
            && (outcome == ContractMismatch <==> stores.executables[digest].contract != contract)
  {
    hide HasActive;
  }

  function RetiredBesideActive(contract: string, retired: string, active: string): Stores {
    var inactive, other := Executable(contract, "", Inactive, 1), Executable(contract, "", Active, 2);
    Stores(map[], map[], map[], map[retired := inactive, active := other], map[])
  }

  /** A retired executable comes back over the expected active one, which is retired in its place. */
  lemma RetiredComesBackOverActive(contract: string, retired: string, active: string)
    requires retired != active
    ensures var stores := RetiredBesideActive(contract, retired, active);
            var (after, outcome) := ActivateBasic(stores, contract, retired, Some(active));
            && Sound(stores) && outcome == Activated
            && IsActive(after, contract, retired) && after.executables[active].state == Inactive
  {
    var stores := RetiredBesideActive(contract, retired, active);
    assert IsActive(stores, contract, active);
    TokenIsTheActive(stores, contract, active);
  }

  lemma HandedOver(before: Stores, between: Stores, after: Stores, contract: string, digest: string)
    requires TakesOver(before, between, contract, digest) && SameActive(between, after)
    ensures TakesOver(before, after, contract, digest)
  {
  }

  lemma WaitTwice(before: Stores, between: Stores, after: Stores, chosen: set<string>)
    requires OthersWait(before, between, chosen) && OthersWait(between, after, {})
    requires between.admissions == before.admissions && between.executables.Keys == before.executables.Keys
    requires after.executables.Keys == before.executables.Keys
    ensures OthersWait(before, after, chosen)
  {
  }

  lemma MoreChosen(before: Stores, after: Stores, chosen: set<string>)
    requires OthersWait(before, after, {})
    ensures OthersWait(before, after, chosen)
  {
  }

  lemma AdmittedNeedNotWait(before: Stores, after: Stores, chosen: string)
    requires OthersWait(before, after, {chosen}) && IsAdmitted(before, chosen)
    ensures OthersWait(before, after, {})
  {
  }

  lemma GrowsTwice(before: Stores, between: Stores, after: Stores)
    requires Grows(before, between) && Grows(between, after)
    ensures Grows(before, after)
  {
  }

  /** Handing over and superseding the backlog in one transaction. */
  lemma TakingOverSupersedes(stores: Stores, contract: string, name: string, digest: string, version: nat)
    requires Sound(stores) && digest in stores.executables && stores.executables[digest].contract == contract
    ensures var replaced := stores.(executables := Replaced(stores.executables, contract, digest, version));
            var after := SupersededOthers(replaced, name, digest);
            && Sound(after) && Grows(stores, after) && TakesOver(stores, after, contract, digest)
            && OthersWait(stores, after, {digest}) && after.executables.Keys == stores.executables.Keys
            && after.current == stores.current && after.admissions == stores.admissions
            && after.executables[digest].version == version
  {
    hide TakesOver, Replaced, SameActive, Grows, OneActive, SupersededOthers, OthersWait, IsAdmitted;
    var replaced := stores.(executables := Replaced(stores.executables, contract, digest, version));
    var after := SupersededOthers(replaced, name, digest);
    ReplacingTakesOver(stores, contract, digest, version);
    ReplacedVersion(stores.executables, contract, digest, version);
    SupersedingOthersKeeps(replaced, name, digest);
    SupersedingFrame(replaced, name, digest);
    HandedOver(stores, replaced, after, contract, digest);
    GrowsTwice(stores, replaced, after);
    WaitTwice(stores, replaced, after, {digest});
  }

  /** Manual activation succeeds exactly when nothing the caller saw has moved: the candidate waits at its version, its
      contract is current, and the active executable is the expected one at its version. */
  lemma CandidateActivatesExactlyIf(stores: Stores, command: ActivationCommand)
    requires Sound(stores)
    ensures ActivateCandidate(stores, command).1 == Activated <==>
            && command.executable in stores.executables
            && stores.executables[command.executable].state == Candidate
            && stores.executables[command.executable].version == command.candidateVersion
            && stores.executables[command.executable].contract == command.contract
            && IsCurrent(stores, command.name, command.contract)
            && IsActive(stores, command.contract, command.active.executable)
            && stores.executables[command.active.executable].version == command.active.version
  {
    hide HasActive;
    if IsActive(stores, command.contract, command.active.executable) {
      TokenIsTheActive(stores, command.contract, command.active.executable);
    }
  }

  /** Manual activation hands over exactly from the active executable the caller saw to the candidate it saw. */
  lemma CandidateActivationKeeps(stores: Stores, command: ActivationCommand)
    requires Sound(stores)
    ensures var (after, outcome) := ActivateCandidate(stores, command);
            && Sound(after) && Grows(stores, after) && after.executables.Keys == stores.executables.Keys
            && OthersWait(stores, after, {command.executable})
            && (outcome != Activated ==> after == stores)
            && (outcome == Activated ==>
                  && TakesOver(stores, after, command.contract, command.executable)
                  && after.current == stores.current && after.admissions == stores.admissions
                  && IsActive(stores, command.contract, command.active.executable)
                  && command.executable in stores.executables
                  && stores.executables[command.executable].state == Candidate
                  && stores.executables[command.executable].version == command.candidateVersion
                  && stores.executables[command.active.executable].version == command.active.version
                  && stores.executables[command.executable].contract == command.contract
                  && IsCurrent(stores, command.name, command.contract)
                  && after.executables[command.executable].version > command.active.version)
  {
    hide OthersWait, IsAdmitted, TakesOver, Replaced, SameActive, Grows, OneActive, SupersededOthers;
    if ActivateCandidate(stores, command).1 == Activated {
      var version := (if command.active.version < command.candidateVersion then command.candidateVersion
                      else command.active.version) + 1;
      TakingOverSupersedes(stores, command.contract, command.name, command.executable, version);
    } else {
      NothingGrows(stores);
    }
  }

  lemma ReplacedVersion(executables: map<string, Executable>, contract: string, digest: string, version: nat)
    requires digest in executables
    ensures digest in Replaced(executables, contract, digest, version)
    ensures Replaced(executables, contract, digest, version)[digest].version == version
  {
  }

  lemma SupersedingFrame(stores: Stores, name: string, selected: string)
    ensures var after := SupersededOthers(stores, name, selected);
            after.current == stores.current && after.admissions == stores.admissions
              && after.versions == stores.versions
  {
  }

  lemma NothingGrows(stores: Stores)
    ensures Grows(stores, stores) && SameActive(stores, stores)
    ensures forall chosen: set<string> :: OthersWait(stores, stores, chosen)
  {
  }

  /** Rejecting a candidate and superseding the backlog in one transaction. */
  lemma RejectionSupersedes(stores: Stores, name: string, digest: string)
    requires Sound(stores) && digest in stores.executables && stores.executables[digest].state == Candidate
    requires IsAdmitted(stores, digest)
    ensures var rejected := stores.(executables := stores.executables[digest := Retired(stores.executables[digest])]);
            var after := SupersededOthers(rejected, name, digest);
            && Sound(after) && Grows(stores, after) && SameActive(stores, after)
            && OthersWait(stores, after, {}) && after.executables.Keys == stores.executables.Keys
            && after.current == stores.current && after.admissions == stores.admissions
  {
    hide SameActive, Grows, OneActive, SupersededOthers, OthersWait, IsAdmitted;
    var rejected := stores.(executables := stores.executables[digest := Retired(stores.executables[digest])]);
    var after := SupersededOthers(rejected, name, digest);
    RejectingKeeps(stores, digest);
    SupersedingOthersKeeps(rejected, name, digest);
    SupersedingFrame(rejected, name, digest);
    GrowsTwice(stores, rejected, after);
    SameActiveTwice(stores, rejected, after);
    WaitTwice(stores, rejected, after, {digest});
    AdmittedNeedNotWait(stores, after, digest);
  }

  /** A resolution activates only the candidate it names, and only while that candidate waits at the version seen. */
  lemma ResolutionKeeps(stores: Stores, snapshot: Snapshot, action: Action)
    requires Sound(stores)
    ensures var (after, resolution) := Resolve(stores, snapshot, action);
            var admission := snapshot.admission;
            && Sound(after) && Grows(stores, after) && after.executables.Keys == stores.executables.Keys
            && after.current == stores.current && after.admissions == stores.admissions
            && OthersWait(stores, after, {})
            && (resolution != Resolved(Activate) ==> SameActive(stores, after))
            && (resolution == Resolved(Activate) ==>
                  && TakesOver(stores, after, admission.contract, admission.executable)
                  && action == Activate
                  && admission.Key() in stores.admissions && Names(admission, stores.admissions[admission.Key()])
                  && admission.executable in stores.executables
                  && stores.executables[admission.executable].state == Candidate
                  && stores.executables[admission.executable].version == snapshot.candidateVersion
                  && IsCurrent(stores, admission.name, admission.contract))
  {
    hide OthersWait, IsAdmitted, TakesOver, Replaced, SameActive, Grows, OneActive, SupersededOthers, SupersededStale,
         IsNewest;
    var admission := snapshot.admission;
    var (after, resolution) := Resolve(stores, snapshot, action);
    NothingGrows(stores);
    match resolution
    case Superseded =>
      SupersedingStaleKeeps(stores, admission.name);
      assert after.current == stores.current && after.admissions == stores.admissions
        by { StaleFrame(stores, admission.name); }
    case Resolved(Reject) =>
      AdmissionAdmits(stores, admission);
      RejectionSupersedes(stores, admission.name, admission.executable);
    case Resolved(Activate) =>
      var version := (if snapshot.active.Some? then snapshot.active.value.version else snapshot.candidateVersion) + 1;
      TakingOverSupersedes(stores, admission.contract, admission.name, admission.executable, version);
      AdmissionAdmits(stores, admission);
      AdmittedNeedNotWait(stores, after, admission.executable);
    case _ =>
  }

  lemma AdmissionAdmits(stores: Stores, admission: Admission)
    requires admission.Key() in stores.admissions && Names(admission, stores.admissions[admission.Key()])
    ensures IsAdmitted(stores, admission.executable)
  {
  }

  lemma StaleFrame(stores: Stores, name: string)
    ensures var after := SupersededStale(stores, name);
            after.current == stores.current && after.admissions == stores.admissions
              && after.versions == stores.versions
  {
  }

  lemma RejectingKeeps(stores: Stores, digest: string)
    requires Sound(stores) && digest in stores.executables && stores.executables[digest].state == Candidate
    ensures var after := stores.(executables := stores.executables[digest := Retired(stores.executables[digest])]);
            && Sound(after) && Grows(stores, after) && SameActive(stores, after)
            && OthersWait(stores, after, {digest})
  {
    hide OneActive;
    SameActiveKeeps(stores, stores.(executables := stores.executables[digest := Retired(stores.executables[digest])]));
  }

  lemma SameActiveTwice(before: Stores, between: Stores, after: Stores)
    requires SameActive(before, between) && SameActive(between, after)
    ensures SameActive(before, after)
  {
  }

  // ---------------------------------------------------------------- which candidate is resolved

  /** The order of texts: a proper prefix comes first, and otherwise the first difference decides. */
  lemma {:induction false} PrecedesExactlyIf(left: string, right: string)
    ensures Precedes(left, right) <==>
            exists i: nat ::
              i <= |left| && i < |right| && left[..i] == right[..i] && (i < |left| ==> left[i] < right[i])
  {
    if left != "" && right != "" && left[0] == right[0] {
      PrecedesExactlyIf(left[1..], right[1..]);
      if Precedes(left[1..], right[1..]) {
        var i: nat :| i <= |left[1..]| && i < |right[1..]| && left[1..][..i] == right[1..][..i]
                      && (i < |left[1..]| ==> left[1..][i] < right[1..][i]);
        assert left[..i + 1] == [left[0]] + left[1..][..i] && right[..i + 1] == [right[0]] + right[1..][..i];
      }
      forall i: nat | 0 < i <= |left| && i < |right| && left[..i] == right[..i]
        ensures left[1..][..i - 1] == right[1..][..i - 1]
      {
        assert left[1..][..i - 1] == left[..i][1..] && right[1..][..i - 1] == right[..i][1..];
      }
    } else {
      assert left[..0] == right[..0];
      forall i: nat | 0 < i <= |left| && i < |right|
        ensures left[..i] != right[..i]
      {
        assert left[..i][0] == left[0] && right[..i][0] == right[0];
      }
    }
  }

  lemma {:induction false} PrecedesIsTotal(left: string, right: string)
    ensures left != right ==> Precedes(left, right) != Precedes(right, left)
    ensures left == right ==> !Precedes(left, right)
  {
    if left != "" && right != "" && left[0] == right[0] {
      assert left == [left[0]] + left[1..] && right == [right[0]] + right[1..];
      PrecedesIsTotal(left[1..], right[1..]);
    }
  }

  lemma {:induction false} PrecedesIsTransitive(one: string, two: string, three: string)
    requires Precedes(one, two) && Precedes(two, three)
    ensures Precedes(one, three)
  {
    if one != "" && one[0] == two[0] == three[0] {
      PrecedesIsTransitive(one[1..], two[1..], three[1..]);
    }
  }

  lemma LaterIsTotal(one: Admission, other: Admission)
    requires one.Key() != other.Key()
    ensures IsLater(one, other) != IsLater(other, one)
  {
    hide Precedes;
    PrecedesIsTotal(one.executable, other.executable);
    PrecedesIsTotal(one.workspace, other.workspace);
    PrecedesIsTotal(one.cycle, other.cycle);
  }

  lemma LaterIsTransitive(one: Admission, two: Admission, three: Admission)
    requires IsLater(one, two) && IsLater(two, three)
    ensures IsLater(one, three)
  {
    hide Precedes;
    if one.executable != two.executable && two.executable != three.executable
       && Precedes(two.executable, one.executable) && Precedes(three.executable, two.executable) {
      PrecedesIsTransitive(three.executable, two.executable, one.executable);
      PrecedesIsTotal(one.executable, three.executable);
    }
    if one.workspace != two.workspace && two.workspace != three.workspace
       && Precedes(two.workspace, one.workspace) && Precedes(three.workspace, two.workspace) {
      PrecedesIsTransitive(three.workspace, two.workspace, one.workspace);
      PrecedesIsTotal(one.workspace, three.workspace);
    }
    if Precedes(two.cycle, one.cycle) && Precedes(three.cycle, two.cycle) {
      PrecedesIsTransitive(three.cycle, two.cycle, one.cycle);
    }
  }

  /** Of finitely many admissions one is the latest. */
  lemma {:induction false} LatestExists(admissions: map<(string, string), Admission>, keys: set<(string, string)>)
    returns (latest: (string, string))
    requires keys != {} && keys <= admissions.Keys
    requires forall key <- keys :: admissions[key].Key() == key
    ensures latest in keys
    ensures forall other <- keys :: other != latest ==> IsLater(admissions[latest], admissions[other])
    decreases keys
  {
    hide IsLater;
    var key :| key in keys;
    var rest := keys - {key};
    assert keys == rest + {key};
    latest := key;
    if rest != {} {
      var best := LatestExists(admissions, rest);
      LaterIsTotal(admissions[key], admissions[best]);
      if IsLater(admissions[best], admissions[key]) {
        latest := best;
      } else {
        forall other | other in rest && other != best
          ensures IsLater(admissions[key], admissions[other])
        {
          LaterIsTransitive(admissions[key], admissions[best], admissions[other]);
        }
      }
    }
  }

  /** An admission under the name whose candidate is still waiting. */
  ghost predicate Competes(stores: Stores, admission: Admission, name: string) {
    && admission.Key() in stores.admissions && stores.admissions[admission.Key()] == admission
    && admission.name == name
    && admission.executable in stores.executables && stores.executables[admission.executable].state == Candidate
  }

  /** Some admission of this executable is newer than all those of others: by time, and at the same time by digest. */
  ghost predicate IsAheadOfOthers(stores: Stores, name: string, contract: string, digest: string) {
    exists mine: Admission ::
      && Competes(stores, mine, name) && mine.contract == contract && mine.executable == digest
      && forall other: Admission ::
           Competes(stores, other, name) && other.contract == contract && other.executable != digest ==>
             || other.createdAt < mine.createdAt
             || (other.createdAt == mine.createdAt && Precedes(other.executable, digest))
  }

  /** What is active for the contract, if anything, is what was seen. */
  ghost predicate ActiveIs(stores: Stores, contract: string, active: Option<Token>) {
    if active.Some?
    then IsActive(stores, contract, active.value.executable)
         && stores.executables[active.value.executable].version == active.value.version
    else !HasActive(stores, contract)
  }

  /** The admission is stored as it was seen, whatever its attempt and manifest, and its candidate still waits at the
      version seen. */
  ghost predicate IsAsSeen(stores: Stores, snapshot: Snapshot) {
    var admission := snapshot.admission;
    && admission.Key() in stores.admissions
    && var stored := stores.admissions[admission.Key()];
       && stored.name == admission.name && stored.contract == admission.contract
       && stored.executable == admission.executable && stored.createdAt == admission.createdAt
       && Competes(stores, stored, admission.name)
       && stores.executables[admission.executable].version == snapshot.candidateVersion
  }

  lemma LatestIsAhead(stores: Stores, name: string, contract: string, digest: string)
    requires Sound(stores) && IsNewest(stores, name, contract, digest)
    ensures IsAheadOfOthers(stores, name, contract, digest)
  {
    hide Precedes, OneActive;
    var key :| key in stores.admissions && Waits(stores, key, name, contract)
               && stores.admissions[key].executable == digest
               && forall other <- stores.admissions ::
                    other != key && Waits(stores, other, name, contract) ==>
                      IsLater(stores.admissions[key], stores.admissions[other]);
    var mine := stores.admissions[key];
    assert Competes(stores, mine, name);
    forall other: Admission | Competes(stores, other, name) && other.contract == contract && other.executable != digest
      ensures other.createdAt < mine.createdAt
              || (other.createdAt == mine.createdAt && Precedes(other.executable, digest))
    {
      assert Waits(stores, other.Key(), name, contract) && other.Key() != key;
    }
  }

  lemma AheadIsLatest(stores: Stores, name: string, contract: string, digest: string)
    requires Sound(stores) && IsAheadOfOthers(stores, name, contract, digest)
    ensures IsNewest(stores, name, contract, digest)
  {
    hide Precedes, OneActive;
    var mine: Admission :|
      && Competes(stores, mine, name) && mine.contract == contract && mine.executable == digest
      && forall other: Admission ::
           Competes(stores, other, name) && other.contract == contract && other.executable != digest ==>
             || other.createdAt < mine.createdAt
             || (other.createdAt == mine.createdAt && Precedes(other.executable, digest));
    var waiting := set key | key in stores.admissions && Waits(stores, key, name, contract);
    assert mine.Key() in waiting;
    var latest := LatestExists(stores.admissions, waiting);
    var best := stores.admissions[latest];
    assert Competes(stores, best, name) && best.contract == contract;
    assert latest == mine.Key() || IsLater(best, mine);
    PrecedesIsTotal(best.executable, digest);
  }

  /** A candidate is resolved exactly if it waits as it was seen, for the current contract, and is the newest one that
      does; and, to be activated, if what is active is what was seen. It is superseded exactly if it waits as seen for a
      contract that is no longer current. Otherwise nothing happens. */
  lemma ResolvesExactlyIf(stores: Stores, snapshot: Snapshot, action: Action)
    requires Sound(stores)
    ensures var (after, resolution) := Resolve(stores, snapshot, action);
            var admission := snapshot.admission;
            && (resolution.Resolved? ==> resolution.action == action)
            && (resolution.Resolved? <==>
                  && IsAsSeen(stores, snapshot) && IsCurrent(stores, admission.name, admission.contract)
                  && IsAheadOfOthers(stores, admission.name, admission.contract, admission.executable)
                  && (action == Activate ==> ActiveIs(stores, admission.contract, snapshot.active)))
            && (resolution.Superseded? <==>
                  IsAsSeen(stores, snapshot) && !IsCurrent(stores, admission.name, admission.contract))
            && (!resolution.Resolved? && !resolution.Superseded? ==> after == stores)
  {
    hide IsNewest, IsAheadOfOthers, SupersededOthers, SupersededStale, Replaced, HasActive, OneActive, ActiveIs;
    var admission := snapshot.admission;
    if IsNewest(stores, admission.name, admission.contract, admission.executable) {
      LatestIsAhead(stores, admission.name, admission.contract, admission.executable);
    }
    if IsAheadOfOthers(stores, admission.name, admission.contract, admission.executable) {
      AheadIsLatest(stores, admission.name, admission.contract, admission.executable);
    }
    TokenIsSeen(stores, admission.contract, snapshot.active);
  }

  lemma TokenIsSeen(stores: Stores, contract: string, active: Option<Token>)
    requires Sound(stores)
    ensures ActiveToken(stores, contract) == active <==> ActiveIs(stores, contract, active)
  {
    hide HasActive;
    if active.Some? && IsActive(stores, contract, active.value.executable) {
      TokenIsTheActive(stores, contract, active.value.executable);
    }
  }

  /** What a resolution writes: the candidate itself, a step-down of what was active if it takes over, and the end of
      the wait for every other candidate admitted under the name. Nothing else changes. */
  lemma ResolvingChanges(stores: Stores, snapshot: Snapshot, action: Action, digest: string)
    requires Sound(stores) && digest in stores.executables && Resolve(stores, snapshot, action).1 == Resolved(action)
    ensures var after := Resolve(stores, snapshot, action).0;
            var (admission, before) := (snapshot.admission, stores.executables[digest]);
            && digest in after.executables
            && after.executables[digest]
                 == if digest == admission.executable then
                      if action == Reject then before.(state := Inactive, version := snapshot.candidateVersion + 1)
                      else before.(state := Active,
                                   version := (if snapshot.active.Some? then snapshot.active.value.version
                                               else snapshot.candidateVersion) + 1)
                    else if || (action == Activate && IsActive(stores, admission.contract, digest))
                            || exists other: Admission ::
                                 Competes(stores, other, admission.name) && other.executable == digest
                    then before.(state := Inactive, version := before.version + 1)
                    else before
  {
    hide IsNewest, OneActive, HasActive;
    if digest != snapshot.admission.executable {
      AdmittedCompetes(stores, snapshot.admission.name, digest);
    }
  }

  lemma AdmittedCompetes(stores: Stores, name: string, digest: string)
    requires Sound(stores) && digest in stores.executables
    ensures stores.executables[digest].state == Candidate ==>
              (HasAdmission(stores.admissions, name, digest) <==>
                 exists other: Admission :: Competes(stores, other, name) && other.executable == digest)
  {
    hide OneActive;
    if stores.executables[digest].state == Candidate && HasAdmission(stores.admissions, name, digest) {
      var key :| key in stores.admissions && stores.admissions[key].name == name
                 && stores.admissions[key].executable == digest;
      assert Competes(stores, stores.admissions[key], name);
    }
  }

  /** What superseding writes: the end of the wait for every candidate admitted under the name for a contract that is
      no longer current, and nothing else. */
  lemma SupersedingChanges(stores: Stores, snapshot: Snapshot, action: Action, digest: string)
    requires Sound(stores) && digest in stores.executables && Resolve(stores, snapshot, action).1 == Superseded
    ensures var after := Resolve(stores, snapshot, action).0;
            var (name, before) := (snapshot.admission.name, stores.executables[digest]);
            && digest in after.executables
            && after.executables[digest]
                 == if exists other: Admission ::
                         && Competes(stores, other, name) && other.executable == digest
                         && !IsCurrent(stores, name, other.contract)
                    then before.(state := Inactive, version := before.version + 1) else before
  {
    hide IsNewest, OneActive, HasActive;
    var name := snapshot.admission.name;
    if stores.executables[digest].state == Candidate && HasStaleAdmission(stores, name, digest) {
      var key :| key in stores.admissions && stores.admissions[key].name == name
                 && stores.admissions[key].executable == digest
                 && (name !in stores.current || stores.admissions[key].contract != stores.current[name]);
      assert Competes(stores, stores.admissions[key], name);
    }
  }

  /** What discovery shows of a name: among the waiting candidates those for the current contract come first, and among
      these the newest, with their version and what is active for their contract. */
  ghost predicate IsDiscovered(stores: Stores, name: string, snapshot: Snapshot) {
    var admission := snapshot.admission;
    && Competes(stores, admission, name)
    && stores.executables[admission.executable].version == snapshot.candidateVersion
    && ActiveIs(stores, admission.contract, snapshot.active)
    && forall other: Admission :: Competes(stores, other, name) && other != admission ==>
         || (IsCurrent(stores, name, admission.contract) && !IsCurrent(stores, name, other.contract))
         || (IsCurrent(stores, name, admission.contract) == IsCurrent(stores, name, other.contract)
             && IsLater(admission, other))
  }

  /** As long as a candidate waits under the name, one is discovered. */
  lemma SomethingIsDiscovered(stores: Stores, name: string, waiting: Admission) returns (snapshot: Snapshot)
    requires Sound(stores) && Competes(stores, waiting, name)
    ensures IsDiscovered(stores, name, snapshot)
  {
    hide IsLater, OneActive, HasActive;
    var all := set key | key in stores.admissions && Competes(stores, stores.admissions[key], name);
    var current := set key | key in all && IsCurrent(stores, name, stores.admissions[key].contract);
    assert waiting.Key() in all;
    var latest := LatestExists(stores.admissions, if current != {} then current else all);
    var admission := stores.admissions[latest];
    TokenIsSeen(stores, admission.contract, ActiveToken(stores, admission.contract));
    snapshot := Snapshot(admission, stores.executables[admission.executable].version,
                         ActiveToken(stores, admission.contract));
    forall other: Admission | Competes(stores, other, name) && other != admission
      ensures || (IsCurrent(stores, name, admission.contract) && !IsCurrent(stores, name, other.contract))
              || (IsCurrent(stores, name, admission.contract) == IsCurrent(stores, name, other.contract)
                  && IsLater(admission, other))
    {
      assert other.Key() in all && other.Key() != latest;
      assert IsCurrent(stores, name, other.contract) ==> other.Key() in current;
    }
  }

  lemma DiscoveredIsAhead(stores: Stores, name: string, snapshot: Snapshot)
    requires Sound(stores) && IsDiscovered(stores, name, snapshot)
             && IsCurrent(stores, name, snapshot.admission.contract)
    ensures IsAheadOfOthers(stores, name, snapshot.admission.contract, snapshot.admission.executable)
  {
    hide Precedes, OneActive, HasActive;
    var mine := snapshot.admission;
    forall other: Admission | Competes(stores, other, name) && other.contract == mine.contract
                              && other.executable != mine.executable
      ensures other.createdAt < mine.createdAt
              || (other.createdAt == mine.createdAt && Precedes(other.executable, mine.executable))
    {
      assert IsLater(mine, other);
    }
  }

  /** What is discovered is decided at once if nothing moves in between, and then no candidate waits under the name: the
      worker never leaves a backlog behind. */
  lemma DiscoveredIsResolved(stores: Stores, name: string, snapshot: Snapshot, action: Action)
    requires Sound(stores) && IsDiscovered(stores, name, snapshot)
    ensures var (after, resolution) := Resolve(stores, snapshot, action);
            && resolution == (if IsCurrent(stores, name, snapshot.admission.contract) then Resolved(action)
                              else Superseded)
            && forall admission: Admission :: !Competes(after, admission, name)
  {
    hide IsLater, OneActive, HasActive, IsAheadOfOthers, Resolve, ActiveIs;
    var (after, resolution) := Resolve(stores, snapshot, action);
    ResolvesExactlyIf(stores, snapshot, action);
    if IsCurrent(stores, name, snapshot.admission.contract) { DiscoveredIsAhead(stores, name, snapshot); }
    ResolutionKeeps(stores, snapshot, action);
    forall admission: Admission
      ensures !Competes(after, admission, name)
    {
      if Competes(after, admission, name) {
        BacklogEnds(stores, name, snapshot, action, admission);
      }
    }
  }

  lemma BacklogEnds(stores: Stores, name: string, snapshot: Snapshot, action: Action, admission: Admission)
    requires Sound(stores) && IsDiscovered(stores, name, snapshot)
    requires Resolve(stores, snapshot, action).1
               == if IsCurrent(stores, name, snapshot.admission.contract) then Resolved(action) else Superseded
    requires var after := Resolve(stores, snapshot, action).0;
             Grows(stores, after) && after.admissions == stores.admissions
             && after.executables.Keys == stores.executables.Keys
    ensures !Competes(Resolve(stores, snapshot, action).0, admission, name)
  {
    hide IsLater, OneActive, HasActive, Resolve, ActiveIs;
    if Competes(stores, admission, name) {
      if IsCurrent(stores, name, snapshot.admission.contract) {
        ResolvingChanges(stores, snapshot, action, admission.executable);
      } else {
        SupersedingChanges(stores, snapshot, action, admission.executable);
      }
    }
  }

  /** A candidate for the current contract that nothing has overtaken: some waiting one can always be resolved. */
  lemma SomeCandidateResolves(stores: Stores, name: string, waiting: Admission, action: Action)
    returns (snapshot: Snapshot)
    requires Sound(stores) && Competes(stores, waiting, name) && IsCurrent(stores, name, waiting.contract)
    ensures Competes(stores, snapshot.admission, name) && snapshot.admission.contract == waiting.contract
    ensures Resolve(stores, snapshot, action).1 == Resolved(action)
  {
    hide IsLater, OneActive, HasActive, Resolve, ActiveIs;
    snapshot := SomethingIsDiscovered(stores, name, waiting);
    DiscoveredIsResolved(stores, name, snapshot, action);
  }

  /** What manual activation writes. */
  lemma CandidateActivationChanges(stores: Stores, command: ActivationCommand, digest: string)
    requires Sound(stores) && digest in stores.executables && ActivateCandidate(stores, command).1 == Activated
    ensures var after := ActivateCandidate(stores, command).0;
            var before := stores.executables[digest];
            && digest in after.executables
            && after.executables[digest]
                 == if digest == command.executable then before.(state := Active, version := command.active.version + 1)
                    else if || digest == command.active.executable
                            || exists other: Admission ::
                                 Competes(stores, other, command.name) && other.executable == digest
                    then before.(state := Inactive, version := before.version + 1)
                    else before
  {
    hide OneActive, HasActive;
    CandidateActivatesExactlyIf(stores, command);
    ActivatedIsOther(stores, command, digest);
    if digest != command.executable { AdmittedCompetes(stores, command.name, digest); }
  }

  lemma ActivatedIsOther(stores: Stores, command: ActivationCommand, digest: string)
    requires Sound(stores) && IsActive(stores, command.contract, command.active.executable)
    ensures IsActive(stores, command.contract, digest) <==> digest == command.active.executable
  {
  }

  /** What basic activation writes. */
  lemma BasicActivationChanges(stores: Stores, contract: string, digest: string, expected: Option<string>,
                               other: string)
    requires Sound(stores) && other in stores.executables
    requires ActivateBasic(stores, contract, digest, expected).1 == Activated
    ensures var after := ActivateBasic(stores, contract, digest, expected).0;
            var before := stores.executables[other];
            && other in after.executables
            && (expected.Some? ==> IsActive(stores, contract, expected.value))
            && after.executables[other]
                 == if other == digest then
                      before.(state := Active, version := (if expected.Some? then
                                                             stores.executables[expected.value].version
                                                           else 0) + 1)
                    else if expected == Some(other) then before.(state := Inactive, version := before.version + 1)
                    else before
  {
    hide HasActive;
    if IsActive(stores, contract, other) { TokenIsTheActive(stores, contract, other); }
  }
}
