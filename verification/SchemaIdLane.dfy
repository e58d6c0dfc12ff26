/**
 * The lane that keeps the id of every schema version. It rereads only what it
 * does not hold, after checking one held version of each subject that moved.
 */
module SchemaIdLane {
  import opened SortedInts
  import opened Wrappers

  datatype SubjectInfo = SubjectInfo(id: int, latestVersion: int, versions: seq<int>)

  type Subjects = map<string, SubjectInfo>

  type Ids = map<int, int>

  type IdTable = map<string, Ids>

  type Request = (string, int)

  datatype Found = Found(subject: string, version: int, id: int)

  /** The session: what it answers a batch of requests, or why it failed. */
  type Session = set<Request> -> Result<seq<Found>, string>

  // ------------------------------------------------------------ what a poll asks

  function HeldFor(previous: Option<IdTable>, subject: string): Option<Ids> {
    if previous.Some? && subject in previous.value then Some(previous.value[subject]) else None
  }

  /** The version whose id is checked before the rest of what is held is trusted. */
  ghost function Check(info: SubjectInfo, held: Option<Ids>): Option<int> {
    if held.None? || info.latestVersion in held.value || held.value == map[] then None
    else Some(Greatest(held.value.Keys))
  }

  ghost function Checks(subjects: Subjects, previous: Option<IdTable>): set<Request> {
    set s | s in subjects && Check(subjects[s], HeldFor(previous, s)).Some? ::
      (s, Check(subjects[s], HeldFor(previous, s)).value)
  }

  predicate Confirms(previous: Option<IdTable>, found: Found) {
    var held := HeldFor(previous, found.subject);
    held.Some? && found.version in held.value && held.value[found.version] == found.id
  }

  function Confirmed(previous: Option<IdTable>, found: seq<Found>): set<string> {
    set f | f in found && Confirms(previous, f) :: f.subject
  }

  predicate Trusted(info: SubjectInfo, held: Ids, confirmed: bool) {
    if info.latestVersion in held then held[info.latestVersion] == info.id else confirmed
  }

  function Known(info: SubjectInfo, held: Option<Ids>, confirmed: bool, version: int): Option<int> {
    if version == info.latestVersion then Some(info.id)
    else if held.Some? && Trusted(info, held.value, confirmed) && version in held.value then
      Some(held.value[version])
    else None
  }

  ghost function KnownAmong(info: SubjectInfo, held: Option<Ids>, confirmed: bool, versions: seq<int>): Ids {
    map v | v in versions && Known(info, held, confirmed, v).Some? :: Known(info, held, confirmed, v).value
  }

  ghost function MissingAmong(
      subject: string, info: SubjectInfo, held: Option<Ids>, confirmed: bool, versions: seq<int>): set<Request>
  {
    set v | v in versions && Known(info, held, confirmed, v).None? :: (subject, v)
  }

  ghost function KnownIds(info: SubjectInfo, held: Option<Ids>, confirmed: bool): Ids {
    KnownAmong(info, held, confirmed, info.versions)
  }

  lemma OneMoreVersion(
      subject: string, info: SubjectInfo, held: Option<Ids>, confirmed: bool, versions: seq<int>, v: int)
    ensures var known := Known(info, held, confirmed, v);
            var ids, missing :=
              KnownAmong(info, held, confirmed, versions), MissingAmong(subject, info, held, confirmed, versions);
            && KnownAmong(info, held, confirmed, versions + [v]) == (if known.Some? then ids[v := known.value] else ids)
            && MissingAmong(subject, info, held, confirmed, versions + [v])
                 == (if known.Some? then missing else missing + {(subject, v)})
  {
  }

  ghost function KnownTable(subjects: Subjects, previous: Option<IdTable>, confirmed: set<string>): IdTable {
    map s | s in subjects :: KnownIds(subjects[s], HeldFor(previous, s), s in confirmed)
  }

  ghost function Wanted(subjects: Subjects, previous: Option<IdTable>, confirmed: set<string>): set<Request> {
    set s, v | s in subjects && v in subjects[s].versions
               && Known(subjects[s], HeldFor(previous, s), s in confirmed, v).None? :: (s, v)
  }

  function Insert(table: IdTable, found: Found): IdTable {
    table[found.subject :=
      (if found.subject in table then table[found.subject] else map[])[found.version := found.id]]
  }

  function InsertAll(table: IdTable, found: seq<Found>): IdTable
    decreases found
  {
    if found == [] then table else InsertAll(Insert(table, found[0]), found[1..])
  }

  /** The subjects whose checked version still carries the id held. */
  ghost function Confirmations(
      subjects: Subjects, previous: Option<IdTable>, checking: Session): Result<set<string>, string>
  {
    var checks := Checks(subjects, previous);
    if checks == {} then Success({})
    else match checking(checks)
      case Failure(error) => Failure(error)
      case Success(found) => Success(Confirmed(previous, found))
  }

  function Completed(table: IdTable, wanted: set<Request>, reading: Session): Result<IdTable, string> {
    if wanted == {} then Success(table)
    else match reading(wanted)
      case Failure(error) => Failure(error)
      case Success(found) => Success(InsertAll(table, found))
  }

  ghost function Fetched(
      subjects: Subjects, previous: Option<IdTable>, checking: Session, reading: Session): Result<IdTable, string>
  {
    match Confirmations(subjects, previous, checking)
    case Failure(error) => Failure(error)
    case Success(confirmed) =>
      Completed(KnownTable(subjects, previous, confirmed), Wanted(subjects, previous, confirmed), reading)
  }

  // ------------------------------------------------------------------- the poll

  method GreatestKey(held: Ids) returns (greatest: int)
    requires held != map[]
    ensures greatest == Greatest(held.Keys)
  {
    var keys := held.Keys;
    GreatestExists(keys);
    greatest :| greatest in keys && forall k | k in keys :: k <= greatest;
  }

  method CollectChecks(subjects: Subjects, previous: Option<IdTable>) returns (checks: set<Request>)
    ensures checks == Checks(subjects, previous)
  {
    checks := {};
    var left := subjects.Keys;
    ghost var done: set<string> := {};
    while left != {}
      invariant left !! done && left + done == subjects.Keys
      invariant checks == set s | s in done && Check(subjects[s], HeldFor(previous, s)).Some? ::
                            (s, Check(subjects[s], HeldFor(previous, s)).value)
      decreases left
    {
      var subject :| subject in left;
      left := left - {subject};
      done := done + {subject};
      var held := HeldFor(previous, subject);
      if held.Some? && subjects[subject].latestVersion !in held.value && held.value != map[] {
        var greatest := GreatestKey(held.value);
        checks := checks + {(subject, greatest)};
      }
    }
    assert done == subjects.Keys;
  }

  /** One subject's part of the table, and the versions it lacks. */
  method SplitVersions(subject: string, info: SubjectInfo, held: Option<Ids>, confirmed: bool)
    returns (ids: Ids, missing: set<Request>)
    ensures ids == KnownIds(info, held, confirmed)
    ensures missing == MissingAmong(subject, info, held, confirmed, info.versions)
  {
    ids, missing := map[], {};
    for i := 0 to |info.versions|
      invariant ids == KnownAmong(info, held, confirmed, info.versions[..i])
      invariant missing == MissingAmong(subject, info, held, confirmed, info.versions[..i])
    {
      var version := info.versions[i];
      assert info.versions[..i + 1] == info.versions[..i] + [version];
      OneMoreVersion(subject, info, held, confirmed, info.versions[..i], version);
      match Known(info, held, confirmed, version)
      case Some(id) => ids := ids[version := id];
      case None => missing := missing + {(subject, version)};
    }
    assert info.versions[..|info.versions|] == info.versions;
  }

  method SplitSubjects(subjects: Subjects, previous: Option<IdTable>, confirmed: set<string>)
    returns (table: IdTable, wanted: set<Request>)
    ensures table == KnownTable(subjects, previous, confirmed)
    ensures wanted == Wanted(subjects, previous, confirmed)
  {
    table, wanted := map[], {};
    var left := subjects.Keys;
    ghost var done: set<string> := {};
    while left != {}
      invariant left !! done && left + done == subjects.Keys
      invariant table == map s | s in done :: KnownIds(subjects[s], HeldFor(previous, s), s in confirmed)
      invariant wanted == set s, v | s in done && v in subjects[s].versions
                  && Known(subjects[s], HeldFor(previous, s), s in confirmed, v).None? :: (s, v)
      decreases left
    {
      var subject :| subject in left;
      var ids, missing :=
        SplitVersions(subject, subjects[subject], HeldFor(previous, subject), subject in confirmed);
      left := left - {subject};
      done := done + {subject};
      table := table[subject := ids];
      wanted := wanted + missing;
    }
    assert done == subjects.Keys;
  }

  method Complete(known: IdTable, wanted: set<Request>, reading: Session) returns (result: Result<IdTable, string>)
    ensures result == Completed(known, wanted, reading)
  {
    var table := known;
    if wanted != {} {
      match reading(wanted)
      case Failure(error) => return Failure(error);
      case Success(found) =>
        for i := 0 to |found|
          invariant InsertAll(table, found[i..]) == InsertAll(known, found)
        {
          table := Insert(table, found[i]);
        }
    }
    result := Success(table);
  }

  method Fetch(subjects: Subjects, previous: Option<IdTable>, checking: Session, reading: Session)
    returns (result: Result<IdTable, string>)
    ensures result == Fetched(subjects, previous, checking, reading)
  {
    var checks := CollectChecks(subjects, previous);
    var confirmed: set<string> := {};
    if checks != {} {
      match checking(checks)
      case Failure(error) => return Failure(error);
      case Success(found) => confirmed := Confirmed(previous, found);
    }
    var table, wanted := SplitSubjects(subjects, previous, confirmed);
    result := Complete(table, wanted, reading);
  }

  // ---------------------------------------------------------- against the registry

  /** The id the registry holds for each version it has when the poll runs. */
  type Registry = map<Request, int>

  /** The subject table describes the registry: its latest versions carry the right ids. */
  ghost predicate Describes(subjects: Subjects, registry: Registry) {
    forall s | s in subjects ::
      && subjects[s].latestVersion in subjects[s].versions
      && (forall v | v in subjects[s].versions :: (s, v) in registry)
      && registry[(s, subjects[s].latestVersion)] == subjects[s].id
  }

  /** The session answers only what it was asked, with the registry's ids. */
  ghost predicate Truthful(session: Session, registry: Registry) {
    forall asked, f | session(asked).Success? && f in session(asked).value ::
      (f.subject, f.version) in asked && (f.subject, f.version) in registry
      && registry[(f.subject, f.version)] == f.id
  }

  /** The session answers every request for a version the registry has. */
  ghost predicate AnswersAll(session: Session, registry: Registry) {
    forall asked :: session(asked).Success? && HasAll(session(asked).value, asked, registry)
  }

  ghost predicate HasAll(found: seq<Found>, asked: set<Request>, registry: Registry) {
    forall r | r in asked && r in registry :: Has(found, r)
  }

  predicate Has(found: seq<Found>, r: Request) {
    exists f :: f in found && (f.subject, f.version) == r
  }

  ghost predicate Agrees(subject: string, ids: Ids, registry: Registry) {
    forall v | v in ids :: (subject, v) in registry && registry[(subject, v)] == ids[v]
  }

  ghost predicate TableAgrees(table: IdTable, registry: Registry) {
    forall s | s in table :: Agrees(s, table[s], registry)
  }

  /** The table a poll that held nothing would build. */
  ghost function FullRead(subjects: Subjects, registry: Registry): IdTable
    requires Describes(subjects, registry)
  {
    map s | s in subjects :: map v | v in subjects[s].versions :: registry[(s, v)]
  }

  ghost predicate WitnessAgrees(subject: string, info: SubjectInfo, held: Ids, registry: Registry) {
    var decisive := if info.latestVersion in held then Some(info.latestVersion) else Check(info, Some(held));
    && decisive.Some? && decisive.value in held
    && (subject, decisive.value) in registry && registry[(subject, decisive.value)] == held[decisive.value]
  }

  /** Agreement at the one version checked stands for agreement at every version held. */
  ghost predicate WitnessDecides(subjects: Subjects, previous: Option<IdTable>, registry: Registry) {
    forall s | s in subjects && HeldFor(previous, s).Some?
               && WitnessAgrees(s, subjects[s], HeldFor(previous, s).value, registry) ::
      forall v | v in subjects[s].versions && v in HeldFor(previous, s).value && (s, v) in registry ::
        registry[(s, v)] == HeldFor(previous, s).value[v]
  }

  lemma CheckIsHeld(info: SubjectInfo, held: Ids)
    ensures Check(info, Some(held)).Some? ==> Check(info, Some(held)).value in held
  {
    if Check(info, Some(held)).Some? { assert Greatest(held.Keys) in held.Keys; }
  }

  /** A confirmed subject's version checked agrees with the registry. */
  lemma ConfirmedAgrees(
      subjects: Subjects, previous: Option<IdTable>, checking: Session, registry: Registry, subject: string)
    requires Truthful(checking, registry)
    requires checking(Checks(subjects, previous)).Success?
    requires subject in Confirmed(previous, checking(Checks(subjects, previous)).value)
    ensures subject in subjects && HeldFor(previous, subject).Some?
    ensures WitnessAgrees(subject, subjects[subject], HeldFor(previous, subject).value, registry)
  {
    var found := checking(Checks(subjects, previous)).value;
    var f :| f in found && Confirms(previous, f) && f.subject == subject;
    assert (f.subject, f.version) in Checks(subjects, previous);
  }

  /** Every id the poll takes over without reading it is the registry's. */
  lemma KnownIsRight(
      subjects: Subjects, previous: Option<IdTable>, confirmed: set<string>, registry: Registry, s: string, v: int)
    requires Describes(subjects, registry) && WitnessDecides(subjects, previous, registry)
    requires s in subjects && v in subjects[s].versions
    requires s in confirmed ==>
               HeldFor(previous, s).Some? && WitnessAgrees(s, subjects[s], HeldFor(previous, s).value, registry)
    ensures var known := Known(subjects[s], HeldFor(previous, s), s in confirmed, v);
            known.Some? ==> known.value == registry[(s, v)]
  {
    var held := HeldFor(previous, s);
    if held.Some? && subjects[s].latestVersion in held.value
       && held.value[subjects[s].latestVersion] == subjects[s].id {
      assert WitnessAgrees(s, subjects[s], held.value, registry);
    }
  }

  lemma {:induction false} InsertAllAgrees(table: IdTable, found: seq<Found>, registry: Registry)
    requires TableAgrees(table, registry)
    requires forall f | f in found :: (f.subject, f.version) in registry && registry[(f.subject, f.version)] == f.id
    ensures TableAgrees(InsertAll(table, found), registry)
    decreases found
  {
    if found != [] {
      assert found[0] in found;
      assert TableAgrees(Insert(table, found[0]), registry);
      InsertAllAgrees(Insert(table, found[0]), found[1..], registry);
    }
  }

  ghost function Versions(table: IdTable, s: string): set<int> {
    if s in table then table[s].Keys else {}
  }

  lemma {:induction false} InsertAllAdds(table: IdTable, found: seq<Found>)
    ensures InsertAll(table, found).Keys == table.Keys + set f | f in found :: f.subject
    ensures forall s, v :: v in Versions(InsertAll(table, found), s)
              <==> v in Versions(table, s) || exists f :: f in found && f.subject == s && f.version == v
    decreases found
  {
    if found != [] {
      var next := Insert(table, found[0]);
      InsertAllAdds(next, found[1..]);
      assert found == [found[0]] + found[1..];
      assert forall s, v :: v in Versions(next, s)
               <==> v in Versions(table, s) || (s == found[0].subject && v == found[0].version);
    }
  }

  /** Each subject the poll trusts on a check agrees with the registry at the version checked. */
  ghost predicate Vouched(
      subjects: Subjects, previous: Option<IdTable>, registry: Registry, confirmed: set<string>)
  {
    forall s | s in confirmed :: s in subjects && HeldFor(previous, s).Some?
      && WitnessAgrees(s, subjects[s], HeldFor(previous, s).value, registry)
  }

  lemma ConfirmationsVouch(subjects: Subjects, previous: Option<IdTable>, checking: Session, registry: Registry)
    requires Truthful(checking, registry) && Confirmations(subjects, previous, checking).Success?
    ensures Vouched(subjects, previous, registry, Confirmations(subjects, previous, checking).value)
  {
    if Checks(subjects, previous) != {} {
      forall s | s in Confirmations(subjects, previous, checking).value ensures s in subjects
        && HeldFor(previous, s).Some? && WitnessAgrees(s, subjects[s], HeldFor(previous, s).value, registry)
      {
        ConfirmedAgrees(subjects, previous, checking, registry, s);
      }
    }
  }

  lemma KnownTableAgrees(subjects: Subjects, previous: Option<IdTable>, confirmed: set<string>, registry: Registry)
    requires Describes(subjects, registry) && WitnessDecides(subjects, previous, registry)
    requires Vouched(subjects, previous, registry, confirmed)
    ensures TableAgrees(KnownTable(subjects, previous, confirmed), registry)
  {
    var table := KnownTable(subjects, previous, confirmed);
    forall s, v | s in table && v in table[s] ensures (s, v) in registry && table[s][v] == registry[(s, v)] {
      KnownIsRight(subjects, previous, confirmed, registry, s, v);
    }
  }

  /** Asking for versions of the subjects adds only those, with the registry's ids. */
  lemma CompletedAgrees(
      subjects: Subjects, known: IdTable, wanted: set<Request>, reading: Session, registry: Registry)
    requires TableAgrees(known, registry) && known.Keys == subjects.Keys
    requires forall s, v | v in Versions(known, s) :: v in subjects[s].versions
    requires forall r | r in wanted :: r.0 in subjects && r.1 in subjects[r.0].versions
    requires Truthful(reading, registry) && Completed(known, wanted, reading).Success?
    ensures var table := Completed(known, wanted, reading).value;
            && TableAgrees(table, registry)
            && table.Keys == subjects.Keys
            && forall s, v | v in Versions(table, s) :: v in subjects[s].versions
  {
    if wanted != {} {
      var found := reading(wanted).value;
      forall f | f in found ensures f.subject in subjects && f.version in subjects[f.subject].versions {
        assert (f.subject, f.version) in wanted;
      }
      InsertAllAgrees(known, found, registry);
      InsertAllAdds(known, found);
    }
  }

  /** However much the session leaves unanswered, no id in the table is wrong. */
  lemma NeverDisagrees(
      subjects: Subjects, previous: Option<IdTable>, checking: Session, reading: Session, registry: Registry)
    requires Describes(subjects, registry) && WitnessDecides(subjects, previous, registry)
    requires Truthful(checking, registry) && Truthful(reading, registry)
    requires Fetched(subjects, previous, checking, reading).Success?
    ensures var table := Fetched(subjects, previous, checking, reading).value;
            && TableAgrees(table, registry)
            && table.Keys == subjects.Keys
            && forall s, v | v in Versions(table, s) :: v in subjects[s].versions
  {
    var confirmed := Confirmations(subjects, previous, checking).value;
    ConfirmationsVouch(subjects, previous, checking, registry);
    KnownTableAgrees(subjects, previous, confirmed, registry);
    CompletedAgrees(subjects, KnownTable(subjects, previous, confirmed),
                    Wanted(subjects, previous, confirmed), reading, registry);
  }

  lemma CompletedHasAll(
      subjects: Subjects, previous: Option<IdTable>, confirmed: set<string>, reading: Session, registry: Registry,
      s: string, v: int)
    requires Describes(subjects, registry)
    requires s in subjects && v in subjects[s].versions
    requires AnswersAll(reading, registry)
    ensures var known, wanted := KnownTable(subjects, previous, confirmed), Wanted(subjects, previous, confirmed);
            var completed := Completed(known, wanted, reading);
            completed.Success? && v in Versions(completed.value, s)
  {
    var known, wanted := KnownTable(subjects, previous, confirmed), Wanted(subjects, previous, confirmed);
    if wanted != {} { InsertAllAdds(known, reading(wanted).value); }
    if v !in known[s] {
      assert (s, v) in wanted;
    } else {
      assert v in Versions(known, s);
    }
  }

  lemma AgreementIsEquality(subjects: Subjects, table: IdTable, registry: Registry)
    requires Describes(subjects, registry) && TableAgrees(table, registry)
    requires table.Keys == subjects.Keys
    requires forall s, v | s in subjects :: v in Versions(table, s) <==> v in subjects[s].versions
    ensures table == FullRead(subjects, registry)
  {
    var full := FullRead(subjects, registry);
    forall s | s in subjects ensures table[s] == full[s] {
      forall v ensures v in table[s] <==> v in full[s] {
        assert v in Versions(table, s) <==> v in subjects[s].versions;
      }
      assert Agrees(s, table[s], registry);
      forall v | v in table[s] ensures table[s][v] == full[s][v] {
        assert v in full[s];
      }
      assert table[s].Keys == full[s].Keys;
      assert table[s] == full[s];
    }
    assert table == full;
  }

  /** When the session answers all it is asked, the table is the one a full read builds. */
  lemma EqualsFullRead(
      subjects: Subjects, previous: Option<IdTable>, checking: Session, reading: Session, registry: Registry)
    requires Describes(subjects, registry) && WitnessDecides(subjects, previous, registry)
    requires Truthful(checking, registry) && Truthful(reading, registry)
    requires Fetched(subjects, previous, checking, reading).Success?
    requires AnswersAll(reading, registry)
    ensures Fetched(subjects, previous, checking, reading) == Success(FullRead(subjects, registry))
  {
    var confirmed := Confirmations(subjects, previous, checking).value;
    var table := Fetched(subjects, previous, checking, reading);
    NeverDisagrees(subjects, previous, checking, reading, registry);
    forall s, v | s in subjects ensures v in Versions(table.value, s) <==> v in subjects[s].versions {
      if v in subjects[s].versions {
        CompletedHasAll(subjects, previous, confirmed, reading, registry, s, v);
      }
    }
    AgreementIsEquality(subjects, table.value, registry);
  }

  /** Over unchanged subjects a complete table is kept without any read, so even a session that is down. */
  lemma CompleteTableReadsNothing(subjects: Subjects, registry: Registry, checking: Session, reading: Session)
    requires Describes(subjects, registry)
    ensures var previous := Some(FullRead(subjects, registry));
            && Checks(subjects, previous) == {}
            && Wanted(subjects, previous, {}) == {}
            && Fetched(subjects, previous, checking, reading) == Success(previous.value)
  {
    var previous := Some(FullRead(subjects, registry));
    forall s | s in subjects
      ensures Check(subjects[s], HeldFor(previous, s)).None?
      ensures KnownIds(subjects[s], HeldFor(previous, s), false) == FullRead(subjects, registry)[s]
    {
    }
    assert KnownTable(subjects, previous, {}) == previous.value;
  }

  /** A subject that moved past what is held is checked at a version held. */
  lemma ChecksAreHeld(subjects: Subjects, previous: Option<IdTable>, s: string)
    requires s in subjects && HeldFor(previous, s).Some?
    ensures var held := HeldFor(previous, s).value;
            subjects[s].latestVersion !in held && held != map[] ==>
              && Check(subjects[s], Some(held)).Some?
              && Check(subjects[s], Some(held)).value in held
              && (s, Check(subjects[s], Some(held)).value) in Checks(subjects, previous)
  {
    CheckIsHeld(subjects[s], HeldFor(previous, s).value);
  }

  /** When the checks are answered, a subject is confirmed exactly when its version checked agrees. */
  lemma ConfirmedExactlyWhen(
      subjects: Subjects, previous: Option<IdTable>, checking: Session, registry: Registry, s: string)
    requires Truthful(checking, registry) && AnswersAll(checking, registry)
    requires s in subjects && HeldFor(previous, s).Some?
    requires subjects[s].latestVersion !in HeldFor(previous, s).value
    ensures Confirmations(subjects, previous, checking).Success?
    ensures s in Confirmations(subjects, previous, checking).value <==>
              WitnessAgrees(s, subjects[s], HeldFor(previous, s).value, registry)
  {
    var checks, held := Checks(subjects, previous), HeldFor(previous, s).value;
    assert checking(checks).Success?;
    ConfirmationsVouch(subjects, previous, checking, registry);
    if WitnessAgrees(s, subjects[s], held, registry) {
      ChecksAreHeld(subjects, previous, s);
      var decisive := Check(subjects[s], Some(held)).value;
      var f :| f in checking(checks).value && (f.subject, f.version) == (s, decisive);
      assert Confirms(previous, f);
    }
  }

  /**
   * The poll reads a version again exactly when it is not the subject's latest and either
   * is not held or the one version checked shows that what is held is out of date.
   */
  lemma ReadsExactlyWhatItLacks(
      subjects: Subjects, previous: Option<IdTable>, checking: Session, registry: Registry, s: string, v: int)
    requires Describes(subjects, registry) && Truthful(checking, registry) && AnswersAll(checking, registry)
    requires s in subjects && v in subjects[s].versions
    ensures Confirmations(subjects, previous, checking).Success?
    ensures (s, v) in Wanted(subjects, previous, Confirmations(subjects, previous, checking).value) <==>
              && v != subjects[s].latestVersion
              && (HeldFor(previous, s).None? || v !in HeldFor(previous, s).value
                  || !WitnessAgrees(s, subjects[s], HeldFor(previous, s).value, registry))
  {
    assert checking(Checks(subjects, previous)).Success?;
    var held := HeldFor(previous, s);
    if held.Some? && subjects[s].latestVersion !in held.value {
      ConfirmedExactlyWhen(subjects, previous, checking, registry, s);
    }
  }

  // ------------------------------------------------------- exactly when it is right

  ghost predicate HoldsId(table: IdTable, s: string, v: int, id: int) {
    s in table && v in table[s] && table[s][v] == id
  }

  /** Inserting what was found leaves every id it was not given alone. */
  lemma {:induction false} InsertAllLeaves(table: IdTable, found: seq<Found>, s: string, v: int, id: int)
    requires HoldsId(table, s, v, id)
    requires forall f | f in found :: (f.subject, f.version) != (s, v)
    ensures HoldsId(InsertAll(table, found), s, v, id)
    decreases found
  {
    if found != [] {
      assert found[0] in found;
      InsertAllLeaves(Insert(table, found[0]), found[1..], s, v, id);
    }
  }

  lemma CompletedLeaves(
      known: IdTable, wanted: set<Request>, reading: Session, registry: Registry, s: string, v: int, id: int)
    requires Truthful(reading, registry) && Completed(known, wanted, reading).Success?
    requires HoldsId(known, s, v, id) && (s, v) !in wanted
    ensures HoldsId(Completed(known, wanted, reading).value, s, v, id)
  {
    if wanted != {} {
      var found := reading(wanted).value;
      forall f | f in found ensures (f.subject, f.version) != (s, v) {
        assert (f.subject, f.version) in wanted;
      }
      InsertAllLeaves(known, found, s, v, id);
    }
  }

  /** What a subject holds besides its latest version is taken over when the version checked agrees. */
  lemma TrustedIsTakenOver(
      subjects: Subjects, previous: Option<IdTable>, checking: Session, registry: Registry, s: string, v: int)
    requires Describes(subjects, registry) && Truthful(checking, registry) && AnswersAll(checking, registry)
    requires s in subjects && v in subjects[s].versions && v != subjects[s].latestVersion
    requires HeldFor(previous, s).Some? && v in HeldFor(previous, s).value
    requires WitnessAgrees(s, subjects[s], HeldFor(previous, s).value, registry)
    ensures Confirmations(subjects, previous, checking).Success?
    ensures var confirmed := Confirmations(subjects, previous, checking).value;
            && (s, v) !in Wanted(subjects, previous, confirmed)
            && HoldsId(KnownTable(subjects, previous, confirmed), s, v, HeldFor(previous, s).value[v])
  {
    ReadsExactlyWhatItLacks(subjects, previous, checking, registry, s, v);
    var confirmed := Confirmations(subjects, previous, checking).value;
    assert Known(subjects[s], HeldFor(previous, s), s in confirmed, v).Some?;
  }

  /** A version whose subject's check passes though its own id moved keeps the old id. */
  lemma UndecidedStaysWrong(
      subjects: Subjects, previous: Option<IdTable>, checking: Session, reading: Session, registry: Registry,
      s: string, v: int)
    requires Describes(subjects, registry)
    requires Truthful(checking, registry) && Truthful(reading, registry) && AnswersAll(checking, registry)
    requires Fetched(subjects, previous, checking, reading).Success?
    requires s in subjects && v in subjects[s].versions
    requires HeldFor(previous, s).Some? && v in HeldFor(previous, s).value
    requires WitnessAgrees(s, subjects[s], HeldFor(previous, s).value, registry)
    requires registry[(s, v)] != HeldFor(previous, s).value[v]
    ensures !TableAgrees(Fetched(subjects, previous, checking, reading).value, registry)
  {
    var held := HeldFor(previous, s).value;
    TrustedIsTakenOver(subjects, previous, checking, registry, s, v);
    var confirmed := Confirmations(subjects, previous, checking).value;
    CompletedLeaves(KnownTable(subjects, previous, confirmed), Wanted(subjects, previous, confirmed), reading,
                    registry, s, v, held[v]);
    var table := Fetched(subjects, previous, checking, reading).value;
    assert HoldsId(table, s, v, held[v]);
    assert v in table[s] && !Agrees(s, table[s], registry);
  }

  /** With its checks answered, a poll's table agrees with the registry exactly when the version checked decides. */
  lemma AgreesExactlyWhenDecided(
      subjects: Subjects, previous: Option<IdTable>, checking: Session, reading: Session, registry: Registry)
    requires Describes(subjects, registry)
    requires Truthful(checking, registry) && Truthful(reading, registry) && AnswersAll(checking, registry)
    requires Fetched(subjects, previous, checking, reading).Success?
    ensures TableAgrees(Fetched(subjects, previous, checking, reading).value, registry) <==>
              WitnessDecides(subjects, previous, registry)
  {
    if WitnessDecides(subjects, previous, registry) {
      NeverDisagrees(subjects, previous, checking, reading, registry);
    } else {
      var s :| s in subjects && HeldFor(previous, s).Some?
               && WitnessAgrees(s, subjects[s], HeldFor(previous, s).value, registry)
               && exists v :: v in subjects[s].versions && v in HeldFor(previous, s).value && (s, v) in registry
                    && registry[(s, v)] != HeldFor(previous, s).value[v];
      var v :| v in subjects[s].versions && v in HeldFor(previous, s).value && (s, v) in registry
               && registry[(s, v)] != HeldFor(previous, s).value[v];
      UndecidedStaysWrong(subjects, previous, checking, reading, registry, s, v);
    }
  }

  lemma FullReadAgrees(subjects: Subjects, registry: Registry)
    requires Describes(subjects, registry)
    ensures TableAgrees(FullRead(subjects, registry), registry)
  {
  }

  /** When every request is answered, the table is the full read's exactly when the version checked decides. */
  lemma EqualsFullReadExactlyWhenDecided(
      subjects: Subjects, previous: Option<IdTable>, checking: Session, reading: Session, registry: Registry)
    requires Describes(subjects, registry)
    requires Truthful(checking, registry) && Truthful(reading, registry)
    requires AnswersAll(checking, registry) && AnswersAll(reading, registry)
    ensures Fetched(subjects, previous, checking, reading) == Success(FullRead(subjects, registry)) <==>
              WitnessDecides(subjects, previous, registry)
  {
    assert checking(Checks(subjects, previous)).Success?;
    var confirmed := Confirmations(subjects, previous, checking).value;
    assert reading(Wanted(subjects, previous, confirmed)).Success?;
    AgreesExactlyWhenDecided(subjects, previous, checking, reading, registry);
    FullReadAgrees(subjects, registry);
    if WitnessDecides(subjects, previous, registry) {
      EqualsFullRead(subjects, previous, checking, reading, registry);
    }
  }

  // --------------------------------------------------------------------- runs

  /**
   * Between two polls a subject only gained or lost versions, or was made anew
   * with ids it did not have before.
   */
  ghost predicate Evolves(before: Registry, after: Registry) {
    forall s :: Kept(s, before, after) || Remade(s, before, after)
  }

  ghost predicate Kept(s: string, before: Registry, after: Registry) {
    forall v | (s, v) in before && (s, v) in after :: after[(s, v)] == before[(s, v)]
  }

  ghost predicate Remade(s: string, before: Registry, after: Registry) {
    forall v | (s, v) in before && (s, v) in after :: after[(s, v)] != before[(s, v)]
  }

  /** Such a history is enough for the one version checked to decide. */
  lemma EvolvingIsDecided(
      subjects: Subjects, table: IdTable, before: Registry, after: Registry)
    requires TableAgrees(table, before) && Evolves(before, after) && Describes(subjects, after)
    ensures WitnessDecides(subjects, Some(table), after)
  {
    forall s | s in subjects && s in table && WitnessAgrees(s, subjects[s], table[s], after)
      ensures forall v | v in subjects[s].versions && v in table[s] :: after[(s, v)] == table[s][v]
    {
      var info, held := subjects[s], table[s];
      var decisive := if info.latestVersion in held then info.latestVersion else Check(info, Some(held)).value;
      assert Agrees(s, held, before);
      assert (s, decisive) in before && after[(s, decisive)] == before[(s, decisive)];
      assert Kept(s, before, after);
    }
  }

  datatype Poll = Poll(subjects: Subjects, registry: Registry, checking: Session, reading: Session)

  /** What a poll needs of the registry and the session for its answers to be the registry's. */
  ghost predicate Sound(p: Poll) {
    Describes(p.subjects, p.registry) && Truthful(p.checking, p.registry) && Truthful(p.reading, p.registry)
  }

  ghost function Answer(p: Poll, previous: Option<IdTable>): Result<IdTable, string> {
    Fetched(p.subjects, previous, p.checking, p.reading)
  }

  /** The table a run of polls leaves; a poll that fails leaves the one before it. */
  ghost function TableAfter(polls: seq<Poll>): Option<IdTable> {
    if polls == [] then None
    else
      var previous := TableAfter(polls[..|polls| - 1]);
      match Answer(polls[|polls| - 1], previous)
      case Success(table) => Some(table)
      case Failure(_) => previous
  }

  /** The registry as the last successful poll of the run saw it. */
  ghost function LastSeen(polls: seq<Poll>): Registry {
    if polls == [] then map[]
    else
      var front, last := polls[..|polls| - 1], polls[|polls| - 1];
      if Answer(last, TableAfter(front)).Success? then last.registry else LastSeen(front)
  }

  /** Every poll of the run is sound, and since the last success the registry only evolved. */
  ghost predicate Sane(polls: seq<Poll>) {
    polls != [] ==>
      var front, last := polls[..|polls| - 1], polls[|polls| - 1];
      Sane(front) && Sound(last) && Evolves(LastSeen(front), last.registry)
  }

  lemma PollNeverDisagrees(p: Poll, previous: Option<IdTable>, before: Registry)
    requires Sound(p) && Evolves(before, p.registry)
    requires previous.Some? ==> TableAgrees(previous.value, before)
    ensures Answer(p, previous).Success? ==> TableAgrees(Answer(p, previous).value, p.registry)
  {
    if previous.Some? { EvolvingIsDecided(p.subjects, previous.value, before, p.registry); }
    if Answer(p, previous).Success? {
      NeverDisagrees(p.subjects, previous, p.checking, p.reading, p.registry);
    }
  }

  /** In every run, failures included, the table agrees with the registry the last good poll saw. */
  lemma {:induction false} RunNeverDisagrees(polls: seq<Poll>)
    requires Sane(polls)
    ensures TableAfter(polls).Some? ==> TableAgrees(TableAfter(polls).value, LastSeen(polls))
    decreases |polls|
  {
    if polls != [] {
      var front, last := polls[..|polls| - 1], polls[|polls| - 1];
      RunNeverDisagrees(front);
      PollNeverDisagrees(last, TableAfter(front), LastSeen(front));
    }
  }

  /** Every poll describes its registry, tells the truth and answers its checks; its reads may fail. */
  ghost predicate Answering(polls: seq<Poll>) {
    forall p | p in polls :: Sound(p) && AnswersAll(p.checking, p.registry)
  }

  /** At the last good poll, agreement at the version checked stood for agreement at every version held. */
  ghost predicate Decided(polls: seq<Poll>) {
    polls != [] ==>
      var front, last := polls[..|polls| - 1], polls[|polls| - 1];
      if Answer(last, TableAfter(front)).Success?
      then WitnessDecides(last.subjects, TableAfter(front), last.registry)
      else Decided(front)
  }

  /** Whatever happened to the registry, the table agrees with it exactly when the last good poll was decided. */
  lemma {:induction false} RunAgreesExactlyWhenDecided(polls: seq<Poll>)
    requires Answering(polls) && TableAfter(polls).Some?
    ensures TableAgrees(TableAfter(polls).value, LastSeen(polls)) <==> Decided(polls)
    decreases |polls|
  {
    var front, last := polls[..|polls| - 1], polls[|polls| - 1];
    assert last in polls && forall p | p in front :: p in polls;
    if Answer(last, TableAfter(front)).Success? {
      AgreesExactlyWhenDecided(last.subjects, TableAfter(front), last.checking, last.reading, last.registry);
    } else {
      RunAgreesExactlyWhenDecided(front);
    }
  }

  // ------------------------------------------------------- a session that does all this

  /** The answers a registry gives to requests for versions it has, in some order. */
  ghost function Answers(requests: set<Request>, registry: Registry): (found: seq<Found>)
    requires requests <= registry.Keys
    ensures forall f | f in found :: (f.subject, f.version) in requests && registry[(f.subject, f.version)] == f.id
    ensures forall r | r in requests :: Has(found, r)
  {
    if requests == {} then []
    else
      var r :| r in requests;
      var first, rest := Found(r.0, r.1, registry[r]), Answers(requests - {r}, registry);
      HasOneMore(first, rest, requests);
      [first] + rest
  }

  lemma HasOneMore(first: Found, rest: seq<Found>, requests: set<Request>)
    requires (first.subject, first.version) in requests
    requires forall r | r in requests - {(first.subject, first.version)} :: Has(rest, r)
    ensures forall r | r in requests :: Has([first] + rest, r)
  {
    forall r | r in requests ensures Has([first] + rest, r) {
      assert first in [first] + rest;
      if r != (first.subject, first.version) {
        assert Has(rest, r);
        var f :| f in rest && (f.subject, f.version) == r;
        assert f in [first] + rest;
      }
    }
  }

  /** The session that answers what the registry has and nothing else. */
  ghost function HonestSession(registry: Registry): Session {
    (asked: set<Request>) => Success(Answers(asked * registry.Keys, registry))
  }

  /** Whatever the registry, there is a session that tells the truth and answers all it can. */
  lemma HonestSessionAnswers(registry: Registry)
    ensures Truthful(HonestSession(registry), registry) && AnswersAll(HonestSession(registry), registry)
  {
    var session := HonestSession(registry);
    forall asked: set<Request> ensures session(asked).Success? && HasAll(session(asked).value, asked, registry) {
      assert forall r | r in asked && r in registry :: r in asked * registry.Keys;
    }
  }

  // -------------------------------------------------- a subject made anew goes unseen

  const LISTED: Subjects := map["s" := SubjectInfo(101, 2, [1, 2])]

  const FIRST: Registry := map[("s", 1) := 100, ("s", 2) := 101]

  /** Deleted and made anew with its latest text, so that version 2 keeps its id. */
  const ANEW: Registry := map[("s", 1) := 102, ("s", 2) := 101]

  const FIRST_IDS: IdTable := map["s" := map[1 := 100, 2 := 101]]

  lemma ListedDescribesBoth()
    ensures Describes(LISTED, FIRST) && Describes(LISTED, ANEW)
  {
  }

  lemma FirstIdsAreComplete()
    ensures Describes(LISTED, FIRST) && FullRead(LISTED, FIRST) == FIRST_IDS
  {
    ListedDescribesBoth();
    var full := FullRead(LISTED, FIRST);
    assert full["s"].Keys == {1, 2};
    assert full["s"] == FIRST_IDS["s"];
    assert full == FIRST_IDS;
  }

  lemma AnewAsksNothing(checking: Session, reading: Session)
    ensures Checks(LISTED, Some(FIRST_IDS)) == {} && Wanted(LISTED, Some(FIRST_IDS), {}) == {}
    ensures Fetched(LISTED, Some(FIRST_IDS), checking, reading) == Success(FIRST_IDS)
  {
    FirstIdsAreComplete();
    CompleteTableReadsNothing(LISTED, FIRST, checking, reading);
  }

  lemma AnewDisagrees()
    ensures !TableAgrees(FIRST_IDS, ANEW)
  {
    assert 1 in FIRST_IDS["s"] && !Agrees("s", FIRST_IDS["s"], ANEW);
  }

  lemma KeptPollStep(front: seq<Poll>, last: Poll)
    requires TableAfter(front) == Some(FIRST_IDS) && last.subjects == LISTED
    ensures TableAfter(front + [last]) == Some(FIRST_IDS) && LastSeen(front + [last]) == last.registry
  {
    var polls := front + [last];
    assert polls[..|polls| - 1] == front;
    AnewAsksNothing(last.checking, last.reading);
  }

  /** However often it is polled from then on, and whatever is answered, version 1 keeps its old id. */
  lemma {:induction false} AnewStaysWrong(polls: seq<Poll>)
    requires polls != [] && polls[0].subjects == LISTED && polls[0].registry == FIRST
    requires Answer(polls[0], None) == Success(FIRST_IDS)
    requires forall i | 0 < i < |polls| :: polls[i].subjects == LISTED && polls[i].registry == ANEW
    ensures TableAfter(polls) == Some(FIRST_IDS)
    ensures |polls| > 1 ==> LastSeen(polls) == ANEW && !TableAgrees(FIRST_IDS, LastSeen(polls))
    decreases |polls|
  {
    var front, last := polls[..|polls| - 1], polls[|polls| - 1];
    assert front + [last] == polls;
    if |polls| == 1 {
      assert front == [];
    } else {
      AnewStaysWrong(front);
      KeptPollStep(front, last);
      AnewDisagrees();
    }
  }

  /** Though everything is answered truthfully, the poll over the subject made anew differs from the full read. */
  lemma AnewIsUndecided()
    ensures var session := HonestSession(ANEW);
            && Describes(LISTED, ANEW) && Truthful(session, ANEW) && AnswersAll(session, ANEW)
            && !WitnessDecides(LISTED, Some(FIRST_IDS), ANEW)
            && Fetched(LISTED, Some(FIRST_IDS), session, session) != Success(FullRead(LISTED, ANEW))
  {
    ListedDescribesBoth();
    HonestSessionAnswers(ANEW);
    AnewAsksNothing(HonestSession(ANEW), HonestSession(ANEW));
    AnewDisagrees();
    FullReadAgrees(LISTED, ANEW);
    EqualsFullReadExactlyWhenDecided(LISTED, Some(FIRST_IDS), HonestSession(ANEW), HonestSession(ANEW), ANEW);
  }

  ghost function HonestPoll(registry: Registry): Poll {
    Poll(LISTED, registry, HonestSession(registry), HonestSession(registry))
  }

  /** A run in which every request is answered, and yet the table it leaves is wrong. */
  lemma AnsweredRunGoesWrong()
    ensures var polls := [HonestPoll(FIRST), HonestPoll(ANEW)];
            && Answering(polls) && TableAfter(polls) == Some(FIRST_IDS)
            && !Decided(polls) && !TableAgrees(FIRST_IDS, LastSeen(polls))
  {
    var polls := [HonestPoll(FIRST), HonestPoll(ANEW)];
    HonestRunAnswers();
    FirstReadIsFull();
    AnewStaysWrong(polls);
    RunAgreesExactlyWhenDecided(polls);
  }

  lemma HonestRunAnswers()
    ensures Answering([HonestPoll(FIRST), HonestPoll(ANEW)])
  {
    ListedDescribesBoth();
    HonestSessionAnswers(FIRST);
    HonestSessionAnswers(ANEW);
  }

  lemma FirstReadIsFull()
    ensures Answer(HonestPoll(FIRST), None) == Success(FIRST_IDS)
  {
    ListedDescribesBoth();
    HonestSessionAnswers(FIRST);
    FirstIdsAreComplete();
    EqualsFullReadExactlyWhenDecided(LISTED, None, HonestSession(FIRST), HonestSession(FIRST), FIRST);
  }
}
