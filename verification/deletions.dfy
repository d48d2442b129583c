/** What deleting a subject or a version answers and leaves behind. */
module Deletions {
  import opened Options
  import opened Fingerprints
  import opened Resolver
  import opened Storage
  import opened Registry
  import opened Integrity
  import opened Outcomes
  import opened ImportOutcomes

  /** Some live version of the subject is named, with its number, by the references of a live version. */
  ghost predicate IsReferenced(st: State, target: SubjectVersion) {
    exists k :: IsLive(st, k) && target in Targets(ContentOf(st, k).references)
  }

  predicate HasVersions(st: State, subject: string) {
    exists k | k in st.versions :: k.subject == subject
  }

  predicate HasStanding(st: State, subject: string) {
    exists k | k in st.versions :: k.subject == subject && !st.versions[k].deleted
  }

  ghost predicate Rising(list: seq<int>) {
    forall i, j | 0 <= i < j < |list| :: list[i] < list[j]
  }

  /** The listed versions are marked deleted and nothing else changes. */
  ghost predicate Marked(st: State, after: State, keys: set<SubjectVersion>) {
    && after == st.(versions := after.versions) && after.versions.Keys == st.versions.Keys
    && forall k | k in st.versions :: after.versions[k] == if k in keys then st.versions[k].(deleted := true) else st.versions[k]
  }

  lemma MarkedExactly(st: State, keys: set<SubjectVersion>)
    ensures Marked(st, SoftDelete(st, keys), keys)
  {
  }

  ghost predicate Uses(st: State, k: SubjectVersion, id: int) {
    k in st.versions && st.versions[k].schemaID == id
  }

  /** No version that uses the content goes, or one that uses it stays. */
  ghost predicate Remains(st: State, keys: set<SubjectVersion>, id: int) {
    (forall k | Uses(st, k, id) :: k !in keys) || exists k :: Uses(st, k, id) && k !in keys
  }

  /** Content goes exactly if versions that use it go and no other version uses it. */
  ghost predicate ContentGone(st: State, after: State, keys: set<SubjectVersion>) {
    && (forall id :: id in after.schemas <==> id in st.schemas && Remains(st, keys, id))
    && (forall id | id in after.schemas :: after.schemas[id] == st.schemas[id])
  }

  /** The listed versions go for good, with the content that nothing uses any more. */
  ghost predicate Gone(st: State, after: State, keys: set<SubjectVersion>) {
    && after.versions == st.versions - keys && ContentGone(st, after, keys)
  }

  lemma OrphanedExactly(st: State, keys: set<SubjectVersion>, id: int)
    requires WellFormed(st) && keys <= st.versions.Keys
    ensures id in Orphans(st, keys) <==> (exists k :: Uses(st, k, id) && k in keys) && forall k | Uses(st, k, id) :: k in keys
  {
    var list := UsersOf(st, id);
    OrphanMeans(st, keys, id);
    assert UsersOk(st, id);
    forall k | Uses(st, k, id)
      ensures k in list
    {
      assert VersionOk(st, k);
    }
    if list != [] && Without(list, keys) == [] {
      assert list[0] in list;
      assert Uses(st, list[0], id) && list[0] in keys;
    }
    if (exists k :: Uses(st, k, id) && k in keys) && (forall k | Uses(st, k, id) :: k in keys) && Without(list, keys) != [] {
      assert Without(list, keys)[0] in Without(list, keys);
      assert Uses(st, Without(list, keys)[0], id);
    }
  }

  lemma RemovedExactly(st: State, keys: set<SubjectVersion>)
    requires WellFormed(st) && keys <= st.versions.Keys
    ensures Gone(st, Remove(st, keys), keys)
    ensures Remove(st, keys).nextVersion == st.nextVersion && Remove(st, keys).nextID == st.nextID && Remove(st, keys).settings == st.settings
  {
    forall id | id in st.schemas
      ensures id in Orphans(st, keys) <==> !Remains(st, keys, id)
    {
      OrphanedExactly(st, keys, id);
    }
  }

  lemma ReferencedExactly(st: State, target: SubjectVersion)
    ensures ReferencedBy(st, target) != {} <==> IsReferenced(st, target)
  {
    if ReferencedBy(st, target) != {} {
      var k := Member(ReferencedBy(st, target));
    }
  }

  lemma SubjectExactly(st: State, subject: string)
    ensures Subject(st, subject) != {} <==> HasVersions(st, subject)
    ensures !AllDeleted(st, subject) <==> HasStanding(st, subject)
  {
    if Subject(st, subject) != {} {
      var k := Member(Subject(st, subject));
    }
    if HasVersions(st, subject) {
      var k :| k in st.versions && k.subject == subject;
      assert k in Subject(st, subject);
    }
    if HasStanding(st, subject) {
      var k :| k in st.versions && k.subject == subject && !st.versions[k].deleted;
      assert k in Subject(st, subject);
    }
  }

  lemma StandingNumbers(st: State, subject: string)
    ensures var keys := set k | k in Subject(st, subject) && !st.versions[k].deleted;
            forall v :: v in Numbers(keys) <==> Stands(st, subject, v)
  {
    var keys := set k | k in Subject(st, subject) && !st.versions[k].deleted;
    forall v
      ensures v in Numbers(keys) <==> Stands(st, subject, v)
    {
      if Stands(st, subject, v) {
        assert SubjectVersion(subject, v) in keys && SubjectVersion(subject, v).version == v;
      }
      if v in Numbers(keys) {
        var k :| k in keys && k.version == v;
        assert k == SubjectVersion(subject, v);
      }
    }
  }

  lemma StandingListed(st: State, subject: string)
    ensures var list := Ascending(Numbers(set k | k in Subject(st, subject) && !st.versions[k].deleted));
            Rising(list) && forall v :: v in list <==> Stands(st, subject, v)
  {
    StandingNumbers(st, subject);
    AscendingSorts(Numbers(set k | k in Subject(st, subject) && !st.versions[k].deleted));
  }

  lemma MarkingExactly(st: State, subject: string)
    ensures var (after, result) := AfterDeleteSubject(st, subject, false);
            if !HasVersions(st, subject) then after == st && result == Err(SubjectNotFound)
            else if !HasStanding(st, subject) then after == st && result == Err(SubjectDeleted)
            else
              && Marked(st, after, Subject(st, subject))
              && result.Ok? && Rising(result.value) && forall v :: v in result.value <==> Stands(st, subject, v)
  {
    SubjectExactly(st, subject);
    MarkedExactly(st, Subject(st, subject));
    StandingListed(st, subject);
  }

  lemma GuardExactly(st: State, subject: string)
    requires WellFormed(st)
    ensures (exists v | v in LiveNumbers(st, subject) :: ReferencedBy(st, SubjectVersion(subject, v)) != {}) <==>
            exists v :: Stands(st, subject, v) && IsReferenced(st, SubjectVersion(subject, v))
  {
    forall v
      ensures v in LiveNumbers(st, subject) <==> Stands(st, subject, v)
      ensures ReferencedBy(st, SubjectVersion(subject, v)) != {} <==> IsReferenced(st, SubjectVersion(subject, v))
    {
      StandsIsLive(st, subject, v);
      ReferencedExactly(st, SubjectVersion(subject, v));
    }
  }

  lemma GuardedDelete(st: State, subject: string)
    requires WellFormed(st)
    ensures DeleteSubject(st, subject, false) ==
            if exists v :: Stands(st, subject, v) && IsReferenced(st, SubjectVersion(subject, v)) then (st, Err(ReferenceExists))
            else AfterDeleteSubject(st, subject, false)
  {
    GuardExactly(st, subject);
  }

  /** Refused if a live version is referenced or there is nothing left to delete; else every version is marked and the standing ones are listed. */
  lemma SoftDeleteSubjectExactly(st: State, subject: string)
    requires WellFormed(st)
    ensures var (after, result) := DeleteSubject(st, subject, false);
            if exists v :: Stands(st, subject, v) && IsReferenced(st, SubjectVersion(subject, v)) then after == st && result == Err(ReferenceExists)
            else if !HasVersions(st, subject) then after == st && result == Err(SubjectNotFound)
            else if !HasStanding(st, subject) then after == st && result == Err(SubjectDeleted)
            else
              && Marked(st, after, Subject(st, subject))
              && result.Ok? && Rising(result.value) && forall v :: v in result.value <==> Stands(st, subject, v)
  {
    GuardedDelete(st, subject);
    MarkingExactly(st, subject);
  }

  /** Refused while a version stands; else all versions go, with the subject's counter and configuration, and all are listed. */
  lemma PermanentDeleteSubjectExactly(st: State, subject: string)
    requires WellFormed(st)
    ensures var (after, result) := DeleteSubject(st, subject, true);
            if !HasVersions(st, subject) then after == st && result == Err(SubjectNotFound)
            else if HasStanding(st, subject) then after == st && result == Err(SubjectNotSoftDeleted)
            else
              && Gone(st, after, Subject(st, subject))
              && after.nextVersion == st.nextVersion - {subject} && after.nextID == st.nextID
              && after.settings == st.settings.(subjects := st.settings.subjects - {subject})
              && result.Ok? && Rising(result.value) && forall v :: v in result.value <==> VersionExists(st, subject, v)
  {
    SubjectExactly(st, subject);
    RemovedExactly(st, Subject(st, subject));
    NumbersOf(st, subject);
    AscendingSorts(Numbers(Subject(st, subject)));
  }

  /** The version that a request means: its number, or for -1 the highest that stands or, for a permanent deletion, that is deleted. */
  ghost predicate Means(st: State, subject: string, version: int, permanent: bool, v: int) {
    if version != -1 then v == version
    else if !permanent then HighestStanding(st, subject, v)
    else IsDeleted(st, subject, v) && forall w | IsDeleted(st, subject, w) :: w <= v
  }

  predicate IsDeleted(st: State, subject: string, v: int) {
    VersionExists(st, subject, v) && st.versions[SubjectVersion(subject, v)].deleted
  }

  /** A version that stands and is not referenced is marked deleted. */
  lemma SoftDeleteVersionExactly(st: State, subject: string, version: int, v: int)
    requires WellFormed(st) && Means(st, subject, version, false, v)
    ensures var (after, result) := DeleteVersion(st, subject, version, false);
            if !HasVersions(st, subject) then after == st && result == Err(SubjectNotFound)
            else if !Stands(st, subject, v) then after == st && result == Err(VersionNotFound)
            else if IsReferenced(st, SubjectVersion(subject, v)) then after == st && result == Err(ReferenceExists)
            else result == Ok(v) && Marked(st, after, {SubjectVersion(subject, v)})
  {
    LookupExactly(st, subject, version);
    SubjectExactly(st, subject);
    ReferencedExactly(st, SubjectVersion(subject, v));
    MarkedExactly(st, {SubjectVersion(subject, v)});
  }

  /** With nothing standing there is no latest version to delete. */
  lemma NoLatestToDelete(st: State, subject: string)
    requires WellFormed(st) && forall v :: !Stands(st, subject, v)
    ensures DeleteVersion(st, subject, -1, false) == (st, Err(SubjectNotFound))
  {
    LookupExactly(st, subject, -1);
  }

  lemma DeletedNumbersOf(st: State, subject: string)
    ensures forall v :: v in DeletedNumbers(st, subject) <==> IsDeleted(st, subject, v)
  {
    var keys := set k | k in Subject(st, subject) && st.versions[k].deleted;
    forall v
      ensures v in DeletedNumbers(st, subject) <==> IsDeleted(st, subject, v)
    {
      if IsDeleted(st, subject, v) {
        assert SubjectVersion(subject, v) in keys && SubjectVersion(subject, v).version == v;
      }
      if v in DeletedNumbers(st, subject) {
        var k :| k in keys && k.version == v;
        assert k == SubjectVersion(subject, v);
      }
    }
  }

  /** The version that a permanent deletion is about is the one it means. */
  lemma PermanentDeleteChooses(st: State, subject: string, version: int, v: int)
    requires Means(st, subject, version, true, v)
    ensures var (after, result) := AfterDelete(st, SubjectVersion(subject, v), true);
            DeleteVersion(st, subject, version, true) == (after, match result case Ok(_) => Ok(v) case Err(e) => Err(e))
  {
    DeletedNumbersOf(st, subject);
    if version == -1 {
      assert v in DeletedNumbers(st, subject);
      HighestIsLargest(DeletedNumbers(st, subject));
      assert SubjectVersion(subject, v) in Subject(st, subject);
    }
  }

  lemma RemovalExactly(st: State, k: SubjectVersion)
    requires WellFormed(st)
    ensures var (after, result) := AfterDelete(st, k, true);
            if !HasVersions(st, k.subject) then after == st && result == Err(SubjectNotFound)
            else if k !in st.versions then after == st && result == Err(VersionNotFound)
            else if !st.versions[k].deleted then after == st && result == Err(VersionNotSoftDeleted)
            else
              && result == Ok(()) && Gone(st, after, {k})
              && after.nextVersion == st.nextVersion && after.nextID == st.nextID && after.settings == st.settings
  {
    SubjectExactly(st, k.subject);
    if k in st.versions {
      RemovedExactly(st, {k});
    }
  }

  /** A version that is marked deleted goes for good. */
  lemma PermanentDeleteVersionExactly(st: State, subject: string, version: int, v: int)
    requires WellFormed(st) && Means(st, subject, version, true, v)
    ensures var (after, result) := DeleteVersion(st, subject, version, true);
            if !HasVersions(st, subject) then after == st && result == Err(SubjectNotFound)
            else if !VersionExists(st, subject, v) then after == st && result == Err(VersionNotFound)
            else if !IsDeleted(st, subject, v) then after == st && result == Err(VersionNotSoftDeleted)
            else
              && result == Ok(v) && Gone(st, after, {SubjectVersion(subject, v)})
              && after.nextVersion == st.nextVersion && after.nextID == st.nextID && after.settings == st.settings
  {
    PermanentDeleteChooses(st, subject, version, v);
    RemovalExactly(st, SubjectVersion(subject, v));
  }

  /** With no version marked deleted there is none to remove for good. */
  lemma NoDeletedToRemove(st: State, subject: string)
    requires forall v :: !IsDeleted(st, subject, v)
    ensures DeleteVersion(st, subject, -1, true) == (st, Err(if HasVersions(st, subject) then VersionNotFound else SubjectNotFound))
  {
    SubjectExactly(st, subject);
    DeletedNumbersOf(st, subject);
  }
}
