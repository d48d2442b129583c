/** The in-memory schema store of one registry context. */
module Storage {
  import opened Options
  import opened Fingerprints
  import opened Resolver
  import opened Metadatas
  import opened Compatibility

  /** Schema content, stored once per ID and shared by every subject version with that ID. */
  datatype Content = Content(schemaType: string, schema: string, references: seq<Reference>, fingerprint: Fingerprint)

  datatype VersionInfo = VersionInfo(schemaID: int, deleted: bool, metadata: Option<Metadata>, ruleSet: Option<RuleSet>)

  datatype Config = Config(level: Mode, normalize: Option<bool>, validateFields: Option<bool>,
                           compatibilityGroup: string, layers: Layers)

  /** The two-level map from subject to version is one map here: a subject with an empty inner map
      answers every lookup like a subject without one. `users` is idToSubjectVersions. */
  datatype State = State(
    schemas: map<int, Content>,
    versions: map<SubjectVersion, VersionInfo>,
    nextVersion: map<string, int>,
    fingerprints: map<Fingerprint, int>,
    users: map<int, seq<SubjectVersion>>,
    nextID: int,
    settings: Settings)

  /** Configuration per subject, of the context, and of the context that all others fall back to. */
  datatype Settings = Settings(subjects: map<string, Config>, context: Option<Config>, shared: Option<Config>)

  const EMPTY := State(map[], map[], map[], map[], map[], 1, Settings(map[], None, None))

  /** A schema record handed to the store; `id` and `version` matter for imports only. */
  datatype Record = Record(id: int, subject: string, version: int, schemaType: string, schema: string,
                           references: seq<Reference>, metadata: Option<Metadata>, ruleSet: Option<RuleSet>,
                           fingerprint: Fingerprint)

  datatype StoreError =
    | SubjectNotFound | VersionNotFound | SubjectDeleted | SubjectNotSoftDeleted | VersionNotSoftDeleted
    | SchemaExists | SchemaIDConflict | ReferenceExists

  datatype StoreResult<+T> = Ok(value: T) | Err(error: StoreError)

  datatype Stored = Stored(id: int, version: int)

  const MAX_INT64 := 0x7fff_ffff_ffff_ffff

  /** Signed 64-bit wrap-around. */
  function Wrap64(n: int): int {
    (n + 0x8000_0000_0000_0000) % 0x1_0000_0000_0000_0000 - 0x8000_0000_0000_0000
  }

  // ----- reading

  predicate IsLive(st: State, k: SubjectVersion) {
    k in st.versions && !st.versions[k].deleted && st.versions[k].schemaID in st.schemas
  }

  function ContentOf(st: State, k: SubjectVersion): Content
    requires k in st.versions && st.versions[k].schemaID in st.schemas
  {
    st.schemas[st.versions[k].schemaID]
  }

  /** What is visible of a live version. */
  datatype Shown = Shown(content: Content, metadata: Option<Metadata>, ruleSet: Option<RuleSet>)

  /** The live versions: all that references, compatibility and reserved-field checks can see. */
  function LiveView(st: State): (v: map<SubjectVersion, Shown>)
    ensures forall k :: k in v <==> IsLive(st, k)
    ensures forall k | k in v :: IsLive(st, k) && v[k] == Shown(ContentOf(st, k), st.versions[k].metadata, st.versions[k].ruleSet)
  {
    map k | k in st.versions && IsLive(st, k) :: Shown(ContentOf(st, k), st.versions[k].metadata, st.versions[k].ruleSet)
  }

  function Subject(st: State, subject: string): (s: set<SubjectVersion>)
    ensures forall k :: k in s <==> k in st.versions && k.subject == subject
  {
    set k | k in st.versions && k.subject == subject
  }

  function LiveNumbers(st: State, subject: string): (s: set<int>)
    ensures forall v :: v in s <==> IsLive(st, SubjectVersion(subject, v))
  {
    var s := set k | k in st.versions && k.subject == subject && IsLive(st, k) :: k.version;
    assert forall v | IsLive(st, SubjectVersion(subject, v)) :: SubjectVersion(subject, v).version in s;
    assert forall v | v in s :: exists k | k in st.versions :: k == SubjectVersion(subject, v);
    s
  }

  predicate IsLeast(m: int, s: set<int>) {
    m in s && forall x | x in s :: m <= x
  }

  lemma Member<T>(s: set<T>) returns (x: T)
    requires s != {}
    ensures x in s
  {
    x :| x in s;
  }

  lemma {:induction false} LeastExists(s: set<int>)
    requires s != {}
    ensures exists m :: IsLeast(m, s)
  {
    var m := Member(s);
    if s == {m} {
      assert IsLeast(m, s);
    } else {
      LeastExists(s - {m});
      var n :| IsLeast(n, s - {m});
      assert forall x | x in s :: x == m || x in s - {m};
      assert IsLeast(if m < n then m else n, s);
    }
  }

  /** The version numbers from oldest to newest. */
  function Ascending(s: set<int>): seq<int> {
    if s == {} then []
    else
      LeastExists(s);
      var m :| IsLeast(m, s);
      [m] + Ascending(s - {m})
  }

  lemma {:induction false} AscendingSorts(s: set<int>)
    ensures forall v :: v in Ascending(s) <==> v in s
    ensures forall i, j | 0 <= i < j < |Ascending(s)| :: Ascending(s)[i] < Ascending(s)[j]
  {
    if s != {} {
      LeastExists(s);
      var m :| IsLeast(m, s);
      var tail := Ascending(s - {m});
      AscendingSorts(s - {m});
      forall i | 0 <= i < |tail| ensures m < tail[i] {
        assert tail[i] in tail;
        assert tail[i] in s - {m};
      }
    }
  }

  /** GetSchemasBySubject without deleted versions: the live version numbers, sorted. */
  function LiveVersions(st: State, subject: string): seq<int> {
    Ascending(LiveNumbers(st, subject))
  }

  function Latest(st: State, subject: string): Option<int> {
    var live := LiveVersions(st, subject);
    if live == [] then None else Some(live[|live| - 1])
  }

  /** GetSchemaBySubjectVersion: the number of the live version meant, where -1 means the latest. */
  function Lookup(st: State, k: SubjectVersion): StoreResult<int> {
    if Subject(st, k.subject) == {} then Err(SubjectNotFound)
    else if k.version == -1 then
      match Latest(st, k.subject) case None => Err(SubjectNotFound) case Some(v) => Ok(v)
    else if IsLive(st, k) then Ok(k.version)
    else Err(VersionNotFound)
  }

  function LookupKeys(st: State): set<SubjectVersion> {
    (set k | k in st.versions && IsLive(st, k)) +
    (set k | k in st.versions && IsLive(st, k) :: SubjectVersion(k.subject, -1))
  }

  /** Every lookup that succeeds, with what it returns. */
  function LookupGraph(st: State): Graph {
    map k | k in LookupKeys(st) :: NodeFor(st, k)
  }

  function NodeFor(st: State, k: SubjectVersion): Node {
    match Lookup(st, k)
    case Ok(v) => NodeAt(st, SubjectVersion(k.subject, v))
    case Err(_) => Node("", [])
  }

  function NodeAt(st: State, k: SubjectVersion): Node {
    if IsLive(st, k) then Node(ContentOf(st, k).schema, ContentOf(st, k).references) else Node("", [])
  }

  /** The graph answers exactly like the lookup. */
  lemma LookupGraphExact(st: State, k: SubjectVersion)
    ensures k in LookupGraph(st) <==> Lookup(st, k).Ok?
    ensures k in LookupGraph(st) ==> LookupGraph(st)[k] == NodeAt(st, SubjectVersion(k.subject, Lookup(st, k).value))
  {
    LookupKeysExact(st, k);
  }

  lemma LookupKeysExact(st: State, k: SubjectVersion)
    ensures k in LookupKeys(st) <==> Lookup(st, k).Ok?
  {
    if k.version == -1 {
      if k in LookupKeys(st) {
        var j :| j in st.versions && IsLive(st, j) && j.subject == k.subject;
        assert j.version in LiveNumbers(st, k.subject) by { assert j == SubjectVersion(k.subject, j.version); }
        AscendingSorts(LiveNumbers(st, k.subject));
        assert j in Subject(st, k.subject);
      }
      if Lookup(st, k).Ok? {
        var v := Lookup(st, k).value;
        AscendingSorts(LiveNumbers(st, k.subject));
        assert v in LiveVersions(st, k.subject);
        assert IsLive(st, SubjectVersion(k.subject, v));
      }
    } else if IsLive(st, k) {
      assert k in Subject(st, k.subject);
    }
  }

  function NextVersion(st: State, subject: string): int {
    if subject in st.nextVersion then st.nextVersion[subject] else 0
  }

  /** GetReferencedBy: the live versions whose content names exactly this subject and version. */
  function ReferencedBy(st: State, target: SubjectVersion): (s: set<SubjectVersion>)
    ensures forall k :: k in s <==> IsLive(st, k) && target in Targets(ContentOf(st, k).references)
  {
    set k | k in st.versions && IsLive(st, k) && target in Targets(ContentOf(st, k).references)
  }

  function MetadataOrEmpty(m: Option<Metadata>): Metadata {
    match m case Some(v) => v case None => Metadata(None, None, None)
  }

  function RuleSetOrEmpty(r: Option<RuleSet>): RuleSet {
    match r case Some(v) => v case None => RuleSet([], [], [])
  }

  // ----- writing

  predicate IsDuplicate(st: State, record: Record) {
    exists k | k in Subject(st, record.subject) ::
      IsLive(st, k) && ContentOf(st, k).fingerprint == record.fingerprint &&
      MetadataOrEmpty(st.versions[k].metadata) == MetadataOrEmpty(record.metadata) &&
      RuleSetOrEmpty(st.versions[k].ruleSet) == RuleSetOrEmpty(record.ruleSet)
  }

  function ContentFrom(record: Record): Content {
    Content(record.schemaType, record.schema, record.references, record.fingerprint)
  }

  function UsersOf(st: State, id: int): seq<SubjectVersion> {
    if id in st.users then st.users[id] else []
  }

  /** Bind a new version to content `id` that is already present. */
  function AddVersion(st: State, k: SubjectVersion, id: int, record: Record): State {
    st.(versions := st.versions[k := VersionInfo(id, false, record.metadata, record.ruleSet)],
        users := st.users[id := UsersOf(st, id) + [k]])
  }

  /** Content already known by its fingerprint keeps its ID; new content gets the next one. */
  function IdFor(st: State, record: Record): int {
    if record.fingerprint in st.fingerprints then st.fingerprints[record.fingerprint] else st.nextID
  }

  function Allocated(st: State, record: Record): State {
    if record.fingerprint in st.fingerprints then st
    else st.(schemas := st.schemas[st.nextID := ContentFrom(record)],
             fingerprints := st.fingerprints[record.fingerprint := st.nextID],
             nextID := Wrap64(st.nextID + 1))
  }

  function AfterCreate(st: State, record: Record): (State, StoreResult<Stored>) {
    if IsDuplicate(st, record) then (st, Err(SchemaExists))
    else
      var id := IdFor(st, record);
      var version := NextVersion(st, record.subject) + 1;
      var st1 := Allocated(st, record).(nextVersion := st.nextVersion[record.subject := version]);
      (AddVersion(st1, SubjectVersion(record.subject, version), id, record), Ok(Stored(id, version)))
  }

  function AfterImport(st: State, record: Record): (State, StoreResult<()>) {
    var k := SubjectVersion(record.subject, record.version);
    if record.id in st.schemas && st.schemas[record.id].fingerprint != record.fingerprint then (st, Err(SchemaIDConflict))
    else if k in st.versions then (st, Err(SchemaExists))
    else
      var st1 := st.(
        schemas := if record.id in st.schemas then st.schemas else st.schemas[record.id := ContentFrom(record)],
        fingerprints := st.fingerprints[record.fingerprint := record.id],
        nextVersion := if record.version >= NextVersion(st, record.subject)
                       then st.nextVersion[record.subject := record.version] else st.nextVersion);
      (AddVersion(st1, k, record.id, record), Ok(()))
  }

  function Without(list: seq<SubjectVersion>, keys: set<SubjectVersion>): (r: seq<SubjectVersion>)
    ensures forall k :: k in r <==> k in list && k !in keys
  {
    if list == [] then []
    else
      var init := Without(list[..|list| - 1], keys);
      var last := list[|list| - 1];
      assert list == list[..|list| - 1] + [last];
      if last in keys then init else init + [last]
  }

  /** The content IDs that no version outside `keys` uses. */
  function Orphans(st: State, keys: set<SubjectVersion>): set<int> {
    set k | k in keys && k in st.versions && Without(UsersOf(st, st.versions[k].schemaID), keys) == [] ::
      st.versions[k].schemaID
  }

  function PrintsOf(schemas: map<int, Content>, ids: set<int>): set<Fingerprint> {
    set id | id in ids && id in schemas :: schemas[id].fingerprint
  }

  /** Remove versions for good, together with content that nothing uses any more. */
  function Remove(st: State, keys: set<SubjectVersion>): State {
    var orphans := Orphans(st, keys);
    st.(versions := st.versions - keys,
        schemas := st.schemas - orphans,
        fingerprints := st.fingerprints - PrintsOf(st.schemas, orphans),
        users := map id | id in st.users && id !in orphans :: Without(st.users[id], keys))
  }

  function SoftDelete(st: State, keys: set<SubjectVersion>): State {
    st.(versions := map k | k in st.versions ::
          if k in keys then st.versions[k].(deleted := true) else st.versions[k])
  }

  function AfterDelete(st: State, k: SubjectVersion, permanent: bool): (State, StoreResult<()>) {
    if Subject(st, k.subject) == {} then (st, Err(SubjectNotFound))
    else if k !in st.versions then (st, Err(VersionNotFound))
    else if permanent && !st.versions[k].deleted then (st, Err(VersionNotSoftDeleted))
    else (if permanent then Remove(st, {k}) else SoftDelete(st, {k}), Ok(()))
  }

  predicate AllDeleted(st: State, subject: string) {
    forall k | k in Subject(st, subject) :: st.versions[k].deleted
  }

  function Numbers(keys: set<SubjectVersion>): set<int> {
    set k | k in keys :: k.version
  }

  function AfterDeleteSubject(st: State, subject: string, permanent: bool): (State, StoreResult<seq<int>>) {
    var all := Subject(st, subject);
    if all == {} then (st, Err(SubjectNotFound))
    else if permanent then
      if !AllDeleted(st, subject) then (st, Err(SubjectNotSoftDeleted))
      else
        (Remove(st, all).(nextVersion := st.nextVersion - {subject},
                          settings := st.settings.(subjects := st.settings.subjects - {subject})),
         Ok(Ascending(Numbers(all))))
    else if AllDeleted(st, subject) then (st, Err(SubjectDeleted))
    else
      (SoftDelete(st, all), Ok(Ascending(Numbers(set k | k in all && !st.versions[k].deleted))))
  }

  // ----- the store invariant

  /** Every version has a positive number no higher than its subject's counter, and content that lists it. */
  ghost predicate VersionOk(st: State, k: SubjectVersion)
    requires k in st.versions
  {
    && 1 <= k.version <= NextVersion(st, k.subject)
    && st.versions[k].schemaID in st.schemas
    && k in UsersOf(st, st.versions[k].schemaID)
  }

  /** The ID index lists only versions that have this ID. */
  ghost predicate UsersOk(st: State, id: int) {
    forall k | k in UsersOf(st, id) :: k in st.versions && st.versions[k].schemaID == id
  }

  /** A fingerprint leads to content with that fingerprint. */
  ghost predicate FingerprintOk(st: State, f: Fingerprint)
    requires f in st.fingerprints
  {
    st.fingerprints[f] in st.schemas && st.schemas[st.fingerprints[f]].fingerprint == f
  }

  ghost predicate WellFormed(st: State) {
    && (forall k | k in st.versions :: VersionOk(st, k))
    && (forall id :: UsersOk(st, id))
    && (forall f | f in st.fingerprints :: FingerprintOk(st, f))
    && (forall s | s in st.nextVersion :: st.nextVersion[s] >= 0)
  }

  lemma AddVersionKeepsWellFormed(st: State, k: SubjectVersion, id: int, record: Record)
    requires WellFormed(st) && id in st.schemas && k !in st.versions && 1 <= k.version <= NextVersion(st, k.subject)
    ensures WellFormed(AddVersion(st, k, id, record))
  {
    var r := AddVersion(st, k, id, record);
    forall j | j in r.versions ensures VersionOk(r, j) {
      assert j != k ==> VersionOk(st, j);
    }
    forall i ensures UsersOk(r, i) {
      assert UsersOk(st, i);
    }
    forall f | f in r.fingerprints ensures FingerprintOk(r, f) {
      assert FingerprintOk(st, f);
    }
  }

  lemma CreateKeepsWellFormed(st: State, record: Record)
    requires WellFormed(st)
    requires record.fingerprint in st.fingerprints || st.nextID !in st.schemas
    ensures WellFormed(AfterCreate(st, record).0)
  {
    if !IsDuplicate(st, record) {
      var id := IdFor(st, record);
      var version := NextVersion(st, record.subject) + 1;
      var k := SubjectVersion(record.subject, version);
      var base := AfterCreate(st, record).0.(versions := st.versions, users := st.users);
      assert k in st.versions ==> VersionOk(st, k);
      WiderKeepsWellFormed(st, base);
      AddVersionKeepsWellFormed(base, k, id, record);
      assert AddVersion(base, k, id, record) == AfterCreate(st, record).0;
    }
  }

  /** More content under new IDs, new fingerprints for it, and higher counters do no harm. */
  lemma WiderKeepsWellFormed(st: State, r: State)
    requires WellFormed(st) && r.versions == st.versions && r.users == st.users
    requires forall id | id in st.schemas :: id in r.schemas && r.schemas[id] == st.schemas[id]
    requires forall s :: NextVersion(r, s) >= NextVersion(st, s)
    requires forall f | f in r.fingerprints :: FingerprintOk(r, f)
    ensures WellFormed(r)
  {
    forall j | j in r.versions ensures VersionOk(r, j) {
      assert VersionOk(st, j);
    }
    forall i ensures UsersOk(r, i) {
      assert UsersOk(st, i);
    }
    forall s | s in r.nextVersion ensures r.nextVersion[s] >= 0 {
      assert NextVersion(r, s) >= NextVersion(st, s) >= 0;
    }
  }

  lemma ImportKeepsWellFormed(st: State, record: Record)
    requires WellFormed(st) && record.version >= 1
    ensures WellFormed(AfterImport(st, record).0)
  {
    var r := AfterImport(st, record);
    if r.1.Ok? {
      var k := SubjectVersion(record.subject, record.version);
      var base := r.0.(versions := st.versions, users := st.users);
      forall f | f in base.fingerprints ensures FingerprintOk(base, f) {
        assert f in st.fingerprints ==> FingerprintOk(st, f);
      }
      WiderKeepsWellFormed(st, base);
      AddVersionKeepsWellFormed(base, k, record.id, record);
      assert AddVersion(base, k, record.id, record) == r.0;
    }
  }

  lemma RemoveKeepsWellFormed(st: State, keys: set<SubjectVersion>)
    requires WellFormed(st)
    ensures WellFormed(Remove(st, keys))
  {
    var r := Remove(st, keys);
    forall k | k in r.versions ensures VersionOk(r, k) {
      assert VersionOk(st, k);
      var id := st.versions[k].schemaID;
      assert k in Without(UsersOf(st, id), keys);
      assert id !in Orphans(st, keys);
    }
    forall i ensures UsersOk(r, i) {
      assert UsersOk(st, i);
    }
    forall f | f in r.fingerprints ensures FingerprintOk(r, f) {
      assert FingerprintOk(st, f);
    }
  }

  /** Removing versions one group after another removes them all: the order does not matter. */
  lemma RemoveTwice(st: State, a: set<SubjectVersion>, b: set<SubjectVersion>)
    requires WellFormed(st) && a <= st.versions.Keys && b <= st.versions.Keys && a !! b
    ensures Remove(Remove(st, a), b) == Remove(st, a + b)
  {
    UsersTwice(st, a, b);
    ContentTwice(st, a, b);
    assert st.versions - a - b == st.versions - (a + b);
  }

  lemma ContentTwice(st: State, a: set<SubjectVersion>, b: set<SubjectVersion>)
    requires WellFormed(st) && a <= st.versions.Keys && b <= st.versions.Keys && a !! b
    ensures Remove(Remove(st, a), b).schemas == Remove(st, a + b).schemas
    ensures Remove(Remove(st, a), b).fingerprints == Remove(st, a + b).fingerprints
  {
    OrphansTwice(st, a, b);
    OrphansDisjoint(st, a, b);
    var (x, y) := (Orphans(st, a), Orphans(Remove(st, a), b));
    MapMinusTwice(st.schemas, x, y);
    PrintsTwice(st.schemas, x, y);
    MapMinusTwice(st.fingerprints, PrintsOf(st.schemas, x), PrintsOf(st.schemas - x, y));
  }

  lemma MapMinusTwice<K, V>(m: map<K, V>, x: set<K>, y: set<K>)
    ensures m - x - y == m - (x + y)
  {
  }

  lemma OrphansDisjoint(st: State, a: set<SubjectVersion>, b: set<SubjectVersion>)
    requires WellFormed(st) && a <= st.versions.Keys && b <= st.versions.Keys && a !! b
    ensures Orphans(st, a) !! Orphans(Remove(st, a), b)
  {
    RemoveKeepsWellFormed(st, a);
    forall id | id in Orphans(st, a) ensures id !in Orphans(Remove(st, a), b) {
      OrphanMeans(Remove(st, a), b, id);
    }
  }

  lemma PrintsTwice(schemas: map<int, Content>, x: set<int>, y: set<int>)
    requires x !! y
    ensures PrintsOf(schemas, x) + PrintsOf(schemas - x, y) == PrintsOf(schemas, x + y)
  {
  }

  lemma UsersTwice(st: State, a: set<SubjectVersion>, b: set<SubjectVersion>)
    requires WellFormed(st) && a <= st.versions.Keys && b <= st.versions.Keys && a !! b
    ensures Remove(Remove(st, a), b).users == Remove(st, a + b).users
  {
    OrphansTwice(st, a, b);
    forall id | id in st.users ensures Without(Without(st.users[id], a), b) == Without(st.users[id], a + b) {
      WithoutTwice(st.users[id], a, b);
    }
  }

  lemma {:induction false} WithoutTwice(list: seq<SubjectVersion>, a: set<SubjectVersion>, b: set<SubjectVersion>)
    ensures Without(Without(list, a), b) == Without(list, a + b)
  {
    if list != [] {
      var (init, last) := (list[..|list| - 1], list[|list| - 1]);
      WithoutTwice(init, a, b);
      if last !in a {
        var r := Without(init, a) + [last];
        assert r[..|r| - 1] == Without(init, a);
      }
    }
  }

  /** In a well-formed store an ID is orphaned exactly when it has users and all of them go. */
  lemma OrphanMeans(st: State, keys: set<SubjectVersion>, id: int)
    requires WellFormed(st) && keys <= st.versions.Keys
    ensures id in Orphans(st, keys) <==> UsersOf(st, id) != [] && Without(UsersOf(st, id), keys) == []
  {
    var list := UsersOf(st, id);
    assert UsersOk(st, id);
    if id in Orphans(st, keys) {
      var k :| k in keys && k in st.versions && st.versions[k].schemaID == id;
      assert VersionOk(st, k);
    }
    if list != [] && Without(list, keys) == [] {
      var k := list[0];
      assert k in list && k !in Without(list, keys);
      assert k in keys;
    }
  }

  lemma OrphansTwice(st: State, a: set<SubjectVersion>, b: set<SubjectVersion>)
    requires WellFormed(st) && a <= st.versions.Keys && b <= st.versions.Keys && a !! b
    ensures Orphans(st, a) + Orphans(Remove(st, a), b) == Orphans(st, a + b)
  {
    var s1 := Remove(st, a);
    RemoveKeepsWellFormed(st, a);
    forall id ensures id in Orphans(st, a) + Orphans(s1, b) <==> id in Orphans(st, a + b) {
      var list := UsersOf(st, id);
      WithoutTwice(list, a, b);
      OrphanMeans(st, a, id);
      OrphanMeans(s1, b, id);
      OrphanMeans(st, a + b, id);
      assert UsersOf(s1, id) == if id in Orphans(st, a) then [] else Without(list, a);
    }
  }

  lemma {:induction false} WithoutAbsent(list: seq<SubjectVersion>, keys: set<SubjectVersion>)
    requires forall k | k in list :: k !in keys
    ensures Without(list, keys) == list
  {
    if list != [] {
      WithoutAbsent(list[..|list| - 1], keys);
    }
  }

  lemma OrphansOfOne(st: State, k: SubjectVersion)
    requires k in st.versions
    ensures var id := st.versions[k].schemaID;
            Orphans(st, {k}) == if Without(UsersOf(st, id), {k}) == [] then {id} else {}
  {
  }

  lemma UsersOfOne(st: State, k: SubjectVersion)
    requires WellFormed(st) && k in st.versions
    ensures var id := st.versions[k].schemaID;
            var rest := Without(UsersOf(st, id), {k});
            Remove(st, {k}).users == if rest == [] then st.users - {id} else st.users[id := rest]
  {
    var id := st.versions[k].schemaID;
    OrphansOfOne(st, k);
    assert id in st.users by {
      assert VersionOk(st, k);
    }
    forall i | i in st.users && i != id ensures Without(st.users[i], {k}) == st.users[i] {
      OtherUsers(st, k, i);
    }
  }

  lemma OtherUsers(st: State, k: SubjectVersion, i: int)
    requires WellFormed(st) && k in st.versions && i in st.users && i != st.versions[k].schemaID
    ensures Without(st.users[i], {k}) == st.users[i]
  {
    assert UsersOk(st, i);
    WithoutAbsent(st.users[i], {k});
  }

  /** Removing one version: its content goes with it when no other version uses it. */
  lemma RemoveOne(st: State, k: SubjectVersion)
    requires WellFormed(st) && k in st.versions
    ensures var id := st.versions[k].schemaID;
            var last := Without(UsersOf(st, id), {k}) == [];
            && id in st.schemas
            && Remove(st, {k}).schemas == (if last then st.schemas - {id} else st.schemas)
            && Remove(st, {k}).fingerprints
               == (if last then st.fingerprints - {st.schemas[id].fingerprint} else st.fingerprints)
  {
    var id := st.versions[k].schemaID;
    assert VersionOk(st, k);
    OrphansOfOne(st, k);
    if Without(UsersOf(st, id), {k}) == [] {
      assert PrintsOf(st.schemas, {id}) == {st.schemas[id].fingerprint};
    } else {
      NothingOrphaned(st);
    }
  }

  lemma NothingOrphaned(st: State)
    ensures PrintsOf(st.schemas, {}) == {} && st.fingerprints - {} == st.fingerprints && st.schemas - {} == st.schemas
  {
  }

  lemma RemoveNothing(st: State)
    ensures Remove(st, {}) == st
  {
    assert Orphans(st, {}) == {};
    forall id | id in st.users ensures Without(st.users[id], {}) == st.users[id] {
      WithoutAbsent(st.users[id], {});
    }
    assert Remove(st, {}).users == st.users;
    assert st.versions - {} == st.versions;
    NothingOrphaned(st);
  }

  function Listing(order: seq<SubjectVersion>): set<SubjectVersion> {
    set k | k in order
  }

  predicate NoRepeats(order: seq<SubjectVersion>) {
    forall i, j | 0 <= i < j < |order| :: order[i] != order[j]
  }

  function RemoveInOrder(st: State, order: seq<SubjectVersion>): State {
    if order == [] then st else Remove(RemoveInOrder(st, order[..|order| - 1]), {order[|order| - 1]})
  }

  /** Whatever the order, removing versions one at a time ends where removing them together does. */
  lemma {:induction false} RemoveOrderFree(st: State, order: seq<SubjectVersion>)
    requires WellFormed(st) && Listing(order) <= st.versions.Keys && NoRepeats(order)
    ensures RemoveInOrder(st, order) == Remove(st, Listing(order))
  {
    if order == [] {
      RemoveNothing(st);
      assert Listing(order) == {};
    } else {
      var (init, last) := (order[..|order| - 1], order[|order| - 1]);
      assert Listing(order) == Listing(init) + {last};
      RemoveOrderFree(st, init);
      RemoveNext(st, Listing(init), last);
    }
  }

  lemma PrefixListing(order: seq<SubjectVersion>, i: nat, all: set<SubjectVersion>)
    requires Listing(order) <= all && NoRepeats(order) && i < |order|
    ensures Listing(order[..i]) <= all && NoRepeats(order[..i])
    ensures order[i] in all && order[i] !in Listing(order[..i])
  {
    assert order[i] in Listing(order);
    forall k | k in Listing(order[..i]) ensures k in all {
      assert k in Listing(order);
    }
  }

  lemma RemovePrefix(st: State, order: seq<SubjectVersion>, i: nat)
    requires WellFormed(st) && Listing(order) <= st.versions.Keys && NoRepeats(order) && i < |order|
    ensures WellFormed(RemoveInOrder(st, order[..i])) && order[i] in RemoveInOrder(st, order[..i]).versions
  {
    PrefixListing(order, i, st.versions.Keys);
    RemoveOrderFree(st, order[..i]);
    RemoveNext(st, Listing(order[..i]), order[i]);
  }

  lemma RemoveNext(st: State, removed: set<SubjectVersion>, k: SubjectVersion)
    requires WellFormed(st) && removed <= st.versions.Keys && k in st.versions && k !in removed
    ensures WellFormed(Remove(st, removed)) && k in Remove(st, removed).versions
    ensures Remove(Remove(st, removed), {k}) == Remove(st, removed + {k})
  {
    RemoveKeepsWellFormed(st, removed);
    RemoveTwice(st, removed, {k});
  }

  // ----- the store as an object

  class Store {
    var schemas: map<int, Content>
    var versions: map<SubjectVersion, VersionInfo>
    var nextVersion: map<string, int>
    var fingerprints: map<Fingerprint, int>
    var users: map<int, seq<SubjectVersion>>
    var nextID: int
    var configs: map<string, Config>
    var contextConfig: Option<Config>
    var sharedConfig: Option<Config>

    function Abs(): State
      reads this
    {
      State(schemas, versions, nextVersion, fingerprints, users, nextID, Settings(configs, contextConfig, sharedConfig))
    }

    constructor ()
      ensures Abs() == EMPTY
    {
      schemas, versions, nextVersion, fingerprints, users := map[], map[], map[], map[], map[];
      nextID := 1;
      configs, contextConfig, sharedConfig := map[], None, None;
    }

    method Bind(k: SubjectVersion, id: int, record: Record)
      modifies this
      ensures Abs() == AddVersion(old(Abs()), k, id, record)
    {
      versions := versions[k := VersionInfo(id, false, record.metadata, record.ruleSet)];
      users := users[id := UsersOf(Abs(), id) + [k]];
    }

    method Allocate(record: Record) returns (id: int)
      modifies this
      ensures id == IdFor(old(Abs()), record) && Abs() == Allocated(old(Abs()), record)
    {
      if record.fingerprint in fingerprints {
        id := fingerprints[record.fingerprint];
      } else {
        id := nextID;
        nextID := Wrap64(nextID + 1);
        fingerprints := fingerprints[record.fingerprint := id];
        schemas := schemas[id := ContentFrom(record)];
      }
    }

    method CreateSchema(record: Record) returns (result: StoreResult<Stored>)
      modifies this
      ensures (Abs(), result) == AfterCreate(old(Abs()), record)
    {
      if IsDuplicate(Abs(), record) {
        return Err(SchemaExists);
      }
      var id := Allocate(record);
      var version := NextVersion(Abs(), record.subject) + 1;
      nextVersion := nextVersion[record.subject := version];
      var k := SubjectVersion(record.subject, version);
      Bind(k, id, record);
      result := Ok(Stored(id, version));
    }

    method ImportSchema(record: Record) returns (result: StoreResult<()>)
      modifies this
      ensures (Abs(), result) == AfterImport(old(Abs()), record)
    {
      var idExists := record.id in schemas;
      if idExists && schemas[record.id].fingerprint != record.fingerprint {
        return Err(SchemaIDConflict);
      }
      var k := SubjectVersion(record.subject, record.version);
      if k in versions {
        return Err(SchemaExists);
      }
      if !idExists {
        schemas := schemas[record.id := ContentFrom(record)];
      }
      fingerprints := fingerprints[record.fingerprint := record.id];
      if record.version >= NextVersion(Abs(), record.subject) {
        nextVersion := nextVersion[record.subject := record.version];
      }
      Bind(k, record.id, record);
      result := Ok(());
    }

    method GetMaxSchemaID() returns (id: int)
      ensures id == Wrap64(nextID - 1)
    {
      id := Wrap64(nextID - 1);
    }

    method SetNextID(id: int)
      modifies this
      ensures Abs() == old(Abs()).(nextID := id)
    {
      nextID := id;
    }

    static method OtherVersions(svs: seq<SubjectVersion>, k: SubjectVersion) returns (newSvs: seq<SubjectVersion>)
      ensures newSvs == Without(svs, {k})
    {
      newSvs := [];
      for i := 0 to |svs|
        invariant newSvs == Without(svs[..i], {k})
      {
        assert svs[..i + 1][..i] == svs[..i];
        if svs[i] != k {
          newSvs := newSvs + [svs[i]];
        }
      }
      assert svs[..|svs|] == svs;
    }

    /** The removal of one version: its row, its place in the ID index, and its content if it was the last user. */
    method RemoveVersion(k: SubjectVersion)
      requires k in versions && WellFormed(Abs())
      modifies this
      ensures Abs() == Remove(old(Abs()), {k})
    {
      RemoveOne(Abs(), k);
      UsersOfOne(Abs(), k);
      var id := versions[k].schemaID;
      var newSvs := OtherVersions(UsersOf(Abs(), id), k);
      versions := versions - {k};
      if |newSvs| == 0 {
        fingerprints := fingerprints - {schemas[id].fingerprint};
        schemas := schemas - {id};
        users := users - {id};
      } else {
        users := users[id := newSvs];
      }
    }

    method DeleteSchema(k: SubjectVersion, permanent: bool) returns (result: StoreResult<()>)
      requires WellFormed(Abs())
      modifies this
      ensures (Abs(), result) == AfterDelete(old(Abs()), k, permanent)
    {
      if Subject(Abs(), k.subject) == {} {
        return Err(SubjectNotFound);
      }
      if k !in versions {
        return Err(VersionNotFound);
      }
      if permanent && !versions[k].deleted {
        return Err(VersionNotSoftDeleted);
      }
      if permanent {
        RemoveVersion(k);
      } else {
        MarkDeleted({k});
      }
      result := Ok(());
    }

    method MarkDeleted(keys: set<SubjectVersion>)
      modifies this
      ensures Abs() == SoftDelete(old(Abs()), keys)
    {
      versions := map k | k in versions :: if k in keys then versions[k].(deleted := true) else versions[k];
    }

    /** Removes versions one by one; `order` is the order in which the map yields them. */
    method RemoveEach(order: seq<SubjectVersion>)
      requires WellFormed(Abs()) && Listing(order) <= versions.Keys && NoRepeats(order)
      modifies this
      ensures Abs() == RemoveInOrder(old(Abs()), order)
    {
      ghost var st := Abs();
      for i := 0 to |order|
        invariant Abs() == RemoveInOrder(st, order[..i])
      {
        RemovePrefix(st, order, i);
        assert order[..i + 1][..i] == order[..i];
        RemoveVersion(order[i]);
      }
      assert order[..|order|] == order;
    }

    static method AnyOrder(keys: set<SubjectVersion>) returns (order: seq<SubjectVersion>)
      ensures Listing(order) == keys && NoRepeats(order)
    {
      order := [];
      var todo := keys;
      while todo != {}
        invariant Listing(order) + todo == keys && Listing(order) !! todo && NoRepeats(order)
      {
        var k :| k in todo;
        assert Listing(order + [k]) == Listing(order) + {k};
        assert k !in order by { assert k !in Listing(order); }
        order, todo := order + [k], todo - {k};
      }
    }

    /** Deletes every version of a subject; a permanent delete visits them in whatever order the map yields. */
    method DeleteSubject(subject: string, permanent: bool) returns (result: StoreResult<seq<int>>)
      requires WellFormed(Abs())
      modifies this
      ensures (Abs(), result) == AfterDeleteSubject(old(Abs()), subject, permanent)
    {
      var all := Subject(Abs(), subject);
      if all == {} {
        return Err(SubjectNotFound);
      }
      var allDeleted := AllDeleted(Abs(), subject);
      if permanent && !allDeleted {
        return Err(SubjectNotSoftDeleted);
      }
      if !permanent && allDeleted {
        return Err(SubjectDeleted);
      }
      if !permanent {
        var active := set k | k in all && !versions[k].deleted;
        MarkDeleted(all);
        return Ok(Ascending(Numbers(active)));
      }
      var order := AnyOrder(all);
      RemoveOrderFree(Abs(), order);
      RemoveEach(order);
      nextVersion := nextVersion - {subject};
      configs := configs - {subject};
      result := Ok(Ascending(Numbers(all)));
    }
  }
}
