/** Referential integrity and ID freshness over every run of registry operations. */
module Integrity {
  import opened Options
  import opened Fingerprints
  import opened Resolver
  import opened Metadatas
  import opened Compatibility
  import opened Storage
  import opened Registry

  // ----- the invariant

  type View = map<SubjectVersion, Shown>

  /** Every reference of a live schema carries an explicit version and names a live schema. */
  ghost predicate ReferencesLive(v: View) {
    forall k, t | k in v && t in Targets(v[k].content.references) :: t.version != -1 && t in v
  }

  ghost predicate Ordered(v: View, rank: SubjectVersion -> nat) {
    forall k, t | k in v && t in Targets(v[k].content.references) :: rank(t) < rank(k)
  }

  /** No dangling reference, and an order in which every schema comes after what it refers to. */
  ghost predicate Consistent(v: View) {
    ReferencesLive(v) && exists rank :: Ordered(v, rank)
  }

  /** Stored content carries the composite fingerprint of its own references. */
  ghost predicate PrintOk(c: Content) {
    NulFreeRefs(c.references) && exists body :: NulFree(body) && c.fingerprint == GlobalFingerprint(body, c.references)
  }

  ghost predicate PrintsOk(st: State) {
    forall id | id in st.schemas :: PrintOk(st.schemas[id])
  }

  ghost predicate Sound(st: State) {
    WellFormed(st) && Consistent(LiveView(st)) && PrintsOk(st)
  }

  /** The ID counter is a 64-bit number above every stored ID. */
  ghost predicate IdsBelow(st: State) {
    -0x8000_0000_0000_0000 <= st.nextID <= MAX_INT64 && forall id | id in st.schemas :: id < st.nextID
  }

  // ----- premises on what comes from outside

  /** Parser fingerprints contain no NUL byte (they are hexadecimal digests). */
  ghost predicate CleanEnv(env: Env) {
    forall ty, schema, refs | ty in env.parsers && env.parsers[ty](schema, refs).Some? ::
      NulFree(env.parsers[ty](schema, refs).value.fingerprint) &&
      NulFree(env.normalize(env.parsers[ty](schema, refs).value).fingerprint)
  }

  predicate PlainRefs(refs: seq<Reference>) {
    NulFreeRefs(refs) && forall r | r in refs :: r.version != -1
  }

  /** The references an operation brings in have explicit versions and no NUL bytes in their names. */
  predicate Plain(op: Op) {
    match op
    case RegisterOp(req, _, _) => PlainRefs(req.references)
    case RegisterWithIDOp(req, _) => PlainRefs(req.references)
    case ImportOp(reqs) => forall r | r in reqs :: PlainRefs(r.references)
    case _ => true
  }

  /** The operation cannot push the 64-bit ID counter over its end. */
  predicate Headroom(st: State, op: Op) {
    match op
    case RegisterOp(_, _, _) => st.nextID < MAX_INT64
    case RegisterWithIDOp(req, _) => -0x8000_0000_0000_0000 <= req.id < MAX_INT64
    case ImportOp(reqs) => forall r | r in reqs :: r.id < MAX_INT64
    case _ => true
  }

  // ----- adding one live version

  lemma GrowIsConsistent(v: View, k: SubjectVersion, c: Shown)
    requires Consistent(v) && k !in v
    requires forall t | t in Targets(c.content.references) :: t.version != -1 && t in v
    ensures Consistent(v[k := c])
  {
    var rank :| Ordered(v, rank);
    var top := Above(Targets(c.content.references), rank);
    var next := (j: SubjectVersion) => if j == k then top else rank(j);
    assert Ordered(v[k := c], next);
  }

  lemma Above(targets: set<SubjectVersion>, rank: SubjectVersion -> nat) returns (top: nat)
    ensures forall t | t in targets :: rank(t) < top
  {
    if targets == {} {
      top := 0;
    } else {
      var t :| t in targets;
      var rest := Above(targets - {t}, rank);
      top := if rest > rank(t) then rest else rank(t) + 1;
    }
  }

  /** Content is found again by fingerprint only if it has the same references, up to order. */
  lemma SamePrintSameTargets(a: Content, b: Content)
    requires PrintOk(a) && PrintOk(b) && a.fingerprint == b.fingerprint
    ensures Targets(a.references) == Targets(b.references)
  {
    var f :| NulFree(f) && a.fingerprint == GlobalFingerprint(f, a.references);
    var g :| NulFree(g) && b.fingerprint == GlobalFingerprint(g, b.references);
    FingerprintCanonical(f, a.references, g, b.references);
    PermutedTargets(a.references, b.references);
    PermutedTargets(b.references, a.references);
  }

  lemma PermutedTargets(a: seq<Reference>, b: seq<Reference>)
    requires multiset(a) == multiset(b)
    ensures Targets(a) <= Targets(b)
  {
    forall t | t in Targets(a) ensures t in Targets(b) {
      var r :| r in a && Target(r) == t;
      assert r in multiset(b);
    }
  }

  /** A record whose references are explicit and live, with its composite fingerprint. */
  ghost predicate Admitted(v: View, record: Record) {
    && PrintOk(ContentFrom(record))
    && forall t | t in Targets(record.references) :: t.version != -1 && t in v
  }

  /** One more live version, bound to the record's content or to stored content with its fingerprint. */
  ghost predicate Grown(st: State, after: State, record: Record, k: SubjectVersion, c: Content) {
    && k !in LiveView(st)
    && LiveView(after) == LiveView(st)[k := Shown(c, record.metadata, record.ruleSet)]
    && c.fingerprint == record.fingerprint
    && (c == ContentFrom(record) || exists id | id in st.schemas :: st.schemas[id] == c)
    && (forall id | id in after.schemas ::
          (after.schemas[id] == ContentFrom(record)) || (id in st.schemas && after.schemas[id] == st.schemas[id]))
  }

  /** Binding a new version adds exactly that version to what is visible. */
  lemma AddVersionShows(st: State, k: SubjectVersion, id: int, record: Record)
    requires id in st.schemas && k !in st.versions
    ensures LiveView(AddVersion(st, k, id, record)) == LiveView(st)[k := Shown(st.schemas[id], record.metadata, record.ruleSet)]
  {
  }

  /** More content does not change what is visible. */
  lemma WiderShowsSame(st: State, r: State)
    requires r.versions == st.versions
    requires forall id | id in st.schemas :: id in r.schemas && r.schemas[id] == st.schemas[id]
    requires forall k | k in st.versions :: st.versions[k].schemaID in st.schemas
    ensures LiveView(r) == LiveView(st)
  {
  }

  lemma ContentPresent(st: State)
    requires WellFormed(st)
    ensures forall k | k in st.versions :: st.versions[k].schemaID in st.schemas
  {
    forall k | k in st.versions ensures st.versions[k].schemaID in st.schemas {
      assert VersionOk(st, k);
    }
  }

  /** The content a new version is bound to: that of its fingerprint if known, its own otherwise. */
  lemma AllocatedContent(st: State, record: Record)
    requires WellFormed(st) && (record.fingerprint in st.fingerprints || st.nextID !in st.schemas)
    ensures var base, id := Allocated(st, record), IdFor(st, record);
            && id in base.schemas && base.versions == st.versions
            && base.schemas[id].fingerprint == record.fingerprint
            && (base.schemas[id] == ContentFrom(record) || (id in st.schemas && st.schemas[id] == base.schemas[id]))
            && (forall i | i in st.schemas :: i in base.schemas && base.schemas[i] == st.schemas[i])
            && (forall i | i in base.schemas :: base.schemas[i] == ContentFrom(record) || i in st.schemas)
  {
    assert record.fingerprint in st.fingerprints ==> FingerprintOk(st, record.fingerprint);
  }

  lemma NextVersionIsNew(st: State, subject: string)
    requires WellFormed(st)
    ensures SubjectVersion(subject, NextVersion(st, subject) + 1) !in st.versions
  {
    var k := SubjectVersion(subject, NextVersion(st, subject) + 1);
    assert k in st.versions ==> VersionOk(st, k);
  }

  lemma CreateGrows(st: State, record: Record) returns (c: Content)
    requires WellFormed(st) && (record.fingerprint in st.fingerprints || st.nextID !in st.schemas)
    requires AfterCreate(st, record).1.Ok?
    ensures var (after, stored) := (AfterCreate(st, record).0, AfterCreate(st, record).1.value);
            Grown(st, after, record, SubjectVersion(record.subject, stored.version), c)
    ensures IdFor(st, record) in Allocated(st, record).schemas && c == Allocated(st, record).schemas[IdFor(st, record)]
  {
    var version := NextVersion(st, record.subject) + 1;
    var k := SubjectVersion(record.subject, version);
    NextVersionIsNew(st, record.subject);
    AllocatedContent(st, record);
    var base := Allocated(st, record).(nextVersion := st.nextVersion[record.subject := version]);
    c := base.schemas[IdFor(st, record)];
    assert LiveView(base) == LiveView(st) by {
      ContentPresent(st);
      WiderShowsSame(st, base);
    }
    AddVersionShows(base, k, IdFor(st, record), record);
  }

  /** An import goes through exactly if its version is free and its ID is free or holds the same content; nothing is overwritten. */
  lemma ImportNeverOverwrites(st: State, record: Record)
    requires WellFormed(st)
    ensures AfterImport(st, record).1.Ok? <==>
            SubjectVersion(record.subject, record.version) !in st.versions
            && (record.id in st.schemas ==> st.schemas[record.id].fingerprint == record.fingerprint)
    ensures AfterImport(st, record).1.Err? ==> AfterImport(st, record).0 == st
    ensures var (after, result) := AfterImport(st, record);
            var k := SubjectVersion(record.subject, record.version);
            result.Ok? ==>
              && k in after.versions && after.versions[k].schemaID == record.id
              && record.id in after.schemas && after.schemas[record.id].fingerprint == record.fingerprint
    ensures var after := AfterImport(st, record).0;
            && (forall j | j in st.versions :: j in after.versions && after.versions[j] == st.versions[j])
            && (forall id | id in st.schemas :: id in after.schemas && after.schemas[id] == st.schemas[id])
  {
  }

  lemma ImportGrows(st: State, record: Record) returns (c: Content)
    requires WellFormed(st) && AfterImport(st, record).1.Ok?
    ensures Grown(st, AfterImport(st, record).0, record, SubjectVersion(record.subject, record.version), c)
  {
    var after := AfterImport(st, record).0;
    var k := SubjectVersion(record.subject, record.version);
    var base := after.(versions := st.versions, users := st.users);
    c := base.schemas[record.id];
    ContentPresent(st);
    WiderShowsSame(st, base);
    AddVersionShows(base, k, record.id, record);
    SameLiveView(AddVersion(base, k, record.id, record), after);
  }

  lemma GrowIsSound(st: State, after: State, record: Record, k: SubjectVersion, c: Content)
    requires Sound(st) && Admitted(LiveView(st), record) && WellFormed(after) && Grown(st, after, record, k, c)
    ensures Sound(after)
  {
    GrowPrints(st, after, record, k, c);
    SamePrintSameTargets(c, ContentFrom(record));
    GrowIsConsistent(LiveView(st), k, Shown(c, record.metadata, record.ruleSet));
  }

  lemma GrowPrints(st: State, after: State, record: Record, k: SubjectVersion, c: Content)
    requires PrintsOk(st) && PrintOk(ContentFrom(record)) && Grown(st, after, record, k, c)
    ensures PrintOk(c) && PrintsOk(after)
  {
  }

  // ----- what preparation guarantees

  lemma LookupOfResolved(st: State, refs: seq<Reference>, t: SubjectVersion)
    requires Resolve(LookupGraph(st), refs).Done? && t in Targets(refs)
    ensures Lookup(st, t).Ok?
    ensures t.version != -1 ==> IsLive(st, t)
  {
    ResolveExact(LookupGraph(st), refs);
    ReachesHere(LookupGraph(st), refs, t);
    LookupGraphExact(st, t);
  }

  lemma ResolvedIsAdmitted(st: State, record: Record, body: string)
    requires Resolve(LookupGraph(st), record.references).Done? && PlainRefs(record.references)
    requires NulFree(body) && record.fingerprint == GlobalFingerprint(body, record.references)
    ensures Admitted(LiveView(st), record)
  {
    assert PrintOk(ContentFrom(record));
    forall t | t in Targets(record.references) ensures t.version != -1 && IsLive(st, t) {
      LookupOfResolved(st, record.references, t);
    }
  }

  lemma PreparedIsAdmitted(env: Env, st: State, req: Request)
    requires CleanEnv(env) && PlainRefs(req.references) && Prepare(env, st, req).Ready?
    ensures Admitted(LiveView(st), RecordFor(env, st, Prepare(env, st, req).candidate))
  {
    var c := Prepare(env, st, req).candidate;
    assert NulFree(c.parsed.fingerprint);
    ResolvedIsAdmitted(st, RecordFor(env, st, c), c.parsed.fingerprint);
  }

  lemma PreparedImportIsAdmitted(env: Env, st: State, req: IDRequest, version: int)
    requires CleanEnv(env) && PlainRefs(req.references) && PrepareImport(env, st, req).ImportReady?
    ensures Admitted(LiveView(st), ImportRecord(req, version, PrepareImport(env, st, req).fingerprint))
  {
    var parser := env.parsers[TypeOrAvro(req.schemaType)];
    var body := parser(req.schema, Resolve(LookupGraph(st), req.references).resolved).value.fingerprint;
    ResolvedIsAdmitted(st, ImportRecord(req, version, PrepareImport(env, st, req).fingerprint), body);
  }

  // ----- registering

  /** A registration changes the state only by storing a prepared candidate that passed both gates. */
  lemma RegisterEffect(env: Env, st: State, req: Request, pick: int, pick2: int)
    ensures var (after, outcome) := Register(env, st, req, pick, pick2);
            || (after == st && !outcome.Registered?)
            || (outcome.Registered? && Prepare(env, st, req).Ready? &&
                var c := Prepare(env, st, req).candidate;
                Gate(env, st, c) == None && AfterCreate(st, RecordFor(env, st, c)) == (after, Ok(outcome.stored)))
  {
  }

  lemma RegisterStored(env: Env, st: State, req: Request, pick: int, pick2: int)
    requires Register(env, st, req, pick, pick2).1.Registered?
    ensures Prepare(env, st, req).Ready?
    ensures var c := Prepare(env, st, req).candidate;
            && c.request == req
            && AfterCreate(st, RecordFor(env, st, c)).1.Ok?
            && Register(env, st, req, pick, pick2).0 == AfterCreate(st, RecordFor(env, st, c)).0
            && CompatibilityGate(env, st, c) == None
            && (ValidateFieldsEnabled(st, req.subject) ==> ReservedOk(env, st, c))
  {
    RegisterEffect(env, st, req, pick, pick2);
  }

  lemma RegisterRefused(env: Env, st: State, req: Request, pick: int, pick2: int)
    requires !Register(env, st, req, pick, pick2).1.Registered?
    ensures Register(env, st, req, pick, pick2).0 == st
  {
    RegisterEffect(env, st, req, pick, pick2);
  }

  lemma RegisterIsSound(env: Env, st: State, req: Request, pick: int, pick2: int)
    requires CleanEnv(env) && PlainRefs(req.references) && Sound(st) && IdsBelow(st)
    ensures Sound(Register(env, st, req, pick, pick2).0)
  {
    RegisterEffect(env, st, req, pick, pick2);
    if Register(env, st, req, pick, pick2).1.Registered? {
      PreparedIsAdmitted(env, st, req);
      CreateIsSound(st, RecordFor(env, st, Prepare(env, st, req).candidate));
    }
  }

  lemma CreateIsSound(st: State, record: Record)
    requires Sound(st) && IdsBelow(st) && Admitted(LiveView(st), record) && AfterCreate(st, record).1.Ok?
    ensures Sound(AfterCreate(st, record).0)
  {
    CreateKeepsWellFormed(st, record);
    var content := CreateGrows(st, record);
    var (after, result) := AfterCreate(st, record);
    GrowIsSound(st, after, record, SubjectVersion(record.subject, result.value.version), content);
  }

  lemma ImportIsSound(st: State, record: Record)
    requires Sound(st) && Admitted(LiveView(st), record) && record.version >= 1
    ensures Sound(AfterImport(st, record).0)
  {
    if AfterImport(st, record).1.Ok? {
      ImportKeepsWellFormed(st, record);
      var content := ImportGrows(st, record);
      GrowIsSound(st, AfterImport(st, record).0, record, SubjectVersion(record.subject, record.version), content);
    }
  }

  lemma NewCounterIsSound(st: State, n: int)
    requires Sound(st)
    ensures Sound(st.(nextID := n))
  {
    OtherFieldsSound(st, st.(nextID := n));
  }

  /** Soundness looks only at the schemas and the indexes. */
  lemma OtherFieldsSound(st: State, r: State)
    requires Sound(st)
    requires r.schemas == st.schemas && r.versions == st.versions && r.nextVersion == st.nextVersion
    requires r.fingerprints == st.fingerprints && r.users == st.users
    ensures Sound(r)
  {
    SameIndexes(st, r);
    SameLiveView(st, r);
  }

  lemma SameLiveView(st: State, r: State)
    requires r.schemas == st.schemas && r.versions == st.versions
    ensures LiveView(r) == LiveView(st)
  {
  }

  lemma SameIndexes(st: State, r: State)
    requires WellFormed(st)
    requires r.schemas == st.schemas && r.versions == st.versions && r.nextVersion == st.nextVersion
    requires r.fingerprints == st.fingerprints && r.users == st.users
    ensures WellFormed(r)
  {
    forall k | k in r.versions ensures VersionOk(r, k) { assert VersionOk(st, k); }
    forall id ensures UsersOk(r, id) { assert UsersOk(st, id); }
    forall f | f in r.fingerprints ensures FingerprintOk(r, f) { assert FingerprintOk(st, f); }
  }

  lemma RegisterWithIDIsSound(env: Env, st: State, req: IDRequest, pick: int)
    requires CleanEnv(env) && PlainRefs(req.references) && Sound(st)
    ensures Sound(RegisterWithID(env, st, req, pick).0)
  {
    RegisterWithIDIs(env, st, req, pick);
    var p := PrepareImport(env, st, req);
    if p.ImportReady? {
      var version := AssignedVersion(st, req.subject, req.version);
      var record := ImportRecord(req, version, p.fingerprint);
      PreparedImportIsAdmitted(env, st, req, version);
      ImportIsSound(st, record);
      var after := AfterImport(st, record).0;
      NewCounterIsSound(after, AdvancedNextID(after, req.id));
    }
  }

  /** The state is as before, or as after the import, with or without the counter moved on. */
  lemma RegisterWithIDIs(env: Env, st: State, req: IDRequest, pick: int)
    ensures var p, next := PrepareImport(env, st, req), RegisterWithID(env, st, req, pick).0;
            next == st || (p.ImportReady? &&
              var after := AfterImport(st, ImportRecord(req, AssignedVersion(st, req.subject, req.version), p.fingerprint)).0;
              next == after || next == after.(nextID := AdvancedNextID(after, req.id)))
  {
  }

  lemma ImportOneIs(env: Env, st: State, req: IDRequest)
    ensures var p, next := PrepareImport(env, st, req), ImportOne(env, st, req).0;
            next == st || (p.ImportReady? && req.version > 0 && next == AfterImport(st, ImportRecord(req, req.version, p.fingerprint)).0)
  {
  }

  lemma ImportOneIsSound(env: Env, st: State, req: IDRequest)
    requires CleanEnv(env) && PlainRefs(req.references) && Sound(st)
    ensures Sound(ImportOne(env, st, req).0)
  {
    var p := PrepareImport(env, st, req);
    if p.ImportReady? && req.version > 0 {
      PreparedImportIsAdmitted(env, st, req, req.version);
      ImportIsSound(st, ImportRecord(req, req.version, p.fingerprint));
    }
  }

  lemma {:induction false} ImportLoopIsSound(env: Env, st: State, reqs: seq<IDRequest>)
    requires CleanEnv(env) && Sound(st) && forall r | r in reqs :: PlainRefs(r.references)
    ensures Sound(ImportLoop(env, st, reqs).state)
  {
    if reqs != [] {
      var n := |reqs| - 1;
      ImportLoopIsSound(env, st, reqs[..n]);
      ImportOneIsSound(env, ImportLoop(env, st, reqs[..n]).state, reqs[n]);
    }
  }

  // ----- deleting

  /** Removing versions that are already deleted changes nothing about the live ones. */
  lemma RemoveKeepsLiveView(st: State, keys: set<SubjectVersion>)
    requires WellFormed(st) && forall k | k in keys && k in st.versions :: st.versions[k].deleted
    ensures LiveView(Remove(st, keys)) == LiveView(st)
  {
    RemoveKeepsWellFormed(st, keys);
    ContentPresent(Remove(st, keys));
    RemovedInvisible(st, Remove(st, keys), keys);
  }

  lemma RemovedInvisible(st: State, r: State, keys: set<SubjectVersion>)
    requires r.versions == st.versions - keys && forall k | k in keys && k in st.versions :: st.versions[k].deleted
    requires forall id | id in r.schemas :: id in st.schemas && r.schemas[id] == st.schemas[id]
    requires forall k | k in r.versions :: r.versions[k].schemaID in r.schemas
    ensures LiveView(r) == LiveView(st)
  {
  }

  lemma RemoveIsSound(st: State, keys: set<SubjectVersion>)
    requires Sound(st) && forall k | k in keys && k in st.versions :: st.versions[k].deleted
    ensures Sound(Remove(st, keys))
  {
    RemoveKeepsLiveView(st, keys);
    RemoveKeepsWellFormed(st, keys);
  }

  lemma SoftDeleteKeepsWellFormed(st: State, keys: set<SubjectVersion>)
    requires WellFormed(st)
    ensures WellFormed(SoftDelete(st, keys))
  {
    var r := SoftDelete(st, keys);
    forall k | k in r.versions ensures VersionOk(r, k) { assert VersionOk(st, k); }
    forall id ensures UsersOk(r, id) { assert UsersOk(st, id); }
    forall f | f in r.fingerprints ensures FingerprintOk(r, f) { assert FingerprintOk(st, f); }
  }

  lemma SoftDeleteHides(st: State, keys: set<SubjectVersion>)
    ensures LiveView(SoftDelete(st, keys)) == LiveView(st) - keys
  {
  }

  /** Soft deletion is safe because the guard found no live referrer of any live version it marks. */
  lemma SoftDeleteIsConsistent(st: State, keys: set<SubjectVersion>)
    requires Consistent(LiveView(st)) && forall k | k in keys && IsLive(st, k) :: ReferencedBy(st, k) == {}
    ensures Consistent(LiveView(st) - keys)
  {
    var (v, w) := (LiveView(st), LiveView(st) - keys);
    forall j, t | j in w && t in Targets(w[j].content.references) ensures t in w {
      assert j in ReferencedBy(st, t);
    }
    var rank :| Ordered(v, rank);
    assert Ordered(w, rank);
  }

  lemma SoftDeleteIsSound(st: State, keys: set<SubjectVersion>)
    requires Sound(st) && forall k | k in keys && IsLive(st, k) :: ReferencedBy(st, k) == {}
    ensures Sound(SoftDelete(st, keys))
  {
    SoftDeleteKeepsWellFormed(st, keys);
    SoftDeleteHides(st, keys);
    SoftDeleteIsConsistent(st, keys);
  }

  lemma DeleteSubjectIsSound(st: State, subject: string, permanent: bool)
    requires Sound(st)
    ensures Sound(DeleteSubject(st, subject, permanent).0)
  {
    var all := Subject(st, subject);
    if permanent {
      if all != {} && AllDeleted(st, subject) {
        RemoveIsSound(st, all);
        var r := Remove(st, all);
        ForgetCounter(r, subject, st.settings.(subjects := st.settings.subjects - {subject}));
        assert st.nextVersion - {subject} == r.nextVersion - {subject};
      }
    } else {
      forall k | k in all && IsLive(st, k) && DeleteSubject(st, subject, permanent).1.Ok?
        ensures ReferencedBy(st, k) == {}
      {
        assert k == SubjectVersion(subject, k.version);
        assert k.version in LiveNumbers(st, subject);
      }
      if DeleteSubject(st, subject, permanent).1.Ok? {
        SoftDeleteIsSound(st, all);
      }
    }
  }

  /** A subject without versions may lose its version counter: numbering starts again from 1. */
  lemma ForgetCounter(st: State, subject: string, settings: Settings)
    requires Sound(st) && forall k | k in st.versions :: k.subject != subject
    ensures Sound(st.(nextVersion := st.nextVersion - {subject}, settings := settings))
  {
    var r := st.(nextVersion := st.nextVersion - {subject}, settings := settings);
    ForgetKeepsWellFormed(st, r, subject);
    SameLiveView(st, r);
  }

  lemma ForgetKeepsWellFormed(st: State, r: State, subject: string)
    requires WellFormed(st) && forall k | k in st.versions :: k.subject != subject
    requires r == st.(nextVersion := st.nextVersion - {subject}, settings := r.settings)
    ensures WellFormed(r)
  {
    forall k | k in r.versions ensures VersionOk(r, k) {
      assert VersionOk(st, k);
      assert NextVersion(r, k.subject) == NextVersion(st, k.subject);
    }
    forall id ensures UsersOk(r, id) { assert UsersOk(st, id); }
    forall f | f in r.fingerprints ensures FingerprintOk(r, f) { assert FingerprintOk(st, f); }
  }

  lemma DeleteVersionIsSound(st: State, subject: string, version: int, permanent: bool)
    requires Sound(st)
    ensures Sound(DeleteVersion(st, subject, version, permanent).0)
  {
    if permanent {
      var v := if version == -1 then Highest(Ascending(DeletedNumbers(st, subject))) else version;
      var k := SubjectVersion(subject, v);
      if AfterDelete(st, k, true).1.Ok? {
        RemoveIsSound(st, {k});
      }
    } else if Lookup(st, SubjectVersion(subject, version)).Ok? {
      var k := SubjectVersion(subject, Lookup(st, SubjectVersion(subject, version)).value);
      if ReferencedBy(st, k) == {} {
        SoftDeleteIsSound(st, {k});
      }
    }
  }

  /** Only soft-deleted versions are removed for good, only unreferenced live ones are soft-deleted; a refusal changes nothing. */
  lemma DeleteVersionIs(st: State, subject: string, version: int, permanent: bool)
    ensures var (after, result) := DeleteVersion(st, subject, version, permanent);
            if result.Err? then after == st
            else
              var k := SubjectVersion(subject, result.value);
              && k in st.versions && (permanent ==> st.versions[k].deleted)
              && (!permanent ==> ReferencedBy(st, k) == {})
              && after == if permanent then Remove(st, {k}) else SoftDelete(st, {k})
  {
  }

  // ----- IDs

  lemma Wrap64InRange(n: int)
    ensures -0x8000_0000_0000_0000 <= n <= MAX_INT64 ==> Wrap64(n) == n
    ensures n == MAX_INT64 + 1 ==> Wrap64(n) == -0x8000_0000_0000_0000
    ensures n == -0x8000_0000_0000_0001 ==> Wrap64(n) == MAX_INT64
  {
  }

  /** Storing new content keeps the counter above every ID exactly when the counter was not at its end. */
  lemma CreateIdsBelow(st: State, record: Record)
    requires IdsBelow(st) && AfterCreate(st, record).1.Ok? && record.fingerprint !in st.fingerprints
    ensures IdsBelow(AfterCreate(st, record).0) <==> st.nextID < MAX_INT64
    ensures AfterCreate(st, record).1.value.id !in st.schemas
  {
    Wrap64InRange(st.nextID + 1);
    var after := AfterCreate(st, record).0;
    assert st.nextID in after.schemas;
  }

  /** The counter after an import is the larger of the old counter and one past the imported ID. */
  lemma AdvancedNextIDExact(st: State, id: int)
    requires -0x8000_0000_0000_0000 <= st.nextID <= MAX_INT64 && -0x8000_0000_0000_0000 <= id <= MAX_INT64
    ensures AdvancedNextID(st, id) == if id < MAX_INT64 && id + 1 > st.nextID then id + 1 else st.nextID
  {
    Wrap64InRange(id + 1);
    Wrap64InRange(st.nextID - 1);
    Wrap64InRange(Wrap64(st.nextID - 1) + 1);
  }

  /** A successful import under a given ID keeps the counter above every ID exactly when that ID is
      not the largest 64-bit number, where one past it wraps around. */
  lemma RegisterWithIDIdsBelow(env: Env, st: State, req: IDRequest, pick: int)
    requires IdsBelow(st) && -0x8000_0000_0000_0000 <= req.id <= MAX_INT64
    requires RegisterWithID(env, st, req, pick).1.Registered?
    ensures IdsBelow(RegisterWithID(env, st, req, pick).0) <==> req.id < MAX_INT64
  {
    var version := AssignedVersion(st, req.subject, req.version);
    var record := ImportRecord(req, version, PrepareImport(env, st, req).fingerprint);
    var after := AfterImport(st, record).0;
    assert req.id in after.schemas && after.nextID == st.nextID;
    AdvancedNextIDExact(after, req.id);
  }

  lemma ImportOneIds(env: Env, st: State, req: IDRequest)
    ensures var (after, error) := ImportOne(env, st, req);
            && after.nextID == st.nextID
            && (error == None ==> req.id > 0 && after.schemas.Keys == st.schemas.Keys + {req.id})
            && (error != None ==> after == st)
  {
  }

  /** Bulk import: counts, order and identity of the results, and the largest ID that was stored. */
  lemma {:induction false} ImportLoopFacts(env: Env, st: State, reqs: seq<IDRequest>)
    ensures var b := ImportLoop(env, st, reqs);
            && b.result.imported + b.result.errors == |b.result.results| == |reqs|
            && (forall i | 0 <= i < |reqs| :: b.result.results[i].id == reqs[i].id
                  && b.result.results[i].subject == reqs[i].subject && b.result.results[i].version == reqs[i].version)
            && b.state.nextID == st.nextID
            && b.maxID >= 0 && (b.maxID > 0 ==> b.maxID in b.state.schemas && exists r | r in reqs :: r.id == b.maxID)
            && (b.maxID == 0 ==> b.state == st)
            && (forall id | id in b.state.schemas :: id in st.schemas || id <= b.maxID)
            && st.schemas.Keys <= b.state.schemas.Keys
  {
    if reqs != [] {
      var n := |reqs| - 1;
      ImportLoopFacts(env, st, reqs[..n]);
      ImportOneIds(env, ImportLoop(env, st, reqs[..n]).state, reqs[n]);
    }
  }

  function Successes(results: seq<ImportEntry>): set<nat> {
    set i: nat | i < |results| && results[i].error == None
  }

  lemma SuccessesSnoc(results: seq<ImportEntry>, entry: ImportEntry)
    ensures |Successes(results + [entry])| == |Successes(results)| + if entry.error == None then 1 else 0
  {
    var (s, n) := (Successes(results), |results|);
    assert Successes(results + [entry]) == if entry.error == None then s + {n} else s;
  }

  /** `imported` counts the entries without an error. */
  lemma {:induction false} ImportedCountsSuccesses(env: Env, st: State, reqs: seq<IDRequest>)
    ensures ImportLoop(env, st, reqs).result.imported == |Successes(ImportLoop(env, st, reqs).result.results)|
  {
    if reqs == [] {
      assert Successes([]) == {};
    } else {
      var n := |reqs| - 1;
      ImportedCountsSuccesses(env, st, reqs[..n]);
      var b := ImportLoop(env, st, reqs[..n]);
      SuccessesSnoc(b.result.results, ImportEntry(reqs[n].id, reqs[n].subject, reqs[n].version, ImportOne(env, b.state, reqs[n]).1));
    }
  }

  lemma ImportSchemasIdsBelow(env: Env, st: State, reqs: seq<IDRequest>)
    requires IdsBelow(st) && forall r | r in reqs :: r.id <= MAX_INT64
    ensures IdsBelow(ImportSchemas(env, st, reqs).0) <==> ImportLoop(env, st, reqs).maxID < MAX_INT64
  {
    ImportLoopFacts(env, st, reqs);
    var b := ImportLoop(env, st, reqs);
    if b.maxID > 0 {
      AdvancedNextIDExact(b.state, b.maxID);
    }
  }

  lemma RemoveIdsBelow(st: State, keys: set<SubjectVersion>)
    requires IdsBelow(st)
    ensures IdsBelow(Remove(st, keys))
  {
  }

  // ----- every step, every run

  lemma RegisterStep(env: Env, st: State, op: Op)
    requires op.RegisterOp? && Sound(st) && IdsBelow(st)
    ensures CleanEnv(env) && Plain(op) ==> Sound(Step(env, st, op))
    ensures Headroom(st, op) ==> IdsBelow(Step(env, st, op))
  {
    var (req, pick, pick2) := (op.request, op.pick, op.pick2);
    if CleanEnv(env) && Plain(op) {
      RegisterIsSound(env, st, req, pick, pick2);
    }
    RegisterEffect(env, st, req, pick, pick2);
    var (after, outcome) := Register(env, st, req, pick, pick2);
    if outcome.Registered? {
      var record := RecordFor(env, st, Prepare(env, st, req).candidate);
      if record.fingerprint !in st.fingerprints {
        CreateIdsBelow(st, record);
      }
    }
  }

  lemma RegisterWithIDStep(env: Env, st: State, op: Op)
    requires op.RegisterWithIDOp? && Sound(st) && IdsBelow(st)
    ensures CleanEnv(env) && Plain(op) ==> Sound(Step(env, st, op))
    ensures Headroom(st, op) ==> IdsBelow(Step(env, st, op))
  {
    if CleanEnv(env) && Plain(op) {
      RegisterWithIDIsSound(env, st, op.idRequest, op.pick);
    }
    if Headroom(st, op) {
      if RegisterWithID(env, st, op.idRequest, op.pick).1.Registered? {
        RegisterWithIDIdsBelow(env, st, op.idRequest, op.pick);
      } else {
        RegisterWithIDNoEffect(env, st, op.idRequest, op.pick);
      }
    }
  }

  lemma RegisterWithIDNoEffect(env: Env, st: State, req: IDRequest, pick: int)
    requires !RegisterWithID(env, st, req, pick).1.Registered?
    ensures RegisterWithID(env, st, req, pick).0 == st
  {
  }

  lemma ImportStep(env: Env, st: State, op: Op)
    requires op.ImportOp? && Sound(st) && IdsBelow(st)
    ensures CleanEnv(env) && Plain(op) ==> Sound(Step(env, st, op))
    ensures Headroom(st, op) ==> IdsBelow(Step(env, st, op))
  {
    var b := ImportLoop(env, st, op.requests);
    if CleanEnv(env) && Plain(op) {
      ImportLoopIsSound(env, st, op.requests);
      NewCounterIsSound(b.state, AdvancedNextID(b.state, b.maxID));
    }
    if Headroom(st, op) {
      ImportLoopFacts(env, st, op.requests);
      ImportSchemasIdsBelow(env, st, op.requests);
    }
  }

  lemma DeleteSubjectStep(env: Env, st: State, op: Op)
    requires op.DeleteSubjectOp? && Sound(st) && IdsBelow(st)
    ensures Sound(Step(env, st, op)) && IdsBelow(Step(env, st, op))
  {
    DeleteSubjectIsSound(st, op.subject, op.permanent);
    DeleteSubjectIdsBelow(st, op.subject, op.permanent);
  }

  lemma DeleteSubjectIdsBelow(st: State, subject: string, permanent: bool)
    requires IdsBelow(st)
    ensures IdsBelow(DeleteSubject(st, subject, permanent).0)
  {
    RemoveIdsBelow(st, Subject(st, subject));
  }

  lemma DeleteVersionStep(env: Env, st: State, op: Op)
    requires op.DeleteVersionOp? && Sound(st) && IdsBelow(st)
    ensures Sound(Step(env, st, op)) && IdsBelow(Step(env, st, op))
  {
    DeleteVersionIsSound(st, op.subject, op.version, op.permanent);
    DeleteVersionIdsBelow(st, op.subject, op.version, op.permanent);
  }

  lemma DeleteVersionIdsBelow(st: State, subject: string, version: int, permanent: bool)
    requires IdsBelow(st)
    ensures IdsBelow(DeleteVersion(st, subject, version, permanent).0)
  {
    var v := if version == -1 then Highest(Ascending(DeletedNumbers(st, subject))) else version;
    RemoveIdsBelow(st, {SubjectVersion(subject, v)});
  }

  lemma ConfigStep(env: Env, st: State, op: Op)
    requires (op.SetConfigOp? || op.ClearConfigOp?) && Sound(st) && IdsBelow(st)
    ensures Sound(Step(env, st, op)) && IdsBelow(Step(env, st, op))
  {
    OtherFieldsSound(st, Step(env, st, op));
  }

  /** One operation preserves soundness if its references are plain, and ID freshness if the counter has room. */
  lemma StepIsSound(env: Env, st: State, op: Op)
    requires CleanEnv(env) && Plain(op) && Headroom(st, op) && Sound(st) && IdsBelow(st)
    ensures Sound(Step(env, st, op)) && IdsBelow(Step(env, st, op))
  {
    match op
    case RegisterOp(_, _, _) => RegisterStep(env, st, op);
    case RegisterWithIDOp(_, _) => RegisterWithIDStep(env, st, op);
    case ImportOp(_) => ImportStep(env, st, op);
    case DeleteSubjectOp(_, _) => DeleteSubjectStep(env, st, op);
    case DeleteVersionOp(_, _, _) => DeleteVersionStep(env, st, op);
    case SetConfigOp(_, _) => ConfigStep(env, st, op);
    case ClearConfigOp(_) => ConfigStep(env, st, op);
  }

  ghost predicate Admissible(env: Env, ops: seq<Op>) {
    forall i | 0 <= i < |ops| :: Plain(ops[i]) && Headroom(After(env, ops[..i]), ops[i])
  }

  lemma EmptyIsSound()
    ensures Sound(EMPTY) && IdsBelow(EMPTY)
  {
    assert Ordered(LiveView(EMPTY), (k: SubjectVersion) => 0 as nat);
  }

  /** Every state that any sequence of operations reaches is sound, and its ID counter is fresh. */
  lemma {:induction false} RunsAreSound(env: Env, ops: seq<Op>)
    requires CleanEnv(env) && Admissible(env, ops)
    ensures Sound(After(env, ops)) && IdsBelow(After(env, ops))
  {
    if ops == [] {
      EmptyIsSound();
    } else {
      var n := |ops| - 1;
      assert Admissible(env, ops[..n]) by {
        forall i | 0 <= i < n ensures Plain(ops[..n][i]) && Headroom(After(env, ops[..n][..i]), ops[..n][i]) {
          assert ops[..n][..i] == ops[..i];
          assert Plain(ops[i]);
        }
      }
      RunsAreSound(env, ops[..n]);
      assert Plain(ops[n]) && Headroom(After(env, ops[..n]), ops[n]);
      StepIsSound(env, After(env, ops[..n]), ops[n]);
    }
  }

  // ----- consequences

  /** The live schemas and the references between them. */
  function LiveGraph(st: State): (g: Graph)
    ensures g.Keys == LiveView(st).Keys
    ensures forall k | k in g :: g[k].references == LiveView(st)[k].content.references
  {
    map k | k in LiveView(st) :: Node(LiveView(st)[k].content.schema, LiveView(st)[k].content.references)
  }

  lemma LiveGraphIsAcyclic(st: State)
    requires Sound(st)
    ensures Acyclic(LiveGraph(st))
  {
    var rank :| Ordered(LiveView(st), rank);
    assert RankedBy(LiveGraph(st), rank);
    RankedAcyclic(LiveGraph(st), rank);
  }

  lemma LiveKeysClosed(st: State)
    requires Sound(st)
    ensures ClosedUnder(LookupGraph(st), LiveGraph(st).Keys)
  {
    forall k | k in LiveGraph(st).Keys
      ensures k in LookupGraph(st) && Targets(LookupGraph(st)[k].references) <= LiveGraph(st).Keys
    {
      LiveLookup(st, k);
    }
  }

  lemma LiveLookup(st: State, k: SubjectVersion)
    requires WellFormed(st) && IsLive(st, k)
    ensures Lookup(st, k) == Ok(k.version) && k in LookupGraph(st) && LookupGraph(st)[k] == NodeAt(st, k)
  {
    assert VersionOk(st, k);
    assert k in Subject(st, k.subject);
    assert k == SubjectVersion(k.subject, k.version);
    LookupGraphExact(st, k);
  }

  /** A live version that nothing refers to can be soft-deleted. */
  lemma SoftDeleted(st: State, k: SubjectVersion)
    requires WellFormed(st) && IsLive(st, k) && ReferencedBy(st, k) == {}
    ensures DeleteVersion(st, k.subject, k.version, false) == (SoftDelete(st, {k}), Ok(k.version))
  {
    LiveLookup(st, k);
    assert k in Subject(st, k.subject) && k == SubjectVersion(k.subject, k.version);
  }

  /** Resolving the references of a live schema never fails, and stays within the live schemas. */
  lemma LiveReferencesResolve(st: State, k: SubjectVersion)
    requires Sound(st) && IsLive(st, k)
    ensures Resolve(LookupGraph(st), ContentOf(st, k).references).Done?
    ensures Resolve(LookupGraph(st), ContentOf(st, k).references).seen <= LiveGraph(st).Keys
  {
    LiveKeysClosed(st);
    ClosedResolves(LookupGraph(st), LiveGraph(st).Keys, ContentOf(st, k).references);
  }

  /** The history can be built exactly when each of its versions can be, and then in the same order. */
  lemma {:induction false} WithRefsExact(st: State, subject: string, versions: seq<int>)
    requires forall v | v in versions :: IsLive(st, SubjectVersion(subject, v))
    ensures WithRefs(st, subject, versions).Some? <==>
            forall v | v in versions :: StoredForm(st, SubjectVersion(subject, v)).Some?
    ensures WithRefs(st, subject, versions).Some? ==>
            var list := WithRefs(st, subject, versions).value;
            |list| == |versions| &&
            forall i | 0 <= i < |versions| :: StoredForm(st, SubjectVersion(subject, versions[i])) == Some(list[i])
  {
    if versions != [] {
      var (init, last) := (versions[..|versions| - 1], versions[|versions| - 1]);
      assert versions == init + [last];
      WithRefsExact(st, subject, init);
    }
  }

  lemma StoredFormExists(st: State, k: SubjectVersion)
    requires Sound(st) && IsLive(st, k)
    ensures StoredForm(st, k).Some?
  {
    LiveReferencesResolve(st, k);
  }

  lemma GateNeverBroken(env: Env, st: State, c: Candidate)
    requires Sound(st)
    ensures CompatibilityGate(env, st, c) != Some(BrokenHistory)
  {
    HistoryLive(st, c);
    WithRefsExact(st, c.request.subject, History(st, c));
    forall v | v in History(st, c) ensures StoredForm(st, SubjectVersion(c.request.subject, v)).Some? {
      StoredFormExists(st, SubjectVersion(c.request.subject, v));
    }
  }

  /** The branch that reports unresolvable references of an already registered schema is unreachable. */
  lemma HistoryNeverBroken(env: Env, st: State, req: Request, pick: int, pick2: int)
    requires Sound(st)
    ensures Register(env, st, req, pick, pick2).1 != Rejected(BrokenHistory)
  {
    if Prepare(env, st, req).Ready? {
      GateNeverBroken(env, st, Prepare(env, st, req).candidate);
    }
  }

  /** Over every admissible run: references of live schemas name live schemas, the live reference graph has
      no cycle, resolving a live schema's references succeeds, and new content gets an unused ID. */
  lemma ReferentialIntegrity(env: Env, ops: seq<Op>)
    requires CleanEnv(env) && Admissible(env, ops)
    ensures var st := After(env, ops);
            && (forall k, t | IsLive(st, k) && t in Targets(ContentOf(st, k).references) :: IsLive(st, t))
            && Acyclic(LiveGraph(st))
            && (forall k | IsLive(st, k) :: Resolve(LookupGraph(st), ContentOf(st, k).references).Done?)
            && (forall id | id in st.schemas :: id < st.nextID)
            && (forall req, pick, pick2 :: Register(env, st, req, pick, pick2).1 != Rejected(BrokenHistory))
  {
    var st := After(env, ops);
    RunsAreSound(env, ops);
    LiveGraphIsAcyclic(st);
    forall k | IsLive(st, k) ensures Resolve(LookupGraph(st), ContentOf(st, k).references).Done? {
      LiveReferencesResolve(st, k);
    }
    forall req, pick, pick2 ensures Register(env, st, req, pick, pick2).1 != Rejected(BrokenHistory) {
      HistoryNeverBroken(env, st, req, pick, pick2);
    }
  }
}
