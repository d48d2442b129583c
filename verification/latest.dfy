/**
  * References to the latest version of a subject. They resolve when they are registered, but the deletion guards look for
  * references to the exact version only: this module says exactly when a deletion leaves such a reference unresolvable.
  */
module LatestReferences {
  import opened Options
  import opened Fingerprints
  import opened Resolver
  import opened Metadatas
  import opened Compatibility
  import opened Storage
  import opened Registry
  import opened Integrity
  import FailingRuns

  predicate Reads(st: State, k: SubjectVersion) {
    IsLive(st, k) && StoredForm(st, k).Some?
  }

  /** Live, but its references do not resolve. */
  predicate Broken(st: State, k: SubjectVersion) {
    IsLive(st, k) && StoredForm(st, k).None?
  }

  /** The references of every live schema resolve. */
  ghost predicate AllResolve(st: State) {
    forall k | IsLive(st, k) :: StoredForm(st, k).Some?
  }

  /** A lookup of the target succeeds: the version is live, or the latest is asked for and some version is. */
  ghost predicate Known(v: View, t: SubjectVersion) {
    t in v || (t.version == -1 && exists j :: j in v && j.subject == t.subject)
  }

  ghost predicate TargetsKnown(v: View) {
    forall k, t | k in v && t in Targets(v[k].content.references) :: Known(v, t)
  }

  lemma KnownExact(st: State, t: SubjectVersion)
    requires WellFormed(st)
    ensures t in LookupGraph(st) <==> Known(LiveView(st), t)
  {
    var v := LiveView(st);
    if t in v {
      assert VersionOk(st, t);
    }
    assert t in LookupKeys(st) <==> Known(v, t) by {
      if t in LookupKeys(st) && t !in v {
        var j :| j in st.versions && IsLive(st, j) && SubjectVersion(j.subject, -1) == t;
        assert j in v;
      }
      if Known(v, t) && t !in v {
        var j :| j in v && j.subject == t.subject;
        assert t == SubjectVersion(j.subject, -1);
      }
    }
  }

  /** The live schemas all resolve exactly when the direct targets of each of them are known. */
  lemma AllResolveExact(st: State)
    requires WellFormed(st)
    ensures AllResolve(st) <==> TargetsKnown(LiveView(st))
  {
    var v, g := LiveView(st), LookupGraph(st);
    if TargetsKnown(v) {
      LookupClosed(st);
      forall k | IsLive(st, k)
        ensures StoredForm(st, k).Some?
      {
        TargetsInGraph(st, k);
        ClosedResolves(g, g.Keys, ContentOf(st, k).references);
      }
    } else {
      var k, t :| k in v && t in Targets(v[k].content.references) && !Known(v, t);
      UnknownBreaks(st, k, t);
    }
  }

  lemma UnknownBreaks(st: State, k: SubjectVersion, t: SubjectVersion)
    requires WellFormed(st) && IsLive(st, k) && t in Targets(ContentOf(st, k).references) && !Known(LiveView(st), t)
    ensures Broken(st, k)
  {
    KnownExact(st, t);
    ResolveExact(LookupGraph(st), ContentOf(st, k).references);
    ReachesHere(LookupGraph(st), ContentOf(st, k).references, t);
  }

  lemma TargetsInGraph(st: State, k: SubjectVersion)
    requires WellFormed(st) && TargetsKnown(LiveView(st)) && IsLive(st, k)
    ensures Targets(ContentOf(st, k).references) <= LookupGraph(st).Keys
  {
    forall t | t in Targets(ContentOf(st, k).references)
      ensures t in LookupGraph(st)
    {
      assert k in LiveView(st);
      KnownExact(st, t);
    }
  }

  lemma LookupClosed(st: State)
    requires WellFormed(st) && TargetsKnown(LiveView(st))
    ensures ClosedUnder(LookupGraph(st), LookupGraph(st).Keys)
  {
    var g := LookupGraph(st);
    forall k | k in g
      ensures Targets(g[k].references) <= g.Keys
    {
      LookupGraphExact(st, k);
      var j := SubjectVersion(k.subject, Lookup(st, k).value);
      if IsLive(st, j) {
        TargetsInGraph(st, j);
      }
    }
  }

  // ----- deletions

  /** Some live schema outside `keys` refers to the latest version of a subject that has no live version outside `keys`. */
  ghost predicate LeavesBehind(v: View, keys: set<SubjectVersion>) {
    exists k, t | k in v && k !in keys && t in Targets(v[k].content.references) && t.version == -1 ::
      forall j | j in v && j.subject == t.subject :: j in keys
  }

  /** Hiding versions that no exact reference names keeps every target known unless it leaves a latest reference behind. */
  lemma HidingExact(v: View, keys: set<SubjectVersion>)
    requires TargetsKnown(v) && forall k | k in v :: k.version != -1
    requires forall k, t | k in v && t in Targets(v[k].content.references) && t in v :: t !in keys
    ensures TargetsKnown(v - keys) <==> !LeavesBehind(v, keys)
  {
    var w := v - keys;
    if TargetsKnown(w) {
      forall k, t | k in v && k !in keys && t in Targets(v[k].content.references) && t.version == -1
        ensures exists j :: j in v && j.subject == t.subject && j !in keys
      {
        assert k in w && w[k] == v[k];
        assert Known(w, t) && t !in w;
      }
    }
    if !LeavesBehind(v, keys) {
      forall k, t | k in w && t in Targets(w[k].content.references)
        ensures Known(w, t)
      {
        assert k in v && k !in keys && Known(v, t);
        if t !in v {
          var j :| j in v && j.subject == t.subject && j !in keys;
          assert j in w;
        }
      }
    }
  }

  lemma SoftDeleteExact(st: State, keys: set<SubjectVersion>)
    requires WellFormed(st) && AllResolve(st) && forall k | k in keys && IsLive(st, k) :: ReferencedBy(st, k) == {}
    ensures AllResolve(SoftDelete(st, keys)) <==> !LeavesBehind(LiveView(st), keys)
  {
    var v := LiveView(st);
    AllResolveExact(st);
    SoftDeleteKeepsWellFormed(st, keys);
    SoftDeleteHides(st, keys);
    AllResolveExact(SoftDelete(st, keys));
    VersionsAreNumbered(st);
    forall k, t | k in v && t in Targets(v[k].content.references) && t in v
      ensures t !in keys
    {
      assert k in ReferencedBy(st, t);
    }
    HidingExact(v, keys);
  }

  lemma VersionsAreNumbered(st: State)
    requires WellFormed(st)
    ensures forall k | k in LiveView(st) :: k.version != -1
  {
    forall k | k in LiveView(st)
      ensures k.version != -1
    {
      assert VersionOk(st, k);
    }
  }

  /** Soft-deleting an unreferenced version succeeds; afterwards everything resolves exactly if the subject has another
      live version or no other live schema refers to its latest. */
  lemma DeleteVersionExact(st: State, k: SubjectVersion)
    requires WellFormed(st) && AllResolve(st) && IsLive(st, k) && ReferencedBy(st, k) == {}
    ensures DeleteVersion(st, k.subject, k.version, false).1 == Ok(k.version)
    ensures AllResolve(DeleteVersion(st, k.subject, k.version, false).0) <==>
            || (exists j | IsLive(st, j) :: j.subject == k.subject && j != k)
            || (forall j | IsLive(st, j) && j != k :: SubjectVersion(k.subject, -1) !in Targets(ContentOf(st, j).references))
  {
    SoftDeleted(st, k);
    SoftDeleteExact(st, {k});
    AllResolveExact(st);
    VersionsAreNumbered(st);
    OneLeftBehind(LiveView(st), k);
  }

  /** Some schema other than `k` refers to the latest version of `k`'s subject. */
  ghost predicate LatestWanted(v: View, k: SubjectVersion) {
    exists j | j in v && j != k :: SubjectVersion(k.subject, -1) in Targets(v[j].content.references)
  }

  lemma OneLeftBehind(v: View, k: SubjectVersion)
    requires TargetsKnown(v) && (forall j | j in v :: j.version != -1) && k in v
    ensures LeavesBehind(v, {k}) <==> (forall j | j in v && j.subject == k.subject :: j == k) && LatestWanted(v, k)
  {
    var t := SubjectVersion(k.subject, -1);
    if LeavesBehind(v, {k}) {
      var j, u :| && j in v && j !in {k} && u in Targets(v[j].content.references) && u.version == -1
                  && forall i | i in v && i.subject == u.subject :: i in {k};
      assert Known(v, u);
      assert u == t;
    }
    if (forall j | j in v && j.subject == k.subject :: j == k) && LatestWanted(v, k) {
      var j :| j in v && j != k && t in Targets(v[j].content.references);
      assert j !in {k} && t.version == -1;
      assert forall i | i in v && i.subject == t.subject :: i in {k};
    }
  }

  /** The same for a whole subject: exactly if no live schema of another subject refers to its latest. */
  lemma DeleteSubjectExact(st: State, subject: string)
    requires WellFormed(st) && AllResolve(st) && DeleteSubject(st, subject, false).1.Ok?
    ensures AllResolve(DeleteSubject(st, subject, false).0) <==>
            forall j | IsLive(st, j) && j.subject != subject :: SubjectVersion(subject, -1) !in Targets(ContentOf(st, j).references)
  {
    var v, all := LiveView(st), Subject(st, subject);
    GuardedSubject(st, subject);
    SoftDeleteExact(st, all);
    AllResolveExact(st);
    VersionsAreNumbered(st);
    assert LeavesBehind(v, all) <==>
        exists j | IsLive(st, j) && j.subject != subject :: SubjectVersion(subject, -1) in Targets(ContentOf(st, j).references) by {
      if LeavesBehind(v, all) {
        var j, t :| && j in v && j !in all && t in Targets(v[j].content.references) && t.version == -1
                    && forall i | i in v && i.subject == t.subject :: i in all;
        assert Known(v, t);
        assert t == SubjectVersion(subject, -1);
        assert IsLive(st, j);
      }
      if j :| IsLive(st, j) && j.subject != subject && SubjectVersion(subject, -1) in Targets(ContentOf(st, j).references) {
        assert j in v && SubjectVersion(subject, -1).version == -1;
      }
    }
  }

  lemma GuardedSubject(st: State, subject: string)
    requires DeleteSubject(st, subject, false).1.Ok?
    ensures DeleteSubject(st, subject, false).0 == SoftDelete(st, Subject(st, subject))
    ensures forall k | k in Subject(st, subject) && IsLive(st, k) :: ReferencedBy(st, k) == {}
  {
    forall k | k in Subject(st, subject) && IsLive(st, k)
      ensures ReferencedBy(st, k) == {}
    {
      assert k == SubjectVersion(subject, k.version);
      assert k.version in LiveNumbers(st, subject);
    }
  }

  // ----- runs with references of every kind

  /** What soundness leaves when references to the latest version are allowed. */
  ghost predicate Steady(st: State) {
    WellFormed(st) && PrintsOk(st) && IdsBelow(st)
  }

  /** Reference names contain no NUL byte; versions may be explicit or the latest. */
  predicate Named(op: Op) {
    match op
    case RegisterOp(req, _, _) => NulFreeRefs(req.references)
    case RegisterWithIDOp(req, _) => NulFreeRefs(req.references)
    case ImportOp(reqs) => forall r | r in reqs :: NulFreeRefs(r.references)
    case _ => true
  }

  /** The versions that an operation soft-deletes. */
  function Hidden(st: State, op: Op): set<SubjectVersion> {
    match op
    case DeleteVersionOp(subject, version, false) =>
      var result := DeleteVersion(st, subject, version, false).1;
      if result.Ok? then {SubjectVersion(subject, result.value)} else {}
    case DeleteSubjectOp(subject, false) =>
      if DeleteSubject(st, subject, false).1.Ok? then Subject(st, subject) else {}
    case _ => {}
  }

  /** One version more, whose targets are known: everything still resolves. */
  lemma GrowResolves(st: State, after: State, record: Record, k: SubjectVersion, c: Content)
    requires WellFormed(st) && WellFormed(after) && AllResolve(st) && PrintOk(c) && PrintOk(ContentFrom(record))
    requires Grown(st, after, record, k, c) && Targets(record.references) <= LookupGraph(st).Keys
    ensures AllResolve(after)
  {
    SamePrintSameTargets(c, ContentFrom(record));
    AllResolveExact(st);
    AllResolveExact(after);
    var v, w := LiveView(st), LiveView(after);
    forall j, t | j in w && t in Targets(w[j].content.references)
      ensures Known(w, t)
    {
      KnownExact(st, t);
      assert j != k ==> w[j] == v[j];
      assert Known(v, t);
      KnownInMore(v, w, t);
    }
  }

  lemma KnownInMore(v: View, w: View, t: SubjectVersion)
    requires Known(v, t) && v.Keys <= w.Keys
    ensures Known(w, t)
  {
  }

  /** A record whose references resolve, with its composite fingerprint. */
  ghost predicate Acceptable(st: State, record: Record) {
    PrintOk(ContentFrom(record)) && Targets(record.references) <= LookupGraph(st).Keys
  }

  lemma ResolvedIsAcceptable(st: State, record: Record, body: string)
    requires Resolve(LookupGraph(st), record.references).Done? && NulFreeRefs(record.references)
    requires NulFree(body) && record.fingerprint == GlobalFingerprint(body, record.references)
    ensures Acceptable(st, record)
  {
    assert PrintOk(ContentFrom(record));
    forall t | t in Targets(record.references)
      ensures t in LookupGraph(st)
    {
      LookupOfResolved(st, record.references, t);
      LookupGraphExact(st, t);
    }
  }

  lemma CreateSteady(st: State, record: Record)
    requires Steady(st) && st.nextID < MAX_INT64 && Acceptable(st, record) && AfterCreate(st, record).1.Ok?
    ensures Steady(AfterCreate(st, record).0)
    ensures AllResolve(st) ==> AllResolve(AfterCreate(st, record).0)
  {
    var (after, result) := AfterCreate(st, record);
    var k := SubjectVersion(record.subject, result.value.version);
    CreateKeepsWellFormed(st, record);
    var c := CreateGrows(st, record);
    GrowPrints(st, after, record, k, c);
    if record.fingerprint !in st.fingerprints {
      CreateIdsBelow(st, record);
    }
    if AllResolve(st) {
      GrowResolves(st, after, record, k, c);
    }
  }

  lemma ImportSteady(st: State, record: Record)
    requires WellFormed(st) && PrintsOk(st) && record.version >= 1 && Acceptable(st, record)
    ensures var after := AfterImport(st, record).0;
            WellFormed(after) && PrintsOk(after) && (AllResolve(st) ==> AllResolve(after))
  {
    var after := AfterImport(st, record).0;
    ImportKeepsWellFormed(st, record);
    if AfterImport(st, record).1.Ok? {
      var k := SubjectVersion(record.subject, record.version);
      var c := ImportGrows(st, record);
      GrowPrints(st, after, record, k, c);
      if AllResolve(st) {
        GrowResolves(st, after, record, k, c);
      }
    }
  }

  lemma RegisterSteady(env: Env, st: State, req: Request, pick: int, pick2: int)
    requires CleanEnv(env) && NulFreeRefs(req.references) && Steady(st) && st.nextID < MAX_INT64
    ensures Steady(Register(env, st, req, pick, pick2).0)
    ensures AllResolve(st) ==> AllResolve(Register(env, st, req, pick, pick2).0)
  {
    RegisterEffect(env, st, req, pick, pick2);
    if Register(env, st, req, pick, pick2).1.Registered? {
      var c := Prepare(env, st, req).candidate;
      PreparedIsAcceptable(env, st, req);
      CreateSteady(st, RecordFor(env, st, c));
    }
  }

  lemma PreparedIsAcceptable(env: Env, st: State, req: Request)
    requires CleanEnv(env) && NulFreeRefs(req.references) && Prepare(env, st, req).Ready?
    ensures Acceptable(st, RecordFor(env, st, Prepare(env, st, req).candidate))
  {
    var c := Prepare(env, st, req).candidate;
    assert NulFree(c.parsed.fingerprint);
    ResolvedIsAcceptable(st, RecordFor(env, st, c), c.parsed.fingerprint);
  }

  lemma ImportIsAcceptable(env: Env, st: State, req: IDRequest, version: int)
    requires CleanEnv(env) && NulFreeRefs(req.references) && PrepareImport(env, st, req).ImportReady?
    ensures Acceptable(st, ImportRecord(req, version, PrepareImport(env, st, req).fingerprint))
  {
    var parser := env.parsers[TypeOrAvro(req.schemaType)];
    var body := parser(req.schema, Resolve(LookupGraph(st), req.references).resolved).value.fingerprint;
    ResolvedIsAcceptable(st, ImportRecord(req, version, PrepareImport(env, st, req).fingerprint), body);
  }

  /** The ID counter and the settings play no part in what resolves. */
  lemma OthersIrrelevant(st: State, r: State)
    requires r.schemas == st.schemas && r.versions == st.versions && r.nextVersion == st.nextVersion
    requires r.fingerprints == st.fingerprints && r.users == st.users && WellFormed(st) && PrintsOk(st)
    ensures WellFormed(r) && PrintsOk(r) && (AllResolve(r) <==> AllResolve(st))
  {
    SameIndexes(st, r);
    SameLiveView(st, r);
    AllResolveExact(st);
    AllResolveExact(r);
  }

  lemma RegisterWithIDSteady(env: Env, st: State, req: IDRequest, pick: int)
    requires CleanEnv(env) && NulFreeRefs(req.references) && Steady(st) && -0x8000_0000_0000_0000 <= req.id < MAX_INT64
    ensures Steady(RegisterWithID(env, st, req, pick).0)
    ensures AllResolve(st) ==> AllResolve(RegisterWithID(env, st, req, pick).0)
  {
    var p := PrepareImport(env, st, req);
    if RegisterWithID(env, st, req, pick).1.Registered? {
      RegisterWithIDIdsBelow(env, st, req, pick);
      RegisterWithIDIs(env, st, req, pick);
      var version := AssignedVersion(st, req.subject, req.version);
      var record := ImportRecord(req, version, p.fingerprint);
      ImportIsAcceptable(env, st, req, version);
      ImportSteady(st, record);
      OthersIrrelevant(AfterImport(st, record).0, RegisterWithID(env, st, req, pick).0);
    } else {
      RegisterWithIDNoEffect(env, st, req, pick);
    }
  }

  lemma ImportOneSteady(env: Env, st: State, req: IDRequest)
    requires CleanEnv(env) && NulFreeRefs(req.references) && WellFormed(st) && PrintsOk(st)
    ensures var after := ImportOne(env, st, req).0;
            WellFormed(after) && PrintsOk(after) && (AllResolve(st) ==> AllResolve(after))
  {
    var p := PrepareImport(env, st, req);
    ImportOneIs(env, st, req);
    if ImportOne(env, st, req).0 != st {
      ImportIsAcceptable(env, st, req, req.version);
      ImportSteady(st, ImportRecord(req, req.version, p.fingerprint));
    }
  }

  lemma {:induction false} ImportLoopSteady(env: Env, st: State, reqs: seq<IDRequest>)
    requires CleanEnv(env) && (forall r | r in reqs :: NulFreeRefs(r.references)) && WellFormed(st) && PrintsOk(st)
    ensures var after := ImportLoop(env, st, reqs).state;
            WellFormed(after) && PrintsOk(after) && (AllResolve(st) ==> AllResolve(after))
  {
    if reqs != [] {
      var n := |reqs| - 1;
      ImportLoopSteady(env, st, reqs[..n]);
      ImportOneSteady(env, ImportLoop(env, st, reqs[..n]).state, reqs[n]);
    }
  }

  lemma ImportSchemasSteady(env: Env, st: State, reqs: seq<IDRequest>)
    requires CleanEnv(env) && (forall r | r in reqs :: NulFreeRefs(r.references) && r.id < MAX_INT64) && Steady(st)
    ensures Steady(ImportSchemas(env, st, reqs).0)
    ensures AllResolve(st) ==> AllResolve(ImportSchemas(env, st, reqs).0)
  {
    ImportLoopSteady(env, st, reqs);
    ImportLoopFacts(env, st, reqs);
    ImportSchemasIdsBelow(env, st, reqs);
    OthersIrrelevant(ImportLoop(env, st, reqs).state, ImportSchemas(env, st, reqs).0);
  }

  /** Removing soft-deleted versions for good changes nothing about what resolves. */
  lemma RemoveSteady(st: State, keys: set<SubjectVersion>)
    requires Steady(st) && forall k | k in keys && k in st.versions :: st.versions[k].deleted
    ensures Steady(Remove(st, keys)) && (AllResolve(Remove(st, keys)) <==> AllResolve(st))
  {
    RemoveKeepsWellFormed(st, keys);
    RemoveKeepsLiveView(st, keys);
    RemoveIdsBelow(st, keys);
    AllResolveExact(st);
    AllResolveExact(Remove(st, keys));
  }

  lemma SoftDeleteSteady(st: State, keys: set<SubjectVersion>)
    requires Steady(st)
    ensures Steady(SoftDelete(st, keys))
  {
    SoftDeleteKeepsWellFormed(st, keys);
  }

  lemma ForgetSteady(st: State, subject: string, settings: Settings)
    requires Steady(st) && forall k | k in st.versions :: k.subject != subject
    ensures var r := st.(nextVersion := st.nextVersion - {subject}, settings := settings);
            Steady(r) && (AllResolve(r) <==> AllResolve(st))
  {
    var r := st.(nextVersion := st.nextVersion - {subject}, settings := settings);
    ForgetKeepsWellFormed(st, r, subject);
    SameLiveView(st, r);
    AllResolveExact(st);
    AllResolveExact(r);
  }

  lemma NothingHidden(v: View)
    requires TargetsKnown(v)
    ensures !LeavesBehind(v, {})
  {
    forall k, t | k in v && t in Targets(v[k].content.references) && t.version == -1
      ensures exists j :: j in v && j.subject == t.subject
    {
      assert Known(v, t);
    }
  }

  /** The state afterwards resolves everything exactly if hiding the versions left no latest reference behind. */
  ghost predicate Exact(st: State, after: State, hidden: set<SubjectVersion>) {
    && Steady(after)
    && (AllResolve(st) ==> (AllResolve(after) <==> !LeavesBehind(LiveView(st), hidden)))
  }

  lemma HidesNothing(st: State, after: State)
    requires Steady(st) && Steady(after) && (AllResolve(st) ==> AllResolve(after))
    ensures Exact(st, after, {})
  {
    AllResolveExact(st);
    if AllResolve(st) {
      NothingHidden(LiveView(st));
    }
  }

  lemma HidesUnreferenced(st: State, keys: set<SubjectVersion>)
    requires Steady(st) && forall k | k in keys && IsLive(st, k) :: ReferencedBy(st, k) == {}
    ensures Exact(st, SoftDelete(st, keys), keys)
  {
    SoftDeleteSteady(st, keys);
    if AllResolve(st) {
      SoftDeleteExact(st, keys);
    }
  }

  lemma PurgeVersion(st: State, k: SubjectVersion)
    requires Steady(st) && k in st.versions && st.versions[k].deleted
    ensures Exact(st, Remove(st, {k}), {})
  {
    RemoveSteady(st, {k});
    HidesNothing(st, Remove(st, {k}));
  }

  lemma DeleteVersionStep(st: State, subject: string, version: int, permanent: bool, result: StoreResult<int>, after: State)
    requires Steady(st) && DeleteVersion(st, subject, version, permanent) == (after, result)
    ensures Exact(st, after, if permanent || result.Err? then {} else {SubjectVersion(subject, result.value)})
  {
    DeleteVersionIs(st, subject, version, permanent);
    if result.Err? {
      HidesNothing(st, st);
    } else if permanent {
      PurgeVersion(st, SubjectVersion(subject, result.value));
    } else {
      HidesUnreferenced(st, {SubjectVersion(subject, result.value)});
    }
  }

  lemma PurgeSubject(st: State, subject: string)
    requires Steady(st) && DeleteSubject(st, subject, true).1.Ok?
    ensures Exact(st, DeleteSubject(st, subject, true).0, {})
  {
    var all := Subject(st, subject);
    RemoveSteady(st, all);
    var r := Remove(st, all);
    ForgetSteady(r, subject, st.settings.(subjects := st.settings.subjects - {subject}));
    HidesNothing(st, DeleteSubject(st, subject, true).0);
  }

  lemma RefusedSubject(st: State, subject: string, permanent: bool)
    requires DeleteSubject(st, subject, permanent).1.Err?
    ensures DeleteSubject(st, subject, permanent).0 == st
  {
  }

  lemma HideSubject(st: State, subject: string)
    requires Steady(st) && DeleteSubject(st, subject, false).1.Ok?
    ensures Exact(st, DeleteSubject(st, subject, false).0, Subject(st, subject))
  {
    GuardedSubject(st, subject);
    HidesUnreferenced(st, Subject(st, subject));
  }

  lemma DeleteSubjectStep(st: State, subject: string, permanent: bool, ok: bool, after: State)
    requires Steady(st) && DeleteSubject(st, subject, permanent).0 == after && DeleteSubject(st, subject, permanent).1.Ok? == ok
    ensures Exact(st, after, if permanent || !ok then {} else Subject(st, subject))
  {
    if !ok {
      RefusedSubject(st, subject, permanent);
      HidesNothing(st, after);
    } else if permanent {
      PurgeSubject(st, subject);
    } else {
      HideSubject(st, subject);
    }
  }

  lemma SettingsStep(st: State, settings: Settings)
    requires Steady(st)
    ensures Exact(st, st.(settings := settings), {})
  {
    OthersIrrelevant(st, st.(settings := settings));
    HidesNothing(st, st.(settings := settings));
  }

  lemma EveryStepExact(env: Env, st: State, op: Op)
    requires CleanEnv(env) && Named(op) && Headroom(st, op) && Steady(st)
    ensures Exact(st, Step(env, st, op), Hidden(st, op))
  {
    match op
    case RegisterOp(req, pick, pick2) =>
      RegisterSteady(env, st, req, pick, pick2);
      HidesNothing(st, Step(env, st, op));
    case RegisterWithIDOp(req, pick) =>
      RegisterWithIDSteady(env, st, req, pick);
      HidesNothing(st, Step(env, st, op));
    case ImportOp(reqs) =>
      ImportSchemasSteady(env, st, reqs);
      HidesNothing(st, Step(env, st, op));
    case DeleteSubjectOp(subject, permanent) =>
      var (after, result) := DeleteSubject(st, subject, permanent);
      DeleteSubjectStep(st, subject, permanent, result.Ok?, after);
    case DeleteVersionOp(subject, version, permanent) =>
      var (after, result) := DeleteVersion(st, subject, version, permanent);
      DeleteVersionStep(st, subject, version, permanent, result, after);
    case SetConfigOp(_, _) => SettingsStep(st, Step(env, st, op).settings);
    case ClearConfigOp(_) => SettingsStep(st, Step(env, st, op).settings);
  }

  ghost predicate NamedRun(env: Env, ops: seq<Op>) {
    forall i | 0 <= i < |ops| :: Named(ops[i]) && Headroom(After(env, ops[..i]), ops[i])
  }

  lemma NamedPrefix(env: Env, ops: seq<Op>)
    requires NamedRun(env, ops) && ops != []
    ensures NamedRun(env, ops[..|ops| - 1])
    ensures Named(ops[|ops| - 1]) && Headroom(After(env, ops[..|ops| - 1]), ops[|ops| - 1])
  {
    var n := |ops| - 1;
    forall i | 0 <= i < n
      ensures Named(ops[..n][i]) && Headroom(After(env, ops[..n][..i]), ops[..n][i])
    {
      assert ops[..n][..i] == ops[..i];
      assert Named(ops[i]);
    }
    assert Named(ops[n]);
  }

  lemma {:induction false} RunsAreSteady(env: Env, ops: seq<Op>)
    requires CleanEnv(env) && NamedRun(env, ops)
    ensures Steady(After(env, ops))
  {
    if ops == [] {
      EmptyIsSound();
    } else {
      NamedPrefix(env, ops);
      RunsAreSteady(env, ops[..|ops| - 1]);
      EveryStepExact(env, After(env, ops[..|ops| - 1]), ops[|ops| - 1]);
    }
  }

  /** At all times along the run the references of all live schemas resolve. */
  ghost predicate AlwaysResolves(env: Env, ops: seq<Op>) {
    AllResolve(After(env, ops)) && (ops != [] ==> AlwaysResolves(env, ops[..|ops| - 1]))
  }

  /** No deletion takes the last live version of a subject that a remaining live schema refers to as the latest. */
  ghost predicate NothingLeftBehind(env: Env, ops: seq<Op>) {
    ops != [] ==>
      var init, st := ops[..|ops| - 1], After(env, ops[..|ops| - 1]);
      NothingLeftBehind(env, init) && !LeavesBehind(LiveView(st), Hidden(st, ops[|ops| - 1]))
  }

  /**
    * Over every run, with references to explicit versions and to the latest: the references of all live schemas resolve
    * at all times if and only if no deletion leaves a reference to the latest behind.
    */
  lemma {:induction false} LatestReferencesResolve(env: Env, ops: seq<Op>)
    requires CleanEnv(env) && NamedRun(env, ops)
    ensures AlwaysResolves(env, ops) <==> NothingLeftBehind(env, ops)
  {
    if ops == [] {
      assert AllResolve(EMPTY);
    } else {
      var init, op := ops[..|ops| - 1], ops[|ops| - 1];
      NamedPrefix(env, ops);
      LatestReferencesResolve(env, init);
      RunsAreSteady(env, init);
      NextResolves(env, init, op, After(env, init), After(env, ops));
    }
  }

  lemma NextResolves(env: Env, init: seq<Op>, op: Op, st: State, after: State)
    requires CleanEnv(env) && Named(op) && Headroom(st, op) && Steady(st) && st == After(env, init) && after == Step(env, st, op)
    ensures AlwaysResolves(env, init) ==> (AllResolve(after) <==> !LeavesBehind(LiveView(st), Hidden(st, op)))
  {
    EveryStepExact(env, st, op);
  }

  // ----- a run that leaves a reference behind

  /** A request without metadata, rule set and normalization whose text parses with these references resolved. */
  predicate ParsesWith(env: Env, req: Request, resolved: seq<Resolved>) {
    && req.metadata == None && req.ruleSet == None && !req.normalize && TypeOrAvro(req.schemaType) in env.parsers
    && env.parsers[TypeOrAvro(req.schemaType)](req.schema, resolved).Some?
  }

  /** `b` refers to the latest version of `a`'s subject, and both parse. */
  predicate RefersToLatest(env: Env, a: Request, b: Request) {
    && a.references == [] && |b.references| == 1 && Target(b.references[0]) == SubjectVersion(a.subject, -1)
    && NulFreeRefs(b.references) && a.subject != b.subject
    && ParsesWith(env, a, []) && ParsesWith(env, b, [Resolved(b.references[0], a.schema)])
  }

  /** The first version of a subject goes in when nothing is configured. */
  lemma FirstGoesIn(env: Env, st: State, req: Request, resolved: seq<Resolved>) returns (record: Record)
    requires CleanEnv(env) && Steady(st) && st.nextID < MAX_INT64 && st.settings == EMPTY.settings
    requires forall k | k in st.versions :: k.subject != req.subject
    requires Resolve(LookupGraph(st), req.references).Done? && Resolve(LookupGraph(st), req.references).resolved == resolved
    requires ParsesWith(env, req, resolved) && NulFreeRefs(req.references)
    ensures Register(env, st, req, 0, 0).0 == AfterCreate(st, record).0 && AfterCreate(st, record).1.Ok?
    ensures record.subject == req.subject && record.schema == req.schema && record.references == req.references
    ensures PrintOk(ContentFrom(record))
  {
    assert LiveNumbers(st, req.subject) == {};
    var c := Prepare(env, st, req).candidate;
    assert c.request == req && c.schema == req.schema;
    record := RecordFor(env, st, c);
    PreparedIsAcceptable(env, st, req);
    FailingRuns.FirstGatePasses(env, st, c);
    FailingRuns.NoneLive(st, req.subject);
    FailingRuns.NotDuplicate(st, record);
  }

  lemma ResolveOne(g: Graph, r: Reference)
    requires Target(r) in g && g[Target(r)].references == []
    ensures Resolve(g, [r]) == Done({Target(r)}, [Resolved(r, g[Target(r)].schema)])
  {
    var seen, list: seq<Resolved> := {Target(r)}, [Resolved(r, g[Target(r)].schema)];
    assert {} + {Target(r)} == seen && [] + list == list && [r][1..] == [];
    assert Visit(g, [], seen, []) == Done(seen, []) && Visit(g, [], seen, list) == Done(seen, list);
  }

  /** Only `a` is stored. */
  ghost predicate OnlyA(st: State, a: Request) {
    var k := SubjectVersion(a.subject, 1);
    && st.versions.Keys == {k} && st.settings == EMPTY.settings && st.nextID < 10 && NextVersion(st, a.subject) == 1
    && LiveView(st).Keys == {k} && LiveView(st)[k].content.schema == a.schema && LiveView(st)[k].content.references == []
  }

  lemma StoreA(record: Record, a: Request, b: Request)
    requires a.subject != b.subject
    requires AfterCreate(EMPTY, record).1.Ok? && record.subject == a.subject && record.schema == a.schema && record.references == []
    ensures OnlyA(AfterCreate(EMPTY, record).0, a) && NextVersion(AfterCreate(EMPTY, record).0, b.subject) == 0
  {
  }

  lemma LatestOfA(st: State, a: Request, r: Reference)
    requires WellFormed(st) && OnlyA(st, a) && Target(r) == SubjectVersion(a.subject, -1)
    ensures Resolve(LookupGraph(st), [r]) == Done({Target(r)}, [Resolved(r, a.schema)])
  {
    var k := SubjectVersion(a.subject, 1);
    KnownExact(st, Target(r));
    assert k in LiveView(st);
    LookupGraphExact(st, Target(r));
    var v := Lookup(st, Target(r)).value;
    LatestIsLive(st, a.subject, v);
    assert SubjectVersion(a.subject, v) in LiveView(st);
    ResolveOne(LookupGraph(st), r);
  }

  lemma LatestIsLive(st: State, subject: string, v: int)
    requires Latest(st, subject) == Some(v)
    ensures IsLive(st, SubjectVersion(subject, v))
  {
    AscendingSorts(LiveNumbers(st, subject));
    assert v in LiveVersions(st, subject);
  }

  /** `a` and `b` are stored, and `b` refers to the latest version of `a`'s subject. */
  ghost predicate AAndB(st: State, a: Request, b: Request) {
    var k, n := SubjectVersion(a.subject, 1), SubjectVersion(b.subject, 1);
    && LiveView(st).Keys == {k, n} && Targets(LiveView(st)[k].content.references) == {}
    && Targets(LiveView(st)[n].content.references) == {SubjectVersion(a.subject, -1)}
  }

  lemma FirstGrows(st: State, record: Record) returns (c: Content)
    requires Steady(st) && AfterCreate(st, record).1.Ok? && NextVersion(st, record.subject) == 0
    ensures Grown(st, AfterCreate(st, record).0, record, SubjectVersion(record.subject, 1), c)
  {
    c := CreateGrows(st, record);
  }

  lemma StoreB(st: State, after: State, record: Record, a: Request, b: Request, c: Content)
    requires PrintsOk(st) && OnlyA(st, a) && PrintOk(ContentFrom(record))
    requires Grown(st, after, record, SubjectVersion(b.subject, 1), c) && a.subject != b.subject
    requires |record.references| == 1 && Target(record.references[0]) == SubjectVersion(a.subject, -1)
    ensures AAndB(after, a, b)
  {
    GrownTargets(st, after, record, SubjectVersion(b.subject, 1), c);
    OneTarget(record.references);
    BJoins(st, after, a, b, Shown(c, record.metadata, record.ruleSet));
  }

  lemma GrownTargets(st: State, after: State, record: Record, k: SubjectVersion, c: Content)
    requires PrintsOk(st) && PrintOk(ContentFrom(record)) && Grown(st, after, record, k, c)
    ensures Targets(c.references) == Targets(record.references)
  {
    GrowPrints(st, after, record, k, c);
    SamePrintSameTargets(c, ContentFrom(record));
  }

  lemma OneTarget(refs: seq<Reference>)
    requires |refs| == 1
    ensures Targets(refs) == {Target(refs[0])}
  {
  }

  lemma BJoins(st: State, after: State, a: Request, b: Request, shown: Shown)
    requires OnlyA(st, a) && LiveView(after) == LiveView(st)[SubjectVersion(b.subject, 1) := shown] && a.subject != b.subject
    requires Targets(shown.content.references) == {SubjectVersion(a.subject, -1)}
    ensures AAndB(after, a, b)
  {
  }

  /** Deleting `a` goes through, and `b` is left behind. */
  lemma DeleteA(st: State, a: Request, b: Request, after: State)
    requires WellFormed(st) && AAndB(st, a, b) && a.subject != b.subject && after == DeleteVersion(st, a.subject, 1, false).0
    ensures Broken(after, SubjectVersion(b.subject, 1))
  {
    var k, n := SubjectVersion(a.subject, 1), SubjectVersion(b.subject, 1);
    AUnreferenced(st, a, b);
    SoftDeleted(st, k);
    SoftDeleteHides(st, {k});
    SoftDeleteKeepsWellFormed(st, {k});
    OnlyBLeft(LiveView(st), LiveView(after), a, b);
    assert IsLive(after, n) && LiveView(after)[n].content == ContentOf(after, n);
    UnknownBreaks(after, n, SubjectVersion(a.subject, -1));
  }

  lemma AUnreferenced(st: State, a: Request, b: Request)
    requires AAndB(st, a, b) && a.subject != b.subject
    ensures IsLive(st, SubjectVersion(a.subject, 1)) && ReferencedBy(st, SubjectVersion(a.subject, 1)) == {}
  {
    assert forall j | IsLive(st, j) :: j in LiveView(st);
    assert SubjectVersion(a.subject, 1) in LiveView(st);
  }

  lemma OnlyBLeft(v: View, w: View, a: Request, b: Request)
    requires a.subject != b.subject && v.Keys == {SubjectVersion(a.subject, 1), SubjectVersion(b.subject, 1)}
    requires w == v - {SubjectVersion(a.subject, 1)}
    ensures w.Keys == {SubjectVersion(b.subject, 1)} && w[SubjectVersion(b.subject, 1)] == v[SubjectVersion(b.subject, 1)]
    ensures !Known(w, SubjectVersion(a.subject, -1))
  {
  }

  lemma NothingYet()
    ensures Steady(EMPTY) && Resolve(LookupGraph(EMPTY), []) == Done({}, [])
  {
    EmptyIsSound();
  }

  lemma StoreFirst(env: Env, a: Request, b: Request) returns (one: State)
    requires CleanEnv(env) && RefersToLatest(env, a, b)
    ensures one == Step(env, EMPTY, RegisterOp(a, 0, 0)) && Steady(one) && OnlyA(one, a)
    ensures NextVersion(one, b.subject) == 0
  {
    NothingYet();
    var first := FirstGoesIn(env, EMPTY, a, []);
    RegisterSteady(env, EMPTY, a, 0, 0);
    StoreA(first, a, b);
    one := Register(env, EMPTY, a, 0, 0).0;
  }

  lemma StoreSecond(env: Env, one: State, a: Request, b: Request) returns (two: State)
    requires CleanEnv(env) && RefersToLatest(env, a, b)
    requires Steady(one) && OnlyA(one, a) && NextVersion(one, b.subject) == 0
    ensures two == Step(env, one, RegisterOp(b, 0, 0)) && WellFormed(two) && AAndB(two, a, b)
    ensures Reads(two, SubjectVersion(b.subject, 1))
  {
    assert b.references == [b.references[0]];
    LatestOfA(one, a, b.references[0]);
    var second := FirstGoesIn(env, one, b, [Resolved(b.references[0], a.schema)]);
    RegisterSteady(env, one, b, 0, 0);
    two := Register(env, one, b, 0, 0).0;
    var c := FirstGrows(one, second);
    StoreB(one, two, second, a, b, c);
    BReads(two, a, b);
  }

  lemma BReads(st: State, a: Request, b: Request)
    requires WellFormed(st) && AAndB(st, a, b)
    ensures Reads(st, SubjectVersion(b.subject, 1))
  {
    assert SubjectVersion(a.subject, 1) in LiveView(st) && SubjectVersion(b.subject, 1) in LiveView(st);
    assert TargetsKnown(LiveView(st));
    AllResolveExact(st);
  }

  /**
    * Why explicit versions are required for integrity: register `a`, register `b` with a reference to the latest version of
    * `a`'s subject, soft-delete `a`. No guard objects, and from then on the references of `b` do not resolve.
    */
  lemma LatestTargetDeleted(env: Env, a: Request, b: Request) returns (both: State, after: State)
    requires CleanEnv(env) && RefersToLatest(env, a, b)
    ensures both == After(env, [RegisterOp(a, 0, 0), RegisterOp(b, 0, 0)])
    ensures after == After(env, [RegisterOp(a, 0, 0), RegisterOp(b, 0, 0), DeleteVersionOp(a.subject, 1, false)])
    ensures Reads(both, SubjectVersion(b.subject, 1)) && Broken(after, SubjectVersion(b.subject, 1))
  {
    var one: State;
    one, both := StoreBoth(env, a, b);
    after := DeleteVersion(both, a.subject, 1, false).0;
    DeleteA(both, a, b, after);
    StepDeletes(env, both, a.subject);
    ThreeSteps(env, RegisterOp(a, 0, 0), RegisterOp(b, 0, 0), DeleteVersionOp(a.subject, 1, false), one, both, after);
  }

  lemma StoreBoth(env: Env, a: Request, b: Request) returns (one: State, both: State)
    requires CleanEnv(env) && RefersToLatest(env, a, b)
    ensures one == Step(env, EMPTY, RegisterOp(a, 0, 0)) && both == Step(env, one, RegisterOp(b, 0, 0))
    ensures WellFormed(both) && AAndB(both, a, b) && Reads(both, SubjectVersion(b.subject, 1))
  {
    one := StoreFirst(env, a, b);
    both := StoreSecond(env, one, a, b);
  }

  lemma StepDeletes(env: Env, st: State, subject: string)
    ensures Step(env, st, DeleteVersionOp(subject, 1, false)) == DeleteVersion(st, subject, 1, false).0
  {
  }

  lemma ThreeSteps(env: Env, x: Op, y: Op, z: Op, one: State, two: State, three: State)
    requires one == Step(env, EMPTY, x) && two == Step(env, one, y) && three == Step(env, two, z)
    ensures After(env, [x, y]) == two && After(env, [x, y, z]) == three
  {
    assert [x, y, z][..2] == [x, y] && [x, y][..1] == [x] && [x][..0] == [];
    assert After(env, [x]) == one;
  }
}
