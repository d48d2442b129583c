/** What the compatibility gate and the reserved-field gate guarantee about a subject over whole runs. */
module History {
  import opened Options
  import opened Fingerprints
  import opened Resolver
  import opened Metadatas
  import opened Compatibility
  import opened Storage
  import opened Registry
  import opened Integrity

  // ----- stored forms do not drift

  ghost predicate SubView(v: View, w: View) {
    forall k | k in v :: k in w && w[k] == v[k]
  }

  /** A live schema with its resolved references reads the same in any two states where one shows
      everything live in the other: nothing it depends on can be replaced while it is live. */
  lemma FormStable(a: State, b: State, k: SubjectVersion)
    requires Sound(a) && Sound(b) && SubView(LiveView(a), LiveView(b)) && IsLive(a, k)
    ensures IsLive(b, k) && LiveView(a)[k] == LiveView(b)[k]
    ensures StoredForm(a, k) == StoredForm(b, k) && StoredForm(a, k).Some?
  {
    var refs := ContentOf(a, k).references;
    assert k in LiveView(a) && ContentOf(b, k) == ContentOf(a, k);
    LiveReferencesResolve(a, k);
    ResolutionStable(a, b, refs);
  }

  lemma LiveLookupsAgree(a: State, b: State, keys: set<SubjectVersion>)
    requires WellFormed(a) && WellFormed(b) && SubView(LiveView(a), LiveView(b)) && keys <= LiveView(a).Keys
    ensures AgreeOn(LookupGraph(a), LookupGraph(b), keys)
  {
    forall j | j in keys
      ensures j in LookupGraph(a) && j in LookupGraph(b) && LookupGraph(a)[j] == LookupGraph(b)[j]
    {
      assert j in LiveView(a) && j in LiveView(b);
      LiveLookup(a, j);
      LiveLookup(b, j);
    }
  }

  lemma ResolutionStable(a: State, b: State, refs: seq<Reference>)
    requires WellFormed(a) && WellFormed(b) && SubView(LiveView(a), LiveView(b))
    requires Resolve(LookupGraph(a), refs).Done? && Resolve(LookupGraph(a), refs).seen <= LiveView(a).Keys
    ensures Resolve(LookupGraph(b), refs) == Resolve(LookupGraph(a), refs)
  {
    LiveLookupsAgree(a, b, Resolve(LookupGraph(a), refs).seen);
    SameResolution(LookupGraph(a), LookupGraph(b), refs);
  }

  lemma SameResolution(g: Graph, h: Graph, refs: seq<Reference>)
    requires Resolve(g, refs).Done? && AgreeOn(g, h, Resolve(g, refs).seen)
    ensures Resolve(h, refs) == Resolve(g, refs)
  {
    assert Resolve(g, refs).seen - {} == Resolve(g, refs).seen;
    VisitStable(g, h, refs, {}, []);
  }

  // ----- what each operation does to the live schemas

  /** The subjects an operation can add live versions to. */
  predicate AddsTo(op: Op, subject: string) {
    match op
    case RegisterOp(req, _, _) => req.subject == subject
    case RegisterWithIDOp(req, _) => req.subject == subject
    case ImportOp(reqs) => exists r | r in reqs :: r.subject == subject
    case _ => false
  }

  /** `after` shows more than `st`, and nothing new for `subject`; or it shows less. */
  ghost predicate OnlyElsewhere(st: State, after: State, subject: string) {
    || (SubView(LiveView(st), LiveView(after)) &&
        forall k | k in LiveView(after) && k.subject == subject :: k in LiveView(st))
    || SubView(LiveView(after), LiveView(st))
  }

  lemma RegisterElsewhere(env: Env, st: State, req: Request, pick: int, pick2: int, subject: string)
    requires Sound(st) && IdsBelow(st) && req.subject != subject
    ensures OnlyElsewhere(st, Register(env, st, req, pick, pick2).0, subject)
  {
    RegisterEffect(env, st, req, pick, pick2);
    if Register(env, st, req, pick, pick2).1.Registered? {
      CreateShows(st, RecordFor(env, st, Prepare(env, st, req).candidate));
    }
  }

  lemma CreateShows(st: State, record: Record)
    requires WellFormed(st) && (record.fingerprint in st.fingerprints || st.nextID !in st.schemas)
    ensures var after := AfterCreate(st, record).0;
            SubView(LiveView(st), LiveView(after)) &&
            forall k | k in LiveView(after) && k.subject != record.subject :: k in LiveView(st)
  {
    if AfterCreate(st, record).1.Ok? {
      var content := CreateGrows(st, record);
    }
  }

  lemma ImportShows(st: State, record: Record)
    requires WellFormed(st)
    ensures var after := AfterImport(st, record).0;
            SubView(LiveView(st), LiveView(after)) &&
            forall k | k in LiveView(after) && k.subject != record.subject :: k in LiveView(st)
  {
    if AfterImport(st, record).1.Ok? {
      var content := ImportGrows(st, record);
    }
  }

  lemma RegisterWithIDElsewhere(env: Env, st: State, req: IDRequest, pick: int, subject: string)
    requires WellFormed(st) && req.subject != subject
    ensures OnlyElsewhere(st, RegisterWithID(env, st, req, pick).0, subject)
  {
    if RegisterWithID(env, st, req, pick).1.Registered? {
      var record := ImportRecord(req, AssignedVersion(st, req.subject, req.version), PrepareImport(env, st, req).fingerprint);
      ImportShows(st, record);
      var after := AfterImport(st, record).0;
      SameLiveView(after, RegisterWithID(env, st, req, pick).0);
    } else {
      RegisterWithIDNoEffect(env, st, req, pick);
    }
  }

  lemma ImportOneElsewhere(env: Env, st: State, req: IDRequest)
    requires WellFormed(st)
    ensures var after := ImportOne(env, st, req).0;
            SubView(LiveView(st), LiveView(after)) &&
            forall k | k in LiveView(after) && k.subject != req.subject :: k in LiveView(st)
  {
    var record := ImportOneEffect(env, st, req);
    ImportShows(st, record);
  }

  lemma ImportOneEffect(env: Env, st: State, req: IDRequest) returns (record: Record)
    ensures record.subject == req.subject
    ensures ImportOne(env, st, req).0 == st || ImportOne(env, st, req).0 == AfterImport(st, record).0
  {
    var p := PrepareImport(env, st, req);
    record := ImportRecord(req, req.version, if p.ImportReady? then p.fingerprint else Bare(""));
  }

  lemma {:induction false} ImportLoopElsewhere(env: Env, st: State, reqs: seq<IDRequest>, subject: string)
    requires CleanEnv(env) && Sound(st) && forall r | r in reqs :: PlainRefs(r.references) && r.subject != subject
    ensures var after := ImportLoop(env, st, reqs).state;
            SubView(LiveView(st), LiveView(after)) &&
            forall k | k in LiveView(after) && k.subject == subject :: k in LiveView(st)
  {
    if reqs != [] {
      var n := |reqs| - 1;
      ImportLoopElsewhere(env, st, reqs[..n], subject);
      ImportLoopIsSound(env, st, reqs[..n]);
      ImportOneElsewhere(env, ImportLoop(env, st, reqs[..n]).state, reqs[n]);
    }
  }

  lemma ImportElsewhere(env: Env, st: State, reqs: seq<IDRequest>, subject: string)
    requires CleanEnv(env) && Sound(st) && forall r | r in reqs :: PlainRefs(r.references) && r.subject != subject
    ensures OnlyElsewhere(st, ImportSchemas(env, st, reqs).0, subject)
  {
    ImportLoopElsewhere(env, st, reqs, subject);
    var b := ImportLoop(env, st, reqs);
    SameLiveView(b.state, ImportSchemas(env, st, reqs).0);
  }

  lemma DeleteSubjectShrinks(st: State, subject: string, permanent: bool)
    requires WellFormed(st)
    ensures SubView(LiveView(DeleteSubject(st, subject, permanent).0), LiveView(st))
  {
    var all := Subject(st, subject);
    var (after, result) := DeleteSubject(st, subject, permanent);
    if result.Ok? {
      ShrinksBy(st, all, permanent);
      if permanent {
        SameLiveView(Remove(st, all), after);
      }
    }
  }

  lemma DeleteVersionShrinks(st: State, subject: string, version: int, permanent: bool)
    requires WellFormed(st)
    ensures SubView(LiveView(DeleteVersion(st, subject, version, permanent).0), LiveView(st))
  {
    DeleteVersionIs(st, subject, version, permanent);
    var (after, result) := DeleteVersion(st, subject, version, permanent);
    if result.Ok? {
      ShrinksBy(st, {SubjectVersion(subject, result.value)}, permanent);
    }
  }

  /** Removing soft-deleted versions keeps what is visible; soft-deleting takes some of it away. */
  lemma ShrinksBy(st: State, keys: set<SubjectVersion>, permanent: bool)
    requires WellFormed(st) && keys <= st.versions.Keys
    requires permanent ==> forall k | k in keys :: st.versions[k].deleted
    ensures SubView(LiveView(if permanent then Remove(st, keys) else SoftDelete(st, keys)), LiveView(st))
  {
    if permanent {
      RemoveKeepsLiveView(st, keys);
    } else {
      SoftDeleteHides(st, keys);
    }
  }

  lemma StepElsewhere(env: Env, st: State, op: Op, subject: string)
    requires CleanEnv(env) && Plain(op) && Sound(st) && IdsBelow(st) && !AddsTo(op, subject)
    ensures OnlyElsewhere(st, Step(env, st, op), subject)
  {
    match op
    case RegisterOp(req, pick, pick2) => RegisterElsewhere(env, st, req, pick, pick2, subject);
    case RegisterWithIDOp(req, pick) => RegisterWithIDElsewhere(env, st, req, pick, subject);
    case ImportOp(reqs) => ImportElsewhere(env, st, reqs, subject);
    case DeleteSubjectOp(s, permanent) => DeleteSubjectShrinks(st, s, permanent);
    case DeleteVersionOp(s, version, permanent) => DeleteVersionShrinks(st, s, version, permanent);
    case SetConfigOp(_, _) => SameLiveView(st, Step(env, st, op));
    case ClearConfigOp(_) => SameLiveView(st, Step(env, st, op));
  }

  /** An operation that does not add to a subject leaves its remaining live versions as they were. */
  lemma ElsewhereKeepsForms(st: State, after: State, subject: string, k: SubjectVersion)
    requires Sound(st) && Sound(after) && OnlyElsewhere(st, after, subject)
    requires k.subject == subject && IsLive(after, k)
    ensures IsLive(st, k) && LiveView(st)[k] == LiveView(after)[k]
    ensures StoredForm(st, k) == StoredForm(after, k) && StoredForm(st, k).Some?
  {
    assert k in LiveView(after);
    assert k in LiveView(st);
    if SubView(LiveView(st), LiveView(after)) {
      FormStable(st, after, k);
    } else {
      FormStable(after, st, k);
    }
  }

  // ----- registering in the subject

  /** The content a stored candidate is bound to. */
  function BoundContent(env: Env, st: State, c: Candidate): Content {
    if c.fingerprint in st.fingerprints && st.fingerprints[c.fingerprint] in st.schemas
    then st.schemas[st.fingerprints[c.fingerprint]]
    else ContentFrom(RecordFor(env, st, c))
  }

  /** What is visible of the version that storing the candidate adds. */
  function NewVersion(env: Env, st: State, c: Candidate): Shown {
    var record := RecordFor(env, st, c);
    Shown(BoundContent(env, st, c), record.metadata, record.ruleSet)
  }

  function FormOf(st: State, d: Content): SchemaWithRefs {
    match Resolve(LookupGraph(st), d.references)
    case Done(_, resolved) => SchemaWithRefs(d.schema, resolved)
    case Missing(_) => SchemaWithRefs(d.schema, [])
  }

  /** One version more, above all others of the subject, bound to the candidate's content, and that
      content reads in the new state as it would have read before. */
  ghost predicate Extended(env: Env, st: State, after: State, c: Candidate, n: int) {
    var k := SubjectVersion(c.request.subject, n);
    && k !in LiveView(st) && SubView(LiveView(st), LiveView(after))
    && LiveView(after) == LiveView(st)[k := NewVersion(env, st, c)]
    && (forall j | IsLive(st, j) && j.subject == c.request.subject :: j.version < n)
    && IsLive(after, k) && StoredForm(after, k) == Some(FormOf(st, BoundContent(env, st, c)))
  }

  lemma CreateShowsBound(env: Env, st: State, c: Candidate)
    requires WellFormed(st) && st.nextID !in st.schemas && AfterCreate(st, RecordFor(env, st, c)).1.Ok?
    ensures var record := RecordFor(env, st, c);
            var (after, result) := AfterCreate(st, record);
            var k := SubjectVersion(c.request.subject, result.value.version);
            && k !in LiveView(st)
            && LiveView(after) == LiveView(st)[k := NewVersion(env, st, c)]
            && (forall j | IsLive(st, j) && j.subject == c.request.subject :: j.version < k.version)
  {
    var record := RecordFor(env, st, c);
    var content := CreateGrows(st, record);
    assert record.fingerprint in st.fingerprints ==> FingerprintOk(st, record.fingerprint);
    assert content == BoundContent(env, st, c);
    forall j | IsLive(st, j) && j.subject == c.request.subject
      ensures j.version < AfterCreate(st, record).1.value.version
    {
      assert VersionOk(st, j);
    }
  }

  lemma CreateExtends(env: Env, st: State, c: Candidate)
    requires Sound(st) && IdsBelow(st) && Admitted(LiveView(st), RecordFor(env, st, c))
    requires AfterCreate(st, RecordFor(env, st, c)).1.Ok?
    ensures var (after, result) := AfterCreate(st, RecordFor(env, st, c));
            Sound(after) && Extended(env, st, after, c, result.value.version)
  {
    var record := RecordFor(env, st, c);
    CreateIsSound(st, record);
    CreateShowsBound(env, st, c);
    BoundTargetsLive(env, st, c);
    ShownReads(env, st, AfterCreate(st, record).0, c, AfterCreate(st, record).1.value.version);
  }

  lemma ShownReads(env: Env, st: State, after: State, c: Candidate, n: int)
    requires WellFormed(st) && WellFormed(after)
    requires var refs := BoundContent(env, st, c).references;
             Resolve(LookupGraph(st), refs).Done? && Resolve(LookupGraph(st), refs).seen <= LiveView(st).Keys
    requires var k := SubjectVersion(c.request.subject, n);
             && k !in LiveView(st)
             && LiveView(after) == LiveView(st)[k := NewVersion(env, st, c)]
    requires forall j | IsLive(st, j) && j.subject == c.request.subject :: j.version < n
    ensures Extended(env, st, after, c, n)
  {
    var d := BoundContent(env, st, c);
    AddedReads(st, after, SubjectVersion(c.request.subject, n), d, NewVersion(env, st, c));
  }

  lemma AddedReads(st: State, after: State, k: SubjectVersion, d: Content, shown: Shown)
    requires WellFormed(st) && WellFormed(after) && k !in LiveView(st)
    requires LiveView(after) == LiveView(st)[k := shown] && shown.content == d
    requires Resolve(LookupGraph(st), d.references).Done? && Resolve(LookupGraph(st), d.references).seen <= LiveView(st).Keys
    ensures SubView(LiveView(st), LiveView(after)) && IsLive(after, k) && StoredForm(after, k) == Some(FormOf(st, d))
  {
    NewForm(st, after, k, d);
  }

  lemma NewForm(st: State, after: State, k: SubjectVersion, d: Content)
    requires WellFormed(st) && WellFormed(after) && SubView(LiveView(st), LiveView(after))
    requires k in LiveView(after) && LiveView(after)[k].content == d
    requires Resolve(LookupGraph(st), d.references).Done? && Resolve(LookupGraph(st), d.references).seen <= LiveView(st).Keys
    ensures IsLive(after, k) && StoredForm(after, k) == Some(FormOf(st, d))
  {
    ResolutionStable(st, after, d.references);
  }

  lemma BoundTargetsLive(env: Env, st: State, c: Candidate)
    requires Sound(st) && Admitted(LiveView(st), RecordFor(env, st, c))
    ensures var refs := BoundContent(env, st, c).references;
            Resolve(LookupGraph(st), refs).Done? && Resolve(LookupGraph(st), refs).seen <= LiveView(st).Keys
  {
    assert c.fingerprint in st.fingerprints ==> FingerprintOk(st, c.fingerprint);
    BoundTargets(env, st, c);
    LiveKeysClosed(st);
    ClosedResolves(LookupGraph(st), LiveView(st).Keys, BoundContent(env, st, c).references);
  }

  lemma BoundTargets(env: Env, st: State, c: Candidate)
    requires PrintsOk(st) && Admitted(LiveView(st), RecordFor(env, st, c))
    requires c.fingerprint in st.fingerprints ==> FingerprintOk(st, c.fingerprint)
    ensures Targets(BoundContent(env, st, c).references) <= LiveView(st).Keys
  {
    if c.fingerprint in st.fingerprints {
      var id := st.fingerprints[c.fingerprint];
      assert FingerprintOk(st, c.fingerprint) && id in st.schemas;
      assert PrintOk(st.schemas[id]);
      SamePrintSameTargets(BoundContent(env, st, c), ContentFrom(RecordFor(env, st, c)));
    }
  }

  // ----- transitive compatibility

  /** The checker of the type accepts the pair in the directions of the mode. */
  predicate Judges(env: Env, ty: string, mode: Mode, new_: SchemaWithRefs, old_: SchemaWithRefs) {
    && ty in env.checkers
    && (mode.RequiresBackward() ==> env.checkers[ty](new_, old_).compatible)
    && (mode.RequiresForward() ==> env.checkers[ty](old_, new_).compatible)
  }

  /** The gate lets the pair pass: in the directions of the mode the checker accepts or says nothing. */
  predicate Admits(env: Env, ty: string, mode: Mode, new_: SchemaWithRefs, old_: SchemaWithRefs) {
    ty in env.checkers && PairAccepted(env.checkers[ty], mode, new_, old_)
  }

  ghost predicate CompatiblePair(env: Env, st: State, subject: string, mode: Mode, v: int, w: int)
    requires IsLive(st, SubjectVersion(subject, v)) && IsLive(st, SubjectVersion(subject, w))
  {
    var old_, new_ := StoredForm(st, SubjectVersion(subject, v)), StoredForm(st, SubjectVersion(subject, w));
    && old_.Some? && new_.Some?
    && Judges(env, ContentOf(st, SubjectVersion(subject, w)).schemaType, mode, new_.value, old_.value)
  }

  /** Every live version is compatible, in the directions of the mode, with every earlier live version. */
  ghost predicate PairwiseCompatible(env: Env, st: State, subject: string, mode: Mode) {
    forall v, w | v < w && IsLive(st, SubjectVersion(subject, v)) && IsLive(st, SubjectVersion(subject, w)) ::
      CompatiblePair(env, st, subject, mode, v, w)
  }

  /** What the gate admits of the candidate holds of the text that it would be bound to. */
  ghost predicate CarriesOver(env: Env, st: State, c: Candidate, mode: Mode) {
    forall v | IsLive(st, SubjectVersion(c.request.subject, v)) && StoredForm(st, SubjectVersion(c.request.subject, v)).Some? ::
      BoundCarries(env, st, c, mode, StoredForm(st, SubjectVersion(c.request.subject, v)).value)
  }

  predicate BoundCarries(env: Env, st: State, c: Candidate, mode: Mode, old_: SchemaWithRefs) {
    var d := BoundContent(env, st, c);
    Admits(env, c.schemaType, mode, SchemaWithRefs(c.schema, c.resolved), old_) ==>
      Judges(env, d.schemaType, mode, FormOf(st, d), old_)
  }

  predicate Ungrouped(env: Env, st: State, subject: string, mode: Mode) {
    && EffectiveConfig(env, st, subject).level == mode
    && (subject in st.settings.subjects ==> st.settings.subjects[subject].compatibilityGroup == "")
  }

  /** Registrations in the subject happen under the mode, without a compatibility group; nothing is imported into it. */
  ghost predicate Governed(env: Env, st: State, op: Op, subject: string, mode: Mode) {
    AddsTo(op, subject) ==>
      && op.RegisterOp?
      && Ungrouped(env, st, subject, mode)
  }

  /** The operation does not register a candidate in the subject whose bound text would be judged otherwise. */
  ghost predicate OpCarriesOver(env: Env, st: State, op: Op, subject: string, mode: Mode) {
    AddsTo(op, subject) && op.RegisterOp? && Prepare(env, st, op.request).Ready? ==>
      CarriesOver(env, st, Prepare(env, st, op.request).candidate, mode)
  }

  /** Without a group the gate compares with every live version. */
  lemma UngroupedHistory(env: Env, st: State, c: Candidate, mode: Mode)
    requires Ungrouped(env, st, c.request.subject, mode)
    ensures Registry.History(st, c) == LiveVersions(st, c.request.subject)
  {
  }

  /** The stored forms the gate compared with, and its verdict on them. */
  lemma GatePassed(env: Env, st: State, c: Candidate, mode: Mode) returns (existing: seq<SchemaWithRefs>)
    requires mode.IsTransitive() && CompatibilityGate(env, st, c) == None
    requires Ungrouped(env, st, c.request.subject, mode) && LiveVersions(st, c.request.subject) != []
    requires forall v | v in LiveVersions(st, c.request.subject) :: IsLive(st, SubjectVersion(c.request.subject, v))
    ensures var versions := LiveVersions(st, c.request.subject);
            |existing| == |versions|
            && forall i | 0 <= i < |versions| :: StoredForm(st, SubjectVersion(c.request.subject, versions[i])) == Some(existing[i])
    ensures CheckMessages(env.checkers, mode, c.schemaType, SchemaWithRefs(c.schema, c.resolved), existing) == []
  {
    var subject, versions := c.request.subject, LiveVersions(st, c.request.subject);
    UngroupedHistory(env, st, c, mode);
    existing := WithRefs(st, subject, versions).value;
    WithRefsExact(st, subject, versions);
  }

  lemma TransitiveVerdict(env: Env, c: Candidate, mode: Mode, existing: seq<SchemaWithRefs>, i: nat)
    requires mode.IsTransitive() && i < |existing|
    requires CheckMessages(env.checkers, mode, c.schemaType, SchemaWithRefs(c.schema, c.resolved), existing) == []
    ensures c.schemaType in env.checkers
    ensures PairAccepted(env.checkers[c.schemaType], mode, SchemaWithRefs(c.schema, c.resolved), existing[i])
  {
    CheckAccepts(env.checkers, mode, c.schemaType, SchemaWithRefs(c.schema, c.resolved), existing);
  }

  /** What a transitive mode's gate says about each live version of the subject. */
  lemma GateAccepts(env: Env, st: State, c: Candidate, mode: Mode, v: int)
    requires mode.IsTransitive() && CompatibilityGate(env, st, c) == None
    requires Ungrouped(env, st, c.request.subject, mode) && IsLive(st, SubjectVersion(c.request.subject, v))
    ensures StoredForm(st, SubjectVersion(c.request.subject, v)).Some? && c.schemaType in env.checkers
    ensures PairAccepted(env.checkers[c.schemaType], mode, SchemaWithRefs(c.schema, c.resolved),
              StoredForm(st, SubjectVersion(c.request.subject, v)).value)
  {
    var i := LiveIndex(st, c.request.subject, v);
    UngroupedHistory(env, st, c, mode);
    HistoryLive(st, c);
    var existing := GatePassed(env, st, c, mode);
    TransitiveVerdict(env, c, mode, existing, i);
  }

  lemma LiveIndex(st: State, subject: string, v: int) returns (i: nat)
    requires IsLive(st, SubjectVersion(subject, v))
    ensures i < |LiveVersions(st, subject)| && LiveVersions(st, subject)[i] == v
  {
    AscendingSorts(LiveNumbers(st, subject));
    assert v in LiveNumbers(st, subject);
    i :| 0 <= i < |LiveVersions(st, subject)| && LiveVersions(st, subject)[i] == v;
  }

  lemma RegisterKeepsPairwise(env: Env, st: State, op: Op, subject: string, mode: Mode)
    requires CleanEnv(env) && mode.IsTransitive() && OpCarriesOver(env, st, op, subject, mode)
    requires op.RegisterOp? && op.request.subject == subject && Plain(op) && Sound(st) && IdsBelow(st)
    requires Governed(env, st, op, subject, mode) && PairwiseCompatible(env, st, subject, mode)
    ensures PairwiseCompatible(env, Step(env, st, op), subject, mode)
  {
    if Register(env, st, op.request, op.pick, op.pick2).1.Registered? {
      RegisterStored(env, st, op.request, op.pick, op.pick2);
      PreparedIsAdmitted(env, st, op.request);
      CreateKeepsPairwise(env, st, Prepare(env, st, op.request).candidate, mode);
    } else {
      RegisterRefused(env, st, op.request, op.pick, op.pick2);
    }
  }

  lemma CreateKeepsPairwise(env: Env, st: State, c: Candidate, mode: Mode)
    requires mode.IsTransitive() && Sound(st) && IdsBelow(st) && Admitted(LiveView(st), RecordFor(env, st, c))
    requires AfterCreate(st, RecordFor(env, st, c)).1.Ok? && CompatibilityGate(env, st, c) == None
    requires CarriesOver(env, st, c, mode) && Ungrouped(env, st, c.request.subject, mode)
    requires PairwiseCompatible(env, st, c.request.subject, mode)
    ensures PairwiseCompatible(env, AfterCreate(st, RecordFor(env, st, c)).0, c.request.subject, mode)
  {
    var (after, result) := AfterCreate(st, RecordFor(env, st, c));
    var subject := c.request.subject;
    CreateExtends(env, st, c);
    forall v, w | v < w && IsLive(after, SubjectVersion(subject, v)) && IsLive(after, SubjectVersion(subject, w))
      ensures CompatiblePair(env, after, subject, mode, v, w)
    {
      PairAfter(env, st, after, c, mode, result.value.version, v, w);
    }
  }

  lemma PairAfter(env: Env, st: State, after: State, c: Candidate, mode: Mode, n: int, v: int, w: int)
    requires mode.IsTransitive() && Sound(st) && Sound(after) && Extended(env, st, after, c, n)
    requires CompatibilityGate(env, st, c) == None && CarriesOver(env, st, c, mode) && Ungrouped(env, st, c.request.subject, mode)
    requires PairwiseCompatible(env, st, c.request.subject, mode)
    requires v < w && IsLive(after, SubjectVersion(c.request.subject, v)) && IsLive(after, SubjectVersion(c.request.subject, w))
    ensures CompatiblePair(env, after, c.request.subject, mode, v, w)
  {
    var subject := c.request.subject;
    assert v != n by {
      assert w != n ==> SubjectVersion(subject, w) in LiveView(after);
    }
    OldForm(env, st, after, c, n, v);
    if w == n {
      NewPair(env, st, c, mode, v);
    } else {
      OldForm(env, st, after, c, n, w);
      assert CompatiblePair(env, st, subject, mode, v, w);
    }
  }

  /** A version that was there before the registration is there with the same content and form. */
  lemma OldForm(env: Env, st: State, after: State, c: Candidate, n: int, v: int)
    requires Sound(st) && Sound(after) && Extended(env, st, after, c, n)
    requires v != n && IsLive(after, SubjectVersion(c.request.subject, v))
    ensures var k := SubjectVersion(c.request.subject, v);
            && IsLive(st, k) && LiveView(st)[k] == LiveView(after)[k] && ContentOf(st, k) == ContentOf(after, k)
            && StoredForm(st, k) == StoredForm(after, k) && StoredForm(st, k).Some? && v < n
  {
    var k := SubjectVersion(c.request.subject, v);
    assert k in LiveView(after) && k in LiveView(st);
    FormStable(st, after, k);
  }

  lemma NewPair(env: Env, st: State, c: Candidate, mode: Mode, v: int)
    requires mode.IsTransitive() && Sound(st) && CompatibilityGate(env, st, c) == None
    requires CarriesOver(env, st, c, mode) && Ungrouped(env, st, c.request.subject, mode)
    requires IsLive(st, SubjectVersion(c.request.subject, v))
    ensures var old_ := StoredForm(st, SubjectVersion(c.request.subject, v));
            var d := BoundContent(env, st, c);
            old_.Some? && Judges(env, d.schemaType, mode, FormOf(st, d), old_.value)
  {
    GateAccepts(env, st, c, mode, v);
    assert BoundCarries(env, st, c, mode, StoredForm(st, SubjectVersion(c.request.subject, v)).value);
  }

  lemma StepKeepsPairwise(env: Env, st: State, op: Op, subject: string, mode: Mode)
    requires CleanEnv(env) && mode.IsTransitive() && OpCarriesOver(env, st, op, subject, mode)
    requires Plain(op) && Headroom(st, op) && Sound(st) && IdsBelow(st)
    requires Governed(env, st, op, subject, mode) && PairwiseCompatible(env, st, subject, mode)
    ensures PairwiseCompatible(env, Step(env, st, op), subject, mode)
  {
    if AddsTo(op, subject) {
      RegisterKeepsPairwise(env, st, op, subject, mode);
    } else {
      var after := Step(env, st, op);
      StepIsSound(env, st, op);
      StepElsewhere(env, st, op, subject);
      forall v, w | v < w && IsLive(after, SubjectVersion(subject, v)) && IsLive(after, SubjectVersion(subject, w))
        ensures CompatiblePair(env, after, subject, mode, v, w)
      {
        ElsewhereKeepsForms(st, after, subject, SubjectVersion(subject, v));
        ElsewhereKeepsForms(st, after, subject, SubjectVersion(subject, w));
        assert CompatiblePair(env, st, subject, mode, v, w);
      }
    }
  }

  ghost predicate GovernedRun(env: Env, ops: seq<Op>, subject: string, mode: Mode) {
    forall i | 0 <= i < |ops| :: Governed(env, After(env, ops[..i]), ops[i], subject, mode)
  }

  /** Over a run whose registrations in the subject carry over, its live versions are pairwise compatible. */
  lemma {:induction false} RunKeepsPairwise(env: Env, ops: seq<Op>, subject: string, mode: Mode)
    requires CleanEnv(env) && Admissible(env, ops) && GovernedRun(env, ops, subject, mode) && mode.IsTransitive()
    requires forall i | 0 <= i < |ops| :: OpCarriesOver(env, After(env, ops[..i]), ops[i], subject, mode)
    ensures PairwiseCompatible(env, After(env, ops), subject, mode)
  {
    if ops != [] {
      var n := |ops| - 1;
      PrefixAdmissible(env, ops);
      forall i | 0 <= i < n
        ensures Governed(env, After(env, ops[..n][..i]), ops[..n][i], subject, mode)
        ensures OpCarriesOver(env, After(env, ops[..n][..i]), ops[..n][i], subject, mode)
      {
        assert ops[..n][..i] == ops[..i];
        assert Governed(env, After(env, ops[..i]), ops[i], subject, mode);
      }
      RunKeepsPairwise(env, ops[..n], subject, mode);
      RunsAreSound(env, ops[..n]);
      assert Governed(env, After(env, ops[..n]), ops[n], subject, mode);
      StepKeepsPairwise(env, After(env, ops[..n]), ops[n], subject, mode);
    }
  }

  lemma PrefixAdmissible(env: Env, ops: seq<Op>)
    requires Admissible(env, ops) && ops != []
    ensures Admissible(env, ops[..|ops| - 1])
    ensures Plain(ops[|ops| - 1]) && Headroom(After(env, ops[..|ops| - 1]), ops[|ops| - 1])
  {
    var n := |ops| - 1;
    forall i | 0 <= i < n ensures Plain(ops[..n][i]) && Headroom(After(env, ops[..n][..i]), ops[..n][i]) {
      assert ops[..n][..i] == ops[..i];
      assert Plain(ops[i]);
    }
    assert Plain(ops[n]);
  }

  // ----- reserved fields

  function FieldsOf(env: Env, ty: string, form: SchemaWithRefs): set<string> {
    if ty !in env.parsers then {}
    else match env.parsers[ty](form.schema, form.references) case Some(p) => p.fields case None => {}
  }

  function ReservedAt(env: Env, st: State, k: SubjectVersion): set<string>
    requires IsLive(st, k)
  {
    ReservedFields(env, LiveView(st)[k].metadata)
  }

  ghost predicate ReservedPair(env: Env, st: State, subject: string, v: int, w: int)
    requires IsLive(st, SubjectVersion(subject, v)) && IsLive(st, SubjectVersion(subject, w))
  {
    var (a, b) := (SubjectVersion(subject, v), SubjectVersion(subject, w));
    && StoredForm(st, b).Some?
    && ReservedAt(env, st, a) <= ReservedAt(env, st, b)
    && ReservedAt(env, st, a) !! FieldsOf(env, ContentOf(st, b).schemaType, StoredForm(st, b).value)
  }

  /** What a live version reserves, every later live version reserves too, and none of them (itself
      included) has it as a top-level field. */
  ghost predicate ReservedKept(env: Env, st: State, subject: string) {
    forall v, w | v <= w && IsLive(st, SubjectVersion(subject, v)) && IsLive(st, SubjectVersion(subject, w)) ::
      ReservedPair(env, st, subject, v, w)
  }

  predicate Untouched(m: Option<Metadata>, name: string) {
    m.Some? && m.value.properties.Some? ==> name !in m.value.properties.value
  }

  predicate LayersUntouched(env: Env, st: State, subject: string) {
    var layers := EffectiveConfig(env, st, subject).layers;
    Untouched(layers.defaultMetadata, "confluent:reserved") && Untouched(layers.overrideMetadata, "confluent:reserved")
  }

  /** No name that the candidate reserves is a top-level field of the text that it would be bound to. */
  predicate BoundFieldsFree(env: Env, st: State, c: Candidate) {
    var d := BoundContent(env, st, c);
    ReservedFields(env, c.request.metadata) !! FieldsOf(env, d.schemaType, FormOf(st, d))
  }

  /** Registrations in the subject happen with validateFields on and config layers that do not touch
      the reserved property; nothing is imported into the subject. */
  ghost predicate Guarded(env: Env, st: State, op: Op, subject: string) {
    AddsTo(op, subject) ==>
      && op.RegisterOp?
      && ValidateFieldsEnabled(st, subject)
      && LayersUntouched(env, st, subject)
  }

  /** The operation does not register a candidate in the subject whose bound text has a field that it reserves. */
  ghost predicate OpFieldsFree(env: Env, st: State, op: Op, subject: string) {
    AddsTo(op, subject) && op.RegisterOp? && Prepare(env, st, op.request).Ready? ==>
      var c := Prepare(env, st, op.request).candidate;
      ReservedOk(env, st, c) ==> BoundFieldsFree(env, st, c)
  }

  lemma MergedProperty(a: Option<Metadata>, b: Option<Metadata>, name: string)
    ensures Untouched(a, name) ==> Property(MergedMetadata(a, b), name) == Property(b, name)
    ensures Untouched(b, name) ==> Property(MergedMetadata(a, b), name) == Property(a, name)
  {
    if a.Some? && b.Some? {
      var (p, q) := (a.value.properties, b.value.properties);
      var m := MergedMetadata(a, b);
      assert m.Some? && m.value.properties == MergedMap(p, q);
      if p.Some? && q.Some? {
        assert m.value.properties == Some(p.value + q.value);
        assert Untouched(b, name) && name in p.value ==> (p.value + q.value)[name] == p.value[name];
      } else if p.None? && q.Some? {
        assert m.value.properties == q;
      } else {
        assert m.value.properties == p;
      }
    }
  }

  lemma StrippedProperty(m: Option<Metadata>, name: string)
    requires name != "confluent:version"
    ensures Property(StripConfluentVersion(m), name) == Property(m, name)
  {
    if m.Some? && m.value.properties.Some? {
      var props := m.value.properties.value;
      assert name in props - {"confluent:version"} <==> name in props;
    }
  }

  /** With layers that do not touch the property, the stored version reserves exactly what the request
      does: a request without metadata inherits, but passes the gate only if there is nothing to inherit. */
  lemma StoredReservesRequested(env: Env, st: State, c: Candidate)
    requires ReservedOk(env, st, c)
    requires LayersUntouched(env, st, c.request.subject)
    ensures ReservedFields(env, RecordFor(env, st, c).metadata) == ReservedFields(env, c.request.metadata)
  {
    var name := "confluent:reserved";
    var layers := EffectiveConfig(env, st, c.request.subject).layers;
    var previous := PreviousMetadata(st, c.request.subject);
    var specific := if c.request.metadata == None then previous else c.request.metadata;
    var inner := MergedMetadata(layers.defaultMetadata, specific);
    MergedProperty(layers.defaultMetadata, specific, name);
    MergedProperty(inner, layers.overrideMetadata, name);
    StrippedProperty(LayeredMetadata(layers, c.request.metadata, previous), name);
    assert Property(None, name) == "";
  }

  lemma LatestDominates(env: Env, st: State, subject: string, v: int)
    requires Sound(st) && ReservedKept(env, st, subject) && IsLive(st, SubjectVersion(subject, v))
    ensures ReservedAt(env, st, SubjectVersion(subject, v)) <= ReservedFields(env, PreviousMetadata(st, subject))
  {
    var last := LatestIsLast(st, subject, v);
    assert ReservedPair(env, st, subject, v, last);
  }

  lemma LatestIsLast(st: State, subject: string, v: int) returns (last: int)
    requires IsLive(st, SubjectVersion(subject, v))
    ensures Latest(st, subject) == Some(last) && v <= last && IsLive(st, SubjectVersion(subject, last))
  {
    var versions := LiveVersions(st, subject);
    AscendingSorts(LiveNumbers(st, subject));
    var i := LiveIndex(st, subject, v);
    last := versions[|versions| - 1];
    assert last in versions;
  }

  lemma RegisterKeepsReserved(env: Env, st: State, op: Op, subject: string)
    requires CleanEnv(env) && op.RegisterOp? && op.request.subject == subject && Plain(op) && Sound(st) && IdsBelow(st)
    requires Guarded(env, st, op, subject) && OpFieldsFree(env, st, op, subject) && ReservedKept(env, st, subject)
    ensures ReservedKept(env, Step(env, st, op), subject)
  {
    if Register(env, st, op.request, op.pick, op.pick2).1.Registered? {
      RegisterStored(env, st, op.request, op.pick, op.pick2);
      PreparedIsAdmitted(env, st, op.request);
      CreateKeepsReserved(env, st, Prepare(env, st, op.request).candidate);
    } else {
      RegisterRefused(env, st, op.request, op.pick, op.pick2);
    }
  }

  lemma CreateKeepsReserved(env: Env, st: State, c: Candidate)
    requires Sound(st) && IdsBelow(st) && Admitted(LiveView(st), RecordFor(env, st, c))
    requires AfterCreate(st, RecordFor(env, st, c)).1.Ok? && ReservedOk(env, st, c) && BoundFieldsFree(env, st, c)
    requires LayersUntouched(env, st, c.request.subject) && ReservedKept(env, st, c.request.subject)
    ensures ReservedKept(env, AfterCreate(st, RecordFor(env, st, c)).0, c.request.subject)
  {
    var (after, result) := AfterCreate(st, RecordFor(env, st, c));
    var subject := c.request.subject;
    CreateExtends(env, st, c);
    StoredReservesRequested(env, st, c);
    forall v, w | v <= w && IsLive(after, SubjectVersion(subject, v)) && IsLive(after, SubjectVersion(subject, w))
      ensures ReservedPair(env, after, subject, v, w)
    {
      ReservedAfter(env, st, after, c, result.value.version, v, w);
    }
  }

  lemma ReservedAfter(env: Env, st: State, after: State, c: Candidate, n: int, v: int, w: int)
    requires Sound(st) && Sound(after) && Extended(env, st, after, c, n)
    requires ReservedOk(env, st, c) && BoundFieldsFree(env, st, c)
    requires ReservedFields(env, RecordFor(env, st, c).metadata) == ReservedFields(env, c.request.metadata)
    requires ReservedKept(env, st, c.request.subject)
    requires v <= w && IsLive(after, SubjectVersion(c.request.subject, v)) && IsLive(after, SubjectVersion(c.request.subject, w))
    ensures ReservedPair(env, after, c.request.subject, v, w)
  {
    var subject := c.request.subject;
    if v != n {
      OldForm(env, st, after, c, n, v);
      LatestDominates(env, st, subject, v);
    }
    if w != n {
      OldForm(env, st, after, c, n, w);
      assert v != n;
      assert ReservedPair(env, st, subject, v, w);
    }
  }

  lemma StepKeepsReserved(env: Env, st: State, op: Op, subject: string)
    requires CleanEnv(env) && Plain(op) && Headroom(st, op) && Sound(st) && IdsBelow(st)
    requires Guarded(env, st, op, subject) && OpFieldsFree(env, st, op, subject) && ReservedKept(env, st, subject)
    ensures ReservedKept(env, Step(env, st, op), subject)
  {
    if AddsTo(op, subject) {
      RegisterKeepsReserved(env, st, op, subject);
    } else {
      var after := Step(env, st, op);
      StepIsSound(env, st, op);
      StepElsewhere(env, st, op, subject);
      forall v, w | v <= w && IsLive(after, SubjectVersion(subject, v)) && IsLive(after, SubjectVersion(subject, w))
        ensures ReservedPair(env, after, subject, v, w)
      {
        ElsewhereKeepsForms(st, after, subject, SubjectVersion(subject, v));
        ElsewhereKeepsForms(st, after, subject, SubjectVersion(subject, w));
        assert ReservedPair(env, st, subject, v, w);
      }
    }
  }

  ghost predicate GuardedRun(env: Env, ops: seq<Op>, subject: string) {
    forall i | 0 <= i < |ops| :: Guarded(env, After(env, ops[..i]), ops[i], subject)
  }

  /** Over a run whose registrations carry over and leave reserved names free, both properties hold at the end. */
  lemma {:induction false} RunKeepsReserved(env: Env, ops: seq<Op>, subject: string)
    requires CleanEnv(env) && Admissible(env, ops) && GuardedRun(env, ops, subject)
    requires forall i | 0 <= i < |ops| :: OpFieldsFree(env, After(env, ops[..i]), ops[i], subject)
    ensures ReservedKept(env, After(env, ops), subject)
  {
    if ops != [] {
      var n := |ops| - 1;
      PrefixAdmissible(env, ops);
      forall i | 0 <= i < n
        ensures Guarded(env, After(env, ops[..n][..i]), ops[..n][i], subject)
        ensures OpFieldsFree(env, After(env, ops[..n][..i]), ops[..n][i], subject)
      {
        assert ops[..n][..i] == ops[..i];
        assert Guarded(env, After(env, ops[..i]), ops[i], subject);
      }
      RunKeepsReserved(env, ops[..n], subject);
      RunsAreSound(env, ops[..n]);
      assert Guarded(env, After(env, ops[..n]), ops[n], subject);
      StepKeepsReserved(env, After(env, ops[..n]), ops[n], subject);
    }
  }
}
