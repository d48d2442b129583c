/** Runs that break what the gates promise, for every parser and checker that violates the conditions on shared texts. */
module FailingRuns {
  import opened Options
  import opened Fingerprints
  import opened Resolver
  import opened Metadatas
  import opened Compatibility
  import opened Storage
  import opened Registry
  import opened Integrity
  import opened History
  import opened Origins
  import opened SharedTexts

  // ----- requests for given texts

  /** The request, without references and rule set, stores this text. */
  predicate Submits(env: Env, req: Request, t: SchemaText) {
    && req.references == [] && req.ruleSet == None && req.schemaType == t.schemaType
    && if req.normalize then NormalizedFrom(env, req.schema, t, []) else req.schema == t.schema && Parses(env, t, [])
  }

  lemma Submission(env: Env, t: SchemaText, subject: string, metadata: Option<Metadata>) returns (req: Request)
    requires Storable(env, t, [])
    ensures Submits(env, req, t) && req.subject == subject && req.metadata == metadata
  {
    if Parses(env, t, []) {
      req := Request(subject, t.schemaType, t.schema, [], false, metadata, None);
    } else {
      var raw :| NormalizedFrom(env, raw, t, []);
      req := Request(subject, t.schemaType, raw, [], true, metadata, None);
    }
  }

  /** The context is configured and nothing else is. */
  predicate Under(st: State, cfg: Config) {
    && st.settings == Settings(map[], Some(cfg), None)
    && cfg.normalize == None && cfg.compatibilityGroup == "" && cfg.layers == Layers(None, None, None, None)
  }

  function CandidateFor(req: Request, t: SchemaText): Candidate {
    Candidate(req, t.schemaType, t.schema, [], t.parsed, Bare(t.parsed.fingerprint))
  }

  lemma Prepares(env: Env, st: State, cfg: Config, req: Request, t: SchemaText)
    requires Under(st, cfg) && Submits(env, req, t)
    ensures Prepare(env, st, req) == Ready(CandidateFor(req, t))
  {
    assert !NormalizeEnabled(st, req.subject);
    assert Resolve(LookupGraph(st), []) == Done({}, []);
  }

  /** The metadata and rule set stored for a request, when no layer adds anything. */
  lemma RecordIs(env: Env, st: State, cfg: Config, req: Request, t: SchemaText)
    requires Under(st, cfg) && Submits(env, req, t)
    requires req.metadata.Some? ==> StripConfluentVersion(req.metadata) == req.metadata
    requires req.metadata.None? ==> Latest(st, req.subject) == None
    ensures var r := RecordFor(env, st, CandidateFor(req, t));
            && ContentFrom(r) == Content(t.schemaType, t.schema, [], Bare(t.parsed.fingerprint))
            && r.subject == req.subject && r.metadata == req.metadata
  {
  }

  // ----- registrations that go through

  lemma FirstGatePasses(env: Env, st: State, c: Candidate)
    requires LiveNumbers(st, c.request.subject) == {}
    ensures CompatibilityGate(env, st, c) == None && FindByFingerprint(st, c.request.subject, c.fingerprint, 0) == None
  {
    AscendingSorts(LiveNumbers(st, c.request.subject));
    HistoryLive(st, c);
    assert forall v | v in Registry.History(st, c) :: v in LiveNumbers(st, c.request.subject);
    var found := WithFingerprint(st, c.request.subject, c.fingerprint);
    assert found == {};
    AscendingSorts(found);
  }

  lemma NoneLive(st: State, subject: string)
    requires LiveNumbers(st, subject) == {}
    ensures Latest(st, subject) == None && forall v :: !IsLive(st, SubjectVersion(subject, v))
  {
    AscendingSorts(LiveNumbers(st, subject));
    assert forall v :: IsLive(st, SubjectVersion(subject, v)) ==> v in LiveNumbers(st, subject);
  }

  lemma NotDuplicate(st: State, record: Record)
    requires forall v | IsLive(st, SubjectVersion(record.subject, v)) ::
               MetadataOrEmpty(st.versions[SubjectVersion(record.subject, v)].metadata) != MetadataOrEmpty(record.metadata)
    ensures !IsDuplicate(st, record)
  {
    forall k | k in Subject(st, record.subject) && IsLive(st, k)
      ensures MetadataOrEmpty(st.versions[k].metadata) != MetadataOrEmpty(record.metadata)
    {
      assert k == SubjectVersion(record.subject, k.version);
    }
  }

  /** The first version of a subject is stored without any check of compatibility. */
  lemma FirstRegistration(env: Env, st: State, cfg: Config, req: Request, t: SchemaText)
    requires Under(st, cfg) && Submits(env, req, t) && LiveNumbers(st, req.subject) == {}
    requires req.metadata == None || StripConfluentVersion(req.metadata) == req.metadata
    requires cfg.validateFields == Some(true) ==> ReservedOk(env, st, CandidateFor(req, t))
    ensures var record := RecordFor(env, st, CandidateFor(req, t));
            && AfterCreate(st, record).1.Ok?
            && Register(env, st, req, 0, 0) == (AfterCreate(st, record).0, Registered(AfterCreate(st, record).1.value))
            && ContentFrom(record) == Content(t.schemaType, t.schema, [], Bare(t.parsed.fingerprint))
            && record.subject == req.subject && record.metadata == req.metadata
  {
    var c := CandidateFor(req, t);
    Prepares(env, st, cfg, req, t);
    NoneLive(st, req.subject);
    RecordIs(env, st, cfg, req, t);
    FirstGatePasses(env, st, c);
    NotDuplicate(st, RecordFor(env, st, c));
  }

  /** A request with metadata of its own passes the transitive gate if every live version admits it. */
  lemma AdmittedGatePasses(env: Env, st: State, cfg: Config, c: Candidate)
    requires Under(st, cfg) && cfg.level.IsTransitive() && c.schemaType in env.checkers
    requires forall v | IsLive(st, SubjectVersion(c.request.subject, v)) ::
               && StoredForm(st, SubjectVersion(c.request.subject, v)).Some?
               && Admits(env, c.schemaType, cfg.level, SchemaWithRefs(c.schema, c.resolved),
                         StoredForm(st, SubjectVersion(c.request.subject, v)).value)
    ensures CompatibilityGate(env, st, c) == None
  {
    var subject, versions := c.request.subject, Registry.History(st, c);
    HistoryLive(st, c);
    WithRefsExact(st, subject, versions);
    if versions != [] {
      var existing := WithRefs(st, subject, versions).value;
      CheckAccepts(env.checkers, cfg.level, c.schemaType, SchemaWithRefs(c.schema, c.resolved), existing);
      forall i | 0 <= i < |existing|
        ensures PairAccepted(env.checkers[c.schemaType], cfg.level, SchemaWithRefs(c.schema, c.resolved), existing[i])
      {
        assert versions[i] in versions;
      }
    }
  }

  lemma NeverRepeat(env: Env, st: State, c: Candidate)
    requires forall v | IsLive(st, SubjectVersion(c.request.subject, v)) ::
               st.versions[SubjectVersion(c.request.subject, v)].metadata == None
    requires MetadataOrEmpty(StripConfluentVersion(c.request.metadata)) != MetadataOrEmpty(None)
    ensures var found := FindByFingerprint(st, c.request.subject, c.fingerprint, 0);
            found.Some? ==> !IsRepeat(env, st, c, found.value)
  {
    var found := WithFingerprint(st, c.request.subject, c.fingerprint);
    AscendingSorts(found);
    var v := FindByFingerprint(st, c.request.subject, c.fingerprint, 0);
    if v.Some? {
      assert v.value in found;
      assert IsLive(st, SubjectVersion(c.request.subject, v.value));
    }
  }

  lemma LaterRegistration(env: Env, st: State, cfg: Config, req: Request, t: SchemaText)
    requires Under(st, cfg) && cfg.level.IsTransitive() && cfg.validateFields == None && Submits(env, req, t)
    requires forall v | IsLive(st, SubjectVersion(req.subject, v)) ::
               && st.versions[SubjectVersion(req.subject, v)].metadata == None
               && StoredForm(st, SubjectVersion(req.subject, v)).Some?
               && Admits(env, t.schemaType, cfg.level, SchemaWithRefs(t.schema, []), StoredForm(st, SubjectVersion(req.subject, v)).value)
    requires req.metadata.Some? && StripConfluentVersion(req.metadata) == req.metadata
    requires MetadataOrEmpty(req.metadata) != MetadataOrEmpty(None) && t.schemaType in env.checkers
    ensures var record := RecordFor(env, st, CandidateFor(req, t));
            && AfterCreate(st, record).1.Ok?
            && Register(env, st, req, 0, 0) == (AfterCreate(st, record).0, Registered(AfterCreate(st, record).1.value))
  {
    var c := CandidateFor(req, t);
    Prepares(env, st, cfg, req, t);
    RecordIs(env, st, cfg, req, t);
    AdmittedGatePasses(env, st, cfg, c);
    NeverRepeat(env, st, c);
    NotDuplicate(st, RecordFor(env, st, c));
  }

  // ----- runs, one operation at a time

  ghost predicate Trial(env: Env, ops: seq<Op>, subject: string, mode: Mode) {
    Admissible(env, ops) && ReferenceFreeRun(ops) && GovernedRun(env, ops, subject, mode)
  }

  lemma Extend(env: Env, ops: seq<Op>, op: Op)
    ensures After(env, ops + [op]) == Step(env, After(env, ops), op)
    ensures forall i | 0 <= i <= |ops| :: (ops + [op])[..i] == ops[..i]
  {
    assert (ops + [op])[..|ops|] == ops;
  }

  lemma ExtendPlain(env: Env, ops: seq<Op>, op: Op)
    requires Admissible(env, ops) && ReferenceFreeRun(ops)
    requires Plain(op) && Headroom(After(env, ops), op) && ReferenceFree(op)
    ensures Admissible(env, ops + [op]) && ReferenceFreeRun(ops + [op])
  {
    Extend(env, ops, op);
    var all := ops + [op];
    assert ops[..|ops|] == ops;
    forall i | 0 <= i < |all|
      ensures Plain(all[i]) && Headroom(After(env, all[..i]), all[i]) && ReferenceFree(all[i])
    {
      if i < |ops| {
        assert all[i] == ops[i] && Plain(ops[i]) && ReferenceFree(ops[i]);
      }
    }
  }

  lemma ExtendTrial(env: Env, ops: seq<Op>, op: Op, subject: string, mode: Mode)
    requires Trial(env, ops, subject, mode) && Governed(env, After(env, ops), op, subject, mode)
    requires Plain(op) && Headroom(After(env, ops), op) && ReferenceFree(op)
    ensures Trial(env, ops + [op], subject, mode)
  {
    ExtendPlain(env, ops, op);
    Extend(env, ops, op);
    var all := ops + [op];
    assert ops[..|ops|] == ops;
    forall i | 0 <= i < |all|
      ensures Governed(env, After(env, all[..i]), all[i], subject, mode)
    {
      if i < |ops| {
        assert all[i] == ops[i] && Governed(env, After(env, ops[..i]), ops[i], subject, mode);
      }
    }
  }

  function Config0(level: Mode, validateFields: Option<bool>): Config {
    Config(level, None, validateFields, "", Layers(None, None, None, None))
  }

  /** The run that only configures the context. */
  function Opening(cfg: Config): seq<Op> {
    [SetConfigOp(OfContext, cfg)]
  }

  lemma Opened(env: Env, cfg: Config, subject: string, mode: Mode)
    requires Under(EMPTY.(settings := Settings(map[], Some(cfg), None)), cfg)
    ensures Trial(env, Opening(cfg), subject, mode)
    ensures After(env, Opening(cfg)) == EMPTY.(settings := Settings(map[], Some(cfg), None))
  {
    assert Opening(cfg)[..0] == [];
  }

  /** The subjects other than the one under observation. */
  function Beside(subject: string): string {
    subject + "-"
  }

  function ContentIs(t: SchemaText): Content {
    Content(t.schemaType, t.schema, [], Bare(t.parsed.fingerprint))
  }

  /** The content that a registration of the text is bound to. */
  function BoundTo(st: State, t: SchemaText): Content {
    var f := Bare(t.parsed.fingerprint);
    if f in st.fingerprints && st.fingerprints[f] in st.schemas then st.schemas[st.fingerprints[f]] else ContentIs(t)
  }

  /** The index afterwards: the text's fingerprint is found, and nothing else is new. */
  ghost predicate Indexed(st: State, after: State, t: SchemaText) {
    var f := Bare(t.parsed.fingerprint);
    && after.settings == st.settings && st.nextID <= after.nextID <= st.nextID + 1
    && f in after.fingerprints && after.fingerprints[f] in after.schemas && BoundTo(after, t) == BoundTo(st, t)
    && (forall g | g != f :: g in after.fingerprints <==> g in st.fingerprints)
  }

  lemma CreateIndexes(st: State, record: Record, t: SchemaText)
    requires AfterCreate(st, record).1.Ok? && WellFormed(st) && IdsBelow(st) && st.nextID < MAX_INT64
    requires ContentFrom(record) == ContentIs(t)
    ensures Indexed(st, AfterCreate(st, record).0, t)
  {
    Wrap64InRange(st.nextID + 1);
    assert record.fingerprint in st.fingerprints ==> FingerprintOk(st, record.fingerprint);
  }

  /** What is visible afterwards: one version more, bound to the content of the text's fingerprint. */
  ghost predicate Joined(st: State, after: State, k: SubjectVersion, t: SchemaText, metadata: Option<Metadata>) {
    && LiveView(after).Keys == LiveView(st).Keys + {k} && k !in LiveView(st)
    && (forall j | j in LiveView(st) :: LiveView(after)[j] == LiveView(st)[j])
    && LiveView(after)[k].content == BoundTo(st, t) && LiveView(after)[k].metadata == metadata
    && (forall j | j in LiveView(st) && j.subject == k.subject :: j.version < k.version)
  }

  lemma CreateAdds(env: Env, st: State, c: Candidate, t: SchemaText)
    requires WellFormed(st) && st.nextID !in st.schemas && AfterCreate(st, RecordFor(env, st, c)).1.Ok?
    requires ContentFrom(RecordFor(env, st, c)) == ContentIs(t) && c.fingerprint == Bare(t.parsed.fingerprint)
    ensures var (after, result) := AfterCreate(st, RecordFor(env, st, c));
            Joined(st, after, SubjectVersion(c.request.subject, result.value.version), t, RecordFor(env, st, c).metadata)
  {
    var (after, result) := AfterCreate(st, RecordFor(env, st, c));
    CreateShowsBound(env, st, c);
    BoundIs(env, st, c);
    JoinedBy(st, after, SubjectVersion(c.request.subject, result.value.version), NewVersion(env, st, c), t);
  }

  lemma JoinedBy(st: State, after: State, k: SubjectVersion, shown: Shown, t: SchemaText)
    requires k !in LiveView(st) && LiveView(after) == LiveView(st)[k := shown] && shown.content == BoundTo(st, t)
    requires forall j | IsLive(st, j) && j.subject == k.subject :: j.version < k.version
    ensures Joined(st, after, k, t, shown.metadata)
  {
  }

  lemma FirstAdds(env: Env, st: State, cfg: Config, req: Request, t: SchemaText)
    requires Sound(st) && IdsBelow(st) && st.nextID < MAX_INT64
    requires Under(st, cfg) && Submits(env, req, t) && LiveNumbers(st, req.subject) == {}
    requires req.metadata == None || StripConfluentVersion(req.metadata) == req.metadata
    requires cfg.validateFields == Some(true) ==> ReservedOk(env, st, CandidateFor(req, t))
    ensures var (after, outcome) := Register(env, st, req, 0, 0);
            && outcome.Registered? && Indexed(st, after, t)
            && Joined(st, after, SubjectVersion(req.subject, outcome.stored.version), t, req.metadata)
  {
    var c := CandidateFor(req, t);
    FirstRegistration(env, st, cfg, req, t);
    CreateAdds(env, st, c, t);
    CreateIndexes(st, RecordFor(env, st, c), t);
  }

  lemma ReservedOkFirst(env: Env, st: State, c: Candidate)
    requires LiveNumbers(st, c.request.subject) == {} && ReservedFields(env, c.request.metadata) !! c.parsed.fields
    ensures ReservedOk(env, st, c)
  {
    NoneLive(st, c.request.subject);
  }

  /** One more step of a trial: the first registration of a text in a subject. */
  lemma AddFirst(env: Env, ops: seq<Op>, obs: string, mode: Mode, cfg: Config, t: SchemaText, req: Request)
    returns (k: SubjectVersion)
    requires CleanEnv(env) && Trial(env, ops, obs, mode) && Submits(env, req, t) && Under(After(env, ops), cfg)
    requires LiveNumbers(After(env, ops), req.subject) == {} && After(env, ops).nextID < MAX_INT64
    requires req.subject == obs ==> cfg.level == mode
    requires req.metadata == None || StripConfluentVersion(req.metadata) == req.metadata
    requires cfg.validateFields == Some(true) ==> ReservedFields(env, req.metadata) !! t.parsed.fields
    ensures k.subject == req.subject && Trial(env, ops + [RegisterOp(req, 0, 0)], obs, mode)
    ensures Under(After(env, ops + [RegisterOp(req, 0, 0)]), cfg)
    ensures Joined(After(env, ops), After(env, ops + [RegisterOp(req, 0, 0)]), k, t, req.metadata)
    ensures Indexed(After(env, ops), After(env, ops + [RegisterOp(req, 0, 0)]), t)
  {
    var st := After(env, ops);
    RunsAreSound(env, ops);
    if cfg.validateFields == Some(true) {
      ReservedOkFirst(env, st, CandidateFor(req, t));
    }
    FirstAdds(env, st, cfg, req, t);
    k := SubjectVersion(req.subject, Register(env, st, req, 0, 0).1.stored.version);
    ExtendTrial(env, ops, RegisterOp(req, 0, 0), obs, mode);
    Extend(env, ops, RegisterOp(req, 0, 0));
  }

  // ----- a pair that the gate admitted and the bound text spoils

  const TAGGED := Some(Metadata(Some(map["tag" := ["tag"]]), None, None))

  /** The view shows one version of the subject, of this text, and nothing else. */
  ghost predicate OnlyVersion(st: State, k: SubjectVersion, x: SchemaText) {
    LiveView(st).Keys == {k} && LiveView(st)[k].content == ContentIs(x) && LiveView(st)[k].metadata == None
  }

  lemma PlainForm(st: State, k: SubjectVersion)
    requires IsLive(st, k) && ContentOf(st, k).references == []
    ensures StoredForm(st, k) == Some(SchemaWithRefs(ContentOf(st, k).schema, []))
  {
    assert Resolve(LookupGraph(st), []) == Done({}, []);
  }

  lemma NoneElsewhere(st: State, subject: string)
    requires forall k | k in LiveView(st) :: k.subject != subject
    ensures LiveNumbers(st, subject) == {}
  {
    assert forall v | v in LiveNumbers(st, subject) :: SubjectVersion(subject, v) in LiveView(st);
  }

  /** The text `a` is stored, and the subject `k.subject` has only the version `k`, of text `x`. */
  ghost predicate Primed(st: State, cfg: Config, a: SchemaText, x: SchemaText, k: SubjectVersion) {
    && Under(st, cfg) && Sound(st) && IdsBelow(st)
    && k in LiveView(st) && LiveView(st)[k].content == ContentIs(x) && LiveView(st)[k].metadata == None
    && (forall j | j in LiveView(st) && j.subject == k.subject :: j == k)
    && Bare(a.parsed.fingerprint) in st.fingerprints && st.fingerprints[Bare(a.parsed.fingerprint)] in st.schemas
    && Holds(BoundTo(st, a), a)
  }

  predicate Holds(d: Content, a: SchemaText) {
    d.schemaType == a.schemaType && d.schema == a.schema && d.references == []
  }

  /** The gate admits `b`, which is then bound to `a`. */
  lemma SpoilsAt(env: Env, st: State, cfg: Config, a: SchemaText, b: SchemaText, x: SchemaText, k: SubjectVersion, req: Request)
    requires Primed(st, cfg, a, x, k) && cfg.level.IsTransitive() && cfg.validateFields == None
    requires a.parsed.fingerprint == b.parsed.fingerprint && !Carries(env, cfg.level, a, [], b, [], x, [])
    requires Submits(env, req, b) && req.subject == k.subject && req.metadata == TAGGED
    ensures !PairwiseCompatible(env, Register(env, st, req, 0, 0).0, k.subject, cfg.level)
  {
    var c := CandidateFor(req, b);
    OnlyAdmits(env, st, cfg, b, x, k);
    LaterRegistration(env, st, cfg, req, b);
    Prepares(env, st, cfg, req, b);
    RecordIs(env, st, cfg, req, b);
    CreateAdds(env, st, c, b);
    var (after, outcome) := Register(env, st, req, 0, 0);
    SpoiltPair(env, cfg.level, after, a, x, k, SubjectVersion(req.subject, outcome.stored.version));
  }

  lemma OnlyAdmits(env: Env, st: State, cfg: Config, b: SchemaText, x: SchemaText, k: SubjectVersion)
    requires k in LiveView(st) && LiveView(st)[k].content == ContentIs(x) && LiveView(st)[k].metadata == None
    requires forall j | j in LiveView(st) && j.subject == k.subject :: j == k
    requires Admits(env, b.schemaType, cfg.level, SchemaWithRefs(b.schema, []), SchemaWithRefs(x.schema, []))
    ensures forall v | IsLive(st, SubjectVersion(k.subject, v)) ::
              && st.versions[SubjectVersion(k.subject, v)].metadata == None
              && StoredForm(st, SubjectVersion(k.subject, v)).Some?
              && Admits(env, b.schemaType, cfg.level, SchemaWithRefs(b.schema, []), StoredForm(st, SubjectVersion(k.subject, v)).value)
  {
    PlainForm(st, k);
    assert forall v | IsLive(st, SubjectVersion(k.subject, v)) :: SubjectVersion(k.subject, v) in LiveView(st);
  }

  /** The last two steps: store `a` in another subject, then register `b` in the one under observation. */
  lemma Spoil(env: Env, ops: seq<Op>, cfg: Config, a: SchemaText, b: SchemaText, x: SchemaText, k: SubjectVersion,
              first: Request, last: Request)
    requires CleanEnv(env) && cfg.level.IsTransitive() && cfg.validateFields == None
    requires Trial(env, ops, k.subject, cfg.level) && Under(After(env, ops), cfg) && After(env, ops).nextID < 10
    requires OnlyVersion(After(env, ops), k, x) && Holds(BoundTo(After(env, ops), a), a)
    requires Submits(env, first, a) && first.subject != k.subject && first.metadata == None
    requires Submits(env, last, b) && last.subject == k.subject && last.metadata == TAGGED
    requires a.parsed.fingerprint == b.parsed.fingerprint && !Carries(env, cfg.level, a, [], b, [], x, [])
    ensures var all := ops + [RegisterOp(first, 0, 0)] + [RegisterOp(last, 0, 0)];
            Trial(env, all, k.subject, cfg.level) && !PairwiseCompatible(env, After(env, all), k.subject, cfg.level)
  {
    var st := After(env, ops);
    NoneElsewhere(st, first.subject);
    var beside := AddFirst(env, ops, k.subject, cfg.level, cfg, a, first);
    var next := ops + [RegisterOp(first, 0, 0)];
    RunsAreSound(env, next);
    PrimedAfter(st, After(env, next), cfg, a, x, k, beside);
    SpoilLast(env, next, cfg, a, b, x, k, last);
  }

  lemma PrimedAfter(st: State, after: State, cfg: Config, a: SchemaText, x: SchemaText, k: SubjectVersion, beside: SubjectVersion)
    requires Sound(after) && IdsBelow(after) && Under(after, cfg)
    requires OnlyVersion(st, k, x) && Holds(BoundTo(st, a), a) && beside.subject != k.subject
    requires Joined(st, after, beside, a, None) && Indexed(st, after, a)
    ensures Primed(after, cfg, a, x, k)
  {
    StillOnly(st, after, a, x, k, beside);
  }

  lemma StillOnly(st: State, after: State, a: SchemaText, x: SchemaText, k: SubjectVersion, beside: SubjectVersion)
    requires OnlyVersion(st, k, x) && beside.subject != k.subject && Joined(st, after, beside, a, None)
    ensures k in LiveView(after) && LiveView(after)[k] == LiveView(st)[k]
    ensures forall j | j in LiveView(after) && j.subject == k.subject :: j == k
  {
  }

  lemma SpoilLast(env: Env, ops: seq<Op>, cfg: Config, a: SchemaText, b: SchemaText, x: SchemaText, k: SubjectVersion, req: Request)
    requires cfg.level.IsTransitive() && cfg.validateFields == None
    requires Trial(env, ops, k.subject, cfg.level) && Primed(After(env, ops), cfg, a, x, k) && After(env, ops).nextID < MAX_INT64
    requires Submits(env, req, b) && req.subject == k.subject && req.metadata == TAGGED
    requires a.parsed.fingerprint == b.parsed.fingerprint && !Carries(env, cfg.level, a, [], b, [], x, [])
    ensures var all := ops + [RegisterOp(req, 0, 0)];
            Trial(env, all, k.subject, cfg.level) && !PairwiseCompatible(env, After(env, all), k.subject, cfg.level)
  {
    var op := RegisterOp(req, 0, 0);
    SpoilsAt(env, After(env, ops), cfg, a, b, x, k, req);
    ExtendTrial(env, ops, op, k.subject, cfg.level);
    Extend(env, ops, op);
  }

  lemma SpoiltPair(env: Env, mode: Mode, st: State, a: SchemaText, x: SchemaText, k: SubjectVersion, n: SubjectVersion)
    requires n.subject == k.subject && k.version < n.version && k in LiveView(st) && n in LiveView(st)
    requires LiveView(st)[k].content == ContentIs(x) && LiveView(st)[n].content.references == []
    requires LiveView(st)[n].content.schemaType == a.schemaType && LiveView(st)[n].content.schema == a.schema
    requires !Judges(env, a.schemaType, mode, SchemaWithRefs(a.schema, []), SchemaWithRefs(x.schema, []))
    ensures !PairwiseCompatible(env, st, k.subject, mode)
  {
    PlainForm(st, k);
    PlainForm(st, n);
    assert k == SubjectVersion(k.subject, k.version) && n == SubjectVersion(k.subject, n.version);
    assert !CompatiblePair(env, st, k.subject, mode, k.version, n.version);
  }
}
