/** The conditions on shared texts are exact: whatever violates one is broken by some run. */
module ExactConditions {
  import opened Options
  import opened Fingerprints
  import opened Resolver
  import opened Metadatas
  import opened Compatibility
  import opened Storage
  import opened Registry
  import opened Integrity
  import opened History
  import opened Origins
  import opened SharedTexts
  import opened FailingRuns

  // ----- an import that comes and goes takes a fingerprint out of the index

  /** The index no longer finds the fingerprint; content and versions are as before. */
  ghost predicate Forgotten(st: State, after: State, f: Fingerprint) {
    && after.schemas == st.schemas && after.versions == st.versions && after.settings == st.settings
    && after.fingerprints == st.fingerprints - {f} && after.nextID == st.nextID + 1
  }

  /** The import of a text under the next ID, as the first version of a subject. */
  function Loan(st: State, subject: string, t: SchemaText): IDRequest {
    IDRequest(subject, t.schemaType, t.schema, [], st.nextID, 1)
  }

  /** The state with the imported text in it. */
  function Lent(st: State, subject: string, t: SchemaText): State {
    AfterImport(st, ImportRecord(Loan(st, subject, t), 1, Bare(t.parsed.fingerprint))).0.(nextID := st.nextID + 1)
  }

  lemma LoanGoesThrough(env: Env, st: State, subject: string, t: SchemaText)
    requires WellFormed(st) && IdsBelow(st) && 0 < st.nextID < MAX_INT64 && Parses(env, t, []) && Subject(st, subject) == {}
    ensures RegisterWithID(env, st, Loan(st, subject, t), 0).0 == Lent(st, subject, t)
    ensures AfterImport(st, ImportRecord(Loan(st, subject, t), 1, Bare(t.parsed.fingerprint))).1.Ok?
  {
    var req := Loan(st, subject, t);
    var f := Bare(t.parsed.fingerprint);
    assert PrepareImport(env, st, req) == ImportReady(f) by {
      assert Resolve(LookupGraph(st), []) == Done({}, []);
    }
    NoneFound(st, subject, f);
    assert SubjectVersion(subject, 1) !in Subject(st, subject);
    AdvancedNextIDExact(AfterImport(st, ImportRecord(req, 1, f)).0, st.nextID);
  }

  lemma NoneFound(st: State, subject: string, f: Fingerprint)
    requires Subject(st, subject) == {}
    ensures FindByFingerprint(st, subject, f, 0) == None
  {
    assert forall v :: IsLive(st, SubjectVersion(subject, v)) ==> SubjectVersion(subject, v) in Subject(st, subject);
    assert LiveNumbers(st, subject) == {};
    assert WithFingerprint(st, subject, f) == {};
  }

  lemma Purged(st: State, k: SubjectVersion)
    requires k in st.versions && st.versions[k].deleted && k.version != -1
    ensures DeleteVersion(st, k.subject, k.version, true).0 == Remove(st, {k})
  {
    assert k in Subject(st, k.subject) && k == SubjectVersion(k.subject, k.version);
  }

  /** Version `k` was added, bound to new content with the fingerprint. */
  ghost predicate Borrowed(st: State, lent: State, k: SubjectVersion, id: int, f: Fingerprint) {
    && k !in st.versions && id !in st.schemas && k in lent.versions && lent.versions - {k} == st.versions
    && lent.versions[k].schemaID == id
    && id in lent.schemas && lent.schemas[id].fingerprint == f && lent.schemas - {id} == st.schemas
    && f in lent.fingerprints && lent.fingerprints - {f} == st.fingerprints - {f}
    && UsersOf(lent, id) == [k] && lent.settings == st.settings && lent.nextID == st.nextID + 1
  }

  lemma FirstIn<T>(s: seq<T>)
    requires s != []
    ensures s[0] in s
  {
  }

  lemma UsedIsPresent(st: State, id: int)
    requires WellFormed(st) && UsersOf(st, id) != []
    ensures id in st.schemas
  {
    assert UsersOk(st, id);
    FirstIn(UsersOf(st, id));
    assert VersionOk(st, UsersOf(st, id)[0]);
  }

  lemma PutAndTaken<K, V>(m: map<K, V>, k: K, v: V)
    requires k !in m
    ensures m[k := v] - {k} == m
  {
  }

  lemma LentIs(st: State, subject: string, t: SchemaText)
    requires AfterImport(st, ImportRecord(Loan(st, subject, t), 1, Bare(t.parsed.fingerprint))).1.Ok? && st.nextID !in st.schemas
    ensures var lent, k, id, f := Lent(st, subject, t), SubjectVersion(subject, 1), st.nextID, Bare(t.parsed.fingerprint);
            && k !in st.versions && lent.versions == st.versions[k := VersionInfo(id, false, None, None)]
            && lent.schemas == st.schemas[id := Content(TypeOrAvro(t.schemaType), t.schema, [], f)]
            && lent.fingerprints == st.fingerprints[f := id] && lent.users == st.users[id := UsersOf(st, id) + [k]]
            && lent.settings == st.settings && lent.nextID == id + 1
  {
  }

  lemma LoanBorrows(st: State, subject: string, t: SchemaText)
    requires WellFormed(st) && IdsBelow(st)
    requires AfterImport(st, ImportRecord(Loan(st, subject, t), 1, Bare(t.parsed.fingerprint))).1.Ok?
    ensures Borrowed(st, Lent(st, subject, t), SubjectVersion(subject, 1), st.nextID, Bare(t.parsed.fingerprint))
  {
    if UsersOf(st, st.nextID) != [] {
      UsedIsPresent(st, st.nextID);
    }
    LentIs(st, subject, t);
    PutAndTaken(st.versions, SubjectVersion(subject, 1), VersionInfo(st.nextID, false, None, None));
    PutAndTaken(st.schemas, st.nextID, Content(TypeOrAvro(t.schemaType), t.schema, [], Bare(t.parsed.fingerprint)));
  }

  /** Deleting the version and removing it for good leaves a gap in the index only. */
  lemma LoanLeavesGap(st: State, lent: State, k: SubjectVersion, id: int, f: Fingerprint)
    requires Borrowed(st, lent, k, id, f)
    ensures Forgotten(st, Remove(SoftDelete(lent, {k}), {k}), f)
  {
    var marked := SoftDelete(lent, {k});
    if Without([k], {k}) != [] {
      FirstIn(Without([k], {k}));
    }
    OrphansOfOne(marked, k);
    assert PrintsOf(marked.schemas, {id}) == {f};
    assert marked.versions - {k} == lent.versions - {k};
  }

  lemma LentUnreferenced(st: State, subject: string, t: SchemaText)
    requires AfterImport(st, ImportRecord(Loan(st, subject, t), 1, Bare(t.parsed.fingerprint))).1.Ok? && st.nextID !in st.schemas
    requires forall j | j in LiveView(st) :: LiveView(st)[j].content.references == []
    ensures IsLive(Lent(st, subject, t), SubjectVersion(subject, 1))
    ensures ReferencedBy(Lent(st, subject, t), SubjectVersion(subject, 1)) == {}
  {
    var lent := Lent(st, subject, t);
    LentIs(st, subject, t);
    forall j | IsLive(lent, j)
      ensures ContentOf(lent, j).references == []
    {
      assert j != SubjectVersion(subject, 1) && ContentOf(lent, j).references != [] ==> j in LiveView(st);
    }
  }

  /** The run continued by an import that is deleted and removed for good. */
  function WithLoan(ops: seq<Op>, st: State, subject: string, t: SchemaText): seq<Op> {
    ops + [RegisterWithIDOp(Loan(st, subject, t), 0)] + [DeleteVersionOp(subject, 1, false)] + [DeleteVersionOp(subject, 1, true)]
  }

  /** One more step of a trial that adds nothing to the subject under observation. */
  lemma ExtendElsewhere(env: Env, ops: seq<Op>, op: Op, subject: string, mode: Mode)
    requires Trial(env, ops, subject, mode) && !AddsTo(op, subject)
    requires Plain(op) && Headroom(After(env, ops), op) && ReferenceFree(op)
    ensures Trial(env, ops + [op], subject, mode) && After(env, ops + [op]) == Step(env, After(env, ops), op)
  {
    ExtendTrial(env, ops, op, subject, mode);
    Extend(env, ops, op);
  }

  lemma LoanIsForgotten(env: Env, ops: seq<Op>, obs: string, mode: Mode, subject: string, t: SchemaText)
    requires CleanEnv(env) && Trial(env, ops, obs, mode) && Parses(env, t, []) && subject != obs
    requires Subject(After(env, ops), subject) == {} && 0 < After(env, ops).nextID < MAX_INT64
    requires forall j | j in LiveView(After(env, ops)) :: LiveView(After(env, ops))[j].content.references == []
    ensures Trial(env, WithLoan(ops, After(env, ops), subject, t), obs, mode)
    ensures Forgotten(After(env, ops), After(env, WithLoan(ops, After(env, ops), subject, t)), Bare(t.parsed.fingerprint))
  {
    var st, k := After(env, ops), SubjectVersion(subject, 1);
    var take := RegisterWithIDOp(Loan(st, subject, t), 0);
    var drop, purge := DeleteVersionOp(subject, 1, false), DeleteVersionOp(subject, 1, true);
    RunsAreSound(env, ops);
    ExtendElsewhere(env, ops, take, obs, mode);
    LoanSteps(env, st, subject, t, take, drop, purge);
    RunsAreSound(env, ops + [take]);
    ExtendElsewhere(env, ops + [take], drop, obs, mode);
    ExtendElsewhere(env, ops + [take] + [drop], purge, obs, mode);
  }

  lemma LoanSteps(env: Env, st: State, subject: string, t: SchemaText, take: Op, drop: Op, purge: Op)
    requires CleanEnv(env) && Sound(st) && IdsBelow(st) && 0 < st.nextID < MAX_INT64 && Parses(env, t, []) && Subject(st, subject) == {}
    requires forall j | j in LiveView(st) :: LiveView(st)[j].content.references == []
    requires take == RegisterWithIDOp(Loan(st, subject, t), 0)
    requires drop == DeleteVersionOp(subject, 1, false) && purge == DeleteVersionOp(subject, 1, true)
    ensures Forgotten(st, Step(env, Step(env, Step(env, st, take), drop), purge), Bare(t.parsed.fingerprint))
  {
    var k, lent := SubjectVersion(subject, 1), Lent(st, subject, t);
    LoanGoesThrough(env, st, subject, t);
    LoanBorrows(st, subject, t);
    LentUnreferenced(st, subject, t);
    RegisterWithIDIsSound(env, st, Loan(st, subject, t), 0);
    SoftDeleted(lent, k);
    Purged(SoftDelete(lent, {k}), k);
    LoanLeavesGap(st, lent, k, st.nextID, Bare(t.parsed.fingerprint));
  }

  // ----- every violation is met by some run

  /** With the fingerprint out of the index, the next content with it is stored anew. */
  lemma GapPrimes(st: State, after: State, cfg: Config, k: SubjectVersion, x: SchemaText, a: SchemaText)
    requires OnlyVersion(st, k, x) && Under(st, cfg) && Forgotten(st, after, Bare(a.parsed.fingerprint))
    ensures OnlyVersion(after, k, x) && Under(after, cfg) && Holds(BoundTo(after, a), a)
  {
    SameLiveView(st, after);
  }

  /** After the first version, `a` is stored next as it is unless `x` has its fingerprint. */
  lemma FreshPrimes(st: State, after: State, k: SubjectVersion, x: SchemaText, a: SchemaText)
    requires st.fingerprints == map[] && LiveView(st) == map[] && Joined(st, after, k, x, None) && Indexed(st, after, x)
    ensures OnlyVersion(after, k, x)
    ensures a.parsed.fingerprint != x.parsed.fingerprint || (a.schemaType == x.schemaType && a.schema == x.schema) ==>
              Holds(BoundTo(after, a), a)
  {
  }

  /** A registration adds rows to its own subject only. */
  lemma RegisterRows(env: Env, st: State, req: Request, pick: int, pick2: int, subject: string)
    requires subject != req.subject
    ensures Subject(Register(env, st, req, pick, pick2).0, subject) == Subject(st, subject)
  {
    RegisterEffect(env, st, req, pick, pick2);
    if Register(env, st, req, pick, pick2).1.Registered? {
      CreateRows(st, RecordFor(env, st, Prepare(env, st, req).candidate), subject);
    }
  }

  lemma CreateRows(st: State, record: Record, subject: string)
    requires subject != record.subject
    ensures Subject(AfterCreate(st, record).0, subject) == Subject(st, subject)
  {
  }

  /** The run that registers `x` as the first version of the subject. */
  function FirstOnly(cfg: Config, req: Request): seq<Op> {
    Opening(cfg) + [RegisterOp(req, 0, 0)]
  }

  lemma FirstStored(env: Env, mode: Mode, x: SchemaText, req: Request, a: SchemaText) returns (k: SubjectVersion)
    requires CleanEnv(env) && Submits(env, req, x) && req.metadata == None
    ensures var ops := FirstOnly(Config0(mode, None), req);
            var st := After(env, ops);
            && k.subject == req.subject && Trial(env, ops, req.subject, mode) && Under(st, Config0(mode, None))
            && OnlyVersion(st, k, x) && 0 < st.nextID < 3 && Subject(st, Beside(k.subject)) == {}
            && (a.parsed.fingerprint != x.parsed.fingerprint || (a.schemaType == x.schemaType && a.schema == x.schema) ==>
                  Holds(BoundTo(st, a), a))
  {
    var cfg := Config0(mode, None);
    Opened(env, cfg, req.subject, mode);
    var st := After(env, Opening(cfg));
    NoneElsewhere(st, req.subject);
    k := AddFirst(env, Opening(cfg), req.subject, mode, cfg, x, req);
    FreshPrimes(st, After(env, FirstOnly(cfg, req)), k, x, a);
    Extend(env, Opening(cfg), RegisterOp(req, 0, 0));
    RegisterRows(env, st, req, 0, 0, Beside(req.subject));
  }

  /** If texts that can meet do not carry over, some run without references ends with an incompatible pair. */
  lemma ViolationBreaks(env: Env, a: SchemaText, b: SchemaText, x: SchemaText, subject: string, mode: Mode) returns (ops: seq<Op>)
    requires CleanEnv(env) && mode.IsTransitive() && Storable(env, a, []) && Storable(env, b, []) && Storable(env, x, [])
    requires a.parsed.fingerprint == b.parsed.fingerprint && CanMeet(env, a, x) && !Carries(env, mode, a, [], b, [], x, [])
    ensures Trial(env, ops, subject, mode) && !PairwiseCompatible(env, After(env, ops), subject, mode)
  {
    var cfg := Config0(mode, None);
    var req := Submission(env, x, subject, None);
    var first := Submission(env, a, Beside(subject), None);
    var last := Submission(env, b, subject, TAGGED);
    var k := FirstStored(env, mode, x, req, a);
    var base := FirstOnly(cfg, req);
    if a.parsed.fingerprint == x.parsed.fingerprint && !(a.schemaType == x.schemaType && a.schema == x.schema) {
      base := MakeRoom(env, base, k, x, a, mode);
    }
    Spoil(env, base, cfg, a, b, x, k, first, last);
    ops := base + [RegisterOp(first, 0, 0)] + [RegisterOp(last, 0, 0)];
  }

  lemma MakeRoom(env: Env, ops: seq<Op>, k: SubjectVersion, x: SchemaText, a: SchemaText, mode: Mode) returns (all: seq<Op>)
    requires CleanEnv(env) && Trial(env, ops, k.subject, mode) && Under(After(env, ops), Config0(mode, None))
    requires OnlyVersion(After(env, ops), k, x) && 0 < After(env, ops).nextID < 3
    requires Subject(After(env, ops), Beside(k.subject)) == {} && Importable(env, Bare(a.parsed.fingerprint))
    ensures Trial(env, all, k.subject, mode) && Under(After(env, all), Config0(mode, None)) && After(env, all).nextID < 10
    ensures OnlyVersion(After(env, all), k, x) && Holds(BoundTo(After(env, all), a), a)
  {
    var st := After(env, ops);
    var t :| Parses(env, t, []) && Bare(t.parsed.fingerprint) == Bare(a.parsed.fingerprint);
    LoanIsForgotten(env, ops, k.subject, mode, Beside(k.subject), t);
    all := WithLoan(ops, st, Beside(k.subject), t);
    GapPrimes(st, After(env, all), Config0(mode, None), k, x, a);
  }

  /**
    * Over all runs without references, the transitive gate keeps a subject pairwise compatible if and only if, among
    * texts that can come together, texts of one fingerprint can stand in for each other before the checkers.
    */
  lemma TransitiveCompatibilityExactly(env: Env, subject: string, mode: Mode)
    requires CleanEnv(env) && mode.IsTransitive()
    ensures PlainTextsCarry(env, mode) <==>
            forall ops | Admissible(env, ops) && ReferenceFreeRun(ops) && GovernedRun(env, ops, subject, mode) ::
              PairwiseCompatible(env, After(env, ops), subject, mode)
  {
    if PlainTextsCarry(env, mode) {
      forall ops | Admissible(env, ops) && ReferenceFreeRun(ops) && GovernedRun(env, ops, subject, mode)
        ensures PairwiseCompatible(env, After(env, ops), subject, mode)
      {
        PlainSufficient(env, ops, subject, mode);
      }
    } else {
      var a, b, x :|
        && Storable(env, a, []) && Storable(env, b, []) && Storable(env, x, [])
        && a.parsed.fingerprint == b.parsed.fingerprint && CanMeet(env, a, x)
        && !Carries(env, mode, a, [], b, [], x, []);
      var ops := ViolationBreaks(env, a, b, x, subject, mode);
      assert Trial(env, ops, subject, mode);
    }
  }

  // ----- reserved fields

  function Reserving(property: string): Option<Metadata> {
    Some(Metadata(None, Some(map["confluent:reserved" := property]), None))
  }

  lemma GuardedUnder(env: Env, st: State, cfg: Config, op: Op, subject: string)
    requires Under(st, cfg) && cfg.validateFields == Some(true) && op.RegisterOp?
    ensures Guarded(env, st, op, subject)
  {
  }

  lemma ExtendGuarded(env: Env, ops: seq<Op>, op: Op, subject: string)
    requires GuardedRun(env, ops, subject) && Guarded(env, After(env, ops), op, subject)
    ensures GuardedRun(env, ops + [op], subject)
  {
    Extend(env, ops, op);
    var all := ops + [op];
    assert ops[..|ops|] == ops;
    forall i | 0 <= i < |all|
      ensures Guarded(env, After(env, all[..i]), all[i], subject)
    {
      if i < |ops| {
        assert all[i] == ops[i] && Guarded(env, After(env, ops[..i]), ops[i], subject);
      }
    }
  }

  /** Two first registrations in two subjects, under field validation. */
  function TwoRegistrations(cfg: Config, first: Request, last: Request): seq<Op> {
    Opening(cfg) + [RegisterOp(first, 0, 0)] + [RegisterOp(last, 0, 0)]
  }

  lemma TwoRegistered(env: Env, cfg: Config, a: SchemaText, b: SchemaText, first: Request, last: Request) returns (k: SubjectVersion)
    requires CleanEnv(env) && cfg == Config0(Nothing, Some(true)) && first.subject != last.subject
    requires Submits(env, first, a) && first.metadata == None && a.parsed.fingerprint == b.parsed.fingerprint
    requires Submits(env, last, b) && StripConfluentVersion(last.metadata) == last.metadata
    requires ReservedFields(env, last.metadata) !! b.parsed.fields
    ensures var ops := TwoRegistrations(cfg, first, last);
            && Trial(env, ops, last.subject, Nothing) && GuardedRun(env, ops, last.subject) && k.subject == last.subject
            && k in LiveView(After(env, ops))
            && LiveView(After(env, ops))[k].content == ContentIs(a) && LiveView(After(env, ops))[k].metadata == last.metadata
  {
    var obs := last.subject;
    Opened(env, cfg, obs, Nothing);
    var ops0 := Opening(cfg);
    var st0 := After(env, ops0);
    NoneElsewhere(st0, first.subject);
    var beside := AddFirst(env, ops0, obs, Nothing, cfg, a, first);
    var ops1 := ops0 + [RegisterOp(first, 0, 0)];
    var st1 := After(env, ops1);
    NoneBeside(st0, st1, beside, a, obs);
    k := AddFirst(env, ops1, obs, Nothing, cfg, b, last);
    OpeningGuarded(env, cfg, obs);
    GuardedUnder(env, st0, cfg, RegisterOp(first, 0, 0), obs);
    ExtendGuarded(env, ops0, RegisterOp(first, 0, 0), obs);
    GuardedUnder(env, st1, cfg, RegisterOp(last, 0, 0), obs);
    ExtendGuarded(env, ops1, RegisterOp(last, 0, 0), obs);
    assert BoundTo(st1, b) == BoundTo(st1, a);
  }

  lemma OpeningGuarded(env: Env, cfg: Config, subject: string)
    ensures GuardedRun(env, Opening(cfg), subject)
  {
  }

  lemma NoneBeside(st: State, after: State, beside: SubjectVersion, a: SchemaText, subject: string)
    requires st.fingerprints == map[] && LiveView(st) == map[] && beside.subject != subject
    requires Joined(st, after, beside, a, None) && Indexed(st, after, a)
    ensures LiveNumbers(after, subject) == {} && BoundTo(after, a) == ContentIs(a) && after.nextID <= st.nextID + 1
  {
    NoneElsewhere(after, subject);
  }

  /** If texts of one fingerprint differ in fields that can be reserved, some run without references reserves a live field. */
  lemma FieldsViolationBreaks(env: Env, a: SchemaText, b: SchemaText, subject: string) returns (ops: seq<Op>)
    requires CleanEnv(env) && Storable(env, a, []) && Storable(env, b, [])
    requires a.parsed.fingerprint == b.parsed.fingerprint && !FieldsCarry(env, a, [], b)
    ensures Admissible(env, ops) && ReferenceFreeRun(ops) && GuardedRun(env, ops, subject)
    ensures !ReservedKept(env, After(env, ops), subject)
  {
    var property: string :| property != "" && env.reservedNames(property) !! b.parsed.fields
      && !(env.reservedNames(property) !! FieldsOf(env, a.schemaType, SchemaWithRefs(a.schema, [])));
    var cfg := Config0(Nothing, Some(true));
    var first := Submission(env, a, Beside(subject), None);
    var last := Submission(env, b, subject, Reserving(property));
    var k := TwoRegistered(env, cfg, a, b, first, last);
    ops := TwoRegistrations(cfg, first, last);
    ReservedAndPresent(env, After(env, ops), k, a, property);
  }

  lemma ReservedAndPresent(env: Env, st: State, k: SubjectVersion, a: SchemaText, property: string)
    requires property != "" && k in LiveView(st)
    requires LiveView(st)[k].content == ContentIs(a) && LiveView(st)[k].metadata == Reserving(property)
    requires !(env.reservedNames(property) !! FieldsOf(env, a.schemaType, SchemaWithRefs(a.schema, [])))
    ensures !ReservedKept(env, st, k.subject)
  {
    PlainForm(st, k);
    assert k == SubjectVersion(k.subject, k.version);
    assert !ReservedPair(env, st, k.subject, k.version, k.version);
  }

  /**
    * Over all runs without references, reserved names stay reserved and off the live texts if and only if texts of one
    * fingerprint have the same fields as far as names can be reserved.
    */
  lemma ReservedFieldsExactly(env: Env, subject: string)
    requires CleanEnv(env)
    ensures PlainFieldsCarry(env) <==>
            forall ops | Admissible(env, ops) && ReferenceFreeRun(ops) && GuardedRun(env, ops, subject) ::
              ReservedKept(env, After(env, ops), subject)
  {
    if PlainFieldsCarry(env) {
      forall ops | Admissible(env, ops) && ReferenceFreeRun(ops) && GuardedRun(env, ops, subject)
        ensures ReservedKept(env, After(env, ops), subject)
      {
        PlainFieldsSufficient(env, ops, subject);
      }
    } else {
      var a, b :|
        && Storable(env, a, []) && Storable(env, b, [])
        && a.parsed.fingerprint == b.parsed.fingerprint && !FieldsCarry(env, a, [], b);
      var ops := FieldsViolationBreaks(env, a, b, subject);
      assert ReferenceFreeRun(ops);
    }
  }

  // ----- an example: aliases

  /** A record with one field `g`, one with one field `f`, and one with a field `g` that has the alias `f`. */
  const PLAIN_G := "R{g:int}"
  const PLAIN_F := "R{f:int}"
  const ALIASED_G := "R{g:int,aliases:[f]}"

  /** The fingerprint is taken of a canonical form, which leaves aliases out. */
  function ParseRecord(schema: string): Option<Parsed> {
    if schema == PLAIN_G || schema == ALIASED_G then Some(Parsed(PLAIN_G, PLAIN_G, {"g"}))
    else if schema == PLAIN_F then Some(Parsed(PLAIN_F, PLAIN_F, {"f"}))
    else None
  }

  function NamesAndAliases(schema: string): set<string> {
    if schema == PLAIN_G then {"g"} else if schema == PLAIN_F then {"f"} else {"f", "g"}
  }

  /** The checker matches a reader's field with a writer's by name or alias. */
  function CheckRecord(reader: SchemaWithRefs, writer: SchemaWithRefs): Verdict {
    if NamesAndAliases(reader.schema) !! NamesAndAliases(writer.schema)
    then Verdict(false, ["reader field has no default and is missing from writer"]) else Verdict(true, [])
  }

  const ALIASING := Env(
    map["AVRO" := (schema: string, refs: seq<Resolved>) => ParseRecord(schema)],
    (p: Parsed) => p,
    map["AVRO" := (reader: SchemaWithRefs, writer: SchemaWithRefs) => CheckRecord(reader, writer)],
    (r: RuleSet) => true, (text: string) => None, (text: string) => {}, Backward)

  function RecordText(schema: string): SchemaText
    requires ParseRecord(schema).Some?
  {
    SchemaText("AVRO", schema, ParseRecord(schema).value)
  }

  lemma AliasingIsClean()
    ensures CleanEnv(ALIASING)
  {
  }

  lemma AliasesDoNotCarry()
    ensures PLAIN_G != PLAIN_F && ALIASED_G != PLAIN_F && ALIASED_G != PLAIN_G
    ensures RecordText(PLAIN_G).parsed.fingerprint == RecordText(ALIASED_G).parsed.fingerprint != RecordText(PLAIN_F).parsed.fingerprint
    ensures !Carries(ALIASING, BackwardTransitive, RecordText(PLAIN_G), [], RecordText(ALIASED_G), [], RecordText(PLAIN_F), [])
  {
    assert PLAIN_G[2] != PLAIN_F[2];
    assert |ALIASED_G| != |PLAIN_F| == |PLAIN_G|;
    assert "f" in NamesAndAliases(ALIASED_G) && "f" in NamesAndAliases(PLAIN_F);
    assert "f"[0] != "g"[0];
  }

  function AvroRequest(subject: string, schema: string, metadata: Option<Metadata>): Request {
    Request(subject, "AVRO", schema, [], false, metadata, None)
  }

  lemma RecordSubmits(subject: string, schema: string, metadata: Option<Metadata>)
    requires ParseRecord(schema).Some?
    ensures Submits(ALIASING, AvroRequest(subject, schema, metadata), RecordText(schema))
  {
  }

  /** A subject's first text, another text beside it, and a third one that is bound to the second. */
  function ThreeRegistrations(mode: Mode, req: Request, first: Request, last: Request): seq<Op> {
    FirstOnly(Config0(mode, None), req) + [RegisterOp(first, 0, 0)] + [RegisterOp(last, 0, 0)]
  }

  lemma ThreeRegistrationsBreak(env: Env, mode: Mode, a: SchemaText, b: SchemaText, x: SchemaText, req: Request, first: Request, last: Request)
    requires CleanEnv(env) && mode.IsTransitive() && Submits(env, req, x) && Submits(env, first, a) && Submits(env, last, b)
    requires first.subject != req.subject == last.subject
    requires req.metadata == None && first.metadata == None && last.metadata == TAGGED
    requires a.parsed.fingerprint == b.parsed.fingerprint != x.parsed.fingerprint && !Carries(env, mode, a, [], b, [], x, [])
    ensures var ops := ThreeRegistrations(mode, req, first, last);
            Trial(env, ops, req.subject, mode) && !PairwiseCompatible(env, After(env, ops), req.subject, mode)
  {
    var k := FirstStored(env, mode, x, req, a);
    var base := FirstOnly(Config0(mode, None), req);
    Spoil(env, base, Config0(mode, None), a, b, x, k, first, last);
  }

  /**
    * Under BACKWARD_TRANSITIVE: `f` in subject s; `g` in subject t; then `g` with alias `f` in s. The gate admits the
    * submitted text, which can read the first version; the version is bound to the text without the alias, which cannot.
    */
  lemma AliasEscapesTheGate()
    ensures var ops := ThreeRegistrations(BackwardTransitive, AvroRequest("s", PLAIN_F, None), AvroRequest("t", PLAIN_G, None),
                                          AvroRequest("s", ALIASED_G, TAGGED));
            && CleanEnv(ALIASING) && Admissible(ALIASING, ops) && GovernedRun(ALIASING, ops, "s", BackwardTransitive)
            && !PairwiseCompatible(ALIASING, After(ALIASING, ops), "s", BackwardTransitive)
  {
    AliasingIsClean();
    AliasesDoNotCarry();
    RecordSubmits("s", PLAIN_F, None);
    RecordSubmits("t", PLAIN_G, None);
    RecordSubmits("s", ALIASED_G, TAGGED);
    assert "s"[0] != "t"[0];
    ThreeRegistrationsBreak(ALIASING, BackwardTransitive, RecordText(PLAIN_G), RecordText(ALIASED_G), RecordText(PLAIN_F),
      AvroRequest("s", PLAIN_F, None), AvroRequest("t", PLAIN_G, None), AvroRequest("s", ALIASED_G, TAGGED));
  }
}
