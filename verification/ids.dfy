/** When new content gets an unused ID: what the counter guarantees about everything that can still happen. */
module SchemaIDs {
  import opened Options
  import opened Fingerprints
  import opened Resolver
  import opened Metadatas
  import opened Compatibility
  import opened Storage
  import opened Registry
  import opened Integrity
  import opened Origins
  import FailingRuns

  const MIN_INT64 := -0x8000_0000_0000_0000

  /** Counter and stored IDs are 64-bit numbers. */
  ghost predicate Fits(st: State) {
    MIN_INT64 <= st.nextID <= MAX_INT64 && forall id | id in st.schemas :: id <= MAX_INT64
  }

  /** The operation stores new content under an ID that other content has. */
  predicate Clashes(env: Env, st: State, op: Op) {
    && op.RegisterOp? && Prepare(env, st, op.request).Ready?
    && Prepare(env, st, op.request).candidate.fingerprint !in st.fingerprints
    && var outcome := Register(env, st, op.request, op.pick, op.pick2).1;
       outcome.Registered? && outcome.stored.id in st.schemas
  }

  /** Then every version with that ID reads the new text from now on. */
  lemma ClashOverwrites(env: Env, st: State, op: Op, k: SubjectVersion)
    requires Clashes(env, st, op) && k in st.versions
    requires st.versions[k].schemaID == Register(env, st, op.request, op.pick, op.pick2).1.stored.id
    requires k != SubjectVersion(op.request.subject, Register(env, st, op.request, op.pick, op.pick2).1.stored.version)
    ensures var after := Step(env, st, op);
            && k in after.versions && after.versions[k].schemaID in after.schemas
            && ContentOf(after, k).schema == Prepare(env, st, op.request).candidate.schema
  {
    RegisterEffect(env, st, op.request, op.pick, op.pick2);
    CreateOverwrites(st, RecordFor(env, st, Prepare(env, st, op.request).candidate), k);
  }

  lemma CreateOverwrites(st: State, record: Record, k: SubjectVersion)
    requires AfterCreate(st, record).1.Ok? && record.fingerprint !in st.fingerprints && k in st.versions
    requires st.versions[k].schemaID == AfterCreate(st, record).1.value.id
    requires k != SubjectVersion(record.subject, AfterCreate(st, record).1.value.version)
    ensures var after := AfterCreate(st, record).0;
            && k in after.versions && after.versions[k] == st.versions[k]
            && after.versions[k].schemaID in after.schemas && ContentOf(after, k) == ContentFrom(record)
  {
  }

  // ----- continuations

  function AfterMore(env: Env, st: State, ops: seq<Op>): State {
    if ops == [] then st else Step(env, AfterMore(env, st, ops[..|ops| - 1]), ops[|ops| - 1])
  }

  /** Imported IDs are below the largest, and the counter has room for all but possibly the last registration. */
  ghost predicate Roomy(env: Env, st: State, ops: seq<Op>) {
    forall i | 0 <= i < |ops| :: (i == |ops| - 1 && ops[i].RegisterOp?) || Headroom(AfterMore(env, st, ops[..i]), ops[i])
  }

  ghost predicate NeverClashes(env: Env, st: State, ops: seq<Op>) {
    forall i | 0 <= i < |ops| :: !Clashes(env, AfterMore(env, st, ops[..i]), ops[i])
  }

  // ----- a counter above every ID

  lemma HeadroomKeepsBelow(env: Env, st: State, op: Op)
    requires IdsBelow(st) && Headroom(st, op)
    ensures IdsBelow(Step(env, st, op))
  {
    match op
    case RegisterOp(req, pick, pick2) => RegisterKeepsBelow(env, st, req, pick, pick2);
    case RegisterWithIDOp(req, pick) =>
      if RegisterWithID(env, st, req, pick).1.Registered? {
        RegisterWithIDIdsBelow(env, st, req, pick);
      } else {
        RegisterWithIDNoEffect(env, st, req, pick);
      }
    case ImportOp(reqs) =>
      ImportLoopFacts(env, st, reqs);
      ImportSchemasIdsBelow(env, st, reqs);
    case DeleteSubjectOp(subject, _) => RemoveIdsBelow(st, Subject(st, subject));
    case DeleteVersionOp(subject, version, permanent) => DeleteVersionIdsBelow(st, subject, version, permanent);
    case SetConfigOp(_, _) =>
    case ClearConfigOp(_) =>
  }

  lemma RegisterKeepsBelow(env: Env, st: State, req: Request, pick: int, pick2: int)
    requires IdsBelow(st) && st.nextID < MAX_INT64
    ensures IdsBelow(Register(env, st, req, pick, pick2).0)
  {
    RegisterEffect(env, st, req, pick, pick2);
    if Register(env, st, req, pick, pick2).1.Registered? {
      var record := RecordFor(env, st, Prepare(env, st, req).candidate);
      if record.fingerprint !in st.fingerprints {
        CreateIdsBelow(st, record);
      }
    }
  }

  lemma BelowDoesNotClash(env: Env, st: State, op: Op)
    requires IdsBelow(st)
    ensures !Clashes(env, st, op)
  {
    if op.RegisterOp? {
      RegisterEffect(env, st, op.request, op.pick, op.pick2);
    }
  }

  lemma {:induction false} StaysBelow(env: Env, st: State, ops: seq<Op>)
    requires IdsBelow(st) && forall i | 0 <= i < |ops| :: Headroom(AfterMore(env, st, ops[..i]), ops[i])
    ensures IdsBelow(AfterMore(env, st, ops))
  {
    if ops != [] {
      var n := |ops| - 1;
      forall i | 0 <= i < n
        ensures Headroom(AfterMore(env, st, ops[..n][..i]), ops[..n][i])
      {
        assert ops[..n][..i] == ops[..i];
      }
      StaysBelow(env, st, ops[..n]);
      assert Headroom(AfterMore(env, st, ops[..n]), ops[n]);
      HeadroomKeepsBelow(env, AfterMore(env, st, ops[..n]), ops[n]);
    }
  }

  lemma BelowNeverClashes(env: Env, st: State, ops: seq<Op>)
    requires IdsBelow(st) && Roomy(env, st, ops)
    ensures NeverClashes(env, st, ops)
  {
    forall i | 0 <= i < |ops|
      ensures !Clashes(env, AfterMore(env, st, ops[..i]), ops[i])
    {
      forall j | 0 <= j < |ops[..i]|
        ensures Headroom(AfterMore(env, st, ops[..i][..j]), ops[..i][j])
      {
        assert ops[..i][..j] == ops[..j];
      }
      StaysBelow(env, st, ops[..i]);
      BelowDoesNotClash(env, AfterMore(env, st, ops[..i]), ops[i]);
    }
  }

  // ----- single steps that go through

  function ImportOf(subject: string, t: SchemaText, id: int): IDRequest {
    IDRequest(subject, t.schemaType, t.schema, [], id, 1)
  }

  /** The state with the text stored under the ID, as the first version of the subject. */
  ghost predicate Imported(st: State, after: State, subject: string, t: SchemaText, id: int) {
    var k := SubjectVersion(subject, 1);
    && after.schemas == st.schemas[id := Content(t.schemaType, t.schema, [], Bare(t.parsed.fingerprint))]
    && after.fingerprints == st.fingerprints[Bare(t.parsed.fingerprint) := id]
    && after.versions == st.versions[k := VersionInfo(id, false, None, None)]
    && after.settings == st.settings
    && after.nextID == if id < MAX_INT64 && id + 1 > st.nextID then id + 1 else st.nextID
  }

  lemma NoneFoundIn(st: State, subject: string, f: Fingerprint, pick: int)
    requires Subject(st, subject) == {}
    ensures LiveNumbers(st, subject) == {} && FindByFingerprint(st, subject, f, pick) == None
  {
    assert forall v :: IsLive(st, SubjectVersion(subject, v)) ==> SubjectVersion(subject, v) in Subject(st, subject);
    assert LiveNumbers(st, subject) == {};
    assert WithFingerprint(st, subject, f) == {};
  }

  lemma ImportReadies(env: Env, st: State, subject: string, t: SchemaText, id: int)
    requires Parses(env, t, [])
    ensures PrepareImport(env, st, ImportOf(subject, t, id)) == ImportReady(Bare(t.parsed.fingerprint))
  {
    assert Resolve(LookupGraph(st), []) == Done({}, []);
  }

  /** An import under an unused ID into a subject without versions goes through. */
  lemma ImportIn(env: Env, st: State, subject: string, t: SchemaText, id: int)
    requires Parses(env, t, []) && Subject(st, subject) == {} && id !in st.schemas
    requires MIN_INT64 <= st.nextID <= MAX_INT64 && MIN_INT64 <= id <= MAX_INT64
    ensures Imported(st, RegisterWithID(env, st, ImportOf(subject, t, id), 0).0, subject, t, id)
  {
    var f := Bare(t.parsed.fingerprint);
    ImportReadies(env, st, subject, t, id);
    NoneFoundIn(st, subject, f, 0);
    assert SubjectVersion(subject, 1) !in Subject(st, subject);
    AdvancedNextIDExact(AfterImport(st, ImportRecord(ImportOf(subject, t, id), 1, f)).0, id);
  }

  function RegistrationOf(subject: string, t: SchemaText): Request {
    Request(subject, t.schemaType, t.schema, [], false, None, None)
  }

  predicate Unhindered(st: State, subject: string) {
    !NormalizeEnabled(st, subject) && !ValidateFieldsEnabled(st, subject)
  }

  lemma Readies(env: Env, st: State, subject: string, t: SchemaText)
    requires Parses(env, t, []) && Unhindered(st, subject)
    ensures Prepare(env, st, RegistrationOf(subject, t))
         == Ready(Candidate(RegistrationOf(subject, t), t.schemaType, t.schema, [], t.parsed, Bare(t.parsed.fingerprint)))
  {
    assert Resolve(LookupGraph(st), []) == Done({}, []);
  }

  /** A first registration in a subject without versions goes through; a new text gets the next ID. */
  lemma RegisterIn(env: Env, st: State, subject: string, t: SchemaText)
    requires Parses(env, t, []) && Subject(st, subject) == {} && Unhindered(st, subject)
    ensures var req := RegistrationOf(subject, t);
            var record := RecordFor(env, st, Prepare(env, st, req).candidate);
            && AfterCreate(st, record).1.Ok?
            && Register(env, st, req, 0, 0) == (AfterCreate(st, record).0, Registered(AfterCreate(st, record).1.value))
            && AfterCreate(st, record).1.value.id == IdFor(st, record)
            && record.fingerprint == Bare(t.parsed.fingerprint) && record.subject == subject && record.schema == t.schema
  {
    var req := RegistrationOf(subject, t);
    Readies(env, st, subject, t);
    var c := Prepare(env, st, req).candidate;
    NoneFoundIn(st, subject, c.fingerprint, 0);
    FailingRuns.FirstGatePasses(env, st, c);
    assert !IsDuplicate(st, RecordFor(env, st, c));
  }

  /** If the next ID is taken, a new text clashes. */
  lemma NextIsTaken(env: Env, st: State, subject: string, t: SchemaText)
    requires Parses(env, t, []) && Subject(st, subject) == {} && Unhindered(st, subject)
    requires Bare(t.parsed.fingerprint) !in st.fingerprints && st.nextID in st.schemas
    ensures Clashes(env, st, RegisterOp(RegistrationOf(subject, t), 0, 0))
  {
    Readies(env, st, subject, t);
    RegisterIn(env, st, subject, t);
  }

  // ----- subjects that do not exist yet

  lemma {:induction false} LongerThanAll(keys: set<SubjectVersion>) returns (n: nat)
    ensures forall k | k in keys :: |k.subject| < n
  {
    if keys == {} {
      n := 0;
    } else {
      var k := Member(keys);
      var rest := LongerThanAll(keys - {k});
      n := if rest > |k.subject| then rest else |k.subject| + 1;
      assert forall j | j in keys :: j == k || j in keys - {k};
    }
  }

  function Dashes(n: nat): (s: string)
    ensures |s| == n
  {
    seq(n, _ => '-')
  }

  lemma TwoNewSubjects(st: State) returns (u: string, w: string)
    ensures u != "" && w != u && Subject(st, u) == {} && Subject(st, w) == {}
  {
    var n := LongerThanAll(st.versions.Keys);
    u, w := Dashes(n + 1), Dashes(n + 2);
    assert |u| != |w|;
  }

  // ----- a stored ID at or above the counter

  const OPEN := Config(Nothing, Some(false), Some(false), "", Layers(None, None, None, None))

  /** A continuation that runs into the ID `m`: make the counter reach it, then register something new. */
  function RunInto(st: State, a: SchemaText, b: SchemaText, u: string, w: string, m: int): seq<Op> {
    if m == st.nextID then [SetConfigOp(OfSubject(u), OPEN)] + [RegisterOp(RegistrationOf(u, b), 0, 0)]
    else [SetConfigOp(OfSubject(u), OPEN)] + [RegisterWithIDOp(ImportOf(w, a, m - 1), 0)] + [RegisterOp(RegistrationOf(u, b), 0, 0)]
  }

  /** Two texts that parse, have different fingerprints, and are not stored yet. */
  ghost predicate NewTexts(env: Env, st: State, a: SchemaText, b: SchemaText) {
    && Parses(env, a, []) && Parses(env, b, []) && a.parsed.fingerprint != b.parsed.fingerprint
    && Bare(a.parsed.fingerprint) !in st.fingerprints && Bare(b.parsed.fingerprint) !in st.fingerprints
  }

  ghost predicate LeastAbove(st: State, m: int) {
    m in st.schemas && m >= st.nextID && forall id | id in st.schemas && id >= st.nextID :: m <= id
  }

  lemma LeastAboveExists(st: State) returns (m: int)
    requires exists id :: id in st.schemas && id >= st.nextID
    ensures LeastAbove(st, m)
  {
    var above := set id | id in st.schemas && id >= st.nextID;
    var some :| some in st.schemas && some >= st.nextID;
    assert some in above;
    LeastExists(above);
    m :| IsLeast(m, above);
    assert forall id | id in st.schemas && id >= st.nextID :: id in above;
  }

  lemma AfterOne(env: Env, st: State, ops: seq<Op>, op: Op)
    ensures AfterMore(env, st, ops + [op]) == Step(env, AfterMore(env, st, ops), op)
    ensures forall i | 0 <= i <= |ops| :: (ops + [op])[..i] == ops[..i]
  {
    assert (ops + [op])[..|ops|] == ops;
  }

  lemma RoomyAndClashing(env: Env, st: State, ops: seq<Op>, op: Op)
    requires forall i | 0 <= i < |ops| :: Headroom(AfterMore(env, st, ops[..i]), ops[i])
    requires op.RegisterOp? && Clashes(env, AfterMore(env, st, ops), op)
    ensures Roomy(env, st, ops + [op]) && !NeverClashes(env, st, ops + [op])
  {
    AfterOne(env, st, ops, op);
    var all := ops + [op];
    assert ops[..|ops|] == ops;
    forall i | 0 <= i < |ops|
      ensures Headroom(AfterMore(env, st, all[..i]), all[i])
    {
      assert all[i] == ops[i] && all[..i] == ops[..i];
    }
    assert all[..|ops|] == ops && all[|ops|] == op;
  }

  lemma Configured(env: Env, st: State, u: string)
    requires u != ""
    ensures var after := Step(env, st, SetConfigOp(OfSubject(u), OPEN));
            after == st.(settings := after.settings) && Unhindered(after, u)
  {
  }

  lemma ImportedKeeps(st: State, after: State, w: string, a: SchemaText, id: int, u: string)
    requires Imported(st, after, w, a, id) && u != w && Unhindered(st, u) && Subject(st, u) == {}
    ensures Unhindered(after, u) && Subject(after, u) == {}
  {
    assert forall k | k in Subject(after, u) :: k in Subject(st, u);
  }

  /** With the counter at the taken ID the very next new text clashes. */
  lemma AtOnce(env: Env, st: State, b: SchemaText, u: string)
    requires u != "" && Subject(st, u) == {} && st.nextID in st.schemas
    requires Parses(env, b, []) && Bare(b.parsed.fingerprint) !in st.fingerprints
    ensures Clashes(env, Step(env, st, SetConfigOp(OfSubject(u), OPEN)), RegisterOp(RegistrationOf(u, b), 0, 0))
  {
    var open := Step(env, st, SetConfigOp(OfSubject(u), OPEN));
    Configured(env, st, u);
    SameSubject(st, open, u);
    NextIsTaken(env, open, u, b);
  }

  lemma SameSubject(st: State, after: State, u: string)
    requires after.versions == st.versions
    ensures Subject(after, u) == Subject(st, u)
  {
  }

  /** Otherwise an import just below the taken ID moves the counter there. */
  lemma ImportBelow(env: Env, open: State, a: SchemaText, b: SchemaText, u: string, w: string, m: int)
    requires MIN_INT64 <= open.nextID < m <= MAX_INT64 && LeastAbove(open, m) && NewTexts(env, open, a, b)
    requires u != w && Subject(open, u) == {} && Subject(open, w) == {} && Unhindered(open, u)
    ensures var op := RegisterWithIDOp(ImportOf(w, a, m - 1), 0);
            Headroom(open, op) && Clashes(env, Step(env, open, op), RegisterOp(RegistrationOf(u, b), 0, 0))
  {
    ImportIn(env, open, w, a, m - 1);
    MovedClashes(env, open, RegisterWithID(env, open, ImportOf(w, a, m - 1), 0).0, a, b, u, w, m);
  }

  lemma MovedClashes(env: Env, st: State, moved: State, a: SchemaText, b: SchemaText, u: string, w: string, m: int)
    requires Imported(st, moved, w, a, m - 1) && m > st.nextID && m <= MAX_INT64 && m in st.schemas && NewTexts(env, st, a, b)
    requires u != w && Subject(st, u) == {} && Unhindered(st, u)
    ensures Clashes(env, moved, RegisterOp(RegistrationOf(u, b), 0, 0))
  {
    ImportedKeeps(st, moved, w, a, m - 1, u);
    NextIsTaken(env, moved, u, b);
  }

  lemma OneOpen(env: Env, st: State, op: Op)
    requires Headroom(st, op)
    ensures AfterMore(env, st, [op]) == Step(env, st, op)
    ensures forall i | 0 <= i < 1 :: Headroom(AfterMore(env, st, [op][..i]), [op][i])
  {
    assert [op][..0] == [];
  }

  lemma TwoOpen(env: Env, st: State, x: Op, y: Op)
    requires Headroom(st, x) && Headroom(Step(env, st, x), y)
    ensures AfterMore(env, st, [x] + [y]) == Step(env, Step(env, st, x), y)
    ensures forall i | 0 <= i < 2 :: Headroom(AfterMore(env, st, ([x] + [y])[..i]), ([x] + [y])[i])
  {
    OneOpen(env, st, x);
    AfterOne(env, st, [x], y);
    var both := [x] + [y];
    assert both[..0] == [] && both[..1] == [x];
    assert Headroom(AfterMore(env, st, both[..0]), both[0]) && Headroom(AfterMore(env, st, both[..1]), both[1]);
  }

  /** If some stored ID is not below the counter, some continuation runs into it. */
  lemma AboveClashes(env: Env, st: State, a: SchemaText, b: SchemaText) returns (more: seq<Op>)
    requires Fits(st) && NewTexts(env, st, a, b) && !IdsBelow(st)
    ensures Roomy(env, st, more) && !NeverClashes(env, st, more)
  {
    var m := LeastAboveExists(st);
    var u, w := TwoNewSubjects(st);
    var config, last := SetConfigOp(OfSubject(u), OPEN), RegisterOp(RegistrationOf(u, b), 0, 0);
    if m == st.nextID {
      AtOnce(env, st, b, u);
      OneOpen(env, st, config);
      RoomyAndClashing(env, st, [config], last);
      more := [config] + [last];
    } else {
      var op := RegisterWithIDOp(ImportOf(w, a, m - 1), 0);
      Configured(env, st, u);
      SameSubject(st, Step(env, st, config), u);
      SameSubject(st, Step(env, st, config), w);
      ImportBelow(env, Step(env, st, config), a, b, u, w, m);
      TwoOpen(env, st, config, op);
      RoomyAndClashing(env, st, [config] + [op], last);
      more := [config] + [op] + [last];
    }
  }

  /**
    * From any state, new content gets an unused ID in every continuation that imports no ID as large as the largest and does
    * not push the counter over its end, if and only if every stored ID is below the counter.
    */
  lemma UnusedIDsExactly(env: Env, st: State, a: SchemaText, b: SchemaText)
    requires Fits(st) && NewTexts(env, st, a, b)
    ensures (forall more | Roomy(env, st, more) :: NeverClashes(env, st, more)) <==> IdsBelow(st)
  {
    if IdsBelow(st) {
      forall more | Roomy(env, st, more)
        ensures NeverClashes(env, st, more)
      {
        BelowNeverClashes(env, st, more);
      }
    } else {
      var more := AboveClashes(env, st, a, b);
    }
  }

  // ----- which runs leave the counter above every ID

  /** The imported IDs are 64-bit numbers. */
  predicate IDsFit(op: Op) {
    match op
    case RegisterWithIDOp(req, _) => MIN_INT64 <= req.id <= MAX_INT64
    case ImportOp(reqs) => forall r | r in reqs :: r.id <= MAX_INT64
    case _ => true
  }

  /** Besides, only single imports bring in the largest ID, and registrations have room. */
  predicate SingleLargest(st: State, op: Op) {
    && IDsFit(op) && (op.RegisterOp? ==> st.nextID < MAX_INT64)
    && (op.ImportOp? ==> forall r | r in op.requests :: r.id < MAX_INT64)
  }

  /** Every stored ID but the largest is below the counter. */
  ghost predicate NearlyBelow(st: State) {
    MIN_INT64 <= st.nextID <= MAX_INT64 && forall id | id in st.schemas :: id < st.nextID || id == MAX_INT64
  }

  lemma CreateKeepsNearly(st: State, record: Record)
    requires NearlyBelow(st) && st.nextID < MAX_INT64 && AfterCreate(st, record).1.Ok?
    ensures NearlyBelow(AfterCreate(st, record).0)
  {
    Wrap64InRange(st.nextID + 1);
  }

  lemma RegisterKeepsNearly(env: Env, st: State, req: Request, pick: int, pick2: int)
    requires NearlyBelow(st) && st.nextID < MAX_INT64
    ensures NearlyBelow(Register(env, st, req, pick, pick2).0)
  {
    RegisterEffect(env, st, req, pick, pick2);
    if Register(env, st, req, pick, pick2).1.Registered? {
      CreateKeepsNearly(st, RecordFor(env, st, Prepare(env, st, req).candidate));
    }
  }

  lemma ImportAddsID(st: State, record: Record)
    ensures var after := AfterImport(st, record).0;
            after.nextID == st.nextID && after.schemas.Keys <= st.schemas.Keys + {record.id}
  {
  }

  lemma AdvancedKeepsNearly(st: State, after: State, id: int, r: State)
    requires NearlyBelow(st) && after.schemas.Keys <= st.schemas.Keys + {id} && r.schemas == after.schemas && id <= MAX_INT64
    requires r.nextID == if id < MAX_INT64 && id + 1 > st.nextID then id + 1 else st.nextID
    ensures NearlyBelow(r)
  {
  }

  lemma FewerKeepsNearly(st: State, r: State)
    requires NearlyBelow(st) && r.nextID == st.nextID && r.schemas.Keys <= st.schemas.Keys
    ensures NearlyBelow(r)
  {
  }

  lemma DeletesKeepNearly(env: Env, st: State, op: Op)
    requires NearlyBelow(st) && (op.DeleteSubjectOp? || op.DeleteVersionOp?)
    ensures NearlyBelow(Step(env, st, op))
  {
    if op.DeleteVersionOp? {
      DeleteVersionIs(st, op.subject, op.version, op.permanent);
    }
    FewerKeepsNearly(st, Step(env, st, op));
  }

  lemma RegisterWithIDKeepsNearly(env: Env, st: State, req: IDRequest, pick: int)
    requires NearlyBelow(st) && MIN_INT64 <= req.id <= MAX_INT64
    ensures NearlyBelow(RegisterWithID(env, st, req, pick).0)
  {
    if RegisterWithID(env, st, req, pick).1.Registered? {
      var record := ImportRecord(req, AssignedVersion(st, req.subject, req.version), PrepareImport(env, st, req).fingerprint);
      var after := AfterImport(st, record).0;
      ImportAddsID(st, record);
      AdvancedNextIDExact(after, req.id);
      AdvancedKeepsNearly(st, after, req.id, RegisterWithID(env, st, req, pick).0);
    } else {
      RegisterWithIDNoEffect(env, st, req, pick);
    }
  }

  lemma ImportKeepsNearly(env: Env, st: State, reqs: seq<IDRequest>)
    requires NearlyBelow(st) && forall r | r in reqs :: r.id < MAX_INT64
    ensures NearlyBelow(ImportSchemas(env, st, reqs).0)
  {
    ImportLoopFacts(env, st, reqs);
    var b := ImportLoop(env, st, reqs);
    if b.maxID > 0 {
      AdvancedNextIDExact(b.state, b.maxID);
    }
  }

  lemma StepKeepsNearly(env: Env, st: State, op: Op)
    requires NearlyBelow(st) && SingleLargest(st, op)
    ensures NearlyBelow(Step(env, st, op))
  {
    match op
    case RegisterOp(req, pick, pick2) => RegisterKeepsNearly(env, st, req, pick, pick2);
    case RegisterWithIDOp(req, pick) => RegisterWithIDKeepsNearly(env, st, req, pick);
    case ImportOp(reqs) => ImportKeepsNearly(env, st, reqs);
    case DeleteSubjectOp(_, _) => DeletesKeepNearly(env, st, op);
    case DeleteVersionOp(_, _, _) => DeletesKeepNearly(env, st, op);
    case SetConfigOp(_, _) =>
    case ClearConfigOp(_) =>
  }

  /** After a run that brings in the largest ID by single imports only, the counter is above every ID unless the largest is stored. */
  lemma {:induction false} LargestDecides(env: Env, ops: seq<Op>)
    requires forall i | 0 <= i < |ops| :: SingleLargest(After(env, ops[..i]), ops[i])
    ensures NearlyBelow(After(env, ops)) && (IdsBelow(After(env, ops)) <==> MAX_INT64 !in After(env, ops).schemas)
  {
    if ops != [] {
      var n := |ops| - 1;
      forall i | 0 <= i < n
        ensures SingleLargest(After(env, ops[..n][..i]), ops[..n][i])
      {
        assert ops[..n][..i] == ops[..i];
      }
      LargestDecides(env, ops[..n]);
      StepKeepsNearly(env, After(env, ops[..n]), ops[n]);
      NearlyIsBelow(After(env, ops));
    }
  }

  lemma NearlyIsBelow(st: State)
    requires NearlyBelow(st)
    ensures IdsBelow(st) <==> MAX_INT64 !in st.schemas
  {
  }

  // ----- every run of 64-bit imports stays within 64 bits

  lemma WrapFits(n: int)
    ensures MIN_INT64 <= Wrap64(n) <= MAX_INT64
  {
  }

  lemma RegisterFits(env: Env, st: State, req: Request, pick: int, pick2: int)
    requires Fits(st)
    ensures Fits(Register(env, st, req, pick, pick2).0)
  {
    RegisterEffect(env, st, req, pick, pick2);
    WrapFits(st.nextID + 1);
    if Register(env, st, req, pick, pick2).1.Registered? {
      CreateFits(st, RecordFor(env, st, Prepare(env, st, req).candidate));
    }
  }

  lemma CreateFits(st: State, record: Record)
    requires Fits(st)
    ensures Fits(AfterCreate(st, record).0)
  {
    WrapFits(st.nextID + 1);
  }

  lemma RegisterWithIDFits(env: Env, st: State, req: IDRequest, pick: int)
    requires Fits(st) && req.id <= MAX_INT64
    ensures Fits(RegisterWithID(env, st, req, pick).0)
  {
    RegisterWithIDIs(env, st, req, pick);
    WrapFits(req.id + 1);
    WrapFits(Wrap64(st.nextID - 1) + 1);
    if PrepareImport(env, st, req).ImportReady? {
      ImportAddsID(st, ImportRecord(req, AssignedVersion(st, req.subject, req.version), PrepareImport(env, st, req).fingerprint));
    }
  }

  lemma BulkFits(env: Env, st: State, reqs: seq<IDRequest>)
    requires Fits(st) && forall r | r in reqs :: r.id <= MAX_INT64
    ensures Fits(ImportSchemas(env, st, reqs).0)
  {
    ImportLoopFacts(env, st, reqs);
    var b := ImportLoop(env, st, reqs);
    WrapFits(b.maxID + 1);
    WrapFits(Wrap64(b.state.nextID - 1) + 1);
  }

  lemma DeletesFit(env: Env, st: State, op: Op)
    requires Fits(st) && (op.DeleteSubjectOp? || op.DeleteVersionOp?)
    ensures Fits(Step(env, st, op))
  {
    if op.DeleteVersionOp? {
      DeleteVersionIs(st, op.subject, op.version, op.permanent);
    }
    FewerFit(st, Step(env, st, op));
  }

  lemma FewerFit(st: State, r: State)
    requires Fits(st) && r.nextID == st.nextID && r.schemas.Keys <= st.schemas.Keys
    ensures Fits(r)
  {
  }

  lemma StepFits(env: Env, st: State, op: Op)
    requires Fits(st) && IDsFit(op)
    ensures Fits(Step(env, st, op))
  {
    match op
    case RegisterOp(req, pick, pick2) => RegisterFits(env, st, req, pick, pick2);
    case RegisterWithIDOp(req, pick) => RegisterWithIDFits(env, st, req, pick);
    case ImportOp(reqs) => BulkFits(env, st, reqs);
    case DeleteSubjectOp(_, _) => DeletesFit(env, st, op);
    case DeleteVersionOp(_, _, _) => DeletesFit(env, st, op);
    case SetConfigOp(_, _) =>
    case ClearConfigOp(_) =>
  }

  lemma {:induction false} RunsFit(env: Env, ops: seq<Op>)
    requires forall op | op in ops :: IDsFit(op)
    ensures Fits(After(env, ops))
  {
    if ops != [] {
      var n := |ops| - 1;
      assert forall op | op in ops[..n] :: op in ops;
      RunsFit(env, ops[..n]);
      StepFits(env, After(env, ops[..n]), ops[n]);
    }
  }

  /** The same after every run, whatever 64-bit IDs it imported. */
  lemma UnusedIDsAfterRun(env: Env, ops: seq<Op>, a: SchemaText, b: SchemaText)
    requires (forall op | op in ops :: IDsFit(op)) && NewTexts(env, After(env, ops), a, b)
    ensures (forall more | Roomy(env, After(env, ops), more) :: NeverClashes(env, After(env, ops), more)) <==> IdsBelow(After(env, ops))
  {
    RunsFit(env, ops);
    UnusedIDsExactly(env, After(env, ops), a, b);
  }

  // ----- runs that clash

  /** Where nothing is configured, nothing hinders a first registration. */
  lemma UnconfiguredIsUnhindered(st: State, subject: string)
    requires st.settings == EMPTY.settings
    ensures Unhindered(st, subject)
  {
  }

  /** Import the largest ID, then the one below it, then register something new. */
  function LargestThenNext(x: SchemaText, a: SchemaText, b: SchemaText): seq<Op> {
    [RegisterWithIDOp(ImportOf("x", x, MAX_INT64), 0), RegisterWithIDOp(ImportOf("a", a, MAX_INT64 - 1), 0),
     RegisterOp(RegistrationOf("b", b), 0, 0)]
  }

  ghost predicate ThreeTexts(env: Env, x: SchemaText, a: SchemaText, b: SchemaText) {
    && Parses(env, x, []) && Parses(env, a, []) && Parses(env, b, [])
    && b.parsed.fingerprint != x.parsed.fingerprint && b.parsed.fingerprint != a.parsed.fingerprint
  }

  lemma SecondImport(env: Env, st: State, x: SchemaText, a: SchemaText)
    requires Imported(EMPTY, st, "x", x, MAX_INT64) && Parses(env, a, [])
    ensures Imported(st, RegisterWithID(env, st, ImportOf("a", a, MAX_INT64 - 1), 0).0, "a", a, MAX_INT64 - 1)
  {
    assert "x"[0] != "a"[0];
    assert Subject(st, "a") == {};
    ImportIn(env, st, "a", a, MAX_INT64 - 1);
  }

  lemma ThirdClashes(env: Env, first: State, st: State, x: SchemaText, a: SchemaText, b: SchemaText)
    requires Imported(EMPTY, first, "x", x, MAX_INT64) && Imported(first, st, "a", a, MAX_INT64 - 1) && ThreeTexts(env, x, a, b)
    ensures Clashes(env, st, RegisterOp(RegistrationOf("b", b), 0, 0)) && Subject(st, "b") == {} && Unhindered(st, "b")
    ensures st.schemas[MAX_INT64].schema == x.schema
    ensures SubjectVersion("x", 1) in st.versions && st.versions[SubjectVersion("x", 1)].schemaID == MAX_INT64 == st.nextID
  {
    assert "x"[0] != "a"[0] && "x"[0] != "b"[0] && "a"[0] != "b"[0];
    assert Subject(st, "b") == {};
    UnconfiguredIsUnhindered(st, "b");
    NextIsTaken(env, st, "b", b);
  }

  /** Import the largest ID, import the one below it, register a new text: it takes the largest ID and replaces what is there. */
  lemma LargestIsOverwritten(env: Env, x: SchemaText, a: SchemaText, b: SchemaText)
    requires ThreeTexts(env, x, a, b)
    ensures var ops, k := LargestThenNext(x, a, b), SubjectVersion("x", 1);
            var before, after := After(env, ops[..2]), After(env, ops);
            && Clashes(env, before, ops[2])
            && k in before.versions && before.versions[k].schemaID == MAX_INT64 && MAX_INT64 in before.schemas
            && before.schemas[MAX_INT64].schema == x.schema
            && k in after.versions && after.versions[k].schemaID == MAX_INT64 && MAX_INT64 in after.schemas
            && after.schemas[MAX_INT64].schema == b.schema
  {
    var ops := LargestThenNext(x, a, b);
    ImportIn(env, EMPTY, "x", x, MAX_INT64);
    var first := Step(env, EMPTY, ops[0]);
    SecondImport(env, first, x, a);
    var second := Step(env, first, ops[1]);
    ThirdClashes(env, first, second, x, a, b);
    ThreeAfter(env, ops, first, second);
    NextOverwrites(env, second, b);
  }

  lemma ThreeAfter(env: Env, ops: seq<Op>, first: State, second: State)
    requires |ops| == 3 && first == Step(env, EMPTY, ops[0]) && second == Step(env, first, ops[1])
    ensures After(env, ops[..2]) == second && After(env, ops) == Step(env, second, ops[2])
  {
    assert ops[..2][..1] == ops[..1] && ops[..1][..0] == [];
    assert After(env, ops[..1]) == first;
  }

  lemma NextOverwrites(env: Env, st: State, b: SchemaText)
    requires Clashes(env, st, RegisterOp(RegistrationOf("b", b), 0, 0)) && Parses(env, b, []) && Unhindered(st, "b")
    requires Subject(st, "b") == {} && st.nextID == MAX_INT64
    ensures var after := Step(env, st, RegisterOp(RegistrationOf("b", b), 0, 0));
            && MAX_INT64 in after.schemas && after.schemas[MAX_INT64].schema == b.schema
            && forall k | k in st.versions && k.subject != "b" :: k in after.versions && after.versions[k] == st.versions[k]
  {
    Readies(env, st, "b", b);
    RegisterIn(env, st, "b", b);
  }

  /** One entry of a bulk import that goes through. */
  lemma EntryIn(env: Env, st: State, subject: string, t: SchemaText, id: int)
    requires Parses(env, t, []) && Subject(st, subject) == {} && id !in st.schemas && id > 0 && subject != "" && t.schema != ""
    ensures var (after, error) := ImportOne(env, st, ImportOf(subject, t, id));
            && error == None && after.nextID == st.nextID && after.schemas.Keys == st.schemas.Keys + {id}
            && after.versions.Keys == st.versions.Keys + {SubjectVersion(subject, 1)}
  {
    ImportReadies(env, st, subject, t, id);
    assert SubjectVersion(subject, 1) !in Subject(st, subject);
  }

  lemma LoopOfTwo(env: Env, st: State, r: IDRequest, q: IDRequest)
    requires ImportOne(env, st, r).1 == None && ImportOne(env, ImportOne(env, st, r).0, q).1 == None && 0 < r.id < q.id
    ensures var b := ImportLoop(env, st, [r, q]);
            b.state == ImportOne(env, ImportOne(env, st, r).0, q).0 && b.maxID == q.id
  {
    assert [r, q][..1] == [r] && [r][..0] == [];
    assert ImportLoop(env, st, []) == Batch(st, ImportResult(0, 0, []), 0);
    assert ImportLoop(env, st, [r]).state == ImportOne(env, st, r).0 && ImportLoop(env, st, [r]).maxID == r.id;
  }

  lemma BulkOfTwo(env: Env, st: State, r: IDRequest, q: IDRequest)
    requires ImportOne(env, st, r).1 == None && ImportOne(env, ImportOne(env, st, r).0, q).1 == None && 0 < r.id < q.id == MAX_INT64
    requires MIN_INT64 <= st.nextID <= MAX_INT64
    ensures var after := ImportSchemas(env, st, [r, q]).0;
            after.nextID == st.nextID && after.schemas == ImportOne(env, ImportOne(env, st, r).0, q).0.schemas
  {
    LoopOfTwo(env, st, r, q);
    ImportOneIds(env, st, r);
    ImportOneIds(env, ImportOne(env, st, r).0, q);
    AdvancedNextIDExact(ImportLoop(env, st, [r, q]).state, MAX_INT64);
  }

  lemma BothEntries(env: Env, x: SchemaText, y: SchemaText)
    requires Parses(env, x, []) && Parses(env, y, []) && x.schema != "" && y.schema != ""
    ensures ImportOne(env, EMPTY, ImportOf("x", x, 2)).1 == None
    ensures var (second, error) := ImportOne(env, ImportOne(env, EMPTY, ImportOf("x", x, 2)).0, ImportOf("y", y, MAX_INT64));
            error == None && second.schemas.Keys == {2, MAX_INT64}
  {
    EntryIn(env, EMPTY, "x", x, 2);
    var first := ImportOne(env, EMPTY, ImportOf("x", x, 2)).0;
    assert "x"[0] != "y"[0];
    assert Subject(first, "y") == {};
    EntryIn(env, first, "y", y, MAX_INT64);
  }

  /** A bulk import that contains the largest ID leaves the counter where it was, below the other IDs that it brings in. */
  lemma BulkImportHidesIDs(env: Env, x: SchemaText, y: SchemaText) returns (st: State)
    requires Parses(env, x, []) && Parses(env, y, []) && x.schema != "" && y.schema != ""
    ensures st == After(env, [ImportOp([ImportOf("x", x, 2), ImportOf("y", y, MAX_INT64)])])
    ensures st.nextID == 1 && 2 in st.schemas && MAX_INT64 in st.schemas && !IdsBelow(st)
  {
    var r, q := ImportOf("x", x, 2), ImportOf("y", y, MAX_INT64);
    BothEntries(env, x, y);
    BulkOfTwo(env, EMPTY, r, q);
    st := ImportSchemas(env, EMPTY, [r, q]).0;
    AfterSingle(env, ImportOp([r, q]));
  }

  lemma AfterSingle(env: Env, op: Op)
    ensures After(env, [op]) == Step(env, EMPTY, op)
  {
    assert [op][..0] == [];
  }
}
