/** Where stored texts come from: every stored content was parsed once, and its fingerprint is that of what was parsed. */
module Origins {
  import opened Options
  import opened Fingerprints
  import opened Resolver
  import opened Metadatas
  import opened Compatibility
  import opened Storage
  import opened Registry
  import opened Integrity
  import opened History

  /** A text of a type, and what parsing it (and normalizing, if it was normalized) gave. */
  datatype SchemaText = SchemaText(schemaType: string, schema: string, parsed: Parsed)

  predicate Parses(env: Env, t: SchemaText, refs: seq<Resolved>) {
    t.schemaType != "" && t.schemaType in env.parsers && env.parsers[t.schemaType](t.schema, refs) == Some(t.parsed)
  }

  predicate NormalizedFrom(env: Env, raw: string, t: SchemaText, refs: seq<Resolved>) {
    && t.schemaType != "" && t.schemaType in env.parsers
    && env.parsers[t.schemaType](raw, refs).Some?
    && t.parsed == env.normalize(env.parsers[t.schemaType](raw, refs).value)
    && t.schema == t.parsed.canonical
  }

  /** A registration with these resolved references can store the text: as submitted, or as a canonical form. */
  ghost predicate Storable(env: Env, t: SchemaText, refs: seq<Resolved>) {
    Parses(env, t, refs) || exists raw :: NormalizedFrom(env, raw, t, refs)
  }

  function TextOf(c: Candidate): SchemaText {
    SchemaText(c.schemaType, c.schema, c.parsed)
  }

  lemma PreparedIsStorable(env: Env, st: State, req: Request)
    requires Prepare(env, st, req).Ready?
    ensures var c := Prepare(env, st, req).candidate;
            && c.request == req && Storable(env, TextOf(c), c.resolved)
            && c.fingerprint == GlobalFingerprint(c.parsed.fingerprint, req.references)
            && Resolve(LookupGraph(st), req.references).Done? && Resolve(LookupGraph(st), req.references).resolved == c.resolved
  {
    var c := Prepare(env, st, req).candidate;
    if !(req.normalize || NormalizeEnabled(st, req.subject)) {
      assert Parses(env, TextOf(c), c.resolved);
    } else {
      assert NormalizedFrom(env, req.schema, TextOf(c), c.resolved);
    }
  }

  ghost predicate MadeFrom(env: Env, d: Content, parsed: Parsed, refs: seq<Resolved>) {
    && Storable(env, SchemaText(d.schemaType, d.schema, parsed), refs)
    && d.fingerprint == GlobalFingerprint(parsed.fingerprint, d.references)
    && (d.references == [] ==> refs == [])
  }

  ghost predicate HasOrigin(env: Env, d: Content) {
    exists parsed, refs :: MadeFrom(env, d, parsed, refs)
  }

  ghost predicate AllHaveOrigins(env: Env, st: State) {
    forall id | id in st.schemas :: HasOrigin(env, st.schemas[id])
  }

  // ----- content without references, by fingerprint

  predicate ReferenceFree(op: Op) {
    match op
    case RegisterOp(req, _, _) => req.references == []
    case RegisterWithIDOp(req, _) => req.references == []
    case ImportOp(reqs) => forall r | r in reqs :: r.references == []
    case _ => true
  }

  /** Some text, taken as it is, has this fingerprint: it could be imported. */
  ghost predicate Importable(env: Env, f: Fingerprint) {
    exists t: SchemaText :: Parses(env, t, []) && Bare(t.parsed.fingerprint) == f
  }

  /** The only content with its fingerprint, and the one the index finds. */
  ghost predicate Sole(st: State, id: int)
    requires id in st.schemas
  {
    && st.schemas[id].fingerprint in st.fingerprints
    && forall j | j in st.schemas && st.schemas[j].fingerprint == st.schemas[id].fingerprint :: j == id
  }

  /** Without references, and two contents with one fingerprint only if an import can have brought one of them. */
  ghost predicate PlainContents(env: Env, st: State) {
    forall id | id in st.schemas ::
      st.schemas[id].references == [] && (Sole(st, id) || Importable(env, st.schemas[id].fingerprint))
  }

  // ----- every operation keeps both

  lemma CreateKeepsOrigins(env: Env, st: State, record: Record)
    requires AllHaveOrigins(env, st) && HasOrigin(env, ContentFrom(record))
    ensures AllHaveOrigins(env, AfterCreate(st, record).0)
  {
  }

  /** New content gets its fingerprint into the index; it had none there before. */
  lemma AllocatedSole(env: Env, st: State, record: Record)
    requires st.nextID !in st.schemas && PlainContents(env, st) && record.fingerprint !in st.fingerprints
    ensures Sole(Allocated(st, record), st.nextID) || Importable(env, record.fingerprint)
  {
    var after := Allocated(st, record);
    if !Sole(after, st.nextID) {
      var j :| j in after.schemas && after.schemas[j].fingerprint == record.fingerprint && j != st.nextID;
      assert !Sole(st, j);
    }
  }

  lemma CreateKeepsPlain(env: Env, st: State, record: Record)
    requires st.nextID !in st.schemas && PlainContents(env, st) && record.references == []
    ensures PlainContents(env, AfterCreate(st, record).0)
  {
    var base := Allocated(st, record);
    if record.fingerprint !in st.fingerprints {
      AllocatedSole(env, st, record);
      forall id | id in base.schemas
        ensures base.schemas[id].references == [] && (Sole(base, id) || Importable(env, base.schemas[id].fingerprint))
      {
        if id in st.schemas && Sole(st, id) {
          assert base.schemas[id].fingerprint != record.fingerprint;
        }
      }
    }
    SameContents(env, base, AfterCreate(st, record).0);
    SameContents(env, st, AfterCreate(st, record).0);
  }

  lemma ImportKeepsOrigins(env: Env, st: State, record: Record)
    requires AllHaveOrigins(env, st) && HasOrigin(env, ContentFrom(record))
    ensures AllHaveOrigins(env, AfterImport(st, record).0)
  {
  }

  lemma ImportKeepsPlain(env: Env, st: State, record: Record)
    requires PlainContents(env, st) && record.references == [] && Importable(env, record.fingerprint)
    ensures PlainContents(env, AfterImport(st, record).0)
  {
    var after := AfterImport(st, record).0;
    forall id | id in after.schemas
      ensures after.schemas[id].references == [] && (Sole(after, id) || Importable(env, after.schemas[id].fingerprint))
    {
      if id in st.schemas && Sole(st, id) {
        assert after.schemas[id].fingerprint == record.fingerprint || Sole(after, id);
      }
    }
  }

  lemma RemoveKeepsPlain(env: Env, st: State, keys: set<SubjectVersion>)
    requires PlainContents(env, st)
    ensures PlainContents(env, Remove(st, keys))
  {
    var after := Remove(st, keys);
    forall id | id in after.schemas
      ensures after.schemas[id].references == [] && (Sole(after, id) || Importable(env, after.schemas[id].fingerprint))
    {
      if Sole(st, id) {
        assert st.schemas[id].fingerprint !in PrintsOf(st.schemas, Orphans(st, keys));
      }
    }
  }

  lemma ImportedHasOrigin(env: Env, st: State, req: IDRequest, version: int)
    requires PrepareImport(env, st, req).ImportReady?
    ensures var record := ImportRecord(req, version, PrepareImport(env, st, req).fingerprint);
            HasOrigin(env, ContentFrom(record)) && (req.references == [] ==> Importable(env, record.fingerprint))
  {
    var ty := TypeOrAvro(req.schemaType);
    var refs := Resolve(LookupGraph(st), req.references).resolved;
    var t := SchemaText(ty, req.schema, env.parsers[ty](req.schema, refs).value);
    var record := ImportRecord(req, version, PrepareImport(env, st, req).fingerprint);
    assert Parses(env, t, refs);
    assert MadeFrom(env, ContentFrom(record), t.parsed, refs);
  }

  lemma RegisteredHasOrigin(env: Env, st: State, req: Request)
    requires Prepare(env, st, req).Ready?
    ensures HasOrigin(env, ContentFrom(RecordFor(env, st, Prepare(env, st, req).candidate)))
  {
    var c := Prepare(env, st, req).candidate;
    PreparedIsStorable(env, st, req);
    assert MadeFrom(env, ContentFrom(RecordFor(env, st, c)), c.parsed, c.resolved);
  }

  lemma RegisterKeeps(env: Env, st: State, req: Request, pick: int, pick2: int)
    requires AllHaveOrigins(env, st)
    ensures AllHaveOrigins(env, Register(env, st, req, pick, pick2).0)
    ensures IdsBelow(st) && PlainContents(env, st) && req.references == [] ==>
              PlainContents(env, Register(env, st, req, pick, pick2).0)
  {
    RegisterEffect(env, st, req, pick, pick2);
    if Register(env, st, req, pick, pick2).1.Registered? {
      var record := RecordFor(env, st, Prepare(env, st, req).candidate);
      RegisteredHasOrigin(env, st, req);
      CreateKeepsOrigins(env, st, record);
      if IdsBelow(st) && PlainContents(env, st) && req.references == [] {
        RegisterStored(env, st, req, pick, pick2);
        CreateKeepsPlain(env, st, record);
      }
    }
  }

  lemma RegisterWithIDKeeps(env: Env, st: State, req: IDRequest, pick: int)
    requires AllHaveOrigins(env, st)
    ensures AllHaveOrigins(env, RegisterWithID(env, st, req, pick).0)
    ensures PlainContents(env, st) && req.references == [] ==> PlainContents(env, RegisterWithID(env, st, req, pick).0)
  {
    RegisterWithIDIs(env, st, req, pick);
    var p := PrepareImport(env, st, req);
    if RegisterWithID(env, st, req, pick).0 != st {
      var version := AssignedVersion(st, req.subject, req.version);
      var record := ImportRecord(req, version, p.fingerprint);
      ImportedHasOrigin(env, st, req, version);
      ImportKeepsOrigins(env, st, record);
      if PlainContents(env, st) && req.references == [] {
        ImportKeepsPlain(env, st, record);
        SameContents(env, AfterImport(st, record).0, RegisterWithID(env, st, req, pick).0);
      }
    }
  }

  lemma SameContents(env: Env, st: State, after: State)
    ensures after.schemas == st.schemas && after.fingerprints == st.fingerprints && PlainContents(env, st) ==>
              PlainContents(env, after)
    ensures after.schemas == st.schemas && AllHaveOrigins(env, st) ==> AllHaveOrigins(env, after)
  {
    if after.schemas == st.schemas && after.fingerprints == st.fingerprints {
      assert forall id | id in st.schemas :: Sole(st, id) ==> Sole(after, id);
    }
  }

  lemma ImportOneKeeps(env: Env, st: State, req: IDRequest)
    requires AllHaveOrigins(env, st)
    ensures AllHaveOrigins(env, ImportOne(env, st, req).0)
    ensures PlainContents(env, st) && req.references == [] ==> PlainContents(env, ImportOne(env, st, req).0)
  {
    var p := PrepareImport(env, st, req);
    ImportOneIs(env, st, req);
    if ImportOne(env, st, req).0 != st {
      var record := ImportRecord(req, req.version, p.fingerprint);
      ImportedHasOrigin(env, st, req, req.version);
      ImportKeepsOrigins(env, st, record);
      if PlainContents(env, st) && req.references == [] {
        ImportKeepsPlain(env, st, record);
      }
    }
  }

  lemma {:induction false} ImportLoopKeeps(env: Env, st: State, reqs: seq<IDRequest>)
    requires AllHaveOrigins(env, st)
    ensures AllHaveOrigins(env, ImportLoop(env, st, reqs).state)
    ensures PlainContents(env, st) && (forall r | r in reqs :: r.references == []) ==>
              PlainContents(env, ImportLoop(env, st, reqs).state)
  {
    if reqs != [] {
      var n := |reqs| - 1;
      ImportLoopKeeps(env, st, reqs[..n]);
      ImportOneKeeps(env, ImportLoop(env, st, reqs[..n]).state, reqs[n]);
    }
  }

  lemma DeleteSubjectContents(st: State, subject: string, permanent: bool)
    ensures var after, removed := DeleteSubject(st, subject, permanent).0, Remove(st, Subject(st, subject));
            || (after.schemas == st.schemas && after.fingerprints == st.fingerprints)
            || (after.schemas == removed.schemas && after.fingerprints == removed.fingerprints)
  {
  }

  lemma DeleteSubjectKeeps(env: Env, st: State, subject: string, permanent: bool)
    requires AllHaveOrigins(env, st)
    ensures AllHaveOrigins(env, DeleteSubject(st, subject, permanent).0)
    ensures PlainContents(env, st) ==> PlainContents(env, DeleteSubject(st, subject, permanent).0)
  {
    var all := Subject(st, subject);
    var after := DeleteSubject(st, subject, permanent).0;
    DeleteSubjectContents(st, subject, permanent);
    if after.schemas == st.schemas && after.fingerprints == st.fingerprints {
      SameContents(env, st, after);
    } else {
      if PlainContents(env, st) {
        RemoveKeepsPlain(env, st, all);
      }
      SameContents(env, Remove(st, all), after);
    }
  }

  lemma DeleteVersionKeeps(env: Env, st: State, subject: string, version: int, permanent: bool)
    requires AllHaveOrigins(env, st)
    ensures AllHaveOrigins(env, DeleteVersion(st, subject, version, permanent).0)
    ensures PlainContents(env, st) ==> PlainContents(env, DeleteVersion(st, subject, version, permanent).0)
  {
    DeleteVersionIs(st, subject, version, permanent);
    var (after, result) := DeleteVersion(st, subject, version, permanent);
    if result.Ok? {
      var keys := {SubjectVersion(subject, result.value)};
      if PlainContents(env, st) {
        RemoveKeepsPlain(env, st, keys);
      }
      if !permanent {
        SameContents(env, st, after);
      }
    }
  }

  lemma StepKeeps(env: Env, st: State, op: Op)
    requires AllHaveOrigins(env, st)
    ensures AllHaveOrigins(env, Step(env, st, op))
    ensures IdsBelow(st) && PlainContents(env, st) && ReferenceFree(op) ==> PlainContents(env, Step(env, st, op))
  {
    match op
    case RegisterOp(req, pick, pick2) => RegisterKeeps(env, st, req, pick, pick2);
    case RegisterWithIDOp(req, pick) => RegisterWithIDKeeps(env, st, req, pick);
    case ImportOp(reqs) =>
      ImportLoopKeeps(env, st, reqs);
      SameContents(env, ImportLoop(env, st, reqs).state, Step(env, st, op));
    case DeleteSubjectOp(s, permanent) => DeleteSubjectKeeps(env, st, s, permanent);
    case DeleteVersionOp(s, version, permanent) => DeleteVersionKeeps(env, st, s, version, permanent);
    case SetConfigOp(_, _) => SameContents(env, st, Step(env, st, op));
    case ClearConfigOp(_) => SameContents(env, st, Step(env, st, op));
  }

  /** After any run every stored content has an origin. */
  lemma {:induction false} RunsHaveOrigins(env: Env, ops: seq<Op>)
    ensures AllHaveOrigins(env, After(env, ops))
  {
    if ops != [] {
      RunsHaveOrigins(env, ops[..|ops| - 1]);
      StepKeeps(env, After(env, ops[..|ops| - 1]), ops[|ops| - 1]);
    }
  }

  ghost predicate ReferenceFreeRun(ops: seq<Op>) {
    forall i | 0 <= i < |ops| :: ReferenceFree(ops[i])
  }

  lemma {:induction false} RunsArePlain(env: Env, ops: seq<Op>)
    requires CleanEnv(env) && Admissible(env, ops) && ReferenceFreeRun(ops)
    ensures PlainContents(env, After(env, ops))
  {
    if ops != [] {
      var n := |ops| - 1;
      PrefixAdmissible(env, ops);
      RunsArePlain(env, ops[..n]);
      RunsAreSound(env, ops[..n]);
      RunsHaveOrigins(env, ops[..n]);
      StepKeeps(env, After(env, ops[..n]), ops[n]);
    }
  }
}
