/**
  * Content is shared by fingerprint: a registration that passed the gates may be bound to a text stored earlier. What
  * the gates promise over whole runs therefore rests on a condition on parsers and checkers: equal fingerprints must
  * mean equally good texts.
  */
module SharedTexts {
  import opened Options
  import opened Fingerprints
  import opened Resolver
  import opened Metadatas
  import opened Compatibility
  import opened Storage
  import opened Registry
  import opened Integrity
  import opened History
  import opened Origins

  // ----- the conditions

  /** What a list of resolved references makes available, whatever its order and the names used. */
  function Sources(refs: seq<Resolved>): set<(SubjectVersion, string)> {
    set e | e in refs :: (Target(e.reference), e.schema)
  }

  /** If the gate admits text `b` against `x`, the checker of `a` accepts `a` against `x`. */
  predicate Carries(env: Env, mode: Mode, a: SchemaText, refsA: seq<Resolved>, b: SchemaText, refsB: seq<Resolved>,
                    x: SchemaText, refsX: seq<Resolved>)
  {
    Admits(env, b.schemaType, mode, SchemaWithRefs(b.schema, refsB), SchemaWithRefs(x.schema, refsX)) ==>
      Judges(env, a.schemaType, mode, SchemaWithRefs(a.schema, refsA), SchemaWithRefs(x.schema, refsX))
  }

  /** Texts of one fingerprint can stand in for each other before the checkers, if their references give the same sources. */
  ghost predicate SharedTextsCarry(env: Env, mode: Mode) {
    forall a, once, refsA, b, refsB, x, before, refsX |
      && Storable(env, a, once) && Storable(env, b, refsB) && Storable(env, x, before)
      && a.parsed.fingerprint == b.parsed.fingerprint && Sources(refsA) == Sources(refsB) ::
      Carries(env, mode, a, refsA, b, refsB, x, refsX)
  }

  /**
    * A text can be stored while another is live: their fingerprints differ, or they are the same text, or an import can
    * bring in a second content with their fingerprint.
    */
  ghost predicate CanMeet(env: Env, a: SchemaText, x: SchemaText) {
    || a.parsed.fingerprint != x.parsed.fingerprint
    || (a.schemaType == x.schemaType && a.schema == x.schema)
    || Importable(env, Bare(a.parsed.fingerprint))
  }

  /** The same for texts without references, and exactly for the texts that can come together. */
  ghost predicate PlainTextsCarry(env: Env, mode: Mode) {
    forall a, b, x |
      && Storable(env, a, []) && Storable(env, b, []) && Storable(env, x, [])
      && a.parsed.fingerprint == b.parsed.fingerprint && CanMeet(env, a, x) ::
      Carries(env, mode, a, [], b, [], x, [])
  }

  /** Whatever names a property reserves free of `b`'s fields are free of `a`'s fields. */
  ghost predicate FieldsCarry(env: Env, a: SchemaText, refsA: seq<Resolved>, b: SchemaText) {
    forall property | property != "" && env.reservedNames(property) !! b.parsed.fields ::
      env.reservedNames(property) !! FieldsOf(env, a.schemaType, SchemaWithRefs(a.schema, refsA))
  }

  /** Texts of one fingerprint have, as far as names can be reserved, no more fields than each other. */
  ghost predicate SharedFieldsCarry(env: Env) {
    forall a, once, refsA, b, refsB |
      && Storable(env, a, once) && Storable(env, b, refsB)
      && a.parsed.fingerprint == b.parsed.fingerprint && Sources(refsA) == Sources(refsB) ::
      FieldsCarry(env, a, refsA, b)
  }

  ghost predicate PlainFieldsCarry(env: Env) {
    forall a, b |
      Storable(env, a, []) && Storable(env, b, []) && a.parsed.fingerprint == b.parsed.fingerprint ::
      FieldsCarry(env, a, [], b)
  }

  // ----- the text a candidate is bound to

  lemma SameSources(g: Graph, a: seq<Reference>, b: seq<Reference>)
    requires Targets(a) == Targets(b) && Resolve(g, a).Done? && Resolve(g, b).Done?
    ensures Sources(Resolve(g, a).resolved) == Sources(Resolve(g, b).resolved)
  {
    SourcesWithin(g, a, b);
    SourcesWithin(g, b, a);
  }

  lemma SourcesWithin(g: Graph, a: seq<Reference>, b: seq<Reference>)
    requires Targets(a) == Targets(b) && Resolve(g, a).Done? && Resolve(g, b).Done?
    ensures Sources(Resolve(g, a).resolved) <= Sources(Resolve(g, b).resolved)
  {
    var x, y := Resolve(g, a).resolved, Resolve(g, b).resolved;
    ResolveExact(g, a);
    ResolveExact(g, b);
    forall e | e in x
      ensures (Target(e.reference), e.schema) in Sources(y)
    {
      var i :| 0 <= i < |x| && x[i] == e;
      assert KeysOf(x)[i] == Target(e.reference);
      assert Reaches(g, a, Target(e.reference));
      assert Reaches(g, b, Target(e.reference));
      var j :| 0 <= j < |y| && KeysOf(y)[j] == Target(e.reference);
      assert y[j] in y;
    }
  }

  lemma StorablePrintIsNulFree(env: Env, t: SchemaText, refs: seq<Resolved>)
    requires CleanEnv(env) && Storable(env, t, refs)
    ensures NulFree(t.parsed.fingerprint)
  {
    if !Parses(env, t, refs) {
      var raw :| NormalizedFrom(env, raw, t, refs);
    }
  }

  /** Content with the candidate's fingerprint that is stored already, or the candidate's own. */
  lemma BoundIs(env: Env, st: State, c: Candidate)
    requires WellFormed(st)
    ensures c.fingerprint in st.fingerprints ==>
              var id := st.fingerprints[c.fingerprint];
              id in st.schemas && BoundContent(env, st, c) == st.schemas[id] && st.schemas[id].fingerprint == c.fingerprint
    ensures c.fingerprint !in st.fingerprints ==> BoundContent(env, st, c) == ContentFrom(RecordFor(env, st, c))
  {
    assert c.fingerprint in st.fingerprints ==> FingerprintOk(st, c.fingerprint);
  }

  lemma SamePrintSameParse(env: Env, d: Content, parsed: Parsed, once: seq<Resolved>, t: SchemaText, now: seq<Resolved>,
                           refs: seq<Reference>)
    requires CleanEnv(env) && MadeFrom(env, d, parsed, once) && NulFreeRefs(d.references)
    requires Storable(env, t, now) && NulFreeRefs(refs) && d.fingerprint == GlobalFingerprint(t.parsed.fingerprint, refs)
    ensures parsed.fingerprint == t.parsed.fingerprint && Targets(d.references) == Targets(refs)
  {
    StorablePrintIsNulFree(env, SchemaText(d.schemaType, d.schema, parsed), once);
    StorablePrintIsNulFree(env, t, now);
    FingerprintCanonical(parsed.fingerprint, d.references, t.parsed.fingerprint, refs);
    PermutedTargets(d.references, refs);
    PermutedTargets(refs, d.references);
  }

  /** It was parsed to the candidate's fingerprint, with references that are a permutation of the candidate's. */
  lemma BoundOrigin(env: Env, st: State, req: Request) returns (parsed: Parsed, once: seq<Resolved>)
    requires CleanEnv(env) && PlainRefs(req.references) && Sound(st) && AllHaveOrigins(env, st)
    requires Prepare(env, st, req).Ready?
    ensures var c := Prepare(env, st, req).candidate;
            var d := BoundContent(env, st, c);
            && Storable(env, SchemaText(d.schemaType, d.schema, parsed), once) && parsed.fingerprint == c.parsed.fingerprint
            && Targets(d.references) == Targets(req.references)
            && (d.references == [] ==> once == [])
  {
    var c := Prepare(env, st, req).candidate;
    var d := BoundContent(env, st, c);
    PreparedIsStorable(env, st, req);
    BoundIs(env, st, c);
    if c.fingerprint in st.fingerprints {
      var id := st.fingerprints[c.fingerprint];
      assert PrintOk(st.schemas[id]) && HasOrigin(env, st.schemas[id]);
      parsed, once :| MadeFrom(env, d, parsed, once);
      SamePrintSameParse(env, d, parsed, once, TextOf(c), c.resolved, req.references);
    } else {
      parsed, once := c.parsed, c.resolved;
      assert req.references == [] ==> c.resolved == [];
    }
  }

  lemma BoundSources(env: Env, st: State, req: Request)
    requires CleanEnv(env) && PlainRefs(req.references) && Sound(st) && Prepare(env, st, req).Ready?
    requires var c := Prepare(env, st, req).candidate;
             Targets(BoundContent(env, st, c).references) == Targets(req.references)
    ensures var c := Prepare(env, st, req).candidate;
            Sources(FormOf(st, BoundContent(env, st, c)).references) == Sources(c.resolved)
  {
    var c := Prepare(env, st, req).candidate;
    PreparedIsStorable(env, st, req);
    PreparedIsAdmitted(env, st, req);
    BoundTargetsLive(env, st, c);
    SameSources(LookupGraph(st), BoundContent(env, st, c).references, req.references);
  }

  // ----- transitive compatibility

  /** What is stored of a live version has an origin too. */
  lemma FormOrigin(env: Env, st: State, k: SubjectVersion) returns (x: SchemaText, before: seq<Resolved>)
    requires AllHaveOrigins(env, st) && IsLive(st, k) && StoredForm(st, k).Some?
    ensures Storable(env, x, before) && StoredForm(st, k).value.schema == x.schema
  {
    var e := ContentOf(st, k);
    assert HasOrigin(env, st.schemas[st.versions[k].schemaID]);
    var p, once :| MadeFrom(env, e, p, once);
    x, before := SchemaText(e.schemaType, e.schema, p), once;
  }

  lemma SharedCarriesAt(env: Env, st: State, c: Candidate, mode: Mode, parsed: Parsed, once: seq<Resolved>, k: SubjectVersion)
    requires var d := BoundContent(env, st, c);
             && Storable(env, SchemaText(d.schemaType, d.schema, parsed), once) && parsed.fingerprint == c.parsed.fingerprint
             && Sources(FormOf(st, d).references) == Sources(c.resolved)
    requires Storable(env, TextOf(c), c.resolved) && AllHaveOrigins(env, st) && SharedTextsCarry(env, mode)
    requires IsLive(st, k) && StoredForm(st, k).Some?
    ensures BoundCarries(env, st, c, mode, StoredForm(st, k).value)
  {
    var d, old_ := BoundContent(env, st, c), StoredForm(st, k).value;
    var x, before := FormOrigin(env, st, k);
    assert Carries(env, mode, SchemaText(d.schemaType, d.schema, parsed), FormOf(st, d).references, TextOf(c), c.resolved,
                   x, old_.references);
    assert SchemaWithRefs(d.schema, FormOf(st, d).references) == FormOf(st, d);
    assert SchemaWithRefs(x.schema, old_.references) == old_;
  }

  lemma SharedCarries(env: Env, st: State, req: Request, mode: Mode)
    requires CleanEnv(env) && PlainRefs(req.references) && Sound(st) && AllHaveOrigins(env, st)
    requires Prepare(env, st, req).Ready? && SharedTextsCarry(env, mode)
    ensures CarriesOver(env, st, Prepare(env, st, req).candidate, mode)
  {
    var c := Prepare(env, st, req).candidate;
    PreparedIsStorable(env, st, req);
    var parsed, once := BoundOrigin(env, st, req);
    BoundSources(env, st, req);
    forall v | IsLive(st, SubjectVersion(req.subject, v)) && StoredForm(st, SubjectVersion(req.subject, v)).Some?
      ensures BoundCarries(env, st, c, mode, StoredForm(st, SubjectVersion(req.subject, v)).value)
    {
      SharedCarriesAt(env, st, c, mode, parsed, once, SubjectVersion(req.subject, v));
    }
  }

  /**
    * If texts of one fingerprint can stand in for each other, then while registrations in a subject happen under a
    * transitive mode, every later live version is compatible in the required directions with every earlier live
    * version, over all runs with deletions and with any activity in other subjects.
    */
  lemma TransitiveCompatibility(env: Env, ops: seq<Op>, subject: string, mode: Mode)
    requires CleanEnv(env) && Admissible(env, ops) && GovernedRun(env, ops, subject, mode) && mode.IsTransitive()
    requires SharedTextsCarry(env, mode)
    ensures PairwiseCompatible(env, After(env, ops), subject, mode)
  {
    forall i | 0 <= i < |ops|
      ensures OpCarriesOver(env, After(env, ops[..i]), ops[i], subject, mode)
    {
      if ops[i].RegisterOp? && Prepare(env, After(env, ops[..i]), ops[i].request).Ready? {
        PrefixOf(env, ops, i);
        RunsAreSound(env, ops[..i]);
        RunsHaveOrigins(env, ops[..i]);
        assert Plain(ops[i]);
        SharedCarries(env, After(env, ops[..i]), ops[i].request, mode);
      }
    }
    RunKeepsPairwise(env, ops, subject, mode);
  }

  lemma PrefixOf(env: Env, ops: seq<Op>, i: nat)
    requires Admissible(env, ops) && i <= |ops|
    ensures Admissible(env, ops[..i])
  {
    forall j | 0 <= j < i
      ensures Plain(ops[..i][j]) && Headroom(After(env, ops[..i][..j]), ops[..i][j])
    {
      assert ops[..i][..j] == ops[..j];
      assert Plain(ops[j]);
    }
  }

  // ----- reserved fields

  lemma SharedFieldsFree(env: Env, st: State, req: Request)
    requires CleanEnv(env) && PlainRefs(req.references) && Sound(st) && AllHaveOrigins(env, st)
    requires Prepare(env, st, req).Ready? && SharedFieldsCarry(env) && ReservedOk(env, st, Prepare(env, st, req).candidate)
    ensures BoundFieldsFree(env, st, Prepare(env, st, req).candidate)
  {
    var c := Prepare(env, st, req).candidate;
    var d := BoundContent(env, st, c);
    PreparedIsStorable(env, st, req);
    var parsed, once := BoundOrigin(env, st, req);
    BoundSources(env, st, req);
    assert FieldsCarry(env, SchemaText(d.schemaType, d.schema, parsed), FormOf(st, d).references, TextOf(c));
  }

  /**
    * If texts of one fingerprint have the same reservable fields, then while registrations in a subject happen with
    * validateFields on, reserved fields only grow along its live versions and never become top-level fields again, over
    * all runs, deletions included.
    */
  lemma ReservedFieldsStayReserved(env: Env, ops: seq<Op>, subject: string)
    requires CleanEnv(env) && Admissible(env, ops) && GuardedRun(env, ops, subject) && SharedFieldsCarry(env)
    ensures ReservedKept(env, After(env, ops), subject)
  {
    forall i | 0 <= i < |ops|
      ensures OpFieldsFree(env, After(env, ops[..i]), ops[i], subject)
    {
      var st := After(env, ops[..i]);
      if ops[i].RegisterOp? && Prepare(env, st, ops[i].request).Ready? && ReservedOk(env, st, Prepare(env, st, ops[i].request).candidate) {
        PrefixOf(env, ops, i);
        RunsAreSound(env, ops[..i]);
        RunsHaveOrigins(env, ops[..i]);
        assert Plain(ops[i]);
        SharedFieldsFree(env, st, ops[i].request);
      }
    }
    RunKeepsReserved(env, ops, subject);
  }

  // ----- runs without references: sufficiency of the exact conditions

  /** Two contents of one fingerprint can come together only as the condition says. */
  lemma ContentsMeet(env: Env, st: State, a: SchemaText, i: int, x: SchemaText, j: int)
    requires PlainContents(env, st) && i in st.schemas && j in st.schemas
    requires st.schemas[i].fingerprint == Bare(a.parsed.fingerprint) && st.schemas[j].fingerprint == Bare(x.parsed.fingerprint)
    requires st.schemas[i].schemaType == a.schemaType && st.schemas[i].schema == a.schema
    requires st.schemas[j].schemaType == x.schemaType && st.schemas[j].schema == x.schema
    ensures CanMeet(env, a, x)
  {
  }

  /** The same for new content. */
  lemma NewContentMeets(env: Env, st: State, a: SchemaText, x: SchemaText, j: int)
    requires PlainContents(env, st) && Bare(a.parsed.fingerprint) !in st.fingerprints && j in st.schemas
    requires st.schemas[j].fingerprint == Bare(x.parsed.fingerprint)
    ensures CanMeet(env, a, x)
  {
    assert st.schemas[j].fingerprint == Bare(a.parsed.fingerprint) ==> !Sole(st, j);
  }

  /** The text a candidate without references is bound to, and what was live before it. */
  lemma PlainBound(env: Env, st: State, req: Request, v: int) returns (a: SchemaText, x: SchemaText)
    requires CleanEnv(env) && req.references == [] && Sound(st) && AllHaveOrigins(env, st) && PlainContents(env, st)
    requires Prepare(env, st, req).Ready? && IsLive(st, SubjectVersion(req.subject, v))
    ensures var c := Prepare(env, st, req).candidate;
            var k := SubjectVersion(req.subject, v);
            && Storable(env, a, []) && Storable(env, x, []) && Storable(env, TextOf(c), []) && c.resolved == []
            && a.parsed.fingerprint == c.parsed.fingerprint && CanMeet(env, a, x)
            && BoundContent(env, st, c).schemaType == a.schemaType
            && FormOf(st, BoundContent(env, st, c)) == SchemaWithRefs(a.schema, [])
            && StoredForm(st, k) == Some(SchemaWithRefs(x.schema, []))
  {
    var c := Prepare(env, st, req).candidate;
    var d := BoundContent(env, st, c);
    var k := SubjectVersion(req.subject, v);
    var j := st.versions[k].schemaID;
    var e := ContentOf(st, k);
    PreparedIsStorable(env, st, req);
    BoundIs(env, st, c);
    var parsed, once := BoundOrigin(env, st, req);
    assert HasOrigin(env, e) && e.references == [];
    var p, before :| MadeFrom(env, e, p, before);
    a, x := SchemaText(d.schemaType, d.schema, parsed), SchemaText(e.schemaType, e.schema, p);
    if c.fingerprint in st.fingerprints {
      ContentsMeet(env, st, a, st.fingerprints[c.fingerprint], x, j);
    } else {
      NewContentMeets(env, st, a, x, j);
    }
  }

  lemma PlainCarries(env: Env, st: State, req: Request, mode: Mode)
    requires CleanEnv(env) && req.references == [] && Sound(st) && AllHaveOrigins(env, st) && PlainContents(env, st)
    requires Prepare(env, st, req).Ready? && PlainTextsCarry(env, mode)
    ensures CarriesOver(env, st, Prepare(env, st, req).candidate, mode)
  {
    var c := Prepare(env, st, req).candidate;
    PreparedIsStorable(env, st, req);
    forall v | IsLive(st, SubjectVersion(req.subject, v)) && StoredForm(st, SubjectVersion(req.subject, v)).Some?
      ensures BoundCarries(env, st, c, mode, StoredForm(st, SubjectVersion(req.subject, v)).value)
    {
      var a, x := PlainBound(env, st, req, v);
      assert Carries(env, mode, a, [], TextOf(c), [], x, []);
    }
  }

  lemma PlainSufficient(env: Env, ops: seq<Op>, subject: string, mode: Mode)
    requires CleanEnv(env) && Admissible(env, ops) && GovernedRun(env, ops, subject, mode) && mode.IsTransitive()
    requires ReferenceFreeRun(ops) && PlainTextsCarry(env, mode)
    ensures PairwiseCompatible(env, After(env, ops), subject, mode)
  {
    forall i | 0 <= i < |ops|
      ensures OpCarriesOver(env, After(env, ops[..i]), ops[i], subject, mode)
    {
      if ops[i].RegisterOp? && Prepare(env, After(env, ops[..i]), ops[i].request).Ready? {
        PrefixOf(env, ops, i);
        RunsAreSound(env, ops[..i]);
        RunsHaveOrigins(env, ops[..i]);
        RunsArePlain(env, ops[..i]);
        assert ReferenceFree(ops[i]);
        PlainCarries(env, After(env, ops[..i]), ops[i].request, mode);
      }
    }
    RunKeepsPairwise(env, ops, subject, mode);
  }

  lemma PlainFieldsFree(env: Env, st: State, req: Request)
    requires CleanEnv(env) && req.references == [] && Sound(st) && AllHaveOrigins(env, st) && PlainContents(env, st)
    requires Prepare(env, st, req).Ready? && PlainFieldsCarry(env) && ReservedOk(env, st, Prepare(env, st, req).candidate)
    ensures BoundFieldsFree(env, st, Prepare(env, st, req).candidate)
  {
    var c := Prepare(env, st, req).candidate;
    var d := BoundContent(env, st, c);
    PreparedIsStorable(env, st, req);
    var parsed, once := BoundOrigin(env, st, req);
    BoundIs(env, st, c);
    assert d.references == [];
    assert FieldsCarry(env, SchemaText(d.schemaType, d.schema, parsed), [], TextOf(c));
  }

  lemma PlainFieldsSufficient(env: Env, ops: seq<Op>, subject: string)
    requires CleanEnv(env) && Admissible(env, ops) && GuardedRun(env, ops, subject)
    requires ReferenceFreeRun(ops) && PlainFieldsCarry(env)
    ensures ReservedKept(env, After(env, ops), subject)
  {
    forall i | 0 <= i < |ops|
      ensures OpFieldsFree(env, After(env, ops[..i]), ops[i], subject)
    {
      var st := After(env, ops[..i]);
      if ops[i].RegisterOp? && Prepare(env, st, ops[i].request).Ready? && ReservedOk(env, st, Prepare(env, st, ops[i].request).candidate) {
        PrefixOf(env, ops, i);
        RunsAreSound(env, ops[..i]);
        RunsHaveOrigins(env, ops[..i]);
        RunsArePlain(env, ops[..i]);
        assert ReferenceFree(ops[i]);
        PlainFieldsFree(env, st, ops[i].request);
      }
    }
    RunKeepsReserved(env, ops, subject);
  }
}
