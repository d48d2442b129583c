/** What the operations that bring IDs and version numbers with them answer and leave behind. */
module ImportOutcomes {
  import opened Options
  import opened Fingerprints
  import opened Resolver
  import opened Storage
  import opened Registry
  import opened Integrity
  import opened Outcomes

  predicate VersionExists(st: State, subject: string, v: int) {
    SubjectVersion(subject, v) in st.versions
  }

  /** One past the highest version number of the subject, soft-deleted ones included, or 1 if it has none. */
  ghost predicate IsNextNumber(st: State, subject: string, v: int) {
    && v >= 1
    && (forall w | VersionExists(st, subject, w) :: w < v)
    && (v == 1 || VersionExists(st, subject, v - 1))
  }

  lemma NextNumberIsUnique(st: State, subject: string, v: int, w: int)
    requires IsNextNumber(st, subject, v) && IsNextNumber(st, subject, w)
    ensures v == w
  {
  }

  lemma HighestIsLargest(s: set<int>)
    requires s != {}
    ensures Highest(Ascending(s)) in s && forall x | x in s :: x <= Highest(Ascending(s))
  {
    AscendingSorts(s);
    var list := Ascending(s);
    var x := Member(s);
    assert x in list;
    assert list[|list| - 1] in list;
    forall y | y in s
      ensures y <= list[|list| - 1]
    {
      assert y in list;
    }
  }

  lemma NumbersOf(st: State, subject: string)
    ensures forall v :: v in Numbers(Subject(st, subject)) <==> VersionExists(st, subject, v)
  {
    forall v
      ensures v in Numbers(Subject(st, subject)) <==> VersionExists(st, subject, v)
    {
      if VersionExists(st, subject, v) {
        assert SubjectVersion(subject, v) in Subject(st, subject);
        assert SubjectVersion(subject, v).version in Numbers(Subject(st, subject));
      }
      if v in Numbers(Subject(st, subject)) {
        var k :| k in Subject(st, subject) && k.version == v;
        assert k == SubjectVersion(subject, v);
      }
    }
  }

  lemma AssignedExactly(st: State, subject: string, version: int)
    requires WellFormed(st)
    ensures version > 0 ==> AssignedVersion(st, subject, version) == version
    ensures version <= 0 ==> IsNextNumber(st, subject, AssignedVersion(st, subject, version))
  {
    var numbers := Numbers(Subject(st, subject));
    NumbersOf(st, subject);
    if numbers != {} {
      HighestIsLargest(numbers);
      assert VersionOk(st, SubjectVersion(subject, Highest(Ascending(numbers))));
    } else {
      AscendingSorts(numbers);
    }
    forall w | VersionExists(st, subject, w)
      ensures w >= 1
    {
      assert VersionOk(st, SubjectVersion(subject, w));
    }
  }

  /** What the text of the import hashes to, with its references. */
  function PrintOf(env: Env, st: State, req: IDRequest): Fingerprint
    requires Parses(env, st, req.schemaType, req.schema, req.references)
  {
    GlobalFingerprint(ParsedIn(env, st, req.schemaType, req.schema, req.references).value.fingerprint, req.references)
  }

  /** Unknown types, unresolved references and unreadable texts are refused, in this order. */
  lemma PrepareImportExactly(env: Env, st: State, req: IDRequest)
    ensures PrepareImport(env, st, req) ==
            if TypeOf(req.schemaType) !in env.parsers then ImportRefused(UnsupportedType)
            else if !Resolves(st, req.references) then
              ImportRefused(UnresolvedReference(Resolve(LookupGraph(st), req.references).reference))
            else if !Parses(env, st, req.schemaType, req.schema, req.references) then ImportRefused(InvalidSchema)
            else ImportReady(PrintOf(env, st, req))
  {
  }

  /** The ID is unused, or used for content with this fingerprint. */
  predicate IDAgrees(st: State, id: int, f: Fingerprint) {
    id in st.schemas ==> st.schemas[id].fingerprint == f
  }

  /** The state after an import: one more version, under the given ID and number, with neither metadata nor rules. */
  ghost predicate ImportedAs(st: State, after: State, req: IDRequest, f: Fingerprint, v: int) {
    var k := SubjectVersion(req.subject, v);
    && OneVersionMore(st, after, k, VersionInfo(req.id, false, None, None))
    && NextVersion(after, req.subject) == (if v >= NextVersion(st, req.subject) then v else NextVersion(st, req.subject))
    && after.schemas == (if req.id in st.schemas then st.schemas
                         else st.schemas[req.id := Content(TypeOf(req.schemaType), req.schema, req.references, f)])
    && after.fingerprints == st.fingerprints[f := req.id]
  }

  lemma AfterImportExactly(st: State, req: IDRequest, f: Fingerprint, v: int)
    ensures var (after, result) := AfterImport(st, ImportRecord(req, v, f));
            if !IDAgrees(st, req.id, f) then after == st && result == Err(SchemaIDConflict)
            else if VersionExists(st, req.subject, v) then after == st && result == Err(SchemaExists)
            else result == Ok(()) && after.nextID == st.nextID && ImportedAs(st, after, req, f, v)
  {
  }

  /** A text that is live in the subject already is answered with such a version; nothing changes. */
  lemma RegisterWithIDRecognises(env: Env, st: State, req: IDRequest, pick: int)
    requires Parses(env, st, req.schemaType, req.schema, req.references)
    requires exists v :: HasFingerprint(st, req.subject, PrintOf(env, st, req), v)
    ensures var (after, outcome) := RegisterWithID(env, st, req, pick);
            && after == st && outcome.Existing? && HasFingerprint(st, req.subject, PrintOf(env, st, req), outcome.version)
            && (HasFingerprint(st, req.subject, PrintOf(env, st, req), pick) ==> outcome.version == pick)
  {
    PrepareImportExactly(env, st, req);
    FoundHasFingerprint(st, req.subject, PrintOf(env, st, req), pick);
  }

  lemma RegisterWithIDGoesOn(env: Env, st: State, req: IDRequest, pick: int)
    requires Parses(env, st, req.schemaType, req.schema, req.references)
    requires forall v :: !HasFingerprint(st, req.subject, PrintOf(env, st, req), v)
    ensures PrepareImport(env, st, req) == ImportReady(PrintOf(env, st, req))
    ensures FindByFingerprint(st, req.subject, PrintOf(env, st, req), pick) == None
  {
    PrepareImportExactly(env, st, req);
    FoundHasFingerprint(st, req.subject, PrintOf(env, st, req), pick);
  }

  /** A new text is imported, and the counter moved on, or the outcome of the import says why not. */
  lemma RegisterWithIDImports(env: Env, st: State, req: IDRequest, pick: int)
    requires Parses(env, st, req.schemaType, req.schema, req.references)
    requires forall v :: !HasFingerprint(st, req.subject, PrintOf(env, st, req), v)
    ensures var v := AssignedVersion(st, req.subject, req.version);
            var (after, result) := AfterImport(st, ImportRecord(req, v, PrintOf(env, st, req)));
            RegisterWithID(env, st, req, pick) ==
            match result
            case Ok(_) => (after.(nextID := AdvancedNextID(after, req.id)), Registered(Stored(req.id, v)))
            case Err(e) => (after, if e == SchemaExists && Lookup(st, SubjectVersion(req.subject, v)).Ok? then Existing(v)
                                   else Rejected(StoreRefused(e)))
  {
    RegisterWithIDGoesOn(env, st, req, pick);
  }

  /** What an import reads afterwards, under a free ID or number. */
  ghost predicate ReadsAs(after: State, subject: string, v: int, schema: string) {
    IsLive(after, SubjectVersion(subject, v)) && ContentOf(after, SubjectVersion(subject, v)).schema == schema
  }

  /**
    * Without a version number, a new text under a free ID is stored as the version after the highest that exists, soft-deleted
    * ones included, and that version reads the text.
    */
  lemma AutomaticVersion(env: Env, st: State, req: IDRequest, pick: int, v: int)
    requires WellFormed(st) && Parses(env, st, req.schemaType, req.schema, req.references)
    requires forall w :: !HasFingerprint(st, req.subject, PrintOf(env, st, req), w)
    requires req.version <= 0 && req.id !in st.schemas && IsNextNumber(st, req.subject, v)
    ensures var (after, outcome) := RegisterWithID(env, st, req, pick);
            && outcome == Registered(Stored(req.id, v)) && ReadsAs(after, req.subject, v, req.schema)
            && ImportedAs(st, after, req, PrintOf(env, st, req), v)
  {
    RegisterWithIDImports(env, st, req, pick);
    AssignedExactly(st, req.subject, req.version);
    NextNumberIsUnique(st, req.subject, v, AssignedVersion(st, req.subject, req.version));
    AfterImportExactly(st, req, PrintOf(env, st, req), v);
  }

  /** With a free version number it is stored as that version. */
  lemma ExplicitVersion(env: Env, st: State, req: IDRequest, pick: int)
    requires WellFormed(st) && Parses(env, st, req.schemaType, req.schema, req.references)
    requires forall w :: !HasFingerprint(st, req.subject, PrintOf(env, st, req), w)
    requires req.version > 0 && IDAgrees(st, req.id, PrintOf(env, st, req)) && !VersionExists(st, req.subject, req.version)
    ensures var (after, outcome) := RegisterWithID(env, st, req, pick);
            && outcome == Registered(Stored(req.id, req.version))
            && ImportedAs(st, after, req, PrintOf(env, st, req), req.version)
            && (req.id !in st.schemas ==> ReadsAs(after, req.subject, req.version, req.schema))
  {
    RegisterWithIDImports(env, st, req, pick);
    AssignedExactly(st, req.subject, req.version);
    AfterImportExactly(st, req, PrintOf(env, st, req), req.version);
  }

  /** A taken version number is answered if it is live, and refused if it is deleted; nothing changes. */
  lemma TakenVersion(env: Env, st: State, req: IDRequest, pick: int)
    requires WellFormed(st) && Parses(env, st, req.schemaType, req.schema, req.references)
    requires forall w :: !HasFingerprint(st, req.subject, PrintOf(env, st, req), w)
    requires req.version > 0 && IDAgrees(st, req.id, PrintOf(env, st, req)) && VersionExists(st, req.subject, req.version)
    ensures RegisterWithID(env, st, req, pick) ==
            (st, if Stands(st, req.subject, req.version) then Existing(req.version) else Rejected(StoreRefused(SchemaExists)))
  {
    RegisterWithIDImports(env, st, req, pick);
    AssignedExactly(st, req.subject, req.version);
    AfterImportExactly(st, req, PrintOf(env, st, req), req.version);
    LookupExactly(st, req.subject, req.version);
  }

  /** An ID that holds other content is refused. */
  lemma ConflictingID(env: Env, st: State, req: IDRequest, pick: int)
    requires Parses(env, st, req.schemaType, req.schema, req.references)
    requires forall w :: !HasFingerprint(st, req.subject, PrintOf(env, st, req), w)
    requires !IDAgrees(st, req.id, PrintOf(env, st, req))
    ensures RegisterWithID(env, st, req, pick) == (st, Rejected(StoreRefused(SchemaIDConflict)))
  {
    RegisterWithIDImports(env, st, req, pick);
    AfterImportExactly(st, req, PrintOf(env, st, req), AssignedVersion(st, req.subject, req.version));
  }

  lemma RegisterWithIDRefuses(env: Env, st: State, req: IDRequest, pick: int)
    requires !Parses(env, st, req.schemaType, req.schema, req.references)
    ensures RegisterWithID(env, st, req, pick) == (st, Rejected(
              if TypeOf(req.schemaType) !in env.parsers then UnsupportedType
              else if !Resolves(st, req.references) then
                UnresolvedReference(Resolve(LookupGraph(st), req.references).reference)
              else InvalidSchema))
  {
    PrepareImportExactly(env, st, req);
  }

  /** One schema of a bulk import: what is wrong with it, in this order, or that it is stored under its ID and number. */
  lemma ImportOneExactly(env: Env, st: State, req: IDRequest)
    ensures var (after, error) := ImportOne(env, st, req);
            if req.id <= 0 then after == st && error == Some(IdNotPositive)
            else if req.subject == "" then after == st && error == Some(SubjectMissing)
            else if req.version <= 0 then after == st && error == Some(VersionNotPositive)
            else if req.schema == "" then after == st && error == Some(SchemaMissing)
            else if TypeOf(req.schemaType) !in env.parsers then after == st && error == Some(Invalid(UnsupportedType))
            else if !Resolves(st, req.references) then
              after == st && error == Some(Invalid(UnresolvedReference(Resolve(LookupGraph(st), req.references).reference)))
            else if !Parses(env, st, req.schemaType, req.schema, req.references) then after == st && error == Some(Invalid(InvalidSchema))
            else if !IDAgrees(st, req.id, PrintOf(env, st, req)) then after == st && error == Some(NotStored(SchemaIDConflict))
            else if VersionExists(st, req.subject, req.version) then after == st && error == Some(NotStored(SchemaExists))
            else error == None && after.nextID == st.nextID && ImportedAs(st, after, req, PrintOf(env, st, req), req.version)
  {
    PrepareImportExactly(env, st, req);
    if Parses(env, st, req.schemaType, req.schema, req.references) {
      AfterImportExactly(st, req, PrintOf(env, st, req), req.version);
    }
  }

  /** In a bulk import each schema meets the state that those before it leave, and its entry reports what happened there. */
  lemma {:induction false} ImportLoopExactly(env: Env, st: State, reqs: seq<IDRequest>, i: nat)
    requires i < |reqs|
    ensures var before := ImportLoop(env, st, reqs[..i]).state;
            && |ImportLoop(env, st, reqs).result.results| == |reqs|
            && ImportLoop(env, st, reqs).result.results[i]
               == ImportEntry(reqs[i].id, reqs[i].subject, reqs[i].version, ImportOne(env, before, reqs[i]).1)
            && ImportLoop(env, st, reqs[..i + 1]).state == ImportOne(env, before, reqs[i]).0
  {
    ImportLoopFacts(env, st, reqs);
    assert reqs[..i + 1][..i] == reqs[..i];
    var init := reqs[..|reqs| - 1];
    if i < |init| {
      assert init[..i] == reqs[..i];
      ImportLoopExactly(env, st, init, i);
    } else {
      assert reqs[..i + 1] == reqs;
    }
  }
}
