/** The registry service as an object: its methods, statement by statement, against the specification functions. */
module Service {
  import opened Options
  import opened Fingerprints
  import opened Resolver
  import opened Metadatas
  import opened Compatibility
  import opened Storage
  import opened Registry
  import opened Responses

  class RegistryService {
    const env: Env
    const store: Store
    const checker: Checker

    ghost predicate Valid()
      reads this, store, checker
    {
      checker.checkers == env.checkers && WellFormed(store.Abs())
    }

    constructor (env: Env, store: Store, checker: Checker)
      requires checker.checkers == env.checkers && WellFormed(store.Abs())
      ensures this.env == env && this.store == store && this.checker == checker && Valid()
    {
      this.env, this.store, this.checker := env, store, checker;
    }

    /** Resolution, parsing, rule-set validation and normalization of a request. */
    method PrepareRequest(req: Request) returns (p: Prepared)
      ensures p == Prepare(env, store.Abs(), req)
    {
      var ty := TypeOrAvro(req.schemaType);
      if ty !in env.parsers {
        return Refused(UnsupportedType);
      }
      var missing, resolved := ResolveReferences(LookupGraph(store.Abs()), req.references);
      if missing.Some? {
        return Refused(UnresolvedReference(missing.value));
      }
      var parsed := env.parsers[ty](req.schema, resolved);
      if parsed.None? {
        return Refused(InvalidSchema);
      }
      if req.ruleSet.Some? && !env.validRuleSet(req.ruleSet.value) {
        return Refused(InvalidRuleSet);
      }
      var normalize := req.normalize;
      if !normalize {
        normalize := NormalizeEnabled(store.Abs(), req.subject);
      }
      var (final, schema) := (parsed.value, req.schema);
      if normalize {
        final := env.normalize(final);
        schema := final.canonical;
      }
      var f := ComputeGlobalFingerprint(final.fingerprint, req.references);
      p := Ready(Candidate(req, ty, schema, resolved, final, f));
    }

    /** The existing schemas with resolved references, or None if one of them no longer resolves. */
    method BuildHistory(subject: string, versions: seq<int>) returns (existing: Option<seq<SchemaWithRefs>>)
      requires forall v | v in versions :: IsLive(store.Abs(), SubjectVersion(subject, v))
      ensures existing == WithRefs(store.Abs(), subject, versions)
    {
      var st := store.Abs();
      var list: seq<SchemaWithRefs> := [];
      for i := 0 to |versions|
        invariant WithRefs(st, subject, versions[..i]) == Some(list)
      {
        NextForm(st, subject, versions, i, list);
        var content := ContentOf(st, SubjectVersion(subject, versions[i]));
        var missing, resolved := ResolveReferences(LookupGraph(st), content.references);
        if missing.Some? {
          BrokenPrefix(st, subject, versions, i + 1);
          return None;
        }
        list := list + [SchemaWithRefs(content.schema, resolved)];
      }
      assert versions[..|versions|] == versions;
      existing := Some(list);
    }

    method CheckHistory(c: Candidate) returns (refused: Option<Rejection>)
      requires Valid()
      ensures refused == CompatibilityGate(env, store.Abs(), c)
    {
      var mode := EffectiveConfig(env, store.Abs(), c.request.subject).level;
      if mode == Nothing {
        return None;
      }
      HistoryLive(store.Abs(), c);
      var versions := Registry.History(store.Abs(), c);
      if |versions| == 0 {
        return None;
      }
      var existing := BuildHistory(c.request.subject, versions);
      if existing.None? {
        return Some(BrokenHistory);
      }
      var result := checker.Check(mode, c.schemaType, SchemaWithRefs(c.schema, c.resolved), existing.value);
      if !result.isCompatible {
        return Some(Incompatible);
      }
      refused := None;
    }

    /** The layered merge of metadata and the record to store. */
    method BuildRecord(c: Candidate) returns (record: Record)
      ensures record == RecordFor(env, store.Abs(), c)
    {
      var subject := c.request.subject;
      var layers := EffectiveConfig(env, store.Abs(), subject).layers;
      var metadata := c.request.metadata;
      var specific := metadata;
      if specific.None? {
        specific := PreviousMetadata(store.Abs(), subject);
      }
      var merged := MergeMetadata(layers.defaultMetadata, specific);
      merged := MergeMetadata(merged, layers.overrideMetadata);
      if merged.Some? {
        metadata := merged;
      }
      var ruleSet := LayeredRuleSet(layers, c.request.ruleSet, PreviousRuleSet(store.Abs(), subject));
      record := Record(0, subject, 0, c.schemaType, c.schema, c.request.references,
                       StripConfluentVersion(metadata), ruleSet, c.fingerprint);
    }

    /** Compatibility with the history, then the reserved fields. */
    method CheckGate(c: Candidate) returns (refused: Option<Rejection>)
      requires Valid()
      ensures refused == Gate(env, store.Abs(), c)
    {
      refused := CheckHistory(c);
      if refused.Some? {
        return;
      }
      if ValidateFieldsEnabled(store.Abs(), c.request.subject) {
        if !ReservedOk(env, store.Abs(), c) {
          return Some(ReservedConflict);
        }
      }
      return None;
    }

    /** A registration, and the metadata its answer carries. */
    method RegisterSchema(req: Request, pick: int, pick2: int) returns (outcome: RegisterOutcome, metadata: Option<Metadata>)
      requires Valid()
      modifies store
      ensures (store.Abs(), outcome) == Register(env, old(store.Abs()), req, pick, pick2)
      ensures metadata == Answered(store.Abs(), req.subject, outcome)
    {
      outcome := RegisterOnly(req, pick, pick2);
      if outcome.Rejected? {
        return outcome, None;
      }
      var version := if outcome.Registered? then outcome.stored.version else outcome.version;
      metadata := AutoPopulateConfluentVersion(InfoOf(store.Abs(), req.subject, version).metadata, version);
    }

    method RegisterOnly(req: Request, pick: int, pick2: int) returns (outcome: RegisterOutcome)
      requires Valid()
      modifies store
      ensures (store.Abs(), outcome) == Register(env, old(store.Abs()), req, pick, pick2)
    {
      var prepared := PrepareRequest(req);
      if prepared.Refused? {
        return Rejected(prepared.why);
      }
      var c := prepared.candidate;
      var found := FindByFingerprint(store.Abs(), req.subject, c.fingerprint, pick);
      if found.Some? && IsRepeat(env, store.Abs(), c, found.value) {
        return Existing(found.value);
      }
      var refused := CheckGate(c);
      if refused.Some? {
        return Rejected(refused.value);
      }
      outcome := StoreAs(c, pick2);
    }

    method StoreAs(c: Candidate, pick: int) returns (outcome: RegisterOutcome)
      modifies store
      ensures (store.Abs(), outcome) == StoreCandidate(env, old(store.Abs()), c, pick)
    {
      ghost var st := store.Abs();
      var record := BuildRecord(c);
      var result := store.CreateSchema(record);
      if result.Ok? {
        return Registered(result.value);
      }
      var found := FindByFingerprint(store.Abs(), record.subject, record.fingerprint, pick);
      if found.Some? {
        var info := InfoOf(store.Abs(), record.subject, found.value);
        if SameMetadata(info.metadata, record.metadata) && SameRuleSet(info.ruleSet, record.ruleSet)
           && VersionAgrees(env, c, found.value) {
          return Existing(found.value);
        }
      }
      outcome := Rejected(StoreRefused(result.error));
    }

    method PrepareImported(req: IDRequest) returns (p: ImportPrepared)
      ensures p == PrepareImport(env, store.Abs(), req)
    {
      var ty := TypeOrAvro(req.schemaType);
      if ty !in env.parsers {
        return ImportRefused(UnsupportedType);
      }
      var missing, resolved := ResolveReferences(LookupGraph(store.Abs()), req.references);
      if missing.Some? {
        return ImportRefused(UnresolvedReference(missing.value));
      }
      var parsed := env.parsers[ty](req.schema, resolved);
      if parsed.None? {
        return ImportRefused(InvalidSchema);
      }
      var f := ComputeGlobalFingerprint(parsed.value.fingerprint, req.references);
      p := ImportReady(f);
    }

    /** Moves the ID sequence past an imported ID, never backward. */
    method AdvanceIDs(id: int)
      modifies store
      ensures store.Abs() == old(store.Abs()).(nextID := AdvancedNextID(old(store.Abs()), id))
    {
      var nextID := Wrap64(id + 1);
      var currentMax := store.GetMaxSchemaID();
      if Wrap64(currentMax + 1) > nextID {
        nextID := Wrap64(currentMax + 1);
      }
      store.SetNextID(nextID);
    }

    method RegisterSchemaWithID(req: IDRequest, pick: int) returns (outcome: RegisterOutcome)
      requires Valid()
      modifies store
      ensures (store.Abs(), outcome) == RegisterWithID(env, old(store.Abs()), req, pick)
    {
      ghost var st := store.Abs();
      var prepared := PrepareImported(req);
      if prepared.ImportRefused? {
        return Rejected(prepared.why);
      }
      var existing := FindByFingerprint(store.Abs(), req.subject, prepared.fingerprint, pick);
      if existing.Some? {
        return Existing(existing.value);
      }
      var version := AssignedVersion(store.Abs(), req.subject, req.version);
      var result := store.ImportSchema(ImportRecord(req, version, prepared.fingerprint));
      if result.Err? {
        assert store.Abs() == st;
        if result.error == SchemaExists && Lookup(store.Abs(), SubjectVersion(req.subject, version)).Ok? {
          return Existing(version);
        }
        return Rejected(StoreRefused(result.error));
      }
      AdvanceIDs(req.id);
      outcome := Registered(Stored(req.id, version));
    }

    method ImportSchema(req: IDRequest) returns (error: Option<ImportError>)
      modifies store
      ensures (store.Abs(), error) == ImportOne(env, old(store.Abs()), req)
    {
      if req.id <= 0 {
        return Some(IdNotPositive);
      }
      if req.subject == "" {
        return Some(SubjectMissing);
      }
      if req.version <= 0 {
        return Some(VersionNotPositive);
      }
      if req.schema == "" {
        return Some(SchemaMissing);
      }
      var prepared := PrepareImported(req);
      if prepared.ImportRefused? {
        return Some(Invalid(prepared.why));
      }
      var result := store.ImportSchema(ImportRecord(req, req.version, prepared.fingerprint));
      error := if result.Ok? then None else Some(NotStored(result.error));
    }

    method ImportAll(reqs: seq<IDRequest>) returns (result: ImportResult)
      modifies store
      ensures (store.Abs(), result) == ImportSchemas(env, old(store.Abs()), reqs)
    {
      ghost var st := store.Abs();
      var imported: nat, errors: nat := 0, 0;
      var results: seq<ImportEntry> := [];
      var maxID := 0;
      for i := 0 to |reqs|
        invariant ImportLoop(env, st, reqs[..i]) == Batch(store.Abs(), ImportResult(imported, errors, results), maxID)
      {
        assert reqs[..i + 1][..i] == reqs[..i];
        var req := reqs[i];
        var error := ImportSchema(req);
        results := results + [ImportEntry(req.id, req.subject, req.version, error)];
        if error.Some? {
          errors := errors + 1;
          continue;
        }
        if req.id > maxID {
          maxID := req.id;
        }
        imported := imported + 1;
      }
      assert reqs[..|reqs|] == reqs;
      if maxID > 0 {
        AdvanceIDs(maxID);
      }
      result := ImportResult(imported, errors, results);
    }

    method DeleteSubject(subject: string, permanent: bool) returns (result: StoreResult<seq<int>>)
      requires Valid()
      modifies store
      ensures (store.Abs(), result) == Registry.DeleteSubject(old(store.Abs()), subject, permanent)
    {
      if !permanent {
        var versions := LiveVersions(store.Abs(), subject);
        AscendingSorts(LiveNumbers(store.Abs(), subject));
        for i := 0 to |versions|
          invariant forall j | 0 <= j < i :: ReferencedBy(store.Abs(), SubjectVersion(subject, versions[j])) == {}
        {
          assert versions[i] in LiveNumbers(store.Abs(), subject);
          if ReferencedBy(store.Abs(), SubjectVersion(subject, versions[i])) != {} {
            return Err(ReferenceExists);
          }
        }
        assert forall v | v in LiveNumbers(store.Abs(), subject) :: v in versions;
      }
      result := store.DeleteSubject(subject, permanent);
    }

    method DeleteVersion(subject: string, version: int, permanent: bool) returns (result: StoreResult<int>)
      requires Valid()
      modifies store
      ensures (store.Abs(), result) == Registry.DeleteVersion(old(store.Abs()), subject, version, permanent)
    {
      var v := version;
      if permanent {
        if v == -1 {
          if Subject(store.Abs(), subject) == {} {
            return Err(SubjectNotFound);
          }
          if DeletedNumbers(store.Abs(), subject) == {} {
            return Err(VersionNotFound);
          }
          v := Highest(Ascending(DeletedNumbers(store.Abs(), subject)));
        }
      } else {
        var found := Lookup(store.Abs(), SubjectVersion(subject, version));
        if found.Err? {
          return Err(found.error);
        }
        v := found.value;
        if ReferencedBy(store.Abs(), SubjectVersion(subject, v)) != {} {
          return Err(ReferenceExists);
        }
      }
      var deleted := store.DeleteSchema(SubjectVersion(subject, v), permanent);
      result := if deleted.Ok? then Ok(v) else Err(deleted.error);
    }
  }

  lemma NextForm(st: State, subject: string, versions: seq<int>, i: nat, list: seq<SchemaWithRefs>)
    requires i < |versions| && forall v | v in versions :: IsLive(st, SubjectVersion(subject, v))
    requires WithRefs(st, subject, versions[..i]) == Some(list)
    ensures WithRefs(st, subject, versions[..i + 1]) ==
            match StoredForm(st, SubjectVersion(subject, versions[i]))
            case Some(form) => Some(list + [form])
            case None => None
  {
    assert versions[..i + 1][..i] == versions[..i];
  }

  /** One version that no longer resolves spoils every history that contains it. */
  lemma {:induction false} BrokenPrefix(st: State, subject: string, versions: seq<int>, i: nat)
    requires i <= |versions| && forall v | v in versions :: IsLive(st, SubjectVersion(subject, v))
    requires (forall v | v in versions[..i] :: v in versions) && WithRefs(st, subject, versions[..i]) == None
    ensures WithRefs(st, subject, versions) == None
    decreases |versions| - i
  {
    if i == |versions| {
      assert versions[..i] == versions;
    } else {
      assert versions[..i + 1][..i] == versions[..i];
      BrokenPrefix(st, subject, versions, i + 1);
    }
  }
}
