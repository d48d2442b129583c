/** The registry operations as functions on the store state. */
module Registry {
  import opened Options
  import opened Fingerprints
  import opened Resolver
  import opened Metadatas
  import opened Compatibility
  import opened Storage

  /** What a parser makes of a schema text. */
  datatype Parsed = Parsed(fingerprint: string, canonical: string, fields: set<string>)

  type Parser = (string, seq<Resolved>) -> Option<Parsed>

  /** Foreign code: the parsers and checkers per schema type, normalization, rule-set validation,
      number parsing, and the splitting of a reserved-fields property into names. */
  datatype Env = Env(
    parsers: map<string, Parser>,
    normalize: Parsed -> Parsed,
    checkers: map<string, PairChecker>,
    validRuleSet: RuleSet -> bool,
    atoi: string -> Option<int>,
    reservedNames: string -> set<string>,
    defaultLevel: Mode)

  datatype Request = Request(subject: string, schemaType: string, schema: string, references: seq<Reference>,
                             normalize: bool, metadata: Option<Metadata>, ruleSet: Option<RuleSet>)

  datatype Rejection =
    | UnsupportedType | UnresolvedReference(reference: Reference) | InvalidSchema | InvalidRuleSet
    | BrokenHistory | Incompatible | ReservedConflict | StoreRefused(error: StoreError)

  datatype RegisterOutcome = Registered(stored: Stored) | Existing(version: int) | Rejected(why: Rejection)

  /** A request whose references resolve and whose text parses, normalized if so configured. */
  datatype Candidate = Candidate(request: Request, schemaType: string, schema: string, resolved: seq<Resolved>,
                                 parsed: Parsed, fingerprint: Fingerprint)

  datatype Prepared = Ready(candidate: Candidate) | Refused(why: Rejection)

  // ----- configuration

  function EffectiveConfig(env: Env, st: State, subject: string): Config {
    if subject != "" && subject in st.settings.subjects then st.settings.subjects[subject]
    else if st.settings.context.Some? then st.settings.context.value
    else if st.settings.shared.Some? then st.settings.shared.value
    else Config(env.defaultLevel, None, None, "", Layers(None, None, None, None))
  }

  /** A switch that each level of the chain may leave unset. */
  function Switch(st: State, subject: string, pick: Config -> Option<bool>): bool {
    if subject != "" && subject in st.settings.subjects && pick(st.settings.subjects[subject]).Some? then pick(st.settings.subjects[subject]).value
    else if st.settings.context.Some? && pick(st.settings.context.value).Some? then pick(st.settings.context.value).value
    else if st.settings.shared.Some? && pick(st.settings.shared.value).Some? then pick(st.settings.shared.value).value
    else false
  }

  function NormalizeEnabled(st: State, subject: string): bool {
    Switch(st, subject, (c: Config) => c.normalize)
  }

  function ValidateFieldsEnabled(st: State, subject: string): bool {
    Switch(st, subject, (c: Config) => c.validateFields)
  }

  // ----- metadata properties

  function Property(m: Option<Metadata>, name: string): string {
    if m.Some? && m.value.properties.Some? && name in m.value.properties.value
    then m.value.properties.value[name] else ""
  }

  /** The version a request insists on, or 0. */
  function ConfluentVersionTarget(env: Env, m: Option<Metadata>): int {
    if m.Some? && m.value.properties.Some? && "confluent:version" in m.value.properties.value then
      match env.atoi(m.value.properties.value["confluent:version"])
      case Some(n) => if n <= 0 then 0 else n
      case None => 0
    else 0
  }

  function StripConfluentVersion(m: Option<Metadata>): Option<Metadata> {
    if m == None || m.value.properties == None || "confluent:version" !in m.value.properties.value then m
    else
      var rest := m.value.properties.value - {"confluent:version"};
      var stripped := m.value.(properties := if rest == map[] then None else Some(rest));
      if stripped == Metadata(None, None, None) then None else Some(stripped)
  }

  function ReservedFields(env: Env, m: Option<Metadata>): set<string> {
    var text := Property(m, "confluent:reserved");
    if text == "" then {} else env.reservedNames(text)
  }

  predicate SameMetadata(a: Option<Metadata>, b: Option<Metadata>) {
    MetadataOrEmpty(a) == MetadataOrEmpty(b)
  }

  predicate SameRuleSet(a: Option<RuleSet>, b: Option<RuleSet>) {
    RuleSetOrEmpty(a) == RuleSetOrEmpty(b)
  }

  // ----- RegisterSchema

  function TypeOrAvro(schemaType: string): string {
    if schemaType == "" then "AVRO" else schemaType
  }

  function Prepare(env: Env, st: State, req: Request): Prepared {
    var ty := TypeOrAvro(req.schemaType);
    if ty !in env.parsers then Refused(UnsupportedType)
    else
      match Resolve(LookupGraph(st), req.references)
      case Missing(r) => Refused(UnresolvedReference(r))
      case Done(_, resolved) =>
        match env.parsers[ty](req.schema, resolved)
        case None => Refused(InvalidSchema)
        case Some(p) =>
          if req.ruleSet.Some? && !env.validRuleSet(req.ruleSet.value) then Refused(InvalidRuleSet)
          else
            var normalize := req.normalize || NormalizeEnabled(st, req.subject);
            var parsed := if normalize then env.normalize(p) else p;
            Ready(Candidate(req, ty, if normalize then parsed.canonical else req.schema, resolved, parsed,
                            GlobalFingerprint(parsed.fingerprint, req.references)))
  }

  function WithFingerprint(st: State, subject: string, f: Fingerprint): set<int> {
    set v | v in LiveNumbers(st, subject) && ContentOf(st, SubjectVersion(subject, v)).fingerprint == f
  }

  /** GetSchemaByFingerprint: some live version with the fingerprint. Which one depends on map order;
      `pick` stands for that order, and any candidate can be picked. */
  function FindByFingerprint(st: State, subject: string, f: Fingerprint, pick: int): Option<int> {
    var found := WithFingerprint(st, subject, f);
    if pick in found then Some(pick)
    else
      var all := Ascending(found);
      if all == [] then None else Some(all[0])
  }

  function InfoOf(st: State, subject: string, version: int): VersionInfo {
    var k := SubjectVersion(subject, version);
    if k in st.versions then st.versions[k] else VersionInfo(0, true, None, None)
  }

  predicate VersionAgrees(env: Env, c: Candidate, version: int) {
    var target := ConfluentVersionTarget(env, c.request.metadata);
    target <= 0 || target == version
  }

  predicate IsRepeat(env: Env, st: State, c: Candidate, version: int) {
    var info := InfoOf(st, c.request.subject, version);
    && SameMetadata(StripConfluentVersion(info.metadata), StripConfluentVersion(c.request.metadata))
    && SameRuleSet(info.ruleSet, c.request.ruleSet)
    && VersionAgrees(env, c, version)
  }

  /** The live history a candidate is compared with, restricted to its compatibility group if there is one. */
  function History(st: State, c: Candidate): seq<int> {
    var subject := c.request.subject;
    var all := LiveVersions(st, subject);
    var group := if subject in st.settings.subjects then st.settings.subjects[subject].compatibilityGroup else "";
    if group == "" then all
    else InGroup(st, subject, group, Property(c.request.metadata, group), all)
  }

  function InGroup(st: State, subject: string, group: string, value: string, versions: seq<int>): seq<int> {
    if versions == [] then []
    else
      var rest := InGroup(st, subject, group, value, versions[1..]);
      if Property(InfoOf(st, subject, versions[0]).metadata, group) == value then [versions[0]] + rest else rest
  }

  /** The stored text of a live version with its references as they resolve now. */
  function StoredForm(st: State, k: SubjectVersion): Option<SchemaWithRefs>
    requires IsLive(st, k)
  {
    match Resolve(LookupGraph(st), ContentOf(st, k).references)
    case Missing(_) => None
    case Done(_, resolved) => Some(SchemaWithRefs(ContentOf(st, k).schema, resolved))
  }

  function WithRefs(st: State, subject: string, versions: seq<int>): Option<seq<SchemaWithRefs>>
    requires forall v | v in versions :: IsLive(st, SubjectVersion(subject, v))
  {
    if versions == [] then Some([])
    else
      var n := |versions| - 1;
      match (WithRefs(st, subject, versions[..n]), StoredForm(st, SubjectVersion(subject, versions[n])))
      case (Some(list), Some(s)) => Some(list + [s])
      case _ => None
  }

  lemma {:induction false} InGroupLive(st: State, subject: string, group: string, value: string, versions: seq<int>)
    ensures forall v | v in InGroup(st, subject, group, value, versions) :: v in versions
  {
    if versions != [] {
      InGroupLive(st, subject, group, value, versions[1..]);
    }
  }

  lemma HistoryLive(st: State, c: Candidate)
    ensures forall v | v in History(st, c) :: IsLive(st, SubjectVersion(c.request.subject, v))
  {
    var subject := c.request.subject;
    AscendingSorts(LiveNumbers(st, subject));
    if subject in st.settings.subjects {
      var group := st.settings.subjects[subject].compatibilityGroup;
      InGroupLive(st, subject, group, Property(c.request.metadata, group), LiveVersions(st, subject));
    }
  }

  function CompatibilityGate(env: Env, st: State, c: Candidate): Option<Rejection> {
    var mode := EffectiveConfig(env, st, c.request.subject).level;
    HistoryLive(st, c);
    if mode == Nothing || History(st, c) == [] then None
    else
      match WithRefs(st, c.request.subject, History(st, c))
      case None => Some(BrokenHistory)
      case Some(existing) =>
        if CheckMessages(env.checkers, mode, c.schemaType, SchemaWithRefs(c.schema, c.resolved), existing) == []
        then None else Some(Incompatible)
  }

  function LatestInfo(st: State, subject: string): Option<VersionInfo> {
    match Latest(st, subject) case None => None case Some(v) => Some(InfoOf(st, subject, v))
  }

  function PreviousMetadata(st: State, subject: string): Option<Metadata> {
    match LatestInfo(st, subject) case None => None case Some(info) => info.metadata
  }

  function PreviousRuleSet(st: State, subject: string): Option<RuleSet> {
    match LatestInfo(st, subject) case None => None case Some(info) => info.ruleSet
  }

  /** The names reserved before stay reserved, and no reserved name is a top-level field. */
  predicate ReservedOk(env: Env, st: State, c: Candidate) {
    var reserved := ReservedFields(env, c.request.metadata);
    ReservedFields(env, PreviousMetadata(st, c.request.subject)) <= reserved && reserved !! c.parsed.fields
  }

  function Gate(env: Env, st: State, c: Candidate): Option<Rejection> {
    match CompatibilityGate(env, st, c)
    case Some(why) => Some(why)
    case None =>
      if ValidateFieldsEnabled(st, c.request.subject) && !ReservedOk(env, st, c) then Some(ReservedConflict) else None
  }

  /** The record to store, with the three-layer merge applied and the control property stripped. */
  function RecordFor(env: Env, st: State, c: Candidate): Record {
    var subject := c.request.subject;
    var layers := EffectiveConfig(env, st, subject).layers;
    Record(0, subject, 0, c.schemaType, c.schema, c.request.references,
           StripConfluentVersion(LayeredMetadata(layers, c.request.metadata, PreviousMetadata(st, subject))),
           LayeredRuleSet(layers, c.request.ruleSet, PreviousRuleSet(st, subject)),
           c.fingerprint)
  }

  function Register(env: Env, st: State, req: Request, pick: int, pick2: int): (State, RegisterOutcome) {
    match Prepare(env, st, req)
    case Refused(why) => (st, Rejected(why))
    case Ready(c) =>
      var found := FindByFingerprint(st, req.subject, c.fingerprint, pick);
      if found.Some? && IsRepeat(env, st, c, found.value) then (st, Existing(found.value))
      else
        match Gate(env, st, c)
        case Some(why) => (st, Rejected(why))
        case None => StoreCandidate(env, st, c, pick2)
  }

  function StoreCandidate(env: Env, st: State, c: Candidate, pick: int): (State, RegisterOutcome) {
    var record := RecordFor(env, st, c);
    var (after, result) := AfterCreate(st, record);
    match result
    case Ok(stored) => (after, Registered(stored))
    case Err(e) =>
      var found := FindByFingerprint(st, record.subject, record.fingerprint, pick);
      if found.Some? && SameMetadata(InfoOf(st, record.subject, found.value).metadata, record.metadata)
         && SameRuleSet(InfoOf(st, record.subject, found.value).ruleSet, record.ruleSet)
         && VersionAgrees(env, c, found.value)
      then (after, Existing(found.value))
      else (after, Rejected(StoreRefused(e)))
  }

  /** If the map yields this version both times, no other version is answered. */
  lemma AnswersFound(env: Env, st: State, req: Request, found: int, version: int)
    requires Prepare(env, st, req).Ready?
    requires found in WithFingerprint(st, req.subject, Prepare(env, st, req).candidate.fingerprint)
    requires Register(env, st, req, found, found).1 == Existing(version)
    ensures version == found
    ensures IsRepeat(env, st, Prepare(env, st, req).candidate, found) ||
            (Gate(env, st, Prepare(env, st, req).candidate) == None && VersionAgrees(env, Prepare(env, st, req).candidate, found))
  {
  }

  // ----- RegisterSchemaWithID

  datatype IDRequest = IDRequest(subject: string, schemaType: string, schema: string, references: seq<Reference>,
                                 id: int, version: int)

  datatype ImportPrepared = ImportReady(fingerprint: Fingerprint) | ImportRefused(why: Rejection)

  /** References, text and fingerprint of an import, which is neither normalized nor compared. */
  function PrepareImport(env: Env, st: State, req: IDRequest): ImportPrepared {
    var ty := TypeOrAvro(req.schemaType);
    if ty !in env.parsers then ImportRefused(UnsupportedType)
    else
      match Resolve(LookupGraph(st), req.references)
      case Missing(r) => ImportRefused(UnresolvedReference(r))
      case Done(_, resolved) =>
        match env.parsers[ty](req.schema, resolved)
        case None => ImportRefused(InvalidSchema)
        case Some(p) => ImportReady(GlobalFingerprint(p.fingerprint, req.references))
  }

  function ImportRecord(req: IDRequest, version: int, f: Fingerprint): Record {
    Record(req.id, req.subject, version, TypeOrAvro(req.schemaType), req.schema, req.references, None, None, f)
  }

  function Highest(s: seq<int>): int {
    if s == [] then 0 else s[|s| - 1]
  }

  /** An explicit version, or the one after the highest that physically exists. */
  function AssignedVersion(st: State, subject: string, version: int): int {
    if version > 0 then version
    else
      var highest := Highest(Ascending(Numbers(Subject(st, subject))));
      if highest >= 1 then highest + 1 else 1
  }

  /** The next ID after an import with `id`: one past it, but never backward. */
  function AdvancedNextID(st: State, id: int): int {
    var (next, current) := (Wrap64(id + 1), Wrap64(Wrap64(st.nextID - 1) + 1));
    if current > next then current else next
  }

  function RegisterWithID(env: Env, st: State, req: IDRequest, pick: int): (State, RegisterOutcome) {
    match PrepareImport(env, st, req)
    case ImportRefused(why) => (st, Rejected(why))
    case ImportReady(f) =>
      var existing := FindByFingerprint(st, req.subject, f, pick);
      if existing.Some? then (st, Existing(existing.value))
      else
        var version := AssignedVersion(st, req.subject, req.version);
        var (after, result) := AfterImport(st, ImportRecord(req, version, f));
        match result
        case Err(e) =>
          if e == SchemaExists && Lookup(st, SubjectVersion(req.subject, version)).Ok?
          then (after, Existing(version)) else (after, Rejected(StoreRefused(e)))
        case Ok(_) =>
          (after.(nextID := AdvancedNextID(after, req.id)), Registered(Stored(req.id, version)))
  }

  // ----- ImportSchemas

  datatype ImportError =
    | IdNotPositive | SubjectMissing | VersionNotPositive | SchemaMissing | Invalid(why: Rejection) | NotStored(error: StoreError)

  datatype ImportEntry = ImportEntry(id: int, subject: string, version: int, error: Option<ImportError>)

  datatype ImportResult = ImportResult(imported: nat, errors: nat, results: seq<ImportEntry>)

  function ImportOne(env: Env, st: State, req: IDRequest): (State, Option<ImportError>) {
    if req.id <= 0 then (st, Some(IdNotPositive))
    else if req.subject == "" then (st, Some(SubjectMissing))
    else if req.version <= 0 then (st, Some(VersionNotPositive))
    else if req.schema == "" then (st, Some(SchemaMissing))
    else
      match PrepareImport(env, st, req)
      case ImportRefused(why) => (st, Some(Invalid(why)))
      case ImportReady(f) =>
        var (after, result) := AfterImport(st, ImportRecord(req, req.version, f));
        (after, match result case Ok(_) => None case Err(e) => Some(NotStored(e)))
  }

  datatype Batch = Batch(state: State, result: ImportResult, maxID: int)

  /** The loop of ImportSchemas over the requests so far. */
  function ImportLoop(env: Env, st: State, reqs: seq<IDRequest>): Batch {
    if reqs == [] then Batch(st, ImportResult(0, 0, []), 0)
    else
      var n := |reqs| - 1;
      var b := ImportLoop(env, st, reqs[..n]);
      var (after, error) := ImportOne(env, b.state, reqs[n]);
      var entry := ImportEntry(reqs[n].id, reqs[n].subject, reqs[n].version, error);
      Batch(after,
            ImportResult(b.result.imported + (if error == None then 1 else 0),
                         b.result.errors + (if error == None then 0 else 1),
                         b.result.results + [entry]),
            if error == None && reqs[n].id > b.maxID then reqs[n].id else b.maxID)
  }

  function ImportSchemas(env: Env, st: State, reqs: seq<IDRequest>): (State, ImportResult) {
    var b := ImportLoop(env, st, reqs);
    (if b.maxID > 0 then b.state.(nextID := AdvancedNextID(b.state, b.maxID)) else b.state, b.result)
  }

  // ----- deletion

  function DeleteSubject(st: State, subject: string, permanent: bool): (State, StoreResult<seq<int>>) {
    if !permanent && exists v | v in LiveNumbers(st, subject) :: ReferencedBy(st, SubjectVersion(subject, v)) != {}
    then (st, Err(ReferenceExists))
    else AfterDeleteSubject(st, subject, permanent)
  }

  function DeletedNumbers(st: State, subject: string): set<int> {
    Numbers(set k | k in Subject(st, subject) && st.versions[k].deleted)
  }

  function DeleteVersion(st: State, subject: string, version: int, permanent: bool): (State, StoreResult<int>) {
    if permanent then
      if version == -1 && Subject(st, subject) == {} then (st, Err(SubjectNotFound))
      else if version == -1 && DeletedNumbers(st, subject) == {} then (st, Err(VersionNotFound))
      else
        var v := if version == -1 then Highest(Ascending(DeletedNumbers(st, subject))) else version;
        var (after, result) := AfterDelete(st, SubjectVersion(subject, v), true);
        (after, match result case Ok(_) => Ok(v) case Err(e) => Err(e))
    else
      match Lookup(st, SubjectVersion(subject, version))
      case Err(e) => (st, Err(e))
      case Ok(v) =>
        if ReferencedBy(st, SubjectVersion(subject, v)) != {} then (st, Err(ReferenceExists))
        else
          var (after, result) := AfterDelete(st, SubjectVersion(subject, v), false);
          (after, match result case Ok(_) => Ok(v) case Err(e) => Err(e))
  }

  // ----- runs

  datatype Scope = OfSubject(subject: string) | OfContext | Shared

  datatype Op =
    | RegisterOp(request: Request, pick: int, pick2: int)
    | RegisterWithIDOp(idRequest: IDRequest, pick: int)
    | ImportOp(requests: seq<IDRequest>)
    | DeleteSubjectOp(subject: string, permanent: bool)
    | DeleteVersionOp(subject: string, version: int, permanent: bool)
    | SetConfigOp(scope: Scope, config: Config)
    | ClearConfigOp(scope: Scope)

  function Step(env: Env, st: State, op: Op): State {
    match op
    case RegisterOp(req, pick, pick2) => Register(env, st, req, pick, pick2).0
    case RegisterWithIDOp(req, pick) => RegisterWithID(env, st, req, pick).0
    case ImportOp(reqs) => ImportSchemas(env, st, reqs).0
    case DeleteSubjectOp(subject, permanent) => DeleteSubject(st, subject, permanent).0
    case DeleteVersionOp(subject, version, permanent) => DeleteVersion(st, subject, version, permanent).0
    case SetConfigOp(scope, config) => st.(settings := Configured(st.settings, scope, Some(config)))
    case ClearConfigOp(scope) => st.(settings := Configured(st.settings, scope, None))
  }

  function Configured(s: Settings, scope: Scope, config: Option<Config>): Settings {
    match scope
    case OfSubject(subject) =>
      s.(subjects := if config.Some? then s.subjects[subject := config.value] else s.subjects - {subject})
    case OfContext => s.(context := config)
    case Shared => s.(shared := config)
  }

  /** The state after a sequence of operations on an empty context. */
  function After(env: Env, ops: seq<Op>): State {
    if ops == [] then EMPTY else Step(env, After(env, ops[..|ops| - 1]), ops[|ops| - 1])
  }
}
