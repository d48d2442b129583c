/** What every registry operation answers and leaves behind, case by case, in terms of the stored versions. */
module Outcomes {
  import opened Options
  import opened Fingerprints
  import opened Resolver
  import opened Metadatas
  import opened Compatibility
  import opened Storage
  import opened Registry
  import opened Integrity
  import opened Responses

  // ----- configuration

  function DefaultConfig(env: Env): Config {
    Config(env.defaultLevel, None, None, "", Layers(None, None, None, None))
  }

  predicate HasOwn(st: State, subject: string) {
    subject != "" && subject in st.settings.subjects
  }

  /** A subject's own configuration wins over that of its context, which wins over the shared one, which wins over the default. */
  lemma ConfigPrecedence(env: Env, st: State, subject: string, c: Config)
    ensures subject != "" ==> EffectiveConfig(env, Step(env, st, SetConfigOp(OfSubject(subject), c)), subject) == c
    ensures var after := Step(env, st, SetConfigOp(OfContext, c));
            EffectiveConfig(env, after, subject) == if HasOwn(st, subject) then st.settings.subjects[subject] else c
    ensures var after := Step(env, st, SetConfigOp(Shared, c));
            EffectiveConfig(env, after, subject) ==
            if HasOwn(st, subject) then st.settings.subjects[subject]
            else if st.settings.context.Some? then st.settings.context.value else c
    ensures var after := Step(env, st, ClearConfigOp(Shared));
            EffectiveConfig(env, after, subject) ==
            if HasOwn(st, subject) then st.settings.subjects[subject]
            else if st.settings.context.Some? then st.settings.context.value else DefaultConfig(env)
  {
  }

  /** Setting or clearing one level leaves everything else as it is. */
  lemma ConfigSetsOneLevel(env: Env, st: State, subject: string, c: Config)
    ensures var s := st.settings;
            && Step(env, st, SetConfigOp(OfSubject(subject), c)) == st.(settings := Settings(s.subjects[subject := c], s.context, s.shared))
            && Step(env, st, SetConfigOp(OfContext, c)) == st.(settings := Settings(s.subjects, Some(c), s.shared))
            && Step(env, st, SetConfigOp(Shared, c)) == st.(settings := Settings(s.subjects, s.context, Some(c)))
            && Step(env, st, ClearConfigOp(OfSubject(subject))) == st.(settings := Settings(s.subjects - {subject}, s.context, s.shared))
            && Step(env, st, ClearConfigOp(OfContext)) == st.(settings := Settings(s.subjects, None, s.shared))
            && Step(env, st, ClearConfigOp(Shared)) == st.(settings := Settings(s.subjects, s.context, None))
  {
  }

  /** Clearing lets the next level through, and what is set for one subject does not concern another. */
  lemma ConfigClears(env: Env, st: State, subject: string, other: string, c: Config)
    ensures !HasOwn(Step(env, st, ClearConfigOp(OfSubject(subject))), subject)
    ensures Step(env, st, ClearConfigOp(OfContext)).settings.context == None
    ensures other != subject ==>
            && EffectiveConfig(env, Step(env, st, SetConfigOp(OfSubject(other), c)), subject) == EffectiveConfig(env, st, subject)
            && EffectiveConfig(env, Step(env, st, ClearConfigOp(OfSubject(other))), subject) == EffectiveConfig(env, st, subject)
  {
  }

  /** The first level of the chain that has a value for a switch. */
  function FirstSet(a: Option<bool>, b: Option<bool>, c: Option<bool>): bool {
    match (a, b, c)
    case (Some(x), _, _) => x
    case (None, Some(x), _) => x
    case (None, None, Some(x)) => x
    case (None, None, None) => false
  }

  function OwnConfig(st: State, subject: string): Option<Config> {
    if HasOwn(st, subject) then Some(st.settings.subjects[subject]) else None
  }

  function NormalizeOf(c: Option<Config>): Option<bool> {
    if c.Some? then c.value.normalize else None
  }

  function ValidateOf(c: Option<Config>): Option<bool> {
    if c.Some? then c.value.validateFields else None
  }

  /** Each of the two switches is looked up on its own: a level that leaves one unset lets the next level decide that one. */
  lemma SwitchesFallThrough(st: State, subject: string)
    ensures NormalizeEnabled(st, subject) ==
            FirstSet(NormalizeOf(OwnConfig(st, subject)), NormalizeOf(st.settings.context), NormalizeOf(st.settings.shared))
    ensures ValidateFieldsEnabled(st, subject) ==
            FirstSet(ValidateOf(OwnConfig(st, subject)), ValidateOf(st.settings.context), ValidateOf(st.settings.shared))
  {
  }

  // ----- looking a version up

  predicate Stands(st: State, subject: string, v: int) {
    var k := SubjectVersion(subject, v);
    k in st.versions && !st.versions[k].deleted
  }

  ghost predicate HighestStanding(st: State, subject: string, v: int) {
    Stands(st, subject, v) && forall w | Stands(st, subject, w) :: w <= v
  }

  lemma StandsIsLive(st: State, subject: string, v: int)
    requires WellFormed(st)
    ensures Stands(st, subject, v) <==> IsLive(st, SubjectVersion(subject, v))
    ensures Stands(st, subject, v) <==> v in LiveVersions(st, subject)
  {
    var k := SubjectVersion(subject, v);
    assert k in st.versions ==> VersionOk(st, k);
    AscendingSorts(LiveNumbers(st, subject));
  }

  /** The latest version is the highest that is not deleted. */
  lemma LatestExactly(st: State, subject: string)
    requires WellFormed(st)
    ensures match Latest(st, subject)
            case Some(v) => HighestStanding(st, subject, v)
            case None => forall v :: !Stands(st, subject, v)
  {
    var live := LiveVersions(st, subject);
    AscendingSorts(LiveNumbers(st, subject));
    forall v
      ensures Stands(st, subject, v) <==> v in live
    {
      StandsIsLive(st, subject, v);
    }
    if live != [] {
      assert live[|live| - 1] in live;
    }
  }

  /** A lookup answers a version that is not deleted, or says whether the subject or the version is missing. */
  lemma LookupExactly(st: State, subject: string, version: int)
    requires WellFormed(st)
    ensures var answer := Lookup(st, SubjectVersion(subject, version));
            && (version != -1 ==> (answer == Ok(version) <==> Stands(st, subject, version)))
            && (version == -1 ==> forall v :: answer == Ok(v) <==> HighestStanding(st, subject, v))
            && (answer == Err(SubjectNotFound) <==>
                  if version == -1 then forall v :: !Stands(st, subject, v) else forall k | k in st.versions :: k.subject != subject)
            && (answer.Ok? || answer == Err(SubjectNotFound) || answer == Err(VersionNotFound))
  {
    LatestExactly(st, subject);
    StandsIsLive(st, subject, version);
    if Stands(st, subject, version) {
      assert SubjectVersion(subject, version) in Subject(st, subject);
    }
    if Subject(st, subject) != {} {
      var k := Member(Subject(st, subject));
      assert k in st.versions && k.subject == subject;
    }
    forall v | Stands(st, subject, v)
      ensures Subject(st, subject) != {}
    {
      assert SubjectVersion(subject, v) in Subject(st, subject);
    }
  }

  /** What references see: of a live version its text and references, and under -1 those of the highest live version. */
  lemma GraphExactly(st: State, subject: string, v: int)
    requires WellFormed(st) && Stands(st, subject, v)
    ensures var graph, content := LookupGraph(st), ContentOf(st, SubjectVersion(subject, v));
            && SubjectVersion(subject, v) in graph && graph[SubjectVersion(subject, v)] == Node(content.schema, content.references)
            && (HighestStanding(st, subject, v) ==>
                  SubjectVersion(subject, -1) in graph && graph[SubjectVersion(subject, -1)] == Node(content.schema, content.references))
  {
    StandsIsLive(st, subject, v);
    LiveLookup(st, SubjectVersion(subject, v));
    LookupExactly(st, subject, -1);
    LookupGraphExact(st, SubjectVersion(subject, -1));
  }

  // ----- registering: what is refused before anything is compared

  /** The parser that a request asks for, AVRO if it names none. */
  function TypeOf(schemaType: string): string {
    if schemaType == "" then "AVRO" else schemaType
  }

  /** What the parser makes of the text with its references resolved in this state. */
  function ParsedIn(env: Env, st: State, schemaType: string, schema: string, references: seq<Reference>): Option<Parsed>
    requires TypeOf(schemaType) in env.parsers && Resolve(LookupGraph(st), references).Done?
  {
    env.parsers[TypeOf(schemaType)](schema, Resolve(LookupGraph(st), references).resolved)
  }

  predicate Resolves(st: State, references: seq<Reference>) {
    Resolve(LookupGraph(st), references).Done?
  }

  predicate Parses(env: Env, st: State, schemaType: string, schema: string, references: seq<Reference>) {
    TypeOf(schemaType) in env.parsers && Resolves(st, references) && ParsedIn(env, st, schemaType, schema, references).Some?
  }

  predicate RulesValid(env: Env, req: Request) {
    req.ruleSet.Some? ==> env.validRuleSet(req.ruleSet.value)
  }

  /** Unknown types, unresolved references, unreadable texts and invalid rule sets are refused, in this order, and change nothing. */
  lemma RegisterRefusesEarly(env: Env, st: State, req: Request, pick: int, pick2: int)
    ensures var r := Register(env, st, req, pick, pick2);
            if TypeOf(req.schemaType) !in env.parsers then r == (st, Rejected(UnsupportedType))
            else if !Resolves(st, req.references) then
              r == (st, Rejected(UnresolvedReference(Resolve(LookupGraph(st), req.references).reference)))
            else if !Parses(env, st, req.schemaType, req.schema, req.references) then r == (st, Rejected(InvalidSchema))
            else if !RulesValid(env, req) then r == (st, Rejected(InvalidRuleSet))
            else Prepare(env, st, req).Ready?
  {
  }

  /** The text that is compared and stored: normalized if the request or the first level of the chain that decides says so. */
  lemma CandidateExactly(env: Env, st: State, req: Request)
    requires Parses(env, st, req.schemaType, req.schema, req.references) && RulesValid(env, req)
    ensures var p := ParsedIn(env, st, req.schemaType, req.schema, req.references).value;
            var normal := req.normalize || NormalizeEnabled(st, req.subject);
            var c := Prepare(env, st, req).candidate;
            && c.request == req && c.schemaType == TypeOf(req.schemaType)
            && c.resolved == Resolve(LookupGraph(st), req.references).resolved
            && c.parsed == (if normal then env.normalize(p) else p)
            && c.schema == (if normal then env.normalize(p).canonical else req.schema)
            && c.fingerprint == GlobalFingerprint((if normal then env.normalize(p) else p).fingerprint, req.references)
  {
  }

  // ----- registering: what is recognised

  function TagsIn(m: Option<Metadata>): Option<map<string, seq<string>>> {
    if m.Some? then m.value.tags else None
  }

  function SensitiveIn(m: Option<Metadata>): Option<seq<string>> {
    if m.Some? then m.value.sensitive else None
  }

  /** An absent value counts as the empty one. */
  predicate SameOr<T(==)>(a: Option<T>, b: Option<T>, empty: T) {
    match (a, b)
    case (Some(x), Some(y)) => x == y
    case (Some(x), None) => x == empty
    case (None, Some(y)) => y == empty
    case (None, None) => true
  }

  predicate SameRules(a: Option<RuleSet>, b: Option<RuleSet>) {
    SameOr(a, b, RuleSet([], [], []))
  }

  /** The two agree on everything but the control property, and on whether properties are present but empty. */
  ghost predicate SameButControl(a: Option<Metadata>, b: Option<Metadata>) {
    && TagsIn(a) == TagsIn(b) && SensitiveIn(a) == SensitiveIn(b)
    && (forall name | name != "confluent:version" :: PropertyOf(a, name) == PropertyOf(b, name))
    && (EmptyProperties(a) <==> EmptyProperties(b))
  }

  function Uncontrolled(m: Option<Metadata>): Option<map<string, string>> {
    MetadataOrEmpty(StripConfluentVersion(m)).properties
  }

  lemma UncontrolledIs(m: Option<Metadata>, name: string)
    ensures Entry(Uncontrolled(m), name) == if name == "confluent:version" then None else PropertyOf(m, name)
    ensures Uncontrolled(m) == Some(map[]) <==> EmptyProperties(m)
    ensures TagsIn(StripConfluentVersion(m)) == TagsIn(m) && SensitiveIn(StripConfluentVersion(m)) == SensitiveIn(m)
  {
    if m.Some? && m.value.properties.Some? {
      var rest := m.value.properties.value - {"confluent:version"};
      assert name != "confluent:version" ==> (name in rest <==> name in m.value.properties.value);
      assert m.value.properties.value == map[] ==> rest == map[];
    }
  }

  /** Metadata that held nothing but the control property is absent afterwards, and no other is. */
  lemma StripsToNothing(m: Option<Metadata>)
    ensures StripConfluentVersion(m) == None <==>
            m == None ||
            (PropertyOf(m, "confluent:version").Some? && TagsIn(m) == None && SensitiveIn(m) == None
             && forall name | name != "confluent:version" :: PropertyOf(m, name) == None)
  {
    if m.Some? && m.value.properties.Some? {
      var props := m.value.properties.value;
      var rest := props - {"confluent:version"};
      if rest != map[] {
        var name := Member(rest.Keys);
        assert PropertyOf(m, name).Some?;
      }
      assert forall name :: name in rest <==> name in props && name != "confluent:version";
    }
  }

  lemma SameEntries(a: Option<map<string, string>>, b: Option<map<string, string>>)
    requires (forall name :: Entry(a, name) == Entry(b, name)) && (a == Some(map[]) <==> b == Some(map[]))
    ensures a == b
  {
    if a.Some? && a.value != map[] {
      var name := Member(a.value.Keys);
      assert Entry(a, name).Some?;
    }
    if b.Some? && b.value != map[] {
      var name := Member(b.value.Keys);
      assert Entry(b, name).Some?;
    }
    if a.Some? && b.Some? {
      forall name
        ensures name in a.value <==> name in b.value
        ensures name in a.value ==> a.value[name] == b.value[name]
      {
        assert Entry(a, name) == Entry(b, name);
      }
      assert a.value == b.value;
    }
  }

  /** Stripping the control property compares exactly what is left. */
  lemma StrippedSameExactly(a: Option<Metadata>, b: Option<Metadata>)
    ensures SameMetadata(StripConfluentVersion(a), StripConfluentVersion(b)) <==> SameButControl(a, b)
  {
    forall name
      ensures Entry(Uncontrolled(a), name) == if name == "confluent:version" then None else PropertyOf(a, name)
      ensures Entry(Uncontrolled(b), name) == if name == "confluent:version" then None else PropertyOf(b, name)
    {
      UncontrolledIs(a, name);
      UncontrolledIs(b, name);
    }
    UncontrolledIs(a, "");
    UncontrolledIs(b, "");
    if SameButControl(a, b) {
      SameEntries(Uncontrolled(a), Uncontrolled(b));
    }
  }

  /** A positive number under the control property is a version that the request insists on; anything else is not. */
  predicate Insists(env: Env, m: Option<Metadata>, n: int) {
    var text := PropertyOf(m, "confluent:version");
    text.Some? && env.atoi(text.value) == Some(n) && n > 0
  }

  /** The version carries the schema, metadata and rule set of the request, and the request does not insist on another one. */
  ghost predicate SameAs(env: Env, st: State, c: Candidate, v: int) {
    var k := SubjectVersion(c.request.subject, v);
    && IsLive(st, k) && ContentOf(st, k).fingerprint == c.fingerprint
    && SameButControl(st.versions[k].metadata, c.request.metadata)
    && SameRules(st.versions[k].ruleSet, c.request.ruleSet)
    && forall n | Insists(env, c.request.metadata, n) :: n == v
  }

  ghost predicate HasFingerprint(st: State, subject: string, f: Fingerprint, v: int) {
    IsLive(st, SubjectVersion(subject, v)) && ContentOf(st, SubjectVersion(subject, v)).fingerprint == f
  }

  lemma FoundHasFingerprint(st: State, subject: string, f: Fingerprint, pick: int)
    ensures match FindByFingerprint(st, subject, f, pick)
            case Some(v) => HasFingerprint(st, subject, f, v) && (HasFingerprint(st, subject, f, pick) ==> v == pick)
            case None => forall v :: !HasFingerprint(st, subject, f, v)
  {
    var found := WithFingerprint(st, subject, f);
    AscendingSorts(found);
    forall v
      ensures HasFingerprint(st, subject, f, v) <==> v in found
    {
    }
    if Ascending(found) != [] {
      assert Ascending(found)[0] in Ascending(found);
    }
  }

  lemma RepeatExactly(env: Env, st: State, c: Candidate, v: int)
    requires HasFingerprint(st, c.request.subject, c.fingerprint, v)
    ensures IsRepeat(env, st, c, v) <==> SameAs(env, st, c, v)
  {
    StrippedSameExactly(InfoOf(st, c.request.subject, v).metadata, c.request.metadata);
    InsistsOnTarget(env, c.request.metadata);
  }

  /** A request whose version is found and is the same in all respects is answered with it, and nothing changes. */
  lemma RegisterRecognises(env: Env, st: State, req: Request, pick: int, pick2: int)
    requires Prepare(env, st, req).Ready? && SameAs(env, st, Prepare(env, st, req).candidate, pick)
    ensures Register(env, st, req, pick, pick2) == (st, Existing(pick))
  {
    var c := Prepare(env, st, req).candidate;
    assert c.request == req;
    FoundHasFingerprint(st, req.subject, c.fingerprint, pick);
    RepeatExactly(env, st, c, pick);
  }

  /** If the version found is not the same, or none is, the gates decide. */
  lemma RegisterGoesOn(env: Env, st: State, req: Request, pick: int, pick2: int)
    requires Prepare(env, st, req).Ready?
    requires var c := Prepare(env, st, req).candidate;
             !SameAs(env, st, c, pick) && (HasFingerprint(st, req.subject, c.fingerprint, pick) || forall v :: !SameAs(env, st, c, v))
    ensures var c := Prepare(env, st, req).candidate;
            Register(env, st, req, pick, pick2) ==
            match Gate(env, st, c) case Some(why) => (st, Rejected(why)) case None => StoreCandidate(env, st, c, pick2)
  {
    var c := Prepare(env, st, req).candidate;
    assert c.request == req;
    FoundHasFingerprint(st, req.subject, c.fingerprint, pick);
    var found := FindByFingerprint(st, req.subject, c.fingerprint, pick);
    if found.Some? {
      RepeatExactly(env, st, c, found.value);
    }
  }

  // ----- registering: what it is compared with

  /** The group of versions that a subject compares among, if it has one. */
  function GroupOf(st: State, subject: string): string {
    if subject in st.settings.subjects then st.settings.subjects[subject].compatibilityGroup else ""
  }

  /** A live version of the subject; with a group, one that has the request's value of the group's property. */
  predicate InScope(st: State, c: Candidate, v: int) {
    var k := SubjectVersion(c.request.subject, v);
    var group := GroupOf(st, c.request.subject);
    IsLive(st, k) && (group != "" ==> ValueOf(st.versions[k].metadata, group) == ValueOf(c.request.metadata, group))
  }

  /** A missing property counts as an empty one. */
  function ValueOf(m: Option<Metadata>, name: string): string {
    match PropertyOf(m, name) case Some(text) => text case None => ""
  }

  predicate ResolvesAt(st: State, k: SubjectVersion)
    requires IsLive(st, k)
  {
    Resolves(st, ContentOf(st, k).references)
  }

  /** The stored text of a live version with its references as they resolve now. */
  function TextAt(st: State, k: SubjectVersion): SchemaWithRefs
    requires IsLive(st, k) && ResolvesAt(st, k)
  {
    SchemaWithRefs(ContentOf(st, k).schema, Resolve(LookupGraph(st), ContentOf(st, k).references).resolved)
  }

  /** The new text can be read with the old one, or the old with the new, as the mode asks. */
  predicate Compatible(env: Env, c: Candidate, mode: Mode, earlier: SchemaWithRefs) {
    && c.schemaType in env.checkers
    && (mode in {Backward, BackwardTransitive, Full, FullTransitive} ==>
          Silent(env.checkers[c.schemaType](SchemaWithRefs(c.schema, c.resolved), earlier)))
    && (mode in {Forward, ForwardTransitive, Full, FullTransitive} ==>
          Silent(env.checkers[c.schemaType](earlier, SchemaWithRefs(c.schema, c.resolved))))
  }

  /** A transitive mode compares with every version in scope, any other with the highest. */
  ghost predicate IsCompared(st: State, c: Candidate, mode: Mode, v: int) {
    InScope(st, c, v) && (mode in {BackwardTransitive, ForwardTransitive, FullTransitive} || forall w | InScope(st, c, w) :: w <= v)
  }

  ghost predicate ScopeResolves(st: State, c: Candidate) {
    forall v | InScope(st, c, v) :: ResolvesAt(st, SubjectVersion(c.request.subject, v))
  }

  /** Every version that is compared with resolves and is compatible. */
  ghost predicate ComparedAreCompatible(env: Env, st: State, c: Candidate, mode: Mode) {
    forall v | IsCompared(st, c, mode, v) ::
      var k := SubjectVersion(c.request.subject, v);
      ResolvesAt(st, k) && Compatible(env, c, mode, TextAt(st, k))
  }

  /** A subsequence of a rising sequence of versions, with the members that the group lets through. */
  lemma {:induction false} InGroupExactly(st: State, subject: string, group: string, value: string, versions: seq<int>)
    requires forall i, j | 0 <= i < j < |versions| :: versions[i] < versions[j]
    ensures var list := InGroup(st, subject, group, value, versions);
            && (forall v :: v in list <==> v in versions && Property(InfoOf(st, subject, v).metadata, group) == value)
            && (forall i, j | 0 <= i < j < |list| :: list[i] < list[j])
  {
    if versions != [] {
      var rest := versions[1..];
      assert forall i | 0 <= i < |rest| :: rest[i] == versions[i + 1];
      assert forall v :: v in versions <==> v == versions[0] || v in rest;
      InGroupExactly(st, subject, group, value, rest);
      var tail := InGroup(st, subject, group, value, rest);
      forall j | 0 <= j < |tail|
        ensures versions[0] < tail[j]
      {
        assert tail[j] in tail;
        assert tail[j] in rest;
      }
    }
  }

  lemma PropertyIsValue(m: Option<Metadata>, name: string)
    ensures Property(m, name) == ValueOf(m, name)
  {
  }

  /** The history is what is in scope, in order. */
  lemma HistoryIsScope(st: State, c: Candidate)
    ensures var list := Registry.History(st, c);
            && (forall v :: v in list <==> InScope(st, c, v))
            && (forall i, j | 0 <= i < j < |list| :: list[i] < list[j])
  {
    var subject := c.request.subject;
    var group := GroupOf(st, subject);
    AscendingSorts(LiveNumbers(st, subject));
    PropertyIsValue(c.request.metadata, group);
    if group != "" {
      InGroupExactly(st, subject, group, Property(c.request.metadata, group), LiveVersions(st, subject));
      forall v | IsLive(st, SubjectVersion(subject, v))
        ensures Property(InfoOf(st, subject, v).metadata, group) == ValueOf(st.versions[SubjectVersion(subject, v)].metadata, group)
      {
        PropertyIsValue(InfoOf(st, subject, v).metadata, group);
      }
    }
  }

  lemma PairIsCompatible(env: Env, c: Candidate, mode: Mode, earlier: SchemaWithRefs)
    ensures Compatible(env, c, mode, earlier) <==>
            c.schemaType in env.checkers &&
            PairAccepted(env.checkers[c.schemaType], mode, SchemaWithRefs(c.schema, c.resolved), earlier)
  {
  }

  lemma ComparedAtIndex(st: State, c: Candidate, mode: Mode, i: nat)
    requires i < |Registry.History(st, c)|
    ensures IsCompared(st, c, mode, Registry.History(st, c)[i]) <==> mode.IsTransitive() || i == |Registry.History(st, c)| - 1
  {
    HistoryIsScope(st, c);
    var list := Registry.History(st, c);
    assert list[i] in list;
    if i == |list| - 1 {
      forall w | InScope(st, c, w)
        ensures w <= list[i]
      {
        assert w in list;
      }
    } else {
      assert list[|list| - 1] in list;
    }
  }

  /** The gate finds the history broken, or the text incompatible, or neither. */
  ghost predicate GateAnswer(env: Env, st: State, c: Candidate, mode: Mode, answer: Option<Rejection>) {
    if mode == Nothing then answer == None
    else if !ScopeResolves(st, c) then answer == Some(BrokenHistory)
    else if !ComparedAreCompatible(env, st, c, mode) then answer == Some(Incompatible)
    else answer == None
  }

  lemma FormIsText(st: State, k: SubjectVersion)
    requires IsLive(st, k)
    ensures StoredForm(st, k) == if ResolvesAt(st, k) then Some(TextAt(st, k)) else None
  {
  }

  /** The forms that the gate compares with, in the order of the history. */
  ghost predicate FormsOf(st: State, c: Candidate, existing: seq<SchemaWithRefs>) {
    var list := Registry.History(st, c);
    |existing| == |list| && forall i | 0 <= i < |list| ::
      var k := SubjectVersion(c.request.subject, list[i]);
      IsLive(st, k) && ResolvesAt(st, k) && existing[i] == TextAt(st, k)
  }

  ghost predicate CompatibleFrom(env: Env, c: Candidate, mode: Mode, existing: seq<SchemaWithRefs>, first: int)
    requires 0 <= first
  {
    forall i | first <= i < |existing| :: Compatible(env, c, mode, existing[i])
  }

  /** The first of the forms that the mode compares with. */
  function FirstCompared(mode: Mode, existing: seq<SchemaWithRefs>): nat {
    if mode.IsTransitive() || existing == [] then 0 else |existing| - 1
  }

  lemma CheckedForms(env: Env, c: Candidate, mode: Mode, existing: seq<SchemaWithRefs>)
    requires mode != Nothing
    ensures CheckMessages(env.checkers, mode, c.schemaType, SchemaWithRefs(c.schema, c.resolved), existing) == [] <==>
            CompatibleFrom(env, c, mode, existing, FirstCompared(mode, existing))
  {
    CheckAccepts(env.checkers, mode, c.schemaType, SchemaWithRefs(c.schema, c.resolved), existing);
    forall i: nat | i < |existing|
      ensures Compatible(env, c, mode, existing[i]) <==>
              c.schemaType in env.checkers && PairAccepted(env.checkers[c.schemaType], mode, SchemaWithRefs(c.schema, c.resolved), existing[i])
    {
      PairIsCompatible(env, c, mode, existing[i]);
    }
    if existing != [] && CompatibleFrom(env, c, mode, existing, FirstCompared(mode, existing)) {
      assert Compatible(env, c, mode, existing[|existing| - 1]);
    }
  }

  lemma ComparedForms(env: Env, st: State, c: Candidate, mode: Mode, existing: seq<SchemaWithRefs>)
    requires |existing| == |Registry.History(st, c)|
    ensures CompatibleFrom(env, c, mode, existing, FirstCompared(mode, existing)) <==>
            forall i | 0 <= i < |existing| && IsCompared(st, c, mode, Registry.History(st, c)[i]) :: Compatible(env, c, mode, existing[i])
  {
    forall i: nat | i < |existing|
      ensures IsCompared(st, c, mode, Registry.History(st, c)[i]) <==> FirstCompared(mode, existing) <= i
    {
      ComparedAtIndex(st, c, mode, i);
    }
  }

  lemma VerdictExactly(env: Env, st: State, c: Candidate, mode: Mode, existing: seq<SchemaWithRefs>)
    requires mode != Nothing && FormsOf(st, c, existing)
    ensures CheckMessages(env.checkers, mode, c.schemaType, SchemaWithRefs(c.schema, c.resolved), existing) == [] <==>
            ComparedAreCompatible(env, st, c, mode)
  {
    CheckedForms(env, c, mode, existing);
    ComparedForms(env, st, c, mode, existing);
    ComparedByIndex(env, st, c, mode, existing);
  }

  lemma ComparedByIndex(env: Env, st: State, c: Candidate, mode: Mode, existing: seq<SchemaWithRefs>)
    requires FormsOf(st, c, existing)
    ensures ComparedAreCompatible(env, st, c, mode) <==>
            forall i | 0 <= i < |existing| && IsCompared(st, c, mode, Registry.History(st, c)[i]) :: Compatible(env, c, mode, existing[i])
  {
    var list := Registry.History(st, c);
    HistoryIsScope(st, c);
    forall i | 0 <= i < |list|
      ensures list[i] in list
    {
    }
    if forall i | 0 <= i < |existing| && IsCompared(st, c, mode, list[i]) :: Compatible(env, c, mode, existing[i]) {
      forall v | IsCompared(st, c, mode, v)
        ensures ResolvesAt(st, SubjectVersion(c.request.subject, v))
        ensures Compatible(env, c, mode, TextAt(st, SubjectVersion(c.request.subject, v)))
      {
        assert v in list;
        var i :| 0 <= i < |list| && list[i] == v;
        assert Compatible(env, c, mode, existing[i]);
      }
    }
  }

  lemma BrokenExactly(st: State, c: Candidate)
    ensures (forall v | v in Registry.History(st, c) :: IsLive(st, SubjectVersion(c.request.subject, v)))
    ensures WithRefs(st, c.request.subject, Registry.History(st, c)).Some? <==> ScopeResolves(st, c)
    ensures ScopeResolves(st, c) ==> FormsOf(st, c, WithRefs(st, c.request.subject, Registry.History(st, c)).value)
  {
    var list := Registry.History(st, c);
    HistoryIsScope(st, c);
    WithRefsExact(st, c.request.subject, list);
    forall v | v in list
      ensures StoredForm(st, SubjectVersion(c.request.subject, v)).Some? <==> ResolvesAt(st, SubjectVersion(c.request.subject, v))
    {
      FormIsText(st, SubjectVersion(c.request.subject, v));
    }
    if ScopeResolves(st, c) {
      forall i | 0 <= i < |list|
        ensures ResolvesAt(st, SubjectVersion(c.request.subject, list[i]))
        ensures WithRefs(st, c.request.subject, list).value[i] == TextAt(st, SubjectVersion(c.request.subject, list[i]))
      {
        assert list[i] in list;
        FormIsText(st, SubjectVersion(c.request.subject, list[i]));
      }
    }
  }

  lemma GateExactly(env: Env, st: State, c: Candidate)
    ensures GateAnswer(env, st, c, EffectiveConfig(env, st, c.request.subject).level, CompatibilityGate(env, st, c))
  {
    var mode, list := EffectiveConfig(env, st, c.request.subject).level, Registry.History(st, c);
    HistoryIsScope(st, c);
    BrokenExactly(st, c);
    if mode != Nothing && list != [] && ScopeResolves(st, c) {
      VerdictExactly(env, st, c, mode, WithRefs(st, c.request.subject, list).value);
    }
  }

  // ----- registering: reserved fields

  ghost predicate HighestLive(st: State, subject: string, v: int) {
    IsLive(st, SubjectVersion(subject, v)) && forall w | IsLive(st, SubjectVersion(subject, w)) :: w <= v
  }

  lemma LatestIsHighest(st: State, subject: string)
    ensures match Latest(st, subject)
            case Some(v) => HighestLive(st, subject, v)
            case None => forall v :: !IsLive(st, SubjectVersion(subject, v))
  {
    var live := LiveVersions(st, subject);
    AscendingSorts(LiveNumbers(st, subject));
    forall v
      ensures IsLive(st, SubjectVersion(subject, v)) <==> v in live
    {
    }
    if live != [] {
      assert live[|live| - 1] in live;
    }
  }

  /** The names in the reserved-fields property. */
  function ReservedNames(env: Env, m: Option<Metadata>): set<string> {
    match PropertyOf(m, "confluent:reserved")
    case Some(text) => if text == "" then {} else env.reservedNames(text)
    case None => {}
  }

  /** No reserved name is a field, and what the latest version reserves is reserved. */
  ghost predicate ReservedRespected(env: Env, st: State, c: Candidate) {
    && ReservedNames(env, c.request.metadata) !! c.parsed.fields
    && forall v | HighestLive(st, c.request.subject, v) ::
         ReservedNames(env, st.versions[SubjectVersion(c.request.subject, v)].metadata) <= ReservedNames(env, c.request.metadata)
  }

  lemma ReservedExactly(env: Env, st: State, c: Candidate)
    ensures ReservedOk(env, st, c) <==> ReservedRespected(env, st, c)
  {
    LatestIsHighest(st, c.request.subject);
    var last := Latest(st, c.request.subject);
    if last.Some? {
      assert forall v | HighestLive(st, c.request.subject, v) :: v == last.value;
    }
  }

  // ----- registering: the gates, on the whole operation

  /** A request that is not recognised is refused by the gates exactly as stated, in this order, and otherwise goes on to be stored. */
  lemma RegisterGated(env: Env, st: State, req: Request, pick: int, pick2: int)
    requires Prepare(env, st, req).Ready?
    requires var c := Prepare(env, st, req).candidate;
             !SameAs(env, st, c, pick) && (HasFingerprint(st, req.subject, c.fingerprint, pick) || forall v :: !SameAs(env, st, c, v))
    ensures var c, mode := Prepare(env, st, req).candidate, EffectiveConfig(env, st, req.subject).level;
            Register(env, st, req, pick, pick2) ==
            if mode != Nothing && !ScopeResolves(st, c) then (st, Rejected(BrokenHistory))
            else if mode != Nothing && !ComparedAreCompatible(env, st, c, mode) then (st, Rejected(Incompatible))
            else if ValidateFieldsEnabled(st, req.subject) && !ReservedRespected(env, st, c) then (st, Rejected(ReservedConflict))
            else StoreCandidate(env, st, c, pick2)
  {
    var c := Prepare(env, st, req).candidate;
    assert c.request == req;
    RegisterGoesOn(env, st, req, pick, pick2);
    GateExactly(env, st, c);
    ReservedExactly(env, st, c);
  }

  /** What was registered is compatible with all that the mode compares it with, whatever the mode and with or without a group. */
  lemma RegisteredIsCompatible(env: Env, st: State, req: Request, pick: int, pick2: int)
    requires Register(env, st, req, pick, pick2).1.Registered?
    ensures var mode := EffectiveConfig(env, st, req.subject).level;
            var c := Prepare(env, st, req).candidate;
            mode == Nothing || (ScopeResolves(st, c) && ComparedAreCompatible(env, st, c, mode))
  {
    RegisterStored(env, st, req, pick, pick2);
    GateExactly(env, st, Prepare(env, st, req).candidate);
  }

  /** Without a group: with every live version if the mode is transitive, and with the highest-numbered one otherwise. */
  lemma RegisteredIsCompatibleUngrouped(env: Env, st: State, req: Request, pick: int, pick2: int, v: int)
    requires Register(env, st, req, pick, pick2).1.Registered? && GroupOf(st, req.subject) == ""
    requires EffectiveConfig(env, st, req.subject).level != Nothing && IsLive(st, SubjectVersion(req.subject, v))
    ensures var k, mode, c := SubjectVersion(req.subject, v), EffectiveConfig(env, st, req.subject).level, Prepare(env, st, req).candidate;
            && ResolvesAt(st, k)
            && (mode in {BackwardTransitive, ForwardTransitive, FullTransitive} || HighestLive(st, req.subject, v) ==>
                  Compatible(env, c, mode, TextAt(st, k)))
  {
    var c, mode := Prepare(env, st, req).candidate, EffectiveConfig(env, st, req.subject).level;
    RegisterStored(env, st, req, pick, pick2);
    RegisteredIsCompatible(env, st, req, pick, pick2);
    assert InScope(st, c, v);
    if HighestLive(st, req.subject, v) {
      assert IsCompared(st, c, mode, v);
    }
  }

  /** A request is refused as incompatible only if some version that it is compared with is not compatible, or there is no checker. */
  lemma IncompatibleMeans(env: Env, st: State, req: Request, pick: int, pick2: int) returns (v: int)
    requires Register(env, st, req, pick, pick2).1 == Rejected(Incompatible)
    ensures var c, mode := Prepare(env, st, req).candidate, EffectiveConfig(env, st, req.subject).level;
            var k := SubjectVersion(req.subject, v);
            mode != Nothing && IsCompared(st, c, mode, v) && ResolvesAt(st, k) && !Compatible(env, c, mode, TextAt(st, k))
  {
    var c, mode := Prepare(env, st, req).candidate, EffectiveConfig(env, st, req.subject).level;
    assert c.request == req && CompatibilityGate(env, st, c) == Some(Incompatible);
    GateExactly(env, st, c);
    v :| IsCompared(st, c, mode, v) &&
         !(ResolvesAt(st, SubjectVersion(req.subject, v)) && Compatible(env, c, mode, TextAt(st, SubjectVersion(req.subject, v))));
    assert InScope(st, c, v);
  }

  // ----- registering: what is stored

  function SensitiveOf(m: Option<Metadata>): set<string> {
    if m.Some? then Elements(Items(m.value.sensitive)) else {}
  }

  /** The override decides a property or tag, else the request or what it inherits, else the default; the control property goes. */
  ghost predicate MetadataLayered(l: Layers, specific: Option<Metadata>, m: Option<Metadata>) {
    && (forall name | name != "confluent:version" :: PropertyOf(m, name) ==
          OrElse(PropertyOf(l.overrideMetadata, name), OrElse(PropertyOf(specific, name), PropertyOf(l.defaultMetadata, name))))
    && PropertyOf(m, "confluent:version") == None
    && (forall name :: TagOf(m, name) ==
          OrElse(TagOf(l.overrideMetadata, name), OrElse(TagOf(specific, name), TagOf(l.defaultMetadata, name))))
    && SensitiveOf(m) == SensitiveOf(l.defaultMetadata) + SensitiveOf(specific) + SensitiveOf(l.overrideMetadata)
  }

  ghost predicate RuleSetLayered(l: Layers, specific: Option<RuleSet>, r: Option<RuleSet>) {
    forall name ::
      && DomainRule(r, name) ==
         OrElse(DomainRule(l.overrideRuleSet, name), OrElse(DomainRule(specific, name), DomainRule(l.defaultRuleSet, name)))
      && MigrationRule(r, name) ==
         OrElse(MigrationRule(l.overrideRuleSet, name), OrElse(MigrationRule(specific, name), MigrationRule(l.defaultRuleSet, name)))
      && EncodingRule(r, name) ==
         OrElse(EncodingRule(l.overrideRuleSet, name), OrElse(EncodingRule(specific, name), EncodingRule(l.defaultRuleSet, name)))
  }

  lemma SensitiveMerged(a: Option<Metadata>, b: Option<Metadata>)
    ensures SensitiveOf(MergedMetadata(a, b)) == SensitiveOf(a) + SensitiveOf(b)
  {
    if a.Some? && b.Some? {
      var (x, y) := (Items(a.value.sensitive), Items(b.value.sensitive));
      ItemsOfMerged(a.value.sensitive, b.value.sensitive);
      DistinctHolds(x + y);
      assert Elements(Metadatas.Distinct(x + y)) == Elements(x) + Elements(y);
    }
  }

  lemma LayeredExactly(l: Layers, request: Option<Metadata>, previous: Option<Metadata>)
    ensures MetadataLayered(l, if request == None then previous else request,
              StripConfluentVersion(LayeredMetadata(l, request, previous)))
  {
    var specific := if request == None then previous else request;
    var merged := LayeredMetadata(l, request, previous);
    var m := StripConfluentVersion(merged);
    SensitiveMerged(l.defaultMetadata, specific);
    SensitiveMerged(MergedMetadata(l.defaultMetadata, specific), l.overrideMetadata);
    assert SensitiveOf(m) == SensitiveOf(merged);
    forall name
      ensures PropertyOf(m, name) == (if name == "confluent:version" then None else PropertyOf(merged, name))
      ensures TagOf(m, name) == TagOf(merged, name)
    {
      UncontrolledIs(merged, name);
    }
    forall name
      ensures PropertyOf(merged, name) ==
              OrElse(PropertyOf(l.overrideMetadata, name), OrElse(PropertyOf(specific, name), PropertyOf(l.defaultMetadata, name)))
      ensures TagOf(merged, name) ==
              OrElse(TagOf(l.overrideMetadata, name), OrElse(TagOf(specific, name), TagOf(l.defaultMetadata, name)))
    {
      LayersDecide(l, request, previous, name);
    }
  }

  lemma RulesLayeredExactly(l: Layers, request: Option<RuleSet>, previous: Option<RuleSet>)
    ensures RuleSetLayered(l, if request == None then previous else request, LayeredRuleSet(l, request, previous))
  {
    forall name {
      RuleLayersDecide(l, request, previous, name);
    }
  }

  /** The metadata and rule set of the highest live version, which a request without its own inherits. */
  ghost predicate Inherits(st: State, subject: string, metadata: Option<Metadata>, ruleSet: Option<RuleSet>) {
    && (forall v | HighestLive(st, subject, v) ::
          metadata == st.versions[SubjectVersion(subject, v)].metadata && ruleSet == st.versions[SubjectVersion(subject, v)].ruleSet)
    && ((forall v :: !HighestLive(st, subject, v)) ==> metadata == None && ruleSet == None)
  }

  lemma PreviousIsInherited(st: State, subject: string)
    ensures Inherits(st, subject, PreviousMetadata(st, subject), PreviousRuleSet(st, subject))
  {
    LatestIsHighest(st, subject);
    var last := Latest(st, subject);
    if last.Some? {
      assert forall v | HighestLive(st, subject, v) :: v == last.value;
    }
  }

  /** The record that is stored: the candidate's text and references, with metadata and rules from the three layers. */
  lemma RecordExactly(env: Env, st: State, c: Candidate)
    ensures var record, l := RecordFor(env, st, c), EffectiveConfig(env, st, c.request.subject).layers;
            && record.subject == c.request.subject && record.fingerprint == c.fingerprint
            && ContentFrom(record) == Content(c.schemaType, c.schema, c.request.references, c.fingerprint)
            && exists metadata, ruleSet :: Inherits(st, c.request.subject, metadata, ruleSet)
                 && MetadataLayered(l, if c.request.metadata == None then metadata else c.request.metadata, record.metadata)
                 && RuleSetLayered(l, if c.request.ruleSet == None then ruleSet else c.request.ruleSet, record.ruleSet)
  {
    var l := EffectiveConfig(env, st, c.request.subject).layers;
    PreviousIsInherited(st, c.request.subject);
    LayeredExactly(l, c.request.metadata, PreviousMetadata(st, c.request.subject));
    RulesLayeredExactly(l, c.request.ruleSet, PreviousRuleSet(st, c.request.subject));
  }

  /** A live version of the subject with the record's fingerprint, metadata and rule set. */
  predicate IsStoredAs(st: State, record: Record, v: int) {
    var k := SubjectVersion(record.subject, v);
    && IsLive(st, k) && ContentOf(st, k).fingerprint == record.fingerprint
    && SameOr(st.versions[k].metadata, record.metadata, Metadata(None, None, None))
    && SameRules(st.versions[k].ruleSet, record.ruleSet)
  }

  lemma IsStoredAsCompares(st: State, record: Record, v: int)
    ensures var info := InfoOf(st, record.subject, v);
            IsStoredAs(st, record, v) <==>
            HasFingerprint(st, record.subject, record.fingerprint, v)
            && SameMetadata(info.metadata, record.metadata) && SameRuleSet(info.ruleSet, record.ruleSet)
  {
  }

  /** The state with one more version, bound to the content of this ID. */
  ghost predicate OneVersionMore(st: State, after: State, k: SubjectVersion, info: VersionInfo) {
    && k !in st.versions && after.versions == st.versions[k := info]
    && after.settings == st.settings
    && (forall s | s != k.subject :: NextVersion(after, s) == NextVersion(st, s))
  }

  /** The content afterwards is what it was, and the record's under its ID if no content had its fingerprint. */
  ghost predicate ContentKept(st: State, after: State, record: Record, id: int, isNew: bool) {
    && after.schemas == (if isNew then st.schemas[id := ContentFrom(record)] else st.schemas)
    && after.fingerprints == st.fingerprints[record.fingerprint := id]
  }

  /**
    * A record is stored as the next version of its subject, under the ID of its fingerprint or else the next ID, unless a live
    * version of the subject is stored as the same already.
    */
  lemma CreateExactly(st: State, record: Record)
    requires WellFormed(st)
    ensures var (after, result) := AfterCreate(st, record);
            && (result == Err(SchemaExists) <==> exists v :: IsStoredAs(st, record, v))
            && (result.Err? ==> after == st && result == Err(SchemaExists))
            && (result.Ok? ==>
                  var id, n := result.value.id, result.value.version;
                  var known := record.fingerprint in st.fingerprints;
                  && n == NextVersion(st, record.subject) + 1 == NextVersion(after, record.subject)
                  && id == (if known then st.fingerprints[record.fingerprint] else st.nextID)
                  && after.nextID == (if known then st.nextID else Wrap64(st.nextID + 1))
                  && OneVersionMore(st, after, SubjectVersion(record.subject, n), VersionInfo(id, false, record.metadata, record.ruleSet))
                  && ContentKept(st, after, record, id, !known))
  {
    NextVersionIsNew(st, record.subject);
    if IsDuplicate(st, record) {
      var k :| k in Subject(st, record.subject) && IsLive(st, k) && ContentOf(st, k).fingerprint == record.fingerprint &&
               MetadataOrEmpty(st.versions[k].metadata) == MetadataOrEmpty(record.metadata) &&
               RuleSetOrEmpty(st.versions[k].ruleSet) == RuleSetOrEmpty(record.ruleSet);
      assert k == SubjectVersion(record.subject, k.version);
      assert IsStoredAs(st, record, k.version);
    }
    if exists v :: IsStoredAs(st, record, v) {
      var v :| IsStoredAs(st, record, v);
      assert SubjectVersion(record.subject, v) in Subject(st, record.subject);
    }
    if record.fingerprint in st.fingerprints {
      assert st.fingerprints[record.fingerprint := st.fingerprints[record.fingerprint]] == st.fingerprints;
    }
  }

  /** What passes the gates is stored as stated, unless a live version is stored as the same. */
  lemma StoreNew(env: Env, st: State, c: Candidate, pick: int)
    requires WellFormed(st) && forall v :: !IsStoredAs(st, RecordFor(env, st, c), v)
    ensures var (after, result) := AfterCreate(st, RecordFor(env, st, c));
            result.Ok? && StoreCandidate(env, st, c, pick) == (after, Registered(result.value))
  {
    CreateExactly(st, RecordFor(env, st, c));
  }

  /** Then nothing is stored; what the map yields decides whether a version is answered. */
  lemma StoredAlready(env: Env, st: State, c: Candidate, pick: int)
    requires WellFormed(st) && exists v :: IsStoredAs(st, RecordFor(env, st, c), v)
    ensures var record := RecordFor(env, st, c);
            var found := FindByFingerprint(st, record.subject, record.fingerprint, pick);
            StoreCandidate(env, st, c, pick) ==
            (st, if found.Some? && IsStoredAs(st, record, found.value) && VersionAgrees(env, c, found.value) then Existing(found.value)
                 else Rejected(StoreRefused(SchemaExists)))
  {
    var record := RecordFor(env, st, c);
    CreateExactly(st, record);
    FoundHasFingerprint(st, record.subject, record.fingerprint, pick);
    var found := FindByFingerprint(st, record.subject, record.fingerprint, pick);
    if found.Some? {
      IsStoredAsCompares(st, record, found.value);
    }
  }

  /** Such a version is answered if the map yields it and the request does not insist on another one. */
  lemma StoreAsBefore(env: Env, st: State, c: Candidate, pick: int)
    requires WellFormed(st) && exists v :: IsStoredAs(st, RecordFor(env, st, c), v)
    ensures var record, (after, outcome) := RecordFor(env, st, c), StoreCandidate(env, st, c, pick);
            && after == st && (outcome.Existing? || outcome == Rejected(StoreRefused(SchemaExists)))
            && (forall v | outcome == Existing(v) :: IsStoredAs(st, record, v) && forall n | Insists(env, c.request.metadata, n) :: n == v)
            && (IsStoredAs(st, record, pick) && (forall n | Insists(env, c.request.metadata, n) :: n == pick) ==> outcome == Existing(pick))
  {
    var record := RecordFor(env, st, c);
    StoredAlready(env, st, c, pick);
    FoundHasFingerprint(st, record.subject, record.fingerprint, pick);
    InsistsOnTarget(env, c.request.metadata);
  }

  lemma InsistsOnTarget(env: Env, m: Option<Metadata>)
    ensures var target := ConfluentVersionTarget(env, m);
            (target > 0 ==> Insists(env, m, target)) && forall n | Insists(env, m, n) :: n == target
  {
  }
}
