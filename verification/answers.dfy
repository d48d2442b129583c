/** A run after which the answer to a registration is not recognised: one text under two metadata is two versions. */
module RefusedAnswers {
  import opened Options
  import opened Fingerprints
  import opened Resolver
  import opened Metadatas
  import opened Compatibility
  import opened Storage
  import opened Registry
  import opened Integrity
  import opened History
  import opened Origins
  import opened FailingRuns
  import opened Versions
  import opened Responses
  import Text

  /** The context checks neither compatibility nor fields. */
  const UNCHECKED := Config0(Nothing, None)

  /** Under no check a text goes in again with other metadata. */
  lemma GoesInAgain(env: Env, st: State, req: Request, t: SchemaText)
    requires Under(st, UNCHECKED) && Submits(env, req, t)
    requires forall v | IsLive(st, SubjectVersion(req.subject, v)) :: st.versions[SubjectVersion(req.subject, v)].metadata == None
    requires req.metadata.Some? && StripConfluentVersion(req.metadata) == req.metadata
    requires MetadataOrEmpty(req.metadata) != MetadataOrEmpty(None)
    ensures var record := RecordFor(env, st, CandidateFor(req, t));
            && AfterCreate(st, record).1.Ok?
            && Register(env, st, req, 0, 0) == (AfterCreate(st, record).0, Registered(AfterCreate(st, record).1.value))
            && ContentFrom(record) == ContentIs(t) && record.metadata == req.metadata
  {
    var c := CandidateFor(req, t);
    Prepares(env, st, UNCHECKED, req, t);
    RecordIs(env, st, UNCHECKED, req, t);
    NeverRepeat(env, st, c);
    NotDuplicate(st, RecordFor(env, st, c));
  }

  /** The two versions of one text, the first without metadata. */
  ghost predicate TwoOfOne(st: State, t: SchemaText, k: SubjectVersion, n: SubjectVersion) {
    && k.subject == n.subject && 0 < k.version < n.version
    && k in LiveView(st) && n in LiveView(st)
    && LiveView(st)[k].content.fingerprint == LiveView(st)[n].content.fingerprint == Bare(t.parsed.fingerprint)
    && LiveView(st)[k].metadata == None && NoRuleSets(st)
  }

  ghost predicate NoRuleSets(st: State) {
    forall j | j in LiveView(st) :: LiveView(st)[j].ruleSet == None
  }

  lemma NothingInherited(st: State, subject: string)
    requires NoRuleSets(st)
    ensures PreviousRuleSet(st, subject) == None
  {
    AscendingSorts(LiveNumbers(st, subject));
    var versions := LiveVersions(st, subject);
    if versions != [] {
      assert versions[|versions| - 1] in versions;
      assert SubjectVersion(subject, versions[|versions| - 1]) in LiveView(st);
    }
  }

  /** The first registration shows one version without metadata and rule set. */
  lemma FirstShows(env: Env, st: State, req: Request, t: SchemaText) returns (k: SubjectVersion)
    requires Sound(st) && IdsBelow(st) && Under(st, UNCHECKED) && LiveView(st) == map[]
    requires Submits(env, req, t) && req.metadata == None
    ensures var after := Register(env, st, req, 0, 0).0;
            && k.subject == req.subject && OneOf(after, t, k)
  {
    var c := CandidateFor(req, t);
    NoneElsewhere(st, req.subject);
    NoneLive(st, req.subject);
    FirstRegistration(env, st, UNCHECKED, req, t);
    CreateShowsBound(env, st, c);
    BoundPrint(env, st, c);
    k := SubjectVersion(req.subject, AfterCreate(st, RecordFor(env, st, c)).1.value.version);
  }

  ghost predicate OneOf(st: State, t: SchemaText, k: SubjectVersion) {
    && LiveView(st).Keys == {k} && LiveView(st)[k].content.fingerprint == Bare(t.parsed.fingerprint)
    && LiveView(st)[k].metadata == None && NoRuleSets(st)
  }

  lemma BoundPrint(env: Env, st: State, c: Candidate)
    requires WellFormed(st)
    ensures BoundContent(env, st, c).fingerprint == c.fingerprint
  {
    assert c.fingerprint in st.fingerprints ==> FingerprintOk(st, c.fingerprint);
  }

  /** The second one adds a version of the same fingerprint. */
  lemma SecondShows(env: Env, st: State, req: Request, t: SchemaText, k: SubjectVersion) returns (n: SubjectVersion)
    requires Sound(st) && IdsBelow(st) && Under(st, UNCHECKED) && Submits(env, req, t) && req.metadata == TAGGED
    requires OneOf(st, t, k) && k.subject == req.subject
    ensures TwoOfOne(Register(env, st, req, 0, 0).0, t, k, n)
  {
    var c := CandidateFor(req, t);
    OnlyOneLive(st, t, k);
    NoRulesStored(env, st, req, t);
    GoesInAgain(env, st, req, t);
    CreateShowsBound(env, st, c);
    BoundPrint(env, st, c);
    n := SubjectVersion(req.subject, AfterCreate(st, RecordFor(env, st, c)).1.value.version);
    LivesAbove(st, k);
    BecomesTwo(st, AfterCreate(st, RecordFor(env, st, c)).0, t, k, n, NewVersion(env, st, c));
  }

  lemma LivesAbove(st: State, k: SubjectVersion)
    requires WellFormed(st) && IsLive(st, k)
    ensures k.version > 0
  {
    assert VersionOk(st, k);
  }

  lemma NoRulesStored(env: Env, st: State, req: Request, t: SchemaText)
    requires NoRuleSets(st) && Under(st, UNCHECKED) && Submits(env, req, t)
    ensures RecordFor(env, st, CandidateFor(req, t)).ruleSet == None
  {
    NothingInherited(st, req.subject);
  }

  lemma BecomesTwo(st: State, after: State, t: SchemaText, k: SubjectVersion, n: SubjectVersion, shown: Shown)
    requires OneOf(st, t, k) && k.subject == n.subject && 0 < k.version < n.version
    requires LiveView(after) == LiveView(st)[n := shown]
    requires shown.content.fingerprint == Bare(t.parsed.fingerprint) && shown.ruleSet == None
    ensures TwoOfOne(after, t, k, n)
  {
  }

  lemma OnlyOneLive(st: State, t: SchemaText, k: SubjectVersion)
    requires OneOf(st, t, k)
    ensures IsLive(st, k)
    ensures forall v | IsLive(st, SubjectVersion(k.subject, v)) :: st.versions[SubjectVersion(k.subject, v)].metadata == None
  {
    assert k in LiveView(st);
    assert forall v | IsLive(st, SubjectVersion(k.subject, v)) :: SubjectVersion(k.subject, v) in LiveView(st);
  }

  /** What the first registration answered. */
  function FirstAnswer(first: Request, k: SubjectVersion): Request {
    first.(metadata := Populated(None, k.version))
  }

  lemma FoundEither(st: State, t: SchemaText, k: SubjectVersion, n: SubjectVersion)
    requires TwoOfOne(st, t, k, n)
    ensures k.version in WithFingerprint(st, k.subject, Bare(t.parsed.fingerprint))
    ensures n.version in WithFingerprint(st, k.subject, Bare(t.parsed.fingerprint))
    ensures InfoOf(st, k.subject, k.version).metadata == None && InfoOf(st, k.subject, k.version).ruleSet == None
  {
    assert k == SubjectVersion(k.subject, k.version) && n == SubjectVersion(k.subject, n.version);
  }

  /** If the map yields the answered version, it is recognised. */
  lemma OwnIsFound(env: Env, st: State, first: Request, t: SchemaText, k: SubjectVersion, n: SubjectVersion)
    requires Under(st, UNCHECKED) && TwoOfOne(st, t, k, n) && Submits(env, first, t) && first.subject == k.subject
    requires env.atoi(Text.Dec(k.version)) == Some(k.version)
    ensures Register(env, st, FirstAnswer(first, k), k.version, k.version) == (st, Existing(k.version))
  {
    var req := FirstAnswer(first, k);
    Prepares(env, st, UNCHECKED, req, t);
    FoundEither(st, t, k, n);
    AnswerIsRecognised(env, st, CandidateFor(req, t), k.version, k.version);
  }

  /** If it yields the other version, the answer is refused because it is already there. */
  lemma OtherRefuses(env: Env, st: State, first: Request, t: SchemaText, k: SubjectVersion, n: SubjectVersion)
    requires Under(st, UNCHECKED) && TwoOfOne(st, t, k, n) && Submits(env, first, t) && first.subject == k.subject
    requires env.atoi(Text.Dec(k.version)) == Some(k.version)
    ensures Register(env, st, FirstAnswer(first, k), n.version, n.version) == (st, Rejected(StoreRefused(SchemaExists)))
  {
    var req := FirstAnswer(first, k);
    var c := CandidateFor(req, t);
    Prepares(env, st, UNCHECKED, req, t);
    FoundEither(st, t, k, n);
    AnswerIsRecognised(env, st, c, k.version, n.version);
    PopulatedTargets(env, None, k.version);
    AnswerIsDuplicate(env, st, first, t, k, n);
  }

  lemma AnswerIsDuplicate(env: Env, st: State, first: Request, t: SchemaText, k: SubjectVersion, n: SubjectVersion)
    requires Under(st, UNCHECKED) && TwoOfOne(st, t, k, n) && Submits(env, first, t) && first.subject == k.subject
    ensures IsDuplicate(st, RecordFor(env, st, CandidateFor(FirstAnswer(first, k), t)))
  {
    var record := RecordFor(env, st, CandidateFor(FirstAnswer(first, k), t));
    assert StripConfluentVersion(Populated(None, k.version)) == None by {
      assert map["confluent:version" := Text.Dec(k.version)] - {"confluent:version"} == map[];
    }
    assert record.metadata == None;
    NothingInherited(st, first.subject);
    assert k in Subject(st, first.subject) && IsLive(st, k);
  }

  /** Register a text, register it again with other metadata. */
  function TwiceRegistered(first: Request, second: Request): seq<Op> {
    Opening(UNCHECKED) + [RegisterOp(first, 0, 0)] + [RegisterOp(second, 0, 0)]
  }

  lemma TwiceIn(env: Env, t: SchemaText, first: Request, second: Request) returns (k: SubjectVersion, n: SubjectVersion)
    requires CleanEnv(env) && Submits(env, first, t) && Submits(env, second, t) && first.subject == second.subject
    requires first.metadata == None && second.metadata == TAGGED
    ensures var st := After(env, TwiceRegistered(first, second));
            Under(st, UNCHECKED) && TwoOfOne(st, t, k, n) && k.subject == first.subject
  {
    var ops, obs := Opening(UNCHECKED), first.subject;
    Opened(env, UNCHECKED, obs, Nothing);
    RunsAreSound(env, ops);
    var st := After(env, ops);
    NoneElsewhere(st, obs);
    var j := AddFirst(env, ops, obs, Nothing, UNCHECKED, t, first);
    k := FirstShows(env, st, first, t);
    Extend(env, ops, RegisterOp(first, 0, 0));
    var once := ops + [RegisterOp(first, 0, 0)];
    RunsAreSound(env, once);
    var st1 := After(env, once);
    n := SecondShows(env, st1, second, t, k);
    Extend(env, once, RegisterOp(second, 0, 0));
    StaysUnder(env, st1, second);
  }

  lemma StaysUnder(env: Env, st: State, req: Request)
    requires Under(st, UNCHECKED)
    ensures Under(Register(env, st, req, 0, 0).0, UNCHECKED)
  {
    RegisterEffect(env, st, req, 0, 0);
    if Register(env, st, req, 0, 0).1.Registered? {
      CreateKeepsSettings(st, RecordFor(env, st, Prepare(env, st, req).candidate));
    }
  }

  /**
    * One text under two metadata is two versions. What the first registration answered, sent back, is recognised if the map
    * yields the first version, and refused as already existing if it yields the second.
    */
  lemma AnswerIsRefused(env: Env, t: SchemaText, first: Request, second: Request) returns (k: SubjectVersion, n: SubjectVersion)
    requires CleanEnv(env) && Submits(env, first, t) && Submits(env, second, t) && first.subject == second.subject
    requires first.metadata == None && second.metadata == TAGGED
    requires forall v | v > 0 :: env.atoi(Text.Dec(v)) == Some(v)
    ensures var st := After(env, TwiceRegistered(first, second));
            && Register(env, st, FirstAnswer(first, k), k.version, k.version) == (st, Existing(k.version))
            && Register(env, st, FirstAnswer(first, k), n.version, n.version) == (st, Rejected(StoreRefused(SchemaExists)))
  {
    k, n := TwiceIn(env, t, first, second);
    OwnIsFound(env, After(env, TwiceRegistered(first, second)), first, t, k, n);
    OtherRefuses(env, After(env, TwiceRegistered(first, second)), first, t, k, n);
  }
}
