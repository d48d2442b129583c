/** What a registration answers: the stored metadata with the version filled in, and what becomes of it when it is sent back. */
module Responses {
  import opened Options
  import opened Metadatas
  import opened Resolver
  import opened Storage
  import opened Registry
  import opened Versions
  import Text

  const CONTROL := "confluent:version"

  /** A copy of the metadata with the version in its properties; a record without a version keeps its metadata. */
  function Populated(m: Option<Metadata>, version: int): Option<Metadata> {
    if version <= 0 then m
    else
      var base := MetadataOrEmpty(m);
      Some(base.(properties := Some(OrEmpty(base.properties)[CONTROL := Text.Dec(version)])))
  }

  /** The metadata that the answer to a registration carries. */
  function Answered(st: State, subject: string, outcome: RegisterOutcome): Option<Metadata> {
    match outcome
    case Registered(stored) => Populated(InfoOf(st, subject, stored.version).metadata, stored.version)
    case Existing(version) => Populated(InfoOf(st, subject, version).metadata, version)
    case Rejected(_) => None
  }

  method AutoPopulateConfluentVersion(metadata: Option<Metadata>, version: int) returns (copy: Option<Metadata>)
    ensures copy == Populated(metadata, version)
  {
    if version <= 0 {
      return metadata;
    }
    var newProps: map<string, string> := map[];
    var base := Metadata(None, None, None);
    if metadata.Some? {
      base := metadata.value;
      if base.properties.Some? {
        newProps := CopyOf(base.properties.value);
      }
    }
    copy := Some(base.(properties := Some(newProps[CONTROL := Text.Dec(version)])));
  }

  lemma SomeKey(s: set<string>) returns (k: string)
    requires s != {}
    ensures k in s
  {
    k :| k in s;
  }

  method CopyOf(props: map<string, string>) returns (newProps: map<string, string>)
    ensures newProps == props
  {
    newProps := map[];
    var rest := props.Keys;
    while rest != {}
      invariant rest <= props.Keys && newProps.Keys == props.Keys - rest
      invariant forall k | k in newProps :: newProps[k] == props[k]
    {
      var k :| k in rest;
      newProps := newProps[k := props[k]];
      rest := rest - {k};
    }
  }

  // ----- sending the answer back

  /** Stored metadata as a registration leaves it: the control property is stripped. */
  predicate Stripped(m: Option<Metadata>) {
    m.Some? && m.value.properties.Some? ==> CONTROL !in m.value.properties.value
  }

  lemma StrippingStrips(m: Option<Metadata>)
    ensures Stripped(StripConfluentVersion(m))
  {
  }

  predicate EmptyProperties(m: Option<Metadata>) {
    m.Some? && m.value.properties == Some(map[])
  }

  /** Stripping undoes populating, up to absent metadata, exactly unless the stored properties are present but empty. */
  lemma PopulatedComesBack(m: Option<Metadata>, version: int)
    requires Stripped(m) && version > 0
    ensures SameMetadata(StripConfluentVersion(Populated(m, version)), m) <==> !EmptyProperties(m)
  {
    var base := MetadataOrEmpty(m);
    var props := OrEmpty(base.properties);
    assert CONTROL !in props;
    assert props[CONTROL := Text.Dec(version)] - {CONTROL} == props;
  }

  /** The answer asks for exactly the version it was given for. */
  lemma PopulatedTargets(env: Env, m: Option<Metadata>, version: int)
    requires version > 0 && env.atoi(Text.Dec(version)) == Some(version)
    ensures ConfluentVersionTarget(env, Populated(m, version)) == version
  {
  }

  /**
    * A request that carries a registration's answer, with the same rule set, is recognised as a repeat of exactly that
    * version, unless the stored properties are present but empty: then as a repeat of none.
    */
  lemma AnswerIsRecognised(env: Env, st: State, c: Candidate, version: int, found: int)
    requires version > 0 && env.atoi(Text.Dec(version)) == Some(version)
    requires var info := InfoOf(st, c.request.subject, version);
             Stripped(info.metadata) && c.request.metadata == Populated(info.metadata, version)
             && SameRuleSet(info.ruleSet, c.request.ruleSet)
    ensures IsRepeat(env, st, c, found) <==> found == version && !EmptyProperties(InfoOf(st, c.request.subject, version).metadata)
  {
    var m := InfoOf(st, c.request.subject, version).metadata;
    PopulatedTargets(env, m, version);
    PopulatedComesBack(m, version);
    StrippedStays(m);
  }

  lemma StrippedStays(m: Option<Metadata>)
    requires Stripped(m)
    ensures StripConfluentVersion(m) == m
  {
  }

  lemma ControlIsMerged(l: Layers, request: Option<Metadata>, previous: Option<Metadata>)
    requires PropertyOf(request, CONTROL).Some?
    ensures PropertyOf(LayeredMetadata(l, request, previous), CONTROL).Some?
  {
    LayersDecide(l, request, previous, CONTROL);
  }

  /** Stripping never leaves properties that are present but empty. */
  lemma StrippedNotEmpty(m: Option<Metadata>)
    requires PropertyOf(m, CONTROL).Some?
    ensures MetadataOrEmpty(StripConfluentVersion(m)).properties != Some(map[])
  {
  }

  /** A version with properties that are present but empty is not answered when its own answer comes back. */
  lemma EmptyIsNotAnswered(env: Env, st: State, req: Request, version: int)
    requires Prepare(env, st, req).Ready? && version > 0 && env.atoi(Text.Dec(version)) == Some(version)
    requires version in WithFingerprint(st, req.subject, Prepare(env, st, req).candidate.fingerprint)
    requires var info := InfoOf(st, req.subject, version);
             EmptyProperties(info.metadata) && req.metadata == Populated(info.metadata, version)
             && SameRuleSet(info.ruleSet, req.ruleSet)
    ensures Register(env, st, req, version, version).1 != Existing(version)
  {
    var c := Prepare(env, st, req).candidate;
    var l := EffectiveConfig(env, st, req.subject).layers;
    AnswerIsRecognised(env, st, c, version, version);
    ControlIsMerged(l, req.metadata, PreviousMetadata(st, req.subject));
    StrippedNotEmpty(LayeredMetadata(l, req.metadata, PreviousMetadata(st, req.subject)));
    assert !SameMetadata(InfoOf(st, req.subject, version).metadata, RecordFor(env, st, c).metadata);
  }

  /**
    * Sending back what a registration answered finds the same version and stores nothing, whichever versions the map yields,
    * if and only if no other live version has the fingerprint and the stored properties are not present but empty.
    */
  lemma AnswerComesBack(env: Env, st: State, req: Request, version: int)
    requires Prepare(env, st, req).Ready? && version > 0 && env.atoi(Text.Dec(version)) == Some(version)
    requires version in WithFingerprint(st, req.subject, Prepare(env, st, req).candidate.fingerprint)
    requires var info := InfoOf(st, req.subject, version);
             Stripped(info.metadata) && req.metadata == Populated(info.metadata, version)
             && SameRuleSet(info.ruleSet, req.ruleSet)
    ensures (forall pick, pick2 :: Register(env, st, req, pick, pick2) == (st, Existing(version))) <==>
            && WithFingerprint(st, req.subject, Prepare(env, st, req).candidate.fingerprint) == {version}
            && !EmptyProperties(InfoOf(st, req.subject, version).metadata)
  {
    var c := Prepare(env, st, req).candidate;
    var found := WithFingerprint(st, req.subject, c.fingerprint);
    if found != {version} {
      var w := Another(found, version);
      if Register(env, st, req, w, w).1 == Existing(version) {
        AnswersFound(env, st, req, w, version);
      }
      assert Register(env, st, req, w, w) != (st, Existing(version));
    } else if EmptyProperties(InfoOf(st, req.subject, version).metadata) {
      EmptyIsNotAnswered(env, st, req, version);
      assert Register(env, st, req, version, version) != (st, Existing(version));
    } else {
      forall pick, pick2
        ensures Register(env, st, req, pick, pick2) == (st, Existing(version))
      {
        OnlyFound(st, req.subject, c.fingerprint, version, pick);
        AnswerIsRecognised(env, st, c, version, version);
      }
    }
  }

  /** Another live version with the fingerprint: if the map yields it, the answer is neither recognised nor answered with it. */
  lemma OtherIsFound(env: Env, st: State, req: Request, version: int, other: int)
    requires Prepare(env, st, req).Ready? && version > 0 && env.atoi(Text.Dec(version)) == Some(version) && other != version
    requires other in WithFingerprint(st, req.subject, Prepare(env, st, req).candidate.fingerprint)
    requires req.metadata == Populated(InfoOf(st, req.subject, version).metadata, version)
    ensures !Register(env, st, req, other, other).1.Existing?
  {
    PopulatedTargets(env, InfoOf(st, req.subject, version).metadata, version);
    if Register(env, st, req, other, other).1.Existing? {
      AnswersFound(env, st, req, other, Register(env, st, req, other, other).1.version);
    }
  }

  /**
    * The answer to a registration that is not refused carries what its version is stored with, and that version's number under
    * the control property; the answer to a refused one carries nothing.
    */
  lemma AnswerCarries(st: State, subject: string, outcome: RegisterOutcome, version: int)
    requires version > 0 && (outcome == Existing(version) || (outcome.Registered? && outcome.stored.version == version))
    requires SubjectVersion(subject, version) in st.versions
    ensures var stored, answer := st.versions[SubjectVersion(subject, version)].metadata, Answered(st, subject, outcome);
            && answer.Some? && PropertyOf(answer, CONTROL) == Some(Text.Dec(version))
            && (forall name | name != CONTROL :: PropertyOf(answer, name) == PropertyOf(stored, name))
            && answer.value.tags == MetadataOrEmpty(stored).tags && answer.value.sensitive == MetadataOrEmpty(stored).sensitive
  {
    var stored := st.versions[SubjectVersion(subject, version)].metadata;
    forall name | name != CONTROL
      ensures PropertyOf(Answered(st, subject, outcome), name) == PropertyOf(stored, name)
    {
      var props := OrEmpty(MetadataOrEmpty(stored).properties);
      assert name in props[CONTROL := Text.Dec(version)] <==> name in props;
    }
  }
}
