/** What the versions of a subject are to each other: no two alike, and a repeated registration adds none. */
module Versions {
  import opened Options
  import opened Fingerprints
  import opened Resolver
  import opened Metadatas
  import opened Storage
  import opened Registry
  import opened Integrity
  import opened History

  // ----- no two live versions are alike

  /** The same schema, by fingerprint, with the same metadata and rule set. */
  predicate Alike(a: Shown, b: Shown) {
    a.content.fingerprint == b.content.fingerprint && SameMetadata(a.metadata, b.metadata) && SameRuleSet(a.ruleSet, b.ruleSet)
  }

  ghost predicate AllDifferent(st: State, subject: string) {
    forall v, w | v < w && IsLive(st, SubjectVersion(subject, v)) && IsLive(st, SubjectVersion(subject, w)) ::
      !Alike(LiveView(st)[SubjectVersion(subject, v)], LiveView(st)[SubjectVersion(subject, w)])
  }

  /** Nothing is imported into the subject. */
  predicate NotImported(op: Op, subject: string) {
    AddsTo(op, subject) ==> op.RegisterOp?
  }

  lemma BoundFingerprint(env: Env, st: State, c: Candidate)
    requires WellFormed(st)
    ensures BoundContent(env, st, c).fingerprint == c.fingerprint
  {
    assert c.fingerprint in st.fingerprints ==> FingerprintOk(st, c.fingerprint);
  }

  /** A stored record is unlike every live version of its subject. */
  lemma StoredIsNew(env: Env, st: State, c: Candidate, v: int)
    requires WellFormed(st) && AfterCreate(st, RecordFor(env, st, c)).1.Ok?
    requires IsLive(st, SubjectVersion(c.request.subject, v))
    ensures !Alike(LiveView(st)[SubjectVersion(c.request.subject, v)], NewVersion(env, st, c))
  {
    BoundFingerprint(env, st, c);
    var k := SubjectVersion(c.request.subject, v);
    assert k in Subject(st, c.request.subject);
    assert !IsDuplicate(st, RecordFor(env, st, c));
  }

  lemma CreateKeepsDifferent(env: Env, st: State, c: Candidate)
    requires Sound(st) && IdsBelow(st) && Admitted(LiveView(st), RecordFor(env, st, c))
    requires AfterCreate(st, RecordFor(env, st, c)).1.Ok? && AllDifferent(st, c.request.subject)
    ensures AllDifferent(AfterCreate(st, RecordFor(env, st, c)).0, c.request.subject)
  {
    var (after, result) := AfterCreate(st, RecordFor(env, st, c));
    var subject, n := c.request.subject, result.value.version;
    CreateExtends(env, st, c);
    forall v, w | v < w && IsLive(after, SubjectVersion(subject, v)) && IsLive(after, SubjectVersion(subject, w))
      ensures !Alike(LiveView(after)[SubjectVersion(subject, v)], LiveView(after)[SubjectVersion(subject, w)])
    {
      assert v != n by {
        assert w != n ==> SubjectVersion(subject, w) in LiveView(after);
      }
      OldForm(env, st, after, c, n, v);
      if w == n {
        StoredIsNew(env, st, c, v);
      } else {
        OldForm(env, st, after, c, n, w);
      }
    }
  }

  lemma StepKeepsDifferent(env: Env, st: State, op: Op, subject: string)
    requires CleanEnv(env) && Plain(op) && Headroom(st, op) && Sound(st) && IdsBelow(st)
    requires NotImported(op, subject) && AllDifferent(st, subject)
    ensures AllDifferent(Step(env, st, op), subject)
  {
    var after := Step(env, st, op);
    if AddsTo(op, subject) {
      if Register(env, st, op.request, op.pick, op.pick2).1.Registered? {
        RegisterStored(env, st, op.request, op.pick, op.pick2);
        PreparedIsAdmitted(env, st, op.request);
        CreateKeepsDifferent(env, st, Prepare(env, st, op.request).candidate);
      } else {
        RegisterRefused(env, st, op.request, op.pick, op.pick2);
      }
    } else {
      StepIsSound(env, st, op);
      StepElsewhere(env, st, op, subject);
      forall v, w | v < w && IsLive(after, SubjectVersion(subject, v)) && IsLive(after, SubjectVersion(subject, w))
        ensures !Alike(LiveView(after)[SubjectVersion(subject, v)], LiveView(after)[SubjectVersion(subject, w)])
      {
        ElsewhereKeepsForms(st, after, subject, SubjectVersion(subject, v));
        ElsewhereKeepsForms(st, after, subject, SubjectVersion(subject, w));
      }
    }
  }

  ghost predicate NeverImported(ops: seq<Op>, subject: string) {
    forall i | 0 <= i < |ops| :: NotImported(ops[i], subject)
  }

  /** Over every run without imports into a subject, its live versions differ in schema, metadata or rule set. */
  lemma {:induction false} VersionsAreDifferent(env: Env, ops: seq<Op>, subject: string)
    requires CleanEnv(env) && Admissible(env, ops) && NeverImported(ops, subject)
    ensures AllDifferent(After(env, ops), subject)
  {
    if ops != [] {
      var n := |ops| - 1;
      PrefixAdmissible(env, ops);
      VersionsAreDifferent(env, ops[..n], subject);
      RunsAreSound(env, ops[..n]);
      StepKeepsDifferent(env, After(env, ops[..n]), ops[n], subject);
    }
  }

  // ----- registering the same request again

  /** What was resolved once resolves alike after anything has been stored. */
  lemma ResolvesAlike(env: Env, st: State, c: Candidate)
    requires Sound(st) && IdsBelow(st) && Admitted(LiveView(st), RecordFor(env, st, c))
    requires AfterCreate(st, RecordFor(env, st, c)).1.Ok?
    ensures var after := AfterCreate(st, RecordFor(env, st, c)).0;
            Resolve(LookupGraph(after), c.request.references) == Resolve(LookupGraph(st), c.request.references)
  {
    CreateExtends(env, st, c);
    LiveKeysClosed(st);
    ClosedResolves(LookupGraph(st), LiveView(st).Keys, c.request.references);
    ResolutionStable(st, AfterCreate(st, RecordFor(env, st, c)).0, c.request.references);
  }

  lemma PrepareReads(env: Env, st: State, after: State, req: Request)
    requires Resolve(LookupGraph(after), req.references) == Resolve(LookupGraph(st), req.references)
    requires after.settings == st.settings
    ensures Prepare(env, after, req) == Prepare(env, st, req)
  {
  }

  lemma CreateKeepsSettings(st: State, record: Record)
    ensures AfterCreate(st, record).0.settings == st.settings
  {
  }

  /** After storing a candidate, the same request prepares to the same candidate. */
  lemma PreparesAlike(env: Env, st: State, req: Request)
    requires CleanEnv(env) && PlainRefs(req.references) && Sound(st) && IdsBelow(st)
    requires Prepare(env, st, req).Ready? && Prepare(env, st, req).candidate.request == req
    requires AfterCreate(st, RecordFor(env, st, Prepare(env, st, req).candidate)).1.Ok?
    ensures var c := Prepare(env, st, req).candidate;
            Prepare(env, AfterCreate(st, RecordFor(env, st, c)).0, req) == Prepare(env, st, req)
  {
    var c := Prepare(env, st, req).candidate;
    PreparedIsAdmitted(env, st, req);
    ResolvesAlike(env, st, c);
    CreateKeepsSettings(st, RecordFor(env, st, c));
    PrepareReads(env, st, AfterCreate(st, RecordFor(env, st, c)).0, req);
  }

  /** The record that a repetition would store carries the same metadata and rule set as the stored one. */
  predicate MergesAlike(env: Env, st: State, c: Candidate) {
    var first := RecordFor(env, st, c);
    var second := RecordFor(env, AfterCreate(st, first).0, c);
    SameMetadata(first.metadata, second.metadata) && SameRuleSet(first.ruleSet, second.ruleSet)
  }

  lemma RepeatIsDuplicate(env: Env, st: State, c: Candidate)
    requires Sound(st) && IdsBelow(st) && Admitted(LiveView(st), RecordFor(env, st, c))
    requires AfterCreate(st, RecordFor(env, st, c)).1.Ok? && MergesAlike(env, st, c)
    ensures var after := AfterCreate(st, RecordFor(env, st, c)).0;
            IsDuplicate(after, RecordFor(env, after, c))
  {
    var (after, result) := AfterCreate(st, RecordFor(env, st, c));
    var k := SubjectVersion(c.request.subject, result.value.version);
    CreateExtends(env, st, c);
    BoundFingerprint(env, st, c);
    assert LiveView(after)[k] == NewVersion(env, st, c);
    assert k in Subject(after, c.request.subject);
  }

  /** Registering the same request again stores nothing, whichever existing versions are found on the way. */
  lemma RepeatStoresNothing(env: Env, st: State, req: Request, pick: int, pick2: int, pick3: int, pick4: int)
    requires CleanEnv(env) && PlainRefs(req.references) && Sound(st) && IdsBelow(st)
    requires Register(env, st, req, pick, pick2).1.Registered? && MergesAlike(env, st, Prepare(env, st, req).candidate)
    ensures var after := Register(env, st, req, pick, pick2).0;
            Register(env, after, req, pick3, pick4).0 == after && !Register(env, after, req, pick3, pick4).1.Registered?
  {
    RegisterStored(env, st, req, pick, pick2);
    var after := Register(env, st, req, pick, pick2).0;
    PreparedIsAdmitted(env, st, req);
    PreparesAlike(env, st, req);
    RepeatIsDuplicate(env, st, Prepare(env, st, req).candidate);
    if Register(env, after, req, pick3, pick4).1.Registered? {
      RegisterStored(env, after, req, pick3, pick4);
    }
    RegisterRefused(env, after, req, pick3, pick4);
  }

  /** The stored version is the latest, from which the next request inherits. */
  lemma StoredIsLatest(env: Env, st: State, c: Candidate)
    requires Sound(st) && IdsBelow(st) && Admitted(LiveView(st), RecordFor(env, st, c))
    requires AfterCreate(st, RecordFor(env, st, c)).1.Ok?
    ensures var first := RecordFor(env, st, c);
            var after := AfterCreate(st, first).0;
            && PreviousMetadata(after, c.request.subject) == first.metadata
            && PreviousRuleSet(after, c.request.subject) == first.ruleSet
  {
    var (after, result) := AfterCreate(st, RecordFor(env, st, c));
    var subject, n := c.request.subject, result.value.version;
    CreateExtends(env, st, c);
    var last := LatestIsLast(after, subject, n);
    if last != n {
      OldForm(env, st, after, c, n, last);
    }
    assert LiveView(after)[SubjectVersion(subject, n)] == NewVersion(env, st, c);
  }

  lemma OnlyFound(st: State, subject: string, f: Fingerprint, version: int, pick: int)
    requires WithFingerprint(st, subject, f) == {version}
    ensures FindByFingerprint(st, subject, f, pick) == Some(version)
  {
    AscendingSorts({version});
    assert Ascending({version})[0] in Ascending({version});
  }

  lemma StoredIsFound(env: Env, st: State, c: Candidate)
    requires Sound(st) && IdsBelow(st) && Admitted(LiveView(st), RecordFor(env, st, c))
    requires AfterCreate(st, RecordFor(env, st, c)).1.Ok?
    ensures var (after, result) := AfterCreate(st, RecordFor(env, st, c));
            var n := result.value.version;
            && n in WithFingerprint(after, c.request.subject, c.fingerprint)
            && InfoOf(after, c.request.subject, n).metadata == RecordFor(env, st, c).metadata
            && InfoOf(after, c.request.subject, n).ruleSet == RecordFor(env, st, c).ruleSet
  {
    var (after, result) := AfterCreate(st, RecordFor(env, st, c));
    var k := SubjectVersion(c.request.subject, result.value.version);
    CreateExtends(env, st, c);
    BoundFingerprint(env, st, c);
    assert LiveView(after)[k] == NewVersion(env, st, c);
  }

  /** Storing it again is refused, and the stored version is answered if the request does not insist on another one. */
  lemma StoreAgain(env: Env, after: State, c: Candidate, n: int, q: int)
    requires FindByFingerprint(after, c.request.subject, c.fingerprint, q) == Some(n) && IsDuplicate(after, RecordFor(env, after, c))
    requires var (info, second) := (InfoOf(after, c.request.subject, n), RecordFor(env, after, c));
             SameMetadata(info.metadata, second.metadata) && SameRuleSet(info.ruleSet, second.ruleSet)
    ensures StoreCandidate(env, after, c, q).1 == Existing(n) <==> VersionAgrees(env, c, n)
  {
  }

  /** When the only version that can be found is the stored one: what decides the answer to a repetition. */
  lemma RepeatAtOnly(env: Env, after: State, req: Request, c: Candidate, n: int, p: int, q: int)
    requires Prepare(env, after, req) == Ready(c) && c.request == req
    requires WithFingerprint(after, req.subject, c.fingerprint) == {n} && IsDuplicate(after, RecordFor(env, after, c))
    requires var (info, second) := (InfoOf(after, req.subject, n), RecordFor(env, after, c));
             SameMetadata(info.metadata, second.metadata) && SameRuleSet(info.ruleSet, second.ruleSet)
    ensures Register(env, after, req, p, q).1 == Existing(n) <==>
            VersionAgrees(env, c, n) && (IsRepeat(env, after, c, n) || Gate(env, after, c) == None)
  {
    OnlyFound(after, req.subject, c.fingerprint, n, p);
    OnlyFound(after, req.subject, c.fingerprint, n, q);
    StoreAgain(env, after, c, n, q);
    FoundCases(env, after, req, c, n, p, q);
  }

  /** A registration that finds a version recognises it, or is refused by a gate, or is stored. */
  lemma FoundCases(env: Env, st: State, req: Request, c: Candidate, n: int, p: int, q: int)
    requires Prepare(env, st, req) == Ready(c) && FindByFingerprint(st, req.subject, c.fingerprint, p) == Some(n)
    ensures Register(env, st, req, p, q).1 ==
            if IsRepeat(env, st, c, n) then Existing(n)
            else if Gate(env, st, c).Some? then Rejected(Gate(env, st, c).value)
            else StoreCandidate(env, st, c, q).1
  {
  }

  /**
    * Registering the same request again answers the stored version, whichever versions are found on the way, if and only if
    * no other live version has its fingerprint, the request does not insist on another version, and it is either recognised
    * or passes the gate again.
    */
  lemma RepeatAnsweredExactly(env: Env, st: State, req: Request, pick: int, pick2: int)
    requires CleanEnv(env) && PlainRefs(req.references) && Sound(st) && IdsBelow(st)
    requires Register(env, st, req, pick, pick2).1.Registered? && MergesAlike(env, st, Prepare(env, st, req).candidate)
    ensures var c := Prepare(env, st, req).candidate;
            var (after, outcome) := Register(env, st, req, pick, pick2);
            var n := outcome.stored.version;
            (forall p, q :: Register(env, after, req, p, q).1 == Existing(n)) <==>
            && WithFingerprint(after, req.subject, c.fingerprint) == {n} && VersionAgrees(env, c, n)
            && (IsRepeat(env, after, c, n) || Gate(env, after, c) == None)
  {
    RegisterEffect(env, st, req, pick, pick2);
    RegisterStored(env, st, req, pick, pick2);
    var c := Prepare(env, st, req).candidate;
    var (after, outcome) := Register(env, st, req, pick, pick2);
    PreparedIsAdmitted(env, st, req);
    PreparesAlike(env, st, req);
    RepeatIsDuplicate(env, st, c);
    StoredIsFound(env, st, c);
    AnsweredExactly(env, after, req, c, outcome.stored.version);
  }

  lemma AnsweredExactly(env: Env, after: State, req: Request, c: Candidate, n: int)
    requires Prepare(env, after, req) == Ready(c) && c.request == req
    requires n in WithFingerprint(after, req.subject, c.fingerprint) && IsDuplicate(after, RecordFor(env, after, c))
    requires var (info, second) := (InfoOf(after, req.subject, n), RecordFor(env, after, c));
             SameMetadata(info.metadata, second.metadata) && SameRuleSet(info.ruleSet, second.ruleSet)
    ensures (forall p, q :: Register(env, after, req, p, q).1 == Existing(n)) <==>
            && WithFingerprint(after, req.subject, c.fingerprint) == {n} && VersionAgrees(env, c, n)
            && (IsRepeat(env, after, c, n) || Gate(env, after, c) == None)
  {
    var found := WithFingerprint(after, req.subject, c.fingerprint);
    if found == {n} {
      forall p, q
        ensures Register(env, after, req, p, q).1 == Existing(n) <==>
                VersionAgrees(env, c, n) && (IsRepeat(env, after, c, n) || Gate(env, after, c) == None)
      {
        RepeatAtOnly(env, after, req, c, n, p, q);
      }
      assert (forall p, q :: Register(env, after, req, p, q).1 == Existing(n)) ==> Register(env, after, req, n, n).1 == Existing(n);
    } else {
      var w := Another(found, n);
      if Register(env, after, req, w, w).1 == Existing(n) {
        AnswersFound(env, after, req, w, n);
      }
    }
  }

  lemma OnlyMember(s: set<int>, n: int)
    requires n in s && s - {n} == {}
    ensures s == {n}
  {
    assert forall x | x in s :: x == n || x in s - {n};
  }

  lemma Another(s: set<int>, n: int) returns (w: int)
    requires n in s && s != {n}
    ensures w in s && w != n
  {
    if s - {n} == {} {
      OnlyMember(s, n);
    }
    w := Member(s - {n});
  }
}
