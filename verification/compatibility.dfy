/** Compatibility modes and the fold of pairwise checks over a version history. */
module Compatibility {
  import opened Resolver

  datatype Mode = Nothing | Backward | BackwardTransitive | Forward | ForwardTransitive | Full | FullTransitive
  {
    predicate IsTransitive() {
      BackwardTransitive? || ForwardTransitive? || FullTransitive?
    }

    predicate RequiresBackward() {
      Backward? || BackwardTransitive? || Full? || FullTransitive?
    }

    predicate RequiresForward() {
      Forward? || ForwardTransitive? || Full? || FullTransitive?
    }
  }

  /** A schema text with its resolved references. */
  datatype SchemaWithRefs = SchemaWithRefs(schema: string, references: seq<Resolved>)

  datatype Verdict = Verdict(compatible: bool, messages: seq<string>)

  /** A type-specific checker: can `reader` read what `writer` wrote? */
  type PairChecker = (SchemaWithRefs, SchemaWithRefs) -> Verdict

  datatype Direction = BackwardCheck | ForwardCheck

  /** A message of a result; `position` is the one-based index into the schemas that were checked. */
  datatype Message =
    | NoChecker(schemaType: string)
    | Failed(direction: Direction, position: nat, text: string)

  class Result {
    var isCompatible: bool
    var messages: seq<Message>

    constructor Compatible()
      ensures isCompatible && messages == []
    {
      isCompatible, messages := true, [];
    }

    constructor Incompatible(messages: seq<Message>)
      ensures !isCompatible && this.messages == messages
    {
      this.isCompatible, this.messages := false, messages;
    }

    method AddMessage(m: Message)
      modifies this
      ensures !isCompatible && messages == old(messages) + [m]
    {
      messages := messages + [m];
      isCompatible := false;
    }

    method Merge(other: Result)
      modifies this
      ensures isCompatible == (old(isCompatible) && old(other.isCompatible))
      ensures messages == old(messages) + if old(other.isCompatible) then [] else old(other.messages)
    {
      if !other.isCompatible {
        isCompatible := false;
        messages := messages + other.messages;
      }
    }
  }

  function Labelled(d: Direction, position: nat, texts: seq<string>): seq<Message> {
    if texts == [] then [] else Labelled(d, position, texts[..|texts| - 1]) + [Failed(d, position, texts[|texts| - 1])]
  }

  /** What one failed verdict contributes: nothing at all when it carries no message. */
  function Complaints(v: Verdict, d: Direction, position: nat): seq<Message> {
    if v.compatible then [] else Labelled(d, position, v.messages)
  }

  function PairReport(check: PairChecker, mode: Mode, candidate: SchemaWithRefs, existing: SchemaWithRefs, position: nat): seq<Message> {
    (if mode.RequiresBackward() then Complaints(check(candidate, existing), BackwardCheck, position) else []) +
    (if mode.RequiresForward() then Complaints(check(existing, candidate), ForwardCheck, position) else [])
  }

  function Report(check: PairChecker, mode: Mode, candidate: SchemaWithRefs, existing: seq<SchemaWithRefs>): seq<Message> {
    if existing == [] then []
    else
      var n := |existing| - 1;
      Report(check, mode, candidate, existing[..n]) + PairReport(check, mode, candidate, existing[n], n + 1)
  }

  lemma ReportSnoc(check: PairChecker, mode: Mode, candidate: SchemaWithRefs, existing: seq<SchemaWithRefs>, next: SchemaWithRefs)
    ensures Report(check, mode, candidate, existing + [next])
         == Report(check, mode, candidate, existing) + PairReport(check, mode, candidate, next, |existing| + 1)
  {
    assert (existing + [next])[..|existing|] == existing;
  }

  function Scope(mode: Mode, existing: seq<SchemaWithRefs>): seq<SchemaWithRefs>
    requires existing != []
  {
    if mode.IsTransitive() then existing else [existing[|existing| - 1]]
  }

  lemma ReportNext(check: PairChecker, mode: Mode, candidate: SchemaWithRefs, existing: seq<SchemaWithRefs>, i: nat)
    requires i < |existing|
    ensures Report(check, mode, candidate, existing[..i + 1])
         == Report(check, mode, candidate, existing[..i]) + PairReport(check, mode, candidate, existing[i], i + 1)
  {
    var before, next := existing[..i], existing[i];
    assert existing[..i + 1] == before + [next] && |before| == i;
    ReportSnoc(check, mode, candidate, before, next);
  }

  function CheckMessages(checkers: map<string, PairChecker>, mode: Mode, schemaType: string,
                         candidate: SchemaWithRefs, existing: seq<SchemaWithRefs>): seq<Message>
  {
    if mode == Nothing || existing == [] then []
    else if schemaType !in checkers then [NoChecker(schemaType)]
    else Report(checkers[schemaType], mode, candidate, Scope(mode, existing))
  }

  class Checker {
    var checkers: map<string, PairChecker>

    constructor ()
      ensures checkers == map[]
    {
      checkers := map[];
    }

    method Register(schemaType: string, checker: PairChecker)
      modifies this
      ensures checkers == old(checkers)[schemaType := checker]
    {
      checkers := checkers[schemaType := checker];
    }

    method AddAll(result: Result, d: Direction, position: nat, v: Verdict)
      modifies result
      ensures result.messages == old(result.messages) + Complaints(v, d, position)
      ensures result.isCompatible == (old(result.isCompatible) && Complaints(v, d, position) == [])
    {
      if !v.compatible {
        for i := 0 to |v.messages|
          invariant result.messages == old(result.messages) + Labelled(d, position, v.messages[..i])
          invariant result.isCompatible == (old(result.isCompatible) && i == 0)
        {
          assert v.messages[..i + 1][..i] == v.messages[..i];
          result.AddMessage(Failed(d, position, v.messages[i]));
        }
        assert v.messages[..|v.messages|] == v.messages;
      }
    }

    method CheckAgainst(result: Result, checker: PairChecker, mode: Mode, candidate: SchemaWithRefs, existing: SchemaWithRefs, position: nat)
      modifies result
      ensures result.messages == old(result.messages) + PairReport(checker, mode, candidate, existing, position)
      ensures result.isCompatible == (old(result.isCompatible) && PairReport(checker, mode, candidate, existing, position) == [])
    {
      if mode.RequiresBackward() {
        AddAll(result, BackwardCheck, position, checker(candidate, existing));
      }
      if mode.RequiresForward() {
        AddAll(result, ForwardCheck, position, checker(existing, candidate));
      }
    }

    method CheckAll(result: Result, checker: PairChecker, mode: Mode, candidate: SchemaWithRefs, existing: seq<SchemaWithRefs>)
      requires result.messages == [] && result.isCompatible
      modifies result
      ensures result.messages == Report(checker, mode, candidate, existing)
      ensures result.isCompatible <==> result.messages == []
    {
      for i := 0 to |existing|
        invariant result.messages == Report(checker, mode, candidate, existing[..i])
        invariant result.isCompatible <==> result.messages == []
      {
        ReportNext(checker, mode, candidate, existing, i);
        CheckAgainst(result, checker, mode, candidate, existing[i], i + 1);
      }
      assert existing[..|existing|] == existing;
    }

    /** The verdict is positive exactly when no message was added, and every message is accounted for. */
    method Check(mode: Mode, schemaType: string, candidate: SchemaWithRefs, existing: seq<SchemaWithRefs>) returns (result: Result)
      ensures fresh(result)
      ensures result.messages == CheckMessages(checkers, mode, schemaType, candidate, existing)
      ensures result.isCompatible <==> result.messages == []
    {
      if mode == Nothing || |existing| == 0 {
        result := new Result.Compatible();
        return;
      }
      if schemaType !in checkers {
        result := new Result.Incompatible([NoChecker(schemaType)]);
        return;
      }
      result := new Result.Compatible();
      var schemasToCheck := if mode.IsTransitive() then existing else [existing[|existing| - 1]];
      CheckAll(result, checkers[schemaType], mode, candidate, schemasToCheck);
    }
  }

  // ----- what a positive verdict means

  /** The verdict is positive or silent: it says nothing that Check would add. */
  predicate Silent(v: Verdict) {
    v.compatible || v.messages == []
  }

  predicate PairAccepted(check: PairChecker, mode: Mode, candidate: SchemaWithRefs, existing: SchemaWithRefs) {
    (mode.RequiresBackward() ==> Silent(check(candidate, existing))) &&
    (mode.RequiresForward() ==> Silent(check(existing, candidate)))
  }

  lemma PairReportEmpty(check: PairChecker, mode: Mode, candidate: SchemaWithRefs, existing: SchemaWithRefs, position: nat)
    ensures PairReport(check, mode, candidate, existing, position) == [] <==> PairAccepted(check, mode, candidate, existing)
  {
    var backward, forward := check(candidate, existing), check(existing, candidate);
    assert Complaints(backward, BackwardCheck, position) == [] <==> Silent(backward);
    assert Complaints(forward, ForwardCheck, position) == [] <==> Silent(forward);
  }

  ghost predicate AllAccepted(check: PairChecker, mode: Mode, candidate: SchemaWithRefs, existing: seq<SchemaWithRefs>) {
    forall i | 0 <= i < |existing| :: PairAccepted(check, mode, candidate, existing[i])
  }

  lemma LastAccepted(check: PairChecker, mode: Mode, candidate: SchemaWithRefs, existing: seq<SchemaWithRefs>)
    requires existing != []
    ensures AllAccepted(check, mode, candidate, existing) <==>
            AllAccepted(check, mode, candidate, existing[..|existing| - 1])
            && PairAccepted(check, mode, candidate, existing[|existing| - 1])
  {
    var n := |existing| - 1;
    assert forall i | 0 <= i < n :: existing[..n][i] == existing[i];
  }

  lemma {:induction false} ReportEmpty(check: PairChecker, mode: Mode, candidate: SchemaWithRefs, existing: seq<SchemaWithRefs>)
    ensures Report(check, mode, candidate, existing) == [] <==> AllAccepted(check, mode, candidate, existing)
  {
    if existing != [] {
      var n := |existing| - 1;
      ReportEmpty(check, mode, candidate, existing[..n]);
      PairReportEmpty(check, mode, candidate, existing[n], n + 1);
      LastAccepted(check, mode, candidate, existing);
    }
  }

  /** Check accepts exactly when the mode is NONE, or there is no history, or a checker exists and every
      required direction is accepted: against all earlier schemas for a transitive mode, and against
      the latest one otherwise. */
  lemma CheckAccepts(checkers: map<string, PairChecker>, mode: Mode, schemaType: string,
                     candidate: SchemaWithRefs, existing: seq<SchemaWithRefs>)
    ensures CheckMessages(checkers, mode, schemaType, candidate, existing) == [] <==>
            mode == Nothing || existing == [] ||
            (schemaType in checkers &&
             forall i | (if mode.IsTransitive() then 0 else |existing| - 1) <= i < |existing| ::
               PairAccepted(checkers[schemaType], mode, candidate, existing[i]))
  {
    if mode != Nothing && existing != [] && schemaType in checkers {
      ReportEmpty(checkers[schemaType], mode, candidate, Scope(mode, existing));
      if !mode.IsTransitive() {
        assert Scope(mode, existing)[0] == existing[|existing| - 1];
      }
    }
  }

  // ----- what the messages say

  /** The complaint of the checker in one direction: reading the earlier schema with the candidate, or the other way round. */
  predicate Complains(check: PairChecker, d: Direction, candidate: SchemaWithRefs, earlier: SchemaWithRefs, text: string) {
    var v := if d.BackwardCheck? then check(candidate, earlier) else check(earlier, candidate);
    !v.compatible && text in v.messages
  }

  predicate Asks(mode: Mode, d: Direction) {
    match d
    case BackwardCheck => mode in {Backward, BackwardTransitive, Full, FullTransitive}
    case ForwardCheck => mode in {Forward, ForwardTransitive, Full, FullTransitive}
  }

  lemma {:induction false} LabelledExactly(d: Direction, position: nat, texts: seq<string>, m: Message)
    ensures m in Labelled(d, position, texts) <==> m.Failed? && m.direction == d && m.position == position && m.text in texts
  {
    if texts != [] {
      var init, last := texts[..|texts| - 1], texts[|texts| - 1];
      assert texts == init + [last];
      LabelledExactly(d, position, init, m);
    }
  }

  lemma PairReportExactly(check: PairChecker, mode: Mode, candidate: SchemaWithRefs, earlier: SchemaWithRefs, position: nat, m: Message)
    ensures m in PairReport(check, mode, candidate, earlier, position) <==>
            m.Failed? && m.position == position && Asks(mode, m.direction) && Complains(check, m.direction, candidate, earlier, m.text)
  {
    LabelledExactly(BackwardCheck, position, check(candidate, earlier).messages, m);
    LabelledExactly(ForwardCheck, position, check(earlier, candidate).messages, m);
  }

  lemma {:induction false} ReportExactly(check: PairChecker, mode: Mode, candidate: SchemaWithRefs, existing: seq<SchemaWithRefs>, m: Message)
    ensures m in Report(check, mode, candidate, existing) <==>
            && m.Failed? && 1 <= m.position <= |existing| && Asks(mode, m.direction)
            && Complains(check, m.direction, candidate, existing[m.position - 1], m.text)
  {
    if existing != [] {
      var n := |existing| - 1;
      ReportExactly(check, mode, candidate, existing[..n], m);
      PairReportExactly(check, mode, candidate, existing[n], n + 1, m);
      assert m.Failed? && 1 <= m.position <= n ==> existing[..n][m.position - 1] == existing[m.position - 1];
    }
  }

  /**
    * The messages are exactly the complaints of the checker, in the directions that the mode asks for, each with the place of
    * the schema among those compared: all of them for a transitive mode, otherwise the last one alone.
    */
  lemma MessagesExactly(checkers: map<string, PairChecker>, mode: Mode, schemaType: string,
                        candidate: SchemaWithRefs, existing: seq<SchemaWithRefs>, m: Message)
    requires mode != Nothing && existing != []
    ensures var compared := if mode in {BackwardTransitive, ForwardTransitive, FullTransitive} then existing
                            else [existing[|existing| - 1]];
            m in CheckMessages(checkers, mode, schemaType, candidate, existing) <==>
            if schemaType !in checkers then m == NoChecker(schemaType)
            else
              && m.Failed? && 1 <= m.position <= |compared| && Asks(mode, m.direction)
              && Complains(checkers[schemaType], m.direction, candidate, compared[m.position - 1], m.text)
  {
    if schemaType in checkers {
      ReportExactly(checkers[schemaType], mode, candidate, Scope(mode, existing), m);
    }
  }
}
