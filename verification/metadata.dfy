/** Schema metadata and rule sets, and the layered merge of config defaults, request and config overrides. */
module Metadatas {
  import opened Options

  /** A nil map or slice is None. */
  datatype Metadata = Metadata(
    tags: Option<map<string, seq<string>>>,
    properties: Option<map<string, string>>,
    sensitive: Option<seq<string>>)

  /** A rule; `content` stands for every field besides the name. */
  datatype Rule = Rule(name: string, content: string)

  datatype RuleSet = RuleSet(migration: seq<Rule>, domain: seq<Rule>, encoding: seq<Rule>)

  // ----- rule lists

  /** The last rule with the given name: what a map filled in list order ends up holding. */
  function LastNamed(rules: seq<Rule>, name: string): Option<Rule> {
    if rules == [] then None
    else if rules[|rules| - 1].name == name then Some(rules[|rules| - 1])
    else LastNamed(rules[..|rules| - 1], name)
  }

  predicate HasName(rules: seq<Rule>, name: string) {
    LastNamed(rules, name).Some?
  }

  function Chosen(override: seq<Rule>, r: Rule): Rule {
    match LastNamed(override, r.name) case Some(o) => o case None => r
  }

  /** The base rules in order, each giving way to the last override of its name. */
  function Replaced(base: seq<Rule>, override: seq<Rule>): seq<Rule> {
    if base == [] then []
    else Replaced(base[..|base| - 1], override) + [Chosen(override, base[|base| - 1])]
  }

  /** The overrides in order whose names the base does not have. */
  function Added(base: seq<Rule>, override: seq<Rule>): seq<Rule> {
    if override == [] then []
    else
      var init, last := override[..|override| - 1], override[|override| - 1];
      Added(base, init) + if HasName(base, last.name) then [] else [last]
  }

  function MergedRules(base: seq<Rule>, override: seq<Rule>): seq<Rule> {
    Replaced(base, override) + Added(base, override)
  }

  lemma LastNamedSnoc(a: seq<Rule>, r: Rule, n: string)
    ensures LastNamed(a + [r], n) == if r.name == n then Some(r) else LastNamed(a, n)
  {
    assert (a + [r])[..|a|] == a;
  }

  lemma ReplacedSnoc(a: seq<Rule>, r: Rule, override: seq<Rule>)
    ensures Replaced(a + [r], override) == Replaced(a, override) + [Chosen(override, r)]
  {
    assert (a + [r])[..|a|] == a;
  }

  lemma AddedSnoc(base: seq<Rule>, a: seq<Rule>, r: Rule)
    ensures Added(base, a + [r]) == Added(base, a) + if HasName(base, r.name) then [] else [r]
  {
    assert (a + [r])[..|a|] == a;
  }

  /** The name found is the name asked for, and some rule has it exactly if one is found. */
  lemma {:induction false} LastNamedHolds(rules: seq<Rule>, n: string)
    ensures HasName(rules, n) <==> exists r | r in rules :: r.name == n
    ensures HasName(rules, n) ==> LastNamed(rules, n).value in rules && LastNamed(rules, n).value.name == n
  {
    if rules != [] {
      LastNamedHolds(rules[..|rules| - 1], n);
      assert rules == rules[..|rules| - 1] + [rules[|rules| - 1]];
    }
  }

  lemma {:induction false} ReplacedByNothing(base: seq<Rule>)
    ensures Replaced(base, []) == base
  {
    if base != [] {
      ReplacedByNothing(base[..|base| - 1]);
      assert base == base[..|base| - 1] + [base[|base| - 1]];
    }
  }

  lemma {:induction false} AddedToNothing(override: seq<Rule>)
    ensures Added([], override) == override
  {
    if override != [] {
      AddedToNothing(override[..|override| - 1]);
      assert override == override[..|override| - 1] + [override[|override| - 1]];
    }
  }

  lemma MergeRulesIdentity(a: seq<Rule>)
    ensures MergedRules([], a) == a == MergedRules(a, [])
  {
    AddedToNothing(a);
    ReplacedByNothing(a);
  }

  method IndexByName(rules: seq<Rule>) returns (index: map<string, Rule>)
    ensures forall n :: n in index <==> HasName(rules, n)
    ensures forall n | n in index :: LastNamed(rules, n) == Some(index[n])
  {
    index := map[];
    for i := 0 to |rules|
      invariant forall n :: n in index <==> HasName(rules[..i], n)
      invariant forall n | n in index :: LastNamed(rules[..i], n) == Some(index[n])
    {
      assert rules[..i + 1] == rules[..i] + [rules[i]];
      forall n
        ensures LastNamed(rules[..i + 1], n) == if rules[i].name == n then Some(rules[i]) else LastNamed(rules[..i], n)
      {
        LastNamedSnoc(rules[..i], rules[i], n);
      }
      index := index[rules[i].name := rules[i]];
    }
    assert rules[..|rules|] == rules;
  }

  method ReplaceRules(base: seq<Rule>, index: map<string, Rule>, ghost override: seq<Rule>)
    returns (result: seq<Rule>, seen: set<string>)
    requires forall n :: n in index <==> HasName(override, n)
    requires forall n | n in index :: LastNamed(override, n) == Some(index[n])
    ensures result == Replaced(base, override)
    ensures forall n :: n in seen <==> HasName(base, n) && n in index
  {
    result, seen := [], {};
    for i := 0 to |base|
      invariant result == Replaced(base[..i], override)
      invariant forall n :: n in seen <==> HasName(base[..i], n) && n in index
    {
      assert base[..i + 1] == base[..i] + [base[i]];
      ReplacedSnoc(base[..i], base[i], override);
      forall n
        ensures LastNamed(base[..i + 1], n) == if base[i].name == n then Some(base[i]) else LastNamed(base[..i], n)
      {
        LastNamedSnoc(base[..i], base[i], n);
      }
      if base[i].name in index {
        result := result + [index[base[i].name]];
        seen := seen + {base[i].name};
      } else {
        result := result + [base[i]];
      }
    }
    assert base[..|base|] == base;
  }

  method MergeRules(base: seq<Rule>, override: seq<Rule>) returns (result: seq<Rule>)
    ensures result == MergedRules(base, override)
  {
    if |base| == 0 {
      AddedToNothing(override);
      return override;
    }
    if |override| == 0 {
      ReplacedByNothing(base);
      return base;
    }
    var overrideMap := IndexByName(override);
    var seen;
    result, seen := ReplaceRules(base, overrideMap, override);
    for i := 0 to |override|
      invariant result == Replaced(base, override) + Added(base, override[..i])
    {
      assert override[..i + 1] == override[..i] + [override[i]];
      AddedSnoc(base, override[..i], override[i]);
      HasNameAt(override, i);
      if override[i].name !in seen {
        result := result + [override[i]];
      }
    }
    assert override[..|override|] == override;
  }

  lemma HasNameAt(rules: seq<Rule>, i: nat)
    requires i < |rules|
    ensures HasName(rules, rules[i].name)
  {
    LastNamedHolds(rules, rules[i].name);
  }

  lemma Associative<T>(a: seq<T>, b: seq<T>, c: seq<T>)
    ensures a + b + c == a + (b + c)
  {
  }

  lemma SplitLast<T>(a: seq<T>, b: seq<T>)
    requires b != []
    ensures a + b == a + b[..|b| - 1] + [b[|b| - 1]] && b == b[..|b| - 1] + [b[|b| - 1]]
  {
  }

  lemma {:induction false} AddedConcat(base: seq<Rule>, a: seq<Rule>, b: seq<Rule>)
    ensures Added(base, a + b) == Added(base, a) + Added(base, b)
  {
    if b == [] {
      assert a + b == a;
    } else {
      var init, last := b[..|b| - 1], b[|b| - 1];
      AddedConcat(base, a, init);
      SplitLast(a, b);
      AddedSnoc(base, a + init, last);
      AddedSnoc(base, init, last);
      Associative(Added(base, a), Added(base, init), if HasName(base, last.name) then [] else [last]);
    }
  }

  lemma {:induction false} ReplacedConcat(a: seq<Rule>, b: seq<Rule>, c: seq<Rule>)
    ensures Replaced(a + b, c) == Replaced(a, c) + Replaced(b, c)
  {
    if b == [] {
      assert a + b == a;
    } else {
      var init, last := b[..|b| - 1], b[|b| - 1];
      ReplacedConcat(a, init, c);
      SplitLast(a, b);
      ReplacedSnoc(a + init, last, c);
      ReplacedSnoc(init, last, c);
      Associative(Replaced(a, c), Replaced(init, c), [Chosen(c, last)]);
    }
  }

  lemma {:induction false} LastNamedConcat(a: seq<Rule>, b: seq<Rule>, n: string)
    ensures LastNamed(a + b, n) == if LastNamed(b, n).Some? then LastNamed(b, n) else LastNamed(a, n)
  {
    if b == [] {
      assert a + b == a;
    } else {
      LastNamedConcat(a, b[..|b| - 1], n);
      LastNamedSnoc(a + b[..|b| - 1], b[|b| - 1], n);
      assert a + b == a + b[..|b| - 1] + [b[|b| - 1]];
    }
  }

  /** A merged list answers each name the way the override does, or else the way the base does. */
  lemma LastNamedMerged(a: seq<Rule>, b: seq<Rule>, n: string)
    ensures LastNamed(MergedRules(a, b), n) == if LastNamed(b, n).Some? then LastNamed(b, n) else LastNamed(a, n)
  {
    LastNamedConcat(Replaced(a, b), Added(a, b), n);
    LastNamedReplaced(a, b, n);
    LastNamedAdded(a, b, n);
  }

  lemma ChosenName(b: seq<Rule>, r: Rule)
    ensures Chosen(b, r).name == r.name
  {
    LastNamedHolds(b, r.name);
  }

  lemma {:induction false} LastNamedReplaced(a: seq<Rule>, b: seq<Rule>, n: string)
    ensures LastNamed(Replaced(a, b), n)
         == if HasName(a, n) && HasName(b, n) then LastNamed(b, n) else LastNamed(a, n)
  {
    if a != [] {
      var init, last := a[..|a| - 1], a[|a| - 1];
      LastNamedReplaced(init, b, n);
      ChosenName(b, last);
      LastNamedSnoc(Replaced(init, b), Chosen(b, last), n);
    }
  }

  lemma {:induction false} LastNamedAdded(a: seq<Rule>, b: seq<Rule>, n: string)
    ensures LastNamed(Added(a, b), n) == if HasName(a, n) then None else LastNamed(b, n)
  {
    if b != [] {
      var init, last := b[..|b| - 1], b[|b| - 1];
      LastNamedAdded(a, init, n);
      if !HasName(a, last.name) {
        LastNamedSnoc(Added(a, init), last, n);
      } else {
        assert Added(a, b) == Added(a, init);
      }
    }
  }

  lemma {:induction false} AddedReplaced(a: seq<Rule>, b: seq<Rule>, c: seq<Rule>)
    ensures Added(a, Replaced(b, c)) == Replaced(Added(a, b), c)
  {
    if b != [] {
      var init, last := b[..|b| - 1], b[|b| - 1];
      AddedReplaced(a, init, c);
      ChosenName(c, last);
      AddedSnoc(a, Replaced(init, c), Chosen(c, last));
      if HasName(a, last.name) {
        assert Added(a, b) == Added(a, init);
      } else {
        ReplacedSnoc(Added(a, init), last, c);
      }
    }
  }

  lemma {:induction false} AddedAdded(a: seq<Rule>, b: seq<Rule>, c: seq<Rule>)
    ensures Added(a, Added(b, c)) == Added(MergedRules(a, b), c)
  {
    if c != [] {
      var init, last := c[..|c| - 1], c[|c| - 1];
      AddedAdded(a, b, init);
      LastNamedMerged(a, b, last.name);
      if HasName(b, last.name) {
        assert Added(b, c) == Added(b, init);
      } else {
        AddedSnoc(a, Added(b, init), last);
      }
    }
  }

  lemma {:induction false} ReplacedReplaced(a: seq<Rule>, b: seq<Rule>, c: seq<Rule>)
    ensures Replaced(Replaced(a, b), c) == Replaced(a, MergedRules(b, c))
  {
    if a != [] {
      var init, last := a[..|a| - 1], a[|a| - 1];
      ReplacedReplaced(init, b, c);
      ReplacedSnoc(Replaced(init, b), Chosen(b, last), c);
      ChosenName(b, last);
      LastNamedMerged(b, c, last.name);
    }
  }

  /** Merging rule lists is associative, duplicate names included. */
  lemma MergeRulesAssociative(a: seq<Rule>, b: seq<Rule>, c: seq<Rule>)
    ensures MergedRules(MergedRules(a, b), c) == MergedRules(a, MergedRules(b, c))
  {
    var ra, ab, bc := Replaced(a, b), Added(a, b), MergedRules(b, c);
    ReplacedReplaced(a, b, c);
    ReplacedConcat(ra, ab, c);
    AddedReplaced(a, b, c);
    AddedAdded(a, b, c);
    AddedConcat(a, Replaced(b, c), Added(b, c));
    Associative(Replaced(a, bc), Replaced(ab, c), Added(MergedRules(a, b), c));
  }

  /** Every rule is the last one of its name. Unique names guarantee this; duplicates must be equal copies. */
  predicate NamesDecide(rules: seq<Rule>) {
    forall r | r in rules :: LastNamed(rules, r.name) == Some(r)
  }

  lemma {:induction false} NothingAdded(base: seq<Rule>, a: seq<Rule>)
    requires forall x | x in a :: HasName(base, x.name)
    ensures Added(base, a) == []
  {
    if a != [] {
      assert a[|a| - 1] in a;
      NothingAdded(base, a[..|a| - 1]);
    }
  }

  lemma {:induction false} ReplacedAt(base: seq<Rule>, override: seq<Rule>)
    ensures |Replaced(base, override)| == |base|
    ensures forall i | 0 <= i < |base| :: Replaced(base, override)[i] == Chosen(override, base[i])
  {
    if base != [] {
      ReplacedAt(base[..|base| - 1], override);
    }
  }

  /** Merging a list into itself changes nothing exactly when names decide rules. */
  lemma MergeRulesIdempotent(a: seq<Rule>)
    ensures MergedRules(a, a) == a <==> NamesDecide(a)
  {
    forall x | x in a
      ensures HasName(a, x.name)
    {
      LastNamedHolds(a, x.name);
    }
    NothingAdded(a, a);
    ReplacedAt(a, a);
    assert MergedRules(a, a) == Replaced(a, a);
    if Replaced(a, a) == a {
      forall r | r in a
        ensures LastNamed(a, r.name) == Some(r)
      {
        var i :| 0 <= i < |a| && a[i] == r;
        assert Replaced(a, a)[i] == Chosen(a, r);
      }
    }
  }

  // ----- merging the outer lists in once more

  /**
    * Every rule that only the default names is the last of its name there, and every rule that only the override names is
    * the last of its name there.
    */
  predicate Settled(d: seq<Rule>, s: seq<Rule>, o: seq<Rule>) {
    && (forall r | r in d && !HasName(s, r.name) && !HasName(o, r.name) :: LastNamed(d, r.name) == Some(r))
    && (forall r | r in o && !HasName(d, r.name) && !HasName(s, r.name) :: LastNamed(o, r.name) == Some(r))
  }

  lemma SelfMerged(a: seq<Rule>)
    ensures MergedRules(a, a) == Replaced(a, a)
    ensures forall n :: LastNamed(Replaced(a, a), n) == LastNamed(a, n)
  {
    forall x | x in a
      ensures HasName(a, x.name)
    {
      LastNamedHolds(a, x.name);
    }
    NothingAdded(a, a);
    forall n
      ensures LastNamed(Replaced(a, a), n) == LastNamed(a, n)
    {
      LastNamedReplaced(a, a, n);
    }
  }

  lemma {:induction false} AddedSameNames(a: seq<Rule>, b: seq<Rule>, c: seq<Rule>)
    requires forall n :: LastNamed(a, n).Some? <==> LastNamed(b, n).Some?
    ensures Added(a, c) == Added(b, c)
  {
    if c != [] {
      AddedSameNames(a, b, c[..|c| - 1]);
    }
  }

  lemma {:induction false} AddedMembers(base: seq<Rule>, a: seq<Rule>)
    ensures forall r :: r in Added(base, a) <==> r in a && !HasName(base, r.name)
  {
    if a != [] {
      var init, last := a[..|a| - 1], a[|a| - 1];
      AddedMembers(base, init);
      assert a == init + [last];
    }
  }

  /** The default's part of the merge, with the default merged into itself first. */
  lemma DefaultSettles(d: seq<Rule>, s: seq<Rule>, o: seq<Rule>)
    ensures Replaced(Replaced(Replaced(d, d), s), o) == Replaced(Replaced(d, s), o) <==>
            forall r | r in d && !HasName(s, r.name) && !HasName(o, r.name) :: LastNamed(d, r.name) == Some(r)
  {
    var once, twice := Replaced(Replaced(d, s), o), Replaced(Replaced(Replaced(d, d), s), o);
    ReplacedAt(d, d);
    ReplacedAt(d, s);
    ReplacedAt(Replaced(d, s), o);
    ReplacedAt(Replaced(d, d), s);
    ReplacedAt(Replaced(Replaced(d, d), s), o);
    forall i | 0 <= i < |d|
      ensures once[i] == twice[i] <==> HasName(s, d[i].name) || HasName(o, d[i].name) || LastNamed(d, d[i].name) == Some(d[i])
    {
      HasNameAt(d, i);
      DefaultSettlesAt(d, s, o, d[i]);
    }
    if once == twice {
      forall r | r in d && !HasName(s, r.name) && !HasName(o, r.name)
        ensures LastNamed(d, r.name) == Some(r)
      {
        var i :| 0 <= i < |d| && d[i] == r;
        assert once[i] == twice[i];
      }
    }
  }

  lemma DefaultSettlesAt(d: seq<Rule>, s: seq<Rule>, o: seq<Rule>, r: Rule)
    requires HasName(d, r.name)
    ensures Chosen(o, Chosen(s, Chosen(d, r))) == Chosen(o, Chosen(s, r)) <==>
            HasName(s, r.name) || HasName(o, r.name) || LastNamed(d, r.name) == Some(r)
  {
    ChosenName(d, r);
    ChosenName(s, r);
    ChosenName(s, Chosen(d, r));
  }

  lemma OverrideSettles(a: seq<Rule>, o: seq<Rule>)
    requires forall r | r in a :: HasName(o, r.name)
    ensures Replaced(a, o) == a <==> forall r | r in a :: LastNamed(o, r.name) == Some(r)
  {
    ReplacedAt(a, o);
    if Replaced(a, o) == a {
      forall r | r in a
        ensures LastNamed(o, r.name) == Some(r)
      {
        var i :| 0 <= i < |a| && a[i] == r;
        assert Replaced(a, o)[i] == Chosen(o, a[i]);
      }
    }
  }

  lemma SplitEqual<T>(a: seq<T>, a2: seq<T>, b: seq<T>, c: seq<T>, c2: seq<T>)
    requires |a| == |a2| && |c| == |c2|
    ensures a + b + c == a2 + b + c2 <==> a == a2 && c == c2
  {
    assert (a + b + c)[..|a|] == a && (a2 + b + c2)[..|a|] == a2;
    assert (a + b + c)[|a| + |b|..] == c && (a2 + b + c2)[|a| + |b|..] == c2;
  }

  /** A three-layer merge as three stretches. */
  lemma ThreeStretches(d: seq<Rule>, s: seq<Rule>, o: seq<Rule>)
    ensures MergedRules(MergedRules(d, s), o)
         == Replaced(Replaced(d, s), o) + Replaced(Added(d, s), o) + Added(MergedRules(d, s), o)
  {
    ReplacedConcat(Replaced(d, s), Added(d, s), o);
  }

  lemma {:induction false} ReplacedAlike(a: seq<Rule>, b: seq<Rule>, c: seq<Rule>)
    requires forall n :: LastNamed(b, n) == LastNamed(c, n)
    ensures Replaced(a, b) == Replaced(a, c)
  {
    if a != [] {
      ReplacedAlike(a[..|a| - 1], b, c);
    }
  }

  /** Merging default and override in twice is merging the self-merged lists in once. */
  lemma MergedInTwice(d: seq<Rule>, s: seq<Rule>, o: seq<Rule>)
    ensures var m := MergedRules(MergedRules(d, s), o);
            MergedRules(MergedRules(d, m), o) == MergedRules(MergedRules(Replaced(d, d), s), Replaced(o, o))
  {
    SelfMerged(d);
    SelfMerged(o);
    MergeRulesAssociative(d, MergedRules(d, s), o);
    MergeRulesAssociative(d, d, s);
    MergeRulesAssociative(MergedRules(Replaced(d, d), s), o, o);
  }

  lemma SelfMergedStretches(d: seq<Rule>, s: seq<Rule>, o: seq<Rule>)
    ensures MergedRules(MergedRules(Replaced(d, d), s), Replaced(o, o))
         == Replaced(Replaced(Replaced(d, d), s), o) + Replaced(Added(d, s), o) + Replaced(Added(MergedRules(d, s), o), o)
  {
    var d2, o2 := Replaced(d, d), Replaced(o, o);
    SelfMerged(d);
    SelfMerged(o);
    ThreeStretches(d2, s, o2);
    AddedSameNames(d2, d, s);
    forall n
      ensures LastNamed(MergedRules(d2, s), n).Some? <==> LastNamed(MergedRules(d, s), n).Some?
    {
      LastNamedMerged(d2, s, n);
      LastNamedMerged(d, s, n);
    }
    AddedSameNames(MergedRules(d2, s), MergedRules(d, s), o2);
    AddedReplaced(MergedRules(d, s), o, o);
    ReplacedAlike(Replaced(d2, s), o2, o);
    ReplacedAlike(Added(d, s), o2, o);
  }

  /** Merging the default and the override in once more changes nothing exactly when both are settled. */
  lemma MergedTwice(d: seq<Rule>, s: seq<Rule>, o: seq<Rule>)
    ensures var m := MergedRules(MergedRules(d, s), o);
            MergedRules(MergedRules(d, m), o) == m <==> Settled(d, s, o)
  {
    var tail := Added(MergedRules(d, s), o);
    MergedInTwice(d, s, o);
    SelfMergedStretches(d, s, o);
    ThreeStretches(d, s, o);
    ReplacedAt(d, d);
    ReplacedAt(d, s);
    ReplacedAt(Replaced(d, d), s);
    ReplacedAt(Replaced(d, s), o);
    ReplacedAt(Replaced(Replaced(d, d), s), o);
    ReplacedAt(tail, o);
    SplitEqual(Replaced(Replaced(Replaced(d, d), s), o), Replaced(Replaced(d, s), o), Replaced(Added(d, s), o), Replaced(tail, o), tail);
    DefaultSettles(d, s, o);
    OverridePart(d, s, o);
  }

  lemma OverridePart(d: seq<Rule>, s: seq<Rule>, o: seq<Rule>)
    ensures var tail := Added(MergedRules(d, s), o);
            Replaced(tail, o) == tail <==>
            forall r | r in o && !HasName(d, r.name) && !HasName(s, r.name) :: LastNamed(o, r.name) == Some(r)
  {
    var tail := Added(MergedRules(d, s), o);
    AddedMembers(MergedRules(d, s), o);
    forall r | r in o
      ensures r in tail <==> !HasName(d, r.name) && !HasName(s, r.name)
      ensures HasName(o, r.name)
    {
      LastNamedMerged(d, s, r.name);
      LastNamedHolds(o, r.name);
    }
    OverrideSettles(tail, o);
  }

  // ----- rule sets

  function MergedRuleSets(base: Option<RuleSet>, override: Option<RuleSet>): Option<RuleSet> {
    match (base, override)
    case (None, _) => override
    case (_, None) => base
    case (Some(b), Some(o)) =>
      Some(RuleSet(MergedRules(b.migration, o.migration),
                   MergedRules(b.domain, o.domain),
                   MergedRules(b.encoding, o.encoding)))
  }

  lemma MergeRuleSetsAssociative(a: Option<RuleSet>, b: Option<RuleSet>, c: Option<RuleSet>)
    ensures MergedRuleSets(MergedRuleSets(a, b), c) == MergedRuleSets(a, MergedRuleSets(b, c))
  {
    if a.Some? && b.Some? && c.Some? {
      var (x, y, z) := (a.value, b.value, c.value);
      MergeRulesAssociative(x.migration, y.migration, z.migration);
      MergeRulesAssociative(x.domain, y.domain, z.domain);
      MergeRulesAssociative(x.encoding, y.encoding, z.encoding);
    }
  }

  // ----- metadata

  /** The first occurrences, in order. */
  function Distinct(s: seq<string>): seq<string> {
    if s == [] then []
    else
      var init, last := s[..|s| - 1], s[|s| - 1];
      if last in init then Distinct(init) else Distinct(init) + [last]
  }

  lemma DistinctSnoc(s: seq<string>, x: string)
    ensures Distinct(s + [x]) == if x in s then Distinct(s) else Distinct(s) + [x]
  {
    assert (s + [x])[..|s|] == s;
  }

  /** The same elements, none twice. */
  lemma {:induction false} DistinctHolds(s: seq<string>)
    ensures forall x :: x in Distinct(s) <==> x in s
    ensures forall i, j | 0 <= i < j < |Distinct(s)| :: Distinct(s)[i] != Distinct(s)[j]
  {
    if s != [] {
      DistinctHolds(s[..|s| - 1]);
      assert s == s[..|s| - 1] + [s[|s| - 1]];
    }
  }

  function Elements(s: seq<string>): set<string> {
    set x | x in s
  }

  lemma NextItem(start: seq<string>, items: seq<string>, i: nat)
    requires i < |items|
    ensures var so := start + items[..i];
            && Elements(start + items[..i + 1]) == Elements(so) + {items[i]}
            && Distinct(start + items[..i + 1]) == if items[i] in Elements(so) then Distinct(so) else Distinct(so) + [items[i]]
  {
    DistinctSnoc(start + items[..i], items[i]);
    assert start + items[..i + 1] == start + items[..i] + [items[i]];
  }

  method AppendUnseen(start: seq<string>, seen0: set<string>, items: seq<string>)
    returns (result: seq<string>, seen: set<string>)
    requires start == Distinct(start) && seen0 == Elements(start)
    ensures result == Distinct(start + items) && seen == Elements(start + items)
  {
    result, seen := start, seen0;
    assert start + items[..0] == start;
    for i := 0 to |items|
      invariant result == Distinct(start + items[..i]) && seen == Elements(start + items[..i])
    {
      NextItem(start, items, i);
      if items[i] !in seen {
        result := result + [items[i]];
        seen := seen + {items[i]};
      }
    }
    assert items[..|items|] == items;
  }

  /** The union of the two lists without repeats; nil when there is nothing in it. */
  function MergedSensitive(base: Option<seq<string>>, override: Option<seq<string>>): Option<seq<string>> {
    var union := Distinct(Items(base) + Items(override));
    if union == [] then None else Some(union)
  }

  function Items(s: Option<seq<string>>): seq<string> {
    match s case Some(v) => v case None => []
  }

  function MergedMap<T>(base: Option<map<string, T>>, override: Option<map<string, T>>): Option<map<string, T>> {
    match (base, override)
    case (None, _) => override
    case (_, None) => base
    case (Some(b), Some(o)) => Some(b + o)
  }

  function MergedMetadata(base: Option<Metadata>, override: Option<Metadata>): Option<Metadata> {
    match (base, override)
    case (None, _) => override
    case (_, None) => base
    case (Some(b), Some(o)) =>
      Some(Metadata(MergedMap(b.tags, o.tags), MergedMap(b.properties, o.properties),
                    MergedSensitive(b.sensitive, o.sensitive)))
  }

  method MergeSensitive(base: Option<seq<string>>, override: Option<seq<string>>) returns (list: seq<string>)
    ensures list == Distinct(Items(base) + Items(override))
  {
    list := [];
    if base.Some? || override.Some? {
      var first, second := Items(base), Items(override);
      var seen: set<string>;
      list, seen := AppendUnseen([], {}, first);
      assert [] + first == first;
      DistinctHolds(first);
      DistinctConcat(first, second);
      DistinctIdempotent(first);
      list, seen := AppendUnseen(list, seen, second);
    }
  }

  method MergeMetadata(base: Option<Metadata>, override: Option<Metadata>) returns (result: Option<Metadata>)
    ensures result == MergedMetadata(base, override)
  {
    if base == None { return override; }
    if override == None { return base; }
    var (b, o) := (base.value, override.value);
    var properties: Option<map<string, string>> := None;
    if b.properties.Some? || o.properties.Some? {
      properties := Some(OrEmpty(b.properties) + OrEmpty(o.properties));
    }
    var tags: Option<map<string, seq<string>>> := None;
    if b.tags.Some? || o.tags.Some? {
      tags := Some(OrEmpty(b.tags) + OrEmpty(o.tags));
    }
    var list := MergeSensitive(b.sensitive, o.sensitive);
    result := Some(Metadata(tags, properties, if list == [] then None else Some(list)));
    MergedMapUnion(b.tags, o.tags);
    MergedMapUnion(b.properties, o.properties);
  }

  function OrEmpty<T>(m: Option<map<string, T>>): map<string, T> {
    match m case Some(v) => v case None => map[]
  }

  lemma MergedMapUnion<T>(a: Option<map<string, T>>, b: Option<map<string, T>>)
    ensures MergedMap(a, b) == if a.Some? || b.Some? then Some(OrEmpty(a) + OrEmpty(b)) else None
  {
    assert OrEmpty(a) + map[] == OrEmpty(a);
    assert map[] + OrEmpty(b) == OrEmpty(b);
  }

  /** Removing repeats from a prefix first makes no difference. */
  lemma {:induction false} DistinctConcat(a: seq<string>, b: seq<string>)
    ensures Distinct(Distinct(a) + b) == Distinct(a + b)
  {
    if b == [] {
      assert Distinct(a) + b == Distinct(a) && a + b == a;
      DistinctIdempotent(a);
    } else {
      var init, last := b[..|b| - 1], b[|b| - 1];
      DistinctConcat(a, init);
      DistinctHolds(a);
      DistinctSnoc(Distinct(a) + init, last);
      DistinctSnoc(a + init, last);
      SplitLast(Distinct(a), b);
      SplitLast(a, b);
    }
  }

  lemma {:induction false} DistinctConcatRight(a: seq<string>, b: seq<string>)
    ensures Distinct(a + Distinct(b)) == Distinct(a + b)
  {
    if b != [] {
      var init, last := b[..|b| - 1], b[|b| - 1];
      DistinctConcatRight(a, init);
      SplitLast(a, b);
      DistinctSnoc(a + init, last);
      DistinctSnoc(init, last);
      if last !in init {
        DistinctHolds(init);
        DistinctSnoc(a + Distinct(init), last);
        Associative(a, Distinct(init), [last]);
      }
    }
  }

  lemma {:induction false} DistinctIdempotent(a: seq<string>)
    ensures Distinct(Distinct(a)) == Distinct(a)
  {
    if a != [] {
      var init, last := a[..|a| - 1], a[|a| - 1];
      DistinctIdempotent(init);
      if last !in init {
        DistinctHolds(init);
        DistinctSnoc(Distinct(init), last);
      }
    }
  }

  lemma ItemsOfMerged(a: Option<seq<string>>, b: Option<seq<string>>)
    ensures Items(MergedSensitive(a, b)) == Distinct(Items(a) + Items(b))
  {
  }

  lemma MergedSensitiveAssociative(a: Option<seq<string>>, b: Option<seq<string>>, c: Option<seq<string>>)
    ensures MergedSensitive(MergedSensitive(a, b), c) == MergedSensitive(a, MergedSensitive(b, c))
  {
    var x, y, z := Items(a), Items(b), Items(c);
    assert Distinct(Items(MergedSensitive(a, b)) + z) == Distinct(x + Items(MergedSensitive(b, c))) by {
      ItemsOfMerged(a, b);
      ItemsOfMerged(b, c);
      DistinctConcat(x + y, z);
      DistinctConcatRight(x, y + z);
      Associative(x, y, z);
    }
  }

  lemma MergedMapAssociative<T>(a: Option<map<string, T>>, b: Option<map<string, T>>, c: Option<map<string, T>>)
    ensures MergedMap(MergedMap(a, b), c) == MergedMap(a, MergedMap(b, c))
  {
    if a.Some? && b.Some? && c.Some? {
      assert a.value + b.value + c.value == a.value + (b.value + c.value);
    }
  }

  /** Merging metadata is associative: default, specific and override may be grouped either way. */
  lemma MergeMetadataAssociative(a: Option<Metadata>, b: Option<Metadata>, c: Option<Metadata>)
    ensures MergedMetadata(MergedMetadata(a, b), c) == MergedMetadata(a, MergedMetadata(b, c))
  {
    if a.Some? && b.Some? && c.Some? {
      var (x, y, z) := (a.value, b.value, c.value);
      MergedMapAssociative(x.tags, y.tags, z.tags);
      MergedMapAssociative(x.properties, y.properties, z.properties);
      MergedSensitiveAssociative(x.sensitive, y.sensitive, z.sensitive);
    }
  }

  /** The sensitive list is nil, or non-empty without repeats. */
  predicate TidyMetadata(m: Option<Metadata>) {
    m.Some? && m.value.sensitive.Some? ==>
      m.value.sensitive.value != [] && Distinct(m.value.sensitive.value) == m.value.sensitive.value
  }

  /** Merging metadata into itself changes nothing exactly when its sensitive list is tidy. */
  lemma MergeMetadataIdempotent(a: Option<Metadata>)
    ensures MergedMetadata(a, a) == a <==> TidyMetadata(a)
  {
    if a.Some? {
      var s := Items(a.value.sensitive);
      DistinctConcat(s, s);
      DistinctSelf(s, s);
      assert OrEmpty(a.value.tags) + OrEmpty(a.value.tags) == OrEmpty(a.value.tags);
      assert OrEmpty(a.value.properties) + OrEmpty(a.value.properties) == OrEmpty(a.value.properties);
    }
  }

  lemma {:induction false} DistinctSelf(s: seq<string>, t: seq<string>)
    requires forall x | x in t :: x in s
    ensures Distinct(s + t) == Distinct(s)
  {
    if t == [] {
      assert s + t == s;
    } else {
      DistinctSelf(s, t[..|t| - 1]);
      assert (s + t)[..|s + t| - 1] == s + t[..|t| - 1];
    }
  }

  // ----- the three layers

  datatype Layers = Layers(defaultMetadata: Option<Metadata>, overrideMetadata: Option<Metadata>,
                           defaultRuleSet: Option<RuleSet>, overrideRuleSet: Option<RuleSet>)

  /** merge(merge(default, specific), override), where a request without metadata inherits the previous version's. */
  function LayeredMetadata(l: Layers, request: Option<Metadata>, previous: Option<Metadata>): Option<Metadata> {
    var specific := if request == None then previous else request;
    var merged := MergedMetadata(MergedMetadata(l.defaultMetadata, specific), l.overrideMetadata);
    if merged.Some? then merged else request
  }

  function LayeredRuleSet(l: Layers, request: Option<RuleSet>, previous: Option<RuleSet>): Option<RuleSet> {
    var specific := if request == None then previous else request;
    var merged := MergedRuleSets(MergedRuleSets(l.defaultRuleSet, specific), l.overrideRuleSet);
    if merged.Some? then merged else request
  }

  /** With two values at hand, merging either in once more changes nothing. */
  lemma MergedAbsorbs(a: Option<Metadata>, b: Option<Metadata>)
    requires a.Some? && b.Some?
    ensures MergedMetadata(a, MergedMetadata(a, b)) == MergedMetadata(a, b) == MergedMetadata(MergedMetadata(a, b), b)
  {
    SensitiveAbsorbs(a.value.sensitive, b.value.sensitive);
    MapAbsorbs(a.value.tags, b.value.tags);
    MapAbsorbs(a.value.properties, b.value.properties);
  }

  lemma MapAbsorbs<T>(a: Option<map<string, T>>, b: Option<map<string, T>>)
    ensures MergedMap(a, MergedMap(a, b)) == MergedMap(a, b) == MergedMap(MergedMap(a, b), b)
  {
    if a.Some? {
      assert a.value + a.value == a.value;
    }
    if b.Some? {
      assert b.value + b.value == b.value;
    }
    if a.Some? && b.Some? {
      assert a.value + (a.value + b.value) == a.value + b.value == a.value + b.value + b.value;
    }
  }

  lemma SensitiveAbsorbs(a: Option<seq<string>>, b: Option<seq<string>>)
    ensures MergedSensitive(a, MergedSensitive(a, b)) == MergedSensitive(a, b) == MergedSensitive(MergedSensitive(a, b), b)
  {
    var x, y := Items(a), Items(b);
    ItemsOfMerged(a, b);
    DistinctConcatRight(x, x + y);
    Associative(x, x, y);
    DistinctConcat(x + x, y);
    DistinctSelf(x, x);
    DistinctConcat(x, y);
    DistinctConcat(x + y, y);
    DistinctSelf(x + y, y);
  }

  /** What a version is stored with, before the config layers. */
  function Specific<T>(request: Option<T>, previous: Option<T>): Option<T> {
    if request == None then previous else request
  }

  /** Not just one config layer with an untidy sensitive list. */
  predicate SettledMetadata(d: Option<Metadata>, s: Option<Metadata>, o: Option<Metadata>) {
    s.Some? || (d.Some? && o.Some?) || (TidyMetadata(d) && TidyMetadata(o))
  }

  /**
    * A version that only inherits, under unchanged config, stores exactly what the previous version stores; unless the
    * only metadata there is comes from one config layer and its sensitive list is empty or repeats itself.
    */
  lemma InheritanceIsStable(l: Layers, request: Option<Metadata>, previous: Option<Metadata>)
    ensures var (d, s, o) := (l.defaultMetadata, Specific(request, previous), l.overrideMetadata);
            var stored := LayeredMetadata(l, request, previous);
            LayeredMetadata(l, None, stored) == stored <==> SettledMetadata(d, s, o)
  {
    var (d, o) := (l.defaultMetadata, l.overrideMetadata);
    var s := Specific(request, previous);
    MergeMetadataIdempotent(d);
    MergeMetadataIdempotent(o);
    if d.Some? && s.Some? {
      MergedAbsorbs(d, s);
      MergeMetadataAssociative(d, MergedMetadata(d, s), o);
    }
    if d.Some? && o.Some? {
      MergedAbsorbs(d, o);
    }
    if o.Some? && MergedMetadata(d, s).Some? {
      MergedAbsorbs(MergedMetadata(d, s), o);
    }
  }

  function RulesIn(r: Option<RuleSet>): RuleSet {
    match r case Some(v) => v case None => RuleSet([], [], [])
  }

  predicate SettledRuleSets(d: Option<RuleSet>, s: Option<RuleSet>, o: Option<RuleSet>) {
    var (x, y, z) := (RulesIn(d), RulesIn(s), RulesIn(o));
    && Settled(x.migration, y.migration, z.migration)
    && Settled(x.domain, y.domain, z.domain)
    && Settled(x.encoding, y.encoding, z.encoding)
  }

  /** An absent rule set merges like an empty one. */
  lemma RulesInMerged(a: Option<RuleSet>, b: Option<RuleSet>)
    ensures var (x, y, m) := (RulesIn(a), RulesIn(b), RulesIn(MergedRuleSets(a, b)));
            && m.migration == MergedRules(x.migration, y.migration)
            && m.domain == MergedRules(x.domain, y.domain)
            && m.encoding == MergedRules(x.encoding, y.encoding)
  {
    if a.None? || b.None? {
      var m := RulesIn(MergedRuleSets(a, b));
      MergeRulesIdentity(m.migration);
      MergeRulesIdentity(m.domain);
      MergeRulesIdentity(m.encoding);
    }
  }

  lemma MergedInAgain(d: Option<RuleSet>, s: Option<RuleSet>, o: Option<RuleSet>)
    ensures var m := MergedRuleSets(MergedRuleSets(d, s), o);
            MergedRuleSets(MergedRuleSets(d, m), o) == m <==> SettledRuleSets(d, s, o)
  {
    var (x, y, z) := (RulesIn(d), RulesIn(s), RulesIn(o));
    var m := MergedRuleSets(MergedRuleSets(d, s), o);
    RulesInMerged(d, s);
    RulesInMerged(MergedRuleSets(d, s), o);
    RulesInMerged(d, m);
    RulesInMerged(MergedRuleSets(d, m), o);
    MergedTwice(x.migration, y.migration, z.migration);
    MergedTwice(x.domain, y.domain, z.domain);
    MergedTwice(x.encoding, y.encoding, z.encoding);
  }

  /** The same for rule sets: exactly if every rule named in one config layer only is the last of its name there. */
  lemma RuleInheritanceIsStable(l: Layers, request: Option<RuleSet>, previous: Option<RuleSet>)
    ensures var stored := LayeredRuleSet(l, request, previous);
            LayeredRuleSet(l, None, stored) == stored <==>
            SettledRuleSets(l.defaultRuleSet, Specific(request, previous), l.overrideRuleSet)
  {
    MergedInAgain(l.defaultRuleSet, Specific(request, previous), l.overrideRuleSet);
  }

  // ----- which layer decides

  function Entry<T>(m: Option<map<string, T>>, name: string): Option<T> {
    if m.Some? && name in m.value then Some(m.value[name]) else None
  }

  function PropertyOf(m: Option<Metadata>, name: string): Option<string> {
    if m.Some? then Entry(m.value.properties, name) else None
  }

  function TagOf(m: Option<Metadata>, name: string): Option<seq<string>> {
    if m.Some? then Entry(m.value.tags, name) else None
  }

  function OrElse<T>(a: Option<T>, b: Option<T>): Option<T> {
    if a.Some? then a else b
  }

  lemma EntryOfMerged<T>(a: Option<map<string, T>>, b: Option<map<string, T>>, name: string)
    ensures Entry(MergedMap(a, b), name) == OrElse(Entry(b, name), Entry(a, name))
  {
  }

  lemma MergedDecides(a: Option<Metadata>, b: Option<Metadata>, name: string)
    ensures PropertyOf(MergedMetadata(a, b), name) == OrElse(PropertyOf(b, name), PropertyOf(a, name))
    ensures TagOf(MergedMetadata(a, b), name) == OrElse(TagOf(b, name), TagOf(a, name))
  {
    if a.Some? && b.Some? {
      EntryOfMerged(a.value.properties, b.value.properties, name);
      EntryOfMerged(a.value.tags, b.value.tags, name);
    }
  }

  /** Each property and tag comes from the override, else from the request (or what it inherits), else from the default. */
  lemma LayersDecide(l: Layers, request: Option<Metadata>, previous: Option<Metadata>, name: string)
    ensures var specific := if request == None then previous else request;
            var merged := LayeredMetadata(l, request, previous);
            && PropertyOf(merged, name) ==
               OrElse(PropertyOf(l.overrideMetadata, name), OrElse(PropertyOf(specific, name), PropertyOf(l.defaultMetadata, name)))
            && TagOf(merged, name) ==
               OrElse(TagOf(l.overrideMetadata, name), OrElse(TagOf(specific, name), TagOf(l.defaultMetadata, name)))
  {
    var specific := if request == None then previous else request;
    MergedDecides(l.defaultMetadata, specific, name);
    MergedDecides(MergedMetadata(l.defaultMetadata, specific), l.overrideMetadata, name);
  }

  function DomainRule(r: Option<RuleSet>, name: string): Option<Rule> {
    if r.Some? then LastNamed(r.value.domain, name) else None
  }

  function MigrationRule(r: Option<RuleSet>, name: string): Option<Rule> {
    if r.Some? then LastNamed(r.value.migration, name) else None
  }

  function EncodingRule(r: Option<RuleSet>, name: string): Option<Rule> {
    if r.Some? then LastNamed(r.value.encoding, name) else None
  }

  lemma MergedRulesDecide(a: Option<RuleSet>, b: Option<RuleSet>, name: string)
    ensures DomainRule(MergedRuleSets(a, b), name) == OrElse(DomainRule(b, name), DomainRule(a, name))
    ensures MigrationRule(MergedRuleSets(a, b), name) == OrElse(MigrationRule(b, name), MigrationRule(a, name))
    ensures EncodingRule(MergedRuleSets(a, b), name) == OrElse(EncodingRule(b, name), EncodingRule(a, name))
  {
    if a.Some? && b.Some? {
      LastNamedMerged(a.value.domain, b.value.domain, name);
      LastNamedMerged(a.value.migration, b.value.migration, name);
      LastNamedMerged(a.value.encoding, b.value.encoding, name);
    }
  }

  /** Each kind of rule, by name, comes from the override, else from the request (or what it inherits), else from the default. */
  lemma RuleLayersDecide(l: Layers, request: Option<RuleSet>, previous: Option<RuleSet>, name: string)
    ensures var specific := if request == None then previous else request;
            var merged := LayeredRuleSet(l, request, previous);
            && DomainRule(merged, name) ==
               OrElse(DomainRule(l.overrideRuleSet, name), OrElse(DomainRule(specific, name), DomainRule(l.defaultRuleSet, name)))
            && MigrationRule(merged, name) ==
               OrElse(MigrationRule(l.overrideRuleSet, name), OrElse(MigrationRule(specific, name), MigrationRule(l.defaultRuleSet, name)))
            && EncodingRule(merged, name) ==
               OrElse(EncodingRule(l.overrideRuleSet, name), OrElse(EncodingRule(specific, name), EncodingRule(l.defaultRuleSet, name)))
  {
    var specific := if request == None then previous else request;
    MergedRulesDecide(l.defaultRuleSet, specific, name);
    MergedRulesDecide(MergedRuleSets(l.defaultRuleSet, specific), l.overrideRuleSet, name);
  }

  // ----- the order of a merged list

  predicate Named(rules: seq<Rule>, name: string) {
    exists r | r in rules :: r.name == name
  }

  /** The rules whose names the base does not have, in order. */
  function Unnamed(base: seq<Rule>, rules: seq<Rule>): seq<Rule> {
    if rules == [] then []
    else (if Named(base, rules[0].name) then [] else [rules[0]]) + Unnamed(base, rules[1..])
  }

  lemma {:induction false} AddedIsUnnamed(base: seq<Rule>, rules: seq<Rule>)
    ensures Added(base, rules) == Unnamed(base, rules)
  {
    if rules != [] {
      var first, rest := rules[0], rules[1..];
      assert rules == [first] + rest;
      AddedConcat(base, [first], rest);
      LastNamedHolds(base, first.name);
      assert [first][..0] == [];
      AddedIsUnnamed(base, rest);
    }
  }

  /** `r` is the last rule of the list that has this name. */
  predicate IsLastNamed(rules: seq<Rule>, name: string, r: Rule) {
    exists i | 0 <= i < |rules| :: rules[i] == r && r.name == name && forall j | i < j < |rules| :: rules[j].name != name
  }

  lemma {:induction false} LastNamedExactly(rules: seq<Rule>, name: string, r: Rule)
    ensures LastNamed(rules, name) == Some(r) <==> IsLastNamed(rules, name, r)
  {
    if rules != [] {
      var n := |rules| - 1;
      LastNamedExactly(rules[..n], name, r);
      if rules[n].name == name {
        assert rules[n] == r ==> IsLastNamed(rules, name, r);
      } else {
        if IsLastNamed(rules[..n], name, r) {
          var i :| 0 <= i < n && rules[..n][i] == r && r.name == name && forall j | i < j < n :: rules[..n][j].name != name;
          assert forall j | i < j < |rules| :: rules[j].name != name by {
            assert forall j | i < j < n :: rules[..n][j] == rules[j];
          }
          assert rules[i] == r;
        }
        if IsLastNamed(rules, name, r) {
          var i :| 0 <= i <= n && rules[i] == r && r.name == name && forall j | i < j < |rules| :: rules[j].name != name;
          assert rules[..n][i] == r;
        }
      }
    }
  }

  /**
    * A merged list keeps the base's places: each base rule gives way to the last override of its name, if there is one; the
    * overrides with new names follow in their order.
    */
  lemma MergeRulesExactly(base: seq<Rule>, override: seq<Rule>)
    ensures var merged := MergedRules(base, override);
            && |merged| >= |base| && merged[|base|..] == Unnamed(base, override)
            && forall i | 0 <= i < |base| ::
                 (Named(override, base[i].name) ==> IsLastNamed(override, base[i].name, merged[i])) &&
                 (!Named(override, base[i].name) ==> merged[i] == base[i])
  {
    ReplacedAt(base, override);
    AddedIsUnnamed(base, override);
    forall i | 0 <= i < |base|
      ensures Named(override, base[i].name) ==> IsLastNamed(override, base[i].name, Chosen(override, base[i]))
      ensures !Named(override, base[i].name) ==> Chosen(override, base[i]) == base[i]
    {
      LastNamedHolds(override, base[i].name);
      LastNamedExactly(override, base[i].name, Chosen(override, base[i]));
    }
  }

  /** The sensitive names of the base and then of the override, each where it first comes. */
  lemma MergeSensitiveGrows(base: seq<string>, override: seq<string>, x: string)
    ensures MergedSensitive(Some([]), Some([])) == None
    ensures Items(MergedSensitive(Some(base + [x]), Some([]))) ==
            Items(MergedSensitive(Some(base), Some([]))) + if x in base then [] else [x]
    ensures Items(MergedSensitive(Some(base), Some(override + [x]))) ==
            Items(MergedSensitive(Some(base), Some(override))) + if x in base || x in override then [] else [x]
  {
    ItemsOfMerged(Some(base + [x]), Some([]));
    ItemsOfMerged(Some(base), Some([]));
    ItemsOfMerged(Some(base), Some(override + [x]));
    ItemsOfMerged(Some(base), Some(override));
    assert base + [x] + [] == base + [x] && base + [] == base;
    DistinctSnoc(base, x);
    Associative(base, override, [x]);
    DistinctSnoc(base + override, x);
  }
}
