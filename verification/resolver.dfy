/** Transitive reference resolution: the depth-first walk with a shared `seen` set. */
module Resolver {
  import opened Options
  import opened Text
  import opened Fingerprints

  datatype SubjectVersion = SubjectVersion(subject: string, version: int)

  /** What a lookup by subject and version gives: the schema text and its own references. */
  datatype Node = Node(schema: string, references: seq<Reference>)

  /** The lookup function of the store, as a finite map: a missing key is a failed lookup. */
  type Graph = map<SubjectVersion, Node>

  /** A reference together with the schema text found for it. */
  datatype Resolved = Resolved(reference: Reference, schema: string)

  datatype Outcome =
    | Done(seen: set<SubjectVersion>, resolved: seq<Resolved>)
    | Missing(reference: Reference)

  function Target(r: Reference): SubjectVersion {
    SubjectVersion(r.subject, r.version)
  }

  function Targets(refs: seq<Reference>): (t: set<SubjectVersion>)
    ensures forall k :: k in t <==> exists r | r in refs :: Target(r) == k
  {
    set r | r in refs :: Target(r)
  }

  /** The walk as a function: each call visits `refs` from left to right and each record's own
      references before the record itself. */
  function Visit(g: Graph, refs: seq<Reference>, seen: set<SubjectVersion>, acc: seq<Resolved>): (o: Outcome)
    ensures o.Done? ==> seen <= o.seen
    decreases g.Keys - seen, |refs|
  {
    if refs == [] then Done(seen, acc)
    else
      var key := Target(refs[0]);
      if key in seen then Visit(g, refs[1..], seen, acc)
      else if key !in g then Missing(refs[0])
      else
        var inner := Visit(g, g[key].references, seen + {key}, acc);
        if inner.Missing? then inner
        else Visit(g, refs[1..], inner.seen, inner.resolved + [Resolved(refs[0], g[key].schema)])
  }

  function Resolve(g: Graph, refs: seq<Reference>): Outcome {
    Visit(g, refs, {}, [])
  }

  // ----- the imperative walk

  function Key(k: SubjectVersion): string {
    k.subject + ":" + Dec(k.version)
  }

  /** The printed key identifies subject and version even when the subject contains ':'. */
  lemma KeyInjective(a: SubjectVersion, b: SubjectVersion)
    requires Key(a) == Key(b)
    ensures a == b
  {
    LastColon(a.subject, Dec(a.version), b.subject, Dec(b.version));
    DecInjective(a.version, b.version);
  }

  lemma LastColon(s: string, d: string, t: string, e: string)
    requires ':' !in d && ':' !in e && s + ":" + d == t + ":" + e
    ensures s == t && d == e
  {
    var x, y := s + ":" + d, t + ":" + e;
    assert x[|s|] == ':' && y[|t|] == ':';
    assert forall i | |s| < i < |x| :: x[i] == d[i - |s| - 1];
    assert forall i | |t| < i < |y| :: y[i] == e[i - |t| - 1];
    assert |s| == |t|;
    assert s == x[..|s|] && t == y[..|t|] && d == x[|s| + 1..] && e == y[|t| + 1..];
  }

  class Walk {
    const graph: Graph
    var seen: set<string>
    var resolved: seq<Resolved>
    ghost var marked: set<SubjectVersion>

    ghost predicate Valid()
      reads this
    {
      seen == set k | k in marked :: Key(k)
    }

    constructor (graph: Graph)
      ensures Valid() && this.graph == graph && marked == {} && resolved == []
    {
      this.graph := graph;
      seen, resolved, marked := {}, [], {};
    }

    method Run(refs: seq<Reference>) returns (missing: Option<Reference>)
      requires Valid()
      modifies this
      ensures Valid()
      ensures Visit(graph, refs, old(marked), old(resolved))
           == (if missing.Some? then Missing(missing.value) else Done(marked, resolved))
      decreases graph.Keys - marked
    {
      ghost var goal := Visit(graph, refs, marked, resolved);
      for i := 0 to |refs|
        invariant Valid() && old(marked) <= marked
        invariant Visit(graph, refs[i..], marked, resolved) == goal
      {
        var ref := refs[i];
        var key := Target(ref);
        assert refs[i..][0] == ref && refs[i..][1..] == refs[i + 1..];
        if Key(key) in seen {
          assert key in marked by {
            ghost var k :| k in marked && Key(k) == Key(key);
            KeyInjective(k, key);
          }
          continue;
        }
        assert key !in marked;
        seen, marked := seen + {Key(key)}, marked + {key};
        if key !in graph {
          return Some(ref);
        }
        var record := graph[key];
        missing := Run(record.references);
        if missing.Some? {
          return;
        }
        resolved := resolved + [Resolved(ref, record.schema)];
      }
      missing := None;
    }
  }

  method ResolveReferences(graph: Graph, refs: seq<Reference>) returns (missing: Option<Reference>, resolved: seq<Resolved>)
    ensures match Resolve(graph, refs)
            case Missing(r) => missing == Some(r)
            case Done(_, list) => missing == None && resolved == list
  {
    if |refs| == 0 {
      return None, [];
    }
    var walk := new Walk(graph);
    missing := walk.Run(refs);
    resolved := walk.resolved;
  }

  // ----- what the walk computes

  ghost predicate IsPath(g: Graph, p: seq<SubjectVersion>) {
    p != [] && forall i | 0 <= i < |p| - 1 :: Edge(g, p[i], p[i + 1])
  }

  ghost predicate Edge(g: Graph, a: SubjectVersion, b: SubjectVersion) {
    a in g && b in Targets(g[a].references)
  }

  /** `k` is one of the references, or a reference of a reference, and so on. */
  ghost predicate Reaches(g: Graph, refs: seq<Reference>, k: SubjectVersion) {
    exists p :: IsPath(g, p) && p[0] in Targets(refs) && p[|p| - 1] == k
  }

  ghost predicate Acyclic(g: Graph) {
    forall k | k in g :: !Reaches(g, g[k].references, k)
  }

  ghost predicate RankedBy(g: Graph, rank: SubjectVersion -> nat) {
    forall a, b | a in g && b in g && b in Targets(g[a].references) :: rank(b) < rank(a)
  }

  function KeysOf(list: seq<Resolved>): (s: seq<SubjectVersion>)
    ensures |s| == |list| && forall i | 0 <= i < |s| :: s[i] == Target(list[i].reference)
  {
    seq(|list|, i requires 0 <= i < |list| => Target(list[i].reference))
  }

  lemma ReachesHere(g: Graph, refs: seq<Reference>, k: SubjectVersion)
    requires k in Targets(refs)
    ensures Reaches(g, refs, k)
  {
    assert IsPath(g, [k]);
  }

  lemma ReachesThrough(g: Graph, refs: seq<Reference>, a: SubjectVersion, k: SubjectVersion)
    requires a in Targets(refs) && a in g && Reaches(g, g[a].references, k)
    ensures Reaches(g, refs, k)
  {
    var p :| IsPath(g, p) && p[0] in Targets(g[a].references) && p[|p| - 1] == k;
    var q := [a] + p;
    assert IsPath(g, q) by {
      forall i | 0 <= i < |q| - 1 ensures Edge(g, q[i], q[i + 1]) {
        if i > 0 { assert Edge(g, p[i - 1], p[i]); }
      }
    }
  }

  lemma ReachesWider(g: Graph, refs: seq<Reference>, more: seq<Reference>, k: SubjectVersion)
    requires Reaches(g, refs, k) && Targets(refs) <= Targets(more)
    ensures Reaches(g, more, k)
  {
  }

  ghost predicate ClosedUnder(g: Graph, s: set<SubjectVersion>) {
    forall k | k in s :: k in g && Targets(g[k].references) <= s
  }

  lemma {:induction false} ClosedContainsReach(g: Graph, s: set<SubjectVersion>, p: seq<SubjectVersion>)
    requires ClosedUnder(g, s) && IsPath(g, p) && p[0] in s
    ensures p[|p| - 1] in s
  {
    if |p| > 1 {
      assert Edge(g, p[0], p[1]);
      assert IsPath(g, p[1..]) by {
        forall i | 0 <= i < |p| - 2 ensures Edge(g, p[1..][i], p[1..][i + 1]) {
          assert Edge(g, p[i + 1], p[i + 2]);
        }
      }
      ClosedContainsReach(g, s, p[1..]);
    }
  }

  /** Everything newly seen is present, and its own targets are seen too. */
  lemma {:induction false} VisitCloses(g: Graph, refs: seq<Reference>, seen: set<SubjectVersion>, acc: seq<Resolved>)
    requires Visit(g, refs, seen, acc).Done?
    ensures var o := Visit(g, refs, seen, acc);
            Targets(refs) <= o.seen &&
            forall k | k in o.seen - seen :: k in g && Targets(g[k].references) <= o.seen
    decreases g.Keys - seen, |refs|
  {
    if refs != [] {
      var key := Target(refs[0]);
      assert forall r | r in refs :: r == refs[0] || r in refs[1..];
      if key in seen {
        VisitCloses(g, refs[1..], seen, acc);
      } else {
        var inner := Visit(g, g[key].references, seen + {key}, acc);
        VisitCloses(g, g[key].references, seen + {key}, acc);
        VisitCloses(g, refs[1..], inner.seen, inner.resolved + [Resolved(refs[0], g[key].schema)]);
      }
    }
  }

  /** Everything newly seen, and the key of a failed lookup, is reachable from the references. */
  lemma {:induction false} VisitReaches(g: Graph, refs: seq<Reference>, seen: set<SubjectVersion>, acc: seq<Resolved>, k: SubjectVersion)
    requires match Visit(g, refs, seen, acc)
             case Done(s, _) => k in s - seen
             case Missing(r) => k == Target(r)
    ensures Reaches(g, refs, k)
    ensures Visit(g, refs, seen, acc).Missing? ==> k !in g
    decreases g.Keys - seen, |refs|
  {
    var key := Target(refs[0]);
    assert Targets(refs[1..]) <= Targets(refs) && key in Targets(refs);
    ReachesHere(g, refs, key);
    if key in seen {
      VisitReaches(g, refs[1..], seen, acc, k);
      ReachesWider(g, refs[1..], refs, k);
    } else if key in g {
      var inner := Visit(g, g[key].references, seen + {key}, acc);
      if inner.Missing? || (Visit(g, refs, seen, acc).Done? && k in inner.seen) {
        if k != key || inner.Missing? {
          VisitReaches(g, g[key].references, seen + {key}, acc, k);
          ReachesThrough(g, refs, key, k);
        }
      } else {
        VisitReaches(g, refs[1..], inner.seen, inner.resolved + [Resolved(refs[0], g[key].schema)], k);
        ReachesWider(g, refs[1..], refs, k);
      }
    }
  }

  ghost predicate Distinct(s: seq<SubjectVersion>) {
    forall i, j | 0 <= i < j < |s| :: s[i] != s[j]
  }

  ghost predicate Enumerates(s: seq<SubjectVersion>, keys: set<SubjectVersion>) {
    Distinct(s) && forall k :: k in s <==> k in keys
  }

  lemma EnumeratesConcat(a: seq<SubjectVersion>, x: set<SubjectVersion>, b: seq<SubjectVersion>, y: set<SubjectVersion>)
    requires Enumerates(a, x) && Enumerates(b, y) && x !! y
    ensures Enumerates(a + b, x + y)
  {
    forall i, j | 0 <= i < j < |a + b| ensures (a + b)[i] != (a + b)[j] {
      if i < |a| <= j {
        assert a[i] in a && b[j - |a|] in b;
      }
    }
  }

  lemma EnumeratesParts(a: seq<Resolved>, x: set<SubjectVersion>, e: Resolved, b: seq<Resolved>, y: set<SubjectVersion>)
    requires Enumerates(KeysOf(a), x) && Enumerates(KeysOf(b), y)
    requires x !! y && Target(e.reference) !in x + y
    ensures Enumerates(KeysOf(a + [e] + b), x + {Target(e.reference)} + y)
  {
    var key := Target(e.reference);
    assert KeysOf(a + [e] + b) == KeysOf(a) + [key] + KeysOf(b);
    EnumeratesConcat(KeysOf(a), x, [key], {key});
    EnumeratesConcat(KeysOf(a) + [key], x + {key}, KeysOf(b), y);
  }

  lemma SeenInParts(seen: set<SubjectVersion>, key: SubjectVersion, mid: set<SubjectVersion>, end: set<SubjectVersion>)
    requires key !in seen && seen + {key} <= mid <= end
    ensures mid - (seen + {key}) + {key} + (end - mid) == end - seen
  {
  }

  lemma Regroup<T>(a: seq<T>, b: seq<T>, c: seq<T>, d: seq<T>)
    ensures a + b + c + d == a + (b + c + d)
  {
  }

  /** The walk appends each newly seen key exactly once, with the text the lookup gives for it. */
  lemma {:induction false} VisitAppends(g: Graph, refs: seq<Reference>, seen: set<SubjectVersion>, acc: seq<Resolved>)
    returns (tail: seq<Resolved>)
    requires Visit(g, refs, seen, acc).Done?
    ensures var o := Visit(g, refs, seen, acc);
            o.resolved == acc + tail && Enumerates(KeysOf(tail), o.seen - seen)
    ensures forall e | e in tail :: Target(e.reference) in g && e.schema == g[Target(e.reference)].schema
    decreases g.Keys - seen, |refs|
  {
    if refs == [] {
      tail := [];
    } else {
      var key := Target(refs[0]);
      if key in seen {
        tail := VisitAppends(g, refs[1..], seen, acc);
      } else {
        var o := Visit(g, refs, seen, acc);
        var inner := Visit(g, g[key].references, seen + {key}, acc);
        var e := Resolved(refs[0], g[key].schema);
        var first := VisitAppends(g, g[key].references, seen + {key}, acc);
        var rest := VisitAppends(g, refs[1..], inner.seen, inner.resolved + [e]);
        tail := first + [e] + rest;
        Regroup(acc, first, [e], rest);
        SeenInParts(seen, key, inner.seen, o.seen);
        EnumeratesParts(first, inner.seen - (seen + {key}), e, rest, o.seen - inner.seen);
      }
    }
  }

  /** Resolution fails exactly when some reachable key is missing; otherwise it lists each reachable
      key exactly once, with the text stored for it. Cycles in the data make no difference. */
  lemma ResolveExact(g: Graph, refs: seq<Reference>)
    ensures match Resolve(g, refs)
            case Missing(r) => Reaches(g, refs, Target(r)) && Target(r) !in g
            case Done(seen, list) =>
              && Distinct(KeysOf(list))
              && (forall k :: k in KeysOf(list) <==> Reaches(g, refs, k))
              && (forall k | Reaches(g, refs, k) :: k in g)
              && (forall e | e in list :: Target(e.reference) in g && e.schema == g[Target(e.reference)].schema)
  {
    match Resolve(g, refs)
    case Missing(r) =>
      VisitReaches(g, refs, {}, [], Target(r));
    case Done(seen, list) =>
      var tail := VisitAppends(g, refs, {}, []);
      VisitCloses(g, refs, {}, []);
      assert list == tail;
      assert ClosedUnder(g, seen) by {
        assert forall k | k in seen :: k in seen - {};
      }
      forall k ensures k in seen <==> Reaches(g, refs, k) {
        if k in seen {
          VisitReaches(g, refs, {}, [], k);
        }
        if Reaches(g, refs, k) {
          var p :| IsPath(g, p) && p[0] in Targets(refs) && p[|p| - 1] == k;
          ClosedContainsReach(g, seen, p);
        }
      }
  }

  // ----- dependency order

  /** Every target of an entry from position `from` on stands earlier in the list. */
  ghost predicate DependenciesFirst(g: Graph, list: seq<Resolved>, from: nat) {
    forall i | from <= i < |list| ::
      KeysOf(list)[i] in g && forall t | t in Targets(g[KeysOf(list)[i]].references) :: t in KeysOf(list)[..i]
  }

  lemma {:induction false} VisitOrders(g: Graph, rank: SubjectVersion -> nat, refs: seq<Reference>, seen: set<SubjectVersion>, acc: seq<Resolved>)
    requires RankedBy(g, rank) && Visit(g, refs, seen, acc).Done?
    // a key that is seen but not yet listed is an ancestor on the current path
    requires forall k | k in seen && k !in KeysOf(acc) :: k in g
    requires forall k, r | k in seen && k !in KeysOf(acc) && r in refs && Target(r) in g :: rank(Target(r)) < rank(k)
    ensures var o := Visit(g, refs, seen, acc);
            acc <= o.resolved && DependenciesFirst(g, o.resolved, |acc|) &&
            forall k | k in o.seen && k !in KeysOf(o.resolved) :: k in seen && k !in KeysOf(acc)
    decreases g.Keys - seen, |refs|
  {
    if refs != [] {
      var key := Target(refs[0]);
      if key in seen {
        VisitOrders(g, rank, refs[1..], seen, acc);
      } else {
        var inner := Visit(g, g[key].references, seen + {key}, acc);
        var e := Resolved(refs[0], g[key].schema);
        VisitOrders(g, rank, g[key].references, seen + {key}, acc);
        VisitCloses(g, g[key].references, seen + {key}, acc);
        var list := inner.resolved + [e];
        forall t | t in Targets(g[key].references)
          ensures t in KeysOf(inner.resolved)
        {
          assert t in inner.seen;
          if t !in KeysOf(inner.resolved) {
            RankOfTarget(g, rank, key, t);
          }
        }
        AppendOrdered(g, inner.resolved, e, |acc|);
        VisitOrders(g, rank, refs[1..], inner.seen, list);
        OrderExtends(g, list, Visit(g, refs, seen, acc).resolved, |acc|);
      }
    }
  }

  lemma AppendOrdered(g: Graph, list: seq<Resolved>, e: Resolved, from: nat)
    requires DependenciesFirst(g, list, from) && Target(e.reference) in g
    requires forall t | t in Targets(g[Target(e.reference)].references) :: t in KeysOf(list)
    ensures DependenciesFirst(g, list + [e], from) && KeysOf(list + [e]) == KeysOf(list) + [Target(e.reference)]
    ensures Target(e.reference) in KeysOf(list + [e]) && forall k | k in KeysOf(list) :: k in KeysOf(list + [e])
  {
    var more := list + [e];
    assert KeysOf(more) == KeysOf(list) + [Target(e.reference)];
    assert KeysOf(more)[|list|] == Target(e.reference);
    forall i | from <= i < |more|
      ensures KeysOf(more)[i] in g && forall t | t in Targets(g[KeysOf(more)[i]].references) :: t in KeysOf(more)[..i]
    {
      assert KeysOf(more)[..i] == KeysOf(list)[..i];
      if i == |list| {
        assert KeysOf(list)[..i] == KeysOf(list);
      }
    }
  }

  lemma RankOfTarget(g: Graph, rank: SubjectVersion -> nat, a: SubjectVersion, b: SubjectVersion)
    requires RankedBy(g, rank) && a in g && b in Targets(g[a].references)
    ensures b in g ==> rank(b) < rank(a)
  {
  }

  lemma OrderExtends(g: Graph, list: seq<Resolved>, more: seq<Resolved>, from: nat)
    requires from <= |list| && list <= more
    requires DependenciesFirst(g, list, from) && DependenciesFirst(g, more, |list|)
    ensures DependenciesFirst(g, more, from)
  {
    forall i | from <= i < |more|
      ensures KeysOf(more)[i] in g && forall t | t in Targets(g[KeysOf(more)[i]].references) :: t in KeysOf(more)[..i]
    {
      if i < |list| {
        assert KeysOf(more)[i] == KeysOf(list)[i] && KeysOf(more)[..i] == KeysOf(list)[..i];
      }
    }
  }

  ghost function ReachSet(g: Graph, k: SubjectVersion): set<SubjectVersion>
    requires k in g
  {
    set x | x in g.Keys && Reaches(g, g[k].references, x)
  }

  lemma ReachSetFalls(g: Graph, a: SubjectVersion, b: SubjectVersion)
    requires Acyclic(g) && a in g && b in g && b in Targets(g[a].references)
    ensures |ReachSet(g, b)| < |ReachSet(g, a)|
  {
    forall x | x in ReachSet(g, b)
      ensures x in ReachSet(g, a)
    {
      ReachesThrough(g, g[a].references, b, x);
    }
    ReachesHere(g, g[a].references, b);
    assert b in ReachSet(g, a) && b !in ReachSet(g, b);
    SubsetSmaller(ReachSet(g, b), ReachSet(g, a));
  }

  /** On a finite acyclic graph the number of reachable keys falls along every reference. */
  lemma AcyclicRanked(g: Graph)
    requires Acyclic(g)
    ensures exists rank :: RankedBy(g, rank)
  {
    ghost var rank := (k: SubjectVersion) => if k in g then |ReachSet(g, k)| else 0;
    forall a, b | a in g && b in g && b in Targets(g[a].references)
      ensures rank(b) < rank(a)
    {
      ReachSetFalls(g, a, b);
    }
    assert RankedBy(g, rank);
  }

  lemma SubsetSmaller<T>(a: set<T>, b: set<T>)
    requires a < b
    ensures |a| < |b|
  {
    assert b == a + (b - a);
    assert b - a != {};
  }

  lemma {:induction false} RankFallsAlongPath(g: Graph, rank: SubjectVersion -> nat, k: SubjectVersion, p: seq<SubjectVersion>)
    requires RankedBy(g, rank) && k in g
    requires IsPath(g, p) && p[0] in Targets(g[k].references) && p[|p| - 1] in g
    ensures rank(p[|p| - 1]) < rank(k)
    decreases p
  {
    if |p| > 1 {
      assert Edge(g, p[0], p[1]);
      assert IsPath(g, p[1..]) by {
        forall i | 0 <= i < |p| - 2 ensures Edge(g, p[1..][i], p[1..][i + 1]) {
          assert Edge(g, p[i + 1], p[i + 2]);
        }
      }
      RankFallsAlongPath(g, rank, p[0], p[1..]);
    }
  }

  lemma RankedAcyclic(g: Graph, rank: SubjectVersion -> nat)
    requires RankedBy(g, rank)
    ensures Acyclic(g)
  {
    forall k | k in g ensures !Reaches(g, g[k].references, k) {
      if Reaches(g, g[k].references, k) {
        var p :| IsPath(g, p) && p[0] in Targets(g[k].references) && p[|p| - 1] == k;
        RankFallsAlongPath(g, rank, k, p);
      }
    }
  }

  /** On an acyclic graph every resolved reference follows all of its own dependencies. */
  lemma ResolveOrdersDependencies(g: Graph, refs: seq<Reference>)
    requires Acyclic(g) && Resolve(g, refs).Done?
    ensures DependenciesFirst(g, Resolve(g, refs).resolved, 0)
  {
    AcyclicRanked(g);
    var rank :| RankedBy(g, rank);
    VisitOrders(g, rank, refs, {}, []);
  }

  // ----- from left to right

  lemma {:induction false} VisitConcat(g: Graph, a: seq<Reference>, b: seq<Reference>, seen: set<SubjectVersion>, acc: seq<Resolved>)
    ensures Visit(g, a + b, seen, acc) ==
            match Visit(g, a, seen, acc)
            case Missing(r) => Missing(r)
            case Done(s, list) => Visit(g, b, s, list)
    decreases g.Keys - seen, |a|
  {
    if a == [] {
      assert a + b == b;
    } else {
      var key := Target(a[0]);
      assert (a + b)[1..] == a[1..] + b;
      if key in seen {
        VisitConcat(g, a[1..], b, seen, acc);
      } else if key in g {
        var inner := Visit(g, g[key].references, seen + {key}, acc);
        if inner.Done? {
          VisitConcat(g, a[1..], b, inner.seen, inner.resolved + [Resolved(a[0], g[key].schema)]);
        }
      }
    }
  }

  /**
    * References are taken from left to right: a reference whose target is missing is the one reported if those before it
    * resolve, and what those before it resolve to comes first.
    */
  lemma ResolveInOrder(g: Graph, before: seq<Reference>, r: Reference, rest: seq<Reference>)
    requires Resolve(g, before).Done?
    ensures Target(r) !in g && Target(r) !in Resolve(g, before).seen ==> Resolve(g, before + ([r] + rest)) == Missing(r)
    ensures var o := Resolve(g, before + ([r] + rest)); o.Done? ==> Resolve(g, before).resolved <= o.resolved
  {
    var first := Resolve(g, before);
    VisitConcat(g, before, [r] + rest, {}, []);
    assert ([r] + rest)[0] == r;
    if Resolve(g, before + ([r] + rest)).Done? {
      var tail := VisitAppends(g, [r] + rest, first.seen, first.resolved);
    }
  }

  /** Every resolved entry is one of the references, or a reference of a schema that was resolved. */
  lemma {:induction false} VisitOrigins(g: Graph, refs: seq<Reference>, seen: set<SubjectVersion>, acc: seq<Resolved>, e: Resolved)
    requires Visit(g, refs, seen, acc).Done? && e in Visit(g, refs, seen, acc).resolved
    ensures e in acc || e.reference in refs ||
            exists k | k in Visit(g, refs, seen, acc).seen && k in g :: e.reference in g[k].references
    decreases g.Keys - seen, |refs|
  {
    if refs != [] {
      var key := Target(refs[0]);
      if key in seen {
        VisitOrigins(g, refs[1..], seen, acc, e);
      } else {
        var inner := Visit(g, g[key].references, seen + {key}, acc);
        VisitOrigins(g, refs[1..], inner.seen, inner.resolved + [Resolved(refs[0], g[key].schema)], e);
        if e in inner.resolved {
          VisitOrigins(g, g[key].references, seen + {key}, acc, e);
        }
      }
    }
  }

  /** The name under which a schema is used is one that a reference to it gives. */
  lemma ResolvedAreReferences(g: Graph, refs: seq<Reference>, e: Resolved)
    requires Resolve(g, refs).Done? && e in Resolve(g, refs).resolved
    ensures e.reference in refs || exists k | k in Resolve(g, refs).seen && k in g :: e.reference in g[k].references
  {
    VisitOrigins(g, refs, {}, [], e);
  }

  // ----- stability

  ghost predicate AgreeOn(g: Graph, h: Graph, keys: set<SubjectVersion>) {
    forall k | k in keys :: k in g && k in h && g[k] == h[k]
  }

  /** The outcome depends only on the records the walk visits. */
  lemma {:induction false} VisitStable(g: Graph, h: Graph, refs: seq<Reference>, seen: set<SubjectVersion>, acc: seq<Resolved>)
    requires Visit(g, refs, seen, acc).Done?
    requires AgreeOn(g, h, Visit(g, refs, seen, acc).seen - seen)
    ensures Visit(h, refs, seen, acc) == Visit(g, refs, seen, acc)
    decreases g.Keys - seen, |refs|
  {
    if refs != [] {
      var key := Target(refs[0]);
      if key in seen {
        VisitStable(g, h, refs[1..], seen, acc);
      } else {
        var o := Visit(g, refs, seen, acc);
        var inner := Visit(g, g[key].references, seen + {key}, acc);
        assert key in o.seen - seen;
        VisitStable(g, h, g[key].references, seen + {key}, acc);
        VisitStable(g, h, refs[1..], inner.seen, inner.resolved + [Resolved(refs[0], g[key].schema)]);
      }
    }
  }

  /** If every reference in a set of keys stays in the set, resolution from inside it succeeds. */
  lemma ClosedResolves(g: Graph, keys: set<SubjectVersion>, refs: seq<Reference>)
    requires ClosedUnder(g, keys) && Targets(refs) <= keys
    ensures Resolve(g, refs).Done? && Resolve(g, refs).seen <= keys
  {
    ResolveExact(g, refs);
    forall k | Reaches(g, refs, k) ensures k in keys {
      var p :| IsPath(g, p) && p[0] in Targets(refs) && p[|p| - 1] == k;
      ClosedContainsReach(g, keys, p);
    }
    if Resolve(g, refs).Done? {
      forall k | k in Resolve(g, refs).seen ensures k in keys {
        VisitReaches(g, refs, {}, [], k);
      }
    }
  }
}
