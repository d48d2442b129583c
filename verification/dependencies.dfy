/** The reverse-dependency tree: a depth-bounded walk over "is referenced by", with a shared `seen` set. */
module Dependencies {
  import opened Resolver

  /** The live referrers of a subject version, empty when the lookup fails; cycles are allowed. */
  type Referrers = SubjectVersion -> seq<SubjectVersion>

  datatype TreeNode = TreeNode(id: SubjectVersion, depth: nat, children: seq<TreeNode>)

  /** The node as built, and the set of keys seen afterwards. */
  function Expand(g: Referrers, id: SubjectVersion, depth: nat, seen: set<SubjectVersion>, maxDepth: nat):
      (r: (TreeNode, set<SubjectVersion>))
    requires depth <= maxDepth
    decreases maxDepth - depth, 0
  {
    if depth >= maxDepth || id in seen then (TreeNode(id, depth, []), seen)
    else
      var (children, after) := ExpandAll(g, g(id), depth + 1, seen + {id}, maxDepth);
      (TreeNode(id, depth, children), after)
  }

  function ExpandAll(g: Referrers, refs: seq<SubjectVersion>, depth: nat, seen: set<SubjectVersion>, maxDepth: nat):
      (r: (seq<TreeNode>, set<SubjectVersion>))
    requires depth <= maxDepth
    decreases maxDepth - depth, 1 + |refs|
  {
    if refs == [] then ([], seen)
    else
      var last := |refs| - 1;
      var (nodes, mid) := ExpandAll(g, refs[..last], depth, seen, maxDepth);
      var (node, after) := Expand(g, refs[last], depth, mid, maxDepth);
      (nodes + [node], after)
  }

  // ----- the walk

  class DependencyWalk {
    const g: Referrers
    const maxDepth: nat
    var seen: set<string>
    ghost var marked: set<SubjectVersion>

    ghost predicate Valid()
      reads this
    {
      seen == set k | k in marked :: Key(k)
    }

    constructor (g: Referrers, maxDepth: nat)
      ensures Valid() && this.g == g && this.maxDepth == maxDepth && marked == {}
    {
      this.g, this.maxDepth, seen, marked := g, maxDepth, {}, {};
    }

    method BuildDependencyTree(id: SubjectVersion, depth: nat) returns (node: TreeNode)
      requires Valid() && depth <= maxDepth
      modifies this
      ensures Valid() && (node, marked) == Expand(g, id, depth, old(marked), maxDepth)
      decreases maxDepth - depth
    {
      node := TreeNode(id, depth, []);
      if depth >= maxDepth {
        return;
      }
      if Key(id) in seen {
        assert id in marked by {
          var k :| k in marked && Key(k) == Key(id);
          KeyInjective(k, id);
        }
        return;
      }
      assert id !in marked;
      seen, marked := seen + {Key(id)}, marked + {id};
      ghost var start := marked;
      var refs := g(id);
      var i := 0;
      while i < |refs|
        invariant Valid() && 0 <= i <= |refs| && node.id == id && node.depth == depth
        invariant (node.children, marked) == ExpandAll(g, refs[..i], depth + 1, start, maxDepth)
      {
        var child := BuildDependencyTree(refs[i], depth + 1);
        assert refs[..i + 1][..i] == refs[..i];
        node := node.(children := node.children + [child]);
        i := i + 1;
      }
      assert refs[..|refs|] == refs;
    }
  }

  method HandleGetDependencyGraph(g: Referrers, subject: string, version: int, maxDepth: int) returns (root: TreeNode)
    ensures root == Expand(g, SubjectVersion(subject, version), 0, {}, if maxDepth <= 0 then 10 else maxDepth).0
  {
    var walk := new DependencyWalk(g, if maxDepth <= 0 then 10 else maxDepth);
    root := walk.BuildDependencyTree(SubjectVersion(subject, version), 0);
  }

  // ----- what the tree shows

  function Ids(node: TreeNode): set<SubjectVersion> {
    {node.id} + AllIds(node.children)
  }

  function AllIds(nodes: seq<TreeNode>): set<SubjectVersion> {
    if nodes == [] then {} else AllIds(nodes[..|nodes| - 1]) + Ids(nodes[|nodes| - 1])
  }

  lemma AllIdsLast(nodes: seq<TreeNode>, node: TreeNode)
    ensures AllIds(nodes + [node]) == AllIds(nodes) + Ids(node)
  {
    assert (nodes + [node])[..|nodes|] == nodes;
  }

  /** Depths count up from the root to at most `maxDepth`, and the children of a node are its referrers, or none. */
  ghost predicate TrueEdges(g: Referrers, node: TreeNode, maxDepth: nat) {
    && node.depth <= maxDepth
    && (node.children == [] || |node.children| == |g(node.id)|)
    && forall i | 0 <= i < |node.children| ::
         && (|node.children| == |g(node.id)| ==> node.children[i].id == g(node.id)[i])
         && node.children[i].depth == node.depth + 1
         && TrueEdges(g, node.children[i], maxDepth)
  }

  ghost predicate TrueNodes(g: Referrers, nodes: seq<TreeNode>, refs: seq<SubjectVersion>, depth: nat, maxDepth: nat) {
    && |nodes| == |refs|
    && forall i | 0 <= i < |nodes| :: nodes[i].id == refs[i] && nodes[i].depth == depth && TrueEdges(g, nodes[i], maxDepth)
  }

  lemma {:induction false} ExpandIsTrue(g: Referrers, id: SubjectVersion, depth: nat, seen: set<SubjectVersion>, maxDepth: nat)
    requires depth <= maxDepth
    ensures var node := Expand(g, id, depth, seen, maxDepth).0;
            node.id == id && node.depth == depth && TrueEdges(g, node, maxDepth)
    decreases maxDepth - depth, 0
  {
    if depth < maxDepth && id !in seen {
      ExpandAllIsTrue(g, g(id), depth + 1, seen + {id}, maxDepth);
    }
  }

  lemma {:induction false} ExpandAllIsTrue(g: Referrers, refs: seq<SubjectVersion>, depth: nat, seen: set<SubjectVersion>,
                                           maxDepth: nat)
    requires depth <= maxDepth
    ensures TrueNodes(g, ExpandAll(g, refs, depth, seen, maxDepth).0, refs, depth, maxDepth)
    decreases maxDepth - depth, 1 + |refs|
  {
    if refs != [] {
      var last := |refs| - 1;
      ExpandAllIsTrue(g, refs[..last], depth, seen, maxDepth);
      ExpandIsTrue(g, refs[last], depth, ExpandAll(g, refs[..last], depth, seen, maxDepth).1, maxDepth);
    }
  }

  /** The keys of the nodes that have children, parents before children. */
  function Expanded(node: TreeNode): seq<SubjectVersion> {
    if node.children == [] then [] else [node.id] + AllExpanded(node.children)
  }

  function AllExpanded(nodes: seq<TreeNode>): seq<SubjectVersion> {
    if nodes == [] then [] else AllExpanded(nodes[..|nodes| - 1]) + Expanded(nodes[|nodes| - 1])
  }

  lemma AllExpandedLast(nodes: seq<TreeNode>, node: TreeNode)
    ensures AllExpanded(nodes + [node]) == AllExpanded(nodes) + Expanded(node)
  {
    assert (nodes + [node])[..|nodes|] == nodes;
  }

  /** Distinct keys, all of them seen after and not before. */
  ghost predicate NewlySeen(keys: seq<SubjectVersion>, before: set<SubjectVersion>, after: set<SubjectVersion>) {
    before <= after && Distinct(keys) && forall k | k in keys :: k in after && k !in before
  }

  lemma NewlySeenConcat(a: seq<SubjectVersion>, b: seq<SubjectVersion>, before: set<SubjectVersion>,
                        mid: set<SubjectVersion>, after: set<SubjectVersion>)
    requires NewlySeen(a, before, mid) && NewlySeen(b, mid, after)
    ensures NewlySeen(a + b, before, after)
  {
    forall i, j | 0 <= i < j < |a + b|
      ensures (a + b)[i] != (a + b)[j]
    {
      if i < |a| <= j {
        assert a[i] in a && b[j - |a|] in b;
      }
    }
  }

  /** No subject version is expanded twice, however often it is met. */
  lemma {:induction false} ExpandedOnce(g: Referrers, id: SubjectVersion, depth: nat, seen: set<SubjectVersion>, maxDepth: nat)
    requires depth <= maxDepth
    ensures var r := Expand(g, id, depth, seen, maxDepth);
            NewlySeen(Expanded(r.0), seen, r.1) && r.1 - seen <= Ids(r.0)
    decreases maxDepth - depth, 0
  {
    if depth < maxDepth && id !in seen {
      var all := ExpandAll(g, g(id), depth + 1, seen + {id}, maxDepth);
      AllExpandedOnce(g, g(id), depth + 1, seen + {id}, maxDepth);
      assert NewlySeen([id], seen, seen + {id});
      NewlySeenConcat([id], AllExpanded(all.0), seen, seen + {id}, all.1);
    }
  }

  lemma {:induction false} AllExpandedOnce(g: Referrers, refs: seq<SubjectVersion>, depth: nat, seen: set<SubjectVersion>,
                                           maxDepth: nat)
    requires depth <= maxDepth
    ensures var r := ExpandAll(g, refs, depth, seen, maxDepth);
            NewlySeen(AllExpanded(r.0), seen, r.1) && r.1 - seen <= AllIds(r.0)
    decreases maxDepth - depth, 1 + |refs|
  {
    if refs != [] {
      var last := |refs| - 1;
      var (nodes, mid) := ExpandAll(g, refs[..last], depth, seen, maxDepth);
      var (node, after) := Expand(g, refs[last], depth, mid, maxDepth);
      AllExpandedOnce(g, refs[..last], depth, seen, maxDepth);
      ExpandedOnce(g, refs[last], depth, mid, maxDepth);
      AllExpandedLast(nodes, node);
      AllIdsLast(nodes, node);
      NewlySeenConcat(AllExpanded(nodes), Expanded(node), seen, mid, after);
    }
  }

  // ----- reachability

  ghost predicate IsChain(g: Referrers, p: seq<SubjectVersion>) {
    p != [] && forall i | 0 <= i < |p| - 1 :: p[i + 1] in g(p[i])
  }

  /** `k` is the root, or refers to it directly or through others. */
  ghost predicate Depends(g: Referrers, root: SubjectVersion, k: SubjectVersion) {
    exists p :: IsChain(g, p) && p[0] == root && p[|p| - 1] == k
  }

  ghost predicate ClosedUp(g: Referrers, s: set<SubjectVersion>) {
    forall k, r | k in s && r in g(k) :: r in s
  }

  lemma {:induction false} ClosedUpHoldsChain(g: Referrers, s: set<SubjectVersion>, p: seq<SubjectVersion>)
    requires ClosedUp(g, s) && IsChain(g, p) && p[0] in s
    ensures p[|p| - 1] in s
  {
    if |p| > 1 {
      var q := p[..|p| - 1];
      forall i | 0 <= i < |q| - 1
        ensures q[i + 1] in g(q[i])
      {
        assert p[i + 1] in g(p[i]);
      }
      ClosedUpHoldsChain(g, s, q);
      assert p[|p| - 2 + 1] in g(p[|p| - 2]);
    }
  }

  lemma DependsOnward(g: Referrers, root: SubjectVersion, k: SubjectVersion, r: SubjectVersion)
    requires Depends(g, root, k) && r in g(k)
    ensures Depends(g, root, r)
  {
    var p :| IsChain(g, p) && p[0] == root && p[|p| - 1] == k;
    var q := p + [r];
    forall i | 0 <= i < |q| - 1
      ensures q[i + 1] in g(q[i])
    {
      assert i + 1 < |p| ==> p[i + 1] in g(p[i]);
    }
    assert IsChain(g, q) && q[0] == root && q[|q| - 1] == r;
  }

  lemma {:induction false} StaysInside(g: Referrers, reach: set<SubjectVersion>, id: SubjectVersion, depth: nat,
                                       seen: set<SubjectVersion>, maxDepth: nat)
    requires depth <= maxDepth && ClosedUp(g, reach) && id in reach
    ensures Ids(Expand(g, id, depth, seen, maxDepth).0) <= reach
    decreases maxDepth - depth, 0
  {
    if depth < maxDepth && id !in seen {
      AllStayInside(g, reach, g(id), depth + 1, seen + {id}, maxDepth);
    }
  }

  lemma {:induction false} AllStayInside(g: Referrers, reach: set<SubjectVersion>, refs: seq<SubjectVersion>, depth: nat,
                                         seen: set<SubjectVersion>, maxDepth: nat)
    requires depth <= maxDepth && ClosedUp(g, reach) && forall r | r in refs :: r in reach
    ensures AllIds(ExpandAll(g, refs, depth, seen, maxDepth).0) <= reach
    decreases maxDepth - depth, 1 + |refs|
  {
    if refs != [] {
      var last := |refs| - 1;
      var (nodes, mid) := ExpandAll(g, refs[..last], depth, seen, maxDepth);
      AllStayInside(g, reach, refs[..last], depth, seen, maxDepth);
      StaysInside(g, reach, refs[last], depth, mid, maxDepth);
      AllIdsLast(nodes, Expand(g, refs[last], depth, mid, maxDepth).0);
    }
  }

  /** Every key shown was seen before, or all its referrers are shown or were seen before. */
  ghost predicate Covered(g: Referrers, shown: set<SubjectVersion>, seen: set<SubjectVersion>) {
    forall k, r | k in shown && k !in seen && r in g(k) :: r in shown || r in seen
  }

  lemma FullSet<T>(a: set<T>, x: T, b: set<T>)
    requires a <= b && x in b && x !in a && |b| <= |a| + 1
    ensures b == a + {x}
  {
    assert b == (a + {x}) + (b - (a + {x}));
  }

  /**
    * `path` are the keys expanded on the way down. If the depth bound cuts a key off, then path and key are all there
    * is to reach, so its referrers have been met already.
    */
  lemma {:induction false} ExpandCovers(g: Referrers, reach: set<SubjectVersion>, path: set<SubjectVersion>,
                                        id: SubjectVersion, depth: nat, seen: set<SubjectVersion>, maxDepth: nat)
    requires depth <= maxDepth && ClosedUp(g, reach) && id in reach && |reach| <= maxDepth + 1
    requires path <= reach && path <= seen && |path| == depth
    ensures Covered(g, Ids(Expand(g, id, depth, seen, maxDepth).0), seen)
    decreases maxDepth - depth, 0
  {
    if id !in seen {
      if depth < maxDepth {
        var nodes := ExpandAll(g, g(id), depth + 1, seen + {id}, maxDepth).0;
        AllCover(g, reach, path + {id}, g(id), depth + 1, seen + {id}, maxDepth);
        AllRefsShown(g, g(id), depth + 1, seen + {id}, maxDepth);
      } else {
        FullSet(path, id, reach);
      }
    }
  }

  lemma {:induction false} AllRefsShown(g: Referrers, refs: seq<SubjectVersion>, depth: nat, seen: set<SubjectVersion>,
                                        maxDepth: nat)
    requires depth <= maxDepth
    ensures forall r | r in refs :: r in AllIds(ExpandAll(g, refs, depth, seen, maxDepth).0)
    decreases |refs|
  {
    if refs != [] {
      var last := |refs| - 1;
      var (nodes, mid) := ExpandAll(g, refs[..last], depth, seen, maxDepth);
      AllRefsShown(g, refs[..last], depth, seen, maxDepth);
      AllIdsLast(nodes, Expand(g, refs[last], depth, mid, maxDepth).0);
      assert refs == refs[..last] + [refs[last]];
    }
  }

  lemma {:induction false} AllCover(g: Referrers, reach: set<SubjectVersion>, path: set<SubjectVersion>,
                                    refs: seq<SubjectVersion>, depth: nat, seen: set<SubjectVersion>, maxDepth: nat)
    requires depth <= maxDepth && ClosedUp(g, reach) && |reach| <= maxDepth + 1
    requires forall r | r in refs :: r in reach
    requires path <= reach && path <= seen && |path| == depth
    ensures Covered(g, AllIds(ExpandAll(g, refs, depth, seen, maxDepth).0), seen)
    decreases maxDepth - depth, 1 + |refs|
  {
    if refs != [] {
      var last := |refs| - 1;
      var (nodes, mid) := ExpandAll(g, refs[..last], depth, seen, maxDepth);
      AllCover(g, reach, path, refs[..last], depth, seen, maxDepth);
      AllExpandedOnce(g, refs[..last], depth, seen, maxDepth);
      ExpandCovers(g, reach, path, refs[last], depth, mid, maxDepth);
      AllIdsLast(nodes, Expand(g, refs[last], depth, mid, maxDepth).0);
    }
  }

  /**
    * With a depth bound of at least the number of dependants, the tree shows exactly the root and everything that
    * depends on it, cycles or not.
    */
  lemma TreeShowsDependants(g: Referrers, root: SubjectVersion, reach: set<SubjectVersion>, maxDepth: nat)
    requires forall k :: k in reach <==> Depends(g, root, k)
    requires |reach| - 1 <= maxDepth
    ensures Ids(Expand(g, root, 0, {}, maxDepth).0) == reach
  {
    var shown := Ids(Expand(g, root, 0, {}, maxDepth).0);
    assert IsChain(g, [root]);
    assert Depends(g, root, root);
    forall k, r | k in reach && r in g(k)
      ensures r in reach
    {
      DependsOnward(g, root, k, r);
    }
    StaysInside(g, reach, root, 0, {}, maxDepth);
    ExpandCovers(g, reach, {}, root, 0, {}, maxDepth);
    forall k | k in reach
      ensures k in shown
    {
      var p :| IsChain(g, p) && p[0] == root && p[|p| - 1] == k;
      ClosedUpHoldsChain(g, shown, p);
    }
  }

  // ----- what a depth bound promises, exactly

  function Shown(g: Referrers, root: SubjectVersion, maxDepth: nat): set<SubjectVersion> {
    Ids(Expand(g, root, 0, {}, maxDepth).0)
  }

  /** A chain of at most `d` references leads from `k` to the root. */
  ghost predicate Within(g: Referrers, root: SubjectVersion, k: SubjectVersion, d: nat) {
    exists p :: IsChain(g, p) && p[0] == root && p[|p| - 1] == k && |p| - 1 <= d
  }

  /** The tree shows every dependant within its depth bound. */
  ghost predicate ShowsWithin(g: Referrers, root: SubjectVersion, d: nat) {
    forall k | Within(g, root, k, d) :: k in Shown(g, root, d)
  }

  /** The root with its `n` dependants. */
  ghost predicate HasDependants(g: Referrers, root: SubjectVersion, reach: set<SubjectVersion>, n: nat) {
    (forall k :: k in reach <==> Depends(g, root, k)) && |reach| == n + 1
  }

  lemma DeepTreeShows(g: Referrers, root: SubjectVersion, reach: set<SubjectVersion>, n: nat, d: nat)
    requires HasDependants(g, root, reach, n) && d >= n
    ensures ShowsWithin(g, root, d)
  {
    TreeShowsDependants(g, root, reach, d);
    forall k | Within(g, root, k, d)
      ensures k in Shown(g, root, d)
    {
      assert Depends(g, root, k);
    }
  }

  // ----- bounds of at most two levels

  /** At the bound every key becomes a leaf and nothing is marked. */
  lemma {:induction false} LeavesAtBound(g: Referrers, refs: seq<SubjectVersion>, seen: set<SubjectVersion>, maxDepth: nat)
    ensures ExpandAll(g, refs, maxDepth, seen, maxDepth).1 == seen
  {
    if refs != [] {
      LeavesAtBound(g, refs[..|refs| - 1], seen, maxDepth);
    }
  }

  /** One level above the bound every key met is marked, and the referrers of every newly marked key are shown. */
  lemma {:induction false} LevelAboveBound(g: Referrers, refs: seq<SubjectVersion>, seen: set<SubjectVersion>, depth: nat)
    ensures var (nodes, after) := ExpandAll(g, refs, depth, seen, depth + 1);
            && seen <= after && (forall r | r in refs :: r in after)
            && (forall k, r | k in after && k !in seen && r in g(k) :: r in AllIds(nodes))
  {
    if refs != [] {
      var init, id := refs[..|refs| - 1], refs[|refs| - 1];
      var (nodes, mid) := ExpandAll(g, init, depth, seen, depth + 1);
      var node := Expand(g, id, depth, mid, depth + 1).0;
      assert refs == init + [id];
      LevelAboveBound(g, init, seen, depth);
      LeavesAtBound(g, g(id), mid + {id}, depth + 1);
      AllRefsShown(g, g(id), depth + 1, mid + {id}, depth + 1);
      AllIdsLast(nodes, node);
    }
  }

  lemma RootShown(g: Referrers, root: SubjectVersion, d: nat)
    ensures root in Shown(g, root, d)
    ensures d > 0 ==> Shown(g, root, d) == {root} + AllIds(ExpandAll(g, g(root), 1, {} + {root}, d).0)
  {
  }

  lemma ShallowTreeShows(g: Referrers, root: SubjectVersion, d: nat)
    requires d <= 2
    ensures ShowsWithin(g, root, d)
  {
    RootShown(g, root, d);
    forall k | Within(g, root, k, d)
      ensures k in Shown(g, root, d)
    {
      var p :| IsChain(g, p) && p[0] == root && p[|p| - 1] == k && |p| - 1 <= d;
      if |p| > 1 {
        assert p[1] in g(p[0]);
        AllRefsShown(g, g(root), 1, {} + {root}, d);
      }
      if |p| == 3 {
        assert p[2] in g(p[1]);
        LevelAboveBound(g, g(root), {} + {root}, 1);
      }
    }
  }

  // ----- graphs that need more

  function At(version: int): SubjectVersion {
    SubjectVersion("s", version)
  }

  function FirstKeys(n: nat): set<SubjectVersion> {
    if n == 0 then {At(0)} else FirstKeys(n - 1) + {At(n)}
  }

  lemma {:induction false} FirstKeysExact(n: nat)
    ensures |FirstKeys(n)| == n + 1
    ensures forall k :: k in FirstKeys(n) <==> k.subject == "s" && 0 <= k.version <= n
  {
    if n > 0 {
      FirstKeysExact(n - 1);
      assert At(n) !in FirstKeys(n - 1);
      assert forall k: SubjectVersion :: k.subject == "s" && k.version == n ==> k == At(n);
    } else {
      assert forall k: SubjectVersion :: k.subject == "s" && k.version == 0 ==> k == At(0);
    }
  }

  /** The graph has the first `n + 1` keys, all of which depend on the first. */
  ghost predicate Rooted(g: Referrers, n: nat) {
    && (forall k | k in FirstKeys(n) :: Depends(g, At(0), k))
    && (forall k, r | k in FirstKeys(n) && r in g(k) :: r in FirstKeys(n))
  }

  lemma RootedHasDependants(g: Referrers, n: nat)
    requires Rooted(g, n)
    ensures HasDependants(g, At(0), FirstKeys(n), n)
  {
    FirstKeysExact(n);
    forall k | Depends(g, At(0), k)
      ensures k in FirstKeys(n)
    {
      var p :| IsChain(g, p) && p[0] == At(0) && p[|p| - 1] == k;
      ClosedUpHoldsChain(g, FirstKeys(n), p);
    }
  }

  /** From key `from` up to key `to`, each is referred to by the next only. */
  ghost predicate Line(g: Referrers, from: nat, to: nat) {
    forall i: nat | from <= i < to :: g(At(i)) == [At(i + 1)]
  }

  /** Going down a line from a level equal to the key's number, the bound cuts it off before key `d + 1`. */
  lemma {:induction false} LineIsCut(g: Referrers, i: nat, d: nat, seen: set<SubjectVersion>)
    requires i <= d && Line(g, i, d)
    ensures At(d + 1) !in Ids(Expand(g, At(i), i, seen, d).0)
    decreases d - i
  {
    if i < d && At(i) !in seen {
      LineIsCut(g, i + 1, d, seen + {At(i)});
      ExpandAllOfOne(g, At(i + 1), i + 1, seen + {At(i)}, d);
    }
  }

  lemma ExpandAllOfOne(g: Referrers, id: SubjectVersion, depth: nat, seen: set<SubjectVersion>, maxDepth: nat)
    requires depth <= maxDepth
    ensures var node := Expand(g, id, depth, seen, maxDepth);
            ExpandAll(g, [id], depth, seen, maxDepth) == ([node.0], node.1) && AllIds([node.0]) == Ids(node.0)
  {
    var node := Expand(g, id, depth, seen, maxDepth);
    var none: seq<TreeNode> := [];
    assert [id][..0] == [];
    assert ExpandAll(g, [], depth, seen, maxDepth) == (none, seen);
    assert none + [node.0] == [node.0];
    AllIdsLast(none, node.0);
  }

  lemma {:induction false} LineDepends(g: Referrers, from: nat, i: nat)
    requires Depends(g, At(0), At(from)) && from <= i && Line(g, from, i)
    ensures Depends(g, At(0), At(i))
  {
    if from < i {
      LineDepends(g, from, i - 1);
      DependsOnward(g, At(0), At(i - 1), At(i));
    }
  }

  lemma RootDepends(g: Referrers)
    ensures Depends(g, At(0), At(0))
  {
    assert IsChain(g, [At(0)]);
  }

  /** v0 is used by v1, v1 by v2, and so on to vn. */
  function Chain(n: nat, k: SubjectVersion): seq<SubjectVersion> {
    if k.subject == "s" && 0 <= k.version < n then [At(k.version + 1)] else []
  }

  lemma ChainIsRooted(n: nat)
    ensures Rooted(k => Chain(n, k), n) && Line(k => Chain(n, k), 0, n)
  {
    var g: Referrers := k => Chain(n, k);
    FirstKeysExact(n);
    assert Line(g, 0, n);
    RootDepends(g);
    forall k | k in FirstKeys(n)
      ensures Depends(g, At(0), k)
    {
      LineDepends(g, 0, k.version);
      assert k == At(k.version);
    }
  }

  /**
    * v0 is used by v1, v2 and the keys above v(d+1); v1 by v2; and v2, v3, ... up to v(d) each by the next. The detour
    * through v1 uses up one level.
    */
  function Detour(n: nat, d: nat, k: SubjectVersion): seq<SubjectVersion> {
    if k.subject != "s" then []
    else if k.version == 0 then [At(1), At(2)] + Others(d + 2, n)
    else if 1 <= k.version <= d then [At(k.version + 1)]
    else []
  }

  function Others(from: nat, n: nat): (r: seq<SubjectVersion>)
    ensures forall k :: k in r <==> k.subject == "s" && from <= k.version <= n
    decreases n + 1 - from
  {
    if from > n then []
    else
      assert forall k: SubjectVersion :: k.subject == "s" && k.version == from ==> k == At(from);
      [At(from)] + Others(from + 1, n)
  }

  lemma DetourStays(n: nat, d: nat, k: SubjectVersion, r: SubjectVersion)
    requires 1 <= d < n && k in FirstKeys(n) && r in Detour(n, d, k)
    ensures r in FirstKeys(n)
  {
    FirstKeysExact(n);
    if k.version == 0 {
      assert r in [At(1), At(2)] || r in Others(d + 2, n);
    }
  }

  lemma DetourReaches(g: Referrers, n: nat, d: nat, k: SubjectVersion)
    requires 1 <= d < n && k in FirstKeys(n) && g(At(0)) == [At(1), At(2)] + Others(d + 2, n) && Line(g, 1, d + 1)
    ensures Depends(g, At(0), k)
  {
    FirstKeysExact(n);
    RootDepends(g);
    assert k == At(k.version);
    if 1 <= k.version <= d + 1 {
      DependsOnward(g, At(0), At(0), At(1));
      LineDepends(g, 1, k.version);
    } else if k.version > d + 1 {
      assert k in Others(d + 2, n);
      DependsOnward(g, At(0), At(0), k);
    }
  }

  lemma DetourIsRooted(n: nat, d: nat)
    requires 1 <= d < n
    ensures Rooted(k => Detour(n, d, k), n) && Line(k => Detour(n, d, k), 1, d + 1)
  {
    var g: Referrers := k => Detour(n, d, k);
    assert Line(g, 1, d + 1);
    forall k | k in FirstKeys(n)
      ensures Depends(g, At(0), k)
    {
      DetourReaches(g, n, d, k);
    }
    forall k, r | k in FirstKeys(n) && r in g(k)
      ensures r in FirstKeys(n)
    {
      DetourStays(n, d, k, r);
    }
  }

  /** By way of v2 the last key of the line is `d` references away. */
  lemma DetourIsNear(n: nat, d: nat)
    requires 1 <= d < n
    ensures Within(k => Detour(n, d, k), At(0), At(d + 1), d)
  {
    var g: Referrers := k => Detour(n, d, k);
    var p := seq(d + 1, i requires 0 <= i <= d => if i == 0 then At(0) else At(i + 1));
    forall i | 0 <= i < |p| - 1
      ensures p[i + 1] in g(p[i])
    {
      assert i == 0 ==> At(2) in [At(1), At(2)] + Others(d + 2, n);
    }
    assert IsChain(g, p) && p[0] == At(0) && p[|p| - 1] == At(d + 1);
  }

  /** The line is cut off below v1, and v2, met again one level below the root, is not expanded a second time. */
  lemma {:induction false} DetourHides(g: Referrers, n: nat, d: nat, refs: seq<SubjectVersion>)
    requires 3 <= d < n && Line(g, 1, d) && |refs| >= 1 && refs[0] == At(1)
    requires forall i | 1 <= i < |refs| :: refs[i] == At(2) || (refs[i] != At(d + 1) && g(refs[i]) == [])
    ensures var (nodes, after) := ExpandAll(g, refs, 1, {} + {At(0)}, d);
            At(2) in after && At(d + 1) !in AllIds(nodes)
  {
    var seen := {} + {At(0)};
    var init, id := refs[..|refs| - 1], refs[|refs| - 1];
    if |refs| == 1 {
      assert refs == [At(1)];
      LineIsCut(g, 1, d, seen);
      ExpandAllOfOne(g, At(1), 1, seen, d);
      SecondMarked(g, d, seen);
    } else {
      var (nodes, mid) := ExpandAll(g, init, 1, seen, d);
      DetourHides(g, n, d, init);
      AllIdsLast(nodes, Expand(g, id, 1, mid, d).0);
      assert ExpandAll(g, [], 2, mid + {id}, d) == ([], mid + {id});
    }
  }

  lemma SecondMarked(g: Referrers, d: nat, seen: set<SubjectVersion>)
    requires d >= 3 && Line(g, 1, d) && At(1) !in seen
    ensures At(2) in Expand(g, At(1), 1, seen, d).1
  {
    ExpandAllOfOne(g, At(2), 2, seen + {At(1)}, d);
    if At(2) !in seen {
      AllExpandedOnce(g, g(At(2)), 3, seen + {At(1)} + {At(2)}, d);
    }
  }

  lemma DetourMisses(n: nat, d: nat)
    requires 3 <= d < n
    ensures HasDependants(k => Detour(n, d, k), At(0), FirstKeys(n), n) && !ShowsWithin(k => Detour(n, d, k), At(0), d)
  {
    var g: Referrers := k => Detour(n, d, k);
    DetourIsRooted(n, d);
    RootedHasDependants(g, n);
    DetourIsNear(n, d);
    var refs := g(At(0));
    forall i | 1 <= i < |refs|
      ensures refs[i] == At(2) || (refs[i] != At(d + 1) && g(refs[i]) == [])
    {
      if i >= 2 {
        assert refs[i] == Others(d + 2, n)[i - 2];
        assert refs[i] in Others(d + 2, n);
      }
    }
    DetourHides(g, n, d, refs);
    RootShown(g, At(0), d);
  }

  /**
    * The depth bound as a promise: among all graphs with `n` dependants, the tree of depth `d` always shows every dependant
    * at most `d` references away, if and only if `d` is at most two or at least `n`.
    */
  lemma DepthPromiseExactly(n: nat, d: nat)
    ensures (forall g, root, reach | HasDependants(g, root, reach, n) :: ShowsWithin(g, root, d)) <==> d <= 2 || d >= n
  {
    if d <= 2 || d >= n {
      forall g, root, reach | HasDependants(g, root, reach, n)
        ensures ShowsWithin(g, root, d)
      {
        if d <= 2 {
          ShallowTreeShows(g, root, d);
        } else {
          DeepTreeShows(g, root, reach, n, d);
        }
      }
    } else {
      DetourMisses(n, d);
    }
  }

  lemma ChainIsCut(n: nat, d: nat)
    requires d < n
    ensures HasDependants(k => Chain(n, k), At(0), FirstKeys(n), n) && Shown(k => Chain(n, k), At(0), d) != FirstKeys(n)
  {
    var g: Referrers := k => Chain(n, k);
    ChainIsRooted(n);
    RootedHasDependants(g, n);
    FirstKeysExact(n);
    LineIsCut(g, 0, d, {});
    assert At(d + 1) in FirstKeys(n);
  }

  /** The tree of depth `d` always shows all of `n` dependants if and only if `d` is at least `n`. */
  lemma FullTreeExactly(n: nat, d: nat)
    ensures (forall g, root, reach | HasDependants(g, root, reach, n) :: Shown(g, root, d) == reach) <==> d >= n
  {
    if d >= n {
      forall g, root, reach | HasDependants(g, root, reach, n)
        ensures Shown(g, root, d) == reach
      {
        TreeShowsDependants(g, root, reach, d);
      }
    } else {
      ChainIsCut(n, d);
    }
  }
}
