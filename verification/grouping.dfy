/**
 * The skeleton analysis script: the graph drawn for a skeleton, whose
 * nodes are named after their smiles with an occurrence suffix, and the
 * first-fit grouping of synthetic trees into isomorphism classes.
 */
module SkeletonAnalysis {
  import opened Basics

  // ---------------------------------------------------------------------
  // Node names

  /** The decimal digits of n, as Python's `f"{n}"` writes them. */
  function Decimal(n: nat): (s: string)
    ensures |s| > 0 && forall i :: 0 <= i < |s| ==> '0' <= s[i] <= '9'
    ensures n < 10 <==> |s| == 1
  {
    var d := ['0' + (n % 10) as char];
    if n < 10 then d else Decimal(n / 10) + d
  }

  /** Different numbers have different decimal representations. */
  lemma {:induction false} DecimalInjective(a: nat, b: nat)
    requires Decimal(a) == Decimal(b)
    ensures a == b
  {
    var sa, sb := Decimal(a), Decimal(b);
    assert sa[|sa| - 1] == sb[|sb| - 1];
    assert a % 10 == b % 10;
    if a >= 10 && b >= 10 {
      assert Decimal(a / 10) == sa[..|sa| - 1] == sb[..|sb| - 1] == Decimal(b / 10);
      DecimalInjective(a / 10, b / 10);
    }
  }

  /** How many of the nodes before position i carry the smiles of node i. */
  function Earlier(smiles: seq<string>, i: nat): nat
    requires i < |smiles|
  {
    multiset(smiles[..i])[smiles[i]]
  }

  /** The name of node i: its smiles, followed by ":c" for its c-th repeat (c >= 1). */
  function Name(smiles: seq<string>, i: nat): (name: string)
    requires i < |smiles|
    ensures Earlier(smiles, i) == 0 ==> name == smiles[i]
    ensures Earlier(smiles, i) > 0 ==> name == smiles[i] + ":" + Decimal(Earlier(smiles, i))
  {
    var c := Earlier(smiles, i);
    if c == 0 then smiles[i] else smiles[i] + ":" + Decimal(c)
  }

  /** No smiles holds a colon. */
  predicate ColonFree(smiles: seq<string>) {
    forall i :: 0 <= i < |smiles| ==> ':' !in smiles[i]
  }

  /** Nodes with the same smiles have different numbers of earlier namesakes. */
  lemma EarlierGrows(smiles: seq<string>, i: nat, j: nat)
    requires i < j < |smiles| && smiles[i] == smiles[j]
    ensures Earlier(smiles, i) < Earlier(smiles, j)
  {
    assert smiles[..j] == smiles[..i] + smiles[i..j];
    assert smiles[i..j][0] == smiles[i];
    assert multiset(smiles[..j]) == multiset(smiles[..i]) + multiset(smiles[i..j]);
  }

  /** While no smiles holds a colon, different nodes get different names. */
  lemma NamesDistinct(smiles: seq<string>, i: nat, j: nat)
    requires ColonFree(smiles) && i < j < |smiles|
    ensures Name(smiles, i) != Name(smiles, j)
  {
    var ci, cj := Earlier(smiles, i), Earlier(smiles, j);
    var si, sj := smiles[i], smiles[j];
    if si == sj {
      EarlierGrows(smiles, i, j);
    }
    if ci > 0 && cj > 0 && Name(smiles, i) == Name(smiles, j) {
      var ni, nj := si + ":" + Decimal(ci), sj + ":" + Decimal(cj);
      assert ni[|si|] == ':' && nj[|sj|] == ':';
      assert si == ni[..|si|] == nj[..|sj|] == sj;
      assert Decimal(ci) == ni[|si| + 1..] == nj[|sj| + 1..] == Decimal(cj);
      DecimalInjective(ci, cj);
    }
  }

  /**
   * The node loop of `skeleton2graph`: `count[s]` is how many nodes carry
   * smiles s, and `lookup[i]` is the name of node i.
   */
  method NameNodes(smiles: seq<string>) returns (count: map<string, nat>, lookup: map<nat, string>)
    ensures forall s :: s in count <==> s in smiles
    ensures forall s :: s in count ==> count[s] == multiset(smiles)[s]
    ensures forall i: nat :: i in lookup <==> i < |smiles|
    ensures forall i :: 0 <= i < |smiles| ==> lookup[i] == Name(smiles, i)
  {
    ghost var names := NameList(smiles, |smiles|);
    NameListLength(smiles, |smiles|);
    count, lookup := map[], map[];
    for i := 0 to |smiles|
      invariant Counted(smiles[..i], count)
      invariant LookedUp(names, i, lookup)
    {
      var s := smiles[i];
      var name := NextName(count, s);
      NameOfCount(smiles, i, count);
      NameListAt(smiles, |smiles|, i);
      CountedStep(smiles, i, count);
      LookupStep(names, i, lookup);
      count := Bump(count, s);
      lookup := lookup[i := name];
    }
    NamedAll(smiles, count, lookup);
  }

  /** Once every node is counted and looked up, count and lookup say what `NameNodes` promises. */
  lemma NamedAll(smiles: seq<string>, count: map<string, nat>, lookup: map<nat, string>)
    requires Counted(smiles[..|smiles|], count)
    requires |NameList(smiles, |smiles|)| == |smiles| && LookedUp(NameList(smiles, |smiles|), |smiles|, lookup)
    ensures forall s :: s in count <==> s in smiles
    ensures forall s :: s in count ==> count[s] == multiset(smiles)[s]
    ensures forall i: nat :: i in lookup <==> i < |smiles|
    ensures forall i :: 0 <= i < |smiles| ==> lookup[i] == Name(smiles, i)
  {
    assert smiles[..|smiles|] == smiles;
    forall i | 0 <= i < |smiles|
      ensures lookup[i] == Name(smiles, i)
    {
      NameListAt(smiles, |smiles|, i);
    }
  }

  /** The name the node loop gives the next node with smiles s: s itself the first time, "s:c" after c earlier ones. */
  function NextName(count: map<string, nat>, s: string): string {
    if s in count then s + ":" + Decimal(count[s]) else s
  }

  /** One more occurrence of s. */
  function Bump(count: map<string, nat>, s: string): map<string, nat> {
    count[s := (if s in count then count[s] else 0) + 1]
  }

  /** The names of the first n nodes, in node order. */
  ghost function NameList(smiles: seq<string>, n: nat): seq<string>
    requires n <= |smiles|
  {
    if n == 0 then [] else NameList(smiles, n - 1) + [Name(smiles, n - 1)]
  }

  lemma {:induction false} NameListLength(smiles: seq<string>, n: nat)
    requires n <= |smiles|
    ensures |NameList(smiles, n)| == n
  {
    if n > 0 {
      NameListLength(smiles, n - 1);
    }
  }

  /** Entry k of the list is the name of node k. */
  lemma {:induction false} NameListAt(smiles: seq<string>, n: nat, k: nat)
    requires k < n <= |smiles|
    ensures |NameList(smiles, n)| == n && NameList(smiles, n)[k] == Name(smiles, k)
  {
    NameListLength(smiles, n);
    if k < n - 1 {
      NameListAt(smiles, n - 1, k);
    }
  }

  /** count holds, for each smiles in xs, how many times it occurs there. */
  ghost predicate Counted(xs: seq<string>, count: map<string, nat>) {
    && (forall s :: s in count <==> s in xs)
    && (forall s :: s in count ==> count[s] == multiset(xs)[s])
  }

  /** lookup maps each of the first i nodes to its name. */
  ghost predicate LookedUp(names: seq<string>, i: nat, lookup: map<nat, string>)
    requires i <= |names|
  {
    && (forall k: nat :: k in lookup <==> k < i)
    && (forall k :: 0 <= k < i ==> lookup[k] == names[k])
  }

  /** Counting the smiles of node i. */
  lemma CountedStep(smiles: seq<string>, i: nat, count: map<string, nat>)
    requires i < |smiles| && Counted(smiles[..i], count)
    ensures Counted(smiles[..i + 1], Bump(count, smiles[i]))
  {
    var xs, s := smiles[..i], smiles[i];
    assert smiles[..i + 1] == xs + [s];
    assert multiset(xs + [s]) == multiset(xs) + multiset{s};
    forall x
      ensures x in xs + [s] <==> x in xs || x == s
    {
      if x in xs + [s] && x != s {
        var k :| 0 <= k < |xs + [s]| && (xs + [s])[k] == x;
        assert xs[k] == x;
      }
    }
  }

  /** Looking up one more name. */
  lemma LookupStep(names: seq<string>, i: nat, lookup: map<nat, string>)
    requires i < |names| && LookedUp(names, i, lookup)
    ensures LookedUp(names, i + 1, lookup[i := names[i]])
  {
  }

  /** With the first i nodes counted, the loop builds the name of node i. */
  lemma NameOfCount(smiles: seq<string>, i: nat, count: map<string, nat>)
    requires i < |smiles| && Counted(smiles[..i], count)
    ensures NextName(count, smiles[i]) == Name(smiles, i)
  {
    var s := smiles[i];
    assert Earlier(smiles, i) == multiset(smiles[..i])[s];
    assert s in smiles[..i] <==> multiset(smiles[..i])[s] > 0;
  }

  // ---------------------------------------------------------------------
  // The graph

  /** A directed multigraph: its node names and its edges, parallel edges kept. */
  class MultiDiGraph {
    var nodes: set<string>
    var edges: seq<(string, string)>

    constructor ()
      ensures nodes == {} && edges == []
    {
      nodes := {};
      edges := [];
    }

    /** `add_node`: adding a present name changes nothing. */
    method AddNode(n: string)
      modifies this
      ensures nodes == old(nodes) + {n} && edges == old(edges)
    {
      nodes := nodes + {n};
    }

    /** `add_edge`: adds both ends and one more edge. */
    method AddEdge(u: string, v: string)
      modifies this
      ensures nodes == old(nodes) + {u, v} && edges == old(edges) + [(u, v)]
    {
      nodes := nodes + {u, v};
      edges := edges + [(u, v)];
    }
  }

  /** The names of the first i nodes. */
  function Names(smiles: seq<string>, i: nat): set<string>
    requires i <= |smiles|
  {
    set k | 0 <= k < i :: Name(smiles, k)
  }

  /** One more node adds its name. */
  lemma NamesStep(smiles: seq<string>, i: nat)
    requires i < |smiles|
    ensures Names(smiles, i + 1) == Names(smiles, i) + {Name(smiles, i)}
  {
  }

  /** Every node's name is among the names. */
  lemma NameIn(smiles: seq<string>, i: nat, n: nat)
    requires i < n <= |smiles|
    ensures Name(smiles, i) in Names(smiles, n)
  {
  }

  /** One skeleton edge between two named nodes: both names are already nodes, so only the edge is new. */
  method AddNamedEdge(g: MultiDiGraph, smiles: seq<string>, lookup: map<nat, string>, a: nat, b: nat)
    requires a < |smiles| && b < |smiles|
    requires a in lookup && lookup[a] == Name(smiles, a)
    requires b in lookup && lookup[b] == Name(smiles, b)
    requires g.nodes == Names(smiles, |smiles|)
    modifies g
    ensures g.nodes == old(g.nodes) && g.edges == old(g.edges) + [(Name(smiles, a), Name(smiles, b))]
  {
    NameIn(smiles, a, |smiles|);
    NameIn(smiles, b, |smiles|);
    g.AddEdge(lookup[a], lookup[b]);
  }

  /** Every skeleton edge joins two of the n listed nodes. */
  predicate EdgesInRange(n: nat, edges: seq<(nat, nat)>) {
    forall k :: 0 <= k < |edges| ==> edges[k].0 < n && edges[k].1 < n
  }

  /** One more edge in range extends a prefix in range. */
  lemma InRangeStep(n: nat, edges: seq<(nat, nat)>, k: nat)
    requires k < |edges| && EdgesInRange(n, edges[..k])
    requires edges[k].0 < n && edges[k].1 < n
    ensures EdgesInRange(n, edges[..k + 1])
  {
    var pre, next := edges[..k], edges[..k + 1];
    forall j | 0 <= j < |next|
      ensures next[j].0 < n && next[j].1 < n
    {
      if j < k {
        assert next[j] == pre[j];
      }
    }
  }

  /** The graph edges of the skeleton edges: each end replaced by its node name, in order. */
  function NamedEdges(smiles: seq<string>, edges: seq<(nat, nat)>): (r: seq<(string, string)>)
    requires EdgesInRange(|smiles|, edges)
    ensures |r| == |edges|
    ensures forall k :: 0 <= k < |edges| ==> r[k] == (Name(smiles, edges[k].0), Name(smiles, edges[k].1))
  {
    if edges == [] then []
    else
      var init := edges[..|edges| - 1];
      var (a, b) := edges[|edges| - 1];
      assert forall k :: 0 <= k < |init| ==> init[k] == edges[k];
      NamedEdges(smiles, init) + [(Name(smiles, a), Name(smiles, b))]
  }

  /** Naming one more skeleton edge appends its named edge. */
  lemma NamedEdgesStep(smiles: seq<string>, edges: seq<(nat, nat)>, k: nat)
    requires k < |edges| && EdgesInRange(|smiles|, edges[..k]) && EdgesInRange(|smiles|, edges[..k + 1])
    ensures edges[k].0 < |smiles| && edges[k].1 < |smiles|
    ensures NamedEdges(smiles, edges[..k + 1]) == NamedEdges(smiles, edges[..k]) + [(Name(smiles, edges[k].0), Name(smiles, edges[k].1))]
  {
    var next := edges[..k + 1];
    assert next[k] == edges[k];
    assert next[..k] == edges[..k];
  }

  /** The edge loop of `skeleton2graph`: adds one edge per skeleton edge, between the looked-up names. */
  method AddEdges(g: MultiDiGraph, smiles: seq<string>, lookup: map<nat, string>, edges: seq<(nat, nat)>) returns (ok: bool)
    requires forall i :: 0 <= i < |smiles| ==> i in lookup && lookup[i] == Name(smiles, i)
    requires g.nodes == Names(smiles, |smiles|)
    modifies g
    ensures ok <==> EdgesInRange(|smiles|, edges)
    ensures ok ==> g.nodes == Names(smiles, |smiles|) && g.edges == old(g.edges) + NamedEdges(smiles, edges)
  {
    ghost var e0 := g.edges;
    for k := 0 to |edges|
      invariant EdgesInRange(|smiles|, edges[..k])
      invariant g.nodes == Names(smiles, |smiles|)
      invariant g.edges == e0 + NamedEdges(smiles, edges[..k])
    {
      var (a, b) := edges[k];
      if a >= |smiles| || b >= |smiles| {
        return false;
      }
      InRangeStep(|smiles|, edges, k);
      NamedEdgesStep(smiles, edges, k);
      AddNamedEdge(g, smiles, lookup, a, b);
    }
    assert edges[..|edges|] == edges;
    return true;
  }

  /**
   * `skeleton2graph`: one graph node per node name and one edge per
   * skeleton edge, between the names of its ends; an edge index outside
   * the node list raises.
   */
  method SkeletonToGraph(smiles: seq<string>, edges: seq<(nat, nat)>) returns (r: Result<MultiDiGraph>)
    ensures r.Fail? <==> !EdgesInRange(|smiles|, edges)
    ensures r.Ok? ==> fresh(r.value) && r.value.nodes == Names(smiles, |smiles|)
    ensures r.Ok? ==> r.value.edges == NamedEdges(smiles, edges)
  {
    var g := new MultiDiGraph();
    var count, lookup := NameNodes(smiles);
    for i := 0 to |smiles|
      invariant g.nodes == Names(smiles, i) && g.edges == []
    {
      NamesStep(smiles, i);
      g.AddNode(lookup[i]);
    }
    var ok := AddEdges(g, smiles, lookup, edges);
    if !ok {
      return Fail;
    }
    return Ok(g);
  }

  // ---------------------------------------------------------------------
  // First-fit grouping

  /** One entry of the `skeletons` dict: a key tree and the trees listed under it, by position. */
  datatype Group = Group(key: nat, members: seq<nat>)

  /** The number of trees listed over all groups. */
  function Total(groups: seq<Group>): nat {
    if groups == [] then 0 else Total(groups[..|groups| - 1]) + |groups[|groups| - 1].members|
  }

  /** Adding one tree to group g adds one to the total. */
  lemma {:induction false} TotalBump(groups: seq<Group>, g: nat, x: nat)
    requires g < |groups|
    ensures Total(groups[g := Group(groups[g].key, groups[g].members + [x])]) == Total(groups) + 1
  {
    var gs := groups[g := Group(groups[g].key, groups[g].members + [x])];
    if g < |groups| - 1 {
      assert gs[..|gs| - 1] == groups[..|groups| - 1][g := Group(groups[g].key, groups[g].members + [x])];
      TotalBump(groups[..|groups| - 1], g, x);
    } else {
      assert gs[..|gs| - 1] == groups[..|groups| - 1];
    }
  }

  /** Tree x is listed in some group. */
  predicate Listed(groups: seq<Group>, x: nat) {
    exists g :: 0 <= g < |groups| && x in groups[g].members
  }

  /** Each group is non-empty and starts with its key. */
  predicate KeysFirst(groups: seq<Group>) {
    forall g :: 0 <= g < |groups| ==> |groups[g].members| > 0 && groups[g].members[0] == groups[g].key
  }

  /** Only the first n trees are listed. */
  predicate Bounded(groups: seq<Group>, n: nat) {
    forall g, x :: 0 <= g < |groups| && x in groups[g].members ==> x < n
  }

  /** Every tree listed after a key is isomorphic to it. */
  predicate MembersIso(groups: seq<Group>, iso: (nat, nat) -> bool) {
    forall g, p :: 0 <= g < |groups| && 0 < p < |groups[g].members| ==> iso(groups[g].members[p], groups[g].key)
  }

  /** Each group lists its trees in the order they came. */
  predicate Increasing(groups: seq<Group>) {
    forall g, p, q :: 0 <= g < |groups| && 0 <= p < q < |groups[g].members| ==> groups[g].members[p] < groups[g].members[q]
  }

  /** No listed tree is isomorphic to the key of an earlier group. */
  predicate NoEarlierKey(groups: seq<Group>, iso: (nat, nat) -> bool) {
    forall g, h, x :: 0 <= h < g < |groups| && x in groups[g].members ==> !iso(x, groups[h].key)
  }

  /** No tree is listed in two groups. */
  predicate Disjoint(groups: seq<Group>) {
    forall g, h, x :: 0 <= g < |groups| && 0 <= h < |groups| && g != h && x in groups[g].members ==> x !in groups[h].members
  }

  /** Each of the first n trees is listed. */
  predicate Covers(groups: seq<Group>, n: nat) {
    forall x :: 0 <= x < n ==> Listed(groups, x)
  }

  /** The groups come in the order of their keys, the order in which the dict received them. */
  predicate KeysInOrder(groups: seq<Group>) {
    forall g, h :: 0 <= g < h < |groups| ==> groups[g].key < groups[h].key
  }

  /** A group keyed by tree i, appended after groups over the first i trees, keeps the keys in order. */
  lemma StartKeepsKeyOrder(groups: seq<Group>, i: nat, iso: (nat, nat) -> bool)
    requires FirstFit(groups, i, iso) && KeysInOrder(groups)
    ensures KeysInOrder(groups + [Group(i, [i])])
  {
    var gs := groups + [Group(i, [i])];
    forall g, h | 0 <= g < h < |gs| ensures gs[g].key < gs[h].key {
      assert gs[g] == groups[g];
      if h == |groups| {
        assert groups[g].key in groups[g].members;
      } else {
        assert gs[h] == groups[h];
      }
    }
  }

  /**
   * The shape the first-fit loop keeps over the first n trees: each group
   * starts with its key, lists the other trees isomorphic to the key in
   * order, no tree is isomorphic to the key of an earlier group, and every
   * tree is listed exactly once.
   */
  predicate FirstFit(groups: seq<Group>, n: nat, iso: (nat, nat) -> bool) {
    KeysFirst(groups) && Bounded(groups, n) && MembersIso(groups, iso) && Increasing(groups) &&
    NoEarlierKey(groups, iso) && Disjoint(groups) && Covers(groups, n)
  }

  /** Listing tree i under group j, the first whose key it is isomorphic to, keeps the first-fit shape. */
  lemma JoinKeeps(groups: seq<Group>, i: nat, iso: (nat, nat) -> bool, j: nat)
    requires FirstFit(groups, i, iso) && Total(groups) == i
    requires j < |groups| && iso(i, groups[j].key)
    requires forall h :: 0 <= h < j ==> !iso(i, groups[h].key)
    ensures var gs := groups[j := Group(groups[j].key, groups[j].members + [i])];
      FirstFit(gs, i + 1, iso) && Total(gs) == i + 1
  {
    TotalBump(groups, j, i);
    JoinKeepsShape(groups, i, iso, j);
    JoinKeepsOrder(groups, i, iso, j);
  }

  /** Listing tree i last in group j keeps each group keyed first, bounded, matching its key and in order. */
  lemma JoinKeepsShape(groups: seq<Group>, i: nat, iso: (nat, nat) -> bool, j: nat)
    requires FirstFit(groups, i, iso)
    requires j < |groups| && iso(i, groups[j].key)
    ensures var gs := groups[j := Group(groups[j].key, groups[j].members + [i])];
      KeysFirst(gs) && Bounded(gs, i + 1) && MembersIso(gs, iso) && Increasing(gs)
  {
    var m := groups[j].members;
    var gs := groups[j := Group(groups[j].key, m + [i])];
    assert forall x :: x in gs[j].members <==> x in m || x == i;
    assert KeysFirst(gs) by {
      assert gs[j].members[0] == m[0];
    }
    assert MembersIso(gs, iso) by {
      forall g, p | 0 <= g < |gs| && 0 < p < |gs[g].members| ensures iso(gs[g].members[p], gs[g].key) {
        if g == j && p < |m| {
          assert gs[g].members[p] == m[p];
        }
      }
    }
    assert Increasing(gs) by {
      forall g, p, q | 0 <= g < |gs| && 0 <= p < q < |gs[g].members| ensures gs[g].members[p] < gs[g].members[q] {
        if g == j {
          assert gs[g].members[p] == m[p] && m[p] in m;
        }
      }
    }
  }

  /** Listing tree i in j, the first group whose key it matches, keeps the groups apart and every tree listed. */
  lemma JoinKeepsOrder(groups: seq<Group>, i: nat, iso: (nat, nat) -> bool, j: nat)
    requires FirstFit(groups, i, iso)
    requires j < |groups|
    requires forall h :: 0 <= h < j ==> !iso(i, groups[h].key)
    ensures var gs := groups[j := Group(groups[j].key, groups[j].members + [i])];
      NoEarlierKey(gs, iso) && Disjoint(gs) && Covers(gs, i + 1)
  {
    var m := groups[j].members;
    var gs := groups[j := Group(groups[j].key, m + [i])];
    assert forall x :: x in gs[j].members <==> x in m || x == i;
    forall x | 0 <= x < i + 1 ensures Listed(gs, x) {
      if x == i {
        assert x in gs[j].members;
      } else {
        assert Listed(groups, x);
        var g :| 0 <= g < |groups| && x in groups[g].members;
        assert x in gs[g].members;
      }
    }
  }

  /** A new group keyed by tree i keeps every group's shape. */
  lemma StartKeepsShape(groups: seq<Group>, i: nat, iso: (nat, nat) -> bool)
    requires FirstFit(groups, i, iso)
    ensures var gs := groups + [Group(i, [i])];
      KeysFirst(gs) && Bounded(gs, i + 1) && MembersIso(gs, iso) && Increasing(gs)
  {
    var gs := groups + [Group(i, [i])];
    assert forall g :: 0 <= g < |groups| ==> gs[g] == groups[g];
  }

  /** A new group keyed by a tree isomorphic to no earlier key keeps the trees apart and listed. */
  lemma StartKeepsOrder(groups: seq<Group>, i: nat, iso: (nat, nat) -> bool)
    requires FirstFit(groups, i, iso)
    requires forall h :: 0 <= h < |groups| ==> !iso(i, groups[h].key)
    ensures var gs := groups + [Group(i, [i])];
      NoEarlierKey(gs, iso) && Disjoint(gs) && Covers(gs, i + 1)
  {
    var gs := groups + [Group(i, [i])];
    assert forall g :: 0 <= g < |groups| ==> gs[g] == groups[g];
    forall x | 0 <= x < i + 1 ensures Listed(gs, x) {
      if x == i {
        assert x in gs[|groups|].members;
      } else {
        assert Listed(groups, x);
        var g :| 0 <= g < |groups| && x in groups[g].members;
        assert x in gs[g].members;
      }
    }
  }

  /** A tree isomorphic to no key starts a new group, keeping the first-fit shape. */
  lemma StartKeeps(groups: seq<Group>, i: nat, iso: (nat, nat) -> bool)
    requires FirstFit(groups, i, iso) && Total(groups) == i
    requires forall h :: 0 <= h < |groups| ==> !iso(i, groups[h].key)
    ensures var gs := groups + [Group(i, [i])];
      FirstFit(gs, i + 1, iso) && Total(gs) == i + 1
  {
    var gs := groups + [Group(i, [i])];
    assert gs[..|gs| - 1] == groups;
    StartKeepsShape(groups, i, iso);
    StartKeepsOrder(groups, i, iso);
  }

  /**
   * The grouping loop of the script: each tree joins the first group whose
   * key it is isomorphic to (`st.is_isomorphic(sk)`), or starts a new group
   * keyed by itself.  Groups are kept in the dict's insertion order.
   */
  method GroupTrees(n: nat, iso: (nat, nat) -> bool) returns (groups: seq<Group>)
    ensures FirstFit(groups, n, iso)
    ensures Total(groups) == n
    ensures KeysInOrder(groups)
  {
    groups := [];
    for i := 0 to n
      invariant FirstFit(groups, i, iso)
      invariant Total(groups) == i
      invariant KeysInOrder(groups)
    {
      var j := 0;
      while j < |groups| && !iso(i, groups[j].key)
        invariant j <= |groups|
        invariant forall h :: 0 <= h < j ==> !iso(i, groups[h].key)
      {
        j := j + 1;
      }
      if j < |groups| {
        JoinKeeps(groups, i, iso, j);
        groups := groups[j := Group(groups[j].key, groups[j].members + [i])];
      } else {
        StartKeeps(groups, i, iso);
        StartKeepsKeyOrder(groups, i, iso);
        groups := groups + [Group(i, [i])];
      }
    }
  }

  /** iso is an equivalence on the first n trees. */
  ghost predicate Equivalence(iso: (nat, nat) -> bool, n: nat) {
    && (forall a :: 0 <= a < n ==> iso(a, a))
    && (forall a, b :: 0 <= a < n && 0 <= b < n && iso(a, b) ==> iso(b, a))
    && (forall a, b, c :: 0 <= a < n && 0 <= b < n && 0 <= c < n && iso(a, b) && iso(b, c) ==> iso(a, c))
  }

  /** Every listed tree is its group's key or isomorphic to it. */
  lemma MemberIsoKey(groups: seq<Group>, n: nat, iso: (nat, nat) -> bool, g: nat, x: nat)
    requires FirstFit(groups, n, iso) && Equivalence(iso, n)
    requires g < |groups| && x in groups[g].members
    ensures iso(x, groups[g].key) && groups[g].key < n
  {
    var p :| 0 <= p < |groups[g].members| && groups[g].members[p] == x;
    assert groups[g].key in groups[g].members;
    if p == 0 {
      assert iso(x, x);
    }
  }

  /** When isomorphism is an equivalence, two trees share a group exactly when they are isomorphic. */
  lemma GroupsAreClasses(groups: seq<Group>, n: nat, iso: (nat, nat) -> bool, g1: nat, g2: nat, x: nat, y: nat)
    requires FirstFit(groups, n, iso) && Equivalence(iso, n)
    requires g1 < |groups| && g2 < |groups| && x in groups[g1].members && y in groups[g2].members
    ensures g1 == g2 <==> iso(x, y)
  {
    MemberIsoKey(groups, n, iso, g1, x);
    MemberIsoKey(groups, n, iso, g2, y);
    var k1, k2 := groups[g1].key, groups[g2].key;
    if g1 == g2 {
      assert iso(k1, y);
    }
  }
}
