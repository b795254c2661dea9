/**
 * The skeleton-filling decoder: a worklist of partially filled beams, a
 * node picker, the template/building-block filler with its feasibility
 * masks, and the bookkeeping around it (answer checking, counters,
 * the surrogate score).
 *
 * The neural models, the chemistry toolkit and the file system are not
 * modelled; they are the function-valued fields of `Env`.
 */
module Decoder {
  import opened Basics
  import opened Skeletons

  /** One row of model output for a node: the embedding part and the last NumPoss template scores. */
  datatype Scores = Scores(emb: seq<int>, tmpl: seq<int>)

  /** A frontier node together with its model output (one entry of the `logits` dict). */
  datatype Logit = Logit(node: nat, scores: Scores)

  /** The answer of a feasibility policy: impossible templates and their index paths. */
  datatype Masking = Masking(imposs: seq<bool>, paths: seq<Path>)

  /** What `filter_imposs` returns: the impossible-template mask and, when reaction filtering is on, paths. */
  datatype Filter = Filter(imposs: seq<bool>, paths: Option<seq<Path>>)

  /**
   * Everything the decoder consults but does not compute itself.
   * - arity[i]: the number of reactants of template i;
   * - filterRxn / filterBb: 'rxn' / 'bb' occur in the filter option;
   * - maxDepth: MAX_DEPTH; delim: the key delimiter DELIM;
   * - fileExists: whether a file exists at a path;
   * - basePath(i): the index path of the one-reaction program with template i;
   * - policy1(n, t): the feasibility policy at a depth-1 node below a reaction with template t;
   * - policy2(n): the feasibility policy at a depth-2 node;
   * - load(p): the 'bbs' table of the index file at p;
   * - bbs / bbEmb: the building-block catalog and its embeddings (dim entries each);
   * - nearest(e, rows, k): the position among rows picked as the k-th nearest to e;
   * - frontier(f): the frontier nodes of a beam, a set of tree nodes in iteration order;
   * - rxnModel / bbModel: the two networks' output rows for a node of a beam.
   */
  datatype Env = Env(
    arity: seq<nat>,
    filterRxn: bool,
    filterBb: bool,
    maxDepth: nat,
    delim: string,
    fileExists: Path -> bool,
    basePath: nat -> Path,
    policy1: (nat, int) -> Masking,
    policy2: nat -> Masking,
    load: Path -> map<string, seq<seq<string>>>,
    bbs: seq<string>,
    bbEmb: seq<seq<int>>,
    dim: nat,
    nearest: (seq<int>, seq<seq<int>>, nat) -> nat,
    frontier: Fill -> seq<nat>,
    rxnModel: (Fill, nat) -> Scores,
    bbModel: (Fill, nat) -> Scores)
  {
    /** Shapes of the given functions' answers, for skeletons of `size` nodes. */
    ghost predicate Valid(size: nat) {
      && |arity| == NumPoss
      && |bbEmb| == |bbs|
      && (forall r :: 0 <= r < |bbEmb| ==> |bbEmb[r]| == dim)
      && (forall f, n :: |rxnModel(f, n).tmpl| == NumPoss && |rxnModel(f, n).emb| == dim)
      && (forall f, n :: |bbModel(f, n).tmpl| == NumPoss && |bbModel(f, n).emb| == dim)
      && (forall n, t :: |policy1(n, t).imposs| == NumPoss)
      && (forall n :: |policy2(n).imposs| == NumPoss)
      && (forall e, rows, k :: 1 <= k <= |rows| ==> nearest(e, rows, k) < |rows|)
      && (forall f, j :: 0 <= j < |frontier(f)| ==> frontier(f)[j] < size)
      && (forall f, i, j :: 0 <= i < j < |frontier(f)| ==> frontier(f)[i] != frontier(f)[j])
      && (forall f :: |frontier(f)| <= size)
    }
  }

  // ---------------------------------------------------------------------
  // Distances and the node picker

  function Abs(x: int): nat { if x < 0 then -x else x }

  /** L1 distance of two embeddings of equal length. */
  function L1(a: seq<int>, b: seq<int>): nat
    requires |a| == |b|
  {
    if a == [] then 0 else L1(a[..|a| - 1], b[..|b| - 1]) + Abs(a[|a| - 1] - b[|b| - 1])
  }

  /** `dist`: the L1 distance from emb to its nearest catalog row. */
  function Dist(emb: seq<int>, rows: seq<seq<int>>): (d: nat)
    requires |rows| > 0
    requires forall r :: 0 <= r < |rows| ==> |rows[r]| == |emb|
    ensures forall r :: 0 <= r < |rows| ==> d <= L1(emb, rows[r])
    ensures exists r :: 0 <= r < |rows| && d == L1(emb, rows[r])
  {
    if |rows| == 1 then L1(emb, rows[0])
    else
      var rest := Dist(emb, rows[..|rows| - 1]);
      assert forall r :: 0 <= r < |rows| - 1 ==> rows[..|rows| - 1][r] == rows[r];
      var last := L1(emb, rows[|rows| - 1]);
      if last < rest then last else rest
  }

  predicate WellFormed(s: Shape, lg: seq<Logit>, dim: nat) {
    forall j :: 0 <= j < |lg| ==>
      lg[j].node < s.Size() && |lg[j].scores.tmpl| == NumPoss && |lg[j].scores.emb| == dim
  }

  /** The confidence of a reaction node: its largest template score. */
  function Conf(l: Logit): int
    requires |l.scores.tmpl| == NumPoss
  {
    Max(l.scores.tmpl)
  }

  /** Entry k is the reaction node with strictly greatest confidence, the first one seen winning ties. */
  predicate BestRxn(s: Shape, lg: seq<Logit>, dim: nat, k: nat)
    requires s.Valid() && WellFormed(s, lg, dim) && k < |lg|
  {
    && s.rxns[lg[k].node]
    && (forall j :: 0 <= j < |lg| && s.rxns[lg[j].node] ==> Conf(lg[j]) <= Conf(lg[k]))
    && (forall j :: 0 <= j < k && s.rxns[lg[j].node] ==> Conf(lg[j]) < Conf(lg[k]))
  }

  /** The distances of all entries to the catalog (`dists` in `pick_node`). */
  function Dists(lg: seq<Logit>, rows: seq<seq<int>>, dim: nat): (ds: seq<int>)
    requires |rows| > 0
    requires forall j :: 0 <= j < |lg| ==> |lg[j].scores.emb| == dim
    requires forall r :: 0 <= r < |rows| ==> |rows[r]| == dim
    ensures |ds| == |lg|
    ensures forall j :: 0 <= j < |lg| ==> ds[j] == Dist(lg[j].scores.emb, rows)
  {
    seq(|lg|, j requires 0 <= j < |lg| => Dist(lg[j].scores.emb, rows))
  }

  /** The first loop of `pick_node`: the entry of the best reaction node, -1 when there is none. */
  method BestRxnEntry(s: Shape, lg: seq<Logit>, dim: nat) returns (best: int)
    requires s.Valid() && WellFormed(s, lg, dim)
    ensures -1 <= best < |lg|
    ensures best == -1 <==> forall j :: 0 <= j < |lg| ==> !s.rxns[lg[j].node]
    ensures best >= 0 ==> BestRxn(s, lg, dim, best)
    ensures best == BestRxnOf(s, lg, dim)
  {
    best := -1;
    var bestConf := 0;
    for i := 0 to |lg|
      invariant -1 <= best < i
      invariant best == -1 <==> forall j :: 0 <= j < i ==> !s.rxns[lg[j].node]
      invariant best >= 0 ==> s.rxns[lg[best].node] && bestConf == Conf(lg[best])
      invariant best >= 0 ==> forall j :: 0 <= j < i && s.rxns[lg[j].node] ==> Conf(lg[j]) <= bestConf
      invariant best >= 0 ==> forall j :: 0 <= j < best && s.rxns[lg[j].node] ==> Conf(lg[j]) < bestConf
    {
      if s.rxns[lg[i].node] {
        var c := Conf(lg[i]);
        if best == -1 || c > bestConf {
          best, bestConf := i, c;
        }
      }
    }
    if best >= 0 {
      BestRxnUnique(s, lg, dim, best, BestRxnOf(s, lg, dim));
    }
  }

  /** The best reaction entry among the first m entries, -1 when none of them is a reaction node. */
  function BestRxnUpTo(s: Shape, lg: seq<Logit>, dim: nat, m: nat): (k: int)
    requires s.Valid() && WellFormed(s, lg, dim) && m <= |lg|
    ensures -1 <= k < m
    ensures k == -1 <==> forall j :: 0 <= j < m ==> !s.rxns[lg[j].node]
    ensures k >= 0 ==> s.rxns[lg[k].node]
    ensures k >= 0 ==> forall j :: 0 <= j < m && s.rxns[lg[j].node] ==> Conf(lg[j]) <= Conf(lg[k])
    ensures k >= 0 ==> forall j :: 0 <= j < k && s.rxns[lg[j].node] ==> Conf(lg[j]) < Conf(lg[k])
  {
    if m == 0 then -1
    else
      var k := BestRxnUpTo(s, lg, dim, m - 1);
      if s.rxns[lg[m - 1].node] && (k == -1 || Conf(lg[m - 1]) > Conf(lg[k])) then m - 1 else k
  }

  /** The entry of the best reaction node as a value, -1 when the frontier holds none. */
  function BestRxnOf(s: Shape, lg: seq<Logit>, dim: nat): (k: int)
    requires s.Valid() && WellFormed(s, lg, dim)
    ensures -1 <= k < |lg|
    ensures k == -1 <==> forall j :: 0 <= j < |lg| ==> !s.rxns[lg[j].node]
    ensures k >= 0 ==> BestRxn(s, lg, dim, k)
  {
    BestRxnUpTo(s, lg, dim, |lg|)
  }

  /** At most one entry is the best reaction entry. */
  lemma BestRxnUnique(s: Shape, lg: seq<Logit>, dim: nat, k1: nat, k2: nat)
    requires s.Valid() && WellFormed(s, lg, dim) && k1 < |lg| && k2 < |lg|
    requires BestRxn(s, lg, dim, k1) && BestRxn(s, lg, dim, k2)
    ensures k1 == k2
  {
    assert Conf(lg[k1]) <= Conf(lg[k2]) && Conf(lg[k2]) <= Conf(lg[k1]);
  }

  /**
   * The node `pick_node` returns: the most confident reaction node, else
   * the first node of least catalog distance; Fail where it raises.
   */
  function PickOf(s: Shape, lg: seq<Logit>, rows: seq<seq<int>>, dim: nat): (r: Result<nat>)
    requires s.Valid() && WellFormed(s, lg, dim)
    requires forall i :: 0 <= i < |rows| ==> |rows[i]| == dim
    ensures r.Ok? ==> r.value in NodesOf(lg)
  {
    var best := BestRxnOf(s, lg, dim);
    if best >= 0 then Ok(lg[best].node)
    else if |lg| == 0 || |rows| == 0 then Fail
    else Ok(lg[FirstMinOf(Dists(lg, rows, dim))].node)
  }

  /**
   * `pick_node`: the reaction node of greatest confidence if the frontier
   * holds one, otherwise the node closest to the catalog; fails (numpy's
   * arg-min of an empty list, or the minimum over an empty catalog) when
   * neither exists.
   */
  method PickNode(s: Shape, lg: seq<Logit>, rows: seq<seq<int>>, dim: nat) returns (r: Result<nat>)
    requires s.Valid() && WellFormed(s, lg, dim)
    requires forall i :: 0 <= i < |rows| ==> |rows[i]| == dim
    ensures r.Ok? <==> (exists j :: 0 <= j < |lg| && s.rxns[lg[j].node]) || (|lg| > 0 && |rows| > 0)
    ensures (exists j :: 0 <= j < |lg| && s.rxns[lg[j].node]) ==>
      exists k :: 0 <= k < |lg| && r == Ok(lg[k].node) && BestRxn(s, lg, dim, k)
    ensures (forall j :: 0 <= j < |lg| ==> !s.rxns[lg[j].node]) && r.Ok? ==>
      exists k :: 0 <= k < |lg| && r == Ok(lg[k].node) && FirstMin(Dists(lg, rows, dim), k)
    ensures r == PickOf(s, lg, rows, dim)
  {
    var best := BestRxnEntry(s, lg, dim);
    if best >= 0 {
      return Ok(lg[best].node);
    }
    if |lg| == 0 || |rows| == 0 {
      return Fail;
    }
    var k := ArgMin(Dists(lg, rows, dim));
    return Ok(lg[k].node);
  }

  // ---------------------------------------------------------------------
  // Template feasibility

  /** Template i is impossible at node n when "n has two children" and "i is bimolecular" disagree. */
  function ArityMask(s: Shape, n: nat, env: Env): (m: seq<bool>)
    requires s.Valid() && n < s.Size() && |env.arity| == NumPoss
    ensures |m| == NumPoss
  {
    seq(NumPoss, i requires 0 <= i < NumPoss => (|s.children[n]| == 2) != (env.arity[i] == 2))
  }

  /** The depth-1 base case: no reaction above n, or the one above is deeper than 2. */
  predicate BaseCase(s: Shape, n: nat)
    requires s.Valid() && n < s.Size()
  {
    s.rxnPred[n] < 0 || s.depth[s.rxnPred[n]] > 2
  }

  /** In the base case template i is impossible exactly when its one-reaction program has no index file. */
  function BaseImposs(env: Env): (m: seq<bool>)
    ensures |m| == NumPoss
    ensures forall i :: 0 <= i < NumPoss ==> (m[i] <==> !env.fileExists(env.basePath(i)))
  {
    seq(NumPoss, i requires 0 <= i < NumPoss => !env.fileExists(env.basePath(i)))
  }

  /** The base-case paths: the index file of each template that has one, "" for the others. */
  function BasePaths(env: Env): (ps: seq<Path>)
    ensures |ps| == NumPoss
    ensures forall i :: 0 <= i < NumPoss ==>
      ps[i] == if env.fileExists(env.basePath(i)) then env.basePath(i) else ""
  {
    seq(NumPoss, i requires 0 <= i < NumPoss => if env.fileExists(env.basePath(i)) then env.basePath(i) else "")
  }

  /** The template recorded on the reaction above n (`rxn_id` of its reaction-graph predecessor). */
  function PredTemplate(s: Shape, f: Fill, n: nat): int
    requires s.Valid() && Fits(s, f) && n < s.Size() && s.rxnPred[n] >= 0
  {
    f.rxnId[s.rxnPred[n]]
  }

  /** The mask and paths `filter_imposs` computes for reaction node n of beam f. */
  function Imposs(s: Shape, f: Fill, n: nat, env: Env): (r: Filter)
    requires s.Valid() && Fits(s, f) && n < s.Size() && env.Valid(s.Size())
    ensures |r.imposs| == NumPoss
    ensures r.paths.Some? <==> env.filterRxn
    ensures !env.filterRxn || (s.depth[n] != 1 && s.depth[n] != 2) ==>
      forall i :: 0 <= i < NumPoss ==> (r.imposs[i] <==> (|s.children[n]| == 2) != (env.arity[i] == 2))
    ensures env.filterRxn && s.depth[n] == 1 && BaseCase(s, n) ==>
      |r.paths.value| == NumPoss &&
      forall i :: 0 <= i < NumPoss ==>
        (r.imposs[i] <==> !env.fileExists(env.basePath(i))) &&
        (!r.imposs[i] ==> r.paths.value[i] == env.basePath(i))
  {
    if !env.filterRxn then Filter(ArityMask(s, n, env), None)
    else if s.depth[n] == 1 then
      if BaseCase(s, n) then
        Filter(BaseImposs(env), Some(BasePaths(env)))
      else
        var p := env.policy1(n, PredTemplate(s, f, n));
        Filter(p.imposs, Some(p.paths))
    else if s.depth[n] == 2 then
      var p := env.policy2(n);
      Filter(p.imposs, Some(p.paths))
    else Filter(ArityMask(s, n, env), Some([]))
  }

  /**
   * In the base case an index file decides alone: a template whose file
   * exists is admitted even if its reactant count does not fit the node.
   */
  lemma BaseCaseIgnoresArity(s: Shape, f: Fill, n: nat, env: Env, i: nat)
    requires s.Valid() && Fits(s, f) && n < s.Size() && env.Valid(s.Size()) && i < NumPoss
    requires env.filterRxn && s.depth[n] == 1 && BaseCase(s, n)
    requires env.fileExists(env.basePath(i))
    ensures !Imposs(s, f, n, env).imposs[i]
    ensures ArityMask(s, n, env)[i] ==> Imposs(s, f, n, env).imposs[i] != ArityMask(s, n, env)[i]
  {
  }

  /** `filter_imposs`. */
  method FilterImposs(s: Shape, f: Fill, n: nat, env: Env) returns (r: Filter)
    requires s.Valid() && Fits(s, f) && n < s.Size() && env.Valid(s.Size())
    ensures r == Imposs(s, f, n, env)
  {
    var biMol := |s.children[n]| == 2;
    var mask := seq(NumPoss, _ => false);
    for i := 0 to NumPoss
      invariant |mask| == NumPoss
      invariant forall j :: 0 <= j < i ==> mask[j] == (biMol != (env.arity[j] == 2))
      invariant forall j :: i <= j < NumPoss ==> !mask[j]
    {
      if biMol != (env.arity[i] == 2) {
        mask := mask[i := true];
      }
    }
    assert mask == ArityMask(s, n, env);
    if !env.filterRxn {
      return Filter(mask, None);
    }
    if s.depth[n] == 1 {
      if BaseCase(s, n) {
        var paths: seq<Path> := [];
        var imposs := mask;
        for i := 0 to NumPoss
          invariant |paths| == i && |imposs| == NumPoss
          invariant forall j :: 0 <= j < i ==> imposs[j] == !env.fileExists(env.basePath(j))
          invariant forall j :: 0 <= j < i ==>
            paths[j] == if env.fileExists(env.basePath(j)) then env.basePath(j) else ""
        {
          var p := env.basePath(i);
          if env.fileExists(p) {
            paths := paths + [p];
            imposs := imposs[i := false];
          } else {
            paths := paths + [""];
            imposs := imposs[i := true];
          }
        }
        assert imposs == BaseImposs(env);
        assert paths == BasePaths(env);
        return Filter(imposs, Some(paths));
      }
      var p := env.policy1(n, PredTemplate(s, f, n));
      return Filter(p.imposs, Some(p.paths));
    } else if s.depth[n] == 2 {
      var p := env.policy2(n);
      return Filter(p.imposs, Some(p.paths));
    }
    return Filter(mask, Some([]));
  }

  /** The templates excluded before the arg-max at reaction node n (none below depth 2). */
  function Excluded(s: Shape, f: Fill, n: nat, env: Env): (m: seq<bool>)
    requires s.Valid() && Fits(s, f) && n < s.Size() && env.Valid(s.Size())
    ensures |m| == NumPoss
  {
    if s.depth[n] <= 2 then Imposs(s, f, n, env).imposs else NoneExcluded(NumPoss)
  }

  /** The paths list fill_in consults at reaction node n (empty below depth 2). */
  function RxnPaths(s: Shape, f: Fill, n: nat, env: Env): seq<Path>
    requires s.Valid() && Fits(s, f) && n < s.Size() && env.Valid(s.Size())
  {
    if s.depth[n] <= 2 && env.filterRxn then Imposs(s, f, n, env).paths.value else []
  }

  // ---------------------------------------------------------------------
  // Building-block candidates

  /** `list.index`: the first position of x in xs. */
  function IndexOf(xs: seq<string>, x: string): (r: Option<nat>)
    ensures r.Some? ==> r.value < |xs| && xs[r.value] == x && forall j :: 0 <= j < r.value ==> xs[j] != x
    ensures r.None? <==> x !in xs
  {
    if xs == [] then None
    else if xs[0] == x then Some(0)
    else match IndexOf(xs[1..], x)
      case None => None
      case Some(k) => Some(k + 1)
  }

  /** The catalog positions of a list of building blocks; None if one is missing from the catalog. */
  function Positions(xs: seq<string>, names: seq<string>): (r: Option<seq<nat>>)
    ensures r.Some? <==> forall j :: 0 <= j < |names| ==> names[j] in xs
    ensures r.Some? ==> |r.value| == |names|
    ensures r.Some? ==> forall j :: 0 <= j < |names| ==> r.value[j] < |xs| && xs[r.value[j]] == names[j]
  {
    if names == [] then Some([])
    else
      match Positions(xs, names[..|names| - 1])
      case None => None
      case Some(ps) =>
        match IndexOf(xs, names[|names| - 1])
        case None => None
        case Some(k) => Some(ps + [k])
  }

  /** The building-block names the index file at p lists for slot key e and input side `second`. */
  function SlotList(data: map<string, seq<seq<string>>>, e: string, second: bool, delim: string): Result<seq<string>>
  {
    var slot := if second then 1 else 0;
    if e in data then
      if slot < |data[e]| then Ok(data[e][slot]) else Fail
    else
      var key := e + delim + [if second then '1' else '0'];
      if key in data && |data[key]| == 1 then Ok(data[key][0]) else Fail
  }

  /** The index file was consulted for leaf n: filtering is on, the parent is shallow enough and its path exists. */
  predicate CacheExists(s: Shape, f: Fill, n: nat, env: Env)
    requires s.Valid() && Fits(s, f) && n < s.Size()
  {
    var pred := s.parent[n];
    && pred >= 0
    && env.filterBb
    && s.depth[pred] <= env.maxDepth
    && f.path[pred].Some?
    && env.fileExists(f.path[pred].value)
  }

  /**
   * The restricted candidate list of leaf n: Ok(None) when no index file
   * is consulted, Ok(Some(positions)) when one is, Fail when the code
   * raises (no parent, no path recorded on it, a depth other than 1 or 2,
   * a missing key or slot, a name missing from the catalog).
   */
  function Candidates(s: Shape, f: Fill, n: nat, env: Env): (r: Result<Option<seq<nat>>>)
    requires s.Valid() && Fits(s, f) && n < s.Size()
    ensures r.Ok? && r.value.Some? ==> CacheExists(s, f, n, env)
    ensures r.Ok? && r.value.Some? ==> forall j :: 0 <= j < |r.value.value| ==> r.value.value[j] < |env.bbs|
    ensures s.parent[n] >= 0 && !CacheExists(s, f, n, env) && !(env.filterBb && s.depth[s.parent[n]] <= env.maxDepth && f.path[s.parent[n]].None?) ==> r == Ok(None)
  {
    var pred := s.parent[n];
    if pred < 0 then Fail
    else if !env.filterBb || s.depth[pred] > env.maxDepth then Ok(None)
    else if f.path[pred].None? then Fail
    else if !env.fileExists(f.path[pred].value) then Ok(None)
    else if s.depth[pred] != 1 && s.depth[pred] != 2 then Fail
    else
      var e := if s.depth[pred] == 2 then "1" else "0";
      match SlotList(env.load(f.path[pred].value), e, s.right[n], env.delim)
      case Fail => Fail
      case Ok(names) =>
        match Positions(env.bbs, names)
        case None => Fail
        case Some(ps) => Ok(Some(ps))
  }

  function Rows(env: Env, ps: seq<nat>): (rows: seq<seq<int>>)
    requires forall j :: 0 <= j < |ps| ==> ps[j] < |env.bbEmb|
    ensures |rows| == |ps|
  {
    seq(|ps|, j requires 0 <= j < |ps| => env.bbEmb[ps[j]])
  }

  /** The restricted list is used: consulted, and long enough for the requested rank. */
  predicate UsesRestricted(s: Shape, f: Fill, n: nat, env: Env, topBb: nat)
    requires s.Valid() && Fits(s, f) && n < s.Size()
  {
    var c := Candidates(s, f, n, env);
    c.Ok? && c.value.Some? && |c.value.value| >= topBb
  }

  // ---------------------------------------------------------------------
  // Filling one node

  /**
   * g is f with node n filled: n is masked, earlier masks stay, the only
   * other newly masked nodes are intermediates (neither reaction nor leaf),
   * and no other node's template or building block changes.
   */
  predicate FilledAt(s: Shape, f: Fill, g: Fill, n: nat)
    requires s.Valid() && Fits(s, f) && Fits(s, g) && n < s.Size()
  {
    && g.mask[n]
    && (forall i :: 0 <= i < s.Size() && f.mask[i] ==> g.mask[i])
    && (forall i :: 0 <= i < s.Size() && g.mask[i] && !f.mask[i] ==> i == n || (!s.rxns[i] && !s.leaves[i]))
    && (forall i :: 0 <= i < s.Size() && i != n ==> g.rxnId[i] == f.rxnId[i] && g.bb[i] == f.bb[i])
  }

  /** Every template is excluded at reaction node n: the code's assertion fails. */
  predicate AllExcluded(s: Shape, f: Fill, n: nat, env: Env)
    requires s.Valid() && Fits(s, f) && n < s.Size() && env.Valid(s.Size())
  {
    s.depth[n] <= 2 && Count(Imposs(s, f, n, env).imposs) == NumPoss
  }

  /**
   * The template `fill_in` picks for reaction node n: the arg-max of the
   * scores once the excluded templates are left out, Fail when the code's
   * assertion that some template survives fails.
   */
  function TemplateOf(s: Shape, f: Fill, n: nat, sc: Scores, env: Env): (r: Result<nat>)
    requires s.Valid() && Fits(s, f) && n < s.Size() && env.Valid(s.Size())
    requires |sc.tmpl| == NumPoss
    ensures r.Fail? <==> AllExcluded(s, f, n, env)
    ensures r.Ok? ==> IsArgMax(sc.tmpl, Excluded(s, f, n, env), r.value)
  {
    if AllExcluded(s, f, n, env) then Fail
    else
      var ex := Excluded(s, f, n, env);
      assert !ex[0] || exists i :: 0 <= i < NumPoss && !ex[i] by {
        if s.depth[n] <= 2 {
          assert Count(ex) != |ex|;
        }
      }
      Ok(FirstArgMax(sc.tmpl, ex))
  }

  /** `TemplateOf`, computed, with the paths list the chosen template's path is taken from. */
  method ChooseTemplate(s: Shape, f: Fill, n: nat, sc: Scores, env: Env) returns (r: Result<nat>, paths: seq<Path>)
    requires s.Valid() && Fits(s, f) && n < s.Size() && env.Valid(s.Size()) && s.rxns[n]
    requires |sc.tmpl| == NumPoss
    ensures r == TemplateOf(s, f, n, sc, env)
    ensures r.Ok? ==> paths == RxnPaths(s, f, n, env)
  {
    var ex: seq<bool>;
    if s.depth[n] <= 2 {
      var flt := FilterImposs(s, f, n, env);
      if Count(flt.imposs) == NumPoss {
        return Fail, [];
      }
      ex := flt.imposs;
      paths := if flt.paths.Some? then flt.paths.value else [];
    } else {
      ex := NoneExcluded(NumPoss);
      paths := [];
    }
    var t := ArgMaxAdmitted(sc.tmpl, ex);
    r := Ok(t);
  }

  /** The mask m of reaction node n's beam once every non-leaf child of n is masked as well. */
  function KidsMasked(s: Shape, m: seq<bool>, n: nat): (r: seq<bool>)
    requires s.Valid() && |m| == s.Size() && n < s.Size() && s.rxns[n]
    ensures |r| == |m|
    ensures forall i :: 0 <= i < |m| && m[i] ==> r[i]
    ensures forall i :: 0 <= i < |m| && r[i] && !m[i] ==> !s.rxns[i] && !s.leaves[i]
    ensures forall j :: 0 <= j < |s.children[n]| && !s.leaves[s.children[n][j]] ==> r[s.children[n][j]]
  {
    seq(|m|, i requires 0 <= i < |m| => m[i] || (i in s.children[n] && !s.leaves[i]))
  }

  /** Masks every non-leaf child of reaction node n, so that intermediates never reach the frontier. */
  method MaskIntermediates(sk: Skeleton, n: nat)
    requires sk.Valid() && n < sk.shape.Size() && sk.shape.rxns[n]
    modifies sk
    ensures sk.Valid()
    ensures sk.State() == old(sk.State()).(mask := KidsMasked(sk.shape, old(sk.mask), n))
  {
    var s := sk.shape;
    var kids := s.children[n];
    for j := 0 to |kids|
      invariant sk.Valid()
      invariant sk.rxnId == old(sk.rxnId) && sk.bb == old(sk.bb) && sk.path == old(sk.path)
      invariant forall i :: 0 <= i < s.Size() ==> sk.mask[i] == (old(sk.mask[i]) || (i in kids[..j] && !s.leaves[i]))
    {
      assert kids[..j + 1] == kids[..j] + [kids[j]];
      if !s.leaves[kids[j]] {
        sk.MaskNode(kids[j]);
      }
    }
    assert kids[..|kids|] == kids;
  }

  /**
   * The reaction branch of `fill_in` on beam f: the template of
   * `TemplateOf`, the intermediate children masked and, when reaction
   * filtering produced paths, the chosen template's path recorded.  Fail
   * when every template is excluded, or when the paths list is non-empty
   * but has no entry for the chosen template.
   */
  function ReactionFill(s: Shape, f: Fill, n: nat, sc: Scores, env: Env): (r: Result<Fill>)
    requires s.Valid() && Fits(s, f) && n < s.Size() && env.Valid(s.Size()) && s.rxns[n]
    requires |sc.tmpl| == NumPoss
    ensures var t, ps := TemplateOf(s, f, n, sc, env), RxnPaths(s, f, n, env);
      r.Ok? <==> !AllExcluded(s, f, n, env) && (|ps| == 0 || t.value < |ps|)
    ensures r.Ok? ==> Fits(s, r.value) && FilledAt(s, f, r.value, n)
    ensures r.Ok? ==> IsArgMax(sc.tmpl, Excluded(s, f, n, env), r.value.rxnId[n])
    ensures r.Ok? ==> forall j :: 0 <= j < |s.children[n]| && !s.leaves[s.children[n][j]] ==>
      r.value.mask[s.children[n][j]]
    ensures r.Ok? ==> var ps := RxnPaths(s, f, n, env);
      r.value.path == if |ps| > 0 then f.path[n := Some(ps[r.value.rxnId[n]])] else f.path
  {
    match TemplateOf(s, f, n, sc, env)
    case Fail => Fail
    case Ok(t) =>
      var g := Fill(KidsMasked(s, f.mask[n := true], n), f.rxnId[n := t], f.bb, f.path);
      var ps := RxnPaths(s, f, n, env);
      if |ps| == 0 then Ok(g)
      else if t < |ps| then Ok(g.(path := f.path[n := Some(ps[t])]))
      else Fail
  }

  /** The reaction branch of `fill_in`, in place: the skeleton ends as `ReactionFill` says, or the branch fails with it. */
  method FillReaction(sk: Skeleton, n: nat, sc: Scores, env: Env) returns (ok: bool)
    requires sk.Valid() && n < sk.shape.Size() && env.Valid(sk.shape.Size()) && sk.shape.rxns[n]
    requires |sc.tmpl| == NumPoss
    modifies sk
    ensures sk.Valid()
    ensures ok == ReactionFill(sk.shape, old(sk.State()), n, sc, env).Ok?
    ensures ok ==> sk.State() == ReactionFill(sk.shape, old(sk.State()), n, sc, env).value
  {
    var s := sk.shape;
    var t, paths := ChooseTemplate(s, sk.State(), n, sc, env);
    if t.Fail? {
      return false;
    }
    sk.AssignTemplate(n, t.value);
    MaskIntermediates(sk, n);
    if |paths| > 0 {
      if t.value >= |paths| {
        return false;
      }
      sk.SetPath(n, paths[t.value]);
    }
    return true;
  }

  /**
   * The building block the leaf branch of `fill_in` picks for leaf n: rank
   * topBb among the restricted candidates when those are used, rank topBb
   * in the whole catalog otherwise; Fail where the code raises.
   */
  function LeafChoice(s: Shape, f: Fill, n: nat, env: Env, emb: seq<int>, topBb: nat): (r: Result<nat>)
    requires s.Valid() && Fits(s, f) && n < s.Size() && env.Valid(s.Size()) && topBb >= 1
    ensures Candidates(s, f, n, env).Fail? ==> r.Fail?
    ensures r.Ok? ==> r.value < |env.bbs|
    ensures r.Ok? && UsesRestricted(s, f, n, env, topBb) ==>
      r.value in Candidates(s, f, n, env).value.value
    ensures Candidates(s, f, n, env).Ok? && !UsesRestricted(s, f, n, env, topBb) ==>
      (r.Ok? <==> topBb <= |env.bbs|) && (r.Ok? ==> r.value == env.nearest(emb, env.bbEmb, topBb))
  {
    match Candidates(s, f, n, env)
    case Fail => Fail
    case Ok(c) =>
      if c.Some? && |c.value| >= topBb then
        Ok(c.value[env.nearest(emb, Rows(env, c.value), topBb)])
      else if topBb <= |env.bbs| then
        Ok(env.nearest(emb, env.bbEmb, topBb))
      else Fail
  }

  /**
   * What `fill_in` makes of beam f at node n with building-block rank
   * topBb: the reaction branch for a reaction node, the leaf's block
   * recorded and the leaf marked filled for a leaf, Fail (the assertion)
   * for any other node and wherever a branch fails.
   */
  function FillOf(s: Shape, f: Fill, n: nat, sc: Scores, env: Env, topBb: nat): (r: Result<Fill>)
    requires s.Valid() && Fits(s, f) && n < s.Size() && env.Valid(s.Size())
    requires |sc.tmpl| == NumPoss && topBb >= 1
    ensures r.Ok? ==> Fits(s, r.value) && FilledAt(s, f, r.value, n)
    ensures !s.rxns[n] && !s.leaves[n] ==> r.Fail?
    ensures s.rxns[n] ==> var t, ps := TemplateOf(s, f, n, sc, env), RxnPaths(s, f, n, env);
      r.Ok? <==> !AllExcluded(s, f, n, env) && (|ps| == 0 || t.value < |ps|)
    ensures s.rxns[n] && r.Ok? ==> r.value.rxnId[n] == TemplateOf(s, f, n, sc, env).value
    ensures s.leaves[n] ==> var c := LeafChoice(s, f, n, env, sc.emb, topBb);
      (r.Ok? <==> c.Ok?) && (r.Ok? ==> r.value == f.(bb := f.bb[n := c.value], mask := f.mask[n := true]))
    ensures r.Ok? && s.rxns[n] ==> 0 <= r.value.rxnId[n] < NumPoss
    ensures r.Ok? && s.leaves[n] ==> 0 <= r.value.bb[n] < |env.bbs|
  {
    if s.rxns[n] then ReactionFill(s, f, n, sc, env)
    else if s.leaves[n] then
      match LeafChoice(s, f, n, env, sc.emb, topBb)
      case Fail => Fail
      case Ok(c) => Ok(f.(bb := f.bb[n := c], mask := f.mask[n := true]))
    else Fail
  }

  /** `fill_in`: assigns node n of skeleton sk as `FillOf` says; ok is false where the code raises. */
  method FillIn(sk: Skeleton, n: nat, sc: Scores, env: Env, topBb: nat) returns (ok: bool)
    requires sk.Valid() && n < sk.shape.Size() && env.Valid(sk.shape.Size())
    requires |sc.tmpl| == NumPoss && topBb >= 1
    modifies sk
    ensures sk.Valid()
    ensures ok == FillOf(sk.shape, old(sk.State()), n, sc, env, topBb).Ok?
    ensures ok ==> sk.State() == FillOf(sk.shape, old(sk.State()), n, sc, env, topBb).value
  {
    if sk.shape.rxns[n] {
      ok := FillReaction(sk, n, sc, env);
      return;
    }
    if !sk.shape.leaves[n] {
      return false;
    }
    var c := LeafChoice(sk.shape, sk.State(), n, env, sc.emb, topBb);
    if c.Fail? {
      return false;
    }
    sk.AssignBlock(n, c.value);
    return true;
  }

  // ---------------------------------------------------------------------
  // The beam worklist

  /** The `logits` entry of node i: the reaction model's row for a reaction node, the building-block model's otherwise. */
  function Entry(s: Shape, b: Fill, env: Env, i: nat): Logit
    requires s.Valid() && i < s.Size()
  {
    Logit(i, if s.rxns[i] then env.rxnModel(b, i) else env.bbModel(b, i))
  }

  function NodesOf(lg: seq<Logit>): (ns: seq<nat>)
    ensures |ns| == |lg| && forall j :: 0 <= j < |lg| ==> ns[j] == lg[j].node
  {
    seq(|lg|, j requires 0 <= j < |lg| => lg[j].node)
  }

  /** The frontier's unmasked nodes with their model rows; fails on a node that is neither reaction nor leaf. */
  function Logits(s: Shape, b: Fill, env: Env, fr: seq<nat>): (r: Result<seq<Logit>>)
    requires s.Valid() && Fits(s, b) && env.Valid(s.Size())
    requires forall j :: 0 <= j < |fr| ==> fr[j] < s.Size()
    ensures r.Fail? <==> exists j :: 0 <= j < |fr| && Unassignable(s, b, fr[j])
    ensures r.Ok? ==> WellFormed(s, r.value, env.dim) && |r.value| <= |fr|
    ensures r.Ok? ==> forall j :: 0 <= j < |r.value| ==>
      Open(s, b, r.value[j].node) && r.value[j] == Entry(s, b, env, r.value[j].node)
    ensures r.Ok? ==> forall j :: 0 <= j < |fr| && !b.mask[fr[j]] ==> fr[j] in NodesOf(r.value)
  {
    if fr == [] then Ok([])
    else
      var last := fr[|fr| - 1];
      assert forall j :: 0 <= j < |fr| - 1 ==> fr[..|fr| - 1][j] == fr[j];
      match Logits(s, b, env, fr[..|fr| - 1])
      case Fail => Fail
      case Ok(lg) =>
        if b.mask[last] then Ok(lg)
        else if s.rxns[last] || s.leaves[last] then
          var lg' := lg + [Entry(s, b, env, last)];
          assert NodesOf(lg') == NodesOf(lg) + [last];
          Ok(lg')
        else Fail
  }

  predicate Unassignable(s: Shape, b: Fill, i: nat)
    requires s.Valid() && Fits(s, b) && i < s.Size()
  {
    !b.mask[i] && !s.rxns[i] && !s.leaves[i]
  }

  /** Every node filled since the start beam has a template or a catalog building block. */
  predicate NewlyAssigned(s: Shape, start: Fill, b: Fill, catalogSize: nat)
    requires s.Valid() && Fits(s, start) && Fits(s, b)
  {
    forall i :: 0 <= i < s.Size() && b.mask[i] && !start.mask[i] ==>
      (s.rxns[i] ==> 0 <= b.rxnId[i] < NumPoss) && (s.leaves[i] ==> 0 <= b.bb[i] < catalogSize)
  }

  /** A beam derived from start by filling nodes. */
  predicate Derived(s: Shape, start: Fill, b: Fill, catalogSize: nat)
    requires s.Valid() && Fits(s, start)
  {
    Fits(s, b) && Extends(s, start, b) && NewlyAssigned(s, start, b, catalogSize)
  }

  /** The most beams one decoding can return. */
  function Width(topK: nat): nat { if topK > 1 then topK else 1 }

  function Pow(p: nat, e: nat): nat { if e == 0 then 1 else p * Pow(p, e - 1) }

  lemma {:induction false} PowMonotone(p: nat, a: nat, b: nat)
    requires p >= 1 && a <= b
    ensures Pow(p, a) <= Pow(p, b)
    decreases b
  {
    if a < b {
      PowMonotone(p, a, b - 1);
      MulGrows(p, Pow(p, b - 1));
    }
  }

  lemma MulGrows(p: nat, x: nat)
    requires p >= 1
    ensures x <= p * x
  {
    assert p * x == x + (p - 1) * x;
  }

  /** The termination measure: p to the number of nodes each beam still has to fill, summed. */
  function Weight(loads: seq<nat>, p: nat): nat
  {
    if loads == [] then 0 else Weight(loads[..|loads| - 1], p) + Pow(p, loads[|loads| - 1])
  }

  /** The number of nodes each beam still has to fill. */
  ghost function Loads(s: Shape, st: seq<Fill>): (us: seq<nat>)
    requires s.Valid() && forall j :: 0 <= j < |st| ==> Fits(s, st[j])
    ensures |us| == |st|
    ensures forall j :: 0 <= j < |st| ==> us[j] == Unfilled(s, st[j])
  {
    seq(|st|, j requires 0 <= j < |st| => Unfilled(s, st[j]))
  }

  lemma LoadsConcat(s: Shape, a: seq<Fill>, b: seq<Fill>)
    requires s.Valid()
    requires forall j :: 0 <= j < |a| ==> Fits(s, a[j])
    requires forall j :: 0 <= j < |b| ==> Fits(s, b[j])
    ensures Loads(s, a + b) == Loads(s, a) + Loads(s, b)
  {
  }

  lemma {:induction false} WeightConcat(a: seq<nat>, b: seq<nat>, p: nat)
    ensures Weight(a + b, p) == Weight(a, p) + Weight(b, p)
    decreases |b|
  {
    if b == [] {
      assert a + b == a;
    } else {
      var init := b[..|b| - 1];
      WeightConcat(a, init, p);
      assert (a + b)[..|a + b| - 1] == a + init;
    }
  }

  /** Beams that each have fewer than u nodes left weigh at most their number times p^(u-1). */
  lemma {:induction false} WeightBound(loads: seq<nat>, p: nat, u: nat)
    requires p >= 1 && u >= 1
    requires forall j :: 0 <= j < |loads| ==> loads[j] < u
    ensures Weight(loads, p) <= |loads| * Pow(p, u - 1)
    decreases |loads|
  {
    if loads != [] {
      var init := loads[..|loads| - 1];
      WeightBound(init, p, u);
      PowMonotone(p, loads[|loads| - 1], u - 1);
      MulSucc(|init|, Pow(p, u - 1));
    }
  }

  lemma {:induction false} PowPositive(p: nat, e: nat)
    requires p >= 1
    ensures Pow(p, e) >= 1
  {
    if e > 0 {
      PowPositive(p, e - 1);
    }
  }

  /** Filling the picked node of a beam keeps it derived from the start and lowers what is left. */
  lemma FillKeepsDerived(s: Shape, start: Fill, b: Fill, c: Fill, n: nat, catalogSize: nat)
    requires s.Valid() && Fits(s, start) && Derived(s, start, b, catalogSize) && Fits(s, c)
    requires n < s.Size() && Open(s, b, n) && FilledAt(s, b, c, n)
    requires s.rxns[n] ==> 0 <= c.rxnId[n] < NumPoss
    requires s.leaves[n] ==> 0 <= c.bb[n] < catalogSize
    ensures Successor(s, start, catalogSize, b, c, n)
  {
    UnfilledDrops(s, b, c, n);
  }

  /**
   * c is a successor of beam b at node n: still derived from the start, b
   * with n filled, with less left to fill, and with a leaf filled when n
   * is a leaf.
   */
  predicate Successor(s: Shape, start: Fill, cat: nat, b: Fill, c: Fill, n: nat)
    requires s.Valid() && Fits(s, start) && Fits(s, b) && n < s.Size()
  {
    && Derived(s, start, c, cat)
    && FilledAt(s, b, c, n)
    && Unfilled(s, c) < Unfilled(s, b)
    && (s.leaves[n] ==> LeafFilled(s, c))
  }

  /** Every beam of next is a successor of b at node n. */
  predicate Successors(s: Shape, start: Fill, cat: nat, b: Fill, next: seq<Fill>, n: nat)
    requires s.Valid() && Fits(s, start) && Fits(s, b) && n < s.Size()
  {
    forall j :: 0 <= j < |next| ==> Successor(s, start, cat, b, next[j], n)
  }

  /** What the worklist needs to know of the successors of b. */
  lemma SuccessorFacts(s: Shape, start: Fill, cat: nat, b: Fill, next: seq<Fill>, n: nat)
    requires s.Valid() && Fits(s, start) && Fits(s, b) && n < s.Size()
    requires Successors(s, start, cat, b, next, n)
    ensures AllDerived(s, start, next, cat)
    ensures forall j :: 0 <= j < |next| ==> Fits(s, next[j]) && Unfilled(s, next[j]) < Unfilled(s, b)
    ensures LeafFilled(s, b) || s.leaves[n] ==> AllLeafFilled(s, next)
  {
    LeafFilledKept(s, b, next, n);
  }

  /**
   * The successors of beam b at node n: `copies` copies of b, copy k
   * (counting from 1) filled by `FillOf` with building-block rank k; Fail
   * when one of the fills fails.
   */
  function BranchOf(s: Shape, b: Fill, n: nat, sc: Scores, env: Env, copies: nat): (r: Result<seq<Fill>>)
    requires s.Valid() && Fits(s, b) && n < s.Size() && env.Valid(s.Size()) && |sc.tmpl| == NumPoss
    ensures r.Ok? <==> forall k :: 1 <= k <= copies ==> FillOf(s, b, n, sc, env, k).Ok?
    ensures r.Ok? ==> |r.value| == copies
    ensures r.Ok? ==> forall k :: 1 <= k <= copies ==> r.value[k - 1] == FillOf(s, b, n, sc, env, k).value
    decreases copies
  {
    if copies == 0 then Ok([])
    else
      match BranchOf(s, b, n, sc, env, copies - 1)
      case Fail => Fail
      case Ok(out) =>
        match FillOf(s, b, n, sc, env, copies)
        case Fail => Fail
        case Ok(f) => Ok(out + [f])
  }

  /** The beams `BranchOf` makes of an open beam are its successors at n. */
  lemma BranchSuccessors(s: Shape, start: Fill, env: Env, b: Fill, n: nat, sc: Scores, copies: nat)
    requires s.Valid() && Fits(s, start) && env.Valid(s.Size()) && Derived(s, start, b, |env.bbs|)
    requires n < s.Size() && Open(s, b, n) && |sc.tmpl| == NumPoss
    requires BranchOf(s, b, n, sc, env, copies).Ok?
    ensures Successors(s, start, |env.bbs|, b, BranchOf(s, b, n, sc, env, copies).value, n)
  {
    var next := BranchOf(s, b, n, sc, env, copies).value;
    forall j | 0 <= j < |next|
      ensures Successor(s, start, |env.bbs|, b, next[j], n)
    {
      assert next[j] == FillOf(s, b, n, sc, env, j + 1).value;
      FillKeepsDerived(s, start, b, next[j], n, |env.bbs|);
    }
  }

  /** `BranchOf`, computed on fresh copies of the beam. */
  method Branch(s: Shape, env: Env, b: Fill, n: nat, sc: Scores, copies: nat)
    returns (r: Result<seq<Fill>>)
    requires s.Valid() && Fits(s, b) && env.Valid(s.Size())
    requires n < s.Size() && |sc.tmpl| == NumPoss
    ensures r == BranchOf(s, b, n, sc, env, copies)
  {
    var out: seq<Fill> := [];
    for k := 1 to copies + 1
      invariant BranchOf(s, b, n, sc, env, k - 1) == Ok(out)
    {
      var c := FillCopy(s, env, b, n, sc, k);
      if c.Fail? {
        return Fail;
      }
      out := out + [c.value];
    }
    return Ok(out);
  }

  /** A deep copy of b with node n filled at building-block rank k: `FillOf`. */
  method FillCopy(s: Shape, env: Env, b: Fill, n: nat, sc: Scores, k: nat) returns (r: Result<Fill>)
    requires s.Valid() && Fits(s, b) && env.Valid(s.Size())
    requires n < s.Size() && |sc.tmpl| == NumPoss && k >= 1
    ensures r == FillOf(s, b, n, sc, env, k)
  {
    var sk := new Skeleton.Copy(s, b);
    var ok := FillIn(sk, n, sc, env, k);
    if !ok {
      return Fail;
    }
    return Ok(sk.State());
  }

  lemma MulStrict(a: nat, b: nat, c: nat)
    requires a < b && c >= 1
    ensures a * c < b * c
  {
    assert b * c == a * c + (b - a) * c;
  }

  /** Replacing a beam by fewer than p beams that each have less left to fill lowers the weight. */
  lemma WeightDrops(rest: seq<nat>, u: nat, next: seq<nat>, p: nat)
    requires u >= 1 && |next| < p
    requires forall j :: 0 <= j < |next| ==> next[j] < u
    ensures Weight(rest + next, p) < Weight(rest + [u], p)
  {
    WeightConcat(rest, next, p);
    WeightConcat(rest, [u], p);
    WeightBound(next, p, u);
    PowPositive(p, u - 1);
    assert Weight([u], p) == Pow(p, u) by {
      assert [u][..0] == [];
    }
    MulStrict(|next|, p, Pow(p, u - 1));
  }

  /** The node `pick_node` picks on the frontier of beam b; Fail where logits or picking fail. */
  function PickedOf(s: Shape, b: Fill, env: Env): (r: Result<nat>)
    requires s.Valid() && Fits(s, b) && env.Valid(s.Size())
    ensures r.Ok? ==> r.value < s.Size() && Open(s, b, r.value)
  {
    match Logits(s, b, env, env.frontier(b))
    case Fail => Fail
    case Ok(lg) => PickOf(s, lg, env.bbEmb, env.dim)
  }

  /** The number of copies of beam b filled at node n: topK at b's first leaf when topK > 1, one otherwise. */
  function Copies(s: Shape, b: Fill, n: nat, topK: nat): nat
    requires s.Valid() && Fits(s, b) && n < s.Size()
  {
    if topK > 1 && s.leaves[n] && !LeafFilled(s, b) then topK else 1
  }

  /**
   * What one step makes of an unfinished beam b: the `Copies` successors
   * of b at the picked node; Fail where logits, picking or a fill fail.
   */
  function ExpandOf(s: Shape, b: Fill, env: Env, topK: nat): (r: Result<seq<Fill>>)
    requires s.Valid() && Fits(s, b) && env.Valid(s.Size())
    ensures r.Ok? ==> PickedOf(s, b, env).Ok? && |r.value| == Copies(s, b, PickedOf(s, b, env).value, topK)
  {
    match PickedOf(s, b, env)
    case Fail => Fail
    case Ok(n) => BranchOf(s, b, n, Entry(s, b, env, n).scores, env, Copies(s, b, n, topK))
  }

  /** The beams `ExpandOf` makes of a derived beam are its successors at the picked node. */
  lemma ExpandSuccessors(s: Shape, start: Fill, env: Env, topK: nat, b: Fill)
    requires s.Valid() && Fits(s, start) && env.Valid(s.Size()) && Derived(s, start, b, |env.bbs|)
    requires ExpandOf(s, b, env, topK).Ok?
    ensures Successors(s, start, |env.bbs|, b, ExpandOf(s, b, env, topK).value, PickedOf(s, b, env).value)
  {
    var n := PickedOf(s, b, env).value;
    BranchSuccessors(s, start, env, b, n, Entry(s, b, env, n).scores, Copies(s, b, n, topK));
  }

  /**
   * One step on an unfinished beam b: pick node n on its frontier and fill
   * it, as `ExpandOf` says.
   */
  method Expand(s: Shape, env: Env, topK: nat, b: Fill) returns (r: Result<seq<Fill>>, n: nat)
    requires s.Valid() && Fits(s, b) && env.Valid(s.Size())
    ensures r == ExpandOf(s, b, env, topK)
    ensures r.Ok? ==> PickedOf(s, b, env) == Ok(n)
  {
    n := 0;
    var lg := Logits(s, b, env, env.frontier(b));
    if lg.Fail? {
      return Fail, n;
    }
    var pick := PickNode(s, lg.value, env.bbEmb, env.dim);
    if pick.Fail? {
      return Fail, n;
    }
    n := pick.value;
    var sc := Entry(s, b, env, n).scores;
    var firstBb := s.leaves[n] && !LeafFilled(s, b);
    var copies := if topK > 1 && firstBb then topK else 1;
    r := Branch(s, env, b, n, sc, copies);
  }

  /** The worklist invariant of `wrapper_decoder`. */
  ghost predicate Worklist(s: Shape, start: Fill, env: Env, topK: nat, sks: seq<Fill>, finals: seq<Fill>)
    requires s.Valid() && Fits(s, start)
  {
    && AllDerived(s, start, sks, |env.bbs|)
    && AllDerived(s, start, finals, |env.bbs|) && AllComplete(s, finals)
    && |sks| + |finals| <= Width(topK)
    && (|sks| + |finals| > 1 ==> AllLeafFilled(s, sks))
  }

  /** Moving a finished top beam to the output keeps the invariant and lowers the weight. */
  lemma PopDone(s: Shape, start: Fill, env: Env, topK: nat, sks: seq<Fill>, finals: seq<Fill>)
    requires s.Valid() && Fits(s, start) && |sks| > 0
    requires Worklist(s, start, env, topK, sks, finals) && Complete(s, sks[|sks| - 1])
    ensures Worklist(s, start, env, topK, sks[..|sks| - 1], finals + [sks[|sks| - 1]])
    ensures Weight(Loads(s, sks[..|sks| - 1]), Width(topK) + 1) < Weight(Loads(s, sks), Width(topK) + 1)
  {
    var b := sks[|sks| - 1];
    var rest := sks[..|sks| - 1];
    assert sks == rest + [b];
    LoadsConcat(s, rest, [b]);
    assert Loads(s, [b]) == [Unfilled(s, b)];
    WeightConcat(Loads(s, rest), [Unfilled(s, b)], Width(topK) + 1);
    Moved(s, start, |env.bbs|, sks, finals);
  }

  /** Replacing the top beam by fewer than p beams with less left to fill lowers the weight. */
  lemma PopWeight(s: Shape, sks: seq<Fill>, next: seq<Fill>, p: nat)
    requires s.Valid() && |sks| > 0
    requires forall j :: 0 <= j < |sks| ==> Fits(s, sks[j])
    requires forall j :: 0 <= j < |next| ==> Fits(s, next[j]) && Unfilled(s, next[j]) < Unfilled(s, sks[|sks| - 1])
    requires !Complete(s, sks[|sks| - 1]) && |next| < p
    ensures Weight(Loads(s, sks[..|sks| - 1] + next), p) < Weight(Loads(s, sks), p)
  {
    var b := sks[|sks| - 1];
    var rest := sks[..|sks| - 1];
    assert sks == rest + [b];
    LoadsConcat(s, rest, [b]);
    assert Loads(s, [b]) == [Unfilled(s, b)];
    CompleteIffNoneUnfilled(s, b);
    LoadsConcat(s, rest, next);
    WeightDrops(Loads(s, rest), Unfilled(s, b), Loads(s, next), p);
  }

  /** Replacing the top beam by what `Expand` made of it keeps the worklist invariant. */
  lemma PopExpanded(s: Shape, start: Fill, env: Env, topK: nat, sks: seq<Fill>, finals: seq<Fill>, next: seq<Fill>, n: nat)
    requires s.Valid() && Fits(s, start) && |sks| > 0
    requires Worklist(s, start, env, topK, sks, finals) && n < s.Size()
    requires |next| == if topK > 1 && s.leaves[n] && !LeafFilled(s, sks[|sks| - 1]) then topK else 1
    requires Successors(s, start, |env.bbs|, sks[|sks| - 1], next, n)
    ensures Worklist(s, start, env, topK, sks[..|sks| - 1] + next, finals)
  {
    SuccessorFacts(s, start, |env.bbs|, sks[|sks| - 1], next, n);
    PopCount(s, sks, finals, next, topK, n);
    Replaced(s, start, |env.bbs|, sks, next, finals);
  }

  /** Replacing an unfinished top beam by at most `Width(topK)` of its successors lowers the weight. */
  lemma PopExpandedWeight(s: Shape, start: Fill, cat: nat, sks: seq<Fill>, next: seq<Fill>, n: nat, topK: nat)
    requires s.Valid() && Fits(s, start) && |sks| > 0 && n < s.Size()
    requires forall j :: 0 <= j < |sks| ==> Fits(s, sks[j])
    requires !Complete(s, sks[|sks| - 1]) && |next| <= Width(topK)
    requires Successors(s, start, cat, sks[|sks| - 1], next, n)
    ensures Weight(Loads(s, sks[..|sks| - 1] + next), Width(topK) + 1) < Weight(Loads(s, sks), Width(topK) + 1)
  {
    SuccessorFacts(s, start, cat, sks[|sks| - 1], next, n);
    PopWeight(s, sks, next, Width(topK) + 1);
  }

  /**
   * The stack bound after a pop: it branches only on a beam's first leaf,
   * and then that beam was alone, so the stack stays within `Width(topK)`.
   */
  lemma PopCount(s: Shape, sks: seq<Fill>, finals: seq<Fill>, next: seq<Fill>, topK: nat, n: nat)
    requires s.Valid() && |sks| > 0 && n < s.Size()
    requires forall j :: 0 <= j < |sks| ==> Fits(s, sks[j])
    requires forall j :: 0 <= j < |next| ==> Fits(s, next[j])
    requires |sks| + |finals| <= Width(topK)
    requires |sks| + |finals| > 1 ==> AllLeafFilled(s, sks)
    requires |next| == if topK > 1 && s.leaves[n] && !LeafFilled(s, sks[|sks| - 1]) then topK else 1
    requires LeafFilled(s, sks[|sks| - 1]) || s.leaves[n] ==> AllLeafFilled(s, next)
    ensures |sks[..|sks| - 1] + next| + |finals| <= Width(topK)
    ensures |sks[..|sks| - 1] + next| + |finals| > 1 ==> AllLeafFilled(s, sks[..|sks| - 1] + next)
  {
    var rest := sks[..|sks| - 1];
    if |next| > 1 {
      assert !AllLeafFilled(s, sks) by {
        assert !LeafFilled(s, sks[|sks| - 1]);
      }
      assert rest == [];
      assert rest + next == next;
    } else if |rest + next| + |finals| > 1 {
      assert LeafFilled(s, sks[|sks| - 1]);
      forall j | 0 <= j < |rest + next|
        ensures LeafFilled(s, (rest + next)[j])
      {
        if j < |rest| {
          assert (rest + next)[j] == sks[j];
        } else {
          assert (rest + next)[j] == next[j - |rest|];
        }
      }
    }
  }

  /**
   * One iteration of the `wrapper_decoder` loop on the stack sks and the
   * output finals: the top beam moves to the output when it is complete,
   * and is otherwise replaced by what `ExpandOf` makes of it.
   */
  function StepOf(s: Shape, env: Env, topK: nat, sks: seq<Fill>, finals: seq<Fill>): (r: Result<(seq<Fill>, seq<Fill>)>)
    requires s.Valid() && env.Valid(s.Size()) && |sks| > 0
    requires forall j :: 0 <= j < |sks| ==> Fits(s, sks[j])
  {
    var b := sks[|sks| - 1];
    if Complete(s, b) then Ok((sks[..|sks| - 1], finals + [b]))
    else
      match ExpandOf(s, b, env, topK)
      case Fail => Fail
      case Ok(next) => Ok((sks[..|sks| - 1] + next, finals))
  }

  /**
   * A successful step keeps the worklist invariant, strictly lowers the
   * weight and never shrinks the number of beams held.
   */
  lemma StepKeeps(s: Shape, start: Fill, env: Env, topK: nat, sks: seq<Fill>, finals: seq<Fill>)
    requires s.Valid() && Fits(s, start) && env.Valid(s.Size()) && |sks| > 0
    requires Worklist(s, start, env, topK, sks, finals)
    requires StepOf(s, env, topK, sks, finals).Ok?
    ensures var (sks', finals') := StepOf(s, env, topK, sks, finals).value;
      && Worklist(s, start, env, topK, sks', finals')
      && Weight(Loads(s, sks'), Width(topK) + 1) < Weight(Loads(s, sks), Width(topK) + 1)
      && |sks'| + |finals'| >= |sks| + |finals|
  {
    var b := sks[|sks| - 1];
    if Complete(s, b) {
      PopDone(s, start, env, topK, sks, finals);
    } else {
      var next := ExpandOf(s, b, env, topK).value;
      var n := PickedOf(s, b, env).value;
      ExpandSuccessors(s, start, env, topK, b);
      PopExpanded(s, start, env, topK, sks, finals, next, n);
      PopExpandedWeight(s, start, |env.bbs|, sks, next, n, topK);
    }
  }

  /** One iteration of the `wrapper_decoder` loop, as `StepOf` says. */
  method Step(s: Shape, env: Env, topK: nat, sks: seq<Fill>, finals: seq<Fill>)
    returns (r: Result<(seq<Fill>, seq<Fill>)>)
    requires s.Valid() && env.Valid(s.Size()) && |sks| > 0
    requires forall j :: 0 <= j < |sks| ==> Fits(s, sks[j])
    ensures r == StepOf(s, env, topK, sks, finals)
  {
    var b := sks[|sks| - 1];
    var rest := sks[..|sks| - 1];
    if Complete(s, b) {
      return Ok((rest, finals + [b]));
    }
    var next, n := Expand(s, env, topK, b);
    if next.Fail? {
      return Fail;
    }
    return Ok((rest + next.value, finals));
  }

  /**
   * The outcome of running the loop from stack sks and output finals
   * until the stack is empty: the output then, or Fail as soon as a step
   * fails.
   */
  function RunOf(s: Shape, start: Fill, env: Env, topK: nat, sks: seq<Fill>, finals: seq<Fill>): Result<seq<Fill>>
    requires s.Valid() && Fits(s, start) && env.Valid(s.Size())
    requires Worklist(s, start, env, topK, sks, finals)
    decreases Weight(Loads(s, sks), Width(topK) + 1)
  {
    if sks == [] then Ok(finals)
    else
      match StepOf(s, env, topK, sks, finals)
      case Fail => Fail
      case Ok(p) =>
        StepKeeps(s, start, env, topK, sks, finals);
        RunOf(s, start, env, topK, p.0, p.1)
  }

  /** What the run returns: at least one beam when it starts with one, at most `Width(topK)`, each complete and derived from the start. */
  lemma {:induction false} RunFacts(s: Shape, start: Fill, env: Env, topK: nat, sks: seq<Fill>, finals: seq<Fill>)
    requires s.Valid() && Fits(s, start) && env.Valid(s.Size())
    requires Worklist(s, start, env, topK, sks, finals)
    requires RunOf(s, start, env, topK, sks, finals).Ok?
    ensures var r := RunOf(s, start, env, topK, sks, finals).value;
      && Worklist(s, start, env, topK, [], r)
      && (|sks| + |finals| >= 1 ==> |r| >= 1)
    decreases Weight(Loads(s, sks), Width(topK) + 1)
  {
    if sks != [] {
      StepKeeps(s, start, env, topK, sks, finals);
      var p := StepOf(s, env, topK, sks, finals).value;
      RunFacts(s, start, env, topK, p.0, p.1);
    }
  }

  /** The worklist invariant holds on the start stack. */
  lemma StartWorklist(s: Shape, start: Fill, env: Env, topK: nat)
    requires s.Valid() && Fits(s, start) && env.Valid(s.Size())
    ensures Worklist(s, start, env, topK, [start], [])
  {
    assert Derived(s, start, start, |env.bbs|);
  }

  /** `wrapper_decoder` on the start beam: the run from the stack holding only it. */
  function DecodeOf(s: Shape, start: Fill, env: Env, topK: nat): Result<seq<Fill>>
    requires s.Valid() && Fits(s, start) && env.Valid(s.Size())
  {
    StartWorklist(s, start, env, topK);
    RunOf(s, start, env, topK, [start], [])
  }

  /**
   * A successful decoding returns between 1 and `Width(topK)` beams (so
   * exactly one when topK <= 1), each complete and derived from the start.
   */
  lemma DecodeFacts(s: Shape, start: Fill, env: Env, topK: nat)
    requires s.Valid() && Fits(s, start) && env.Valid(s.Size())
    requires DecodeOf(s, start, env, topK).Ok?
    ensures var r := DecodeOf(s, start, env, topK).value;
      && 1 <= |r| <= Width(topK)
      && (forall j :: 0 <= j < |r| ==> Derived(s, start, r[j], |env.bbs|) && Complete(s, r[j]))
  {
    StartWorklist(s, start, env, topK);
    RunFacts(s, start, env, topK, [start], []);
  }

  /** An already complete start beam comes back alone. */
  lemma DecodeComplete(s: Shape, start: Fill, env: Env, topK: nat)
    requires s.Valid() && Fits(s, start) && env.Valid(s.Size())
    requires Complete(s, start)
    ensures DecodeOf(s, start, env, topK) == Ok([start])
  {
    StartWorklist(s, start, env, topK);
    assert [start][..0] == [] && [] + [start] == [start];
    assert StepOf(s, env, topK, [start], []) == Ok(([], [start]));
    StepKeeps(s, start, env, topK, [start], []);
    assert RunOf(s, start, env, topK, [], [start]) == Ok([start]);
  }

  /**
   * `wrapper_decoder`: pops beams off the stack until it is empty; a beam
   * with nothing left to fill moves to the output, any other one is
   * replaced by the beams `Expand` makes of it.  The result is `DecodeOf`.
   */
  method WrapperDecoder(s: Shape, start: Fill, env: Env, topK: nat) returns (r: Result<seq<Fill>>)
    requires s.Valid() && Fits(s, start) && env.Valid(s.Size())
    ensures r == DecodeOf(s, start, env, topK)
  {
    var sks := [start];
    var finals: seq<Fill> := [];
    StartWorklist(s, start, env, topK);
    while |sks| > 0
      invariant Worklist(s, start, env, topK, sks, finals)
      invariant RunOf(s, start, env, topK, sks, finals) == DecodeOf(s, start, env, topK)
      decreases Weight(Loads(s, sks), Width(topK) + 1)
    {
      var next := Step(s, env, topK, sks, finals);
      if next.Fail? {
        return Fail;
      }
      StepKeeps(s, start, env, topK, sks, finals);
      sks, finals := next.value.0, next.value.1;
    }
    return Ok(finals);
  }

  predicate AllDerived(s: Shape, start: Fill, st: seq<Fill>, catalogSize: nat)
    requires s.Valid() && Fits(s, start)
  {
    forall j :: 0 <= j < |st| ==> Derived(s, start, st[j], catalogSize)
  }

  predicate AllComplete(s: Shape, st: seq<Fill>)
    requires s.Valid() && forall j :: 0 <= j < |st| ==> Fits(s, st[j])
  {
    forall j :: 0 <= j < |st| ==> Complete(s, st[j])
  }

  predicate AllLeafFilled(s: Shape, st: seq<Fill>)
    requires s.Valid() && forall j :: 0 <= j < |st| ==> Fits(s, st[j])
  {
    forall j :: 0 <= j < |st| ==> LeafFilled(s, st[j])
  }

  /** Moving the completed top beam to the output keeps the worklist invariants. */
  lemma Moved(s: Shape, start: Fill, cat: nat, sks: seq<Fill>, finals: seq<Fill>)
    requires s.Valid() && Fits(s, start) && |sks| > 0
    requires AllDerived(s, start, sks, cat) && AllDerived(s, start, finals, cat) && AllComplete(s, finals)
    requires Complete(s, sks[|sks| - 1])
    ensures AllDerived(s, start, sks[..|sks| - 1], cat)
    ensures AllDerived(s, start, finals + [sks[|sks| - 1]], cat) && AllComplete(s, finals + [sks[|sks| - 1]])
    ensures AllLeafFilled(s, sks) ==> AllLeafFilled(s, sks[..|sks| - 1])
  {
  }

  /** Replacing the top beam by its successors keeps the worklist invariants. */
  lemma Replaced(s: Shape, start: Fill, cat: nat, sks: seq<Fill>, next: seq<Fill>, finals: seq<Fill>)
    requires s.Valid() && Fits(s, start) && |sks| > 0
    requires AllDerived(s, start, sks, cat) && AllDerived(s, start, next, cat)
    requires |next| == 1 ==> (AllLeafFilled(s, sks) ==> AllLeafFilled(s, next))
    requires |next| > 1 ==> AllLeafFilled(s, next)
    ensures AllDerived(s, start, sks[..|sks| - 1] + next, cat)
    ensures |next| == 1 && AllLeafFilled(s, sks) ==> AllLeafFilled(s, sks[..|sks| - 1] + next)
    ensures |next| > 1 && |sks| == 1 ==> AllLeafFilled(s, sks[..|sks| - 1] + next)
  {
    assert sks[..|sks| - 1] + next == sks[..|sks| - 1] + next;
  }

  /** Filling keeps a filled leaf filled. */
  lemma LeafFilledKept(s: Shape, b: Fill, next: seq<Fill>, n: nat)
    requires s.Valid() && Fits(s, b) && n < s.Size()
    requires forall j :: 0 <= j < |next| ==> Fits(s, next[j]) && FilledAt(s, b, next[j], n)
    ensures LeafFilled(s, b) ==> forall j :: 0 <= j < |next| ==> LeafFilled(s, next[j])
  {
    if LeafFilled(s, b) {
      var i :| 0 <= i < s.Size() && s.leaves[i] && b.mask[i];
      forall j | 0 <= j < |next|
        ensures LeafFilled(s, next[j])
      {
        assert s.leaves[i] && next[j].mask[i];
      }
    }
  }

  /** `decode`: runs the decoder, turning any exception into None. */
  method Decode(s: Shape, start: Fill, env: Env, topK: nat) returns (r: Option<seq<Fill>>)
    requires s.Valid() && Fits(s, start) && env.Valid(s.Size())
    ensures r.Some? <==> DecodeOf(s, start, env, topK).Ok?
    ensures r.Some? ==> r.value == DecodeOf(s, start, env, topK).value
    ensures r.Some? ==> 1 <= |r.value| <= Width(topK)
    ensures r.Some? ==> forall j :: 0 <= j < |r.value| ==>
      Derived(s, start, r.value[j], |env.bbs|) && Complete(s, r.value[j])
  {
    var res := WrapperDecoder(s, start, env, topK);
    if res.Ok? {
      DecodeFacts(s, start, env, topK);
    }
    r := if res.Ok? then Some(res.value) else None;
  }

  /**
   * `surrogate`: the best oracle score over the decoded beams, floored at 0,
   * and 0 when decoding failed.  `score` stands for reconstructing a beam's
   * product and scoring it with the oracle.
   */
  method Surrogate(beams: Option<seq<Fill>>, score: Fill -> real) returns (ans: real)
    ensures ans >= 0.0
    ensures beams.None? ==> ans == 0.0
    ensures beams.Some? ==> forall j :: 0 <= j < |beams.value| ==> score(beams.value[j]) <= ans
    ensures ans == 0.0 || (beams.Some? && exists j :: 0 <= j < |beams.value| && ans == score(beams.value[j]))
  {
    ans := 0.0;
    if beams.None? {
      return 0.0;
    }
    var bs := beams.value;
    for i := 0 to |bs|
      invariant ans >= 0.0
      invariant forall j :: 0 <= j < i ==> score(bs[j]) <= ans
      invariant ans == 0.0 || exists j :: 0 <= j < i && ans == score(bs[j])
    {
      var v := score(bs[i]);
      if v > ans {
        ans := v;
      }
    }
  }

  // ---------------------------------------------------------------------
  // Checking a decoded skeleton against the reference

  /**
   * Node i of pred disagrees with the reference: a different template at a
   * reaction node, or, at a leaf, a building block whose SMILES differs
   * from the reference leaf's SMILES `refSmiles[i]`.
   */
  predicate Wrong(s: Shape, pred: Fill, truth: Fill, bbs: seq<string>, refSmiles: seq<string>, i: nat)
    requires s.Valid() && Fits(s, pred) && Fits(s, truth) && |refSmiles| == s.Size() && i < s.Size()
    requires s.leaves[i] ==> 0 <= pred.bb[i] < |bbs|
  {
    if s.rxns[i] then pred.rxnId[i] != truth.rxnId[i]
    else s.leaves[i] && bbs[pred.bb[i]] != refSmiles[i]
  }

  /**
   * `test_correct` with the preorder method: visits the nodes in `order`
   * (the preorder from the root) and reports whether all reaction and leaf
   * nodes agree with the reference, plus the mismatching nodes.
   */
  method TestCorrect(s: Shape, pred: Fill, truth: Fill, bbs: seq<string>, refSmiles: seq<string>, order: seq<nat>)
    returns (correct: bool, incorrect: map<nat, int>)
    requires s.Valid() && Fits(s, pred) && Fits(s, truth) && |refSmiles| == s.Size()
    requires forall i :: 0 <= i < s.Size() && s.leaves[i] ==> 0 <= pred.bb[i] < |bbs|
    requires forall j :: 0 <= j < |order| ==> order[j] < s.Size()
    ensures correct <==> forall j :: 0 <= j < |order| ==> !Wrong(s, pred, truth, bbs, refSmiles, order[j])
    ensures forall i :: i in incorrect <==> i < s.Size() && i in order && Wrong(s, pred, truth, bbs, refSmiles, i)
    ensures forall i :: i in incorrect ==> incorrect[i] == 1
  {
    correct := true;
    incorrect := map[];
    for j := 0 to |order|
      invariant correct <==> forall q :: 0 <= q < j ==> !Wrong(s, pred, truth, bbs, refSmiles, order[q])
      invariant forall i :: i in incorrect <==> i < s.Size() && i in order[..j] && Wrong(s, pred, truth, bbs, refSmiles, i)
      invariant forall i :: i in incorrect ==> incorrect[i] == 1
    {
      var i := order[j];
      assert order[..j + 1] == order[..j] + [i];
      if s.rxns[i] {
        if pred.rxnId[i] != truth.rxnId[i] {
          correct := false;
          incorrect := incorrect[i := 1];
        }
      } else if s.leaves[i] {
        if bbs[pred.bb[i]] != refSmiles[i] {
          correct := false;
          incorrect := incorrect[i := 1];
        }
      }
    }
    assert order[..|order|] == order;
  }

  /** A running total of per-node error counts (`total_incorrect` across targets). */
  class Tally {
    var counts: map<nat, int>

    constructor ()
      ensures counts == map[]
    {
      counts := map[];
    }

    /** `update`: adds every count of dic into the total, starting missing keys at 0. */
    method Update(dic: map<nat, int>)
      modifies this
      ensures counts == Added(old(counts), dic, dic.Keys)
    {
      var base := counts;
      var total, todo := base, dic.Keys;
      ghost var done: set<nat> := {};
      while todo != {}
        invariant done <= dic.Keys && todo == dic.Keys - done
        invariant total == Added(base, dic, done)
        decreases todo
      {
        var k :| k in todo;
        var before := if k in total then total[k] else 0;
        AddedStep(base, dic, done, k);
        total := total[k := before + dic[k]];
        todo := todo - {k};
        done := done + {k};
      }
      assert done == dic.Keys;
      counts := total;
    }
  }

  /** base with the counts of dic on the keys done added in, missing keys starting at 0. */
  function Added(base: map<nat, int>, dic: map<nat, int>, done: set<nat>): (m: map<nat, int>)
    requires done <= dic.Keys
    ensures m.Keys == base.Keys + done
    ensures forall k :: k in done ==> m[k] == (if k in base then base[k] else 0) + dic[k]
    ensures forall k :: k in base && k !in done ==> m[k] == base[k]
  {
    map k | k in base.Keys + done :: (if k in base then base[k] else 0) + (if k in done then dic[k] else 0)
  }

  /** Adding one more key of dic is one map update. */
  lemma AddedStep(base: map<nat, int>, dic: map<nat, int>, done: set<nat>, k: nat)
    requires done <= dic.Keys && k in dic && k !in done
    ensures var m := Added(base, dic, done);
      Added(base, dic, done + {k}) == m[k := (if k in m then m[k] else 0) + dic[k]]
  {
  }
}
