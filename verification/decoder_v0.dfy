/**
 * The older decoder of `scripts/reconstruct-targets.py`.
 *
 * It shares the worklist shape of the current decoder but differs in how
 * it filters templates (it probes the index directory once per template,
 * overwriting and then restoring the template attribute of a copy of the
 * reaction graph), in how it picks nodes (possibly several per step), in
 * its leaf choice (no fallback from a too-short restricted list), and it
 * adds an answer check that replays the reactions bottom-up and the
 * skeleton filter of its `main`.
 */
module LegacyDecoder {
  import opened Basics
  import opened Skeletons
  import Decoder

  /**
   * The collaborators of the older decoder: those of the current one, plus
   * - progPath(a): the index path of the program whose reaction nodes carry templates a;
   * - stemPath(p, a): that program's path below the directory named after the stem of p;
   * - key(i): the key of reaction node i in the index file (`str(node_map[i])`).
   */
  datatype LegacyEnv = LegacyEnv(
    base: Decoder.Env,
    progPath: seq<int> -> Path,
    stemPath: (Path, seq<int>) -> Path,
    key: nat -> string)

  // ---------------------------------------------------------------------
  // Walking up the reaction graph

  /** The node k steps up the reaction graph from c, -1 if the walk leaves the graph. */
  function Up(s: Shape, c: nat, k: nat): int
    requires s.Valid() && c < s.Size()
    ensures -1 <= Up(s, c, k) < s.Size()
    decreases k
  {
    if k == 0 then c
    else if s.rxnPred[c] < 0 then -1
    else Up(s, s.rxnPred[c], k - 1)
  }

  /** The node `get_anc` stops at: the first one up from cur at depth maxDepth or without predecessor. */
  function AncOf(s: Shape, cur: nat, maxDepth: nat): (r: nat)
    requires s.Valid() && cur < s.Size()
    ensures r < s.Size()
    ensures s.depth[r] == maxDepth || s.rxnPred[r] < 0
    decreases s.rxnLevel[cur]
  {
    if s.depth[cur] == maxDepth || s.rxnPred[cur] < 0 then cur
    else AncOf(s, s.rxnPred[cur], maxDepth)
  }

  /**
   * The ancestor found is an ancestor-or-self of cur, reached after k steps;
   * it is at depth maxDepth or has no predecessor, and every node passed on
   * the way has a predecessor and a different depth.
   */
  lemma {:induction false} AncOfClimbs(s: Shape, cur: nat, maxDepth: nat) returns (k: nat)
    requires s.Valid() && cur < s.Size()
    ensures Up(s, cur, k) == AncOf(s, cur, maxDepth)
    ensures s.depth[AncOf(s, cur, maxDepth)] == maxDepth || s.rxnPred[AncOf(s, cur, maxDepth)] < 0
    ensures forall j :: 0 <= j < k ==>
      0 <= Up(s, cur, j) && s.depth[Up(s, cur, j)] != maxDepth && s.rxnPred[Up(s, cur, j)] >= 0
    decreases s.rxnLevel[cur]
  {
    if s.depth[cur] == maxDepth || s.rxnPred[cur] < 0 {
      k := 0;
    } else {
      var p: nat := s.rxnPred[cur];
      var k' := AncOfClimbs(s, p, maxDepth);
      k := k' + 1;
      assert Up(s, cur, k) == Up(s, p, k');
      forall j | 0 <= j < k
        ensures 0 <= Up(s, cur, j) && s.depth[Up(s, cur, j)] != maxDepth && s.rxnPred[Up(s, cur, j)] >= 0
      {
        if j > 0 {
          assert Up(s, cur, j) == Up(s, p, j - 1);
        }
      }
    }
  }

  /** `get_anc`: follows first predecessors from cur while the depth differs from maxDepth. */
  method GetAnc(s: Shape, cur: nat, maxDepth: nat) returns (lca: nat)
    requires s.Valid() && cur < s.Size()
    ensures lca == AncOf(s, cur, maxDepth)
  {
    lca := cur;
    while s.depth[lca] != maxDepth
      invariant lca < s.Size() && AncOf(s, lca, maxDepth) == AncOf(s, cur, maxDepth)
      decreases s.rxnLevel[lca]
    {
      if s.rxnPred[lca] >= 0 {
        lca := s.rxnPred[lca];
      } else {
        break;
      }
    }
  }

  // ---------------------------------------------------------------------
  // Probing the index for every template

  /** Where a probe looks: the index root, below an ancestor's stem, or nowhere (a non-'.json' ancestor path). */
  datatype Maker = Direct | Under(stem: Path) | Nowhere

  function MakePath(env: LegacyEnv, mk: Maker, attr: seq<int>): Option<Path> {
    match mk
    case Direct => Some(env.progPath(attr))
    case Under(stem) => Some(env.stemPath(stem, attr))
    case Nowhere => None
  }

  /** The path a probe records: the program's path if that file exists. */
  function ProbeAt(env: LegacyEnv, mk: Maker, attr: seq<int>): Option<Path> {
    var p := MakePath(env, mk, attr);
    if p.Some? && env.base.fileExists(p.value) then p else None
  }

  /** Template i is impossible at cur iff setting cur's template to i gives no existing path. */
  function Probed(env: LegacyEnv, mk: Maker, attr: seq<int>, cur: nat): (m: Decoder.Masking)
    requires cur < |attr|
    ensures |m.imposs| == NumPoss && |m.paths| == NumPoss
    ensures forall i :: 0 <= i < NumPoss ==>
      var found := ProbeAt(env, mk, attr[cur := i]);
      (m.imposs[i] <==> found.None?) && m.paths[i] == (if found.Some? then found.value else "")
  {
    Decoder.Masking(
      seq(NumPoss, i => ProbeAt(env, mk, attr[cur := i]).None?),
      seq(NumPoss, i => if ProbeAt(env, mk, attr[cur := i]).Some? then ProbeAt(env, mk, attr[cur := i]).value else ""))
  }

  /** The reaction graph of a skeleton, of which the probe loop overwrites one template attribute at a time. */
  class RxnGraph {
    var attr: seq<int>

    constructor (a: seq<int>)
      ensures attr == a
    {
      attr := a;
    }

    /**
     * Tries every template at node cur and restores cur's attribute
     * afterwards: the graph is unchanged and the answer is `Probed` of it.
     */
    method Probe(env: LegacyEnv, mk: Maker, cur: nat) returns (m: Decoder.Masking)
      requires cur < |attr|
      modifies this
      ensures attr == old(attr)
      ensures m == Probed(env, mk, old(attr), cur)
    {
      var term := attr[cur];
      var imposs: seq<bool> := [];
      var paths: seq<Path> := [];
      for i := 0 to NumPoss
        invariant |attr| == |old(attr)| && attr == old(attr)[cur := attr[cur]]
        invariant |imposs| == i && |paths| == i
        invariant forall j :: 0 <= j < i ==> imposs[j] == Probed(env, mk, old(attr), cur).imposs[j]
        invariant forall j :: 0 <= j < i ==> paths[j] == Probed(env, mk, old(attr), cur).paths[j]
      {
        attr := attr[cur := i];
        assert attr == old(attr)[cur := i];
        var p := MakePath(env, mk, attr);
        if p.Some? && env.base.fileExists(p.value) {
          imposs, paths := imposs + [false], paths + [p.value];
        } else {
          imposs, paths := imposs + [true], paths + [""];
        }
      }
      attr := attr[cur := term];
      assert attr == old(attr);
      m := Decoder.Masking(imposs, paths);
    }
  }

  // ---------------------------------------------------------------------
  // The reaction branch of the older `fill_in`

  /** The deepest reaction node's depth (`max_depth`), -1 when there is no reaction node (where `max` raises). */
  function MaxRxnDepth(s: Shape, k: nat): (m: int)
    requires s.Valid() && k <= s.Size()
    ensures m >= -1
    ensures forall i :: 0 <= i < k && s.rxns[i] ==> s.depth[i] <= m
    ensures m == -1 <==> forall i :: 0 <= i < k ==> !s.rxns[i]
    ensures m >= 0 ==> exists i :: 0 <= i < k && s.rxns[i] && s.depth[i] == m
    decreases k
  {
    if k == 0 then -1
    else
      var m := MaxRxnDepth(s, k - 1);
      if s.rxns[k - 1] && s.depth[k - 1] > m then s.depth[k - 1] else m
  }

  predicate IsJson(p: Path) {
    |p| >= 5 && p[|p| - 5..] == ".json"
  }

  /**
   * The mask and paths the older `fill_in` computes for reaction node n:
   * no mask without reaction filtering; a probe from the index root when
   * the whole graph is shallower than maxDepth or n is at maxDepth; a
   * probe below the ancestor's stem when n is shallower (all impossible
   * when the ancestor's path is not a '.json' file, Fail when it has
   * none); no mask and no paths when n is deeper.
   */
  function LegacyMask(s: Shape, f: Fill, n: nat, env: LegacyEnv): (r: Result<Decoder.Masking>)
    requires s.Valid() && Fits(s, f) && n < s.Size()
    ensures r.Ok? ==> |r.value.imposs| == NumPoss
    ensures r.Ok? ==> |r.value.paths| == 0 || |r.value.paths| == NumPoss
    ensures r.Ok? ==> (|r.value.paths| == NumPoss <==>
      env.base.filterRxn && (MaxRxnDepth(s, s.Size()) < env.base.maxDepth || s.depth[n] <= env.base.maxDepth))
    ensures !env.base.filterRxn ==> r == Ok(Decoder.Masking(NoneExcluded(NumPoss), []))
  {
    var md := env.base.maxDepth;
    if !env.base.filterRxn then Ok(Decoder.Masking(NoneExcluded(NumPoss), []))
    else if MaxRxnDepth(s, s.Size()) < md || s.depth[n] == md then Ok(Probed(env, Direct, f.rxnId, n))
    else if s.depth[n] < md then
      match f.path[AncOf(s, n, md)]
      case None => Fail
      case Some(p) => Ok(Probed(env, if IsJson(p) then Under(p[..|p| - 5]) else Nowhere, f.rxnId, n))
    else Ok(Decoder.Masking(NoneExcluded(NumPoss), []))
  }

  /** A mask that excludes every template is dropped: the excluded set is applied only when something survives. */
  function Applied(imposs: seq<bool>): (m: seq<bool>)
    requires |imposs| == NumPoss
    ensures |m| == NumPoss
    ensures exists i :: 0 <= i < NumPoss && !m[i]
    ensures Count(imposs) < NumPoss ==> m == imposs
    ensures Count(imposs) == NumPoss ==> Count(m) == 0
  {
    if Count(imposs) < NumPoss then imposs else NoneExcluded(NumPoss)
  }

  /** When every template is impossible (in particular below a non-'.json' ancestor), all 91 templates compete. */
  lemma NoJsonLeavesScoresAlone(s: Shape, f: Fill, n: nat, env: LegacyEnv)
    requires s.Valid() && Fits(s, f) && n < s.Size()
    requires env.base.filterRxn && MaxRxnDepth(s, s.Size()) >= env.base.maxDepth && s.depth[n] < env.base.maxDepth
    requires f.path[AncOf(s, n, env.base.maxDepth)].Some? && !IsJson(f.path[AncOf(s, n, env.base.maxDepth)].value)
    ensures LegacyMask(s, f, n, env).Ok?
    ensures forall i :: 0 <= i < NumPoss ==> !Applied(LegacyMask(s, f, n, env).value.imposs)[i]
  {
    var m := LegacyMask(s, f, n, env).value;
    assert forall i :: 0 <= i < NumPoss ==> m.imposs[i];
  }

  /** The loop-and-probe computation of the mask, on a copy of the reaction graph. */
  method ComputeMask(s: Shape, f: Fill, n: nat, env: LegacyEnv) returns (r: Result<Decoder.Masking>)
    requires s.Valid() && Fits(s, f) && n < s.Size()
    ensures r == LegacyMask(s, f, n, env)
  {
    var md := env.base.maxDepth;
    if !env.base.filterRxn {
      return Ok(Decoder.Masking(NoneExcluded(NumPoss), []));
    }
    var g := new RxnGraph(f.rxnId);
    if MaxRxnDepth(s, s.Size()) < md || s.depth[n] == md {
      var m := g.Probe(env, Direct, n);
      return Ok(m);
    } else if s.depth[n] < md {
      var lca := GetAnc(s, n, md);
      if f.path[lca].None? {
        return Fail;
      }
      var p := f.path[lca].value;
      var m := g.Probe(env, if IsJson(p) then Under(p[..|p| - 5]) else Nowhere, n);
      return Ok(m);
    }
    return Ok(Decoder.Masking(NoneExcluded(NumPoss), []));
  }

  /**
   * The reaction branch of the older `fill_in` on beam f: the arg-max
   * template over the applied mask, the non-leaf children masked, and with
   * reaction filtering the chosen template's path recorded.  Fail where the
   * mask raises, and where the paths list has no entry for the template.
   */
  function ReactionFill(s: Shape, f: Fill, n: nat, sc: Decoder.Scores, env: LegacyEnv): (r: Result<Fill>)
    requires s.Valid() && Fits(s, f) && n < s.Size() && s.rxns[n] && |sc.tmpl| == NumPoss
    ensures var m := LegacyMask(s, f, n, env);
      r.Ok? <==> m.Ok? && (env.base.filterRxn ==> |m.value.paths| == NumPoss)
    ensures r.Ok? ==> Fits(s, r.value) && Decoder.FilledAt(s, f, r.value, n)
    ensures r.Ok? ==> IsArgMax(sc.tmpl, Applied(LegacyMask(s, f, n, env).value.imposs), r.value.rxnId[n])
    ensures r.Ok? ==> forall j :: 0 <= j < |s.children[n]| && !s.leaves[s.children[n][j]] ==>
      r.value.mask[s.children[n][j]]
    ensures r.Ok? ==>
      r.value.path == if env.base.filterRxn
        then f.path[n := Some(LegacyMask(s, f, n, env).value.paths[r.value.rxnId[n]])]
        else f.path
  {
    match LegacyMask(s, f, n, env)
    case Fail => Fail
    case Ok(m) =>
      var t := FirstArgMax(sc.tmpl, Applied(m.imposs));
      var g := Fill(Decoder.KidsMasked(s, f.mask[n := true], n), f.rxnId[n := t], f.bb, f.path);
      if !env.base.filterRxn then Ok(g)
      else if t < |m.paths| then Ok(g.(path := f.path[n := Some(m.paths[t])]))
      else Fail
  }

  /** The reaction branch of the older `fill_in`, in place, as `ReactionFill` says. */
  method FillReaction(sk: Skeleton, n: nat, sc: Decoder.Scores, env: LegacyEnv) returns (ok: bool)
    requires sk.Valid() && n < sk.shape.Size() && sk.shape.rxns[n] && |sc.tmpl| == NumPoss
    modifies sk
    ensures sk.Valid()
    ensures ok == ReactionFill(sk.shape, old(sk.State()), n, sc, env).Ok?
    ensures ok ==> sk.State() == ReactionFill(sk.shape, old(sk.State()), n, sc, env).value
  {
    var s := sk.shape;
    var m := ComputeMask(s, sk.State(), n, env);
    if m.Fail? {
      return false;
    }
    var t := ArgMaxAdmitted(sc.tmpl, Applied(m.value.imposs));
    sk.AssignTemplate(n, t);
    Decoder.MaskIntermediates(sk, n);
    if env.base.filterRxn {
      if t >= |m.value.paths| {
        return false;
      }
      sk.SetPath(n, m.value.paths[t]);
    }
    return true;
  }

  /**
   * Under reaction filtering, a reaction node deeper than maxDepth in a
   * graph that reaches maxDepth gets no paths, and recording its path raises.
   */
  lemma DeepReactionHasNoPaths(s: Shape, f: Fill, n: nat, env: LegacyEnv)
    requires s.Valid() && Fits(s, f) && n < s.Size()
    requires env.base.filterRxn && s.depth[n] > env.base.maxDepth && MaxRxnDepth(s, s.Size()) >= env.base.maxDepth
    ensures LegacyMask(s, f, n, env) == Ok(Decoder.Masking(NoneExcluded(NumPoss), []))
  {
  }

  // ---------------------------------------------------------------------
  // The leaf branch of the older `fill_in`

  /** Leaf n fills its parent's second input slot: the parent has two successors and n is the second. */
  predicate SecondSlot(s: Shape, n: nat, pred: nat)
    requires s.Valid() && pred < s.Size()
  {
    |s.children[pred]| == 2 && n == s.children[pred][1]
  }

  /**
   * The restricted candidates for leaf n: with building-block filtering and
   * an existing index file at the parent's path, the catalog positions of
   * the names listed under the parent's key and n's slot.  Fail where the
   * code raises (no parent, no path attribute, missing key or slot, a name
   * outside the catalog).
   */
  function LegacyCandidates(s: Shape, f: Fill, n: nat, env: LegacyEnv): (r: Result<Option<seq<nat>>>)
    requires s.Valid() && Fits(s, f) && n < s.Size()
    ensures s.parent[n] < 0 ==> r.Fail?
    ensures s.parent[n] >= 0 && !env.base.filterBb ==> r == Ok(None)
    ensures r.Ok? && r.value.Some? ==>
      && env.base.filterBb && s.parent[n] >= 0 && f.path[s.parent[n]].Some?
      && env.base.fileExists(f.path[s.parent[n]].value)
    ensures r.Ok? && r.value.Some? ==> forall j :: 0 <= j < |r.value.value| ==>
      r.value.value[j] < |env.base.bbs|
    ensures r.Ok? && r.value.Some? ==>
      var data := env.base.load(f.path[s.parent[n]].value);
      var slot := if SecondSlot(s, n, s.parent[n]) then 1 else 0;
      var k := env.key(s.parent[n]);
      k in data && slot < |data[k]| && |r.value.value| == |data[k][slot]|
      && forall j :: 0 <= j < |r.value.value| ==> env.base.bbs[r.value.value[j]] == data[k][slot][j]
  {
    var pred := s.parent[n];
    if pred < 0 then Fail
    else if !env.base.filterBb then Ok(None)
    else match f.path[pred]
      case None => Fail
      case Some(p) =>
        if !env.base.fileExists(p) then Ok(None)
        else
          var data := env.base.load(p);
          var k := env.key(pred);
          var slot := if SecondSlot(s, n, pred) then 1 else 0;
          if k !in data || slot >= |data[k]| then Fail
          else match Decoder.Positions(env.base.bbs, data[k][slot])
            case None => Fail
            case Some(ps) => Ok(Some(ps))
  }

  /**
   * The older leaf choice: rank topBb among the restricted candidates
   * when there are any, rank topBb in the whole catalog otherwise; with no
   * fallback when the restricted list is shorter than topBb.
   */
  function LegacyLeafChoice(s: Shape, f: Fill, n: nat, env: LegacyEnv, emb: seq<int>, topBb: nat): (r: Result<nat>)
    requires s.Valid() && Fits(s, f) && n < s.Size() && env.base.Valid(s.Size()) && topBb >= 1
    ensures LegacyCandidates(s, f, n, env).Fail? ==> r.Fail?
    ensures r.Ok? ==> r.value < |env.base.bbs|
    ensures var c := LegacyCandidates(s, f, n, env);
      c.Ok? && c.value.Some? ==> (r.Ok? <==> topBb <= |c.value.value|) && (r.Ok? ==> r.value in c.value.value)
    ensures var c := LegacyCandidates(s, f, n, env);
      c.Ok? && c.value.None? ==>
        (r.Ok? <==> topBb <= |env.base.bbs|) && (r.Ok? ==> r.value == env.base.nearest(emb, env.base.bbEmb, topBb))
  {
    match LegacyCandidates(s, f, n, env)
    case Fail => Fail
    case Ok(c) =>
      if c.Some? then
        if topBb <= |c.value| then Ok(c.value[env.base.nearest(emb, Decoder.Rows(env.base, c.value), topBb)])
        else Fail
      else if topBb <= |env.base.bbs| then Ok(env.base.nearest(emb, env.base.bbEmb, topBb))
      else Fail
  }

  /**
   * What the older `fill_in` makes of beam f at node n with building-block
   * rank topBb: Fail when the skeleton has no reaction node (the maximum
   * over an empty graph); the reaction branch for a reaction node; the
   * leaf's block recorded and the leaf marked filled for a leaf; Fail (the
   * assertion) for any other node and wherever a branch fails.
   */
  function FillOf(s: Shape, f: Fill, n: nat, sc: Decoder.Scores, env: LegacyEnv, topBb: nat): (r: Result<Fill>)
    requires s.Valid() && Fits(s, f) && n < s.Size() && env.base.Valid(s.Size())
    requires |sc.tmpl| == NumPoss && topBb >= 1
    ensures r.Ok? ==> Fits(s, r.value) && Decoder.FilledAt(s, f, r.value, n)
    ensures MaxRxnDepth(s, s.Size()) < 0 ==> r.Fail?
    ensures !s.rxns[n] && !s.leaves[n] ==> r.Fail?
    ensures s.rxns[n] ==> var m := LegacyMask(s, f, n, env);
      r.Ok? <==> m.Ok? && (env.base.filterRxn ==> |m.value.paths| == NumPoss)
    ensures r.Ok? && s.rxns[n] ==> IsArgMax(sc.tmpl, Applied(LegacyMask(s, f, n, env).value.imposs), r.value.rxnId[n])
    ensures s.leaves[n] && MaxRxnDepth(s, s.Size()) >= 0 ==> var c := LegacyLeafChoice(s, f, n, env, sc.emb, topBb);
      (r.Ok? <==> c.Ok?) && (r.Ok? ==> r.value == f.(bb := f.bb[n := c.value], mask := f.mask[n := true]))
    ensures r.Ok? && s.rxns[n] ==> 0 <= r.value.rxnId[n] < NumPoss
    ensures r.Ok? && s.leaves[n] ==> 0 <= r.value.bb[n] < |env.base.bbs|
  {
    if MaxRxnDepth(s, s.Size()) < 0 then Fail
    else if s.rxns[n] then ReactionFill(s, f, n, sc, env)
    else if s.leaves[n] then
      match LegacyLeafChoice(s, f, n, env, sc.emb, topBb)
      case Fail => Fail
      case Ok(c) => Ok(f.(bb := f.bb[n := c], mask := f.mask[n := true]))
    else Fail
  }

  /** The older `fill_in`: assigns node n of skeleton sk as `FillOf` says; ok is false where the code raises. */
  method FillIn(sk: Skeleton, n: nat, sc: Decoder.Scores, env: LegacyEnv, topBb: nat) returns (ok: bool)
    requires sk.Valid() && n < sk.shape.Size() && env.base.Valid(sk.shape.Size())
    requires |sc.tmpl| == NumPoss && topBb >= 1
    modifies sk
    ensures sk.Valid()
    ensures ok == FillOf(sk.shape, old(sk.State()), n, sc, env, topBb).Ok?
    ensures ok ==> sk.State() == FillOf(sk.shape, old(sk.State()), n, sc, env, topBb).value
  {
    if MaxRxnDepth(sk.shape, sk.shape.Size()) < 0 {
      return false;
    }
    if sk.shape.rxns[n] {
      ok := FillReaction(sk, n, sc, env);
      return;
    }
    if !sk.shape.leaves[n] {
      return false;
    }
    var c := LegacyLeafChoice(sk.shape, sk.State(), n, env, sc.emb, topBb);
    if c.Fail? {
      return false;
    }
    sk.AssignBlock(n, c.value);
    return true;
  }

  // ---------------------------------------------------------------------
  // The older node picker

  /**
   * `pick_node` as written: after the loop over the entries, it returns the
   * loop variable, i.e. the LAST entry's node, whenever some entry is a
   * reaction node; otherwise every (non-reaction) entry's node.
   */
  method PickNodesAsWritten(s: Shape, lg: seq<Decoder.Logit>, dim: nat) returns (r: seq<nat>)
    requires s.Valid() && Decoder.WellFormed(s, lg, dim)
    ensures (exists j :: 0 <= j < |lg| && s.rxns[lg[j].node]) ==> r == [lg[|lg| - 1].node]
    ensures (forall j :: 0 <= j < |lg| ==> !s.rxns[lg[j].node]) ==> r == Decoder.NodesOf(lg)
  {
    var best := Decoder.BestRxnEntry(s, lg, dim);
    if best >= 0 {
      return [lg[|lg| - 1].node];
    }
    return Decoder.NodesOf(lg);
  }

  /** The two-reaction skeleton of the counterexample: two unconnected reaction nodes. */
  function TwoReactions(): Shape {
    Shape([true, true], [false, false], [-1, -1], [[], []], [false, false], [1, 1], [-1, -1], [0, 0])
  }

  /** Node 0 scores 1 on every template, node 1 scores 0. */
  function TwoLogits(): seq<Decoder.Logit> {
    [Decoder.Logit(0, Decoder.Scores([], seq(NumPoss, _ => 1))),
     Decoder.Logit(1, Decoder.Scores([], seq(NumPoss, _ => 0)))]
  }

  /** The confidence of a node that scores v on every template is v. */
  lemma ConfOfConstant(l: Decoder.Logit, v: int)
    requires l.scores.tmpl == seq(NumPoss, _ => v)
    ensures Decoder.Conf(l) == v
  {
    var c := Decoder.Conf(l);
    var i :| 0 <= i < NumPoss && l.scores.tmpl[i] == c;
  }

  lemma TwoReactionsWellFormed()
    ensures TwoReactions().Valid() && Decoder.WellFormed(TwoReactions(), TwoLogits(), 0)
  {
    var s := TwoReactions();
    assert s.Size() == 2;
    assert forall i :: 0 <= i < s.Size() ==> !s.rxns[i] || !s.leaves[i];
    assert forall i :: 0 <= i < s.Size() ==> s.children[i] == [] && s.rxnPred[i] == -1;
    var lg := TwoLogits();
    forall j | 0 <= j < |lg|
      ensures lg[j].node < s.Size() && |lg[j].scores.tmpl| == NumPoss && |lg[j].scores.emb| == 0
    {
      assert j == 0 || j == 1;
    }
  }

  /** On this frontier the best reaction is node 0, yet `PickNodesAsWritten` returns the last node, 1. */
  lemma LastKeyIsNotBest()
    ensures TwoReactions().Valid() && Decoder.WellFormed(TwoReactions(), TwoLogits(), 0)
    ensures Decoder.BestRxn(TwoReactions(), TwoLogits(), 0, 0)
    ensures !Decoder.BestRxn(TwoReactions(), TwoLogits(), 0, 1)
    ensures TwoLogits()[|TwoLogits()| - 1].node != TwoLogits()[0].node
  {
    TwoReactionsWellFormed();
    var lg := TwoLogits();
    ConfOfConstant(lg[0], 1);
    ConfOfConstant(lg[1], 0);
  }

  /** The nodes the corrected `pick_node` returns, as a value. */
  function PickNodesOf(s: Shape, lg: seq<Decoder.Logit>, dim: nat): (r: seq<nat>)
    requires s.Valid() && Decoder.WellFormed(s, lg, dim)
    ensures |r| <= |lg|
    ensures forall i :: 0 <= i < |r| ==> r[i] in Decoder.NodesOf(lg)
    ensures (exists j :: 0 <= j < |lg| && s.rxns[lg[j].node]) ==>
      exists k :: 0 <= k < |lg| && r == [lg[k].node] && Decoder.BestRxn(s, lg, dim, k)
    ensures (forall j :: 0 <= j < |lg| ==> !s.rxns[lg[j].node]) ==> r == Decoder.NodesOf(lg)
  {
    var best := Decoder.BestRxnOf(s, lg, dim);
    if best >= 0 then
      assert lg[best].node == Decoder.NodesOf(lg)[best];
      [lg[best].node]
    else Decoder.NodesOf(lg)
  }

  /**
   * `pick_node` as evidently intended: the best reaction node alone when
   * the frontier has one, every entry's node otherwise.
   */
  method PickNodes(s: Shape, lg: seq<Decoder.Logit>, dim: nat) returns (r: seq<nat>)
    requires s.Valid() && Decoder.WellFormed(s, lg, dim)
    ensures r == PickNodesOf(s, lg, dim)
    ensures (exists j :: 0 <= j < |lg| && s.rxns[lg[j].node]) ==>
      exists k :: 0 <= k < |lg| && r == [lg[k].node] && Decoder.BestRxn(s, lg, dim, k)
    ensures (forall j :: 0 <= j < |lg| ==> !s.rxns[lg[j].node]) ==> r == Decoder.NodesOf(lg)
  {
    var best := Decoder.BestRxnEntry(s, lg, dim);
    if best >= 0 {
      return [lg[best].node];
    }
    return Decoder.NodesOf(lg);
  }

  // ---------------------------------------------------------------------
  // The older worklist

  /**
   * The copies of beam b filled at node n by the older `fill_in`: copy k
   * (counting from 1) with building-block rank k; Fail when one fill fails.
   */
  function BranchOf(s: Shape, b: Fill, n: nat, sc: Decoder.Scores, env: LegacyEnv, copies: nat): (r: Result<seq<Fill>>)
    requires s.Valid() && Fits(s, b) && n < s.Size() && env.base.Valid(s.Size()) && |sc.tmpl| == NumPoss
    ensures r.Ok? <==> forall k :: 1 <= k <= copies ==> FillOf(s, b, n, sc, env, k).Ok?
    ensures r.Ok? ==> |r.value| == copies
    ensures r.Ok? ==> forall k :: 1 <= k <= copies ==> r.value[k - 1] == FillOf(s, b, n, sc, env, k).value
    decreases copies
  {
    if copies == 0 then Ok([])
    else
      match BranchOf(s, b, n, sc, env, copies - 1)
      case Fail => Fail
      case Ok(out) =>
        match FillOf(s, b, n, sc, env, copies)
        case Fail => Fail
        case Ok(f) => Ok(out + [f])
  }

  /** The copies `BranchOf` makes of an open derived beam are derived and lighter. */
  lemma BranchLighter(s: Shape, start: Fill, env: LegacyEnv, b: Fill, n: nat, sc: Decoder.Scores, copies: nat)
    requires s.Valid() && Fits(s, start) && env.base.Valid(s.Size()) && Decoder.Derived(s, start, b, |env.base.bbs|)
    requires n < s.Size() && Open(s, b, n) && |sc.tmpl| == NumPoss
    requires BranchOf(s, b, n, sc, env, copies).Ok?
    ensures Lighter(s, start, |env.base.bbs|, b, BranchOf(s, b, n, sc, env, copies).value)
  {
    var next := BranchOf(s, b, n, sc, env, copies).value;
    forall j | 0 <= j < |next|
      ensures Decoder.Derived(s, start, next[j], |env.base.bbs|) && Unfilled(s, next[j]) < Unfilled(s, b)
    {
      assert next[j] == FillOf(s, b, n, sc, env, j + 1).value;
      Decoder.FillKeepsDerived(s, start, b, next[j], n, |env.base.bbs|);
    }
  }

  /** `BranchOf`, computed one fresh copy at a time. */
  method Branch(s: Shape, env: LegacyEnv, b: Fill, n: nat, sc: Decoder.Scores, copies: nat)
    returns (r: Result<seq<Fill>>)
    requires s.Valid() && Fits(s, b) && env.base.Valid(s.Size())
    requires n < s.Size() && |sc.tmpl| == NumPoss
    ensures r == BranchOf(s, b, n, sc, env, copies)
  {
    var out: seq<Fill> := [];
    for k := 1 to copies + 1
      invariant BranchOf(s, b, n, sc, env, k - 1) == Ok(out)
    {
      var c := FillCopy(s, env, b, n, sc, k);
      if c.Fail? {
        return Fail;
      }
      out := out + [c.value];
    }
    return Ok(out);
  }

  /** A fresh copy of b with node n filled by the older `fill_in`, building-block rank k: `FillOf`. */
  method FillCopy(s: Shape, env: LegacyEnv, b: Fill, n: nat, sc: Decoder.Scores, k: nat)
    returns (r: Result<Fill>)
    requires s.Valid() && Fits(s, b) && env.base.Valid(s.Size())
    requires n < s.Size() && |sc.tmpl| == NumPoss && k >= 1
    ensures r == FillOf(s, b, n, sc, env, k)
  {
    var sk := new Skeleton.Copy(s, b);
    var ok := FillIn(sk, n, sc, env, k);
    if !ok {
      return Fail;
    }
    return Ok(sk.State());
  }

  /** Every beam of next is derived from the start and has less left to fill than b. */
  predicate Lighter(s: Shape, start: Fill, cat: nat, b: Fill, next: seq<Fill>)
    requires s.Valid() && Fits(s, start) && Fits(s, b)
  {
    forall j :: 0 <= j < |next| ==> Decoder.Derived(s, start, next[j], cat) && Unfilled(s, next[j]) < Unfilled(s, b)
  }

  lemma LighterConcat(s: Shape, start: Fill, cat: nat, b: Fill, out: seq<Fill>, more: seq<Fill>)
    requires s.Valid() && Fits(s, start) && Fits(s, b)
    requires Lighter(s, start, cat, b, out) && Lighter(s, start, cat, b, more)
    ensures Lighter(s, start, cat, b, out + more)
  {
    forall j | 0 <= j < |out + more|
      ensures Decoder.Derived(s, start, (out + more)[j], cat) && Unfilled(s, (out + more)[j]) < Unfilled(s, b)
    {
      if j < |out| {
        assert (out + more)[j] == out[j];
      } else {
        assert (out + more)[j] == more[j - |out|];
      }
    }
  }

  /** What the worklist needs to know of lighter beams. */
  lemma LighterFacts(s: Shape, start: Fill, cat: nat, b: Fill, next: seq<Fill>)
    requires s.Valid() && Fits(s, start) && Fits(s, b)
    requires Lighter(s, start, cat, b, next)
    ensures Decoder.AllDerived(s, start, next, cat)
    ensures forall j :: 0 <= j < |next| ==> Fits(s, next[j]) && Unfilled(s, next[j]) < Unfilled(s, b)
  {
  }

  lemma MulMonotone(a: nat, b: nat, c: nat)
    requires a <= b
    ensures a * c <= b * c
  {
  }

  /** What the older decoder makes of beam b at one picked node n: `Decoder.Copies` copies, each filled at n. */
  function ExpandAtOf(s: Shape, b: Fill, env: LegacyEnv, topK: nat, n: nat): (r: Result<seq<Fill>>)
    requires s.Valid() && Fits(s, b) && env.base.Valid(s.Size()) && n < s.Size()
    ensures r.Ok? ==> |r.value| == Decoder.Copies(s, b, n, topK) <= Decoder.Width(topK)
  {
    BranchOf(s, b, n, Decoder.Entry(s, b, env.base, n).scores, env, Decoder.Copies(s, b, n, topK))
  }

  /** Fills open node n of b, in `topK` copies when topK > 1 and n is b's first leaf, in one otherwise. */
  method ExpandAt(s: Shape, env: LegacyEnv, topK: nat, b: Fill, n: nat) returns (r: Result<seq<Fill>>)
    requires s.Valid() && Fits(s, b) && env.base.Valid(s.Size()) && n < s.Size()
    ensures r == ExpandAtOf(s, b, env, topK, n)
  {
    var copies := if topK > 1 && s.leaves[n] && !LeafFilled(s, b) then topK else 1;
    r := Branch(s, env, b, n, Decoder.Entry(s, b, env.base, n).scores, copies);
  }

  /** The results of f at the positions poss, concatenated in order; Fail when one of them fails. */
  function Gathered<T>(f: nat -> Result<seq<T>>, poss: seq<nat>): (r: Result<seq<T>>)
    ensures r.Ok? <==> forall i :: 0 <= i < |poss| ==> f(poss[i]).Ok?
  {
    if poss == [] then Ok([])
    else
      var init := poss[..|poss| - 1];
      assert forall i :: 0 <= i < |init| ==> init[i] == poss[i];
      match Gathered(f, init)
      case Fail => Fail
      case Ok(out) =>
        match f(poss[|poss| - 1])
        case Fail => Fail
        case Ok(next) => Ok(out + next)
  }

  /** Gathering at most w results per position gives at most `|poss| * w` of them. */
  lemma {:induction false} GatheredLength<T>(f: nat -> Result<seq<T>>, poss: seq<nat>, w: nat)
    requires forall i :: 0 <= i < |poss| && f(poss[i]).Ok? ==> |f(poss[i]).value| <= w
    requires Gathered(f, poss).Ok?
    ensures |Gathered(f, poss).value| <= |poss| * w
  {
    if poss != [] {
      var init := poss[..|poss| - 1];
      assert forall i :: 0 <= i < |init| ==> init[i] == poss[i];
      GatheredLength(f, init, w);
      MulSucc(|init|, w);
    }
  }

  /** `ExpandAtOf` at every node of b, Fail outside the skeleton. */
  function AtNode(s: Shape, b: Fill, env: LegacyEnv, topK: nat): nat -> Result<seq<Fill>>
    requires s.Valid() && Fits(s, b) && env.base.Valid(s.Size())
  {
    (n: nat) => if n < s.Size() then ExpandAtOf(s, b, env, topK, n) else Fail
  }

  /**
   * The beams made at the picked nodes poss, in order: the concatenation
   * of every node's `ExpandAtOf`, Fail when one of them fails.
   */
  function ExpandNodesOf(s: Shape, b: Fill, env: LegacyEnv, topK: nat, poss: seq<nat>): (r: Result<seq<Fill>>)
    requires s.Valid() && Fits(s, b) && env.base.Valid(s.Size())
    requires forall i :: 0 <= i < |poss| ==> poss[i] < s.Size()
    ensures r.Ok? <==> forall i :: 0 <= i < |poss| ==> ExpandAtOf(s, b, env, topK, poss[i]).Ok?
    ensures r.Ok? ==> |r.value| <= |poss| * Decoder.Width(topK)
  {
    var f := AtNode(s, b, env, topK);
    assert forall i :: 0 <= i < |poss| ==> f(poss[i]) == ExpandAtOf(s, b, env, topK, poss[i]);
    if Gathered(f, poss).Ok? then
      GatheredLength(f, poss, Decoder.Width(topK));
      Gathered(f, poss)
    else
      Gathered(f, poss)
  }

  /** The beams made at open nodes of a derived beam are derived and lighter. */
  lemma {:induction false} ExpandNodesLighter(s: Shape, start: Fill, env: LegacyEnv, topK: nat, b: Fill, poss: seq<nat>)
    requires s.Valid() && Fits(s, start) && env.base.Valid(s.Size()) && Decoder.Derived(s, start, b, |env.base.bbs|)
    requires forall i :: 0 <= i < |poss| ==> poss[i] < s.Size() && Open(s, b, poss[i])
    requires ExpandNodesOf(s, b, env, topK, poss).Ok?
    ensures Lighter(s, start, |env.base.bbs|, b, ExpandNodesOf(s, b, env, topK, poss).value)
  {
    if poss != [] {
      var init := poss[..|poss| - 1];
      var n := poss[|poss| - 1];
      ExpandNodesLighter(s, start, env, topK, b, init);
      BranchLighter(s, start, env, b, n, Decoder.Entry(s, b, env.base, n).scores, Decoder.Copies(s, b, n, topK));
      LighterConcat(s, start, |env.base.bbs|, b, ExpandNodesOf(s, b, env, topK, init).value, ExpandAtOf(s, b, env, topK, n).value);
    }
  }

  /** Fills each picked node in its own copies of b, one after the other, as `ExpandNodesOf` says. */
  method ExpandNodes(s: Shape, env: LegacyEnv, topK: nat, b: Fill, poss: seq<nat>)
    returns (r: Result<seq<Fill>>)
    requires s.Valid() && Fits(s, b) && env.base.Valid(s.Size())
    requires forall i :: 0 <= i < |poss| ==> poss[i] < s.Size()
    ensures r == ExpandNodesOf(s, b, env, topK, poss)
  {
    var out: seq<Fill> := [];
    for q := 0 to |poss|
      invariant ExpandNodesOf(s, b, env, topK, poss[..q]) == Ok(out)
    {
      assert poss[..q + 1][..q] == poss[..q];
      var next := ExpandAt(s, env, topK, b, poss[q]);
      if next.Fail? {
        return Fail;
      }
      out := out + next.value;
    }
    assert poss[..|poss|] == poss;
    return Ok(out);
  }

  /** The nodes the corrected picker returns are open nodes of the beam. */
  lemma PicksOpen(s: Shape, b: Fill, env: Decoder.Env, lg: seq<Decoder.Logit>)
    requires s.Valid() && Fits(s, b) && Decoder.WellFormed(s, lg, env.dim)
    requires forall j :: 0 <= j < |lg| ==> Open(s, b, lg[j].node)
    ensures var poss := PickNodesOf(s, lg, env.dim);
      forall i :: 0 <= i < |poss| ==> poss[i] < s.Size() && Open(s, b, poss[i])
  {
    var poss := PickNodesOf(s, lg, env.dim);
    forall i | 0 <= i < |poss|
      ensures poss[i] < s.Size() && Open(s, b, poss[i])
    {
      PickedOpen(s, b, env, lg, poss[i]);
    }
  }

  /** A node the picker returns is an open node of the beam. */
  lemma PickedOpen(s: Shape, b: Fill, env: Decoder.Env, lg: seq<Decoder.Logit>, n: nat)
    requires s.Valid() && Fits(s, b) && Decoder.WellFormed(s, lg, env.dim)
    requires forall j :: 0 <= j < |lg| ==> Open(s, b, lg[j].node)
    requires n in Decoder.NodesOf(lg)
    ensures n < s.Size() && Open(s, b, n)
  {
    var k :| 0 <= k < |lg| && Decoder.NodesOf(lg)[k] == n;
    assert lg[k].node == n;
  }

  /**
   * One step of the older decoder on an unfinished beam b: every node the
   * picker returns is filled in its own copies of b; Fail where the logits
   * or a fill fail.
   */
  function ExpandOf(s: Shape, b: Fill, env: LegacyEnv, topK: nat): (r: Result<seq<Fill>>)
    requires s.Valid() && Fits(s, b) && env.base.Valid(s.Size())
    ensures r.Ok? <==>
      var lg := Decoder.Logits(s, b, env.base, env.base.frontier(b));
      && lg.Ok?
      && var poss := PickNodesOf(s, lg.value, env.base.dim);
         forall i :: 0 <= i < |poss| ==> poss[i] < s.Size() && ExpandAtOf(s, b, env, topK, poss[i]).Ok?
    ensures r.Ok? ==> |r.value| < Fanout(s, topK)
  {
    match Decoder.Logits(s, b, env.base, env.base.frontier(b))
    case Fail => Fail
    case Ok(lg) =>
      var poss := PickNodesOf(s, lg, env.base.dim);
      PicksOpen(s, b, env.base, lg);
      var r := ExpandNodesOf(s, b, env, topK, poss);
      if r.Ok? then
        MulMonotone(|poss|, s.Size(), Decoder.Width(topK));
        r
      else r
  }

  /** The beams `ExpandOf` makes of a derived beam are derived and lighter. */
  lemma ExpandLighter(s: Shape, start: Fill, env: LegacyEnv, topK: nat, b: Fill)
    requires s.Valid() && Fits(s, start) && env.base.Valid(s.Size()) && Decoder.Derived(s, start, b, |env.base.bbs|)
    requires ExpandOf(s, b, env, topK).Ok?
    ensures Lighter(s, start, |env.base.bbs|, b, ExpandOf(s, b, env, topK).value)
  {
    var lg := Decoder.Logits(s, b, env.base, env.base.frontier(b)).value;
    PicksOpen(s, b, env.base, lg);
    ExpandNodesLighter(s, start, env, topK, b, PickNodesOf(s, lg, env.base.dim));
  }

  /** One step of the older decoder on an unfinished beam b, as `ExpandOf` says. */
  method Expand(s: Shape, env: LegacyEnv, topK: nat, b: Fill) returns (r: Result<seq<Fill>>)
    requires s.Valid() && Fits(s, b) && env.base.Valid(s.Size())
    ensures r == ExpandOf(s, b, env, topK)
  {
    var logits := Decoder.Logits(s, b, env.base, env.base.frontier(b));
    if logits.Fail? {
      return Fail;
    }
    var lg := logits.value;
    var poss := PickNodes(s, lg, env.base.dim);
    PicksOpen(s, b, env.base, lg);
    r := ExpandNodes(s, env, topK, b, poss);
  }

  /** Appending derived beams to derived beams keeps every beam derived. */
  lemma AllDerivedConcat(s: Shape, start: Fill, a: seq<Fill>, b: seq<Fill>, cat: nat)
    requires s.Valid() && Fits(s, start)
    requires Decoder.AllDerived(s, start, a, cat) && Decoder.AllDerived(s, start, b, cat)
    ensures Decoder.AllDerived(s, start, a + b, cat)
  {
    forall j | 0 <= j < |a + b|
      ensures Decoder.Derived(s, start, (a + b)[j], cat)
    {
      if j >= |a| {
        assert (a + b)[j] == b[j - |a|];
      }
    }
  }

  /** Moving the top beam to the output lowers the weight of the stack. */
  lemma PopFinished(s: Shape, sks: seq<Fill>, p: nat)
    requires s.Valid() && |sks| > 0 && p >= 1
    requires forall j :: 0 <= j < |sks| ==> Fits(s, sks[j])
    ensures Decoder.Weight(Decoder.Loads(s, sks[..|sks| - 1]), p) < Decoder.Weight(Decoder.Loads(s, sks), p)
  {
    var b := sks[|sks| - 1];
    var rest := sks[..|sks| - 1];
    assert sks == rest + [b];
    Decoder.LoadsConcat(s, rest, [b]);
    assert Decoder.Loads(s, [b]) == [Unfilled(s, b)];
    Decoder.WeightConcat(Decoder.Loads(s, rest), [Unfilled(s, b)], p);
    assert [Unfilled(s, b)][..0] == [];
    Decoder.PowPositive(p, Unfilled(s, b));
  }

  /** One more than the most beams one step can push: the base of the termination weight. */
  function Fanout(s: Shape, topK: nat): (p: nat)
    ensures p >= 1
  {
    s.Size() * Decoder.Width(topK) + 1
  }

  /** The worklist invariant of the older decoder: every beam derived from start, every output complete. */
  ghost predicate Worklist(s: Shape, start: Fill, cat: nat, sks: seq<Fill>, finals: seq<Fill>)
    requires s.Valid() && Fits(s, start)
  {
    Decoder.AllDerived(s, start, sks, cat) && Decoder.AllDerived(s, start, finals, cat) && Decoder.AllComplete(s, finals)
  }

  /** One iteration of the older loop: the top beam moves to the output when complete, and is otherwise replaced by `ExpandOf`. */
  function StepOf(s: Shape, env: LegacyEnv, topK: nat, sks: seq<Fill>, finals: seq<Fill>): (r: Result<(seq<Fill>, seq<Fill>)>)
    requires s.Valid() && env.base.Valid(s.Size()) && |sks| > 0
    requires forall j :: 0 <= j < |sks| ==> Fits(s, sks[j])
  {
    var b := sks[|sks| - 1];
    if Complete(s, b) then Ok((sks[..|sks| - 1], finals + [b]))
    else
      match ExpandOf(s, b, env, topK)
      case Fail => Fail
      case Ok(next) => Ok((sks[..|sks| - 1] + next, finals))
  }

  /** A successful step keeps the worklist invariant and strictly lowers the weight. */
  lemma StepKeeps(s: Shape, start: Fill, env: LegacyEnv, topK: nat, sks: seq<Fill>, finals: seq<Fill>)
    requires s.Valid() && Fits(s, start) && env.base.Valid(s.Size()) && |sks| > 0
    requires Worklist(s, start, |env.base.bbs|, sks, finals)
    requires StepOf(s, env, topK, sks, finals).Ok?
    ensures var (sks', finals') := StepOf(s, env, topK, sks, finals).value;
      && Worklist(s, start, |env.base.bbs|, sks', finals')
      && Decoder.Weight(Decoder.Loads(s, sks'), Fanout(s, topK)) < Decoder.Weight(Decoder.Loads(s, sks), Fanout(s, topK))
  {
    var b := sks[|sks| - 1];
    assert Decoder.Derived(s, start, b, |env.base.bbs|);
    if Complete(s, b) {
      PopDone(s, start, |env.base.bbs|, sks, finals, Fanout(s, topK));
    } else {
      ExpandLighter(s, start, env, topK, b);
      PopExpanded(s, start, |env.base.bbs|, sks, finals, ExpandOf(s, b, env, topK).value, Fanout(s, topK));
    }
  }

  /** One iteration of the older loop, as `StepOf` says. */
  method Step(s: Shape, env: LegacyEnv, topK: nat, sks: seq<Fill>, finals: seq<Fill>)
    returns (r: Result<(seq<Fill>, seq<Fill>)>)
    requires s.Valid() && env.base.Valid(s.Size()) && |sks| > 0
    requires forall j :: 0 <= j < |sks| ==> Fits(s, sks[j])
    ensures r == StepOf(s, env, topK, sks, finals)
  {
    var b := sks[|sks| - 1];
    var rest := sks[..|sks| - 1];
    if Complete(s, b) {
      return Ok((rest, finals + [b]));
    }
    var next := Expand(s, env, topK, b);
    if next.Fail? {
      return Fail;
    }
    return Ok((rest + next.value, finals));
  }

  /** Moving a finished top beam to the output keeps the invariant and lowers the weight. */
  lemma PopDone(s: Shape, start: Fill, cat: nat, sks: seq<Fill>, finals: seq<Fill>, p: nat)
    requires s.Valid() && Fits(s, start) && |sks| > 0 && p >= 1
    requires Worklist(s, start, cat, sks, finals) && Complete(s, sks[|sks| - 1])
    ensures Worklist(s, start, cat, sks[..|sks| - 1], finals + [sks[|sks| - 1]])
    ensures Decoder.Weight(Decoder.Loads(s, sks[..|sks| - 1]), p) < Decoder.Weight(Decoder.Loads(s, sks), p)
  {
    Decoder.Moved(s, start, cat, sks, finals);
    PopFinished(s, sks, p);
  }

  /** Replacing the top beam by fewer than p beams with less left to fill keeps the invariant and lowers the weight. */
  lemma PopExpanded(s: Shape, start: Fill, cat: nat, sks: seq<Fill>, finals: seq<Fill>, next: seq<Fill>, p: nat)
    requires s.Valid() && Fits(s, start) && |sks| > 0
    requires Worklist(s, start, cat, sks, finals) && !Complete(s, sks[|sks| - 1]) && |next| < p
    requires Lighter(s, start, cat, sks[|sks| - 1], next)
    ensures Worklist(s, start, cat, sks[..|sks| - 1] + next, finals)
    ensures Decoder.Weight(Decoder.Loads(s, sks[..|sks| - 1] + next), p) < Decoder.Weight(Decoder.Loads(s, sks), p)
  {
    LighterFacts(s, start, cat, sks[|sks| - 1], next);
    Decoder.PopWeight(s, sks, next, p);
    AllDerivedConcat(s, start, sks[..|sks| - 1], next, cat);
  }

  /** The outcome of running the older loop from stack sks and output finals until the stack is empty. */
  function RunOf(s: Shape, start: Fill, env: LegacyEnv, topK: nat, sks: seq<Fill>, finals: seq<Fill>): Result<seq<Fill>>
    requires s.Valid() && Fits(s, start) && env.base.Valid(s.Size())
    requires Worklist(s, start, |env.base.bbs|, sks, finals)
    decreases Decoder.Weight(Decoder.Loads(s, sks), Fanout(s, topK))
  {
    if sks == [] then Ok(finals)
    else
      match StepOf(s, env, topK, sks, finals)
      case Fail => Fail
      case Ok(p) =>
        StepKeeps(s, start, env, topK, sks, finals);
        RunOf(s, start, env, topK, p.0, p.1)
  }

  /** What the older run returns: beams that are all complete and derived from the start. */
  lemma {:induction false} RunFacts(s: Shape, start: Fill, env: LegacyEnv, topK: nat, sks: seq<Fill>, finals: seq<Fill>)
    requires s.Valid() && Fits(s, start) && env.base.Valid(s.Size())
    requires Worklist(s, start, |env.base.bbs|, sks, finals)
    requires RunOf(s, start, env, topK, sks, finals).Ok?
    ensures Worklist(s, start, |env.base.bbs|, [], RunOf(s, start, env, topK, sks, finals).value)
    decreases Decoder.Weight(Decoder.Loads(s, sks), Fanout(s, topK))
  {
    if sks != [] {
      StepKeeps(s, start, env, topK, sks, finals);
      var p := StepOf(s, env, topK, sks, finals).value;
      RunFacts(s, start, env, topK, p.0, p.1);
    }
  }

  /** The older `wrapper_decoder` on the start beam: the run from the stack holding only it. */
  function DecodeOf(s: Shape, start: Fill, env: LegacyEnv, topK: nat): Result<seq<Fill>>
    requires s.Valid() && Fits(s, start) && env.base.Valid(s.Size())
  {
    assert Decoder.Derived(s, start, start, |env.base.bbs|);
    RunOf(s, start, env, topK, [start], [])
  }

  /** A successful older decoding returns beams that are all complete and derived from the start. */
  lemma DecodeFacts(s: Shape, start: Fill, env: LegacyEnv, topK: nat)
    requires s.Valid() && Fits(s, start) && env.base.Valid(s.Size())
    requires DecodeOf(s, start, env, topK).Ok?
    ensures var r := DecodeOf(s, start, env, topK).value;
      forall j :: 0 <= j < |r| ==> Decoder.Derived(s, start, r[j], |env.base.bbs|) && Complete(s, r[j])
  {
    assert Decoder.Derived(s, start, start, |env.base.bbs|);
    RunFacts(s, start, env, topK, [start], []);
  }

  /** An already complete start beam comes back alone from the older decoder. */
  lemma DecodeComplete(s: Shape, start: Fill, env: LegacyEnv, topK: nat)
    requires s.Valid() && Fits(s, start) && env.base.Valid(s.Size())
    requires Complete(s, start)
    ensures DecodeOf(s, start, env, topK) == Ok([start])
  {
    assert Decoder.Derived(s, start, start, |env.base.bbs|);
    StepOnComplete(s, env, topK, start);
    StepKeeps(s, start, env, topK, [start], []);
    assert RunOf(s, start, env, topK, [], [start]) == Ok([start]);
  }

  /** A complete beam alone on the stack moves to the output in one step. */
  lemma StepOnComplete(s: Shape, env: LegacyEnv, topK: nat, b: Fill)
    requires s.Valid() && env.base.Valid(s.Size()) && Fits(s, b) && Complete(s, b)
    ensures StepOf(s, env, topK, [b], []) == Ok(([], [b]))
  {
    assert [b][..0] == [] && [] + [b] == [b];
  }

  /** The older `wrapper_decoder`: the same stack loop, with several nodes per step; the result is `DecodeOf`. */
  method WrapperDecoder(s: Shape, start: Fill, env: LegacyEnv, topK: nat) returns (r: Result<seq<Fill>>)
    requires s.Valid() && Fits(s, start) && env.base.Valid(s.Size())
    ensures r == DecodeOf(s, start, env, topK)
  {
    var sks := [start];
    var finals: seq<Fill> := [];
    assert Decoder.Derived(s, start, start, |env.base.bbs|);
    while |sks| > 0
      invariant Worklist(s, start, |env.base.bbs|, sks, finals)
      invariant RunOf(s, start, env, topK, sks, finals) == DecodeOf(s, start, env, topK)
      decreases Decoder.Weight(Decoder.Loads(s, sks), Fanout(s, topK))
    {
      var next := Step(s, env, topK, sks, finals);
      if next.Fail? {
        return Fail;
      }
      StepKeeps(s, start, env, topK, sks, finals);
      sks, finals := next.value.0, next.value.1;
    }
    return Ok(finals);
  }
}
