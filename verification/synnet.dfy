/**
 * The decoding helpers of the step-by-step synthetic tree decoder: the
 * action and reaction masks, the state embedding layout, the decoding
 * loop and its greedy wrapper.
 *
 * The networks, the nearest-neighbour searches, the chemistry and the
 * synthetic tree's own bookkeeping are given functions (`Nets`).  The tree
 * is modelled by the sequence of its recorded steps.
 */
module Predict {
  import opened Basics

  /** A reaction template, seen from the molecules it is asked about. */
  datatype Template = Template(
    numReactant: nat,
    isReactant: string -> bool,
    isFirst: string -> bool,
    isSecond: string -> bool,
    available0: seq<string>,
    available1: seq<string>)

  /** `react(i, mol1, mol2)`: `run_reaction` of template i. */
  type Reactor = (nat, string, Option<string>) -> Option<string>

  // ---------------------------------------------------------------------
  // can_react

  /** Entry i is 1 iff template i yields a product from (mol1, mol2). */
  function ReactMask(n: nat, mol1: string, mol2: string, react: Reactor): (m: seq<int>)
    ensures |m| == n
    ensures forall i :: 0 <= i < n ==> (m[i] == 1 <==> react(i, mol1, Some(mol2)).Some?) && (m[i] == 0 || m[i] == 1)
  {
    seq(n, i requires 0 <= i < n => if react(i, mol1, Some(mol2)).Some? then 1 else 0)
  }

  /** The number of ones of a 0/1 mask. */
  function Ones(m: seq<int>): (c: nat)
    ensures c <= |m| || exists i :: 0 <= i < |m| && m[i] != 0 && m[i] != 1
  {
    if m == [] then 0 else Ones(m[..|m| - 1]) + (if m[|m| - 1] == 1 then 1 else 0)
  }

  /** A 0/1 mask has no ones iff every entry is 0. */
  lemma {:induction false} OnesZero(m: seq<int>)
    requires forall i :: 0 <= i < |m| ==> m[i] == 0 || m[i] == 1
    ensures Ones(m) == 0 <==> forall i :: 0 <= i < |m| ==> m[i] == 0
  {
    if m != [] {
      OnesZero(m[..|m| - 1]);
      assert forall i :: 0 <= i < |m| - 1 ==> m[..|m| - 1][i] == m[i];
    }
  }

  /** A list of molecules that `can_react` pops from. */
  class MolList {
    var items: seq<string>

    constructor (items: seq<string>)
      ensures this.items == items
    {
      this.items := items;
    }

    /**
     * `can_react(state, rxns)`: pops the last two molecules (raising when
     * fewer than two are left, after popping what there is) and masks the
     * templates that react them.
     */
    method CanReact(n: nat, react: Reactor) returns (r: Result<(nat, seq<int>)>)
      modifies this
      ensures items == old(items)[..if |old(items)| >= 2 then |old(items)| - 2 else 0]
      ensures r.Fail? <==> |old(items)| < 2
      ensures r.Ok? ==> var mask := ReactMask(n, old(items)[|old(items)| - 1], old(items)[|old(items)| - 2], react);
        r.value == (Ones(mask), mask)
      ensures r.Ok? ==> (r.value.0 == 0 <==> forall i :: 0 <= i < n ==> r.value.1[i] == 0)
    {
      if |items| == 0 {
        return Fail;
      }
      var mol1 := items[|items| - 1];
      items := items[..|items| - 1];
      if |items| == 0 {
        return Fail;
      }
      var mol2 := items[|items| - 1];
      items := items[..|items| - 1];
      var mask := ReactMask(n, mol1, mol2, react);
      OnesZero(mask);
      r := Ok((Ones(mask), mask));
    }
  }

  // ---------------------------------------------------------------------
  // get_action_mask

  /** The actions: Add 0, Expand 1, Merge 2, End 3. */
  const Add := 0
  const Expand := 1
  const Merge := 2
  const End := 3

  /**
   * `get_action_mask`: Add only on an empty state; Add, Expand or End on
   * one molecule; Expand, and Merge when some template reacts the two
   * molecules, on two; raises on more.
   */
  method GetActionMask(state: seq<string>, n: nat, react: Reactor) returns (r: Result<seq<bool>>)
    ensures r.Fail? <==> |state| > 2
    ensures |state| == 0 ==> r == Ok([true, false, false, false])
    ensures |state| == 1 ==> r == Ok([true, true, false, true])
    ensures |state| == 2 ==> r == Ok([false, true, exists i :: 0 <= i < n && react(i, state[1], Some(state[0])).Some?, false])
    ensures r.Ok? ==> |r.value| == 4 && exists a :: 0 <= a < 4 && r.value[a]
    ensures r.Ok? ==> (r.value[End] <==> |state| == 1) && (r.value[Add] <==> |state| < 2)
  {
    if |state| == 0 {
      r := Ok([true, false, false, false]);
      assert r.value[Add];
    } else if |state| == 1 {
      r := Ok([true, true, false, true]);
      assert r.value[Add];
    } else if |state| == 2 {
      var l := new MolList(state);
      var c := l.CanReact(n, react);
      r := Ok([false, true, c.value.0 != 0, false]);
      assert r.value[Expand];
    } else {
      r := Fail;
    }
  }

  // ---------------------------------------------------------------------
  // get_reaction_mask

  /** Template t accepts smi and takes two reactants. */
  predicate Bimolecular(t: Template, smi: string) {
    t.isReactant(smi) && t.numReactant == 2
  }

  /** The partner list of template t for smi: the other slot's reactants, or nothing. */
  function Partners(t: Template, smi: string): seq<string> {
    if Bimolecular(t, smi) then (if t.isFirst(smi) then t.available1 else t.available0) else []
  }

  /** The mask entry: t accepts smi and, when bimolecular, has some partner. */
  function MaskEntry(t: Template, smi: string): int {
    if t.isReactant(smi) && (t.numReactant != 2 || |Partners(t, smi)| > 0) then 1 else 0
  }

  /** An accepting bimolecular template that takes smi in neither slot. */
  predicate Unplaced(t: Template, smi: string) {
    Bimolecular(t, smi) && !t.isFirst(smi) && !t.isSecond(smi)
  }

  /**
   * `get_reaction_mask(smi, rxns)`: None when no template accepts smi;
   * otherwise the per-template mask and partner lists, a bimolecular
   * template with no partner being masked out; raises when an accepting
   * bimolecular template takes smi in neither slot.
   */
  function ReactionMaskOf(smi: string, rxns: seq<Template>): Result<Option<(seq<int>, seq<seq<string>>)>> {
    if forall i :: 0 <= i < |rxns| ==> !rxns[i].isReactant(smi) then Ok(None)
    else if exists i :: 0 <= i < |rxns| && Unplaced(rxns[i], smi) then Fail
    else Ok(Some((seq(|rxns|, i requires 0 <= i < |rxns| => MaskEntry(rxns[i], smi)),
                  seq(|rxns|, i requires 0 <= i < |rxns| => Partners(rxns[i], smi)))))
  }

  /** `get_reaction_mask(smi, rxns)`, computed template by template; the result is `ReactionMaskOf`. */
  method GetReactionMask(smi: string, rxns: seq<Template>) returns (r: Result<Option<(seq<int>, seq<seq<string>>)>>)
    ensures r == ReactionMaskOf(smi, rxns)
    ensures r == Ok(None) <==> forall i :: 0 <= i < |rxns| ==> !rxns[i].isReactant(smi)
    ensures r.Fail? <==> (exists i :: 0 <= i < |rxns| && rxns[i].isReactant(smi)) && exists i :: 0 <= i < |rxns| && Unplaced(rxns[i], smi)
    ensures r.Ok? && r.value.Some? ==> var (mask, avail) := r.value.value;
      |mask| == |avail| == |rxns| &&
      forall i :: 0 <= i < |rxns| ==> mask[i] == MaskEntry(rxns[i], smi) && avail[i] == Partners(rxns[i], smi)
  {
    var mask := seq(|rxns|, i requires 0 <= i < |rxns| => if rxns[i].isReactant(smi) then 1 else 0);
    if forall i :: 0 <= i < |rxns| ==> mask[i] == 0 {
      assert forall i :: 0 <= i < |rxns| ==> !rxns[i].isReactant(smi) by {
        forall i | 0 <= i < |rxns| ensures !rxns[i].isReactant(smi) {
          assert mask[i] == 0;
        }
      }
      return Ok(None);
    }
    var avail: seq<seq<string>> := [];
    for i := 0 to |rxns|
      invariant |mask| == |rxns| && |avail| == i
      invariant forall j :: 0 <= j < i ==> !Unplaced(rxns[j], smi)
      invariant forall j :: 0 <= j < i ==> mask[j] == MaskEntry(rxns[j], smi) && avail[j] == Partners(rxns[j], smi)
      invariant forall j :: i <= j < |rxns| ==> mask[j] == if rxns[j].isReactant(smi) then 1 else 0
    {
      if mask[i] != 0 && rxns[i].numReactant == 2 {
        if rxns[i].isFirst(smi) {
          avail := avail + [rxns[i].available1];
        } else if rxns[i].isSecond(smi) {
          avail := avail + [rxns[i].available0];
        } else {
          assert Unplaced(rxns[i], smi);
          return Fail;
        }
        if |avail[i]| == 0 {
          mask := mask[i := 0];
        }
      } else {
        avail := avail + [[]];
      }
    }
    assert mask == seq(|rxns|, i requires 0 <= i < |rxns| => MaskEntry(rxns[i], smi));
    assert avail == seq(|rxns|, i requires 0 <= i < |rxns| => Partners(rxns[i], smi));
    return Ok(Some((mask, avail)));
  }

  // ---------------------------------------------------------------------
  // set_embedding

  function Zeros(n: nat): (z: seq<real>)
    ensures |z| == n && forall i :: 0 <= i < n ==> z[i] == 0.0
  {
    seq(n, _ => 0.0)
  }

  /**
   * `set_embedding`: [first molecule, second molecule, target], a missing
   * molecule being a block of `nbits` zeros; raises on more than two.
   */
  function SetEmbedding(zTarget: seq<real>, state: seq<string>, nbits: nat, emb: string -> seq<real>): (r: Result<seq<real>>)
    ensures r.Fail? <==> |state| > 2
    ensures r.Ok? ==> exists m1, m2 :: (r.value == m1 + m2 + zTarget &&
      m1 == (if |state| >= 1 then emb(state[0]) else Zeros(nbits)) &&
      m2 == (if |state| == 2 then emb(state[1]) else Zeros(nbits)))
  {
    if |state| > 2 then Fail
    else
      var m1 := if |state| >= 1 then emb(state[0]) else Zeros(nbits);
      var m2 := if |state| == 2 then emb(state[1]) else Zeros(nbits);
      Ok(m1 + m2 + zTarget)
  }

  /** With embeddings of `nbits` entries, the layout has 2·nbits + d entries and the target as its last d. */
  lemma EmbeddingLayout(zTarget: seq<real>, state: seq<string>, nbits: nat, emb: string -> seq<real>)
    requires |state| <= 2
    requires forall s :: |emb(s)| == nbits
    ensures SetEmbedding(zTarget, state, nbits, emb).Ok?
    ensures var e := SetEmbedding(zTarget, state, nbits, emb).value;
      |e| == 2 * nbits + |zTarget| && e[2 * nbits..] == zTarget &&
      (|state| == 0 ==> forall i :: 0 <= i < 2 * nbits ==> e[i] == 0.0) &&
      (|state| == 1 ==> e[..nbits] == emb(state[0]) && forall i :: nbits <= i < 2 * nbits ==> e[i] == 0.0)
  {
    var m1 := if |state| >= 1 then emb(state[0]) else Zeros(nbits);
    var m2 := if |state| == 2 then emb(state[1]) else Zeros(nbits);
    var e := m1 + m2 + zTarget;
    assert e[2 * nbits..] == zTarget;
    assert e[..nbits] == m1;
    assert forall i :: nbits <= i < 2 * nbits ==> e[i] == m2[i - nbits];
  }

  // ---------------------------------------------------------------------
  // The decoder

  /** One `tree.update(act, rxn_id, mol1, mol2, product)`. */
  datatype Step = Step(act: nat, rxnId: Option<nat>, mol1: Option<string>, mol2: Option<string>, product: Option<string>)

  /** The networks, neighbour searches, chemistry and tree state the decoder consults, given the steps so far. */
  datatype Nets = Nets(
    actionScores: seq<Step> -> seq<int>,
    kth: (seq<Step>, nat) -> nat,
    rxnScores: (seq<Step>, string) -> seq<int>,
    nearest: (seq<Step>, seq<string>) -> nat,
    state: seq<Step> -> seq<string>,
    react: Reactor,
    valid: string -> bool,
    emb: string -> seq<real>)

  /**
   * The shapes the networks and searches produce: four action scores and
   * one score per template, all positive (the networks' probabilities plus
   * 1e-10), and indices in range.
   */
  ghost predicate WellShaped(nets: Nets, rxns: seq<Template>, bbs: seq<string>) {
    && (forall t :: |nets.actionScores(t)| == 4)
    && (forall t, i :: 0 <= i < 4 ==> nets.actionScores(t)[i] > 0)
    && (forall t, m :: |nets.rxnScores(t, m)| == |rxns|)
    && (forall t, m, i :: 0 <= i < |rxns| ==> nets.rxnScores(t, m)[i] > 0)
    && (forall t, k :: 1 <= k <= |bbs| ==> nets.kth(t, k) < |bbs|)
    && (forall t, av :: |av| > 0 ==> nets.nearest(t, av) < |av|)
  }

  /** `np.argmax(scores * mask)`: the first position of the largest masked score. */
  method MaskedArgMax(scores: seq<int>, mask: seq<int>) returns (k: nat)
    requires |scores| == |mask| > 0
    ensures IsArgMax(Masked(scores, mask), NoneExcluded(|scores|), k)
    ensures k == MaskedChoice(scores, mask)
  {
    k := ArgMaxAdmitted(Masked(scores, mask), NoneExcluded(|scores|));
  }

  /** The element-wise product of scores and mask. */
  function Masked(scores: seq<int>, mask: seq<int>): (v: seq<int>)
    requires |scores| == |mask|
    ensures |v| == |scores|
  {
    seq(|scores|, i requires 0 <= i < |scores| => scores[i] * mask[i])
  }

  /** The position `np.argmax(scores * mask)` returns. */
  function MaskedChoice(scores: seq<int>, mask: seq<int>): (k: nat)
    requires |scores| == |mask| > 0
    ensures IsArgMax(Masked(scores, mask), NoneExcluded(|scores|), k)
  {
    assert !NoneExcluded(|scores|)[0];
    FirstArgMax(Masked(scores, mask), NoneExcluded(|scores|))
  }

  /** With positive scores (the networks' probabilities plus 1e-10), the masked arg-max is an admitted position whenever there is one. */
  lemma MaskedChoiceAdmitted(scores: seq<int>, mask: seq<int>, k: nat)
    requires |scores| == |mask| > 0
    requires forall i :: 0 <= i < |scores| ==> scores[i] > 0 && (mask[i] == 0 || mask[i] == 1)
    requires exists i :: 0 <= i < |mask| && mask[i] == 1
    requires IsArgMax(Masked(scores, mask), NoneExcluded(|scores|), k)
    ensures mask[k] == 1
  {
    var i :| 0 <= i < |mask| && mask[i] == 1;
    var v := Masked(scores, mask);
    assert v[i] == scores[i] > 0;
    assert !NoneExcluded(|scores|)[i];
  }

  /** With every template masked out, the masked arg-max is template 0. */
  lemma AllMaskedPicksFirst(scores: seq<int>, mask: seq<int>, k: nat)
    requires |scores| == |mask| > 0
    requires forall i :: 0 <= i < |mask| ==> mask[i] == 0
    requires IsArgMax(Masked(scores, mask), NoneExcluded(|scores|), k)
    ensures k == 0
  {
    var v := Masked(scores, mask);
    assert v[0] == 0 == v[k];
    assert !NoneExcluded(|scores|)[0];
  }

  function AsInts(m: seq<bool>): (r: seq<int>)
    ensures |r| == |m| && forall i :: 0 <= i < |m| ==> r[i] == if m[i] then 1 else 0
  {
    seq(|m|, i requires 0 <= i < |m| => if m[i] then 1 else 0)
  }

  /** The first molecule of the state other than mol1: `(set(state) - {mol1}).pop()`. */
  function Other(state: seq<string>, mol1: string): (r: Option<string>)
    ensures r.Some? ==> r.value in state && r.value != mol1
    ensures r.None? <==> forall s :: s in state ==> s == mol1
  {
    if state == [] then None
    else if state[0] != mol1 then Some(state[0])
    else
      assert forall s :: s in state ==> s == state[0] || s in state[1..];
      Other(state[1..], mol1)
  }

  /** Why the decoding loop stopped. */
  datatype Exit = ChoseEnd | Stuck(stateSize: nat) | Exhausted

  /** The End step appended to a properly terminated tree. */
  const EndStep := Step(End, None, None, None, None)

  /** The k of the k-th nearest first reactant: `k_reactant1` before the first update, 1 after. */
  function KOf(molRecent: Option<string>, kReactant1: nat): nat {
    if molRecent.None? then kReactant1 else 1
  }

  /** An Add step's first reactant is the k-th nearest building block, k being `k_reactant1` for the first step only. */
  predicate AddsUseK(nets: Nets, bbs: seq<string>, steps: seq<Step>, kReactant1: nat) {
    forall j :: 0 <= j < |steps| && steps[j].act == Add ==>
      var k := if j == 0 then kReactant1 else 1;
      1 <= k <= |bbs| && nets.kth(steps[..j], k) < |bbs| && steps[j].mol1 == Some(bbs[nets.kth(steps[..j], k)])
  }

  /** What one round of the decoding loop does: raise, leave the loop with an action, or record a step. */
  datatype Round = Raised | Halt(act: nat, exit: Exit) | Grow(step: Step)

  /** The action mask of a state of at most two molecules, as `get_action_mask` builds it. */
  function ActionMaskOf(state: seq<string>, n: nat, react: Reactor): (m: seq<bool>)
    requires |state| <= 2
    ensures |m| == 4 && exists a :: 0 <= a < 4 && m[a]
    ensures (m[End] <==> |state| == 1) && (m[Add] <==> |state| < 2) && (m[Expand] <==> |state| > 0)
    ensures m[Merge] <==> |state| == 2 && exists i :: 0 <= i < n && react(i, state[1], Some(state[0])).Some?
  {
    var m := [|state| < 2, |state| > 0, |state| == 2 && exists i :: 0 <= i < n && react(i, state[1], Some(state[0])).Some?, |state| == 1];
    assert m[Add] || m[Expand];
    m
  }

  /**
   * The action a round chooses: the arg-max of the positive action scores
   * times the action mask.  It is always an action the mask admits: End
   * only on one molecule, Add only below two, Merge only on two molecules
   * some template reacts.
   */
  function ActionOf(nets: Nets, rxns: seq<Template>, bbs: seq<string>, steps: seq<Step>): (a: nat)
    requires WellShaped(nets, rxns, bbs) && |nets.state(steps)| <= 2
    ensures a < 4 && ActionMaskOf(nets.state(steps), |rxns|, nets.react)[a]
    ensures a == End ==> |nets.state(steps)| == 1
    ensures a == Add ==> |nets.state(steps)| < 2
    ensures a == Merge ==> |nets.state(steps)| == 2
  {
    var m := AsInts(ActionMaskOf(nets.state(steps), |rxns|, nets.react));
    var a := MaskedChoice(nets.actionScores(steps), m);
    MaskedChoiceAdmitted(nets.actionScores(steps), m, a);
    a
  }

  /** The first reactant of action a: the k-th nearest building block for Add, the last product otherwise; None where the code raises. */
  function FirstReactantOf(nets: Nets, bbs: seq<string>, steps: seq<Step>, a: nat, molRecent: Option<string>, kReactant1: nat): Option<string>
    requires forall t, k :: 1 <= k <= |bbs| ==> nets.kth(t, k) < |bbs|
  {
    if a == Add then
      var k := KOf(molRecent, kReactant1);
      if k < 1 || k > |bbs| then None else Some(bbs[nets.kth(steps, k)])
    else molRecent
  }

  /** The first reactant of action a, as `FirstReactantOf` says. */
  method FirstReactant(nets: Nets, bbs: seq<string>, steps: seq<Step>, a: nat, molRecent: Option<string>, kReactant1: nat)
    returns (m: Option<string>)
    requires forall t, k :: 1 <= k <= |bbs| ==> nets.kth(t, k) < |bbs|
    ensures m == FirstReactantOf(nets, bbs, steps, a, molRecent, kReactant1)
    ensures a == Add ==> var k := KOf(molRecent, kReactant1);
      (m.Some? <==> 1 <= k <= |bbs|) && (m.Some? ==> m.value == bbs[nets.kth(steps, k)])
    ensures a != Add ==> m == molRecent
  {
    if a == Add {
      var k := KOf(molRecent, kReactant1);
      if k < 1 || k > |bbs| {
        return None;
      }
      m := Some(bbs[nets.kth(steps, k)]);
    } else {
      m := molRecent;
    }
  }

  /** A template mask of 0/1 entries, one per template. */
  predicate ZeroOne(mask: seq<int>) {
    forall i :: 0 <= i < |mask| ==> mask[i] == 0 || mask[i] == 1
  }

  /**
   * The template mask of a round: `get_reaction_mask` of the first
   * reactant for Add and Expand, `can_react` on the state for Merge.
   * Ok(None) when no template accepts the first reactant.
   */
  function RoundMaskOf(a: nat, mol1: string, state: seq<string>, rxns: seq<Template>, react: Reactor)
    : (r: Result<Option<(seq<int>, seq<seq<string>>)>>)
    ensures r.Ok? && r.value.Some? ==> |r.value.value.0| == |r.value.value.1| == |rxns| && ZeroOne(r.value.value.0)
    ensures a == Merge ==> (r.Fail? <==> |state| < 2) && (r.Ok? ==> r.value.Some?)
    ensures a == Add || a == Expand ==> r == ReactionMaskOf(mol1, rxns)
  {
    if a == Add || a == Expand then ReactionMaskOf(mol1, rxns)
    else if |state| < 2 then Fail
    else Ok(Some((ReactMask(|rxns|, state[|state| - 1], state[|state| - 2], react), seq(|rxns|, _ => []))))
  }

  /** The template mask of a round, as `RoundMaskOf` says. */
  method RoundMask(a: nat, mol1: string, state: seq<string>, rxns: seq<Template>, react: Reactor)
    returns (r: Result<Option<(seq<int>, seq<seq<string>>)>>)
    requires a != End
    ensures r == RoundMaskOf(a, mol1, state, rxns, react)
    ensures a == Merge && r.Ok? ==> r.value.value.0 == ReactMask(|rxns|, state[|state| - 1], state[|state| - 2], react)
  {
    if a == Add || a == Expand {
      r := GetReactionMask(mol1, rxns);
    } else {
      var l := new MolList(state);
      var c := l.CanReact(|rxns|, react);
      if c.Fail? {
        return Fail;
      }
      r := Ok(Some((c.value.1, seq(|rxns|, _ => []))));
    }
  }

  /**
   * The second reactant of a bimolecular template: for Merge the other
   * molecule of the state, otherwise the nearest entry of the template's
   * partner list.  Fail where the code raises.
   */
  function SecondReactantOf(nets: Nets, steps: seq<Step>, a: nat, mol1: string, state: seq<string>, av: seq<string>)
    : (r: Result<string>)
    requires forall t, av :: |av| > 0 ==> nets.nearest(t, av) < |av|
    ensures a == Merge ==> (r.Fail? <==> Other(state, mol1).None?) && (r.Ok? ==> r.value in state && r.value != mol1)
    ensures a != Merge ==> (r.Fail? <==> av == []) && (r.Ok? ==> r.value in av)
  {
    if a == Merge then
      match Other(state, mol1)
      case None => Fail
      case Some(m) => Ok(m)
    else if |av| == 0 then Fail
    else Ok(av[nets.nearest(steps, av)])
  }

  /** The second reactant of a bimolecular template, as `SecondReactantOf` says. */
  method SecondReactant(nets: Nets, steps: seq<Step>, a: nat, mol1: string, state: seq<string>, av: seq<string>)
    returns (r: Result<string>)
    requires forall t, av :: |av| > 0 ==> nets.nearest(t, av) < |av|
    ensures r == SecondReactantOf(nets, steps, a, mol1, state, av)
  {
    if a == Merge {
      var m := Other(state, mol1);
      if m.None? {
        return Fail;
      }
      r := Ok(m.value);
    } else {
      if |av| == 0 {
        return Fail;
      }
      r := Ok(av[nets.nearest(steps, av)]);
    }
  }

  /**
   * One round of `synthetic_tree_decoder` on the steps so far: choose an
   * action, a first reactant, a template and a second reactant, and run
   * the reaction.  It leaves the loop on End, and on a missing template
   * mask or product, where the action becomes End only when the state
   * holds one molecule.
   */
  function RoundOf(nets: Nets, rxns: seq<Template>, bbs: seq<string>, steps: seq<Step>,
                   molRecent: Option<string>, kReactant1: nat): (o: Round)
    requires WellShaped(nets, rxns, bbs)
  {
    var state := nets.state(steps);
    if |state| > 2 then Raised
    else
      var a := ActionOf(nets, rxns, bbs, steps);
      if a == End then Halt(End, ChoseEnd)
      else
        match FirstReactantOf(nets, bbs, steps, a, molRecent, kReactant1)
        case None => Raised
        case Some(mol1) =>
          match RoundMaskOf(a, mol1, state, rxns, nets.react)
          case Fail => Raised
          case Ok(None) => Halt(if |state| == 1 then End else a, Stuck(|state|))
          case Ok(Some(ma)) =>
            if |rxns| == 0 then Raised
            else Chosen(nets, rxns, bbs, steps, a, mol1, state, ma.0, ma.1)
  }
  /**
   * What one round does: it raises on more than two molecules; it leaves
   * the loop with End exactly when the chosen action is End; a missing
   * template mask or product leaves it with the chosen action, turned into
   * End on a single molecule; a recorded step carries the chosen action
   * (never End), its first reactant (the k-th nearest building block for
   * Add, the last product otherwise), a template in range and the product
   * of running that template, which is valid.
   */
  lemma RoundFacts(nets: Nets, rxns: seq<Template>, bbs: seq<string>, steps: seq<Step>,
                   molRecent: Option<string>, kReactant1: nat)
    requires WellShaped(nets, rxns, bbs)
    ensures var o, size := RoundOf(nets, rxns, bbs, steps, molRecent, kReactant1), |nets.state(steps)|;
      && (size > 2 ==> o.Raised?)
      && (o == Halt(End, ChoseEnd) <==> size <= 2 && ActionOf(nets, rxns, bbs, steps) == End)
      && (o.Halt? ==> o.act <= End && o.exit != Exhausted && (o.act == End <==> o.exit == ChoseEnd || o.exit == Stuck(1)))
      && (o.Halt? && o.exit.Stuck? ==>
           && size <= 2 && o.exit.stateSize == size
           && ActionOf(nets, rxns, bbs, steps) != End
           && o.act == if size == 1 then End else ActionOf(nets, rxns, bbs, steps))
      && (o.Grow? ==>
           && size <= 2 && o.step.act == ActionOf(nets, rxns, bbs, steps) < End
           && o.step.product.Some? && nets.valid(o.step.product.value)
           && o.step.mol1.Some? && o.step.rxnId.Some? && o.step.rxnId.value < |rxns|
           && o.step.product == nets.react(o.step.rxnId.value, o.step.mol1.value, o.step.mol2))
      && (o.Grow? && o.step.act == Add ==>
           var k := KOf(molRecent, kReactant1);
           1 <= k <= |bbs| && nets.kth(steps, k) < |bbs| && o.step.mol1 == Some(bbs[nets.kth(steps, k)]))
      && (o.Grow? && o.step.act != Add ==> molRecent.Some? && o.step.mol1 == molRecent)
  {
  }


  /** The masked arg-max is a position the mask admits, or position 0 when the mask admits none. */
  lemma MaskedChoiceFacts(scores: seq<int>, mask: seq<int>)
    requires |scores| == |mask| > 0 && ZeroOne(mask)
    requires forall i :: 0 <= i < |scores| ==> scores[i] > 0
    ensures var t := MaskedChoice(scores, mask);
      mask[t] == 1 || (t == 0 && forall i :: 0 <= i < |mask| ==> mask[i] == 0)
  {
    var t := MaskedChoice(scores, mask);
    if exists i :: 0 <= i < |mask| && mask[i] == 1 {
      MaskedChoiceAdmitted(scores, mask, t);
    } else {
      AllMaskedPicksFirst(scores, mask, t);
    }
  }

  /**
   * The rest of a round once the template mask of action a and first
   * reactant mol1 is known: the masked arg-max template, a second reactant
   * for a bimolecular template, and the reaction.
   */
  function Chosen(nets: Nets, rxns: seq<Template>, bbs: seq<string>, steps: seq<Step>, a: nat, mol1: string,
                  state: seq<string>, mask: seq<int>, avail: seq<seq<string>>): (o: Round)
    requires WellShaped(nets, rxns, bbs)
    requires |mask| == |avail| == |rxns| > 0 && ZeroOne(mask)
    ensures o.Halt? ==> o == Halt(if |state| == 1 then End else a, Stuck(|state|))
    ensures o.Grow? ==> o.step.act == a && o.step.mol1 == Some(mol1) && o.step.rxnId == Some(MaskedChoice(nets.rxnScores(steps, mol1), mask))
    ensures o.Grow? ==>
      o.step.product == nets.react(o.step.rxnId.value, mol1, o.step.mol2) &&
      o.step.product.Some? && nets.valid(o.step.product.value)
    ensures o.Grow? ==> var t := o.step.rxnId.value;
      && (mask[t] == 1 || (t == 0 && forall i :: 0 <= i < |mask| ==> mask[i] == 0))
      && (rxns[t].numReactant == 2 ==>
           o.step.mol2.Some? &&
           (a == Merge ==> o.step.mol2.value in state && o.step.mol2.value != mol1) &&
           (a != Merge ==> o.step.mol2.value in avail[t]))
      && (rxns[t].numReactant != 2 ==> o.step.mol2.None?)
  {
    var t := MaskedChoice(nets.rxnScores(steps, mol1), mask);
    MaskedChoiceFacts(nets.rxnScores(steps, mol1), mask);
    if rxns[t].numReactant == 2 then
      match SecondReactantOf(nets, steps, a, mol1, state, avail[t])
      case Fail => Raised
      case Ok(mol2) => Reacted(nets, |state|, a, t, mol1, Some(mol2))
    else Reacted(nets, |state|, a, t, mol1, None)
  }

  /** The end of a round: the step when template t yields a valid product, leaving the loop otherwise. */
  function Reacted(nets: Nets, size: nat, a: nat, t: nat, mol1: string, mol2: Option<string>): (o: Round)
    ensures o.Grow? <==> nets.react(t, mol1, mol2).Some? && nets.valid(nets.react(t, mol1, mol2).value)
  {
    var product := nets.react(t, mol1, mol2);
    if product.None? || !nets.valid(product.value) then Halt(if size == 1 then End else a, Stuck(size))
    else Grow(Step(a, Some(t), Some(mol1), mol2, product))
  }

  /**
   * The template of a recorded step is one its round's template mask
   * admits, unless that mask admits none (then it is template 0); a
   * bimolecular template gets a second reactant, from the state for
   * Merge and from the template's partners otherwise, and a
   * one-reactant template none.
   */
  lemma RoundGrowAdmitted(nets: Nets, rxns: seq<Template>, bbs: seq<string>, steps: seq<Step>,
                          molRecent: Option<string>, kReactant1: nat)
    requires WellShaped(nets, rxns, bbs)
    requires RoundOf(nets, rxns, bbs, steps, molRecent, kReactant1).Grow?
    ensures var st := RoundOf(nets, rxns, bbs, steps, molRecent, kReactant1).step;
      var state := nets.state(steps);
      var rm := RoundMaskOf(st.act, st.mol1.value, state, rxns, nets.react);
      && rm.Ok? && rm.value.Some?
      && var (mask, avail) := rm.value.value;
      && var t := st.rxnId.value;
      && (mask[t] == 1 || (t == 0 && forall i :: 0 <= i < |rxns| ==> mask[i] == 0))
      && (rxns[t].numReactant == 2 ==>
           st.mol2.Some? &&
           (st.act == Merge ==> st.mol2.value in state && st.mol2.value != st.mol1.value) &&
           (st.act != Merge ==> st.mol2.value in avail[t]))
      && (rxns[t].numReactant != 2 ==> st.mol2.None?)
  {
    var st := RoundOf(nets, rxns, bbs, steps, molRecent, kReactant1).step;
    var state := nets.state(steps);
    var ma := RoundMaskOf(st.act, st.mol1.value, state, rxns, nets.react).value.value;
    assert RoundOf(nets, rxns, bbs, steps, molRecent, kReactant1) == Chosen(nets, rxns, bbs, steps, st.act, st.mol1.value, state, ma.0, ma.1);
  }

  /**
   * One round of `synthetic_tree_decoder`, as `RoundOf` says: it raises
   * on a state of more than two molecules, and otherwise leaves the loop
   * on End, with a missing template mask or product, or records a step.
   */
  method DecodeRound(nets: Nets, rxns: seq<Template>, bbs: seq<string>, steps: seq<Step>,
                     molRecent: Option<string>, kReactant1: nat) returns (o: Round)
    requires WellShaped(nets, rxns, bbs)
    ensures o == RoundOf(nets, rxns, bbs, steps, molRecent, kReactant1)
  {
    var state := nets.state(steps);
    if |state| > 2 {
      return Raised;
    }
    var am := GetActionMask(state, |rxns|, nets.react);
    assert am.value == ActionMaskOf(state, |rxns|, nets.react);
    var a := MaskedArgMax(nets.actionScores(steps), AsInts(am.value));
    if a == End {
      return Halt(End, ChoseEnd);
    }
    var mol1 := FirstReactant(nets, bbs, steps, a, molRecent, kReactant1);
    if mol1.None? {
      return Raised;
    }
    var rm := RoundMask(a, mol1.value, state, rxns, nets.react);
    if rm.Fail? {
      return Raised;
    }
    if rm.value.None? {
      return Halt(if |state| == 1 then End else a, Stuck(|state|));
    }
    var (mask, avail) := rm.value.value;
    if |rxns| == 0 {
      return Raised;
    }
    o := ChooseAndReact(nets, rxns, bbs, steps, a, mol1.value, state, mask, avail);
  }

  /** The template, second reactant and reaction of a round, as `Chosen` says. */
  method ChooseAndReact(nets: Nets, rxns: seq<Template>, bbs: seq<string>, steps: seq<Step>, a: nat, mol1: string,
                        state: seq<string>, mask: seq<int>, avail: seq<seq<string>>) returns (o: Round)
    requires WellShaped(nets, rxns, bbs)
    requires |mask| == |avail| == |rxns| > 0 && ZeroOne(mask)
    ensures o == Chosen(nets, rxns, bbs, steps, a, mol1, state, mask, avail)
  {
    var rxnId := MaskedArgMax(nets.rxnScores(steps, mol1), mask);
    var mol2: Option<string> := None;
    if rxns[rxnId].numReactant == 2 {
      var m2 := SecondReactant(nets, steps, a, mol1, state, avail[rxnId]);
      if m2.Fail? {
        return Raised;
      }
      mol2 := Some(m2.value);
    }
    var product := nets.react(rxnId, mol1, mol2);
    if product.None? || !nets.valid(product.value) {
      return Halt(if |state| == 1 then End else a, Stuck(|state|));
    }
    return Grow(Step(a, Some(rxnId), Some(mol1), mol2, product));
  }

  /** The last recorded product (`mol_recent`), None before the first step. */
  function Recent(steps: seq<Step>): Option<string> {
    if steps == [] then None else steps[|steps| - 1].product
  }

  /** The round the decoder plays on the steps recorded so far, as a function of those steps. */
  function NextOf(nets: Nets, rxns: seq<Template>, bbs: seq<string>, kReactant1: nat): (next: seq<Step> -> Round)
    requires WellShaped(nets, rxns, bbs)
    ensures forall steps :: next(steps) == RoundOf(nets, rxns, bbs, steps, Recent(steps), kReactant1)
  {
    steps => RoundOf(nets, rxns, bbs, steps, Recent(steps), kReactant1)
  }

  /**
   * The rest of the decoding loop from the recorded steps with `left`
   * rounds to go, each round being `next` of the steps so far: Fail where
   * a round raises; otherwise the steps when the loop ends, the action of
   * the round that left it (None when the rounds ran out) and why it
   * stopped.
   */
  function Rounds(next: seq<Step> -> Round, steps: seq<Step>, left: nat): (r: Result<(seq<Step>, Option<nat>, Exit)>)
    ensures r.Ok? ==> |steps| <= |r.value.0| <= |steps| + left
    ensures r.Ok? && r.value.1.None? ==> |r.value.0| == |steps| + left && r.value.2 == Exhausted
    ensures r.Ok? && r.value.1.Some? ==> next(r.value.0) == Halt(r.value.1.value, r.value.2)
    decreases left
  {
    if left == 0 then Ok((steps, None, Exhausted))
    else
      match next(steps)
      case Raised => Fail
      case Halt(a, e) => Ok((steps, Some(a), e))
      case Grow(st) => Rounds(next, steps + [st], left - 1)
  }

  /**
   * `synthetic_tree_decoder` as a value: Fail when `max_step <= 0` (the
   * action is never bound) or a round raises; otherwise the steps, with a
   * final End step when the last action is End, and that action.
   */
  function DecodeOf(nets: Nets, rxns: seq<Template>, bbs: seq<string>, maxStep: int, kReactant1: nat)
    : Result<(seq<Step>, nat)>
    requires WellShaped(nets, rxns, bbs)
  {
    if maxStep <= 0 then Fail else Finish(Rounds(NextOf(nets, rxns, bbs, kReactant1), [], maxStep))
  }

  /** The result of the loop's outcome: the last action is the leaving round's, or the last step's when the rounds ran out. */
  function Finish(outcome: Result<(seq<Step>, Option<nat>, Exit)>): Result<(seq<Step>, nat)>
    requires outcome.Ok? && outcome.value.1.None? ==> |outcome.value.0| > 0
  {
    match outcome
    case Fail => Fail
    case Ok((steps, h, _)) =>
      var act := if h.Some? then h.value else steps[|steps| - 1].act;
      if act == End then Ok((steps + [EndStep], act)) else Ok((steps, act))
  }

  /** `Finish` of a known outcome: the last action is the leaving round's or the last step's. */
  lemma FinishOk(outcome: Result<(seq<Step>, Option<nat>, Exit)>, steps: seq<Step>, h: Option<nat>, e: Exit, act: nat)
    requires outcome == Ok((steps, h, e)) && (h.None? ==> |steps| > 0)
    requires act == if h.Some? then h.value else steps[|steps| - 1].act
    ensures Finish(outcome) == if act == End then Ok((steps + [EndStep], act)) else Ok((steps, act))
  {
  }

  /** A round that records a step leaves the outcome of the loop to the remaining rounds. */
  lemma RoundsGrow(next: seq<Step> -> Round, steps: seq<Step>, left: nat, st: Step,
                   steps': seq<Step>, left': nat, outcome: Result<(seq<Step>, Option<nat>, Exit)>)
    requires left > 0 && next(steps) == Grow(st)
    requires Rounds(next, steps, left) == outcome
    requires steps' == steps + [st] && left' == left - 1
    ensures Rounds(next, steps', left') == outcome
  {
  }

  /** A round that leaves the loop ends it with the steps so far and that round's action. */
  lemma RoundsHalt(next: seq<Step> -> Round, steps: seq<Step>, left: nat, a: nat, e: Exit,
                   outcome: Result<(seq<Step>, Option<nat>, Exit)>)
    requires left > 0 && next(steps) == Halt(a, e)
    requires Rounds(next, steps, left) == outcome
    ensures outcome == Ok((steps, Some(a), e))
  {
  }

  /** A round that raises makes the whole loop raise. */
  lemma RoundsRaised(next: seq<Step> -> Round, steps: seq<Step>, left: nat, outcome: Result<(seq<Step>, Option<nat>, Exit)>)
    requires left > 0 && next(steps) == Raised
    requires Rounds(next, steps, left) == outcome
    ensures outcome == Fail
  {
  }

  /** With no rounds left the loop ends with the steps so far. */
  lemma RoundsDone(next: seq<Step> -> Round, steps: seq<Step>, outcome: Result<(seq<Step>, Option<nat>, Exit)>)
    requires Rounds(next, steps, 0) == outcome
    ensures outcome == Ok((steps, None, Exhausted))
  {
  }

  /** For a positive `max_step` the decoding is what `Finish` makes of the loop's outcome. */
  lemma DecodeOfRounds(nets: Nets, rxns: seq<Template>, bbs: seq<string>, maxStep: int, kReactant1: nat,
                       outcome: Result<(seq<Step>, Option<nat>, Exit)>)
    requires WellShaped(nets, rxns, bbs) && maxStep > 0
    requires Rounds(NextOf(nets, rxns, bbs, kReactant1), [], maxStep) == outcome
    ensures outcome.Ok? && outcome.value.1.None? ==> |outcome.value.0| > 0
    ensures DecodeOf(nets, rxns, bbs, maxStep, kReactant1) == Finish(outcome)
  {
  }

  /** Every recorded step is what its round makes of the steps before it. */
  ghost predicate Traced(next: seq<Step> -> Round, steps: seq<Step>) {
    forall j :: 0 <= j < |steps| ==> next(steps[..j]) == Grow(steps[j])
  }

  /** The loop only appends steps its rounds make. */
  lemma {:induction false} RoundsTraced(next: seq<Step> -> Round, steps: seq<Step>, left: nat)
    requires Traced(next, steps) && Rounds(next, steps, left).Ok?
    ensures Traced(next, Rounds(next, steps, left).value.0)
    decreases left
  {
    if left > 0 && next(steps).Grow? {
      var s' := steps + [next(steps).step];
      forall j | 0 <= j < |s'|
        ensures next(s'[..j]) == Grow(s'[j])
      {
        if j < |steps| {
          assert s'[..j] == steps[..j];
        } else {
          assert s'[..j] == steps;
        }
      }
      RoundsTraced(next, s', left - 1);
    }
  }

  /**
   * Every step of a decoded tree before its final End step is the step
   * its round makes of the steps before it, and the End step is there
   * exactly when the last action is End.
   */
  lemma DecodeTraced(nets: Nets, rxns: seq<Template>, bbs: seq<string>, maxStep: int, kReactant1: nat)
    requires WellShaped(nets, rxns, bbs)
    requires DecodeOf(nets, rxns, bbs, maxStep, kReactant1).Ok?
    ensures var (steps, act) := DecodeOf(nets, rxns, bbs, maxStep, kReactant1).value;
      var grown := if act == End then |steps| - 1 else |steps|;
      && 0 <= grown <= |steps|
      && (forall j :: 0 <= j < grown ==>
           RoundOf(nets, rxns, bbs, steps[..j], Recent(steps[..j]), kReactant1) == Grow(steps[j]))
      && (act == End ==> steps[grown] == EndStep)
  {
    var next := NextOf(nets, rxns, bbs, kReactant1);
    var outcome := Rounds(next, [], maxStep);
    RoundsTraced(next, [], maxStep);
    DecodeOfRounds(nets, rxns, bbs, maxStep, kReactant1, outcome);
    FinishTraced(next, outcome);
  }

  /**
   * The steps `Finish` makes of a traced outcome: the traced steps,
   * followed by the End step exactly when the last action is End.
   */
  lemma FinishTraced(next: seq<Step> -> Round, outcome: Result<(seq<Step>, Option<nat>, Exit)>)
    requires outcome.Ok? && (outcome.value.1.None? ==> |outcome.value.0| > 0)
    requires Traced(next, outcome.value.0)
    ensures var (steps, act) := Finish(outcome).value;
      var grown := if act == End then |steps| - 1 else |steps|;
      && 0 <= grown <= |steps|
      && (forall j :: 0 <= j < grown ==> next(steps[..j]) == Grow(steps[j]))
      && (act == End ==> steps[grown] == EndStep)
  {
    var (steps0, h, e) := outcome.value;
    var act := if h.Some? then h.value else steps0[|steps0| - 1].act;
    var steps := if act == End then steps0 + [EndStep] else steps0;
    forall j | 0 <= j < |steps0|
      ensures next(steps[..j]) == Grow(steps[j])
    {
      assert steps[..j] == steps0[..j] && steps[j] == steps0[j];
    }
  }

  /** A recorded step is an Add, Expand or Merge step with a product, and an Add step uses the k rule. */
  lemma GrowFacts(nets: Nets, rxns: seq<Template>, bbs: seq<string>, kReactant1: nat, steps: seq<Step>, st: Step)
    requires WellShaped(nets, rxns, bbs)
    requires RoundOf(nets, rxns, bbs, steps, Recent(steps), kReactant1) == Grow(st)
    ensures st.act < End && st.product.Some?
    ensures st.act == Add ==> var k := KOf(Recent(steps), kReactant1);
      1 <= k <= |bbs| && nets.kth(steps, k) < |bbs| && st.mol1 == Some(bbs[nets.kth(steps, k)])
  {
    RoundFacts(nets, rxns, bbs, steps, Recent(steps), kReactant1);
  }

  /** Step j of a traced run is an Add, Expand or Merge step with a product, and an Add step uses the k rule. */
  lemma TracedStep(nets: Nets, rxns: seq<Template>, bbs: seq<string>, kReactant1: nat, steps: seq<Step>, j: nat)
    requires WellShaped(nets, rxns, bbs) && Traced(NextOf(nets, rxns, bbs, kReactant1), steps) && j < |steps|
    ensures steps[j].act < End && steps[j].product.Some?
    ensures steps[j].act == Add ==> var k := if j == 0 then kReactant1 else 1;
      1 <= k <= |bbs| && nets.kth(steps[..j], k) < |bbs| && steps[j].mol1 == Some(bbs[nets.kth(steps[..j], k)])
  {
    var next := NextOf(nets, rxns, bbs, kReactant1);
    assert next(steps[..j]) == Grow(steps[j]);
    GrowFacts(nets, rxns, bbs, kReactant1, steps[..j], steps[j]);
    if j > 0 {
      assert next(steps[..j - 1]) == Grow(steps[j - 1]);
      GrowFacts(nets, rxns, bbs, kReactant1, steps[..j - 1], steps[j - 1]);
      assert Recent(steps[..j]) == steps[j - 1].product;
    }
  }

  /** The steps of a traced run are Add, Expand or Merge steps with a product. */
  lemma TracedActs(nets: Nets, rxns: seq<Template>, bbs: seq<string>, kReactant1: nat, steps: seq<Step>)
    requires WellShaped(nets, rxns, bbs) && Traced(NextOf(nets, rxns, bbs, kReactant1), steps)
    ensures forall j :: 0 <= j < |steps| ==> steps[j].act < End && steps[j].product.Some?
  {
    forall j | 0 <= j < |steps|
      ensures steps[j].act < End && steps[j].product.Some?
    {
      TracedStep(nets, rxns, bbs, kReactant1, steps, j);
    }
  }

  /** The Add steps of a traced run use the k rule: `k_reactant1` on the first step, 1 after it. */
  lemma TracedAdds(nets: Nets, rxns: seq<Template>, bbs: seq<string>, kReactant1: nat, steps: seq<Step>)
    requires WellShaped(nets, rxns, bbs) && Traced(NextOf(nets, rxns, bbs, kReactant1), steps)
    ensures AddsUseK(nets, bbs, steps, kReactant1)
  {
    forall j | 0 <= j < |steps| && steps[j].act == Add
      ensures var k := if j == 0 then kReactant1 else 1;
        1 <= k <= |bbs| && nets.kth(steps[..j], k) < |bbs| && steps[j].mol1 == Some(bbs[nets.kth(steps[..j], k)])
    {
      TracedStep(nets, rxns, bbs, kReactant1, steps, j);
    }
  }

  /** A round that leaves the loop leaves it on End exactly when it chose End or got stuck on one molecule. */
  lemma HaltFacts(nets: Nets, rxns: seq<Template>, bbs: seq<string>, steps: seq<Step>,
                  molRecent: Option<string>, kReactant1: nat, a: nat, e: Exit)
    requires WellShaped(nets, rxns, bbs)
    requires RoundOf(nets, rxns, bbs, steps, molRecent, kReactant1) == Halt(a, e)
    ensures a <= End && (a == End <==> e == ChoseEnd || e == Stuck(1))
  {
    RoundFacts(nets, rxns, bbs, steps, molRecent, kReactant1);
  }

  /**
   * What a successful decoding returns: at most `max_step` recorded
   * steps, none of them End, plus a final End step exactly when the last
   * action is End; Add steps use the k rule.
   */
  lemma DecodeFacts(nets: Nets, rxns: seq<Template>, bbs: seq<string>, maxStep: int, kReactant1: nat)
    requires WellShaped(nets, rxns, bbs)
    requires DecodeOf(nets, rxns, bbs, maxStep, kReactant1).Ok?
    ensures var (steps, act) := DecodeOf(nets, rxns, bbs, maxStep, kReactant1).value;
      && act <= End
      && |steps| <= maxStep + (if act == End then 1 else 0)
      && (act == End ==> |steps| > 0 && steps[|steps| - 1] == EndStep)
      && (forall j :: 0 <= j < |steps| && steps[j].act == End ==> j == |steps| - 1)
      && AddsUseK(nets, bbs, steps, kReactant1)
  {
    var next := NextOf(nets, rxns, bbs, kReactant1);
    var outcome := Rounds(next, [], maxStep);
    var (steps0, h, e) := outcome.value;
    RoundsTraced(next, [], maxStep);
    TracedActs(nets, rxns, bbs, kReactant1, steps0);
    TracedAdds(nets, rxns, bbs, kReactant1, steps0);
    if h.Some? {
      HaltFacts(nets, rxns, bbs, steps0, Recent(steps0), kReactant1, h.value, e);
    }
    var act := if h.Some? then h.value else steps0[|steps0| - 1].act;
    DecodeOfRounds(nets, rxns, bbs, maxStep, kReactant1, outcome);
    FinishOk(outcome, steps0, h, e, act);
    if act == End {
      AddsUseKGrow(nets, bbs, steps0, kReactant1, EndStep, 0);
    }
  }

  /**
   * `synthetic_tree_decoder`: at most `max_step` rounds, each recording a
   * step, until a round leaves the loop; a tree whose last action is End
   * gets a final End step.  Returns the steps and the last action; raises
   * where a round raises, and when `max_step <= 0`, where `act` is never
   * bound.  The result is `DecodeOf`.
   */
  method Decode(nets: Nets, rxns: seq<Template>, bbs: seq<string>, maxStep: int, kReactant1: nat)
    returns (r: Result<(seq<Step>, nat)>, ghost exit: Exit)
    requires WellShaped(nets, rxns, bbs)
    ensures r == DecodeOf(nets, rxns, bbs, maxStep, kReactant1)
    ensures maxStep <= 0 ==> r.Fail?
    ensures r.Ok? ==> r.value.1 <= End
    ensures r.Ok? ==> |r.value.0| <= maxStep + (if r.value.1 == End then 1 else 0)
    ensures r.Ok? ==> (r.value.1 == End <==> exit == ChoseEnd || exit == Stuck(1))
    ensures r.Ok? && r.value.1 == End ==> |r.value.0| > 0 && r.value.0[|r.value.0| - 1] == EndStep
    ensures r.Ok? ==> forall j :: 0 <= j < |r.value.0| && r.value.0[j].act == End ==> j == |r.value.0| - 1
    ensures r.Ok? ==> AddsUseK(nets, bbs, r.value.0, kReactant1)
  {
    var steps: seq<Step> := [];
    var molRecent: Option<string> := None;
    var act: Option<nat> := None;
    exit := Exhausted;
    ghost var halt: Option<nat> := None;
    ghost var next := NextOf(nets, rxns, bbs, kReactant1);
    ghost var left: nat := if maxStep > 0 then maxStep else 0;
    ghost var whole := Rounds(next, [], left);
    var i := 0;
    while i < maxStep
      invariant 0 <= i && |steps| == i && (i == 0 || i <= maxStep)
      invariant maxStep > 0 ==> left == maxStep - i
      invariant Rounds(next, steps, left) == whole
      invariant molRecent == Recent(steps)
      invariant i == 0 ==> act.None?
      invariant i > 0 ==> act == Some(steps[|steps| - 1].act)
      invariant exit == Exhausted && halt.None?
      decreases maxStep - i
    {
      var o := DecodeRound(nets, rxns, bbs, steps, molRecent, kReactant1);
      if o.Raised? {
        RoundsRaised(next, steps, left, whole);
        return Fail, exit;
      }
      if o.Halt? {
        RoundsHalt(next, steps, left, o.act, o.exit, whole);
        HaltFacts(nets, rxns, bbs, steps, molRecent, kReactant1, o.act, o.exit);
        act := Some(o.act);
        exit := o.exit;
        halt := Some(o.act);
        break;
      }
      act := Some(o.step.act);
      ghost var prev, prevLeft := steps, left;
      steps := steps + [o.step];
      left := left - 1;
      RoundsGrow(next, prev, prevLeft, o.step, steps, left, whole);
      molRecent := o.step.product;
      i := i + 1;
    }
    if act.None? {
      return Fail, exit;
    }
    if halt.None? {
      RoundsDone(next, steps, whole);
    }
    DecodeOfRounds(nets, rxns, bbs, maxStep, kReactant1, whole);
    FinishOk(whole, steps, halt, exit, act.value);
    ghost var steps0 := steps;
    if act.value == End {
      steps := steps + [EndStep];
    }
    r := Ok((steps, act.value));
    DecodeFacts(nets, rxns, bbs, maxStep, kReactant1);
    assert halt.None? ==> steps[|steps0| - 1] == steps0[|steps0| - 1];
  }

  /** Recording a step keeps the k rule when an Add step used k_reactant1 exactly on the empty trace. */
  lemma AddsUseKGrow(nets: Nets, bbs: seq<string>, steps: seq<Step>, kReactant1: nat, step: Step, k: nat)
    requires AddsUseK(nets, bbs, steps, kReactant1)
    requires step.act == Add ==> (k == (if steps == [] then kReactant1 else 1) &&
      1 <= k <= |bbs| && nets.kth(steps, k) < |bbs| && step.mol1 == Some(bbs[nets.kth(steps, k)]))
    ensures AddsUseK(nets, bbs, steps + [step], kReactant1)
  {
    var s' := steps + [step];
    forall j | 0 <= j < |s'| && s'[j].act == Add
      ensures var k := if j == 0 then kReactant1 else 1;
        1 <= k <= |bbs| && nets.kth(s'[..j], k) < |bbs| && s'[j].mol1 == Some(bbs[nets.kth(s'[..j], k)])
    {
      if j < |steps| {
        assert s'[..j] == steps[..j];
      } else {
        assert s'[..j] == steps;
      }
    }
  }

  // ---------------------------------------------------------------------
  // The greedy wrapper

  /** One kept decoding: the most similar chemical of its tree, that similarity, the steps and the last action. */
  datatype Beam = Beam(smiles: string, similarity: int, steps: seq<Step>, act: nat)

  /** The similarities of a tree's chemicals to the target. */
  function Sims(chems: seq<string>, sim: string -> int): (r: seq<int>)
    ensures |r| == |chems|
  {
    seq(|chems|, i requires 0 <= i < |chems| => sim(chems[i]))
  }

  /**
   * The beam one decoding contributes: none when its tree has no chemicals
   * (`np.argmax` of an empty array raises and the loop moves on), otherwise
   * the tree's first chemical of greatest similarity.
   */
  function BeamOf(steps: seq<Step>, act: nat, chemicals: seq<Step> -> seq<string>, sim: string -> int): (r: Option<Beam>)
    ensures r.None? <==> chemicals(steps) == []
    ensures r.Some? ==> r.value.steps == steps && r.value.act == act
    ensures r.Some? ==>
      var chems := chemicals(steps);
      exists k :: 0 <= k < |chems| && r.value.smiles == chems[k] && r.value.similarity == sim(chems[k]) &&
        IsArgMax(Sims(chems, sim), NoneExcluded(|chems|), k)
  {
    var chems := chemicals(steps);
    if chems == [] then None
    else
      var k := FirstArgMax(Sims(chems, sim), NoneExcluded(|chems|));
      Some(Beam(chems[k], sim(chems[k]), steps, act))
  }

  /** The decoder as a function of `k_reactant1`. */
  function Decodings(nets: Nets, rxns: seq<Template>, bbs: seq<string>, maxStep: int): nat -> Result<(seq<Step>, nat)>
    requires WellShaped(nets, rxns, bbs)
  {
    (k: nat) => DecodeOf(nets, rxns, bbs, maxStep, k)
  }

  /** `BeamOf` as a function of one decoding's steps and last action. */
  function Beamer(chemicals: seq<Step> -> seq<string>, sim: string -> int): ((seq<Step>, nat)) -> Option<Beam>
  {
    (d: (seq<Step>, nat)) => BeamOf(d.0, d.1, chemicals, sim)
  }

  /**
   * The beams of the decodings `dec(1)`..`dec(n)`, in that order: Fail as
   * soon as one decoding fails; otherwise each decoding's beam, skipping
   * the decodings that have none.
   */
  function BeamsOf(dec: nat -> Result<(seq<Step>, nat)>, n: nat, beam: ((seq<Step>, nat)) -> Option<Beam>)
    : (r: Result<seq<Beam>>)
    ensures r.Ok? <==> forall k :: 1 <= k <= n ==> dec(k).Ok?
    ensures r.Ok? ==> |r.value| <= n
  {
    if n == 0 then Ok([])
    else
      match BeamsOf(dec, n - 1, beam)
      case Fail => Fail
      case Ok(bs) =>
        match dec(n)
        case Fail => Fail
        case Ok(d) =>
          match beam(d)
          case None => Ok(bs)
          case Some(b) => Ok(bs + [b])
  }

  /** One more decoding that succeeds adds its beam, if it has one. */
  lemma BeamsNext(dec: nat -> Result<(seq<Step>, nat)>, n: nat, beam: ((seq<Step>, nat)) -> Option<Beam>)
    requires BeamsOf(dec, n, beam).Ok? && dec(n + 1).Ok?
    ensures BeamsOf(dec, n + 1, beam) ==
      match beam(dec(n + 1).value)
      case None => BeamsOf(dec, n, beam)
      case Some(b) => Ok(BeamsOf(dec, n, beam).value + [b])
  {
  }

  /**
   * The beams kept are exactly the beams of the decodings that have one:
   * each kept beam comes from some `k_reactant1` in 1..n, and each such
   * decoding's beam is kept.
   */
  lemma {:induction false} BeamsFacts(dec: nat -> Result<(seq<Step>, nat)>, n: nat, beam: ((seq<Step>, nat)) -> Option<Beam>)
    requires BeamsOf(dec, n, beam).Ok?
    ensures forall b :: b in BeamsOf(dec, n, beam).value ==>
      exists k :: 1 <= k <= n && dec(k).Ok? && beam(dec(k).value) == Some(b)
    ensures forall k :: 1 <= k <= n && dec(k).Ok? && beam(dec(k).value).Some? ==>
      beam(dec(k).value).value in BeamsOf(dec, n, beam).value
  {
    if n > 0 {
      var prev := BeamsOf(dec, n - 1, beam).value;
      BeamsFacts(dec, n - 1, beam);
      BeamsNext(dec, n - 1, beam);
      var cur := BeamsOf(dec, n, beam).value;
      forall b | b in cur
        ensures exists k :: 1 <= k <= n && dec(k).Ok? && beam(dec(k).value) == Some(b)
      {
        if b !in prev {
          assert beam(dec(n).value) == Some(b);
        }
      }
      forall k | 1 <= k <= n && dec(k).Ok? && beam(dec(k).value).Some?
        ensures beam(dec(k).value).value in cur
      {
        if k < n {
          assert beam(dec(k).value).value in prev;
        }
      }
    }
  }

  /**
   * `synthetic_tree_decoder_greedy_search` with `analogs`: decodes with
   * `k_reactant1` = 1..beam_width, skips trees without chemicals and keeps,
   * per tree, its first most similar chemical.
   */
  method GreedyBeams(nets: Nets, rxns: seq<Template>, bbs: seq<string>, maxStep: int, beamWidth: int, chemicals: seq<Step> -> seq<string>, sim: string -> int)
    returns (r: Result<seq<Beam>>)
    requires WellShaped(nets, rxns, bbs)
    ensures r == BeamsOf(Decodings(nets, rxns, bbs, maxStep), if beamWidth < 0 then 0 else beamWidth, Beamer(chemicals, sim))
    ensures r.Ok? ==> |r.value| <= if beamWidth < 0 then 0 else beamWidth
    ensures r.Ok? ==> forall b :: b in r.value ==>
      var chems := chemicals(b.steps);
      exists k :: 0 <= k < |chems| && b.smiles == chems[k] && b.similarity == sim(chems[k]) &&
        IsArgMax(Sims(chems, sim), NoneExcluded(|chems|), k)
  {
    ghost var dec := Decodings(nets, rxns, bbs, maxStep);
    var beams: seq<Beam> := [];
    var i := 0;
    while i < beamWidth
      invariant 0 <= i && (i > 0 ==> i <= beamWidth)
      invariant BeamsOf(dec, i, Beamer(chemicals, sim)) == Ok(beams)
      decreases beamWidth - i
    {
      var d, _ := Decode(nets, rxns, bbs, maxStep, i + 1);
      assert d == dec(i + 1);
      if d.Fail? {
        return Fail;
      }
      var (steps, act) := d.value;
      var chems := chemicals(steps);
      BeamsNext(dec, i, Beamer(chemicals, sim));
      if |chems| > 0 {
        var sims := Sims(chems, sim);
        var k := ArgMaxAdmitted(sims, NoneExcluded(|chems|));
        beams := beams + [Beam(chems[k], sims[k], steps, act)];
      }
      i := i + 1;
    }
    BeamsFacts(dec, i, Beamer(chemicals, sim));
    return Ok(beams);
  }

  /** Without `analogs`: the first beam of greatest similarity; raises when no beam was kept. */
  method GreedyBest(beams: seq<Beam>) returns (r: Result<Beam>)
    ensures r.Fail? <==> beams == []
    ensures r.Ok? ==> exists k :: (0 <= k < |beams| && r.value == beams[k] &&
      IsArgMax(seq(|beams|, j requires 0 <= j < |beams| => beams[j].similarity), NoneExcluded(|beams|), k))
  {
    if beams == [] {
      return Fail;
    }
    var sims := seq(|beams|, j requires 0 <= j < |beams| => beams[j].similarity);
    var k := ArgMaxAdmitted(sims, NoneExcluded(|beams|));
    return Ok(beams[k]);
  }
}
