/**
 * The two checks of `scripts/reconstruct-targets.py` around the older
 * decoder: the answer check that replays the chosen reactions bottom-up
 * (`test_correct` with the postorder method), and the filter in `main`
 * that keeps the skeletons the program enumeration covers.
 */
module LegacyChecks {
  import opened Basics
  import opened Skeletons

  /** Python list indexing: negative positions count from the end; None where it raises. */
  function PyIndex(i: int, len: nat): (r: Option<nat>)
    ensures r.Some? <==> -(len as int) <= i < len
    ensures r.Some? ==> r.value < len
  {
    if 0 <= i < len then Some(i)
    else if -(len as int) <= i < 0 then Some(i + len)
    else None
  }

  /** The smiles of reaction node i's successors, in order; None when one of them has none. */
  function Reactants(s: Shape, i: nat, sm: seq<Option<string>>): (r: Option<seq<string>>)
    requires s.Valid() && i < s.Size() && |sm| == s.Size()
    ensures r.Some? <==> forall j :: 0 <= j < |s.children[i]| ==> sm[s.children[i][j]].Some?
    ensures r.Some? ==> |r.value| == |s.children[i]|
  {
    var kids := s.children[i];
    if forall j :: 0 <= j < |kids| ==> sm[kids[j]].Some? then
      Some(seq(|kids|, j requires 0 <= j < |kids| => sm[kids[j]].value))
    else None
  }

  /**
   * Replays the nodes of `order` (a postorder) on the smiles table sm: a
   * reaction node whose successors' count differs from its template's
   * arity, or whose reaction yields nothing, stops the replay with Ok(None)
   * (the check answers False); otherwise its product becomes its
   * predecessor's smiles.  Fail where the code raises.
   */
  function Replay(s: Shape, f: Fill, arity: seq<nat>, run: (nat, seq<string>) -> Option<string>,
                  order: seq<nat>, sm: seq<Option<string>>): (r: Result<Option<seq<Option<string>>>>)
    requires s.Valid() && Fits(s, f) && |sm| == s.Size()
    requires forall j :: 0 <= j < |order| ==> order[j] < s.Size()
    ensures r.Ok? && r.value.Some? ==> |r.value.value| == s.Size()
    decreases |order|
  {
    if order == [] then Ok(Some(sm))
    else
      var i := order[0];
      if !s.rxns[i] then Replay(s, f, arity, run, order[1..], sm)
      else match Reactants(s, i, sm)
        case None => Fail
        case Some(rs) =>
          match PyIndex(f.rxnId[i], |arity|)
          case None => Fail
          case Some(t) =>
            if |rs| != arity[t] then Ok(None)
            else if s.parent[i] < 0 then Fail
            else match run(t, rs)
              case None => Ok(None)
              case Some(p) => Replay(s, f, arity, run, order[1..], sm[s.parent[i] := Some(p)])
  }

  /** The answer of the check from the replay: the root's smiles against the reference smiles. */
  function Verdict(res: Result<Option<seq<Option<string>>>>, root: nat, truth: string): Result<bool> {
    match res
    case Fail => Fail
    case Ok(None) => Ok(false)
    case Ok(Some(sm)) =>
      if root < |sm| && sm[root].Some? then Ok(sm[root].value == truth) else Fail
  }

  /** A reaction node's successor count matches its template's arity. */
  predicate ArityMatches(s: Shape, f: Fill, arity: seq<nat>, i: nat)
    requires s.Valid() && Fits(s, f) && i < s.Size()
  {
    PyIndex(f.rxnId[i], |arity|).Some? && |s.children[i]| == arity[PyIndex(f.rxnId[i], |arity|).value]
  }

  /** A replay that runs to the end has met only reaction nodes whose arity matches. */
  lemma {:induction false} ReplayChecksArity(s: Shape, f: Fill, arity: seq<nat>, run: (nat, seq<string>) -> Option<string>,
                                             order: seq<nat>, sm: seq<Option<string>>)
    requires s.Valid() && Fits(s, f) && |sm| == s.Size()
    requires forall j :: 0 <= j < |order| ==> order[j] < s.Size()
    requires Replay(s, f, arity, run, order, sm).Ok? && Replay(s, f, arity, run, order, sm).value.Some?
    ensures forall j :: 0 <= j < |order| && s.rxns[order[j]] ==> ArityMatches(s, f, arity, order[j])
    decreases |order|
  {
    if order != [] {
      var i := order[0];
      var rest := order[1..];
      if !s.rxns[i] {
        ReplayChecksArity(s, f, arity, run, rest, sm);
      } else {
        var rs := Reactants(s, i, sm).value;
        var t := PyIndex(f.rxnId[i], |arity|).value;
        var p := run(t, rs).value;
        ReplayChecksArity(s, f, arity, run, rest, sm[s.parent[i] := Some(p)]);
      }
      assert forall j :: 1 <= j < |order| ==> order[j] == rest[j - 1];
    }
  }

  /** If some reaction node of the postorder has the wrong number of successors, the check never answers True. */
  lemma MismatchNeverCorrect(s: Shape, f: Fill, arity: seq<nat>, run: (nat, seq<string>) -> Option<string>,
                             order: seq<nat>, sm: seq<Option<string>>, root: nat, truth: string, k: nat)
    requires s.Valid() && Fits(s, f) && |sm| == s.Size()
    requires forall j :: 0 <= j < |order| ==> order[j] < s.Size()
    requires k < |order| && s.rxns[order[k]] && !ArityMatches(s, f, arity, order[k])
    ensures Verdict(Replay(s, f, arity, run, order, sm), root, truth) != Ok(true)
  {
    var res := Replay(s, f, arity, run, order, sm);
    if res.Ok? && res.value.Some? {
      ReplayChecksArity(s, f, arity, run, order, sm);
    }
  }

  /**
   * `test_correct` with the postorder method: walks the postorder,
   * writing each reaction's product into its predecessor's smiles, and
   * finally compares the root's smiles with the reference.
   */
  method TestCorrectPostorder(s: Shape, f: Fill, arity: seq<nat>, run: (nat, seq<string>) -> Option<string>,
                              order: seq<nat>, smiles: seq<Option<string>>, root: nat, truth: string)
    returns (r: Result<bool>)
    requires s.Valid() && Fits(s, f) && |smiles| == s.Size()
    requires forall j :: 0 <= j < |order| ==> order[j] < s.Size()
    ensures r == Verdict(Replay(s, f, arity, run, order, smiles), root, truth)
  {
    var sm := smiles;
    for q := 0 to |order|
      invariant |sm| == s.Size()
      invariant Replay(s, f, arity, run, order, smiles) == Replay(s, f, arity, run, order[q..], sm)
    {
      var i := order[q];
      assert order[q..][0] == i && order[q..][1..] == order[q + 1..];
      if s.rxns[i] {
        var rs := Reactants(s, i, sm);
        if rs.None? {
          return Fail;
        }
        var t := PyIndex(f.rxnId[i], |arity|);
        if t.None? {
          return Fail;
        }
        if |rs.value| != arity[t.value] {
          return Ok(false);
        }
        var interm := run(t.value, rs.value);
        if s.parent[i] < 0 {
          return Fail;
        }
        if interm.None? {
          return Ok(false);
        }
        sm := sm[s.parent[i] := Some(interm.value)];
      }
    }
    assert order[|order|..] == [];
    if root >= |sm| || sm[root].None? {
      return Fail;
    }
    return Ok(sm[root].value == truth);
  }

  // ---------------------------------------------------------------------
  // The skeleton filter of `main`

  /** Reaction node i's template takes two reactants. */
  predicate Bimolecular(s: Shape, f: Fill, arity: seq<nat>, i: nat)
    requires s.Valid() && Fits(s, f) && i < s.Size()
  {
    PyIndex(f.rxnId[i], |arity|).Some? && arity[PyIndex(f.rxnId[i], |arity|).value] == 2
  }

  /** Inspecting reaction node i raises: its template index is out of range, or it is bimolecular with fewer than two successors. */
  predicate Raises(s: Shape, f: Fill, arity: seq<nat>, i: nat)
    requires s.Valid() && Fits(s, f) && i < s.Size()
  {
    s.rxns[i] && (PyIndex(f.rxnId[i], |arity|).None? || (Bimolecular(s, f, arity, i) && |s.children[i]| < 2))
  }

  /** Exactly one of node i's first two successors is a leaf. */
  predicate Mixed(s: Shape, i: nat)
    requires s.Valid() && i < s.Size()
  {
    |s.children[i]| >= 2 && s.leaves[s.children[i][0]] != s.leaves[s.children[i][1]]
  }

  /** The enumeration covers the skeleton: at most two reactions, none bimolecular with one leaf and one intermediate. */
  predicate Covered(s: Shape, f: Fill, arity: seq<nat>)
    requires s.Valid() && Fits(s, f)
  {
    Count(s.rxns) <= 2 && forall i :: 0 <= i < s.Size() && s.rxns[i] && Bimolecular(s, f, arity, i) ==> !Mixed(s, i)
  }

  /** The `good` flag of the filter loop for one skeleton. */
  method SkeletonGood(s: Shape, f: Fill, arity: seq<nat>) returns (r: Result<bool>)
    requires s.Valid() && Fits(s, f)
    ensures r.Fail? <==> exists i :: 0 <= i < s.Size() && Raises(s, f, arity, i)
    ensures r.Ok? ==> (r.value <==> Covered(s, f, arity))
  {
    var good := true;
    for idx := 0 to s.Size()
      invariant forall i :: 0 <= i < idx ==> !Raises(s, f, arity, i)
      invariant good <==> forall i :: 0 <= i < idx && s.rxns[i] && Bimolecular(s, f, arity, i) ==> !Mixed(s, i)
    {
      if s.rxns[idx] {
        var t := PyIndex(f.rxnId[idx], |arity|);
        if t.None? {
          assert Raises(s, f, arity, idx);
          return Fail;
        }
        if arity[t.value] == 2 {
          var succs := s.children[idx];
          if |succs| < 2 {
            assert Raises(s, f, arity, idx);
            return Fail;
          }
          if s.leaves[succs[0]] != s.leaves[succs[1]] {
            good := false;
          }
        }
      }
    }
    if Count(s.rxns) > 2 {
      good := false;
    }
    return Ok(good);
  }

  /** `SKELETON_INDEX`: the positions of the covered skeletons, in order. */
  method SelectSkeletons(sks: seq<(Shape, Fill)>, arity: seq<nat>) returns (r: Result<seq<nat>>)
    requires forall j :: 0 <= j < |sks| ==> sks[j].0.Valid() && Fits(sks[j].0, sks[j].1)
    ensures r.Fail? <==> exists j, i :: 0 <= j < |sks| && 0 <= i < sks[j].0.Size() && Raises(sks[j].0, sks[j].1, arity, i)
    ensures r.Ok? ==> forall j :: 0 <= j < |sks| ==> (j in r.value <==> Covered(sks[j].0, sks[j].1, arity))
    ensures r.Ok? ==> forall a, b :: 0 <= a < b < |r.value| ==> r.value[a] < r.value[b]
  {
    var index: seq<nat> := [];
    for ind := 0 to |sks|
      invariant NoneRaise(sks, arity, ind)
      invariant Selected(sks, arity, ind, index)
    {
      var good := SkeletonGood(sks[ind].0, sks[ind].1, arity);
      if good.Fail? {
        return Fail;
      }
      SelectStep(sks, arity, ind, index);
      NoneRaiseStep(sks, arity, ind);
      var added: seq<nat> := if good.value then [ind] else [];
      index := index + added;
    }
    return Ok(index);
  }

  /** No node of the first ind skeletons makes the check raise. */
  ghost predicate NoneRaise(sks: seq<(Shape, Fill)>, arity: seq<nat>, ind: nat)
    requires ind <= |sks|
    requires forall j :: 0 <= j < |sks| ==> sks[j].0.Valid() && Fits(sks[j].0, sks[j].1)
  {
    forall j, i :: 0 <= j < ind && 0 <= i < sks[j].0.Size() ==> !Raises(sks[j].0, sks[j].1, arity, i)
  }

  /** index lists, in increasing order, exactly the covered skeletons among the first ind. */
  ghost predicate Selected(sks: seq<(Shape, Fill)>, arity: seq<nat>, ind: nat, index: seq<nat>)
    requires ind <= |sks|
    requires forall j :: 0 <= j < |sks| ==> sks[j].0.Valid() && Fits(sks[j].0, sks[j].1)
  {
    && (forall j :: 0 <= j < |index| ==> index[j] < ind)
    && (forall j :: 0 <= j < ind ==> (j in index <==> Covered(sks[j].0, sks[j].1, arity)))
    && (forall a, b :: 0 <= a < b < |index| ==> index[a] < index[b])
  }

  /** Listing skeleton ind when it is covered keeps the selection exact and ordered. */
  lemma SelectStep(sks: seq<(Shape, Fill)>, arity: seq<nat>, ind: nat, index: seq<nat>)
    requires ind < |sks|
    requires forall j :: 0 <= j < |sks| ==> sks[j].0.Valid() && Fits(sks[j].0, sks[j].1)
    requires Selected(sks, arity, ind, index)
    ensures Selected(sks, arity, ind + 1, index + if Covered(sks[ind].0, sks[ind].1, arity) then [ind] else [])
  {
    var added: seq<nat> := if Covered(sks[ind].0, sks[ind].1, arity) then [ind] else [];
    var next := index + added;
    forall j | 0 <= j < ind + 1
      ensures j in next <==> Covered(sks[j].0, sks[j].1, arity)
    {
      assert j in next <==> j in index || j in added;
    }
  }

  /** A skeleton none of whose nodes raises extends the nodes checked without raising. */
  lemma NoneRaiseStep(sks: seq<(Shape, Fill)>, arity: seq<nat>, ind: nat)
    requires ind < |sks|
    requires forall j :: 0 <= j < |sks| ==> sks[j].0.Valid() && Fits(sks[j].0, sks[j].1)
    requires NoneRaise(sks, arity, ind)
    requires forall i :: 0 <= i < sks[ind].0.Size() ==> !Raises(sks[ind].0, sks[ind].1, arity, i)
    ensures NoneRaise(sks, arity, ind + 1)
  {
  }
}
