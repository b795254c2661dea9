/**
 * The synthesis-plan skeleton the decoder fills in.
 *
 * The tree structure of a skeleton never changes while it is decoded, so
 * it is a value (`Shape`).  What decoding changes in place is the fill
 * state: the mask of filled nodes and the node attributes `rxn_id`,
 * `smiles` and `path`.  A `Fill` is a snapshot of that state (one beam);
 * a `Skeleton` object holds it in fields that the decoder's methods update.
 */
module Skeletons {
  import opened Basics

  /** Number of reaction templates (`NUM_POSS`). */
  const NumPoss: nat := 91

  type Path = string

  /**
   * The fixed structure of a skeleton with `Size()` nodes, numbered 0..Size()-1.
   * - rxns[i]: node i is a reaction (transformation) node;
   * - leaves[i]: node i is a building-block leaf;
   * - parent[i]: the predecessor of i in the tree, -1 at the root;
   * - children[i]: the successors of i, in order;
   * - right[i]: node i carries the child attribute 'right' (second input);
   * - depth[i]: the depth of reaction node i in the reaction-only graph
   *   (1 for a reaction whose reactants are all building blocks);
   * - rxnPred[i]: the predecessor of reaction node i in the reaction-only
   *   graph, -1 if it has none;
   * - rxnLevel[i]: distance of reaction node i from the top of the
   *   reaction-only graph, which makes walking up that graph terminate.
   */
  datatype Shape = Shape(
    rxns: seq<bool>,
    leaves: seq<bool>,
    parent: seq<int>,
    children: seq<seq<nat>>,
    right: seq<bool>,
    depth: seq<nat>,
    rxnPred: seq<int>,
    rxnLevel: seq<nat>)
  {
    function Size(): nat { |rxns| }

    predicate Valid() {
      && |leaves| == Size() && |parent| == Size() && |children| == Size()
      && |right| == Size() && |depth| == Size() && |rxnPred| == Size() && |rxnLevel| == Size()
      && (forall i :: 0 <= i < Size() ==> !(rxns[i] && leaves[i]))
      && (forall i :: 0 <= i < Size() ==> -1 <= parent[i] < Size())
      && (forall i :: 0 <= i < Size() && leaves[i] && parent[i] >= 0 ==> rxns[parent[i]])
      && (forall i, j :: 0 <= i < Size() && 0 <= j < |children[i]| ==> children[i][j] < Size())
      && (forall i, j :: 0 <= i < Size() && rxns[i] && 0 <= j < |children[i]| ==> !rxns[children[i][j]])
      && (forall i :: 0 <= i < Size() ==> -1 <= rxnPred[i] < Size())
      && (forall i :: 0 <= i < Size() && rxnPred[i] >= 0 ==> rxnLevel[rxnPred[i]] < rxnLevel[i])
    }
  }

  /**
   * One beam: the fill state of a skeleton.
   * mask[i] marks node i as filled; rxnId[i] is the template of a reaction
   * node and bb[i] the catalog position of a leaf's building block (-1 when
   * unset); path[i] is the feasibility-index path recorded on a reaction node.
   */
  datatype Fill = Fill(mask: seq<bool>, rxnId: seq<int>, bb: seq<int>, path: seq<Option<Path>>)

  predicate Fits(s: Shape, f: Fill) {
    |f.mask| == s.Size() && |f.rxnId| == s.Size() && |f.bb| == s.Size() && |f.path| == s.Size()
  }

  /** Node i still has to be decided: unmasked and a reaction or a leaf. */
  predicate Open(s: Shape, f: Fill, i: nat)
    requires s.Valid() && Fits(s, f) && i < s.Size()
  {
    !f.mask[i] && (s.rxns[i] || s.leaves[i])
  }

  function OpenMask(s: Shape, f: Fill): (m: seq<bool>)
    requires s.Valid() && Fits(s, f)
    ensures |m| == s.Size()
    ensures forall i :: 0 <= i < s.Size() ==> m[i] == Open(s, f, i)
  {
    seq(s.Size(), i requires 0 <= i < s.Size() => Open(s, f, i))
  }

  /** Number of nodes still to decide; the decoder loop runs while it is positive. */
  function Unfilled(s: Shape, f: Fill): nat
    requires s.Valid() && Fits(s, f)
  {
    Count(OpenMask(s, f))
  }

  /** No unmasked node is a reaction or a leaf (the decoder's exit test). */
  predicate Complete(s: Shape, f: Fill)
    requires s.Valid() && Fits(s, f)
  {
    forall i :: 0 <= i < s.Size() ==> !Open(s, f, i)
  }

  /** Some leaf already carries a building block. */
  predicate LeafFilled(s: Shape, f: Fill)
    requires s.Valid() && Fits(s, f)
  {
    exists i :: 0 <= i < s.Size() && s.leaves[i] && f.mask[i]
  }

  /** Every filled reaction node has a template, every filled leaf a catalog entry. */
  predicate Assigned(s: Shape, f: Fill, catalogSize: nat)
    requires s.Valid() && Fits(s, f)
  {
    forall i :: 0 <= i < s.Size() ==>
      (f.mask[i] && s.rxns[i] ==> 0 <= f.rxnId[i] < NumPoss) &&
      (f.mask[i] && s.leaves[i] ==> 0 <= f.bb[i] < catalogSize)
  }

  /** g continues f: filled nodes stay filled and keep their template and building block. */
  predicate Extends(s: Shape, f: Fill, g: Fill)
    requires s.Valid() && Fits(s, f) && Fits(s, g)
  {
    forall i :: 0 <= i < s.Size() && f.mask[i] ==>
      g.mask[i] && g.rxnId[i] == f.rxnId[i] && g.bb[i] == f.bb[i]
  }

  lemma ExtendsTransitive(s: Shape, f: Fill, g: Fill, h: Fill)
    requires s.Valid() && Fits(s, f) && Fits(s, g) && Fits(s, h)
    requires Extends(s, f, g) && Extends(s, g, h)
    ensures Extends(s, f, h)
  {
  }

  /** If g masks everything f masks and one more open node, fewer nodes remain. */
  lemma {:induction false} CountShrinks(a: seq<bool>, b: seq<bool>, k: nat)
    requires |a| == |b| && k < |a|
    requires forall i :: 0 <= i < |a| && b[i] ==> a[i]
    requires a[k] && !b[k]
    ensures Count(b) < Count(a)
    decreases |a|
  {
    var n := |a| - 1;
    CountMonotone(a[..n], b[..n]);
    if k < n {
      CountShrinks(a[..n], b[..n], k);
    }
  }

  lemma {:induction false} CountMonotone(a: seq<bool>, b: seq<bool>)
    requires |a| == |b|
    requires forall i :: 0 <= i < |a| && b[i] ==> a[i]
    ensures Count(b) <= Count(a)
    decreases |a|
  {
    if |a| > 0 {
      var n := |a| - 1;
      CountMonotone(a[..n], b[..n]);
    }
  }

  /** Filling one open node and masking only more nodes lowers `Unfilled`. */
  lemma UnfilledDrops(s: Shape, f: Fill, g: Fill, n: nat)
    requires s.Valid() && Fits(s, f) && Fits(s, g) && n < s.Size()
    requires Open(s, f, n) && g.mask[n]
    requires forall i :: 0 <= i < s.Size() && f.mask[i] ==> g.mask[i]
    ensures Unfilled(s, g) < Unfilled(s, f)
  {
    CountShrinks(OpenMask(s, f), OpenMask(s, g), n);
  }

  lemma CompleteIffNoneUnfilled(s: Shape, f: Fill)
    requires s.Valid() && Fits(s, f)
    ensures Complete(s, f) <==> Unfilled(s, f) == 0
  {
  }

  /**
   * A skeleton under decoding.  `mask`, `rxnId`, `bb` and `path` are the
   * per-node state that the decoder overwrites; the structure is constant.
   */
  class Skeleton {
    const shape: Shape
    var mask: seq<bool>
    var rxnId: seq<int>
    var bb: seq<int>
    var path: seq<Option<Path>>

    ghost predicate Valid()
      reads this
    {
      shape.Valid() && Fits(shape, State())
    }

    function State(): Fill
      reads this
    {
      Fill(mask, rxnId, bb, path)
    }

    /** A deep copy of a beam: a fresh skeleton holding the same state. */
    constructor Copy(s: Shape, f: Fill)
      requires s.Valid() && Fits(s, f)
      ensures Valid() && shape == s && State() == f
    {
      shape := s;
      mask, rxnId, bb, path := f.mask, f.rxnId, f.bb, f.path;
    }

    /** `modify_tree(n, rxn_id=id)`: records the template and marks the node filled. */
    method AssignTemplate(n: nat, id: int)
      requires Valid() && n < shape.Size()
      modifies this
      ensures Valid()
      ensures State() == old(State()).(rxnId := old(rxnId)[n := id], mask := old(mask)[n := true])
    {
      rxnId := rxnId[n := id];
      mask := mask[n := true];
    }

    /** `modify_tree(n, smiles=...)`: records the building block and marks the node filled. */
    method AssignBlock(n: nat, b: int)
      requires Valid() && n < shape.Size()
      modifies this
      ensures Valid()
      ensures State() == old(State()).(bb := old(bb)[n := b], mask := old(mask)[n := true])
    {
      bb := bb[n := b];
      mask := mask[n := true];
    }

    /** The `mask` setter: marks node n filled without assigning it. */
    method MaskNode(n: nat)
      requires Valid() && n < shape.Size()
      modifies this
      ensures Valid()
      ensures State() == old(State()).(mask := old(mask)[n := true])
    {
      mask := mask[n := true];
    }

    /** Sets the `path` attribute of node n. */
    method SetPath(n: nat, p: Path)
      requires Valid() && n < shape.Size()
      modifies this
      ensures Valid()
      ensures State() == old(State()).(path := old(path)[n := Some(p)])
    {
      path := path[n := Some(p)];
    }
  }
}
