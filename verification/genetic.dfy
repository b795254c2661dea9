/**
 * The discrete operators of the genetic search over fingerprints and
 * skeleton trees: validation, crossover and bit-flip mutation, parent
 * selection by rank, exploration-driven promotion, culling, the oracle
 * ledger, and the generation loop with its oracle budget and early stop.
 *
 * Fitness values and similarities are floats in the original; fitness is
 * an `int` here (only its order and differences matter) and similarities
 * are `real`.  Random draws (the crossover mask, the sampled parent
 * indices, the budget sample) enter as given values within the bounds the
 * random generator guarantees.
 */
module Genetic {
  import opened Basics

  /** A skeleton tree of an individual, by the out-degrees of its nodes. */
  datatype Tree = Tree(outDegree: seq<nat>)

  /** `Individual(fp, bt, fitness, smiles)`. */
  datatype Individual = Individual(fp: seq<int>, bt: Option<Tree>, fitness: Option<int>, smiles: Option<string>)

  /** The configuration fields the operators read. */
  datatype Config = Config(
    populationSize: nat, fpBits: nat, btIgnore: bool, maxNumRxns: int,
    offspringSize: nat, generations: int, maxOracleCalls: int,
    earlyStop: bool, earlyStopWarmup: int, earlyStopPatience: nat, earlyStopDelta: int)

  // ---------------------------------------------------------------------
  // validate

  /** Every bit is 0 or 1. */
  predicate Binary(fp: seq<int>) {
    forall i :: 0 <= i < |fp| ==> fp[i] == 0 || fp[i] == 1
  }

  /**
   * What `validate` asserts of one individual: the fingerprint has
   * `fp_bits` entries and its set of values is exactly {0, 1}; the tree is
   * absent when trees are ignored, and otherwise has at least two nodes,
   * at most `max_num_rxns` internal nodes and out-degrees of at most 2.
   */
  predicate ValidIndividual(cfg: Config, internal: Tree -> nat, ind: Individual) {
    && |ind.fp| == cfg.fpBits && Binary(ind.fp) && 0 in ind.fp && 1 in ind.fp
    && (if cfg.btIgnore then ind.bt.None?
        else
          && ind.bt.Some? && 2 <= |ind.bt.value.outDegree| && internal(ind.bt.value) <= cfg.maxNumRxns
          && forall k :: 0 <= k < |ind.bt.value.outDegree| ==> ind.bt.value.outDegree[k] <= 2)
  }

  /** `validate`: passes iff every individual is valid. */
  method Validate(cfg: Config, internal: Tree -> nat, pop: seq<Individual>) returns (ok: bool)
    ensures ok <==> forall i :: 0 <= i < |pop| ==> ValidIndividual(cfg, internal, pop[i])
  {
    for i := 0 to |pop|
      invariant forall j :: 0 <= j < i ==> ValidIndividual(cfg, internal, pop[j])
    {
      if !ValidIndividual(cfg, internal, pop[i]) {
        return false;
      }
    }
    return true;
  }

  // ---------------------------------------------------------------------
  // Crossover and mutation

  /** `np.where(mask, a, b)`. */
  function Blend(mask: seq<bool>, a: seq<int>, b: seq<int>): (c: seq<int>)
    requires |mask| == |a| == |b|
    ensures |c| == |a|
  {
    seq(|a|, i requires 0 <= i < |a| => if mask[i] then a[i] else b[i])
  }

  /** The negated mask. */
  function Negate(mask: seq<bool>): (m: seq<bool>)
    ensures |m| == |mask| && forall i :: 0 <= i < |m| ==> m[i] == !mask[i]
  {
    seq(|mask|, i requires 0 <= i < |mask| => !mask[i])
  }

  /**
   * The child takes every bit from one of its parents, the first where the
   * mask holds, and swapping the parents is negating the mask; binary
   * parents give a binary child, and equal parents give the parent back.
   */
  lemma BlendProperties(mask: seq<bool>, a: seq<int>, b: seq<int>)
    requires |mask| == |a| == |b|
    ensures forall i :: 0 <= i < |a| ==> Blend(mask, a, b)[i] == (if mask[i] then a[i] else b[i])
    ensures Blend(mask, a, b) == Blend(Negate(mask), b, a)
    ensures Binary(a) && Binary(b) ==> Binary(Blend(mask, a, b))
    ensures Blend(mask, a, a) == a
  {
  }

  /** `np.where(mask, 1 - fp, fp)`. */
  function Flip(mask: seq<bool>, fp: seq<int>): (r: seq<int>)
    requires |mask| == |fp|
    ensures |r| == |fp|
  {
    seq(|fp|, i requires 0 <= i < |fp| => if mask[i] then 1 - fp[i] else fp[i])
  }

  /** Flipping changes a 0/1 vector exactly at the masked bits, keeps it 0/1, and flipping twice restores it. */
  lemma FlipProperties(mask: seq<bool>, fp: seq<int>)
    requires |mask| == |fp|
    ensures Binary(fp) ==> Binary(Flip(mask, fp))
    ensures Binary(fp) ==> forall i :: 0 <= i < |fp| ==> (Flip(mask, fp)[i] != fp[i] <==> mask[i])
    ensures Flip(mask, Flip(mask, fp)) == fp
  {
  }

  /** `int(np.clip(draw, 0.2 n, 0.8 n))`: the number of bits taken from the first parent. */
  function ClipK(n: nat, draw: real): (k: nat)
    ensures (n as real / 5.0).Floor <= k && k as real <= 4.0 * n as real / 5.0
  {
    var lo, hi := n as real / 5.0, 4.0 * n as real / 5.0;
    var c := if draw < lo then lo else if draw > hi then hi else draw;
    c.Floor
  }

  /**
   * `crossover_and_mutate`: blends the parents' fingerprints by the drawn
   * mask, flips the drawn bits when mutation fires, and attaches the
   * predicted tree; fitness and smiles are unset.
   */
  function CrossoverAndMutate(p0: Individual, p1: Individual, mask: seq<bool>, flip: Option<seq<bool>>, bt: Option<Tree>): (c: Individual)
    requires |mask| == |p0.fp| == |p1.fp|
    requires flip.Some? ==> |flip.value| == |mask|
    ensures |c.fp| == |p0.fp| && c.bt == bt && c.fitness.None? && c.smiles.None?
    ensures flip.None? ==> c.fp == Blend(mask, p0.fp, p1.fp)
    ensures flip.Some? ==> c.fp == Flip(flip.value, Blend(mask, p0.fp, p1.fp))
    ensures Binary(p0.fp) && Binary(p1.fp) ==> Binary(c.fp)
    ensures flip.None? ==> forall i :: 0 <= i < |c.fp| ==> c.fp[i] == p0.fp[i] || c.fp[i] == p1.fp[i]
    ensures flip.Some? ==> forall i :: 0 <= i < |c.fp| && !flip.value[i] ==> c.fp[i] == p0.fp[i] || c.fp[i] == p1.fp[i]
  {
    var child := Blend(mask, p0.fp, p1.fp);
    BlendProperties(mask, p0.fp, p1.fp);
    match flip
    case None => Individual(child, bt, None, None)
    case Some(m) =>
      FlipProperties(m, child);
      Individual(Flip(m, child), bt, None, None)
  }

  /**
   * `analog_mutate`: a copy with the same fingerprint, no tree when trees
   * are ignored and an edited copy of the tree otherwise; raises when a
   * tree is expected but absent.
   */
  function AnalogMutate(cfg: Config, ind: Individual, edit: Tree -> Tree): (r: Result<Individual>)
    ensures r.Fail? <==> !cfg.btIgnore && ind.bt.None?
    ensures r.Ok? ==> r.value.fp == ind.fp && r.value.fitness.None? && r.value.smiles.None?
    ensures r.Ok? && cfg.btIgnore ==> r.value.bt.None?
    ensures r.Ok? && !cfg.btIgnore ==> r.value.bt == Some(edit(ind.bt.value))
  {
    if cfg.btIgnore then Ok(Individual(ind.fp, None, None, None))
    else if ind.bt.None? then Fail
    else Ok(Individual(ind.fp, Some(edit(ind.bt.value)), None, None))
  }

  // ---------------------------------------------------------------------
  // Sorting by fitness (Python's stable `sort`)

  /** The sort key; an unset fitness is only ever compared in a list of one. */
  function Key(x: Individual): int {
    if x.fitness.Some? then x.fitness.value else 0
  }

  /** a may stand before b: descending or ascending fitness. */
  predicate Before(a: Individual, b: Individual, desc: bool) {
    if desc then Key(a) >= Key(b) else Key(a) <= Key(b)
  }

  predicate Ordered(xs: seq<Individual>, desc: bool) {
    forall i, j :: 0 <= i < j < |xs| ==> Before(xs[i], xs[j], desc)
  }

  /** Inserts x after every element that may stand before it (which keeps the sort stable). */
  function Insert(x: Individual, xs: seq<Individual>, desc: bool): (r: seq<Individual>)
    ensures multiset(r) == multiset(xs) + multiset{x} && |r| == |xs| + 1
    decreases |xs|
  {
    if xs == [] then [x]
    else if Before(xs[0], x, desc) then
      assert xs == [xs[0]] + xs[1..];
      [xs[0]] + Insert(x, xs[1..], desc)
    else [x] + xs
  }

  lemma {:induction false} InsertOrdered(x: Individual, xs: seq<Individual>, desc: bool)
    requires Ordered(xs, desc)
    ensures Ordered(Insert(x, xs, desc), desc)
    decreases |xs|
  {
    if xs != [] && Before(xs[0], x, desc) {
      var rest := Insert(x, xs[1..], desc);
      InsertOrdered(x, xs[1..], desc);
      forall y | y in rest ensures Before(xs[0], y, desc) {
        assert y in multiset(rest);
        if y != x {
          assert y in multiset(xs[1..]);
          var k :| 0 <= k < |xs[1..]| && xs[1..][k] == y;
          assert xs[k + 1] == y;
        }
      }
      var r := [xs[0]] + rest;
      forall i, j | 0 <= i < j < |r| ensures Before(r[i], r[j], desc) {
        if i > 0 {
          assert r[i] == rest[i - 1] && r[j] == rest[j - 1];
        } else {
          assert r[j] in rest;
        }
      }
    }
  }

  /** `sorted(xs, key=fitness)`, descending when desc holds. */
  function Sort(xs: seq<Individual>, desc: bool): (r: seq<Individual>)
    ensures multiset(r) == multiset(xs) && |r| == |xs|
  {
    if xs == [] then []
    else
      assert xs == xs[..|xs| - 1] + [xs[|xs| - 1]];
      Insert(xs[|xs| - 1], Sort(xs[..|xs| - 1], desc), desc)
  }

  /** The sort orders its result. */
  lemma {:induction false} SortOrdered(xs: seq<Individual>, desc: bool)
    ensures Ordered(Sort(xs, desc), desc)
  {
    if xs != [] {
      SortOrdered(xs[..|xs| - 1], desc);
      InsertOrdered(xs[|xs| - 1], Sort(xs[..|xs| - 1], desc), desc);
    }
  }

  /** Sorting compares an unset fitness and raises: two or more entries, one of them unscored. */
  predicate Unscorable(xs: seq<Individual>) {
    |xs| >= 2 && exists i :: 0 <= i < |xs| && xs[i].fitness.None?
  }

  /** `xs.sort(key=fitness)` as an operation that may raise. */
  function SortOrFail(xs: seq<Individual>, desc: bool): (r: Result<seq<Individual>>)
    ensures r.Fail? <==> Unscorable(xs)
  {
    if Unscorable(xs) then Fail else Ok(Sort(xs, desc))
  }

  // ---------------------------------------------------------------------
  // cull

  /** The smiles carried by the individuals of xs. */
  function SmilesIn(xs: seq<Individual>): set<string> {
    set i | 0 <= i < |xs| && xs[i].smiles.Some? :: xs[i].smiles.value
  }

  lemma SmilesInSnoc(xs: seq<Individual>, x: Individual)
    ensures SmilesIn(xs + [x]) == SmilesIn(xs) + (if x.smiles.Some? then {x.smiles.value} else {})
  {
    var ys := xs + [x];
    assert forall i :: 0 <= i < |xs| ==> ys[i] == xs[i];
    if x.smiles.Some? {
      assert x.smiles.value in SmilesIn(ys) by { assert ys[|xs|] == x; }
    }
  }

  /** Individual i is the first of pop to carry its smiles. */
  predicate FirstWith(pop: seq<Individual>, i: nat)
    requires i < |pop|
  {
    pop[i].smiles.Some? && forall i' :: 0 <= i' < i ==> pop[i'].smiles != pop[i].smiles
  }

  /**
   * The split of `cull`'s loop: individuals with a smiles not seen before
   * go to `filtered`, all others (no smiles, or a repeat) to `leftover`.
   */
  function Split(pop: seq<Individual>): (r: (seq<Individual>, seq<Individual>))
    ensures |r.0| + |r.1| == |pop|
  {
    if pop == [] then ([], [])
    else
      var (f, l) := Split(pop[..|pop| - 1]);
      var x := pop[|pop| - 1];
      if x.smiles.Some? && x.smiles.value !in SmilesIn(pop[..|pop| - 1]) then (f + [x], l) else (f, l + [x])
  }

  /** The split is a partition of pop. */
  lemma {:induction false} SplitPartition(pop: seq<Individual>)
    ensures multiset(Split(pop).0) + multiset(Split(pop).1) == multiset(pop)
  {
    if pop != [] {
      assert pop == pop[..|pop| - 1] + [pop[|pop| - 1]];
      SplitPartition(pop[..|pop| - 1]);
    }
  }

  /** `filtered` carries every smiles of pop, and each only once. */
  lemma {:induction false} SplitSmiles(pop: seq<Individual>)
    ensures SmilesIn(Split(pop).0) == SmilesIn(pop)
    ensures forall j :: 0 <= j < |Split(pop).0| ==> Split(pop).0[j].smiles.Some?
    ensures forall j, k :: 0 <= j < k < |Split(pop).0| ==> Split(pop).0[j].smiles != Split(pop).0[k].smiles
  {
    if pop != [] {
      var init, x := pop[..|pop| - 1], pop[|pop| - 1];
      assert pop == init + [x];
      SplitSmiles(init);
      var f := Split(init).0;
      SmilesInSnoc(init, x);
      if x.smiles.Some? && x.smiles.value !in SmilesIn(init) {
        SmilesInSnoc(f, x);
        forall j | 0 <= j < |f| ensures f[j].smiles != x.smiles {
          assert f[j].smiles.value in SmilesIn(f);
        }
        var f' := f + [x];
        forall j, k | 0 <= j < k < |f'| ensures f'[j].smiles != f'[k].smiles {
          if k < |f| {
            assert f'[j] == f[j] && f'[k] == f[k];
          }
        }
      }
    }
  }

  /** `filtered` holds exactly the first individual for each smiles: the earliest occurrence wins, not the fittest. */
  lemma {:induction false} SplitFirst(pop: seq<Individual>)
    ensures forall x :: x in Split(pop).0 <==> exists i :: 0 <= i < |pop| && FirstWith(pop, i) && pop[i] == x
  {
    if pop != [] {
      var init, x := pop[..|pop| - 1], pop[|pop| - 1];
      assert pop == init + [x];
      SplitFirst(init);
      assert forall i :: 0 <= i < |init| ==> (FirstWith(pop, i) <==> FirstWith(init, i));
      if x.smiles.Some? && x.smiles.value !in SmilesIn(init) {
        assert FirstWith(pop, |pop| - 1) by {
          forall i' | 0 <= i' < |pop| - 1 ensures pop[i'].smiles != x.smiles {
            if pop[i'].smiles.Some? {
              assert pop[i'] == init[i'];
              assert pop[i'].smiles.value in SmilesIn(init);
            }
          }
        }
      } else {
        assert !FirstWith(pop, |pop| - 1) by {
          if x.smiles.Some? {
            var i :| 0 <= i < |init| && init[i].smiles.Some? && init[i].smiles.value == x.smiles.value;
            assert pop[i] == init[i];
          }
        }
      }
    }
  }

  /** `cull` as a value: dedupe, keep the top n unique, backfill from the leftover when short, sort descending. */
  function CullOf(pop: seq<Individual>, n: nat): Result<seq<Individual>> {
    var (f, l) := Split(pop);
    CullParts(f, l, n)
  }

  /** The sorts and the backfill of `cull`, from `filtered` and `leftover`. */
  function CullParts(f: seq<Individual>, l: seq<Individual>, n: nat): Result<seq<Individual>> {
    match SortOrFail(f, true)
    case Fail => Fail
    case Ok(sf) =>
      var top := sf[..if n < |sf| then n else |sf|];
      if |top| < n then
        match SortOrFail(l, true)
        case Fail => Fail
        case Ok(sl) => SortOrFail(top + sl[..if n - |top| < |sl| then n - |top| else |sl|], true)
      else Ok(top)
  }

  lemma PrefixIncluded(xs: seq<Individual>, k: nat)
    requires k <= |xs|
    ensures multiset(xs[..k]) <= multiset(xs)
  {
    assert xs == xs[..k] + xs[k..];
  }

  lemma PrefixOrdered(xs: seq<Individual>, k: nat, desc: bool)
    requires k <= |xs| && Ordered(xs, desc)
    ensures Ordered(xs[..k], desc)
  {
    assert forall i :: 0 <= i < k ==> xs[..k][i] == xs[i];
  }

  /**
   * A successful cull returns min(n, |pop|) individuals, all drawn from
   * pop, sorted by descending fitness; when at least n distinct smiles
   * exist it returns the n fittest first occurrences and nothing from the
   * leftover.
   */
  lemma CullFacts(pop: seq<Individual>, n: nat)
    requires CullOf(pop, n).Ok?
    ensures |CullOf(pop, n).value| == if n < |pop| then n else |pop|
    ensures multiset(CullOf(pop, n).value) <= multiset(pop)
    ensures Ordered(CullOf(pop, n).value, true)
    ensures |Split(pop).0| >= n ==> CullOf(pop, n).value == Sort(Split(pop).0, true)[..n]
  {
    var r := CullOf(pop, n).value;
    var (f, l) := Split(pop);
    SplitPartition(pop);
    assert SortOrFail(f, true).Ok?;
    var sf := Sort(f, true);
    var m := if n < |sf| then n else |sf|;
    var top := sf[..m];
    PrefixIncluded(sf, m);
    if m < n {
      assert SortOrFail(l, true).Ok?;
      var sl := Sort(l, true);
      var m2 := if n - m < |sl| then n - m else |sl|;
      var both := top + sl[..m2];
      assert r == Sort(both, true);
      PrefixIncluded(sl, m2);
      SortOrdered(both, true);
      assert multiset(both) == multiset(top) + multiset(sl[..m2]);
      assert |r| == m + m2;
    } else {
      assert r == top;
      SortOrdered(f, true);
      PrefixOrdered(sf, m, true);
    }
  }

  /** With every fitness set, cull never raises. */
  lemma CullScoredSucceeds(pop: seq<Individual>, n: nat)
    requires forall i :: 0 <= i < |pop| ==> pop[i].fitness.Some?
    ensures CullOf(pop, n).Ok?
  {
    SplitPartition(pop);
    var (f, l) := Split(pop);
    ScoredPart(f, pop);
    ScoredPart(l, pop);
    CullPartsScored(f, l, n);
  }

  /** The sorts and the backfill of two scored lists never raise. */
  lemma CullPartsScored(f: seq<Individual>, l: seq<Individual>, n: nat)
    requires forall i :: 0 <= i < |f| ==> f[i].fitness.Some?
    requires forall i :: 0 <= i < |l| ==> l[i].fitness.Some?
    ensures CullParts(f, l, n).Ok?
  {
    var sf := Sort(f, true);
    ScoredPart(sf, f);
    assert SortOrFail(f, true) == Ok(sf);
    var top := sf[..if n < |sf| then n else |sf|];
    if |top| < n {
      var sl := Sort(l, true);
      ScoredPart(sl, l);
      assert SortOrFail(l, true) == Ok(sl);
      var rest := sl[..if n - |top| < |sl| then n - |top| else |sl|];
      ScoredConcat(top, rest);
      assert CullParts(f, l, n) == SortOrFail(top + rest, true);
    }
  }

  /** Two scored lists make a scored list. */
  lemma ScoredConcat(a: seq<Individual>, b: seq<Individual>)
    requires forall i :: 0 <= i < |a| ==> a[i].fitness.Some?
    requires forall i :: 0 <= i < |b| ==> b[i].fitness.Some?
    ensures !Unscorable(a + b)
  {
    forall i | 0 <= i < |a + b|
      ensures (a + b)[i].fitness.Some?
    {
      if i >= |a| {
        assert (a + b)[i] == b[i - |a|];
      }
    }
  }

  /** Drawn from a fully scored population, a list is scored too. */
  lemma ScoredPart(xs: seq<Individual>, pop: seq<Individual>)
    requires multiset(xs) <= multiset(pop)
    requires forall i :: 0 <= i < |pop| ==> pop[i].fitness.Some?
    ensures forall i :: 0 <= i < |xs| ==> xs[i].fitness.Some?
    ensures !Unscorable(xs)
  {
    forall i | 0 <= i < |xs| ensures xs[i].fitness.Some? {
      assert xs[i] in multiset(xs);
      assert xs[i] in multiset(pop);
    }
  }

  /** `cull`: the loop that splits the population, then the sorts and the backfill. */
  method Cull(pop: seq<Individual>, n: nat) returns (r: Result<seq<Individual>>)
    ensures r == CullOf(pop, n)
  {
    var filtered: seq<Individual> := [];
    var leftover: seq<Individual> := [];
    var seen: set<string> := {};
    for q := 0 to |pop|
      invariant (filtered, leftover) == Split(pop[..q])
      invariant seen == SmilesIn(pop[..q])
    {
      var ind := pop[q];
      assert pop[..q + 1][..q] == pop[..q];
      SmilesInSnoc(pop[..q], ind);
      assert pop[..q + 1] == pop[..q] + [ind];
      if ind.smiles.Some? && ind.smiles.value !in seen {
        filtered := filtered + [ind];
        seen := seen + {ind.smiles.value};
      } else {
        leftover := leftover + [ind];
      }
    }
    assert pop[..|pop|] == pop;
    var sf := SortOrFail(filtered, true);
    if sf.Fail? {
      return Fail;
    }
    var top := sf.value[..if n < |sf.value| then n else |sf.value|];
    if |top| < n {
      var sl := SortOrFail(leftover, true);
      if sl.Fail? {
        return Fail;
      }
      r := SortOrFail(top + sl.value[..if n - |top| < |sl.value| then n - |top| else |sl.value|], true);
    } else {
      r := Ok(top);
    }
  }

  // ---------------------------------------------------------------------
  // choose_couples

  /** Σ_{i<n} (i + 10): the normaliser of the rank weights. */
  function TotalWeight(n: nat): nat {
    if n == 0 then 0 else TotalWeight(n - 1) + (n - 1 + 10)
  }

  lemma {:induction false} TotalWeightClosed(n: nat)
    ensures 2 * TotalWeight(n) == n * (n - 1) + 20 * n
  {
    if n > 0 {
      TotalWeightClosed(n - 1);
    }
  }

  /** The probability of drawing rank i (ascending fitness) among n: (i + 10) / Σ. */
  function RankWeight(i: nat, n: nat): (w: real)
    requires i < n
    ensures w > 0.0
  {
    TotalWeightPositive(n);
    (i + 10) as real / TotalWeight(n) as real
  }

  lemma TotalWeightPositive(n: nat)
    requires n > 0
    ensures TotalWeight(n) >= 10
  {
  }

  /** Σ_{i<k} RankWeight(i, n). */
  function WeightSum(k: nat, n: nat): real
    requires k <= n
  {
    if k == 0 then 0.0 else WeightSum(k - 1, n) + RankWeight(k - 1, n)
  }

  lemma {:induction false} WeightSumPartial(k: nat, n: nat)
    requires 0 < n && k <= n
    ensures WeightSum(k, n) == TotalWeight(k) as real / TotalWeight(n) as real
  {
    if k > 0 {
      WeightSumPartial(k - 1, n);
      TotalWeightPositive(n);
      var t := TotalWeight(n) as real;
      assert TotalWeight(k - 1) as real / t + (k - 1 + 10) as real / t == (TotalWeight(k - 1) + (k - 1 + 10)) as real / t;
    }
  }

  /** The rank weights form a distribution that strictly increases with the rank. */
  lemma RankWeights(n: nat)
    requires n > 0
    ensures WeightSum(n, n) == 1.0
    ensures forall i, j :: 0 <= i < j < n ==> RankWeight(i, n) < RankWeight(j, n)
  {
    WeightSumPartial(n, n);
    TotalWeightPositive(n);
    forall i, j | 0 <= i < j < n ensures RankWeight(i, n) < RankWeight(j, n) {
      var t := TotalWeight(n) as real;
      assert t > 0.0;
      DivMonotone((i + 10) as real, (j + 10) as real, t);
    }
  }

  lemma DivMonotone(a: real, b: real, t: real)
    requires a < b && t > 0.0
    ensures a / t < b / t
  {
    assert b / t - a / t == (b - a) / t;
  }

  /** A drawn pair: two distinct ranks. */
  predicate Distinct(d: (nat, nat), n: nat) {
    d.0 < n && d.1 < n && d.0 != d.1
  }

  /**
   * `choose_couples`: sorts the population by ascending fitness and turns
   * each drawn pair of distinct ranks into a pair of parents; raises when
   * sorting raises or when a pair is drawn from fewer than two individuals.
   */
  method ChooseCouples(pop: seq<Individual>, offspringSize: nat, draws: seq<(nat, nat)>)
    returns (r: Result<seq<(Individual, Individual)>>)
    requires |draws| == offspringSize
    requires |pop| >= 2 ==> forall k :: 0 <= k < |draws| ==> Distinct(draws[k], |pop|)
    ensures r.Fail? <==> Unscorable(pop) || (|pop| < 2 && offspringSize > 0)
    ensures r.Ok? ==> |r.value| == offspringSize
    ensures r.Ok? ==> forall k :: 0 <= k < offspringSize ==>
      Distinct(draws[k], |pop|) && r.value[k] == (Sort(pop, false)[draws[k].0], Sort(pop, false)[draws[k].1])
    ensures r.Ok? ==> forall k :: 0 <= k < offspringSize ==>
      r.value[k].0 in pop && r.value[k].1 in pop && Before(r.value[k].0, r.value[k].1, false) == (draws[k].0 <= draws[k].1 || Key(r.value[k].0) == Key(r.value[k].1))
  {
    var sorted := SortOrFail(pop, false);
    if sorted.Fail? {
      return Fail;
    }
    var s := sorted.value;
    SortOrdered(pop, false);
    if |pop| < 2 && offspringSize > 0 {
      return Fail;
    }
    var parents: seq<(Individual, Individual)> := [];
    for k := 0 to offspringSize
      invariant |parents| == k
      invariant forall k' :: 0 <= k' < k ==> parents[k'] == (s[draws[k'].0], s[draws[k'].1])
    {
      parents := parents + [(s[draws[k].0], s[draws[k].1])];
    }
    forall k | 0 <= k < offspringSize
      ensures parents[k].0 in pop && parents[k].1 in pop
    {
      assert s[draws[k].0] in multiset(s) && s[draws[k].1] in multiset(s);
    }
    return Ok(parents);
  }

  // ---------------------------------------------------------------------
  // promote_explore

  /** Candidate k has the least similarity, below 100, and no earlier candidate has it. */
  predicate LeastFirst(cands: seq<Individual>, sim: Individual -> real, k: nat)
    requires k < |cands|
  {
    && sim(cands[k]) < 100.0
    && (forall i :: 0 <= i < |cands| ==> sim(cands[k]) <= sim(cands[i]))
    && (forall i :: 0 <= i < k ==> sim(cands[k]) < sim(cands[i]))
  }

  /**
   * `promote_explore`: the first candidate of least mean similarity to the
   * population, provided that similarity is below the starting bound 100.
   */
  method PromoteExplore(cands: seq<Individual>, sim: Individual -> real) returns (w: Option<Individual>)
    ensures w.None? <==> forall i :: 0 <= i < |cands| ==> sim(cands[i]) >= 100.0
    ensures w.Some? ==> exists k :: 0 <= k < |cands| && w.value == cands[k] && LeastFirst(cands, sim, k)
  {
    var minsim := 100.0;
    var best: nat := 0;
    w := None;
    for i := 0 to |cands|
      invariant w.None? <==> forall j :: 0 <= j < i ==> sim(cands[j]) >= 100.0
      invariant w.None? ==> minsim == 100.0
      invariant w.Some? ==> best < i && w.value == cands[best] && minsim == sim(cands[best]) && minsim < 100.0
      invariant w.Some? ==> forall j :: 0 <= j < i ==> minsim <= sim(cands[j])
      invariant w.Some? ==> forall j :: 0 <= j < best ==> minsim < sim(cands[j])
    {
      var s := sim(cands[i]);
      if s < minsim {
        w, minsim, best := Some(cands[i]), s, i;
      }
    }
  }

  // ---------------------------------------------------------------------
  // The oracle budget and the early stop

  /**
   * The budget cut: when the offspring would overrun the remaining oracle
   * calls, `random.sample` keeps `remaining` of them, at the drawn distinct
   * positions; it raises when the budget is already overrun.
   */
  function Truncate(numCalls: nat, maxCalls: int, offs: seq<Individual>, chosen: seq<nat>): (r: Result<seq<Individual>>)
    requires numCalls + |offs| > maxCalls >= numCalls ==> |chosen| == maxCalls - numCalls && Sample(chosen, |offs|)
    ensures r.Fail? <==> numCalls > maxCalls && numCalls + |offs| > maxCalls
    ensures r.Ok? ==> numCalls + |r.value| <= maxCalls || (r.value == offs && numCalls + |offs| <= maxCalls)
    ensures r.Ok? && numCalls + |offs| > maxCalls ==> numCalls + |r.value| == maxCalls
    ensures r.Ok? && numCalls + |offs| > maxCalls ==> forall k :: 0 <= k < |r.value| ==> r.value[k] == offs[chosen[k]]
    ensures r.Ok? && numCalls + |offs| <= maxCalls ==> r.value == offs
    ensures r.Ok? ==> multiset(r.value) <= multiset(offs)
  {
    if numCalls + |offs| <= maxCalls then Ok(offs)
    else if numCalls > maxCalls then Fail
    else
      SampleIncluded(offs, chosen);
      Ok(At(offs, chosen))
  }

  /** Distinct positions below n, as `random.sample` draws them (without replacement). */
  predicate Sample(chosen: seq<nat>, n: nat) {
    (forall k :: 0 <= k < |chosen| ==> chosen[k] < n) &&
    forall j, k :: 0 <= j < k < |chosen| ==> chosen[j] != chosen[k]
  }

  /** The entries of xs at the given positions. */
  function At(xs: seq<Individual>, chosen: seq<nat>): (r: seq<Individual>)
    requires forall k :: 0 <= k < |chosen| ==> chosen[k] < |xs|
    ensures |r| == |chosen| && forall k :: 0 <= k < |chosen| ==> r[k] == xs[chosen[k]]
  {
    seq(|chosen|, k requires 0 <= k < |chosen| => xs[chosen[k]])
  }

  /** Drawing without replacement keeps a sub-multiset: no offspring is scored twice. */
  lemma {:induction false} SampleIncluded(xs: seq<Individual>, chosen: seq<nat>)
    requires Sample(chosen, |xs|)
    ensures multiset(At(xs, chosen)) <= multiset(xs)
    decreases |chosen|
  {
    if chosen != [] {
      var last := |chosen| - 1;
      var c := chosen[last];
      var rest := xs[..c] + xs[c + 1..];
      assert xs == xs[..c] + [xs[c]] + xs[c + 1..];
      // The remaining positions, renumbered in xs without position c.
      var shifted := seq(last, j requires 0 <= j < last => if chosen[j] < c then chosen[j] else chosen[j] - 1);
      assert Sample(shifted, |rest|);
      SampleIncluded(rest, shifted);
      assert At(xs, chosen) == At(rest, shifted) + [xs[c]];
    }
  }

  /** `deque.append` on a deque of length at most maxlen. */
  function Push(q: seq<int>, x: int, maxlen: nat): (r: seq<int>)
    ensures |r| <= maxlen
    ensures maxlen > 0 ==> |r| >= 1 && r[|r| - 1] == x
    ensures |q| <= maxlen ==> |r| == if |q| + 1 <= maxlen then |q| + 1 else maxlen
  {
    if maxlen == 0 then []
    else if |q| < maxlen then q + [x]
    else q[|q| - maxlen + 1..] + [x]
  }

  /** Pushing m scores on the deque seeded with -1000 leaves the last min(patience, m + 1) values. */
  lemma {:induction false} QueueFill(xs: seq<int>, maxlen: nat)
    ensures |PushAll(xs, maxlen)| == if maxlen < |xs| + 1 then maxlen else |xs| + 1
  {
    if xs != [] {
      QueueFill(xs[..|xs| - 1], maxlen);
    }
  }

  /** The deque after the seed and then xs were pushed. */
  function PushAll(xs: seq<int>, maxlen: nat): seq<int> {
    if xs == [] then Push([], -1000, maxlen)
    else Push(PushAll(xs[..|xs| - 1], maxlen), xs[|xs| - 1], maxlen)
  }

  /** The early-stop test: on, past the warm-up, a full window, and too little progress across it. */
  predicate EarlyStopNow(cfg: Config, epoch: int, q: seq<int>) {
    cfg.earlyStop && epoch > cfg.earlyStopWarmup && cfg.earlyStopPatience > 0 &&
    |q| == cfg.earlyStopPatience && q[|q| - 1] - q[0] < cfg.earlyStopDelta
  }

  /** The test reads `score_queue[-1]` of an empty window, and raises, exactly when the patience is 0. */
  predicate EarlyStopRaises(cfg: Config, epoch: int) {
    cfg.earlyStop && epoch > cfg.earlyStopWarmup && cfg.earlyStopPatience == 0
  }

  // ---------------------------------------------------------------------
  // apply_oracle and the oracle ledger

  /** Each individual with its fitness set by the oracle. */
  function Scored(pop: seq<Individual>, oracle: Option<string> -> int): (r: seq<Individual>)
    ensures |r| == |pop|
    ensures forall i :: 0 <= i < |pop| ==> r[i].fp == pop[i].fp && r[i].smiles == pop[i].smiles && r[i].fitness.Some?
  {
    seq(|pop|, i requires 0 <= i < |pop| => pop[i].(fitness := Some(oracle(pop[i].smiles))))
  }

  function FpsOf(pop: seq<Individual>): (r: seq<seq<int>>)
    ensures |r| == |pop|
  {
    seq(|pop|, i requires 0 <= i < |pop| => pop[i].fp)
  }

  function ScoresOf(pop: seq<Individual>): (r: seq<int>)
    ensures |r| == |pop|
  {
    seq(|pop|, i requires 0 <= i < |pop| => Key(pop[i]))
  }

  /**
   * The oracle bookkeeping of one generation as written: the oracle
   * re-scores the population (its calls land in the history) while the
   * counter grows by the number of offspring.
   */
  function LedgerAsWritten(numCalls: nat, history: seq<int>, pop: seq<Individual>, offs: seq<Individual>,
                           oracle: Option<string> -> int): (nat, seq<int>)
  {
    (numCalls + |offs|, history + ScoresOf(Scored(pop, oracle)))
  }

  /** The same bookkeeping when the oracle scores the offspring it counts. */
  function LedgerIntended(numCalls: nat, history: seq<int>, offs: seq<Individual>,
                          oracle: Option<string> -> int): (nat, seq<int>)
  {
    (numCalls + |offs|, history + ScoresOf(Scored(offs, oracle)))
  }

  /**
   * As written, the counter and the calls made drift apart by
   * |pop| - |offs| in every generation where the two sizes differ (for
   * instance a population of 2 and 1 offspring).
   */
  lemma CounterDrifts(numCalls: nat, history: seq<int>, pop: seq<Individual>, offs: seq<Individual>,
                      oracle: Option<string> -> int)
    requires |history| == numCalls && |pop| != |offs|
    ensures var (c, h) := LedgerAsWritten(numCalls, history, pop, offs, oracle); |h| != c
    ensures var (c, h) := LedgerIntended(numCalls, history, offs, oracle); |h| == c
  {
  }

  /** Each individual as the surrogate model rewrites it. */
  function Surrogated(pop: seq<Individual>, surrogate: Individual -> Individual): (r: seq<Individual>)
    ensures |r| == |pop| && forall i :: 0 <= i < |pop| ==> r[i] == surrogate(pop[i])
  {
    seq(|pop|, i requires 0 <= i < |pop| => surrogate(pop[i]))
  }

  // ---------------------------------------------------------------------
  // One epoch and the whole loop, as values

  /** What `optimize` carries from epoch to epoch: population, oracle counter, history, score window. */
  datatype SearchState = SearchState(population: seq<Individual>, numCalls: nat, fps: seq<seq<int>>, scores: seq<int>, queue: seq<int>)

  /** The state before the first epoch: no calls counted, an empty history, the window holding only the -1000 seed. */
  function Reset(cfg: Config, population: seq<Individual>): SearchState {
    SearchState(population, 0, [], [], Push([], -1000, cfg.earlyStopPatience))
  }

  /** The history has one fingerprint per score, one per oracle call counted, and the window is bounded. */
  predicate Balanced(cfg: Config, st: SearchState) {
    |st.fps| == |st.scores| == st.numCalls && |st.queue| <= cfg.earlyStopPatience
  }

  /** What `random.sample` draws when the offspring overrun the remaining calls: that many distinct positions. */
  predicate CutDrawn(cfg: Config, st: SearchState, offs: seq<Individual>, chosen: seq<nat>) {
    st.numCalls + |offs| > cfg.maxOracleCalls >= st.numCalls ==>
      |chosen| == cfg.maxOracleCalls - st.numCalls && Sample(chosen, |offs|)
  }

  /** `choose(epoch, k, m)` is a `random.sample` of k of m positions. */
  ghost predicate Chooses(choose: (int, nat, nat) -> seq<nat>) {
    forall e, k, m :: k <= m ==> |choose(e, k, m)| == k && Sample(choose(e, k, m), m)
  }

  /**
   * The scoring half of an epoch.  Epoch -1 scores the surrogate-updated
   * population unless resuming; a later epoch cuts the offspring to the
   * budget, scores and counts them, and culls the population with them.
   * Fail when the cut or the cull raises.
   */
  function ScoreStage(cfg: Config, st: SearchState, epoch: int, resumed: bool, oracle: Option<string> -> int,
                      surrogate: Individual -> Individual, breed: (int, seq<Individual>) -> seq<Individual>,
                      chosen: seq<nat>): (r: Result<SearchState>)
    requires epoch >= 0 ==> CutDrawn(cfg, st, breed(epoch, st.population), chosen)
    ensures r.Fail? ==> epoch >= 0
    ensures epoch >= 0 && st.numCalls > cfg.maxOracleCalls && st.numCalls + |breed(epoch, st.population)| > cfg.maxOracleCalls ==> r.Fail?
    ensures r.Ok? ==> r.value.queue == st.queue && st.fps <= r.value.fps && st.scores <= r.value.scores
    ensures r.Ok? && Balanced(cfg, st) ==> Balanced(cfg, r.value)
    ensures r.Ok? && st.numCalls + (if epoch < 0 && !resumed then |st.population| else 0) <= cfg.maxOracleCalls ==>
      r.value.numCalls <= cfg.maxOracleCalls
    ensures r.Ok? && epoch < 0 ==> r.value.numCalls == st.numCalls + (if resumed then 0 else |st.population|)
    ensures r.Ok? && epoch < 0 && resumed ==> r.value == st
    ensures r.Ok? && epoch < 0 && !resumed ==> forall i :: 0 <= i < |r.value.population| ==> r.value.population[i].fitness.Some?
  {
    if epoch >= 0 then
      match Truncate(st.numCalls, cfg.maxOracleCalls, breed(epoch, st.population), chosen)
      case Fail => Fail
      case Ok(cut) =>
        var scored := Scored(cut, oracle);
        match CullOf(st.population + scored, cfg.populationSize)
        case Fail => Fail
        case Ok(pop) => Ok(SearchState(pop, st.numCalls + |cut|, st.fps + FpsOf(cut), st.scores + ScoresOf(scored), st.queue))
    else if !resumed then
      var updated := Surrogated(st.population, surrogate);
      var scored := Scored(updated, oracle);
      Ok(SearchState(scored, st.numCalls + |updated|, st.fps + FpsOf(updated), st.scores + ScoresOf(scored), st.queue))
    else Ok(st)
  }

  /** The population passes `validate`, and the evaluation can average and sort it. */
  predicate Healthy(cfg: Config, internal: Tree -> nat, pop: seq<Individual>) {
    (forall i :: 0 <= i < |pop| ==> ValidIndividual(cfg, internal, pop[i])) && |pop| >= 3 && !Unscorable(pop)
  }

  /**
   * One epoch of `optimize` as a value: the scoring half, `validate` and
   * the evaluation, the mean score pushed on the window, and whether the
   * loop stops.  Fail exactly when the scoring half raises, the population
   * fails `validate` or the evaluation, or the early-stop test reads an
   * empty window.
   */
  function EpochOf(cfg: Config, st: SearchState, epoch: int, resumed: bool, oracle: Option<string> -> int,
                   surrogate: Individual -> Individual, breed: (int, seq<Individual>) -> seq<Individual>,
                   chosen: seq<nat>, internal: Tree -> nat, mean: seq<Individual> -> int): (r: Result<(SearchState, bool)>)
    requires epoch >= 0 ==> CutDrawn(cfg, st, breed(epoch, st.population), chosen)
    ensures var s := ScoreStage(cfg, st, epoch, resumed, oracle, surrogate, breed, chosen);
      r.Fail? <==> s.Fail? || !Healthy(cfg, internal, s.value.population) || EarlyStopRaises(cfg, epoch)
    ensures r.Ok? ==> r.value.0.(queue := st.queue) == ScoreStage(cfg, st, epoch, resumed, oracle, surrogate, breed, chosen).value
    ensures r.Ok? ==> Healthy(cfg, internal, r.value.0.population)
    ensures r.Ok? ==> r.value.0.queue == Push(st.queue, mean(r.value.0.population), cfg.earlyStopPatience)
    ensures r.Ok? ==> (r.value.1 <==> EarlyStopNow(cfg, epoch, r.value.0.queue) || r.value.0.numCalls == cfg.maxOracleCalls)
    ensures r.Ok? && Balanced(cfg, st) ==> Balanced(cfg, r.value.0)
    ensures r.Ok? ==> st.fps <= r.value.0.fps && st.scores <= r.value.0.scores
    ensures r.Ok? && st.numCalls + (if epoch < 0 && !resumed then |st.population| else 0) <= cfg.maxOracleCalls ==>
      r.value.0.numCalls <= cfg.maxOracleCalls
  {
    match ScoreStage(cfg, st, epoch, resumed, oracle, surrogate, breed, chosen)
    case Fail => Fail
    case Ok(s) =>
      if !Healthy(cfg, internal, s.population) || EarlyStopRaises(cfg, epoch) then Fail
      else
        var next := s.(queue := Push(s.queue, mean(s.population), cfg.earlyStopPatience));
        Ok((next, EarlyStopNow(cfg, epoch, next.queue) || next.numCalls == cfg.maxOracleCalls))
  }

  /** The budget cut `optimize` draws in an epoch: `choose`'s sample when the offspring overrun the remaining calls. */
  function Drawn(cfg: Config, st: SearchState, epoch: int, breed: (int, seq<Individual>) -> seq<Individual>,
                 choose: (int, nat, nat) -> seq<nat>): (chosen: seq<nat>)
    requires Chooses(choose)
    ensures CutDrawn(cfg, st, breed(epoch, st.population), chosen)
  {
    var offs := breed(epoch, st.population);
    if st.numCalls + |offs| > cfg.maxOracleCalls >= st.numCalls then choose(epoch, cfg.maxOracleCalls - st.numCalls, |offs|) else []
  }

  /** One epoch as a function of the state and the epoch number: the new state and whether the loop stops. */
  function Stepper(cfg: Config, resumed: bool, oracle: Option<string> -> int, surrogate: Individual -> Individual,
                   breed: (int, seq<Individual>) -> seq<Individual>, choose: (int, nat, nat) -> seq<nat>,
                   internal: Tree -> nat, mean: seq<Individual> -> int): (SearchState, int) -> Result<(SearchState, bool)>
    requires Chooses(choose)
  {
    (st: SearchState, epoch: int) =>
      EpochOf(cfg, st, epoch, resumed, oracle, surrogate, breed, Drawn(cfg, st, epoch, breed, choose), internal, mean)
  }

  /**
   * The loop over the epochs `epoch`..`last - 1`, each running `step` on
   * the state the previous one left: it ends after epoch `last - 1` or at
   * the first epoch that stops it, with the final state and the number of
   * epochs run since -1, and fails as soon as an epoch fails.  When it
   * stops early, the final state is what the stopping epoch returned.
   */
  function Loop(step: (SearchState, int) -> Result<(SearchState, bool)>, st: SearchState, epoch: int, last: int)
    : (r: Result<(SearchState, nat)>)
    requires epoch >= -1
    ensures r.Ok? ==> r.value.1 <= if last + 1 < 0 then 0 else last + 1
    ensures r.Ok? && r.value.1 < last + 1 ==>
      epoch + 2 <= r.value.1 && exists s, e :: e + 2 == r.value.1 && step(s, e) == Ok((r.value.0, true))
    ensures r.Ok? && epoch < last ==> exists s, e, stop :: epoch <= e < last && step(s, e) == Ok((r.value.0, stop))
    decreases last - epoch
  {
    if epoch >= last then Ok((st, if last + 1 < 0 then 0 else last + 1))
    else
      match step(st, epoch)
      case Fail => Fail
      case Ok((next, stop)) =>
        if stop then Ok((next, epoch + 2))
        else Loop(step, next, epoch + 1, last)
  }

  /** A first epoch that succeeds ends the loop when it stops it, and otherwise leaves the rest to the following epochs. */
  lemma LoopNext(step: (SearchState, int) -> Result<(SearchState, bool)>, st: SearchState, epoch: int, last: int,
                 next: SearchState, stop: bool)
    requires -1 <= epoch < last && step(st, epoch) == Ok((next, stop))
    ensures Loop(step, st, epoch, last) == if stop then Ok((next, epoch + 2)) else Loop(step, next, epoch + 1, last)
  {
  }

  /** Past the last epoch the loop runs nothing: the state as it is, and `last + 1` epochs run since -1. */
  lemma LoopDone(step: (SearchState, int) -> Result<(SearchState, bool)>, st: SearchState, epoch: int, last: int)
    requires -1 <= epoch && last <= epoch
    ensures Loop(step, st, epoch, last) == Ok((st, if last + 1 < 0 then 0 else last + 1))
  {
  }

  /** A first epoch that fails fails the loop. */
  lemma LoopFails(step: (SearchState, int) -> Result<(SearchState, bool)>, st: SearchState, epoch: int, last: int)
    requires -1 <= epoch < last && step(st, epoch).Fail?
    ensures Loop(step, st, epoch, last).Fail?
  {
  }

  /** A property every epoch carries over to the next one holds when the loop ends, at some epoch from the first on. */
  lemma {:induction false} LoopKeeps(step: (SearchState, int) -> Result<(SearchState, bool)>, inv: (SearchState, int) -> bool,
                                     st: SearchState, epoch: int, last: int)
    requires epoch >= -1 && Loop(step, st, epoch, last).Ok? && inv(st, epoch)
    requires forall s, e :: inv(s, e) && step(s, e).Ok? ==> inv(step(s, e).value.0, e + 1)
    ensures exists e :: epoch <= e && inv(Loop(step, st, epoch, last).value.0, e)
    decreases last - epoch
  {
    if epoch < last {
      var (next, stop) := step(st, epoch).value;
      assert inv(next, epoch + 1);
      if !stop {
        LoopKeeps(step, inv, next, epoch + 1, last);
      }
    }
  }

  /**
   * `optimize`'s loop from `epoch` on, as a value: `EpochOf` run epoch by
   * epoch up to `generations - 1`, with `choose` drawing the budget cuts.
   * It runs at most `generations + 1` epochs from -1, fewer only when an
   * epoch stops the loop, on the early-stop test or an exhausted budget;
   * whenever an epoch ran, the final population passes `validate` and the
   * evaluation.
   */
  function RunOf(cfg: Config, st: SearchState, epoch: int, resumed: bool, oracle: Option<string> -> int,
                 surrogate: Individual -> Individual, breed: (int, seq<Individual>) -> seq<Individual>,
                 choose: (int, nat, nat) -> seq<nat>, internal: Tree -> nat, mean: seq<Individual> -> int)
    : (r: Result<(SearchState, nat)>)
    requires Chooses(choose) && epoch >= -1
    ensures r.Ok? ==> r.value.1 <= if cfg.generations + 1 < 0 then 0 else cfg.generations + 1
    ensures r.Ok? && r.value.1 < cfg.generations + 1 ==>
      epoch + 2 <= r.value.1 && (EarlyStopNow(cfg, r.value.1 - 2, r.value.0.queue) || r.value.0.numCalls == cfg.maxOracleCalls)
    ensures r.Ok? && epoch < cfg.generations ==> Healthy(cfg, internal, r.value.0.population)
  {
    Loop(Stepper(cfg, resumed, oracle, surrogate, breed, choose, internal, mean), st, epoch, cfg.generations)
  }

  /** A run keeps the ledger: one fingerprint and one score per counted call, a bounded window. */
  lemma RunKeepsLedger(cfg: Config, st: SearchState, epoch: int, resumed: bool, oracle: Option<string> -> int,
                       surrogate: Individual -> Individual, breed: (int, seq<Individual>) -> seq<Individual>,
                       choose: (int, nat, nat) -> seq<nat>, internal: Tree -> nat, mean: seq<Individual> -> int)
    requires Chooses(choose) && epoch >= -1
    requires RunOf(cfg, st, epoch, resumed, oracle, surrogate, breed, choose, internal, mean).Ok?
    requires Balanced(cfg, st)
    ensures Balanced(cfg, RunOf(cfg, st, epoch, resumed, oracle, surrogate, breed, choose, internal, mean).value.0)
  {
    var step := Stepper(cfg, resumed, oracle, surrogate, breed, choose, internal, mean);
    var inv := (s: SearchState, e: int) => Balanced(cfg, s);
    LoopKeeps(step, inv, st, epoch, cfg.generations);
  }

  /** A prefix of a prefix is a prefix. */
  lemma Prefixes<T>(a: seq<T>, b: seq<T>, c: seq<T>)
    requires a <= b && b <= c
    ensures a <= c
  {
    assert forall i :: 0 <= i < |a| ==> a[i] == b[i] == c[i];
  }

  /** A run only appends to the history. */
  lemma RunGrowsHistory(cfg: Config, st: SearchState, epoch: int, resumed: bool, oracle: Option<string> -> int,
                        surrogate: Individual -> Individual, breed: (int, seq<Individual>) -> seq<Individual>,
                        choose: (int, nat, nat) -> seq<nat>, internal: Tree -> nat, mean: seq<Individual> -> int)
    requires Chooses(choose) && epoch >= -1
    requires RunOf(cfg, st, epoch, resumed, oracle, surrogate, breed, choose, internal, mean).Ok?
    ensures var fin := RunOf(cfg, st, epoch, resumed, oracle, surrogate, breed, choose, internal, mean).value.0;
      st.fps <= fin.fps && st.scores <= fin.scores
  {
    var step := Stepper(cfg, resumed, oracle, surrogate, breed, choose, internal, mean);
    var inv := (s: SearchState, e: int) => st.fps <= s.fps && st.scores <= s.scores;
    forall s, e | inv(s, e) && step(s, e).Ok?
      ensures inv(step(s, e).value.0, e + 1)
    {
      var next := step(s, e).value.0;
      Prefixes(st.fps, s.fps, next.fps);
      Prefixes(st.scores, s.scores, next.scores);
    }
    LoopKeeps(step, inv, st, epoch, cfg.generations);
  }

  /** A run that starts within the budget, counting the calls epoch -1 makes, ends within it. */
  lemma RunWithinBudget(cfg: Config, st: SearchState, epoch: int, resumed: bool, oracle: Option<string> -> int,
                        surrogate: Individual -> Individual, breed: (int, seq<Individual>) -> seq<Individual>,
                        choose: (int, nat, nat) -> seq<nat>, internal: Tree -> nat, mean: seq<Individual> -> int)
    requires Chooses(choose) && epoch >= -1
    requires RunOf(cfg, st, epoch, resumed, oracle, surrogate, breed, choose, internal, mean).Ok?
    requires st.numCalls + (if epoch < 0 && !resumed then |st.population| else 0) <= cfg.maxOracleCalls
    ensures RunOf(cfg, st, epoch, resumed, oracle, surrogate, breed, choose, internal, mean).value.0.numCalls <= cfg.maxOracleCalls
  {
    var step := Stepper(cfg, resumed, oracle, surrogate, breed, choose, internal, mean);
    var inv := (s: SearchState, e: int) =>
      e >= -1 && s.numCalls + (if e < 0 && !resumed then |s.population| else 0) <= cfg.maxOracleCalls;
    forall s, e | inv(s, e) && step(s, e).Ok?
      ensures inv(step(s, e).value.0, e + 1)
    {
      assert step(s, e) == EpochOf(cfg, s, e, resumed, oracle, surrogate, breed, Drawn(cfg, s, e, breed, choose), internal, mean);
    }
    LoopKeeps(step, inv, st, epoch, cfg.generations);
  }

  /**
   * With trees in use and a negative `max_num_rxns` (the configured
   * default is -1), no tree passes `validate`, so every epoch raises.
   */
  lemma NegativeLimitFailsEpoch(cfg: Config, st: SearchState, epoch: int, resumed: bool, oracle: Option<string> -> int,
                                surrogate: Individual -> Individual, breed: (int, seq<Individual>) -> seq<Individual>,
                                chosen: seq<nat>, internal: Tree -> nat, mean: seq<Individual> -> int)
    requires epoch >= 0 ==> CutDrawn(cfg, st, breed(epoch, st.population), chosen)
    requires !cfg.btIgnore && cfg.maxNumRxns < 0
    ensures EpochOf(cfg, st, epoch, resumed, oracle, surrogate, breed, chosen, internal, mean).Fail?
  {
    var s := ScoreStage(cfg, st, epoch, resumed, oracle, surrogate, breed, chosen);
    if s.Ok? && |s.value.population| >= 3 {
      assert !ValidIndividual(cfg, internal, s.value.population[0]);
    }
  }

  /** Under the same configuration a run from epoch -1 raises in its first epoch whenever it runs one. */
  lemma NegativeLimitFailsRun(cfg: Config, st: SearchState, resumed: bool, oracle: Option<string> -> int,
                              surrogate: Individual -> Individual, breed: (int, seq<Individual>) -> seq<Individual>,
                              choose: (int, nat, nat) -> seq<nat>, internal: Tree -> nat, mean: seq<Individual> -> int)
    requires Chooses(choose) && !cfg.btIgnore && cfg.maxNumRxns < 0 && cfg.generations >= 0
    ensures RunOf(cfg, st, -1, resumed, oracle, surrogate, breed, choose, internal, mean).Fail?
  {
    var step := Stepper(cfg, resumed, oracle, surrogate, breed, choose, internal, mean);
    var chosen := Drawn(cfg, st, -1, breed, choose);
    NegativeLimitFailsEpoch(cfg, st, -1, resumed, oracle, surrogate, breed, chosen, internal, mean);
    assert step(st, -1) == EpochOf(cfg, st, -1, resumed, oracle, surrogate, breed, chosen, internal, mean);
    LoopFails(step, st, -1, cfg.generations);
  }

  /** The search state `optimize` updates: population, oracle counter, history, score window. */
  class Search {
    const cfg: Config
    var population: seq<Individual>
    var numCalls: nat
    var fps: seq<seq<int>>
    var scores: seq<int>
    var queue: seq<int>

    /** The state as a value. */
    function State(): SearchState
      reads this
    {
      SearchState(population, numCalls, fps, scores, queue)
    }

    /** The history has one fingerprint per score, one per oracle call counted, and the window is bounded. */
    predicate Ledger()
      reads this
    {
      Balanced(cfg, State())
    }

    constructor (cfg: Config, population: seq<Individual>)
      ensures this.cfg == cfg && State() == Reset(cfg, population)
      ensures Ledger()
    {
      this.cfg := cfg;
      this.population := population;
      numCalls := 0;
      fps := [];
      scores := [];
      queue := Push([], -1000, cfg.earlyStopPatience);
    }

    /** `apply_oracle`: scores each individual and appends its fingerprint and fitness to the history. */
    method ApplyOracle(pop: seq<Individual>, oracle: Option<string> -> int) returns (r: seq<Individual>)
      modifies this
      ensures r == Scored(pop, oracle)
      ensures fps == old(fps) + FpsOf(pop) && scores == old(scores) + ScoresOf(r)
      ensures population == old(population) && numCalls == old(numCalls) && queue == old(queue)
    {
      r := [];
      for i := 0 to |pop|
        invariant r == Scored(pop[..i], oracle)
        invariant fps == old(fps) + FpsOf(pop[..i]) && scores == old(scores) + ScoresOf(r)
        invariant population == old(population) && numCalls == old(numCalls) && queue == old(queue)
      {
        var ind := pop[i].(fitness := Some(oracle(pop[i].smiles)));
        assert pop[..i + 1] == pop[..i] + [pop[i]];
        r := r + [ind];
        fps := fps + [pop[i].fp];
        scores := scores + [Key(ind)];
      }
      assert pop[..|pop|] == pop;
    }

    /** The scoring half of an epoch, in place; false when the cut or the cull raises. */
    method Score(epoch: int, resumed: bool, oracle: Option<string> -> int, surrogate: Individual -> Individual,
                 breed: (int, seq<Individual>) -> seq<Individual>, chosen: seq<nat>) returns (ok: bool)
      requires epoch >= 0 ==> CutDrawn(cfg, State(), breed(epoch, population), chosen)
      modifies this
      ensures ok <==> ScoreStage(cfg, old(State()), epoch, resumed, oracle, surrogate, breed, chosen).Ok?
      ensures ok ==> State() == ScoreStage(cfg, old(State()), epoch, resumed, oracle, surrogate, breed, chosen).value
    {
      if epoch >= 0 {
        var offs := breed(epoch, population);
        var cut := Truncate(numCalls, cfg.maxOracleCalls, offs, chosen);
        if cut.Fail? {
          return false;
        }
        offs := cut.value;
        var scored := ApplyOracle(offs, oracle);
        numCalls := numCalls + |offs|;
        var next := Cull(population + scored, cfg.populationSize);
        if next.Fail? {
          return false;
        }
        population := next.value;
      } else if !resumed {
        var updated := Surrogated(population, surrogate);
        var scored := ApplyOracle(updated, oracle);
        population := scored;
        numCalls := numCalls + |scored|;
      }
      return true;
    }

    /**
     * One epoch of `optimize`, with the oracle applied to the offspring it
     * counts.  Epoch -1 scores the (surrogate-updated) population unless
     * resuming; later epochs breed offspring, cut them to the budget, score
     * them and cull.  The epoch then validates, pushes the mean score and
     * tells whether the loop stops.
     */
    method Epoch(epoch: int, resumed: bool, oracle: Option<string> -> int, surrogate: Individual -> Individual,
                 breed: (int, seq<Individual>) -> seq<Individual>, chosen: seq<nat>,
                 internal: Tree -> nat, mean: seq<Individual> -> int) returns (r: Result<bool>)
      requires Ledger()
      requires epoch >= 0 ==> CutDrawn(cfg, State(), breed(epoch, population), chosen)
      modifies this
      ensures r.Fail? <==> EpochOf(cfg, old(State()), epoch, resumed, oracle, surrogate, breed, chosen, internal, mean).Fail?
      ensures r.Ok? ==> (State(), r.value) == EpochOf(cfg, old(State()), epoch, resumed, oracle, surrogate, breed, chosen, internal, mean).value
      ensures r.Ok? ==> Ledger()
    {
      var scoredOk := Score(epoch, resumed, oracle, surrogate, breed, chosen);
      if !scoredOk {
        return Fail;
      }
      var ok := Validate(cfg, internal, population);
      if !ok || |population| < 3 || Unscorable(population) {
        return Fail;
      }
      queue := Push(queue, mean(population), cfg.earlyStopPatience);
      if EarlyStopRaises(cfg, epoch) {
        return Fail;
      }
      return Ok(EarlyStopNow(cfg, epoch, queue) || numCalls == cfg.maxOracleCalls);
    }

    /** One pass of `optimize`'s loop body: draws the budget cut with `choose` and runs the epoch, which is `Loop`'s first. */
    method LoopEpoch(epoch: int, resumed: bool, oracle: Option<string> -> int, surrogate: Individual -> Individual,
                     breed: (int, seq<Individual>) -> seq<Individual>, choose: (int, nat, nat) -> seq<nat>,
                     internal: Tree -> nat, mean: seq<Individual> -> int) returns (r: Result<bool>)
      requires Chooses(choose) && Ledger() && -1 <= epoch < cfg.generations
      modifies this
      ensures var next := Stepper(cfg, resumed, oracle, surrogate, breed, choose, internal, mean);
        && (r.Fail? ==> Loop(next, old(State()), epoch, cfg.generations).Fail?)
        && (r.Ok? ==>
              Loop(next, old(State()), epoch, cfg.generations) ==
              if r.value then Ok((State(), epoch + 2)) else Loop(next, State(), epoch + 1, cfg.generations))
      ensures r.Ok? ==> Ledger()
    {
      ghost var next := Stepper(cfg, resumed, oracle, surrogate, breed, choose, internal, mean);
      ghost var before := State();
      var chosen := Drawn(cfg, State(), epoch, breed, choose);
      assert next(before, epoch) == EpochOf(cfg, before, epoch, resumed, oracle, surrogate, breed, chosen, internal, mean);
      r := Epoch(epoch, resumed, oracle, surrogate, breed, chosen, internal, mean);
      if r.Fail? {
        LoopFails(next, before, epoch, cfg.generations);
      } else {
        assert next(before, epoch) == Ok((State(), r.value));
        LoopNext(next, before, epoch, cfg.generations, State(), r.value);
      }
    }

    /**
     * `optimize` from epoch -1 up to `generations - 1`: resets the counter,
     * the history and the score window, then runs epochs until the last
     * one, an early stop or the exhausted budget.  Returns the number of
     * epochs run.  `choose(epoch, k, m)` is `random.sample`'s pick of k of
     * m positions.
     */
    method Optimize(resumed: bool, oracle: Option<string> -> int, surrogate: Individual -> Individual,
                    breed: (int, seq<Individual>) -> seq<Individual>, choose: (int, nat, nat) -> seq<nat>,
                    internal: Tree -> nat, mean: seq<Individual> -> int) returns (r: Result<nat>)
      requires Chooses(choose)
      modifies this
      ensures var run := RunOf(cfg, Reset(cfg, old(population)), -1, resumed, oracle, surrogate, breed, choose, internal, mean);
        && (r.Fail? <==> run.Fail?)
        && (r.Ok? ==> (State(), r.value) == run.value)
      ensures r.Ok? ==> Ledger()
    {
      numCalls, fps, scores := 0, [], [];
      queue := Push([], -1000, cfg.earlyStopPatience);
      assert State() == Reset(cfg, old(population));
      ghost var next := Stepper(cfg, resumed, oracle, surrogate, breed, choose, internal, mean);
      ghost var run := Loop(next, State(), -1, cfg.generations);
      var epoch := -1;
      while epoch < cfg.generations
        invariant Ledger() && -1 <= epoch && (epoch > cfg.generations ==> epoch == -1)
        invariant run == Loop(next, State(), epoch, cfg.generations)
        decreases cfg.generations - epoch
      {
        var step := LoopEpoch(epoch, resumed, oracle, surrogate, breed, choose, internal, mean);
        if step.Fail? {
          return Fail;
        }
        if step.value {
          return Ok(epoch + 2);
        }
        epoch := epoch + 1;
      }
      LoopDone(next, State(), epoch, cfg.generations);
      return Ok(if cfg.generations + 1 < 0 then 0 else cfg.generations + 1);
    }
  }
}
