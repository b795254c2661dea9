/**
 * The program enumeration behind the feasibility index: programs are
 * trees of reaction templates, enumerated by size; the enumeration is
 * filtered by whether every reaction step has reactants, and the filled
 * subtrees of the training skeletons are hashed and counted.
 *
 * Running a program against the building-block catalog and the graph
 * hash are not modelled; they enter as given data (`Run.avail`) and a
 * given function (`wl`).
 */
module Programs {
  import opened Basics

  /**
   * A program: a single template, a unary template applied to a program,
   * or a bimolecular template applied to two programs.
   */
  datatype Prog = Single(t: nat) | Un(t: nat, a: Prog) | Bin(t: nat, a: Prog, b: Prog)

  /** The number of template nodes of a program. */
  function Size(p: Prog): nat {
    match p
    case Single(_) => 1
    case Un(_, a) => 1 + Size(a)
    case Bin(_, a, b) => 1 + Size(a) + Size(b)
  }

  // ---------------------------------------------------------------------
  // One level of the enumeration

  /** Every program of ps has `size` template nodes. */
  predicate AllSize(ps: seq<Prog>, size: nat) {
    forall k :: 0 <= k < |ps| ==> Size(ps[k]) == size
  }

  /** Every level of a table holds programs of its own size. */
  predicate Sized(all: map<nat, seq<Prog>>) {
    forall k :: k in all ==> AllSize(all[k], k)
  }

  /** `Un(i, a)` for every a of ps, in order. */
  function Unaries(i: nat, ps: seq<Prog>): (r: seq<Prog>)
    ensures |r| == |ps|
    ensures forall k :: 0 <= k < |ps| ==> r[k] == Un(i, ps[k])
  {
    seq(|ps|, k requires 0 <= k < |ps| => Un(i, ps[k]))
  }

  /** `Bin(i, a, b)` for every a of as_ and, inside, every b of bs. */
  function Pairs(i: nat, as_: seq<Prog>, bs: seq<Prog>): seq<Prog>
    decreases |as_|
  {
    if as_ == [] then []
    else seq(|bs|, k requires 0 <= k < |bs| => Bin(i, as_[0], bs[k])) + Pairs(i, as_[1..], bs)
  }

  /** There are |as_| · |bs| pairs. */
  lemma {:induction false} PairsLength(i: nat, as_: seq<Prog>, bs: seq<Prog>)
    ensures |Pairs(i, as_, bs)| == |as_| * |bs|
    decreases |as_|
  {
    if as_ != [] {
      PairsLength(i, as_[1..], bs);
      MulSucc(|as_| - 1, |bs|);
    }
  }

  /** Every combination of a and b is among the pairs. */
  lemma {:induction false} PairsHas(i: nat, as_: seq<Prog>, bs: seq<Prog>, x: nat, y: nat)
    requires x < |as_| && y < |bs|
    ensures Bin(i, as_[x], bs[y]) in Pairs(i, as_, bs)
    decreases |as_|
  {
    var row := seq(|bs|, k requires 0 <= k < |bs| => Bin(i, as_[0], bs[k]));
    if x == 0 {
      assert row[y] == Bin(i, as_[0], bs[y]);
    } else {
      assert as_[1..][x - 1] == as_[x];
      PairsHas(i, as_[1..], bs, x - 1, y);
    }
  }

  /** Pairs of programs of sizes sa and sb have 1 + sa + sb template nodes. */
  lemma {:induction false} PairsSize(i: nat, as_: seq<Prog>, bs: seq<Prog>, sa: nat, sb: nat)
    requires AllSize(as_, sa) && AllSize(bs, sb)
    ensures AllSize(Pairs(i, as_, bs), 1 + sa + sb)
    decreases |as_|
  {
    if as_ != [] {
      assert AllSize(as_[1..], sa) by {
        forall k | 0 <= k < |as_| - 1 ensures Size(as_[1..][k]) == sa { assert as_[1..][k] == as_[k + 1]; }
      }
      PairsSize(i, as_[1..], bs, sa, sb);
    }
  }

  /** The split j' (a program of size j' beside one of size size-1-j') has been enumerated, or is not a split. */
  predicate SplitReady(all: map<nat, seq<Prog>>, size: nat, j': nat) {
    j' + 2 > size || (j' in all && size - 1 - j' in all)
  }

  /** The splits j..size-2 have been enumerated. */
  predicate SplitsReady(all: map<nat, seq<Prog>>, size: nat, j: nat) {
    forall j' :: j <= j' <= size ==> SplitReady(all, size, j')
  }

  /** The programs of a bimolecular template i over the splits j' + (size-1-j') for j' = j..size-2. */
  function Splits(i: nat, all: map<nat, seq<Prog>>, size: nat, j: nat): seq<Prog>
    requires SplitsReady(all, size, j)
    decreases size - j
  {
    if j + 2 > size then []
    else
      assert SplitReady(all, size, j);
      Pairs(i, all[j], all[size - 1 - j]) + Splits(i, all, size, j + 1)
  }

  /** Template i reads the levels it needs: size-1 if it is unary, the splits otherwise. */
  predicate TemplateReady(arity: seq<nat>, all: map<nat, seq<Prog>>, size: nat, i: nat)
    requires i < |arity|
  {
    if arity[i] == 1 then size >= 1 && size - 1 in all else SplitsReady(all, size, 1)
  }

  /** Every template finds the levels it reads. */
  predicate Ready(arity: seq<nat>, all: map<nat, seq<Prog>>, size: nat) {
    forall i :: 0 <= i < |arity| ==> TemplateReady(arity, all, size, i)
  }

  /** The size-`size` programs that template i heads. */
  function Block(arity: seq<nat>, all: map<nat, seq<Prog>>, size: nat, i: nat): seq<Prog>
    requires i < |arity| && TemplateReady(arity, all, size, i)
  {
    if arity[i] == 1 then Unaries(i, all[size - 1]) else Splits(i, all, size, 1)
  }

  /** The blocks of templates 0..n-1, in template order. */
  function Blocks(arity: seq<nat>, all: map<nat, seq<Prog>>, size: nat, n: nat): seq<Prog>
    requires n <= |arity| && forall i :: 0 <= i < n ==> TemplateReady(arity, all, size, i)
  {
    if n == 0 then [] else Blocks(arity, all, size, n - 1) + Block(arity, all, size, n - 1)
  }

  /** All size-`size` programs built from the smaller levels in all. */
  function Level(arity: seq<nat>, all: map<nat, seq<Prog>>, size: nat): seq<Prog>
    requires Ready(arity, all, size)
  {
    Blocks(arity, all, size, |arity|)
  }

  // ---------------------------------------------------------------------
  // get_programs

  /** The size-1 programs: one single-template program per template, in template order. */
  function Singles(n: nat): (r: seq<Prog>)
    ensures |r| == n && forall i :: 0 <= i < n ==> r[i] == Single(i)
  {
    seq(n, i requires 0 <= i < n => Single(i))
  }

  /** Levels 1..size-1 are present. */
  predicate Below(all: map<nat, seq<Prog>>, size: nat) {
    forall k :: 1 <= k < size ==> k in all
  }

  /** Over the levels 1..size-1, every template finds what it reads. */
  lemma BelowReady(arity: seq<nat>, all: map<nat, seq<Prog>>, size: nat)
    requires size >= 2 && Below(all, size)
    ensures Ready(arity, all, size)
  {
    assert SplitsReady(all, size, 1) by {
      forall j' | 1 <= j' <= size ensures SplitReady(all, size, j') {
        assert j' + 2 <= size ==> j' in all && size - 1 - j' in all;
      }
    }
  }

  /** `get_programs(rxns, size)`: the levels 1..size of the enumeration. */
  function GetPrograms(arity: seq<nat>, size: nat): (r: map<nat, seq<Prog>>)
    requires size >= 1
    ensures forall k :: k in r <==> 1 <= k <= size
    decreases size
  {
    if size == 1 then map[1 := Singles(|arity|)]
    else
      var all := GetPrograms(arity, size - 1);
      BelowReady(arity, all, size);
      all[size := Level(arity, all, size)]
  }

  /** Every level k of the enumeration holds programs of exactly k template nodes. */
  lemma {:induction false} ProgramsHaveTheirSize(arity: seq<nat>, size: nat)
    requires size >= 1
    ensures Sized(GetPrograms(arity, size))
  {
    if size > 1 {
      ProgramsHaveTheirSize(arity, size - 1);
      ExpandAgreesWithGet(arity, size);
      LevelSize(arity, GetPrograms(arity, size - 1), size);
    }
  }

  /** Over levels holding programs of their sizes, every program a level builds has `size` nodes. */
  lemma LevelSize(arity: seq<nat>, all: map<nat, seq<Prog>>, size: nat)
    requires Ready(arity, all, size) && Sized(all)
    ensures AllSize(Level(arity, all, size), size)
  {
    BlocksSize(arity, all, size, |arity|);
  }

  lemma {:induction false} BlocksSize(arity: seq<nat>, all: map<nat, seq<Prog>>, size: nat, n: nat)
    requires Ready(arity, all, size) && Sized(all) && n <= |arity|
    ensures AllSize(Blocks(arity, all, size, n), size)
  {
    if n > 0 {
      BlocksSize(arity, all, size, n - 1);
      BlockSize(arity, all, size, n - 1);
      AllSizeConcat(Blocks(arity, all, size, n - 1), Block(arity, all, size, n - 1), size);
    }
  }

  /** Every program one template heads at level size has `size` nodes. */
  lemma BlockSize(arity: seq<nat>, all: map<nat, seq<Prog>>, size: nat, i: nat)
    requires Ready(arity, all, size) && Sized(all) && i < |arity|
    ensures TemplateReady(arity, all, size, i) && AllSize(Block(arity, all, size, i), size)
  {
    assert TemplateReady(arity, all, size, i);
    if arity[i] != 1 {
      SplitsSize(i, all, size, 1);
    } else {
      assert AllSize(all[size - 1], size - 1);
    }
  }

  lemma AllSizeConcat(xs: seq<Prog>, ys: seq<Prog>, size: nat)
    requires AllSize(xs, size) && AllSize(ys, size)
    ensures AllSize(xs + ys, size)
  {
    forall k | 0 <= k < |xs + ys| ensures Size((xs + ys)[k]) == size {
      if k >= |xs| {
        assert (xs + ys)[k] == ys[k - |xs|];
      }
    }
  }

  lemma {:induction false} SplitsSize(i: nat, all: map<nat, seq<Prog>>, size: nat, j: nat)
    requires SplitsReady(all, size, j) && Sized(all)
    ensures AllSize(Splits(i, all, size, j), size)
    decreases size - j
  {
    if j + 2 <= size {
      assert SplitReady(all, size, j);
      PairsSize(i, all[j], all[size - 1 - j], j, size - 1 - j);
      SplitsSize(i, all, size, j + 1);
    }
  }

  /** `get_programs(rxns, 1)` holds one single-template program per template, in template order. */
  lemma SizeOneIsSingles(arity: seq<nat>)
    ensures 1 in GetPrograms(arity, 1) && |GetPrograms(arity, 1)[1]| == |arity|
    ensures forall i :: 0 <= i < |arity| ==> GetPrograms(arity, 1)[1][i] == Single(i)
  {
  }

  /** Level size is the one level built from the levels below it: what `ExpandPrograms(size)` writes over `GetPrograms(size - 1)`. */
  lemma ExpandAgreesWithGet(arity: seq<nat>, size: nat)
    requires size >= 2
    ensures Ready(arity, GetPrograms(arity, size - 1), size)
    ensures GetPrograms(arity, size) ==
      GetPrograms(arity, size - 1)[size := Level(arity, GetPrograms(arity, size - 1), size)]
  {
    BelowReady(arity, GetPrograms(arity, size - 1), size);
  }

  /** Enumerating to a larger size keeps the smaller levels as they were. */
  lemma {:induction false} LevelsStable(arity: seq<nat>, k: nat, size: nat)
    requires 1 <= k <= size
    ensures GetPrograms(arity, size)[k] == GetPrograms(arity, k)[k]
    decreases size
  {
    if k < size {
      ExpandAgreesWithGet(arity, size);
      LevelsStable(arity, k, size - 1);
    }
  }

  // ---------------------------------------------------------------------
  // Counting the programs of one size

  function NumUnary(arity: seq<nat>, n: nat): nat
    requires n <= |arity|
  {
    if n == 0 then 0 else NumUnary(arity, n - 1) + (if arity[n - 1] == 1 then 1 else 0)
  }

  /** The templates that take the binary branch (any arity other than 1). */
  function NumOther(arity: seq<nat>, n: nat): nat
    requires n <= |arity|
  {
    if n == 0 then 0 else NumOther(arity, n - 1) + (if arity[n - 1] == 1 then 0 else 1)
  }

  /** Σ_{j'=j}^{size-2} |P_j'| · |P_{size-1-j'}|. */
  function SplitCount(all: map<nat, seq<Prog>>, size: nat, j: nat): nat
    requires SplitsReady(all, size, j)
    decreases size - j
  {
    if j + 2 > size then 0
    else
      assert SplitReady(all, size, j);
      |all[j]| * |all[size - 1 - j]| + SplitCount(all, size, j + 1)
  }

  lemma {:induction false} SplitsLength(i: nat, all: map<nat, seq<Prog>>, size: nat, j: nat)
    requires SplitsReady(all, size, j)
    ensures |Splits(i, all, size, j)| == SplitCount(all, size, j)
    decreases size - j
  {
    if j + 2 <= size {
      assert SplitReady(all, size, j);
      PairsLength(i, all[j], all[size - 1 - j]);
      SplitsLength(i, all, size, j + 1);
    }
  }

  /** The length of one more block: a unary template adds |P_{size-1}|, any other the split count. */
  lemma BlockLength(arity: seq<nat>, all: map<nat, seq<Prog>>, size: nat, i: nat)
    requires size >= 2 && i < |arity| && Below(all, size) && TemplateReady(arity, all, size, i)
    ensures |Block(arity, all, size, i)| == if arity[i] == 1 then |all[size - 1]| else SplitCount(all, size, 1)
  {
    if arity[i] != 1 {
      SplitsLength(i, all, size, 1);
    }
  }

  lemma {:induction false} BlocksLength(arity: seq<nat>, all: map<nat, seq<Prog>>, size: nat, n: nat)
    requires size >= 2 && n <= |arity| && Below(all, size)
    requires Ready(arity, all, size)
    ensures |Blocks(arity, all, size, n)| ==
      NumUnary(arity, n) * |all[size - 1]| + NumOther(arity, n) * SplitCount(all, size, 1)
  {
    if n > 0 {
      BlocksLength(arity, all, size, n - 1);
      BlocksStep(arity, all, size, n);
      CountStep(NumUnary(arity, n - 1), NumOther(arity, n - 1), NumUnary(arity, n), NumOther(arity, n),
        |all[size - 1]|, SplitCount(all, size, 1), arity[n - 1] == 1,
        |Blocks(arity, all, size, n - 1)|, |Blocks(arity, all, size, n)| - |Blocks(arity, all, size, n - 1)|);
    }
  }

  /** One more block adds the length BlockLength gives. */
  lemma BlocksStep(arity: seq<nat>, all: map<nat, seq<Prog>>, size: nat, n: nat)
    requires size >= 2 && 0 < n <= |arity| && Below(all, size)
    requires Ready(arity, all, size)
    ensures |Blocks(arity, all, size, n)| == |Blocks(arity, all, size, n - 1)| +
      if arity[n - 1] == 1 then |all[size - 1]| else SplitCount(all, size, 1)
  {
    assert TemplateReady(arity, all, size, n - 1);
    BlockLength(arity, all, size, n - 1);
    assert Blocks(arity, all, size, n) == Blocks(arity, all, size, n - 1) + Block(arity, all, size, n - 1);
  }

  /** The arithmetic of one step of BlocksLength. */
  lemma CountStep(u: nat, o: nat, u': nat, o': nat, a: nat, c: nat, unary: bool, before: nat, added: nat)
    requires before == u * a + o * c
    requires added == if unary then a else c
    requires u' == u + (if unary then 1 else 0) && o' == o + (if unary then 0 else 1)
    ensures before + added == u' * a + o' * c
  {
    if unary {
      MulSucc(u, a);
    } else {
      MulSucc(o, c);
    }
  }

  /**
   * |P_k| = U·|P_{k-1}| + B·Σ_{j=1}^{k-2} |P_j|·|P_{k-1-j}|, where U counts
   * the unary templates and B the others: every combination is kept.
   */
  lemma LevelCount(arity: seq<nat>, size: nat)
    requires size >= 2
    ensures var all := GetPrograms(arity, size);
      SplitsReady(all, size, 1) &&
      |all[size]| == NumUnary(arity, |arity|) * |all[size - 1]| + NumOther(arity, |arity|) * SplitCount(all, size, 1)
  {
    var prev := GetPrograms(arity, size - 1);
    var all := GetPrograms(arity, size);
    ExpandAgreesWithGet(arity, size);
    BlocksLength(arity, prev, size, |arity|);
    SplitCountSame(prev, all, size, 1);
  }

  lemma {:induction false} SplitCountSame(m1: map<nat, seq<Prog>>, m2: map<nat, seq<Prog>>, size: nat, j: nat)
    requires SplitsReady(m1, size, j)
    requires forall k :: k in m1 ==> k in m2 && m2[k] == m1[k]
    ensures SplitsReady(m2, size, j) && SplitCount(m2, size, j) == SplitCount(m1, size, j)
    decreases size - j
  {
    assert SplitsReady(m2, size, j) by {
      forall j' | j <= j' <= size ensures SplitReady(m2, size, j') {
        assert SplitReady(m1, size, j');
      }
    }
    if j + 2 <= size {
      assert SplitReady(m1, size, j);
      SplitCountSame(m1, m2, size, j + 1);
    }
  }

  lemma {:induction false} InSplits(i: nat, all: map<nat, seq<Prog>>, size: nat, j: nat, j0: nat, x: nat, y: nat)
    requires SplitsReady(all, size, j) && j <= j0 && j0 + 2 <= size
    requires SplitReady(all, size, j0) && x < |all[j0]| && y < |all[size - 1 - j0]|
    ensures Bin(i, all[j0][x], all[size - 1 - j0][y]) in Splits(i, all, size, j)
    decreases size - j
  {
    if j < j0 {
      InSplits(i, all, size, j + 1, j0, x, y);
    } else {
      PairsHas(i, all[j0], all[size - 1 - j0], x, y);
    }
  }

  lemma {:induction false} InBlocks(arity: seq<nat>, all: map<nat, seq<Prog>>, size: nat, n: nat, i: nat, p: Prog)
    requires Ready(arity, all, size) && i < n <= |arity|
    requires p in Block(arity, all, size, i)
    ensures p in Blocks(arity, all, size, n)
  {
    var prev := Blocks(arity, all, size, n - 1);
    assert Blocks(arity, all, size, n) == prev + Block(arity, all, size, n - 1);
    if i < n - 1 {
      InBlocks(arity, all, size, n - 1, i, p);
      assert p in prev;
    }
  }

  /** A level holds every pair that a bimolecular template makes over one of its splits. */
  lemma LevelHasPair(arity: seq<nat>, all: map<nat, seq<Prog>>, size: nat, i: nat, j: nat, x: nat, y: nat)
    requires Ready(arity, all, size) && i < |arity| && arity[i] != 1
    requires 1 <= j && j + 2 <= size && j in all && size - 1 - j in all
    requires x < |all[j]| && y < |all[size - 1 - j]|
    ensures Bin(i, all[j][x], all[size - 1 - j][y]) in Level(arity, all, size)
  {
    assert TemplateReady(arity, all, size, i);
    InSplits(i, all, size, 1, j, x, y);
    InBlocks(arity, all, size, |arity|, i, Bin(i, all[j][x], all[size - 1 - j][y]));
  }

  /** The top level of `get_programs(rxns, size)` is the level built from the ones below. */
  lemma TopLevel(arity: seq<nat>, size: nat)
    requires size >= 2
    ensures Ready(arity, GetPrograms(arity, size - 1), size)
    ensures GetPrograms(arity, size)[size] == Level(arity, GetPrograms(arity, size - 1), size)
  {
    ExpandAgreesWithGet(arity, size);
  }

  /**
   * Every combination for a bimolecular template is enumerated: for any
   * program a of level j and b of level size-1-j of `get_programs(size - 1)`,
   * `Bin(i, a, b)` is in level size. By LevelsStable, those levels are the
   * levels j and size-1-j of every larger enumeration too.
   */
  lemma PairKept(arity: seq<nat>, size: nat, i: nat, j: nat, x: nat, y: nat)
    requires size >= 3 && i < |arity| && arity[i] != 1
    requires 1 <= j && j + 2 <= size
    requires x < |GetPrograms(arity, size - 1)[j]| && y < |GetPrograms(arity, size - 1)[size - 1 - j]|
    ensures Bin(i, GetPrograms(arity, size - 1)[j][x], GetPrograms(arity, size - 1)[size - 1 - j][y])
      in GetPrograms(arity, size)[size]
  {
    TopLevel(arity, size);
    LevelHasPair(arity, GetPrograms(arity, size - 1), size, i, j, x, y);
  }

  /**
   * No deduplication: for a bimolecular template, both `Bin(i, a, b)` and
   * its mirror `Bin(i, b, a)` are enumerated, although they describe the
   * same reaction tree up to the order of the reactants.
   */
  lemma BothOrdersKept(arity: seq<nat>, size: nat, i: nat, j: nat, x: nat, y: nat)
    requires size >= 3 && i < |arity| && arity[i] != 1
    requires 1 <= j && j + 2 <= size
    requires x < |GetPrograms(arity, size - 1)[j]| && y < |GetPrograms(arity, size - 1)[size - 1 - j]|
    ensures var a, b := GetPrograms(arity, size - 1)[j][x], GetPrograms(arity, size - 1)[size - 1 - j][y];
      Bin(i, a, b) in GetPrograms(arity, size)[size] && Bin(i, b, a) in GetPrograms(arity, size)[size]
  {
    PairKept(arity, size, i, j, x, y);
    assert size - 1 - (size - 1 - j) == j;
    PairKept(arity, size, i, size - 1 - j, y, x);
  }

  // ---------------------------------------------------------------------
  // expand_program(s)

  /** `expand_program(i, a, b)`: template i on top of a, or of a and b. */
  function ExpandProgram(i: nat, a: Prog, b: Option<Prog>): (p: Prog)
    ensures Size(p) == 1 + Size(a) + (if b.Some? then Size(b.value) else 0)
  {
    if b.Some? then Bin(i, a, b.value) else Un(i, a)
  }

  /** The table of enumerated programs by size, which `expand_programs` extends in place. */
  class ProgramTable {
    const arity: seq<nat>
    var progs: map<nat, seq<Prog>>

    constructor (arity: seq<nat>, progs: map<nat, seq<Prog>>)
      ensures this.arity == arity && this.progs == progs
    {
      this.arity := arity;
      this.progs := progs;
    }

    /** The inner loop of `expand_programs` for a bimolecular template: looks up levels j and size-1-j for j = 1..size-2. */
    method HasSplits(size: nat) returns (ok: bool)
      ensures ok <==> SplitsReady(progs, size, 1)
    {
      for j := 1 to if size >= 2 then size - 1 else 1
        invariant forall j' :: 1 <= j' < j ==> SplitReady(progs, size, j')
      {
        if j !in progs || size - 1 - j !in progs {
          assert !SplitReady(progs, size, j);
          return false;
        }
      }
      assert SplitsReady(progs, size, 1) by {
        forall j' | 1 <= j' <= size ensures SplitReady(progs, size, j') {
          assert j' + 1 < size ==> j' < (if size >= 2 then size - 1 else 1);
        }
      }
      return true;
    }

    /**
     * `expand_programs(all_progs, size)`: writes the level `size` built
     * from the smaller levels and changes no other entry; raises (and
     * writes nothing) when a level it reads is missing.
     */
    method ExpandPrograms(size: nat) returns (ok: bool)
      modifies this
      ensures ok <==> Ready(arity, old(progs), size)
      ensures ok ==> progs == old(progs)[size := Level(arity, old(progs), size)]
      ensures !ok ==> progs == old(progs)
    {
      var out: seq<Prog> := [];
      for i := 0 to |arity|
        invariant progs == old(progs)
        invariant forall i' :: 0 <= i' < i ==> TemplateReady(arity, progs, size, i')
        invariant out == Blocks(arity, progs, size, i)
      {
        if arity[i] == 1 {
          if size < 1 || size - 1 !in progs {
            NotReady(arity, progs, size, i);
            return false;
          }
        } else {
          var found := HasSplits(size);
          if !found {
            NotReady(arity, progs, size, i);
            return false;
          }
        }
        assert TemplateReady(arity, progs, size, i);
        out := out + Block(arity, progs, size, i);
      }
      progs := progs[size := out];
      return true;
    }
  }

  /** A template that misses a level it reads makes the whole level fail. */
  lemma NotReady(arity: seq<nat>, all: map<nat, seq<Prog>>, size: nat, i: nat)
    requires i < |arity| && !TemplateReady(arity, all, size, i)
    ensures !Ready(arity, all, size)
  {
  }

  // ---------------------------------------------------------------------
  // filter_programs

  /** A program after it was run: for each entry, the lengths of its `available_reactants` lists. */
  datatype Run = Run(prog: Prog, avail: seq<seq<nat>>)

  /** `np.prod` of a list of lengths (1 for the empty list). */
  function Prod(xs: seq<nat>): nat {
    if xs == [] then 1 else Prod(xs[..|xs| - 1]) * xs[|xs| - 1]
  }

  /** The product of lengths is non-zero exactly when no list is empty. */
  lemma {:induction false} ProdNonZero(xs: seq<nat>)
    ensures Prod(xs) != 0 <==> forall k :: 0 <= k < |xs| ==> xs[k] > 0
  {
    if xs != [] {
      ProdNonZero(xs[..|xs| - 1]);
      assert forall k :: 0 <= k < |xs| - 1 ==> xs[..|xs| - 1][k] == xs[k];
    }
  }

  /** The filter's test: every entry's product of lengths is non-zero. */
  predicate Good(r: Run) {
    forall e :: 0 <= e < |r.avail| ==> Prod(r.avail[e]) != 0
  }

  /** A run is kept iff every reactant list of every entry is non-empty. */
  lemma GoodIffAllNonEmpty(r: Run)
    ensures Good(r) <==> forall e, k :: 0 <= e < |r.avail| && 0 <= k < |r.avail[e]| ==> r.avail[e][k] > 0
  {
    forall e | 0 <= e < |r.avail| {
      ProdNonZero(r.avail[e]);
    }
  }

  /** The runs of rs that pass the test, in order. */
  function Kept(rs: seq<Run>): (r: seq<Run>)
    ensures |r| <= |rs|
  {
    if rs == [] then []
    else Kept(rs[..|rs| - 1]) + (if Good(rs[|rs| - 1]) then [rs[|rs| - 1]] else [])
  }

  /** Exactly the passing runs are kept. */
  lemma {:induction false} KeptMembers(rs: seq<Run>)
    ensures forall x :: x in Kept(rs) <==> x in rs && Good(x)
  {
    if rs != [] {
      KeptMembers(rs[..|rs| - 1]);
      assert rs == rs[..|rs| - 1] + [rs[|rs| - 1]];
    }
  }

  /** Filtering twice is filtering once. */
  lemma {:induction false} KeptIdempotent(rs: seq<Run>)
    ensures Kept(Kept(rs)) == Kept(rs)
  {
    if rs != [] {
      var init := rs[..|rs| - 1];
      KeptIdempotent(init);
      KeptAppend(Kept(init), if Good(rs[|rs| - 1]) then [rs[|rs| - 1]] else []);
      KeptAllGood(init);
    }
  }

  lemma {:induction false} KeptAppend(a: seq<Run>, b: seq<Run>)
    ensures Kept(a + b) == Kept(a) + Kept(b)
    decreases |b|
  {
    if b == [] {
      assert a + b == a;
    } else {
      assert (a + b)[..|a + b| - 1] == a + b[..|b| - 1];
      KeptAppend(a, b[..|b| - 1]);
    }
  }

  lemma KeptAllGood(rs: seq<Run>)
    ensures forall j :: 0 <= j < |Kept(rs)| ==> Good(Kept(rs)[j])
  {
    KeptMembers(rs);
  }

  /** `filter_programs`: keeps, in order, the runs whose every entry has all its reactant lists non-empty. */
  method FilterPrograms(rs: seq<Run>) returns (r: seq<Run>)
    ensures r == Kept(rs)
  {
    r := [];
    for q := 0 to |rs|
      invariant r == Kept(rs[..q])
    {
      var p := rs[q];
      var good := true;
      for e := 0 to |p.avail|
        invariant good <==> forall e' :: 0 <= e' < e ==> Prod(p.avail[e']) != 0
      {
        if Prod(p.avail[e]) != 0 {
          continue;
        }
        good := false;
        break;
      }
      assert rs[..q + 1][..q] == rs[..q];
      if good {
        r := r + [p];
      }
    }
    assert rs[..|rs|] == rs;
  }

  // ---------------------------------------------------------------------
  // Hashing filled subtrees

  /** A node label for the graph hash: the template id, the smiles, or 0. */
  datatype Id = IntId(i: int) | StrId(s: string)

  /** The attributes of a skeleton node that the hash reads. */
  datatype Attr = Attr(rxnId: Option<nat>, smiles: Option<string>)

  /** An element of the `fill_in` list: a node, or a (nested) list of nodes. */
  datatype FillItem = One(n: nat) | Many(ns: seq<nat>)

  /** `n in fill_in`: a node equals no list, so only the plain node elements count. */
  predicate InFill(n: nat, fill: seq<FillItem>) {
    One(n) in fill
  }

  /** The label of a filled node: its template id, else its smiles; None where the code stops at a breakpoint. */
  function IdOf(a: Attr): (r: Option<Id>)
    ensures r.None? <==> a.rxnId.None? && a.smiles.None?
    ensures a.rxnId.Some? ==> r == Some(IntId(a.rxnId.value))
  {
    if a.rxnId.Some? then Some(IntId(a.rxnId.value))
    else if a.smiles.Some? then Some(StrId(a.smiles.value))
    else None
  }

  /** A graph handed to the Weisfeiler-Lehman hash: its nodes, their successors and their `id` labels. */
  datatype Graph = Graph(nodes: seq<nat>, succ: seq<seq<nat>>, labels: seq<Id>)

  /** A subtree to hash: its nodes (tree node numbers), their successors and attributes, and the `id` labels written on them. */
  class Subtree {
    const nodes: seq<nat>
    const succ: seq<seq<nat>>
    const attrs: seq<Attr>
    var id: seq<Id>

    constructor (nodes: seq<nat>, succ: seq<seq<nat>>, attrs: seq<Attr>)
      requires |attrs| == |nodes| && |succ| == |nodes|
      ensures this.nodes == nodes && this.succ == succ && this.attrs == attrs && |id| == |nodes|
    {
      this.nodes := nodes;
      this.succ := succ;
      this.attrs := attrs;
      id := seq(|nodes|, _ => IntId(0));
    }

    /** Node k is filled and carries neither attribute: the code stops there. */
    predicate Stuck(fill: seq<FillItem>, k: nat)
      requires k < |nodes| && |attrs| == |nodes|
    {
      InFill(nodes[k], fill) && IdOf(attrs[k]).None?
    }

    /** v is the label node k gets: its own label if it is filled, 0 otherwise. */
    predicate Labelled(fill: seq<FillItem>, k: nat, v: Id)
      requires k < |nodes| == |attrs|
    {
      if InFill(nodes[k], fill) then IdOf(attrs[k]) == Some(v) else v == IntId(0)
    }

    /**
     * `get_wl_kernel(tree, fill_in)`: labels every filled node with its
     * template id or smiles and every other node with 0, then hashes the
     * labelled graph with as many iterations as it has nodes.
     */
    method WlKernel(fill: seq<FillItem>, wl: (Graph, nat) -> string) returns (r: Result<string>)
      requires |attrs| == |nodes| && |id| == |nodes|
      modifies this
      ensures |id| == |nodes|
      ensures r.Fail? <==> exists k :: 0 <= k < |nodes| && Stuck(fill, k)
      ensures r.Ok? ==> forall k :: 0 <= k < |nodes| ==> Labelled(fill, k, id[k])
      ensures r.Ok? ==> r.value == wl(Graph(nodes, succ, id), |nodes|)
    {
      for k := 0 to |nodes|
        invariant |id| == |nodes|
        invariant forall k' :: 0 <= k' < k ==> !Stuck(fill, k')
        invariant forall k' :: 0 <= k' < k ==> Labelled(fill, k', id[k'])
      {
        if InFill(nodes[k], fill) {
          var a := IdOf(attrs[k]);
          if a.None? {
            assert Stuck(fill, k);
            return Fail;
          }
          id := id[k := a.value];
        } else {
          id := id[k := IntId(0)];
        }
        assert Labelled(fill, k, id[k]);
      }
      return Ok(wl(Graph(nodes, succ, id), |nodes|));
    }
  }

  /** `[node] + [bbs]` as written: the leaves form one nested list element. */
  function FillAsWritten(node: nat, bbs: seq<nat>): seq<FillItem> {
    [One(node), Many(bbs)]
  }

  /** `[node] + bbs` as intended: the root and every leaf are elements. */
  function FillIntended(node: nat, bbs: seq<nat>): (f: seq<FillItem>)
    ensures forall n :: InFill(n, f) <==> n == node || n in bbs
  {
    var f := [One(node)] + seq(|bbs|, k requires 0 <= k < |bbs| => One(bbs[k]));
    assert forall k :: 0 <= k < |bbs| ==> f[k + 1] == One(bbs[k]);
    f
  }

  /** As written, only the subtree's root counts as filled: a leaf that is not the root is labelled 0. */
  lemma NestedListHidesLeaves(node: nat, bbs: seq<nat>, n: nat)
    ensures InFill(n, FillAsWritten(node, bbs)) <==> n == node
    ensures n in bbs && n != node ==> !InFill(n, FillAsWritten(node, bbs)) && InFill(n, FillIntended(node, bbs))
  {
  }

  /** A skeleton tree: node attributes and successor lists. */
  datatype Tree = Tree(attrs: seq<Attr>, children: seq<seq<nat>>)

  /** The nodes of sub without successors: the subtree's building blocks. */
  function LeavesOf(t: Tree, sub: seq<nat>): (bbs: seq<nat>)
    requires |t.children| == |t.attrs|
    requires forall k :: 0 <= k < |sub| ==> sub[k] < |t.attrs|
    ensures forall n :: n in bbs <==> n in sub && t.children[n] == []
    decreases |sub|
  {
    if sub == [] then []
    else
      var rest := LeavesOf(t, sub[1..]);
      assert forall n :: n in sub[1..] ==> n in sub;
      assert forall n :: n in sub && n != sub[0] ==> n in sub[1..];
      if t.children[sub[0]] == [] then [sub[0]] + rest else rest
  }

  /** Which nodes carry a template. */
  function Templated(t: Tree): (m: seq<bool>)
    ensures |m| == |t.attrs| && forall n :: 0 <= n < |m| ==> (m[n] <==> t.attrs[n].rxnId.Some?)
  {
    seq(|t.attrs|, n requires 0 <= n < |t.attrs| => t.attrs[n].rxnId.Some?)
  }

  /** The successor lists of the nodes of sub. */
  function SuccOf(t: Tree, sub: seq<nat>): (r: seq<seq<nat>>)
    ensures |r| == |sub| && forall k :: 0 <= k < |sub| && sub[k] < |t.children| ==> r[k] == t.children[sub[k]]
  {
    seq(|sub|, k requires 0 <= k < |sub| => if sub[k] < |t.children| then t.children[sub[k]] else [])
  }

  /** Within the subtree below root, node n is filled when it is the root or a building block (it has no successors). */
  predicate RootOrLeaf(t: Tree, root: nat, n: nat) {
    n == root || (n < |t.children| && t.children[n] == [])
  }

  /** Some filled node of the subtree below root carries neither a template nor a smiles. */
  predicate SubtreeStuck(t: Tree, dfs: nat -> seq<nat>, root: nat) {
    exists k :: 0 <= k < |dfs(root)| && dfs(root)[k] < |t.attrs| &&
      RootOrLeaf(t, root, dfs(root)[k]) && IdOf(t.attrs[dfs(root)[k]]).None?
  }

  /** The labels of the subtree below root: its filled nodes' template id or smiles, 0 for every other node. */
  function SubtreeLabels(t: Tree, sub: seq<nat>, root: nat): (r: seq<Id>)
    ensures |r| == |sub|
    ensures forall k :: 0 <= k < |sub| && !RootOrLeaf(t, root, sub[k]) ==> r[k] == IntId(0)
    ensures forall k :: 0 <= k < |sub| && sub[k] < |t.attrs| && RootOrLeaf(t, root, sub[k]) && IdOf(t.attrs[sub[k]]).Some? ==>
      r[k] == IdOf(t.attrs[sub[k]]).value
  {
    seq(|sub|, k requires 0 <= k < |sub| =>
      if sub[k] < |t.attrs| && RootOrLeaf(t, root, sub[k]) && IdOf(t.attrs[sub[k]]).Some? then IdOf(t.attrs[sub[k]]).value
      else IntId(0))
  }

  /** The subtree below some templated node among the first n is stuck. */
  predicate AnyStuck(t: Tree, dfs: nat -> seq<nat>, n: nat) {
    exists m :: 0 <= m < n && m < |t.attrs| && t.attrs[m].rxnId.Some? && SubtreeStuck(t, dfs, m)
  }

  /** Among the first n + 1 nodes, a stuck templated subtree is one among the first n or the one below node n. */
  lemma AnyStuckStep(t: Tree, dfs: nat -> seq<nat>, n: nat)
    requires n < |t.attrs|
    ensures AnyStuck(t, dfs, n + 1) <==> AnyStuck(t, dfs, n) || (t.attrs[n].rxnId.Some? && SubtreeStuck(t, dfs, n))
  {
  }

  /** A stuck templated subtree below node n stays among the stuck ones of every longer prefix. */
  lemma AnyStuckAfter(t: Tree, dfs: nat -> seq<nat>, n: nat)
    requires n < |t.attrs| && t.attrs[n].rxnId.Some? && SubtreeStuck(t, dfs, n)
    ensures AnyStuck(t, dfs, |t.attrs|)
  {
  }

  /** The size of the subtree below root and the hash of that subtree with its root and building blocks labelled. */
  function SubtreeHash(t: Tree, dfs: nat -> seq<nat>, wl: (Graph, nat) -> string, root: nat): (nat, string) {
    var sub := dfs(root);
    (|sub|, wl(Graph(sub, SuccOf(t, sub), SubtreeLabels(t, sub, root)), |sub|))
  }

  /**
   * The subtree below node, labelled with node and its building blocks
   * filled in, and hashed: fails exactly when one of those nodes carries
   * neither a template nor a smiles, and otherwise gives the subtree's
   * size and the hash of its labelled graph.
   */
  method HashSubtree(t: Tree, dfs: nat -> seq<nat>, wl: (Graph, nat) -> string, node: nat) returns (r: Result<(nat, string)>)
    requires |t.children| == |t.attrs|
    requires forall k :: 0 <= k < |dfs(node)| ==> dfs(node)[k] < |t.attrs|
    ensures r.Fail? <==> SubtreeStuck(t, dfs, node)
    ensures r.Ok? ==> r.value == SubtreeHash(t, dfs, wl, node)
  {
    var sub := dfs(node);
    var bbs := LeavesOf(t, sub);
    var fill := FillIntended(node, bbs);
    var g := new Subtree(sub, SuccOf(t, sub), seq(|sub|, k requires 0 <= k < |sub| => t.attrs[sub[k]]));
    assert forall k :: 0 <= k < |sub| ==> (InFill(sub[k], fill) <==> RootOrLeaf(t, node, sub[k])) by {
      forall k | 0 <= k < |sub|
        ensures InFill(sub[k], fill) <==> RootOrLeaf(t, node, sub[k])
      {
        assert sub[k] in sub;
      }
    }
    var h := g.WlKernel(fill, wl);
    if h.Fail? {
      var k :| 0 <= k < |sub| && g.Stuck(fill, k);
      assert RootOrLeaf(t, node, sub[k]) && IdOf(t.attrs[sub[k]]).None?;
      return Fail;
    }
    assert !SubtreeStuck(t, dfs, node) by {
      forall k | 0 <= k < |sub|
        ensures !(RootOrLeaf(t, node, sub[k]) && IdOf(t.attrs[sub[k]]).None?)
      {
        assert !g.Stuck(fill, k);
      }
    }
    assert g.id == SubtreeLabels(t, sub, node) by {
      forall k | 0 <= k < |sub|
        ensures g.id[k] == SubtreeLabels(t, sub, node)[k]
      {
        assert g.Labelled(fill, k, g.id[k]);
      }
    }
    return Ok((|sub|, h.value));
  }

  /** The values of f at the marked positions among the first n, in order. */
  function Picked<T>(marks: seq<bool>, f: nat -> T, n: nat): seq<T>
    requires n <= |marks|
  {
    if n == 0 then [] else Picked(marks, f, n - 1) + (if marks[n - 1] then [f(n - 1)] else [])
  }

  /** One value is picked for every marked position among the first n. */
  lemma {:induction false} PickedLength<T>(marks: seq<bool>, f: nat -> T, n: nat)
    requires n <= |marks|
    ensures |Picked(marks, f, n)| == Count(marks[..n])
  {
    if n > 0 {
      PickedLength(marks, f, n - 1);
      CountPrefixStep(marks, n - 1);
    }
  }

  /** Counting the marked positions among the first m + 1 adds the mark at position m. */
  lemma CountPrefixStep(xs: seq<bool>, m: nat)
    requires m < |xs|
    ensures Count(xs[..m + 1]) == Count(xs[..m]) + (if xs[m] then 1 else 0)
  {
    assert xs[..m + 1][..m] == xs[..m];
  }

  /** Picking over one more position appends f's value there when it is marked. */
  lemma PickedStep<T>(marks: seq<bool>, f: nat -> T, n: nat, prev: seq<T>, v: T, next: seq<T>)
    requires n < |marks| && prev == Picked(marks, f, n)
    requires marks[n] ==> v == f(n)
    requires next == prev + (if marks[n] then [v] else [])
    ensures next == Picked(marks, f, n + 1)
  {
  }

  /** The value picked for marked position m sits at the number of marked positions before m. */
  lemma {:induction false} PickedAt<T>(marks: seq<bool>, f: nat -> T, n: nat, m: nat)
    requires n <= |marks| && m < n && marks[m]
    ensures Count(marks[..m]) < |Picked(marks, f, n)| && Picked(marks, f, n)[Count(marks[..m])] == f(m)
  {
    var prev, at := Picked(marks, f, n - 1), Count(marks[..m]);
    assert Picked(marks, f, n) == prev + (if marks[n - 1] then [f(n - 1)] else []);
    if m < n - 1 {
      PickedAt(marks, f, n - 1, m);
      assert Picked(marks, f, n)[at] == prev[at];
    } else {
      PickedLength(marks, f, n - 1);
    }
  }

  /** The hash of the subtree below each node. */
  function SubtreeHashes(t: Tree, dfs: nat -> seq<nat>, wl: (Graph, nat) -> string): nat -> (nat, string) {
    m => SubtreeHash(t, dfs, wl, m)
  }

  /**
   * The k-th pair `hash_st` returns belongs to the k-th templated node:
   * the pair of templated node m sits at the number of templated nodes
   * before m, and is the size and hash of the subtree below m.
   */
  lemma HashesAt(t: Tree, dfs: nat -> seq<nat>, wl: (Graph, nat) -> string, m: nat)
    requires m < |t.attrs| && t.attrs[m].rxnId.Some?
    ensures var r := Picked(Templated(t), SubtreeHashes(t, dfs, wl), |t.attrs|);
      Count(Templated(t)[..m]) < |r| && r[Count(Templated(t)[..m])] == SubtreeHash(t, dfs, wl, m)
  {
    PickedAt(Templated(t), SubtreeHashes(t, dfs, wl), |t.attrs|, m);
  }

  /** One step of `hash_st`: the pair for node, when it carries a template, appended to out. */
  method HashNode(t: Tree, dfs: nat -> seq<nat>, wl: (Graph, nat) -> string, node: nat, out: seq<(nat, string)>)
    returns (r: Result<seq<(nat, string)>>)
    requires |t.children| == |t.attrs| && node < |t.attrs|
    requires forall n, k :: 0 <= k < |dfs(n)| ==> dfs(n)[k] < |t.attrs|
    ensures r.Fail? <==> t.attrs[node].rxnId.Some? && SubtreeStuck(t, dfs, node)
    ensures r.Ok? ==> r.value == out + (if t.attrs[node].rxnId.Some? then [SubtreeHash(t, dfs, wl, node)] else [])
  {
    if t.attrs[node].rxnId.Some? {
      var h := HashSubtree(t, dfs, wl, node);
      if h.Fail? {
        return Fail;
      }
      return Ok(out + [h.value]);
    }
    return Ok(out);
  }

  /**
   * `hash_st`: for every node carrying a template, in node order, the
   * size and hash of the subtree below it with the root and its building
   * blocks filled in.  `dfs(n)` lists the nodes of the subtree below n.
   * Fails exactly when some templated node's subtree is stuck.
   */
  method HashSt(t: Tree, dfs: nat -> seq<nat>, wl: (Graph, nat) -> string) returns (r: Result<seq<(nat, string)>>)
    requires |t.children| == |t.attrs|
    requires forall n, k :: 0 <= k < |dfs(n)| ==> dfs(n)[k] < |t.attrs|
    ensures r.Fail? <==> AnyStuck(t, dfs, |t.attrs|)
    ensures r.Ok? ==> r.value == Picked(Templated(t), SubtreeHashes(t, dfs, wl), |t.attrs|)
  {
    var out: seq<(nat, string)> := [];
    ghost var marks, hashes := Templated(t), SubtreeHashes(t, dfs, wl);
    for node := 0 to |t.attrs|
      invariant out == Picked(marks, hashes, node)
      invariant !AnyStuck(t, dfs, node)
    {
      AnyStuckStep(t, dfs, node);
      var next := HashNode(t, dfs, wl, node, out);
      if next.Fail? {
        AnyStuckAfter(t, dfs, node);
        return Fail;
      }
      ghost var prev := out;
      out := next.value;
      PickedStep(marks, hashes, node, prev, SubtreeHash(t, dfs, wl, node), out);
    }
    return Ok(out);
  }

  // ---------------------------------------------------------------------
  // The count table

  /** The number of entries of res equal to (l, h). */
  function Occurrences(res: seq<(nat, string)>, l: nat, h: string): nat {
    multiset(res)[(l, h)]
  }

  /** A table entry, reading 0 where the table has none. */
  function Get(table: map<nat, map<string, nat>>, l: nat, h: string): nat {
    if l in table && h in table[l] then table[l][h] else 0
  }

  /** `table[l][h] += 1` on a table of default dictionaries. */
  function Bump(table: map<nat, map<string, nat>>, l: nat, h: string): (r: map<nat, map<string, nat>>)
    ensures forall l', h' :: Get(r, l', h') == Get(table, l', h') + (if l' == l && h' == h then 1 else 0)
    ensures r.Keys == table.Keys + {l}
    ensures forall l' :: l' in table && l' != l ==> r[l'] == table[l']
    ensures l in r && r[l].Keys == (if l in table then table[l].Keys else {}) + {h}
  {
    var row := if l in table then table[l] else map[];
    table[l := row[h := Get(table, l, h) + 1]]
  }

  /**
   * `table[length][k_val] += 1` over all hashed subtrees: each entry counts
   * the occurrences of its (length, hash), every pair that occurs has an
   * entry, and every row has a pair that occurs.
   */
  method CountTable(res: seq<(nat, string)>) returns (table: map<nat, map<string, nat>>)
    ensures forall l, h :: Get(table, l, h) == Occurrences(res, l, h)
    ensures forall l, h :: (l, h) in res ==> l in table && h in table[l]
    ensures forall l, h :: l in table && h in table[l] ==> (l, h) in res
  {
    table := map[];
    for q := 0 to |res|
      invariant forall l, h :: Get(table, l, h) == Occurrences(res[..q], l, h)
      invariant forall l, h :: (l, h) in res[..q] ==> l in table && h in table[l]
      invariant forall l, h :: l in table && h in table[l] ==> (l, h) in res[..q]
    {
      assert res[..q + 1] == res[..q] + [res[q]];
      table := Bump(table, res[q].0, res[q].1);
    }
    assert res[..|res|] == res;
  }
}
