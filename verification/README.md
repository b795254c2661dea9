# SynTreeNet decoding, enumeration and search — a Dafny model

This project models the core of SynTreeNet. SynTreeNet proposes synthetic
trees for a target molecule: a tree is a skeleton whose reaction nodes carry
reaction templates and whose leaves carry purchasable building blocks. The
model covers:

- **The skeleton decoder** (`reconstruct_utils.py`, module `Decoder`). It fills
  a skeleton one node at a time. `pick_node` chooses the frontier node. For a
  reaction node, `fill_in` masks templates through `filter_imposs`. For a leaf,
  it chooses a building block by nearest-neighbour search, restricted by an
  index file when one exists. `wrapper_decoder` keeps a stack of beams. When
  the first leaf is filled it branches into `top_k` beams.
- **The older decoder** (`scripts/reconstruct-targets.py`, modules `LegacyDecoder`
  and `LegacyChecks`). It probes the index directory once per template. This
  module also holds the bottom-up answer check and the skeleton filter of
  that script.
- **The skeleton state** (module `Skeletons`). A `Skeleton` object whose fill
  state (mask, templates, building blocks, paths) is updated in place.
- **The step-wise SynNet decoder** (`predict_utils.py`, module `Predict`). It
  covers the action, reaction and reactant masks, the state embedding layout,
  the decoding loop and the greedy search over `k_reactant1`.
- **Program enumeration and subtree hashing** (`scripts/build-hash-table.py`,
  module `Programs`).
- **Skeleton naming and grouping** (`scripts/analyze-skeletons.py`, module
  `SkeletonAnalysis`).
- **The genetic search** (`src/ga/search.py`, module `Genetic`). It covers
  validation, crossover, mutation, culling, parent choice, the oracle budget
  and the early stop.

## How the model is built

- **Value types and collaborators:**
  - Neural networks, the file system, JSON index files, chemistry (`run_reaction`,
    `is_reactant`), nearest-neighbour searches and random draws are
    function-typed parameters. They are bundled in environment datatypes
    (`Decoder.Env`, `LegacyDecoder.LegacyEnv`, `Predict.Nets`).
  - Network scores and similarities are integers.
  - An exception in the source is the `Fail` case of a `Result`.
- **State changed in place:**
  - The decoder's skeleton is the class `Skeletons.Skeleton`, updated by
    `AssignTemplate`, `AssignBlock`, `MaskNode` and `SetPath`.
  - The reaction graph whose template attribute the older decoder overwrites
    and restores is the class `LegacyDecoder.RxnGraph`.
  - The program table that `expand_programs` extends is the class
    `Programs.ProgramTable`.
  - The search state of `optimize` is the class `Genetic.Search`. Its
    methods are proved against values: `Genetic.EpochOf` for one epoch and
    `Genetic.RunOf` for the whole loop, over the datatype `Genetic.SearchState`.
  - The list `can_react` pops from is the class `Predict.MolList`.
  - The graph `skeleton2graph` builds is the class `SkeletonAnalysis.MultiDiGraph`.
  - The `total_incorrect` tally is the class `Decoder.Tally`.
- **Termination:** the stack loops of both decoders are proved to terminate.
  The measure is a ghost weight: the sum, over the beams, of p raised to the
  number of nodes the beam still has to fill.

## Model

| member | source | states |
|---|---|---|
| Basics.ArgMaxAdmitted | src/synnet/utils/reconstruct_utils.py:315 | the position chosen among the admitted scores is the first one of greatest score (numpy `argmax` after the excluded entries were set to -inf) |
| Basics.ArgMaxUnique | src/synnet/utils/reconstruct_utils.py:315 | the arg-max is determined by the scores and the exclusions: two positions that both satisfy it are equal |
| Basics.ArgMin | src/synnet/utils/reconstruct_utils.py:403 | numpy `argmin`: the first position holding the least value |
| Skeletons.OpenMask | src/synnet/utils/reconstruct_utils.py:421 | entry i is true exactly when node i is unmasked and a reaction or a leaf |
| Skeletons.CompleteIffNoneUnfilled | src/synnet/utils/reconstruct_utils.py:421 | the decoder's exit test (no unmasked reaction or leaf) holds exactly when no node is left to fill |
| Skeletons.UnfilledDrops | src/synnet/utils/reconstruct_utils.py:464-473 | filling an open node while only adding to the mask strictly lowers the number of nodes left to fill |
| Skeletons.Skeleton.Copy | src/synnet/utils/reconstruct_utils.py:464 | a deep copy of a beam is a fresh skeleton holding the same fill state |
| Skeletons.Skeleton.AssignTemplate | src/synnet/utils/reconstruct_utils.py:317 | the node's template is set and the node marked filled; nothing else changes |
| Skeletons.Skeleton.AssignBlock | src/synnet/utils/reconstruct_utils.py:375 | the leaf's building block is set and the node marked filled; nothing else changes |
| Skeletons.Skeleton.MaskNode | src/synnet/utils/reconstruct_utils.py:321-323 | the mask setter marks the node filled without assigning it; nothing else changes |
| Skeletons.Skeleton.SetPath | src/synnet/utils/reconstruct_utils.py:324-326 | only the node's `path` attribute changes |
| Decoder.Dist | src/synnet/utils/reconstruct_utils.py:379-381 | the result is no larger than the L1 distance to any catalog row, and equals the distance to some row |
| Decoder.Dists | src/synnet/utils/reconstruct_utils.py:402 | one distance per frontier entry, each the `dist` of that entry's embedding part |
| Decoder.BestRxnEntry | src/synnet/utils/reconstruct_utils.py:391-398 | -1 exactly when no frontier entry is a reaction node; otherwise the reaction entry of strictly greatest confidence, the earliest winning ties |
| Decoder.BestRxnOf | src/synnet/utils/reconstruct_utils.py:391-398 | -1 exactly when no frontier entry is a reaction node; otherwise the reaction entry of strictly greatest confidence |
| Decoder.PickNode | src/synnet/utils/reconstruct_utils.py:384-404 | succeeds iff the frontier holds a reaction node, or the frontier and the catalog are both non-empty; picks the most confident reaction node, else the first node of least catalog distance |
| Decoder.PickOf | src/synnet/utils/reconstruct_utils.py:384-404 | the node `pick_node` returns is a frontier node (`PickNode` states which one and equals it) |
| Decoder.BaseImposs | src/synnet/utils/reconstruct_utils.py:265-277 | in the base case template i is impossible exactly when its one-reaction program has no index file |
| Decoder.BasePaths | src/synnet/utils/reconstruct_utils.py:266-277 | in the base case the path of template i is its index file when that exists, "" otherwise |
| Decoder.Imposs | src/synnet/utils/reconstruct_utils.py:203-294 | without reaction filtering, or at a depth other than 1 and 2, the mask is the arity mask (bimolecular node versus bimolecular template); at depth 1 in the base case, the file test decides and the paths are the file paths; paths are present exactly when reaction filtering is on |
| Decoder.BaseCaseIgnoresArity | src/synnet/utils/reconstruct_utils.py:254-278 | in the depth-1 base case a template with an index file is admitted even when its reactant count contradicts the node's |
| Decoder.FilterImposs | src/synnet/utils/reconstruct_utils.py:203-294 | the method computes exactly the mask and paths of `Imposs` |
| Decoder.IndexOf | src/synnet/utils/reconstruct_utils.py:366 | `list.index`: the first position holding x, and None exactly when x is absent (where the source raises) |
| Decoder.Positions | src/synnet/utils/reconstruct_utils.py:366 | defined iff every name is in the catalog; then each position holds its name |
| Decoder.Candidates | src/synnet/utils/reconstruct_utils.py:331-356 | a restricted list exists only when the index file was consulted; its positions are in the catalog; with no file consulted and no raise it is absent |
| Decoder.ChooseTemplate | src/synnet/utils/reconstruct_utils.py:309-315 | fails exactly when every template is excluded (the assertion at line 311); otherwise the first template of greatest score among the admitted, with the paths `filter_imposs` gave |
| Decoder.TemplateOf | src/synnet/utils/reconstruct_utils.py:309-315 | fails exactly when every template is excluded; otherwise the first template of greatest score among the admitted |
| Decoder.MaskIntermediates | src/synnet/utils/reconstruct_utils.py:320-323 | every non-leaf child of the reaction node becomes masked; only such children are newly masked; templates, blocks and paths are unchanged |
| Decoder.ReactionFill | src/synnet/utils/reconstruct_utils.py:307-326 | succeeds exactly when some template is admitted and the paths list is empty or holds an entry for the chosen template; the node gets the masked arg-max template, every non-leaf child becomes masked, and the path is recorded exactly when there are paths |
| Decoder.FillReaction | src/synnet/utils/reconstruct_utils.py:307-326 | succeeds exactly when `ReactionFill` succeeds (some template admitted, and the paths list empty or holding the chosen template), and the skeleton then holds that fill |
| Decoder.LeafChoice | src/synnet/utils/reconstruct_utils.py:328-374 | the chosen block is in the catalog; it comes from the restricted list when that list is consulted and long enough, and is otherwise the rank-`top_bb` nearest block of the whole catalog |
| Decoder.FillOf | src/synnet/utils/reconstruct_utils.py:297-375 | fails on a node that is neither reaction nor leaf; on a reaction node it succeeds exactly as `ReactionFill` does, with the arg-max template; on a leaf exactly when `LeafChoice` does, and then only the leaf's block and mask change; the node ends filled and its template or block is in range |
| Decoder.FillIn | src/synnet/utils/reconstruct_utils.py:297-375 | succeeds exactly when `FillOf` does, and the skeleton then holds the fill `FillOf` gives |
| Decoder.Logits | src/synnet/utils/reconstruct_utils.py:453-460 | fails exactly when an unmasked frontier node is neither a reaction nor a leaf; otherwise each unmasked frontier node has one entry, with the reaction model's row for a reaction node and the building-block model's row for a leaf |
| Decoder.FillKeepsDerived | src/synnet/utils/reconstruct_utils.py:462-473 | filling node n of a copy gives a successor: derived from the start beam, n now filled, no other template or block changed and no other reaction or leaf newly masked, less left to fill, and a filled leaf when n is a leaf |
| Decoder.BranchOf | src/synnet/utils/reconstruct_utils.py:466-470 | succeeds exactly when every copy's fill succeeds; `copies` beams, copy k filled by `fill_in` with building-block rank k |
| Decoder.BranchSuccessors | src/synnet/utils/reconstruct_utils.py:466-470 | the copies of an open derived beam are successors of it at node n |
| Decoder.Branch | src/synnet/utils/reconstruct_utils.py:466-470 | returns exactly `BranchOf`, built on fresh copies of the beam |
| Decoder.FillCopy | src/synnet/utils/reconstruct_utils.py:468-469 | returns exactly `FillOf` at node n with building-block rank k, on a deep copy of the beam |
| Decoder.WeightDrops | src/synnet/utils/reconstruct_utils.py:419-473 | replacing a beam by fewer than p beams that each have less left to fill lowers the termination weight |
| Decoder.PickedOf | src/synnet/utils/reconstruct_utils.py:453-461 | the node picked on a beam's frontier is open: unmasked, and a reaction or a leaf |
| Decoder.ExpandOf | src/synnet/utils/reconstruct_utils.py:461-473 | `top_k` beams when `top_k > 1` and the picked node is the beam's first leaf to be filled, one beam otherwise |
| Decoder.ExpandSuccessors | src/synnet/utils/reconstruct_utils.py:461-473 | the beams made of a derived beam are its successors at the picked node |
| Decoder.Expand | src/synnet/utils/reconstruct_utils.py:454-473 | returns exactly `ExpandOf`, and the node it fills is the one `pick_node` picks (`PickedOf`) |
| Decoder.PopDone | src/synnet/utils/reconstruct_utils.py:481-482 | moving a complete top beam to the output keeps the worklist invariant and lowers the weight |
| Decoder.PopWeight | src/synnet/utils/reconstruct_utils.py:461-473 | replacing the top beam by fewer than p beams with less left to fill lowers the weight |
| Decoder.PopExpanded | src/synnet/utils/reconstruct_utils.py:461-473 | replacing the top beam by its successors keeps the worklist invariant |
| Decoder.PopExpandedWeight | src/synnet/utils/reconstruct_utils.py:461-473 | replacing an incomplete top beam by at most `Width(top_k)` successors lowers the weight |
| Decoder.SuccessorFacts | src/synnet/utils/reconstruct_utils.py:462-473 | successors are derived from the start and have less left to fill; they all have a filled leaf when the old beam had one or node n is a leaf |
| Decoder.PopCount | src/synnet/utils/reconstruct_utils.py:461-473 | the stack stays within `Width(topK)` beams, because it branches only on a beam's first leaf and that beam was then alone; with more than one beam, every beam has a filled leaf |
| Decoder.StepKeeps | src/synnet/utils/reconstruct_utils.py:419-482 | a successful iteration keeps the worklist invariant, strictly lowers the weight and never shrinks the number of beams held |
| Decoder.Step | src/synnet/utils/reconstruct_utils.py:419-482 | returns exactly `StepOf`: a complete top beam moves to the output unchanged, any other is replaced by `ExpandOf` of it |
| Decoder.RunFacts | src/synnet/utils/reconstruct_utils.py:419-484 | the loop returns only complete beams derived from the start, at most max(top_k, 1), and at least one when it starts with one |
| Decoder.DecodeFacts | src/synnet/utils/reconstruct_utils.py:409-484 | a successful decoding returns between 1 and max(top_k, 1) beams (exactly one when top_k <= 1), each complete and derived from the start |
| Decoder.DecodeComplete | src/synnet/utils/reconstruct_utils.py:419-421 | an already complete start beam comes back alone |
| Decoder.WrapperDecoder | src/synnet/utils/reconstruct_utils.py:409-484 | returns exactly `DecodeOf`, the run of `StepOf` from the stack holding only the start beam, and terminates |
| Decoder.Moved | src/synnet/utils/reconstruct_utils.py:481-482 | moving the completed top beam keeps every beam derived and every output complete |
| Decoder.Replaced | src/synnet/utils/reconstruct_utils.py:462-473 | replacing the top beam by its successors keeps every beam derived; a leaf once filled stays filled |
| Decoder.LeafFilledKept | src/synnet/utils/reconstruct_utils.py:465 | beams made from a beam with a filled leaf all have a filled leaf, so the branching happens once per decoding |
| Decoder.Decode | src/synnet/utils/reconstruct_utils.py:87-110 | None exactly when `DecodeOf` fails (an exception); otherwise its beams, between 1 and max(top_k, 1) of them, each complete and derived from the start |
| Decoder.Surrogate | src/synnet/utils/reconstruct_utils.py:576-588 | the answer is 0 without beams, never below 0 and never below any beam's score, and is 0 or the score of some beam |
| Decoder.TestCorrect | src/synnet/utils/reconstruct_utils.py:487-514 | `correct` holds exactly when no visited node is wrong (a reaction node with another template, a leaf whose block's smiles differs from the reference smiles); `total_incorrect` holds exactly the visited wrong nodes, each with count 1 |
| Decoder.Tally.Update | src/synnet/utils/reconstruct_utils.py:536-540 | the new total is `Added(old total, dic, every key of dic)` |
| Decoder.Added | src/synnet/utils/reconstruct_utils.py:536-540 | the keys are the old keys plus the added ones; an added key holds its old count (0 when missing) plus its count in the new dict; every other key keeps its count |
| Decoder.AddedStep | src/synnet/utils/reconstruct_utils.py:537-540 | adding one more key of the dict is one map update of the total |
| LegacyDecoder.AncOf | scripts/reconstruct-targets.py:67-75 | the node `get_anc` stops at is a node of the skeleton at depth MAX_DEPTH or without a predecessor |
| LegacyDecoder.AncOfClimbs | scripts/reconstruct-targets.py:67-75 | `get_anc` stops k steps up, at a node at MAX_DEPTH or without a predecessor, and every node it passed had neither property |
| LegacyDecoder.GetAnc | scripts/reconstruct-targets.py:67-75 | the loop returns exactly `AncOf` |
| LegacyDecoder.Probed | scripts/reconstruct-targets.py:99-107 | template i is masked exactly when setting the node's template to i finds no existing path, and the recorded path is the one found, else empty |
| LegacyDecoder.RxnGraph.Probe | scripts/reconstruct-targets.py:98-108 | probing every template on the graph leaves the template attribute as it was and yields `Probed` |
| LegacyDecoder.MaxRxnDepth | scripts/reconstruct-targets.py:89 | the depth of the deepest reaction node: it bounds every reaction depth and is reached by one; -1 exactly when there is no reaction node |
| LegacyDecoder.LegacyMask | scripts/reconstruct-targets.py:94-131 | no mask without reaction filtering; 91 paths exactly when filtering is on and the graph is shallower than MAX_DEPTH or the node is not deeper than MAX_DEPTH |
| LegacyDecoder.Applied | scripts/reconstruct-targets.py:132-133 | the mask is applied only when some template survives it, so some template is always admitted |
| LegacyDecoder.NoJsonLeavesScoresAlone | scripts/reconstruct-targets.py:116-129 | below an ancestor whose path is not a `.json` file every template is impossible, so the mask is dropped and all 91 templates compete |
| LegacyDecoder.ComputeMask | scripts/reconstruct-targets.py:88-131 | the probing computation returns exactly `LegacyMask` |
| LegacyDecoder.ReactionFill | scripts/reconstruct-targets.py:90-144 | succeeds exactly when the mask exists and, under reaction filtering, there are 91 paths; the node gets the arg-max over the applied mask, its non-leaf children become masked, and under filtering the chosen template's path is recorded |
| LegacyDecoder.FillReaction | scripts/reconstruct-targets.py:90-144 | succeeds exactly when `ReactionFill` does (the mask exists and, under reaction filtering, there are 91 paths), and the skeleton then holds that fill |
| LegacyDecoder.DeepReactionHasNoPaths | scripts/reconstruct-targets.py:109-144 | under reaction filtering a reaction node deeper than MAX_DEPTH, in a graph that reaches MAX_DEPTH, gets no mask and an empty paths list |
| LegacyDecoder.LegacyCandidates | scripts/reconstruct-targets.py:146-162 | raises without a parent; absent without building-block filtering; when present it lists catalog positions of the slot the leaf fills |
| LegacyDecoder.LegacyLeafChoice | scripts/reconstruct-targets.py:146-165 | the block is in the catalog; rank `top_bb` among the restricted list when one exists (without a fallback when it is too short), otherwise among the whole catalog |
| LegacyDecoder.FillOf | scripts/reconstruct-targets.py:79-166 | fails when the skeleton has no reaction node (`max` of an empty list) or on a node that is neither reaction nor leaf; on a reaction node it succeeds exactly as `ReactionFill` does, with its arg-max; on a leaf exactly when `LegacyLeafChoice` does, and then only the leaf's block and mask change |
| LegacyDecoder.FillIn | scripts/reconstruct-targets.py:79-166 | succeeds exactly when `FillOf` does, and the skeleton then holds the fill `FillOf` gives |
| LegacyDecoder.PickNodesAsWritten | scripts/reconstruct-targets.py:170-188 | as written: with a reaction node on the frontier the result is the last frontier node; otherwise every frontier node |
| LegacyDecoder.PickNodesOf | scripts/reconstruct-targets.py:170-188 | corrected picker: with a reaction node on the frontier, exactly the most confident one; otherwise every frontier node; each picked node is a frontier node |
| LegacyDecoder.LastKeyIsNotBest | scripts/reconstruct-targets.py:185-186 | a two-reaction frontier whose best reaction node is the first, while the code returns the last |
| LegacyDecoder.PickNodes | scripts/reconstruct-targets.py:170-188 | corrected: equals `PickNodesOf`; with a reaction node on the frontier, exactly the most confident one; otherwise every frontier node |
| LegacyDecoder.FillCopy | scripts/reconstruct-targets.py:240-243 | returns exactly `FillOf` at node n with building-block rank k, on a fresh copy of the beam |
| LegacyDecoder.BranchOf | scripts/reconstruct-targets.py:240-244 | succeeds exactly when every copy's fill succeeds; `copies` beams, copy k filled with building-block rank k |
| LegacyDecoder.BranchLighter | scripts/reconstruct-targets.py:240-244 | the copies of an open derived beam are derived and have less left to fill |
| LegacyDecoder.Branch | scripts/reconstruct-targets.py:240-244 | returns exactly `BranchOf`, built one fresh copy at a time |
| LegacyDecoder.ExpandAtOf | scripts/reconstruct-targets.py:237-247 | `top_k` beams when `top_k > 1` and n is the beam's first leaf to be filled, one otherwise; never more than max(top_k, 1) |
| LegacyDecoder.ExpandAt | scripts/reconstruct-targets.py:237-247 | returns exactly `ExpandAtOf` |
| LegacyDecoder.ExpandNodesOf | scripts/reconstruct-targets.py:237-247 | succeeds exactly when every picked node's `ExpandAtOf` succeeds; at most max(top_k, 1) beams per picked node |
| LegacyDecoder.ExpandNodesLighter | scripts/reconstruct-targets.py:237-247 | the beams made at open nodes of a derived beam are derived and have less left to fill |
| LegacyDecoder.ExpandNodes | scripts/reconstruct-targets.py:237-247 | returns exactly `ExpandNodesOf` |
| LegacyDecoder.ExpandOf | scripts/reconstruct-targets.py:214-247 | fails exactly when the logits fail or the fill at some picked node fails; otherwise fewer than `Fanout` beams |
| LegacyDecoder.ExpandLighter | scripts/reconstruct-targets.py:214-247 | the beams made of a derived beam are derived and have less left to fill |
| LegacyDecoder.Expand | scripts/reconstruct-targets.py:202-247 | returns exactly `ExpandOf` (with the corrected picker) |
| LegacyDecoder.PopDone | scripts/reconstruct-targets.py:254-255 | moving a finished beam keeps the invariant and lowers the weight |
| LegacyDecoder.PopExpanded | scripts/reconstruct-targets.py:236-247 | replacing the top beam by its expansion keeps the invariant and lowers the weight |
| LegacyDecoder.StepKeeps | scripts/reconstruct-targets.py:202-255 | a successful iteration keeps the worklist invariant and strictly lowers the weight |
| LegacyDecoder.StepOnComplete | scripts/reconstruct-targets.py:254-255 | a complete beam alone on the stack moves to the output in one step |
| LegacyDecoder.Step | scripts/reconstruct-targets.py:202-255 | returns exactly `StepOf`: a complete top beam moves to the output, any other is replaced by `ExpandOf` of it |
| LegacyDecoder.RunFacts | scripts/reconstruct-targets.py:202-257 | the loop returns only complete beams derived from the start |
| LegacyDecoder.DecodeFacts | scripts/reconstruct-targets.py:192-257 | a successful decoding returns beams that are all complete and derived from the start |
| LegacyDecoder.DecodeComplete | scripts/reconstruct-targets.py:200-204 | an already complete start beam comes back alone |
| LegacyDecoder.WrapperDecoder | scripts/reconstruct-targets.py:192-257 | returns exactly `DecodeOf`, the run of `StepOf` from the stack holding only the start beam, and terminates |
| LegacyChecks.PyIndex | scripts/reconstruct-targets.py:294 | Python list indexing: defined exactly for -len <= i < len, and then in range |
| LegacyChecks.Reactants | scripts/reconstruct-targets.py:293 | the successors' smiles, defined exactly when every successor has one |
| LegacyChecks.ReplayChecksArity | scripts/reconstruct-targets.py:290-300 | a replay that runs to the end met only reaction nodes whose successor count matches their template's arity |
| LegacyChecks.MismatchNeverCorrect | scripts/reconstruct-targets.py:294-295 | a reaction node with the wrong number of successors means the check never answers True |
| LegacyChecks.TestCorrectPostorder | scripts/reconstruct-targets.py:288-302 | the loop's answer is the verdict of the bottom-up replay compared with the reference root smiles |
| LegacyChecks.SkeletonGood | scripts/reconstruct-targets.py:403-415 | raises exactly when some reaction node has an unknown template, or a bimolecular one with fewer than two successors; otherwise good iff at most two reactions and no bimolecular reaction mixes a leaf and an intermediate |
| LegacyChecks.SelectSkeletons | scripts/reconstruct-targets.py:400-416 | `SKELETON_INDEX` holds exactly the covered skeletons' positions, increasing |
| Programs.PairsHas | scripts/build-hash-table.py:135-139 | every combination of a and b is among the pairs |
| Programs.PairsSize | scripts/build-hash-table.py:135-139 | a pair over sizes sa and sb has 1 + sa + sb templates |
| Programs.Singles | scripts/build-hash-table.py:115-122 | one single-template program per template, in template order |
| Programs.BelowReady | scripts/build-hash-table.py:123-139 | when levels 1..size-1 exist, every template finds the levels it reads |
| Programs.GetPrograms | scripts/build-hash-table.py:113-141 | the result has exactly the levels 1..size |
| Programs.ProgramsHaveTheirSize | scripts/build-hash-table.py:113-141 | every program of level k has exactly k template nodes |
| Programs.LevelSize | scripts/build-hash-table.py:124-140 | over correctly sized levels, a newly built level holds programs of its size |
| Programs.SizeOneIsSingles | scripts/build-hash-table.py:115-122 | `get_programs(rxns, 1)` is one single-template program per template, in template order |
| Programs.ExpandAgreesWithGet | scripts/build-hash-table.py:178-202 | `expand_programs(size)` over `get_programs(size-1)` builds the same table of program values as `get_programs(size)`; the node indices `add_rxn` passes are not compared |
| Programs.LevelsStable | scripts/build-hash-table.py:113-141 | enumerating to a larger size leaves the smaller levels unchanged |
| Programs.LevelCount | scripts/build-hash-table.py:124-140 | level size has #unary·|P(size-1)| + #other·Σ_j |P(j)|·|P(size-1-j)| programs |
| Programs.TopLevel | scripts/build-hash-table.py:140 | the top level of `get_programs(size)` is the level built from the ones below |
| Programs.PairKept | scripts/build-hash-table.py:131-139 | for a bimolecular template, every combination of a program of level j with one of level size-1-j of `get_programs(size - 1)` is in level size |
| Programs.BothOrdersKept | scripts/build-hash-table.py:132-139 | both orders of two subprograms are enumerated under a bimolecular template |
| Programs.ExpandProgram | scripts/build-hash-table.py:167-175 | the new program has one template more than its subprograms together |
| Programs.ProgramTable.HasSplits | scripts/build-hash-table.py:184-186 | true exactly when levels j and size-1-j are both in the table for every j from 1 to size-2, the lookups the bimolecular branch makes before it can raise |
| Programs.ProgramTable.ExpandPrograms | scripts/build-hash-table.py:178-202 | when every template finds its levels, level size is set to the built level and nothing else changes; otherwise the table is unchanged |
| Programs.NotReady | scripts/build-hash-table.py:182-190 | a template that misses a level it reads makes the whole level fail (a KeyError) |
| Programs.ProdNonZero | scripts/build-hash-table.py:208 | the `np.prod` of lengths is non-zero exactly when no list is empty |
| Programs.GoodIffAllNonEmpty | scripts/build-hash-table.py:204-218 | a run passes exactly when every reactant list of every entry is non-empty |
| Programs.KeptMembers | scripts/build-hash-table.py:204-218 | exactly the passing runs are kept |
| Programs.KeptIdempotent | scripts/build-hash-table.py:204-218 | filtering twice is filtering once |
| Programs.KeptAppend | scripts/build-hash-table.py:204-218 | filtering distributes over concatenation, so the order is kept |
| Programs.FilterPrograms | scripts/build-hash-table.py:204-218 | the loop keeps exactly the passing runs, in order |
| Programs.IdOf | scripts/build-hash-table.py:65-73 | a filled node is labelled by its template id, else by its smiles; the code stops when it has neither |
| Programs.Subtree.WlKernel | scripts/build-hash-table.py:63-76 | fails exactly when a filled node has neither attribute; otherwise every filled node gets its own label and every other node 0, and the hash is the Weisfeiler-Lehman hash of the graph with those labels and the tree's successor edges, run for `len(tree)` iterations |
| Programs.FillIntended | scripts/build-hash-table.py:107 | the intended `fill_in` list contains exactly the subtree root and its leaves |
| Programs.NestedListHidesLeaves | scripts/build-hash-table.py:107 | as written, only the root counts as filled: a leaf other than the root is in the intended list but not in the written one |
| Programs.SubtreeLabels | scripts/build-hash-table.py:65-73 | one label per subtree node: the template id or smiles of the root and the leaves, 0 for every other node |
| Programs.LeavesOf | scripts/build-hash-table.py:106 | exactly the subtree nodes without successors |
| Programs.Templated | scripts/build-hash-table.py:100 | entry n is true exactly when node n carries a template |
| Programs.HashSubtree | scripts/build-hash-table.py:101-109 | fails exactly when a node of the subtree that is filled in (the root or a leaf) carries neither a template nor a smiles; otherwise the subtree's size and the Weisfeiler-Lehman hash of its labelled graph (`SubtreeHash`) |
| Programs.HashSt | scripts/build-hash-table.py:96-110 | fails exactly when some templated node's subtree is stuck; otherwise one `SubtreeHash` pair per templated node, in node order |
| Programs.HashNode | scripts/build-hash-table.py:99-109 | one step of the loop: fails exactly when the node is templated and its subtree stuck; otherwise appends the node's `SubtreeHash` exactly when it is templated |
| Programs.PickedAt | scripts/build-hash-table.py:99-109 | the value kept for a marked position m sits at the number of marked positions before m |
| Programs.HashesAt | scripts/build-hash-table.py:96-110 | the k-th pair `hash_st` returns belongs to the k-th templated node: the size and hash of the subtree below it |
| Programs.Bump | scripts/build-hash-table.py:318 | `table[l][h] += 1` on default dictionaries: that count grows by one, the others stay, and both keys now exist |
| Programs.CountTable | scripts/build-hash-table.py:316-318 | every count equals the number of occurrences of (length, hash) in the results, and the table has exactly the keys that occur |
| Genetic.Validate | src/ga/search.py:68-78 | passes exactly when every individual has a 0/1 fingerprint of the configured length and, unless trees are ignored, a tree of at least two nodes, at most `max_num_rxns` internal nodes and out-degrees 0..2; `max_num_rxns` may be negative, as its default -1 is, and then no tree passes |
| Genetic.BlendProperties | src/ga/search.py:149 | `np.where(mask, a, b)` takes a where the mask holds and b elsewhere; swapping the parents negates the mask; it keeps 0/1 vectors 0/1; blending a vector with itself gives it back |
| Genetic.FlipProperties | src/ga/search.py:154 | flipping keeps a 0/1 vector 0/1, changes it exactly at the masked bits, and flipping twice restores it |
| Genetic.ClipK | src/ga/search.py:146-148 | the number of bits from the first parent lies between floor(0.2·n) and 0.8·n |
| Genetic.CrossoverAndMutate | src/ga/search.py:141-160 | the child's fingerprint is the parents' blend by the drawn mask, with the drawn bits flipped when mutation fires; it has the parents' length, no fitness and no smiles, and stays 0/1 |
| Genetic.AnalogMutate | src/ga/search.py:162-176 | raises exactly when trees are used but the individual has none; keeps the fingerprint, drops fitness and smiles, and edits the tree unless trees are ignored |
| Genetic.InsertOrdered | src/ga/search.py:207 | inserting into a sorted list keeps it sorted |
| Genetic.Sort | src/ga/search.py:207 | the sorted list is a permutation of the input |
| Genetic.SortOrdered | src/ga/search.py:207 | the sorted list is ordered by fitness |
| Genetic.SortOrFail | src/ga/search.py:207 | sorting raises exactly when it has to compare an unset fitness |
| Genetic.SplitPartition | src/ga/search.py:198-206 | `filtered` and `leftover` partition the population |
| Genetic.SplitSmiles | src/ga/search.py:198-206 | `filtered` carries every smiles of the population, each exactly once |
| Genetic.SplitFirst | src/ga/search.py:201-204 | `filtered` holds exactly the first individual for each smiles |
| Genetic.CullFacts | src/ga/search.py:195-216 | the culled population has min(N, size) members, all taken from the population, sorted by descending fitness; with at least N unique smiles it is the N fittest unique individuals |
| Genetic.CullScoredSucceeds | src/ga/search.py:195-216 | with every fitness set, `cull` never raises |
| Genetic.CullPartsScored | src/ga/search.py:207-216 | the sorts and the backfill never raise when `filtered` and `leftover` are fully scored |
| Genetic.Cull | src/ga/search.py:195-216 | the loop, the sorts and the backfill compute exactly the culled population |
| Genetic.RankWeights | src/ga/search.py:129-133 | the rank weights (i+10)/Σ sum to 1 and grow strictly with the rank |
| Genetic.ChooseCouples | src/ga/search.py:123-139 | raises exactly when the population cannot be sorted, or has fewer than two members while parents are wanted; otherwise couple k is the two members at the drawn different ranks of the ascending sort |
| Genetic.PromoteExplore | src/ga/search.py:179-185 | None exactly when every candidate's similarity is at least 100; otherwise the first candidate of least similarity |
| Genetic.Truncate | src/ga/search.py:306-308 | `random.sample` raises exactly when the counter already exceeds the budget; otherwise all offspring when they fit, and else exactly the remaining number of calls, offspring k being the one at drawn position k; no offspring is taken twice |
| Genetic.SampleIncluded | src/ga/search.py:306-308 | drawing without replacement keeps a sub-multiset, so no offspring is scored twice |
| Genetic.Push | src/ga/search.py:278-279 | a bounded deque keeps at most `maxlen` values, the newest last |
| Genetic.QueueFill | src/ga/search.py:278-338 | after the seed and m scores the window holds min(patience, m+1) values |
| Genetic.Scored | src/ga/search.py:218-222 | every individual keeps its fingerprint and smiles and gets a fitness |
| Genetic.Surrogated | src/ga/search.py:317-318 | each individual as the surrogate model rewrites it, one per individual |
| Genetic.CounterDrifts | src/ga/search.py:309-310 | as written, the history grows by the population while the counter grows by the offspring, so they disagree; scoring the offspring keeps them equal |
| Genetic.ScoreStage | src/ga/search.py:285-320 | fails only in an epoch from 0 on, and always when the counter already exceeds the budget and the offspring would overrun it; keeps the window and only appends to the history; keeps the ledger and, counting the calls epoch -1 makes, the budget; epoch -1 counts the whole population and scores it unless resuming, and changes nothing when resuming |
| Genetic.EpochOf | src/ga/search.py:282-350 | fails exactly when the scoring half fails, the population fails `validate` or the evaluation, or the early-stop test reads an empty window; otherwise the scoring half's state with the mean score pushed on the window, a population that passes `validate` and the evaluation, the ledger, the history and the budget kept, and a stop exactly on the early-stop test or an exhausted budget |
| Genetic.Drawn | src/ga/search.py:306-308 | whenever the offspring overrun the remaining calls, as many distinct positions as calls remain, as `random.sample` draws them |
| Genetic.Loop | src/ga/search.py:282-350 | at most `last + 1` epochs since -1; an early end only at an epoch that returned stop, whose state is the final one; whenever an epoch ran, the final state is one an epoch returned |
| Genetic.LoopKeeps | src/ga/search.py:282-350 | a property that every epoch carries over to the next holds when the loop ends |
| Genetic.RunOf | src/ga/search.py:282-350 | at most `generations + 1` epochs since -1, fewer only when an epoch stops on the early-stop test or an exhausted budget; whenever an epoch ran, the final population passes `validate` and the evaluation |
| Genetic.RunKeepsLedger | src/ga/search.py:276-350 | the loop keeps one fingerprint and one score per counted call, and a window no longer than the patience |
| Genetic.RunGrowsHistory | src/ga/search.py:276-350 | the loop only appends to the history |
| Genetic.RunWithinBudget | src/ga/search.py:306-310 | a loop that starts within the budget, counting the calls epoch -1 makes, never counts more calls than `max_oracle_calls` |
| Genetic.NegativeLimitFailsEpoch | src/ga/search.py:75-77 | with trees in use and a negative `max_num_rxns` (default -1 at src/ga/config.py:42), every epoch raises in `validate` or before it |
| Genetic.NegativeLimitFailsRun | src/ga/search.py:281-300 | under the same configuration, `optimize` raises in epoch -1 whenever `generations >= 0` |
| Genetic.Search.constructor | src/ga/search.py:276-279 | the state `Reset` gives: no calls counted, an empty history, the window holding only the -1000 seed; the ledger holds |
| Genetic.Search.ApplyOracle | src/ga/search.py:218-222 | the population is scored and each fingerprint and fitness is appended to the history; nothing else changes |
| Genetic.Search.Score | src/ga/search.py:285-320 | succeeds exactly when `ScoreStage` of the old state does, and the state is then the one it gives |
| Genetic.Search.Epoch | src/ga/search.py:282-350 | fails exactly when `EpochOf` of the old state fails; otherwise the new state and the stop flag are the ones `EpochOf` gives, and the ledger holds |
| Genetic.Search.LoopEpoch | src/ga/search.py:282-350 | one pass of the loop body is the loop's first epoch: a failure fails the loop, a stop ends it with the new state, and otherwise the loop goes on from the new state |
| Genetic.Search.Optimize | src/ga/search.py:276-350 | resets the state, then fails exactly when `RunOf` from the reset state at epoch -1 fails; otherwise the final state and the number of epochs run are the ones `RunOf` gives, and the ledger holds |
| SkeletonAnalysis.Decimal | scripts/analyze-skeletons.py:56 | the digits of `f"{n}"`; a single digit exactly when n < 10 |
| SkeletonAnalysis.DecimalInjective | scripts/analyze-skeletons.py:56 | different counts give different suffixes |
| SkeletonAnalysis.Name | scripts/analyze-skeletons.py:54-56 | a node's name is its smiles, followed by `:c` when c earlier nodes carry the same smiles |
| SkeletonAnalysis.EarlierGrows | scripts/analyze-skeletons.py:55-58 | of two nodes with the same smiles, the later one has more earlier namesakes |
| SkeletonAnalysis.NamesDistinct | scripts/analyze-skeletons.py:53-59 | without colons in the smiles, different nodes get different names |
| SkeletonAnalysis.CountedStep | scripts/analyze-skeletons.py:55-58 | bumping the count of node i's smiles keeps `count` equal to the occurrence counts of the nodes seen |
| SkeletonAnalysis.NameOfCount | scripts/analyze-skeletons.py:54-56 | the name built from the running count is the node's `Name` |
| SkeletonAnalysis.NameNodes | scripts/analyze-skeletons.py:51-59 | `count` holds each smiles' number of occurrences; `lookup` maps every node to its name |
| SkeletonAnalysis.MultiDiGraph.AddNode | scripts/analyze-skeletons.py:57 | adds the name; edges are unchanged |
| SkeletonAnalysis.MultiDiGraph.AddEdge | scripts/analyze-skeletons.py:61 | adds both ends and one more edge, keeping parallel edges |
| SkeletonAnalysis.NamesStep | scripts/analyze-skeletons.py:53-57 | one more node adds its name to the node set |
| SkeletonAnalysis.AddNamedEdge | scripts/analyze-skeletons.py:61 | one edge between two in-range nodes leaves the node set as it was and appends that edge, between their names |
| SkeletonAnalysis.NamedEdges | scripts/analyze-skeletons.py:60-61 | one named edge per skeleton edge: edge k joins the names of skeleton edge k's ends |
| SkeletonAnalysis.AddEdges | scripts/analyze-skeletons.py:60-61 | fails iff an edge end is out of range; otherwise keeps the nodes and appends `NamedEdges` |
| SkeletonAnalysis.SkeletonToGraph | scripts/analyze-skeletons.py:49-62 | fails exactly when an edge names a missing node; the graph's nodes are exactly the names, and edge k joins the names of skeleton edge k's ends |
| SkeletonAnalysis.TotalBump | scripts/analyze-skeletons.py:123 | listing one more tree adds one to the total |
| SkeletonAnalysis.JoinKeeps | scripts/analyze-skeletons.py:120-124 | listing a tree under the first group whose key it matches keeps the first-fit shape |
| SkeletonAnalysis.StartKeeps | scripts/analyze-skeletons.py:125-126 | a tree matching no key starts a new group, keeping the first-fit shape |
| SkeletonAnalysis.StartKeepsKeyOrder | scripts/analyze-skeletons.py:125-126 | a new group's key comes after every existing key, so the groups stay in insertion order |
| SkeletonAnalysis.GroupTrees | scripts/analyze-skeletons.py:115-126 | each tree is listed exactly once, in the first group whose key it matches, or as the key of a new group; each group is in arrival order, and the groups are in the order their keys arrived (dict insertion order); total listed = number of trees |
| SkeletonAnalysis.MemberIsoKey | scripts/analyze-skeletons.py:121-123 | every listed tree is isomorphic to its group's key |
| SkeletonAnalysis.GroupsAreClasses | scripts/analyze-skeletons.py:115-126 | when isomorphism is an equivalence, two trees share a group exactly when they are isomorphic |
| Predict.ReactMask | src/synnet/utils/predict_utils.py:39 | entry i is 1 exactly when template i yields a product from (mol1, mol2), else 0 |
| Predict.OnesZero | src/synnet/utils/predict_utils.py:40 | the sum of a 0/1 mask is 0 exactly when every entry is 0 |
| Predict.MolList.CanReact | src/synnet/utils/predict_utils.py:23-40 | pops two molecules (raising on fewer than two); the mask is over (last, second last), and the count is 0 exactly when the mask is all zero |
| Predict.GetActionMask | src/synnet/utils/predict_utils.py:43-73 | the mask table for 0, 1 and 2 molecules, Merge allowed on two exactly when they can react; raises exactly on more than two; some action is always admitted; End exactly for one molecule, Add exactly for fewer than two |
| Predict.ActionMaskOf | src/synnet/utils/predict_utils.py:43-73 | the mask of a state of at most two molecules admits some action; End exactly on one molecule, Add exactly below two, Expand exactly on a non-empty state, Merge exactly on two molecules some template reacts |
| Predict.GetReactionMask | src/synnet/utils/predict_utils.py:76-121 | (None, None) exactly when no template accepts the molecule; raises exactly when some template accepts it and a bimolecular accepting template places it in neither slot; otherwise entry i is 1 exactly when template i accepts it with a partner available, and lists those partners |
| Predict.SetEmbedding | src/synnet/utils/predict_utils.py:150-179 | raises exactly for more than two molecules; otherwise the concatenation [z_mol1, z_mol2, z_target] with zero blocks for missing molecules |
| Predict.EmbeddingLayout | src/synnet/utils/predict_utils.py:164-179 | the embedding has 2·nbits + d entries, the target as its last d, and zero blocks where molecules are missing |
| Predict.MaskedArgMax | src/synnet/utils/predict_utils.py:245 | the first position of the largest entry of scores·mask |
| Predict.MaskedChoice | src/synnet/utils/predict_utils.py:245 | the first position of the largest entry of scores·mask |
| Predict.MaskedChoiceFacts | src/synnet/utils/predict_utils.py:295 | with positive scores and a 0/1 mask, the masked arg-max is admitted, or is position 0 when the mask admits nothing |
| Predict.ActionOf | src/synnet/utils/predict_utils.py:242-245 | the chosen action is one the action mask admits: End only on one molecule, Add only below two, Merge only on two |
| Predict.MaskedChoiceAdmitted | src/synnet/utils/predict_utils.py:243-245 | with positive scores, the masked arg-max is an admitted position whenever one exists |
| Predict.AllMaskedPicksFirst | src/synnet/utils/predict_utils.py:295 | with every template masked out, the masked arg-max is template 0 |
| Predict.Other | src/synnet/utils/predict_utils.py:307-308 | a state molecule other than mol1; absent exactly when every state molecule is mol1 (where `pop` raises) |
| Predict.FirstReactant | src/synnet/utils/predict_utils.py:255-267 | Add takes the k-th nearest building block, k being `k_reactant1` before the first update and 1 after; Expand and Merge take the last product |
| Predict.RoundMaskOf | src/synnet/utils/predict_utils.py:277-287 | Add and Expand take `get_reaction_mask` of the first reactant; Merge raises exactly below two molecules and otherwise always has a mask; a mask has one 0/1 entry per template |
| Predict.RoundMask | src/synnet/utils/predict_utils.py:277-283 | for Merge, raises exactly when fewer than two molecules are left and otherwise gives the `can_react` mask; masks have one entry per template |
| Predict.SecondReactant | src/synnet/utils/predict_utils.py:305-323 | Merge takes a state molecule other than mol1 and raises when there is none; Add and Expand take a building block from the available list and raise when it is empty |
| Predict.SecondReactantOf | src/synnet/utils/predict_utils.py:305-323 | Merge takes a state molecule other than mol1 and fails exactly when there is none; Add and Expand take an entry of the available list and fail exactly when it is empty |
| Predict.Reacted | src/synnet/utils/predict_utils.py:325-336 | the round records a step exactly when the template yields a product that parses |
| Predict.Chosen | src/synnet/utils/predict_utils.py:294-336 | a round that leaves the loop here does so with End exactly on one molecule; a recorded step carries the action, the first reactant, the masked arg-max template (admitted unless the mask admits none), a second reactant exactly for a bimolecular template, and the valid product of that reaction |
| Predict.ChooseAndReact | src/synnet/utils/predict_utils.py:294-336 | returns exactly `Chosen` |
| Predict.DecodeRound | src/synnet/utils/predict_utils.py:234-336 | returns exactly `RoundOf`, the round of the decoding loop as a function of the steps so far |
| Predict.RoundFacts | src/synnet/utils/predict_utils.py:234-336 | a round raises on more than two molecules; leaves with End by choice exactly when the chosen action is End; a missing mask or product leaves with the chosen action, turned into End on one molecule; a recorded step has the chosen action (never End), the k-th nearest block for Add and the last product otherwise, a template in range, and the valid product of running it |
| Predict.RoundGrowAdmitted | src/synnet/utils/predict_utils.py:277-323 | a recorded step's template is admitted by its round's mask unless that mask admits none; a bimolecular template gets a second reactant from the state for Merge and from its partners otherwise, a one-reactant template none |
| Predict.HaltFacts | src/synnet/utils/predict_utils.py:247-292 | a round that leaves the loop leaves with End exactly when it chose End or got stuck on one molecule |
| Predict.GrowFacts | src/synnet/utils/predict_utils.py:255-336 | a recorded step is an Add, Expand or Merge with a product, and an Add step uses the k rule |
| Predict.Decode | src/synnet/utils/predict_utils.py:182-343 | returns exactly `DecodeOf`; raises when max_step <= 0; returns an action 0..3 and at most max_step steps plus the End step; the action is End exactly when End was chosen or the loop got stuck with one molecule, and then the End step is the only one and is last; each Add uses the k rule |
| Predict.NextOf | src/synnet/utils/predict_utils.py:233-336 | the round played on the steps so far, with the last product as the recent molecule |
| Predict.Rounds | src/synnet/utils/predict_utils.py:233-336 | the loop with `left` rounds to go appends at most `left` steps; it runs them all exactly when no round left it (exhausted), and otherwise the round on the final steps is the one that left |
| Predict.RoundsTraced | src/synnet/utils/predict_utils.py:233-336 | the loop only appends steps its rounds make |
| Predict.DecodeTraced | src/synnet/utils/predict_utils.py:182-343 | every step of a decoded tree before the final End step is the step its round makes of the steps before it, and the End step is there exactly when the last action is End |
| Predict.TracedStep | src/synnet/utils/predict_utils.py:255-336 | each step of a traced run is an Add, Expand or Merge with a product, and an Add step takes the k-th nearest block with k = `k_reactant1` on the first step and 1 later |
| Predict.TracedActs | src/synnet/utils/predict_utils.py:255-336 | the steps of a traced run are Add, Expand or Merge steps with a product |
| Predict.TracedAdds | src/synnet/utils/predict_utils.py:259-262 | the Add steps of a traced run use the k rule |
| Predict.DecodeFacts | src/synnet/utils/predict_utils.py:182-343 | a successful decoding returns an action 0..3 and at most max_step steps plus the End step, which is last and there exactly when the action is End; Add steps use the k rule |
| Predict.AddsUseKGrow | src/synnet/utils/predict_utils.py:259-262 | recording a step keeps the k rule |
| Predict.BeamOf | src/synnet/utils/predict_utils.py:372-387 | no beam exactly when the tree has no chemicals (`np.argmax` raises and the loop moves on); otherwise the tree's first chemical of greatest similarity, that similarity, the tree and its action |
| Predict.BeamsOf | src/synnet/utils/predict_utils.py:367-387 | fails exactly when some decoding with k in 1..n fails; otherwise at most n beams |
| Predict.BeamsFacts | src/synnet/utils/predict_utils.py:367-387 | the beams kept are exactly the beams of the decodings that have one: each kept beam comes from some k in 1..n, and the beam of each such decoding is kept |
| Predict.GreedyBeams | src/synnet/utils/predict_utils.py:367-387 | returns exactly `BeamsOf` over the decodings with `k_reactant1` = 1..`beam_width`: Fail when one of them fails, otherwise one beam per tree with chemicals, in k order; at most `beam_width` beams, each holding its tree's first chemical of greatest similarity to the target |
| Predict.GreedyBest | src/synnet/utils/predict_utils.py:392-399 | raises exactly when no beam was kept; otherwise the first beam of greatest similarity |

## Left out

- Neural networks, tensors, positional encodings, RDKit chemistry, file and JSON I/O, multiprocessing, plotting, wandb logging, checkpoints and printing: these are given functions or omitted.
- Floating-point scores are modelled as integers, and similarities in the genetic search as reals.
- `Predict.WellShaped` assumes every action and template score is positive, as the `1e-10` added to the networks' probabilities makes them. With that, the chosen action is always one the action mask admits (`Predict.ActionOf`).
- The `forcing_eval` mode and the `_forcing` attribute suffix of both decoders are not part of this model.
- The mermaid visualisation branch of `wrapper_decoder` is not part of this model.
- The `get_anc` of `reconstruct_utils.py` (lines 192-200) is used only in commented-out code there. It is identical to the older one, modelled as `LegacyDecoder.GetAnc`.
- The `update` of `scripts/reconstruct-targets.py` (lines 305-309) is the same code as `Decoder.Tally.Update`.
- The 'reconstruct' mode of `test_correct` is not part of this model. Nor is its 'postorder' mode in `reconstruct_utils.py`, which reads an undefined variable.
- The `RxnPolicy` action masks at depths 1 (non-base case) and 2 are given functions of the environment.
- `Program`, `Skeleton` internals (`get_state`, `rxn_graph`, `frontier_nodes`, `get_path`) and `SyntheticTree` internals (`get_state`, `chemicals`) are given functions.
- Set iteration order: `set(sk.frontier_nodes)` is taken in the order given. `(set(state) - {mol1}).pop()` is taken as the first other molecule in state order (`Predict.Other`).
- `Predict.Decode`: `bb_dict` is assumed to invert the building-block list, so the second reactant is the available-list entry itself.
- `Predict.Decode`: `mol_fp(None)` (Expand or Merge before any product) is treated as raising.
- `Predict.Decode`: the neighbour search for the first reactant raises when k is out of range.
- `Decoder.LeafChoice`: `nn_search_list` is not part of this model. It is taken to raise when `top_bb` exceeds the catalog, so the leaf choice then fails. The restricted list is consulted only when it holds at least `top_bb` entries, as at `src/synnet/utils/reconstruct_utils.py:367`.
- `Predict.Decode`: the state embedding is not fed to the abstract networks. Its raise (more than two molecules) coincides with the `get_action_mask` raise, which the model keeps.
- `SkeletonAnalysis.NamesDistinct`: the result is stated only for smiles without a colon. Names can collide otherwise, e.g. a smiles "A:1" next to a repeated "A".
- Programs.HashSubtree: labels the subtree with the intended fill list (`Programs.FillIntended`), not the one line 107 builds (`Programs.NestedListHidesLeaves`, see Findings). `Programs.HashSt` and `Programs.HashesAt` inherit this.
- LegacyDecoder.ExpandNodes, `LegacyDecoder.Expand`, `LegacyDecoder.Step` and `LegacyDecoder.WrapperDecoder` use the corrected picker `LegacyDecoder.PickNodes`, not the as-written `LegacyDecoder.PickNodesAsWritten` (see Findings).
- `Programs.ProgramTable.ExpandPrograms`: models `expand_program` on the program value. Both `add_rxn` forms become `Bin(i, a, b)`; the node indices they pass are not modelled.
- Programs.ExpandAgreesWithGet: compares program values only. `build-hash-table.py:138` and `:171` pass different node indices to `add_rxn`, and the model keeps no node indices, so it does not say the two tables agree on them.
- `create_run_programs`, `run_program(s)` and the reaction runs behind `filter_programs`: a run is given as the lengths of its reactant lists.
- `Genetic`: `initialize`, `initialize_random`, `evaluate`/`evaluate_scores`, `promote_exploit` (Gaussian-process expected improvement) and the seeding path at `src/ga/search.py:262-273` are not part of this model. That seeding path calls `apply_oracle` with an undefined `history`.
- `Genetic`: the random draws (couples, bit masks, mutation, sampling) are parameters. The rounding of the mutation count is not modelled.
- Genetic.Search.Epoch: scores with the search's own `apply_oracle` (`src/ga/search.py:218-222`). Lines 266, 309 and 319 call a bare `apply_oracle`, which no module-level name binds, so as written the first scoring epoch raises NameError. The model follows the evident intent.
- Genetic.Search.Optimize: runs `Genetic.Search.Epoch`, so it too scores with the search's own `apply_oracle` rather than the unbound bare name of lines 309 and 319.
- Genetic.Search.Optimize: `early_stop_patience` is a `nat` here. A negative patience, for which `collections.deque(maxlen=…)` raises at `src/ga/search.py:278` before the loop, is not modelled. `max_num_rxns` and `max_oracle_calls` are unbounded integers, so their negative values are modelled.
- `Genetic.Search.Epoch`: when an epoch raises, the state it leaves half-updated is not modelled; the exception ends `optimize`.
- `SkeletonAnalysis.GroupTrees`: the dict of groups is a sequence in insertion order, and isomorphism is a given relation.

## Findings

| source | as written | input that shows it | evidently intended | confidence | as-written member | corrected member |
|---|---|---|---|---|---|---|
| scripts/reconstruct-targets.py:185-186 | `pick_node` returns `[n]`, the last key the loop visited | two frontier reaction nodes, the first with the higher confidence: the second is returned | `[best_rxn_n]`, as `reconstruct_utils.py:400` does | high; not executed | LegacyDecoder.LastKeyIsNotBest | LegacyDecoder.PickNodes |
| scripts/reconstruct-targets.py:143-144 | with reaction filtering on, `paths[rxn_id]` is read even when `paths` stayed empty | a reaction node deeper than MAX_DEPTH in a skeleton that reaches MAX_DEPTH: an IndexError | skip the path when `paths` is empty, as `reconstruct_utils.py:325` does | high; not executed | LegacyDecoder.DeepReactionHasNoPaths | Decoder.FillReaction |
| scripts/build-hash-table.py:107 | `fill_in = [node] + [bbs]` nests the leaf list as one element | any subtree with a leaf: the leaf is not `in fill_in` and gets label 0 | `[node] + bbs`, so that leaves are labelled by their smiles | medium; not executed | Programs.NestedListHidesLeaves | Programs.FillIntended |
| src/ga/search.py:309-310 | the oracle scores `population` while the counter adds `len(offsprings)` | a population of 2 and 1 offspring: the history grows by 2, the counter by 1 | score the offspring that are counted | medium; not executed | Genetic.CounterDrifts | Genetic.Search.Epoch |
