# maple-ir control-flow back end, liveness rules, flow graph and class tree

This project models four parts of the maple-ir bytecode toolkit and proves
properties about them:

- **The control-flow-graph dumper.** It lays out the basic blocks of a method
  and writes them back as code plus an exception table. The steps are:
  1. Blocks chained by fall-through (immediate) edges become bundles.
  2. Bundles that share an exception range are grouped into bunches, and
     each bunch is rebuilt as a single bundle.
  3. The bundle graph is ordered by recursive SCC decomposition.
  4. Edges are "naturalised": a broken fall-through gets a `goto`, and a
     `goto` to the next block is dropped.
  5. The layout is verified.
  6. Each exception range becomes one table entry per maximal run of
     consecutive blocks. As in the JVM `exception_table` (section 4.7.3 of
     the Java Virtual Machine Specification), the start is inclusive and the
     end exclusive, and `java/lang/Throwable` is the catch type unless the
     range has exactly one type.

  Modules: `CfgDumper` (`Dumper.dfy`), `Bundling`, `BundleOrder`,
  `Linearization`, `RangeSplit`.
- **The SSA liveness rules** (`SsaLiveness`). These are the per-block
  def / phi-def / phi-use sets and the `execute`, `flowThrough` and `merge`
  rules of the backward, phi-aware liveness analysis. Variable sets are
  values: where the Java code updates a set in place, the model returns the
  updated set.
- **The flow-graph container** (`FlowGraphs`). It holds entries, exception
  ranges and an id index. Removing a vertex cascades into the ranges. The
  `wanderAllTrails` reachability walk is proved to return exactly the blocks
  reachable without passing through the target.
- **The class inheritance tree** (`ClassTrees`). Each added class gets one
  extends edge (to its superclass, or to the `java/lang/Object` root) and one
  implements edge per interface. Edge sets list extends edges first. The
  module also models super lookup, the inheritance chain and the
  connected-classes walk.

Blocks and bundles are named by `nat` ids. A bundle or bunch is named by its
first block, because `BlockBundle` compares and hashes by its first block.
Classes are `ClassNode` values, and the class source is a map from names to
classes. Java exceptions are `Err`/`Fail` values of `Wrappers.Exception`.

Three things the source calls but does not show are parameters:
- the depth-first post-order, which need only list vertices of the graph;
  the results about the dump hold for any such list;
- the Tarjan SCC search, required to return a partition of its vertex set
  into duplicate-free components;
- the depth-first traversals used by the class tree. The connected-classes
  walk requires only that they stay within a finite set of classes, and its
  results hold for any such traversals.

## Model

| member | source | states |
|---|---|---|
| CfgDumper.Fixed | src/ir/java/org/mapleir/ir/algorithms/ControlFlowGraphDumper.java:288-305 | the edge `naturalise` makes of an edge keeps its source and destination; only the kind changes |
| CfgDumper.NaturalIffUnchanged | src/ir/java/org/mapleir/ir/algorithms/ControlFlowGraphDumper.java:290-305 | an edge is left unchanged iff it is already natural (a fall-through to the next block, or a jump elsewhere); the fixed edge is natural, and fixing it again changes nothing |
| CfgDumper.NaturaliseIdempotent | src/ir/java/org/mapleir/ir/algorithms/ControlFlowGraphDumper.java:285-307 | after `naturalise` every edge is natural; a graph whose edges are all natural is left as it is; a second run changes nothing |
| CfgDumper.LastJump | src/ir/java/org/mapleir/ir/algorithms/ControlFlowGraphDumper.java:297-302 | the backwards search finds a `goto` with none after it, or -1 when the block has no `goto` |
| CfgDumper.DropLastJump | src/ir/java/org/mapleir/ir/algorithms/ControlFlowGraphDumper.java:297-302 | removing the last `goto` leaves one statement fewer: every statement before it and every statement after it stays in place and in order, and the one gone is that `goto`; a block without a `goto` is unchanged |
| CfgDumper.RemoveLastJump | src/ir/java/org/mapleir/ir/algorithms/ControlFlowGraphDumper.java:297-302 | the `ListIterator` loop computes exactly the block without its last `goto` |
| CfgDumper.NaturaliseEnd | src/ir/java/org/mapleir/ir/algorithms/ControlFlowGraphDumper.java:286-307 | once every block of the order is processed, the edges are the naturalised edges, each block with a changed edge carries that edge's code change, and every other block keeps its code |
| CfgDumper.NaturalNotBroken | src/ir/java/org/mapleir/ir/algorithms/ControlFlowGraphDumper.java:78-98 | when every edge is natural, no block has a fall-through that misses the next block or leaves the last block, so `verify` cannot fail |
| CfgDumper.LayoutNeedsNoGoto | src/ir/java/org/mapleir/ir/algorithms/ControlFlowGraphDumper.java:290-296 | after the `linearize()` layout, every edge `naturalise` changes is an unconditional jump: no fall-through ever needs a `goto` |
| CfgDumper.AfterNaturalise | src/ir/java/org/mapleir/ir/algorithms/ControlFlowGraphDumper.java:285-307 | after the layout, `naturalise` only drops a block's last `goto` for a jump to the next block, and leaves no broken fall-through |
| CfgDumper.CatchType | src/ir/java/org/mapleir/ir/algorithms/ControlFlowGraphDumper.java:120-127 | the catch type is the range's only type, or `java/lang/Throwable` when it has none or several |
| CfgDumper.EntriesAt | src/ir/java/org/mapleir/ir/algorithms/ControlFlowGraphDumper.java:133-160 | the k-th entry starts at the first block of the k-th run and ends (exclusive) at the block after its last one, or at the terminal label after the method's last block, with the range's handler and catch type |
| CfgDumper.WalkEnd | src/ir/java/org/mapleir/ir/algorithms/ControlFlowGraphDumper.java:137-144 | at the end of the method or of the range, the open entry is the last one of the range's table |
| CfgDumper.WalkSplit | src/ir/java/org/mapleir/ir/algorithms/ControlFlowGraphDumper.java:147-159 | when the order puts foreign blocks before the next range block, closing the open entry at the next block of the order and opening one at the range block keeps the walk on course for the table |
| CfgDumper.WalkJoin | src/ir/java/org/mapleir/ir/algorithms/ControlFlowGraphDumper.java:147-159 | when the next range block is the same or the next block of the order, the open entry stays open and the walk stays on course |
| CfgDumper.PendingStep | src/ir/java/org/mapleir/ir/algorithms/ControlFlowGraphDumper.java:146-159 | the entries still to come either keep the open run (a gap of at most one position) or consist of the closed run followed by the entries from the next position |
| CfgDumper.WalkRange | src/ir/java/org/mapleir/ir/algorithms/ControlFlowGraphDumper.java:133-160 | the `for (;;)` walk writes at least one entry, and for a range within the order it writes exactly the range's table |
| CfgDumper.DumpRange | src/ir/java/org/mapleir/ir/algorithms/ControlFlowGraphDumper.java:118-161 | an empty range fails with an index error, and only an empty range does; otherwise at least one entry is written; for a range within the order the entries are one per maximal run of consecutive positions of the range sorted by position |
| CfgDumper.DumpRangeList | src/ir/java/org/mapleir/ir/algorithms/ControlFlowGraphDumper.java:71-73 | the table is each range's entries in range order; the dump fails iff some range is empty |
| CfgDumper.EmitMarks | src/ir/java/org/mapleir/ir/algorithms/ControlFlowGraphDumper.java:58-63 | the written code carries each block's label exactly once, in layout order, and no other label |
| CfgDumper.Dumper.constructor | src/ir/java/org/mapleir/ir/algorithms/ControlFlowGraphDumper.java:31-34 | the dumper holds the graph and the blocks' code, with nothing laid out or written yet |
| CfgDumper.Dumper.Naturalise | src/ir/java/org/mapleir/ir/algorithms/ControlFlowGraphDumper.java:285-307 | the edges become their naturalised forms; exactly the blocks owning a changed edge change their code (a `goto` appended, or the last `goto` removed); the graph's blocks, entries and ranges are unchanged |
| CfgDumper.Dumper.FixEdge | src/ir/java/org/mapleir/ir/algorithms/ControlFlowGraphDumper.java:289-305 | handling one edge keeps the naturalise invariant: the edge is replaced by its fixed form, and its block's code gets the matching change |
| CfgDumper.Dumper.Verify | src/ir/java/org/mapleir/ir/algorithms/ControlFlowGraphDumper.java:78-98 | passes iff no fall-through leaves its block for anything but the next block of the order; otherwise fails at the first such block with "Trailing" (last block) or "Illegal flow" |
| CfgDumper.Dumper.Linearize | src/ir/java/org/mapleir/ir/algorithms/ControlFlowGraphDumper.java:201-283 | fails iff the graph does not have exactly one entry (illegal state) or some range has an unbundled block after a bundled one (null dereference); otherwise the order has no repeats, holds exactly the blocks on fall-through chains from reached heads, and puts every fall-through target right after its source |
| CfgDumper.Dumper.EmitCode | src/ir/java/org/mapleir/ir/algorithms/ControlFlowGraphDumper.java:58-65 | the code written is each block's label and statements in layout order, then the terminal label |
| CfgDumper.Dumper.DumpRanges | src/ir/java/org/mapleir/ir/algorithms/ControlFlowGraphDumper.java:70-73 | the table gains every range's entries in range order; fails iff some range is empty |
| CfgDumper.Dumper.Dump | src/ir/java/org/mapleir/ir/algorithms/ControlFlowGraphDumper.java:36-76 | fails exactly as `linearize()` does, then on an empty range; the graph's blocks, entries, ranges and id index never change; when `linearize()` fails, the order, the code and the edges are as they were and nothing is written; once it has passed: the layout has no repeats and holds exactly the bundled blocks, the edges are naturalised, a block with a changed edge lost only its last `goto` and every other block keeps its code, the code written is the blocks in order plus the terminal label, and no fall-through is broken; on success the table is the ranges' entries in range order |
| RangeSplit.IndexOf | src/ir/java/org/mapleir/ir/algorithms/ControlFlowGraphDumper.java:134 | `order.indexOf` gives a position holding the block, or -1 exactly when the block is absent |
| RangeSplit.IndexOfFirst | src/ir/java/org/mapleir/ir/algorithms/ControlFlowGraphDumper.java:148 | the position found is the first one holding the block |
| RangeSplit.IndexOfDistinct | src/ir/java/org/mapleir/ir/algorithms/ControlFlowGraphDumper.java:148 | in an order without repeats, the position of its i-th block is i |
| RangeSplit.Positions | src/ir/java/org/mapleir/ir/algorithms/ControlFlowGraphDumper.java:131 | one position per range block, each being that block's `indexOf` in the order |
| RangeSplit.Insert | src/ir/java/org/mapleir/ir/algorithms/ControlFlowGraphDumper.java:131 | inserting into a list sorted by position keeps it sorted and adds exactly the one block |
| RangeSplit.SortByPosition | src/ir/java/org/mapleir/ir/algorithms/ControlFlowGraphDumper.java:130-131 | the sorted range is sorted by position and is a permutation of the range |
| RangeSplit.SortedPositions | src/ir/java/org/mapleir/ir/algorithms/ControlFlowGraphDumper.java:131 | the positions of a range sorted by position never decrease |
| RangeSplit.Runs | src/ir/java/org/mapleir/ir/algorithms/ControlFlowGraphDumper.java:135-160 | there is at least one run; the first starts at the first position and the last ends at the last position |
| RangeSplit.RunsShape | src/ir/java/org/mapleir/ir/algorithms/ControlFlowGraphDumper.java:146-154 | each run ends no earlier than it starts, and consecutive runs are separated by a gap of more than one position, so the runs are maximal |
| RangeSplit.RunsCover | src/ir/java/org/mapleir/ir/algorithms/ControlFlowGraphDumper.java:135-160 | a position lies in some run iff it is a position of the range, so the entries cover exactly the range's blocks |
| RangeSplit.OneRunIffContiguous | src/ir/java/org/mapleir/ir/algorithms/ControlFlowGraphDumper.java:140-154 | a range gives a single entry iff its sorted positions never jump by more than one |
| BundleOrder.InducedSubgraph | src/ir/java/org/mapleir/ir/algorithms/ControlFlowGraphDumper.java:338-348 | the subgraph has exactly the given vertices and exactly the edges of the graph with both ends among them |
| BundleOrder.InducedTwice | src/ir/java/org/mapleir/ir/algorithms/ControlFlowGraphDumper.java:164-165 | inducing on a subset of an induced subgraph is inducing on the full graph, so each recursion level sees the full graph's edges among its bundles |
| BundleOrder.ChooseEntry | src/ir/java/org/mapleir/ir/algorithms/ControlFlowGraphDumper.java:186-199 | the entry is a member of the component; it has no predecessor inside the component whenever such a member exists, and otherwise it is the component's first member |
| BundleOrder.FirstCandidate | src/ir/java/org/mapleir/ir/algorithms/ControlFlowGraphDumper.java:189-198 | the scan from position i returns a candidate without an internal predecessor if one lies at or after i, and the component's first member otherwise |
| BundleOrder.Linearize | src/ir/java/org/mapleir/ir/algorithms/ControlFlowGraphDumper.java:164-184 | the recursive SCC ordering emits every given bundle exactly once and nothing else |
| BundleOrder.Flatten | src/ir/java/org/mapleir/ir/algorithms/ControlFlowGraphDumper.java:178-182 | ordering the components from the i-th one on emits, without repeats, exactly the bundles of those components |
| Bundling.ChainMeet | src/ir/java/org/mapleir/ir/algorithms/ControlFlowGraphDumper.java:212-225 | two fall-through chains that share a block share it at the same position and start at the same head |
| Bundling.ChainDistinct | src/ir/java/org/mapleir/ir/algorithms/ControlFlowGraphDumper.java:221-225 | a fall-through chain has no repeated block |
| Bundling.NextNotInChain | src/ir/java/org/mapleir/ir/algorithms/ControlFlowGraphDumper.java:221-225 | the block a chain falls through to next is not already on it, so the chain walk ends |
| Bundling.FullChainUnique | src/ir/java/org/mapleir/ir/algorithms/ControlFlowGraphDumper.java:220-225 | a head has only one full chain, so a bundle is determined by the fall-through edges alone |
| Bundling.GetImmediate | src/ir/java/org/mapleir/ir/algorithms/ControlFlowGraphDumper.java:224 | `getImmediate()` gives a block iff a fall-through leaves `b`, and then it is that fall-through's target |
| Bundling.BuildChain | src/ir/java/org/mapleir/ir/algorithms/ControlFlowGraphDumper.java:220-225 | the bundle is the full fall-through chain from the head, and each of its blocks is mapped to the head |
| Bundling.BundledAdd | src/ir/java/org/mapleir/ir/algorithms/ControlFlowGraphDumper.java:212-229 | the chain of a head without a bundle shares no block with existing bundles, so adding it keeps every block in exactly one bundle |
| Bundling.BuildBundles | src/ir/java/org/mapleir/ir/algorithms/ControlFlowGraphDumper.java:210-230 | the bundles are headed by exactly the post-order blocks nothing falls into, each holds its head's full chain, and every block is in at most one bundle |
| Bundling.MergeBunches | src/ir/java/org/mapleir/ir/algorithms/ControlFlowGraphDumper.java:244-249 | bunch b's bundles are appended to bunch a, each now maps to a, b's list is dropped, and the bunches stay a partition |
| Bundling.GroupRange | src/ir/java/org/mapleir/ir/algorithms/ControlFlowGraphDumper.java:234-252 | grouping one range fails with a null dereference iff an unbundled block follows a bundled one; otherwise all its bundled blocks end up in one bunch and earlier groupings are kept |
| Bundling.GroupByRanges | src/ir/java/org/mapleir/ir/algorithms/ControlFlowGraphDumper.java:232-253 | fails iff some range has an unbundled block after a bundled one; otherwise the bunches partition the bundles and the bundled blocks of each range share one bunch |
| Bundling.ConcatMember | src/ir/java/org/mapleir/ir/algorithms/ControlFlowGraphDumper.java:262 | a block is in the concatenated bunch iff it is in one of its bundles |
| Bundling.ConcatDistinct | src/ir/java/org/mapleir/ir/algorithms/ControlFlowGraphDumper.java:262 | concatenating distinct, disjoint, repeat-free bundles gives a list without repeats |
| Bundling.ConcatAdjacent | src/ir/java/org/mapleir/ir/algorithms/ControlFlowGraphDumper.java:262 | two neighbours inside a bundle are neighbours in the concatenation, so each bundle keeps its internal order |
| Bundling.ConcatBundles | src/ir/java/org/mapleir/ir/algorithms/ControlFlowGraphDumper.java:261-262 | `bunch.addAll` over the bunch's bundles yields their blocks, bundle after bundle |
| Bundling.MapAll | src/ir/java/org/mapleir/ir/algorithms/ControlFlowGraphDumper.java:263-264 | every block of the rebuilt bundle is mapped to it, and all other mappings are kept |
| Bundling.BunchBlocks | src/ir/java/org/mapleir/ir/algorithms/ControlFlowGraphDumper.java:255-265 | the blocks of a rebuilt bunch are exactly the blocks whose bundle belongs to that bunch |
| Bundling.RebuildBunch | src/ir/java/org/mapleir/ir/algorithms/ControlFlowGraphDumper.java:258-264 | rebuilding one unvisited bunch adds exactly that bunch's bundle and maps its blocks to it |
| Bundling.Rebuild | src/ir/java/org/mapleir/ir/algorithms/ControlFlowGraphDumper.java:255-265 | every bunch is rebuilt into one bundle made of its bundles' blocks in bunch order, and every bundled block maps to the bundle of its bunch |
| Linearization.BundledIff | src/ir/java/org/mapleir/ir/algorithms/ControlFlowGraphDumper.java:210-230 | a block gets a bundle iff it lies on a full fall-through chain from a post-order head |
| Linearization.InBundleIsVertex | src/ir/java/org/mapleir/ir/algorithms/ControlFlowGraphDumper.java:211-225 | a bundled block is a block of the graph |
| Linearization.NullIffBreaks | src/ir/java/org/mapleir/ir/algorithms/ControlFlowGraphDumper.java:233-253 | grouping meets a missing bundle after a present one exactly when some range breaks |
| Linearization.InNewBundle | src/ir/java/org/mapleir/ir/algorithms/ControlFlowGraphDumper.java:255-265 | a block is in a rebuilt bundle iff it maps to that bundle |
| Linearization.NewBundleDistinct | src/ir/java/org/mapleir/ir/algorithms/ControlFlowGraphDumper.java:261-264 | a rebuilt bundle holds no block twice |
| Linearization.OrderDistinct | src/ir/java/org/mapleir/ir/algorithms/ControlFlowGraphDumper.java:279-282 | the final block order holds no block twice |
| Linearization.OrderMembers | src/ir/java/org/mapleir/ir/algorithms/ControlFlowGraphDumper.java:279-282 | the final block order holds exactly the bundled blocks |
| Linearization.OrderFacts | src/ir/java/org/mapleir/ir/algorithms/ControlFlowGraphDumper.java:201-283 | the order has no repeats, holds exactly the bundled blocks, and every fall-through out of one of its blocks reaches the next block |
| Linearization.Layout | src/ir/java/org/mapleir/ir/algorithms/ControlFlowGraphDumper.java:255-282 | the rebuilt, SCC-ordered, flattened layout has no repeats, holds exactly the bundled blocks, and keeps every fall-through in place |
| Linearization.BuildBundleGraph | src/ir/java/org/mapleir/ir/algorithms/ControlFlowGraphDumper.java:267-277 | the bundle graph has an edge between the bundles of the two ends of every non-fall-through edge out of a post-order block, and no other edge; it contains the entry's bundle |
| Linearization.AddBlockEdges | src/ir/java/org/mapleir/ir/algorithms/ControlFlowGraphDumper.java:271-276 | the inner loop adds exactly the images of one block's non-fall-through edges |
| SsaLiveness.ScanBlock | src/main/java/org/mapleir/stdlib/ir/transform/ssa/SSALivenessAnalyser.java:42-64 | one block's scan yields its non-phi copy targets, its phi targets, and the variables read by its phi arguments |
| SsaLiveness.ScanAll | src/main/java/org/mapleir/stdlib/ir/transform/ssa/SSALivenessAnalyser.java:41-66 | every block gets exactly its def, phi-def and phi-use sets |
| SsaLiveness.ExecuteBlock | src/main/java/org/mapleir/stdlib/ir/transform/ssa/SSALivenessAnalyser.java:150-178 | the statement walk leaves the transfer result: phi targets are added, and so are variables read by non-phi statements that the block does not define |
| SsaLiveness.SsaLivenessAnalyser.constructor | src/main/java/org/mapleir/stdlib/ir/transform/ssa/SSALivenessAnalyser.java:27-33 | the analyser holds the blocks' code, with empty def, phi-def and phi-use maps |
| SsaLiveness.SsaLivenessAnalyser.Init | src/main/java/org/mapleir/stdlib/ir/transform/ssa/SSALivenessAnalyser.java:36-69 | afterwards every block's def, phi-def and phi-use sets match its statements |
| SsaLiveness.SsaLivenessAnalyser.Execute | src/main/java/org/mapleir/stdlib/ir/transform/ssa/SSALivenessAnalyser.java:135-179 | live-in is (in ∪ out) minus the block's non-phi definitions, plus phi targets, plus non-phi reads that the block does not define |
| SsaLiveness.SsaLivenessAnalyser.FlowThrough | src/main/java/org/mapleir/stdlib/ir/transform/ssa/SSALivenessAnalyser.java:88-133 | the source's out-set after propagating across the edge, in terms of the destination's live-in, phi-defs and phi-uses and the source's defs |
| SsaLiveness.SsaLivenessAnalyser.Merge | src/main/java/org/mapleir/stdlib/ir/transform/ssa/SSALivenessAnalyser.java:81-86 | the merged set contains every element of `srcOut`, including ones the propagation removed, and is the propagation of `out ∪ srcOut` plus `srcOut` |
| SsaLiveness.SsaLivenessAnalyser.FlowException | src/main/java/org/mapleir/stdlib/ir/transform/ssa/SSALivenessAnalyser.java:191-195 | always fails with an unsupported-operation error |
| SsaLiveness.PropagateLiveIn | src/main/java/org/mapleir/stdlib/ir/transform/ssa/SSALivenessAnalyser.java:94-100 | a destination live-in variable is removed from the out-set when a destination phi defines it, and added otherwise |
| SsaLiveness.AddDefinedPhiUses | src/main/java/org/mapleir/stdlib/ir/transform/ssa/SSALivenessAnalyser.java:128-132 | a destination phi use joins the out-set only when the source defines it |
| SsaLiveness.StatesEqual | src/main/java/org/mapleir/stdlib/ir/transform/ssa/SSALivenessAnalyser.java:181-184 | two states are equal iff they have the same members |
| SsaLiveness.CopyState | src/main/java/org/mapleir/stdlib/ir/transform/ssa/SSALivenessAnalyser.java:186-189 | the copy holds both sets and nothing else |
| SsaLiveness.NewState | src/main/java/org/mapleir/stdlib/ir/transform/ssa/SSALivenessAnalyser.java:71-79 | fresh states and the entry state are empty |
| SsaLiveness.TransferAppend | src/main/java/org/mapleir/stdlib/ir/transform/ssa/SSALivenessAnalyser.java:150-177 | appending a statement adds only its phi target (never its phi arguments), or else its reads that the block does not define |
| SsaLiveness.LiveInIff | src/main/java/org/mapleir/stdlib/ir/transform/ssa/SSALivenessAnalyser.java:141-178 | a variable is live into a block iff it is a phi target there, or no non-phi copy of the block defines it and it is live out, already live in, or read by a non-phi statement |
| SsaLiveness.FlowIff | src/main/java/org/mapleir/stdlib/ir/transform/ssa/SSALivenessAnalyser.java:94-132 | a variable reaches the source's out-set iff it is live into the destination and not phi-defined there, or it is a phi use the source defines, or it was already in the out-set and not removed as a destination phi target |
| SsaLiveness.DiamondExample | src/main/java/org/mapleir/stdlib/ir/transform/ssa/SSALivenessAnalyser.java:88-179 | in a diamond joined by a phi, only the phi target is live into the join, and each phi argument is live out of its defining predecessor alone |
| FlowGraphs.WithoutNode | src/main/java/org/mapleir/stdlib/collections/graph/flow/FlowGraph.java:83 | the range loses exactly `v` from its protected blocks and keeps its handler and types |
| FlowGraphs.PruneRanges | src/main/java/org/mapleir/stdlib/collections/graph/flow/FlowGraph.java:80-87 | pruning never lengthens the range list |
| FlowGraphs.PruneClean | src/main/java/org/mapleir/stdlib/collections/graph/flow/FlowGraph.java:80-87 | no range left is empty or still protects `v` |
| FlowGraphs.PruneMembers | src/main/java/org/mapleir/stdlib/collections/graph/flow/FlowGraph.java:80-87 | the ranges left are exactly the nonempty shrunk input ranges |
| FlowGraphs.PruneKeepsShrunkRange | src/main/java/org/mapleir/stdlib/collections/graph/flow/FlowGraph.java:80-87 | a range protecting some other block survives, shrunk, at its place relative to the ranges around it |
| FlowGraphs.PruneSplit | src/main/java/org/mapleir/stdlib/collections/graph/flow/FlowGraph.java:80-87 | pruning a list is pruning its two halves, so the surviving ranges keep their order |
| FlowGraphs.Prune | src/main/java/org/mapleir/stdlib/collections/graph/flow/FlowGraph.java:80-87 | the `ListIterator` loop leaves exactly the pruned range list |
| FlowGraphs.RemoveFirst | src/main/java/org/mapleir/stdlib/collections/graph/flow/FlowGraph.java:45 | `List.remove(Object)` drops one occurrence when there is one and changes nothing otherwise |
| FlowGraphs.RemoveFirstSplits | src/main/java/org/mapleir/stdlib/collections/graph/flow/FlowGraph.java:45 | when position i holds the element and no earlier position does, `List.remove(Object)` cuts out exactly position i: everything before it and everything after it stays, in order |
| FlowGraphs.FlowGraph.constructor | src/main/java/org/mapleir/stdlib/collections/graph/flow/FlowGraph.java:16-20 | a new graph has no vertices, edges, entries, ranges or ids |
| FlowGraphs.FlowGraph.GetBlock | src/main/java/org/mapleir/stdlib/collections/graph/flow/FlowGraph.java:30-32 | gives the block registered under the id, or nothing when none is |
| FlowGraphs.FlowGraph.EdgesAt | src/main/java/org/mapleir/stdlib/collections/graph/flow/FlowGraph.java:110 | exactly the edges leaving (forward) or entering (reverse) the block |
| FlowGraphs.FlowGraph.AddVertex | src/main/java/org/mapleir/stdlib/collections/graph/flow/FlowGraph.java:58-62 | the block becomes a vertex registered under its id, so `getBlock` of its id returns it; nothing else changes |
| FlowGraphs.FlowGraph.AddEdge | src/main/java/org/mapleir/stdlib/collections/graph/flow/FlowGraph.java:64-68 | `v` becomes a vertex registered under its id and the edge is added; entries and ranges stay |
| FlowGraphs.FlowGraph.RemoveEdge | src/ir/java/org/mapleir/ir/algorithms/ControlFlowGraphDumper.java:292 | the edge is removed and nothing else changes |
| FlowGraphs.FlowGraph.AddRange | src/main/java/org/mapleir/stdlib/collections/graph/flow/FlowGraph.java:38-42 | a range is appended only when no equal range is listed, so no duplicate is ever created |
| FlowGraphs.FlowGraph.RemoveRange | src/main/java/org/mapleir/stdlib/collections/graph/flow/FlowGraph.java:44-46 | the first equal range is removed, and nothing else changes |
| FlowGraphs.FlowGraph.GetRanges | src/main/java/org/mapleir/stdlib/collections/graph/flow/FlowGraph.java:48-50 | gives the graph's current range list, in order |
| FlowGraphs.FlowGraph.Clear | src/main/java/org/mapleir/stdlib/collections/graph/flow/FlowGraph.java:52-56 | the vertices, edges and id index are emptied; entries and ranges stay |
| FlowGraphs.FlowGraph.Replace | src/main/java/org/mapleir/stdlib/collections/graph/flow/FlowGraph.java:70-76 | `n` becomes an entry whenever `old` was one, takes `old`'s place among the vertices, and takes over its edges |
| FlowGraphs.FlowGraph.RemoveVertex | src/main/java/org/mapleir/stdlib/collections/graph/flow/FlowGraph.java:78-92 | the ranges are pruned of `v`; `v` leaves the entries, vertices and id index; every edge touching `v` is removed |
| FlowGraphs.FlowGraph.Expand | src/main/java/org/mapleir/stdlib/collections/graph/flow/FlowGraph.java:110-119 | one step queues and marks every unvisited neighbour other than `to`, each with a recorded trail, and leaves the step's block closed |
| FlowGraphs.FlowGraph.WalkComplete | src/main/java/org/mapleir/stdlib/collections/graph/flow/FlowGraph.java:102-125 | a set that holds `from`, is closed under steps avoiding `to`, and has a trail to each member is exactly the set of blocks reachable avoiding `to` |
| FlowGraphs.FlowGraph.WanderAllTrails | src/main/java/org/mapleir/stdlib/collections/graph/flow/FlowGraph.java:102-125 | the result contains `from`, contains `to` only when `to == from`, and holds exactly the blocks reachable from `from` by a walk that avoids `to` and follows exception edges only when asked |
| FlowGraphs.FlowGraph.WanderAllTrailsDirected | src/main/java/org/mapleir/stdlib/collections/graph/flow/FlowGraph.java:94-96 | the three-argument overload follows exception edges |
| FlowGraphs.FlowGraph.WanderForward | src/main/java/org/mapleir/stdlib/collections/graph/flow/FlowGraph.java:98-100 | the two-argument overload walks forward and skips exception edges |
| ClassTrees.FindClass | org.mapleir.app-services/src/main/java/org/mapleir/app/service/ClassTree.java:131-146 | gives the class the source knows under the name, and a class-not-found error iff it knows none |
| ClassTrees.ImplementsEdgesMembers | org.mapleir.app-services/src/main/java/org/mapleir/app/service/ClassTree.java:164-167 | the interface edges of a class lead from it to exactly the named interfaces |
| ClassTrees.LinkInterfaces | org.mapleir.app-services/src/main/java/org/mapleir/app/service/ClassTree.java:164-167 | one implements edge per interface up to the first unknown name, which fails the call with its name |
| ClassTrees.Ordered | org.mapleir.app-services/src/main/java/org/mapleir/app/service/ClassTree.java:248-255 | the listing holds exactly the set's edges, without repeats, with every extends edge before every implements edge |
| ClassTrees.ClassTree.constructor | org.mapleir.app-services/src/main/java/org/mapleir/app/service/ClassTree.java:26-30 | the tree starts as the `java/lang/Object` root alone, with no edges |
| ClassTrees.ClassTree.SuperTarget | org.mapleir.app-services/src/main/java/org/mapleir/app/service/ClassTree.java:160 | the extends target is the looked-up superclass, or the root when the class names none |
| ClassTrees.ClassTree.AddVertex | org.mapleir.app-services/src/main/java/org/mapleir/app/service/ClassTree.java:148-171 | re-adding a class gives false and changes nothing; a new class becomes a vertex and gets exactly one extends edge and one implements edge per interface; an unknown name fails, keeping what was added; the root never gets an outgoing edge |
| ClassTrees.SingleExtends | org.mapleir.app-services/src/main/java/org/mapleir/app/service/ClassTree.java:158-162 | a class has at most one extends edge, and it leads to its superclass (the root when it names none); a class whose superclass is unknown has none, and so has the root |
| ClassTrees.ClassTree.AddEdge | org.mapleir.app-services/src/main/java/org/mapleir/app/service/ClassTree.java:173-176 | always fails with an unsupported-operation error |
| ClassTrees.ClassTree.RemoveEdge | org.mapleir.app-services/src/main/java/org/mapleir/app/service/ClassTree.java:178-181 | always fails with an unsupported-operation error |
| ClassTrees.ClassTree.NewEdges | org.mapleir.app-services/src/main/java/org/mapleir/app/service/ClassTree.java:158-167 | the edges added for a new class all leave it; its one extends edge leads to its superclass, and there is none when the superclass is unknown |
| ClassTrees.ClassTree.AddFailure | org.mapleir.app-services/src/main/java/org/mapleir/app/service/ClassTree.java:158-167 | adding a new class fails with a class-not-found error exactly when its superclass or one of its interfaces is unknown |
| ClassTrees.ClassTree.Touch | org.mapleir.app-services/src/main/java/org/mapleir/app/service/ClassTree.java:184-188 | a class not yet in the tree is added first, with the edges `addVertex` gives it, and failing as `addVertex` fails; a member changes nothing |
| ClassTrees.ClassTree.GetEdges | org.mapleir.app-services/src/main/java/org/mapleir/app/service/ClassTree.java:183-190 | after the implicit add (with its new edges and its failure), gives exactly the edges out of the class, extends edges first and without repeats; a member never fails |
| ClassTrees.ClassTree.GetReverseEdges | org.mapleir.app-services/src/main/java/org/mapleir/app/service/ClassTree.java:192-199 | after the implicit add (with its new edges and its failure), gives exactly the edges into the class, extends edges first and without repeats; a member never fails |
| ClassTrees.ClassTree.RecordedSuper | org.mapleir.app-services/src/main/java/org/mapleir/app/service/ClassTree.java:122-129 | the superclass the edges record for a class is the target of its extends edge, and that is its superclass |
| ClassTrees.ClassTree.GetSuper | org.mapleir.app-services/src/main/java/org/mapleir/app/service/ClassTree.java:122-129 | none for the root; for a class of the tree, its recorded superclass, or the "Couldn't find parent class?" illegal-state error when it has no extends edge; a new class is added first and gives its superclass unless that add fails, with the add's error |
| ClassTrees.ClassTree.SuperChainLinks | org.mapleir.app-services/src/main/java/org/mapleir/app/service/ClassTree.java:57-70 | the chain from a class starts at it, links each element to the next by an extends edge, holds only classes of the tree and never the root, and stops short of its length only at the root |
| ClassTrees.ClassTree.ChainNext | org.mapleir.app-services/src/main/java/org/mapleir/app/service/ClassTree.java:64-67 | one step of the chain iterator is `getSuper` of a class other than the root: for a class of the tree, its recorded superclass, else the "Couldn't find parent class?" error, with the edges unchanged; for a new class, the edges `addVertex` gives it and the error of adding it, else its superclass; on a known chain the tree is unchanged and the chain stays known one step less |
| ClassTrees.ClassTree.ChainUnique | org.mapleir.app-services/src/main/java/org/mapleir/app/service/ClassTree.java:57-70 | with one extends edge per class, the known chain is the only sequence that starts at the class, follows extends edges, avoids the root and stops short only at the root |
| ClassTrees.ClassTree.InheritanceChain | org.mapleir.app-services/src/main/java/org/mapleir/app/service/ClassTree.java:57-70 | up to n elements: the class, then each element's superclass, never the root; a chain stopping short ends at a class whose super is the root (empty only for the root); when the chain's classes are in the tree with extends edges, it is exactly `SuperChain` and nothing changes; it fails only when the `getSuper` step on the last class asked fails (a class of the tree without a recorded superclass, or a new class whose addition fails), with that step's error, after the earlier classes linked up as on success; it adds exactly the classes it asks to the tree, and exactly the edges `addVertex` gives those of them that were new |
| ClassTrees.ClassTree.GetAllParents | org.mapleir.app-services/src/main/java/org/mapleir/app/service/ClassTree.java:89-94 | empty for a class not in the tree, the traversal otherwise |
| ClassTrees.ClassTree.GetAllChildren | org.mapleir.app-services/src/main/java/org/mapleir/app/service/ClassTree.java:96-102 | empty for a class not in the tree, the traversal otherwise |
| ClassTrees.BranchExpand | org.mapleir.app-services/src/main/java/org/mapleir/app/service/ClassTree.java:113-117 | finding a new non-root class and queueing its parents and children keeps the walk invariant |
| ClassTrees.ExpandTrails | org.mapleir.app-services/src/main/java/org/mapleir/app/service/ClassTree.java:113-117 | recording for each newly queued class the path to the expanded class extended by it keeps every recorded path a path of the walk whose earlier classes are found |
| ClassTrees.ClosedHoldsPath | org.mapleir.app-services/src/main/java/org/mapleir/app/service/ClassTree.java:108-120 | a set holding the start class and closed under expanding its non-root classes holds every class reached from the start |
| ClassTrees.BranchDone | org.mapleir.app-services/src/main/java/org/mapleir/app/service/ClassTree.java:108-120 | when the queue is empty, the found classes hold the start, are closed under expanding non-root classes, and each other one is in the expansion of a found non-root class |
| ClassTrees.BranchExact | org.mapleir.app-services/src/main/java/org/mapleir/app/service/ClassTree.java:108-120 | when the queue is empty, the found classes are exactly those reached from the start through non-root classes |
| ClassTrees.Branches | org.mapleir.app-services/src/main/java/org/mapleir/app/service/ClassTree.java:108-120 | the result holds the start class; every expansion of a found non-root class is found; every other found class was queued by such an expansion; a class is found iff a path of expansions through non-root classes leads to it from the start |
| ClassTrees.ClassTree.GetAllBranches | org.mapleir.app-services/src/main/java/org/mapleir/app/service/ClassTree.java:108-120 | the result is exactly the classes reached from `cn` by repeatedly taking parents and children of classes other than the root (the root is never expanded): it holds `cn`, is closed under that expansion, and holds nothing unreachable |

## Left out

- The ASM output (`visitCode`, `visitEnd`, `visitLabel`, `toCode`, `visitTryCatchBlock`, clearing the method node, `resetLabel`) is modelled as an item list of labels and statements plus a list of `(start, end, handler, type)` entries; the handler label is the handler block's label.
- The console warnings, the debug `printOrdering`, and the unused comparison of the layout with the vertex order in `dump` are left out: they print or do nothing.
- Tarjan's SCC search, `SimpleDfs` and the `FastDirectedGraph` base class are not part of this model. The search and the post-order are parameters: the search must return a partition of its vertices into repeat-free components. The base graph is a vertex set plus an edge set; `getEdges` of a block that is not a vertex is empty.
- Hash iteration order is replaced by a free choice (`:|`) where the source iterates a hash set or map: the bunch entries in the rebuilding step, the edge snapshot in `naturalise` and `verify`, and the entry block. `chooseEntry` takes the first candidate in component order.
- CfgDumper.Dumper.Naturalise: requires at most one fall-through or unconditional jump out of each block, an invariant of the IR's control-flow graphs that the source relies on without checking. It also requires every block to be registered under its own id, as `addVertex` leaves it; the source's `addEdge` re-registers the block's id (FlowGraph.java:64-68), which then changes nothing, and a graph whose id index has drifted from its blocks is not modelled.
- CfgDumper.Dumper.Linearize: requires each block to have at most one fall-through successor and predecessor, the IR invariant behind `getImmediate` and `getIncomingImmediateEdge`.
- CfgDumper.Dumper.Dump: also requires every post-order block and edge target to be a vertex of the graph, and every block registered under its own id (as for `naturalise`). When a range is empty the dump fails after `naturalise` and the code writing; the partial exception table written before that range is not stated. The `verify` step is proved to pass after `naturalise`, so its failure branch is never taken.
- CfgDumper.Dumper.Dump: `dumpRange` sorts the block list of each range in place by layout position; the model sorts a copy, so the graph's ranges are stated unchanged where the source may leave each range's blocks in layout order.
- CfgDumper.DumpRange: pins the exact entries only for ranges whose blocks are all in the order. For a range with a block outside the order (position -1), the model runs the source's walk but states only that it writes at least one entry.
- Linearization.BuildBundleGraph: an edge with an end that has no bundle is dropped instead of being added with a null end. The induced subgraphs that the ordering works on drop such edges anyway.
- Linearization.Layout: when the entry block has no bundle (Java's null entry bundle), the search starts from the entry block's id.
- The `BackwardsFlowAnalyser` fixed-point driver that calls the liveness rules is not part of this model; only the rules are modelled.
- SsaLiveness: a phi appears only as the value of a top-level copy, and copies appear only as top-level statements, as in the IR. The `Statement.enumerate` walk is modelled as the reads of a statement's expressions.
- The `FlowGraph` copy constructor and `getEntries` are not modelled as operations; the entries are a field read directly.
- FlowGraphs.FlowGraph.GetRanges: ranges are values. `getRanges` copies only the list, so in the source a caller shares the `ExceptionRange` objects, and `removeVertex` updates them in place; the model has no aliasing between ranges.
- FlowGraphs.FlowGraph.Replace: the base class's `replace` is modelled as not calling back into the overridden `addVertex`/`removeVertex` of `FlowGraph`, so it leaves the ranges and the id index as they are.
- CfgDumper.Dumper.Verify: the error messages are "Illegal flow" and "Trailing" alone; the edge and block the source appends to them through `toString` are not modelled.
- RangeSplit.SortByPosition: sortedness and permutation are proved; stability (the relative order of blocks at equal positions) is not stated.
- ClassTrees.ClassTree.constructor: requires `java/lang/Object` to be in the class source; the throwing lookup of a missing root is not modelled.
- Classes are compared as values, where the source compares `ClassNode` references (`cn != rootNode`).
- The "request from" wrapper that `requestClass0` puts around a missing-class error is folded into the class-not-found error naming the class.
- ClassTrees.Ordered: orders extends edges before implements edges, but the `compareTo` order among edges of one kind is not modelled.
- ClassTrees.ClassTree.GetAllParents, ClassTrees.ClassTree.GetAllChildren: the depth-first traversal is a parameter, and the implicit vertex additions its `getEdges` calls can make are not modelled.
- ClassTrees.ClassTree.GetAllBranches: the parents and children traversals are fixed functions for the whole walk. The walk requires a finite set of classes closed under them, which the finitely many classes of a source provide.
- ClassTrees.ClassTree.InheritanceChain: the lazy iterator is modelled as taking its first n elements.
- `init` (adding every class of the source with its libraries), `iterateParents`, `iterateInterfaces`, `iterateChildren`, `getParents`, `getChildren`, `getRootNode` and `toString` of the class tree are left out: they only iterate the modelled edge sets or print them.
