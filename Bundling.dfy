/** The bundle construction of `linearize()` in the control-flow-graph
    dumper: blocks chained by fall-through edges form bundles, bundles that
    share an exception range are grouped into bunches, and each bunch is
    rebuilt into one bundle whose blocks are its bundles' blocks in bunch
    order. A bundle, and a bunch, is named by the id of its first block. */
module Bundling {
  import opened Wrappers
  import opened FlowGraphs
  import BundleOrder

  // ---------------------------------------------------------------------
  // fall-through chains

  /** `getIncomingImmediateEdge() != null`: a fall-through enters `b`. */
  predicate HasFallIn(es: set<FlowEdge<nat>>, b: nat) {
    exists e :: e in es && e.dst == b && e.kind == Immediate
  }

  /** `getImmediate() != null`: a fall-through leaves `b`. */
  predicate HasFallOut(es: set<FlowEdge<nat>>, b: nat) {
    exists e :: e in es && e.src == b && e.kind == Immediate
  }

  /** A block falls through to at most one block, and at most one block
      falls through to it. */
  ghost predicate FallThroughShape(es: set<FlowEdge<nat>>) {
    forall e1, e2 ::
      (e1 in es && e2 in es && e1.kind == Immediate && e2.kind == Immediate && (e1.src == e2.src || e1.dst == e2.dst))
      ==> e1 == e2
  }

  /** A fall-through chain: it starts at a block nothing falls into, and each
      block falls through to the next. */
  ghost predicate IsChain(es: set<FlowEdge<nat>>, c: seq<nat>) {
    && c != []
    && !HasFallIn(es, c[0])
    && forall k :: 0 <= k < |c| - 1 ==> FlowEdge(c[k], c[k + 1], Immediate) in es
  }

  /** A chain followed to its end: its last block falls through nowhere. */
  ghost predicate FullChain(es: set<FlowEdge<nat>>, c: seq<nat>) {
    IsChain(es, c) && !HasFallOut(es, c[|c| - 1])
  }

  /** Two chains that share a block share it at the same position and start
      at the same head: walking back along fall-throughs is deterministic. */
  lemma {:induction false} ChainMeet(es: set<FlowEdge<nat>>, c1: seq<nat>, c2: seq<nat>, j: nat, k: nat)
    requires FallThroughShape(es) && IsChain(es, c1) && IsChain(es, c2)
    requires j < |c1| && k < |c2| && c1[j] == c2[k]
    ensures j == k && c1[0] == c2[0]
    decreases j + k
  {
    if j > 0 && k > 0 {
      ChainStep(es, c1, j - 1);
      ChainStep(es, c2, k - 1);
      ChainMeet(es, c1, c2, j - 1, k - 1);
    } else if j > 0 {
      ChainStep(es, c1, j - 1);
    } else if k > 0 {
      ChainStep(es, c2, k - 1);
    }
  }

  /** Each block of a chain but the last falls through to the next one. */
  lemma ChainStep(es: set<FlowEdge<nat>>, c: seq<nat>, k: nat)
    requires IsChain(es, c) && k < |c| - 1
    ensures FlowEdge(c[k], c[k + 1], Immediate) in es
    ensures HasFallOut(es, c[k]) && HasFallIn(es, c[k + 1])
  {
    var e := FlowEdge(c[k], c[k + 1], Immediate);
    assert e in es;
  }

  /** A chain has no repeated block. */
  lemma ChainDistinct(es: set<FlowEdge<nat>>, c: seq<nat>)
    requires FallThroughShape(es) && IsChain(es, c)
    ensures BundleOrder.Distinct(c)
  {
    forall i, j | 0 <= i < j < |c| ensures c[i] != c[j] {
      if c[i] == c[j] {
        ChainMeet(es, c, c, i, j);
      }
    }
  }

  /** The block a chain falls through to next is not already on it, so the
      chain walk of `linearize()` ends. */
  lemma NextNotInChain(es: set<FlowEdge<nat>>, c: seq<nat>, y: nat)
    requires FallThroughShape(es) && IsChain(es, c)
    requires FlowEdge(c[|c| - 1], y, Immediate) in es
    ensures y !in c
  {
    ChainDistinct(es, c);
    if y in c {
      var j :| 0 <= j < |c| && c[j] == y;
      if j == 0 {
        assert false;
      } else {
        ChainStep(es, c, j - 1);
        assert false;
      }
    }
  }

  /** Chains from the same head agree wherever both are defined. */
  lemma {:induction false} ChainsAgree(es: set<FlowEdge<nat>>, c1: seq<nat>, c2: seq<nat>, k: nat)
    requires FallThroughShape(es) && IsChain(es, c1) && IsChain(es, c2) && c1[0] == c2[0]
    requires k < |c1| && k < |c2|
    ensures c1[k] == c2[k]
    decreases k
  {
    if k > 0 {
      ChainsAgree(es, c1, c2, k - 1);
      assert FlowEdge(c1[k - 1], c1[k], Immediate) in es;
      assert FlowEdge(c2[k - 1], c2[k], Immediate) in es;
    }
  }

  /** A block has one full chain from it: the bundle of a head is
      determined by the fall-through edges alone. */
  lemma FullChainUnique(es: set<FlowEdge<nat>>, c1: seq<nat>, c2: seq<nat>)
    requires FallThroughShape(es) && FullChain(es, c1) && FullChain(es, c2) && c1[0] == c2[0]
    ensures c1 == c2
  {
    forall k | 0 <= k < |c1| && k < |c2| ensures c1[k] == c2[k] {
      ChainsAgree(es, c1, c2, k);
    }
    if |c1| < |c2| {
      ChainStep(es, c2, |c1| - 1);
      assert false;
    } else if |c2| < |c1| {
      ChainStep(es, c1, |c2| - 1);
      assert false;
    }
  }

  /** The fall-through successor of `b`, if any (`getImmediate`). */
  method GetImmediate(es: set<FlowEdge<nat>>, b: nat) returns (r: Option<nat>)
    ensures r.Some? <==> HasFallOut(es, b)
    ensures r.Some? ==> FlowEdge(b, r.value, Immediate) in es
  {
    if e :| e in es && e.src == b && e.kind == Immediate {
      assert e == FlowEdge(b, e.dst, Immediate);
      r := Some(e.dst);
    } else {
      r := None;
    }
  }

  /** The blocks that are the target of some edge. */
  ghost function Targets(es: set<FlowEdge<nat>>): set<nat> {
    set e | e in es :: e.dst
  }

  /** `m` with every block of `c` mapped to `h`. */
  function Assign(m: map<nat, nat>, c: seq<nat>, h: nat): (r: map<nat, nat>)
    ensures forall b :: b in r <==> b in m || b in c
    ensures forall b :: b in r ==> r[b] == if b in c then h else m[b]
  {
    m + map b | b in c :: h
  }

  lemma AssignSnoc(m: map<nat, nat>, c: seq<nat>, h: nat, b: nat)
    ensures Assign(m, c + [b], h) == Assign(m, c, h)[b := h]
  {
  }

  /** The state of the chain walk: the blocks taken so far form a chain
      from the head, and `next` is the fall-through successor of the last
      one, not yet on the chain. */
  ghost predicate Walk(es: set<FlowEdge<nat>>, head: nat, chain: seq<nat>, next: Option<nat>, universe: set<nat>) {
    && (chain == [] ==> next == Some(head))
    && (chain != [] ==> IsChain(es, chain) && chain[0] == head
                        && (next.Some? <==> HasFallOut(es, chain[|chain| - 1]))
                        && (next.Some? ==> FlowEdge(chain[|chain| - 1], next.value, Immediate) in es))
    && (next.Some? ==> next.value in universe && next.value !in chain)
    && BundleOrder.Elems(chain) <= universe
  }

  lemma WalkNext(es: set<FlowEdge<nat>>, head: nat, chain: seq<nat>, next: Option<nat>, universe: set<nat>, next': Option<nat>)
    requires FallThroughShape(es) && !HasFallIn(es, head) && Targets(es) <= universe
    requires Walk(es, head, chain, next, universe) && next.Some?
    requires next'.Some? <==> HasFallOut(es, next.value)
    requires next'.Some? ==> FlowEdge(next.value, next'.value, Immediate) in es
    ensures Walk(es, head, chain + [next.value], next', universe)
    ensures |universe - BundleOrder.Elems(chain + [next.value])| < |universe - BundleOrder.Elems(chain)|
  {
    var c := chain + [next.value];
    assert BundleOrder.Elems(c) == BundleOrder.Elems(chain) + {next.value};
    assert IsChain(es, c) by {
      if chain != [] {
        forall k | 0 <= k < |c| - 1 ensures FlowEdge(c[k], c[k + 1], Immediate) in es {
          if k < |chain| - 1 {
            assert c[k] == chain[k] && c[k + 1] == chain[k + 1];
          }
        }
      }
    }
    if next'.Some? {
      assert next'.value in Targets(es);
      NextNotInChain(es, c, next'.value);
    }
  }

  /** The inner loop of the bundle construction: starting at a head, add
      each block to the bundle and map it to the bundle, then move on to its
      fall-through successor until there is none. */
  method BuildChain(es: set<FlowEdge<nat>>, head: nat, bundleOf0: map<nat, nat>)
    returns (chain: seq<nat>, bundleOf: map<nat, nat>)
    requires FallThroughShape(es) && !HasFallIn(es, head)
    ensures FullChain(es, chain) && chain[0] == head
    ensures bundleOf == Assign(bundleOf0, chain, head)
  {
    var next: Option<nat> := Some(head);
    chain, bundleOf := [], bundleOf0;
    ghost var universe := Targets(es) + {head};
    while next.Some?
      invariant Walk(es, head, chain, next, universe)
      invariant bundleOf == Assign(bundleOf0, chain, head)
      decreases |universe - BundleOrder.Elems(chain)|
    {
      var b := next.value;
      ghost var prev, prevNext := chain, next;
      chain := chain + [b];
      bundleOf := bundleOf[b := head];
      next := GetImmediate(es, b);
      WalkNext(es, head, prev, prevNext, universe, next);
      AssignSnoc(bundleOf0, prev, head, b);
    }
  }

  // ---------------------------------------------------------------------
  // bundles

  /** The blocks of `blocks` that nothing falls into: the bundle heads. */
  ghost function Heads(es: set<FlowEdge<nat>>, blocks: seq<nat>): set<nat> {
    set b | b in blocks && !HasFallIn(es, b)
  }

  /** `members` maps each bundle head to its full fall-through chain, and
      `bundleOf` maps each block of a bundle to its head, and nothing else. */
  ghost predicate Bundled(es: set<FlowEdge<nat>>, bundleOf: map<nat, nat>, members: map<nat, seq<nat>>) {
    && (forall h :: h in members ==> FullChain(es, members[h]) && members[h][0] == h)
    && (forall h, b :: h in members && b in members[h] ==> b in bundleOf && bundleOf[b] == h)
    && (forall b :: b in bundleOf ==> bundleOf[b] in members && b in members[bundleOf[b]])
  }

  lemma HeadsStep(es: set<FlowEdge<nat>>, blocks: seq<nat>, i: nat)
    requires i < |blocks|
    ensures Heads(es, blocks[i..]) == Heads(es, blocks[i + 1..]) + (if HasFallIn(es, blocks[i]) then {} else {blocks[i]})
  {
    assert blocks[i..] == [blocks[i]] + blocks[i + 1..];
  }

  /** A head that already has a bundle heads its own bundle. */
  lemma HeadBundled(es: set<FlowEdge<nat>>, bundleOf: map<nat, nat>, members: map<nat, seq<nat>>, b: nat)
    requires Bundled(es, bundleOf, members) && b in bundleOf && !HasFallIn(es, b)
    ensures b in members
  {
    var c := members[bundleOf[b]];
    var k :| 0 <= k < |c| && c[k] == b;
    if k > 0 {
      ChainStep(es, c, k - 1);
    }
  }

  /** A chain from a head without a bundle shares no block with the existing
      bundles, so adding it keeps every block in exactly one bundle. */
  lemma BundledAdd(es: set<FlowEdge<nat>>, bundleOf: map<nat, nat>, members: map<nat, seq<nat>>, c: seq<nat>)
    requires FallThroughShape(es) && Bundled(es, bundleOf, members)
    requires FullChain(es, c) && c[0] !in bundleOf
    ensures c[0] !in members
    ensures Bundled(es, Assign(bundleOf, c, c[0]), members[c[0] := c])
  {
    forall x | x in c ensures x !in bundleOf {
      if x in bundleOf {
        var h := bundleOf[x];
        var d := members[h];
        var i :| 0 <= i < |c| && c[i] == x;
        var j :| 0 <= j < |d| && d[j] == x;
        ChainMeet(es, c, d, i, j);
      }
    }
  }

  /** The outer loop of the bundle construction: the blocks in reverse
      postorder, each head without a bundle starting a new one. Every head
      gets the full chain of fall-throughs from it, and no block is put in
      two bundles. */
  method BuildBundles(es: set<FlowEdge<nat>>, postorder: seq<nat>)
    returns (bundleOf: map<nat, nat>, members: map<nat, seq<nat>>)
    requires FallThroughShape(es)
    ensures members.Keys == Heads(es, postorder)
    ensures Bundled(es, bundleOf, members)
  {
    bundleOf, members := map[], map[];
    var i := |postorder|;
    while i > 0
      invariant 0 <= i <= |postorder|
      invariant members.Keys == Heads(es, postorder[i..])
      invariant Bundled(es, bundleOf, members)
    {
      i := i - 1;
      var b := postorder[i];
      HeadsStep(es, postorder, i);
      if b in bundleOf {
        if !HasFallIn(es, b) {
          HeadBundled(es, bundleOf, members, b);
        }
      } else if !HasFallIn(es, b) {
        var chain, bo := BuildChain(es, b, bundleOf);
        BundledAdd(es, bundleOf, members, chain);
        bundleOf, members := bo, members[b := chain];
      }
    }
    assert postorder[0..] == postorder;
  }

  // ---------------------------------------------------------------------
  // bunches

  /** The bunches of bundles: `bunchOf` maps every bundle to its bunch, and
      `bunchList` lists each bunch's bundles, without repeats, starting with
      the bundle the bunch is named after. */
  ghost predicate Bunches(bunchOf: map<nat, nat>, bunchList: map<nat, seq<nat>>, heads: set<nat>) {
    && bunchOf.Keys == heads
    && (forall h :: h in bunchOf ==> bunchOf[h] in bunchList)
    && (forall a :: a in bunchList ==> bunchList[a] != [] && bunchList[a][0] == a && BundleOrder.Distinct(bunchList[a]))
    && (forall a, x :: a in bunchList ==> (x in bunchList[a] <==> x in bunchOf && bunchOf[x] == a))
  }

  /** `bo1` groups together at least what `bo0` groups together. */
  ghost predicate Coarser(bo0: map<nat, nat>, bo1: map<nat, nat>) {
    && bo0.Keys == bo1.Keys
    && forall x, y :: x in bo0 && y in bo0 && bo0[x] == bo0[y] ==> bo1[x] == bo1[y]
  }

  lemma CoarserTrans(bo0: map<nat, nat>, bo1: map<nat, nat>, bo2: map<nat, nat>)
    requires Coarser(bo0, bo1) && Coarser(bo1, bo2)
    ensures Coarser(bo0, bo2)
  {
  }

  /** Some block of the range has a bundle and a later one has none. */
  ghost predicate NullAfterBundled(bundleOf: map<nat, nat>, nodes: seq<nat>) {
    exists i, j :: 0 <= i < j < |nodes| && nodes[i] in bundleOf && nodes[j] !in bundleOf
  }

  /** The bundled blocks of the range all lie in one bunch. */
  ghost predicate SameBunch(bunchOf: map<nat, nat>, bundleOf: map<nat, nat>, nodes: seq<nat>) {
    forall i, j ::
      (0 <= i < |nodes| && 0 <= j < |nodes| && nodes[i] in bundleOf && nodes[j] in bundleOf
       && bundleOf[nodes[i]] in bunchOf && bundleOf[nodes[j]] in bunchOf)
      ==> bunchOf[bundleOf[nodes[i]]] == bunchOf[bundleOf[nodes[j]]]
  }

  lemma SameBunchCoarser(bo0: map<nat, nat>, bo1: map<nat, nat>, bundleOf: map<nat, nat>, nodes: seq<nat>)
    requires Coarser(bo0, bo1) && SameBunch(bo0, bundleOf, nodes)
    ensures SameBunch(bo1, bundleOf, nodes)
  {
  }

  /** Bunch `b` joins bunch `a`: `a`'s list gains `b`'s bundles at its end,
      each of them now maps to `a`, and `b`'s list is dropped. */
  method MergeBunches(bunchOf0: map<nat, nat>, bunchList0: map<nat, seq<nat>>, a: nat, b: nat, ghost heads: set<nat>)
    returns (bunchOf: map<nat, nat>, bunchList: map<nat, seq<nat>>)
    requires Bunches(bunchOf0, bunchList0, heads) && a in bunchList0 && b in bunchList0 && a != b
    ensures Bunches(bunchOf, bunchList, heads) && Coarser(bunchOf0, bunchOf)
    ensures bunchList.Keys == bunchList0.Keys - {b}
    ensures bunchList[a] == bunchList0[a] + bunchList0[b]
    ensures forall x :: x in bunchOf0 ==> bunchOf[x] == if bunchOf0[x] == b then a else bunchOf0[x]
  {
    var listB := bunchList0[b];
    bunchList := bunchList0[a := bunchList0[a] + listB];
    bunchOf := bunchOf0;
    var k := 0;
    while k < |listB|
      invariant 0 <= k <= |listB|
      invariant bunchOf.Keys == bunchOf0.Keys
      invariant forall x :: x in bunchOf ==> bunchOf[x] == if x in listB[..k] then a else bunchOf0[x]
    {
      assert listB[..k + 1] == listB[..k] + [listB[k]];
      bunchOf := bunchOf[listB[k] := a];
      k := k + 1;
    }
    assert listB[..k] == listB;
    bunchList := bunchList - {b};
    MergeKeepsBunches(bunchOf0, bunchList0, a, b, heads, bunchOf, bunchList);
  }

  lemma MergeKeepsBunches(bunchOf0: map<nat, nat>, bunchList0: map<nat, seq<nat>>, a: nat, b: nat, heads: set<nat>,
                          bunchOf: map<nat, nat>, bunchList: map<nat, seq<nat>>)
    requires Bunches(bunchOf0, bunchList0, heads) && a in bunchList0 && b in bunchList0 && a != b
    requires bunchOf.Keys == bunchOf0.Keys
    requires forall x :: x in bunchOf ==> bunchOf[x] == if bunchOf0[x] == b then a else bunchOf0[x]
    requires bunchList == (bunchList0[a := bunchList0[a] + bunchList0[b]]) - {b}
    ensures Bunches(bunchOf, bunchList, heads) && Coarser(bunchOf0, bunchOf)
  {
    var la, lb := bunchList0[a], bunchList0[b];
    forall x | x in la ensures x !in lb {
      assert bunchOf0[x] == a;
    }
    BundleOrder.DisjointConcat(la, lb);
    assert (la + lb)[0] == a;
    forall c, x | c in bunchList ensures x in bunchList[c] <==> x in bunchOf && bunchOf[x] == c {
      if c == a {
        assert x in la + lb <==> x in la || x in lb;
      }
    }
  }

  /** The grouping of one exception range: walking its blocks, each block
      whose bundle differs from the previous block's puts the two bunches
      together. Blocks before the first bundled one are skipped; an
      unbundled block after a bundled one fails, as the null bunch of the
      missing bundle is dereferenced. */
  method GroupRange(nodes: seq<nat>, bundleOf: map<nat, nat>, bunchOf0: map<nat, nat>,
                    bunchList0: map<nat, seq<nat>>, ghost heads: set<nat>)
    returns (r: Result<(map<nat, nat>, map<nat, seq<nat>>), Exception>)
    requires Bunches(bunchOf0, bunchList0, heads)
    requires forall b :: b in bundleOf ==> bundleOf[b] in heads
    ensures r.Err? <==> NullAfterBundled(bundleOf, nodes)
    ensures r.Err? ==> r.error == NullPointer
    ensures r.Ok? ==> Bunches(r.value.0, r.value.1, heads) && Coarser(bunchOf0, r.value.0)
                      && SameBunch(r.value.0, bundleOf, nodes)
  {
    var bunchOf: map<nat, nat>, bunchList: map<nat, seq<nat>> := bunchOf0, bunchList0;
    var prev: Option<nat> := None;
    var i := 0;
    while i < |nodes|
      invariant 0 <= i <= |nodes|
      invariant Bunches(bunchOf, bunchList, heads) && Coarser(bunchOf0, bunchOf)
      invariant RangeWalked(bundleOf, bunchOf, nodes, i, prev)
    {
      var b := nodes[i];
      var cur: Option<nat> := if b in bundleOf then Some(bundleOf[b]) else None;
      ghost var before := bunchOf;
      if prev.Some? && cur != prev {
        if cur.None? {
          GroupFails(bundleOf, bunchOf, nodes, i, prev);
          return Err(NullPointer);
        }
        var bunchA, bunchB := bunchOf[prev.value], bunchOf[cur.value];
        if bunchA != bunchB {
          bunchOf, bunchList := MergeBunches(bunchOf, bunchList, bunchA, bunchB, heads);
          CoarserTrans(bunchOf0, before, bunchOf);
        }
      }
      GroupStep(bundleOf, before, bunchOf, nodes, i, prev, cur);
      prev := cur;
      i := i + 1;
    }
    GroupDone(bundleOf, bunchOf, nodes, prev);
    r := Ok((bunchOf, bunchList));
  }

  /** The walk of a range has reached position `i`: `prev` is the bundle of
      the last bundled block so far (None when there is none yet), all
      bundled blocks so far share its bunch, and no unbundled block has
      followed a bundled one. */
  ghost predicate RangeWalked(bundleOf: map<nat, nat>, bunchOf: map<nat, nat>, nodes: seq<nat>, i: nat, prev: Option<nat>) {
    && i <= |nodes|
    && (prev.None? <==> forall j :: 0 <= j < i ==> nodes[j] !in bundleOf)
    && (prev.Some? ==> prev.value in bunchOf
                       && forall j :: 0 <= j < i && nodes[j] in bundleOf ==>
                            bundleOf[nodes[j]] in bunchOf && bunchOf[bundleOf[nodes[j]]] == bunchOf[prev.value])
    && !NullAfterBundled(bundleOf, nodes[..i])
  }

  /** An unbundled block after a bundled one is the failing case. */
  lemma GroupFails(bundleOf: map<nat, nat>, bunchOf: map<nat, nat>, nodes: seq<nat>, i: nat, prev: Option<nat>)
    requires i < |nodes| && RangeWalked(bundleOf, bunchOf, nodes, i, prev)
    requires prev.Some? && nodes[i] !in bundleOf
    ensures NullAfterBundled(bundleOf, nodes)
  {
    var j :| 0 <= j < i && nodes[j] in bundleOf;
    assert nodes[j] in bundleOf && nodes[i] !in bundleOf;
  }

  /** One more block of the range keeps `RangeWalked`, its bundle becoming the
      previous one, once its bunch and the previous one are merged. */
  lemma GroupStep(bundleOf: map<nat, nat>, bunchOf: map<nat, nat>, bunchOf': map<nat, nat>, nodes: seq<nat>,
                  i: nat, prev: Option<nat>, cur: Option<nat>)
    requires i < |nodes| && RangeWalked(bundleOf, bunchOf, nodes, i, prev) && Coarser(bunchOf, bunchOf')
    requires cur == if nodes[i] in bundleOf then Some(bundleOf[nodes[i]]) else None
    requires cur.Some? ==> cur.value in bunchOf
    requires prev.Some? ==> cur.Some? && bunchOf'[prev.value] == bunchOf'[cur.value]
    ensures RangeWalked(bundleOf, bunchOf', nodes, i + 1, cur)
  {
    var p := nodes[..i + 1];
    assert nodes[..i] == p[..i];
    forall x, y | 0 <= x < y < |p| && p[x] in bundleOf ensures p[y] in bundleOf {
      if y < i {
        assert p[x] == nodes[..i][x] && p[y] == nodes[..i][y];
      }
    }
  }

  /** At the end of the walk, the range's bundled blocks share one bunch. */
  lemma GroupDone(bundleOf: map<nat, nat>, bunchOf: map<nat, nat>, nodes: seq<nat>, prev: Option<nat>)
    requires RangeWalked(bundleOf, bunchOf, nodes, |nodes|, prev)
    ensures !NullAfterBundled(bundleOf, nodes)
    ensures SameBunch(bunchOf, bundleOf, nodes)
  {
    assert nodes[..|nodes|] == nodes;
  }

  /** The first `k` ranges were grouped without failing. */
  ghost predicate Grouped(bunchOf: map<nat, nat>, bundleOf: map<nat, nat>, ranges: seq<ExceptionRange<nat>>, k: nat)
    requires k <= |ranges|
  {
    forall q :: 0 <= q < k ==> !NullAfterBundled(bundleOf, ranges[q].nodes) && SameBunch(bunchOf, bundleOf, ranges[q].nodes)
  }

  lemma GroupedStep(bo0: map<nat, nat>, bo1: map<nat, nat>, bundleOf: map<nat, nat>, ranges: seq<ExceptionRange<nat>>, k: nat)
    requires k < |ranges| && Grouped(bo0, bundleOf, ranges, k) && Coarser(bo0, bo1)
    requires !NullAfterBundled(bundleOf, ranges[k].nodes) && SameBunch(bo1, bundleOf, ranges[k].nodes)
    ensures Grouped(bo1, bundleOf, ranges, k + 1)
  {
    forall q | 0 <= q < k ensures SameBunch(bo1, bundleOf, ranges[q].nodes) {
      SameBunchCoarser(bo0, bo1, bundleOf, ranges[q].nodes);
    }
  }

  /** At first every bundle is a bunch of its own. */
  function OwnBunch(heads: set<nat>): map<nat, nat> {
    map h | h in heads :: h
  }

  function OwnList(heads: set<nat>): map<nat, seq<nat>> {
    map h | h in heads :: [h]
  }

  lemma InitialBunches(heads: set<nat>)
    ensures Bunches(OwnBunch(heads), OwnList(heads), heads)
  {
  }

  /** `linearize()`'s grouping of bundles by exception ranges, range by
      range: any two bundles holding blocks of the same range end up in the
      same bunch, and the first unbundled block after a bundled one in a
      range fails. */
  method GroupByRanges(ranges: seq<ExceptionRange<nat>>, bundleOf: map<nat, nat>, heads: set<nat>)
    returns (r: Result<(map<nat, nat>, map<nat, seq<nat>>), Exception>)
    requires forall b :: b in bundleOf ==> bundleOf[b] in heads
    ensures r.Err? <==> exists k :: 0 <= k < |ranges| && NullAfterBundled(bundleOf, ranges[k].nodes)
    ensures r.Err? ==> r.error == NullPointer
    ensures r.Ok? ==> Bunches(r.value.0, r.value.1, heads)
                      && forall k :: 0 <= k < |ranges| ==> SameBunch(r.value.0, bundleOf, ranges[k].nodes)
  {
    var bunchOf := OwnBunch(heads);
    var bunchList := OwnList(heads);
    InitialBunches(heads);
    var k := 0;
    while k < |ranges|
      invariant 0 <= k <= |ranges|
      invariant Bunches(bunchOf, bunchList, heads)
      invariant Grouped(bunchOf, bundleOf, ranges, k)
    {
      var res := GroupRange(ranges[k].nodes, bundleOf, bunchOf, bunchList, heads);
      if res.Err? {
        return Err(res.error);
      }
      GroupedStep(bunchOf, res.value.0, bundleOf, ranges, k);
      bunchOf, bunchList := res.value.0, res.value.1;
      k := k + 1;
    }
    r := Ok((bunchOf, bunchList));
  }

  // ---------------------------------------------------------------------
  // concatenation of bundles

  /** The blocks of the bundles `ids`, bundle after bundle. */
  function Concat(m: map<nat, seq<nat>>, ids: seq<nat>): seq<nat>
    requires forall i :: i in ids ==> i in m
    decreases |ids|
  {
    if ids == [] then [] else m[ids[0]] + Concat(m, ids[1..])
  }

  lemma {:induction false} ConcatSnoc(m: map<nat, seq<nat>>, ids: seq<nat>, id: nat)
    requires forall i :: i in ids ==> i in m
    requires id in m
    ensures Concat(m, ids + [id]) == Concat(m, ids) + m[id]
    decreases |ids|
  {
    if ids != [] {
      assert (ids + [id])[1..] == ids[1..] + [id];
      ConcatSnoc(m, ids[1..], id);
    } else {
      assert ([id])[1..] == [];
    }
  }

  /** A block is in the concatenation iff it is in one of the bundles. */
  lemma {:induction false} ConcatMember(m: map<nat, seq<nat>>, ids: seq<nat>, x: nat)
    requires forall i :: i in ids ==> i in m
    ensures x in Concat(m, ids) <==> exists k :: 0 <= k < |ids| && x in m[ids[k]]
    decreases |ids|
  {
    if ids != [] {
      ConcatMember(m, ids[1..], x);
      if exists k :: 0 <= k < |ids| && x in m[ids[k]] {
        var k :| 0 <= k < |ids| && x in m[ids[k]];
        if k > 0 {
          assert x in m[ids[1..][k - 1]];
        }
      }
      if exists k :: 0 <= k < |ids[1..]| && x in m[ids[1..][k]] {
        var k :| 0 <= k < |ids[1..]| && x in m[ids[1..][k]];
        assert x in m[ids[k + 1]];
      }
    }
  }

  /** The bundles' blocks do not repeat when the bundles do not, no bundle
      repeats a block, and no two bundles share one. */
  lemma {:induction false} ConcatDistinct(m: map<nat, seq<nat>>, ids: seq<nat>)
    requires forall i :: i in ids ==> i in m
    requires BundleOrder.Distinct(ids)
    requires forall i :: i in ids ==> BundleOrder.Distinct(m[i])
    requires forall i, j, x :: i in ids && j in ids && i != j && x in m[i] ==> x !in m[j]
    ensures BundleOrder.Distinct(Concat(m, ids))
    decreases |ids|
  {
    if ids != [] {
      var rest := ids[1..];
      assert BundleOrder.Distinct(rest) by {
        forall i, j | 0 <= i < j < |rest| ensures rest[i] != rest[j] {
          assert rest[i] == ids[i + 1] && rest[j] == ids[j + 1];
        }
      }
      ConcatDistinct(m, rest);
      forall x | x in m[ids[0]] ensures x !in Concat(m, rest) {
        ConcatMember(m, rest, x);
        forall k | 0 <= k < |rest| ensures x !in m[rest[k]] {
          assert rest[k] == ids[k + 1] && ids[k + 1] != ids[0];
        }
      }
      BundleOrder.DisjointConcat(m[ids[0]], Concat(m, rest));
    }
  }

  /** Two neighbours inside one bundle are neighbours in the concatenation. */
  lemma {:induction false} ConcatAdjacent(m: map<nat, seq<nat>>, ids: seq<nat>, k: nat, p: nat) returns (q: nat)
    requires forall i :: i in ids ==> i in m
    requires k < |ids| && p + 1 < |m[ids[k]]|
    ensures q + 1 < |Concat(m, ids)|
    ensures Concat(m, ids)[q] == m[ids[k]][p] && Concat(m, ids)[q + 1] == m[ids[k]][p + 1]
    decreases |ids|
  {
    var c := Concat(m, ids);
    assert c == m[ids[0]] + Concat(m, ids[1..]);
    if k == 0 {
      q := p;
    } else {
      assert ids[k] == ids[1..][k - 1];
      var q' := ConcatAdjacent(m, ids[1..], k - 1, p);
      q := |m[ids[0]]| + q';
    }
  }

  /** The concatenation starts with the first bundle's first block. */
  lemma ConcatHead(m: map<nat, seq<nat>>, ids: seq<nat>)
    requires forall i :: i in ids ==> i in m
    requires ids != [] && m[ids[0]] != []
    ensures Concat(m, ids) != [] && Concat(m, ids)[0] == m[ids[0]][0]
  {
  }

  // ---------------------------------------------------------------------
  // rebuilding the bundles

  /** `bunch.addAll` over the bundles of a bunch, in list order. */
  method ConcatBundles(m: map<nat, seq<nat>>, ids: seq<nat>) returns (blocks: seq<nat>)
    requires forall i :: i in ids ==> i in m
    ensures blocks == Concat(m, ids)
  {
    blocks := [];
    var k := 0;
    while k < |ids|
      invariant 0 <= k <= |ids|
      invariant blocks == Concat(m, ids[..k])
    {
      ConcatSnoc(m, ids[..k], ids[k]);
      assert ids[..k + 1] == ids[..k] + [ids[k]];
      blocks := blocks + m[ids[k]];
      k := k + 1;
    }
    assert ids[..k] == ids;
  }

  /** `bundles.put(b, bunch)` for every block of the bunch. */
  method MapAll(m0: map<nat, nat>, blocks: seq<nat>, id: nat) returns (m: map<nat, nat>)
    ensures m == Assign(m0, blocks, id)
  {
    m := m0;
    var k := 0;
    while k < |blocks|
      invariant 0 <= k <= |blocks|
      invariant m == Assign(m0, blocks[..k], id)
    {
      AssignSnoc(m0, blocks[..k], id, blocks[k]);
      assert blocks[..k + 1] == blocks[..k] + [blocks[k]];
      m := m[blocks[k] := id];
      k := k + 1;
    }
    assert blocks[..k] == blocks;
  }

  /** The blocks of a bunch are the blocks whose bundle is in it. */
  lemma BunchBlocks(es: set<FlowEdge<nat>>, bundleOf: map<nat, nat>, members: map<nat, seq<nat>>,
                    bunchOf: map<nat, nat>, bunchList: map<nat, seq<nat>>, a: nat, b: nat)
    requires Bundled(es, bundleOf, members) && Bunches(bunchOf, bunchList, members.Keys) && a in bunchList
    ensures forall i :: i in bunchList[a] ==> i in members
    ensures b in Concat(members, bunchList[a]) <==> b in bundleOf && bunchOf[bundleOf[b]] == a
  {
    var list := bunchList[a];
    ConcatMember(members, list, b);
    if b in bundleOf && bunchOf[bundleOf[b]] == a {
      var k :| 0 <= k < |list| && list[k] == bundleOf[b];
    }
  }

  /** The bundles rebuilt from the bunches: each bunch becomes one bundle,
      named by its first block, made of its bundles' blocks in list order. */
  ghost predicate RebuiltBundles(members: map<nat, seq<nat>>, bunchList: map<nat, seq<nat>>, newMembers: map<nat, seq<nat>>) {
    forall a :: a in newMembers ==> a in bunchList && (forall i :: i in bunchList[a] ==> i in members)
                                    && newMembers[a] == Concat(members, bunchList[a])
  }

  /** Every bundled block whose bunch is rebuilt maps to that bunch. */
  ghost predicate RebuiltMap(bundleOf: map<nat, nat>, bunchOf: map<nat, nat>, newOf: map<nat, nat>, newMembers: map<nat, seq<nat>>) {
    && (forall b :: b in newOf <==> b in bundleOf && bundleOf[b] in bunchOf && bunchOf[bundleOf[b]] in newMembers)
    && (forall b :: b in newOf ==> b in bundleOf && bundleOf[b] in bunchOf && newOf[b] == bunchOf[bundleOf[b]])
  }

  /** `linearize()`'s rebuilding of bundles from bunches: for each bundle
      whose first block has no rebuilt bundle yet, the blocks of its whole
      bunch are collected into a new bundle and mapped to it. Every bunch is
      rebuilt, so every bundled block gets the bundle of its bunch. */
  method Rebuild(members: map<nat, seq<nat>>, bunchOf: map<nat, nat>, bunchList: map<nat, seq<nat>>,
                 ghost es: set<FlowEdge<nat>>, ghost bundleOf: map<nat, nat>)
    returns (newOf: map<nat, nat>, newMembers: map<nat, seq<nat>>)
    requires Bundled(es, bundleOf, members) && Bunches(bunchOf, bunchList, members.Keys)
    ensures newMembers.Keys == bunchList.Keys
    ensures RebuiltBundles(members, bunchList, newMembers)
    ensures newOf.Keys == bundleOf.Keys
    ensures forall b :: b in newOf ==> newOf[b] == bunchOf[bundleOf[b]]
  {
    newOf, newMembers := map[], map[];
    var todo := members.Keys;
    while todo != {}
      invariant RebuildInv(members, bunchOf, bunchList, bundleOf, newOf, newMembers, todo)
      decreases |todo|
    {
      var h :| h in todo;
      newOf, newMembers := RebuildVisit(members, bunchOf, bunchList, h, todo, newOf, newMembers, es, bundleOf);
      todo := todo - {h};
    }
    RebuildDone(es, bundleOf, members, bunchOf, bunchList, newOf, newMembers);
  }

  /** The loop state of `Rebuild`: the bundles visited so far (those not in
      `todo`) have their bunch rebuilt. */
  ghost predicate RebuildInv(members: map<nat, seq<nat>>, bunchOf: map<nat, nat>, bunchList: map<nat, seq<nat>>,
                             bundleOf: map<nat, nat>, newOf: map<nat, nat>, newMembers: map<nat, seq<nat>>, todo: set<nat>) {
    && todo <= members.Keys
    && RebuiltBundles(members, bunchList, newMembers)
    && RebuiltMap(bundleOf, bunchOf, newOf, newMembers)
    && forall x :: x in members && x !in todo ==> x in bunchOf && bunchOf[x] in newMembers
  }

  /** Visits bundle `h`: rebuilds its bunch unless an earlier bundle of the
      same bunch already did. */
  method RebuildVisit(members: map<nat, seq<nat>>, bunchOf: map<nat, nat>, bunchList: map<nat, seq<nat>>, h: nat,
                      todo: set<nat>, newOf0: map<nat, nat>, newMembers0: map<nat, seq<nat>>,
                      ghost es: set<FlowEdge<nat>>, ghost bundleOf: map<nat, nat>)
    returns (newOf: map<nat, nat>, newMembers: map<nat, seq<nat>>)
    requires Bundled(es, bundleOf, members) && Bunches(bunchOf, bunchList, members.Keys)
    requires RebuildInv(members, bunchOf, bunchList, bundleOf, newOf0, newMembers0, todo) && h in todo
    ensures RebuildInv(members, bunchOf, bunchList, bundleOf, newOf, newMembers, todo - {h})
  {
    assert bundleOf[h] == h by {
      assert members[h][0] == h;
    }
    if h !in newOf0 {
      newOf, newMembers := RebuildBunch(members, bunchOf, bunchList, h, newOf0, newMembers0, es, bundleOf);
    } else {
      newOf, newMembers := newOf0, newMembers0;
      assert bunchOf[h] in newMembers;
    }
  }

  lemma RebuildDone(es: set<FlowEdge<nat>>, bundleOf: map<nat, nat>, members: map<nat, seq<nat>>,
                    bunchOf: map<nat, nat>, bunchList: map<nat, seq<nat>>,
                    newOf: map<nat, nat>, newMembers: map<nat, seq<nat>>)
    requires Bundled(es, bundleOf, members) && Bunches(bunchOf, bunchList, members.Keys)
    requires RebuildInv(members, bunchOf, bunchList, bundleOf, newOf, newMembers, {})
    ensures newMembers.Keys == bunchList.Keys
    ensures RebuiltBundles(members, bunchList, newMembers)
    ensures newOf.Keys == bundleOf.Keys
    ensures forall b :: b in newOf ==> newOf[b] == bunchOf[bundleOf[b]]
  {
    forall a | a in bunchList ensures a in newMembers {
      assert a in bunchList[a];
      assert a in bunchOf && bunchOf[a] == a;
      assert a in members.Keys;
    }
  }

  /** One step of the rebuilding: the bunch of bundle `h`, which has no
      rebuilt bundle yet, becomes one. */
  method RebuildBunch(members: map<nat, seq<nat>>, bunchOf: map<nat, nat>, bunchList: map<nat, seq<nat>>, h: nat,
                      newOf0: map<nat, nat>, newMembers0: map<nat, seq<nat>>,
                      ghost es: set<FlowEdge<nat>>, ghost bundleOf: map<nat, nat>)
    returns (newOf: map<nat, nat>, newMembers: map<nat, seq<nat>>)
    requires Bundled(es, bundleOf, members) && Bunches(bunchOf, bunchList, members.Keys)
    requires RebuiltBundles(members, bunchList, newMembers0) && RebuiltMap(bundleOf, bunchOf, newOf0, newMembers0)
    requires h in members && bundleOf[h] == h && h !in newOf0
    ensures RebuiltBundles(members, bunchList, newMembers) && RebuiltMap(bundleOf, bunchOf, newOf, newMembers)
    ensures newMembers.Keys == newMembers0.Keys + {bunchOf[h]}
  {
    var a := bunchOf[h];
    var list := bunchList[a];
    BunchBlocks(es, bundleOf, members, bunchOf, bunchList, a, h);
    var blocks := ConcatBundles(members, list);
    ConcatHead(members, list);
    var id := blocks[0];
    assert id == a;
    newOf := MapAll(newOf0, blocks, id);
    RebuildStep(es, bundleOf, members, bunchOf, bunchList, newOf0, newMembers0, a, newOf);
    RebuiltBundlesAdd(members, bunchList, newMembers0, a);
    newMembers := newMembers0[id := blocks];
  }

  lemma RebuiltBundlesAdd(members: map<nat, seq<nat>>, bunchList: map<nat, seq<nat>>, newMembers: map<nat, seq<nat>>, a: nat)
    requires RebuiltBundles(members, bunchList, newMembers)
    requires a in bunchList && forall i :: i in bunchList[a] ==> i in members
    ensures RebuiltBundles(members, bunchList, newMembers[a := Concat(members, bunchList[a])])
  {
  }

  lemma RebuildStep(es: set<FlowEdge<nat>>, bundleOf: map<nat, nat>, members: map<nat, seq<nat>>,
                    bunchOf: map<nat, nat>, bunchList: map<nat, seq<nat>>,
                    newOf: map<nat, nat>, newMembers: map<nat, seq<nat>>, a: nat, newOf': map<nat, nat>)
    requires Bundled(es, bundleOf, members) && Bunches(bunchOf, bunchList, members.Keys)
    requires RebuiltMap(bundleOf, bunchOf, newOf, newMembers)
    requires a in bunchList
    requires forall i :: i in bunchList[a] ==> i in members
    requires newOf' == Assign(newOf, Concat(members, bunchList[a]), a)
    ensures RebuiltMap(bundleOf, bunchOf, newOf', newMembers[a := Concat(members, bunchList[a])])
  {
    var blocks := Concat(members, bunchList[a]);
    var nm := newMembers[a := blocks];
    forall b ensures b in blocks <==> b in bundleOf && bunchOf[bundleOf[b]] == a {
      BunchBlocks(es, bundleOf, members, bunchOf, bunchList, a, b);
    }
    forall b ensures b in newOf' <==> b in bundleOf && bundleOf[b] in bunchOf && bunchOf[bundleOf[b]] in nm {
      assert b in newOf' <==> b in newOf || b in blocks;
    }
    forall b | b in newOf' ensures b in bundleOf && bundleOf[b] in bunchOf && newOf'[b] == bunchOf[bundleOf[b]] {
      if b in blocks {
        assert newOf'[b] == a;
      } else {
        assert newOf'[b] == newOf[b];
      }
    }
  }
}
