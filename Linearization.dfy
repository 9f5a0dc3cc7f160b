/** The layout that `linearize()` of the control-flow-graph dumper computes,
    and why it is sound: the bundle graph it hands to the SCC ordering, and
    the facts about the final block order — no block twice, exactly the
    blocks on fall-through chains, and every fall-through reaching the next
    block. */
module Linearization {
  import opened FlowGraphs
  import opened Bundling
  import BundleOrder

  /** A block lies on a full fall-through chain whose head the depth-first
      search reached: exactly the blocks `linearize()` bundles. */
  ghost predicate InBundle(es: set<FlowEdge<nat>>, postorder: seq<nat>, b: nat) {
    exists c :: FullChain(es, c) && c[0] in postorder && b in c
  }

  /** Some block of the range is bundled and a later one is not, so the
      grouping of the range looks up the bunch of a missing bundle. */
  ghost predicate BreaksRange(es: set<FlowEdge<nat>>, postorder: seq<nat>, nodes: seq<nat>) {
    exists i, j :: 0 <= i < j < |nodes| && InBundle(es, postorder, nodes[i]) && !InBundle(es, postorder, nodes[j])
  }

  /** Every fall-through out of a block of the order reaches the next block. */
  ghost predicate FallsInPlace(order: seq<nat>, es: set<FlowEdge<nat>>) {
    forall i, e :: 0 <= i < |order| && e in es && e.src == order[i] && e.kind == Immediate ==>
      i + 1 < |order| && order[i + 1] == e.dst
  }

  /** The state of `linearize()` after the bundles are rebuilt from the
      bunches: `bundleOf`/`members` are the fall-through bundles, `bunchOf`/
      `bunchList` their grouping by exception ranges, and `newOf`/
      `newMembers` the rebuilt bundles. */
  ghost predicate Staged(es: set<FlowEdge<nat>>, postorder: seq<nat>,
                         bundleOf: map<nat, nat>, members: map<nat, seq<nat>>,
                         bunchOf: map<nat, nat>, bunchList: map<nat, seq<nat>>,
                         newOf: map<nat, nat>, newMembers: map<nat, seq<nat>>) {
    && FallThroughShape(es)
    && members.Keys == Heads(es, postorder)
    && Bundled(es, bundleOf, members)
    && Bunches(bunchOf, bunchList, members.Keys)
    && newMembers.Keys == bunchList.Keys
    && RebuiltBundles(members, bunchList, newMembers)
    && newOf.Keys == bundleOf.Keys
    && (forall b :: b in newOf ==> newOf[b] == bunchOf[bundleOf[b]])
  }

  /** A block gets a bundle iff it lies on a full chain from a reached head. */
  lemma BundledIff(es: set<FlowEdge<nat>>, postorder: seq<nat>, bundleOf: map<nat, nat>, members: map<nat, seq<nat>>, b: nat)
    requires FallThroughShape(es) && members.Keys == Heads(es, postorder) && Bundled(es, bundleOf, members)
    ensures b in bundleOf <==> InBundle(es, postorder, b)
  {
    if b in bundleOf {
      var c := members[bundleOf[b]];
      assert FullChain(es, c) && c[0] in postorder && b in c;
    }
    if InBundle(es, postorder, b) {
      var c :| FullChain(es, c) && c[0] in postorder && b in c;
      var h := c[0];
      assert h in Heads(es, postorder);
      FullChainUnique(es, c, members[h]);
    }
  }

  /** Some range of the method breaks. */
  ghost predicate SomeRangeBreaks(es: set<FlowEdge<nat>>, postorder: seq<nat>, ranges: seq<ExceptionRange<nat>>) {
    exists k :: 0 <= k < |ranges| && BreaksRange(es, postorder, ranges[k].nodes)
  }

  /** A bundled block is a block of the graph: it is a head the search
      reached or the target of a fall-through. */
  lemma InBundleIsVertex(es: set<FlowEdge<nat>>, postorder: seq<nat>, vs: set<nat>, b: nat)
    requires forall x :: x in postorder ==> x in vs
    requires forall e :: e in es ==> e.dst in vs
    requires InBundle(es, postorder, b)
    ensures b in vs
  {
    var c :| FullChain(es, c) && c[0] in postorder && b in c;
    var k :| 0 <= k < |c| && c[k] == b;
    if k > 0 {
      ChainStep(es, c, k - 1);
    }
  }

  /** Grouping a range meets a missing bundle exactly when the range breaks. */
  lemma NullIffBreaks(es: set<FlowEdge<nat>>, postorder: seq<nat>, bundleOf: map<nat, nat>, members: map<nat, seq<nat>>,
                      ranges: seq<ExceptionRange<nat>>)
    requires FallThroughShape(es) && members.Keys == Heads(es, postorder) && Bundled(es, bundleOf, members)
    ensures (exists k :: 0 <= k < |ranges| && NullAfterBundled(bundleOf, ranges[k].nodes))
            <==> SomeRangeBreaks(es, postorder, ranges)
  {
    forall b ensures b in bundleOf <==> InBundle(es, postorder, b) {
      BundledIff(es, postorder, bundleOf, members, b);
    }
  }

  /** A block is in a rebuilt bundle iff it maps to that bundle. */
  lemma InNewBundle(es: set<FlowEdge<nat>>, postorder: seq<nat>,
                    bundleOf: map<nat, nat>, members: map<nat, seq<nat>>,
                    bunchOf: map<nat, nat>, bunchList: map<nat, seq<nat>>,
                    newOf: map<nat, nat>, newMembers: map<nat, seq<nat>>, a: nat, x: nat)
    requires Staged(es, postorder, bundleOf, members, bunchOf, bunchList, newOf, newMembers)
    requires a in newMembers
    ensures x in newMembers[a] <==> x in newOf && newOf[x] == a
  {
    BunchBlocks(es, bundleOf, members, bunchOf, bunchList, a, x);
  }

  /** A rebuilt bundle holds no block twice. */
  lemma NewBundleDistinct(es: set<FlowEdge<nat>>, bundleOf: map<nat, nat>, members: map<nat, seq<nat>>,
                          bunchOf: map<nat, nat>, bunchList: map<nat, seq<nat>>, a: nat)
    requires FallThroughShape(es) && Bundled(es, bundleOf, members) && Bunches(bunchOf, bunchList, members.Keys)
    requires a in bunchList
    ensures forall h :: h in bunchList[a] ==> h in members
    ensures BundleOrder.Distinct(Concat(members, bunchList[a]))
  {
    var list := bunchList[a];
    forall h | h in list ensures h in members && BundleOrder.Distinct(members[h]) {
      ChainDistinct(es, members[h]);
    }
    forall h1, h2, x | h1 in list && h2 in list && h1 != h2 && x in members[h1] ensures x !in members[h2] {
      assert bundleOf[x] == h1;
    }
    ConcatDistinct(members, list);
  }

  /** The final order holds no block twice. */
  lemma OrderDistinct(es: set<FlowEdge<nat>>, postorder: seq<nat>,
                      bundleOf: map<nat, nat>, members: map<nat, seq<nat>>,
                      bunchOf: map<nat, nat>, bunchList: map<nat, seq<nat>>,
                      newOf: map<nat, nat>, newMembers: map<nat, seq<nat>>, ids: seq<nat>)
    requires Staged(es, postorder, bundleOf, members, bunchOf, bunchList, newOf, newMembers)
    requires BundleOrder.Distinct(ids) && forall x :: x in ids <==> x in newMembers
    ensures BundleOrder.Distinct(Concat(newMembers, ids))
  {
    forall a | a in ids ensures BundleOrder.Distinct(newMembers[a]) {
      NewBundleDistinct(es, bundleOf, members, bunchOf, bunchList, a);
    }
    forall a1, a2, x | a1 in ids && a2 in ids && a1 != a2 && x in newMembers[a1] ensures x !in newMembers[a2] {
      InNewBundle(es, postorder, bundleOf, members, bunchOf, bunchList, newOf, newMembers, a1, x);
      InNewBundle(es, postorder, bundleOf, members, bunchOf, bunchList, newOf, newMembers, a2, x);
    }
    ConcatDistinct(newMembers, ids);
  }

  /** The final order holds exactly the bundled blocks. */
  lemma OrderMembers(es: set<FlowEdge<nat>>, postorder: seq<nat>,
                     bundleOf: map<nat, nat>, members: map<nat, seq<nat>>,
                     bunchOf: map<nat, nat>, bunchList: map<nat, seq<nat>>,
                     newOf: map<nat, nat>, newMembers: map<nat, seq<nat>>, ids: seq<nat>, b: nat)
    requires Staged(es, postorder, bundleOf, members, bunchOf, bunchList, newOf, newMembers)
    requires forall x :: x in ids <==> x in newMembers
    ensures b in Concat(newMembers, ids) <==> InBundle(es, postorder, b)
  {
    BundledIff(es, postorder, bundleOf, members, b);
    ConcatMember(newMembers, ids, b);
    if b in newOf {
      var a := newOf[b];
      assert a in newMembers by {
        assert bundleOf[b] in members && b in members[bundleOf[b]];
        assert bundleOf[b] in bunchOf;
      }
      InNewBundle(es, postorder, bundleOf, members, bunchOf, bunchList, newOf, newMembers, a, b);
      var j :| 0 <= j < |ids| && ids[j] == a;
    }
    if b in Concat(newMembers, ids) {
      var j :| 0 <= j < |ids| && b in newMembers[ids[j]];
      InNewBundle(es, postorder, bundleOf, members, bunchOf, bunchList, newOf, newMembers, ids[j], b);
    }
  }

  /** A fall-through out of a bundled block joins it to its successor on
      the block's chain, and that chain is one of the bundles of its bunch. */
  lemma ChainPosition(es: set<FlowEdge<nat>>, bundleOf: map<nat, nat>, members: map<nat, seq<nat>>,
                      bunchOf: map<nat, nat>, bunchList: map<nat, seq<nat>>, b: nat, e: FlowEdge<nat>)
    returns (a: nat, k: nat, p: nat)
    requires FallThroughShape(es) && Bundled(es, bundleOf, members) && Bunches(bunchOf, bunchList, members.Keys)
    requires b in bundleOf && e in es && e.src == b && e.kind == Immediate
    ensures a == bunchOf[bundleOf[b]] && a in bunchList && k < |bunchList[a]| && bunchList[a][k] in members
    ensures p + 1 < |members[bunchList[a][k]]|
    ensures members[bunchList[a][k]][p] == b && members[bunchList[a][k]][p + 1] == e.dst
  {
    var h := bundleOf[b];
    var c := members[h];
    p :| 0 <= p < |c| && c[p] == b;
    assert HasFallOut(es, b);
    assert p < |c| - 1;
    ChainStep(es, c, p);
    assert e.dst == c[p + 1];
    a := bunchOf[h];
    var list := bunchList[a];
    assert h in list;
    k :| 0 <= k < |list| && list[k] == h;
  }

  /** A fall-through out of a block of the final order reaches the next
      block: the edge joins neighbours p and p + 1 of one chain, the k-th
      bundle of the j-th bunch, the chain lies whole in its rebuilt bundle,
      and the bundle lies whole in the order. */
  lemma FallStep(members: map<nat, seq<nat>>, bunchList: map<nat, seq<nat>>, newMembers: map<nat, seq<nat>>,
                 ids: seq<nat>, j: nat, k: nat, p: nat, i: nat)
    requires RebuiltBundles(members, bunchList, newMembers) && forall x :: x in ids ==> x in newMembers
    requires BundleOrder.Distinct(Concat(newMembers, ids)) && i < |Concat(newMembers, ids)| && j < |ids|
    requires k < |bunchList[ids[j]]| && bunchList[ids[j]][k] in members
    requires p + 1 < |members[bunchList[ids[j]][k]]|
    requires members[bunchList[ids[j]][k]][p] == Concat(newMembers, ids)[i]
    ensures i + 1 < |Concat(newMembers, ids)|
    ensures Concat(newMembers, ids)[i + 1] == members[bunchList[ids[j]][k]][p + 1]
  {
    var r := NestedAdjacent(members, bunchList, newMembers, ids, j, k, p);
    SamePlace(Concat(newMembers, ids), r, i);
  }

  /** Neighbours in a bundle of a bunch are neighbours in the order. */
  lemma NestedAdjacent(members: map<nat, seq<nat>>, bunchList: map<nat, seq<nat>>, newMembers: map<nat, seq<nat>>,
                       ids: seq<nat>, j: nat, k: nat, p: nat) returns (r: nat)
    requires forall x :: x in ids ==> x in newMembers
    requires j < |ids| && ids[j] in bunchList && forall h :: h in bunchList[ids[j]] ==> h in members
    requires newMembers[ids[j]] == Concat(members, bunchList[ids[j]])
    requires k < |bunchList[ids[j]]| && p + 1 < |members[bunchList[ids[j]][k]]|
    ensures r + 1 < |Concat(newMembers, ids)|
    ensures Concat(newMembers, ids)[r] == members[bunchList[ids[j]][k]][p]
    ensures Concat(newMembers, ids)[r + 1] == members[bunchList[ids[j]][k]][p + 1]
  {
    var q := ConcatAdjacent(members, bunchList[ids[j]], k, p);
    r := ConcatAdjacent(newMembers, ids, j, q);
  }

  lemma SamePlace(s: seq<nat>, i: nat, j: nat)
    requires BundleOrder.Distinct(s) && i < |s| && j < |s| && s[i] == s[j]
    ensures i == j
  {
  }

  /** What `linearize()` promises of the order it builds. */
  lemma OrderFacts(es: set<FlowEdge<nat>>, postorder: seq<nat>,
                   bundleOf: map<nat, nat>, members: map<nat, seq<nat>>,
                   bunchOf: map<nat, nat>, bunchList: map<nat, seq<nat>>,
                   newOf: map<nat, nat>, newMembers: map<nat, seq<nat>>, ids: seq<nat>)
    requires Staged(es, postorder, bundleOf, members, bunchOf, bunchList, newOf, newMembers)
    requires BundleOrder.Distinct(ids) && forall x :: x in ids <==> x in newMembers
    ensures BundleOrder.Distinct(Concat(newMembers, ids))
    ensures forall b :: b in Concat(newMembers, ids) <==> InBundle(es, postorder, b)
    ensures FallsInPlace(Concat(newMembers, ids), es)
  {
    OrderDistinct(es, postorder, bundleOf, members, bunchOf, bunchList, newOf, newMembers, ids);
    forall b ensures b in Concat(newMembers, ids) <==> InBundle(es, postorder, b) {
      OrderMembers(es, postorder, bundleOf, members, bunchOf, bunchList, newOf, newMembers, ids, b);
    }
    var order := Concat(newMembers, ids);
    forall i, e | 0 <= i < |order| && e in es && e.src == order[i] && e.kind == Immediate
      ensures i + 1 < |order| && order[i + 1] == e.dst
    {
      var b := order[i];
      ConcatMember(newMembers, ids, b);
      var j :| 0 <= j < |ids| && b in newMembers[ids[j]];
      InNewBundle(es, postorder, bundleOf, members, bunchOf, bunchList, newOf, newMembers, ids[j], b);
      var a, k, p := ChainPosition(es, bundleOf, members, bunchOf, bunchList, b, e);
      FallStep(members, bunchList, newMembers, ids, j, k, p, i);
    }
  }

  /** The second half of `linearize()`: the bundles are rebuilt from the
      bunches, their graph is built, the SCC ordering orders them starting at
      the entry's bundle (the entry block itself names it when the entry has
      no bundle), and the order is their blocks, bundle after bundle. */
  method Layout(es: set<FlowEdge<nat>>, postorder: seq<nat>, search: BundleOrder.SccSearch, entry: nat,
                bundleOf: map<nat, nat>, members: map<nat, seq<nat>>,
                bunchOf: map<nat, nat>, bunchList: map<nat, seq<nat>>)
    returns (order: seq<nat>)
    requires BundleOrder.IsSccSearch(search)
    requires FallThroughShape(es) && members.Keys == Heads(es, postorder) && Bundled(es, bundleOf, members)
    requires Bunches(bunchOf, bunchList, members.Keys)
    ensures BundleOrder.Distinct(order)
    ensures forall b :: b in order <==> InBundle(es, postorder, b)
    ensures FallsInPlace(order, es)
  {
    var newOf, newMembers := Rebuild(members, bunchOf, bunchList, es, bundleOf);
    var entryBundle := if entry in newOf then newOf[entry] else entry;
    var g := BuildBundleGraph(es, postorder, newOf, entryBundle);
    var ids := BundleOrder.Linearize(newMembers.Keys, g, entryBundle, search);
    order := ConcatBundles(newMembers, ids);
    OrderFacts(es, postorder, bundleOf, members, bunchOf, bunchList, newOf, newMembers, ids);
  }

  // ---------------------------------------------------------------------
  // the bundle graph

  /** An edge survives into the bundle graph when it is not a fall-through
      and both its ends have bundles. */
  predicate Kept(newOf: map<nat, nat>, e: FlowEdge<nat>) {
    e.kind != Immediate && e.src in newOf && e.dst in newOf
  }

  /** The bundle-graph edges the flow edges `done` give. */
  ghost function EdgeImage(newOf: map<nat, nat>, done: set<FlowEdge<nat>>): set<(nat, nat)> {
    set e | e in done && Kept(newOf, e) :: (newOf[e.src], newOf[e.dst])
  }

  lemma EdgeImageAdd(newOf: map<nat, nat>, done: set<FlowEdge<nat>>, e: FlowEdge<nat>)
    ensures EdgeImage(newOf, done + {e})
            == EdgeImage(newOf, done) + (if Kept(newOf, e) then {(newOf[e.src], newOf[e.dst])} else {})
  {
    var l := EdgeImage(newOf, done + {e});
    var r := EdgeImage(newOf, done) + (if Kept(newOf, e) then {(newOf[e.src], newOf[e.dst])} else {});
    forall p | p in l ensures p in r {
      var x :| x in done + {e} && Kept(newOf, x) && p == (newOf[x.src], newOf[x.dst]);
      if x != e {
        assert p in EdgeImage(newOf, done);
      }
    }
    forall p | p in r ensures p in l {
      if p in EdgeImage(newOf, done) {
        var x :| x in done && Kept(newOf, x) && p == (newOf[x.src], newOf[x.dst]);
        assert x in done + {e};
      }
    }
  }

  /** The bundle-graph edges of all non-fall-through edges between bundled
      blocks, out of the blocks of the postorder. */
  ghost function GraphEdges(es: set<FlowEdge<nat>>, postorder: seq<nat>, newOf: map<nat, nat>): set<(nat, nat)> {
    EdgeImage(newOf, From(es, postorder))
  }

  /** The edges out of the blocks of `s`. */
  ghost function From(es: set<FlowEdge<nat>>, s: seq<nat>): set<FlowEdge<nat>> {
    set e | e in es && e.src in s
  }

  /** The edges out of one block. */
  function Outgoing(es: set<FlowEdge<nat>>, b: nat): (r: set<FlowEdge<nat>>)
    ensures forall e :: e in r <==> e in es && e.src == b
  {
    set e | e in es && e.src == b
  }

  lemma FromSnoc(es: set<FlowEdge<nat>>, s: seq<nat>, b: nat)
    ensures From(es, s + [b]) == From(es, s) + Outgoing(es, b)
  {
  }

  /** The bundle graph of `linearize()`: for every block of the postorder and
      every edge out of it that is not a fall-through, an edge between the
      bundles of its ends; an edge with an end outside every bundle is left
      out, as the induced subgraphs the ordering works on would drop it. The
      graph's own vertex set plays no part in the ordering, which induces
      on the rebuilt bundles; it holds the entry's bundle. */
  method BuildBundleGraph(es: set<FlowEdge<nat>>, postorder: seq<nat>, newOf: map<nat, nat>, entry: nat)
    returns (g: BundleOrder.BundleGraph)
    ensures g.edges == GraphEdges(es, postorder, newOf)
    ensures entry in g.vertices
  {
    g := BundleOrder.BundleGraph({entry}, {});
    var i := 0;
    assert postorder[..0] == [];
    assert From(es, []) == {};
    while i < |postorder|
      invariant 0 <= i <= |postorder|
      invariant g.edges == EdgeImage(newOf, From(es, postorder[..i]))
      invariant entry in g.vertices
    {
      var b := postorder[i];
      FromSnoc(es, postorder[..i], b);
      assert postorder[..i + 1] == postorder[..i] + [b];
      g := AddBlockEdges(g, es, b, newOf, From(es, postorder[..i]));
      i := i + 1;
    }
    assert postorder[..i] == postorder;
  }

  /** The inner loop of the bundle graph: the edges out of one block. */
  method AddBlockEdges(g0: BundleOrder.BundleGraph, es: set<FlowEdge<nat>>, b: nat, newOf: map<nat, nat>,
                       ghost done0: set<FlowEdge<nat>>)
    returns (g: BundleOrder.BundleGraph)
    requires g0.edges == EdgeImage(newOf, done0)
    ensures g.edges == EdgeImage(newOf, done0 + Outgoing(es, b))
    ensures g0.vertices <= g.vertices
  {
    g := g0;
    var out := Outgoing(es, b);
    var todo := out;
    ghost var done := done0;
    assert done0 + (out - todo) == done0;
    while todo != {}
      invariant todo <= out
      invariant done == done0 + (out - todo)
      invariant g.edges == EdgeImage(newOf, done)
      invariant g0.vertices <= g.vertices
      decreases |todo|
    {
      var e :| e in todo;
      TakeOne(done0, out, todo, e);
      EdgeImageAdd(newOf, done, e);
      if e.kind != Immediate && b in newOf {
        g := g.(vertices := g.vertices + {newOf[b]});
        if e.dst in newOf {
          g := g.(edges := g.edges + {(newOf[b], newOf[e.dst])});
        }
      }
      done := done + {e};
      todo := todo - {e};
    }
    assert out - todo == out;
  }
}
