/** The bundle graph of the control-flow-graph dumper and the recursive,
    SCC-driven ordering of its bundles. A bundle (or a bunch of bundles) is
    named by the id of its first block, as `BlockBundle` compares and hashes
    by its first block. */
module BundleOrder {

  datatype BundleGraph = BundleGraph(vertices: set<nat>, edges: set<(nat, nat)>)

  predicate Distinct(s: seq<nat>) {
    forall i, j :: 0 <= i < j < |s| ==> s[i] != s[j]
  }

  /** The members of a sequence. */
  function Elems(s: seq<nat>): (r: set<nat>)
    ensures forall x :: x in r <==> x in s
  {
    set x | x in s
  }

  /** `inducedSubgraph`: every given vertex, and every edge of `g` whose two
      ends are both given. */
  function InducedSubgraph(g: BundleGraph, vs: set<nat>): (r: BundleGraph)
    ensures r.vertices == vs
    ensures forall e :: e in r.edges <==> e in g.edges && e.0 in vs && e.1 in vs
  {
    BundleGraph(vs, set e | e in g.edges && e.0 in vs && e.1 in vs)
  }

  /** Inducing twice is inducing once on the smaller set, so each recursive
      level of the ordering sees the edges of the full graph among its own
      bundles. */
  lemma InducedTwice(g: BundleGraph, a: set<nat>, b: set<nat>)
    requires b <= a
    ensures InducedSubgraph(InducedSubgraph(g, a), b) == InducedSubgraph(g, b)
  {
    var l, r := InducedSubgraph(InducedSubgraph(g, a), b), InducedSubgraph(g, b);
    assert l.edges == r.edges;
  }

  /** No edge of `g` enters `b` from a member of `scc` (itself included). */
  predicate NoPredIn(g: BundleGraph, scc: seq<nat>, b: nat) {
    forall a :: a in scc ==> (a, b) !in g.edges
  }

  /** `chooseEntry`: a member of the component without a predecessor inside
      it when there is one, otherwise the component's first member. Among
      several candidates the first one in component order is taken. */
  function ChooseEntry(g: BundleGraph, scc: seq<nat>): (r: nat)
    requires scc != []
    ensures r in scc
    ensures (exists b :: b in scc && NoPredIn(g, scc, b)) ==> NoPredIn(g, scc, r)
    ensures (forall b :: b in scc ==> !NoPredIn(g, scc, b)) ==> r == scc[0]
  {
    FirstCandidate(g, scc, 0)
  }

  function FirstCandidate(g: BundleGraph, scc: seq<nat>, i: nat): (r: nat)
    requires i <= |scc| && scc != []
    ensures r in scc
    ensures (exists j :: i <= j < |scc| && NoPredIn(g, scc, scc[j])) ==> NoPredIn(g, scc, r)
    ensures (forall j :: i <= j < |scc| ==> !NoPredIn(g, scc, scc[j])) ==> r == scc[0]
    decreases |scc| - i
  {
    if i == |scc| then scc[0]
    else if NoPredIn(g, scc, scc[i]) then scc[i]
    else FirstCandidate(g, scc, i + 1)
  }

  /** What the Tarjan search promises here: nonempty components without
      repeats, pairwise disjoint, together holding exactly the vertices. */
  ghost predicate IsPartition(comps: seq<seq<nat>>, vs: set<nat>) {
    (forall i :: 0 <= i < |comps| ==> comps[i] != [] && Distinct(comps[i]))
    && (forall i, j, x :: 0 <= i < j < |comps| && x in comps[i] ==> x !in comps[j])
    && (forall x :: x in vs <==> exists i :: 0 <= i < |comps| && x in comps[i])
  }

  /** The Tarjan SCC search of a graph, started at the given bundle and
      restarted at every bundle not yet reached. Its internals are not part of
      this model; only the partition it returns is. */
  type SccSearch = (BundleGraph, nat) -> seq<seq<nat>>

  ghost predicate IsSccSearch(search: SccSearch) {
    forall g, e :: IsPartition(search(g, e), g.vertices)
  }

  /** The static `linearize`: a single component is emitted in the order the
      search gives; several are each ordered recursively from their chosen
      entry, in component order. Every bundle comes out exactly once. */
  function Linearize(bundles: set<nat>, full: BundleGraph, entry: nat, search: SccSearch): (order: seq<nat>)
    requires IsSccSearch(search)
    ensures Distinct(order)
    ensures forall b :: b in order <==> b in bundles
    decreases |bundles|, 1
  {
    var sub := InducedSubgraph(full, bundles);
    var comps := search(sub, entry);
    if |comps| == 1 then comps[0]
    else Flatten(comps, 0, sub, bundles, search)
  }

  function Flatten(comps: seq<seq<nat>>, i: nat, sub: BundleGraph, bundles: set<nat>, search: SccSearch): (order: seq<nat>)
    requires IsSccSearch(search) && IsPartition(comps, bundles)
    requires |comps| != 1 && i <= |comps|
    ensures Distinct(order)
    ensures forall b :: b in order <==> exists j :: i <= j < |comps| && b in comps[j]
    decreases |bundles|, 0, |comps| - i
  {
    if i == |comps| then []
    else
      var part := Elems(comps[i]);
      PartIsSmaller(comps, bundles, i);
      var head := Linearize(part, sub, ChooseEntry(sub, comps[i]), search);
      var tail := Flatten(comps, i + 1, sub, bundles, search);
      DisjointConcat(head, tail);
      head + tail
  }

  /** With two or more components, each one is a proper part of the whole. */
  lemma PartIsSmaller(comps: seq<seq<nat>>, bundles: set<nat>, i: nat)
    requires IsPartition(comps, bundles) && |comps| != 1 && i < |comps|
    ensures |Elems(comps[i])| < |bundles|
  {
    var part := Elems(comps[i]);
    var j := if i == 0 then 1 else 0;
    var y := comps[j][0];
    assert y in comps[j];
    assert y in bundles;
    assert y !in part by {
      if i < j {
        assert forall x :: x in comps[i] ==> x !in comps[j];
      } else {
        assert forall x :: x in comps[j] ==> x !in comps[i];
      }
    }
    forall x | x in part ensures x in bundles {
      assert x in comps[i];
    }
    ProperSubsetSmaller(part, bundles, y);
  }

  lemma ProperSubsetSmaller(a: set<nat>, b: set<nat>, y: nat)
    requires a <= b && y in b && y !in a
    ensures |a| < |b|
  {
    assert b == a + (b - a);
    assert y in b - a;
  }

  lemma DisjointConcat(a: seq<nat>, b: seq<nat>)
    requires Distinct(a) && Distinct(b)
    requires forall x :: x in a ==> x !in b
    ensures Distinct(a + b)
  {
    forall i, j | 0 <= i < j < |a + b| ensures (a + b)[i] != (a + b)[j] {
      if i < |a| && j >= |a| {
        assert (a + b)[i] in a && (a + b)[j] in b;
      }
    }
  }
}
