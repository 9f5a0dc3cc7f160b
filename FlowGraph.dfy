/** The flow-graph container: a directed graph of blocks with typed edges,
    a set of entry blocks, a list of exception ranges and an id -> block index. */
module FlowGraphs {
  import opened Wrappers

  /** The kinds of control-flow edge. */
  datatype EdgeKind = Immediate | Conditional | UnconditionalJump | TryCatch | Switch

  datatype FlowEdge<N> = FlowEdge(src: N, dst: N, kind: EdgeKind)

  /** A protected region: the protected blocks in list order, the handler
      block and the set of guarded exception type names. */
  datatype ExceptionRange<N> = ExceptionRange(nodes: seq<N>, handler: N, types: set<string>)

  /** The range with every occurrence of `v` taken out of its protected blocks. */
  function WithoutNode<N(==,!new)>(r: ExceptionRange<N>, v: N): (r': ExceptionRange<N>)
    ensures r'.handler == r.handler && r'.types == r.types
    ensures forall w :: w in r'.nodes <==> w in r.nodes && w != v
    ensures |r'.nodes| <= |r.nodes|
  {
    r.(nodes := RemoveAll(r.nodes, v))
  }

  function RemoveAll<N(==,!new)>(s: seq<N>, v: N): (s': seq<N>)
    ensures forall w :: w in s' <==> w in s && w != v
    ensures |s'| <= |s|
  {
    if s == [] then []
    else if s[0] == v then RemoveAll(s[1..], v)
    else [s[0]] + RemoveAll(s[1..], v)
  }

  /** What remains of a range list once `v` is taken out of every range:
      ranges left empty are dropped, the others keep their order. */
  function PruneRanges<N(==,!new)>(rs: seq<ExceptionRange<N>>, v: N): (r: seq<ExceptionRange<N>>)
    ensures |r| <= |rs|
  {
    if rs == [] then [] else Kept(rs[0], v) + PruneRanges(rs[1..], v)
  }

  /** What removing `v` leaves of one range: the shrunk range, or nothing
      when no protected block remains. */
  function Kept<N(==,!new)>(r: ExceptionRange<N>, v: N): seq<ExceptionRange<N>> {
    var shrunk := WithoutNode(r, v);
    if shrunk.nodes == [] then [] else [shrunk]
  }

  /** No range left after removing `v` is empty or still protects `v`. */
  lemma {:induction false} PruneClean<N(!new)>(rs: seq<ExceptionRange<N>>, v: N)
    ensures forall x :: x in PruneRanges(rs, v) ==> x.nodes != [] && v !in x.nodes
  {
    if rs != [] {
      PruneClean(rs[1..], v);
    }
  }

  /** The ranges left after removing `v` are exactly the non-empty shrunk
      input ranges; in particular a range whose every protected block is `v`
      is dropped. */
  lemma {:induction false} PruneMembers<N(!new)>(rs: seq<ExceptionRange<N>>, v: N, x: ExceptionRange<N>)
    ensures x in PruneRanges(rs, v) <==> exists r :: r in rs && x == WithoutNode(r, v) && x.nodes != []
  {
    if rs != [] {
      PruneMembers(rs[1..], v, x);
      if x == WithoutNode(rs[0], v) && x.nodes != [] {
        assert x in PruneRanges(rs, v);
      }
      if x in PruneRanges(rs[1..], v) {
        var r :| r in rs[1..] && x == WithoutNode(r, v) && x.nodes != [];
        assert r in rs;
      }
      if exists r :: r in rs && x == WithoutNode(r, v) && x.nodes != [] {
        var r :| r in rs && x == WithoutNode(r, v) && x.nodes != [];
        if r != rs[0] {
          assert r in rs[1..];
        }
      }
    }
  }

  /** A range that protects some block other than `v` survives, shrunk by `v`,
      and its position relative to the ranges before it is kept. */
  lemma {:induction false} PruneKeepsShrunkRange<N(!new)>(rs: seq<ExceptionRange<N>>, v: N, i: nat)
    requires i < |rs| && exists w :: w in rs[i].nodes && w != v
    ensures WithoutNode(rs[i], v) in PruneRanges(rs, v)
    ensures PruneRanges(rs, v) == PruneRanges(rs[..i], v) + [WithoutNode(rs[i], v)] + PruneRanges(rs[i+1..], v)
  {
    var w :| w in rs[i].nodes && w != v;
    assert w in WithoutNode(rs[i], v).nodes;
    PruneSplit(rs, v, i);
    PruneSplit(rs[i..], v, 1);
    assert rs[i..][..1] == [rs[i]];
    assert rs[i..][1..] == rs[i+1..];
    assert PruneRanges([rs[i]], v) == [WithoutNode(rs[i], v)] by {
      assert [rs[i]][1..] == [];
    }
  }

  /** Pruning distributes over splitting the list. */
  lemma PruneSplit<N(!new)>(rs: seq<ExceptionRange<N>>, v: N, i: nat)
    requires i <= |rs|
    ensures PruneRanges(rs, v) == PruneRanges(rs[..i], v) + PruneRanges(rs[i..], v)
  {
    assert rs == rs[..i] + rs[i..];
    PruneAppend(rs[..i], rs[i..], v);
  }

  /** Pruning distributes over concatenation. */
  lemma {:induction false} PruneAppend<N(!new)>(a: seq<ExceptionRange<N>>, b: seq<ExceptionRange<N>>, v: N)
    ensures PruneRanges(a + b, v) == PruneRanges(a, v) + PruneRanges(b, v)
  {
    if a == [] {
      assert a + b == b;
    } else {
      PruneAppend(a[1..], b, v);
      PruneCons(a, b, v);
    }
  }

  lemma PruneCons<N(!new)>(a: seq<ExceptionRange<N>>, b: seq<ExceptionRange<N>>, v: N)
    requires a != []
    ensures PruneRanges(a + b, v) == Kept(a[0], v) + PruneRanges(a[1..] + b, v)
  {
    assert (a + b)[0] == a[0];
    assert (a + b)[1..] == a[1..] + b;
  }

  lemma PruneSnoc<N(!new)>(rs: seq<ExceptionRange<N>>, v: N, i: nat)
    requires i < |rs|
    ensures PruneRanges(rs[..i + 1], v) == PruneRanges(rs[..i], v) + Kept(rs[i], v)
  {
    PruneSplit(rs[..i + 1], v, i);
    assert rs[..i + 1][..i] == rs[..i];
    assert rs[..i + 1][i..] == [rs[i]];
    assert [rs[i]][1..] == [];
  }

  /** The range loop of `removeVertex`: each range loses `v`, and a range
      left empty is dropped. */
  method Prune<N(==,!new)>(rs: seq<ExceptionRange<N>>, v: N) returns (kept: seq<ExceptionRange<N>>)
    ensures kept == PruneRanges(rs, v)
  {
    kept := [];
    var i := 0;
    while i < |rs|
      invariant 0 <= i <= |rs|
      invariant kept == PruneRanges(rs[..i], v)
    {
      var r := WithoutNode(rs[i], v);
      PruneSnoc(rs, v, i);
      if r.nodes != [] {
        kept := kept + [r];
      }
      i := i + 1;
    }
    assert rs[..i] == rs;
  }

  /** The block reached by following `e` in the walk direction. */
  function Next<N>(e: FlowEdge<N>, forward: bool): N {
    if forward then e.dst else e.src
  }

  /** Whether a walk standing on `s` follows edge `e`. */
  predicate Follows<N(==,!new)>(e: FlowEdge<N>, s: N, forward: bool, followExceptions: bool) {
    (if forward then e.src == s else e.dst == s) && (followExceptions || e.kind != TryCatch)
  }

  /** A flow graph over vertices of type N. `idOf` is the vertices' getId(). */
  class FlowGraph<N(==,!new)> {
    const idOf: N -> string
    var vertices: set<N>
    var edges: set<FlowEdge<N>>
    var entries: set<N>
    var ranges: seq<ExceptionRange<N>>
    var vertexIds: map<string, N>

    constructor (idOf: N -> string)
      ensures this.idOf == idOf
      ensures vertices == {} && edges == {} && entries == {} && ranges == [] && vertexIds == map[]
    {
      this.idOf := idOf;
      vertices, edges, entries, ranges, vertexIds := {}, {}, {}, [], map[];
    }

    /** Every vertex is registered under its own id. */
    ghost predicate Indexed()
      reads this
    {
      forall v :: v in vertices ==> idOf(v) in vertexIds && vertexIds[idOf(v)] == v
    }

    /** The block registered under `id`, or None (Java's null). */
    function GetBlock(id: string): (r: Option<N>)
      reads this
      ensures r.Some? <==> id in vertexIds
      ensures r.Some? ==> r.value == vertexIds[id]
    {
      if id in vertexIds then Some(vertexIds[id]) else None
    }

    /** The edges leaving `v` (forward) or entering `v` (reverse). */
    function EdgesAt(v: N, forward: bool): (es: set<FlowEdge<N>>)
      reads this
      ensures forall e :: e in es <==> e in edges && (if forward then e.src == v else e.dst == v)
    {
      set e | e in edges && (if forward then e.src == v else e.dst == v)
    }

    /** The blocks one step away from `s` in a walk. */
    ghost function Neighbours(s: N, forward: bool, followExceptions: bool): set<N>
      reads this
    {
      set e | e in edges && Follows(e, s, forward, followExceptions) :: Next(e, forward)
    }

    /** A walk from `from` whose later blocks all differ from `to`. */
    ghost predicate Trail(p: seq<N>, from: N, to: N, forward: bool, followExceptions: bool)
      reads this
    {
      && |p| >= 1 && p[0] == from
      && (forall i :: 0 < i < |p| ==> p[i] != to)
      && (forall i :: 0 <= i < |p| - 1 ==> p[i+1] in Neighbours(p[i], forward, followExceptions))
    }

    ghost predicate ReachableAvoiding(v: N, from: N, to: N, forward: bool, followExceptions: bool)
      reads this
    {
      exists p :: Trail(p, from, to, forward, followExceptions) && p[|p| - 1] == v
    }

    method AddVertex(v: N)
      modifies this
      ensures vertexIds == old(vertexIds)[idOf(v) := v]
      ensures vertices == old(vertices) + {v}
      ensures edges == old(edges) && entries == old(entries) && ranges == old(ranges)
      ensures GetBlock(idOf(v)) == Some(v)
    {
      vertexIds := vertexIds[idOf(v) := v];
      vertices := vertices + {v};
    }

    method AddEdge(v: N, e: FlowEdge<N>)
      modifies this
      ensures vertexIds == old(vertexIds)[idOf(v) := v]
      ensures vertices == old(vertices) + {v} && edges == old(edges) + {e}
      ensures entries == old(entries) && ranges == old(ranges)
      ensures GetBlock(idOf(v)) == Some(v)
    {
      vertexIds := vertexIds[idOf(v) := v];
      vertices := vertices + {v};
      edges := edges + {e};
    }

    method RemoveEdge(v: N, e: FlowEdge<N>)
      modifies this
      ensures edges == old(edges) - {e}
      ensures vertices == old(vertices) && vertexIds == old(vertexIds)
      ensures entries == old(entries) && ranges == old(ranges)
    {
      edges := edges - {e};
    }

    /** Appends `range` unless an equal range is already listed. */
    method AddRange(range: ExceptionRange<N>)
      modifies this
      ensures ranges == if range in old(ranges) then old(ranges) else old(ranges) + [range]
      ensures vertices == old(vertices) && edges == old(edges)
      ensures entries == old(entries) && vertexIds == old(vertexIds)
    {
      if range !in ranges {
        ranges := ranges + [range];
      }
    }

    /** Removes the first range equal to `range`, if any. */
    method RemoveRange(range: ExceptionRange<N>)
      modifies this
      ensures ranges == RemoveFirst(old(ranges), range)
      ensures vertices == old(vertices) && edges == old(edges)
      ensures entries == old(entries) && vertexIds == old(vertexIds)
    {
      ranges := RemoveFirst(ranges, range);
    }

    /** A copy of the range list: a value, so later changes to it cannot reach the graph. */
    method GetRanges() returns (rs: seq<ExceptionRange<N>>)
      ensures rs == ranges
    {
      rs := ranges;
    }

    /** Empties the vertex and edge sets and the id index; entries and ranges stay. */
    method Clear()
      modifies this
      ensures vertices == {} && edges == {} && vertexIds == map[]
      ensures entries == old(entries) && ranges == old(ranges)
    {
      vertices, edges := {}, {};
      vertexIds := map[];
    }

    /** Puts `n` in place of `old`: `n` becomes an entry whenever `old` was one,
        and the edges at `old` are moved to `n`. */
    method Replace(o: N, n: N)
      modifies this
      ensures entries == if o in old(entries) then old(entries) + {n} else old(entries)
      ensures vertices == if o in old(vertices) then old(vertices) - {o} + {n} else old(vertices)
      ensures edges == set e | e in old(edges) :: Rename(e, o, n)
      ensures ranges == old(ranges) && vertexIds == old(vertexIds)
    {
      if o in entries {
        entries := entries + {n};
      }
      if o in vertices {
        vertices := vertices - {o} + {n};
      }
      edges := set e | e in edges :: Rename(e, o, n);
    }

    /** Removes `v`: from every range (dropping ranges left empty), from the
        entries, from the id index, and with every edge touching it. */
    method RemoveVertex(v: N)
      modifies this
      ensures ranges == PruneRanges(old(ranges), v)
      ensures entries == old(entries) - {v}
      ensures vertexIds == old(vertexIds) - {idOf(v)}
      ensures vertices == old(vertices) - {v}
      ensures edges == set e | e in old(edges) && e.src != v && e.dst != v
    {
      ranges := Prune(ranges, v);
      entries := entries - {v};
      vertexIds := vertexIds - {idOf(v)};
      vertices := vertices - {v};
      edges := set e | e in edges && e.src != v && e.dst != v;
    }

    /** Every block reachable from `from` without passing through `to`,
        together with `from` itself. TryCatch edges are followed only when
        `followExceptions` is set. */
    method WanderAllTrails(from: N, to: N, forward: bool, followExceptions: bool) returns (visited: set<N>)
      ensures from in visited
      ensures to in visited ==> to == from
      ensures forall v :: v in visited <==> ReachableAvoiding(v, from, to, forward, followExceptions)
    {
      var universe := (set e | e in edges :: e.src) + (set e | e in edges :: e.dst);
      visited := {};
      var stack := [from];
      ghost var trails: map<N, seq<N>> := map[];
      while stack != []
        invariant WalkInv(stack, visited, trails, universe, from, to, forward, followExceptions)
        decreases |universe - visited|, |stack|
      {
        var s := stack[0];
        ghost var ps := WalkStart(stack, visited, trails, universe, from, to, forward, followExceptions);
        var stack', visited', trails' := Expand(s, ps, from, to, forward, followExceptions, universe, stack[1..], visited, trails);
        WalkStep(stack, visited, trails, stack', visited', trails', universe, from, to, forward, followExceptions);
        stack, visited, trails := stack', visited', trails';
      }
      WalkComplete(from, to, forward, followExceptions, visited, trails);
      visited := visited + {from};
    }

    /** The invariant of the walk's loop. */
    ghost predicate WalkInv(stack: seq<N>, visited: set<N>, trails: map<N, seq<N>>, universe: set<N>,
                            from: N, to: N, forward: bool, followExceptions: bool)
      reads this
    {
      && visited <= universe
      && (forall e :: e in edges ==> e.src in universe && e.dst in universe)
      && to !in visited
      && (forall x :: x in stack ==> x == from || x in visited)
      && TrailsTo(trails, visited, from, to, forward, followExceptions)
      && Frontier(stack, visited, from, to, forward, followExceptions)
    }

    /** One visit keeps the loop invariant and makes progress. */
    /** A trail to the vertex on top of the stack, from the trails recorded
        so far. */
    lemma WalkStart(stack: seq<N>, visited: set<N>, trails: map<N, seq<N>>, universe: set<N>,
                    from: N, to: N, forward: bool, followExceptions: bool) returns (ps: seq<N>)
      requires stack != [] && WalkInv(stack, visited, trails, universe, from, to, forward, followExceptions)
      ensures Trail(ps, from, to, forward, followExceptions) && ps[|ps| - 1] == stack[0]
      ensures TrailsTo(trails, visited, from, to, forward, followExceptions)
      ensures visited <= universe && to !in visited
      ensures forall e :: e in edges ==> e.src in universe && e.dst in universe
    {
      if stack[0] in visited {
        ps := trails[stack[0]];
      } else {
        ps := [from];
      }
    }

    lemma WalkStep(stack: seq<N>, visited: set<N>, trails: map<N, seq<N>>,
                   stack': seq<N>, visited': set<N>, trails': map<N, seq<N>>, universe: set<N>,
                   from: N, to: N, forward: bool, followExceptions: bool)
      requires stack != [] && WalkInv(stack, visited, trails, universe, from, to, forward, followExceptions)
      requires visited <= visited' <= universe && to !in visited'
      requires TrailsTo(trails', visited', from, to, forward, followExceptions)
      requires |stack'| >= |stack| - 1 && stack'[..|stack| - 1] == stack[1..]
      requires forall x :: x in stack' ==> x in stack[1..] || x in visited'
      requires forall x :: x in visited' - visited ==> x in stack'
      requires visited' == visited ==> stack' == stack[1..]
      requires Closed(stack[0], visited', to, forward, followExceptions)
      ensures WalkInv(stack', visited', trails', universe, from, to, forward, followExceptions)
      ensures |universe - visited'| < |universe - visited|
           || (|universe - visited'| == |universe - visited| && |stack'| < |stack|)
    {
      FrontierStep(stack[0], stack, visited, stack', visited', from, to, forward, followExceptions);
      forall x | x in stack'
        ensures x == from || x in visited'
      {
        if x in stack[1..] {
          assert x in stack;
        }
      }
      if visited' != visited {
        SubsetCardinality(universe, visited, visited');
      }
    }

    /** The walk's final set: it holds `from`, is closed under steps avoiding
        `to`, and every other member has a recorded trail; such a set is
        exactly the set of blocks reachable avoiding `to`. */
    lemma WalkComplete(from: N, to: N, forward: bool, followExceptions: bool, seen: set<N>, trails: map<N, seq<N>>)
      requires Frontier([], seen, from, to, forward, followExceptions)
      requires TrailsTo(trails, seen, from, to, forward, followExceptions)
      ensures forall v :: v in seen + {from} <==> ReachableAvoiding(v, from, to, forward, followExceptions)
    {
      var visited := seen + {from};
      forall u | u in visited
        ensures Closed(u, visited, to, forward, followExceptions)
      {
        ClosedGrows(u, seen, visited, to, forward, followExceptions);
      }
      forall v | ReachableAvoiding(v, from, to, forward, followExceptions)
        ensures v in visited
      {
        var p :| Trail(p, from, to, forward, followExceptions) && p[|p| - 1] == v;
        ClosedContainsTrail(p, from, to, forward, followExceptions, visited);
      }
      forall v | v in visited
        ensures ReachableAvoiding(v, from, to, forward, followExceptions)
      {
        if v == from {
          assert Trail([from], from, to, forward, followExceptions);
        } else {
          assert Trail(trails[v], from, to, forward, followExceptions);
        }
      }
    }

    /** Every block seen so far is still queued or has all its neighbours seen. */
    ghost predicate Frontier(stack: seq<N>, visited: set<N>, from: N, to: N, forward: bool, followExceptions: bool)
      reads this
    {
      forall u :: (u == from || u in visited) ==> u in stack || Closed(u, visited, to, forward, followExceptions)
    }

    lemma FrontierStep(s: N, stack: seq<N>, visited: set<N>, stack': seq<N>, visited': set<N>,
                       from: N, to: N, forward: bool, followExceptions: bool)
      requires stack != [] && s == stack[0]
      requires Frontier(stack, visited, from, to, forward, followExceptions)
      requires visited <= visited' && Closed(s, visited', to, forward, followExceptions)
      requires |stack'| >= |stack| - 1 && stack'[..|stack| - 1] == stack[1..]
      requires forall x :: x in visited' - visited ==> x in stack'
      ensures Frontier(stack', visited', from, to, forward, followExceptions)
    {
      forall u | (u == from || u in visited') && !(u in stack')
        ensures Closed(u, visited', to, forward, followExceptions)
      {
        if u != s {
          assert u in visited || u == from;
          forall k | 1 <= k < |stack| ensures stack[k] != u {
            assert stack[k] == stack'[k - 1];
          }
          assert u !in stack;
          ClosedGrows(u, visited, visited', to, forward, followExceptions);
        }
      }
    }

    /** Each visited block has a recorded trail reaching it. */
    ghost predicate TrailsTo(trails: map<N, seq<N>>, visited: set<N>, from: N, to: N, forward: bool, followExceptions: bool)
      reads this
    {
      forall v :: v in visited ==>
        v in trails && Trail(trails[v], from, to, forward, followExceptions) && trails[v][|trails[v]| - 1] == v
    }

    /** One step of the walk: follows every edge at `s`, queueing each new
        block other than `to`. */
    method Expand(s: N, ghost ps: seq<N>, ghost from: N, to: N, forward: bool, followExceptions: bool,
                  ghost universe: set<N>, stack: seq<N>, visited: set<N>, ghost trails: map<N, seq<N>>)
      returns (stack': seq<N>, visited': set<N>, ghost trails': map<N, seq<N>>)
      requires Trail(ps, from, to, forward, followExceptions) && ps[|ps| - 1] == s
      requires TrailsTo(trails, visited, from, to, forward, followExceptions)
      requires visited <= universe && to !in visited
      requires forall e :: e in edges ==> e.src in universe && e.dst in universe
      ensures visited <= visited' <= universe && to !in visited'
      ensures TrailsTo(trails', visited', from, to, forward, followExceptions)
      ensures |stack'| >= |stack| && stack'[..|stack|] == stack
      ensures forall x :: x in stack' ==> x in stack || x in visited'
      ensures forall x :: x in visited' - visited ==> x in stack'
      ensures visited' == visited ==> stack' == stack
      ensures Closed(s, visited', to, forward, followExceptions)
    {
      var es := EdgesAt(s, forward);
      stack', visited', trails' := stack, visited, trails;
      while es != {}
        invariant es <= EdgesAt(s, forward)
        invariant visited <= visited' <= universe && to !in visited'
        invariant TrailsTo(trails', visited', from, to, forward, followExceptions)
        invariant |stack'| >= |stack| && stack'[..|stack|] == stack
        invariant forall x :: x in stack' ==> x in stack || x in visited'
        invariant forall x :: x in visited' - visited ==> x in stack'
        invariant visited' == visited ==> stack' == stack
        invariant forall e :: e in EdgesAt(s, forward) - es && Follows(e, s, forward, followExceptions) ==>
          Next(e, forward) == to || Next(e, forward) in visited'
        decreases |es|
      {
        var e :| e in es;
        es := es - {e};
        if e.kind == TryCatch && !followExceptions {
          continue;
        }
        var next := if forward then e.dst else e.src;
        if next != to && next !in visited' {
          assert e in edges && Follows(e, s, forward, followExceptions);
          TrailExtend(ps, from, to, forward, followExceptions, next);
          TrailsAdd(trails', visited', from, to, forward, followExceptions, ps + [next]);
          assert (stack' + [next])[..|stack|] == stack'[..|stack|];
          stack' := stack' + [next];
          visited' := visited' + {next};
          trails' := trails'[next := ps + [next]];
        }
      }
      forall w | w in Neighbours(s, forward, followExceptions)
        ensures w == to || w in visited'
      {
        var e :| e in edges && Follows(e, s, forward, followExceptions) && Next(e, forward) == w;
        assert e in EdgesAt(s, forward);
      }
    }

    lemma ClosedGrows(u: N, a: set<N>, b: set<N>, to: N, forward: bool, followExceptions: bool)
      requires a <= b && Closed(u, a, to, forward, followExceptions)
      ensures Closed(u, b, to, forward, followExceptions)
    {
    }

    /** Every neighbour of `u` other than `to` is in `visited`. */
    ghost predicate Closed(u: N, visited: set<N>, to: N, forward: bool, followExceptions: bool)
      reads this
    {
      forall w :: w in Neighbours(u, forward, followExceptions) ==> w == to || w in visited
    }

    lemma TrailsAdd(trails: map<N, seq<N>>, visited: set<N>, from: N, to: N, forward: bool, followExceptions: bool,
                    p: seq<N>)
      requires TrailsTo(trails, visited, from, to, forward, followExceptions)
      requires Trail(p, from, to, forward, followExceptions)
      ensures TrailsTo(trails[p[|p| - 1] := p], visited + {p[|p| - 1]}, from, to, forward, followExceptions)
    {
    }

    lemma TrailExtend(p: seq<N>, from: N, to: N, forward: bool, followExceptions: bool, next: N)
      requires Trail(p, from, to, forward, followExceptions)
      requires next != to && next in Neighbours(p[|p| - 1], forward, followExceptions)
      ensures Trail(p + [next], from, to, forward, followExceptions)
    {
    }

    /** A set that holds `from` and is closed under steps avoiding `to` holds
        the end of every trail. */
    lemma {:induction false} ClosedContainsTrail(p: seq<N>, from: N, to: N, forward: bool, followExceptions: bool, s: set<N>)
      requires Trail(p, from, to, forward, followExceptions)
      requires from in s
      requires forall u :: u in s ==> Closed(u, s, to, forward, followExceptions)
      ensures p[|p| - 1] in s
      decreases |p|
    {
      if |p| > 1 {
        var q := p[..|p| - 1];
        assert Trail(q, from, to, forward, followExceptions);
        ClosedContainsTrail(q, from, to, forward, followExceptions, s);
        assert p[|p| - 1] in Neighbours(q[|q| - 1], forward, followExceptions);
      }
    }

    /** The three-argument overload: follows exception edges. */
    method WanderAllTrailsDirected(from: N, to: N, forward: bool) returns (visited: set<N>)
      ensures forall v :: v in visited <==> ReachableAvoiding(v, from, to, forward, true)
    {
      visited := WanderAllTrails(from, to, forward, true);
    }

    /** The two-argument overload: walks forward and skips exception edges. */
    method WanderForward(from: N, to: N) returns (visited: set<N>)
      ensures forall v :: v in visited <==> ReachableAvoiding(v, from, to, true, false)
    {
      visited := WanderAllTrails(from, to, true, false);
    }
  }

  /** `e` with every endpoint equal to `o` replaced by `n`. */
  function Rename<N(==,!new)>(e: FlowEdge<N>, o: N, n: N): (r: FlowEdge<N>)
    ensures r.kind == e.kind
    ensures r.src == (if e.src == o then n else e.src) && r.dst == (if e.dst == o then n else e.dst)
  {
    FlowEdge(if e.src == o then n else e.src, if e.dst == o then n else e.dst, e.kind)
  }

  lemma SubsetCardinality<T>(u: set<T>, a: set<T>, b: set<T>)
    requires a < b <= u
    ensures |u - b| < |u - a|
  {
    assert b - a != {};
    assert u - a == (u - b) + (b - a);
    assert (u - b) * (b - a) == {};
  }

  /** `s` without its first element equal to `x` (Java's List.remove(Object)). */
  function RemoveFirst<T(==)>(s: seq<T>, x: T): (r: seq<T>)
    ensures x !in s ==> r == s
    ensures x in s ==> |r| == |s| - 1 && multiset(r) == multiset(s) - multiset{x}
  {
    if s == [] then []
    else if s[0] == x then assert s == [s[0]] + s[1..]; s[1..]
    else assert s == [s[0]] + s[1..]; [s[0]] + RemoveFirst(s[1..], x)
  }

  /** `RemoveFirst` cuts out exactly the first occurrence of `x`: what is
      before it and what is after it stay, in order. */
  lemma {:induction false} RemoveFirstSplits<T>(s: seq<T>, x: T, i: nat)
    requires i < |s| && s[i] == x && forall k :: 0 <= k < i ==> s[k] != x
    ensures RemoveFirst(s, x) == s[..i] + s[i + 1..]
    decreases i
  {
    if i == 0 {
      assert s[..0] + s[1..] == s[1..];
    } else {
      RemoveFirstStep(s, x);
      RemoveFirstSplits(s[1..], x, i - 1);
      ConsSplit(s, i);
    }
  }

  /** Past a first element other than `x`, removal moves one step along. */
  lemma RemoveFirstStep<T>(s: seq<T>, x: T)
    requires s != [] && s[0] != x
    ensures RemoveFirst(s, x) == [s[0]] + RemoveFirst(s[1..], x)
  {
  }

  /** Cutting out position `i` of `s` is keeping its head and cutting out
      position `i - 1` of its tail. */
  lemma ConsSplit<T>(s: seq<T>, i: nat)
    requires 0 < i < |s|
    ensures [s[0]] + (s[1..][..i - 1] + s[1..][i..]) == s[..i] + s[i + 1..]
  {
    assert s[..i] == [s[0]] + s[1..][..i - 1];
    assert s[i + 1..] == s[1..][i..];
  }

  /** Taking one more element of `todo` out of a worklist over `out`. */
  lemma TakeOne<T>(done0: set<T>, out: set<T>, todo: set<T>, e: T)
    requires e in todo && todo <= out
    ensures e in out && e !in out - todo
    ensures done0 + (out - todo) + {e} == done0 + (out - (todo - {e}))
  {
  }
}
