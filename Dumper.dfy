/** The control-flow-graph dumper: it orders the blocks of a method, repairs
    fall-through edges for that order, checks the result, and writes the
    code and the exception table. Blocks are named by nat ids; a block's
    statements live in the `code` map. The written method body is an item
    list of labels and statements, and the exception table is a list of
    entries that follow the JVM `exception_table` convention of section
    4.7.3 of the Java Virtual Machine Specification (start inclusive, end
    exclusive). */
module CfgDumper {
  import opened Wrappers
  import opened FlowGraphs
  import opened RangeSplit
  import BundleOrder
  import Bundling
  import Linearization


  /** A statement of a block: an unconditional jump, or any other statement. */
  datatype Stmt = Goto(target: nat) | Plain(op: nat)

  /** The label of a block, or the label written after the last block. */
  datatype Label = BlockLabel(block: nat) | Terminal

  /** An exception-table entry. */
  datatype CatchEntry = CatchEntry(start: Label, end: Label, handler: Label, catchType: string)

  /** One item of the written code: a label or a statement. */
  datatype Item = Mark(name: Label) | Code(stmt: Stmt)

  const Throwable: string := "java/lang/Throwable"

  /** A block's statements; a block without an entry has none. */
  function Lookup(code: map<nat, seq<Stmt>>, b: nat): seq<Stmt> {
    if b in code then code[b] else []
  }

  // ---------------------------------------------------------------------
  // naturalise

  /** What `naturalise` makes of an edge leaving a block of the order: a
      fall-through whose target is not the next block becomes a jump, and a
      jump whose target is the next block becomes a fall-through. */
  function Fixed(order: seq<nat>, e: FlowEdge<nat>): (f: FlowEdge<nat>)
    ensures f.src == e.src && f.dst == e.dst
  {
    var i := IndexOf(order, e.src);
    if i < 0 then e
    else if e.kind == Immediate && IndexOf(order, e.dst) != i + 1 then FlowEdge(e.src, e.dst, UnconditionalJump)
    else if e.kind == UnconditionalJump && IndexOf(order, e.dst) == i + 1 then FlowEdge(e.src, e.dst, Immediate)
    else e
  }

  /** An edge out of a block of the order is natural when a fall-through
      goes to the next block and a jump does not. */
  predicate Natural(order: seq<nat>, e: FlowEdge<nat>) {
    var i := IndexOf(order, e.src);
    i >= 0 ==>
      (e.kind == Immediate ==> IndexOf(order, e.dst) == i + 1)
      && (e.kind == UnconditionalJump ==> IndexOf(order, e.dst) != i + 1)
  }

  /** `naturalise` changes exactly the edges that are not natural, and what
      it makes of an edge is natural: a second run changes nothing. */
  lemma NaturalIffUnchanged(order: seq<nat>, e: FlowEdge<nat>)
    ensures Natural(order, e) <==> Fixed(order, e) == e
    ensures Natural(order, Fixed(order, e))
    ensures Fixed(order, Fixed(order, e)) == Fixed(order, e)
  {
  }

  /** The edges after `naturalise`, given the edges before. */
  function NaturalisedEdges(order: seq<nat>, es: set<FlowEdge<nat>>): set<FlowEdge<nat>> {
    set e | e in es :: Fixed(order, e)
  }

  /** Every edge is natural after `naturalise`, and a graph whose edges are
      all natural is left as it is. */
  lemma NaturaliseIdempotent(order: seq<nat>, es: set<FlowEdge<nat>>)
    ensures forall e :: e in NaturalisedEdges(order, es) ==> Natural(order, e)
    ensures (forall e :: e in es ==> Natural(order, e)) ==> NaturalisedEdges(order, es) == es
    ensures NaturalisedEdges(order, NaturalisedEdges(order, es)) == NaturalisedEdges(order, es)
  {
    forall e | e in es {
      NaturalIffUnchanged(order, e);
    }
    var once := NaturalisedEdges(order, es);
    forall e | e in once ensures Fixed(order, e) == e {
      var d :| d in es && e == Fixed(order, d);
      NaturalIffUnchanged(order, d);
    }
    assert NaturalisedEdges(order, once) == once;
  }

  predicate JumpLike(e: FlowEdge<nat>) {
    e.kind == Immediate || e.kind == UnconditionalJump
  }

  /** A block ends in at most one fall-through or unconditional jump. */
  ghost predicate OneJumpPerBlock(es: set<FlowEdge<nat>>) {
    forall e1, e2 :: e1 in es && e2 in es && e1.src == e2.src && JumpLike(e1) && JumpLike(e2) ==> e1 == e2
  }

  /** The position of the last unconditional jump of a block, or -1. */
  function LastJump(c: seq<Stmt>): (k: int)
    ensures -1 <= k < |c|
    ensures k >= 0 ==> c[k].Goto?
    ensures forall j :: k < j < |c| ==> !c[j].Goto?
    decreases |c|
  {
    if c == [] then -1
    else if c[|c| - 1].Goto? then |c| - 1
    else LastJump(c[..|c| - 1])
  }

  /** The block without its last unconditional jump; every other statement
      stays, in order. */
  function DropLastJump(c: seq<Stmt>): (r: seq<Stmt>)
    ensures LastJump(c) < 0 ==> r == c
    ensures LastJump(c) >= 0 ==> |r| == |c| - 1 && multiset(r) + multiset{c[LastJump(c)]} == multiset(c)
    ensures LastJump(c) >= 0 ==> forall j :: 0 <= j < LastJump(c) ==> r[j] == c[j]
    ensures LastJump(c) >= 0 ==> forall j :: LastJump(c) < j < |c| ==> r[j - 1] == c[j]
  {
    var k := LastJump(c);
    if k < 0 then c
    else
      CutOut(c, k);
      c[..k] + c[k + 1..]
  }

  /** Cutting out position `k` keeps every other element, in order. */
  lemma CutOut<T>(c: seq<T>, k: nat)
    requires k < |c|
    ensures var r := c[..k] + c[k + 1..];
            && |r| == |c| - 1
            && multiset(r) + multiset{c[k]} == multiset(c)
            && (forall j :: 0 <= j < k ==> r[j] == c[j])
            && (forall j :: k < j < |c| ==> r[j - 1] == c[j])
  {
    assert c == c[..k] + [c[k]] + c[k + 1..];
  }

  /** The change `naturalise` makes to the statements of an edge's source
      block when it changes the edge. */
  function Effect(c: seq<Stmt>, e: FlowEdge<nat>): seq<Stmt> {
    if e.kind == Immediate then c + [Goto(e.dst)] else DropLastJump(c)
  }

  /** The backwards `ListIterator` walk of `naturalise` that removes the
      last unconditional jump of a block. */
  method RemoveLastJump(c: seq<Stmt>) returns (r: seq<Stmt>)
    ensures r == DropLastJump(c)
  {
    var k := |c|;
    while k > 0
      invariant 0 <= k <= |c|
      invariant LastJump(c) < k
    {
      if c[k - 1].Goto? {
        r := c[..k - 1] + c[k..];
        return;
      }
      k := k - 1;
    }
    r := c;
  }

  /** The edges after the blocks owning the edges of `done` are processed. */
  ghost function FixedWithin(order: seq<nat>, es: set<FlowEdge<nat>>, done: set<FlowEdge<nat>>): set<FlowEdge<nat>> {
    set e | e in es :: if e in done then Fixed(order, e) else e
  }

  lemma FixedWithinStep(order: seq<nat>, es: set<FlowEdge<nat>>, done: set<FlowEdge<nat>>, e: FlowEdge<nat>)
    requires e in es && e !in done
    ensures Fixed(order, e) == e ==> FixedWithin(order, es, done + {e}) == FixedWithin(order, es, done)
    ensures Fixed(order, e) != e ==> FixedWithin(order, es, done + {e}) == FixedWithin(order, es, done) - {e} + {Fixed(order, e)}
  {
    var before, after := FixedWithin(order, es, done), FixedWithin(order, es, done + {e});
    if Fixed(order, e) != e {
      forall x | x in es ensures Fixed(order, x) != e {
        NaturalIffUnchanged(order, x);
        NaturalIffUnchanged(order, e);
      }
      forall y | y in after ensures y in before - {e} + {Fixed(order, e)} {
        var x :| x in es && y == (if x in done + {e} then Fixed(order, x) else x);
      }
      forall y | y in before - {e} + {Fixed(order, e)} ensures y in after {
        if y != Fixed(order, e) {
          var x :| x in es && y == (if x in done then Fixed(order, x) else x);
          assert x != e;
        }
      }
    }
  }

  /** The edges out of the blocks placed before position `i`. */
  ghost function Done(order: seq<nat>, es: set<FlowEdge<nat>>, i: int): set<FlowEdge<nat>> {
    set e | e in es && 0 <= IndexOf(order, e.src) < i
  }

  /** `naturalise` has processed the edges of `done`: each changed edge is
      replaced by its fixed form and its block holds the matching change,
      and a block none of whose processed edges changed keeps its code. */
  ghost predicate Progress(order: seq<nat>, es: set<FlowEdge<nat>>, code0: map<nat, seq<Stmt>>,
                           done: set<FlowEdge<nat>>, edges: set<FlowEdge<nat>>, code: map<nat, seq<Stmt>>)
  {
    && done <= es
    && edges == FixedWithin(order, es, done)
    && (forall e :: e in done && Fixed(order, e) != e ==> Lookup(code, e.src) == Effect(Lookup(code0, e.src), e))
    && (forall x :: (forall e :: e in done && e.src == x ==> Fixed(order, e) == e) ==> Lookup(code, x) == Lookup(code0, x))
  }

  /** Processing one more edge keeps the progress invariant. A changed edge
      is a fall-through or a jump, and a block has only one of those, so its
      block has not been changed before. */
  lemma ProgressStep(order: seq<nat>, es: set<FlowEdge<nat>>, code0: map<nat, seq<Stmt>>,
                     done: set<FlowEdge<nat>>, edges: set<FlowEdge<nat>>, code: map<nat, seq<Stmt>>, e: FlowEdge<nat>)
    requires OneJumpPerBlock(es) && Progress(order, es, code0, done, edges, code)
    requires e in es && e !in done
    ensures Fixed(order, e) == e ==> Progress(order, es, code0, done + {e}, edges, code)
    ensures Fixed(order, e) != e ==>
              Lookup(code, e.src) == Lookup(code0, e.src)
              && Progress(order, es, code0, done + {e}, edges - {e} + {Fixed(order, e)},
                          code[e.src := Effect(Lookup(code, e.src), e)])
  {
    FixedWithinStep(order, es, done, e);
    if Fixed(order, e) != e {
      NaturalIffUnchanged(order, e);
      forall d | d in done && d.src == e.src ensures Fixed(order, d) == d {
        NaturalIffUnchanged(order, d);
        if Fixed(order, d) != d {
          assert JumpLike(d) && JumpLike(e);
        }
      }
      ProgressChanged(order, es, code0, done, edges, code, e);
    } else {
      ProgressSame(order, es, code0, done, code, e);
    }
  }

  /** The code half of `Progress` after an edge that `naturalise` leaves. */
  lemma ProgressSame(order: seq<nat>, es: set<FlowEdge<nat>>, code0: map<nat, seq<Stmt>>,
                     done: set<FlowEdge<nat>>, code: map<nat, seq<Stmt>>, e: FlowEdge<nat>)
    requires forall d :: d in done && Fixed(order, d) != d ==> Lookup(code, d.src) == Effect(Lookup(code0, d.src), d)
    requires forall x :: (forall d :: d in done && d.src == x ==> Fixed(order, d) == d) ==> Lookup(code, x) == Lookup(code0, x)
    requires Fixed(order, e) == e
    ensures forall d :: d in done + {e} && Fixed(order, d) != d ==> Lookup(code, d.src) == Effect(Lookup(code0, d.src), d)
    ensures forall x :: (forall d :: d in done + {e} && d.src == x ==> Fixed(order, d) == d) ==> Lookup(code, x) == Lookup(code0, x)
  {
    forall x | forall d :: d in done + {e} && d.src == x ==> Fixed(order, d) == d
      ensures Lookup(code, x) == Lookup(code0, x)
    {
      assert forall d :: d in done && d.src == x ==> Fixed(order, d) == d;
    }
  }

  /** The code half of `Progress` after an edge that `naturalise` changes,
      the first change to its block. */
  lemma ProgressChanged(order: seq<nat>, es: set<FlowEdge<nat>>, code0: map<nat, seq<Stmt>>,
                        done: set<FlowEdge<nat>>, edges: set<FlowEdge<nat>>, code: map<nat, seq<Stmt>>, e: FlowEdge<nat>)
    requires Progress(order, es, code0, done, edges, code) && e in es && e !in done && Fixed(order, e) != e
    requires forall d :: d in done && d.src == e.src ==> Fixed(order, d) == d
    ensures Lookup(code, e.src) == Lookup(code0, e.src)
    ensures var code' := code[e.src := Effect(Lookup(code, e.src), e)];
            && (forall d :: d in done + {e} && Fixed(order, d) != d ==> Lookup(code', d.src) == Effect(Lookup(code0, d.src), d))
            && (forall x :: (forall d :: d in done + {e} && d.src == x ==> Fixed(order, d) == d) ==> Lookup(code', x) == Lookup(code0, x))
  {
    var code' := code[e.src := Effect(Lookup(code, e.src), e)];
    forall d | d in done + {e} && Fixed(order, d) != d ensures Lookup(code', d.src) == Effect(Lookup(code0, d.src), d) {
      if d != e {
        assert d.src != e.src;
      }
    }
    forall x | forall d :: d in done + {e} && d.src == x ==> Fixed(order, d) == d
      ensures Lookup(code', x) == Lookup(code0, x)
    {
      assert x != e.src;
      assert forall d :: d in done && d.src == x ==> Fixed(order, d) == d;
    }
  }

  /** The edges of `es` leaving `b`. */
  ghost function EdgesOut(es: set<FlowEdge<nat>>, b: nat): set<FlowEdge<nat>> {
    set e | e in es && e.src == b
  }

  /** The edges out of the block at position `i` are the ones `Done` gains. */
  lemma DoneStep(order: seq<nat>, es: set<FlowEdge<nat>>, i: nat)
    requires BundleOrder.Distinct(order) && i < |order|
    ensures Done(order, es, i + 1) == Done(order, es, i) + EdgesOut(es, order[i])
    ensures forall e :: e in Done(order, es, i) ==> e.src != order[i]
  {
    IndexOfDistinct(order, i);
  }

  /** Before a block is processed, its edges are the original ones. */
  lemma EdgesOutUntouched(order: seq<nat>, es: set<FlowEdge<nat>>, done: set<FlowEdge<nat>>,
                          edges: set<FlowEdge<nat>>, b: nat)
    requires edges == FixedWithin(order, es, done)
    requires forall e :: e in done ==> e.src != b
    ensures forall e :: e in edges && e.src == b <==> e in EdgesOut(es, b)
  {
    forall y | y in edges && y.src == b ensures y in es {
      var x :| x in es && y == (if x in done then Fixed(order, x) else x);
    }
  }

  /** Every edge `naturalise` changes starts at a block of the order, so
      processing all of them is processing the whole edge set. */
  lemma DoneAll(order: seq<nat>, es: set<FlowEdge<nat>>)
    ensures FixedWithin(order, es, Done(order, es, |order|)) == NaturalisedEdges(order, es)
    ensures forall e :: e in es && Fixed(order, e) != e ==> e in Done(order, es, |order|)
  {
    assert forall e :: e in es && e !in Done(order, es, |order|) ==> Fixed(order, e) == e;
  }

  /** Once every block of the order is processed, every edge is fixed, and
      exactly the blocks with a changed edge have changed code. */
  lemma NaturaliseEnd(order: seq<nat>, es: set<FlowEdge<nat>>, code0: map<nat, seq<Stmt>>,
                      edges: set<FlowEdge<nat>>, code: map<nat, seq<Stmt>>)
    requires Progress(order, es, code0, Done(order, es, |order|), edges, code)
    ensures edges == NaturalisedEdges(order, es)
    ensures forall e :: e in es && Fixed(order, e) != e ==> Lookup(code, e.src) == Effect(Lookup(code0, e.src), e)
    ensures OthersKept(order, es, code0, code)
  {
    DoneAll(order, es);
  }

  // ---------------------------------------------------------------------
  // verify

  /** A fall-through out of the i-th block of the order that does not reach
      the next block, or leaves the last one. */
  predicate Broken(order: seq<nat>, es: set<FlowEdge<nat>>, i: nat)
    requires i < |order|
  {
    exists e :: e in es && e.src == order[i] && e.kind == Immediate && (i + 1 == |order| || order[i + 1] != e.dst)
  }

  /** After `naturalise`, every fall-through reaches the next block of the
      order, so `verify` passes. */
  lemma NaturalNotBroken(order: seq<nat>, es: set<FlowEdge<nat>>, i: nat)
    requires BundleOrder.Distinct(order) && i < |order|
    requires forall e :: e in es ==> Natural(order, e)
    ensures !Broken(order, es, i)
  {
    if Broken(order, es, i) {
      var e :| e in es && e.src == order[i] && e.kind == Immediate && (i + 1 == |order| || order[i + 1] != e.dst);
      IndexOfDistinct(order, i);
      assert false;
    }
  }

  // ---------------------------------------------------------------------
  // dumpRange

  /** The catch type of an entry: the range's only type, or Throwable when
      it has none or several. */
  function CatchType(types: set<string>): (t: string)
    ensures |types| != 1 ==> t == Throwable
    ensures |types| == 1 ==> types == {t}
  {
    if |types| != 1 then Throwable
    else
      var t :| t in types;
      assert types == {t} by {
        assert types == {t} + (types - {t});
        assert |types - {t}| == 0;
      }
      t
  }

  /** The label an entry ends at: the block after its last position, or the
      terminal label after the last block. */
  function EndLabel(order: seq<nat>, last: int): Label
    requires 0 <= last < |order|
  {
    if last + 1 == |order| then Terminal else BlockLabel(order[last + 1])
  }

  predicate WithinOrder(order: seq<nat>, rs: seq<(int, int)>) {
    forall k :: 0 <= k < |rs| ==> 0 <= rs[k].0 <= rs[k].1 < |order|
  }

  /** One exception-table entry per run of positions. */
  function Entries(order: seq<nat>, rs: seq<(int, int)>, handler: nat, t: string): (r: seq<CatchEntry>)
    requires WithinOrder(order, rs)
    ensures |r| == |rs|
    decreases |rs|
  {
    if rs == [] then []
    else
      [CatchEntry(BlockLabel(order[rs[0].0]), EndLabel(order, rs[0].1), BlockLabel(handler), t)]
      + Entries(order, rs[1..], handler, t)
  }

  /** The k-th entry covers the k-th run: from its first block up to the
      label after its last block, with the range's handler and type. */
  lemma {:induction false} EntriesAt(order: seq<nat>, rs: seq<(int, int)>, handler: nat, t: string, k: nat)
    requires WithinOrder(order, rs) && k < |rs|
    ensures Entries(order, rs, handler, t)[k]
            == CatchEntry(BlockLabel(order[rs[k].0]), EndLabel(order, rs[k].1), BlockLabel(handler), t)
    decreases k
  {
    if k > 0 {
      assert WithinOrder(order, rs[1..]) by {
        forall j | 0 <= j < |rs[1..]| ensures 0 <= rs[1..][j].0 <= rs[1..][j].1 < |order| {
          assert rs[1..][j] == rs[j + 1];
        }
      }
      EntriesAt(order, rs[1..], handler, t, k - 1);
      assert rs[1..][k - 1] == rs[k];
    }
  }

  /** The exception-table entries of a range whose blocks are all in the
      order: one per maximal run of consecutive positions of the sorted
      range. */
  ghost function RangeTable(order: seq<nat>, er: ExceptionRange<nat>): seq<CatchEntry>
    requires er.nodes != [] && Present(order, er.nodes)
  {
    var sorted := SortByPosition(order, er.nodes);
    var ps := Positions(order, sorted);
    PositionsSorted(order, er.nodes);
    RunsWithin(ps, |order|);
    Entries(order, Runs(ps), er.handler, CatchType(er.types))
  }

  lemma PositionsSorted(order: seq<nat>, nodes: seq<nat>)
    requires nodes != [] && Present(order, nodes)
    ensures var ps := Positions(order, SortByPosition(order, nodes));
            ps != [] && NonDecreasing(ps) && forall k :: 0 <= k < |ps| ==> 0 <= ps[k] < |order|
  {
    var sorted := SortByPosition(order, nodes);
    SortedPositions(order, sorted);
    assert |sorted| == |nodes| by {
      assert |multiset(sorted)| == |multiset(nodes)|;
    }
    forall k | 0 <= k < |sorted| ensures sorted[k] in order {
      assert sorted[k] in multiset(nodes);
    }
  }

  lemma RunsWithin(ps: seq<int>, n: nat)
    requires ps != [] && NonDecreasing(ps) && forall k :: 0 <= k < |ps| ==> 0 <= ps[k] < n
    ensures forall k :: 0 <= k < |Runs(ps)| ==> 0 <= Runs(ps)[k].0 <= Runs(ps)[k].1 < n
  {
    var rs := Runs(ps);
    NonDecreasingAscending(ps);
    RunsShape(ps);
    forall k | 0 <= k < |rs| ensures 0 <= rs[k].0 <= rs[k].1 < n {
      RunsCover(ps, rs[k].0);
      RunsCover(ps, rs[k].1);
    }
  }

  /** Every block of the range has a position in the order. */
  predicate Present(order: seq<nat>, nodes: seq<nat>) {
    forall x :: x in nodes ==> x in order
  }

  /** The state of the `dumpRange` walk over a range whose blocks are all
      in the order: the entries written so far followed by those still to
      come are the range's table. */
  ghost predicate Walking(order: seq<nat>, er: ExceptionRange<nat>, range: seq<nat>, t: string, ps: seq<int>,
                          rangeIdx: nat, orderIdx: int, startPos: int, start: Label, out: seq<CatchEntry>,
                          goal: seq<CatchEntry>)
  {
    && er.nodes != [] && Present(order, er.nodes)
    && ps == Positions(order, range) && rangeIdx < |ps|
    && NonDecreasing(ps) && (forall k :: 0 <= k < |ps| ==> 0 <= ps[k] < |order|)
    && orderIdx == ps[rangeIdx] && 0 <= startPos <= orderIdx
    && start == BlockLabel(order[startPos])
    && out + Pending(order, startPos, ps[rangeIdx..], er.handler, t) == goal
  }

  lemma WalkEnd(order: seq<nat>, er: ExceptionRange<nat>, range: seq<nat>, t: string, ps: seq<int>,
                rangeIdx: nat, orderIdx: int, startPos: int, start: Label, out: seq<CatchEntry>,
                goal: seq<CatchEntry>)
    requires Walking(order, er, range, t, ps, rangeIdx, orderIdx, startPos, start, out, goal)
    requires orderIdx + 1 == |order| || rangeIdx + 1 == |range|
    ensures 0 <= orderIdx < |order|
    ensures out + [CatchEntry(start, EndLabel(order, orderIdx), BlockLabel(er.handler), t)] == goal
  {
    var qs := ps[rangeIdx..];
    assert qs[0] == orderIdx && qs[|qs| - 1] == ps[|ps| - 1];
    if orderIdx + 1 == |order| {
      assert ps[|ps| - 1] == orderIdx;
    }
    PendingLast(order, startPos, qs, er.handler, t);
  }

  /** Moving on to the next block of the range when the order puts other
      blocks in between: the open entry is closed and a new one starts. */
  lemma WalkSplit(order: seq<nat>, er: ExceptionRange<nat>, range: seq<nat>, t: string, ps: seq<int>,
                  rangeIdx: nat, orderIdx: int, startPos: int, start: Label, out: seq<CatchEntry>,
                  goal: seq<CatchEntry>)
    requires Walking(order, er, range, t, ps, rangeIdx, orderIdx, startPos, start, out, goal)
    requires orderIdx + 1 < |order| && rangeIdx + 1 < |range|
    requires IndexOf(order, range[rangeIdx + 1]) - orderIdx > 1
    ensures var n := IndexOf(order, range[rangeIdx + 1]);
            Walking(order, er, range, t, ps, rangeIdx + 1, n, n, BlockLabel(range[rangeIdx + 1]),
                    out + [CatchEntry(start, BlockLabel(order[orderIdx + 1]), BlockLabel(er.handler), t)], goal)
  {
    var qs := ps[rangeIdx..];
    SuffixFacts(ps, rangeIdx, |order|);
    assert |qs| >= 2 && qs[0] == orderIdx && qs[1] == ps[rangeIdx + 1];
    SplitGoal(order, startPos, qs, er.handler, t, start, out, goal);
    assert qs[1..] == ps[rangeIdx + 1..];
    assert order[ps[rangeIdx + 1]] == range[rangeIdx + 1];
  }

  /** Closing the open entry at a gap keeps the entries written followed by
      those to come equal to the table. */
  lemma SplitGoal(order: seq<nat>, startPos: int, qs: seq<int>, handler: nat, t: string,
                  start: Label, out: seq<CatchEntry>, goal: seq<CatchEntry>)
    requires |qs| >= 2 && NonDecreasing(qs) && 0 <= startPos <= qs[0]
    requires forall k :: 0 <= k < |qs| ==> 0 <= qs[k] < |order|
    requires qs[1] - qs[0] > 1 && start == BlockLabel(order[startPos])
    requires out + Pending(order, startPos, qs, handler, t) == goal
    ensures qs[0] + 1 < |order|
    ensures (out + [CatchEntry(start, BlockLabel(order[qs[0] + 1]), BlockLabel(handler), t)])
            + Pending(order, qs[1], qs[1..], handler, t) == goal
  {
    PendingStep(order, startPos, qs, handler, t);
    var entry := CatchEntry(start, BlockLabel(order[qs[0] + 1]), BlockLabel(handler), t);
    assert EndLabel(order, qs[0]) == BlockLabel(order[qs[0] + 1]);
    var rest := Pending(order, qs[1], qs[1..], handler, t);
    assert (out + [entry]) + rest == out + ([entry] + rest);
  }

  /** A suffix of a sorted position list is sorted and within the order. */
  lemma SuffixFacts(ps: seq<int>, j: nat, n: nat)
    requires j <= |ps| && NonDecreasing(ps) && forall k :: 0 <= k < |ps| ==> 0 <= ps[k] < n
    ensures NonDecreasing(ps[j..]) && forall k :: 0 <= k < |ps[j..]| ==> 0 <= ps[j..][k] < n
  {
    var qs := ps[j..];
    forall a, b | 0 <= a < b < |qs| ensures qs[a] <= qs[b] {
      assert qs[a] == ps[j + a] && qs[b] == ps[j + b];
    }
    forall k | 0 <= k < |qs| ensures 0 <= qs[k] < n {
      assert qs[k] == ps[j + k];
    }
  }

  /** Moving on to the next block of the range when it is the same or the
      next block of the order: the open entry stays open. */
  lemma WalkJoin(order: seq<nat>, er: ExceptionRange<nat>, range: seq<nat>, t: string, ps: seq<int>,
                 rangeIdx: nat, orderIdx: int, startPos: int, start: Label, out: seq<CatchEntry>,
                 goal: seq<CatchEntry>)
    requires Walking(order, er, range, t, ps, rangeIdx, orderIdx, startPos, start, out, goal)
    requires orderIdx + 1 < |order| && rangeIdx + 1 < |range|
    requires IndexOf(order, range[rangeIdx + 1]) - orderIdx <= 1
    ensures var n := IndexOf(order, range[rangeIdx + 1]);
            n >= 0 && Walking(order, er, range, t, ps, rangeIdx + 1, n, startPos, start, out, goal)
  {
    var qs := ps[rangeIdx..];
    SuffixFacts(ps, rangeIdx, |order|);
    assert |qs| >= 2 && qs[0] == orderIdx && qs[1] == ps[rangeIdx + 1];
    PendingStep(order, startPos, qs, er.handler, t);
    assert qs[1..] == ps[rangeIdx + 1..];
  }

  /** The entries still to come when a run started at `startPos` is open and
      `qs` are the positions not yet passed. */
  ghost function Pending(order: seq<nat>, startPos: int, qs: seq<int>, handler: nat, t: string): seq<CatchEntry>
    requires qs != [] && NonDecreasing(qs) && 0 <= startPos <= qs[0]
    requires forall k :: 0 <= k < |qs| ==> 0 <= qs[k] < |order|
  {
    var rs := Runs(qs);
    RunsWithin(qs, |order|);
    Entries(order, [(startPos, rs[0].1)] + rs[1..], handler, t)
  }

  lemma EntriesCons(order: seq<nat>, x: (int, int), rs: seq<(int, int)>, handler: nat, t: string)
    requires 0 <= x.0 <= x.1 < |order| && WithinOrder(order, rs)
    ensures WithinOrder(order, [x] + rs)
    ensures Entries(order, [x] + rs, handler, t)
         == [CatchEntry(BlockLabel(order[x.0]), EndLabel(order, x.1), BlockLabel(handler), t)] + Entries(order, rs, handler, t)
  {
    assert forall k :: 0 <= k < |rs| ==> rs[k] == ([x] + rs)[k + 1];
    assert ([x] + rs)[1..] == rs;
  }

  /** One step of the `dumpRange` walk over sorted positions `qs`: moving
      to the next position either keeps the open run or closes it and opens
      a new one at the next position. */
  lemma PendingStep(order: seq<nat>, startPos: int, qs: seq<int>, handler: nat, t: string)
    requires |qs| >= 2 && NonDecreasing(qs) && 0 <= startPos <= qs[0]
    requires forall k :: 0 <= k < |qs| ==> 0 <= qs[k] < |order|
    ensures qs[1] - qs[0] <= 1 ==>
              Pending(order, startPos, qs, handler, t) == Pending(order, startPos, qs[1..], handler, t)
    ensures qs[1] - qs[0] > 1 ==>
              Pending(order, startPos, qs, handler, t)
              == [CatchEntry(BlockLabel(order[startPos]), EndLabel(order, qs[0]), BlockLabel(handler), t)]
                 + Pending(order, qs[1], qs[1..], handler, t)
  {
    var tail := qs[1..];
    assert NonDecreasing(tail) by {
      forall i, j | 0 <= i < j < |tail| ensures tail[i] <= tail[j] {
        assert tail[i] == qs[i + 1] && tail[j] == qs[j + 1];
      }
    }
    assert forall k :: 0 <= k < |tail| ==> tail[k] == qs[k + 1];
    RunsWithin(tail, |order|);
    RunsWithin(qs, |order|);
    var d := RunsTail(qs);
    if d == 0 {
      PendingJoin(order, startPos, qs, handler, t);
    } else {
      PendingSplit(order, startPos, qs, handler, t);
    }
  }

  lemma PendingJoin(order: seq<nat>, startPos: int, qs: seq<int>, handler: nat, t: string)
    requires |qs| >= 2 && NonDecreasing(qs) && NonDecreasing(qs[1..]) && 0 <= startPos <= qs[0]
    requires forall k :: 0 <= k < |qs| ==> 0 <= qs[k] < |order|
    requires forall k :: 0 <= k < |qs[1..]| ==> 0 <= qs[1..][k] < |order|
    requires qs[1] - qs[0] <= 1
    ensures Pending(order, startPos, qs, handler, t) == Pending(order, startPos, qs[1..], handler, t)
  {
    var rs, rest := Runs(qs), Runs(qs[1..]);
    var d := RunsTail(qs);
    assert rs[1..] == rest[1..];
    assert [(startPos, rs[0].1)] + rs[1..] == [(startPos, rest[0].1)] + rest[1..];
  }

  lemma PendingSplit(order: seq<nat>, startPos: int, qs: seq<int>, handler: nat, t: string)
    requires |qs| >= 2 && NonDecreasing(qs) && NonDecreasing(qs[1..]) && 0 <= startPos <= qs[0]
    requires forall k :: 0 <= k < |qs| ==> 0 <= qs[k] < |order|
    requires forall k :: 0 <= k < |qs[1..]| ==> 0 <= qs[1..][k] < |order|
    requires qs[1] - qs[0] > 1
    ensures Pending(order, startPos, qs, handler, t)
            == [CatchEntry(BlockLabel(order[startPos]), EndLabel(order, qs[0]), BlockLabel(handler), t)]
               + Pending(order, qs[1], qs[1..], handler, t)
  {
    var rs, rest := Runs(qs), Runs(qs[1..]);
    RunsWithin(qs, |order|);
    RunsWithin(qs[1..], |order|);
    var d := RunsTail(qs);
    assert rs[1..] == rest;
    EntriesOpen(order, startPos, rs, handler, t);
    EntriesOpen(order, qs[1], rest, handler, t);
  }

  /** The entries of a run list whose first run is opened at `s` instead. */
  lemma EntriesOpen(order: seq<nat>, s: int, rs: seq<(int, int)>, handler: nat, t: string)
    requires rs != [] && WithinOrder(order, rs) && 0 <= s <= rs[0].1
    ensures WithinOrder(order, [(s, rs[0].1)] + rs[1..])
    ensures Entries(order, [(s, rs[0].1)] + rs[1..], handler, t)
            == [CatchEntry(BlockLabel(order[s]), EndLabel(order, rs[0].1), BlockLabel(handler), t)] + Entries(order, rs[1..], handler, t)
    ensures Entries(order, rs, handler, t)
            == [CatchEntry(BlockLabel(order[rs[0].0]), EndLabel(order, rs[0].1), BlockLabel(handler), t)] + Entries(order, rs[1..], handler, t)
  {
    assert WithinOrder(order, rs[1..]) by {
      forall k | 0 <= k < |rs[1..]| ensures 0 <= rs[1..][k].0 <= rs[1..][k].1 < |order| {
        assert rs[1..][k] == rs[k + 1];
      }
    }
    EntriesCons(order, (s, rs[0].1), rs[1..], handler, t);
  }



  /** With one position left, or only copies of the last block's position,
      the open run is the last entry. */
  lemma PendingLast(order: seq<nat>, startPos: int, qs: seq<int>, handler: nat, t: string)
    requires qs != [] && NonDecreasing(qs) && 0 <= startPos <= qs[0]
    requires forall k :: 0 <= k < |qs| ==> 0 <= qs[k] < |order|
    requires |qs| == 1 || qs[0] + 1 == |order|
    requires qs[|qs| - 1] < |order| && startPos < |order|
    ensures Pending(order, startPos, qs, handler, t)
         == [CatchEntry(BlockLabel(order[startPos]), EndLabel(order, qs[|qs| - 1]), BlockLabel(handler), t)]
  {
    OneRunIffContiguous(qs);
    RunsWithin(qs, |order|);
  }

  /** The `for (;;)` walk of `dumpRange` over a sorted, nonempty range. */
  method WalkRange(order: seq<nat>, range: seq<nat>, handlerBlock: nat, t: string,
                   ghost er: ExceptionRange<nat>, ghost ps: seq<int>, ghost goal: seq<CatchEntry>, ghost present: bool)
    returns (out: seq<CatchEntry>)
    requires range != []
    requires present ==> er.handler == handlerBlock
                         && Walking(order, er, range, t, ps, 0, IndexOf(order, range[0]), IndexOf(order, range[0]),
                                    BlockLabel(range[0]), [], goal)
    ensures out != []
    ensures present ==> out == goal
  {
    var handler := BlockLabel(handlerBlock);
    var start := BlockLabel(range[0]);
    var rangeIdx := 0;
    var orderIdx := IndexOf(order, range[0]);
    out := [];
    ghost var startPos := orderIdx;
    while true
      invariant 0 <= rangeIdx < |range|
      invariant -1 <= orderIdx < |order|
      invariant present ==> Walking(order, er, range, t, ps, rangeIdx, orderIdx, startPos, start, out, goal)
      decreases |range| - rangeIdx
    {
      if orderIdx + 1 == |order| {
        if present {
          WalkEnd(order, er, range, t, ps, rangeIdx, orderIdx, startPos, start, out, goal);
        }
        out := out + [CatchEntry(start, Terminal, handler, t)];
        break;
      } else if rangeIdx + 1 == |range| {
        if present {
          WalkEnd(order, er, range, t, ps, rangeIdx, orderIdx, startPos, start, out, goal);
        }
        out := out + [CatchEntry(start, BlockLabel(order[orderIdx + 1]), handler, t)];
        break;
      }
      var next := range[rangeIdx + 1];
      var nextOrderIdx := IndexOf(order, next);
      if present {
        if nextOrderIdx - orderIdx > 1 {
          WalkSplit(order, er, range, t, ps, rangeIdx, orderIdx, startPos, start, out, goal);
        } else {
          WalkJoin(order, er, range, t, ps, rangeIdx, orderIdx, startPos, start, out, goal);
        }
      }
      if nextOrderIdx - orderIdx > 1 {
        out := out + [CatchEntry(start, BlockLabel(order[orderIdx + 1]), handler, t)];
        start := BlockLabel(next);
        startPos := nextOrderIdx;
      }
      rangeIdx := rangeIdx + 1;
      if nextOrderIdx != -1 {
        orderIdx := nextOrderIdx;
      }
    }
  }

  // ---------------------------------------------------------------------
  // dump

  const EntryCount: string := "CFG doesn't have exactly 1 entry"

  /** The items written for one block: its label, then its statements. */
  function BlockItems(b: nat, c: seq<Stmt>): seq<Item> {
    [Mark(BlockLabel(b))] + seq(|c|, k requires 0 <= k < |c| => Code(c[k]))
  }

  /** The code written for the blocks of `order`, block after block. */
  function Emit(order: seq<nat>, code: map<nat, seq<Stmt>>): seq<Item>
    decreases |order|
  {
    if order == [] then [] else BlockItems(order[0], Lookup(code, order[0])) + Emit(order[1..], code)
  }

  lemma {:induction false} EmitSnoc(order: seq<nat>, b: nat, code: map<nat, seq<Stmt>>)
    ensures Emit(order + [b], code) == Emit(order, code) + BlockItems(b, Lookup(code, b))
    decreases |order|
  {
    if order == [] {
      assert Emit([b], code) == BlockItems(b, Lookup(code, b)) + Emit([], code);
    } else {
      assert (order + [b])[1..] == order[1..] + [b];
      EmitSnoc(order[1..], b, code);
    }
  }

  /** The labels among the written items, in order. */
  function Marks(items: seq<Item>): seq<Label>
    decreases |items|
  {
    if items == [] then [] else (if items[0].Mark? then [items[0].name] else []) + Marks(items[1..])
  }

  lemma {:induction false} MarksAppend(a: seq<Item>, b: seq<Item>)
    ensures Marks(a + b) == Marks(a) + Marks(b)
    decreases |a|
  {
    if a == [] {
      assert a + b == b;
    } else {
      assert (a + b)[0] == a[0] && (a + b)[1..] == a[1..] + b;
      MarksAppend(a[1..], b);
      var h := if a[0].Mark? then [a[0].name] else [];
      calc {
        Marks(a + b);
        h + Marks(a[1..] + b);
        h + (Marks(a[1..]) + Marks(b));
        (h + Marks(a[1..])) + Marks(b);
      }
    }
  }

  lemma {:induction false} StatementsUnmarked(c: seq<Stmt>)
    ensures Marks(seq(|c|, k requires 0 <= k < |c| => Code(c[k]))) == []
    decreases |c|
  {
    var s := seq(|c|, k requires 0 <= k < |c| => Code(c[k]));
    if c != [] {
      StatementsUnmarked(c[1..]);
      assert s[1..] == seq(|c[1..]|, k requires 0 <= k < |c[1..]| => Code(c[1..][k]));
    }
  }

  /** The written code carries each block's label once, in the order's
      order, and no other label. */
  lemma {:induction false} EmitMarks(order: seq<nat>, code: map<nat, seq<Stmt>>)
    ensures Marks(Emit(order, code)) == seq(|order|, k requires 0 <= k < |order| => BlockLabel(order[k]))
    decreases |order|
  {
    if order != [] {
      var c := Lookup(code, order[0]);
      var s := seq(|c|, k requires 0 <= k < |c| => Code(c[k]));
      EmitMarks(order[1..], code);
      MarksAppend(BlockItems(order[0], c), Emit(order[1..], code));
      MarksAppend([Mark(BlockLabel(order[0]))], s);
      StatementsUnmarked(c);
    }
  }

  /** The entries of several ranges, range after range. */
  function Join(parts: seq<seq<CatchEntry>>): seq<CatchEntry>
    decreases |parts|
  {
    if parts == [] then [] else parts[0] + Join(parts[1..])
  }

  lemma {:induction false} JoinSnoc(parts: seq<seq<CatchEntry>>, p: seq<CatchEntry>)
    ensures Join(parts + [p]) == Join(parts) + p
    decreases |parts|
  {
    if parts == [] {
      assert Join([p]) == p + Join([]);
    } else {
      assert (parts + [p])[1..] == parts[1..] + [p];
      JoinSnoc(parts[1..], p);
    }
  }

  /** The entries written for each range: nonempty, and for a range within
      the order the entries its runs give. */
  ghost predicate RangeParts(order: seq<nat>, ranges: seq<ExceptionRange<nat>>, parts: seq<seq<CatchEntry>>) {
    && |parts| <= |ranges|
    && forall k :: 0 <= k < |parts| ==>
         ranges[k].nodes != [] && parts[k] != []
         && (Present(order, ranges[k].nodes) ==> parts[k] == RangeTable(order, ranges[k]))
  }

  lemma RangePartsSnoc(order: seq<nat>, ranges: seq<ExceptionRange<nat>>, parts: seq<seq<CatchEntry>>,
                       p: seq<CatchEntry>)
    requires RangeParts(order, ranges, parts) && |parts| < |ranges|
    requires ranges[|parts|].nodes != [] && p != []
    requires Present(order, ranges[|parts|].nodes) ==> p == RangeTable(order, ranges[|parts|])
    ensures RangeParts(order, ranges, parts + [p])
  {
    var ps := parts + [p];
    forall k | 0 <= k < |ps|
      ensures ranges[k].nodes != [] && ps[k] != []
              && (Present(order, ranges[k].nodes) ==> ps[k] == RangeTable(order, ranges[k]))
    {
      if k < |parts| {
        assert ps[k] == parts[k];
      }
    }
  }

  /** `dumpRange`: the exception-table entries of one range. The range is
      sorted by position and walked with a range index and an order index;
      an entry is closed at the end of the method, at the end of the range,
      and wherever the order puts foreign blocks between two range blocks.
      An empty range fails on its first element. `order` is the dumper's
      block order. */
  method DumpRange(order: seq<nat>, er: ExceptionRange<nat>) returns (r: Result<seq<CatchEntry>, Exception>)
    ensures r.Err? <==> er.nodes == []
    ensures r.Err? ==> r.error == IndexOutOfBounds
    ensures r.Ok? ==> r.value != []
    ensures er.nodes != [] && Present(order, er.nodes) ==> r == Ok(RangeTable(order, er))
  {
    var t := CatchType(er.types);
    var range := SortByPosition(order, er.nodes);
    assert |range| == |er.nodes| by {
      assert |multiset(range)| == |multiset(er.nodes)|;
    }
    if |range| == 0 {
      return Err(IndexOutOfBounds);
    }
    ghost var present := Present(order, er.nodes);
    ghost var ps: seq<int> := [];
    ghost var goal: seq<CatchEntry> := [];
    if present {
      goal := RangeTable(order, er);
      PositionsSorted(order, er.nodes);
      ps := Positions(order, range);
      assert ps[0..] == ps;
    }
    var out := WalkRange(order, range, er.handler, t, er, ps, goal, present);
    r := Ok(out);
  }

  /** The entries of each range of `rs`, range after range, failing on
      the first empty range. */
  method DumpRangeList(order: seq<nat>, rs: seq<ExceptionRange<nat>>)
    returns (r: Outcome<Exception>, out: seq<CatchEntry>, ghost parts: seq<seq<CatchEntry>>)
    ensures r.Fail? <==> exists k :: 0 <= k < |rs| && rs[k].nodes == []
    ensures r.Fail? ==> r.error == IndexOutOfBounds
    ensures r.Pass? ==> |parts| == |rs| && RangeParts(order, rs, parts) && out == Join(parts)
  {
    parts, out := [], [];
    var k := 0;
    while k < |rs|
      invariant 0 <= k <= |rs| && |parts| == k
      invariant RangeParts(order, rs, parts)
      invariant out == Join(parts)
    {
      var res := DumpRange(order, rs[k]);
      if res.Err? {
        return Fail(res.error), out, parts;
      }
      RangePartsSnoc(order, rs, parts, res.value);
      JoinSnoc(parts, res.value);
      out := out + res.value;
      parts := parts + [res.value];
      k := k + 1;
    }
    r := Pass;
  }

  /** After a layout whose fall-throughs all reach the next block,
      `naturalise` never has to turn a fall-through into a jump: it only
      removes jumps to the next block. */
  lemma LayoutNeedsNoGoto(order: seq<nat>, es: set<FlowEdge<nat>>, e: FlowEdge<nat>)
    requires BundleOrder.Distinct(order) && Linearization.FallsInPlace(order, es)
    requires e in es && Fixed(order, e) != e
    ensures e.kind == UnconditionalJump
  {
    var i := IndexOf(order, e.src);
    if e.kind == Immediate {
      IndexOfDistinct(order, i + 1);
    }
  }

  /** No fall-through out of a block of the order misses the next block. */
  ghost predicate NoneBroken(order: seq<nat>, es: set<FlowEdge<nat>>) {
    forall i :: 0 <= i < |order| ==> !Broken(order, es, i)
  }

  /** A block none of whose edges `naturalise` changes keeps its code. */
  ghost predicate OthersKept(order: seq<nat>, es: set<FlowEdge<nat>>, code0: map<nat, seq<Stmt>>,
                             code: map<nat, seq<Stmt>>) {
    forall b :: (forall e :: e in es && e.src == b ==> Fixed(order, e) == e) ==> Lookup(code, b) == Lookup(code0, b)
  }

  /** `linearize()` fails: the graph does not have exactly one entry, or
      some range has an unbundled block after a bundled one. */
  ghost predicate LayoutFails(entries: set<nat>, es: set<FlowEdge<nat>>, postorder: seq<nat>,
                              ranges: seq<ExceptionRange<nat>>) {
    |entries| != 1 || Linearization.SomeRangeBreaks(es, postorder, ranges)
  }

  /** Every edge `naturalise` changed was a jump to the next block, and its
      block lost its last `goto`. */
  ghost predicate OnlyJumpsRemoved(order: seq<nat>, es: set<FlowEdge<nat>>, code0: map<nat, seq<Stmt>>,
                                   code: map<nat, seq<Stmt>>) {
    forall e :: e in es && Fixed(order, e) != e ==>
      e.kind == UnconditionalJump && Lookup(code, e.src) == DropLastJump(Lookup(code0, e.src))
  }

  /** What `naturalise` leaves after a layout whose fall-throughs all
      reach the next block: only jumps changed, each losing its block's last
      `goto`, and no fall-through is broken. */
  lemma AfterNaturalise(order: seq<nat>, es: set<FlowEdge<nat>>, code0: map<nat, seq<Stmt>>, code: map<nat, seq<Stmt>>)
    requires BundleOrder.Distinct(order) && Linearization.FallsInPlace(order, es)
    requires forall e :: e in es && Fixed(order, e) != e ==> Lookup(code, e.src) == Effect(Lookup(code0, e.src), e)
    ensures OnlyJumpsRemoved(order, es, code0, code)
    ensures NoneBroken(order, NaturalisedEdges(order, es))
  {
    forall e | e in es && Fixed(order, e) != e ensures e.kind == UnconditionalJump {
      LayoutNeedsNoGoto(order, es, e);
    }
    NaturaliseIdempotent(order, es);
    forall i | 0 <= i < |order| ensures !Broken(order, NaturalisedEdges(order, es), i) {
      NaturalNotBroken(order, NaturalisedEdges(order, es), i);
    }
  }

  /** The dumper of one method: its flow graph, the statements of its
      blocks, the block order, and the code and exception table written. */
  class Dumper {
    const cfg: FlowGraph<nat>
    var code: map<nat, seq<Stmt>>
    var order: seq<nat>
    var insns: seq<Item>
    var table: seq<CatchEntry>

    constructor (cfg: FlowGraph<nat>, code: map<nat, seq<Stmt>>)
      ensures this.cfg == cfg && this.code == code
      ensures order == [] && insns == [] && table == []
    {
      this.cfg := cfg;
      this.code := code;
      order, insns, table := [], [], [];
    }

    /** `naturalise`: walks the order and, for every edge out of each block,
        turns a fall-through that does not reach the next block into a jump
        (appending a `goto` to the block) and a jump to the next block into
        a fall-through (removing the block's last `goto`). The edges become
        their fixed forms, exactly the blocks owning a changed edge change
        their code, and the graph's blocks, entries and ranges stay. */
    method Naturalise()
      requires BundleOrder.Distinct(order) && OneJumpPerBlock(cfg.edges) && cfg.Indexed()
      requires forall b :: b in order ==> b in cfg.vertices
      modifies this`code, cfg
      ensures cfg.edges == NaturalisedEdges(order, old(cfg.edges))
      ensures forall e :: e in old(cfg.edges) && Fixed(order, e) != e ==>
                Lookup(code, e.src) == Effect(Lookup(old(code), e.src), e)
      ensures OthersKept(order, old(cfg.edges), old(code), code)
      ensures cfg.vertices == old(cfg.vertices) && cfg.vertexIds == old(cfg.vertexIds)
      ensures cfg.entries == old(cfg.entries) && cfg.ranges == old(cfg.ranges)
    {
      ghost var es := cfg.edges;
      ghost var code0 := code;
      ghost var vs, ids, ens, rs := cfg.vertices, cfg.vertexIds, cfg.entries, cfg.ranges;
      var i := 0;
      while i < |order|
        invariant 0 <= i <= |order|
        invariant Progress(order, es, code0, Done(order, es, i), cfg.edges, code)
        invariant cfg.vertices == vs && cfg.vertexIds == ids && cfg.entries == ens && cfg.ranges == rs
        invariant cfg.Indexed()
      {
        NaturaliseBlock(i, es, code0);
        i := i + 1;
      }
      NaturaliseEnd(order, es, code0, cfg.edges, code);
    }

    /** The edges of the block at position `i`, fixed one by one. */
    method NaturaliseBlock(i: nat, ghost es: set<FlowEdge<nat>>, ghost code0: map<nat, seq<Stmt>>)
      requires i < |order| && BundleOrder.Distinct(order) && OneJumpPerBlock(es) && cfg.Indexed()
      requires order[i] in cfg.vertices
      requires Progress(order, es, code0, Done(order, es, i), cfg.edges, code)
      modifies this`code, cfg
      ensures Progress(order, es, code0, Done(order, es, i + 1), cfg.edges, code)
      ensures cfg.Indexed()
      ensures cfg.vertices == old(cfg.vertices) && cfg.vertexIds == old(cfg.vertexIds)
      ensures cfg.entries == old(cfg.entries) && cfg.ranges == old(cfg.ranges)
    {
      var b := order[i];
      IndexOfDistinct(order, i);
      DoneStep(order, es, i);
      ghost var done0 := Done(order, es, i);
      var out := cfg.EdgesAt(b, true);
      EdgesOutUntouched(order, es, done0, cfg.edges, b);
      assert out == EdgesOut(es, b);
      ghost var done := FixEdges(i, out, es, code0, done0);
      assert done == Done(order, es, i + 1);
    }

    /** The loop of `naturalise` over a snapshot of one block's edges. */
    method FixEdges(i: nat, out: set<FlowEdge<nat>>, ghost es: set<FlowEdge<nat>>, ghost code0: map<nat, seq<Stmt>>,
                    ghost done0: set<FlowEdge<nat>>) returns (ghost done: set<FlowEdge<nat>>)
      requires i < |order| && IndexOf(order, order[i]) == i && OneJumpPerBlock(es)
      requires cfg.Indexed() && order[i] in cfg.vertices
      requires out <= EdgesOut(es, order[i]) && forall e :: e in done0 ==> e.src != order[i]
      requires Progress(order, es, code0, done0, cfg.edges, code)
      modifies this`code, cfg
      ensures done == done0 + out
      ensures Progress(order, es, code0, done, cfg.edges, code)
      ensures cfg.Indexed()
      ensures cfg.vertices == old(cfg.vertices) && cfg.vertexIds == old(cfg.vertexIds)
      ensures cfg.entries == old(cfg.entries) && cfg.ranges == old(cfg.ranges)
    {
      var b := order[i];
      var todo := out;
      done := done0;
      assert done0 + (out - todo) == done0;
      while todo != {}
        invariant todo <= out
        invariant done == done0 + (out - todo)
        invariant Progress(order, es, code0, done, cfg.edges, code)
        invariant cfg.Indexed() && b in cfg.vertices
        invariant cfg.vertices == old(cfg.vertices) && cfg.vertexIds == old(cfg.vertexIds)
        invariant cfg.entries == old(cfg.entries) && cfg.ranges == old(cfg.ranges)
        decreases |todo|
      {
        var e :| e in todo;
        TakeOne(done0, out, todo, e);
        assert e in EdgesOut(es, b) && e !in done0;
        FixEdge(i, e, es, code0, done);
        done := done + {e};
        todo := todo - {e};
      }
      assert out - todo == out;
    }

    /** One edge of `naturalise`: the block at position `i` gets a `goto`
        for a broken fall-through, or loses its last `goto` for a jump to
        the next block, and the edge changes kind accordingly. */
    method FixEdge(i: nat, e: FlowEdge<nat>, ghost es: set<FlowEdge<nat>>, ghost code0: map<nat, seq<Stmt>>,
                   ghost done: set<FlowEdge<nat>>)
      requires i < |order| && IndexOf(order, order[i]) == i && e.src == order[i]
      requires OneJumpPerBlock(es) && cfg.Indexed() && order[i] in cfg.vertices
      requires e in es && e !in done && Progress(order, es, code0, done, cfg.edges, code)
      modifies this`code, cfg
      ensures Progress(order, es, code0, done + {e}, cfg.edges, code)
      ensures cfg.Indexed()
      ensures cfg.vertices == old(cfg.vertices) && cfg.vertexIds == old(cfg.vertexIds)
      ensures cfg.entries == old(cfg.entries) && cfg.ranges == old(cfg.ranges)
    {
      var b := order[i];
      ProgressStep(order, es, code0, done, cfg.edges, code, e);
      if e.kind == Immediate && IndexOf(order, e.dst) != i + 1 {
        Retarget(b, e, FlowEdge(b, e.dst, UnconditionalJump), Lookup(code, b) + [Goto(e.dst)]);
      } else if e.kind == UnconditionalJump && IndexOf(order, e.dst) == i + 1 {
        var c := RemoveLastJump(Lookup(code, b));
        Retarget(b, e, FlowEdge(b, e.dst, Immediate), c);
      }
    }

    /** Replaces edge `e` out of vertex `b` by `f` and the code of `b` by `c`. */
    method Retarget(b: nat, e: FlowEdge<nat>, f: FlowEdge<nat>, c: seq<Stmt>)
      requires cfg.Indexed() && b in cfg.vertices
      modifies this`code, cfg
      ensures code == old(code)[b := c]
      ensures cfg.edges == old(cfg.edges) - {e} + {f}
      ensures cfg.Indexed()
      ensures cfg.vertices == old(cfg.vertices) && cfg.vertexIds == old(cfg.vertexIds)
      ensures cfg.entries == old(cfg.entries) && cfg.ranges == old(cfg.ranges)
    {
      ghost var ids := cfg.vertexIds;
      assert ids[cfg.idOf(b)] == b;
      code := code[b := c];
      cfg.RemoveEdge(b, e);
      cfg.AddEdge(b, f);
      assert cfg.vertexIds == ids;
    }

    /** `verify`: fails on the first block of the order with a fall-through
        that does not go to the next block ("Illegal flow") or that leaves
        the last block ("Trailing"), and passes when there is none. */
    method Verify() returns (r: Outcome<Exception>)
      ensures r.Pass? <==> NoneBroken(order, cfg.edges)
      ensures r.Fail? ==> exists i :: (0 <= i < |order| && Broken(order, cfg.edges, i)
                                       && (forall j :: 0 <= j < i ==> !Broken(order, cfg.edges, j))
                                       && r.error == IllegalState(if i + 1 == |order| then "Trailing" else "Illegal flow"))
    {
      var i := 0;
      while i < |order|
        invariant 0 <= i <= |order|
        invariant forall j :: 0 <= j < i ==> !Broken(order, cfg.edges, j)
      {
        var b := order[i];
        var out := cfg.EdgesAt(b, true);
        var todo := out;
        while todo != {}
          invariant todo <= out
          invariant forall e :: e in out - todo && e.kind == Immediate ==> i + 1 < |order| && order[i + 1] == e.dst
          decreases |todo|
        {
          var e :| e in todo;
          if e.kind == Immediate {
            if i + 1 < |order| {
              if order[i + 1] != e.dst {
                assert Broken(order, cfg.edges, i);
                return Fail(IllegalState("Illegal flow"));
              }
            } else {
              assert Broken(order, cfg.edges, i);
              return Fail(IllegalState("Trailing"));
            }
          }
          todo := todo - {e};
        }
        i := i + 1;
      }
      return Pass;
    }

    /** `linearize()`: the block order. It fails unless the graph has exactly
        one entry, and fails on a range in which a bundled block is followed
        by an unbundled one. Otherwise the order holds each block on a full
        fall-through chain from a block the search reached, once, and every
        fall-through out of a block of the order reaches the next block.
        `postorder` is the depth-first post-order from the entry and `search`
        the SCC search; neither is part of this model. */
    method Linearize(postorder: seq<nat>, search: BundleOrder.SccSearch) returns (r: Outcome<Exception>)
      requires BundleOrder.IsSccSearch(search) && Bundling.FallThroughShape(cfg.edges)
      modifies this`order
      ensures r.Fail? <==> |cfg.entries| != 1 || Linearization.SomeRangeBreaks(cfg.edges, postorder, cfg.ranges)
      ensures r.Fail? ==> order == old(order)
      ensures r.Fail? ==> r.error == if |cfg.entries| != 1 then IllegalState(EntryCount) else NullPointer
      ensures r.Pass? ==> BundleOrder.Distinct(order)
      ensures r.Pass? ==> forall b :: b in order <==> Linearization.InBundle(cfg.edges, postorder, b)
      ensures r.Pass? ==> Linearization.FallsInPlace(order, cfg.edges)
    {
      if |cfg.entries| != 1 {
        return Fail(IllegalState(EntryCount));
      }
      var entry :| entry in cfg.entries;
      var bundleOf, members := Bundling.BuildBundles(cfg.edges, postorder);
      Linearization.NullIffBreaks(cfg.edges, postorder, bundleOf, members, cfg.ranges);
      var grouped := Bundling.GroupByRanges(cfg.ranges, bundleOf, members.Keys);
      if grouped.Err? {
        return Fail(grouped.error);
      }
      var bunchOf, bunchList := grouped.value.0, grouped.value.1;
      order := Linearization.Layout(cfg.edges, postorder, search, entry, bundleOf, members, bunchOf, bunchList);
      r := Pass;
    }

    /** The code-writing loop of `dump`: each block's label and statements
        in order, then the terminal label. */
    method EmitCode()
      modifies this`insns
      ensures insns == old(insns) + Emit(order, code) + [Mark(Terminal)]
    {
      var i := 0;
      while i < |order|
        invariant 0 <= i <= |order|
        invariant insns == old(insns) + Emit(order[..i], code)
      {
        EmitSnoc(order[..i], order[i], code);
        assert order[..i + 1] == order[..i] + [order[i]];
        EmitBlock(order[i]);
        i := i + 1;
      }
      assert order[..i] == order;
      insns := insns + [Mark(Terminal)];
    }

    /** The label of one block and its statements. */
    method EmitBlock(b: nat)
      modifies this`insns
      ensures insns == old(insns) + BlockItems(b, Lookup(code, b))
    {
      var c := Lookup(code, b);
      insns := insns + [Mark(BlockLabel(b))];
      var k := 0;
      while k < |c|
        invariant 0 <= k <= |c|
        invariant insns == old(insns) + BlockItems(b, c[..k])
      {
        assert BlockItems(b, c[..k + 1]) == BlockItems(b, c[..k]) + [Code(c[k])];
        insns := insns + [Code(c[k])];
        k := k + 1;
      }
      assert c[..k] == c;
    }

    /** The range loop of `dump`: the entries of each range appended to
        the table in range order; the first empty range fails. */
    method DumpRanges() returns (r: Outcome<Exception>, ghost parts: seq<seq<CatchEntry>>)
      modifies this`table
      ensures r.Fail? <==> exists k :: 0 <= k < |cfg.ranges| && cfg.ranges[k].nodes == []
      ensures r.Fail? ==> r.error == IndexOutOfBounds
      ensures r.Pass? ==> |parts| == |cfg.ranges| && RangeParts(order, cfg.ranges, parts)
                          && table == old(table) + Join(parts)
    {
      var rs := cfg.GetRanges();
      var out;
      r, out, parts := DumpRangeList(order, rs);
      table := table + out;
    }

    /** `dump`: clears the written code, lays the blocks out, naturalises the
        edges, writes the code and the terminal label, verifies the layout
        (which cannot fail after `naturalise`) and writes the exception
        table. It fails as `linearize()` does, and then on the first empty
        range. On success the order is the layout `linearize()` promises,
        `naturalise` only removed jumps to the next block, the code is the
        blocks' labels and statements in order, every fall-through reaches
        the next block, and the table is the ranges' entries in range order,
        those of a range within the order being the ones its runs give. */
    method Dump(postorder: seq<nat>, search: BundleOrder.SccSearch) returns (r: Outcome<Exception>, ghost parts: seq<seq<CatchEntry>>)
      requires BundleOrder.IsSccSearch(search)
      requires Bundling.FallThroughShape(cfg.edges) && OneJumpPerBlock(cfg.edges) && cfg.Indexed()
      requires forall b :: b in postorder ==> b in cfg.vertices
      requires forall e :: e in cfg.edges ==> e.dst in cfg.vertices
      modifies this, cfg
      ensures cfg.vertices == old(cfg.vertices) && cfg.vertexIds == old(cfg.vertexIds)
      ensures cfg.entries == old(cfg.entries) && cfg.ranges == old(cfg.ranges)
      ensures |old(cfg.entries)| != 1 ==> r == Fail(IllegalState(EntryCount))
      ensures |old(cfg.entries)| == 1 && Linearization.SomeRangeBreaks(old(cfg.edges), postorder, old(cfg.ranges)) ==>
                r == Fail(NullPointer)
      ensures LayoutFails(old(cfg.entries), old(cfg.edges), postorder, old(cfg.ranges)) ==>
                order == old(order) && code == old(code) && cfg.edges == old(cfg.edges) && insns == [] && table == []
      ensures !LayoutFails(old(cfg.entries), old(cfg.edges), postorder, old(cfg.ranges)) ==>
                (r.Fail? <==> exists k :: 0 <= k < |old(cfg.ranges)| && old(cfg.ranges)[k].nodes == [])
                && (r.Fail? ==> r.error == IndexOutOfBounds)
      ensures !LayoutFails(old(cfg.entries), old(cfg.edges), postorder, old(cfg.ranges)) ==>
                BundleOrder.Distinct(order)
                && (forall b :: b in order <==> Linearization.InBundle(old(cfg.edges), postorder, b))
                && cfg.edges == NaturalisedEdges(order, old(cfg.edges))
                && OnlyJumpsRemoved(order, old(cfg.edges), old(code), code)
                && OthersKept(order, old(cfg.edges), old(code), code)
                && insns == Emit(order, code) + [Mark(Terminal)]
                && NoneBroken(order, cfg.edges)
      ensures r.Pass? ==> |parts| == |old(cfg.ranges)| && RangeParts(order, old(cfg.ranges), parts) && table == Join(parts)
    {
      ghost var es0, rs0, code0 := cfg.edges, cfg.ranges, code;
      insns, table := [], [];
      var lin := Linearize(postorder, search);
      if lin.Fail? {
        return lin, [];
      }
      assert cfg.edges == es0 && cfg.ranges == rs0 && code == code0;
      forall b | b in order ensures b in cfg.vertices {
        Linearization.InBundleIsVertex(cfg.edges, postorder, cfg.vertices, b);
      }
      r, parts := WriteOut();
    }

    /** The part of `dump` after the layout: `naturalise`, the code, the
        check of the layout and the exception table. */
    method WriteOut() returns (r: Outcome<Exception>, ghost parts: seq<seq<CatchEntry>>)
      requires BundleOrder.Distinct(order) && Linearization.FallsInPlace(order, cfg.edges)
      requires OneJumpPerBlock(cfg.edges) && cfg.Indexed() && forall b :: b in order ==> b in cfg.vertices
      requires insns == [] && table == []
      modifies this`code, this`insns, this`table, cfg
      ensures order == old(order) && cfg.ranges == old(cfg.ranges)
      ensures r.Fail? <==> exists k :: 0 <= k < |cfg.ranges| && cfg.ranges[k].nodes == []
      ensures r.Fail? ==> r.error == IndexOutOfBounds
      ensures cfg.edges == NaturalisedEdges(order, old(cfg.edges))
      ensures cfg.vertices == old(cfg.vertices) && cfg.vertexIds == old(cfg.vertexIds) && cfg.entries == old(cfg.entries)
      ensures OnlyJumpsRemoved(order, old(cfg.edges), old(code), code)
      ensures OthersKept(order, old(cfg.edges), old(code), code)
      ensures insns == Emit(order, code) + [Mark(Terminal)]
      ensures NoneBroken(order, cfg.edges)
      ensures r.Pass? ==> |parts| == |cfg.ranges| && RangeParts(order, cfg.ranges, parts) && table == Join(parts)
    {
      ghost var es, code0 := cfg.edges, code;
      Naturalise();
      AfterNaturalise(order, es, code0, code);
      EmitCode();
      var v := Verify();
      assert v.Pass?;
      r, parts := DumpRanges();
    }
  }
}
