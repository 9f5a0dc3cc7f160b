/** Backward, phi-aware liveness over SSA code: the per-block def / phi-def /
    phi-use sets and the transfer, edge-propagation and merge rules of the
    analysis. Variable sets are values here; the Java code updates the
    passed-in sets in place, and each method returns the updated set. */
module SsaLiveness {
  import opened Wrappers

  type Local = nat
  type Block = nat

  /** An expression as the analysis sees it: a variable read, or an operator
      over sub-expressions (constants are operators without operands). */
  datatype Expr = Var(local: Local) | Op(operands: seq<Expr>)

  /** A statement. A phi expression occurs only as the right-hand side of a
      copy (`PhiCopy`), with one argument per predecessor block. */
  datatype Stmt =
    | PhiCopy(target: Local, args: seq<(Block, Expr)>)
    | CopyVar(target: Local, value: Expr)
    | Other(operands: seq<Expr>)

  /** The variables read anywhere inside `e`. */
  function Reads(e: Expr): set<Local>
    decreases e
  {
    match e
    case Var(l) => {l}
    case Op(operands) => ReadsAll(operands)
  }

  function ReadsAll(es: seq<Expr>): set<Local>
    decreases es
  {
    if es == [] then {} else Reads(es[0]) + ReadsAll(es[1..])
  }

  /** The variables a statement reads, phi arguments excepted. */
  function StmtReads(s: Stmt): set<Local> {
    match s
    case PhiCopy(_, _) => {}
    case CopyVar(_, value) => Reads(value)
    case Other(operands) => ReadsAll(operands)
  }

  /** The variables read by the arguments of a phi. */
  function PhiArgReads(args: seq<(Block, Expr)>): set<Local>
    decreases |args|
  {
    if args == [] then {} else Reads(args[0].1) + PhiArgReads(args[1..])
  }

  /** Targets of the non-phi copies of a block. */
  function Defs(ss: seq<Stmt>): set<Local> {
    set i | 0 <= i < |ss| && ss[i].CopyVar? :: ss[i].target
  }

  /** Targets of the phi copies of a block. */
  function PhiDefs(ss: seq<Stmt>): set<Local> {
    set i | 0 <= i < |ss| && ss[i].PhiCopy? :: ss[i].target
  }

  /** Variables read by the phi arguments of a block. */
  function PhiUses(ss: seq<Stmt>): set<Local> {
    set i, l | 0 <= i < |ss| && ss[i].PhiCopy? && l in PhiArgReads(ss[i].args) :: l
  }

  /** Variables read by the non-phi statements of a block. */
  function Uses(ss: seq<Stmt>): set<Local> {
    set i, l | 0 <= i < |ss| && l in StmtReads(ss[i]) :: l
  }

  /** The live-in set `execute` leaves: the incoming set and the live-out set
      without the block's non-phi definitions, plus the phi targets, plus the
      variables read by non-phi statements that the block does not define. */
  function Transfer(ss: seq<Stmt>, defs: set<Local>, in0: set<Local>, out: set<Local>): set<Local> {
    ((in0 + out) - defs) + PhiDefs(ss) + (Uses(ss) - defs)
  }

  /** The source's out-set after `flowThrough` across the edge src -> dst. */
  function Flow(dstIn: set<Local>, dstPhiDefs: set<Local>, dstPhiUses: set<Local>,
                srcDefs: set<Local>, srcOut: set<Local>): set<Local>
  {
    (srcOut - (dstIn * dstPhiDefs)) + (dstIn - dstPhiDefs) + (dstPhiUses * srcDefs)
  }

  /** A map lookup that yields the empty set for a missing key, as the
      analysis's null-permeable maps do. */
  function Lookup(m: map<Block, set<Local>>, b: Block): set<Local> {
    if b in m then m[b] else {}
  }

  lemma PrefixStep(ss: seq<Stmt>, j: nat)
    requires j < |ss|
    ensures Defs(ss[..j+1]) == Defs(ss[..j]) + (if ss[j].CopyVar? then {ss[j].target} else {})
    ensures PhiDefs(ss[..j+1]) == PhiDefs(ss[..j]) + (if ss[j].PhiCopy? then {ss[j].target} else {})
    ensures PhiUses(ss[..j+1]) == PhiUses(ss[..j]) + (if ss[j].PhiCopy? then PhiArgReads(ss[j].args) else {})
    ensures Uses(ss[..j+1]) == Uses(ss[..j]) + StmtReads(ss[j])
  {
    var p, q := ss[..j], ss[..j+1];
    assert forall i :: 0 <= i < j ==> q[i] == p[i];
    assert q[j] == ss[j];
    forall l | l in PhiUses(q)
      ensures l in PhiUses(p) + (if ss[j].PhiCopy? then PhiArgReads(ss[j].args) else {})
    {
      var i :| 0 <= i < |q| && q[i].PhiCopy? && l in PhiArgReads(q[i].args);
      if i < j { assert p[i] == q[i]; }
    }
    forall l | l in Uses(q)
      ensures l in Uses(p) + StmtReads(ss[j])
    {
      var i :| 0 <= i < |q| && l in StmtReads(q[i]);
      if i < j { assert p[i] == q[i]; }
    }
    forall l | l in Uses(p) ensures l in Uses(q) {
      var i :| 0 <= i < |p| && l in StmtReads(p[i]);
      assert q[i] == p[i];
    }
    forall l | l in StmtReads(ss[j]) ensures l in Uses(q) {
      assert l in StmtReads(q[j]);
    }
    forall l | l in PhiUses(p) ensures l in PhiUses(q) {
      var i :| 0 <= i < |p| && p[i].PhiCopy? && l in PhiArgReads(p[i].args);
      assert q[i] == p[i];
    }
    if ss[j].PhiCopy? {
      forall l | l in PhiArgReads(ss[j].args) ensures l in PhiUses(q) {
        assert q[j].PhiCopy? && l in PhiArgReads(q[j].args);
      }
    }
  }

  /** The def, phi-def and phi-use sets of every block, one block at a time. */
  method ScanAll(blocks: map<Block, seq<Stmt>>) returns (ds: map<Block, set<Local>>, pds: map<Block, set<Local>>, pus: map<Block, set<Local>>)
    ensures ds.Keys == pds.Keys == pus.Keys == blocks.Keys
    ensures forall b :: b in blocks ==> ds[b] == Defs(blocks[b]) && pds[b] == PhiDefs(blocks[b]) && pus[b] == PhiUses(blocks[b])
  {
    ds, pds, pus := map[], map[], map[];
    var todo := blocks.Keys;
    while todo != {}
      invariant todo <= blocks.Keys
      invariant forall b :: b in ds <==> b in blocks && b !in todo
      invariant forall b :: b in pds <==> b in blocks && b !in todo
      invariant forall b :: b in pus <==> b in blocks && b !in todo
      invariant forall b :: b in ds ==> ds[b] == Defs(blocks[b])
      invariant forall b :: b in pds ==> pds[b] == PhiDefs(blocks[b])
      invariant forall b :: b in pus ==> pus[b] == PhiUses(blocks[b])
      decreases |todo|
    {
      var b :| b in todo;
      var d, pd, pu := ScanBlock(blocks[b]);
      ds, pds, pus := ds[b := d], pds[b := pd], pus[b := pu];
      todo := todo - {b};
    }
  }

  lemma TransferStep(ss: seq<Stmt>, defs: set<Local>, in0: set<Local>, out: set<Local>, j: nat)
    requires j < |ss|
    ensures Transfer(ss[..j + 1], defs, in0, out)
         == Transfer(ss[..j], defs, in0, out) + (if ss[j].PhiCopy? then {ss[j].target} else StmtReads(ss[j]) - defs)
  {
    PrefixStep(ss, j);
  }

  /** The statement walk of `execute` over one block's statements `ss`,
      whose non-phi definitions are `defs`. */
  method ExecuteBlock(ss: seq<Stmt>, defs: set<Local>, in0: set<Local>, out: set<Local>) returns (liveIn: set<Local>)
    ensures liveIn == Transfer(ss, defs, in0, out)
  {
    liveIn := in0 + out;
    liveIn := liveIn - defs;
    var j := 0;
    assert PhiDefs(ss[..0]) == {} && Uses(ss[..0]) == {};
    while j < |ss|
      invariant 0 <= j <= |ss|
      invariant liveIn == Transfer(ss[..j], defs, in0, out)
    {
      TransferStep(ss, defs, in0, out, j);
      if ss[j].PhiCopy? {
        liveIn := liveIn + {ss[j].target};
      } else {
        liveIn := liveIn + (StmtReads(ss[j]) - defs);
      }
      j := j + 1;
    }
    assert ss[..j] == ss;
  }

  class SsaLivenessAnalyser {
    /** The blocks of the analysed graph with their statement lists. */
    const code: map<Block, seq<Stmt>>
    var def: map<Block, set<Local>>
    var phiDef: map<Block, set<Local>>
    var phiUse: map<Block, set<Local>>

    constructor (code: map<Block, seq<Stmt>>)
      ensures this.code == code && def == map[] && phiDef == map[] && phiUse == map[]
    {
      this.code := code;
      def, phiDef, phiUse := map[], map[], map[];
    }

    /** Every block's def, phi-def and phi-use sets match its statements. */
    ghost predicate Initialised()
      reads this
    {
      forall b :: Lookup(def, b) == (if b in code then Defs(code[b]) else {})
               && Lookup(phiDef, b) == (if b in code then PhiDefs(code[b]) else {})
               && Lookup(phiUse, b) == (if b in code then PhiUses(code[b]) else {})
    }

    /** Fills def, phiDef and phiUse from the statements of every block. */
    method Init()
      modifies this
      ensures Initialised()
    {
      var ds, pds, pus := ScanAll(code);
      def, phiDef, phiUse := ds, pds, pus;
    }

    /** The live-in set of block `b` given its live-out set `out`: `in` gains
        `out`, loses the block's non-phi definitions, gains every phi target,
        and gains every variable read by a non-phi statement that the block
        does not define. */
    method Execute(b: Block, out: set<Local>, in0: set<Local>) returns (liveIn: set<Local>)
      ensures liveIn == Transfer(if b in code then code[b] else [], Lookup(def, b), in0, out)
    {
      liveIn := ExecuteBlock(if b in code then code[b] else [], Lookup(def, b), in0, out);
    }

    /** Propagates the destination's live-in set to the source's live-out set
        across the edge src -> dst. */
    method FlowThrough(dst: Block, dstIn: set<Local>, src: Block, srcOut: set<Local>) returns (out: set<Local>)
      ensures out == Flow(dstIn, Lookup(phiDef, dst), Lookup(phiUse, dst), Lookup(def, src), srcOut)
    {
      out := PropagateLiveIn(srcOut, dstIn, Lookup(phiDef, dst));
      out := AddDefinedPhiUses(out, Lookup(phiUse, dst), Lookup(def, src));
    }

    /** Joins the contribution of the edge src -> dst into `out`: `srcOut` is
        added before and after propagating across the edge. */
    method Merge(srcB: Block, srcOut: set<Local>, dstB: Block, dstIn: set<Local>, out: set<Local>) returns (out': set<Local>)
      ensures srcOut <= out'
      ensures out' == Flow(dstIn, Lookup(phiDef, dstB), Lookup(phiUse, dstB), Lookup(def, srcB), out + srcOut) + srcOut
    {
      out' := out + srcOut;
      out' := FlowThrough(dstB, dstIn, srcB, out');
      out' := out' + srcOut;
    }

    /** Exception edges are not supported by this analysis. */
    method FlowException(srcB: Block, src: set<Local>, dstB: Block, dst: set<Local>) returns (r: Outcome<Exception>)
      ensures r == Fail(UnsupportedOperation)
    {
      r := Fail(UnsupportedOperation);
    }
  }

  /** First half of `flowThrough`: each variable live into the destination
      is removed from `out` when the destination's phis define it, and added
      otherwise. */
  method PropagateLiveIn(out0: set<Local>, dstIn: set<Local>, phiDefs: set<Local>) returns (out: set<Local>)
    ensures out == (out0 - (dstIn * phiDefs)) + (dstIn - phiDefs)
  {
    out := out0;
    var todo := dstIn;
    while todo != {}
      invariant todo <= dstIn
      invariant forall x :: x in out <==> (x in out0 && !(x in dstIn - todo && x in phiDefs)) || (x in dstIn - todo && x !in phiDefs)
      decreases |todo|
    {
      var l :| l in todo;
      if l in phiDefs {
        out := out - {l};
      } else {
        out := out + {l};
      }
      todo := todo - {l};
    }
  }

  /** Second half of `flowThrough`: each variable read by the destination's
      phi arguments joins `out` when the source block defines it. */
  method AddDefinedPhiUses(out0: set<Local>, uses: set<Local>, defs: set<Local>) returns (out: set<Local>)
    ensures out == out0 + (uses * defs)
  {
    out := out0;
    var rest := uses;
    while rest != {}
      invariant rest <= uses
      invariant forall x :: x in out <==> x in out0 || (x in uses - rest && x in defs)
      decreases |rest|
    {
      var l :| l in rest;
      if l in defs {
        out := out + {l};
      }
      rest := rest - {l};
    }
  }

  /** The def, phi-def and phi-use sets of one block's statements, collected
      statement by statement as `init` does. */
  method ScanBlock(ss: seq<Stmt>) returns (d: set<Local>, pd: set<Local>, pu: set<Local>)
    ensures d == Defs(ss) && pd == PhiDefs(ss) && pu == PhiUses(ss)
  {
    d, pd, pu := {}, {}, {};
    var j := 0;
    while j < |ss|
      invariant 0 <= j <= |ss|
      invariant d == Defs(ss[..j]) && pd == PhiDefs(ss[..j]) && pu == PhiUses(ss[..j])
    {
      PrefixStep(ss, j);
      match ss[j] {
      case PhiCopy(t, args) =>
        pd := pd + {t};
        var k := 0;
        ghost var pu0 := pu;
        while k < |args|
          invariant 0 <= k <= |args|
          invariant pu == pu0 + PhiArgReads(args[..k])
        {
          PhiArgPrefix(args, k);
          pu := pu + Reads(args[k].1);
          k := k + 1;
        }
        assert args[..k] == args;
      case CopyVar(t, _) =>
        d := d + {t};
      case Other(_) =>
      }
      j := j + 1;
    }
    assert ss[..j] == ss;
  }

  lemma PhiArgPrefix(args: seq<(Block, Expr)>, k: nat)
    requires k < |args|
    ensures PhiArgReads(args[..k+1]) == PhiArgReads(args[..k]) + Reads(args[k].1)
    decreases k
  {
    if k == 0 {
      assert args[..1] == [args[0]];
      assert args[..1][1..] == [];
    } else {
      assert args[..k+1][1..] == args[1..][..k];
      assert args[..k][1..] == args[1..][..k-1];
      PhiArgPrefix(args[1..], k - 1);
    }
  }

  /** State equality of the analysis: set equality. */
  function StatesEqual(s1: set<Local>, s2: set<Local>): (r: bool)
    ensures r <==> (forall l :: l in s1 <==> l in s2)
  {
    s1 == s2
  }

  /** `copy(src, dst)`: dst gains every element of src. */
  function CopyState(src: set<Local>, dst: set<Local>): (r: set<Local>)
    ensures src <= r && dst <= r && forall l :: l in r ==> l in src || l in dst
  {
    dst + src
  }

  /** Fresh states, and the entry state, are empty. */
  function NewState(): (r: set<Local>)
    ensures forall l :: l !in r
  {
    {}
  }

  /** Appending a statement to a block adds its phi target, or the variables
      it reads that the block does not define, to the live-in set. */
  lemma TransferAppend(ss: seq<Stmt>, st: Stmt, defs: set<Local>, in0: set<Local>, out: set<Local>)
    ensures Transfer(ss + [st], defs, in0, out)
         == Transfer(ss, defs, in0, out) + (if st.PhiCopy? then {st.target} else StmtReads(st) - defs)
  {
    var t := ss + [st];
    assert t[..|ss|] == ss;
    PrefixStep(t, |ss|);
    assert t[..|ss| + 1] == t;
  }

  /** Live-in, element by element: a variable is live into a block iff it is
      a phi target of the block, or the block does not define it by a non-phi
      copy and it is live out, already live in, or read by some non-phi
      statement of the block. */
  lemma LiveInIff(ss: seq<Stmt>, in0: set<Local>, out: set<Local>, x: Local)
    ensures x in Transfer(ss, Defs(ss), in0, out)
        <==> x in PhiDefs(ss)
             || (!(exists i :: 0 <= i < |ss| && ss[i].CopyVar? && ss[i].target == x)
                 && (x in in0 || x in out || exists i :: 0 <= i < |ss| && x in StmtReads(ss[i])))
  {
    if x in Defs(ss) {
      var i :| 0 <= i < |ss| && ss[i].CopyVar? && ss[i].target == x;
    }
    if exists i :: 0 <= i < |ss| && x in StmtReads(ss[i]) {
      var i :| 0 <= i < |ss| && x in StmtReads(ss[i]);
      assert x in Uses(ss);
    }
  }

  /** Propagation across an edge, element by element: a phi target of the
      destination never reaches the source's live-out set through the
      destination's live-in set, any other live-in variable does, and a phi
      argument joins it iff the source defines it. */
  lemma FlowIff(dstIn: set<Local>, phiDefs: set<Local>, phiUses: set<Local>, srcDefs: set<Local>, srcOut: set<Local>, x: Local)
    ensures x in Flow(dstIn, phiDefs, phiUses, srcDefs, srcOut)
        <==> (x in dstIn && x !in phiDefs)
             || (x in phiUses && x in srcDefs)
             || (x in srcOut && !(x in dstIn && x in phiDefs))
  {
  }

  /** A diamond: blocks 1 and 2 define x1 and x2 and both jump to block 3,
      whose phi joins them into x3 and whose next statement reads x3. Only x3
      is live into block 3; x1 is live out of block 1 alone and x2 out of
      block 2 alone, because a phi argument reaches only the predecessor that
      defines it. */
  lemma DiamondExample()
    ensures var left := [CopyVar(1, Op([]))];
            var right := [CopyVar(2, Op([]))];
            var join := [PhiCopy(3, [(1, Var(1)), (2, Var(2))]), Other([Var(3)])];
            var joinIn := Transfer(join, Defs(join), {}, {});
            joinIn == {3}
            && Flow(joinIn, PhiDefs(join), PhiUses(join), Defs(left), {}) == {1}
            && Flow(joinIn, PhiDefs(join), PhiUses(join), Defs(right), {}) == {2}
  {
    var left := [CopyVar(1, Op([]))];
    var right := [CopyVar(2, Op([]))];
    var args: seq<(Block, Expr)> := [(1, Var(1)), (2, Var(2))];
    var join := [PhiCopy(3, args), Other([Var(3)])];
    assert Defs(left) == {1} by { assert left[0].CopyVar?; }
    assert Defs(right) == {2} by { assert right[0].CopyVar?; }
    assert Defs(join) == {};
    assert PhiDefs(join) == {3} by { assert join[0].PhiCopy?; }
    assert PhiArgReads(args) == {1, 2} by {
      assert args[1..] == [(2, Var(2))];
      assert args[1..][1..] == [];
    }
    assert PhiUses(join) == {1, 2} by {
      forall l | l in PhiArgReads(args) ensures l in PhiUses(join) {
        assert join[0].PhiCopy? && l in PhiArgReads(join[0].args);
      }
    }
    assert StmtReads(join[1]) == {3} by {
      var ops: seq<Expr> := [Var(3)];
      assert ops[1..] == [];
    }
    assert Uses(join) == {3} by {
      assert 3 in StmtReads(join[1]);
    }
  }
}
