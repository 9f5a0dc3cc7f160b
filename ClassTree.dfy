/** The class inheritance graph: a directed graph whose edges point from a
    class to its superclass (one extends edge) and to each interface it
    implements (one implements edge each), towards `java/lang/Object` at the
    root. Classes are looked up by name in a class source, modelled as a
    given map from names to classes. */
module ClassTrees {
  import opened Wrappers

  const ObjectName: string := "java/lang/Object"

  /** A class as the tree sees it: its name, its superclass name (Java's null
      as None) and its interface names in declaration order. */
  datatype ClassNode = ClassNode(name: string, superName: Option<string>, interfaces: seq<string>)

  datatype InheritanceEdge =
    | Extends(src: ClassNode, dst: ClassNode)
    | Implements(src: ClassNode, dst: ClassNode)

  /** `findClass`: the class the source knows under `name`, or a
      class-not-found error naming it. */
  function FindClass(source: map<string, ClassNode>, name: string): (r: Result<ClassNode, Exception>)
    ensures r.Ok? <==> name in source
    ensures r.Ok? ==> r.value == source[name]
    ensures r.Err? ==> r.error == ClassNotFound(name)
  {
    if name in source then Ok(source[name]) else Err(ClassNotFound(name))
  }

  /** The position of the first name the source does not know, or the
      length of `names` when it knows them all. */
  function FirstMissing(source: map<string, ClassNode>, names: seq<string>): (k: nat)
    ensures k <= |names|
    ensures forall i :: 0 <= i < k ==> names[i] in source
    ensures k < |names| ==> names[k] !in source
    decreases |names|
  {
    if names == [] then 0
    else if names[0] !in source then 0
    else 1 + FirstMissing(source, names[1..])
  }

  /** The implements edges of `cn` to the classes named by `names`. */
  function ImplementsEdges(source: map<string, ClassNode>, cn: ClassNode, names: seq<string>): set<InheritanceEdge>
    requires forall i :: 0 <= i < |names| ==> names[i] in source
  {
    set i | 0 <= i < |names| :: Implements(cn, source[names[i]])
  }

  /** The implements edges of `cn` lead from `cn` to exactly the classes
      named. */
  lemma ImplementsEdgesMembers(source: map<string, ClassNode>, cn: ClassNode, names: seq<string>, e: InheritanceEdge)
    requires forall i :: 0 <= i < |names| ==> names[i] in source
    ensures e in ImplementsEdges(source, cn, names) <==>
              e.Implements? && e.src == cn && exists i :: 0 <= i < |names| && e.dst == source[names[i]]
  {
    if e.Implements? && e.src == cn && exists i :: 0 <= i < |names| && e.dst == source[names[i]] {
      var i :| 0 <= i < |names| && e.dst == source[names[i]];
      assert e == Implements(cn, source[names[i]]);
    }
  }

  lemma ImplementsSnoc(source: map<string, ClassNode>, cn: ClassNode, names: seq<string>, n: string)
    requires forall i :: 0 <= i < |names| ==> names[i] in source
    requires n in source
    ensures forall i :: 0 <= i < |names + [n]| ==> (names + [n])[i] in source
    ensures ImplementsEdges(source, cn, names + [n]) == ImplementsEdges(source, cn, names) + {Implements(cn, source[n])}
  {
    var ns := names + [n];
    assert forall i :: 0 <= i < |names| ==> ns[i] == names[i];
    assert ns[|names|] == n;
  }

  /** The interface loop of `addVertex`: looks each interface name up in
      turn and links `cn` to it, failing at the first unknown name with the
      edges made so far kept. */
  method LinkInterfaces(source: map<string, ClassNode>, cn: ClassNode, names: seq<string>)
    returns (r: Outcome<Exception>, added: set<InheritanceEdge>)
    ensures var k := FirstMissing(source, names);
            && added == ImplementsEdges(source, cn, names[..k])
            && (r.Fail? <==> k < |names|)
            && (r.Fail? ==> r.error == ClassNotFound(names[k]))
  {
    added := {};
    var i := 0;
    while i < |names|
      invariant 0 <= i <= |names|
      invariant forall j :: 0 <= j < i ==> names[j] in source
      invariant added == ImplementsEdges(source, cn, names[..i])
    {
      var c := FindClass(source, names[i]);
      if c.Err? {
        FirstMissingAt(source, names, i);
        return Fail(c.error), added;
      }
      assert names[..i + 1] == names[..i] + [names[i]];
      ImplementsSnoc(source, cn, names[..i], names[i]);
      added := added + {Implements(cn, c.value)};
      i := i + 1;
    }
    FirstMissingAt(source, names, i);
    assert names[..i] == names;
    r := Pass;
  }

  /** The first unknown name is the one at the first position whose name
      the source does not know. */
  lemma {:induction false} FirstMissingAt(source: map<string, ClassNode>, names: seq<string>, k: nat)
    requires k <= |names| && forall j :: 0 <= j < k ==> names[j] in source
    requires k < |names| ==> names[k] !in source
    ensures FirstMissing(source, names) == k
    decreases k
  {
    if k > 0 {
      FirstMissingAt(source, names[1..], k - 1);
    }
  }

  /** createSet's order: every extends edge comes before every implements
      edge. */
  predicate ExtendsFirst(s: seq<InheritanceEdge>) {
    forall i, j :: 0 <= i < j < |s| && s[j].Extends? ==> s[i].Extends?
  }

  predicate Distinct(s: seq<InheritanceEdge>) {
    forall i, j :: 0 <= i < j < |s| ==> s[i] != s[j]
  }

  /** Lists a set of edges the way the tree's edge sets iterate: the extends
      edges, then the implements edges. The order among edges of one kind
      comes from the edge comparison, which is not part of this model. */
  method Ordered(es: set<InheritanceEdge>) returns (s: seq<InheritanceEdge>)
    ensures forall e :: e in s <==> e in es
    ensures Distinct(s) && ExtendsFirst(s)
  {
    s := [];
    var todo := set e | e in es && e.Extends?;
    while todo != {}
      invariant todo <= es
      invariant forall e :: e in s <==> e in es && e.Extends? && e !in todo
      invariant forall e :: e in todo ==> e.Extends?
      invariant Distinct(s) && forall i :: 0 <= i < |s| ==> s[i].Extends?
      decreases |todo|
    {
      var e :| e in todo;
      s := s + [e];
      todo := todo - {e};
    }
    todo := set e | e in es && e.Implements?;
    while todo != {}
      invariant todo <= es
      invariant forall e :: e in s <==> e in es && (e.Extends? || e !in todo)
      invariant forall e :: e in todo ==> e.Implements?
      invariant Distinct(s) && ExtendsFirst(s)
      decreases |todo|
    {
      var e :| e in todo;
      s := s + [e];
      todo := todo - {e};
    }
  }

  /** No class has two extends edges. */
  ghost predicate OneExtendsEach(edges: set<InheritanceEdge>) {
    forall e, f :: e in edges && f in edges && e.Extends? && f.Extends? && e.src == f.src ==> e == f
  }

  class ClassTree {
    /** The class source: every class the tree can look up by name. */
    const source: map<string, ClassNode>
    const root: ClassNode
    var vertices: set<ClassNode>
    var edges: set<InheritanceEdge>

    /** The root is a vertex without outgoing edges, every edge leaves a
        vertex, no class has two extends edges, and every extends edge leads
        to the superclass of its class. */
    ghost predicate Valid()
      reads this
    {
      && root in vertices
      && (forall e :: e in edges ==> e.src in vertices && e.src != root)
      && OneExtendsEach(edges)
      && (forall e :: e in edges && e.Extends? ==> SuperTarget(e.src) == Ok(e.dst))
    }

    /** The constructor, once `java/lang/Object` has been found: the tree
        holds the root alone. */
    constructor (source: map<string, ClassNode>)
      requires ObjectName in source
      ensures this.source == source && root == source[ObjectName]
      ensures vertices == {root} && edges == {}
      ensures Valid()
    {
      this.source := source;
      root := source[ObjectName];
      vertices, edges := {source[ObjectName]}, {};
    }

    /** The target of the extends edge of a class: its superclass, or the
        root when it names none. */
    function SuperTarget(cn: ClassNode): (r: Result<ClassNode, Exception>)
      ensures cn.superName.None? ==> r == Ok(root)
      ensures cn.superName.Some? ==> r == FindClass(source, cn.superName.value)
    {
      if cn.superName.Some? then FindClass(source, cn.superName.value) else Ok(root)
    }

    /** The superclass the edges record for `p`: the target of its extends
        edge when it has one (in a valid tree only the superclass can be). */
    function RecordedSuper(edges: set<InheritanceEdge>, p: ClassNode): (r: Option<ClassNode>)
      ensures r.Some? ==> Extends(p, r.value) in edges && SuperTarget(p) == Ok(r.value)
    {
      if SuperTarget(p).Ok? && Extends(p, SuperTarget(p).value) in edges then Some(SuperTarget(p).value) else None
    }

    /** The first `k` steps of the inheritance chain from `p` stay among
        classes of the tree that have an extends edge, up to the root. */
    ghost predicate ChainKnown(vertices: set<ClassNode>, edges: set<InheritanceEdge>, p: ClassNode, k: nat)
      decreases k
    {
      || k == 0
      || p == root
      || (p in vertices && RecordedSuper(edges, p).Some? && ChainKnown(vertices, edges, RecordedSuper(edges, p).value, k - 1))
    }

    /** The inheritance chain from `p`, as far as `k` classes: `p`, its
        superclass and so on, stopping before the root. */
    ghost function SuperChain(vertices: set<ClassNode>, edges: set<InheritanceEdge>, p: ClassNode, k: nat): seq<ClassNode>
      requires ChainKnown(vertices, edges, p, k)
      decreases k
    {
      if k == 0 || p == root then [] else [p] + SuperChain(vertices, edges, RecordedSuper(edges, p).value, k - 1)
    }

    /** One step along a known chain: `p` is a class of the tree with a
        recorded superclass, from which the chain is known one step less. */
    lemma ChainStep(vertices: set<ClassNode>, edges: set<InheritanceEdge>, p: ClassNode, k: nat)
      requires ChainKnown(vertices, edges, p, k) && k > 0 && p != root
      ensures p in vertices && RecordedSuper(edges, p).Some?
      ensures ChainKnown(vertices, edges, RecordedSuper(edges, p).value, k - 1)
    {
    }

    /** Each class of `c` is followed by the target of an extends edge. */
    ghost predicate Linked(edges: set<InheritanceEdge>, c: seq<ClassNode>) {
      forall i :: 0 <= i < |c| - 1 ==> Extends(c[i], c[i + 1]) in edges
    }

    /** What `iterateInheritanceChain` yields from `p` in at most `k` steps:
        `p` first, each class followed by the target of its extends edge,
        never the root, and stopping short of `k` only at the root. */
    ghost predicate ChainShape(edges: set<InheritanceEdge>, p: ClassNode, k: nat, c: seq<ClassNode>) {
      && |c| <= k && root !in c
      && (c != [] ==> c[0] == p)
      && Linked(edges, c)
      && (|c| < k && c == [] ==> p == root)
      && (|c| < k && c != [] ==> Extends(c[|c| - 1], root) in edges)
    }

    /** With one extends edge per class, a known chain is the only sequence
        of that shape. */
    lemma {:induction false} ChainUnique(vertices: set<ClassNode>, edges: set<InheritanceEdge>, p: ClassNode, k: nat, c: seq<ClassNode>)
      requires OneExtendsEach(edges) && ChainKnown(vertices, edges, p, k) && ChainShape(edges, p, k, c)
      ensures c == SuperChain(vertices, edges, p, k)
      decreases k
    {
      if k > 0 && p != root {
        var d := RecordedSuper(edges, p).value;
        assert c != [];
        var t := c[1..];
        if t != [] {
          assert Extends(p, c[1]) in edges && Extends(p, d) in edges;
          assert t[0] == d;
          forall i | 0 <= i < |t| - 1 ensures Extends(t[i], t[i + 1]) in edges {
            assert t[i] == c[i + 1] && t[i + 1] == c[i + 2];
          }
          assert root !in t by {
            assert forall x :: x in t ==> x in c;
          }
          assert |t| < k - 1 ==> Extends(t[|t| - 1], root) in edges by {
            assert t[|t| - 1] == c[|c| - 1];
          }
        } else if |c| < k {
          assert Extends(p, root) in edges && Extends(p, d) in edges;
        }
        assert ChainShape(edges, d, k - 1, t);
        ChainUnique(vertices, edges, d, k - 1, t);
        assert c == [p] + t;
      }
    }

    /** The chain starts at `p`, links each class to the next by an extends
        edge, never holds the root, holds classes of the tree, and stops
        short of `k` only at the root. */
    lemma {:induction false} SuperChainLinks(vertices: set<ClassNode>, edges: set<InheritanceEdge>, p: ClassNode, k: nat)
      requires ChainKnown(vertices, edges, p, k)
      ensures var c := SuperChain(vertices, edges, p, k);
              && |c| <= k && root !in c
              && (forall x :: x in c ==> x in vertices)
              && (c != [] ==> c[0] == p)
              && (forall i :: 0 <= i < |c| - 1 ==> Extends(c[i], c[i + 1]) in edges)
              && (|c| < k ==> if c == [] then p == root else Extends(c[|c| - 1], root) in edges)
      decreases k
    {
      if k > 0 && p != root {
        var d := RecordedSuper(edges, p).value;
        SuperChainLinks(vertices, edges, d, k - 1);
        var t := SuperChain(vertices, edges, d, k - 1);
        var c := [p] + t;
        assert c == SuperChain(vertices, edges, p, k);
        forall i | 0 <= i < |c| - 1 ensures Extends(c[i], c[i + 1]) in edges {
          if i > 0 {
            assert c[i] == t[i - 1] && c[i + 1] == t[i];
          }
        }
        if |c| < k && t == [] {
          assert d == root;
        }
      }
    }

    /** The edges `addVertex` gives a class new to the tree: the extends edge
        and the implements edges of the interfaces before the first unknown
        name; none when the superclass is unknown. */
    function NewEdges(cn: ClassNode): (es: set<InheritanceEdge>)
      ensures forall e :: e in es ==> e.src == cn
      ensures SuperTarget(cn).Ok? ==> Extends(cn, SuperTarget(cn).value) in es
      ensures SuperTarget(cn).Err? ==> es == {}
      ensures forall e :: e in es && e.Extends? ==> e == Extends(cn, SuperTarget(cn).value)
    {
      if SuperTarget(cn).Err? then {}
      else
        var k := FirstMissing(source, cn.interfaces);
        {Extends(cn, SuperTarget(cn).value)} + ImplementsEdges(source, cn, cn.interfaces[..k])
    }

    /** Why `addVertex` of a class new to the tree throws: the unknown
        superclass, else the first unknown interface; None when it does not. */
    function AddFailure(cn: ClassNode): (r: Option<Exception>)
      ensures r.Some? ==> r.value.ClassNotFound?
      ensures r.None? <==> SuperTarget(cn).Ok? && forall i :: 0 <= i < |cn.interfaces| ==> cn.interfaces[i] in source
    {
      if SuperTarget(cn).Err? then Some(SuperTarget(cn).error)
      else if FirstMissing(source, cn.interfaces) < |cn.interfaces| then
        Some(ClassNotFound(cn.interfaces[FirstMissing(source, cn.interfaces)]))
      else None
    }

    /** `addVertex`: a class already in the tree gives false and changes
        nothing. A new class becomes a vertex; unless it is the root, it gets
        an extends edge to its superclass (the root when it names none) and
        one implements edge per interface. A name the source does not know
        fails the call, with the vertex and the edges made before it kept. */
    method AddVertex(cn: ClassNode) returns (r: Result<bool, Exception>)
      requires Valid()
      modifies this
      ensures Valid()
      ensures vertices == old(vertices) + {cn} && old(edges) <= edges
      ensures cn in old(vertices) ==> r == Ok(false) && edges == old(edges)
      ensures cn !in old(vertices) ==> edges == old(edges) + NewEdges(cn)
      ensures cn !in old(vertices) ==> (r.Err? <==> AddFailure(cn).Some?)
                                       && (r.Err? ==> r.error == AddFailure(cn).value)
                                       && (r.Ok? ==> r.value)
    {
      if cn in vertices {
        return Ok(false);
      }
      vertices := vertices + {cn};
      var sup := SuperTarget(cn);
      if sup.Err? {
        return Err(sup.error);
      }
      edges := edges + {Extends(cn, sup.value)};
      var linked, added := LinkInterfaces(source, cn, cn.interfaces);
      edges := edges + added;
      if linked.Fail? {
        return Err(linked.error);
      }
      r := Ok(true);
    }

    /** `addEdge` is closed to callers: it always throws. */
    method AddEdge(v: ClassNode, e: InheritanceEdge) returns (r: Outcome<Exception>)
      ensures r == Fail(UnsupportedOperation)
    {
      r := Fail(UnsupportedOperation);
    }

    /** `removeEdge` is closed to callers: it always throws. */
    method RemoveEdge(v: ClassNode, e: InheritanceEdge) returns (r: Outcome<Exception>)
      ensures r == Fail(UnsupportedOperation)
    {
      r := Fail(UnsupportedOperation);
    }

    /** The implicit insertion of `getEdges` and `getReverseEdges`: a class
        not yet in the tree is added first, with the edges and the failure of
        `addVertex`. */
    method Touch(cn: ClassNode) returns (r: Outcome<Exception>)
      requires Valid()
      modifies this
      ensures Valid()
      ensures vertices == old(vertices) + {cn} && old(edges) <= edges
      ensures cn in old(vertices) ==> r == Pass && edges == old(edges)
      ensures cn !in old(vertices) ==> edges == old(edges) + NewEdges(cn)
      ensures cn !in old(vertices) ==> (r.Fail? <==> AddFailure(cn).Some?)
                                       && (r.Fail? ==> r.error == AddFailure(cn).value)
    {
      r := Pass;
      if cn !in vertices {
        var added := AddVertex(cn);
        if added.Err? {
          r := Fail(added.error);
        }
      }
    }

    /** `getEdges`: the edges out of `cn` in edge-set order, after adding
        `cn` when it is not in the tree. */
    method GetEdges(cn: ClassNode) returns (r: Result<seq<InheritanceEdge>, Exception>)
      requires Valid()
      modifies this
      ensures Valid()
      ensures vertices == old(vertices) + {cn} && old(edges) <= edges
      ensures cn in old(vertices) ==> r.Ok? && edges == old(edges)
      ensures cn !in old(vertices) ==> edges == old(edges) + NewEdges(cn)
      ensures cn !in old(vertices) ==> (r.Err? <==> AddFailure(cn).Some?)
                                       && (r.Err? ==> r.error == AddFailure(cn).value)
      ensures r.Ok? ==> ExtendsFirst(r.value) && Distinct(r.value)
      ensures r.Ok? ==> forall e :: e in r.value <==> e in edges && e.src == cn
    {
      var t := Touch(cn);
      if t.Fail? {
        return Err(t.error);
      }
      var out := Ordered(set e | e in edges && e.src == cn);
      r := Ok(out);
    }

    /** `getReverseEdges`: the edges into `cn` in edge-set order, after
        adding `cn` when it is not in the tree. */
    method GetReverseEdges(cn: ClassNode) returns (r: Result<seq<InheritanceEdge>, Exception>)
      requires Valid()
      modifies this
      ensures Valid()
      ensures vertices == old(vertices) + {cn} && old(edges) <= edges
      ensures cn in old(vertices) ==> r.Ok? && edges == old(edges)
      ensures cn !in old(vertices) ==> edges == old(edges) + NewEdges(cn)
      ensures cn !in old(vertices) ==> (r.Err? <==> AddFailure(cn).Some?)
                                       && (r.Err? ==> r.error == AddFailure(cn).value)
      ensures r.Ok? ==> ExtendsFirst(r.value) && Distinct(r.value)
      ensures r.Ok? ==> forall e :: e in r.value <==> e in edges && e.dst == cn
    {
      var t := Touch(cn);
      if t.Fail? {
        return Err(t.error);
      }
      var into := Ordered(set e | e in edges && e.dst == cn);
      r := Ok(into);
    }

    /** `getSuper`: None for the root. For a class of the tree, the target of
        its extends edge, and the "Couldn't find parent class?" error when it
        has none. A class new to the tree is added first: the call fails as
        that addition does, and otherwise gives the class's superclass. */
    method GetSuper(cn: ClassNode) returns (r: Result<Option<ClassNode>, Exception>)
      requires Valid()
      modifies this
      ensures Valid()
      ensures vertices == old(vertices) + {cn} && old(edges) <= edges
      ensures cn in old(vertices) ==> edges == old(edges)
      ensures cn !in old(vertices) ==> edges == old(edges) + NewEdges(cn)
      ensures cn == root ==> r == Ok(None)
      ensures cn != root && r.Ok? ==> r.value.Some? && Extends(cn, r.value.value) in edges
      ensures cn != root && cn in old(vertices) ==>
                r == if RecordedSuper(edges, cn).Some? then Ok(RecordedSuper(edges, cn)) else Err(IllegalState(NoParent))
      ensures cn !in old(vertices) ==>
                r == if AddFailure(cn).Some? then Err(AddFailure(cn).value) else Ok(Some(SuperTarget(cn).value))
      ensures r.Err? ==> r.error == IllegalState(NoParent) || r.error.ClassNotFound?
    {
      if cn == root {
        return Ok(None);
      }
      var es := GetEdges(cn);
      if es.Err? {
        return Err(es.error);
      }
      var i := 0;
      while i < |es.value|
        invariant 0 <= i <= |es.value|
        invariant forall j :: 0 <= j < i ==> !es.value[j].Extends?
      {
        if es.value[i].Extends? {
          var d := es.value[i].dst;
          assert es.value[i] == Extends(cn, d);
          return Ok(Some(d));
        }
        i := i + 1;
      }
      r := Err(IllegalState(NoParent));
    }

    /** Why the `getSuper` step on `p` fails with `e`, `vertices` being the
        classes of the tree before the step: a class of the tree has no
        recorded superclass ("Couldn't find parent class?"), and adding a
        new class fails with `e`. */
    ghost predicate StepFails(vertices: set<ClassNode>, edges: set<InheritanceEdge>, p: ClassNode, e: Exception) {
      if p in vertices then RecordedSuper(edges, p).None? && e == IllegalState(NoParent)
      else AddFailure(p) == Some(e)
    }

    /** The step of the inheritance-chain iterator past a class other than
        the root: `getSuper` of it, which is never None there. */
    method ChainNext(p: ClassNode, ghost k: nat) returns (r: Result<ClassNode, Exception>)
      requires Valid() && p != root
      modifies this
      ensures Valid() && old(edges) <= edges && vertices == old(vertices) + {p}
      ensures r.Ok? ==> Extends(p, r.value) in edges
      ensures r.Err? ==> r.error == IllegalState(NoParent) || r.error.ClassNotFound?
      ensures p in old(vertices) ==>
                edges == old(edges)
                && r == if RecordedSuper(edges, p).Some? then Ok(RecordedSuper(edges, p).value) else Err(IllegalState(NoParent))
      ensures p !in old(vertices) ==>
                edges == old(edges) + NewEdges(p)
                && r == if AddFailure(p).Some? then Err(AddFailure(p).value) else Ok(SuperTarget(p).value)
      ensures r.Err? ==> StepFails(old(vertices), edges, p, r.error)
      ensures k > 0 && ChainKnown(old(vertices), old(edges), p, k) ==>
                r.Ok? && vertices == old(vertices) && edges == old(edges) && ChainKnown(vertices, edges, r.value, k - 1)
    {
      if k > 0 && ChainKnown(vertices, edges, p, k) {
        ChainStep(vertices, edges, p, k);
      }
      var sup := GetSuper(p);
      if sup.Err? {
        return Err(sup.error);
      }
      r := Ok(sup.value.value);
    }

    /** The state of the chain loop: the classes asked so far are `chain`,
        each added to the tree, linked by extends edges and followed by `p`;
        on a known chain the tree is unchanged and the rest is known. */
    ghost predicate ChainLoop(v0: set<ClassNode>, e0: set<InheritanceEdge>, known: bool, cn: ClassNode, n: nat,
                              chain: seq<ClassNode>, p: ClassNode)
      reads this
    {
      && Valid() && ChainAdded(v0, e0, chain)
      && |chain| <= n && root !in chain
      && (chain == [] ==> p == cn)
      && (chain != [] ==> chain[0] == cn && Extends(chain[|chain| - 1], p) in edges)
      && Linked(edges, chain)
      && (known ==> vertices == v0 && edges == e0 && ChainKnown(v0, e0, p, n - |chain|))
    }

    /** Where the chain loop stops, the chain has the iterator's shape, and
        on a known chain it is `SuperChain`. */
    lemma ChainEnd(v0: set<ClassNode>, e0: set<InheritanceEdge>, known: bool, cn: ClassNode, n: nat,
                   chain: seq<ClassNode>, p: ClassNode)
      requires ChainLoop(v0, e0, known, cn, n, chain, p) && !(|chain| < n && p != root)
      requires known == ChainKnown(v0, e0, cn, n)
      ensures ChainShape(edges, cn, n, chain)
      ensures known ==> chain == SuperChain(v0, e0, cn, n) && vertices == v0 && edges == e0
    {
      if known {
        ChainUnique(v0, e0, cn, n, chain);
      }
    }

    /** How a chain walk from `cn` over at most `n` classes ends in the
        error `e`: the classes asked, `visited`, start at `cn`, avoid the
        root and are linked by extends edges, and the `getSuper` step on the
        last of them fails in the tree as it was just before that step. */
    ghost predicate ChainFailed(v0: set<ClassNode>, cn: ClassNode, n: nat, visited: seq<ClassNode>, e: Exception)
      reads this
    {
      && visited != [] && visited[0] == cn && |visited| <= n && root !in visited && Linked(edges, visited)
      && StepFails(v0 + Elements(visited[..|visited| - 1]), edges, visited[|visited| - 1], e)
    }

    /** One turn of the chain loop: `ChainNext` on `p`, after which the
        loop state holds with `p` appended, or the step failed as
        `StepFails` says. */
    method ChainTurn(p: ClassNode, ghost v0: set<ClassNode>, ghost e0: set<InheritanceEdge>, ghost known: bool,
                     ghost cn: ClassNode, ghost n: nat, ghost chain: seq<ClassNode>) returns (r: Result<ClassNode, Exception>)
      requires ChainLoop(v0, e0, known, cn, n, chain, p) && |chain| < n && p != root
      modifies this
      ensures Valid() && ChainAdded(v0, e0, chain + [p])
      ensures Linked(edges, chain + [p])
      ensures known ==> r.Ok?
      ensures r.Ok? ==> ChainLoop(v0, e0, known, cn, n, chain + [p], r.value)
      ensures r.Err? ==> r.error == IllegalState(NoParent) || r.error.ClassNotFound?
      ensures r.Err? ==> ChainFailed(v0, cn, n, chain + [p], r.error)
    {
      r := ChainNext(p, n - |chain|);
      assert (chain + [p])[..|chain|] == chain;
      assert forall i :: 0 <= i < |chain| - 1 ==> (chain + [p])[i] == chain[i];
      if p in Elements(chain) && p !in v0 {
        AddedEdgesHas(v0, chain, p);
      }
    }

    /** What the implicit additions of a chain walk that asked `visited`
        leave, from a tree with classes `v0` and edges `e0`: every class
        asked is added, with the edges `addVertex` gives it when new. */
    ghost predicate ChainAdded(v0: set<ClassNode>, e0: set<InheritanceEdge>, visited: seq<ClassNode>)
      reads this
    {
      vertices == v0 + Elements(visited) && edges == e0 + AddedEdges(v0, visited)
    }

    /** The edges the implicit additions of a chain walk give: those of
        `addVertex` for each class of `c` not among `v0`. */
    ghost function AddedEdges(v0: set<ClassNode>, c: seq<ClassNode>): set<InheritanceEdge>
      decreases |c|
    {
      if c == [] then {}
      else AddedEdges(v0, c[..|c| - 1]) + (if c[|c| - 1] in v0 then {} else NewEdges(c[|c| - 1]))
    }

    /** A class of `c` that was not among `v0` has had its edges added. */
    lemma {:induction false} AddedEdgesHas(v0: set<ClassNode>, c: seq<ClassNode>, p: ClassNode)
      requires p in Elements(c) && p !in v0
      ensures NewEdges(p) <= AddedEdges(v0, c)
      decreases |c|
    {
      if c[|c| - 1] != p {
        AddedEdgesHas(v0, c[..|c| - 1], p);
      }
    }

    /** `iterateInheritanceChain(cn)` consumed for up to `n` elements: `cn`,
        its superclass, that class's superclass and so on, stopping before
        the root. Each step asks `getSuper`, which adds a class new to the
        tree; `visited` are the classes asked. When every class of the chain
        is in the tree with an extends edge, the call changes nothing and
        gives `SuperChain`. It fails only where the `getSuper` step on the
        last class asked fails, with that step's error. */
    method InheritanceChain(cn: ClassNode, n: nat) returns (r: Result<seq<ClassNode>, Exception>, ghost visited: seq<ClassNode>)
      requires Valid()
      modifies this
      ensures Valid() && ChainAdded(old(vertices), old(edges), visited)
      ensures r.Ok? ==> visited == r.value
      ensures r.Ok? ==> ChainShape(edges, cn, n, r.value)
      ensures r.Err? ==> r.error == IllegalState(NoParent) || r.error.ClassNotFound?
      ensures r.Err? ==> ChainFailed(old(vertices), cn, n, visited, r.error)
      ensures ChainKnown(old(vertices), old(edges), cn, n) ==>
                r == Ok(SuperChain(old(vertices), old(edges), cn, n))
                && vertices == old(vertices) && edges == old(edges)
    {
      ghost var v0, e0 := vertices, edges;
      ghost var known := ChainKnown(v0, e0, cn, n);
      var chain := [];
      var p := cn;
      while |chain| < n && p != root
        invariant ChainLoop(v0, e0, known, cn, n, chain, p)
        decreases n - |chain|
      {
        var sup := ChainTurn(p, v0, e0, known, cn, n, chain);
        if sup.Err? {
          return Err(sup.error), chain + [p];
        }
        chain := chain + [p];
        p := sup.value;
      }
      ChainEnd(v0, e0, known, cn, n, chain, p);
      r := Ok(chain);
      visited := chain;
    }

    /** `getAllParents`: empty for a class not in the tree, otherwise the
        traversal `walk` from `cn` along the edges (the depth-first
        topological order, computed outside this model). */
    method GetAllParents(cn: ClassNode, walk: seq<ClassNode>) returns (r: seq<ClassNode>)
      ensures cn !in vertices ==> r == []
      ensures cn in vertices ==> r == walk
    {
      if cn !in vertices {
        return [];
      }
      r := walk;
    }

    /** `getAllChildren`: empty for a class not in the tree, otherwise the
        traversal `walk` from `cn` against the edges (the depth-first
        postorder, computed outside this model). */
    method GetAllChildren(cn: ClassNode, walk: seq<ClassNode>) returns (r: seq<ClassNode>)
      ensures cn !in vertices ==> r == []
      ensures cn in vertices ==> r == walk
    {
      if cn !in vertices {
        return [];
      }
      r := walk;
    }

    /** `getAllBranches`: every class connected to `cn`, by a queue walk
        that expands each newly found class other than the root with its
        parents and its children. `parents` and `children` stand for the
        traversals `getAllParents` and `getAllChildren` take from the depth-
        first search; `universe` is a finite set of classes they stay in. The
        result is exactly the set of classes `Reached` from `cn`. */
    method GetAllBranches(cn: ClassNode, parents: ClassNode -> seq<ClassNode>, children: ClassNode -> seq<ClassNode>,
                          ghost universe: set<ClassNode>)
      returns (results: set<ClassNode>)
      requires cn in universe
      requires forall x, y :: x in universe && y in parents(x) ==> y in universe
      requires forall x, y :: x in universe && y in children(x) ==> y in universe
      ensures cn in results && results <= universe
      ensures forall x, y :: x in results && x != root && y in Expansion(vertices, x, parents, children) ==> y in results
      ensures forall y :: y in results && y != cn ==>
                exists x :: x in results && x != root && y in Expansion(vertices, x, parents, children)
      ensures forall y :: y in results <==> Reached(Walk(vertices, root, cn, parents, children), y)
    {
      results := Branches(Walk(vertices, root, cn, parents, children), universe);
    }
  }

  /** The queue walk of `getAllBranches` over the tree's classes and root
      in `w`: each class taken from the queue that is not yet found is
      found and, unless it is the root, its `Expansion` is queued. The
      result is exactly the set of classes reached from the start. */
  method Branches(w: Walk, ghost universe: set<ClassNode>) returns (results: set<ClassNode>)
    requires w.start in universe
    requires forall x, y :: x in universe && y in w.parents(x) ==> y in universe
    requires forall x, y :: x in universe && y in w.children(x) ==> y in universe
    ensures w.start in results && results <= universe
    ensures forall x, y :: x in results && x != w.root && y in Expansion(w.vertices, x, w.parents, w.children) ==>
              y in results
    ensures forall y :: y in results && y != w.start ==>
              exists x :: x in results && x != w.root && y in Expansion(w.vertices, x, w.parents, w.children)
    ensures forall y :: y in results <==> Reached(w, y)
  {
    results := {};
    var queue := [w.start];
    ghost var trails: map<ClassNode, seq<ClassNode>> := map[w.start := [w.start]];
    while queue != []
      invariant BranchWalk(w, universe, results, queue, trails)
      decreases |universe - results|, |queue|
    {
      var next := queue[0];
      if next in results {
        BranchSkip(w, universe, results, queue, trails);
        queue := queue[1..];
      } else if next == w.root {
        SubsetGrows(universe, results, next);
        BranchRoot(w, universe, results, queue, trails);
        results, queue := results + {next}, queue[1..];
      } else {
        SubsetGrows(universe, results, next);
        var e := Expansion(w.vertices, next, w.parents, w.children);
        BranchExpand(w, universe, results, queue, trails);
        trails := trails + map y | y in e && y !in trails :: trails[next] + [y];
        results, queue := results + {next}, queue[1..] + e;
      }
    }
    BranchDone(w, universe, results, trails);
    BranchExact(w, universe, results, trails);
  }

  /** The classes `getAllBranches` queues when it expands `x`: its parents
      and its children, or nothing when it is not in the tree. */
  function Expansion(vertices: set<ClassNode>, x: ClassNode,
                     parents: ClassNode -> seq<ClassNode>, children: ClassNode -> seq<ClassNode>): seq<ClassNode>
  {
    if x in vertices then parents(x) + children(x) else []
  }

  /** What `getAllBranches` works with: the tree's classes and root, the
      start class and the two traversals. */
  datatype Walk = Walk(vertices: set<ClassNode>, root: ClassNode, start: ClassNode,
                       parents: ClassNode -> seq<ClassNode>, children: ClassNode -> seq<ClassNode>)

  /** A path of the walk: it starts at the start class, and each class after
      the first is in the expansion of the one before, which is not the
      root. */
  ghost predicate BranchPath(w: Walk, p: seq<ClassNode>) {
    && p != []
    && p[0] == w.start
    && forall i :: 0 <= i < |p| - 1 ==> p[i] != w.root && p[i + 1] in Expansion(w.vertices, p[i], w.parents, w.children)
  }

  /** `y` is connected to the start class: some path of the walk ends at it. */
  ghost predicate Reached(w: Walk, y: ClassNode) {
    exists p :: BranchPath(w, p) && p[|p| - 1] == y
  }

  /** The loop state of `getAllBranches`: the start class is found or at the
      head of the queue; every expanded class has its expansion found or
      queued; every class found or queued has a recorded path ending at it,
      all of whose earlier classes are found. */
  ghost predicate BranchWalk(w: Walk, universe: set<ClassNode>, results: set<ClassNode>, queue: seq<ClassNode>,
                             trails: map<ClassNode, seq<ClassNode>>)
  {
    && results <= universe
    && (forall q :: q in queue ==> q in universe)
    && (w.start in results || (queue != [] && queue[0] == w.start))
    && (forall x, y :: x in results && x != w.root && y in Expansion(w.vertices, x, w.parents, w.children) ==>
          y in results || y in queue)
    && (forall y :: y in results ==> y in trails)
    && (forall y :: y in queue ==> y in trails)
    && (forall y :: y in trails ==> BranchPath(w, trails[y]) && trails[y][|trails[y]| - 1] == y)
    && (forall y, i :: y in trails && 0 <= i < |trails[y]| - 1 ==> trails[y][i] in results)
  }

  lemma BranchSkip(w: Walk, universe: set<ClassNode>, results: set<ClassNode>, queue: seq<ClassNode>,
                   trails: map<ClassNode, seq<ClassNode>>)
    requires BranchWalk(w, universe, results, queue, trails) && queue != [] && queue[0] in results
    ensures BranchWalk(w, universe, results, queue[1..], trails)
  {
    forall q | q in queue[1..] ensures q in queue {
    }
  }

  lemma BranchRoot(w: Walk, universe: set<ClassNode>, results: set<ClassNode>, queue: seq<ClassNode>,
                   trails: map<ClassNode, seq<ClassNode>>)
    requires BranchWalk(w, universe, results, queue, trails) && queue != [] && queue[0] == w.root
    ensures BranchWalk(w, universe, results + {w.root}, queue[1..], trails)
  {
    assert queue == [queue[0]] + queue[1..];
  }

  /** Extending the path to `x` by a class of its expansion gives a path. */
  lemma PathExtend(w: Walk, p: seq<ClassNode>, y: ClassNode)
    requires BranchPath(w, p) && p[|p| - 1] != w.root
    requires y in Expansion(w.vertices, p[|p| - 1], w.parents, w.children)
    ensures BranchPath(w, p + [y])
  {
    var q := p + [y];
    forall i | 0 <= i < |q| - 1
      ensures q[i] != w.root && q[i + 1] in Expansion(w.vertices, q[i], w.parents, w.children)
    {
      if i < |p| - 1 {
        assert q[i] == p[i] && q[i + 1] == p[i + 1];
      }
    }
  }

  lemma BranchExpand(w: Walk, universe: set<ClassNode>, results: set<ClassNode>, queue: seq<ClassNode>,
                     trails: map<ClassNode, seq<ClassNode>>)
    requires forall x, y :: x in universe && y in w.parents(x) ==> y in universe
    requires forall x, y :: x in universe && y in w.children(x) ==> y in universe
    requires BranchWalk(w, universe, results, queue, trails) && queue != [] && queue[0] != w.root
    ensures var x := queue[0];
            var e := Expansion(w.vertices, x, w.parents, w.children);
            BranchWalk(w, universe, results + {x}, queue[1..] + e,
                       trails + map y | y in e && y !in trails :: trails[x] + [y])
  {
    var x := queue[0];
    var e := Expansion(w.vertices, x, w.parents, w.children);
    var trails' := trails + map y | y in e && y !in trails :: trails[x] + [y];
    var queue' := queue[1..] + e;
    var results' := results + {x};
    assert queue == [x] + queue[1..];
    forall q | q in queue' ensures q in universe {
      if q in e {
        assert q in w.parents(x) || q in w.children(x);
      }
    }
    forall a, y | a in results' && a != w.root && y in Expansion(w.vertices, a, w.parents, w.children)
      ensures y in results' || y in queue'
    {
      if a != x {
        assert y in results || y in queue;
      }
    }
    ExpandTrails(w, results, x, e, trails);
    forall y | y in queue' ensures y in trails' {
      if y !in e {
        assert y in queue;
      }
    }
  }

  /** Recording the path to `x` extended by each newly queued class keeps
      every trail a path of the walk whose earlier classes are found, once
      `x` is found. */
  lemma ExpandTrails(w: Walk, results: set<ClassNode>, x: ClassNode, e: seq<ClassNode>,
                     trails: map<ClassNode, seq<ClassNode>>)
    requires x in trails && x != w.root && e == Expansion(w.vertices, x, w.parents, w.children)
    requires forall y :: y in trails ==> BranchPath(w, trails[y]) && trails[y][|trails[y]| - 1] == y
    requires forall y, i :: y in trails && 0 <= i < |trails[y]| - 1 ==> trails[y][i] in results
    ensures var trails' := trails + map y | y in e && y !in trails :: trails[x] + [y];
            && (forall y :: y in e ==> y in trails')
            && (forall y :: y in trails ==> y in trails')
            && (forall y :: y in trails' ==> BranchPath(w, trails'[y]) && trails'[y][|trails'[y]| - 1] == y)
            && (forall y, i :: y in trails' && 0 <= i < |trails'[y]| - 1 ==> trails'[y][i] in results + {x})
  {
    var trails' := trails + map y | y in e && y !in trails :: trails[x] + [y];
    var px := trails[x];
    forall y | y in trails' ensures BranchPath(w, trails'[y]) && trails'[y][|trails'[y]| - 1] == y {
      if y !in trails {
        PathExtend(w, px, y);
      }
    }
    forall y, i | y in trails' && 0 <= i < |trails'[y]| - 1 ensures trails'[y][i] in results + {x} {
      if y !in trails {
        assert trails'[y][i] == px[i];
        if i < |px| - 1 {
          assert px[i] in results;
        }
      } else {
        assert trails'[y] == trails[y];
      }
    }
  }


  /** A set that holds the start class and the expansion of each of its
      classes other than the root holds the end of every path. */
  lemma {:induction false} ClosedHoldsPath(w: Walk, results: set<ClassNode>, p: seq<ClassNode>)
    requires w.start in results
    requires forall x, y :: x in results && x != w.root && y in Expansion(w.vertices, x, w.parents, w.children) ==>
               y in results
    requires BranchPath(w, p)
    ensures p[|p| - 1] in results
    decreases |p|
  {
    if |p| > 1 {
      var q := p[..|p| - 1];
      assert BranchPath(w, q) by {
        forall i | 0 <= i < |q| - 1
          ensures q[i] != w.root && q[i + 1] in Expansion(w.vertices, q[i], w.parents, w.children)
        {
          assert q[i] == p[i] && q[i + 1] == p[i + 1];
        }
      }
      ClosedHoldsPath(w, results, q);
      assert p[|p| - 2] == q[|q| - 1];
    }
  }

  lemma BranchDone(w: Walk, universe: set<ClassNode>, results: set<ClassNode>, trails: map<ClassNode, seq<ClassNode>>)
    requires BranchWalk(w, universe, results, [], trails)
    ensures w.start in results && results <= universe
    ensures forall x, y :: x in results && x != w.root && y in Expansion(w.vertices, x, w.parents, w.children) ==>
              y in results
    ensures forall y :: y in results && y != w.start ==>
              exists x :: x in results && x != w.root && y in Expansion(w.vertices, x, w.parents, w.children)
  {
    forall y | y in results && y != w.start
      ensures exists x :: x in results && x != w.root && y in Expansion(w.vertices, x, w.parents, w.children)
    {
      var p := trails[y];
      assert |p| > 1;
      assert p[|p| - 2] in results;
    }
  }

  /** When the queue is empty, the classes found are exactly the classes
      reached from the start. */
  lemma BranchExact(w: Walk, universe: set<ClassNode>, results: set<ClassNode>, trails: map<ClassNode, seq<ClassNode>>)
    requires BranchWalk(w, universe, results, [], trails)
    ensures forall y :: y in results <==> Reached(w, y)
  {
    forall y | y in results ensures Reached(w, y) {
      assert BranchPath(w, trails[y]);
    }
    forall y | Reached(w, y) ensures y in results {
      var p :| BranchPath(w, p) && p[|p| - 1] == y;
      ClosedHoldsPath(w, results, p);
    }
  }


  /** The classes a sequence holds, collected from its end. */
  function Elements(c: seq<ClassNode>): set<ClassNode>
    decreases |c|
  {
    if c == [] then {} else Elements(c[..|c| - 1]) + {c[|c| - 1]}
  }

  /** `Elements` holds exactly the classes of the sequence. */
  lemma {:induction false} ElementsMembers(c: seq<ClassNode>)
    ensures forall x :: x in Elements(c) <==> x in c
    decreases |c|
  {
    if c != [] {
      var d := c[..|c| - 1];
      ElementsMembers(d);
      assert c == d + [c[|c| - 1]];
    }
  }

  const NoParent: string := "Couldn't find parent class?"

  lemma SubsetGrows(universe: set<ClassNode>, s: set<ClassNode>, x: ClassNode)
    requires s <= universe && x in universe && x !in s
    ensures |universe - (s + {x})| < |universe - s|
  {
    assert universe - (s + {x}) < universe - s by {
      assert x in universe - s;
    }
  }

  /** A class of the tree has at most one extends edge, and it leads to the
      class's superclass (the root when it names none); the root has none. A
      class whose superclass lookup failed keeps no extends edge. */
  lemma SingleExtends(t: ClassTree, cn: ClassNode)
    requires t.Valid()
    ensures forall d :: Extends(cn, d) in t.edges ==> t.SuperTarget(cn) == Ok(d) && t.RecordedSuper(t.edges, cn) == Some(d)
    ensures t.SuperTarget(cn).Err? ==> forall d :: Extends(cn, d) !in t.edges
    ensures forall d :: Extends(t.root, d) !in t.edges
  {
  }
}
