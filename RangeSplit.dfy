/** Positions of blocks in the dumped order, the position sort `dumpRange`
    applies to an exception range, and the maximal runs of consecutive
    positions that become the entries of the exception table. */
module RangeSplit {

  /** `List.indexOf`: a position of `x` in `s`, or -1 when it is absent
      (the first position, as `IndexOfFirst` shows). */
  function IndexOf(s: seq<nat>, x: nat): (r: int)
    ensures -1 <= r < |s|
    ensures r == -1 <==> x !in s
    ensures r >= 0 ==> s[r] == x
    decreases |s|
  {
    if |s| == 0 then -1
    else if s[0] == x then 0
    else
      var r := IndexOf(s[1..], x);
      if r == -1 then -1 else r + 1
  }

  /** No earlier position holds `x`. */
  lemma {:induction false} IndexOfFirst(s: seq<nat>, x: nat)
    ensures IndexOf(s, x) >= 0 ==> x !in s[..IndexOf(s, x)]
    decreases |s|
  {
    if |s| > 0 && s[0] != x {
      IndexOfFirst(s[1..], x);
      var r := IndexOf(s[1..], x);
      if r >= 0 {
        assert s[..r + 1] == [s[0]] + s[1..][..r];
      }
    }
  }

  /** In a list without repeats, the position of its i-th element is i. */
  lemma IndexOfDistinct(s: seq<nat>, i: nat)
    requires i < |s| && forall a, b :: 0 <= a < b < |s| ==> s[a] != s[b]
    ensures IndexOf(s, s[i]) == i
  {
  }

  /** Positions, in the order, of a range's blocks sorted by position. */
  function Positions(order: seq<nat>, nodes: seq<nat>): (ps: seq<int>)
    ensures |ps| == |nodes|
    ensures forall k :: 0 <= k < |ps| ==> ps[k] == IndexOf(order, nodes[k])
  {
    seq(|nodes|, k requires 0 <= k < |nodes| => IndexOf(order, nodes[k]))
  }

  /** Each block is placed no later than the next one. */
  predicate SortedBy(order: seq<nat>, s: seq<nat>)
    decreases |s|
  {
    |s| <= 1 || (IndexOf(order, s[0]) <= IndexOf(order, s[1]) && SortedBy(order, s[1..]))
  }

  /** Inserts `x` before the first element placed at or after it. */
  function Insert(order: seq<nat>, x: nat, s: seq<nat>): (r: seq<nat>)
    requires SortedBy(order, s)
    ensures SortedBy(order, r)
    ensures multiset(r) == multiset(s) + multiset{x}
    ensures r[0] == x || r[0] == s[0]
    decreases |s|
  {
    if s == [] || IndexOf(order, x) <= IndexOf(order, s[0]) then [x] + s
    else
      var t := Insert(order, x, s[1..]);
      assert s == [s[0]] + s[1..];
      assert ([s[0]] + t)[1..] == t;
      [s[0]] + t
  }

  /** `range.sort(Comparator.comparing(order::indexOf))`: a sort of the
      range's blocks by position, blocks absent from the order (position -1)
      first. */
  function SortByPosition(order: seq<nat>, nodes: seq<nat>): (r: seq<nat>)
    ensures SortedBy(order, r)
    ensures multiset(r) == multiset(nodes)
    decreases |nodes|
  {
    if nodes == [] then []
    else
      assert nodes == [nodes[0]] + nodes[1..];
      Insert(order, nodes[0], SortByPosition(order, nodes[1..]))
  }

  predicate NonDecreasing(ps: seq<int>) {
    forall i, j :: 0 <= i < j < |ps| ==> ps[i] <= ps[j]
  }

  /** The positions of a sorted list of blocks never decrease. */
  lemma {:induction false} SortedPositions(order: seq<nat>, s: seq<nat>)
    requires SortedBy(order, s)
    ensures NonDecreasing(Positions(order, s))
    decreases |s|
  {
    if |s| > 1 {
      SortedPositions(order, s[1..]);
      var ps, qs := Positions(order, s), Positions(order, s[1..]);
      forall i, j | 0 <= i < j < |ps| ensures ps[i] <= ps[j] {
        assert ps[j] == qs[j - 1];
        if i > 0 {
          assert ps[i] == qs[i - 1];
        } else {
          assert ps[1] == qs[0];
        }
      }
    }
  }

  /** Each position is at most the next one. */
  predicate Ascending(ps: seq<int>)
    decreases |ps|
  {
    |ps| <= 1 || (ps[0] <= ps[1] && Ascending(ps[1..]))
  }

  lemma {:induction false} NonDecreasingAscending(ps: seq<int>)
    requires NonDecreasing(ps)
    ensures Ascending(ps)
    decreases |ps|
  {
    if |ps| > 1 {
      forall i, j | 0 <= i < j < |ps| - 1 ensures ps[1..][i] <= ps[1..][j] {
        assert ps[1..][i] == ps[i + 1] && ps[1..][j] == ps[j + 1];
      }
      NonDecreasingAscending(ps[1..]);
    }
  }

  /** The maximal runs of a position list, as (first, last) pairs: a run
      goes on while the next position is the same or the next one. */
  function Runs(ps: seq<int>): (rs: seq<(int, int)>)
    requires ps != []
    ensures rs != [] && rs[0].0 == ps[0] && rs[|rs| - 1].1 == ps[|ps| - 1]
    decreases |ps|
  {
    if |ps| == 1 then [(ps[0], ps[0])]
    else
      var rest := Runs(ps[1..]);
      if ps[1] - ps[0] <= 1 then [(ps[0], rest[0].1)] + rest[1..]
      else [(ps[0], ps[0])] + rest
  }

  /** The runs of a sorted list are well formed and maximal: each ends at
      or after its start, and a gap of more than one position separates
      consecutive runs. */
  lemma {:induction false} RunsShape(ps: seq<int>)
    requires ps != [] && Ascending(ps)
    ensures forall k :: 0 <= k < |Runs(ps)| ==> Runs(ps)[k].0 <= Runs(ps)[k].1
    ensures forall k :: 0 <= k < |Runs(ps)| - 1 ==> Runs(ps)[k].1 + 1 < Runs(ps)[k + 1].0
    decreases |ps|
  {
    var rs := Runs(ps);
    if |ps| > 1 {
      RunsShape(ps[1..]);
      var rest := Runs(ps[1..]);
      var d := RunsTail(ps);
      assert rs[0].0 <= rs[0].1;
      assert |rs| > 1 ==> rs[0].1 + 1 < rs[1].0;
    }
  }

  /** The runs of a list of two or more positions, in terms of the runs of
      its tail: the first run either absorbs the tail's first run (d = 0)
      or stands alone before it (d = 1). */
  lemma RunsTail(ps: seq<int>) returns (d: nat)
    requires |ps| > 1
    ensures d == if ps[1] - ps[0] <= 1 then 0 else 1
    ensures Runs(ps[1..])[0].0 == ps[1]
    ensures |Runs(ps)| == |Runs(ps[1..])| + d
    ensures Runs(ps)[0] == (ps[0], if d == 0 then Runs(ps[1..])[0].1 else ps[0])
    ensures forall k :: 1 <= k < |Runs(ps)| ==> Runs(ps)[k] == Runs(ps[1..])[k - d]
  {
    d := if ps[1] - ps[0] <= 1 then 0 else 1;
    var rs, rest := Runs(ps), Runs(ps[1..]);
    var head := if d == 0 then (ps[0], rest[0].1) else (ps[0], ps[0]);
    var tail := if d == 0 then rest[1..] else rest;
    assert rs == [head] + tail;
    forall k | 1 <= k < |rs| ensures rs[k] == rest[k - d] {
      assert rs[k] == tail[k - 1];
    }
  }

  /** Every position of a non-decreasing list lies in one of its runs, and
      every position inside a run is in the list: the entries cover exactly
      the range's blocks. */
  lemma RunsCover(ps: seq<int>, p: int)
    requires ps != [] && NonDecreasing(ps)
    ensures p in ps <==> exists k :: 0 <= k < |Runs(ps)| && Runs(ps)[k].0 <= p <= Runs(ps)[k].1
  {
    NonDecreasingAscending(ps);
    if p in ps {
      var i :| 0 <= i < |ps| && ps[i] == p;
      var k := InRun(ps, i);
    }
    if exists k :: 0 <= k < |Runs(ps)| && Runs(ps)[k].0 <= p <= Runs(ps)[k].1 {
      var k :| 0 <= k < |Runs(ps)| && Runs(ps)[k].0 <= p <= Runs(ps)[k].1;
      RunHolds(ps, k, p);
    }
  }

  lemma {:induction false} InRun(ps: seq<int>, i: nat) returns (k: nat)
    requires ps != [] && Ascending(ps) && i < |ps|
    ensures k < |Runs(ps)| && Runs(ps)[k].0 <= ps[i] <= Runs(ps)[k].1
    decreases |ps|
  {
    if |ps| == 1 || i == 0 {
      k := 0;
      RunsShape(ps);
    } else {
      var d := RunsTail(ps);
      var k' := InRun(ps[1..], i - 1);
      assert ps[1..][i - 1] == ps[i];
      k := k' + d;
    }
  }

  lemma {:induction false} RunHolds(ps: seq<int>, k: nat, p: int)
    requires ps != [] && Ascending(ps)
    requires k < |Runs(ps)| && Runs(ps)[k].0 <= p <= Runs(ps)[k].1
    ensures p in ps
    decreases |ps|
  {
    if |ps| > 1 && p != ps[0] {
      var d := RunsTail(ps);
      assert k >= d;
      RunHolds(ps[1..], k - d, p);
      assert p in ps[1..];
    }
  }

  predicate Contiguous(ps: seq<int>) {
    forall i :: 0 <= i < |ps| - 1 ==> ps[i + 1] - ps[i] <= 1
  }

  /** A range whose blocks sit next to each other yields one entry, and only
      such a range does. */
  lemma {:induction false} OneRunIffContiguous(ps: seq<int>)
    requires ps != []
    ensures |Runs(ps)| == 1 <==> Contiguous(ps)
    decreases |ps|
  {
    if |ps| > 1 {
      OneRunIffContiguous(ps[1..]);
      var d := RunsTail(ps);
      if Contiguous(ps) {
        forall i | 0 <= i < |ps[1..]| - 1 ensures ps[1..][i + 1] - ps[1..][i] <= 1 {
          assert ps[i + 2] - ps[i + 1] <= 1;
        }
        assert ps[1] - ps[0] <= 1;
      }
      if |Runs(ps)| == 1 {
        forall i | 0 <= i < |ps| - 1 ensures ps[i + 1] - ps[i] <= 1 {
          if i > 0 {
            assert ps[1..][i] - ps[1..][i - 1] <= 1;
          }
        }
      }
    }
  }
}
