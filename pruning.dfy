/** `pruneTree` and `postPruneDecisionTree`. The program prunes by walking the
    tree breadth first with a queue of node references, counting internal
    nodes, and turning the chosen node into a leaf in place; its parent keeps
    the reference, so the change shows in the whole tree. Here a queue entry
    pairs a node with the path that leads to it, and the in-place change is
    the replacement of the subtree at that path. */
module Pruning {
  import opened Common
  import opened Tree
  import opened Evaluation

  /** A queued node and the keys that lead to it from the root. */
  datatype Entry = Entry(node: Node, path: Path)

  /** Every entry is the node its path reaches in `t`. */
  predicate Consistent(t: Node, q: seq<Entry>) {
    forall i :: 0 <= i < |q| ==> ValidPath(t, q[i].path) && At(t, q[i].path) == q[i].node
  }

  /** The paths of the internal nodes among the entries, in queue order: the
      nodes that advance the counter when popped. */
  function Internals(q: seq<Entry>): (r: seq<Path>)
    ensures |r| <= |q|
  {
    if q == [] then []
    else (if q[0].node.Internal? then [q[0].path] else []) + Internals(q[1..])
  }

  /** What popping an entry appends to the queue: both children of an
      internal node, under "0" then "1"; nothing for a leaf or a placeholder. */
  function ChildrenOf(e: Entry): seq<Entry> {
    if e.node.Internal? then [Entry(e.node.child0, e.path + ["0"]), Entry(e.node.child1, e.path + ["1"])]
    else []
  }

  function Children(q: seq<Entry>): seq<Entry> {
    if q == [] then [] else ChildrenOf(q[0]) + Children(q[1..])
  }

  function SizeSum(q: seq<Entry>): nat {
    if q == [] then 0 else Size(q[0].node) + SizeSum(q[1..])
  }

  lemma {:induction false} SizeSumAppend(a: seq<Entry>, b: seq<Entry>)
    ensures SizeSum(a + b) == SizeSum(a) + SizeSum(b)
    decreases |a|
  {
    if a != [] {
      assert (a + b)[1..] == a[1..] + b;
      SizeSumAppend(a[1..], b);
    } else {
      assert a + b == b;
    }
  }

  lemma {:induction false} InternalsAppend(a: seq<Entry>, b: seq<Entry>)
    ensures Internals(a + b) == Internals(a) + Internals(b)
    decreases |a|
  {
    if a != [] {
      assert (a + b)[1..] == a[1..] + b;
      InternalsAppend(a[1..], b);
    } else {
      assert a + b == b;
    }
  }

  lemma {:induction false} ChildrenAppend(a: seq<Entry>, b: seq<Entry>)
    ensures Children(a + b) == Children(a) + Children(b)
    decreases |a|
  {
    if a != [] {
      assert (a + b)[1..] == a[1..] + b;
      ChildrenAppend(a[1..], b);
    } else {
      assert a + b == b;
    }
  }

  /** The children of a queue are smaller than the queue, by at least one
      node per entry. */
  lemma {:induction false} ChildrenSmaller(q: seq<Entry>)
    ensures SizeSum(Children(q)) + |q| <= SizeSum(q)
    decreases |q|
  {
    if q != [] {
      ChildrenSmaller(q[1..]);
      SizeSumAppend(ChildrenOf(q[0]), Children(q[1..]));
    }
  }

  /** The internal paths a queue yields, in the order the loop pops them:
      popping every entry of `q` leaves exactly `Children(q)` queued. */
  function LevelOrder(q: seq<Entry>): seq<Path>
    decreases SizeSum(q)
  {
    if q == [] then []
    else
      ChildrenSmaller(q);
      Internals(q) + LevelOrder(Children(q))
  }

  /** The order in which `pruneTree` counts the internal nodes of `t`. */
  function BfsOrder(t: Node): seq<Path> {
    LevelOrder([Entry(t, [])])
  }

  /** Popping the head `h` of a queue and appending its children does not
      change the order in which the internal nodes are met. */
  lemma {:induction false} Rotate(h: seq<Entry>, r: seq<Entry>)
    ensures LevelOrder(h + r) == Internals(h) + LevelOrder(r + Children(h))
    decreases SizeSum(h) + SizeSum(r)
  {
    if h == [] {
      assert h + r == r && r + [] == r;
      assert Internals(h) == [] && Children(h) == [];
    } else {
      var ch, cr := Children(h), Children(r);
      ChildrenSmaller(h);
      ChildrenSmaller(r);
      SizeSumAppend(h, r);
      InternalsAppend(h, r);
      ChildrenAppend(h, r);
      assert LevelOrder(h + r) == Internals(h) + Internals(r) + LevelOrder(ch + cr);
      Rotate(ch, cr);
      if r + ch == [] {
        assert r == [] && ch == [] && cr == [];
        assert ch + cr == [] && Internals(r) == [];
        assert LevelOrder(h + r) == Internals(h) + [] + [];
        assert LevelOrder(r + ch) == [];
      } else {
        InternalsAppend(r, ch);
        ChildrenAppend(r, ch);
        var a, b, c, d := Internals(h), Internals(r), Internals(ch), LevelOrder(cr + Children(ch));
        assert LevelOrder(r + ch) == b + c + d;
        assert LevelOrder(ch + cr) == c + d;
        AppendRegroup(a, b, c, d);
        assert LevelOrder(h + r) == a + LevelOrder(r + ch);
      }
    }
  }

  lemma Append3(a: seq<Path>, b: seq<Path>, c: seq<Path>)
    ensures a + (b + c) == (a + b) + c
  {
  }

  lemma AppendRegroup(a: seq<Path>, b: seq<Path>, c: seq<Path>, d: seq<Path>)
    ensures (a + b) + (c + d) == a + (b + c + d)
  {
  }

  /** The children of entries consistent with `t` are consistent with `t`. */
  lemma {:induction false} ChildrenConsistent(t: Node, q: seq<Entry>)
    requires Consistent(t, q)
    ensures Consistent(t, Children(q))
    decreases |q|
  {
    if q != [] {
      ChildrenConsistent(t, q[1..]);
      var e := q[0];
      if e.node.Internal? {
        AtExtend(t, e.path, "0");
        AtExtend(t, e.path, "1");
      }
      assert Consistent(t, ChildrenOf(e));
      var a, b := ChildrenOf(e), Children(q[1..]);
      assert forall i :: 0 <= i < |a + b| ==> (a + b)[i] == if i < |a| then a[i] else b[i - |a|];
    }
  }

  /** The paths in the internal-node list of consistent entries lead to
      internal nodes. */
  lemma {:induction false} InternalsValid(t: Node, q: seq<Entry>)
    requires Consistent(t, q)
    ensures forall i :: 0 <= i < |Internals(q)| ==> ValidPath(t, Internals(q)[i]) && At(t, Internals(q)[i]).Internal?
    decreases |q|
  {
    if q != [] {
      InternalsValid(t, q[1..]);
    }
  }

  lemma {:induction false} LevelOrderValid(t: Node, q: seq<Entry>)
    requires Consistent(t, q)
    ensures forall i :: 0 <= i < |LevelOrder(q)| ==> ValidPath(t, LevelOrder(q)[i]) && At(t, LevelOrder(q)[i]).Internal?
    decreases SizeSum(q)
  {
    if q != [] {
      ChildrenSmaller(q);
      InternalsValid(t, q);
      ChildrenConsistent(t, q);
      LevelOrderValid(t, Children(q));
    }
  }

  /** The internal nodes of the well-formed trees queued. */
  function InternalSum(q: seq<Entry>): nat
    requires forall i :: 0 <= i < |q| ==> WellFormed(q[i].node)
  {
    if q == [] then 0 else InternalCount(q[0].node) + InternalSum(q[1..])
  }

  lemma {:induction false} InternalSumStep(q: seq<Entry>)
    requires forall i :: 0 <= i < |q| ==> WellFormed(q[i].node)
    ensures forall i :: 0 <= i < |Children(q)| ==> WellFormed(Children(q)[i].node)
    ensures InternalSum(q) == |Internals(q)| + InternalSum(Children(q))
    decreases |q|
  {
    if q != [] {
      InternalSumStep(q[1..]);
      var a, b := ChildrenOf(q[0]), Children(q[1..]);
      ChildrenOfSum(q[0]);
      InternalSumAppend(a, b);
    }
  }

  /** The children of one well-formed entry are well-formed and hold all its
      internal nodes but itself. */
  lemma ChildrenOfSum(e: Entry)
    requires WellFormed(e.node)
    ensures forall i :: 0 <= i < |ChildrenOf(e)| ==> WellFormed(ChildrenOf(e)[i].node)
    ensures InternalCount(e.node) == (if e.node.Internal? then 1 else 0) + InternalSum(ChildrenOf(e))
  {
    if e.node.Internal? {
      var a := ChildrenOf(e);
      assert a[1..][1..] == [];
      assert InternalSum(a[1..]) == InternalCount(e.node.child1);
      assert InternalSum(a) == InternalCount(e.node.child0) + InternalCount(e.node.child1);
    }
  }

  lemma {:induction false} InternalSumAppend(a: seq<Entry>, b: seq<Entry>)
    requires forall i :: 0 <= i < |a| ==> WellFormed(a[i].node)
    requires forall i :: 0 <= i < |b| ==> WellFormed(b[i].node)
    ensures forall i :: 0 <= i < |a + b| ==> WellFormed((a + b)[i].node)
    ensures InternalSum(a + b) == InternalSum(a) + InternalSum(b)
    decreases |a|
  {
    if a != [] {
      assert (a + b)[1..] == a[1..] + b;
      InternalSumAppend(a[1..], b);
    } else {
      assert a + b == b;
    }
  }

  lemma {:induction false} LevelOrderCount(q: seq<Entry>)
    requires forall i :: 0 <= i < |q| ==> WellFormed(q[i].node)
    ensures |LevelOrder(q)| == InternalSum(q)
    decreases SizeSum(q)
  {
    if q != [] {
      ChildrenSmaller(q);
      InternalSumStep(q);
      LevelOrderCount(Children(q));
    }
  }

  /** Entries all at depth `d` yield their internal paths shortest first,
      none shorter than `d`: the order is breadth first. */
  lemma {:induction false} LevelOrderDepth(q: seq<Entry>, d: nat)
    requires forall i :: 0 <= i < |q| ==> |q[i].path| == d
    ensures forall i :: 0 <= i < |LevelOrder(q)| ==> |LevelOrder(q)[i]| >= d
    ensures forall i, j :: 0 <= i < j < |LevelOrder(q)| ==> |LevelOrder(q)[i]| <= |LevelOrder(q)[j]|
    decreases SizeSum(q)
  {
    if q != [] {
      ChildrenSmaller(q);
      InternalsDepth(q, d);
      ChildrenDepth(q, d);
      LevelOrderDepth(Children(q), d + 1);
    }
  }

  lemma {:induction false} InternalsDepth(q: seq<Entry>, d: nat)
    requires forall i :: 0 <= i < |q| ==> |q[i].path| == d
    ensures forall i :: 0 <= i < |Internals(q)| ==> |Internals(q)[i]| == d
    decreases |q|
  {
    if q != [] {
      InternalsDepth(q[1..], d);
    }
  }

  lemma {:induction false} ChildrenDepth(q: seq<Entry>, d: nat)
    requires forall i :: 0 <= i < |q| ==> |q[i].path| == d
    ensures forall i :: 0 <= i < |Children(q)| ==> |Children(q)[i].path| == d + 1
    decreases |q|
  {
    if q != [] {
      ChildrenDepth(q[1..], d);
      var a, b := ChildrenOf(q[0]), Children(q[1..]);
      assert forall i :: 0 <= i < |a + b| ==> (a + b)[i] == if i < |a| then a[i] else b[i - |a|];
    }
  }

  /** `p` comes before `q` in lexicographic order with "0" before "1"; both
      have the same length. Read from the last key back: `p` is before `q`
      when its parent path is, or when the two share their parent and `p`
      ends in "0" while `q` ends in "1". */
  predicate LexBefore(p: Path, q: Path)
    decreases |p|
  {
    |p| == |q| && |p| > 0 &&
    (LexBefore(p[..|p| - 1], q[..|q| - 1]) ||
     (p[..|p| - 1] == q[..|q| - 1] && p[|p| - 1] == "0" && q[|q| - 1] == "1"))
  }

  function Pow2(n: nat): nat {
    if n == 0 then 1 else 2 * Pow2(n - 1)
  }

  /** The number of the node at `p` when a complete binary tree is numbered
      level by level: the root is 1 and the children of node `n` are `2n`
      under "0" and `2n + 1` under "1". By `RankOrder`, increasing rank is
      shortest first and, within a length, "0" before "1". */
  function BreadthRank(p: Path): nat
    decreases |p|
  {
    if p == [] then 1 else 2 * BreadthRank(p[..|p| - 1]) + (if p[|p| - 1] == "1" then 1 else 0)
  }

  lemma RankChild(p: Path, k: Key)
    ensures BreadthRank(p + [k]) == 2 * BreadthRank(p) + (if k == "1" then 1 else 0)
  {
    assert (p + [k])[..|p|] == p;
  }

  /** The nodes at depth `n` hold the ranks from `2^n` up to `2^(n+1) - 1`. */
  lemma {:induction false} RankRange(p: Path)
    ensures Pow2(|p|) <= BreadthRank(p) < 2 * Pow2(|p|)
    decreases |p|
  {
    if p != [] {
      RankRange(p[..|p| - 1]);
    }
  }

  lemma {:induction false} Pow2Grows(m: nat, n: nat)
    requires m < n
    ensures 2 * Pow2(m) <= Pow2(n)
    decreases n
  {
    if m < n - 1 {
      Pow2Grows(m, n - 1);
    }
  }

  /** Two paths of one length with the same rank are the same path. */
  lemma {:induction false} RankInjective(p: Path, q: Path)
    requires |p| == |q| && BreadthRank(p) == BreadthRank(q)
    ensures p == q
    decreases |p|
  {
    if p != [] {
      var n := |p| - 1;
      RankInjective(p[..n], q[..n]);
      assert p[n] == q[n];
      assert p == p[..n] + [p[n]] && q == q[..n] + [q[n]];
    }
  }

  /** Within one length, rank order is lexicographic order. */
  lemma {:induction false} RankLex(p: Path, q: Path)
    requires |p| == |q|
    ensures BreadthRank(p) < BreadthRank(q) <==> LexBefore(p, q)
    decreases |p|
  {
    if p != [] {
      var n := |p| - 1;
      RankLex(p[..n], q[..n]);
      if BreadthRank(p[..n]) == BreadthRank(q[..n]) {
        RankInjective(p[..n], q[..n]);
      }
    }
  }

  /** Rank order is breadth-first order: shorter paths first, and paths of
      one length in lexicographic order with "0" before "1". */
  lemma RankOrder(p: Path, q: Path)
    ensures BreadthRank(p) < BreadthRank(q) <==> |p| < |q| || (|p| == |q| && LexBefore(p, q))
  {
    RankRange(p);
    RankRange(q);
    if |p| < |q| {
      Pow2Grows(|p|, |q|);
    } else if |q| < |p| {
      Pow2Grows(|q|, |p|);
    } else {
      RankLex(p, q);
    }
  }

  function Paths(q: seq<Entry>): (r: seq<Path>)
    ensures |r| == |q| && forall i :: 0 <= i < |q| ==> r[i] == q[i].path
  {
    seq(|q|, i requires 0 <= i < |q| => q[i].path)
  }

  predicate RankIncreasing(s: seq<Path>) {
    forall i, j :: 0 <= i < j < |s| ==> BreadthRank(s[i]) < BreadthRank(s[j])
  }

  predicate RanksWithin(s: seq<Path>, lo: nat, hi: nat) {
    forall i :: 0 <= i < |s| ==> lo <= BreadthRank(s[i]) < hi
  }

  lemma IncreasingAppend(a: seq<Path>, b: seq<Path>, m: nat)
    requires RankIncreasing(a) && RankIncreasing(b)
    requires forall i :: 0 <= i < |a| ==> BreadthRank(a[i]) < m
    requires forall i :: 0 <= i < |b| ==> BreadthRank(b[i]) >= m
    ensures RankIncreasing(a + b)
  {
    assert forall i :: 0 <= i < |a + b| ==> (a + b)[i] == if i < |a| then a[i] else b[i - |a|];
  }

  lemma AppendRanks(a: seq<Path>, b: seq<Path>, lo: nat, m: nat, hi: nat)
    requires lo <= m <= hi
    requires RankIncreasing(a) && RanksWithin(a, lo, m)
    requires RankIncreasing(b) && RanksWithin(b, m, hi)
    ensures RankIncreasing(a + b) && RanksWithin(a + b, lo, hi)
  {
    IncreasingAppend(a, b, m);
    assert forall i :: 0 <= i < |a + b| ==> (a + b)[i] == if i < |a| then a[i] else b[i - |a|];
  }

  /** The children of an entry of rank `r` have ranks `2r` and `2r + 1`. */
  lemma ChildrenOfRanks(e: Entry, lo: nat)
    requires lo <= BreadthRank(e.path)
    ensures RankIncreasing(Paths(ChildrenOf(e)))
    ensures RanksWithin(Paths(ChildrenOf(e)), 2 * lo, 2 * BreadthRank(e.path) + 2)
  {
    if e.node.Internal? {
      RankChild(e.path, "0");
      RankChild(e.path, "1");
      assert Paths(ChildrenOf(e)) == [e.path + ["0"], e.path + ["1"]];
    } else {
      assert Paths(ChildrenOf(e)) == [];
    }
  }

  /** Behind the head of a queue ordered by rank come only higher ranks. */
  lemma TailRanks(q: seq<Entry>, lo: nat, hi: nat)
    requires q != [] && RankIncreasing(Paths(q)) && RanksWithin(Paths(q), lo, hi)
    ensures lo <= BreadthRank(q[0].path) < hi
    ensures RankIncreasing(Paths(q[1..])) && RanksWithin(Paths(q[1..]), BreadthRank(q[0].path) + 1, hi)
  {
    assert Paths(q)[0] == q[0].path;
    assert forall i :: 0 <= i < |q| - 1 ==> Paths(q[1..])[i] == Paths(q)[i + 1];
  }

  lemma PathsAppend(a: seq<Entry>, b: seq<Entry>)
    ensures Paths(a + b) == Paths(a) + Paths(b)
  {
    assert forall i :: 0 <= i < |a + b| ==> (a + b)[i] == if i < |a| then a[i] else b[i - |a|];
  }

  /** Dropping the leaves and placeholders of a queue keeps its ranks in order. */
  lemma {:induction false} InternalsIncreasing(q: seq<Entry>, lo: nat, hi: nat)
    requires RankIncreasing(Paths(q)) && RanksWithin(Paths(q), lo, hi)
    ensures RankIncreasing(Internals(q)) && RanksWithin(Internals(q), lo, hi)
    decreases |q|
  {
    if q != [] {
      var r := BreadthRank(q[0].path);
      TailRanks(q, lo, hi);
      InternalsIncreasing(q[1..], r + 1, hi);
      var h := if q[0].node.Internal? then [q[0].path] else [];
      AppendRanks(h, Internals(q[1..]), lo, r + 1, hi);
    }
  }

  /** The children of a queue ordered by rank within `[lo, hi)` are ordered
      by rank within `[2 lo, 2 hi)`: the next level, in order. */
  lemma {:induction false} ChildrenIncreasing(q: seq<Entry>, lo: nat, hi: nat)
    requires RankIncreasing(Paths(q)) && RanksWithin(Paths(q), lo, hi)
    ensures RankIncreasing(Paths(Children(q))) && RanksWithin(Paths(Children(q)), 2 * lo, 2 * hi)
    decreases |q|
  {
    if q != [] {
      var r := BreadthRank(q[0].path);
      TailRanks(q, lo, hi);
      ChildrenIncreasing(q[1..], r + 1, hi);
      var c, rest := ChildrenOf(q[0]), Children(q[1..]);
      ChildrenOfRanks(q[0], lo);
      PathsAppend(c, rest);
      AppendRanks(Paths(c), Paths(rest), 2 * lo, 2 * r + 2, 2 * hi);
    }
  }

  /** A queue holding one level of the tree in rank order yields its internal
      paths in increasing rank, none below the level's first rank. */
  lemma {:induction false} LevelOrderIncreasing(q: seq<Entry>, d: nat)
    requires RankIncreasing(Paths(q)) && RanksWithin(Paths(q), Pow2(d), 2 * Pow2(d))
    ensures RankIncreasing(LevelOrder(q))
    ensures forall i :: 0 <= i < |LevelOrder(q)| ==> BreadthRank(LevelOrder(q)[i]) >= Pow2(d)
    decreases SizeSum(q)
  {
    if q != [] {
      ChildrenSmaller(q);
      InternalsIncreasing(q, Pow2(d), 2 * Pow2(d));
      ChildrenIncreasing(q, Pow2(d), 2 * Pow2(d));
      LevelOrderIncreasing(Children(q), d + 1);
      IncreasingAppend(Internals(q), LevelOrder(Children(q)), 2 * Pow2(d));
    }
  }

  /** The counting order of `pruneTree`: it lists every internal node of a
      well-formed tree, as many as `getInternalNodeCount` counts, level by
      level, the root first. */
  lemma BfsOrderSpec(t: Node)
    ensures forall i :: 0 <= i < |BfsOrder(t)| ==> ValidPath(t, BfsOrder(t)[i]) && At(t, BfsOrder(t)[i]).Internal?
    ensures forall i, j :: 0 <= i < j < |BfsOrder(t)| ==> BfsOrder(t)[i] != BfsOrder(t)[j]
    ensures forall i, j :: 0 <= i < j < |BfsOrder(t)| ==>
      |BfsOrder(t)[i]| < |BfsOrder(t)[j]| || (|BfsOrder(t)[i]| == |BfsOrder(t)[j]| && LexBefore(BfsOrder(t)[i], BfsOrder(t)[j]))
    ensures WellFormed(t) ==> |BfsOrder(t)| == InternalCount(t)
    ensures t.Internal? ==> |BfsOrder(t)| > 0 && BfsOrder(t)[0] == []
  {
    var q := [Entry(t, [])];
    LevelOrderValid(t, q);
    LevelOrderIncreasing(q, 0);
    var o := BfsOrder(t);
    forall i, j | 0 <= i < j < |o|
      ensures o[i] != o[j]
      ensures |o[i]| < |o[j]| || (|o[i]| == |o[j]| && LexBefore(o[i], o[j]))
    {
      RankOrder(o[i], o[j]);
    }
    if WellFormed(t) {
      LevelOrderCount(q);
    }
  }

  /** One turn of the queue loop: the head is popped and, if internal,
      counted and replaced at the back by its children; the entries stay
      consistent and the internal nodes are still met in the same order. */
  lemma Pop(tree: Node, queue: seq<Entry>, visited: seq<Path>)
    requires queue != [] && Consistent(tree, queue) && visited + LevelOrder(queue) == BfsOrder(tree)
    ensures var e, next := queue[0], queue[1..] + ChildrenOf(queue[0]);
      && Consistent(tree, [e]) && Consistent(tree, next)
      && (e.node.Internal? ==> (visited + [e.path]) + LevelOrder(next) == BfsOrder(tree))
      && (!e.node.Internal? ==> visited + LevelOrder(next) == BfsOrder(tree) && SizeSum(next) < SizeSum(queue))
  {
    PopConsistent(tree, queue);
    PopOrder(queue, visited, BfsOrder(tree));
    PopSmaller(queue);
  }

  /** The popped entry and the queue left behind stay consistent. */
  lemma PopConsistent(tree: Node, queue: seq<Entry>)
    requires queue != [] && Consistent(tree, queue)
    ensures Consistent(tree, [queue[0]]) && Consistent(tree, queue[1..] + ChildrenOf(queue[0]))
  {
    var e, rest := queue[0], queue[1..];
    var appended := ChildrenOf(e);
    assert Children([e]) == appended;
    ChildrenConsistent(tree, [e]);
    assert Consistent(tree, rest + appended) by {
      var a, b := rest, appended;
      assert forall i :: 0 <= i < |a + b| ==> (a + b)[i] == if i < |a| then a[i] else b[i - |a|];
    }
    assert [e][0] == e;
  }

  /** Popping the head counts it if it is internal and leaves the rest of
      the order to the new queue. */
  lemma PopOrder(queue: seq<Entry>, visited: seq<Path>, order: seq<Path>)
    requires queue != [] && visited + LevelOrder(queue) == order
    ensures var e, next := queue[0], queue[1..] + ChildrenOf(queue[0]);
      && (e.node.Internal? ==> (visited + [e.path]) + LevelOrder(next) == order)
      && (!e.node.Internal? ==> visited + LevelOrder(next) == order)
  {
    var e, rest := queue[0], queue[1..];
    assert queue == [e] + rest;
    PopFront(e, rest, visited, order);
  }

  lemma PopFront(e: Entry, rest: seq<Entry>, visited: seq<Path>, order: seq<Path>)
    requires visited + LevelOrder([e] + rest) == order
    ensures e.node.Internal? ==> (visited + [e.path]) + LevelOrder(rest + ChildrenOf(e)) == order
    ensures !e.node.Internal? ==> visited + LevelOrder(rest + ChildrenOf(e)) == order
  {
    var later := LevelOrder(rest + ChildrenOf(e));
    Rotate([e], rest);
    Single(e);
    if e.node.Internal? {
      assert LevelOrder([e] + rest) == [e.path] + later;
      Append3(visited, [e.path], later);
    } else {
      assert LevelOrder([e] + rest) == later;
    }
  }

  /** A queue of one entry: its internal paths and its children. */
  lemma Single(e: Entry)
    ensures Internals([e]) == if e.node.Internal? then [e.path] else []
    ensures Children([e]) == ChildrenOf(e)
  {
    assert [e][1..] == [];
  }

  /** Popping a leaf or a placeholder shrinks the queue. */
  lemma PopSmaller(queue: seq<Entry>)
    requires queue != []
    ensures !queue[0].node.Internal? ==> SizeSum(queue[1..] + ChildrenOf(queue[0])) < SizeSum(queue)
  {
    var e, rest := queue[0], queue[1..];
    if !e.node.Internal? {
      assert rest + ChildrenOf(e) == rest;
      assert queue == [e] + rest;
      SizeSumAppend([e], rest);
    }
  }

  /** `pruneTree(tree, nodeToPrune)` for a count the tree reaches: the
      queue loop stops at the `nodeToPrune`-th internal node in breadth-first
      order, which then becomes a leaf of its most common training class. */
  method PruneTree(tree: Node, nodeToPrune: nat) returns (pruned: Node)
    requires CountsRecorded(tree) && 1 <= nodeToPrune <= |BfsOrder(tree)|
    ensures var p := BfsOrder(tree)[nodeToPrune - 1];
      && ValidPath(tree, p) && At(tree, p).Internal? && CountsOk(At(tree, p).cl)
      && pruned == Collapse(tree, p)
  {
    var queue := [Entry(tree, [])];
    var counter := 0;
    var pruningNode := Entry(tree, []);
    ghost var visited: seq<Path> := [];
    while counter < nodeToPrune
      invariant counter == |visited| <= nodeToPrune
      invariant visited + LevelOrder(queue) == BfsOrder(tree)
      invariant Consistent(tree, queue) && Consistent(tree, [pruningNode])
      invariant counter == nodeToPrune ==> pruningNode.node.Internal? && pruningNode.path == visited[counter - 1]
      decreases nodeToPrune - counter, SizeSum(queue)
    {
      assert queue != [];
      Pop(tree, queue, visited);
      ghost var next := queue[1..] + ChildrenOf(queue[0]);
      pruningNode := queue[0];
      queue := queue[1..];
      if pruningNode.node.Internal? {
        counter := counter + 1;
        visited := visited + [pruningNode.path];
        queue := queue + [Entry(pruningNode.node.child0, pruningNode.path + ["0"]),
                          Entry(pruningNode.node.child1, pruningNode.path + ["1"])];
      }
      assert queue == next;
    }
    assert (visited + LevelOrder(queue))[nodeToPrune - 1] == pruningNode.path;
    assert [pruningNode][0] == pruningNode;
    AtWellFormed(tree, pruningNode.path);
    var classCounter := pruningNode.node.cl;
    var dominantClass := MostCommon(classCounter);
    pruned := ReplaceAt(tree, pruningNode.path, Leaf(dominantClass));
  }

  /** Replacing the subtree at `p` changes the class of exactly the rows
      whose walk passes through `p`: those now get what the new subtree
      gives them, every other row what it got before. */
  lemma {:induction false} ClassifyReplace(t: Node, p: Path, n: Node, row: Row, headers: Header)
    requires ValidPath(t, p) && |row| == |headers|
    ensures IsPrefix(p, Route(t, row, headers)) ==>
      Classify(ReplaceAt(t, p, n), row, headers) == Classify(n, row, headers)
    ensures !IsPrefix(p, Route(t, row, headers)) ==>
      Classify(ReplaceAt(t, p, n), row, headers) == Classify(t, row, headers)
    decreases p
  {
    if p != [] {
      var k := p[0];
      var route := Route(t, row, headers);
      if t.attr in headers && IsKey(row[IndexOf(headers, t.attr)]) {
        var v: Key := row[IndexOf(headers, t.attr)];
        assert route == [v] + Route(Child(t, v), row, headers);
        if v == k {
          ClassifyReplace(Child(t, k), p[1..], n, row, headers);
          assert IsPrefix(p, route) <==> IsPrefix(p[1..], Route(Child(t, k), row, headers)) by {
            assert route[1..] == Route(Child(t, k), row, headers);
            if IsPrefix(p[1..], route[1..]) {
              assert route[..|p|] == [k] + route[1..][..|p| - 1];
            }
            if IsPrefix(p, route) {
              assert route[1..][..|p| - 1] == route[..|p|][1..];
            }
          }
        } else {
          assert !IsPrefix(p, route);
        }
      } else {
        assert route == [];
      }
    }
  }

  /** A collapse changes the class of exactly the rows that reach the
      collapsed node: they now get its most common training class. Every
      row that could be classified still can. */
  lemma CollapseClassify(t: Node, p: Path, row: Row, headers: Header)
    requires ValidPath(t, p) && At(t, p).Internal? && CountsOk(At(t, p).cl) && |row| == |headers|
    ensures IsPrefix(p, Route(t, row, headers)) ==>
      Classify(Collapse(t, p), row, headers) == Result<string>.Ok(MostCommon(At(t, p).cl))
    ensures !IsPrefix(p, Route(t, row, headers)) ==>
      Classify(Collapse(t, p), row, headers) == Classify(t, row, headers)
    ensures Classify(t, row, headers).Ok? ==> Classify(Collapse(t, p), row, headers).Ok?
  {
    ClassifyReplace(t, p, Leaf(MostCommon(At(t, p).cl)), row, headers);
  }

  /** The tree `pruneTree(t, P)` returns. */
  function PruneAt(t: Node, P: nat): (r: Node)
    requires WellFormed(t) && CountsRecorded(t) && 1 <= P <= InternalCount(t)
    ensures WellFormed(r) && CountsRecorded(r)
    ensures InternalCount(r) < InternalCount(t)
  {
    BfsOrderSpec(t);
    var p := BfsOrder(t)[P - 1];
    AtWellFormed(t, p);
    CollapseEffect(t, p);
    Collapse(t, p)
  }

  /** Pruning the first node in breadth-first order collapses the whole tree
      into one leaf. */
  lemma PruneRoot(t: Node)
    requires WellFormed(t) && CountsRecorded(t) && t.Internal?
    ensures PruneAt(t, 1) == Leaf(MostCommon(t.cl))
  {
    BfsOrderSpec(t);
  }

  /** Pruning keeps every row that could be classified classifiable. */
  lemma PruneAtClassify(t: Node, P: nat, data: seq<Row>, headers: Header)
    requires WellFormed(t) && CountsRecorded(t) && 1 <= P <= InternalCount(t)
    requires |headers| >= 1 && Rectangular(data, |headers|)
    ensures Correct(t, data, headers).Ok? ==> Correct(PruneAt(t, P), data, headers).Ok?
  {
    BfsOrderSpec(t);
    var p := BfsOrder(t)[P - 1];
    AtWellFormed(t, p);
    forall i | 0 <= i < |data| && Classify(t, data[i], headers).Ok?
      ensures Classify(PruneAt(t, P), data[i], headers).Ok?
    {
      CollapseClassify(t, p, data[i], headers);
    }
    CorrectOk(t, data, headers);
    CorrectOk(PruneAt(t, P), data, headers);
  }

  /** The tree one round of `postPruneDecisionTree` tries: a copy of `t`
      pruned once per draw, at node `1 + raw % N` of the `N` internal nodes
      left, while more than one is left. */
  function Candidate(t: Node, raws: seq<nat>): (r: Node)
    requires WellFormed(t) && CountsRecorded(t)
    ensures WellFormed(r) && CountsRecorded(r)
    ensures InternalCount(r) <= InternalCount(t)
    ensures raws != [] && InternalCount(t) > 1 ==> InternalCount(r) < InternalCount(t)
    ensures InternalCount(t) <= 1 ==> r == t
  {
    if raws == [] then t
    else
      var c := Candidate(t, raws[..|raws| - 1]);
      var n := InternalCount(c);
      if n > 1 then PruneAt(c, 1 + raws[|raws| - 1] % n) else c
  }

  lemma {:induction false} CandidateClassify(t: Node, raws: seq<nat>, data: seq<Row>, headers: Header)
    requires WellFormed(t) && CountsRecorded(t) && |headers| >= 1 && Rectangular(data, |headers|)
    requires Correct(t, data, headers).Ok?
    ensures Accuracy(Candidate(t, raws), data, headers).Ok? <==> |data| > 0
  {
    if raws != [] {
      var init := raws[..|raws| - 1];
      CandidateClassify(t, init, data, headers);
      var c := Candidate(t, init);
      if InternalCount(c) > 1 {
        PruneAtClassify(c, 1 + raws[|raws| - 1] % InternalCount(c), data, headers);
      }
    }
  }

  /** The tree `postPruneDecisionTree` keeps after the rounds `draws`, with
      its accuracy on the validation rows: a round's candidate replaces the
      kept tree only when strictly more accurate. */
  function Best(t: Node, draws: seq<seq<nat>>, data: seq<Row>, headers: Header): (r: (Node, real))
    requires WellFormed(t) && CountsRecorded(t) && |headers| >= 1 && Rectangular(data, |headers|)
    requires Accuracy(t, data, headers).Ok?
    ensures Accuracy(r.0, data, headers) == Ok(r.1)
    ensures r.1 >= Accuracy(t, data, headers).value
    ensures r.1 == Accuracy(t, data, headers).value ==> r.0 == t
    ensures WellFormed(r.0) && CountsRecorded(r.0) && InternalCount(r.0) <= InternalCount(t)
  {
    if draws == [] then (t, Accuracy(t, data, headers).value)
    else
      var kept := Best(t, draws[..|draws| - 1], data, headers);
      var candidate := Candidate(t, draws[|draws| - 1]);
      CandidateClassify(t, draws[|draws| - 1], data, headers);
      var accuracy := Accuracy(candidate, data, headers).value;
      if accuracy > kept.1 then (candidate, accuracy) else kept
  }

  /** No candidate is more accurate than the kept tree. */
  lemma {:induction false} BestIsMax(t: Node, draws: seq<seq<nat>>, data: seq<Row>, headers: Header)
    requires WellFormed(t) && CountsRecorded(t) && |headers| >= 1 && Rectangular(data, |headers|)
    requires Accuracy(t, data, headers).Ok?
    ensures forall i :: 0 <= i < |draws| ==>
      Accuracy(Candidate(t, draws[i]), data, headers).Ok? &&
      Accuracy(Candidate(t, draws[i]), data, headers).value <= Best(t, draws, data, headers).1
  {
    forall i | 0 <= i < |draws|
      ensures Accuracy(Candidate(t, draws[i]), data, headers).Ok?
      ensures Accuracy(Candidate(t, draws[i]), data, headers).value <= Best(t, draws, data, headers).1
    {
      BestAtLeast(t, draws, i, data, headers);
    }
  }

  /** The candidate of round `i` is no more accurate than the tree kept after
      all the rounds. */
  lemma {:induction false} BestAtLeast(t: Node, draws: seq<seq<nat>>, i: nat, data: seq<Row>, headers: Header)
    requires WellFormed(t) && CountsRecorded(t) && |headers| >= 1 && Rectangular(data, |headers|)
    requires Accuracy(t, data, headers).Ok? && i < |draws|
    ensures Accuracy(Candidate(t, draws[i]), data, headers).Ok?
    ensures Accuracy(Candidate(t, draws[i]), data, headers).value <= Best(t, draws, data, headers).1
  {
    BestLast(t, draws, data, headers);
    if i < |draws| - 1 {
      var init := draws[..|draws| - 1];
      BestAtLeast(t, init, i, data, headers);
      assert init[i] == draws[i];
    }
  }

  /** The last round: its candidate is testable, and neither it nor the tree
      kept before it is more accurate than the tree kept after it. */
  lemma BestLast(t: Node, draws: seq<seq<nat>>, data: seq<Row>, headers: Header)
    requires WellFormed(t) && CountsRecorded(t) && |headers| >= 1 && Rectangular(data, |headers|)
    requires Accuracy(t, data, headers).Ok? && draws != []
    ensures Accuracy(Candidate(t, draws[|draws| - 1]), data, headers).Ok?
    ensures Best(t, draws[..|draws| - 1], data, headers).1 <= Best(t, draws, data, headers).1
    ensures Accuracy(Candidate(t, draws[|draws| - 1]), data, headers).value <= Best(t, draws, data, headers).1
  {
    CandidateClassify(t, draws[|draws| - 1], data, headers);
  }

  /** The kept tree is the input or one of the candidates. */
  lemma {:induction false} BestIsTried(t: Node, draws: seq<seq<nat>>, data: seq<Row>, headers: Header)
    requires WellFormed(t) && CountsRecorded(t) && |headers| >= 1 && Rectangular(data, |headers|)
    requires Accuracy(t, data, headers).Ok?
    ensures Best(t, draws, data, headers).0 == t ||
      exists i :: 0 <= i < |draws| && Best(t, draws, data, headers).0 == Candidate(t, draws[i])
  {
    if draws != [] {
      var init := draws[..|draws| - 1];
      BestIsTried(t, init, data, headers);
      if Best(t, draws, data, headers) != Best(t, init, data, headers) {
        assert Best(t, draws, data, headers).0 == Candidate(t, draws[|draws| - 1]);
      } else if Best(t, init, data, headers).0 != t {
        var i :| 0 <= i < |init| && Best(t, init, data, headers).0 == Candidate(t, init[i]);
        assert init[i] == draws[i];
      }
    }
  }

  /** One round of `postPruneDecisionTree`: the candidate of round `i`
      replaces the kept tree only if strictly more accurate. */
  lemma BestStep(t: Node, draws: seq<seq<nat>>, i: nat, data: seq<Row>, headers: Header)
    requires WellFormed(t) && CountsRecorded(t) && |headers| >= 1 && Rectangular(data, |headers|)
    requires Accuracy(t, data, headers).Ok? && i < |draws|
    ensures Accuracy(Candidate(t, draws[i]), data, headers).Ok?
    ensures var kept, candidate := Best(t, draws[..i], data, headers), Candidate(t, draws[i]);
      Best(t, draws[..i + 1], data, headers) ==
        if Accuracy(candidate, data, headers).value > kept.1
        then (candidate, Accuracy(candidate, data, headers).value) else kept
  {
    CandidateClassify(t, draws[i], data, headers);
    assert draws[..i + 1][..i] == draws[..i] && draws[..i + 1][i] == draws[i];
  }

  /** The inner loop of `postPruneDecisionTree`: a copy of the tree pruned
      once per draw while more than one internal node is left. */
  method PruneRound(tree: Node, draws: seq<nat>) returns (newTree: Node)
    requires WellFormed(tree) && CountsRecorded(tree)
    ensures newTree == Candidate(tree, draws)
  {
    newTree := tree;
    for j := 0 to |draws|
      invariant newTree == Candidate(tree, draws[..j])
    {
      assert draws[..j + 1][..j] == draws[..j];
      var N := InternalCount(newTree);
      if N > 1 {
        var P := 1 + draws[j] % N;
        BfsOrderSpec(newTree);
        newTree := PruneTree(newTree, P);
      }
    }
    assert draws[..|draws|] == draws;
  }

  /** `postPruneDecisionTree(tree, L, K, validationFilePath)`, the validation
      rows given as `data` under `headers` and the random draws as `draws`:
      round `i` prunes `|draws[i]|` times, the `j`-th time at node
      `1 + draws[i][j] % N`. The first test of the input tree fails as the
      test does. */
  method PostPruneDecisionTree(tree: Node, L: nat, K: nat, draws: seq<seq<nat>>, data: seq<Row>, headers: Header)
    returns (r: Result<Node>)
    requires WellFormed(tree) && CountsRecorded(tree) && |headers| >= 1 && Rectangular(data, |headers|)
    requires |draws| == L && forall i :: 0 <= i < L ==> 1 <= |draws[i]| <= K
    ensures Accuracy(tree, data, headers).Err? ==> r == Err(Accuracy(tree, data, headers).error)
    ensures Accuracy(tree, data, headers).Ok? ==> r == Ok(Best(tree, draws, data, headers).0)
  {
    var bestDecisionTree := tree;
    var test := TestDecisionTree(data, headers, tree);
    if test.Err? {
      return Err(test.error);
    }
    var originalAccuracy := test.value;
    for i := 0 to L
      invariant (bestDecisionTree, originalAccuracy) == Best(tree, draws[..i], data, headers)
    {
      BestStep(tree, draws, i, data, headers);
      var newTree := PruneRound(tree, draws[i]);
      var accuracy := TestDecisionTree(data, headers, newTree);
      if accuracy.value > originalAccuracy {
        bestDecisionTree := newTree;
        originalAccuracy := accuracy.value;
      }
    }
    assert draws[..L] == draws;
    return Ok(bestDecisionTree);
  }
}
