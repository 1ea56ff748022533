/** The binary decision tree. The program keeps a node as a dictionary: an
    internal node holds its deciding attribute under 'attr', the class counts of
    the training rows that reached it under 'cl', and a child under each label
    key; a leaf holds its class under 'class'. The empty dictionary that
    `createInternalNode` first puts under each label key is `Empty` here. */
module Tree {
  import opened Common

  datatype Node =
    | Empty
    | Leaf(cls: string)
    | Internal(attr: string, cl: map<string, nat>, child0: Node, child1: Node)

  /** The route from the root to a node: the label keys followed. */
  type Path = seq<Key>

  /** `node[k]` for an internal node. */
  function Child(t: Node, k: Key): Node
    requires t.Internal?
  {
    if k == "0" then t.child0 else t.child1
  }

  /** `createInternalNode(attr)`: a node testing `attr`, with no class counts
      yet and a placeholder under every label key; it is not yet a usable tree. */
  function CreateInternalNode(attr: string): (r: Node)
    ensures r.Internal? && r.attr == attr && r.cl == map[]
    ensures forall k: Key :: Child(r, k) == Empty
    ensures !WellFormed(r)
  {
    Internal(attr, map[], Empty, Empty)
  }

  /** `createLeafNode(c)`: a complete tree of one node, predicting `c`. */
  function CreateLeafNode(c: string): (r: Node)
    ensures WellFormed(r) && InternalCount(r) == 0 && r.cls == c
  {
    Leaf(c)
  }

  /** A tree without placeholders: the trees that counting, pruning and
      evaluation can walk without failing. */
  predicate WellFormed(t: Node) {
    match t
    case Empty => false
    case Leaf(_) => true
    case Internal(_, _, c0, c1) => WellFormed(c0) && WellFormed(c1)
  }

  /** The attributes tested at the internal nodes of a tree. */
  function Tested(t: Node): set<string> {
    match t
    case Internal(a, _, c0, c1) => {a} + Tested(c0) + Tested(c1)
    case _ => {}
  }

  /** Every leaf predicts a label of the domain. */
  predicate LeavesInDomain(t: Node) {
    match t
    case Leaf(c) => IsKey(c)
    case Internal(_, _, c0, c1) => LeavesInDomain(c0) && LeavesInDomain(c1)
    case Empty => true
  }

  /** The number of nodes, placeholders included. */
  function Size(t: Node): nat {
    match t
    case Internal(_, _, c0, c1) => 1 + Size(c0) + Size(c1)
    case _ => 1
  }

  /** `getInternalNodeCount`. A well-formed tree is a full binary tree, so it
      has one more leaf than internal nodes. */
  function InternalCount(t: Node): (n: nat)
    requires WellFormed(t)
    ensures Size(t) == 2 * n + 1
    ensures n == 0 <==> t.Leaf?
  {
    if t.Leaf? then 0 else 1 + InternalCount(t.child0) + InternalCount(t.child1)
  }

  predicate ValidPath(t: Node, p: Path)
    decreases p
  {
    p == [] || (t.Internal? && ValidPath(Child(t, p[0]), p[1..]))
  }

  /** The node reached by following `p` from `t`. */
  function At(t: Node, p: Path): Node
    requires ValidPath(t, p)
    decreases p
  {
    if p == [] then t else At(Child(t, p[0]), p[1..])
  }

  /** `t` with the node at `p` replaced by `n`: the value-level view of
      writing through a reference to that node. */
  function ReplaceAt(t: Node, p: Path, n: Node): (r: Node)
    requires ValidPath(t, p)
    ensures ValidPath(r, p) && At(r, p) == n
    decreases p
  {
    if p == [] then n
    else if p[0] == "0" then t.(child0 := ReplaceAt(t.child0, p[1..], n))
    else t.(child1 := ReplaceAt(t.child1, p[1..], n))
  }

  predicate IsPrefix(p: Path, q: Path) {
    |p| <= |q| && q[..|p|] == p
  }

  /** The class counts of a node the pruner may collapse: at least one label,
      and only labels of the domain. */
  predicate CountsOk(cl: map<string, nat>) {
    cl != map[] && cl.Keys <= {"0", "1"}
  }

  /** Every internal node carries usable class counts. */
  predicate CountsRecorded(t: Node) {
    match t
    case Internal(_, cl, c0, c1) => CountsOk(cl) && CountsRecorded(c0) && CountsRecorded(c1)
    case _ => true
  }

  /** `cl.most_common(1)[0][0]`: a label with the largest count. Python leaves
      the order of equal counts unspecified; here a tie goes to "0", the first
      label of the domain. */
  function MostCommon(cl: map<string, nat>): (k: Key)
    requires CountsOk(cl)
    ensures k in cl
    ensures forall j :: j in cl ==> cl[j] <= cl[k]
    ensures k == "1" ==> "0" !in cl || cl["0"] < cl["1"]
  {
    if "0" in cl && ("1" !in cl || cl["1"] <= cl["0"]) then "0"
    else
      assert "1" in cl by {
        var j :| j in cl;
        assert j == "0" || j == "1";
      }
      "1"
  }

  /** The collapse step of `pruneTree`: the internal node at `p` becomes a leaf
      predicting its most common training class. */
  function Collapse(t: Node, p: Path): Node
    requires ValidPath(t, p) && At(t, p).Internal? && CountsOk(At(t, p).cl)
  {
    ReplaceAt(t, p, Leaf(MostCommon(At(t, p).cl)))
  }

  lemma {:induction false} PrefixValid(t: Node, p: Path, q: Path)
    requires ValidPath(t, p) && IsPrefix(q, p)
    ensures ValidPath(t, q)
    decreases p
  {
    if q != [] {
      assert p[0] == q[0];
      assert p[1..][..|q| - 1] == q[1..];
      PrefixValid(Child(t, p[0]), p[1..], q[1..]);
    }
  }

  /** One step further down a path: the child under `k` of the node reached. */
  lemma {:induction false} AtExtend(t: Node, p: Path, k: Key)
    requires ValidPath(t, p) && At(t, p).Internal?
    ensures ValidPath(t, p + [k]) && At(t, p + [k]) == Child(At(t, p), k)
    decreases p
  {
    if p != [] {
      assert (p + [k])[1..] == p[1..] + [k];
      AtExtend(Child(t, p[0]), p[1..], k);
    } else {
      assert ([] + [k])[1..] == [];
    }
  }

  /** The node at the end of a valid path of a well-formed tree is itself a
      well-formed tree, with usable counts if the whole tree has them. */
  lemma {:induction false} AtWellFormed(t: Node, p: Path)
    requires ValidPath(t, p)
    ensures WellFormed(t) ==> WellFormed(At(t, p))
    ensures CountsRecorded(t) ==> CountsRecorded(At(t, p))
    decreases p
  {
    if p != [] {
      AtWellFormed(Child(t, p[0]), p[1..]);
    }
  }

  /** Replacing a subtree changes the internal-node count by exactly the
      difference between the new subtree's count and the old one's. */
  lemma {:induction false} ReplaceAtCount(t: Node, p: Path, n: Node)
    requires WellFormed(t) && ValidPath(t, p) && WellFormed(n)
    ensures WellFormed(At(t, p)) && WellFormed(ReplaceAt(t, p, n))
    ensures InternalCount(ReplaceAt(t, p, n)) + InternalCount(At(t, p)) == InternalCount(t) + InternalCount(n)
    decreases p
  {
    AtWellFormed(t, p);
    if p != [] {
      var c := Child(t, p[0]);
      ReplaceAtCount(c, p[1..], n);
      var r := ReplaceAt(c, p[1..], n);
      assert At(t, p) == At(c, p[1..]);
      assert ReplaceAt(t, p, n) == if p[0] == "0" then t.(child0 := r) else t.(child1 := r);
    }
  }

  lemma {:induction false} ReplaceAtRecorded(t: Node, p: Path, n: Node)
    requires CountsRecorded(t) && ValidPath(t, p) && CountsRecorded(n)
    ensures CountsRecorded(ReplaceAt(t, p, n))
    decreases p
  {
    if p != [] {
      ReplaceAtRecorded(Child(t, p[0]), p[1..], n);
    }
  }

  /** A node off the replaced path, neither above nor below it, is untouched. */
  lemma {:induction false} ReplaceAtElsewhere(t: Node, p: Path, n: Node, q: Path)
    requires ValidPath(t, p) && ValidPath(t, q) && !IsPrefix(p, q) && !IsPrefix(q, p)
    ensures ValidPath(ReplaceAt(t, p, n), q) && At(ReplaceAt(t, p, n), q) == At(t, q)
    decreases p
  {
    assert p != [] && q != [];
    if p[0] == q[0] {
      ReplaceAtElsewhere(Child(t, p[0]), p[1..], n, q[1..]);
    }
  }

  /** A node above the replaced one keeps its attribute and its class counts;
      only the child on the way down changes. */
  lemma {:induction false} ReplaceAtAncestor(t: Node, p: Path, n: Node, q: Path)
    requires ValidPath(t, p) && IsPrefix(q, p) && |q| < |p|
    ensures ValidPath(t, q) && ValidPath(ReplaceAt(t, p, n), q)
    ensures At(t, q).Internal? && At(ReplaceAt(t, p, n), q).Internal?
    ensures At(ReplaceAt(t, p, n), q).attr == At(t, q).attr
    ensures At(ReplaceAt(t, p, n), q).cl == At(t, q).cl
    decreases p
  {
    PrefixValid(t, p, q);
    if q != [] {
      assert p[0] == q[0];
      assert p[1..][..|q| - 1] == q[1..];
      ReplaceAtAncestor(Child(t, p[0]), p[1..], n, q[1..]);
    }
  }

  /** Collapsing an internal node leaves a well-formed tree whose internal
      count drops by exactly the internal nodes of the collapsed subtree, at
      least one; the collapsed position now holds the leaf of its majority
      class. */
  lemma CollapseEffect(t: Node, p: Path)
    requires WellFormed(t) && CountsRecorded(t)
    requires ValidPath(t, p) && At(t, p).Internal? && CountsOk(At(t, p).cl)
    ensures WellFormed(At(t, p)) && WellFormed(Collapse(t, p)) && CountsRecorded(Collapse(t, p))
    ensures InternalCount(Collapse(t, p)) == InternalCount(t) - InternalCount(At(t, p))
    ensures InternalCount(At(t, p)) >= 1
    ensures At(Collapse(t, p), p) == Leaf(MostCommon(At(t, p).cl))
  {
    var leaf := Leaf(MostCommon(At(t, p).cl));
    ReplaceAtCount(t, p, leaf);
    ReplaceAtRecorded(t, p, leaf);
  }
}
