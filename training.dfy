/** `trainDecisionTree`: the recursive builder. Each level tests the attribute
    the gain favours, splits the rows on it and drops its column, so the
    header shrinks by one column per level. */
module Training {
  import opened Common
  import opened Dataset
  import opened Impurity
  import opened Tree

  /** A gain that may be asked of any attribute of any non-empty table. */
  ghost predicate GainTotal(gain: Gain) {
    forall data: seq<Row>, headers: Header, attr: string ::
      |headers| >= 1 && Rectangular(data, |headers|) && |data| > 0 ==> gain.requires(data, headers, attr)
  }

  lemma VarianceGainTotal()
    ensures GainTotal(VarianceGain)
  {
  }

  /** The pure-data test of `trainDecisionTree`: some label accounts for every
      row. Only the first row's label can, so that is the label tested. */
  predicate Pure(data: seq<Row>, l: nat)
    requires HasColumn(data, l)
  {
    |data| > 0 && Count(data, l, data[0][l]) == |data|
  }

  /** The test as the program writes it: some key of the label counter has
      the number of rows as its count. It holds exactly when there are rows
      and they all share one label, and that label is the key found. */
  lemma PureIffCounter(data: seq<Row>, l: nat)
    requires HasColumn(data, l)
    ensures Pure(data, l) <==> exists c :: c in ClassDivision(data, l) && ClassDivision(data, l)[c] == |data|
    ensures Pure(data, l) <==> |data| > 0 && forall i :: 0 <= i < |data| ==> data[i][l] == data[0][l]
    ensures forall c :: c in ClassDivision(data, l) && ClassDivision(data, l)[c] == |data| ==> c == data[0][l]
  {
    var m := ClassDivision(data, l);
    if |data| > 0 {
      CountAll(data, l, data[0][l]);
      ClassDivisionCounts(data, l, data[0][l]);
    }
    forall c | c in m && m[c] == |data| ensures |data| > 0 && c == data[0][l] {
      ClassDivisionCounts(data, l, c);
      CountAll(data, l, c);
      CountPositive(data, l, c);
    }
  }

  lemma GainDefined(gain: Gain, data: seq<Row>, headers: Header)
    requires GainTotal(gain) && |headers| >= 1 && Rectangular(data, |headers|)
    ensures |data| > 0 ==> GainDefinedOn(gain, data, headers)
  {
  }

  /** `trainDecisionTree(data, headers, heuristic)` for a header of at least
      two columns, the heuristic being the attribute of largest `gain`. */
  function Train(data: seq<Row>, headers: Header, gain: Gain): Node
    requires |headers| >= 2 && Rectangular(data, |headers|) && Binary(data) && GainTotal(gain)
    decreases |headers|, 1
  {
    var l := |headers| - 1;
    assert HasColumn(data, l);
    if Pure(data, l) then CreateLeafNode(data[0][l]) else Grow(data, headers, gain)
  }

  /** The rest of `trainDecisionTree`, for rows of mixed labels: the node
      tests the selected attribute and records the label counts; each bucket
      is trained on only when non-empty with more than the label column left,
      and a lone such bucket turns the node into a leaf of its key. */
  function Grow(data: seq<Row>, headers: Header, gain: Gain): Node
    requires |headers| >= 2 && Rectangular(data, |headers|) && Binary(data) && GainTotal(gain)
    decreases |headers|, 0
  {
    var l := |headers| - 1;
    GainDefined(gain, data, headers);
    var attr := SelectBest(data, headers, gain);
    var cl := ClassDivision(data, l);
    PartitionSpec(data, headers, attr);
    PartitionBinary(data, headers, attr);
    var s := Partition(data, headers, attr).value;
    var go0 := |s.rows0| > 0 && |s.headers| > 1;
    var go1 := |s.rows1| > 0 && |s.headers| > 1;
    if go0 && go1 then Internal(attr, cl, Train(s.rows0, s.headers, gain), Train(s.rows1, s.headers, gain))
    else if go0 then CreateLeafNode("0")
    else if go1 then CreateLeafNode("1")
    else CreateInternalNode(attr).(cl := cl)
  }

  /** One level of `trainDecisionTree` on rows of mixed labels: it tests
      `attr`, the attribute of largest gain, partitions the rows into `s`, and
      builds the node from the two buckets. */
  lemma TrainStep(data: seq<Row>, headers: Header, gain: Gain) returns (attr: string, s: Split)
    requires |headers| >= 2 && Rectangular(data, |headers|) && Binary(data) && GainTotal(gain)
    requires !Pure(data, |headers| - 1)
    ensures attr == SelectBest(data, headers, gain) && attr in Attributes(headers)
    ensures IndexOf(headers, attr) == BestAttributeIndex(data, headers, gain)
    ensures Partition(data, headers, attr) == Ok(s)
    ensures s.headers == Delete(headers, IndexOf(headers, attr)) && |s.headers| == |headers| - 1
    ensures Rectangular(s.rows0, |s.headers|) && Rectangular(s.rows1, |s.headers|)
    ensures Binary(s.rows0) && Binary(s.rows1)
    ensures |s.rows0| + |s.rows1| == |data|
    ensures var go0, go1 := |s.rows0| > 0 && |s.headers| > 1, |s.rows1| > 0 && |s.headers| > 1;
      Train(data, headers, gain) ==
        if go0 && go1 then Internal(attr, ClassDivision(data, |headers| - 1), Train(s.rows0, s.headers, gain), Train(s.rows1, s.headers, gain))
        else if go0 then Leaf("0")
        else if go1 then Leaf("1")
        else Internal(attr, ClassDivision(data, |headers| - 1), Empty, Empty)
  {
    GainDefined(gain, data, headers);
    attr := SelectBest(data, headers, gain);
    var pos := BestAttributeIndex(data, headers, gain);
    assert Attributes(headers)[pos] == attr;
    PartitionSpec(data, headers, attr);
    PartitionBinary(data, headers, attr);
    s := Partition(data, headers, attr).value;
  }

  /** The attribute columns of a header: all but the label column. */
  function Attributes(h: Header): seq<string>
    requires |h| >= 1
  {
    h[..|h| - 1]
  }

  /** No attribute is tested again below the node that tests it. */
  predicate NoRetest(t: Node) {
    match t
    case Internal(a, _, c0, c1) => a !in Tested(c0) && a !in Tested(c1) && NoRetest(c0) && NoRetest(c1)
    case _ => true
  }

  /** The number of internal nodes on the longest root-to-leaf path. */
  function Height(t: Node): nat {
    match t
    case Internal(_, _, c0, c1) => 1 + (if Height(c0) < Height(c1) then Height(c1) else Height(c0))
    case _ => 0
  }

  /** Rows that all share label `c` train into the single leaf `c`. */
  lemma TrainPure(data: seq<Row>, headers: Header, gain: Gain, c: string)
    requires |headers| >= 2 && Rectangular(data, |headers|) && Binary(data) && GainTotal(gain)
    requires |data| > 0 && forall i :: 0 <= i < |data| ==> data[i][|headers| - 1] == c
    ensures Train(data, headers, gain) == Leaf(c)
  {
    var l := |headers| - 1;
    assert HasColumn(data, l);
    assert Pure(data, l) && data[0][l] == c by {
      CountAll(data, l, c);
    }
    TrainWhenPure(data, headers, gain);
  }

  /** Rows of one label become a leaf of that label. */
  lemma TrainWhenPure(data: seq<Row>, headers: Header, gain: Gain)
    requires |headers| >= 2 && Rectangular(data, |headers|) && Binary(data) && GainTotal(gain)
    requires HasColumn(data, |headers| - 1) && Pure(data, |headers| - 1)
    ensures Train(data, headers, gain) == Leaf(data[0][|headers| - 1])
  {
  }

  /** On rows that are not all of one label, the root tests the selected
      attribute and records the label counts of all the rows; every internal
      node of a tree trained on rows records usable counts. */
  lemma {:induction false} TrainCounts(data: seq<Row>, headers: Header, gain: Gain)
    requires |headers| >= 2 && Rectangular(data, |headers|) && Binary(data) && GainTotal(gain)
    ensures Train(data, headers, gain).Internal? ==>
      && Train(data, headers, gain).cl == ClassDivision(data, |headers| - 1)
      && Train(data, headers, gain).attr == SelectBest(data, headers, gain)
    ensures |data| > 0 ==> CountsRecorded(Train(data, headers, gain))
    decreases |headers|
  {
    var l := |headers| - 1;
    assert HasColumn(data, l);
    if !Pure(data, l) {
      var attr, s := TrainStep(data, headers, gain);
      if |data| > 0 {
        ClassDivisionOk(data, l);
      }
      if |s.rows0| > 0 && |s.rows1| > 0 && |s.headers| > 1 {
        TrainCounts(s.rows0, s.headers, gain);
        TrainCounts(s.rows1, s.headers, gain);
      }
    }
  }

  /** The shape of a split node, named by atomic results: the selected
      attribute, the label counts it records, the header the children are
      trained on and the two buckets of the partition. */
  lemma TrainShape(data: seq<Row>, headers: Header, gain: Gain) returns (attr: string, cl: map<string, nat>, sh: Header, r0: seq<Row>, r1: seq<Row>)
    requires |headers| >= 2 && Rectangular(data, |headers|) && Binary(data) && GainTotal(gain)
    requires Distinct(headers) && !Pure(data, |headers| - 1)
    ensures attr == SelectBest(data, headers, gain) && cl == ClassDivision(data, |headers| - 1)
    ensures Partition(data, headers, attr) == Ok(Split(r0, r1, sh))
    ensures |sh| == |headers| - 1 && Distinct(sh)
    ensures attr in Attributes(headers) && forall a :: a in Attributes(sh) ==> a in Attributes(headers) && a != attr
    ensures Rectangular(r0, |sh|) && Rectangular(r1, |sh|) && Binary(r0) && Binary(r1)
    ensures Train(data, headers, gain) ==
      if |r0| > 0 && |r1| > 0 && |sh| > 1 then Internal(attr, cl, Train(r0, sh, gain), Train(r1, sh, gain))
      else if |r0| > 0 && |sh| > 1 then Leaf("0")
      else if |r1| > 0 && |sh| > 1 then Leaf("1")
      else Internal(attr, cl, Empty, Empty)
  {
    var s;
    attr, s := TrainStep(data, headers, gain);
    AttributesAfterSplit(headers, IndexOf(headers, attr));
    cl, sh, r0, r1 := ClassDivision(data, |headers| - 1), s.headers, s.rows0, s.rows1;
  }

  /** Only non-label attributes are tested: a node tests the attribute the
      selector picked from the header, and its children are trained on a
      header that is a part of it. */
  lemma {:induction false} TrainTested(data: seq<Row>, headers: Header, gain: Gain)
    requires |headers| >= 2 && Rectangular(data, |headers|) && Binary(data) && GainTotal(gain)
    requires Distinct(headers)
    ensures forall a :: a in Tested(Train(data, headers, gain)) ==> a in Attributes(headers)
    decreases |headers|
  {
    var l := |headers| - 1;
    assert HasColumn(data, l);
    if !Pure(data, l) {
      var attr, cl, sh, r0, r1 := TrainShape(data, headers, gain);
      if |r0| > 0 && |r1| > 0 && |sh| > 1 {
        TrainTested(r0, sh, gain);
        TrainTested(r1, sh, gain);
        SplitTested(attr, cl, Train(r0, sh, gain), Train(r1, sh, gain), Attributes(headers), Attributes(sh));
      }
    }
  }

  /** When the header names no column twice, no attribute is tested twice on
      a root-to-leaf path: a child is trained on the header without its
      parent's attribute. */
  lemma {:induction false} TrainNoRetest(data: seq<Row>, headers: Header, gain: Gain)
    requires |headers| >= 2 && Rectangular(data, |headers|) && Binary(data) && GainTotal(gain)
    requires Distinct(headers)
    ensures NoRetest(Train(data, headers, gain))
    decreases |headers|
  {
    var l := |headers| - 1;
    assert HasColumn(data, l);
    if !Pure(data, l) {
      var attr, cl, sh, r0, r1 := TrainShape(data, headers, gain);
      if |r0| > 0 && |r1| > 0 && |sh| > 1 {
        TrainTested(r0, sh, gain);
        TrainTested(r1, sh, gain);
        TrainNoRetest(r0, sh, gain);
        TrainNoRetest(r1, sh, gain);
        SplitNoRetest(attr, cl, Train(r0, sh, gain), Train(r1, sh, gain), Attributes(sh));
      }
    }
  }

  /** A node testing `a` of `attrs` over subtrees testing only attributes of
      `sub`, a part of `attrs`, tests only attributes of `attrs`. */
  lemma SplitTested(a: string, cl: map<string, nat>, t0: Node, t1: Node, attrs: seq<string>, sub: seq<string>)
    requires a in attrs && forall b :: b in sub ==> b in attrs
    requires forall b :: b in Tested(t0) ==> b in sub
    requires forall b :: b in Tested(t1) ==> b in sub
    ensures forall b :: b in Tested(Internal(a, cl, t0, t1)) ==> b in attrs
  {
  }

  /** A node testing `a` over subtrees that test only attributes other than
      `a`, and none twice on a path, tests none twice on a path. */
  lemma SplitNoRetest(a: string, cl: map<string, nat>, t0: Node, t1: Node, sub: seq<string>)
    requires a !in sub && NoRetest(t0) && NoRetest(t1)
    requires forall b :: b in Tested(t0) ==> b in sub
    requires forall b :: b in Tested(t1) ==> b in sub
    ensures NoRetest(Internal(a, cl, t0, t1))
  {
  }

  /** Deleting the attribute at `pos` from a header without repetitions
      leaves as attributes the old ones other than that one; the header is
      still without repetitions. */
  lemma AttributesAfterSplit(headers: Header, pos: nat)
    requires pos < |headers| - 1 && Distinct(headers)
    ensures headers[pos] in Attributes(headers)
    ensures Distinct(Delete(headers, pos))
    ensures forall a :: a in Attributes(Delete(headers, pos)) ==> a in Attributes(headers) && a != headers[pos]
  {
    var h := Delete(headers, pos);
    DeleteDistinct(headers, pos);
    assert Attributes(headers)[pos] == headers[pos];
    forall a | a in Attributes(h) ensures a in Attributes(headers) && a != headers[pos] {
      var j :| 0 <= j < |h| - 1 && h[j] == a;
      if j < pos {
        assert Attributes(headers)[j] == a;
      } else {
        assert Attributes(headers)[j + 1] == a;
      }
    }
  }

  /** The header loses one column per level, so a tree trained under a
      header of `n` columns tests at most `n - 1` attributes on any path. */
  lemma {:induction false} TrainHeight(data: seq<Row>, headers: Header, gain: Gain)
    requires |headers| >= 2 && Rectangular(data, |headers|) && Binary(data) && GainTotal(gain)
    ensures Height(Train(data, headers, gain)) <= |headers| - 1
    decreases |headers|
  {
    var l := |headers| - 1;
    assert HasColumn(data, l);
    if !Pure(data, l) {
      var attr, s := TrainStep(data, headers, gain);
      if |s.rows0| > 0 && |s.rows1| > 0 && |s.headers| > 1 {
        TrainHeight(s.rows0, s.headers, gain);
        TrainHeight(s.rows1, s.headers, gain);
      }
    }
  }

  /** Every leaf predicts "0" or "1": a pure leaf the rows' shared label, a
      single-branch leaf the value of its branch. */
  lemma {:induction false} TrainLeaves(data: seq<Row>, headers: Header, gain: Gain)
    requires |headers| >= 2 && Rectangular(data, |headers|) && Binary(data) && GainTotal(gain)
    ensures LeavesInDomain(Train(data, headers, gain))
    decreases |headers|
  {
    var l := |headers| - 1;
    assert HasColumn(data, l);
    if !Pure(data, l) {
      var attr, s := TrainStep(data, headers, gain);
      if |s.rows0| > 0 && |s.rows1| > 0 && |s.headers| > 1 {
        TrainLeaves(s.rows0, s.headers, gain);
        TrainLeaves(s.rows1, s.headers, gain);
      }
    }
  }

  /** With a single attribute column left, rows of mixed labels give an
      internal node on that attribute whose children are both still the
      placeholder: the trees counting and evaluation cannot walk. */
  lemma TrainLastAttribute(data: seq<Row>, headers: Header, gain: Gain)
    requires |headers| == 2 && Rectangular(data, 2) && Binary(data) && GainTotal(gain)
    requires exists i, j :: 0 <= i < j < |data| && data[i][1] != data[j][1]
    ensures Train(data, headers, gain) == Internal(headers[0], ClassDivision(data, 1), Empty, Empty)
    ensures !WellFormed(Train(data, headers, gain))
  {
    assert HasColumn(data, 1);
    PureIffCounter(data, 1);
    GainDefined(gain, data, headers);
    PartitionSpec(data, headers, headers[0]);
  }

  /** The bucket of the rows whose first attribute is `k`, that column
      dropped, when the first attribute agrees with the label on every row:
      every row of it carries label `k`. */
  lemma PerfectBucket(data: seq<Row>, headers: Header, k: Key)
    requires |headers| >= 2 && Rectangular(data, |headers|)
    requires forall i :: 0 <= i < |data| ==> data[i][0] == data[i][|headers| - 1]
    ensures var rows := Project(Filter(data, 0, k), 0);
      && Rectangular(rows, |headers| - 1)
      && (forall i :: 0 <= i < |rows| ==> rows[i][|headers| - 2] == k)
  {
    var l := |headers| - 1;
    var sel := Filter(data, 0, k);
    FilterRectangular(data, 0, k, |headers|);
    FilterMembers(data, 0, k);
    forall i | 0 <= i < |sel| ensures sel[i][l] == k {
      var j :| 0 <= j < |data| && data[j] == sel[i];
    }
  }

  /** An attribute column that predicts the label on every row is the first
      of largest variance-impurity gain, so the selector picks it. */
  lemma PerfectFirstSelected(data: seq<Row>, headers: Header)
    requires |headers| >= 2 && Rectangular(data, |headers|) && Binary(data) && |data| > 0
    requires forall i :: 0 <= i < |data| ==> data[i][0] == data[i][|headers| - 1]
    ensures BestAttributeIndex(data, headers, VarianceGain) == 0
  {
    var k := BestAttributeIndex(data, headers, VarianceGain);
    PerfectGain(data, headers, headers[0]);
    VarianceGainRange(data, headers, headers[k]);
  }

  /** Splitting on a first attribute that predicts the label leaves, for a
      label some row carries, a non-empty bucket that trains to a leaf of
      that label. */
  lemma PerfectLeaf(data: seq<Row>, headers: Header, k: Key)
    requires |headers| >= 3 && Rectangular(data, |headers|) && Binary(data)
    requires forall i :: 0 <= i < |data| ==> data[i][0] == data[i][|headers| - 1]
    requires exists i :: 0 <= i < |data| && data[i][|headers| - 1] == k
    ensures Partition(data, headers, headers[0]).Ok?
    ensures var s := Partition(data, headers, headers[0]).value;
      && |s.headers| == |headers| - 1 && Rectangular(s.Rows(k), |s.headers|) && Binary(s.Rows(k))
      && |s.Rows(k)| > 0 && Train(s.Rows(k), s.headers, VarianceGain) == Leaf(k)
  {
    VarianceGainTotal();
    PartitionSpec(data, headers, headers[0]);
    PartitionBinary(data, headers, headers[0]);
    var s := Partition(data, headers, headers[0]).value;
    PerfectBucket(data, headers, k);
    CountPositive(data, 0, k);
    var i :| 0 <= i < |data| && data[i][|headers| - 1] == k;
    assert data[i][0] == k;
    assert Binary(s.Rows(k));
    TrainPure(s.Rows(k), s.headers, VarianceGain, k);
  }

  /** When the first attribute predicts the label on every row and both
      labels occur, the root tests that attribute, and each of its two
      buckets is of one label: the tree is that single test. */
  lemma TrainPerfectFirst(data: seq<Row>, headers: Header)
    requires |headers| >= 3 && Rectangular(data, |headers|) && Binary(data)
    requires forall i :: 0 <= i < |data| ==> data[i][0] == data[i][|headers| - 1]
    requires exists i, j :: 0 <= i < j < |data| && data[i][|headers| - 1] != data[j][|headers| - 1]
    ensures Train(data, headers, VarianceGain) ==
      Internal(headers[0], ClassDivision(data, |headers| - 1), Leaf("0"), Leaf("1"))
  {
    var l := |headers| - 1;
    VarianceGainTotal();
    assert HasColumn(data, l);
    PureIffCounter(data, l);
    PerfectFirstSelected(data, headers);
    BothLabels(data, l);
    PerfectLeaf(data, headers, "0");
    PerfectLeaf(data, headers, "1");
    var attr, s := TrainStep(data, headers, VarianceGain);
    assert attr == headers[0];
    assert Train(s.rows0, s.headers, VarianceGain) == Leaf("0") && Train(s.rows1, s.headers, VarianceGain) == Leaf("1");
  }

  /** Binary rows that do not all share a label hold both labels. */
  lemma BothLabels(data: seq<Row>, l: nat)
    requires HasColumn(data, l) && Binary(data)
    requires exists i, j :: 0 <= i < j < |data| && data[i][l] != data[j][l]
    ensures exists i :: 0 <= i < |data| && data[i][l] == "0"
    ensures exists i :: 0 <= i < |data| && data[i][l] == "1"
  {
    var i, j :| 0 <= i < j < |data| && data[i][l] != data[j][l];
    assert IsKey(data[i][l]) && IsKey(data[j][l]);
    if data[i][l] == "0" {
      assert data[j][l] == "1";
    } else {
      assert data[i][l] == "1" && data[j][l] == "0";
    }
  }

  /** When every row takes the same value `v` on the attribute the gain
      selects and the labels are mixed, one bucket holds every row and the
      other none, and the node becomes a leaf predicting `v`: the value of
      the attribute, not a label of the rows. */
  lemma TrainSingleBranch(data: seq<Row>, headers: Header, gain: Gain, v: string)
    requires |headers| >= 3 && Rectangular(data, |headers|) && Binary(data) && GainTotal(gain)
    requires |data| > 0 && !Pure(data, |headers| - 1)
    requires forall i :: 0 <= i < |data| ==> data[i][BestAttributeIndex(data, headers, gain)] == v
    ensures Train(data, headers, gain) == Leaf(v)
  {
    var attr, s := TrainStep(data, headers, gain);
    var pos := BestAttributeIndex(data, headers, gain);
    assert HasColumn(data, pos);
    CountAll(data, pos, v);
    assert IsKey(data[0][pos]);
    PartitionSpec(data, headers, attr);
    assert |s.Rows(v)| == |data|;
  }
}
