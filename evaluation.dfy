/** `testDecisionTree`: every row walks down the tree from the root, taking at
    each internal node the child keyed by the row's value of the node's
    attribute, until it reaches a leaf; the accuracy is the percentage of
    rows whose leaf predicts their label. */
module Evaluation {
  import opened Common
  import opened Tree

  /** The keys a row follows from the root of `t`: as long as the node is
      internal, names an attribute of the header and the row's value of it is
      a label key, the walk goes on into the child under that key. */
  function Route(t: Node, row: Row, headers: Header): (p: Path)
    requires |row| == |headers|
    ensures ValidPath(t, p)
  {
    match t
    case Internal(attr, _, c0, c1) =>
      if attr in headers && IsKey(row[IndexOf(headers, attr)]) then
        var k: Key := row[IndexOf(headers, attr)];
        assert ValidPath(t, [k] + Route(Child(t, k), row, headers)) by {
          assert ([k] + Route(Child(t, k), row, headers))[1..] == Route(Child(t, k), row, headers);
        }
        [k] + Route(Child(t, k), row, headers)
      else []
    case _ => []
  }

  /** The inner loop of `testDecisionTree`: the class of the leaf the row
      reaches, or the failure that stops the walk. A placeholder has no
      attribute (`headers.index` raises), nor has an internal node whose
      attribute the header lacks; a value without a child under it leaves the
      walk with nothing to step into. */
  function Classify(t: Node, row: Row, headers: Header): (r: Result<string>)
    requires |row| == |headers|
    ensures r.Ok? ==> At(t, Route(t, row, headers)) == Leaf(r.value)
    ensures r == Err(Placeholder) ==> !WellFormed(t)
    ensures r.Err? ==> r.error.Placeholder? || r.error.AttributeNotFound? || r.error.MissingBranch?
  {
    match t
    case Leaf(c) => Ok(c)
    case Empty => Err(Placeholder)
    case Internal(attr, _, c0, c1) =>
      if attr !in headers then Err(AttributeNotFound(attr))
      else
        var value := row[IndexOf(headers, attr)];
        if value == "0" then Classify(c0, row, headers)
        else if value == "1" then Classify(c1, row, headers)
        else Err(MissingBranch(value))
  }

  /** The walk fails only where the program raises: at an attribute the
      header lacks, or at a value that is not a label key; a well-formed tree
      whose attributes the header names classifies every row of label keys,
      and into the label domain when its leaves are. */
  lemma {:induction false} ClassifyErrors(t: Node, row: Row, headers: Header)
    requires |row| == |headers|
    ensures var r := Classify(t, row, headers);
      && (r.Err? && r.error.AttributeNotFound? ==> r.error.attr in Tested(t) && r.error.attr !in headers)
      && (r.Err? && r.error.MissingBranch? ==> r.error.value in row && !IsKey(r.error.value))
      && (r.Ok? && LeavesInDomain(t) ==> IsKey(r.value))
    ensures (WellFormed(t) && (forall a :: a in Tested(t) ==> a in headers)
             && (forall j :: 0 <= j < |row| ==> IsKey(row[j]))) ==> Classify(t, row, headers).Ok?
  {
    match t
    case Internal(attr, _, c0, c1) =>
      if attr in headers {
        ClassifyErrors(c0, row, headers);
        ClassifyErrors(c1, row, headers);
      }
    case _ =>
  }

  /** Whether the tree predicts the row's label, its last field. */
  function Hit(t: Node, row: Row, headers: Header): (r: Result<bool>)
    requires |headers| >= 1 && |row| == |headers|
    ensures r.Ok? <==> Classify(t, row, headers).Ok?
    ensures r.Err? ==> r.error == Classify(t, row, headers).error
    ensures r == Ok(true) <==> Classify(t, row, headers) == Ok(row[|headers| - 1])
  {
    match Classify(t, row, headers)
    case Ok(c) => Ok(c == row[|headers| - 1])
    case Err(e) => Err(e)
  }

  /** `results['1']` after the rows of `data`: the number of rows the tree
      classifies correctly, or the failure of the first row that cannot be
      classified, which ends the test. */
  function Correct(t: Node, data: seq<Row>, headers: Header): (r: Result<nat>)
    requires |headers| >= 1 && Rectangular(data, |headers|)
    ensures r.Ok? ==> r.value <= |data|
  {
    if data == [] then Ok(0)
    else
      var init := data[..|data| - 1];
      var last := data[|data| - 1];
      assert forall i :: 0 <= i < |init| ==> init[i] == data[i];
      match Correct(t, init, headers)
      case Err(e) => Err(e)
      case Ok(m) =>
        match Hit(t, last, headers)
        case Err(e) => Err(e)
        case Ok(hit) => Ok(if hit then m + 1 else m)
  }

  /** The count is defined exactly when every row can be classified. */
  lemma {:induction false} CorrectOk(t: Node, data: seq<Row>, headers: Header)
    requires |headers| >= 1 && Rectangular(data, |headers|)
    ensures Correct(t, data, headers).Ok? <==> forall i :: 0 <= i < |data| ==> Classify(t, data[i], headers).Ok?
  {
    if data != [] {
      var init := data[..|data| - 1];
      assert forall i :: 0 <= i < |init| ==> init[i] == data[i];
      CorrectOk(t, init, headers);
    }
  }

  /** The value `testDecisionTree` returns: the percentage of correctly
      classified rows. An empty data set divides by zero. */
  function Accuracy(t: Node, data: seq<Row>, headers: Header): (r: Result<real>)
    requires |headers| >= 1 && Rectangular(data, |headers|)
    ensures Correct(t, data, headers).Err? ==> r == Err(Correct(t, data, headers).error)
    ensures Correct(t, data, headers).Ok? && |data| == 0 ==> r == Err(DivisionByZero)
    ensures r.Ok? ==> |data| > 0 && 0.0 <= r.value <= 100.0
  {
    match Correct(t, data, headers)
    case Err(e) => Err(e)
    case Ok(m) =>
      if |data| == 0 then Err(DivisionByZero)
      else
        PercentBounds(m, |data|);
        Ok(Percent(m, |data|))
  }

  /** `(m * 100.0) / n`, computed exactly. */
  function Percent(m: nat, n: nat): real
    requires n > 0
  {
    m as real * 100.0 / n as real
  }

  /** A share of `n` rows is a percentage from 0 to 100, the bounds reached
      exactly at none and at all of them. */
  lemma PercentBounds(m: nat, n: nat)
    requires n > 0 && m <= n
    ensures 0.0 <= Percent(m, n) <= 100.0
    ensures Percent(m, n) == 100.0 <==> m == n
    ensures Percent(m, n) == 0.0 <==> m == 0
  {
    var x, a, b := Percent(m, n), m as real, n as real;
    assert x * b == a * 100.0;
    assert x * b <= 100.0 * b;
    assert x == 100.0 ==> a == b;
    assert x == 0.0 ==> a == 0.0;
  }

  /** A failure stops the test at the first row that cannot be classified:
      the failure reported is that row's, and every earlier row was
      classified. */
  lemma {:induction false} CorrectFirstError(t: Node, data: seq<Row>, headers: Header)
    requires |headers| >= 1 && Rectangular(data, |headers|)
    requires Correct(t, data, headers).Err?
    ensures exists i ::
      && 0 <= i < |data|
      && Classify(t, data[i], headers) == Err(Correct(t, data, headers).error)
      && forall j :: 0 <= j < i ==> Classify(t, data[j], headers).Ok?
  {
    var init := data[..|data| - 1];
    assert forall i :: 0 <= i < |init| ==> init[i] == data[i];
    if Correct(t, init, headers).Err? {
      CorrectFirstError(t, init, headers);
      var i :| 0 <= i < |init|
        && Classify(t, init[i], headers) == Err(Correct(t, init, headers).error)
        && forall j :: 0 <= j < i ==> Classify(t, init[j], headers).Ok?;
      assert Classify(t, data[i], headers) == Err(Correct(t, data, headers).error);
    } else {
      var i := |data| - 1;
      CorrectOk(t, init, headers);
      assert forall j :: 0 <= j < i ==> Classify(t, data[j], headers).Ok?;
      assert Classify(t, data[i], headers) == Err(Correct(t, data, headers).error);
    }
  }

  /** Once a prefix of the rows fails, the whole test fails the same way. */
  lemma {:induction false} CorrectPrefixError(t: Node, data: seq<Row>, headers: Header, k: nat)
    requires |headers| >= 1 && Rectangular(data, |headers|) && k <= |data|
    requires Correct(t, data[..k], headers).Err?
    ensures Correct(t, data, headers) == Correct(t, data[..k], headers)
    decreases |data|
  {
    if k < |data| {
      var init := data[..|data| - 1];
      assert init[..k] == data[..k];
      CorrectPrefixError(t, init, headers, k);
    } else {
      assert data[..k] == data;
    }
  }

  /** Every row is classified correctly exactly when the count of correct
      rows is the number of rows. */
  lemma {:induction false} CorrectAll(t: Node, data: seq<Row>, headers: Header)
    requires |headers| >= 1 && Rectangular(data, |headers|)
    ensures Correct(t, data, headers) == Ok(|data|) <==>
      forall i :: 0 <= i < |data| ==> Classify(t, data[i], headers) == Ok(data[i][|headers| - 1])
  {
    if data != [] {
      var init := data[..|data| - 1];
      assert forall i :: 0 <= i < |init| ==> init[i] == data[i];
      CorrectAll(t, init, headers);
    }
  }

  /** No row is classified correctly exactly when the count of correct rows
      is zero. */
  lemma {:induction false} CorrectNone(t: Node, data: seq<Row>, headers: Header)
    requires |headers| >= 1 && Rectangular(data, |headers|)
    ensures Correct(t, data, headers) == Ok(0) <==>
      forall i :: 0 <= i < |data| ==>
        Classify(t, data[i], headers).Ok? && Classify(t, data[i], headers) != Ok(data[i][|headers| - 1])
  {
    if data != [] {
      var init := data[..|data| - 1];
      assert forall i :: 0 <= i < |init| ==> init[i] == data[i];
      CorrectNone(t, init, headers);
    }
  }

  /** The accuracy is 100 exactly when every row is classified correctly,
      and 0 exactly when every row is classified, none correctly. */
  lemma AccuracyExtremes(t: Node, data: seq<Row>, headers: Header)
    requires |headers| >= 1 && Rectangular(data, |headers|) && |data| > 0
    ensures Accuracy(t, data, headers) == Ok(100.0) <==>
      forall i :: 0 <= i < |data| ==> Classify(t, data[i], headers) == Ok(data[i][|headers| - 1])
    ensures Accuracy(t, data, headers) == Ok(0.0) <==>
      forall i :: 0 <= i < |data| ==>
        Classify(t, data[i], headers).Ok? && Classify(t, data[i], headers) != Ok(data[i][|headers| - 1])
  {
    CorrectAll(t, data, headers);
    CorrectNone(t, data, headers);
    if Correct(t, data, headers).Ok? {
      PercentBounds(Correct(t, data, headers).value, |data|);
    }
  }

  /** One more row: its outcome is added to the count of the rows before it. */
  lemma CorrectStep(t: Node, data: seq<Row>, headers: Header, i: nat)
    requires |headers| >= 1 && Rectangular(data, |headers|) && i < |data|
    requires Correct(t, data[..i], headers).Ok?
    ensures Correct(t, data[..i + 1], headers) ==
      match Classify(t, data[i], headers)
      case Err(e) => Err(e)
      case Ok(c) => Ok(Correct(t, data[..i], headers).value + (if c == data[i][|headers| - 1] then 1 else 0))
  {
    assert data[..i + 1][..i] == data[..i];
  }

  /** The count over the first `n` rows, as the loop over the rows keeps it:
      row by row, by position. */
  function CorrectUpTo(t: Node, data: seq<Row>, headers: Header, n: nat): Result<nat>
    requires |headers| >= 1 && Rectangular(data, |headers|) && n <= |data|
  {
    if n == 0 then Ok(0)
    else
      match CorrectUpTo(t, data, headers, n - 1)
      case Err(e) => Err(e)
      case Ok(m) =>
        match Hit(t, data[n - 1], headers)
        case Err(e) => Err(e)
        case Ok(hit) => Ok(if hit then m + 1 else m)
  }

  /** Counting by position is counting the prefix. */
  lemma {:induction false} CorrectUpToPrefix(t: Node, data: seq<Row>, headers: Header, n: nat)
    requires |headers| >= 1 && Rectangular(data, |headers|) && n <= |data|
    ensures CorrectUpTo(t, data, headers, n) == Correct(t, data[..n], headers)
  {
    if n > 0 {
      CorrectUpToPrefix(t, data, headers, n - 1);
      assert data[..n][..n - 1] == data[..n - 1];
    }
  }

  /** A failure among the first `k` rows is the failure of all of them. */
  lemma {:induction false} CorrectUpToError(t: Node, data: seq<Row>, headers: Header, k: nat, n: nat)
    requires |headers| >= 1 && Rectangular(data, |headers|) && k <= n <= |data|
    requires CorrectUpTo(t, data, headers, k).Err?
    ensures CorrectUpTo(t, data, headers, n) == CorrectUpTo(t, data, headers, k)
  {
    if n > k {
      CorrectUpToError(t, data, headers, k, n - 1);
    }
  }

  /** The inner loop of `testDecisionTree`: the walk from the root down to a
      leaf, stopped by the first failure. */
  method Walk(decisionTree: Node, dataItem: Row, headers: Header) returns (r: Result<string>)
    requires |dataItem| == |headers|
    ensures r == Classify(decisionTree, dataItem, headers)
  {
    var currentNode := decisionTree;
    while !currentNode.Leaf?
      invariant Classify(currentNode, dataItem, headers) == Classify(decisionTree, dataItem, headers)
      decreases currentNode
    {
      if currentNode.Empty? {
        return Err(Placeholder);
      } else if currentNode.attr !in headers {
        return Err(AttributeNotFound(currentNode.attr));
      }
      var attrValue := dataItem[IndexOf(headers, currentNode.attr)];
      if attrValue == "0" {
        currentNode := currentNode.child0;
      } else if attrValue == "1" {
        currentNode := currentNode.child1;
      } else {
        return Err(MissingBranch(attrValue));
      }
    }
    return Ok(currentNode.cls);
  }

  /** `testDecisionTree(data, headers, decisionTree)`: the loop over the rows,
      a failure leaving at once. */
  method TestDecisionTree(data: seq<Row>, headers: Header, decisionTree: Node) returns (r: Result<real>)
    requires |headers| >= 1 && Rectangular(data, |headers|)
    ensures r == Accuracy(decisionTree, data, headers)
  {
    var right, wrong := 0, 0;
    for i := 0 to |data|
      invariant CorrectUpTo(decisionTree, data, headers, i) == Ok(right)
      invariant right + wrong == i
    {
      var dataItem := data[i];
      var predicted := Walk(decisionTree, dataItem, headers);
      if predicted.Err? {
        CorrectUpToError(decisionTree, data, headers, i + 1, |data|);
        CorrectUpToPrefix(decisionTree, data, headers, |data|);
        assert data[..|data|] == data;
        return Err(predicted.error);
      }
      if predicted.value == dataItem[|dataItem| - 1] {
        right := right + 1;
      } else {
        wrong := wrong + 1;
      }
    }
    CorrectUpToPrefix(decisionTree, data, headers, |data|);
    assert data[..|data|] == data;
    if |data| == 0 {
      return Err(DivisionByZero);
    }
    return Ok(Percent(right, |data|));
  }
}
