/** The variance-impurity heuristic and the attribute selection shared by both
    heuristics. Impurities are exact `real`s; the program computes them in
    floating point. */
module Impurity {
  import opened Common
  import opened Dataset

  /** The fraction `c / n` of a label among `n` rows. */
  function Fraction(c: nat, n: nat): real
    requires n > 0
  {
    c as real / n as real
  }

  /** The product of the fractions of label "0" and label "1" among `n` rows,
      `c0` and `c1` of them carrying each label. */
  function LabelProduct(c0: nat, c1: nat, n: nat): real
    requires n > 0
  {
    Fraction(c0, n) * Fraction(c1, n)
  }

  /** `getDataVarianceImpurity`: the product of the fractions of label "0" and
      label "1" among the rows, and 0 for no rows. */
  function DataVarianceImpurity(data: seq<Row>, headers: Header): real
    requires |headers| >= 1 && Rectangular(data, |headers|)
  {
    if |data| > 0 then
      var classIndex := |headers| - 1;
      LabelProduct(Count(data, classIndex, "0"), Count(data, classIndex, "1"), |data|)
    else 0.0
  }

  /** The product of the fractions of `labels` under the counter `m`. */
  function FractionProduct(m: map<string, nat>, labels: seq<Key>, n: nat): real
    requires n > 0
  {
    if labels == [] then 1.0
    else FractionProduct(m, labels[..|labels| - 1], n) * Fraction(Tally(m, labels[|labels| - 1]), n)
  }

  /** `getDataVarianceImpurity`, with its counting loop and its loop over the
      label domain. */
  method GetDataVarianceImpurity(data: seq<Row>, headers: Header) returns (varianceImpurity: real)
    requires |headers| >= 1 && Rectangular(data, |headers|)
    ensures varianceImpurity == DataVarianceImpurity(data, headers)
  {
    if |data| == 0 {
      return 0.0;
    }
    var attributeIndex := |headers| - 1;
    assert HasColumn(data, attributeIndex);
    var classCount: map<string, nat> := map[];
    var i := 0;
    while i < |data|
      invariant 0 <= i <= |data|
      invariant classCount == ClassDivision(data[..i], attributeIndex)
    {
      var next := ClassDivisionNext(data, attributeIndex, i, classCount);
      var c := data[i][attributeIndex];
      classCount := classCount[c := Tally(classCount, c) + 1];
      assert classCount == next;
      i := i + 1;
    }
    assert data[..|data|] == data;
    var n := |data|;
    varianceImpurity := 1.0;
    for k := 0 to |DataClasses|
      invariant varianceImpurity == FractionProduct(classCount, DataClasses[..k], n)
    {
      var next := FractionProductStep(classCount, DataClasses, k, n, varianceImpurity);
      varianceImpurity := varianceImpurity * Fraction(Tally(classCount, DataClasses[k]), n);
      assert varianceImpurity == next;
    }
    assert DataClasses[..|DataClasses|] == DataClasses;
    CounterProduct(data, headers, n);
  }

  /** The product over the label domain of the fractions read from the class
      counter of `n` rows is the impurity of those rows. */
  lemma CounterProduct(data: seq<Row>, headers: Header, n: nat)
    requires |headers| >= 1 && Rectangular(data, |headers|) && |data| == n > 0
    ensures FractionProduct(ClassDivision(data, |headers| - 1), DataClasses, n) == DataVarianceImpurity(data, headers)
  {
    var l := |headers| - 1;
    assert HasColumn(data, l);
    CounterProductOfColumn(data, l, Count(data, l, "0"), Count(data, l, "1"), n);
  }

  lemma CounterProductOfColumn(data: seq<Row>, l: nat, c0: nat, c1: nat, n: nat)
    requires HasColumn(data, l) && |data| == n > 0 && c0 == Count(data, l, "0") && c1 == Count(data, l, "1")
    ensures FractionProduct(ClassDivision(data, l), DataClasses, n) == LabelProduct(c0, c1, n)
  {
    ClassDivisionCounts(data, l, "0");
    ClassDivisionCounts(data, l, "1");
    FractionProductOfDomain(ClassDivision(data, l), c0, c1, n);
  }

  /** Over the two-label domain the product is the product of the two
      label fractions. */
  lemma FractionProductOfDomain(m: map<string, nat>, c0: nat, c1: nat, n: nat)
    requires n > 0 && Tally(m, "0") == c0 && Tally(m, "1") == c1
    ensures FractionProduct(m, DataClasses, n) == LabelProduct(c0, c1, n)
  {
    var f0, f1 := Fraction(c0, n), Fraction(c1, n);
    assert DataClasses[..1] == ["0"] && DataClasses[1] == "1";
    assert ["0"][..0] == [] && ["0"][0] == "0";
    assert FractionProduct(m, [], n) == 1.0;
    assert FractionProduct(m, ["0"], n) == 1.0 * f0;
    assert FractionProduct(m, DataClasses, n) == FractionProduct(m, ["0"], n) * f1;
  }

  /** `getVarianceImpurityOfAttribute(data, headers, attr, value)`: over the rows
      whose `attr` field is `value`, the product of the two label fractions,
      except that the result is 0 as soon as one label is absent; paired with
      the number of those rows. */
  function SubsetVarianceImpurity(data: seq<Row>, headers: Header, attr: string, value: string): (real, nat)
    requires |headers| >= 1 && Rectangular(data, |headers|) && attr in headers
  {
    var subset := Filter(data, IndexOf(headers, attr), value);
    var classIndex := |headers| - 1;
    FilterHasColumn(data, IndexOf(headers, attr), value, classIndex);
    var c0, c1 := Count(subset, classIndex, "0"), Count(subset, classIndex, "1");
    if c0 > 0 && c1 > 0 then (LabelProduct(c0, c1, |subset|), |subset|)
    else (0.0, |subset|)
  }

  /** The counting loop of `getVarianceImpurityOfAttribute`: the class counter
      and the number of the rows whose field at `attributeIndex` is `value`. */
  method CountSelected(data: seq<Row>, attributeIndex: nat, classIndex: nat, value: string)
    returns (classCount: map<string, nat>, size: nat)
    requires HasColumn(data, attributeIndex) && HasColumn(data, classIndex)
    ensures HasColumn(Filter(data, attributeIndex, value), classIndex)
    ensures classCount == ClassDivision(Filter(data, attributeIndex, value), classIndex)
    ensures size == |Filter(data, attributeIndex, value)|
  {
    classCount := map[];
    size := 0;
    var i := 0;
    while i < |data|
      invariant 0 <= i <= |data|
      invariant HasColumn(Filter(data[..i], attributeIndex, value), classIndex)
      invariant classCount == ClassDivision(Filter(data[..i], attributeIndex, value), classIndex)
      invariant size == |Filter(data[..i], attributeIndex, value)|
    {
      var next, grown := CountSelectedNext(data, attributeIndex, classIndex, value, i, classCount, size);
      if data[i][attributeIndex] == value {
        var c := data[i][classIndex];
        classCount := classCount[c := Tally(classCount, c) + 1];
        size := size + 1;
      }
      assert classCount == next && size == grown;
      i := i + 1;
    }
    assert data[..|data|] == data;
  }

  /** One turn of the counting loop: a row holding `value` adds one under its
      label and to the size; any other row changes neither. */
  lemma CountSelectedStep(data: seq<Row>, col: nat, classIndex: nat, value: string, i: nat)
    requires HasColumn(data, col) && HasColumn(data, classIndex) && i < |data|
    ensures HasColumn(Filter(data[..i], col, value), classIndex)
    ensures HasColumn(Filter(data[..i + 1], col, value), classIndex)
    ensures var before := ClassDivision(Filter(data[..i], col, value), classIndex);
      ClassDivision(Filter(data[..i + 1], col, value), classIndex)
      == if data[i][col] == value then before[data[i][classIndex] := Tally(before, data[i][classIndex]) + 1] else before
    ensures |Filter(data[..i + 1], col, value)|
      == |Filter(data[..i], col, value)| + (if data[i][col] == value then 1 else 0)
  {
    FilterStep(data, col, value, i, classIndex);
    FilterHasColumn(data[..i], col, value, classIndex);
    if data[i][col] == value {
      ClassDivisionAppend(Filter(data[..i], col, value), data[i], classIndex);
    }
  }

  /** The counter and the count after row `i`, from those before it. */
  lemma CountSelectedNext(data: seq<Row>, col: nat, classIndex: nat, value: string, i: nat, before: map<string, nat>, size: nat)
    returns (after: map<string, nat>, grown: nat)
    requires HasColumn(data, col) && HasColumn(data, classIndex) && i < |data|
    requires HasColumn(Filter(data[..i], col, value), classIndex)
    requires before == ClassDivision(Filter(data[..i], col, value), classIndex)
    requires size == |Filter(data[..i], col, value)|
    ensures HasColumn(Filter(data[..i + 1], col, value), classIndex)
    ensures after == ClassDivision(Filter(data[..i + 1], col, value), classIndex)
    ensures grown == |Filter(data[..i + 1], col, value)|
    ensures after == if data[i][col] == value then before[data[i][classIndex] := Tally(before, data[i][classIndex]) + 1] else before
    ensures grown == size + (if data[i][col] == value then 1 else 0)
  {
    CountSelectedStep(data, col, classIndex, value, i);
    if data[i][col] == value {
      after := before[data[i][classIndex] := Tally(before, data[i][classIndex]) + 1];
      grown := size + 1;
    } else {
      after, grown := before, size;
    }
  }

  /** `getVarianceImpurityOfAttribute`, with its loop over the label domain
      that returns early on an absent label. */
  method GetVarianceImpurityOfAttribute(data: seq<Row>, headers: Header, attr: string, value: string)
    returns (varianceImpurity: real, size: nat)
    requires |headers| >= 1 && Rectangular(data, |headers|) && attr in headers
    ensures (varianceImpurity, size) == SubsetVarianceImpurity(data, headers, attr, value)
  {
    var attributeIndex := IndexOf(headers, attr);
    var classIndex := |headers| - 1;
    assert HasColumn(data, attributeIndex) && HasColumn(data, classIndex);
    var classCount;
    classCount, size := CountSelected(data, attributeIndex, classIndex, value);
    varianceImpurity := 1.0;
    for k := 0 to |DataClasses|
      invariant size > 0 ==> varianceImpurity == FractionProduct(classCount, DataClasses[..k], size)
      invariant forall j :: 0 <= j < k ==> Tally(classCount, DataClasses[j]) > 0
    {
      if Tally(classCount, DataClasses[k]) > 0 {
        var next := FractionProductStep(classCount, DataClasses, k, size, varianceImpurity);
        varianceImpurity := varianceImpurity * Fraction(Tally(classCount, DataClasses[k]), size);
        assert varianceImpurity == next;
      } else {
        SubsetFromCounter(data, headers, attr, value, classCount, size);
        return 0.0, size;
      }
    }
    assert DataClasses[..|DataClasses|] == DataClasses;
    assert Tally(classCount, DataClasses[0]) > 0 && Tally(classCount, DataClasses[1]) > 0;
    SubsetFromCounter(data, headers, attr, value, classCount, size);
  }

  /** The per-value impurity read off the class counter of the `n` selected
      rows: the product over the label domain when both labels occur, else 0. */
  lemma SubsetFromCounter(data: seq<Row>, headers: Header, attr: string, value: string, m: map<string, nat>, n: nat)
    requires |headers| >= 1 && Rectangular(data, |headers|) && attr in headers
    requires HasColumn(Filter(data, IndexOf(headers, attr), value), |headers| - 1)
    requires m == ClassDivision(Filter(data, IndexOf(headers, attr), value), |headers| - 1)
    requires n == |Filter(data, IndexOf(headers, attr), value)|
    ensures Tally(m, "0") > 0 ==> n > 0
    ensures SubsetVarianceImpurity(data, headers, attr, value)
      == if Tally(m, "0") > 0 && Tally(m, "1") > 0 then (FractionProduct(m, DataClasses, n), n) else (0.0, n)
  {
    var pos, l := IndexOf(headers, attr), |headers| - 1;
    var subset := Filter(data, pos, value);
    var c0, c1 := Count(subset, l, "0"), Count(subset, l, "1");
    ClassDivisionCounts(subset, l, "0");
    ClassDivisionCounts(subset, l, "1");
    SubsetImpurityOfCounts(data, headers, attr, value, c0, c1, n);
    if n > 0 {
      CounterProductOfColumn(subset, l, c0, c1, n);
    } else {
      assert subset == [];
    }
  }

  /** One more label multiplies the product by that label's fraction. */
  lemma FractionProductStep(m: map<string, nat>, labels: seq<Key>, k: nat, n: nat, acc: real) returns (next: real)
    requires k < |labels| && n > 0 && acc == FractionProduct(m, labels[..k], n)
    ensures next == acc * Fraction(Tally(m, labels[k]), n)
    ensures next == FractionProduct(m, labels[..k + 1], n)
  {
    assert labels[..k + 1][..k] == labels[..k];
    next := acc * Fraction(Tally(m, labels[k]), n);
  }

  /** Counting one more row adds one under its value. */
  lemma ClassDivisionAppend(rows: seq<Row>, row: Row, col: nat)
    requires HasColumn(rows, col) && col < |row|
    ensures HasColumn(rows + [row], col)
    ensures ClassDivision(rows + [row], col) == ClassDivision(rows, col)[row[col] := Tally(ClassDivision(rows, col), row[col]) + 1]
  {
    assert (rows + [row])[..|rows|] == rows;
  }

  /** One more row extends the selection by that row when it matches. */
  lemma FilterStep(data: seq<Row>, col: nat, v: string, i: nat, other: nat)
    requires HasColumn(data, col) && HasColumn(data, other) && i < |data|
    ensures HasColumn(data[..i], col) && HasColumn(data[..i + 1], col)
    ensures data[i][col] == v ==> Filter(data[..i + 1], col, v) == Filter(data[..i], col, v) + [data[i]]
    ensures data[i][col] != v ==> Filter(data[..i + 1], col, v) == Filter(data[..i], col, v)
    ensures HasColumn(Filter(data[..i + 1], col, v), other)
  {
    assert data[..i + 1][..i] == data[..i];
    FilterHasColumn(data[..i + 1], col, v, other);
  }

  /** An impurity paired with the size of its rows, weighted by the share of
      `n` rows those rows make up. */
  function Weighted(r: (real, nat), n: nat): real
    requires n > 0
  {
    Fraction(r.1, n) * r.0
  }

  /** `getVIGainOnAttribute`: the whole-set impurity minus the impurities of
      the rows with `attr` = "1" and with `attr` = "0", each weighted by its
      share of the rows; 0 for an attribute the header does not name. */
  function VarianceGain(data: seq<Row>, headers: Header, attr: string): real
    requires |headers| >= 1 && Rectangular(data, |headers|) && |data| > 0
  {
    if attr in headers then
      var positive := SubsetVarianceImpurity(data, headers, attr, "1");
      var negative := SubsetVarianceImpurity(data, headers, attr, "0");
      DataVarianceImpurity(data, headers) - (Weighted(positive, |data|) + Weighted(negative, |data|))
    else 0.0
  }

  /** Two fractions of the same rows that add up to one have a product between
      0 and 1/4: 0 exactly when one of them is 0, 1/4 exactly when they are
      equal. */
  lemma FractionProductBounds(a: nat, b: nat)
    requires a + b > 0
    ensures var p := LabelProduct(a, b, a + b);
      && 0.0 <= p <= 0.25
      && (p == 0.0 <==> a == 0 || b == 0)
      && (p == 0.25 <==> a == b)
  {
    var n := (a + b) as real;
    var x, y := a as real / n, b as real / n;
    assert x + y == 1.0;
    assert y == 1.0 - x;
    assert 0.25 - x * y == (x - 0.5) * (x - 0.5);
    assert x == 0.5 <==> a == b;
    assert x * y == 0.0 <==> x == 0.0 || y == 0.0;
  }

  /** The values the program's variance impurity takes on rows labelled over
      the domain: 0 for no rows; otherwise between 0 and 1/4, 0 exactly on
      rows sharing one label and 1/4 exactly on an even split. */
  lemma DataVarianceImpurityRange(data: seq<Row>, headers: Header)
    requires |headers| >= 1 && Rectangular(data, |headers|) && Binary(data)
    ensures |data| == 0 ==> DataVarianceImpurity(data, headers) == 0.0
    ensures 0.0 <= DataVarianceImpurity(data, headers) <= 0.25
    ensures |data| > 0 ==>
      var l := |headers| - 1;
      && (DataVarianceImpurity(data, headers) == 0.0 <==> Count(data, l, "0") == 0 || Count(data, l, "1") == 0)
      && (DataVarianceImpurity(data, headers) == 0.25 <==> Count(data, l, "0") == Count(data, l, "1"))
  {
    if |data| > 0 {
      var l := |headers| - 1;
      CountsSum(data, l);
      FractionProductBounds(Count(data, l, "0"), Count(data, l, "1"));
    }
  }

  /** The early return for an absent label does not change the value: on rows
      labelled over the domain, the per-value impurity is the whole-set
      impurity of the rows carrying that value, and the size is their number. */
  lemma SubsetVarianceImpurityIsImpurityOfSubset(data: seq<Row>, headers: Header, attr: string, value: string)
    requires |headers| >= 1 && Rectangular(data, |headers|) && attr in headers && Binary(data)
    ensures var subset := Filter(data, IndexOf(headers, attr), value);
      && Rectangular(subset, |headers|)
      && SubsetVarianceImpurity(data, headers, attr, value) == (DataVarianceImpurity(subset, headers), |subset|)
  {
    var pos, l := IndexOf(headers, attr), |headers| - 1;
    var subset := Filter(data, pos, value);
    FilterHasColumn(data, pos, value, l);
    FilterBinary(data, pos, value);
    FilterRectangular(data, pos, value, |headers|);
    var c0, c1, n := Count(subset, l, "0"), Count(subset, l, "1"), |subset|;
    CountsSum(subset, l);
    SubsetImpurityOfCounts(data, headers, attr, value, c0, c1, n);
    DataVarianceImpurityOfCounts(subset, headers, c0, c1, n);
    EarlyReturnAgrees(SubsetVarianceImpurity(data, headers, attr, value), DataVarianceImpurity(subset, headers), c0, c1, n);
  }

  /** Returning 0 as soon as one label is absent gives the plain product of
      the two fractions: `r` is the early-returning result over `n` rows with
      label counts `c0`, `c1`, and `d` the plain product. */
  lemma EarlyReturnAgrees(r: (real, nat), d: real, c0: nat, c1: nat, n: nat)
    requires n == c0 + c1
    requires r.1 == n && r.0 == if c0 > 0 && c1 > 0 then LabelProduct(c0, c1, r.1) else 0.0
    requires d == if n > 0 then LabelProduct(c0, c1, n) else 0.0
    ensures r == (d, n)
  {
    if n > 0 && !(c0 > 0 && c1 > 0) {
      assert Fraction(c0, n) == 0.0 || Fraction(c1, n) == 0.0;
    }
    assert r.0 == d;
    assert r == (r.0, r.1);
  }

  /** `getVarianceImpurityOfAttribute` in terms of the two label counts `c0`,
      `c1` of the `n` selected rows. */
  lemma SubsetImpurityOfCounts(data: seq<Row>, headers: Header, attr: string, value: string, c0: nat, c1: nat, n: nat)
    requires |headers| >= 1 && Rectangular(data, |headers|) && attr in headers
    requires HasColumn(Filter(data, IndexOf(headers, attr), value), |headers| - 1)
    requires c0 == Count(Filter(data, IndexOf(headers, attr), value), |headers| - 1, "0")
    requires c1 == Count(Filter(data, IndexOf(headers, attr), value), |headers| - 1, "1")
    requires n == |Filter(data, IndexOf(headers, attr), value)|
    ensures var r := SubsetVarianceImpurity(data, headers, attr, value);
      && r.1 == n
      && r.0 == if c0 > 0 && c1 > 0 then LabelProduct(c0, c1, r.1) else 0.0
  {
    var r := SubsetVarianceImpurity(data, headers, attr, value);
    assert r.1 == n;
    if c0 > 0 && c1 > 0 {
      assert r.0 == LabelProduct(c0, c1, n);
    } else {
      assert r.0 == 0.0;
    }
  }

  /** `getDataVarianceImpurity` in terms of the two label counts `c0`, `c1` of
      the `n` rows. */
  lemma DataVarianceImpurityOfCounts(data: seq<Row>, headers: Header, c0: nat, c1: nat, n: nat)
    requires |headers| >= 1 && Rectangular(data, |headers|) && HasColumn(data, |headers| - 1)
    requires c0 == Count(data, |headers| - 1, "0") && c1 == Count(data, |headers| - 1, "1") && n == |data|
    ensures DataVarianceImpurity(data, headers) == if n > 0 then LabelProduct(c0, c1, n) else 0.0
  {
  }

  lemma MulNonNeg(a: real, b: real)
    requires a >= 0.0 && b >= 0.0
    ensures a * b >= 0.0
  {}

  lemma MulPositive(a: real, b: real)
    requires a > 0.0 && b > 0.0
    ensures a * b > 0.0
  {}

  lemma SquareNonNeg(d: real)
    ensures d * d >= 0.0
  {
    if d < 0.0 { MulNonNeg(-d, -d); } else { MulNonNeg(d, d); }
  }

  lemma SignOfFactor(x: real, p: real)
    requires p > 0.0 && x * p >= 0.0
    ensures x >= 0.0
  {
    if x < 0.0 { MulPositive(-x, p); }
  }

  lemma Scale(u: real, v: real, k: real)
    requires u == v
    ensures u * k == v * k
  {}

  lemma Regroup(a: real, n: real, s: real, t: real)
    ensures a * ((n * n) * (s * t)) == (a * (n * s)) * (n * t)
    ensures a * ((n * n) * (s * t)) == (a * (n * n)) * (s * t)
  {}

  lemma SplitIdentity(x0: real, x1: real, y0: real, y1: real)
    ensures (x0 + y0) * (x1 + y1) * ((x0 + x1) * (y0 + y1))
         - (x0 * x1) * ((x0 + x1 + y0 + y1) * (y0 + y1)) - (y0 * y1) * ((x0 + x1 + y0 + y1) * (x0 + x1))
         == (x0 * y1 - x1 * y0) * (x0 * y1 - x1 * y0)
  {}

  /** The division-free core of the split bound: with `a`, `b`, `w` the two
      weighted side impurities and the whole impurity, cleared of their
      denominators. */
  lemma ClearedSplitBound(a: real, b: real, w: real, x0: real, x1: real, y0: real, y1: real, s: real, t: real, n: real)
    requires s == x0 + x1 && t == y0 + y1 && n == s + t
    requires s > 0.0 && t > 0.0
    requires a * (n * s) == x0 * x1
    requires b * (n * t) == y0 * y1
    requires w * (n * n) == (x0 + y0) * (x1 + y1)
    ensures a + b <= w
  {
    MulPositive(n, n);
    MulPositive(s, t);
    var nn, st := n * n, s * t;
    MulPositive(nn, st);
    var p := nn * st;
    Regroup(w, n, s, t);
    Regroup(a, n, s, t);
    Regroup(b, n, t, s);
    assert (n * n) * (t * s) == p;
    Scale(w * (n * n), (x0 + y0) * (x1 + y1), s * t);
    Scale(a * (n * s), x0 * x1, n * t);
    Scale(b * (n * t), y0 * y1, n * s);
    SplitIdentity(x0, x1, y0, y1);
    var d := x0 * y1 - x1 * y0;
    assert (w - a - b) * p == d * d;
    SquareNonNeg(d);
    SignOfFactor(w - a - b, p);
  }

  /** The split bound over the reals: with `x0`, `x1` the label counts on one
      side and `y0`, `y1` on the other, both sides non-empty. */
  lemma SplitBoundReal(x0: real, x1: real, y0: real, y1: real)
    requires x0 >= 0.0 && x1 >= 0.0 && y0 >= 0.0 && y1 >= 0.0
    requires x0 + x1 > 0.0 && y0 + y1 > 0.0
    ensures var s, t := x0 + x1, y0 + y1;
      var n := s + t;
      (s / n) * ((x0 / s) * (x1 / s)) + (t / n) * ((y0 / t) * (y1 / t)) <= ((x0 + y0) / n) * ((x1 + y1) / n)
  {
    var s, t := x0 + x1, y0 + y1;
    var n := s + t;
    var a := (s / n) * ((x0 / s) * (x1 / s));
    var b := (t / n) * ((y0 / t) * (y1 / t));
    var w := ((x0 + y0) / n) * ((x1 + y1) / n);
    assert a * (n * s) == x0 * x1;
    assert b * (n * t) == y0 * y1;
    assert w * (n * n) == (x0 + y0) * (x1 + y1);
    ClearedSplitBound(a, b, w, x0, x1, y0, y1, s, t, n);
  }

  /** The weighted impurity of one side of a split with label counts `c0`,
      `c1`, out of `n` rows in all. */
  function SideImpurity(c0: nat, c1: nat, n: nat): real
    requires n > 0
  {
    if c0 + c1 > 0 then Fraction(c0 + c1, n) * LabelProduct(c0, c1, c0 + c1) else 0.0
  }

  /** A side impurity is never negative, and a side with no rows weighs
      nothing. */
  lemma SideImpurityNonNeg(c0: nat, c1: nat, n: nat)
    requires n > 0
    ensures SideImpurity(c0, c1, n) >= 0.0
  {
    if c0 + c1 > 0 {
      MulNonNeg(Fraction(c0, c0 + c1), Fraction(c1, c0 + c1));
      MulNonNeg(Fraction(c0 + c1, n), LabelProduct(c0, c1, c0 + c1));
    }
  }

  /** A split that leaves one side empty has the impurity of the whole on the
      other side. */
  lemma OneSided(c0: nat, c1: nat, n: nat)
    requires n == c0 + c1 > 0
    ensures SideImpurity(c0, c1, n) == LabelProduct(c0, c1, n)
  {
    var r := n as real;
    assert r > 0.0 && r / r == 1.0;
    assert Fraction(n, n) == 1.0;
  }

  /** The weighted impurity of a two-way split never exceeds the impurity of
      the whole, where one side has label counts (a0, a1) and the other
      (b0, b1). */
  lemma SplitImpurityBound(a0: nat, a1: nat, b0: nat, b1: nat, c0: nat, c1: nat, n: nat)
    requires n == a0 + a1 + b0 + b1 > 0 && c0 == a0 + b0 && c1 == a1 + b1
    ensures 0.0 <= SideImpurity(a0, a1, n) + SideImpurity(b0, b1, n) <= LabelProduct(c0, c1, n)
  {
    SideImpurityNonNeg(a0, a1, n);
    SideImpurityNonNeg(b0, b1, n);
    if a0 + a1 == 0 {
      assert a0 == 0 && a1 == 0 && b0 + b1 == n;
      OneSided(b0, b1, n);
    } else if b0 + b1 == 0 {
      assert b0 == 0 && b1 == 0 && a0 + a1 == n;
      OneSided(a0, a1, n);
    } else {
      var x0, x1, y0, y1 := a0 as real, a1 as real, b0 as real, b1 as real;
      SplitBoundReal(x0, x1, y0, y1);
      assert (a0 + a1) as real == x0 + x1 && (b0 + b1) as real == y0 + y1;
      assert n as real == (x0 + x1) + (y0 + y1);
      assert (a0 + b0) as real == x0 + y0 && (a1 + b1) as real == x1 + y1;
    }
  }

  /** On data over the label domain the variance gain of every attribute lies
      between 0 and the impurity of the whole set: splitting never increases
      impurity. */
  lemma VarianceGainRange(data: seq<Row>, headers: Header, attr: string)
    requires |headers| >= 1 && Rectangular(data, |headers|) && |data| > 0 && Binary(data)
    ensures 0.0 <= VarianceGain(data, headers, attr) <= DataVarianceImpurity(data, headers)
  {
    if attr in headers {
      SplitGainRange(data, headers, attr);
    } else {
      DataVarianceImpurityRange(data, headers);
    }
  }

  /** The gain bounds for an attribute the header names. */
  lemma SplitGainRange(data: seq<Row>, headers: Header, attr: string)
    requires |headers| >= 1 && Rectangular(data, |headers|) && |data| > 0 && Binary(data) && attr in headers
    ensures 0.0 <= VarianceGain(data, headers, attr) <= DataVarianceImpurity(data, headers)
  {
    var gain, dvi, wn, wp, a0, a1, b0, b1, c0, c1, n := GainTerms(data, headers, attr);
    GainBound(gain, dvi, wn, wp, a0, a1, b0, b1, c0, c1, n);
  }

  /** The gain on an attribute of the header, and the whole-set impurity,
      written over the label counts `a0`, `a1` and `b0`, `b1` of the two
      sides of the split. */
  lemma GainTerms(data: seq<Row>, headers: Header, attr: string)
    returns (gain: real, dvi: real, wn: real, wp: real, a0: nat, a1: nat, b0: nat, b1: nat, c0: nat, c1: nat, n: nat)
    requires |headers| >= 1 && Rectangular(data, |headers|) && |data| > 0 && Binary(data) && attr in headers
    ensures var pos, l := IndexOf(headers, attr), |headers| - 1;
      && HasColumn(Filter(data, pos, "0"), l) && HasColumn(Filter(data, pos, "1"), l)
      && a0 == Count(Filter(data, pos, "0"), l, "0") && a1 == Count(Filter(data, pos, "0"), l, "1")
      && b0 == Count(Filter(data, pos, "1"), l, "0") && b1 == Count(Filter(data, pos, "1"), l, "1")
    ensures gain == VarianceGain(data, headers, attr) && dvi == DataVarianceImpurity(data, headers)
    ensures n == |data| == a0 + a1 + b0 + b1 && c0 == a0 + b0 && c1 == a1 + b1
    ensures wn == SideImpurity(a0, a1, n) && wp == SideImpurity(b0, b1, n)
    ensures dvi == SideImpurity(c0, c1, n)
    ensures gain == dvi - (wp + wn)
  {
    n := |data|;
    gain, dvi := VarianceGain(data, headers, attr), DataVarianceImpurity(data, headers);
    wn := Weighted(SubsetVarianceImpurity(data, headers, attr, "0"), n);
    wp := Weighted(SubsetVarianceImpurity(data, headers, attr, "1"), n);
    VarianceGainOfSides(data, headers, attr);
    assert gain == dvi - (wp + wn);
    a0, a1, b0, b1 := SplitSides(data, headers, attr);
    c0, c1 := a0 + b0, a1 + b1;
    ImpurityAsSide(data, headers);
    assert dvi == SideImpurity(c0, c1, n);
  }

  /** The impurity of the whole set is the side impurity of its own label
      counts out of its own size. */
  lemma ImpurityAsSide(data: seq<Row>, headers: Header)
    requires |headers| >= 1 && Rectangular(data, |headers|) && |data| > 0 && Binary(data)
    ensures HasColumn(data, |headers| - 1)
    ensures DataVarianceImpurity(data, headers)
         == SideImpurity(Count(data, |headers| - 1, "0"), Count(data, |headers| - 1, "1"), |data|)
  {
    var l := |headers| - 1;
    assert HasColumn(data, l);
    var c0, c1 := Count(data, l, "0"), Count(data, l, "1");
    CountsSum(data, l);
    DataVarianceImpurityOfCounts(data, headers, c0, c1, |data|);
    OneSided(c0, c1, |data|);
  }

  /** The gain as the whole-set impurity minus the two weighted terms. */
  lemma VarianceGainOfSides(data: seq<Row>, headers: Header, attr: string)
    requires |headers| >= 1 && Rectangular(data, |headers|) && |data| > 0 && attr in headers
    ensures var rn, rp := SubsetVarianceImpurity(data, headers, attr, "0"), SubsetVarianceImpurity(data, headers, attr, "1");
      VarianceGain(data, headers, attr) == DataVarianceImpurity(data, headers) - (Weighted(rp, |data|) + Weighted(rn, |data|))
  {
  }

  /** Splitting on `attr` sends label counts `a0`, `a1` to the side of value
      "0" and `b0`, `b1` to the side of value "1"; each weighted term is the
      side impurity of its counts. */
  lemma SplitSides(data: seq<Row>, headers: Header, attr: string) returns (a0: nat, a1: nat, b0: nat, b1: nat)
    requires |headers| >= 1 && Rectangular(data, |headers|) && |data| > 0 && attr in headers && Binary(data)
    ensures var pos, l := IndexOf(headers, attr), |headers| - 1;
      && HasColumn(Filter(data, pos, "0"), l) && HasColumn(Filter(data, pos, "1"), l)
      && a0 == Count(Filter(data, pos, "0"), l, "0") && a1 == Count(Filter(data, pos, "0"), l, "1")
      && b0 == Count(Filter(data, pos, "1"), l, "0") && b1 == Count(Filter(data, pos, "1"), l, "1")
    ensures var l := |headers| - 1;
      && HasColumn(data, l)
      && |data| == a0 + a1 + b0 + b1
      && Count(data, l, "0") == a0 + b0 && Count(data, l, "1") == a1 + b1
    ensures var rn := SubsetVarianceImpurity(data, headers, attr, "0");
      Weighted(rn, |data|) == SideImpurity(a0, a1, |data|)
    ensures var rp := SubsetVarianceImpurity(data, headers, attr, "1");
      Weighted(rp, |data|) == SideImpurity(b0, b1, |data|)
  {
    SplitCounts(data, headers, attr);
    a0, a1 := WeightedSubset(data, headers, attr, "0");
    b0, b1 := WeightedSubset(data, headers, attr, "1");
  }

  /** The gain is bounded once the two weighted terms are the side
      impurities of a split of the label counts `c0`, `c1`. */
  lemma GainBound(gain: real, dvi: real, wn: real, wp: real, a0: nat, a1: nat, b0: nat, b1: nat, c0: nat, c1: nat, n: nat)
    requires n == a0 + a1 + b0 + b1 > 0 && c0 == a0 + b0 && c1 == a1 + b1
    requires wn == SideImpurity(a0, a1, n) && wp == SideImpurity(b0, b1, n)
    requires dvi == SideImpurity(c0, c1, n)
    requires gain == dvi - (wp + wn)
    ensures 0.0 <= gain <= dvi
  {
    OneSided(c0, c1, n);
    SplitImpurityBound(a0, a1, b0, b1, c0, c1, n);
  }

  /** The weighted term the gain subtracts for one value of an attribute is
      the side impurity of the label counts of the rows carrying that value. */
  lemma WeightedSubset(data: seq<Row>, headers: Header, attr: string, value: string) returns (c0: nat, c1: nat)
    requires |headers| >= 1 && Rectangular(data, |headers|) && attr in headers && Binary(data) && |data| > 0
    ensures var subset := Filter(data, IndexOf(headers, attr), value);
      var l := |headers| - 1;
      && HasColumn(subset, l)
      && c0 == Count(subset, l, "0") && c1 == Count(subset, l, "1")
      && var r := SubsetVarianceImpurity(data, headers, attr, value);
      Weighted(r, |data|) == SideImpurity(c0, c1, |data|)
  {
    var pos, l := IndexOf(headers, attr), |headers| - 1;
    var subset := Filter(data, pos, value);
    FilterHasColumn(data, pos, value, l);
    FilterBinary(data, pos, value);
    var n := |subset|;
    c0, c1 := Count(subset, l, "0"), Count(subset, l, "1");
    CountsSum(subset, l);
    SubsetImpurityOfCounts(data, headers, attr, value, c0, c1, n);
    var r := SubsetVarianceImpurity(data, headers, attr, value);
    WeightedSide(c0, c1, r, |data|);
  }

  /** The weighted per-value impurity is the side impurity of its counts. */
  lemma WeightedSide(c0: nat, c1: nat, r: (real, nat), n: nat)
    requires r.1 == c0 + c1 && n > 0
    requires r.0 == if c0 > 0 && c1 > 0 then LabelProduct(c0, c1, r.1) else 0.0
    ensures Weighted(r, n) == SideImpurity(c0, c1, n)
  {
    if r.1 > 0 && !(c0 > 0 && c1 > 0) {
      assert Fraction(c0, r.1) == 0.0 || Fraction(c1, r.1) == 0.0;
    }
  }

  /** Splitting on an attribute conserves the label counts, and the rows of
      both sides together are all the rows. */
  lemma SplitCounts(data: seq<Row>, headers: Header, attr: string)
    requires |headers| >= 1 && Rectangular(data, |headers|) && attr in headers && Binary(data)
    ensures var pos, l := IndexOf(headers, attr), |headers| - 1;
      var f0, f1 := Filter(data, pos, "0"), Filter(data, pos, "1");
      && HasColumn(data, l) && HasColumn(f0, l) && HasColumn(f1, l)
      && Count(data, l, "0") == Count(f0, l, "0") + Count(f1, l, "0")
      && Count(data, l, "1") == Count(f0, l, "1") + Count(f1, l, "1")
      && |f0| == Count(f0, l, "0") + Count(f0, l, "1")
      && |f1| == Count(f1, l, "0") + Count(f1, l, "1")
      && |data| == |f0| + |f1|
  {
    var pos, l := IndexOf(headers, attr), |headers| - 1;
    assert HasColumn(data, pos) && HasColumn(data, l);
    var f0, f1 := Filter(data, pos, "0"), Filter(data, pos, "1");
    FilterHasColumn(data, pos, "0", l);
    FilterHasColumn(data, pos, "1", l);
    FilterBinary(data, pos, "0");
    FilterBinary(data, pos, "1");
    assert HasColumn(f0, l) && HasColumn(f1, l) && Binary(f0) && Binary(f1);
    CountsSum(data, pos);
    FilterSplitCount(data, pos, l, "0");
    FilterSplitCount(data, pos, l, "1");
    CountsSum(f0, l);
    CountsSum(f1, l);
  }

  /** The rows selected by a value of an attribute that agrees with the label
      on every row all carry that value as their label: they have no
      impurity. */
  lemma DecidedSubset(data: seq<Row>, headers: Header, attr: string, value: string)
    requires |headers| >= 1 && Rectangular(data, |headers|) && attr in headers && Binary(data)
    requires forall i :: 0 <= i < |data| ==> data[i][IndexOf(headers, attr)] == data[i][|headers| - 1]
    ensures SubsetVarianceImpurity(data, headers, attr, value).0 == 0.0
  {
    var pos, l := IndexOf(headers, attr), |headers| - 1;
    var subset := Filter(data, pos, value);
    FilterHasColumn(data, pos, value, l);
    FilterMembers(data, pos, value);
    forall i | 0 <= i < |subset| ensures subset[i][l] == value {
      var j :| 0 <= j < |data| && data[j] == subset[i];
    }
    var c0, c1 := Count(subset, l, "0"), Count(subset, l, "1");
    CountPositive(subset, l, "0");
    CountPositive(subset, l, "1");
    assert c0 == 0 || c1 == 0;
    SubsetImpurityOfCounts(data, headers, attr, value, c0, c1, |subset|);
  }

  /** An attribute that agrees with the label on every row has the largest
      gain there is: the whole impurity of the rows. */
  lemma PerfectGain(data: seq<Row>, headers: Header, attr: string)
    requires |headers| >= 1 && Rectangular(data, |headers|) && |data| > 0 && attr in headers && Binary(data)
    requires forall i :: 0 <= i < |data| ==> data[i][IndexOf(headers, attr)] == data[i][|headers| - 1]
    ensures VarianceGain(data, headers, attr) == DataVarianceImpurity(data, headers)
  {
    var rn, rp := SubsetVarianceImpurity(data, headers, attr, "0"), SubsetVarianceImpurity(data, headers, attr, "1");
    DecidedSubset(data, headers, attr, "0");
    DecidedSubset(data, headers, attr, "1");
    WeightedZero(rn, |data|);
    WeightedZero(rp, |data|);
    VarianceGainOfSides(data, headers, attr);
  }

  lemma WeightedZero(r: (real, nat), n: nat)
    requires n > 0 && r.0 == 0.0
    ensures Weighted(r, n) == 0.0
  {
  }

  /** A gain function: the gain of an attribute over rows under a header. */
  type Gain = (seq<Row>, Header, string) --> real

  /** The position of the first largest value: `l.index(max(l))`. */
  function ArgMax(g: seq<real>): (k: nat)
    requires |g| > 0
    ensures k < |g|
    ensures forall j :: 0 <= j < |g| ==> g[j] <= g[k]
    ensures forall j :: 0 <= j < k ==> g[j] < g[k]
  {
    if |g| == 1 then 0
    else
      var k := ArgMax(g[..|g| - 1]);
      if g[|g| - 1] > g[k] then |g| - 1 else k
  }

  /** The gain may be asked of every non-label attribute of the rows. */
  ghost predicate GainDefinedOn(gain: Gain, data: seq<Row>, headers: Header) {
    forall k :: 0 <= k < |headers| - 1 ==> gain.requires(data, headers, headers[k])
  }

  /** The gain list built by both selectors: one gain per non-label attribute,
      in header order. */
  function Gains(data: seq<Row>, headers: Header, gain: Gain): (g: seq<real>)
    requires |headers| >= 1 && GainDefinedOn(gain, data, headers)
    ensures |g| == |headers| - 1
  {
    seq(|headers| - 1, k requires 0 <= k < |headers| - 1 && GainDefinedOn(gain, data, headers) => gain(data, headers, headers[k]))
  }

  /** The position of the attribute both selectors pick: the first non-label
      attribute with the largest gain, or position 0 when there are no rows or
      only the label column remains. */
  function BestAttributeIndex(data: seq<Row>, headers: Header, gain: Gain): (k: nat)
    requires |headers| >= 1
    requires |data| > 0 && |headers| > 1 ==> GainDefinedOn(gain, data, headers)
    ensures k < |headers|
    ensures !(|data| > 0 && |headers| > 1) ==> k == 0
    ensures |data| > 0 && |headers| > 1 ==>
      && k < |headers| - 1
      && (forall j :: 0 <= j < |headers| - 1 ==> gain(data, headers, headers[j]) <= gain(data, headers, headers[k]))
      && (forall j :: 0 <= j < k ==> gain(data, headers, headers[j]) < gain(data, headers, headers[k]))
  {
    if |data| > 0 && |headers| > 1 then
      var g := Gains(data, headers, gain);
      var k := ArgMax(g);
      assert forall j :: 0 <= j < |headers| - 1 ==> g[j] == gain(data, headers, headers[j]);
      k
    else 0
  }

  /** `getBestClassifierAttributeEntropyHeuristic` and
      `getBestClassifierAttributeVIHeuristic`, which differ only in `gain`. */
  function SelectBest(data: seq<Row>, headers: Header, gain: Gain): (attr: string)
    requires |headers| >= 1
    requires |data| > 0 && |headers| > 1 ==> GainDefinedOn(gain, data, headers)
    ensures attr in headers
  {
    headers[BestAttributeIndex(data, headers, gain)]
  }

  /** `getBestClassifierAttributeVIHeuristic`. */
  function VarianceSelect(data: seq<Row>, headers: Header): (attr: string)
    requires |headers| >= 1 && Rectangular(data, |headers|)
  {
    SelectBest(data, headers, VarianceGain)
  }
}
