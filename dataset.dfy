/** Data preparation: counting labels (`getClassDivision`) and splitting rows
    on an attribute (`partitionDataSet`). Each loop of the program is a method
    here, proved equal to a function that the rest of the model reasons with. */
module Dataset {
  import opened Common

  /** The rows whose field at `col` is `v`, in their original order. */
  function Filter(data: seq<Row>, col: nat, v: string): (r: seq<Row>)
    requires HasColumn(data, col)
    ensures |r| <= |data|
    ensures forall i :: 0 <= i < |r| ==> col < |r[i]| && r[i][col] == v
  {
    if data == [] then []
    else
      var last := data[|data| - 1];
      Filter(data[..|data| - 1], col, v) + (if last[col] == v then [last] else [])
  }

  /** Every selected row is a row of the data. */
  lemma {:induction false} FilterMembers(data: seq<Row>, col: nat, v: string)
    requires HasColumn(data, col)
    ensures forall i :: 0 <= i < |Filter(data, col, v)| ==> Filter(data, col, v)[i] in data
  {
    if data != [] {
      var init := data[..|data| - 1];
      FilterMembers(init, col, v);
      var r, f := Filter(data, col, v), Filter(init, col, v);
      forall i | 0 <= i < |r| ensures r[i] in data {
        if i < |f| {
          assert r[i] == f[i] && f[i] in init;
        } else {
          assert r[i] == data[|data| - 1];
        }
      }
    }
  }

  /** The selected rows still have every column the data has. */
  lemma FilterHasColumn(data: seq<Row>, col: nat, v: string, other: nat)
    requires HasColumn(data, col) && HasColumn(data, other)
    ensures HasColumn(Filter(data, col, v), other)
  {
    FilterMembers(data, col, v);
    var r := Filter(data, col, v);
    forall i | 0 <= i < |r| ensures other < |r[i]| {
      var j :| 0 <= j < |data| && data[j] == r[i];
    }
  }

  /** The selected rows of a table of width `w` form a table of width `w`. */
  lemma FilterRectangular(data: seq<Row>, col: nat, v: string, w: nat)
    requires HasColumn(data, col) && Rectangular(data, w)
    ensures Rectangular(Filter(data, col, v), w)
  {
    FilterMembers(data, col, v);
    var r := Filter(data, col, v);
    forall i | 0 <= i < |r| ensures |r[i]| == w {
      var j :| 0 <= j < |data| && data[j] == r[i];
    }
  }

  /** The selected rows of data over the label domain are over the label domain. */
  lemma FilterBinary(data: seq<Row>, col: nat, v: string)
    requires HasColumn(data, col) && Binary(data)
    ensures Binary(Filter(data, col, v))
  {
    FilterMembers(data, col, v);
    var r := Filter(data, col, v);
    forall i, k | 0 <= i < |r| && 0 <= k < |r[i]| ensures IsKey(r[i][k]) {
      var j :| 0 <= j < |data| && data[j] == r[i];
      assert r[i][k] == data[j][k];
    }
  }

  /** How many rows have `v` at `col`. */
  function Count(data: seq<Row>, col: nat, v: string): nat
    requires HasColumn(data, col)
  {
    |Filter(data, col, v)|
  }

  /** A Python `Counter` read at key `k`: absent keys count 0. */
  function Tally(m: map<string, nat>, k: string): nat {
    if k in m then m[k] else 0
  }

  /** The `Counter` the program fills by adding one for each row's value at
      `col`, taking the rows in order. */
  function ClassDivision(data: seq<Row>, col: nat): map<string, nat>
    requires HasColumn(data, col)
  {
    if data == [] then map[]
    else
      var m := ClassDivision(data[..|data| - 1], col);
      var c := data[|data| - 1][col];
      m[c := Tally(m, c) + 1]
  }

  /** `getClassDivision(data, headers)`: counts the labels (the last column)
      when both the rows and the header are non-empty, and is empty otherwise. */
  method GetClassDivision(data: seq<Row>, headers: Header) returns (classCounter: map<string, nat>)
    requires Rectangular(data, |headers|)
    ensures classCounter == if |data| > 0 && |headers| > 0 then ClassDivision(data, |headers| - 1) else map[]
  {
    classCounter := map[];
    if |data| > 0 && |headers| > 0 {
      var classIndex := |headers| - 1;
      var i := 0;
      while i < |data|
        invariant 0 <= i <= |data|
        invariant classCounter == ClassDivision(data[..i], classIndex)
      {
        var next := ClassDivisionNext(data, classIndex, i, classCounter);
        var c := data[i][classIndex];
        classCounter := classCounter[c := Tally(classCounter, c) + 1];
        assert classCounter == next;
        i := i + 1;
      }
      assert data[..|data|] == data;
    }
  }

  /** The counter after row `i`, from the counter before it. */
  lemma ClassDivisionNext(data: seq<Row>, col: nat, i: nat, before: map<string, nat>) returns (after: map<string, nat>)
    requires HasColumn(data, col) && i < |data| && before == ClassDivision(data[..i], col)
    ensures after == ClassDivision(data[..i + 1], col)
    ensures after == before[data[i][col] := Tally(before, data[i][col]) + 1]
  {
    assert data[..i + 1][..i] == data[..i];
    after := before[data[i][col] := Tally(before, data[i][col]) + 1];
  }

  lemma {:induction false} CountPositive(data: seq<Row>, col: nat, v: string)
    requires HasColumn(data, col)
    ensures Count(data, col, v) > 0 <==> exists i :: 0 <= i < |data| && data[i][col] == v
  {
    if data != [] {
      var init := data[..|data| - 1];
      CountPositive(init, col, v);
      if exists i :: 0 <= i < |init| && init[i][col] == v {
        var i :| 0 <= i < |init| && init[i][col] == v;
        assert data[i][col] == v;
      }
      if exists i :: 0 <= i < |data| && data[i][col] == v {
        var i :| 0 <= i < |data| && data[i][col] == v;
        if i < |init| { assert init[i][col] == v; }
      }
    }
  }

  /** Every row is counted exactly when every row carries the value. */
  lemma {:induction false} CountAll(data: seq<Row>, col: nat, v: string)
    requires HasColumn(data, col)
    ensures Count(data, col, v) == |data| <==> forall i :: 0 <= i < |data| ==> data[i][col] == v
  {
    if data != [] {
      var init := data[..|data| - 1];
      CountAll(init, col, v);
      if forall i :: 0 <= i < |data| ==> data[i][col] == v {
        forall i | 0 <= i < |init| ensures init[i][col] == v {
          assert init[i] == data[i];
        }
      }
      if Count(data, col, v) == |data| {
        forall i | 0 <= i < |data| ensures data[i][col] == v {
          if i < |init| { assert data[i] == init[i]; }
        }
      }
    }
  }

  /** The class counter holds, for every value, the number of rows carrying it,
      and holds a key exactly for the values that occur. */
  lemma {:induction false} ClassDivisionCounts(data: seq<Row>, col: nat, v: string)
    requires HasColumn(data, col)
    ensures Tally(ClassDivision(data, col), v) == Count(data, col, v)
    ensures v in ClassDivision(data, col) <==> Count(data, col, v) > 0
  {
    if data != [] {
      ClassDivisionCounts(data[..|data| - 1], col, v);
    }
  }

  /** When the column holds only labels of the domain, the two label counts add
      up to the number of rows. */
  lemma {:induction false} CountsSum(data: seq<Row>, col: nat)
    requires HasColumn(data, col)
    requires forall i :: 0 <= i < |data| ==> IsKey(data[i][col])
    ensures Count(data, col, "0") + Count(data, col, "1") == |data|
  {
    if data != [] {
      CountsSum(data[..|data| - 1], col);
    }
  }

  /** The counts of a non-empty data set over the label domain are usable by
      the pruner: some label, and only labels of the domain. */
  lemma ClassDivisionOk(data: seq<Row>, col: nat)
    requires |data| > 0 && HasColumn(data, col)
    requires forall i :: 0 <= i < |data| ==> IsKey(data[i][col])
    ensures ClassDivision(data, col) != map[]
    ensures ClassDivision(data, col).Keys <= {"0", "1"}
  {
    var m := ClassDivision(data, col);
    ClassDivisionCounts(data, col, data[0][col]);
    CountPositive(data, col, data[0][col]);
    assert data[0][col] in m;
    forall k | k in m ensures IsKey(k) {
      ClassDivisionCounts(data, col, k);
      CountPositive(data, col, k);
      var i :| 0 <= i < |data| && data[i][col] == k;
      assert IsKey(data[i][col]);
    }
  }

  /** The two buckets of a partition and the header left after it. */
  datatype Split = Split(rows0: seq<Row>, rows1: seq<Row>, headers: Header) {
    /** `newDataSet[k]` */
    function Rows(k: Key): seq<Row> {
      if k == "0" then rows0 else rows1
    }
  }

  /** The rows with the field at `pos` deleted. */
  function Project(rows: seq<Row>, pos: nat): (r: seq<Row>)
    requires HasColumn(rows, pos)
    ensures |r| == |rows|
    ensures forall i :: 0 <= i < |r| ==> r[i] == Delete(rows[i], pos)
  {
    seq(|rows|, i requires 0 <= i < |rows| => Delete(rows[i], pos))
  }

  /** The bucketing loop of `partitionDataSet`: each row, its field at `pos`
      deleted, is appended to the bucket keyed by that field; the first row
      whose field is not a label of the domain raises. */
  function PartitionRows(data: seq<Row>, pos: nat): Result<(seq<Row>, seq<Row>)>
    requires HasColumn(data, pos)
  {
    if data == [] then Ok(([], []))
    else
      var last := data[|data| - 1];
      match PartitionRows(data[..|data| - 1], pos)
      case Err(e) => Err(e)
      case Ok(buckets) =>
        if last[pos] == "0" then Ok((buckets.0 + [Delete(last, pos)], buckets.1))
        else if last[pos] == "1" then Ok((buckets.0, buckets.1 + [Delete(last, pos)]))
        else Err(UnknownValue(last[pos]))
  }

  /** `partitionDataSet(data, headers, attr)`. */
  function Partition(data: seq<Row>, headers: Header, attr: string): Result<Split>
    requires Rectangular(data, |headers|)
  {
    if attr !in headers then Err(AttributeNotFound(attr))
    else
      var pos := IndexOf(headers, attr);
      match PartitionRows(data, pos)
      case Err(e) => Err(e)
      case Ok(buckets) => Ok(Split(buckets.0, buckets.1, Delete(headers, pos)))
  }

  /** A failure on a prefix of the rows is the failure of the whole loop. */
  lemma {:induction false} PartitionRowsErr(data: seq<Row>, pos: nat, k: nat)
    requires HasColumn(data, pos) && k <= |data|
    requires PartitionRows(data[..k], pos).Err?
    ensures PartitionRows(data, pos) == PartitionRows(data[..k], pos)
    decreases |data| - k
  {
    if k < |data| {
      assert data[..k + 1][..k] == data[..k];
      PartitionRowsErr(data, pos, k + 1);
    } else {
      assert data[..k] == data;
    }
  }

  /** `partitionDataSet`, with its loop. */
  method PartitionDataSet(data: seq<Row>, headers: Header, attr: string) returns (r: Result<Split>)
    requires Rectangular(data, |headers|)
    ensures r == Partition(data, headers, attr)
  {
    if attr !in headers {
      return Err(AttributeNotFound(attr));
    }
    var attrPosition := IndexOf(headers, attr);
    // newDataSet["0"] and newDataSet["1"]
    var rows0: seq<Row>, rows1: seq<Row> := [], [];
    var i := 0;
    while i < |data|
      invariant 0 <= i <= |data|
      invariant PartitionRows(data[..i], attrPosition) == Ok((rows0, rows1))
    {
      assert data[..i + 1][..i] == data[..i];
      var newItem := Delete(data[i], attrPosition);
      var value := data[i][attrPosition];
      if value == "0" {
        rows0 := rows0 + [newItem];
      } else if value == "1" {
        rows1 := rows1 + [newItem];
      } else {
        PartitionRowsErr(data, attrPosition, i + 1);
        return Err(UnknownValue(value));
      }
      i := i + 1;
    }
    assert data[..|data|] == data;
    r := Ok(Split(rows0, rows1, Delete(headers, attrPosition)));
  }

  /** The bucketing loop succeeds exactly when every row's field at `pos` is a
      label of the domain, and then bucket `k` holds, in input order, exactly
      the rows whose field is `k`, with that field deleted. */
  lemma {:induction false} PartitionRowsSpec(data: seq<Row>, pos: nat)
    requires HasColumn(data, pos)
    ensures PartitionRows(data, pos).Ok? <==> forall i :: 0 <= i < |data| ==> IsKey(data[i][pos])
    ensures PartitionRows(data, pos).Ok? ==>
      PartitionRows(data, pos).value.0 == Project(Filter(data, pos, "0"), pos) &&
      PartitionRows(data, pos).value.1 == Project(Filter(data, pos, "1"), pos)
  {
    PartitionRowsOk(data, pos);
    if PartitionRows(data, pos).Ok? {
      PartitionRowsBuckets(data, pos);
    }
  }

  /** The loop succeeds exactly when every field at `pos` is a label key. */
  lemma {:induction false} PartitionRowsOk(data: seq<Row>, pos: nat)
    requires HasColumn(data, pos)
    ensures PartitionRows(data, pos).Ok? <==> forall i :: 0 <= i < |data| ==> IsKey(data[i][pos])
  {
    if data != [] {
      var init := data[..|data| - 1];
      PartitionRowsOk(init, pos);
      if PartitionRows(init, pos).Err? {
        var j :| 0 <= j < |init| && !IsKey(init[j][pos]);
        assert data[j] == init[j];
      } else {
        assert forall i :: 0 <= i < |init| ==> init[i] == data[i];
      }
    }
  }

  /** After a successful loop, bucket `k` holds the rows whose field at `pos`
      is `k`, in input order, with that field deleted. */
  lemma {:induction false} PartitionRowsBuckets(data: seq<Row>, pos: nat)
    requires HasColumn(data, pos) && PartitionRows(data, pos).Ok?
    ensures PartitionRows(data, pos).value.0 == Project(Filter(data, pos, "0"), pos)
    ensures PartitionRows(data, pos).value.1 == Project(Filter(data, pos, "1"), pos)
  {
    if data != [] {
      var init := data[..|data| - 1];
      var last := data[|data| - 1];
      assert PartitionRows(init, pos).Ok?;
      PartitionRowsBuckets(init, pos);
      ProjectSnoc(Filter(init, pos, "0"), last, pos);
      ProjectSnoc(Filter(init, pos, "1"), last, pos);
    }
  }

  /** Projecting a sequence with one more row appends that row projected. */
  lemma ProjectSnoc(rows: seq<Row>, last: Row, pos: nat)
    requires HasColumn(rows, pos) && pos < |last|
    ensures HasColumn(rows + [last], pos)
    ensures Project(rows + [last], pos) == Project(rows, pos) + [Delete(last, pos)]
    ensures Project(rows + [], pos) == Project(rows, pos)
  {
    assert rows + [] == rows;
  }

  /** The partition fails on the first row whose value at `pos` is not a
      label key, and reports that value. */
  lemma PartitionRowsFirstBad(data: seq<Row>, pos: nat, i: nat)
    requires HasColumn(data, pos) && i < |data| && !IsKey(data[i][pos])
    requires forall j :: 0 <= j < i ==> IsKey(data[j][pos])
    ensures PartitionRows(data, pos) == Err(UnknownValue(data[i][pos]))
  {
    var prefix := data[..i + 1];
    assert prefix[..i] == data[..i];
    PartitionRowsOk(data[..i], pos);
    assert PartitionRows(prefix, pos) == Err(UnknownValue(data[i][pos]));
    PartitionRowsErr(data, pos, i + 1);
  }

  /** What `partitionDataSet` promises: it fails with the missing attribute,
      or with the first value outside the label domain; otherwise each row
      lands, in input order and without the attribute's column, in the bucket
      keyed by its value; the bucket sizes add up to the number of rows; and the
      new header is the old one without exactly that column. */
  lemma PartitionSpec(data: seq<Row>, headers: Header, attr: string)
    requires Rectangular(data, |headers|)
    ensures attr !in headers ==> Partition(data, headers, attr) == Err(AttributeNotFound(attr))
    ensures attr in headers ==>
      var pos := IndexOf(headers, attr);
      (Partition(data, headers, attr).Ok? <==> forall i :: 0 <= i < |data| ==> IsKey(data[i][pos]))
    ensures attr in headers ==>
      var pos := IndexOf(headers, attr);
      forall i :: 0 <= i < |data| && !IsKey(data[i][pos]) && (forall j :: 0 <= j < i ==> IsKey(data[j][pos])) ==>
        Partition(data, headers, attr) == Err(UnknownValue(data[i][pos]))
    ensures Partition(data, headers, attr).Ok? ==>
      var s := Partition(data, headers, attr).value;
      var pos := IndexOf(headers, attr);
      && (forall k: Key :: s.Rows(k) == Project(Filter(data, pos, k), pos) && |s.Rows(k)| == Count(data, pos, k))
      && |s.rows0| + |s.rows1| == |data|
      && s.headers == Delete(headers, pos)
      && Rectangular(s.rows0, |headers| - 1) && Rectangular(s.rows1, |headers| - 1)
  {
    if attr in headers {
      var pos := IndexOf(headers, attr);
      PartitionRowsSpec(data, pos);
      forall i | 0 <= i < |data| && !IsKey(data[i][pos]) && (forall j :: 0 <= j < i ==> IsKey(data[j][pos]))
        ensures Partition(data, headers, attr) == Err(UnknownValue(data[i][pos]))
      {
        PartitionRowsFirstBad(data, pos, i);
      }
      if Partition(data, headers, attr).Ok? {
        CountsSum(data, pos);
        FilterRectangular(data, pos, "0", |headers|);
        FilterRectangular(data, pos, "1", |headers|);
        var s := Partition(data, headers, attr).value;
        forall k: Key ensures s.Rows(k) == Project(Filter(data, pos, k), pos) && |s.Rows(k)| == Count(data, pos, k) {
        }
      }
    }
  }

  /** Deleting a column of rows over the label domain leaves rows over the
      label domain. */
  lemma ProjectBinary(rows: seq<Row>, pos: nat)
    requires HasColumn(rows, pos) && Binary(rows)
    ensures Binary(Project(rows, pos))
  {
    var r := Project(rows, pos);
    forall i, k | 0 <= i < |r| && 0 <= k < |r[i]| ensures IsKey(r[i][k]) {
      if k < pos { assert r[i][k] == rows[i][k]; } else { assert r[i][k] == rows[i][k + 1]; }
    }
  }

  /** The buckets of a partition of rows over the label domain are over the
      label domain. */
  lemma PartitionBinary(data: seq<Row>, headers: Header, attr: string)
    requires Rectangular(data, |headers|) && Binary(data)
    ensures Partition(data, headers, attr).Ok? ==>
      Binary(Partition(data, headers, attr).value.rows0) && Binary(Partition(data, headers, attr).value.rows1)
  {
    if attr in headers {
      var pos := IndexOf(headers, attr);
      PartitionSpec(data, headers, attr);
      FilterBinary(data, pos, "0");
      FilterBinary(data, pos, "1");
      FilterHasColumn(data, pos, "0", pos);
      FilterHasColumn(data, pos, "1", pos);
      ProjectBinary(Filter(data, pos, "0"), pos);
      ProjectBinary(Filter(data, pos, "1"), pos);
    }
  }

  /** Deleting a column before `col` shifts it down by one and keeps its counts. */
  lemma {:induction false} ProjectCount(rows: seq<Row>, pos: nat, col: nat, v: string)
    requires pos < col && HasColumn(rows, col)
    ensures HasColumn(Project(rows, pos), col - 1)
    ensures Count(Project(rows, pos), col - 1, v) == Count(rows, col, v)
  {
    if rows != [] {
      var init := rows[..|rows| - 1];
      ProjectCount(init, pos, col, v);
      assert Project(rows, pos) == Project(init, pos) + [Delete(rows[|rows| - 1], pos)];
      assert Project(rows, pos)[..|rows| - 1] == Project(init, pos);
    }
  }

  /** Splitting on a column holding only labels of the domain conserves the
      count of every value of every other column. */
  lemma {:induction false} FilterSplitCount(data: seq<Row>, pos: nat, col: nat, v: string)
    requires HasColumn(data, pos) && HasColumn(data, col)
    requires forall i :: 0 <= i < |data| ==> IsKey(data[i][pos])
    ensures HasColumn(Filter(data, pos, "0"), col) && HasColumn(Filter(data, pos, "1"), col)
    ensures Count(Filter(data, pos, "0"), col, v) + Count(Filter(data, pos, "1"), col, v) == Count(data, col, v)
  {
    FilterHasColumn(data, pos, "0", col);
    FilterHasColumn(data, pos, "1", col);
    if data != [] {
      var init := data[..|data| - 1];
      FilterSplitCount(init, pos, col, v);
      var last := data[|data| - 1];
      var f0, f1 := Filter(init, pos, "0"), Filter(init, pos, "1");
      if last[pos] == "0" {
        var g := Filter(data, pos, "0");
        assert g[..|g| - 1] == f0 && g[|g| - 1] == last;
        assert Filter(data, pos, "1") == f1;
      } else {
        var g := Filter(data, pos, "1");
        assert g[..|g| - 1] == f1 && g[|g| - 1] == last;
        assert Filter(data, pos, "0") == f0;
      }
    }
  }
}
