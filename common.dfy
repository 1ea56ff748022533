/** Shared vocabulary of the decision-tree model: rows, headers, the label
    domain, errors, and the list operations the program borrows from Python
    (`list.index`, `del l[i]`). */
module Common {

  /** One record of a data set: its attribute values, the class label last. */
  type Row = seq<string>

  /** Attribute names in column order; the last one names the class label. */
  type Header = seq<string>

  /** True of the members of the label domain. The program collects the labels
      it meets in every file it reads (`dataClasses`); for the data it handles
      that domain is exactly "0" and "1", which are also the values every
      attribute takes and the keys under which an internal node keeps its
      children. */
  predicate IsKey(s: string) {
    s == "0" || s == "1"
  }

  type Key = s: string | IsKey(s) witness "0"

  /** The label domain in the order the program iterates over it. */
  const DataClasses: seq<Key> := ["0", "1"]

  /** The ways the core fails. In the program each is an uncaught exception. */
  datatype Error =
    | AttributeNotFound(attr: string)  // `headers.index(attr)` raises
    | UnknownValue(value: string)      // a partition bucket keyed by `value` does not exist
    | MissingBranch(value: string)     // an internal node has no child keyed by `value`
    | Placeholder                      // a placeholder node has no attribute to look up
    | DivisionByZero                   // a ratio over an empty data set

  datatype Result<T> = Ok(value: T) | Err(error: Error)

  /** Every row has `width` fields. */
  predicate Rectangular(data: seq<Row>, width: nat) {
    forall i :: 0 <= i < |data| ==> |data[i]| == width
  }

  /** Every row has a field at position `col`. */
  predicate HasColumn(data: seq<Row>, col: nat) {
    forall i :: 0 <= i < |data| ==> col < |data[i]|
  }

  /** Every field of every row lies in the label domain. */
  predicate Binary(data: seq<Row>) {
    forall i, j :: 0 <= i < |data| && 0 <= j < |data[i]| ==> IsKey(data[i][j])
  }

  /** No attribute name occurs twice. */
  predicate Distinct(h: Header) {
    forall i, j :: 0 <= i < j < |h| ==> h[i] != h[j]
  }

  /** `h.index(x)`: the position of the first occurrence of `x`. */
  function IndexOf(h: seq<string>, x: string): (i: nat)
    requires x in h
    ensures i < |h| && h[i] == x
    ensures forall j :: 0 <= j < i ==> h[j] != x
  {
    if h[0] == x then 0 else 1 + IndexOf(h[1..], x)
  }

  /** `del s[pos]`: the sequence without its element at `pos`. */
  function Delete(s: seq<string>, pos: nat): (r: seq<string>)
    requires pos < |s|
    ensures |r| == |s| - 1
    ensures forall j :: 0 <= j < pos ==> r[j] == s[j]
    ensures forall j :: pos <= j < |r| ==> r[j] == s[j + 1]
  {
    s[..pos] + s[pos + 1..]
  }

  /** Deleting one entry of a header without repetitions removes exactly that
      name: the name is gone and every other name stays. */
  lemma DeleteDistinct(h: Header, pos: nat)
    requires pos < |h| && Distinct(h)
    ensures Distinct(Delete(h, pos))
    ensures h[pos] !in Delete(h, pos)
    ensures forall x :: x in Delete(h, pos) <==> x in h && x != h[pos]
  {
    var r := Delete(h, pos);
    forall x | x in h && x != h[pos] ensures x in r {
      var j :| 0 <= j < |h| && h[j] == x;
      if j < pos { assert r[j] == x; } else { assert r[j - 1] == x; }
    }
  }
}
