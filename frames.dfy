/** Tabular data as the detector sees it: named columns of scalar cells,
    each column tagged with the storage type the dataframe library gave it. */
module Frames {
  import opened Collections

  /** One cell: a missing value (None/NaN), a number, or a text label. */
  datatype Value = Missing | Number(x: real) | Text(s: string)

  /** Column storage types. Only `object` and `category` matter to the detector. */
  datatype DType = ObjectDType | CategoryDType | Int64DType | Float64DType | BoolDType

  datatype Column = Column(dtype: DType, values: seq<Value>)

  /** A dataset: its columns in order, and the data held under each name. */
  datatype Frame = Frame(columns: seq<string>, data: map<string, Column>)

  /** Every listed column has data, no name is listed twice, and nothing else is held. */
  predicate WellFormed(frame: Frame)
  {
    Distinct(frame.columns) && frame.data.Keys == Elements(frame.columns)
  }

  /** `frame[name]`; `None` where the dataframe library raises a key error. */
  function Lookup(frame: Frame, name: string): (r: Option<Column>)
    ensures r.Some? <==> name in frame.data
    ensures r.Some? ==> r.value == frame.data[name]
  {
    if name in frame.data then Some(frame.data[name]) else None
  }

  /** `Series.dropna()`: the non-missing cells, in their original order. */
  function DropMissing(xs: seq<Value>): (r: seq<Value>)
    ensures Missing !in r
    ensures |r| == |xs| - Count(xs, Missing)
    ensures forall v :: v != Missing ==> Count(r, v) == Count(xs, v)
    ensures |xs| == 1 ==> r == if xs[0] == Missing then [] else xs
  {
    if xs == [] then []
    else
      var init := xs[..|xs| - 1];
      var last := xs[|xs| - 1];
      var r := DropMissing(init);
      assert xs == init + [last];
      forall v ensures Count(xs, v) == Count(init, v) + (if last == v then 1 else 0) {
        CountSnoc(init, last, v);
      }
      if last == Missing then r
      else
        forall v ensures Count(r + [last], v) == Count(r, v) + (if last == v then 1 else 0) {
          CountSnoc(r, last, v);
        }
        r + [last]
  }

  /** Dropping the missing cells of two stretches of a column one after the
      other keeps the survivors of the first before those of the second; with
      the single-cell case this fixes the order of the result. */
  lemma {:induction false} DropMissingAppend(a: seq<Value>, b: seq<Value>)
    ensures DropMissing(a + b) == DropMissing(a) + DropMissing(b)
  {
    if b == [] {
      assert a + b == a;
    } else {
      var n := |b| - 1;
      DropMissingAppend(a, b[..n]);
      assert (a + b)[..|a + b| - 1] == a + b[..n];
      assert (a + b)[|a + b| - 1] == b[n];
    }
  }

  /** `Series.nunique()`: the number of distinct non-missing values. */
  function DistinctValues(xs: seq<Value>): nat
  {
    |Elements(xs) - {Missing}|
  }

  /** A column has no distinct value exactly when every cell is missing. */
  lemma DistinctValuesZero(xs: seq<Value>)
    ensures DistinctValues(xs) == 0 <==> forall i :: 0 <= i < |xs| ==> xs[i] == Missing
  {
    assert forall i :: 0 <= i < |xs| && xs[i] != Missing ==> xs[i] in Elements(xs) - {Missing};
  }

  /** The cells as numbers, or `None` when some cell is not a number. */
  function Numbers(xs: seq<Value>): (r: Option<seq<real>>)
    ensures r.Some? <==> forall i :: 0 <= i < |xs| ==> xs[i].Number?
    ensures r.Some? ==> |r.value| == |xs| && forall i :: 0 <= i < |xs| ==> xs[i] == Number(r.value[i])
  {
    if xs == [] then Some([])
    else
      var init := xs[..|xs| - 1];
      var last := xs[|xs| - 1];
      assert forall i :: 0 <= i < |init| ==> init[i] == xs[i];
      match Numbers(init)
      case None => None
      case Some(ys) => if last.Number? then Some(ys + [last.x]) else None
  }

  /** Reading the same cells as numbers twice gives the same numbers. */
  lemma NumbersInjective(xs: seq<Value>, a: seq<real>, b: seq<real>)
    requires |a| == |xs| && |b| == |xs|
    requires forall i :: 0 <= i < |xs| ==> xs[i] == Number(a[i]) && xs[i] == Number(b[i])
    ensures a == b
  {
  }
}
