/** The contingency table of `chi_square_test`: one column per category seen
    on either side, a row of counts for the reference sample and a row for the
    production sample. */
module Contingency {
  import opened Collections
  import opened Frames

  /** `Series.value_counts()`: each value of the sample with its number of occurrences. */
  function ValueCounts(xs: seq<Value>): (m: map<Value, nat>)
    ensures m.Keys == Elements(xs)
    ensures forall v :: v in m ==> m[v] == Count(xs, v)
  {
    if xs == [] then map[]
    else
      var init := xs[..|xs| - 1];
      var last := xs[|xs| - 1];
      var m := ValueCounts(init);
      assert xs == init + [last];
      forall v ensures Count(xs, v) == Count(init, v) + (if last == v then 1 else 0) {
        CountSnoc(init, last, v);
      }
      m[last := (if last in m then m[last] else 0) + 1]
  }

  /** `counts.get(v, 0)`. */
  function CountOrZero(m: map<Value, nat>, v: Value): nat
  {
    if v in m then m[v] else 0
  }

  /** Looking a category up in the value counts gives its number of
      occurrences, and 0 for a category the sample does not contain. */
  lemma ValueCountsGet(xs: seq<Value>, v: Value)
    ensures CountOrZero(ValueCounts(xs), v) == Count(xs, v)
  {
  }

  /** `all_categories`: every value seen on either side. */
  function Categories(ref: seq<Value>, prod: seq<Value>): (r: set<Value>)
    ensures forall v :: v in r <==> v in ref || v in prod
  {
    Elements(ref) + Elements(prod)
  }

  /** A 2×K table and the category of each of its K columns. */
  datatype Contingency = Contingency(categories: seq<Value>, table: seq<seq<nat>>)

  /** Two rows, each with one entry per category. */
  predicate Shaped(t: Contingency)
  {
    |t.table| == 2 && |t.table[0]| == |t.categories| && |t.table[1]| == |t.categories|
  }

  /** `t` is a contingency table of the two samples: its columns are the
      categories of either side, each once, in some order, and each cell is the
      number of occurrences of its category on its side (0 if absent there). */
  ghost predicate Tabulates(t: Contingency, ref: seq<Value>, prod: seq<Value>)
  {
    && Shaped(t)
    && Distinct(t.categories)
    && Elements(t.categories) == Categories(ref, prod)
    && forall i :: 0 <= i < |t.categories| ==>
         t.table[0][i] == Count(ref, t.categories[i]) && t.table[1][i] == Count(prod, t.categories[i])
  }

  /** `np.array(rows).T` for rows of two entries. */
  function Transpose(rows: seq<seq<nat>>): (t: seq<seq<nat>>)
    requires forall i :: 0 <= i < |rows| ==> |rows[i]| == 2
    ensures |t| == 2 && |t[0]| == |rows| && |t[1]| == |rows|
    ensures forall i :: 0 <= i < |rows| ==> t[0][i] == rows[i][0] && t[1][i] == rows[i][1]
  {
    [seq(|rows|, i requires 0 <= i < |rows| => rows[i][0]),
     seq(|rows|, i requires 0 <= i < |rows| => rows[i][1])]
  }

  /** The table-building loop of `chi_square_test`. The categories are taken
      from a set, so their order is whatever the iteration yields. */
  method BuildContingency(ref: seq<Value>, prod: seq<Value>) returns (t: Contingency)
    ensures Tabulates(t, ref, prod)
  {
    var allCategories := Categories(ref, prod);
    var refCounts := ValueCounts(ref);
    var prodCounts := ValueCounts(prod);
    var categories: seq<Value> := [];
    var rows: seq<seq<nat>> := [];
    var remaining := allCategories;
    while remaining != {}
      invariant |rows| == |categories|
      invariant Distinct(categories)
      invariant Elements(categories) !! remaining
      invariant Elements(categories) + remaining == allCategories
      invariant forall i :: 0 <= i < |rows| ==>
                  rows[i] == [Count(ref, categories[i]), Count(prod, categories[i])]
      decreases remaining
    {
      var cat :| cat in remaining;
      ValueCountsGet(ref, cat);
      ValueCountsGet(prod, cat);
      rows := rows + [[CountOrZero(refCounts, cat), CountOrZero(prodCounts, cat)]];
      assert cat !in Elements(categories);
      categories := categories + [cat];
      remaining := remaining - {cat};
    }
    t := Contingency(categories, Transpose(rows));
  }

  /** Each category with its reference and production counts: the table up to
      the order of its columns. */
  function CategoryCounts(ref: seq<Value>, prod: seq<Value>): (m: map<Value, (nat, nat)>)
    ensures m.Keys == Categories(ref, prod)
    ensures forall c :: c in m ==> m[c] == (Count(ref, c), Count(prod, c)) && m[c].0 + m[c].1 > 0
  {
    map c | c in Categories(ref, prod) :: (Count(ref, c), Count(prod, c))
  }

  /** The table read as a map from each category to its column. */
  function Observed(t: Contingency): map<Value, (nat, nat)>
    requires Shaped(t)
  {
    map c | c in Elements(t.categories) ::
      var i := IndexOf(t.categories, c); (t.table[0][i], t.table[1][i])
  }

  /** Whatever order the columns come in, the table holds exactly the
      category counts of the two samples. */
  lemma ObservedIsCategoryCounts(t: Contingency, ref: seq<Value>, prod: seq<Value>)
    requires Tabulates(t, ref, prod)
    ensures Observed(t) == CategoryCounts(ref, prod)
  {
  }

  /** The counts of the distinct values `cats` in `xs`, one per entry of `cats`. */
  function CountsOver(xs: seq<Value>, cats: seq<Value>): (r: seq<nat>)
    ensures |r| == |cats|
  {
    seq(|cats|, i requires 0 <= i < |cats| => Count(xs, cats[i]))
  }

  /** A 0/1 entry for each category: is it `v`? */
  function Indicator(cats: seq<Value>, v: Value): (r: seq<nat>)
    ensures |r| == |cats|
  {
    seq(|cats|, i requires 0 <= i < |cats| => if cats[i] == v then 1 else 0)
  }

  lemma {:induction false} IndicatorSum(cats: seq<Value>, v: Value)
    ensures Sum(Indicator(cats, v)) == Count(cats, v)
  {
    if cats != [] {
      var n := |cats| - 1;
      IndicatorSum(cats[..n], v);
      assert Indicator(cats, v)[..n] == Indicator(cats[..n], v);
    }
  }

  /** Counting every category of a sample over a duplicate-free list that
      contains them all accounts for every element exactly once. */
  lemma {:induction false} CountsOverSum(xs: seq<Value>, cats: seq<Value>)
    requires Distinct(cats)
    requires Elements(xs) <= Elements(cats)
    ensures Sum(CountsOver(xs, cats)) == |xs|
  {
    if xs == [] {
      SumZero(CountsOver(xs, cats));
    } else {
      var init := xs[..|xs| - 1];
      var v := xs[|xs| - 1];
      assert xs == init + [v];
      assert Elements(init) <= Elements(xs);
      CountsOverSum(init, cats);
      forall i | 0 <= i < |cats|
        ensures CountsOver(xs, cats)[i] == CountsOver(init, cats)[i] + Indicator(cats, v)[i]
      {
        CountSnoc(init, v, cats[i]);
      }
      SumPointwise(CountsOver(init, cats), Indicator(cats, v), CountsOver(xs, cats));
      IndicatorSum(cats, v);
      assert v in Elements(cats);
      CountDistinct(cats, v);
    }
  }

  /** Each row of the table sums to the size of its (non-missing) sample. */
  lemma RowSums(t: Contingency, ref: seq<Value>, prod: seq<Value>)
    requires Tabulates(t, ref, prod)
    ensures Sum(t.table[0]) == |ref|
    ensures Sum(t.table[1]) == |prod|
  {
    assert t.table[0] == CountsOver(ref, t.categories);
    assert t.table[1] == CountsOver(prod, t.categories);
    CountsOverSum(ref, t.categories);
    CountsOverSum(prod, t.categories);
  }

  /** No column of the table sums to zero: every category was seen somewhere. */
  lemma NoEmptyColumn(t: Contingency, ref: seq<Value>, prod: seq<Value>)
    requires Tabulates(t, ref, prod)
    ensures forall i :: 0 <= i < |t.categories| ==> t.table[0][i] + t.table[1][i] > 0
  {
    forall i | 0 <= i < |t.categories| ensures t.table[0][i] + t.table[1][i] > 0 {
      assert t.categories[i] in Elements(t.categories);
    }
  }

  /** The table has a row summing to zero, which leaves the Chi-square
      statistic undefined, exactly when one of the samples is empty. */
  lemma DegenerateIffEmptySide(t: Contingency, ref: seq<Value>, prod: seq<Value>)
    requires Tabulates(t, ref, prod)
    ensures (Sum(t.table[0]) == 0 || Sum(t.table[1]) == 0) <==> (|ref| == 0 || |prod| == 0)
    ensures |t.categories| == 0 <==> |ref| == 0 && |prod| == 0
  {
    RowSums(t, ref, prod);
    if |ref| > 0 {
      assert ref[0] in Elements(t.categories);
    }
    if |prod| > 0 {
      assert prod[0] in Elements(t.categories);
    }
    if |t.categories| > 0 {
      assert t.categories[0] in Categories(ref, prod);
    }
  }

  /** The tables whose expected frequencies include a zero, which the library
      refuses: no category at all, or a row or a column summing to zero. */
  predicate ZeroMargin(t: Contingency)
    requires Shaped(t)
  {
    || |t.categories| == 0
    || Sum(t.table[0]) == 0
    || Sum(t.table[1]) == 0
    || exists i :: 0 <= i < |t.categories| && t.table[0][i] + t.table[1][i] == 0
  }

  /** The table of two samples is refused exactly when one of them is empty. */
  lemma ZeroMarginIffEmptySide(t: Contingency, ref: seq<Value>, prod: seq<Value>)
    requires Tabulates(t, ref, prod)
    ensures ZeroMargin(t) <==> |ref| == 0 || |prod| == 0
  {
    DegenerateIffEmptySide(t, ref, prod);
    NoEmptyColumn(t, ref, prod);
  }
}
