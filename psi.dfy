/** The Population Stability Index of `calculate_psi`: breakpoints deduplicated
    as `np.unique` does, both samples counted with `np.histogram`'s bins, the
    per-bin shares with zero shares clamped, and the log-ratio sum. The
    percentile breakpoints and the logarithm come from the numeric library and
    are parameters here. */
module Psi {
  import opened Collections

  /** The share that replaces a zero share, keeping the log-ratio finite. */
  const ZeroShareFloor: real := 0.0001

  /** The number of percentile bins `detect_drift` asks for. */
  const DefaultBins: nat := 10

  predicate StrictlyIncreasing(s: seq<real>)
  {
    forall i, j :: 0 <= i < j < |s| ==> s[i] < s[j]
  }

  /** Inserts `x` into a sorted sequence unless it is already there. */
  function InsertUnique(x: real, s: seq<real>): seq<real>
  {
    if s == [] then [x]
    else if x < s[0] then [x] + s
    else if x == s[0] then s
    else [s[0]] + InsertUnique(x, s[1..])
  }

  lemma {:induction false} InsertUniqueDeduplicates(x: real, s: seq<real>)
    requires StrictlyIncreasing(s)
    ensures StrictlyIncreasing(InsertUnique(x, s))
    ensures Elements(InsertUnique(x, s)) == Elements(s) + {x}
  {
    if s == [] {
      ElementsCons(x, []);
    } else if x < s[0] {
      InsertFront(x, s);
    } else if x == s[0] {
      ElementsCons(s[0], s[1..]);
      assert [s[0]] + s[1..] == s;
    } else {
      assert StrictlyIncreasing(s[1..]);
      InsertUniqueDeduplicates(x, s[1..]);
      InsertAfterHead(x, s, InsertUnique(x, s[1..]));
    }
  }

  lemma ElementsCons(a: real, t: seq<real>)
    ensures Elements([a] + t) == {a} + Elements(t)
  {
  }

  lemma InsertFront(x: real, s: seq<real>)
    requires StrictlyIncreasing(s) && |s| > 0 && x < s[0]
    ensures StrictlyIncreasing([x] + s)
    ensures Elements([x] + s) == Elements(s) + {x}
  {
    ElementsCons(x, s);
    ConsIncreasing(x, s);
  }

  lemma InsertAfterHead(x: real, s: seq<real>, rest: seq<real>)
    requires StrictlyIncreasing(s) && |s| > 0 && s[0] < x
    requires StrictlyIncreasing(rest) && Elements(rest) == Elements(s[1..]) + {x}
    ensures StrictlyIncreasing([s[0]] + rest)
    ensures Elements([s[0]] + rest) == Elements(s) + {x}
  {
    var t := s[1..];
    assert s == [s[0]] + t;
    ElementsCons(s[0], t);
    HeadBelowTail(s);
    BoundedByElements(rest, Elements(t) + {x}, s[0]);
    ConsIncreasing(s[0], rest);
    ElementsCons(s[0], rest);
  }

  lemma ConsIncreasing(a: real, t: seq<real>)
    requires StrictlyIncreasing(t)
    requires forall k :: 0 <= k < |t| ==> a < t[k]
    ensures StrictlyIncreasing([a] + t)
  {
  }

  lemma HeadBelowTail(s: seq<real>)
    requires |s| > 0
    requires forall k :: 0 < k < |s| ==> s[0] < s[k]
    ensures forall y :: y in Elements(s[1..]) ==> s[0] < y
  {
    forall y | y in Elements(s[1..]) ensures s[0] < y {
      var m :| 0 <= m < |s| - 1 && s[1..][m] == y;
      assert s[m + 1] == y;
    }
  }

  lemma BoundedByElements(u: seq<real>, e: set<real>, lo: real)
    requires Elements(u) <= e
    requires forall y :: y in e ==> lo < y
    ensures forall k :: 0 <= k < |u| ==> lo < u[k]
  {
    forall k | 0 <= k < |u| ensures lo < u[k] {
      assert u[k] in Elements(u);
    }
  }

  /** `np.unique`: the distinct values, sorted. */
  function Unique(s: seq<real>): seq<real>
  {
    if s == [] then []
    else InsertUnique(s[|s| - 1], Unique(s[..|s| - 1]))
  }

  /** The deduplicated values are strictly increasing and are exactly the
      values of `s`. */
  lemma {:induction false} UniqueDeduplicates(s: seq<real>)
    ensures StrictlyIncreasing(Unique(s))
    ensures Elements(Unique(s)) == Elements(s)
  {
    if s != [] {
      var init := s[..|s| - 1];
      UniqueDeduplicates(init);
      InsertUniqueDeduplicates(s[|s| - 1], Unique(init));
      assert s == init + [s[|s| - 1]];
    }
  }

  /** A strictly increasing sequence is fixed by its set of values, so the
      two properties of `UniqueDeduplicates` pin down `np.unique`'s result. */
  lemma {:induction false} IncreasingDeterminedByElements(a: seq<real>, b: seq<real>)
    requires StrictlyIncreasing(a) && StrictlyIncreasing(b)
    requires Elements(a) == Elements(b)
    ensures a == b
  {
    if a != [] {
      assert a[0] in Elements(b);
      assert b != [];
      assert b[0] in Elements(a);
      assert a[0] == b[0] by {
        var i :| 0 <= i < |b| && b[i] == a[0];
        var j :| 0 <= j < |a| && a[j] == b[0];
        assert b[0] <= a[0] && a[0] <= b[0];
      }
      assert a == [a[0]] + a[1..] && b == [b[0]] + b[1..];
      HeadBelowTail(a);
      HeadBelowTail(b);
      ElementsCons(a[0], a[1..]);
      ElementsCons(b[0], b[1..]);
      assert a[0] !in Elements(a[1..]) && b[0] !in Elements(b[1..]);
      assert Elements(a[1..]) == Elements(b[1..]);
      IncreasingDeterminedByElements(a[1..], b[1..]);
    } else {
      NoElementsEmpty(b);
    }
  }

  lemma NoElementsEmpty(b: seq<real>)
    ensures Elements(b) == {} ==> b == []
  {
    if b != [] {
      assert b[0] in Elements(b);
    }
  }

  /** `np.unique` is the only strictly increasing sequence with the values of `s`. */
  lemma UniqueCharacterized(s: seq<real>, u: seq<real>)
    requires StrictlyIncreasing(u) && Elements(u) == Elements(s)
    ensures u == Unique(s)
  {
    UniqueDeduplicates(s);
    IncreasingDeterminedByElements(u, Unique(s));
  }

  /** When the percentiles `s` include the reference minimum `lo` and maximum
      `hi` and stay between them, their deduplication `u` (strictly increasing,
      the same values) runs from `lo` to `hi`, and has at least two entries
      exactly when `lo < hi`. */
  lemma UniqueSpansRange(s: seq<real>, u: seq<real>, lo: real, hi: real)
    requires StrictlyIncreasing(u) && Elements(u) == Elements(s)
    requires lo in s && hi in s
    requires forall i :: 0 <= i < |s| ==> lo <= s[i] <= hi
    ensures |u| >= 1
    ensures u[0] == lo && u[|u| - 1] == hi
    ensures |u| >= 2 <==> lo < hi
  {
    var a := IndexIn(s, u, lo);
    var b := IndexIn(s, u, hi);
    BoundedIn(s, u, lo, hi, 0);
    BoundedIn(s, u, lo, hi, |u| - 1);
    SpanOfIncreasing(u, lo, hi, a, b);
  }

  /** A value of `s` has a position in `u`. */
  lemma IndexIn(s: seq<real>, u: seq<real>, v: real) returns (k: nat)
    requires Elements(u) == Elements(s)
    requires v in s
    ensures k < |u| && u[k] == v
  {
    assert v in Elements(s);
    k :| 0 <= k < |u| && u[k] == v;
  }

  /** The values of `u` stay within bounds that hold for `s`. */
  lemma BoundedIn(s: seq<real>, u: seq<real>, lo: real, hi: real, k: nat)
    requires Elements(u) == Elements(s)
    requires forall i :: 0 <= i < |s| ==> lo <= s[i] <= hi
    requires k < |u|
    ensures lo <= u[k] <= hi
  {
    assert u[k] in Elements(u);
    ElementBounded(s, lo, hi, u[k]);
  }

  /** A strictly increasing sequence within `[lo, hi]` that contains both
      runs from `lo` to `hi`, with two or more elements exactly when `lo < hi`. */
  lemma SpanOfIncreasing(u: seq<real>, lo: real, hi: real, a: nat, b: nat)
    requires StrictlyIncreasing(u)
    requires a < |u| && b < |u| && u[a] == lo && u[b] == hi
    requires lo <= u[0] && u[|u| - 1] <= hi
    ensures u[0] == lo && u[|u| - 1] == hi
    ensures |u| >= 2 <==> lo < hi
  {
    IncreasingBounds(u, a);
    IncreasingBounds(u, b);
    assert lo < hi ==> a != b;
  }

  lemma ElementBounded(s: seq<real>, lo: real, hi: real, x: real)
    requires forall i :: 0 <= i < |s| ==> lo <= s[i] <= hi
    requires x in Elements(s)
    ensures lo <= x <= hi
  {
    var i :| 0 <= i < |s| && s[i] == x;
  }

  /** In a strictly increasing sequence the first element is the least and the last the greatest. */
  lemma IncreasingBounds(u: seq<real>, k: nat)
    requires StrictlyIncreasing(u) && k < |u|
    ensures u[0] <= u[k] <= u[|u| - 1]
    ensures |u| >= 2 ==> u[0] < u[|u| - 1]
  {
  }

  /** The number of histogram bins: one fewer than the breakpoints. */
  function NumBins(edges: seq<real>): nat
  {
    if |edges| < 2 then 0 else |edges| - 1
  }

  /** `np.histogram` bins are half-open `[a, b)`, except the last, which is closed `[a, b]`. */
  predicate InBin(v: real, edges: seq<real>, i: nat)
    requires i + 1 < |edges|
  {
    edges[i] <= v && (if i + 2 == |edges| then v <= edges[i + 1] else v < edges[i + 1])
  }

  /** The number of values of `xs` that fall in bin `i`. */
  function BinCount(xs: seq<real>, edges: seq<real>, i: nat): (n: nat)
    requires i + 1 < |edges|
    ensures n <= |xs|
  {
    if xs == [] then 0
    else BinCount(xs[..|xs| - 1], edges, i) + (if InBin(xs[|xs| - 1], edges, i) then 1 else 0)
  }

  /** `np.histogram(xs, bins=edges)[0]`. */
  function Histogram(xs: seq<real>, edges: seq<real>): (h: seq<nat>)
    ensures |h| == NumBins(edges)
    ensures forall i :: 0 <= i < |h| ==> h[i] == BinCount(xs, edges, i) <= |xs|
  {
    seq(NumBins(edges), i requires 0 <= i < NumBins(edges) => BinCount(xs, edges, i))
  }

  /** The number of values of `xs` in the closed interval `[lo, hi]`. */
  function CountInRange(xs: seq<real>, lo: real, hi: real): (n: nat)
    ensures n <= |xs|
  {
    if xs == [] then 0
    else CountInRange(xs[..|xs| - 1], lo, hi) + (if lo <= xs[|xs| - 1] <= hi then 1 else 0)
  }

  lemma {:induction false} CountInRangeAll(xs: seq<real>, lo: real, hi: real)
    requires forall i :: 0 <= i < |xs| ==> lo <= xs[i] <= hi
    ensures CountInRange(xs, lo, hi) == |xs|
  {
    if xs != [] {
      CountInRangeAll(xs[..|xs| - 1], lo, hi);
    }
  }

  /** Which bins a single value falls in (a 0/1 entry per bin). */
  function Hits(v: real, edges: seq<real>): (h: seq<nat>)
    ensures |h| == NumBins(edges)
  {
    seq(NumBins(edges), i requires 0 <= i < NumBins(edges) => if InBin(v, edges, i) then 1 else 0)
  }

  /** Over the first `n` bins a value is counted once if it lies in
      `[edges[0], edges[n])` (closed on the right once the last bin is included). */
  lemma {:induction false} HitsPrefix(v: real, edges: seq<real>, n: nat)
    requires StrictlyIncreasing(edges) && |edges| >= 2
    requires n <= |edges| - 1
    ensures Sum(Hits(v, edges)[..n]) ==
      if n == 0 then 0
      else if n < |edges| - 1 then (if edges[0] <= v < edges[n] then 1 else 0)
      else (if edges[0] <= v <= edges[n] then 1 else 0)
  {
    var h := Hits(v, edges);
    if n > 0 {
      HitsPrefix(v, edges, n - 1);
      assert h[..n][..n - 1] == h[..n - 1];
      if n - 1 > 0 {
        assert edges[0] < edges[n - 1];
      }
    }
  }

  /** Every value of `[edges[0], edges[last]]` lands in exactly one bin; other values in none. */
  lemma HitsTotal(v: real, edges: seq<real>)
    requires StrictlyIncreasing(edges) && |edges| >= 2
    ensures Sum(Hits(v, edges)) == if edges[0] <= v <= edges[|edges| - 1] then 1 else 0
  {
    var h := Hits(v, edges);
    HitsPrefix(v, edges, |edges| - 1);
    assert h[..|edges| - 1] == h;
  }

  /** With strictly increasing breakpoints, the histogram counts sum to the
      number of values between the first and the last breakpoint. */
  lemma {:induction false} HistogramTotal(xs: seq<real>, edges: seq<real>)
    requires StrictlyIncreasing(edges) && |edges| >= 2
    ensures Sum(Histogram(xs, edges)) == CountInRange(xs, edges[0], edges[|edges| - 1])
  {
    var h := Histogram(xs, edges);
    if xs == [] {
      SumZero(h);
    } else {
      var init := xs[..|xs| - 1];
      var v := xs[|xs| - 1];
      HistogramTotal(init, edges);
      HitsTotal(v, edges);
      SumPointwise(Histogram(init, edges), Hits(v, edges), h);
    }
  }

  /** `counts / n`, elementwise. */
  function Fractions(counts: seq<nat>, n: nat): (r: seq<real>)
    requires n > 0
    ensures |r| == |counts|
    ensures forall i :: 0 <= i < |r| ==> r[i] == counts[i] as real / n as real
    ensures forall i :: 0 <= i < |r| ==> 0.0 <= r[i] && (r[i] == 0.0 <==> counts[i] == 0)
    ensures forall i :: 0 <= i < |r| && counts[i] <= n ==> r[i] <= 1.0
  {
    var r := seq(|counts|, i requires 0 <= i < |counts| => counts[i] as real / n as real);
    assert forall i :: 0 <= i < |r| && counts[i] <= n ==> r[i] <= 1.0 by {
      forall i | 0 <= i < |r| && counts[i] <= n ensures r[i] <= 1.0 {
        FractionAtMostOne(counts[i], n);
      }
    }
    r
  }

  lemma FractionAtMostOne(c: nat, n: nat)
    requires 0 < n && c <= n
    ensures c as real / n as real <= 1.0
  {
    assert (c as real / n as real) * (n as real) == c as real;
  }

  /** The fractions sum to the total count divided by `n`. */
  lemma {:induction false} FractionsSum(counts: seq<nat>, n: nat)
    requires n > 0
    ensures SumReal(Fractions(counts, n)) == Sum(counts) as real / n as real
  {
    if counts != [] {
      var k := |counts| - 1;
      var f := Fractions(counts, n);
      FractionsSum(counts[..k], n);
      assert f[..k] == Fractions(counts[..k], n);
      var a, c, m := Sum(counts[..k]) as real, counts[k] as real, n as real;
      calc {
        SumReal(f);
        SumReal(f[..k]) + f[k];
        a / m + c / m;
        { DivAdd(a, c, m); }
        (a + c) / m;
      }
    }
  }

  lemma DivAdd(a: real, c: real, m: real)
    requires m != 0.0
    ensures a / m + c / m == (a + c) / m
  {
  }

  /** `np.where(s == 0, 0.0001, s)`. */
  function ClampZeros(s: seq<real>): (r: seq<real>)
    ensures |r| == |s|
    ensures forall i :: 0 <= i < |s| ==> if s[i] == 0.0 then r[i] == ZeroShareFloor else r[i] == s[i]
  {
    seq(|s|, i requires 0 <= i < |s| => if s[i] == 0.0 then ZeroShareFloor else s[i])
  }

  /** The clamped share of each bin in a sample of `n` values. */
  function Shares(counts: seq<nat>, n: nat): (r: seq<real>)
    requires n > 0
    ensures |r| == |counts|
    ensures forall i :: 0 <= i < |r| ==> 0.0 < r[i]
    ensures forall i :: 0 <= i < |r| && counts[i] <= n ==> r[i] <= 1.0
    ensures forall i :: 0 <= i < |r| && counts[i] > 0 ==> r[i] == counts[i] as real / n as real
    ensures forall i :: 0 <= i < |r| && counts[i] == 0 ==> r[i] == ZeroShareFloor
  {
    ClampZeros(Fractions(counts, n))
  }

  /** Σ (p − r) · ln(p / r) over the bins. */
  function PsiSum(prod: seq<real>, ref: seq<real>, ln: real -> real): real
    requires |prod| == |ref|
    requires forall i :: 0 <= i < |ref| ==> ref[i] != 0.0
  {
    if ref == [] then 0.0
    else
      var n := |ref| - 1;
      PsiSum(prod[..n], ref[..n], ln) + (prod[n] - ref[n]) * ln(prod[n] / ref[n])
  }

  /** The sign law of a logarithm: non-negative from 1 up, non-positive up to 1. */
  ghost predicate LogSign(ln: real -> real)
  {
    forall x :: 0.0 < x ==> (1.0 <= x ==> 0.0 <= ln(x)) && (x <= 1.0 ==> ln(x) <= 0.0)
  }

  lemma TermNonNegative(p: real, r: real, ln: real -> real)
    requires 0.0 < p && 0.0 < r && LogSign(ln)
    ensures 0.0 <= (p - r) * ln(p / r)
  {
    var q := p / r;
    assert q * r == p;
    NonNegativeFactor(q, r);
    if p >= r {
      assert (q - 1.0) * r == p - r;
      NonNegativeFactor(q - 1.0, r);
    } else {
      assert (1.0 - q) * r == r - p;
      NonNegativeFactor(1.0 - q, r);
    }
  }

  /** For positive shares and a logarithm with the usual signs, PSI is never negative. */
  lemma {:induction false} PsiSumNonNegative(prod: seq<real>, ref: seq<real>, ln: real -> real)
    requires |prod| == |ref|
    requires forall i :: 0 <= i < |ref| ==> 0.0 < ref[i] && 0.0 < prod[i]
    requires LogSign(ln)
    ensures 0.0 <= PsiSum(prod, ref, ln)
  {
    if ref != [] {
      var n := |ref| - 1;
      PsiSumNonNegative(prod[..n], ref[..n], ln);
      TermNonNegative(prod[n], ref[n], ln);
    }
  }

  /** Identical shares give PSI zero, since ln(1) = 0. */
  lemma {:induction false} PsiSumSelf(s: seq<real>, ln: real -> real)
    requires forall i :: 0 <= i < |s| ==> s[i] != 0.0
    requires ln(1.0) == 0.0
    ensures PsiSum(s, s, ln) == 0.0
  {
    if s != [] {
      var n := |s| - 1;
      PsiSumSelf(s[..n], ln);
      assert s[n] / s[n] == 1.0;
    }
  }

  /** A PSI value: numpy yields NaN when the production sample is empty and
      there is at least one bin (its shares are 0/0). */
  datatype PsiValue = Finite(value: real) | NotANumber

  /** The PSI of a non-empty reference sample and a production sample over the
      given breakpoints, with `ln` standing for `np.log`. With fewer than two
      breakpoints there are no bins and the sum is empty. */
  function PopulationStabilityIndex(ref: seq<real>, prod: seq<real>, edges: seq<real>, ln: real -> real): (r: PsiValue)
    requires |ref| > 0
    ensures r.NotANumber? <==> |prod| == 0 && NumBins(edges) > 0
    ensures NumBins(edges) == 0 ==> r == Finite(0.0)
  {
    var refCounts := Histogram(ref, edges);
    var prodCounts := Histogram(prod, edges);
    if NumBins(edges) == 0 then Finite(0.0)
    else if |prod| == 0 then NotANumber
    else Finite(PsiSum(Shares(prodCounts, |prod|), Shares(refCounts, |ref|), ln))
  }

  /** PSI is non-negative whenever it is a number. */
  lemma PsiNonNegative(ref: seq<real>, prod: seq<real>, edges: seq<real>, ln: real -> real)
    requires |ref| > 0 && |prod| > 0
    requires LogSign(ln)
    ensures PopulationStabilityIndex(ref, prod, edges, ln).value >= 0.0
  {
    PsiSumNonNegative(Shares(Histogram(prod, edges), |prod|), Shares(Histogram(ref, edges), |ref|), ln);
  }

  /** Comparing a sample with itself gives PSI exactly zero. */
  lemma PsiOfSameSampleIsZero(xs: seq<real>, edges: seq<real>, ln: real -> real)
    requires |xs| > 0
    requires ln(1.0) == 0.0
    ensures PopulationStabilityIndex(xs, xs, edges, ln) == Finite(0.0)
  {
    PsiSumSelf(Shares(Histogram(xs, edges), |xs|), ln);
  }

  /** The least value of a non-empty sample. */
  function Min(xs: seq<real>): (m: real)
    requires |xs| > 0
    ensures m in xs && forall i :: 0 <= i < |xs| ==> m <= xs[i]
  {
    if |xs| == 1 then xs[0]
    else
      var m := Min(xs[..|xs| - 1]);
      assert xs == xs[..|xs| - 1] + [xs[|xs| - 1]];
      if xs[|xs| - 1] < m then xs[|xs| - 1] else m
  }

  /** The greatest value of a non-empty sample. */
  function Max(xs: seq<real>): (m: real)
    requires |xs| > 0
    ensures m in xs && forall i :: 0 <= i < |xs| ==> xs[i] <= m
  {
    if |xs| == 1 then xs[0]
    else
      var m := Max(xs[..|xs| - 1]);
      assert xs == xs[..|xs| - 1] + [xs[|xs| - 1]];
      if m < xs[|xs| - 1] then xs[|xs| - 1] else m
  }

  /** When the percentiles include the reference minimum and maximum and lie
      between them (as the 0th and 100th percentiles do), their deduplication
      `edges` (strictly increasing, the same values) runs from the minimum to
      the maximum; unless all reference values are equal it has at least two
      entries, every reference value is counted, and the reference fractions,
      before clamping, sum to one. */
  lemma ReferenceHistogramComplete(ref: seq<real>, percentiles: seq<real>, edges: seq<real>)
    requires |ref| > 0
    requires Min(ref) in percentiles && Max(ref) in percentiles
    requires forall i :: 0 <= i < |percentiles| ==> Min(ref) <= percentiles[i] <= Max(ref)
    requires StrictlyIncreasing(edges) && Elements(edges) == Elements(percentiles)
    ensures CoversReference(ref, edges)
  {
    var lo, hi := Min(ref), Max(ref);
    UniqueSpansRange(percentiles, edges, lo, hi);
    if |edges| >= 2 {
      assert forall i :: 0 <= i < |ref| ==> edges[0] <= ref[i] <= edges[|edges| - 1];
      HistogramComplete(ref, edges);
    }
  }

  /** Breakpoints spanning every value count every value. */
  lemma HistogramComplete(xs: seq<real>, edges: seq<real>)
    requires StrictlyIncreasing(edges) && |edges| >= 2
    requires forall i :: 0 <= i < |xs| ==> edges[0] <= xs[i] <= edges[|edges| - 1]
    requires |xs| > 0
    ensures Sum(Histogram(xs, edges)) == |xs|
    ensures SumReal(Fractions(Histogram(xs, edges), |xs|)) == 1.0
  {
    var h := Histogram(xs, edges);
    HistogramTotal(xs, edges);
    CountInRangeAll(xs, edges[0], edges[|edges| - 1]);
    assert Sum(h) == |xs|;
    FractionsSum(h, |xs|);
    WholeShare(|xs|);
  }

  lemma WholeShare(n: nat)
    requires n > 0
    ensures n as real / n as real == 1.0
  {
  }

  /** `np.linspace(0, 100, bins + 1)`: the percentile ranks of the breakpoints,
      in exact arithmetic. */
  function Linspace(bins: nat): (r: seq<real>)
    ensures |r| == bins + 1
    ensures r[0] == 0.0
    ensures bins > 0 ==> r[bins] == 100.0
    ensures bins > 0 ==> forall i :: 0 <= i < |r| ==> r[i] == 100.0 * (i as real) / (bins as real)
    ensures forall i :: 0 <= i < |r| ==> 0.0 <= r[i] <= 100.0
  {
    if bins == 0 then [0.0]
    else
      var r := seq(bins + 1, i requires 0 <= i <= bins => 100.0 * (i as real) / (bins as real));
      forall i | 0 <= i < |r| ensures 0.0 <= r[i] <= 100.0 {
        RankAtMostHundred(i, bins);
      }
      RankAtMostHundred(bins, bins);
      r
  }

  lemma RankAtMostHundred(i: nat, bins: nat)
    requires 0 < bins && i <= bins
    ensures 0.0 <= 100.0 * (i as real) / (bins as real) <= 100.0
    ensures i == bins ==> 100.0 * (i as real) / (bins as real) == 100.0
  {
    var b := bins as real;
    var a := 100.0 * (i as real);
    var x := a / b;
    assert x * b == a;
    NonNegativeFactor(x, b);
    NonNegativeFactor(100.0 - x, b);
  }

  lemma NonNegativeFactor(p: real, b: real)
    requires b > 0.0 && p * b >= 0.0
    ensures p >= 0.0
  {
  }

  /** `np.percentile(xs, Linspace(bins))`, with `percentile` standing for
      numpy's interpolated percentile of one rank. */
  function Percentiles(xs: seq<real>, bins: nat, percentile: (seq<real>, real) -> real): (r: seq<real>)
    ensures |r| == bins + 1
    ensures forall i :: 0 <= i < |r| ==> r[i] == percentile(xs, Linspace(bins)[i])
  {
    var ranks := Linspace(bins);
    seq(|ranks|, i requires 0 <= i < |ranks| => percentile(xs, ranks[i]))
  }

  /** The documented laws of a percentile: rank 0 is the minimum, rank 100 the
      maximum, and every rank in between lies between them. */
  ghost predicate PercentileLaws(percentile: (seq<real>, real) -> real)
  {
    && (forall xs: seq<real>, q: real :: |xs| > 0 && 0.0 <= q <= 100.0 ==>
          Min(xs) <= percentile(xs, q) <= Max(xs))
    && (forall xs: seq<real> :: |xs| > 0 ==> percentile(xs, 0.0) == Min(xs) && percentile(xs, 100.0) == Max(xs))
  }

  lemma PercentilesSpan(xs: seq<real>, bins: nat, percentile: (seq<real>, real) -> real)
    requires |xs| > 0 && bins > 0 && PercentileLaws(percentile)
    ensures Min(xs) in Percentiles(xs, bins, percentile) && Max(xs) in Percentiles(xs, bins, percentile)
    ensures var p := Percentiles(xs, bins, percentile);
      forall i :: 0 <= i < |p| ==> Min(xs) <= p[i] <= Max(xs)
  {
    var p := Percentiles(xs, bins, percentile);
    assert p[0] == Min(xs);
    assert p[bins] == Max(xs);
  }

  /** The breakpoints run from the reference minimum to its maximum; there is
      a bin exactly when the two differ, and then every reference value is
      counted and the reference fractions sum to one. */
  predicate CoversReference(ref: seq<real>, edges: seq<real>)
    requires |ref| > 0
  {
    && |edges| >= 1 && edges[0] == Min(ref) && edges[|edges| - 1] == Max(ref)
    && (NumBins(edges) > 0 <==> Min(ref) < Max(ref))
    && (NumBins(edges) > 0 ==> Sum(Histogram(ref, edges)) == |ref|)
    && (NumBins(edges) > 0 ==> SumReal(Fractions(Histogram(ref, edges), |ref|)) == 1.0)
  }

  /** The breakpoints `calculate_psi` computes for a non-empty reference
      sample run from its minimum to its maximum; there are at least two,
      hence at least one bin, unless all reference values are equal, and then
      every reference value falls in a bin and the reference fractions sum to
      one. */
  lemma ReferenceBreakpoints(ref: seq<real>, bins: nat, percentile: (seq<real>, real) -> real)
    requires |ref| > 0 && bins > 0 && PercentileLaws(percentile)
    ensures CoversReference(ref, Unique(Percentiles(ref, bins, percentile)))
  {
    PercentilesSpan(ref, bins, percentile);
    DeduplicatedReferenceHistogram(ref, Percentiles(ref, bins, percentile));
  }

  lemma DeduplicatedReferenceHistogram(ref: seq<real>, percentiles: seq<real>)
    requires |ref| > 0
    requires Min(ref) in percentiles && Max(ref) in percentiles
    requires forall i :: 0 <= i < |percentiles| ==> Min(ref) <= percentiles[i] <= Max(ref)
    ensures CoversReference(ref, Unique(percentiles))
  {
    UniqueDeduplicates(percentiles);
    ReferenceHistogramComplete(ref, percentiles, Unique(percentiles));
  }

  lemma {:induction false} BinCountAppend(a: seq<real>, b: seq<real>, edges: seq<real>, i: nat)
    requires i + 1 < |edges|
    ensures BinCount(a + b, edges, i) == BinCount(a, edges, i) + BinCount(b, edges, i)
  {
    if b == [] {
      assert a + b == a;
    } else {
      var n := |b| - 1;
      BinCountAppend(a, b[..n], edges, i);
      assert (a + b)[..|a + b| - 1] == a + b[..n];
    }
  }

  /** Bin counts do not depend on the order of the observations. */
  lemma {:induction false} BinCountPermutation(xs: seq<real>, ys: seq<real>, edges: seq<real>, i: nat)
    requires i + 1 < |edges|
    requires multiset(xs) == multiset(ys)
    ensures BinCount(xs, edges, i) == BinCount(ys, edges, i)
  {
    if xs == [] {
      assert |ys| == |multiset(ys)| == 0;
    } else {
      var n := |xs| - 1;
      var x := xs[n];
      assert xs == xs[..n] + [x];
      assert x in multiset(ys);
      var k :| 0 <= k < |ys| && ys[k] == x;
      var rest := ys[..k] + ys[k + 1..];
      assert ys == ys[..k] + [x] + ys[k + 1..];
      assert multiset(ys) == multiset(rest) + multiset{x};
      assert multiset(xs) == multiset(xs[..n]) + multiset{x};
      assert multiset(rest) == multiset(ys) - multiset{x};
      assert multiset(xs[..n]) == multiset(xs) - multiset{x};
      BinCountPermutation(xs[..n], rest, edges, i);
      BinCountAppend(ys[..k] + [x], ys[k + 1..], edges, i);
      BinCountAppend(ys[..k], [x], edges, i);
      BinCountAppend(ys[..k], ys[k + 1..], edges, i);
      assert [x][..0] == [];
    }
  }

  lemma HistogramPermutation(xs: seq<real>, ys: seq<real>, edges: seq<real>)
    requires multiset(xs) == multiset(ys)
    ensures Histogram(xs, edges) == Histogram(ys, edges)
  {
    forall i | 0 <= i < NumBins(edges) ensures BinCount(xs, edges, i) == BinCount(ys, edges, i) {
      BinCountPermutation(xs, ys, edges, i);
    }
  }

  /** A percentile depends on the sample's values, not on their order. */
  ghost predicate PercentileSymmetric(percentile: (seq<real>, real) -> real)
  {
    forall xs: seq<real>, ys: seq<real>, q: real :: multiset(xs) == multiset(ys) ==> percentile(xs, q) == percentile(ys, q)
  }

  /** PSI is invariant under reordering the observations of either sample. */
  lemma PsiPermutationInvariant(ref: seq<real>, ref': seq<real>, prod: seq<real>, prod': seq<real>,
                                bins: nat, percentile: (seq<real>, real) -> real, ln: real -> real)
    requires |ref| > 0
    requires multiset(ref) == multiset(ref') && multiset(prod) == multiset(prod')
    requires PercentileSymmetric(percentile)
    ensures |ref'| > 0
    ensures PopulationStabilityIndex(ref, prod, Unique(Percentiles(ref, bins, percentile)), ln) ==
            PopulationStabilityIndex(ref', prod', Unique(Percentiles(ref', bins, percentile)), ln)
  {
    assert |ref| == |multiset(ref)| == |multiset(ref')| == |ref'|;
    assert |prod| == |multiset(prod)| == |multiset(prod')| == |prod'|;
    assert Percentiles(ref, bins, percentile) == Percentiles(ref', bins, percentile);
    var edges := Unique(Percentiles(ref, bins, percentile));
    HistogramPermutation(ref, ref', edges);
    HistogramPermutation(prod, prod', edges);
  }
}
