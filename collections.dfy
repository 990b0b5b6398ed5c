/** Generic sequence helpers shared by the drift-detection model: counting,
    positions, sums, and the Option/Result wrappers used for the error paths. */
module Collections {

  datatype Option<+T> = None | Some(value: T)

  datatype Result<+T, +E> = Ok(value: T) | Err(error: E)

  /** The set of elements of a sequence (Python's `set(xs)`). */
  function Elements<T>(xs: seq<T>): set<T>
  {
    set x | x in xs
  }

  /** No element occurs twice. */
  predicate Distinct<T(==)>(xs: seq<T>)
  {
    forall i, j :: 0 <= i < j < |xs| ==> xs[i] != xs[j]
  }

  /** Number of occurrences of `x` in `xs`. */
  function Count<T(==)>(xs: seq<T>, x: T): (n: nat)
    ensures n <= |xs|
    ensures n == 0 <==> x !in xs
  {
    if xs == [] then 0
    else Count(xs[..|xs| - 1], x) + (if xs[|xs| - 1] == x then 1 else 0)
  }

  lemma CountSnoc<T>(xs: seq<T>, v: T, x: T)
    ensures Count(xs + [v], x) == Count(xs, x) + (if v == x then 1 else 0)
  {
    assert (xs + [v])[..|xs|] == xs;
  }

  lemma {:induction false} CountAppend<T>(a: seq<T>, b: seq<T>, x: T)
    ensures Count(a + b, x) == Count(a, x) + Count(b, x)
  {
    if b == [] {
      assert a + b == a;
    } else {
      var n := |b| - 1;
      CountAppend(a, b[..n], x);
      assert (a + b)[..|a + b| - 1] == a + b[..n];
    }
  }

  /** In a duplicate-free sequence a member occurs exactly once. */
  lemma {:induction false} CountDistinct<T>(xs: seq<T>, x: T)
    requires Distinct(xs)
    ensures Count(xs, x) == if x in xs then 1 else 0
  {
    if xs != [] {
      var init := xs[..|xs| - 1];
      assert Distinct(init);
      CountDistinct(init, x);
      if xs[|xs| - 1] == x {
        assert x !in init by {
          forall i | 0 <= i < |init| ensures init[i] != x {
            assert xs[i] != xs[|xs| - 1];
          }
        }
      } else {
        assert x in xs <==> x in init by {
          assert xs == init + [xs[|xs| - 1]];
        }
      }
    }
  }

  /** The position of the first occurrence of `x`. */
  function IndexOf<T(==)>(xs: seq<T>, x: T): (i: nat)
    requires x in xs
    ensures i < |xs| && xs[i] == x
    ensures forall j :: 0 <= j < i ==> xs[j] != x
  {
    if xs[0] == x then 0 else 1 + IndexOf(xs[1..], x)
  }

  /** Extending a sequence does not move the elements already there. */
  lemma {:induction false} IndexOfPrefix<T>(xs: seq<T>, ys: seq<T>, x: T)
    requires x in xs
    ensures IndexOf(xs + ys, x) == IndexOf(xs, x)
  {
    if xs[0] != x {
      assert (xs + ys)[1..] == xs[1..] + ys;
      IndexOfPrefix(xs[1..], ys, x);
    }
  }

  /** The elements of `r` occur in `xs`, and in the same order. */
  predicate InOrderOf<T(==)>(r: seq<T>, xs: seq<T>)
  {
    && (forall i :: 0 <= i < |r| ==> r[i] in xs)
    && (forall i, j :: 0 <= i < j < |r| ==> IndexOf(xs, r[i]) < IndexOf(xs, r[j]))
  }

  /** Extending the reference sequence keeps the order. */
  lemma InOrderExtend<T>(r: seq<T>, xs: seq<T>, x: T)
    requires InOrderOf(r, xs)
    ensures InOrderOf(r, xs + [x])
  {
    forall i | 0 <= i < |r| ensures IndexOf(xs + [x], r[i]) == IndexOf(xs, r[i]) {
      IndexOfPrefix(xs, [x], r[i]);
    }
  }

  /** Extending both by a new element keeps the order. */
  lemma InOrderAppend<T>(r: seq<T>, xs: seq<T>, x: T)
    requires InOrderOf(r, xs) && x !in xs
    ensures InOrderOf(r + [x], xs + [x])
  {
    var ys := xs + [x];
    forall i | 0 <= i < |r| ensures IndexOf(ys, r[i]) == IndexOf(xs, r[i]) < |xs| {
      IndexOfPrefix(xs, [x], r[i]);
    }
    assert IndexOf(ys, x) == |xs|;
  }

  function Sum(xs: seq<nat>): nat
  {
    if xs == [] then 0 else Sum(xs[..|xs| - 1]) + xs[|xs| - 1]
  }

  function SumReal(xs: seq<real>): real
  {
    if xs == [] then 0.0 else SumReal(xs[..|xs| - 1]) + xs[|xs| - 1]
  }

  /** The sum of a pointwise sum is the sum of the sums. */
  lemma {:induction false} SumPointwise(a: seq<nat>, b: seq<nat>, c: seq<nat>)
    requires |a| == |b| == |c|
    requires forall i :: 0 <= i < |c| ==> c[i] == a[i] + b[i]
    ensures Sum(c) == Sum(a) + Sum(b)
  {
    if c != [] {
      var n := |c| - 1;
      SumPointwise(a[..n], b[..n], c[..n]);
    }
  }

  /** A sequence of naturals sums to zero exactly when every entry is zero. */
  lemma {:induction false} SumZero(xs: seq<nat>)
    ensures Sum(xs) == 0 <==> forall i :: 0 <= i < |xs| ==> xs[i] == 0
  {
    if xs != [] {
      var n := |xs| - 1;
      SumZero(xs[..n]);
      assert forall i :: 0 <= i < n ==> xs[..n][i] == xs[i];
    }
  }
}
