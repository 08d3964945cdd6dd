/** Generic sequence helpers behind the table operators: filtering to a
    subsequence, reversal, and the skip / step / take windowing that Rust
    iterators perform. */
module Seqs {

  function Min(a: nat, b: nat): nat {
    if a <= b then a else b
  }

  /** `a` is obtained from `b` by deleting elements, keeping the order. */
  predicate IsSubseq<T(==)>(a: seq<T>, b: seq<T>)
    decreases |b|
  {
    |a| == 0 || (|b| > 0 && ((a[0] == b[0] && IsSubseq(a[1..], b[1..])) || IsSubseq(a, b[1..])))
  }

  /** The elements of `s` that satisfy `p`, in their original order
      (`Iterator::filter` followed by `collect`). */
  function Keep<T>(s: seq<T>, p: T -> bool): (r: seq<T>)
    ensures |r| <= |s|
  {
    if |s| == 0 then []
    else if p(s[0]) then [s[0]] + Keep(s[1..], p)
    else Keep(s[1..], p)
  }

  /** `Keep` returns an order-preserving subsequence holding every element
      that passes the test, as often as the input holds it, and nothing
      else. */
  lemma {:induction false} KeepSpec<T(!new)>(s: seq<T>, p: T -> bool)
    ensures forall x :: x in Keep(s, p) ==> x in s && p(x)
    ensures forall x :: x in s && p(x) ==> x in Keep(s, p)
    ensures forall x :: multiset(Keep(s, p))[x] == if p(x) then multiset(s)[x] else 0
    ensures IsSubseq(Keep(s, p), s)
    decreases |s|
  {
    if |s| > 0 {
      KeepSpec(s[1..], p);
      assert s == [s[0]] + s[1..];
      var rest := Keep(s[1..], p);
      if p(s[0]) {
        assert Keep(s, p) == [s[0]] + rest;
        assert Keep(s, p)[1..] == rest;
      }
    }
  }

  /** Filtering distributes over concatenation. */
  lemma {:induction false} KeepConcat<T>(a: seq<T>, b: seq<T>, p: T -> bool)
    ensures Keep(a + b, p) == Keep(a, p) + Keep(b, p)
    decreases |a|
  {
    if |a| == 0 {
      assert a + b == b;
    } else {
      assert (a + b)[1..] == a[1..] + b;
      KeepConcat(a[1..], b, p);
    }
  }

  lemma KeepCons<T>(a: T, s: seq<T>, p: T -> bool)
    ensures Keep([a] + s, p) == (if p(a) then [a] else []) + Keep(s, p)
  {
    assert ([a] + s)[0] == a;
    assert ([a] + s)[1..] == s;
  }

  /** Two neighbours that do not both pass the test may trade places without
      changing what `Keep` returns. */
  lemma KeepSwap<T>(x: T, y: T, u: seq<T>, p: T -> bool)
    requires !(p(x) && p(y))
    ensures Keep([y] + ([x] + u), p) == Keep([x] + ([y] + u), p)
  {
    KeepCons(y, [x] + u, p);
    KeepCons(x, u, p);
    KeepCons(x, [y] + u, p);
    KeepCons(y, u, p);
  }

  /** The sequence read back to front. */
  function Reverse<T>(s: seq<T>): (r: seq<T>)
    ensures |r| == |s|
    ensures forall i :: 0 <= i < |s| ==> r[i] == s[|s| - 1 - i]
  {
    if |s| == 0 then [] else Reverse(s[1..]) + [s[0]]
  }

  /** `Iterator::skip(n)`: everything after the first `n` elements. */
  function Skip<T>(s: seq<T>, n: nat): (r: seq<T>)
    ensures |r| == if n <= |s| then |s| - n else 0
    ensures forall i :: 0 <= i < |r| ==> r[i] == s[n + i]
  {
    if n >= |s| then [] else s[n..]
  }

  /** `Iterator::take(n)`: at most the first `n` elements. */
  function Take<T>(s: seq<T>, n: nat): (r: seq<T>)
    ensures |r| == Min(n, |s|)
    ensures forall i :: 0 <= i < |r| ==> r[i] == s[i]
  {
    if n >= |s| then s else s[..n]
  }

  /** The offset of the `i`-th element of a stride of width `step`,
      written as repeated addition so that proofs stay linear. */
  function Offset(i: nat, step: nat): nat
  {
    if i == 0 then 0 else Offset(i - 1, step) + step
  }

  lemma {:induction false} OffsetIsProduct(i: nat, step: nat)
    ensures Offset(i, step) == i * step
  {
    if i > 0 {
      OffsetIsProduct(i - 1, step);
    }
  }

  /** `Iterator::step_by(step)`: the first element, then every `step`-th
      one, until the positions run past the end of `s`. */
  function StepBy<T>(s: seq<T>, step: nat): seq<T>
    requires step > 0
    decreases |s|
  {
    if |s| == 0 then []
    else if step >= |s| then [s[0]]
    else [s[0]] + StepBy(s[step..], step)
  }

  /** Element `i` of `StepBy(s, step)` is `s[i * step]`, and the stride stops
      only once its next position lies beyond the end of `s`. */
  lemma {:induction false} StepBySpec<T>(s: seq<T>, step: nat)
    requires step > 0
    ensures forall i :: 0 <= i < |StepBy(s, step)| ==>
      Offset(i, step) < |s| && StepBy(s, step)[i] == s[Offset(i, step)]
    ensures Offset(|StepBy(s, step)|, step) >= |s|
    decreases |s|
  {
    if |s| > 0 && step < |s| {
      var rest := StepBy(s[step..], step);
      var r := StepBy(s, step);
      StepBySpec(s[step..], step);
      assert r == [s[0]] + rest;
      forall i | 1 <= i < |r|
        ensures Offset(i, step) < |s| && r[i] == s[Offset(i, step)]
      {
        var j := i - 1;
        assert r[i] == rest[j];
        assert rest[j] == s[step..][Offset(j, step)];
      }
      assert Offset(|r|, step) == Offset(|rest|, step) + step;
    }
  }

  /** `skip(start).step_by(step).take(size)`: element `i` of the window is
      element `start + i * step` of the input (see `OffsetIsProduct`), and the window is as long as
      `size` and the input allow. */
  function Window<T>(s: seq<T>, start: nat, size: nat, step: nat): (r: seq<T>)
    requires step > 0
    ensures |r| <= size
    ensures forall i :: 0 <= i < |r| ==> start + Offset(i, step) < |s| && r[i] == s[start + Offset(i, step)]
    ensures |r| < size ==> start + Offset(|r|, step) >= |s|
  {
    var tail := Skip(s, start);
    var strided := StepBy(tail, step);
    StepBySpec(tail, step);
    var r := Take(strided, size);
    assert forall i :: 0 <= i < |r| ==> r[i] == strided[i] == tail[Offset(i, step)];
    r
  }

  /** Quotient and remainder determine each other. */
  lemma DivUnique(x: nat, d: nat, q: nat, r: nat)
    requires d > 0 && x == q * d + r && r < d
    ensures x / d == q
  {
    var q', r' := x / d, x % d;
    assert x == q' * d + r';
    if q' < q {
      MulLess(q', q, d);
    } else if q' > q {
      MulLess(q, q', d);
    }
  }

  lemma MulLess(a: nat, b: nat, d: nat)
    requires a < b
    ensures a * d + d <= b * d
  {
    var k: nat := b - a - 1;
    assert b * d == (a + 1 + k) * d;
    assert (a + 1 + k) * d == a * d + d + k * d;
  }

  /** `StepBy` keeps `ceil(|s| / step)` elements. */
  lemma {:induction false} StepByLength<T>(s: seq<T>, step: nat)
    requires step > 0
    ensures |StepBy(s, step)| == (|s| + step - 1) / step
    decreases |s|
  {
    if |s| == 0 {
      DivUnique(step - 1, step, 0, step - 1);
    } else if step >= |s| {
      DivUnique(|s| + step - 1, step, 1, |s| - 1);
    } else {
      var n := |s[step..]| + step - 1;
      StepByLength(s[step..], step);
      DivUnique(n, step, n / step, n % step);
      DivUnique(n + step, step, n / step + 1, n % step);
    }
  }

  /** `min(size, ceil((n - start) / step))`, or 0 when `start >= n`. */
  function WindowSize(n: nat, start: nat, size: nat, step: nat): nat
    requires step > 0
  {
    Min(size, if start >= n then 0 else (n - start + step - 1) / step)
  }

  /** The window of `s` has `WindowSize(|s|, start, size, step)` elements. */
  lemma WindowLength<T>(s: seq<T>, start: nat, size: nat, step: nat)
    requires step > 0
    ensures |Window(s, start, size, step)| == WindowSize(|s|, start, size, step)
  {
    StepByLength(Skip(s, start), step);
    if start >= |s| {
      DivUnique(step - 1, step, 0, step - 1);
    }
  }
}
