// The single-process vector kernel of src/ParOptVec.c: a fixed-length
// buffer of scalars with in-place element-wise updates and two reductions.
// Scalars are exact reals; the MPI reductions reduce over one process.

module ParOptVec {

  function Abs(a: real): (r: real)
    ensures r >= 0.0 && (r == a || r == -a)
  {
    if a < 0.0 then -a else a
  }

  /** The dot product of two vectors of one length, summed front to back. */
  function Dot(a: seq<real>, b: seq<real>): real
    requires |a| == |b|
  {
    if |a| == 0 then 0.0
    else Dot(a[..|a| - 1], b[..|a| - 1]) + a[|a| - 1] * b[|a| - 1]
  }

  /** The l-infinity norm, as the loop of maxabs computes it from 0. */
  function MaxNorm(s: seq<real>): (m: real)
    ensures forall i :: 0 <= i < |s| ==> Abs(s[i]) <= m
    ensures (|s| == 0 && m == 0.0) || exists i :: 0 <= i < |s| && m == Abs(s[i])
  {
    if |s| == 0 then 0.0
    else
      var m0 := MaxNorm(s[..|s| - 1]);
      assert forall i :: 0 <= i < |s| - 1 ==> s[..|s| - 1][i] == s[i];
      if Abs(s[|s| - 1]) > m0 then Abs(s[|s| - 1]) else m0
  }

  function Constant(n: nat, alpha: real): (r: seq<real>)
    ensures |r| == n && forall i :: 0 <= i < n ==> r[i] == alpha
  {
    seq(n, _ => alpha)
  }

  function Scaled(alpha: real, s: seq<real>): (r: seq<real>)
    ensures |r| == |s| && forall i :: 0 <= i < |s| ==> r[i] == alpha * s[i]
  {
    seq(|s|, i requires 0 <= i < |s| => alpha * s[i])
  }

  /** y + alpha*x, entry by entry, over the length of y. */
  function AddScaled(y: seq<real>, alpha: real, x: seq<real>): (r: seq<real>)
    requires |y| == |x|
    ensures |r| == |y| && forall i :: 0 <= i < |y| ==> r[i] == y[i] + alpha * x[i]
  {
    seq(|y|, i requires 0 <= i < |y| => y[i] + alpha * x[i])
  }

  lemma {:induction false} DotSymmetric(a: seq<real>, b: seq<real>)
    requires |a| == |b|
    ensures Dot(a, b) == Dot(b, a)
  {
    if |a| > 0 {
      DotSymmetric(a[..|a| - 1], b[..|a| - 1]);
    }
  }

  lemma {:induction false} DotSelfNonNegative(a: seq<real>)
    ensures Dot(a, a) >= 0.0
  {
    if |a| > 0 {
      DotSelfNonNegative(a[..|a| - 1]);
    }
  }

  /** A freshly zeroed vector is orthogonal to everything. */
  lemma {:induction false} DotZero(b: seq<real>)
    ensures Dot(Constant(|b|, 0.0), b) == 0.0
  {
    var n := |b|;
    if n > 0 {
      assert Constant(n, 0.0)[..n - 1] == Constant(n - 1, 0.0);
      DotZero(b[..n - 1]);
    }
  }

  /** scale is linear in the dot product. */
  lemma {:induction false} DotScaled(alpha: real, a: seq<real>, b: seq<real>)
    requires |a| == |b|
    ensures Dot(Scaled(alpha, a), b) == alpha * Dot(a, b)
  {
    if |a| > 0 {
      var n := |a| - 1;
      assert forall i :: 0 <= i < n ==> Scaled(alpha, a)[..n][i] == Scaled(alpha, a[..n])[i];
      assert Scaled(alpha, a)[..n] == Scaled(alpha, a[..n]);
      DotScaled(alpha, a[..n], b[..n]);
    }
  }

  /** A prefix of y + alpha*x is the same combination of the prefixes. */
  lemma AddScaledPrefix(y: seq<real>, alpha: real, x: seq<real>, n: nat)
    requires |y| == |x| && n <= |y|
    ensures AddScaled(y, alpha, x)[..n] == AddScaled(y[..n], alpha, x[..n])
  {
    assert forall i :: 0 <= i < n ==> AddScaled(y, alpha, x)[..n][i] == AddScaled(y[..n], alpha, x[..n])[i];
  }

  /** axpy is linear in the dot product. */
  lemma {:induction false} DotAxpy(y: seq<real>, alpha: real, x: seq<real>, b: seq<real>)
    requires |y| == |x| == |b|
    ensures Dot(AddScaled(y, alpha, x), b) == Dot(y, b) + alpha * Dot(x, b)
  {
    if |y| > 0 {
      var n := |y| - 1;
      AddScaledPrefix(y, alpha, x, n);
      DotAxpy(y[..n], alpha, x[..n], b[..n]);
      var r := AddScaled(y, alpha, x);
      var dy, dx := Dot(y[..n], b[..n]), Dot(x[..n], b[..n]);
      assert Dot(r, b) == dy + alpha * dx + r[n] * b[n];
      assert r[n] * b[n] == y[n] * b[n] + alpha * (x[n] * b[n]) by {
        assert r[n] == y[n] + alpha * x[n];
      }
      assert alpha * dx + alpha * (x[n] * b[n]) == alpha * (dx + x[n] * b[n]);
    }
  }

  /**
   * ParOptVec: `size` scalars owned by this object. Its buffer `x` is fixed
   * for the object's lifetime; the operations change the buffer's entries.
   */
  class Vec {
    const size: nat
    const x: array<real>

    ghost predicate Valid() {
      x.Length == size
    }

    /** Allocates n entries, all zero. */
    constructor (n: nat)
      ensures Valid() && size == n && fresh(x)
      ensures x[..] == Constant(n, 0.0)
    {
      size := n;
      x := new real[n](_ => 0.0);
    }

    /** Every entry becomes alpha. */
    method Set(alpha: real)
      requires Valid()
      modifies x
      ensures x[..] == Constant(size, alpha)
    {
      var i := 0;
      while i < size
        invariant 0 <= i <= size
        invariant forall k :: 0 <= k < i ==> x[k] == alpha
      {
        x[i] := alpha;
        i := i + 1;
      }
    }

    /** memset of the whole buffer to zero. */
    method ZeroEntries()
      requires Valid()
      modifies x
      ensures x[..] == Constant(size, 0.0)
    {
      forall i | 0 <= i < x.Length {
        x[i] := 0.0;
      }
    }

    /** memcpy from vec: this vector takes vec's values; vec is not changed. */
    method CopyValues(vec: Vec)
      requires Valid() && vec.Valid() && vec.size == size
      modifies x
      ensures x[..] == old(vec.x[..])
      ensures vec.x != x ==> vec.x[..] == old(vec.x[..])
    {
      forall i | 0 <= i < x.Length {
        x[i] := vec.x[i];
      }
    }

    /** x <- alpha*x. */
    method Scale(alpha: real)
      requires Valid()
      modifies x
      ensures x[..] == Scaled(alpha, old(x[..]))
    {
      var i := 0;
      while i < size
        invariant 0 <= i <= size
        invariant forall k :: 0 <= k < i ==> x[k] == alpha * old(x[k])
        invariant forall k :: i <= k < size ==> x[k] == old(x[k])
      {
        x[i] := alpha * x[i];
        i := i + 1;
      }
      assert forall k :: 0 <= k < size ==> x[..][k] == Scaled(alpha, old(x[..]))[k];
    }

    /** x <- x + alpha*vec; vec is not changed unless it is this very buffer. */
    method Axpy(alpha: real, vec: Vec)
      requires Valid() && vec.Valid() && vec.size == size
      modifies x
      ensures x[..] == AddScaled(old(x[..]), alpha, old(vec.x[..]))
      ensures vec.x != x ==> vec.x[..] == old(vec.x[..])
    {
      var i := 0;
      while i < size
        invariant 0 <= i <= size
        invariant forall k :: 0 <= k < i ==> x[k] == old(x[k]) + alpha * old(vec.x[k])
        invariant forall k :: i <= k < size ==> x[k] == old(x[k]) && vec.x[k] == old(vec.x[k])
        invariant vec.x != x ==> vec.x[..] == old(vec.x[..])
      {
        x[i] := x[i] + alpha * vec.x[i];
        i := i + 1;
      }
      assert forall k :: 0 <= k < size ==> x[..][k] == AddScaled(old(x[..]), alpha, old(vec.x[..]))[k];
    }

    /** The dot product with vec (one process, so the all-reduce is the identity). */
    method DotWith(vec: Vec) returns (r: real)
      requires Valid() && vec.Valid() && vec.size == size
      ensures r == Dot(x[..], vec.x[..])
    {
      r := 0.0;
      var i := 0;
      while i < size
        invariant 0 <= i <= size
        invariant r == Dot(x[..i], vec.x[..i])
      {
        assert x[..i + 1][..i] == x[..i] && vec.x[..i + 1][..i] == vec.x[..i];
        r := r + x[i] * vec.x[i];
        i := i + 1;
      }
      assert x[..] == x[..size] && vec.x[..] == vec.x[..size];
    }

    /** The largest absolute entry, or 0 for an empty vector. */
    method MaxAbs() returns (r: real)
      requires Valid()
      ensures forall i :: 0 <= i < size ==> Abs(x[i]) <= r
      ensures (size == 0 && r == 0.0) || exists i :: 0 <= i < size && r == Abs(x[i])
    {
      r := 0.0;
      var i := 0;
      while i < size
        invariant 0 <= i <= size
        invariant r == MaxNorm(x[..i])
      {
        assert x[..i + 1][..i] == x[..i];
        if Abs(x[i]) > r {
          r := Abs(x[i]);
        }
        i := i + 1;
      }
      assert x[..] == x[..size];
      ghost var m := MaxNorm(x[..]);
      assert forall i :: 0 <= i < size ==> x[..][i] == x[i];
    }

    /** Hands out the buffer and its length. */
    method GetArray() returns (values: array<real>, n: nat)
      requires Valid()
      ensures values == x && n == size && values.Length == n
    {
      values := x;
      n := size;
    }
  }
}
