// The limited-memory BFGS approximation of src/ParOptVec.c:
//   B*x = b0*x - Z*diag(d0)*M^{-1}*diag(d0)*Z^T*x
// with Z = [S, Y] the window of correction pairs and
// M = [[b0*S^T S, L], [L^T, -D]] assembled from the cached tables.
// The LU factorisation of M and the solve with it (LAPACK) are outside the
// model: mult and multAdd take the product with the correction term as a
// vector argument.

module LimitedMemoryBFGS {
  import opened ParOptVec
  import opened QuasiNewton

  /**
   * The scaling b0 set on the first update, from gamma = y^T y and
   * alpha = y^T s: the quotient when it is positive, and 1 otherwise.
   */
  function InitialScale(gamma: real, alpha: real): (b: real)
    ensures b > 0.0
    ensures Quotient(gamma, alpha) > 0.0 ==> b == Quotient(gamma, alpha)
    ensures Quotient(gamma, alpha) <= 0.0 ==> b == 1.0
  {
    if Quotient(gamma, alpha) <= 0.0 then 1.0 else Quotient(gamma, alpha)
  }

  /** The scaling mult uses inside update: the first-update scaling while the window is empty. */
  function StartScale(m: nat, b0: real, gamma: real, alpha: real): real {
    if m == 0 then InitialScale(gamma, alpha) else b0
  }

  /**
   * The curvature test of update: with r = B*s, the pair (s, y) is damped
   * when alpha = y^T s is at most 0.2*beta, beta = r^T s.
   */
  predicate Damps(s: seq<real>, y: seq<real>, r: seq<real>)
    requires |s| == |y| == |r|
  {
    Dot(y, s) <= 0.2 * Dot(r, s)
  }

  /** The blend weight theta = 0.8*beta/(beta - alpha) of a damped update. */
  function Theta(s: seq<real>, y: seq<real>, r: seq<real>): real
    requires |s| == |y| == |r|
  {
    Quotient(0.8 * Dot(r, s), Dot(r, s) - Dot(y, s))
  }

  /**
   * The vector update stores with s: y itself, or for a damped update
   * theta*y + (1 - theta)*r.
   */
  function Stored(s: seq<real>, y: seq<real>, r: seq<real>): (v: seq<real>)
    requires |s| == |y| == |r|
    ensures |v| == |s|
  {
    if Damps(s, y, r) then AddScaled(Scaled(1.0 - Theta(s, y, r), r), Theta(s, y, r), y) else y
  }

  /**
   * Powell's damping: whenever beta = s^T B s is positive, the stored pair
   * satisfies the curvature condition s^T v >= 0.2*beta > 0, with equality
   * for a damped update.
   */
  lemma StoredCurvature(s: seq<real>, y: seq<real>, r: seq<real>)
    requires |s| == |y| == |r| && Dot(r, s) > 0.0
    ensures Dot(Stored(s, y, r), s) >= 0.2 * Dot(r, s) > 0.0
    ensures Damps(s, y, r) ==> Dot(Stored(s, y, r), s) == 0.2 * Dot(r, s)
  {
    if Damps(s, y, r) {
      DampedCurvature(s, y, r);
    } else {
      assert Stored(s, y, r) == y;
    }
  }

  /** A damped update stores a vector whose curvature along s is exactly 0.2*beta. */
  lemma DampedCurvature(s: seq<real>, y: seq<real>, r: seq<real>)
    requires |s| == |y| == |r| && Dot(r, s) > 0.0 && Damps(s, y, r)
    ensures Dot(Stored(s, y, r), s) == 0.2 * Dot(r, s)
  {
    var theta := Theta(s, y, r);
    assert Stored(s, y, r) == AddScaled(Scaled(1.0 - theta, r), theta, y);
    BlendedCurvature(s, y, r, theta);
  }

  /** Blending with the weight of a damped update gives curvature 0.2*beta along s. */
  lemma BlendedCurvature(s: seq<real>, y: seq<real>, r: seq<real>, theta: real)
    requires |s| == |y| == |r| && Dot(r, s) > 0.0 && Damps(s, y, r) && theta == Theta(s, y, r)
    ensures Dot(AddScaled(Scaled(1.0 - theta, r), theta, y), s) == 0.2 * Dot(r, s)
  {
    var alpha, beta := Dot(y, s), Dot(r, s);
    assert Dot(AddScaled(Scaled(1.0 - theta, r), theta, y), s) == (1.0 - theta) * beta + theta * alpha by {
      BlendDot(s, y, r, theta);
    }
    assert (1.0 - theta) * beta + theta * alpha == 0.2 * beta by {
      BlendCurvature(alpha, beta, theta);
    }
  }

  /** The dot product of a blend with s is the same blend of the dot products. */
  lemma BlendDot(s: seq<real>, y: seq<real>, r: seq<real>, theta: real)
    requires |s| == |y| == |r|
    ensures Dot(AddScaled(Scaled(1.0 - theta, r), theta, y), s) == (1.0 - theta) * Dot(r, s) + theta * Dot(y, s)
  {
    DotAxpy(Scaled(1.0 - theta, r), theta, y, s);
    DotScaled(1.0 - theta, r, s);
  }

  /** The scalar identity behind the damping: (1 - theta)*beta + theta*alpha = 0.2*beta. */
  lemma BlendCurvature(alpha: real, beta: real, theta: real)
    requires beta > 0.0 && alpha <= 0.2 * beta && theta == Quotient(0.8 * beta, beta - alpha)
    ensures (1.0 - theta) * beta + theta * alpha == 0.2 * beta
  {
    assert beta - alpha != 0.0;
    assert theta * (beta - alpha) == 0.8 * beta;
    calc {
      (1.0 - theta) * beta + theta * alpha;
      beta - theta * (beta - alpha);
      beta - 0.8 * beta;
    }
  }

  /**
   * The leading 2m-by-2m block of M holds the compact middle matrix
   * [[b0*B, L], [L^T, -D]] of the tables over a window of m pairs, L
   * strictly lower triangular and D diagonal.
   */
  ghost predicate CompactM(M: array2<real>, b0: real, B: array2<real>, L: array2<real>, D: array<real>, m: nat)
    reads M, B, L, D
  {
    && 2 * m <= M.Length0 && 2 * m <= M.Length1 && TablesFit(D, B, L, m)
    && (forall i, j :: 0 <= i < m && 0 <= j < m ==> M[i, j] == b0 * B[i, j])
    && (forall i, j :: 0 <= i < m && m <= j < 2 * m ==> M[i, j] == if j - m < i then L[i, j - m] else 0.0)
    && (forall i, j :: m <= i < 2 * m && 0 <= j < m ==> M[i, j] == if i - m < j then L[j, i - m] else 0.0)
    && (forall i, j :: m <= i < 2 * m && m <= j < 2 * m ==> M[i, j] == if i == j then -D[i - m] else 0.0)
  }

  /** M is symmetric whenever B is. */
  lemma CompactSymmetric(M: array2<real>, b0: real, B: array2<real>, L: array2<real>, D: array<real>, m: nat)
    requires CompactM(M, b0, B, L, D, m)
    requires forall i, j :: 0 <= i < m && 0 <= j < m ==> B[i, j] == B[j, i]
    ensures forall i, j :: 0 <= i < 2 * m && 0 <= j < 2 * m ==> M[i, j] == M[j, i]
  {
    forall i, j | 0 <= i < 2 * m && 0 <= j < 2 * m
      ensures M[i, j] == M[j, i]
    {
      if i < m && j < m {
        assert B[i, j] == B[j, i];
      }
    }
  }

  /**
   * The M assembly of update: the leading 4m^2 entries (the 2m-by-2m
   * block, leading dimension 2m) are zeroed, then b0*B, the two copies of
   * L and -D are written in.
   */
  method FillCompactM(M: array2<real>, b0: real, B: array2<real>, L: array2<real>, D: array<real>, m: nat)
    requires 2 * m <= M.Length0 && 2 * m <= M.Length1 && TablesFit(D, B, L, m)
    requires M != B && M != L
    modifies M
    ensures CompactM(M, b0, B, L, D, m)
    ensures forall i, j :: 0 <= i < M.Length0 && 0 <= j < M.Length1 && !(i < 2 * m && j < 2 * m) ==>
      M[i, j] == old(M[i, j])
  {
    ScaleInto(M, b0, B, m);
    FillCoupling(M, L, D, m);
  }

  /**
   * The off-diagonal blocks L and L^T and the trailing diagonal -D of M,
   * over a 2m-by-2m block that is zero outside its leading m-by-m block.
   */
  method FillCoupling(M: array2<real>, L: array2<real>, D: array<real>, m: nat)
    requires 2 * m <= M.Length0 && 2 * m <= M.Length1 && m <= L.Length0 && m <= L.Length1 && m <= D.Length
    requires M != L
    requires forall i, j :: 0 <= i < 2 * m && 0 <= j < 2 * m && !(i < m && j < m) ==> M[i, j] == 0.0
    modifies M
    ensures forall i, j :: 0 <= i < m && m <= j < 2 * m ==> M[i, j] == if j - m < i then L[i, j - m] else 0.0
    ensures forall i, j :: m <= i < 2 * m && 0 <= j < m ==> M[i, j] == if i - m < j then L[j, i - m] else 0.0
    ensures forall i, j :: m <= i < 2 * m && m <= j < 2 * m ==> M[i, j] == if i == j then -D[i - m] else 0.0
    ensures forall i, j :: 0 <= i < M.Length0 && 0 <= j < M.Length1 && ((i < m && j < m) || 2 * m <= i || 2 * m <= j) ==>
      M[i, j] == old(M[i, j])
  {
    // the entries (i, m + j) and (m + j, i) for j < i, indexed by where they land
    forall i, j | 0 <= i < m && m <= j < 2 * m && j - m < i {
      M[i, j] := L[i, j - m];
    }
    forall i, j | m <= i < 2 * m && 0 <= j < m && i - m < j {
      M[i, j] := L[j, i - m];
    }
    forall i | m <= i < 2 * m {
      M[i, i] := -D[i - m];
    }
  }

  /** The leading m-by-m block of M becomes b0*B and the rest of its 2m-by-2m block zero; the rest of M is not changed. */
  method ScaleInto(M: array2<real>, b0: real, B: array2<real>, m: nat)
    requires 2 * m <= M.Length0 && 2 * m <= M.Length1 && m <= B.Length0 && m <= B.Length1 && M != B
    modifies M
    ensures forall i, j :: 0 <= i < m && 0 <= j < m ==> M[i, j] == b0 * B[i, j]
    ensures forall i, j :: 0 <= i < 2 * m && 0 <= j < 2 * m && !(i < m && j < m) ==> M[i, j] == 0.0
    ensures forall i, j :: 0 <= i < M.Length0 && 0 <= j < M.Length1 && !(i < 2 * m && j < 2 * m) ==> M[i, j] == old(M[i, j])
  {
    forall i, j | 0 <= i < 2 * m && 0 <= j < 2 * m {
      M[i, j] := if i < m && j < m then b0 * B[i, j] else 0.0;
    }
  }

  /** Z = [S, Y] in its first 2m slots and d0 = [b0, ..., b0, 1, ..., 1]. */
  ghost predicate ZLayout(Z: array<Vec?>, S: array<Vec>, Y: array<Vec>, d0: array<real>, b0: real, m: nat)
    reads Z, S, Y, d0
  {
    && m <= S.Length && m <= Y.Length && 2 * m <= Z.Length && 2 * m <= d0.Length
    && (forall i :: 0 <= i < m ==> Z[i] == S[i] && d0[i] == b0)
    && (forall i :: m <= i < 2 * m ==> Z[i] == Y[i - m] && d0[i] == 1.0)
  }

  /** The Z and d0 loop of update. */
  method LayoutZ(Z: array<Vec?>, S: array<Vec>, Y: array<Vec>, d0: array<real>, b0: real, m: nat)
    requires m <= S.Length && m <= Y.Length && 2 * m <= Z.Length && 2 * m <= d0.Length
    modifies Z, d0
    ensures ZLayout(Z, S, Y, d0, b0, m)
  {
    var i := 0;
    while i < m
      invariant 0 <= i <= m
      invariant forall k :: 0 <= k < i ==> Z[k] == S[k] && d0[k] == b0
      invariant forall k :: m <= k < m + i ==> Z[k] == Y[k - m] && d0[k] == 1.0
    {
      Z[i] := S[i];
      Z[i + m] := Y[i];
      d0[i] := b0;
      d0[i + m] := 1.0;
      i := i + 1;
    }
  }

  /** The damping blend r = theta*y + (1 - theta)*r. */
  method Damp(r: Vec, y: Vec, theta: real)
    requires r.Valid() && y.Valid() && r.size == y.size && r.x != y.x
    modifies r.x
    ensures r.x[..] == AddScaled(Scaled(1.0 - theta, old(r.x[..])), theta, y.x[..])
  {
    r.Scale(1.0 - theta);
    r.Axpy(theta, y);
  }

  /**
   * The vector update stores, computed in the work vector r: r = B*s as mult
   * computes it with scale b0, then, when the curvature test alpha <= 0.2*beta
   * fails, the blend r = theta*y + (1 - theta)*r. Returns whether it blended.
   */
  method Blend(r: Vec, s: Vec, y: Vec, c: Vec, b0: real, m: nat, alpha: real) returns (damped: bool)
    requires r.Valid() && s.Valid() && y.Valid() && c.Valid() && r.size == s.size == y.size == c.size
    requires r.x != s.x && r.x != y.x && r.x != c.x
    requires alpha == Dot(y.x[..], s.x[..])
    modifies r.x
    ensures damped == Damps(s.x[..], y.x[..], Product(b0, m, s.x[..], c.x[..]))
    ensures r.x[..] == if damped then Stored(s.x[..], y.x[..], Product(b0, m, s.x[..], c.x[..])) else Product(b0, m, s.x[..], c.x[..])
  {
    ApplyProduct(s, r, c, b0, m);
    ghost var p := r.x[..];
    var beta := r.DotWith(s);
    damped := alpha <= 0.2 * beta;
    if damped {
      var theta := Quotient(0.8 * beta, beta - alpha);
      assert theta == Theta(s.x[..], y.x[..], p);
      Damp(r, y, theta);
      assert r.x[..] == Stored(s.x[..], y.x[..], p);
    }
  }

  /**
   * The scalar part of update for a window of m pairs with scale b0: on
   * the first update the scale becomes gamma/alpha of y, or 1 when that is
   * not positive; r = B*s is formed, damped when the curvature test fails,
   * and the new scale is gamma/alpha of the vector to be stored.
   */
  method Curvature(r: Vec, s: Vec, y: Vec, c: Vec, b0: real, m: nat) returns (damped: bool, scale: real)
    requires r.Valid() && s.Valid() && y.Valid() && c.Valid() && r.size == s.size == y.size == c.size
    requires r.x != s.x && r.x != y.x && r.x != c.x
    modifies r.x
    ensures var p := Product(StartScale(m, b0, Dot(y.x[..], y.x[..]), Dot(y.x[..], s.x[..])), m, s.x[..], c.x[..]);
      && damped == Damps(s.x[..], y.x[..], p)
      && (damped ==> r.x[..] == Stored(s.x[..], y.x[..], p))
    ensures var v := if damped then r.x[..] else y.x[..]; scale == Quotient(Dot(v, v), Dot(v, s.x[..]))
  {
    var gamma := y.DotWith(y);
    var alpha := y.DotWith(s);
    var start := b0;
    if m == 0 {
      start := Quotient(gamma, alpha);
      if start <= 0.0 {
        start := 1.0;
      }
    }
    damped := Blend(r, s, y, c, start, m, alpha);
    if damped {
      gamma := r.DotWith(r);
      alpha := r.DotWith(s);
    }
    scale := Quotient(gamma, alpha);
  }

  /**
   * The tail of update over a window of m pairs: M from the tables and b0,
   * Z = [S, Y] with d0 = [b0, 1], and M copied into M_factor for the
   * factorisation.
   */
  method AssembleCompact(M: array2<real>, MFactor: array2<real>, Z: array<Vec?>, d0: array<real>,
                         S: array<Vec>, Y: array<Vec>, D: array<real>, B: array2<real>, L: array2<real>, b0: real, m: nat)
    requires 2 * m <= M.Length0 && 2 * m <= M.Length1 && 2 * m <= MFactor.Length0 && 2 * m <= MFactor.Length1
    requires m <= S.Length && m <= Y.Length && 2 * m <= Z.Length && 2 * m <= d0.Length && TablesFit(D, B, L, m)
    requires M != B && M != L && M != MFactor && MFactor != B && MFactor != L && d0 != D
    modifies M, MFactor, Z, d0
    ensures ZLayout(Z, S, Y, d0, b0, m) && CompactM(M, b0, B, L, D, m)
    ensures forall i, j :: 0 <= i < 2 * m && 0 <= j < 2 * m ==> MFactor[i, j] == M[i, j]
  {
    FillCompactM(M, b0, B, L, D, m);
    LayoutZ(Z, S, Y, d0, b0, m);
    assert CompactM(M, b0, B, L, D, m);
    CopyBlock(M, MFactor, 2 * m);
  }

  class LBFGS {
    const nvars: nat
    const msubMax: nat
    var msub: nat
    var b0: real
    const S: array<Vec>
    const Y: array<Vec>
    const Z: array<Vec?>
    const r: Vec
    const M: array2<real>
    const MFactor: array2<real>
    const d0: array<real>
    const rz: array<real>
    const D: array<real>
    const L: array2<real>
    const B: array2<real>
    /** The numbering of the slot buffers, see Owned. */
    ghost var own: map<array<real>, nat>

    /** The sizes of the arrays and the separation of the tables, fixed at construction. */
    ghost predicate Shape() {
      && 0 < msubMax
      && S.Length == msubMax && Y.Length == msubMax && Z.Length == 2 * msubMax
      && D.Length == msubMax && B.Length0 == msubMax && B.Length1 == msubMax
      && L.Length0 == msubMax && L.Length1 == msubMax
      && M.Length0 == 2 * msubMax && M.Length1 == 2 * msubMax
      && MFactor.Length0 == 2 * msubMax && MFactor.Length1 == 2 * msubMax
      && d0.Length == 2 * msubMax && rz.Length == 2 * msubMax
      && r.Valid() && r.size == nvars
      && D != d0 && D != rz && d0 != rz && r.x != D && r.x != d0 && r.x != rz
      && B != L && M != B && M != L && MFactor != B && MFactor != L && MFactor != M
    }

    /** The window and the tables cached over it; no slot shares a buffer with the rest. */
    ghost predicate Core()
      reads this`msub, this`own, S, Y, D, B, L, own.Keys
    {
      && Shape() && msub <= msubMax
      && D !in own && d0 !in own && rz !in own && r.x !in own
      && History(S, Y, own, msub, nvars, D, B, L)
    }

    /** The compact representation handed out by getCompactMat. */
    ghost predicate Compact()
      reads this`msub, this`b0, S, Y, Z, d0, M, B, L, D
    {
      Shape() && msub <= msubMax && ZLayout(Z, S, Y, d0, b0, msub) && CompactM(M, b0, B, L, D, msub)
    }

    ghost predicate Valid()
      reads this`msub, this`b0, this`own, S, Y, Z, d0, M, D, B, L, own.Keys
    {
      Core() && Compact()
    }

    /** The buffers a caller's output vector must not share. */
    ghost function Buffers(): set<array<real>>
      reads this`own
    {
      own.Keys + {D, d0}
    }

    /** The pairs held, oldest first. */
    ghost function Pairs(): seq<Pair>
      requires Core()
      reads this`msub, this`own, S, Y, D, B, L, own.Keys
    {
      Window(S, Y, own, msub)
    }

    /**
     * B*s as update computes it with mult before storing (s, y): with the
     * first-update scaling while the window is empty, and with the
     * correction term c of the current window otherwise.
     */
    ghost function Predicted(s: seq<real>, y: seq<real>, c: seq<real>): seq<real>
      requires |s| == |y| == |c|
      reads this`msub, this`b0
    {
      Product(StartScale(msub, b0, Dot(y, y), Dot(y, s)), msub, s, c)
    }

    /** An empty window of msubMax slots of nvars entries, b0 = 1, every table zero. */
    constructor (nvars: nat, msubMax: nat)
      requires 0 < msubMax
      ensures Valid() && this.nvars == nvars && this.msubMax == msubMax
      ensures msub == 0 && b0 == 1.0 && Pairs() == []
      ensures Zero(d0) && Zero(rz) && Zero(D) && ZeroBlock(M) && ZeroBlock(MFactor) && ZeroBlock(L) && ZeroBlock(B)
    {
      this.nvars := nvars;
      this.msubMax := msubMax;
      msub := 0;
      b0 := 1.0;
      Z := new Vec?[2 * msubMax](_ => null);
      r := new Vec(nvars);
      var m, mf, d, z := NewCompactArrays(2 * msubMax);
      var dd, l, b := NewTables(msubMax);
      M, d0, MFactor, rz, D, L, B := m, d, mf, z, dd, l, b;
      var s, y, o := NewSlots(msubMax, nvars);
      S, Y, own := s, y, o;
      new;
      assert Shape();
      assert Owned(S, Y, own) && Sized(S, Y, nvars);
      assert Gram(Window(S, Y, own, msub), D, B, L);
      assert History(S, Y, own, msub, nvars, D, B, L);
    }

    /** getMaxLimitedMemorySize: the capacity of the window. */
    method GetMaxLimitedMemorySize() returns (n: nat)
      requires Valid()
      ensures n == msubMax && n == S.Length && 0 < n
    {
      n := msubMax;
    }

    /** Empties the window and zeroes every table; the slot vectors are kept. */
    method Reset()
      requires Valid()
      modifies this`msub, this`b0, d0, rz, M, MFactor, D, L, B
      ensures Valid() && msub == 0 && b0 == 1.0 && Pairs() == [] && own == old(own)
      ensures Zero(d0) && Zero(rz) && Zero(D) && ZeroBlock(M) && ZeroBlock(MFactor) && ZeroBlock(L) && ZeroBlock(B)
    {
      msub := 0;
      b0 := 1.0;
      ClearArrays(d0, rz, M, MFactor, D, L, B);
    }

    /**
     * mult: y = b0*x, less the correction term c (the product with the
     * factored M, computed outside the model) when the window is not empty.
     */
    method Mult(x: Vec, y: Vec, c: Vec)
      requires Valid() && x.Valid() && y.Valid() && c.Valid() && x.size == nvars && y.size == nvars && c.size == nvars
      requires y.x !in Buffers() && c.x != y.x
      modifies y.x
      ensures y.x[..] == Product(b0, msub, old(x.x[..]), old(c.x[..]))
    {
      ApplyProduct(x, y, c, b0, msub);
    }

    /** multAdd: y = y + alpha*(B*x), with B*x as mult computes it. */
    method MultAdd(alpha: real, x: Vec, y: Vec, c: Vec)
      requires Valid() && x.Valid() && y.Valid() && c.Valid() && x.size == nvars && y.size == nvars && c.size == nvars
      requires y.x !in Buffers() && c.x != y.x
      modifies y.x
      ensures y.x[..] == AddScaled(old(y.x[..]), alpha, Product(b0, msub, old(x.x[..]), old(c.x[..])))
    {
      ghost var y0, x0, c0 := y.x[..], x.x[..], c.x[..];
      var beta := b0 * alpha;
      AddProduct(y0, alpha, beta, b0, msub, x0, c0);
      y.Axpy(beta, x);
      if msub > 0 {
        y.Axpy(-alpha, c);
      }
    }

    /**
     * The compact representation over the current window: M from the
     * tables and b0, Z = [S, Y], d0 = [b0, 1], and the copy of M handed to
     * the factorisation.
     */
    method Assemble()
      requires Core()
      modifies M, MFactor, Z, d0
      ensures Core() && Compact() && Pairs() == old(Pairs())
      ensures msub == old(msub) && own == old(own) && b0 == old(b0)
      ensures forall i, j :: 0 <= i < 2 * msub && 0 <= j < 2 * msub ==> MFactor[i, j] == M[i, j]
    {
      AssembleCompact(M, MFactor, Z, d0, S, Y, D, B, L, b0, msub);
    }

    /**
     * update: the pair (s, y), damped when the curvature test fails, enters
     * the window, dropping the oldest pair when the window is full; the
     * tables and the compact representation are brought up to date.
     * Returns 1 for a damped update and 0 otherwise.
     */
    method Update(s: Vec, y: Vec, c: Vec) returns (updateType: int)
      requires Valid() && s.Valid() && y.Valid() && c.Valid() && s.size == nvars && y.size == nvars && c.size == nvars
      requires s.x !in Buffers() && y.x !in Buffers() && s.x != r.x && y.x != r.x && c.x != r.x
      modifies this`b0, this`msub, this`own, r.x, S, Y, D, B, L, M, MFactor, Z, d0
      modifies S[if msub < msubMax then msub else 0].x, Y[if msub < msubMax then msub else 0].x
      ensures Valid()
      ensures msub == if old(msub) < msubMax then old(msub) + 1 else msubMax
      ensures updateType == if old(Damps(s.x[..], y.x[..], Predicted(s.x[..], y.x[..], c.x[..]))) then 1 else 0
      ensures Pairs() == Slide(old(Pairs()), old(Pair(s.x[..], Stored(s.x[..], y.x[..], Predicted(s.x[..], y.x[..], c.x[..])))), msubMax)
      ensures b0 == Quotient(Dot(Pairs()[msub - 1].y, Pairs()[msub - 1].y), Dot(Pairs()[msub - 1].y, Pairs()[msub - 1].s))
    {
      var v;
      updateType, v := Rescale(s, y, c);
      Commit(s, v);
    }

    /**
     * The bookkeeping of update: the pair (s, v) enters the window, and the
     * tables and the compact representation follow it.
     */
    method Commit(s: Vec, v: Vec)
      requires Core() && s.Valid() && v.Valid() && s.size == nvars && v.size == nvars
      requires s.x !in own && v.x !in own
      modifies this`msub, this`own, S, Y, D, B, L, M, MFactor, Z, d0
      modifies S[if msub < msubMax then msub else 0].x, Y[if msub < msubMax then msub else 0].x
      ensures Valid() && b0 == old(b0)
      ensures msub == if old(msub) < msubMax then old(msub) + 1 else msubMax
      ensures Pairs() == Slide(old(Pairs()), Pair(old(s.x[..]), old(v.x[..])), msubMax)
    {
      Store(s, v);
      Assemble();
    }

    /**
     * The scalar step of update: b0 becomes gamma/alpha of the vector v to
     * be stored, which is y or its damped blend in r.
     */
    method Rescale(s: Vec, y: Vec, c: Vec) returns (updateType: int, v: Vec)
      requires Core() && s.Valid() && y.Valid() && c.Valid() && s.size == nvars && y.size == nvars && c.size == nvars
      requires s.x != r.x && y.x != r.x && c.x != r.x
      modifies this`b0, r.x
      ensures Core() && msub == old(msub) && own == old(own) && Pairs() == old(Pairs())
      ensures updateType == if old(Damps(s.x[..], y.x[..], Predicted(s.x[..], y.x[..], c.x[..]))) then 1 else 0
      ensures v == (if updateType == 1 then r else y) && v.Valid() && v.size == nvars
      ensures v.x[..] == old(Stored(s.x[..], y.x[..], Predicted(s.x[..], y.x[..], c.x[..])))
      ensures s.x[..] == old(s.x[..]) && b0 == Quotient(Dot(v.x[..], v.x[..]), Dot(v.x[..], s.x[..]))
    {
      var damped, scale := Curvature(r, s, y, c, b0, msub);
      b0 := scale;
      updateType := if damped then 1 else 0;
      v := if damped then r else y;
    }

    /** The pair (s, v) enters the window and the tables D, B and L follow it. */
    method Store(s: Vec, v: Vec)
      requires Core() && s.Valid() && v.Valid() && s.size == nvars && v.size == nvars
      requires s.x !in own && v.x !in own
      modifies this`msub, this`own, S, Y, D, B, L
      modifies S[if msub < msubMax then msub else 0].x, Y[if msub < msubMax then msub else 0].x
      ensures Core()
      ensures msub == if old(msub) < msubMax then old(msub) + 1 else msubMax
      ensures Pairs() == Slide(old(Pairs()), Pair(old(s.x[..]), old(v.x[..])), msubMax)
    {
      var m := msub;
      ghost var slot := if m < msubMax then m else 0;
      // The two buffers the new pair overwrites.
      ghost var sx, yx := S[slot].x, Y[slot].x;
      ghost var o := own;
      ghost var w0 := Window(S, Y, o, m);
      msub := if m < msubMax then m + 1 else msubMax;
      own := NextOwners(o, m, msubMax);
      assert History(S, Y, o, m, nvars, D, B, L) && Window(S, Y, o, m) == w0;
      var m';
      ghost var o';
      m', o' := StorePair(S, Y, D, B, L, o, m, s, v);
    }

    /**
     * getCompactMat: b0, d0, M and Z, and the size 2*msub of the compact
     * representation, laid out as Z = [S, Y] and d0 = [b0, ..., 1, ...].
     */
    method GetCompactMat() returns (scale: real, d: array<real>, mat: array2<real>, z: array<Vec?>, n: nat)
      requires Valid()
      ensures scale == b0 && d == d0 && mat == M && z == Z && n == 2 * msub
      ensures forall i :: 0 <= i < msub ==> z[i] == S[i] && d[i] == scale
      ensures forall i :: msub <= i < n ==> z[i] == Y[i - msub] && d[i] == 1.0
      ensures forall i, j :: 0 <= i < n && 0 <= j < n ==> mat[i, j] == mat[j, i]
    {
      GramSymmetric(Window(S, Y, own, msub), B);
      CompactSymmetric(M, b0, B, L, D, msub);
      scale, d, mat, z, n := b0, d0, M, Z, 2 * msub;
    }
  }
}
