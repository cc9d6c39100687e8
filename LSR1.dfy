// The limited-memory SR1 approximation of src/ParOptVec.c:
//   B*x = b0*x - Z*M^{-1}*Z^T*x
// with Z[i] = Y[i] - b0*S[i] over the window of correction pairs and
// M = b0*S^T S - L - L^T - D assembled from the cached tables.
// The window and the tables are kept as for LBFGS; the LU factorisation of
// M and the solve with it (LAPACK) are outside the model, so mult and
// multAdd take the product with the correction term as a vector argument.

module LimitedMemorySR1 {
  import opened ParOptVec
  import opened QuasiNewton

  /**
   * The first k slots of Z hold vectors of nvars entries whose buffers
   * zown numbers by slot, so no two of them share a buffer.
   */
  ghost predicate Numbered(Z: array<Vec>, zown: map<array<real>, nat>, k: nat, nvars: nat)
    reads Z
  {
    && k <= Z.Length
    && forall i :: 0 <= i < k ==> Z[i].x in zown && zown[Z[i].x] == i && Z[i].Valid() && Z[i].size == nvars
  }

  /** The n vectors Z of a new approximation, each of nvars entries with its own buffer. */
  method NewVectors(n: nat, nvars: nat) returns (Z: array<Vec>, ghost zown: map<array<real>, nat>)
    ensures fresh(Z) && Z.Length == n && Numbered(Z, zown, n, nvars)
    ensures forall a :: a in zown ==> fresh(a)
  {
    var blank := new Vec(nvars);
    Z := new Vec[n](_ => blank);
    zown := map[];
    var i := 0;
    while i < n
      invariant 0 <= i <= n && fresh(Z)
      invariant forall a :: a in zown ==> fresh(a)
      invariant Numbered(Z, zown, i, nvars)
    {
      zown := NewVector(Z, zown, i, nvars);
      i := i + 1;
    }
  }

  /** Slot k of Z gets a fresh vector of nvars entries. */
  method NewVector(Z: array<Vec>, ghost zown: map<array<real>, nat>, k: nat, nvars: nat)
    returns (ghost zown': map<array<real>, nat>)
    requires Numbered(Z, zown, k, nvars) && k < Z.Length
    modifies Z
    ensures Numbered(Z, zown', k + 1, nvars)
    ensures forall a :: a in zown' ==> a in zown || fresh(a)
  {
    var z := new Vec(nvars);
    Z[k] := z;
    zown' := zown[z.x := k];
  }

  /**
   * The leading m-by-m block of M holds the SR1 middle matrix
   * b0*B - L - L^T - D of the tables over a window of m pairs, L strictly
   * lower triangular and D diagonal.
   */
  ghost predicate MiddleM(M: array2<real>, b0: real, B: array2<real>, L: array2<real>, D: array<real>, m: nat)
    reads M, B, L, D
  {
    && m <= M.Length0 && m <= M.Length1 && TablesFit(D, B, L, m)
    && forall i, j :: 0 <= i < m && 0 <= j < m ==> M[i, j] == b0 * B[i, j] - Coupling(L, D, i, j)
  }

  /** The entry (i, j) of L + L^T + D, for L strictly lower triangular and D diagonal. */
  function Coupling(L: array2<real>, D: array<real>, i: nat, j: nat): real
    requires i < L.Length0 && j < L.Length0 && i < L.Length1 && j < L.Length1 && i < D.Length
    reads L, D
  {
    if j < i then L[i, j] else if i < j then L[j, i] else D[i]
  }

  /** M is symmetric whenever B is. */
  lemma MiddleSymmetric(M: array2<real>, b0: real, B: array2<real>, L: array2<real>, D: array<real>, m: nat)
    requires MiddleM(M, b0, B, L, D, m)
    requires forall i, j :: 0 <= i < m && 0 <= j < m ==> B[i, j] == B[j, i]
    ensures forall i, j :: 0 <= i < m && 0 <= j < m ==> M[i, j] == M[j, i]
  {
    forall i, j | 0 <= i < m && 0 <= j < m
      ensures M[i, j] == M[j, i]
    {
      assert B[i, j] == B[j, i] && Coupling(L, D, i, j) == Coupling(L, D, j, i);
    }
  }

  /**
   * The M assembly of update (leading dimension m): the leading m-by-m
   * block is zeroed and b0*B added, then L is subtracted below and its
   * transpose above the diagonal, and D from the diagonal. Those three
   * loops touch disjoint entries, so each entry is written once here.
   */
  method FillMiddleM(M: array2<real>, b0: real, B: array2<real>, L: array2<real>, D: array<real>, m: nat)
    requires m <= M.Length0 && m <= M.Length1 && TablesFit(D, B, L, m)
    requires M != B && M != L
    modifies M
    ensures MiddleM(M, b0, B, L, D, m)
    ensures forall i, j :: 0 <= i < M.Length0 && 0 <= j < M.Length1 && !(i < m && j < m) ==>
      M[i, j] == old(M[i, j])
  {
    forall i, j | 0 <= i < m && 0 <= j < m {
      M[i, j] := 0.0 + b0 * B[i, j] - Coupling(L, D, i, j);
    }
  }

  /** The first m vectors of Z hold Y[i] - b0*S[i] over the window w. */
  ghost predicate Differences(Z: array<Vec>, zown: map<array<real>, nat>, w: seq<Pair>, b0: real, m: nat)
    reads Z, zown.Keys
  {
    && m <= |w| && m <= Z.Length
    && forall i :: 0 <= i < m ==>
         Z[i].x in zown && |w[i].y| == |w[i].s| && Z[i].x[..] == AddScaled(w[i].y, -b0, w[i].s)
  }

  /** z = y - b0*s, by copyValues and axpy. */
  method SetDifference(z: Vec, y: Vec, s: Vec, b0: real)
    requires z.Valid() && y.Valid() && s.Valid() && z.size == y.size == s.size
    requires z.x != y.x && z.x != s.x
    modifies z.x
    ensures z.x[..] == AddScaled(y.x[..], -b0, s.x[..])
  {
    z.CopyValues(y);
    z.Axpy(-b0, s);
  }

  /** The Z and d0 loop of update: Z[i] = Y[i] - b0*S[i] and d0[i] = 1 for the m pairs held. */
  method LayoutDifferences(Z: array<Vec>, ghost zown: map<array<real>, nat>, d0: array<real>, S: array<Vec>, Y: array<Vec>,
                           ghost own: map<array<real>, nat>, ghost nvars: nat, b0: real, m: nat)
    requires Numbered(Z, zown, Z.Length, nvars) && Owned(S, Y, own) && Sized(S, Y, nvars)
    requires m <= S.Length && m <= Z.Length && m <= d0.Length
    requires zown.Keys !! own.Keys && d0 !in own && d0 !in zown
    modifies d0, zown.Keys
    ensures Window(S, Y, own, m) == old(Window(S, Y, own, m))
    ensures Differences(Z, zown, Window(S, Y, own, m), b0, m)
    ensures forall i :: 0 <= i < m ==> d0[i] == 1.0
  {
    ghost var w := Window(S, Y, own, m);
    var i := 0;
    while i < m
      invariant 0 <= i <= m
      invariant Window(S, Y, own, m) == w
      invariant Differences(Z, zown, w, b0, i)
      invariant forall k :: 0 <= k < i ==> d0[k] == 1.0
    {
      SetSlot(Z, zown, d0, S, Y, own, nvars, b0, i, m, w);
      i := i + 1;
    }
  }

  /** One step of the Z and d0 loop: Z[k] = Y[k] - b0*S[k] and d0[k] = 1. */
  method SetSlot(Z: array<Vec>, ghost zown: map<array<real>, nat>, d0: array<real>, S: array<Vec>, Y: array<Vec>,
                 ghost own: map<array<real>, nat>, ghost nvars: nat, b0: real, k: nat, m: nat, ghost w: seq<Pair>)
    requires Numbered(Z, zown, Z.Length, nvars) && Owned(S, Y, own) && Sized(S, Y, nvars)
    requires k < m <= S.Length && m <= Z.Length && m <= d0.Length
    requires zown.Keys !! own.Keys && d0 !in own && d0 !in zown
    requires Window(S, Y, own, m) == w && Differences(Z, zown, w, b0, k)
    requires forall j :: 0 <= j < k ==> d0[j] == 1.0
    modifies d0, Z[k].x
    ensures Window(S, Y, own, m) == w && Differences(Z, zown, w, b0, k + 1)
    ensures forall j :: 0 <= j < k + 1 ==> d0[j] == 1.0
  {
    assert Z[k].x != Y[k].x && Z[k].x != S[k].x;
    SetDifference(Z[k], Y[k], S[k], b0);
    d0[k] := 1.0;
    assert forall j :: 0 <= j < k ==> Z[j].x != Z[k].x;
  }

  /**
   * The tail of update over a window of m pairs: M from the tables and b0,
   * Z[i] = Y[i] - b0*S[i] with d0 = 1, and M copied into M_factor for the
   * factorisation.
   */
  method AssembleMiddle(M: array2<real>, MFactor: array2<real>, Z: array<Vec>, ghost zown: map<array<real>, nat>,
                        d0: array<real>, S: array<Vec>, Y: array<Vec>, ghost own: map<array<real>, nat>,
                        ghost nvars: nat, D: array<real>, B: array2<real>, L: array2<real>, b0: real, m: nat)
    requires m <= M.Length0 && m <= M.Length1 && m <= MFactor.Length0 && m <= MFactor.Length1 && TablesFit(D, B, L, m)
    requires M != B && M != L && M != MFactor && MFactor != B && MFactor != L && d0 != D
    requires Numbered(Z, zown, Z.Length, nvars) && Owned(S, Y, own) && Sized(S, Y, nvars)
    requires m <= S.Length && m <= Z.Length && m <= d0.Length
    requires zown.Keys !! own.Keys && d0 !in own && d0 !in zown && D !in zown
    modifies M, MFactor, d0, zown.Keys
    ensures Window(S, Y, own, m) == old(Window(S, Y, own, m))
    ensures Differences(Z, zown, Window(S, Y, own, m), b0, m) && forall i :: 0 <= i < m ==> d0[i] == 1.0
    ensures MiddleM(M, b0, B, L, D, m)
    ensures forall i, j :: 0 <= i < m && 0 <= j < m ==> MFactor[i, j] == M[i, j]
  {
    FillMiddleM(M, b0, B, L, D, m);
    LayoutDifferences(Z, zown, d0, S, Y, own, nvars, b0, m);
    assert MiddleM(M, b0, B, L, D, m);
    CopyBlock(M, MFactor, m);
  }

  class LSR1 {
    const nvars: nat
    const msubMax: nat
    var msub: nat
    var b0: real
    const S: array<Vec>
    const Y: array<Vec>
    const Z: array<Vec>
    const r: Vec
    const M: array2<real>
    const MFactor: array2<real>
    const d0: array<real>
    const rz: array<real>
    const D: array<real>
    const L: array2<real>
    const B: array2<real>
    /** The numbering of the S and Y slot buffers, see Owned. */
    ghost var own: map<array<real>, nat>
    /** The numbering of the Z buffers, see Numbered. */
    ghost const zown: map<array<real>, nat>

    /** The sizes of the arrays and the separation of the tables, fixed at construction. */
    ghost predicate Shape() {
      && 0 < msubMax
      && S.Length == msubMax && Y.Length == msubMax && Z.Length == msubMax
      && D.Length == msubMax && B.Length0 == msubMax && B.Length1 == msubMax
      && L.Length0 == msubMax && L.Length1 == msubMax
      && M.Length0 == msubMax && M.Length1 == msubMax
      && MFactor.Length0 == msubMax && MFactor.Length1 == msubMax
      && d0.Length == msubMax && rz.Length == msubMax
      && r.Valid() && r.size == nvars
      && D != d0 && D != rz && d0 != rz
      && D !in zown && d0 !in zown && rz !in zown
      && B != L && M != B && M != L && MFactor != B && MFactor != L && MFactor != M
    }

    /** The window and the tables cached over it; no slot shares a buffer with the rest. */
    ghost predicate Core()
      reads this`msub, this`own, S, Y, D, B, L, own.Keys
    {
      && Shape() && msub <= msubMax
      && D !in own && d0 !in own && rz !in own
      && History(S, Y, own, msub, nvars, D, B, L)
    }

    /** The Z vectors have buffers of their own, apart from the slots of the window. */
    ghost predicate Separate()
      reads this`own, Z
    {
      zown.Keys !! own.Keys && Numbered(Z, zown, msubMax, nvars)
    }

    /** The compact representation handed out by getCompactMat. */
    ghost predicate Compact()
      requires Core()
      reads this`msub, this`b0, this`own, S, Y, Z, D, B, L, own.Keys, zown.Keys, d0, M
    {
      && Differences(Z, zown, Window(S, Y, own, msub), b0, msub)
      && (forall i :: 0 <= i < msub ==> d0[i] == 1.0)
      && MiddleM(M, b0, B, L, D, msub)
    }

    ghost predicate Valid()
      reads this`msub, this`b0, this`own, S, Y, Z, D, B, L, own.Keys, zown.Keys, d0, M
    {
      Core() && Separate() && Compact()
    }

    /** The buffers a caller's vector must not share. */
    ghost function Buffers(): set<array<real>>
      reads this`own
    {
      own.Keys + zown.Keys + {D, d0}
    }

    /** The pairs held, oldest first. */
    ghost function Pairs(): seq<Pair>
      requires Core()
      reads this`msub, this`own, S, Y, D, B, L, own.Keys
    {
      Window(S, Y, own, msub)
    }

    /** An empty window of msubMax slots of nvars entries, b0 = 1, every table zero. */
    constructor (nvars: nat, msubMax: nat)
      requires 0 < msubMax
      ensures Valid() && this.nvars == nvars && this.msubMax == msubMax
      ensures msub == 0 && b0 == 1.0 && Pairs() == []
      ensures Zero(d0) && Zero(rz) && Zero(D) && ZeroBlock(M) && ZeroBlock(MFactor) && ZeroBlock(L) && ZeroBlock(B)
    {
      this.nvars := nvars;
      this.msubMax := msubMax;
      msub := 0;
      b0 := 1.0;
      var z, zo := NewVectors(msubMax, nvars);
      var s, y, o := NewSlots(msubMax, nvars);
      assert zo.Keys !! o.Keys;
      r := new Vec(nvars);
      var m, mf, d, w := NewCompactArrays(msubMax);
      var dd, l, b := NewTables(msubMax);
      assert Numbered(z, zo, msubMax, nvars);
      S, Y, Z, own, zown := s, y, z, o, zo;
      M, d0, MFactor, rz, D, L, B := m, d, mf, w, dd, l, b;
      new;
      assert Separate();
      assert Shape();
      assert Owned(S, Y, own) && Sized(S, Y, nvars);
      assert Gram(Window(S, Y, own, msub), D, B, L);
      assert History(S, Y, own, msub, nvars, D, B, L);
    }

    /** getMaxLimitedMemorySize: the capacity of the window. */
    method GetMaxLimitedMemorySize() returns (n: nat)
      requires Valid()
      ensures n == msubMax && n == S.Length && 0 < n
    {
      n := msubMax;
    }

    /** Empties the window and zeroes every table; the slot vectors are kept. */
    method Reset()
      requires Valid()
      modifies this`msub, this`b0, d0, rz, M, MFactor, D, L, B
      ensures Valid() && msub == 0 && b0 == 1.0 && Pairs() == [] && own == old(own)
      ensures Zero(d0) && Zero(rz) && Zero(D) && ZeroBlock(M) && ZeroBlock(MFactor) && ZeroBlock(L) && ZeroBlock(B)
    {
      msub := 0;
      b0 := 1.0;
      ClearArrays(d0, rz, M, MFactor, D, L, B);
    }

    /**
     * mult: y = b0*x, less the correction term c (the product with Z and
     * the factored M, computed outside the model) when the window is not empty.
     */
    method Mult(x: Vec, y: Vec, c: Vec)
      requires Valid() && x.Valid() && y.Valid() && c.Valid() && x.size == nvars && y.size == nvars && c.size == nvars
      requires y.x !in Buffers() && c.x != y.x
      modifies y.x
      ensures y.x[..] == Product(b0, msub, old(x.x[..]), old(c.x[..]))
    {
      ApplyProduct(x, y, c, b0, msub);
    }

    /** multAdd: y = y + alpha*(B*x), with B*x as mult computes it. */
    method MultAdd(alpha: real, x: Vec, y: Vec, c: Vec)
      requires Valid() && x.Valid() && y.Valid() && c.Valid() && x.size == nvars && y.size == nvars && c.size == nvars
      requires y.x !in Buffers() && c.x != y.x
      modifies y.x
      ensures y.x[..] == AddScaled(old(y.x[..]), alpha, Product(b0, msub, old(x.x[..]), old(c.x[..])))
    {
      ghost var y0, x0, c0 := y.x[..], x.x[..], c.x[..];
      var beta := b0 * alpha;
      AddProduct(y0, alpha, beta, b0, msub, x0, c0);
      y.Axpy(beta, x);
      if msub > 0 {
        y.Axpy(-alpha, c);
      }
    }

    /**
     * update: the pair (s, y) enters the window unmodified, dropping the
     * oldest pair when the window is full; on the first update b0 becomes
     * gamma/alpha = y^T y / y^T s. The tables and the compact
     * representation are brought up to date. The update type is always 0.
     */
    method Update(s: Vec, y: Vec) returns (updateType: int)
      requires Valid() && s.Valid() && y.Valid() && s.size == nvars && y.size == nvars
      requires s.x !in Buffers() && y.x !in Buffers()
      modifies this`b0, this`msub, this`own, S, Y, D, B, L, M, MFactor, d0, zown.Keys
      modifies S[if msub < msubMax then msub else 0].x, Y[if msub < msubMax then msub else 0].x
      ensures Valid() && updateType == 0
      ensures msub == if old(msub) < msubMax then old(msub) + 1 else msubMax
      ensures b0 == if old(msub) == 0 then old(Quotient(Dot(y.x[..], y.x[..]), Dot(y.x[..], s.x[..]))) else old(b0)
      ensures Pairs() == Slide(old(Pairs()), Pair(old(s.x[..]), old(y.x[..])), msubMax)
    {
      Rescale(s, y);
      Commit(s, y);
      updateType := 0;
    }

    /** The scalar step of update: on the first update b0 becomes y^T y / y^T s. */
    method Rescale(s: Vec, y: Vec)
      requires s.Valid() && y.Valid() && s.size == y.size
      modifies this`b0
      ensures b0 == if msub == 0 then Quotient(Dot(y.x[..], y.x[..]), Dot(y.x[..], s.x[..])) else old(b0)
    {
      var gamma := y.DotWith(y);
      var alpha := y.DotWith(s);
      if msub == 0 {
        b0 := Quotient(gamma, alpha);
      }
    }

    /**
     * The bookkeeping of update: the pair (s, y) enters the window, and the
     * tables and the compact representation follow it.
     */
    method Commit(s: Vec, y: Vec)
      requires Core() && Separate() && s.Valid() && y.Valid() && s.size == nvars && y.size == nvars
      requires s.x !in own && y.x !in own
      modifies this`msub, this`own, S, Y, D, B, L, M, MFactor, d0, zown.Keys
      modifies S[if msub < msubMax then msub else 0].x, Y[if msub < msubMax then msub else 0].x
      ensures Valid() && b0 == old(b0)
      ensures msub == if old(msub) < msubMax then old(msub) + 1 else msubMax
      ensures Pairs() == Slide(old(Pairs()), Pair(old(s.x[..]), old(y.x[..])), msubMax)
    {
      Store(s, y);
      Assemble();
    }

    /** The pair (s, y) enters the window and the tables D, B and L follow it. */
    method Store(s: Vec, y: Vec)
      requires Core() && s.Valid() && y.Valid() && s.size == nvars && y.size == nvars
      requires s.x !in own && y.x !in own
      modifies this`msub, this`own, S, Y, D, B, L
      modifies S[if msub < msubMax then msub else 0].x, Y[if msub < msubMax then msub else 0].x
      ensures Core() && own.Keys == old(own.Keys)
      ensures msub == if old(msub) < msubMax then old(msub) + 1 else msubMax
      ensures Pairs() == Slide(old(Pairs()), Pair(old(s.x[..]), old(y.x[..])), msubMax)
    {
      var m := msub;
      ghost var slot := if m < msubMax then m else 0;
      // The two buffers the new pair overwrites.
      ghost var sx, yx := S[slot].x, Y[slot].x;
      ghost var o := own;
      ghost var w0 := Window(S, Y, o, m);
      msub := if m < msubMax then m + 1 else msubMax;
      own := NextOwners(o, m, msubMax);
      assert History(S, Y, o, m, nvars, D, B, L) && Window(S, Y, o, m) == w0;
      var m';
      ghost var o';
      m', o' := StorePair(S, Y, D, B, L, o, m, s, y);
    }

    /**
     * The compact representation over the current window: M from the
     * tables and b0, Z[i] = Y[i] - b0*S[i], d0 = 1, and the copy of M
     * handed to the factorisation.
     */
    method Assemble()
      requires Core() && Separate()
      modifies M, MFactor, d0, zown.Keys
      ensures Valid() && Pairs() == old(Pairs())
      ensures msub == old(msub) && own == old(own) && b0 == old(b0)
      ensures forall i, j :: 0 <= i < msub && 0 <= j < msub ==> MFactor[i, j] == M[i, j]
    {
      AssembleMiddle(M, MFactor, Z, zown, d0, S, Y, own, nvars, D, B, L, b0, msub);
    }

    /**
     * getCompactMat: b0, d0, M and Z, and the size msub of the compact
     * representation, with Z[i] = Y[i] - b0*S[i] and d0 = 1.
     */
    method GetCompactMat() returns (scale: real, d: array<real>, mat: array2<real>, z: array<Vec>, n: nat)
      requires Valid()
      ensures scale == b0 && d == d0 && mat == M && z == Z && n == msub
      ensures forall i :: 0 <= i < n ==> d[i] == 1.0 && z[i].x[..] == AddScaled(Pairs()[i].y, -scale, Pairs()[i].s)
      ensures forall i, j :: 0 <= i < n && 0 <= j < n ==> mat[i, j] == mat[j, i]
    {
      GramSymmetric(Window(S, Y, own, msub), B);
      MiddleSymmetric(M, b0, B, L, D, msub);
      scale, d, mat, z, n := b0, d0, M, Z, msub;
    }
  }
}
