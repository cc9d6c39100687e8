// The limited-memory quasi-Newton approximations of src/ParOptVec.c (LBFGS
// and LSR1): a window of at most msub_max correction pairs (s, y) kept in
// arrays of vector pointers, and the small tables D = diag(S^T Y),
// B = S^T S and L = strict lower part of S^T Y that are cached over the window.
// This module holds the window bookkeeping shared by both classes.

module QuasiNewton {
  import opened ParOptVec

  /**
   * Real division as the update uses it. The IEEE quotient by zero is an
   * infinity or NaN, which a real cannot hold; the model yields 0 there.
   */
  function Quotient(a: real, b: real): (q: real)
    ensures b != 0.0 ==> q * b == a
  {
    if b == 0.0 then 0.0 else a / b
  }

  /**
   * The buffers of the n slots of S and of Y, numbered by own: the buffer
   * of S-slot i is numbered i and that of Y-slot i n+i, so no two slots
   * share a buffer and a buffer outside own belongs to no slot.
   */
  ghost predicate Owned(S: array<Vec>, Y: array<Vec>, own: map<array<real>, nat>)
    reads S, Y
  {
    && S.Length == Y.Length
    && (forall i :: 0 <= i < S.Length ==> S[i].x in own && own[S[i].x] == i)
    && (forall i :: 0 <= i < Y.Length ==> Y[i].x in own && own[Y[i].x] == S.Length + i)
  }

  /** Every slot holds a vector of nvars entries. */
  ghost predicate Sized(S: array<Vec>, Y: array<Vec>, nvars: nat)
    reads S, Y
  {
    && (forall i :: 0 <= i < S.Length ==> S[i].Valid() && S[i].size == nvars)
    && (forall i :: 0 <= i < Y.Length ==> Y[i].Valid() && Y[i].size == nvars)
  }

  /** The first k slots of S and Y hold vectors of nvars entries whose buffers own numbers i and n+i. */
  ghost predicate SlotsFrom(S: array<Vec>, Y: array<Vec>, own: map<array<real>, nat>, k: nat, nvars: nat)
    reads S, Y
  {
    && k <= S.Length == Y.Length
    && (forall i :: 0 <= i < k ==> S[i].x in own && own[S[i].x] == i && S[i].Valid() && S[i].size == nvars)
    && (forall i :: 0 <= i < k ==> Y[i].x in own && own[Y[i].x] == S.Length + i && Y[i].Valid() && Y[i].size == nvars)
  }

  /**
   * The slots of a new approximation: n fresh vectors of nvars entries
   * for S and for Y, each with its own buffer.
   */
  method NewSlots(n: nat, nvars: nat) returns (S: array<Vec>, Y: array<Vec>, ghost own: map<array<real>, nat>)
    ensures fresh(S) && fresh(Y) && S.Length == n
    ensures Owned(S, Y, own) && Sized(S, Y, nvars)
    ensures forall a :: a in own ==> fresh(a)
  {
    var blank := new Vec(nvars);
    S := new Vec[n](_ => blank);
    Y := new Vec[n](_ => blank);
    own := map[];
    var i := 0;
    while i < n
      invariant 0 <= i <= n && fresh(S) && fresh(Y)
      invariant forall a :: a in own ==> fresh(a)
      invariant SlotsFrom(S, Y, own, i, nvars)
    {
      own := NewSlot(S, Y, own, i, nvars);
      i := i + 1;
    }
  }

  /** Slot k of S and of Y gets a fresh vector of nvars entries. */
  method NewSlot(S: array<Vec>, Y: array<Vec>, ghost own: map<array<real>, nat>, k: nat, nvars: nat)
    returns (ghost own': map<array<real>, nat>)
    requires SlotsFrom(S, Y, own, k, nvars) && k < S.Length && S != Y
    modifies S, Y
    ensures SlotsFrom(S, Y, own', k + 1, nvars)
    ensures forall a :: a in own' ==> a in own || fresh(a)
  {
    var s := new Vec(nvars);
    var y := new Vec(nvars);
    S[k] := s;
    Y[k] := y;
    own' := own[s.x := k][y.x := S.Length + k];
  }

  /** Every entry of a is zero. */
  ghost predicate Zero(a: array<real>)
    reads a
  {
    forall i :: 0 <= i < a.Length ==> a[i] == 0.0
  }

  /** Every entry of a is zero. */
  ghost predicate ZeroBlock(a: array2<real>)
    reads a
  {
    forall i, j :: 0 <= i < a.Length0 && 0 <= j < a.Length1 ==> a[i, j] == 0.0
  }

  /** The zeroed tables D, B and L of a window of n pairs. */
  method NewTables(n: nat) returns (D: array<real>, B: array2<real>, L: array2<real>)
    ensures fresh(D) && fresh(B) && fresh(L) && B != L
    ensures D.Length == n && B.Length0 == n && B.Length1 == n && L.Length0 == n && L.Length1 == n
    ensures Zero(D) && ZeroBlock(B) && ZeroBlock(L)
  {
    D := new real[n](_ => 0.0);
    B := new real[n, n]((_, _) => 0.0);
    L := new real[n, n]((_, _) => 0.0);
  }

  /** memset of a whole array to zero. */
  method ZeroArray(a: array<real>)
    modifies a
    ensures Zero(a)
  {
    forall i | 0 <= i < a.Length {
      a[i] := 0.0;
    }
  }

  /** memset of a whole table to zero. */
  method ZeroTable(a: array2<real>)
    modifies a
    ensures ZeroBlock(a)
  {
    forall i, j | 0 <= i < a.Length0 && 0 <= j < a.Length1 {
      a[i, j] := 0.0;
    }
  }

  /** memcpy of the leading n-by-n block of src into dst. */
  method CopyBlock(src: array2<real>, dst: array2<real>, n: nat)
    requires n <= src.Length0 && n <= src.Length1 && n <= dst.Length0 && n <= dst.Length1
    requires src != dst
    modifies dst
    ensures forall i, j :: 0 <= i < n && 0 <= j < n ==> dst[i, j] == src[i, j]
    ensures forall i, j :: 0 <= i < dst.Length0 && 0 <= j < dst.Length1 && !(i < n && j < n) ==>
      dst[i, j] == old(dst[i, j])
  {
    forall i, j | 0 <= i < n && 0 <= j < n {
      dst[i, j] := src[i, j];
    }
  }

  /** The memsets of reset: the scaling vectors, M, M_factor and the tables all become zero. */
  method ClearArrays(d0: array<real>, rz: array<real>, M: array2<real>, MFactor: array2<real>,
                     D: array<real>, L: array2<real>, B: array2<real>)
    requires d0 != rz && d0 != D && rz != D
    requires M != MFactor && M != L && M != B && MFactor != L && MFactor != B && L != B
    modifies d0, rz, M, MFactor, D, L, B
    ensures Zero(d0) && Zero(rz) && Zero(D) && ZeroBlock(M) && ZeroBlock(MFactor) && ZeroBlock(L) && ZeroBlock(B)
  {
    ZeroArray(d0);
    ZeroArray(rz);
    ZeroTable(M);
    ZeroTable(MFactor);
    ZeroArray(D);
    ZeroTable(L);
    ZeroTable(B);
  }

  /**
   * The pointer rotation of a full window: slot 0 moves to slot n-1 and
   * every other slot moves down by one.
   */
  method RotatePairs(S: array<Vec>, Y: array<Vec>, n: nat)
    requires 0 < n <= S.Length == Y.Length
    modifies S, Y
    ensures forall i :: 0 <= i < n - 1 ==> S[i] == old(S[i + 1]) && Y[i] == old(Y[i + 1])
    ensures S[n - 1] == old(S[0]) && Y[n - 1] == old(Y[0])
    ensures forall i :: n <= i < S.Length ==> S[i] == old(S[i]) && Y[i] == old(Y[i])
  {
    var stemp, ytemp := S[0], Y[0];
    var i := 0;
    while i < n - 1
      invariant 0 <= i <= n - 1
      invariant forall k :: 0 <= k < i ==> S[k] == old(S[k + 1]) && Y[k] == old(Y[k + 1])
      invariant forall k :: i <= k < S.Length ==> S[k] == old(S[k]) && Y[k] == old(Y[k])
    {
      S[i] := S[i + 1];
      Y[i] := Y[i + 1];
      i := i + 1;
    }
    S[n - 1] := stemp;
    Y[n - 1] := ytemp;
  }

  /** D[i] = D[i+1] for i < n-1. */
  method ShiftDiagonal(D: array<real>, n: nat, ghost w: seq<Pair>)
    requires 0 < n <= D.Length && |w| == n
    modifies D
    ensures forall i :: 0 <= i < n - 1 ==> D[i] == old(D[i + 1])
    ensures forall i :: n - 1 <= i < D.Length ==> D[i] == old(D[i])
    ensures old(GramD(w, D)) ==> GramD(w[1..], D)
  {
    var i := 0;
    while i < n - 1
      invariant 0 <= i <= n - 1
      invariant forall k :: 0 <= k < i ==> D[k] == old(D[k + 1])
      invariant forall k :: i <= k < D.Length ==> D[k] == old(D[k])
    {
      D[i] := D[i + 1];
      i := i + 1;
    }
    if old(GramD(w, D)) {
      UniformTail(w);
      assert forall i :: 0 <= i < n - 1 ==> w[1..][i] == w[i + 1];
    }
  }

  /** B[i, j] = B[i+1, j+1] over the leading (n-1)-by-(n-1) block. */
  method ShiftBlock(B: array2<real>, n: nat, ghost w: seq<Pair>)
    requires 0 < n <= B.Length0 && n <= B.Length1 && |w| == n
    modifies B
    ensures forall i, j :: 0 <= i < n - 1 && 0 <= j < n - 1 ==> B[i, j] == old(B[i + 1, j + 1])
    ensures forall i, j :: 0 <= i < B.Length0 && 0 <= j < B.Length1 && !(i < n - 1 && j < n - 1) ==>
      B[i, j] == old(B[i, j])
    ensures old(GramB(w, B)) ==> GramB(w[1..], B)
  {
    var i := 0;
    while i < n - 1
      invariant 0 <= i <= n - 1
      invariant forall a, b :: 0 <= a < i && 0 <= b < n - 1 ==> B[a, b] == old(B[a + 1, b + 1])
      invariant forall a, b :: 0 <= a < B.Length0 && 0 <= b < B.Length1 && !(a < i && b < n - 1) ==>
        B[a, b] == old(B[a, b])
    {
      var j := 0;
      while j < n - 1
        invariant 0 <= j <= n - 1
        invariant forall a, b :: 0 <= a < i && 0 <= b < n - 1 ==> B[a, b] == old(B[a + 1, b + 1])
        invariant forall b :: 0 <= b < j ==> B[i, b] == old(B[i + 1, b + 1])
        invariant forall a, b ::
          (0 <= a < B.Length0 && 0 <= b < B.Length1 && !(a < i && b < n - 1) && !(a == i && b < j)) ==>
          B[a, b] == old(B[a, b])
      {
        B[i, j] := B[i + 1, j + 1];
        j := j + 1;
      }
      i := i + 1;
    }
    if old(GramB(w, B)) {
      UniformTail(w);
      assert forall i :: 0 <= i < n - 1 ==> w[1..][i] == w[i + 1];
    }
  }

  /** L[i, j] = L[i+1, j+1] over the strict lower triangle of the leading n-1 rows. */
  method ShiftLower(L: array2<real>, n: nat, ghost w: seq<Pair>)
    requires 0 < n <= L.Length0 && n <= L.Length1 && |w| == n
    modifies L
    ensures forall i, j :: 0 <= j < i < n - 1 ==> L[i, j] == old(L[i + 1, j + 1])
    ensures forall i, j :: 0 <= i < L.Length0 && 0 <= j < L.Length1 && !(j < i < n - 1) ==>
      L[i, j] == old(L[i, j])
    ensures old(GramL(w, L)) ==> GramL(w[1..], L)
  {
    var i := 0;
    while i < n - 1
      invariant 0 <= i <= n - 1
      invariant forall a, b :: 0 <= b < a < i ==> L[a, b] == old(L[a + 1, b + 1])
      invariant forall a, b :: 0 <= a < L.Length0 && 0 <= b < L.Length1 && !(b < a < i) ==>
        L[a, b] == old(L[a, b])
    {
      var j := 0;
      while j < i
        invariant 0 <= j <= i
        invariant forall a, b :: 0 <= b < a < i ==> L[a, b] == old(L[a + 1, b + 1])
        invariant forall b :: 0 <= b < j ==> L[i, b] == old(L[i + 1, b + 1])
        invariant forall a, b ::
          (0 <= a < L.Length0 && 0 <= b < L.Length1 && !(b < a < i) && !(a == i && b < j)) ==>
          L[a, b] == old(L[a, b])
      {
        L[i, j] := L[i + 1, j + 1];
        j := j + 1;
      }
      i := i + 1;
    }
    if old(GramL(w, L)) {
      UniformTail(w);
      assert forall i :: 0 <= i < n - 1 ==> w[1..][i] == w[i + 1];
    }
  }

  /** A correction pair: the step s and the gradient change y. */
  datatype Pair = Pair(s: seq<real>, y: seq<real>)

  /** The first m pairs held by the slots, in slot order. */
  ghost function Window(S: array<Vec>, Y: array<Vec>, own: map<array<real>, nat>, m: nat): (w: seq<Pair>)
    requires Owned(S, Y, own) && m <= S.Length
    reads S, Y, own.Keys
    ensures |w| == m && forall i {:trigger w[i]} :: 0 <= i < m ==> w[i] == Pair(S[i].x[..], Y[i].x[..])
  {
    seq(m, i reads S, Y, own.Keys requires 0 <= i < m && Owned(S, Y, own) && m <= S.Length => Pair(S[i].x[..], Y[i].x[..]))
  }

  /**
   * The window after a new pair p arrives: p is appended while fewer than
   * cap pairs are held, and otherwise the oldest pair is dropped first.
   */
  function Slide(w: seq<Pair>, p: Pair, cap: nat): (r: seq<Pair>)
    requires 0 < cap && |w| <= cap
    ensures |r| == (if |w| < cap then |w| + 1 else cap) && r[|r| - 1] == p
    ensures forall i :: 0 <= i < |r| - 1 ==> r[i] == w[if |w| < cap then i else i + 1]
  {
    if |w| < cap then w + [p] else w[1..] + [p]
  }

  /** The tables D, B and L fit a window of k pairs. */
  predicate TablesFit(D: array<real>, B: array2<real>, L: array2<real>, k: nat) {
    k <= D.Length && k <= B.Length0 && k <= B.Length1 && k <= L.Length0 && k <= L.Length1
  }

  /** Every pair of the window holds vectors of one length. */
  ghost predicate Uniform(w: seq<Pair>) {
    forall i :: 0 <= i < |w| ==> |w[i].s| == |w[0].s| && |w[i].y| == |w[0].s|
  }

  /** D holds diag(S^T Y) over the window w. */
  ghost predicate GramD(w: seq<Pair>, D: array<real>)
    reads D
  {
    && Uniform(w) && |w| <= D.Length
    && forall i {:trigger D[i]} :: 0 <= i < |w| ==> D[i] == Dot(w[i].s, w[i].y)
  }

  /** B holds S^T S over the window w. */
  ghost predicate GramB(w: seq<Pair>, B: array2<real>)
    reads B
  {
    && Uniform(w) && |w| <= B.Length0 && |w| <= B.Length1
    && forall i, j {:trigger B[i, j]} :: 0 <= i < |w| && 0 <= j < |w| ==> B[i, j] == Dot(w[i].s, w[j].s)
  }

  /** L holds the strict lower triangle of S^T Y over the window w. */
  ghost predicate GramL(w: seq<Pair>, L: array2<real>)
    reads L
  {
    && Uniform(w) && |w| <= L.Length0 && |w| <= L.Length1
    && forall i, j {:trigger L[i, j]} :: 0 <= j < i < |w| ==> L[i, j] == Dot(w[i].s, w[j].y)
  }

  /** The cached tables agree with the window w. */
  ghost predicate Gram(w: seq<Pair>, D: array<real>, B: array2<real>, L: array2<real>)
    reads D, B, L
  {
    GramD(w, D) && GramB(w, B) && GramL(w, L)
  }

  /**
   * The state update keeps: the slots hold a window of m pairs of nvars
   * entries each, and the tables D, B and L agree with it.
   */
  ghost predicate History(S: array<Vec>, Y: array<Vec>, own: map<array<real>, nat>, m: nat, nvars: nat,
                          D: array<real>, B: array2<real>, L: array2<real>)
    reads S, Y, own.Keys, D, B, L
  {
    Owned(S, Y, own) && Sized(S, Y, nvars) && m <= S.Length && Gram(Window(S, Y, own, m), D, B, L)
  }

  /** S^T S is symmetric over the window its table agrees with. */
  lemma GramSymmetric(w: seq<Pair>, B: array2<real>)
    requires GramB(w, B)
    ensures forall i, j :: 0 <= i < |w| && 0 <= j < |w| ==> B[i, j] == B[j, i]
  {
    forall i, j | 0 <= i < |w| && 0 <= j < |w|
      ensures B[i, j] == B[j, i]
    {
      DotSymmetric(w[i].s, w[j].s);
    }
  }

  /** Dropping the oldest pair keeps the window uniform. */
  lemma UniformTail(w: seq<Pair>)
    requires 0 < |w| && Uniform(w)
    ensures Uniform(w[1..])
  {
    assert forall i :: 0 <= i < |w| - 1 ==> w[1..][i] == w[i + 1];
  }

  /**
   * The table shift of a full window of n pairs: tables that agreed with
   * the window w agree afterwards with w less its oldest pair.
   */
  method ShiftTables(D: array<real>, B: array2<real>, L: array2<real>, n: nat, ghost w: seq<Pair>)
    requires 0 < n && |w| == n && TablesFit(D, B, L, n) && B != L
    modifies D, B, L
    ensures old(Gram(w, D, B, L)) ==> Gram(w[1..], D, B, L)
  {
    ShiftDiagonal(D, n, w);
    ShiftBlock(B, n, w);
    ShiftLower(L, n, w);
  }

  /**
   * The vector step of update while the window has room: the new pair
   * (s, v) is copied into the buffers of slot m, nothing else changes.
   */
  method GrowWindow(S: array<Vec>, Y: array<Vec>, ghost own: map<array<real>, nat>, m: nat, s: Vec, v: Vec)
    requires Owned(S, Y, own) && Sized(S, Y, s.size) && m < S.Length
    requires s.Valid() && v.Valid() && v.size == s.size && s.x !in own && v.x !in own
    modifies S[m].x, Y[m].x
    ensures Window(S, Y, own, m + 1) == old(Window(S, Y, own, m)) + [Pair(old(s.x[..]), old(v.x[..]))]
  {
    S[m].CopyValues(s);
    Y[m].CopyValues(v);
    assert forall i :: 0 <= i < m ==> S[i].x[..] == old(S[i].x[..]) && Y[i].x[..] == old(Y[i].x[..]);
  }

  /** copyValues of the pair (s, v) into the buffers of slot k. */
  method CopyPair(S: array<Vec>, Y: array<Vec>, ghost own: map<array<real>, nat>, k: nat, s: Vec, v: Vec)
    requires Owned(S, Y, own) && Sized(S, Y, s.size) && k < S.Length
    requires s.Valid() && v.Valid() && v.size == s.size && s.x !in own && v.x !in own
    modifies S[k].x, Y[k].x
    ensures Window(S, Y, own, S.Length) == old(Window(S, Y, own, S.Length))[k := Pair(old(s.x[..]), old(v.x[..]))]
  {
    S[k].CopyValues(s);
    Y[k].CopyValues(v);
    assert forall i :: 0 <= i < S.Length && i != k ==> S[i].x[..] == old(S[i].x[..]) && Y[i].x[..] == old(Y[i].x[..]);
  }

  /** The number a buffer is owned under once the pointers of a full window of n slots rotate. */
  function Rotated(k: nat, n: nat): nat
    requires 0 < n
  {
    if k == 0 || k == n then k + n - 1 else k - 1
  }

  /** The numbering of the buffers once a pair enters a window of m of n slots. */
  function NextOwners(own: map<array<real>, nat>, m: nat, n: nat): map<array<real>, nat>
    requires 0 < n
  {
    if m < n then own else map a | a in own :: Rotated(own[a], n)
  }

  /** The pointer rotation keeps every slot's vector and moves the oldest pair to the end. */
  method RotateSlots(S: array<Vec>, Y: array<Vec>, ghost own: map<array<real>, nat>, ghost nvars: nat)
    returns (ghost own': map<array<real>, nat>)
    requires Owned(S, Y, own) && Sized(S, Y, nvars) && 0 < S.Length
    modifies S, Y
    ensures Owned(S, Y, own') && own' == NextOwners(own, S.Length, S.Length) && Sized(S, Y, nvars)
    ensures Window(S, Y, own', S.Length) == old(Window(S, Y, own, S.Length))[1..] + [old(Window(S, Y, own, S.Length))[0]]
  {
    var n := S.Length;
    ghost var w0 := Window(S, Y, own, n);
    RotatePairs(S, Y, n);
    own' := map a | a in own :: Rotated(own[a], n);
    ghost var w1 := Window(S, Y, own', n);
    assert forall i :: 0 <= i < n - 1 ==> w1[i] == w0[i + 1];
    assert w1 == w0[1..] + [w0[0]];
  }

  /**
   * The vector step of update once the window is full: the new pair is
   * copied into the buffers of slot 0 and the pointer rotation moves that
   * slot to the end, so the oldest pair drops out of the window.
   */
  method ReplaceOldest(S: array<Vec>, Y: array<Vec>, ghost own: map<array<real>, nat>, s: Vec, v: Vec)
    returns (ghost own': map<array<real>, nat>)
    requires Owned(S, Y, own) && Sized(S, Y, s.size) && 0 < S.Length
    requires s.Valid() && v.Valid() && v.size == s.size && s.x !in own && v.x !in own
    modifies S, Y, S[0].x, Y[0].x
    ensures Owned(S, Y, own') && own' == NextOwners(own, S.Length, S.Length) && Sized(S, Y, s.size)
    ensures Window(S, Y, own', S.Length) == Slide(old(Window(S, Y, own, S.Length)), Pair(old(s.x[..]), old(v.x[..])), S.Length)
    ensures Window(S, Y, own', S.Length)[..S.Length - 1] == old(Window(S, Y, own, S.Length))[1..]
  {
    var n := S.Length;
    ghost var w0 := Window(S, Y, own, n);
    ghost var p := Pair(s.x[..], v.x[..]);
    CopyPair(S, Y, own, 0, s, v);
    ghost var wc := Window(S, Y, own, n);
    assert wc[1..] == w0[1..] && wc[0] == p;
    own' := RotateSlots(S, Y, own, s.size);
    assert (w0[1..] + [p])[..n - 1] == w0[1..];
  }

  /**
   * The vector step of update: the new pair (s, v) joins a window of m
   * pairs, into slot m while there is room and otherwise in place of the
   * oldest pair, whose buffers rotate to the end. Returns the new size.
   */
  method PushPair(S: array<Vec>, Y: array<Vec>, ghost own: map<array<real>, nat>, m: nat, s: Vec, v: Vec)
    returns (m': nat, ghost own': map<array<real>, nat>)
    requires Owned(S, Y, own) && Sized(S, Y, s.size) && 0 < S.Length && m <= S.Length
    requires s.Valid() && v.Valid() && v.size == s.size && s.x !in own && v.x !in own
    modifies S, Y, S[if m < S.Length then m else 0].x, Y[if m < S.Length then m else 0].x
    ensures m' == if m < S.Length then m + 1 else S.Length
    ensures Owned(S, Y, own') && own' == NextOwners(own, m, S.Length) && own'.Keys == own.Keys && Sized(S, Y, s.size)
    ensures Window(S, Y, own', m') == Slide(old(Window(S, Y, own, m)), Pair(old(s.x[..]), old(v.x[..])), S.Length)
  {
    if m < S.Length {
      GrowWindow(S, Y, own, m, s, v);
      m', own' := m + 1, own;
    } else {
      own' := ReplaceOldest(S, Y, own, s, v);
      m' := S.Length;
    }
  }

  /** The pairs of w that stay in the window when a new pair arrives. */
  function Kept(w: seq<Pair>, cap: nat): (r: seq<Pair>)
    requires 0 < cap && |w| <= cap
    ensures |r| == (if |w| < cap then |w| else cap - 1)
  {
    if |w| < cap then w else w[1..]
  }

  /** The pairs that stay are the slid window less its newest pair. */
  lemma SlideKept(w: seq<Pair>, p: Pair, cap: nat)
    requires 0 < cap && |w| <= cap
    ensures Slide(w, p, cap)[..|Slide(w, p, cap)| - 1] == Kept(w, cap)
  {
    if |w| < cap {
      assert (w + [p])[..|w|] == w;
    } else {
      assert (w[1..] + [p])[..|w| - 1] == w[1..];
    }
  }

  /**
   * The slots of S and Y that update stores into when a pair arrives with m
   * of cap pairs held, as written: slot m while there is room, and otherwise
   * slot 0 and then, after the rotation, slot m - 1.
   */
  function StoreSlots(m: int, cap: int): seq<int> {
    if m < cap then [m] else [0, m - 1]
  }

  /**
   * The constructors accept a capacity of 0; the first update then stores
   * into slots 0 and -1 of arrays of length 0.
   */
  lemma StoreSlotsEmptyCapacity()
    ensures StoreSlots(0, 0) == [0, -1]
    ensures forall k :: k in StoreSlots(0, 0) ==> !(0 <= k < 0)
  {
  }

  /** With a positive capacity, as the model requires, every slot stored into exists. */
  lemma StoreSlotsInRange(m: nat, cap: nat)
    requires 0 < cap && m <= cap
    ensures forall k :: k in StoreSlots(m, cap) ==> 0 <= k < cap
  {
  }

  /**
   * The table step of update: when the window of m pairs is full, D, B
   * and L shift up the diagonal by one, so that tables that agreed with the
   * window w agree with the pairs that stay.
   */
  method MakeRoom(D: array<real>, B: array2<real>, L: array2<real>, m: nat, cap: nat, ghost w: seq<Pair>)
    requires 0 < cap && |w| == m <= cap && TablesFit(D, B, L, cap) && B != L
    modifies D, B, L
    ensures old(Gram(w, D, B, L)) ==> Gram(Kept(w, cap), D, B, L)
  {
    if m == cap {
      ShiftTables(D, B, L, m, w);
    }
  }

  /**
   * Row and column m-1 of B = S^T S over the first m slots, the column
   * written as a copy of the row; the rest of B is not changed.
   */
  method FillRowB(S: array<Vec>, B: array2<real>, m: nat, ghost w: seq<Pair>)
    requires 0 < m <= S.Length && m <= B.Length0 && m <= B.Length1
    requires |w| == m && Uniform(w) && forall k :: 0 <= k < m ==> S[k].Valid() && w[k].s == S[k].x[..]
    modifies B
    ensures forall k :: 0 <= k < m ==> B[m - 1, k] == Dot(w[m - 1].s, w[k].s) && B[k, m - 1] == B[m - 1, k]
    ensures forall a, b :: 0 <= a < B.Length0 && 0 <= b < B.Length1 && a != m - 1 && b != m - 1 ==> B[a, b] == old(B[a, b])
    ensures old(GramB(w[..m - 1], B)) ==> GramB(w, B)
  {
    var last := S[m - 1];
    var i := 0;
    while i < m
      invariant 0 <= i <= m
      invariant forall k :: 0 <= k < i ==> B[m - 1, k] == Dot(w[m - 1].s, w[k].s) && B[k, m - 1] == B[m - 1, k]
      invariant forall a, b :: 0 <= a < B.Length0 && 0 <= b < B.Length1 && a != m - 1 && b != m - 1 ==> B[a, b] == old(B[a, b])
    {
      var t := last.DotWith(S[i]);
      B[m - 1, i] := t;
      B[i, m - 1] := B[m - 1, i];
      i := i + 1;
    }
    if old(GramB(w[..m - 1], B)) {
      ghost var v := w[..m - 1];
      assert forall k :: 0 <= k < m - 1 ==> v[k] == w[k];
      forall a, b | 0 <= a < m && 0 <= b < m
        ensures B[a, b] == Dot(w[a].s, w[b].s)
      {
        if b == m - 1 {
          DotSymmetric(w[a].s, w[b].s);
        } else if a < m - 1 {
          assert old(B[a, b]) == Dot(v[a].s, v[b].s);
        }
      }
    }
  }

  /** D[m-1] = S[m-1]^T Y[m-1]; the rest of D is not changed. */
  method FillDiagonal(S: array<Vec>, Y: array<Vec>, D: array<real>, m: nat, ghost w: seq<Pair>)
    requires 0 < m <= S.Length && m <= Y.Length && m <= D.Length
    requires |w| == m && Uniform(w) && S[m - 1].Valid() && Y[m - 1].Valid()
    requires w[m - 1] == Pair(S[m - 1].x[..], Y[m - 1].x[..])
    modifies D
    ensures D[m - 1] == Dot(w[m - 1].s, w[m - 1].y)
    ensures forall i :: 0 <= i < D.Length && i != m - 1 ==> D[i] == old(D[i])
    ensures old(GramD(w[..m - 1], D)) ==> GramD(w, D)
  {
    D[m - 1] := S[m - 1].DotWith(Y[m - 1]);
    if old(GramD(w[..m - 1], D)) {
      assert forall k :: 0 <= k < m - 1 ==> w[..m - 1][k] == w[k];
    }
  }

  /** Row m-1 of the strict lower triangle of S^T Y; the rest of L is not changed. */
  method FillRowL(S: array<Vec>, Y: array<Vec>, L: array2<real>, m: nat, ghost w: seq<Pair>)
    requires 0 < m <= S.Length && m <= Y.Length && m <= L.Length0 && m <= L.Length1
    requires |w| == m && Uniform(w) && S[m - 1].Valid() && w[m - 1].s == S[m - 1].x[..]
    requires forall k :: 0 <= k < m ==> Y[k].Valid() && w[k].y == Y[k].x[..]
    modifies L
    ensures forall k :: 0 <= k < m - 1 ==> L[m - 1, k] == Dot(w[m - 1].s, w[k].y)
    ensures forall a, b :: 0 <= a < L.Length0 && 0 <= b < L.Length1 && a != m - 1 ==> L[a, b] == old(L[a, b])
    ensures old(GramL(w[..m - 1], L)) ==> GramL(w, L)
  {
    var last := S[m - 1];
    var i := 0;
    while i < m - 1
      invariant 0 <= i <= m - 1
      invariant forall k :: 0 <= k < i ==> L[m - 1, k] == Dot(w[m - 1].s, w[k].y)
      invariant forall a, b :: 0 <= a < L.Length0 && 0 <= b < L.Length1 && a != m - 1 ==> L[a, b] == old(L[a, b])
    {
      var t := last.DotWith(Y[i]);
      L[m - 1, i] := t;
      i := i + 1;
    }
    if old(GramL(w[..m - 1], L)) {
      assert forall k :: 0 <= k < m - 1 ==> w[..m - 1][k] == w[k];
    }
  }

  /**
   * The new last row of the window's tables, for a window of m pairs: row
   * and column m-1 of B = S^T S, D[m-1] = S[m-1]^T Y[m-1] and row m-1 of
   * the strict lower triangle L of S^T Y. Tables that agreed with the
   * first m-1 pairs then agree with all m; the slots are not changed.
   */
  method FillGram(S: array<Vec>, Y: array<Vec>, D: array<real>, B: array2<real>, L: array2<real>,
                  ghost own: map<array<real>, nat>, ghost nvars: nat, m: nat)
    requires Owned(S, Y, own) && Sized(S, Y, nvars) && 0 < m <= S.Length
    requires D !in own && B != L && TablesFit(D, B, L, S.Length)
    modifies D, B, L
    ensures Owned(S, Y, own) && Sized(S, Y, nvars) && Window(S, Y, own, m) == old(Window(S, Y, own, m))
    ensures old(Gram(Window(S, Y, own, m)[..m - 1], D, B, L)) ==> Gram(Window(S, Y, own, m), D, B, L)
  {
    ghost var w := Window(S, Y, own, m);
    assert Uniform(w);
    FillRowB(S, B, m, w);
    FillDiagonal(S, Y, D, m, w);
    assert forall k :: 0 <= k < m ==> w[k].y == Y[k].x[..];
    FillRowL(S, Y, L, m, w);
    assert Window(S, Y, own, m) == w;
  }

  /**
   * The table step of update, once the new pair has entered the window
   * of m' slots: the tables make room when the window w0 it came from was
   * full, and the new last rows are filled in. Tables that agreed with w0
   * agree with the new window; the slots are not changed.
   */
  method UpdateTables(S: array<Vec>, Y: array<Vec>, D: array<real>, B: array2<real>, L: array2<real>,
                      ghost own: map<array<real>, nat>, ghost nvars: nat, m: nat, ghost w0: seq<Pair>)
    requires Owned(S, Y, own) && Sized(S, Y, nvars) && 0 < S.Length && |w0| == m <= S.Length
    requires Window(S, Y, own, if m < S.Length then m + 1 else m)[..if m < S.Length then m else m - 1] == Kept(w0, S.Length)
    requires D !in own && B != L && TablesFit(D, B, L, S.Length)
    modifies D, B, L
    ensures Owned(S, Y, own) && Sized(S, Y, nvars)
    ensures Window(S, Y, own, if m < S.Length then m + 1 else m) == old(Window(S, Y, own, if m < S.Length then m + 1 else m))
    ensures old(Gram(w0, D, B, L)) ==> Gram(Window(S, Y, own, if m < S.Length then m + 1 else m), D, B, L)
  {
    var m' := if m < S.Length then m + 1 else m;
    ghost var w := Window(S, Y, own, m');
    ghost var kept := Kept(w0, S.Length);
    assert w[..m' - 1] == kept;
    ghost var g0 := Gram(w0, D, B, L);
    MakeRoom(D, B, L, m, S.Length, w0);
    assert Owned(S, Y, own) && Sized(S, Y, nvars) && Window(S, Y, own, m') == w;
    ghost var g1 := Gram(w[..m' - 1], D, B, L);
    assert g0 ==> g1;
    FillGram(S, Y, D, B, L, own, nvars, m');
  }

  /**
   * The bookkeeping of update: the new pair (s, v) enters the window of m
   * pairs, the tables make room when the window is full, and the new last
   * rows are filled in. Tables that agreed with the old window agree with
   * the new one.
   */
  method StorePair(S: array<Vec>, Y: array<Vec>, D: array<real>, B: array2<real>, L: array2<real>,
                   ghost own: map<array<real>, nat>, m: nat, s: Vec, v: Vec)
    returns (m': nat, ghost own': map<array<real>, nat>)
    requires Owned(S, Y, own) && Sized(S, Y, s.size) && 0 < S.Length && m <= S.Length
    requires s.Valid() && v.Valid() && v.size == s.size && s.x !in own && v.x !in own
    requires D !in own && B != L && TablesFit(D, B, L, S.Length)
    modifies S, Y, D, B, L, S[if m < S.Length then m else 0].x, Y[if m < S.Length then m else 0].x
    ensures m' == if m < S.Length then m + 1 else S.Length
    ensures Owned(S, Y, own') && own' == NextOwners(own, m, S.Length) && own'.Keys == own.Keys && Sized(S, Y, s.size)
    ensures Window(S, Y, own', m') == Slide(old(Window(S, Y, own, m)), Pair(old(s.x[..]), old(v.x[..])), S.Length)
    ensures old(History(S, Y, own, m, s.size, D, B, L)) ==> History(S, Y, own', m', s.size, D, B, L)
  {
    ghost var w0 := Window(S, Y, own, m);
    ghost var g0 := Gram(w0, D, B, L);
    assert D != S[if m < S.Length then m else 0].x && D != Y[if m < S.Length then m else 0].x;
    m', own' := PushPair(S, Y, own, m, s, v);
    assert g0 == Gram(w0, D, B, L);
    SlideKept(w0, Pair(old(s.x[..]), old(v.x[..])), S.Length);
    UpdateTables(S, Y, D, B, L, own', s.size, m, w0);
  }

  /**
   * mult with the window of m pairs: b0*x, less the correction term
   * c = Z*diag(d0)*M^{-1}*diag(d0)*Z^T*x when the window is not empty.
   */
  function Product(b0: real, m: nat, x: seq<real>, c: seq<real>): (y: seq<real>)
    requires |x| == |c|
    ensures |y| == |x|
  {
    if m == 0 then Scaled(b0, x) else AddScaled(Scaled(b0, x), -1.0, c)
  }

  /** With an empty window the approximation is b0*I: s^T (B s) = b0 * s^T s. */
  lemma ProductEmpty(b0: real, s: seq<real>, c: seq<real>)
    requires |s| == |c|
    ensures Dot(Product(b0, 0, s, c), s) == b0 * Dot(s, s)
    ensures b0 > 0.0 && Dot(s, s) > 0.0 ==> Dot(Product(b0, 0, s, c), s) > 0.0
  {
    DotScaled(b0, s, s);
  }

  /** One entry of AddProduct: alpha*(b0*a - c) == beta*a - alpha*c when beta == b0*alpha. */
  lemma WeightedTerms(alpha: real, beta: real, b0: real, a: real, c: real)
    requires beta == b0 * alpha
    ensures alpha * (b0 * a + -1.0 * c) == beta * a + -alpha * c
    ensures alpha * (b0 * a) == beta * a
  {
    calc {
      alpha * (b0 * a);
      (b0 * alpha) * a;
      beta * a;
    }
    assert alpha * (-1.0 * c) == -alpha * c;
  }

  /** multAdd's two axpy calls, with weights beta = b0*alpha and -alpha, add alpha times mult's product. */
  lemma AddProduct(y: seq<real>, alpha: real, beta: real, b0: real, m: nat, x: seq<real>, c: seq<real>)
    requires |y| == |x| == |c| && beta == b0 * alpha
    ensures m == 0 ==> AddScaled(y, beta, x) == AddScaled(y, alpha, Product(b0, m, x, c))
    ensures m > 0 ==> AddScaled(AddScaled(y, beta, x), -alpha, c) == AddScaled(y, alpha, Product(b0, m, x, c))
  {
    if m == 0 {
      var p := Scaled(b0, x);
      forall i | 0 <= i < |y|
        ensures AddScaled(y, beta, x)[i] == AddScaled(y, alpha, p)[i]
      {
        WeightedTerms(alpha, beta, b0, x[i], 0.0);
      }
    } else {
      var p := AddScaled(Scaled(b0, x), -1.0, c);
      var q := AddScaled(y, beta, x);
      forall i | 0 <= i < |y|
        ensures AddScaled(q, -alpha, c)[i] == AddScaled(y, alpha, p)[i]
      {
        assert p[i] == b0 * x[i] + -1.0 * c[i];
        WeightedTerms(alpha, beta, b0, x[i], c[i]);
      }
    }
  }

  /**
   * mult: y = b0*x, less the correction term c (the product with the
   * factored M, computed outside the model) when the window of m pairs is
   * not empty.
   */
  method ApplyProduct(x: Vec, y: Vec, c: Vec, b0: real, m: nat)
    requires x.Valid() && y.Valid() && c.Valid() && x.size == y.size == c.size
    requires y.x != c.x
    modifies y.x
    ensures y.x[..] == Product(b0, m, old(x.x[..]), old(c.x[..]))
  {
    y.CopyValues(x);
    y.Scale(b0);
    if m > 0 {
      y.Axpy(-1.0, c);
    }
  }

  /** The zeroed n-by-n matrices M and M_factor and the vectors d0 and rz of length n. */
  method NewCompactArrays(n: nat) returns (M: array2<real>, MFactor: array2<real>, d0: array<real>, rz: array<real>)
    ensures fresh(M) && fresh(MFactor) && fresh(d0) && fresh(rz) && M != MFactor && d0 != rz
    ensures M.Length0 == n && M.Length1 == n && MFactor.Length0 == n && MFactor.Length1 == n
    ensures d0.Length == n && rz.Length == n
    ensures ZeroBlock(M) && ZeroBlock(MFactor) && Zero(d0) && Zero(rz)
  {
    M := new real[n, n]((_, _) => 0.0);
    MFactor := new real[n, n]((_, _) => 0.0);
    d0 := new real[n](_ => 0.0);
    rz := new real[n](_ => 0.0);
  }
}
