// The matrix of examples/cholesky/cholesky.cpp as the stream of entries
// build_matrix visits: a square nx-by-nx mesh of bilinear elements with two
// degrees of freedom per node, each element contributing an 8-by-8 block.
// The imperative assembly into compressed sparse columns is proved against
// these definitions in module Cholesky.

module CscStream {

  datatype Option<T> = None | Some(value: T)

  /** One stored entry: column, row and value. */
  datatype Entry = Entry(col: int, row: int, val: real)

  /** The 4-by-4 element stiffness of one displacement component. */
  const KMat: seq<seq<real>> := [
    [4.0, 2.0, 2.0, 1.0],
    [2.0, 4.0, 1.0, 2.0],
    [2.0, 1.0, 4.0, 2.0],
    [1.0, 2.0, 2.0, 4.0]]

  /**
   * The entry of the 8-by-8 element matrix ke between component ki of node
   * ii and component kj of node jj (local variables 2*ii + ki and 2*jj + kj):
   * kmat/9 within one displacement component, 0 across the two.
   */
  function Ke(ii: nat, ki: nat, jj: nat, kj: nat): real
    requires ii < 4 && jj < 4 && ki < 2 && kj < 2
  {
    if ki == kj then KMat[ii][jj] / 9.0 else 0.0
  }

  /** The element matrix is symmetric. */
  lemma KeSymmetric(ii: nat, ki: nat, jj: nat, kj: nat)
    requires ii < 4 && jj < 4 && ki < 2 && kj < 2
    ensures Ke(ii, ki, jj, kj) == Ke(jj, kj, ii, ki)
  {
  }

  /** The number of variables, two per node of the (nx+1)-by-(nx+1) grid. */
  function Size(nx: nat): nat {
    2 * (nx + 1) * (nx + 1)
  }

  /** The four nodes of element (i, j), counter-clockwise from its lower-left corner. */
  function Nodes(nx: nat, i: nat, j: nat): seq<int> {
    [i + j * (nx + 1), i + 1 + j * (nx + 1), i + (j + 1) * (nx + 1), i + 1 + (j + 1) * (nx + 1)]
  }

  /** Every node of an element of the mesh is a node of the grid. */
  lemma NodesInGrid(nx: nat, i: nat, j: nat)
    requires i < nx && j < nx
    ensures forall ii :: 0 <= ii < 4 ==> 0 <= Nodes(nx, i, j)[ii] && 2 * Nodes(nx, i, j)[ii] + 1 < Size(nx)
  {
    var n := nx + 1;
    var last := i + 1 + (j + 1) * n;
    assert (j + 1) * n <= nx * n by {
      MulMonotone(j + 1, nx, n);
    }
    assert (j + 1) * n == j * n + n;
    assert nx * n + nx == n * n - 1;
    assert Size(nx) == 2 * (n * n);
    assert Nodes(nx, i, j) == [last - 1 - n, last - n, last - 1, last];
  }

  lemma MulMonotone(a: nat, b: nat, n: nat)
    requires a <= b
    ensures a * n <= b * n
  {
  }

  /** The optional permutation maps every variable of the grid to a variable of the grid. */
  predicate PermFits(nx: nat, perm: Option<seq<int>>) {
    perm.Some? ==> |perm.value| == Size(nx) && forall v :: 0 <= v < Size(nx) ==> 0 <= perm.value[v] < Size(nx)
  }

  /** The variable of component k at node ii of element (i, j), after the optional permutation. */
  function Var(nx: nat, perm: Option<seq<int>>, i: nat, j: nat, k: nat, ii: nat): (v: int)
    requires PermFits(nx, perm) && i < nx && j < nx && k < 2 && ii < 4
    ensures 0 <= v < Size(nx)
  {
    NodesInGrid(nx, i, j);
    var u := 2 * Nodes(nx, i, j)[ii] + k;
    if perm.None? then u else perm.value[u]
  }

  /** The four variables of component k of element (i, j), by node. */
  function Half(nx: nat, perm: Option<seq<int>>, i: nat, j: nat, k: nat): (s: seq<int>)
    requires PermFits(nx, perm) && i < nx && j < nx && k < 2
    ensures |s| == 4 && forall ii :: 0 <= ii < 4 ==> s[ii] == Var(nx, perm, i, j, k, ii)
  {
    seq(4, ii requires 0 <= ii < 4 => Var(nx, perm, i, j, k, ii))
  }

  /** The eight variables of element (i, j) in the order the counting loop visits them. */
  function ElementVars(nx: nat, perm: Option<seq<int>>, i: nat, j: nat): (s: seq<int>)
    requires PermFits(nx, perm) && i < nx && j < nx
    ensures |s| == 8
  {
    Half(nx, perm, i, j, 0) + Half(nx, perm, i, j, 1)
  }

  /** The variables of elements (i, j) .. (i, nx-1), in visiting order. */
  function RowVars(nx: nat, perm: Option<seq<int>>, i: nat, j: nat): (s: seq<int>)
    requires PermFits(nx, perm) && i < nx && j <= nx
    ensures |s| == 8 * (nx - j)
    decreases nx - j
  {
    if j == nx then [] else ElementVars(nx, perm, i, j) + RowVars(nx, perm, i, j + 1)
  }

  /** The variables of the elements of rows i .. nx-1 of the mesh, in visiting order. */
  function MeshVars(nx: nat, perm: Option<seq<int>>, i: nat): (s: seq<int>)
    requires PermFits(nx, perm) && i <= nx
    decreases nx - i
  {
    if i == nx then [] else RowVars(nx, perm, i, 0) + MeshVars(nx, perm, i + 1)
  }

  /**
   * The position, from an element's first entry, of the entry the fill loops
   * visit for local row 2*ii + ki against local column 2*jj + kj: the loops
   * run over ki, then kj, then ii, then jj.
   */
  function Slot(ki: int, kj: int, ii: int, jj: int): int {
    32 * ki + 16 * kj + 4 * ii + jj
  }

  /**
   * Entry k of an element with variables v: slot k decoded into (ki, kj, ii, jj),
   * column v[4*ki + ii], row v[4*kj + jj] (component k of node ii is v[4*k + ii]).
   */
  function SlotEntry(v: seq<int>, k: int): Entry
    requires |v| == 8 && 0 <= k < 64
  {
    var ki := if k < 32 then 0 else 1;
    var kj := if k - 32 * ki < 16 then 0 else 1;
    var q := k - 32 * ki - 16 * kj;
    var ii := if q < 4 then 0 else if q < 8 then 1 else if q < 12 then 2 else 3;
    var jj := q - 4 * ii;
    Entry(v[4 * ki + ii], v[4 * kj + jj], Ke(ii, ki, jj, kj))
  }

  /** The 64 entries of an element with variables v, in the order of the fill loops. */
  function ElementEntries(v: seq<int>): (s: seq<Entry>)
    requires |v| == 8
    ensures |s| == 64
  {
    seq(64, k requires 0 <= k < 64 => SlotEntry(v, k))
  }

  /** The entry of local row 2*ii + ki against local column 2*jj + kj sits at Slot(ki, kj, ii, jj). */
  lemma ElementIndex(v: seq<int>, ki: nat, kj: nat, ii: nat, jj: nat)
    requires |v| == 8 && ki < 2 && kj < 2 && ii < 4 && jj < 4
    ensures 0 <= Slot(ki, kj, ii, jj) < 64
    ensures ElementEntries(v)[Slot(ki, kj, ii, jj)] == Entry(v[4 * ki + ii], v[4 * kj + jj], Ke(ii, ki, jj, kj))
  {
  }

  /** Stream s is made of runs of four entries, run r lying in column cols[r]. */
  predicate InRuns(s: seq<Entry>, cols: seq<int>) {
    && |s| == 4 * |cols|
    && forall r, jj :: 0 <= r < |cols| && 0 <= jj < 4 ==> RunAt(s, cols, r, jj)
  }

  /** Entry jj of run r of s lies in column cols[r]. */
  predicate RunAt(s: seq<Entry>, cols: seq<int>, r: int, jj: int)
    requires |s| == 4 * |cols| && 0 <= r < |cols| && 0 <= jj < 4
  {
    s[4 * r + jj].col == cols[r]
  }

  /** An element's entries come in 16 runs of four, one per (ki, kj, ii), in column v[4*ki + ii]. */
  lemma ElementRuns(v: seq<int>)
    requires |v| == 8
    ensures InRuns(ElementEntries(v), v[..4] + v[..4] + v[4..] + v[4..])
  {
    var cols := v[..4] + v[..4] + v[4..] + v[4..];
    forall r, jj | 0 <= r < 16 && 0 <= jj < 4
      ensures RunAt(ElementEntries(v), cols, r, jj)
    {
      var ki := if r < 8 then 0 else 1;
      var kj := if r - 8 * ki < 4 then 0 else 1;
      var ii := r - 8 * ki - 4 * kj;
      assert 4 * r + jj == Slot(ki, kj, ii, jj);
      ElementIndex(v, ki, kj, ii, jj);
      assert cols[r] == v[4 * ki + ii];
    }
  }

  /** A stream of runs holds each column four times per run in it. */
  lemma {:induction false} RunsColumn(s: seq<Entry>, cols: seq<int>, c: int)
    requires InRuns(s, cols)
    ensures |Column(s, c)| == 4 * Occ(cols, c)
    decreases |cols|
  {
    if |cols| > 0 {
      var n := |cols| - 1;
      var pre, run := s[..4 * n], s[4 * n..];
      assert s == pre + run;
      assert InRuns(pre, cols[..n]) by {
        forall r, jj | 0 <= r < n && 0 <= jj < 4
          ensures RunAt(pre, cols[..n], r, jj)
        {
          assert RunAt(s, cols, r, jj);
        }
      }
      RunsColumn(pre, cols[..n], c);
      assert |Column(run, c)| == if c == cols[n] then 4 else 0 by {
        forall k | 0 <= k < |run|
          ensures run[k].col == cols[n]
        {
          assert RunAt(s, cols, n, k);
        }
        RunColumn(run, cols[n], c);
      }
      ColumnAppend(pre, run, c);
    }
  }

  /** Each variable of an element labels eight of its entries' columns. */
  lemma ElementCols(v: seq<int>, c: int)
    requires |v| == 8
    ensures |Column(ElementEntries(v), c)| == 8 * Occ(v, c)
  {
    var lo, hi := v[..4], v[4..];
    ElementRuns(v);
    RunsColumn(ElementEntries(v), lo + lo + hi + hi, c);
    OccAppend(lo + lo + hi, hi, c);
    OccAppend(lo + lo, hi, c);
    OccAppend(lo, lo, c);
    assert v == lo + hi;
    OccAppend(lo, hi, c);
  }

  /**
   * The fill stream of the elements whose variables, eight per element in
   * counting order, are vars: each element contributes its 64 entries.
   */
  function EntriesOf(vars: seq<int>): seq<Entry>
    decreases |vars|
  {
    if |vars| < 8 then [] else ElementEntries(vars[..8]) + EntriesOf(vars[8..])
  }

  /** Entry jj of run (ki, kj, ii) of the element with variables v sits at pos + Slot(ki, kj, ii, jj) of stream s. */
  predicate EntryAt(s: seq<Entry>, pos: int, v: seq<int>, ki: int, kj: int, ii: int, jj: int)
    requires |v| == 8 && 0 <= ki < 2 && 0 <= kj < 2 && 0 <= ii < 4 && 0 <= jj < 4
  {
    && 0 <= pos + Slot(ki, kj, ii, jj) < |s|
    && s[pos + Slot(ki, kj, ii, jj)] == Entry(v[4 * ki + ii], v[4 * kj + jj], Ke(ii, ki, jj, kj))
  }

  /** Stream s holds the 64 entries of the element with variables v from position pos on. */
  predicate ElementAt(s: seq<Entry>, pos: int, v: seq<int>)
    requires |v| == 8
  {
    && 0 <= pos && pos + 64 <= |s|
    && forall ki, kj, ii, jj :: 0 <= ki < 2 && 0 <= kj < 2 && 0 <= ii < 4 && 0 <= jj < 4 ==>
         EntryAt(s, pos, v, ki, kj, ii, jj)
  }

  /** The fill stream of an element followed by others. */
  lemma EntriesCons(v: seq<int>, rest: seq<int>)
    requires |v| == 8
    ensures EntriesOf(v + rest) == ElementEntries(v) + EntriesOf(rest)
  {
    assert (v + rest)[..8] == v;
    assert (v + rest)[8..] == rest;
  }

  /** What remains of stream s from position pos on is t. */
  predicate Suffix(s: seq<Entry>, pos: int, t: seq<Entry>) {
    0 <= pos <= |s| && s[pos..] == t
  }

  /** A remainder that begins with an element's entries holds that element at its start, and the rest after it. */
  lemma ElementStep(s: seq<Entry>, pos: int, v: seq<int>, rest: seq<Entry>)
    requires |v| == 8 && Suffix(s, pos, ElementEntries(v) + rest)
    ensures ElementAt(s, pos, v) && Suffix(s, pos + 64, rest)
  {
    var t := ElementEntries(v) + rest;
    forall ki, kj, ii, jj | 0 <= ki < 2 && 0 <= kj < 2 && 0 <= ii < 4 && 0 <= jj < 4
      ensures EntryAt(s, pos, v, ki, kj, ii, jj)
    {
      ElementIndex(v, ki, kj, ii, jj);
      assert s[pos + Slot(ki, kj, ii, jj)] == t[Slot(ki, kj, ii, jj)];
    }
    assert s[pos + 64..] == t[64..];
  }

  /** The fill loop over row i, one element further: element (i, j) is next, then the rest of the row. */
  lemma RowStep(nx: nat, perm: Option<seq<int>>, i: nat, j: nat, s: seq<Entry>, pos: int, rest: seq<Entry>)
    requires PermFits(nx, perm) && i < nx && j < nx
    requires Suffix(s, pos, EntriesOf(RowVars(nx, perm, i, j)) + rest)
    ensures ElementAt(s, pos, ElementVars(nx, perm, i, j))
    ensures Suffix(s, pos + 64, EntriesOf(RowVars(nx, perm, i, j + 1)) + rest)
  {
    var v, r := ElementVars(nx, perm, i, j), RowVars(nx, perm, i, j + 1);
    assert EntriesOf(RowVars(nx, perm, i, j)) == ElementEntries(v) + EntriesOf(r) by {
      EntriesCons(v, r);
    }
    assert EntriesOf(RowVars(nx, perm, i, j)) + rest == ElementEntries(v) + (EntriesOf(r) + rest);
    ElementStep(s, pos, v, EntriesOf(r) + rest);
  }

  /** The fill loop over the mesh, one row further: row i is next, then the rows after it. */
  lemma MeshStep(nx: nat, perm: Option<seq<int>>, i: nat)
    requires PermFits(nx, perm) && i < nx
    ensures EntriesOf(MeshVars(nx, perm, i)) == EntriesOf(RowVars(nx, perm, i, 0)) + EntriesOf(MeshVars(nx, perm, i + 1))
  {
    EntriesAppend(RowVars(nx, perm, i, 0), MeshVars(nx, perm, i + 1));
  }

  /** The number of occurrences of c in s. */
  function Occ(s: seq<int>, c: int): nat {
    if |s| == 0 then 0 else Occ(s[..|s| - 1], c) + (if s[|s| - 1] == c then 1 else 0)
  }

  /** The entries of column c, in stream order. */
  function Column(s: seq<Entry>, c: int): seq<Entry> {
    if |s| == 0 then []
    else Column(s[..|s| - 1], c) + (if s[|s| - 1].col == c then [s[|s| - 1]] else [])
  }

  function RowsOf(s: seq<Entry>): (r: seq<int>)
    ensures |r| == |s| && forall k :: 0 <= k < |s| ==> r[k] == s[k].row
  {
    seq(|s|, k requires 0 <= k < |s| => s[k].row)
  }

  function ValsOf(s: seq<Entry>): (r: seq<real>)
    ensures |r| == |s| && forall k :: 0 <= k < |s| ==> r[k] == s[k].val
  {
    seq(|s|, k requires 0 <= k < |s| => s[k].val)
  }

  /** Counting distributes over concatenation. */
  lemma {:induction false} OccAppend(a: seq<int>, b: seq<int>, c: int)
    ensures Occ(a + b, c) == Occ(a, c) + Occ(b, c)
    decreases |b|
  {
    if |b| > 0 {
      var n := |b| - 1;
      assert (a + b)[..|a + b| - 1] == a + b[..n];
      OccAppend(a, b[..n], c);
    } else {
      assert a + b == a;
    }
  }

  /** Filtering by column distributes over concatenation. */
  lemma {:induction false} ColumnAppend(a: seq<Entry>, b: seq<Entry>, c: int)
    ensures Column(a + b, c) == Column(a, c) + Column(b, c)
    decreases |b|
  {
    if |b| > 0 {
      var n := |b| - 1;
      assert (a + b)[..|a + b| - 1] == a + b[..n];
      ColumnAppend(a, b[..n], c);
    } else {
      assert a + b == a;
    }
  }

  /** The entries of column c all lie in column c. */
  lemma {:induction false} ColumnCol(s: seq<Entry>, c: int)
    ensures forall k :: 0 <= k < |Column(s, c)| ==> Column(s, c)[k].col == c
  {
    if |s| > 0 {
      ColumnCol(s[..|s| - 1], c);
    }
  }

  /** A run whose entries all lie in column v adds its length to column v and nothing elsewhere. */
  lemma {:induction false} RunColumn(s: seq<Entry>, v: int, c: int)
    requires forall k :: 0 <= k < |s| ==> s[k].col == v
    ensures |Column(s, c)| == if c == v then |s| else 0
  {
    if |s| > 0 {
      RunColumn(s[..|s| - 1], v, c);
    }
  }

  /** The fill stream of consecutive groups of elements is the concatenation of their fill streams. */
  lemma {:induction false} EntriesAppend(a: seq<int>, b: seq<int>)
    requires |a| % 8 == 0
    ensures EntriesOf(a + b) == EntriesOf(a) + EntriesOf(b)
    decreases |a|
  {
    if |a| >= 8 {
      assert (a + b)[..8] == a[..8];
      assert (a + b)[8..] == a[8..] + b;
      EntriesAppend(a[8..], b);
    } else {
      assert a + b == b;
    }
  }

  /**
   * The fill stream holds each column exactly eight times as often as the
   * counting stream: the counts of the first pass are the lengths of the
   * columns the second pass fills.
   */
  lemma {:induction false} EntriesCols(vars: seq<int>, c: int)
    requires |vars| % 8 == 0
    ensures |Column(EntriesOf(vars), c)| == 8 * Occ(vars, c)
    decreases |vars|
  {
    if |vars| >= 8 {
      var v := vars[..8];
      EntriesCols(vars[8..], c);
      ElementCols(v, c);
      ColumnAppend(ElementEntries(v), EntriesOf(vars[8..]), c);
      assert vars == v + vars[8..];
      OccAppend(v, vars[8..], c);
    } else {
      assert vars == [];
    }
  }

  /** The counting stream visits 8 variables of each of the (nx - i)*nx elements of rows i .. nx-1. */
  lemma {:induction false} MeshVarsLength(nx: nat, perm: Option<seq<int>>, i: nat)
    requires PermFits(nx, perm) && i <= nx
    ensures |MeshVars(nx, perm, i)| == 8 * nx * (nx - i)
    decreases nx - i
  {
    if i < nx {
      MeshVarsLength(nx, perm, i + 1);
      assert 8 * nx * (nx - i) == 8 * nx + 8 * nx * (nx - (i + 1));
    }
  }

  /** The sum of a sequence of counts. */
  function Sum(s: seq<int>): int {
    if |s| == 0 then 0 else Sum(s[..|s| - 1]) + s[|s| - 1]
  }

  /** The exclusive prefix sums of counts, with the total appended: the column start offsets. */
  function Starts(counts: seq<int>): (r: seq<int>)
    ensures |r| == |counts| + 1 && forall c :: 0 <= c <= |counts| ==> r[c] == Sum(counts[..c])
  {
    seq(|counts| + 1, c requires 0 <= c <= |counts| => Sum(counts[..c]))
  }

  /** Column c of a stream over n columns gets 8 times the occurrences of c among the variables. */
  function Counts(vars: seq<int>, n: nat): (r: seq<int>)
    ensures |r| == n && forall c :: 0 <= c < n ==> r[c] == 8 * Occ(vars, c)
  {
    seq(n, c requires 0 <= c < n => 8 * Occ(vars, c))
  }

  /** Start offsets of non-negative counts begin at 0, never decrease, and column c spans counts[c]. */
  lemma StartsOrdered(counts: seq<int>)
    requires forall c :: 0 <= c < |counts| ==> counts[c] >= 0
    ensures Starts(counts)[0] == 0
    ensures forall c :: 0 <= c < |counts| ==> Starts(counts)[c + 1] - Starts(counts)[c] == counts[c]
    ensures forall a, b :: 0 <= a <= b <= |counts| ==> Starts(counts)[a] <= Starts(counts)[b]
  {
    var r := Starts(counts);
    forall c | 0 <= c < |counts|
      ensures r[c + 1] - r[c] == counts[c]
    {
      assert counts[..c + 1][..c] == counts[..c];
    }
    forall a, b | 0 <= a <= b <= |counts|
      ensures r[a] <= r[b]
    {
      var k := a;
      while k < b
        invariant a <= k <= b && r[a] <= r[k]
      {
        k := k + 1;
      }
    }
  }

  /** The counts of variables that all lie in [0, n) add up to eight per variable. */
  lemma {:induction false} CountsTotal(vars: seq<int>, n: nat)
    requires forall k :: 0 <= k < |vars| ==> 0 <= vars[k] < n
    ensures Sum(Counts(vars, n)) == 8 * |vars|
  {
    if |vars| > 0 {
      var m := |vars| - 1;
      var v := vars[m];
      CountsTotal(vars[..m], n);
      var before, after := Counts(vars[..m], n), Counts(vars, n);
      forall c | 0 <= c < n
        ensures after[c] == before[v := before[v] + 8][c]
      {
        assert Occ(vars, c) == Occ(vars[..m], c) + (if v == c then 1 else 0);
      }
      assert after == before[v := before[v] + 8];
      SumUpdate(before, v, 8);
    } else {
      SumZero(Counts(vars, n));
    }
  }

  /** Counts that are all zero add up to zero. */
  lemma {:induction false} SumZero(s: seq<int>)
    requires forall k :: 0 <= k < |s| ==> s[k] == 0
    ensures Sum(s) == 0
  {
    if |s| > 0 {
      SumZero(s[..|s| - 1]);
    }
  }

  /** Adding d to one count adds d to the sum. */
  lemma {:induction false} SumUpdate(s: seq<int>, k: nat, d: int)
    requires k < |s|
    ensures Sum(s[k := s[k] + d]) == Sum(s) + d
  {
    var n := |s| - 1;
    var t := s[k := s[k] + d];
    if k == n {
      assert t[..n] == s[..n];
    } else {
      assert t[..n] == s[..n][k := s[k] + d];
      SumUpdate(s[..n], k, d);
    }
  }

  /** Every variable of the mesh is a variable of the grid. */
  lemma {:induction false} MeshVarsInRange(nx: nat, perm: Option<seq<int>>, i: nat)
    requires PermFits(nx, perm) && i <= nx
    ensures forall k :: 0 <= k < |MeshVars(nx, perm, i)| ==> 0 <= MeshVars(nx, perm, i)[k] < Size(nx)
    decreases nx - i
  {
    if i < nx {
      MeshVarsInRange(nx, perm, i + 1);
      RowVarsInRange(nx, perm, i, 0);
    }
  }

  lemma {:induction false} RowVarsInRange(nx: nat, perm: Option<seq<int>>, i: nat, j: nat)
    requires PermFits(nx, perm) && i < nx && j <= nx
    ensures forall k :: 0 <= k < |RowVars(nx, perm, i, j)| ==> 0 <= RowVars(nx, perm, i, j)[k] < Size(nx)
    decreases nx - j
  {
    if j < nx {
      RowVarsInRange(nx, perm, i, j + 1);
      var h0, h1 := Half(nx, perm, i, j, 0), Half(nx, perm, i, j, 1);
      assert forall k :: 0 <= k < 4 ==> 0 <= h0[k] < Size(nx) && 0 <= h1[k] < Size(nx);
    }
  }

  /** Every entry of the fill stream of variables in [0, n) has its column and row in [0, n). */
  lemma {:induction false} EntriesInRange(vars: seq<int>, n: int)
    requires forall k :: 0 <= k < |vars| ==> 0 <= vars[k] < n
    ensures forall p :: 0 <= p < |EntriesOf(vars)| ==> 0 <= EntriesOf(vars)[p].col < n && 0 <= EntriesOf(vars)[p].row < n
    decreases |vars|
  {
    if |vars| >= 8 {
      var v, rest := vars[..8], vars[8..];
      EntriesInRange(rest, n);
      var e := ElementEntries(v);
      assert forall k :: 0 <= k < 8 ==> 0 <= v[k] < n;
      assert forall k :: 0 <= k < 64 ==> 0 <= e[k].col < n && 0 <= e[k].row < n;
      assert EntriesOf(vars) == e + EntriesOf(rest);
    }
  }
}
