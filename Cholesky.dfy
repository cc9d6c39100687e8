// The imperative part of examples/cholesky/cholesky.cpp: build_matrix's
// element matrix, its counting pass, prefix sum, fill pass and shift-back,
// proved against the streams of module CscStream; and, from main, the
// inversion of the fill-reducing permutation and the right-hand side b = A e.

module Cholesky {
  import opened CscStream
  import opened CscLayout

  /** The permutation an optional iperm argument stands for (NULL: none). */
  ghost function PermOf(iperm: array?<int>): Option<seq<int>>
    reads iperm
  {
    if iperm == null then None else Some(iperm[..])
  }

  /** The position in ke of the entry between local variables 2*ii + ki and 2*jj + kj. */
  function Pos(ii: int, ki: int, jj: int, kj: int): int {
    8 * (2 * ii + ki) + 2 * jj + kj
  }

  /** ke holds the element matrix. */
  ghost predicate KeLayout(ke: array<real>)
    reads ke
  {
    && ke.Length == 64
    && forall ii, ki, jj, kj :: 0 <= ii < 4 && 0 <= ki < 2 && 0 <= jj < 4 && 0 <= kj < 2 ==>
         ke[Pos(ii, ki, jj, kj)] == Ke(ii, ki, jj, kj)
  }

  /**
   * The element matrix of build_matrix: zero everywhere, then kmat/9 at the
   * entries that couple the same displacement component of two nodes.
   */
  method ElementMatrix() returns (ke: array<real>)
    ensures fresh(ke) && KeLayout(ke)
  {
    ke := new real[64];
    for k := 0 to 64
      invariant forall a :: 0 <= a < k ==> ke[a] == 0.0
    {
      ke[k] := 0.0;
    }
    for ki := 0 to 2
      invariant Filled(ke, ki, 0, 0)
    {
      for ii := 0 to 4
        invariant Filled(ke, ki, ii, 0)
      {
        FillKeRow(ke, ki, ii);
      }
    }
  }

  /** The innermost loop of the element matrix: local row 2*ii + ki within component ki. */
  method FillKeRow(ke: array<real>, ki: int, ii: int)
    requires 0 <= ki < 2 && 0 <= ii < 4 && Filled(ke, ki, ii, 0)
    modifies ke
    ensures Filled(ke, ki, ii + 1, 0)
  {
    for jj := 0 to 4
      invariant Filled(ke, ki, ii, jj)
    {
      LocalIndex(ii, ki, jj, ki);
      ke[8 * (2 * ii + ki) + 2 * jj + ki] := KMat[ii][jj] / 9.0;
    }
  }

  /** Loop (ki, ii, jj) of the element matrix precedes loop (k, i, j). */
  ghost predicate Before(ki: int, ii: int, jj: int, k: int, i: int, j: int) {
    ki < k || (ki == k && (ii < i || (ii == i && jj < j)))
  }

  /** ke holds what the element-matrix loops have written before loop (k, i, j). */
  ghost predicate Filled(ke: array<real>, k: int, i: int, j: int)
    reads ke
  {
    && ke.Length == 64
    && forall ii, ki, jj, kj :: 0 <= ii < 4 && 0 <= ki < 2 && 0 <= jj < 4 && 0 <= kj < 2 ==>
         ke[Pos(ii, ki, jj, kj)] ==
           if ki == kj && Before(ki, ii, jj, k, i, j) then KMat[ii][jj] / 9.0 else 0.0
  }

  /** Distinct local entries have distinct positions in ke. */
  lemma LocalIndex(ii: int, ki: int, jj: int, kj: int)
    requires 0 <= ii < 4 && 0 <= ki < 2 && 0 <= jj < 4 && 0 <= kj < 2
    ensures forall ii', ki', jj', kj' ::
      0 <= ii' < 4 && 0 <= ki' < 2 && 0 <= jj' < 4 && 0 <= kj' < 2 &&
      Pos(ii', ki', jj', kj') == Pos(ii, ki, jj, kj) ==>
      ii' == ii && ki' == ki && jj' == jj && kj' == kj
  {
  }

  /**
   * nodes are the nodes of an element and v its variables in counting order:
   * component k of node ii is 2*nodes[ii] + k, renumbered by iperm when given.
   */
  ghost predicate Located(iperm: array?<int>, nodes: seq<int>, v: seq<int>, size: int)
    reads iperm
  {
    && |nodes| == 4 && |v| == 8
    && (iperm != null ==> iperm.Length == size)
    && forall k, ii :: 0 <= k < 2 && 0 <= ii < 4 ==> VarAt(iperm, nodes, v, size, k, ii)
  }

  /** Component k of node ii is a variable of the grid, and v holds it, renumbered by iperm when given. */
  ghost predicate VarAt(iperm: array?<int>, nodes: seq<int>, v: seq<int>, size: int, k: int, ii: int)
    reads iperm
    requires |nodes| == 4 && |v| == 8 && (iperm != null ==> iperm.Length == size)
    requires 0 <= k < 2 && 0 <= ii < 4
  {
    && 0 <= 2 * nodes[ii] + k < size
    && v[4 * k + ii] == (if iperm == null then 2 * nodes[ii] + k else iperm[2 * nodes[ii] + k])
    && 0 <= v[4 * k + ii] < size
  }

  lemma ElementLocated(nx: nat, iperm: array?<int>, i: nat, j: nat)
    requires PermFits(nx, PermOf(iperm)) && i < nx && j < nx
    ensures Located(iperm, Nodes(nx, i, j), ElementVars(nx, PermOf(iperm), i, j), Size(nx))
  {
    var nodes, v, size := Nodes(nx, i, j), ElementVars(nx, PermOf(iperm), i, j), Size(nx);
    forall k, ii | 0 <= k < 2 && 0 <= ii < 4
      ensures VarAt(iperm, nodes, v, size, k, ii)
    {
      VarLocated(nx, iperm, i, j, k, ii);
    }
  }

  /** One variable of ElementLocated. */
  lemma VarLocated(nx: nat, iperm: array?<int>, i: nat, j: nat, k: nat, ii: nat)
    requires PermFits(nx, PermOf(iperm)) && i < nx && j < nx && k < 2 && ii < 4
    ensures 0 <= 2 * Nodes(nx, i, j)[ii] + k < Size(nx)
    ensures ElementVars(nx, PermOf(iperm), i, j)[4 * k + ii] == Var(nx, PermOf(iperm), i, j, k, ii)
    ensures Var(nx, PermOf(iperm), i, j, k, ii) ==
      if iperm == null then 2 * Nodes(nx, i, j)[ii] + k else iperm[2 * Nodes(nx, i, j)[ii] + k]
  {
    NodesInGrid(nx, i, j);
    assert ElementVars(nx, PermOf(iperm), i, j)[4 * k + ii] == Half(nx, PermOf(iperm), i, j, k)[ii];
  }

  /** Occurrences in a prefix one longer. */
  lemma OccStep(s: seq<int>, n: nat)
    requires n < |s|
    ensures forall c :: Occ(s[..n + 1], c) == Occ(s[..n], c) + (if s[n] == c then 1 else 0)
  {
    assert s[..n + 1][..n] == s[..n];
  }

  /** The counting loops of one element: eight more entries for the column of each of its variables. */
  method CountElement(iperm: array?<int>, colp: array<int>, nodes: seq<int>, ghost v: seq<int>)
    requires Located(iperm, nodes, v, colp.Length - 1) && iperm != colp
    modifies colp
    ensures forall c :: 0 <= c < colp.Length ==> colp[c] == old(colp[c]) + 8 * Occ(v, c)
  {
    for k := 0 to 2
      invariant forall c :: 0 <= c < colp.Length ==> colp[c] == old(colp[c]) + 8 * Occ(v[..4 * k], c)
    {
      for ii := 0 to 4
        invariant forall c :: 0 <= c < colp.Length ==> colp[c] == old(colp[c]) + 8 * Occ(v[..4 * k + ii], c)
      {
        assert VarAt(iperm, nodes, v, colp.Length - 1, k, ii);
        var ivar := 2 * nodes[ii] + k;
        if iperm != null {
          ivar := iperm[ivar];
        }
        OccStep(v, 4 * k + ii);
        colp[ivar] := colp[ivar] + 8;
      }
    }
    assert v[..8] == v;
  }

  /** The counting loop over the elements (i, j) .. (i, nx-1) of row i. */
  method CountRow(nx: nat, iperm: array?<int>, colp: array<int>, i: nat)
    requires PermFits(nx, PermOf(iperm)) && i < nx && colp.Length == Size(nx) + 1 && iperm != colp
    modifies colp
    ensures forall c :: 0 <= c < colp.Length ==> colp[c] == old(colp[c]) + 8 * Occ(RowVars(nx, PermOf(iperm), i, 0), c)
  {
    ghost var perm := PermOf(iperm);
    for j := 0 to nx
      invariant forall c :: 0 <= c < colp.Length ==>
        colp[c] + 8 * Occ(RowVars(nx, perm, i, j), c) == old(colp[c]) + 8 * Occ(RowVars(nx, perm, i, 0), c)
    {
      ghost var v, rest := ElementVars(nx, perm, i, j), RowVars(nx, perm, i, j + 1);
      forall c | 0 <= c < colp.Length
        ensures Occ(RowVars(nx, perm, i, j), c) == Occ(v, c) + Occ(rest, c)
      {
        OccAppend(v, rest, c);
      }
      var nodes := Nodes(nx, i, j);
      ElementLocated(nx, iperm, i, j);
      CountElement(iperm, colp, nodes, v);
    }
  }

  /**
   * The counting pass of build_matrix, from a zeroed colp: column c gets
   * eight entries for every time an element of the mesh has c as a variable.
   */
  method CountColumns(nx: nat, iperm: array?<int>, colp: array<int>)
    requires PermFits(nx, PermOf(iperm)) && colp.Length == Size(nx) + 1 && iperm != colp
    requires forall c :: 0 <= c < colp.Length ==> colp[c] == 0
    modifies colp
    ensures forall c :: 0 <= c < colp.Length ==> colp[c] == 8 * Occ(MeshVars(nx, PermOf(iperm), 0), c)
  {
    ghost var perm := PermOf(iperm);
    for i := 0 to nx
      invariant forall c :: 0 <= c < colp.Length ==>
        colp[c] + 8 * Occ(MeshVars(nx, perm, i), c) == 8 * Occ(MeshVars(nx, perm, 0), c)
    {
      ghost var row, rest := RowVars(nx, perm, i, 0), MeshVars(nx, perm, i + 1);
      forall c | 0 <= c < colp.Length
        ensures Occ(MeshVars(nx, perm, i), c) == Occ(row, c) + Occ(rest, c)
      {
        OccAppend(row, rest, c);
      }
      CountRow(nx, iperm, colp, i);
    }
  }

  /**
   * The prefix sum of build_matrix: the counts colp[0..size) become the
   * column start offsets, and their total lands in colp[size].
   */
  method PrefixSum(colp: array<int>) returns (nnz: int)
    requires colp.Length > 0
    modifies colp
    ensures colp[..] == Starts(old(colp[..colp.Length - 1]))
    ensures nnz == colp[colp.Length - 1]
  {
    var size := colp.Length - 1;
    ghost var counts := colp[..size];
    nnz := 0;
    for i := 0 to size
      invariant nnz == Sum(counts[..i])
      invariant forall c :: 0 <= c < i ==> colp[c] == Sum(counts[..c])
      invariant forall c :: i <= c < size ==> colp[c] == counts[c]
    {
      var tmp := colp[i];
      colp[i] := nnz;
      assert counts[..i + 1][..i] == counts[..i];
      nnz := nnz + tmp;
    }
    colp[size] := nnz;
    assert counts[..size] == counts;
    forall c | 0 <= c <= size
      ensures colp[c] == Starts(counts)[c]
    {
    }
    assert colp[..] == Starts(counts);
  }

  /** The arrays of the fill pass hold state st. */
  ghost predicate Synced(colp: array<int>, rows: array<int>, kvals: array<real>, st: Csc)
    reads colp, rows, kvals
  {
    colp[..] == st.heads && rows[..] == st.rows && kvals[..] == st.vals
  }

  /** The body of the fill loops: entry (col, row, val) goes to the next free slot of column col. */
  method Place(colp: array<int>, rows: array<int>, kvals: array<real>, ghost start: seq<int>, ghost st0: Csc,
               ghost s: seq<Entry>, ghost pos: int, col: int, row: int, val: real)
    requires Layout(start, s) && Initial(st0, start) && colp != rows
    requires 0 <= pos < |s| && s[pos] == Entry(col, row, val)
    requires Synced(colp, rows, kvals, Scatter(st0, s[..pos]))
    modifies colp, rows, kvals
    ensures Synced(colp, rows, kvals, Scatter(st0, s[..pos + 1]))
  {
    HeadBound(st0, start, s, pos);
    ScatterStep(st0, s, pos);
    var p := colp[col];
    rows[p] := row;
    kvals[p] := val;
    colp[col] := p + 1;
  }

  /** The innermost fill loop: the run of local row 2*ii + ki against the columns of component kj. */
  method FillRun(iperm: array?<int>, ke: array<real>, colp: array<int>, rows: array<int>, kvals: array<real>,
                 nodes: seq<int>, ki: int, kj: int, ii: int, ghost start: seq<int>, ghost st0: Csc, ghost v: seq<int>,
                 ghost s: seq<Entry>, ghost pos: int)
    requires Located(iperm, nodes, v, |start| - 1) && KeLayout(ke)
    requires colp != rows && iperm != colp && iperm != rows && ke != kvals
    requires 0 <= ki < 2 && 0 <= kj < 2 && 0 <= ii < 4
    requires Layout(start, s) && Initial(st0, start) && ElementAt(s, pos, v)
    requires Synced(colp, rows, kvals, Scatter(st0, s[..pos + 32 * ki + 16 * kj + 4 * ii]))
    modifies colp, rows, kvals
    ensures Synced(colp, rows, kvals, Scatter(st0, s[..pos + 32 * ki + 16 * kj + 4 * ii + 4]))
  {
    for jj := 0 to 4
      invariant Synced(colp, rows, kvals, Scatter(st0, s[..pos + 32 * ki + 16 * kj + 4 * ii + jj]))
    {
      assert VarAt(iperm, nodes, v, |start| - 1, ki, ii) && VarAt(iperm, nodes, v, |start| - 1, kj, jj);
      var ivar := 2 * nodes[ii] + ki;
      var jvar := 2 * nodes[jj] + kj;
      if iperm != null {
        ivar := iperm[ivar];
        jvar := iperm[jvar];
      }
      assert EntryAt(s, pos, v, ki, kj, ii, jj);
      // Pos(ii, ki, jj, kj) is the source's index 8 * (2 * ii + ki) + (2 * jj + kj)
      assert ke[Pos(ii, ki, jj, kj)] == Ke(ii, ki, jj, kj);
      Place(colp, rows, kvals, start, st0, s, pos + Slot(ki, kj, ii, jj), ivar, jvar, ke[Pos(ii, ki, jj, kj)]);
    }
  }

  /** The loop over the local rows of component ki, against the columns of component kj. */
  method FillBlock(iperm: array?<int>, ke: array<real>, colp: array<int>, rows: array<int>, kvals: array<real>,
                   nodes: seq<int>, ki: int, kj: int, ghost start: seq<int>, ghost st0: Csc, ghost v: seq<int>,
                   ghost s: seq<Entry>, ghost pos: int)
    requires Located(iperm, nodes, v, |start| - 1) && KeLayout(ke)
    requires colp != rows && iperm != colp && iperm != rows && ke != kvals
    requires 0 <= ki < 2 && 0 <= kj < 2
    requires Layout(start, s) && Initial(st0, start) && ElementAt(s, pos, v)
    requires Synced(colp, rows, kvals, Scatter(st0, s[..pos + 32 * ki + 16 * kj]))
    modifies colp, rows, kvals
    ensures Synced(colp, rows, kvals, Scatter(st0, s[..pos + 32 * ki + 16 * kj + 16]))
  {
    for ii := 0 to 4
      invariant Synced(colp, rows, kvals, Scatter(st0, s[..pos + 32 * ki + 16 * kj + 4 * ii]))
    {
      FillRun(iperm, ke, colp, rows, kvals, nodes, ki, kj, ii, start, st0, v, s, pos);
    }
  }

  /** The loop over the column components kj = 0, 1, for the rows of component ki. */
  method FillCols(iperm: array?<int>, ke: array<real>, colp: array<int>, rows: array<int>, kvals: array<real>,
                  nodes: seq<int>, ki: int, ghost start: seq<int>, ghost st0: Csc, ghost v: seq<int>,
                  ghost s: seq<Entry>, ghost pos: int)
    requires Located(iperm, nodes, v, |start| - 1) && KeLayout(ke)
    requires colp != rows && iperm != colp && iperm != rows && ke != kvals
    requires 0 <= ki < 2
    requires Layout(start, s) && Initial(st0, start) && ElementAt(s, pos, v)
    requires Synced(colp, rows, kvals, Scatter(st0, s[..pos + 32 * ki]))
    modifies colp, rows, kvals
    ensures Synced(colp, rows, kvals, Scatter(st0, s[..pos + 32 * ki + 32]))
  {
    for kj := 0 to 2
      invariant Synced(colp, rows, kvals, Scatter(st0, s[..pos + 32 * ki + 16 * kj]))
    {
      FillBlock(iperm, ke, colp, rows, kvals, nodes, ki, kj, start, st0, v, s, pos);
    }
  }

  /** The fill loops of the element with nodes nodes: its 64 entries, in stream order. */
  method FillElement(iperm: array?<int>, ke: array<real>, colp: array<int>, rows: array<int>, kvals: array<real>,
                     nodes: seq<int>, ghost start: seq<int>, ghost st0: Csc, ghost v: seq<int>, ghost s: seq<Entry>,
                     ghost pos: int)
    requires Located(iperm, nodes, v, |start| - 1) && KeLayout(ke)
    requires colp != rows && iperm != colp && iperm != rows && ke != kvals
    requires Layout(start, s) && Initial(st0, start) && ElementAt(s, pos, v)
    requires Synced(colp, rows, kvals, Scatter(st0, s[..pos]))
    modifies colp, rows, kvals
    ensures Synced(colp, rows, kvals, Scatter(st0, s[..pos + 64]))
  {
    for ki := 0 to 2
      invariant Synced(colp, rows, kvals, Scatter(st0, s[..pos + 32 * ki]))
    {
      FillCols(iperm, ke, colp, rows, kvals, nodes, ki, start, st0, v, s, pos);
    }
  }

  /** The fill loop over the elements of row i of the mesh; rest is the fill stream of the rows after it. */
  method FillRow(nx: nat, iperm: array?<int>, ke: array<real>, colp: array<int>, rows: array<int>, kvals: array<real>,
                 i: nat, ghost start: seq<int>, ghost st0: Csc, ghost s: seq<Entry>, ghost pos: int, ghost rest: seq<Entry>)
      returns (ghost pos': int)
    requires PermFits(nx, PermOf(iperm)) && i < nx && |start| == Size(nx) + 1 && KeLayout(ke)
    requires colp != rows && iperm != colp && iperm != rows && ke != kvals
    requires Layout(start, s) && Initial(st0, start)
    requires Suffix(s, pos, EntriesOf(RowVars(nx, PermOf(iperm), i, 0)) + rest)
    requires Synced(colp, rows, kvals, Scatter(st0, s[..pos]))
    modifies colp, rows, kvals
    ensures Suffix(s, pos', rest)
    ensures Synced(colp, rows, kvals, Scatter(st0, s[..pos']))
  {
    ghost var perm := PermOf(iperm);
    pos' := pos;
    for j := 0 to nx
      invariant Suffix(s, pos', EntriesOf(RowVars(nx, perm, i, j)) + rest)
      invariant Synced(colp, rows, kvals, Scatter(st0, s[..pos']))
    {
      ElementLocated(nx, iperm, i, j);
      RowStep(nx, perm, i, j, s, pos', rest);
      var nodes := Nodes(nx, i, j);
      FillElement(iperm, ke, colp, rows, kvals, nodes, start, st0, ElementVars(nx, perm, i, j), s, pos');
      pos' := pos' + 64;
    }
    assert EntriesOf(RowVars(nx, perm, i, nx)) + rest == rest;
  }

  /** The fill pass of build_matrix: every entry of the fill stream, in order, to the next free slot of its column. */
  method FillMesh(nx: nat, iperm: array?<int>, ke: array<real>, colp: array<int>, rows: array<int>, kvals: array<real>,
                  ghost start: seq<int>, ghost st0: Csc, ghost s: seq<Entry>)
    requires PermFits(nx, PermOf(iperm)) && |start| == Size(nx) + 1 && KeLayout(ke)
    requires colp != rows && iperm != colp && iperm != rows && ke != kvals
    requires Layout(start, s) && Initial(st0, start) && s == EntriesOf(MeshVars(nx, PermOf(iperm), 0))
    requires Synced(colp, rows, kvals, st0)
    modifies colp, rows, kvals
    ensures Synced(colp, rows, kvals, Scatter(st0, s))
  {
    ghost var perm := PermOf(iperm);
    ghost var pos := 0;
    assert s[..0] == [] && s[0..] == s;
    for i := 0 to nx
      invariant Suffix(s, pos, EntriesOf(MeshVars(nx, perm, i)))
      invariant Synced(colp, rows, kvals, Scatter(st0, s[..pos]))
    {
      MeshStep(nx, perm, i);
      pos := FillRow(nx, iperm, ke, colp, rows, kvals, i, start, st0, s, pos, EntriesOf(MeshVars(nx, perm, i + 1)));
    }
    assert s[..pos] == s;
  }

  /**
   * The offsets of the prefix sum fit the fill stream of any list of element
   * variables in [0, n), and end at 8 entries per variable.
   */
  lemma CountsLayout(vars: seq<int>, n: nat)
    requires |vars| % 8 == 0 && forall k :: 0 <= k < |vars| ==> 0 <= vars[k] < n
    ensures Layout(Starts(Counts(vars, n)), EntriesOf(vars)) && Starts(Counts(vars, n))[n] == 8 * |vars|
  {
    var counts := Counts(vars, n);
    var start, s := Starts(counts), EntriesOf(vars);
    StartsOrdered(counts);
    forall c | 0 <= c < n
      ensures start[c + 1] - start[c] == |Column(s, c)|
    {
      EntriesCols(vars, c);
    }
    EntriesInRange(vars, n);
    CountsTotal(vars, n);
    assert counts[..n] == counts;
  }

  /** The mesh has 8 variables, hence 64 entries, for each of its nx * nx elements, all in [0, Size(nx)). */
  lemma MeshLayout(nx: nat, perm: Option<seq<int>>)
    requires PermFits(nx, perm)
    ensures Layout(Starts(Counts(MeshVars(nx, perm, 0), Size(nx))), EntriesOf(MeshVars(nx, perm, 0)))
    ensures Starts(Counts(MeshVars(nx, perm, 0), Size(nx)))[Size(nx)] == 64 * nx * nx
  {
    var vars := MeshVars(nx, perm, 0);
    MeshVarsLength(nx, perm, 0);
    MeshVarsInRange(nx, perm, 0);
    assert 8 * nx * (nx - 0) == 8 * (nx * nx) && 64 * nx * nx == 8 * (8 * (nx * nx));
    CountsLayout(vars, Size(nx));
  }

  /** The matrix in compressed sparse column form: column c holds the rows and values of the entries of s in column c, in stream order. */
  ghost predicate Assembled(size: nat, s: seq<Entry>, colp: seq<int>, rows: seq<int>, vals: seq<real>) {
    && Offsets(colp, |rows|) && |colp| == size + 1 && |vals| == |rows|
    && (forall c :: 0 <= c < size ==>
          rows[colp[c]..colp[c + 1]] == RowsOf(Column(s, c)) && vals[colp[c]..colp[c + 1]] == ValsOf(Column(s, c)))
    && forall p :: 0 <= p < |rows| ==> 0 <= rows[p] < size
  }

  /** The shift-back of build_matrix: every head moves up one column and column 0 starts at 0. */
  method ShiftBack(colp: array<int>)
    requires colp.Length > 0
    modifies colp
    ensures colp[0] == 0 && forall c :: 0 < c < colp.Length ==> colp[c] == old(colp[c - 1])
  {
    var i := colp.Length - 2;
    while i >= 0
      invariant -1 <= i <= colp.Length - 2
      invariant forall c :: 0 <= c <= i + 1 ==> colp[c] == old(colp[c])
      invariant forall c :: i + 1 < c < colp.Length ==> colp[c] == old(colp[c - 1])
    {
      colp[i + 1] := colp[i];
      i := i - 1;
    }
    colp[0] := 0;
  }

  /** The first half of build_matrix: colp zeroed, counted and turned into the column start offsets. */
  method ColumnStarts(nx: nat, iperm: array?<int>) returns (colp: array<int>, nnz: int)
    requires PermFits(nx, PermOf(iperm))
    ensures fresh(colp) && colp[..] == Starts(Counts(MeshVars(nx, PermOf(iperm), 0), Size(nx)))
    ensures nnz == colp[Size(nx)]
  {
    var size := 2 * (nx + 1) * (nx + 1);
    colp := new int[size + 1];
    for i := 0 to size + 1
      invariant forall c :: 0 <= c < i ==> colp[c] == 0
    {
      colp[i] := 0;
    }
    CountColumns(nx, iperm, colp);
    assert colp[..size] == Counts(MeshVars(nx, PermOf(iperm), 0), size);
    nnz := PrefixSum(colp);
  }

  /** The entries of a column are entries of the stream. */
  lemma {:induction false} ColumnIn(s: seq<Entry>, c: int)
    ensures forall e :: e in Column(s, c) ==> e in s
  {
    if |s| > 0 {
      ColumnIn(s[..|s| - 1], c);
      assert forall e :: e in s[..|s| - 1] ==> e in s;
    }
  }

  /** Every slot below the last offset lies in some column. */
  lemma {:induction false} SlotColumn(start: seq<int>, p: int) returns (c: int)
    requires |start| >= 1 && Offsets(start, start[|start| - 1]) && 0 <= p < start[|start| - 1]
    ensures 0 <= c < |start| - 1 && start[c] <= p < start[c + 1]
  {
    var last := |start| - 1;
    if start[last - 1] <= p {
      c := last - 1;
    } else {
      c := SlotColumn(start[..last], p);
    }
  }

  /** When each column holds the rows of its stream entries, every stored row comes from the stream. */
  lemma StoredRows(start: seq<int>, rows: seq<int>, s: seq<Entry>, n: nat)
    requires |start| == n + 1 && Offsets(start, |rows|)
    requires forall c :: 0 <= c < n ==> rows[start[c]..start[c + 1]] == RowsOf(Column(s, c))
    requires forall k :: 0 <= k < |s| ==> 0 <= s[k].row < n
    ensures forall p :: 0 <= p < |rows| ==> 0 <= rows[p] < n
  {
    forall p | 0 <= p < |rows|
      ensures 0 <= rows[p] < n
    {
      var c := SlotColumn(start, p);
      var col := Column(s, c);
      assert rows[p] == rows[start[c]..start[c + 1]][p - start[c]];
      ColumnIn(s, c);
      assert col[p - start[c]] in s;
    }
  }

  /**
   * After the fill pass every column is full and its head sits at the start
   * of the next column; every stored row comes from the stream.
   */
  lemma FillDone(start: seq<int>, st0: Csc, s: seq<Entry>, n: nat)
    requires Layout(start, s) && Initial(st0, start) && |start| == n + 1
    requires forall k :: 0 <= k < |s| ==> 0 <= s[k].row < n
    ensures forall c :: 0 < c <= n ==> Scatter(st0, s).heads[c - 1] == start[c]
    ensures Assembled(n, s, start, Scatter(st0, s).rows, Scatter(st0, s).vals)
  {
    var st := Scatter(st0, s);
    assert |st.rows| == |st.vals| == start[n];
    assert Offsets(start, |st.rows|);
    ScatterDone(st0, start, s);
    assert forall c :: 0 <= c < n ==> st.rows[start[c]..start[c + 1]] == RowsOf(Column(s, c));
    StoredRows(start, st.rows, s, n);
    forall c | 0 < c <= n
      ensures st.heads[c - 1] == start[c]
    {
      assert st.heads[c - 1] == start[(c - 1) + 1];
    }
  }

  /**
   * The second half of build_matrix: rows and kvals allocated, filled column
   * by column through the heads in colp, and colp shifted back to the
   * column starts.
   */
  method FillColumns(nx: nat, iperm: array?<int>, ke: array<real>, colp: array<int>, nnz: int, ghost s: seq<Entry>)
    returns (rows: array<int>, kvals: array<real>)
    requires PermFits(nx, PermOf(iperm)) && KeLayout(ke) && iperm != colp
    requires s == EntriesOf(MeshVars(nx, PermOf(iperm), 0))
    requires colp.Length == Size(nx) + 1 && Layout(colp[..], s) && nnz == colp[Size(nx)]
    modifies colp
    ensures fresh(rows) && fresh(kvals) && colp[..] == old(colp[..])
    ensures Assembled(Size(nx), s, colp[..], rows[..], kvals[..])
  {
    ghost var size, perm := Size(nx), PermOf(iperm);
    ghost var start := colp[..];
    rows := new int[nnz];
    kvals := new real[nnz];
    ghost var st0 := Csc(start, rows[..], kvals[..]);
    FillMesh(nx, iperm, ke, colp, rows, kvals, start, st0, s);
    ghost var heads := colp[..];
    ghost var st := Scatter(st0, s);
    MeshVarsInRange(nx, perm, 0);
    EntriesInRange(MeshVars(nx, perm, 0), size);
    FillDone(start, st0, s, size);
    ShiftBack(colp);
    forall c | 0 <= c <= size
      ensures colp[c] == start[c]
    {
      if c > 0 {
        assert colp[c] == heads[c - 1];
      }
    }
    assert colp[..] == start && rows[..] == st.rows && kvals[..] == st.vals;
  }

  /**
   * build_matrix: the stiffness matrix of the nx by nx mesh, with the
   * variables renumbered by iperm when it is given, in compressed sparse
   * column form with 64 entries per element.
   */
  method BuildMatrix(nx: nat, iperm: array?<int>) returns (size: nat, colp: array<int>, rows: array<int>, kvals: array<real>)
    requires PermFits(nx, PermOf(iperm))
    ensures fresh(colp) && fresh(rows) && fresh(kvals)
    ensures size == Size(nx) && colp[..] == Starts(Counts(MeshVars(nx, PermOf(iperm), 0), size))
    ensures Assembled(size, EntriesOf(MeshVars(nx, PermOf(iperm), 0)), colp[..], rows[..], kvals[..])
    ensures colp[size] == 64 * nx * nx
  {
    var ke := ElementMatrix();
    size := 2 * (nx + 1) * (nx + 1);
    ghost var perm := PermOf(iperm);
    var nnz;
    colp, nnz := ColumnStarts(nx, iperm);
    MeshLayout(nx, perm);
    rows, kvals := FillColumns(nx, iperm, ke, colp, nnz, EntriesOf(MeshVars(nx, perm, 0)));
    assert PermOf(iperm) == perm;
  }

  /** p lists each of 0 .. n-1 exactly once. */
  ghost predicate IsPerm(p: seq<int>, n: nat) {
    && |p| == n
    && (forall i :: 0 <= i < n ==> 0 <= p[i] < n)
    && (forall i, j :: 0 <= i < j < n ==> p[i] != p[j])
    && forall k :: 0 <= k < n ==> Covers(p, k)
  }

  /** Some entry of p is k. */
  ghost predicate Covers(p: seq<int>, k: int) {
    exists i :: 0 <= i < |p| && p[i] == k
  }

  /** An array that undoes a permutation is itself a permutation, and composes with it to the identity both ways. */
  lemma InverseIsPerm(p: seq<int>, q: seq<int>, n: nat)
    requires IsPerm(p, n) && |q| == n
    requires forall i :: 0 <= i < n ==> q[p[i]] == i
    ensures IsPerm(q, n) && forall k :: 0 <= k < n ==> p[q[k]] == k
  {
    forall k | 0 <= k < n
      ensures 0 <= q[k] < n && p[q[k]] == k
    {
      assert Covers(p, k);
      var i :| 0 <= i < n && p[i] == k;
    }
    forall i | 0 <= i < n
      ensures Covers(q, i)
    {
      assert q[p[i]] == i;
    }
  }

  /** The inverse of the fill-reducing permutation, as main computes it: iperm[perm[i]] = i. */
  method InversePerm(perm: array<int>) returns (iperm: array<int>)
    requires IsPerm(perm[..], perm.Length)
    ensures fresh(iperm) && iperm.Length == perm.Length
    ensures IsPerm(iperm[..], perm.Length)
    ensures forall i :: 0 <= i < perm.Length ==> iperm[perm[i]] == i
    ensures forall k :: 0 <= k < perm.Length ==> perm[iperm[k]] == k
  {
    iperm := new int[perm.Length];
    for i := 0 to perm.Length
      invariant forall j :: 0 <= j < i ==> iperm[perm[j]] == j
    {
      iperm[perm[i]] := i;
    }
    InverseIsPerm(perm[..], iperm[..], perm.Length);
  }

  /** The sum of the values stored with row index r. */
  function RowTotal(rows: seq<int>, vals: seq<real>, r: int): real
    requires |vals| == |rows|
  {
    if |rows| == 0 then 0.0
    else RowTotal(rows[..|rows| - 1], vals[..|rows| - 1], r) + (if rows[|rows| - 1] == r then vals[|rows| - 1] else 0.0)
  }

  /** One more stored entry adds its value to the total of its own row only. */
  lemma RowTotalStep(rows: seq<int>, vals: seq<real>, p: int, r: int)
    requires |vals| == |rows| && 0 <= p < |rows|
    ensures RowTotal(rows[..p + 1], vals[..p + 1], r)
         == RowTotal(rows[..p], vals[..p], r) + (if rows[p] == r then vals[p] else 0.0)
  {
    assert rows[..p + 1][..p] == rows[..p];
    assert vals[..p + 1][..p] == vals[..p];
  }

  /** The right-hand side of main, b = A e: b[r] is the sum of the stored values in row r. */
  method RowSums(size: nat, colp: array<int>, rows: array<int>, kvals: array<real>) returns (b: array<real>)
    requires colp.Length == size + 1 && Offsets(colp[..], rows.Length) && kvals.Length == rows.Length
    requires forall p :: 0 <= p < rows.Length ==> 0 <= rows[p] < size
    ensures fresh(b) && b.Length == size
    ensures forall r :: 0 <= r < size ==> b[r] == RowTotal(rows[..], kvals[..], r)
  {
    b := new real[size];
    for i := 0 to size
      invariant forall r :: 0 <= r < i ==> b[r] == 0.0
    {
      b[i] := 0.0;
    }
    for i := 0 to size
      invariant forall r :: 0 <= r < size ==> b[r] == RowTotal(rows[..colp[i]], kvals[..colp[i]], r)
    {
      var jp := colp[i];
      while jp < colp[i + 1]
        invariant colp[i] <= jp <= colp[i + 1]
        invariant forall r :: 0 <= r < size ==> b[r] == RowTotal(rows[..jp], kvals[..jp], r)
      {
        forall r | 0 <= r < size
          ensures RowTotal(rows[..jp + 1], kvals[..jp + 1], r)
               == RowTotal(rows[..jp], kvals[..jp], r) + (if rows[jp] == r then kvals[jp] else 0.0)
        {
          RowTotalStep(rows[..], kvals[..], jp, r);
        }
        b[rows[jp]] := b[rows[jp]] + kvals[jp];
        jp := jp + 1;
      }
    }
    assert rows[..colp[size]] == rows[..] && kvals[..colp[size]] == kvals[..];
  }

  /**
   * The system main sets up: the inverse of the fill-reducing permutation,
   * the matrix rebuilt under it, and b = A e.
   */
  method PermutedSystem(nx: nat, perm: array<int>) returns (size: nat, colp: array<int>, rows: array<int>, kvals: array<real>, b: array<real>)
    requires perm.Length == Size(nx) && IsPerm(perm[..], perm.Length)
    ensures fresh(colp) && fresh(rows) && fresh(kvals) && fresh(b)
    ensures size == Size(nx)
    ensures exists iperm :: (IsPerm(iperm, Size(nx)) && (forall k :: 0 <= k < size ==> perm[iperm[k]] == k) &&
      Assembled(size, EntriesOf(MeshVars(nx, Some(iperm), 0)), colp[..], rows[..], kvals[..]))
    ensures b.Length == size && forall r :: 0 <= r < size ==> b[r] == RowTotal(rows[..], kvals[..], r)
  {
    var iperm := InversePerm(perm);
    assert PermOf(iperm) == Some(iperm[..]);
    size, colp, rows, kvals := BuildMatrix(nx, iperm);
    b := RowSums(size, colp, rows, kvals);
    assert IsPerm(iperm[..], size) && forall k :: 0 <= k < size ==> perm[iperm[..][k]] == k;
  }
}
