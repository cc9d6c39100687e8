// The fill pass of build_matrix in examples/cholesky/cholesky.cpp on values:
// each entry of the stream goes to the next free slot of its column, and
// the columns' slots, laid out by the prefix sums of the counts, end up
// holding exactly the column's entries in stream order.

module CscLayout {
  import opened CscStream

  /** The three arrays of the fill pass as values: the next free slot of each column, rows and values. */
  datatype Csc = Csc(heads: seq<int>, rows: seq<int>, vals: seq<real>)

  /** Entry e goes to the next free slot of its column, which then moves on by one. */
  function Put(st: Csc, e: Entry): (r: Csc)
    ensures |r.heads| == |st.heads| && |r.rows| == |st.rows| && |r.vals| == |st.vals|
  {
    if 0 <= e.col < |st.heads| && 0 <= st.heads[e.col] < |st.rows| && |st.vals| == |st.rows| then
      var p := st.heads[e.col];
      Csc(st.heads[e.col := p + 1], st.rows[p := e.row], st.vals[p := e.val])
    else
      st
  }

  /** The arrays after the entries of placed, one after the other. */
  function Scatter(st: Csc, placed: seq<Entry>): (r: Csc)
    ensures |r.heads| == |st.heads| && |r.rows| == |st.rows| && |r.vals| == |st.vals|
  {
    if |placed| == 0 then st else Put(Scatter(st, placed[..|placed| - 1]), placed[|placed| - 1])
  }

  /** One more entry of the stream. */
  lemma ScatterStep(st: Csc, s: seq<Entry>, pos: int)
    requires 0 <= pos < |s|
    ensures Scatter(st, s[..pos + 1]) == Put(Scatter(st, s[..pos]), s[pos])
  {
    assert s[..pos + 1][..pos] == s[..pos];
  }

  /** Placing entries whose rows lie in [0, n) keeps every stored row index in [0, n). */
  lemma {:induction false} ScatterRows(st: Csc, s: seq<Entry>, n: int)
    requires forall p :: 0 <= p < |st.rows| ==> 0 <= st.rows[p] < n
    requires forall k :: 0 <= k < |s| ==> 0 <= s[k].row < n
    ensures forall p :: 0 <= p < |Scatter(st, s).rows| ==> 0 <= Scatter(st, s).rows[p] < n
    decreases |s|
  {
    if |s| > 0 {
      ScatterRows(st, s[..|s| - 1], n);
    }
  }

  /**
   * Column offsets fit stream s: they begin at 0, never decrease, column c
   * spans as many slots as s has entries in column c, and every entry of s
   * lies in one of the columns.
   */
  ghost predicate Layout(start: seq<int>, s: seq<Entry>) {
    && |start| >= 1 && start[0] == 0
    && (forall a, b :: 0 <= a <= b < |start| ==> start[a] <= start[b])
    && (forall c :: 0 <= c < |start| - 1 ==> start[c + 1] - start[c] == |Column(s, c)|)
    && (forall k :: 0 <= k < |s| ==> 0 <= s[k].col < |start| - 1)
  }

  /** The arrays before the fill: the heads at the column starts, as many slots as the offsets say. */
  ghost predicate Initial(st: Csc, start: seq<int>) {
    |start| >= 1 && st.heads == start && |st.rows| == |st.vals| == start[|start| - 1]
  }

  /** Column offsets: they begin at 0, never decrease and end at the number of entries. */
  ghost predicate Offsets(start: seq<int>, nnz: int) {
    && |start| >= 1 && start[0] == 0 && start[|start| - 1] == nnz
    && forall a, b :: 0 <= a <= b < |start| ==> start[a] <= start[b]
  }

  /**
   * colp[c] is the next free slot of column c: the placed entries of column c
   * sit before it and the entries still to come exactly fill the rest.
   */
  ghost predicate Heads(start: seq<int>, colp: seq<int>, placed: seq<Entry>, todo: seq<Entry>) {
    && |colp| == |start| >= 1
    && colp[|start| - 1] == start[|start| - 1]
    && forall c :: 0 <= c < |start| - 1 ==> HeadAt(start, colp, placed, todo, c)
  }

  /** The head of column c: past the placed entries of column c, and as far from the next column as todo has entries for it. */
  ghost predicate HeadAt(start: seq<int>, colp: seq<int>, placed: seq<Entry>, todo: seq<Entry>, c: int)
    requires 0 <= c < |start| - 1 && |colp| == |start|
  {
    colp[c] == start[c] + |Column(placed, c)| && colp[c] + |Column(todo, c)| == start[c + 1]
  }

  /** The placed entries of each column sit at its head, in stream order. */
  ghost predicate Contents(start: seq<int>, rows: seq<int>, vals: seq<real>, placed: seq<Entry>) {
    && |start| >= 1 && |rows| == |vals|
    && forall c :: 0 <= c < |start| - 1 ==> Filled(start, rows, vals, placed, c)
  }

  /** The placed entries of column c sit at its head, in stream order. */
  ghost predicate Filled(start: seq<int>, rows: seq<int>, vals: seq<real>, placed: seq<Entry>, c: int)
    requires 0 <= c < |start|
  {
    forall k :: 0 <= k < |Column(placed, c)| ==>
      0 <= start[c] + k < |rows| && 0 <= start[c] + k < |vals| &&
      rows[start[c] + k] == Column(placed, c)[k].row && vals[start[c] + k] == Column(placed, c)[k].val
  }

  /** Column c of a one-entry stream. */
  lemma ColumnOne(e: Entry, c: int)
    ensures Column([e], c) == if e.col == c then [e] else []
  {
    assert [e][..0] == [];
  }

  /** How placing the head of the stream changes the columns of both parts. */
  lemma ColumnsShift(placed: seq<Entry>, todo: seq<Entry>)
    requires |todo| > 0
    ensures forall c :: |Column(todo, c)| == |Column(todo[1..], c)| + (if todo[0].col == c then 1 else 0)
    ensures forall c :: Column(placed + [todo[0]], c) == Column(placed, c) + (if todo[0].col == c then [todo[0]] else [])
  {
    forall c
      ensures |Column(todo, c)| == |Column(todo[1..], c)| + (if todo[0].col == c then 1 else 0)
      ensures Column(placed + [todo[0]], c) == Column(placed, c) + (if todo[0].col == c then [todo[0]] else [])
    {
      ColumnShift(placed, todo, c);
    }
  }

  /** ColumnsShift for one column. */
  lemma ColumnShift(placed: seq<Entry>, todo: seq<Entry>, c: int)
    requires |todo| > 0
    ensures |Column(todo, c)| == |Column(todo[1..], c)| + (if todo[0].col == c then 1 else 0)
    ensures Column(placed + [todo[0]], c) == Column(placed, c) + (if todo[0].col == c then [todo[0]] else [])
  {
    var e := todo[0];
    assert todo == [e] + todo[1..];
    ColumnAppend([e], todo[1..], c);
    ColumnAppend(placed, [e], c);
    ColumnOne(e, c);
  }

  /** Placing the head entry at the next free slot p of its column keeps the heads. */
  lemma HeadsStep(start: seq<int>, colp: seq<int>, placed: seq<Entry>, todo: seq<Entry>)
    requires |start| >= 1 && Offsets(start, start[|start| - 1]) && Heads(start, colp, placed, todo)
    requires |todo| > 0 && 0 <= todo[0].col < |start| - 1
    ensures start[todo[0].col] <= colp[todo[0].col] < start[todo[0].col + 1]
    ensures Heads(start, colp[todo[0].col := colp[todo[0].col] + 1], placed + [todo[0]], todo[1..])
  {
    var e := todo[0];
    var colp', placed', todo' := colp[e.col := colp[e.col] + 1], placed + [e], todo[1..];
    ColumnShift(placed, todo, e.col);
    assert HeadAt(start, colp, placed, todo, e.col);
    forall c | 0 <= c < |start| - 1
      ensures HeadAt(start, colp', placed', todo', c)
    {
      assert HeadAt(start, colp, placed, todo, c);
      ColumnShift(placed, todo, c);
    }
  }

  /** Writing the head entry at the next free slot p of its column keeps the contents. */
  lemma ContentsStep(start: seq<int>, colp: seq<int>, rows: seq<int>, vals: seq<real>,
                     placed: seq<Entry>, todo: seq<Entry>)
    requires Offsets(start, |rows|) && Heads(start, colp, placed, todo) && Contents(start, rows, vals, placed)
    requires |todo| > 0 && 0 <= todo[0].col < |start| - 1
    requires start[todo[0].col] <= colp[todo[0].col] < start[todo[0].col + 1]
    ensures Contents(start, rows[colp[todo[0].col] := todo[0].row], vals[colp[todo[0].col] := todo[0].val],
                     placed + [todo[0]])
  {
    var e := todo[0];
    var p := colp[e.col];
    var rows', vals', placed' := rows[p := e.row], vals[p := e.val], placed + [e];
    forall c | 0 <= c < |start| - 1
      ensures Filled(start, rows', vals', placed', c)
    {
      ContentsStepAt(start, colp, rows, vals, placed, todo, c);
    }
  }

  /** ContentsStep for column c. */
  lemma ContentsStepAt(start: seq<int>, colp: seq<int>, rows: seq<int>, vals: seq<real>,
                       placed: seq<Entry>, todo: seq<Entry>, c: int)
    requires Offsets(start, |rows|) && Heads(start, colp, placed, todo) && Contents(start, rows, vals, placed)
    requires |todo| > 0 && 0 <= todo[0].col < |start| - 1 && 0 <= c < |start| - 1
    requires start[todo[0].col] <= colp[todo[0].col] < start[todo[0].col + 1]
    ensures Filled(start, rows[colp[todo[0].col] := todo[0].row], vals[colp[todo[0].col] := todo[0].val],
                   placed + [todo[0]], c)
  {
    var prev := Column(placed, c);
    assert Filled(start, rows, vals, placed, c);
    assert HeadAt(start, colp, placed, todo, c);
    assert HeadAt(start, colp, placed, todo, todo[0].col);
    ColumnShift(placed, todo, c);
    assert colp[c] == start[c] + |prev| && colp[c] + |Column(todo, c)| == start[c + 1];
    ContentsCol(start, rows, vals, prev, Column(placed + [todo[0]], c), todo[0], colp[todo[0].col], c);
  }

  /**
   * One column of ContentsStep: entry e written at slot p of its own column
   * extends that column's filled slots by one, and leaves every other
   * column's slots as they were.
   */
  lemma ContentsCol(start: seq<int>, rows: seq<int>, vals: seq<real>, prev: seq<Entry>, next: seq<Entry>,
                    e: Entry, p: int, c: int)
    requires Offsets(start, |rows|) && |vals| == |rows|
    requires 0 <= c < |start| - 1 && 0 <= e.col < |start| - 1 && start[e.col] <= p < start[e.col + 1]
    requires start[c] + |prev| <= start[c + 1] && (e.col == c ==> p == start[c] + |prev|)
    requires forall k :: 0 <= k < |prev| ==> rows[start[c] + k] == prev[k].row && vals[start[c] + k] == prev[k].val
    requires next == prev + (if e.col == c then [e] else [])
    ensures forall k :: 0 <= k < |next| ==>
      && 0 <= start[c] + k < |rows|
      && rows[p := e.row][start[c] + k] == next[k].row
      && vals[p := e.val][start[c] + k] == next[k].val
  {
    assert 0 <= start[c] && start[c + 1] <= start[|start| - 1];
    if c < e.col {
      assert start[c + 1] <= start[e.col];
    } else if c > e.col {
      assert start[e.col + 1] <= start[c];
    }
  }

  /**
   * Part way through the fill, each head sits just past the entries its
   * column has received, the rest of the stream exactly fills what is
   * left, and every received entry is in its slot.
   */
  lemma {:induction false} ScatterInv(st0: Csc, start: seq<int>, s: seq<Entry>, pos: int)
    requires Layout(start, s) && Initial(st0, start) && 0 <= pos <= |s|
    ensures Heads(start, Scatter(st0, s[..pos]).heads, s[..pos], s[pos..])
    ensures Contents(start, Scatter(st0, s[..pos]).rows, Scatter(st0, s[..pos]).vals, s[..pos])
  {
    if pos == 0 {
      ScatterStart(st0, start, s);
    } else {
      ScatterInv(st0, start, s, pos - 1);
      ScatterNext(st0, start, s, pos);
    }
  }

  /** ScatterInv carried over one more entry. */
  lemma ScatterNext(st0: Csc, start: seq<int>, s: seq<Entry>, pos: int)
    requires Layout(start, s) && Initial(st0, start) && 0 < pos <= |s|
    requires Heads(start, Scatter(st0, s[..pos - 1]).heads, s[..pos - 1], s[pos - 1..])
    requires Contents(start, Scatter(st0, s[..pos - 1]).rows, Scatter(st0, s[..pos - 1]).vals, s[..pos - 1])
    ensures Heads(start, Scatter(st0, s[..pos]).heads, s[..pos], s[pos..])
    ensures Contents(start, Scatter(st0, s[..pos]).rows, Scatter(st0, s[..pos]).vals, s[..pos])
  {
    var placed, todo := s[..pos - 1], s[pos - 1..];
    assert todo[0] == s[pos - 1];
    assert todo[1..] == s[pos..];
    assert placed + [todo[0]] == s[..pos];
    PutInv(start, Scatter(st0, placed), placed, todo);
    ScatterStep(st0, s, pos - 1);
  }

  /** Before the fill the heads sit at the column starts and no slot is claimed. */
  lemma ScatterStart(st0: Csc, start: seq<int>, s: seq<Entry>)
    requires Layout(start, s) && Initial(st0, start)
    ensures Heads(start, Scatter(st0, s[..0]).heads, s[..0], s[0..])
    ensures Contents(start, Scatter(st0, s[..0]).rows, Scatter(st0, s[..0]).vals, s[..0])
  {
    assert s[..0] == [];
    assert s[0..] == s;
    assert Scatter(st0, s[..0]) == st0;
    forall c | 0 <= c < |start| - 1
      ensures HeadAt(start, st0.heads, [], s, c) && Filled(start, st0.rows, st0.vals, [], c)
    {
      assert Column([], c) == [];
    }
  }

  /** Putting the next entry of the stream keeps heads and contents. */
  lemma PutInv(start: seq<int>, st: Csc, placed: seq<Entry>, todo: seq<Entry>)
    requires Offsets(start, |st.rows|) && |st.vals| == |st.rows|
    requires Heads(start, st.heads, placed, todo) && Contents(start, st.rows, st.vals, placed)
    requires |todo| > 0 && 0 <= todo[0].col < |start| - 1
    ensures Heads(start, Put(st, todo[0]).heads, placed + [todo[0]], todo[1..])
    ensures Contents(start, Put(st, todo[0]).rows, Put(st, todo[0]).vals, placed + [todo[0]])
  {
    var e := todo[0];
    HeadsStep(start, st.heads, placed, todo);
    PutAt(start, st, e);
    ContentsStep(start, st.heads, st.rows, st.vals, placed, todo);
  }

  /** An entry whose head lies inside the offsets is written at its head. */
  lemma PutAt(start: seq<int>, st: Csc, e: Entry)
    requires Offsets(start, |st.rows|) && |st.vals| == |st.rows| && |st.heads| == |start|
    requires 0 <= e.col < |start| - 1 && start[e.col] <= st.heads[e.col] < start[e.col + 1]
    ensures Put(st, e) == Csc(st.heads[e.col := st.heads[e.col] + 1],
                              st.rows[st.heads[e.col] := e.row], st.vals[st.heads[e.col] := e.val])
  {
    assert start[e.col + 1] <= start[|start| - 1];
  }

  /** The slot of the next entry exists. */
  lemma HeadBound(st0: Csc, start: seq<int>, s: seq<Entry>, pos: int)
    requires Layout(start, s) && Initial(st0, start) && 0 <= pos < |s|
    ensures 0 <= s[pos].col < |start| - 1
    ensures 0 <= Scatter(st0, s[..pos]).heads[s[pos].col] < |Scatter(st0, s[..pos]).rows|
  {
    ScatterInv(st0, start, s, pos);
    var todo := s[pos..];
    assert todo[0] == s[pos];
    var col := s[pos].col;
    assert HeadAt(start, Scatter(st0, s[..pos]).heads, s[..pos], todo, col);
    ColumnShift(s[..pos], todo, col);
    assert start[col + 1] <= start[|start| - 1];
  }

  /**
   * The arrays at the end of the fill: every head has reached the start of
   * the next column, and the slots of column c hold the rows and values of
   * the column's entries, in stream order.
   */
  ghost predicate Done(start: seq<int>, st: Csc, s: seq<Entry>)
    requires |start| >= 1 && |st.heads| == |start| && |st.rows| == |st.vals| == start[|start| - 1]
    requires forall a, b :: 0 <= a <= b < |start| ==> 0 <= start[a] <= start[b]
  {
    && (forall c :: 0 <= c < |start| - 1 ==> st.heads[c] == start[c + 1])
    && st.heads[|start| - 1] == start[|start| - 1]
    && forall c :: 0 <= c < |start| - 1 ==>
         st.rows[start[c]..start[c + 1]] == RowsOf(Column(s, c)) &&
         st.vals[start[c]..start[c + 1]] == ValsOf(Column(s, c))
  }

  /** Placing the whole stream finishes the fill. */
  lemma ScatterDone(st0: Csc, start: seq<int>, s: seq<Entry>)
    requires Layout(start, s) && Initial(st0, start)
    ensures Done(start, Scatter(st0, s), s)
  {
    ScatterAll(st0, start, s);
    Finished(start, Scatter(st0, s), s);
  }

  /** ScatterInv at the end of the stream. */
  lemma ScatterAll(st0: Csc, start: seq<int>, s: seq<Entry>)
    requires Layout(start, s) && Initial(st0, start)
    ensures Heads(start, Scatter(st0, s).heads, s, [])
    ensures Contents(start, Scatter(st0, s).rows, Scatter(st0, s).vals, s)
  {
    ScatterInv(st0, start, s, |s|);
    assert s[..|s|] == s;
    assert s[|s|..] == [];
  }

  /** Heads and contents once the whole stream is placed, read column by column. */
  lemma Finished(start: seq<int>, st: Csc, s: seq<Entry>)
    requires Heads(start, st.heads, s, []) && Contents(start, st.rows, st.vals, s)
    requires Layout(start, s) && |st.rows| == start[|start| - 1]
    ensures Done(start, st, s)
  {
    forall c | 0 <= c < |start| - 1
      ensures st.heads[c] == start[c + 1]
      ensures st.rows[start[c]..start[c + 1]] == RowsOf(Column(s, c))
      ensures st.vals[start[c]..start[c + 1]] == ValsOf(Column(s, c))
    {
      assert Column([], c) == [];
      assert HeadAt(start, st.heads, s, [], c);
      DoneColumn(start, st.rows, st.vals, s, c);
    }
  }

  /** One column at the end of the fill: its slots, read as slices. */
  lemma DoneColumn(start: seq<int>, rows: seq<int>, vals: seq<real>, s: seq<Entry>, c: int)
    requires Contents(start, rows, vals, s) && Offsets(start, |rows|)
    requires 0 <= c < |start| - 1 && start[c + 1] - start[c] == |Column(s, c)|
    ensures rows[start[c]..start[c + 1]] == RowsOf(Column(s, c))
    ensures vals[start[c]..start[c + 1]] == ValsOf(Column(s, c))
  {
    var col := Column(s, c);
    assert Filled(start, rows, vals, s, c);
    assert 0 <= start[c] <= start[c + 1] <= |rows|;
    forall k | 0 <= k < |col|
      ensures rows[start[c]..start[c + 1]][k] == RowsOf(col)[k]
      ensures vals[start[c]..start[c + 1]][k] == ValsOf(col)[k]
    {
      assert rows[start[c] + k] == col[k].row;
    }
  }
}
