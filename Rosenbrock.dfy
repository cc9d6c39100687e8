// examples/python/rosenbrock.py: the two-variable Rosenbrock problem with
// one linear constraint, its append-only design history, and the driver
// that evaluates a contour grid and then runs ten trials, each from an
// emptied history.
//
// A constraint is satisfied when its value is non-negative, c(x) >= 0.

module Rosenbrock {

  /**
   * The product of two reals, with the sign rule for two factors of the
   * same sign. Squares are taken through it, so that the sign of a square
   * follows from this rule.
   */
  function Mul(a: real, b: real): (r: real)
    ensures a > 0.0 && b > 0.0 ==> r > 0.0
    ensures a < 0.0 && b < 0.0 ==> r > 0.0
  {
    a * b
  }

  /** t ** 2: zero at zero and positive everywhere else. */
  function Sq(t: real): (r: real)
    ensures t != 0.0 ==> r > 0.0
  {
    Mul(t, t)
  }

  /** The Rosenbrock objective, 100 (x1 - x0 ** 2) ** 2 + (1 - x0) ** 2. */
  function Objective(x0: real, x1: real): real {
    100.0 * Sq(x1 - Sq(x0)) + Sq(1.0 - x0)
  }

  /** The single constraint, x0 + x1 + 5. */
  function Constraint(x0: real, x1: real): real {
    x0 + x1 + 5.0
  }

  /** The objective gradient, term by term as evalObjConGradient writes it. */
  function Gradient(x0: real, x1: real): (g: seq<real>)
    ensures |g| == 2
  {
    [200.0 * (x1 - Sq(x0)) * (-2.0 * x0) - 2.0 * (1.0 - x0), 200.0 * (x1 - Sq(x0))]
  }

  /** The constraint Jacobian row. */
  function Jacobian(x0: real, x1: real): (a: seq<real>)
    ensures |a| == 2
  {
    [1.0, 1.0]
  }

  /** The objective is never negative, and is zero exactly at (1, 1). */
  lemma ObjectiveZero(x0: real, x1: real)
    ensures Objective(x0, x1) >= 0.0
    ensures Objective(x0, x1) == 0.0 <==> x0 == 1.0 && x1 == 1.0
  {
    assert Sq(0.0) == 0.0;
    if x0 == 1.0 {
      assert Sq(x0) == 1.0;
    }
  }

  /** The gradient vanishes exactly at (1, 1): the objective has no other stationary point. */
  lemma Stationary(x0: real, x1: real)
    ensures Gradient(x0, x1) == [0.0, 0.0] <==> x0 == 1.0 && x1 == 1.0
  {
    var g := Gradient(x0, x1);
    if g[0] == 0.0 && g[1] == 0.0 {
      assert x1 - Sq(x0) == 0.0;
      assert x0 == 1.0;
    }
    if x0 == 1.0 && x1 == 1.0 {
      assert Sq(x0) == 1.0;
      assert g == [0.0, 0.0];
    }
  }

  /** Along x0 the objective changes by h times the first gradient entry, up to a term in h ** 2. */
  lemma SlopeX0(x0: real, x1: real, h: real)
    ensures Objective(x0 + h, x1) - Objective(x0, x1)
         == h * Gradient(x0, x1)[0] + h * h * (1.0 - 200.0 * (x1 - x0 * x0) + 400.0 * x0 * x0 + 400.0 * x0 * h + 100.0 * h * h)
  {
    var t := x1 - x0 * x0;
    var d := 2.0 * x0 * h + h * h;
    assert Sq(x0) == x0 * x0;
    assert Sq(x0 + h) == (x0 + h) * (x0 + h);
    assert x1 - (x0 + h) * (x0 + h) == t - d;
    assert Sq(t - d) - Sq(t) == d * d - 2.0 * t * d;
    assert Sq(1.0 - (x0 + h)) - Sq(1.0 - x0) == h * h - 2.0 * h * (1.0 - x0);
    assert d * d == 4.0 * x0 * x0 * h * h + 4.0 * x0 * h * h * h + h * h * h * h;
  }

  /** Along x1 the objective changes by h times the second gradient entry, up to 100 h ** 2. */
  lemma SlopeX1(x0: real, x1: real, h: real)
    ensures Objective(x0, x1 + h) - Objective(x0, x1) == h * Gradient(x0, x1)[1] + 100.0 * h * h
  {
    var t := x1 - Sq(x0);
    assert Sq(t + h) - Sq(t) == 2.0 * t * h + h * h;
  }

  /** The constraint is linear: a step changes it by exactly the Jacobian row times the step. */
  lemma ConstraintLinear(x0: real, x1: real, h0: real, h1: real)
    ensures Constraint(x0 + h0, x1 + h1) - Constraint(x0, x1) == Jacobian(x0, x1)[0] * h0 + Jacobian(x0, x1)[1] * h1
  {
  }

  /** The lower bound getVarsAndBounds gives every variable. */
  const Lower: real := -2.0

  /** The upper bound getVarsAndBounds gives every variable. */
  const Upper: real := 2.0

  /**
   * (1, 1) lies inside the bounds [Lower, Upper] and satisfies the
   * constraint; its objective 0 is the least, and every other point has a
   * larger one.
   */
  lemma Optimum(x0: real, x1: real)
    ensures Lower <= 1.0 <= Upper && Constraint(1.0, 1.0) >= 0.0
    ensures Objective(1.0, 1.0) == 0.0 <= Objective(x0, x1)
    ensures x0 != 1.0 || x1 != 1.0 ==> Objective(x0, x1) > 0.0
  {
    ObjectiveZero(x0, x1);
  }

  /** n evenly spaced values from lo to hi. */
  function Linspace(lo: real, hi: real, n: nat): (r: seq<real>)
    ensures |r| == n
  {
    if n == 1 then [lo] else seq(n, i => lo + (i as real) * Step(lo, hi, n))
  }

  /** The spacing of Linspace(lo, hi, n). */
  function Step(lo: real, hi: real, n: nat): real {
    if n <= 1 then 0.0 else (hi - lo) / ((n - 1) as real)
  }

  /** n - 1 steps span the whole interval, and a positive interval has a positive step. */
  lemma StepSpan(lo: real, hi: real, n: nat)
    requires n >= 2
    ensures ((n - 1) as real) * Step(lo, hi, n) == hi - lo
    ensures lo < hi ==> Step(lo, hi, n) > 0.0
  {
  }

  /** Positive steps from a lower index reach a larger value. */
  lemma Increasing(lo: real, step: real, i: nat, j: nat)
    requires step > 0.0 && i < j
    ensures lo + (i as real) * step < lo + (j as real) * step
  {
    assert (j as real) * step - (i as real) * step == ((j - i) as real) * step;
  }

  /** The grid begins at lo, ends at hi and, for lo < hi, strictly increases. */
  lemma LinspaceEnds(lo: real, hi: real, n: nat)
    requires n >= 2
    ensures Linspace(lo, hi, n)[0] == lo && Linspace(lo, hi, n)[n - 1] == hi
    ensures lo < hi ==> forall i, j :: 0 <= i < j < n ==> Linspace(lo, hi, n)[i] < Linspace(lo, hi, n)[j]
  {
    var r, step := Linspace(lo, hi, n), Step(lo, hi, n);
    StepSpan(lo, hi, n);
    assert r[n - 1] == lo + ((n - 1) as real) * step;
    if lo < hi {
      forall i, j | 0 <= i < j < n
        ensures r[i] < r[j]
      {
        Increasing(lo, step, i, j);
      }
    }
  }

  /** The design points of grid row j: (xs[i], xs[j]) for every i. */
  function GridRow(xs: seq<real>, j: nat): (r: seq<seq<real>>)
    requires j < |xs|
    ensures |r| == |xs| && forall i :: 0 <= i < |xs| ==> r[i] == [xs[i], xs[j]]
  {
    seq(|xs|, i requires 0 <= i < |xs| => [xs[i], xs[j]])
  }

  /** The design points of the first m grid rows, row after row. */
  function Grid(xs: seq<real>, m: nat): seq<seq<real>>
    requires m <= |xs|
  {
    if m == 0 then [] else Grid(xs, m - 1) + GridRow(xs, m - 1)
  }

  /** m grid rows hold m * |xs| points. */
  lemma {:induction false} GridSize(xs: seq<real>, m: nat)
    requires m <= |xs|
    ensures |Grid(xs, m)| == m * |xs|
  {
    if m > 0 {
      GridSize(xs, m - 1);
      assert (m - 1) * |xs| + |xs| == m * |xs|;
    }
  }

  /** Appending to a sequence in two steps appends their concatenation. */
  lemma AppendAssoc<T>(a: seq<T>, b: seq<T>, c: seq<T>)
    ensures a + (b + c) == (a + b) + c
  {
  }

  /** The problem object: two variables, one constraint, and the history of evaluated points. */
  class Problem {
    const nvars: nat
    const ncon: nat
    var xHist: seq<seq<real>>

    constructor ()
      ensures nvars == 2 && ncon == 1 && xHist == []
    {
      nvars := 2;
      ncon := 1;
      xHist := [];
    }

    /**
     * The starting point and bounds: every bound is Lower = -2 below and
     * Upper = 2 above, and x[i] = -2 + u[i] for uniform draws u[i] in
     * [0, 1), so the start lies inside the bounds.
     */
    method GetVarsAndBounds(x: array<real>, lb: array<real>, ub: array<real>, u: seq<real>)
      requires |u| == x.Length && forall i :: 0 <= i < |u| ==> 0.0 <= u[i] < 1.0
      requires x != lb && x != ub && lb != ub
      modifies x, lb, ub
      ensures forall i :: 0 <= i < x.Length ==> x[i] == -2.0 + u[i]
      ensures forall i :: 0 <= i < lb.Length ==> lb[i] == Lower
      ensures forall i :: 0 <= i < ub.Length ==> ub[i] == Upper
      ensures forall i :: 0 <= i < x.Length && i < lb.Length && i < ub.Length ==> lb[i] <= x[i] <= ub[i]
    {
      for i := 0 to x.Length
        invariant forall k :: 0 <= k < i ==> x[k] == -2.0 + u[k]
      {
        x[i] := -2.0 + u[i];
      }
      for i := 0 to lb.Length
        invariant forall k :: 0 <= k < i ==> lb[k] == Lower
        invariant forall k :: 0 <= k < x.Length ==> x[k] == -2.0 + u[k]
      {
        lb[i] := Lower;
      }
      for i := 0 to ub.Length
        invariant forall k :: 0 <= k < i ==> ub[k] == Upper
        invariant forall k :: 0 <= k < lb.Length ==> lb[k] == Lower
        invariant forall k :: 0 <= k < x.Length ==> x[k] == -2.0 + u[k]
      {
        ub[i] := Upper;
      }
    }

    /**
     * Records a copy of x at the end of the history, and returns no failure,
     * the objective and the constraint value at x.
     */
    method EvalObjCon(x: seq<real>) returns (fail: int, fobj: real, con: seq<real>)
      requires |x| >= 2
      modifies this
      ensures xHist == old(xHist) + [x]
      ensures fail == 0 && fobj == Objective(x[0], x[1]) && con == [Constraint(x[0], x[1])]
    {
      xHist := xHist + [x];
      fail := 0;
      con := [0.0];
      fobj := 100.0 * Sq(x[1] - Sq(x[0])) + Sq(1.0 - x[0]);
      con := con[0 := x[0] + x[1] + 5.0];
    }

    /**
     * Writes the objective gradient into g[0..2) and the constraint Jacobian
     * row into A[0, 0..2); touches nothing else, the history included.
     */
    method EvalObjConGradient(x: seq<real>, g: array<real>, A: array2<real>) returns (fail: int)
      requires |x| >= 2 && g.Length >= 2 && A.Length0 >= 1 && A.Length1 >= 2
      modifies g, A
      ensures fail == 0
      ensures g[..2] == Gradient(x[0], x[1]) && g[2..] == old(g[2..])
      ensures A[0, 0] == Jacobian(x[0], x[1])[0] && A[0, 1] == Jacobian(x[0], x[1])[1]
      ensures forall i, j :: 0 <= i < A.Length0 && 0 <= j < A.Length1 && (i, j) != (0, 0) && (i, j) != (0, 1) ==>
        A[i, j] == old(A[i, j])
    {
      fail := 0;
      g[0] := 200.0 * (x[1] - Sq(x[0])) * (-2.0 * x[0]) - 2.0 * (1.0 - x[0]);
      g[1] := 200.0 * (x[1] - Sq(x[0]));
      A[0, 0] := 1.0;
      A[0, 1] := 1.0;
    }

    /** Row j of the contour data: r[j, i] for every i, each point appended to the history in turn. */
    method ContourRow(xs: seq<real>, j: nat, r: array2<real>)
      requires j < |xs| && r.Length0 == |xs| && r.Length1 == |xs|
      modifies this, r
      ensures xHist == old(xHist) + GridRow(xs, j)
      ensures forall i :: 0 <= i < |xs| ==> r[j, i] == Objective(xs[i], xs[j])
      ensures forall jj, i :: 0 <= jj < |xs| && jj != j && 0 <= i < |xs| ==> r[jj, i] == old(r[jj, i])
    {
      for i := 0 to |xs|
        invariant xHist == old(xHist) + GridRow(xs, j)[..i]
        invariant forall ii :: 0 <= ii < i ==> r[j, ii] == Objective(xs[ii], xs[j])
        invariant forall jj, ii :: 0 <= jj < |xs| && jj != j && 0 <= ii < |xs| ==> r[jj, ii] == old(r[jj, ii])
      {
        var fail, fobj, con := EvalObjCon([xs[i], xs[j]]);
        r[j, i] := fobj;
        assert GridRow(xs, j)[..i + 1] == GridRow(xs, j)[..i] + [[xs[i], xs[j]]];
      }
      assert GridRow(xs, j)[..|xs|] == GridRow(xs, j);
    }

    /**
     * The contour data of plot_it_all: r[j, i] is the objective at
     * (xs[i], xs[j]), and every grid point is appended to the history,
     * row after row.
     */
    method ContourGrid(xs: seq<real>) returns (r: array2<real>)
      modifies this
      ensures fresh(r) && r.Length0 == |xs| && r.Length1 == |xs|
      ensures forall j, i :: 0 <= j < |xs| && 0 <= i < |xs| ==> r[j, i] == Objective(xs[i], xs[j])
      ensures xHist == old(xHist) + Grid(xs, |xs|)
    {
      var n := |xs|;
      r := new real[n, n];
      for j := 0 to n
        invariant xHist == old(xHist) + Grid(xs, j)
        invariant forall jj, i :: 0 <= jj < j && 0 <= i < n ==> r[jj, i] == Objective(xs[i], xs[jj])
      {
        ghost var before := xHist;
        ContourRow(xs, j, r);
        assert Grid(xs, j + 1) == Grid(xs, j) + GridRow(xs, j);
        AppendAssoc(old(xHist), Grid(xs, j), GridRow(xs, j));
      }
    }

    /**
     * One trial of plot_it_all: the history is emptied, then the optimizer
     * evaluates its points; the path read back is exactly those points.
     */
    method Trial(points: seq<seq<real>>) returns (path: seq<seq<real>>)
      requires forall k :: 0 <= k < |points| ==> |points[k]| >= 2
      modifies this
      ensures path == points && xHist == points
    {
      xHist := [];
      for k := 0 to |points|
        invariant xHist == points[..k]
      {
        var fail, fobj, con := EvalObjCon(points[k]);
        assert points[..k + 1] == points[..k] + [points[k]];
      }
      assert points[..|points|] == points;
      path := xHist;
    }

    /**
     * plot_it_all: the 150 by 150 contour grid over xs, the values from -4
     * to 4, then one trial per plot style; trials[k] stands for the points
     * the optimizer evaluates in trial k. Each trial's path holds that
     * trial's points and nothing else: neither the grid points nor the
     * points of earlier trials.
     */
    method PlotItAll(trials: seq<seq<seq<real>>>) returns (xs: seq<real>, r: array2<real>, paths: seq<seq<seq<real>>>)
      requires |trials| == 10
      requires forall k, m :: 0 <= k < |trials| && 0 <= m < |trials[k]| ==> |trials[k][m]| >= 2
      modifies this
      ensures xs == Linspace(-4.0, 4.0, 150) && fresh(r) && r.Length0 == 150 && r.Length1 == 150
      ensures forall j, i :: 0 <= j < 150 && 0 <= i < 150 ==> r[j, i] == Objective(xs[i], xs[j])
      ensures paths == trials
    {
      xs := Linspace(-4.0, 4.0, 150);
      r := ContourGrid(xs);
      paths := [];
      for k := 0 to |trials|
        invariant paths == trials[..k]
        modifies this
      {
        var path := Trial(trials[k]);
        paths := paths + [path];
        assert trials[..k + 1] == trials[..k] + [trials[k]];
      }
      assert trials[..|trials|] == trials;
    }
  }
}
