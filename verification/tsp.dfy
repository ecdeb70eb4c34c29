/** Lookup tables, weighting, tour cost and fitness of the travelling salesman
    problem (the functions of tsp.py).

    A lookup table is a square matrix of reals. Cities are numbered from 1,
    so city `c` selects row and column `c - 1`. */
module Tsp {

  type Table = seq<seq<real>>

  /** Every row is as long as the table is tall. */
  predicate IsSquare(t: Table) {
    forall i :: 0 <= i < |t| ==> |t[i]| == |t|
  }

  /** `t[i][j] == t[j][i]` everywhere. */
  predicate Symmetric(t: Table)
    requires IsSquare(t)
  {
    forall i, j :: 0 <= i < |t| && 0 <= j < |t| ==> t[i][j] == t[j][i]
  }

  predicate ZeroDiagonal(t: Table)
    requires IsSquare(t)
  {
    forall i :: 0 <= i < |t| ==> t[i][i] == 0.0
  }

  predicate NonNegative(t: Table)
    requires IsSquare(t)
  {
    forall i, j :: 0 <= i < |t| && 0 <= j < |t| ==> t[i][j] >= 0.0
  }

  /** Every entry of `sol` names a city of the table (1-based). */
  predicate Cities(t: Table, sol: seq<int>) {
    forall i :: 0 <= i < |sol| ==> 1 <= sol[i] <= |t|
  }

  /** A tour the cost function accepts: non-empty, cities in range. */
  predicate ValidTour(t: Table, sol: seq<int>) {
    IsSquare(t) && |sol| >= 1 && Cities(t, sol)
  }

  /** Cost of travelling directly from city `a` to city `b`. */
  function Edge(t: Table, a: int, b: int): real
    requires IsSquare(t) && 1 <= a <= |t| && 1 <= b <= |t|
  {
    t[a - 1][b - 1]
  }

  /** Cost of the open path through `sol`, first city to last. */
  function PathCost(t: Table, sol: seq<int>): real
    requires IsSquare(t) && Cities(t, sol)
    decreases |sol|
  {
    if |sol| <= 1 then 0.0 else Edge(t, sol[0], sol[1]) + PathCost(t, sol[1..])
  }

  /** Cost of the closed tour: the open path plus the edge from the last
      city back to the first. */
  function Total(t: Table, sol: seq<int>): real
    requires ValidTour(t, sol)
  {
    PathCost(t, sol) + Edge(t, sol[|sol| - 1], sol[0])
  }

  /** The accumulation loop of `total`: consecutive pairs first, then the
      wrap-around pair. */
  method TotalOf(t: Table, sol: seq<int>) returns (total: real)
    requires ValidTour(t, sol)
    ensures total == PathCost(t, sol) + Edge(t, sol[|sol| - 1], sol[0])
  {
    var n := |sol| - 1;
    total := 0.0;
    var i := 0;
    while i < n
      invariant 0 <= i <= n
      invariant total == PathCost(t, sol[..i + 1])
    {
      PathCostSnoc(t, sol[..i + 1], sol[i + 1]);
      assert sol[..i + 1] + [sol[i + 1]] == sol[..i + 2];
      total := total + Edge(t, sol[i], sol[i + 1]);
      i := i + 1;
    }
    assert sol[..n + 1] == sol;
    total := total + Edge(t, sol[n], sol[0]);
  }

  /** Appending a city adds exactly one edge to the open path. */
  lemma {:induction false} PathCostSnoc(t: Table, sol: seq<int>, c: int)
    requires IsSquare(t) && Cities(t, sol) && |sol| >= 1 && 1 <= c <= |t|
    ensures Cities(t, sol + [c])
    ensures PathCost(t, sol + [c]) == PathCost(t, sol) + Edge(t, sol[|sol| - 1], c)
    decreases |sol|
  {
    var s := sol + [c];
    assert Cities(t, s) by {
      forall i | 0 <= i < |s| ensures 1 <= s[i] <= |t| {
        if i < |sol| { assert s[i] == sol[i]; }
      }
    }
    if |sol| > 1 {
      assert s[1..] == sol[1..] + [c];
      PathCostSnoc(t, sol[1..], c);
    }
  }

  /** The cost of every tour is non-negative over a non-negative table. */
  lemma {:induction false} PathCostNonNegative(t: Table, sol: seq<int>)
    requires IsSquare(t) && Cities(t, sol) && NonNegative(t)
    ensures PathCost(t, sol) >= 0.0
    decreases |sol|
  {
    if |sol| > 1 {
      PathCostNonNegative(t, sol[1..]);
    }
  }

  lemma TotalNonNegative(t: Table, sol: seq<int>)
    requires ValidTour(t, sol) && NonNegative(t)
    ensures Total(t, sol) >= 0.0
  {
    PathCostNonNegative(t, sol);
  }

  /** `sol` started at position `k` instead of position 0. */
  function Rotate(sol: seq<int>, k: nat): (r: seq<int>)
    requires k <= |sol|
    ensures |r| == |sol|
    ensures forall i :: 0 <= i < |sol| ==> r[i] == sol[(i + k) % |sol|]
  {
    var r := sol[k..] + sol[..k];
    assert forall i :: 0 <= i < |sol| ==> r[i] == sol[(i + k) % |sol|] by {
      forall i | 0 <= i < |sol| ensures r[i] == sol[(i + k) % |sol|] {
        if i + k < |sol| {
          assert (i + k) % |sol| == i + k;
        } else {
          assert (i + k) % |sol| == i + k - |sol|;
        }
      }
    }
    r
  }

  /** Moving the first city to the end leaves the tour cost unchanged. */
  lemma RotateOnce(t: Table, sol: seq<int>)
    requires ValidTour(t, sol)
    ensures ValidTour(t, sol[1..] + [sol[0]])
    ensures Total(t, sol[1..] + [sol[0]]) == Total(t, sol)
  {
    var r := sol[1..] + [sol[0]];
    assert Cities(t, r) by {
      forall i | 0 <= i < |r| ensures 1 <= r[i] <= |t| {
        if i < |sol| - 1 { assert r[i] == sol[i + 1]; }
      }
    }
    if |sol| > 1 {
      PathCostSnoc(t, sol[1..], sol[0]);
      assert r[|r| - 1] == sol[0] && r[0] == sol[1];
    } else {
      assert r == sol;
    }
  }

  /** `total` does not depend on which city the tour starts from. */
  lemma {:induction false} TotalRotationInvariant(t: Table, sol: seq<int>, k: nat)
    requires ValidTour(t, sol) && k <= |sol|
    ensures ValidTour(t, Rotate(sol, k))
    ensures Total(t, Rotate(sol, k)) == Total(t, sol)
    decreases k
  {
    if k == 0 {
      assert Rotate(sol, 0) == sol;
    } else {
      TotalRotationInvariant(t, sol, k - 1);
      var r := Rotate(sol, k - 1);
      RotateOnce(t, r);
      assert r[1..] + [r[0]] == Rotate(sol, k);
    }
  }

  function Reverse(sol: seq<int>): (r: seq<int>)
    ensures |r| == |sol|
    ensures forall i :: 0 <= i < |sol| ==> r[i] == sol[|sol| - 1 - i]
  {
    if |sol| == 0 then [] else Reverse(sol[1..]) + [sol[0]]
  }

  /** Over a symmetric table an open path costs the same in both directions. */
  lemma {:induction false} PathCostReverse(t: Table, sol: seq<int>)
    requires IsSquare(t) && Cities(t, sol) && Symmetric(t)
    ensures Cities(t, Reverse(sol))
    ensures PathCost(t, Reverse(sol)) == PathCost(t, sol)
    decreases |sol|
  {
    var r := Reverse(sol);
    assert Cities(t, r) by {
      forall i | 0 <= i < |r| ensures 1 <= r[i] <= |t| {
        assert r[i] == sol[|sol| - 1 - i];
      }
    }
    if |sol| > 1 {
      var rest := sol[1..];
      PathCostReverse(t, rest);
      assert r == Reverse(rest) + [sol[0]];
      PathCostSnoc(t, Reverse(rest), sol[0]);
      assert Reverse(rest)[|rest| - 1] == sol[1];
    } else if |sol| == 1 {
      assert r == sol;
    }
  }

  /** Over a symmetric table a tour and its reversal cost the same. */
  lemma TotalReverseInvariant(t: Table, sol: seq<int>)
    requires ValidTour(t, sol) && Symmetric(t)
    ensures ValidTour(t, Reverse(sol))
    ensures Total(t, Reverse(sol)) == Total(t, sol)
  {
    PathCostReverse(t, sol);
  }

  /** The two tables have the same shape, so they can be added elementwise. */
  predicate SameShape(d: Table, e: Table) {
    |d| == |e| && forall i :: 0 <= i < |d| ==> |d[i]| == |e[i]|
  }

  /** `create_weighted_table`: `dw * D + tw * T`, elementwise. */
  function WeightedTable(dw: real, tw: real, d: Table, e: Table): (w: Table)
    requires SameShape(d, e)
    ensures SameShape(w, d)
    ensures forall i, j :: 0 <= i < |d| && 0 <= j < |d[i]| ==> w[i][j] == dw * d[i][j] + tw * e[i][j]
  {
    seq(|d|, i requires 0 <= i < |d| => seq(|d[i]|, j requires 0 <= j < |d[i]| => dw * d[i][j] + tw * e[i][j]))
  }

  /** Weights (1, 0) select the first table unchanged. */
  lemma WeightedTableSelectsFirst(d: Table, e: Table)
    requires SameShape(d, e)
    ensures WeightedTable(1.0, 0.0, d, e) == d
  {
    var w := WeightedTable(1.0, 0.0, d, e);
    forall i | 0 <= i < |d| ensures w[i] == d[i] {
      assert |w[i]| == |d[i]|;
    }
  }

  /** Weighted sums of two pairs add up to the weighted sum of the pairs'
      sums. */
  lemma WeightedSum(dw: real, tw: real, a: real, b: real, x: real, y: real, p: real, q: real)
    requires p == a + x && q == b + y
    ensures (dw * a + tw * b) + (dw * x + tw * y) == dw * p + tw * q
  {
    assert dw * (a + x) == dw * a + dw * x;
    assert tw * (b + y) == tw * b + tw * y;
  }

  /** An edge of the weighted table is the weighted sum of the two edges. */
  lemma WeightedEdge(dw: real, tw: real, d: Table, e: Table, i: int, j: int)
    requires IsSquare(d) && SameShape(d, e) && 1 <= i <= |d| && 1 <= j <= |d|
    ensures IsSquare(e) && IsSquare(WeightedTable(dw, tw, d, e))
    ensures Edge(WeightedTable(dw, tw, d, e), i, j) == dw * Edge(d, i, j) + tw * Edge(e, i, j)
  {
  }

  /** Path cost is linear in the table. */
  lemma {:induction false} PathCostLinear(dw: real, tw: real, d: Table, e: Table, sol: seq<int>)
    requires IsSquare(d) && SameShape(d, e) && Cities(d, sol)
    ensures IsSquare(e) && IsSquare(WeightedTable(dw, tw, d, e))
    ensures PathCost(WeightedTable(dw, tw, d, e), sol) == dw * PathCost(d, sol) + tw * PathCost(e, sol)
    decreases |sol|
  {
    var w := WeightedTable(dw, tw, d, e);
    if |sol| > 1 {
      PathCostLinear(dw, tw, d, e, sol[1..]);
      var x, y := PathCost(d, sol[1..]), PathCost(e, sol[1..]);
      var a, b := Edge(d, sol[0], sol[1]), Edge(e, sol[0], sol[1]);
      WeightedEdge(dw, tw, d, e, sol[0], sol[1]);
      WeightedSum(dw, tw, a, b, x, y, a + x, b + y);
    }
  }

  /** The cost of a tour under a weighted table is the weighted sum of its
      costs under the two tables. */
  lemma TotalLinear(dw: real, tw: real, d: Table, e: Table, sol: seq<int>)
    requires ValidTour(d, sol) && SameShape(d, e)
    ensures ValidTour(e, sol) && ValidTour(WeightedTable(dw, tw, d, e), sol)
    ensures Total(WeightedTable(dw, tw, d, e), sol) == dw * Total(d, sol) + tw * Total(e, sol)
  {
    var w := WeightedTable(dw, tw, d, e);
    PathCostLinear(dw, tw, d, e, sol);
    var x, y := PathCost(d, sol), PathCost(e, sol);
    var a, b := Edge(d, sol[|sol| - 1], sol[0]), Edge(e, sol[|sol| - 1], sol[0]);
    var pw, ew := PathCost(w, sol), Edge(w, sol[|sol| - 1], sol[0]);
    WeightedEdge(dw, tw, d, e, sol[|sol| - 1], sol[0]);
    assert Total(w, sol) == pw + ew;
    WeightedSum(dw, tw, x, y, a, b, Total(d, sol), Total(e, sol));
  }

  /** A fitness score. Dividing a floating-point one by a zero total gives
      infinity rather than an exception. */
  datatype Fit = Finite(value: real) | Infinite {
    /** `this` is a strictly better (larger) fitness than `other`. */
    predicate Beats(other: Fit) {
      match (this, other)
      case (Infinite, Finite(_)) => true
      case (Finite(a), Finite(b)) => a > b
      case _ => false
    }
  }

  /** `fitness`: the reciprocal of the tour's total cost. */
  function Fitness(t: Table, sol: seq<int>): (f: Fit)
    requires ValidTour(t, sol)
    ensures f.Infinite? <==> Total(t, sol) == 0.0
    ensures f.Finite? ==> f.value * Total(t, sol) == 1.0
    ensures Total(t, sol) > 0.0 ==> f.Finite? && f.value > 0.0
  {
    var total := Total(t, sol);
    if total == 0.0 then Infinite else Finite(1.0 / total)
  }

  /** Among non-negative totals a strictly cheaper tour is strictly fitter. */
  lemma FitnessAntitone(t: Table, a: seq<int>, b: seq<int>)
    requires ValidTour(t, a) && ValidTour(t, b)
    requires 0.0 <= Total(t, a) < Total(t, b)
    ensures Fitness(t, a).Beats(Fitness(t, b))
  {
    var x, y := Total(t, a), Total(t, b);
    if x > 0.0 {
      assert 1.0 / x - 1.0 / y == (y - x) / (x * y);
      assert x * y > 0.0;
    }
  }

  function Min(a: nat, b: nat): nat { if a <= b then a else b }

  function Max(a: nat, b: nat): nat { if a <= b then b else a }

  /** Loop step `(a, b)` of the row-major double loop comes before step `(i, j)`. */
  predicate Before(a: nat, b: nat, i: nat, j: nat) {
    a < i || (a == i && b < j)
  }

  /** Value of entry `[a][b]` of a table filled by `table[i, j] = table[j, i] =
      f(i, j)` once every step before `(i, j)` has run: the later of steps
      `(hi, lo)` and `(lo, hi)` wins, and an entry untouched so far is zero. */
  function Filled(f: (nat, nat) -> real, a: nat, b: nat, i: nat, j: nat): real {
    var lo, hi := Min(a, b), Max(a, b);
    if Before(hi, lo, i, j) then f(hi, lo) else if Before(lo, hi, i, j) then f(lo, hi) else 0.0
  }

  /** `time(a, b)`: distance scaled by the terrain of both cities. */
  function TimeFn(dist: (nat, nat) -> real, terrain: seq<real>): (nat, nat) -> real {
    (a: nat, b: nat) => if a < |terrain| && b < |terrain| then dist(a, b) * terrain[a] * terrain[b] else 0.0
  }

  /** An `n`-by-`n` table. */
  predicate Shaped(t: Table, n: nat) {
    |t| == n && IsSquare(t)
  }

  /** Step `(i, j)` of the table-building loop applied to one table. */
  lemma FillStep(f: (nat, nat) -> real, t: Table, n: nat, i: nat, j: nat, v: real, t': Table)
    requires i < n && j < n && v == f(i, j) && Shaped(t, n)
    requires forall a, b :: 0 <= a < n && 0 <= b < n ==> t[a][b] == Filled(f, a, b, i, j)
    requires t' == t[i := t[i][j := v]][j := t[i := t[i][j := v]][j][i := v]]
    ensures Shaped(t', n)
    ensures forall a, b :: 0 <= a < n && 0 <= b < n ==> t'[a][b] == Filled(f, a, b, i, j + 1)
  {
    forall a, b | 0 <= a < n && 0 <= b < n ensures t'[a][b] == Filled(f, a, b, i, j + 1) {
      if (a == i && b == j) || (a == j && b == i) {
        assert t'[a][b] == v;
      } else {
        assert t'[a][b] == t[a][b];
      }
    }
  }

  /** Row `i` of the table-building loop: steps `(i, 0)` to `(i, n - 1)` on
      both tables. */
  method FillRow(dist: (nat, nat) -> real, terrain: seq<real>, i: nat, distance: Table, time: Table)
    returns (distance': Table, time': Table)
    requires i < |terrain| && Shaped(distance, |terrain|) && Shaped(time, |terrain|)
    requires forall a, b :: 0 <= a < |terrain| && 0 <= b < |terrain| ==> distance[a][b] == Filled(dist, a, b, i, 0)
    requires forall a, b :: 0 <= a < |terrain| && 0 <= b < |terrain| ==>
               time[a][b] == Filled(TimeFn(dist, terrain), a, b, i, 0)
    ensures Shaped(distance', |terrain|) && Shaped(time', |terrain|)
    ensures forall a, b :: 0 <= a < |terrain| && 0 <= b < |terrain| ==> distance'[a][b] == Filled(dist, a, b, i + 1, 0)
    ensures forall a, b :: 0 <= a < |terrain| && 0 <= b < |terrain| ==>
              time'[a][b] == Filled(TimeFn(dist, terrain), a, b, i + 1, 0)
  {
    var n := |terrain|;
    ghost var tf := TimeFn(dist, terrain);
    distance', time' := distance, time;
    var j := 0;
    while j < n
      invariant 0 <= j <= n
      invariant Shaped(distance', n) && Shaped(time', n)
      invariant forall a, b :: 0 <= a < n && 0 <= b < n ==> distance'[a][b] == Filled(dist, a, b, i, j)
      invariant forall a, b :: 0 <= a < n && 0 <= b < n ==> time'[a][b] == Filled(tf, a, b, i, j)
    {
      var d := dist(i, j);
      var tv := dist(i, j) * terrain[i] * terrain[j];
      var nextDistance := distance'[i := distance'[i][j := d]];
      nextDistance := nextDistance[j := nextDistance[j][i := d]];
      FillStep(dist, distance', n, i, j, d, nextDistance);
      var nextTime := time'[i := time'[i][j := tv]];
      nextTime := nextTime[j := nextTime[j][i := tv]];
      FillStep(tf, time', n, i, j, tv, nextTime);
      distance', time' := nextDistance, nextTime;
      j := j + 1;
    }
    forall a, b | 0 <= a < n && 0 <= b < n
      ensures Filled(dist, a, b, i, n) == Filled(dist, a, b, i + 1, 0)
      ensures Filled(tf, a, b, i, n) == Filled(tf, a, b, i + 1, 0)
    {
    }
  }

  /** Once every step has run, entry `[a][b]` holds `f(max, min)`: the
      later write of each pair of steps wins. */
  lemma AllFilled(f: (nat, nat) -> real, n: nat, a: nat, b: nat)
    requires a < n && b < n
    ensures Filled(f, a, b, n, 0) == f(Max(a, b), Min(a, b))
  {
  }

  /** Once every step has run on both tables, they hold `dist(max, min)`
      and its terrain-scaled copy. */
  lemma FilledEntries(dist: (nat, nat) -> real, terrain: seq<real>, distance: Table, time: Table)
    requires Shaped(distance, |terrain|) && Shaped(time, |terrain|)
    requires forall a, b :: 0 <= a < |terrain| && 0 <= b < |terrain| ==>
               distance[a][b] == Filled(dist, a, b, |terrain|, 0)
    requires forall a, b :: 0 <= a < |terrain| && 0 <= b < |terrain| ==>
               time[a][b] == Filled(TimeFn(dist, terrain), a, b, |terrain|, 0)
    ensures forall a, b :: 0 <= a < |terrain| && 0 <= b < |terrain| ==> distance[a][b] == dist(Max(a, b), Min(a, b))
    ensures forall a, b :: 0 <= a < |terrain| && 0 <= b < |terrain| ==>
              time[a][b] == distance[a][b] * terrain[a] * terrain[b]
  {
    var n := |terrain|;
    forall a, b | 0 <= a < n && 0 <= b < n
      ensures distance[a][b] == dist(Max(a, b), Min(a, b))
      ensures time[a][b] == distance[a][b] * terrain[a] * terrain[b]
    {
      AllFilled(dist, n, a, b);
      AllFilled(TimeFn(dist, terrain), n, a, b);
      var lo, hi := Min(a, b), Max(a, b);
      assert time[a][b] == dist(hi, lo) * terrain[hi] * terrain[lo];
    }
  }

  /** Tables holding `dist(max, min)` and its terrain-scaled copy are
      symmetric, agree with a symmetric `dist`, and have a zero diagonal
      when `dist` does. */
  lemma LookupShape(dist: (nat, nat) -> real, terrain: seq<real>, distance: Table, time: Table)
    requires Shaped(distance, |terrain|) && Shaped(time, |terrain|)
    requires forall a, b :: 0 <= a < |terrain| && 0 <= b < |terrain| ==> distance[a][b] == dist(Max(a, b), Min(a, b))
    requires forall a, b :: 0 <= a < |terrain| && 0 <= b < |terrain| ==>
               time[a][b] == distance[a][b] * terrain[a] * terrain[b]
    ensures Symmetric(distance) && Symmetric(time)
    ensures (forall a, b :: 0 <= a < |terrain| && 0 <= b < |terrain| ==> dist(a, b) == dist(b, a)) ==>
              forall a, b :: 0 <= a < |terrain| && 0 <= b < |terrain| ==> distance[a][b] == dist(a, b)
    ensures (forall a :: 0 <= a < |terrain| ==> dist(a, a) == 0.0) ==> ZeroDiagonal(distance) && ZeroDiagonal(time)
  {
    forall a, b | 0 <= a < |terrain| && 0 <= b < |terrain| ensures time[a][b] == time[b][a] {
      assert distance[a][b] == distance[b][a];
      assert terrain[a] * terrain[b] == terrain[b] * terrain[a];
      assert time[a][b] == distance[a][b] * (terrain[a] * terrain[b]);
      assert time[b][a] == distance[b][a] * (terrain[b] * terrain[a]);
    }
    if forall a :: 0 <= a < |terrain| ==> dist(a, a) == 0.0 {
      forall a | 0 <= a < |terrain| ensures distance[a][a] == 0.0 && time[a][a] == 0.0 {
        assert distance[a][a] == dist(a, a) == 0.0;
        assert time[a][a] == distance[a][a] * terrain[a] * terrain[a];
      }
    }
  }

  /** The table-building loop of `create_lookup_tables`. The coordinate
      distance is the parameter `dist`; `terrain[c]` is city `c`'s terrain
      factor (0-based here, as in the loop). */
  method CreateLookupTables(dist: (nat, nat) -> real, terrain: seq<real>) returns (distance: Table, time: Table)
    ensures Shaped(distance, |terrain|) && Shaped(time, |terrain|)
    ensures Symmetric(distance) && Symmetric(time)
    ensures forall a, b :: 0 <= a < |terrain| && 0 <= b < |terrain| ==> distance[a][b] == dist(Max(a, b), Min(a, b))
    ensures forall a, b :: 0 <= a < |terrain| && 0 <= b < |terrain| ==>
              time[a][b] == distance[a][b] * terrain[a] * terrain[b]
    ensures (forall a, b :: 0 <= a < |terrain| && 0 <= b < |terrain| ==> dist(a, b) == dist(b, a)) ==>
              forall a, b :: 0 <= a < |terrain| && 0 <= b < |terrain| ==> distance[a][b] == dist(a, b)
    ensures (forall a :: 0 <= a < |terrain| ==> dist(a, a) == 0.0) ==> ZeroDiagonal(distance) && ZeroDiagonal(time)
  {
    var n := |terrain|;
    distance := seq(n, _ => seq(n, _ => 0.0));
    time := seq(n, _ => seq(n, _ => 0.0));
    ghost var tf := TimeFn(dist, terrain);
    var i := 0;
    while i < n
      invariant 0 <= i <= n
      invariant Shaped(distance, n) && Shaped(time, n)
      invariant forall a, b :: 0 <= a < n && 0 <= b < n ==> distance[a][b] == Filled(dist, a, b, i, 0)
      invariant forall a, b :: 0 <= a < n && 0 <= b < n ==> time[a][b] == Filled(tf, a, b, i, 0)
    {
      distance, time := FillRow(dist, terrain, i, distance, time);
      i := i + 1;
    }
    FilledEntries(dist, terrain, distance, time);
    LookupShape(dist, terrain, distance, time);
  }
}
