/**
  Longest-processing-time-first list scheduling over a sequence of weights,
  and Graham's 4/3 bound for it. An assignment gives each item its bin.
*/
module Graham {
  type Assignment = seq<nat>

  ghost predicate IsAssignment(ws: seq<real>, a: Assignment, n: nat) {
    |a| == |ws| && forall i | 0 <= i < |a| :: a[i] < n
  }

  function Total(ws: seq<real>): real {
    if ws == [] then 0.0 else Total(ws[..|ws| - 1]) + ws[|ws| - 1]
  }

  /** The items of bin `j`, in assignment order. */
  function Bin<T>(xs: seq<T>, a: Assignment, j: nat): seq<T>
    requires |a| == |xs|
  {
    if xs == [] then []
    else
      var m := |xs| - 1;
      Bin(xs[..m], a[..m], j) + if a[m] == j then [xs[m]] else []
  }

  function Load(ws: seq<real>, a: Assignment, j: nat): real
    requires |a| == |ws|
  {
    Total(Bin(ws, a, j))
  }

  function Loads(ws: seq<real>, a: Assignment, n: nat): (r: seq<real>)
    requires |a| == |ws|
    ensures |r| == n
  {
    seq(n, j requires 0 <= j => Load(ws, a, j))
  }

  /** The first position of a minimum among the first `i` totals. */
  function ArgMin(totals: seq<real>, i: nat): (k: nat)
    requires 0 < i <= |totals|
    ensures k < i
    ensures forall j | 0 <= j < i :: totals[k] <= totals[j]
    ensures forall j | 0 <= j < k :: totals[k] < totals[j]
  {
    if i == 1 then 0
    else
      var k := ArgMin(totals, i - 1);
      if totals[i - 1] < totals[k] then i - 1 else k
  }

  /** Each item in turn goes to the least loaded bin, the lowest-numbered one on ties. */
  function Greedy(ws: seq<real>, n: nat): (a: Assignment)
    requires n > 0
    ensures IsAssignment(ws, a, n)
  {
    if ws == [] then []
    else
      var m := |ws| - 1;
      var a := Greedy(ws[..m], n);
      a + [ArgMin(Loads(ws[..m], a, n), n)]
  }

  /** The bin `Greedy` picks next carries the least load. */
  lemma {:induction false} GreedyPicksLeast(ws: seq<real>, w: real, n: nat, k: nat)
    requires n > 0 && k < n
    ensures Greedy(ws + [w], n)[..|ws|] == Greedy(ws, n)
    ensures Load(ws, Greedy(ws, n), Greedy(ws + [w], n)[|ws|]) <= Load(ws, Greedy(ws, n), k)
  {
    assert (ws + [w])[..|ws|] == ws;
    var loads := Loads(ws, Greedy(ws, n), n);
    assert loads[ArgMin(loads, n)] <= loads[k];
  }

  ghost predicate NonNegative(ws: seq<real>) {
    forall i | 0 <= i < |ws| :: 0.0 <= ws[i]
  }

  ghost predicate Descending(ws: seq<real>) {
    forall i, j | 0 <= i < j < |ws| :: ws[i] >= ws[j]
  }

  // ----- loads, one item at a time

  lemma LoadStep(ws: seq<real>, a: Assignment, j: nat)
    requires |a| == |ws| > 0
    ensures var m := |ws| - 1;
            Load(ws, a, j) == Load(ws[..m], a[..m], j) + if a[m] == j then ws[m] else 0.0
  {
    var m := |ws| - 1;
    var b := Bin(ws[..m], a[..m], j);
    if a[m] == j {
      assert (b + [ws[m]])[..|b|] == b;
    } else {
      assert b + [] == b;
    }
  }

  lemma EmptyLoad(j: nat)
    ensures Load([], [], j) == 0.0
  {
  }

  lemma {:induction false} LoadNonNegative(ws: seq<real>, a: Assignment, j: nat)
    requires |a| == |ws| && NonNegative(ws)
    ensures 0.0 <= Load(ws, a, j)
  {
    if ws != [] {
      LoadNonNegative(ws[..|ws| - 1], a[..|ws| - 1], j);
      LoadStep(ws, a, j);
    }
  }

  /** Every one of the `n` bins is loaded to at most `t`. */
  ghost predicate Within(ws: seq<real>, b: Assignment, n: nat, t: real)
    requires |b| == |ws|
  {
    forall k | 0 <= k < n :: Load(ws, b, k) <= t
  }

  /** Dropping the last item of a feasible assignment leaves it feasible. */
  lemma FeasiblePrefix(ws: seq<real>, b: Assignment, n: nat, t: real)
    requires IsAssignment(ws, b, n) && ws != [] && NonNegative(ws) && Within(ws, b, n, t)
    ensures Within(ws[..|ws| - 1], b[..|ws| - 1], n, t)
  {
    hide Load, Bin;
    var pre, c := ws[..|ws| - 1], b[..|ws| - 1];
    forall k | 0 <= k < n ensures Load(pre, c, k) <= t {
      LoadStep(ws, b, k);
    }
  }

  function SumLoads(ws: seq<real>, a: Assignment, n: nat): real
    requires |a| == |ws|
  {
    if n == 0 then 0.0 else SumLoads(ws, a, n - 1) + Load(ws, a, n - 1)
  }

  lemma {:induction false} SumLoadsStep(ws: seq<real>, a: Assignment, n: nat)
    requires |a| == |ws| > 0
    ensures var m := |ws| - 1;
            SumLoads(ws, a, n) == SumLoads(ws[..m], a[..m], n) + if a[m] < n then ws[m] else 0.0
  {
    hide Load, Bin;
    if n > 0 {
      LoadStep(ws, a, n - 1);
      SumLoadsStep(ws, a, n - 1);
    }
  }

  lemma {:induction false} SumLoadsEmpty(n: nat)
    ensures SumLoads([], [], n) == 0.0
  {
    if n > 0 { SumLoadsEmpty(n - 1); }
  }

  /** Conservation: however the items are spread, the bins together hold all of them. */
  lemma {:induction false} SumLoadsIsTotal(ws: seq<real>, a: Assignment, n: nat)
    requires IsAssignment(ws, a, n)
    ensures SumLoads(ws, a, n) == Total(ws)
  {
    hide Load, Bin;
    if ws == [] {
      SumLoadsEmpty(n);
    } else {
      SumLoadsIsTotal(ws[..|ws| - 1], a[..|ws| - 1], n);
      SumLoadsStep(ws, a, n);
    }
  }

  /** `n` copies of `x` added up. */
  function Times(n: nat, x: real): real {
    if n == 0 then 0.0 else Times(n - 1, x) + x
  }

  lemma {:induction false} TimesIsProduct(n: nat, x: real)
    ensures Times(n, x) == n as real * x
  {
    if n > 0 {
      TimesIsProduct(n - 1, x);
      assert n as real * x == (n - 1) as real * x + x;
    }
  }

  lemma {:induction false} SumLoadsAtMost(ws: seq<real>, a: Assignment, n: nat, t: real)
    requires |a| == |ws| && Within(ws, a, n, t)
    ensures SumLoads(ws, a, n) <= Times(n, t)
  {
    if n > 0 { SumLoadsAtMost(ws, a, n - 1, t); }
  }

  lemma {:induction false} SumLoadsAtLeast(ws: seq<real>, a: Assignment, n: nat, t: real)
    requires |a| == |ws| && forall k | 0 <= k < n :: t <= Load(ws, a, k)
    ensures Times(n, t) <= SumLoads(ws, a, n)
  {
    if n > 0 { SumLoadsAtLeast(ws, a, n - 1, t); }
  }

  // ----- the heavy case: every item weighs at least `w`, and 3w exceeds the bound t

  /** An item that cannot share a bin with `w` takes a whole unit, any other item half of one. */
  function Charge(x: real, w: real, t: real): real {
    if x + w > t then 1.0 else 0.5
  }

  function Charges(ws: seq<real>, w: real, t: real): (cs: seq<real>)
    ensures |cs| == |ws| && forall i | 0 <= i < |ws| :: cs[i] == Charge(ws[i], w, t)
  {
    seq(|ws|, i requires 0 <= i < |ws| => Charge(ws[i], w, t))
  }

  /** What a bin's charge `c` says about its load `l`. */
  ghost predicate ChargeExplainsLoad(l: real, c: real, w: real, t: real) {
    && (c == 0.0 || c == 0.5 || c >= 1.0)
    && (c == 0.0 ==> l == 0.0)
    && (c == 0.5 ==> w <= l <= t - w)
    && (c == 1.0 ==> l > t - w)
    && (c > 1.0 ==> l > t)
  }

  lemma {:induction false} BinCharge(ws: seq<real>, a: Assignment, j: nat, w: real, t: real)
    requires |a| == |ws| && 0.0 < w <= t < 3.0 * w
    requires forall i | 0 <= i < |ws| :: w <= ws[i]
    ensures ChargeExplainsLoad(Load(ws, a, j), Load(Charges(ws, w, t), a, j), w, t)
  {
    if ws != [] {
      var m := |ws| - 1;
      BinCharge(ws[..m], a[..m], j, w, t);
      assert Charges(ws, w, t)[..m] == Charges(ws[..m], w, t);
      LoadStep(ws, a, j);
      LoadStep(Charges(ws, w, t), a, j);
    }
  }

  lemma {:induction false} FullBinsAreCharged(ws: seq<real>, a: Assignment, n: nat, w: real, t: real)
    requires IsAssignment(ws, a, n) && 0.0 < w <= t < 3.0 * w
    requires forall i | 0 <= i < |ws| :: w <= ws[i]
    requires forall k | 0 <= k < n :: t - w < Load(ws, a, k)
    ensures Times(n, 1.0) <= Total(Charges(ws, w, t))
  {
    var cs := Charges(ws, w, t);
    forall k | 0 <= k < n ensures 1.0 <= Load(cs, a, k) {
      BinCharge(ws, a, k, w, t);
    }
    SumLoadsAtLeast(cs, a, n, 1.0);
    SumLoadsIsTotal(cs, a, n);
  }

  lemma {:induction false} FeasibleBinsAreNotOvercharged(ws: seq<real>, b: Assignment, n: nat, w: real, t: real)
    requires IsAssignment(ws, b, n) && Within(ws, b, n, t) && 0.0 < w <= t < 3.0 * w
    requires forall i | 0 <= i < |ws| :: w <= ws[i]
    ensures Total(Charges(ws, w, t)) <= Times(n, 1.0)
  {
    var cs := Charges(ws, w, t);
    forall k | 0 <= k < n ensures Load(cs, b, k) <= 1.0 {
      BinCharge(ws, b, k, w, t);
    }
    SumLoadsAtMost(cs, b, n, 1.0);
    SumLoadsIsTotal(cs, b, n);
  }

  /**
    The heavy case. If the least loaded bin could not take one more item of weight `w`, every
    bin would be charged a unit already; but a feasible assignment of those items and the new
    one is charged at most one unit a bin.
  */
  lemma HeavyItemFits(ws: seq<real>, a: Assignment, n: nat, w: real, b: Assignment, t: real, p: nat)
    requires n > 0 && IsAssignment(ws, a, n) && p < n
    requires forall i | 0 <= i < |ws| :: w <= ws[i]
    requires forall k | 0 <= k < n :: Load(ws, a, p) <= Load(ws, a, k)
    requires IsAssignment(ws + [w], b, n) && Within(ws + [w], b, n, t) && 0.0 <= t < 3.0 * w
    ensures Load(ws, a, p) + w <= t
  {
    hide Load, Bin;
    var all := ws + [w];
    assert all[..|ws|] == ws;
    assert w <= t by {
      LoadStep(all, b, b[|ws|]);
      LoadNonNegative(ws, b[..|ws|], b[|ws|]);
    }
    if Load(ws, a, p) + w > t {
      FullBinsAreCharged(ws, a, n, w, t);
      FeasibleBinsAreNotOvercharged(all, b, n, w, t);
      assert Charges(all, w, t) == Charges(ws, w, t) + [Charge(w, w, t)];
      TotalStep(Charges(ws, w, t), Charge(w, w, t));
      assert false;
    }
  }

  lemma {:induction false} TotalStep(ws: seq<real>, w: real)
    ensures Total(ws + [w]) == Total(ws) + w
  {
    assert (ws + [w])[..|ws|] == ws;
  }

  // ----- the light case: averaging

  lemma {:induction false} LightItem(ws: seq<real>, a: Assignment, n: nat, w: real, b: Assignment, t: real, p: nat)
    requires n > 0 && IsAssignment(ws, a, n) && p < n
    requires forall k | 0 <= k < n :: Load(ws, a, p) <= Load(ws, a, k)
    requires IsAssignment(ws + [w], b, n) && Within(ws + [w], b, n, t) && 3.0 * w <= t
    ensures Times(n, Load(ws, a, p)) + w <= Times(n, t)
  {
    hide Load, Bin;
    SumLoadsAtLeast(ws, a, n, Load(ws, a, p));
    SumLoadsIsTotal(ws, a, n);
    SumLoadsAtMost(ws + [w], b, n, t);
    SumLoadsIsTotal(ws + [w], b, n);
    TotalStep(ws, w);
  }

  lemma ScaleMonotoneReal(k: real, x: real, y: real)
    requires 0.0 <= k && x <= y
    ensures k * x <= k * y
  {
  }

  /** The load is at most 4/3 - 1/(3n) times `t`. */
  predicate WithinFourThirds(n: nat, load: real, t: real) {
    3.0 * n as real * load <= (4.0 * n as real - 1.0) * t
  }

  lemma {:induction false} AveragingArithmetic(n: nat, l: real, w: real, t: real)
    requires n >= 1 && Times(n, l) + w <= Times(n, t) && 3.0 * w <= t
    ensures WithinFourThirds(n, l + w, t)
  {
    TimesIsProduct(n, l);
    TimesIsProduct(n, t);
    AveragingReal(n as real, l, w, t);
  }

  lemma AveragingReal(k: real, l: real, w: real, t: real)
    requires k >= 1.0 && k * l + w <= k * t && 3.0 * w <= t
    ensures 3.0 * k * (l + w) <= (4.0 * k - 1.0) * t
  {
    ScaleMonotoneReal(k - 1.0, 3.0 * w, t);
    assert (k - 1.0) * (3.0 * w) == 3.0 * (k * w) - 3.0 * w;
    assert (k - 1.0) * t == k * t - t;
    assert (4.0 * k - 1.0) * t == 4.0 * (k * t) - t;
    assert 3.0 * k * (l + w) == 3.0 * (k * l) + 3.0 * (k * w);
  }

  lemma OptimalArithmetic(n: nat, l: real, t: real)
    requires n >= 1 && l <= t && 0.0 <= t
    ensures WithinFourThirds(n, l, t)
  {
    var k := n as real;
    assert 3.0 * k * l <= 3.0 * k * t;
    assert (4.0 * k - 1.0) * t == 3.0 * k * t + (k - 1.0) * t;
    assert 0.0 <= (k - 1.0) * t;
  }

  /** Either the load is within `t`, or averaging bounds it without its last item, a light one. */
  ghost predicate FitsOrAverages(n: nat, load: real, t: real) {
    load <= t || exists w: real :: LightLast(n, load, w, t)
  }

  ghost predicate LightLast(n: nat, load: real, w: real, t: real) {
    3.0 * w <= t && Times(n, load - w) + w <= Times(n, t)
  }

  lemma {:induction false} GreedyFitsOrAverages(ws: seq<real>, n: nat, b: Assignment, t: real, j: nat)
    requires n > 0 && j < n && NonNegative(ws) && Descending(ws)
    requires IsAssignment(ws, b, n) && Within(ws, b, n, t) && 0.0 <= t
    ensures FitsOrAverages(n, Load(ws, Greedy(ws, n), j), t)
  {
    hide Load, Bin, Greedy, Loads;
    if ws != [] {
      var m := |ws| - 1;
      var g, pre, w := Greedy(ws, n), ws[..m], ws[m];
      assert ws == pre + [w];
      LoadStep(ws, g, j);
      forall k | 0 <= k < n ensures g[..m] == Greedy(pre, n) && Load(pre, g[..m], g[m]) <= Load(pre, g[..m], k) {
        GreedyPicksLeast(pre, w, n, k);
      }
      if g[m] != j {
        FeasiblePrefix(ws, b, n, t);
        GreedyFitsOrAverages(pre, n, b[..m], t, j);
      } else if 3.0 * w <= t {
        LightItem(pre, g[..m], n, w, b, t, j);
        assert LightLast(n, Load(ws, g, j), w, t);
      } else {
        HeavyItemFits(pre, g[..m], n, w, b, t, j);
      }
    }
  }

  /** Graham's bound: no assignment with all loads within `t` beats LPT by more than 4/3 - 1/(3n). */
  lemma {:induction false} GreedyWithinFourThirds(ws: seq<real>, n: nat, b: Assignment, t: real, j: nat)
    requires n > 0 && j < n && NonNegative(ws) && Descending(ws)
    requires IsAssignment(ws, b, n) && Within(ws, b, n, t)
    ensures WithinFourThirds(n, Load(ws, Greedy(ws, n), j), t)
  {
    hide Load, Bin, Greedy, Loads;
    var load := Load(ws, Greedy(ws, n), j);
    LoadNonNegative(ws, b, 0);
    GreedyFitsOrAverages(ws, n, b, t, j);
    if load <= t {
      OptimalArithmetic(n, load, t);
    } else {
      var w :| LightLast(n, load, w, t);
      AveragingArithmetic(n, load - w, w, t);
    }
  }

  lemma {:induction false} BinStep<T>(xs: seq<T>, a: Assignment, j: nat)
    requires |a| == |xs| && Bin(xs, a, j) != []
    ensures xs != []
    ensures var m := |xs| - 1;
            Bin(xs, a, j) == if a[m] == j then Bin(xs[..m], a[..m], j) + [xs[m]] else Bin(xs[..m], a[..m], j)
  {
  }

  /** A bin without its last item is no heavier than any other bin. */
  lemma {:induction false} LastItemImbalance(ws: seq<real>, n: nat, j: nat, k: nat)
    requires n > 0 && j < n && k < n && NonNegative(ws)
    requires Bin(ws, Greedy(ws, n), j) != []
    ensures var bin := Bin(ws, Greedy(ws, n), j);
            Total(bin) - bin[|bin| - 1] <= Load(ws, Greedy(ws, n), k)
  {
    hide Greedy, Bin;
    BinStep(ws, Greedy(ws, n), j);
    var pre, w, g := ws[..|ws| - 1], ws[|ws| - 1], Greedy(ws, n);
    assert ws == pre + [w];
    GreedyPicksLeast(pre, w, n, k);
    LoadStep(ws, g, k);
    if g[|pre|] != j {
      LastItemImbalance(pre, n, j, k);
    } else {
      TotalStep(Bin(pre, g[..|pre|], j), w);
    }
  }

  // ----- equal weights

  /** The load of bin `j` after `q` full rounds of items of weight `w`, and `r` more. */
  function DealtLoad(q: nat, r: nat, w: real, j: nat): real {
    Times(q, w) + if j < r then w else 0.0
  }

  /** Full rounds dealt and bins served in the current one, after `m` items. */
  function Dealt(m: nat, n: nat): (c: (nat, nat))
    requires n > 0
    ensures c.1 < n
  {
    if m == 0 then (0, 0)
    else
      var c := Dealt(m - 1, n);
      if c.1 + 1 < n then (c.0, c.1 + 1) else (c.0 + 1, 0)
  }

  lemma {:induction false} DealtLoads(ws: seq<real>, w: real, n: nat, j: nat)
    requires n > 0 && j < n && 0.0 < w && forall i | 0 <= i < |ws| :: ws[i] == w
    ensures var c := Dealt(|ws|, n); Load(ws, Greedy(ws, n), j) == DealtLoad(c.0, c.1, w, j)
    decreases |ws|, 1
  {
    hide Load, Bin, Greedy, Loads;
    if ws == [] {
      EmptyLoad(j);
      assert Greedy(ws, n) == [];
    } else {
      var m := |ws| - 1;
      LastDealt(ws, w, n);
      DealtLoads(ws[..m], w, n, j);
      LoadStep(ws, Greedy(ws, n), j);
    }
  }

  lemma {:induction false} LastDealt(ws: seq<real>, w: real, n: nat)
    requires n > 0 && 0.0 < w && ws != [] && forall i | 0 <= i < |ws| :: ws[i] == w
    ensures Greedy(ws, n)[|ws| - 1] == Dealt(|ws| - 1, n).1
    ensures Greedy(ws, n)[..|ws| - 1] == Greedy(ws[..|ws| - 1], n)
    decreases |ws|, 0
  {
    hide Load, Bin;
    var pre := ws[..|ws| - 1];
    var totals, c := Loads(pre, Greedy(pre, n), n), Dealt(|pre|, n);
    forall j | 0 <= j < n ensures totals[j] == DealtLoad(c.0, c.1, w, j) {
      DealtLoads(pre, w, n, j);
    }
    DealtArgMin(totals, c.0, c.1, w, n);
  }

  lemma {:induction false} DealtArgMin(totals: seq<real>, q: nat, r: nat, w: real, n: nat)
    requires r < n && 0.0 < w
    requires |totals| == n && forall j | 0 <= j < n :: totals[j] == DealtLoad(q, r, w, j)
    ensures ArgMin(totals, n) == r
  {
    assert totals[r] == Times(q, w);
    assert totals[ArgMin(totals, n)] == DealtLoad(q, r, w, ArgMin(totals, n));
  }

  /** Equal positive weights are dealt out round-robin. */
  lemma {:induction false} EqualWeightsRoundRobin(ws: seq<real>, w: real, n: nat, k: nat)
    requires n > 0 && 0.0 < w && forall i | 0 <= i < |ws| :: ws[i] == w
    requires k < |ws|
    ensures Greedy(ws, n)[k] == k % n
  {
    LastDealt(ws, w, n);
    if k < |ws| - 1 {
      EqualWeightsRoundRobin(ws[..|ws| - 1], w, n, k);
    } else {
      DealtIsDivMod(k, n);
    }
  }

  lemma {:induction false} DealtIsDivMod(m: nat, n: nat)
    requires n > 0
    ensures Dealt(m, n) == (m / n, m % n)
  {
    if m > 0 {
      DealtIsDivMod(m - 1, n);
      NextCell(m - 1, n);
    } else {
      DivModUnique(0, n, 0, 0);
    }
  }

  lemma NextCell(m: nat, n: nat)
    requires n > 0
    ensures if m % n + 1 < n then (m + 1) / n == m / n && (m + 1) % n == m % n + 1
            else (m + 1) / n == m / n + 1 && (m + 1) % n == 0
  {
    var q, r := m / n, m % n;
    assert m + 1 == q * n + (r + 1);
    if r + 1 < n {
      DivModUnique(m + 1, n, q, r + 1);
    } else {
      assert m + 1 == (q + 1) * n;
      DivModUnique(m + 1, n, q + 1, 0);
    }
  }

  lemma DivModUnique(x: nat, n: nat, q: nat, r: nat)
    requires n > 0 && r < n && x == q * n + r
    ensures x / n == q && x % n == r
  {
    var d := x / n - q;
    assert d * n == r - x % n;
    if d >= 1 {
      ScaleMonotone(1, d, n);
      assert false;
    } else if d <= -1 {
      ScaleMonotone(d, -1, n);
      assert false;
    }
  }

  lemma ScaleMonotone(x: int, y: int, n: nat)
    requires x <= y
    ensures x * n <= y * n
  {
  }
}
