/** Weight-aware partitioning of test files (scripts/sharding.ts). */
module Sharding {
  import opened Wrappers
  import opened OrderedMaps
  import opened Sorting
  import opened Graham
  import opened Rearrangements
  import StringOrder

  type WeightMap = OrderedMap<string, real>
  type Shards = seq<seq<string>>

  datatype PartitionResult = Shards(shards: Shards) | BadShardCount | BadFallbackWeight
  datatype Tuple = Tuple(path: string, weight: real)

  // ----- the fallback weight

  predicate LeqReal(x: real, y: real) { x <= y }

  function ComputeMedian(values: seq<real>): real {
    if values == [] then 0.0
    else
      SortMultiset(LeqReal, values);
      var sorted, mid := Sort(LeqReal, values), |values| / 2;
      if |values| % 2 == 0 then (sorted[mid - 1] + sorted[mid]) / 2.0 else sorted[mid]
  }

  /** The weight of an unlisted file; `None` when the override is refused. */
  function Fallback(weights: WeightMap, override: Option<real>): Option<real>
    requires weights.Valid()
  {
    match override
    case Some(w) => if w < 0.0 then None else Some(w)
    case None =>
      var median := ComputeMedian(weights.Values());
      Some(if median == 0.0 then 1.0 else median)
  }

  // ----- the specification of `partition`

  /** Weight descending, then path ascending. */
  predicate Before(a: Tuple, b: Tuple) {
    a.weight > b.weight || (a.weight == b.weight && StringOrder.Leq(a.path, b.path))
  }

  function Tuples(files: seq<string>, weights: WeightMap, fallback: real): (ts: seq<Tuple>)
    ensures |ts| == |files|
  {
    seq(|files|, i requires 0 <= i < |files| => Tuple(files[i], weights.GetOr(files[i], fallback)))
  }

  function Paths(ts: seq<Tuple>): (r: seq<string>)
    ensures |r| == |ts|
  {
    seq(|ts|, i requires 0 <= i < |ts| => ts[i].path)
  }

  function WeightsOf(ts: seq<Tuple>): (r: seq<real>)
    ensures |r| == |ts| && forall i | 0 <= i < |ts| :: r[i] == ts[i].weight
  {
    seq(|ts|, i requires 0 <= i < |ts| => ts[i].weight)
  }

  function Bins<T>(xs: seq<T>, a: Assignment, n: nat): (r: seq<seq<T>>)
    requires |a| == |xs|
    ensures |r| == n
  {
    seq(n, j requires 0 <= j => Bin(xs, a, j))
  }

  function Lpt(ts: seq<Tuple>, n: nat): Shards
    requires n > 0
  {
    Bins(Paths(ts), Greedy(WeightsOf(ts), n), n)
  }

  function LptLoads(ts: seq<Tuple>, n: nat): (r: seq<real>)
    requires n > 0
    ensures |r| == n
  {
    Loads(WeightsOf(ts), Greedy(WeightsOf(ts), n), n)
  }

  function PartitionSpec(files: seq<string>, weights: WeightMap, n: int, override: Option<real>): PartitionResult
    requires weights.Valid()
  {
    if n <= 0 then BadShardCount
    else if files == [] then PartitionResult.Shards(seq(n, _ => []))
    else match Fallback(weights, override)
      case None => BadFallbackWeight
      case Some(fallback) => PartitionResult.Shards(Lpt(Sort(Before, Tuples(files, weights, fallback)), n))
  }

  /** The inner loop: the lowest index holding a minimum. */
  method MinIndex(totals: array<real>) returns (minIdx: nat)
    requires totals.Length > 0
    ensures minIdx < totals.Length && minIdx == ArgMin(totals[..], totals.Length)
  {
    minIdx := 0;
    var i := 1;
    while i < totals.Length
      invariant 1 <= i <= totals.Length
      invariant minIdx == ArgMin(totals[..], i)
    {
      if totals[i] < totals[minIdx] {
        minIdx := i;
      }
      i := i + 1;
    }
  }

  datatype GreedyState = GreedyState(totals: seq<real>, shards: Shards)

  /** The greedy loop's state once the tuples are placed one by one. */
  function LptState(ts: seq<Tuple>, n: nat): (s: GreedyState)
    requires n > 0
    ensures |s.totals| == |s.shards| == n
  {
    if ts == [] then GreedyState(seq(n, _ => 0.0), seq(n, _ => []))
    else
      var s, t := LptState(ts[..|ts| - 1], n), ts[|ts| - 1];
      var k := ArgMin(s.totals, n);
      GreedyState(s.totals[k := s.totals[k] + t.weight], s.shards[k := s.shards[k] + [t.path]])
  }

  /** The greedy loop over mutable totals and shards. */
  method FillShards(tuples: seq<Tuple>, shards: array<seq<string>>)
    requires shards.Length > 0 && forall j | 0 <= j < shards.Length :: shards[j] == []
    modifies shards
    ensures shards[..] == LptState(tuples, shards.Length).shards
  {
    hide ArgMin;
    var totals := new real[shards.Length](_ => 0.0);
    var t := 0;
    while t < |tuples|
      invariant 0 <= t <= |tuples|
      invariant LptState(tuples[..t], shards.Length) == GreedyState(totals[..], shards[..])
    {
      assert tuples[..t + 1][..t] == tuples[..t];
      var minIdx := MinIndex(totals);
      shards[minIdx] := shards[minIdx] + [tuples[t].path];
      totals[minIdx] := totals[minIdx] + tuples[t].weight;
      t := t + 1;
    }
    assert tuples[..t] == tuples;
  }

  method Partition(files: seq<string>, weights: WeightMap, n: int, override: Option<real>)
    returns (r: PartitionResult)
    requires weights.Valid()
    ensures r == PartitionSpec(files, weights, n, override)
  {
    if n <= 0 {
      return BadShardCount;
    }
    var shards := new seq<string>[n](_ => []);
    if files == [] {
      assert shards[..] == seq(n, _ => []);
      return PartitionResult.Shards(shards[..]);
    }
    var fallback := Fallback(weights, override);
    if fallback.None? {
      return BadFallbackWeight;
    }
    var tuples := Sort(Before, Tuples(files, weights, fallback.value));
    FillShards(tuples, shards);
    LoopIsLpt(tuples, n);
    r := PartitionResult.Shards(shards[..]);
  }

  /** The loop's totals and shards are the bins of the greedy assignment and their loads. */
  lemma {:induction false} LoopIsLpt(ts: seq<Tuple>, n: nat)
    requires n > 0
    ensures LptState(ts, n) == GreedyState(LptLoads(ts, n), Lpt(ts, n))
  {
    hide Greedy, Bin, Load, Total, Lpt, LptLoads;
    NothingPlaced(n);
    if ts != [] {
      var pre, t := ts[..|ts| - 1], ts[|ts| - 1];
      LoopIsLpt(pre, n);
      assert ts == pre + [t];
      PlaceTuple(pre, t, n, ArgMin(LptLoads(pre, n), n));
    }
  }

  lemma {:induction false} NothingPlaced(n: nat)
    requires n > 0
    ensures LptState([], n) == GreedyState(LptLoads([], n), Lpt([], n))
  {
    assert LptLoads([], n) == seq(n, _ => 0.0) && Lpt([], n) == seq(n, _ => []);
  }

  /** One turn of the greedy loop: the least loaded bin gains the file and its weight. */
  lemma {:induction false} PlaceTuple(ts: seq<Tuple>, t: Tuple, n: nat, k: nat)
    requires n > 0 && k == ArgMin(LptLoads(ts, n), n)
    ensures Lpt(ts + [t], n) == Lpt(ts, n)[k := Lpt(ts, n)[k] + [t.path]]
    ensures LptLoads(ts + [t], n) == LptLoads(ts, n)[k := LptLoads(ts, n)[k] + t.weight]
  {
    hide Bin, Load, Total;
    var ws, paths, a := WeightsOf(ts), Paths(ts), Greedy(WeightsOf(ts), n);
    assert WeightsOf(ts + [t]) == ws + [t.weight];
    assert Paths(ts + [t]) == paths + [t.path];
    GreedySnoc(ws, t.weight, n);
    BinsSnoc(paths, a, t.path, k, n);
    LoadsSnoc(ws, a, t.weight, k, n);
  }

  lemma {:induction false} GreedySnoc(ws: seq<real>, w: real, n: nat)
    requires n > 0
    ensures Greedy(ws + [w], n) == Greedy(ws, n) + [ArgMin(Loads(ws, Greedy(ws, n), n), n)]
  {
    assert (ws + [w])[..|ws|] == ws;
  }

  lemma {:induction false} BinSnoc<T>(xs: seq<T>, a: Assignment, x: T, k: nat, j: nat)
    requires |a| == |xs|
    ensures Bin(xs + [x], a + [k], j) == Bin(xs, a, j) + if j == k then [x] else []
  {
    var m := |xs|;
    assert (xs + [x])[..m] == xs && (a + [k])[..m] == a;
    assert (xs + [x])[m] == x && (a + [k])[m] == k;
  }

  lemma LoadsSnoc(ws: seq<real>, a: Assignment, w: real, k: nat, n: nat)
    requires |a| == |ws| && k < n
    ensures Loads(ws + [w], a + [k], n) == Loads(ws, a, n)[k := Load(ws, a, k) + w]
  {
    var l, r := Loads(ws + [w], a + [k], n), Loads(ws, a, n)[k := Load(ws, a, k) + w];
    forall j | 0 <= j < n ensures l[j] == r[j] {
      BinSnoc(ws, a, w, k, j);
      TotalStep(Bin(ws, a, j), w);
      assert Bin(ws, a, j) + [] == Bin(ws, a, j);
    }
  }

  lemma {:induction false} BinsSnoc<T>(xs: seq<T>, a: Assignment, x: T, k: nat, n: nat)
    requires |a| == |xs| && k < n
    ensures Bins(xs + [x], a + [k], n) == Bins(xs, a, n)[k := Bin(xs, a, k) + [x]]
  {
    var l, r := Bins(xs + [x], a + [k], n), Bins(xs, a, n)[k := Bin(xs, a, k) + [x]];
    forall j | 0 <= j < n ensures l[j] == r[j] {
      BinSnoc(xs, a, x, k, j);
    }
  }

  // ----- every file lands in exactly one shard

  function Flatten<T>(xss: seq<seq<T>>): seq<T> {
    if xss == [] then [] else xss[0] + Flatten(xss[1..])
  }

  lemma {:induction false} FlattenUpdate<T>(xss: seq<seq<T>>, j: nat, ys: seq<T>)
    requires j < |xss|
    ensures multiset(Flatten(xss[j := ys])) + multiset(xss[j]) == multiset(Flatten(xss)) + multiset(ys)
  {
    var rest, updated := xss[1..], xss[j := ys];
    assert updated == [updated[0]] + updated[1..];
    assert multiset(Flatten(updated)) == multiset(updated[0]) + multiset(Flatten(updated[1..]));
    assert multiset(Flatten(xss)) == multiset(xss[0]) + multiset(Flatten(rest));
    if j == 0 {
      assert updated[1..] == rest;
    } else {
      FlattenUpdate(rest, j - 1, ys);
      assert updated[1..] == rest[j - 1 := ys] && updated[0] == xss[0] && rest[j - 1] == xss[j];
      calc {
        multiset(Flatten(updated)) + multiset(xss[j]);
        multiset(xss[0]) + (multiset(Flatten(rest[j - 1 := ys])) + multiset(rest[j - 1]));
        multiset(xss[0]) + (multiset(Flatten(rest)) + multiset(ys));
        multiset(Flatten(xss)) + multiset(ys);
      }
    }
  }

  lemma BinsRearrangementStep<T>(xs: seq<T>, a: Assignment, x: T, k: nat, n: nat)
    requires |a| == |xs| && k < n
    requires multiset(Flatten(Bins(xs, a, n))) == multiset(xs)
    ensures multiset(Flatten(Bins(xs + [x], a + [k], n))) == multiset(xs + [x])
  {
    var bins, bin := Bins(xs, a, n), Bin(xs, a, k);
    BinsSnoc(xs, a, x, k, n);
    FlattenUpdate(bins, k, bin + [x]);
    CancelMultiset(multiset(Flatten(bins[k := bin + [x]])), multiset(xs) + multiset{x}, multiset(bin));
  }

  lemma {:induction false} BinsAreRearrangement<T>(xs: seq<T>, a: Assignment, n: nat)
    requires |a| == |xs| && forall i | 0 <= i < |a| :: a[i] < n
    ensures multiset(Flatten(Bins(xs, a, n))) == multiset(xs)
  {
    if xs == [] {
      FlattenEmpty(Bins(xs, a, n));
    } else {
      var m := |xs| - 1;
      assert xs == xs[..m] + [xs[m]] && a == a[..m] + [a[m]];
      BinsAreRearrangement(xs[..m], a[..m], n);
      BinsRearrangementStep(xs[..m], a[..m], xs[m], a[m], n);
    }
  }

  lemma {:induction false} FlattenEmpty<T>(xss: seq<seq<T>>)
    requires forall j | 0 <= j < |xss| :: xss[j] == []
    ensures Flatten(xss) == []
  {
    if xss != [] {
      FlattenEmpty(xss[1..]);
    }
  }

  lemma PathsMultiset(xs: seq<Tuple>, ys: seq<Tuple>)
    requires multiset(xs) == multiset(ys)
    ensures multiset(Paths(xs)) == multiset(Paths(ys))
  {
    var path := (t: Tuple) => t.path;
    MapMultiset(path, xs, ys);
    assert Paths(xs) == Map(path, xs) && Paths(ys) == Map(path, ys);
  }

  /** The documented contract: every file appears in exactly one of the `n` shards. */
  lemma PartitionKeepsFiles(files: seq<string>, weights: WeightMap, n: int, override: Option<real>)
    requires weights.Valid()
    requires PartitionSpec(files, weights, n, override).Shards?
    ensures var shards := PartitionSpec(files, weights, n, override).shards;
            |shards| == n && multiset(Flatten(shards)) == multiset(files)
  {
    if files == [] {
      FlattenEmpty(PartitionSpec(files, weights, n, override).shards);
    } else {
      var tuples := Tuples(files, weights, Fallback(weights, override).value);
      var sorted := Sort(Before, tuples);
      SortMultiset(Before, tuples);
      PathsMultiset(sorted, tuples);
      assert Paths(tuples) == files;
      BinsAreRearrangement(Paths(sorted), Greedy(WeightsOf(sorted), n), n);
    }
  }

  // ----- the result does not depend on the order of the input

  lemma BeforeIsTotalOrder()
    ensures TotalOrder(Before)
  {
    StringOrder.LeqIsTotalOrder();
  }

  lemma TuplesMultiset(xs: seq<string>, ys: seq<string>, weights: WeightMap, fallback: real)
    requires multiset(xs) == multiset(ys)
    ensures multiset(Tuples(xs, weights, fallback)) == multiset(Tuples(ys, weights, fallback))
  {
    var tuple := (f: string) => Tuple(f, weights.GetOr(f, fallback));
    MapMultiset(tuple, xs, ys);
    assert Tuples(xs, weights, fallback) == Map(tuple, xs) && Tuples(ys, weights, fallback) == Map(tuple, ys);
  }

  /** Listing the same files in another order gives the same shards, file for file. */
  lemma PartitionIsCanonical(files: seq<string>, others: seq<string>, weights: WeightMap, n: int, override: Option<real>)
    requires weights.Valid() && multiset(files) == multiset(others)
    ensures PartitionSpec(files, weights, n, override) == PartitionSpec(others, weights, n, override)
  {
    assert |files| == |multiset(files)| == |others|;
    if files != [] && Fallback(weights, override).Some? {
      var w := Fallback(weights, override).value;
      var xs, ys := Tuples(files, weights, w), Tuples(others, weights, w);
      TuplesMultiset(files, others, weights, w);
      BeforeIsTotalOrder();
      SortMultiset(Before, xs);
      SortMultiset(Before, ys);
      SortSorted(Before, xs);
      SortSorted(Before, ys);
      SortedUnique(Before, Sort(Before, xs), Sort(Before, ys));
    }
  }

  // ----- loads of shards, and every competing partition as an assignment

  function WeightsIn(shard: seq<string>, weights: WeightMap, fallback: real): (ws: seq<real>)
    ensures |ws| == |shard|
  {
    seq(|shard|, i requires 0 <= i < |shard| => weights.GetOr(shard[i], fallback))
  }

  function ShardLoad(shard: seq<string>, weights: WeightMap, fallback: real): real {
    Total(WeightsIn(shard, weights, fallback))
  }

  function ShardLoads(shards: Shards, weights: WeightMap, fallback: real): (ls: seq<real>)
    ensures |ls| == |shards|
    ensures forall j | 0 <= j < |shards| :: ls[j] == ShardLoad(shards[j], weights, fallback)
  {
    seq(|shards|, j requires 0 <= j < |shards| => ShardLoad(shards[j], weights, fallback))
  }

  function Max(xs: seq<real>): (m: real)
    requires xs != []
    ensures m in xs && forall i | 0 <= i < |xs| :: xs[i] <= m
  {
    if |xs| == 1 then xs[0] else var m := Max(xs[1..]); if m < xs[0] then xs[0] else m
  }

  function Min(xs: seq<real>): (m: real)
    requires xs != []
    ensures m in xs && forall i | 0 <= i < |xs| :: m <= xs[i]
  {
    if |xs| == 1 then xs[0] else var m := Min(xs[1..]); if xs[0] < m then xs[0] else m
  }

  function Makespan(shards: Shards, weights: WeightMap, fallback: real): real
    requires shards != []
  {
    Max(ShardLoads(shards, weights, fallback))
  }

  lemma {:induction false} TotalConcat(xs: seq<real>, ys: seq<real>)
    ensures Total(xs + ys) == Total(xs) + Total(ys)
  {
    if ys == [] {
      assert xs + ys == xs;
    } else {
      TotalConcat(xs, ys[..|ys| - 1]);
      assert (xs + ys)[..|xs + ys| - 1] == xs + ys[..|ys| - 1];
    }
  }

  lemma {:induction false} TotalOfRearrangement(xs: seq<real>, ys: seq<real>)
    requires multiset(xs) == multiset(ys)
    ensures Total(xs) == Total(ys)
  {
    assert |multiset(xs)| == |xs|;
    if xs == [] {
      assert ys == [];
    } else {
      var k := PullLast(xs, ys);
      var left, right := ys[..k], ys[k + 1..];
      TotalOfRearrangement(xs[..|xs| - 1], left + right);
      assert ys == (left + [ys[k]]) + right;
      TotalConcat(left + [ys[k]], right);
      TotalConcat(left, right);
      TotalStep(left, ys[k]);
    }
  }

  lemma ShardLoadOfRearrangement(xs: seq<string>, ys: seq<string>, weights: WeightMap, fallback: real)
    requires multiset(xs) == multiset(ys)
    ensures ShardLoad(xs, weights, fallback) == ShardLoad(ys, weights, fallback)
  {
    var weight := (f: string) => weights.GetOr(f, fallback);
    MapMultiset(weight, xs, ys);
    assert WeightsIn(xs, weights, fallback) == Map(weight, xs) && WeightsIn(ys, weights, fallback) == Map(weight, ys);
    TotalOfRearrangement(WeightsIn(xs, weights, fallback), WeightsIn(ys, weights, fallback));
  }

  lemma {:induction false} FlattenFind<T>(xss: seq<seq<T>>, x: T) returns (j: nat, k: nat)
    requires x in Flatten(xss)
    ensures j < |xss| && k < |xss[j]| && xss[j][k] == x
  {
    if x in xss[0] {
      j := 0;
      k :| 0 <= k < |xss[0]| && xss[0][k] == x;
    } else {
      j, k := FlattenFind(xss[1..], x);
      j := j + 1;
    }
  }

  /** Taking item `k` out of shard `j`. */
  function Without<T>(shards: seq<seq<T>>, j: nat, k: nat): seq<seq<T>>
    requires j < |shards| && k < |shards[j]|
  {
    shards[j := shards[j][..k] + shards[j][k + 1..]]
  }

  lemma {:induction false} WithoutMultiset<T>(shards: seq<seq<T>>, j: nat, k: nat)
    requires j < |shards| && k < |shards[j]|
    ensures multiset(Flatten(Without(shards, j, k))) + multiset{shards[j][k]} == multiset(Flatten(shards))
    ensures multiset(Without(shards, j, k)[j]) + multiset{shards[j][k]} == multiset(shards[j])
  {
    var left, right := shards[j][..k], shards[j][k + 1..];
    assert shards[j] == (left + [shards[j][k]]) + right;
    FlattenUpdate(shards, j, left + right);
    CancelMultiset(multiset(Flatten(Without(shards, j, k))) + multiset{shards[j][k]}, multiset(Flatten(shards)),
                   multiset(left + right));
  }

  /** Any way of distributing the listed items over shards is an assignment of the list. */
  lemma {:induction false} CompetitorAssignment<T>(xs: seq<T>, shards: seq<seq<T>>) returns (b: Assignment)
    requires multiset(Flatten(shards)) == multiset(xs)
    ensures |b| == |xs| && forall i | 0 <= i < |b| :: b[i] < |shards|
    ensures forall j | 0 <= j < |shards| :: multiset(Bin(xs, b, j)) == multiset(shards[j])
  {
    hide Flatten, Bin;
    if xs == [] {
      b := [];
      NothingToShare(shards);
    } else {
      var pre, x := xs[..|xs| - 1], xs[|xs| - 1];
      assert xs == pre + [x];
      assert x in multiset(Flatten(shards));
      var j, k := FlattenFind(shards, x);
      WithoutMultiset(shards, j, k);
      CancelMultiset(multiset(Flatten(Without(shards, j, k))), multiset(pre), multiset{x});
      var a := CompetitorAssignment(pre, Without(shards, j, k));
      b := a + [j];
      forall i | 0 <= i < |shards| ensures multiset(Bin(pre + [x], a + [j], i)) == multiset(shards[i]) {
        BinSnoc(pre, a, x, j, i);
        assert multiset(Bin(pre, a, i)) == multiset(Without(shards, j, k)[i]);
      }
    }
  }

  lemma {:induction false} NothingToShare<T>(shards: seq<seq<T>>)
    requires multiset(Flatten(shards)) == multiset{}
    ensures forall j: nat | j < |shards| :: Bin<T>([], [], j) == shards[j]
  {
    forall j: nat | j < |shards| ensures shards[j] == [] {
      FlattenUpdate(shards, j, []);
      assert |multiset(shards[j])| == 0;
    }
  }

  lemma {:induction false} BinWeights(ts: seq<Tuple>, a: Assignment, j: nat, weights: WeightMap, fallback: real)
    requires |a| == |ts|
    requires forall i | 0 <= i < |ts| :: ts[i].weight == weights.GetOr(ts[i].path, fallback)
    ensures WeightsIn(Bin(Paths(ts), a, j), weights, fallback) == Bin(WeightsOf(ts), a, j)
  {
    if ts != [] {
      var m := |ts| - 1;
      BinWeights(ts[..m], a[..m], j, weights, fallback);
      assert Paths(ts)[..m] == Paths(ts[..m]) && WeightsOf(ts)[..m] == WeightsOf(ts[..m]);
    }
  }

  // ----- the bound

  ghost predicate NonNegativeWeights(weights: WeightMap) {
    weights.Valid() && forall f | f in weights.entries :: 0.0 <= weights.entries[f]
  }

  lemma MedianNonNegative(values: seq<real>)
    requires forall i | 0 <= i < |values| :: 0.0 <= values[i]
    ensures 0.0 <= ComputeMedian(values)
  {
    SortMultiset(LeqReal, values);
    var sorted := Sort(LeqReal, values);
    forall i | 0 <= i < |sorted| ensures 0.0 <= sorted[i] {
      assert sorted[i] in multiset(values);
    }
  }

  /** What the greedy loop runs on: descending, non-negative weights of the same files. */
  lemma SortedTuples(files: seq<string>, weights: WeightMap, fallback: real)
    requires NonNegativeWeights(weights) && 0.0 <= fallback
    ensures var ts := Sort(Before, Tuples(files, weights, fallback));
            && NonNegative(WeightsOf(ts)) && Descending(WeightsOf(ts))
            && (forall i | 0 <= i < |ts| :: ts[i].weight == weights.GetOr(ts[i].path, fallback))
            && multiset(Paths(ts)) == multiset(files)
  {
    var tuples := Tuples(files, weights, fallback);
    var ts := Sort(Before, tuples);
    SortMultiset(Before, tuples);
    BeforeIsTotalOrder();
    SortSorted(Before, tuples);
    PathsMultiset(ts, tuples);
    assert Paths(tuples) == files;
    forall i | 0 <= i < |ts|
      ensures 0.0 <= ts[i].weight == weights.GetOr(ts[i].path, fallback)
    {
      assert ts[i] in multiset(tuples);
    }
    forall i, j | 0 <= i < j < |ts| ensures WeightsOf(ts)[i] >= WeightsOf(ts)[j] {
      assert Before(ts[i], ts[j]);
    }
  }

  lemma FallbackNonNegative(weights: WeightMap, override: Option<real>)
    requires NonNegativeWeights(weights) && Fallback(weights, override).Some?
    ensures 0.0 <= Fallback(weights, override).value
  {
    forall i | 0 <= i < |weights.Values()| ensures 0.0 <= weights.Values()[i] {
      assert weights.keys[i] in weights.entries;
    }
    MedianNonNegative(weights.Values());
  }

  /** The makespan of any competing partition bounds the loads of some assignment. */
  lemma CompetitorWithin(ts: seq<Tuple>, weights: WeightMap, fallback: real, other: Shards) returns (b: Assignment)
    requires forall i | 0 <= i < |ts| :: ts[i].weight == weights.GetOr(ts[i].path, fallback)
    requires other != [] && multiset(Flatten(other)) == multiset(Paths(ts))
    ensures IsAssignment(WeightsOf(ts), b, |other|)
    ensures Within(WeightsOf(ts), b, |other|, Makespan(other, weights, fallback))
  {
    b := CompetitorAssignment(Paths(ts), other);
    forall k | 0 <= k < |other| ensures Load(WeightsOf(ts), b, k) <= Makespan(other, weights, fallback) {
      BinWeights(ts, b, k, weights, fallback);
      ShardLoadOfRearrangement(other[k], Bin(Paths(ts), b, k), weights, fallback);
      assert ShardLoads(other, weights, fallback)[k] == Load(WeightsOf(ts), b, k);
    }
  }

  /** The sorted list behind a non-refused partition. */
  function Schedule(files: seq<string>, weights: WeightMap, override: Option<real>): seq<Tuple>
    requires weights.Valid() && Fallback(weights, override).Some?
  {
    Sort(Before, Tuples(files, weights, Fallback(weights, override).value))
  }

  lemma LptShardLoads(files: seq<string>, weights: WeightMap, n: nat, override: Option<real>)
    requires NonNegativeWeights(weights) && n > 0 && Fallback(weights, override).Some?
    ensures var ts, shards := Schedule(files, weights, override), PartitionSpec(files, weights, n, override);
            && shards == PartitionResult.Shards(Lpt(ts, n))
            && ShardLoads(shards.shards, weights, Fallback(weights, override).value) == LptLoads(ts, n)
  {
    var fallback := Fallback(weights, override).value;
    var ts := Schedule(files, weights, override);
    FallbackNonNegative(weights, override);
    SortedTuples(files, weights, fallback);
    assert files == [] ==> Lpt(ts, n) == seq(n, _ => []);
    forall j | 0 <= j < n
      ensures ShardLoad(Lpt(ts, n)[j], weights, fallback) == LptLoads(ts, n)[j]
    {
      BinWeights(ts, Greedy(WeightsOf(ts), n), j, weights, fallback);
    }
  }

  /**
    The claim in the header, sharpened to Graham's constant: no partition of the same files
    into the same number of shards has a makespan below 3n/(4n - 1) of the one computed.
  */
  lemma {:induction false} PartitionWithinFourThirds(files: seq<string>, weights: WeightMap, n: nat, override: Option<real>, other: Shards)
    requires NonNegativeWeights(weights) && n > 0 && Fallback(weights, override).Some?
    requires |other| == n && multiset(Flatten(other)) == multiset(files)
    ensures var fallback := Fallback(weights, override).value;
            var r := PartitionSpec(files, weights, n, override);
            r.Shards? && |r.shards| == n
            && WithinFourThirds(n, Makespan(r.shards, weights, fallback), Makespan(other, weights, fallback))
  {
    var fallback := Fallback(weights, override).value;
    var ts := Schedule(files, weights, override);
    FallbackNonNegative(weights, override);
    SortedTuples(files, weights, fallback);
    LptShardLoads(files, weights, n, override);
    var b := CompetitorWithin(ts, weights, fallback, other);
    var loads := LptLoads(ts, n);
    var j :| 0 <= j < n && loads[j] == Max(loads);
    GreedyWithinFourThirds(WeightsOf(ts), n, b, Makespan(other, weights, fallback), j);
  }

  // ----- balance

  datatype Ratio = Finite(value: real) | Infinite

  function ImbalanceRatio(shards: Shards, weights: WeightMap, fallback: real): Ratio {
    if shards == [] then Finite(1.0)
    else
      var totals := ShardLoads(shards, weights, fallback);
      var max, min := Max(totals), Min(totals);
      if min == 0.0 then (if max == 0.0 then Finite(1.0) else Infinite) else Finite(max / min)
  }

  lemma LptBalance(ts: seq<Tuple>, weights: WeightMap, fallback: real, n: nat, j: nat)
    requires n > 0 && j < n && NonNegative(WeightsOf(ts)) && Lpt(ts, n)[j] != []
    requires forall i | 0 <= i < |ts| :: ts[i].weight == weights.GetOr(ts[i].path, fallback)
    ensures var bin := Lpt(ts, n)[j];
            LptLoads(ts, n)[j] <= Min(LptLoads(ts, n)) + weights.GetOr(bin[|bin| - 1], fallback)
  {
    hide Bin, Greedy, Total;
    var a, bin, loads := Greedy(WeightsOf(ts), n), Lpt(ts, n)[j], LptLoads(ts, n);
    BinWeights(ts, a, j, weights, fallback);
    assert WeightsIn(bin, weights, fallback)[|bin| - 1] == weights.GetOr(bin[|bin| - 1], fallback);
    var k :| 0 <= k < n && loads[k] == Min(loads);
    LastItemImbalance(WeightsOf(ts), n, j, k);
  }

  /** The heaviest shard exceeds the lightest by at most the weight of its own last file. */
  lemma PartitionBalance(files: seq<string>, weights: WeightMap, n: nat, override: Option<real>, j: nat)
    requires NonNegativeWeights(weights) && n > 0 && Fallback(weights, override).Some? && j < n
    requires Lpt(Schedule(files, weights, override), n)[j] != []
    ensures var fallback := Fallback(weights, override).value;
            var r := PartitionSpec(files, weights, n, override);
            r.Shards? && |r.shards| == n && r.shards[j] != []
            && ShardLoad(r.shards[j], weights, fallback)
               <= Min(ShardLoads(r.shards, weights, fallback)) + weights.GetOr(r.shards[j][|r.shards[j]| - 1], fallback)
  {
    var fallback := Fallback(weights, override).value;
    var ts := Schedule(files, weights, override);
    FallbackNonNegative(weights, override);
    SortedTuples(files, weights, fallback);
    LptShardLoads(files, weights, n, override);
    LptBalance(ts, weights, fallback, n, j);
  }

  lemma HeaviestBin(ts: seq<Tuple>, weights: WeightMap, fallback: real, n: nat) returns (last: string)
    requires n > 0 && NonNegative(WeightsOf(ts)) && ts != []
    requires forall i | 0 <= i < |ts| :: ts[i].weight == weights.GetOr(ts[i].path, fallback)
    ensures last in Paths(ts)
    ensures Max(LptLoads(ts, n)) <= Min(LptLoads(ts, n)) + weights.GetOr(last, fallback)
  {
    hide Bin, Greedy;
    var loads := LptLoads(ts, n);
    var j :| 0 <= j < n && loads[j] == Max(loads);
    if Lpt(ts, n)[j] == [] {
      last := Paths(ts)[0];
      var k :| 0 <= k < n && loads[k] == Min(loads);
      LoadNonNegative(WeightsOf(ts), Greedy(WeightsOf(ts), n), k);
      BinWeights(ts, Greedy(WeightsOf(ts), n), j, weights, fallback);
    } else {
      LptBalance(ts, weights, fallback, n, j);
      last := LptMember(ts, n, j);
    }
  }

  lemma LptMember(ts: seq<Tuple>, n: nat, j: nat) returns (last: string)
    requires n > 0 && j < n && Lpt(ts, n)[j] != []
    ensures last == Lpt(ts, n)[j][|Lpt(ts, n)[j]| - 1] && last in Paths(ts)
  {
    hide Bin, Greedy;
    last := Lpt(ts, n)[j][|Lpt(ts, n)[j]| - 1];
    BinsAreRearrangement(Paths(ts), Greedy(WeightsOf(ts), n), n);
    FlattenContains(Lpt(ts, n), j, |Lpt(ts, n)[j]| - 1);
    assert last in multiset(Paths(ts));
  }

  lemma HeaviestShard(files: seq<string>, weights: WeightMap, n: nat, override: Option<real>) returns (last: string)
    requires NonNegativeWeights(weights) && n > 0 && Fallback(weights, override).Some? && files != []
    ensures last in files
    ensures var fallback := Fallback(weights, override).value;
            var loads := ShardLoads(PartitionSpec(files, weights, n, override).shards, weights, fallback);
            loads != [] && Max(loads) <= Min(loads) + weights.GetOr(last, fallback)
  {
    var fallback := Fallback(weights, override).value;
    FallbackNonNegative(weights, override);
    SortedTuples(files, weights, fallback);
    LptShardLoads(files, weights, n, override);
    var ts := Schedule(files, weights, override);
    assert files[0] in multiset(Paths(ts));
    last := HeaviestBin(ts, weights, fallback, n);
    assert last in multiset(files);
  }

  /** The ratio times the lightest load exceeds that load by at most `w`. */
  predicate WithinOneFile(ratio: Ratio, min: real, w: real) {
    ratio.Finite? && ratio.value * min <= min + w
  }

  lemma RatioWithin(max: real, min: real, w: real)
    requires min > 0.0 && max <= min + w
    ensures WithinOneFile(Finite(max / min), min, w)
  {
  }

  /** `imbalanceRatio` of a computed partition: one file of slack over the lightest shard. */
  lemma PartitionImbalance(files: seq<string>, weights: WeightMap, n: nat, override: Option<real>) returns (last: string)
    requires NonNegativeWeights(weights) && n > 0 && Fallback(weights, override).Some? && files != []
    ensures last in files
    ensures var fallback := Fallback(weights, override).value;
            var shards := PartitionSpec(files, weights, n, override).shards;
            var min := Min(ShardLoads(shards, weights, fallback));
            min > 0.0 ==> WithinOneFile(ImbalanceRatio(shards, weights, fallback), min, weights.GetOr(last, fallback))
  {
    last := HeaviestShard(files, weights, n, override);
    var fallback := Fallback(weights, override).value;
    var loads := ShardLoads(PartitionSpec(files, weights, n, override).shards, weights, fallback);
    if Min(loads) > 0.0 {
      RatioWithin(Max(loads), Min(loads), weights.GetOr(last, fallback));
    }
  }

  lemma {:induction false} FlattenContains<T>(xss: seq<seq<T>>, j: nat, k: nat)
    requires j < |xss| && k < |xss[j]|
    ensures xss[j][k] in Flatten(xss)
  {
    if j > 0 {
      FlattenContains(xss[1..], j - 1, k);
    }
  }

  /**
    The header of `imbalanceRatio` promises Infinity whenever a shard is empty. The code gives it
    exactly when the lightest load is zero and the heaviest is not; empty shards beside weightless
    ones give 1.
  */
  lemma ImbalanceIsInfinite(shards: Shards, weights: WeightMap, fallback: real)
    ensures ImbalanceRatio(shards, weights, fallback) == Infinite <==>
            && (exists j :: 0 <= j < |shards| && ShardLoad(shards[j], weights, fallback) == 0.0)
            && (forall j | 0 <= j < |shards| :: 0.0 <= ShardLoad(shards[j], weights, fallback))
            && (exists j :: 0 <= j < |shards| && ShardLoad(shards[j], weights, fallback) > 0.0)
  {
    if shards != [] {
      var loads := ShardLoads(shards, weights, fallback);
      var j :| 0 <= j < |loads| && loads[j] == Min(loads);
      var k :| 0 <= k < |loads| && loads[k] == Max(loads);
      assert loads[j] == ShardLoad(shards[j], weights, fallback);
      assert loads[k] == ShardLoad(shards[k], weights, fallback);
    }
  }

  /** Two empty shards: the documented Infinity is 1. */
  lemma {:induction false} EmptyShardsAreBalanced(fallback: real)
    ensures ImbalanceRatio([[], []], Empty(), fallback) == Finite(1.0)
  {
    var totals := ShardLoads([[], []], Empty(), fallback);
    assert totals[0] == 0.0 && totals[1] == 0.0;
  }

  // ----- round-robin and the median

  function RoundRobin(m: nat, n: nat): (a: Assignment)
    requires n > 0
    ensures |a| == m
  {
    seq(m, k requires 0 <= k => k % n)
  }

  /** With one positive weight for every file, the file at sorted position k goes to shard k mod n. */
  lemma EqualWeightsDealtOut(files: seq<string>, weights: WeightMap, n: nat, override: Option<real>, w: real)
    requires NonNegativeWeights(weights) && n > 0 && Fallback(weights, override).Some? && 0.0 < w
    requires forall f | f in files :: weights.GetOr(f, Fallback(weights, override).value) == w
    ensures |Schedule(files, weights, override)| == |files|
    ensures PartitionSpec(files, weights, n, override)
         == PartitionResult.Shards(Bins(Paths(Schedule(files, weights, override)), RoundRobin(|files|, n), n))
  {
    var fallback := Fallback(weights, override).value;
    var ts := Schedule(files, weights, override);
    FallbackNonNegative(weights, override);
    SortedTuples(files, weights, fallback);
    LptShardLoads(files, weights, n, override);
    var ws := WeightsOf(ts);
    forall i | 0 <= i < |ws| ensures ws[i] == w {
      assert Paths(ts)[i] in multiset(files);
    }
    forall k | 0 <= k < |ws| ensures Greedy(ws, n)[k] == k % n {
      EqualWeightsRoundRobin(ws, w, n, k);
    }
    assert |files| == |multiset(files)| == |ts|;
    assert Greedy(ws, n) == RoundRobin(|files|, n);
  }

  /** Before any weights are mined the partition is round-robin in path order. */
  lemma {:induction false} ColdStartIsRoundRobin(files: seq<string>, n: nat)
    requires n > 0
    ensures |Sort(StringOrder.Leq, files)| == |files|
    ensures PartitionSpec(files, Empty(), n, None)
         == PartitionResult.Shards(Bins(Sort(StringOrder.Leq, files), RoundRobin(|files|, n), n))
  {
    SortMultiset(StringOrder.Leq, files);
    EqualWeightsDealtOut(files, Empty(), n, None, 1.0);
    EqualWeightsSortByPath(files, Empty(), 1.0);
  }

  lemma {:induction false} EqualWeightsSortByPath(files: seq<string>, weights: WeightMap, fallback: real)
    requires forall f | f in files :: weights.GetOr(f, fallback) == fallback
    ensures Sort(Before, Tuples(files, weights, fallback)) == Tuples(Sort(StringOrder.Leq, files), weights, fallback)
    ensures Paths(Sort(Before, Tuples(files, weights, fallback))) == Sort(StringOrder.Leq, files)
  {
    if files != [] {
      EqualWeightsSortByPath(files[1..], weights, fallback);
      assert Tuples(files, weights, fallback)[1..] == Tuples(files[1..], weights, fallback);
      SortMultiset(StringOrder.Leq, files[1..]);
      var rest := Sort(StringOrder.Leq, files[1..]);
      forall f | f in rest ensures weights.GetOr(f, fallback) == fallback {
        assert f in multiset(files[1..]);
      }
      InsertByPath(files[0], rest, weights, fallback);
    }
  }

  lemma {:induction false} InsertByPath(f: string, files: seq<string>, weights: WeightMap, fallback: real)
    requires weights.GetOr(f, fallback) == fallback
    requires forall g | g in files :: weights.GetOr(g, fallback) == fallback
    ensures Insert(Before, Tuple(f, fallback), Tuples(files, weights, fallback))
         == Tuples(Insert(StringOrder.Leq, f, files), weights, fallback)
  {
    if files != [] && !StringOrder.Leq(f, files[0]) {
      InsertByPath(f, files[1..], weights, fallback);
      assert Tuples(files, weights, fallback)[1..] == Tuples(files[1..], weights, fallback);
    }
  }

  lemma LeqRealIsTotalOrder()
    ensures TotalOrder(LeqReal)
  {
  }

  /** The median depends on the listed values only. */
  lemma MedianIsCanonical(values: seq<real>, others: seq<real>)
    requires multiset(values) == multiset(others)
    ensures ComputeMedian(values) == ComputeMedian(others)
  {
    assert |values| == |multiset(values)| == |others|;
    LeqRealIsTotalOrder();
    SortSorted(LeqReal, values);
    SortSorted(LeqReal, others);
    SortMultiset(LeqReal, values);
    SortMultiset(LeqReal, others);
    SortedUnique(LeqReal, Sort(LeqReal, values), Sort(LeqReal, others));
  }

  /** Half of the values lie at or below the median and half at or above it. */
  lemma {:induction false} MedianSplits(values: seq<real>, i: nat)
    requires i < |values|
    ensures |Sort(LeqReal, values)| == |values|
    ensures i < |values| - |values| / 2 ==> Sort(LeqReal, values)[i] <= ComputeMedian(values)
    ensures |values| / 2 <= i ==> ComputeMedian(values) <= Sort(LeqReal, values)[i]
  {
    LeqRealIsTotalOrder();
    SortSorted(LeqReal, values);
    SortMultiset(LeqReal, values);
    var sorted, mid := Sort(LeqReal, values), |values| / 2;
    assert i < mid ==> LeqReal(sorted[i], sorted[mid]);
    assert mid < i ==> LeqReal(sorted[mid], sorted[i]);
    assert i < mid - 1 ==> LeqReal(sorted[i], sorted[mid - 1]);
    assert 0 < mid ==> LeqReal(sorted[mid - 1], sorted[mid]);
  }

  // ----- what an unlisted file weighs

  /** `m` stands in the middle of the sorted list: the middle value, or halfway between the two middle ones. */
  ghost predicate InTheMiddle(sorted: seq<real>, m: real)
    requires sorted != []
  {
    var mid := |sorted| / 2;
    if |sorted| == 2 * mid + 1 then m == sorted[mid] else m + m == sorted[mid - 1] + sorted[mid]
  }

  lemma MedianIsInTheMiddle(values: seq<real>, sorted: seq<real>, m: real)
    requires Sorted(LeqReal, sorted) && multiset(sorted) == multiset(values) && sorted != [] && InTheMiddle(sorted, m)
    ensures ComputeMedian(values) == m
  {
    assert |values| == |multiset(values)| == |sorted|;
    LeqRealIsTotalOrder();
    SortSorted(LeqReal, values);
    SortMultiset(LeqReal, values);
    SortedUnique(LeqReal, Sort(LeqReal, values), sorted);
  }

  /**
    Without an override an unlisted file weighs what stands in the middle of the listed weights, and
    1 if that is zero or nothing is listed.
  */
  lemma {:induction false} UnlistedWeighsMedian(files: seq<string>, weights: WeightMap, n: int, sorted: seq<real>, m: real)
    requires NonNegativeWeights(weights) && Sorted(LeqReal, sorted) && multiset(sorted) == multiset(weights.Values())
    requires sorted != [] ==> InTheMiddle(sorted, m)
    ensures var weight := if sorted == [] || m == 0.0 then 1.0 else m;
            PartitionSpec(files, weights, n, None) == PartitionSpec(files, weights, n, Some(weight))
  {
    hide ComputeMedian, Sort, Lpt;
    assert |weights.Values()| == |multiset(weights.Values())| == |sorted|;
    if sorted == [] {
      NoMedian();
    } else {
      MedianIsInTheMiddle(weights.Values(), sorted, m);
      MedianNonNegative(weights.Values());
    }
  }

  lemma NoMedian()
    ensures ComputeMedian([]) == 0.0
  {
  }

  /** An override is the weight of every unlisted file: listing those files at it gives the same shards. */
  lemma {:induction false} OverrideWeighsUnlisted(files: seq<string>, weights: WeightMap, all: WeightMap, n: int, w: real, unused: real)
    requires weights.Valid() && all.Valid() && w >= 0.0 && unused >= 0.0
    requires forall f | f in files ::
               f in all.entries && all.entries[f] == if f in weights.entries then weights.entries[f] else w
    ensures PartitionSpec(files, weights, n, Some(w)) == PartitionSpec(files, all, n, Some(unused))
  {
    hide Sort, Lpt;
    assert Tuples(files, weights, w) == Tuples(files, all, unused);
  }

  /** The two refusals, in their order. */
  lemma {:induction false} PartitionRefuses(files: seq<string>, weights: WeightMap, n: int, override: Option<real>)
    requires weights.Valid()
    ensures PartitionSpec(files, weights, n, override) == BadShardCount <==> n <= 0
    ensures PartitionSpec(files, weights, n, override) == BadFallbackWeight
            <==> n > 0 && files != [] && override.Some? && override.value < 0.0
  {
    hide Sort, Lpt, ComputeMedian;
  }

  /** Where every shard has some load, the ratio times the lightest load is the heaviest. */
  lemma {:induction false} RatioIsHeaviestOverLightest(shards: Shards, weights: WeightMap, fallback: real) returns (light: nat, heavy: nat)
    requires shards != [] && forall j | 0 <= j < |shards| :: ShardLoad(shards[j], weights, fallback) > 0.0
    ensures light < |shards| && heavy < |shards|
    ensures forall j | 0 <= j < |shards| ::
              ShardLoad(shards[light], weights, fallback) <= ShardLoad(shards[j], weights, fallback)
              <= ShardLoad(shards[heavy], weights, fallback)
    ensures var ratio := ImbalanceRatio(shards, weights, fallback);
            ratio.Finite? && ratio.value * ShardLoad(shards[light], weights, fallback) == ShardLoad(shards[heavy], weights, fallback)
  {
    hide ShardLoad, Max, Min;
    var loads := ShardLoads(shards, weights, fallback);
    light, heavy := Extremes(loads);
    Quotient(Max(loads), Min(loads));
  }

  lemma Extremes(loads: seq<real>) returns (light: nat, heavy: nat)
    requires loads != []
    ensures light < |loads| && loads[light] == Min(loads) && heavy < |loads| && loads[heavy] == Max(loads)
    ensures forall j | 0 <= j < |loads| :: Min(loads) <= loads[j] <= Max(loads)
  {
    light :| 0 <= light < |loads| && loads[light] == Min(loads);
    heavy :| 0 <= heavy < |loads| && loads[heavy] == Max(loads);
  }

  lemma Quotient(max: real, min: real)
    requires min > 0.0
    ensures (max / min) * min == max
  {
  }
}
