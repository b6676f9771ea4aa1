/** Optional values. */
module Wrappers {
  datatype Option<+T> = None | Some(value: T)
}

/**
  The insertion-ordered dictionary of JavaScript's `Map` and Python's `dict`:
  overwriting a key keeps its position, a new key goes to the end.
*/
module OrderedMaps {
  datatype OrderedMap<K(==), V> = OrderedMap(keys: seq<K>, entries: map<K, V>) {
    /** Each key of `entries` is listed exactly once in `keys`. */
    ghost predicate Valid() {
      && (forall i, j | 0 <= i < j < |keys| :: keys[i] != keys[j])
      && (forall k | k in keys :: k in entries)
      && (forall k | k in entries :: k in keys)
    }

    function GetOr(k: K, default: V): V {
      if k in entries then entries[k] else default
    }

    function Set(k: K, v: V): (r: OrderedMap<K, V>)
      ensures r.entries == entries[k := v]
      ensures Valid() ==> r.Valid()
    {
      if k in entries then OrderedMap(keys, entries[k := v]) else OrderedMap(keys + [k], entries[k := v])
    }

    /** The values in key order, as `Array.from(map.values())` lists them. */
    function Values(): (vs: seq<V>)
      requires Valid()
      ensures |vs| == |keys| && forall i | 0 <= i < |keys| :: keys[i] in entries && vs[i] == entries[keys[i]]
    {
      seq(|keys|, i requires 0 <= i < |keys| => assert keys[i] in keys; entries[keys[i]])
    }
  }

  function Empty<K(==), V>(): (m: OrderedMap<K, V>)
    ensures m.Valid()
  {
    OrderedMap([], map[])
  }
}

/** Stable comparison sorting, as the library sorts of both languages promise it. */
module Sorting {
  ghost predicate TotalPreorder<T(!new)>(le: (T, T) -> bool) {
    && (forall a, b :: le(a, b) || le(b, a))
    && (forall a, b, c :: le(a, b) && le(b, c) ==> le(a, c))
  }

  ghost predicate TotalOrder<T(!new)>(le: (T, T) -> bool) {
    TotalPreorder(le) && forall a, b :: le(a, b) && le(b, a) ==> a == b
  }

  ghost predicate Sorted<T>(le: (T, T) -> bool, xs: seq<T>) {
    forall i, j | 0 <= i < j < |xs| :: le(xs[i], xs[j])
  }

  /** Places `x` before the first element it may precede. */
  function Insert<T>(le: (T, T) -> bool, x: T, xs: seq<T>): seq<T> {
    if xs == [] then [x]
    else if le(x, xs[0]) then [x] + xs
    else [xs[0]] + Insert(le, x, xs[1..])
  }

  function Sort<T>(le: (T, T) -> bool, xs: seq<T>): seq<T> {
    if xs == [] then [] else Insert(le, xs[0], Sort(le, xs[1..]))
  }

  function Filter<T>(p: T -> bool, xs: seq<T>): (r: seq<T>) {
    if xs == [] then [] else (if p(xs[0]) then [xs[0]] else []) + Filter(p, xs[1..])
  }

  lemma {:induction false} FilterMembers<T>(p: T -> bool, xs: seq<T>, x: T)
    ensures x in Filter(p, xs) <==> x in xs && p(x)
  {
    if xs != [] {
      FilterMembers(p, xs[1..], x);
      assert xs == [xs[0]] + xs[1..];
    }
  }

  lemma {:induction false} FilterConcat<T>(p: T -> bool, xs: seq<T>, ys: seq<T>)
    ensures Filter(p, xs + ys) == Filter(p, xs) + Filter(p, ys)
  {
    if xs == [] {
      assert xs + ys == ys;
    } else {
      var x, rest := xs[0], xs[1..];
      assert (xs + ys)[0] == x && (xs + ys)[1..] == rest + ys;
      FilterConcat(p, rest, ys);
      var head := if p(x) then [x] else [];
      assert head + (Filter(p, rest) + Filter(p, ys)) == (head + Filter(p, rest)) + Filter(p, ys);
    }
  }

  lemma {:induction false} FilterSnoc<T>(p: T -> bool, xs: seq<T>, x: T)
    ensures Filter(p, xs + [x]) == Filter(p, xs) + if p(x) then [x] else []
  {
    FilterConcat(p, xs, [x]);
    assert [x][1..] == [];
  }

  lemma {:induction false} InsertMultiset<T>(le: (T, T) -> bool, x: T, xs: seq<T>)
    ensures multiset(Insert(le, x, xs)) == multiset{x} + multiset(xs)
  {
    if xs == [] {
    } else {
      assert xs == [xs[0]] + xs[1..];
      if !le(x, xs[0]) {
        InsertMultiset(le, x, xs[1..]);
      }
    }
  }

  lemma {:induction false} SortMultiset<T>(le: (T, T) -> bool, xs: seq<T>)
    ensures multiset(Sort(le, xs)) == multiset(xs)
    ensures |Sort(le, xs)| == |xs|
  {
    if xs == [] {
    } else {
      assert xs == [xs[0]] + xs[1..];
      SortMultiset(le, xs[1..]);
      InsertMultiset(le, xs[0], Sort(le, xs[1..]));
    }
    assert |multiset(Sort(le, xs))| == |multiset(xs)|;
  }

  lemma {:induction false} InsertSorted<T(!new)>(le: (T, T) -> bool, x: T, xs: seq<T>)
    requires TotalPreorder(le) && Sorted(le, xs)
    ensures Sorted(le, Insert(le, x, xs))
  {
    if xs == [] || le(x, xs[0]) {
    } else {
      InsertSorted(le, x, xs[1..]);
      InsertMultiset(le, x, xs[1..]);
      var r := Insert(le, x, xs[1..]);
      forall j | 0 <= j < |r| ensures le(xs[0], r[j]) {
        assert r[j] in multiset(r);
        assert r[j] == x || r[j] in xs[1..];
      }
    }
  }

  lemma {:induction false} SortSorted<T(!new)>(le: (T, T) -> bool, xs: seq<T>)
    requires TotalPreorder(le)
    ensures Sorted(le, Sort(le, xs))
  {
    if xs != [] {
      SortSorted(le, xs[1..]);
      InsertSorted(le, xs[0], Sort(le, xs[1..]));
    }
  }

  lemma {:induction false} SortMembers<T>(le: (T, T) -> bool, xs: seq<T>, x: T)
    ensures x in Sort(le, xs) <==> x in xs
  {
    SortMultiset(le, xs);
    assert x in xs <==> x in multiset(xs);
    assert x in Sort(le, xs) <==> x in multiset(Sort(le, xs));
  }

  ghost predicate Distinct<T>(xs: seq<T>) {
    forall i, j | 0 <= i < j < |xs| :: xs[i] != xs[j]
  }

  lemma {:induction false} DistinctIsSet<T>(xs: seq<T>)
    ensures Distinct(xs) <==> forall x | x in xs :: multiset(xs)[x] == 1
  {
    if xs != [] {
      var pre, last := xs[..|xs| - 1], xs[|xs| - 1];
      assert xs == pre + [last];
      DistinctIsSet(pre);
      assert multiset(xs) == multiset(pre) + multiset{last};
      if Distinct(xs) {
        forall i | 0 <= i < |pre| ensures xs[i] != last {}
        assert last !in pre;
      } else if Distinct(pre) {
        assert last in pre;
        assert multiset(xs)[last] >= 2;
      } else {
        var x :| x in pre && multiset(pre)[x] != 1;
        assert x in xs && multiset(xs)[x] >= multiset(pre)[x] >= 2;
      }
    }
  }

  lemma {:induction false} SortKeepsDistinct<T>(le: (T, T) -> bool, xs: seq<T>)
    requires Distinct(xs)
    ensures Distinct(Sort(le, xs))
  {
    SortMultiset(le, xs);
    DistinctIsSet(xs);
    DistinctIsSet(Sort(le, xs));
  }

  /** Under a total order a multiset has one sorted arrangement. */
  lemma {:induction false} SortedUnique<T(!new)>(le: (T, T) -> bool, xs: seq<T>, ys: seq<T>)
    requires TotalOrder(le) && Sorted(le, xs) && Sorted(le, ys)
    requires multiset(xs) == multiset(ys)
    ensures xs == ys
  {
    assert |xs| == |multiset(xs)| == |ys|;
    if xs != [] {
      SortedHeads(le, xs, ys);
      assert xs == [xs[0]] + xs[1..] && ys == [ys[0]] + ys[1..];
      assert multiset(xs[1..]) == multiset(xs) - multiset{xs[0]};
      assert multiset(ys[1..]) == multiset(ys) - multiset{ys[0]};
      SortedUnique(le, xs[1..], ys[1..]);
    }
  }

  /** Under a total order lists without repetitions sort alike exactly when they hold the same elements. */
  lemma {:induction false} SameSetSameSort<T(!new)>(le: (T, T) -> bool, xs: seq<T>, ys: seq<T>)
    requires TotalOrder(le) && Distinct(xs)
    ensures Sort(le, xs) == Sort(le, ys) <==> Distinct(ys) && forall x :: x in xs <==> x in ys
  {
    hide Sort;
    SortMultiset(le, xs);
    SortMultiset(le, ys);
    DistinctIsSet(xs);
    DistinctIsSet(ys);
    if Sort(le, xs) == Sort(le, ys) {
      forall x ensures x in xs <==> x in ys {
        assert (x in xs <==> x in multiset(xs)) && (x in ys <==> x in multiset(ys));
      }
    }
    if Distinct(ys) && forall x :: x in xs <==> x in ys {
      forall x ensures multiset(xs)[x] == multiset(ys)[x] {
        assert (x in xs <==> x in multiset(xs)) && (x in ys <==> x in multiset(ys));
      }
      assert multiset(xs) == multiset(ys);
      SortSorted(le, xs);
      SortSorted(le, ys);
      SortedUnique(le, Sort(le, xs), Sort(le, ys));
    }
  }

  lemma SortedHeads<T(!new)>(le: (T, T) -> bool, xs: seq<T>, ys: seq<T>)
    requires TotalOrder(le) && Sorted(le, xs) && Sorted(le, ys)
    requires multiset(xs) == multiset(ys) && xs != [] && ys != []
    ensures xs[0] == ys[0]
  {
    assert xs[0] in multiset(ys) && ys[0] in multiset(xs);
    var i :| 0 <= i < |xs| && xs[i] == ys[0];
    var j :| 0 <= j < |ys| && ys[j] == xs[0];
    assert i > 0 ==> le(xs[0], xs[i]);
    assert j > 0 ==> le(ys[0], ys[j]);
  }
}

/** Grouping a list by a key in first-occurrence order, as the scripts do with a map of lists. */
module Grouping {
  import opened OrderedMaps

  /** The elements with key `k`, in order. */
  function WithKey<K(==), T>(key: T -> K, k: K, xs: seq<T>): (r: seq<T>) {
    if xs == [] then []
    else WithKey(key, k, xs[..|xs| - 1]) + if key(xs[|xs| - 1]) == k then [xs[|xs| - 1]] else []
  }

  function AddToGroup<K(==), T>(groups: OrderedMap<K, seq<T>>, k: K, x: T): OrderedMap<K, seq<T>> {
    groups.Set(k, groups.GetOr(k, []) + [x])
  }

  function Groups<K(==), T>(key: T -> K, xs: seq<T>): OrderedMap<K, seq<T>> {
    if xs == [] then Empty()
    else AddToGroup(Groups(key, xs[..|xs| - 1]), key(xs[|xs| - 1]), xs[|xs| - 1])
  }

  lemma {:induction false} GroupsSnoc<K, T>(key: T -> K, xs: seq<T>, x: T)
    ensures Groups(key, xs + [x]) == AddToGroup(Groups(key, xs), key(x), x)
  {
    assert (xs + [x])[..|xs|] == xs;
  }

  lemma {:induction false} WithKeySnoc<K, T>(key: T -> K, k: K, xs: seq<T>, x: T)
    ensures WithKey(key, k, xs + [x]) == WithKey(key, k, xs) + if key(x) == k then [x] else []
  {
    assert (xs + [x])[..|xs|] == xs;
  }

  lemma {:induction false} WithKeyMembers<K, T>(key: T -> K, k: K, xs: seq<T>, x: T)
    ensures x in WithKey(key, k, xs) <==> x in xs && key(x) == k
  {
    if xs != [] {
      WithKeyMembers(key, k, xs[..|xs| - 1], x);
      assert xs == xs[..|xs| - 1] + [xs[|xs| - 1]];
    }
  }

  lemma {:induction false} WithKeyConcat<K, T>(key: T -> K, k: K, xs: seq<T>, ys: seq<T>)
    ensures WithKey(key, k, xs + ys) == WithKey(key, k, xs) + WithKey(key, k, ys)
  {
    if ys == [] {
      assert xs + ys == xs;
    } else {
      assert (xs + ys)[..|xs + ys| - 1] == xs + ys[..|ys| - 1];
      WithKeyConcat(key, k, xs, ys[..|ys| - 1]);
    }
  }

  /** The group of `k` is the class of `k`, and only classes with members are listed. */
  lemma {:induction false} GroupsAreClasses<K, T>(key: T -> K, xs: seq<T>, k: K)
    ensures Groups(key, xs).Valid()
    ensures Groups(key, xs).GetOr(k, []) == WithKey(key, k, xs)
    ensures k in Groups(key, xs).entries <==> WithKey(key, k, xs) != []
  {
    if xs != [] {
      GroupsAreClasses(key, xs[..|xs| - 1], k);
    }
  }

  /** The members of the listed groups, group by group. */
  function Gather<K(==), T>(key: T -> K, ks: seq<K>, xs: seq<T>): seq<T> {
    if ks == [] then [] else Gather(key, ks[..|ks| - 1], xs) + WithKey(key, ks[|ks| - 1], xs)
  }

  lemma {:induction false} GatherSnoc<K, T>(key: T -> K, ks: seq<K>, xs: seq<T>, x: T)
    requires forall i, j | 0 <= i < j < |ks| :: ks[i] != ks[j]
    ensures multiset(Gather(key, ks, xs + [x]))
         == multiset(Gather(key, ks, xs)) + if key(x) in ks then multiset{x} else multiset{}
  {
    hide WithKey;
    if ks != [] {
      var m := |ks| - 1;
      GatherSnoc(key, ks[..m], xs, x);
      WithKeySnoc(key, ks[m], xs, x);
      assert ks == ks[..m] + [ks[m]];
    }
  }

  /** Grouping loses and duplicates nothing. */
  lemma {:induction false} GatherIsRearrangement<K, T>(key: T -> K, ks: seq<K>, xs: seq<T>)
    requires forall i, j | 0 <= i < j < |ks| :: ks[i] != ks[j]
    requires forall x | x in xs :: key(x) in ks
    ensures multiset(Gather(key, ks, xs)) == multiset(xs)
  {
    if xs == [] {
      GatherNothing(key, ks);
    } else {
      var pre, x := xs[..|xs| - 1], xs[|xs| - 1];
      assert xs == pre + [x];
      GatherIsRearrangement(key, ks, pre);
      GatherSnoc(key, ks, pre, x);
    }
  }

  lemma {:induction false} GatherNothing<K, T>(key: T -> K, ks: seq<K>)
    ensures Gather<K, T>(key, ks, []) == []
  {
    if ks != [] {
      GatherNothing(key, ks[..|ks| - 1]);
    }
  }
}

/** Facts about sequences as multisets. */
module Rearrangements {
  function Map<A, B>(f: A -> B, xs: seq<A>): (r: seq<B>)
    ensures |r| == |xs| && forall i | 0 <= i < |xs| :: r[i] == f(xs[i])
  {
    seq(|xs|, i requires 0 <= i < |xs| => f(xs[i]))
  }

  /** Takes the last element of one arrangement out of the other. */
  lemma PullLast<T>(xs: seq<T>, ys: seq<T>) returns (k: nat)
    requires multiset(xs) == multiset(ys) && xs != []
    ensures k < |ys| && ys[k] == xs[|xs| - 1]
    ensures multiset(xs[..|xs| - 1]) == multiset(ys[..k] + ys[k + 1..])
  {
    var m := |xs| - 1;
    assert xs == xs[..m] + [xs[m]];
    assert xs[m] in multiset(ys);
    k :| 0 <= k < |ys| && ys[k] == xs[m];
    var left, right := ys[..k], ys[k + 1..];
    assert ys == (left + [ys[k]]) + right;
    assert multiset(left + right) == multiset(ys) - multiset{ys[k]};
    assert multiset(xs[..m]) == multiset(xs) - multiset{ys[k]};
  }

  lemma CancelMultiset<T>(a: multiset<T>, b: multiset<T>, c: multiset<T>)
    requires a + c == b + c
    ensures a == b
  {
    assert (a + c) - c == a && (b + c) - c == b;
  }

  lemma MapConcatMultiset<A, B>(f: A -> B, xs: seq<A>, ys: seq<A>)
    ensures multiset(Map(f, xs + ys)) == multiset(Map(f, xs)) + multiset(Map(f, ys))
  {
    assert Map(f, xs + ys) == Map(f, xs) + Map(f, ys);
  }

  lemma {:induction false} MapMultiset<A, B>(f: A -> B, xs: seq<A>, ys: seq<A>)
    requires multiset(xs) == multiset(ys)
    ensures multiset(Map(f, xs)) == multiset(Map(f, ys))
  {
    hide Map;
    assert |multiset(xs)| == |xs| && |multiset(ys)| == |ys|;
    if xs != [] {
      var pre, last := xs[..|xs| - 1], [xs[|xs| - 1]];
      var k := PullLast(xs, ys);
      var left, right := ys[..k], ys[k + 1..];
      MapMultiset(f, pre, left + right);
      MapAround(f, left, last, right);
      MapConcatMultiset(f, pre, last);
      Reassemble(xs, ys, k);
    }
  }

  lemma Reassemble<A>(xs: seq<A>, ys: seq<A>, k: nat)
    requires xs != [] && k < |ys| && ys[k] == xs[|xs| - 1]
    ensures xs == xs[..|xs| - 1] + [xs[|xs| - 1]]
    ensures ys == (ys[..k] + [xs[|xs| - 1]]) + ys[k + 1..]
  {
  }

  lemma MapAround<A, B>(f: A -> B, left: seq<A>, mid: seq<A>, right: seq<A>)
    ensures multiset(Map(f, (left + mid) + right)) == multiset(Map(f, left + right)) + multiset(Map(f, mid))
  {
    MapConcatMultiset(f, left + mid, right);
    MapConcatMultiset(f, left, mid);
    MapConcatMultiset(f, left, right);
  }
}

/** The code-unit order that `<` and the default `sort` use on strings. */
module StringOrder {
  import opened Sorting

  predicate Leq(a: string, b: string) {
    a == [] || (b != [] && (a[0] < b[0] || (a[0] == b[0] && Leq(a[1..], b[1..]))))
  }

  lemma {:induction false} Total(a: string, b: string)
    ensures Leq(a, b) || Leq(b, a)
  {
    if a != [] && b != [] {
      Total(a[1..], b[1..]);
    }
  }

  lemma {:induction false} Transitive(a: string, b: string, c: string)
    requires Leq(a, b) && Leq(b, c)
    ensures Leq(a, c)
  {
    if a != [] && a[0] == b[0] && b[0] == c[0] {
      Transitive(a[1..], b[1..], c[1..]);
    }
  }

  lemma {:induction false} Antisymmetric(a: string, b: string)
    requires Leq(a, b) && Leq(b, a)
    ensures a == b
  {
    if a != [] {
      Antisymmetric(a[1..], b[1..]);
      assert a == [a[0]] + a[1..] && b == [b[0]] + b[1..];
    }
  }

  /** `a` comes first where it is smaller at the first difference, or ends there. */
  lemma {:induction false} LeqIsLexicographic(a: string, b: string)
    ensures Leq(a, b) <==> a <= b || exists k: nat :: k < |a| && k < |b| && a[..k] == b[..k] && a[k] < b[k]
  {
    if a != [] && b != [] {
      var x, y := a[1..], b[1..];
      assert a == [a[0]] + x && b == [b[0]] + y;
      LeqIsLexicographic(x, y);
      if a[0] == b[0] && Leq(x, y) && !(x <= y) {
        var k: nat :| k < |x| && k < |y| && x[..k] == y[..k] && x[k] < y[k];
        assert a[..k + 1] == [a[0]] + x[..k] && b[..k + 1] == [b[0]] + y[..k];
        assert a[k + 1] < b[k + 1];
      }
      if k: nat :| k < |a| && k < |b| && a[..k] == b[..k] && a[k] < b[k] {
        if k == 0 {
        } else {
          assert a[..k][0] == a[0] && b[..k][0] == b[0];
          assert x[..k - 1] == a[..k][1..] && y[..k - 1] == b[..k][1..];
          assert x[k - 1] < y[k - 1];
        }
      }
      if a[0] < b[0] {
        assert a[..0] == b[..0];
      }
    }
  }

  lemma LeqIsTotalOrder()
    ensures TotalOrder(Leq)
  {
    forall a, b ensures Leq(a, b) || Leq(b, a) { Total(a, b); }
    forall a, b, c | Leq(a, b) && Leq(b, c) ensures Leq(a, c) { Transitive(a, b, c); }
    forall a, b | Leq(a, b) && Leq(b, a) ensures a == b { Antisymmetric(a, b); }
  }
}
