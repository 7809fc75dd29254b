/**
 LRUCache.swift: the cache as a class, the run of a sequence of calls as a function of the
 calls, and what holds after every run.
 */
module LruCache {
  import Wire

  datatype State<!K, V> = Cached(order: seq<K>, vals: map<K, V>)

  /** A call of get, set or clear. */
  datatype Op<K, V> = Get(key: K) | Set(key: K, value: V) | Clear

  function Without<K(==)>(order: seq<K>, key: K): seq<K> {
    if order == [] then []
    else (if order[0] == key then [] else [order[0]]) + Without(order[1..], key)
  }

  /** updateCacheOrder. */
  function Touch<K(==)>(order: seq<K>, key: K): seq<K> {
    Without(order, key) + [key]
  }

  /** The loop of set. With a negative size it ends at the empty cache. */
  function Evict<K, V>(s: State<K, V>, maxSize: int): State<K, V>
    decreases |s.order|
  {
    if |s.order| <= maxSize || s.order == [] then s
    else Evict(Cached(s.order[1..], s.vals - {s.order[0]}), maxSize)
  }

  function Step<K, V>(s: State<K, V>, op: Op<K, V>, maxSize: int): State<K, V> {
    match op
    case Get(key) => if key in s.vals then s.(order := Touch(s.order, key)) else s
    case Set(key, value) => Evict(Cached(Touch(s.order, key), s.vals[key := value]), maxSize)
    case Clear => Cached([], map[])
  }

  /** What get returns. */
  function Lookup<K, V>(s: State<K, V>, key: K): Wire.Option<V> {
    if key in s.vals then Wire.Some(s.vals[key]) else Wire.None
  }

  function Run<K, V>(s: State<K, V>, ops: seq<Op<K, V>>, maxSize: int): State<K, V>
    decreases |ops|
  {
    if ops == [] then s else Run(Step(s, ops[0], maxSize), ops[1..], maxSize)
  }

  class LRUCache<K(==), V> {
    var cacheMap: map<K, V>
    var cacheOrder: seq<K>
    const maxSize: int

    ghost function State(): State<K, V>
      reads this
    {
      Cached(cacheOrder, cacheMap)
    }

    constructor (maxSize: int)
      ensures this.maxSize == maxSize && State() == Cached([], map[])
    {
      this.maxSize, cacheMap, cacheOrder := maxSize, map[], [];
    }

    method UpdateCacheOrder(key: K)
      modifies this`cacheOrder
      ensures cacheOrder == Touch(old(cacheOrder), key)
    {
      cacheOrder := Without(cacheOrder, key);
      cacheOrder := cacheOrder + [key];
    }

    method Get(key: K) returns (value: Wire.Option<V>)
      modifies this
      ensures value == Lookup(old(State()), key)
      ensures State() == Step(old(State()), Op.Get(key), maxSize)
    {
      if key !in cacheMap {
        return Wire.None;
      }
      value := Wire.Some(cacheMap[key]);
      UpdateCacheOrder(key);
    }

    method Set(key: K, value: V)
      modifies this
      ensures State() == Step(old(State()), Op.Set(key, value), maxSize)
    {
      cacheMap := cacheMap[key := value];
      UpdateCacheOrder(key);
      while |cacheOrder| > maxSize
        invariant Evict(State(), maxSize) == Step(old(State()), Op.Set(key, value), maxSize)
        decreases |cacheOrder|
      {
        if cacheOrder == [] {
          return;
        }
        var staleKey := cacheOrder[0];
        cacheOrder := cacheOrder[1..];
        cacheMap := cacheMap - {staleKey};
      }
    }

    method Clear()
      modifies this
      ensures State() == Cached([], map[])
    {
      cacheMap := map[];
      cacheOrder := [];
    }
  }

  // ---------------------------------------------------------------- every run

  predicate NoDuplicates<K(==)>(s: seq<K>) {
    forall i, j :: 0 <= i < j < |s| ==> s[i] != s[j]
  }

  /** The order lists the keys of the map, once each. */
  ghost predicate Listed<K(!new), V>(s: State<K, V>) {
    && NoDuplicates(s.order)
    && (forall k :: k in s.order <==> k in s.vals)
  }

  ghost predicate Consistent<K(!new), V>(s: State<K, V>, maxSize: int) {
    && Listed(s)
    && |s.order| <= if maxSize < 0 then 0 else maxSize
  }

  /** Filtering out one of distinct keys closes the gap it leaves. */
  lemma {:induction false} WithoutAt<K>(order: seq<K>, key: K, i: nat)
    requires NoDuplicates(order) && i <= |order| && (if i < |order| then order[i] == key else key !in order)
    ensures Without(order, key) == if i < |order| then order[..i] + order[i + 1..] else order
  {
    if order != [] {
      assert order == [order[0]] + order[1..];
      if i == 0 {
        assert key !in order[1..];
        WithoutAt(order[1..], key, |order| - 1);
      } else {
        WithoutAt(order[1..], key, i - 1);
      }
    }
  }

  lemma IndexOf<K>(order: seq<K>, key: K) returns (i: nat)
    ensures i <= |order| && (if i < |order| then order[i] == key else key !in order)
  {
    i := |order|;
    if key in order {
      i :| 0 <= i < |order| && order[i] == key;
    }
  }

  lemma TouchKeepsKeys<K(!new)>(order: seq<K>, key: K)
    requires NoDuplicates(order)
    ensures NoDuplicates(Touch(order, key))
    ensures forall k :: k in Touch(order, key) <==> k == key || k in order
    ensures |Touch(order, key)| == if key in order then |order| else |order| + 1
  {
    var i := IndexOf(order, key);
    WithoutAt(order, key, i);
    var t := Touch(order, key);
    if i < |order| {
      assert t == order[..i] + order[i + 1..] + [key];
      forall k | k in order
        ensures k in t
      {
        var j :| 0 <= j < |order| && order[j] == k;
        assert t[if j < i then j else if j > i then j - 1 else |t| - 1] == k;
      }
    }
  }

  lemma {:induction false} EvictKeeps<K(!new), V>(s: State<K, V>, maxSize: int)
    requires Listed(s)
    ensures Consistent(Evict(s, maxSize), maxSize)
    ensures forall k :: k in Evict(s, maxSize).vals ==> k in s.vals && Evict(s, maxSize).vals[k] == s.vals[k]
    decreases |s.order|
  {
    if |s.order| > maxSize && s.order != [] {
      var next := Cached(s.order[1..], s.vals - {s.order[0]});
      assert forall k :: k in s.order <==> k == s.order[0] || k in next.order;
      EvictKeeps(next, maxSize);
    }
  }

  /** The value of the last set of `key` since the last clear. */
  function LastSet<K(==), V>(ops: seq<Op<K, V>>, key: K): Wire.Option<V> {
    if ops == [] then Wire.None
    else
      var op := ops[|ops| - 1];
      if op.Clear? then Wire.None
      else if op.Set? && op.key == key then Wire.Some(op.value)
      else LastSet(ops[..|ops| - 1], key)
  }

  lemma {:induction false} RunSnoc<K, V>(s: State<K, V>, ops: seq<Op<K, V>>, maxSize: int)
    requires ops != []
    ensures Run(s, ops, maxSize) == Step(Run(s, ops[..|ops| - 1], maxSize), ops[|ops| - 1], maxSize)
    decreases |ops|
  {
    if |ops| > 1 {
      RunSnoc(Step(s, ops[0], maxSize), ops[1..], maxSize);
      assert ops[1..][..|ops| - 2] == ops[..|ops| - 1][1..];
    }
  }

  /**
   After any calls: the order lists the keys of the map once each and does not exceed the
   size, and a key that is still in the map has the value it was last set to.
   */
  lemma {:induction false} EveryRun<K(!new), V>(ops: seq<Op<K, V>>, maxSize: int)
    ensures var s := Run(Cached([], map[]), ops, maxSize);
            && Consistent(s, maxSize)
            && forall k :: k in s.vals ==> Wire.Some(s.vals[k]) == LastSet(ops, k)
    decreases |ops|
  {
    if ops != [] {
      var before := Run(Cached([], map[]), ops[..|ops| - 1], maxSize);
      RunSnoc(Cached([], map[]), ops, maxSize);
      EveryRun(ops[..|ops| - 1], maxSize);
      match ops[|ops| - 1]
      case Get(key) =>
        TouchKeepsKeys(before.order, key);
      case Set(key, value) =>
        TouchKeepsKeys(before.order, key);
        EvictKeeps(Cached(Touch(before.order, key), before.vals[key := value]), maxSize);
      case Clear =>
    }
  }

  // ---------------------------------------------------------------- two sizes

  /** `a` is `b` with some elements left out. */
  predicate Subsequence<K(==)>(a: seq<K>, b: seq<K>) {
    a == [] || (b != [] && if a[0] == b[0] then Subsequence(a[1..], b[1..]) else Subsequence(a, b[1..]))
  }

  lemma {:induction false} SubsequenceTail<K>(a: seq<K>, b: seq<K>)
    requires Subsequence(a, b) && a != []
    ensures b != [] && Subsequence(a[1..], b) && Subsequence(a[1..], b[1..])
    decreases |b|
  {
    if a[0] != b[0] {
      SubsequenceTail(a, b[1..]);
    }
    if |a| > 1 {
      SubsequenceTail(a[1..], b[1..]);
    }
  }

  lemma {:induction false} SubsequenceLength<K>(a: seq<K>, b: seq<K>)
    requires Subsequence(a, b)
    ensures |a| <= |b| && (|a| == |b| ==> a == b)
    decreases |b|
  {
    if a != [] {
      SubsequenceLength(if a[0] == b[0] then a[1..] else a, b[1..]);
    }
  }

  lemma {:induction false} SubsequenceElements<K>(a: seq<K>, b: seq<K>, k: K)
    requires Subsequence(a, b) && k in a
    ensures k in b
    decreases |b|
  {
    if a[0] != k || a[0] != b[0] {
      SubsequenceElements(if a[0] == b[0] then a[1..] else a, b[1..], k);
    }
  }

  lemma {:induction false} SubsequenceWithout<K>(a: seq<K>, b: seq<K>, key: K)
    requires Subsequence(a, b)
    ensures Subsequence(Without(a, key), Without(b, key))
    decreases |b|
  {
    if a != [] {
      SubsequenceWithout(if a[0] == b[0] then a[1..] else a, b[1..], key);
      if b[0] == key {
        assert Without(b, key) == Without(b[1..], key);
        assert a[0] == key ==> Without(a, key) == Without(a[1..], key);
      } else if a[0] == b[0] {
        assert Without(a, key)[1..] == Without(a[1..], key) && Without(b, key)[1..] == Without(b[1..], key);
      } else {
        SubsequenceSkip(Without(a, key), Without(b[1..], key), b[0]);
      }
    }
  }

  lemma SubsequenceSkip<K>(a: seq<K>, b: seq<K>, x: K)
    requires Subsequence(a, b)
    ensures Subsequence(a, [x] + b)
  {
    assert ([x] + b)[1..] == b;
    if a != [] && a[0] == x {
      SubsequenceTail(a, b);
    }
  }

  lemma {:induction false} SubsequenceAppend<K>(a: seq<K>, b: seq<K>, x: K)
    requires Subsequence(a, b)
    ensures Subsequence(a + [x], b + [x]) && Subsequence(a, b + [x])
    decreases |b|
  {
    if b == [] {
      assert a + [x] == [x] && b + [x] == [x];
    } else {
      assert (b + [x])[1..] == b[1..] + [x];
      if a == [] {
        assert a + [x] == [x] && [b[0]] + (b[1..] + [x]) == b + [x];
        SubsequenceAppend(a, b[1..], x);
        SubsequenceSkip([x], b[1..] + [x], b[0]);
      } else {
        assert (a + [x])[1..] == a[1..] + [x];
        SubsequenceAppend(if a[0] == b[0] then a[1..] else a, b[1..], x);
      }
    }
  }

  /**
   What a small cache and a large one have in common: the small one is the large one with
   some keys left out, and none is left out until the small one is full.
   */
  ghost predicate Included<K(!new), V>(s: State<K, V>, t: State<K, V>, m: nat) {
    && Subsequence(s.order, t.order)
    && (s.order == t.order || |s.order| == m)
    && forall x :: x in s.vals ==> x in t.vals && s.vals[x] == t.vals[x]
  }

  /** Set evicts at most the one key in front. */
  lemma EvictOne<K, V>(s: State<K, V>, maxSize: nat)
    requires |s.order| <= maxSize + 1
    ensures Evict(s, maxSize) ==
            if |s.order| <= maxSize then s else Cached(s.order[1..], s.vals - {s.order[0]})
  {}

  lemma TouchIncluded<K>(a: seq<K>, b: seq<K>, key: K)
    requires Subsequence(a, b) && NoDuplicates(a) && NoDuplicates(b)
    ensures Subsequence(Touch(a, key), Touch(b, key))
    ensures key !in a ==> Subsequence(a, Touch(b, key))
  {
    SubsequenceWithout(a, b, key);
    SubsequenceAppend(Without(a, key), Without(b, key), key);
    if key !in a {
      WithoutAt(a, key, |a|);
    }
  }

  lemma SetIncluded<K(!new), V>(s: State<K, V>, t: State<K, V>, key: K, value: V, m: nat, n: nat)
    requires m <= n && Consistent(s, m) && Consistent(t, n) && Included(s, t, m)
    ensures Included(Step(s, Op.Set(key, value), m), Step(t, Op.Set(key, value), n), m)
  {
    var a, b := Touch(s.order, key), Touch(t.order, key);
    var s1, t1 := Cached(a, s.vals[key := value]), Cached(b, t.vals[key := value]);
    TouchKeepsKeys(s.order, key);
    TouchKeepsKeys(t.order, key);
    TouchIncluded(s.order, t.order, key);
    SubsequenceLength(s.order, t.order);
    SubsequenceTail(a, b);
    EvictOne(s1, m);
    EvictOne(t1, n);
    if |b| > n && |a| > m {
      forall x | x in s1.vals && x != a[0]
        ensures x != b[0]
      {
        SubsequenceElements(a[1..], b[1..], x);
      }
    }
  }

  lemma StepIncluded<K(!new), V>(s: State<K, V>, t: State<K, V>, op: Op<K, V>, m: nat, n: nat)
    requires m <= n && Consistent(s, m) && Consistent(t, n) && Included(s, t, m)
    ensures Included(Step(s, op, m), Step(t, op, n), m)
  {
    match op
    case Get(key) =>
      TouchIncluded(s.order, t.order, key);
      TouchKeepsKeys(s.order, key);
    case Set(key, value) =>
      SetIncluded(s, t, key, value, m, n);
    case Clear =>
  }

  /**
   Inclusion over every run: of two caches given the same calls, the small one always holds a
   subsequence of the order of the large one, with the same values. So a get that hits in the
   small one hits in the large one and returns the same, although a get that hits only in the
   large one reorders that one alone.
   */
  lemma {:induction false} Inclusion<K(!new), V>(ops: seq<Op<K, V>>, m: nat, n: nat)
    requires m <= n
    ensures var s, t := Run(Cached([], map[]), ops, m), Run(Cached([], map[]), ops, n);
            && Included(s, t, m)
            && forall x :: Lookup(s, x).Some? ==> Lookup(s, x) == Lookup(t, x)
    decreases |ops|
  {
    if ops != [] {
      var empty: State<K, V>, last := Cached([], map[]), |ops| - 1;
      Inclusion(ops[..last], m, n);
      EveryRun(ops[..last], m);
      EveryRun(ops[..last], n);
      RunSnoc(empty, ops, m);
      RunSnoc(empty, ops, n);
      StepIncluded(Run(empty, ops[..last], m), Run(empty, ops[..last], n), ops[last], m, n);
    }
  }

  // ---------------------------------------------------------------- what stays

  lemma {:induction false} DistinctFit<K>(s: seq<K>, keys: set<K>)
    requires NoDuplicates(s) && forall j :: 0 <= j < |s| ==> s[j] in keys
    ensures |s| <= |keys|
    decreases |s|
  {
    if s != [] {
      DistinctFit(s[1..], keys - {s[0]});
    }
  }

  /** The keys that calls name. */
  function Named<K(==), V>(ops: seq<Op<K, V>>): set<K> {
    if ops == [] then {}
    else (if ops[0].Clear? then {} else {ops[0].key}) + Named(ops[1..])
  }

  /** `key` is in the order, and all keys behind it are in `newer`. */
  ghost predicate Behind<K>(order: seq<K>, key: K, newer: set<K>) {
    exists i :: 0 <= i < |order| && order[i] == key && forall j :: i < j < |order| ==> order[j] in newer
  }

  lemma TouchBehind<K(!new)>(order: seq<K>, key: K, x: K, newer: set<K>)
    requires NoDuplicates(order) && Behind(order, key, newer) && (x != key ==> x in newer)
    ensures Behind(Touch(order, x), key, newer)
  {
    var t := Touch(order, x);
    var p := IndexOf(order, x);
    WithoutAt(order, x, p);
    if x == key {
      assert t[|t| - 1] == key;
    } else {
      var i :| 0 <= i < |order| && order[i] == key && forall j :: i < j < |order| ==> order[j] in newer;
      var i' := if p < i then i - 1 else i;
      assert t[i'] == key;
      forall j | i' < j < |t|
        ensures t[j] in newer
      {
        if j < |t| - 1 {
          assert t[j] == order[if j < p then j else j + 1];
        }
      }
    }
  }

  lemma EvictBehind<K(!new), V>(s: State<K, V>, key: K, newer: set<K>, maxSize: nat)
    requires Listed(s) && Behind(s.order, key, newer) && |newer| < maxSize && |s.order| <= maxSize + 1
    ensures Behind(Evict(s, maxSize).order, key, newer)
  {
    EvictOne(s, maxSize);
    if |s.order| > maxSize {
      var i :| 0 <= i < |s.order| && s.order[i] == key && forall j :: i < j < |s.order| ==> s.order[j] in newer;
      if i == 0 {
        DistinctFit(s.order[1..], newer);
      }
      assert s.order[1..][i - 1] == key;
    }
  }

  lemma {:induction false} StaysBehind<K(!new), V>(s: State<K, V>, key: K, newer: set<K>, ops: seq<Op<K, V>>,
                                                   maxSize: nat)
    requires Consistent(s, maxSize) && Behind(s.order, key, newer) && Named(ops) <= newer + {key}
    requires |newer| < maxSize && forall j :: 0 <= j < |ops| ==> !ops[j].Clear?
    ensures key in Run(s, ops, maxSize).vals
    decreases |ops|
  {
    if ops != [] {
      var op := ops[0];
      var next := Step(s, op, maxSize);
      TouchKeepsKeys(s.order, op.key);
      TouchBehind(s.order, key, op.key, newer);
      if op.Set? {
        var full := Cached(Touch(s.order, op.key), s.vals[op.key := op.value]);
        EvictBehind(full, key, newer, maxSize);
        EvictKeeps(full, maxSize);
      }
      StaysBehind(next, key, newer, ops[1..], maxSize);
    }
  }

  /**
   The point of evicting the least recently used key: a key that was set stays, with its
   value, as long as the calls since then name fewer than `maxSize` other keys, whatever the
   cache went through before.
   */
  lemma RecentKeysStay<K(!new), V>(before: seq<Op<K, V>>, key: K, value: V, since: seq<Op<K, V>>, maxSize: nat)
    requires forall j :: 0 <= j < |since| ==> since[j].Get? || (since[j].Set? && since[j].key != key)
    requires |Named(since) - {key}| < maxSize
    ensures Lookup(Run(Cached([], map[]), before + [Op.Set(key, value)] + since, maxSize), key) == Wire.Some(value)
  {
    var empty: State<K, V> := Cached([], map[]);
    var start := before + [Op.Set(key, value)];
    var s := Run(empty, before, maxSize);
    EveryRun(before, maxSize);
    EveryRun(start, maxSize);
    RunSnoc(empty, start, maxSize);
    assert start[..|before|] == before;
    TouchKeepsKeys(s.order, key);
    var t, newer := Touch(s.order, key), Named(since) - {key};
    assert t[|t| - 1] == key;
    EvictBehind(Cached(t, s.vals[key := value]), key, newer, maxSize);
    StaysBehind(Run(empty, start, maxSize), key, newer, since, maxSize);
    RunAppend(empty, start, since, maxSize);
    EveryRun(start + since, maxSize);
    LastSetStays(start, since, key);
  }

  lemma {:induction false} RunAppend<K, V>(s: State<K, V>, a: seq<Op<K, V>>, b: seq<Op<K, V>>, maxSize: int)
    ensures Run(s, a + b, maxSize) == Run(Run(s, a, maxSize), b, maxSize)
    decreases |a|
  {
    if a == [] {
      assert a + b == b;
    } else {
      RunAppend(Step(s, a[0], maxSize), a[1..], b, maxSize);
      assert (a + b)[1..] == a[1..] + b;
    }
  }

  lemma {:induction false} LastSetStays<K, V>(a: seq<Op<K, V>>, b: seq<Op<K, V>>, key: K)
    requires forall j :: 0 <= j < |b| ==> b[j].Get? || (b[j].Set? && b[j].key != key)
    ensures LastSet(a + b, key) == LastSet(a, key)
    decreases |b|
  {
    if b == [] {
      assert a + b == a;
    } else {
      LastSetStays(a, b[..|b| - 1], key);
      assert (a + b)[..|a + b| - 1] == a + b[..|b| - 1];
    }
  }

  // ---------------------------------------------------------------- what is held

  function Keys<K(==)>(s: seq<K>): set<K> {
    set k | k in s
  }

  /** `key` is among the `m` most recently used keys: at most `m` keys were used from some use of it on. */
  ghost predicate MostRecent<K>(uses: seq<K>, m: nat, key: K) {
    exists i :: 0 <= i < |uses| && uses[i] == key && |Keys(uses[i..])| <= m
  }

  /**
   The keys used since the last clear, in order, as the calls alone tell: a set uses its key, a get
   uses its key if that is among the `m` most recently used ones.
   */
  ghost function Uses<K, V>(ops: seq<Op<K, V>>, m: nat): seq<K> {
    if ops == [] then []
    else
      var before := Uses(ops[..|ops| - 1], m);
      match ops[|ops| - 1]
      case Get(key) => if MostRecent(before, m, key) then before + [key] else before
      case Set(key, _) => before + [key]
      case Clear => []
  }

  /** The keys used from the last use of `order[p]` on are those that the order lists from `p` on. */
  ghost predicate LastUse<K>(order: seq<K>, uses: seq<K>, p: nat)
    requires p < |order|
  {
    && (exists i :: 0 <= i < |uses| && uses[i] == order[p] && Keys(uses[i..]) <= Keys(order[p..]))
    && (forall i :: 0 <= i < |uses| && uses[i] == order[p] ==> Keys(order[p..]) <= Keys(uses[i..]))
  }

  /** The order lists keys by their last use, and leaves out only keys used before all it lists. */
  ghost predicate Tracks<K>(order: seq<K>, uses: seq<K>, m: nat) {
    && (forall p :: 0 <= p < |order| ==> LastUse(order, uses, p))
    && (forall i :: 0 <= i < |uses| && uses[i] !in order ==> |order| >= m && Keys(order) <= Keys(uses[i..]))
  }

  lemma KeysJoin<K>(a: seq<K>, b: seq<K>)
    ensures Keys(a + b) == Keys(a) + Keys(b)
  {}

  /** Moving `x` to the end adds it to the keys from any earlier key on. */
  lemma MovedSuffix<K>(a: seq<K>, b: seq<K>, x: K, p: nat) returns (q: nat)
    requires p < |a + b|
    ensures q <= |a + b| && (a + [x] + b)[q] == (a + b + [x])[p]
    ensures Keys((a + b + [x])[p..]) == Keys((a + [x] + b)[q..]) + {x}
  {
    if p < |a| {
      q := p;
      assert (a + b + [x])[p..] == a[p..] + (b + [x]) && (a + [x] + b)[p..] == a[p..] + ([x] + b);
      KeysJoin(a[p..], b + [x]);
      KeysJoin(a[p..], [x] + b);
      KeysJoin(b, [x]);
      KeysJoin([x], b);
    } else {
      q := p + 1;
      assert (a + [x] + b)[q..] == b[p - |a|..];
      SuffixGrows(a + b, p, x);
      assert (a + b)[p..] == b[p - |a|..];
    }
  }

  lemma TouchSuffix<K(!new)>(order: seq<K>, x: K, p: nat) returns (q: nat)
    requires NoDuplicates(order) && p + 1 < |Touch(order, x)|
    ensures q < |order| && order[q] == Touch(order, x)[p]
    ensures Keys(Touch(order, x)[p..]) == Keys(order[q..]) + {x}
  {
    var j := IndexOf(order, x);
    WithoutAt(order, x, j);
    if j < |order| {
      assert order == order[..j] + [x] + order[j + 1..];
      q := MovedSuffix(order[..j], order[j + 1..], x, p);
    } else {
      q := p;
      SuffixGrows(order, p, x);
    }
  }

  lemma SuffixGrows<K>(uses: seq<K>, i: nat, x: K)
    requires i <= |uses|
    ensures Keys((uses + [x])[i..]) == Keys(uses[i..]) + {x}
  {
    assert (uses + [x])[i..] == uses[i..] + [x];
    KeysJoin(uses[i..], [x]);
  }

  /** One use of `x` adds `x` to both sides. */
  lemma UseGrows<K>(order: seq<K>, q: nat, uses: seq<K>, t: seq<K>, p: nat, x: K)
    requires q < |order| && p < |t| && order[q] == t[p] != x && LastUse(order, uses, q)
    requires Keys(t[p..]) == Keys(order[q..]) + {x}
    ensures LastUse(t, uses + [x], p)
  {
    var u := uses + [x];
    var i :| 0 <= i < |uses| && uses[i] == order[q] && Keys(uses[i..]) <= Keys(order[q..]);
    SuffixGrows(uses, i, x);
    assert u[i] == t[p];
    forall i | 0 <= i < |u| && u[i] == t[p]
      ensures Keys(t[p..]) <= Keys(u[i..])
    {
      SuffixGrows(uses, i, x);
    }
  }

  lemma NewestUse<K>(t: seq<K>, uses: seq<K>, x: K)
    requires t != [] && t[|t| - 1] == x
    ensures LastUse(t, uses + [x], |t| - 1)
  {
    var u, k := uses + [x], |uses|;
    assert t[|t| - 1..] == [x] && u[k] == x && u[k..] == [x];
    forall i | 0 <= i < |u| && u[i] == x
      ensures Keys([x]) <= Keys(u[i..])
    {
      assert u[i..][0] == x;
    }
  }

  lemma TouchTracks<K(!new)>(order: seq<K>, uses: seq<K>, m: nat, x: K)
    requires NoDuplicates(order) && Tracks(order, uses, m)
    ensures Tracks(Touch(order, x), uses + [x], m)
  {
    var t, u := Touch(order, x), uses + [x];
    TouchKeepsKeys(order, x);
    forall p | 0 <= p < |t|
      ensures LastUse(t, u, p)
    {
      if p == |t| - 1 {
        NewestUse(t, uses, x);
      } else {
        var q := TouchSuffix(order, x, p);
        assert t[|t| - 1] == x;
        UseGrows(order, q, uses, t, p, x);
      }
    }
    forall i | 0 <= i < |u| && u[i] !in t
      ensures |t| >= m && Keys(t) <= Keys(u[i..])
    {
      SuffixGrows(uses, i, x);
      assert uses[i] !in order;
    }
  }

  lemma EvictTracks<K>(order: seq<K>, uses: seq<K>, m: nat)
    requires Tracks(order, uses, m) && |order| > m
    ensures Tracks(order[1..], uses, m)
  {
    var t := order[1..];
    forall p | 0 <= p < |t|
      ensures LastUse(t, uses, p)
    {
      assert t[p..] == order[p + 1..] && t[p] == order[p + 1];
      assert LastUse(order, uses, p + 1);
    }
    assert order[0..] == order && order == [order[0]] + t;
    KeysJoin([order[0]], t);
    assert LastUse(order, uses, 0);
    forall i | 0 <= i < |uses| && uses[i] !in t
      ensures |t| >= m && Keys(t) <= Keys(uses[i..])
    {
      assert uses[i] in order ==> uses[i] == order[0];
    }
  }

  lemma {:induction false} KeysBound<K>(s: seq<K>)
    ensures |Keys(s)| <= |s|
    decreases |s|
  {
    if s != [] {
      KeysBound(s[1..]);
      assert Keys(s) == {s[0]} + Keys(s[1..]);
    }
  }

  /** With the order in step with the uses, the keys it lists are the most recently used ones. */
  lemma TrackedIsMostRecent<K(!new)>(order: seq<K>, uses: seq<K>, m: nat, key: K)
    requires NoDuplicates(order) && |order| <= m && Tracks(order, uses, m)
    ensures key in order <==> MostRecent(uses, m, key)
  {
    if key in order {
      var p :| 0 <= p < |order| && order[p] == key;
      assert LastUse(order, uses, p);
      var i :| 0 <= i < |uses| && uses[i] == key && Keys(uses[i..]) <= Keys(order[p..]);
      KeysBound(order[p..]);
      SubsetSize(Keys(uses[i..]), Keys(order[p..]));
    } else if MostRecent(uses, m, key) {
      var i :| 0 <= i < |uses| && uses[i] == key && |Keys(uses[i..])| <= m;
      DistinctFit(order + [key], Keys(uses[i..]));
    }
  }

  lemma {:induction false} SubsetSize<K>(a: set<K>, b: set<K>)
    requires a <= b
    ensures |a| <= |b|
    decreases a
  {
    if a != {} {
      var x :| x in a;
      SubsetSize(a - {x}, b - {x});
    }
  }

  lemma {:induction false} RunTracks<K(!new), V>(ops: seq<Op<K, V>>, m: nat)
    ensures Tracks(Run(Cached([], map[]), ops, m).order, Uses(ops, m), m)
    decreases |ops|
  {
    if ops != [] {
      var empty: State<K, V>, before, last := Cached([], map[]), ops[..|ops| - 1], ops[|ops| - 1];
      var s, u := Run(empty, before, m), Uses(before, m);
      RunSnoc(empty, ops, m);
      RunTracks(before, m);
      EveryRun(before, m);
      match last
      case Get(key) =>
        TrackedIsMostRecent(s.order, u, m, key);
        TouchTracks(s.order, u, m, key);
      case Set(key, value) =>
        TouchTracks(s.order, u, m, key);
        TouchKeepsKeys(s.order, key);
        EvictOne(Cached(Touch(s.order, key), s.vals[key := value]), m);
        if |Touch(s.order, key)| > m {
          EvictTracks(Touch(s.order, key), u + [key], m);
        }
      case Clear =>
    }
  }

  lemma {:induction false} EvictNegative<K, V>(s: State<K, V>, m: int)
    requires m < 0
    ensures Evict(s, m) == Evict(s, 0)
    decreases |s.order|
  {
    if s.order != [] {
      EvictNegative(Cached(s.order[1..], s.vals - {s.order[0]}), m);
    }
  }

  lemma {:induction false} RunNegative<K, V>(s: State<K, V>, ops: seq<Op<K, V>>, m: int)
    requires m < 0
    ensures Run(s, ops, m) == Run(s, ops, 0)
    decreases |ops|
  {
    if ops != [] {
      if ops[0].Set? {
        EvictNegative(Cached(Touch(s.order, ops[0].key), s.vals[ops[0].key := ops[0].value]), m);
      }
      RunNegative(Step(s, ops[0], m), ops[1..], m);
    }
  }

  /**
   After every run, the cache holds exactly the most recently used keys, hits and sets counted, each
   with the value it was last set to. A negative size is size 0.
   */
  lemma HeldExactly<K(!new), V>(ops: seq<Op<K, V>>, maxSize: int, key: K)
    ensures var m: nat := if maxSize < 0 then 0 else maxSize;
            Lookup(Run(Cached([], map[]), ops, maxSize), key) ==
            if MostRecent(Uses(ops, m), m, key) then LastSet(ops, key) else Wire.None
  {
    var empty: State<K, V>, m := Cached([], map[]), if maxSize < 0 then 0 else maxSize;
    if maxSize < 0 {
      RunNegative(empty, ops, maxSize);
    }
    var s := Run(empty, ops, m);
    EveryRun(ops, m);
    RunTracks(ops, m);
    TrackedIsMostRecent(s.order, Uses(ops, m), m, key);
  }

  /** A get that hits renews its key: it stays as long as a key that was set. */
  lemma HitsRenew<K(!new), V>(before: seq<Op<K, V>>, key: K, since: seq<Op<K, V>>, m: nat)
    requires Lookup(Run(Cached([], map[]), before, m), key).Some?
    requires forall j :: 0 <= j < |since| ==> since[j].Get? || (since[j].Set? && since[j].key != key)
    requires |Named(since) - {key}| < m
    ensures Lookup(Run(Cached([], map[]), before + [Op.Get(key)] + since, m), key) ==
            Lookup(Run(Cached([], map[]), before, m), key)
  {
    var empty: State<K, V> := Cached([], map[]);
    var start := before + [Op.Get(key)];
    var s := Run(empty, before, m);
    EveryRun(before, m);
    EveryRun(start, m);
    RunSnoc(empty, start, m);
    assert start[..|before|] == before;
    TouchKeepsKeys(s.order, key);
    var t, newer := Touch(s.order, key), Named(since) - {key};
    assert t[|t| - 1] == key;
    StaysBehind(Run(empty, start, m), key, newer, since, m);
    RunAppend(empty, start, since, m);
    EveryRun(start + since, m);
    LastSetStays(start, since, key);
    LastSetStays(before, [Op.Get(key)], key);
  }
}
