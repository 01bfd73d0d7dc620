/** Key derivation through a small least-recently-used cache
    (src/jmclient/cryptoengine.py, `SimpleLruCache` and `BTCEngine._walk_bip32_path`). */
module LruDerivation {
  import opened Sequences
  import opened Wrappers

  // ---------- recency ----------

  function Without<T(==,!new)>(s: seq<T>, x: T): (r: seq<T>)
    ensures x !in r && forall y :: y in r <==> y in s && y != x
  {
    if s == [] then []
    else if s[0] == x then Without(s[1..], x)
    else
      assert s == [s[0]] + s[1..];
      [s[0]] + Without(s[1..], x)
  }

  /** Make `x` the most recent element. */
  function Touch<T(==,!new)>(s: seq<T>, x: T): seq<T> {
    Without(s, x) + [x]
  }

  /** The distinct elements of a trace, ordered by their last occurrence. */
  function Recency<T(==,!new)>(trace: seq<T>): seq<T> {
    if trace == [] then [] else Touch(Recency(trace[..|trace| - 1]), trace[|trace| - 1])
  }

  function Latest<T>(s: seq<T>, n: nat): seq<T> {
    if n <= |s| then s[|s| - n..] else s
  }

  lemma {:induction false} WithoutAbsent<T(!new)>(s: seq<T>, x: T)
    requires x !in s
    ensures Without(s, x) == s
  {
    if s != [] {
      assert s == [s[0]] + s[1..];
      WithoutAbsent(s[1..], x);
    }
  }

  lemma {:induction false} WithoutConcat<T(!new)>(a: seq<T>, b: seq<T>, x: T)
    ensures Without(a + b, x) == Without(a, x) + Without(b, x)
  {
    if a == [] {
      assert a + b == b;
    } else {
      assert (a + b)[1..] == a[1..] + b;
      WithoutConcat(a[1..], b, x);
    }
  }

  lemma {:induction false} WithoutDistinct<T(!new)>(s: seq<T>, x: T)
    requires Distinct(s)
    ensures Distinct(Without(s, x))
    ensures |Without(s, x)| == if x in s then |s| - 1 else |s|
  {
    if s != [] {
      WithoutDistinct(s[1..], x);
      assert s == [s[0]] + s[1..];
      if s[0] == x {
        WithoutAbsent(s[1..], x);
      } else {
        var r := Without(s[1..], x);
        assert s[0] !in r;
      }
    }
  }

  lemma TouchDistinct<T(!new)>(s: seq<T>, x: T)
    requires Distinct(s)
    ensures Distinct(Touch(s, x))
  {
    WithoutDistinct(s, x);
  }

  lemma {:induction false} RecencyDistinct<T(!new)>(trace: seq<T>)
    ensures Distinct(Recency(trace))
    ensures forall x :: x in Recency(trace) <==> x in trace
  {
    if trace != [] {
      var n := |trace| - 1;
      RecencyDistinct(trace[..n]);
      TouchDistinct(Recency(trace[..n]), trace[n]);
      assert trace == trace[..n] + [trace[n]];
    }
  }

  lemma RecencyAppend<T(!new)>(trace: seq<T>, x: T)
    ensures Recency(trace + [x]) == Touch(Recency(trace), x)
  {
    assert (trace + [x])[..|trace|] == trace;
  }

  lemma LatestSplit<T(!new)>(s: seq<T>, n: nat) returns (head: seq<T>)
    ensures s == head + Latest(s, n)
    ensures |Latest(s, n)| <= n && (|Latest(s, n)| == n || head == [])
  {
    head := s[..|s| - |Latest(s, n)|];
  }

  lemma LatestConcat<T(!new)>(a: seq<T>, b: seq<T>, n: nat)
    requires |b| >= n || a == []
    ensures Latest(a + b, n) == Latest(b, n)
    ensures |b| <= n ==> Latest(b, n) == b
  {
    if |b| >= n {
      assert (a + b)[|a + b| - n..] == b[|b| - n..];
    } else {
      assert a + b == b;
    }
  }

  lemma TouchHit<T(!new)>(head: seq<T>, tail: seq<T>, x: T)
    requires x in tail && x !in head && Distinct(tail)
    ensures Touch(head + tail, x) == head + Touch(tail, x) && |Touch(tail, x)| == |tail|
  {
    WithoutConcat(head, tail, x);
    WithoutDistinct(tail, x);
    WithoutAbsent(head, x);
    assert head + Without(tail, x) + [x] == head + (Without(tail, x) + [x]);
  }

  lemma {:induction false} TouchMiss<T(!new)>(head: seq<T>, tail: seq<T>, x: T)
    requires x !in tail
    ensures Touch(head + tail, x) == Without(head, x) + (tail + [x])
    ensures Touch(tail, x) == tail + [x]
  {
    WithoutConcat(head, tail, x);
    WithoutAbsent(tail, x);
    assert Without(head, x) + tail + [x] == Without(head, x) + (tail + [x]);
  }

  lemma DistinctApart<T(!new)>(a: seq<T>, b: seq<T>, x: T)
    requires Distinct(a + b)
    ensures Distinct(b) && (x in b ==> x !in a)
  {
    forall i, j | 0 <= i < j < |b| ensures b[i] != b[j] {
      assert (a + b)[|a| + i] == b[i] && (a + b)[|a| + j] == b[j];
    }
    if x in b {
      var j :| 0 <= j < |b| && b[j] == x;
      forall i | 0 <= i < |a| ensures a[i] != x {
        assert (a + b)[i] == a[i] && (a + b)[|a| + j] == b[j];
      }
    }
  }

  /** A bounded cache needs only its own content to keep up with recency: touching something
      it holds ... */
  lemma LatestTouchHit<T(!new)>(s: seq<T>, x: T, n: nat)
    requires Distinct(s) && x in Latest(s, n)
    ensures Latest(Touch(s, x), n) == Touch(Latest(s, n), x)
  {
    hide Touch, Latest;
    var tail := Latest(s, n);
    var head := LatestSplit(s, n);
    DistinctApart(head, tail, x);
    TouchHit(head, tail, x);
    LatestConcat(head, Touch(tail, x), n);
  }

  /** ... and touching something it does not hold. */
  lemma LatestTouchMiss<T(!new)>(s: seq<T>, x: T, n: nat)
    requires x !in Latest(s, n)
    ensures Latest(Touch(s, x), n) == Latest(Latest(s, n) + [x], n)
  {
    hide Touch, Latest;
    var tail := Latest(s, n);
    var head := LatestSplit(s, n);
    TouchMiss(head, tail, x);
    LatestConcat(Without(head, x), tail + [x], n);
  }

  function KeySet<T(==,!new)>(trace: seq<T>): set<T> {
    set x | x in trace
  }

  /** Recency, seen from the last access of `x`: what comes after it is exactly what was
      accessed since, each once. */
  lemma {:induction false} RecencyAfter<T(!new)>(trace: seq<T>, i: nat) returns (a: seq<T>, b: seq<T>)
    requires i < |trace| && trace[i] !in trace[i + 1..]
    ensures Recency(trace) == a + [trace[i]] + b
    ensures KeySet(b) == KeySet(trace[i + 1..]) && Distinct(b)
    decreases |trace|
  {
    var n := |trace| - 1;
    var t, y := trace[..n], trace[n];
    RecencyDistinct(t);
    if i == n {
      a, b := Without(Recency(t), y), [];
      assert trace[i + 1..] == [];
    } else {
      assert trace[i + 1..] == t[i + 1..] + [y];
      var a', b' := RecencyAfter(t, i);
      var x := trace[i];
      WithoutConcat(a' + [x], b', y);
      WithoutConcat(a', [x], y);
      assert Without([x], y) == [x] by { WithoutAbsent([x], y); }
      WithoutDistinct(b', y);
      a, b := Without(a', y), Without(b', y) + [y];
      assert Recency(trace) == a + [x] + b;
      assert KeySet(b) == KeySet(b') + {y};
    }
  }

  lemma {:induction false} DistinctCard<T(!new)>(s: seq<T>)
    requires Distinct(s)
    ensures |KeySet(s)| == |s|
  {
    if s != [] {
      var n := |s| - 1;
      DistinctCard(s[..n]);
      assert s == s[..n] + [s[n]];
      assert KeySet(s) == KeySet(s[..n]) + {s[n]};
    }
  }

  /** What "the last `n` distinct elements" means: an element is among them exactly when
      fewer than `n` other elements were accessed since its last access. */
  lemma {:induction false} LatestMeaning<T(!new)>(trace: seq<T>, i: nat, n: nat)
    requires i < |trace| && trace[i] !in trace[i + 1..]
    ensures trace[i] in Latest(Recency(trace), n) <==> |KeySet(trace[i + 1..])| < n
  {
    var a, b := RecencyAfter(trace, i);
    DistinctCard(b);
    RecencyDistinct(trace);
    var r := Recency(trace);
    assert r[|a|] == trace[i];
  }

  // ---------- the cache ----------

  function KeysOf<K, V>(entries: seq<(K, V)>): (ks: seq<K>)
    ensures |ks| == |entries| && forall i :: 0 <= i < |ks| ==> ks[i] == entries[i].0
  {
    seq(|entries|, i requires 0 <= i < |entries| => entries[i].0)
  }

  function IndexOf<K(==), V>(entries: seq<(K, V)>, key: K): (r: Option<nat>)
    ensures r.None? <==> key !in KeysOf(entries)
    ensures r.Some? ==> r.value < |entries| && entries[r.value].0 == key
  {
    if entries == [] then None
    else if entries[|entries| - 1].0 == key then
      assert KeysOf(entries)[|entries| - 1] == key;
      Some(|entries| - 1)
    else
      assert KeysOf(entries) == KeysOf(entries[..|entries| - 1]) + [entries[|entries| - 1].0];
      IndexOf(entries[..|entries| - 1], key)
  }

  lemma LatestDistinct<T(!new)>(s: seq<T>, n: nat)
    requires Distinct(s)
    ensures Distinct(Latest(s, n))
  {}

  lemma WithoutHead<T(!new)>(b: seq<T>, x: T)
    ensures Without([x] + b, x) == Without(b, x)
  {
    assert ([x] + b)[1..] == b;
  }

  lemma SplitAround<T(!new)>(s: seq<T>, i: nat)
    requires Distinct(s) && i < |s|
    ensures s == s[..i] + ([s[i]] + s[i + 1..])
    ensures s[i] !in s[..i] && s[i] !in s[i + 1..]
  {}

  lemma WithoutAt<T(!new)>(s: seq<T>, i: nat)
    requires Distinct(s) && i < |s|
    ensures Without(s, s[i]) == s[..i] + s[i + 1..]
  {
    hide Without, Distinct;
    var x, a, b := s[i], s[..i], s[i + 1..];
    SplitAround(s, i);
    WithoutConcat(a, [x] + b, x);
    WithoutHead(b, x);
    WithoutAbsent(a, x);
    WithoutAbsent(b, x);
  }

  /** Moving one entry to the recent end touches its key. */
  lemma MovedKeys<K(!new), V>(was: seq<(K, V)>, i: nat)
    requires i < |was| && Distinct(KeysOf(was))
    ensures KeysOf(was[..i] + was[i + 1..] + [was[i]]) == Touch(KeysOf(was), was[i].0)
  {
    WithoutAt(KeysOf(was), i);
    var moved := was[..i] + was[i + 1..] + [was[i]];
    assert KeysOf(moved) == KeysOf(was)[..i] + KeysOf(was)[i + 1..] + [was[i].0];
  }

  lemma MovedMembers<E>(was: seq<E>, i: nat, e: E)
    requires i < |was|
    ensures e in was[..i] + was[i + 1..] + [was[i]] <==> e in was
  {
    assert was == was[..i] + [was[i]] + was[i + 1..];
  }

  lemma AppendedKeys<K(!new), V>(was: seq<(K, V)>, key: K, value: V, n: nat)
    requires n > 0
    ensures Latest(KeysOf(was + [(key, value)]), n) == Latest(KeysOf(was) + [key], n)
    ensures (key, value) in Latest(was + [(key, value)], n)
    ensures forall e :: e in Latest(was + [(key, value)], n) ==> e in was || e == (key, value)
  {
    var all := was + [(key, value)];
    assert KeysOf(all) == KeysOf(was) + [key];
    var l := Latest(all, n);
    assert l[|l| - 1] == (key, value);
  }

  /** An ordered dictionary of bounded size: oldest entry first.  `trace` records the keys
      that were inserted or read; it plays no part in the computation. */
  class SimpleLruCache<K(==,!new), V> {
    const maxSize: nat
    var entries: seq<(K, V)>
    ghost var trace: seq<K>

    /** The cache holds, in recency order, exactly the last `maxSize` distinct keys. */
    ghost predicate Valid()
      reads this
    {
      && maxSize > 0
      && KeysOf(entries) == Latest(Recency(trace), maxSize)
    }

    constructor (maxSize: nat)
      requires maxSize > 0
      ensures Valid() && entries == [] && trace == [] && this.maxSize == maxSize
    {
      this.maxSize := maxSize;
      entries := [];
      trace := [];
    }

    /** `cache[key] = value`: a new key goes to the recent end and may push the oldest entry
        out; a key already present keeps its place. */
    method SetItem(key: K, value: V)
      requires Valid()
      modifies this
      ensures Valid()
      ensures trace == if key in KeysOf(old(entries)) then old(trace) else old(trace) + [key]
      ensures (key, value) in entries
      ensures forall e :: e in entries ==> e in old(entries) || e == (key, value)
    {
      hide KeysOf, Latest, Recency;
      var at := IndexOf(entries, key);
      if at.Some? {
        entries := entries[at.value := (key, value)];
      } else {
        AppendedKeys(entries, key, value, maxSize);
        LatestTouchMiss(Recency(trace), key, maxSize);
        RecencyAppend(trace, key);
        entries := entries + [(key, value)];
        trace := trace + [key];
        AdjustSize();
      }
    }

    /** Drop oldest entries while there are too many. */
    method AdjustSize()
      requires maxSize > 0
      modifies this`entries
      ensures entries == Latest(old(entries), maxSize)
      ensures KeysOf(entries) == Latest(KeysOf(old(entries)), maxSize)
    {
      while |entries| > maxSize
        invariant |entries| <= |old(entries)| && entries == old(entries)[|old(entries)| - |entries|..]
        invariant |entries| >= maxSize || entries == old(entries)
      {
        entries := entries[1..];
      }
    }

    /** `cache[key]`: reading an entry makes it the most recent one. */
    method GetItem(key: K) returns (value: Option<V>)
      requires Valid()
      modifies this
      ensures Valid()
      ensures value.None? <==> key !in KeysOf(old(entries))
      ensures value.None? ==> entries == old(entries) && trace == old(trace)
      ensures value.Some? ==> (key, value.value) in old(entries) && trace == old(trace) + [key]
      ensures forall e :: e in entries <==> e in old(entries)
    {
      hide KeysOf, Latest, Recency, Touch;
      var at := IndexOf(entries, key);
      if at.None? {
        return None;
      }
      var e := entries[at.value];
      RecencyDistinct(trace);
      LatestDistinct(Recency(trace), maxSize);
      LatestTouchHit(Recency(trace), key, maxSize);
      RecencyAppend(trace, key);
      MovedKeys(entries, at.value);
      forall x { MovedMembers(entries, at.value, x); }
      entries := entries[..at.value] + entries[at.value + 1..];
      entries := entries + [e];
      trace := trace + [key];
      value := Some(e.1);
    }
  }

  // ---------- walking a derivation path ----------

  /** The result of a walk; AssertionFailed is a level outside 0 .. 2^32 - 1. */
  datatype Derived<Key> = Derived(key: Key) | AssertionFailed

  const LEVEL_LIMIT: int := 0x1_0000_0000

  /** Plain derivation: fold the child derivation function over the levels. */
  function Derive<Key>(ckd: (Key, int) -> Key, key: Key, levels: seq<int>): Derived<Key> {
    if levels == [] then Derived(key)
    else if 0 <= levels[0] < LEVEL_LIMIT then Derive(ckd, ckd(key, levels[0]), levels[1..])
    else AssertionFailed
  }

  /** Derivation fails exactly on a level that does not fit into 32 bits. */
  lemma {:induction false} DeriveFailsIff<Key>(ckd: (Key, int) -> Key, key: Key, levels: seq<int>)
    ensures Derive(ckd, key, levels).AssertionFailed? <==> exists i :: 0 <= i < |levels| && !(0 <= levels[i] <= 0xffff_ffff)
  {
    if levels != [] && 0 <= levels[0] < LEVEL_LIMIT {
      var rest := levels[1..];
      DeriveFailsIff(ckd, ckd(key, levels[0]), rest);
      if i :| 0 <= i < |levels| && !(0 <= levels[i] <= 0xffff_ffff) {
        assert rest[i - 1] == levels[i];
      }
      if i :| 0 <= i < |rest| && !(0 <= rest[i] <= 0xffff_ffff) {
        assert levels[i + 1] == rest[i];
      }
    }
  }

  /** The (key, level) pairs that plain derivation passes through. */
  function Visited<Key>(ckd: (Key, int) -> Key, key: Key, levels: seq<int>): seq<(Key, int)> {
    if levels == [] || !(0 <= levels[0] < LEVEL_LIMIT) then []
    else [(key, levels[0])] + Visited(ckd, ckd(key, levels[0]), levels[1..])
  }

  /** Every cached value is what child derivation gives for its key. */
  ghost predicate Coherent<Key>(ckd: (Key, int) -> Key, entries: seq<((Key, int), Key)>) {
    forall i :: 0 <= i < |entries| ==> entries[i].1 == ckd(entries[i].0.0, entries[i].0.1)
  }

  lemma CoherentGrow<Key>(ckd: (Key, int) -> Key, entries: seq<((Key, int), Key)>,
                          entries': seq<((Key, int), Key)>, e: ((Key, int), Key))
    requires Coherent(ckd, entries) && e.1 == ckd(e.0.0, e.0.1)
    requires forall x :: x in entries' ==> x in entries || x == e
    ensures Coherent(ckd, entries')
  {
    forall i | 0 <= i < |entries'| ensures entries'[i].1 == ckd(entries'[i].0.0, entries'[i].0.1) {
      assert entries'[i] in entries';
    }
  }

  /** Accessing the same pair again right away leaves the recency order as it is. */
  lemma RecencyTwice<T(!new)>(trace: seq<T>, x: T)
    ensures Recency(trace + [x] + [x]) == Recency(trace + [x])
  {
    RecencyAppend(trace, x);
    RecencyAppend(trace + [x], x);
    var r := Without(Recency(trace), x);
    WithoutConcat(r, [x], x);
    WithoutAbsent(r, x);
  }

  /** Recency after more accesses depends only on the recency order before them. */
  lemma {:induction false} RecencyExtend<T(!new)>(a: seq<T>, b: seq<T>, more: seq<T>)
    requires Recency(a) == Recency(b)
    ensures Recency(a + more) == Recency(b + more)
    decreases |more|
  {
    if more == [] {
      assert a + more == a && b + more == b;
    } else {
      RecencyAppend(a, more[0]);
      RecencyAppend(b, more[0]);
      RecencyExtend(a + [more[0]], b + [more[0]], more[1..]);
      assert a + more == a + [more[0]] + more[1..] && b + more == b + [more[0]] + more[1..];
    }
  }

  /** One level: the child key comes from the cache if it is there, and is in the cache as the
      most recent entry afterwards. */
  method Step<Key(==,!new)>(cache: SimpleLruCache<(Key, int), Key>, ckd: (Key, int) -> Key, key: Key, lvl: int)
    returns (child: Key)
    requires cache.Valid() && Coherent(ckd, cache.entries)
    modifies cache
    ensures cache.Valid() && Coherent(ckd, cache.entries)
    ensures child == ckd(key, lvl)
    ensures Recency(cache.trace) == Recency(old(cache.trace) + [(key, lvl)])
  {
    hide KeysOf, Recency;
    var k := (key, lvl);
    if k !in KeysOf(cache.entries) {
      ghost var was := cache.entries;
      cache.SetItem(k, ckd(key, lvl));
      CoherentGrow(ckd, was, cache.entries, (k, ckd(key, lvl)));
      RecencyTwice(old(cache.trace), k);
    }
    ghost var before := cache.entries;
    var value := cache.GetItem(k);
    child := value.value;
    CoherentGrow(ckd, before, cache.entries, (k, child));
  }

  /** The cached walk computes the plain derivation, from any coherent cache and along any
      path, and leaves the cache holding the last `maxSize` distinct pairs visited by all
      walks so far. */
  method WalkBip32Path<Key(==,!new)>(cache: SimpleLruCache<(Key, int), Key>, ckd: (Key, int) -> Key,
                                     masterKey: Key, path: seq<int>)
    returns (r: Derived<Key>)
    requires cache.Valid() && Coherent(ckd, cache.entries)
    modifies cache
    ensures cache.Valid() && Coherent(ckd, cache.entries)
    ensures r == Derive(ckd, masterKey, if path == [] then [] else path[1..])
    ensures Recency(cache.trace) ==
            Recency(old(cache.trace) + Visited(ckd, masterKey, if path == [] then [] else path[1..]))
  {
    hide Recency, Coherent;
    var levels := if path == [] then [] else path[1..];
    var key := masterKey;
    for i := 0 to |levels|
      invariant cache.Valid() && Coherent(ckd, cache.entries)
      invariant Derive(ckd, masterKey, levels) == Derive(ckd, key, levels[i..])
      invariant Recency(old(cache.trace) + Visited(ckd, masterKey, levels))
             == Recency(cache.trace + Visited(ckd, key, levels[i..]))
    {
      var lvl := levels[i];
      if !(0 <= lvl < LEVEL_LIMIT) {
        assert cache.trace + Visited(ckd, key, levels[i..]) == cache.trace;
        return AssertionFailed;
      }
      ghost var trace := cache.trace;
      var child := Step(cache, ckd, key, lvl);
      ghost var rest := Visited(ckd, child, levels[i + 1..]);
      assert levels[i..][1..] == levels[i + 1..];
      assert trace + Visited(ckd, key, levels[i..]) == trace + [(key, lvl)] + rest;
      RecencyExtend(trace + [(key, lvl)], cache.trace, rest);
      key := child;
    }
    assert cache.trace + Visited(ckd, key, levels[|levels|..]) == cache.trace;
    r := Derived(key);
  }
}
