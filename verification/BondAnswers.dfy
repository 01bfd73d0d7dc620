/** What requests for fidelity bond data are answered (scripts/obwatch/ob-watcher.py). */
module BondAnswers {
  // All statements are about arbitrary interleavings: a run, and the steps of it that matter.

  import opened Wrappers
  import opened BondCache

  /** The state in which the `k`-th event of a run happens. */
  function Before(run: seq<Event>, k: nat): State
    requires k <= |run|
  {
    Execute(INITIAL, run[..k])
  }

  /** Event `k` is a step of thread `i`. */
  ghost predicate Steps(run: seq<Event>, k: nat, i: nat) {
    k < |run| && run[k].Run? && run[k].thread == i && i < |Before(run, k).threads|
  }

  /** Thread `i` came to be as a request for `visible`. */
  ghost predicate Arrives(run: seq<Event>, k: nat, i: nat, visible: Visible, wait: bool) {
    k < |run| && run[k] == Arrive(visible, wait) && |Before(run, k).threads| == i
  }

  ghost predicate QueryFails(run: seq<Event>, k: nat, i: nat) {
    Steps(run, k, i) && Before(run, k).threads[i].Query? && run[k].choice.fails
  }

  ghost predicate CalculationFails(run: seq<Event>, k: nat, i: nat) {
    Steps(run, k, i) && Before(run, k).threads[i].Work? && run[k].choice.fails
  }

  ghost predicate SpawnFails(run: seq<Event>, k: nat, i: nat) {
    Steps(run, k, i) && Before(run, k).threads[i].Spawn? && run[k].choice.fails
  }

  /** Event `k` is thread `i` calculating `data`. */
  ghost predicate Computes(run: seq<Event>, k: nat, i: nat, data: Data) {
    && Steps(run, k, i) && Before(run, k).threads[i].Work? && !run[k].choice.fails
    && data == Computed(Before(run, k).threads[i].key, run[k].choice.payload)
  }

  /** Event `k` is thread `i` storing something for `key`. */
  ghost predicate Stores(run: seq<Event>, k: nat, i: nat, key: CacheKey) {
    Steps(run, k, i) && Before(run, k).threads[i].Store? && Before(run, k).threads[i].key == key
  }

  ghost predicate StoresOther(run: seq<Event>, k: nat, key: CacheKey) {
    exists i, other :: Stores(run, k, i, other) && other != key
  }

  ghost predicate Rereads(run: seq<Event>, k: nat, i: nat, key: CacheKey) {
    Steps(run, k, i) && Before(run, k).threads[i] == Reread(key)
  }

  ghost predicate Peeks(run: seq<Event>, k: nat, i: nat, visible: Visible) {
    Steps(run, k, i) && Before(run, k).threads[i] == Peek(visible)
  }

  // ---------- one more event ----------

  /** What happened before does not depend on what comes after. */
  lemma BeforeKept(run: seq<Event>, e: Event)
    ensures forall k: nat :: k <= |run| ==> Before(run + [e], k) == Before(run, k)
    ensures Execute(INITIAL, run + [e]) == Step(Execute(INITIAL, run), e)
    ensures Before(run, |run|) == Execute(INITIAL, run)
  {
    assert (run + [e])[..|run|] == run && run[..|run|] == run;
    forall k: nat | k <= |run| ensures Before(run + [e], k) == Before(run, k) {
      assert (run + [e])[..k] == run[..k];
    }
  }

  // ---------- data comes from calculations ----------

  ghost predicate Genuine(run: seq<Event>, d: Data) {
    d.Computed? ==> exists k, i :: Computes(run, k, i, d)
  }

  ghost predicate ThreadGenuine(run: seq<Event>, t: Thread) {
    match t
    case Begin(v, cached) => Genuine(run, OrEmpty(cached))
    case Spawn(v, cached) => Genuine(run, OrEmpty(cached))
    case Reply(v, cached) => Genuine(run, OrEmpty(cached))
    case Store(key, data, claim) => Genuine(run, data) && data.Computed? && data.key == key
    case Returned(v, exact, result) => Genuine(run, result)
    case _ => true
  }

  ghost predicate AllGenuine(run: seq<Event>) {
    var s := Execute(INITIAL, run);
    && (s.cache.Some? ==>
          var c := s.cache.value; Genuine(run, c.value) && c.value.Computed? && c.value.key == c.key)
    && forall i :: 0 <= i < |s.threads| ==> ThreadGenuine(run, s.threads[i])
  }

  lemma GenuineKept(run: seq<Event>, e: Event)
    ensures forall d :: Genuine(run, d) ==> Genuine(run + [e], d)
    ensures forall t :: ThreadGenuine(run, t) ==> ThreadGenuine(run + [e], t)
  {
    BeforeKept(run, e);
    hide Execute, Before;
    forall d | Genuine(run, d) ensures Genuine(run + [e], d) {
      if d.Computed? {
        var k, i :| Computes(run, k, i, d);
        assert Computes(run + [e], k, i, d);
      }
    }
  }

  /** Over every interleaving: all data that is stored, on its way or answered was calculated,
      with success, for the key it carries. */
  lemma {:induction false} DataIsCalculated(run: seq<Event>)
    ensures AllGenuine(run)
  {
    if run != [] {
      var n := |run| - 1;
      var before, e := run[..n], run[n];
      assert run == before + [e];
      DataIsCalculated(before);
      BeforeKept(before, e);
      GenuineKept(before, e);
      GenuineStep(before, e);
    }
  }

  lemma GenuineStep(run: seq<Event>, e: Event)
    requires AllGenuine(run)
    ensures AllGenuine(run + [e])
  {
    BeforeKept(run, e);
    GenuineKept(run, e);
    var s := Execute(INITIAL, run);
    hide Execute, Genuine;
    EmptyGenuine(run + [e]);
    if e.Run? && e.thread < |s.threads| {
      var t := s.threads[e.thread];
      assert ThreadGenuine(run, t);
      if t.Work? && !e.choice.fails {
        CalculatedGenuine(run, e);
      }
    }
  }

  lemma EmptyGenuine(run: seq<Event>)
    ensures Genuine(run, Empty)
  {}

  lemma CalculatedGenuine(run: seq<Event>, e: Event)
    requires e.Run? && e.thread < |Execute(INITIAL, run).threads| && !e.choice.fails
    requires Execute(INITIAL, run).threads[e.thread].Work?
    ensures Genuine(run + [e], Computed(Execute(INITIAL, run).threads[e.thread].key, e.choice.payload))
  {
    BeforeKept(run, e);
    hide Execute, Before;
    assert Computes(run + [e], |run|, e.thread,
                      Computed(Before(run, |run|).threads[e.thread].key, e.choice.payload));
  }

  // ---------- keys are what the node answered ----------

  /** Thread `i` asked the node about `key.visible` and this is what it was told. */
  ghost predicate Told(run: seq<Event>, k: nat, i: nat, key: CacheKey) {
    && Steps(run, k, i) && !run[k].choice.fails
    && (Before(run, k).threads[i] == Query(key.visible) || Before(run, k).threads[i] == Fetch(key.visible))
    && run[k].choice.blocks == key.blocks && run[k].choice.mediantime == key.mediantime
    && run[k].choice.interestRate == key.interestRate
  }

  /** The cache key that a thread works with, once it has one. */
  function KeyOf(t: Thread): Option<CacheKey> {
    match t
    case Check(key) => Some(key)
    case Work(key, _) => Some(key)
    case Store(key, _, _) => Some(key)
    case Release(key, _) => Some(key)
    case Reread(key) => Some(key)
    case Returned(_, exact, _) => exact
    case _ => None
  }

  ghost predicate KeyTold(run: seq<Event>, t: Thread, i: nat) {
    KeyOf(t).Some? ==> exists k: nat :: Told(run, k, i, KeyOf(t).value)
  }

  lemma ToldKept(run: seq<Event>, e: Event, t: Thread, i: nat)
    requires KeyTold(run, t, i)
    ensures KeyTold(run + [e], t, i)
  {
    BeforeKept(run, e);
    hide Execute, Before;
    if KeyOf(t).Some? {
      var k: nat :| Told(run, k, i, KeyOf(t).value);
      assert Told(run + [e], k, i, KeyOf(t).value);
    }
  }

  /** A step keeps the thread's key, or gives it the one the node answers with. */
  lemma KeyMoves(s: State, e: Event, i: nat)
    requires i < |s.threads| && e.Run? && e.thread == i
    ensures i < |Step(s, e).threads|
    ensures var t, c, key := s.threads[i], e.choice, KeyOf(Step(s, e).threads[i]);
      || key.None? || key == KeyOf(t)
      || (!c.fails && (t == Query(key.value.visible) || t == Fetch(key.value.visible))
          && key.value == CacheKey(c.blocks, c.mediantime, c.interestRate, key.value.visible))
  {}

  lemma NewHaveNoKey(s: State, e: Event, i: nat)
    requires |s.threads| <= i < |Step(s, e).threads|
    ensures KeyOf(Step(s, e).threads[i]).None?
  {}

  /** Over every interleaving: the cache key a thread works with, and answers for, is made of
      what the node and the configuration told that very thread. */
  lemma {:induction false} KeysAreTold(run: seq<Event>, i: nat)
    requires i < |Execute(INITIAL, run).threads|
    ensures KeyTold(run, Execute(INITIAL, run).threads[i], i)
  {
    var n := |run| - 1;
    var before, e := run[..n], run[n];
    assert run == before + [e];
    BeforeKept(before, e);
    var s := Execute(INITIAL, before);
    hide Execute, Before, Step, KeyOf;
    if i >= |s.threads| {
      NewHaveNoKey(s, e, i);
    } else {
      KeysAreTold(before, i);
      ToldKept(before, e, s.threads[i], i);
      if e.Run? && e.thread == i {
        KeyMoves(s, e, i);
        var key := KeyOf(Step(s, e).threads[i]);
        if key.Some? && key != KeyOf(s.threads[i]) {
          KeyToldNow(before, e, i, key.value);
        }
      } else {
        OthersStay(s, e, i);
      }
    }
  }

  lemma KeyToldNow(run: seq<Event>, e: Event, i: nat, key: CacheKey)
    requires e.Run? && e.thread == i && i < |Execute(INITIAL, run).threads| && !e.choice.fails
    requires var t := Execute(INITIAL, run).threads[i]; t == Query(key.visible) || t == Fetch(key.visible)
    requires key == CacheKey(e.choice.blocks, e.choice.mediantime, e.choice.interestRate, key.visible)
    ensures Told(run + [e], |run|, i, key)
  {
    BeforeKept(run, e);
    hide Execute, Before;
  }

  // ---------- the cache is what was stored last ----------

  ghost predicate LastStore(run: seq<Event>, k: nat) {
    && k < |run| && run[k].Run? && Steps(run, k, run[k].thread) && Before(run, k).threads[run[k].thread].Store?
    && forall m: nat, i, key :: Stores(run, m, i, key) ==> m <= k
  }

  /** What the store at event `k` puts into the cache. */
  ghost function StoredAt(run: seq<Event>, k: nat): Entry
    requires LastStore(run, k)
  {
    var t := Before(run, k).threads[run[k].thread];
    Entry(t.key, t.key.visible, t.data, run[k].choice.now)
  }

  /** The cache is empty until something is stored, and then holds what was stored last. */
  lemma {:induction false} CacheIsLastStore(run: seq<Event>)
    ensures var c := Execute(INITIAL, run).cache;
      if c.None? then forall k: nat, i, key :: !Stores(run, k, i, key)
      else exists k: nat :: LastStore(run, k) && c.value == StoredAt(run, k)
  {
    if run != [] {
      var n := |run| - 1;
      var before, e := run[..n], run[n];
      assert run == before + [e];
      CacheIsLastStore(before);
      BeforeKept(before, e);
      var s := Execute(INITIAL, before);
      StoringStep(s, e);
      hide Execute, Before, Step;
      forall k: nat, i, key | Stores(run, k, i, key) && k < n ensures Stores(before, k, i, key) {}
      if e.Run? && e.thread < |s.threads| && s.threads[e.thread].Store? {
        assert Stores(run, n, e.thread, s.threads[e.thread].key);
        assert LastStore(run, n);
      } else if s.cache.Some? {
        var k: nat :| LastStore(before, k) && s.cache.value == StoredAt(before, k);
        assert LastStore(run, k);
      }
    }
  }

  lemma StoringStep(s: State, e: Event)
    ensures Step(s, e).cache ==
      if e.Run? && e.thread < |s.threads| && s.threads[e.thread].Store? then
        var t := s.threads[e.thread];
        Some(Entry(t.key, t.key.visible, t.data, e.choice.now))
      else s.cache
  {}

  // ---------- requests that wait ----------

  /** Another key was stored between the request's own store and its rereading of the cache. */
  ghost predicate Displaced(run: seq<Event>, i: nat, key: CacheKey) {
    exists a: nat, b: nat, r: nat :: a < b < r && Stores(run, a, i, key) && StoresOther(run, b, key) && Rereads(run, r, i, key)
  }

  ghost predicate CalculationFailed(run: seq<Event>, i: nat) {
    exists k :: CalculationFails(run, k, i)
  }

  ghost predicate StoredOver(run: seq<Event>, a: nat, key: CacheKey) {
    exists b: nat :: a < b && StoresOther(run, b, key)
  }

  /** The request's data is in the cache, unless there is a reason. */
  ghost predicate Kept(run: seq<Event>, i: nat, key: CacheKey) {
    || CalculationFailed(run, i)
    || exists a :: Stores(run, a, i, key) && (CheckHit(Execute(INITIAL, run), key) || StoredOver(run, a, key))
  }

  ghost predicate WaitingOk(run: seq<Event>, i: nat, visible: Visible) {
    var s := Execute(INITIAL, run);
    i < |s.threads| && WaitingAt(run, s.threads[i], i, visible)
  }

  ghost predicate WaitingAt(run: seq<Event>, t: Thread, i: nat, visible: Visible) {
    match t
    case Query(v) => v == visible
    case Check(key) => key.visible == visible
    case Work(key, claim) => key.visible == visible && claim.None?
    case Store(key, data, claim) => key.visible == visible && claim.None?
    case Release(key, claim) => key.visible == visible && claim.None? && Kept(run, i, key)
    case Reread(key) => key.visible == visible && Kept(run, i, key)
    case Returned(v, exact, result) =>
      && v == visible && exact.Some? && exact.value.visible == visible
      && (result.Computed? ==> result.key == exact.value)
      && (result.Computed? || CalculationFailed(run, i) || Displaced(run, i, exact.value))
    case Ended => exists k :: QueryFails(run, k, i)
    case _ => false
  }

  lemma ReasonsKept(run: seq<Event>, e: Event, i: nat)
    ensures CalculationFailed(run, i) ==> CalculationFailed(run + [e], i)
    ensures (exists k :: QueryFails(run, k, i)) ==> exists k :: QueryFails(run + [e], k, i)
    ensures forall key :: Displaced(run, i, key) ==> Displaced(run + [e], i, key)
  {
    BeforeKept(run, e);
    hide Execute, Before;
    if CalculationFailed(run, i) {
      var k :| CalculationFails(run, k, i);
      assert CalculationFails(run + [e], k, i);
    }
    if k :| QueryFails(run, k, i) {
      assert QueryFails(run + [e], k, i);
    }
    forall key | Displaced(run, i, key) ensures Displaced(run + [e], i, key) {
      var a: nat, b: nat, r: nat :| a < b < r && Stores(run, a, i, key) && StoresOther(run, b, key) && Rereads(run, r, i, key);
      StoresOtherKept(run, e, b, key);
      assert Stores(run + [e], a, i, key) && Rereads(run + [e], r, i, key);
    }
  }

  lemma StoresOtherKept(run: seq<Event>, e: Event, b: nat, key: CacheKey)
    requires StoresOther(run, b, key)
    ensures StoresOther(run + [e], b, key)
  {
    BeforeKept(run, e);
    hide Execute, Before;
    var i, other :| Stores(run, b, i, other) && other != key;
    assert Stores(run + [e], b, i, other);
  }

  lemma KeptKept(run: seq<Event>, e: Event, i: nat, key: CacheKey)
    requires Kept(run, i, key)
    ensures Kept(run + [e], i, key)
  {
    ReasonsKept(run, e, i);
    BeforeKept(run, e);
    var s := Execute(INITIAL, run);
    if CheckHit(s, key) && !CheckHit(Step(s, e), key) {
      CacheChange(run, e, key);
    }
    hide Execute, Before, Step, CheckHit, CalculationFailed, StoresOther;
    if !CalculationFailed(run, i) {
      var a: nat :| Stores(run, a, i, key) && (CheckHit(s, key) || StoredOver(run, a, key));
      assert Stores(run + [e], a, i, key);
      if StoredOver(run, a, key) {
        var b: nat :| a < b && StoresOther(run, b, key);
        StoresOtherKept(run, e, b, key);
      }
    }
  }

  /** Only storing another key takes a key out of the cache. */
  lemma CacheChange(run: seq<Event>, e: Event, key: CacheKey)
    requires var s := Execute(INITIAL, run); CheckHit(s, key) && !CheckHit(Step(s, e), key)
    ensures StoresOther(run + [e], |run|, key)
  {
    BeforeKept(run, e);
    var s := Execute(INITIAL, run);
    StoringStep(s, e);
    hide Execute, Before, Step;
    assert Stores(run + [e], |run|, e.thread, s.threads[e.thread].key);
  }

  lemma OthersStay(s: State, e: Event, i: nat)
    requires i < |s.threads| && !(e.Run? && e.thread == i)
    ensures i < |Step(s, e).threads| && Step(s, e).threads[i] == s.threads[i]
  {}

  lemma WaitingStep(run: seq<Event>, e: Event, i: nat, visible: Visible)
    requires WaitingOk(run, i, visible)
    ensures WaitingOk(run + [e], i, visible)
  {
    if e.Run? && e.thread == i {
      WaitingOwnStep(run, e, i, visible);
    } else {
      BeforeKept(run, e);
      ReasonsKept(run, e, i);
      var s := Execute(INITIAL, run);
      var t := s.threads[i];
      OthersStay(s, e, i);
      if t.Release? || t.Reread? {
        KeptKept(run, e, i, t.key);
      }
      hide Execute, Before, Kept, CalculationFailed, Displaced, Step, QueryFails;
    }
  }

  /** Where a waiting request is after a step of its own. */
  function NextWaiting(s: State, t: Thread, c: Choice): Thread {
    match t
    case Query(v) => if c.fails then Ended else Check(CacheKey(c.blocks, c.mediantime, c.interestRate, v))
    case Check(key) =>
      if CheckHit(s, key) then Returned(key.visible, Some(key), s.cache.value.value) else Work(key, None)
    case Work(key, claim) =>
      if c.fails then Release(key, claim) else Store(key, Computed(key, c.payload), claim)
    case Store(key, data, claim) => Release(key, claim)
    case Release(key, claim) => if claim.None? then Reread(key) else Ended
    case Reread(key) =>
      Returned(key.visible, Some(key), if CheckHit(s, key) then s.cache.value.value else Empty)
    case _ => t
  }

  lemma WaitingMoves(s: State, e: Event, i: nat)
    requires i < |s.threads| && e.Run? && e.thread == i
    requires s.threads[i].Query? || s.threads[i].Check? || s.threads[i].Work? || s.threads[i].Store?
      || s.threads[i].Release? || s.threads[i].Reread? || s.threads[i].Returned? || s.threads[i].Ended?
    ensures i < |Step(s, e).threads| && Step(s, e).threads[i] == NextWaiting(s, s.threads[i], e.choice)
    ensures s.threads[i].Store? ==> CheckHit(Step(s, e), s.threads[i].key)
  {}

  /** What the event adds to the reasons there are. */
  lemma NewReasons(run: seq<Event>, e: Event, i: nat)
    requires e.Run? && e.thread == i && i < |Execute(INITIAL, run).threads|
    ensures var t, run' := Execute(INITIAL, run).threads[i], run + [e];
      && (t.Query? && e.choice.fails ==> QueryFails(run', |run|, i))
      && (t.Work? && e.choice.fails ==> CalculationFails(run', |run|, i))
      && (t.Store? ==> Stores(run', |run|, i, t.key))
      && (t.Reread? ==> Rereads(run', |run|, i, t.key))
  {
    BeforeKept(run, e);
    hide Execute, Before;
  }

  lemma Lost(run: seq<Event>, e: Event, i: nat, key: CacheKey)
    requires Kept(run, i, key) && !CheckHit(Execute(INITIAL, run), key)
    requires Rereads(run + [e], |run|, i, key)
    ensures CalculationFailed(run, i) || Displaced(run + [e], i, key)
  {
    BeforeKept(run, e);
    hide Execute, Before, Rereads;
    if !CalculationFailed(run, i) {
      var a: nat :| Stores(run, a, i, key) && StoredOver(run, a, key);
      var b: nat :| a < b && StoresOther(run, b, key);
      StoresOtherKept(run, e, b, key);
      assert Stores(run + [e], a, i, key);
      assert b < |run|;
    }
  }

  lemma CacheHasData(run: seq<Event>)
    ensures var c := Execute(INITIAL, run).cache; c.Some? ==> c.value.value.Computed? && c.value.value.key == c.value.key
  {
    DataIsCalculated(run);
    hide Execute, Genuine;
  }

  lemma WaitingOwnStep(run: seq<Event>, e: Event, i: nat, visible: Visible)
    requires WaitingOk(run, i, visible) && e.Run? && e.thread == i
    ensures WaitingOk(run + [e], i, visible)
  {
    var s := Execute(INITIAL, run);
    BeforeKept(run, e);
    WaitingMoves(s, e, i);
    if s.threads[i].Store? || s.threads[i].Release? || s.threads[i].Reread? {
      LateStep(run, e, i, visible);
    } else {
      EarlyStep(run, e, i, visible);
    }
    hide Execute, WaitingAt, Step, NextWaiting;
  }

  lemma EarlyStep(run: seq<Event>, e: Event, i: nat, visible: Visible)
    requires WaitingOk(run, i, visible) && e.Run? && e.thread == i
    requires var t := Execute(INITIAL, run).threads[i]; !t.Store? && !t.Release? && !t.Reread?
    ensures var s := Execute(INITIAL, run); WaitingAt(run + [e], NextWaiting(s, s.threads[i], e.choice), i, visible)
  {
    CacheHasData(run);
    ReasonsKept(run, e, i);
    NewReasons(run, e, i);
    hide Execute, Before, Stores, Rereads, CalculationFails, QueryFails, Displaced;
  }

  lemma LateStep(run: seq<Event>, e: Event, i: nat, visible: Visible)
    requires WaitingOk(run, i, visible) && e.Run? && e.thread == i
    requires var t := Execute(INITIAL, run).threads[i]; t.Store? || t.Release? || t.Reread?
    ensures var s := Execute(INITIAL, run); WaitingAt(run + [e], NextWaiting(s, s.threads[i], e.choice), i, visible)
  {
    var s := Execute(INITIAL, run);
    var t := s.threads[i];
    BeforeKept(run, e);
    CacheHasData(run);
    ReasonsKept(run, e, i);
    NewReasons(run, e, i);
    WaitingMoves(s, e, i);
    if t.Release? {
      KeptKept(run, e, i, t.key);
    }
    if t.Reread? && !CheckHit(s, t.key) {
      Lost(run, e, i, t.key);
    }
    hide Execute, Before, Step, Stores, Rereads, CalculationFails, Displaced, StoredOver;
  }

  lemma {:induction false} WaitingAlways(run: seq<Event>, k: nat, i: nat, visible: Visible)
    requires Arrives(run, k, i, visible, true)
    ensures WaitingOk(run, i, visible)
  {
    var n := |run| - 1;
    var before, e := run[..n], run[n];
    assert run == before + [e];
    BeforeKept(before, e);
    if k < n {
      hide Execute, Before, WaitingOk;
      assert Arrives(before, k, i, visible, true);
      WaitingAlways(before, k, i, visible);
      WaitingStep(before, e, i, visible);
    }
  }

  // ---------- requests that do not wait ----------

  /** What the cache holds for some announcements. */
  function CachedFor(s: State, visible: Visible): Option<Data> {
    if s.cache.Some? && s.cache.value.visible == visible then Some(s.cache.value.value) else None
  }

  /** The request's first step found this. */
  ghost predicate Found(run: seq<Event>, i: nat, visible: Visible, cached: Option<Data>) {
    exists k: nat :: Peeks(run, k, i, visible) && cached == CachedFor(Before(run, k), visible)
  }

  ghost predicate PeekingAt(run: seq<Event>, t: Thread, i: nat, visible: Visible) {
    match t
    case Peek(v) => v == visible
    case Begin(v, cached) => v == visible && Found(run, i, visible, cached)
    case Spawn(v, cached) => v == visible && Found(run, i, visible, cached)
    case Reply(v, cached) => v == visible && Found(run, i, visible, cached)
    case Returned(v, exact, result) =>
      v == visible && exact.None? && exists cached :: Found(run, i, visible, cached) && result == OrEmpty(cached)
    case Ended => exists k :: SpawnFails(run, k, i)
    case _ => false
  }

  lemma FoundKept(run: seq<Event>, e: Event, t: Thread, i: nat, visible: Visible)
    requires PeekingAt(run, t, i, visible)
    ensures PeekingAt(run + [e], t, i, visible)
  {
    BeforeKept(run, e);
    hide Execute, Before;
    forall cached | Found(run, i, visible, cached) ensures Found(run + [e], i, visible, cached) {
      var k: nat :| Peeks(run, k, i, visible) && cached == CachedFor(Before(run, k), visible);
      assert Peeks(run + [e], k, i, visible);
    }
    if k :| SpawnFails(run, k, i) {
      assert SpawnFails(run + [e], k, i);
    }
  }

  lemma PeekingOwnStep(run: seq<Event>, e: Event, i: nat, visible: Visible)
    requires e.Run? && e.thread == i && i < |Execute(INITIAL, run).threads|
    requires PeekingAt(run, Execute(INITIAL, run).threads[i], i, visible)
    ensures var s' := Execute(INITIAL, run + [e]);
      i < |s'.threads| && PeekingAt(run + [e], s'.threads[i], i, visible)
  {
    var s := Execute(INITIAL, run);
    BeforeKept(run, e);
    FoundKept(run, e, s.threads[i], i, visible);
    PeekFinds(run, e, i, visible);
    hide Execute, Found, Peeks, SpawnFails;
  }

  lemma PeekFinds(run: seq<Event>, e: Event, i: nat, visible: Visible)
    requires e.Run? && e.thread == i && i < |Execute(INITIAL, run).threads|
    ensures var s := Execute(INITIAL, run);
      && (s.threads[i] == Peek(visible) ==> Found(run + [e], i, visible, CachedFor(s, visible)))
      && (s.threads[i].Spawn? && e.choice.fails ==> SpawnFails(run + [e], |run|, i))
  {
    BeforeKept(run, e);
    hide Execute, Before;
    var s := Execute(INITIAL, run);
    if s.threads[i] == Peek(visible) {
      assert Peeks(run + [e], |run|, i, visible);
    }
  }

  lemma {:induction false} PeekingAlways(run: seq<Event>, k: nat, i: nat, visible: Visible)
    requires Arrives(run, k, i, visible, false)
    ensures i < |Execute(INITIAL, run).threads|
    ensures PeekingAt(run, Execute(INITIAL, run).threads[i], i, visible)
  {
    var n := |run| - 1;
    var before, e := run[..n], run[n];
    assert run == before + [e];
    BeforeKept(before, e);
    if k < n {
      hide Execute, Before, PeekingAt;
      assert Arrives(before, k, i, visible, false);
      PeekingAlways(before, k, i, visible);
      if e.Run? && e.thread == i {
        PeekingOwnStep(before, e, i, visible);
      } else {
        OthersStay(Execute(INITIAL, before), e, i);
        FoundKept(before, e, Execute(INITIAL, before).threads[i], i, visible);
      }
    }
  }

  // ---------- every request is answered ----------

  /** How many steps a thread has taken. */
  ghost function StepsOf(run: seq<Event>, i: nat): nat {
    if run == [] then 0
    else StepsOf(run[..|run| - 1], i) + if Steps(run, |run| - 1, i) then 1 else 0
  }

  /** How many more steps it can take. */
  function StepsLeft(t: Thread): nat {
    match t
    case Query(_) => 6
    case Check(_) => 5
    case Fetch(_) => 5
    case Work(_, _) => 4
    case Peek(_) => 4
    case Store(_, _, _) => 3
    case Begin(_, _) => 3
    case Release(_, _) => 2
    case Spawn(_, _) => 2
    case Reread(_) => 1
    case Reply(_, _) => 1
    case Failed(_) => 1
    case Returned(_, _, _) => 0
    case Ended => 0
  }

  lemma StepTaken(s: State, e: Event, i: nat)
    requires e.Run? && e.thread == i && i < |s.threads|
    ensures i < |Step(s, e).threads|
    ensures StepsLeft(s.threads[i]) > 0 ==> StepsLeft(Step(s, e).threads[i]) < StepsLeft(s.threads[i])
    ensures StepsLeft(s.threads[i]) == 0 ==> Step(s, e).threads[i] == s.threads[i]
  {}

  lemma NewThreads(s: State, e: Event, i: nat)
    requires |s.threads| <= i < |Step(s, e).threads|
    ensures StepsLeft(Step(s, e).threads[i]) <= 6
  {}

  /** No thread takes more than six steps, and it is at its end when it can take no more. */
  lemma {:induction false} SixSteps(run: seq<Event>, i: nat)
    ensures i >= |Execute(INITIAL, run).threads| ==> StepsOf(run, i) == 0
    ensures i < |Execute(INITIAL, run).threads| ==>
      var left := StepsLeft(Execute(INITIAL, run).threads[i]); left > 0 ==> left + StepsOf(run, i) <= 6
  {
    if run != [] {
      var n := |run| - 1;
      var before, e := run[..n], run[n];
      assert run == before + [e];
      SixSteps(before, i);
      BeforeKept(before, e);
      var s := Execute(INITIAL, before);
      hide Execute, Before, Step, StepsLeft;
      if i >= |s.threads| {
        if i < |Step(s, e).threads| {
          NewThreads(s, e, i);
        }
      } else if e.Run? && e.thread == i {
        StepTaken(s, e, i);
      } else {
        OthersStay(s, e, i);
      }
    }
  }

  lemma DoneAfterSix(run: seq<Event>, i: nat)
    requires i < |Execute(INITIAL, run).threads| && StepsOf(run, i) >= 6
    ensures var t := Execute(INITIAL, run).threads[i]; t.Returned? || t.Ended?
  {
    SixSteps(run, i);
    hide Execute, StepsOf;
  }

  /** Every request that waits is answered within six steps of its own, whatever else happens:
      with data for the key the node gave it, unless its own calculation failed or another key was
      stored between its store and its rereading.  It has no answer only if the node's failed. */
  lemma WaitingRequest(run: seq<Event>, k: nat, i: nat, visible: Visible)
    requires Arrives(run, k, i, visible, true) && StepsOf(run, i) >= 6
    ensures i < |Execute(INITIAL, run).threads|
    ensures var t := Execute(INITIAL, run).threads[i];
      || (t.Ended? && exists m :: QueryFails(run, m, i))
      || (t.Returned? && t.exact.Some? && t.exact.value.visible == visible
          && (exists m: nat :: Told(run, m, i, t.exact.value)) &&
          if t.result.Computed? then t.result.key == t.exact.value && Genuine(run, t.result)
          else CalculationFailed(run, i) || Displaced(run, i, t.exact.value))
  {
    WaitingAlways(run, k, i, visible);
    DoneAfterSix(run, i);
    DataIsCalculated(run);
    KeysAreTold(run, i);
    var s := Execute(INITIAL, run);
    assert ThreadGenuine(run, s.threads[i]);
    hide Execute, Genuine, QueryFails, Displaced, CalculationFailed, StepsOf, Told;
  }

  /** Every request that does not wait is answered within six steps of its own, with what the
      cache held for its announcements at its first step.  It has no answer only if it could
      not start a refresher. */
  lemma ImpatientRequest(run: seq<Event>, k: nat, i: nat, visible: Visible)
    requires Arrives(run, k, i, visible, false) && StepsOf(run, i) >= 6
    ensures i < |Execute(INITIAL, run).threads|
    ensures var t := Execute(INITIAL, run).threads[i];
      || (t.Ended? && exists m :: SpawnFails(run, m, i))
      || (t.Returned? && exists cached :: Found(run, i, visible, cached) && t.result == OrEmpty(cached))
  {
    PeekingAlways(run, k, i, visible);
    DoneAfterSix(run, i);
    hide Execute, SpawnFails, Found, StepsOf;
  }

  /** Two steps into a request that does not wait, a refresh for its announcements is claimed if
      and only if it was before, or the cache holds nothing of the last minute for them. */
  lemma RefreshClaimedIff(s: State, i: nat, visible: Visible, c: Choice, d: Choice)
    requires i < |s.threads| && s.threads[i] == Peek(visible)
    ensures var s' := Step(Step(s, Run(i, c)), Run(i, d));
      s'.refreshing == Some(visible) <==>
        || s.refreshing == Some(visible)
        || CachedFor(s, visible).None?
        || c.now - s.cache.value.updatedAt >= 60
    ensures var s' := Step(Step(s, Run(i, c)), Run(i, d));
      s'.refreshing != Some(visible) ==> s'.refreshing == s.refreshing
    ensures Step(Step(s, Run(i, c)), Run(i, d)).cache == s.cache
  {}
}
