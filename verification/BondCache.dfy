/** The fidelity bond cache of the order book server (scripts/obwatch/ob-watcher.py). */
module BondCache {
  // Every thread is a small program counter machine. One step of a thread is one section
  // executed under the lock, or one unlocked action (asking the node, calculating, starting a
  // thread). A run is an arbitrary interleaving of such steps with the arrival of requests;
  // clock readings, node answers and failures are chosen freely at every step.

  import opened Wrappers

  /** The announcements visible to a request, in order; compared as a whole. */
  type Visible = seq<string>

  datatype CacheKey = CacheKey(blocks: int, mediantime: int, interestRate: int, visible: Visible)

  /** Bond data, together with the inputs it was calculated from. */
  datatype Data = Empty | Computed(key: CacheKey, payload: int)

  datatype Entry = Entry(key: CacheKey, visible: Visible, value: Data, updatedAt: int)

  /** Where a thread is.  The first four belong to requests that do not wait, the next two
      and Reread to requests that do, Fetch and Failed to refresher threads; Work, Store and
      Release are shared, `claim` being the refreshing key to give back. */
  datatype Thread =
    | Peek(visible: Visible)
    | Begin(visible: Visible, cached: Option<Data>)
    | Spawn(visible: Visible, cached: Option<Data>)
    | Reply(visible: Visible, cached: Option<Data>)
    | Query(visible: Visible)
    | Check(key: CacheKey)
    | Fetch(visible: Visible)
    | Work(key: CacheKey, claim: Option<Visible>)
    | Store(key: CacheKey, data: Data, claim: Option<Visible>)
    | Release(key: CacheKey, claim: Option<Visible>)
    | Reread(key: CacheKey)
    | Failed(visible: Visible)
    | Returned(visible: Visible, exact: Option<CacheKey>, result: Data)
    | Ended

  datatype State = State(cache: Option<Entry>, refreshing: Option<Visible>, threads: seq<Thread>)

  const INITIAL := State(None, None, [])

  /** What the environment decides at one step. */
  datatype Choice = Choice(now: int, blocks: int, mediantime: int, interestRate: int, payload: int, fails: bool)

  datatype Event = Arrive(visible: Visible, wait: bool) | Run(thread: nat, choice: Choice)

  const REFRESH_SECONDS: int := 60

  function OrEmpty(cached: Option<Data>): Data {
    match cached
    case None => Empty
    case Some(d) => d
  }

  function Moved(s: State, i: nat, t: Thread): State
    requires i < |s.threads|
  {
    s.(threads := s.threads[i := t])
  }

  function Cleared(s: State, visible: Visible): State {
    if s.refreshing == Some(visible) then s.(refreshing := None) else s
  }

  /** The first locked section of a request that does not wait. */
  function PeekStep(s: State, i: nat, visible: Visible, now: int): State
    requires i < |s.threads|
  {
    var hit := s.cache.Some? && s.cache.value.visible == visible;
    var cached := if hit then Some(s.cache.value.value) else None;
    var stale := if hit then now - s.cache.value.updatedAt >= REFRESH_SECONDS else true;
    var refreshNeeded := stale && s.refreshing != Some(visible);
    Moved(s, i, if refreshNeeded then Begin(visible, cached) else Reply(visible, cached))
  }

  function CheckHit(s: State, key: CacheKey): bool {
    s.cache.Some? && s.cache.value.key == key
  }

  /** One step of thread `i`. */
  function StepThread(s: State, i: nat, c: Choice): State
    requires i < |s.threads|
  {
    match s.threads[i]
    case Peek(v) => PeekStep(s, i, v, c.now)
    case Begin(v, cached) =>
      if s.refreshing == Some(v) then Moved(s, i, Reply(v, cached))
      else Moved(s.(refreshing := Some(v)), i, Spawn(v, cached))
    case Spawn(v, cached) =>
      if c.fails then Moved(s, i, Ended)
      else s.(threads := s.threads[i := Reply(v, cached)] + [Fetch(v)])
    case Reply(v, cached) => Moved(s, i, Returned(v, None, OrEmpty(cached)))
    case Query(v) =>
      if c.fails then Moved(s, i, Ended)
      else Moved(s, i, Check(CacheKey(c.blocks, c.mediantime, c.interestRate, v)))
    case Check(key) =>
      if CheckHit(s, key) then Moved(s, i, Returned(key.visible, Some(key), s.cache.value.value))
      else Moved(s, i, Work(key, None))
    case Fetch(v) =>
      if c.fails then Moved(s, i, Failed(v))
      else Moved(s, i, Work(CacheKey(c.blocks, c.mediantime, c.interestRate, v), Some(v)))
    case Work(key, claim) =>
      if c.fails then Moved(s, i, Release(key, claim))
      else Moved(s, i, Store(key, Computed(key, c.payload), claim))
    case Store(key, data, claim) =>
      Moved(s.(cache := Some(Entry(key, key.visible, data, c.now))), i, Release(key, claim))
    case Release(key, claim) =>
      (match claim
       case None => Moved(s, i, Reread(key))
       case Some(v) => Moved(Cleared(s, v), i, Ended))
    case Reread(key) =>
      Moved(s, i, Returned(key.visible, Some(key), if CheckHit(s, key) then s.cache.value.value else Empty))
    case Failed(v) => Moved(Cleared(s, v), i, Ended)
    case Returned(_, _, _) => s
    case Ended => s
  }

  function Step(s: State, e: Event): State {
    match e
    case Arrive(v, wait) => s.(threads := s.threads + [if wait then Query(v) else Peek(v)])
    case Run(i, c) => if i < |s.threads| then StepThread(s, i, c) else s
  }

  function Execute(s: State, run: seq<Event>): State {
    if run == [] then s else Step(Execute(s, run[..|run| - 1]), run[|run| - 1])
  }

  // ---------- answers belong to the question ----------

  predicate For(d: Data, visible: Visible) {
    d.Computed? ==> d.key.visible == visible
  }

  predicate Exactly(d: Data, key: CacheKey) {
    d.Computed? ==> d.key == key
  }

  ghost predicate ThreadSound(t: Thread) {
    match t
    case Begin(v, cached) => For(OrEmpty(cached), v)
    case Spawn(v, cached) => For(OrEmpty(cached), v)
    case Reply(v, cached) => For(OrEmpty(cached), v)
    case Work(key, claim) => claim.Some? ==> claim.value == key.visible
    case Store(key, data, claim) => Exactly(data, key) && (claim.Some? ==> claim.value == key.visible)
    case Release(key, claim) => claim.Some? ==> claim.value == key.visible
    case Returned(v, exact, result) => For(result, v) && (exact.Some? ==> Exactly(result, exact.value))
    case _ => true
  }

  ghost predicate Sound(s: State) {
    && (s.cache.Some? ==> s.cache.value.visible == s.cache.value.key.visible
                          && Exactly(s.cache.value.value, s.cache.value.key))
    && forall i :: 0 <= i < |s.threads| ==> ThreadSound(s.threads[i])
  }

  lemma StepSound(s: State, e: Event)
    requires Sound(s)
    ensures Sound(Step(s, e))
  {
    if e.Run? && e.thread < |s.threads| {
      assert ThreadSound(s.threads[e.thread]);
    }
  }

  /** Over every interleaving: a request is answered with empty data or with data that was
      calculated for the announcements it saw; a waiting request, for its full cache key. */
  lemma {:induction false} AnswersFit(run: seq<Event>)
    ensures Sound(Execute(INITIAL, run))
    ensures var s := Execute(INITIAL, run);
      forall i :: 0 <= i < |s.threads| && s.threads[i].Returned? ==>
        var t := s.threads[i];
        For(t.result, t.visible) && (t.exact.Some? ==> Exactly(t.result, t.exact.value))
  {
    if run != [] {
      AnswersFit(run[..|run| - 1]);
      StepSound(Execute(INITIAL, run[..|run| - 1]), run[|run| - 1]);
    }
    var s := Execute(INITIAL, run);
    forall i | 0 <= i < |s.threads| && s.threads[i].Returned?
      ensures var t := s.threads[i]; For(t.result, t.visible) && (t.exact.Some? ==> Exactly(t.result, t.exact.value))
    {
      assert ThreadSound(s.threads[i]);
    }
  }

  // ---------- a claimed refresh is always being served ----------

  /** Will this thread give the refreshing key `visible` back before it ends? */
  predicate Serves(t: Thread, visible: Visible) {
    match t
    case Spawn(v, _) => v == visible
    case Fetch(v) => v == visible
    case Work(_, claim) => claim == Some(visible)
    case Store(_, _, claim) => claim == Some(visible)
    case Release(_, claim) => claim == Some(visible)
    case Failed(v) => v == visible
    case _ => false
  }

  ghost predicate Served(s: State) {
    s.refreshing.Some? ==>
      exists i :: 0 <= i < |s.threads| && Serves(s.threads[i], s.refreshing.value)
  }

  /** No attempt to start a refresher thread fails at this step. */
  predicate StartsThreads(s: State, e: Event) {
    e.Run? && e.thread < |s.threads| && s.threads[e.thread].Spawn? ==> !e.choice.fails
  }

  ghost predicate ThreadsStart(s: State, run: seq<Event>) {
    forall k :: 0 <= k < |run| ==> StartsThreads(Execute(s, run[..k]), run[k])
  }

  lemma StepServed(s: State, e: Event)
    requires Served(s) && StartsThreads(s, e)
    ensures Served(Step(s, e))
  {
    var s' := Step(s, e);
    if s'.refreshing.Some? {
      var k := s'.refreshing.value;
      if s.refreshing == s'.refreshing {
        var i :| 0 <= i < |s.threads| && Serves(s.threads[i], k);
        if e.Run? && e.thread == i && s.threads[i].Spawn? {
          assert Serves(s'.threads[|s.threads|], k);
        } else {
          assert Serves(s'.threads[i], k);
        }
      } else {
        assert Serves(s'.threads[e.thread], k);
      }
    }
  }

  /** Over every interleaving in which threads can be started, a refreshing key that is set
      names a refresher that is running or just being started. */
  lemma {:induction false} RefreshServed(run: seq<Event>)
    requires ThreadsStart(INITIAL, run)
    ensures Served(Execute(INITIAL, run))
  {
    if run != [] {
      var before := run[..|run| - 1];
      forall k | 0 <= k < |before| ensures StartsThreads(Execute(INITIAL, before[..k]), before[k]) {
        assert before[..k] == run[..k];
      }
      RefreshServed(before);
      StepServed(Execute(INITIAL, before), run[|run| - 1]);
    }
  }

  // ---------- a refresh is never blocked for good ----------

  lemma {:induction false} ExecuteConcat(s: State, a: seq<Event>, b: seq<Event>)
    ensures Execute(s, a + b) == Execute(Execute(s, a), b)
    decreases |b|
  {
    if b == [] {
      assert a + b == a;
    } else {
      assert (a + b)[..|a + b| - 1] == a + b[..|b| - 1];
      ExecuteConcat(s, a, b[..|b| - 1]);
    }
  }

  const SMOOTH := Choice(0, 0, 0, 0, 0, false)

  /** How many steps a refresher thread is away from giving its key back. */
  function Distance(t: Thread): nat {
    match t
    case Fetch(_) => 4
    case Work(_, _) => 3
    case Store(_, _, _) => 2
    case _ => 1
  }

  lemma RefresherAdvances(s: State, i: nat, visible: Visible, c: Choice)
    requires i < |s.threads| && Serves(s.threads[i], visible) && !s.threads[i].Spawn?
    requires s.refreshing == Some(visible)
    ensures var s' := StepThread(s, i, c);
      if Distance(s.threads[i]) == 1 then s'.refreshing == None
      else s'.refreshing == s.refreshing && |s'.threads| == |s.threads| && !s'.threads[i].Spawn?
           && Serves(s'.threads[i], visible) && Distance(s'.threads[i]) < Distance(s.threads[i])
  {}

  /** A refresher gives its key back within four steps of its own, whatever the node answers
      and whichever of its calculations fail. */
  lemma {:induction false} RefresherReleases(s: State, i: nat, visible: Visible, choices: seq<Choice>)
    returns (run: seq<Event>)
    requires i < |s.threads| && Serves(s.threads[i], visible) && !s.threads[i].Spawn?
    requires s.refreshing == Some(visible) && |choices| >= Distance(s.threads[i])
    ensures |run| <= Distance(s.threads[i])
    ensures forall k :: 0 <= k < |run| ==> run[k] == Run(i, choices[k])
    ensures Execute(s, run).refreshing == None
    decreases |choices|
  {
    hide StepThread;
    RefresherAdvances(s, i, visible, choices[0]);
    var e := Run(i, choices[0]);
    if Distance(s.threads[i]) == 1 {
      run := [e];
    } else {
      var rest := RefresherReleases(Step(s, e), i, visible, choices[1..]);
      run := [e] + rest;
      ExecuteConcat(s, [e], rest);
    }
  }

  /** From every reachable state in which a refresh is claimed, the threads already there can
      complete it on their own: no new request is needed to unblock refreshing. */
  lemma NotBlocked(s: State)
    requires Served(s) && s.refreshing.Some?
    ensures exists run: seq<Event> :: |run| <= 5 && (forall k :: 0 <= k < |run| ==> run[k].Run?)
                          && Execute(s, run).refreshing == None
  {
    var v := s.refreshing.value;
    var i :| 0 <= i < |s.threads| && Serves(s.threads[i], v);
    hide Execute;
    var choices := [SMOOTH, SMOOTH, SMOOTH, SMOOTH];
    hide Step;
    if s.threads[i].Spawn? {
      var e := Run(i, SMOOTH);
      SpawnStarts(s, i, v);
      var rest := RefresherReleases(Step(s, e), |s.threads|, v, choices);
      ExecuteConcat(s, [e], rest);
      ExecuteOne(s, e);
      assert Execute(s, [e] + rest).refreshing == None;
    } else {
      var run := RefresherReleases(s, i, v, choices);
    }
  }

  lemma SpawnStarts(s: State, i: nat, v: Visible)
    requires i < |s.threads| && s.threads[i].Spawn? && Serves(s.threads[i], v) && s.refreshing == Some(v)
    ensures var s' := Step(s, Run(i, SMOOTH));
      |s'.threads| > |s.threads| && s'.threads[|s.threads|] == Fetch(v) && s'.refreshing == s.refreshing
  {}

  lemma ExecuteOne(s: State, e: Event)
    ensures Execute(s, [e]) == Step(s, e)
  {
    assert [e][..0] == [];
  }

  // ---------- one refresher at a time ----------

  predicate About(t: Thread, visible: Visible) {
    match t
    case Peek(v) => v == visible
    case Begin(v, _) => v == visible
    case Spawn(v, _) => v == visible
    case Fetch(v) => v == visible
    case Work(_, claim) => claim.Some? ==> claim.value == visible
    case Store(_, _, claim) => claim.Some? ==> claim.value == visible
    case Release(_, claim) => claim.Some? ==> claim.value == visible
    case Failed(v) => v == visible
    case _ => true
  }

  ghost predicate SingleFlight(s: State, visible: Visible) {
    && (s.refreshing.Some? ==> s.refreshing.value == visible)
    && (forall i :: 0 <= i < |s.threads| ==> About(s.threads[i], visible))
    && (forall i :: 0 <= i < |s.threads| && Serves(s.threads[i], visible) ==> s.refreshing == Some(visible))
    && (forall i, j :: 0 <= i < j < |s.threads| ==> !(Serves(s.threads[i], visible) && Serves(s.threads[j], visible)))
  }

  /** How one step of one thread can change who serves the key. */
  lemma ServiceMoves(s: State, i: nat, c: Choice, visible: Visible)
    requires i < |s.threads| && About(s.threads[i], visible)
    ensures var s' := StepThread(s, i, c);
      && |s.threads| <= |s'.threads| <= |s.threads| + 1
      && (forall j :: 0 <= j < |s.threads| && j != i ==> s'.threads[j] == s.threads[j])
      && About(s'.threads[i], visible)
      && (s'.refreshing == s.refreshing || s'.refreshing == Some(visible)
          || (s'.refreshing == None && (s.refreshing == Some(visible) ==>
              Serves(s.threads[i], visible) && !Serves(s'.threads[i], visible))))
      && (Serves(s'.threads[i], visible) ==>
            if Serves(s.threads[i], visible) then s'.refreshing == s.refreshing
            else s.refreshing != Some(visible) && s'.refreshing == Some(visible))
      && (|s'.threads| == |s.threads| + 1 ==>
            About(s'.threads[|s.threads|], visible) && s'.refreshing == s.refreshing
            && Serves(s.threads[i], visible) && !Serves(s'.threads[i], visible))
  {}

  lemma SingleFlightStep(s: State, visible: Visible, e: Event)
    requires SingleFlight(s, visible) && (e.Arrive? ==> e.visible == visible)
    ensures SingleFlight(Step(s, e), visible)
  {
    if e.Run? {
      if e.thread < |s.threads| {
        hide StepThread, Serves, About;
        assert About(s.threads[e.thread], visible);
        ServiceMoves(s, e.thread, e.choice, visible);
      }
    } else {
      var t := if e.wait then Query(e.visible) else Peek(e.visible);
      assert About(t, visible) && !Serves(t, visible);
    }
  }

  /** While all requests see the same announcements, at most one refresher exists at a time. */
  lemma {:induction false} OneRefresherAtATime(run: seq<Event>, visible: Visible)
    requires forall k :: 0 <= k < |run| && run[k].Arrive? ==> run[k].visible == visible
    ensures SingleFlight(Execute(INITIAL, run), visible)
  {
    if run != [] {
      OneRefresherAtATime(run[..|run| - 1], visible);
      SingleFlightStep(Execute(INITIAL, run[..|run| - 1]), visible, run[|run| - 1]);
    }
  }

  // ---------- what a failed thread start does ----------

  /** Nobody will give the claimed key back. */
  ghost predicate Abandoned(s: State, visible: Visible) {
    && s.refreshing == Some(visible)
    && forall i :: 0 <= i < |s.threads| ==> About(s.threads[i], visible) && !Serves(s.threads[i], visible)
  }

  /** The only thread that served the key ends when it fails to start a refresher. */
  lemma FailedStartAbandons(s: State, visible: Visible, e: Event)
    requires SingleFlight(s, visible) && !StartsThreads(s, e)
    ensures Abandoned(Step(s, e), visible)
  {
    assert About(s.threads[e.thread], visible) && Serves(s.threads[e.thread], visible);
  }

  /** Nothing that happens to threads and requests for the same announcements changes that:
      neither requests that wait nor any that do not. */
  lemma AbandonedStep(s: State, visible: Visible, e: Event)
    requires Abandoned(s, visible) && (e.Arrive? ==> e.visible == visible)
    ensures Abandoned(Step(s, e), visible)
  {
    var s' := Step(s, e);
    if e.Run? && e.thread < |s.threads| {
      ServiceMoves(s, e.thread, e.choice, visible);
      hide StepThread;
      assert !Serves(s.threads[e.thread], visible);
    }
  }

  /** From then on, however many requests for those announcements arrive, the key stays claimed
      and no refresher is ever started. */
  lemma {:induction false} AbandonedForever(s: State, visible: Visible, run: seq<Event>)
    requires Abandoned(s, visible)
    requires forall k :: 0 <= k < |run| && run[k].Arrive? ==> run[k].visible == visible
    ensures Abandoned(Execute(s, run), visible) && !Served(Execute(s, run))
  {
    if run != [] {
      AbandonedForever(s, visible, run[..|run| - 1]);
      AbandonedStep(Execute(s, run[..|run| - 1]), visible, run[|run| - 1]);
    }
  }

  /** Is a waiting request on its way to calculating bond data? */
  predicate Calculates(t: Thread) {
    t.Query? || t.Check? || t.Work? || t.Store?
  }

  /** Only waiting requests still renew the cache; without them its content stays for good. */
  lemma {:induction false} AbandonedCacheStays(s: State, visible: Visible, run: seq<Event>)
    requires Abandoned(s, visible) && forall i :: 0 <= i < |s.threads| ==> !Calculates(s.threads[i])
    requires forall k :: 0 <= k < |run| && run[k].Arrive? ==> run[k] == Arrive(visible, false)
    ensures var s' := Execute(s, run);
      s'.cache == s.cache && forall i :: 0 <= i < |s'.threads| ==> !Calculates(s'.threads[i])
  {
    if run != [] {
      var n := |run| - 1;
      AbandonedCacheStays(s, visible, run[..n]);
      AbandonedForever(s, visible, run[..n]);
      var u := Execute(s, run[..n]);
      if run[n].Run? && run[n].thread < |u.threads| {
        assert About(u.threads[run[n].thread], visible) && !Serves(u.threads[run[n].thread], visible);
      }
    }
  }

  lemma ExecuteNext(s: State, run: seq<Event>, k: nat)
    requires k < |run|
    ensures Execute(s, run[..k + 1]) == Step(Execute(s, run[..k]), run[k])
    ensures Execute(s, run) == Execute(Execute(s, run[..k + 1]), run[k + 1..])
  {
    assert run[..k + 1][..k] == run[..k];
    assert run == run[..k + 1] + run[k + 1..];
    ExecuteConcat(s, run[..k + 1], run[k + 1..]);
  }

  lemma AbandonedAfter(run: seq<Event>, visible: Visible, k: nat)
    requires forall j :: 0 <= j < |run| && run[j].Arrive? ==> run[j].visible == visible
    requires k < |run| && !StartsThreads(Execute(INITIAL, run[..k]), run[k])
    ensures Abandoned(Execute(INITIAL, run), visible) && !Served(Execute(INITIAL, run))
  {
    hide *;
    OneRefresherAtATime(run[..k], visible);
    FailedStartAbandons(Execute(INITIAL, run[..k]), visible, run[k]);
    ExecuteNext(INITIAL, run, k);
    AbandonedForever(Execute(INITIAL, run[..k + 1]), visible, run[k + 1..]);
  }

  /** Exactly when refreshing works: as long as all requests see the same announcements, a
      claimed key is being served after a run if and only if every refresher thread could be
      started during it; otherwise the key is abandoned. */
  lemma ServedIff(run: seq<Event>, visible: Visible)
    requires forall k :: 0 <= k < |run| && run[k].Arrive? ==> run[k].visible == visible
    ensures Served(Execute(INITIAL, run)) <==> ThreadsStart(INITIAL, run)
    ensures !ThreadsStart(INITIAL, run) ==> Abandoned(Execute(INITIAL, run), visible)
  {
    hide Step, StartsThreads, Served, Execute, Abandoned;
    if ThreadsStart(INITIAL, run) {
      RefreshServed(run);
    } else {
      var k :| 0 <= k < |run| && !StartsThreads(Execute(INITIAL, run[..k]), run[k]);
      AbandonedAfter(run, visible, k);
    }
  }

  /** A shortest run that ends so. */
  lemma FailedStartSticks(visible: Visible) returns (run: seq<Event>)
    ensures |run| == 4 && (forall k :: 0 <= k < |run| && run[k].Arrive? ==> run[k].visible == visible)
    ensures !ThreadsStart(INITIAL, run) && Abandoned(Execute(INITIAL, run), visible)
  {
    var fail := SMOOTH.(fails := true);
    run := [Arrive(visible, false), Run(0, SMOOTH), Run(0, SMOOTH), Run(0, fail)];
    var s1 := Step(INITIAL, run[0]);
    var s2 := Step(s1, run[1]);
    var s3 := Step(s2, run[2]);
    assert s1.threads == [Peek(visible)];
    assert s2.threads == [Begin(visible, None)];
    assert s3.threads == [Spawn(visible, None)];
    ExecuteConcat(INITIAL, [run[0]], [run[1]]);
    ExecuteConcat(INITIAL, [run[0]] + [run[1]], [run[2]]);
    assert run[..3] == [run[0]] + [run[1]] + [run[2]];
    assert !StartsThreads(Execute(INITIAL, run[..3]), run[3]);
    ServedIff(run, visible);
  }
}
