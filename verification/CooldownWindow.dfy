/** The window that counts cooldowns (src/jmclient/maker_penalty_store.py). */
module CooldownWindow {
  // It is the tumbling window of `_record_single_stage2_cooldown`, for one maker.
  // `times` lists the moments at which one nick was put in cooldown, oldest first. Replaying
  // them gives the counter and window start stored in the nick's row; the auto-ban branch is
  // taken at an event when the counter then reaches the threshold.

  datatype Window = Window(count: nat, start: int)

  /** One cooldown at `now`: a window that never started or has run out is restarted. */
  function Step(w: Window, now: int, span: int): Window {
    if span > 0 && (w.start <= 0 || now - w.start > span) then Window(1, now)
    else Window(w.count + 1, w.start)
  }

  function Replay(times: seq<int>, span: int): Window {
    if times == [] then Window(0, 0)
    else Step(Replay(times[..|times| - 1], span), times[|times| - 1], span)
  }

  lemma ReplayEmpty(span: int)
    ensures Replay([], span) == Window(0, 0)
  {}

  /** Is the auto-ban branch taken at event `i`? */
  predicate Bans(times: seq<int>, i: nat, span: int, threshold: int)
    requires i < |times|
  {
    threshold > 0 && Replay(times[..i + 1], span).count >= threshold
  }

  /** A clock that is positive and never runs backwards. */
  predicate Clock(times: seq<int>) {
    && (forall i :: 0 <= i < |times| ==> times[i] > 0)
    && (forall i, j :: 0 <= i <= j < |times| ==> times[i] <= times[j])
  }

  /** The number of events at or after `from`. */
  function CountSince(times: seq<int>, from: int): nat {
    if times == [] then 0
    else CountSince(times[..|times| - 1], from) + (if times[|times| - 1] >= from then 1 else 0)
  }

  lemma {:induction false} CountSinceSuffix(times: seq<int>, from: int, s: nat)
    requires s <= |times| && forall k :: s <= k < |times| ==> times[k] >= from
    ensures CountSince(times, from) >= |times| - s
    ensures (forall k :: 0 <= k < s ==> times[k] < from) ==> CountSince(times, from) == |times| - s
    decreases |times|
  {
    if times != [] {
      var n := |times| - 1;
      CountSinceSuffix(times[..n], from, if s <= n then s else n);
    }
  }

  /** The index of the event that started the current window. */
  function Starter(times: seq<int>, span: int): (s: nat)
    requires times != []
    ensures s < |times|
    decreases |times|
  {
    var n := |times| - 1;
    if n == 0 then 0
    else
      var w := Replay(times[..n], span);
      if w.start <= 0 || times[n] - w.start > span then n else Starter(times[..n], span)
  }

  /** What the replayed window says about the log. */
  lemma {:induction false} WindowMeaning(times: seq<int>, span: int)
    requires Clock(times) && span > 0 && times != []
    ensures var s, w := Starter(times, span), Replay(times, span);
            && w.start == times[s] && w.count == |times| - s
            && times[|times| - 1] - times[s] <= span
            && (forall k :: 0 <= k < s ==> times[k] < times[s])
            && (s > 0 ==> times[s] - Replay(times[..s], span).start > span)
    decreases |times|
  {
    var n := |times| - 1;
    if n == 0 {
      assert Replay(times[..n], span) == Window(0, 0);
    } else {
      var before := times[..n];
      WindowMeaning(before, span);
      var s := Starter(before, span);
      assert before[..s] == times[..s];
      assert before[n - 1] == times[n - 1] && before[s] == times[s];
      assert forall k :: 0 <= k < n ==> before[k] == times[k];
    }
  }

  /** The counter is the number of logged cooldowns since the window start, and the window
      start is never further back than the window length. */
  lemma CounterCountsLog(times: seq<int>, span: int)
    requires Clock(times) && span > 0 && times != []
    ensures var w := Replay(times, span);
            && w.count == CountSince(times, w.start)
            && times[|times| - 1] - span <= w.start <= times[|times| - 1]
  {
    WindowMeaning(times, span);
    CountSinceSuffix(times, Replay(times, span).start, Starter(times, span));
  }

  /** No ban without cause: the branch is taken only if `threshold` cooldowns lie within
      the last `span` seconds. */
  lemma BanNeedsThreshold(times: seq<int>, span: int, threshold: int)
    requires Clock(times) && span > 0 && times != []
    requires Bans(times, |times| - 1, span, threshold)
    ensures CountSince(times, times[|times| - 1] - span) >= threshold
  {
    assert times[..|times|] == times;
    WindowMeaning(times, span);
    CountSinceSuffix(times, times[|times| - 1] - span, Starter(times, span));
  }

  /** The window of a prefix, for an event inside a longer log. */
  lemma PrefixWindow(times: seq<int>, k: nat, span: int)
    requires Clock(times) && span > 0 && k < |times|
    ensures Clock(times[..k + 1])
    ensures var s, w := Starter(times[..k + 1], span), Replay(times[..k + 1], span);
            && s <= k && w.start == times[s] && w.count == k + 1 - s
            && (s > 0 ==> times[s] - Replay(times[..s], span).start > span)
  {
    var p := times[..k + 1];
    WindowMeaning(p, span);
    assert p[..Starter(p, span)] == times[..Starter(p, span)];
  }

  lemma ClockOrder(times: seq<int>, i: nat, j: nat)
    requires Clock(times) && i < |times| && j < |times| && times[i] < times[j]
    ensures i < j
  {}

  lemma ClockMonotone(times: seq<int>, i: nat, j: nat)
    requires Clock(times) && i <= j < |times|
    ensures times[i] <= times[j]
  {}

  /** How many cooldowns within one window length always include one that bans. */
  function Unavoidable(threshold: int): int {
    if threshold <= 1 then 1 else 2 * threshold - 2
  }

  /** No escape: among any `Unavoidable(threshold)` consecutive cooldowns that lie within
      `span` seconds, at least one takes the auto-ban branch. */
  lemma BanUnavoidable(times: seq<int>, span: int, threshold: int, i: nat, j: nat) returns (k: nat)
    requires Clock(times) && span > 0 && threshold > 0
    requires i <= j < |times| && times[j] - times[i] <= span
    requires j - i + 1 >= Unavoidable(threshold)
    ensures i <= k <= j && Bans(times, k, span, threshold)
  {
    hide Replay, Starter, Clock;
    PrefixWindow(times, j, span);
    var s := Starter(times[..j + 1], span);
    if s <= i {
      k := j;
    } else {
      PrefixWindow(times, s - 1, span);
      var s' := Starter(times[..s], span);
      assert times[..s - 1 + 1] == times[..s];
      ClockMonotone(times, s, j);
      ClockOrder(times, s', i);
      if Replay(times[..j + 1], span).count >= threshold {
        k := j;
      } else {
        k := s - 1;
      }
    }
  }

  // ---------- the bound is tight ----------

  function Repeat(t: int, n: nat): (r: seq<int>)
    ensures |r| == n && forall i :: 0 <= i < n ==> r[i] == t
  {
    seq(n, _ => t)
  }

  /** One cooldown opens a window, `threshold - 2` come just before it runs out, and
      `threshold - 1` just after. */
  function Evasion(span: int, threshold: int): seq<int>
    requires threshold >= 2
  {
    [1] + Repeat(span + 1, threshold - 2) + Repeat(span + 2, threshold - 1)
  }

  lemma {:induction false} ReplayRepeat(times: seq<int>, t: int, n: nat, span: int)
    requires span > 0 && Replay(times, span).start > 0 && t - Replay(times, span).start <= span
    ensures Replay(times + Repeat(t, n), span)
         == Window(Replay(times, span).count + n, Replay(times, span).start)
  {
    var all := times + Repeat(t, n);
    if n == 0 {
      assert all == times;
    } else {
      ReplayRepeat(times, t, n - 1, span);
      assert all[..|all| - 1] == times + Repeat(t, n - 1);
    }
  }

  lemma FirstWindow(span: int, n: nat)
    requires span >= 1
    ensures Replay([1] + Repeat(span + 1, n), span) == Window(n + 1, 1)
  {
    var first: seq<int> := [1];
    assert first[..0] == [];
    assert Replay(first, span) == Window(1, 1);
    ReplayRepeat(first, span + 1, n, span);
  }

  lemma SecondWindow(span: int, n: nat, m: nat)
    requires span >= 1 && m >= 1
    ensures Replay([1] + Repeat(span + 1, n) + Repeat(span + 2, m), span) == Window(m, span + 2)
  {
    var head := [1] + Repeat(span + 1, n);
    FirstWindow(span, n);
    var next := head + [span + 2];
    assert next[..|head|] == head;
    assert Replay(next, span) == Window(1, span + 2);
    ReplayRepeat(next, span + 2, m - 1, span);
    assert head + Repeat(span + 2, m) == next + Repeat(span + 2, m - 1);
  }

  /** One cooldown fewer is not enough: the last `2 * threshold - 3` events of this log lie
      within one second and none of them bans. */
  lemma BoundIsTight(span: int, threshold: int)
    requires span >= 1 && threshold >= 2
    ensures var times := Evasion(span, threshold);
            && Clock(times) && |times| - 1 == Unavoidable(threshold) - 1 >= 1
            && times[|times| - 1] - times[1] <= span
            && forall k :: 0 <= k < |times| ==> !Bans(times, k, span, threshold)
  {
    hide Replay;
    var times := Evasion(span, threshold);
    forall k | 0 <= k < |times| ensures !Bans(times, k, span, threshold) {
      if k <= threshold - 2 {
        FirstWindow(span, k);
        assert times[..k + 1] == [1] + Repeat(span + 1, k);
      } else {
        var m := k + 2 - threshold;
        SecondWindow(span, threshold - 2, m);
        assert times[..k + 1] == [1] + Repeat(span + 1, threshold - 2) + Repeat(span + 2, m);
      }
    }
  }
}
