/** A taker's record of makers (src/jmclient/maker_penalty_store.py). */
module MakerPenalties {
  // The table `maker_penalties` is a map from nick to row, `maker_penalty_events` an
  // append-only sequence. Nicks are given already stripped of white space.

  import opened Sequences
  import opened CooldownWindow

  datatype Row = Row(
    cooldownUntil: int,
    cooldownCount: nat,
    windowStart: int,
    banned: bool,
    bannedUntil: int,
    banReason: string,
    lastStage: string,
    lastAttemptId: string,
    lastEventAt: int,
    updatedAt: int)

  datatype Kind = Cooldown | SoftFailure | Ban | Unban

  datatype Event = Event(
    nick: string,
    kind: Kind,
    stage: string,
    attemptId: string,
    createdAt: int,
    details: string)

  /** The policy settings that govern cooldowns and automatic bans, in seconds. */
  datatype Settings = Settings(cooldownSeconds: int, threshold: int, windowSeconds: int, autoBanSeconds: int)

  type Rows = map<string, Row>

  // ---------- queries ----------

  predicate InCooldown(row: Row, now: int) {
    row.cooldownUntil > now
  }

  predicate IsBanned(row: Row, now: int) {
    row.banned && (row.bannedUntil == 0 || row.bannedUntil > now)
  }

  function ActiveCooldowns(rows: Rows, now: int): set<string> {
    set nick | nick in rows && InCooldown(rows[nick], now)
  }

  function ActiveDbBans(rows: Rows, now: int): set<string> {
    set nick | nick in rows && IsBanned(rows[nick], now)
  }

  /** What is kept about a nick for diagnosis: the last event, and the reason of the last ban. */
  function LastEvent(rows: Rows, nick: string): (string, string, int) {
    if nick in rows then (rows[nick].lastStage, rows[nick].lastAttemptId, rows[nick].lastEventAt) else ("", "", 0)
  }

  function BanReason(rows: Rows, nick: string): string {
    if nick in rows then rows[nick].banReason else ""
  }

  /** Nothing is changed about what is kept for diagnosis. */
  ghost predicate SameDiagnosis(before: Rows, after: Rows) {
    forall nick :: LastEvent(after, nick) == LastEvent(before, nick) && BanReason(after, nick) == BanReason(before, nick)
  }

  // ---------- the log of one nick ----------

  /** The moments at which a nick was put in cooldown, according to the event log. */
  function CooldownTimes(events: seq<Event>, nick: string): seq<int> {
    if events == [] then []
    else
      var e := events[|events| - 1];
      CooldownTimes(events[..|events| - 1], nick)
      + (if e.nick == nick && e.kind == Cooldown then [e.createdAt] else [])
  }

  lemma {:induction false} CooldownTimesAppend(events: seq<Event>, e: Event, nick: string)
    ensures CooldownTimes(events + [e], nick) ==
            if e.nick == nick && e.kind == Cooldown then CooldownTimes(events, nick) + [e.createdAt]
            else CooldownTimes(events, nick)
  {
    assert (events + [e])[..|events|] == events;
  }

  /** Events carry positive, non-decreasing times, none of them after `now`. */
  ghost predicate Timely(events: seq<Event>, now: int) {
    && now > 0
    && (forall i :: 0 <= i < |events| ==> 0 < events[i].createdAt <= now)
    && (forall i, j :: 0 <= i <= j < |events| ==> events[i].createdAt <= events[j].createdAt)
  }

  lemma {:induction false} TimelyClock(events: seq<Event>, now: int, nick: string)
    requires Timely(events, now)
    ensures Clock(CooldownTimes(events, nick))
    ensures forall k :: 0 <= k < |CooldownTimes(events, nick)| ==> CooldownTimes(events, nick)[k] <= now
  {
    if events != [] {
      var n := |events| - 1;
      TimelyClock(events[..n], events[n].createdAt, nick);
    }
  }

  /** The counters of every row are what replaying that nick's cooldowns gives. */
  ghost predicate Consistent(rows: Rows, events: seq<Event>, span: int) {
    forall nick :: Agrees(rows, CooldownTimes(events, nick), nick, span)
  }

  ghost predicate Agrees(rows: Rows, times: seq<int>, nick: string, span: int) {
    if nick in rows then Window(rows[nick].cooldownCount, rows[nick].windowStart) == Replay(times, span)
    else times == []
  }

  /** Row and log stay in step when a nick's cooldown is logged and counted ... */
  lemma ConsistentWithCooldown(rows: Rows, events: seq<Event>, rows': Rows, e: Event, span: int)
    requires span > 0 ==> Consistent(rows, events, span)
    requires OnlyRow(rows, rows', e.nick) && e.kind == Cooldown && e.nick in rows'
    requires span > 0 ==> Window(rows'[e.nick].cooldownCount, rows'[e.nick].windowStart)
                          == Replay(CooldownTimes(events, e.nick) + [e.createdAt], span)
    ensures span > 0 ==> Consistent(rows', events + [e], span)
  {
    hide CooldownTimes, Replay;
    if span > 0 {
      forall nick ensures Agrees(rows', CooldownTimes(events + [e], nick), nick, span) {
        CooldownTimesAppend(events, e, nick);
        assert Agrees(rows, CooldownTimes(events, nick), nick, span);
      }
    }
  }

  /** ... and when anything else is logged and no counter moves. */
  lemma ConsistentWithOther(rows: Rows, events: seq<Event>, rows': Rows, e: Event, span: int)
    requires span > 0 ==> Consistent(rows, events, span)
    requires OnlyRow(rows, rows', e.nick) && e.kind != Cooldown
    requires e.nick in rows' ==>
      Window(rows'[e.nick].cooldownCount, rows'[e.nick].windowStart) ==
      if e.nick in rows then Window(rows[e.nick].cooldownCount, rows[e.nick].windowStart) else Window(0, 0)
    ensures span > 0 ==> Consistent(rows', events + [e], span)
  {
    hide CooldownTimes, Replay;
    ReplayEmpty(span);
    if span > 0 {
      forall nick ensures Agrees(rows', CooldownTimes(events + [e], nick), nick, span) {
        CooldownTimesAppend(events, e, nick);
        assert Agrees(rows, CooldownTimes(events, nick), nick, span);
      }
    }
  }

  // ---------- prune ----------

  function PruneRow(row: Row, now: int): Row {
    var row := if row.cooldownUntil > 0 && row.cooldownUntil <= now
               then row.(cooldownUntil := 0, updatedAt := now) else row;
    if row.banned && row.bannedUntil > 0 && row.bannedUntil <= now
    then row.(banned := false, bannedUntil := 0, updatedAt := now) else row
  }

  function PruneRows(rows: Rows, now: int): Rows {
    map nick | nick in rows :: PruneRow(rows[nick], now)
  }

  /** Pruning at `now` changes no answer asked about `now` or later; about an earlier moment
      `t` it forgets exactly what expired in between. */
  lemma PruneInvisible(rows: Rows, now: int, t: int)
    requires t >= 0
    ensures ActiveCooldowns(PruneRows(rows, now), t) ==
            set nick | nick in ActiveCooldowns(rows, t) && rows[nick].cooldownUntil > now
    ensures t >= now ==> ActiveCooldowns(PruneRows(rows, now), t) == ActiveCooldowns(rows, t)
    ensures t >= now ==> ActiveDbBans(PruneRows(rows, now), t) == ActiveDbBans(rows, t)
    ensures ActiveDbBans(PruneRows(rows, now), t) ==
            set nick | nick in ActiveDbBans(rows, t) && (rows[nick].bannedUntil <= 0 || rows[nick].bannedUntil > now)
  {
    hide PruneRow;
    forall nick | nick in rows
      ensures InCooldown(PruneRow(rows[nick], now), t) <==> InCooldown(rows[nick], t) && rows[nick].cooldownUntil > now
      ensures IsBanned(PruneRow(rows[nick], now), t) <==>
              IsBanned(rows[nick], t) && (rows[nick].bannedUntil <= 0 || rows[nick].bannedUntil > now)
    {
      PruneRowMeaning(rows[nick], now, t);
    }
  }

  lemma PruneRowMeaning(row: Row, now: int, t: int)
    requires t >= 0
    ensures InCooldown(PruneRow(row, now), t) <==> InCooldown(row, t) && row.cooldownUntil > now
    ensures IsBanned(PruneRow(row, now), t) <==>
            IsBanned(row, t) && (row.bannedUntil <= 0 || row.bannedUntil > now)
  {}

  // ---------- the upsert statements ----------

  /** The `INSERT ... ON CONFLICT(nick) DO UPDATE` of a cooldown: only a new ban touches the
      ban columns of an existing row. */
  function UpsertCooldown(rows: Rows, nick: string, cooldownUntil: int, w: Window, banned: bool,
                          bannedUntil: int, reason: string, attemptId: string, now: int): Rows {
    var row := Row(cooldownUntil, w.count, w.start, banned, bannedUntil, reason, "stage2", attemptId, now, now);
    rows[nick :=
      if nick in rows && !banned
      then row.(banned := rows[nick].banned, bannedUntil := rows[nick].bannedUntil, banReason := rows[nick].banReason)
      else row]
  }

  function SoftFailureRow(rows: Rows, nick: string, stage: string, attemptId: string, now: int): Row {
    var row := if nick in rows then rows[nick] else Row(0, 0, 0, false, 0, "", "", "", 0, 0);
    row.(lastStage := stage, lastAttemptId := attemptId, lastEventAt := now, updatedAt := now)
  }

  /** Every nick of a set gets its row for a soft failure; the other rows stay. */
  function UpsertSoftFailures(rows: Rows, nicks: set<string>, stage: string, attemptId: string, now: int): Rows {
    map nick | nick in rows.Keys + nicks ::
      if nick in nicks then SoftFailureRow(rows, nick, stage, attemptId, now) else rows[nick]
  }

  lemma SoftFailuresNone(rows: Rows, stage: string, attemptId: string, now: int)
    ensures UpsertSoftFailures(rows, {}, stage, attemptId, now) == rows
  {}

  lemma SoftFailuresMore(rows: Rows, nicks: set<string>, nick: string, stage: string, attemptId: string, now: int)
    requires nick !in nicks
    ensures var r := UpsertSoftFailures(rows, nicks, stage, attemptId, now);
      UpsertSoftFailures(rows, nicks + {nick}, stage, attemptId, now)
      == r[nick := SoftFailureRow(r, nick, stage, attemptId, now)]
  {}

  lemma SoftFailureCounts(rows: Rows, nick: string, stage: string, attemptId: string, now: int)
    ensures var row := SoftFailureRow(rows, nick, stage, attemptId, now);
      && OnlyRow(rows, rows[nick := row], nick)
      && Window(row.cooldownCount, row.windowStart)
         == if nick in rows then Window(rows[nick].cooldownCount, rows[nick].windowStart) else Window(0, 0)
  {}

  /** Soft failures neither ban anybody nor put anybody in cooldown, nor the reverse. */
  lemma SoftFailureAnswers(rows: Rows, nicks: set<string>, stage: string, attemptId: string, now: int)
    ensures var r := UpsertSoftFailures(rows, nicks, stage, attemptId, now);
      forall t :: t >= 0 ==>
        ActiveCooldowns(r, t) == ActiveCooldowns(rows, t) && ActiveDbBans(r, t) == ActiveDbBans(rows, t)
  {}

  /** The last event of the nicks named is the soft failure; no other nick's changes, and no ban's
      reason. */
  ghost predicate SoftFailuresNoted(before: Rows, after: Rows, nicks: set<string>, stage: string, attemptId: string,
                                    now: int) {
    forall nick ::
      && LastEvent(after, nick) == (if nick in nicks then (stage, attemptId, now) else LastEvent(before, nick))
      && BanReason(after, nick) == BanReason(before, nick)
  }

  lemma SoftFailuresNotedFor(rows: Rows, nicks: set<string>, stage: string, attemptId: string, now: int)
    ensures SoftFailuresNoted(rows, UpsertSoftFailures(rows, nicks, stage, attemptId, now), nicks, stage, attemptId, now)
  {}

  function UpsertBan(rows: Rows, nick: string, reason: string, until: int, now: int): Rows {
    var row := if nick in rows then rows[nick] else Row(0, 0, 0, false, 0, "", "", "", 0, 0);
    rows[nick := row.(banned := true, bannedUntil := until, banReason := reason, lastEventAt := now, updatedAt := now)]
  }

  function UpdateUnban(rows: Rows, nick: string, now: int): Rows {
    if nick in rows then rows[nick := rows[nick].(banned := false, bannedUntil := 0, updatedAt := now)] else rows
  }

  /** Nothing changes for other nicks. */
  ghost predicate OnlyRow(before: Rows, after: Rows, nick: string) {
    && before.Keys <= after.Keys <= before.Keys + {nick}
    && forall other :: other in before && other != nick ==> after[other] == before[other]
  }

  /** When an automatic ban ends; zero for never, or for no ban. */
  function BanEnd(banned: bool, autoBanSeconds: int, now: int): int {
    if !banned || autoBanSeconds <= 0 then 0 else now + autoBanSeconds
  }

  /** How a recorded cooldown changes the answers about its nick, at any later moment. */
  ghost predicate CooldownAnswers(before: Rows, after: Rows, nick: string, cooldownUntil: int,
                                  banned: bool, autoBanSeconds: int, now: int) {
    && OnlyRow(before, after, nick)
    && forall t :: t >= now ==>
         && (nick in ActiveCooldowns(after, t) <==> t < cooldownUntil)
         && (nick in ActiveDbBans(after, t) <==>
              if banned then autoBanSeconds <= 0 || t < now + autoBanSeconds
              else nick in ActiveDbBans(before, t))
  }

  lemma UpsertCooldownAnswers(rows: Rows, nick: string, cooldownUntil: int, w: Window, banned: bool,
                              autoBanSeconds: int, reason: string, attemptId: string, now: int)
    requires now > 0
    ensures CooldownAnswers(rows,
      UpsertCooldown(rows, nick, cooldownUntil, w, banned, BanEnd(banned, autoBanSeconds, now), reason, attemptId, now),
      nick, cooldownUntil, banned, autoBanSeconds, now)
  {}

  // ---------- what an automatic ban does to an existing one ----------

  /** The counter and window start that a cooldown at `now` gives a nick. */
  function CountedWindow(rows: Rows, nick: string, now: int, windowSeconds: int): Window {
    if nick !in rows then Window(1, now)
    else
      var count, start := rows[nick].cooldownCount, rows[nick].windowStart;
      if windowSeconds > 0 && (start <= 0 || now - start > windowSeconds) then Window(1, now)
      else Window(count + 1, start)
  }

  /** Will a cooldown at `now` ban the nick? */
  predicate AutoBans(rows: Rows, nick: string, now: int, settings: Settings) {
    settings.threshold > 0 && CountedWindow(rows, nick, now, settings.windowSeconds).count >= settings.threshold
  }

  /** Whoever would have been banned at some later moment still is. */
  ghost predicate BanKept(before: Rows, after: Rows, nick: string, now: int) {
    forall t :: t >= now && nick in ActiveDbBans(before, t) ==> nick in ActiveDbBans(after, t)
  }

  /** There is no new ban, it is permanent, there was no old one, or the old one ends first. */
  predicate OldBanEndsFirst(rows: Rows, nick: string, now: int, banned: bool, autoBanSeconds: int) {
    || !banned || autoBanSeconds <= 0 || nick !in ActiveDbBans(rows, now)
    || (rows[nick].bannedUntil != 0 && rows[nick].bannedUntil <= now + autoBanSeconds)
  }

  /** A recorded cooldown keeps an existing ban for its whole time if and only if the automatic
      ban, if there is one, lasts at least as long.  In particular a temporary automatic ban
      cuts short a permanent manual one. */
  lemma BanKeptIff(rows: Rows, after: Rows, nick: string, cooldownUntil: int, banned: bool, autoBanSeconds: int,
                   now: int)
    requires now > 0 && CooldownAnswers(rows, after, nick, cooldownUntil, banned, autoBanSeconds, now)
    ensures BanKept(rows, after, nick, now) <==> OldBanEndsFirst(rows, nick, now, banned, autoBanSeconds)
  {
    if !OldBanEndsFirst(rows, nick, now, banned, autoBanSeconds) {
      var t := now + autoBanSeconds;
      assert nick in ActiveDbBans(rows, t) && nick !in ActiveDbBans(after, t);
    }
  }

  /** What one maker's cooldown at `now` means for the answers about that maker. */
  ghost predicate MakerRecorded(before: Rows, after: Rows, times: seq<int>, nick: string, settings: Settings,
                                now: int) {
    forall t :: t >= now ==>
      && (nick in ActiveCooldowns(after, t) <==> t < now + settings.cooldownSeconds)
      && (settings.windowSeconds > 0 ==>
           (nick in ActiveDbBans(after, t) <==>
              if Bans(times + [now], |times|, settings.windowSeconds, settings.threshold)
              then settings.autoBanSeconds <= 0 || t < now + settings.autoBanSeconds
              else nick in ActiveDbBans(before, t)))
  }

  /** One nick's rows and log before and after a batch, which did or did not contain it. */
  ghost predicate NickRecorded(before: Rows, log: seq<Event>, after: Rows, log': seq<Event>,
                               nick: string, listed: bool, settings: Settings, now: int) {
    if listed then
      && MakerRecorded(before, after, CooldownTimes(log, nick), nick, settings, now)
      && CooldownTimes(log', nick) == CooldownTimes(log, nick) + [now]
    else
      && (nick in after <==> nick in before)
      && (nick in before ==> after[nick] == before[nick])
      && CooldownTimes(log', nick) == CooldownTimes(log, nick)
  }

  /** The effect of recording a whole batch of makers. */
  ghost predicate BatchRecorded(before: Rows, log: seq<Event>, after: Rows, log': seq<Event>,
                                done: set<string>, settings: Settings, now: int) {
    forall nick :: NickRecorded(before, log, after, log', nick, nick in done, settings, now)
  }

  /** The makers named in a list. */
  ghost function Named(makers: seq<string>): set<string> {
    set nick | nick in makers && nick != ""
  }

  /** The makers named in a list, each where it is first named. */
  function FirstNamed(makers: seq<string>): seq<string> {
    if makers == [] then []
    else
      var rest, m := makers[..|makers| - 1], makers[|makers| - 1];
      if m == "" || m in rest then FirstNamed(rest) else FirstNamed(rest) + [m]
  }

  lemma FirstNamedMore(makers: seq<string>, i: nat)
    requires i < |makers|
    ensures FirstNamed(makers[..i + 1]) ==
      if makers[i] == "" || makers[i] in makers[..i] then FirstNamed(makers[..i])
      else FirstNamed(makers[..i]) + [makers[i]]
  {
    assert makers[..i + 1][..i] == makers[..i];
  }

  /** Each maker that is named comes once. */
  lemma {:induction false} FirstNamedOnce(makers: seq<string>)
    ensures Distinct(FirstNamed(makers))
    ensures forall nick :: nick in FirstNamed(makers) <==> nick in Named(makers)
  {
    if makers != [] {
      var n := |makers| - 1;
      FirstNamedOnce(makers[..n]);
      NamedMore(makers, n);
      assert makers[..n + 1] == makers;
    }
  }

  /** What is logged about several makers at once. */
  function EventsFor(nicks: seq<string>, kind: Kind, stage: string, attemptId: string, now: int, details: string)
    : (r: seq<Event>)
    ensures |r| == |nicks| && forall i :: 0 <= i < |r| ==> r[i] == Event(nicks[i], kind, stage, attemptId, now, details)
  {
    seq(|nicks|, i requires 0 <= i < |nicks| => Event(nicks[i], kind, stage, attemptId, now, details))
  }

  lemma NobodyNamed(makers: seq<string>)
    ensures Named(makers[..0]) == {} && FirstNamed(makers[..0]) == []
  {}

  lemma EventsForNobody(kind: Kind, stage: string, attemptId: string, now: int, details: string)
    ensures EventsFor([], kind, stage, attemptId, now, details) == []
  {}

  lemma EventsForMore(nicks: seq<string>, nick: string, kind: Kind, stage: string, attemptId: string, now: int,
                      details: string)
    ensures EventsFor(nicks + [nick], kind, stage, attemptId, now, details)
      == EventsFor(nicks, kind, stage, attemptId, now, details) + [Event(nick, kind, stage, attemptId, now, details)]
  {}

  lemma NamedMore(makers: seq<string>, i: nat)
    requires i < |makers|
    ensures Named(makers[..i + 1]) ==
      if makers[i] == "" || makers[i] in makers[..i] then Named(makers[..i]) else Named(makers[..i]) + {makers[i]}
    ensures makers[i] !in makers[..i] ==> makers[i] !in Named(makers[..i])
  {
    assert makers[..i + 1] == makers[..i] + [makers[i]];
  }

  lemma BatchStart(rows: Rows, events: seq<Event>, settings: Settings, now: int)
    ensures BatchRecorded(rows, events, rows, events, {}, settings, now)
  {}

  ghost predicate StepRecorded(rows1: Rows, log1: seq<Event>, rows2: Rows, e: Event,
                               settings: Settings, now: int, banned: bool) {
    && e.kind == Cooldown && e.createdAt == now
    && CooldownAnswers(rows1, rows2, e.nick, now + settings.cooldownSeconds, banned, settings.autoBanSeconds, now)
    && (settings.windowSeconds > 0 ==>
         var times := CooldownTimes(log1, e.nick) + [now];
         (banned <==> Bans(times, |times| - 1, settings.windowSeconds, settings.threshold)))
  }

  lemma NickStep(before: Rows, log: seq<Event>, rows1: Rows, log1: seq<Event>, rows2: Rows, e: Event,
                 nick: string, listed: bool, settings: Settings, now: int, banned: bool)
    requires NickRecorded(before, log, rows1, log1, nick, listed, settings, now)
    requires StepRecorded(rows1, log1, rows2, e, settings, now, banned)
    requires listed ==> nick != e.nick
    ensures NickRecorded(before, log, rows2, log1 + [e], nick, listed || nick == e.nick, settings, now)
  {
    hide CooldownTimes, Bans, MakerRecorded, ActiveCooldowns, ActiveDbBans;
    CooldownTimesAppend(log1, e, nick);
    if nick == e.nick {
      SelfRecorded(before, log, rows1, rows2, nick, settings, now, banned);
    } else if listed {
      SameAnswers(rows1, rows2, nick);
      StillRecorded(before, rows1, rows2, CooldownTimes(log, nick), nick, settings, now);
    }
  }

  lemma BatchStep(before: Rows, log: seq<Event>, rows1: Rows, log1: seq<Event>, rows2: Rows, e: Event,
                  done: set<string>, settings: Settings, now: int, banned: bool)
    requires BatchRecorded(before, log, rows1, log1, done, settings, now)
    requires e.nick !in done && StepRecorded(rows1, log1, rows2, e, settings, now, banned)
    ensures BatchRecorded(before, log, rows2, log1 + [e], done + {e.nick}, settings, now)
  {
    hide NickRecorded, StepRecorded;
    forall nick
      ensures NickRecorded(before, log, rows2, log1 + [e], nick, nick in done + {e.nick}, settings, now)
    {
      NickStep(before, log, rows1, log1, rows2, e, nick, nick in done, settings, now, banned);
    }
  }

  lemma SelfRecorded(before: Rows, log: seq<Event>, rows1: Rows, rows2: Rows, nick: string,
                     settings: Settings, now: int, banned: bool)
    requires (nick in rows1 <==> nick in before) && (nick in before ==> rows1[nick] == before[nick])
    requires CooldownAnswers(rows1, rows2, nick, now + settings.cooldownSeconds, banned, settings.autoBanSeconds, now)
    requires settings.windowSeconds > 0 ==>
      (banned <==> Bans(CooldownTimes(log, nick) + [now], |CooldownTimes(log, nick)|, settings.windowSeconds,
                        settings.threshold))
    ensures MakerRecorded(before, rows2, CooldownTimes(log, nick), nick, settings, now)
  {
    hide CooldownTimes, Bans, ActiveCooldowns, ActiveDbBans;
    SameAnswers(before, rows1, nick);
  }

  lemma StillRecorded(before: Rows, rows1: Rows, rows2: Rows, times: seq<int>, nick: string, settings: Settings,
                      now: int)
    requires MakerRecorded(before, rows1, times, nick, settings, now)
    requires forall t :: (nick in ActiveCooldowns(rows1, t) <==> nick in ActiveCooldowns(rows2, t))
    requires forall t :: (nick in ActiveDbBans(rows1, t) <==> nick in ActiveDbBans(rows2, t))
    ensures MakerRecorded(before, rows2, times, nick, settings, now)
  {
    hide Bans, ActiveCooldowns, ActiveDbBans;
  }

  lemma SameAnswers(a: Rows, b: Rows, nick: string)
    requires (nick in a <==> nick in b) && (nick in a ==> a[nick] == b[nick])
    ensures forall t :: (nick in ActiveCooldowns(a, t) <==> nick in ActiveCooldowns(b, t))
    ensures forall t :: (nick in ActiveDbBans(a, t) <==> nick in ActiveDbBans(b, t))
  {}

  lemma TimelyAppend(events: seq<Event>, e: Event, now: int)
    requires e.createdAt == now
    ensures Timely(events, now) ==> Timely(events + [e], now)
  {}

  // ---------- the store ----------

  class MakerPenaltyStore {
    const settings: Settings
    var rows: Rows
    var events: seq<Event>

    /** Counters agree with the log, whenever the cooldown window is switched on. */
    ghost predicate Valid()
      reads this
    {
      settings.windowSeconds > 0 ==> Consistent(rows, events, settings.windowSeconds)
    }

    constructor (settings: Settings)
      ensures Valid() && this.settings == settings && rows == map[] && events == []
    {
      this.settings := settings;
      rows := map[];
      events := [];
    }

    /** The counter and window start that this cooldown gives a nick. */
    method NextWindow(nick: string, now: int) returns (w: Window)
      requires Valid()
      ensures settings.windowSeconds > 0 ==> w == Replay(CooldownTimes(events, nick) + [now], settings.windowSeconds)
      ensures w == CountedWindow(rows, nick, now, settings.windowSeconds)
    {
      var count: nat, start: int;
      if nick !in rows {
        count, start := 0, now;
      } else {
        count, start := rows[nick].cooldownCount, rows[nick].windowStart;
        if settings.windowSeconds > 0 && (start <= 0 || now - start > settings.windowSeconds) {
          count, start := 0, now;
        }
      }
      w := Window(count + 1, start);
      ghost var times := CooldownTimes(events, nick);
      assert (times + [now])[..|times|] == times;
    }

    /** One maker's cooldown.  Nothing but that maker's row changes, its counters advance by
        one step of the window, and it is banned exactly when the counter reaches the
        threshold; otherwise an existing ban is neither lifted nor extended.  An existing ban is
        kept for its whole time exactly if there is no automatic ban that ends before it. */
    method RecordSingleStage2Cooldown(nick: string, attemptId: string, now: int, cooldownUntil: int)
      returns (banned: bool)
      requires Valid() && now > 0
      modifies this
      ensures Valid()
      ensures events == old(events) + [Event(nick, Cooldown, "stage2", attemptId, now, "stage2_timeout")]
      ensures CooldownAnswers(old(rows), rows, nick, cooldownUntil, banned, settings.autoBanSeconds, now)
      ensures rows == UpsertCooldown(old(rows), nick, cooldownUntil,
        CountedWindow(old(rows), nick, now, settings.windowSeconds), banned,
        BanEnd(banned, settings.autoBanSeconds, now),
        if banned then "stage2_cooldown_threshold" else "", attemptId, now)
      ensures LastEvent(rows, nick) == ("stage2", attemptId, now)
      ensures BanReason(rows, nick) == if banned then "stage2_cooldown_threshold" else BanReason(old(rows), nick)
      ensures banned <==> AutoBans(old(rows), nick, now, settings)
      ensures BanKept(old(rows), rows, nick, now) <==>
        OldBanEndsFirst(old(rows), nick, now, AutoBans(old(rows), nick, now, settings), settings.autoBanSeconds)
      ensures settings.windowSeconds > 0 ==>
        var times := CooldownTimes(events, nick);
        && times == CooldownTimes(old(events), nick) + [now]
        && (banned <==> Bans(times, |times| - 1, settings.windowSeconds, settings.threshold))
    {
      hide CooldownTimes, Replay, CooldownAnswers, CountedWindow, BanKept, OldBanEndsFirst;
      var w := NextWindow(nick, now);
      banned := false;
      var bannedUntil, reason := 0, "";
      if settings.threshold > 0 && w.count >= settings.threshold {
        banned := true;
        bannedUntil := if settings.autoBanSeconds <= 0 then 0 else now + settings.autoBanSeconds;
        reason := "stage2_cooldown_threshold";
      }
      UpsertCooldownAnswers(rows, nick, cooldownUntil, w, banned, settings.autoBanSeconds, reason, attemptId, now);
      var e := Event(nick, Cooldown, "stage2", attemptId, now, "stage2_timeout");
      ghost var times := CooldownTimes(events, nick) + [now];
      assert times[..|times|] == times;
      CooldownTimesAppend(events, e, nick);
      var rows' := UpsertCooldown(rows, nick, cooldownUntil, w, banned, bannedUntil, reason, attemptId, now);
      ConsistentWithCooldown(rows, events, rows', e, settings.windowSeconds);
      BanKeptIff(rows, rows', nick, cooldownUntil, banned, settings.autoBanSeconds, now);
      rows := rows';
      events := events + [e];
    }

    /** A failed attempt at signing: every maker involved is put in cooldown once, however often
        it is named, and judged by its own window; nobody else is affected.  Blank names are
        skipped, and nothing happens if cooldowns are switched off. */
    method RecordStage2Cooldown(makers: seq<string>, attemptId: string, now: int)
      requires Valid() && now > 0
      modifies this
      ensures Valid()
      ensures settings.cooldownSeconds <= 0 ==> rows == old(rows) && events == old(events)
      ensures settings.cooldownSeconds > 0 ==>
        BatchRecorded(old(rows), old(events), rows, events, Named(makers), settings, now)
      ensures settings.cooldownSeconds > 0 ==> (
        events == old(events) + EventsFor(FirstNamed(makers), Cooldown, "stage2", attemptId, now, "stage2_timeout"))
      ensures Timely(old(events), now) ==> Timely(events, now)
    {
      hide CooldownTimes, Replay, BatchRecorded, Bans, CooldownAnswers, Timely, Consistent;
      hide Named, FirstNamed, EventsFor, UpsertCooldown, BanKept, OldBanEndsFirst, AutoBans;
      hide CountedWindow, BanEnd, ActiveDbBans;
      if settings.cooldownSeconds <= 0 {
        return;
      }
      BatchStart(rows, events, settings, now);
      NobodyNamed(makers);
      EventsForNobody(Cooldown, "stage2", attemptId, now, "stage2_timeout");
      for i := 0 to |makers|
        invariant Valid()
        invariant BatchRecorded(old(rows), old(events), rows, events, Named(makers[..i]), settings, now)
        invariant events == old(events)
          + EventsFor(FirstNamed(makers[..i]), Cooldown, "stage2", attemptId, now, "stage2_timeout")
        invariant Timely(old(events), now) ==> Timely(events, now)
      {
        NamedMore(makers, i);
        FirstNamedMore(makers, i);
        if makers[i] != "" && makers[i] !in makers[..i] {
          EventsForMore(FirstNamed(makers[..i]), makers[i], Cooldown, "stage2", attemptId, now, "stage2_timeout");
          ghost var rows1, events1 := rows, events;
          var banned := RecordSingleStage2Cooldown(makers[i], attemptId, now, now + settings.cooldownSeconds);
          ghost var e := Event(makers[i], Cooldown, "stage2", attemptId, now, "stage2_timeout");
          BatchStep(old(rows), old(events), rows1, events1, rows, e, Named(makers[..i]), settings, now, banned);
          TimelyAppend(events1, e, now);
        }
      }
      assert makers[..|makers|] == makers;
    }

    /** A failure without consequences is logged for every maker involved, once each; the stage
        is "unknown" if none is given.  Blank names are skipped. */
    method RecordSoftFailure(makers: seq<string>, stage: string, attemptId: string, now: int)
      requires Valid()
      modifies this
      ensures Valid()
      ensures var at := if stage == "" then "unknown" else stage;
        && events == old(events) + EventsFor(FirstNamed(makers), SoftFailure, at, attemptId, now, "")
        && rows == UpsertSoftFailures(old(rows), Named(makers), at, attemptId, now)
      ensures forall t :: t >= 0 ==> ActiveCooldowns(rows, t) == ActiveCooldowns(old(rows), t)
      ensures forall t :: t >= 0 ==> ActiveDbBans(rows, t) == ActiveDbBans(old(rows), t)
      ensures SoftFailuresNoted(old(rows), rows, Named(makers), if stage == "" then "unknown" else stage, attemptId, now)
      ensures Timely(old(events), now) ==> Timely(events, now)
    {
      var at := if stage == "" then "unknown" else stage;
      hide Timely, Consistent, CooldownTimes, EventsFor, Named, FirstNamed, UpsertSoftFailures, SoftFailureRow;
      hide ActiveCooldowns, ActiveDbBans;
      NobodyNamed(makers);
      EventsForNobody(SoftFailure, at, attemptId, now, "");
      SoftFailuresNone(rows, at, attemptId, now);
      for i := 0 to |makers|
        invariant Valid()
        invariant events == old(events) + EventsFor(FirstNamed(makers[..i]), SoftFailure, at, attemptId, now, "")
        invariant rows == UpsertSoftFailures(old(rows), Named(makers[..i]), at, attemptId, now)
        invariant Timely(old(events), now) ==> Timely(events, now)
      {
        NamedMore(makers, i);
        FirstNamedMore(makers, i);
        var nick := makers[i];
        if nick != "" && nick !in makers[..i] {
          SoftFailuresMore(old(rows), Named(makers[..i]), nick, at, attemptId, now);
          EventsForMore(FirstNamed(makers[..i]), nick, SoftFailure, at, attemptId, now, "");
          var e := Event(nick, SoftFailure, at, attemptId, now, "");
          var rows' := rows[nick := SoftFailureRow(rows, nick, at, attemptId, now)];
          SoftFailureCounts(rows, nick, at, attemptId, now);
          ConsistentWithOther(rows, events, rows', e, settings.windowSeconds);
          TimelyAppend(events, e, now);
          rows := rows';
          events := events + [e];
        }
      }
      assert makers[..|makers|] == makers;
      SoftFailureAnswers(old(rows), Named(makers), at, attemptId, now);
      SoftFailuresNotedFor(old(rows), Named(makers), at, attemptId, now);
    }

    /** A manual ban holds until it expires, or for good if `until` is zero.  A blank name is
        ignored. */
    method BanNick(nick: string, reason: string, until: int, now: int)
      requires Valid()
      modifies this
      ensures Valid()
      ensures nick == "" ==> rows == old(rows) && events == old(events)
      ensures nick != "" ==>
        && events == old(events) + [Event(nick, Ban, "", "", now, reason)]
        && rows == UpsertBan(old(rows), nick, reason, until, now)
        && LastEvent(rows, nick) == (LastEvent(old(rows), nick).0, LastEvent(old(rows), nick).1, now)
        && BanReason(rows, nick) == reason
        && forall t :: nick in ActiveDbBans(rows, t) <==> until == 0 || t < until
      ensures forall t :: t >= 0 ==> ActiveCooldowns(rows, t) == ActiveCooldowns(old(rows), t)
      ensures OnlyRow(old(rows), rows, nick)
      ensures Timely(old(events), now) ==> Timely(events, now)
    {
      if nick == "" {
        return;
      }
      var e := Event(nick, Ban, "", "", now, reason);
      var rows' := UpsertBan(rows, nick, reason, until, now);
      ConsistentWithOther(rows, events, rows', e, settings.windowSeconds);
      TimelyAppend(events, e, now);
      rows := rows';
      events := events + [e];
    }

    /** A ban is lifted at once.  A blank name is ignored. */
    method UnbanNick(nick: string, now: int)
      requires Valid()
      modifies this
      ensures Valid()
      ensures nick == "" ==> rows == old(rows) && events == old(events)
      ensures nick != "" ==>
        && events == old(events) + [Event(nick, Unban, "", "", now, "")]
        && rows == UpdateUnban(old(rows), nick, now)
        && forall t :: nick !in ActiveDbBans(rows, t)
      ensures OnlyRow(old(rows), rows, nick) && rows.Keys == old(rows).Keys
      ensures forall t :: ActiveCooldowns(rows, t) == ActiveCooldowns(old(rows), t)
      ensures SameDiagnosis(old(rows), rows)
      ensures Timely(old(events), now) ==> Timely(events, now)
    {
      if nick == "" {
        return;
      }
      var e := Event(nick, Unban, "", "", now, "");
      var rows' := UpdateUnban(rows, nick, now);
      ConsistentWithOther(rows, events, rows', e, settings.windowSeconds);
      TimelyAppend(events, e, now);
      rows := rows';
      events := events + [e];
    }

    method Prune(now: int)
      requires Valid()
      modifies this`rows
      ensures Valid()
      ensures rows == PruneRows(old(rows), now) && rows.Keys == old(rows).Keys && SameDiagnosis(old(rows), rows)
      ensures forall t :: t >= now && t >= 0 ==>
        && ActiveCooldowns(rows, t) == ActiveCooldowns(old(rows), t)
        && ActiveDbBans(rows, t) == ActiveDbBans(old(rows), t)
    {
      hide CooldownTimes, Replay, ActiveCooldowns, ActiveDbBans;
      forall t | t >= now && t >= 0 {
        PruneInvisible(rows, now, t);
      }
      ghost var was := rows;
      rows := PruneRows(rows, now);
      if settings.windowSeconds > 0 {
        forall nick ensures Agrees(rows, CooldownTimes(events, nick), nick, settings.windowSeconds) {
          assert Agrees(was, CooldownTimes(events, nick), nick, settings.windowSeconds);
        }
      }
    }
  }

  /** The auto-ban branch, taken while the clock runs forward, is always justified by
      `threshold` logged cooldowns of that nick within the last window. */
  lemma AutoBanJustified(events: seq<Event>, now: int, nick: string, span: int, threshold: int)
    requires Timely(events, now) && span > 0
    requires CooldownTimes(events, nick) != []
    requires Bans(CooldownTimes(events, nick), |CooldownTimes(events, nick)| - 1, span, threshold)
    ensures var times := CooldownTimes(events, nick);
            CountSince(times, times[|times| - 1] - span) >= threshold
  {
    hide CooldownTimes, CountSince, Bans, Timely, Clock;
    TimelyClock(events, now, nick);
    BanNeedsThreshold(CooldownTimes(events, nick), span, threshold);
  }

  /** No escape: among any `Unavoidable(threshold)` consecutive logged cooldowns of a nick
      that lie within one window length, at least one took the auto-ban branch. */
  lemma AutoBanUnavoidable(events: seq<Event>, now: int, nick: string, span: int, threshold: int,
                                              i: nat, j: nat)
    requires Timely(events, now) && span > 0 && threshold > 0
    requires i <= j < |CooldownTimes(events, nick)|
    requires CooldownTimes(events, nick)[j] - CooldownTimes(events, nick)[i] <= span
    requires j - i + 1 >= Unavoidable(threshold)
    ensures exists k :: i <= k <= j && Bans(CooldownTimes(events, nick), k, span, threshold)
  {
    hide CooldownTimes, Bans, Timely, Clock;
    TimelyClock(events, now, nick);
    var k := BanUnavoidable(CooldownTimes(events, nick), span, threshold, i, j);
  }

  /** The counter stored for a nick is the number of its logged cooldowns since the stored
      window start. */
  lemma CounterMeaning(rows: Rows, events: seq<Event>, now: int, nick: string, span: int)
    requires Timely(events, now) && span > 0 && Consistent(rows, events, span) && nick in rows
    ensures rows[nick].cooldownCount > 0 ==>
      rows[nick].cooldownCount == CountSince(CooldownTimes(events, nick), rows[nick].windowStart)
    ensures rows[nick].cooldownCount == 0 <==> CooldownTimes(events, nick) == []
  {
    var times := CooldownTimes(events, nick);
    assert Agrees(rows, times, nick, span);
    if times != [] {
      TimelyClock(events, now, nick);
      CounterCountsLog(times, span);
      WindowMeaning(times, span);
    }
  }

  /** With temporary automatic bans, a cooldown leaves a permanent ban alone if and only if it
      stays below the threshold; otherwise the maker is free again when the automatic ban ends. */
  lemma AutoBanReplacesPermanentBan(rows: Rows, after: Rows, nick: string, cooldownUntil: int,
                                                        settings: Settings, now: int)
    requires now > 0 && settings.autoBanSeconds > 0
    requires nick in rows && rows[nick].banned && rows[nick].bannedUntil == 0
    requires CooldownAnswers(rows, after, nick, cooldownUntil, AutoBans(rows, nick, now, settings),
                             settings.autoBanSeconds, now)
    ensures BanKept(rows, after, nick, now) <==> !AutoBans(rows, nick, now, settings)
    ensures AutoBans(rows, nick, now, settings) ==>
      forall t :: t >= now ==> (nick in ActiveDbBans(after, t) <==> t < now + settings.autoBanSeconds)
  {
    hide AutoBans;
    BanKeptIff(rows, after, nick, cooldownUntil, AutoBans(rows, nick, now, settings), settings.autoBanSeconds, now);
  }

  /** The same through the store: a maker that was banned for good is free again once an
      automatic ban has run out. */
  method LoseAPermanentBan(settings: Settings, nick: string, now: int) returns (store: MakerPenaltyStore)
    requires nick != "" && now > 0 && settings.threshold == 1 && settings.autoBanSeconds > 0
    ensures nick in store.rows && store.events == [
      Event(nick, Ban, "", "", now, "manual"), Event(nick, Cooldown, "stage2", "", now, "stage2_timeout")]
    ensures forall t :: t >= now ==> (nick in ActiveDbBans(store.rows, t) <==> t < now + settings.autoBanSeconds)
  {
    store := new MakerPenaltyStore(settings);
    store.BanNick(nick, "manual", 0, now);
    ghost var before := store.rows;
    var banned := store.RecordSingleStage2Cooldown(nick, "", now, now + settings.cooldownSeconds);
    AutoBanReplacesPermanentBan(before, store.rows, nick, now + settings.cooldownSeconds, settings, now);
  }
}
