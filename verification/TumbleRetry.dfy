/** Where the coins of a re-planned schedule go (src/jmclient/schedule.py). */
module TumbleRetry {
  import F = ScheduleFractions
  import opened TumblePlan
  import opened TumbleRun
  import opened ScheduleTweak

  /** The external destinations that a schedule names, in order. */
  function Named(s: seq<Entry>): seq<Dest> {
    if s == [] then []
    else Named(s[..|s| - 1]) + if s[|s| - 1].dest == Internal then [] else [s[|s| - 1].dest]
  }

  lemma {:induction false} NamedConcat(a: seq<Entry>, b: seq<Entry>)
    ensures Named(a + b) == Named(a) + Named(b)
    decreases |b|
  {
    if b == [] {
      assert a + b == a;
    } else {
      assert (a + b)[..|a + b| - 1] == a + b[..|b| - 1];
      NamedConcat(a, b[..|b| - 1]);
    }
  }

  ghost predicate InWallet(s: seq<Entry>, w: Wallet) {
    forall i :: 0 <= i < |s| ==> s[i].src < |w.balances|
  }

  lemma ExecPays(w: Wallet, e: Entry, wanted: nat)
    requires e.src < |w.balances|
    ensures Dests(Exec(w, e, wanted).paid) == Dests(w.paid) + if e.dest == Internal then [] else [e.dest]
  {
    if e.dest != Internal {
      DestsAppend(w, Exec(w, e, wanted), e.dest);
    }
  }

  /** Running a schedule pays the destinations it names, each once, in order. */
  lemma {:induction false} RunPays(w: Wallet, s: seq<Entry>, wanted: seq<nat>)
    requires |wanted| == |s| && InWallet(s, w)
    ensures Dests(Run(w, s, wanted).paid) == Dests(w.paid) + Named(s)
  {
    hide Exec, Dests;
    if s == [] {
      assert Dests(w.paid) + [] == Dests(w.paid);
    } else {
      var n := |s| - 1;
      RunPays(w, s[..n], wanted[..n]);
      ExecPays(Run(w, s[..n], wanted[..n]), s[n], wanted[n]);
    }
  }

  // ---------- after a retry ----------

  /** Will the retried entry keep its destination? */
  predicate Stays(e: Entry, destaddrs: seq<string>) {
    e.dest == Internal || (e.dest.Addr? && e.dest.address in destaddrs)
  }

  lemma OnlyDestChanges(s: seq<Entry>, i: nat, destaddrs: seq<string>, minimumMakers: int, s': seq<Entry>)
    requires Outcome(s, i, destaddrs, minimumMakers, s')
    ensures |s'| == |s| && forall j :: 0 <= j < |s| ==> s'[j].src == s[j].src
    ensures forall j :: 0 <= j < |s| && j != i ==> s'[j].dest == s[j].dest && s'[j].makers == s[j].makers
    ensures s'[i].dest == if Stays(s[i], destaddrs) then s[i].dest else Internal
  {
    hide F.Fractions;
  }

  lemma {:induction false} SameNamed(s: seq<Entry>, s': seq<Entry>)
    requires |s'| == |s| && forall j :: 0 <= j < |s| ==> s'[j].dest == s[j].dest
    ensures Named(s') == Named(s)
  {
    if s != [] {
      SameNamed(s[..|s| - 1], s'[..|s| - 1]);
    }
  }

  lemma NamedOne(e: Entry)
    ensures Named([e]) == if e.dest == Internal then [] else [e.dest]
  {
    assert [e][..0] == [];
  }

  lemma NamedAround(s: seq<Entry>, i: nat)
    requires i < |s|
    ensures Named(s) == Named(s[..i]) + (if s[i].dest == Internal then [] else [s[i].dest]) + Named(s[i + 1..])
  {
    hide Named;
    assert s == s[..i] + [s[i]] + s[i + 1..];
    NamedConcat(s[..i] + [s[i]], s[i + 1..]);
    NamedConcat(s[..i], [s[i]]);
    NamedOne(s[i]);
  }

  /** Without an internal entry the rest is named. */
  lemma NamedWithout(s: seq<Entry>, i: nat, s': seq<Entry>)
    requires i < |s| == |s'| && s'[i].dest == Internal && forall j :: 0 <= j < |s| && j != i ==> s'[j].dest == s[j].dest
    ensures Named(s') == Named(s[..i]) + Named(s[i + 1..])
  {
    hide Named;
    NamedAround(s', i);
    SameNamed(s[..i], s'[..i]);
    SameNamed(s[i + 1..], s'[i + 1..]);
    assert Named(s[..i]) + [] == Named(s[..i]);
  }

  /** A retried schedule pays the destinations of the original one, except that of the retried
      entry if this is neither internal nor one of the final destinations. */
  lemma RetryPays(s: seq<Entry>, i: nat, destaddrs: seq<string>, minimumMakers: int, s': seq<Entry>,
                  w: Wallet, wanted: seq<nat>)
    requires Outcome(s, i, destaddrs, minimumMakers, s') && InWallet(s, w) && |wanted| == |s|
    ensures |s'| == |s|
    ensures Dests(Run(w, s', wanted).paid) == Dests(w.paid) +
      if Stays(s[i], destaddrs) then Named(s) else Named(s[..i]) + Named(s[i + 1..])
  {
    OnlyDestChanges(s, i, destaddrs, minimumMakers, s');
    hide Outcome, Named, Dests, Run;
    RunPays(w, s', wanted);
    if Stays(s[i], destaddrs) {
      SameNamed(s, s');
    } else {
      NamedWithout(s, i, s');
    }
  }

  /** Whatever the balances, and whatever is really sent, the retried schedule pays the same
      destinations in the same order as the original one if and only if the destination of the
      retried entry is internal or one of the final destinations. */
  lemma SameDestinationsIff(s: seq<Entry>, i: nat, destaddrs: seq<string>, minimumMakers: int, s': seq<Entry>,
                            w: Wallet, wanted: seq<nat>, wanted': seq<nat>)
    requires Outcome(s, i, destaddrs, minimumMakers, s') && InWallet(s, w) && |wanted| == |wanted'| == |s|
    ensures |s'| == |s|
    ensures Dests(Run(w, s', wanted').paid) == Dests(Run(w, s, wanted).paid) <==> Stays(s[i], destaddrs)
  {
    RetryPays(s, i, destaddrs, minimumMakers, s', w, wanted');
    RunPays(w, s, wanted);
    NamedAround(s, i);
    hide Outcome, Named, Dests, Run;
    assert |Named(s)| > |Named(s[..i]) + Named(s[i + 1..])| || s[i].dest == Internal;
  }

  /** Only the retried entry's makers change, and only of a sweep: it asks for one fewer as long
      as that is not below the minimum, and otherwise for the minimum; and it still sweeps. */
  lemma RetriedMakers(s: seq<Entry>, i: nat, destaddrs: seq<string>, minimumMakers: int, s': seq<Entry>)
    requires Outcome(s, i, destaddrs, minimumMakers, s')
    ensures |s'| == |s| && forall j :: 0 <= j < |s| && j != i ==> s'[j].makers == s[j].makers
    ensures s[i].amount != 0.0 ==> s'[i].makers == s[i].makers
    ensures s[i].amount == 0.0 ==>
      && s'[i].amount == 0.0 && s'[i].makers >= minimumMakers
      && (s[i].makers > minimumMakers ==> s'[i].makers == s[i].makers - 1)
      && (s[i].makers <= minimumMakers ==> s'[i].makers == minimumMakers)
  {
    OnlyDestChanges(s, i, destaddrs, minimumMakers, s');
    hide F.Fractions;
  }
}
