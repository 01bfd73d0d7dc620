/** The ledger of used commitments (src/jmclient/podle.py, `get_podle_tries`, `generate_podle` and
    `update_commitments`). */
module PodleLedger {
  // A commitment is determined by a private key and the index of a base point; `commit` is that
  // function. The persisted file is the set of commitments used so far, empty if the file does
  // not exist. Only the taker's own utxos are considered, no external commitments.

  import opened Sequences
  import opened Wrappers

  /** A private key, as a scalar. */
  type Key = nat
  /** The hash of a point, in hexadecimal. */
  type Commitment = string
  type Committer = (Key, nat) -> Commitment

  /** Among some keys and the first indices, different ones give different commitments. */
  ghost predicate Injective(commit: Committer, keys: set<Key>, limit: nat) {
    forall k, i: nat, k', i': nat :: k in keys && k' in keys && i < limit && i' < limit
      && commit(k, i) == commit(k', i')
      ==> k == k' && i == i'
  }

  /** A commitment handed out: made from `key` with the `index`-th base point. */
  datatype Issued = Issued(key: Key, index: nat)

  // ---------- what one call does ----------

  /** One more than the highest used index below `maxTries`, or zero. */
  function Tries(commit: Committer, used: set<Commitment>, key: Key, maxTries: nat): (t: nat)
    ensures t <= maxTries
    ensures t > 0 ==> commit(key, t - 1) in used
    ensures forall i :: t <= i < maxTries ==> commit(key, i) !in used
  {
    if maxTries == 0 then 0
    else if commit(key, maxTries - 1) in used then maxTries
    else Tries(commit, used, key, maxTries - 1)
  }

  /** The first key that is not exhausted, with its first index above all used ones. */
  function Next(commit: Committer, used: set<Commitment>, keys: seq<Key>, maxTries: nat): Option<Issued> {
    if keys == [] then None
    else
      var t := Tries(commit, used, keys[0], maxTries);
      if t >= maxTries then Next(commit, used, keys[1..], maxTries) else Some(Issued(keys[0], t))
  }

  class CommitmentFile {
    const commit: Committer
    var used: set<Commitment>

    constructor (commit: Committer)
      ensures this.commit == commit && used == {}
    {
      this.commit := commit;
      used := {};
    }

    method UpdateCommitments(commitment: Commitment)
      modifies this
      ensures used == old(used) + {commitment}
    {
      used := used + {commitment};
    }

    /** Search downwards for the highest used index. */
    method GetPodleTries(key: Key, maxTries: nat) returns (tries: nat)
      ensures tries == Tries(commit, used, key, maxTries)
    {
      for i := maxTries downto 0
        invariant Tries(commit, used, key, maxTries) == Tries(commit, used, key, i)
      {
        if commit(key, i) in used {
          return i + 1;
        }
      }
      tries := 0;
    }

    /** Issue a commitment for the first key that still has one and record it as used. */
    method GeneratePodle(keys: seq<Key>, maxTries: nat) returns (r: Option<Issued>)
      modifies this
      ensures r == Next(commit, old(used), keys, maxTries)
      ensures used == if r.Some? then old(used) + {commit(r.value.key, r.value.index)} else old(used)
    {
      for j := 0 to |keys|
        invariant used == old(used)
        invariant Next(commit, used, keys, maxTries) == Next(commit, used, keys[j..], maxTries)
      {
        var tries := GetPodleTries(keys[j], maxTries);
        assert keys[j..][1..] == keys[j + 1..];
        if tries >= maxTries {
          continue;
        }
        UpdateCommitments(commit(keys[j], tries));
        return Some(Issued(keys[j], tries));
      }
      r := None;
    }
  }

  // ---------- runs ----------

  datatype Call = Call(keys: seq<Key>, maxTries: nat)

  datatype Outcome = Outcome(used: set<Commitment>, issued: seq<Issued>)

  /** The ledger and everything issued after a run of calls from an empty file. */
  function Run(commit: Committer, calls: seq<Call>): Outcome {
    if calls == [] then Outcome({}, [])
    else
      var before := Run(commit, calls[..|calls| - 1]);
      var call := calls[|calls| - 1];
      match Next(commit, before.used, call.keys, call.maxTries)
      case None => before
      case Some(i) => Outcome(before.used + {commit(i.key, i.index)}, before.issued + [i])
  }

  lemma {:induction false} NextMeaning(commit: Committer, used: set<Commitment>, keys: seq<Key>, maxTries: nat)
    ensures var r := Next(commit, used, keys, maxTries);
      r.Some? ==>
        && r.value.key in keys && r.value.index < maxTries
        && commit(r.value.key, r.value.index) !in used
        && (r.value.index > 0 ==> commit(r.value.key, r.value.index - 1) in used)
    ensures Next(commit, used, keys, maxTries).None? ==>
      forall k :: k in keys ==> maxTries == 0 || commit(k, maxTries - 1) in used
  {
    if keys != [] {
      NextMeaning(commit, used, keys[1..], maxTries);
      var t := Tries(commit, used, keys[0], maxTries);
      assert t >= maxTries > 0 ==> commit(keys[0], maxTries - 1) in used;
      assert forall k :: k in keys ==> k == keys[0] || k in keys[1..];
    }
  }

  /** The used ones among the first `limit` indices of a key form a prefix. */
  ghost predicate PrefixUsed(commit: Committer, used: set<Commitment>, key: Key, limit: nat) {
    exists m: nat :: IsPrefix(commit, used, key, limit, m)
  }

  ghost predicate IsPrefix(commit: Committer, used: set<Commitment>, key: Key, limit: nat, m: nat) {
    m <= limit && forall i: nat :: i < limit ==> (commit(key, i) in used <==> i < m)
  }

  lemma PrefixStep(commit: Committer, used: set<Commitment>, keys: set<Key>, key: Key, limit: nat,
                                      i: Issued)
    requires Injective(commit, keys, limit) && key in keys && PrefixUsed(commit, used, key, limit)
    requires i.key in keys && i.index < limit && commit(i.key, i.index) !in used
    requires i.index > 0 ==> commit(i.key, i.index - 1) in used
    ensures PrefixUsed(commit, used + {commit(i.key, i.index)}, key, limit)
  {
    var m: nat :| IsPrefix(commit, used, key, limit, m);
    var used' := used + {commit(i.key, i.index)};
    var m' := if key == i.key then m + 1 else m;
    if key == i.key {
      assert i.index == m;
    }
    assert IsPrefix(commit, used', key, limit, m');
  }

  /** The issued commitments, as a set. */
  function Commitments(commit: Committer, issued: seq<Issued>): set<Commitment> {
    set k | 0 <= k < |issued| :: commit(issued[k].key, issued[k].index)
  }

  /** The calls ask for some of these keys only, and never for more than `limit` tries. */
  ghost predicate AskFor(calls: seq<Call>, keys: set<Key>, limit: nat) {
    forall c :: 0 <= c < |calls| ==> calls[c].maxTries <= limit && forall k :: k in calls[c].keys ==> k in keys
  }

  /** Over any run of calls from an empty ledger: the ledger holds exactly what was issued,
      nothing is issued twice, and each key has used a prefix of its indices no longer than
      the largest number of tries ever allowed. */
  lemma {:induction false} LedgerInvariant(commit: Committer, calls: seq<Call>, keys: set<Key>, limit: nat)
    requires AskFor(calls, keys, limit) && Injective(commit, keys, limit)
    ensures var r := Run(commit, calls);
      && r.used == Commitments(commit, r.issued)
      && Distinct(r.issued)
      && (forall k :: 0 <= k < |r.issued| ==> r.issued[k].key in keys && r.issued[k].index < limit)
      && forall key :: key in keys ==> PrefixUsed(commit, r.used, key, limit)
  {
    var r := Run(commit, calls);
    if calls == [] {
      forall key | key in keys ensures PrefixUsed(commit, {}, key, limit) {
        assert IsPrefix(commit, {}, key, limit, 0);
      }
    } else {
      var n := |calls| - 1;
      LedgerInvariant(commit, calls[..n], keys, limit);
      var before := Run(commit, calls[..n]);
      NextMeaning(commit, before.used, calls[n].keys, calls[n].maxTries);
      var next := Next(commit, before.used, calls[n].keys, calls[n].maxTries);
      hide PrefixUsed, Injective;
      if next.Some? {
        var i := next.value;
        forall key | key in keys ensures PrefixUsed(commit, r.used, key, limit) {
          PrefixStep(commit, before.used, keys, key, limit, i);
        }
        IssuedGrow(commit, before.issued, i);
      }
    }
  }

  lemma IssuedGrow(commit: Committer, issued: seq<Issued>, i: Issued)
    requires Distinct(issued) && commit(i.key, i.index) !in Commitments(commit, issued)
    ensures Distinct(issued + [i])
    ensures Commitments(commit, issued + [i]) == Commitments(commit, issued) + {commit(i.key, i.index)}
  {
    var all := issued + [i];
    forall a, b | 0 <= a < b < |all| ensures all[a] != all[b] {
      if b == |issued| {
        assert commit(issued[a].key, issued[a].index) in Commitments(commit, issued);
      }
    }
    forall c | c in Commitments(commit, issued) + {commit(i.key, i.index)} ensures c in Commitments(commit, all) {
      if c in Commitments(commit, issued) {
        var k :| 0 <= k < |issued| && commit(issued[k].key, issued[k].index) == c;
        assert all[k] == issued[k];
      } else {
        assert all[|issued|] == i;
      }
    }
  }

  // ---------- consequences ----------

  function OfKey(issued: seq<Issued>, key: Key): set<nat> {
    set k | 0 <= k < |issued| && issued[k].key == key :: issued[k].index
  }

  lemma {:induction false} BelowCard(s: set<nat>, limit: nat)
    requires forall i :: i in s ==> i < limit
    ensures |s| <= limit
  {
    if limit > 0 {
      var t := s - {limit - 1};
      BelowCard(t, limit - 1);
    } else {
      assert s == {};
    }
  }

  /** No key ever supplies more than `limit` commitments. */
  lemma AtMostLimit(commit: Committer, calls: seq<Call>, keys: set<Key>, limit: nat, key: Key)
    requires AskFor(calls, keys, limit) && Injective(commit, keys, limit)
    ensures |OfKey(Run(commit, calls).issued, key)| <= limit
  {
    LedgerInvariant(commit, calls, keys, limit);
    BelowCard(OfKey(Run(commit, calls).issued, key), limit);
  }

  /** A call issues nothing only when it has to: exactly when every one of its keys has used
      up all its tries. */
  lemma RefusalMeansExhausted(commit: Committer, calls: seq<Call>, keys: set<Key>, limit: nat,
                                                 call: Call)
    requires AskFor(calls + [call], keys, limit) && Injective(commit, keys, limit)
    ensures var used := Run(commit, calls).used;
      Next(commit, used, call.keys, call.maxTries).None? <==>
        forall key, i: nat :: key in call.keys && i < call.maxTries ==> commit(key, i) in used
  {
    var all := calls + [call];
    assert forall c :: 0 <= c < |calls| ==> calls[c] == all[c];
    assert all[|calls|] == call;
    LedgerInvariant(commit, calls, keys, limit);
    var used := Run(commit, calls).used;
    NextMeaning(commit, used, call.keys, call.maxTries);
    if Next(commit, used, call.keys, call.maxTries).None? {
      forall key, i: nat | key in call.keys && i < call.maxTries ensures commit(key, i) in used {
        assert PrefixUsed(commit, used, key, limit);
      }
    }
  }
}
