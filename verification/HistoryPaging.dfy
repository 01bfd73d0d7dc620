/** Lazy paging through a growing history (src/jmclient/blockchaininterface.py). */
module HistoryPaging {
  // The node's wallet log only ever grows at its new end, and it may grow between any two calls
  // the generator makes. `views[k]` is the log at the moment of the k-th call; it is an
  // arbitrary growing sequence of logs, so every interleaving of appends is covered. The
  // generator's consumer may stop asking at any time: `|views|` is the number of calls to the
  // node it is willing to cause.

  import opened Sequences

  /** The fields by which the generator recognises a log entry. */
  datatype Entry = Entry(txid: string, vout: nat, category: string)

  type Views = seq<seq<Entry>>

  /** The node's answer: the last `num` entries after skipping the `skip` newest ones, in
      log order (oldest first). */
  function ListTransactions(log: seq<Entry>, num: nat, skip: nat): seq<Entry> {
    var end := if skip <= |log| then |log| - skip else 0;
    var start := if num <= end then end - num else 0;
    log[start..end]
  }

  ghost predicate Growing(views: Views) {
    forall i, j :: 0 <= i <= j < |views| ==> views[i] <= views[j]
  }

  function NewestFirst(log: seq<Entry>): (r: seq<Entry>)
    ensures |r| == |log|
    ensures forall i :: 0 <= i < |log| ==> r[i] == log[|log| - 1 - i]
  {
    seq(|log|, i requires 0 <= i < |log| => log[|log| - 1 - i])
  }

  function Pow2(n: nat): (p: nat)
    ensures p >= 1
  {
    if n == 0 then 1 else 2 * Pow2(n - 1)
  }

  /** Python's `list.index`: the first position of an element, or None for ValueError. */
  datatype Index = NotFound | At(i: nat)

  method IndexOf(txs: seq<Entry>, tx: Entry) returns (r: Index)
    ensures r.NotFound? <==> tx !in txs
    ensures r.At? ==> r.i < |txs| && txs[r.i] == tx && tx !in txs[..r.i]
  {
    for i := 0 to |txs|
      invariant tx !in txs[..i]
    {
      if txs[i] == tx {
        return At(i);
      }
    }
    return NotFound;
  }

  /** The history before position `pos`, reversed, continues the entries from `pos` on. */
  lemma NewestFirstExtend(log: seq<Entry>, pos: nat, from: nat)
    requires from <= pos <= |log|
    ensures NewestFirst(log[pos..]) + NewestFirst(log[from..pos]) == NewestFirst(log[from..])
  {}

  lemma NewestFirstPrefix(log: seq<Entry>, pos: nat)
    requires pos <= |log|
    ensures NewestFirst(log[pos..]) <= NewestFirst(log)
    ensures pos == |log| ==> NewestFirst(log[pos..]) == []
    ensures pos < |log| ==> NewestFirst(log[pos..]) != []
    ensures pos == |log| - 1 ==> NewestFirst(log[pos..]) == [log[pos]]
    ensures pos == 0 ==> NewestFirst(log[pos..]) == NewestFirst(log)
  {
    NewestFirstExtend(log, pos, 0);
    assert log[0..] == log;
  }

  /** The inner loop: yield a run of older entries, newest of them first. */
  method YieldOlder(older: seq<Entry>, yielded: Entry, sofar: seq<Entry>)
    returns (yieldedTx: Entry, out: seq<Entry>)
    ensures out == sofar + NewestFirst(older)
    ensures yieldedTx == if older == [] then yielded else older[0]
  {
    yieldedTx, out := yielded, sofar;
    for j := |older| downto 0
      invariant out == sofar + NewestFirst(older[j..])
      invariant yieldedTx == if j == |older| then yielded else older[j]
    {
      NewestFirstExtend(older, j + 1, j);
      yieldedTx := older[j];
      out := out + [yieldedTx];
    }
    assert older[0..] == older;
  }

  /** Where the window of one call lies in the log of the first call. */
  lemma WindowAt(first: seq<Entry>, log: seq<Entry>, num: nat, skip: nat, pos: nat)
    requires first <= log && Distinct(log) && pos < |first| && pos + skip < |log| && num > 0
    ensures var txs := ListTransactions(log, num, skip);
            var end := |log| - skip;
            && txs != []
            && (first[pos] !in txs ==> |txs| == num && pos + skip + num < |log|)
            && (forall i :: 0 <= i < |txs| && txs[i] == first[pos] ==>
                  i <= pos && i == pos - (end - |txs|) && txs[..i] == first[pos - i..pos]
                  && (|txs| < num ==> i == pos))
  {
    var end := |log| - skip;
    var start := if num <= end then end - num else 0;
    var txs := log[start..end];
    if pos >= start {
      assert txs[pos - start] == first[pos];
    }
    forall i | 0 <= i < |txs| && txs[i] == first[pos] ensures start + i == pos {
      assert log[start + i] == log[pos];
    }
    hide Distinct;
    forall i | 0 <= i < |txs| && start + i == pos ensures txs[..i] == first[pos - i..pos] {
      SliceOfPrefix(first, log, start, end, i);
    }
  }

  lemma SliceOfPrefix(first: seq<Entry>, log: seq<Entry>, start: nat, end: nat, i: nat)
    requires first <= log && start + i <= |first| && start + i <= end <= |log|
    ensures log[start..end][..i] == first[start..start + i]
  {}

  /** Between two calls: `tx` is the last entry yielded, entry `pos` of the first log; all
      newer entries have been yielded; and the next window starts no later than at `tx`. */
  ghost predicate Progress(views: Views, calls: nat, num: nat, skip: nat, tx: Entry, pos: nat, out: seq<Entry>) {
    && 1 <= calls <= |views| && num == Pow2(calls - 1) <= |views[calls - 1]|
    && (calls >= 2 ==> Pow2(calls - 2) <= |views[calls - 2]|)
    && pos < |views[0]| && tx == views[0][pos]
    && out == NewestFirst(views[0][pos..])
    && pos + skip < |views[calls - 1]|
  }

  ghost predicate WellBehaved(views: Views) {
    Growing(views) && forall k :: 0 <= k < |views| ==> Distinct(views[k])
  }

  lemma Start(views: Views)
    requires WellBehaved(views) && views != [] && views[0] != []
    ensures var txs := ListTransactions(views[0], 1, 0);
            txs != [] && Progress(views, 1, 1, 0, txs[0], |views[0]| - 1, [txs[0]])
  {
    NewestFirstPrefix(views[0], |views[0]| - 1);
  }

  lemma NothingToList(num: nat, skip: nat)
    ensures ListTransactions([], num, skip) == [] == NewestFirst([])
    ensures forall log :: log != [] ==> ListTransactions(log, 1, 0) != []
  {}

  lemma Yielded(views: Views, calls: nat, num: nat, skip: nat, tx: Entry, pos: nat, out: seq<Entry>)
    requires Progress(views, calls, num, skip, tx, pos, out)
    ensures 1 <= calls <= |views| && views[0] != [] && pos < |views[0]| && num >= 1
    ensures out <= NewestFirst(views[0])
    ensures Pow2(calls - 1) <= |views[calls - 1]|
    ensures calls >= 2 ==> Pow2(calls - 2) <= |views[calls - 2]|
  {
    NewestFirstPrefix(views[0], pos);
  }

  /** The last yielded entry is beyond the window: move the window past itself. */
  lemma SkipStep(views: Views, calls: nat, num: nat, skip: nat, tx: Entry, pos: nat, out: seq<Entry>)
    requires WellBehaved(views) && Progress(views, calls, num, skip, tx, pos, out) && calls < |views|
    ensures var txs := ListTransactions(views[calls], 2 * num, skip);
            txs != [] && (tx !in txs ==>
              Progress(views, calls + 1, 2 * num, skip + 2 * num, tx, pos, out))
  {
    hide NewestFirst, Distinct;
    assert views[calls - 1] <= views[calls] && views[0] <= views[calls];
    WindowAt(views[0], views[calls], 2 * num, skip, pos);
  }

  lemma ListSize(log: seq<Entry>, num: nat, skip: nat)
    ensures |ListTransactions(log, num, skip)| <= num && |ListTransactions(log, num, skip)| <= |log|
  {}

  /** The last yielded entry is at index `i` of the window: the older entries of the window
      come next, and if the window was not full they are all that is left. */
  lemma FoundStep(views: Views, calls: nat, num: nat, skip: nat, tx: Entry, pos: nat, out: seq<Entry>, i: nat)
    requires WellBehaved(views) && Progress(views, calls, num, skip, tx, pos, out) && calls < |views|
    requires i < |ListTransactions(views[calls], 2 * num, skip)|
    requires ListTransactions(views[calls], 2 * num, skip)[i] == tx
    ensures i <= pos
    ensures var txs := ListTransactions(views[calls], 2 * num, skip);
            var tx' := if i == 0 then tx else txs[0];
            var out' := out + NewestFirst(txs[..i]);
            if |txs| < 2 * num then out' == NewestFirst(views[0])
            else Progress(views, calls + 1, 2 * num, skip + (2 * num - 1), tx', pos - i, out')
  {
    hide NewestFirst, Distinct, ListTransactions;
    assert views[calls - 1] <= views[calls] && views[0] <= views[calls];
    WindowAt(views[0], views[calls], 2 * num, skip, pos);
    ListSize(views[calls], 2 * num, skip);
    hide Growing;
    var txs := ListTransactions(views[calls], 2 * num, skip);
    assert i <= pos && txs[..i] == views[0][pos - i..pos];
    NewestFirstExtend(views[0], pos, pos - i);
    NewestFirstPrefix(views[0], pos - i);
    if i > 0 {
      assert txs[0] == txs[..i][0];
    }
  }

  /** The generator.  Whatever is appended while it runs, it yields a prefix of the history
      as it was at the first call, newest first; and once it finishes it has yielded exactly
      that history.  It finishes unless the consumer stops it, and each call it makes after
      the second is paid for by a doubling of the history it has seen. */
  method YieldTransactions(views: Views) returns (out: seq<Entry>, finished: bool, calls: nat)
    requires WellBehaved(views)
    ensures calls <= |views| && (!finished ==> calls == |views|)
    ensures views != [] ==> out <= NewestFirst(views[0])
    ensures finished ==> views != [] && out == NewestFirst(views[0])
    ensures views != [] && views[0] != [] ==> out != []
    ensures calls >= 2 ==> Pow2(calls - 2) <= |views[calls - 2]|
    ensures views != [] && Pow2(|views| - 1) > |views[|views| - 1]| ==> finished
  {
    hide NewestFirst, Distinct, WellBehaved, Pow2, Progress, ListTransactions;
    NothingToList(1, 0);
    out, finished, calls := [], false, 0;
    if views == [] {
      return;
    }
    var num: nat, skip: nat := 1, 0;
    var txs := ListTransactions(views[0], num, skip);
    calls := 1;
    if txs == [] {
      finished := true;
      return;
    }
    Start(views);
    var yieldedTx := txs[0];
    out := [yieldedTx];
    ghost var pos: nat := |views[0]| - 1;
    while calls < |views|
      invariant 1 <= calls <= |views| && out != []
      invariant Progress(views, calls, num, skip, yieldedTx, pos, out)
    {
      SkipStep(views, calls, num, skip, yieldedTx, pos, out);
      ghost var lastNum := num;
      num := num * 2;
      txs := ListTransactions(views[calls], num, skip);
      calls := calls + 1;
      if txs == [] {
        finished := true;
        return;
      }
      var idx := IndexOf(txs, yieldedTx);
      if idx.NotFound? {
        skip := skip + num;
        continue;
      }
      Yielded(views, calls - 1, lastNum, skip, yieldedTx, pos, out);
      FoundStep(views, calls - 1, lastNum, skip, yieldedTx, pos, out, idx.i);
      yieldedTx, out := YieldOlder(txs[..idx.i], yieldedTx, out);
      if |txs| < num {
        finished := true;
        return;
      }
      pos := pos - idx.i;
      skip := skip + (num - 1);
    }
    Yielded(views, calls, num, skip, yieldedTx, pos, out);
  }
}
