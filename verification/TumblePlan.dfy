/** The shape of a tumbler schedule (src/jmclient/schedule.py, `get_tumble_schedule`).

  Stage 1 sweeps every funded mixdepth into the next one.  Stage 2 is a list of blocks, one
  per mixdepth visited; a block spends random fractions and ends in a sweep.  This module
  says what the finished schedule looks like as a function of the drafted blocks. */
module TumblePlan {
  import opened Residues

  const NO_ROUNDING: int := 16

  datatype Dest = Internal | AddrAsk | Addr(address: string)

  datatype Entry = Entry(src: nat, amount: real, makers: int, dest: Dest, wait: real, rounding: int, completed: int)

  type Block = b: seq<Entry> | b != [] witness [Entry(0, 0.0, 0, Internal, 0.0, 0, 0)]

  function Last(b: Block): Entry {
    b[|b| - 1]
  }

  ghost predicate AllFrom(txs: seq<Entry>, src: nat) {
    forall i :: 0 <= i < |txs| ==> txs[i].src == src
  }

  ghost predicate NoneFrom(txs: seq<Entry>, src: nat) {
    forall i :: 0 <= i < |txs| ==> txs[i].src != src
  }

  function Flatten(bs: seq<Block>): seq<Entry> {
    if bs == [] then [] else Flatten(bs[..|bs| - 1]) + bs[|bs| - 1]
  }

  lemma {:induction false} FlattenConcat(a: seq<Block>, b: seq<Block>)
    ensures Flatten(a + b) == Flatten(a) + Flatten(b)
    decreases |b|
  {
    if b == [] {
      assert a + b == a;
    } else {
      var n := |b| - 1;
      FlattenConcat(a, b[..n]);
      assert (a + b)[..|a + b| - 1] == a + b[..n];
      assert Flatten(a) + (Flatten(b[..n]) + b[n]) == Flatten(a) + Flatten(b[..n]) + b[n];
    }
  }

  lemma FlattenOne(b: Block)
    ensures Flatten([b]) == b
  {
    assert [b][..0] == [];
    assert Flatten([b][..0]) == [];
  }

  lemma SplitAt(bs: seq<Block>, j: nat)
    requires j < |bs|
    ensures bs == bs[..j] + [bs[j]] + bs[j + 1..]
  {}

  /** A block and what surrounds it. */
  lemma FlattenAt(bs: seq<Block>, j: nat)
    requires j < |bs|
    ensures Flatten(bs) == Flatten(bs[..j]) + bs[j] + Flatten(bs[j + 1..])
  {
    hide Flatten;
    var a, c := bs[..j], bs[j + 1..];
    SplitAt(bs, j);
    FlattenConcat(a + [bs[j]], c);
    FlattenConcat(a, [bs[j]]);
    FlattenOne(bs[j]);
  }

  lemma {:induction false} FlattenMembers(bs: seq<Block>, e: Entry)
    ensures e in Flatten(bs) <==> exists m :: 0 <= m < |bs| && e in bs[m]
  {
    if bs != [] {
      var n := |bs| - 1;
      FlattenMembers(bs[..n], e);
      if m :| 0 <= m < |bs| && e in bs[m] {
        assert m < n ==> e in bs[..n][m];
      }
    }
  }

  // ---------- the mixdepths of stage 2 ----------

  /** The mixdepth that the `m`-th block of stage 2 empties. */
  function Depth(low: nat, m: nat, depths: nat): (d: nat)
    requires depths > 0
    ensures d < depths
  {
    Mod(low + m, depths)
  }

  /** Blocks less than a full cycle apart have different mixdepths. */
  lemma DepthsDiffer(low: nat, j: nat, m: nat, depths: nat)
    requires depths > 0 && j < m < j + depths
    ensures Depth(low, j, depths) != Depth(low, m, depths)
  {
    ModStep(low + j, m - j, depths);
  }

  // ---------- from drafted blocks to the schedule ----------

  /** A drafted block: all entries leave `src` for the next mixdepth, the last one sweeps. */
  ghost predicate Drafted(b: Block, src: nat) {
    && (forall i :: 0 <= i < |b| ==> b[i].src == src && b[i].dest == Internal && b[i].completed == 0)
    && Last(b).amount == 0.0 && Last(b).rounding == NO_ROUNDING
  }

  ghost predicate AllDrafted(blocks: seq<Block>, low: nat, depths: nat)
    requires depths > 0
  {
    forall m :: 0 <= m < |blocks| ==> Drafted(blocks[m], Depth(low, m, depths))
  }

  function WithLastDest(b: Block, d: Dest): Block {
    b[|b| - 1 := Last(b).(dest := d)]
  }

  /** The `m`-th block once the last `k` blocks have been given external destinations: the
      very last block keeps only its sweep. */
  function FinalBlock(blocks: seq<Block>, m: nat, externals: seq<Dest>, k: nat): Block
    requires m < |blocks| && k <= |blocks| && k <= |externals|
  {
    var c := |blocks|;
    if m < c - k then blocks[m]
    else if m == c - 1 then [Last(blocks[m]).(dest := externals[0])]
    else WithLastDest(blocks[m], externals[c - 1 - m])
  }

  function FinalBlocks(blocks: seq<Block>, externals: seq<Dest>, k: nat): (r: seq<Block>)
    requires k <= |blocks| && k <= |externals|
    ensures |r| == |blocks|
    ensures forall m :: 0 <= m < |r| ==> r[m] == FinalBlock(blocks, m, externals, k)
  {
    seq(|blocks|, m requires 0 <= m < |blocks| => FinalBlock(blocks, m, externals, k))
  }

  function Reverse<T>(s: seq<T>): (r: seq<T>)
    ensures |r| == |s| && forall i :: 0 <= i < |s| ==> r[i] == s[|s| - 1 - i]
  {
    seq(|s|, i requires 0 <= i < |s| => s[|s| - 1 - i])
  }

  function Addresses(destaddrs: seq<string>): (r: seq<Dest>)
    ensures |r| == |destaddrs| && forall i :: 0 <= i < |r| ==> r[i] == Addr(destaddrs[i])
  {
    seq(|destaddrs|, i requires 0 <= i < |destaddrs| => Addr(destaddrs[i]))
  }

  function Asks(n: int): (r: seq<Dest>)
    ensures |r| == (if n > 0 then n else 0) && forall i :: 0 <= i < |r| ==> r[i] == AddrAsk
  {
    if n <= 0 then [] else seq(n, _ => AddrAsk)
  }

  /** `external_dest_addrs`: missing addresses are asked for, given ones come in reverse. */
  function Externals(addrcount: nat, destaddrs: seq<string>): (r: seq<Dest>)
    ensures |r| >= addrcount && forall i :: 0 <= i < |r| ==> r[i] != Internal
  {
    Asks(addrcount - |destaddrs|) + Reverse(Addresses(destaddrs))
  }

  // ---------- searching and removing, as Python lists do ----------

  /** Python's `list.remove`: drop the first equal element. */
  function RemoveFirst<T(==)>(s: seq<T>, x: T): seq<T> {
    if s == [] then [] else if s[0] == x then s[1..] else [s[0]] + RemoveFirst(s[1..], x)
  }

  lemma {:induction false} RemoveFirstAfter<T>(a: seq<T>, b: seq<T>, x: T)
    requires x !in a
    ensures RemoveFirst(a + b, x) == a + RemoveFirst(b, x)
  {
    if a == [] {
      assert a + b == b;
    } else {
      assert (a + b)[1..] == a[1..] + b;
      RemoveFirstAfter(a[1..], b, x);
    }
  }

  lemma {:induction false} RemoveFirstBefore<T>(a: seq<T>, b: seq<T>, x: T)
    requires x in a
    ensures RemoveFirst(a + b, x) == RemoveFirst(a, x) + b
    ensures multiset(RemoveFirst(a, x)) == multiset(a) - multiset{x}
  {
    assert a == [a[0]] + a[1..];
    assert (a + b)[1..] == a[1..] + b;
    if a[0] != x {
      RemoveFirstBefore(a[1..], b, x);
    }
  }

  function RemoveAll<T(==)>(s: seq<T>, xs: seq<T>): seq<T>
    decreases |xs|
  {
    if xs == [] then s else RemoveAll(RemoveFirst(s, xs[0]), xs[1..])
  }

  /** Removing the elements of a middle part, in any order, leaves what surrounds it, as long
      as none of them occurs before it. */
  lemma {:induction false} RemoveMiddle<T>(a: seq<T>, mid: seq<T>, c: seq<T>, xs: seq<T>)
    requires multiset(xs) == multiset(mid) && forall x :: x in mid ==> x !in a
    ensures RemoveAll(a + mid + c, xs) == a + c
    decreases |xs|
  {
    assert |xs| == |multiset(xs)| == |mid|;
    if xs == [] {
      assert a + mid + c == a + c;
    } else {
      var x := xs[0];
      assert xs == [x] + xs[1..];
      assert x in multiset(mid);
      assert a + mid + c == a + (mid + c);
      RemoveFirstAfter(a, mid + c, x);
      RemoveFirstBefore(mid, c, x);
      var mid' := RemoveFirst(mid, x);
      forall y | y in mid' ensures y in mid {
        assert y in multiset(mid');
      }
      assert a + (mid' + c) == a + mid' + c;
      RemoveMiddle(a, mid', c, xs[1..]);
    }
  }
}
