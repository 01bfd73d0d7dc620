/** Output descriptor checksums (src/jmbitcoin/output_descriptors.py). */
module DescriptorChecksum {
  // A descriptor is expanded into a stream of 5-bit symbols: one symbol per character (its
  // position modulo 32) and, after every third character, one more symbol that packs the three
  // character classes (position divided by 32). The stream is fed into a 40-bit linear
  // register. The result of this module is that the register is linear and injective, hence
  // that every corruption confined to two consecutive groups of three characters is detected,
  // for descriptors of any length.

  // The input charset, by class: a position is a class times 32 plus a place in it.
  const CLASS_0: string := "0123456789()[],'/*abcdefgh@:$%{}"
  const CLASS_1: string := "IJKLMNOPQRSTUVWXYZ&+-.;<=>?!^_|~"
  const CLASS_2: string := "ijklmnopqrstuvwxyzABCDEFGH`#\"\\ "
  const INPUT_CHARSET: string := CLASS_0 + CLASS_1 + CLASS_2
  const CHECKSUM_CHARSET: string := "qpzry9x8gf2tvdw0s3jn54khce6mua7l"

  // ---------- the register ----------

  /** Exclusive or.  It has a name so that proofs can reason about it algebraically,
      without looking at bits. */
  function Xor(a: bv40, b: bv40): bv40 {
    a ^ b
  }

  /** The generator constant `gen`, if its bit of the shifted-out symbol is set. */
  function Tap(on: bool, gen: bv40): bv40 {
    if on then gen else 0
  }

  function Shifted(c: bv40): bv40 {
    (c & 0x7ffffffff) << 5
  }

  /** One step of the register: shift one symbol out, one in, and reduce. */
  function PolyMod(c: bv40, val: bv40): bv40 {
    var c0 := c >> 35;
    var r := Xor(Shifted(c), val);
    var r := Xor(r, Tap(c0 & 1 != 0, 0xf5dee51989));
    var r := Xor(r, Tap(c0 & 2 != 0, 0xa9fdca3312));
    var r := Xor(r, Tap(c0 & 4 != 0, 0x1bab10e32d));
    var r := Xor(r, Tap(c0 & 8 != 0, 0x3706b1677a));
    Xor(r, Tap(c0 & 16 != 0, 0x644d626ffd))
  }

  function Feed(c: bv40, syms: seq<bv40>): bv40
    decreases |syms|
  {
    if syms == [] then c else Feed(PolyMod(c, syms[0]), syms[1..])
  }

  lemma XorUnits(g: bv40)
    ensures Xor(g, g) == 0 && Xor(g, 0) == g && Xor(0, g) == g
  {}

  lemma XorCommutative(a: bv40, b: bv40)
    ensures Xor(a, b) == Xor(b, a)
  {}

  lemma XorAssociative(a: bv40, b: bv40, c: bv40)
    ensures Xor(Xor(a, b), c) == Xor(a, Xor(b, c))
  {}

  lemma XorExchange(a: bv40, b: bv40, c: bv40, d: bv40)
    ensures Xor(Xor(a, b), Xor(c, d)) == Xor(Xor(a, c), Xor(b, d))
  {
    hide Xor;
    XorAssociative(a, b, Xor(c, d));
    XorAssociative(b, c, d);
    XorCommutative(b, c);
    XorAssociative(c, b, d);
    XorAssociative(a, c, Xor(b, d));
  }

  lemma XorZero(a: bv40, b: bv40)
    ensures Xor(a, b) == 0 <==> a == b
  {
    hide Xor;
    XorAssociative(a, b, b);
    XorUnits(a);
    XorUnits(b);
  }

  lemma TapLinear(p: bool, q: bool, gen: bv40)
    ensures Tap(p != q, gen) == Xor(Tap(p, gen), Tap(q, gen))
  {
    hide Xor;
    XorUnits(gen);
    XorUnits(0);
  }

  lemma ShiftedLinear(a: bv40, b: bv40)
    ensures Shifted(Xor(a, b)) == Xor(Shifted(a), Shifted(b))
  {}

  lemma TopLinear(a: bv40, b: bv40)
    ensures Xor(a, b) >> 35 == (a >> 35) ^ (b >> 35)
  {}

  lemma BitsLinear(x: bv40, y: bv40)
    ensures ((x ^ y) & 1 != 0) == ((x & 1 != 0) != (y & 1 != 0))
    ensures ((x ^ y) & 2 != 0) == ((x & 2 != 0) != (y & 2 != 0))
    ensures ((x ^ y) & 4 != 0) == ((x & 4 != 0) != (y & 4 != 0))
    ensures ((x ^ y) & 8 != 0) == ((x & 8 != 0) != (y & 8 != 0))
    ensures ((x ^ y) & 16 != 0) == ((x & 16 != 0) != (y & 16 != 0))
  {}

  lemma TapStep(r: bv40, s: bv40, p: bool, q: bool, gen: bv40)
    ensures Xor(Xor(r, s), Tap(p != q, gen)) == Xor(Xor(r, Tap(p, gen)), Xor(s, Tap(q, gen)))
  {
    hide Xor, Tap;
    TapLinear(p, q, gen);
    XorExchange(r, s, Tap(p, gen), Tap(q, gen));
  }

  /** The register is linear over GF(2). */
  lemma PolyModLinear(a: bv40, b: bv40, u: bv40, v: bv40)
    ensures PolyMod(Xor(a, b), Xor(u, v)) == Xor(PolyMod(a, u), PolyMod(b, v))
  {
    hide Xor, Tap, Shifted;
    var a0, b0 := a >> 35, b >> 35;
    ShiftedLinear(a, b);
    TopLinear(a, b);
    BitsLinear(a0, b0);
    var r, s := Xor(Shifted(a), u), Xor(Shifted(b), v);
    XorExchange(Shifted(a), Shifted(b), u, v);
    TapStep(r, s, a0 & 1 != 0, b0 & 1 != 0, 0xf5dee51989);
    r, s := Xor(r, Tap(a0 & 1 != 0, 0xf5dee51989)), Xor(s, Tap(b0 & 1 != 0, 0xf5dee51989));
    TapStep(r, s, a0 & 2 != 0, b0 & 2 != 0, 0xa9fdca3312);
    r, s := Xor(r, Tap(a0 & 2 != 0, 0xa9fdca3312)), Xor(s, Tap(b0 & 2 != 0, 0xa9fdca3312));
    TapStep(r, s, a0 & 4 != 0, b0 & 4 != 0, 0x1bab10e32d);
    r, s := Xor(r, Tap(a0 & 4 != 0, 0x1bab10e32d)), Xor(s, Tap(b0 & 4 != 0, 0x1bab10e32d));
    TapStep(r, s, a0 & 8 != 0, b0 & 8 != 0, 0x3706b1677a);
    r, s := Xor(r, Tap(a0 & 8 != 0, 0x3706b1677a)), Xor(s, Tap(b0 & 8 != 0, 0x3706b1677a));
    TapStep(r, s, a0 & 16 != 0, b0 & 16 != 0, 0x644d626ffd);
  }

  /** The low symbol of what the generators contribute; only zero contributes nothing. */
  lemma TapsLow(s: bv40, p0: bool, p1: bool, p2: bool, p3: bool, p4: bool)
    requires s & 31 == 0 && (p0 || p1 || p2 || p3 || p4)
    ensures s ^ (if p0 then 0xf5dee51989 else 0) ^ (if p1 then 0xa9fdca3312 else 0)
              ^ (if p2 then 0x1bab10e32d else 0) ^ (if p3 then 0x3706b1677a else 0)
              ^ (if p4 then 0x644d626ffd else 0) != 0
  {}

  lemma ShiftedKernel(x: bv40)
    ensures Shifted(x) & 31 == 0
    ensures Shifted(x) == 0 && x >> 35 == 0 ==> x == 0
  {}

  lemma SomeBit(t: bv40)
    requires t < 32 && t != 0
    ensures t & 1 != 0 || t & 2 != 0 || t & 4 != 0 || t & 8 != 0 || t & 16 != 0
  {}

  lemma TopSmall(x: bv40)
    ensures x >> 35 < 32
  {}

  lemma PolyModKernel(x: bv40)
    requires x != 0
    ensures PolyMod(x, 0) != 0
  {
    hide Shifted;
    ShiftedKernel(x);
    var t := x >> 35;
    XorUnits(Shifted(x));
    if t == 0 {
      assert (0 as bv40) & 1 == 0 && (0 as bv40) & 2 == 0 && (0 as bv40) & 4 == 0
          && (0 as bv40) & 8 == 0 && (0 as bv40) & 16 == 0;
    } else {
      TopSmall(x);
      SomeBit(t);
      TapsLow(Shifted(x), t & 1 != 0, t & 2 != 0, t & 4 != 0, t & 8 != 0, t & 16 != 0);
    }
  }

  /** Two different registers stay different under the same input symbol. */
  lemma PolyModInjective(a: bv40, b: bv40, v: bv40)
    ensures PolyMod(a, v) == PolyMod(b, v) <==> a == b
  {
    hide PolyMod, Xor;
    PolyModLinear(a, b, v, v);
    XorZero(PolyMod(a, v), PolyMod(b, v));
    XorZero(a, b);
    XorUnits(v);
    if a != b {
      PolyModKernel(Xor(a, b));
    }
  }

  lemma {:induction false} FeedInjective(a: bv40, b: bv40, syms: seq<bv40>)
    ensures Feed(a, syms) == Feed(b, syms) <==> a == b
    decreases |syms|
  {
    hide PolyMod;
    if syms != [] {
      PolyModInjective(a, b, syms[0]);
      FeedInjective(PolyMod(a, syms[0]), PolyMod(b, syms[0]), syms[1..]);
    }
  }

  lemma {:induction false} FeedConcat(c: bv40, s: seq<bv40>, t: seq<bv40>)
    ensures Feed(c, s + t) == Feed(Feed(c, s), t)
    decreases |s|
  {
    hide PolyMod;
    if s == [] {
      assert s + t == t;
    } else {
      assert (s + t)[1..] == s[1..] + t;
      FeedConcat(PolyMod(c, s[0]), s[1..], t);
    }
  }

  // ---------- the first eight symbols are stored without reduction ----------

  /** The largest register that `j` symbols can fill starting from zero. */
  function Filled(j: nat): bv40
    requires j <= 8
  {
    match j
    case 0 => 0
    case 1 => 0x1f
    case 2 => 0x3ff
    case 3 => 0x7fff
    case 4 => 0xfffff
    case 5 => 0x1ffffff
    case 6 => 0x3fffffff
    case 7 => 0x7ffffffff
    case 8 => 0xffffffffff
  }

  lemma NoReduction(s: bv40)
    requires s <= 0x7ffffffff
    ensures s >> 35 == 0 && Shifted(s) == s << 5
  {}

  lemma PushUnreduced(s: bv40, v: bv40)
    requires s <= 0x7ffffffff
    ensures PolyMod(s, v) == Xor(s << 5, v)
  {
    hide Xor, Shifted;
    NoReduction(s);
    assert (0 as bv40) & 1 == 0 && (0 as bv40) & 2 == 0 && (0 as bv40) & 4 == 0
        && (0 as bv40) & 8 == 0 && (0 as bv40) & 16 == 0;
    XorUnits(Xor(s << 5, v));
  }

  lemma FilledBound(s: bv40, j: nat)
    requires j < 8 && s <= Filled(j)
    ensures s <= 0x7ffffffff
  {}

  predicate Fits(s: bv40, j: nat)
    requires j <= 8
  {
    s <= Filled(j)
  }

  predicate IsSymbol(v: bv40) {
    v < 32
  }

  lemma PushInjective(s: bv40, t: bv40, u: bv40, v: bv40, j: nat)
    requires j < 8 && Fits(s, j) && Fits(t, j) && IsSymbol(u) && IsSymbol(v)
    requires PolyMod(s, u) == PolyMod(t, v)
    ensures s == t && u == v
  {
    FilledBound(s, j);
    FilledBound(t, j);
    PushUnreduced(s, u);
    PushUnreduced(t, v);
  }

  lemma PushBound(s: bv40, v: bv40, j: nat)
    requires j < 8 && Fits(s, j) && IsSymbol(v)
    ensures Fits(PolyMod(s, v), j + 1)
  {
    FilledBound(s, j);
    PushUnreduced(s, v);
  }

  predicate Symbols(syms: seq<bv40>) {
    forall i :: 0 <= i < |syms| ==> IsSymbol(syms[i])
  }

  lemma SymbolsTail(x: seq<bv40>)
    requires x != [] && Symbols(x)
    ensures IsSymbol(x[0]) && Symbols(x[1..])
  {}

  /** From a register holding at most `j` symbols, eight minus `j` further symbols can be
      read back: different streams give different registers. */
  lemma {:induction false} ShortFeedInjective(s: bv40, t: bv40, x: seq<bv40>, y: seq<bv40>, j: nat)
    requires |x| == |y| && j + |x| <= 8 && Symbols(x) && Symbols(y)
    requires Fits(s, j) && Fits(t, j)
    requires Feed(s, x) == Feed(t, y)
    ensures s == t && x == y
    decreases |x|
  {
    hide PolyMod, Fits, IsSymbol, Symbols;
    if x != [] {
      SymbolsTail(x);
      SymbolsTail(y);
      PushBound(s, x[0], j);
      PushBound(t, y[0], j);
      ShortFeedInjective(PolyMod(s, x[0]), PolyMod(t, y[0]), x[1..], y[1..], j + 1);
      PushInjective(s, t, x[0], y[0], j);
      assert x == [x[0]] + x[1..] && y == [y[0]] + y[1..];
    }
  }

  function XorAll(x: seq<bv40>, y: seq<bv40>): (z: seq<bv40>)
    requires |x| == |y|
    ensures |z| == |x|
    ensures forall i :: 0 <= i < |x| ==> z[i] == Xor(x[i], y[i])
    decreases |x|
  {
    if x == [] then [] else [Xor(x[0], y[0])] + XorAll(x[1..], y[1..])
  }

  lemma {:induction false} FeedLinear(a: bv40, b: bv40, x: seq<bv40>, y: seq<bv40>)
    requires |x| == |y|
    ensures Feed(Xor(a, b), XorAll(x, y)) == Xor(Feed(a, x), Feed(b, y))
    decreases |x|
  {
    hide PolyMod, Xor;
    if x != [] {
      PolyModLinear(a, b, x[0], y[0]);
      assert XorAll(x, y)[1..] == XorAll(x[1..], y[1..]);
      FeedLinear(PolyMod(a, x[0]), PolyMod(b, y[0]), x[1..], y[1..]);
    }
  }

  lemma XorSymbols(u: bv40, v: bv40)
    requires IsSymbol(u) && IsSymbol(v)
    ensures IsSymbol(Xor(u, v))
  {}

  lemma PolyModZero()
    ensures PolyMod(0, 0) == 0
  {}

  lemma {:induction false} ZeroFeed(zeros: seq<bv40>)
    requires forall i :: 0 <= i < |zeros| ==> zeros[i] == 0
    ensures Feed(0, zeros) == 0
    decreases |zeros|
  {
    hide PolyMod;
    if zeros != [] {
      PolyModZero();
      ZeroFeed(zeros[1..]);
    }
  }

  /** Up to eight consecutive symbols can be read back from any common starting register. */
  lemma {:induction false} BurstInjective(c: bv40, x: seq<bv40>, y: seq<bv40>)
    requires |x| == |y| <= 8 && Symbols(x) && Symbols(y)
    requires Feed(c, x) == Feed(c, y)
    ensures x == y
  {
    hide PolyMod, Xor, Feed;
    var d := XorAll(x, y);
    FeedLinear(c, c, x, y);
    XorUnits(c);
    XorUnits(Feed(c, x));
    forall i | 0 <= i < |d| ensures IsSymbol(d[i]) {
      XorSymbols(x[i], y[i]);
    }
    var zeros := Zeros(|d|);
    ZeroFeed(zeros);
    ShortFeedInjective(0, 0, d, zeros, 0);
    forall i | 0 <= i < |x| ensures x[i] == y[i] {
      assert d[i] == zeros[i];
      XorZero(x[i], y[i]);
    }
  }

  // ---------- from characters to symbols ----------

  /** Python's `str.find` for one character, searching from index `from`. */
  function Find(s: string, ch: char, from: nat): (r: int)
    requires from <= |s|
    ensures r == -1 <==> ch !in s[from..]
    ensures r != -1 ==> from <= r < |s| && s[r] == ch && ch !in s[from..r]
    decreases |s| - from
  {
    if from == |s| then -1
    else if s[from] == ch then from
    else
      assert s[from..] == [s[from]] + s[from + 1..];
      var r := Find(s, ch, from + 1);
      assert r != -1 ==> s[from..r] == [s[from]] + s[from + 1..r];
      r
  }

  /** The position of a character in the input charset, or -1. */
  function Position(ch: char): (r: int)
    ensures -1 <= r < 95
  {
    Find(INPUT_CHARSET, ch, 0)
  }

  lemma PositionMeaning(ch: char)
    ensures Position(ch) == -1 <==> ch !in INPUT_CHARSET
    ensures Position(ch) != -1 ==> INPUT_CHARSET[Position(ch)] == ch
  {
    assert INPUT_CHARSET[0..] == INPUT_CHARSET;
  }

  /** Every character of the descriptor is in the input charset. */
  predicate InCharset(desc: string) {
    forall i :: 0 <= i < |desc| ==> Position(desc[i]) != -1
  }

  predicate InRange(ps: seq<nat>) {
    forall i :: 0 <= i < |ps| ==> ps[i] < 95
  }

  lemma InRangeTail(ps: seq<nat>)
    requires InRange(ps) && ps != []
    ensures ps[0] < 95 && InRange(ps[1..])
  {}

  /** The positions of the characters of a descriptor in the input charset. */
  function Positions(desc: string): (ps: seq<nat>)
    requires InCharset(desc)
    ensures |ps| == |desc| && InRange(ps)
    ensures forall i :: 0 <= i < |ps| ==> ps[i] == Position(desc[i])
  {
    seq(|desc|, i requires 0 <= i < |desc| => Position(desc[i]))
  }

  /** A small natural number as a 40-bit register. */
  function Sym(n: nat): bv40
    requires n < 32
  {
    (n as bv5) as bv40
  }

  lemma Bv5RoundTrip(n: nat)
    requires n < 32
    ensures (n as bv5) as int == n
  {}

  lemma WidenInjective(a: bv5, b: bv5)
    ensures a as bv40 == b as bv40 <==> a == b
  {}

  lemma SymInjective(a: nat, b: nat)
    requires a < 32 && b < 32
    ensures Sym(a) == Sym(b) <==> a == b
  {
    Bv5RoundTrip(a);
    Bv5RoundTrip(b);
    WidenInjective(a as bv5, b as bv5);
  }

  lemma WidenSmall(a: bv5)
    ensures a as bv40 < 32
  {}

  lemma SymSmall(n: nat)
    requires n < 32
    ensures IsSymbol(Sym(n))
  {
    WidenSmall(n as bv5);
  }

  /** Upper bound of a class accumulator after `cnt` characters of a group. */
  function ClassBound(cnt: nat): nat
    requires cnt < 3
  {
    if cnt == 0 then 1 else if cnt == 1 then 3 else 9
  }

  predicate Accumulator(cls: nat, cnt: nat) {
    cnt < 3 && cls < ClassBound(cnt)
  }

  lemma AccumulatorZero()
    ensures Accumulator(0, 0)
  {}

  lemma AccumulatorStep(cls: nat, cnt: nat, p: nat)
    requires Accumulator(cls, cnt) && p < 95
    ensures cls * 3 + p / 32 < 27 && (cnt < 2 ==> Accumulator(cls * 3 + p / 32, cnt + 1))
    ensures Accumulator(0, 0) && cnt < 3 && cls < 9 && (cnt == 0 ==> cls == 0)
  {}

  /** The symbol stream of the characters at positions `ps`, with `cnt` characters of the
      current group already consumed and their classes accumulated in `cls`. */
  function Expand(cls: nat, cnt: nat, ps: seq<nat>): (syms: seq<bv40>)
    requires Accumulator(cls, cnt)
    requires InRange(ps)
    decreases |ps|
  {
    if ps == [] then
      if cnt > 0 then [Sym(cls)] else []
    else
      AccumulatorStep(cls, cnt, ps[0]);
      var cls' := cls * 3 + ps[0] / 32;
      if cnt == 2 then
        [Sym(ps[0] % 32), Sym(cls')] + Expand(0, 0, ps[1..])
      else
        [Sym(ps[0] % 32)] + Expand(cls', cnt + 1, ps[1..])
  }

  lemma {:induction false} ExpandSymbols(cls: nat, cnt: nat, ps: seq<nat>)
    requires Accumulator(cls, cnt)
    requires InRange(ps)
    ensures Symbols(Expand(cls, cnt, ps))
    ensures |Expand(cls, cnt, ps)| == |ps| + (cnt + |ps| + 2) / 3
    decreases |ps|
  {
    hide Sym;
    if ps == [] {
      SymSmall(cls);
    } else {
      AccumulatorStep(cls, cnt, ps[0]);
      var cls' := cls * 3 + ps[0] / 32;
      SymSmall(ps[0] % 32);
      if cnt == 2 {
        SymSmall(cls');
        ExpandSymbols(0, 0, ps[1..]);
      } else {
        ExpandSymbols(cls', cnt + 1, ps[1..]);
      }
    }
  }

  lemma ExpandCharacter(cls: nat, cnt: nat, ps: seq<nat>)
    requires Accumulator(cls, cnt) && InRange(ps) && ps != []
    ensures var low, cls' := Sym(ps[0] % 32), cls * 3 + ps[0] / 32;
            && cls' < 27 && InRange(ps[1..]) && Accumulator(0, 0)
            && (cnt < 2 ==> Accumulator(cls', cnt + 1))
            && Expand(cls, cnt, ps) ==
               if cnt == 2 then [low, Sym(cls')] + Expand(0, 0, ps[1..])
               else [low] + Expand(cls', cnt + 1, ps[1..])
  {
    hide Sym;
    InRangeTail(ps);
    AccumulatorStep(cls, cnt, ps[0]);
  }

  lemma Regroup(a: seq<bv40>, b: seq<bv40>, c: seq<bv40>)
    ensures a + (b + c) == a + b + c
  {}

  /** The stream of a whole number of groups is a prefix of the stream of any extension. */
  lemma {:induction false} ExpandConcat(cls: nat, cnt: nat, p: seq<nat>, q: seq<nat>)
    requires Accumulator(cls, cnt) && (cnt + |p|) % 3 == 0 && (p == [] ==> cls == 0)
    requires InRange(p) && InRange(q) && InRange(p + q)
    ensures Accumulator(0, 0)
    ensures Expand(cls, cnt, p + q) == Expand(cls, cnt, p) + Expand(0, 0, q)
    decreases |p|
  {
    hide Sym, Accumulator, InRange, Expand;
    AccumulatorStep(cls, cnt, 0);
    if p == [] {
      assert p + q == q;
      assert Expand(0, 0, p) == [] by { ExpandSymbols(0, 0, p); }
    } else {
      ExpandCharacter(cls, cnt, p);
      ExpandCharacter(cls, cnt, p + q);
      assert (p + q)[1..] == p[1..] + q;
      var cls' := cls * 3 + p[0] / 32;
      var low := Sym(p[0] % 32);
      if cnt == 2 {
        ExpandConcat(0, 0, p[1..], q);
        Regroup([low, Sym(cls')], Expand(0, 0, p[1..]), Expand(0, 0, q));
      } else {
        ExpandConcat(cls', cnt + 1, p[1..], q);
        Regroup([low], Expand(cls', cnt + 1, p[1..]), Expand(0, 0, q));
      }
    }
  }

  lemma DigitsInjective(a: nat, b: nat, p: nat, q: nat)
    requires p < 95 && q < 95
    requires a * 3 + p / 32 == b * 3 + q / 32 && p % 32 == q % 32
    ensures a == b && p == q
  {}

  lemma ExpandEnd(cls: nat, cnt: nat)
    requires Accumulator(cls, cnt)
    ensures Expand(cls, cnt, []) == if cnt > 0 then [Sym(cls)] else []
  {}

  lemma BelowRange(p: seq<nat>)
    requires InRange(p) && p != []
    ensures p[0] < 95
  {}

  /** No two position lists of one length share a symbol stream. */
  lemma {:induction false} ExpandInjective(a: nat, b: nat, cnt: nat, p: seq<nat>, q: seq<nat>)
    requires Accumulator(a, cnt) && Accumulator(b, cnt) && |p| == |q|
    requires InRange(p)
    requires InRange(q)
    requires Expand(a, cnt, p) == Expand(b, cnt, q)
    ensures a == b && p == q
    decreases |p|
  {
    hide Sym, Accumulator, InRange, Expand;
    AccumulatorStep(a, cnt, 0);
    AccumulatorStep(b, cnt, 0);
    var x, y := Expand(a, cnt, p), Expand(b, cnt, q);
    if p == [] {
      ExpandEnd(a, cnt);
      ExpandEnd(b, cnt);
      if cnt > 0 {
        assert x[0] == y[0];
        SymInjective(a, b);
      }
    } else {
      BelowRange(p);
      BelowRange(q);
      ExpandCharacter(a, cnt, p);
      ExpandCharacter(b, cnt, q);
      var a', b' := a * 3 + p[0] / 32, b * 3 + q[0] / 32;
      assert x[0] == y[0];
      SymInjective(p[0] % 32, q[0] % 32);
      if cnt == 2 {
        assert x[1] == y[1];
        SymInjective(a', b');
        assert x[2..] == Expand(0, 0, p[1..]) && y[2..] == Expand(0, 0, q[1..]);
        ExpandInjective(0, 0, 0, p[1..], q[1..]);
      } else {
        assert x[1..] == Expand(a', cnt + 1, p[1..]) && y[1..] == Expand(b', cnt + 1, q[1..]);
        ExpandInjective(a', b', cnt + 1, p[1..], q[1..]);
      }
      DigitsInjective(a, b, p[0], q[0]);
      assert p == [p[0]] + p[1..] && q == [q[0]] + q[1..];
    }
  }

  // ---------- rendering the register ----------

  function Zeros(n: nat): (zs: seq<bv40>)
    ensures |zs| == n && forall i :: 0 <= i < n ==> zs[i] == 0
  {
    if n == 0 then [] else [0] + Zeros(n - 1)
  }

  /** The `j`-th 5-bit digit of the register, most significant first. */
  function Digit(c: bv40, j: nat): bv40
    requires j < 8
  {
    match j
    case 0 => (c >> 35) & 31
    case 1 => (c >> 30) & 31
    case 2 => (c >> 25) & 31
    case 3 => (c >> 20) & 31
    case 4 => (c >> 15) & 31
    case 5 => (c >> 10) & 31
    case 6 => (c >> 5) & 31
    case 7 => c & 31
  }

  lemma DigitSmall(c: bv40, j: nat)
    requires j < 8
    ensures Digit(c, j) < 32
  {}

  lemma DigitsDetermine(c: bv40, d: bv40)
    requires forall j :: 0 <= j < 8 ==> Digit(c, j) == Digit(d, j)
    ensures c == d
  {
    assert Digit(c, 0) == Digit(d, 0) && Digit(c, 1) == Digit(d, 1) && Digit(c, 2) == Digit(d, 2)
        && Digit(c, 3) == Digit(d, 3) && Digit(c, 4) == Digit(d, 4) && Digit(c, 5) == Digit(d, 5)
        && Digit(c, 6) == Digit(d, 6) && Digit(c, 7) == Digit(d, 7);
  }

  function CharOf(v: bv40): char
    requires v < 32
  {
    CHECKSUM_CHARSET[(v as bv5) as int]
  }

  lemma Bv5Injective(a: bv5, b: bv5)
    ensures a as int == b as int <==> a == b
  {}

  lemma NarrowInjective(u: bv40, v: bv40)
    requires u < 32 && v < 32
    ensures u as bv5 == v as bv5 <==> u == v
  {}

  /** The value of a checksum character: the inverse of indexing CHECKSUM_CHARSET. */
  function ValueOf(ch: char): nat {
    match ch
    case 'q' => 0 case 'p' => 1 case 'z' => 2 case 'r' => 3
    case 'y' => 4 case '9' => 5 case 'x' => 6 case '8' => 7
    case 'g' => 8 case 'f' => 9 case '2' => 10 case 't' => 11
    case 'v' => 12 case 'd' => 13 case 'w' => 14 case '0' => 15
    case 's' => 16 case '3' => 17 case 'j' => 18 case 'n' => 19
    case '5' => 20 case '4' => 21 case 'k' => 22 case 'h' => 23
    case 'c' => 24 case 'e' => 25 case '6' => 26 case 'm' => 27
    case 'u' => 28 case 'a' => 29 case '7' => 30 case 'l' => 31
    case _ => 32
  }

  lemma ValueOfIndex(i: nat)
    requires i < 32
    ensures ValueOf(CHECKSUM_CHARSET[i]) == i
  {
    assert |CHECKSUM_CHARSET| == 32;
  }

  lemma CharOfInjective(u: bv40, v: bv40)
    requires u < 32 && v < 32
    ensures CharOf(u) == CharOf(v) <==> u == v
  {
    var i, j := (u as bv5) as int, (v as bv5) as int;
    Bv5Injective(u as bv5, v as bv5);
    NarrowInjective(u, v);
    ValueOfIndex(i);
    ValueOfIndex(j);
  }

  function Render(c: bv40): (r: string) {
    hide Digit, CharOf;
    seq(8, j requires 0 <= j < 8 => DigitSmall(c, j); CharOf(Digit(c, j)))
  }

  lemma RenderInjective(c: bv40, d: bv40)
    requires Render(c) == Render(d)
    ensures c == d
  {
    hide Digit, CharOf;
    forall j | 0 <= j < 8 ensures Digit(c, j) == Digit(d, j) {
      DigitSmall(c, j);
      DigitSmall(d, j);
      assert Render(c)[j] == Render(d)[j];
      CharOfInjective(Digit(c, j), Digit(d, j));
    }
    DigitsDetermine(c, d);
  }

  /** The tail of the computation: flush the register with zeros and render it. */
  method Finish(absorbed: bv40) returns (ret: string)
    ensures ret == Render(Xor(Feed(absorbed, Zeros(8)), 1))
  {
    hide PolyMod, Xor, Digit, CharOf;
    var c := absorbed;
    for j := 0 to 8
      invariant Feed(c, Zeros(8 - j)) == Feed(absorbed, Zeros(8))
    {
      assert Zeros(8 - j)[1..] == Zeros(7 - j);
      c := PolyMod(c, 0);
    }
    c := Xor(c, 1);
    ret := "";
    for j := 0 to 8
      invariant ret == Render(c)[..j]
    {
      DigitSmall(c, j);
      ret := ret + [CharOf(Digit(c, j))];
    }
  }

  // ---------- the checksum ----------

  /** The checksum of a descriptor; the empty string marks a character outside the charset. */
  function Checksum(desc: string): string {
    if InCharset(desc) then
      Render(Xor(Feed(Feed(1, Expand(0, 0, Positions(desc))), Zeros(8)), 1))
    else ""
  }

  lemma FeedCharacter(c: bv40, cls: nat, cnt: nat, ps: seq<nat>)
    requires Accumulator(cls, cnt) && InRange(ps) && ps != []
    ensures var c' := PolyMod(c, Sym(ps[0] % 32));
            var cls' := cls * 3 + ps[0] / 32;
            && cls' < 27 && InRange(ps[1..]) && Accumulator(0, 0)
            && (cnt < 2 ==> Accumulator(cls', cnt + 1))
            && Feed(c, Expand(cls, cnt, ps)) ==
               if cnt == 2 then Feed(PolyMod(c', Sym(cls')), Expand(0, 0, ps[1..]))
               else Feed(c', Expand(cls', cnt + 1, ps[1..]))
  {
    hide PolyMod, Sym, InRange, Accumulator;
    InRangeTail(ps);
    AccumulatorStep(cls, cnt, ps[0]);
    var c' := PolyMod(c, Sym(ps[0] % 32));
    var syms := Expand(cls, cnt, ps);
    if cnt == 2 {
      assert syms[1..][1..] == Expand(0, 0, ps[1..]);
    }
  }

  lemma FeedEnd(c: bv40, cls: nat, cnt: nat)
    requires Accumulator(cls, cnt) && cls < 9 && InRange([])
    ensures Feed(c, Expand(cls, cnt, [])) == if cnt > 0 then PolyMod(c, Sym(cls)) else c
  {
    hide PolyMod, Sym;
  }

  /** The checksum as the program computes it, one character at a time. */
  method DescriptorChecksumOf(desc: string) returns (ret: string)
    ensures ret == Checksum(desc)
  {
    hide PolyMod, Xor, Sym, Digit, CharOf, Position, InRange, Accumulator, Feed, Expand, Render;
    var c: bv40 := 1;
    var cls: nat, clscount: nat := 0, 0;
    assert Accumulator(0, 0) by { AccumulatorZero(); }
    ghost var ps := if InCharset(desc) then Positions(desc) else [];
    for i := 0 to |desc|
      invariant Accumulator(cls, clscount) && clscount < 3
      invariant forall k :: 0 <= k < i ==> Position(desc[k]) != -1
      invariant InCharset(desc) ==>
        InRange(ps[i..]) && Feed(c, Expand(cls, clscount, ps[i..])) == Feed(1, Expand(0, 0, ps))
    {
      var pos := Position(desc[i]);
      if pos == -1 {
        return "";
      }
      if InCharset(desc) {
        FeedCharacter(c, cls, clscount, ps[i..]);
        assert ps[i..][1..] == ps[i + 1..];
      }
      AccumulatorStep(cls, clscount, pos);
      c := PolyMod(c, Sym(pos % 32));
      cls := cls * 3 + pos / 32;
      clscount := clscount + 1;
      if clscount == 3 {
        c := PolyMod(c, Sym(cls));
        cls, clscount := 0, 0;
      }
    }
    AccumulatorStep(cls, clscount, 0);
    assert ps[|desc|..] == [];
    FeedEnd(c, cls, clscount);
    if clscount > 0 {
      c := PolyMod(c, Sym(cls));
    }
    assert c == Feed(1, Expand(0, 0, ps));
    ret := Finish(c);
  }

  // ---------- what the checksum detects ----------

  ghost predicate AgreeOutside(a: string, b: string, lo: nat, hi: nat) {
    |a| == |b| && forall i :: 0 <= i < |a| && !(lo <= i < hi) ==> a[i] == b[i]
  }

  lemma PositionsInjective(a: string, b: string)
    requires InCharset(a) && InCharset(b) && Positions(a) == Positions(b)
    ensures a == b
  {
    var ps := Positions(a);
    forall i | 0 <= i < |a| ensures a[i] == b[i] {
      assert ps[i] == Position(a[i]) == Position(b[i]);
      PositionMeaning(a[i]);
      PositionMeaning(b[i]);
    }
  }

  /** A stream splits at group boundaries into three independent streams. */
  lemma {:induction false} ExpandThree(p: seq<nat>, m: seq<nat>, r: seq<nat>)
    requires InRange(p) && InRange(m) && InRange(r)
    requires |p| % 3 == 0 && (|m| % 3 == 0 || r == [])
    ensures InRange(p + m + r) && Accumulator(0, 0)
    ensures Expand(0, 0, p + m + r) == Expand(0, 0, p) + Expand(0, 0, m) + Expand(0, 0, r)
  {
    hide Sym, Expand;
    assert p + m + r == p + (m + r);
    ExpandConcat(0, 0, p, m + r);
    if r == [] {
      assert m + r == m;
      assert Expand(0, 0, r) == [] by { ExpandSymbols(0, 0, r); }
    } else {
      ExpandConcat(0, 0, m, r);
      Regroup(Expand(0, 0, p), Expand(0, 0, m), Expand(0, 0, r));
    }
  }

  /** If the register cannot tell two streams with a common start and end apart, then the
      at most six characters in between are the same. */
  lemma {:induction false} MiddleRecovered(p: seq<nat>, m: seq<nat>, m': seq<nat>, r: seq<nat>)
    requires InRange(p) && InRange(m) && InRange(m') && InRange(r) && Accumulator(0, 0)
    requires |p| % 3 == 0 && (|m| % 3 == 0 || r == []) && |m| == |m'| <= 6
    requires Feed(1, Expand(0, 0, p) + Expand(0, 0, m) + Expand(0, 0, r))
          == Feed(1, Expand(0, 0, p) + Expand(0, 0, m') + Expand(0, 0, r))
    ensures m == m'
  {
    hide Sym, Expand, Feed, Accumulator, InRange;
    var e, x, y, z := Expand(0, 0, p), Expand(0, 0, m), Expand(0, 0, m'), Expand(0, 0, r);
    FeedConcat(1, e + x, z);
    FeedConcat(1, e + y, z);
    FeedInjective(Feed(1, e + x), Feed(1, e + y), z);
    FeedConcat(1, e, x);
    FeedConcat(1, e, y);
    ExpandSymbols(0, 0, m);
    ExpandSymbols(0, 0, m');
    BurstInjective(Feed(1, e), x, y);
    ExpandInjective(0, 0, 0, m, m');
  }

  lemma SameRegister(a: string, b: string)
    requires InCharset(a) && InCharset(b) && Checksum(a) == Checksum(b)
    ensures Accumulator(0, 0)
    ensures Feed(1, Expand(0, 0, Positions(a))) == Feed(1, Expand(0, 0, Positions(b)))
  {
    hide Xor, Render, Feed, Expand, Position;
    var c, d := Feed(1, Expand(0, 0, Positions(a))), Feed(1, Expand(0, 0, Positions(b)));
    var c', d' := Feed(c, Zeros(8)), Feed(d, Zeros(8));
    RenderInjective(Xor(c', 1), Xor(d', 1));
    XorCancel(c', d', 1);
    FeedInjective(c, d, Zeros(8));
  }

  lemma XorCancel(a: bv40, b: bv40, v: bv40)
    requires Xor(a, v) == Xor(b, v)
    ensures a == b
  {}

  lemma SliceInRange(ps: seq<nat>, lo: nat, hi: nat)
    requires InRange(ps) && lo <= hi <= |ps|
    ensures InRange(ps[lo..hi])
  {}

  lemma {:induction false} PositionsRecovered(ps: seq<nat>, qs: seq<nat>, lo: nat, hi: nat)
    requires InRange(ps) && InRange(qs) && |ps| == |qs| && Accumulator(0, 0)
    requires lo % 3 == 0 && lo <= hi <= |ps| && hi <= lo + 6 && ((hi - lo) % 3 == 0 || hi == |ps|)
    requires ps[..lo] == qs[..lo] && ps[hi..] == qs[hi..]
    requires Feed(1, Expand(0, 0, ps)) == Feed(1, Expand(0, 0, qs))
    ensures ps == qs
  {
    hide Expand, Feed, InRange, Accumulator;
    var p, m, m', r := ps[0..lo], ps[lo..hi], qs[lo..hi], ps[hi..|ps|];
    SliceInRange(ps, 0, lo);
    SliceInRange(ps, lo, hi);
    SliceInRange(qs, lo, hi);
    SliceInRange(ps, hi, |ps|);
    assert ps == p + m + r && qs == p + m' + r;
    ExpandThree(p, m, r);
    ExpandThree(p, m', r);
    MiddleRecovered(p, m, m', r);
  }

  /** Main result: two descriptors of one length that agree outside two consecutive groups
      of three characters have the same checksum only if they are the same descriptor. */
  lemma DetectsBurst(a: string, b: string, group: nat)
    requires InCharset(a) && InCharset(b)
    requires AgreeOutside(a, b, 3 * group, 3 * group + 6)
    ensures Checksum(a) == Checksum(b) <==> a == b
  {
    hide Expand, Feed, InRange, Position, Checksum;
    if Checksum(a) == Checksum(b) {
      SameRegister(a, b);
      var ps, qs := Positions(a), Positions(b);
      var lo := if 3 * group <= |a| then 3 * group else |a| - |a| % 3;
      var hi := if lo + 6 <= |a| then lo + 6 else |a|;
      forall i | 0 <= i < |a| && !(lo <= i < hi) ensures ps[i] == qs[i] {
        assert a[i] == b[i];
      }
      PositionsRecovered(ps, qs, lo, hi);
      PositionsInjective(a, b);
    }
  }

  /** In particular, changing any one character of any descriptor changes its checksum. */
  lemma DetectsSubstitution(a: string, i: nat, ch: char)
    requires InCharset(a) && i < |a| && Position(ch) != -1 && ch != a[i]
    ensures InCharset(a[i := ch]) && Checksum(a[i := ch]) != Checksum(a)
  {
    hide Checksum, Position;
    var b := a[i := ch];
    assert b[i] == ch;
    DetectsBurst(a, b, i / 3);
  }

  // ---------- address descriptors ----------

  function AddChecksum(desc: string): string {
    desc + "#" + Checksum(desc)
  }

  function AddressDescriptor(address: string): string {
    AddChecksum("addr(" + address + ")")
  }

  datatype Extracted = Address(address: string) | NotAnAddressDescriptor

  /** Python's slice `desc[5:find(")")]`, where a missing parenthesis is index -1. */
  function AddressFromDescriptor(desc: string): Extracted {
    if "addr(" <= desc then
      var close := Find(desc, ')', 0);
      var end := if close == -1 then |desc| - 1 else close;
      if end < 5 then Address("") else Address(desc[5..end])
    else NotAnAddressDescriptor
  }

  lemma {:induction false} FindAtMost(s: string, ch: char, from: nat, k: nat)
    requires from <= k < |s| && s[k] == ch
    ensures from <= Find(s, ch, from) <= k
    ensures ch !in s[from..k] ==> Find(s, ch, from) == k
    decreases k - from
  {
    if s[from] != ch {
      FindAtMost(s, ch, from + 1, k);
      assert s[from..k] == [s[from]] + s[from + 1..k];
    } else if from < k {
      assert s[from..k][0] == ch;
    }
  }

  /** The address is recovered from its own descriptor exactly when it holds no `)`. */
  lemma AddressRoundTrip(address: string)
    ensures AddressFromDescriptor(AddressDescriptor(address)) == Address(address) <==> ')' !in address
  {
    hide Find;
    var desc, end := AddressDescriptor(address), 5 + |address|;
    DescriptorParts(address);
    hide AddressDescriptor;
    FindAtMost(desc, ')', 0, end);
    if ')' in address {
      var k :| 0 <= k < |address| && address[k] == ')';
      FindAtMost(desc, ')', 0, 5 + k);
    } else {
      assert desc[0..end] == desc[..end];
    }
  }

  lemma DescriptorParts(address: string)
    ensures var desc, end := AddressDescriptor(address), 5 + |address|;
      && "addr(" <= desc && end < |desc| && desc[end] == ')' && desc[5..end] == address
      && (forall k :: 0 <= k < |address| ==> desc[5 + k] == address[k])
      && (')' !in address ==> ')' !in desc[..end])
  {
    hide Checksum;
    var desc, end := AddressDescriptor(address), 5 + |address|;
    assert desc[..end] == "addr(" + address;
    assert desc == desc[..end] + desc[end..];
  }
}
