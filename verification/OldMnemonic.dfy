/** The old mnemonic codec (src/jmclient/old_mnemonic.py, `mn_encode` and `mn_decode`). */
module OldMnemonic {
  // The word list is a parameter: 1626 distinct words.  So is Python's `int(s, 16)`, which reads
  // more than plain digits: it may be anything that reads eight digits as it should.

  import opened Hexadecimal
  import opened Sequences
  import opened Wrappers

  const N: nat := 1626
  const WORD_LIMIT: nat := 0x1_0000_0000

  ghost predicate WordList(words: seq<string>) {
    |words| == N && forall w :: multiset(words)[w] <= 1
  }

  // ---------- hexadecimal ----------

  function LowerChar(c: char): char {
    if 'A' <= c <= 'F' then 'a' + (c - 'A') else c
  }

  function Lower(s: string): (r: string)
    ensures |r| == |s| && forall i :: 0 <= i < |s| ==> r[i] == LowerChar(s[i])
  {
    seq(|s|, i requires 0 <= i < |s| => LowerChar(s[i]))
  }

  predicate AllHex(s: string) {
    forall i :: 0 <= i < |s| ==> IsHex(s[i])
  }

  function Pow16(k: nat): (p: nat)
    ensures p > 0
  {
    if k == 0 then 1 else 16 * Pow16(k - 1)
  }

  /** The number that some digits spell. */
  function HexValue(s: string): nat
    requires AllHex(s)
  {
    if s == [] then 0 else HexValue(s[..|s| - 1]) * 16 + DigitOf(s[|s| - 1])
  }

  /** The last `k` hexadecimal digits of `x`. */
  function Digits(x: nat, k: nat): (r: string)
    ensures |r| == k && AllHex(r)
  {
    if k == 0 then [] else Digits(x / 16, k - 1) + [HexChar(x % 16)]
  }

  /** The number of digits without leading zeros. */
  function HexLength(x: nat): (k: nat)
    ensures k >= 1
  {
    if x < 16 then 1 else 1 + HexLength(x / 16)
  }

  /** `'%08x' % x`. */
  function Hex8(x: nat): (r: string)
    ensures AllHex(r)
  {
    Digits(x, if HexLength(x) < 8 then 8 else HexLength(x))
  }

  lemma LowerHex(c: char)
    requires IsHex(c)
    ensures HexChar(DigitOf(c)) == LowerChar(c)
  {}

  lemma {:induction false} HexValueBound(s: string)
    requires AllHex(s)
    ensures HexValue(s) < Pow16(|s|)
  {
    if s != [] {
      HexValueBound(s[..|s| - 1]);
    }
  }

  lemma DigitApart(x: nat, d: nat)
    requires d < 16
    ensures (x * 16 + d) / 16 == x && (x * 16 + d) % 16 == d
  {}

  lemma DigitsMore(x: nat, d: nat, k: nat)
    requires d < 16
    ensures Digits(x * 16 + d, k + 1) == Digits(x, k) + [HexChar(d)]
  {
    DigitApart(x, d);
    hide HexChar;
  }

  lemma ValueMore(s: string)
    requires AllHex(s) && s != []
    ensures var n := |s| - 1;
      AllHex(s[..n]) && IsHex(s[n]) && HexValue(s) == HexValue(s[..n]) * 16 + DigitOf(s[n])
  {}

  lemma LowerMore(s: string)
    requires s != []
    ensures Lower(s) == Lower(s[..|s| - 1]) + [LowerChar(s[|s| - 1])]
  {
    hide LowerChar;
  }

  lemma {:induction false} DigitsOfValue(s: string)
    requires AllHex(s)
    ensures Digits(HexValue(s), |s|) == Lower(s)
  {
    if s == [] {
      assert Lower(s) == [];
    } else {
      hide *;
      ValueMore(s);
      DigitsOfValue(s[..|s| - 1]);
      DigitsOfLonger(s);
    }
  }

  lemma {:induction false} DigitsOfLonger(s: string)
    requires s != [] && AllHex(s) && AllHex(s[..|s| - 1])
    requires Digits(HexValue(s[..|s| - 1]), |s| - 1) == Lower(s[..|s| - 1])
    ensures Digits(HexValue(s), |s|) == Lower(s)
  {
    hide *;
    var n := |s| - 1;
    ValueMore(s);
    LowerHex(s[n]);
    DigitsMore(HexValue(s[..n]), DigitOf(s[n]), n);
    LowerMore(s);
  }

  lemma {:induction false} ValueOfDigits(x: nat, k: nat)
    requires x < Pow16(k)
    ensures HexValue(Digits(x, k)) == x
  {
    if k > 0 {
      ValueOfDigits(x / 16, k - 1);
      var s := Digits(x, k);
      assert s[..k - 1] == Digits(x / 16, k - 1);
    }
  }

  lemma EightDigits()
    ensures Pow16(8) == WORD_LIMIT
  {
    assert Pow16(4) == 65536;
    assert Pow16(6) == 256 * Pow16(4);
  }

  lemma {:induction false} HexLengthBound(x: nat, k: nat)
    requires k >= 1
    ensures HexLength(x) <= k <==> x < Pow16(k)
  {
    if k == 1 {
      assert Pow16(1) == 16 * Pow16(0);
    } else if x >= 16 {
      HexLengthBound(x / 16, k - 1);
    } else {
      SmallBelowPow(k);
    }
  }

  lemma {:induction false} SmallBelowPow(k: nat)
    requires k >= 1
    ensures Pow16(k) >= 16
  {
    if k > 1 {
      SmallBelowPow(k - 1);
    }
  }

  /** Eight digits suffice exactly below 2^32. */
  lemma Hex8Size(x: nat)
    ensures |Hex8(x)| >= 8 && (|Hex8(x)| == 8 <==> x < WORD_LIMIT)
  {
    EightDigits();
    HexLengthBound(x, 8);
    hide Pow16, HexLength, Digits;
  }

  // ---------- three words for eight digits ----------

  datatype Triple = Triple(w1: nat, w2: nat, w3: nat)

  predicate InRange(t: Triple) {
    t.w1 < N && t.w2 < N && t.w3 < N
  }

  /** The operators round downwards, as Python's do, for negative numbers too. */
  function ToTriple(x: int): (t: Triple)
    ensures InRange(t)
  {
    var w1 := x % N;
    var w2 := (x / N + w1) % N;
    var w3 := (x / N / N + w2) % N;
    Triple(w1, w2, w3)
  }

  function FromTriple(t: Triple): nat {
    t.w1 + N * ((t.w2 - t.w1) % N) + N * N * ((t.w3 - t.w2) % N)
  }

  /** Adding and taking away the same digit, modulo the number of words. */
  lemma ShiftBack(a: nat, w: nat)
    ensures ((a + w) % N - w) % N == a % N
  {}

  lemma ShiftForth(w: nat, v: nat)
    requires w < N && v < N
    ensures ((w - v) % N + v) % N == w
  {}

  /** 16^8 < 1626^3. */
  lemma TripleSuffices(x: nat)
    requires x < WORD_LIMIT
    ensures x / N / N < N
  {}

  lemma DivModIs(x: nat, q: nat, r: nat)
    requires x == q * N + r && r < N
    ensures x / N == q && x % N == r
  {}

  lemma WholeTurns(a: nat, b: nat)
    ensures (a + N * b) % N == a % N
  {}

  /** A number from its three digits. */
  lemma FromDigits(x: nat)
    ensures x == x % N + N * (x / N % N) + N * N * (x / N / N)
  {
    var y := x / N;
    assert x == x % N + N * y && y == y % N + N * (y / N);
  }

  /** What the steps between the words of a triple are. */
  lemma StepsOf(x: nat)
    ensures var t := ToTriple(x);
      t.w1 == x % N && (t.w2 - t.w1) % N == x / N % N && (t.w3 - t.w2) % N == x / N / N % N
  {
    var t := ToTriple(x);
    ShiftBack(x / N, t.w1);
    ShiftBack(x / N / N, t.w2);
  }

  lemma SmallIsItself(x: nat)
    requires x < N
    ensures x % N == x
  {}

  lemma FromTripleIs(t: Triple, a: nat, b: nat)
    requires (t.w2 - t.w1) % N == a && (t.w3 - t.w2) % N == b
    ensures FromTriple(t) == t.w1 + N * a + N * N * b
  {}

  lemma ToTripleIs(x: nat, t: Triple)
    requires x % N == t.w1 && (x / N + t.w1) % N == t.w2 && (x / N / N + t.w2) % N == t.w3
    ensures ToTriple(x) == t
  {}

  lemma FromToTriple(x: nat)
    requires x < WORD_LIMIT
    ensures FromTriple(ToTriple(x)) == x
  {
    hide ToTriple, FromTriple;
    StepsOf(x);
    TripleSuffices(x);
    SmallIsItself(x / N / N);
    FromDigits(x);
    FromTripleIs(ToTriple(x), x / N % N, x / N / N);
  }

  /** The three digits of a number made from a triple. */
  lemma DigitsFrom(w1: nat, a: nat, b: nat)
    requires w1 < N && a < N
    ensures var x := w1 + N * a + N * N * b; x % N == w1 && x / N == a + N * b && x / N / N == b
  {
    DivModIs(w1 + N * a + N * N * b, a + N * b, w1);
    DivModIs(a + N * b, b, a);
  }

  lemma ToTripleOf(t: Triple, a: nat, b: nat)
    requires t.w1 < N && a < N && (a + t.w1) % N == t.w2 && (b + t.w2) % N == t.w3
    ensures ToTriple(t.w1 + N * a + N * N * b) == t
  {
    DigitsFrom(t.w1, a, b);
    WholeTurns(a + t.w1, b);
    hide ToTriple;
    ToTripleIs(t.w1 + N * a + N * N * b, t);
  }

  lemma ToFromTriple(t: Triple)
    requires InRange(t)
    ensures ToTriple(FromTriple(t)) == t
  {
    hide ToTriple, FromTriple;
    var a, b := (t.w2 - t.w1) % N, (t.w3 - t.w2) % N;
    FromTripleIs(t, a, b);
    ShiftForth(t.w2, t.w1);
    ShiftForth(t.w3, t.w2);
    ToTripleOf(t, a, b);
  }

  // ---------- messages and word lists ----------

  /** `words.index`: the first position, or their number. */
  function IndexOf(words: seq<string>, w: string): (i: nat)
    ensures i <= |words| && (i < |words| ==> words[i] == w)
    ensures i < |words| <==> w in words
  {
    if words == [] then 0
    else if words[0] == w then 0
    else
      assert words == [words[0]] + words[1..];
      1 + IndexOf(words[1..], w)
  }

  lemma IndexOfWord(words: seq<string>, i: nat)
    requires WordList(words) && i < N
    ensures IndexOf(words, words[i]) == i
  {
    hide IndexOf;
    assert words[i] in words;
    var j := IndexOf(words, words[i]);
    assert words[j] == words[i];
    DistinctIff(words);
  }

  function WordsOf(t: Triple, words: seq<string>): (r: seq<string>)
    requires InRange(t) && |words| == N
    ensures |r| == 3
  {
    [words[t.w1], words[t.w2], words[t.w3]]
  }

  function TripleOf(a: string, b: string, c: string, words: seq<string>): Triple {
    Triple(IndexOf(words, a), IndexOf(words, b), IndexOf(words, c))
  }

  predicate Octets(message: string) {
    |message| % 8 == 0
  }

  predicate Triples(wlist: seq<string>) {
    |wlist| % 3 == 0
  }

  lemma OctetsLess(message: string)
    requires message != [] && Octets(message)
    ensures |message| >= 8 && Octets(message[..|message| - 8]) && |message| / 8 == (|message| - 8) / 8 + 1
  {}

  function Encoded(message: string, words: seq<string>): (r: seq<string>)
    requires AllHex(message) && Octets(message) && |words| == N
    ensures |r| == 3 * (|message| / 8) && Triples(r)
  {
    if message == [] then []
    else
      OctetsLess(message);
      var k := |message| - 8;
      Encoded(message[..k], words) + WordsOf(ToTriple(HexValue(message[k..])), words)
  }

  /** What reads a word of eight characters, or None if it raises. */
  type Reader = string -> Option<int>

  ghost predicate ReadsHex(read: Reader) {
    forall s :: |s| == 8 && AllHex(s) ==> read(s) == Some(HexValue(s))
  }

  function EncodedBy(read: Reader, message: string, words: seq<string>): (r: Option<seq<string>>)
    requires Octets(message) && |words| == N
    ensures r.Some? ==> |r.value| == 3 * (|message| / 8) && Triples(r.value)
  {
    if message == [] then Some([])
    else
      OctetsLess(message);
      var k := |message| - 8;
      var before, x := EncodedBy(read, message[..k], words), read(message[k..]);
      if before.Some? && x.Some? then Some(before.value + WordsOf(ToTriple(x.value), words)) else None
  }

  /** None stands for an exception: a failed assertion or a word that cannot be read. */
  function Encode(read: Reader, message: string, words: seq<string>): Option<seq<string>>
    requires |words| == N
  {
    if Octets(message) then EncodedBy(read, message, words) else None
  }

  lemma EncodedByMore(read: Reader, m: string, chunk: string, words: seq<string>)
    requires Octets(m) && |chunk| == 8 && |words| == N
    ensures Octets(m + chunk)
    ensures var before, x := EncodedBy(read, m, words), read(chunk);
      EncodedBy(read, m + chunk, words) ==
      if before.Some? && x.Some? then Some(before.value + WordsOf(ToTriple(x.value), words)) else None
  {
    hide ToTriple, WordsOf;
    assert (m + chunk)[..|m|] == m && (m + chunk)[|m|..] == chunk;
  }

  /** Once a word cannot be read, the whole message cannot. */
  lemma {:induction false} UnreadStays(read: Reader, message: string, words: seq<string>, i: nat)
    requires Octets(message) && i <= |message| / 8 && |words| == N
    requires Octets(message[..8 * i]) && EncodedBy(read, message[..8 * i], words).None?
    ensures EncodedBy(read, message, words).None?
    decreases |message|
  {
    if 8 * i < |message| {
      var k := |message| - 8;
      assert message[..k][..8 * i] == message[..8 * i];
      UnreadStays(read, message[..k], words, i);
      hide ToTriple, WordsOf;
    } else {
      assert message[..8 * i] == message;
    }
  }

  /** Plain digits are encoded whatever else can be read. */
  lemma {:induction false} EncodedHex(read: Reader, message: string, words: seq<string>)
    requires ReadsHex(read) && AllHex(message) && Octets(message) && |words| == N
    ensures EncodedBy(read, message, words) == Some(Encoded(message, words))
  {
    if message != [] {
      EncodedHex(read, message[..|message| - 8], words);
      hide ToTriple, WordsOf, HexValue;
    }
  }

  function Decoded(wlist: seq<string>, words: seq<string>): (r: string)
    requires Triples(wlist)
    ensures AllHex(r)
  {
    if wlist == [] then []
    else
      var k := |wlist| - 3;
      Decoded(wlist[..k], words) + Hex8(FromTriple(TripleOf(wlist[k], wlist[k + 1], wlist[k + 2], words)))
  }

  ghost predicate Known(wlist: seq<string>, words: seq<string>) {
    forall i :: 0 <= i < |wlist| ==> wlist[i] in words
  }

  /** Every three words stand for a number below 2^32. */
  ghost predicate Compact(wlist: seq<string>, words: seq<string>)
    requires Triples(wlist)
  {
    wlist == [] ||
    var k := |wlist| - 3;
    Compact(wlist[..k], words) && FromTriple(TripleOf(wlist[k], wlist[k + 1], wlist[k + 2], words)) < WORD_LIMIT
  }

  method MnEncode(message: string, words: seq<string>, read: Reader) returns (r: Option<seq<string>>)
    requires |words| == N
    ensures r == Encode(read, message, words)
  {
    hide ToTriple, EncodedBy;
    if !Octets(message) {
      return None;
    }
    var out: seq<string> := [];
    EncodedNothing(read, message, words);
    for i := 0 to |message| / 8
      invariant Octets(message[..8 * i]) && EncodedBy(read, message[..8 * i], words) == Some(out)
    {
      var word := message[8 * i..8 * i + 8];
      EncodedByMore(read, message[..8 * i], word, words);
      assert message[..8 * (i + 1)] == message[..8 * i] + word;
      var x := read(word);
      if x.None? {
        UnreadStays(read, message, words, i + 1);
        return None;
      }
      var t := ToTriple(x.value);
      out := out + [words[t.w1], words[t.w2], words[t.w3]];
    }
    assert message[..8 * (|message| / 8)] == message;
    r := Some(out);
  }

  lemma EncodedNothing(read: Reader, message: string, words: seq<string>)
    requires |words| == N
    ensures var m := message[..0]; Octets(m) && EncodedBy(read, m, words) == Some([])
  {}

  /** Words after the last full triple are ignored; None stands for an unknown word. */
  method MnDecode(wlist: seq<string>, words: seq<string>) returns (r: Option<string>)
    requires |words| == N
    ensures var full := wlist[..3 * (|wlist| / 3)];
      r == if Known(full, words) then Some(Decoded(full, words)) else None
  {
    hide FromTriple, Hex8, IndexOf;
    var out: string := [];
    for i := 0 to |wlist| / 3
      invariant Known(wlist[..3 * i], words) && out == Decoded(wlist[..3 * i], words)
    {
      var w1, w2 := IndexOf(words, wlist[3 * i]), IndexOf(words, wlist[3 * i + 1]);
      var w3 := IndexOf(words, wlist[3 * i + 2]);
      if w1 == |words| || w2 == |words| || w3 == |words| {
        ghost var full := wlist[..3 * (|wlist| / 3)];
        assert full[3 * i] == wlist[3 * i] && full[3 * i + 1] == wlist[3 * i + 1];
        assert full[3 * i + 2] == wlist[3 * i + 2];
        return None;
      }
      var next := wlist[..3 * (i + 1)];
      assert next[..|next| - 3] == wlist[..3 * i];
      assert next[|next| - 3] == wlist[3 * i] && next[|next| - 2] == wlist[3 * i + 1];
      assert next[|next| - 1] == wlist[3 * i + 2];
      out := out + Hex8(FromTriple(Triple(w1, w2, w3)));
    }
    r := Some(out);
  }

  // ---------- round trips ----------

  lemma TripleOfWords(t: Triple, words: seq<string>)
    requires WordList(words) && InRange(t)
    ensures var ws := WordsOf(t, words); TripleOf(ws[0], ws[1], ws[2], words) == t
  {
    hide IndexOf, WordList;
    IndexOfWord(words, t.w1);
    IndexOfWord(words, t.w2);
    IndexOfWord(words, t.w3);
  }

  lemma ChunkRoundTrip(chunk: string, words: seq<string>)
    requires AllHex(chunk) && |chunk| == 8 && WordList(words)
    ensures var ws := WordsOf(ToTriple(HexValue(chunk)), words);
      Hex8(FromTriple(TripleOf(ws[0], ws[1], ws[2], words))) == Lower(chunk)
  {
    HexValueBound(chunk);
    EightDigits();
    hide Pow16, ToTriple, FromTriple, WordsOf, TripleOf, HexLength, Digits, HexValue, WordList;
    var x := HexValue(chunk);
    TripleOfWords(ToTriple(x), words);
    FromToTriple(x);
    HexLengthBound(x, 8);
    DigitsOfValue(chunk);
  }

  /** Decoding what was encoded gives the message back, in lower case. */
  lemma {:induction false} DecodeEncode(message: string, words: seq<string>)
    requires AllHex(message) && Octets(message) && WordList(words)
    ensures Decoded(Encoded(message, words), words) == Lower(message)
  {
    if message != [] {
      var k := |message| - 8;
      var m, chunk := message[..k], message[k..];
      assert message == m + chunk;
      DecodeEncode(m, words);
      hide *;
      DecodeEncodeMore(m, chunk, words);
    }
  }

  /** Decoding an encoding gives the message back, in lower case, if and only if the message
      consists of plain digits; anything else that could be read is lost. */
  lemma DecodeEncodeIff(read: Reader, message: string, words: seq<string>)
    requires ReadsHex(read) && WordList(words) && Encode(read, message, words).Some?
    ensures Decoded(Encode(read, message, words).value, words) == Lower(message) <==> AllHex(message)
  {
    assert |words| == N;
    hide EncodedBy, Decoded, Encoded, WordList, IsHex;
    if AllHex(message) {
      EncodedHex(read, message, words);
      DecodeEncode(message, words);
    } else if AllHex(Lower(message)) {
      LowerIsHex(message);
    }
  }

  lemma LowerIsHex(s: string)
    requires AllHex(Lower(s))
    ensures AllHex(s)
  {
    forall i | 0 <= i < |s| ensures IsHex(s[i]) {
      assert IsHex(Lower(s)[i]);
    }
  }

  lemma {:induction false} DecodeEncodeMore(m: string, chunk: string, words: seq<string>)
    requires AllHex(m + chunk) && AllHex(m) && AllHex(chunk) && Octets(m) && |chunk| == 8 && WordList(words)
    requires Decoded(Encoded(m, words), words) == Lower(m)
    ensures Octets(m + chunk) && Decoded(Encoded(m + chunk, words), words) == Lower(m + chunk)
  {
    assert |words| == N;
    hide *;
    EncodedMore(m, chunk, words);
    ChunkRoundTrip(chunk, words);
    var ws := WordsOf(ToTriple(HexValue(chunk)), words);
    ThreeWords(ws);
  }

  lemma ThreeWords(ws: seq<string>)
    requires |ws| == 3
    ensures ws == [ws[0], ws[1], ws[2]]
  {}

  lemma EncodedMore(m: string, chunk: string, words: seq<string>)
    requires AllHex(m + chunk) && AllHex(m) && AllHex(chunk) && Octets(m) && |chunk| == 8 && |words| == N
    ensures Encoded(m + chunk, words) == Encoded(m, words) + WordsOf(ToTriple(HexValue(chunk)), words)
  {
    assert (m + chunk)[..|m|] == m && (m + chunk)[|m|..] == chunk;
  }

  /** What decodes to more than eight digits is longer than it should be. */
  lemma {:induction false} DecodedSize(wlist: seq<string>, words: seq<string>)
    requires Triples(wlist)
    ensures |Decoded(wlist, words)| >= 8 * (|wlist| / 3)
    ensures |Decoded(wlist, words)| == 8 * (|wlist| / 3) <==> Compact(wlist, words)
  {
    hide FromTriple, Hex8, TripleOf;
    if wlist != [] {
      var k := |wlist| - 3;
      DecodedSize(wlist[..k], words);
      Hex8Size(FromTriple(TripleOf(wlist[k], wlist[k + 1], wlist[k + 2], words)));
    }
  }

  lemma TripleRoundTrip(a: string, b: string, c: string, words: seq<string>)
    requires a in words && b in words && c in words && |words| == N
    requires FromTriple(TripleOf(a, b, c, words)) < WORD_LIMIT
    ensures var chunk := Hex8(FromTriple(TripleOf(a, b, c, words)));
      |chunk| == 8 && WordsOf(ToTriple(HexValue(chunk)), words) == [a, b, c]
  {
    hide IndexOf, ToTriple, FromTriple, Digits, HexValue, Pow16, HexLength;
    var t := TripleOf(a, b, c, words);
    var x := FromTriple(t);
    Hex8Size(x);
    ToFromTriple(t);
    EightDigits();
    HexLengthBound(x, 8);
    ValueOfDigits(x, 8);
  }

  lemma {:induction false} EncodeDecode(wlist: seq<string>, words: seq<string>)
    requires Triples(wlist) && |words| == N && Known(wlist, words) && Compact(wlist, words)
    ensures Octets(Decoded(wlist, words)) && Encoded(Decoded(wlist, words), words) == wlist
  {
    hide ToTriple, FromTriple, HexValue, Hex8, TripleOf, WordsOf, IndexOf;
    if wlist != [] {
      hide Encoded, Decoded, AllHex;
      var k := |wlist| - 3;
      var w, a, b, c := wlist[..k], wlist[k], wlist[k + 1], wlist[k + 2];
      assert wlist == w + [a, b, c];
      assert forall i :: 0 <= i < k ==> w[i] == wlist[i];
      EncodeDecode(w, words);
      EncodeDecodeMore(w, a, b, c, words);
    }
  }

  lemma EncodeDecodeMore(w: seq<string>, a: string, b: string, c: string, words: seq<string>)
    requires Triples(w) && |words| == N && a in words && b in words && c in words
    requires FromTriple(TripleOf(a, b, c, words)) < WORD_LIMIT
    requires Octets(Decoded(w, words)) && Encoded(Decoded(w, words), words) == w
    ensures Triples(w + [a, b, c]) && Octets(Decoded(w + [a, b, c], words))
    ensures Encoded(Decoded(w + [a, b, c], words), words) == w + [a, b, c]
  {
    TriplesMore(w, a, b, c);
    hide *;
    TripleRoundTrip(a, b, c, words);
    var d, chunk := Decoded(w, words), Hex8(FromTriple(TripleOf(a, b, c, words)));
    OctetsMore(d, chunk);
    HexConcat(d, chunk);
    EncodedMore(d, chunk, words);
  }

  lemma TriplesMore(w: seq<string>, a: string, b: string, c: string)
    requires Triples(w)
    ensures Triples(w + [a, b, c])
  {}

  lemma OctetsMore(d: string, chunk: string)
    requires Octets(d) && |chunk| == 8
    ensures Octets(d + chunk)
  {}

  lemma HexConcat(a: string, b: string)
    requires AllHex(a) && AllHex(b)
    ensures AllHex(a + b)
  {}

  /** Encoding what was decoded gives the words back if and only if they are full triples, each
      standing for a number below 2^32. */
  lemma EncodeDecodeIff(read: Reader, wlist: seq<string>, words: seq<string>)
    requires ReadsHex(read) && |words| == N && Known(wlist, words)
    ensures var full := wlist[..3 * (|wlist| / 3)];
      Encode(read, Decoded(full, words), words) == Some(wlist) <==> Triples(wlist) && Compact(full, words)
  {
    var full := wlist[..3 * (|wlist| / 3)];
    var message := Decoded(full, words);
    hide Compact, Decoded, Encoded, EncodedBy, AllHex, WordList, Known, Octets, Triples, ReadsHex;
    FullTriples(wlist);
    DecodedSize(full, words);
    if Octets(message) {
      EncodedHex(read, message, words);
    }
    if Triples(wlist) && Compact(full, words) {
      EncodeDecode(full, words);
    }
    if Encode(read, message, words) == Some(wlist) {
      RightSize(message, wlist);
    }
  }

  lemma FullTriples(wlist: seq<string>)
    ensures var full := wlist[..3 * (|wlist| / 3)];
      Triples(full) && |full| / 3 == |wlist| / 3 && (Triples(wlist) ==> full == wlist)
  {}

  lemma RightSize(message: string, wlist: seq<string>)
    requires Octets(message) && |wlist| == 3 * (|message| / 8)
    ensures Triples(wlist) && |message| == 8 * (|wlist| / 3)
  {}
}
