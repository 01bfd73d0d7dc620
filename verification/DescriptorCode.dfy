/** The code behind descriptor checksums (src/jmbitcoin/output_descriptors.py, BIP 380). */
module DescriptorCode {
  // The register is linear not only over bits but over the field with 32 elements: its digits
  // are the coefficients of a polynomial over GF(2)[x] / (x^5 + x^3 + 1).  That ties the five
  // generator constants together, and the checksum of one descriptor then fixes them.

  import opened DescriptorChecksum

  // ---------- linear over the field with 32 elements ----------

  /** A symbol times the element x. */
  function Double(d: bv40): bv40 {
    ((d << 1) & 31) ^ (if d & 16 != 0 then 9 else 0)
  }

  /** The bits of all digits that stay in their digit when they move up. */
  function Moved(c: bv40): bv40 {
    (c << 1) & 0xf7bdef7bde
  }

  /** The top bits of all digits, reduced to the bits 0 and 3 of their digit. */
  function CarriedLow(c: bv40): bv40 {
    (c >> 4) & 0x842108421
  }

  function CarriedHigh(c: bv40): bv40 {
    (c >> 1) & 0x4210842108
  }

  /** All eight digits of a register times x. */
  function DoubleAll(c: bv40): bv40 {
    Xor(Xor(Moved(c), CarriedLow(c)), CarriedHigh(c))
  }

  lemma DoubleDigitwise(c: bv40)
    ensures Digit(DoubleAll(c), 0) == Double(Digit(c, 0)) && Digit(DoubleAll(c), 1) == Double(Digit(c, 1))
    ensures Digit(DoubleAll(c), 2) == Double(Digit(c, 2)) && Digit(DoubleAll(c), 3) == Double(Digit(c, 3))
    ensures Digit(DoubleAll(c), 4) == Double(Digit(c, 4)) && Digit(DoubleAll(c), 5) == Double(Digit(c, 5))
    ensures Digit(DoubleAll(c), 6) == Double(Digit(c, 6)) && Digit(DoubleAll(c), 7) == Double(Digit(c, 7))
  {}

  lemma MovedLinear(a: bv40, b: bv40)
    ensures Moved(Xor(a, b)) == Xor(Moved(a), Moved(b))
  {}

  lemma CarriedLowLinear(a: bv40, b: bv40)
    ensures CarriedLow(Xor(a, b)) == Xor(CarriedLow(a), CarriedLow(b))
  {}

  lemma CarriedHighLinear(a: bv40, b: bv40)
    ensures CarriedHigh(Xor(a, b)) == Xor(CarriedHigh(a), CarriedHigh(b))
  {}

  lemma DoubleLinear(a: bv40, b: bv40)
    ensures DoubleAll(Xor(a, b)) == Xor(DoubleAll(a), DoubleAll(b))
  {
    hide Xor, Moved, CarriedLow, CarriedHigh;
    MovedLinear(a, b);
    CarriedLowLinear(a, b);
    CarriedHighLinear(a, b);
    XorExchange(Moved(a), Moved(b), CarriedLow(a), CarriedLow(b));
    XorExchange(Xor(Moved(a), CarriedLow(a)), Xor(Moved(b), CarriedLow(b)), CarriedHigh(a), CarriedHigh(b));
  }

  lemma DoubleShifted(c: bv40)
    ensures DoubleAll(Shifted(c)) == Shifted(DoubleAll(c))
  {}

  lemma DoubleTop(c: bv40)
    ensures var t, u := c >> 35, DoubleAll(c) >> 35;
      && (u & 1 != 0) == (t & 16 != 0)
      && (u & 2 != 0) == (t & 1 != 0)
      && (u & 4 != 0) == (t & 2 != 0)
      && (u & 8 != 0) == ((t & 4 != 0) != (t & 16 != 0))
      && (u & 16 != 0) == (t & 8 != 0)
  {}

  /** Each generator constant is x times the one before. */
  lemma GeneratorsDouble()
    ensures DoubleAll(0) == 0
    ensures DoubleAll(0xf5dee51989) == 0xa9fdca3312 && DoubleAll(0xa9fdca3312) == 0x1bab10e32d
    ensures DoubleAll(0x1bab10e32d) == 0x3706b1677a && DoubleAll(0x3706b1677a) == 0x644d626ffd
    ensures DoubleAll(0x644d626ffd) == Xor(0x3706b1677a, 0xf5dee51989)
  {}

  lemma DoubleTap(r: bv40, on: bool, gen: bv40)
    ensures DoubleAll(Xor(r, Tap(on, gen))) == Xor(DoubleAll(r), Tap(on, DoubleAll(gen)))
  {
    hide DoubleAll, Xor;
    DoubleLinear(r, Tap(on, gen));
    GeneratorsDouble();
  }

  lemma TapBoth(on: bool, g: bv40, h: bv40)
    ensures Tap(on, Xor(g, h)) == Xor(Tap(on, g), Tap(on, h))
  {
    XorUnits(0);
  }

  lemma XorSwap(r: bv40, a: bv40, b: bv40)
    ensures Xor(Xor(r, a), b) == Xor(Xor(r, b), a)
  {
    hide Xor;
    XorAssociative(r, a, b);
    XorAssociative(r, b, a);
    XorCommutative(a, b);
  }

  lemma TapsReordered(r: bv40, a: bv40, b: bv40, c: bv40, d: bv40, e: bv40, f: bv40)
    ensures Xor(Xor(Xor(Xor(Xor(r, a), b), c), d), Xor(e, f))
         == Xor(Xor(Xor(Xor(Xor(r, f), a), b), Xor(c, e)), d)
  {
    hide Xor;
    var s := Xor(Xor(r, a), b);
    XorSwap(Xor(s, c), d, Xor(e, f));
    XorExchange(s, c, f, e);
    XorCommutative(e, f);
    XorSwap(Xor(r, a), b, f);
    XorSwap(r, a, f);
  }

  /** The register is linear over the field with 32 elements: multiplying all its digits and
      the symbol that comes in by x multiplies all digits of the result by x. */
  lemma PolyModOverField(c: bv40, v: bv40)
    ensures PolyMod(DoubleAll(c), DoubleAll(v)) == DoubleAll(PolyMod(c, v))
  {
    var t := c >> 35;
    DoubleTop(c);
    hide DoubleAll, Shifted, Xor, Tap;
    DoubleShifted(c);
    DoubleLinear(Shifted(c), v);
    GeneratorsDouble();
    var r0 := Xor(Shifted(c), v);
    var r1 := Xor(r0, Tap(t & 1 != 0, 0xf5dee51989));
    var r2 := Xor(r1, Tap(t & 2 != 0, 0xa9fdca3312));
    var r3 := Xor(r2, Tap(t & 4 != 0, 0x1bab10e32d));
    var r4 := Xor(r3, Tap(t & 8 != 0, 0x3706b1677a));
    DoubleTap(r0, t & 1 != 0, 0xf5dee51989);
    DoubleTap(r1, t & 2 != 0, 0xa9fdca3312);
    DoubleTap(r2, t & 4 != 0, 0x1bab10e32d);
    DoubleTap(r3, t & 8 != 0, 0x3706b1677a);
    DoubleTap(r4, t & 16 != 0, 0x644d626ffd);
    TapBoth(t & 16 != 0, 0x3706b1677a, 0xf5dee51989);
    TapLinear(t & 4 != 0, t & 16 != 0, 0x3706b1677a);
    TapsReordered(DoubleAll(r0), Tap(t & 1 != 0, 0xa9fdca3312), Tap(t & 2 != 0, 0x1bab10e32d),
      Tap(t & 4 != 0, 0x3706b1677a), Tap(t & 8 != 0, 0x644d626ffd),
      Tap(t & 16 != 0, 0x3706b1677a), Tap(t & 16 != 0, 0xf5dee51989));
  }

  // ---------- the input charset ----------

  function Rank0(ch: char): nat {
    if '0' <= ch <= '9' then ch as int - '0' as int
    else if 'a' <= ch <= 'h' then 18 + (ch as int - 'a' as int)
    else
      match ch
      case '(' => 10 case ')' => 11 case '[' => 12 case ']' => 13 case ',' => 14 case '\'' => 15
      case '/' => 16 case '*' => 17 case '@' => 26 case ':' => 27 case '$' => 28 case '%' => 29
      case '{' => 30 case '}' => 31
      case _ => 95
  }

  function Rank1(ch: char): nat {
    if 'I' <= ch <= 'Z' then 32 + (ch as int - 'I' as int)
    else
      match ch
      case '&' => 50 case '+' => 51 case '-' => 52 case '.' => 53 case ';' => 54 case '<' => 55
      case '=' => 56 case '>' => 57 case '?' => 58 case '!' => 59 case '^' => 60 case '_' => 61
      case '|' => 62 case '~' => 63
      case _ => 95
  }

  function Rank2(ch: char): nat {
    if 'i' <= ch <= 'z' then 64 + (ch as int - 'i' as int)
    else if 'A' <= ch <= 'H' then 82 + (ch as int - 'A' as int)
    else
      match ch
      case '`' => 90 case '#' => 91 case '"' => 92 case '\\' => 93 case ' ' => 94
      case _ => 95
  }

  /** The place of a character, told by its kind; 95 for those outside the charset. */
  function Rank(ch: char): nat {
    if Rank0(ch) < 95 then Rank0(ch) else if Rank1(ch) < 95 then Rank1(ch) else Rank2(ch)
  }

  lemma RankInClass0(i: nat)
    requires i < 32
    ensures Rank0(CLASS_0[i]) == i
  {
    assert |CLASS_0| == 32;
  }

  lemma RankInClass1(i: nat)
    requires i < 32
    ensures Rank1(CLASS_1[i]) == 32 + i
  {
    assert |CLASS_1| == 32;
  }

  lemma RankInClass2(i: nat)
    requires i < 31
    ensures Rank2(CLASS_2[i]) == 64 + i
  {
    assert |CLASS_2| == 31;
  }

  lemma ClassesApart(ch: char)
    ensures Rank1(ch) < 95 ==> Rank0(ch) == 95
    ensures Rank2(ch) < 95 ==> Rank0(ch) == 95 && Rank1(ch) == 95
  {}

  lemma PlaceInClass0(ch: char)
    requires Rank0(ch) < 95
    ensures Rank0(ch) < 32 && CLASS_0[Rank0(ch)] == ch
  {
    assert |CLASS_0| == 32;
  }

  lemma PlaceInClass1(ch: char)
    requires Rank1(ch) < 95
    ensures 32 <= Rank1(ch) < 64 && CLASS_1[Rank1(ch) - 32] == ch
  {
    assert |CLASS_1| == 32;
  }

  lemma PlaceInClass2(ch: char)
    requires Rank2(ch) < 95
    ensures 64 <= Rank2(ch) < 95 && CLASS_2[Rank2(ch) - 64] == ch
  {
    assert |CLASS_2| == 31;
  }

  lemma ClassSizes()
    ensures |CLASS_0| == 32 && |CLASS_1| == 32 && |CLASS_2| == 31
  {}

  lemma RankOfIndex(i: nat)
    requires i < 95
    ensures |INPUT_CHARSET| == 95 && Rank(INPUT_CHARSET[i]) == i
  {
    ClassSizes();
    hide Rank0, Rank1, Rank2, CLASS_0, CLASS_1, CLASS_2;
    var ch := INPUT_CHARSET[i];
    ClassesApart(ch);
    if i < 32 {
      RankInClass0(i);
    } else if i < 64 {
      RankInClass1(i - 32);
    } else {
      RankInClass2(i - 64);
    }
  }

  lemma IndexOfRank(ch: char)
    requires Rank(ch) < 95
    ensures Rank(ch) < |INPUT_CHARSET| && INPUT_CHARSET[Rank(ch)] == ch
  {
    ClassSizes();
    hide Rank0, Rank1, Rank2, CLASS_0, CLASS_1, CLASS_2;
    ClassesApart(ch);
    if Rank0(ch) < 95 {
      PlaceInClass0(ch);
    } else if Rank1(ch) < 95 {
      PlaceInClass1(ch);
    } else {
      PlaceInClass2(ch);
    }
  }

  /** Each character has one place in the charset, the one its kind tells. */
  lemma PositionIsRank(ch: char)
    ensures Position(ch) == if Rank(ch) < 95 then Rank(ch) else -1
  {
    hide Rank, Position, INPUT_CHARSET;
    PositionMeaning(ch);
    if Rank(ch) < 95 {
      IndexOfRank(ch);
    }
    if Position(ch) != -1 {
      RankOfIndex(Position(ch));
    }
  }

  // ---------- a known checksum ----------

  /** The places of letters, digits and parentheses. */
  function Plain(ch: char): nat {
    if '0' <= ch <= '9' then ch as int - '0' as int
    else if 'a' <= ch <= 'h' then 18 + (ch as int - 'a' as int)
    else if 'I' <= ch <= 'Z' then 32 + (ch as int - 'I' as int)
    else if 'i' <= ch <= 'z' then 64 + (ch as int - 'i' as int)
    else if 'A' <= ch <= 'H' then 82 + (ch as int - 'A' as int)
    else if ch == '(' then 10 else if ch == ')' then 11 else 95
  }

  lemma PlainIsPosition(ch: char)
    requires Plain(ch) < 95
    ensures Position(ch) == Plain(ch)
  {
    hide Position;
    PositionIsRank(ch);
  }

  /** The register after the symbols of a group of three characters. */
  function Absorb(c: bv40, x: nat, y: nat, z: nat, classes: nat): bv40
    requires x < 32 && y < 32 && z < 32 && classes < 32
  {
    PolyMod(PolyMod(PolyMod(PolyMod(c, Sym(x)), Sym(y)), Sym(z)), Sym(classes))
  }

  /** The register after a descriptor, or the rest of one. */
  function Register(c: bv40, desc: string): bv40
    requires InCharset(desc)
  {
    AccumulatorZero();
    Feed(c, Expand(0, 0, Positions(desc)))
  }

  /** A group of three characters, each given by its class and its place in it. */
  ghost predicate IsGroup(s: string, p: (nat, nat), q: (nat, nat), r: (nat, nat)) {
    && |s| >= 3 && p.0 < 3 && q.0 < 3 && r.0 < 3 && p.1 < 32 && q.1 < 32 && r.1 < 32
    && Plain(s[0]) == 32 * p.0 + p.1 < 95 && Plain(s[1]) == 32 * q.0 + q.1 < 95 && Plain(s[2]) == 32 * r.0 + r.1 < 95
  }

  lemma GroupPositions(s: string, p: (nat, nat), q: (nat, nat), r: (nat, nat))
    requires IsGroup(s, p, q, r) && InCharset(s[3..])
    ensures InCharset(s)
    ensures Positions(s) == [32 * p.0 + p.1, 32 * q.0 + q.1, 32 * r.0 + r.1] + Positions(s[3..])
  {
    hide Position, Plain;
    PlainIsPosition(s[0]);
    PlainIsPosition(s[1]);
    PlainIsPosition(s[2]);
    forall i | 0 <= i < |s| ensures Position(s[i]) != -1 {
      assert i >= 3 ==> s[3..][i - 3] == s[i];
    }
  }

  lemma ClassAndPlace(class_: nat, place: nat)
    requires place < 32
    ensures (32 * class_ + place) / 32 == class_ && (32 * class_ + place) % 32 == place
  {}

  lemma GroupFeeds(c: bv40, p: (nat, nat), q: (nat, nat), r: (nat, nat), ps: seq<nat>, rest: seq<nat>)
    requires p.0 < 3 && q.0 < 3 && r.0 < 3 && p.1 < 32 && q.1 < 32 && r.1 < 32
    requires ps == [32 * p.0 + p.1, 32 * q.0 + q.1, 32 * r.0 + r.1] + rest && InRange(ps) && InRange(rest)
    requires ps[0] < 95 && ps[1] < 95 && Accumulator(0, 0)
    ensures Feed(c, Expand(0, 0, ps))
         == Feed(Absorb(c, p.1, q.1, r.1, 9 * p.0 + 3 * q.0 + r.0), Expand(0, 0, rest))
  {
    hide PolyMod, Sym, Feed, Expand, Accumulator, InRange;
    ClassAndPlace(p.0, p.1);
    ClassAndPlace(q.0, q.1);
    ClassAndPlace(r.0, r.1);
    AccumulatorStep(0, 0, ps[0]);
    AccumulatorStep(p.0, 1, ps[1]);
    FeedCharacter(c, 0, 0, ps);
    var c1 := PolyMod(c, Sym(p.1));
    FeedCharacter(c1, p.0, 1, ps[1..]);
    var c2 := PolyMod(c1, Sym(q.1));
    assert ps[1..][1..] == ps[2..] && ps[2..][1..] == rest;
    FeedCharacter(c2, p.0 * 3 + q.0, 2, ps[2..]);
  }

  lemma Group(c: bv40, s: string, p: (nat, nat), q: (nat, nat), r: (nat, nat), next: bv40)
    requires IsGroup(s, p, q, r) && InCharset(s[3..])
    requires Absorb(c, p.1, q.1, r.1, 9 * p.0 + 3 * q.0 + r.0) == next
    ensures InCharset(s) && Register(c, s) == Register(next, s[3..])
  {
    hide Plain, Feed, Expand, Position, Absorb;
    AccumulatorZero();
    GroupPositions(s, p, q, r);
    GroupFeeds(c, p, q, r, Positions(s), Positions(s[3..]));
  }

  const EXAMPLE_1: string := "addr(2MvA"

  lemma Example1(rest: string)
    requires InCharset(rest)
    ensures InCharset(EXAMPLE_1 + rest) && Register(0x1, EXAMPLE_1 + rest) == Register(0x597665be6e, rest)
  {
    hide Register, InCharset;
    var s := EXAMPLE_1 + rest;
    assert s[9..] == rest && s[6..][3..] == s[9..] && s[3..][3..] == s[6..];
    Group(0x60b4e1b1db, s[6..], (1, 4), (2, 13), (2, 18), 0x597665be6e);
    Group(0x1956a0, s[3..], (2, 9), (0, 10), (0, 2), 0x60b4e1b1db);
    Group(0x1, s, (0, 18), (0, 21), (0, 21), 0x1956a0);
  }

  const EXAMPLE_2: string := "fRVvRAeBS"

  lemma Example2(rest: string)
    requires InCharset(rest)
    ensures InCharset(EXAMPLE_2 + rest) && Register(0x597665be6e, EXAMPLE_2 + rest) == Register(0x810dfdeace, rest)
  {
    hide Register, InCharset;
    var s := EXAMPLE_2 + rest;
    assert s[9..] == rest && s[6..][3..] == s[9..] && s[3..][3..] == s[6..];
    Group(0x54a244e231, s[6..], (0, 22), (2, 19), (1, 10), 0x810dfdeace);
    Group(0x46c37138b1, s[3..], (2, 13), (1, 9), (2, 18), 0x54a244e231);
    Group(0x597665be6e, s, (0, 23), (1, 9), (1, 13), 0x46c37138b1);
  }

  const EXAMPLE_3: string := "18NT7mKVc"

  lemma Example3(rest: string)
    requires InCharset(rest)
    ensures InCharset(EXAMPLE_3 + rest) && Register(0x810dfdeace, EXAMPLE_3 + rest) == Register(0xbb6644331c, rest)
  {
    hide Register, InCharset;
    var s := EXAMPLE_3 + rest;
    assert s[9..] == rest && s[6..][3..] == s[9..] && s[3..][3..] == s[6..];
    Group(0x8d19d40483, s[6..], (1, 2), (1, 13), (0, 20), 0xbb6644331c);
    Group(0x64eb30a06a, s[3..], (1, 11), (0, 7), (2, 4), 0x8d19d40483);
    Group(0x810dfdeace, s, (0, 1), (0, 8), (1, 5), 0x64eb30a06a);
  }

  const EXAMPLE_4: string := "1gFim169G"

  lemma Example4(rest: string)
    requires InCharset(rest)
    ensures InCharset(EXAMPLE_4 + rest) && Register(0xbb6644331c, EXAMPLE_4 + rest) == Register(0x56752d5975, rest)
  {
    hide Register, InCharset;
    var s := EXAMPLE_4 + rest;
    assert s[9..] == rest && s[6..][3..] == s[9..] && s[3..][3..] == s[6..];
    Group(0x23e89dc529, s[6..], (0, 6), (0, 9), (2, 24), 0x56752d5975);
    Group(0x7c81697c07, s[3..], (2, 0), (2, 4), (0, 1), 0x23e89dc529);
    Group(0xbb6644331c, s, (0, 1), (0, 24), (2, 23), 0x7c81697c07);
  }

  const EXAMPLE_5: string := "kFC5)"

  /** The last characters; after the last two comes the symbol of their classes alone. */
  lemma Example5()
    ensures InCharset(EXAMPLE_5) && Register(0x56752d5975, EXAMPLE_5) == 0x31eb97d587
  {
    var s := EXAMPLE_5;
    LastTwo();
    hide Register, InCharset, Position;
    assert s[3..] == "5)";
    Group(0x56752d5975, s, (2, 2), (2, 23), (2, 20), 0xeab67bfea4);
  }

  lemma LastTwo()
    ensures InCharset("5)") && Register(0xeab67bfea4, "5)") == 0x31eb97d587
  {
    hide Position, PolyMod;
    PlainIsPosition('5');
    PlainIsPosition(')');
    assert Positions("5)") == [5, 11];
    AccumulatorZero();
    FeedCharacter(0xeab67bfea4, 0, 0, [5, 11]);
    LastSymbols();
    FeedCharacter(0xebf15926a6, 0, 1, [11]);
  }

  lemma LastSymbols()
    ensures PolyMod(0xeab67bfea4, Sym(5)) == 0xebf15926a6 && PolyMod(0xebf15926a6, Sym(11)) == 0xc3150226e8
    ensures PolyMod(0xc3150226e8, Sym(0)) == 0x31eb97d587
  {}

  lemma ExampleFlushed()
    ensures Feed(0x31eb97d587, Zeros(8)) == 0xbd0932e414
  {}

  lemma ExampleRendered()
    ensures Render(Xor(0xbd0932e414, 1)) == "h5yn9eq4"
  {}

  const EXAMPLE: string := EXAMPLE_1 + (EXAMPLE_2 + (EXAMPLE_3 + (EXAMPLE_4 + EXAMPLE_5)))

  lemma ExampleRegister()
    ensures InCharset(EXAMPLE) && Register(1, EXAMPLE) == 0x31eb97d587
  {
    hide Register, InCharset, EXAMPLE_1, EXAMPLE_2, EXAMPLE_3, EXAMPLE_4, EXAMPLE_5;
    Example5();
    Example4(EXAMPLE_5);
    Example3(EXAMPLE_4 + EXAMPLE_5);
    Example2(EXAMPLE_3 + (EXAMPLE_4 + EXAMPLE_5));
    Example1(EXAMPLE_2 + (EXAMPLE_3 + (EXAMPLE_4 + EXAMPLE_5)));
  }

  /** The descriptor addr(2MvAfRVvRAeBS18NT7mKVc1gFim169GkFC5) has the checksum h5yn9eq4. */
  lemma ExampleChecksum()
    ensures Checksum(EXAMPLE) == "h5yn9eq4"
  {
    hide Render, Xor, InCharset, EXAMPLE, Feed, Expand, Zeros;
    ExampleRegister();
    ExampleFlushed();
    ExampleRendered();
  }

  /** The address in the example. */
  const EXAMPLE_ADDRESS: string := EXAMPLE_1[5..] + (EXAMPLE_2 + (EXAMPLE_3 + (EXAMPLE_4 + EXAMPLE_5[..4])))

  lemma ExampleParts()
    ensures |EXAMPLE_1| == 9 && |EXAMPLE_5| == 5
    ensures "addr(" + EXAMPLE_1[5..] == EXAMPLE_1 && EXAMPLE_5[..4] + ")" == EXAMPLE_5
  {}

  lemma ExampleAround(first: string, second: string, third: string, fourth: string, fifth: string)
    ensures "addr(" + (first + (second + (third + (fourth + fifth)))) + ")"
         == ("addr(" + first) + (second + (third + (fourth + (fifth + ")"))))
  {}

  /** So its descriptor is the one in the source's own example. */
  lemma ExampleDescriptor()
    ensures AddressDescriptor(EXAMPLE_ADDRESS) == EXAMPLE + "#" + "h5yn9eq4"
  {
    ExampleChecksum();
    ExampleParts();
    hide Checksum, EXAMPLE_1, EXAMPLE_2, EXAMPLE_3, EXAMPLE_4, EXAMPLE_5;
    ExampleAround(EXAMPLE_1[5..], EXAMPLE_2, EXAMPLE_3, EXAMPLE_4, EXAMPLE_5[..4]);
  }
}
