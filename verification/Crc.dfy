/**
 crc16ccitt of Config.cpp, against long division of polynomials over GF(2).
 */
module Crc {

  // ---------- Words of 16 bits ----------

  const POLY: bv16 := 0x1021

  function Xor(x: bv16, y: bv16): bv16 {
    x ^ y
  }

  function Shl(x: bv16): bv16 {
    x << 1
  }

  predicate Top(x: bv16) {
    x & 0x8000 != 0
  }

  lemma XorLaws(x: bv16, y: bv16, z: bv16)
    ensures Xor(Xor(x, y), z) == Xor(x, Xor(y, z))
    ensures Xor(x, y) == Xor(y, x)
    ensures Xor(x, 0) == x && Xor(x, x) == 0
  {
  }

  lemma ShlLaws(x: bv16, y: bv16)
    ensures Shl(Xor(x, y)) == Xor(Shl(x), Shl(y)) && Shl(0) == 0
  {
  }

  lemma TopLaws(x: bv16, y: bv16)
    ensures Top(Xor(x, y)) <==> Top(x) != Top(y)
    ensures !Top(0)
  {
    assert (x ^ y) & 0x8000 == (x & 0x8000) ^ (y & 0x8000);
    TopBit(x);
    TopBit(y);
  }

  lemma TopBit(x: bv16)
    ensures x & 0x8000 == 0 || x & 0x8000 == 0x8000
  {
  }

  /** The polynomial has a constant term, a shifted word has none. */
  lemma OnlyZero(x: bv16)
    ensures Xor(Shl(x), POLY) != 0
    ensures Shl(x) == 0 && !Top(x) ==> x == 0
  {
  }

  /** A word from its bytes, most significant first. */
  function Big(high: bv8, low: bv8): bv16 {
    ((high as bv16) << 8) | (low as bv16)
  }

  // ---------- The code ----------

  /** One turn of the inner loop. */
  function Round(c: bv16): bv16 {
    if Top(c) then Xor(Shl(c), POLY) else Shl(c)
  }

  function Rounds(c: bv16, n: nat): bv16
    decreases n
  {
    if n == 0 then c else Rounds(Round(c), n - 1)
  }

  /** The register after one more byte. */
  function Next(c: bv16, b: bv8): bv16 {
    Rounds(Xor(c, Big(b, 0)), 8)
  }

  /** The register after `data`, starting from c. */
  function From(c: bv16, data: seq<bv8>): bv16
    decreases |data|
  {
    if data == [] then c else From(Next(c, data[0]), data[1..])
  }

  /** crc16ccitt */
  method Crc16(buf: seq<bv8>) returns (crc: bv16)
    ensures crc == From(0, buf)
    ensures WordBits(crc, 16) == Remainder(DataBits(buf) + SixteenZeros(), Divisor())
  {
    hide Rounds, Remainder, DataBits, WordBits, Divisor;
    CrcIsRemainder(buf);
    crc := 0;
    var k := 0;
    while k < |buf|
      invariant 0 <= k <= |buf|
      invariant From(crc, buf[k..]) == From(0, buf)
    {
      ghost var before := crc;
      crc := crc ^ ((buf[k] as bv16) << 8);
      ByteOnTop(before, buf[k]);
      crc := EightTurns(crc);
      assert buf[k..][1..] == buf[k + 1..];
      k := k + 1;
    }
  }

  lemma ByteOnTop(c: bv16, b: bv8)
    ensures c ^ ((b as bv16) << 8) == Xor(c, Big(b, 0))
  {
  }

  /** The inner loop of crc16ccitt. */
  method EightTurns(c: bv16) returns (crc: bv16)
    ensures crc == Rounds(c, 8)
  {
    crc := c;
    for i := 0 to 8
      invariant Rounds(crc, 8 - i) == Rounds(c, 8)
    {
      if crc & 0x8000 != 0 {
        crc := (crc << 1) ^ 0x1021;
      } else {
        crc := crc << 1;
      }
    }
  }

  // ---------- Long division ----------

  type Bits = seq<bool>

  /** The first n bits of a word, most significant first. */
  function WordBits(x: bv16, n: nat): (s: Bits)
    ensures |s| == n
    decreases n
  {
    if n == 0 then [] else [Top(x)] + WordBits(Shl(x), n - 1)
  }

  function DataBits(data: seq<bv8>): Bits {
    if data == [] then [] else WordBits(Big(data[0], 0), 8) + DataBits(data[1..])
  }

  /** x^16 times a polynomial has its coefficients, followed by these. */
  function SixteenZeros(): (z: Bits)
    ensures |z| == 16 && forall i :: 0 <= i < 16 ==> !z[i]
  {
    seq(16, i => false)
  }

  /** The bits of s, the first ones combined with those of p. */
  function XorFront(s: Bits, p: Bits): (r: Bits)
    requires |p| <= |s|
    ensures |r| == |s|
  {
    seq(|s|, i requires 0 <= i < |s| => if i < |p| then s[i] != p[i] else s[i])
  }

  /** Remainder of the polynomial with coefficients d, highest first, divided by the one with
      coefficients p: subtract the divisor wherever the leading coefficient is 1. */
  function Remainder(d: Bits, p: Bits): Bits
    requires p != []
    decreases |d|
  {
    if |d| < |p| then d
    else if d[0] then Remainder(XorFront(d, p)[1..], p)
    else Remainder(d[1..], p)
  }

  /** x^16 + x^12 + x^5 + 1: the coefficient of x^(16 - i) is entry i. */
  function Divisor(): (p: Bits)
    ensures |p| == 17 && forall i :: 0 <= i < 17 ==> (p[i] <==> 16 - i in {16, 12, 5, 0})
  {
    seq(17, i => 16 - i in {16, 12, 5, 0})
  }

  /** The word that the code subtracts is the divisor without its leading coefficient. */
  lemma PolyIsDivisor()
    ensures Divisor() == [true] + WordBits(POLY, 16)
  {
    Nibble(0x1021, 12);
    Nibble(0x0210, 8);
    Nibble(0x2100, 4);
    Nibble(0x1000, 0);
    assert WordBits(POLY, 16)
        == [false, false, false, true] + [false, false, false, false] + [false, false, true, false]
           + [false, false, false, true];
  }

  lemma Nibble(x: bv16, n: nat)
    ensures WordBits(x, n + 4)
         == [x & 0x8000 != 0, x & 0x4000 != 0, x & 0x2000 != 0, x & 0x1000 != 0] + WordBits(x << 4, n)
  {
    FirstBit(x, n + 3);
    FirstBit(x << 1, n + 2);
    FirstBit(x << 2, n + 1);
    FirstBit(x << 3, n);
    NextBits(x);
    hide WordBits, Top, Shl;
  }

  lemma NextBits(x: bv16)
    ensures Top(x) == (x & 0x8000 != 0) && Top(x << 1) == (x & 0x4000 != 0)
    ensures Top(x << 2) == (x & 0x2000 != 0) && Top(x << 3) == (x & 0x1000 != 0)
    ensures Shl(x) == x << 1 && Shl(x << 1) == x << 2 && Shl(x << 2) == x << 3 && Shl(x << 3) == x << 4
  {
  }

  lemma {:induction false} XorBits(x: bv16, y: bv16, n: nat, i: nat)
    requires i < n
    ensures WordBits(Xor(x, y), n)[i] == (WordBits(x, n)[i] != WordBits(y, n)[i])
    decreases n
  {
    hide Xor, Shl, Top;
    ShlLaws(x, y);
    TopLaws(x, y);
    if i > 0 {
      XorBits(Shl(x), Shl(y), n - 1, i - 1);
    }
  }

  /** Words with the same bits are equal. */
  lemma BitsTell(x: bv16, y: bv16)
    requires WordBits(x, 16) == WordBits(y, 16)
    ensures x == y
  {
    forall i | 0 <= i < 16
      ensures !WordBits(Xor(x, y), 16)[i]
    {
      XorBits(x, y, 16, i);
    }
    hide WordBits, Xor;
    NoBitSet(Xor(x, y));
    SumZero(x, y);
  }

  predicate AllClear(s: Bits) {
    forall i :: 0 <= i < |s| ==> !s[i]
  }

  lemma NoBitSet(x: bv16)
    requires AllClear(WordBits(x, 16))
    ensures x == 0
  {
    hide WordBits;
    ShiftTwice(x);
    HeadClear(x, 12);
    HeadClear(x << 4, 8);
    HeadClear(x << 8, 4);
    HeadClear(x << 12, 0);
    ClearWord(x);
  }

  lemma HeadClear(x: bv16, n: nat)
    requires AllClear(WordBits(x, n + 4))
    ensures x & 0xF000 == 0 && AllClear(WordBits(x << 4, n))
  {
    hide WordBits;
    Nibble(x, n);
    var w, v := WordBits(x, n + 4), WordBits(x << 4, n);
    assert !w[0] && !w[1] && !w[2] && !w[3];
    ClearNibble(x);
    assert forall i :: 0 <= i < n ==> v[i] == w[i + 4];
  }

  lemma ShiftTwice(x: bv16)
    ensures (x << 4) << 4 == x << 8 && (x << 8) << 4 == x << 12
  {
  }

  lemma ClearNibble(x: bv16)
    requires x & 0x8000 == 0 && x & 0x4000 == 0 && x & 0x2000 == 0 && x & 0x1000 == 0
    ensures x & 0xF000 == 0
  {
  }

  lemma ClearWord(x: bv16)
    requires x & 0xF000 == 0 && (x << 4) & 0xF000 == 0 && (x << 8) & 0xF000 == 0 && (x << 12) & 0xF000 == 0
    ensures x == 0
  {
  }

  lemma XorFrontTwice(s: Bits, x: bv16, y: bv16)
    requires |s| >= 16
    ensures XorFront(XorFront(s, WordBits(x, 16)), WordBits(y, 16)) == XorFront(s, WordBits(Xor(x, y), 16))
  {
    hide Xor, WordBits;
    forall i | 0 <= i < 16
      ensures WordBits(Xor(x, y), 16)[i] == (WordBits(x, 16)[i] != WordBits(y, 16)[i])
    {
      XorBits(x, y, 16, i);
    }
  }

  function ShlBy(x: bv16, n: nat): bv16
    decreases n
  {
    if n == 0 then x else ShlBy(Shl(x), n - 1)
  }

  lemma {:induction false} ShlByAdd(x: bv16, m: nat, n: nat)
    ensures ShlBy(x, m + n) == ShlBy(ShlBy(x, m), n)
    decreases m
  {
    hide Shl;
    if m > 0 {
      ShlByAdd(Shl(x), m - 1, n);
    }
  }

  lemma ShlBy4(x: bv16)
    ensures ShlBy(x, 4) == x << 4
  {
    assert ShlBy(x, 4) == Shl(Shl(Shl(Shl(x))));
  }

  lemma ShlBy8(x: bv16)
    ensures ShlBy(x, 8) == x << 8
  {
    ShlBy4(x);
    ShlBy4(x << 4);
    hide ShlBy;
    ShlByAdd(x, 4, 4);
  }

  lemma ShiftedOut(x: bv16)
    ensures ShlBy(x, 16) == 0
  {
    ShlBy8(x);
    ShlBy8(x << 8);
    hide ShlBy;
    ShlByAdd(x, 8, 8);
  }

  lemma {:induction false} BitsFurther(x: bv16, n: nat)
    ensures WordBits(x, n + 1) == WordBits(x, n) + [Top(ShlBy(x, n))]
    decreases n
  {
    hide Shl, Top;
    if n > 0 {
      BitsFurther(Shl(x), n - 1);
    }
  }

  /** Shifting a word moves its bits up and brings in a zero. */
  lemma ShlBits(x: bv16)
    ensures WordBits(Shl(x), 16) == WordBits(x, 16)[1..] + [false]
  {
    hide *;
    BitsFurther(x, 16);
    ShiftedOut(x);
    TopLaws(0, 0);
    FirstBit(x, 16);
    TailOfBits(WordBits(x, 16), Top(x), WordBits(Shl(x), 16), Top(ShlBy(x, 16)));
  }

  lemma TailOfBits(w: Bits, first: bool, v: Bits, last: bool)
    requires |w| > 0 && w + [last] == [first] + v
    ensures v == w[1..] + [last]
  {
    assert v == ([first] + v)[1..] == (w + [last])[1..];
  }

  lemma FirstBit(x: bv16, n: nat)
    ensures WordBits(x, n + 1) == [Top(x)] + WordBits(Shl(x), n)
  {
  }

  /** The register fed with one message bit, and with a sequence of them. */
  function StepBit(c: bv16, b: bool): bv16 {
    if Top(c) != b then Xor(Shl(c), POLY) else Shl(c)
  }

  function FeedBits(c: bv16, m: Bits): bv16
    decreases |m|
  {
    if m == [] then c else FeedBits(StepBit(c, m[0]), m[1..])
  }

  /** One step of the long division: what is left of the dividend is the rest of it with the
      register added on top. */
  lemma DivisionStep(c: bv16, b: bool, rest: Bits)
    requires |rest| >= 16
    ensures Remainder(XorFront([b] + rest, WordBits(c, 16)), Divisor())
         == Remainder(XorFront(rest, WordBits(StepBit(c, b), 16)), Divisor())
  {
    hide Xor, Shl, Top, WordBits, Remainder, Divisor;
    ShlBits(c);
    FirstBit(c, 15);
    var d := XorFront([b] + rest, WordBits(c, 16));
    assert d[0] == (b != Top(c));
    assert d[1..] == XorFront(rest, WordBits(Shl(c), 16));
    hide XorFront;
    RemainderStep(d);
    XorFrontTwice(rest, Shl(c), POLY);
  }

  lemma RemainderStep(d: Bits)
    requires |d| > 16
    ensures Remainder(d, Divisor())
         == if d[0] then Remainder(XorFront(d[1..], WordBits(POLY, 16)), Divisor()) else Remainder(d[1..], Divisor())
  {
    PolyIsDivisor();
    hide WordBits, Remainder, Divisor;
    assert XorFront(d, [true] + WordBits(POLY, 16))[1..] == XorFront(d[1..], WordBits(POLY, 16));
    hide XorFront;
    Unfolded(d, Divisor());
  }

  lemma Unfolded(d: Bits, p: Bits)
    requires 0 < |p| <= |d|
    ensures Remainder(d, p) == if d[0] then Remainder(XorFront(d, p)[1..], p) else Remainder(d[1..], p)
  {
    hide XorFront;
  }

  lemma {:induction false} Division(c: bv16, m: Bits)
    ensures Remainder(XorFront(m + SixteenZeros(), WordBits(c, 16)), Divisor()) == WordBits(FeedBits(c, m), 16)
    decreases |m|
  {
    hide StepBit, Remainder, WordBits, Divisor;
    if m == [] {
      assert m + SixteenZeros() == SixteenZeros();
      assert XorFront(SixteenZeros(), WordBits(c, 16)) == WordBits(c, 16);
      RemainderItself(WordBits(c, 16));
    } else {
      assert m + SixteenZeros() == [m[0]] + (m[1..] + SixteenZeros());
      DivisionStep(c, m[0], m[1..] + SixteenZeros());
      Division(StepBit(c, m[0]), m[1..]);
    }
  }

  lemma RemainderItself(d: Bits)
    requires |d| <= 16
    ensures Remainder(d, Divisor()) == d
  {
    hide Divisor;
  }

  /** Adding a word to the register beforehand and shifting both is feeding its bits. */
  lemma {:induction false} FeedWord(c: bv16, w: bv16, n: nat)
    ensures Xor(FeedBits(c, WordBits(w, n)), ShlBy(w, n)) == Rounds(Xor(c, w), n)
    decreases n
  {
    hide Xor, Shl, Top;
    if n > 0 {
      var c1 := StepBit(c, Top(w));
      assert WordBits(w, n)[1..] == WordBits(Shl(w), n - 1);
      assert FeedBits(c, WordBits(w, n)) == FeedBits(c1, WordBits(Shl(w), n - 1));
      RoundOfSum(c, w);
      FeedWord(c1, Shl(w), n - 1);
    }
  }

  lemma RoundOfSum(c: bv16, w: bv16)
    ensures Round(Xor(c, w)) == Xor(StepBit(c, Top(w)), Shl(w))
  {
    hide Xor, Shl, Top;
    ShlLaws(c, w);
    TopLaws(c, w);
    XorLaws(Shl(c), Shl(w), POLY);
    XorLaws(Shl(c), POLY, Shl(w));
    XorLaws(Shl(w), POLY, 0);
  }

  lemma ByteGone(b: bv8)
    ensures ShlBy(Big(b, 0), 8) == 0
  {
    ShlBy8(Big(b, 0));
    hide ShlBy;
  }

  lemma {:induction false} FeedConcat(c: bv16, a: Bits, b: Bits)
    ensures FeedBits(c, a + b) == FeedBits(FeedBits(c, a), b)
    decreases |a|
  {
    hide StepBit;
    if a == [] {
      assert a + b == b;
    } else {
      assert (a + b)[1..] == a[1..] + b;
      FeedConcat(StepBit(c, a[0]), a[1..], b);
    }
  }

  lemma {:induction false} FeedData(c: bv16, data: seq<bv8>)
    ensures FeedBits(c, DataBits(data)) == From(c, data)
    decreases |data|
  {
    hide StepBit, FeedBits, Rounds, Xor, ShlBy, Big, WordBits;
    if data == [] {
      NoBits(c);
    } else {
      var w := Big(data[0], 0);
      FeedConcat(c, WordBits(w, 8), DataBits(data[1..]));
      FeedWord(c, w, 8);
      ByteGone(data[0]);
      XorLaws(FeedBits(c, WordBits(w, 8)), 0, 0);
      FeedData(Next(c, data[0]), data[1..]);
    }
  }

  lemma NoBits(c: bv16)
    ensures FeedBits(c, []) == c
  {
  }

  /** crc16ccitt is the remainder of the data, as a polynomial times x^16, divided by
      x^16 + x^12 + x^5 + 1. */
  lemma CrcIsRemainder(data: seq<bv8>)
    ensures WordBits(From(0, data), 16) == Remainder(DataBits(data) + SixteenZeros(), Divisor())
  {
    hide Remainder, DataBits, From, FeedBits, Divisor;
    Division(0, DataBits(data));
    FeedData(0, data);
    NoRegister(DataBits(data) + SixteenZeros());
  }

  /** No other word is that remainder. */
  lemma OnlyCrc(data: seq<bv8>, x: bv16)
    ensures WordBits(x, 16) == Remainder(DataBits(data) + SixteenZeros(), Divisor()) <==> x == From(0, data)
  {
    hide Remainder, DataBits, From, WordBits, Divisor, SixteenZeros;
    CrcIsRemainder(data);
    if WordBits(x, 16) == WordBits(From(0, data), 16) {
      BitsTell(x, From(0, data));
    }
  }

  /** The single byte 1 has the divisor's lower coefficients as its CRC. */
  lemma CrcOfOne()
    ensures From(0, [1]) == 0x1021
  {
    OneByte(0, 1);
    RoundsAdd(0x0100, 4, 4);
    FourRounds(0x0100);
    FourRounds(0x1000);
  }

  lemma FourRounds(c: bv16)
    ensures Rounds(c, 4) == Round(Round(Round(Round(c))))
  {
    hide Round;
    var d := Round(c);
    assert Rounds(c, 4) == Rounds(d, 3);
    assert Rounds(d, 3) == Rounds(Round(d), 2);
    assert Rounds(Round(d), 2) == Rounds(Round(Round(d)), 1);
  }

  lemma NoRegister(s: Bits)
    requires |s| >= 16
    ensures XorFront(s, WordBits(0, 16)) == s
  {
    hide WordBits;
    forall i | 0 <= i < 16
      ensures !WordBits(0, 16)[i]
    {
      XorLaws(0, 0, 0);
      XorBits(0, 0, 16, i);
    }
  }

  // ---------- What the CRC detects ----------

  lemma RoundLinear(x: bv16, y: bv16)
    ensures Round(Xor(x, y)) == Xor(Round(x), Round(y))
  {
    hide Xor, Shl, Top;
    ShlLaws(x, y);
    TopLaws(x, y);
    Shuffle(Shl(x), Shl(y));
  }

  lemma Shuffle(x: bv16, y: bv16)
    ensures Xor(Xor(x, POLY), Xor(y, POLY)) == Xor(x, y)
    ensures Xor(Xor(x, POLY), y) == Xor(Xor(x, y), POLY) == Xor(x, Xor(y, POLY))
  {
    hide Xor;
    XorLaws(x, y, POLY);
    XorLaws(x, POLY, y);
    XorLaws(POLY, y, 0);
    XorLaws(x, POLY, Xor(y, POLY));
    XorLaws(POLY, y, POLY);
    XorLaws(y, POLY, POLY);
    XorLaws(POLY, POLY, 0);
    XorLaws(y, 0, 0);
  }

  lemma {:induction false} RoundsLinear(x: bv16, y: bv16, n: nat)
    ensures Rounds(Xor(x, y), n) == Xor(Rounds(x, n), Rounds(y, n))
    decreases n
  {
    hide Xor, Round;
    if n > 0 {
      RoundLinear(x, y);
      RoundsLinear(Round(x), Round(y), n - 1);
    }
  }

  lemma {:induction false} RoundsInjective(x: bv16, y: bv16, n: nat)
    requires Rounds(x, n) == Rounds(y, n)
    ensures x == y
    decreases n
  {
    hide Round;
    if n > 0 {
      RoundsInjective(Round(x), Round(y), n - 1);
      RoundInjective(x, y);
    }
  }

  lemma RoundInjective(x: bv16, y: bv16)
    requires Round(x) == Round(y)
    ensures x == y
  {
    hide Xor, Shl, Top;
    RoundLinear(x, y);
    XorLaws(Round(x), 0, 0);
    OnlyZero(Xor(x, y));
    SumZero(x, y);
  }

  lemma SumZero(x: bv16, y: bv16)
    ensures Xor(x, y) == 0 ==> x == y
  {
  }

  lemma {:induction false} FromConcat(c: bv16, a: seq<bv8>, b: seq<bv8>)
    ensures From(c, a + b) == From(From(c, a), b)
    decreases |a|
  {
    hide Next;
    if a == [] {
      assert a + b == b;
    } else {
      assert (a + b)[1..] == a[1..] + b;
      FromConcat(Next(c, a[0]), a[1..], b);
    }
  }

  lemma {:induction false} FromInjective(c: bv16, d: bv16, data: seq<bv8>)
    requires From(c, data) == From(d, data)
    ensures c == d
    decreases |data|
  {
    hide Rounds, Big, Xor;
    if data != [] {
      var w := Big(data[0], 0);
      FromInjective(Next(c, data[0]), Next(d, data[0]), data[1..]);
      RoundsInjective(Xor(c, w), Xor(d, w), 8);
      XorCancels(c, d, w);
    }
  }

  lemma XorCancels(x: bv16, y: bv16, w: bv16)
    requires Xor(x, w) == Xor(y, w)
    ensures x == y
  {
  }

  lemma {:induction false} RoundsAdd(c: bv16, m: nat, n: nat)
    ensures Rounds(c, m + n) == Rounds(Rounds(c, m), n)
    decreases m
  {
    hide Round;
    if m > 0 {
      RoundsAdd(Round(c), m - 1, n);
    }
  }

  /** A low byte only moves up during eight rounds. */
  lemma LowByte(b: bv8)
    ensures Rounds(Big(0, b), 8) == Big(b, 0)
  {
    var w := b as bv16;
    LowRounds(w, 4);
    LowRounds(w << 4, 4);
    hide Round, Rounds;
    RoundsAdd(w, 4, 4);
  }

  lemma LowRounds(w: bv16, n: nat)
    requires n == 4 && w & 0xF000 == 0
    ensures Rounds(w, n) == w << 4
  {
    NoTop(w);
    assert Round(w) == w << 1;
    assert Round(w << 1) == w << 2;
    assert Round(w << 2) == w << 3;
    assert Round(w << 3) == w << 4;
    hide Round;
    assert Rounds(w, 4) == Rounds(w << 1, 3);
    assert Rounds(w << 1, 3) == Rounds(w << 2, 2);
    assert Rounds(w << 2, 2) == Rounds(w << 3, 1);
  }

  lemma NoTop(w: bv16)
    requires w & 0xF000 == 0
    ensures !Top(w) && !Top(w << 1) && !Top(w << 2) && !Top(w << 3)
    ensures Shl(w << 1) == w << 2 && Shl(w << 2) == w << 3 && Shl(w << 3) == w << 4
  {
  }

  /** Two bytes enter the register like one 16-bit word. */
  lemma TwoBytes(c: bv16, b1: bv8, b2: bv8)
    ensures From(c, [b1, b2]) == Rounds(Xor(c, Big(b1, b2)), 16)
  {
    var w := Big(b1, 0);
    var v := Big(0, b2);
    assert [b1, b2][1..] == [b2] && [b2][1..] == [];
    BigSplit(c, b1, b2);
    hide Rounds, Xor, Big;
    OneByte(c, b1);
    OneByte(Next(c, b1), b2);
    assert From(c, [b1, b2]) == From(Next(c, b1), [b2]);
    LowByte(b2);
    RoundsLinear(Xor(c, w), v, 8);
    RoundsAdd(Xor(c, Big(b1, b2)), 8, 8);
  }

  lemma OneByte(c: bv16, b: bv8)
    ensures From(c, [b]) == Next(c, b) == Rounds(Xor(c, Big(b, 0)), 8)
  {
    assert [b][1..] == [];
  }

  lemma BigSplit(c: bv16, b1: bv8, b2: bv8)
    ensures Xor(Xor(c, Big(b1, 0)), Big(0, b2)) == Xor(c, Big(b1, b2))
  {
  }

  lemma BigInjective(a1: bv8, a2: bv8, b1: bv8, b2: bv8)
    requires Big(a1, a2) == Big(b1, b2)
    ensures a1 == b1 && a2 == b2
  {
  }

  /** A change confined to two adjacent bytes alters the CRC. */
  lemma AdjacentChangeDetected(pre: seq<bv8>, a1: bv8, a2: bv8, b1: bv8, b2: bv8, post: seq<bv8>)
    requires (a1, a2) != (b1, b2)
    ensures From(0, pre + [a1, a2] + post) != From(0, pre + [b1, b2] + post)
  {
    hide Rounds, Big, Xor;
    var c := From(0, pre);
    FromConcat(0, pre + [a1, a2], post);
    FromConcat(0, pre + [b1, b2], post);
    FromConcat(0, pre, [a1, a2]);
    FromConcat(0, pre, [b1, b2]);
    if From(0, pre + [a1, a2] + post) == From(0, pre + [b1, b2] + post) {
      hide From;
      FromInjective(From(c, [a1, a2]), From(c, [b1, b2]), post);
      TwoBytes(c, a1, a2);
      TwoBytes(c, b1, b2);
      RoundsInjective(Xor(c, Big(a1, a2)), Xor(c, Big(b1, b2)), 16);
      XorLaws(c, Big(a1, a2), 0);
      XorLaws(c, Big(b1, b2), 0);
      XorCancels(Big(a1, a2), Big(b1, b2), c);
      BigInjective(a1, a2, b1, b2);
    }
  }

  /** Data followed by its own CRC, most significant byte first, has CRC 0. */
  lemma OwnCrc(data: seq<bv8>, b1: bv8, b2: bv8)
    requires Big(b1, b2) == From(0, data)
    ensures From(0, data + [b1, b2]) == 0
  {
    hide Rounds, Big, Xor, From;
    FromConcat(0, data, [b1, b2]);
    TwoBytes(From(0, data), b1, b2);
    XorLaws(Big(b1, b2), 0, 0);
    ZeroStays(16);
  }

  lemma {:induction false} ZeroStays(n: nat)
    ensures Rounds(0, n) == 0
    decreases n
  {
    if n > 0 {
      ZeroStays(n - 1);
    }
  }
}
