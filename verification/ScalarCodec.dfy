/**
 Scalars: what an encoder writes for a value its decoder reads back, at every width.
 */
module ScalarCodec {
  import opened Bits
  import opened Schema
  import opened EncodeSpec
  import opened DecodeSpec
  import Varint

  /** Zigzag is a bijection between int64 and uint64 that keeps int32 within 32 bits. */
  lemma ZigzagBijection(i: int, w: nat)
    requires -0x8000_0000_0000_0000 <= i < 0x8000_0000_0000_0000 && w < U64
    ensures 0 <= Zigzag(i) < U64 && Unzigzag(Zigzag(i)) == i
    ensures Zigzag(Unzigzag(w)) == w
    ensures -0x8000_0000_0000_0000 <= Unzigzag(w) < 0x8000_0000_0000_0000
    ensures -0x8000_0000 <= i < 0x8000_0000 <==> Zigzag(i) < U32
  {
    if i < 0 {
      assert (-2 * i - 1) % 2 == 1 && (-2 * i - 1) / 2 == -i - 1;
    } else {
      assert (2 * i) % 2 == 0 && (2 * i) / 2 == i;
    }
  }

  lemma {:induction false} LittleEndianRoundTrip(v: nat, n: nat)
    requires v < Pow2(8 * n)
    ensures FromLittleEndian(LittleEndian(v, n)) == v
    decreases n
  {
    if n > 0 {
      Pow2Small();
      Pow2Add(8, 8 * (n - 1));
      LittleEndianRoundTrip(v / 256, n - 1);
      var s := LittleEndian(v, n);
      assert s[1..] == LittleEndian(v / 256, n - 1);
    }
  }

  lemma VarintOk(w: nat, x: seq<byte>)
    requires w < U64
    ensures Varint64(Varint.Encode(w) + x) == Ok(w, x)
  {
    Varint.RoundTrip64(w, x);
  }

  lemma Varint32Ok(w: nat, x: seq<byte>)
    requires w < U32
    ensures Varint32(Varint.Encode(w) + x) == Ok(w, x)
  {
    Varint.RoundTrip32(w, x);
  }

  lemma TakeOk(s: seq<byte>, x: seq<byte>)
    ensures Take(s + x, |s|) == Ok(s, x)
  {
  }

  /** A length prefix in front of `b` and `x` is read back. */
  lemma LengthOk(b: seq<byte>, x: seq<byte>)
    requires |b| < U32
    ensures Varint32(Delimited(b) + x) == Ok(|b|, b + x)
    ensures Take(b + x, |b|) == Ok(b, x)
    ensures TakeDelimited(Delimited(b) + x) == Ok(b, x)
  {
    assert Delimited(b) + x == Varint.Encode(|b|) + (b + x);
    Varint32Ok(|b|, b + x);
    TakeOk(b, x);
  }

  lemma SkipVarintOk(w: nat, x: seq<byte>)
    requires w < U64
    ensures SkipVarint(Varint.Encode(w) + x) == Ok((), x)
  {
    hide Varint.Encode, Varint.Groups;
    VarintOk(w, x);
    Varint.DecodersAgree(Varint.Encode(w) + x);
  }

  /** A signed value survives the cast to uint64_t and back, at its own width. */
  lemma SignedCast(i: int, dataSize: nat)
    requires dataSize in {1, 2, 4, 8} && InRange(VarintType, dataSize, i)
    ensures 0 <= i % U64 < U64 && SignedField(i % U64, dataSize) == i
  {
    if i < 0 {
      assert i % U64 == i + U64;
      assert (i + U64) % U32 == i % U32;
    }
  }

  /** pb_enc_* and pb_dec_* are inverse on every value of every width. */
  lemma ScalarRoundTrip(f: Field, i: int, x: seq<byte>)
    requires f.ltype.Scalar? && WidthOk(f) && InRange(f.ltype.kind, f.dataSize, i)
    ensures DecodeScalar(f, ScalarBytes(f.ltype.kind, i) + x) == Ok(Int(i), x)
  {
    match f.ltype.kind {
      case VarintType =>
        SignedCast(i, f.dataSize);
        VarintOk(i % U64, x);
      case UVarintType =>
        VarintOk(i, x);
      case SVarintType =>
        ZigzagBijection(i, 0);
        VarintOk(Zigzag(i), x);
      case Fixed32Type =>
        Pow2Values();
        LittleEndianRoundTrip(i, 4);
        TakeOk(LittleEndian(i, 4), x);
      case Fixed64Type =>
        Pow2Values();
        LittleEndianRoundTrip(i, 8);
        TakeOk(LittleEndian(i, 8), x);
    }
  }

  /** Reading a varint field when the word on the wire is known. */
  lemma WordRead(f: Field, w: nat, x: seq<byte>)
    requires f.ltype.Scalar? && f.ltype.kind in {VarintType, UVarintType, SVarintType} && WidthOk(f) && w < U64
    ensures var i := ScalarOf(f.ltype.kind, f.dataSize, w);
            DecodeScalar(f, Varint.Encode(w) + x)
            == if InRange(f.ltype.kind, f.dataSize, i) then Ok(Int(i), x) else Fail
  {
    VarintOk(w, x);
  }

  lemma SignedLowWord(i: int, dataSize: nat)
    requires dataSize in {1, 2, 4} && InRange(VarintType, dataSize, i)
    ensures 0 <= i % U32 < U32 && ToSigned(i % U32, U32) == i
  {
    if i < 0 {
      assert i % U32 == i + U32;
    }
  }

  /** A negative value of at most 32 bits may also arrive as a 32-bit word (five bytes,
      from encoders that cast to uint32_t): an int field reads it the same way. */
  lemma ShortNegative(f: Field, i: int, x: seq<byte>)
    requires f.ltype == Scalar(VarintType) && f.dataSize in {1, 2, 4} && InRange(VarintType, f.dataSize, i)
    ensures 0 <= i % U32 && DecodeScalar(f, Varint.Encode(i % U32) + x) == Ok(Int(i), x)
  {
    SignedLowWord(i, f.dataSize);
    var w: nat := i % U32;
    WordRead(f, w, x);
  }

  /** Unsigned and zigzag fields accept exactly the words whose value fits their width. */
  lemma AcceptedWords(f: Field, w: nat, x: seq<byte>)
    requires f.ltype.Scalar? && f.ltype.kind in {UVarintType, SVarintType} && WidthOk(f) && w < U64
    ensures DecodeScalar(f, Varint.Encode(w) + x).Ok? <==> w < Modulus(f.dataSize)
  {
    WordRead(f, w, x);
    UnzigzagRange(w, f.dataSize);
  }

  lemma UnzigzagRange(w: nat, dataSize: nat)
    ensures InRange(SVarintType, dataSize, Unzigzag(w)) <==> w < Modulus(dataSize)
  {
  }

  lemma LowWordSame(w: nat)
    ensures 0 <= w % U32 < U64 && ToSigned(w % U32, U32) == ToSigned(w, U32)
  {
  }

  /** Plain signed fields up to 32 bits look at the low 32 bits of the word only. */
  lemma LowBitsOnly(f: Field, w: nat, low: nat, x: seq<byte>)
    requires f.ltype == Scalar(VarintType) && f.dataSize in {1, 2, 4}
    requires w < U64 && low == w % U32
    ensures DecodeScalar(f, Varint.Encode(w) + x) == DecodeScalar(f, Varint.Encode(low) + x)
  {
    LowWordSame(w);
    WordRead(f, w, x);
    WordRead(f, low, x);
  }
}
