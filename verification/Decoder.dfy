/**
 pb_decode.c: an input stream over a byte buffer, substreams, and the decoders that fill a
 struct in place. Every method is specified by DecodeSpec. Whether it succeeds or fails, the
 stream stays inside its buffer and the struct inside its bounds.
 */
module Decoder {
  import opened Bits
  import opened Schema
  import opened Wrappers
  import opened EncodeSpec
  import opened DecodeSpec
  import opened Iterator
  import opened Bitmap
  import opened Safety
  import Varint

  // ---------- Reading varints group by group ----------

  /** The scan of a whole varint, when its first k groups are worth `acc` and `r` is the scan
      of the rest. */
  function Resume(k: nat, acc: nat, r: Varint.Scan): Varint.Scan {
    match r
    case Done(v, u) => Varint.Done(acc + Pow2(7 * k) * v, u + k)
    case Short => Varint.Short
    case Over => Varint.Over
  }

  lemma ResumeStart(s: seq<byte>, limit: nat)
    ensures Resume(0, 0, Varint.Groups(s, limit)) == Varint.Groups(s, limit)
  {
  }

  /** One more group, with the continuation bit. */
  lemma ResumeStep(k: nat, acc: nat, s: seq<byte>, limit: nat)
    requires s != [] && s[0] >= 128 && limit > 0
    ensures Resume(k, acc, Varint.Groups(s, limit))
         == Resume(k + 1, acc + Pow2(7 * k) * (s[0] - 128), Varint.Groups(s[1..], limit - 1))
  {
    hide Pow2;
    Pow2Small();
    Pow2Add(7, 7 * k);
    var p := Pow2(7 * k);
    var r := Varint.Groups(s[1..], limit - 1);
    if r.Done? {
      Regroup(p, s[0] - 128, r.value);
    }
  }

  lemma Regroup(p: nat, c: nat, v: nat)
    ensures p * (c + 128 * v) == p * c + (128 * p) * v
  {
  }

  /** The last group. */
  lemma ResumeLast(k: nat, acc: nat, s: seq<byte>, limit: nat)
    requires s != [] && s[0] < 128 && limit > 0
    ensures Resume(k, acc, Varint.Groups(s, limit)) == Varint.Done(acc + Pow2(7 * k) * s[0], k + 1)
  {
    hide Pow2;
  }

  /** `result |= (byte & 0x7F) << bitpos` on an m-bit word: addition, modulo the word. */
  lemma OrGroup(acc: nat, c: nat, n: nat, m: nat)
    requires acc < Pow2(n) && n <= m
    ensures Or(acc, ShiftLeft(c, n, Pow2(m))) == (acc + Pow2(n) * c) % Pow2(m)
  {
    assert ShiftLeft(c, n, Pow2(m)) == (c * Pow2(n)) % Pow2(m);
    hide Pow2, Or, ShiftLeft;
    var p, q := Pow2(n), Pow2(m - n);
    Pow2Add(n, m - n);
    AddLow(0, c, p, q);
    OrDisjoint(acc, c % q, n);
    AddLow(acc, c, p, q);
  }

  lemma AddLow(acc: nat, c: nat, p: nat, q: nat)
    requires acc < p && q >= 1
    ensures (acc + c * p) % (p * q) == acc + (c % q) * p
  {
    var d, r := c / q, c % q;
    assert c == d * q + r;
    Scaled(p, q, d, r);
    ProductGap(p, r, q);
    DivideUnique(acc + c * p, p * q, d, acc + r * p);
  }

  lemma Scaled(p: nat, q: nat, d: nat, r: nat)
    ensures (d * q + r) * p == (p * q) * d + r * p
  {
    assert (d * q) * p == (p * q) * d;
  }

  /** A group that still fits the word is kept whole. */
  lemma GroupBound(acc: nat, c: nat, n: nat)
    requires acc < Pow2(n) && c < 128
    ensures acc + Pow2(n) * c < Pow2(n + 7)
  {
    hide Pow2;
    Pow2Small();
    Pow2Add(n, 7);
    var p := Pow2(n);
    assert p * c <= p * 127;
  }

  /** After k groups, all with the continuation bit, `result` holds what they are worth. */
  ghost predicate Mid(s: seq<byte>, limit: nat, k: nat, result: nat) {
    && k <= |s| && k <= limit
    && (k < limit ==> result < Pow2(7 * k)
                      && Varint.Groups(s, limit) == Resume(k, result, Varint.Groups(s[k..], limit - k)))
    && (k == limit ==> Varint.Groups(s, limit) == Varint.Over)
  }

  lemma MidStart(s: seq<byte>, limit: nat)
    requires limit > 0
    ensures Mid(s, limit, 0, 0)
  {
    ResumeStart(s, limit);
    assert s[0..] == s;
  }

  lemma MidShort(s: seq<byte>, limit: nat, k: nat, result: nat)
    requires Mid(s, limit, k, result) && k < limit && k == |s|
    ensures Varint.Groups(s, limit) == Varint.Short
  {
    assert s[k..] == [];
  }

  lemma MidOver(s: seq<byte>, limit: nat, result: nat)
    requires Mid(s, limit, limit, result)
    ensures Varint.Groups(s, limit) == Varint.Over
  {
  }

  /** One round of a decoding loop, on a word of m bits. */
  lemma MidStep(s: seq<byte>, limit: nat, m: nat, k: nat, result: nat)
    requires Mid(s, limit, k, result) && k < limit && k < |s| && 7 * (limit - 1) <= m
    ensures var b := s[k];
            var next := Or(result, ShiftLeft(b % 128, 7 * k, Pow2(m)));
            && (b >= 128 ==> Mid(s, limit, k + 1, next))
            && (b < 128 ==>
                  && Varint.Groups(s, limit) == Varint.Done(result + Pow2(7 * k) * b, k + 1)
                  && next == (result + Pow2(7 * k) * b) % Pow2(m))
  {
    hide Pow2, Or, Varint.Groups, ShiftLeft, Resume;
    var b, rest := s[k], s[k..];
    assert rest[0] == b && rest[1..] == s[k + 1..];
    WordRoom(k, limit, m);
    OrGroup(result, b % 128, 7 * k, m);
    if b < 128 {
      ResumeLast(k, result, rest, limit - k);
    } else {
      ResumeStep(k, result, rest, limit - k);
      GroupBound(result, b - 128, 7 * k);
      hide Mid;
      MidMore(s, limit, m, k, result, result + Pow2(7 * k) * (b - 128));
    }
  }

  lemma MidMore(s: seq<byte>, limit: nat, m: nat, k: nat, result: nat, sum: nat)
    requires k < limit && k < |s| && 7 * (limit - 1) <= m && sum < Pow2(7 * k + 7)
    requires Varint.Groups(s, limit) == Resume(k + 1, sum, Varint.Groups(s[k + 1..], limit - k - 1))
    ensures Mid(s, limit, k + 1, sum % Pow2(m))
  {
    hide Pow2, Varint.Groups, Resume;
    if k + 1 < limit {
      WordRoom(k + 1, limit, m);
      SmallWord(sum, 7 * (k + 1), m);
    } else {
      ScanNone(s[k + 1..]);
      ResumeOver(k + 1, sum);
    }
  }

  lemma WordRoom(k: nat, limit: nat, m: nat)
    requires k < limit && 7 * (limit - 1) <= m
    ensures 7 * k <= m
  {
  }

  lemma ResumeOver(k: nat, acc: nat)
    ensures Resume(k, acc, Varint.Over) == Varint.Over
  {
  }

  lemma ScanNone(s: seq<byte>)
    ensures Varint.Groups(s, 0) == Varint.Over
  {
  }

  /** A value of n bits is not cut by an m-bit word. */
  lemma SmallWord(x: nat, n: nat, m: nat)
    requires x < Pow2(n) && n <= m
    ensures x % Pow2(m) == x
  {
    hide Pow2;
    Pow2Increasing(n, m);
    DivideUnique(x, Pow2(m), 0, x);
  }

  lemma FirstGroup(b: nat, modulus: nat)
    requires b < 128 <= modulus
    ensures Or(0, ShiftLeft(b, 0, modulus)) == b
  {
    assert Pow2(0) == 1;
    OrZero(b);
    DivideUnique(b, modulus, 0, b);
  }

  // ---------- Streams ----------

  class IStream {
    const data: seq<byte>
    var pos: nat           // state
    var left: nat          // bytes_left

    ghost predicate Valid()
      reads this
    {
      pos + left <= |data|
    }

    /** The bytes the stream may still read. */
    ghost function Rest(): (s: seq<byte>)
      reads this
      requires Valid()
      ensures |s| == left
    {
      data[pos..pos + left]
    }

    /** The end of what was read can only stay or move back, never beyond the buffer. */
    constructor FromBuffer(data: seq<byte>)
      ensures Valid() && this.data == data && pos == 0 && Rest() == data
    {
      this.data := data;
      pos, left := 0, |data|;
    }

    constructor Sub(data: seq<byte>, pos: nat, left: nat)
      requires pos + left <= |data|
      ensures Valid() && this.data == data && this.pos == pos && this.left == left
    {
      this.data := data;
      this.pos, this.left := pos, left;
    }

    /** pb_readbyte */
    method ReadByte() returns (ok: bool, b: byte)
      requires Valid()
      modifies this
      ensures Valid() && ok == (old(left) > 0)
      ensures ok ==> b == old(Rest())[0] && Rest() == old(Rest())[1..] && pos == old(pos) + 1
      ensures !ok ==> pos == old(pos) && left == old(left)
    {
      if left == 0 {
        return false, 0;
      }
      b := data[pos];
      pos, left := pos + 1, left - 1;
      ok := true;
    }

    /** pb_read */
    method Read(count: nat) returns (ok: bool, bytes: seq<byte>)
      requires Valid()
      modifies this
      ensures Valid() && ok == Take(old(Rest()), count).Ok?
      ensures ok ==> Take(old(Rest()), count) == Ok(bytes, Rest()) && pos == old(pos) + count
      ensures !ok ==> pos == old(pos) && left == old(left)
    {
      if left < count {
        return false, [];
      }
      ghost var s := Rest();
      bytes := data[pos..pos + count];
      pos, left := pos + count, left - count;
      ok := true;
      assert s[..count] == bytes && s[count..] == Rest();
    }

    /** pb_decode_varint32 */
    method DecodeVarint32() returns (ok: bool, value: nat)
      requires Valid()
      modifies this
      ensures Valid() && value < U32
      ensures match Varint.Groups(old(Rest()), Varint.LIMIT32)
              case Done(v, used) => ok && value == v % U32 && Rest() == old(Rest())[used..]
              case Short => !ok && left == 0
              case Over => !ok && left == old(left) - 5
      ensures pos + left == old(pos + left) && left <= old(left)
      ensures ok <==> Varint32(old(Rest())).Ok?
      ensures ok ==> Varint32(old(Rest())) == Ok(value, Rest())
    {
      hide Varint.Groups, Pow2, Or, ShiftLeft, Mid;
      ghost var s := Rest();
      value := 0;
      Pow2Values();
      MidStart(s, 5);
      var b;
      ok, b := ReadByte();
      if !ok {
        MidShort(s, 5, 0, 0);
        return;
      }
      MidStep(s, 5, 32, 0, 0);
      FirstGroup(b % 128, U32);
      if b < 128 {
        value := b;
        return;
      }
      var bitpos := 7;
      var result: nat := b % 128;
      ghost var k := 1;
      ghost var whole: nat := 0;
      while b >= 128
        invariant Valid() && bitpos == 7 * k && 1 <= k <= 5 && k <= |s| && Rest() == s[k..]
        invariant pos + left == old(pos + left)
        invariant b >= 128 ==> Mid(s, 5, k, result)
        invariant b < 128 ==> Varint.Groups(s, 5) == Varint.Done(whole, k) && result == whole % U32
        decreases if b >= 128 then 6 - k else 0
      {
        if bitpos >= 32 {
          MidOver(s, 5, result);
          ok := false;
          return;
        }
        ok, b := ReadByte();
        if !ok {
          MidShort(s, 5, k, result);
          return;
        }
        MidStep(s, 5, 32, k, result);
        whole := result + Pow2(7 * k) * b;
        result := Or(result, ShiftLeft(b % 128, bitpos, U32));
        bitpos := bitpos + 7;
        k := k + 1;
      }
      value := result;
    }

    /** pb_decode_varint */
    method DecodeVarint() returns (ok: bool, value: nat)
      requires Valid()
      modifies this
      ensures Valid() && value < U64
      ensures pos + left == old(pos + left) && left <= old(left)
      ensures ok <==> Varint64(old(Rest())).Ok?
      ensures ok ==> Varint64(old(Rest())) == Ok(value, Rest())
    {
      hide Varint.Groups, Pow2, Or, ShiftLeft, Mid;
      ghost var s := Rest();
      value := 0;
      Pow2Values();
      MidStart(s, 10);
      var b := 128;
      var bitpos := 0;
      var result: nat := 0;
      ghost var k := 0;
      ghost var whole: nat := 0;
      while b >= 128
        invariant Valid() && bitpos == 7 * k && k <= 10 && k <= |s| && Rest() == s[k..]
        invariant pos + left == old(pos + left)
        invariant b >= 128 ==> Mid(s, 10, k, result)
        invariant b < 128 ==> Varint.Groups(s, 10) == Varint.Done(whole, k) && result == whole % U64
        decreases if b >= 128 then 11 - k else 0
      {
        if bitpos >= 64 {
          MidOver(s, 10, result);
          ok := false;
          return;
        }
        ok, b := ReadByte();
        if !ok {
          MidShort(s, 10, k, result);
          return;
        }
        MidStep(s, 10, 64, k, result);
        whole := result + Pow2(7 * k) * b;
        result := Or(result, ShiftLeft(b % 128, bitpos, U64));
        bitpos := bitpos + 7;
        k := k + 1;
      }
      ok := true;
      value := result;
    }

    /** pb_skip_varint */
    method SkipVarint() returns (ok: bool)
      requires Valid()
      modifies this
      ensures Valid()
      ensures pos + left == old(pos + left) && left <= old(left)
      ensures ok <==> DecodeSpec.SkipVarint(old(Rest())).Ok?
      ensures ok ==> DecodeSpec.SkipVarint(old(Rest())) == Ok((), Rest())
    {
      ghost var s := Rest();
      ghost var k := 0;
      var more := true;
      assert s[0..] == s;
      while more
        invariant Valid() && k <= |s| && Rest() == s[k..]
        invariant pos + left == old(pos + left)
        invariant more ==> (Varint.Unlimited(s).Done? <==> Varint.Unlimited(s[k..]).Done?)
        invariant more && Varint.Unlimited(s).Done? ==>
                    Varint.Unlimited(s).used == k + Varint.Unlimited(s[k..]).used
        invariant !more ==> Varint.Unlimited(s).Done? && Varint.Unlimited(s).used == k
        decreases left, more
      {
        var buf;
        ghost var t := s[k..];
        ok, buf := Read(1);
        if !ok {
          assert t == [];
          return;
        }
        assert t[1..] == s[k + 1..] && buf[0] == t[0] && |t| + 1 == |t[1..]| + 2;
        more := buf[0] >= 128;
        k := k + 1;
      }
      ok := true;
    }

    /** pb_skip_string */
    method SkipString() returns (ok: bool)
      requires Valid()
      modifies this
      ensures Valid()
      ensures pos + left == old(pos + left) && left <= old(left)
      ensures ok <==> TakeDelimited(old(Rest())).Ok?
      ensures ok ==> TakeDelimited(old(Rest())).rest == Rest()
    {
      var length;
      ok, length := DecodeVarint32();
      if ok {
        var skipped;
        ok, skipped := Read(length);
      }
    }

    /** pb_skip_field */
    method SkipField(wireType: nat) returns (ok: bool)
      requires Valid()
      modifies this
      ensures Valid()
      ensures pos + left == old(pos + left) && left <= old(left)
      ensures ok <==> DecodeSpec.SkipField(wireType, old(Rest())).Ok?
      ensures ok ==> DecodeSpec.SkipField(wireType, old(Rest())) == Ok((), Rest())
    {
      var skipped;
      match wireType {
        case 0 => ok := SkipVarint();
        case 1 => ok, skipped := Read(8);
        case 2 => ok := SkipString();
        case 5 => ok, skipped := Read(4);
        case _ => ok := false;
      }
    }

    /** pb_decode_tag */
    method DecodeTag() returns (ok: bool, wireType: nat, number: nat, eof: bool)
      requires Valid()
      modifies this
      ensures Valid()
      ensures pos + left == old(pos + left) && left <= old(left)
      ensures match DecodeSpec.DecodeTag(old(Rest()))
              case Tag(n, w, rest) => ok && number == n && wireType == w && Rest() == rest && left < old(left)
              case Eof(rest) => !ok && eof && Rest() == rest
              case BadTag => !ok && !eof
    {
      hide Varint.Groups;
      ghost var s := Rest();
      eof, wireType, number := false, 0, 0;
      var temp;
      ok, temp := DecodeVarint32();
      if !ok {
        if left == 0 {
          eof := true;
        }
        return;
      }
      if temp == 0 {
        return false, 0, 0, true;
      }
      number, wireType := temp / 8, temp % 8;
    }

    /** pb_make_string_substream: the substream starts here; this stream's budget shrinks but
        its position stays until the substream is closed. */
    method MakeSubstream() returns (ok: bool, substream: IStream)
      requires Valid()
      modifies this
      ensures Valid() && substream.Valid() && fresh(substream) && substream.data == data
      ensures left <= old(left) && pos + left <= old(pos + left)
      ensures ok <==> TakeDelimited(old(Rest())).Ok?
      ensures ok ==>
                && var inner := TakeDelimited(old(Rest())).v;
                && substream.Rest() == inner && substream.pos == pos && substream.left == |inner|
                && pos + |inner| + left <= |data|
                && data[pos + |inner|..pos + |inner| + left] == TakeDelimited(old(Rest())).rest
                && |inner| + left < old(left)
                && pos + |inner| + left == old(pos + left)
    {
      hide Varint32, Varint.Groups;
      ghost var s := Rest();
      var size;
      ok, size := DecodeVarint32();
      substream := new IStream.Sub(data, pos, left);
      if !ok {
        return;
      }
      if substream.left < size {
        ok := false;
        return;
      }
      ghost var r := Rest();
      substream.left := size;
      left := left - size;
      assert r[..size] == substream.Rest();
      assert r[size..] == data[pos + size..pos + size + left];
      assert TakeDelimited(s) == Ok(r[..size], r[size..]);
    }
  }

  // ---------- Scalars ----------

  /** `(intN_t) i` for a value that is already a signed integer. */
  function Truncate(i: int, modulus: nat): int
    requires modulus > 0
  {
    ToSigned(i % modulus, modulus)
  }

  /** The cast loses nothing exactly when the value is in range. */
  lemma TruncateSame(i: int, dataSize: nat)
    requires dataSize in {1, 2, 4, 8}
    ensures InRange(VarintType, dataSize, Truncate(i, Modulus(dataSize)))
    ensures Truncate(i, Modulus(dataSize)) == i <==> InRange(VarintType, dataSize, i)
  {
    TruncateModulus(i, Modulus(dataSize));
  }

  lemma TruncateModulus(i: int, m: nat)
    requires m >= 2 && m % 2 == 0
    ensures 0 <= 2 * Truncate(i, m) + m < 2 * m
    ensures Truncate(i, m) == i <==> 0 <= 2 * i + m < 2 * m
  {
    Residue(i, m);
    var r: nat := i % m;
    DivideUnique(r, m, 0, r);
  }

  lemma Residue(i: int, m: nat)
    requires m > 0
    ensures 0 <= i < m ==> i % m == i
    ensures i < 0 <= i + m ==> i % m == i + m
  {
    if 0 <= i < m {
      DivideUnique(i, m, 0, i);
    } else if i < 0 <= i + m {
      DivideUnique(i, m, -1, i + m);
    }
  }

  /** The OR of bytes shifted into place, as in pb_decode_fixed32 and pb_decode_fixed64. */
  function Assemble(s: seq<byte>, modulus: nat): nat
    requires s != [] && modulus > 0
    decreases |s|
  {
    var n := |s| - 1;
    if n == 0 then ShiftLeft(s[0], 0, modulus)
    else Or(Assemble(s[..n], modulus), ShiftLeft(s[n], 8 * n, modulus))
  }

  lemma {:induction false} LittleEndianAppend(s: seq<byte>, b: byte)
    ensures FromLittleEndian(s + [b]) == FromLittleEndian(s) + b * Pow2(8 * |s|)
    decreases |s|
  {
    hide FromLittleEndian, Pow2;
    if s == [] {
      assert [] + [b] == [b] + [];
      LittleFirst(b, []);
    } else {
      var c, rest := s[0], s[1..];
      assert s == [c] + rest && s + [b] == [c] + (rest + [b]);
      LittleFirst(c, rest);
      LittleFirst(c, rest + [b]);
      LittleEndianAppend(rest, b);
      Pow2Small();
      Pow2Add(8, 8 * |rest|);
      HigherByte(b, Pow2(8 * |rest|));
    }
  }

  lemma LittleFirst(b: byte, rest: seq<byte>)
    ensures FromLittleEndian([b] + rest) == b + 256 * FromLittleEndian(rest)
    ensures FromLittleEndian([]) == 0 && Pow2(0) == 1
  {
    assert ([b] + rest)[1..] == rest;
  }

  lemma HigherByte(b: nat, p: nat)
    ensures 256 * (b * p) == b * (256 * p)
  {
  }

  lemma {:induction false} AssembleIs(s: seq<byte>, m: nat)
    requires s != [] && 8 * |s| <= m
    ensures Assemble(s, Pow2(m)) == FromLittleEndian(s)
    decreases |s|
  {
    var n := |s| - 1;
    if n == 0 {
      assert Pow2(0) == 1;
      assert FromLittleEndian(s) == s[0] + 256 * FromLittleEndian([]) by { assert s[1..] == []; }
      Pow2Small();
      Pow2Increasing(8, m);
      DivideUnique(s[0], Pow2(m), 0, s[0]);
    } else {
      hide Pow2, Or, FromLittleEndian;
      AssembleIs(s[..n], m);
      LittleEndianBound(s[..n]);
      LittleEndianAppend(s[..n], s[n]);
      assert s[..n] + [s[n]] == s;
      LittleEndianBound(s);
      OrGroup(FromLittleEndian(s[..n]), s[n], 8 * n, m);
      SmallWord(FromLittleEndian(s), 8 * |s|, m);
    }
  }

  /** The position at which the stream's budget ends. */
  ghost function End(stream: IStream): nat
    reads stream
  {
    stream.pos + stream.left
  }

  /** pb_dec_fixed32 and pb_dec_fixed64 */
  method DecFixed(stream: IStream, f: Field, old_: Value) returns (ok: bool, v: Value)
    requires stream.Valid() && f.ltype.Scalar? && f.ltype.kind in {Fixed32Type, Fixed64Type} && SafeValue(f, old_)
    modifies stream
    ensures stream.Valid() && SafeValue(f, v)
    ensures End(stream) == old(End(stream)) && stream.left <= old(stream.left)
    ensures ok <==> DecodeScalar(f, old(stream.Rest())).Ok?
    ensures ok ==> DecodeScalar(f, old(stream.Rest())) == Ok(v, stream.Rest())
  {
    hide Assemble, FromLittleEndian, Pow2;
    v := old_;
    var bytes;
    var width := if f.ltype.kind.Fixed32Type? then 4 else 8;
    ok, bytes := stream.Read(width);
    if ok {
      Pow2Values();
      AssembleIs(bytes, 8 * width);
      LittleEndianBound(bytes);
      v := Int(Assemble(bytes, if f.ltype.kind.Fixed32Type? then U32 else U64));
    }
  }

  /** pb_dec_varint, pb_dec_uvarint, pb_dec_svarint, pb_dec_fixed32 and pb_dec_fixed64. The
      destination receives the truncated value even when that is an error. */
  method DecScalar(stream: IStream, f: Field, old_: Value) returns (ok: bool, v: Value)
    requires stream.Valid() && f.ltype.Scalar? && WidthOk(f) && SafeValue(f, old_)
    modifies stream
    ensures stream.Valid() && SafeValue(f, v)
    ensures End(stream) == old(End(stream)) && stream.left <= old(stream.left)
    ensures ok <==> DecodeScalar(f, old(stream.Rest())).Ok?
    ensures ok ==> DecodeScalar(f, old(stream.Rest())) == Ok(v, stream.Rest())
  {
    hide DecodeScalar, Varint64, SafeValue, InRange, Modulus, SignedField, Unzigzag, Clamped;
    v := old_;
    if f.ltype.kind.Fixed32Type? || f.ltype.kind.Fixed64Type? {
      ok, v := DecFixed(stream, f, old_);
      return;
    }
    ScalarRead(f, stream.Rest());
    var w;
    ok, w := stream.DecodeVarint();
    if !ok {
      return;
    }
    var value;
    match f.ltype.kind {
      case VarintType => value := SignedField(w, f.dataSize);
      case SVarintType => value := Unzigzag(w);
      case _ => value := w;
    }
    var clamped := Clamped(f, value);
    ClampedOk(f, value);
    v := Int(clamped);
    ok := clamped == value;
  }

  /** The assignment to a destination of data_size bytes. */
  function Clamped(f: Field, value: int): int
    requires f.ltype.Scalar?
  {
    if f.ltype.kind.UVarintType? then value % Modulus(f.dataSize) else Truncate(value, Modulus(f.dataSize))
  }

  lemma ClampedOk(f: Field, value: int)
    requires f.ltype.Scalar? && WidthOk(f) && f.ltype.kind in {VarintType, UVarintType, SVarintType}
    ensures SafeValue(f, Int(Clamped(f, value)))
    ensures Clamped(f, value) == value <==> InRange(f.ltype.kind, f.dataSize, value)
  {
    var m := Modulus(f.dataSize);
    if f.ltype.kind.UVarintType? {
      Residue(value, m);
    } else {
      TruncateSame(value, f.dataSize);
    }
  }

  lemma ScalarRead(f: Field, s: seq<byte>)
    requires f.ltype.Scalar? && WidthOk(f) && f.ltype.kind in {VarintType, UVarintType, SVarintType}
    ensures var w := Varint64(s);
            && (w.Fail? ==> DecodeScalar(f, s).Fail?)
            && (w.Ok? ==>
                  var i := ScalarOf(f.ltype.kind, f.dataSize, w.v);
                  DecodeScalar(f, s) == if InRange(f.ltype.kind, f.dataSize, i) then Ok(Int(i), w.rest) else Fail)
  {
    hide Varint64, InRange, ScalarOf;
  }

  /** What is left in memory where n bytes were announced but not read. */
  function Stale(b: seq<byte>, n: nat): (s: seq<byte>)
    ensures |s| == n
  {
    seq(n, i requires 0 <= i => if i < |b| then b[i] else 0)
  }

  /** pb_dec_bytes */
  method DecBytes(stream: IStream, f: Field, old_: Value) returns (ok: bool, v: Value)
    requires stream.Valid() && f.ltype.BytesType? && SafeValue(f, old_)
    modifies stream
    ensures stream.Valid() && SafeValue(f, v)
    ensures End(stream) == old(End(stream)) && stream.left <= old(stream.left)
    ensures ok <==> DecodeSpec.DecodeValue(f, old(stream.Rest()), old_).Ok?
    ensures ok ==> DecodeSpec.DecodeValue(f, old(stream.Rest()), old_) == Ok(v, stream.Rest())
  {
    v := old_;
    var size;
    ok, size := stream.DecodeVarint32();
    if !ok {
      return;
    }
    if size > PB_SIZE_MAX {
      return false, v;
    }
    if size + BYTES_HEADER > f.dataSize {
      return false, v;
    }
    v := Bytes(Stale(old_.b, size));
    var bytes;
    ok, bytes := stream.Read(size);
    if ok {
      v := Bytes(bytes);
    }
  }

  /** pb_dec_string: the terminator is written even when the read fails. */
  method DecString(stream: IStream, f: Field, old_: Value) returns (ok: bool, v: Value)
    requires stream.Valid() && f.ltype.StringType? && SafeValue(f, old_)
    modifies stream
    ensures stream.Valid() && SafeValue(f, v)
    ensures End(stream) == old(End(stream)) && stream.left <= old(stream.left)
    ensures ok <==> DecodeSpec.DecodeValue(f, old(stream.Rest()), old_).Ok?
    ensures ok ==> DecodeSpec.DecodeValue(f, old(stream.Rest()), old_) == Ok(v, stream.Rest())
  {
    v := old_;
    var size;
    ok, size := stream.DecodeVarint32();
    if !ok {
      return;
    }
    if size + 1 > f.dataSize {
      return false, v;
    }
    v := Str(if |old_.chars| <= size then old_.chars else old_.chars[..size]);
    var bytes;
    ok, bytes := stream.Read(size);
    if ok {
      v := Str(bytes);
    }
  }

  // ---------- Structs ----------

  class Struct {
    var cells: Memory

    constructor (cells: Memory)
      ensures this.cells == cells
    {
      this.cells := cells;
    }
  }

  /** The default of one item: a struct with its members at their defaults, the declared
      default value, or zeros. */
  method DefaultItem(f: Field) returns (v: Value)
    requires ValidField(f)
    ensures v == DefaultValue(f)
    decreases f, 0
  {
    if f.ltype.Submessage? {
      var dest := new Struct(map[]);
      SetToDefaults(f.ltype.sub, dest);
      v := Msg(dest.cells);
    } else if f.init.Some? {
      v := f.init.value;
    } else {
      v := Zero(f.ltype);
    }
  }

  /** pb_field_set_to_default */
  method FieldDefault(f: Field) returns (s: Slot)
    requires ValidField(f)
    ensures s == DefaultSlot(f)
    decreases f, 1
  {
    if f.atype.Callback? {
      return Hook(None);
    }
    match f.rule {
      case Repeated => return Rep([]);
      case Oneof => return Union(0, Int(0));
      case _ =>
    }
    var v := DefaultItem(f);
    s := if f.rule.Optional? then Opt(false, v) else One(v);
  }

  /** pb_message_set_to_defaults: every member gets its default, in table order. */
  method SetToDefaults(t: Table, dest: Struct)
    requires ValidTable(t)
    modifies dest
    ensures dest.cells == Defaults(t) && AtDefaults(t, dest.cells)
    decreases t, 0
  {
    DefaultsStart(t);
    hide DefaultSlot, DisjointOffsets, DistinctTags, Offset, ValidField, AtDefaults;
    var iter := TableIter(t);
    var cells: Memory := map[];
    var more := t != [];
    while more
      invariant iter.Valid() && iter.fields == t && fresh(iter)
      invariant more ==> t != [] && cells == DefaultsUpTo(t, iter.pos)
      invariant !more ==> cells == Defaults(t)
      decreases if more then |t| - iter.pos else 0
    {
      ghost var i := iter.pos;
      ValidAt(t, i);
      var s := FieldDefault(t[iter.pos]);
      cells := cells[iter.dataAt := s];
      assert cells == DefaultsUpTo(t, i + 1);
      more := iter.Next();
    }
    dest.cells := cells;
  }

  /** pb_field_iter_begin */
  method TableIter(t: Table) returns (iter: FieldIter)
    requires ValidTable(t)
    ensures fresh(iter) && iter.Valid() && iter.fields == t && iter.pos == 0
  {
    forall i | 0 <= i < |t|
      ensures t[i].tag != 0
    {
      ValidAt(t, i);
    }
    iter := new FieldIter(t);
  }

  // ---------- Fields ----------

  /** A callback's skip and the decoders of values all leave the budget's end in place or,
      after a submessage that ended early, before it: by as much as the parser lags. */
  ghost predicate Advanced<T>(stream: IStream, end: nat, before: nat, p: Parsed<T>, ok: bool)
    reads stream
  {
    && stream.Valid() && stream.left <= before && End(stream) <= end
    && (ok <==> p.Ok?)
    && (ok ==> stream.Rest() == p.rest && End(stream) + p.lag == end)
  }

  /** PB_DECODERS: `old_` is the content of the destination, `v` what it becomes. */
  method DecodeValue(stream: IStream, f: Field, old_: Value) returns (ok: bool, v: Value)
    requires stream.Valid() && ValidField(f) && CheckableField(f) && SafeValue(f, old_)
    modifies stream
    ensures SafeValue(f, v)
    ensures Advanced(stream, old(End(stream)), old(stream.left),
                     DecodeSpec.DecodeValue(f, old(stream.Rest()), old_), ok)
    ensures ok ==> v == DecodeSpec.DecodeValue(f, old(stream.Rest()), old_).v
    decreases stream.left, 1
  {
    match f.ltype {
      case Scalar(_) => ok, v := DecScalar(stream, f, old_);
      case BytesType => ok, v := DecBytes(stream, f, old_);
      case StringType => ok, v := DecString(stream, f, old_);
      case Submessage(_) => ok, v := DecSubmessage(stream, f, old_);
    }
  }

  lemma SubmessageSafe(f: Field, v: Value)
    requires f.ltype.Submessage?
    ensures SafeValue(f, v) <==> v.Msg? && Safe(f.ltype.sub, v.cells)
  {
    hide Typed, Bounded;
  }

  lemma SubmessageTable(f: Field)
    requires ValidField(f) && CheckableField(f) && f.ltype.Submessage?
    ensures ValidTable(f.ltype.sub) && CheckableTable(f.ltype.sub)
  {
    hide ValidTable, CheckableTable;
  }

  /** What the decoder of a submessage computes, in terms of the nested decode. */
  lemma SubmessageSpec(f: Field, s: seq<byte>, old_: Value)
    requires f.ltype.Submessage? && old_.Msg?
    ensures TakeDelimited(s).Fail? ==> DecodeSpec.DecodeValue(f, s, old_).Fail?
    ensures TakeDelimited(s).Ok? ==>
              var inner, after := TakeDelimited(s).v, TakeDelimited(s).rest;
              var m := if f.rule.Repeated? then Defaults(f.ltype.sub) else old_.cells;
              var d := DecodeSpec.DecodeNoInit(f.ltype.sub, inner, m);
              DecodeSpec.DecodeValue(f, s, old_)
              == if d.Ok? then Ok(Msg(d.v), AfterSubstream(inner, d.rest, d.lag, after), |d.rest| + d.lag) else Fail
  {
    hide TakeDelimited, DecodeSpec.DecodeNoInit, AfterSubstream;
  }

  lemma WithDefaults(t: Table, s: seq<byte>)
    ensures DecodeSpec.DecodeMessage(t, s) == DecodeSpec.DecodeNoInit(t, s, Defaults(t))
  {
    hide DecodeSpec.DecodeNoInit, Defaults;
  }

  /** pb_dec_submessage */
  method DecSubmessage(stream: IStream, f: Field, old_: Value) returns (ok: bool, v: Value)
    requires stream.Valid() && ValidField(f) && CheckableField(f) && SafeValue(f, old_) && f.ltype.Submessage?
    modifies stream
    ensures SafeValue(f, v)
    ensures Advanced(stream, old(End(stream)), old(stream.left),
                     DecodeSpec.DecodeValue(f, old(stream.Rest()), old_), ok)
    ensures ok ==> v == DecodeSpec.DecodeValue(f, old(stream.Rest()), old_).v
    decreases stream.left, 0
  {
    hide DecodeSpec.DecodeNoInit, DecodeSpec.DecodeValue, SafeValue, Safe, TakeDelimited, DefaultValue, Defaults;
    hide ValidField, ValidTable, CheckableField, CheckableTable, DecodeSpec.DecodeMessage, AfterSubstream,
         DecodeLoop, Typed, Bounded, Holds, Fits, RequiredBefore, AllSeen, SafeSlot;
    v := old_;
    SubmessageTable(f);
    SubmessageSafe(f, old_);
    SubmessageSpec(f, stream.Rest(), old_);
    var substream;
    ok, substream := stream.MakeSubstream();
    if !ok {
      return;
    }
    var dest := new Struct(old_.cells);
    ghost var inner, start, s := substream.Rest(), stream.pos, old(stream.Rest());
    ok := DecodeInto(substream, f, dest);
    stream.pos := substream.pos;  // pb_close_string_substream
    v := Msg(dest.cells);
    SubmessageSafe(f, v);
    if ok {
      Reopen(stream.data, start, inner, TakeDelimited(s).rest, stream.pos, substream.Rest(),
             start + |inner| - End(substream));
    }
  }

  /** New array entries are initialised; submessages outside arrays already are. */
  method DecodeInto(substream: IStream, f: Field, dest: Struct) returns (ok: bool)
    requires f.ltype.Submessage? && ValidTable(f.ltype.sub) && CheckableTable(f.ltype.sub)
    requires substream.Valid() && Safe(f.ltype.sub, dest.cells)
    modifies substream, dest
    ensures Safe(f.ltype.sub, dest.cells)
    ensures var m := if f.rule.Repeated? then Defaults(f.ltype.sub) else old(dest.cells);
            var p := DecodeSpec.DecodeNoInit(f.ltype.sub, old(substream.Rest()), m);
            && Advanced(substream, old(End(substream)), old(substream.left), p, ok)
            && (ok ==> dest.cells == p.v)
    decreases substream.left, 6
  {
    hide DecodeSpec.DecodeNoInit, DecodeSpec.DecodeMessage, Defaults, ValidTable, CheckableTable, Safe;
    if f.rule.Repeated? {
      WithDefaults(f.ltype.sub, substream.Rest());
      ok := DecodeMessage(substream, f.ltype.sub, dest);
    } else {
      ok := DecodeNoInit(substream, f.ltype.sub, dest);
    }
  }

  /** Where the parent reads on once the substream is closed: a window of the bytes it had. */
  lemma Reopen(data: seq<byte>, start: nat, inner: seq<byte>, after: seq<byte>, at: nat, unread: seq<byte>, lag: nat)
    requires start + |inner| + |after| <= |data|
    requires inner == data[start..start + |inner|]
    requires after == data[start + |inner|..start + |inner| + |after|]
    requires at + |unread| + lag == start + |inner| && start <= at
    ensures data[at..at + |after|] == AfterSubstream(inner, unread, lag, after)
  {
    var all := data[start..start + |inner| + |after|];
    assert inner + after == all;
    WindowOf(data, start, start + |inner| + |after|, at - start, |after|);
    assert AfterSubstream(inner, unread, lag, after) == all[at - start..][..|after|];
  }

  lemma WindowOf(data: seq<byte>, start: nat, end: nat, k: nat, n: nat)
    requires start <= end <= |data| && k + n <= end - start
    ensures data[start..end][k..][..n] == data[start + k..start + k + n]
  {
  }

  /** The packed case of decode_static_field. */
  method DecodePackedField(stream: IStream, f: Field, items: seq<Value>) returns (ok: bool, r: seq<Value>)
    requires stream.Valid() && f.ltype.Scalar? && WidthOk(f) && |items| <= f.arraySize
    requires forall i :: 0 <= i < |items| ==> SafeValue(f, items[i])
    modifies stream
    ensures |r| <= f.arraySize && forall i :: 0 <= i < |r| ==> SafeValue(f, r[i])
    ensures stream.Valid() && stream.left <= old(stream.left) && End(stream) <= old(End(stream))
    ensures ok <==> TakeDelimited(old(stream.Rest())).Ok?
                    && DecodePacked(f, TakeDelimited(old(stream.Rest())).v, items).Some?
    ensures ok ==>
              && r == DecodePacked(f, TakeDelimited(old(stream.Rest())).v, items).value
              && stream.Rest() == TakeDelimited(old(stream.Rest())).rest
              && End(stream) == old(End(stream))
  {
    hide DecodeScalar, DecodePacked, TakeDelimited, SafeValue, WidthOk;
    r := items;
    var substream;
    ok, substream := stream.MakeSubstream();
    if !ok {
      return;
    }
    ghost var inner, start, budget := substream.Rest(), stream.pos, stream.left;
    var status := true;
    while substream.left > 0 && |r| < f.arraySize && status
      invariant substream.Valid() && substream.data == stream.data
      invariant stream.pos == start && stream.left == budget
      invariant End(substream) == start + |inner| && substream.pos >= start
      invariant |r| <= f.arraySize && forall i :: 0 <= i < |r| ==> SafeValue(f, r[i])
      invariant status ==> DecodePacked(f, inner, items) == DecodePacked(f, substream.Rest(), r)
      invariant !status ==> DecodePacked(f, inner, items) == None
      decreases substream.left, status
    {
      var item;
      ScalarStart(f);
      PackedStep(f, substream.Rest(), r);
      status, item := DecScalar(substream, f, Int(0));
      if status {
        r := r + [item];
      }
    }
    PackedEnd(f, substream.Rest(), r);
    stream.pos := substream.pos;
    if substream.left != 0 {
      return false, r;
    }
    ok := status;
  }

  lemma PackedStep(f: Field, s: seq<byte>, r: seq<Value>)
    requires f.ltype.Scalar? && s != [] && |r| < f.arraySize
    ensures var d := DecodeScalar(f, s);
            DecodePacked(f, s, r) == if d.Ok? then DecodePacked(f, d.rest, r + [d.v]) else None
  {
    hide DecodeScalar;
  }

  lemma PackedEnd(f: Field, s: seq<byte>, r: seq<Value>)
    requires f.ltype.Scalar?
    ensures s == [] ==> DecodePacked(f, s, r) == Some(r)
    ensures s != [] && |r| >= f.arraySize ==> DecodePacked(f, s, r) == None
  {
    hide DecodeScalar;
  }

  /** A zeroed array entry. */
  lemma ScalarStart(f: Field)
    requires f.ltype.Scalar?
    ensures SafeValue(f, Int(0))
  {
  }

  lemma OldIrrelevant(f: Field, s: seq<byte>, a: Value, b: Value)
    requires f.rule.Repeated?
    ensures DecodeSpec.DecodeValue(f, s, a) == DecodeSpec.DecodeValue(f, s, b)
  {
  }

  lemma SafeParts(f: Field, s: Slot)
    requires SafeSlot(f, s) && !f.atype.Callback? && !f.rule.Oneof?
    ensures f.rule.Repeated? ==>
              s.Rep? && |s.items| <= f.arraySize && forall i :: 0 <= i < |s.items| ==> SafeValue(f, s.items[i])
    ensures !f.rule.Repeated? ==> SafeValue(f, OldValue(s))
  {
    hide Holds, Fits;
  }

  lemma SafeWhole(f: Field, v: Value, items: seq<Value>)
    requires ValidField(f) && !f.atype.Callback? && SafeValue(f, v)
    ensures f.rule.Required? ==> SafeSlot(f, One(v))
    ensures f.rule.Optional? ==> SafeSlot(f, Opt(true, v))
    ensures f.rule.Oneof? ==> SafeSlot(f, Union(f.tag, v))
  {
    hide Holds, Fits;
  }

  lemma SafeArray(f: Field, items: seq<Value>)
    requires ValidField(f) && !f.atype.Callback? && f.rule.Repeated? && |items| <= f.arraySize
    requires forall i :: 0 <= i < |items| ==> SafeValue(f, items[i])
    ensures SafeSlot(f, Rep(items))
  {
    hide Holds, Fits;
  }

  /** decode_field: decode_static_field, or decode_callback_field with a NULL callback. */
  method DecodeField(stream: IStream, wireType: nat, f: Field, at: int, dest: Struct) returns (ok: bool)
    requires stream.Valid() && ValidField(f) && CheckableField(f)
    requires at in dest.cells && SafeSlot(f, dest.cells[at])
    modifies stream, dest
    ensures at in dest.cells && dest.cells == old(dest.cells)[at := dest.cells[at]]
    ensures SafeSlot(f, dest.cells[at])
    ensures f.rule.Oneof? && !f.atype.Callback? ==> dest.cells[at].Union? && dest.cells[at].which in {f.tag}
    ensures Advanced(stream, old(End(stream)), old(stream.left),
                     DecodeSpec.DecodeField(f, wireType, old(stream.Rest()), old(dest.cells[at])), ok)
    ensures ok ==> dest.cells[at] == DecodeSpec.DecodeField(f, wireType, old(stream.Rest()), old(dest.cells[at])).v
    decreases stream.left, 2, 1
  {
    hide SafeSlot, SafeValue, DecodeSpec.DecodeValue, CheckableField, DecodeSpec.SkipField, DefaultValue,
         DecodePacked, TakeDelimited;
    ghost var s, slot := stream.Rest(), dest.cells[at];
    if f.atype.Callback? {
      ok := stream.SkipField(wireType);
      assert dest.cells == old(dest.cells)[at := dest.cells[at]];
      return;
    }
    var v;
    match f.rule {
      case Required =>
        SafeParts(f, slot);
        ok, v := DecodeValue(stream, f, OldValue(dest.cells[at]));
        SafeWhole(f, v, []);
        dest.cells := dest.cells[at := One(v)];
      case Optional =>
        SafeParts(f, slot);
        ok, v := DecodeValue(stream, f, OldValue(dest.cells[at]));
        SafeWhole(f, v, []);
        dest.cells := dest.cells[at := Opt(true, v)];
      case Repeated =>
        SafeParts(f, slot);
        ok := DecodeArray(stream, wireType, f, at, dest);
      case Oneof =>
        DefaultValueSafe(f);
        v := DefaultItem(f);
        ok, v := DecodeValue(stream, f, v);
        SafeWhole(f, v, []);
        dest.cells := dest.cells[at := Union(f.tag, v)];
    }
  }

  /** The PB_HTYPE_REPEATED case of decode_static_field. An entry that fails to decode has
      already been counted. */
  method DecodeArray(stream: IStream, wireType: nat, f: Field, at: int, dest: Struct) returns (ok: bool)
    requires stream.Valid() && ValidField(f) && CheckableField(f) && f.rule.Repeated? && f.atype.Static?
    requires at in dest.cells && SafeSlot(f, dest.cells[at])
    modifies stream, dest
    ensures at in dest.cells && dest.cells == old(dest.cells)[at := dest.cells[at]]
    ensures SafeSlot(f, dest.cells[at])
    ensures Advanced(stream, old(End(stream)), old(stream.left),
                     DecodeSpec.DecodeField(f, wireType, old(stream.Rest()), old(dest.cells[at])), ok)
    ensures ok ==> dest.cells[at] == DecodeSpec.DecodeField(f, wireType, old(stream.Rest()), old(dest.cells[at])).v
    decreases stream.left, 2, 0
  {
    hide SafeSlot, SafeValue, DecodeSpec.DecodeValue, CheckableField, DecodeSpec.SkipField, DefaultValue,
         DecodePacked, TakeDelimited;
    ghost var s, slot := stream.Rest(), dest.cells[at];
    SafeParts(f, slot);
    var items := dest.cells[at].items;
    assert dest.cells == old(dest.cells)[at := dest.cells[at]];
    if wireType == WT_STRING && Packable(f.ltype) {
      ok, items := DecodePackedField(stream, f, items);
      SafeArray(f, items);
      dest.cells := dest.cells[at := Rep(items)];
      return;
    }
    if |items| >= f.arraySize {
      return false;
    }
    DefaultValueSafe(f);
    var v := DefaultItem(f);
    OldIrrelevant(f, s, v, Int(0));
    ok, v := DecodeValue(stream, f, v);
    SafeArray(f, items + [v]);
    dest.cells := dest.cells[at := Rep(items + [v])];
  }

  // ---------- Messages ----------

  /** The number of required fields, found by walking the iterator to the end. */
  method CountRequired(iter: FieldIter) returns (count: nat)
    requires iter.Valid()
    modifies iter
    ensures iter.Valid() && count == RequiredCount(iter.fields)
  {
    count := 0;
    var lastRequired := true;  // the terminator's type is 0, PB_HTYPE_REQUIRED
    var more := true;
    while more
      invariant iter.Valid()
      invariant !more && iter.fields != [] ==>
                  count == RequiredBefore(iter.fields, |iter.fields| - 1)
                  && lastRequired == iter.fields[|iter.fields| - 1].rule.Required?
      invariant !more && iter.fields == [] ==> count == 0
      decreases if more then |iter.fields| + 1 - iter.pos else 0
    {
      count := iter.requiredIndex;
      if iter.fields != [] {
        lastRequired := iter.fields[iter.pos].rule.Required?;
      }
      more := iter.Next();
    }
    if lastRequired && iter.fields != [] {
      count := count + 1;
    }
  }

  lemma FindIs(t: Table, i: nat, tag: nat)
    requires ValidTable(t)
    ensures i < |t| && t[i].tag == tag ==> Find(t, tag) == i
    ensures Find(t, tag) < |t| ==> Matches(t[Find(t, tag)], tag)
  {
    hide DisjointOffsets, Offset;
    var k := Find(t, tag);
    if k < |t| {
      ValidAt(t, k);
    }
  }

  /** One round of the loop, as the specification unfolds. */
  lemma KnownRound(t: Table, s: seq<byte>, m: Memory, seen: set<nat>, lag: nat, i: nat, wireType: nat, r: seq<byte>)
    requires s != [] && i < |t| && DecodeSpec.DecodeTag(s) == Tag(t[i].tag, wireType, r) && Find(t, t[i].tag) == i
    ensures var d := DecodeSpec.DecodeField(t[i], wireType, r, Get(m, Offset(t, i)));
            && (d.Fail? ==> DecodeLoop(t, s, m, seen, lag) == Broken)
            && (d.Ok? ==>
                  DecodeLoop(t, s, m, seen, lag)
                  == DecodeLoop(t, d.rest, m[Offset(t, i) := d.v], Mark(t, i, seen), lag + d.lag))
  {
    hide DecodeSpec.DecodeField, DecodeSpec.SkipField, DecodeSpec.DecodeTag;
  }

  lemma UnknownRound(t: Table, s: seq<byte>, m: Memory, seen: set<nat>, lag: nat, number: nat, wireType: nat,
                     r: seq<byte>)
    requires s != [] && DecodeSpec.DecodeTag(s) == Tag(number, wireType, r) && Find(t, number) == |t|
    ensures t == [] && number == 0 ==> DecodeLoop(t, s, m, seen, lag) == Broken
    ensures DecodeSpec.SkipField(wireType, r).Fail? ==> DecodeLoop(t, s, m, seen, lag) == Broken
    ensures (t != [] || number != 0) && DecodeSpec.SkipField(wireType, r).Ok? ==>
              DecodeLoop(t, s, m, seen, lag)
              == DecodeLoop(t, DecodeSpec.SkipField(wireType, r).rest, m, seen, lag)
  {
    hide DecodeSpec.DecodeField, DecodeSpec.SkipField, DecodeSpec.DecodeTag;
  }

  lemma LastRound(t: Table, s: seq<byte>, m: Memory, seen: set<nat>, lag: nat)
    ensures s == [] ==> DecodeLoop(t, s, m, seen, lag) == Loop(m, [], seen, lag)
    ensures s != [] && DecodeSpec.DecodeTag(s).Eof? ==>
              DecodeLoop(t, s, m, seen, lag) == Loop(m, DecodeSpec.DecodeTag(s).rest, seen, lag)
    ensures s != [] && DecodeSpec.DecodeTag(s).BadTag? ==> DecodeLoop(t, s, m, seen, lag) == Broken
  {
    hide DecodeSpec.DecodeField, DecodeSpec.SkipField, DecodeSpec.DecodeTag;
  }

  lemma CheckableAt(t: Table, i: nat)
    requires CheckableTable(t) && i < |t|
    ensures CheckableField(t[i])
  {
    hide CheckableField;
  }

  lemma MarkIs(t: Table, i: nat, seen: set<nat>)
    requires i < |t| && RequiredCount(t) < 64 && forall r :: r in seen ==> r < RequiredCount(t)
    ensures t[i].rule.Required? ==> RequiredBefore(t, i) < 64 && Mark(t, i, seen) == seen + {RequiredBefore(t, i)}
    ensures !t[i].rule.Required? ==> Mark(t, i, seen) == seen
    ensures forall r :: r in Mark(t, i, seen) ==> r < RequiredCount(t)
  {
    RequiredSteps(t, i, |t|);
  }

  lemma EndOfMessage(t: Table, s: seq<byte>, m: Memory, loop: Loop)
    requires loop == DecodeLoop(t, s, m, {})
    ensures DecodeSpec.DecodeNoInit(t, s, m)
         == if loop.Loop? && AllSeen(t, loop.seen) then Ok(loop.m, loop.rest, loop.lag) else Fail
  {
    hide DecodeLoop;
  }

  /** The state of the loop between two rounds. */
  ghost predicate LoopState(t: Table, stream: IStream, iter: FieldIter, fieldsSeen: FieldsSeen, dest: Struct)
    reads stream, iter, fieldsSeen, fieldsSeen.words, dest
  {
    && stream.Valid() && iter.Valid() && iter.fields == t && fieldsSeen.Valid() && Safe(t, dest.cells)
    && forall r :: r in fieldsSeen.seen ==> r < RequiredCount(t)
  }

  /** The part of a round for a field of the table, found at the iterator. */
  method DecodeFound(stream: IStream, t: Table, wireType: nat, iter: FieldIter, fieldsSeen: FieldsSeen, dest: Struct)
    returns (ok: bool)
    requires ValidTable(t) && CheckableTable(t) && LoopState(t, stream, iter, fieldsSeen, dest) && t != []
    modifies stream, fieldsSeen, fieldsSeen.words, dest
    ensures LoopState(t, stream, iter, fieldsSeen, dest) && fieldsSeen.words == old(fieldsSeen.words)
    ensures fieldsSeen.seen == Mark(t, iter.pos, old(fieldsSeen.seen))
    ensures Advanced(stream, old(End(stream)), old(stream.left),
                     DecodeSpec.DecodeField(t[iter.pos], wireType, old(stream.Rest()),
                                            Get(old(dest.cells), Offset(t, iter.pos))), ok)
    ensures ok ==>
              dest.cells == old(dest.cells)[Offset(t, iter.pos) :=
                DecodeSpec.DecodeField(t[iter.pos], wireType, old(stream.Rest()),
                                       Get(old(dest.cells), Offset(t, iter.pos))).v]
    decreases stream.left, 2, 2
  {
    hide ValidTable, CheckableField, Safe, SafeSlot, DecodeSpec.DecodeField, Mark, Offset, ValidField;
    ghost var i, m := iter.pos, dest.cells;
    MarkIs(t, i, fieldsSeen.seen);
    if iter.fields[iter.pos].rule.Required? && iter.requiredIndex < PB_MAX_REQUIRED_FIELDS {
      fieldsSeen.Mark(iter.requiredIndex);
    }
    ValidAt(t, i);
    CheckableAt(t, i);
    SafeAt(t, m, i);
    NoUnionCallback(t[i]);
    ok := DecodeField(stream, wireType, t[iter.pos], iter.dataAt, dest);
    SafeUpdate(t, m, i, dest.cells[iter.dataAt]);
  }

  lemma NoUnionCallback(f: Field)
    requires ValidField(f)
    ensures f.rule.Oneof? ==> !f.atype.Callback?
  {
  }

  /** The part of a round for a tag that is not in the table. */
  method SkipUnknown(stream: IStream, t: Table, tag: nat, wireType: nat, iter: FieldIter, extensionRangeStart: nat)
    returns (ok: bool, rangeStart: nat)
    requires ValidTable(t) && stream.Valid() && iter.Valid() && iter.fields == t
    modifies stream, iter
    ensures stream.Valid() && iter.Valid() && End(stream) == old(End(stream)) && stream.left <= old(stream.left)
    ensures ok <==> DecodeSpec.SkipField(wireType, old(stream.Rest())).Ok?
    ensures ok ==> DecodeSpec.SkipField(wireType, old(stream.Rest())) == Ok((), stream.Rest())
  {
    rangeStart := extensionRangeStart;
    if tag >= extensionRangeStart {
      NoExtensions(t);
      var hasExtension := iter.FindExtension();
      rangeStart := 0xFFFF_FFFF;
    }
    ok := stream.SkipField(wireType);
  }

  /** One round of the loop of pb_decode_noinit. */
  method DecodeRound(stream: IStream, t: Table, iter: FieldIter, fieldsSeen: FieldsSeen, dest: Struct,
                     extensionRangeStart: nat, ghost lag: nat)
    returns (ok: bool, eof: bool, rangeStart: nat)
    requires ValidTable(t) && CheckableTable(t) && LoopState(t, stream, iter, fieldsSeen, dest) && stream.left > 0
    modifies stream, iter, fieldsSeen, fieldsSeen.words, dest
    ensures LoopState(t, stream, iter, fieldsSeen, dest) && fieldsSeen.words == old(fieldsSeen.words)
    ensures stream.left <= old(stream.left) && End(stream) <= old(End(stream))
    ensures LoopAfter(t, old(stream.Rest()), old(dest.cells), old(fieldsSeen.seen), lag,
                      stream, dest, fieldsSeen, old(End(stream)), ok, eof)
    ensures ok && !eof ==> stream.left < old(stream.left)
    decreases stream.left, 3, 0
  {
    hide ValidTable, CheckableTable, Safe, SafeSlot, DecodeLoop, DecodeSpec.DecodeField,
         DecodeSpec.SkipField, DecodeSpec.DecodeTag, Mark, Offset, ValidField, Find,
         Typed, Bounded, RequiredBefore, Word, Varint64;
    ghost var s, m, seen := stream.Rest(), dest.cells, fieldsSeen.seen;
    rangeStart := extensionRangeStart;
    var wireType, tag;
    ok, wireType, tag, eof := stream.DecodeTag();
    ghost var r := stream.Rest();
    if !ok {
      LastRound(t, s, m, seen, lag);
      ok := eof;
      return;
    }
    eof := false;
    var found;
    ghost var steps;
    found, steps := iter.Find(tag);
    NotFound(t, tag);
    if !found {
      ok, rangeStart := SkipUnknown(stream, t, tag, wireType, iter, extensionRangeStart);
      UnknownRound(t, s, m, seen, lag, tag, wireType, r);
    } else if t == [] {
      // the terminator, taken for a required varint of data_size 0: no value fits
      UnknownRound(t, s, m, seen, lag, tag, wireType, r);
      var w;
      ok, w := stream.DecodeVarint();
      return false, false, rangeStart;
    } else {
      FindIs(t, iter.pos, tag);
      ok := DecodeFound(stream, t, wireType, iter, fieldsSeen, dest);
      KnownRound(t, s, m, seen, lag, iter.pos, wireType, r);
    }
  }

  /** How one round relates the loop that was left to do before it to the one after. */
  ghost predicate LoopAfter(t: Table, s: seq<byte>, m: Memory, seen: set<nat>, lag: nat,
                            stream: IStream, dest: Struct, fieldsSeen: FieldsSeen, end: nat, ok: bool, eof: bool)
    reads stream, dest, fieldsSeen
  {
    && stream.Valid() && End(stream) <= end
    && var lag' := lag + (end - End(stream));
       DecodeLoop(t, s, m, seen, lag)
       == if !ok then Broken
          else if eof then Loop(dest.cells, stream.Rest(), fieldsSeen.seen, lag')
          else DecodeLoop(t, stream.Rest(), dest.cells, fieldsSeen.seen, lag')
  }

  /** The loop of pb_decode_noinit. */
  method DecodeFields(stream: IStream, t: Table, iter: FieldIter, fieldsSeen: FieldsSeen, dest: Struct)
    returns (ok: bool)
    requires ValidTable(t) && CheckableTable(t) && LoopState(t, stream, iter, fieldsSeen, dest)
    requires fieldsSeen.seen == {}
    modifies stream, iter, fieldsSeen, fieldsSeen.words, dest
    ensures LoopState(t, stream, iter, fieldsSeen, dest)
    ensures stream.left <= old(stream.left) && End(stream) <= old(End(stream))
    ensures DecodeLoop(t, old(stream.Rest()), old(dest.cells), {})
         == if ok then Loop(dest.cells, stream.Rest(), fieldsSeen.seen, old(End(stream)) - End(stream)) else Broken
    decreases stream.left, 3, 1
  {
    hide ValidTable, CheckableTable, Safe, DecodeLoop, Offset, Word, DecodeSpec.DecodeTag, DecodeSpec.DecodeField;
    ghost var end, words := End(stream), fieldsSeen.words;
    ghost var all := DecodeLoop(t, stream.Rest(), dest.cells, {});
    var extensionRangeStart := 0;
    var eof := false;
    while stream.left > 0 && !eof
      invariant LoopState(t, stream, iter, fieldsSeen, dest) && fieldsSeen.words == words
      invariant stream.left <= old(stream.left) && End(stream) <= end
      invariant !eof ==> all == DecodeLoop(t, stream.Rest(), dest.cells, fieldsSeen.seen, end - End(stream))
      invariant eof ==> all == Loop(dest.cells, stream.Rest(), fieldsSeen.seen, end - End(stream))
      decreases stream.left, !eof
    {
      ghost var end1 := End(stream);
      ok, eof, extensionRangeStart :=
        DecodeRound(stream, t, iter, fieldsSeen, dest, extensionRangeStart, end - end1);
      if !ok {
        return;
      }
    }
    LastRound(t, stream.Rest(), dest.cells, fieldsSeen.seen, end - End(stream));
    return true;
  }

  lemma CheckableCount(t: Table)
    requires CheckableTable(t)
    ensures RequiredCount(t) == 0 || (RequiredCount(t) < 64 && RequiredCount(t) % 32 != 0)
  {
    hide CheckableField;
  }

  /** pb_decode_noinit */
  method DecodeNoInit(stream: IStream, t: Table, dest: Struct) returns (ok: bool)
    requires stream.Valid() && ValidTable(t) && CheckableTable(t) && Safe(t, dest.cells)
    modifies stream, dest
    ensures Safe(t, dest.cells)
    ensures Advanced(stream, old(End(stream)), old(stream.left),
                     DecodeSpec.DecodeNoInit(t, old(stream.Rest()), old(dest.cells)), ok)
    ensures ok ==> dest.cells == DecodeSpec.DecodeNoInit(t, old(stream.Rest()), old(dest.cells)).v
    decreases stream.left, 4
  {
    hide ValidTable, CheckableTable, Safe, DecodeLoop, DecodeSpec.DecodeNoInit, Offset, Word;
    EndOfMessage(t, stream.Rest(), dest.cells, DecodeLoop(t, stream.Rest(), dest.cells, {}));
    var fieldsSeen := new FieldsSeen();
    var iter := TableIter(t);
    ok := DecodeFields(stream, t, iter, fieldsSeen, dest);
    if !ok {
      return;
    }
    CheckableCount(t);
    var count := CountRequired(iter);
    ok := fieldsSeen.AllOf(count);
  }

  lemma NotFound(t: Table, tag: nat)
    requires ValidTable(t)
    ensures t != [] && !(exists i :: 0 <= i < |t| && Matches(t[i], tag)) ==> Find(t, tag) == |t|
    ensures t == [] ==> Find(t, tag) == |t|
  {
    hide DisjointOffsets, Offset;
    var k := Find(t, tag);
    if k < |t| {
      ValidAt(t, k);
      assert Matches(t[k], tag);
    }
  }

  lemma NoExtensions(t: Table)
    requires ValidTable(t)
    ensures forall i :: 0 <= i < |t| ==> !t[i].ltype.Extension?
  {
    forall i | 0 <= i < |t|
      ensures !t[i].ltype.Extension?
    {
      ValidAt(t, i);
    }
  }

  /** pb_decode */
  method DecodeMessage(stream: IStream, t: Table, dest: Struct) returns (ok: bool)
    requires stream.Valid() && ValidTable(t) && CheckableTable(t)
    modifies stream, dest
    ensures Safe(t, dest.cells)
    ensures Advanced(stream, old(End(stream)), old(stream.left), DecodeSpec.DecodeMessage(t, old(stream.Rest())), ok)
    ensures ok ==> dest.cells == DecodeSpec.DecodeMessage(t, old(stream.Rest())).v
    decreases stream.left, 5
  {
    hide DecodeSpec.DecodeNoInit, Defaults, ValidTable, CheckableTable, Safe;
    SetToDefaults(t, dest);
    DefaultsSafe(t);
    ok := DecodeNoInit(stream, t, dest);
  }
}
