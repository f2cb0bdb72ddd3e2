/**
 The wire format in numbers: what each kind of field puts on the wire, and which words and
 lengths are accepted, without the names that the coders share.
 */
module WireFormat {
  import opened Bits
  import opened Schema
  import opened Wrappers
  import opened EncodeSpec
  import opened DecodeSpec
  import opened ScalarCodec
  import opened Merge
  import RoundTrip
  import Varint

  // ---------- Varints ----------

  /** Byte i of a varint holds bits 7 i to 7 i + 6 of the value, and the continuation bit if it
      is not the last one. */
  lemma {:induction false} VarintBytes(v: nat, i: nat)
    requires i < |Varint.Encode(v)|
    ensures Varint.Encode(v)[i] == (v / Pow2(7 * i)) % 128 + (if i + 1 < |Varint.Encode(v)| then 128 else 0)
    decreases i
  {
    hide Pow2;
    if i == 0 {
      GroupPower(v, 0);
      DivideUnique(v, 128, v / 128, v % 128);
      if v < 128 {
        DivideUnique(v, 128, 0, v);
      }
    } else {
      VarintBytes(v / 128, i - 1);
      GroupPower(v, i - 1);
    }
  }

  lemma GroupPower(v: nat, i: nat)
    ensures Pow2(0) == 1 && v / Pow2(0) == v
    ensures (v / 128) / Pow2(7 * i) == v / Pow2(7 * (i + 1))
  {
    Pow2Small();
    assert Pow2(0) == 1;
    hide Pow2;
    Pow2Add(7, 7 * i);
    assert 7 + 7 * i == 7 * (i + 1);
    DivideTwice(v, 128, Pow2(7 * i));
  }

  lemma DivideTwice(v: nat, a: nat, b: nat)
    requires a > 0 && b > 0
    ensures a * b > 0 && (v / a) / b == v / (a * b)
  {
    var q, r := v / a, v % a;
    var k, l := q / b, q % b;
    assert v == a * q + r;
    assert q == b * k + l;
    Nested(v, a, b, q, r, k, l);
  }

  lemma Nested(v: nat, a: nat, b: nat, q: nat, r: nat, k: nat, l: nat)
    requires v == a * q + r && r < a && q == b * k + l && l < b
    ensures a * b > 0 && v / (a * b) == k
  {
    Distributed(a, b, k, l);
    ProductGap(a, l, b);
    var n, rest := a * b, a * l + r;
    assert v == n * k + rest;
    DivideUnique(v, n, k, rest);
  }

  lemma Distributed(a: nat, b: nat, k: nat, l: nat)
    ensures a * (b * k + l) == (a * b) * k + a * l
  {
    assert a * (b * k) == (a * b) * k;
  }

  /** The 64-bit decoder takes at most ten bytes and the 32-bit one at most five, the last of
      them without the continuation bit; the value is cut to the word. */
  lemma VarintsAccepted(s: seq<byte>)
    ensures Varint64(s).Ok? <==> !AllContinue(s, 10)
    ensures Varint32(s).Ok? <==> !AllContinue(s, 5)
    ensures SkipVarint(s).Ok? <==> !AllContinue(s, |s|)
  {
    OnlyContinuations(s, 10);
    OnlyContinuations(s, 5);
    OnlyContinuations(s, |s| + 1);
  }

  // ---------- Records ----------

  function WireTypeNumber(l: LType): (w: nat)
    ensures w < 8
  {
    match l
    case Scalar(Fixed32Type) => 5
    case Scalar(Fixed64Type) => 1
    case Scalar(_) => 0
    case _ => 2
  }

  /** A key is the varint of tag * 8 + 0, 1, 2 or 5. */
  lemma KeyNumbers(f: Field)
    ensures FieldKey(f) == Varint.Encode(8 * f.tag + WireTypeNumber(f.ltype))
    ensures Key(f.tag, WT_STRING) == Varint.Encode(8 * f.tag + 2)
  {
    hide Varint.Encode;
  }

  /** Scalars: the two's complement word of 64 bits as a varint, the value as a varint, the
      zigzag value as a varint, and four or eight bytes, least significant first. */
  lemma ScalarNumbers(f: Field, i: int)
    requires f.ltype.Scalar? && WidthOk(f) && Holds(f, Int(i))
    ensures var bytes := ValueBytes(f, Int(i));
            match f.ltype.kind
            case VarintType => bytes == Some(Varint.Encode(if i < 0 then i + 0x1_0000_0000_0000_0000 else i))
            case UVarintType => bytes == Some(Varint.Encode(i))
            case SVarintType => bytes == Some(Varint.Encode(if i < 0 then -2 * i - 1 else 2 * i))
            case Fixed32Type => bytes == Some([i % 256, (i / 0x100) % 256, (i / 0x1_0000) % 256, i / 0x100_0000])
            case Fixed64Type => bytes.Some? && |bytes.value| == 8
                                && forall k :: 0 <= k < 8 ==> bytes.value[k] == (i / Pow2(8 * k)) % 256
  {
    hide Varint.Encode, Pow2;
    match f.ltype.kind {
      case VarintType =>
        if i < 0 {
          DivideUnique(i, U64, -1, i + U64);
        } else {
          DivideUnique(i, U64, 0, i);
        }
      case UVarintType =>
      case SVarintType =>
      case Fixed32Type => FourBytes(i);
      case Fixed64Type =>
        forall k | 0 <= k < 8
          ensures LittleEndian(i, 8)[k] == (i / Pow2(8 * k)) % 256
        {
          LittleEndianAt(i, 8, k);
        }
    }
  }

  lemma FourBytes(i: nat)
    requires i < U32
    ensures LittleEndian(i, 4) == [i % 256, (i / 0x100) % 256, (i / 0x1_0000) % 256, i / 0x100_0000]
  {
    assert (i / 0x100_0000) % 256 == i / 0x100_0000;
    Pow2Values();
    Pow2Zero();
    hide Pow2;
    forall k | 0 <= k < 4
      ensures LittleEndian(i, 4)[k] == (i / Pow2(8 * k)) % 256
    {
      LittleEndianAt(i, 4, k);
    }
  }

  lemma Pow2Zero()
    ensures Pow2(0) == 1
  {
  }

  lemma {:induction false} LittleEndianAt(v: nat, n: nat, k: nat)
    requires k < n
    ensures LittleEndian(v, n)[k] == (v / Pow2(8 * k)) % 256
    decreases n
  {
    Pow2Zero();
    Pow2Small();
    hide Pow2;
    if k > 0 {
      LittleEndianAt(v / 256, n - 1, k - 1);
      Pow2Add(8, 8 * (k - 1));
      DivideTwice(v, 256, Pow2(8 * (k - 1)));
    }
  }

  /** Bytes, strings and submessages: the number of bytes as a varint, and the bytes. */
  lemma LengthNumbers(b: seq<byte>)
    requires |b| < 0x1_0000_0000_0000_0000
    ensures Delimited(b) == Varint.Encode(|b|) + b
  {
    DivideUnique(|b|, U64, 0, |b|);
  }

  /** The payload of a bytes field that fits data_size with its one-byte size member, of the
      characters before the first NUL, and of a submessage that can be encoded. */
  lemma PayloadNumbers(f: Field, v: Value, b: seq<byte>)
    requires Holds(f, v) && |b| < 0x1_0000_0000_0000_0000
    requires match f.ltype
             case BytesType => b == v.b
             case StringType => b <= v.chars && 0 !in b && (b == v.chars || v.chars[|b|] == 0)
             case Submessage(t) => MessageBytes(t, v.cells) == Some(b)
             case _ => false
    ensures ValueBytes(f, v) == if f.ltype.BytesType? && |b| + 1 > f.dataSize then None
                                else Some(Varint.Encode(|b|) + b)
  {
    hide Varint.Encode, MessageBytes, Delimited;
    LengthNumbers(b);
    if f.ltype.StringType? {
      var c := CString(v.chars);
      assert |c| == |b|;
      assert c == v.chars[..|c|] == v.chars[..|b|] == b;
    }
  }

  /** What a field with one value writes: key and payload if it is present, nothing if not. */
  lemma SingleNumbers(f: Field, s: Slot)
    requires f.atype.Static? && !f.rule.Repeated? && SlotTyped(f, s)
    ensures var present := s.One? || (s.Opt? && s.has) || (s.Union? && s.which == f.tag);
            FieldBytes(f, s)
            == if !present then Some([])
               else if ValueBytes(f, s.v).None? then None
               else Some(Varint.Encode(8 * f.tag + WireTypeNumber(f.ltype)) + ValueBytes(f, s.v).value)
  {
    hide Varint.Encode, ValueBytes, Holds;
    KeyNumbers(f);
    hide FieldKey;
  }

  /** What an array writes: with scalar items one length-delimited record of all the payloads in
      order, otherwise one record an item. */
  lemma ArrayNumbers(f: Field, items: seq<Value>, payloads: seq<seq<byte>>)
    requires f.atype.Static? && f.rule.Repeated? && SlotTyped(f, Rep(items)) && 0 < |items| <= f.arraySize
    requires |payloads| == |items| && forall i :: 0 <= i < |items| ==> ValueBytes(f, items[i]) == Some(payloads[i])
    requires |Concatenated([], payloads)| < 0x1_0000_0000_0000_0000
    ensures var key := Varint.Encode(8 * f.tag + 2);
            var all := Concatenated([], payloads);
            FieldBytes(f, Rep(items))
            == Some(if f.ltype.Scalar? then key + (Varint.Encode(|all|) + all) else Concatenated(key, payloads))
  {
    hide Varint.Encode, ValueBytes, Holds, Key, Delimited, ItemBytes, Concatenated;
    KeyNumbers(f);
    if f.ltype.Scalar? {
      ItemsAre(f, items, payloads, false);
      LengthNumbers(Concatenated([], payloads));
    } else {
      ItemsAre(f, items, payloads, true);
    }
  }

  /** An empty array writes nothing, and one with more than array_size entries is an error. */
  lemma ArrayLimits(f: Field, items: seq<Value>)
    requires f.atype.Static? && f.rule.Repeated? && SlotTyped(f, Rep(items))
    ensures |items| == 0 ==> FieldBytes(f, Rep(items)) == Some([])
    ensures |items| > f.arraySize ==> FieldBytes(f, Rep(items)) == None
  {
  }

  /** A NULL callback writes nothing, and one that encodes a submessage its key and payload. */
  lemma CallbackNumbers(f: Field, m: Memory, b: seq<byte>)
    requires f.atype.Callback? && f.ltype.Submessage? && Typed(f.ltype.sub, m)
    requires MessageBytes(f.ltype.sub, m) == Some(b) && |b| < 0x1_0000_0000_0000_0000
    ensures FieldBytes(f, Hook(None)) == Some([])
    ensures FieldBytes(f, Hook(Some(m))) == Some(Varint.Encode(8 * f.tag + 2) + (Varint.Encode(|b|) + b))
  {
    hide Varint.Encode, MessageBytes, Delimited, Key, Typed;
    KeyNumbers(f);
    LengthNumbers(b);
  }

  /** A message is what its fields write, in the order of the table; one field that cannot be
      encoded makes it an error. */
  lemma MessageNumbers(t: Table, m: Memory, pieces: seq<seq<byte>>)
    requires Typed(t, m) && |pieces| == |t|
    ensures (forall i :: 0 <= i < |t| ==> FieldBytes(t[i], m[Offset(t, i)]) == Some(pieces[i])) ==>
              MessageBytes(t, m) == Some(Concatenated([], pieces))
    ensures (exists i :: 0 <= i < |t| && FieldBytes(t[i], m[Offset(t, i)]).None?) <==> MessageBytes(t, m).None?
  {
    FieldsInOrder(t, 0, m, pieces);
    assert pieces[0..] == pieces;
  }

  lemma {:induction false} FieldsInOrder(t: Table, i: nat, m: Memory, pieces: seq<seq<byte>>)
    requires Typed(t, m) && |pieces| == |t| && i <= |t|
    ensures (forall j :: i <= j < |t| ==> FieldBytes(t[j], m[Offset(t, j)]) == Some(pieces[j])) ==>
              FieldsFrom(t, i, m) == Some(Concatenated([], pieces[i..]))
    ensures (exists j :: i <= j < |t| && FieldBytes(t[j], m[Offset(t, j)]).None?) <==> FieldsFrom(t, i, m).None?
    decreases |t| - i
  {
    hide FieldBytes, Typed, Offset, SlotTyped;
    if i < |t| {
      RoundTrip.TypedAt(t, i, m);
      FieldsInOrder(t, i + 1, m, pieces);
      RoundTrip.FieldsFromUnfold(t, i, m);
      assert pieces[i..][1..] == pieces[i + 1..] && [] + pieces[i] == pieces[i];
    }
  }

  /** The payloads in order, each behind the prefix. */
  function Concatenated(prefix: seq<byte>, payloads: seq<seq<byte>>): seq<byte> {
    if payloads == [] then [] else prefix + payloads[0] + Concatenated(prefix, payloads[1..])
  }

  lemma {:induction false} ItemsAre(f: Field, items: seq<Value>, payloads: seq<seq<byte>>, keyed: bool)
    requires forall i :: 0 <= i < |items| ==> Holds(f, items[i])
    requires |payloads| == |items| && forall i :: 0 <= i < |items| ==> ValueBytes(f, items[i]) == Some(payloads[i])
    ensures ItemBytes(f, items, keyed) == Some(Concatenated(if keyed then FieldKey(f) else [], payloads))
    decreases |items|
  {
    hide ValueBytes, Holds, FieldKey;
    if items != [] {
      ItemsAre(f, items[1..], payloads[1..], keyed);
    }
  }

  // ---------- What the decoder accepts ----------

  /** A bytes field takes at most 255 bytes, and with its one-byte size at most data_size; a
      string leaves room for its terminator. */
  lemma LengthsAccepted(f: Field, b: seq<byte>, x: seq<byte>, old_: Value)
    requires |b| < 0x1_0000_0000
    ensures f.ltype.BytesType? ==>
              DecodeValue(f, Delimited(b) + x, old_)
              == if |b| <= 255 && |b| + 1 <= f.dataSize then Ok(Bytes(b), x) else Fail
    ensures f.ltype.StringType? ==>
              DecodeValue(f, Delimited(b) + x, old_) == if |b| + 1 <= f.dataSize then Ok(Str(b), x) else Fail
  {
    hide Delimited, Varint32, Take;
    LengthOk(b, x);
  }

  /** The values of each kind and width. */
  lemma Ranges(i: int)
    ensures InRange(VarintType, 1, i) == InRange(SVarintType, 1, i) == (-0x80 <= i < 0x80)
    ensures InRange(VarintType, 2, i) == InRange(SVarintType, 2, i) == (-0x8000 <= i < 0x8000)
    ensures InRange(VarintType, 4, i) == InRange(SVarintType, 4, i) == (-0x8000_0000 <= i < 0x8000_0000)
    ensures InRange(VarintType, 8, i) == InRange(SVarintType, 8, i)
         == (-0x8000_0000_0000_0000 <= i < 0x8000_0000_0000_0000)
    ensures InRange(UVarintType, 1, i) <==> 0 <= i < 0x100
    ensures InRange(UVarintType, 2, i) <==> 0 <= i < 0x1_0000
    ensures InRange(UVarintType, 4, i) <==> 0 <= i < 0x1_0000_0000
    ensures InRange(UVarintType, 8, i) <==> 0 <= i < 0x1_0000_0000_0000_0000
  {
  }

  /** A varint field accepts exactly the words whose value, read as the field's type reads it,
      is one that a member of its width can hold, and stores that value. */
  lemma WordsAccepted(f: Field, w: nat, x: seq<byte>)
    requires f.ltype.Scalar? && f.ltype.kind in {VarintType, UVarintType, SVarintType}
    requires f.dataSize in {1, 2, 4, 8} && w < 0x1_0000_0000_0000_0000
    ensures var low := w % 0x1_0000_0000;
            var value := if f.ltype.kind == UVarintType then w
                         else if f.ltype.kind == SVarintType then (if w % 2 == 0 then w / 2 else -(w / 2) - 1)
                         else if f.dataSize == 8 then
                           (if w < 0x8000_0000_0000_0000 then w else w - 0x1_0000_0000_0000_0000)
                         else if low < 0x8000_0000 then low else low - 0x1_0000_0000;
            var half := if f.dataSize == 1 then 0x80 else if f.dataSize == 2 then 0x8000
                        else if f.dataSize == 4 then 0x8000_0000 else 0x8000_0000_0000_0000;
            var fits := if f.ltype.kind == UVarintType then value < 2 * half else -half <= value < half;
            DecodeScalar(f, Varint.Encode(w) + x) == if fits then Ok(Int(value), x) else Fail
  {
    hide Varint.Encode, DecodeScalar;
    WordRead(f, w, x);
    DivideUnique(w, U64, 0, w);
  }
}
