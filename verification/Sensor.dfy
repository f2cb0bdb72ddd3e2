/**
 The tables of sensor.pb.c, as instances of the codec.
 */
module Sensor {
  import opened Bits
  import opened Schema
  import opened Wrappers
  import opened EncodeSpec
  import opened Iterator
  import opened RoundTrip
  import opened Canonical
  import DecodeSpec
  import Merge
  import Varint

  /** Row i of SensorReading_fields: tag i + 1, optional; two uint32, five sint32, five
      sint64, each preceded by its has_ variable. */
  function ReadingField(i: nat): Field {
    if i < 7 then
      Field(i + 1, Static, Optional, Scalar(if i < 2 then UVarintType else SVarintType), 4, -4, 4, 0, None)
    else
      Field(i + 1, Static, Optional, Scalar(SVarintType), 8, -8, 8, 0, None)
  }

  const FIELDS := 12

  /** SensorReading_fields */
  function Reading(): (t: Table)
    ensures |t| == FIELDS && forall i :: 0 <= i < FIELDS ==> t[i] == ReadingField(i)
  {
    seq(FIELDS, i requires 0 <= i < FIELDS => ReadingField(i))
  }

  /** Where the members of struct _SensorReading are, the 64-bit ones on 8-byte boundaries. */
  function MemberAt(i: nat): Member {
    if i < 7 then Member(4 + 8 * i, 4) else Member(64 + 16 * (i - 7), 8)
  }

  function Layout(): (ms: seq<Member>)
    ensures |ms| == FIELDS && forall i :: 0 <= i < FIELDS ==> ms[i] == MemberAt(i)
  {
    seq(FIELDS, i requires 0 <= i < FIELDS => MemberAt(i))
  }

  /** The table describes that struct: the iterator finds every member, and its has_ variable. */
  lemma ReadingLayout()
    ensures GeneratedFrom(Reading(), Layout())
    ensures forall i :: 0 <= i < FIELDS ==> Offset(Reading(), i) == MemberAt(i).offset
    ensures forall i :: 0 <= i < FIELDS ==>
              && Offset(Reading(), i) == (if i < 7 then 8 * i + 4 else 16 * i - 48)
              && Offset(Reading(), i) + Reading()[i].sizeOffset == (if i < 7 then 8 * i else 16 * i - 56)
  {
    hide Reading, Layout;
    var t, ms := Reading(), Layout();
    assert GeneratedFrom(t, ms);
    forall i | 0 <= i < FIELDS
      ensures Offset(t, i) == MemberAt(i).offset
    {
      hide Offset, GeneratedFrom;
      OffsetIsOffsetof(t, ms, i);
    }
  }

  lemma ReadingFieldValid(i: nat)
    requires i < FIELDS
    ensures ValidField(ReadingField(i)) && StaticField(ReadingField(i)) && DecodeSpec.CheckableField(ReadingField(i))
  {
  }

  lemma ReadingDisjoint()
    ensures DisjointOffsets(Reading()) && DistinctTags(Reading())
  {
    ReadingLayout();
    hide Reading, Offset, GeneratedFrom;
  }

  lemma ReadingUsable()
    ensures Usable(Reading())
  {
    ReadingDisjoint();
    hide Reading, Offset, ValidField, StaticField, DecodeSpec.CheckableField, DisjointOffsets, DistinctTags;
    var t := Reading();
    forall i | 0 <= i < FIELDS
      ensures ValidField(t[i]) && StaticField(t[i]) && DecodeSpec.CheckableField(t[i]) && !t[i].rule.Required?
    {
      ReadingFieldValid(i);
    }
    NoneRequired(t, |t|);
  }

  lemma {:induction false} NoneRequired(t: Table, n: nat)
    requires n <= |t| && forall i :: 0 <= i < |t| ==> !t[i].rule.Required?
    ensures RequiredBefore(t, n) == 0
    decreases n
  {
    if n > 0 {
      NoneRequired(t, n - 1);
    }
  }

  // ---------- SensorReading_size ----------

  /** The value with the longest encoding in field i, and how long its record then is. */
  function WidestValue(i: nat): int {
    if i < 2 then 0xFFFF_FFFF else if i < 7 then -0x8000_0000 else -0x8000_0000_0000_0000
  }

  function RecordSize(i: nat): nat {
    if i < 7 then 6 else 11
  }

  /** The word that is written as a varint for field i. */
  function Word(i: nat, v: int): int {
    if i < 2 then v else Zigzag(v)
  }

  lemma WordSize(i: nat, v: int)
    requires i < FIELDS && InRange(ReadingField(i).ltype.kind, ReadingField(i).dataSize, v)
    ensures 0 <= Word(i, v) && 1 + |Varint.Encode(Word(i, v))| <= RecordSize(i)
    ensures v == WidestValue(i) ==> 1 + |Varint.Encode(Word(i, v))| == RecordSize(i)
  {
    hide Varint.Encode, Pow2;
    Pow2Values();
    var w := Word(i, v);
    if i < 7 {
      assert 0 <= w < U32;
      Pow2Increasing(32, 35);
      Pow2Increasing(28, 31);
      HalfWord();
      Varint.EncodeLength(w, 5);
      Varint.EncodeLength(w, 4);
    } else {
      assert 0 <= w < U64;
      Pow2Increasing(64, 70);
      Varint.EncodeLength(w, 10);
      Varint.EncodeLength(w, 9);
    }
  }

  lemma HalfWord()
    ensures 2 * Pow2(31) == Pow2(32)
  {
  }

  /** A record of field i: a one-byte key and the varint. */
  lemma ReadingRecord(i: nat, s: Slot)
    requires i < FIELDS && SlotTyped(ReadingField(i), s) && s.Opt? && s.v.Int?
    ensures FieldBytes(ReadingField(i), s)
         == if s.has then Some([(i + 1) * 8] + Varint.Encode(Word(i, s.v.i))) else Some([])
    ensures Word(i, s.v.i) == if i < 2 then s.v.i else if s.v.i < 0 then -2 * s.v.i - 1 else 2 * s.v.i
  {
    hide Varint.Encode;
    RecordOf(i, s);
    KeyByte(i + 1);
    hide FieldBytes, SlotTyped, Key, ReadingField;
  }

  lemma RecordOf(i: nat, s: Slot)
    requires i < FIELDS && SlotTyped(ReadingField(i), s) && s.Opt? && s.v.Int?
    ensures FieldBytes(ReadingField(i), s)
         == if s.has then Some(Key(i + 1, WT_VARINT) + Varint.Encode(Word(i, s.v.i))) else Some([])
  {
    hide Varint.Encode, Key;
    var f := ReadingField(i);
    assert FieldKey(f) == Key(i + 1, WT_VARINT);
    WordWritten(i, s.v.i);
    hide Word, Zigzag, ScalarBytes;
  }

  lemma WordWritten(i: nat, v: int)
    requires i < FIELDS && Holds(ReadingField(i), Int(v))
    ensures ValueBytes(ReadingField(i), Int(v)) == Some(Varint.Encode(Word(i, v)))
  {
    hide Varint.Encode;
  }

  lemma KeyByte(tag: nat)
    requires tag < 16
    ensures Key(tag, WT_VARINT) == [tag * 8]
  {
  }

  lemma ReadingFieldSize(i: nat, s: Slot)
    requires i < FIELDS && SlotTyped(ReadingField(i), s)
    ensures FieldBytes(ReadingField(i), s).Some?
    ensures |FieldBytes(ReadingField(i), s).value| <= RecordSize(i)
    ensures s == Opt(true, Int(WidestValue(i))) ==> |FieldBytes(ReadingField(i), s).value| == RecordSize(i)
  {
    hide Varint.Encode, FieldBytes, WidestValue, Word;
    ReadingRecord(i, s);
    if s.has {
      WordSize(i, s.v.i);
    }
  }

  /** Bytes that fields i, i+1, ... of a reading can take. */
  function MaxFrom(i: nat): nat
    requires i <= FIELDS
  {
    if i < 7 then 6 * (7 - i) + 55 else 11 * (12 - i)
  }

  lemma {:induction false} ReadingSizeFrom(t: Table, i: nat, m: Memory)
    requires t == Reading() && i <= FIELDS && Typed(t, m)
    ensures FieldsFrom(t, i, m).Some? && |FieldsFrom(t, i, m).value| <= MaxFrom(i)
    ensures (forall j :: i <= j < FIELDS ==> m[Offset(t, j)] == Opt(true, Int(WidestValue(j))))
            ==> |FieldsFrom(t, i, m).value| == MaxFrom(i)
    decreases FIELDS - i
  {
    hide FieldBytes, SlotTyped, Offset, WidestValue, Reading, ReadingField;
    if i < FIELDS {
      ReadingFieldSize(i, m[Offset(t, i)]);
      ReadingSizeFrom(t, i + 1, m);
    }
  }

  /** SensorReading_size: every reading can be encoded, in at most 97 bytes. */
  lemma ReadingSize(m: Memory)
    requires Typed(Reading(), m)
    ensures MessageBytes(Reading(), m).Some? && |MessageBytes(Reading(), m).value| <= 97
  {
    hide FieldsFrom, Typed;
    ReadingSizeFrom(Reading(), 0, m);
  }

  /** Memory of a struct whose member i holds v(i). */
  function Memory12(v: int -> Slot): (m: Memory)
    ensures forall i :: 0 <= i < FIELDS ==> MemberAt(i).offset in m && m[MemberAt(i).offset] == v(i)
    ensures forall k :: k in m ==> exists i :: 0 <= i < FIELDS && k == MemberAt(i).offset
  {
    var m := map i | 0 <= i < FIELDS :: MemberAt(i).offset := v(i);
    m
  }

  /** The longest reading: everything present, every varint at full length. */
  function WidestReading(): Memory {
    Memory12((i: int) => if i < 0 then Hook(None) else Opt(true, Int(WidestValue(i))))
  }

  lemma MemoryAt(m: Memory, v: int -> Slot, i: nat)
    requires i < FIELDS && m == Memory12(v)
    ensures Offset(Reading(), i) in m && m[Offset(Reading(), i)] == v(i)
  {
    ReadingLayout();
    hide Memory12, Offset, Reading;
  }

  lemma MemoryTyped(m: Memory, v: int -> Slot)
    requires m == Memory12(v) && forall i :: 0 <= i < FIELDS ==> SlotTyped(ReadingField(i), v(i))
    ensures Typed(Reading(), m)
  {
    hide Memory12, Offset, Reading, SlotTyped, ReadingField;
    forall i | 0 <= i < FIELDS
      ensures Offset(Reading(), i) in m && SlotTyped(Reading()[i], m[Offset(Reading(), i)])
    {
      MemoryAt(m, v, i);
    }
  }

  /** The bound is reached. */
  lemma ReadingSizeReached()
    ensures Typed(Reading(), WidestReading())
    ensures MessageBytes(Reading(), WidestReading()).Some?
    ensures |MessageBytes(Reading(), WidestReading()).value| == 97
  {
    var v := (i: int) => if i < 0 then Hook(None) else Opt(true, Int(WidestValue(i)));
    var m := Memory12(v);
    assert m == WidestReading();
    MemoryTyped(m, v);
    forall j | 0 <= j < FIELDS
      ensures Typed(Reading(), m) && m[Offset(Reading(), j)] == Opt(true, Int(WidestValue(j)))
    {
      MemoryAt(m, v, j);
    }
    hide *;
    ReadingSizeFrom(Reading(), 0, m);
    Size97(m);
  }

  lemma Size97(m: Memory)
    requires Typed(Reading(), m)
    ensures MessageBytes(Reading(), m) == FieldsFrom(Reading(), 0, m) && MaxFrom(0) == 97
  {
    hide FieldsFrom, Typed, Reading;
  }

  lemma ReadingBounded(m: Memory)
    requires Typed(Reading(), m)
    ensures Bounded(Reading(), m)
  {
    hide Offset, Reading;
    forall i | 0 <= i < FIELDS
      ensures Offset(Reading(), i) in m && SlotFits(Reading()[i], m[Offset(Reading(), i)])
    {
    }
  }

  /** SensorReading is an instance of the round trip: a canonical reading comes back as it was. */
  lemma ReadingRoundTrip(m: Memory)
    requires Typed(Reading(), m) && Canonical.Canonical(Reading(), m)
    ensures MessageBytes(Reading(), m).Some?
    ensures DecodeSpec.DecodeMessage(Reading(), MessageBytes(Reading(), m).value) == DecodeSpec.Ok(m, [])
  {
    hide Typed, Canonical.Canonical, Bounded, Usable, DecodeSpec.DecodeMessage, MessageBytes, Reading;
    ReadingUsable();
    ReadingSize(m);
    ReadingBounded(m);
    ExactRoundTrip(Reading(), m);
  }

  // ---------- A wire type that does not fit ----------

  /** A varint under a key that announces four bytes is read as the varint it is. */
  lemma WrongWireType(slot: Slot)
    ensures DecodeSpec.DecodeField(ReadingField(0), WT_32BIT, [7], slot)
         == DecodeSpec.Ok(Opt(true, Int(7)), [])
    ensures !Merge.LooksAtWireType(ReadingField(0))
  {
    var seven: seq<byte> := [7];
    assert Varint.Groups(seven, Varint.LIMIT64) == Varint.Done(7, 1);
    assert DecodeSpec.Varint64(seven) == DecodeSpec.Ok(7, []);
  }
}
