/**
 Encodings in the laws of the decoder: what pb_encode writes is a stream of complete
 fields, so encodings can be concatenated and merged; and the one way in which a
 submessage puts its parent out of step.
 */
module Concat {
  import opened Bits
  import opened Schema
  import opened Wrappers
  import opened EncodeSpec
  import opened DecodeSpec
  import opened ScalarCodec
  import opened RoundTrip
  import opened Merge
  import Varint

  // ---------- Encodings are complete ----------

  lemma SkipDelimited(b: seq<byte>, x: seq<byte>)
    requires |b| < U32
    ensures SkipField(WT_STRING, Delimited(b) + x) == Ok((), x)
  {
    hide Delimited, TakeDelimited;
    LengthOk(b, x);
  }

  lemma SkipScalar(f: Field, v: Value, x: seq<byte>)
    requires ValidField(f) && f.ltype.Scalar? && Holds(f, v)
    ensures SkipField(WireType(f.ltype), ScalarBytes(f.ltype.kind, v.i) + x) == Ok((), x)
    ensures Payload(f, WireType(f.ltype), ScalarBytes(f.ltype.kind, v.i) + x) == Ok((), x)
  {
    hide Varint.Encode, LittleEndian;
    match f.ltype.kind {
      case Fixed32Type => TakeOk(LittleEndian(v.i, 4), x);
      case Fixed64Type => TakeOk(LittleEndian(v.i, 8), x);
      case VarintType =>
        VarintOk(v.i % U64, x);
        SkipVarintOk(v.i % U64, x);
      case UVarintType =>
        VarintOk(v.i, x);
        SkipVarintOk(v.i, x);
      case SVarintType =>
        ZigzagBijection(v.i, 0);
        VarintOk(Zigzag(v.i), x);
        SkipVarintOk(Zigzag(v.i), x);
    }
  }

  /** The payload of one item ends where it was written to end. */
  lemma {:induction false} ValueComplete(f: Field, v: Value, x: seq<byte>)
    requires ValidField(f) && Holds(f, v) && ValueBytes(f, v).Some? && |ValueBytes(f, v).value| < U32
    ensures f.atype.Callback? ==> SkipField(WireType(f.ltype), ValueBytes(f, v).value + x) == Ok((), x)
    ensures Payload(f, WireType(f.ltype), ValueBytes(f, v).value + x) == Ok((), x)
    decreases f, 1
  {
    hide Varint.Encode, SkipField, Delimited, ScalarBytes, TakeDelimited, Complete;
    match f.ltype {
      case Scalar(k) => SkipScalar(f, v, x);
      case BytesType => SkipDelimited(v.b, x); Longer(v.b);
      case StringType => SkipDelimited(CString(v.chars), x); Longer(CString(v.chars));
      case Submessage(t) =>
        var inner := MessageBytes(t, v.cells).value;
        Longer(inner);
        LengthOk(inner, x);
        SkipDelimited(inner, x);
        if !f.atype.Callback? {
          MessageComplete(t, v.cells);
        }
    }
  }

  /** A record of the field in front of a stream. */
  lemma RecordComplete(t: Table, i: nat, wireType: nat, p: seq<byte>, x: seq<byte>)
    requires ValidTable(t) && i < |t| && wireType < 8
    requires Payload(t[i], wireType, p + x) == Ok((), x)
    ensures Complete(t, Key(t[i].tag, wireType) + p + x) <==> Complete(t, x)
  {
    hide Payload, Key, ValidTable, DisjointOffsets;
    TableTags(t, i);
    KeyOk(t, i, wireType, p + x);
    assert Key(t[i].tag, wireType) + p + x == Key(t[i].tag, wireType) + (p + x);
    KeyNotEmpty(t[i].tag, wireType);
  }

  lemma TableTags(t: Table, i: nat)
    requires ValidTable(t) && i < |t|
    ensures DistinctTags(t) && ValidField(t[i]) && 1 <= t[i].tag <= PB_SIZE_MAX
  {
  }

  lemma KeyNotEmpty(tag: nat, wireType: nat)
    requires wireType < 8
    ensures Key(tag, wireType) != []
  {
  }

  lemma {:induction false} ItemsComplete(t: Table, i: nat, items: seq<Value>, x: seq<byte>)
    requires ValidTable(t) && i < |t| && t[i].atype.Static?
    requires forall k :: 0 <= k < |items| ==> Holds(t[i], items[k])
    requires ItemBytes(t[i], items, true).Some? && |ItemBytes(t[i], items, true).value| < U32
    ensures Complete(t, ItemBytes(t[i], items, true).value + x) <==> Complete(t, x)
    decreases t[i], 2, |items|
  {
    hide Complete, ValueBytes, Holds, Key, ValidTable, ValidField;
    var f := t[i];
    if items == [] {
      assert [] + x == x;
    } else {
      var a, b := ValueBytes(f, items[0]).value, ItemBytes(f, items[1..], true).value;
      assert ItemBytes(f, items, true).value + x == FieldKey(f) + a + (b + x);
      TableTags(t, i);
      ValueComplete(f, items[0], b + x);
      RecordComplete(t, i, WireType(f.ltype), a, b + x);
      ItemsComplete(t, i, items[1..], x);
    }
  }

  /** Everything a field wrote is a stretch of complete fields. */
  lemma {:induction false} FieldComplete(t: Table, i: nat, s: Slot, x: seq<byte>)
    requires ValidTable(t) && i < |t| && SlotTyped(t[i], s)
    requires FieldBytes(t[i], s).Some? && |FieldBytes(t[i], s).value| < U32
    ensures Complete(t, FieldBytes(t[i], s).value + x) <==> Complete(t, x)
    decreases t[i], 3
  {
    hide Complete, Holds, Key, ValidTable, ValidField, ItemBytes, Delimited, MessageBytes, Payload, SkipField;
    var f := t[i];
    TableTags(t, i);
    if FieldBytes(f, s) == Some([]) {
      assert [] + x == x;
    } else if f.atype.Callback? {
      var body := MessageBytes(f.ltype.sub, s.encode.value).value;
      Longer(body);
      SkipDelimited(body, x);
      CallbackPayload(f, WT_STRING, Delimited(body) + x);
      RecordComplete(t, i, WT_STRING, Delimited(body), x);
    } else if !f.rule.Repeated? {
      ValueComplete(f, s.v, x);
      RecordComplete(t, i, WireType(f.ltype), ValueBytes(f, s.v).value, x);
    } else if Packable(f.ltype) {
      var body := ItemBytes(f, s.items, false).value;
      Longer(body);
      SkipDelimited(body, x);
      PackedPayload(f, Delimited(body) + x);
      RecordComplete(t, i, WT_STRING, Delimited(body), x);
    } else {
      StaticUnlessCallback(f);
      ItemsComplete(t, i, s.items, x);
    }
  }

  lemma StaticUnlessCallback(f: Field)
    requires ValidField(f) && !f.atype.Callback?
    ensures f.atype.Static?
  {
  }

  lemma CallbackPayload(f: Field, wireType: nat, s: seq<byte>)
    requires f.atype.Callback?
    ensures Payload(f, wireType, s) == SkipField(wireType, s)
  {
  }

  lemma PackedPayload(f: Field, s: seq<byte>)
    requires f.rule.Repeated? && Packable(f.ltype)
    ensures Payload(f, WT_STRING, s) == SkipField(WT_STRING, s)
  {
  }

  lemma {:induction false} FieldsComplete(t: Table, i: nat, m: Memory)
    requires ValidTable(t) && Typed(t, m) && i <= |t|
    requires FieldsFrom(t, i, m).Some? && |FieldsFrom(t, i, m).value| < U32
    ensures Complete(t, FieldsFrom(t, i, m).value)
    decreases t, 4, |t| - i
  {
    hide ValidTable, FieldBytes, SlotTyped, Typed, Offset, Complete;
    if i < |t| {
      TypedAt(t, i, m);
      FieldsFromUnfold(t, i, m);
      hide FieldsFrom;
      FieldsComplete(t, i + 1, m);
      FieldComplete(t, i, m[Offset(t, i)], FieldsFrom(t, i + 1, m).value);
    } else {
      NothingComplete(t);
    }
  }

  lemma NothingComplete(t: Table)
    ensures Complete(t, [])
  {
  }

  /** Whatever pb_encode writes, it is a stream of complete fields for the same table. */
  lemma {:induction false} MessageComplete(t: Table, m: Memory)
    requires ValidTable(t) && Typed(t, m)
    requires MessageBytes(t, m).Some? && |MessageBytes(t, m).value| < U32
    ensures Complete(t, MessageBytes(t, m).value)
    decreases t, 5
  {
    hide Complete, ValidTable;
    FieldsComplete(t, 0, m);
  }

  // ---------- A submessage that ends early ----------

  /** What a submessage field is decoded into. */
  function Destination(f: Field, old_: Value): Memory
    requires f.ltype.Submessage?
  {
    if f.rule.Repeated? || !old_.Msg? then Defaults(f.ltype.sub) else old_.cells
  }

  lemma SubmessageDecoded(f: Field, inner: seq<byte>, after: seq<byte>, old_: Value)
    requires f.ltype.Submessage? && |inner| < U32
    ensures var sub := DecodeNoInit(f.ltype.sub, inner, Destination(f, old_));
            DecodeValue(f, Delimited(inner) + after, old_)
            == if sub.Ok?
               then Ok(Msg(sub.v), AfterSubstream(inner, sub.rest, sub.lag, after), |sub.rest| + sub.lag)
               else Fail
  {
    hide Defaults, Delimited, TakeDelimited, DecodeNoInit;
    LengthOk(inner, after);
  }

  /** A zero tag inside a submessage ends it, and closing the substream does not skip the
      rest: the parent goes on reading inside the submessage, and since its budget was
      already reduced by the whole length, as many bytes at its own end are never read. */
  lemma EarlyEnd(f: Field, junk: seq<byte>, after: seq<byte>, old_: Value)
    requires f.ltype.Submessage? && RequiredCount(f.ltype.sub) == 0 && |junk| + 1 < U32
    ensures DecodeValue(f, Delimited([0] + junk) + after, old_)
         == Ok(Msg(Destination(f, old_)), (junk + after)[..|after|], |junk|)
  {
    hide *;
    var inner := [0] + junk;
    SubmessageDecoded(f, inner, after, old_);
    ZeroTagEnds(f.ltype.sub, junk, Destination(f, old_));
    AfterZeroTag(junk, after);
  }

  lemma AfterZeroTag(junk: seq<byte>, after: seq<byte>)
    ensures AfterSubstream([0] + junk, junk, 0, after) == (junk + after)[..|after|]
  {
    assert ([0] + junk + after)[1..] == junk + after;
  }

  lemma ZeroTagEnds(t: Table, junk: seq<byte>, m: Memory)
    requires RequiredCount(t) == 0
    ensures DecodeNoInit(t, [0] + junk, m) == Ok(m, junk)
  {
    assert ([0] + junk)[1..] == junk;
  }

  // ---------- Exactly when the parent stays in step ----------

  /** The payload of a known field is all there, with no early end in a submessage. */
  function WholePayload(f: Field, wireType: nat, s: seq<byte>): (r: Parsed<()>)
    ensures r.Ok? ==> |r.rest| < |s| && r.lag == 0
    decreases |s|, 1
  {
    if !f.atype.Callback? && f.ltype.Submessage? then
      var d := TakeDelimited(s);
      if d.Ok? && Whole(f.ltype.sub, d.v) then Ok((), d.rest) else Fail
    else Payload(f, wireType, s)
  }

  /** A sequence of whole fields, at any depth; only a clean end of input, or a zero or
      cut-off key at its very end, ends it. */
  predicate Whole(t: Table, s: seq<byte>)
    decreases |s|, 2
  {
    s == [] ||
    match DecodeTag(s)
    case Tag(number, wireType, r) =>
      var i := Find(t, number);
      var p := if i < |t| then WholePayload(t[i], wireType, r)
               else if t == [] && number == 0 then Fail
               else SkipField(wireType, r);
      p.Ok? && Whole(t, p.rest)
    case Eof(rest) => rest == []
    case BadTag => false
  }

  /** A value that decodes has read its payload, apart from a submessage that ended early. */
  lemma ScalarPayload(f: Field, wireType: nat, s: seq<byte>)
    requires !f.atype.Callback? && f.ltype.Scalar? && !(f.rule.Repeated? && wireType == WT_STRING)
    requires DecodeScalar(f, s).Ok?
    ensures Payload(f, wireType, s) == Ok((), DecodeScalar(f, s).rest)
  {
    hide Varint64;
  }

  lemma StringPayload(f: Field, wireType: nat, s: seq<byte>, old_: Value)
    requires !f.atype.Callback? && (f.ltype.BytesType? || f.ltype.StringType?) && DecodeValue(f, s, old_).Ok?
    ensures Payload(f, wireType, s) == Ok((), DecodeValue(f, s, old_).rest) && DecodeValue(f, s, old_).lag == 0
  {
    hide Varint32;
  }

  lemma {:induction false} SubmessageWhole(f: Field, s: seq<byte>, old_: Value)
    requires f.ltype.Submessage? && DecodeValue(f, s, old_).Ok?
    ensures TakeDelimited(s).Ok?
    ensures DecodeValue(f, s, old_).lag == 0 <==> Whole(f.ltype.sub, TakeDelimited(s).v)
    ensures DecodeValue(f, s, old_).lag == 0 ==> DecodeValue(f, s, old_).rest == TakeDelimited(s).rest
    decreases |s|, 0
  {
    hide Whole, TakeDelimited, DecodeLoop, AllSeen, Defaults;
    var inner := TakeDelimited(s).v;
    var dest := if f.rule.Repeated? || !old_.Msg? then Defaults(f.ltype.sub) else old_.cells;
    WholeIff(f.ltype.sub, inner, dest, {}, 0);
  }

  lemma {:induction false} ValueWhole(f: Field, wireType: nat, s: seq<byte>, old_: Value)
    requires !f.atype.Callback? && !(f.rule.Repeated? && wireType == WT_STRING && Packable(f.ltype))
    requires DecodeValue(f, s, old_).Ok?
    ensures DecodeValue(f, s, old_).lag == 0 <==> WholePayload(f, wireType, s).Ok?
    ensures DecodeValue(f, s, old_).lag == 0 ==>
              DecodeValue(f, s, old_).rest == WholePayload(f, wireType, s).rest
    decreases |s|, 1
  {
    hide Payload, Whole, TakeDelimited, DecodeScalar;
    match f.ltype {
      case Scalar(_) => ScalarPayload(f, wireType, s);
      case Submessage(_) => SubmessageWhole(f, s, old_);
      case BytesType => StringPayload(f, wireType, s, old_);
      case StringType => StringPayload(f, wireType, s, old_);
      case Extension =>
    }
  }

  lemma {:induction false} FieldWhole(f: Field, wireType: nat, s: seq<byte>, slot: Slot)
    requires DecodeField(f, wireType, s, slot).Ok?
    ensures DecodeField(f, wireType, s, slot).lag == 0 <==> WholePayload(f, wireType, s).Ok?
    ensures DecodeField(f, wireType, s, slot).lag == 0 ==>
              DecodeField(f, wireType, s, slot).rest == WholePayload(f, wireType, s).rest
    decreases |s|, 2
  {
    hide DecodeValue, Whole, TakeDelimited, DecodePacked, DefaultValue, DecodeScalar, Varint64;
    if f.atype.Callback? {
      CallbackPayload(f, wireType, s);
    } else if f.rule.Repeated? && wireType == WT_STRING && Packable(f.ltype) {
      PackedPayload(f, s);
      SkipString(s);
    } else {
      hide SkipField, Payload;
      if f.rule.Repeated? {
        ValueWhole(f, wireType, s, Int(0));
      } else if f.rule.Oneof? {
        ValueWhole(f, wireType, s, DefaultValue(f));
      } else {
        ValueWhole(f, wireType, s, OldValue(slot));
      }
    }
  }

  lemma {:induction false} LagGrows(t: Table, s: seq<byte>, m: Memory, seen: set<nat>, lag: nat)
    requires DecodeLoop(t, s, m, seen, lag).Loop?
    ensures DecodeLoop(t, s, m, seen, lag).lag >= lag
    decreases |s|
  {
    hide SkipField, DecodeField, Mark, Offset;
    if s != [] && DecodeTag(s).Tag? {
      var number, wireType, r := DecodeTag(s).number, DecodeTag(s).wireType, DecodeTag(s).rest;
      var i := Find(t, number);
      if i == |t| {
        LagGrows(t, SkipField(wireType, r).rest, m, seen, lag);
      } else {
        var d := DecodeField(t[i], wireType, r, Get(m, Offset(t, i)));
        LagGrows(t, d.rest, m[Offset(t, i) := d.v], Mark(t, i, seen), lag + d.lag);
      }
    }
  }

  /** The loop reads its input to the end, without losing step, if and only if the input is
      whole; the struct that is decoded into makes no difference. */
  lemma {:induction false} WholeIff(t: Table, s: seq<byte>, m: Memory, seen: set<nat>, lag: nat)
    requires DecodeLoop(t, s, m, seen, lag).Loop?
    ensures var r := DecodeLoop(t, s, m, seen, lag);
            r.rest == [] && r.lag == lag <==> Whole(t, s)
    decreases |s|, 3
  {
    hide SkipField, DecodeField, WholePayload, Mark, Offset;
    if s != [] && DecodeTag(s).Tag? {
      var number, wireType, r := DecodeTag(s).number, DecodeTag(s).wireType, DecodeTag(s).rest;
      var i := Find(t, number);
      if i == |t| {
        WholeIff(t, SkipField(wireType, r).rest, m, seen, lag);
      } else {
        var slot := Get(m, Offset(t, i));
        var d := DecodeField(t[i], wireType, r, slot);
        FieldWhole(t[i], wireType, r, slot);
        LagGrows(t, d.rest, m[Offset(t, i) := d.v], Mark(t, i, seen), lag + d.lag);
        WholeIff(t, d.rest, m[Offset(t, i) := d.v], Mark(t, i, seen), lag + d.lag);
      }
    }
  }

  /** The parent of a submessage that decodes stays in step if and only if the submessage is
      whole; its position is then right behind the submessage. */
  lemma InStep(f: Field, inner: seq<byte>, after: seq<byte>, old_: Value)
    requires f.ltype.Submessage? && |inner| < U32
    ensures var r := DecodeValue(f, Delimited(inner) + after, old_);
            r.Ok? ==>
              && (r.lag == 0 <==> Whole(f.ltype.sub, inner))
              && (r.lag == 0 ==> r.rest == after)
  {
    hide Delimited, TakeDelimited, DecodeValue, Whole;
    LengthOk(inner, after);
    var s := Delimited(inner) + after;
    if DecodeValue(f, s, old_).Ok? {
      SubmessageWhole(f, s, old_);
    }
  }

  /** Complete streams are whole. */
  lemma {:induction false} CompleteWhole(t: Table, s: seq<byte>)
    requires Complete(t, s)
    ensures Whole(t, s)
    decreases |s|, 3
  {
    hide SkipField, Payload, WholePayload;
    if s != [] {
      var number, wireType, r := DecodeTag(s).number, DecodeTag(s).wireType, DecodeTag(s).rest;
      var i := Find(t, number);
      if i < |t| {
        PayloadWhole(t[i], wireType, r);
      }
      CompleteWhole(t, AnyPayload(t, number, wireType, r).rest);
    }
  }

  lemma {:induction false} PayloadWhole(f: Field, wireType: nat, s: seq<byte>)
    requires Payload(f, wireType, s).Ok?
    ensures WholePayload(f, wireType, s) == Payload(f, wireType, s)
    decreases |s|, 2
  {
    hide SkipField, TakeDelimited, Complete, Whole;
    if !f.atype.Callback? && f.ltype.Submessage? {
      CompleteWhole(f.ltype.sub, TakeDelimited(s).v);
    }
  }
}
