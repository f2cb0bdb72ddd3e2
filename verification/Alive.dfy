/**
 The alive message: updateAliveSendBuffer encodes five or six sensor readings, one
 NodeMessage each, onto one stream over the 128-byte send buffer.
 */
module Alive {
  import opened Bits
  import opened Schema
  import opened Wrappers
  import opened EncodeSpec
  import opened Sensor
  import Canonical
  import DecodeSpec
  import RoundTrip
  import Encoder
  import Varint

  /** What the sensors report when the message is built; the casts to int32_t are done. */
  datatype Sensors = Sensors(
    htuValid: bool, temperature: int, humidity: int,
    ltcValid: bool, voltage: int, current: int, charge: int,
    retries: int)

  predicate ValidSensors(s: Sensors) {
    Int32(s.temperature) && Int32(s.humidity) && Int32(s.voltage) && Int32(s.current)
    && Int32(s.charge) && Int32(s.retries)
  }

  /** One reading: its id, and a value or the error flag. */
  datatype Report = Report(id: nat, valid: bool, value: int)

  predicate ValidReport(r: Report) {
    r.id < 16 && Int32(r.value)
  }

  /** Member i of the SensorReading struct a callback fills in. */
  function ReportSlot(r: Report): int -> Slot {
    (i: int) =>
      if i == 0 then Opt(true, Int(r.id))
      else if i == 1 && !r.valid then Opt(true, Int(1))
      else if i == 2 && r.valid then Opt(true, Int(r.value))
      else Opt(false, Int(0))
  }

  /** The struct itself: SensorReading_init_zero and the members set by the callback. */
  function Struct(r: Report): Memory {
    Memory12(ReportSlot(r))
  }

  lemma StructAt(r: Report, i: nat)
    requires i < FIELDS
    ensures Offset(Reading(), i) in Struct(r) && Struct(r)[Offset(Reading(), i)] == ReportSlot(r)(i)
  {
    hide Reading, Offset, ReportSlot, Memory12;
    MemoryAt(Struct(r), ReportSlot(r), i);
  }

  lemma StructTyped(r: Report)
    requires ValidReport(r)
    ensures Typed(Reading(), Struct(r))
  {
    hide Reading, Offset, Memory12;
    MemoryTyped(Struct(r), ReportSlot(r));
  }

  /** The bytes of a reading: id, then the value or the error flag. */
  function ReportBytes(r: Report): seq<byte>
    requires ValidReport(r)
  {
    [8, r.id] + (if r.valid then [24] + Varint.Encode(Zigzag(r.value)) else [16, 1])
  }

  lemma {:induction false} RestAbsent(r: Report, i: nat)
    requires ValidReport(r) && Typed(Reading(), Struct(r)) && 3 <= i <= FIELDS
    ensures FieldsFrom(Reading(), i, Struct(r)) == Some([])
    decreases FIELDS - i
  {
    hide Reading, Struct, Offset, FieldBytes, SlotTyped;
    if i < FIELDS {
      StructAt(r, i);
      ReportFieldBytes(r, i);
      RestAbsent(r, i + 1);
      JoinNothing(Some([]));
    }
  }

  /** What member i of the struct contributes. */
  function Piece(r: Report, i: nat): seq<byte>
    requires ValidReport(r)
  {
    if i == 0 then [8, r.id]
    else if i == 1 && !r.valid then [16, 1]
    else if i == 2 && r.valid then [24] + Varint.Encode(Zigzag(r.value))
    else []
  }

  lemma ReportSlotTyped(r: Report, i: nat)
    requires ValidReport(r) && i < FIELDS
    ensures SlotTyped(ReadingField(i), ReportSlot(r)(i)) && ReportSlot(r)(i).Opt? && ReportSlot(r)(i).v.Int?
  {
  }

  lemma ReportFieldBytes(r: Report, i: nat)
    requires ValidReport(r) && i < FIELDS
    ensures SlotTyped(ReadingField(i), ReportSlot(r)(i))
    ensures FieldBytes(ReadingField(i), ReportSlot(r)(i)) == Some(Piece(r, i))
  {
    hide Varint.Encode, FieldBytes, SlotTyped, ReadingField, Zigzag;
    ReportSlotTyped(r, i);
    ReadingRecord(i, ReportSlot(r)(i));
    SmallVarint(r.id);
    SmallVarint(1);
    assert [8] + [r.id] == [8, r.id] && [16] + [1] == [16, 1];
  }

  lemma SmallVarint(v: nat)
    ensures v < 128 ==> Varint.Encode(v) == [v]
  {
  }

  /** The members from i on, in table order. */
  lemma PiecesFrom(r: Report, i: nat)
    requires ValidReport(r) && i < FIELDS && Typed(Reading(), Struct(r))
    ensures FieldsFrom(Reading(), i, Struct(r)) == Join(Some(Piece(r, i)), FieldsFrom(Reading(), i + 1, Struct(r)))
  {
    hide Typed, Reading, Struct, Offset, FieldBytes, SlotTyped, ReportSlot, Piece, FieldsFrom, Join;
    var t, m := Reading(), Struct(r);
    StructAt(r, i);
    ReportFieldBytes(r, i);
    RoundTrip.FieldsFromUnfold(t, i, m);
  }

  lemma StructBytes(r: Report)
    requires ValidReport(r)
    ensures Typed(Reading(), Struct(r))
    ensures MessageBytes(Reading(), Struct(r)) == Some(ReportBytes(r))
    ensures |ReportBytes(r)| <= 8
  {
    hide Typed, Reading, Struct, FieldsFrom, Varint.Encode, Zigzag, Piece, ReportBytes, Join;
    StructTyped(r);
    RestAbsent(r, 3);
    PiecesFrom(r, 0);
    PiecesFrom(r, 1);
    PiecesFrom(r, 2);
    PiecesJoined(r);
    ReportLength(r);
  }

  lemma PiecesJoined(r: Report)
    requires ValidReport(r)
    ensures Join(Some(Piece(r, 0)), Join(Some(Piece(r, 1)), Join(Some(Piece(r, 2)), Some([])))) == Some(ReportBytes(r))
  {
    hide Varint.Encode;
    var rest := Piece(r, 1) + (Piece(r, 2) + []);
    assert rest == if r.valid then [24] + Varint.Encode(Zigzag(r.value)) else [16, 1];
  }

  lemma ReportLength(r: Report)
    requires ValidReport(r)
    ensures 4 <= |ReportBytes(r)| <= 8
  {
    hide Varint.Encode, ReadingField;
    ReportSlotTyped(r, 2);
    if r.valid {
      ValueLength(r.value);
    }
  }

  lemma ValueLength(v: int)
    requires Int32(v)
    ensures |Varint.Encode(Zigzag(v))| <= 5
  {
    hide Varint.Encode;
    WordSize(2, v);
  }

  lemma StructCanonical(r: Report)
    requires ValidReport(r) && Typed(Reading(), Struct(r))
    ensures Canonical.Canonical(Reading(), Struct(r))
  {
    hide Typed, Reading, Struct, Offset, SlotTyped, Canonical.Settled;
    var t, m := Reading(), Struct(r);
    forall k | k in m
      ensures exists i :: 0 <= i < |t| && Canonical.Settled(t, i, m, k)
    {
      var i := StructMember(r, k);
      StructSettled(r, i);
    }
    forall i | 0 <= i < FIELDS
      ensures Offset(t, i) in m && SlotTyped(t[i], m[Offset(t, i)])
      ensures RoundTrip.Present(t[i], m[Offset(t, i)]) ==> Canonical.CanonicalSlot(t[i], m[Offset(t, i)])
    {
      StructAt(r, i);
      ReportSlotTyped(r, i);
    }
  }

  /** Every slot of the struct belongs to a member. */
  lemma StructMember(r: Report, k: int) returns (i: nat)
    requires k in Struct(r)
    ensures i < FIELDS && k == Offset(Reading(), i)
  {
    hide Offset, Reading;
    i :| 0 <= i < FIELDS && k == MemberAt(i).offset;
    ReadingLayout();
  }

  lemma StructSettled(r: Report, i: nat)
    requires ValidReport(r) && i < FIELDS
    ensures Offset(Reading(), i) in Struct(r)
    ensures Canonical.Settled(Reading(), i, Struct(r), Offset(Reading(), i))
  {
    hide Struct, Offset, Reading, SlotTyped;
    StructAt(r, i);
    ReportSlotTyped(r, i);
    AbsentIsDefault(r, i);
  }

  lemma AbsentIsDefault(r: Report, i: nat)
    requires ValidReport(r) && i < FIELDS && SlotTyped(ReadingField(i), ReportSlot(r)(i))
    ensures RoundTrip.Present(ReadingField(i), ReportSlot(r)(i)) || ReportSlot(r)(i) == DefaultSlot(ReadingField(i))
  {
  }

  // ---------- NodeMessage ----------

  /** NodeMessage_fields, as the device compiles it: the readings come from a callback. */
  function NodeField(): Field {
    Field(1, Callback, Repeated, Submessage(Reading()), 0, 0, 8, 0, None)
  }

  /** A NodeMessage whose callback encodes the given reading. */
  function NodeMessage(r: Report): Memory {
    map[0 := Hook(Some(Struct(r)))]
  }

  lemma NodeValid()
    ensures ValidTable([NodeField()])
  {
    hide Reading, Offset;
    assert ValidField(NodeField()) by {
      ReadingUsable();
    }
  }

  /** One reading as a field of a NodeMessage. */
  function Frame(r: Report): seq<byte>
    requires ValidReport(r)
  {
    ReportLength(r);
    [10, |ReportBytes(r)|] + ReportBytes(r)
  }

  predicate AllValid(rs: seq<Report>) {
    forall i :: 0 <= i < |rs| ==> ValidReport(rs[i])
  }

  function Frames(rs: seq<Report>): seq<byte>
    requires AllValid(rs)
  {
    if rs == [] then [] else Frame(rs[0]) + Frames(rs[1..])
  }

  lemma FrameIs(r: Report)
    requires ValidReport(r)
    ensures |Frame(r)| <= 10
    ensures Key(1, WT_STRING) + Delimited(ReportBytes(r)) == Frame(r)
  {
    hide ReportBytes;
    ReportLength(r);
    var n := |ReportBytes(r)|;
    assert Key(1, WT_STRING) == [10];
    assert n % U64 == n;
    SmallVarint(n);
  }

  lemma NodeBytes(r: Report)
    requires ValidReport(r)
    ensures Typed([NodeField()], NodeMessage(r))
    ensures MessageBytes([NodeField()], NodeMessage(r)) == Some(Frame(r))
  {
    hide Reading, Struct, ReportBytes, Frame, Delimited, Key, Typed, FieldsFrom;
    var t, m := [NodeField()], NodeMessage(r);
    StructBytes(r);
    NodeTyped(r);
    FrameIs(r);
    RoundTrip.FieldsFromUnfold(t, 0, m);
    NodeEnd(t, m);
    assert FieldKey(NodeField()) == Key(1, WT_STRING);
    JoinNothing(Some(Frame(r)));
  }

  lemma NodeTyped(r: Report)
    requires Typed(Reading(), Struct(r))
    ensures Typed([NodeField()], NodeMessage(r))
    ensures Offset([NodeField()], 0) == 0
    ensures SlotTyped(NodeField(), NodeMessage(r)[0])
  {
    hide Reading, Struct;
  }

  lemma NodeEnd(t: Table, m: Memory)
    requires Typed(t, m)
    ensures FieldsFrom(t, |t|, m) == Some([])
  {
  }

  // ---------- The message ----------

  /** The readings that are sent, in order. */
  function Reports(s: Sensors): (rs: seq<Report>)
    requires ValidSensors(s)
    ensures AllValid(rs)
  {
    [TempSensor(s), HumSensor(s), VoltSensor(s), CurrentSensor(s), ChargeSensor(s)]
    + (if s.retries > 0 then [RetriesSensor(s)] else [])
  }

  /** tempsensor_callback and its siblings: what they put into the SensorReading. */
  function TempSensor(s: Sensors): (r: Report)
    requires ValidSensors(s)
    ensures ValidReport(r)
  {
    Report(2, s.htuValid, s.temperature)
  }

  function HumSensor(s: Sensors): (r: Report)
    requires ValidSensors(s)
    ensures ValidReport(r)
  {
    Report(3, s.htuValid, s.humidity)
  }

  function VoltSensor(s: Sensors): (r: Report)
    requires ValidSensors(s)
    ensures ValidReport(r)
  {
    Report(4, s.ltcValid, s.voltage)
  }

  function CurrentSensor(s: Sensors): (r: Report)
    requires ValidSensors(s)
    ensures ValidReport(r)
  {
    Report(5, s.ltcValid, s.current)
  }

  function ChargeSensor(s: Sensors): (r: Report)
    requires ValidSensors(s)
    ensures ValidReport(r)
  {
    Report(6, s.ltcValid, s.charge)
  }

  function RetriesSensor(s: Sensors): (r: Report)
    requires ValidSensors(s)
    ensures ValidReport(r)
  {
    Report(8, true, s.retries)
  }

  lemma {:induction false} FramesLength(rs: seq<Report>)
    requires AllValid(rs)
    ensures |Frames(rs)| <= 10 * |rs|
  {
    hide Frame, ValidReport;
    if rs != [] {
      FrameIs(rs[0]);
      FramesLength(rs[1..]);
    }
  }

  lemma {:induction false} FramesAppend(rs: seq<Report>, r: Report)
    requires AllValid(rs)
    requires ValidReport(r)
    ensures AllValid(rs + [r])
    ensures Frames(rs + [r]) == Frames(rs) + Frame(r)
  {
    hide Frame, ValidReport;
    if rs != [] {
      assert (rs + [r])[1..] == rs[1..] + [r];
      FramesAppend(rs[1..], r);
      assert Frame(rs[0]) + (Frames(rs[1..]) + Frame(r)) == (Frame(rs[0]) + Frames(rs[1..])) + Frame(r);
    } else {
      assert [] + [r] == [r];
      assert Frames([r]) == Frame(r) + Frames([]);
    }
  }

  lemma SpliceAppend(done: seq<byte>, frame: seq<byte>, before: seq<byte>)
    ensures |done| + |frame| <= |before| ==>
              Encoder.Splice(done + before[|done|..], |done|, frame)
              == (done + frame) + before[|done + frame|..]
  {
    if |done| + |frame| <= |before| {
      var mem := done + before[|done|..];
      assert mem[..|done|] == done;
      assert mem[|done| + |frame|..] == before[|done| + |frame|..];
    }
  }

  class Sender {
    const sendBuffer: array<byte>
    var sendBufferSize: nat  // uint8_t

    ghost predicate Valid()
      reads this
    {
      sendBuffer.Length == 128
    }

    constructor ()
      ensures Valid() && fresh(sendBuffer)
    {
      sendBuffer := new byte[128];
      sendBufferSize := 0;
    }

    /** The stream has written exactly the readings `rs`, and the size says so. */
    ghost predicate HasWritten(stream: Encoder.OStream, rs: seq<Report>, before: seq<byte>)
      requires AllValid(rs)
      reads this, sendBuffer, stream
    {
      && Valid() && stream.buf == sendBuffer && stream.maxSize == 128
      && stream.pos == stream.written == |Frames(rs)| <= 128 && |before| == 128
      && sendBuffer[..] == Frames(rs) + before[|Frames(rs)|..]
    }

    /** Sets the callback of the NodeMessage, encodes it, and updates the size. */
    method Append(stream: Encoder.OStream, r: Report, ghost rs: seq<Report>, ghost before: seq<byte>)
      requires ValidReport(r) && AllValid(rs)
      requires HasWritten(stream, rs, before) && |rs| <= 5
      modifies stream, this`sendBufferSize, sendBuffer
      ensures AllValid(rs + [r])
      ensures HasWritten(stream, rs + [r], before) && sendBufferSize == |Frames(rs + [r])|
    {
      hide Frame, Frames, ValidReport, NodeField, NodeMessage, ValidTable, Typed, MessageBytes, Encoder.Splice;
      NodeValid();
      NodeBytes(r);
      FrameIs(r);
      FramesLength(rs);
      FramesAppend(rs, r);
      SpliceAppend(Frames(rs), Frame(r), before);
      var ok := Encoder.EncodeMessage(stream, [NodeField()], NodeMessage(r));
      if ok {
        sendBufferSize := stream.written % U8;
      }
    }

    lemma Start(stream: Encoder.OStream, before: seq<byte>)
      requires Valid() && stream.buf == sendBuffer && stream.maxSize == 128 && stream.pos == stream.written == 0
      requires before == sendBuffer[..]
      ensures AllValid([]) && HasWritten(stream, [], before)
    {
    }

    lemma Finish(stream: Encoder.OStream, rs: seq<Report>, before: seq<byte>)
      requires AllValid(rs) && HasWritten(stream, rs, before)
      ensures |Frames(rs)| <= |before| && sendBuffer[..] == Frames(rs) + before[|Frames(rs)|..]
    {
    }

    /** updateAliveSendBuffer: the buffer starts with a message of five or six readings, and
        decoding it gives what each sensor said. */
    method UpdateAliveSendBuffer(s: Sensors)
      requires Valid() && ValidSensors(s)
      modifies this`sendBufferSize, sendBuffer
      ensures sendBufferSize == |Frames(Reports(s))| <= 60
      ensures sendBuffer[..] == Frames(Reports(s)) + old(sendBuffer[|Frames(Reports(s))|..])
      ensures forall n :: 6 <= n <= 255 ==>
                Received(s, DecodeSpec.DecodeMessage([InboxField(n)], sendBuffer[..sendBufferSize]))
    {
      hide Received, DecodeSpec.DecodeMessage, InboxField, HasWritten, Frames, Frame, ValidReport, AllValid, TempSensor,
           HumSensor, VoltSensor, CurrentSensor, ChargeSensor, RetriesSensor;
      ghost var all := Reports(s);
      ghost var before, done := sendBuffer[..], [];
      var stream := new Encoder.OStream.FromBuffer(sendBuffer);
      Start(stream, before);
      Append(stream, TempSensor(s), done, before);
      done := done + [TempSensor(s)];
      Append(stream, HumSensor(s), done, before);
      done := done + [HumSensor(s)];
      Append(stream, VoltSensor(s), done, before);
      done := done + [VoltSensor(s)];
      Append(stream, CurrentSensor(s), done, before);
      done := done + [CurrentSensor(s)];
      Append(stream, ChargeSensor(s), done, before);
      done := done + [ChargeSensor(s)];
      if s.retries > 0 {
        Append(stream, RetriesSensor(s), done, before);
        done := done + [RetriesSensor(s)];
      }
      assert done == all;
      FramesLength(done);
      Finish(stream, done, before);
      assert sendBuffer[..sendBufferSize] == Frames(Reports(s));
      forall n | 6 <= n <= 255
        ensures Received(s, DecodeSpec.DecodeMessage([InboxField(n)], Frames(Reports(s))))
      {
        AliveReceived(s, n);
      }
    }
  }

  // ---------- The receiver ----------

  /** NodeMessage for a receiver with room for n readings. */
  function InboxField(n: nat): Field {
    Field(1, Static, Repeated, Submessage(Reading()), 8, -8, 136, n, None)
  }

  /** The SensorReading struct with this id and, at the members error and value1, either the
      value or an error of 1, and with nothing in its other members. */
  predicate Says(v: Value, id: nat, valid: bool, value: int) {
    && v.Msg?
    && Get(v.cells, 4) == Opt(true, Int(id))
    && Get(v.cells, 12) == (if valid then Opt(false, Int(0)) else Opt(true, Int(1)))
    && Get(v.cells, 20) == (if valid then Opt(true, Int(value)) else Opt(false, Int(0)))
    && (forall at :: at in v.cells && at !in {4, 12, 20} ==> v.cells[at] == Opt(false, Int(0)))
  }

  /** A decoded NodeMessage with temperature, humidity, voltage, current and charge, and the
      retries if there were any. */
  predicate Received(s: Sensors, d: DecodeSpec.Parsed<Memory>) {
    && d.Ok? && d.rest == [] && Get(d.v, 8).Rep?
    && var readings := Get(d.v, 8).items;
       && |readings| == (if s.retries > 0 then 6 else 5)
       && Says(readings[0], 2, s.htuValid, s.temperature)
       && Says(readings[1], 3, s.htuValid, s.humidity)
       && Says(readings[2], 4, s.ltcValid, s.voltage)
       && Says(readings[3], 5, s.ltcValid, s.current)
       && Says(readings[4], 6, s.ltcValid, s.charge)
       && (s.retries > 0 ==> Says(readings[5], 8, true, s.retries))
  }

  /** A NodeMessage struct that holds the readings. */
  function Inbox(rs: seq<Report>): Memory {
    map[8 := Rep(Readings(rs))]
  }

  function Readings(rs: seq<Report>): (vs: seq<Value>)
    ensures |vs| == |rs| && forall i :: 0 <= i < |rs| ==> vs[i] == Msg(Struct(rs[i]))
  {
    seq(|rs|, i requires 0 <= i < |rs| => Msg(Struct(rs[i])))
  }

  lemma InboxUsable(n: nat)
    requires 0 < n <= PB_SIZE_MAX
    ensures RoundTrip.Usable([InboxField(n)])
  {
    hide Reading, Offset;
    ReadingUsable();
    var f := InboxField(n);
    assert ValidField(f) && RoundTrip.StaticField(f) && DecodeSpec.CheckableField(f);
  }

  lemma {:induction false} InboxItems(f: Field, rs: seq<Report>)
    requires f == InboxField(f.arraySize) && AllValid(rs)
    ensures forall i :: 0 <= i < |rs| ==> Holds(f, Readings(rs)[i])
    ensures ItemBytes(f, Readings(rs), true) == Some(Frames(rs))
    decreases |rs|
  {
    hide Reading, Struct, Frame, ValidReport, Readings, Typed;
    forall i | 0 <= i < |rs|
      ensures Holds(f, Readings(rs)[i])
    {
      StructTyped(rs[i]);
    }
    if rs != [] {
      assert Readings(rs)[1..] == Readings(rs[1..]);
      InboxItems(f, rs[1..]);
      InboxItem(f, rs[0]);
    }
  }

  lemma InboxItem(f: Field, r: Report)
    requires f == InboxField(f.arraySize) && ValidReport(r)
    ensures Holds(f, Msg(Struct(r)))
    ensures Join(Some(FieldKey(f)), ValueBytes(f, Msg(Struct(r)))) == Some(Frame(r))
  {
    hide Reading, Struct, Frame, Typed, ReportBytes, MessageBytes, Key, Delimited;
    StructBytes(r);
    FrameIs(r);
  }

  lemma InboxTyped(n: nat, rs: seq<Report>)
    requires 0 < n <= PB_SIZE_MAX && |rs| <= n && AllValid(rs)
    ensures Offset([InboxField(n)], 0) == 8
    ensures SlotTyped(InboxField(n), Rep(Readings(rs)))
    ensures Typed([InboxField(n)], Inbox(rs))
  {
    hide Reading, Struct, ValidReport;
    InboxItems(InboxField(n), rs);
  }

  lemma InboxCanonical(n: nat, rs: seq<Report>)
    requires 0 < n <= PB_SIZE_MAX && |rs| <= n && AllValid(rs)
    requires Typed([InboxField(n)], Inbox(rs))
    ensures Canonical.Canonical([InboxField(n)], Inbox(rs)) && Bounded([InboxField(n)], Inbox(rs))
  {
    hide Reading, Struct, ValidReport, Typed, Bounded, Canonical.Canonical;
    var f, m := InboxField(n), Inbox(rs);
    InboxTyped(n, rs);
    forall i | 0 <= i < |rs|
      ensures Typed(Reading(), Struct(rs[i]))
      ensures Canonical.Canonical(Reading(), Struct(rs[i])) && Bounded(Reading(), Struct(rs[i]))
    {
      StructTyped(rs[i]);
      StructCanonical(rs[i]);
      ReadingBounded(Struct(rs[i]));
    }
    InboxSlot(f, rs);
    OneField(f, m);
  }

  lemma InboxSlot(f: Field, rs: seq<Report>)
    requires f == InboxField(f.arraySize) && |rs| <= f.arraySize && SlotTyped(f, Rep(Readings(rs)))
    requires forall i :: 0 <= i < |rs| ==> Typed(Reading(), Struct(rs[i]))
    requires forall i :: 0 <= i < |rs| ==> Canonical.Canonical(Reading(), Struct(rs[i]))
    requires forall i :: 0 <= i < |rs| ==> Bounded(Reading(), Struct(rs[i]))
    ensures RoundTrip.Present(f, Rep(Readings(rs))) ==> Canonical.CanonicalSlot(f, Rep(Readings(rs)))
    ensures RoundTrip.Present(f, Rep(Readings(rs))) || Rep(Readings(rs)) == DefaultSlot(f)
    ensures SlotFits(f, Rep(Readings(rs)))
  {
    hide Reading, Struct, Typed, Bounded, Canonical.Canonical, Readings;
  }

  /** A table of one field, and the struct whose only slot is that field's. */
  lemma OneField(f: Field, m: Memory)
    requires Typed([f], m) && Offset([f], 0) in m && SlotTyped(f, m[Offset([f], 0)])
    requires m.Keys == {Offset([f], 0)}
    requires var s := m[Offset([f], 0)]; RoundTrip.Present(f, s) ==> Canonical.CanonicalSlot(f, s)
    requires var s := m[Offset([f], 0)]; RoundTrip.Present(f, s) || s == DefaultSlot(f)
    requires SlotFits(f, m[Offset([f], 0)])
    ensures Canonical.Canonical([f], m) && Bounded([f], m)
  {
    hide SlotTyped, SlotFits, RoundTrip.Present, Canonical.CanonicalSlot, DefaultSlot, Offset, Typed;
    forall k | k in m
      ensures Canonical.Settled([f], 0, m, k)
    {
      assert k in m.Keys;
    }
  }

  lemma InboxFieldBytes(f: Field, rs: seq<Report>)
    requires f == InboxField(f.arraySize) && |rs| <= f.arraySize && SlotTyped(f, Rep(Readings(rs)))
    requires AllValid(rs)
    ensures FieldBytes(f, Rep(Readings(rs))) == Some(Frames(rs))
  {
    hide Reading, ValidReport, Holds, ItemBytes, Frame;
    InboxItems(f, rs);
  }

  lemma InboxBytes(n: nat, rs: seq<Report>)
    requires 0 < n <= PB_SIZE_MAX && |rs| <= n && AllValid(rs)
    ensures Typed([InboxField(n)], Inbox(rs))
    ensures MessageBytes([InboxField(n)], Inbox(rs)) == Some(Frames(rs))
  {
    hide Reading, Struct, ValidReport, Typed, SlotTyped, FieldsFrom, FieldBytes, Frames, Readings, Offset, Join;
    var t, m := [InboxField(n)], Inbox(rs);
    InboxTyped(n, rs);
    InboxFieldBytes(t[0], rs);
    RoundTrip.FieldsFromUnfold(t, 0, m);
    NodeEnd(t, m);
    JoinNothing(Some(Frames(rs)));
  }

  /** A receiver with room for them reads back exactly the readings, in order. */
  lemma ReadingsReceived(n: nat, rs: seq<Report>)
    requires 0 < n <= PB_SIZE_MAX && |rs| <= n && AllValid(rs)
    ensures DecodeSpec.DecodeMessage([InboxField(n)], Frames(rs)) == DecodeSpec.Ok(Inbox(rs), [])
  {
    hide Reading, Struct, ValidReport, Typed, Frames, Readings, DecodeSpec.DecodeMessage, RoundTrip.Usable, Inbox,
         Canonical.Canonical, Bounded, MessageBytes, InboxField;
    InboxBytes(n, rs);
    InboxUsable(n);
    InboxCanonical(n, rs);
    FramesLength(rs);
    Canonical.ExactRoundTrip([InboxField(n)], Inbox(rs));
  }

  /** Different readings make different structs: what is received tells what was sensed. */
  lemma ReadingsTold(a: Report, b: Report)
    requires ValidReport(a) && ValidReport(b) && Struct(a) == Struct(b)
    ensures a.id == b.id && a.valid == b.valid && (a.valid ==> a.value == b.value)
  {
    hide Reading, Struct, Offset;
    StructAt(a, 0);
    StructAt(b, 0);
    StructAt(a, 2);
    StructAt(b, 2);
  }

  lemma StructSays(r: Report)
    requires ValidReport(r)
    ensures Says(Msg(Struct(r)), r.id, r.valid, r.value)
  {
    var m := Struct(r);
    assert MemberAt(0).offset == 4 && MemberAt(1).offset == 12 && MemberAt(2).offset == 20;
    forall at | at in m && at !in {4, 12, 20}
      ensures m[at] == Opt(false, Int(0))
    {
      var i :| 0 <= i < FIELDS && at == MemberAt(i).offset;
      assert m[at] == ReportSlot(r)(i);
    }
  }

  /** The alive message: at most 60 bytes, received as the five or six readings. */
  lemma AliveReceived(s: Sensors, n: nat)
    requires ValidSensors(s) && 6 <= n <= PB_SIZE_MAX
    ensures |Frames(Reports(s))| <= 60
    ensures DecodeSpec.DecodeMessage([InboxField(n)], Frames(Reports(s))) == DecodeSpec.Ok(Inbox(Reports(s)), [])
    ensures Received(s, DecodeSpec.DecodeMessage([InboxField(n)], Frames(Reports(s))))
  {
    hide Frames, DecodeSpec.DecodeMessage, InboxField, Struct, Says, Readings;
    FramesLength(Reports(s));
    ReadingsReceived(n, Reports(s));
    var rs := Reports(s);
    forall i | 0 <= i < |rs|
      ensures Says(Readings(rs)[i], rs[i].id, rs[i].valid, rs[i].value)
    {
      StructSays(rs[i]);
    }
  }
}
