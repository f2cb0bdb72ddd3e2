/**
 The classes put together: whole uses of the codec and of the UBX receiver, for which the
 laws about their specifications give the outcome.
 */
module EndToEnd {
  import opened Bits
  import opened Schema
  import opened Wrappers
  import opened EncodeSpec
  import Canonical
  import DecodeSpec
  import Decoder
  import Encoder
  import RoundTrip
  import Safety
  import Ubx

  /** pb_encode into a buffer succeeds exactly when pb_get_encoded_size says that it fits. */
  method SizeThenEncode(t: Table, m: Memory, buf: array<byte>) returns (sized: bool, size: nat, ok: bool)
    requires ValidTable(t) && Typed(t, m)
    modifies buf
    ensures sized == MessageBytes(t, m).Some? && (sized ==> size == |MessageBytes(t, m).value|)
    ensures ok <==> sized && size <= buf.Length
    ensures ok ==> buf[..] == MessageBytes(t, m).value + old(buf[size..])
  {
    hide ValidTable, Typed, MessageBytes;
    ghost var before := buf[..];
    sized, size := Encoder.GetEncodedSize(t, m);
    var out := new Encoder.OStream.FromBuffer(buf);
    ok := Encoder.EncodeMessage(out, t, m);
    if ok {
      assert before[..0] == [];
    }
  }

  /** A struct within its bounds, encoded into a buffer and decoded from it, comes back; all
      that can go wrong is that the buffer is too small. */
  method EncodeThenDecode(t: Table, m: Memory, buf: array<byte>, dest: Decoder.Struct) returns (ok: bool)
    requires RoundTrip.Usable(t) && Typed(t, m) && Bounded(t, m) && Canonical.Canonical(t, m) && buf.Length < U32
    modifies buf, dest
    ensures MessageBytes(t, m).Some? && (ok <==> |MessageBytes(t, m).value| <= buf.Length)
    ensures ok ==> dest.cells == m
  {
    hide Typed, Bounded, Canonical.Canonical, ValidTable, DecodeSpec.CheckableTable, RoundTrip.StaticTable,
         MessageBytes, Safety.Safe, DecodeSpec.DecodeMessage;
    Canonical.ExactRoundTrip(t, m);
    var sized, size;
    sized, size, ok := SizeThenEncode(t, m, buf);
    if !ok {
      return;
    }
    ghost var bytes := MessageBytes(t, m).value;
    assert buf[..size] == bytes;
    var input := new Decoder.IStream.FromBuffer(buf[..size]);
    ok := Decoder.DecodeMessage(input, t, dest);
  }

  /** A message sent to a receiver in state 0 is reported at its last byte and not before, and
      its payload is in the receiver's buffer. */
  method SendThenProcess(gps: Ubx.UBlox, id: nat, payload: seq<byte>) returns (r: int)
    requires Ubx.Start(gps.Now()) && Ubx.InRange(id, payload)
    modifies gps, gps.buffer
    ensures r == id && gps.id == id && Ubx.Delivered(gps.Now(), id, payload)
    ensures id != 0x501 && id != 0x500 ==>
              gps.length == |payload| <= gps.buffer.Length && gps.buffer[..|payload|] == payload
    ensures (id == 0x501 || id == 0x500) && |payload| == 2 ==>
              gps.ackedId == 256 * (payload[0] as int) + payload[1]
  {
    hide Ubx.Good, Ubx.Delivered, Ubx.Step, Ubx.Returned, Ubx.Start, Ubx.Sent;
    var wire := Ubx.Send(Ubx.Body(id, payload));
    ghost var s := gps.Now();
    Ubx.SentIsDelivered(s, id, payload);
    NothingFed(s, wire);
    r := 0;
    var k := 0;
    while k < |wire|
      invariant 0 <= k <= |wire| && Ubx.Good(s, wire, k) && gps.Now() == Ubx.At(s, wire, k)
      invariant k < |wire| ==> r <= 0
      invariant k == |wire| > 0 ==> r == Ubx.Answer(s, wire, k - 1)
    {
      NextGood(s, wire, k);
      r := gps.Process(wire[k]);
      assert r == Ubx.Answer(s, wire, k);
      k := k + 1;
    }
    Ubx.NotEmpty(id, payload);
    DeliveredIs(gps.Now(), id, payload);
  }

  lemma DeliveredIs(s: Ubx.Rx, id: nat, payload: seq<byte>)
    requires Ubx.InRange(id, payload) && Ubx.Delivered(s, id, payload)
    ensures s.id == id
    ensures id != 0x501 && id != 0x500 ==>
              s.length == |payload| <= |s.buffer| && s.buffer[..|payload|] == payload
    ensures (id == 0x501 || id == 0x500) && |payload| == 2 ==>
              s.ackedId == 256 * (payload[0] as int) + payload[1]
  {
  }

  /** A run that can be fed to its end can be fed byte by byte. */
  lemma {:induction false} GoodPrefix(s: Ubx.Rx, bytes: seq<byte>, k: nat, n: nat)
    requires k <= n <= |bytes| && Ubx.Good(s, bytes, n)
    ensures Ubx.Good(s, bytes, k)
    decreases n
  {
    if k < n {
      GoodPrefix(s, bytes, k, n - 1);
    }
  }

  lemma NothingFed(s: Ubx.Rx, bytes: seq<byte>)
    ensures Ubx.Good(s, bytes, 0) && Ubx.At(s, bytes, 0) == s
  {
  }

  lemma NextGood(s: Ubx.Rx, bytes: seq<byte>, k: nat)
    requires k < |bytes| && Ubx.Good(s, bytes, |bytes|)
    ensures Ubx.Good(s, bytes, k + 1) && Ubx.Good(s, bytes, k) && Ubx.CanStore(Ubx.At(s, bytes, k))
    ensures Ubx.At(s, bytes, k + 1) == Ubx.Step(Ubx.At(s, bytes, k), bytes[k])
  {
    GoodPrefix(s, bytes, k + 1, |bytes|);
  }
}
