/**
 pb_encode.c: an output stream over a byte array (or over nothing, to measure), and the
 encoders that write to it. Every method is specified by the bytes of EncodeSpec: it
 succeeds exactly when those bytes exist and fit, and then it has appended exactly them.
 */
module Encoder {
  import opened Bits
  import opened Schema
  import opened Wrappers
  import opened EncodeSpec
  import opened Iterator
  import Varint

  /** The state of an output stream at one moment. */
  datatype Snap = Snap(mem: seq<byte>, pos: nat, written: nat)

  function Splice(mem: seq<byte>, at: nat, data: seq<byte>): seq<byte>
    requires at + |data| <= |mem|
  {
    mem[..at] + data + mem[at + |data|..]
  }

  /** The memories agree outside [from, to). */
  ghost predicate SameOutside(a: seq<byte>, b: seq<byte>, from: nat, to: nat) {
    && |a| == |b|
    && forall i :: 0 <= i < |a| && (i < from || i >= to) ==> a[i] == b[i]
  }

  /** A writing stream has not passed its limit, and the limit lies inside the buffer. */
  ghost predicate Sound(sizing: bool, max: nat, s: Snap) {
    !sizing ==> s.written <= max && s.pos + (max - s.written) <= |s.mem|
  }

  /** What an encoder given `data` to write did between two moments. */
  ghost predicate Wrote(sizing: bool, max: nat, a: Snap, b: Snap, ok: bool, data: Option<seq<byte>>)
    requires Sound(sizing, max, a)
  {
    && Sound(sizing, max, b)
    && ok == (data.Some? && (sizing || a.written + |data.value| <= max))
    && (ok ==> b.written == a.written + |data.value|)
    && (ok && !sizing ==> b.pos == a.pos + |data.value| && b.mem == Splice(a.mem, a.pos, data.value))
    && (!ok && !sizing ==> SameOutside(a.mem, b.mem, a.pos, a.pos + (max - a.written)))
  }

  lemma Continue(sizing: bool, max: nat, a: Snap, b: Snap, c: Snap,
                 first: seq<byte>, ok: bool, second: Option<seq<byte>>)
    requires Sound(sizing, max, a)
    requires Wrote(sizing, max, a, b, true, Some(first))
    requires Wrote(sizing, max, b, c, ok, second)
    ensures Wrote(sizing, max, a, c, ok, Join(Some(first), second))
  {
    if !sizing {
      if ok {
        var both := first + second.value;
        assert Splice(b.mem, b.pos, second.value) == Splice(a.mem, a.pos, both);
      } else {
        assert SameOutside(a.mem, b.mem, a.pos, a.pos + (max - a.written));
      }
    }
  }

  lemma Stop(sizing: bool, max: nat, a: Snap, b: Snap, first: Option<seq<byte>>, second: Option<seq<byte>>)
    requires Sound(sizing, max, a)
    requires Wrote(sizing, max, a, b, false, first)
    ensures Wrote(sizing, max, a, b, false, Join(first, second))
  {
  }

  lemma Nothing(sizing: bool, max: nat, a: Snap)
    requires Sound(sizing, max, a)
    ensures Wrote(sizing, max, a, a, true, Some([]))
  {
    assert !sizing ==> Splice(a.mem, a.pos, []) == a.mem;
  }

  /** An error in the middle: what was written before it, and what would have come after. */
  lemma StopAfter(sizing: bool, max: nat, a: Snap, b: Snap, c: Snap,
                  done: seq<byte>, item: Option<seq<byte>>, rest: Option<seq<byte>>)
    requires Sound(sizing, max, a)
    requires Wrote(sizing, max, a, b, true, Some(done))
    requires Wrote(sizing, max, b, c, false, item)
    ensures Wrote(sizing, max, a, c, false, Join(Some(done), Join(item, rest)))
  {
    Continue(sizing, max, a, b, c, done, false, item);
    Stop(sizing, max, a, c, Join(Some(done), item), rest);
    JoinAssociative(Some(done), item, rest);
  }

  class OStream {
    const buf: array?<byte>  // null on the sizing pseudo-stream (callback == NULL)
    const maxSize: nat
    var pos: nat             // state: where the next byte goes
    var written: nat

    ghost predicate Valid()
      reads this, buf
    {
      Sound(buf == null, maxSize, Now())
    }

    ghost function Now(): Snap
      reads this, buf
    {
      Snap(if buf == null then [] else buf[..], pos, written)
    }

    /** Since the moment `a` an encoder was given `data` and reported `ok`. */
    ghost predicate Since(a: Snap, ok: bool, data: Option<seq<byte>>)
      reads this, buf
      requires Sound(buf == null, maxSize, a)
    {
      Wrote(buf == null, maxSize, a, Now(), ok, data)
    }

    constructor FromBuffer(buf: array<byte>)
      ensures Valid() && this.buf == buf && pos == 0 && written == 0 && maxSize == buf.Length
    {
      this.buf := buf;
      pos, written, maxSize := 0, 0, buf.Length;
    }

    constructor Sizing()
      ensures Valid() && buf == null && written == 0
    {
      buf := null;
      pos, written, maxSize := 0, 0, 0;
    }

    /** The substream of pb_encode_submessage: same buffer and place, its own limit. */
    constructor Sub(buf: array?<byte>, pos: nat, maxSize: nat)
      requires buf != null ==> pos + maxSize <= buf.Length
      ensures Valid() && this.buf == buf && this.pos == pos && written == 0 && this.maxSize == maxSize
    {
      this.buf := buf;
      this.pos, written, this.maxSize := pos, 0, maxSize;
    }

    /** buf_write */
    method BufWrite(data: seq<byte>)
      requires buf != null && pos + |data| <= buf.Length
      modifies this`pos, buf
      ensures pos == old(pos) + |data| && buf[..] == Splice(old(buf[..]), old(pos), data)
    {
      var dest := pos;
      pos := pos + |data|;
      var i := 0;
      while i < |data|
        invariant 0 <= i <= |data| && pos == dest + |data|
        invariant forall k :: 0 <= k < buf.Length ==>
                    buf[k] == if dest <= k < dest + i then data[k - dest] else old(buf[k])
      {
        buf[dest + i] := data[i];
        i := i + 1;
      }
    }

    /** pb_write */
    method Write(data: seq<byte>) returns (ok: bool)
      requires Valid()
      modifies this, buf
      ensures Valid() && Since(old(Now()), ok, Some(data))
    {
      if buf != null {
        if written + |data| > maxSize {
          return false;
        }
        BufWrite(data);
      }
      written := written + |data|;
      return true;
    }

    /** pb_write with no data, which the encoders do on a sizing stream only. */
    method Count(count: nat) returns (ok: bool)
      requires Valid() && buf == null
      modifies this
      ensures Valid() && ok && written == old(written) + count
    {
      written := written + count;
      return true;
    }
  }

  // ---------- Wire primitives ----------

  /** One round of the loop of pb_encode_varint moves one group to the buffer. */
  lemma NextGroup(done: seq<byte>, v: nat, all: seq<byte>)
    requires v > 0 && all == done + Varint.Encode(v)
    ensures v >= 128 ==> all == (done + [v % 128 + 128]) + Varint.Encode(v / 128)
    ensures v < 128 ==> all == done + [v] && v / 128 == 0
    ensures |done| < |all|
  {
  }

  method EncodeVarint(out: OStream, value: nat) returns (ok: bool)
    requires out.Valid() && value < U64
    modifies out, out.buf
    ensures out.Valid() && out.Since(old(out.Now()), ok, Some(Varint.Encode(value)))
  {
    if value <= 0x7F {
      ok := out.Write([value]);
      return;
    }
    var group := EncodeGroups(value);
    ok := out.Write(group);
  }

  /** The multi-byte case of pb_encode_varint: ten bytes of buffer are enough. */
  method EncodeGroups(value: nat) returns (groups: seq<byte>)
    requires 0x7F < value < U64
    ensures groups == Varint.Encode(value)
  {
    var buffer := new byte[10];
    var i := 0;
    var v: nat := value;
    ghost var all := Varint.Encode(value);
    assert |all| <= 10 by { Varint.RoundTrip64(value, []); }
    while v > 0
      invariant 0 <= i <= 10
      invariant v > 0 ==> all == buffer[..i] + Varint.Encode(v)
      invariant v == 0 ==> i >= 1 && buffer[i - 1] >= 128 && all == buffer[..i - 1] + [buffer[i - 1] - 128]
    {
      ghost var done := buffer[..i];
      NextGroup(done, v, all);
      buffer[i] := v % 128 + 128;
      assert buffer[..i] == done;
      assert buffer[..i + 1] == done + [v % 128 + 128];
      v := v / 128;
      i := i + 1;
    }
    ghost var done := buffer[..i - 1];
    buffer[i - 1] := buffer[i - 1] % 128;
    assert buffer[..i - 1] == done;
    return buffer[..i];
  }

  lemma ZigzagWord(value: int)
    requires -0x8000_0000_0000_0000 <= value < 0x8000_0000_0000_0000
    ensures 0 <= Zigzag(value) < U64
    ensures Zigzag(value) == var w := ShiftLeft(value % U64, 1, U64); if value < 0 then Not64(w) else w
  {
    assert Pow2(1) == 2 * Pow2(0) == 2;
    if value < 0 {
      assert value % U64 == value + U64;
      assert (2 * (value + U64)) % U64 == 2 * value + U64;
    }
  }

  method EncodeSvarint(out: OStream, value: int) returns (ok: bool)
    requires out.Valid() && -0x8000_0000_0000_0000 <= value < 0x8000_0000_0000_0000
    modifies out, out.buf
    ensures out.Valid() && out.Since(old(out.Now()), ok, Some(Varint.Encode(Zigzag(value))))
  {
    var zigzagged := ShiftLeft(value % U64, 1, U64);
    if value < 0 {
      zigzagged := Not64(zigzagged);
    }
    ZigzagWord(value);
    ok := EncodeVarint(out, zigzagged);
  }

  method EncodeFixed32(out: OStream, value: nat) returns (ok: bool)
    requires out.Valid() && value < U32
    modifies out, out.buf
    ensures out.Valid() && out.Since(old(out.Now()), ok, Some(LittleEndian(value, 4)))
  {
    var bytes := [value % 256, (value / 0x100) % 256, (value / 0x1_0000) % 256, (value / 0x100_0000) % 256];
    LittleEndian4(value);
    ok := out.Write(bytes);
  }

  method EncodeFixed64(out: OStream, value: nat) returns (ok: bool)
    requires out.Valid() && value < U64
    modifies out, out.buf
    ensures out.Valid() && out.Since(old(out.Now()), ok, Some(LittleEndian(value, 8)))
  {
    var high := value / U32;
    var bytes := [value % 256, (value / 0x100) % 256, (value / 0x1_0000) % 256, (value / 0x100_0000) % 256,
                  high % 256, (high / 0x100) % 256, (high / 0x1_0000) % 256, (high / 0x100_0000) % 256];
    LittleEndian8(value);
    ok := out.Write(bytes);
  }

  lemma LittleEndian4(v: nat)
    ensures LittleEndian(v, 4) == [v % 256, (v / 0x100) % 256, (v / 0x1_0000) % 256, (v / 0x100_0000) % 256]
  {
    LittleEndianSplit(v, 0);
  }

  /** The first four of n + 4 little-endian bytes, and the rest. */
  lemma LittleEndianSplit(v: nat, n: nat)
    ensures LittleEndian(v, n + 4)
         == [v % 256, (v / 0x100) % 256, (v / 0x1_0000) % 256, (v / 0x100_0000) % 256] + LittleEndian(v / U32, n)
  {
    var v1 := v / 256;
    var v2 := v1 / 256;
    var v3 := v2 / 256;
    assert v2 == v / 0x1_0000 && v3 == v / 0x100_0000 && v3 / 256 == v / U32;
    assert LittleEndian(v, n + 4) == [v % 256] + LittleEndian(v1, n + 3);
    assert LittleEndian(v1, n + 3) == [v1 % 256] + LittleEndian(v2, n + 2);
    assert LittleEndian(v2, n + 2) == [v2 % 256] + LittleEndian(v3, n + 1);
    assert LittleEndian(v3, n + 1) == [v3 % 256] + LittleEndian(v3 / 256, n);
  }

  lemma LittleEndian8(v: nat)
    ensures LittleEndian(v, 8) == (
              var h := v / U32;
              [v % 256, (v / 0x100) % 256, (v / 0x1_0000) % 256, (v / 0x100_0000) % 256,
               h % 256, (h / 0x100) % 256, (h / 0x1_0000) % 256, (h / 0x100_0000) % 256])
  {
    LittleEndianSplit(v, 4);
    LittleEndian4(v / U32);
  }

  /** A field number shifted up makes room for the wire type. */
  lemma KeyWord(fieldNumber: nat, wireType: nat)
    requires wireType < 8 && fieldNumber < U32
    ensures Or(ShiftLeft(fieldNumber, 3, U64), wireType) == fieldNumber * 8 + wireType < U64
  {
    assert Pow2(3) == 2 * Pow2(2) == 4 * Pow2(1) == 8;
    assert ShiftLeft(fieldNumber, 3, U64) == fieldNumber * 8;
    OrCommutes(fieldNumber * 8, wireType);
    OrDisjoint(wireType, fieldNumber, 3);
  }

  method EncodeTag(out: OStream, wireType: nat, fieldNumber: nat) returns (ok: bool)
    requires out.Valid() && wireType < 8 && fieldNumber < U32
    modifies out, out.buf
    ensures out.Valid() && out.Since(old(out.Now()), ok, Some(Key(fieldNumber, wireType)))
  {
    var tag := Or(ShiftLeft(fieldNumber, 3, U64), wireType);
    KeyWord(fieldNumber, wireType);
    ok := EncodeVarint(out, tag);
  }

  method EncodeTagForField(out: OStream, f: Field) returns (ok: bool)
    requires out.Valid() && f.tag < U32
    modifies out, out.buf
    ensures out.Valid()
    ensures out.Since(old(out.Now()), ok, if f.ltype.Extension? then None else Some(FieldKey(f)))
  {
    var wireType;
    match f.ltype {
      case Scalar(VarintType) => wireType := WT_VARINT;
      case Scalar(UVarintType) => wireType := WT_VARINT;
      case Scalar(SVarintType) => wireType := WT_VARINT;
      case Scalar(Fixed32Type) => wireType := WT_32BIT;
      case Scalar(Fixed64Type) => wireType := WT_64BIT;
      case BytesType => wireType := WT_STRING;
      case StringType => wireType := WT_STRING;
      case Submessage(_) => wireType := WT_STRING;
      case Extension => return false;
    }
    ok := EncodeTag(out, wireType, f.tag);
  }

  method EncodeString(out: OStream, data: seq<byte>) returns (ok: bool)
    requires out.Valid()
    modifies out, out.buf
    ensures out.Valid() && out.Since(old(out.Now()), ok, Some(Delimited(data)))
  {
    ghost var a := out.Now();
    ok := EncodeVarint(out, |data| % U64);
    ghost var b := out.Now();
    if !ok {
      Stop(out.buf == null, out.maxSize, a, b, Some(Varint.Encode(|data| % U64)), Some(data));
      return;
    }
    ok := out.Write(data);
    Continue(out.buf == null, out.maxSize, a, b, out.Now(), Varint.Encode(|data| % U64), ok, Some(data));
  }

  // ---------- Field encoders ----------

  lemma WidthRange(f: Field, v: Value)
    requires f.ltype.Scalar? && WidthOk(f) && Holds(f, v)
    ensures -0x8000_0000_0000_0000 <= v.i < U64
    ensures f.ltype.kind in {VarintType, SVarintType} ==> v.i < 0x8000_0000_0000_0000
    ensures f.ltype.kind !in {VarintType, SVarintType} ==> v.i >= 0
    ensures f.ltype.kind == Fixed32Type ==> v.i < U32
  {
  }

  /** pb_enc_varint, pb_enc_uvarint, pb_enc_svarint, pb_enc_fixed32 and pb_enc_fixed64 */
  method EncScalar(out: OStream, f: Field, v: Value) returns (ok: bool)
    requires out.Valid() && f.ltype.Scalar? && Holds(f, v)
    modifies out, out.buf
    ensures out.Valid() && out.Since(old(out.Now()), ok, ValueBytes(f, v))
  {
    if !f.ltype.kind.Fixed32Type? && !f.ltype.kind.Fixed64Type? && f.dataSize !in {1, 2, 4, 8} {
      return false;
    }
    WidthRange(f, v);
    match f.ltype.kind {
      case VarintType => ok := EncodeVarint(out, v.i % U64);
      case UVarintType => ok := EncodeVarint(out, v.i);
      case SVarintType => ok := EncodeSvarint(out, v.i);
      case Fixed32Type => ok := EncodeFixed32(out, v.i);
      case Fixed64Type => ok := EncodeFixed64(out, v.i);
    }
  }

  /** pb_enc_bytes */
  method EncBytes(out: OStream, f: Field, v: Value) returns (ok: bool)
    requires out.Valid() && f.ltype.BytesType? && Holds(f, v)
    modifies out, out.buf
    ensures out.Valid() && out.Since(old(out.Now()), ok, ValueBytes(f, v))
  {
    if |v.b| + BYTES_HEADER > f.dataSize {
      return false;
    }
    ok := EncodeString(out, v.b);
  }

  /** Character i of the array; what follows the stored characters is the terminator. */
  function CharAt(chars: seq<byte>, i: nat): byte {
    if i < |chars| then chars[i] else 0
  }

  lemma {:induction false} CStringIs(chars: seq<byte>, n: nat)
    requires n <= |chars| && forall i :: 0 <= i < n ==> chars[i] != 0
    requires n == |chars| || chars[n] == 0
    ensures CString(chars) == chars[..n]
    decreases n
  {
    if n > 0 {
      CStringIs(chars[1..], n - 1);
      assert chars[..n] == [chars[0]] + chars[1..][..n - 1];
    }
  }

  /** pb_enc_string */
  method EncString(out: OStream, f: Field, v: Value) returns (ok: bool)
    requires out.Valid() && f.ltype.StringType? && Holds(f, v)
    modifies out, out.buf
    ensures out.Valid() && out.Since(old(out.Now()), ok, ValueBytes(f, v))
  {
    var size := 0;
    while size < f.dataSize && CharAt(v.chars, size) != 0
      invariant 0 <= size <= |v.chars|
      invariant forall i :: 0 <= i < size ==> v.chars[i] != 0
      invariant out.Now() == old(out.Now())
      decreases f.dataSize - size
    {
      size := size + 1;
    }
    CStringIs(v.chars, size);
    ok := EncodeString(out, v.chars[..size]);
  }

  /** pb_encode_submessage: measure, write the length, then write through a substream that
      may take no more than was measured. The last check never fails. */
  method EncodeSubmessage(out: OStream, t: Table, m: Memory) returns (ok: bool)
    requires out.Valid() && ValidTable(t) && Typed(t, m)
    modifies out, out.buf
    ensures out.Valid() && out.Since(old(out.Now()), ok, DelimitedOption(MessageBytes(t, m)))
    decreases t, 7, 1
  {
    ghost var a := out.Now();
    var sizer := new OStream.Sizing();
    ok := EncodeMessage(sizer, t, m);
    if !ok {
      return;
    }
    var size := sizer.written;
    ghost var data := MessageBytes(t, m).value;
    ok := EncodeVarint(out, size % U64);
    ghost var b := out.Now();
    if !ok {
      Stop(out.buf == null, out.maxSize, a, b, Some(Varint.Encode(size % U64)), Some(data));
      return;
    }
    ok := EncodeMeasured(out, t, m, size);
    Continue(out.buf == null, out.maxSize, a, b, out.Now(), Varint.Encode(size % U64), ok, Some(data));
  }

  /** The rest of pb_encode_submessage, once the length has been written. */
  method EncodeMeasured(out: OStream, t: Table, m: Memory, size: nat) returns (ok: bool)
    requires out.Valid() && ValidTable(t) && Typed(t, m)
    requires MessageBytes(t, m).Some? && size == |MessageBytes(t, m).value|
    modifies out, out.buf
    ensures out.Valid() && out.Since(old(out.Now()), ok, MessageBytes(t, m))
    decreases t, 7, 0
  {
    if out.buf == null {
      ok := out.Count(size);
      return;
    }
    if out.written + size > out.maxSize {
      return false;
    }
    var substream := new OStream.Sub(out.buf, out.pos, size);
    ok := EncodeMessage(substream, t, m);
    out.written := out.written + substream.written;
    out.pos := substream.pos;
    if substream.written != size {
      return false;
    }
  }

  /** PB_ENCODERS[PB_LTYPE(field->type)] */
  method EncodeValue(out: OStream, f: Field, v: Value) returns (ok: bool)
    requires out.Valid() && ValidField(f) && Holds(f, v)
    modifies out, out.buf
    ensures out.Valid() && out.Since(old(out.Now()), ok, ValueBytes(f, v))
    decreases f, 0
  {
    match f.ltype {
      case Scalar(_) => ok := EncScalar(out, f, v);
      case BytesType => ok := EncBytes(out, f, v);
      case StringType => ok := EncString(out, f, v);
      case Submessage(t) => ok := EncodeSubmessage(out, t, v.cells);
    }
  }

  /** One round of the item loops of encode_array. */
  method EncodeItem(out: OStream, f: Field, v: Value, keyed: bool) returns (ok: bool)
    requires out.Valid() && ValidField(f) && Holds(f, v)
    modifies out, out.buf
    ensures out.Valid()
    ensures out.Since(old(out.Now()), ok, Join(Some(if keyed then FieldKey(f) else []), ValueBytes(f, v)))
    decreases f, 2
  {
    if keyed {
      ok := EncodeRecord(out, f, v);
    } else {
      ok := EncodeValue(out, f, v);
      JoinNothing(ValueBytes(f, v));
    }
  }

  /** Output of items i, i+1, ... */
  function ItemsFrom(f: Field, items: seq<Value>, keyed: bool, i: nat): Option<seq<byte>>
    requires i <= |items| && forall k :: 0 <= k < |items| ==> Holds(f, items[k])
  {
    ItemBytes(f, items[i..], keyed)
  }

  lemma ItemsFromStep(f: Field, items: seq<Value>, keyed: bool, i: nat)
    requires i < |items| && forall k :: 0 <= k < |items| ==> Holds(f, items[k])
    ensures ItemsFrom(f, items, keyed, i)
         == Join(Join(Some(if keyed then FieldKey(f) else []), ValueBytes(f, items[i])),
                 ItemsFrom(f, items, keyed, i + 1))
  {
    var rest := items[i..];
    assert rest[0] == items[i] && rest[1..] == items[i + 1..];
  }

  /** The item loops of encode_array, with or without a key before each item. */
  method EncodeItems(out: OStream, f: Field, items: seq<Value>, keyed: bool) returns (ok: bool)
    requires out.Valid() && ValidField(f) && forall i :: 0 <= i < |items| ==> Holds(f, items[i])
    modifies out, out.buf
    ensures out.Valid() && out.Since(old(out.Now()), ok, ItemBytes(f, items, keyed))
    decreases f, 3, 0
  {
    hide Splice, SameOutside, ValidField, Holds, FieldKey;
    ghost var sizing, max, a := out.buf == null, out.maxSize, out.Now();
    ghost var all := ItemBytes(f, items, keyed);
    ghost var done: seq<byte> := [];
    var i := 0;
    assert items[0..] == items;
    JoinNothing(all);
    Nothing(sizing, max, a);
    while i < |items|
      invariant 0 <= i <= |items| && out.Valid()
      invariant Wrote(sizing, max, a, out.Now(), true, Some(done))
      invariant Join(Some(done), ItemsFrom(f, items, keyed, i)) == all
    {
      ghost var item := Join(Some(if keyed then FieldKey(f) else []), ValueBytes(f, items[i]));
      ghost var rest := ItemsFrom(f, items, keyed, i + 1);
      ghost var b := out.Now();
      ItemsFromStep(f, items, keyed, i);
      JoinAssociative(Some(done), item, rest);
      ok := EncodeItem(out, f, items[i], keyed);
      if !ok {
        StopAfter(sizing, max, a, b, out.Now(), done, item, rest);
        return;
      }
      Continue(sizing, max, a, b, out.Now(), done, true, item);
      done := done + item.value;
      i := i + 1;
    }
    assert ItemsFrom(f, items, keyed, i) == Some([]);
    JoinNothing(Some(done));
    return true;
  }

  /** The size calculation of encode_array for a packed array. */
  method PackedSize(f: Field, items: seq<Value>) returns (ok: bool, size: nat)
    requires ValidField(f) && Packable(f.ltype) && forall i :: 0 <= i < |items| ==> Holds(f, items[i])
    ensures ok == ItemBytes(f, items, false).Some?
    ensures ok ==> size == |ItemBytes(f, items, false).value|
    decreases f, 3, 1
  {
    if f.ltype.kind.Fixed32Type? {
      FixedItems(f, items, 4);
      return true, 4 * |items|;
    }
    if f.ltype.kind.Fixed64Type? {
      FixedItems(f, items, 8);
      return true, 8 * |items|;
    }
    var sizer := new OStream.Sizing();
    ok := EncodeItems(sizer, f, items, false);
    size := sizer.written;
  }

  /** The length and the data of a packed array of the given size. */
  method EncodePackedBody(out: OStream, f: Field, items: seq<Value>, size: nat) returns (ok: bool)
    requires out.Valid() && ValidField(f) && forall i :: 0 <= i < |items| ==> Holds(f, items[i])
    requires ItemBytes(f, items, false).Some? && size == |ItemBytes(f, items, false).value|
    modifies out, out.buf
    ensures out.Valid() && out.Since(old(out.Now()), ok, DelimitedOption(ItemBytes(f, items, false)))
    decreases f, 3, 1
  {
    ghost var sizing, max, a := out.buf == null, out.maxSize, out.Now();
    ghost var body := ItemBytes(f, items, false);
    ok := EncodeVarint(out, size % U64);
    ghost var b := out.Now();
    if !ok {
      Stop(sizing, max, a, b, Some(Varint.Encode(size % U64)), body);
      return;
    }
    if out.buf == null {
      ok := out.Count(size);
      return;
    }
    ok := EncodeItems(out, f, items, false);
    Continue(sizing, max, a, b, out.Now(), Varint.Encode(size % U64), ok, body);
  }

  /** encode_array */
  method EncodeArray(out: OStream, f: Field, items: seq<Value>) returns (ok: bool)
    requires out.Valid() && ValidField(f) && forall i :: 0 <= i < |items| ==> Holds(f, items[i])
    modifies out, out.buf
    ensures out.Valid() && out.Since(old(out.Now()), ok, ArrayBytes(f, items))
    decreases f, 3, 2
  {
    ghost var sizing, max, a := out.buf == null, out.maxSize, out.Now();
    if |items| == 0 {
      Nothing(sizing, max, a);
      return true;
    }
    if |items| > f.arraySize {
      return false;
    }
    if !Packable(f.ltype) {
      ok := EncodeItems(out, f, items, true);
      return;
    }
    ghost var body := DelimitedOption(ItemBytes(f, items, false));
    ok := EncodeTag(out, WT_STRING, f.tag);
    ghost var b := out.Now();
    ghost var key := Key(f.tag, WT_STRING);
    if !ok {
      Stop(sizing, max, a, b, Some(key), body);
      return;
    }
    var size;
    ok, size := PackedSize(f, items);
    if ok {
      ok := EncodePackedBody(out, f, items, size);
    }
    Continue(sizing, max, a, b, out.Now(), key, ok, body);
  }

  /** Packed fixed-width items need no measuring pass. */
  lemma {:induction false} FixedItems(f: Field, items: seq<Value>, width: nat)
    requires f.ltype == Scalar(if width == 4 then Fixed32Type else Fixed64Type) && width in {4, 8}
    requires forall i :: 0 <= i < |items| ==> Holds(f, items[i])
    ensures ItemBytes(f, items, false).Some? && |ItemBytes(f, items, false).value| == width * |items|
    decreases |items|
  {
    if items != [] {
      FixedItems(f, items[1..], width);
    }
  }

  /** encode_callback_field: the only callbacks here write the field's key and a submessage. */
  method EncodeCallbackField(out: OStream, f: Field, s: Slot) returns (ok: bool)
    requires out.Valid() && ValidField(f) && f.atype.Callback? && SlotTyped(f, s)
    modifies out, out.buf
    ensures out.Valid() && out.Since(old(out.Now()), ok, FieldBytes(f, s))
    decreases f, 4
  {
    ghost var sizing, max, a := out.buf == null, out.maxSize, out.Now();
    if s.encode.None? {
      Nothing(sizing, max, a);
      return true;
    }
    ghost var payload := DelimitedOption(MessageBytes(f.ltype.sub, s.encode.value));
    ok := EncodeTagForField(out, f);
    ghost var b := out.Now();
    if !ok {
      Stop(sizing, max, a, b, Some(FieldKey(f)), payload);
      return;
    }
    ok := EncodeSubmessage(out, f.ltype.sub, s.encode.value);
    Continue(sizing, max, a, b, out.Now(), FieldKey(f), ok, payload);
  }

  /** Key and payload of a field that is present. */
  method EncodeRecord(out: OStream, f: Field, v: Value) returns (ok: bool)
    requires out.Valid() && ValidField(f) && Holds(f, v)
    modifies out, out.buf
    ensures out.Valid() && out.Since(old(out.Now()), ok, Record(f, v))
    decreases f, 1
  {
    ghost var sizing, max, a := out.buf == null, out.maxSize, out.Now();
    ok := EncodeTagForField(out, f);
    ghost var b := out.Now();
    if !ok {
      Stop(sizing, max, a, b, Some(FieldKey(f)), ValueBytes(f, v));
      return;
    }
    ok := EncodeValue(out, f, v);
    Continue(sizing, max, a, b, out.Now(), FieldKey(f), ok, ValueBytes(f, v));
  }

  /** encode_basic_field */
  method EncodeBasicField(out: OStream, f: Field, s: Slot) returns (ok: bool)
    requires out.Valid() && ValidField(f) && f.atype.Static? && SlotTyped(f, s)
    modifies out, out.buf
    ensures out.Valid() && out.Since(old(out.Now()), ok, FieldBytes(f, s))
    decreases f, 4
  {
    Nothing(out.buf == null, out.maxSize, out.Now());
    ok := true;
    match f.rule {
      case Required =>
        ok := EncodeRecord(out, f, s.v);
      case Optional =>
        if s.has {
          ok := EncodeRecord(out, f, s.v);
        }
      case Repeated =>
        ok := EncodeArray(out, f, s.items);
      case Oneof =>
        if s.which == f.tag {
          ok := EncodeRecord(out, f, s.v);
        }
    }
  }

  /** encode_field */
  method EncodeField(out: OStream, f: Field, s: Slot) returns (ok: bool)
    requires out.Valid() && ValidField(f) && SlotTyped(f, s)
    modifies out, out.buf
    ensures out.Valid() && out.Since(old(out.Now()), ok, FieldBytes(f, s))
    decreases f, 5
  {
    match f.atype {
      case Static => ok := EncodeBasicField(out, f, s);
      case Callback => ok := EncodeCallbackField(out, f, s);
    }
  }

  lemma FieldsFromStep(t: Table, i: nat, m: Memory)
    requires ValidTable(t) && Typed(t, m) && i < |t|
    ensures t[i].tag != 0 && ValidField(t[i])
    ensures Offset(t, i) in m && SlotTyped(t[i], m[Offset(t, i)])
    ensures FieldsFrom(t, i, m) == Join(FieldBytes(t[i], m[Offset(t, i)]), FieldsFrom(t, i + 1, m))
    ensures FieldsFrom(t, |t|, m) == Some([])
  {
  }

  /** pb_encode */
  method EncodeMessage(out: OStream, t: Table, m: Memory) returns (ok: bool)
    requires out.Valid() && ValidTable(t) && Typed(t, m)
    modifies out, out.buf
    ensures out.Valid() && out.Since(old(out.Now()), ok, MessageBytes(t, m))
    decreases t, 6
  {
    hide Splice, SameOutside, Typed, ValidTable, ValidField, SlotTyped, FieldBytes, FieldsFrom;
    ghost var sizing, max, a := out.buf == null, out.maxSize, out.Now();
    ghost var all, done: seq<byte> := FieldsFrom(t, 0, m), [];
    Nothing(sizing, max, a);
    JoinNothing(all);
    forall i | 0 <= i < |t| ensures t[i].tag != 0 {
      FieldsFromStep(t, i, m);
    }
    var iter := new FieldIter(t);
    var more := t != [];
    if !more {
      Empty(m);
    }
    while more
      invariant out.Valid() && iter.Valid() && fresh(iter) && iter.fields == t
      invariant Wrote(sizing, max, a, out.Now(), true, Some(done))
      invariant more ==> t != [] && Join(Some(done), FieldsFrom(t, iter.pos, m)) == all
      invariant !more ==> all == Some(done)
      decreases if more then |t| - iter.pos else 0
    {
      ghost var b := out.Now();
      ghost var i := iter.pos;
      FieldsFromStep(t, i, m);
      ghost var data, rest := FieldBytes(t[i], m[Offset(t, i)]), FieldsFrom(t, i + 1, m);
      JoinAssociative(Some(done), data, rest);
      ok := EncodeField(out, t[iter.pos], m[iter.dataAt]);
      if !ok {
        StopAfter(sizing, max, a, b, out.Now(), done, data, rest);
        return;
      }
      Continue(sizing, max, a, b, out.Now(), done, true, data);
      done := done + data.value;
      more := iter.Next();
      JoinNothing(Some(done));
    }
    return true;
  }

  lemma Empty(m: Memory)
    ensures FieldsFrom([], 0, m) == Some([])
  {
  }

  /** pb_get_encoded_size */
  method GetEncodedSize(t: Table, m: Memory) returns (ok: bool, size: nat)
    requires ValidTable(t) && Typed(t, m)
    ensures ok == MessageBytes(t, m).Some?
    ensures ok ==> size == |MessageBytes(t, m).value|
  {
    var stream := new OStream.Sizing();
    ok := EncodeMessage(stream, t, m);
    size := stream.written;
  }
}
