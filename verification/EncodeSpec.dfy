/**
 What pb_encode writes: the bytes of a message as a function of its table and memory.
 `None` stands for the errors that do not depend on the stream (array count over
 array_size, bytes over data_size, an invalid data_size).
 */
module EncodeSpec {
  import opened Bits
  import opened Schema
  import opened Wrappers
  import Varint

  /** Two pieces of output in sequence; an error in either is an error. */
  function Join(a: Option<seq<byte>>, b: Option<seq<byte>>): Option<seq<byte>> {
    if a.Some? && b.Some? then Some(a.value + b.value) else None
  }

  lemma JoinAssociative(a: Option<seq<byte>>, b: Option<seq<byte>>, c: Option<seq<byte>>)
    ensures Join(Join(a, b), c) == Join(a, Join(b, c))
  {
    if a.Some? && b.Some? && c.Some? {
      assert (a.value + b.value) + c.value == a.value + (b.value + c.value);
    }
  }

  lemma JoinNothing(a: Option<seq<byte>>)
    ensures Join(Some([]), a) == a == Join(a, Some([]))
  {
    if a.Some? {
      assert [] + a.value == a.value == a.value + [];
    }
  }

  const WT_VARINT := 0
  const WT_64BIT := 1
  const WT_STRING := 2
  const WT_32BIT := 5

  function WireType(l: LType): (w: nat)
    ensures w < 8
  {
    match l
    case Scalar(Fixed32Type) => WT_32BIT
    case Scalar(Fixed64Type) => WT_64BIT
    case Scalar(_) => WT_VARINT
    case _ => WT_STRING
  }

  /** A field key: tag number and wire type in one varint. */
  function Key(tag: nat, wireType: nat): seq<byte>
    requires wireType < 8
  {
    Varint.Encode(tag * 8 + wireType)
  }

  function FieldKey(f: Field): seq<byte> {
    Key(f.tag, WireType(f.ltype))
  }

  /** Length-delimited payload; the length is cast to uint64_t. */
  function Delimited(s: seq<byte>): seq<byte> {
    Varint.Encode(|s| % U64) + s
  }

  /** Zigzag: 0, -1, 1, -2, ... become 0, 1, 2, 3, ... */
  function Zigzag(i: int): int {
    if i < 0 then -2 * i - 1 else 2 * i
  }

  /** Little-endian bytes of a fixed-width word. */
  function LittleEndian(v: nat, n: nat): (s: seq<byte>)
    ensures |s| == n
    decreases n
  {
    if n == 0 then [] else [v % 256] + LittleEndian(v / 256, n - 1)
  }

  function ScalarBytes(k: ScalarType, i: int): seq<byte>
    requires i >= 0 || k in {VarintType, SVarintType}
  {
    match k
    case VarintType => Varint.Encode(i % U64)
    case UVarintType => Varint.Encode(i)
    case SVarintType => Varint.Encode(Zigzag(i))
    case Fixed32Type => LittleEndian(i, 4)
    case Fixed64Type => LittleEndian(i, 8)
  }

  function DelimitedOption(s: Option<seq<byte>>): Option<seq<byte>> {
    if s.Some? then Some(Delimited(s.value)) else None
  }

  /** The payload of one item, without its key. */
  function ValueBytes(f: Field, v: Value): Option<seq<byte>>
    requires Holds(f, v)
    decreases f, 1
  {
    match f.ltype
    case Scalar(k) => if WidthOk(f) then Some(ScalarBytes(k, v.i)) else None
    case BytesType => if |v.b| + BYTES_HEADER > f.dataSize then None else Some(Delimited(v.b))
    case StringType => Some(Delimited(CString(v.chars)))
    case Submessage(t) =>
      DelimitedOption(MessageBytes(t, v.cells))
    case Extension => None
  }

  /** Payloads of consecutive items, each preceded by the field's key unless packed. */
  function ItemBytes(f: Field, items: seq<Value>, keyed: bool): Option<seq<byte>>
    requires forall i :: 0 <= i < |items| ==> Holds(f, items[i])
    decreases f, 2, |items|
  {
    if items == [] then Some([])
    else
      var key := if keyed then FieldKey(f) else [];
      Join(Join(Some(key), ValueBytes(f, items[0])), ItemBytes(f, items[1..], keyed))
  }

  function ArrayBytes(f: Field, items: seq<Value>): Option<seq<byte>>
    requires forall i :: 0 <= i < |items| ==> Holds(f, items[i])
    decreases f, 3
  {
    if items == [] then Some([])
    else if |items| > f.arraySize then None
    else if Packable(f.ltype) then
      Join(Some(Key(f.tag, WT_STRING)), DelimitedOption(ItemBytes(f, items, false)))
    else ItemBytes(f, items, true)
  }

  /** Key and payload of a single item. */
  function Record(f: Field, v: Value): Option<seq<byte>>
    requires Holds(f, v)
    decreases f, 2
  {
    Join(Some(FieldKey(f)), ValueBytes(f, v))
  }

  /** Everything one table entry contributes. */
  function FieldBytes(f: Field, s: Slot): Option<seq<byte>>
    requires SlotTyped(f, s)
    decreases f, 4
  {
    if f.atype.Callback? then
      (match s.encode
       case None => Some([])
       case Some(m) => Join(Some(FieldKey(f)), DelimitedOption(MessageBytes(f.ltype.sub, m))))
    else
      match f.rule
      case Required => Record(f, s.v)
      case Optional => if s.has then Record(f, s.v) else Some([])
      case Repeated => ArrayBytes(f, s.items)
      case Oneof => if s.which == f.tag then Record(f, s.v) else Some([])
  }

  function MessageBytes(t: Table, m: Memory): Option<seq<byte>>
    requires Typed(t, m)
    decreases t, 6
  {
    FieldsFrom(t, 0, m)
  }

  /** The bytes of fields i, i+1, ... in table order. */
  function FieldsFrom(t: Table, i: nat, m: Memory): Option<seq<byte>>
    requires i <= |t| && Typed(t, m)
    decreases t, 5, |t| - i
  {
    if i == |t| then Some([])
    else
      Join(FieldBytes(t[i], m[Offset(t, i)]), FieldsFrom(t, i + 1, m))
  }
}
