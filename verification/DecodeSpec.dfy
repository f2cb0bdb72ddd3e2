/**
 What pb_decode makes of a byte sequence. A parser takes the unread bytes of its stream and
 returns what it read together with the bytes that are still unread.

 A submessage is decoded from a substream. When that decode stops early, at a zero tag, the
 parent continues right there although its own byte budget has already been reduced by the
 whole length: the unread bytes are then a window that lags behind the end of the budget,
 not a suffix (see `AfterSubstream`). `lag` counts by how many bytes; it is 0 unless a
 submessage ended early.
 */
module DecodeSpec {
  import opened Bits
  import opened Schema
  import opened Wrappers
  import opened EncodeSpec
  import Varint

  datatype Parsed<T> = Ok(v: T, rest: seq<byte>, lag: nat := 0) | Fail

  // ---------- Wire primitives ----------

  /** pb_decode_varint */
  function Varint64(s: seq<byte>): (r: Parsed<nat>)
    ensures r.Ok? ==> |r.rest| < |s| && r.v < U64 && r.lag == 0
  {
    match Varint.Groups(s, Varint.LIMIT64)
    case Done(v, used) => Ok(v % U64, s[used..])
    case _ => Fail
  }

  /** pb_decode_varint32 */
  function Varint32(s: seq<byte>): (r: Parsed<nat>)
    ensures r.Ok? ==> |r.rest| < |s| && r.v < U32 && r.lag == 0
  {
    match Varint.Groups(s, Varint.LIMIT32)
    case Done(v, used) => Ok(v % U32, s[used..])
    case _ => Fail
  }

  /** pb_skip_varint */
  function SkipVarint(s: seq<byte>): (r: Parsed<()>)
    ensures r.Ok? ==> |r.rest| < |s| && r.lag == 0
  {
    match Varint.Unlimited(s)
    case Done(v, used) => Ok((), s[used..])
    case _ => Fail
  }

  /** pb_read */
  function Take(s: seq<byte>, n: nat): (r: Parsed<seq<byte>>)
    ensures r.Ok? ==> |r.v| == n && s == r.v + r.rest && r.lag == 0
  {
    if |s| < n then Fail else Ok(s[..n], s[n..])
  }

  /** A 32-bit length and that many bytes. */
  function TakeDelimited(s: seq<byte>): (r: Parsed<seq<byte>>)
    ensures r.Ok? ==> |r.v| + |r.rest| < |s| && r.lag == 0
  {
    match Varint32(s)
    case Fail => Fail
    case Ok(n, r, _) => Take(r, n)
  }

  /** pb_skip_field */
  function SkipField(wireType: nat, s: seq<byte>): (r: Parsed<()>)
    ensures r.Ok? ==> |r.rest| < |s| && r.lag == 0
  {
    if wireType == WT_VARINT then SkipVarint(s)
    else
      var p := if wireType == WT_64BIT then Take(s, 8)
               else if wireType == WT_STRING then TakeDelimited(s)
               else if wireType == WT_32BIT then Take(s, 4)
               else Fail;
      match p
      case Fail => Fail
      case Ok(_, rest, _) => Ok((), rest)
  }

  /** The outcomes of pb_decode_tag. */
  datatype Tag =
    | Tag(number: nat, wireType: nat, rest: seq<byte>)
    | Eof(rest: seq<byte>)   // a zero tag, or the input ran out
    | BadTag

  function DecodeTag(s: seq<byte>): (r: Tag)
    ensures r.Tag? ==> |r.rest| < |s| && r.wireType < 8
    ensures r.Eof? ==> |r.rest| <= |s|
  {
    match Varint.Groups(s, Varint.LIMIT32)
    case Done(v, used) =>
      var t := v % U32;
      if t == 0 then Eof(s[used..]) else Tag(t / 8, t % 8, s[used..])
    case Short => Eof([])
    case Over =>
      // five bytes have been read; if they were the last ones this counts as a clean end
      if |s| == Varint.LIMIT32 then Eof([]) else BadTag
  }

  function FromLittleEndian(s: seq<byte>): nat {
    if s == [] then 0 else s[0] + 256 * FromLittleEndian(s[1..])
  }

  /** Inverse of Zigzag, as pb_decode_svarint computes it. */
  function Unzigzag(w: nat): int {
    if w % 2 == 1 then -(w / 2) - 1 else w / 2
  }

  // ---------- Values ----------

  /** The cast of a decoded word to a signed field of `dataSize` bytes: pb_dec_varint first
      truncates to 32 bits unless the field is 64 bits wide. */
  function SignedField(w: nat, dataSize: nat): int {
    if dataSize == 8 then ToSigned(w, U64) else ToSigned(w, U32)
  }

  function DecodeScalar(f: Field, s: seq<byte>): (r: Parsed<Value>)
    requires f.ltype.Scalar?
    ensures r.Ok? ==> |r.rest| < |s| && r.lag == 0
  {
    match f.ltype.kind
    case Fixed32Type =>
      (match Take(s, 4)
       case Fail => Fail
       case Ok(b, rest, _) => Ok(Int(FromLittleEndian(b)), rest))
    case Fixed64Type =>
      (match Take(s, 8)
       case Fail => Fail
       case Ok(b, rest, _) => Ok(Int(FromLittleEndian(b)), rest))
    case k =>
      match Varint64(s)
      case Fail => Fail
      case Ok(w, rest, _) =>
        var i := ScalarOf(k, f.dataSize, w);
        if WidthOk(f) && InRange(k, f.dataSize, i) then Ok(Int(i), rest) else Fail
  }

  function ScalarOf(k: ScalarType, dataSize: nat, w: nat): int {
    match k
    case VarintType => SignedField(w, dataSize)
    case SVarintType => Unzigzag(w)
    case _ => w
  }

  /** What the parent has left to read after `inner` was decoded up to `unread`, with the
      substream itself lagging behind: its position, but the parent's budget. */
  function AfterSubstream(inner: seq<byte>, unread: seq<byte>, lag: nat, after: seq<byte>): (s: seq<byte>)
    requires |unread| + lag <= |inner|
    ensures |s| == |after|
    ensures unread == [] && lag == 0 ==> s == after
  {
    (inner + after)[|inner| - |unread| - lag..][..|after|]
  }

  /** PB_DECODERS[PB_LTYPE(type)]: `old` is what the destination holds. */
  function DecodeValue(f: Field, s: seq<byte>, old_: Value): (r: Parsed<Value>)
    ensures r.Ok? ==> |r.rest| + r.lag < |s|
    decreases |s|, 1
  {
    match f.ltype
    case Scalar(_) => DecodeScalar(f, s)
    case BytesType =>
      (match Varint32(s)
       case Fail => Fail
       case Ok(n, r, _) =>
         if n > PB_SIZE_MAX || n + BYTES_HEADER > f.dataSize then Fail
         else match Take(r, n)
           case Fail => Fail
           case Ok(b, rest, _) => Ok(Bytes(b), rest))
    case StringType =>
      (match Varint32(s)
       case Fail => Fail
       case Ok(n, r, _) =>
         if n + 1 > f.dataSize then Fail
         else match Take(r, n)
           case Fail => Fail
           case Ok(b, rest, _) => Ok(Str(b), rest))
    case Submessage(t) =>
      (match TakeDelimited(s)
       case Fail => Fail
       case Ok(inner, after, _) =>
         // new array entries are initialised; other submessages are merged into
         var dest := if f.rule.Repeated? || !old_.Msg? then Defaults(t) else old_.cells;
         match DecodeNoInit(t, inner, dest)
         case Fail => Fail
         case Ok(m, unread, lag) => Ok(Msg(m), AfterSubstream(inner, unread, lag, after), |unread| + lag))
    case Extension => Fail
  }

  /** The entries of a packed array, appended to those already there. */
  function DecodePacked(f: Field, s: seq<byte>, items: seq<Value>): (r: Option<seq<Value>>)
    requires f.ltype.Scalar?
    decreases |s|
  {
    if s == [] then Some(items)
    else if |items| >= f.arraySize then None  // array overflow
    else
      match DecodeScalar(f, s)
      case Fail => None
      case Ok(v, rest, _) => DecodePacked(f, rest, items + [v])
  }

  function Items(s: Slot): seq<Value> {
    if s.Rep? then s.items else []
  }

  function OldValue(s: Slot): Value {
    if s.One? || s.Opt? then s.v else Int(0)
  }

  /** decode_field: decode_static_field, or skipping when the field is a NULL callback. */
  function DecodeField(f: Field, wireType: nat, s: seq<byte>, slot: Slot): (r: Parsed<Slot>)
    ensures r.Ok? ==> |r.rest| + r.lag < |s|
    decreases |s|, 2
  {
    if f.atype.Pointer? then Fail
    else if f.atype.Callback? then
      match SkipField(wireType, s)
      case Fail => Fail
      case Ok(_, rest, _) => Ok(slot, rest)
    else
      match f.rule
      case Required =>
        (match DecodeValue(f, s, OldValue(slot))
         case Fail => Fail
         case Ok(v, rest, lag) => Ok(One(v), rest, lag))
      case Optional =>
        (match DecodeValue(f, s, OldValue(slot))
         case Fail => Fail
         case Ok(v, rest, lag) => Ok(Opt(true, v), rest, lag))
      case Repeated =>
        if wireType == WT_STRING && Packable(f.ltype) then
          match TakeDelimited(s)
          case Fail => Fail
          case Ok(inner, rest, _) =>
            match DecodePacked(f, inner, Items(slot))
            case None => Fail
            case Some(items) => Ok(Rep(items), rest)
        else if |Items(slot)| >= f.arraySize then Fail
        else
          (match DecodeValue(f, s, Int(0))
           case Fail => Fail
           case Ok(v, rest, lag) => Ok(Rep(Items(slot) + [v]), rest, lag))
      case Oneof =>
        // a submessage in a union is reset first
        (match DecodeValue(f, s, DefaultValue(f))
         case Fail => Fail
         case Ok(v, rest, lag) => Ok(Union(f.tag, v), rest, lag))
  }

  // ---------- Messages ----------

  /** The state of the loop of pb_decode_noinit when it ends without an error. */
  datatype Loop = Loop(m: Memory, rest: seq<byte>, seen: set<nat>, lag: nat := 0) | Broken

  /** The indices whose bit is set in fields_seen after the field was met. */
  function Mark(t: Table, i: nat, seen: set<nat>): set<nat>
    requires i < |t|
  {
    if t[i].rule.Required? && RequiredBefore(t, i) < PB_MAX_REQUIRED_FIELDS
    then seen + {RequiredBefore(t, i)}
    else seen
  }

  /** `lag` is that of the rounds before. */
  function DecodeLoop(t: Table, s: seq<byte>, m: Memory, seen: set<nat>, lag: nat := 0): (r: Loop)
    ensures r.Loop? ==> |r.rest| + r.lag <= |s| + lag
    decreases |s|, 3
  {
    if s == [] then Loop(m, [], seen, lag)
    else
      match DecodeTag(s)
      case Eof(rest) => Loop(m, rest, seen, lag)
      case BadTag => Broken
      case Tag(number, wireType, r) =>
        var i := Find(t, number);
        if i == |t| then
          // on an empty table the terminator passes for a required field with tag 0 and
          // data_size 0, which no varint fits
          if t == [] && number == 0 then Broken
          else
            match SkipField(wireType, r)
            case Fail => Broken
            case Ok(_, rest, _) => DecodeLoop(t, rest, m, seen, lag)
        else
          match DecodeField(t[i], wireType, r, Get(m, Offset(t, i)))
          case Fail => Broken
          case Ok(slot, rest, d) => DecodeLoop(t, rest, m[Offset(t, i) := slot], Mark(t, i, seen), lag + d)
  }

  function RequiredCount(t: Table): nat {
    RequiredBefore(t, |t|)
  }

  /** Every required field was met. */
  predicate AllSeen(t: Table, seen: set<nat>) {
    forall i :: 0 <= i < RequiredCount(t) ==> i in seen
  }

  /** pb_decode_noinit */
  function DecodeNoInit(t: Table, s: seq<byte>, m: Memory): (r: Parsed<Memory>)
    ensures r.Ok? ==> |r.rest| + r.lag <= |s|
    decreases |s|, 4
  {
    match DecodeLoop(t, s, m, {})
    case Broken => Fail
    case Loop(m', rest, seen, lag) => if AllSeen(t, seen) then Ok(m', rest, lag) else Fail
  }

  /** pb_decode */
  function DecodeMessage(t: Table, s: seq<byte>): Parsed<Memory> {
    DecodeNoInit(t, s, Defaults(t))
  }

  /** The final check of pb_decode_noinit is defined: it shifts by 32 when the number of
      required fields is a multiple of 32, and has room for 64 of them. */
  predicate CheckableTable(t: Table)
    decreases t, 1
  {
    && RequiredCount(t) < PB_MAX_REQUIRED_FIELDS
    && (RequiredCount(t) == 0 || RequiredCount(t) % 32 != 0)
    && forall i :: 0 <= i < |t| ==> CheckableField(t[i])
  }

  predicate CheckableField(f: Field)
    decreases f, 0
  {
    f.ltype.Submessage? ==> CheckableTable(f.ltype.sub)
  }
}
