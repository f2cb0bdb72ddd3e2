/**
 Field descriptor tables (pb_field_t arrays without their zero-tag terminator) and the
 struct memory they describe. A struct is a map from the offset of a member, as the field
 iterator computes it, to what is stored there; the has_, _count and which_ variable that
 size_offset points to is kept in the same slot as the data it belongs to.
 */
module Schema {
  import opened Bits
  import opened Wrappers

  datatype AllocType = Static | Callback | Pointer
  datatype Rule = Required | Optional | Repeated | Oneof

  datatype ScalarType = VarintType | UVarintType | SVarintType | Fixed32Type | Fixed64Type

  datatype LType =
    | Scalar(kind: ScalarType)
    | BytesType
    | StringType
    | Submessage(sub: Table)
    | Extension

  type Table = seq<Field>

  datatype Field = Field(
    tag: nat,
    atype: AllocType,
    rule: Rule,
    ltype: LType,
    dataOffset: nat,   // relative to the end of the previous field
    sizeOffset: int,   // of has_/_count/which_, relative to the data
    dataSize: nat,     // of a single item
    arraySize: nat,
    init: Option<Value>)

  datatype Value =
    | Int(i: int)                    // every scalar type
    | Bytes(b: seq<byte>)            // pb_bytes_array_t: size and bytes
    | Str(chars: seq<byte>)          // the characters of a char array
    | Msg(cells: Memory)

  datatype Slot =
    | One(v: Value)
    | Opt(has: bool, v: Value)
    | Rep(items: seq<Value>)         // the first _count entries
    | Union(which: nat, v: Value)
    | Hook(encode: Option<Memory>)   // pb_callback_t: NULL, or a function that encodes this submessage

  type Memory = map<int, Slot>

  const PB_SIZE_MAX := 255           // pb_size_t is uint8_t in this configuration
  const PB_MAX_REQUIRED_FIELDS := 64
  const POINTER_SIZE := 4
  const BYTES_HEADER := 1            // offsetof(pb_bytes_array_t, bytes)

  predicate Packable(l: LType) {
    l.Scalar?
  }

  /** Bytes of the struct that the data of field `f` takes up, seen from the next field `g`. */
  function Advance(f: Field, g: Field): nat {
    if f.rule.Oneof? && g.rule.Oneof? then 0
    else if f.atype.Static? && f.rule.Repeated? then f.dataSize * f.arraySize
    else if f.atype.Pointer? then POINTER_SIZE
    else f.dataSize
  }

  /** Offset of the data of field i from the start of the struct. Members of a union
      share the offset of the first one, corrected by their own data_offset. */
  function Offset(t: Table, i: nat): int
    requires i < |t|
    decreases i
  {
    if i == 0 then t[0].dataOffset
    else
      Offset(t, i - 1) + Advance(t[i - 1], t[i]) + t[i].dataOffset
      - (if t[i - 1].rule.Oneof? && t[i].rule.Oneof? then t[i - 1].dataOffset else 0)
  }

  /** Number of required fields among the first i. */
  function RequiredBefore(t: Table, i: nat): (n: nat)
    requires i <= |t|
    ensures n <= i
    decreases i
  {
    if i == 0 then 0
    else RequiredBefore(t, i - 1) + (if t[i - 1].rule.Required? then 1 else 0)
  }

  /** The index of a required field is below every later count. */
  lemma {:induction false} RequiredSteps(t: Table, i: nat, n: nat)
    requires i <= n <= |t|
    ensures RequiredBefore(t, i) <= RequiredBefore(t, n)
    ensures i < n && t[i].rule.Required? ==> RequiredBefore(t, i) < RequiredBefore(t, n)
    decreases n
  {
    if i < n {
      RequiredSteps(t, i, n - 1);
    }
  }

  /** First field with the tag, or |t|. */
  function Find(t: Table, tag: nat): (k: nat)
    ensures k <= |t|
    ensures k < |t| ==> t[k].tag == tag
    ensures forall j :: 0 <= j < k ==> t[j].tag != tag
  {
    FindFrom(t, tag, 0)
  }

  function FindFrom(t: Table, tag: nat, i: nat): (k: nat)
    requires i <= |t|
    ensures i <= k <= |t|
    ensures k < |t| ==> t[k].tag == tag
    ensures forall j :: i <= j < k ==> t[j].tag != tag
    decreases |t| - i
  {
    if i == |t| || t[i].tag == tag then i else FindFrom(t, tag, i + 1)
  }

  function Get(m: Memory, at: int): Slot {
    if at in m then m[at] else Hook(None)
  }

  // ---------- Tables the codec accepts ----------

  predicate DistinctTags(t: Table) {
    forall i, j :: 0 <= i < j < |t| ==> t[i].tag != t[j].tag
  }

  /** Two fields overlap in memory only when both belong to a union. */
  predicate DisjointOffsets(t: Table) {
    forall i, j :: 0 <= i < |t| && 0 <= j < |t| && i != j && Offset(t, i) == Offset(t, j)
                   ==> t[i].rule.Oneof? && t[j].rule.Oneof?
  }

  /** A generated table: tags in 1..255, all different; no extension placeholder; no
      pointer fields (they need PB_ENABLE_MALLOC). */
  predicate ValidTable(t: Table)
    decreases t, 1
  {
    && DistinctTags(t)
    && DisjointOffsets(t)
    && (forall i :: 0 <= i < |t| ==> ValidField(t[i]))
  }

  predicate ValidField(f: Field)
    decreases f, 0
  {
    && 1 <= f.tag <= PB_SIZE_MAX
    && f.dataSize <= PB_SIZE_MAX
    && f.arraySize <= PB_SIZE_MAX
    && !f.atype.Pointer?
    && !f.ltype.Extension?
    && !(f.atype.Callback? && f.rule.Oneof?)  // there is no such descriptor macro
    && (f.ltype.Submessage? ==> ValidTable(f.ltype.sub))
    && (f.ltype.Scalar? ==> WidthOk(f))
    && (f.init.Some? ==> !f.ltype.Submessage? && Holds(f, f.init.value) && Fits(f, f.init.value))
    && (f.ltype.BytesType? ==> f.dataSize >= BYTES_HEADER)
    && (f.ltype.StringType? ==> f.dataSize >= 1)
  }

  predicate WidthOk(f: Field)
    requires f.ltype.Scalar?
  {
    // the fixed-width coders do not look at data_size
    f.ltype.kind.Fixed32Type? || f.ltype.kind.Fixed64Type? || f.dataSize in {1, 2, 4, 8}
  }

  /** The number of values of an unsigned type of the field's width. */
  function Modulus(dataSize: nat): (n: nat)
    ensures n > 0
  {
    if dataSize == 1 then U8
    else if dataSize == 2 then U16
    else if dataSize == 4 then U32
    else U64
  }

  predicate InRange(k: ScalarType, dataSize: nat, i: int) {
    match k
    case VarintType => 0 <= 2 * i + Modulus(dataSize) < 2 * Modulus(dataSize)
    case SVarintType => 0 <= 2 * i + Modulus(dataSize) < 2 * Modulus(dataSize)
    case UVarintType => 0 <= i < Modulus(dataSize)
    case Fixed32Type => 0 <= i < U32
    case Fixed64Type => 0 <= i < U64
  }

  // ---------- Memory that matches a table ----------

  /** The C string held in a character array: what precedes the first NUL. */
  function CString(chars: seq<byte>): (s: seq<byte>)
    ensures |s| <= |chars| && s == chars[..|s|]
    ensures |s| < |chars| ==> chars[|s|] == 0
    ensures forall i :: 0 <= i < |s| ==> s[i] != 0
  {
    if chars == [] || chars[0] == 0 then [] else [chars[0]] + CString(chars[1..])
  }

  /** `v` is what a C object of the field's item type can hold. */
  predicate Holds(f: Field, v: Value)
    decreases f, 0
  {
    match f.ltype
    case Scalar(k) => v.Int? && InRange(k, f.dataSize, v.i)
    case BytesType => v.Bytes? && |v.b| <= PB_SIZE_MAX
    case StringType => v.Str? && |v.chars| <= f.dataSize
    case Submessage(t) => v.Msg? && Typed(t, v.cells)
    case Extension => false
  }

  predicate SlotTyped(f: Field, s: Slot)
    decreases f, 1
  {
    if f.atype.Callback? then
      s.Hook? && (s.encode.Some? ==> f.ltype.Submessage? && Typed(f.ltype.sub, s.encode.value))
    else
      match f.rule
      case Required => s.One? && Holds(f, s.v)
      case Optional => s.Opt? && Holds(f, s.v)
      case Repeated => s.Rep? && |s.items| <= PB_SIZE_MAX && forall i :: 0 <= i < |s.items| ==> Holds(f, s.items[i])
      case Oneof => s.Union? && (s.which == f.tag ==> Holds(f, s.v))
  }

  /** The memory has a slot of the right type for every field. */
  predicate Typed(t: Table, m: Memory)
    decreases t, 2
  {
    forall i :: 0 <= i < |t| ==> Offset(t, i) in m && SlotTyped(t[i], m[Offset(t, i)])
  }

  /** `v` also respects the space reserved for it: this is what the decoder maintains. */
  predicate Fits(f: Field, v: Value)
    decreases f, 0
  {
    match f.ltype
    case Scalar(_) => true
    case BytesType => v.Bytes? && |v.b| + BYTES_HEADER <= f.dataSize
    case StringType => v.Str? && |v.chars| + 1 <= f.dataSize
    case Submessage(t) => v.Msg? && Bounded(t, v.cells)
    case Extension => true
  }

  predicate SlotFits(f: Field, s: Slot)
    decreases f, 1
  {
    if f.atype.Callback? then true
    else
      match f.rule
      case Required => s.One? && Fits(f, s.v)
      case Optional => s.Opt? && Fits(f, s.v)
      case Repeated => s.Rep? && |s.items| <= f.arraySize && forall i :: 0 <= i < |s.items| ==> Fits(f, s.items[i])
      case Oneof => s.Union? && (s.which == f.tag ==> Fits(f, s.v))
  }

  /** No array holds more than array_size entries, no bytes field or string (with its
      terminator) more than data_size bytes, at any depth. */
  predicate Bounded(t: Table, m: Memory)
    decreases t, 2
  {
    forall i :: 0 <= i < |t| ==> Offset(t, i) in m && SlotFits(t[i], m[Offset(t, i)])
  }

  // ---------- Default values ----------

  function DefaultValue(f: Field): Value
    decreases f, 0
  {
    if f.ltype.Submessage? then Msg(Defaults(f.ltype.sub))
    else if f.init.Some? then f.init.value
    else Zero(f.ltype)
  }

  function Zero(l: LType): Value {
    match l
    case Scalar(_) => Int(0)
    case BytesType => Bytes([])
    case StringType => Str([])
    case Submessage(_) => Msg(map[])
    case Extension => Int(0)
  }

  function DefaultSlot(f: Field): Slot
    decreases f, 1
  {
    if f.atype.Callback? then Hook(None)
    else
      match f.rule
      case Required => One(DefaultValue(f))
      case Optional => Opt(false, DefaultValue(f))
      case Repeated => Rep([])
      case Oneof => Union(0, Int(0))  // nothing reads the data of a union whose which_ is 0
  }

  /** All members of a union have the same default. */
  lemma UnionDefault(f: Field)
    requires f.atype.Static? || ValidField(f)
    ensures f.rule.Oneof? ==> DefaultSlot(f) == Union(0, Int(0))
  {
  }

  /** A struct after pb_message_set_to_defaults, its callbacks NULL. */
  function Defaults(t: Table): Memory
    decreases t, 2
  {
    DefaultsUpTo(t, |t|)
  }

  function DefaultsUpTo(t: Table, n: nat): Memory
    requires n <= |t|
    decreases t, 1, n
  {
    if n == 0 then map[]
    else DefaultsUpTo(t, n - 1)[Offset(t, n - 1) := DefaultSlot(t[n - 1])]
  }
}
