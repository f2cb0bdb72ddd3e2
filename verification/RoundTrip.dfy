/**
 pb_decode undoes pb_encode. For every table of static fields and every message in memory,
 decoding the encoded bytes succeeds exactly when every string that was written leaves room
 for its terminator, and then it consumes all bytes and yields the normal form of the
 message: absent fields at their defaults, strings cut at their NUL.
 */
module RoundTrip {
  import opened Bits
  import opened Schema
  import opened Wrappers
  import opened EncodeSpec
  import opened DecodeSpec
  import opened ScalarCodec
  import Varint

  predicate StaticTable(t: Table)
    decreases t, 1
  {
    forall i :: 0 <= i < |t| ==> StaticField(t[i])
  }

  predicate StaticField(f: Field)
    decreases f, 0
  {
    f.atype.Static? && (f.ltype.Submessage? ==> StaticTable(f.ltype.sub))
  }

  /** The tables of the theorem: generated, without callbacks, and with a number of required
      fields that the final check can handle. */
  predicate Usable(t: Table) {
    ValidTable(t) && StaticTable(t) && CheckableTable(t)
  }

  predicate UsableField(f: Field) {
    ValidField(f) && StaticField(f) && CheckableField(f)
  }

  lemma UsableFields(t: Table, i: nat)
    requires Usable(t) && i < |t|
    ensures UsableField(t[i])
    ensures t[i].ltype.Submessage? ==> Usable(t[i].ltype.sub)
  {
  }

  // ---------- Normal form ----------

  function NormValue(f: Field, v: Value): Value
    requires Holds(f, v)
    decreases f, 0
  {
    match f.ltype
    case StringType => Str(CString(v.chars))
    case Submessage(t) => Msg(Norm(t, v.cells))
    case _ => v
  }

  function NormItems(f: Field, items: seq<Value>): (r: seq<Value>)
    requires forall i :: 0 <= i < |items| ==> Holds(f, items[i])
    ensures |r| == |items|
    decreases f, 1, |items|
  {
    if items == [] then [] else [NormValue(f, items[0])] + NormItems(f, items[1..])
  }

  /** The field is written. */
  predicate Present(f: Field, s: Slot)
    requires SlotTyped(f, s)
  {
    !f.atype.Callback? &&
    match f.rule
    case Required => true
    case Optional => s.has
    case Repeated => s.items != []
    case Oneof => s.which == f.tag
  }

  function NormSlot(f: Field, s: Slot): Slot
    requires SlotTyped(f, s) && Present(f, s)
    decreases f, 2
  {
    match f.rule
    case Required => One(NormValue(f, s.v))
    case Optional => Opt(true, NormValue(f, s.v))
    case Repeated => Rep(NormItems(f, s.items))
    case Oneof => Union(f.tag, NormValue(f, s.v))
  }

  /** The struct after the first n fields have been decoded. */
  function Image(t: Table, n: nat, m: Memory): Memory
    requires Typed(t, m) && n <= |t|
    decreases t, 3, n
  {
    if n == 0 then Defaults(t)
    else
      var before := Image(t, n - 1, m);
      var at := Offset(t, n - 1);
      if Present(t[n - 1], m[at]) then before[at := NormSlot(t[n - 1], m[at])] else before
  }

  function Norm(t: Table, m: Memory): Memory
    requires Typed(t, m)
    decreases t, 4
  {
    Image(t, |t|, m)
  }

  // ---------- Strings that leave room for their terminator ----------

  predicate Terminated(f: Field, v: Value)
    requires Holds(f, v)
    decreases f, 0
  {
    match f.ltype
    case StringType => |CString(v.chars)| < f.dataSize
    case Submessage(t) => TerminatedFrom(t, 0, v.cells)
    case _ => true
  }

  predicate TerminatedItems(f: Field, items: seq<Value>)
    requires forall i :: 0 <= i < |items| ==> Holds(f, items[i])
    decreases f, 1
  {
    forall i :: 0 <= i < |items| ==> Terminated(f, items[i])
  }

  predicate TerminatedSlot(f: Field, s: Slot)
    requires SlotTyped(f, s)
    decreases f, 2
  {
    if f.atype.Callback? then true
    else
    match f.rule
    case Repeated => TerminatedItems(f, s.items)
    case _ => Present(f, s) ==> Terminated(f, s.v)
  }

  /** Every string written by fields i, i+1, ... at any depth is terminated in memory. */
  predicate TerminatedFrom(t: Table, i: nat, m: Memory)
    requires Typed(t, m)
    decreases t, 3, |t| - i
  {
    i < |t| ==> TerminatedSlot(t[i], m[Offset(t, i)]) && TerminatedFrom(t, i + 1, m)
  }

  // ---------- One record ----------

  lemma KeyOk(t: Table, i: nat, wireType: nat, x: seq<byte>)
    requires DistinctTags(t) && i < |t| && 1 <= t[i].tag <= PB_SIZE_MAX && wireType < 8
    ensures DecodeTag(Key(t[i].tag, wireType) + x) == Tag(t[i].tag, wireType, x)
    ensures Find(t, t[i].tag) == i
  {
    hide Varint.Encode, Varint.Groups, ValidTable, DisjointOffsets;
    Varint.RoundTrip32(t[i].tag * 8 + wireType, x);
  }

  /** One round of the decoding loop on a field of the table. */
  lemma OneRound(t: Table, i: nat, wireType: nat, p: seq<byte>, m: Memory, seen: set<nat>)
    requires ValidTable(t) && i < |t| && wireType < 8
    ensures DecodeLoop(t, Key(t[i].tag, wireType) + p, m, seen)
         == match DecodeField(t[i], wireType, p, Get(m, Offset(t, i)))
            case Fail => Broken
            case Ok(slot, rest, lag) => DecodeLoop(t, rest, m[Offset(t, i) := slot], Mark(t, i, seen), lag)
  {
    KeyOk(t, i, wireType, p);
  }

  /** Decoding the payload of one item; `old_` is what the destination holds. */
  lemma {:induction false} ValueOk(f: Field, v: Value, old_: Value, x: seq<byte>)
    requires UsableField(f) && (f.ltype.Submessage? ==> Usable(f.ltype.sub))
    requires Holds(f, v) && ValueBytes(f, v).Some? && |ValueBytes(f, v).value| < U32
    requires f.ltype.Submessage? ==> f.rule.Repeated? || old_ == DefaultValue(f)
    ensures DecodeValue(f, ValueBytes(f, v).value + x, old_)
         == if Terminated(f, v) then Ok(NormValue(f, v), x) else Fail
    decreases f, 1
  {
    match f.ltype {
      case Scalar(k) =>
        hide ValueBytes, DecodeScalar;
        ScalarItem(f, v, x);
      case BytesType =>
        hide Delimited, Take;
        LengthOk(v.b, x);
      case StringType =>
        hide Delimited, Take;
        LengthOk(CString(v.chars), x);
      case Submessage(t) =>
        SubmessageOk(f, v, old_, x);
    }
  }

  lemma {:induction false} SubmessageOk(f: Field, v: Value, old_: Value, x: seq<byte>)
    requires f.ltype.Submessage? && Usable(f.ltype.sub)
    requires Holds(f, v) && ValueBytes(f, v).Some? && |ValueBytes(f, v).value| < U32
    requires f.rule.Repeated? || old_ == DefaultValue(f)
    ensures DecodeValue(f, ValueBytes(f, v).value + x, old_)
         == if Terminated(f, v) then Ok(NormValue(f, v), x) else Fail
    decreases f, 0
  {
    hide Delimited, TakeDelimited, DecodeNoInit, Usable;
    var inner := MessageBytes(f.ltype.sub, v.cells).value;
    Longer(inner);
    LengthOk(inner, x);
    MessageOk(f.ltype.sub, v.cells);
  }

  lemma Longer(b: seq<byte>)
    ensures |b| < |Delimited(b)|
  {
  }

  // ---------- Arrays ----------

  lemma ScalarItem(f: Field, v: Value, x: seq<byte>)
    requires UsableField(f) && f.ltype.Scalar? && Holds(f, v)
    ensures ValueBytes(f, v).Some? && ValueBytes(f, v).value != []
    ensures DecodeScalar(f, ValueBytes(f, v).value + x) == Ok(v, x)
    ensures NormValue(f, v) == v && Terminated(f, v)
  {
    hide DecodeScalar, Varint.Encode, LittleEndian;
    ScalarRoundTrip(f, v.i, x);
  }

  lemma {:induction false} PackedOk(f: Field, items: seq<Value>, prior: seq<Value>)
    requires UsableField(f) && f.ltype.Scalar? && |prior| + |items| <= f.arraySize
    requires forall i :: 0 <= i < |items| ==> Holds(f, items[i])
    requires ItemBytes(f, items, false).Some?
    ensures DecodePacked(f, ItemBytes(f, items, false).value, prior) == Some(prior + items)
    ensures NormItems(f, items) == items && TerminatedItems(f, items)
    decreases |items|
  {
    hide ValueBytes, ScalarBytes, DecodeScalar, Holds, UsableField, NormValue, Terminated;
    if items == [] {
      assert prior + items == prior;
    } else {
      var a, b := ValueBytes(f, items[0]).value, ItemBytes(f, items[1..], false).value;
      JoinNothing(Some(a));
      ScalarItem(f, items[0], b);
      PackedOk(f, items[1..], prior + [items[0]]);
      assert prior + [items[0]] + items[1..] == prior + items;
      TerminatedSplit(f, items);
    }
  }

  /** One record of an array that is not packed appends its item. */
  lemma ItemRound(t: Table, i: nat, v: Value, prior: seq<Value>, x: seq<byte>, m: Memory, seen: set<nat>)
    requires Usable(t) && i < |t| && t[i].rule.Repeated? && !t[i].ltype.Scalar?
    requires Holds(t[i], v) && ValueBytes(t[i], v).Some? && |ValueBytes(t[i], v).value| < U32
    requires |prior| < t[i].arraySize && Get(m, Offset(t, i)) == Rep(prior)
    ensures DecodeLoop(t, FieldKey(t[i]) + (ValueBytes(t[i], v).value + x), m, seen)
         == if Terminated(t[i], v)
            then DecodeLoop(t, x, m[Offset(t, i) := Rep(prior + [NormValue(t[i], v)])], seen)
            else Broken
    decreases t[i], 2, 0
  {
    hide DecodeLoop, DecodeValue, Terminated, Varint.Encode, ValueBytes;
    UsableFields(t, i);
    OneRound(t, i, WireType(t[i].ltype), ValueBytes(t[i], v).value + x, m, seen);
    ValueOk(t[i], v, Int(0), x);
  }

  /** Consecutive records of an array that is not packed append their items. */
  lemma {:induction false} UnpackedOk(t: Table, i: nat, items: seq<Value>, prior: seq<Value>, x: seq<byte>,
                                      m: Memory, seen: set<nat>)
    requires Usable(t) && i < |t| && t[i].rule.Repeated? && !t[i].ltype.Scalar?
    requires forall k :: 0 <= k < |items| ==> Holds(t[i], items[k])
    requires ItemBytes(t[i], items, true).Some? && |ItemBytes(t[i], items, true).value| < U32
    requires |prior| + |items| <= t[i].arraySize
    requires Offset(t, i) in m && m[Offset(t, i)] == Rep(prior)
    ensures DecodeLoop(t, ItemBytes(t[i], items, true).value + x, m, seen)
         == if TerminatedItems(t[i], items)
            then DecodeLoop(t, x, m[Offset(t, i) := Rep(prior + NormItems(t[i], items))], seen)
            else Broken
    decreases t[i], 2, |items|
  {
    hide DecodeLoop, DecodeValue, Terminated, Varint.Encode, ValueBytes, Usable, Holds;
    var f, at := t[i], Offset(t, i);
    if items == [] {
      assert prior + NormItems(f, items) == prior;
      assert m[at := Rep(prior)] == m;
      assert ItemBytes(f, items, true).value + x == x;
    } else {
      var a, b := ValueBytes(f, items[0]).value, ItemBytes(f, items[1..], true).value;
      assert ItemBytes(f, items, true).value == FieldKey(f) + a + b;
      assert ItemBytes(f, items, true).value + x == FieldKey(f) + (a + (b + x));
      ItemRound(t, i, items[0], prior, b + x, m, seen);
      TerminatedSplit(f, items);
      if Terminated(f, items[0]) {
        var next := prior + [NormValue(f, items[0])];
        var m' := m[at := Rep(next)];
        UnpackedOk(t, i, items[1..], next, x, m', seen);
        assert next + NormItems(f, items[1..]) == prior + NormItems(f, items);
        assert m'[at := Rep(prior + NormItems(f, items))] == m[at := Rep(prior + NormItems(f, items))];
      }
    }
  }

  lemma TerminatedSplit(f: Field, items: seq<Value>)
    requires items != [] && forall k :: 0 <= k < |items| ==> Holds(f, items[k])
    ensures TerminatedItems(f, items) <==> Terminated(f, items[0]) && TerminatedItems(f, items[1..])
  {
    if Terminated(f, items[0]) && TerminatedItems(f, items[1..]) {
      forall k | 0 <= k < |items|
        ensures Terminated(f, items[k])
      {
        if k > 0 {
          assert items[k] == items[1..][k - 1];
        }
      }
    } else if TerminatedItems(f, items) {
      forall k | 0 <= k < |items[1..]|
        ensures Terminated(f, items[1..][k])
      {
        assert items[1..][k] == items[k + 1];
      }
    }
  }

  lemma PackedRound(t: Table, i: nat, s: Slot, x: seq<byte>, m: Memory, seen: set<nat>)
    requires Usable(t) && i < |t| && t[i].rule.Repeated? && t[i].ltype.Scalar?
    requires SlotTyped(t[i], s) && Present(t[i], s)
    requires FieldBytes(t[i], s).Some? && |FieldBytes(t[i], s).value| < U32
    requires Get(m, Offset(t, i)) == Rep([])
    ensures TerminatedSlot(t[i], s) && NormSlot(t[i], s) == s
    ensures DecodeLoop(t, FieldBytes(t[i], s).value + x, m, seen)
         == DecodeLoop(t, x, m[Offset(t, i) := s], Mark(t, i, seen))
  {
    hide DecodeLoop, Varint.Encode, ItemBytes, NormItems, TerminatedItems, DisjointOffsets, DistinctTags;
    UsableFields(t, i);
    var f := t[i];
    assert FieldBytes(f, s) == ArrayBytes(f, s.items);
    var body := ItemBytes(f, s.items, false).value;
    assert FieldBytes(f, s).value + x == Key(f.tag, WT_STRING) + (Delimited(body) + x);
    OneRound(t, i, WT_STRING, Delimited(body) + x, m, seen);
    LengthOk(body, x);
    PackedOk(f, s.items, []);
    assert [] + s.items == s.items;
  }

  /** Everything a present field wrote is decoded into its normal form, provided the
      destination still holds its default. */
  lemma FieldRound(t: Table, i: nat, s: Slot, x: seq<byte>, m: Memory, seen: set<nat>)
    requires Usable(t) && i < |t| && SlotTyped(t[i], s) && Present(t[i], s)
    requires FieldBytes(t[i], s).Some? && |FieldBytes(t[i], s).value| < U32
    requires t[i].rule.Oneof? || (Offset(t, i) in m && m[Offset(t, i)] == DefaultSlot(t[i]))
    ensures DecodeLoop(t, FieldBytes(t[i], s).value + x, m, seen)
         == if TerminatedSlot(t[i], s)
            then DecodeLoop(t, x, m[Offset(t, i) := NormSlot(t[i], s)], Mark(t, i, seen))
            else Broken
    decreases t[i], 3
  {
    hide DecodeLoop, DecodeValue, Varint.Encode, ValueBytes, Terminated, NormValue;
    UsableFields(t, i);
    var f := t[i];
    if f.rule.Repeated? {
      if f.ltype.Scalar? {
        PackedRound(t, i, s, x, m, seen);
      } else {
        assert [] + NormItems(f, s.items) == NormItems(f, s.items);
        UnpackedOk(t, i, s.items, [], x, m, seen);
      }
    } else {
      SingleRound(t, i, s, x, m, seen);
    }
  }

  lemma {:induction false} SingleRound(t: Table, i: nat, s: Slot, x: seq<byte>, m: Memory, seen: set<nat>)
    requires Usable(t) && i < |t| && SlotTyped(t[i], s) && Present(t[i], s) && !t[i].rule.Repeated?
    requires FieldBytes(t[i], s).Some? && |FieldBytes(t[i], s).value| < U32
    requires t[i].rule.Oneof? || (Offset(t, i) in m && m[Offset(t, i)] == DefaultSlot(t[i]))
    ensures DecodeLoop(t, FieldBytes(t[i], s).value + x, m, seen)
         == if TerminatedSlot(t[i], s)
            then DecodeLoop(t, x, m[Offset(t, i) := NormSlot(t[i], s)], Mark(t, i, seen))
            else Broken
    decreases t[i], 2
  {
    hide DecodeLoop, DecodeValue, Varint.Encode, ValueBytes, Terminated, NormValue, Offset, Holds,
         DefaultValue, DistinctTags, DisjointOffsets;
    UsableFields(t, i);
    var f := t[i];
    var a := ValueBytes(f, s.v).value;
    assert FieldBytes(f, s) == Record(f, s.v);
    assert FieldBytes(f, s).value + x == FieldKey(f) + (a + x);
    OneRound(t, i, WireType(f.ltype), a + x, m, seen);
    var old_ := if f.rule.Oneof? then DefaultValue(f) else OldValue(m[Offset(t, i)]);
    ValueOk(f, s.v, old_, x);
  }

  // ---------- Whole messages ----------

  /** Defaults hold a slot for every field, and the field's own default; in a union all
      members agree on it, unless a callback shares the memory. */
  lemma {:induction false} DefaultsAt(t: Table, n: nat, j: nat)
    requires DisjointOffsets(t) && j < n <= |t|
    ensures Offset(t, j) in DefaultsUpTo(t, n)
    ensures !t[j].rule.Oneof? || (forall k :: 0 <= k < |t| ==> t[k].atype.Static? || ValidField(t[k])) ==>
              DefaultsUpTo(t, n)[Offset(t, j)] == DefaultSlot(t[j])
    decreases n
  {
    hide Offset, DefaultSlot, ValidField;
    if j < n - 1 {
      DefaultsAt(t, n - 1, j);
      if (t[j].atype.Static? || ValidField(t[j])) && (t[n - 1].atype.Static? || ValidField(t[n - 1])) {
        UnionDefault(t[j]);
        UnionDefault(t[n - 1]);
      }
      assert Offset(t, n - 1) == Offset(t, j) ==> t[n - 1].rule.Oneof? && t[j].rule.Oneof?;
    }
  }

  /** A field that has not been decoded yet is still at its default. */
  lemma {:induction false} ImageAt(t: Table, n: nat, m: Memory, j: nat)
    requires DisjointOffsets(t) && Typed(t, m) && n <= j < |t|
    ensures Offset(t, j) in Image(t, n, m)
    ensures !t[j].rule.Oneof? ==> Image(t, n, m)[Offset(t, j)] == DefaultSlot(t[j])
    decreases n
  {
    hide DefaultSlot, Typed, Offset;
    if n == 0 {
      DefaultsAt(t, |t|, j);
      ImageStart(t, m);
    } else {
      ImageAt(t, n - 1, m, j);
      Apart(t, n - 1, j);
      hide Image, DisjointOffsets;
      ImageStep(t, n - 1, m, Offset(t, j));
    }
  }

  lemma ImageStart(t: Table, m: Memory)
    requires Typed(t, m)
    ensures Image(t, 0, m) == DefaultsUpTo(t, |t|)
  {
    hide Typed;
  }

  lemma ImageUnfold(t: Table, n: nat, m: Memory)
    requires Typed(t, m) && n < |t|
    ensures Offset(t, n) in m && SlotTyped(t[n], m[Offset(t, n)])
    ensures Image(t, n + 1, m)
         == if Present(t[n], m[Offset(t, n)])
            then Image(t, n, m)[Offset(t, n) := NormSlot(t[n], m[Offset(t, n)])]
            else Image(t, n, m)
  {
    TypedAt(t, n, m);
    hide Typed, NormSlot, SlotTyped, Present, Offset;
  }

  /** Decoding field n changes no slot but its own. */
  lemma ImageStep(t: Table, n: nat, m: Memory, at: int)
    requires Typed(t, m) && n < |t| && at in Image(t, n, m)
    ensures at in Image(t, n + 1, m)
    ensures at != Offset(t, n) ==> Image(t, n + 1, m)[at] == Image(t, n, m)[at]
  {
    hide Typed, NormSlot, SlotTyped, Present, Offset, Image;
    ImageUnfold(t, n, m);
  }

  lemma Apart(t: Table, i: nat, j: nat)
    requires DisjointOffsets(t) && i < j < |t|
    ensures !t[j].rule.Oneof? ==> Offset(t, i) != Offset(t, j)
  {
    hide Offset;
  }

  /** fields_seen after the fields i, i+1, ... of the message have been met. */
  function SeenFrom(t: Table, i: nat, m: Memory, seen: set<nat>): set<nat>
    requires i <= |t| && Typed(t, m)
    decreases |t| - i
  {
    if i == |t| then seen
    else SeenFrom(t, i + 1, m, if Present(t[i], m[Offset(t, i)]) then Mark(t, i, seen) else seen)
  }

  lemma TypedAt(t: Table, i: nat, m: Memory)
    requires Typed(t, m) && i < |t|
    ensures Offset(t, i) in m && SlotTyped(t[i], m[Offset(t, i)])
  {
    hide SlotTyped;
  }

  lemma FieldsFromUnfold(t: Table, i: nat, m: Memory)
    requires Typed(t, m) && i < |t| && Offset(t, i) in m && SlotTyped(t[i], m[Offset(t, i)])
    ensures FieldsFrom(t, i, m) == Join(FieldBytes(t[i], m[Offset(t, i)]), FieldsFrom(t, i + 1, m))
  {
    hide Typed, SlotTyped, FieldBytes, Join;
  }

  lemma RequiredPresent(f: Field, s: Slot)
    requires f.atype.Static? && f.rule.Required? && SlotTyped(f, s)
    ensures Present(f, s)
  {
  }

  /** Facts about field i of a usable table and of a struct that matches it. */
  lemma FieldFacts(t: Table, i: nat, m: Memory)
    requires Usable(t) && Typed(t, m) && i < |t|
    ensures DisjointOffsets(t) && t[i].atype.Static? && ValidField(t[i])
    ensures Offset(t, i) in m && SlotTyped(t[i], m[Offset(t, i)])
    ensures t[i].rule.Required? ==> Present(t[i], m[Offset(t, i)])
    ensures FieldsFrom(t, i, m) == Join(FieldBytes(t[i], m[Offset(t, i)]), FieldsFrom(t, i + 1, m))
  {
    TypedAt(t, i, m);
    hide Typed, SlotTyped, FieldBytes, FieldsFrom, DisjointOffsets, DistinctTags, Present, Join;
    UsableFields(t, i);
    FieldsFromUnfold(t, i, m);
    if t[i].rule.Required? {
      RequiredPresent(t[i], m[Offset(t, i)]);
    }
  }

  /** Marking field i, when it is required, covers one more required index. */
  lemma MarkCovers(t: Table, i: nat, seen: set<nat>)
    requires i < |t| && RequiredCount(t) < PB_MAX_REQUIRED_FIELDS
    requires forall r :: 0 <= r < RequiredBefore(t, i) ==> r in seen
    ensures forall r :: 0 <= r < RequiredBefore(t, i + 1) ==> r in Mark(t, i, seen)
  {
    RequiredSteps(t, i, |t|);
  }

  lemma {:induction false} SeenAll(t: Table, i: nat, m: Memory, seen: set<nat>)
    requires Usable(t) && Typed(t, m) && i <= |t| && RequiredCount(t) < PB_MAX_REQUIRED_FIELDS
    requires forall r :: 0 <= r < RequiredBefore(t, i) ==> r in seen
    ensures AllSeen(t, SeenFrom(t, i, m, seen))
    decreases |t| - i
  {
    hide Usable, Typed, SlotTyped, Present, Offset;
    if i < |t| {
      FieldFacts(t, i, m);
      MarkCovers(t, i, seen);
      var next := if Present(t[i], m[Offset(t, i)]) then Mark(t, i, seen) else seen;
      hide Mark;
      SeenAll(t, i + 1, m, next);
    }
  }

  /** The decoding loop over the bytes of fields i, i+1, ... */
  lemma {:induction false} LoopOk(t: Table, i: nat, m: Memory, seen: set<nat>)
    requires Usable(t) && Typed(t, m) && i <= |t|
    requires FieldsFrom(t, i, m).Some? && |FieldsFrom(t, i, m).value| < U32
    ensures DecodeLoop(t, FieldsFrom(t, i, m).value, Image(t, i, m), seen)
         == if TerminatedFrom(t, i, m) then Loop(Norm(t, m), [], SeenFrom(t, i, m, seen)) else Broken
    decreases t, 3, |t| - i
  {
    hide TerminatedSlot, NormSlot, FieldBytes, Usable, Typed, SlotTyped, Present, FieldsFrom, DefaultSlot,
         DecodeLoop, Image, Offset, DisjointOffsets, ValidField, Mark;
    if i < |t| {
      FieldFacts(t, i, m);
      var s := m[Offset(t, i)];
      var a, b := FieldBytes(t[i], s).value, FieldsFrom(t, i + 1, m).value;
      ImageAt(t, i, m, i);
      ImageUnfold(t, i, m);
      if Present(t[i], s) {
        FieldRound(t, i, s, b, Image(t, i, m), seen);
        LoopOk(t, i + 1, m, Mark(t, i, seen));
      } else {
        AbsentWritesNothing(t[i], s);
        assert a + b == b;
        LoopOk(t, i + 1, m, seen);
      }
    } else {
      LoopEnd(t, m, seen);
    }
  }

  lemma LoopEnd(t: Table, m: Memory, seen: set<nat>)
    requires Typed(t, m)
    ensures FieldsFrom(t, |t|, m) == Some([])
    ensures DecodeLoop(t, [], Image(t, |t|, m), seen) == Loop(Norm(t, m), [], seen)
  {
    hide Typed, Image;
  }

  lemma AbsentWritesNothing(f: Field, s: Slot)
    requires f.atype.Static? && SlotTyped(f, s) && !Present(f, s)
    ensures FieldBytes(f, s) == Some([]) && TerminatedSlot(f, s)
  {
  }

  /** Round trip: pb_decode of what pb_encode wrote. */
  lemma {:induction false} MessageOk(t: Table, m: Memory)
    requires Usable(t) && Typed(t, m)
    requires MessageBytes(t, m).Some? && |MessageBytes(t, m).value| < U32
    ensures DecodeMessage(t, MessageBytes(t, m).value)
         == if TerminatedFrom(t, 0, m) then Ok(Norm(t, m), []) else Fail
    decreases t, 4
  {
    LoopOk(t, 0, m, {});
    SeenAll(t, 0, m, {});
  }

  /** A string of two characters in a char array of two: it is encoded, and never decodes. */
  lemma FullString()
    ensures var f := Field(1, Static, Optional, StringType, 1, -1, 2, 0, None);
            var m := map[1 := Opt(true, Str([65, 66]))];
            && Usable([f]) && Typed([f], m)
            && MessageBytes([f], m) == Some([10, 2, 65, 66])
            && DecodeMessage([f], [10, 2, 65, 66]) == Fail
  {
    var f := Field(1, Static, Optional, StringType, 1, -1, 2, 0, None);
    var chars: seq<byte> := [65, 66];
    var s := Opt(true, Str(chars));
    var m := map[1 := s];
    OneFieldUsable(f);
    FullStringBytes(f, s, chars);
    assert Offset([f], 0) == 1 && SlotTyped(f, s);
    FieldsFromUnfold([f], 0, m);
    assert FieldsFrom([f], 1, m) == Some([]);
    JoinNothing(Some([10, 2, 65, 66]));
    hide DecodeMessage, FieldBytes, FieldsFrom;
    MessageOk([f], m);
  }

  lemma OneFieldUsable(f: Field)
    requires f == Field(1, Static, Optional, StringType, 1, -1, 2, 0, None)
    ensures Usable([f])
  {
    assert ValidField(f) && StaticField(f) && CheckableField(f);
    assert RequiredBefore([f], 1) == 0;
  }

  lemma FullStringBytes(f: Field, s: Slot, chars: seq<byte>)
    requires f == Field(1, Static, Optional, StringType, 1, -1, 2, 0, None)
    requires chars == [65, 66] && s == Opt(true, Str(chars))
    ensures CString(chars) == chars && FieldBytes(f, s) == Some([10, 2, 65, 66])
  {
    assert chars[1..] == [66] && [66][1..] == [];
    assert CString(chars[1..]) == [66];
    assert CString(chars) == chars;
    assert FieldKey(f) == [10] && Delimited(chars) == [2] + chars;
    assert [10] + ([2] + chars) == [10, 2, 65, 66];
  }
}
