/**
 On every byte string, whatever the table, the decoder keeps the struct well typed and
 within its bounds: array counts, bytes sizes and strings with their terminator.
 */
module Safety {
  import opened Bits
  import opened Schema
  import opened Wrappers
  import opened EncodeSpec
  import opened DecodeSpec
  import opened RoundTrip

  ghost predicate Safe(t: Table, m: Memory) {
    Typed(t, m) && Bounded(t, m)
  }

  ghost predicate SafeSlot(f: Field, s: Slot) {
    SlotTyped(f, s) && SlotFits(f, s)
  }

  ghost predicate SafeValue(f: Field, v: Value) {
    Holds(f, v) && Fits(f, v)
  }

  // ---------- Slot by slot ----------

  lemma SafeAt(t: Table, m: Memory, i: nat)
    requires Safe(t, m) && i < |t|
    ensures Offset(t, i) in m && SafeSlot(t[i], m[Offset(t, i)])
  {
    hide SlotTyped, SlotFits, Offset;
  }

  lemma SafeWhenSlotsAre(t: Table, m: Memory)
    requires forall i :: 0 <= i < |t| ==> Offset(t, i) in m && SafeSlot(t[i], m[Offset(t, i)])
    ensures Safe(t, m)
  {
    hide SlotTyped, SlotFits, Offset;
  }

  /** A union slot written through one member is well typed for the others. */
  lemma SafeForOthers(f: Field, g: Field, s: Slot)
    requires ValidField(g) && f.rule.Oneof? && g.rule.Oneof? && f.tag != g.tag
    requires SafeSlot(f, s) && s.Union? && s.which == f.tag
    ensures SafeSlot(g, s)
  {
    hide Holds, Fits;
  }

  /** Storing a safe slot of field i keeps the struct safe. */
  lemma SafeUpdate(t: Table, m: Memory, i: nat, s: Slot)
    requires ValidTable(t) && Safe(t, m) && i < |t| && SafeSlot(t[i], s)
    requires t[i].rule.Oneof? ==> s.Union? && s.which == t[i].tag
    ensures Safe(t, m[Offset(t, i) := s])
  {
    var m' := m[Offset(t, i) := s];
    forall j | 0 <= j < |t|
      ensures Offset(t, j) in m' && SafeSlot(t[j], m'[Offset(t, j)])
    {
      hide SlotTyped, SlotFits, Offset, ValidField, Typed, Bounded, Safe, SafeSlot;
      SafeAt(t, m, j);
      if j != i && Offset(t, j) == Offset(t, i) {
        DifferentTags(t, i, j);
        SafeForOthers(t[i], t[j], s);
      }
    }
    hide *;
    SafeWhenSlotsAre(t, m');
  }

  lemma DifferentTags(t: Table, i: nat, j: nat)
    requires DistinctTags(t) && i < |t| && j < |t| && i != j
    ensures t[i].tag != t[j].tag
  {
  }

  // ---------- Defaults ----------

  lemma {:induction false} DefaultValueSafe(f: Field)
    requires ValidField(f) && !f.atype.Callback?
    ensures SafeValue(f, DefaultValue(f))
    decreases f, 0
  {
    match f.ltype {
      case Submessage(t) => DefaultsSafe(t);
      case _ =>
    }
  }

  lemma DefaultSlotSafe(f: Field)
    requires ValidField(f)
    ensures SafeSlot(f, DefaultSlot(f))
    decreases f, 1
  {
    hide Holds, Fits, DefaultValue;
    if !f.atype.Callback? {
      DefaultValueSafe(f);
    }
  }

  /** The last field with a given offset decides its default; in a union they all agree. */
  lemma {:induction false} DefaultsSlotSafe(t: Table, n: nat, j: nat)
    requires ValidTable(t) && j < n <= |t|
    ensures Offset(t, j) in DefaultsUpTo(t, n)
    ensures SafeSlot(t[j], DefaultsUpTo(t, n)[Offset(t, j)])
    decreases t, 2, n
  {
    hide Safe, SafeSlot, DefaultSlot, Offset, ValidField, DistinctTags;
    if Offset(t, j) == Offset(t, n - 1) {
      if j == n - 1 {
        DefaultSlotSafe(t[j]);
      } else {
        assert t[j].rule.Oneof? && t[n - 1].rule.Oneof?;
        UnionDefault(t[j]);
        UnionDefault(t[n - 1]);
        DefaultSlotSafe(t[j]);
      }
    } else {
      DefaultsSlotSafe(t, n - 1, j);
    }
  }

  lemma DefaultsSafe(t: Table)
    requires ValidTable(t)
    ensures Safe(t, Defaults(t))
    decreases t, 3
  {
    forall j | 0 <= j < |t|
      ensures Offset(t, j) in Defaults(t) && SafeSlot(t[j], Defaults(t)[Offset(t, j)])
    {
      DefaultsSlotSafe(t, |t|, j);
    }
    hide *;
    SafeWhenSlotsAre(t, Defaults(t));
  }

  // ---------- Decoding ----------

  lemma {:induction false} LittleEndianBound(s: seq<byte>)
    ensures FromLittleEndian(s) < Pow2(8 * |s|)
    decreases |s|
  {
    if s != [] {
      LittleEndianBound(s[1..]);
      Pow2Small();
      Pow2Add(8, 8 * |s[1..]|);
      var a, p := FromLittleEndian(s[1..]), Pow2(8 * |s[1..]|);
      assert s[0] + 256 * a < 256 * p;
    }
  }

  lemma ScalarSafe(f: Field, s: seq<byte>)
    requires f.ltype.Scalar? && DecodeScalar(f, s).Ok?
    ensures SafeValue(f, DecodeScalar(f, s).v)
  {
    if f.ltype.kind.Fixed32Type? {
      Pow2Values();
      LittleEndianBound(s[..4]);
    } else if f.ltype.kind.Fixed64Type? {
      Pow2Values();
      LittleEndianBound(s[..8]);
    }
  }

  lemma {:induction false} ValueSafe(f: Field, s: seq<byte>, old_: Value)
    requires ValidField(f) && DecodeValue(f, s, old_).Ok?
    requires f.ltype.Submessage? && !f.rule.Repeated? && old_.Msg? ==> SafeValue(f, old_)
    ensures SafeValue(f, DecodeValue(f, s, old_).v)
    decreases |s|, 1
  {
    match f.ltype {
      case Scalar(_) => ScalarSafe(f, s);
      case Submessage(t) =>
        DefaultsSafe(t);
        var inner := TakeDelimited(s).v;
        var dest := if f.rule.Repeated? || !old_.Msg? then Defaults(t) else old_.cells;
        LoopSafe(t, inner, dest, {}, 0);
      case _ =>
    }
  }

  lemma {:induction false} PackedSafe(f: Field, s: seq<byte>, items: seq<Value>)
    requires f.ltype.Scalar? && DecodePacked(f, s, items).Some?
    requires |items| <= f.arraySize && forall i :: 0 <= i < |items| ==> SafeValue(f, items[i])
    ensures var r := DecodePacked(f, s, items).value;
            |r| <= f.arraySize && forall i :: 0 <= i < |r| ==> SafeValue(f, r[i])
    decreases |s|
  {
    if s != [] {
      ScalarSafe(f, s);
      hide SafeValue, DecodeScalar;
      PackedSafe(f, DecodeScalar(f, s).rest, items + [DecodeScalar(f, s).v]);
    }
  }

  lemma FieldSafe(f: Field, wireType: nat, s: seq<byte>, slot: Slot)
    requires ValidField(f) && SafeSlot(f, slot) && DecodeField(f, wireType, s, slot).Ok?
    ensures var r := DecodeField(f, wireType, s, slot).v;
            SafeSlot(f, r) && (f.rule.Oneof? ==> r.Union? && r.which == f.tag)
    decreases |s|, 2
  {
    hide Holds, Fits, DecodeValue;
    if !f.atype.Callback? {
      match f.rule {
        case Required => ValueSafe(f, s, OldValue(slot));
        case Optional => ValueSafe(f, s, OldValue(slot));
        case Repeated =>
          if wireType == WT_STRING && Packable(f.ltype) {
            PackedSafe(f, TakeDelimited(s).v, slot.items);
          } else {
            ValueSafe(f, s, Int(0));
          }
        case Oneof =>
          DefaultValueSafe(f);
          ValueSafe(f, s, DefaultValue(f));
      }
    }
  }

  lemma ValidAt(t: Table, i: nat)
    requires ValidTable(t) && i < |t|
    ensures ValidField(t[i])
  {
    hide ValidField, Offset;
  }

  /** Safety of the decoding loop, and with it of pb_decode, on every input. */
  lemma {:induction false} LoopSafe(t: Table, s: seq<byte>, m: Memory, seen: set<nat>, lag: nat)
    requires ValidTable(t) && Safe(t, m) && DecodeLoop(t, s, m, seen, lag).Loop?
    ensures Safe(t, DecodeLoop(t, s, m, seen, lag).m)
    decreases |s|, 3
  {
    hide ValidTable, Safe, DecodeField, SafeSlot, Offset, Mark, ValidField, SkipField, DecodeTag, Find;
    if s != [] && DecodeTag(s).Tag? {
      var Tag(number, wireType, r) := DecodeTag(s);
      var i := Find(t, number);
      if i == |t| {
        LoopSafe(t, SkipField(wireType, r).rest, m, seen, lag);
      } else {
        ValidAt(t, i);
        SafeAt(t, m, i);
        var slot := Get(m, Offset(t, i));
        FieldSafe(t[i], wireType, r, slot);
        var d := DecodeField(t[i], wireType, r, slot);
        SafeUpdate(t, m, i, d.v);
        LoopSafe(t, d.rest, m[Offset(t, i) := d.v], Mark(t, i, seen), lag + d.lag);
      }
    }
  }

  /** pb_decode on any bytes: if it succeeds, no array, bytes field or string has outgrown
      the space reserved for it, at any depth. */
  lemma DecodeSafe(t: Table, s: seq<byte>)
    requires ValidTable(t) && DecodeMessage(t, s).Ok?
    ensures Typed(t, DecodeMessage(t, s).v) && Bounded(t, DecodeMessage(t, s).v)
  {
    DefaultsSafe(t);
    LoopSafe(t, s, Defaults(t), {}, 0);
  }

  // ---------- Structs at their defaults ----------

  /** A single value at its default: the one that the descriptor declares, or else zero, no
      bytes and no characters; a submessage with its own members at their defaults. */
  predicate StartsAs(f: Field, v: Value)
    decreases f, 0
  {
    match f.ltype
    case Submessage(t) => v.Msg? && AtDefaults(t, v.cells)
    case _ =>
      if f.init.Some? then v == f.init.value
      else if f.ltype.Scalar? then v == Int(0)
      else if f.ltype.BytesType? then v == Bytes([])
      else v == Str([])
  }

  /** A member at its default: absent if it can be, arrays empty, unions not set. */
  predicate MemberStartsAs(f: Field, s: Slot)
    decreases f, 1
  {
    if f.atype.Callback? then s == Hook(None)
    else
      match f.rule
      case Required => s.One? && StartsAs(f, s.v)
      case Optional => s.Opt? && !s.has && StartsAs(f, s.v)
      case Repeated => s == Rep([])
      case Oneof => s.Union? && s.which == 0
  }

  predicate AtDefaults(t: Table, m: Memory)
    decreases t, 2
  {
    forall i :: 0 <= i < |t| ==> Offset(t, i) in m && MemberStartsAs(t[i], m[Offset(t, i)])
  }

  lemma {:induction false} DefaultStarts(f: Field)
    requires ValidField(f)
    ensures StartsAs(f, DefaultValue(f))
    decreases f, 0
  {
    hide AtDefaults, Defaults, ValidTable;
    if f.ltype.Submessage? {
      DefaultsStart(f.ltype.sub);
    }
  }

  lemma {:induction false} MemberStarts(f: Field)
    requires ValidField(f)
    ensures MemberStartsAs(f, DefaultSlot(f))
    decreases f, 1
  {
    hide StartsAs, DefaultValue, ValidTable;
    DefaultStarts(f);
  }

  /** The struct of the specification has every member at its default. */
  lemma {:induction false} DefaultsStart(t: Table)
    requires ValidTable(t)
    ensures AtDefaults(t, Defaults(t))
    decreases t, 2
  {
    hide MemberStartsAs, DefaultSlot, Offset, DisjointOffsets, DistinctTags, ValidField;
    forall i | 0 <= i < |t|
      ensures Offset(t, i) in Defaults(t) && MemberStartsAs(t[i], Defaults(t)[Offset(t, i)])
    {
      assert ValidField(t[i]);
      MemberStarts(t[i]);
      DefaultsAt(t, |t|, i);
    }
  }
}
