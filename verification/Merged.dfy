/**
 What decoding an encoding into a struct that already holds something makes of it: the
 protobuf merge, defined on structs. Later scalars win, arrays grow, submessages merge.
 */
module Merged {
  import opened Bits
  import opened Schema
  import opened Wrappers
  import opened EncodeSpec
  import opened DecodeSpec
  import opened RoundTrip
  import opened ScalarCodec
  import opened Merge
  import opened Concat
  import Varint

  // ---------- The merge ----------

  /** `v` on top of what its destination holds; None if a string leaves no room for its
      terminator, or a nested array overflows. */
  function MergedValue(f: Field, old_: Value, v: Value): Option<Value>
    requires Holds(f, v)
    decreases f, 0
  {
    match f.ltype
    case StringType => if |CString(v.chars)| < f.dataSize then Some(Str(CString(v.chars))) else None
    case Submessage(t) =>
      var cells := MergedFrom(t, 0, Destination(f, old_), v.cells);
      if cells.Some? then Some(Msg(cells.value)) else None
    case _ => Some(v)
  }

  /** Items appended to an array, as far as array_size allows. */
  function MergedItems(f: Field, prior: seq<Value>, items: seq<Value>): Option<seq<Value>>
    requires forall i :: 0 <= i < |items| ==> Holds(f, items[i])
    decreases f, 1, |items|
  {
    if items == [] then Some(prior)
    else if |prior| >= f.arraySize then None
    else
      var v := MergedValue(f, Int(0), items[0]);
      if v.None? then None else MergedItems(f, prior + [v.value], items[1..])
  }

  function MergedSlot(f: Field, base: Slot, s: Slot): Option<Slot>
    requires SlotTyped(f, s) && Present(f, s)
    decreases f, 2
  {
    if f.rule.Repeated? then
      var items := MergedItems(f, Items(base), s.items);
      if items.Some? then Some(Rep(items.value)) else None
    else
      // a union is reset first
      var v := MergedValue(f, if f.rule.Oneof? then DefaultValue(f) else OldValue(base), s.v);
      if v.None? then None
      else if f.rule.Required? then Some(One(v.value))
      else if f.rule.Optional? then Some(Opt(true, v.value))
      else Some(Union(f.tag, v.value))
  }

  /** The present fields i, i+1, ... of m on top of the struct. */
  function MergedFrom(t: Table, i: nat, base: Memory, m: Memory): Option<Memory>
    requires i <= |t| && Typed(t, m)
    decreases t, 3, |t| - i
  {
    if i == |t| then Some(base)
    else
      var at := Offset(t, i);
      if !Present(t[i], m[at]) then MergedFrom(t, i + 1, base, m)
      else
        var slot := MergedSlot(t[i], Get(base, at), m[at]);
        if slot.None? then None else MergedFrom(t, i + 1, base[at := slot.value], m)
  }

  // ---------- Decoding merges ----------

  lemma {:induction false} ValueMerges(f: Field, v: Value, old_: Value, x: seq<byte>)
    requires UsableField(f) && (f.ltype.Submessage? ==> Usable(f.ltype.sub))
    requires Holds(f, v) && ValueBytes(f, v).Some? && |ValueBytes(f, v).value| < U32
    ensures DecodeValue(f, ValueBytes(f, v).value + x, old_)
         == var r := MergedValue(f, old_, v); if r.Some? then Ok(r.value, x) else Fail
    decreases f, 1
  {
    match f.ltype {
      case Scalar(k) =>
        hide ValueBytes, DecodeScalar;
        ScalarItem(f, v, x);
      case BytesType =>
        hide Delimited, Take;
        LengthOk(v.b, x);
      case StringType =>
        hide Delimited, Take;
        LengthOk(CString(v.chars), x);
      case Submessage(t) =>
        SubmessageMerges(f, v, old_, x);
    }
  }

  lemma {:induction false} SubmessageMerges(f: Field, v: Value, old_: Value, x: seq<byte>)
    requires f.ltype.Submessage? && Usable(f.ltype.sub)
    requires Holds(f, v) && ValueBytes(f, v).Some? && |ValueBytes(f, v).value| < U32
    ensures DecodeValue(f, ValueBytes(f, v).value + x, old_)
         == var r := MergedValue(f, old_, v); if r.Some? then Ok(r.value, x) else Fail
    decreases f, 0
  {
    hide Delimited, DecodeValue, DecodeNoInit, Usable, Destination, MergedFrom;
    var inner := MessageBytes(f.ltype.sub, v.cells).value;
    Longer(inner);
    SubmessageDecoded(f, inner, x, old_);
    MergeOk(f.ltype.sub, Destination(f, old_), v.cells);
  }

  lemma {:induction false} PackedMerges(f: Field, items: seq<Value>, prior: seq<Value>)
    requires UsableField(f) && f.ltype.Scalar?
    requires forall i :: 0 <= i < |items| ==> Holds(f, items[i])
    requires ItemBytes(f, items, false).Some?
    ensures DecodePacked(f, ItemBytes(f, items, false).value, prior) == MergedItems(f, prior, items)
    decreases |items|
  {
    hide ValueBytes, ScalarBytes, DecodeScalar, Holds, UsableField;
    if items != [] {
      var a, b := ValueBytes(f, items[0]).value, ItemBytes(f, items[1..], false).value;
      JoinNothing(Some(a));
      ScalarItem(f, items[0], b);
      if |prior| < f.arraySize {
        PackedMerges(f, items[1..], prior + [items[0]]);
      }
    }
  }

  /** Consecutive records of an array that is not packed. */
  lemma {:induction false} UnpackedMerges(t: Table, i: nat, items: seq<Value>, x: seq<byte>,
                                          base: Memory, seen: set<nat>)
    requires Usable(t) && i < |t| && t[i].rule.Repeated? && !t[i].ltype.Scalar? && items != []
    requires forall k :: 0 <= k < |items| ==> Holds(t[i], items[k])
    requires ItemBytes(t[i], items, true).Some? && |ItemBytes(t[i], items, true).value| < U32
    ensures var r := MergedItems(t[i], Items(Get(base, Offset(t, i))), items);
            DecodeLoop(t, ItemBytes(t[i], items, true).value + x, base, seen)
            == if r.Some? then DecodeLoop(t, x, base[Offset(t, i) := Rep(r.value)], seen) else Broken
    decreases t[i], 2, |items|
  {
    hide DecodeLoop, DecodeValue, Varint.Encode, ValueBytes, Usable, Holds, Offset, MergedValue;
    var f, at := t[i], Offset(t, i);
    var prior := Items(Get(base, at));
    var a, b := ValueBytes(f, items[0]).value, ItemBytes(f, items[1..], true).value;
    assert ItemBytes(f, items, true).value == FieldKey(f) + a + b;
    assert ItemBytes(f, items, true).value + x == FieldKey(f) + (a + (b + x));
    ItemMerges(t, i, items[0], b + x, base, seen);
    var v := MergedValue(f, Int(0), items[0]);
    if |prior| < f.arraySize && v.Some? {
      var next := base[at := Rep(prior + [v.value])];
      if |items| > 1 {
        UnpackedMerges(t, i, items[1..], x, next, seen);
        var r := MergedItems(f, prior + [v.value], items[1..]);
        assert r.Some? ==> next[at := Rep(r.value)] == base[at := Rep(r.value)];
      } else {
        assert items[1..] == [] && b + x == x;
      }
    }
  }

  lemma ItemMerges(t: Table, i: nat, v: Value, x: seq<byte>, base: Memory, seen: set<nat>)
    requires Usable(t) && i < |t| && t[i].rule.Repeated? && !t[i].ltype.Scalar?
    requires Holds(t[i], v) && ValueBytes(t[i], v).Some? && |ValueBytes(t[i], v).value| < U32
    ensures var prior, r := Items(Get(base, Offset(t, i))), MergedValue(t[i], Int(0), v);
            DecodeLoop(t, FieldKey(t[i]) + (ValueBytes(t[i], v).value + x), base, seen)
            == if |prior| < t[i].arraySize && r.Some?
               then DecodeLoop(t, x, base[Offset(t, i) := Rep(prior + [r.value])], seen)
               else Broken
    decreases t[i], 2, 0
  {
    hide DecodeLoop, DecodeValue, Varint.Encode, ValueBytes, MergedValue, Offset;
    UsableFields(t, i);
    OneRound(t, i, WireType(t[i].ltype), ValueBytes(t[i], v).value + x, base, seen);
    ValueMerges(t[i], v, Int(0), x);
  }

  lemma PackedRecord(t: Table, i: nat, s: Slot, x: seq<byte>, base: Memory, seen: set<nat>)
    requires Usable(t) && i < |t| && t[i].rule.Repeated? && t[i].ltype.Scalar?
    requires SlotTyped(t[i], s) && Present(t[i], s)
    requires FieldBytes(t[i], s).Some? && |FieldBytes(t[i], s).value| < U32
    ensures var r := MergedItems(t[i], Items(Get(base, Offset(t, i))), s.items);
            DecodeLoop(t, FieldBytes(t[i], s).value + x, base, seen)
            == if r.Some? then DecodeLoop(t, x, base[Offset(t, i) := Rep(r.value)], seen) else Broken
  {
    hide DecodeLoop, Varint.Encode, ItemBytes, MergedItems, DisjointOffsets, DistinctTags, Offset, DecodePacked,
         TakeDelimited;
    UsableFields(t, i);
    var f := t[i];
    assert FieldBytes(f, s) == ArrayBytes(f, s.items);
    var body := ItemBytes(f, s.items, false).value;
    assert FieldBytes(f, s).value + x == Key(f.tag, WT_STRING) + (Delimited(body) + x);
    OneRound(t, i, WT_STRING, Delimited(body) + x, base, seen);
    Longer(body);
    LengthOk(body, x);
    PackedMerges(f, s.items, Items(Get(base, Offset(t, i))));
  }

  lemma {:induction false} SingleMerges(t: Table, i: nat, s: Slot, x: seq<byte>, base: Memory, seen: set<nat>)
    requires Usable(t) && i < |t| && SlotTyped(t[i], s) && Present(t[i], s) && !t[i].rule.Repeated?
    requires FieldBytes(t[i], s).Some? && |FieldBytes(t[i], s).value| < U32
    ensures var r := MergedSlot(t[i], Get(base, Offset(t, i)), s);
            DecodeLoop(t, FieldBytes(t[i], s).value + x, base, seen)
            == if r.Some? then DecodeLoop(t, x, base[Offset(t, i) := r.value], Mark(t, i, seen)) else Broken
    decreases t[i], 2
  {
    hide DecodeLoop, DecodeValue, Varint.Encode, ValueBytes, MergedValue, Offset, Holds, DefaultValue,
         DistinctTags, DisjointOffsets;
    UsableFields(t, i);
    var f := t[i];
    var a := ValueBytes(f, s.v).value;
    assert FieldBytes(f, s) == Record(f, s.v);
    assert FieldBytes(f, s).value + x == FieldKey(f) + (a + x);
    OneRound(t, i, WireType(f.ltype), a + x, base, seen);
    ValueMerges(f, s.v, if f.rule.Oneof? then DefaultValue(f) else OldValue(Get(base, Offset(t, i))), x);
  }

  /** Everything a present field wrote, decoded on top of what the struct holds. */
  lemma {:induction false} FieldMerges(t: Table, i: nat, s: Slot, x: seq<byte>, base: Memory, seen: set<nat>)
    requires Usable(t) && i < |t| && SlotTyped(t[i], s) && Present(t[i], s)
    requires FieldBytes(t[i], s).Some? && |FieldBytes(t[i], s).value| < U32
    ensures var r := MergedSlot(t[i], Get(base, Offset(t, i)), s);
            DecodeLoop(t, FieldBytes(t[i], s).value + x, base, seen)
            == if r.Some? then DecodeLoop(t, x, base[Offset(t, i) := r.value], Mark(t, i, seen)) else Broken
    decreases t[i], 3
  {
    hide DecodeLoop, Varint.Encode, ValueBytes, MergedValue, MergedItems, Offset, Usable, Holds;
    if !t[i].rule.Repeated? {
      SingleMerges(t, i, s, x, base, seen);
    } else if t[i].ltype.Scalar? {
      PackedRecord(t, i, s, x, base, seen);
    } else {
      UnpackedMerges(t, i, s.items, x, base, seen);
    }
  }

  lemma {:induction false} LoopMerges(t: Table, i: nat, base: Memory, m: Memory, seen: set<nat>)
    requires Usable(t) && Typed(t, m) && i <= |t|
    requires FieldsFrom(t, i, m).Some? && |FieldsFrom(t, i, m).value| < U32
    ensures var r := MergedFrom(t, i, base, m);
            DecodeLoop(t, FieldsFrom(t, i, m).value, base, seen)
            == if r.Some? then Loop(r.value, [], SeenFrom(t, i, m, seen)) else Broken
    decreases t, 3, |t| - i
  {
    hide FieldBytes, Usable, Typed, SlotTyped, Present, FieldsFrom, DecodeLoop, Offset, DisjointOffsets,
         ValidField, Mark, MergedSlot;
    if i < |t| {
      FieldFacts(t, i, m);
      var s := m[Offset(t, i)];
      var a, b := FieldBytes(t[i], s).value, FieldsFrom(t, i + 1, m).value;
      if Present(t[i], s) {
        FieldMerges(t, i, s, b, base, seen);
        var slot := MergedSlot(t[i], Get(base, Offset(t, i)), s);
        if slot.Some? {
          LoopMerges(t, i + 1, base[Offset(t, i) := slot.value], m, Mark(t, i, seen));
        }
      } else {
        AbsentWritesNothing(t[i], s);
        assert a + b == b;
        LoopMerges(t, i + 1, base, m, seen);
      }
    } else {
      NothingLeft(t, base, m, seen);
    }
  }

  lemma NothingLeft(t: Table, base: Memory, m: Memory, seen: set<nat>)
    requires Typed(t, m)
    ensures FieldsFrom(t, |t|, m) == Some([])
    ensures DecodeLoop(t, [], base, seen) == Loop(base, [], seen)
  {
  }

  /** Decoding what pb_encode wrote for m, without initialising the destination, merges m
      into it; it fails exactly when the merge does not fit. */
  lemma {:induction false} MergeOk(t: Table, base: Memory, m: Memory)
    requires Usable(t) && Typed(t, m)
    requires MessageBytes(t, m).Some? && |MessageBytes(t, m).value| < U32
    ensures var r := MergedFrom(t, 0, base, m);
            DecodeNoInit(t, MessageBytes(t, m).value, base) == if r.Some? then Ok(r.value, []) else Fail
    decreases t, 4
  {
    hide MergedFrom, DecodeLoop, AllSeen;
    LoopMerges(t, 0, base, m, {});
    SeenAll(t, 0, m, {});
  }

  /** Concatenating encodings merges the messages: decoding both in a row yields the second
      struct merged into the (normal form of the) first. */
  lemma EncodingsMerge(t: Table, first: Memory, second: Memory)
    requires Usable(t) && Typed(t, first) && Typed(t, second)
    requires MessageBytes(t, first).Some? && |MessageBytes(t, first).value| < U32 && TerminatedFrom(t, 0, first)
    requires MessageBytes(t, second).Some? && |MessageBytes(t, second).value| < U32
    ensures var r := MergedFrom(t, 0, Norm(t, first), second);
            DecodeMessage(t, MessageBytes(t, first).value + MessageBytes(t, second).value)
            == if r.Some? then Ok(r.value, []) else Fail
  {
    MessageComplete(t, first);
    hide Complete, Usable, DecodeLoop, FieldsFrom, Image, TerminatedFrom, MergedFrom, SeenFrom, AllSeen, Typed;
    var a, b := MessageBytes(t, first).value, MessageBytes(t, second).value;
    LoopOk(t, 0, first, {});
    LoopConcat(t, a, b, Image(t, 0, first), {});
    var seen := SeenFrom(t, 0, first, {});
    LoopMerges(t, 0, Norm(t, first), second, seen);
    SeenFirst(t, second, seen);
    StartsWithDefaults(t, first);
  }

  lemma StartsWithDefaults(t: Table, m: Memory)
    requires Typed(t, m)
    ensures Image(t, 0, m) == Defaults(t)
  {
  }

  lemma SeenFirst(t: Table, m: Memory, seen: set<nat>)
    requires Usable(t) && Typed(t, m)
    ensures AllSeen(t, SeenFrom(t, 0, m, seen))
  {
    SeenAll(t, 0, m, seen);
  }

  // ---------- What the merge holds, field by field ----------

  lemma {:induction false} MergedElsewhere(t: Table, i: nat, base: Memory, m: Memory, k: int)
    requires i <= |t| && Typed(t, m) && MergedFrom(t, i, base, m).Some?
    requires forall j :: i <= j < |t| && Present(t[j], m[Offset(t, j)]) ==> Offset(t, j) != k
    ensures Get(MergedFrom(t, i, base, m).value, k) == Get(base, k)
    decreases |t| - i
  {
    hide Typed, SlotTyped, Present, Offset, MergedSlot;
    if i < |t| {
      TypedAt(t, i, m);
      if Present(t[i], m[Offset(t, i)]) {
        var slot := MergedSlot(t[i], Get(base, Offset(t, i)), m[Offset(t, i)]);
        MergedElsewhere(t, i + 1, base[Offset(t, i) := slot.value], m, k);
      } else {
        MergedElsewhere(t, i + 1, base, m, k);
      }
    }
  }

  lemma OthersApart(t: Table, k: nat)
    requires DisjointOffsets(t) && k < |t| && !t[k].rule.Oneof?
    ensures forall j :: 0 <= j < |t| && j != k ==> Offset(t, j) != Offset(t, k)
  {
    hide Offset;
  }

  /** A field outside unions holds the merge of its two slots if the second message has it,
      and what it held before if not. */
  lemma {:induction false} MergedAt(t: Table, i: nat, base: Memory, m: Memory, k: nat)
    requires DisjointOffsets(t) && Typed(t, m) && i <= k < |t| && !t[k].rule.Oneof?
    requires MergedFrom(t, i, base, m).Some?
    ensures Offset(t, k) in m && SlotTyped(t[k], m[Offset(t, k)])
    ensures var at, r := Offset(t, k), MergedFrom(t, i, base, m).value;
            if Present(t[k], m[at]) then MergedSlot(t[k], Get(base, at), m[at]) == Some(Get(r, at))
            else Get(r, at) == Get(base, at)
    decreases |t| - i
  {
    hide *;
    TypedAt(t, k, m);
    OthersApart(t, k);
    var next := MergedStep(t, i, base, m, k);
    if i == k {
      MergedElsewhere(t, i + 1, next, m, Offset(t, k));
    } else {
      MergedAt(t, i + 1, next, m, k);
    }
  }

  /** Merging field i touches no slot but its own. */
  lemma MergedStep(t: Table, i: nat, base: Memory, m: Memory, k: nat) returns (next: Memory)
    requires Typed(t, m) && i < |t| && k < |t| && MergedFrom(t, i, base, m).Some?
    ensures MergedFrom(t, i, base, m) == MergedFrom(t, i + 1, next, m)
    ensures Offset(t, k) != Offset(t, i) ==> Get(next, Offset(t, k)) == Get(base, Offset(t, k))
    ensures Offset(t, i) in m && SlotTyped(t[i], m[Offset(t, i)])
    ensures var at := Offset(t, i);
            if Present(t[i], m[at]) then MergedSlot(t[i], Get(base, at), m[at]) == Some(Get(next, at))
            else next == base
  {
    TypedAt(t, i, m);
    hide Typed, SlotTyped, Present, Offset, MergedSlot;
    var at := Offset(t, i);
    next := if Present(t[i], m[at]) then base[at := MergedSlot(t[i], Get(base, at), m[at]).value] else base;
  }

  /** Merged into the defaults, a struct gives its normal form. */
  lemma MergedIntoDefaults(t: Table, m: Memory)
    requires Usable(t) && Typed(t, m)
    requires MessageBytes(t, m).Some? && |MessageBytes(t, m).value| < U32
    ensures MergedFrom(t, 0, Defaults(t), m) == if TerminatedFrom(t, 0, m) then Some(Norm(t, m)) else None
  {
    hide *;
    MergeOk(t, Defaults(t), m);
    MessageOk(t, m);
    FromDefaults(t, MessageBytes(t, m).value);
  }

  lemma FromDefaults(t: Table, s: seq<byte>)
    ensures DecodeMessage(t, s) == DecodeNoInit(t, s, Defaults(t))
  {
  }

  /** Items of scalar type or bytes are appended as they are, if array_size allows. */
  lemma {:induction false} ArraysAppend(f: Field, prior: seq<Value>, items: seq<Value>)
    requires f.ltype.Scalar? || f.ltype.BytesType?
    requires forall i :: 0 <= i < |items| ==> Holds(f, items[i])
    ensures MergedItems(f, prior, items)
         == if items == [] || |prior| + |items| <= f.arraySize then Some(prior + items) else None
    decreases |items|
  {
    hide Holds;
    if items != [] && |prior| < f.arraySize {
      ArraysAppend(f, prior + [items[0]], items[1..]);
      assert prior + [items[0]] + items[1..] == prior + items;
    } else if items == [] {
      assert prior + items == prior;
    }
  }
}
