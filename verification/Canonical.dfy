/**
 When the round trip gives back exactly the struct that was encoded.
 */
module Canonical {
  import opened Bits
  import opened Schema
  import opened Wrappers
  import opened EncodeSpec
  import opened DecodeSpec
  import opened RoundTrip

  /** A value a decoder could have produced: no character after a NUL, canonical inside. */
  predicate CanonicalValue(f: Field, v: Value)
    requires Holds(f, v)
    decreases f, 0
  {
    match f.ltype
    case StringType => CString(v.chars) == v.chars
    case Submessage(t) => Canonical(t, v.cells)
    case _ => true
  }

  predicate CanonicalSlot(f: Field, s: Slot)
    requires SlotTyped(f, s) && Present(f, s)
    decreases f, 1
  {
    match f.rule
    case Repeated => forall i :: 0 <= i < |s.items| ==> CanonicalValue(f, s.items[i])
    case _ => CanonicalValue(f, s.v)
  }

  /** Slot k of the struct belongs to field i, which is either present or at its default. */
  predicate Settled(t: Table, i: nat, m: Memory, k: int)
    requires i < |t| && k in m
  {
    Offset(t, i) == k && SlotTyped(t[i], m[k]) && (Present(t[i], m[k]) || m[k] == DefaultSlot(t[i]))
  }

  /** No stray memory, absent fields at their defaults, present values canonical. */
  predicate Canonical(t: Table, m: Memory)
    requires Typed(t, m)
    decreases t, 2
  {
    && (forall k :: k in m ==> exists i :: 0 <= i < |t| && Settled(t, i, m, k))
    && (forall i :: 0 <= i < |t| && Present(t[i], m[Offset(t, i)]) ==> CanonicalSlot(t[i], m[Offset(t, i)]))
  }

  lemma {:induction false} NormValueCanonical(f: Field, v: Value)
    requires Holds(f, v) && CanonicalValue(f, v) && ValidField(f) && StaticField(f)
    ensures NormValue(f, v) == v
    decreases f, 0
  {
    match f.ltype {
      case Submessage(t) => NormCanonical(t, v.cells);
      case _ =>
    }
  }

  lemma {:induction false} NormItemsCanonical(f: Field, items: seq<Value>)
    requires ValidField(f) && StaticField(f) && forall i :: 0 <= i < |items| ==> Holds(f, items[i])
    requires forall i :: 0 <= i < |items| ==> CanonicalValue(f, items[i])
    ensures NormItems(f, items) == items
    decreases f, 1, |items|
  {
    hide ValidField, StaticField, Holds, CanonicalValue, NormValue;
    if items != [] {
      NormValueCanonical(f, items[0]);
      assert forall i :: 0 <= i < |items[1..]| ==> items[1..][i] == items[i + 1];
      NormItemsCanonical(f, items[1..]);
    }
  }

  lemma NormSlotCanonical(f: Field, s: Slot)
    requires ValidField(f) && StaticField(f) && SlotTyped(f, s) && Present(f, s) && CanonicalSlot(f, s)
    ensures NormSlot(f, s) == s
    decreases f, 2
  {
    hide ValidField, StaticField, Holds, CanonicalValue, NormValue, NormItems;
    if f.rule.Repeated? {
      NormItemsCanonical(f, s.items);
    } else {
      NormValueCanonical(f, s.v);
    }
  }

  /** Some field among the first n is present and lives at k. */
  predicate Written(t: Table, n: nat, m: Memory, k: int)
    requires Typed(t, m) && n <= |t|
    decreases n
  {
    n > 0 && ((Offset(t, n - 1) == k && Present(t[n - 1], m[Offset(t, n - 1)])) || Written(t, n - 1, m, k))
  }

  /** Present slots are their own normal form. */
  predicate Fixed(t: Table, m: Memory)
    requires Typed(t, m)
  {
    forall i :: 0 <= i < |t| && Present(t[i], m[Offset(t, i)])
                ==> NormSlot(t[i], m[Offset(t, i)]) == m[Offset(t, i)]
  }

  lemma CanonicalFixed(t: Table, m: Memory)
    requires ValidTable(t) && StaticTable(t) && Typed(t, m) && Canonical(t, m)
    ensures Fixed(t, m)
    decreases t, 3
  {
    forall i | 0 <= i < |t| && Present(t[i], m[Offset(t, i)])
      ensures NormSlot(t[i], m[Offset(t, i)]) == m[Offset(t, i)]
    {
      TypedAt(t, i, m);
      hide Offset, Present, NormSlot, SlotTyped, CanonicalSlot;
      NormSlotCanonical(t[i], m[Offset(t, i)]);
    }
  }

  lemma FixedAt(t: Table, m: Memory, i: nat)
    requires Typed(t, m) && Fixed(t, m) && i < |t| && Offset(t, i) in m && SlotTyped(t[i], m[Offset(t, i)])
    ensures Present(t[i], m[Offset(t, i)]) ==> NormSlot(t[i], m[Offset(t, i)]) == m[Offset(t, i)]
  {
    hide Typed, SlotTyped, Present, NormSlot, Offset;
  }

  lemma {:induction false} ImageFixed(t: Table, n: nat, m: Memory, k: int)
    requires Typed(t, m) && Fixed(t, m) && n <= |t| && k in Defaults(t)
    ensures k in Image(t, n, m)
    ensures Image(t, n, m)[k] == if Written(t, n, m, k) then Get(m, k) else Defaults(t)[k]
    decreases n
  {
    hide Typed, Fixed, Offset, NormSlot, SlotTyped, Present, Defaults;
    if n > 0 {
      hide Image;
      ImageFixed(t, n - 1, m, k);
      ImageUnfold(t, n - 1, m);
      FixedAt(t, m, n - 1);
    } else {
      assert Image(t, 0, m) == Defaults(t);
    }
  }

  lemma {:induction false} WrittenBy(t: Table, n: nat, m: Memory, i: nat)
    requires Typed(t, m) && i < n <= |t| && Present(t[i], m[Offset(t, i)])
    ensures Written(t, n, m, Offset(t, i))
    decreases n
  {
    hide Typed, SlotTyped, Present, Offset;
    if i < n - 1 {
      WrittenBy(t, n - 1, m, i);
    }
  }

  lemma {:induction false} DefaultsOnly(t: Table, n: nat, k: int)
    requires n <= |t| && k in DefaultsUpTo(t, n)
    ensures exists i :: 0 <= i < n && Offset(t, i) == k
    decreases n
  {
    if k != Offset(t, n - 1) {
      DefaultsOnly(t, n - 1, k);
    }
  }

  lemma {:induction false} ImageKeys(t: Table, n: nat, m: Memory)
    requires DisjointOffsets(t) && Typed(t, m) && n <= |t|
    requires forall j :: 0 <= j < |t| ==> t[j].atype.Static?
    ensures Image(t, n, m).Keys == Defaults(t).Keys
    decreases n
  {
    hide DisjointOffsets, Typed, Offset, NormSlot, SlotTyped, Present, DefaultSlot;
    if n > 0 {
      hide Image;
      ImageKeys(t, n - 1, m);
      DefaultsAt(t, |t|, n - 1);
      ImageUnfold(t, n - 1, m);
      assert Offset(t, n - 1) in Defaults(t).Keys;
    } else {
      ImageStart(t, m);
    }
  }

  lemma NormOnly(t: Table, m: Memory, k: int)
    requires Typed(t, m) && k in Defaults(t)
    ensures k in m
  {
    DefaultsOnly(t, |t|, k);
    var i :| 0 <= i < |t| && Offset(t, i) == k;
    TypedAt(t, i, m);
  }

  /** The normal form of a canonical struct is the struct itself. */
  lemma {:induction false} NormCanonical(t: Table, m: Memory)
    requires ValidTable(t) && StaticTable(t) && Typed(t, m) && Canonical(t, m)
    ensures Norm(t, m) == m
    decreases t, 4
  {
    CanonicalFixed(t, m);
    ImageKeys(t, |t|, m);
    hide ValidTable, StaticTable, Typed, Canonical, Fixed, Image, Defaults;
    forall k | k in Norm(t, m)
      ensures k in m
    {
      assert k in Defaults(t).Keys;
      NormOnly(t, m, k);
    }
    forall k | k in m
      ensures k in Norm(t, m) && Norm(t, m)[k] == m[k]
    {
      NormAt(t, m, k);
    }
  }

  lemma NormAt(t: Table, m: Memory, k: int)
    requires ValidTable(t) && StaticTable(t) && Typed(t, m) && Canonical(t, m) && Fixed(t, m) && k in m
    ensures k in Norm(t, m) && Norm(t, m)[k] == m[k]
  {
    var i :| 0 <= i < |t| && Settled(t, i, m, k);
    DefaultsAt(t, |t|, i);
    hide ValidTable, StaticTable, Typed, Canonical, Fixed, Offset, SlotTyped, Present, DefaultSlot, Image, Written;
    ImageFixed(t, |t|, m, k);
    if Present(t[i], m[k]) {
      WrittenBy(t, |t|, m, i);
    }
  }

  /** Exact round trip: a canonical struct that respects its bounds is encoded, and decoding
      the bytes consumes all of them and rebuilds the struct. */
  lemma ExactRoundTrip(t: Table, m: Memory)
    requires Usable(t) && Typed(t, m) && Bounded(t, m) && Canonical(t, m)
    ensures MessageBytes(t, m).Some?
    ensures |MessageBytes(t, m).value| < U32 ==> DecodeMessage(t, MessageBytes(t, m).value) == Ok(m, [])
  {
    BoundedEncodes(t, 0, m);
    if |MessageBytes(t, m).value| < U32 {
      MessageOk(t, m);
      NormCanonical(t, m);
    }
  }

  // ---------- Bounded structs can be encoded ----------

  lemma {:induction false} BoundedValue(f: Field, v: Value)
    requires ValidField(f) && StaticField(f) && Holds(f, v) && Fits(f, v)
    ensures ValueBytes(f, v).Some? && Terminated(f, v)
    decreases f, 0
  {
    match f.ltype {
      case Submessage(t) => BoundedEncodes(t, 0, v.cells);
      case _ =>
    }
  }

  lemma {:induction false} BoundedItems(f: Field, items: seq<Value>, keyed: bool)
    requires ValidField(f) && StaticField(f)
    requires forall i :: 0 <= i < |items| ==> Holds(f, items[i]) && Fits(f, items[i])
    ensures ItemBytes(f, items, keyed).Some? && TerminatedItems(f, items)
    decreases f, 1, |items|
  {
    hide ValidField, Holds, Fits, ValueBytes, Terminated;
    if items != [] {
      BoundedValue(f, items[0]);
      assert forall i :: 0 <= i < |items[1..]| ==> items[1..][i] == items[i + 1];
      BoundedItems(f, items[1..], keyed);
      TerminatedSplit(f, items);
    }
  }

  lemma BoundedSlot(f: Field, s: Slot)
    requires ValidField(f) && StaticField(f) && SlotTyped(f, s) && SlotFits(f, s)
    ensures FieldBytes(f, s).Some? && TerminatedSlot(f, s)
    decreases f, 2
  {
    hide ValidField, Holds, Fits, ValueBytes, Terminated;
    match f.rule {
      case Repeated =>
        BoundedItems(f, s.items, false);
        BoundedItems(f, s.items, true);
      case _ =>
        if Present(f, s) {
          BoundedValue(f, s.v);
        }
    }
  }

  lemma {:induction false} BoundedEncodes(t: Table, i: nat, m: Memory)
    requires ValidTable(t) && StaticTable(t) && Typed(t, m) && Bounded(t, m) && i <= |t|
    ensures FieldsFrom(t, i, m).Some? && TerminatedFrom(t, i, m)
    decreases t, 3, |t| - i
  {
    if i < |t| {
      BoundedSlot(t[i], m[Offset(t, i)]);
      BoundedEncodes(t, i + 1, m);
    }
  }
}
