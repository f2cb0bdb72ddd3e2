/**
 Laws of the decoder on streams of complete fields. `Complete` is a grammar of the wire
 format alone: it says where each field ends without looking at the values. On such a
 stream decoding is compositional, unknown fields do not matter, and the required-field
 check depends only on which tags occur.
 */
module Merge {
  import opened Bits
  import opened Schema
  import opened Wrappers
  import opened EncodeSpec
  import opened DecodeSpec
  import opened ScalarCodec
  import Varint

  // ---------- Complete fields ----------

  /** The payload of a known field is all there; the result is what follows it. */
  function Payload(f: Field, wireType: nat, s: seq<byte>): (r: Parsed<()>)
    ensures r.Ok? ==> |r.rest| < |s| && r.lag == 0
    decreases |s|, 1
  {
    if f.atype.Callback? then SkipField(wireType, s)
    else if f.rule.Repeated? && wireType == WT_STRING && Packable(f.ltype) then SkipField(WT_STRING, s)
    else
      match f.ltype
      case Scalar(Fixed32Type) => SkipField(WT_32BIT, s)
      case Scalar(Fixed64Type) => SkipField(WT_64BIT, s)
      case Scalar(_) => (match Varint64(s) case Fail => Fail case Ok(_, rest, _) => Ok((), rest))
      case Submessage(t) =>
        (match TakeDelimited(s)
         case Fail => Fail
         case Ok(inner, rest, _) => if Complete(t, inner) then Ok((), rest) else Fail)
      case _ => SkipField(WT_STRING, s)
  }

  /** The payload after a tag, known to the table or not. */
  function AnyPayload(t: Table, number: nat, wireType: nat, s: seq<byte>): (r: Parsed<()>)
    ensures r.Ok? ==> |r.rest| < |s| && r.lag == 0
    decreases |s|, 2
  {
    var i := Find(t, number);
    if i < |t| then Payload(t[i], wireType, s)
    else if t == [] && number == 0 then Fail
    else SkipField(wireType, s)
  }

  /** A sequence of whole fields, with nothing cut off and no zero tag, at any depth. */
  predicate Complete(t: Table, s: seq<byte>)
    decreases |s|, 3
  {
    s == [] ||
    match DecodeTag(s)
    case Tag(number, wireType, r) =>
      (match AnyPayload(t, number, wireType, r)
       case Fail => false
       case Ok(_, rest, _) => Complete(t, rest))
    case _ => false
  }

  // ---------- More input does not change what was complete ----------

  /** The parser's result, with `x` appended to the unread input. */
  function Extend<T>(p: Parsed<T>, x: seq<byte>): Parsed<T> {
    match p
    case Fail => Fail
    case Ok(v, rest, lag) => Ok(v, rest + x, lag)
  }

  lemma ScanExtends(s: seq<byte>, k: nat, x: seq<byte>)
    requires Varint.Groups(s, k).Done?
    ensures Varint.Groups(s + x, k) == Varint.Groups(s, k)
    ensures (s + x)[Varint.Groups(s, k).used..] == s[Varint.Groups(s, k).used..] + x
  {
    Varint.GroupsExtend(s, k, x);
  }

  lemma TakeExtends(s: seq<byte>, n: nat, x: seq<byte>)
    requires Take(s, n).Ok?
    ensures Take(s + x, n) == Extend(Take(s, n), x)
  {
    assert (s + x)[..n] == s[..n] && (s + x)[n..] == s[n..] + x;
  }

  lemma Varint32Extends(s: seq<byte>, x: seq<byte>)
    requires Varint32(s).Ok?
    ensures Varint32(s + x) == Extend(Varint32(s), x)
  {
    ScanExtends(s, Varint.LIMIT32, x);
  }

  lemma Varint64Extends(s: seq<byte>, x: seq<byte>)
    requires Varint64(s).Ok?
    ensures Varint64(s + x) == Extend(Varint64(s), x)
  {
    ScanExtends(s, Varint.LIMIT64, x);
  }

  lemma DelimitedExtends(s: seq<byte>, x: seq<byte>)
    requires TakeDelimited(s).Ok?
    ensures TakeDelimited(s + x) == Extend(TakeDelimited(s), x)
  {
    Varint32Extends(s, x);
    TakeExtends(Varint32(s).rest, Varint32(s).v, x);
  }

  lemma SkipExtends(wireType: nat, s: seq<byte>, x: seq<byte>)
    requires SkipField(wireType, s).Ok?
    ensures SkipField(wireType, s + x) == Extend(SkipField(wireType, s), x)
  {
    if wireType == WT_VARINT {
      ScanExtends(s, |s| + 1, x);
      Varint.GroupsUsed(s + x, |s| + 1, |s + x| + 1);
    } else if wireType == WT_64BIT {
      TakeExtends(s, 8, x);
    } else if wireType == WT_STRING {
      DelimitedExtends(s, x);
    } else {
      TakeExtends(s, 4, x);
    }
  }

  lemma TagExtends(s: seq<byte>, x: seq<byte>)
    requires DecodeTag(s).Tag?
    ensures DecodeTag(s + x) == Tag(DecodeTag(s).number, DecodeTag(s).wireType, DecodeTag(s).rest + x)
  {
    ScanExtends(s, Varint.LIMIT32, x);
  }

  // ---------- Decoding one complete payload ----------

  lemma ScalarEnds(f: Field, s: seq<byte>, x: seq<byte>)
    requires f.ltype.Scalar? && !f.atype.Callback?
    requires Payload(f, WT_VARINT, s).Ok?
    ensures DecodeScalar(f, s).Ok? ==> DecodeScalar(f, s).rest == Payload(f, WT_VARINT, s).rest
    ensures DecodeScalar(f, s + x) == Extend(DecodeScalar(f, s), x)
  {
    match f.ltype.kind {
      case Fixed32Type => TakeExtends(s, 4, x);
      case Fixed64Type => TakeExtends(s, 8, x);
      case _ => Varint64Extends(s, x);
    }
  }

  /** A decoder stops where the payload ends, and does not see what comes after it. */
  lemma {:induction false} ValueEnds(f: Field, wireType: nat, s: seq<byte>, old_: Value, x: seq<byte>)
    requires !f.atype.Callback? && !(f.rule.Repeated? && wireType == WT_STRING && Packable(f.ltype))
    requires Payload(f, wireType, s).Ok?
    ensures DecodeValue(f, s, old_).Ok? ==>
              DecodeValue(f, s, old_).rest == Payload(f, wireType, s).rest && DecodeValue(f, s, old_).lag == 0
    ensures DecodeValue(f, s + x, old_) == Extend(DecodeValue(f, s, old_), x)
    decreases |s|, 1
  {
    match f.ltype {
      case Scalar(_) =>
        hide SkipField, Complete, TakeDelimited, DecodeScalar;
        assert Payload(f, wireType, s) == Payload(f, WT_VARINT, s);
        ScalarEnds(f, s, x);
      case Submessage(t) =>
        SubmessageEnds(f, s, old_, x);
      case _ =>
        StringEnds(f, s, old_, x);
    }
  }

  lemma {:induction false} SubmessageEnds(f: Field, s: seq<byte>, old_: Value, x: seq<byte>)
    requires f.ltype.Submessage? && TakeDelimited(s).Ok? && Complete(f.ltype.sub, TakeDelimited(s).v)
    ensures DecodeValue(f, s, old_).Ok? ==>
              DecodeValue(f, s, old_).rest == TakeDelimited(s).rest && DecodeValue(f, s, old_).lag == 0
    ensures DecodeValue(f, s + x, old_) == Extend(DecodeValue(f, s, old_), x)
    decreases |s|, 0
  {
    hide SkipField, Complete, TakeDelimited, DecodeLoop, AllSeen, Defaults;
    DelimitedExtends(s, x);
    var inner := TakeDelimited(s).v;
    var dest := if f.rule.Repeated? || !old_.Msg? then Defaults(f.ltype.sub) else old_.cells;
    CompleteConsumed(f.ltype.sub, inner, dest, {});
  }

  lemma StringEnds(f: Field, s: seq<byte>, old_: Value, x: seq<byte>)
    requires f.ltype.BytesType? || f.ltype.StringType? || f.ltype.Extension?
    requires SkipField(WT_STRING, s).Ok?
    ensures DecodeValue(f, s, old_).Ok? ==>
              DecodeValue(f, s, old_).rest == SkipField(WT_STRING, s).rest && DecodeValue(f, s, old_).lag == 0
    ensures DecodeValue(f, s + x, old_) == Extend(DecodeValue(f, s, old_), x)
  {
    hide Varint32;
    Varint32Extends(s, x);
    TakeExtends(Varint32(s).rest, Varint32(s).v, x);
  }

  lemma FieldEnds(f: Field, wireType: nat, s: seq<byte>, slot: Slot, x: seq<byte>)
    requires Payload(f, wireType, s).Ok?
    ensures DecodeField(f, wireType, s, slot).Ok? ==>
              && DecodeField(f, wireType, s, slot).rest == Payload(f, wireType, s).rest
              && DecodeField(f, wireType, s, slot).lag == 0
    ensures DecodeField(f, wireType, s + x, slot) == Extend(DecodeField(f, wireType, s, slot), x)
    decreases |s|, 2
  {
    hide DecodeValue, Complete, TakeDelimited, DecodePacked, DefaultValue, DecodeScalar, Varint64;
    if f.atype.Callback? {
      SkipExtends(wireType, s, x);
    } else if f.rule.Repeated? && wireType == WT_STRING && Packable(f.ltype) {
      SkipString(s);
      DelimitedExtends(s, x);
    } else {
      hide SkipField, Payload;
      if f.rule.Repeated? {
        ValueEnds(f, wireType, s, Int(0), x);
      } else if f.rule.Oneof? {
        ValueEnds(f, wireType, s, DefaultValue(f), x);
      } else {
        ValueEnds(f, wireType, s, OldValue(slot), x);
      }
    }
  }

  lemma SkipString(s: seq<byte>)
    ensures SkipField(WT_STRING, s)
         == match TakeDelimited(s) case Fail => Fail case Ok(_, rest, _) => Ok((), rest)
  {
  }

  /** On a complete stream the loop consumes every byte or fails. */
  lemma {:induction false} CompleteConsumed(t: Table, s: seq<byte>, m: Memory, seen: set<nat>)
    requires Complete(t, s)
    ensures DecodeLoop(t, s, m, seen).Loop? ==>
              DecodeLoop(t, s, m, seen).rest == [] && DecodeLoop(t, s, m, seen).lag == 0
    decreases |s|, 3
  {
    hide SkipField, Payload, DecodeField, DecodeTag;
    if s != [] {
      var Tag(number, wireType, r) := DecodeTag(s);
      var i := Find(t, number);
      if i == |t| {
        CompleteConsumed(t, SkipField(wireType, r).rest, m, seen);
      } else {
        var slot := Get(m, Offset(t, i));
        FieldEnds(t[i], wireType, r, slot, []);
        var d := DecodeField(t[i], wireType, r, slot);
        if d.Ok? {
          CompleteConsumed(t, d.rest, m[Offset(t, i) := d.v], Mark(t, i, seen));
        }
      }
    }
  }

  // ---------- The merge law ----------

  /** Run the loop on more input from where another run ended. */
  function Then(t: Table, first: Loop, s: seq<byte>): Loop {
    match first
    case Broken => Broken
    case Loop(m, _, seen, lag) => DecodeLoop(t, s, m, seen, lag)
  }

  /** Decoding complete fields followed by anything is decoding the one and then the other. */
  lemma {:induction false} LoopConcat(t: Table, a: seq<byte>, b: seq<byte>, m: Memory, seen: set<nat>)
    requires Complete(t, a)
    ensures DecodeLoop(t, a + b, m, seen) == Then(t, DecodeLoop(t, a, m, seen), b)
    decreases |a|
  {
    hide SkipField, Payload, DecodeField, DecodeTag;
    if a == [] {
      assert a + b == b;
    } else {
      var Tag(number, wireType, r) := DecodeTag(a);
      TagExtends(a, b);
      var i := Find(t, number);
      if i == |t| {
        SkipExtends(wireType, r, b);
        LoopConcat(t, SkipField(wireType, r).rest, b, m, seen);
      } else {
        var slot := Get(m, Offset(t, i));
        FieldEnds(t[i], wireType, r, slot, b);
        var d := DecodeField(t[i], wireType, r, slot);
        if d.Ok? {
          LoopConcat(t, d.rest, b, m[Offset(t, i) := d.v], Mark(t, i, seen));
        }
      }
    }
  }

  /** Merge law of pb_decode_noinit: for a table without required fields, decoding A ++ B
      into a struct is decoding A into it and then B, errors included. B is arbitrary. */
  lemma MergeLaw(t: Table, a: seq<byte>, b: seq<byte>, m: Memory)
    requires RequiredCount(t) == 0 && Complete(t, a)
    ensures DecodeNoInit(t, a + b, m)
         == match DecodeNoInit(t, a, m)
            case Fail => Fail
            case Ok(m1, _, _) => DecodeNoInit(t, b, m1)
  {
    hide DecodeLoop, Complete;
    LoopConcat(t, a, b, m, {});
    CompleteConsumed(t, a, m, {});
    if DecodeLoop(t, a, m, {}).Loop? {
      NoRequiredSeen(t, a, m, {}, 0);
    }
  }

  lemma {:induction false} NoRequiredSeen(t: Table, s: seq<byte>, m: Memory, seen: set<nat>, lag: nat)
    requires RequiredCount(t) == 0 && DecodeLoop(t, s, m, seen, lag).Loop?
    ensures DecodeLoop(t, s, m, seen, lag).seen == seen
    decreases |s|
  {
    hide SkipField, DecodeField;
    if s != [] && DecodeTag(s).Tag? {
      var Tag(number, wireType, r) := DecodeTag(s);
      var i := Find(t, number);
      if i == |t| {
        NoRequiredSeen(t, SkipField(wireType, r).rest, m, seen, lag);
      } else {
        RequiredSteps(t, i, |t|);
        var d := DecodeField(t[i], wireType, r, Get(m, Offset(t, i)));
        NoRequiredSeen(t, d.rest, m[Offset(t, i) := d.v], seen, lag + d.lag);
      }
    }
  }

  // ---------- Unknown fields ----------

  /** One whole field that the table does not know, of a wire type that can be skipped. */
  predicate UnknownField(t: Table, u: seq<byte>) {
    && DecodeTag(u).Tag?
    && Find(t, DecodeTag(u).number) == |t|
    && (t == [] ==> DecodeTag(u).number != 0)
    && SkipField(DecodeTag(u).wireType, DecodeTag(u).rest) == Ok((), [])
  }

  /** Inserting unknown fields at a field boundary does not change the outcome. */
  lemma UnknownTransparent(t: Table, a: seq<byte>, u: seq<byte>, b: seq<byte>, m: Memory)
    requires Complete(t, a) && UnknownField(t, u)
    ensures DecodeNoInit(t, a + u + b, m) == DecodeNoInit(t, a + b, m)
  {
    hide Complete, UnknownField, DecodeLoop, AllSeen;
    LoopConcat(t, a, b, m, {});
    LoopConcat(t, a, u + b, m, {});
    CompleteConsumed(t, a, m, {});
    assert a + u + b == a + (u + b);
    var first := DecodeLoop(t, a, m, {});
    if first.Loop? {
      UnknownSkipped(t, u, b, first.m, first.seen);
    }
  }

  lemma UnknownSkipped(t: Table, u: seq<byte>, b: seq<byte>, m: Memory, seen: set<nat>)
    requires UnknownField(t, u)
    ensures DecodeLoop(t, u + b, m, seen) == DecodeLoop(t, b, m, seen)
  {
    hide SkipField;
    TagExtends(u, b);
    SkipExtends(DecodeTag(u).wireType, DecodeTag(u).rest, b);
    assert [] + b == b;
  }

  /** pb_skip_field consumes exactly the payload of each skippable wire type. */
  lemma SkipConsumes(v: nat, s: seq<byte>, x: seq<byte>)
    requires v < U64 && |s| < U32
    ensures SkipField(0, Varint.Encode(v) + x) == Ok((), x)
    ensures SkipField(2, Varint.Encode(|s|) + s + x) == Ok((), x)
    ensures |s| == 8 ==> SkipField(1, s + x) == Ok((), x)
    ensures |s| == 4 ==> SkipField(5, s + x) == Ok((), x)
    ensures forall w :: w !in {0, 1, 2, 5} ==> SkipField(w, x) == Fail
  {
    hide Varint.Encode, SkipVarint, TakeDelimited, Take;
    SkipVarintOk(v, x);
    TakeOk(s, x);
    LengthOk(s, x);
    DivideUnique(|s|, U64, 0, |s|);
    assert Varint.Encode(|s|) + s + x == Delimited(s) + x;
  }

  // ---------- Scalars: the last one wins; arrays: items append ----------

  /** A second record of the same scalar, bytes, string or union field erases the first. */
  lemma LastOneWins(t: Table, i: nat, first: seq<byte>, second: seq<byte>, m: Memory, seen: set<nat>)
    requires DistinctTags(t) && i < |t| && t[i].atype.Static? && !t[i].rule.Repeated?
    requires t[i].ltype.Submessage? ==> t[i].rule.Oneof?
    requires OneField(t, i, first) && DecodeLoop(t, first, m, seen).Loop?
    requires DecodeTag(second).Tag? && DecodeTag(second).number == t[i].tag
    ensures DecodeLoop(t, first + second, m, seen) == DecodeLoop(t, second, m, seen)
  {
    hide DecodeLoop, DecodeField, Payload, Complete, Offset, DistinctTags, Mark, Find;
    var at := Offset(t, i);
    OneFieldComplete(t, i, first);
    LoopConcat(t, first, second, m, seen);
    FindTag(t, i);
    var w1, p1 := DecodeTag(first).wireType, DecodeTag(first).rest;
    var w2, p2 := DecodeTag(second).wireType, DecodeTag(second).rest;
    FieldEnds(t[i], w1, p1, Get(m, at), []);
    FieldStep(t, i, first, m, seen);
    var s1 := DecodeField(t[i], w1, p1, Get(m, at)).v;
    var m1, seen1 := m[at := s1], Mark(t, i, seen);
    LoopNothing(t, m1, seen1);
    SlotForgotten(t[i], w2, p2, s1, Get(m, at));
    FieldStep(t, i, second, m1, seen1);
    FieldStep(t, i, second, m, seen);
    MarkTwice(t, i, seen);
    var d := DecodeField(t[i], w2, p2, s1);
    assert d.Ok? ==> m1[at := d.v] == m[at := d.v];
  }

  lemma OneFieldComplete(t: Table, i: nat, s: seq<byte>)
    requires i < |t| && OneField(t, i, s)
    ensures Complete(t, s)
  {
    hide Payload;
    assert Complete(t, []);
  }

  /** One round of the loop on a known field. */
  lemma FieldStep(t: Table, i: nat, s: seq<byte>, m: Memory, seen: set<nat>)
    requires i < |t| && DecodeTag(s).Tag? && DecodeTag(s).number == t[i].tag && Find(t, t[i].tag) == i
    ensures var d := DecodeField(t[i], DecodeTag(s).wireType, DecodeTag(s).rest, Get(m, Offset(t, i)));
            DecodeLoop(t, s, m, seen)
            == if d.Ok? then DecodeLoop(t, d.rest, m[Offset(t, i) := d.v], Mark(t, i, seen), d.lag) else Broken
  {
    hide DecodeField, Offset, Mark;
  }

  lemma LoopNothing(t: Table, m: Memory, seen: set<nat>)
    ensures DecodeLoop(t, [], m, seen) == Loop(m, [], seen)
  {
  }

  lemma MarkTwice(t: Table, i: nat, seen: set<nat>)
    requires i < |t|
    ensures Mark(t, i, Mark(t, i, seen)) == Mark(t, i, seen)
  {
  }

  /** Exactly one complete record of field i. */
  predicate OneField(t: Table, i: nat, s: seq<byte>)
    requires i < |t|
  {
    && DecodeTag(s).Tag?
    && DecodeTag(s).number == t[i].tag
    && Find(t, t[i].tag) == i
    && Payload(t[i], DecodeTag(s).wireType, DecodeTag(s).rest) == Ok((), [])
  }

  lemma FindTag(t: Table, i: nat)
    requires DistinctTags(t) && i < |t|
    ensures Find(t, t[i].tag) == i
  {
  }

  lemma SlotForgotten(f: Field, wireType: nat, s: seq<byte>, a: Slot, b: Slot)
    requires f.atype.Static? && !f.rule.Repeated? && (f.ltype.Submessage? ==> f.rule.Oneof?)
    ensures DecodeField(f, wireType, s, a) == DecodeField(f, wireType, s, b)
  {
  }

  /** A record of an array field appends to what is there, packed or not, as long as there
      is room. */
  lemma RepeatedAppends(f: Field, wireType: nat, s: seq<byte>, items: seq<Value>)
    requires f.atype.Static? && f.rule.Repeated?
    requires DecodeField(f, wireType, s, Rep([])).Ok?
    ensures var r := DecodeField(f, wireType, s, Rep([]));
            && r.v.Rep?
            && DecodeField(f, wireType, s, Rep(items))
            == if r.v.items == [] || |items| + |r.v.items| <= f.arraySize
               then Ok(Rep(items + r.v.items), r.rest, r.lag)
               else Fail
  {
    if wireType == WT_STRING && Packable(f.ltype) {
      PackedAppends(f, TakeDelimited(s).v, [], items);
      assert items + [] == items;
    } else {
      var v := DecodeValue(f, s, Int(0));
      assert Items(Rep([])) + [v.v] == [v.v];
    }
  }

  lemma {:induction false} PackedAppends(f: Field, s: seq<byte>, prior: seq<Value>, items: seq<Value>)
    requires f.ltype.Scalar? && DecodePacked(f, s, prior).Some?
    ensures prior <= DecodePacked(f, s, prior).value
    ensures DecodePacked(f, s, items + prior)
         == if s == [] || |items| + |DecodePacked(f, s, prior).value| <= f.arraySize
            then Some(items + DecodePacked(f, s, prior).value) else None
    ensures s != [] ==> |DecodePacked(f, s, prior).value| > |prior|
    decreases |s|
  {
    hide DecodeScalar;
    if s != [] {
      var d := DecodeScalar(f, s);
      PackedAppends(f, d.rest, prior + [d.v], items);
      assert items + (prior + [d.v]) == items + prior + [d.v];
      assert DecodePacked(f, s, prior) == DecodePacked(f, d.rest, prior + [d.v]);
    }
  }

  // ---------- Required fields ----------

  /** The tags of a complete stream. */
  function Tags(t: Table, s: seq<byte>): set<nat>
    requires Complete(t, s)
    decreases |s|
  {
    if s == [] then {}
    else
      var Tag(number, wireType, r) := DecodeTag(s);
      {number} + Tags(t, AnyPayload(t, number, wireType, r).rest)
  }

  lemma {:induction false} SeenMeansTag(t: Table, s: seq<byte>, m: Memory, seen: set<nat>, j: nat)
    requires DistinctTags(t) && Complete(t, s) && DecodeLoop(t, s, m, seen).Loop?
    requires j < |t| && t[j].rule.Required? && RequiredCount(t) <= 64
    ensures RequiredBefore(t, j) in DecodeLoop(t, s, m, seen).seen
            <==> RequiredBefore(t, j) in seen || t[j].tag in Tags(t, s)
    decreases |s|
  {
    hide SkipField, Payload, DecodeField, DecodeTag;
    if s != [] {
      var Tag(number, wireType, r) := DecodeTag(s);
      var i := Find(t, number);
      if i == |t| {
        SeenMeansTag(t, SkipField(wireType, r).rest, m, seen, j);
      } else {
        var slot := Get(m, Offset(t, i));
        FieldEnds(t[i], wireType, r, slot, []);
        var d := DecodeField(t[i], wireType, r, slot);
        RequiredIndices(t, i, j);
        SeenMeansTag(t, d.rest, m[Offset(t, i) := d.v], Mark(t, i, seen), j);
      }
    }
  }

  /** Different required fields have different indices, all below the count. */
  lemma RequiredIndices(t: Table, i: nat, j: nat)
    requires i < |t| && j < |t| && t[j].rule.Required?
    ensures RequiredBefore(t, j) < RequiredCount(t)
    ensures t[i].rule.Required? ==>
              RequiredBefore(t, i) < RequiredCount(t) && (RequiredBefore(t, i) == RequiredBefore(t, j) <==> i == j)
  {
    RequiredSteps(t, j, |t|);
    RequiredSteps(t, i, |t|);
    if i < j {
      RequiredSteps(t, i, j);
    } else {
      RequiredSteps(t, j, i);
    }
  }

  lemma {:induction false} RequiredField(t: Table, n: nat, r: nat) returns (j: nat)
    requires n <= |t| && r < RequiredBefore(t, n)
    ensures j < n && t[j].rule.Required? && RequiredBefore(t, j) == r
    decreases n
  {
    if r < RequiredBefore(t, n - 1) {
      j := RequiredField(t, n - 1, r);
    } else {
      j := n - 1;
    }
  }

  /** Decoding complete, decodable fields succeeds exactly when every required tag occurs,
      in whatever order and however often. */
  lemma RequiredIff(t: Table, s: seq<byte>, m: Memory)
    requires DistinctTags(t) && RequiredCount(t) <= 64
    requires Complete(t, s) && DecodeLoop(t, s, m, {}).Loop?
    ensures DecodeNoInit(t, s, m).Ok?
            <==> forall j :: 0 <= j < |t| && t[j].rule.Required? ==> t[j].tag in Tags(t, s)
  {
    var seen := DecodeLoop(t, s, m, {}).seen;
    forall j | 0 <= j < |t| && t[j].rule.Required?
      ensures RequiredBefore(t, j) < RequiredCount(t)
      ensures RequiredBefore(t, j) in seen <==> t[j].tag in Tags(t, s)
    {
      SeenMeansTag(t, s, m, {}, j);
      RequiredIndices(t, j, j);
    }
    if forall j :: 0 <= j < |t| && t[j].rule.Required? ==> t[j].tag in Tags(t, s) {
      forall r | 0 <= r < RequiredCount(t)
        ensures r in seen
      {
        var j := RequiredField(t, |t|, r);
      }
    }
  }

  // ---------- Ends of input and the empty table ----------

  /** The first k bytes, as far as there are any, all have the continuation bit. */
  predicate AllContinue(s: seq<byte>, k: nat) {
    forall i :: 0 <= i < |s| && i < k ==> s[i] >= 128
  }

  /** A scan gives no value if and only if it meets nothing but continuation bytes. */
  lemma {:induction false} OnlyContinuations(s: seq<byte>, k: nat)
    ensures Varint.Groups(s, k).Done? <==> !AllContinue(s, k)
    ensures AllContinue(s, k) ==> Varint.Groups(s, k) == if |s| < k then Varint.Short else Varint.Over
    decreases k
  {
    if k > 0 && s != [] {
      OnlyContinuations(s[1..], k - 1);
      assert forall i :: 1 <= i < |s| && i < k ==> s[i] == s[1..][i - 1];
    }
  }

  /** Bytes that begin with a zero key. */
  predicate ZeroKey(s: seq<byte>) {
    var g := Varint.Groups(s, Varint.LIMIT32);
    g.Done? && g.value % U32 == 0
  }

  /** Exactly when a key counts as a clean end: when it is zero, or when the input is one to
      five bytes that all have the continuation bit, although five of them can never become
      a key. They are dropped; when anything follows the five, the same bytes are an error,
      and that is the only way in which reading a key fails. */
  lemma CutOffKey(t: Table, s: seq<byte>, m: Memory, seen: set<nat>)
    requires s != []
    ensures DecodeTag(s).Eof? <==> ZeroKey(s) || (|s| <= 5 && AllContinue(s, 5))
    ensures DecodeTag(s).BadTag? <==> |s| > 5 && AllContinue(s, 5)
    ensures AllContinue(s, 5) ==> DecodeLoop(t, s, m, seen) == if |s| <= 5 then Loop(m, [], seen) else Broken
  {
    hide Varint.Groups, AllContinue;
    OnlyContinuations(s, 5);
  }

  /** On an empty table a key with tag 0 and a nonzero wire type is an error; on any table
      with entries it is an unknown field. */
  lemma TagZero(t: Table, wireType: nat, s: seq<byte>, m: Memory)
    requires 1 <= wireType < 8 && forall i :: 0 <= i < |t| ==> t[i].tag != 0
    ensures t == [] ==> DecodeNoInit(t, [wireType] + s, m) == Fail
    ensures t != [] && SkipField(wireType, s).Ok? ==>
              DecodeNoInit(t, [wireType] + s, m) == DecodeNoInit(t, SkipField(wireType, s).rest, m)
  {
    hide SkipField;
    assert ([wireType] + s)[1..] == s;
    assert DecodeTag([wireType] + s) == Tag(0, wireType, s);
    assert Find(t, 0) == |t|;
  }

  // ---------- The wire type of a known field ----------

  /** The fields whose decoding depends on the wire type: a NULL callback is skipped by it,
      and it tells a packed array from a single item. */
  predicate LooksAtWireType(f: Field) {
    f.atype.Callback? || (f.atype.Static? && f.rule.Repeated? && Packable(f.ltype))
  }

  /** Every other field is read as its own type, whatever the key says. */
  lemma WireTypeIgnored(f: Field, v: nat, w: nat, s: seq<byte>, slot: Slot)
    requires !LooksAtWireType(f)
    ensures DecodeField(f, v, s, slot) == DecodeField(f, w, s, slot)
  {
    hide DecodeValue, SkipField, TakeDelimited;
  }

  ghost predicate WireTypeMatters(f: Field) {
    exists v: nat, w: nat, s: seq<byte>, slot: Slot ::
      v < 8 && w < 8 && DecodeField(f, v, s, slot) != DecodeField(f, w, s, slot)
  }

  /** Two wire types give different results, for some payload and some contents of the
      struct, if and only if the descriptor is one of those. */
  lemma WireTypeIff(f: Field)
    ensures WireTypeMatters(f) <==> LooksAtWireType(f)
  {
    if f.atype.Callback? {
      SkippedByType(f);
      assert WireTypeMatters(f);
    } else if LooksAtWireType(f) {
      PackedByType(f);
      assert WireTypeMatters(f);
    } else {
      forall v: nat, w: nat, s: seq<byte>, slot: Slot
        ensures DecodeField(f, v, s, slot) == DecodeField(f, w, s, slot)
      {
        WireTypeIgnored(f, v, w, s, slot);
      }
    }
  }

  /** Four bytes are one fixed32 payload, and no payload of wire type 3. */
  lemma SkippedByType(f: Field)
    requires f.atype.Callback?
    ensures DecodeField(f, WT_32BIT, [0, 0, 0, 0], Hook(None)).Ok?
    ensures DecodeField(f, 3, [0, 0, 0, 0], Hook(None)).Fail?
  {
  }

  /** A zero byte is an empty packed array, and never a single item that leaves the array
      empty. */
  lemma PackedByType(f: Field)
    requires f.atype.Static? && f.rule.Repeated? && Packable(f.ltype)
    ensures DecodeField(f, WT_STRING, [0], Rep([])) == Ok(Rep([]), [])
    ensures DecodeField(f, WT_VARINT, [0], Rep([])) != Ok(Rep([]), [])
  {
    hide DecodeScalar;
    assert TakeDelimited([0]) == Ok([], []);
  }
}
