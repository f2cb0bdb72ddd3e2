/**
 Unknown fields at any depth: inside a submessage, inside a submessage of that one, and so
 on, each length prefix counting them.
 */
module Transparent {
  import opened Bits
  import opened Schema
  import opened Wrappers
  import opened EncodeSpec
  import opened DecodeSpec
  import opened ScalarCodec
  import opened RoundTrip
  import opened Merge
  import opened Concat
  import Varint

  // ---------- Places in a message ----------

  /** A place in the bytes of a message: between two stretches of bytes, or inside the
      submessage of field i, which stands between them. */
  datatype Place =
    | Here(before: seq<byte>, after: seq<byte>)
    | Inside(before: seq<byte>, i: nat, inner: Place, after: seq<byte>)

  /** Only complete fields come before the place, at every level. What comes behind it is
      arbitrary. */
  predicate IsPlace(t: Table, p: Place)
    decreases p
  {
    && Complete(t, p.before)
    && (p.Inside? ==>
          && p.i < |t| && DistinctTags(t) && 1 <= t[p.i].tag <= PB_SIZE_MAX
          && t[p.i].ltype.Submessage? && IsPlace(t[p.i].ltype.sub, p.inner))
  }

  /** The table that describes the bytes at the place. */
  function TableAt(t: Table, p: Place): Table
    requires IsPlace(t, p)
    decreases p
  {
    if p.Here? then t else TableAt(t[p.i].ltype.sub, p.inner)
  }

  /** The message with `u` at the place. */
  function Filled(t: Table, p: Place, u: seq<byte>): seq<byte>
    requires IsPlace(t, p)
    decreases p
  {
    if p.Here? then p.before + u + p.after
    else p.before + (FieldKey(t[p.i]) + (Delimited(Filled(t[p.i].ltype.sub, p.inner, u)) + p.after))
  }

  // ---------- Messages that decode alike ----------

  /** The last n bytes agree. */
  predicate SameEnd(x: seq<byte>, y: seq<byte>, n: nat) {
    n <= |x| && n <= |y| && x[|x| - n..] == y[|y| - n..]
  }

  /** Decoding x or y into any struct has the same outcome, the bytes left unread included. */
  ghost predicate Alike(t: Table, x: seq<byte>, y: seq<byte>) {
    forall m: Memory :: AlikeInto(t, x, y, m)
  }

  predicate AlikeInto(t: Table, x: seq<byte>, y: seq<byte>, m: Memory) {
    var r := DecodeNoInit(t, x, m);
    DecodeNoInit(t, y, m) == r && (r.Ok? ==> SameEnd(x, y, |r.rest| + r.lag))
  }

  lemma SameEndBetween(a: seq<byte>, x: seq<byte>, b: seq<byte>, y: seq<byte>, c: seq<byte>, n: nat)
    requires SameEnd(x, y, n)
    ensures SameEnd(a + x + c, b + y + c, n + |c|)
  {
    var u, v := a + x + c, b + y + c;
    assert u[|u| - (n + |c|)..] == x[|x| - n..] + c;
    assert v[|v| - (n + |c|)..] == y[|y| - n..] + c;
  }

  lemma SameEndShorter(x: seq<byte>, y: seq<byte>, n: nat, k: nat)
    requires SameEnd(x, y, n) && k <= n
    ensures SameEnd(x, y, k)
  {
    assert x[|x| - k..] == x[|x| - n..][n - k..];
    assert y[|y| - k..] == y[|y| - n..][n - k..];
  }

  lemma SameEndSame(a: seq<byte>, b: seq<byte>, x: seq<byte>, n: nat)
    requires n <= |x|
    ensures SameEnd(a + x, b + x, n)
  {
    assert (a + x)[|a + x| - n..] == x[|x| - n..] == (b + x)[|b + x| - n..];
  }

  /** The parent continues with the same bytes behind submessages that end alike. */
  lemma AfterAlike(x: seq<byte>, y: seq<byte>, unread: seq<byte>, lag: nat, after: seq<byte>)
    requires SameEnd(x, y, |unread| + lag)
    ensures AfterSubstream(x, unread, lag, after) == AfterSubstream(y, unread, lag, after)
  {
    var n := |unread| + lag;
    assert (x + after)[|x| - n..] == x[|x| - n..] + after;
    assert (y + after)[|y| - n..] == y[|y| - n..] + after;
  }

  // ---------- Inside one submessage ----------

  lemma ValueAlike(f: Field, x: seq<byte>, y: seq<byte>, after: seq<byte>, old_: Value)
    requires f.ltype.Submessage? && |x| < U32 && |y| < U32 && Alike(f.ltype.sub, x, y)
    ensures var r := DecodeValue(f, Delimited(x) + after, old_);
            DecodeValue(f, Delimited(y) + after, old_) == r
            && (r.Ok? ==> SameEnd(Delimited(x) + after, Delimited(y) + after, |r.rest| + r.lag))
  {
    hide Delimited, DecodeValue, Defaults, DecodeNoInit, SameEnd, AfterSubstream;
    var dest := Destination(f, old_);
    assert AlikeInto(f.ltype.sub, x, y, dest);
    SubmessageDecoded(f, x, after, old_);
    SubmessageDecoded(f, y, after, old_);
    var sub := DecodeNoInit(f.ltype.sub, x, dest);
    if sub.Ok? {
      AfterAlike(x, y, sub.rest, sub.lag, after);
      var n := |sub.rest| + sub.lag;
      LengthPrefix(x);
      LengthPrefix(y);
      SameEndBetween(Varint.Encode(|x| % U64), x, Varint.Encode(|y| % U64), y, after, n);
      assert |AfterSubstream(x, sub.rest, sub.lag, after)| == |after|;
    }
  }

  lemma LengthPrefix(x: seq<byte>)
    ensures Delimited(x) == Varint.Encode(|x| % U64) + x
  {
  }

  lemma FieldAlike(f: Field, x: seq<byte>, y: seq<byte>, after: seq<byte>, slot: Slot)
    requires f.ltype.Submessage? && |x| < U32 && |y| < U32 && Alike(f.ltype.sub, x, y)
    ensures var r := DecodeField(f, WT_STRING, Delimited(x) + after, slot);
            DecodeField(f, WT_STRING, Delimited(y) + after, slot) == r
            && (r.Ok? ==> SameEnd(Delimited(x) + after, Delimited(y) + after, |r.rest| + r.lag))
  {
    hide Delimited, DecodeValue, DefaultValue, SameEnd, SkipField;
    if f.atype.Callback? {
      SkipDelimited(x, after);
      SkipDelimited(y, after);
      SameEndSame(Delimited(x), Delimited(y), after, |after|);
    } else if f.atype.Static? {
      var old_ := if f.rule.Repeated? then Int(0) else if f.rule.Oneof? then DefaultValue(f) else OldValue(slot);
      ValueAlike(f, x, y, after, old_);
    }
  }

  lemma LoopAlike(t: Table, i: nat, x: seq<byte>, y: seq<byte>, after: seq<byte>, m: Memory, seen: set<nat>)
    requires i < |t| && DistinctTags(t) && 1 <= t[i].tag <= PB_SIZE_MAX
    requires t[i].ltype.Submessage? && |x| < U32 && |y| < U32 && Alike(t[i].ltype.sub, x, y)
    ensures var r := DecodeLoop(t, FieldKey(t[i]) + (Delimited(x) + after), m, seen);
            DecodeLoop(t, FieldKey(t[i]) + (Delimited(y) + after), m, seen) == r
            && (r.Loop? ==> SameEnd(Delimited(x) + after, Delimited(y) + after, |r.rest| + r.lag))
  {
    hide Delimited, Key, DecodeField, DecodeLoop, DecodeTag, Alike, SameEnd, Offset, Mark, Find, DistinctTags;
    var slot := Get(m, Offset(t, i));
    KeyOk(t, i, WT_STRING, Delimited(x) + after);
    KeyOk(t, i, WT_STRING, Delimited(y) + after);
    FieldAlike(t[i], x, y, after, slot);
    FieldStep(t, i, FieldKey(t[i]) + (Delimited(x) + after), m, seen);
    FieldStep(t, i, FieldKey(t[i]) + (Delimited(y) + after), m, seen);
    var d := DecodeField(t[i], WT_STRING, Delimited(x) + after, slot);
    if d.Ok? {
      var r := DecodeLoop(t, d.rest, m[Offset(t, i) := d.v], Mark(t, i, seen), d.lag);
      if r.Loop? {
        SameEndShorter(Delimited(x) + after, Delimited(y) + after, |d.rest| + d.lag, |r.rest| + r.lag);
      }
    }
  }

  /** Two streams behind the same complete fields. */
  lemma BehindAlike(t: Table, a: seq<byte>, u: seq<byte>, v: seq<byte>, m: Memory)
    requires Complete(t, a)
    requires forall m': Memory, seen: set<nat> ::
               var r := DecodeLoop(t, u, m', seen);
               DecodeLoop(t, v, m', seen) == r && (r.Loop? ==> SameEnd(u, v, |r.rest| + r.lag))
    ensures AlikeInto(t, a + u, a + v, m)
  {
    hide DecodeLoop, SameEnd, Complete, AllSeen;
    LoopConcat(t, a, u, m, {});
    LoopConcat(t, a, v, m, {});
    CompleteConsumed(t, a, m, {});
    var first := DecodeLoop(t, a, m, {});
    if first.Loop? {
      var r := DecodeLoop(t, u, first.m, first.seen);
      if r.Loop? {
        SameEndBetween(a, u, a, v, [], |r.rest| + r.lag);
        assert a + u + [] == a + u && a + v + [] == a + v;
      }
    }
  }

  /** Whatever makes no difference inside a submessage makes none outside. */
  lemma InsideAlike(t: Table, a: seq<byte>, i: nat, x: seq<byte>, y: seq<byte>, after: seq<byte>)
    requires Complete(t, a) && i < |t| && DistinctTags(t) && 1 <= t[i].tag <= PB_SIZE_MAX
    requires t[i].ltype.Submessage? && |x| < U32 && |y| < U32 && Alike(t[i].ltype.sub, x, y)
    ensures Alike(t, a + (FieldKey(t[i]) + (Delimited(x) + after)), a + (FieldKey(t[i]) + (Delimited(y) + after)))
  {
    hide Delimited, FieldKey, DecodeLoop, SameEnd, Complete, AlikeInto, DistinctTags;
    var u, v := FieldKey(t[i]) + (Delimited(x) + after), FieldKey(t[i]) + (Delimited(y) + after);
    forall m: Memory, seen: set<nat>
      ensures var r := DecodeLoop(t, u, m, seen);
              DecodeLoop(t, v, m, seen) == r && (r.Loop? ==> SameEnd(u, v, |r.rest| + r.lag))
    {
      LoopAlike(t, i, x, y, after, m, seen);
      var r := DecodeLoop(t, u, m, seen);
      if r.Loop? {
        SameEndBetween(FieldKey(t[i]), Delimited(x) + after, FieldKey(t[i]), Delimited(y) + after, [],
                       |r.rest| + r.lag);
        assert u + [] == u && v + [] == v;
      }
    }
    forall m: Memory
      ensures AlikeInto(t, a + u, a + v, m)
    {
      BehindAlike(t, a, u, v, m);
    }
  }

  // ---------- At any depth ----------

  lemma HereAlike(t: Table, a: seq<byte>, u: seq<byte>, b: seq<byte>)
    requires Complete(t, a) && UnknownField(t, u)
    ensures Alike(t, a + (u + b), a + b)
  {
    hide DecodeLoop, SameEnd, Complete, AlikeInto, UnknownField;
    forall m: Memory, seen: set<nat>
      ensures var r := DecodeLoop(t, u + b, m, seen);
              DecodeLoop(t, b, m, seen) == r && (r.Loop? ==> SameEnd(u + b, b, |r.rest| + r.lag))
    {
      UnknownSkipped(t, u, b, m, seen);
      var r := DecodeLoop(t, b, m, seen);
      if r.Loop? {
        SameEndSame(u, [], b, |r.rest| + r.lag);
        assert [] + b == b;
      }
    }
    forall m: Memory
      ensures AlikeInto(t, a + (u + b), a + b, m)
    {
      BehindAlike(t, a, u + b, b, m);
    }
  }

  lemma DelimitedLonger(x: seq<byte>, y: seq<byte>)
    requires |x| <= |y| < U32
    ensures |Delimited(x)| <= |Delimited(y)|
  {
    hide Varint.Encode;
    Varint.EncodeLonger(|x|, |y|);
  }

  /** The message with the unknown field is the longer one, at every level. */
  lemma {:induction false} FilledLonger(t: Table, p: Place, u: seq<byte>)
    requires IsPlace(t, p) && |Filled(t, p, u)| < U32
    ensures |Filled(t, p, [])| <= |Filled(t, p, u)|
    decreases p
  {
    hide Complete, Delimited, FieldKey;
    if p.Inside? {
      var sub := t[p.i].ltype.sub;
      Longer(Filled(sub, p.inner, u));
      FilledLonger(sub, p.inner, u);
      DelimitedLonger(Filled(sub, p.inner, []), Filled(sub, p.inner, u));
    }
  }

  lemma {:induction false} FilledAlike(t: Table, p: Place, u: seq<byte>)
    requires IsPlace(t, p) && UnknownField(TableAt(t, p), u) && |Filled(t, p, u)| < U32
    ensures Alike(t, Filled(t, p, u), Filled(t, p, []))
    decreases p
  {
    hide Complete, Delimited, FieldKey, UnknownField, Alike, DistinctTags;
    if p.Here? {
      HereAlike(t, p.before, u, p.after);
      assert p.before + u + p.after == p.before + (u + p.after);
      assert p.before + [] + p.after == p.before + p.after;
    } else {
      var sub := t[p.i].ltype.sub;
      var x, y := Filled(sub, p.inner, u), Filled(sub, p.inner, []);
      Longer(x);
      FilledLonger(sub, p.inner, u);
      FilledAlike(sub, p.inner, u);
      InsideAlike(t, p.before, p.i, x, y, p.after);
    }
  }

  /** An unknown field makes no difference at any depth: with every enclosing length counting
      it, pb_decode_noinit has the same outcome with and without it, into any struct. */
  lemma UnknownAtAnyDepth(t: Table, p: Place, u: seq<byte>, m: Memory)
    requires IsPlace(t, p) && UnknownField(TableAt(t, p), u) && |Filled(t, p, u)| < U32
    ensures DecodeNoInit(t, Filled(t, p, u), m) == DecodeNoInit(t, Filled(t, p, []), m)
  {
    hide IsPlace, Filled, UnknownField, DecodeNoInit;
    FilledAlike(t, p, u);
    assert AlikeInto(t, Filled(t, p, u), Filled(t, p, []), m);
  }
}
