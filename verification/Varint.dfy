/**
 Base 128 varints, as both the reference definition (groups of seven bits, least
 significant first) and the facts that relate the encoder to the 64-bit decoder,
 the 32-bit decoder and the skipping loop.
 */
module Varint {
  import opened Bits

  /** The bytes of `v`: seven bits a byte, the top bit set on all but the last. */
  function Encode(v: nat): (s: seq<byte>)
    ensures |s| >= 1
    decreases v
  {
    if v < 128 then [v] else [v % 128 + 128] + Encode(v / 128)
  }

  /** What scanning at most `limit` groups finds at the front of the input. */
  datatype Scan =
    | Done(value: nat, used: nat)  // a complete varint; `value` is not yet truncated
    | Short                        // the input ended inside the varint
    | Over                         // `limit` groups, all with the continuation bit

  function Groups(s: seq<byte>, limit: nat): (r: Scan)
    ensures r.Done? ==> 1 <= r.used <= |s| && r.used <= limit
    ensures r.Over? ==> limit <= |s|
    decreases limit
  {
    if limit == 0 then Over
    else if s == [] then Short
    else if s[0] < 128 then Done(s[0], 1)
    else
      match Groups(s[1..], limit - 1)
      case Done(v, u) => Done(s[0] - 128 + 128 * v, u + 1)
      case Short => Short
      case Over => Over
  }

  const LIMIT64 := 10  // pb_decode_varint stops when bitpos reaches 70
  const LIMIT32 := 5   // pb_decode_varint32 stops when bitpos reaches 35

  /** Scanning without a limit, as pb_skip_varint does. */
  function Unlimited(s: seq<byte>): Scan {
    Groups(s, |s| + 1)
  }

  /** A value fits k groups exactly when its encoding has at most k bytes. */
  lemma {:induction false} EncodeLength(v: nat, k: nat)
    requires k >= 1
    ensures |Encode(v)| <= k <==> v < Pow2(7 * k)
    decreases k
  {
    Pow2Small();
    if k > 1 {
      Pow2Add(7, 7 * (k - 1));
      DivideGroup(v, Pow2(7 * (k - 1)));
      if v >= 128 {
        EncodeLength(v / 128, k - 1);
      }
    }
  }

  lemma DivideGroup(v: nat, p: nat)
    requires p >= 1
    ensures v / 128 < p <==> v < 128 * p
  {
  }

  lemma {:induction false} EncodeLonger(v: nat, w: nat)
    requires v <= w
    ensures |Encode(v)| <= |Encode(w)|
    decreases w
  {
    if v >= 128 {
      EncodeLonger(v / 128, w / 128);
    }
  }

  /** Decoding what the encoder wrote gives the value and consumes exactly its bytes. */
  lemma {:induction false} GroupsEncode(v: nat, k: nat, x: seq<byte>)
    requires |Encode(v)| <= k
    ensures Groups(Encode(v) + x, k) == Done(v, |Encode(v)|)
    decreases k
  {
    if v >= 128 {
      var s := Encode(v) + x;
      assert s[1..] == Encode(v / 128) + x;
      GroupsEncode(v / 128, k - 1, x);
    }
  }

  /** The encoder is minimal: every varint for `v` has at least as many bytes. */
  lemma {:induction false} EncodeMinimal(s: seq<byte>, k: nat)
    requires Groups(s, k).Done?
    ensures Groups(s, k).used >= |Encode(Groups(s, k).value)|
    decreases k
  {
    if s[0] >= 128 {
      EncodeMinimal(s[1..], k - 1);
      var v := Groups(s[1..], k - 1).value;
      var w := s[0] - 128 + 128 * v;
      assert w / 128 == v;
    }
  }

  /** A finished scan does not look past the varint, nor does an overflow. */
  lemma {:induction false} GroupsExtend(s: seq<byte>, k: nat, x: seq<byte>)
    requires !Groups(s, k).Short?
    ensures Groups(s + x, k) == Groups(s, k)
    decreases k
  {
    if k > 0 && s[0] >= 128 {
      assert (s + x)[1..] == s[1..] + x;
      GroupsExtend(s[1..], k - 1, x);
    }
  }

  /** Value returned by pb_decode_varint for a finished scan. */
  function Value64(r: Scan): nat
    requires r.Done?
  {
    r.value % U64
  }

  /** Value returned by pb_decode_varint32 for a finished scan. */
  function Value32(r: Scan): nat
    requires r.Done?
  {
    r.value % U32
  }

  /** 64-bit round trip: at most ten bytes, decoded to the same value, nothing over-read. */
  lemma RoundTrip64(v: nat, x: seq<byte>)
    requires v < U64
    ensures |Encode(v)| <= 10
    ensures Groups(Encode(v) + x, LIMIT64) == Done(v, |Encode(v)|)
    ensures Value64(Groups(Encode(v) + x, LIMIT64)) == v
  {
    hide Encode, Groups;
    Pow2Values();
    Pow2Increasing(64, 70);
    EncodeLength(v, 10);
    GroupsEncode(v, 10, x);
  }

  /** 32-bit round trip, used for tags and lengths. */
  lemma RoundTrip32(v: nat, x: seq<byte>)
    requires v < U32
    ensures |Encode(v)| <= 5
    ensures Groups(Encode(v) + x, LIMIT32) == Done(v, |Encode(v)|)
    ensures Value32(Groups(Encode(v) + x, LIMIT32)) == v
  {
    hide Encode, Groups;
    Pow2Values();
    Pow2Increasing(32, 35);
    EncodeLength(v, 5);
    GroupsEncode(v, 5, x);
  }

  /** Whenever the 32-bit decoder succeeds it agrees with the 64-bit one, and the
      skipping loop consumes the same bytes as a successful 64-bit decode. */
  lemma DecodersAgree(s: seq<byte>)
    ensures Groups(s, LIMIT32).Done? ==>
              && Groups(s, LIMIT64).Done?
              && Groups(s, LIMIT64).used == Groups(s, LIMIT32).used
              && Value32(Groups(s, LIMIT32)) == Value64(Groups(s, LIMIT64)) % U32
    ensures Groups(s, LIMIT64).Done? ==>
              Unlimited(s).Done? && Unlimited(s).used == Groups(s, LIMIT64).used
  {
    hide Groups;
    if Groups(s, LIMIT32).Done? {
      GroupsUsed(s, LIMIT32, LIMIT64);
      LowWord(Groups(s, LIMIT32).value);
    }
    if Groups(s, LIMIT64).Done? {
      GroupsUsed(s, LIMIT64, |s| + 1);
    }
  }

  lemma LowWord(n: nat)
    ensures n % U32 == (n % U64) % U32
  {
    assert U64 == U32 * U32;
  }

  /** A varint of u bytes is found by every scan that may read u bytes. */
  lemma {:induction false} GroupsUsed(s: seq<byte>, k: nat, l: nat)
    requires Groups(s, k).Done? && Groups(s, k).used <= l
    ensures Groups(s, l) == Groups(s, k)
    decreases k
  {
    if s[0] >= 128 {
      GroupsUsed(s[1..], k - 1, l - 1);
    }
  }
}
