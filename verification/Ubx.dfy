/**
 The UBX framing of ublox.cpp: the sender, the nine-state receiver, and what the checksum
 between them detects.
 */
module Ubx {
  import opened Bits

  const SYNC1 := 0xb5
  const SYNC2 := 0x62
  const CAPACITY := 256     // of the payload buffer
  const ACK := 0x501
  const NAK := 0x500

  // ---------- The checksum ----------

  function Sum(s: seq<byte>): nat {
    if s == [] then 0 else s[0] + Sum(s[1..])
  }

  /** Each byte counts once for every prefix of the data that contains it. */
  function Weighted(s: seq<byte>): nat {
    if s == [] then 0 else s[0] * |s| + Weighted(s[1..])
  }

  /** The 8-bit Fletcher checksum, both sums modulo 256. */
  function Checksum(s: seq<byte>): seq<byte> {
    [Sum(s) % U8, Weighted(s) % U8]
  }

  lemma {:induction false} SumAppend(s: seq<byte>, c: byte)
    ensures Sum(s + [c]) == Sum(s) + c
    ensures Weighted(s + [c]) == Weighted(s) + Sum(s) + c
  {
    hide Sum, Weighted;
    if s == [] {
      assert [] + [c] == [c] + [];
      SumFirst(c, []);
    } else {
      var b, rest := s[0], s[1..];
      assert s == [b] + rest && s + [c] == [b] + (rest + [c]);
      SumFirst(b, rest);
      SumFirst(b, rest + [c]);
      SumAppend(rest, c);
      MultiplyStep(b, |rest| + 1);
    }
  }

  lemma SumFirst(b: byte, rest: seq<byte>)
    ensures Sum([b] + rest) == b + Sum(rest) && Weighted([b] + rest) == b * (|rest| + 1) + Weighted(rest)
    ensures Sum([]) == Weighted([]) == 0
  {
    assert ([b] + rest)[1..] == rest;
  }

  /** The running uint8_t sums of the code are the checksum of what they have seen. */
  lemma Running(s: seq<byte>, c: byte)
    ensures var a := (Sum(s) % U8 + c) % U8;
            a == Sum(s + [c]) % U8 && (Weighted(s) % U8 + a) % U8 == Weighted(s + [c]) % U8
  {
    SumAppend(s, c);
    hide Sum, Weighted;
    WrapByte(Sum(s), c);
    WrapByte(Weighted(s), (Sum(s) % U8 + c) % U8);
    WrapByte(Sum(s) + c, Weighted(s));
  }

  lemma WrapByte(a: nat, b: nat)
    ensures (a % U8 + b) % U8 == (a + b) % U8
  {
  }

  /** The sums of data with something replaced in the middle. */
  lemma {:induction false} SumReplaced(pre: seq<byte>, x: seq<byte>, y: seq<byte>, post: seq<byte>)
    requires |x| == |y|
    ensures Sum(pre + x + post) - Sum(x + post) == Sum(pre + y + post) - Sum(y + post)
    ensures Weighted(pre + x + post) - Weighted(x + post) == Weighted(pre + y + post) - Weighted(y + post)
  {
    if pre == [] {
      assert [] + x + post == x + post && [] + y + post == y + post;
    } else {
      assert (pre + x + post)[1..] == pre[1..] + x + post && (pre + y + post)[1..] == pre[1..] + y + post;
      SumReplaced(pre[1..], x, y, post);
    }
  }

  /** One changed byte changes the first sum. */
  lemma ChangeDetected(pre: seq<byte>, b: byte, c: byte, post: seq<byte>)
    requires b != c
    ensures Sum(pre + [b] + post) % U8 != Sum(pre + [c] + post) % U8
  {
    SumReplaced(pre, [b], [c], post);
    assert ([b] + post)[1..] == post && ([c] + post)[1..] == post;
    DifferenceSeen(Sum(pre + [b] + post), Sum(pre + [c] + post));
  }

  /** Two unequal neighbours swapped keep the first sum and change the second. */
  lemma SwapDetected(pre: seq<byte>, b: byte, c: byte, post: seq<byte>)
    requires b != c
    ensures Sum(pre + [b, c] + post) == Sum(pre + [c, b] + post)
    ensures Weighted(pre + [b, c] + post) % U8 != Weighted(pre + [c, b] + post) % U8
  {
    SumReplaced(pre, [b, c], [c, b], post);
    Pair(b, c, post);
    Pair(c, b, post);
    DifferenceSeen(Weighted(pre + [b, c] + post), Weighted(pre + [c, b] + post));
  }

  lemma Pair(b: byte, c: byte, post: seq<byte>)
    ensures Sum([b, c] + post) == b + c + Sum(post)
    ensures Weighted([b, c] + post) == b * (|post| + 1) + c * (|post| + 1) + b + Weighted(post)
  {
    hide Sum, Weighted;
    assert [b, c] + post == [b] + ([c] + post);
    SumFirst(b, [c] + post);
    SumFirst(c, post);
    MultiplyStep(b, |post| + 1);
  }

  lemma DifferenceSeen(m: nat, n: nat)
    requires 0 < m - n < U8 || 0 < n - m < U8
    ensures m % U8 != n % U8
  {
  }

  // ---------- Frames ----------

  /** What the sender is given for a message: class, id, length and payload. */
  function Body(id: nat, payload: seq<byte>): seq<byte>
    requires id < U16 && |payload| < U16
  {
    [id / 256, id % 256, |payload| % 256, |payload| / 256] + payload
  }

  function Sent(body: seq<byte>): seq<byte> {
    [SYNC1, SYNC2] + body + Checksum(body)
  }

  function Frame(id: nat, payload: seq<byte>): seq<byte>
    requires id < U16 && |payload| < U16
  {
    Sent(Body(id, payload))
  }

  /** How many payload bytes the receiver has room for. */
  function Room(id: nat): nat {
    if id == ACK || id == NAK then 2 else CAPACITY
  }

  /** A message whose declared length is in range. */
  predicate InRange(id: nat, payload: seq<byte>) {
    id < U16 && 1 <= |payload| <= Room(id)
  }

  /** send: the bytes that go out on the wire. */
  method Send(buffer: seq<byte>) returns (wire: seq<byte>)
    ensures wire == Sent(buffer)
    ensures |wire| == |buffer| + 4 && wire[0] == 0xb5 && wire[1] == 0x62 && wire[2..|buffer| + 2] == buffer
    ensures wire[|buffer| + 2] == Sum(buffer) % 256 && wire[|buffer| + 3] == Weighted(buffer) % 256
  {
    var ckA, ckB := 0, 0;
    var i := 0;
    while i < |buffer|
      invariant 0 <= i <= |buffer|
      invariant ckA == Sum(buffer[..i]) % U8 && ckB == Weighted(buffer[..i]) % U8
    {
      Running(buffer[..i], buffer[i]);
      assert buffer[..i + 1] == buffer[..i] + [buffer[i]];
      ckA := (ckA + buffer[i]) % U8;
      ckB := (ckB + ckA) % U8;
      i := i + 1;
    }
    assert buffer[..i] == buffer;
    wire := [SYNC1, SYNC2] + buffer + [ckA, ckB];
  }

  // ---------- The receiver ----------

  /** The receiver at one moment. `toAcked` and `at` stand for the pointer p_. */
  datatype Rx = Rx(state: nat, id: nat, left: nat, ckA: nat, ckB: nat, toAcked: bool, at: nat,
                   ackedId: nat, length: nat, buffer: seq<byte>)

  /** The next byte can be stored: false when a header declared more than there is room for,
      and that much has been stored. */
  predicate CanStore(s: Rx) {
    s.state == 6 ==> s.at < (if s.toAcked then 2 else |s.buffer|)
  }

  predicate Words(s: Rx) {
    s.id < U16 && s.left < U16 && s.ckA < U8 && s.ckB < U8 && s.ackedId < U16 && |s.buffer| == CAPACITY
  }

  function StoreWord(word: nat, at: nat, c: byte): nat {
    if at == 0 then word - word % 256 + c else word % 256 + 256 * c
  }

  function SwapBytes(word: nat): nat
  {
    Or(word / 256, (word * 256) % U16)
  }

  /** process, as a function of the state and the byte. */
  function Step(s: Rx, c: byte): Rx
    requires CanStore(s)
  {
    var a := (s.ckA + c) % U8;
    var summed := s.(ckA := a, ckB := (s.ckB + a) % U8);
    if s.state == 0 then (if c == SYNC1 then s.(state := 1) else s)
    else if s.state == 1 then s.(state := if c == SYNC2 then 2 else 0)
    else if s.state == 2 then s.(ckA := c, ckB := c, state := 3, id := c * 256)
    else if s.state == 3 then summed.(state := 4, id := Or(s.id, c))
    else if s.state == 4 then summed.(state := 5, left := c)
    else if s.state == 5 then
      var left := Or(s.left, c * 256);
      var acked := s.id == ACK || s.id == NAK;
      summed.(state := 6, left := left, toAcked := acked, at := 0, length := if acked then s.length else left)
    else if s.state == 6 then
      var stored := if s.toAcked then summed.(ackedId := StoreWord(s.ackedId, s.at, c))
                    else summed.(buffer := s.buffer[s.at := c]);
      var left := (s.left + U16 - 1) % U16;  // 0 wraps around
      stored.(at := s.at + 1, left := left, state := if left == 0 then 7 else 6)
    else if s.state == 7 then s.(state := if c == s.ckA then 8 else 0)
    else if s.state == 8 then
      s.(state := 0, ackedId := if c == s.ckB && (s.id == ACK || s.id == NAK) then SwapBytes(s.ackedId) else s.ackedId)
    else s
  }

  /** What process returns: the message id, or minus the new state. */
  function Returned(s: Rx, c: byte): int
    requires CanStore(s)
  {
    if s.state == 8 && c == s.ckB then s.id else 0 - Step(s, c).state
  }

  class UBlox {
    var state: nat
    var id: nat
    var plLength: nat
    var ckA: nat          // static in process
    var ckB: nat
    var toAcked: bool     // p_ points into AckedId_, or into the payload buffer
    var at: nat
    var ackedId: nat
    var length: nat
    const buffer: array<byte>

    function Now(): Rx
      reads this, buffer
    {
      Rx(state, id, plLength, ckA, ckB, toAcked, at, ackedId, length, buffer[..])
    }

    constructor ()
      ensures Words(Now()) && state == 0 && fresh(buffer) && buffer.Length == 256
    {
      state, id, plLength, ckA, ckB, toAcked, at, ackedId, length := 0, 0, 0, 0, 0, false, 0, 0, 0;
      buffer := new byte[CAPACITY];
    }

    method Process(c: byte) returns (r: int)
      requires CanStore(Now())
      modifies this, buffer
      ensures Now() == Step(old(Now()), c) && r == Returned(old(Now()), c)
      ensures old(state) == 0 ==> state == if c == 0xb5 then 1 else 0
      ensures old(state) == 1 ==> state == if c == 0x62 then 2 else 0
      ensures r == 0 - state || (r == id == old(id) && old(state) == 8 && state == 0)
    {
      hide Or;
      if state == 0 && c == SYNC1 {
        state := 1;
      } else if state == 1 {
        if c == SYNC2 {
          state := 2;
        } else {
          state := 0;
        }
      } else if state == 2 {
        ckA := c;
        ckB := c;
        state := 3;
        id := c * 256;
      } else if state == 3 {
        ckA := (ckA + c) % U8;
        ckB := (ckB + ckA) % U8;
        state := 4;
        id := Or(id, c);
      } else if state == 4 {
        ckA := (ckA + c) % U8;
        ckB := (ckB + ckA) % U8;
        plLength := c;
        state := 5;
      } else if state == 5 {
        ckA := (ckA + c) % U8;
        ckB := (ckB + ckA) % U8;
        plLength := Or(plLength, c * 256);
        state := 6;
        at := 0;
        if id == NAK || id == ACK {
          toAcked := true;
        } else {
          length := plLength;
          toAcked := false;
        }
      } else if state == 6 {
        ckA := (ckA + c) % U8;
        ckB := (ckB + ckA) % U8;
        if toAcked {
          ackedId := StoreWord(ackedId, at, c);
        } else {
          buffer[at] := c;
        }
        at := at + 1;
        plLength := (plLength + U16 - 1) % U16;
        if plLength == 0 {
          state := 7;
        }
      } else if state == 7 {
        if c == ckA {
          state := 8;
        } else {
          state := 0;
        }
      } else if state == 8 {
        state := 0;
        if ckB == c {
          if id == ACK || id == NAK {
            ackedId := SwapBytes(ackedId);
          }
          return id;
        }
      }
      return 0 - state;
    }
  }

  // ---------- What the receiver knows about the bytes behind it ----------

  /** The bytes since the last synchronisation, as long as they may become a frame. */
  function Tail(s: Rx, tail: seq<byte>, c: byte): seq<byte>
    requires CanStore(s)
  {
    if Step(s, c).state == 0 then [] else tail + [c]
  }

  /** The declared message: id and length from the header of the tail. */
  function TailId(tail: seq<byte>): nat
    requires |tail| >= 4
  {
    256 * (tail[2] as int) + tail[3]
  }

  function TailLength(tail: seq<byte>): nat
    requires |tail| >= 6
  {
    256 * (tail[5] as int) + tail[4]
  }

  /** The header declares a length in range. */
  predicate TailInRange(tail: seq<byte>) {
    |tail| >= 6 ==> 1 <= TailLength(tail) <= Room(TailId(tail))
  }

  /** `data` is where the receiver has put it. */
  predicate Stored(s: Rx, data: seq<byte>) {
    if s.id == ACK || s.id == NAK then
      |data| <= 2 && (|data| > 0 ==> s.ackedId % 256 == data[0]) && (|data| > 1 ==> s.ackedId / 256 == data[1])
    else |data| <= |s.buffer| && s.buffer[..|data|] == data
  }

  predicate Summed(s: Rx, data: seq<byte>) {
    s.ckA == Sum(data) % U8 && s.ckB == Weighted(data) % U8
  }

  /** The state is what the bytes since the last synchronisation make it. */
  predicate Follows(s: Rx, tail: seq<byte>) {
    && Words(s)
    && s.state <= 8
    && (s.state <= 5 ==> |tail| == s.state)
    && (s.state >= 6 ==> |tail| >= 6 && TailInRange(tail))
    && (s.state >= 1 ==> tail[0] == SYNC1)
    && (s.state >= 2 ==> tail[1] == SYNC2)
    && (s.state == 3 ==> s.id == 256 * (tail[2] as int))
    && (s.state >= 4 ==> s.id == TailId(tail))
    && (s.state == 5 ==> s.left == tail[4])
    && (3 <= s.state <= 7 ==> Summed(s, tail[2..]))
    && (s.state >= 6 ==> FollowsPayload(s, tail))
  }

  predicate FollowsPayload(s: Rx, tail: seq<byte>)
    requires |tail| >= 6
  {
    var n := TailLength(tail);
    var got := if s.state == 8 then |tail| - 7 else |tail| - 6;
    && 0 <= got <= n
    && (s.state == 6 ==> got < n && s.left == n - got && s.at == got && s.toAcked == (s.id == ACK || s.id == NAK))
    && (s.state >= 7 ==> got == n)
    && (s.state == 8 ==> Summed(s, tail[2..|tail| - 1]) && tail[|tail| - 1] == s.ckA)
    && (s.id != ACK && s.id != NAK ==> s.length == n)
    && Stored(s, tail[6..6 + got])
  }

  lemma FollowsCanStore(s: Rx, tail: seq<byte>)
    requires Follows(s, tail)
    ensures CanStore(s)
  {
    hide Sum, Weighted;
  }

  lemma StepHeader(s: Rx, tail: seq<byte>, c: byte)
    requires Follows(s, tail) && s.state <= 5 && CanStore(s)
    requires TailInRange(tail + [c])
    ensures Follows(Step(s, c), Tail(s, tail, c))
    ensures Returned(s, c) == 0 - Step(s, c).state
  {
    hide Or, Sum, Weighted;
    var next := tail + [c];
    if s.state == 2 {
      assert next[2..] == [c];
      Single(c);
    } else if s.state >= 3 {
      StepDeclared(s, tail, c);
    }
  }

  /** Class, id and length. */
  lemma StepDeclared(s: Rx, tail: seq<byte>, c: byte)
    requires Follows(s, tail) && 3 <= s.state <= 5 && CanStore(s)
    requires TailInRange(tail + [c])
    ensures Follows(Step(s, c), tail + [c]) && Step(s, c).state == s.state + 1
  {
    hide Or, Sum, Weighted;
    var next := tail + [c];
    assert next[2..] == tail[2..] + [c];
    Running(tail[2..], c);
    if s.state == 3 {
      JoinBytes(tail[2], c);
    } else if s.state == 5 {
      JoinBytes(c, s.left);
      assert next[6..6] == [];
    }
  }

  lemma Single(c: byte)
    ensures Sum([c]) == Weighted([c]) == c
  {
    assert [c][1..] == [];
  }

  /** High and low byte of a word. */
  lemma JoinBytes(high: byte, low: nat)
    requires low < 256
    ensures Or(high * 256, low) == Or(low, high * 256) == high * 256 + low
  {
    Pow2Small();
    OrDisjoint(low, high, 8);
    OrCommutes(low, high * 256);
  }

  lemma StepPayload(s: Rx, tail: seq<byte>, c: byte)
    requires Follows(s, tail) && s.state == 6 && CanStore(s)
    ensures Follows(Step(s, c), tail + [c])
    ensures Returned(s, c) == 0 - Step(s, c).state && Step(s, c).state >= 6
  {
    hide Sum, Weighted, Or;
    var next, got := tail + [c], |tail| - 6;
    assert next[2..] == tail[2..] + [c];
    Running(tail[2..], c);
    assert next[6..6 + got + 1] == tail[6..6 + got] + [c];
    StoreStep(s, tail[6..6 + got], c);
    assert TailLength(next) == TailLength(tail) && TailId(next) == TailId(tail);
  }

  lemma StoreStep(s: Rx, data: seq<byte>, c: byte)
    requires Words(s) && s.state == 6 && CanStore(s) && Stored(s, data) && s.at == |data|
    requires s.toAcked == (s.id == ACK || s.id == NAK)
    ensures Stored(Step(s, c), data + [c]) && Words(Step(s, c))
  {
    hide Or;
  }

  lemma StepChecksum(s: Rx, tail: seq<byte>, c: byte)
    requires Follows(s, tail) && s.state >= 7 && CanStore(s)
    ensures Follows(Step(s, c), Tail(s, tail, c))
    ensures s.state == 7 ==> Returned(s, c) == 0 - Step(s, c).state
    ensures s.state == 7 ==> (Step(s, c).state == 8 <==> c == Sum(tail[2..]) % U8)
    ensures s.state == 7 ==> Step(s, c).state in {0, 8}
    ensures s.state == 8 ==> Step(s, c).state == 0
    ensures s.state == 8 ==>
              Returned(s, c) == if c == Weighted(tail[2..|tail| - 1]) % U8 then s.id else 0
  {
    hide Sum, Weighted, Or;
    var next := tail + [c];
    if s.state == 7 && c == s.ckA {
      assert next[2..|next| - 1] == tail[2..];
      assert next[6..6 + |tail| - 6] == tail[6..6 + |tail| - 6];
    } else if s.state == 8 {
      SwapIs(s.ackedId);
    }
  }

  lemma SwapIs(word: nat)
    requires word < U16
    ensures SwapBytes(word) == (word % 256) * 256 + word / 256 < U16
  {
    assert (word * 256) % U16 == (word % 256) * 256 by {
      assert word * 256 == (word / 256) * U16 + (word % 256) * 256;
    }
    JoinBytes(word % 256, word / 256);
  }

  /** The second checksum byte completes a frame, or nothing. */
  lemma LastByte(s: Rx, tail: seq<byte>, c: byte) returns (payload: seq<byte>)
    requires Follows(s, tail) && s.state == 8
    ensures CanStore(s) && InRange(s.id, payload) && payload == tail[6..|tail| - 1]
    ensures c == Weighted(tail[2..|tail| - 1]) % U8 <==> tail + [c] == Frame(s.id, payload)
    ensures c == Weighted(tail[2..|tail| - 1]) % U8 ==> Delivered(Step(s, c), s.id, payload)
  {
    hide Sum, Weighted, Or, SwapBytes;
    var n := |tail| - 7;
    payload := tail[6..6 + n];
    TailBody(tail, payload);
    var body := Body(s.id, payload);
    assert tail == [SYNC1, SYNC2] + body + [tail[|tail| - 1]];
    assert tail + [c] == [SYNC1, SYNC2] + body + [tail[|tail| - 1], c];
    assert (tail + [c])[|tail|] == c && |Frame(s.id, payload)| == |tail| + 1;
    assert Frame(s.id, payload)[|tail|] == Weighted(body) % U8;
    SwapIs(s.ackedId);
  }

  lemma TailBody(tail: seq<byte>, payload: seq<byte>)
    requires |tail| >= 7 && payload == tail[6..|tail| - 1] && TailLength(tail) == |payload|
    ensures TailId(tail) < U16 && |payload| < U16 && tail[2..|tail| - 1] == Body(TailId(tail), payload)
  {
  }

  /** The message is where its user looks for it. */
  predicate Delivered(s: Rx, id: nat, payload: seq<byte>)
    requires InRange(id, payload)
  {
    && s.state == 0 && s.id == id
    && (if id == ACK || id == NAK then |payload| == 2 ==> s.ackedId == 256 * (payload[0] as int) + payload[1]
        else s.length == |payload| && |payload| <= |s.buffer| && s.buffer[..|payload|] == payload)
  }

  // ---------- Runs ----------

  /** A header that ends with this byte declares a length in range. */
  predicate LengthOk(s: Rx, c: byte) {
    s.state == 5 ==> 1 <= s.left + 256 * (c as int) <= Room(s.id)
  }

  /** The first k bytes can be fed to the receiver, all headers in range. */
  predicate Good(s: Rx, bytes: seq<byte>, k: nat)
    requires k <= |bytes|
    decreases k, 0
  {
    k == 0 || (Good(s, bytes, k - 1) && CanStore(At(s, bytes, k - 1)) && LengthOk(At(s, bytes, k - 1), bytes[k - 1]))
  }

  /** The receiver after k bytes. */
  function At(s: Rx, bytes: seq<byte>, k: nat): Rx
    requires k <= |bytes| && Good(s, bytes, k)
    decreases k, 1
  {
    if k == 0 then s else Step(At(s, bytes, k - 1), bytes[k - 1])
  }

  /** What process returns for byte k. */
  function Answer(s: Rx, bytes: seq<byte>, k: nat): int
    requires k < |bytes| && Good(s, bytes, k + 1)
  {
    Returned(At(s, bytes, k), bytes[k])
  }

  function TailAt(s: Rx, bytes: seq<byte>, k: nat): seq<byte>
    requires k <= |bytes| && Good(s, bytes, k)
  {
    if k == 0 then [] else Tail(At(s, bytes, k - 1), TailAt(s, bytes, k - 1), bytes[k - 1])
  }

  predicate Start(s: Rx) {
    s.state == 0 && Words(s)
  }

  lemma StepFollows(s: Rx, tail: seq<byte>, c: byte)
    requires Follows(s, tail) && CanStore(s) && LengthOk(s, c)
    ensures Follows(Step(s, c), Tail(s, tail, c))
  {
    hide Sum, Weighted, Or;
    if s.state <= 5 {
      StepHeader(s, tail, c);
    } else if s.state == 6 {
      StepPayload(s, tail, c);
    } else {
      StepChecksum(s, tail, c);
    }
  }

  /** Every reachable state is explained by the bytes since the last synchronisation. */
  lemma {:induction false} RunFollows(s: Rx, bytes: seq<byte>, k: nat)
    requires Start(s) && k <= |bytes| && Good(s, bytes, k)
    ensures Follows(At(s, bytes, k), TailAt(s, bytes, k))
    ensures |TailAt(s, bytes, k)| <= k && TailAt(s, bytes, k) == bytes[k - |TailAt(s, bytes, k)|..k]
    decreases k
  {
    hide Follows, Step;
    if k > 0 {
      RunFollows(s, bytes, k - 1);
      StepFollows(At(s, bytes, k - 1), TailAt(s, bytes, k - 1), bytes[k - 1]);
    } else {
      StartFollows(s);
    }
  }

  lemma StartFollows(s: Rx)
    requires Start(s)
    ensures Follows(s, [])
  {
  }

  /** As long as headers declare lengths in range, nothing is stored outside the buffer. */
  lemma NeverOverrun(s: Rx, bytes: seq<byte>, k: nat)
    requires Start(s) && k < |bytes| && Good(s, bytes, k)
    ensures CanStore(At(s, bytes, k))
    ensures Good(s, bytes, k + 1) <==> LengthOk(At(s, bytes, k), bytes[k])
  {
    hide Follows;
    RunFollows(s, bytes, k);
    FollowsCanStore(At(s, bytes, k), TailAt(s, bytes, k));
  }

  /** The header in numbers: behind the two sync bytes come class and number of the message,
      and the length of its payload, low byte first. */
  lemma HeaderBytes(s: Rx, bytes: seq<byte>)
    requires Start(s) && |bytes| == 6 && bytes[0] == 0xb5 && bytes[1] == 0x62
    ensures Good(s, bytes, 5)
    ensures var id, length := 256 * (bytes[2] as int) + bytes[3], 256 * (bytes[5] as int) + bytes[4];
            && (Good(s, bytes, 6) <==> 1 <= length <= if id == 0x501 || id == 0x500 then 2 else 256)
            && (Good(s, bytes, 6) ==>
                  var x := At(s, bytes, 6);
                  x.state == 6 && x.id == id && x.left == length)
  {
    assert Good(s, bytes, 0);
    assert Good(s, bytes, 1) && At(s, bytes, 1) == s.(state := 1);
    assert Good(s, bytes, 2) && At(s, bytes, 2) == s.(state := 2);
    JoinBytes(bytes[2], bytes[3]);
    JoinBytes(bytes[5], bytes[4]);
    hide Or;
    var a := At(s, bytes, 2);
    var b := Step(a, bytes[2]);
    assert Good(s, bytes, 3) && At(s, bytes, 3) == b;
    var c := Step(b, bytes[3]);
    assert Good(s, bytes, 4) && At(s, bytes, 4) == c;
    assert Good(s, bytes, 5) && At(s, bytes, 5) == Step(c, bytes[4]);
  }

  /** Polling for a navigation solution: the checksum bytes that the protocol expects. */
  lemma PollBytes()
    ensures Sent([1, 7, 0, 0]) == [0xb5, 0x62, 1, 7, 0, 0, 8, 0x19]
  {
    var body: seq<byte> := [1, 7, 0, 0];
    assert body[1..] == [7, 0, 0] && [7, 0, 0][1..] == [0, 0] && [0, 0][1..] == [0] && [0][1..] == [];
    assert Sum([0]) == 0 && Sum([0, 0]) == 0 && Sum([7, 0, 0]) == 7 && Sum(body) == 8;
    assert Weighted([0]) == 0 && Weighted([0, 0]) == 0 && Weighted([7, 0, 0]) == 21 && Weighted(body) == 25;
  }

  /** Feeding bytes without looking at what headers declare: each one can be stored. */
  predicate Storable(s: Rx, bytes: seq<byte>)
    decreases |bytes|
  {
    bytes == [] || (CanStore(s) && Storable(Step(s, bytes[0]), bytes[1..]))
  }

  /** While a payload is coming in, exactly the bytes that there is room for can be stored. */
  lemma {:induction false} StorableIff(s: Rx, bytes: seq<byte>, left: nat)
    requires s.state == 6 && |s.buffer| == CAPACITY && s.toAcked == (s.id == ACK || s.id == NAK)
    requires s.at <= Room(s.id) && |bytes| <= left <= U16 && s.left == left % U16
    ensures Storable(s, bytes) <==> s.at + |bytes| <= Room(s.id)
    decreases |bytes|
  {
    hide Or, SwapBytes, StoreWord;
    if bytes != [] && CanStore(s) {
      var next := Step(s, bytes[0]);
      if |bytes| > 1 {
        StorableIff(next, bytes[1..], left - 1);
      }
    }
  }

  /** How many bytes a header that ends with this byte makes the receiver take for payload:
      a length of 0 wraps around. */
  function Announced(s: Rx, c: byte): nat {
    var n := s.left + 256 * (c as int);
    if n == 0 then U16 else n
  }

  /** A header in range is exactly one whose whole payload can be stored, whatever it is; from
      any other one the receiver stores as many bytes as there is room for, and with the next
      one leaves the buffer or AckedId_. */
  lemma OverrunIff(s: Rx, bytes: seq<byte>, k: nat, payload: seq<byte>)
    requires Start(s) && k < |bytes| && Good(s, bytes, k) && At(s, bytes, k).state == 5
    requires |payload| <= Announced(At(s, bytes, k), bytes[k])
    ensures CanStore(At(s, bytes, k))
    ensures var x := Step(At(s, bytes, k), bytes[k]);
            && (Storable(x, payload) <==> LengthOk(At(s, bytes, k), bytes[k]) || |payload| <= Room(x.id))
            && Room(x.id) == if x.id == 0x501 || x.id == 0x500 then 2 else 256
  {
    hide Or, Storable;
    NeverOverrun(s, bytes, k);
    RunFollows(s, bytes, k);
    var x := At(s, bytes, k);
    HeaderDone(x, TailAt(s, bytes, k), bytes[k]);
    hide Good, At, TailAt;
    StorableIff(Step(x, bytes[k]), payload, Announced(x, bytes[k]));
  }

  lemma HeaderDone(s: Rx, tail: seq<byte>, c: byte)
    requires Follows(s, tail) && s.state == 5 && CanStore(s)
    ensures var x := Step(s, c);
            && x.state == 6 && |x.buffer| == CAPACITY && x.id == s.id && x.at == 0
            && x.toAcked == (x.id == ACK || x.id == NAK)
            && 1 <= Announced(s, c) <= U16 && x.left == Announced(s, c) % U16
  {
    hide Or, Sum, Weighted;
    JoinBytes(c, s.left);
  }

  /** A positive result means that the bytes just received end in a whole frame with a right
      checksum, whose message has been stored. */
  lemma PositiveMeansFrame(s: Rx, bytes: seq<byte>, k: nat) returns (payload: seq<byte>)
    requires Start(s) && k < |bytes| && Good(s, bytes, k + 1) && Answer(s, bytes, k) > 0
    ensures var id := Answer(s, bytes, k);
            && InRange(id, payload)
            && |Frame(id, payload)| <= k + 1
            && bytes[k + 1 - |Frame(id, payload)|..k + 1] == Frame(id, payload)
            && Delivered(At(s, bytes, k + 1), id, payload)
  {
    hide Follows, Frame, Delivered, InRange, Step;
    RunFollows(s, bytes, k);
    var x, tail, c := At(s, bytes, k), TailAt(s, bytes, k), bytes[k];
    FollowsState(x, tail);
    assert bytes[k - |tail|..k + 1] == bytes[k - |tail|..k] + [c];
    assert At(s, bytes, k + 1) == Step(x, c);
    hide At, TailAt, Good;
    payload := LastByte(x, tail, c);
    StepChecksum(x, tail, c);
  }

  lemma FollowsState(s: Rx, tail: seq<byte>)
    requires Follows(s, tail)
    ensures s.state == 8 ==> |tail| >= 8
  {
    hide Sum, Weighted;
  }

  // ---------- What a message on the wire does ----------

  /** The message without its checksum. */
  function Head(id: nat, payload: seq<byte>): (h: seq<byte>)
    requires InRange(id, payload)
    ensures |h| == 6 + |payload|
  {
    [SYNC1, SYNC2] + Body(id, payload)
  }

  lemma HeadIs(id: nat, payload: seq<byte>)
    requires InRange(id, payload)
    ensures var h := Head(id, payload);
            && h[0] == SYNC1 && h[1] == SYNC2 && TailId(h) == id && TailLength(h) == |payload|
            && h[2..] == Body(id, payload)
  {
  }

  /** Feeding the head of a message leads through the states in order. */
  lemma {:induction false} HeadStates(s: Rx, bytes: seq<byte>, id: nat, payload: seq<byte>, k: nat)
    requires Start(s) && InRange(id, payload) && Head(id, payload) <= bytes && k <= 6 + |payload|
    ensures Good(s, bytes, k)
    ensures At(s, bytes, k).state == if k < 6 then k else if k < 6 + |payload| then 6 else 7
    ensures TailAt(s, bytes, k) == bytes[..k]
    ensures forall j :: 0 <= j < k && Good(s, bytes, j + 1) ==> Answer(s, bytes, j) <= 0
    decreases k
  {
    hide Follows, Step, Head, InRange, Sum, Weighted;
    if k > 0 {
      HeadStates(s, bytes, id, payload, k - 1);
      NeverOverrun(s, bytes, k - 1);
      RunFollows(s, bytes, k - 1);
      HeadStep(At(s, bytes, k - 1), bytes, id, payload, k - 1);
      assert bytes[..k] == bytes[..k - 1] + [bytes[k - 1]];
    }
  }

  lemma HeadStep(x: Rx, bytes: seq<byte>, id: nat, payload: seq<byte>, k: nat)
    requires InRange(id, payload) && Head(id, payload) <= bytes && k < 6 + |payload|
    requires Follows(x, bytes[..k]) && CanStore(x)
    requires x.state == if k < 6 then k else 6
    ensures LengthOk(x, bytes[k])
    ensures Step(x, bytes[k]).state == if k < 5 then k + 1 else if k + 1 < 6 + |payload| then 6 else 7
    ensures Returned(x, bytes[k]) <= 0
  {
    hide Sum, Weighted, Or, Summed, Stored;
    HeadIs(id, payload);
    assert bytes[..6 + |payload|] == Head(id, payload);
  }

  /** The checksum decides: after the head of a message, the receiver returns its id for the
      second of the next two bytes exactly when they are its checksum, and stores it; no
      other byte gives a positive result. */
  lemma ChecksumDecides(s: Rx, id: nat, payload: seq<byte>, a: byte, b: byte)
    requires Start(s) && InRange(id, payload)
    ensures var bytes := Head(id, payload) + [a, b];
            && Good(s, bytes, |bytes|)
            && (forall k :: 0 <= k < |bytes| - 1 && Good(s, bytes, k + 1) ==> Answer(s, bytes, k) <= 0)
            && ([a, b] == Checksum(Body(id, payload)) ==>
                  Answer(s, bytes, |bytes| - 1) == id && Delivered(At(s, bytes, |bytes|), id, payload))
            && ([a, b] != Checksum(Body(id, payload)) ==> Answer(s, bytes, |bytes| - 1) <= 0)
  {
    hide Follows, Step, Head, InRange, Sum, Weighted, Delivered, TailAt;
    var bytes := Head(id, payload) + [a, b];
    var n := |bytes| - 2;
    HeadStates(s, bytes, id, payload, n);
    RunFollows(s, bytes, n);
    HeadIs(id, payload);
    assert bytes[..n] == Head(id, payload);
    NeverOverrun(s, bytes, n);
    var x := At(s, bytes, n);
    StepChecksum(x, bytes[..n], a);
    NeverOverrun(s, bytes, n + 1);
    RunFollows(s, bytes, n + 1);
    var y := At(s, bytes, n + 1);
    assert Good(s, bytes, n + 2);
    hide Good, At;
    AfterFirst(x, y, Head(id, payload), id, payload, a, b);
  }

  lemma AfterFirst(x: Rx, y: Rx, h: seq<byte>, id: nat, payload: seq<byte>, a: byte, b: byte)
    requires InRange(id, payload) && h == Head(id, payload)
    requires Follows(x, h) && x.state == 7 && y == Step(x, a)
    ensures Returned(x, a) <= 0 && CanStore(y)
    ensures [a, b] == Checksum(Body(id, payload)) ==> Returned(y, b) == id && Delivered(Step(y, b), id, payload)
    ensures [a, b] != Checksum(Body(id, payload)) ==> Returned(y, b) <= 0
  {
    hide Sum, Weighted, Or, FollowsPayload, Delivered, Summed, InRange, Head, Body, SwapBytes;
    StepChecksum(x, h, a);
    HeadIs(id, payload);
    if y.state == 8 {
      var tail := h + [a];
      assert tail[2..|tail| - 1] == Body(id, payload);
      var p := LastByte(y, tail, b);
      HeadPayload(id, payload);
      assert p == payload;
      StepChecksum(y, tail, b);
    }
  }

  lemma HeadPayload(id: nat, payload: seq<byte>)
    requires InRange(id, payload)
    ensures Head(id, payload)[6..] == payload
  {
  }

  /** What `send` emits for a message in range, `process` delivers: the id is returned at the
      last byte and not before, and the receiver is back in state 0. */
  lemma SentIsDelivered(s: Rx, id: nat, payload: seq<byte>)
    requires Start(s) && InRange(id, payload)
    ensures var bytes := Frame(id, payload);
            && Good(s, bytes, |bytes|)
            && (forall k :: 0 <= k < |bytes| - 1 && Good(s, bytes, k + 1) ==> Answer(s, bytes, k) <= 0)
            && Answer(s, bytes, |bytes| - 1) == id
            && Delivered(At(s, bytes, |bytes|), id, payload)
  {
    hide Good, At, Answer, Delivered, Start;
    var sum := Checksum(Body(id, payload));
    assert Frame(id, payload) == Head(id, payload) + [sum[0], sum[1]];
    ChecksumDecides(s, id, payload, sum[0], sum[1]);
  }

  /** A message whose payload was damaged on the way: never accepted. */
  predicate Rejected(s: Rx, bytes: seq<byte>) {
    Good(s, bytes, |bytes|) && forall k :: 0 <= k < |bytes| && Good(s, bytes, k + 1) ==> Answer(s, bytes, k) <= 0
  }

  lemma WrongSum(s: Rx, id: nat, sent: seq<byte>, received: seq<byte>)
    requires Start(s) && InRange(id, sent) && InRange(id, received)
    requires Checksum(Body(id, sent)) != Checksum(Body(id, received))
    ensures Rejected(s, Head(id, received) + Checksum(Body(id, sent)))
  {
    hide Good, At, Answer, Delivered, Start, Head, Sum, Weighted, Body;
    var sum := Checksum(Body(id, sent));
    assert sum == [sum[0], sum[1]];
    ChecksumDecides(s, id, received, sum[0], sum[1]);
  }

  /** Changing one byte of the payload, or swapping two unequal neighbours, is detected. */
  lemma DamageRejected(s: Rx, id: nat, pre: seq<byte>, b: byte, c: byte, post: seq<byte>)
    requires Start(s) && b != c
    ensures InRange(id, pre + [b] + post) ==>
              Rejected(s, Head(id, pre + [c] + post) + Checksum(Body(id, pre + [b] + post)))
    ensures InRange(id, pre + [b, c] + post) ==>
              Rejected(s, Head(id, pre + [c, b] + post) + Checksum(Body(id, pre + [b, c] + post)))
  {
    hide Rejected, Start, Head, Sum, Weighted;
    if InRange(id, pre + [b] + post) {
      var header := Body(id, pre + [b] + post)[..4];
      assert Body(id, pre + [b] + post) == (header + pre) + [b] + post;
      assert Body(id, pre + [c] + post) == (header + pre) + [c] + post;
      ChangeDetected(header + pre, b, c, post);
      WrongSum(s, id, pre + [b] + post, pre + [c] + post);
    }
    if InRange(id, pre + [b, c] + post) {
      var header := Body(id, pre + [b, c] + post)[..4];
      assert Body(id, pre + [b, c] + post) == (header + pre) + [b, c] + post;
      assert Body(id, pre + [c, b] + post) == (header + pre) + [c, b] + post;
      SwapDetected(header + pre, b, c, post);
      WrongSum(s, id, pre + [b, c] + post, pre + [c, b] + post);
    }
  }

  // ---------- Streams of messages ----------

  /** The positive results for the first k bytes, in order. */
  function Positives(s: Rx, bytes: seq<byte>, k: nat): seq<int>
    requires k <= |bytes| && Good(s, bytes, k)
    decreases k
  {
    if k == 0 then []
    else Positives(s, bytes, k - 1) + (if Answer(s, bytes, k - 1) > 0 then [Answer(s, bytes, k - 1)] else [])
  }

  lemma {:induction false} NoPositives(s: Rx, bytes: seq<byte>, k: nat)
    requires k <= |bytes| && Good(s, bytes, k)
    requires forall j :: 0 <= j < k && Good(s, bytes, j + 1) ==> Answer(s, bytes, j) <= 0
    ensures Positives(s, bytes, k) == []
    decreases k
  {
    hide Step, Returned;
    if k > 0 {
      NoPositives(s, bytes, k - 1);
    }
  }

  /** What comes later does not change what was received. */
  lemma {:induction false} Prefix(s: Rx, a: seq<byte>, b: seq<byte>, k: nat)
    requires k <= |a| && Good(s, a, k)
    ensures Good(s, a + b, k) && At(s, a + b, k) == At(s, a, k) && Positives(s, a + b, k) == Positives(s, a, k)
    decreases k
  {
    hide Step, Returned;
    if k > 0 {
      Prefix(s, a, b, k - 1);
    }
  }

  /** A run over two pieces is a run over the first and then one over the second. */
  lemma {:induction false} Pieces(s: Rx, a: seq<byte>, b: seq<byte>, k: nat)
    requires Good(s, a, |a|) && k <= |b| && Good(At(s, a, |a|), b, k)
    ensures Good(s, a + b, |a| + k) && At(s, a + b, |a| + k) == At(At(s, a, |a|), b, k)
    ensures Positives(s, a + b, |a| + k) == Positives(s, a, |a|) + Positives(At(s, a, |a|), b, k)
    decreases k
  {
    hide Step, Returned;
    if k == 0 {
      Prefix(s, a, b, |a|);
    } else {
      Pieces(s, a, b, k - 1);
      assert (a + b)[|a| + k - 1] == b[k - 1];
    }
  }

  datatype Message = Message(id: nat, payload: seq<byte>)

  predicate AllInRange(ms: seq<Message>) {
    forall i :: 0 <= i < |ms| ==> InRange(ms[i].id, ms[i].payload)
  }

  function Wire(ms: seq<Message>): seq<byte>
    requires AllInRange(ms)
  {
    if ms == [] then [] else Frame(ms[0].id, ms[0].payload) + Wire(ms[1..])
  }

  /** The ids, apart from 0, which process cannot report. */
  function Ids(ms: seq<Message>): seq<int> {
    if ms == [] then [] else (if ms[0].id > 0 then [ms[0].id] else []) + Ids(ms[1..])
  }

  lemma FrameReported(s: Rx, id: nat, payload: seq<byte>)
    requires Start(s) && InRange(id, payload)
    ensures var bytes := Frame(id, payload);
            && Good(s, bytes, |bytes|) && Start(At(s, bytes, |bytes|))
            && Positives(s, bytes, |bytes|) == if id > 0 then [id] else []
  {
    hide Step, Returned, Frame, Follows, Delivered;
    var bytes := Frame(id, payload);
    SentIsDelivered(s, id, payload);
    NotEmpty(id, payload);
    RunFollows(s, bytes, |bytes|);
    StateZero(At(s, bytes, |bytes|), TailAt(s, bytes, |bytes|), id, payload);
    NoPositives(s, bytes, |bytes| - 1);
  }

  lemma NotEmpty(id: nat, payload: seq<byte>)
    requires InRange(id, payload)
    ensures Frame(id, payload) != []
  {
  }

  lemma StateZero(s: Rx, tail: seq<byte>, id: nat, payload: seq<byte>)
    requires Follows(s, tail) && InRange(id, payload) && Delivered(s, id, payload)
    ensures Start(s)
  {
  }

  /** Any number of messages sent one after the other to a receiver in state 0: it reports
      exactly their ids, in order, and is back in state 0. */
  lemma {:induction false} StreamDelivered(s: Rx, ms: seq<Message>)
    requires Start(s) && AllInRange(ms)
    ensures var bytes := Wire(ms);
            && Good(s, bytes, |bytes|) && Start(At(s, bytes, |bytes|))
            && Positives(s, bytes, |bytes|) == Ids(ms)
    decreases |ms|
  {
    hide Step, Returned, Frame, Start;
    if ms != [] {
      assert InRange(ms[0].id, ms[0].payload);
      var first, rest := Frame(ms[0].id, ms[0].payload), Wire(ms[1..]);
      FrameReported(s, ms[0].id, ms[0].payload);
      var next := At(s, first, |first|);
      StreamDelivered(next, ms[1..]);
      assert Wire(ms) == first + rest && Ids(ms) == (if ms[0].id > 0 then [ms[0].id] else []) + Ids(ms[1..]);
      hide *;
      Pieces(s, first, rest, |rest|);
    }
  }

  // ---------- Bytes between messages ----------

  /** The bytes end in an odd run of 0xb5: the receiver takes the last one for the first sync
      byte. */
  predicate Waiting(noise: seq<byte>)
    decreases |noise|
  {
    noise != [] && noise[|noise| - 1] == SYNC1 && !Waiting(noise[..|noise| - 1])
  }

  /** No 0x62 comes while the receiver waits for one. */
  predicate Unsynced(noise: seq<byte>)
    decreases |noise|
  {
    noise == [] ||
    (&& Unsynced(noise[..|noise| - 1])
     && !(noise[|noise| - 1] == SYNC2 && Waiting(noise[..|noise| - 1])))
  }

  /** Such bytes are ignored, except that afterwards the receiver may be waiting. */
  lemma {:induction false} NoiseState(s: Rx, noise: seq<byte>)
    requires Start(s) && Unsynced(noise)
    ensures Good(s, noise, |noise|) && Positives(s, noise, |noise|) == []
    ensures At(s, noise, |noise|) == s.(state := if Waiting(noise) then 1 else 0)
    decreases |noise|
  {
    if noise != [] {
      var before := noise[..|noise| - 1];
      NoiseState(s, before);
      hide Good, At, Positives;
      assert noise == before + noise[|noise| - 1..];
      Pieces(s, before, noise[|noise| - 1..], 0);
      OneMore(s, noise, |before|);
    }
  }

  lemma OneMore(s: Rx, bytes: seq<byte>, k: nat)
    requires k < |bytes| && Good(s, bytes, k) && At(s, bytes, k).state <= 1
    ensures Good(s, bytes, k + 1) && At(s, bytes, k + 1) == Step(At(s, bytes, k), bytes[k])
    ensures Positives(s, bytes, k + 1) == Positives(s, bytes, k)
  {
  }

  /** A message from its second byte on. */
  function Rest(m: Message): seq<byte>
    requires InRange(m.id, m.payload)
  {
    FrameStarts(m.id, m.payload);
    Frame(m.id, m.payload)[1..]
  }

  /** The messages that are reported when the receiver may be waiting at the start: it then
      misses the first one, and the next one too if this one leaves it waiting again. */
  function Heard(waiting: bool, ms: seq<Message>): (r: seq<Message>)
    requires AllInRange(ms)
    decreases |ms|
  {
    if !waiting || ms == [] then ms else Heard(Waiting(Rest(ms[0])), ms[1..])
  }

  /** All the messages are missed, and the last one leaves the receiver waiting. */
  predicate LeftWaiting(waiting: bool, ms: seq<Message>)
    requires AllInRange(ms)
    decreases |ms|
  {
    waiting && (ms == [] || LeftWaiting(Waiting(Rest(ms[0])), ms[1..]))
  }

  /** No message that is missed looks, from its second byte on, as if another one began in it. */
  predicate Skippable(waiting: bool, ms: seq<Message>)
    requires AllInRange(ms)
    decreases |ms|
  {
    waiting && ms != [] ==> Unsynced(Rest(ms[0])) && Skippable(Waiting(Rest(ms[0])), ms[1..])
  }

  /** A waiting receiver takes a message's 0xb5 for a wrong second byte and misses it. */
  lemma MessageMissed(s: Rx, id: nat, payload: seq<byte>)
    requires s.state == 1 && Words(s) && InRange(id, payload) && Unsynced(Frame(id, payload)[1..])
    ensures var frame := Frame(id, payload);
            && Good(s, frame, |frame|) && Positives(s, frame, |frame|) == []
            && At(s, frame, |frame|) == s.(state := if Waiting(frame[1..]) then 1 else 0)
  {
    var frame := Frame(id, payload);
    hide *;
    FrameStarts(id, payload);
    var first, back := frame[..1], s.(state := 0);
    WrongSecond(s, first);
    StillWords(s);
    NoiseState(back, frame[1..]);
    assert frame == first + frame[1..];
    Pieces(s, first, frame[1..], |frame| - 1);
  }

  lemma WrongSecond(s: Rx, first: seq<byte>)
    requires s.state == 1 && |first| == 1 && first[0] == SYNC1
    ensures Good(s, first, 1) && At(s, first, 1) == s.(state := 0) && Positives(s, first, 1) == []
  {
    assert Good(s, first, 0);
    OneMore(s, first, 0);
  }

  lemma StillWords(s: Rx)
    requires Words(s)
    ensures Start(s.(state := 0))
  {
  }

  lemma FrameStarts(id: nat, payload: seq<byte>)
    requires InRange(id, payload)
    ensures Frame(id, payload) != [] && Frame(id, payload)[0] == SYNC1
  {
  }

  lemma {:induction false} StreamReported(s: Rx, ms: seq<Message>)
    requires Words(s) && s.state <= 1 && AllInRange(ms) && Skippable(s.state == 1, ms)
    ensures var bytes := Wire(ms);
            && Good(s, bytes, |bytes|)
            && Positives(s, bytes, |bytes|) == Ids(Heard(s.state == 1, ms))
            && Words(At(s, bytes, |bytes|))
            && At(s, bytes, |bytes|).state == (if LeftWaiting(s.state == 1, ms) then 1 else 0)
    decreases |ms|
  {
    hide Step, Returned, Frame, Waiting, Unsynced;
    if s.state == 0 {
      StreamDelivered(s, ms);
    } else if ms != [] {
      assert InRange(ms[0].id, ms[0].payload);
      var first, rest := Frame(ms[0].id, ms[0].payload), Wire(ms[1..]);
      MessageMissed(s, ms[0].id, ms[0].payload);
      StreamReported(At(s, first, |first|), ms[1..]);
      hide Good, At, Positives;
      Pieces(s, first, rest, |rest|);
    }
  }

  /** Messages behind any bytes that do not synchronise the receiver: all of them are
      reported, except those that come while it is waiting. */
  lemma NoiseThenStream(s: Rx, noise: seq<byte>, ms: seq<Message>)
    requires Start(s) && Unsynced(noise) && AllInRange(ms) && Skippable(Waiting(noise), ms)
    ensures var bytes := noise + Wire(ms);
            && Good(s, bytes, |bytes|)
            && Positives(s, bytes, |bytes|) == Ids(Heard(Waiting(noise), ms))
            && (Start(At(s, bytes, |bytes|)) <==> !LeftWaiting(Waiting(noise), ms))
  {
    hide Step, Returned, Wire, Waiting, Unsynced, Heard, LeftWaiting, Skippable;
    NoiseState(s, noise);
    StreamReported(At(s, noise, |noise|), ms);
    hide Good, At, Positives;
    Pieces(s, noise, Wire(ms), |Wire(ms)|);
  }

  lemma {:induction false} HeardFewer(waiting: bool, ms: seq<Message>)
    requires AllInRange(ms)
    ensures |Ids(Heard(waiting, ms))| <= |Ids(ms)|
    decreases |ms|
  {
    hide Waiting, Rest;
    if waiting && ms != [] {
      HeardFewer(Waiting(Rest(ms[0])), ms[1..]);
    }
  }

  /** Exactly when bytes in front lose a message: when they end in an odd run of 0xb5. Only the
      first message is lost unless it leaves the receiver waiting again. */
  lemma StraySync(s: Rx, noise: seq<byte>, ms: seq<Message>)
    requires Start(s) && Unsynced(noise) && AllInRange(ms) && Skippable(Waiting(noise), ms)
    requires ms != [] && ms[0].id > 0
    ensures var bytes := noise + Wire(ms);
            && Good(s, bytes, |bytes|)
            && (Positives(s, bytes, |bytes|) == Ids(ms) <==> !Waiting(noise))
            && (Waiting(noise) && !Waiting(Rest(ms[0])) ==>
                  Positives(s, bytes, |bytes|) == Ids(ms[1..]) && Start(At(s, bytes, |bytes|)))
  {
    hide Step, Returned, Wire, Waiting, Unsynced, Rest, Good, At, Positives, Skippable;
    NoiseThenStream(s, noise, ms);
    HeardFewer(Waiting(Rest(ms[0])), ms[1..]);
  }

  predicate NoSync(bytes: seq<byte>) {
    forall i :: 0 <= i < |bytes| ==> bytes[i] != SYNC1
  }

  /** It does not when no other 0xb5 occurs in it. */
  lemma {:induction false} NoSyncQuiet(bytes: seq<byte>)
    requires NoSync(bytes)
    ensures Unsynced(bytes) && !Waiting(bytes)
    decreases |bytes|
  {
    if bytes != [] {
      NoSyncQuiet(bytes[..|bytes| - 1]);
    }
  }

  /** A single 0xb5 loses the next message; two of them lose nothing, and neither does one
      that is followed by another byte. */
  lemma SyncRuns()
    ensures Waiting([SYNC1]) && !Waiting([SYNC1, SYNC1]) && !Waiting([SYNC1, 0])
    ensures Unsynced([SYNC1]) && Unsynced([SYNC1, SYNC1]) && Unsynced([SYNC1, 0])
  {
    var one, two, other: seq<byte> := [SYNC1], [SYNC1, SYNC1], [SYNC1, 0];
    assert one[..0] == [] && two[..1] == one && other[..1] == one;
  }
}
