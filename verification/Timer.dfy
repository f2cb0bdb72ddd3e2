/**
 The event scheduler of RTCTimer.cpp. Times are uint32_t seconds that wrap around.
 */
module Timer {
  import opened Bits

  const MAX_NUMBER_OF_RTCEVENTS := 10

  /** An event; `callback` names the function that is called. */
  datatype Event = Event(active: bool, last: nat, period: nat, count: int, repeatCount: int, callback: int)

  /** A call of a callback, with the time it was given. */
  datatype Call = Call(callback: int, at: nat)

  predicate Word(t: nat) {
    t < U32
  }

  /** Seconds from `last` to `now` on a clock that wraps. */
  function Elapsed(now: nat, last: nat): (e: nat)
    ensures e < U32
  {
    (now - last) % U32
  }

  /** The test of RTCEvent::update: the next event time is not after now, as a signed
      difference. */
  predicate Due(e: Event, now: nat) {
    ToSigned((now - (e.last + e.period) % U32) % U32, U32) >= 0
  }

  /** A period for which the signed comparison and the catching up make sense. */
  predicate ValidPeriod(period: nat) {
    0 < period < 0x8000_0000
  }

  predicate ValidEvent(e: Event) {
    Word(e.last) && ValidPeriod(e.period) && e.count >= 0
  }

  /** When an event is due: its period has passed since its last time, and the clock is not
      half its range beyond that. */
  lemma DueIff(e: Event, now: nat)
    requires ValidPeriod(e.period)
    ensures Due(e, now) <==> e.period <= Elapsed(now, e.last) < e.period + 0x8000_0000
  {
    var d := Elapsed(now, e.last);
    WrapDifference(now, e.last + e.period);
    var x := now - e.last;
    assert x == U32 * (x / U32) + d;
    if d >= e.period {
      DivideUnique(x - e.period, U32, x / U32, d - e.period);
    } else {
      DivideUnique(x - e.period, U32, x / U32 - 1, d - e.period + U32);
    }
    var w := (now - (e.last + e.period) % U32) % U32;
    DivideUnique(w, U32, 0, w);
  }

  /** Moving the last time forward by no more than what has passed. */
  lemma Advance(now: nat, last: nat, step: nat)
    requires step <= Elapsed(now, last)
    ensures Elapsed(now, (last + step) % U32) == Elapsed(now, last) - step
  {
    WrapDifference(now, last + step);
    var x := now - last;
    assert x == U32 * (x / U32) + Elapsed(now, last);
    DivideUnique(x - step, U32, x / U32, Elapsed(now, last) - step);
  }

  /** The last time after catching up: whole periods later, less than one before now. */
  function CaughtUp(e: Event, now: nat): nat
    requires ValidPeriod(e.period)
  {
    (e.last + (Elapsed(now, e.last) / e.period) * e.period) % U32
  }

  /** RTCEvent::update */
  function Updated(e: Event, now: nat): Event
    requires ValidPeriod(e.period)
  {
    if !Due(e, now) then e
    else
      var last := if e.last == 0 then now else CaughtUp(e, now);
      var count := if e.repeatCount > 0 then e.count + 1 else e.count;
      e.(last := last, count := count, active := e.active && !(e.repeatCount > 0 && count >= e.repeatCount))
  }

  /** The calls an update makes. */
  function Calls(e: Event, now: nat): seq<Call> {
    if e.active && Due(e, now) then [Call(e.callback, now)] else []
  }

  lemma PeriodsPassed(d: nat, period: nat)
    requires period > 0
    ensures (d / period) * period <= d < (d / period) * period + period
  {
    assert d == period * (d / period) + d % period;
  }

  /** Phase: an update leaves the event less than a period behind the clock, on the same grid
      of times as before, unless the clock has gone back or leapt by more than half its range. */
  lemma PhaseKept(e: Event, now: nat)
    requires ValidEvent(e) && Word(now) && e.last != 0
    requires Elapsed(now, e.last) < e.period + 0x8000_0000
    ensures var u := Updated(e, now);
            && ValidEvent(u)
            && Elapsed(now, u.last) < e.period
            && exists k: nat :: u.last == (e.last + k * e.period) % U32 && (k > 0 <==> Due(e, now))
  {
    var d := Elapsed(now, e.last);
    DueIff(e, now);
    PeriodsPassed(d, e.period);
    var k: nat := if Due(e, now) then d / e.period else 0;
    hide Due, Elapsed;
    if Due(e, now) {
      Advance(now, e.last, k * e.period);
    } else {
      DivideUnique(e.last, U32, 0, e.last);
    }
    assert Updated(e, now).last == (e.last + k * e.period) % U32;
  }

  // ---------- Rounds ----------

  /** An event that is active can be updated. */
  predicate Sound(e: Event) {
    e.active ==> ValidEvent(e)
  }

  lemma UpdatedSound(e: Event, now: nat)
    requires ValidEvent(e) && Word(now)
    ensures ValidEvent(Updated(e, now))
  {
    hide Due, Elapsed;
  }

  predicate AllSound(es: seq<Event>) {
    forall i :: 0 <= i < |es| ==> Sound(es[i])
  }

  function Idle(n: nat): seq<Event> {
    seq(n, i => Event(false, 0, 0, 0, 0, 0))
  }

  lemma NextPeriod(e: Event, now: nat, k: nat)
    requires ValidEvent(e) && (k + 1) * e.period <= Elapsed(now, e.last)
    ensures ((e.last + k * e.period) % U32 + e.period) % U32 == (e.last + (k + 1) * e.period) % U32
    ensures Elapsed(now, (e.last + (k + 1) * e.period) % U32) == Elapsed(now, e.last) - (k + 1) * e.period
    ensures (k + 1) * e.period == k * e.period + e.period
  {
    MultiplyStep(e.period, k);
    WrapSum(e.last + k * e.period, e.period);
    hide Elapsed;
    Advance(now, e.last, (k + 1) * e.period);
  }

  lemma CaughtUpIs(e: Event, now: nat, k: nat)
    requires ValidEvent(e) && k * e.period <= Elapsed(now, e.last) < k * e.period + e.period
    ensures CaughtUp(e, now) == (e.last + k * e.period) % U32
  {
    var d := Elapsed(now, e.last);
    DivideUnique(d, e.period, k, d - k * e.period);
  }

  function FirstFree(es: seq<Event>, i: nat): int
    requires i <= |es|
    decreases |es| - i
  {
    if i == |es| then -1 else if !es[i].active then i else FirstFree(es, i + 1)
  }

  lemma FreeIndex(es: seq<Event>, i: nat)
    requires i <= |es|
    ensures var k := FirstFree(es, i);
            && -1 <= k < |es|
            && (k == -1 ==> forall j :: i <= j < |es| ==> es[j].active)
            && (k >= 0 ==> i <= k && !es[k].active && forall j :: i <= j < k ==> es[j].active)
    decreases |es| - i
  {
  }

  function Added(es: seq<Event>, period: nat, callback: int, repeatCount: int, now: nat): seq<Event> {
    FreeIndex(es, 0);
    var i := FirstFree(es, 0);
    if i == -1 then es else es[i := Event(true, now, period, 0, repeatCount, callback)]
  }

  function ResetEvent(e: Event, now: nat): Event {
    if e.active then e.(last := now) else e
  }

  function Reset(es: seq<Event>, now: nat): seq<Event> {
    seq(|es|, i requires 0 <= i < |es| => ResetEvent(es[i], now))
  }

  function AdjustEvent(e: Event, before: nat, now: nat): Event {
    if !e.active then e
    else if e.last == 0 then e.(last := now)
    else e.(last := (e.last + (now - before)) % U32)
  }

  function Adjusted(es: seq<Event>, before: nat, now: nat): seq<Event> {
    if before == 0 then Reset(es, now)
    else seq(|es|, i requires 0 <= i < |es| => AdjustEvent(es[i], before, now))
  }

  /** One round of updates from event i on: the events, and the calls made. */
  function Tick(es: seq<Event>, i: nat, now: nat, single: bool): (r: (seq<Event>, seq<Call>))
    requires i <= |es| && Word(now) && AllSound(es)
    ensures |r.0| == |es| && AllSound(r.0)
    decreases |es| - i
  {
    if i == |es| then (es, [])
    else if !es[i].active then Tick(es, i + 1, now, single)
    else
      assert Sound(es[i]);
      UpdatedSound(es[i], now);
      var next := es[i := Updated(es[i], now)];
      if Due(es[i], now) && single then (next, Calls(es[i], now))
      else
        var rest := Tick(next, i + 1, now, single);
        (rest.0, Calls(es[i], now) + rest.1)
  }

  /** Event j is the first one from i on that is due in this round. */
  predicate FirstDue(es: seq<Event>, i: nat, now: nat, j: nat)
    requires j < |es|
  {
    i <= j && es[j].active && Due(es[j], now) && forall k :: i <= k < j && es[k].active ==> !Due(es[k], now)
  }

  /** The calls of a round in which every event is updated once, in order. */
  function RoundCalls(es: seq<Event>, now: nat): seq<Call> {
    if es == [] then [] else Calls(es[0], now) + RoundCalls(es[1..], now)
  }

  /** What one round does to each event: without noMultipleEvents every active event is
      updated once and the due ones are called in order; with it, only the first due one
      changes, and only its callback is called. */
  lemma {:induction false} TickEach(es: seq<Event>, i: nat, now: nat, single: bool, j: nat)
    requires i <= |es| && j < |es| && Word(now) && AllSound(es)
    requires es[j].active ==> ValidEvent(es[j])
    ensures var r := Tick(es, i, now, single);
            && r.0[j] == (if i <= j && es[j].active && (!single || FirstDue(es, i, now, j))
                          then Updated(es[j], now) else es[j])
            && (!single ==> r.1 == RoundCalls(es[i..], now))
            && (single && FirstDue(es, i, now, j) ==> r.1 == Calls(es[j], now))
            && (single && (forall k :: i <= k < |es| && es[k].active ==> !Due(es[k], now)) ==> r.1 == [])
    decreases |es| - i
  {
    hide Due, CaughtUp;
    if i < |es| {
      if es[i].active {
        assert Sound(es[i]);
        UpdatedSound(es[i], now);
        var next := es[i := Updated(es[i], now)];
        if Due(es[i], now) && single {
          assert FirstDue(es, i, now, i);
        } else {
          TickEach(next, i + 1, now, single, j);
          assert next[i + 1..] == es[i..][1..];
          if single {
            assert Updated(es[i], now) == es[i] && next == es;
          }
        }
      } else {
        TickEach(es, i + 1, now, single, j);
        assert es[i + 1..] == es[i..][1..];
      }
    }
  }

  // ---------- The timer ----------

  class RTCTimer {
    const events: array<Event>
    var noMultipleEvents: bool
    var log: seq<Call>           // the callbacks called so far

    ghost predicate Valid()
      reads this, events
    {
      Shape() && AllSound(events[..])
    }

    ghost predicate Shape() {
      events.Length == MAX_NUMBER_OF_RTCEVENTS
    }

    constructor ()
      ensures Valid() && fresh(events) && events.Length == 10 && log == [] && !noMultipleEvents
      ensures events[..] == Idle(MAX_NUMBER_OF_RTCEVENTS)
    {
      var idle := Event(false, 0, 0, 0, 0, 0);
      events := new Event[MAX_NUMBER_OF_RTCEVENTS](i => idle);
      noMultipleEvents, log := false, [];
    }

    /** The loop of RTCEvent::update: skips all the event times in the past. */
    method CatchUp(i: nat, now: nat)
      requires Valid() && i < events.Length && ValidEvent(events[i]) && Word(now) && Due(events[i], now)
      modifies events
      ensures events[..] == old(events[..])[i := old(events[i]).(last := CaughtUp(old(events[i]), now))]
    {
      hide Due, Elapsed, CaughtUp;
      ghost var e := events[i];
      ghost var d, k := Elapsed(now, e.last), 0;
      DueIff(e, now);
      DivideUnique(e.last, U32, 0, e.last);
      assert 0 * e.period == 0;
      while Due(events[i], now)
        invariant events[i] == e.(last := (e.last + k * e.period) % U32)
        invariant forall j :: 0 <= j < events.Length && j != i ==> events[j] == old(events[j])
        invariant k * e.period <= d < e.period + 0x8000_0000
        invariant Elapsed(now, events[i].last) == d - k * e.period
        decreases d - k * e.period
      {
        DueIff(events[i], now);
        NextPeriod(e, now, k);
        events[i] := events[i].(last := (events[i].last + events[i].period) % U32);
        k := k + 1;
      }
      DueIff(events[i], now);
      CaughtUpIs(e, now, k);
    }

    /** RTCEvent::update of event i */
    method UpdateEvent(i: nat, now: nat) returns (done: bool)
      requires Valid() && i < events.Length && ValidEvent(events[i]) && Word(now)
      modifies this`log, events
      ensures Valid()
      ensures done == Due(old(events[i]), now)
      ensures events[..] == old(events[..])[i := Updated(old(events[i]), now)]
      ensures log == old(log) + Calls(old(events[i]), now)
      ensures log == old(log) + if done && old(events[i].active) then [Call(old(events[i].callback), now)] else []
    {
      hide Elapsed, CaughtUp, ToSigned;
      ghost var e := events[i];
      UpdatedSound(e, now);
      done := false;
      if Due(events[i], now) {
        if events[i].last == 0 {
          events[i] := events[i].(last := now);
        } else {
          CatchUp(i, now);
        }
        if events[i].active {
          log := log + [Call(events[i].callback, now)];
        }
        if events[i].repeatCount > 0 {
          events[i] := events[i].(count := events[i].count + 1);
          if events[i].count >= events[i].repeatCount {
            events[i] := events[i].(active := false);
          }
        }
        done := true;
      }
    }

    /** findFreeEventIndex */
    method FindFreeEventIndex() returns (i: int)
      requires Shape()
      ensures i == FirstFree(events[..], 0)
    {
      i := 0;
      while i < events.Length
        invariant 0 <= i <= events.Length
        invariant FirstFree(events[..], i) == FirstFree(events[..], 0)
      {
        if !events[i].active {
          return;
        }
        i := i + 1;
      }
      return -1;
    }

    /** every; `now` is the time the clock callback gives. Any period is stored. */
    method Every(period: nat, callback: int, repeatCount: int, now: nat) returns (i: int)
      requires Shape() && Word(period) && Word(now)
      modifies events
      ensures old(Valid()) && ValidPeriod(period) ==> Valid()
      ensures i == FirstFree(old(events[..]), 0)
      ensures events[..] == Added(old(events[..]), period, callback, repeatCount, now)
      ensures i == -1 ==> (forall j :: 0 <= j < events.Length ==> events[j] == old(events[j]) && events[j].active)
      ensures i != -1 ==>
                && 0 <= i < events.Length && !old(events[i].active)
                && (forall j :: 0 <= j < i ==> old(events[j].active))
                && events[i].active && events[i].last == now && events[i].period == period && events[i].count == 0
                && events[i].repeatCount == repeatCount && events[i].callback == callback
                && (forall j :: 0 <= j < events.Length && j != i ==> events[j] == old(events[j]))
    {
      i := FindFreeEventIndex();
      FreeIndex(events[..], 0);
      if i == -1 {
        return;
      }
      events[i] := Event(true, now, period, 0, repeatCount, callback);
    }

    method ResetAll(now: nat)
      requires Shape() && Word(now)
      modifies events
      ensures old(Valid()) ==> Valid()
      ensures events[..] == Reset(old(events[..]), now)
      ensures forall j :: 0 <= j < events.Length ==>
                events[j] == if old(events[j].active) then old(events[j]).(last := now) else old(events[j])
    {
      var i := 0;
      while i < events.Length
        invariant 0 <= i <= events.Length
        invariant forall j :: 0 <= j < i ==> events[j] == ResetEvent(old(events[j]), now)
        invariant forall j :: i <= j < events.Length ==> events[j] == old(events[j])
      {
        if events[i].active {
          events[i] := events[i].(last := now);
        }
        i := i + 1;
      }
    }

    method ClearAllEvents()
      requires Shape()
      modifies events
      ensures Valid() && forall i :: 0 <= i < events.Length ==> events[i] == old(events[i]).(active := false)
    {
      var i := 0;
      while i < events.Length
        invariant 0 <= i <= events.Length
        invariant forall j :: 0 <= j < events.Length ==>
                    events[j] == if j < i then old(events[j]).(active := false) else old(events[j])
      {
        events[i] := events[i].(active := false);
        i := i + 1;
      }
    }

    /** adjust: the clock was set from `before` to `now`. */
    method Adjust(before: nat, now: nat)
      requires Shape() && Word(before) && Word(now)
      modifies events
      ensures old(Valid()) ==> Valid()
      ensures events[..] == Adjusted(old(events[..]), before, now)
      ensures forall j :: 0 <= j < events.Length && !old(events[j].active) ==> events[j] == old(events[j])
      ensures forall j :: 0 <= j < events.Length && old(events[j].active) ==>
                var last := old(events[j].last);
                events[j] == old(events[j]).(last := if before == 0 || last == 0 then now
                                                     else (last + (now - before)) % 0x1_0000_0000)
    {
      if before == 0 {
        ResetAll(now);
        return;
      }
      var diff := ToSigned((now - before) % U32, U32);
      var i := 0;
      while i < events.Length
        invariant 0 <= i <= events.Length
        invariant forall j :: 0 <= j < i ==> events[j] == AdjustEvent(old(events[j]), before, now)
        invariant forall j :: i <= j < events.Length ==> events[j] == old(events[j])
      {
        hide ToSigned;
        if events[i].active {
          if events[i].last == 0 {
            events[i] := events[i].(last := now);
          } else {
            SignedSum(events[i].last, now - before);
            events[i] := events[i].(last := (events[i].last + diff) % U32);
          }
        }
        i := i + 1;
      }
    }

    /** update(now): with noMultipleEvents the first due event ends the round. */
    method Update(now: nat)
      requires Valid() && Word(now)
      modifies this`log, events
      ensures Valid()
      ensures events[..] == Tick(old(events[..]), 0, now, noMultipleEvents).0
      ensures log == old(log) + Tick(old(events[..]), 0, now, noMultipleEvents).1
    {
      hide Updated, Calls, Due;
      var i := 0;
      ghost var was := events[..];
      ghost var round := Tick(was, 0, now, noMultipleEvents);
      while i < events.Length
        invariant Valid() && 0 <= i <= events.Length
        invariant var rest := Tick(events[..], i, now, noMultipleEvents);
                  rest.0 == round.0 && log + rest.1 == old(log) + round.1
      {
        ghost var here, logged := events[..], log;
        if events[i].active {
          var done := UpdateEvent(i, now);
          assert (logged + Calls(here[i], now)) + Tick(events[..], i + 1, now, noMultipleEvents).1
              == logged + (Calls(here[i], now) + Tick(events[..], i + 1, now, noMultipleEvents).1);
          if done && noMultipleEvents {
            assert log + [] == log;
            break;
          }
        }
        i := i + 1;
      }
    }

    /** update(), with what the clock callback gives: 0 stands for no clock. */
    method UpdateFromClock(now: nat)
      requires Valid() && Word(now)
      modifies this`log, events
      ensures Valid()
      ensures now == 0 ==> events[..] == old(events[..]) && log == old(log)
      ensures now != 0 ==> events[..] == Tick(old(events[..]), 0, now, noMultipleEvents).0
                           && log == old(log) + Tick(old(events[..]), 0, now, noMultipleEvents).1
    {
      if now != 0 {
        Update(now);
      }
    }
  }

  // ---------- Runs ----------

  /** A clock that is `offset` ahead. */
  function Clock(t: nat, offset: int): (r: nat)
    ensures r < U32
  {
    (t + offset) % U32
  }

  /** What happens to a timer, at times of a clock that never jumps. */
  datatype Action =
    | Update(t: nat)
    | Add(t: nat, period: nat, callback: int, repeatCount: int)
    | Jump(t: nat, offset: int)  // the clock is set: from now on it is `offset` ahead

  predicate ValidAction(a: Action) {
    Word(a.t) && (a.Add? ==> ValidPeriod(a.period))
  }

  /** The events and the calls of a run; with `jumps` the timer sees the clock that is set,
      and is told by adjust; without, it sees the one that never jumps. */
  function Schedule(es: seq<Event>, offset: int, acts: seq<Action>, single: bool, jumps: bool)
    : (r: (seq<Event>, seq<Call>))
    requires AllSound(es) && forall i :: 0 <= i < |acts| ==> ValidAction(acts[i])
    decreases |acts|
  {
    if acts == [] then (es, [])
    else
      assert ValidAction(acts[0]);
      var now := if jumps then Clock(acts[0].t, offset) else acts[0].t;
      match acts[0]
      case Update(t) =>
        if now == 0 then Schedule(es, offset, acts[1..], single, jumps)  // update() takes 0 for no clock
        else
          var round := Tick(es, 0, now, single);
          var rest := Schedule(round.0, offset, acts[1..], single, jumps);
          (rest.0, round.1 + rest.1)
      case Add(t, period, callback, repeatCount) =>
        AddedSound(es, period, callback, repeatCount, now);
        Schedule(Added(es, period, callback, repeatCount, now), offset, acts[1..], single, jumps)
      case Jump(t, next) =>
        if jumps then
          AdjustedSound(es, now, Clock(t, next));
          Schedule(Adjusted(es, now, Clock(t, next)), next, acts[1..], single, jumps)
        else Schedule(es, next, acts[1..], single, jumps)
  }

  lemma AddedSound(es: seq<Event>, period: nat, callback: int, repeatCount: int, now: nat)
    requires AllSound(es) && ValidPeriod(period) && Word(now)
    ensures AllSound(Added(es, period, callback, repeatCount, now))
  {
    FreeIndex(es, 0);
  }

  lemma AdjustedSound(es: seq<Event>, before: nat, now: nat)
    requires AllSound(es) && Word(now)
    ensures AllSound(Adjusted(es, before, now))
  {
    forall i | 0 <= i < |es|
      ensures Sound(AdjustEvent(es[i], before, now)) && Sound(ResetEvent(es[i], now))
    {
      assert Sound(es[i]);
    }
  }

  // ---------- Repeat counts ----------

  /** Slot i holds an event for the callback, and no other slot does. */
  predicate Owns(es: seq<Event>, i: nat, c: int) {
    && i < |es| && es[i].active && es[i].callback == c
    && forall j :: 0 <= j < |es| && j != i && es[j].active ==> es[j].callback != c
  }

  predicate Unused(es: seq<Event>, c: int) {
    forall j :: 0 <= j < |es| && es[j].active ==> es[j].callback != c
  }

  /** The event for the callback after k of n calls. */
  predicate Progress(es: seq<Event>, i: nat, c: int, n: nat, k: nat) {
    if k < n then Owns(es, i, c) && es[i].count == k && es[i].repeatCount == n
    else k == n && Unused(es, c)
  }

  /** The times that a callback was given, call by call. */
  function TimesOf(log: seq<Call>, c: int): seq<nat> {
    if log == [] then [] else (if log[0].callback == c then [log[0].at] else []) + TimesOf(log[1..], c)
  }

  /** How often it was called. */
  function CallsOf(log: seq<Call>, c: int): nat {
    |TimesOf(log, c)|
  }

  lemma {:induction false} CallsOfConcat(a: seq<Call>, b: seq<Call>, c: int)
    ensures TimesOf(a + b, c) == TimesOf(a, c) + TimesOf(b, c)
    ensures CallsOf(a + b, c) == CallsOf(a, c) + CallsOf(b, c)
  {
    if a == [] {
      assert a + b == b;
    } else {
      CallsOfConcat(a[1..], b, c);
      var first := if a[0].callback == c then [a[0].at] else [];
      assert (a + b)[1..] == a[1..] + b;
      assert TimesOf(a + b, c) == first + TimesOf(a[1..] + b, c);
      assert TimesOf(a, c) == first + TimesOf(a[1..], c);
      hide TimesOf;
      SequenceSum(first, TimesOf(a[1..], c), TimesOf(b, c));
    }
  }

  lemma SequenceSum(a: seq<nat>, b: seq<nat>, c: seq<nat>)
    ensures a + (b + c) == (a + b) + c
  {
  }

  lemma OwnCalls(e: Event, now: nat, c: int)
    ensures CallsOf(Calls(e, now), c) == if e.active && Due(e, now) && e.callback == c then 1 else 0
  {
    hide Due;
    if e.active && Due(e, now) {
      assert TimesOf(Calls(e, now)[1..], c) == [];
    }
  }

  lemma UpdateProgress(es: seq<Event>, p: nat, now: nat, i: nat, c: int, n: nat, k: nat)
    requires p < |es| && es[p].active && ValidEvent(es[p]) && Progress(es, i, c, n, k)
    ensures Progress(es[p := Updated(es[p], now)], i, c, n, k + CallsOf(Calls(es[p], now), c))
  {
    hide Due, CaughtUp;
    OwnCalls(es[p], now, c);
    hide Calls, CallsOf;
  }

  lemma {:induction false} TickProgress(es: seq<Event>, p: nat, now: nat, single: bool, i: nat, c: int, n: nat, k: nat)
    requires p <= |es| && Word(now) && AllSound(es) && Progress(es, i, c, n, k)
    ensures Progress(Tick(es, p, now, single).0, i, c, n, k + CallsOf(Tick(es, p, now, single).1, c))
    decreases |es| - p
  {
    hide Due, Updated, Calls, Progress;
    if p < |es| {
      if es[p].active {
        assert Sound(es[p]);
        UpdatedSound(es[p], now);
        UpdateProgress(es, p, now, i, c, n, k);
        var next := es[p := Updated(es[p], now)];
        var made := Calls(es[p], now);
        if !(Due(es[p], now) && single) {
          TickProgress(next, p + 1, now, single, i, c, n, k + CallsOf(made, c));
          CallsOfConcat(made, Tick(next, p + 1, now, single).1, c);
        }
      } else {
        TickProgress(es, p + 1, now, single, i, c, n, k);
      }
    }
  }

  lemma AddedProgress(es: seq<Event>, period: nat, callback: int, repeatCount: int, now: nat,
                      i: nat, c: int, n: nat, k: nat)
    requires Progress(es, i, c, n, k) && callback != c
    ensures Progress(Added(es, period, callback, repeatCount, now), i, c, n, k)
  {
    FreeIndex(es, 0);
    hide FirstFree;
  }

  /** A newly added event starts with no calls, in the slot that `every` returns. */
  lemma AddedStarts(es: seq<Event>, period: nat, c: int, n: nat, now: nat)
    requires Unused(es, c) && n > 0 && FirstFree(es, 0) != -1
    ensures FirstFree(es, 0) >= 0 && Progress(Added(es, period, c, n, now), FirstFree(es, 0), c, n, 0)
  {
    FreeIndex(es, 0);
    hide FirstFree;
  }

  lemma AdjustedProgress(es: seq<Event>, before: nat, now: nat, i: nat, c: int, n: nat, k: nat)
    requires Progress(es, i, c, n, k)
    ensures Progress(Adjusted(es, before, now), i, c, n, k)
  {
  }

  /** An event is called at most as often as its repeat count allows. */
  lemma {:induction false} RepeatsAtMost(es: seq<Event>, offset: int, acts: seq<Action>, single: bool, jumps: bool,
                                         i: nat, c: int, n: nat, k: nat)
    requires AllSound(es) && forall a :: 0 <= a < |acts| ==> ValidAction(acts[a])
    requires forall a :: 0 <= a < |acts| && acts[a].Add? ==> acts[a].callback != c
    requires Progress(es, i, c, n, k)
    ensures var r := Schedule(es, offset, acts, single, jumps);
            var m := CallsOf(r.1, c);
            && k + m <= n
            && (k + m < n ==> Owns(r.0, i, c) && r.0[i].count == k + m && r.0[i].repeatCount == n)
            && (k + m == n ==> Unused(r.0, c))
    decreases |acts|
  {
    hide Tick, Added, Adjusted, AllSound, Clock;
    if acts != [] {
      assert ValidAction(acts[0]);
      var now := if jumps then Clock(acts[0].t, offset) else acts[0].t;
      match acts[0] {
        case Update(t) =>
          if now == 0 {
            RepeatsAtMost(es, offset, acts[1..], single, jumps, i, c, n, k);
          } else {
            TickProgress(es, 0, now, single, i, c, n, k);
            var round := Tick(es, 0, now, single);
            RepeatsAtMost(round.0, offset, acts[1..], single, jumps, i, c, n, k + CallsOf(round.1, c));
            CallsOfConcat(round.1, Schedule(round.0, offset, acts[1..], single, jumps).1, c);
          }
        case Add(t, period, callback, repeatCount) =>
          AddedSound(es, period, callback, repeatCount, now);
          AddedProgress(es, period, callback, repeatCount, now, i, c, n, k);
          RepeatsAtMost(Added(es, period, callback, repeatCount, now), offset, acts[1..], single, jumps, i, c, n, k);
        case Jump(t, next) =>
          if jumps {
            AdjustedSound(es, now, Clock(t, next));
            AdjustedProgress(es, now, Clock(t, next), i, c, n, k);
            RepeatsAtMost(Adjusted(es, now, Clock(t, next)), next, acts[1..], single, jumps, i, c, n, k);
          } else {
            RepeatsAtMost(es, next, acts[1..], single, jumps, i, c, n, k);
          }
      }
    }
  }

  // ---------- Every update that finds an event due calls it ----------

  /** The same event on its own, never freed. */
  function Lone(e: Event): Event {
    e.(count := 0, repeatCount := 0)
  }

  /** What a clock change makes of one event. */
  function Moved(e: Event, before: nat, now: nat): Event {
    if before == 0 then ResetEvent(e, now) else AdjustEvent(e, before, now)
  }

  /** The times of the updates of a run that find an event due, whatever the other events do. */
  function DueTimes(e: Event, offset: int, acts: seq<Action>, jumps: bool): seq<nat>
    requires e.active && ValidEvent(e) && e.repeatCount <= 0
    requires forall a :: 0 <= a < |acts| ==> ValidAction(acts[a])
    decreases |acts|
  {
    if acts == [] then []
    else
      assert ValidAction(acts[0]);
      var now := if jumps then Clock(acts[0].t, offset) else acts[0].t;
      match acts[0]
      case Update(t) =>
        if now == 0 then DueTimes(e, offset, acts[1..], jumps)
        else
          UpdatedSound(e, now);
          (if Due(e, now) then [now] else []) + DueTimes(Updated(e, now), offset, acts[1..], jumps)
      case Add(_, _, _, _) => DueTimes(e, offset, acts[1..], jumps)
      case Jump(t, next) =>
        DueTimes(if jumps then Moved(e, now, Clock(t, next)) else e, next, acts[1..], jumps)
  }

  /** The callback's own event contributes the only call, and it is given the time. */
  lemma {:induction false} RoundCallsOf(es: seq<Event>, now: nat, c: int)
    ensures Unused(es, c) ==> TimesOf(RoundCalls(es, now), c) == []
    ensures forall i :: 0 <= i < |es| && Owns(es, i, c) ==>
              TimesOf(RoundCalls(es, now), c) == if Due(es[i], now) then [now] else []
    decreases |es|
  {
    hide Due;
    if es != [] {
      RoundCallsOf(es[1..], now, c);
      CallsOfConcat(Calls(es[0], now), RoundCalls(es[1..], now), c);
      forall i | 0 <= i < |es| && Owns(es, i, c)
        ensures i == 0 ==> Unused(es[1..], c)
        ensures i > 0 ==> Owns(es[1..], i - 1, c)
      {
      }
      assert Unused(es, c) ==> Unused(es[1..], c);
    }
  }

  lemma RoundOwned(es: seq<Event>, now: nat, i: nat, c: int)
    requires AllSound(es) && Word(now) && Owns(es, i, c)
    ensures var r := Tick(es, 0, now, false);
            && TimesOf(r.1, c) == (if Due(es[i], now) then [now] else [])
            && r.0[i] == Updated(es[i], now)
            && (if r.0[i].active then Owns(r.0, i, c) else Unused(r.0, c))
  {
    hide Tick, Due, CaughtUp, RoundCalls;
    assert es[0..] == es;
    RoundCallsOf(es, now, c);
    forall j | 0 <= j < |es|
      ensures Tick(es, 0, now, false).0[j] == if es[j].active then Updated(es[j], now) else es[j]
      ensures Tick(es, 0, now, false).1 == RoundCalls(es, now)
    {
      assert Sound(es[j]);
      TickEach(es, 0, now, false, j);
    }
  }

  lemma LoneStep(e: Event, now: nat, before: nat)
    requires e.active && ValidEvent(e) && Word(now)
    ensures Updated(e, now).active ==> Lone(Updated(e, now)) == Updated(Lone(e), now)
    ensures Due(Lone(e), now) == Due(e, now)
    ensures Lone(Moved(e, before, now)) == Moved(Lone(e), before, now)
  {
    hide Elapsed, ToSigned;
  }

  /** The calls that an event's repeat count leaves it; 0 or less stands for no limit. */
  function Limited(e: Event, times: seq<nat>): seq<nat>
    requires e.repeatCount > 0 ==> e.count <= e.repeatCount
  {
    if e.repeatCount <= 0 || |times| <= e.repeatCount - e.count then times else times[..e.repeatCount - e.count]
  }

  lemma LimitedStep(e: Event, now: nat, rest: seq<nat>)
    requires e.active && ValidEvent(e) && Word(now) && (e.repeatCount > 0 ==> e.count < e.repeatCount)
    ensures var u := Updated(e, now);
            var first := if Due(e, now) then [now] else [];
            && (u.repeatCount > 0 ==> u.count <= u.repeatCount)
            && (u.active ==> u.repeatCount > 0 ==> u.count < u.repeatCount)
            && first + (if u.active then Limited(u, rest) else []) == Limited(e, first + rest)
  {
    hide Due, CaughtUp;
  }

  /** Over any run without noMultipleEvents an event is called by exactly the updates that
      find it due, until its repeat count is used up. */
  lemma {:induction false} CalledWhenDue(es: seq<Event>, offset: int, acts: seq<Action>, jumps: bool, i: nat, c: int)
    requires AllSound(es) && forall a :: 0 <= a < |acts| ==> ValidAction(acts[a])
    requires forall a :: 0 <= a < |acts| && acts[a].Add? ==> acts[a].callback != c
    requires Owns(es, i, c) && (es[i].repeatCount > 0 ==> es[i].count < es[i].repeatCount)
    ensures assert Sound(es[i]); TimesOf(Schedule(es, offset, acts, false, jumps).1, c)
         == Limited(es[i], DueTimes(Lone(es[i]), offset, acts, jumps))
    decreases |acts|
  {
    assert Sound(es[i]);
    hide Tick, Added, Adjusted, AllSound, Clock, Due, CaughtUp, Unused;
    if acts != [] {
      assert ValidAction(acts[0]);
      var now := if jumps then Clock(acts[0].t, offset) else acts[0].t;
      match acts[0] {
        case Update(t) =>
          if now == 0 {
            CalledWhenDue(es, offset, acts[1..], jumps, i, c);
          } else {
            var round := Tick(es, 0, now, false);
            RoundOwned(es, now, i, c);
            LoneStep(es[i], now, 0);
            UpdatedSound(es[i], now);
            UpdatedSound(Lone(es[i]), now);
            LimitedStep(es[i], now, DueTimes(Updated(Lone(es[i]), now), offset, acts[1..], jumps));
            CallsOfConcat(round.1, Schedule(round.0, offset, acts[1..], false, jumps).1, c);
            if round.0[i].active {
              CalledWhenDue(round.0, offset, acts[1..], jumps, i, c);
            } else {
              NotCalled(round.0, offset, acts[1..], jumps, c);
            }
          }
        case Add(t, period, callback, repeatCount) =>
          AddedSound(es, period, callback, repeatCount, now);
          AddedOwned(es, period, callback, repeatCount, now, i, c);
          CalledWhenDue(Added(es, period, callback, repeatCount, now), offset, acts[1..], jumps, i, c);
        case Jump(t, next) =>
          if jumps {
            AdjustedSound(es, now, Clock(t, next));
            AdjustedOwned(es, now, Clock(t, next), i, c);
            LoneStep(es[i], Clock(t, next), now);
            CalledWhenDue(Adjusted(es, now, Clock(t, next)), next, acts[1..], jumps, i, c);
          } else {
            CalledWhenDue(es, next, acts[1..], jumps, i, c);
          }
      }
    }
  }

  lemma NotCalled(es: seq<Event>, offset: int, acts: seq<Action>, jumps: bool, c: int)
    requires AllSound(es) && forall a :: 0 <= a < |acts| ==> ValidAction(acts[a])
    requires forall a :: 0 <= a < |acts| && acts[a].Add? ==> acts[a].callback != c
    requires Unused(es, c)
    ensures TimesOf(Schedule(es, offset, acts, false, jumps).1, c) == []
  {
    hide Schedule, AllSound, Unused;
    RepeatsAtMost(es, offset, acts, false, jumps, 0, c, 0, 0);
  }

  lemma AddedOwned(es: seq<Event>, period: nat, callback: int, repeatCount: int, now: nat, i: nat, c: int)
    requires Owns(es, i, c) && callback != c
    ensures var r := Added(es, period, callback, repeatCount, now);
            Owns(r, i, c) && r[i] == es[i]
  {
    FreeIndex(es, 0);
    hide FirstFree;
  }

  lemma AdjustedOwned(es: seq<Event>, before: nat, now: nat, i: nat, c: int)
    requires AllSound(es) && Owns(es, i, c) && Word(now)
    ensures var r := Adjusted(es, before, now);
            Owns(r, i, c) && r[i] == Moved(es[i], before, now) && ValidEvent(r[i])
  {
    assert Sound(es[i]);
  }

  /** The times of the updates that are the first ones in a period of the grid from `start` on,
      which begin at start + period, start + 2 * period, ...; period q is the latest one that
      had an update. */
  function FirstInPeriods(start: nat, period: nat, q: nat, acts: seq<Action>): seq<nat>
    requires period > 0
    decreases |acts|
  {
    if acts == [] then []
    else if acts[0].Update? && acts[0].t >= start then
      var n := (acts[0].t - start) / period;
      (if n > q then [acts[0].t] else []) + FirstInPeriods(start, period, n, acts[1..])
    else FirstInPeriods(start, period, q, acts[1..])
  }

  /** The period of the grid in which t lies, seen from an event's last time in period q. */
  lemma PeriodIndex(start: nat, period: nat, q: nat, last: nat, t: nat)
    requires ValidPeriod(period) && last == start + q * period && last <= t
    ensures var n := (t - start) / period;
            && n >= q && (n > q <==> t - last >= period)
            && start + n * period == last + (t - last) / period * period
  {
    var d := t - last;
    var k := d / period;
    PeriodsPassed(d, period);
    Distribute(q, k, period);
    DivideUnique(t - start, period, q + k, d - k * period);
    if d < period {
      DivideUnique(d, period, 0, d);
    }
  }

  lemma Distribute(a: nat, b: nat, n: nat)
    ensures (a + b) * n == a * n + b * n
  {
  }

  lemma UpdateOnGrid(e: Event, start: nat, q: nat, t: nat)
    requires e.active && ValidEvent(e) && e.repeatCount <= 0 && 1 <= e.last == start + q * e.period <= t
    requires t < U32 && t - e.last < 0x8000_0000
    ensures var n := (t - start) / e.period;
            && 1 <= start + n * e.period <= t && n >= q && (Due(e, t) <==> n > q)
            && Updated(e, t) == e.(last := start + n * e.period)
  {
    DueIff(e, t);
    CaughtUpInRange(e, t);
    PeriodIndex(start, e.period, q, e.last, t);
    hide Due, CaughtUp, Elapsed;
  }

  /** While the clock is not set and runs for less than half its range, an event is due at
      exactly the first update in every period of its grid. */
  lemma {:induction false} OncePerPeriod(e: Event, start: nat, q: nat, offset: int, acts: seq<Action>, t: nat, hi: nat)
    requires e.active && ValidEvent(e) && e.repeatCount <= 0 && 1 <= e.last == start + q * e.period <= t <= hi
    requires forall a :: 0 <= a < |acts| ==> ValidAction(acts[a])
    requires InOrder(acts, t, hi) && hi < U32 && hi - start < 0x8000_0000
    ensures DueTimes(e, offset, acts, false) == FirstInPeriods(start, e.period, q, acts)
    decreases |acts|
  {
    hide Due, Updated;
    if acts != [] {
      assert ValidAction(acts[0]);
      match acts[0] {
        case Update(u) =>
          UpdateOnGrid(e, start, q, u);
          UpdatedSound(e, u);
          OncePerPeriod(Updated(e, u), start, (u - start) / e.period, offset, acts[1..], u, hi);
        case Add(u, _, _, _) => OncePerPeriod(e, start, q, offset, acts[1..], u, hi);
        case Jump(u, next) => OncePerPeriod(e, start, q, next, acts[1..], u, hi);
      }
    }
  }

  /** Over any run, with other events coming and going, with or without noMultipleEvents and
      clock changes: an event with repeat count n that was called k times keeps its slot and
      its count of calls before the nth, and at the nth call it is freed for good, as long as
      its callback is not added again. Without noMultipleEvents every update that finds the
      event due before that calls it. */
  lemma RepeatsExactly(es: seq<Event>, offset: int, acts: seq<Action>, single: bool, jumps: bool,
                       i: nat, c: int, n: nat, k: nat)
    requires AllSound(es) && forall a :: 0 <= a < |acts| ==> ValidAction(acts[a])
    requires forall a :: 0 <= a < |acts| && acts[a].Add? ==> acts[a].callback != c
    requires Progress(es, i, c, n, k)
    ensures var r := Schedule(es, offset, acts, single, jumps);
            var m := CallsOf(r.1, c);
            && k + m <= n
            && (k + m < n ==> Owns(r.0, i, c) && r.0[i].count == k + m && r.0[i].repeatCount == n)
            && (k + m == n ==> Unused(r.0, c))
            && (!single && k < n ==>
                  assert Sound(es[i]);
                  var due := DueTimes(Lone(es[i]), offset, acts, jumps);
                  m == Min(n - k, |due|) && TimesOf(r.1, c) == due[..m])
  {
    hide Schedule, AllSound, Unused, DueTimes, TimesOf;
    RepeatsAtMost(es, offset, acts, single, jumps, i, c, n, k);
    if !single && k < n {
      CalledWhenDue(es, offset, acts, jumps, i, c);
    }
  }

  /** While the clock is not set, a callback that is added at `start` with a period is called
      exactly by the first update in each interval of that length from start + period on, with
      the time of that update, without a limit or as often as its repeat count says. */
  lemma CalledEveryPeriod(es: seq<Event>, start: nat, period: nat, c: int, repeatCount: int,
                          offset: int, acts: seq<Action>, hi: nat)
    requires AllSound(es) && Unused(es, c) && (exists i :: 0 <= i < |es| && !es[i].active)
    requires 1 <= start <= hi < U32 && hi - start < 0x8000_0000 && ValidPeriod(period) && InOrder(acts, start, hi)
    requires forall a :: 0 <= a < |acts| ==> ValidAction(acts[a]) && (acts[a].Add? ==> acts[a].callback != c)
    ensures var run := [Add(start, period, c, repeatCount)] + acts;
            var all := FirstInPeriods(start, period, 0, acts);
            && (forall a :: 0 <= a < |run| ==> ValidAction(run[a]))
            && TimesOf(Schedule(es, offset, run, false, false).1, c)
               == if 0 < repeatCount < |all| then all[..repeatCount] else all
  {
    var run := [Add(start, period, c, repeatCount)] + acts;
    assert run[1..] == acts;
    forall a | 0 <= a < |run|
      ensures ValidAction(run[a])
    {
      assert a > 0 ==> run[a] == acts[a - 1];
    }
    AddedSound(es, period, c, repeatCount, start);
    AddedAlone(es, period, c, repeatCount, start);
    var added, i := Added(es, period, c, repeatCount, start), FirstFree(es, 0);
    hide Schedule, Unused, Added, FirstFree, DueTimes, FirstInPeriods, TimesOf, AllSound;
    ScheduleAdd(es, offset, run);
    CalledWhenDue(added, offset, acts, false, i, c);
    assert 0 * period == 0;
    OncePerPeriod(Lone(added[i]), start, 0, offset, acts, start, hi);
  }

  lemma AddedAlone(es: seq<Event>, period: nat, c: int, repeatCount: int, now: nat)
    requires Unused(es, c) && exists i :: 0 <= i < |es| && !es[i].active
    ensures var r, i := Added(es, period, c, repeatCount, now), FirstFree(es, 0);
            0 <= i < |es| == |r| && Owns(r, i, c) && r[i] == Event(true, now, period, 0, repeatCount, c)
  {
    FreeIndex(es, 0);
    hide FirstFree;
  }

  lemma ScheduleAdd(es: seq<Event>, offset: int, run: seq<Action>)
    requires AllSound(es) && run != [] && run[0].Add? && forall a :: 0 <= a < |run| ==> ValidAction(run[a])
    ensures var added := Added(es, run[0].period, run[0].callback, run[0].repeatCount, run[0].t);
            AllSound(added)
            && Schedule(es, offset, run, false, false) == Schedule(added, offset, run[1..], false, false)
  {
    assert ValidAction(run[0]);
    AddedSound(es, run[0].period, run[0].callback, run[0].repeatCount, run[0].t);
    hide Tick, Added, Adjusted, AllSound;
  }

  function Min(a: nat, b: nat): nat {
    if a <= b then a else b
  }

  // ---------- Clock jumps ----------

  /** Event b is event a for a clock that is `offset` ahead. */
  predicate Shifted(a: Event, b: Event, offset: int) {
    a.active == b.active && (a.active ==> b == a.(last := Clock(a.last, offset)))
  }

  predicate AllShifted(es: seq<Event>, fs: seq<Event>, offset: int) {
    |es| == |fs| && forall i :: 0 <= i < |es| ==> Shifted(es[i], fs[i], offset)
  }

  /** No active event has last time 0, which stands for not initialised. */
  predicate NoZero(es: seq<Event>) {
    forall i :: 0 <= i < |es| && es[i].active ==> es[i].last != 0
  }

  lemma ElapsedShifted(now: nat, last: nat, offset: int)
    ensures Elapsed(Clock(now, offset), Clock(last, offset)) == Elapsed(now, last)
  {
    WrapDifference(Clock(now, offset), last + offset);
    WrapSum(now + offset, -(last + offset));
    assert now + offset - (last + offset) == now - last;
  }

  lemma UpdatedShifted(a: Event, b: Event, now: nat, offset: int)
    requires a.active && ValidEvent(a) && ValidEvent(b) && Shifted(a, b, offset) && a.last != 0 && b.last != 0
    ensures Due(b, Clock(now, offset)) <==> Due(a, now)
    ensures Shifted(Updated(a, now), Updated(b, Clock(now, offset)), offset)
  {
    DueShifted(a, b, now, offset);
    CaughtUpShifted(a, b, now, offset);
    hide Due, CaughtUp, Clock;
  }

  lemma DueShifted(a: Event, b: Event, now: nat, offset: int)
    requires ValidPeriod(a.period) && b.period == a.period && b.last == Clock(a.last, offset)
    ensures Due(b, Clock(now, offset)) <==> Due(a, now)
  {
    hide Due, Elapsed, Clock;
    ElapsedShifted(now, a.last, offset);
    DueIff(a, now);
    DueIff(b, Clock(now, offset));
  }

  lemma CaughtUpShifted(a: Event, b: Event, now: nat, offset: int)
    requires ValidPeriod(a.period) && b.period == a.period && b.last == Clock(a.last, offset)
    ensures CaughtUp(b, Clock(now, offset)) == Clock(CaughtUp(a, now), offset)
  {
    hide Elapsed;
    ElapsedShifted(now, a.last, offset);
    var d := Elapsed(now, a.last);
    PeriodsPassed(d, a.period);
    StepShifted(a.last, (d / a.period) * a.period, offset);
  }

  lemma StepShifted(last: nat, step: nat, offset: int)
    ensures (Clock(last, offset) + step) % U32 == Clock((last + step) % U32, offset)
  {
    WrapSum(last + offset, step);
    WrapSum(last + step, offset);
  }

  function Names(log: seq<Call>): seq<int> {
    if log == [] then [] else [log[0].callback] + Names(log[1..])
  }

  lemma {:induction false} NamesConcat(a: seq<Call>, b: seq<Call>)
    ensures Names(a + b) == Names(a) + Names(b)
  {
    if a == [] {
      assert a + b == b;
    } else {
      assert (a + b)[1..] == a[1..] + b;
      NamesConcat(a[1..], b);
    }
  }

  /** The same calls, given the times of a clock that is `offset` ahead. */
  function Told(log: seq<Call>, offset: int): seq<Call> {
    if log == [] then []
    else [Call(log[0].callback, Clock(log[0].at, offset))] + Told(log[1..], offset)
  }

  lemma {:induction false} ToldConcat(a: seq<Call>, b: seq<Call>, offset: int)
    ensures Told(a + b, offset) == Told(a, offset) + Told(b, offset)
  {
    hide Clock;
    if a == [] {
      assert a + b == b;
    } else {
      assert (a + b)[1..] == a[1..] + b;
      ToldConcat(a[1..], b, offset);
    }
  }

  lemma {:induction false} NamesTold(log: seq<Call>, offset: int)
    ensures Names(Told(log, offset)) == Names(log)
  {
    hide Clock;
    if log != [] {
      NamesTold(log[1..], offset);
    }
  }

  lemma {:induction false} TickShifted(es: seq<Event>, fs: seq<Event>, i: nat, now: nat, offset: int, single: bool)
    requires AllShifted(es, fs, offset) && AllSound(es) && AllSound(fs) && i <= |es| && Word(now)
    requires forall j :: i <= j < |es| && es[j].active ==> es[j].last != 0
    requires forall j :: i <= j < |fs| && fs[j].active ==> fs[j].last != 0
    ensures var r, s := Tick(es, i, now, single), Tick(fs, i, Clock(now, offset), single);
            AllShifted(r.0, s.0, offset) && s.1 == Told(r.1, offset)
    decreases |es| - i
  {
    hide Due, Updated, Clock;
    if i < |es| {
      assert Sound(es[i]) && Sound(fs[i]) && Shifted(es[i], fs[i], offset);
      if es[i].active {
        OneShifted(es, fs, i, now, offset);
        var es', fs' := es[i := Updated(es[i], now)], fs[i := Updated(fs[i], Clock(now, offset))];
        var c := Calls(es[i], now);
        if !(Due(es[i], now) && single) {
          TickShifted(es', fs', i + 1, now, offset, single);
          ToldConcat(c, Tick(es', i + 1, now, single).1, offset);
        }
      } else {
        TickShifted(es, fs, i + 1, now, offset, single);
      }
    }
  }

  lemma OneShifted(es: seq<Event>, fs: seq<Event>, i: nat, now: nat, offset: int)
    requires AllShifted(es, fs, offset) && AllSound(es) && AllSound(fs) && i < |es| && Word(now)
    requires es[i].active && es[i].last != 0 && fs[i].last != 0
    ensures ValidEvent(es[i]) && ValidEvent(fs[i]) && Word(Clock(now, offset))
    ensures Due(es[i], now) <==> Due(fs[i], Clock(now, offset))
    ensures Calls(fs[i], Clock(now, offset)) == Told(Calls(es[i], now), offset)
    ensures var es', fs' := es[i := Updated(es[i], now)], fs[i := Updated(fs[i], Clock(now, offset))];
            AllShifted(es', fs', offset) && AllSound(es') && AllSound(fs')
  {
    assert Sound(es[i]) && Sound(fs[i]) && Shifted(es[i], fs[i], offset);
    UpdatedSound(es[i], now);
    UpdatedSound(fs[i], Clock(now, offset));
    hide Due, CaughtUp, Updated, ValidEvent;
    UpdatedShifted(es[i], fs[i], now, offset);
  }

  /** adjust moves the events from one offset of the clock to another. */
  lemma AdjustShifted(es: seq<Event>, fs: seq<Event>, t: nat, offset: int, next: int)
    requires AllShifted(es, fs, offset) && AllSound(fs) && NoZero(fs) && Clock(t, offset) != 0
    ensures AllShifted(es, Adjusted(fs, Clock(t, offset), Clock(t, next)), next)
    ensures AllSound(Adjusted(fs, Clock(t, offset), Clock(t, next)))
  {
    var before, now := Clock(t, offset), Clock(t, next);
    forall i | 0 <= i < |es|
      ensures Shifted(es[i], AdjustEvent(fs[i], before, now), next) && Sound(AdjustEvent(fs[i], before, now))
    {
      assert Shifted(es[i], fs[i], offset) && Sound(fs[i]);
      if es[i].active {
        Rebased(es[i].last, t, offset, next);
      }
    }
  }

  lemma Rebased(last: nat, t: nat, offset: int, next: int)
    ensures (Clock(last, offset) + (Clock(t, next) - Clock(t, offset))) % U32 == Clock(last, next)
  {
    WrapSum(last + offset, Clock(t, next) - Clock(t, offset));
    WrapSum(t + next, last + offset - Clock(t, offset));
    WrapDifference(t + next + last + offset, t + offset);
  }

  /** Neither run meets a time 0 where the code takes it for missing. */
  predicate NeverZero(es: seq<Event>, fs: seq<Event>, offset: int, acts: seq<Action>, single: bool)
    requires AllSound(es) && AllSound(fs) && forall i :: 0 <= i < |acts| ==> ValidAction(acts[i])
    decreases |acts|
  {
    acts == [] ||
    (&& NoZero(es) && NoZero(fs) && acts[0].t != 0 && Clock(acts[0].t, offset) != 0
     && assert ValidAction(acts[0]);
        var now := Clock(acts[0].t, offset);
        match acts[0]
        case Update(t) =>
          NeverZero(Tick(es, 0, t, single).0, Tick(fs, 0, now, single).0, offset, acts[1..], single)
        case Add(t, period, callback, repeatCount) =>
          AddedSound(es, period, callback, repeatCount, t);
          AddedSound(fs, period, callback, repeatCount, now);
          NeverZero(Added(es, period, callback, repeatCount, t), Added(fs, period, callback, repeatCount, now),
                    offset, acts[1..], single)
        case Jump(t, next) =>
          AdjustedSound(fs, now, Clock(t, next));
          NeverZero(es, Adjusted(fs, now, Clock(t, next)), next, acts[1..], single))
  }

  lemma AddedShifted(es: seq<Event>, fs: seq<Event>, offset: int, period: nat, callback: int, repeatCount: int, t: nat)
    requires AllShifted(es, fs, offset)
    ensures AllShifted(Added(es, period, callback, repeatCount, t),
                       Added(fs, period, callback, repeatCount, Clock(t, offset)), offset)
  {
    SameFree(es, fs, offset, 0);
    FreeIndex(es, 0);
    hide FirstFree, Clock;
  }

  lemma {:induction false} SameFree(es: seq<Event>, fs: seq<Event>, offset: int, i: nat)
    requires AllShifted(es, fs, offset) && i <= |es|
    ensures FirstFree(es, i) == FirstFree(fs, i)
    decreases |es| - i
  {
    hide Clock;
    if i < |es| {
      assert Shifted(es[i], fs[i], offset);
      SameFree(es, fs, offset, i + 1);
    }
  }

  /** The calls of the run whose clock never jumps, each given the time that the set clock
      shows then. */
  function ToldBy(es: seq<Event>, offset: int, acts: seq<Action>, single: bool): seq<Call>
    requires AllSound(es) && forall i :: 0 <= i < |acts| ==> ValidAction(acts[i])
    decreases |acts|
  {
    if acts == [] then []
    else
      assert ValidAction(acts[0]);
      match acts[0]
      case Update(t) =>
        if t == 0 then ToldBy(es, offset, acts[1..], single)
        else
          var round := Tick(es, 0, t, single);
          Told(round.1, offset) + ToldBy(round.0, offset, acts[1..], single)
      case Add(t, period, callback, repeatCount) =>
        AddedSound(es, period, callback, repeatCount, t);
        ToldBy(Added(es, period, callback, repeatCount, t), offset, acts[1..], single)
      case Jump(_, next) => ToldBy(es, next, acts[1..], single)
  }

  lemma {:induction false} NamesToldBy(es: seq<Event>, offset: int, acts: seq<Action>, single: bool)
    requires AllSound(es) && forall i :: 0 <= i < |acts| ==> ValidAction(acts[i])
    ensures Names(ToldBy(es, offset, acts, single)) == Names(Schedule(es, offset, acts, single, false).1)
    decreases |acts|
  {
    hide Tick, Added, AllSound;
    if acts != [] {
      assert ValidAction(acts[0]);
      match acts[0] {
        case Update(t) =>
          if t == 0 {
            NamesToldBy(es, offset, acts[1..], single);
          } else {
            var round := Tick(es, 0, t, single);
            NamesToldBy(round.0, offset, acts[1..], single);
            NamesTold(round.1, offset);
            NamesConcat(Told(round.1, offset), ToldBy(round.0, offset, acts[1..], single));
            NamesConcat(round.1, Schedule(round.0, offset, acts[1..], single, false).1);
          }
        case Add(t, period, callback, repeatCount) =>
          AddedSound(es, period, callback, repeatCount, t);
          NamesToldBy(Added(es, period, callback, repeatCount, t), offset, acts[1..], single);
        case Jump(_, next) => NamesToldBy(es, next, acts[1..], single);
      }
    }
  }

  /** Two such runs make the same calls, at the times that their clocks show. */
  lemma {:induction false} SameCalls(es: seq<Event>, fs: seq<Event>, offset: int, acts: seq<Action>, single: bool)
    requires AllSound(es) && AllSound(fs) && AllShifted(es, fs, offset)
    requires forall i :: 0 <= i < |acts| ==> ValidAction(acts[i])
    requires NeverZero(es, fs, offset, acts, single)
    ensures Schedule(fs, offset, acts, single, true).1 == ToldBy(es, offset, acts, single)
    ensures Names(Schedule(fs, offset, acts, single, true).1) == Names(Schedule(es, offset, acts, single, false).1)
    decreases |acts|
  {
    NamesToldBy(es, offset, acts, single);
    hide Tick, Added, Adjusted, AllShifted, AllSound, Clock;
    if acts != [] {
      assert ValidAction(acts[0]);
      var now := Clock(acts[0].t, offset);
      match acts[0] {
        case Update(t) =>
          TickShifted(es, fs, 0, t, offset, single);
          var r, s := Tick(es, 0, t, single), Tick(fs, 0, now, single);
          SameCalls(r.0, s.0, offset, acts[1..], single);
        case Add(t, period, callback, repeatCount) =>
          AddedShifted(es, fs, offset, period, callback, repeatCount, t);
          AddedSound(es, period, callback, repeatCount, t);
          AddedSound(fs, period, callback, repeatCount, now);
          SameCalls(Added(es, period, callback, repeatCount, t), Added(fs, period, callback, repeatCount, now),
                    offset, acts[1..], single);
        case Jump(t, next) =>
          AdjustShifted(es, fs, t, offset, next);
          SameCalls(es, Adjusted(fs, now, Clock(t, next)), next, acts[1..], single);
      }
    }
  }

  // ---------- A condition on the times alone ----------

  /** The times do not decrease, from t on, and end by hi. */
  predicate InOrder(acts: seq<Action>, t: nat, hi: nat) {
    acts == [] || (t <= acts[0].t <= hi && InOrder(acts[1..], acts[0].t, hi))
  }

  /** With this offset the clock neither reaches 0 nor wraps around between lo and hi. */
  predicate OffsetOk(offset: int, lo: nat, hi: nat) {
    lo + offset >= 1 && hi + offset < U32
  }

  predicate OffsetsOk(acts: seq<Action>, lo: nat, hi: nat) {
    forall i :: 0 <= i < |acts| && acts[i].Jump? ==> OffsetOk(acts[i].offset, lo, hi)
  }

  predicate LastsIn(es: seq<Event>, lo: nat, t: nat) {
    forall i :: 0 <= i < |es| && es[i].active ==> lo <= es[i].last <= t
  }

  lemma ClockIs(t: nat, offset: int, lo: nat, hi: nat)
    requires lo <= t <= hi && OffsetOk(offset, lo, hi)
    ensures Clock(t, offset) == t + offset != 0
  {
    DivideUnique(t + offset, U32, 0, t + offset);
  }

  lemma UpdatedInRange(e: Event, now: nat, lo: nat)
    requires ValidEvent(e) && Word(now) && lo <= e.last <= now
    ensures lo <= Updated(e, now).last <= now
  {
    CaughtUpInRange(e, now);
    hide Due, CaughtUp;
  }

  lemma CaughtUpInRange(e: Event, now: nat)
    requires ValidPeriod(e.period) && Word(now) && e.last <= now
    ensures Elapsed(now, e.last) == now - e.last
    ensures CaughtUp(e, now) == e.last + ((now - e.last) / e.period) * e.period
    ensures e.last <= CaughtUp(e, now) <= now
  {
    hide Elapsed, CaughtUp;
    ElapsedInTime(now, e.last);
    var k := (now - e.last) / e.period;
    PeriodsPassed(now - e.last, e.period);
    CaughtUpBy(e, now, k);
    StaysWord(e.last, k, e.period, now);
  }

  lemma CaughtUpBy(e: Event, now: nat, k: nat)
    requires ValidPeriod(e.period) && k == Elapsed(now, e.last) / e.period
    ensures CaughtUp(e, now) == (e.last + k * e.period) % U32
  {
    hide Elapsed;
  }

  lemma ElapsedInTime(now: nat, last: nat)
    requires last <= now < U32
    ensures Elapsed(now, last) == now - last
  {
    DivideUnique(now - last, U32, 0, now - last);
  }

  lemma StaysWord(last: nat, k: nat, period: nat, now: nat)
    requires last + k * period <= now < U32
    ensures (last + k * period) % U32 == last + k * period
  {
    var step := k * period;
    DivideUnique(last + step, U32, 0, last + step);
  }

  lemma {:induction false} TickLasts(es: seq<Event>, i: nat, now: nat, single: bool, lo: nat)
    requires i <= |es| && Word(now) && AllSound(es) && LastsIn(es, lo, now)
    ensures LastsIn(Tick(es, i, now, single).0, lo, now)
    decreases |es| - i
  {
    hide Due, Updated;
    if i < |es| {
      if es[i].active {
        assert Sound(es[i]);
        UpdatedSound(es[i], now);
        UpdatedInRange(es[i], now, lo);
        TickLasts(es[i := Updated(es[i], now)], i + 1, now, single, lo);
      } else {
        TickLasts(es, i + 1, now, single, lo);
      }
    }
  }

  lemma NoneZero(es: seq<Event>, fs: seq<Event>, offset: int, lo: nat, t: nat, hi: nat)
    requires AllShifted(es, fs, offset) && LastsIn(es, lo, t) && 1 <= lo <= t <= hi && OffsetOk(offset, lo, hi)
    ensures NoZero(es) && NoZero(fs)
  {
    forall i | 0 <= i < |fs| && fs[i].active
      ensures fs[i].last != 0
    {
      assert Shifted(es[i], fs[i], offset);
      ClockIs(es[i].last, offset, lo, hi);
    }
  }

  lemma {:induction false} TimelyNeverZero(es: seq<Event>, fs: seq<Event>, offset: int, acts: seq<Action>, single: bool,
                                           lo: nat, t: nat, hi: nat)
    requires AllSound(es) && AllSound(fs) && AllShifted(es, fs, offset)
    requires forall i :: 0 <= i < |acts| ==> ValidAction(acts[i])
    requires 1 <= lo <= t <= hi && InOrder(acts, t, hi) && LastsIn(es, lo, t)
    requires OffsetOk(offset, lo, hi) && OffsetsOk(acts, lo, hi)
    ensures NeverZero(es, fs, offset, acts, single)
    decreases |acts|
  {
    hide Tick, Added, Adjusted, AllShifted, AllSound, Clock, LastsIn, NoZero;
    if acts != [] {
      assert ValidAction(acts[0]);
      NoneZero(es, fs, offset, lo, t, hi);
      ClockIs(acts[0].t, offset, lo, hi);
      var now := Clock(acts[0].t, offset);
      LastsLater(es, lo, t, acts[0].t);
      match acts[0] {
        case Update(u) =>
          TickLasts(es, 0, u, single, lo);
          ZeroFree(es, fs);
          TickShifted(es, fs, 0, u, offset, single);
          TimelyNeverZero(Tick(es, 0, u, single).0, Tick(fs, 0, now, single).0, offset, acts[1..], single, lo, u, hi);
        case Add(u, period, callback, repeatCount) =>
          AddedShifted(es, fs, offset, period, callback, repeatCount, u);
          AddedSound(es, period, callback, repeatCount, u);
          AddedSound(fs, period, callback, repeatCount, now);
          AddedLasts(es, period, callback, repeatCount, u, lo);
          TimelyNeverZero(Added(es, period, callback, repeatCount, u), Added(fs, period, callback, repeatCount, now),
                          offset, acts[1..], single, lo, u, hi);
        case Jump(u, next) =>
          assert OffsetOk(acts[0].offset, lo, hi);
          AdjustShifted(es, fs, u, offset, next);
          TimelyNeverZero(es, Adjusted(fs, now, Clock(u, next)), next, acts[1..], single, lo, u, hi);
      }
    }
  }

  lemma ZeroFree(es: seq<Event>, fs: seq<Event>)
    requires NoZero(es) && NoZero(fs)
    ensures forall j :: 0 <= j < |es| && es[j].active ==> es[j].last != 0
    ensures forall j :: 0 <= j < |fs| && fs[j].active ==> fs[j].last != 0
  {
  }

  lemma LastsLater(es: seq<Event>, lo: nat, t: nat, u: nat)
    requires LastsIn(es, lo, t) && t <= u
    ensures LastsIn(es, lo, u)
  {
  }

  lemma AddedLasts(es: seq<Event>, period: nat, callback: int, repeatCount: int, now: nat, lo: nat)
    requires LastsIn(es, lo, now) && lo <= now
    ensures LastsIn(Added(es, period, callback, repeatCount, now), lo, now)
  {
    FreeIndex(es, 0);
    hide FirstFree;
  }

  /** Setting the clock, any number of times, is not noticed: as long as adjust is told, the
      same callbacks are called in the same order as if the clock had never been set, and
      each is given the time that the set clock shows at that moment. It is
      enough that the times of the run do not decrease and that no clock that is ever set
      shows 0 or wraps around between lo, where the oldest last time lies, and hi. */
  lemma JumpsNotNoticed(es: seq<Event>, fs: seq<Event>, offset: int, acts: seq<Action>, single: bool,
                        lo: nat, t: nat, hi: nat)
    requires AllSound(es) && AllSound(fs) && AllShifted(es, fs, offset)
    requires forall i :: 0 <= i < |acts| ==> ValidAction(acts[i])
    requires 1 <= lo <= t <= hi && InOrder(acts, t, hi) && LastsIn(es, lo, t)
    requires OffsetOk(offset, lo, hi) && OffsetsOk(acts, lo, hi)
    ensures Schedule(fs, offset, acts, single, true).1 == ToldBy(es, offset, acts, single)
    ensures Names(Schedule(fs, offset, acts, single, true).1) == Names(Schedule(es, offset, acts, single, false).1)
  {
    TimelyNeverZero(es, fs, offset, acts, single, lo, t, hi);
    SameCalls(es, fs, offset, acts, single);
  }

  // ---------- Exactly when a 0 is noticed ----------

  /** An event that is due and whose last time is 0 keeps its grid of times if and only if
      now lies on it. */
  lemma ZeroKeepsGrid(e: Event, now: nat)
    requires ValidEvent(e) && Word(now) && e.last == 0 && Due(e, now)
    ensures Updated(e, now).last == CaughtUp(e, now) <==> now % e.period == 0
  {
    hide Due;
    DivideUnique(now, U32, 0, now);
    CaughtUpToNow(e, now);
  }

  /** Catching up reaches now itself if and only if a whole number of periods has passed. */
  lemma CaughtUpToNow(e: Event, now: nat)
    requires ValidEvent(e) && Word(now)
    ensures CaughtUp(e, now) == now <==> Elapsed(now, e.last) % e.period == 0
  {
    var d := Elapsed(now, e.last);
    PeriodsPassed(d, e.period);
    var step := (d / e.period) * e.period;
    assert d == step + d % e.period;
    hide Elapsed;
    Advance(now, e.last, step);
    SameTime(now, (e.last + step) % U32);
    if d % e.period != 0 {
      assert Elapsed(now, (e.last + step) % U32) != 0;
    }
  }

  lemma SameTime(a: nat, b: nat)
    requires Word(a) && Word(b)
    ensures Elapsed(a, b) == 0 <==> a == b
  {
    if a < b {
      DivideUnique(a - b, U32, -1, a - b + U32);
    } else {
      DivideUnique(a - b, U32, 0, a - b);
    }
  }

  /** One update keeps two such events apart by the offset if and only if it does nothing,
      frees them, meets 0 in both or in neither, or comes a whole number of periods after
      the last time. */
  lemma UpdateNoticed(a: Event, b: Event, now: nat, offset: int)
    requires a.active && ValidEvent(a) && ValidEvent(b) && Shifted(a, b, offset) && Word(now)
    ensures Shifted(Updated(a, now), Updated(b, Clock(now, offset)), offset)
       <==> || !Due(a, now)
            || (a.repeatCount > 0 && a.count + 1 >= a.repeatCount)
            || (a.last == 0 <==> b.last == 0)
            || Elapsed(now, a.last) % a.period == 0
  {
    DueShifted(a, b, now, offset);
    CaughtUpShifted(a, b, now, offset);
    ElapsedShifted(now, a.last, offset);
    CaughtUpToNow(a, now);
    CaughtUpToNow(b, Clock(now, offset));
    ClockInjective(CaughtUp(a, now), now, offset);
    hide Due, CaughtUp, Clock, Elapsed;
  }

  lemma ClockInjective(a: nat, b: nat, offset: int)
    requires Word(a) && Word(b)
    ensures Clock(a, offset) == Clock(b, offset) <==> a == b
  {
    WrapSum(a + offset, -offset);
    WrapSum(b + offset, -offset);
    DivideUnique(a, U32, 0, a);
    DivideUnique(b, U32, 0, b);
  }

  /** So does one clock change if and only if neither the old clock nor the last time shows
      0, or the last time is now. */
  lemma AdjustNoticed(a: Event, b: Event, t: nat, offset: int, next: int)
    requires a.active && ValidEvent(a) && ValidEvent(b) && Shifted(a, b, offset) && Word(t)
    ensures var before, now := Clock(t, offset), Clock(t, next);
            var moved := if before == 0 then ResetEvent(b, now) else AdjustEvent(b, before, now);
            Shifted(a, moved, next) <==> ((before != 0 && b.last != 0) || a.last == t)
  {
    Rebased(a.last, t, offset, next);
    ClockInjective(t, a.last, next);
    ClockInjective(t, a.last, offset);
    hide Clock;
  }

  /** Why 0 must be avoided: an event whose last time has become 0 on the set clock forgets
      its phase when it is late, and misses a call. */
  lemma ZeroLosesPhase()
    ensures var e := Event(true, 100, 60, 0, -1, 7);
            var acts := [Update(270), Update(280)];
            && AllSound([e]) && AllSound([e.(last := 0)]) && AllShifted([e], [e.(last := 0)], -100)
            && Schedule([e], -100, acts, false, false).1 == [Call(7, 270), Call(7, 280)]
            && Schedule([e.(last := 0)], -100, acts, false, true).1 == [Call(7, 170)]
  {
    var e := Event(true, 100, 60, 0, -1, 7);
    LateTwice(e);
    UpdateFirst(e, 270, [Update(280)], -100, false);
    UpdateFirst(e.(last := 220), 280, [], -100, false);
    UpdateFirst(e.(last := 0), 270, [Update(280)], -100, true);
    UpdateFirst(e.(last := 170), 280, [], -100, true);
    hide Schedule, Due, Updated;
    assert [Update(270)] + [Update(280)] == [Update(270), Update(280)] && [Update(280)] + [] == [Update(280)];
  }

  lemma LateTwice(e: Event)
    requires e == Event(true, 100, 60, 0, -1, 7)
    ensures Due(e, 270) && Updated(e, 270) == e.(last := 220) && Due(e.(last := 220), 280)
    ensures Due(e.(last := 0), 170) && Updated(e.(last := 0), 170) == e.(last := 170) && !Due(e.(last := 170), 180)
  {
    DueIff(e, 270);
    DueIff(e.(last := 220), 280);
    DueIff(e.(last := 0), 170);
    DueIff(e.(last := 170), 180);
  }

  /** A run with a single event that starts with an update. */
  lemma UpdateFirst(e: Event, t: nat, rest: seq<Action>, offset: int, jumps: bool)
    requires ValidEvent(e) && e.active && Word(t) && forall i :: 0 <= i < |rest| ==> ValidAction(rest[i])
    requires (if jumps then Clock(t, offset) else t) != 0
    ensures var now := if jumps then Clock(t, offset) else t;
            && AllSound([e]) && AllSound([Updated(e, now)])
            && (forall i :: 0 <= i < |[Update(t)] + rest| ==> ValidAction(([Update(t)] + rest)[i]))
            && Schedule([e], offset, [Update(t)] + rest, false, jumps).1
               == Calls(e, now) + Schedule([Updated(e, now)], offset, rest, false, jumps).1
  {
    var now := if jumps then Clock(t, offset) else t;
    OneEvent(e, now, false);
    UpdatedSound(e, now);
    hide Tick, Due, Updated, Elapsed, Calls, Clock;
    assert Sound(Updated(e, now));
    assert ([Update(t)] + rest)[1..] == rest;
  }

  lemma OneEvent(e: Event, now: nat, single: bool)
    requires ValidEvent(e) && e.active && Word(now)
    ensures AllSound([e]) && Tick([e], 0, now, single) == ([Updated(e, now)], Calls(e, now))
  {
    UpdatedSound(e, now);
    hide Due, Updated;
    assert Sound(e);
    assert [e][0 := Updated(e, now)] == [Updated(e, now)];
    assert Calls(e, now) + [] == Calls(e, now);
  }
}
