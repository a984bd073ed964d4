// The DIO timer of rpl_timers.c: Trickle (section 4.2 of RFC 6206) in 32-bit
// ticks, as a step function with absolute time, and the timer object itself.
module Trickle {
  import opened Bytes

  const CLOCK_SECOND: nat := 1000
  const RANDOM_MAX: nat := 65535

  function Pow2(k: nat): (r: nat) ensures r >= 1 { if k == 0 then 1 else 2 * Pow2(k - 1) }

  /** The interval length in ticks, with the product in 32 bits. */
  function Ticks(k: nat): U32 { Pow2(k) * CLOCK_SECOND % 0x1_0000_0000 / 1000 }

  /** Where in an interval of `i` ticks the DIO goes out, for a random draw `rnd`; the product wraps. */
  function Offset(i: U32, rnd: nat): nat { i / 2 + i / 2 * rnd % 0x1_0000_0000 / RANDOM_MAX }

  /** Settings of the DODAG: the exponents stay where a 32-bit shift is defined. */
  datatype Config = Config(intMin: U8, intDoubl: U8, redundancy: U8)

  predicate Sane(c: Config) { c.intMin + c.intDoubl < 32 }

  /** `due` is when the timer fires; the last five fields are the history the theorems speak of. */
  datatype Timer = Timer(cur: U8, send: bool, counter: U8, nextDelay: U32, sendOk: bool, due: nat,
                         start: nat, offset: nat, postponed: nat, interval: nat, sent: seq<nat>)

  /** `new_dio_interval` at time `now`. */
  function NewInterval(t: Timer, now: nat, rnd: nat): Timer
    requires rnd < RANDOM_MAX
  {
    var i := Ticks(t.cur);
    var at := Offset(i, rnd);
    t.(nextDelay := (i - at) % 0x1_0000_0000, send := true, counter := 0, due := now + at,
       start := now, offset := at, postponed := 0, interval := t.interval + 1)
  }

  /** `handle_dio_timer`, which runs when the timer is due. */
  function Fire(c: Config, t: Timer, linkLocal: bool, rnd: nat): Timer
    requires rnd < RANDOM_MAX
  {
    if !t.sendOk && !linkLocal then t.(due := t.due + CLOCK_SECOND, postponed := t.postponed + 1)
    else
      var t1 := t.(sendOk := true);
      if t.send then
        t1.(sent := if t.counter < c.redundancy then t.sent + [t.interval] else t.sent,
            send := false, due := t.due + t.nextDelay)
      else
        NewInterval(if t.cur < c.intMin + c.intDoubl then t1.(cur := (t.cur + 1) % 0x100) else t1, t.due, rnd)
  }

  /** `rpl_reset_dio_timer` at time `now`. */
  function Reset(c: Config, t: Timer, force: bool, now: nat, rnd: nat): Timer
    requires rnd < RANDOM_MAX
  {
    if force || t.cur > c.intMin then NewInterval(t.(counter := 0, cur := c.intMin), now, rnd) else t
  }

  // ------------------------------------------------------------------ arithmetic

  lemma {:induction false} Pow2Steps(k: nat)
    ensures Pow2(k + 8) == 256 * Pow2(k)
  {
    assert Pow2(k + 8) == 2 * Pow2(k + 7) == 4 * Pow2(k + 6) == 8 * Pow2(k + 5) == 16 * Pow2(k + 4);
    assert Pow2(k + 4) == 2 * Pow2(k + 3) == 4 * Pow2(k + 2) == 8 * Pow2(k + 1) == 16 * Pow2(k);
  }

  lemma {:induction false} Pow2Grows(j: nat, k: nat)
    requires j <= k
    ensures Pow2(j) <= Pow2(k)
  {
    if j < k { Pow2Grows(j, k - 1); }
  }

  /** An interval is the power of two it is meant to be exactly up to exponent 22. */
  lemma TicksExact(k: nat)
    requires k < 32
    ensures Ticks(k) == Pow2(k) <==> k <= 22
  {
    Pow2Values();
    hide Pow2;
    if k <= 22 { Pow2Grows(k, 22); } else { Pow2Grows(23, k); }
    InMilliseconds(Pow2(k));
  }

  /** The first interval that wraps is shorter than the one it should double. */
  lemma FirstWrap()
    ensures Ticks(23) == 4093640 < Ticks(22) == 4194304
  {
    Pow2Values();
    hide Pow2;
  }

  /** From exponent 29 on nothing is left of the product, and an interval is over at once. */
  lemma {:induction false} NoInterval(k: nat)
    requires k >= 29
    ensures Pow2(k) * 1000 % 4294967296 == 0 && Ticks(k) == 0
    decreases k
  {
    if k == 29 {
      Pow2Values();
      assert Pow2(26) == 2 * Pow2(25) == 4 * Pow2(24) == 8 * Pow2(23);
      assert Pow2(29) == 2 * Pow2(28) == 4 * Pow2(27) == 8 * Pow2(26);
    } else {
      NoInterval(k - 1);
      StillNothing(Pow2(k - 1) * 1000);
    }
  }

  lemma StillNothing(x: nat)
    requires x % 4294967296 == 0
    ensures 2 * x % 4294967296 == 0
  {}

  lemma Pow2Values()
    ensures Pow2(22) == 4194304 && Pow2(23) == 8388608
  {
    Pow2Steps(0);
    Pow2Steps(8);
    assert Pow2(8) == 256 && Pow2(16) == 65536;
    assert Pow2(19) == 2 * Pow2(18) == 4 * Pow2(17) == 8 * Pow2(16);
    assert Pow2(22) == 2 * Pow2(21) == 4 * Pow2(20) == 8 * Pow2(19);
    assert Pow2(23) == 2 * Pow2(22);
  }

  lemma InMilliseconds(x: nat)
    ensures x <= 4294967 <==> x * CLOCK_SECOND % 0x1_0000_0000 / 1000 == x
  {}

  /** Whatever the draw, wrapped product or not, the DIO goes out in the second half of the interval. */
  lemma OffsetInSecondHalf(i: U32, rnd: nat)
    requires rnd < RANDOM_MAX
    ensures i / 2 <= Offset(i, rnd) <= i
  {
    var h := i / 2;
    var x := h * rnd;
    assert x % 0x1_0000_0000 <= x;
    assert x <= h * RANDOM_MAX;
    DivBound(x % 0x1_0000_0000, h, RANDOM_MAX);
  }

  /** The draw's share of half the interval is what is added, unless the product passes 32 bits; then it is less. */
  lemma OffsetExact(i: U32, rnd: nat)
    requires rnd < 65535
    ensures Offset(i, rnd) <= i / 2 + i / 2 * rnd / 65535
    ensures Offset(i, rnd) == i / 2 + i / 2 * rnd / 65535 <==> i / 2 * rnd < 4294967296
  {
    WrappedQuotient(i / 2 * rnd);
  }

  lemma WrappedQuotient(x: nat)
    ensures x % 4294967296 / 65535 <= x / 65535
    ensures x % 4294967296 / 65535 == x / 65535 <==> x < 4294967296
  {
    if x >= 4294967296 {
      var y := x % 4294967296;
      assert y + 4294967296 <= x;
      Apart(y, x);
    }
  }

  lemma Apart(y: nat, x: nat)
    requires y + 65535 <= x
    ensures y / 65535 < x / 65535
  {}

  lemma DivBound(x: nat, h: nat, m: nat)
    requires m > 0 && x <= h * m
    ensures x / m <= h
  {
    var q := x / m;
    assert q * m <= x;
    assert (h - q) * m >= 0;
  }

  // ------------------------------------------------------------------ invariants

  predicate Increasing(s: seq<nat>) { forall i, j :: 0 <= i < j < |s| ==> s[i] < s[j] }

  /** The exponent in its range; the timer where the interval says; at most one DIO per interval, and
      none yet in one whose DIO is still to come. */
  predicate Inv(c: Config, t: Timer) {
    && c.intMin <= t.cur <= c.intMin + c.intDoubl
    && Ticks(t.cur) / 2 <= t.offset <= Ticks(t.cur) && t.offset + t.nextDelay == Ticks(t.cur)
    && t.due == t.start + (if t.send then t.offset else Ticks(t.cur)) + CLOCK_SECOND * t.postponed
    && Increasing(t.sent)
    && (forall k :: 0 <= k < |t.sent| ==> if t.send then t.sent[k] < t.interval else t.sent[k] <= t.interval)
  }

  lemma NewIntervalInv(c: Config, t: Timer, now: nat, rnd: nat)
    requires rnd < RANDOM_MAX && c.intMin <= t.cur <= c.intMin + c.intDoubl && Increasing(t.sent)
    requires forall k :: 0 <= k < |t.sent| ==> t.sent[k] <= t.interval
    ensures Inv(c, NewInterval(t, now, rnd))
  {
    OffsetInSecondHalf(Ticks(t.cur), rnd);
    hide Ticks, Offset;
  }

  lemma ResetInv(c: Config, t: Timer, force: bool, now: nat, rnd: nat)
    requires Sane(c) && rnd < RANDOM_MAX && (force || Inv(c, t)) && Increasing(t.sent)
    requires forall k :: 0 <= k < |t.sent| ==> t.sent[k] <= t.interval
    ensures Inv(c, Reset(c, t, force, now, rnd)) && (force ==> Reset(c, t, force, now, rnd).cur == c.intMin)
  {
    NewIntervalInv(c, t.(counter := 0, cur := c.intMin), now, rnd);
  }

  /** One firing: a DIO goes out only while the counter is below the redundancy constant, at most one
      an interval; and the next interval starts exactly where this one ends. */
  lemma FireInv(c: Config, t: Timer, linkLocal: bool, rnd: nat)
    requires Sane(c) && rnd < RANDOM_MAX && Inv(c, t)
    ensures var r := Fire(c, t, linkLocal, rnd);
            && Inv(c, r)
            && (r.sent != t.sent ==> r.sent == t.sent + [t.interval] && t.send && t.counter < c.redundancy)
            && (r.interval != t.interval ==>
                  r.start == t.start + Ticks(t.cur) + CLOCK_SECOND * t.postponed
                  && r.cur == if t.cur < c.intMin + c.intDoubl then t.cur + 1 else t.cur)
  {
    hide Ticks, Offset;
    if (t.sendOk || linkLocal) && !t.send {
      var t1 := t.(sendOk := true);
      NewIntervalInv(c, if t.cur < c.intMin + c.intDoubl then t1.(cur := (t.cur + 1) % 0x100) else t1, t.due, rnd);
    }
  }

  datatype Event =
    | Fired(linkLocal: bool, fireRnd: nat)
    | ResetTimer(force: bool, at: nat, resetRnd: nat)
    | ConsistentDio

  predicate Drawn(e: Event) {
    match e
    case Fired(_, rnd) => rnd < RANDOM_MAX
    case ResetTimer(_, _, rnd) => rnd < RANDOM_MAX
    case ConsistentDio => true
  }

  function Step(c: Config, t: Timer, e: Event): Timer
    requires Drawn(e)
  {
    match e
    case Fired(linkLocal, rnd) => Fire(c, t, linkLocal, rnd)
    case ResetTimer(force, at, rnd) => Reset(c, t, force, at, rnd)
    case ConsistentDio => t.(counter := (t.counter + 1) % 0x100)
  }

  function Run(c: Config, t: Timer, events: seq<Event>): Timer
    requires forall e <- events :: Drawn(e)
    decreases |events|
  {
    if events == [] then t else Run(c, Step(c, t, events[0]), events[1..])
  }

  /** All of it over every run that begins with a forced reset, as joining a DODAG does. */
  lemma RunInv(c: Config, t: Timer, now: nat, rnd: nat, events: seq<Event>)
    requires Sane(c) && rnd < RANDOM_MAX && t.sent == [] && forall e <- events :: Drawn(e)
    ensures Inv(c, Run(c, Reset(c, t, true, now, rnd), events))
  {
    ResetInv(c, t, true, now, rnd);
    RunKeepsInv(c, Reset(c, t, true, now, rnd), events);
  }

  lemma {:induction false} RunKeepsInv(c: Config, t: Timer, events: seq<Event>)
    requires Sane(c) && Inv(c, t) && forall e <- events :: Drawn(e)
    ensures Inv(c, Run(c, t, events))
    decreases |events|
  {
    if events != [] {
      assert Drawn(events[0]);
      match events[0] {
        case Fired(linkLocal, rnd) => FireInv(c, t, linkLocal, rnd);
        case ResetTimer(force, at, rnd) => ResetInv(c, t, force, at, rnd);
        case ConsistentDio =>
      }
      RunKeepsInv(c, Step(c, t, events[0]), events[1..]);
    }
  }

  // ---------------------------------------------------------------- one interval

  /** An interval that begins at `now`: nothing heard yet, the DIO due in its second half, the rest of it behind. */
  ghost predicate Begins(t: Timer, r: Timer, cur: nat, now: nat, rnd: nat) {
    && r.cur == cur && r.counter == 0 && r.send && r.start == now && r.interval == t.interval + 1 && r.postponed == 0
    && r.offset == Offset(Ticks(cur), rnd) && r.due == now + r.offset && r.nextDelay == Ticks(cur) - r.offset
  }

  lemma NewIntervalExact(t: Timer, now: nat, rnd: nat)
    requires rnd < 65535
    ensures Begins(t, NewInterval(t, now, rnd), t.cur, now, rnd)
    ensures NewInterval(t, now, rnd).sent == t.sent && NewInterval(t, now, rnd).sendOk == t.sendOk
  {
    OffsetInSecondHalf(Ticks(t.cur), rnd);
    hide Ticks, Offset;
  }

  /** A reset starts the shortest interval at once, unless it is running already and none is forced. */
  lemma ResetExact(c: Config, t: Timer, force: bool, now: nat, rnd: nat)
    requires rnd < 65535
    ensures !force && t.cur <= c.intMin ==> Reset(c, t, force, now, rnd) == t
    ensures force || t.cur > c.intMin ==>
              var r := Reset(c, t, force, now, rnd); Begins(t, r, c.intMin, now, rnd) && r.sent == t.sent && r.sendOk == t.sendOk
  {
    NewIntervalExact(t.(counter := 0, cur := c.intMin), now, rnd);
    hide NewInterval;
  }

  /** Until there is a link-local address the timer just comes back every 1000 ticks. */
  lemma Waits(c: Config, t: Timer, rnd: nat)
    requires rnd < 65535 && !t.sendOk
    ensures Fire(c, t, false, rnd) == t.(due := t.due + 1000, postponed := t.postponed + 1)
  {}

  /** Once there was one it is as if there always had been. */
  lemma Ready(c: Config, t: Timer, linkLocal: bool, rnd: nat)
    requires rnd < 65535
    ensures Fire(c, t, true, rnd) == Fire(c, t.(sendOk := true), linkLocal, rnd) && Fire(c, t, true, rnd).sendOk
  {}

  function Consistent(n: nat): (r: seq<Event>)
    ensures |r| == n && forall e <- r :: e == ConsistentDio
    decreases n
  {
    if n == 0 then [] else [ConsistentDio] + Consistent(n - 1)
  }

  lemma {:induction false} HeardTimes(c: Config, t: Timer, n: nat)
    ensures (forall e <- Consistent(n) :: Drawn(e)) && Run(c, t, Consistent(n)) == t.(counter := (t.counter + n) % 256)
    decreases n
  {
    if n > 0 {
      HeardTimes(c, t.(counter := (t.counter + 1) % 256), n - 1);
      assert Consistent(n)[1..] == Consistent(n - 1);
      CountMod(t.counter, n);
    }
  }

  lemma CountMod(x: nat, n: nat)
    requires n > 0
    ensures ((x + 1) % 256 + (n - 1)) % 256 == (x + n) % 256
  {}

  lemma {:induction false} RunConcat(c: Config, t: Timer, a: seq<Event>, b: seq<Event>)
    requires forall e <- a + b :: Drawn(e)
    ensures (forall e <- a :: Drawn(e)) && (forall e <- b :: Drawn(e)) && Run(c, t, a + b) == Run(c, Run(c, t, a), b)
    decreases |a|
  {
    hide Step, Drawn;
    forall e | e in a ensures Drawn(e) { assert e in a + b; }
    forall e | e in b ensures Drawn(e) { assert e in a + b; }
    if a == [] {
      assert a + b == b;
    } else {
      assert (a + b)[0] == a[0] && (a + b)[1..] == a[1..] + b;
      RunConcat(c, Step(c, t, a[0]), a[1..], b);
    }
  }

  /** Up to the node's own DIO. */
  lemma FirstHalf(c: Config, t: Timer, n: nat, a: bool)
    requires t.sendOk && t.send && t.counter == 0
    ensures var events := Consistent(n) + [Fired(a, 0)];
            && (forall e <- events :: Drawn(e))
            && Run(c, t, events)
               == t.(counter := n % 256, send := false, due := t.due + t.nextDelay,
                     sent := if n % 256 < c.redundancy then t.sent + [t.interval] else t.sent)
  {
    hide Run, NewInterval;
    HeardTimes(c, t, n);
    OneEvent(c, t.(counter := n % 256), Fired(a, 0));
    RunConcat(c, t, Consistent(n), [Fired(a, 0)]);
  }

  /** And from there to the next interval. */
  lemma SecondHalf(c: Config, t: Timer, m: nat, b: bool, rnd: nat)
    requires t.sendOk && !t.send && rnd < 65535 && t.cur <= c.intMin + c.intDoubl < 32
    ensures var events := Consistent(m) + [Fired(b, rnd)];
            && (forall e <- events :: Drawn(e))
            && var r := Run(c, t, events);
            r.sent == t.sent && Begins(t, r, if t.cur == c.intMin + c.intDoubl then t.cur else t.cur + 1, t.due, rnd)
  {
    hide Run, NewInterval, Begins;
    HeardTimes(c, t, m);
    var u := t.(counter := (t.counter + m) % 256);
    OneEvent(c, u, Fired(b, rnd));
    RunConcat(c, t, Consistent(m), [Fired(b, rnd)]);
    var v := if u.cur < c.intMin + c.intDoubl then u.(cur := (u.cur + 1) % 0x100) else u;
    NewIntervalExact(v, u.due, rnd);
    BeginsAlike(v, t, NewInterval(v, u.due, rnd), v.cur, u.due, rnd);
  }

  /** The events of one interval: `n` consistent DIOs, the timer, `m` consistent DIOs, the timer. */
  function Interval(n: nat, a: bool, m: nat, b: bool, rnd: nat): (r: seq<Event>)
    requires rnd < 65535
    ensures forall e <- r :: Drawn(e)
  {
    (Consistent(n) + [Fired(a, 0)]) + (Consistent(m) + [Fired(b, rnd)])
  }

  /** One whole interval of Trickle: after `n` consistent DIOs the node sends its own if and only if `n`, in the 8 bits that
      are kept of it, is less than the redundancy constant; what it hears afterwards does not matter; and the next
      interval, twice as long up to the limit, begins where this one ends. */
  lemma OneInterval(c: Config, t: Timer, n: nat, m: nat, a: bool, b: bool, rnd: nat)
    requires Sane(c) && rnd < 65535 && t.sendOk && t.send && t.counter == 0 && Inv(c, t) && t.postponed == 0
    ensures var r := Run(c, t, Interval(n, a, m, b, rnd));
            && r.sent == (if n % 256 < c.redundancy then t.sent + [t.interval] else t.sent)
            && Begins(t, r, if t.cur == c.intMin + c.intDoubl then t.cur else t.cur + 1, t.start + Ticks(t.cur), rnd)
  {
    DueAfter(c, t);
    hide Run, Begins, Inv, Ticks, Drawn, Consistent;
    var y := Consistent(m) + [Fired(b, rnd)];
    var u := t.(counter := n % 256, send := false, due := t.start + Ticks(t.cur),
                sent := if n % 256 < c.redundancy then t.sent + [t.interval] else t.sent);
    SecondHalf(c, u, m, b, rnd);
    HalvesJoined(c, t, n, a, y, u);
    BeginsAlike(u, t, Run(c, u, y), if t.cur == c.intMin + c.intDoubl then t.cur else t.cur + 1, u.due, rnd);
  }

  lemma HalvesJoined(c: Config, t: Timer, n: nat, a: bool, y: seq<Event>, u: Timer)
    requires t.sendOk && t.send && t.counter == 0 && forall e <- y :: Drawn(e)
    requires u == t.(counter := n % 256, send := false, due := t.due + t.nextDelay,
                     sent := if n % 256 < c.redundancy then t.sent + [t.interval] else t.sent)
    ensures var x := Consistent(n) + [Fired(a, 0)];
            (forall e <- x + y :: Drawn(e)) && Run(c, t, x + y) == Run(c, u, y)
  {
    hide Run, Drawn, Consistent;
    FirstHalf(c, t, n, a);
    AllDrawn(Consistent(n) + [Fired(a, 0)], y);
    RunConcat(c, t, Consistent(n) + [Fired(a, 0)], y);
  }

  lemma AllDrawn(x: seq<Event>, y: seq<Event>)
    requires (forall e <- x :: Drawn(e)) && forall e <- y :: Drawn(e)
    ensures forall e <- x + y :: Drawn(e)
  {
    hide Drawn;
    forall e | e in x + y ensures Drawn(e) { assert e in x || e in y; }
  }

  lemma OneEvent(c: Config, t: Timer, e: Event)
    requires Drawn(e)
    ensures Run(c, t, [e]) == Step(c, t, e)
  {
    hide Step;
    assert [e][1..] == [];
  }

  lemma DueAfter(c: Config, t: Timer)
    requires Inv(c, t) && t.send && t.postponed == 0
    ensures t.due + t.nextDelay == t.start + Ticks(t.cur) && c.intMin <= t.cur <= c.intMin + c.intDoubl
  {
    hide Ticks;
  }

  lemma BeginsAlike(a: Timer, b: Timer, r: Timer, cur: nat, now: nat, rnd: nat)
    requires Begins(a, r, cur, now, rnd) && a.interval == b.interval
    ensures Begins(b, r, cur, now, rnd)
  {}

  // ------------------------------------------------------------------- the timer

  /** The timer fields of `rpl_dag_t`, updated in place; the history is ghost. */
  class DioTimer {
    const config: Config
    var cur: U8
    var send: bool
    var counter: U8
    var nextDelay: U32
    var sendOk: bool
    var due: nat
    var dios: nat                  // DIOs handed to dio_output
    ghost var history: Timer

    ghost predicate Valid()
      reads this
    {
      && history.cur == cur && history.send == send && history.counter == counter && history.nextDelay == nextDelay
      && history.sendOk == sendOk && history.due == due && dios == |history.sent| && Sane(config)
    }

    constructor (config: Config)
      requires Sane(config)
      ensures Valid() && this.config == config && history.sent == []
    {
      this.config := config;
      cur, send, counter, nextDelay, sendOk, due, dios := 0, false, 0, 0, false, 0, 0;
      history := Timer(0, false, 0, 0, false, 0, 0, 0, 0, 0, []);
    }

    method IntervalTicks() returns (time: U32)
      ensures time == Ticks(cur)
    {
      time := Pow2(cur) * CLOCK_SECOND % 0x1_0000_0000;
      time := time / 1000;
    }

    method DrawOffset(i: U32, rnd: nat) returns (time: nat)
      requires rnd < RANDOM_MAX
      ensures time == Offset(i, rnd) && i / 2 <= time <= i
    {
      OffsetInSecondHalf(i, rnd);
      time := i / 2;
      time := time + time * rnd % 0x1_0000_0000 / RANDOM_MAX;
    }

    /** `new_dio_interval`. */
    method StartInterval(now: nat, rnd: nat)
      requires Valid() && cur < 32 && rnd < RANDOM_MAX
      modifies this
      ensures Valid() && history == NewInterval(old(history), now, rnd)
    {
      hide Offset, Ticks;
      var time: nat := IntervalTicks();
      nextDelay := time;
      time := DrawOffset(time, rnd);
      nextDelay := nextDelay - time;
      send := true;
      counter := 0;
      due := now + time;
      history := NewInterval(history, now, rnd);
    }

    /** `handle_dio_timer`. */
    method Handle(linkLocal: bool, rnd: nat)
      requires Valid() && Inv(config, history) && rnd < RANDOM_MAX
      modifies this
      ensures Valid() && Inv(config, history) && history == Fire(config, old(history), linkLocal, rnd)
    {
      FireInv(config, history, linkLocal, rnd);
      ghost var before := history;
      if !sendOk {
        if linkLocal {
          sendOk := true;
          history := history.(sendOk := true);
        } else {
          due := due + CLOCK_SECOND;
          history := Fire(config, before, linkLocal, rnd);
          return;
        }
      }
      if send {
        if counter < config.redundancy { dios := dios + 1; }
        send := false;
        due := due + nextDelay;
        history := Fire(config, before, linkLocal, rnd);
      } else {
        if cur < config.intMin + config.intDoubl {
          cur := cur + 1;
          history := history.(cur := cur);
        }
        StartInterval(due, rnd);
      }
    }

    /** `rpl_reset_dio_timer`. */
    method ResetTo(force: bool, now: nat, rnd: nat)
      requires Valid() && rnd < RANDOM_MAX && (force || Inv(config, history)) && Increasing(history.sent)
      requires forall k :: 0 <= k < |history.sent| ==> history.sent[k] <= history.interval
      modifies this
      ensures Valid() && Inv(config, history) && history == Reset(config, old(history), force, now, rnd)
    {
      ResetInv(config, history, force, now, rnd);
      if force || cur > config.intMin {
        counter := 0;
        cur := config.intMin;
        history := history.(counter := 0, cur := config.intMin);
        StartInterval(now, rnd);
      }
    }
  }
}
