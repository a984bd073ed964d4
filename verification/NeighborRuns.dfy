// What the neighbour cache does over whole runs and whole passes: when a silent
// neighbour is given up, whose solicitation is sent, which entry has to make
// room, and which neighbour is taken for a router.
module NeighborRuns {
  import opened Bytes
  import opened Ds6List
  import opened Neighbors

  // -------------------------------------------------------- giving a neighbour up

  /** An entry after periodic passes at which the timer it waits for was due as listed. */
  function Passes(e: Entry, dues: seq<bool>): Entry
    decreases |dues|
  {
    if dues == [] then e else Passes(Tick(e, dues[0]), dues[1..])
  }

  /** The solicitations counted meanwhile. */
  function Solicitations(e: Entry, dues: seq<bool>): nat
    decreases |dues|
  {
    if dues == [] then 0
    else (if Solicits(e, dues[0]) then 1 else 0) + Solicitations(Tick(e, dues[0]), dues[1..])
  }

  /** The passes at which the timer was due. */
  function Dues(dues: seq<bool>): nat
    decreases |dues|
  {
    if dues == [] then 0 else (if dues[0] then 1 else 0) + Dues(dues[1..])
  }

  /** How many more solicitations an entry that is resolved or probed may have. */
  function Left(e: Entry): nat {
    if e.state == Delay then MAX_UNICAST_SOLICIT
    else if e.nscount >= MAX_UNICAST_SOLICIT then 0 else MAX_UNICAST_SOLICIT - e.nscount
  }

  /** A neighbour that does not answer is given up, whatever the schedule of passes and timers: its entry is
      there exactly as long as the last solicitation it may have was not counted before the last pass. So it
      goes at the first pass after that solicitation, whether its timer is due then or not. */
  lemma {:induction false} GivenUp(e: Entry, dues: seq<bool>)
    requires e.used && e.state in {Incomplete, Delay, Probe}
    ensures Passes(e, dues).used <==> dues == [] || Dues(dues[..|dues| - 1]) < Left(e)
    ensures Solicitations(e, dues) == if Dues(dues) < Left(e) then Dues(dues) else Left(e)
    decreases |dues|
  {
    if dues != [] {
      var t := Tick(e, dues[0]);
      if t.used {
        GivenUp(t, dues[1..]);
        if |dues| > 1 {
          assert dues[1..][..|dues| - 2] == dues[..|dues| - 1][1..];
        } else {
          assert dues[..0] == [];
        }
      } else {
        Gone(t, dues[1..]);
      }
    }
  }

  lemma {:induction false} Gone(e: Entry, dues: seq<bool>)
    requires !e.used
    ensures !Passes(e, dues).used && Solicitations(e, dues) == 0
    decreases |dues|
  {
    if dues != [] { Gone(Tick(e, dues[0]), dues[1..]); }
  }

  /** The last solicitation has until the next pass to be answered, a tenth of a second later, not for the
      retransmission time that the ones before it have. */
  lemma LastGetsOnePass(e: Entry, dues: seq<bool>, next: bool)
    requires e.used && e.state in {Incomplete, Delay, Probe}
    requires Dues(dues) + 1 == Left(e)
    ensures Solicitations(e, dues + [true]) == Left(e)
    ensures Passes(e, dues + [true]).used && !Passes(e, dues + [true] + [next]).used
  {
    DuesOneMore(dues, true);
    GivenUp(e, dues + [true]);
    GivenUp(e, dues + [true] + [next]);
    assert (dues + [true])[..|dues|] == dues;
    assert (dues + [true] + [next])[..|dues| + 1] == dues + [true];
  }

  lemma {:induction false} DuesOneMore(dues: seq<bool>, next: bool)
    ensures Dues(dues + [next]) == Dues(dues) + if next then 1 else 0
    decreases |dues|
  {
    if dues == [] {
      assert [next][1..] == [];
    } else {
      DuesOneMore(dues[1..], next);
      assert (dues + [next])[1..] == dues[1..] + [next];
    }
  }

  // ------------------------------------------------------ whose solicitation is sent

  /** A solicited entry as the pass leaves it, the solicitation counted. */
  function Counted(e: Entry): Entry {
    if e.state == Delay then e.(state := Probe, nscount := 1) else e.(nscount := e.nscount + 1)
  }

  lemma SolicitedIsCounted(e: Entry, due: bool)
    requires Solicits(e, due)
    ensures e.used && Tick(e, due) == Counted(e)
  {}

  lemma LastIsLast(c: Cache, due: set<nat>, i: nat)
    requires i < |c| && Solicits(c[i], i in due)
    ensures LastSolicited(c, due, |c|).Some? && i <= LastSolicited(c, due, |c|).value
    ensures LastSolicited(c, due, |c|) == Some(i) <==> forall j :: i < j < |c| ==> !Solicits(c[j], j in due)
  {
    hide Solicits;
    var last := LastSolicited(c, due, |c|).value;
    assert Solicits(c[last], last in due);
  }

  lemma OthersDiffer(n: Net, i: nat, j: nat)
    requires Inv(n) && i < j < |n.cache| && n.cache[i].used && n.cache[j].used
    ensures Solicitation(n.cache[i]) != Solicitation(n.cache[j])
  {}

  /** Every solicitation of a pass is counted, but an entry's own is sent if and only if no entry further on
      in the table is solicited in the same pass. */
  lemma SentExact(n: Net, due: set<nat>, i: nat)
    requires Inv(n) && i < |n.cache| && Solicits(n.cache[i], i in due)
    ensures var (r, f) := Pass(n, due);
            && |r.cache| == |n.cache| && r.cache[i] == Counted(n.cache[i])
            && (f == Solicitation(n.cache[i]) <==> forall j :: i < j < |n.cache| ==> !Solicits(n.cache[j], j in due))
  {
    hide Solicits, Tick, Inv, Solicitation, Counted, Periodic;
    SolicitedIsCounted(n.cache[i], i in due);
    LastIsLast(n.cache, due, i);
    var last := LastSolicited(n.cache, due, |n.cache|).value;
    if last != i {
      SolicitedIsCounted(n.cache[last], last in due);
      OthersDiffer(n, i, last);
    }
  }

  /** Nothing else is sent by a pass. */
  lemma SentIsCounted(n: Net, due: set<nat>)
    ensures var f := Pass(n, due).1;
            f != NoFrame ==>
              exists i :: 0 <= i < |n.cache| && Solicits(n.cache[i], i in due) && f == Solicitation(n.cache[i])
  {
    var last := LastSolicited(n.cache, due, |n.cache|);
    if last.Some? { assert Solicits(n.cache[last.value], last.value in due); }
  }

  /** Two neighbours resolved at the same time, their timers due together: the second is solicited twice
      more, the first never again, and both are given up. */
  lemma NeverAskedAgain(a: Ip, b: Ip)
    requires a != b
    ensures var e := Entry(true, a, NO_LL, 1, false, Incomplete, 1);
            var n := Net([e, e.(ip := b)], None, {});
            var r := Run(n, [Timer({0, 1}), Timer({0, 1}), Timer({})]);
            && Inv(n) && r.1 == [Broadcast(b), Broadcast(b), NoFrame]
            && !r.0.cache[0].used && !r.0.cache[1].used
  {
    var e := Entry(true, a, NO_LL, 1, false, Incomplete, 1);
    var n := Net([e, e.(ip := b)], None, {});
    var due: set<nat> := {0, 1};
    var n1 := PassOfTwo(n, due);
    var n2 := PassOfTwo(n1, due);
    var n3 := PassOfTwo(n2, {});
    RunOfThree(n, Timer(due), Timer(due), Timer({}));
  }

  /** A pass over two incomplete entries. */
  lemma PassOfTwo(n: Net, due: set<nat>) returns (r: Net)
    requires |n.cache| == 2
    ensures r == Pass(n, due).0 && r == n.(cache := [Tick(n.cache[0], 0 in due), Tick(n.cache[1], 1 in due)])
    ensures Solicits(n.cache[1], 1 in due) ==> Pass(n, due).1 == Solicitation(n.cache[1])
    ensures !Solicits(n.cache[0], 0 in due) && !Solicits(n.cache[1], 1 in due) ==> Pass(n, due).1 == NoFrame
  {
    hide Tick, Solicits, Solicitation;
    r := Pass(n, due).0;
    assert r.cache == [Tick(n.cache[0], 0 in due), Tick(n.cache[1], 1 in due)];
  }

  lemma RunStep(n: Net, x: Event, rest: seq<Event>)
    ensures var (m, f) := Step(n, x);
            var (r, fs) := Run(m, rest);
            Run(n, [x] + rest) == (r, [f] + fs)
  {
    hide Step;
    assert ([x] + rest)[1..] == rest;
  }

  lemma RunOfThree(n: Net, x: Event, y: Event, z: Event)
    ensures var (n1, f1) := Step(n, x);
            var (n2, f2) := Step(n1, y);
            var (n3, f3) := Step(n2, z);
            Run(n, [x, y, z]) == (n3, [f1, f2, f3])
  {
    hide Step;
    var (n1, f1) := Step(n, x);
    var (n2, f2) := Step(n1, y);
    var (n3, f3) := Step(n2, z);
    assert Run(n3, []) == (n3, []);
    assert [f3] + [] == [f3] && [f2] + [f3] == [f2, f3] && [f1] + [f2, f3] == [f1, f2, f3];
    RunStep(n2, z, []);
    RunStep(n1, y, [z]);
    RunStep(n, x, [y, z]);
    assert [z] == [z] + [] && [y, z] == [y] + [z] && [x, y, z] == [x] + [y, z];
  }

  // ---------------------------------------------------- which entry has to make room

  predicate SameRow(x: Entry, y: Entry) { y.used == x.used && y.ip == x.ip && y.lastLookup == x.lastLookup }

  predicate SameRows(c: Cache, d: Cache) {
    |d| == |c| && forall i :: 0 <= i < |c| ==> SameRow(c[i], d[i])
  }

  /** No entry was added before entry `i`. */
  predicate AddedFirst(c: Cache, i: nat)
    requires i < |c|
  {
    forall j :: 0 <= j < |c| && c[j].used ==> c[i].lastLookup <= c[j].lastLookup
  }

  /** An entry for `ip` was added at `at`, in place of the one added first if there was any. */
  predicate Inserted(c: Cache, d: Cache, at: nat, ip: Ip, now: nat) {
    && |d| == |c| && at < |c|
    && d[at].used && d[at].ip == ip && d[at].lastLookup == now && (c[at].used ==> AddedFirst(c, at))
    && forall i :: 0 <= i < |c| && i != at ==> SameRow(c[i], d[i])
  }

  /** What a message from `ip` may do to the rows of the table. */
  predicate Touches(c: Cache, d: Cache, ip: Ip, now: nat) {
    SameRows(c, d) || (Lookup(c, ip).None? && exists at: nat :: at < |c| && Inserted(c, d, at, ip, now))
  }

  lemma AddTouches(c: Cache, ip: Ip, ll: Ll, isrouter: bool, state: NudState, now: nat)
    requires Lookup(c, ip).None?
    ensures Touches(c, Add(c, ip, ll, isrouter, state, now).0, ip, now)
  {
    AddExact(c, ip, ll, isrouter, state, now);
    hide Add;
    var (r, at) := Add(c, ip, ll, isrouter, state, now);
    if at.Some? { assert Inserted(c, r, at.value, ip, now); }
  }

  lemma SameFound(c: Cache, d: Cache, ip: Ip)
    requires SameRows(c, d)
    ensures Lookup(d, ip).Some? <==> Lookup(c, ip).Some?
  {
    var x, y := Lookup(c, ip), Lookup(d, ip);
    if x.Some? { assert SameRow(c[x.value], d[x.value]); }
    if y.Some? { assert SameRow(c[y.value], d[y.value]); }
  }

  /** One address can be added once. */
  lemma TouchesTwice(c: Cache, d: Cache, e: Cache, ip: Ip, now: nat)
    requires Touches(c, d, ip, now) && Touches(d, e, ip, now)
    ensures Touches(c, e, ip, now)
  {
    hide AddedFirst;
    if SameRows(c, d) {
      SameFound(c, d, ip);
      if !SameRows(d, e) {
        var at: nat :| at < |d| && Inserted(d, e, at, ip, now);
        SameFirst(c, d, at);
        assert Inserted(c, e, at, ip, now);
      }
    } else {
      var at: nat :| at < |c| && Inserted(c, d, at, ip, now);
      assert d[at].ip == ip;
      assert Lookup(d, ip).Some?;
      assert Inserted(c, e, at, ip, now);
    }
  }

  lemma SameFirst(c: Cache, d: Cache, at: nat)
    requires SameRows(c, d) && at < |c|
    ensures AddedFirst(d, at) ==> AddedFirst(c, at)
  {
    if AddedFirst(d, at) {
      forall j | 0 <= j < |c| && c[j].used ensures c[at].lastLookup <= c[j].lastLookup {
        assert SameRow(c[j], d[j]) && SameRow(c[at], d[at]);
      }
    }
  }

  lemma NsOptionTouches(n: Net, src: Ip, ll: Ll, now: nat)
    ensures Touches(n.cache, NsOption(n, src, ll, now).cache, src, now)
  {
    if Lookup(n.cache, src).None? { AddTouches(n.cache, src, ll, false, Stale, now); }
    hide Add;
  }

  lemma RaOptionTouches(n: Net, src: Ip, ll: Ll, now: nat)
    ensures Touches(n.cache, RaOption(n, src, ll, now).cache, src, now)
  {
    if Lookup(n.cache, src).None? { AddTouches(n.cache, src, ll, true, Stale, now); }
    hide Add;
  }

  lemma {:induction false} NsTouches(n: Net, src: Ip, opts: seq<Opt>, now: nat)
    ensures Touches(n.cache, NsInput(n, Some(src), opts, now).cache, src, now)
    decreases |opts|
  {
    hide NsOption, Touches;
    if opts == [] || opts[0] == Malformed {
      Untouched(n.cache, src, now);
    } else if opts[0].Lladdr? {
      var m := NsOption(n, src, opts[0].ll, now);
      NsOptionTouches(n, src, opts[0].ll, now);
      NsTouches(m, src, opts[1..], now);
      TouchesTwice(n.cache, m.cache, NsInput(n, Some(src), opts, now).cache, src, now);
    } else {
      NsTouches(n, src, opts[1..], now);
    }
  }

  lemma Untouched(c: Cache, src: Ip, now: nat)
    ensures Touches(c, c, src, now)
  {}

  lemma {:induction false} NsWithoutSource(n: Net, opts: seq<Opt>, now: nat)
    ensures NsInput(n, None, opts, now).cache == n.cache
    decreases |opts|
  {
    if !(opts == [] || opts[0] == Malformed || opts[0].Lladdr?) { NsWithoutSource(n, opts[1..], now); }
  }

  lemma {:induction false} RaTouches(n: Net, src: Ip, opts: seq<Opt>, now: nat)
    ensures Touches(n.cache, RaOptions(n, src, opts, now).0.cache, src, now)
    decreases |opts|
  {
    hide RaOption, Touches;
    if opts == [] || opts[0] == Malformed {
      Untouched(n.cache, src, now);
    } else if opts[0].Lladdr? {
      var m := RaOption(n, src, opts[0].ll, now);
      RaOptionTouches(n, src, opts[0].ll, now);
      RaTouches(m, src, opts[1..], now);
      TouchesTwice(n.cache, m.cache, RaOptions(n, src, opts, now).0.cache, src, now);
    } else {
      RaTouches(n, src, opts[1..], now);
    }
  }

  lemma MarkSameRows(n: Net, src: Ip, opts: seq<Opt>, lifetime: nat, now: nat)
    ensures SameRows(RaOptions(n, src, opts, now).0.cache, RaInput(n, src, opts, lifetime, now).cache)
  {
    hide RaOptions;
  }

  /** The clock value an event is handled at, if it matters. */
  function TimeOf(e: Event): Option<nat> {
    match e
    case Send(_, t) => Some(t)
    case Ns(_, _, t) => Some(t)
    case Ra(_, _, _, t) => Some(t)
    case Rpl(_, _, t) => Some(t)
    case _ => None
  }

  /** Slot `i` holds the neighbour it held, or none, or one just added; the one that made room for it was
      added before all others. */
  predicate SlotOutcome(c: Cache, d: Cache, i: nat, e: Event)
    requires i < |c| && |d| == |c|
  {
    d[i].used ==>
      (c[i].used && d[i].ip == c[i].ip && d[i].lastLookup == c[i].lastLookup)
      || (TimeOf(e) == Some(d[i].lastLookup) && (c[i].used ==> c[i].ip != d[i].ip && AddedFirst(c, i)))
  }

  lemma TouchedSlot(c: Cache, d: Cache, ip: Ip, e: Event, i: nat)
    requires TimeOf(e).Some? && Touches(c, d, ip, TimeOf(e).value) && i < |c|
    ensures |d| == |c| && SlotOutcome(c, d, i, e)
  {
    hide AddedFirst;
    if !SameRows(c, d) {
      var at: nat :| at < |c| && Inserted(c, d, at, ip, TimeOf(e).value);
      assert i != at ==> SameRow(c[i], d[i]);
    }
  }

  lemma SameIsTouched(c: Cache, d: Cache, ip: Ip, now: nat)
    requires SameRows(c, d)
    ensures Touches(c, d, ip, now)
  {}

  lemma SendTouches(n: Net, hop: Ip, now: nat)
    ensures Touches(n.cache, Output(n, hop, now).0.cache, hop, now)
  {
    AddExact(n.cache, hop, NO_LL, false, Incomplete, now);
    hide Add;
    var d := Output(n, hop, now).0.cache;
    if Lookup(n.cache, hop).None? {
      var r := Add(n.cache, hop, NO_LL, false, Incomplete, now).0;
      AddTouches(n.cache, hop, NO_LL, false, Incomplete, now);
      hide Touches;
      SameIsTouched(r, d, hop, now);
      TouchesTwice(n.cache, r, d, hop, now);
    }
  }

  lemma RaInputTouches(n: Net, src: Ip, opts: seq<Opt>, lifetime: nat, now: nat)
    ensures Touches(n.cache, RaInput(n, src, opts, lifetime, now).cache, src, now)
  {
    RaTouches(n, src, opts, now);
    MarkSameRows(n, src, opts, lifetime, now);
    hide Touches, SameRows, RaInput, RaOptions;
    var c, d := RaOptions(n, src, opts, now).0.cache, RaInput(n, src, opts, lifetime, now).cache;
    SameIsTouched(c, d, src, now);
    TouchesTwice(n.cache, c, d, src, now);
  }

  lemma RplTouches(n: Net, src: Ip, ll: Ll, now: nat)
    ensures Touches(n.cache, RplInput(n, src, ll, now).cache, src, now)
  {
    if Lookup(n.cache, src).None? { AddTouches(n.cache, src, ll, false, Reachable, now); }
    hide Add;
  }

  lemma KeptSlot(c: Cache, d: Cache, i: nat, e: Event)
    requires i < |c| && |d| == |c| && (d[i].used ==> c[i].used && d[i].ip == c[i].ip && d[i].lastLookup == c[i].lastLookup)
    ensures SlotOutcome(c, d, i, e)
  {}

  /** So it is at every step. */
  lemma StepSlot(n: Net, e: Event, i: nat)
    requires i < |n.cache|
    ensures |Step(n, e).0.cache| == |n.cache| && SlotOutcome(n.cache, Step(n, e).0.cache, i, e)
  {
    hide Touches, Output, NsInput, NaInput, RaInput, RplInput, SlotOutcome;
    var d := Step(n, e).0.cache;
    match e {
      case Send(hop, now) =>
        SendTouches(n, hop, now);
        TouchedSlot(n.cache, d, hop, e, i);
      case Ns(src, opts, now) =>
        if src.None? {
          NsWithoutSource(n, opts, now);
          KeptSlot(n.cache, d, i, e);
        } else {
          NsTouches(n, src.value, opts, now);
          TouchedSlot(n.cache, d, src.value, e, i);
        }
      case Na(target, opts, f) =>
        NaSameRow(n, target, opts, f, i);
        KeptSlot(n.cache, d, i, e);
      case Ra(src, opts, lifetime, now) =>
        RaInputTouches(n, src, opts, lifetime, now);
        TouchedSlot(n.cache, d, src, e, i);
      case Rpl(src, ll, now) =>
        RplTouches(n, src, ll, now);
        TouchedSlot(n.cache, d, src, e, i);
      case Timer(due) =>
        TickKeepsRow(n.cache[i], i in due);
        KeptSlot(n.cache, d, i, e);
    }
  }

  lemma NaSameRow(n: Net, target: Ip, opts: seq<Opt>, f: Flags, i: nat)
    requires i < |n.cache|
    ensures var d := NaInput(n, target, opts, f).cache; |d| == |n.cache| && SameRow(n.cache[i], d[i])
  {}

  lemma TickKeepsRow(e: Entry, due: bool)
    ensures var r := Tick(e, due); r.used ==> e.used && r.ip == e.ip && r.lastLookup == e.lastLookup
  {}

  // Runs.

  /** The clock does not go back. */
  predicate Ordered(events: seq<Event>) {
    forall i, j :: 0 <= i < j < |events| && TimeOf(events[i]).Some? && TimeOf(events[j]).Some? ==>
      TimeOf(events[i]).value <= TimeOf(events[j]).value
  }

  function State(n: Net, events: seq<Event>): Net { Run(n, events).0 }

  /** The number of the event at which the neighbour in slot `i` was added. */
  function FilledBy(n: Net, events: seq<Event>, i: nat): (k: nat)
    ensures events != [] ==> k < |events|
    decreases |events|
  {
    if events == [] then 0
    else
      var last := |events| - 1;
      var m := State(n, events[..last]);
      if last > 0 && Stays(m, Step(m, events[last]).0, i) then FilledBy(n, events[..last], i) else last
  }

  lemma {:induction false} StateLast(n: Net, events: seq<Event>)
    requires events != []
    ensures var last := |events| - 1; State(n, events) == Step(State(n, events[..last]), events[last]).0
    decreases |events|
  {
    hide Step;
    var last := |events| - 1;
    if last == 0 {
      assert events == [events[0]] + [] && events[..0] == [];
      RunStep(n, events[0], []);
    } else {
      StateLast(Step(n, events[0]).0, events[1..]);
      RunStep(n, events[0], events[1..]);
      RunStep(n, events[0], events[1..][..last - 1]);
      assert events == [events[0]] + events[1..] && events[..last] == [events[0]] + events[1..][..last - 1];
    }
  }

  /** The time noted for a neighbour is that of the event at which it was added. */
  lemma {:induction false} NotedTime(n: Net, events: seq<Event>, i: nat)
    requires Blank(n) && i < |n.cache|
    ensures var m := State(n, events);
            && |m.cache| == |n.cache|
            && (m.cache[i].used ==> events != [] && TimeOf(events[FilledBy(n, events, i)]) == Some(m.cache[i].lastLookup))
    decreases |events|
  {
    hide Step, AddedFirst;
    if events != [] {
      var last := |events| - 1;
      var m := State(n, events[..last]);
      StateLast(n, events);
      NotedTime(n, events[..last], i);
      StepSlot(m, events[last], i);
    }
  }

  /** Which entry makes room: over every run from an empty cache with a clock that does not go back, none in
      the cache was added at an earlier time, so that it is the one added first in the history unless the
      clock had not moved on; packets sent through an entry in between do not count. */
  lemma EvictedWasFirst(n: Net, events: seq<Event>, e: Event, i: nat, j: nat)
    requires Blank(n) && Ordered(events) && i < |n.cache| && j < |n.cache|
    requires var m := State(n, events);
             && |m.cache| == |n.cache| && m.cache[i].used && m.cache[j].used
             && var d := Step(m, e).0.cache; |d| == |n.cache| && d[i].used && d[i].ip != m.cache[i].ip
    ensures var x, y := FilledBy(n, events, i), FilledBy(n, events, j);
            && x < |events| && y < |events| && TimeOf(events[x]).Some? && TimeOf(events[y]).Some?
            && TimeOf(events[x]).value <= TimeOf(events[y]).value
            && (x <= y || TimeOf(events[x]) == TimeOf(events[y]))
  {
    hide Step;
    var m := State(n, events);
    NotedTime(n, events, i);
    NotedTime(n, events, j);
    StepSlot(m, e, i);
    assert AddedFirst(m.cache, i);
  }

  /** The number of the event at which slot `i` was last filled or sent through. */
  function UsedBy(n: Net, events: seq<Event>, i: nat): (k: nat)
    ensures events != [] ==> k < |events|
    decreases |events|
  {
    if events == [] then 0
    else
      var last := |events| - 1;
      var m := State(n, events[..last]);
      var (r, f) := Step(m, events[last]);
      if last > 0 && Stays(m, r, i) && !(events[last].Send? && f.Unicast? && f.hop == m.cache[i].ip) then
        UsedBy(n, events[..last], i)
      else last
  }

  lemma {:induction false} UsedLater(n: Net, events: seq<Event>, i: nat)
    ensures FilledBy(n, events, i) <= UsedBy(n, events, i)
    decreases |events|
  {
    hide Step, Stays;
    if events != [] { UsedLater(n, events[..|events| - 1], i); }
  }

  /** The entry that makes room is also the least recently used one if nothing was sent through it since it
      was added. */
  lemma UnusedIsLeastRecent(n: Net, events: seq<Event>, e: Event, i: nat, j: nat)
    requires Blank(n) && Ordered(events) && i < |n.cache| && j < |n.cache|
    requires var m := State(n, events);
             && |m.cache| == |n.cache| && m.cache[i].used && m.cache[j].used
             && var d := Step(m, e).0.cache; |d| == |n.cache| && d[i].used && d[i].ip != m.cache[i].ip
    requires UsedBy(n, events, i) == FilledBy(n, events, i)
    ensures var x, y := UsedBy(n, events, i), UsedBy(n, events, j);
            x <= y || (x < |events| && y < |events| && TimeOf(events[x]) == TimeOf(events[FilledBy(n, events, j)]))
  {
    EvictedWasFirst(n, events, e, i, j);
    UsedLater(n, events, j);
  }

  /** Event `k` sends a packet to the neighbour in slot `i`. */
  predicate SentThrough(n: Net, events: seq<Event>, k: nat, i: nat)
    requires k < |events|
  {
    var m := State(n, events[..k]);
    var (r, f) := Step(m, events[k]);
    i < |m.cache| && Stays(m, r, i) && events[k].Send? && f.Unicast? && f.hop == m.cache[i].ip
  }

  /** Nothing was sent to it after event `k`. */
  ghost predicate QuietSince(n: Net, events: seq<Event>, i: nat, k: nat) {
    forall x :: k < x < |events| ==> !SentThrough(n, events, x, i)
  }

  /** The last use of a slot is the last packet sent through it, or its filling. */
  lemma {:induction false} UsedExact(n: Net, events: seq<Event>, i: nat)
    requires Blank(n) && i < |n.cache| && events != []
    ensures var k := UsedBy(n, events, i);
            && (k == FilledBy(n, events, i) || SentThrough(n, events, k, i))
            && QuietSince(n, events, i, k)
    decreases |events|
  {
    hide Step, Stays;
    var last := |events| - 1;
    var front := events[..last];
    NotedTime(n, front, i);
    if last > 0 && UsedBy(n, events, i) != last {
      UsedExact(n, front, i);
      forall x | UsedBy(n, events, i) <= x < last ensures SentThrough(n, events, x, i) <==> SentThrough(n, front, x, i) {
        assert front[..x] == events[..x] && front[x] == events[x];
      }
    }
  }

  /** Slot `j` was used at least as recently as slot `i`, which makes room: exactly if nothing was sent through `i`
      after the last use of `j`, and `i` was filled before that in case the clock does not tell. */
  lemma UsedSinceExact(n: Net, events: seq<Event>, e: Event, i: nat, j: nat)
    requires Blank(n) && Ordered(events) && i < |n.cache| && j < |n.cache|
    requires var m := State(n, events);
             && |m.cache| == |n.cache| && m.cache[i].used && m.cache[j].used
             && var d := Step(m, e).0.cache; |d| == |n.cache| && d[i].used && d[i].ip != m.cache[i].ip
    ensures UsedBy(n, events, i) <= UsedBy(n, events, j)
            <==> QuietSince(n, events, i, UsedBy(n, events, j))
                 && (State(n, events).cache[i].lastLookup == State(n, events).cache[j].lastLookup ==>
                       FilledBy(n, events, i) <= UsedBy(n, events, j))
  {
    hide Step, SentThrough;
    NotedTime(n, events, i);
    NotedTime(n, events, j);
    EvictedWasFirst(n, events, e, i, j);
    UsedLater(n, events, i);
    UsedLater(n, events, j);
    UsedExact(n, events, i);
  }

  /** The entry that makes room is the least recently used one exactly then. */
  lemma LeastRecentExact(n: Net, events: seq<Event>, e: Event, i: nat)
    requires Blank(n) && Ordered(events) && i < |n.cache|
    requires var m := State(n, events);
             && |m.cache| == |n.cache| && m.cache[i].used
             && var d := Step(m, e).0.cache; |d| == |n.cache| && d[i].used && d[i].ip != m.cache[i].ip
    ensures var c := State(n, events).cache;
            (forall j :: 0 <= j < |c| && c[j].used ==> UsedBy(n, events, i) <= UsedBy(n, events, j))
            <==> forall j :: 0 <= j < |c| && c[j].used ==>
                   && QuietSince(n, events, i, UsedBy(n, events, j))
                   && (c[i].lastLookup == c[j].lastLookup ==> FilledBy(n, events, i) <= UsedBy(n, events, j))
  {
    hide Step, QuietSince;
    var c := State(n, events).cache;
    forall j | 0 <= j < |c| && c[j].used
      ensures UsedBy(n, events, i) <= UsedBy(n, events, j)
              <==> QuietSince(n, events, i, UsedBy(n, events, j))
                   && (c[i].lastLookup == c[j].lastLookup ==> FilledBy(n, events, i) <= UsedBy(n, events, j))
    {
      UsedSinceExact(n, events, e, i, j);
    }
  }

  /** Sending through an entry never changes which entry makes room next. */
  lemma UseDoesNotHelp(n: Net, hop: Ip, now: nat, later: nat)
    requires Output(n, hop, now).1.Unicast?
    ensures Oldest(Output(n, hop, now).0.cache, later) == Oldest(n.cache, later)
  {
    SameOldest(n.cache, Output(n, hop, now).0.cache, 0, None, later);
  }

  lemma {:induction false} SameOldest(c: Cache, d: Cache, i: nat, best: Option<nat>, time: nat)
    requires SameRows(c, d) && i <= |c|
    requires best.Some? ==> best.value < i && c[best.value].used && c[best.value].lastLookup == time
    requires forall j :: 0 <= j < i && c[j].used ==> time <= c[j].lastLookup
    ensures (best.Some? ==> d[best.value].used && d[best.value].lastLookup == time)
            && (forall j :: 0 <= j < i && d[j].used ==> time <= d[j].lastLookup)
            && OldestFrom(d, i, best, time) == OldestFrom(c, i, best, time)
    decreases |c| - i
  {
    forall j | 0 <= j < |c| ensures SameRow(c[j], d[j]) {}
    if i < |c| {
      if c[i].used && c[i].lastLookup < time {
        SameOldest(c, d, i + 1, Some(i), c[i].lastLookup);
      } else {
        SameOldest(c, d, i + 1, best, time);
      }
    }
  }

  /** Two neighbours heard of, one after the other, by a cache of two entries. */
  lemma TwoHeard(n: Net, a: Ip, b: Ip)
    requires |n.cache| == 2 && Blank(n) && a != b
    ensures var c := RplInput(RplInput(n, a, 5, 1), b, 6, 2).cache;
            var x, y := Fresh(a, 5, false, Reachable, 1), Fresh(b, 6, false, Reachable, 2);
            c == [x, y] || c == [y, x]
  {
    var n1 := RplInput(n, a, 5, 1);
    AddExact(n.cache, a, 5, false, Reachable, 1);
    AddExact(n1.cache, b, 6, false, Reachable, 2);
    hide Add;
  }

  lemma SendReachable(n: Net, hop: Ip, now: nat, k: nat)
    requires Distinct(n.cache) && k < |n.cache| && n.cache[k].used && n.cache[k].ip == hop && n.cache[k].state == Reachable
    ensures Output(n, hop, now) == (n, Unicast(hop, n.cache[k].ll))
  {
    FoundAt(n.cache, hop, k);
  }

  /** In a full cache the one entry added before all others makes room. */
  lemma OldestGoes(n: Net, hop: Ip, now: nat, k: nat)
    requires Lookup(n.cache, hop).None? && AllUsed(n.cache) && k < |n.cache| && n.cache[k].lastLookup < now
    requires forall j :: 0 <= j < |n.cache| && j != k ==> n.cache[k].lastLookup < n.cache[j].lastLookup
    ensures var e := Fresh(hop, NO_LL, false, Incomplete, now).(nscount := 1);
            Output(n, hop, now) == (n.(cache := n.cache[k := e]), Broadcast(hop))
  {
    AddExact(n.cache, hop, NO_LL, false, Incomplete, now);
    hide Add, Lookup;
    var (r, at) := Add(n.cache, hop, NO_LL, false, Incomplete, now);
    assert at.Some? && n.cache[at.value].lastLookup <= n.cache[k].lastLookup;
    var e := Fresh(hop, NO_LL, false, Incomplete, now);
    assert at.value == k && n.cache[k := e][k := e.(nscount := 1)] == n.cache[k := e.(nscount := 1)];
  }

  lemma AbsentFromTwo(c: Cache, ip: Ip)
    requires |c| == 2 && c[0].ip != ip && c[1].ip != ip
    ensures Lookup(c, ip).None?
  {}

  lemma RunOfFour(n: Net, x: Event, y: Event, z: Event, w: Event)
    ensures var n1 := Step(n, x).0;
            var n2 := Step(n1, y).0;
            var (n3, f3) := Step(n2, z);
            var (n4, f4) := Step(n3, w);
            Run(n, [x, y, z, w]) == (n4, [Step(n, x).1, Step(n1, y).1, f3, f4])
  {
    hide Step, Run;
    RunStep(n, x, [y, z, w]);
    RunOfThree(Step(n, x).0, y, z, w);
    assert [x] + [y, z, w] == [x, y, z, w];
    var fs := Run(Step(n, x).0, [y, z, w]).1;
    assert [Step(n, x).1] + fs == [Step(n, x).1, fs[0], fs[1], fs[2]];
  }

  /** A run in which the neighbour a packet has just been sent to makes room, and not the one that nothing
      was ever sent to. */
  lemma RecentlyUsedGoes(a: Ip, b: Ip, c: Ip)
    requires a != b && b != c && c != a
    ensures var free := Entry(false, Zeros(16), NO_LL, 0, false, Incomplete, 0);
            var n := Net([free, free], None, {});
            var r := Run(n, [Rpl(a, 5, 1), Rpl(b, 6, 2), Send(a, 9), Send(c, 10)]);
            && r.1 == [NoFrame, NoFrame, Unicast(a, 5), Broadcast(c)]
            && Lookup(r.0.cache, a).None? && Lookup(r.0.cache, b).Some?
  {
    hide Run, Lookup, Output, RplInput;
    var free := Entry(false, Zeros(16), NO_LL, 0, false, Incomplete, 0);
    var n := Net([free, free], None, {});
    var n1 := RplInput(n, a, 5, 1);
    var n2 := RplInput(n1, b, 6, 2);
    TwoHeard(n, a, b);
    var k := if n2.cache[0].ip == a then 0 else 1;
    SendReachable(n2, a, 9, k);
    AbsentFromTwo(n2.cache, c);
    OldestGoes(n2, c, 10, k);
    var d := Output(n2, c, 10).0.cache;
    assert d[k].ip == c && d[1 - k].ip == b && d[1 - k].used;
    AbsentFromTwo(d, a);
    RunOfFour(n, Rpl(a, 5, 1), Rpl(b, 6, 2), Send(a, 9), Send(c, 10));
  }

  // ------------------------------------------------------ who is taken for a router

  /** The static pointer of uip_nd6.c, if set, is at the entry of `src`. */
  predicate Points(n: Net, src: Ip) { n.nbr.Some? ==> Is(n, n.nbr.value, src) }

  lemma RaOptionPoints(n: Net, src: Ip, ll: Ll, now: nat)
    ensures Points(RaOption(n, src, ll, now), src)
  {
    AddExact(n.cache, src, ll, true, Stale, now);
    hide Add;
  }

  lemma {:induction false} RaPoints(n: Net, src: Ip, opts: seq<Opt>, now: nat)
    requires RaOptions(n, src, opts, now).1
    ensures var m := RaOptions(n, src, opts, now).0; if Names(opts) then Points(m, src) else m == n
    decreases |opts|
  {
    hide RaOption, Points;
    if opts != [] {
      var m := if opts[0].Lladdr? then RaOption(n, src, opts[0].ll, now) else n;
      RaPoints(m, src, opts[1..], now);
      if opts[0].Lladdr? { RaOptionPoints(n, src, opts[0].ll, now); }
      if Names(opts[1..]) {
        var k :| 0 <= k < |opts[1..]| && opts[1..][k].Lladdr?;
        assert opts[k + 1].Lladdr?;
      } else if !opts[0].Lladdr? {
        forall k | 0 <= k < |opts| ensures !opts[k].Lladdr? {
          assert k > 0 ==> opts[k] == opts[1..][k - 1];
        }
      }
    }
  }

  /** An advertisement marks its own sender as a router if and only if it carries a link-layer address, or
      the message before it that set the pointer was about the same neighbour. */
  lemma MarkedExact(n: Net, src: Ip, opts: seq<Opt>, lifetime: nat, now: nat)
    requires Marked(n, src, opts, lifetime, now).Some?
    ensures var k := Marked(n, src, opts, lifetime, now).value;
            var r := RaInput(n, src, opts, lifetime, now);
            && k < |r.cache| && r.cache[k].isrouter
            && (Is(r, k, src) <==> Names(opts) || Is(n, k, src))
            && (!Names(opts) ==>
                  n.nbr == Some(k) && k < |n.cache| && r == n.(cache := n.cache[k := n.cache[k].(isrouter := true)]))
  {
    RaPoints(n, src, opts, now);
    hide RaOptions, Names;
  }

  /** Neighbour `b` asks for an address of this node; then router `a` sends an advertisement without a
      link-layer address, and `b` is taken for the router. */
  lemma WrongRouter(a: Ip, b: Ip)
    requires a != b
    ensures var x, y := Fresh(a, 5, false, Reachable, 1), Fresh(b, 6, false, Reachable, 2);
            var n := NsInput(Net([x, y], None, {(a, 5), (b, 6)}), Some(b), [Lladdr(6)], 3);
            RaInput(n, a, [OtherOpt], 1800, 4).cache == [x, y.(isrouter := true)]
  {
    var x, y := Fresh(a, 5, false, Reachable, 1), Fresh(b, 6, false, Reachable, 2);
    var n0 := Net([x, y], None, {(a, 5), (b, 6)});
    FoundAt(n0.cache, b, 1);
    var n := NsInput(n0, Some(b), [Lladdr(6)], 3);
    assert [Lladdr(6)][1..] == [] && [OtherOpt][1..] == [];
    assert NsInput(NsOption(n0, b, 6, 3), Some(b), [], 3) == NsOption(n0, b, 6, 3);
    assert n.nbr == Some(1) && n.cache == [x, y];
    assert RaOptions(n, a, [OtherOpt], 4) == RaOptions(n, a, [], 4) == (n, true);
    assert Marked(n, a, [OtherOpt], 1800, 4) == Some(1);
  }
}
