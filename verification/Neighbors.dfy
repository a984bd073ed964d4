// The neighbour cache of uip_ds6.c and the steps of uip_nd6.c, tcpip.c and
// rpl_icmp6.c that change it: address resolution and unreachability detection
// (sections 7.2 and 7.3 of RFC 4861).
module Neighbors {
  import opened Bytes
  import opened Ds6List

  const MAX_MULTICAST_SOLICIT: nat := 3
  const MAX_UNICAST_SOLICIT: nat := 3

  /** A link-layer address, and the zeros `memset` leaves where none is known. */
  type Ll = nat
  const NO_LL: Ll := 0

  datatype NudState = Incomplete | Reachable | Stale | Delay | Probe

  datatype Entry = Entry(used: bool, ip: Ip, ll: Ll, nscount: nat, isrouter: bool, state: NudState, lastLookup: nat)

  type Cache = seq<Entry>

  function Key(e: Entry): Option<Ip> { if e.used then Some(e.ip) else None }

  // ------------------------------------------------------------------ the cache

  /** `uip_ds6_nbr_lookup`. */
  function Lookup(c: Cache, ip: Ip): (r: Option<nat>)
    ensures r.Some? ==> r.value < |c| && c[r.value].used && c[r.value].ip == ip
    ensures r.None? ==> forall i :: 0 <= i < |c| && c[i].used ==> c[i].ip != ip
  {
    WholeMatch(c, ip);
    match ListLoop(c, Key, ip, WHOLE) case Found(i) => Some(i) case _ => None
  }

  lemma WholeMatch(c: Cache, ip: Ip)
    ensures forall i :: 0 <= i < |c| ==> (Matches(Key, c[i], ip, WHOLE) <==> c[i].used && c[i].ip == ip)
  {
    forall i | 0 <= i < |c| ensures Matches(Key, c[i], ip, WHOLE) <==> c[i].used && c[i].ip == ip {
      assert c[i].ip[..16] == c[i].ip && ip[..16] == ip;
    }
  }

  /** The loop over the entries that looks for the one added longest ago, before `time`. */
  function OldestFrom(c: Cache, i: nat, best: Option<nat>, time: nat): (r: Option<nat>)
    requires i <= |c| && (best.Some? ==> best.value < i && c[best.value].used && c[best.value].lastLookup == time)
    requires forall j :: 0 <= j < i && c[j].used ==> time <= c[j].lastLookup
    ensures r.Some? ==> r.value < |c| && c[r.value].used && c[r.value].lastLookup <= time
                        && forall j :: 0 <= j < |c| && c[j].used ==> c[r.value].lastLookup <= c[j].lastLookup
    ensures r.None? <==> best.None? && forall j :: i <= j < |c| && c[j].used ==> time <= c[j].lastLookup
    decreases |c| - i
  {
    if i == |c| then best
    else if c[i].used && c[i].lastLookup < time then OldestFrom(c, i + 1, Some(i), c[i].lastLookup)
    else OldestFrom(c, i + 1, best, time)
  }

  predicate AllUsed(c: Cache) { forall i :: 0 <= i < |c| ==> c[i].used }

  /** Entries at `now` or later are never the oldest. */
  predicate AnyOlder(c: Cache, now: nat) { exists i :: 0 <= i < |c| && c[i].used && c[i].lastLookup < now }

  /** The search starts from the present, so that only strictly older entries count. */
  function Oldest(c: Cache, now: nat): (r: Option<nat>)
    ensures r.Some? <==> AnyOlder(c, now)
    ensures r.Some? ==> r.value < |c| && c[r.value].used
                        && forall j :: 0 <= j < |c| && c[j].used ==> c[r.value].lastLookup <= c[j].lastLookup
  {
    OldestFrom(c, 0, None, now)
  }

  function Fresh(ip: Ip, ll: Ll, isrouter: bool, state: NudState, now: nat): Entry {
    Entry(true, ip, ll, 0, isrouter, state, now)
  }

  /** `uip_ds6_nbr_add`: in a full cache the oldest entry goes and the call repeats, which ends because the
      second time there is room. */
  function Add(c: Cache, ip: Ip, ll: Ll, isrouter: bool, state: NudState, now: nat): (Cache, Option<nat>)
    decreases if AllUsed(c) then 1 else 0
  {
    match ListLoop(c, Key, ip, WHOLE)
    case FreeSpace(i) => (c[i := Fresh(ip, ll, isrouter, state, now)], Some(i))
    case NoSpace =>
      (match Oldest(c, now)
       case None => (c, None)
       case Some(o) =>
         var d := c[o := c[o].(used := false)];
         NoSpaceIsFull(c, ip);
         assert !d[o].used;
         Add(d, ip, ll, isrouter, state, now))
    case Found(_) => (c, None)
  }

  lemma NoSpaceIsFull(c: Cache, ip: Ip)
    requires ListLoop(c, Key, ip, WHOLE).NoSpace?
    ensures AllUsed(c)
  {
    forall i | 0 <= i < |c| ensures c[i].used { assert Key(c[i]).Some?; }
  }

  /** A new entry is refused exactly when the address is there already, or the cache is full of entries
      none of which is older than the present; one given up for it was the oldest; no other changes. */
  lemma AddExact(c: Cache, ip: Ip, ll: Ll, isrouter: bool, state: NudState, now: nat)
    ensures var (r, at) := Add(c, ip, ll, isrouter, state, now);
            && |r| == |c|
            && (at.None? <==> Lookup(c, ip).Some? || (AllUsed(c) && !AnyOlder(c, now)))
            && (at.None? ==> r == c)
            && (at.Some? ==>
                  && at.value < |c| && r == c[at.value := Fresh(ip, ll, isrouter, state, now)]
                  && (c[at.value].used ==>
                        AllUsed(c) && forall j :: 0 <= j < |c| ==> c[at.value].lastLookup <= c[j].lastLookup))
  {
    WholeMatch(c, ip);
    var found := ListLoop(c, Key, ip, WHOLE);
    hide SamePrefix;
    if found.NoSpace? && AnyOlder(c, now) {
      var o := Oldest(c, now).value;
      var d := c[o := c[o].(used := false)];
      WholeMatch(d, ip);
      forall j | 0 <= j < |d| ensures !Matches(Key, d[j], ip, WHOLE) && (Key(d[j]).None? <==> j == o) {
        assert !Matches(Key, c[j], ip, WHOLE);
      }
      FoundUnique(d, Key, ip, WHOLE, FreeSpace(o));
      assert d[o := Fresh(ip, ll, isrouter, state, now)] == c[o := Fresh(ip, ll, isrouter, state, now)];
    }
  }

  // -------------------------------------------------------------------- the steps

  /** The cache, the static `nbr` of uip_nd6.c, and every pair of an address and the link-layer address
      announced for it that was received so far. */
  datatype Net = Net(cache: Cache, nbr: Option<nat>, heard: set<(Ip, Ll)>)

  /** What goes to layer 2: a solicitation of `target` to all, or a packet for one link-layer address. */
  datatype Frame = NoFrame | Broadcast(target: Ip) | Unicast(hop: Ip, ll: Ll)

  function Remember(n: Net, ip: Ip, ll: Ll): Net { n.(heard := n.heard + {(ip, ll)}) }

  /** The neighbour part of `tcpip_ipv6_output` for a unicast packet to next hop `hop`. */
  function Output(n: Net, hop: Ip, now: nat): (Net, Frame) {
    var c := n.cache;
    match Lookup(c, hop)
    case None =>
      var (r, at) := Add(c, hop, NO_LL, false, Incomplete, now);
      AddExact(c, hop, NO_LL, false, Incomplete, now);
      if at.None? then (n.(cache := r), NoFrame)
      else (n.(cache := r[at.value := r[at.value].(nscount := 1)]), Broadcast(hop))
    case Some(i) =>
      if c[i].state == Incomplete then (n, NoFrame)
      else if c[i].state == Stale then (n.(cache := c[i := c[i].(state := Delay, nscount := 0)]), Unicast(hop, c[i].ll))
      else (n, Unicast(hop, c[i].ll))
  }

  datatype Opt = Lladdr(ll: Ll) | Malformed | OtherOpt

  /** A source link-layer address option in a Neighbor Solicitation. */
  function NsOption(n: Net, src: Ip, ll: Ll, now: nat): Net {
    var i := Lookup(n.cache, src);
    var n1 := Remember(n.(nbr := i), src, ll);
    match i
    case None => n1.(cache := Add(n.cache, src, ll, false, Stale, now).0)
    case Some(k) =>
      var e := n.cache[k];
      n1.(cache := n.cache[k := if e.ll != ll then e.(ll := ll, state := Stale)
                                else if e.state == Incomplete then e.(state := Stale) else e])
  }

  /** The option loop of `uip_nd6_ns_input`; each option takes effect at once. */
  function NsInput(n: Net, src: Option<Ip>, opts: seq<Opt>, now: nat): Net
    decreases |opts|
  {
    if opts == [] || opts[0] == Malformed || (opts[0].Lladdr? && src.None?) then n
    else
      NsInput(if opts[0].Lladdr? then NsOption(n, src.value, opts[0].ll, now) else n, src, opts[1..], now)
  }

  /** The last target link-layer address option, unless an option is malformed. */
  function LastLladdr(opts: seq<Opt>, seen: Option<Ll>): Option<Option<Ll>>
    decreases |opts|
  {
    if opts == [] then Some(seen)
    else if opts[0] == Malformed then None
    else LastLladdr(opts[1..], if opts[0].Lladdr? then Some(opts[0].ll) else seen)
  }

  datatype Flags = Flags(router: bool, solicited: bool, override: bool)

  /** What a Neighbor Advertisement does to the entry of its target. */
  function Advertised(e: Entry, tlla: Option<Ll>, f: Flags): Entry {
    var change := tlla.Some? && tlla.value != e.ll;
    if e.state == Incomplete then
      if tlla.None? then e
      else e.(ll := tlla.value, state := if f.solicited then Reachable else Stale,
              nscount := if f.solicited then 0 else e.nscount, isrouter := f.router)
    else if !f.override && change then e.(state := if e.state == Reachable then Stale else e.state)
    else
      e.(ll := if tlla.Some? then tlla.value else e.ll,
         state := if f.solicited then Reachable else if change then Stale else e.state, isrouter := f.router)
  }

  /** `uip_nd6_na_input` for a target that is no address of this node. */
  function NaInput(n: Net, target: Ip, opts: seq<Opt>, f: Flags): Net {
    match LastLladdr(opts, None)
    case None => n
    case Some(tlla) =>
      var i := Lookup(n.cache, target);
      var n1 := (if tlla.Some? then Remember(n, target, tlla.value) else n).(nbr := i);
      match i
      case None => n1
      case Some(k) => n1.(cache := n.cache[k := Advertised(n.cache[k], tlla, f)])
  }

  /** A source link-layer address option in a Router Advertisement. */
  function RaOption(n: Net, src: Ip, ll: Ll, now: nat): Net {
    var n1 := Remember(n, src, ll);
    match Lookup(n.cache, src)
    case None =>
      var (r, at) := Add(n.cache, src, ll, true, Stale, now);
      n1.(cache := r, nbr := at)
    case Some(k) =>
      var e := n.cache[k];
      n1.(cache := n.cache[k := e.(ll := ll, isrouter := true,
                                   state := if e.state == Incomplete || e.ll != ll then Stale else e.state)],
          nbr := Some(k))
  }

  /** The options of a Router Advertisement; `None` when one is malformed, with the effects so far kept. */
  function RaOptions(n: Net, src: Ip, opts: seq<Opt>, now: nat): (Net, bool)
    decreases |opts|
  {
    if opts == [] then (n, true)
    else if opts[0] == Malformed then (n, false)
    else RaOptions(if opts[0].Lladdr? then RaOption(n, src, opts[0].ll, now) else n, src, opts[1..], now)
  }

  /** The entry a Router Advertisement with a lifetime marks as a router: the one the static `nbr` points at,
      which may be left from an earlier message. */
  function Marked(n: Net, src: Ip, opts: seq<Opt>, routerLifetime: nat, now: nat): Option<nat> {
    var (n1, whole) := RaOptions(n, src, opts, now);
    if whole && routerLifetime != 0 && n1.nbr.Some? && n1.nbr.value < |n1.cache| then n1.nbr else None
  }

  /** `uip_nd6_ra_input`. */
  function RaInput(n: Net, src: Ip, opts: seq<Opt>, routerLifetime: nat, now: nat): Net {
    var n1 := RaOptions(n, src, opts, now).0;
    match Marked(n, src, opts, routerLifetime, now)
    case None => n1
    case Some(k) => n1.(cache := n1.cache[k := n1.cache[k].(isrouter := true)])
  }

  /** dio_input notes the sender of the frame as a neighbour. */
  function RplInput(n: Net, src: Ip, ll: Ll, now: nat): Net {
    var n1 := Remember(n, src, ll);
    if Lookup(n.cache, src).Some? then n1 else n1.(cache := Add(n.cache, src, ll, false, Reachable, now).0)
  }

  /** `uip_ds6_periodic` for one entry; `due`: the timer its state waits for has expired. */
  function Tick(e: Entry, due: bool): Entry {
    if !e.used then e
    else
      match e.state
      case Incomplete =>
        if e.nscount >= MAX_MULTICAST_SOLICIT then e.(used := false) else if due then e.(nscount := e.nscount + 1) else e
      case Reachable => if due then e.(state := Stale) else e
      case Stale => e
      case Delay => if due then e.(state := Probe, nscount := 1) else e
      case Probe =>
        if e.nscount >= MAX_UNICAST_SOLICIT then e.(used := false) else if due then e.(nscount := e.nscount + 1) else e
  }

  /** A solicitation of entry `e` is made and counted in this pass. */
  predicate Solicits(e: Entry, due: bool) {
    e.used && due
    && (e.state == Delay || ((e.state == Incomplete || e.state == Probe) && e.nscount < MAX_MULTICAST_SOLICIT))
  }

  function Periodic(c: Cache, due: set<nat>): (r: Cache)
    ensures |r| == |c| && forall i :: 0 <= i < |c| ==> r[i] == Tick(c[i], i in due)
  {
    seq(|c|, i requires 0 <= i < |c| => Tick(c[i], i in due))
  }

  /** The last of the first `n` entries that are solicited in a pass: each solicitation is written over the
      one before, in the one `uip_buf`. */
  function LastSolicited(c: Cache, due: set<nat>, n: nat): (r: Option<nat>)
    requires n <= |c|
    ensures r.Some? ==> r.value < n && Solicits(c[r.value], r.value in due)
                        && forall j :: r.value < j < n ==> !Solicits(c[j], j in due)
    ensures r.None? ==> forall j :: 0 <= j < n ==> !Solicits(c[j], j in due)
  {
    if n == 0 then None else if Solicits(c[n - 1], n - 1 in due) then Some(n - 1) else LastSolicited(c, due, n - 1)
  }

  /** What soliciting `e` sends: to all while its link-layer address is unknown, then to the neighbour. */
  function Solicitation(e: Entry): Frame {
    if e.state == Incomplete then Broadcast(e.ip) else Unicast(e.ip, e.ll)
  }

  /** `uip_ds6_periodic`, and the one `tcpip_ipv6_output` after it for what the buffer then holds. */
  function Pass(n: Net, due: set<nat>): (Net, Frame) {
    var last := LastSolicited(n.cache, due, |n.cache|);
    (n.(cache := Periodic(n.cache, due)), if last.None? then NoFrame else Solicitation(n.cache[last.value]))
  }

  datatype Event =
    | Send(hop: Ip, sendTime: nat)
    | Ns(nsSrc: Option<Ip>, nsOpts: seq<Opt>, nsTime: nat)
    | Na(target: Ip, naOpts: seq<Opt>, flags: Flags)
    | Ra(raSrc: Ip, raOpts: seq<Opt>, routerLifetime: nat, raTime: nat)
    | Rpl(rplSrc: Ip, rplLl: Ll, rplTime: nat)
    | Timer(due: set<nat>)

  function Step(n: Net, e: Event): (Net, Frame) {
    match e
    case Send(hop, now) => Output(n, hop, now)
    case Ns(src, opts, now) => (NsInput(n, src, opts, now), NoFrame)
    case Na(target, opts, f) => (NaInput(n, target, opts, f), NoFrame)
    case Ra(src, opts, lifetime, now) => (RaInput(n, src, opts, lifetime, now), NoFrame)
    case Rpl(src, ll, now) => (RplInput(n, src, ll, now), NoFrame)
    case Timer(due) => Pass(n, due)
  }

  // ---------------------------------------------------------------------- safety

  predicate Distinct(c: Cache) {
    forall i, j :: 0 <= i < j < |c| && c[i].used && c[j].used ==> c[i].ip != c[j].ip
  }

  /** At most three solicitations; a link-layer address in use was announced for this very address. */
  predicate EntryOk(e: Entry, heard: set<(Ip, Ll)>) {
    e.used ==> e.nscount <= MAX_MULTICAST_SOLICIT && (e.state != Incomplete ==> (e.ip, e.ll) in heard)
  }

  predicate Inv(n: Net) {
    Distinct(n.cache) && forall i :: 0 <= i < |n.cache| ==> EntryOk(n.cache[i], n.heard)
  }

  lemma RememberInv(n: Net, ip: Ip, ll: Ll)
    requires Inv(n)
    ensures Inv(Remember(n, ip, ll))
  {}

  /** A change of one entry that keeps its address. */
  lemma UpdateInv(n: Net, k: nat, e: Entry)
    requires Inv(n) && k < |n.cache| && EntryOk(e, n.heard)
    requires e.used ==> n.cache[k].used && e.ip == n.cache[k].ip
    ensures Inv(n.(cache := n.cache[k := e]))
  {}

  lemma AddInv(n: Net, ip: Ip, ll: Ll, isrouter: bool, state: NudState, now: nat)
    requires Inv(n) && (state != Incomplete ==> (ip, ll) in n.heard)
    ensures Inv(n.(cache := Add(n.cache, ip, ll, isrouter, state, now).0))
  {
    AddExact(n.cache, ip, ll, isrouter, state, now);
    hide Add;
    var (r, at) := Add(n.cache, ip, ll, isrouter, state, now);
    if at.Some? {
      assert Lookup(n.cache, ip).None?;
    }
  }

  /** A packet goes to layer 2 as a unicast only through an entry that is not incomplete, to an address
      that was announced for the next hop. */
  lemma OutputInv(n: Net, hop: Ip, now: nat)
    requires Inv(n)
    ensures var (r, f) := Output(n, hop, now);
            && Inv(r) && r.heard == n.heard
            && (f.Unicast? ==>
                  && f.hop == hop && (hop, f.ll) in n.heard
                  && exists i :: 0 <= i < |r.cache| && r.cache[i].used && r.cache[i].ip == hop && r.cache[i].ll == f.ll
                                 && r.cache[i].state in {Reachable, Delay, Probe})
            && (f.Broadcast? ==> f.target == hop)
            && (f.Broadcast? <==> Lookup(n.cache, hop).None? && (!AllUsed(n.cache) || AnyOlder(n.cache, now)))
  {
    AddExact(n.cache, hop, NO_LL, false, Incomplete, now);
    AddInv(n, hop, NO_LL, false, Incomplete, now);
    hide Add, Distinct;
    match Lookup(n.cache, hop) {
      case None =>
        var (r, at) := Add(n.cache, hop, NO_LL, false, Incomplete, now);
        if at.Some? { UpdateInv(n.(cache := r), at.value, r[at.value].(nscount := 1)); }
      case Some(i) =>
        var e := n.cache[i];
        assert EntryOk(e, n.heard);
        if e.state == Stale { UpdateInv(n, i, e.(state := Delay, nscount := 0)); }
        var r := Output(n, hop, now).0;
        assert e.state != Incomplete ==> i < |r.cache| && r.cache[i].used && r.cache[i].state in {Reachable, Delay, Probe};
    }
  }

  lemma NsOptionInv(n: Net, src: Ip, ll: Ll, now: nat)
    requires Inv(n)
    ensures Inv(NsOption(n, src, ll, now)) && |NsOption(n, src, ll, now).cache| == |n.cache|
  {
    var n1 := Remember(n, src, ll);
    RememberInv(n, src, ll);
    AddInv(n1, src, ll, false, Stale, now);
    AddExact(n.cache, src, ll, false, Stale, now);
    hide Add, Distinct;
    match Lookup(n.cache, src) {
      case None =>
      case Some(k) =>
        assert EntryOk(n1.cache[k], n1.heard);
        UpdateInv(n1, k, NsOption(n, src, ll, now).cache[k]);
    }
  }

  lemma {:induction false} NsInputInv(n: Net, src: Option<Ip>, opts: seq<Opt>, now: nat)
    requires Inv(n)
    ensures Inv(NsInput(n, src, opts, now)) && |NsInput(n, src, opts, now).cache| == |n.cache|
    decreases |opts|
  {
    hide Inv, NsOption;
    if !(opts == [] || opts[0] == Malformed || (opts[0].Lladdr? && src.None?)) {
      if opts[0].Lladdr? {
        NsOptionInv(n, src.value, opts[0].ll, now);
        NsInputInv(NsOption(n, src.value, opts[0].ll, now), src, opts[1..], now);
      } else {
        NsInputInv(n, src, opts[1..], now);
      }
    }
  }

  lemma NaInputInv(n: Net, target: Ip, opts: seq<Opt>, f: Flags)
    requires Inv(n)
    ensures Inv(NaInput(n, target, opts, f)) && |NaInput(n, target, opts, f).cache| == |n.cache|
  {
    match LastLladdr(opts, None) {
      case None =>
      case Some(tlla) =>
        var n1 := if tlla.Some? then Remember(n, target, tlla.value) else n;
        if tlla.Some? { RememberInv(n, target, tlla.value); }
        match Lookup(n.cache, target) {
          case None =>
          case Some(k) =>
            assert EntryOk(n1.cache[k], n1.heard);
            UpdateInv(n1, k, Advertised(n1.cache[k], tlla, f));
        }
    }
  }

  lemma RaOptionInv(n: Net, src: Ip, ll: Ll, now: nat)
    requires Inv(n)
    ensures Inv(RaOption(n, src, ll, now)) && |RaOption(n, src, ll, now).cache| == |n.cache|
  {
    var n1 := Remember(n, src, ll);
    RememberInv(n, src, ll);
    AddInv(n1, src, ll, true, Stale, now);
    AddExact(n.cache, src, ll, true, Stale, now);
    hide Add, Distinct;
    match Lookup(n.cache, src) {
      case None =>
      case Some(k) =>
        assert EntryOk(n1.cache[k], n1.heard);
        UpdateInv(n1, k, RaOption(n, src, ll, now).cache[k]);
    }
  }

  lemma {:induction false} RaOptionsInv(n: Net, src: Ip, opts: seq<Opt>, now: nat)
    requires Inv(n)
    ensures Inv(RaOptions(n, src, opts, now).0) && |RaOptions(n, src, opts, now).0.cache| == |n.cache|
    decreases |opts|
  {
    hide Inv, RaOption;
    if opts != [] && opts[0] != Malformed {
      if opts[0].Lladdr? {
        RaOptionInv(n, src, opts[0].ll, now);
        RaOptionsInv(RaOption(n, src, opts[0].ll, now), src, opts[1..], now);
      } else {
        RaOptionsInv(n, src, opts[1..], now);
      }
    }
  }

  lemma RaInputInv(n: Net, src: Ip, opts: seq<Opt>, routerLifetime: nat, now: nat)
    requires Inv(n)
    ensures Inv(RaInput(n, src, opts, routerLifetime, now))
      && |RaInput(n, src, opts, routerLifetime, now).cache| == |n.cache|
  {
    RaOptionsInv(n, src, opts, now);
    hide RaOptions;
    var n1 := RaOptions(n, src, opts, now).0;
    var marked := Marked(n, src, opts, routerLifetime, now);
    if marked.Some? {
      var k := marked.value;
      assert EntryOk(n1.cache[k], n1.heard);
      SameAddressInv(n1, k, n1.cache[k].(isrouter := true));
    }
  }

  lemma SameAddressInv(n: Net, k: nat, e: Entry)
    requires Inv(n) && k < |n.cache| && EntryOk(e, n.heard) && e.used == n.cache[k].used && e.ip == n.cache[k].ip
    ensures Inv(n.(cache := n.cache[k := e]))
  {}

  lemma PeriodicInv(n: Net, due: set<nat>)
    requires Inv(n)
    ensures Inv(n.(cache := Periodic(n.cache, due)))
  {
    var r := Periodic(n.cache, due);
    hide Periodic, Tick;
    forall i | 0 <= i < |r|
      ensures EntryOk(r[i], n.heard) && (r[i].used ==> n.cache[i].used && r[i].ip == n.cache[i].ip)
    {
      assert EntryOk(n.cache[i], n.heard);
      TickKeeps(n.cache[i], i in due, n.heard);
    }
  }

  lemma TickKeeps(e: Entry, due: bool, heard: set<(Ip, Ll)>)
    requires EntryOk(e, heard)
    ensures EntryOk(Tick(e, due), heard) && (Tick(e, due).used ==> e.used && Tick(e, due).ip == e.ip)
  {}

  lemma PassInv(n: Net, due: set<nat>)
    requires Inv(n)
    ensures var (r, f) := Pass(n, due);
            Inv(r) && |r.cache| == |n.cache| && r.heard == n.heard && (f.Unicast? ==> (f.hop, f.ll) in n.heard)
  {
    PeriodicInv(n, due);
    hide Distinct, Periodic;
    var last := LastSolicited(n.cache, due, |n.cache|);
    if last.Some? { assert EntryOk(n.cache[last.value], n.heard); }
  }

  lemma FoundAt(c: Cache, ip: Ip, k: nat)
    requires Distinct(c) && k < |c| && c[k].used && c[k].ip == ip
    ensures Lookup(c, ip) == Some(k)
  {
    var i := Lookup(c, ip).value;
    assert c[i].ip == c[k].ip;
  }

  /** `tcpip_ipv6_output` sends a unicast solicitation through the very entry it probes, and changes nothing. */
  lemma ProbeGoesOut(n: Net, due: set<nat>, now: nat, k: nat)
    requires Inv(n) && LastSolicited(n.cache, due, |n.cache|) == Some(k) && n.cache[k].state != Incomplete
    ensures var (r, f) := Pass(n, due); Output(r, n.cache[k].ip, now) == (r, f)
  {
    PeriodicInv(n, due);
    var r := Pass(n, due).0;
    assert Distinct(r.cache);
    hide Inv, Add;
    assert r.cache[k] == Tick(n.cache[k], true);
    FoundAt(r.cache, n.cache[k].ip, k);
  }

  /** Every step keeps the invariant and the size of the cache. */
  lemma StepInv(n: Net, e: Event)
    requires Inv(n)
    ensures var (r, f) := Step(n, e);
            Inv(r) && |r.cache| == |n.cache| && (f.Unicast? ==> (f.hop, f.ll) in r.heard)
  {
    hide Inv, Output, NsInput, NaInput, RaInput, Add;
    match e {
      case Send(hop, now) => OutputInv(n, hop, now); OutputSize(n, hop, now);
      case Ns(src, opts, now) => NsInputInv(n, src, opts, now);
      case Na(target, opts, f) => NaInputInv(n, target, opts, f);
      case Ra(src, opts, lifetime, now) => RaInputInv(n, src, opts, lifetime, now);
      case Rpl(src, ll, now) =>
        RememberInv(n, src, ll);
        AddExact(n.cache, src, ll, false, Reachable, now);
        AddInv(Remember(n, src, ll), src, ll, false, Reachable, now);
      case Timer(due) => PassInv(n, due);
    }
  }

  lemma OutputSize(n: Net, hop: Ip, now: nat)
    ensures |Output(n, hop, now).0.cache| == |n.cache|
  {
    AddExact(n.cache, hop, NO_LL, false, Incomplete, now);
    hide Add, Lookup;
    var (r, at) := Add(n.cache, hop, NO_LL, false, Incomplete, now);
    assert |r| == |n.cache|;
  }

  /** The frames of a run, and its last state. */
  function Run(n: Net, events: seq<Event>): (Net, seq<Frame>)
    decreases |events|
  {
    if events == [] then (n, [])
    else
      var (m, f) := Step(n, events[0]);
      var (r, fs) := Run(m, events[1..]);
      (r, [f] + fs)
  }

  predicate Blank(n: Net) { forall i :: 0 <= i < |n.cache| ==> !n.cache[i].used }

  /** Over every run from an empty cache: addresses distinct, at most three solicitations counted, and every
      unicast frame ever sent went to a link-layer address received for its next hop. */
  lemma RunSafe(n: Net, events: seq<Event>)
    requires Blank(n)
    ensures var (r, fs) := Run(n, events);
            Inv(r) && forall k :: 0 <= k < |fs| && fs[k].Unicast? ==> (fs[k].hop, fs[k].ll) in r.heard
  {
    RunInv(n, events);
  }

  lemma {:induction false} RunInv(n: Net, events: seq<Event>)
    requires Inv(n)
    ensures var (r, fs) := Run(n, events);
            && Inv(r) && n.heard <= r.heard
            && forall k :: 0 <= k < |fs| && fs[k].Unicast? ==> (fs[k].hop, fs[k].ll) in r.heard
    decreases |events|
  {
    hide Inv, Step;
    if events != [] {
      StepInv(n, events[0]);
      HeardGrows(n, events[0]);
      RunInv(Step(n, events[0]).0, events[1..]);
    }
  }

  lemma HeardGrows(n: Net, e: Event)
    ensures n.heard <= Step(n, e).0.heard
  {
    hide Add;
    match e {
      case Ns(src, opts, now) => NsHeard(n, src, opts, now);
      case Ra(src, opts, lifetime, now) => RaHeard(n, src, opts, now);
      case _ =>
    }
  }

  lemma {:induction false} NsHeard(n: Net, src: Option<Ip>, opts: seq<Opt>, now: nat)
    ensures n.heard <= NsInput(n, src, opts, now).heard
    decreases |opts|
  {
    if !(opts == [] || opts[0] == Malformed || (opts[0].Lladdr? && src.None?)) {
      NsHeard(if opts[0].Lladdr? then NsOption(n, src.value, opts[0].ll, now) else n, src, opts[1..], now);
    }
  }

  lemma {:induction false} RaHeard(n: Net, src: Ip, opts: seq<Opt>, now: nat)
    ensures n.heard <= RaOptions(n, src, opts, now).0.heard
    decreases |opts|
  {
    if opts != [] && opts[0] != Malformed {
      RaHeard(if opts[0].Lladdr? then RaOption(n, src, opts[0].ll, now) else n, src, opts[1..], now);
    }
  }

  // ------------------------------------------------------------ the state diagram

  /** The moves of neighbour unreachability detection: what may become of an entry at an event. */
  predicate Moves(s: NudState, t: NudState, e: Event) {
    s == t
    || match e
       case Send(_, _) => s == Stale && t == Delay
       case Timer(_) => (s == Reachable && t == Stale) || (s == Delay && t == Probe)
       case Na(_, opts, f) =>
         if f.solicited then t == Reachable || (!f.override && s == Reachable && t == Stale) else t == Stale && Names(opts)
       case Ns(_, opts, _) => t == Stale && Names(opts)
       case Ra(_, opts, _, _) => t == Stale && Names(opts)
       case Rpl(_, _, _) => false
  }

  /** Some link-layer address came with the message. */
  predicate Names(opts: seq<Opt>) { exists i :: 0 <= i < |opts| && opts[i].Lladdr? }

  predicate Carries(opts: seq<Opt>, ll: Ll) { exists i :: 0 <= i < |opts| && opts[i] == Lladdr(ll) }

  /** The event brought `ll` for `ip`. */
  predicate Brings(e: Event, ip: Ip, ll: Ll) {
    match e
    case Ns(src, opts, _) => src == Some(ip) && Carries(opts, ll)
    case Na(target, opts, _) => target == ip && Carries(opts, ll)
    case Ra(src, opts, _, _) => src == ip && Carries(opts, ll)
    case _ => false
  }

  predicate Follows(x: Entry, y: Entry, e: Event) {
    Moves(x.state, y.state, e) && (y.ll != x.ll ==> Brings(e, x.ip, y.ll)) && y.lastLookup == x.lastLookup
  }

  /** Entry `i` is the same neighbour before and after. */
  predicate Stays(n: Net, r: Net, i: nat) {
    i < |n.cache| && i < |r.cache| && n.cache[i].used && r.cache[i].used && n.cache[i].ip == r.cache[i].ip
  }

  lemma AddStays(n: Net, ip: Ip, ll: Ll, isrouter: bool, state: NudState, now: nat, r: Net, i: nat)
    requires r.cache == Add(n.cache, ip, ll, isrouter, state, now).0 && Stays(n, r, i) && Lookup(n.cache, ip).None?
    ensures r.cache[i] == n.cache[i]
  {
    AddExact(n.cache, ip, ll, isrouter, state, now);
    hide Add;
  }

  lemma OutputFollows(n: Net, hop: Ip, now: nat, i: nat)
    requires Stays(n, Output(n, hop, now).0, i)
    ensures Follows(n.cache[i], Output(n, hop, now).0.cache[i], Send(hop, now))
  {
    AddExact(n.cache, hop, NO_LL, false, Incomplete, now);
    hide Add;
    if Lookup(n.cache, hop).None? {
      var (r, at) := Add(n.cache, hop, NO_LL, false, Incomplete, now);
      assert n.cache[i].ip != hop;
    }
  }

  lemma NaFollows(n: Net, target: Ip, opts: seq<Opt>, f: Flags, i: nat)
    requires Stays(n, NaInput(n, target, opts, f), i)
    ensures Follows(n.cache[i], NaInput(n, target, opts, f).cache[i], Na(target, opts, f))
  {
    var last := LastLladdr(opts, None);
    if last.Some? && last.value.Some? { LastIsCarried(opts, None); }
  }

  lemma {:induction false} LastIsCarried(opts: seq<Opt>, seen: Option<Ll>)
    requires LastLladdr(opts, seen).Some? && LastLladdr(opts, seen).value.Some?
    ensures LastLladdr(opts, seen).value == seen || Carries(opts, LastLladdr(opts, seen).value.value)
    decreases |opts|
  {
    if opts != [] {
      var next := if opts[0].Lladdr? then Some(opts[0].ll) else seen;
      LastIsCarried(opts[1..], next);
      var ll := LastLladdr(opts, seen).value.value;
      if Carries(opts[1..], ll) {
        var k :| 0 <= k < |opts[1..]| && opts[1..][k] == Lladdr(ll);
        assert opts[k + 1] == Lladdr(ll);
      }
    }
  }

  /** One source option, in a solicitation or an advertisement. */
  predicate OptionMoves(x: Entry, y: Entry, src: Ip, ll: Ll) {
    (y.state == x.state || y.state == Stale) && (y.ll != x.ll ==> x.ip == src && y.ll == ll)
    && y.lastLookup == x.lastLookup
  }

  lemma NsOptionMoves(n: Net, src: Ip, ll: Ll, now: nat, i: nat)
    requires Stays(n, NsOption(n, src, ll, now), i)
    ensures OptionMoves(n.cache[i], NsOption(n, src, ll, now).cache[i], src, ll)
  {
    if Lookup(n.cache, src).None? { AddStays(n, src, ll, false, Stale, now, NsOption(n, src, ll, now), i); }
    hide Add;
  }

  lemma RaOptionMoves(n: Net, src: Ip, ll: Ll, now: nat, i: nat)
    requires Stays(n, RaOption(n, src, ll, now), i)
    ensures OptionMoves(n.cache[i], RaOption(n, src, ll, now).cache[i], src, ll)
  {
    if Lookup(n.cache, src).None? { AddStays(n, src, ll, true, Stale, now, RaOption(n, src, ll, now), i); }
    hide Add;
  }

  /** What a row of source options may have done to an entry. */
  predicate RowMoves(x: Entry, y: Entry, src: Ip, opts: seq<Opt>) {
    (y.state == x.state || (y.state == Stale && Names(opts))) && (y.ll != x.ll ==> x.ip == src && Carries(opts, y.ll))
    && y.lastLookup == x.lastLookup
  }

  lemma RowStep(x: Entry, m: Entry, y: Entry, src: Ip, opts: seq<Opt>)
    requires opts != [] && RowMoves(m, y, src, opts[1..]) && x.ip == m.ip
    requires if opts[0].Lladdr? then OptionMoves(x, m, src, opts[0].ll) else m == x
    ensures RowMoves(x, y, src, opts)
  {
    if Names(opts[1..]) {
      var k :| 0 <= k < |opts[1..]| && opts[1..][k].Lladdr?;
      assert opts[k + 1].Lladdr?;
    }
    if Carries(opts[1..], y.ll) {
      var k :| 0 <= k < |opts[1..]| && opts[1..][k] == Lladdr(y.ll);
      assert opts[k + 1] == Lladdr(y.ll);
    }
  }

  /** An entry of the sender stays one. */
  predicate Is(n: Net, i: nat, src: Ip) { i < |n.cache| && n.cache[i].used && n.cache[i].ip == src }

  lemma NsOptionKeeps(n: Net, src: Ip, ll: Ll, now: nat, i: nat)
    ensures |NsOption(n, src, ll, now).cache| == |n.cache|
    ensures Is(n, i, src) ==> Is(NsOption(n, src, ll, now), i, src)
    ensures i < |n.cache| && n.cache[i].used && !Stays(n, NsOption(n, src, ll, now), i) ==>
              n.cache[i].ip != src && Is(NsOption(n, src, ll, now), i, src)
  {
    AddExact(n.cache, src, ll, false, Stale, now);
    hide Add;
  }

  lemma {:induction false} NsKeeps(n: Net, src: Ip, opts: seq<Opt>, now: nat, i: nat)
    requires Is(n, i, src)
    ensures Is(NsInput(n, Some(src), opts, now), i, src)
    decreases |opts|
  {
    hide NsOption, Is;
    if opts != [] && opts[0] != Malformed {
      if opts[0].Lladdr? {
        NsOptionKeeps(n, src, opts[0].ll, now, i);
        NsKeeps(NsOption(n, src, opts[0].ll, now), src, opts[1..], now, i);
      } else {
        NsKeeps(n, src, opts[1..], now, i);
      }
    }
  }

  lemma {:induction false} NsFollows(n: Net, src: Option<Ip>, opts: seq<Opt>, now: nat, i: nat)
    requires Stays(n, NsInput(n, src, opts, now), i)
    ensures var y := NsInput(n, src, opts, now).cache[i];
            if src.None? then y == n.cache[i] else RowMoves(n.cache[i], y, src.value, opts)
    decreases |opts|
  {
    hide NsOption, RowMoves, OptionMoves;
    if opts == [] || opts[0] == Malformed || (opts[0].Lladdr? && src.None?) {
      if src.Some? { NoMove(n.cache[i], src.value, opts); }
    } else if !opts[0].Lladdr? {
      NsFollows(n, src, opts[1..], now, i);
      if src.Some? { RowStep(n.cache[i], n.cache[i], NsInput(n, src, opts, now).cache[i], src.value, opts); }
    } else {
      var m := NsOption(n, src.value, opts[0].ll, now);
      NsOptionKeeps(n, src.value, opts[0].ll, now, i);
      if Stays(n, m, i) {
        NsOptionMoves(n, src.value, opts[0].ll, now, i);
        NsFollows(m, src, opts[1..], now, i);
        RowStep(n.cache[i], m.cache[i], NsInput(n, src, opts, now).cache[i], src.value, opts);
      } else {
        NsKeeps(m, src.value, opts[1..], now, i);
        assert false;
      }
    }
  }

  lemma NoMove(x: Entry, src: Ip, opts: seq<Opt>)
    ensures RowMoves(x, x, src, opts)
  {}

  lemma RaOptionKeeps(n: Net, src: Ip, ll: Ll, now: nat, i: nat)
    ensures |RaOption(n, src, ll, now).cache| == |n.cache|
    ensures Is(n, i, src) ==> Is(RaOption(n, src, ll, now), i, src)
    ensures i < |n.cache| && n.cache[i].used && !Stays(n, RaOption(n, src, ll, now), i) ==>
              n.cache[i].ip != src && Is(RaOption(n, src, ll, now), i, src)
  {
    AddExact(n.cache, src, ll, true, Stale, now);
    hide Add;
  }

  lemma {:induction false} RaKeeps(n: Net, src: Ip, opts: seq<Opt>, now: nat, i: nat)
    requires Is(n, i, src)
    ensures Is(RaOptions(n, src, opts, now).0, i, src)
    decreases |opts|
  {
    hide RaOption, Is;
    if opts != [] && opts[0] != Malformed {
      if opts[0].Lladdr? {
        RaOptionKeeps(n, src, opts[0].ll, now, i);
        RaKeeps(RaOption(n, src, opts[0].ll, now), src, opts[1..], now, i);
      } else {
        RaKeeps(n, src, opts[1..], now, i);
      }
    }
  }

  lemma {:induction false} RaFollows(n: Net, src: Ip, opts: seq<Opt>, now: nat, i: nat)
    requires Stays(n, RaOptions(n, src, opts, now).0, i)
    ensures RowMoves(n.cache[i], RaOptions(n, src, opts, now).0.cache[i], src, opts)
    decreases |opts|
  {
    hide RaOption, RowMoves, OptionMoves;
    if opts == [] || opts[0] == Malformed {
      NoMove(n.cache[i], src, opts);
    } else if !opts[0].Lladdr? {
      RaFollows(n, src, opts[1..], now, i);
      RowStep(n.cache[i], n.cache[i], RaOptions(n, src, opts, now).0.cache[i], src, opts);
    } else {
      var m := RaOption(n, src, opts[0].ll, now);
      RaOptionKeeps(n, src, opts[0].ll, now, i);
      if Stays(n, m, i) {
        RaOptionMoves(n, src, opts[0].ll, now, i);
        RaFollows(m, src, opts[1..], now, i);
        RowStep(n.cache[i], m.cache[i], RaOptions(n, src, opts, now).0.cache[i], src, opts);
      } else {
        RaKeeps(m, src, opts[1..], now, i);
        assert false;
      }
    }
  }

  /** Every step follows the diagram: only a solicited advertisement confirms a neighbour as reachable, only
      a packet sent starts the delay, only a timer the probing, and a link-layer address changes only to
      one the message brought for that very neighbour. No step changes the time noted for the neighbour. */
  lemma StepFollows(n: Net, e: Event, i: nat)
    requires Stays(n, Step(n, e).0, i)
    ensures Follows(n.cache[i], Step(n, e).0.cache[i], e)
  {
    hide Add, Output, NsInput, NaInput, RaOptions, Follows;
    match e {
      case Send(hop, now) => OutputFollows(n, hop, now, i);
      case Na(target, opts, f) => NaFollows(n, target, opts, f, i);
      case Ns(src, opts, now) =>
        NsFollows(n, src, opts, now, i);
        NsRow(n.cache[i], NsInput(n, src, opts, now).cache[i], e);
      case Ra(src, opts, lifetime, now) =>
        RaFollows(n, src, opts, now, i);
        RaRow(n.cache[i], RaInput(n, src, opts, lifetime, now).cache[i], RaOptions(n, src, opts, now).0.cache[i], e);
      case Rpl(src, ll, now) =>
        if Lookup(n.cache, src).None? { AddStays(n, src, ll, false, Reachable, now, Step(n, e).0, i); }
        Unmoved(n.cache[i], e);
      case Timer(due) => TimerRow(n.cache[i], i in due, e);
    }
  }

  lemma NsRow(x: Entry, y: Entry, e: Event)
    requires e.Ns? && if e.nsSrc.None? then y == x else RowMoves(x, y, e.nsSrc.value, e.nsOpts)
    ensures Follows(x, y, e)
  {}

  lemma RaRow(x: Entry, y: Entry, z: Entry, e: Event)
    requires e.Ra? && RowMoves(x, z, e.raSrc, e.raOpts) && y == z.(isrouter := y.isrouter)
    ensures Follows(x, y, e)
  {}

  lemma Unmoved(x: Entry, e: Event)
    ensures Follows(x, x, e)
  {}

  lemma TimerRow(x: Entry, due: bool, e: Event)
    requires e.Timer?
    ensures Follows(x, Tick(x, due), e)
  {}

  // -------------------------------------------------------------------- liveness

  /** Resolution end to end: after the broadcast solicitation for an unknown next hop, one advertisement of
      its link-layer address, with any flags, is enough for the next packet to be sent there. */
  lemma Resolves(n: Net, hop: Ip, now: nat, later: nat, ll: Ll, f: Flags)
    requires Inv(n) && Output(n, hop, now).1.Broadcast?
    ensures var asked := Output(n, hop, now).0;
            var told := NaInput(asked, hop, [Lladdr(ll)], f);
            Output(told, hop, later).1 == Unicast(hop, ll)
  {
    OutputInv(n, hop, now);
    AddExact(n.cache, hop, NO_LL, false, Incomplete, now);
    hide Add;
    var asked := Output(n, hop, now).0;
    var at := Add(n.cache, hop, NO_LL, false, Incomplete, now).1.value;
    FoundAt(asked.cache, hop, at);
    assert asked.cache[at].state == Incomplete;
    hide Output;
    assert [Lladdr(ll)][1..] == [];
    assert LastLladdr([Lladdr(ll)], None) == LastLladdr([], Some(ll)) == Some(Some(ll));
    var told := NaInput(asked, hop, [Lladdr(ll)], f);
    NaInputInv(asked, hop, [Lladdr(ll)], f);
    FoundAt(told.cache, hop, at);
    SendKnown(told, hop, later, at);
  }

  lemma SendKnown(n: Net, hop: Ip, now: nat, k: nat)
    requires Lookup(n.cache, hop) == Some(k) && n.cache[k].state != Incomplete
    ensures Output(n, hop, now).1 == Unicast(hop, n.cache[k].ll)
  {}

  // ------------------------------------------------------------------- the table

  /** A solicitation in `uip_buf`: no destination stands for the solicited-node group of the target. */
  datatype Solicit = Solicit(dest: Option<Ip>, target: Ip)

  function Ask(e: Entry): Solicit { Solicit(if e.state == Incomplete then None else Some(e.ip), e.ip) }

  function Built(c: Cache, due: set<nat>, n: nat): Option<Solicit>
    requires n <= |c|
  {
    var last := LastSolicited(c, due, n);
    if last.None? then None else Some(Ask(c[last.value]))
  }

  /** `memcpy` or `memset`. */
  function OrZeros(ll: Option<Ll>): Ll { if ll.Some? then ll.value else NO_LL }

  lemma UnusedRests(e: Entry, due: bool)
    requires !e.used
    ensures Tick(e, due) == e && !Solicits(e, due)
  {}

  /** `uip_ds6_nbr_cache`, its entries updated in place, with the static pointer of uip_nd6.c. */
  class NeighborTable {
    const entries: array<Entry>
    var nbr: Option<nat>
    ghost var heard: set<(Ip, Ll)>

    ghost function Value(): Net
      reads this, entries
    {
      Net(entries[..], nbr, heard)
    }

    /** `uip_ds6_init`: all zeros. */
    constructor (size: nat)
      ensures fresh(entries) && Blank(Value()) && |Value().cache| == size && nbr.None? && heard == {}
    {
      entries := new Entry[size](_ => Entry(false, Zeros(16), NO_LL, 0, false, Incomplete, 0));
      nbr, heard := None, {};
    }

    /** `uip_ds6_nbr_lookup`. */
    method Find(ip: Ip) returns (r: Option<nat>)
      ensures r == Lookup(entries[..], ip)
    {
      var found := Ds6List.Search(entries, Key, ip, WHOLE);
      r := if found.Found? then Some(found.at) else None;
    }

    /** The search for the entry to give up. */
    method FindOldest(now: nat) returns (oldest: Option<nat>)
      ensures oldest == Oldest(entries[..], now)
    {
      oldest := None;
      var oldestTime: nat := now;
      var n := 0;
      while n < entries.Length
        invariant 0 <= n <= entries.Length
        invariant oldest.Some? ==> oldest.value < n && entries[oldest.value].used && entries[oldest.value].lastLookup == oldestTime
        invariant forall j :: 0 <= j < n && entries[j].used ==> oldestTime <= entries[j].lastLookup
        invariant Oldest(entries[..], now) == OldestFrom(entries[..], n, oldest, oldestTime)
      {
        if entries[n].used {
          if entries[n].lastLookup < oldestTime {
            oldest := Some(n);
            oldestTime := entries[n].lastLookup;
          }
        }
        n := n + 1;
      }
    }

    /** `uip_ds6_nbr_add`. */
    method Insert(ip: Ip, ll: Option<Ll>, isrouter: bool, state: NudState, now: nat) returns (at: Option<nat>)
      modifies entries
      ensures (entries[..], at) == Add(old(entries[..]), ip, OrZeros(ll), isrouter, state, now)
      ensures nbr == old(nbr) && heard == old(heard)
      decreases if AllUsed(entries[..]) then 1 else 0
    {
      var r := Ds6List.Search(entries, Key, ip, WHOLE);
      match r {
        case FreeSpace(i) =>
          entries[i] := Fresh(ip, OrZeros(ll), isrouter, state, now);
          return Some(i);
        case NoSpace =>
          NoSpaceIsFull(entries[..], ip);
          var oldest := FindOldest(now);
          if oldest.Some? {
            Remove(oldest.value);
            assert !entries[..][oldest.value].used;
            at := Insert(ip, ll, isrouter, state, now);
            return;
          }
          return None;
        case Found(_) => return None;
      }
    }

    /** `uip_ds6_nbr_rm`. */
    method Remove(i: nat)
      requires i < entries.Length
      modifies entries
      ensures entries[..] == old(entries[..])[i := old(entries[i]).(used := false)]
    {
      entries[i] := entries[i].(used := false);
    }

    /** The neighbour part of `tcpip_ipv6_output`. */
    method SendTo(hop: Ip, now: nat) returns (f: Frame)
      requires Inv(Value())
      modifies entries
      ensures nbr == old(nbr) && heard == old(heard) && (Value(), f) == Output(old(Value()), hop, now)
      ensures Inv(Value()) && (f.Unicast? ==> f.hop == hop && (hop, f.ll) in heard)
    {
      OutputInv(Value(), hop, now);
      hide Inv, Add;
      var at := Find(hop);
      if at.None? {
        AddExact(entries[..], hop, NO_LL, false, Incomplete, now);
        at := Insert(hop, None, false, Incomplete, now);
        if at.None? { return NoFrame; }
        entries[at.value] := entries[at.value].(nscount := 1);
        return Broadcast(hop);
      }
      var i := at.value;
      if entries[i].state == Incomplete { return NoFrame; }
      if entries[i].state == Stale {
        entries[i] := entries[i].(state := Delay, nscount := 0);
      }
      f := Unicast(hop, entries[i].ll);
    }

    /** One source link-layer address option of a Neighbor Solicitation. */
    method TakeNsOption(src: Ip, ll: Ll, now: nat)
      modifies this, entries
      ensures Value() == NsOption(old(Value()), src, ll, now)
    {
      hide Add;
      nbr := Find(src);
      heard := heard + {(src, ll)};
      if nbr.None? {
        var _ := Insert(src, Some(ll), false, Stale, now);
      } else {
        var k := nbr.value;
        if entries[k].ll != ll {
          entries[k] := entries[k].(ll := ll);
          entries[k] := entries[k].(state := Stale);
        } else if entries[k].state == Incomplete {
          entries[k] := entries[k].(state := Stale);
        }
      }
    }

    /** The option loop of `uip_nd6_ns_input`. */
    method ReceiveNs(src: Option<Ip>, opts: seq<Opt>, now: nat)
      modifies this, entries
      ensures Value() == NsInput(old(Value()), src, opts, now)
    {
      hide NsOption;
      var i := 0;
      while i < |opts|
        invariant 0 <= i <= |opts|
        invariant NsInput(Value(), src, opts[i..], now) == NsInput(old(Value()), src, opts, now)
      {
        assert opts[i..][1..] == opts[i + 1..];
        if opts[i] == Malformed { return; }
        if opts[i].Lladdr? {
          if src.None? { return; }
          TakeNsOption(src.value, opts[i].ll, now);
        }
        i := i + 1;
      }
    }

    /** `uip_nd6_na_input`. */
    method ReceiveNa(target: Ip, opts: seq<Opt>, flags: Flags)
      modifies this, entries
      ensures Value() == NaInput(old(Value()), target, opts, flags)
    {
      var llao: Option<Ll> := None;
      var i := 0;
      while i < |opts|
        invariant 0 <= i <= |opts|
        invariant LastLladdr(opts[i..], llao) == LastLladdr(opts, None)
      {
        assert opts[i..][1..] == opts[i + 1..];
        if opts[i] == Malformed { return; }
        if opts[i].Lladdr? { llao := Some(opts[i].ll); }
        i := i + 1;
      }
      if llao.Some? { heard := heard + {(target, llao.value)}; }
      nbr := Find(target);
      if nbr.Some? { ApplyAdvertisement(nbr.value, llao, flags); }
    }

    /** The part of `uip_nd6_na_input` that updates the entry. */
    method ApplyAdvertisement(k: nat, llao: Option<Ll>, flags: Flags)
      requires k < entries.Length
      modifies entries
      ensures entries[..] == old(entries[..])[k := Advertised(old(entries[k]), llao, flags)]
    {
      var isLlchange := llao.Some? && llao.value != entries[k].ll;
      if entries[k].state == Incomplete {
        if llao.None? { return; }
        entries[k] := entries[k].(ll := llao.value);
        if flags.solicited {
          entries[k] := entries[k].(state := Reachable, nscount := 0);
        } else {
          entries[k] := entries[k].(state := Stale);
        }
      } else {
        if !flags.override && isLlchange {
          if entries[k].state == Reachable { entries[k] := entries[k].(state := Stale); }
          return;
        }
        if flags.override || (!flags.override && llao.Some? && !isLlchange) || llao.None? {
          if llao.Some? { entries[k] := entries[k].(ll := llao.value); }
          if flags.solicited {
            entries[k] := entries[k].(state := Reachable);
          } else if llao.Some? && isLlchange {
            entries[k] := entries[k].(state := Stale);
          }
        }
      }
      entries[k] := entries[k].(isrouter := flags.router);
    }

    /** One source link-layer address option of a Router Advertisement. */
    method TakeRaOption(src: Ip, ll: Ll, now: nat)
      modifies this, entries
      ensures Value() == RaOption(old(Value()), src, ll, now)
    {
      hide Add;
      heard := heard + {(src, ll)};
      nbr := Find(src);
      if nbr.None? {
        nbr := Insert(src, Some(ll), true, Stale, now);
      } else {
        var k := nbr.value;
        if entries[k].state == Incomplete { entries[k] := entries[k].(state := Stale); }
        if entries[k].ll != ll { entries[k] := entries[k].(ll := ll, state := Stale); }
        entries[k] := entries[k].(isrouter := true);
      }
    }

    /** `uip_nd6_ra_input`, as far as neighbours go. */
    method ReceiveRa(src: Ip, opts: seq<Opt>, routerLifetime: nat, now: nat)
      modifies this, entries
      ensures Value() == RaInput(old(Value()), src, opts, routerLifetime, now)
    {
      hide RaOption;
      var i := 0;
      while i < |opts|
        invariant 0 <= i <= |opts|
        invariant RaOptions(Value(), src, opts[i..], now) == RaOptions(old(Value()), src, opts, now)
      {
        assert opts[i..][1..] == opts[i + 1..];
        if opts[i] == Malformed { return; }
        if opts[i].Lladdr? { TakeRaOption(src, opts[i].ll, now); }
        i := i + 1;
      }
      if routerLifetime != 0 && nbr.Some? && nbr.value < entries.Length {
        entries[nbr.value] := entries[nbr.value].(isrouter := true);
      }
    }

    /** The neighbour loop of `uip_ds6_periodic`; `buf` is what `uip_nd6_ns_output` wrote into it last. */
    method Periodically(due: set<nat>) returns (buf: Option<Solicit>)
      modifies entries
      ensures Value() == old(Value()).(cache := Periodic(old(entries[..]), due))
      ensures buf == Built(old(entries[..]), due, entries.Length)
    {
      hide Tick, Solicits;
      buf := None;
      ghost var was := entries[..];
      var i := 0;
      while i < entries.Length
        invariant 0 <= i <= entries.Length
        invariant forall j :: 0 <= j < entries.Length ==> entries[j] == if j < i then Tick(was[j], j in due) else was[j]
        invariant buf == Built(was, due, i)
      {
        assert entries[i] == was[i];
        assert Built(was, due, i + 1) == if Solicits(was[i], i in due) then Some(Ask(was[i])) else Built(was, due, i);
        if entries[i].used {
          var ns := Expire(i, i in due);
          if ns.Some? { buf := ns; }
        } else {
          UnusedRests(was[i], i in due);
        }
        i := i + 1;
      }
      assert entries[..] == Periodic(was, due);
    }

    /** The switch over the state of a used entry; `expired`: the timer it waits for. */
    method Expire(i: nat, expired: bool) returns (ns: Option<Solicit>)
      requires i < entries.Length && entries[i].used
      modifies entries
      ensures entries[..] == old(entries[..])[i := Tick(old(entries[i]), expired)]
      ensures ns == if Solicits(old(entries[i]), expired) then Some(Ask(old(entries[i]))) else None
    {
      ns := None;
      var ip := entries[i].ip;
      match entries[i].state {
        case Incomplete =>
          if entries[i].nscount >= MAX_MULTICAST_SOLICIT {
            entries[i] := entries[i].(used := false);
          } else if expired {
            entries[i] := entries[i].(nscount := entries[i].nscount + 1);
            ns := Some(Solicit(None, ip));
          }
        case Reachable =>
          if expired { entries[i] := entries[i].(state := Stale); }
        case Delay =>
          if expired {
            entries[i] := entries[i].(state := Probe, nscount := 1);
            ns := Some(Solicit(Some(ip), ip));
          }
        case Probe =>
          if entries[i].nscount >= MAX_UNICAST_SOLICIT {
            entries[i] := entries[i].(used := false);
          } else if expired {
            entries[i] := entries[i].(nscount := entries[i].nscount + 1);
            ns := Some(Solicit(Some(ip), ip));
          }
        case Stale =>
      }
    }

    /** The periodic timer event: the pass, then one `tcpip_ipv6_output` for whatever the buffer holds. */
    method TimerEvent(due: set<nat>, now: nat) returns (f: Frame)
      requires Inv(Value())
      modifies entries
      ensures nbr == old(nbr) && heard == old(heard) && (Value(), f) == Pass(old(Value()), due)
      ensures Inv(Value())
    {
      ghost var was := Value();
      PassInv(was, due);
      hide Inv, Periodic, Output;
      var buf := Periodically(due);
      if buf.None? { return NoFrame; }
      ghost var last := LastSolicited(was.cache, due, |was.cache|).value;
      if buf.value.dest.None? { return Broadcast(buf.value.target); }
      ProbeGoesOut(was, due, now, last);
      f := SendTo(buf.value.dest.value, now);
    }
  }
}
