// The routing table and the source address selection of uip_ds6.c: longest prefix
// match, what runs of insertions keep, and the number of common leading bits.
module Routes {
  import opened Bits
  import opened Bytes
  import opened Ds6List

  datatype Route = Route(used: bool, ip: Ip, length: nat, metric: nat, nexthop: Ip)

  type Table = seq<Route>

  function Key(e: Route): Option<Ip> { if e.used then Some(e.ip) else None }

  /** Prefix lengths are those of addresses. */
  predicate Sound(t: Table) { forall i :: 0 <= i < |t| ==> t[i].length <= WHOLE }

  /** Element `i` is a route for `dest`. */
  predicate Covers(t: Table, i: nat, dest: Ip)
    requires Sound(t) && i < |t|
  {
    t[i].used && SamePrefix(dest, t[i].ip, t[i].length)
  }

  // ---------------------------------------------------------------------- lookup

  function LookupFrom(t: Table, dest: Ip, i: nat, longest: nat, found: Option<nat>): Option<nat>
    requires Sound(t) && i <= |t|
    decreases |t| - i
  {
    if i == |t| then found
    else if t[i].used && t[i].length >= longest && SamePrefix(dest, t[i].ip, t[i].length) then
      LookupFrom(t, dest, i + 1, t[i].length, Some(i))
    else LookupFrom(t, dest, i + 1, longest, found)
  }

  /** `uip_ds6_route_lookup`. */
  function RouteLookup(t: Table, dest: Ip): Option<nat>
    requires Sound(t)
  {
    LookupFrom(t, dest, 0, 0, None)
  }

  /** `r` is the best among the first `n` routes: the longest, and of those the last. */
  ghost predicate BestOf(t: Table, dest: Ip, n: nat, r: Option<nat>)
    requires Sound(t) && n <= |t|
  {
    match r
    case None => forall j :: 0 <= j < n ==> !Covers(t, j, dest)
    case Some(i) =>
      && i < n && Covers(t, i, dest)
      && (forall j :: 0 <= j < n && Covers(t, j, dest) ==> t[j].length <= t[i].length)
      && (forall j :: i < j < n && Covers(t, j, dest) ==> t[j].length < t[i].length)
  }

  lemma {:induction false} LookupBest(t: Table, dest: Ip, i: nat, longest: nat, found: Option<nat>)
    requires Sound(t) && i <= |t| && BestOf(t, dest, i, found)
    requires longest == if found.Some? then t[found.value].length else 0
    ensures BestOf(t, dest, |t|, LookupFrom(t, dest, i, longest, found))
    decreases |t| - i
  {
    hide SamePrefix;
    if i < |t| {
      if t[i].used && t[i].length >= longest && SamePrefix(dest, t[i].ip, t[i].length) {
        LookupBest(t, dest, i + 1, t[i].length, Some(i));
      } else {
        LookupBest(t, dest, i + 1, longest, found);
      }
    }
  }

  /** No route exactly when none covers the destination, else one of maximal length that does. */
  lemma LookupExact(t: Table, dest: Ip)
    requires Sound(t)
    ensures BestOf(t, dest, |t|, RouteLookup(t, dest))
  {
    LookupBest(t, dest, 0, 0, None);
  }

  // ------------------------------------------------------------------ insert, remove

  /** `uip_ds6_route_add`: the new table, and the element the caller gets. */
  function RouteAdd(t: Table, ip: Ip, length: nat, nexthop: Ip, metric: nat): (Table, Option<nat>)
    requires length <= WHOLE
  {
    match ListLoop(t, Key, ip, length)
    case FreeSpace(i) => (t[i := Route(true, ip, length, metric, nexthop)], Some(i))
    case Found(i) => (t, Some(i))
    case NoSpace => (t, None)
  }

  /** `uip_ds6_route_rm`. */
  function RouteRm(t: Table, i: nat): Table
    requires i < |t|
  {
    t[i := t[i].(used := false)]
  }

  /** `uip_ds6_route_rm_by_nexthop`. */
  function RouteRmByNexthop(t: Table, nexthop: Ip): (r: Table)
    ensures |r| == |t|
    ensures forall i :: 0 <= i < |t| ==> r[i] == t[i].(used := t[i].used && t[i].nexthop != nexthop)
  {
    seq(|t|, i requires 0 <= i < |t| => t[i].(used := t[i].used && t[i].nexthop != nexthop))
  }

  function Longer(a: nat, b: nat): nat { if a < b then b else a }

  /** Two used routes differ within the whole octets of the longer of their prefixes. */
  predicate Separate(t: Table) {
    Sound(t)
    && forall i, j :: 0 <= i < j < |t| && t[i].used && t[j].used ==>
         !SamePrefix(t[i].ip, t[j].ip, Longer(t[i].length, t[j].length))
  }

  datatype Event = Add(ip: Ip, length: nat, nexthop: Ip, metric: nat) | Rm(at: nat) | RmByNexthop(gone: Ip)

  predicate Allowed(t: Table, e: Event) {
    match e
    case Add(_, length, _, _) => length <= WHOLE
    case Rm(i) => i < |t|
    case RmByNexthop(_) => true
  }

  function Step(t: Table, e: Event): (r: Table)
    requires Allowed(t, e)
    ensures |r| == |t|
  {
    match e
    case Add(ip, length, nexthop, metric) => RouteAdd(t, ip, length, nexthop, metric).0
    case Rm(i) => RouteRm(t, i)
    case RmByNexthop(nexthop) => RouteRmByNexthop(t, nexthop)
  }

  lemma Shorter(a: Ip, b: Ip, m: nat, n: nat)
    requires m <= n <= WHOLE && SamePrefix(a, b, n)
    ensures SamePrefix(a, b, m) && SamePrefix(b, a, m)
  {
    assert a[..m / 8] == a[..n / 8][..m / 8] && b[..m / 8] == b[..n / 8][..m / 8];
  }

  lemma AddSeparate(t: Table, ip: Ip, length: nat, nexthop: Ip, metric: nat)
    requires Separate(t) && length <= WHOLE
    ensures Separate(RouteAdd(t, ip, length, nexthop, metric).0)
  {
    hide SamePrefix;
    var found := ListLoop(t, Key, ip, length);
    if found.FreeSpace? {
      var k := found.slot;
      var r := RouteAdd(t, ip, length, nexthop, metric).0;
      forall i, j | 0 <= i < j < |r| && r[i].used && r[j].used
        ensures !SamePrefix(r[i].ip, r[j].ip, Longer(r[i].length, r[j].length))
      {
        if i == k || j == k {
          var o := if i == k then j else i;
          assert !Matches(Key, t[o], ip, length);
          var longer := Longer(r[i].length, r[j].length);
          if SamePrefix(r[i].ip, r[j].ip, longer) {
            Shorter(r[i].ip, r[j].ip, length, longer);
          }
        }
      }
    }
  }

  /** Every insertion and removal keeps the routes separate. */
  lemma StepSeparate(t: Table, e: Event)
    requires Separate(t) && Allowed(t, e)
    ensures Separate(Step(t, e))
  {
    hide SamePrefix;
    match e {
      case Add(ip, length, nexthop, metric) => AddSeparate(t, ip, length, nexthop, metric);
      case Rm(i) =>
      case RmByNexthop(nexthop) =>
        var r := RouteRmByNexthop(t, nexthop);
        assert forall i :: 0 <= i < |r| ==> r[i].ip == t[i].ip && r[i].length == t[i].length && (r[i].used ==> t[i].used);
    }
  }

  /** What becomes of each route: a removed one is only marked unused, and so are all over a next hop that is gone; what an
      insertion does is `AddExact`. */
  lemma RemovedExact(t: Table, k: nat, gone: Ip, i: nat)
    requires k < |t| && i < |t|
    ensures Step(t, Rm(k))[i] == if i == k then t[i].(used := false) else t[i]
    ensures Step(t, RmByNexthop(gone))[i] == if t[i].used && t[i].nexthop == gone then t[i].(used := false) else t[i]
  {}

  predicate AllAllowed(t: Table, events: seq<Event>) {
    forall i :: 0 <= i < |events| ==> Allowed(t, events[i])
  }

  function Run(t: Table, events: seq<Event>): (r: Table)
    requires AllAllowed(t, events)
    ensures |r| == |t|
    decreases |events|
  {
    if events == [] then t
    else
      Run(Step(t, events[0]), events[1..])
  }

  /** Over every run of insertions and removals. */
  lemma {:induction false} RunSeparate(t: Table, events: seq<Event>)
    requires Separate(t) && AllAllowed(t, events)
    ensures Separate(Run(t, events))
    decreases |events|
  {
    hide Separate, Step;
    if events != [] {
      StepSeparate(t, events[0]);
      RunSeparate(Step(t, events[0]), events[1..]);
    }
  }

  lemma {:induction false} RunLast(t: Table, events: seq<Event>, e: Event)
    requires AllAllowed(t, events + [e])
    ensures AllAllowed(t, events) && Allowed(Run(t, events), e) && Run(t, events + [e]) == Step(Run(t, events), e)
    decreases |events|
  {
    hide Step;
    assert forall i :: 0 <= i < |events| ==> (events + [e])[i] == events[i];
    assert (events + [e])[|events|] == e;
    if events == [] {
      assert events + [e] == [e];
    } else {
      assert (events + [e])[0] == events[0] && (events + [e])[1..] == events[1..] + [e];
      RunLast(Step(t, events[0]), events[1..], e);
    }
  }

  /** The route at `k` is neither removed nor does its next hop go. */
  predicate Spared(events: seq<Event>, k: nat, nexthop: Ip) {
    forall e <- events :: e != Rm(k) && e != RmByNexthop(nexthop)
  }

  /** A route is in the table after any run that spares it, and what is in the table was in it or was added. */
  lemma {:induction false} RouteLives(t: Table, events: seq<Event>, k: nat)
    requires AllAllowed(t, events) && k < |t|
    ensures t[k].used && Spared(events, k, t[k].nexthop) ==> Run(t, events)[k] == t[k]
    ensures Run(t, events)[k].used && Run(t, events)[k] != t[k] ==>
              var r := Run(t, events)[k]; Add(r.ip, r.length, r.nexthop, r.metric) in events
    decreases |events|
  {
    if events != [] {
      var e, rest := events[0], events[1..];
      var u := Step(t, e);
      RouteAfter(t, e, k);
      hide Step;
      RouteLives(u, rest, k);
      assert forall x <- rest :: x in events;
      assert e in events;
    }
  }

  lemma RouteAfter(t: Table, e: Event, k: nat)
    requires Allowed(t, e) && k < |t|
    ensures t[k].used && e != Rm(k) && e != RmByNexthop(t[k].nexthop) ==> Step(t, e)[k] == t[k]
    ensures Step(t, e)[k].used && Step(t, e)[k] != t[k] ==> var r := Step(t, e)[k]; Add(r.ip, r.length, r.nexthop, r.metric) == e
  {
    match e {
      case Add(ip, length, nexthop, metric) =>
        AddExact(t, ip, length, nexthop, metric);
        hide RouteAdd, SamePrefix;
      case Rm(i) =>
      case RmByNexthop(gone) =>
    }
  }

  /** So the longest match is the only one of its length: which of equals comes last never matters. */
  lemma BestIsUnique(t: Table, dest: Ip)
    requires Separate(t) && RouteLookup(t, dest).Some?
    ensures var i := RouteLookup(t, dest).value;
            i < |t| && forall j :: 0 <= j < |t| && j != i && Covers(t, j, dest) ==> t[j].length / 8 < t[i].length / 8
  {
    LookupExact(t, dest);
    var i := RouteLookup(t, dest).value;
    forall j | 0 <= j < |t| && j != i && Covers(t, j, dest) ensures t[j].length / 8 < t[i].length / 8 {
      if t[j].length / 8 == t[i].length / 8 {
        assert SamePrefix(t[i].ip, t[j].ip, t[i].length) && SamePrefix(t[j].ip, t[i].ip, t[i].length);
      }
    }
  }

  /** A route is added exactly when no used route agrees with it on its own prefix and there is room; so
      behind a longer route inside it a shorter one is refused, and the caller gets the longer one. */
  lemma AddExact(t: Table, ip: Ip, length: nat, nexthop: Ip, metric: nat)
    requires length <= WHOLE
    ensures var (r, at) := RouteAdd(t, ip, length, nexthop, metric);
            && |r| == |t|
            && (r != t ==> at.Some? && at.value < |t| && !t[at.value].used
                           && r == t[at.value := Route(true, ip, length, metric, nexthop)])
            && (r != t <==> (exists i :: 0 <= i < |t| && !t[i].used)
                            && forall i :: 0 <= i < |t| && t[i].used ==> !SamePrefix(t[i].ip, ip, length))
  {
    hide SamePrefix;
    var found := ListLoop(t, Key, ip, length);
    match found {
      case Found(i) => assert Matches(Key, t[i], ip, length);
      case FreeSpace(i) =>
        assert Key(t[i]).None?;
        forall j | 0 <= j < |t| && t[j].used ensures !SamePrefix(t[j].ip, ip, length) {
          assert !Matches(Key, t[j], ip, length);
        }
      case NoSpace => forall j | 0 <= j < |t| ensures t[j].used { assert Key(t[j]).Some?; }
    }
  }

  /** With a route for 64 bits of an address in the table, one for 16 bits of it is refused, room or not. */
  lemma ShorterIsRefused(ip: Ip, via: Ip, nexthop: Ip)
    ensures var t := [Route(false, ip, 0, 0, via), Route(true, ip, 64, 1, via)];
            RouteAdd(t, ip, 16, nexthop, 1) == (t, Some(1))
  {
    var t := [Route(false, ip, 0, 0, via), Route(true, ip, 64, 1, via)];
    FoundUnique(t, Key, ip, 16, Found(1));
  }

  // ------------------------------------------------------------------- common bits

  /** Bit `k` of an address, from the top. */
  predicate BitAt(a: Ip, k: nat)
    requires k < WHOLE
  {
    BitOf(a[k / 8], k % 8)
  }

  /** The inner loop of `get_match_length`: zero bits in front of the first one. */
  function Leading(x: Byte, k: nat): (n: nat)
    requires k <= 8
    ensures n <= 8 - k
    decreases 8 - k
  {
    if k < 8 && x & 0x80 == 0 then 1 + Leading(x << 1, k + 1) else 0
  }

  function MatchFrom(a: Ip, b: Ip, j: nat, len: nat): nat
    requires j <= 16
    decreases 16 - j
  {
    if j == 16 then len
    else if a[j] == b[j] then MatchFrom(a, b, j + 1, len + 8)
    else len + Leading(a[j] ^ b[j], 0)
  }

  /** `get_match_length`. */
  function MatchLength(a: Ip, b: Ip): nat { MatchFrom(a, b, 0, 0) }

  /** `n` is the number of leading bits `a` and `b` have in common. */
  predicate CommonBits(a: Ip, b: Ip, n: nat) {
    && n <= WHOLE
    && (forall k :: 0 <= k < n ==> (BitAt(a, k) <==> BitAt(b, k)))
    && (n < WHOLE ==> (BitAt(a, n) <==> !BitAt(b, n)))
  }

  lemma BitXor(x: Byte, y: Byte, j: nat)
    requires j < 8
    ensures BitOf(x ^ y, j) <==> (BitOf(x, j) <==> !BitOf(y, j))
  {
    OneBit(x, j);
    OneBit(y, j);
    XorMask(x, y, Mask(j));
    hide Mask;
  }

  lemma XorMask(x: Byte, y: Byte, m: Byte)
    ensures (x ^ y) & m == (x & m) ^ (y & m)
  {}

  lemma OneBit(x: Byte, j: nat)
    requires j < 8
    ensures Mask(j) != 0 && (x & Mask(j) == 0 || x & Mask(j) == Mask(j))
  {}

  lemma BitShift(x: Byte, j: nat)
    requires j < 7
    ensures BitOf(x << 1, j) <==> BitOf(x, j + 1)
  {}

  lemma TopBit(x: Byte)
    ensures x & 0x80 == 0 <==> !BitOf(x, 0)
  {}

  /** A shift that keeps the first one in sight finds it. */
  lemma {:induction false} LeadingBits(x: Byte, k: nat)
    requires k < 8 && exists j :: 0 <= j < 8 - k && BitOf(x, j)
    ensures Leading(x, k) < 8 - k && BitOf(x, Leading(x, k))
    ensures forall j :: 0 <= j < Leading(x, k) ==> !BitOf(x, j)
    decreases 8 - k
  {
    hide BitOf;
    TopBit(x);
    if x & 0x80 == 0 {
      var one :| 0 <= one < 8 - k && BitOf(x, one);
      BitShift(x, one - 1);
      LeadingBits(x << 1, k + 1);
      var n := Leading(x << 1, k + 1);
      BitShift(x, n);
      forall j | 0 <= j < n + 1 ensures !BitOf(x, j) {
        if j > 0 { BitShift(x, j - 1); }
      }
    }
  }

  lemma {:induction false} MatchFromExact(a: Ip, b: Ip, j: nat)
    requires j <= 16 && forall i :: 0 <= i < j ==> a[i] == b[i]
    ensures CommonBits(a, b, MatchFrom(a, b, j, 8 * j))
    decreases 16 - j
  {
    hide BitOf, Leading;
    if j < 16 {
      if a[j] == b[j] {
        MatchFromExact(a, b, j + 1);
      } else {
        hide MatchFrom, CommonBits;
        OctetsDiffer(a, b, j, a[j] ^ b[j]);
        LastOctet(a, b, j);
      }
    }
  }

  lemma LastOctet(a: Ip, b: Ip, j: nat)
    requires j < 16 && a[j] != b[j]
    ensures MatchFrom(a, b, j, 8 * j) == 8 * j + Leading(a[j] ^ b[j], 0)
  {
    hide Leading;
  }

  lemma XorLeading(p: Byte, q: Byte, x: Byte)
    requires p != q && x == p ^ q
    ensures Leading(x, 0) < 8 && (BitOf(p, Leading(x, 0)) <==> !BitOf(q, Leading(x, 0)))
    ensures forall k :: 0 <= k < Leading(x, 0) ==> (BitOf(p, k) <==> BitOf(q, k))
  {
    hide BitOf, Leading;
    Different(p, q, x);
    LeadingBits(x, 0);
    BitXor(p, q, Leading(x, 0));
    forall k | 0 <= k < Leading(x, 0) ensures BitOf(p, k) <==> BitOf(q, k) { BitXor(p, q, k); }
  }

  lemma OctetsDiffer(a: Ip, b: Ip, j: nat, x: Byte)
    requires j < 16 && (forall i :: 0 <= i < j ==> a[i] == b[i]) && a[j] != b[j] && x == a[j] ^ b[j]
    ensures CommonBits(a, b, 8 * j + Leading(x, 0))
  {
    XorLeading(a[j], b[j], x);
    Split(a, b, j, Leading(x, 0));
  }

  lemma Split(a: Ip, b: Ip, j: nat, n: nat)
    requires j < 16 && (forall i :: 0 <= i < j ==> a[i] == b[i]) && n < 8
    requires (BitOf(a[j], n) <==> !BitOf(b[j], n)) && forall k :: 0 <= k < n ==> (BitOf(a[j], k) <==> BitOf(b[j], k))
    ensures CommonBits(a, b, 8 * j + n)
  {
    hide BitOf;
    assert (8 * j + n) / 8 == j && (8 * j + n) % 8 == n;
    forall k | 0 <= k < 8 * j + n ensures BitAt(a, k) <==> BitAt(b, k) {
      if k >= 8 * j {
        assert k / 8 == j && k % 8 == k - 8 * j;
      }
    }
  }

  lemma Different(x: Byte, y: Byte, z: Byte)
    requires x != y && z == x ^ y
    ensures exists j :: 0 <= j < 8 && BitOf(z, j)
  {
    hide BitOf;
    if forall j :: 0 <= j < 8 ==> !BitOf(z, j) {
      forall j | 0 <= j < 8 ensures BitOf(x, j) <==> BitOf(y, j) { BitXor(x, y, j); }
      SameBits(x, y);
    }
  }

  /** The loops count exactly the leading bits in common, 0 to 128. */
  lemma MatchLengthExact(a: Ip, b: Ip)
    ensures CommonBits(a, b, MatchLength(a, b))
  {
    MatchFromExact(a, b, 0);
  }

  /** The octet comparison of prefixes is the bit comparison up to the last whole octet: a prefix of 12
      bits is compared over 8. */
  lemma PrefixByOctets(a: Ip, b: Ip, length: nat)
    requires length <= WHOLE
    ensures SamePrefix(a, b, length) <==> length - length % 8 <= MatchLength(a, b)
  {
    MatchLengthExact(a, b);
    var m, n := MatchLength(a, b), length / 8;
    hide MatchLength, BitOf;
    if SamePrefix(a, b, length) {
      forall i | 0 <= i < n ensures a[i] == b[i] {
        assert a[..n][i] == b[..n][i];
      }
    }
    if 8 * n <= m {
      forall i | 0 <= i < n ensures a[i] == b[i] {
        forall j | 0 <= j < 8 ensures BitOf(a[i], j) <==> BitOf(b[i], j) {
          assert BitAt(a, 8 * i + j) <==> BitAt(b, 8 * i + j);
          assert (8 * i + j) / 8 == i && (8 * i + j) % 8 == j;
        }
        SameBits(a[i], b[i]);
      }
      assert a[..n] == b[..n];
    }
  }

  // ---------------------------------------------------------------- source selection

  datatype AddrState = Tentative | Preferred | Other

  datatype Addr = Addr(used: bool, ip: Ip, state: AddrState)

  predicate LinkLocal(a: Ip) { a[0] == 0xfe && a[1] == 0x80 }

  predicate Multicast(a: Ip) { a[0] == 0xff }

  /** A preferred global address. */
  predicate Candidate(a: Addr) { a.used && a.state == Preferred && !LinkLocal(a.ip) }

  function SelectFrom(list: seq<Addr>, dst: Ip, i: nat, best: nat, found: Option<nat>): Option<nat>
    requires i <= |list|
    decreases |list| - i
  {
    if i == |list| then found
    else if Candidate(list[i]) && MatchLength(dst, list[i].ip) >= best then
      SelectFrom(list, dst, i + 1, MatchLength(dst, list[i].ip), Some(i))
    else SelectFrom(list, dst, i + 1, best, found)
  }

  /** `uip_ds6_get_link_local(ADDR_PREFERRED)`. */
  function LinkLocalFrom(list: seq<Addr>, i: nat): (r: Option<nat>)
    requires i <= |list|
    ensures r.Some? ==> r.value < |list| && list[r.value].used && list[r.value].state == Preferred && LinkLocal(list[r.value].ip)
    ensures r.None? ==> forall j :: i <= j < |list| && list[j].used && list[j].state == Preferred ==> !LinkLocal(list[j].ip)
    decreases |list| - i
  {
    if i == |list| then None
    else if list[i].used && list[i].state == Preferred && LinkLocal(list[i].ip) then Some(i)
    else LinkLocalFrom(list, i + 1)
  }

  /** `uip_ds6_select_src`; `None` is the unspecified address. */
  function SelectSrc(list: seq<Addr>, dst: Ip): (r: Option<Ip>)
  {
    var at := if LinkLocal(dst) || Multicast(dst) then LinkLocalFrom(list, 0) else SelectFrom(list, dst, 0, 0, None);
    if at.Some? && at.value < |list| then Some(list[at.value].ip) else None
  }

  predicate BestSource(list: seq<Addr>, dst: Ip, n: nat, r: Option<nat>)
    requires n <= |list|
  {
    match r
    case None => forall j :: 0 <= j < n ==> !Candidate(list[j])
    case Some(i) =>
      i < n && Candidate(list[i])
      && forall j :: 0 <= j < n && Candidate(list[j]) ==> MatchLength(dst, list[j].ip) <= MatchLength(dst, list[i].ip)
  }

  lemma {:induction false} SelectBest(list: seq<Addr>, dst: Ip, i: nat, best: nat, found: Option<nat>)
    requires i <= |list| && BestSource(list, dst, i, found)
    requires best == if found.Some? then MatchLength(dst, list[found.value].ip) else 0
    ensures BestSource(list, dst, |list|, SelectFrom(list, dst, i, best, found))
    decreases |list| - i
  {
    hide MatchLength, Candidate;
    if i < |list| {
      if Candidate(list[i]) && MatchLength(dst, list[i].ip) >= best {
        SelectBest(list, dst, i + 1, MatchLength(dst, list[i].ip), Some(i));
      } else {
        SelectBest(list, dst, i + 1, best, found);
      }
    }
  }

  /** In use, preferred, and not of the link. */
  predicate GlobalCandidate(a: Addr) { a.used && a.state == Preferred && (a.ip[0] != 0xfe || a.ip[1] != 0x80) }

  lemma CandidateExact(a: Addr)
    ensures Candidate(a) <==> GlobalCandidate(a)
  {}

  /** For a global unicast destination: unspecified exactly when there is no preferred global address, else
      one of them with the most leading bits in common with the destination. */
  lemma SelectSrcExact(list: seq<Addr>, dst: Ip)
    requires !LinkLocal(dst) && !Multicast(dst)
    ensures SelectSrc(list, dst).None? <==> forall j :: 0 <= j < |list| ==> !GlobalCandidate(list[j])
    ensures SelectSrc(list, dst).Some? ==>
              exists i :: 0 <= i < |list| && GlobalCandidate(list[i]) && SelectSrc(list, dst).value == list[i].ip
    ensures SelectSrc(list, dst).Some? ==>
              forall j, m: nat, n: nat | 0 <= j < |list| && GlobalCandidate(list[j]) && CommonBits(dst, list[j].ip, m)
                && CommonBits(dst, SelectSrc(list, dst).value, n) :: m <= n
  {
    forall j | 0 <= j < |list| ensures Candidate(list[j]) <==> GlobalCandidate(list[j]) { CandidateExact(list[j]); }
    hide MatchLength, Candidate, GlobalCandidate, CommonBits, SelectFrom;
    SelectBest(list, dst, 0, 0, None);
    forall ip, m | CommonBits(dst, ip, m) ensures m == MatchLength(dst, ip) {
      MatchLengthExact(dst, ip);
      CommonBitsUnique(dst, ip, m, MatchLength(dst, ip));
    }
  }

  /** Of several such addresses the last one in the list. */
  lemma {:induction false} LastOfEquals(list: seq<Addr>, dst: Ip, i: nat, best: nat, found: Option<nat>)
    requires i <= |list| && BestSource(list, dst, i, found)
    requires best == if found.Some? then MatchLength(dst, list[found.value].ip) else 0
    requires found.Some? ==> forall j :: found.value < j < i && Candidate(list[j]) ==> MatchLength(dst, list[j].ip) < best
    ensures var r := SelectFrom(list, dst, i, best, found);
            r.Some? ==> r.value < |list| && Candidate(list[r.value])
                        && forall j :: r.value < j < |list| && Candidate(list[j]) ==>
                             MatchLength(dst, list[j].ip) < MatchLength(dst, list[r.value].ip)
    decreases |list| - i
  {
    hide MatchLength, Candidate;
    if i < |list| {
      if Candidate(list[i]) && MatchLength(dst, list[i].ip) >= best {
        LastOfEquals(list, dst, i + 1, MatchLength(dst, list[i].ip), Some(i));
      } else {
        LastOfEquals(list, dst, i + 1, best, found);
      }
    }
  }

  /** For a link-local or multicast destination: the first preferred link-local address, or unspecified without one. */
  lemma SelectSrcLocal(list: seq<Addr>, dst: Ip)
    requires (dst[0] == 0xfe && dst[1] == 0x80) || dst[0] == 0xff
    ensures SelectSrc(list, dst).None? <==> forall j :: 0 <= j < |list| ==> !LocalCandidate(list[j])
    ensures SelectSrc(list, dst).Some? ==>
              exists i :: 0 <= i < |list| && LocalCandidate(list[i]) && SelectSrc(list, dst).value == list[i].ip
                && forall j :: 0 <= j < i ==> !LocalCandidate(list[j])
  {
    FirstLocal(list, 0);
    var at := LinkLocalFrom(list, 0);
    if at.Some? { assert LocalCandidate(list[at.value]); }
  }

  predicate LocalCandidate(a: Addr) { a.used && a.state == Preferred && a.ip[0] == 0xfe && a.ip[1] == 0x80 }

  lemma {:induction false} FirstLocal(list: seq<Addr>, i: nat)
    requires i <= |list|
    ensures var r := LinkLocalFrom(list, i); r.Some? ==> i <= r.value && forall j :: i <= j < r.value ==> !LocalCandidate(list[j])
    decreases |list| - i
  {
    if i < |list| && !LocalCandidate(list[i]) { FirstLocal(list, i + 1); }
  }

  lemma CommonBitsUnique(a: Ip, b: Ip, m: nat, n: nat)
    requires CommonBits(a, b, m) && CommonBits(a, b, n)
    ensures m == n
  {
    hide BitOf;
  }

  // --------------------------------------------------------------------- the tables

  /** `uip_ds6_routing_table` and `uip_ds6_if.addr_list`, updated in place. */
  class Tables {
    const routes: array<Route>
    const addrs: array<Addr>

    constructor (routes: array<Route>, addrs: array<Addr>)
      ensures this.routes == routes && this.addrs == addrs
    {
      this.routes, this.addrs := routes, addrs;
    }

    /** `uip_ds6_route_lookup`. */
    method Lookup(dest: Ip) returns (locrt: Option<nat>)
      requires Sound(routes[..])
      ensures locrt == RouteLookup(routes[..], dest) && BestOf(routes[..], dest, routes.Length, locrt)
    {
      LookupExact(routes[..], dest);
      locrt := None;
      var longestmatch: nat := 0;
      var i := 0;
      hide SamePrefix, BestOf;
      while i < routes.Length
        invariant 0 <= i <= routes.Length
        invariant LookupFrom(routes[..], dest, i, longestmatch, locrt) == RouteLookup(routes[..], dest)
      {
        if routes[i].used && routes[i].length >= longestmatch && SamePrefix(dest, routes[i].ip, routes[i].length) {
          longestmatch := routes[i].length;
          locrt := Some(i);
        }
        i := i + 1;
      }
    }

    /** `uip_ds6_route_add`. */
    method Insert(ip: Ip, length: nat, nexthop: Ip, metric: nat) returns (locroute: Option<nat>)
      requires Separate(routes[..]) && length <= WHOLE
      modifies routes
      ensures (routes[..], locroute) == RouteAdd(old(routes[..]), ip, length, nexthop, metric) && Separate(routes[..])
    {
      AddSeparate(routes[..], ip, length, nexthop, metric);
      hide Separate;
      var r := Ds6List.Search(routes, Key, ip, length);
      match r {
        case FreeSpace(i) =>
          routes[i] := routes[i].(used := true, ip := ip);
          routes[i] := routes[i].(length := length, nexthop := nexthop, metric := metric);
          assert routes[..] == old(routes[..])[i := Route(true, ip, length, metric, nexthop)];
          return Some(i);
        case Found(i) => return Some(i);
        case NoSpace => return None;
      }
    }

    /** `uip_ds6_route_rm_by_nexthop`. */
    method RemoveByNexthop(nexthop: Ip)
      modifies routes
      ensures routes[..] == RouteRmByNexthop(old(routes[..]), nexthop)
    {
      ghost var was := routes[..];
      ghost var goal := RouteRmByNexthop(was, nexthop);
      var i := 0;
      while i < routes.Length
        invariant 0 <= i <= routes.Length
        invariant forall j :: 0 <= j < routes.Length ==> routes[j] == if j < i then goal[j] else was[j]
      {
        if routes[i].used && routes[i].nexthop == nexthop {
          routes[i] := routes[i].(used := false);
        }
        i := i + 1;
      }
      assert routes[..] == goal;
    }

    /** `get_match_length`. */
    method GetMatchLength(src: Ip, dst: Ip) returns (len: nat)
      ensures len == MatchLength(src, dst) && CommonBits(src, dst, len)
    {
      MatchLengthExact(src, dst);
      hide CommonBits;
      len := 0;
      var j := 0;
      while j < 16
        invariant 0 <= j <= 16 && MatchFrom(src, dst, j, len) == MatchLength(src, dst)
      {
        if src[j] == dst[j] {
          len := len + 8;
        } else {
          var zeros := CountLeading(src[j] ^ dst[j]);
          len := len + zeros;
          break;
        }
        j := j + 1;
      }
    }

    /** The loop over the bits of the first octet that differs. */
    method CountLeading(x: Byte) returns (n: nat)
      ensures n == Leading(x, 0)
    {
      var xOr := x;
      n := 0;
      while n < 8
        invariant n <= 8 && n + Leading(xOr, n) == Leading(x, 0)
      {
        if xOr & 0x80 == 0 {
          n := n + 1;
          xOr := xOr << 1;
        } else {
          break;
        }
      }
    }

    /** `uip_ds6_select_src`. */
    method SelectSource(dst: Ip) returns (src: Option<Ip>)
      ensures src == SelectSrc(addrs[..], dst)
    {
      hide MatchLength, CommonBits;
      var matchaddr: Option<nat> := None;
      if !LinkLocal(dst) && !Multicast(dst) {
        var best: nat := 0;
        var i := 0;
        while i < addrs.Length
          invariant 0 <= i <= addrs.Length && (matchaddr.Some? ==> matchaddr.value < i)
          invariant SelectFrom(addrs[..], dst, i, best, matchaddr) == SelectFrom(addrs[..], dst, 0, 0, None)
        {
          if Candidate(addrs[i]) {
            var n := GetMatchLength(dst, addrs[i].ip);
            if n >= best {
              best := n;
              matchaddr := Some(i);
            }
          }
          i := i + 1;
        }
      } else {
        matchaddr := LinkLocalFrom(addrs[..], 0);
      }
      src := if matchaddr.None? then None else Some(addrs[matchaddr.value].ip);
    }
  }
}
