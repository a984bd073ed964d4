// What each message does to the entry it is about, exactly: how an answer
// confirms a neighbour, when news make it stale, and that a neighbour which
// answers in time is never given up.
module NeighborSteps {
  import opened Bytes
  import opened Ds6List
  import opened Neighbors
  import opened NeighborRuns

  /** The only entry for an address. */
  predicate Entered(n: Net, k: nat, ip: Ip) {
    Distinct(n.cache) && k < |n.cache| && n.cache[k].used && n.cache[k].ip == ip
  }

  // ------------------------------------------------------------- advertisements

  predicate Whole(opts: seq<Opt>) { forall i :: 0 <= i < |opts| ==> opts[i] != Malformed }

  /** `ll` is in the last link-layer address option. */
  predicate LastIs(opts: seq<Opt>, ll: Ll) {
    exists i :: 0 <= i < |opts| && opts[i] == Lladdr(ll) && forall j :: i < j < |opts| ==> !opts[j].Lladdr?
  }

  lemma {:induction false} LastExact(opts: seq<Opt>, seen: Option<Ll>)
    ensures LastLladdr(opts, seen).None? <==> !Whole(opts)
    ensures Whole(opts) ==>
              var last := LastLladdr(opts, seen).value;
              if Names(opts) then last.Some? && LastIs(opts, last.value) else last == seen
    decreases |opts|
  {
    if opts != [] && opts[0] != Malformed {
      var rest := opts[1..];
      assert forall i :: 0 <= i < |rest| ==> rest[i] == opts[i + 1];
      LastExact(rest, if opts[0].Lladdr? then Some(opts[0].ll) else seen);
      if Whole(rest) {
        forall i | 0 <= i < |opts| ensures opts[i] != Malformed { if i > 0 { assert rest[i - 1] != Malformed; } }
        if Names(rest) {
          var ll := LastLladdr(opts, seen).value.value;
          var i :| 0 <= i < |rest| && rest[i] == Lladdr(ll) && forall j :: i < j < |rest| ==> !rest[j].Lladdr?;
          assert opts[i + 1] == Lladdr(ll);
          forall j | i + 1 < j < |opts| ensures !opts[j].Lladdr? { assert !rest[j - 1].Lladdr?; }
          assert Names(opts);
        } else if opts[0].Lladdr? {
          forall j | 0 < j < |opts| ensures !opts[j].Lladdr? { assert !rest[j - 1].Lladdr?; }
        } else {
          forall j | 0 <= j < |opts| ensures !opts[j].Lladdr? { if j > 0 { assert !rest[j - 1].Lladdr?; } }
        }
      } else {
        var i :| 0 <= i < |rest| && rest[i] == Malformed;
        assert opts[i + 1] == Malformed;
      }
    }
  }

  /** The address that came is not the stored one. */
  predicate IsNews(opts: seq<Opt>, e: Entry) { Names(opts) && !LastIs(opts, e.ll) }

  /** The answer confirms the neighbour. */
  predicate Confirms(opts: seq<Opt>, f: Flags, e: Entry) {
    f.solicited && if e.state == Incomplete then Names(opts) else f.override || !IsNews(opts, e)
  }

  /** The state after an advertisement: reachable exactly if it confirms; stale on news, which a node that is not reachable
      only takes with the override flag, and with the first address; as it was otherwise. */
  function StateAfter(opts: seq<Opt>, f: Flags, e: Entry): NudState {
    if Confirms(opts, f, e) then Reachable
    else if e.state == Incomplete then if Names(opts) then Stale else Incomplete
    else if IsNews(opts, e) && (f.override || e.state == Reachable) then Stale
    else e.state
  }

  /** The advertisement is taken over: address and router flag are. */
  predicate TakenOver(opts: seq<Opt>, f: Flags, e: Entry) {
    if e.state == Incomplete then Names(opts) else f.override || !IsNews(opts, e)
  }

  lemma LastIsUnique(opts: seq<Opt>, a: Ll, b: Ll)
    requires LastIs(opts, a) && LastIs(opts, b)
    ensures a == b
  {
    var i :| 0 <= i < |opts| && opts[i] == Lladdr(a) && forall j :: i < j < |opts| ==> !opts[j].Lladdr?;
    var k :| 0 <= k < |opts| && opts[k] == Lladdr(b) && forall j :: k < j < |opts| ==> !opts[j].Lladdr?;
    assert opts[i].Lladdr? && opts[k].Lladdr?;
  }

  /** State, link-layer address, count and router flag of the target after an advertisement, whatever its flags, options
      and state; every other entry stays, and a malformed option leaves all as it was. */
  lemma NaExact(n: Net, target: Ip, opts: seq<Opt>, f: Flags, k: nat)
    requires Entered(n, k, target)
    ensures !Whole(opts) ==> NaInput(n, target, opts, f) == n
    ensures Whole(opts) ==>
              var e := n.cache[k];
              var r := NaInput(n, target, opts, f);
              && r.nbr == Some(k) && |r.cache| == |n.cache| && (forall i :: 0 <= i < |n.cache| && i != k ==> r.cache[i] == n.cache[i])
              && var x := r.cache[k];
              && x.used && x.ip == target && x.lastLookup == e.lastLookup && x.state == StateAfter(opts, f, e)
              && x.nscount == (if e.state == Incomplete && x.state == Reachable then 0 else e.nscount)
              && x.isrouter == (if TakenOver(opts, f, e) then f.router else e.isrouter)
              && (if TakenOver(opts, f, e) && Names(opts) then LastIs(opts, x.ll) else x.ll == e.ll)
  {
    FoundAt(n.cache, target, k);
    LastExact(opts, None);
    if Whole(opts) && Names(opts) {
      var ll := LastLladdr(opts, None).value.value;
      if LastIs(opts, n.cache[k].ll) { LastIsUnique(opts, ll, n.cache[k].ll); }
    }
    hide Lookup, LastIs, Names, Distinct, Whole, LastLladdr;
  }

  /** An advertisement for someone else changes no entry. */
  lemma NaForOthers(n: Net, target: Ip, opts: seq<Opt>, f: Flags)
    requires forall i :: 0 <= i < |n.cache| && n.cache[i].used ==> n.cache[i].ip != target
    ensures NaInput(n, target, opts, f).cache == n.cache
  {}

  // ---------------------------------------------------------------- the answer in time

  function Timers(dues: seq<set<nat>>): seq<Event>
    decreases |dues|
  {
    if dues == [] then [] else [Timer(dues[0])] + Timers(dues[1..])
  }

  /** The passes as entry `i` sees them. */
  function Of(dues: seq<set<nat>>, i: nat): (r: seq<bool>)
    ensures |r| == |dues|
    decreases |dues|
  {
    if dues == [] then [] else [i in dues[0]] + Of(dues[1..], i)
  }

  lemma {:induction false} TimersPass(n: Net, dues: seq<set<nat>>, i: nat)
    requires i < |n.cache|
    ensures var r := Run(n, Timers(dues)).0;
            |r.cache| == |n.cache| && r.cache[i] == Passes(n.cache[i], Of(dues, i))
    decreases |dues|
  {
    hide Tick;
    if dues != [] {
      var m := Pass(n, dues[0]).0;
      TimersPass(m, dues[1..], i);
      assert Timers(dues)[0] == Timer(dues[0]) && Timers(dues)[1..] == Timers(dues[1..]);
      assert Of(dues, i)[0] == (i in dues[0]) && Of(dues, i)[1..] == Of(dues[1..], i);
    }
  }

  lemma {:induction false} TimersInv(n: Net, dues: seq<set<nat>>)
    requires Inv(n)
    ensures Inv(Run(n, Timers(dues)).0)
    decreases |dues|
  {
    hide Inv, Pass;
    if dues != [] {
      PassInv(n, dues[0]);
      TimersInv(Pass(n, dues[0]).0, dues[1..]);
      assert Timers(dues)[0] == Timer(dues[0]) && Timers(dues)[1..] == Timers(dues[1..]);
    }
  }

  lemma {:induction false} RunConcat(n: Net, a: seq<Event>, b: seq<Event>)
    ensures Run(n, a + b).0 == Run(Run(n, a).0, b).0
    decreases |a|
  {
    hide Step;
    if a == [] {
      assert a + b == b;
    } else {
      RunConcat(Step(n, a[0]).0, a[1..], b);
      assert (a + b)[0] == a[0] && (a + b)[1..] == a[1..] + b;
    }
  }

  /** Passes never remove a reachable or stale neighbour. */
  lemma {:induction false} Safe(e: Entry, dues: seq<bool>)
    requires e.used && e.state in {Reachable, Stale}
    ensures var r := Passes(e, dues);
            r.used && r.ip == e.ip && r.ll == e.ll && (r.state == Reachable <==> e.state == Reachable && Dues(dues) == 0)
            && r.state in {Reachable, Stale}
    decreases |dues|
  {
    if dues != [] { Safe(Tick(e, dues[0]), dues[1..]); }
  }

  lemma {:induction false} PassesKeep(e: Entry, dues: seq<bool>)
    requires Passes(e, dues).used
    ensures e.used && Passes(e, dues).ip == e.ip && Passes(e, dues).ll == e.ll
    ensures e.state in {Incomplete, Delay, Probe} ==> (e.state == Incomplete <==> Passes(e, dues).state == Incomplete)
    ensures e.state in {Incomplete, Delay, Probe} ==> Passes(e, dues).state in {Incomplete, Delay, Probe}
    decreases |dues|
  {
    if dues != [] { PassesKeep(Tick(e, dues[0]), dues[1..]); }
  }

  /** A neighbour that is being asked, by whatever schedule of passes and timers, and answers before its entry is removed,
      is still there after any passes that follow; reachable, if the answer confirms it, until its timer has run out. */
  lemma AnswerSaves(n: Net, i: nat, before: seq<set<nat>>, opts: seq<Opt>, f: Flags, after: seq<set<nat>>)
    requires Inv(n) && i < |n.cache| && n.cache[i].used && n.cache[i].state in {Incomplete, Delay, Probe}
    requires before == [] || Dues(Of(before, i)[..|before| - 1]) < Left(n.cache[i])
    requires Whole(opts) && Confirms(opts, f, n.cache[i])
    ensures var e := n.cache[i];
            var r := Run(n, Timers(before) + [Na(e.ip, opts, f)] + Timers(after)).0;
            && i < |r.cache| && r.cache[i].used && r.cache[i].ip == e.ip
            && r.cache[i].state == (if Dues(Of(after, i)) == 0 then Reachable else Stale)
  {
    hide Inv, Confirms, Whole, IsNews, Names, Left, Tick;
    var e := n.cache[i];
    var dues := Of(before, i);
    GivenUp(e, dues);
    PassesKeep(e, dues);
    TimersPass(n, before, i);
    TimersInv(n, before);
    var m := Run(n, Timers(before)).0;
    DistinctOf(m);
    SameNews(opts, f, e, m.cache[i]);
    NaExact(m, e.ip, opts, f, i);
    var na := Na(e.ip, opts, f);
    var p := NaInput(m, e.ip, opts, f);
    assert Run(m, [na]).0 == p by { assert [na][1..] == []; }
    RunConcat(n, Timers(before), [na]);
    RunConcat(n, Timers(before) + [na], Timers(after));
    TimersPass(p, after, i);
    Safe(p.cache[i], Of(after, i));
  }

  lemma DistinctOf(n: Net)
    requires Inv(n)
    ensures Distinct(n.cache)
  {}

  lemma SameNews(opts: seq<Opt>, f: Flags, e: Entry, x: Entry)
    requires x.ll == e.ll && (e.state == Incomplete <==> x.state == Incomplete)
    ensures Confirms(opts, f, x) <==> Confirms(opts, f, e)
  {
    hide Names, LastIs;
  }

  // -------------------------------------------------------------------- the others

  /** What is left for a packet to `hop`: the one frame, and a stale entry put on delay; to an address not in the cache, a
      new entry counted as asked once. No other entry changes. */
  lemma SendExact(n: Net, hop: Ip, now: nat, k: nat)
    requires Entered(n, k, hop)
    ensures var e := n.cache[k];
            Output(n, hop, now)
            == (n.(cache := n.cache[k := if e.state == Stale then e.(state := Delay, nscount := 0) else e]),
                if e.state == Incomplete then NoFrame else Unicast(hop, e.ll))
  {
    FoundAt(n.cache, hop, k);
    assert n.cache[k := n.cache[k]] == n.cache;
    hide Lookup, Add;
  }

  /** `r` is `c` with this entry at `k`. */
  predicate PutAt(c: Cache, r: Cache, k: nat, e: Entry) { k < |c| && r == c[k := e] }

  lemma SendToNew(n: Net, hop: Ip, now: nat)
    requires forall i :: 0 <= i < |n.cache| && n.cache[i].used ==> n.cache[i].ip != hop
    ensures var (r, f) := Output(n, hop, now);
            if AllUsed(n.cache) && !AnyOlder(n.cache, now) then r == n && f == NoFrame
            else
              && f == Broadcast(hop)
              && exists k :: PutAt(n.cache, r.cache, k, Entry(true, hop, 0, 1, false, Incomplete, now)) && r == n.(cache := r.cache)
  {
    AddExact(n.cache, hop, NO_LL, false, Incomplete, now);
    var (c, at) := Add(n.cache, hop, NO_LL, false, Incomplete, now);
    hide Add, AllUsed, AnyOlder;
    if at.Some? {
      var k := at.value;
      var e := Fresh(hop, NO_LL, false, Incomplete, now);
      assert c[k := c[k].(nscount := 1)] == n.cache[k := Entry(true, hop, 0, 1, false, Incomplete, now)];
      assert PutAt(n.cache, c[k := c[k].(nscount := 1)], k, Entry(true, hop, 0, 1, false, Incomplete, now));
    }
  }

  /** The link-layer address options up to the first malformed one, in order; for an advertisement and for a solicitation
      with a source. */
  function Lladdrs(opts: seq<Opt>): seq<Ll>
    decreases |opts|
  {
    if opts == [] || opts[0] == Malformed then []
    else (if opts[0].Lladdr? then [opts[0].ll] else []) + Lladdrs(opts[1..])
  }

  /** The entry of the sender after its addresses were taken over: the last one stays, and the entry is stale if it had none
      or any of them was not the stored one. */
  function Announced(e: Entry, lls: seq<Ll>, router: bool): Entry {
    if lls == [] then e
    else
      e.(ll := lls[|lls| - 1], isrouter := router || e.isrouter,
         state := if e.state == Incomplete || exists i :: 0 <= i < |lls| && lls[i] != e.ll then Stale else e.state)
  }

  lemma AnnouncedStep(e: Entry, ll: Ll, lls: seq<Ll>, router: bool)
    ensures Announced(Announced(e, [ll], router), lls, router) == Announced(e, [ll] + lls, router)
  {
    var all := [ll] + lls;
    assert forall i :: 0 <= i < |lls| ==> all[i + 1] == lls[i];
    if lls == [] {
      assert all == [ll];
    } else {
      var x := Announced(e, [ll], router);
      if x.state != Stale || e.state == Stale {
        if i :| 0 <= i < |all| && all[i] != e.ll {
          if i > 0 { assert lls[i - 1] != e.ll; }
        }
      }
      if e.state != Incomplete && ll != e.ll { assert all[0] != e.ll; }
      if j :| 0 <= j < |lls| && lls[j] != x.ll { assert all[j + 1] != x.ll; }
    }
  }

  lemma NsOptionExact(n: Net, src: Ip, ll: Ll, now: nat, k: nat)
    requires Entered(n, k, src)
    ensures NsOption(n, src, ll, now)
            == n.(cache := n.cache[k := Announced(n.cache[k], [ll], false)], nbr := Some(k), heard := n.heard + {(src, ll)})
  {
    FoundAt(n.cache, src, k);
    hide Lookup, Add;
    var lls := [ll];
    assert lls[0] == ll;
  }

  lemma EnteredStill(n: Net, k: nat, ip: Ip, e: Entry)
    requires Entered(n, k, ip) && e.used && e.ip == ip
    ensures Entered(n.(cache := n.cache[k := e]), k, ip)
  {}

  /** A Neighbor Solicitation from a known neighbour, whatever its options. */
  lemma {:induction false} NsExact(n: Net, src: Ip, opts: seq<Opt>, now: nat, k: nat)
    requires Entered(n, k, src)
    ensures NsInput(n, Some(src), opts, now).cache == n.cache[k := Announced(n.cache[k], Lladdrs(opts), false)]
    decreases |opts|
  {
    hide Entered, NsOption, Announced;
    EnteredOf(n, k, src);
    if opts == [] || opts[0] == Malformed {
      NothingAnnounced(n.cache, k);
    } else if opts[0].Lladdr? {
      var m := NsOption(n, src, opts[0].ll, now);
      NsOptionExact(n, src, opts[0].ll, now, k);
      AnnouncedSame(n.cache[k], [opts[0].ll], false);
      EnteredStill(n, k, src, Announced(n.cache[k], [opts[0].ll], false));
      EnteredNet(n.(cache := m.cache), m, k, src);
      NsExact(m, src, opts[1..], now, k);
      AnnouncedStep(n.cache[k], opts[0].ll, Lladdrs(opts[1..]), false);
    } else {
      NsExact(n, src, opts[1..], now, k);
      assert [] + Lladdrs(opts[1..]) == Lladdrs(opts[1..]);
    }
  }

  lemma NothingAnnounced(c: Cache, k: nat)
    requires k < |c|
    ensures c[k := Announced(c[k], [], false)] == c == c[k := Announced(c[k], [], true)]
  {}

  lemma AnnouncedSame(e: Entry, lls: seq<Ll>, router: bool)
    ensures var x := Announced(e, lls, router); x.used == e.used && x.ip == e.ip
  {}

  lemma EnteredOf(n: Net, k: nat, ip: Ip)
    requires Entered(n, k, ip)
    ensures k < |n.cache| && n.cache[k].used && n.cache[k].ip == ip
  {}

  lemma EnteredNet(n: Net, m: Net, k: nat, ip: Ip)
    requires Entered(n, k, ip) && m.cache == n.cache
    ensures Entered(m, k, ip)
  {}

  lemma RaOptionExact(n: Net, src: Ip, ll: Ll, now: nat, k: nat)
    requires Entered(n, k, src)
    ensures RaOption(n, src, ll, now)
            == n.(cache := n.cache[k := Announced(n.cache[k], [ll], true)], nbr := Some(k), heard := n.heard + {(src, ll)})
  {
    FoundAt(n.cache, src, k);
    hide Lookup, Add;
    var lls := [ll];
    assert lls[0] == ll;
  }

  /** The options of a Router Advertisement from a known neighbour; an address makes it a router. */
  lemma {:induction false} RaExact(n: Net, src: Ip, opts: seq<Opt>, now: nat, k: nat)
    requires Entered(n, k, src)
    ensures RaOptions(n, src, opts, now).0.cache == n.cache[k := Announced(n.cache[k], Lladdrs(opts), true)]
    ensures RaOptions(n, src, opts, now).1 <==> Whole(opts)
    decreases |opts|
  {
    hide Entered, RaOption, Announced;
    EnteredOf(n, k, src);
    if opts == [] || opts[0] == Malformed {
      NothingAnnounced(n.cache, k);
    } else {
      var rest := opts[1..];
      WholeRest(opts);
      if opts[0].Lladdr? {
        var m := RaOption(n, src, opts[0].ll, now);
        RaOptionExact(n, src, opts[0].ll, now, k);
        AnnouncedSame(n.cache[k], [opts[0].ll], true);
        EnteredStill(n, k, src, Announced(n.cache[k], [opts[0].ll], true));
        EnteredNet(n.(cache := m.cache), m, k, src);
        RaExact(m, src, rest, now, k);
        AnnouncedStep(n.cache[k], opts[0].ll, Lladdrs(rest), true);
      } else {
        RaExact(n, src, rest, now, k);
        assert [] + Lladdrs(rest) == Lladdrs(rest);
      }
    }
  }

  lemma WholeRest(opts: seq<Opt>)
    requires opts != [] && opts[0] != Malformed
    ensures Whole(opts) <==> Whole(opts[1..])
  {
    var rest := opts[1..];
    assert forall i :: 0 <= i < |rest| ==> rest[i] == opts[i + 1];
    if Whole(rest) {
      forall i | 0 <= i < |opts| ensures opts[i] != Malformed { if i > 0 { assert rest[i - 1] != Malformed; } }
    }
  }

  /** The sender is not in the cache. */
  predicate Missing(c: Cache, ip: Ip) { forall i :: 0 <= i < |c| && c[i].used ==> c[i].ip != ip }

  /** What a message that brings addresses of a new neighbour makes of the cache: nothing without an address, nor when no
      entry can make room, else a stale entry. */
  ghost predicate Introduced(c: Cache, r: Cache, src: Ip, lls: seq<Ll>, router: bool, now: nat) {
    if lls == [] || (AllUsed(c) && !AnyOlder(c, now)) then r == c
    else
      var e := Entry(true, src, lls[|lls| - 1], 0, router, Stale, now);
      exists k :: PutAt(c, r, k, e)
  }

  lemma FreshAnnounced(src: Ip, ll: Ll, lls: seq<Ll>, router: bool, now: nat)
    ensures var all := [ll] + lls;
            Announced(Fresh(src, ll, router, Stale, now), lls, router)
            == Entry(true, src, all[|all| - 1], 0, router, Stale, now)
  {}

  lemma AddedEntered(n: Net, src: Ip, ll: Ll, router: bool, now: nat, m: Net)
    requires Distinct(n.cache) && Missing(n.cache, src) && m.cache == Add(n.cache, src, ll, router, Stale, now).0
    ensures AllUsed(n.cache) && !AnyOlder(n.cache, now) ==> m.cache == n.cache
    ensures !(AllUsed(n.cache) && !AnyOlder(n.cache, now)) ==>
              exists k :: PutAt(n.cache, m.cache, k, Fresh(src, ll, router, Stale, now)) && Entered(m, k, src)
  {
    AddExact(n.cache, src, ll, router, Stale, now);
    hide Add, AllUsed, AnyOlder;
    var at := Add(n.cache, src, ll, router, Stale, now).1;
    if at.Some? {
      var k := at.value;
      assert PutAt(n.cache, m.cache, k, Fresh(src, ll, router, Stale, now));
    }
  }

  /** A Neighbor Solicitation from a neighbour that is not known yet. */
  lemma {:induction false} NsFromNew(n: Net, src: Ip, opts: seq<Opt>, now: nat)
    requires Distinct(n.cache) && Missing(n.cache, src)
    ensures Introduced(n.cache, NsInput(n, Some(src), opts, now).cache, src, Lladdrs(opts), false, now)
    decreases |opts|
  {
    hide Add, Announced, Distinct, AllUsed, AnyOlder, Entered;
    if opts != [] && opts[0] != Malformed {
      var rest := opts[1..];
      if opts[0].Lladdr? {
        var ll := opts[0].ll;
        var m := NsOption(n, src, ll, now);
        AddedEntered(n, src, ll, false, now, m);
        assert Lladdrs(opts) == [ll] + Lladdrs(rest);
        hide Missing, Lookup;
        if AllUsed(n.cache) && !AnyOlder(n.cache, now) {
          NsFromNew(m, src, rest, now);
        } else {
          var k :| PutAt(n.cache, m.cache, k, Fresh(src, ll, false, Stale, now)) && Entered(m, k, src);
          NsExact(m, src, rest, now, k);
          FreshAnnounced(src, ll, Lladdrs(rest), false, now);
          assert PutAt(n.cache, NsInput(m, Some(src), rest, now).cache, k, Announced(Fresh(src, ll, false, Stale, now), Lladdrs(rest), false));
        }
      } else {
        NsFromNew(n, src, rest, now);
        assert [] + Lladdrs(rest) == Lladdrs(rest);
      }
    }
  }

  /** And the options of a Router Advertisement. */
  lemma {:induction false} RaFromNew(n: Net, src: Ip, opts: seq<Opt>, now: nat)
    requires Distinct(n.cache) && Missing(n.cache, src)
    ensures Introduced(n.cache, RaOptions(n, src, opts, now).0.cache, src, Lladdrs(opts), true, now)
    decreases |opts|
  {
    hide Add, Announced, Distinct, AllUsed, AnyOlder, Entered;
    if opts != [] && opts[0] != Malformed {
      var rest := opts[1..];
      if opts[0].Lladdr? {
        var ll := opts[0].ll;
        var m := RaOption(n, src, ll, now);
        AddedEntered(n, src, ll, true, now, m);
        assert Lladdrs(opts) == [ll] + Lladdrs(rest);
        hide Missing, Lookup;
        if AllUsed(n.cache) && !AnyOlder(n.cache, now) {
          RaFromNew(m, src, rest, now);
        } else {
          var k :| PutAt(n.cache, m.cache, k, Fresh(src, ll, true, Stale, now)) && Entered(m, k, src);
          RaExact(m, src, rest, now, k);
          FreshAnnounced(src, ll, Lladdrs(rest), true, now);
          assert PutAt(n.cache, RaOptions(m, src, rest, now).0.cache, k, Announced(Fresh(src, ll, true, Stale, now), Lladdrs(rest), true));
        }
      } else {
        RaFromNew(n, src, rest, now);
        assert [] + Lladdrs(rest) == Lladdrs(rest);
      }
    }
  }

  /** A DIO makes a neighbour of its sender, reachable at once, unless it is one already. */
  lemma RplExact(n: Net, src: Ip, ll: Ll, now: nat)
    ensures var c := RplInput(n, src, ll, now).cache;
            if !Missing(n.cache, src) || (AllUsed(n.cache) && !AnyOlder(n.cache, now)) then c == n.cache
            else exists k :: PutAt(n.cache, c, k, Entry(true, src, ll, 0, false, Reachable, now))
  {
    AddExact(n.cache, src, ll, false, Reachable, now);
    hide Add, AllUsed, AnyOlder;
    var (c, at) := Add(n.cache, src, ll, false, Reachable, now);
    if at.Some? { assert PutAt(n.cache, c, at.value, Entry(true, src, ll, 0, false, Reachable, now)); }
  }

  /** What a pass does to an entry, its timer being due or not: three solicitations at most while it is asked, the first one
      of a probe counted when the delay ends; a reachable one becomes stale. */
  lemma TickExact(e: Entry, due: bool)
    requires e.used
    ensures var r := Tick(e, due);
            && (!r.used <==> (e.state == Incomplete || e.state == Probe) && e.nscount >= 3)
            && (r.used ==> r == e.(state := r.state, nscount := r.nscount))
            && (r.used ==> r.state == if due && e.state == Reachable then Stale else if due && e.state == Delay then Probe else e.state)
            && (r.used ==> r.nscount == if !due then e.nscount else if e.state == Delay then 1
                                        else if e.state == Incomplete || e.state == Probe then e.nscount + 1 else e.nscount)
  {}
}
