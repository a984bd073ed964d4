// The local ports uip_udp_new of uip.c hands out: a counter that goes round in a
// range and skips every port in use.
module UdpPorts {
  import opened Bytes
  import opened Sets

  const LIMIT: nat := 32000
  const FIRST: nat := 4096
  const ROUND: nat := LIMIT - FIRST

  /** `lport` 0 marks a free connection. */
  datatype Conn = Conn(lport: U16, rport: U16, remote: nat)

  type Conns = seq<Conn>

  function Ports(c: Conns): set<nat> { set i | 0 <= i < |c| && c[i].lport != 0 :: c[i].lport }

  predicate Taken(c: Conns, port: nat) { exists i :: 0 <= i < |c| && c[i].lport == port }

  /** `++lastport`, and back to the start of the range at its end. */
  function Next(last: nat): nat { if last + 1 >= LIMIT then FIRST else last + 1 }

  /** The `k`th candidate of a search, counted from 0. */
  function Candidate(last: nat, k: nat): nat {
    if last + 1 + k < LIMIT then last + 1 + k else FIRST + (last + 1 + k - LIMIT) % ROUND
  }

  lemma CandidateSteps(last: nat, k: nat)
    requires last < LIMIT && k < ROUND
    ensures Candidate(last, 0) == Next(last) && (k > 0 ==> Candidate(last, k) == Next(Candidate(last, k - 1)))
    ensures 0 < Candidate(last, k) < LIMIT
  {}

  /** No candidate comes twice before the counter is round. */
  lemma CandidatesDiffer(last: nat, j: nat, k: nat)
    requires last < LIMIT && j < k < ROUND
    ensures Candidate(last, j) != Candidate(last, k)
  {
    if last + 1 + k >= LIMIT {
      assert (last + 1 + k - LIMIT) % ROUND == last + 1 + k - LIMIT;
      if last + 1 + j >= LIMIT {
        assert (last + 1 + j - LIMIT) % ROUND == last + 1 + j - LIMIT;
      }
    }
  }

  function Tried(last: nat, k: nat): set<nat> { set j | 0 <= j < k :: Candidate(last, j) }

  lemma {:induction false} TriedCount(last: nat, k: nat)
    requires last < LIMIT && k <= ROUND
    ensures |Tried(last, k)| == k
  {
    if k > 0 {
      TriedCount(last, k - 1);
      forall j | 0 <= j < k - 1 ensures Candidate(last, j) != Candidate(last, k - 1) {
        CandidatesDiffer(last, j, k - 1);
      }
      assert Tried(last, k) == Tried(last, k - 1) + {Candidate(last, k - 1)};
    }
  }

  lemma PortsCount(c: Conns)
    ensures |Ports(c)| <= |c|
    decreases |c|
  {
    if c != [] {
      var front, p := c[..|c| - 1], c[|c| - 1].lport;
      PortsCount(front);
      assert Ports(c) <= Ports(front) + {p as nat};
      SubsetCard(Ports(c), Ports(front) + {p as nat});
    }
  }

  /** A search that has met only ports in use has not tried more than there are. */
  lemma TriesBounded(c: Conns, last: nat, k: nat)
    requires last < LIMIT && k <= ROUND && forall j :: 0 <= j < k ==> Taken(c, Candidate(last, j))
    ensures k <= |c|
  {
    TriedCount(last, k);
    forall p | p in Tried(last, k) ensures p in Ports(c) {
      var j :| 0 <= j < k && Candidate(last, j) == p;
      CandidateSteps(last, j);
      var i :| 0 <= i < |c| && c[i].lport == p;
    }
    SubsetCard(Tried(last, k), Ports(c));
    PortsCount(c);
  }

  /** The candidates before the `k`th are taken. */
  predicate AllTaken(c: Conns, last: nat, k: nat) { forall j :: 0 <= j < k ==> Taken(c, Candidate(last, j)) }

  /** `goto again` until a candidate is free; it ends because there are fewer connections than ports. */
  function Search(c: Conns, last: nat, k: nat): (r: nat)
    requires last < LIMIT && |c| < ROUND && k <= |c| && AllTaken(c, last, k)
    ensures !Taken(c, r) && 0 < r < LIMIT
    decreases |c| - k
  {
    CandidateSteps(last, k);
    if Taken(c, Candidate(last, k)) then
      TriesBounded(c, last, k + 1);
      Search(c, last, k + 1)
    else Candidate(last, k)
  }

  lemma SearchOn(c: Conns, last: nat, k: nat)
    requires last < LIMIT && |c| < ROUND && k <= |c| && AllTaken(c, last, k) && Taken(c, Candidate(last, k))
    ensures k < |c| && AllTaken(c, last, k + 1) && Search(c, last, k) == Search(c, last, k + 1)
  {
    TriesBounded(c, last, k + 1);
    hide Taken;
  }

  lemma SearchEnds(c: Conns, last: nat, k: nat)
    requires last < LIMIT && |c| < ROUND && k <= |c| && AllTaken(c, last, k) && !Taken(c, Candidate(last, k))
    ensures Search(c, last, k) == Candidate(last, k)
  {
    hide Taken;
  }

  /** Every port from `a` to `b - 1` is taken. */
  predicate Occupied(c: Conns, a: nat, b: nat) { forall p :: a <= p < b ==> Taken(c, p) }

  lemma {:induction false} SearchAt(c: Conns, last: nat, k: nat) returns (j: nat)
    requires last < LIMIT && |c| < ROUND && k <= |c| && AllTaken(c, last, k)
    ensures j <= |c| && Search(c, last, k) == Candidate(last, j) && AllTaken(c, last, j) && !Taken(c, Candidate(last, j))
    decreases |c| - k
  {
    hide Taken, Search, Candidate;
    if Taken(c, Candidate(last, k)) {
      SearchOn(c, last, k);
      j := SearchAt(c, last, k + 1);
    } else {
      j := k;
      SearchEnds(c, last, k);
    }
  }

  /** The port a search ends on is the next free one above the last, below 32000, and if there is none the first free one
      from 4096 on. */
  lemma SearchNearest(c: Conns, last: nat)
    requires last < 32000 && |c| < 27904
    ensures var r := Search(c, last, 0);
            && !Taken(c, r)
            && if last < r then r < 32000 && Occupied(c, last + 1, r)
               else Occupied(c, last + 1, 32000) && 4096 <= r < 32000 && Occupied(c, 4096, r)
  {
    hide Taken, Search;
    var j := SearchAt(c, last, 0);
    var r := Candidate(last, j);
    if last + 1 + j < 32000 {
      forall p | last + 1 <= p < r ensures Taken(c, p) { assert Taken(c, Candidate(last, p - last - 1)); }
    } else {
      forall p | last + 1 <= p < 32000 ensures Taken(c, p) { assert Taken(c, Candidate(last, p - last - 1)); }
      forall p | 4096 <= p < r ensures Taken(c, p) {
        var k := p - 4096 + 32000 - (last + 1);
        AroundOnce(last, k, p);
        assert Taken(c, Candidate(last, k));
      }
      AroundOnce(last, j, r);
    }
  }

  lemma AroundOnce(last: nat, k: nat, p: nat)
    requires last < 32000 && k < 27904 && last + 1 + k >= 32000
    ensures 4096 <= Candidate(last, k) == 4096 + (last + 1 + k - 32000)
  {
    assert (last + 1 + k - LIMIT) % ROUND == last + 1 + k - LIMIT;
  }

  datatype State = State(conns: Conns, lastport: nat)

  function FirstFree(c: Conns, i: nat): (r: Option<nat>)
    requires i <= |c|
    ensures r.Some? ==> r.value < |c| && c[r.value].lport == 0
    ensures r.None? ==> forall j :: i <= j < |c| ==> c[j].lport != 0
    decreases |c| - i
  {
    if i == |c| then None else if c[i].lport == 0 then Some(i) else FirstFree(c, i + 1)
  }

  /** `uip_udp_new`: the counter moves on even when there is no connection left. */
  function New(s: State, remote: nat, rport: U16): (State, Option<nat>)
    requires s.lastport < LIMIT && |s.conns| < ROUND
  {
    var port := Search(s.conns, s.lastport, 0);
    match FirstFree(s.conns, 0)
    case None => (s.(lastport := port), None)
    case Some(i) => (State(s.conns[i := Conn(port, rport, remote)], port), Some(i))
  }

  /** `uip_udp_remove`. */
  function Remove(s: State, i: nat): State
    requires i < |s.conns|
  {
    s.(conns := s.conns[i := s.conns[i].(lport := 0)])
  }

  /** A connection that was closed is free again, and nothing else changes. */
  lemma ClosedIsFree(s: State, i: nat)
    requires i < |s.conns|
    ensures var r := Remove(s, i);
            && r.lastport == s.lastport && |r.conns| == |s.conns| && r.conns[i].lport == 0
            && r.conns[i].rport == s.conns[i].rport && r.conns[i].remote == s.conns[i].remote
            && forall j :: 0 <= j < |s.conns| && j != i ==> r.conns[j] == s.conns[j]
  {}

  predicate Distinct(c: Conns) {
    forall i, j :: 0 <= i < j < |c| && c[i].lport != 0 && c[j].lport != 0 ==> c[i].lport != c[j].lport
  }

  predicate Inv(s: State) { s.lastport < LIMIT && Distinct(s.conns) }

  /** A new connection has a port of its own, none is refused while one is free, and the others stay; the port is the one
      the search ends on, which counts as the last one also when the connection is refused. */
  lemma NewPort(s: State, remote: nat, rport: U16)
    requires Inv(s) && |s.conns| < ROUND
    ensures var (r, at) := New(s, remote, rport);
            && Inv(r) && |r.conns| == |s.conns| && r.lastport == Search(s.conns, s.lastport, 0)
            && (at.None? <==> forall i :: 0 <= i < |s.conns| ==> s.conns[i].lport != 0)
            && (at.None? ==> r.conns == s.conns)
            && (at.Some? ==>
                  && at.value < |s.conns| && s.conns[at.value].lport == 0
                  && r.conns[at.value] == Conn(r.lastport, rport, remote) && r.lastport != 0
                  && !Taken(s.conns, r.lastport)
                  && forall j :: 0 <= j < |s.conns| && j != at.value ==> r.conns[j] == s.conns[j])
  {
    var port := Search(s.conns, s.lastport, 0);
    hide Search;
    forall j | 0 <= j < |s.conns| ensures s.conns[j].lport != port {
      assert !Taken(s.conns, port);
    }
  }

  /** `uip_udp_bind`. */
  function Bind(s: State, i: nat, port: U16): State
    requires i < |s.conns|
  {
    s.(conns := s.conns[i := s.conns[i].(lport := port)])
  }

  /** No other connection has the port. */
  predicate Vacant(c: Conns, i: nat, port: U16) {
    port == 0 || forall j :: 0 <= j < |c| && j != i ==> c[j].lport != port
  }

  /** Binding, which looks at nothing, keeps the ports distinct exactly when no other connection has the port. */
  lemma BindExact(s: State, i: nat, port: U16)
    requires Inv(s) && i < |s.conns|
    ensures |Bind(s, i, port).conns| == |s.conns|
    ensures Inv(Bind(s, i, port)) <==> Vacant(s.conns, i, port)
  {
    var r := Bind(s, i, port);
    if !Vacant(s.conns, i, port) {
      var j :| 0 <= j < |s.conns| && j != i && s.conns[j].lport == port;
      assert r.conns[i].lport == r.conns[j].lport != 0;
    }
  }

  datatype Event = Opened(remote: nat, rport: U16) | Bound(conn: nat, port: U16) | Closed(at: nat)

  function Step(s: State, e: Event): (r: State)
    requires s.lastport < LIMIT && |s.conns| < ROUND
    ensures r.lastport < LIMIT && |r.conns| == |s.conns|
  {
    match e
    case Opened(remote, rport) => New(s, remote, rport).0
    case Bound(i, port) => if i < |s.conns| then Bind(s, i, port) else s
    case Closed(i) => if i < |s.conns| then Remove(s, i) else s
  }

  /** An application binds only to ports that no other connection has at that moment. */
  predicate BindsVacant(s: State, events: seq<Event>)
    requires s.lastport < LIMIT && |s.conns| < ROUND
    decreases |events|
  {
    events != [] ==>
      (events[0].Bound? && events[0].conn < |s.conns| ==> Vacant(s.conns, events[0].conn, events[0].port))
      && BindsVacant(Step(s, events[0]), events[1..])
  }

  /** No two connections share a port, at any time of a run. */
  predicate AlwaysDistinct(s: State, events: seq<Event>)
    requires s.lastport < LIMIT && |s.conns| < ROUND
    decreases |events|
  {
    Distinct(s.conns) && (events != [] ==> AlwaysDistinct(Step(s, events[0]), events[1..]))
  }

  /** Over every run of openings, bindings and closings no two connections ever share a port, if and only if
      every binding is to a port no other connection has. */
  lemma {:induction false} RunDistinct(s: State, events: seq<Event>)
    requires Inv(s) && |s.conns| < ROUND
    ensures AlwaysDistinct(s, events) <==> BindsVacant(s, events)
    decreases |events|
  {
    hide Distinct, New, Remove, Bind, Vacant;
    if events != [] {
      match events[0] {
        case Opened(remote, rport) => NewPort(s, remote, rport);
        case Bound(i, port) => if i < |s.conns| { BindExact(s, i, port); }
        case Closed(i) => if i < |s.conns| { RemoveInv(s, i); }
      }
      var r := Step(s, events[0]);
      if Distinct(r.conns) { RunDistinct(r, events[1..]); }
    }
  }

  lemma RemoveInv(s: State, i: nat)
    requires Inv(s) && i < |s.conns|
    ensures Inv(Remove(s, i)) && |Remove(s, i).conns| == |s.conns|
  {}

  /** `uip_udp_conns` and `lastport`. */
  class Allocator {
    const conns: array<Conn>
    var lastport: nat

    ghost function Value(): State
      reads this, conns
    {
      State(conns[..], lastport)
    }

    /** `uip_init`. */
    constructor (size: nat)
      ensures fresh(conns) && conns.Length == size && Inv(Value())
    {
      conns := new Conn[size](_ => Conn(0, 0, 0));
      lastport := 1024;
    }

    /** `uip_udp_bind`. */
    method BindTo(i: nat, port: U16)
      requires i < conns.Length
      modifies conns
      ensures Value() == Bind(old(Value()), i, port)
    {
      conns[i] := conns[i].(lport := port);
    }

    method IsTaken(port: nat) returns (taken: bool)
      ensures taken == Taken(conns[..], port)
    {
      var c := 0;
      while c < conns.Length
        invariant 0 <= c <= conns.Length && forall i :: 0 <= i < c ==> conns[i].lport != port
      {
        if conns[c].lport == port {
          assert conns[..][c].lport == port;
          return true;
        }
        c := c + 1;
      }
      taken := false;
    }

    /** `uip_udp_new`. */
    method Open(remote: nat, rport: U16) returns (at: Option<nat>)
      requires Inv(Value()) && conns.Length < ROUND
      modifies this, conns
      ensures Inv(Value()) && (Value(), at) == New(old(Value()), remote, rport)
    {
      NewPort(Value(), remote, rport);
      ghost var start := lastport;
      ghost var c := conns[..];
      ghost var k: nat := 0;
      CandidateSteps(start, 0);
      hide Distinct, Candidate, Taken, AllTaken, Search, FirstFree, Next;
      lastport := Next(lastport);
      var taken := IsTaken(lastport);
      while taken
        invariant conns[..] == c && k <= |c| && lastport == Candidate(start, k)
        invariant taken == Taken(c, lastport)
        invariant AllTaken(c, start, k) && Search(c, start, 0) == Search(c, start, k)
        decreases |c| - k
      {
        SearchOn(c, start, k);
        CandidateSteps(start, k + 1);
        k := k + 1;
        lastport := Next(lastport);
        taken := IsTaken(lastport);
      }
      SearchEnds(c, start, k);
      at := FirstFree(conns[..], 0);
      if at.Some? { conns[at.value] := Conn(lastport, rport, remote); }
    }
  }
}
