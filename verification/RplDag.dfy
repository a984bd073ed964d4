// The DODAG state machine of rpl_dag.c as a step function over values: what a
// DIO, a link-layer report, a lost neighbour or the periodic recalculation does
// to the parent set, the preferred parent and the rank, and what every run keeps.
module RplDag {
  import opened Bytes
  import opened RplEtx
  import opened Sets

  const MAX_PARENTS: nat := 8
  const MOP_DEFAULT: nat := 2

  datatype Dio = Dio(dagId: nat, version: U8, rank: U16, mop: nat, etx: U16, dtsn: U8, ocp: U16, maxRankInc: U16, minHop: Hop)

  /** One DODAG slot and the block pool of its parents. `parents` is the linked list, head first, as
      pool slots; `used` are the reference counts of the pool. */
  datatype DagRep = DagRep(
    joined: bool, dagId: nat, version: U8, rank: U16, minRank: U16, maxRankInc: U16, minHop: Hop,
    preferred: Option<nat>, parents: seq<nat>, mem: Pool, used: seq<bool>)

  ghost predicate Shape(d: DagRep) {
    |d.mem| == |d.used| == MAX_PARENTS && Slots(d.mem, d.parents) && (d.preferred.Some? ==> d.preferred.value < MAX_PARENTS)
  }

  /** The state before anything was received. */
  const FRESH: DagRep := DagRep(false, 0, 0, INFINITE_RANK, INFINITE_RANK, 0, 256, None, [],
                                [BLANK, BLANK, BLANK, BLANK, BLANK, BLANK, BLANK, BLANK],
                                [false, false, false, false, false, false, false, false])

  const BLANK: Parent := Parent(0, 0, 0, 0, 0, false)

  // ------------------------------------------------------------- lists and blocks

  function Without(list: seq<nat>, s: nat): (r: seq<nat>)
    ensures forall x :: x in r ==> x in list
    ensures forall k :: 0 <= k < |r| ==> r[k] in list
  {
    if list == [] then [] else if list[0] == s then list[1..] else [list[0]] + Without(list[1..], s)
  }

  /** `memb_alloc`: the first free block. */
  function FreeBlock(used: seq<bool>): (r: Option<nat>)
    ensures r.Some? ==> r.value < |used| && !used[r.value]
    ensures r.None? ==> forall i :: 0 <= i < |used| ==> used[i]
  {
    if used == [] then None
    else if !used[0] then Some(0)
    else
      var r := FreeBlock(used[1..]);
      if r.Some? then Some(r.value + 1) else None
  }

  /** `rpl_find_parent`. */
  function Find(mem: Pool, list: seq<nat>, addr: nat): (r: Option<nat>)
    requires Slots(mem, list)
    ensures r.Some? ==> r.value in list && mem[r.value].addr == addr
    ensures r.None? ==> forall s :: s in list ==> mem[s].addr != addr
  {
    if list == [] then None else if mem[list[0]].addr == addr then Some(list[0]) else Find(mem, list[1..], addr)
  }

  /** `rpl_remove_parent`. */
  function RemoveParent(d: DagRep, s: nat): (r: DagRep)
    requires Shape(d) && s < MAX_PARENTS
    ensures Shape(r)
  {
    d.(preferred := if d.preferred == Some(s) then None else d.preferred,
       parents := Without(d.parents, s), used := d.used[s := false])
  }

  /** `remove_parents`, over what is left of the list. */
  function RemoveParents(d: DagRep, todo: seq<nat>, minimum: U16): (r: DagRep)
    requires Shape(d) && Slots(d.mem, todo)
    ensures Shape(r) && r.mem == d.mem
    decreases |todo|
  {
    if todo == [] then d
    else RemoveParents(if d.mem[todo[0]].rank >= minimum then RemoveParent(d, todo[0]) else d, todo[1..], minimum)
  }

  /** The loop of `remove_worst_parent`. */
  function Worst(mem: Pool, preferred: Option<nat>, list: seq<nat>): (r: Option<nat>)
    requires Slots(mem, list)
    ensures r.Some? ==> r.value in list && preferred != r
    ensures r.Some? ==> forall s :: s in list && preferred != Some(s) ==> mem[s].rank <= mem[r.value].rank
    ensures r.None? ==> forall s :: s in list ==> preferred == Some(s)
  {
    if list == [] then None
    else
      var front, p := list[..|list| - 1], list[|list| - 1];
      assert forall s :: s in list <==> s in front || s == p;
      var worst := Worst(mem, preferred, front);
      if preferred != Some(p) && (worst.None? || mem[p].rank > mem[worst.value].rank) then Some(p) else worst
  }

  function RemoveWorst(d: DagRep, minWorst: U16): (r: DagRep)
    requires Shape(d)
    ensures Shape(r)
  {
    var w := Worst(d.mem, d.preferred, d.parents);
    if w.Some? && d.mem[w.value].rank > minWorst then RemoveParent(d, w.value) else d
  }

  /** `rpl_add_parent`; the `updated` mark of a recycled block is left as it was. */
  function AddParent(d: DagRep, dio: Dio, from: nat): (r: (DagRep, Option<nat>))
    requires Shape(d)
    ensures Shape(r.0) && (r.1.Some? ==> r.1.value < MAX_PARENTS)
  {
    var b := FreeBlock(d.used);
    if b.None? then (d, None)
    else
      var p := Parent(from, dio.rank, INITIAL_LINK_METRIC, dio.etx, 0, d.mem[b.value].updated);
      (d.(mem := d.mem[b.value := p], used := d.used[b.value := true], parents := Without(d.parents, b.value) + [b.value]), b)
  }

  // -------------------------------------------------------------------- the steps

  function DagRank(rank: U16, hop: Hop): nat { rank / hop }

  predicate AcceptableRank(d: DagRep, rank: U16) {
    rank != INFINITE_RANK
    && (d.maxRankInc == 0 || DagRank(rank, d.minHop) <= DagRank(ToU16(d.minRank + d.maxRankInc), d.minHop))
  }

  /** `rpl_select_parent`. */
  function SelectParent(d: DagRep): (r: (DagRep, Option<nat>))
    requires Shape(d)
    ensures Shape(r.0) && r.0.mem == d.mem && (r.1.Some? ==> r.0.minRank <= r.0.rank)
  {
    var best := Select(d.mem, d.minHop, d.preferred, d.parents);
    if best.None? then (d, None)
    else
      var d1 := d.(preferred := best, rank := RankVia(d.mem[best.value], d.minHop, 0));
      if d1.rank < d1.minRank then (d1.(minRank := d1.rank), best)
      else if !AcceptableRank(d1, d1.mem[best.value].rank) then (RemoveParents(d1, d1.parents, 0), None)
      else (d1, best)
  }

  /** `rpl_local_repair`. */
  function LocalRepair(d: DagRep): (r: DagRep)
    requires Shape(d)
    ensures Shape(r) && r.mem == d.mem
  {
    var d1 := d.(rank := INFINITE_RANK);
    RemoveParents(d1, d1.parents, 0)
  }

  /** `rpl_process_parent_event`, and whether it reports the parent as still valid. */
  function ParentEvent(d: DagRep, s: nat): (r: (DagRep, bool))
    requires Shape(d) && s < MAX_PARENTS
    ensures Shape(r.0) && r.0.mem == d.mem
  {
    var parentRank := d.mem[s].rank;
    var (d1, best) := SelectParent(d);
    if best.None? then (LocalRepair(d1), true)
    else
      var moved := DagRank(d.rank, d.minHop) != DagRank(d1.rank, d.minHop);
      var d2 := if moved && d1.rank < d1.minRank then d1.(minRank := d1.rank) else d1;
      (d2, parentRank != INFINITE_RANK && AcceptableRank(d2, RankWithout(parentRank)))
  }

  /** `join_dag`. A DIO with another objective code point leaves its block allocated. */
  function Join(d: DagRep, dio: Dio, from: nat): (r: DagRep)
    requires Shape(d)
    ensures Shape(r)
  {
    var d0 := d.(parents := [], rank := INFINITE_RANK, minRank := INFINITE_RANK, preferred := None);
    var (d1, p) := AddParent(d0, dio, from);
    if p.None? || dio.ocp != 1 then d1
    else
      var d2 := d1.(joined := true, dagId := dio.dagId, version := dio.version, maxRankInc := dio.maxRankInc,
                    minHop := dio.minHop, preferred := p);
      var rank := RankVia(d2.mem[p.value], d2.minHop, dio.rank);
      d2.(rank := rank, minRank := rank)
  }

  /** `global_repair`. */
  function GlobalRepair(d: DagRep, dio: Dio, from: nat): (r: DagRep)
    requires Shape(d)
    ensures Shape(r)
  {
    var d1 := RemoveParents(d, d.parents, 0).(version := dio.version);
    var (d2, p) := AddParent(d1, dio, from);
    if p.None? then d2.(rank := INFINITE_RANK)
    else d2.(rank := RankWithout(dio.rank), minRank := RankWithout(dio.rank))
  }

  /** A DIO of the current version, for the DODAG this node is in. */
  function CurrentDio(d: DagRep, dio: Dio, from: nat): (r: DagRep)
    requires Shape(d)
    ensures Shape(r)
  {
    var known := Find(d.mem, d.parents, from);
    var room := if known.None? && |d.parents| == MAX_PARENTS then RemoveWorst(d, dio.rank) else d;
    var (d1, p) := if known.Some? then (d, known) else AddParent(room, dio, from);
    if p.None? then d1
    else
      var q := d1.mem[p.value].(etx := dio.etx, rank := dio.rank);
      var (d2, valid) := ParentEvent(d1.(mem := d1.mem[p.value := q]), p.value);
      if valid then d2.(mem := d2.mem[p.value := d2.mem[p.value].(dtsn := dio.dtsn)]) else d2
  }

  /** `rpl_process_dio`. */
  function ProcessDio(d: DagRep, dio: Dio, from: nat): (r: DagRep)
    requires Shape(d)
    ensures Shape(r)
  {
    if dio.mop != MOP_DEFAULT then d
    else if !d.joined then
      if dio.rank != INFINITE_RANK then Join(d, dio, from) else d
    else if d.dagId != dio.dagId then d
    else if dio.version > d.version then
      if d.rank == d.minHop then d.(version := (dio.version + 1) % 0x100) else GlobalRepair(d, dio, from)
    else if dio.version < d.version || (dio.rank != INFINITE_RANK && dio.rank < d.minHop) || d.rank == d.minHop then d
    else CurrentDio(d, dio, from)
  }

  /** What can happen to a node. */
  datatype Event =
    | DioReceived(from: nat, dio: Dio)
    | LinkReport(addr: nat, known: bool, etx: U8)     // rpl_link_neighbor_callback
    | NeighbourLost(addr: nat)                        // rpl_ipv6_neighbor_callback
    | Recalculate                                     // rpl_recalculate_ranks

  function FirstUpdated(mem: Pool, list: seq<nat>): (r: Option<nat>)
    requires Slots(mem, list)
    ensures r.Some? ==> r.value in list
  {
    if list == [] then None else if mem[list[0]].updated then Some(list[0]) else FirstUpdated(mem, list[1..])
  }

  function Step(d: DagRep, e: Event): (r: DagRep)
    requires Shape(d)
    ensures Shape(r)
  {
    match e
    case DioReceived(from, dio) => ProcessDio(d, dio, from)
    case LinkReport(addr, known, etx) =>
      if !d.joined then d
      else
        var p := Find(d.mem, d.parents, addr);
        if p.None? then d
        else
          var q := d.mem[p.value];
          d.(mem := d.mem[p.value := q.(updated := true, linkMetric := etx, rank := if known then q.rank else INFINITE_RANK)])
    case NeighbourLost(addr) =>
      if !d.joined then d
      else
        var p := Find(d.mem, d.parents, addr);
        if p.None? then d else d.(mem := d.mem[p.value := d.mem[p.value].(rank := INFINITE_RANK, updated := true)])
    case Recalculate =>
      if !d.joined then d
      else
        var p := FirstUpdated(d.mem, d.parents);
        if p.None? then d
        else ParentEvent(d.(mem := d.mem[p.value := d.mem[p.value].(updated := false)]), p.value).0
  }

  function Run(d: DagRep, events: seq<Event>): (r: DagRep)
    requires Shape(d)
    ensures Shape(r)
    decreases |events|
  {
    if events == [] then d else Run(Step(d, events[0]), events[1..])
  }

  // ------------------------------------------------------------------ invariants

  ghost predicate Distinct(list: seq<nat>) { forall i, j :: 0 <= i < j < |list| ==> list[i] != list[j] }

  /** The linked list is exactly the allocated blocks, without repetition of block or address, and
      the preferred parent is on it. */
  ghost predicate ListInv(d: DagRep) {
    && Shape(d) && Distinct(d.parents)
    && (forall s :: 0 <= s < MAX_PARENTS ==> (d.used[s] <==> s in d.parents))
    && (forall s, t :: s in d.parents && t in d.parents && s != t ==> d.mem[s].addr != d.mem[t].addr)
    && (d.preferred.Some? ==> d.preferred.value in d.parents)
  }

  ghost predicate Inv(d: DagRep) {
    ListInv(d) && d.minRank <= d.rank && (!d.joined ==> d.parents == [])
  }

  lemma {:induction false} WithoutExact(list: seq<nat>, s: nat)
    requires Distinct(list)
    ensures Distinct(Without(list, s)) && (forall x :: x in Without(list, s) <==> x in list && x != s)
    ensures s !in list ==> Without(list, s) == list
  {
    if list != [] {
      var head, rest := list[0], list[1..];
      assert list == [head] + rest;
      assert forall i :: 0 <= i < |rest| ==> rest[i] == list[i + 1] && rest[i] != head;
      HeadOrRest(head, rest);
      WithoutExact(rest, s);
      var kept := Without(rest, s);
      HeadOrRest(head, kept);
      hide Without;
      ConsDistinct(head, kept);
    }
  }

  lemma HeadOrRest(head: nat, rest: seq<nat>)
    ensures forall x :: x in [head] + rest <==> x == head || x in rest
  {}

  lemma ConsDistinct(head: nat, rest: seq<nat>)
    requires Distinct(rest) && head !in rest
    ensures Distinct([head] + rest)
  {}

  ghost function Elements(list: seq<nat>): set<nat> { set x | x in list }

  lemma {:induction false} DistinctCard(list: seq<nat>)
    requires Distinct(list)
    ensures |Elements(list)| == |list|
  {
    if list != [] {
      var front, s := list[..|list| - 1], list[|list| - 1];
      DistinctCard(front);
      assert s !in front;
      assert Elements(list) == Elements(front) + {s};
    }
  }

  lemma RemoveParentInv(d: DagRep, s: nat)
    requires ListInv(d) && s < MAX_PARENTS
    ensures ListInv(RemoveParent(d, s))
    ensures forall x :: x in RemoveParent(d, s).parents <==> x in d.parents && x != s
  {
    WithoutExact(d.parents, s);
  }

  /** What `remove_parents` leaves: the parents of lower rank, and none when the bound is 0. */
  lemma {:induction false} RemoveParentsInv(d: DagRep, todo: seq<nat>, minimum: U16)
    requires ListInv(d) && Slots(d.mem, todo)
    ensures ListInv(RemoveParents(d, todo, minimum))
    ensures forall x :: x in RemoveParents(d, todo, minimum).parents
                        <==> x in d.parents && !(x in todo && d.mem[x].rank >= minimum)
    decreases |todo|
  {
    if todo != [] {
      var s := todo[0];
      RemoveParentInv(d, s);
      var d1 := if d.mem[s].rank >= minimum then RemoveParent(d, s) else d;
      RemoveParentsInv(d1, todo[1..], minimum);
    }
  }

  lemma RemoveAll(d: DagRep)
    requires ListInv(d)
    ensures var r := RemoveParents(d, d.parents, 0);
            ListInv(r) && r.parents == [] && r.preferred == None && r == d.(parents := [], preferred := None, used := r.used)
  {
    RemoveParentsInv(d, d.parents, 0);
    RemoveParentsFrame(d, d.parents, 0);
    var r := RemoveParents(d, d.parents, 0);
    DistinctCard(r.parents);
    assert Elements(r.parents) == {};
  }

  lemma {:induction false} RemoveParentsFrame(d: DagRep, todo: seq<nat>, minimum: U16)
    requires Shape(d) && Slots(d.mem, todo)
    ensures var r := RemoveParents(d, todo, minimum);
            r == d.(parents := r.parents, preferred := r.preferred, used := r.used)
            && (r.preferred == d.preferred || r.preferred == None)
    decreases |todo|
  {
    if todo != [] {
      var d1 := if d.mem[todo[0]].rank >= minimum then RemoveParent(d, todo[0]) else d;
      RemoveParentsFrame(d1, todo[1..], minimum);
    }
  }

  lemma AddParentInv(d: DagRep, dio: Dio, from: nat)
    requires ListInv(d) && forall s :: s in d.parents ==> d.mem[s].addr != from
    ensures var (r, p) := AddParent(d, dio, from);
            ListInv(r) && (p.Some? ==> r.parents == d.parents + [p.value] && r.mem[p.value].addr == from)
  {
    var b := FreeBlock(d.used);
    if b.Some? {
      WithoutExact(d.parents, b.value);
      var r := AddParent(d, dio, from).0;
      assert forall x :: x in r.parents <==> x in d.parents || x == b.value;
    }
  }

  // ------------------------------------------------------------- after one event

  /** Where a parent event can leave a node: alone with the infinite rank, or with the rank its
      preferred parent gives it and that parent within the permitted rank increase. */
  ghost predicate Settled(d: DagRep) {
    if d.parents == [] then d.rank == INFINITE_RANK && d.preferred == None
    else
      && d.preferred.Some? && d.preferred.value in d.parents && Usable(d.mem, d.preferred.value)
      && var p := d.mem[d.preferred.value];
      && d.rank == RankVia(p, d.minHop, 0)
      && (AcceptableRank(d, p.rank) || d.rank == d.minRank)
  }

  lemma SelectParentInv(d: DagRep)
    requires ListInv(d) && d.minRank <= d.rank
    ensures var (r, best) := SelectParent(d);
            && ListInv(r) && r.minRank <= r.rank
            && (best.Some? ==> r.parents == d.parents && r.parents != [] && r.preferred == best && Settled(r))
            && r.joined == d.joined
  {
    var best := Select(d.mem, d.minHop, d.preferred, d.parents);
    if best.Some? {
      var d1 := d.(preferred := best, rank := RankVia(d.mem[best.value], d.minHop, 0));
      RemoveAll(d1);
    }
  }

  lemma ParentEventSettles(d: DagRep, s: nat)
    requires ListInv(d) && d.minRank <= d.rank && s < MAX_PARENTS
    ensures var r := ParentEvent(d, s).0;
            ListInv(r) && r.minRank <= r.rank && Settled(r) && r.joined == d.joined && r.mem == d.mem
  {
    SelectParentInv(d);
    var (d1, best) := SelectParent(d);
    if best.None? { RemoveAll(d1.(rank := INFINITE_RANK)); }
  }

  /** The parent an event settles on is the old preferred one, unbeaten by the threshold, or the
      best one, beating it by the threshold. */
  lemma ParentEventChoice(d: DagRep, s: nat)
    requires ListInv(d) && s < MAX_PARENTS && NoWrap(d.mem, d.minHop, d.parents)
    ensures var r := ParentEvent(d, s).0;
            r.preferred.Some? ==>
              Keeps(d.mem, d.minHop, d.preferred, d.parents, r.preferred.value)
              || Switches(d.mem, d.minHop, d.preferred, d.parents, r.preferred.value)
  {
    SelectHysteresis(d.mem, d.minHop, d.preferred, d.parents);
    SelectParentList(d);
    hide Keeps, Switches, Select, NoWrap, AcceptableRank, DagRank, RankVia, ListInv;
    var (d1, best) := SelectParent(d);
    if best.None? {
      RankKeepsList(d1, INFINITE_RANK);
      RemoveAll(d1.(rank := INFINITE_RANK));
    }
  }

  lemma RankKeepsList(d: DagRep, rank: U16)
    requires ListInv(d)
    ensures ListInv(d.(rank := rank))
  {}

  lemma SelectParentList(d: DagRep)
    requires ListInv(d)
    ensures var (r, best) := SelectParent(d);
            ListInv(r) && (best.Some? ==> r.preferred == best == Select(d.mem, d.minHop, d.preferred, d.parents))
  {
    hide Select, AcceptableRank, DagRank, RankVia;
    var best := Select(d.mem, d.minHop, d.preferred, d.parents);
    if best.Some? {
      RemoveAll(d.(preferred := best, rank := RankVia(d.mem[best.value], d.minHop, 0)));
    }
  }

  /** With a rank bound that does not wrap, a settled node's parent is within the permitted increase. */
  lemma SettledBound(d: DagRep)
    requires Settled(d) && d.parents != [] && d.maxRankInc != 0 && d.minRank + d.maxRankInc < 0x1_0000
    ensures DagRank(d.mem[d.preferred.value].rank, d.minHop) <= DagRank(d.minRank + d.maxRankInc, d.minHop)
  {
    if d.rank == d.minRank {
      DivMonotone(d.mem[d.preferred.value].rank, d.minRank + d.maxRankInc, d.minHop);
    }
  }

  lemma DivMonotone(a: nat, b: nat, k: nat)
    requires a <= b && k > 0
    ensures a / k <= b / k
  {
    var x, y := a / k, b / k + 1;
    assert x * k <= a && b < y * k;
    assert (y - x) * k > 0;
    assert y > x;
  }

  // -------------------------------------------------------------- the pool is full

  /** Eight parents is when `memb_alloc` fails, and not before. */
  lemma PoolFull(d: DagRep)
    requires ListInv(d)
    ensures |d.parents| <= MAX_PARENTS
    ensures |d.parents| == MAX_PARENTS <==> FreeBlock(d.used).None?
  {
    var have := Elements(d.parents);
    DistinctCard(d.parents);
    AllSlots();
    assert have <= Slots8() by {
      assert forall x :: x in have ==> x in d.parents && x < MAX_PARENTS;
    }
    SubsetCard(have, Slots8());
    var free := FreeBlock(d.used);
    hide FreeBlock;
    if free.Some? {
      assert free.value in Slots8() && free.value !in have;
    } else {
      assert forall s :: s in Slots8() ==> s in d.parents;
      assert have == Slots8();
    }
  }

  ghost function Slots8(): set<nat> { {0, 1, 2, 3, 4, 5, 6, 7} }

  lemma AllSlots()
    ensures |Slots8()| == MAX_PARENTS && forall s: nat :: s in Slots8() <==> s < MAX_PARENTS
  {}

  // ----------------------------------------------------------- one step, and runs

  /** A DIO from a new sender that finds eight parents, none but the preferred one worse than it. */
  ghost predicate Refused(d: DagRep, dio: Dio, from: nat)
    requires Shape(d)
  {
    Find(d.mem, d.parents, from).None? && |d.parents| == MAX_PARENTS
    && forall s :: s in d.parents && d.preferred != Some(s) ==> d.mem[s].rank <= dio.rank
  }

  lemma EtxAndRankKeepList(d: DagRep, s: nat, p: Parent)
    requires ListInv(d) && s < MAX_PARENTS && p.addr == d.mem[s].addr
    ensures ListInv(d.(mem := d.mem[s := p]))
  {}

  lemma DtsnKeepsSettled(d: DagRep, s: nat, dtsn: U8)
    requires ListInv(d) && Settled(d) && s < MAX_PARENTS
    ensures var r := d.(mem := d.mem[s := d.mem[s].(dtsn := dtsn)]); ListInv(r) && Settled(r)
  {}

  /** Room for a new sender: the preferred parent is never the one that goes. */
  lemma MakeRoom(d: DagRep, dio: Dio, from: nat)
    requires ListInv(d) && Find(d.mem, d.parents, from).None?
    ensures var room := if |d.parents| == MAX_PARENTS then RemoveWorst(d, dio.rank) else d;
            var (r, p) := AddParent(room, dio, from);
            && ListInv(room) && room.preferred == d.preferred && room.mem == d.mem
            && room.rank == d.rank && room.minRank == d.minRank && room.joined == d.joined
            && ListInv(r) && (p.None? <==> Refused(d, dio, from)) && (p.None? ==> r == d)
            && (p.Some? ==> r.mem[p.value].addr == from)
  {
    PoolFull(d);
    var w := Worst(d.mem, d.preferred, d.parents);
    if |d.parents| == MAX_PARENTS && w.Some? && d.mem[w.value].rank > dio.rank {
      RemoveParentInv(d, w.value);
      var room := RemoveParent(d, w.value);
      PoolFull(room);
      AddParentInv(room, dio, from);
    } else {
      AddParentInv(d, dio, from);
    }
  }

  /** A DIO of the current version is either refused, changing nothing, or leaves the node settled. */
  lemma CurrentDioOutcome(d: DagRep, dio: Dio, from: nat)
    requires Inv(d) && d.joined
    ensures var r := CurrentDio(d, dio, from);
            Inv(r) && r.joined && if Refused(d, dio, from) then r == d else Settled(r)
  {
    hide ParentEvent, Settled, AddParent, RemoveWorst, Find;
    var known := Find(d.mem, d.parents, from);
    if known.Some? {
      HeardParent(d, dio, known.value);
    } else {
      MakeRoom(d, dio, from);
      var room := if |d.parents| == MAX_PARENTS then RemoveWorst(d, dio.rank) else d;
      AddParentFrame(room, dio, from);
      var (d1, p) := AddParent(room, dio, from);
      if p.Some? { HeardParent(d1, dio, p.value); }
    }
  }

  /** The tail of `rpl_process_dio`, once the sender has a block. */
  lemma HeardParent(d: DagRep, dio: Dio, s: nat)
    requires Shape(d) && ListInv(d) && d.minRank <= d.rank && s < MAX_PARENTS
    ensures var q := d.mem[s].(etx := dio.etx, rank := dio.rank);
            var (d2, valid) := ParentEvent(d.(mem := d.mem[s := q]), s);
            var r := if valid then d2.(mem := d2.mem[s := d2.mem[s].(dtsn := dio.dtsn)]) else d2;
            ListInv(r) && Settled(r) && r.minRank <= r.rank && r.joined == d.joined
  {
    hide ParentEvent, Settled, ListInv;
    var q := d.mem[s].(etx := dio.etx, rank := dio.rank);
    var d1 := d.(mem := d.mem[s := q]);
    EtxAndRankKeepList(d, s, q);
    ParentEventSettles(d1, s);
    DtsnKeepsSettled(ParentEvent(d1, s).0, s, dio.dtsn);
  }

  lemma AddParentFrame(d: DagRep, dio: Dio, from: nat)
    requires Shape(d)
    ensures var r := AddParent(d, dio, from).0; r.rank == d.rank && r.minRank == d.minRank && r.joined == d.joined
  {}

  /** A DIO that makes the node join under an objective function it does not have. */
  predicate LeaksBlock(d: DagRep, e: Event) {
    e.DioReceived? && !d.joined && e.dio.mop == MOP_DEFAULT && e.dio.rank != INFINITE_RANK && e.dio.ocp != 1
  }

  lemma JoinInv(d: DagRep, dio: Dio, from: nat)
    requires Inv(d) && !d.joined
    ensures Inv(Join(d, dio, from)) <==> dio.ocp == 1
    ensures dio.ocp == 1 ==> Join(d, dio, from).joined
  {
    var d0 := d.(parents := [], rank := INFINITE_RANK, minRank := INFINITE_RANK, preferred := None);
    PoolFull(d);
    AddParentInv(d0, dio, from);
    assert AddParent(d0, dio, from).0.parents != [];
  }

  lemma GlobalRepairInv(d: DagRep, dio: Dio, from: nat)
    requires Inv(d) && d.joined
    ensures var r := GlobalRepair(d, dio, from);
            && Inv(r) && r.joined && r.version == dio.version && r.rank == r.minRank == RankWithout(dio.rank)
            && |r.parents| == 1 && r.mem[r.parents[0]].addr == from
  {
    RemoveAll(d);
    var d1 := RemoveParents(d, d.parents, 0).(version := dio.version);
    PoolFull(d1);
    AddParentInv(d1, dio, from);
  }

  /** A node that joins is settled on the sender at once, exactly when the objective code point is known. */
  lemma JoinSettles(d: DagRep, dio: Dio, from: nat)
    requires Inv(d) && !d.joined && dio.rank != INFINITE_RANK
    ensures dio.ocp == 1 ==>
              var r := Join(d, dio, from);
              Settled(r) && |r.parents| == 1 && r.mem[r.parents[0]].addr == from && r.mem[r.parents[0]].rank == dio.rank
              && r.version == dio.version && r.dagId == dio.dagId
    ensures Join(d, dio, from).joined <==> dio.ocp == 1
  {
    if dio.ocp == 1 { JoinInv(d, dio, from); }
    hide Inv, ListInv;
    PoolFull(d);
  }

  lemma ParentEventFrame(d: DagRep, s: nat)
    requires Shape(d) && s < MAX_PARENTS
    ensures var r := ParentEvent(d, s).0; r.version == d.version && r.dagId == d.dagId && r.joined == d.joined
  {
    var best := Select(d.mem, d.minHop, d.preferred, d.parents);
    hide Select, RankVia, AcceptableRank, DagRank;
    if best.Some? {
      var d1 := d.(preferred := best, rank := RankVia(d.mem[best.value], d.minHop, 0));
      RemoveParentsFrame(d1, d1.parents, 0);
    }
    var e := SelectParent(d).0.(rank := INFINITE_RANK);
    RemoveParentsFrame(e, e.parents, 0);
  }

  lemma CurrentDioFrame(d: DagRep, dio: Dio, from: nat)
    requires Shape(d)
    ensures var r := CurrentDio(d, dio, from); r.version == d.version && r.dagId == d.dagId && r.joined == d.joined
  {
    hide ParentEvent, Find, Worst, FreeBlock, Without;
    var known := Find(d.mem, d.parents, from);
    var room := if known.None? && |d.parents| == MAX_PARENTS then RemoveWorst(d, dio.rank) else d;
    var (d1, p) := if known.Some? then (d, known) else AddParent(room, dio, from);
    if p.Some? {
      var q := d1.mem[p.value].(etx := dio.etx, rank := dio.rank);
      ParentEventFrame(d1.(mem := d1.mem[p.value := q]), p.value);
    }
  }

  lemma GlobalRepairFrame(d: DagRep, dio: Dio, from: nat)
    requires Shape(d)
    ensures var r := GlobalRepair(d, dio, from); r.version == dio.version && r.dagId == d.dagId && r.joined == d.joined
  {
    hide FreeBlock, Without;
    RemoveParentsFrame(d, d.parents, 0);
  }

  /** A node inside a DODAG stays in it, and, unless it is the root, only ever moves to newer versions. */
  lemma VersionGrows(d: DagRep, e: Event)
    requires Shape(d) && d.joined
    ensures Step(d, e).joined && Step(d, e).dagId == d.dagId
    ensures d.rank != d.minHop ==> d.version <= Step(d, e).version
  {
    hide ParentEvent, Find, FirstUpdated, CurrentDio, GlobalRepair;
    match e {
      case DioReceived(from, dio) =>
        CurrentDioFrame(d, dio, from);
        GlobalRepairFrame(d, dio, from);
      case Recalculate =>
        var p := FirstUpdated(d.mem, d.parents);
        if p.Some? {
          ParentEventFrame(d.(mem := d.mem[p.value := d.mem[p.value].(updated := false)]), p.value);
        }
      case _ =>
    }
  }

  /** Every step keeps the invariant, but for the one event whose block is never given back. */
  lemma StepInv(d: DagRep, e: Event)
    requires Inv(d)
    ensures Inv(Step(d, e)) <==> !LeaksBlock(d, e)
  {
    hide CurrentDio, Join, GlobalRepair, ParentEvent, Settled;
    match e {
      case DioReceived(from, dio) =>
        if d.joined {
          CurrentDioOutcome(d, dio, from);
          GlobalRepairInv(d, dio, from);
        } else {
          JoinInv(d, dio, from);
        }
      case LinkReport(addr, known, etx) =>
      case NeighbourLost(addr) =>
      case Recalculate =>
        var p := FirstUpdated(d.mem, d.parents);
        if d.joined && p.Some? {
          var q := d.mem[p.value].(updated := false);
          EtxAndRankKeepList(d, p.value, q);
          ParentEventSettles(d.(mem := d.mem[p.value := q]), p.value);
        }
    }
  }

  /** The recalculation leaves the node settled whenever some parent was marked. */
  lemma RecalculateSettles(d: DagRep)
    requires Inv(d) && d.joined && FirstUpdated(d.mem, d.parents).Some?
    ensures Settled(Step(d, Recalculate))
  {
    var p := FirstUpdated(d.mem, d.parents);
    var q := d.mem[p.value].(updated := false);
    EtxAndRankKeepList(d, p.value, q);
    ParentEventSettles(d.(mem := d.mem[p.value := q]), p.value);
  }

  /** Over every run of DIOs for the supported objective function, link reports, lost neighbours and
      recalculations, from a node that has received nothing. */
  lemma RunInv(events: seq<Event>)
    requires forall e <- events :: e.DioReceived? ==> e.dio.ocp == 1
    ensures Inv(Run(FRESH, events)) && |Run(FRESH, events).parents| <= MAX_PARENTS
  {
    RunKeepsInv(FRESH, events);
    PoolFull(Run(FRESH, events));
  }

  lemma {:induction false} RunKeepsInv(d: DagRep, events: seq<Event>)
    requires Inv(d) && forall e <- events :: e.DioReceived? ==> e.dio.ocp == 1
    ensures Inv(Run(d, events))
    decreases |events|
  {
    if events != [] {
      StepInv(d, events[0]);
      RunKeepsInv(Step(d, events[0]), events[1..]);
    }
  }

  // ---------------------------------------------------------------- leaked blocks

  /** Block `s` is allocated, and nothing that a node inside a DODAG does can reach it. */
  predicate Orphan(d: DagRep, s: nat) {
    s < |d.used| && d.used[s] && (d.joined ==> s !in d.parents)
  }

  lemma RemoveParentOrphan(d: DagRep, p: nat, s: nat)
    requires Shape(d) && p < MAX_PARENTS && Orphan(d, s) && s !in d.parents && p != s
    ensures Orphan(RemoveParent(d, p), s) && s !in RemoveParent(d, p).parents
  {}

  lemma {:induction false} RemoveParentsOrphan(d: DagRep, todo: seq<nat>, minimum: U16, s: nat)
    requires Shape(d) && Slots(d.mem, todo) && Orphan(d, s) && s !in d.parents && s !in todo
    ensures var r := RemoveParents(d, todo, minimum); Orphan(r, s) && s !in r.parents
    decreases |todo|
  {
    if todo != [] {
      RemoveParentOrphan(d, todo[0], s);
      var d1 := if d.mem[todo[0]].rank >= minimum then RemoveParent(d, todo[0]) else d;
      RemoveParentsOrphan(d1, todo[1..], minimum, s);
    }
  }

  lemma AddParentOrphan(d: DagRep, dio: Dio, from: nat, s: nat)
    requires Shape(d) && Orphan(d, s) && s !in d.parents
    ensures var r := AddParent(d, dio, from).0; Orphan(r, s) && s !in r.parents && r.joined == d.joined
  {}

  lemma ParentEventOrphan(d: DagRep, p: nat, s: nat)
    requires Shape(d) && p < MAX_PARENTS && Orphan(d, s) && s !in d.parents
    ensures var r := ParentEvent(d, p).0; Orphan(r, s) && s !in r.parents
  {
    hide Select, RankVia, AcceptableRank, DagRank;
    var best := Select(d.mem, d.minHop, d.preferred, d.parents);
    if best.Some? {
      var d1 := d.(preferred := best, rank := RankVia(d.mem[best.value], d.minHop, 0));
      RemoveParentsOrphan(d1, d1.parents, 0, s);
    }
    var e := SelectParent(d).0.(rank := INFINITE_RANK);
    RemoveParentsOrphan(e, e.parents, 0, s);
  }

  lemma CurrentDioOrphan(d: DagRep, dio: Dio, from: nat, s: nat)
    requires Shape(d) && Orphan(d, s) && s !in d.parents
    ensures var r := CurrentDio(d, dio, from); Orphan(r, s) && s !in r.parents
  {
    hide ParentEvent, Find, FreeBlock, Without, AddParent;
    var known := Find(d.mem, d.parents, from);
    var room := if known.None? && |d.parents| == MAX_PARENTS then RemoveWorst(d, dio.rank) else d;
    var w := Worst(d.mem, d.preferred, d.parents);
    if w.Some? { RemoveParentOrphan(d, w.value, s); }
    AddParentOrphan(room, dio, from, s);
    var (d1, p) := if known.Some? then (d, known) else AddParent(room, dio, from);
    if p.Some? {
      var q := d1.mem[p.value].(etx := dio.etx, rank := dio.rank);
      ParentEventOrphan(d1.(mem := d1.mem[p.value := q]), p.value, s);
    }
  }

  lemma StepOrphan(d: DagRep, e: Event, s: nat)
    requires Shape(d) && Orphan(d, s)
    ensures Orphan(Step(d, e), s)
  {
    hide ParentEvent, CurrentDio, Find, FirstUpdated, FreeBlock, Without, RankVia, AddParent;
    match e {
      case DioReceived(from, dio) =>
        if d.joined {
          CurrentDioOrphan(d, dio, from, s);
          RemoveParentsOrphan(d, d.parents, 0, s);
          AddParentOrphan(RemoveParents(d, d.parents, 0).(version := dio.version), dio, from, s);
        } else {
          AddParentOrphan(d.(parents := [], rank := INFINITE_RANK, minRank := INFINITE_RANK, preferred := None), dio, from, s);
        }
      case Recalculate =>
        var p := FirstUpdated(d.mem, d.parents);
        if d.joined && p.Some? {
          ParentEventOrphan(d.(mem := d.mem[p.value := d.mem[p.value].(updated := false)]), p.value, s);
        }
      case _ =>
    }
  }

  lemma {:induction false} RunOrphan(d: DagRep, events: seq<Event>, s: nat)
    requires Shape(d) && Orphan(d, s)
    ensures Orphan(Run(d, events), s)
    decreases |events|
  {
    if events != [] {
      StepOrphan(d, events[0], s);
      RunOrphan(Step(d, events[0]), events[1..], s);
    }
  }

  /** A DIO with another objective code point, at a node outside a DODAG with a free block: the block is
      taken, and no run whatever gives it back. */
  lemma LeakIsForGood(d: DagRep, e: Event, events: seq<Event>)
    requires Shape(d) && LeaksBlock(d, e) && FreeBlock(d.used).Some?
    ensures var s := FreeBlock(d.used).value;
            var r := Run(Step(d, e), events);
            !Step(d, e).joined && s < |r.used| && r.used[s] && (r.joined ==> s !in r.parents)
  {
    RunOrphan(Step(d, e), events, FreeBlock(d.used).value);
  }

  function Unused(used: seq<bool>): nat {
    if used == [] then 0 else (if used[0] then 0 else 1) + Unused(used[1..])
  }

  lemma {:induction false} AllocateOne(used: seq<bool>)
    ensures FreeBlock(used).Some? <==> Unused(used) > 0
    ensures FreeBlock(used).Some? ==> Unused(used[FreeBlock(used).value := true]) == Unused(used) - 1
  {
    if used != [] && used[0] {
      AllocateOne(used[1..]);
      if FreeBlock(used).Some? {
        assert used[FreeBlock(used).value := true][1..] == used[1..][FreeBlock(used[1..]).value := true];
      }
    } else if used != [] {
      assert used[0 := true][1..] == used[1..];
    }
  }

  /** A DIO that a node outside a DODAG takes as the one to join by. */
  predicate Invites(e: Event) { e.DioReceived? && e.dio.mop == MOP_DEFAULT && e.dio.rank != INFINITE_RANK }

  /** The invitations under an objective function the node does not have. */
  function Leaks(events: seq<Event>): nat
    decreases |events|
  {
    if events == [] then 0 else (if Invites(events[0]) && events[0].dio.ocp != 1 then 1 else 0) + Leaks(events[1..])
  }

  lemma OutsideStep(d: DagRep, e: Event)
    requires Shape(d) && !d.joined
    ensures var r := Step(d, e);
            && (r.joined <==> Invites(e) && e.dio.ocp == 1 && Unused(d.used) > 0)
            && Unused(r.used) == if Invites(e) && Unused(d.used) > 0 then Unused(d.used) - 1 else Unused(d.used)
  {
    AllocateOne(d.used);
    hide Unused, FreeBlock;
  }

  /** How many such invitations a node can take: the first one for the supported objective function makes it
      join if and only if fewer of the others came before it than it had free blocks, eight at the start. */
  lemma {:induction false} JoinsExact(d: DagRep, events: seq<Event>, e: Event)
    requires Shape(d) && !d.joined && Invites(e) && e.dio.ocp == 1
    requires forall x <- events :: Invites(x) ==> x.dio.ocp != 1
    ensures !Run(d, events).joined
    ensures Step(Run(d, events), e).joined <==> Leaks(events) < Unused(d.used)
    decreases |events|
  {
    hide Step;
    if events == [] {
      OutsideStep(d, e);
    } else {
      OutsideStep(d, events[0]);
      JoinsExact(Step(d, events[0]), events[1..], e);
    }
  }

  /** With no free block left a node outside a DODAG never joins one again. */
  lemma {:induction false} NeverJoins(d: DagRep, events: seq<Event>)
    requires Shape(d) && !d.joined && Unused(d.used) == 0
    ensures !Run(d, events).joined
    decreases |events|
  {
    hide Step;
    if events != [] {
      OutsideStep(d, events[0]);
      NeverJoins(Step(d, events[0]), events[1..]);
    }
  }

  /** Eight invitations from a DODAG of another objective function shut a new node out for good. */
  lemma ShutOut(events: seq<Event>, later: seq<Event>)
    requires forall x <- events :: Invites(x) ==> x.dio.ocp != 1
    requires Leaks(events) >= MAX_PARENTS
    ensures !Run(Run(FRESH, events), later).joined
  {
    FreshUnused();
    LeaksUse(FRESH, events);
    NeverJoins(Run(FRESH, events), later);
  }

  lemma {:induction false} LeaksUse(d: DagRep, events: seq<Event>)
    requires Shape(d) && !d.joined && forall x <- events :: Invites(x) ==> x.dio.ocp != 1
    ensures var r := Run(d, events);
            !r.joined && Unused(r.used) == if Leaks(events) < Unused(d.used) then Unused(d.used) - Leaks(events) else 0
    decreases |events|
  {
    hide Step, Unused;
    if events != [] {
      OutsideStep(d, events[0]);
      LeaksUse(Step(d, events[0]), events[1..]);
    }
  }

  lemma {:induction false} FreshUnused()
    ensures Unused(FRESH.used) == MAX_PARENTS
  {
    AllFree(FRESH.used);
  }

  lemma {:induction false} AllFree(used: seq<bool>)
    requires forall i :: 0 <= i < |used| ==> !used[i]
    ensures Unused(used) == |used|
  {
    if used != [] { AllFree(used[1..]); }
  }

  /** One DIO with another objective code point is enough to break the invariant. */
  lemma UnknownObjectiveLeaks()
    ensures var d := Step(FRESH, DioReceived(7, Dio(1, 0, 256, MOP_DEFAULT, 0, 0, 0, 0, 256)));
            !d.joined && d.used[0] && !Inv(d)
  {
    assert FreeBlock(FRESH.used) == Some(0);
  }
}
