// What each event does to an RPL node, in numbers: when it keeps its parents and
// with which rank, what it stores of a DIO, and which DIOs it takes at all.
module RplSteps {
  import opened Bytes
  import opened RplEtx
  import opened RplDag

  // --------------------------------------------------------------------- numbers

  /** The rank of a parent and the cost of the link to it, a sixteenth of the metric times the hop increase in 16 bits,
      cut off at 65535. */
  function Through(p: Parent, hop: Hop): nat {
    var sum := p.rank + p.linkMetric / 16 * hop % 65536;
    if sum > 65535 then 65535 else sum
  }

  /** Five hops of 256 more, or 65535. */
  function FiveMore(rank: nat): nat { if rank == 0 || rank > 64255 then 65535 else rank + 1280 }

  lemma RankNumbers(p: Parent, hop: Hop)
    ensures RankVia(p, hop, 0) == Through(p, hop)
  {}

  /** With a base rank given, that takes the place of the parent's. */
  lemma RankFrom(p: Parent, hop: Hop, base: U16)
    requires base > 0
    ensures RankVia(p, hop, base) == Through(p.(rank := base), hop)
  {}

  lemma WithoutNumbers(rank: U16)
    ensures RankWithout(rank) == FiveMore(rank)
  {}

  /** A parent that advertises no ETX although it is not at the root counts for 12800, one hundred transmissions; the
      others for what they advertise and eight times the link metric. */
  lemma PathNumbers(p: Parent, hop: Hop)
    ensures PathMetric(p, hop) == if p.etx == 0 && p.rank > hop then 12800 else (p.etx + 8 * p.linkMetric) % 65536
  {}

  /** So it never is preferred to a usable one for less, by the threshold of 64, whichever comes first. */
  lemma UnmeasuredComesLast(mem: Pool, hop: Hop, preferred: Option<nat>, a: nat, b: nat)
    requires a < |mem| && b < |mem| && a != b
    requires mem[a].etx == 0 && mem[a].rank > hop && !(mem[b].etx == 0 && mem[b].rank > hop)
    requires 64 <= (mem[b].etx + 8 * mem[b].linkMetric) % 65536 <= 12736
    ensures BestParent(mem, hop, preferred, a, b) == b && BestParent(mem, hop, preferred, b, a) == b
  {
    PathNumbers(mem[a], hop);
    PathNumbers(mem[b], hop);
    hide PathMetric;
  }

  /** The node may have a parent of this rank. */
  predicate Permitted(minRank: nat, maxRankInc: nat, hop: Hop, rank: nat) {
    maxRankInc == 0 || rank / hop <= (minRank + maxRankInc) % 65536 / hop
  }

  lemma PermittedExact(d: DagRep, rank: U16)
    ensures AcceptableRank(d, rank) <==> rank != 65535 && Permitted(d.minRank, d.maxRankInc, d.minHop, rank)
  {}

  // ------------------------------------------------------------- the selection loop

  /** None is selected exactly when every parent has the infinite rank. */
  lemma {:induction false} NoneSelected(mem: Pool, hop: Hop, preferred: Option<nat>, list: seq<nat>)
    requires Slots(mem, list)
    ensures Select(mem, hop, preferred, list).None? <==> forall k :: 0 <= k < |list| ==> mem[list[k]].rank == 65535
  {
    if list != [] {
      NoneSelected(mem, hop, preferred, list[..|list| - 1]);
      hide BestParent, Metric;
      if Select(mem, hop, preferred, list).None? {
        forall k | 0 <= k < |list| ensures mem[list[k]].rank == 65535 {
          if k < |list| - 1 { assert list[..|list| - 1][k] == list[k]; }
        }
      } else if mem[list[|list| - 1]].rank == 65535 {
        var k :| 0 <= k < |list| - 1 && mem[list[..|list| - 1][k]].rank != 65535;
        assert list[k] == list[..|list| - 1][k];
      }
    }
  }

  /** Position `i` has the least metric of the usable ones, and none behind it has the same. */
  ghost predicate LastLeast(mem: Pool, hop: Hop, list: seq<nat>, i: nat)
    requires Slots(mem, list) && i < |list|
  {
    && mem[list[i]].rank != 65535
    && (forall j :: 0 <= j < i && mem[list[j]].rank != 65535 ==> Metric(mem, hop, list[i]) <= Metric(mem, hop, list[j]))
    && (forall j :: i < j < |list| && mem[list[j]].rank != 65535 ==> Metric(mem, hop, list[i]) < Metric(mem, hop, list[j]))
  }

  /** Without a preferred parent in the list, the last of those with the least metric is selected. */
  lemma {:induction false} LeastSelected(mem: Pool, hop: Hop, preferred: Option<nat>, list: seq<nat>) returns (i: nat)
    requires Slots(mem, list) && Select(mem, hop, preferred, list).Some? && (preferred.Some? ==> preferred.value !in list)
    ensures i < |list| && Select(mem, hop, preferred, list) == Some(list[i]) && LastLeast(mem, hop, list, i)
  {
    hide Metric;
    var last := |list| - 1;
    var front := list[..last];
    if Select(mem, hop, preferred, front).None? {
      i := last;
      NoneSelected(mem, hop, preferred, front);
      assert forall j :: 0 <= j < last ==> front[j] == list[j];
    } else {
      i := LeastSelected(mem, hop, preferred, front);
      assert forall j :: 0 <= j < last ==> front[j] == list[j];
      if mem[list[last]].rank != 65535 && Metric(mem, hop, list[i]) >= Metric(mem, hop, list[last]) { i := last; }
    }
  }

  // --------------------------------------------------------------- a parent event

  /** The node after a parent event that keeps the parents, `c` being the chosen one. */
  function Kept(d: DagRep, c: nat): DagRep
    requires Shape(d) && c < MAX_PARENTS
  {
    var rank := Through(d.mem[c], d.minHop);
    d.(preferred := Some(c), rank := rank, minRank := if rank < d.minRank then rank else d.minRank)
  }

  /** And after one that loses them all. */
  ghost predicate Orphaned(d: DagRep, r: DagRep) {
    && r == d.(parents := [], preferred := None, rank := 65535, used := r.used)
    && |r.used| == MAX_PARENTS && forall k :: 0 <= k < MAX_PARENTS ==> !r.used[k]
  }

  /** The node keeps its parents through `c`: the rank it gives is a new minimum, or its own is permitted. */
  predicate Holds(d: DagRep, c: nat)
    requires Shape(d) && c < MAX_PARENTS
  {
    Through(d.mem[c], d.minHop) < d.minRank || Permitted(d.minRank, d.maxRankInc, d.minHop, d.mem[c].rank)
  }

  /** A parent event keeps the list, and takes the selected parent and the rank through it, if and only if some parent is
      usable and the selected one holds; otherwise nothing is left. It reports the candidate as valid if nothing was
      left, or if a rank of five more hops than the candidate's would be permitted. */
  lemma ParentEventExact(d: DagRep, s: nat)
    requires ListInv(d) && s < MAX_PARENTS
    ensures var best := Select(d.mem, d.minHop, d.preferred, d.parents);
            var (r, valid) := ParentEvent(d, s);
            && (best.None? <==> forall k :: 0 <= k < |d.parents| ==> d.mem[d.parents[k]].rank == 65535)
            && if best.Some? && Holds(d, best.value) then
                 && r == Kept(d, best.value)
                 && (valid <==> d.mem[s].rank != 65535 && FiveMore(d.mem[s].rank) != 65535
                                && Permitted(r.minRank, r.maxRankInc, r.minHop, FiveMore(d.mem[s].rank)))
               else Orphaned(d, r) && valid
  {
    var best := Select(d.mem, d.minHop, d.preferred, d.parents);
    NoneSelected(d.mem, d.minHop, d.preferred, d.parents);
    if best.None? {
      EventLoses(d, s);
    } else {
      var c := best.value;
      RankNumbers(d.mem[c], d.minHop);
      var rank := RankVia(d.mem[c], d.minHop, 0);
      var d1 := d.(preferred := best, rank := rank);
      PermittedExact(d1, d.mem[c].rank);
      if Holds(d, c) {
        EventKeeps(d, s, c);
      } else {
        RemoveAll(d1);
        EventDrops(d, s, c);
      }
    }
  }

  lemma EventLoses(d: DagRep, s: nat)
    requires ListInv(d) && s < MAX_PARENTS && Select(d.mem, d.minHop, d.preferred, d.parents).None?
    ensures var (r, valid) := ParentEvent(d, s); Orphaned(d, r) && valid
  {
    RankKeepsList(d, INFINITE_RANK);
    RemoveAll(d.(rank := INFINITE_RANK));
    hide Select;
  }

  lemma EventKeeps(d: DagRep, s: nat, c: nat)
    requires ListInv(d) && s < MAX_PARENTS && Select(d.mem, d.minHop, d.preferred, d.parents) == Some(c) && Holds(d, c)
    requires c < MAX_PARENTS && d.mem[c].rank != 65535
    ensures var (r, valid) := ParentEvent(d, s);
            && r == Kept(d, c)
            && (valid <==> d.mem[s].rank != 65535 && FiveMore(d.mem[s].rank) != 65535
                           && Permitted(r.minRank, r.maxRankInc, r.minHop, FiveMore(d.mem[s].rank)))
  {
    RankNumbers(d.mem[c], d.minHop);
    WithoutNumbers(d.mem[s].rank);
    PermittedExact(d.(preferred := Some(c), rank := Through(d.mem[c], d.minHop)), d.mem[c].rank);
    PermittedExact(Kept(d, c), RankWithout(d.mem[s].rank));
    hide Select, RankVia, RankWithout, AcceptableRank, DagRank, Permitted, FiveMore, Through, ListInv;
  }

  lemma EventDrops(d: DagRep, s: nat, c: nat)
    requires ListInv(d) && s < MAX_PARENTS && Select(d.mem, d.minHop, d.preferred, d.parents) == Some(c) && !Holds(d, c)
    requires c < MAX_PARENTS
    ensures var (r, valid) := ParentEvent(d, s); Orphaned(d, r) && valid
  {
    RankNumbers(d.mem[c], d.minHop);
    var d1 := d.(preferred := Some(c), rank := RankVia(d.mem[c], d.minHop, 0));
    PermittedExact(d1, d.mem[c].rank);
    hide Select, RankVia, AcceptableRank, Permitted, Through;
    RemoveAll(d1);
    var d2 := RemoveParents(d1, d1.parents, 0);
    RankKeepsList(d2, INFINITE_RANK);
    RemoveAll(d2.(rank := INFINITE_RANK));
  }

  // ------------------------------------------------------------------------- DIOs

  /** A parent as a DIO from a new sender makes it, with the initial metric of five transmissions. */
  predicate NewParent(p: Parent, was: Parent, dio: Dio, from: nat) {
    p == Parent(from, dio.rank, 80, dio.etx, 0, was.updated)
  }

  /** Block `s` was free, is that parent now, and nothing else in the pool changed. */
  ghost predicate Placed(mem: Pool, r: Pool, s: nat, dio: Dio, from: nat) {
    && |mem| == |r| == MAX_PARENTS && s < MAX_PARENTS
    && NewParent(r[s], mem[s], dio, from) && forall k :: 0 <= k < MAX_PARENTS && k != s ==> r[k] == mem[k]
  }

  /** The node knows the sender: its entry takes rank and ETX. */
  ghost predicate Updated(d: DagRep, dio: Dio, from: nat, d1: DagRep, s: nat)
    requires Shape(d)
  {
    && s in d.parents && s < MAX_PARENTS && d.mem[s].addr == from
    && d1 == d.(mem := d.mem[s := Parent(from, dio.rank, d.mem[s].linkMetric, dio.etx, d.mem[s].dtsn, d.mem[s].updated)])
  }

  /** Position `i` has the highest rank of all that are not the preferred parent, and none before it has the same. */
  ghost predicate WorstAt(mem: Pool, preferred: Option<nat>, list: seq<nat>, i: nat)
    requires Slots(mem, list) && i < |list|
  {
    && preferred != Some(list[i])
    && (forall j :: 0 <= j < i && preferred != Some(list[j]) ==> mem[list[j]].rank < mem[list[i]].rank)
    && (forall j :: i < j < |list| && preferred != Some(list[j]) ==> mem[list[j]].rank <= mem[list[i]].rank)
  }

  /** That is the one `Worst` finds. */
  lemma {:induction false} FirstWorst(mem: Pool, preferred: Option<nat>, list: seq<nat>) returns (i: nat)
    requires Slots(mem, list) && Worst(mem, preferred, list).Some?
    ensures i < |list| && Worst(mem, preferred, list) == Some(list[i]) && WorstAt(mem, preferred, list, i)
  {
    var last := |list| - 1;
    var front := list[..last];
    assert forall j :: 0 <= j < last ==> front[j] == list[j];
    if Worst(mem, preferred, front).None? {
      i := last;
      assert forall j :: 0 <= j < last ==> front[j] in front;
    } else {
      i := FirstWorst(mem, preferred, front);
      if preferred != Some(list[last]) && mem[list[last]].rank > mem[list[i]].rank {
        i := last;
        assert forall j :: 0 <= j < last ==> front[j] in front;
      }
    }
  }

  ghost predicate IsWorst(d: DagRep, s: nat)
    requires Shape(d)
  {
    exists i :: 0 <= i < |d.parents| && d.parents[i] == s && WorstAt(d.mem, d.preferred, d.parents, i)
  }

  /** It does not: the sender comes last in the list, if need be in place of the first of those with the highest rank, the
      preferred one apart, which is higher than that of the DIO. */
  ghost predicate Admitted(d: DagRep, dio: Dio, from: nat, d1: DagRep, s: nat)
    requires Shape(d)
  {
    && Placed(d.mem, d1.mem, s, dio, from)
    && d1 == d.(mem := d1.mem, parents := d1.parents, used := d1.used)
    && if |d.parents| < MAX_PARENTS then !d.used[s] && d1.parents == d.parents + [s] && d1.used == d.used[s := true]
       else
         && s in d.parents && d.preferred != Some(s) && d.mem[s].rank > dio.rank && d1.used == d.used
         && d1.parents == Without(d.parents, s) + [s]
         && IsWorst(d, s)
  }

  /** The parent event, and the sender's DTSN noted if it was reported as valid. */
  function Then(d1: DagRep, s: nat, dio: Dio): DagRep
    requires Shape(d1) && s < MAX_PARENTS
  {
    var (d2, valid) := ParentEvent(d1, s);
    if valid then d2.(mem := d2.mem[s := d2.mem[s].(dtsn := dio.dtsn)]) else d2
  }

  /** A DIO of the current version: refused, or noted and followed by a parent event for its sender. */
  lemma HeardExact(d: DagRep, dio: Dio, from: nat) returns (d1: DagRep, s: nat)
    requires Inv(d) && d.joined
    ensures if Refused(d, dio, from) then CurrentDio(d, dio, from) == d
            else
              && Shape(d1) && ListInv(d1) && s < MAX_PARENTS && CurrentDio(d, dio, from) == Then(d1, s, dio)
              && if exists t <- d.parents :: t < MAX_PARENTS && d.mem[t].addr == from then Updated(d, dio, from, d1, s)
                 else Admitted(d, dio, from, d1, s)
  {
    hide ParentEvent;
    d1, s := d, 0;
    var known := Find(d.mem, d.parents, from);
    if known.Some? {
      s := known.value;
      d1 := d.(mem := d.mem[s := d.mem[s].(etx := dio.etx, rank := dio.rank)]);
      EtxAndRankKeepList(d, s, d1.mem[s]);
    } else if !Refused(d, dio, from) {
      d1, s := AdmitsNew(d, dio, from);
    } else {
      MakeRoom(d, dio, from);
    }
  }

  lemma AdmitsNew(d: DagRep, dio: Dio, from: nat) returns (d1: DagRep, s: nat)
    requires Inv(d) && d.joined && Find(d.mem, d.parents, from).None? && !Refused(d, dio, from)
    ensures Shape(d1) && ListInv(d1) && s < MAX_PARENTS && CurrentDio(d, dio, from) == Then(d1, s, dio)
    ensures Admitted(d, dio, from, d1, s)
  {
    MakeRoom(d, dio, from);
    PoolFull(d);
    hide FreeBlock, Worst, Refused, ListInv, Admitted;
    var room := if |d.parents| == MAX_PARENTS then RemoveWorst(d, dio.rank) else d;
    d1, s := AddParent(room, dio, from).0, AddParent(room, dio, from).1.value;
    if |d.parents| == MAX_PARENTS { Replaces(d, dio, from); } else { Appends(d, dio, from); }
    hide Inv, RemoveWorst;
    AdmittedThen(d, dio, from, room);
  }

  lemma AdmittedThen(d: DagRep, dio: Dio, from: nat, room: DagRep)
    requires Shape(d) && Find(d.mem, d.parents, from).None? && Shape(room)
    requires room == if |d.parents| == MAX_PARENTS then RemoveWorst(d, dio.rank) else d
    requires AddParent(room, dio, from).1.Some?
    ensures CurrentDio(d, dio, from) == Then(AddParent(room, dio, from).0, AddParent(room, dio, from).1.value, dio)
  {
    hide ParentEvent, Find, FreeBlock, Worst, RemoveWorst, Without;
    var (d1, p) := AddParent(room, dio, from);
    var s := p.value;
    assert d1.mem[s := d1.mem[s].(etx := dio.etx, rank := dio.rank)] == d1.mem;
    assert d1 == d1.(mem := d1.mem);
  }

  lemma AddedAt(d: DagRep, dio: Dio, from: nat, s: nat)
    requires Shape(d) && FreeBlock(d.used) == Some(s)
    ensures AddParent(d, dio, from)
            == (d.(mem := d.mem[s := Parent(from, dio.rank, 80, dio.etx, 0, d.mem[s].updated)], used := d.used[s := true],
                   parents := Without(d.parents, s) + [s]), Some(s))
  {
    hide FreeBlock, Without;
  }

  lemma Appends(d: DagRep, dio: Dio, from: nat)
    requires Inv(d) && |d.parents| < MAX_PARENTS
    ensures var (d1, p) := AddParent(d, dio, from); p.Some? && Admitted(d, dio, from, d1, p.value)
  {
    PoolFull(d);
    hide FreeBlock;
    var s := FreeBlock(d.used).value;
    WithoutExact(d.parents, s);
    AddedAt(d, dio, from, s);
    hide Without, AddParent;
  }

  lemma Replaces(d: DagRep, dio: Dio, from: nat)
    requires Inv(d) && |d.parents| == MAX_PARENTS && Find(d.mem, d.parents, from).None? && !Refused(d, dio, from)
    ensures var (d1, p) := AddParent(RemoveWorst(d, dio.rank), dio, from); p.Some? && Admitted(d, dio, from, d1, p.value)
  {
    var w := SomeoneGoes(d, dio, from);
    hide FreeBlock, Worst, Find, RemoveWorst, Refused, Admitted, AddParent, Without, IsWorst;
    assert Distinct(d.parents);
    hide Inv, Distinct;
    ReplacedAt(d, dio, from, w, RemoveWorst(d, dio.rank));
  }

  lemma ReplacedAt(d: DagRep, dio: Dio, from: nat, w: nat, room: DagRep)
    requires Shape(d) && Distinct(d.parents) && |d.parents| == MAX_PARENTS && Shape(room)
    requires w in d.parents && w < MAX_PARENTS && d.preferred != Some(w) && d.mem[w].rank > dio.rank && d.used[w]
    requires FreeBlock(room.used) == Some(w) && room == d.(parents := Without(d.parents, w), used := d.used[w := false])
    requires IsWorst(d, w)
    ensures var (d1, p) := AddParent(room, dio, from); p == Some(w) && Admitted(d, dio, from, d1, w)
  {
    WithoutExact(d.parents, w);
    WithoutExact(room.parents, w);
    assert d.used[w := false][w := true] == d.used;
    AddedAt(room, dio, from, w);
    PlacedAt(d.mem, w, dio, from);
    hide Without, AddParent, Distinct, FreeBlock, Placed, Slots, IsWorst;
  }

  lemma PlacedAt(mem: Pool, s: nat, dio: Dio, from: nat)
    requires |mem| == MAX_PARENTS && s < MAX_PARENTS
    ensures Placed(mem, mem[s := Parent(from, dio.rank, 80, dio.etx, 0, mem[s].updated)], s, dio, from)
  {}

  /** In a full pool the worst parent makes room for a DIO that is not refused. */
  lemma SomeoneGoes(d: DagRep, dio: Dio, from: nat) returns (w: nat)
    requires Inv(d) && |d.parents| == MAX_PARENTS && Find(d.mem, d.parents, from).None? && !Refused(d, dio, from)
    ensures var room := RemoveWorst(d, dio.rank);
            && w in d.parents && w < MAX_PARENTS && d.preferred != Some(w) && d.mem[w].rank > dio.rank
            && FreeBlock(room.used) == Some(w) && d.used[w]
            && room == d.(parents := Without(d.parents, w), used := d.used[w := false])
            && IsWorst(d, w)
  {
    var room := RemoveWorst(d, dio.rank);
    FreedIsFirst(d, dio, room);
    hide FreeBlock, Without, Find;
    w := Worst(d.mem, d.preferred, d.parents).value;
    var i := FirstWorst(d.mem, d.preferred, d.parents);
    hide Worst, WorstAt;
    assert d.parents[i] == w;
  }

  /** In a full pool the block just freed is the one that is allocated. */
  lemma FreedIsFirst(d: DagRep, dio: Dio, room: DagRep)
    requires ListInv(d)
    requires room == if |d.parents| == MAX_PARENTS then RemoveWorst(d, dio.rank) else d
    ensures |d.parents| == MAX_PARENTS && room != d ==>
              var w := Worst(d.mem, d.preferred, d.parents);
              w.Some? && d.mem[w.value].rank > dio.rank && FreeBlock(room.used) == w && room == RemoveParent(d, w.value)
  {
    PoolFull(d);
    if |d.parents| == MAX_PARENTS && room != d {
      var w := Worst(d.mem, d.preferred, d.parents);
      hide Worst, Without;
      OnlyFree(d.used, w.value);
    }
  }

  lemma OnlyFree(used: seq<bool>, w: nat)
    requires |used| == MAX_PARENTS && w < MAX_PARENTS && forall k :: 0 <= k < MAX_PARENTS && k != w ==> used[k]
    ensures FreeBlock(used[w := false]) == Some(w)
  {
    var b := FreeBlock(used[w := false]);
    hide FreeBlock;
    assert !used[w := false][w];
  }

  /** The parameters of the DODAG are those of the DIO, and its sender is the only parent, by which the node takes its
      rank; under another objective function it just holds a block with it. */
  ghost predicate JoinedBy(d: DagRep, dio: Dio, from: nat, r: DagRep)
    requires Shape(d)
  {
    exists s :: 0 <= s < MAX_PARENTS && !d.used[s] && Placed(d.mem, r.mem, s, dio, from) &&
      if dio.ocp == 1 then
        var rank := Through(r.mem[s], dio.minHop);
        r == DagRep(true, dio.dagId, dio.version, rank, rank, dio.maxRankInc, dio.minHop, Some(s), [s], r.mem, d.used[s := true])
      else
        r == d.(rank := 65535, minRank := 65535, preferred := None, parents := [s], mem := r.mem, used := d.used[s := true])
  }

  lemma JoinExact(d: DagRep, dio: Dio, from: nat)
    requires Inv(d) && !d.joined
    ensures JoinedBy(d, dio, from, Join(d, dio, from))
  {
    PoolFull(d);
    hide FreeBlock, ListInv;
    var s := FreeBlock(d.used).value;
    var d0 := d.(parents := [], rank := INFINITE_RANK, minRank := INFINITE_RANK, preferred := None);
    AddedAt(d0, dio, from, s);
    PlacedAt(d.mem, s, dio, from);
    assert Without([], s) + [s] == [s];
    hide AddParent, Placed;
    JoinRank(AddParent(d0, dio, from).0.mem[s], dio);
  }

  lemma JoinRank(p: Parent, dio: Dio)
    requires p.rank == dio.rank
    ensures RankVia(p, dio.minHop, dio.rank) == Through(p, dio.minHop)
  {}

  /** The sender of a newer version is the only parent; the rank is five hops of 256 above its own. */
  ghost predicate RepairedBy(d: DagRep, dio: Dio, from: nat, r: DagRep)
    requires Shape(d)
  {
    exists s :: 0 <= s < MAX_PARENTS && Placed(d.mem, r.mem, s, dio, from) && |r.used| == MAX_PARENTS
      && (forall k :: 0 <= k < MAX_PARENTS ==> (r.used[k] <==> k == s))
      && r == d.(version := dio.version, preferred := None, parents := [s], rank := FiveMore(dio.rank),
                 minRank := FiveMore(dio.rank), mem := r.mem, used := r.used)
  }

  lemma RepairExact(d: DagRep, dio: Dio, from: nat)
    requires Inv(d) && d.joined
    ensures RepairedBy(d, dio, from, GlobalRepair(d, dio, from))
  {
    RemoveAll(d);
    var d1 := RemoveParents(d, d.parents, 0).(version := dio.version);
    RankKeepsList(d1, d1.rank);
    PoolFull(d1);
    WithoutNumbers(dio.rank);
    hide FreeBlock, RankWithout, FiveMore, RemoveParents;
    var s := FreeBlock(d1.used).value;
    AddedAt(d1, dio, from, s);
    PlacedAt(d.mem, s, dio, from);
    assert Without([], s) + [s] == [s];
    hide AddParent, Placed;
    var r := GlobalRepair(d, dio, from);
    assert forall k :: 0 <= k < MAX_PARENTS ==> (r.used[k] <==> k == s);
  }

  /** Were there no block for it, the node would be left with no parent and the infinite rank. */
  lemma RepairWithoutRoom(d: DagRep, dio: Dio, from: nat)
    requires Shape(d) && FreeBlock(RemoveParents(d, d.parents, 0).used).None?
    ensures GlobalRepair(d, dio, from) == RemoveParents(d, d.parents, 0).(version := dio.version, rank := 65535)
  {
    hide FreeBlock, RemoveParents;
  }

  /** DIOs the node does not act on: another mode of operation; to join by, the infinite rank; then another DODAG, an
      older version, a rank below that of a root, or the node is the root itself. */
  predicate Ignored(d: DagRep, dio: Dio) {
    || dio.mop != 2
    || (!d.joined && dio.rank == 65535)
    || (d.joined && dio.dagId != d.dagId)
    || (d.joined && dio.version < d.version)
    || (d.joined && dio.version == d.version && (dio.rank < d.minHop || d.rank == d.minHop))
  }

  /** A DIO is ignored, joined by, followed to its newer version, which a root answers with one newer still, or heard. */
  lemma DioExact(d: DagRep, dio: Dio, from: nat)
    requires Inv(d)
    ensures var r := ProcessDio(d, dio, from);
            if Ignored(d, dio) then r == d
            else if !d.joined then JoinedBy(d, dio, from, r)
            else if dio.version > d.version then
              if d.rank == d.minHop then r == d.(version := (dio.version + 1) % 256) else RepairedBy(d, dio, from, r)
            else r == CurrentDio(d, dio, from)
  {
    if !d.joined { JoinExact(d, dio, from); } else { RepairExact(d, dio, from); }
    hide CurrentDio, GlobalRepair, Join, JoinedBy, RepairedBy, Inv;
  }

  // --------------------------------------------------------------- other reports

  /** What a report about a neighbour leaves: its entry marked, with the new metric, and a rank of 65535 when the link
      layer does not know it any more; all else stays. */
  lemma LinkExact(d: DagRep, addr: nat, known: bool, etx: U8, s: nat)
    requires Inv(d) && d.joined && s in d.parents && s < MAX_PARENTS && d.mem[s].addr == addr
    ensures Step(d, LinkReport(addr, known, etx))
            == d.(mem := d.mem[s := Parent(addr, if known then d.mem[s].rank else 65535, etx, d.mem[s].etx, d.mem[s].dtsn, true)])
    ensures Step(d, NeighbourLost(addr))
            == d.(mem := d.mem[s := Parent(addr, 65535, d.mem[s].linkMetric, d.mem[s].etx, d.mem[s].dtsn, true)])
  {
    hide Distinct;
    var p := Find(d.mem, d.parents, addr);
    hide Find;
    assert p.Some? && p.value == s;
  }

  /** A report about anyone else, or to a node outside a DODAG, changes nothing. */
  lemma OthersIgnored(d: DagRep, e: Event)
    requires Inv(d) && (e.LinkReport? || e.NeighbourLost?)
    requires d.joined ==> forall s <- d.parents :: s < MAX_PARENTS ==> d.mem[s].addr != e.addr
    ensures Step(d, e) == d
  {
    hide Distinct;
  }

  /** Outside a DODAG reports and recalculations change nothing, whatever a lost DIO has left in the list. */
  lemma OutsideIgnored(d: DagRep, e: Event)
    requires Shape(d) && !d.joined && !e.DioReceived?
    ensures Step(d, e) == d
  {}

  /** The node with the mark of its parent at position `k` taken off. */
  function Unmarked(d: DagRep, k: nat): DagRep
    requires Shape(d) && k < |d.parents|
  {
    var s := d.parents[k];
    d.(mem := d.mem[s := d.mem[s].(updated := false)])
  }

  /** The recalculation is a parent event for the first marked parent, its mark taken off, and nothing without one. */
  lemma RecalculateExact(d: DagRep) returns (k: nat)
    requires Inv(d)
    ensures if d.joined && exists j :: 0 <= j < |d.parents| && d.mem[d.parents[j]].updated then
              && k < |d.parents| && d.mem[d.parents[k]].updated && (forall j :: 0 <= j < k ==> !d.mem[d.parents[j]].updated)
              && Step(d, Recalculate) == ParentEvent(Unmarked(d, k), d.parents[k]).0
            else Step(d, Recalculate) == d
  {
    k := FirstMarked(d.mem, d.parents);
    RecalculateStep(d);
    hide FirstUpdated, ParentEvent, ListInv, Step;
  }

  lemma RecalculateStep(d: DagRep)
    requires Inv(d)
    ensures d.joined && FirstUpdated(d.mem, d.parents).Some? ==>
              var p := FirstUpdated(d.mem, d.parents).value;
              Step(d, Recalculate) == ParentEvent(d.(mem := d.mem[p := d.mem[p].(updated := false)]), p).0
    ensures !d.joined || FirstUpdated(d.mem, d.parents).None? ==> Step(d, Recalculate) == d
  {
    hide FirstUpdated, ParentEvent, ListInv;
  }

  lemma {:induction false} FirstMarked(mem: Pool, list: seq<nat>) returns (k: nat)
    requires Slots(mem, list)
    ensures FirstUpdated(mem, list).None? ==> forall j :: 0 <= j < |list| ==> !mem[list[j]].updated
    ensures FirstUpdated(mem, list).Some? ==>
              && k < |list| && FirstUpdated(mem, list) == Some(list[k]) && mem[list[k]].updated
              && forall j :: 0 <= j < k ==> !mem[list[j]].updated
  {
    k := 0;
    if list != [] && !mem[list[0]].updated {
      var rest := list[1..];
      assert forall j :: 0 <= j < |rest| ==> rest[j] == list[j + 1];
      var r := FirstMarked(mem, rest);
      if FirstUpdated(mem, rest).Some? {
        k := r + 1;
      } else {
        forall j | 0 <= j < |list| ensures !mem[list[j]].updated { if j > 0 { assert !mem[rest[j - 1]].updated; } }
      }
    }
  }
}
