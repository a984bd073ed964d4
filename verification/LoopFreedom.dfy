// A whole network of nodes, each in a state that RplDag can reach: when what
// every node stores about its preferred parent is up to date, following
// preferred parents comes back only over hops that cost nothing.
module LoopFreedom {
  import opened Bytes
  import opened RplEtx
  import opened RplDag

  /** Node states by address. */
  type Network = map<nat, DagRep>

  predicate HasParent(net: Network, a: nat) {
    a in net && net[a].preferred.Some? && net[a].preferred.value < |net[a].mem|
  }

  function StoredParent(net: Network, a: nat): Parent
    requires HasParent(net, a)
  {
    net[a].mem[net[a].preferred.value]
  }

  function Next(net: Network, a: nat): nat
    requires HasParent(net, a)
  {
    StoredParent(net, a).addr
  }

  /** Every node with a preferred parent is settled on it and knows that parent's current rank. */
  ghost predicate UpToDate(net: Network) {
    forall a :: HasParent(net, a) ==>
      && Settled(net[a]) && net[a].parents != []
      && Next(net, a) in net && net[Next(net, a)].rank == StoredParent(net, a).rank
  }

  /** The hop from `a` to its preferred parent costs something in 16 bits. */
  predicate HopCounts(net: Network, a: nat)
    requires HasParent(net, a)
  {
    Advances(StoredParent(net, a), net[a].minHop)
  }

  ghost predicate Quiescent(net: Network) {
    UpToDate(net) && forall a :: HasParent(net, a) ==> HopCounts(net, a)
  }

  /** `path` follows preferred parents upwards. */
  ghost predicate Upward(net: Network, path: seq<nat>) {
    && (forall i :: 0 <= i < |path| ==> path[i] in net)
    && (forall i :: 0 <= i < |path| - 1 ==> HasParent(net, path[i]) && path[i + 1] == Next(net, path[i]))
  }

  lemma RankUpward(net: Network, a: nat)
    requires UpToDate(net) && HasParent(net, a)
    ensures Next(net, a) in net && net[Next(net, a)].rank <= net[a].rank
    ensures net[Next(net, a)].rank < net[a].rank <==> HopCounts(net, a)
  {
    RankGrowsExact(StoredParent(net, a), net[a].minHop);
  }

  /** The hops of a path that count. */
  ghost function Counting(net: Network, path: seq<nat>): nat
    requires Upward(net, path)
  {
    if |path| <= 1 then 0
    else
      var last := |path| - 1;
      assert Upward(net, path[..last]);
      Counting(net, path[..last]) + if HopCounts(net, path[last - 1]) then 1 else 0
  }

  /** The rank drops by at least one for every hop that counts, and not at all when none does. */
  lemma {:induction false} RanksAlongPath(net: Network, path: seq<nat>)
    requires UpToDate(net) && Upward(net, path) && path != []
    ensures net[path[|path| - 1]].rank + Counting(net, path) <= net[path[0]].rank
    ensures Counting(net, path) == 0 ==> net[path[|path| - 1]].rank == net[path[0]].rank
  {
    if |path| > 1 {
      var front := path[..|path| - 1];
      assert Upward(net, front);
      RanksAlongPath(net, front);
      RankUpward(net, front[|front| - 1]);
    }
  }

  /** Following preferred parents comes back to where it began only over hops none of which counts. */
  lemma {:induction false} LoopsAreFree(net: Network, path: seq<nat>)
    requires UpToDate(net) && Upward(net, path) && |path| > 1 && path[0] == path[|path| - 1]
    ensures forall k :: 0 <= k < |path| - 1 ==> !HopCounts(net, path[k])
  {
    RanksAlongPath(net, path);
    NoneCounts(net, path);
  }

  lemma {:induction false} NoneCounts(net: Network, path: seq<nat>)
    requires Upward(net, path) && Counting(net, path) == 0
    ensures forall k :: 0 <= k < |path| - 1 ==> !HopCounts(net, path[k])
  {
    if |path| > 1 { NoneCounts(net, path[..|path| - 1]); }
  }

  lemma {:induction false} AllCount(net: Network, path: seq<nat>)
    requires Quiescent(net) && Upward(net, path) && path != []
    ensures Counting(net, path) == |path| - 1
  {
    if |path| > 1 { AllCount(net, path[..|path| - 1]); }
  }

  /** Where every hop counts: no cycle, and no chain of preferred parents longer than the rank space. */
  lemma LoopFree(net: Network, path: seq<nat>)
    requires Quiescent(net) && Upward(net, path)
    ensures forall i, j :: 0 <= i < j < |path| ==> path[i] != path[j]
    ensures |path| <= 0x1_0000
  {
    forall i, j | 0 <= i < j < |path| ensures path[i] != path[j] {
      var part := path[i..j + 1];
      assert Upward(net, part);
      assert HopCounts(net, part[0]);
      if path[i] == path[j] {
        LoopsAreFree(net, part);
        assert false;
      }
    }
    if path != [] {
      RanksAlongPath(net, path);
      AllCount(net, path);
    }
  }

  /** The link metrics and hop increases of a sane configuration are enough. */
  lemma SaneIsQuiescent(net: Network)
    requires UpToDate(net)
    requires forall a :: HasParent(net, a) ==>
               net[a].minHop <= 4369 && StoredParent(net, a).linkMetric >= NI_ETX_DIVISOR
    ensures Quiescent(net)
  {
    forall a | HasParent(net, a) ensures HopCounts(net, a) {
      RankGrows(StoredParent(net, a), net[a].minHop);
    }
  }

  /** Climbing from any node ends, at a node without a preferred parent. */
  function Root(net: Network, a: nat): (r: nat)
    requires Quiescent(net) && a in net
    ensures r in net && !HasParent(net, r) && net[r].rank <= net[a].rank
    decreases net[a].rank
  {
    if HasParent(net, a) then
      assert net[Next(net, a)].rank < net[a].rank by { RankUpward(net, a); }
      Root(net, Next(net, a))
    else a
  }

  // ------------------------------------------------------------- nodes that talk

  /** Something happens to one of the nodes. */
  datatype Act = Act(at: nat, event: Event)

  ghost predicate Formed(net: Network) { forall a <- net :: Shape(net[a]) }

  function NetStep(net: Network, act: Act): (r: Network)
    requires Formed(net)
    ensures Formed(r) && r.Keys == net.Keys
  {
    if act.at in net then net[act.at := Step(net[act.at], act.event)] else net
  }

  function NetRun(net: Network, acts: seq<Act>): (r: Network)
    requires Formed(net)
    ensures Formed(r) && r.Keys == net.Keys
    decreases |acts|
  {
    if acts == [] then net else NetRun(NetStep(net, acts[0]), acts[1..])
  }

  /** What `update_metric_container` puts in the DIOs of a node. */
  function AdvertisedEtx(d: DagRep): U16
    requires Shape(d)
  {
    if d.rank == d.minHop then 0
    else if d.preferred.None? then MAX_PATH_COST * ETX_DIVISOR
    else PathMetric(d.mem[d.preferred.value], d.minHop)
  }

  /** `dio_output`. */
  function Advert(d: DagRep, dtsn: U8): Dio
    requires Shape(d)
  {
    Dio(d.dagId, d.version, d.rank, MOP_DEFAULT, AdvertisedEtx(d), dtsn, 1, d.maxRankInc, d.minHop)
  }

  /** The ETX in it: 0 from a root, 12800 from a node without a preferred parent or with an unmeasured one, else what that
      parent advertised and eight times the metric of the link to it. */
  lemma AdvertExact(d: DagRep, dtsn: U8)
    requires Shape(d)
    ensures var a := Advert(d, dtsn);
            && a.(etx := 0) == Dio(d.dagId, d.version, d.rank, 2, 0, dtsn, 1, d.maxRankInc, d.minHop)
            && (d.rank == d.minHop ==> a.etx == 0)
            && (d.rank != d.minHop && d.preferred.None? ==> a.etx == 12800)
            && (d.rank != d.minHop && d.preferred.Some? ==>
                  var p := d.mem[d.preferred.value];
                  a.etx == if p.etx == 0 && p.rank > d.minHop then 12800 else (p.etx + 8 * p.linkMetric) % 65536)
  {}

  /** A DIO from a node of the network says what that node says just then. */
  ghost predicate Honest(net: Network, act: Act)
    requires Formed(net)
  {
    act.event.DioReceived? && act.event.from in net ==>
      && act.event.from != act.at && net[act.event.from].joined
      && act.event.dio == Advert(net[act.event.from], act.event.dio.dtsn)
  }

  ghost predicate HonestRun(net: Network, acts: seq<Act>)
    requires Formed(net)
    decreases |acts|
  {
    acts == [] || (Honest(net, acts[0]) && HonestRun(NetStep(net, acts[0]), acts[1..]))
  }

  /** The events of one node. */
  function At(acts: seq<Act>, a: nat): seq<Event>
    decreases |acts|
  {
    if acts == [] then [] else (if acts[0].at == a then [acts[0].event] else []) + At(acts[1..], a)
  }

  /** What becomes of a node is its own run. */
  lemma {:induction false} NodeRuns(net: Network, acts: seq<Act>, a: nat)
    requires Formed(net) && a in net
    ensures NetRun(net, acts)[a] == Run(net[a], At(acts, a))
    decreases |acts|
  {
    hide Step, Shape;
    if acts != [] {
      NodeRuns(NetStep(net, acts[0]), acts[1..], a);
      var first := if acts[0].at == a then [acts[0].event] else [];
      assert At(acts, a) == first + At(acts[1..], a);
      if acts[0].at == a {
        assert At(acts, a)[0] == acts[0].event && At(acts, a)[1..] == At(acts[1..], a);
      } else {
        assert At(acts, a) == At(acts[1..], a);
      }
    }
  }

  /** Nodes that have received nothing. */
  ghost predicate Outset(net: Network) { forall a :: a in net ==> New(net[a]) }

  predicate New(d: DagRep) { d == FRESH }

  lemma {:induction false} AtEvents(acts: seq<Act>, a: nat)
    ensures forall e <- At(acts, a) :: exists act <- acts :: act.event == e
    decreases |acts|
  {
    if acts != [] {
      AtEvents(acts[1..], a);
      forall e | e in At(acts, a) ensures exists act <- acts :: act.event == e {
        if e in At(acts[1..], a) {
          var act :| act in acts[1..] && act.event == e;
          assert act in acts;
        } else {
          assert acts[0] in acts;
        }
      }
    }
  }

  /** Every node keeps the invariant, whatever the nodes hear from each other. */
  lemma NetInv(net: Network, acts: seq<Act>, a: nat)
    requires Outset(net) && a in net && forall act <- acts :: act.event.DioReceived? ==> act.event.dio.ocp == 1
    ensures Formed(net) && Inv(NetRun(net, acts)[a])
  {
    NodeRuns(net, acts, a);
    AtEvents(acts, a);
    hide Inv;
    RunInv(At(acts, a));
  }

  // -------------------------------------------------------- a loop that is reached

  ghost predicate Reaches(net: Network, acts: seq<Act>, result: Network) {
    Formed(net) && HonestRun(net, acts) && NetRun(net, acts) == result
  }

  lemma {:induction false} OneMore(net: Network, acts: seq<Act>, middle: Network, act: Act)
    requires Reaches(net, acts, middle) && Honest(middle, act)
    ensures Reaches(net, acts + [act], NetStep(middle, act))
    decreases |acts|
  {
    hide Step, Shape, Honest;
    if acts == [] {
      assert (acts + [act])[0] == act && (acts + [act])[1..] == [];
      assert HonestRun(NetStep(net, act), []) && NetRun(NetStep(net, act), []) == NetStep(net, act);
    } else {
      assert (acts + [act])[1..] == acts[1..] + [act] && (acts + [act])[0] == acts[0];
      OneMore(NetStep(net, acts[0]), acts[1..], middle, act);
    }
  }

  const ROOT: nat := 9
  const ROOT_DIO: Dio := Dio(1, 0, 256, MOP_DEFAULT, 0, 1, 1, 768, 256)

  /** Three stages of one of two nodes that join the DODAG of `ROOT` and hear of each other: with the root as the
      only parent, with the other as the second one, and with the root lost and 12 as the metric of the other. */
  function Alone(): DagRep {
    FRESH.(joined := true, dagId := 1, rank := 1536, minRank := 1536, maxRankInc := 768, preferred := Some(0), parents := [0],
           mem := FRESH.mem[0 := Parent(ROOT, 256, INITIAL_LINK_METRIC, 0, 0, false)], used := FRESH.used[0 := true])
  }

  function Paired(other: nat): DagRep {
    Alone().(parents := [0, 1], used := Alone().used[1 := true],
             mem := Alone().mem[1 := Parent(other, 1536, INITIAL_LINK_METRIC, 640, 0, false)])
  }

  function Turned(other: nat): DagRep {
    Paired(other).(preferred := Some(1),
                   mem := Paired(other).mem[0 := Parent(ROOT, INFINITE_RANK, INITIAL_LINK_METRIC, 0, 0, false)]
                                           [1 := Parent(other, 1536, 12, 640, 0, true)])
  }

  lemma JoinsRoot()
    ensures Step(FRESH, DioReceived(ROOT, ROOT_DIO)) == Alone()
  {
    assert FreeBlock(FRESH.used) == Some(0);
  }

  lemma Advertised()
    ensures Shape(Alone()) && Alone().joined && Advert(Alone(), 1) == ROOT_DIO.(rank := 1536, etx := 640)
  {}

  lemma AddsOther(other: nat)
    ensures var r := AddParent(Alone(), ROOT_DIO.(rank := 1536, etx := 640), other);
            r.0 == Paired(other) && r.1 == Some(1)
  {
    var d := Alone();
    assert FreeBlock(d.used) == Some(1) by { assert FreeBlock(d.used[1..]) == Some(0); }
    assert Without([0], 1) == [0] + Without([0][1..], 1) == [0];
    assert [0] + [1] == [0, 1];
  }

  lemma OnlyRoot(other: nat)
    requires other != ROOT
    ensures Shape(Alone()) && Find(Alone().mem, Alone().parents, other) == None
  {
    assert Find(Alone().mem, [0], other) == Find(Alone().mem, [0][1..], other) == None;
  }

  lemma HearsOther(other: nat)
    requires other != ROOT
    ensures Step(Alone(), DioReceived(other, ROOT_DIO.(rank := 1536, etx := 640))) == Paired(other)
  {
    hide AddParent, Find, ParentEvent;
    OnlyRoot(other);
    AddsOther(other);
    RootPreferred(other);
    var d := Paired(other);
    assert d.mem[1 := d.mem[1].(etx := 640, rank := 1536)] == d.mem;
  }

  /** The root's path metric is 640, that of the other 1280. */
  lemma RootPreferred(other: nat)
    ensures var d := Paired(other);
            Shape(d) && ParentEvent(d, 1) == (d, false)
  {
    var d := Paired(other);
    assert [0, 1][..1] == [0] && [0][..0] == [];
    assert Select(d.mem, 256, Some(0), [0]) == Pick(d.mem, 256, Some(0), None, 0) == Some(0);
    assert Select(d.mem, 256, Some(0), [0, 1]) == Pick(d.mem, 256, Some(0), Some(0), 1) == Some(0);
    assert SelectParent(d) == (d, Some(0));
  }

  /** After a report for the other, and after the root was lost as well. */
  function Reported(other: nat): DagRep {
    Paired(other).(mem := Paired(other).mem[1 := Parent(other, 1536, 12, 640, 0, true)])
  }

  function Bereft(other: nat): DagRep {
    Reported(other).(mem := Reported(other).mem[0 := Parent(ROOT, INFINITE_RANK, INITIAL_LINK_METRIC, 0, 0, true)])
  }

  lemma FindsBoth(mem: Pool, other: nat)
    requires |mem| == MAX_PARENTS && mem[0].addr == ROOT && mem[1].addr == other && other != ROOT
    ensures Find(mem, [0, 1], ROOT) == Some(0) && Find(mem, [0, 1], other) == Some(1)
  {
    assert Find(mem, [0, 1], other) == Find(mem, [0, 1][1..], other);
  }

  lemma HearsReport(other: nat)
    requires other != ROOT
    ensures Shape(Paired(other)) && Step(Paired(other), LinkReport(other, true, 12)) == Reported(other)
  {
    FindsBoth(Paired(other).mem, other);
    hide Find;
  }

  lemma LosesRoot(other: nat)
    requires other != ROOT
    ensures Shape(Reported(other)) && Step(Reported(other), NeighbourLost(ROOT)) == Bereft(other)
  {
    FindsBoth(Reported(other).mem, other);
    hide Find;
  }

  lemma TurnsToOther(other: nat)
    ensures Shape(Bereft(other)) && Step(Bereft(other), Recalculate) == Turned(other)
  {
    var d := Bereft(other);
    var d1 := d.(mem := d.mem[0 := d.mem[0].(updated := false)]);
    assert FirstUpdated(d.mem, [0, 1]) == Some(0);
    OtherPreferred(other, d1);
    hide ParentEvent, FirstUpdated;
  }

  lemma OtherPreferred(other: nat, d: DagRep)
    requires d == Turned(other).(preferred := Some(0))
    ensures Shape(d) && ParentEvent(d, 0).0 == Turned(other)
  {
    assert [0, 1][..1] == [0] && [0][..0] == [];
    assert Select(d.mem, 256, Some(0), [0]) == Pick(d.mem, 256, Some(0), None, 0) == None;
    assert Select(d.mem, 256, Some(0), [0, 1]) == Pick(d.mem, 256, Some(0), None, 1) == Some(1);
    assert SelectParent(d) == (Turned(other), Some(1));
  }

  /** What happens to a node until then. */
  function History(other: nat): seq<Event> {
    [DioReceived(ROOT, ROOT_DIO), DioReceived(other, ROOT_DIO.(rank := 1536, etx := 640)),
     LinkReport(other, true, 12), NeighbourLost(ROOT), Recalculate]
  }

  function Pair(x: DagRep, y: DagRep): Network { map[1 := x, 2 := y] }

  lemma Moves(acts: seq<Act>, x: DagRep, y: DagRep, at: nat, e: Event)
    requires Shape(x) && Shape(y) && 1 <= at <= 2
    requires Reaches(Pair(FRESH, FRESH), acts, Pair(x, y)) && Honest(Pair(x, y), Act(at, e))
    ensures Reaches(Pair(FRESH, FRESH), acts + [Act(at, e)], if at == 1 then Pair(Step(x, e), y) else Pair(x, Step(y, e)))
  {
    hide Step, Shape, Reaches, Honest;
    OneMore(Pair(FRESH, FRESH), acts, Pair(x, y), Act(at, e));
    assert NetStep(Pair(x, y), Act(at, e)) == if at == 1 then Pair(Step(x, e), y) else Pair(x, Step(y, e));
  }

  /** The two histories side by side. */
  function LoopActs(): seq<Act> {
    var one, two := History(2), History(1);
    [Act(1, one[0]), Act(2, two[0]), Act(1, one[1]), Act(2, two[1]),
     Act(1, one[2]), Act(1, one[3]), Act(1, one[4]), Act(2, two[2]), Act(2, two[3]), Act(2, two[4])]
  }

  /** A DIO from the root, which is not one of the two, or from the other one as it is. */
  lemma Speaks(x: DagRep, y: DagRep, at: nat, from: nat, dio: Dio)
    requires Shape(x) && Shape(y)
    requires from == ROOT || (from == 1 != at && x.joined && Advert(x, dio.dtsn) == dio)
             || (from == 2 != at && y.joined && Advert(y, dio.dtsn) == dio)
    ensures Formed(Pair(x, y)) && Honest(Pair(x, y), Act(at, DioReceived(from, dio)))
  {
    hide Advert, Shape;
  }

  lemma BothJoin()
    ensures Shape(Alone())
    ensures Reaches(Pair(FRESH, FRESH), [Act(1, History(2)[0])] + [Act(2, History(1)[0])], Pair(Alone(), Alone()))
  {
    hide Step, Reaches, Honest, Advert, Alone, FRESH;
    Started();
    JoinsRoot();
    Speaks(FRESH, FRESH, 1, ROOT, ROOT_DIO);
    Moves([], FRESH, FRESH, 1, DioReceived(ROOT, ROOT_DIO));
    assert [] + [Act(1, History(2)[0])] == [Act(1, History(2)[0])];
    Speaks(Alone(), FRESH, 2, ROOT, ROOT_DIO);
    Moves([Act(1, History(2)[0])], Alone(), FRESH, 2, DioReceived(ROOT, ROOT_DIO));
  }

  lemma BothPaired()
    ensures Reaches(Pair(FRESH, FRESH), LoopActs()[..4], Pair(Paired(2), Paired(1)))
  {
    hide Step, Reaches, Honest, Advert, Alone, Paired, Shape, FRESH;
    var dio := ROOT_DIO.(rank := 1536, etx := 640);
    Advertised();
    HearsOther(1);
    HearsOther(2);
    StillAdvertised(2);
    BothJoin();
    var acts := [Act(1, History(2)[0])] + [Act(2, History(1)[0])];
    Speaks(Alone(), Alone(), 1, 2, dio);
    Moves(acts, Alone(), Alone(), 1, DioReceived(2, dio));
    Speaks(Paired(2), Alone(), 2, 1, dio);
    Moves(acts + [Act(1, History(2)[1])], Paired(2), Alone(), 2, DioReceived(1, dio));
    assert LoopActs()[..4] == acts + [Act(1, History(2)[1])] + [Act(2, History(1)[1])];
  }

  lemma Started()
    ensures Shape(FRESH) && Reaches(Pair(FRESH, FRESH), [], Pair(FRESH, FRESH))
  {}

  lemma StillAdvertised(other: nat)
    ensures Shape(Paired(other)) && Paired(other).joined && Advert(Paired(other), 1) == ROOT_DIO.(rank := 1536, etx := 640)
  {}

  lemma OneTurns(acts: seq<Act>, y: DagRep)
    requires Shape(y) && Reaches(Pair(FRESH, FRESH), acts, Pair(Paired(2), y))
    ensures var h := History(2);
            Reaches(Pair(FRESH, FRESH), acts + [Act(1, h[2]), Act(1, h[3]), Act(1, h[4])], Pair(Turned(2), y))
  {
    hide Step, Reaches, Alone, Paired, Reported, Bereft, Turned, FRESH;
    var h := History(2);
    HearsReport(2);
    LosesRoot(2);
    TurnsToOther(2);
    Moves(acts, Paired(2), y, 1, h[2]);
    var a := acts + [Act(1, h[2])];
    Moves(a, Reported(2), y, 1, h[3]);
    Moves(a + [Act(1, h[3])], Bereft(2), y, 1, h[4]);
    assert acts + [Act(1, h[2]), Act(1, h[3]), Act(1, h[4])] == a + [Act(1, h[3])] + [Act(1, h[4])];
  }

  lemma TwoTurns(acts: seq<Act>, x: DagRep)
    requires Shape(x) && Reaches(Pair(FRESH, FRESH), acts, Pair(x, Paired(1)))
    ensures var h := History(1);
            Reaches(Pair(FRESH, FRESH), acts + [Act(2, h[2]), Act(2, h[3]), Act(2, h[4])], Pair(x, Turned(1)))
  {
    hide Step, Reaches, Alone, Paired, Reported, Bereft, Turned, FRESH;
    var h := History(1);
    HearsReport(1);
    LosesRoot(1);
    TurnsToOther(1);
    Moves(acts, x, Paired(1), 2, h[2]);
    var a := acts + [Act(2, h[2])];
    Moves(a, x, Reported(1), 2, h[3]);
    Moves(a + [Act(2, h[3])], x, Bereft(1), 2, h[4]);
    assert acts + [Act(2, h[2]), Act(2, h[3]), Act(2, h[4])] == a + [Act(2, h[3])] + [Act(2, h[4])];
  }

  lemma TurnedSettled(other: nat)
    ensures Shape(Turned(other)) && Settled(Turned(other))
  {}

  /** Each with the other above it. */
  lemma BothUp()
    ensures var net := Pair(Turned(2), Turned(1));
            UpToDate(net) && Upward(net, [1, 2, 1])
  {
    hide Settled;
    TurnedSettled(1);
    TurnedSettled(2);
  }

  lemma LoopActsInv()
    ensures Formed(Pair(FRESH, FRESH))
    ensures var net := NetRun(Pair(FRESH, FRESH), LoopActs());
            && net[1] == Run(FRESH, At(LoopActs(), 1)) && net[2] == Run(FRESH, At(LoopActs(), 2))
            && Inv(net[1]) && Inv(net[2])
  {
    hide Inv, NetRun, FRESH, Step, Shape, Run, At;
    Started();
    NodeRuns(Pair(FRESH, FRESH), LoopActs(), 1);
    NodeRuns(Pair(FRESH, FRESH), LoopActs(), 2);
    NetInv(Pair(FRESH, FRESH), LoopActs(), 1);
    NetInv(Pair(FRESH, FRESH), LoopActs(), 2);
  }

  /** Two new nodes that hear only a root and each other, at the default hop increase of 256, end as each other's
      preferred parent, with all they store up to date: a link metric of 12, which `LinkMetric.CountWraps` shows
      them to be told, makes the hops between them cost nothing. */
  lemma LoopIsReached()
    ensures var net := Pair(Turned(2), Turned(1));
            && Reaches(Pair(FRESH, FRESH), LoopActs(), net)
            && net[1] == Run(FRESH, At(LoopActs(), 1)) && net[2] == Run(FRESH, At(LoopActs(), 2))
            && UpToDate(net) && Inv(net[1]) && Inv(net[2]) && Upward(net, [1, 2, 1])
  {
    hide Step, Shape, Alone, Paired, Turned, FRESH, Inv, UpToDate, Upward, NetRun, HonestRun, Run, At;
    BothPaired();
    StillAdvertised(1);
    OneTurns(LoopActs()[..4], Paired(1));
    TurnedSettled(2);
    var one, two := History(2), History(1);
    assert LoopActs()[..7] == LoopActs()[..4] + [Act(1, one[2]), Act(1, one[3]), Act(1, one[4])];
    TwoTurns(LoopActs()[..7], Turned(2));
    assert LoopActs() == LoopActs()[..7] + [Act(2, two[2]), Act(2, two[3]), Act(2, two[4])];
    BothUp();
    LoopActsInv();
  }
}
