// The ETX objective function of rpl_of_etx.c and the parent selection loop of
// rpl_dag.c that folds its comparator over the parent list.
module RplEtx {
  import opened Bytes

  /** A minimum hop rank increase; the code divides by it. */
  type Hop = x: nat | 1 <= x < 0x1_0000 witness 256

  const INFINITE_RANK: U16 := 0xffff
  const ETX_DIVISOR: nat := 128
  const NI_ETX_DIVISOR: nat := 16
  const MAX_PATH_COST: nat := 100
  const MIN_DIFF: nat := 64
  const INITIAL_LINK_METRIC: U8 := 80
  const DEFAULT_MIN_HOPRANKINC: nat := 256

  datatype Parent = Parent(addr: nat, rank: U16, linkMetric: U8, etx: U16, dtsn: U8, updated: bool)

  function ToU16(x: int): U16 { x % 0x1_0000 }

  /** `calculate_path_metric`. */
  function PathMetric(p: Parent, hop: Hop): U16 {
    if p.etx == 0 && p.rank > hop then MAX_PATH_COST * ETX_DIVISOR
    else ToU16(p.etx + p.linkMetric * (ETX_DIVISOR / NI_ETX_DIVISOR))
  }

  function AddRank(base: U16, increase: U16): U16 {
    if INFINITE_RANK - base < increase then INFINITE_RANK else base + increase
  }

  /** `calculate_rank` with a parent. */
  function RankVia(p: Parent, hop: Hop, base: U16): U16 {
    AddRank(if base == 0 then p.rank else base, ToU16(p.linkMetric / NI_ETX_DIVISOR * hop))
  }

  /** `calculate_rank` without a parent. */
  function RankWithout(base: U16): U16 {
    if base == 0 then INFINITE_RANK
    else AddRank(base, ToU16(INITIAL_LINK_METRIC / NI_ETX_DIVISOR * DEFAULT_MIN_HOPRANKINC))
  }

  /** The block of parent structures, addressed by slot. */
  type Pool = seq<Parent>

  function Metric(mem: Pool, hop: Hop, s: nat): U16
    requires s < |mem|
  {
    PathMetric(mem[s], hop)
  }

  predicate Usable(mem: Pool, s: nat) { s < |mem| && mem[s].rank != INFINITE_RANK }

  /** The hysteresis test of `best_parent`, in its 16-bit arithmetic. */
  predicate Within(ma: U16, mb: U16) {
    ma < ToU16(mb + MIN_DIFF) && ma > ToU16(mb - MIN_DIFF)
  }

  /** `best_parent`. */
  function BestParent(mem: Pool, hop: Hop, preferred: Option<nat>, a: nat, b: nat): nat
    requires a < |mem| && b < |mem|
  {
    var ma, mb := Metric(mem, hop, a), Metric(mem, hop, b);
    if (preferred == Some(a) || preferred == Some(b)) && Within(ma, mb) then
      preferred.value
    else if ma < mb then a else b
  }

  /** One turn of the loop in `rpl_select_parent`. */
  function Pick(mem: Pool, hop: Hop, preferred: Option<nat>, best: Option<nat>, s: nat): Option<nat>
    requires s < |mem| && (best.Some? ==> best.value < |mem|)
  {
    if mem[s].rank == INFINITE_RANK then best
    else if best.None? then Some(s)
    else Some(BestParent(mem, hop, preferred, best.value, s))
  }

  predicate Slots(mem: Pool, list: seq<nat>) { forall k :: 0 <= k < |list| ==> list[k] < |mem| }

  /** The whole loop over `list`. */
  function Select(mem: Pool, hop: Hop, preferred: Option<nat>, list: seq<nat>): (r: Option<nat>)
    requires Slots(mem, list)
    ensures r.Some? ==> Usable(mem, r.value) && r.value in list
  {
    if list == [] then None
    else Pick(mem, hop, preferred, Select(mem, hop, preferred, list[..|list| - 1]), list[|list| - 1])
  }

  // ------------------------------------------------------------------ hysteresis

  /** Every usable metric is far enough from both ends of the 16-bit range. */
  ghost predicate NoWrap(mem: Pool, hop: Hop, list: seq<nat>)
    requires Slots(mem, list)
  {
    forall s <- list :: Usable(mem, s) ==> MIN_DIFF <= Metric(mem, hop, s) < 0x1_0000 - MIN_DIFF
  }

  /** `r` is the old preferred parent and nobody beats it by the threshold. */
  ghost predicate Keeps(mem: Pool, hop: Hop, preferred: Option<nat>, list: seq<nat>, r: nat)
    requires Slots(mem, list)
  {
    preferred == Some(r) && Usable(mem, r)
    && forall q <- list :: Usable(mem, q) ==> Metric(mem, hop, r) < Metric(mem, hop, q) + MIN_DIFF
  }

  /** `r` has the least metric, and beats a usable preferred parent by the threshold. */
  ghost predicate Switches(mem: Pool, hop: Hop, preferred: Option<nat>, list: seq<nat>, r: nat)
    requires Slots(mem, list)
  {
    Usable(mem, r)
    && (forall q <- list :: Usable(mem, q) ==> Metric(mem, hop, r) <= Metric(mem, hop, q))
    && (preferred.Some? && preferred.value in list && Usable(mem, preferred.value) ==>
          Metric(mem, hop, r) + MIN_DIFF <= Metric(mem, hop, preferred.value))
  }

  /** One usable candidate more. */
  lemma PickKeepsInvariant(mem: Pool, hop: Hop, preferred: Option<nat>, front: seq<nat>, list: seq<nat>, best: nat, s: nat)
    requires Slots(mem, front) && Slots(mem, list) && (forall q :: q in list <==> q in front || q == s) && NoWrap(mem, hop, list)
    requires best in front && Usable(mem, s)
    requires Keeps(mem, hop, preferred, front, best) || Switches(mem, hop, preferred, front, best)
    ensures var r := BestParent(mem, hop, preferred, best, s);
            Keeps(mem, hop, preferred, list, r) || Switches(mem, hop, preferred, list, r)
  {
    var ma, mb := Metric(mem, hop, best), Metric(mem, hop, s);
    assert MIN_DIFF <= mb < 0x1_0000 - MIN_DIFF;
    WithinExact(ma, mb);
    hide PathMetric, Within, Metric;
  }

  /** The comparator is not transitive, yet the loop over any list, in any order, ends on one of the
      two outcomes the hysteresis is meant to give, and on none only when no parent is usable. */
  lemma {:induction false} SelectHysteresis(mem: Pool, hop: Hop, preferred: Option<nat>, list: seq<nat>)
    requires Slots(mem, list) && NoWrap(mem, hop, list)
    ensures var r := Select(mem, hop, preferred, list);
            if r.None? then forall q <- list :: !Usable(mem, q)
            else Keeps(mem, hop, preferred, list, r.value) || Switches(mem, hop, preferred, list, r.value)
  {
    if list != [] {
      var front, s := list[..|list| - 1], list[|list| - 1];
      assert forall q :: q in list <==> q in front || q == s;
      SelectHysteresis(mem, hop, preferred, front);
      var best := Select(mem, hop, preferred, front);
      if best.Some? && Usable(mem, s) {
        WithinExact(Metric(mem, hop, best.value), Metric(mem, hop, s));
        hide PathMetric, Within;
        PickKeepsInvariant(mem, hop, preferred, front, list, best.value, s);
      }
    }
  }

  /** The bounds a link layer and a DIO give are enough. */
  lemma MetricsInRange(mem: Pool, hop: Hop, list: seq<nat>)
    requires Slots(mem, list)
    requires forall s <- list :: mem[s].linkMetric >= NI_ETX_DIVISOR && mem[s].etx <= 63000
    ensures NoWrap(mem, hop, list)
  {
    hide PathMetric;
    forall s | s in list && Usable(mem, s)
      ensures MIN_DIFF <= Metric(mem, hop, s) < 0x1_0000 - MIN_DIFF
    {
      MetricInRange(mem[s], hop);
    }
  }

  lemma MetricInRange(p: Parent, hop: Hop)
    requires p.linkMetric >= NI_ETX_DIVISOR && p.etx <= 63000
    ensures MIN_DIFF <= PathMetric(p, hop) < 0x1_0000 - MIN_DIFF
  {}

  /** The test says whether two metrics differ by less than the threshold, except that a second
      metric too near an end of the range hides every close one. */
  lemma WithinExact(ma: U16, mb: U16)
    ensures var close := ma < mb + MIN_DIFF && mb < ma + MIN_DIFF;
            (Within(ma, mb) <==> close) <==> MIN_DIFF <= mb < 0x1_0000 - MIN_DIFF || !close
  {}

  /** So a preferred parent can be given up for one that is better by 8 only, here for advertised metrics that
      wrap the 16 bits of the path metric. */
  lemma HysteresisLostNearZero()
    ensures var mem := [Parent(1, 300, INITIAL_LINK_METRIC, 64928, 0, false), Parent(2, 300, INITIAL_LINK_METRIC, 64920, 0, false)];
            && Metric(mem, 256, 0) == 32 && Metric(mem, 256, 1) == 24
            && Select(mem, 256, Some(0), [1, 0]) == Some(1)
            && !Keeps(mem, 256, Some(0), [1, 0], 1) && !Switches(mem, 256, Some(0), [1, 0], 1)
  {
    var mem := [Parent(1, 300, INITIAL_LINK_METRIC, 64928, 0, false), Parent(2, 300, INITIAL_LINK_METRIC, 64920, 0, false)];
    assert [1, 0][..1] == [1] && [1][..0] == [];
    assert Select(mem, 256, Some(0), [1]) == Pick(mem, 256, Some(0), Select(mem, 256, Some(0), []), 1) == Some(1);
    assert Select(mem, 256, Some(0), [1, 0]) == Pick(mem, 256, Some(0), Some(1), 0);
    assert 0 in [1, 0];
  }

  // ----------------------------------------------------------------------- ranks

  /** The rank increase of a hop, in its 16 bits, is not nothing. */
  predicate Advances(p: Parent, hop: Hop) { ToU16(p.linkMetric / NI_ETX_DIVISOR * hop) != 0 }

  /** A rank obtained through a usable parent is strictly larger than the parent's exactly when the 16-bit
      increase is not 0; at the top it saturates, still above any usable rank. */
  lemma RankGrowsExact(p: Parent, hop: Hop)
    requires p.rank != INFINITE_RANK
    ensures p.rank < RankVia(p, hop, 0) <==> Advances(p, hop)
    ensures !Advances(p, hop) ==> RankVia(p, hop, 0) == p.rank
  {}

  /** It advances, by what it should, with at least one transmission on the link and a hop increase of at
      most 4369: fifteen transmissions then still fit in 16 bits. */
  lemma RankGrows(p: Parent, hop: Hop)
    requires p.rank != INFINITE_RANK && p.linkMetric >= NI_ETX_DIVISOR && hop <= 4369
    ensures Advances(p, hop) && p.rank < RankVia(p, hop, 0) <= INFINITE_RANK
    ensures RankVia(p, hop, 0) < INFINITE_RANK ==> RankVia(p, hop, 0) == p.rank + p.linkMetric / NI_ETX_DIVISOR * hop
  {
    var k := p.linkMetric / NI_ETX_DIVISOR;
    Products(k, hop);
    var increase := k * hop;
    assert ToU16(increase) == increase;
  }

  lemma Products(k: nat, hop: nat)
    requires 1 <= k <= 15
    ensures hop <= k * hop <= 15 * hop
  {
    assert (k - 1) * hop >= 0 && (15 - k) * hop >= 0;
  }

  /** With a larger hop increase the product can wrap to nothing. */
  lemma RankMayNotGrow()
    ensures RankVia(Parent(1, 500, 128, 200, 0, false), 8192, 0) == 500
  {}
}
