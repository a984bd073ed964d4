// rpl_dag.c in its own form: one DODAG slot whose fields, parent blocks and
// reference counts are updated in place. Every method computes the step that
// RplDag defines, where the invariants are proved.
module RplNode {
  import opened Bytes
  import opened RplEtx
  import opened RplDag

  class Dodag {
    var joined: bool
    var dagId: nat
    var version: U8
    var rank: U16
    var minRank: U16
    var maxRankInc: U16
    var minHop: Hop
    var preferred: Option<nat>
    var parents: seq<nat>          // the linked list, as block numbers
    const mem: array<Parent>       // parent_memb
    const used: array<bool>        // its reference counts

    ghost predicate Valid()
      reads this, mem, used
    {
      mem.Length == used.Length == MAX_PARENTS && Shape(State())
    }

    ghost function State(): DagRep
      reads this, mem, used
    {
      DagRep(joined, dagId, version, rank, minRank, maxRankInc, minHop, preferred, parents, mem[..], used[..])
    }

    constructor ()
      ensures Valid() && fresh(mem) && fresh(used) && State() == FRESH
    {
      joined, dagId, version, rank, minRank := false, 0, 0, INFINITE_RANK, INFINITE_RANK;
      maxRankInc, minHop, preferred, parents := 0, 256, None, [];
      mem := new Parent[MAX_PARENTS](_ => Parent(0, 0, 0, 0, 0, false));
      used := new bool[MAX_PARENTS](_ => false);
      new;
      assert mem[..] == FRESH.mem && used[..] == FRESH.used;
    }

    /** `rpl_find_parent`. */
    method FindParent(addr: nat) returns (r: Option<nat>)
      requires Valid()
      ensures r == Find(mem[..], parents, addr)
    {
      var rest := parents;
      while rest != []
        invariant Slots(mem[..], rest) && Find(mem[..], rest, addr) == Find(mem[..], parents, addr)
        decreases |rest|
      {
        if mem[rest[0]].addr == addr { return Some(rest[0]); }
        rest := rest[1..];
      }
      return None;
    }

    /** `rpl_remove_parent`. */
    method Remove(s: nat)
      requires Valid() && s < MAX_PARENTS
      modifies this`preferred, this`parents, used
      ensures Valid() && State() == RemoveParent(old(State()), s)
    {
      if preferred == Some(s) { preferred := None; }
      parents := Without(parents, s);
      used[s] := false;
      assert mem[..] == old(mem[..]);
    }

    /** `remove_parents`. */
    method RemoveAllFrom(minimum: U16)
      requires Valid()
      modifies this`preferred, this`parents, used
      ensures Valid() && State() == RemoveParents(old(State()), old(parents), minimum)
    {
      var p := parents;
      while p != []
        invariant Valid() && Slots(mem[..], p)
        invariant RemoveParents(State(), p, minimum) == RemoveParents(old(State()), old(parents), minimum)
        decreases |p|
      {
        var next := p[1..];
        if mem[p[0]].rank >= minimum {
          Remove(p[0]);
        }
        p := next;
      }
    }

    /** `remove_worst_parent`. */
    method RemoveWorstParent(minWorst: U16)
      requires Valid()
      modifies this`preferred, this`parents, used
      ensures Valid() && State() == RemoveWorst(old(State()), minWorst)
    {
      var worst: Option<nat> := None;
      for i := 0 to |parents|
        invariant worst == Worst(mem[..], preferred, parents[..i])
      {
        assert parents[..i + 1][..i] == parents[..i];
        var p := parents[i];
        if preferred != Some(p) && (worst.None? || mem[p].rank > mem[worst.value].rank) {
          worst := Some(p);
        }
      }
      assert parents[..|parents|] == parents;
      if worst.Some? && mem[worst.value].rank > minWorst {
        Remove(worst.value);
      }
    }

    /** `memb_alloc`. */
    method Allocate() returns (r: Option<nat>)
      requires Valid()
      modifies used
      ensures r == FreeBlock(old(used[..]))
      ensures used[..] == if r.Some? then old(used[..])[r.value := true] else old(used[..])
    {
      for i := 0 to used.Length
        invariant used[..] == old(used[..]) && forall j :: 0 <= j < i ==> used[j]
      {
        if !used[i] {
          FirstFree(used[..], i);
          used[i] := true;
          return Some(i);
        }
      }
      return None;
    }

    /** `rpl_add_parent`. */
    method Add(dio: Dio, from: nat) returns (r: Option<nat>)
      requires Valid()
      modifies this`parents, mem, used
      ensures Valid() && (State(), r) == AddParent(old(State()), dio, from)
    {
      r := Allocate();
      if r.Some? {
        var b := r.value;
        mem[b] := Parent(from, dio.rank, INITIAL_LINK_METRIC, dio.etx, 0, mem[b].updated);
        parents := Without(parents, b) + [b];
      }
    }

    predicate Acceptable(r: U16)
      reads this
    {
      r != INFINITE_RANK && (maxRankInc == 0 || DagRank(r, minHop) <= DagRank(ToU16(minRank + maxRankInc), minHop))
    }

    /** The loop of `rpl_select_parent`. */
    method BestCandidate() returns (best: Option<nat>)
      requires Valid()
      ensures best == Select(mem[..], minHop, preferred, parents)
    {
      hide BestParent;
      best := None;
      for i := 0 to |parents|
        invariant best == Select(mem[..], minHop, preferred, parents[..i])
      {
        assert parents[..i + 1][..i] == parents[..i];
        var p := parents[i];
        if mem[p].rank == INFINITE_RANK {
        } else if best.None? {
          best := Some(p);
        } else {
          best := Some(BestParent(mem[..], minHop, preferred, best.value, p));
        }
      }
      assert parents[..|parents|] == parents;
    }

    /** `rpl_select_parent`. */
    method ChooseParent() returns (r: Option<nat>)
      requires Valid()
      modifies this`preferred, this`parents, this`rank, this`minRank, used
      ensures Valid() && (State(), r) == SelectParent(old(State()))
    {
      hide Select, RankVia, RemoveParents;
      var best := BestCandidate();
      if best.None? { return None; }
      if preferred != best { preferred := best; }
      rank := RankVia(mem[best.value], minHop, 0);
      if rank < minRank {
        minRank := rank;
      } else if !Acceptable(mem[best.value].rank) {
        RemoveAllFrom(0);
        return None;
      }
      return best;
    }

    /** `rpl_local_repair`. */
    method Repair()
      requires Valid()
      modifies this`preferred, this`parents, this`rank, used
      ensures Valid() && State() == LocalRepair(old(State()))
    {
      rank := INFINITE_RANK;
      RemoveAllFrom(0);
    }

    /** `rpl_process_parent_event`. */
    method ProcessParentEvent(s: nat) returns (valid: bool)
      requires Valid() && s < MAX_PARENTS
      modifies this`preferred, this`parents, this`rank, this`minRank, used
      ensures Valid() && (State(), valid) == ParentEvent(old(State()), s)
    {
      hide SelectParent, LocalRepair, RankWithout;
      var parentRank, oldRank := mem[s].rank, rank;
      var best := ChooseParent();
      if best.None? {
        Repair();
        return true;
      }
      if DagRank(oldRank, minHop) != DagRank(rank, minHop) {
        // ChooseParent has already lowered min_rank, so the source's second test never holds.
        if rank < minRank { assert false; }
      }
      valid := parentRank != INFINITE_RANK && Acceptable(RankWithout(parentRank));
    }

    /** `join_dag`. */
    method JoinDag(dio: Dio, from: nat)
      requires Valid()
      modifies this, mem, used
      ensures Valid() && State() == Join(old(State()), dio, from)
    {
      hide AddParent, RankVia;
      parents, rank, minRank, preferred := [], INFINITE_RANK, INFINITE_RANK, None;
      var p := Add(dio, from);
      if p.None? || dio.ocp != 1 { return; }
      Enter(dio, p.value);
    }

    /** The fields that joining sets, once the sender has block `p`. */
    method Enter(dio: Dio, p: nat)
      requires Valid() && p < MAX_PARENTS
      modifies `joined, `dagId, `version, `maxRankInc, `minHop, `preferred, `rank, `minRank
      ensures Valid()
      ensures var rank := RankVia(old(mem[p]), dio.minHop, dio.rank);
              State() == old(State()).(joined := true, dagId := dio.dagId, version := dio.version, maxRankInc := dio.maxRankInc,
                                       minHop := dio.minHop, preferred := Some(p), rank := rank, minRank := rank)
    {
      hide RankVia;
      joined, dagId, version, maxRankInc, minHop, preferred := true, dio.dagId, dio.version, dio.maxRankInc, dio.minHop, Some(p);
      rank := RankVia(mem[p], minHop, dio.rank);
      minRank := rank;
    }

    /** `global_repair`. */
    method RepairGlobally(dio: Dio, from: nat)
      requires Valid()
      modifies this, mem, used
      ensures Valid() && State() == GlobalRepair(old(State()), dio, from)
    {
      RemoveAllFrom(0);
      version := dio.version;
      var p := Add(dio, from);
      if p.None? {
        rank := INFINITE_RANK;
      } else {
        rank := RankWithout(dio.rank);
        minRank := rank;
      }
    }

    /** The part of `rpl_process_dio` for a DIO of the current version. */
    method ProcessCurrentDio(dio: Dio, from: nat)
      requires Valid()
      modifies this, mem, used
      ensures Valid() && State() == CurrentDio(old(State()), dio, from)
    {
      hide ParentEvent, RemoveWorst, AddParent, Find;
      var p := FindParent(from);
      if p.None? {
        if |parents| == MAX_PARENTS {
          RemoveWorstParent(dio.rank);
        }
        p := Add(dio, from);
        if p.None? { return; }
      }
      mem[p.value] := mem[p.value].(etx := dio.etx, rank := dio.rank);
      assert used[..] == State().used;
      var valid := ProcessParentEvent(p.value);
      if !valid { return; }
      mem[p.value] := mem[p.value].(dtsn := dio.dtsn);
    }

    /** `rpl_process_dio`. */
    method ReceiveDio(dio: Dio, from: nat)
      requires Valid()
      modifies this, mem, used
      ensures Valid() && State() == ProcessDio(old(State()), dio, from)
    {
      hide CurrentDio, Join, GlobalRepair;
      if dio.mop != MOP_DEFAULT { return; }
      if !joined {
        if dio.rank != INFINITE_RANK { JoinDag(dio, from); }
        return;
      }
      if dagId != dio.dagId { return; }
      if dio.version > version {
        if rank == minHop {
          version := (dio.version + 1) % 0x100;
        } else {
          RepairGlobally(dio, from);
        }
        return;
      } else if dio.version < version {
        return;
      }
      if dio.rank != INFINITE_RANK && dio.rank < minHop { return; }
      if rank == minHop { return; }
      ProcessCurrentDio(dio, from);
    }

    /** `rpl_link_neighbor_callback`. */
    method LinkCallback(addr: nat, known: bool, etx: U8)
      requires Valid()
      modifies mem
      ensures Valid() && State() == Step(old(State()), LinkReport(addr, known, etx))
    {
      if !joined { return; }
      var p := FindParent(addr);
      if p.None? { return; }
      mem[p.value] := mem[p.value].(updated := true, linkMetric := etx);
      if !known { mem[p.value] := mem[p.value].(rank := INFINITE_RANK); }
      assert used[..] == old(used[..]);
    }

    /** `rpl_ipv6_neighbor_callback` for an entry that was removed. */
    method NeighbourCallback(addr: nat)
      requires Valid()
      modifies mem
      ensures Valid() && State() == Step(old(State()), NeighbourLost(addr))
    {
      if !joined { return; }
      var p := FindParent(addr);
      if p.None? { return; }
      mem[p.value] := mem[p.value].(rank := INFINITE_RANK, updated := true);
      assert used[..] == old(used[..]);
    }

    /** `rpl_recalculate_ranks`. */
    method RecalculateRanks()
      requires Valid()
      modifies this, mem, used
      ensures Valid() && State() == Step(old(State()), Recalculate)
    {
      hide ParentEvent;
      if !joined { return; }
      var rest := parents;
      while rest != []
        invariant Valid() && State() == old(State()) && Slots(mem[..], rest)
        invariant FirstUpdated(mem[..], rest) == FirstUpdated(mem[..], parents)
        decreases |rest|
      {
        if mem[rest[0]].updated {
          mem[rest[0]] := mem[rest[0]].(updated := false);
          assert used[..] == old(used[..]);
          var _ := ProcessParentEvent(rest[0]);
          return;
        }
        rest := rest[1..];
      }
    }
  }

  lemma {:induction false} FirstFree(used: seq<bool>, i: nat)
    requires i < |used| && !used[i] && forall j :: 0 <= j < i ==> used[j]
    ensures FreeBlock(used) == Some(i)
  {
    if i > 0 {
      assert used[0];
      FirstFree(used[1..], i - 1);
    }
  }
}
