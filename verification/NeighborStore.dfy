// neighbor_attr.c as it is built: a heap list of blocks, the block pool of memb.c
// and one array per attribute, all updated in place and tied to NeighborAttr.Table.
module NeighborStore {
  import opened Bytes
  import opened LinkedList
  import opened NeighborAttr

  /** `struct neighbor_addr` without its link. */
  datatype Block = Block(addr: LlAddr, time: U16, index: nat)

  /** The contents of the pool and of the arrays, with the table they stand for and the block of each
      neighbour. */
  datatype Snap = Snap(blocks: seq<Block>, used: seq<bool>, data: seq<seq<Value>>, attrs: seq<AttrId>,
                       table: Table, slot: map<LlAddr, nat>)

  ghost predicate Sizes(s: Snap) {
    |s.used| == |s.blocks| && forall k :: 0 <= k < |s.data| ==> |s.data[k]| == |s.blocks|
  }

  /** Every allocated block holds one neighbour, under its own index. */
  ghost predicate Placed(s: Snap)
    requires Sizes(s)
  {
    && s.slot.Keys == s.table.nbrs.Keys
    && (forall a :: a in s.slot ==> s.slot[a] < |s.blocks| && s.used[s.slot[a]] && s.blocks[s.slot[a]].addr == a)
    && (forall i :: 0 <= i < |s.blocks| && s.used[i] ==>
          s.blocks[i].index == i && s.blocks[i].addr in s.slot && s.slot[s.blocks[i].addr] == i)
  }

  /** Block `i` and the arrays say of a neighbour what the table says. */
  ghost predicate Tells(s: Snap, n: Nbr, i: nat)
    requires Sizes(s) && i < |s.blocks| && forall k :: k in s.attrs ==> k < |s.data|
  {
    && n.time == s.blocks[i].time && (forall k :: k in n.values <==> k in s.attrs)
    && forall k :: k in s.attrs ==> n.values[k] == s.data[k][i]
  }

  ghost predicate Good(s: Snap) {
    && Sizes(s) && Placed(s) && s.table.attrs == s.attrs && (forall k :: k in s.attrs ==> k < |s.data|)
    && forall a :: a in s.table.nbrs ==> Tells(s, s.table.nbrs[a], s.slot[a])
  }

  ghost function WithTime(t: Table, a: LlAddr, time: U16): Table
    requires a in t.nbrs
  {
    t.(nbrs := t.nbrs[a := t.nbrs[a].(time := time)])
  }

  lemma GoodTime(s: Snap, a: LlAddr, time: U16)
    requires Good(s) && a in s.table.nbrs
    ensures var i := s.slot[a];
            Good(s.(blocks := s.blocks[i := s.blocks[i].(time := time)], table := WithTime(s.table, a, time)))
  {
    TimePlaced(s, a, time);
    hide Placed, Tells;
    var i := s.slot[a];
    var r := s.(blocks := s.blocks[i := s.blocks[i].(time := time)], table := WithTime(s.table, a, time));
    forall b | b in r.table.nbrs ensures b in r.slot && r.slot[b] < |r.blocks| && Tells(r, r.table.nbrs[b], r.slot[b]) {
      SlotOf(s, b);
      assert Tells(s, s.table.nbrs[b], s.slot[b]);
      if b != a { Elsewhere(s, a, b); }
      TimeTells(s, a, time, b);
    }
  }

  lemma TimePlaced(s: Snap, a: LlAddr, time: U16)
    requires Good(s) && a in s.table.nbrs
    ensures a in s.slot && s.slot[a] < |s.blocks|
    ensures var i := s.slot[a];
            var r := s.(blocks := s.blocks[i := s.blocks[i].(time := time)], table := WithTime(s.table, a, time));
            Sizes(r) && Placed(r) && r.table.nbrs.Keys == s.table.nbrs.Keys
  {
    hide Tells;
    assert WithTime(s.table, a, time).nbrs.Keys == s.table.nbrs.Keys;
  }

  lemma TimeTells(s: Snap, a: LlAddr, time: U16, b: LlAddr)
    requires Sizes(s) && (forall k :: k in s.attrs ==> k < |s.data|)
    requires a in s.table.nbrs && a in s.slot && s.slot[a] < |s.blocks| && b in s.table.nbrs && b in s.slot && s.slot[b] < |s.blocks|
    requires Tells(s, s.table.nbrs[b], s.slot[b]) && (b != a ==> s.slot[a] != s.slot[b])
    ensures var i := s.slot[a];
            var r := s.(blocks := s.blocks[i := s.blocks[i].(time := time)], table := WithTime(s.table, a, time));
            Tells(r, r.table.nbrs[b], r.slot[b])
  {}

  lemma Elsewhere(s: Snap, a: LlAddr, b: LlAddr)
    requires Good(s) && a in s.table.nbrs && b in s.table.nbrs && a != b
    ensures a in s.slot && b in s.slot && s.slot[a] != s.slot[b]
  {
    hide Tells;
  }

  lemma GoodRelease(s: Snap, a: LlAddr)
    requires Good(s) && a in s.table.nbrs
    ensures Good(s.(used := s.used[s.slot[a] := false], table := RemoveNeighbor(s.table, a), slot := s.slot - {a}))
  {
    var r := s.(used := s.used[s.slot[a] := false], table := RemoveNeighbor(s.table, a), slot := s.slot - {a});
    forall b | b in r.table.nbrs ensures Tells(r, r.table.nbrs[b], r.slot[b]) {
      assert Tells(s, s.table.nbrs[b], s.slot[b]);
    }
  }

  /** One assignment to one array. */
  ghost function SetAt(data: seq<seq<Value>>, k: nat, i: nat, v: Value): (r: seq<seq<Value>>)
    requires k < |data| && i < |data[k]|
    ensures |r| == |data| && |r[k]| == |data[k]| && r[k][i] == v && forall j :: 0 <= j < |data| && j != k ==> r[j] == data[j]
  {
    var row: seq<Value> := data[k];
    data[k := row[i := v]]
  }

  /** The arrays once slot `i` has its defaults. */
  ghost function Initialised(c: Config, data: seq<seq<Value>>, attrs: seq<AttrId>, i: nat): (r: seq<seq<Value>>)
    requires forall k :: 0 <= k < |data| ==> i < |data[k]|
    ensures |r| == |data|
    ensures forall k :: 0 <= k < |data| ==> r[k] == if k in attrs then data[k][i := Default(c, k)] else data[k]
  {
    seq(|data|, k requires 0 <= k < |data| => if k in attrs then data[k][i := Default(c, k)] else data[k])
  }

  lemma InitialisedMore(c: Config, data: seq<seq<Value>>, attrs: seq<AttrId>, j: nat, i: nat)
    requires j < |attrs| && attrs[j] < |data| && forall k :: 0 <= k < |data| ==> i < |data[k]|
    ensures var d := Initialised(c, data, attrs[..j], i);
            Initialised(c, data, attrs[..j + 1], i) == SetAt(d, attrs[j], i, Default(c, attrs[j]))
  {
    hide Default;
    assert attrs[..j + 1] == attrs[..j] + [attrs[j]];
    var d := Initialised(c, data, attrs[..j], i);
    var x, y := Initialised(c, data, attrs[..j + 1], i), SetAt(d, attrs[j], i, Default(c, attrs[j]));
    forall k | 0 <= k < |data| ensures x[k] == y[k] {
      if k == attrs[j] { assert x[k] == y[k]; }
    }
  }

  /** A block taken from the pool for `a`. */
  ghost function Entered(c: Config, s: Snap, a: LlAddr, i: nat): Snap
    requires Sizes(s) && i < |s.blocks|
  {
    s.(blocks := s.blocks[i := Block(a, 0, i)], used := s.used[i := true], data := Initialised(c, s.data, s.attrs, i),
       table := s.table.(nbrs := s.table.nbrs[a := Nbr(0, Initial(c, s.attrs))]), slot := s.slot[a := i])
  }

  lemma EnteredPlaced(c: Config, s: Snap, a: LlAddr, i: nat)
    requires Good(s) && a !in s.table.nbrs && i < |s.blocks| && !s.used[i]
    ensures Sizes(Entered(c, s, a, i)) && Placed(Entered(c, s, a, i))
  {
    hide Tells, Initial;
  }

  lemma EnteredTells(c: Config, s: Snap, a: LlAddr, i: nat, b: LlAddr)
    requires Sizes(s) && i < |s.blocks| && !s.used[i] && (forall k :: k in s.attrs ==> k < |s.data|)
    requires b != a ==> b in s.slot && b in s.table.nbrs && s.slot[b] < |s.blocks| && s.slot[b] != i && Tells(s, s.table.nbrs[b], s.slot[b])
    ensures var r := Entered(c, s, a, i);
            Sizes(r) && b in r.table.nbrs && b in r.slot && r.slot[b] < |r.blocks| && Tells(r, r.table.nbrs[b], r.slot[b])
  {}

  lemma GoodEntered(c: Config, s: Snap, a: LlAddr, i: nat)
    requires Good(s) && a !in s.table.nbrs && i < |s.blocks| && !s.used[i]
    ensures Good(Entered(c, s, a, i))
  {
    hide Tells, Initialised, Initial;
    var r := Entered(c, s, a, i);
    EnteredPlaced(c, s, a, i);
    forall b | b in r.table.nbrs ensures Tells(r, r.table.nbrs[b], r.slot[b]) {
      if b != a { NotThere(s, b, i); }
      EnteredTells(c, s, a, i, b);
    }
  }

  /** The same for a block already marked as in use. */
  lemma GoodAfter(c: Config, s: Snap, a: LlAddr, i: nat)
    requires i < |s.used| && s.used[i] && Good(s.(used := s.used[i := false])) && a !in s.table.nbrs
    ensures Sizes(s) && forall k :: k in s.attrs ==> k < |s.data|
    ensures Good(Snap(s.blocks[i := Block(a, 0, i)], s.used, Initialised(c, s.data, s.attrs, i), s.attrs,
                      s.table.(nbrs := s.table.nbrs[a := Nbr(0, Initial(c, s.attrs))]), s.slot[a := i]))
  {
    hide Placed, Tells, Initialised, Initial;
    var was := s.(used := s.used[i := false]);
    GoodEntered(c, was, a, i);
    AttrsInRange(was);
    assert was.used[i := true] == s.used;
  }

  lemma NotThere(s: Snap, b: LlAddr, i: nat)
    requires Good(s) && b in s.table.nbrs && i < |s.blocks| && !s.used[i]
    ensures b in s.slot && s.slot[b] != i && s.slot[b] < |s.blocks| && Tells(s, s.table.nbrs[b], s.slot[b])
  {
    hide Tells;
  }

  /** A value written for a neighbour. */
  ghost function Written(s: Snap, k: AttrId, a: LlAddr, v: Value): Snap
    requires Good(s) && a in s.table.nbrs && k < |s.data|
  {
    var i := s.slot[a];
    var n := s.table.nbrs[a];
    s.(data := SetAt(s.data, k, i, v),
       table := s.table.(nbrs := s.table.nbrs[a := n.(values := if k in n.values then n.values[k := v] else n.values)]))
  }

  lemma WrittenPlaced(s: Snap, k: AttrId, a: LlAddr, v: Value)
    requires Good(s) && a in s.table.nbrs && k < |s.data|
    ensures var r := Written(s, k, a, v); Sizes(r) && Placed(r) && r.table.nbrs.Keys == s.table.nbrs.Keys
  {
    hide Tells;
    assert Written(s, k, a, v).table.nbrs.Keys == s.table.nbrs.Keys;
  }

  lemma WrittenSelf(s: Snap, k: AttrId, a: LlAddr, v: Value)
    requires Good(s) && a in s.table.nbrs && k < |s.data| && Sizes(Written(s, k, a, v))
    requires a in s.slot && s.slot[a] < |s.blocks| && Tells(s, s.table.nbrs[a], s.slot[a])
    ensures var r := Written(s, k, a, v);
            a in r.table.nbrs && a in r.slot && r.slot[a] < |r.blocks| && Tells(r, r.table.nbrs[a], r.slot[a])
  {
    hide Placed;
  }

  lemma WrittenOther(s: Snap, k: AttrId, a: LlAddr, v: Value, b: LlAddr)
    requires Good(s) && a in s.table.nbrs && b in s.table.nbrs && k < |s.data| && Sizes(Written(s, k, a, v)) && a != b
    requires b in s.slot && a in s.slot && s.slot[b] < |s.blocks| && Tells(s, s.table.nbrs[b], s.slot[b])
      && s.slot[b] != s.slot[a]
    ensures var r := Written(s, k, a, v);
            b in r.table.nbrs && b in r.slot && r.slot[b] < |r.blocks| && Tells(r, r.table.nbrs[b], r.slot[b])
  {
    hide Placed;
    var r, i := Written(s, k, a, v), s.slot[b];
    assert r.table.nbrs[b] == s.table.nbrs[b];
    assert forall j :: 0 <= j < |s.data| ==> r.data[j][i] == s.data[j][i];
  }

  lemma GoodWritten(s: Snap, k: AttrId, a: LlAddr, v: Value)
    requires Good(s) && a in s.table.nbrs && k < |s.data|
    ensures Good(Written(s, k, a, v))
  {
    hide Tells;
    WrittenPlaced(s, k, a, v);
    var r := Written(s, k, a, v);
    forall b | b in r.table.nbrs ensures Tells(r, r.table.nbrs[b], r.slot[b]) {
      assert Tells(s, s.table.nbrs[b], s.slot[b]);
      if b != a {
        Elsewhere(s, a, b);
        WrittenOther(s, k, a, v, b);
      } else {
        WrittenSelf(s, k, a, v);
      }
    }
  }

  /** Attribute `k` in front of the others, its array `data[k]` holding the default for all neighbours. */
  ghost function Enlisted(c: Config, s: Snap, k: AttrId, data: seq<seq<Value>>): Snap {
    s.(data := data, attrs := [k] + Minus(s.attrs, k), table := Register(c, s.table, k))
  }

  lemma EnlistedTells(c: Config, s: Snap, k: AttrId, data: seq<seq<Value>>, b: LlAddr)
    requires Sizes(s) && Sizes(Enlisted(c, s, k, data)) && k < |s.data| == |data| && forall j :: j in s.attrs ==> j < |s.data|
    requires forall j :: 0 <= j < |data| && j != k ==> data[j] == s.data[j]
    requires b in s.table.nbrs && b in s.slot && s.slot[b] < |s.blocks| && data[k][s.slot[b]] == Default(c, k)
    requires Tells(s, s.table.nbrs[b], s.slot[b])
    ensures var r := Enlisted(c, s, k, data);
            b in r.table.nbrs && b in r.slot && r.slot[b] < |r.blocks| && Tells(r, r.table.nbrs[b], r.slot[b])
  {
    hide Default;
  }

  lemma GoodRegister(c: Config, s: Snap, k: AttrId, data: seq<seq<Value>>)
    requires Good(s) && k < |s.data| == |data| && |data[k]| == |s.blocks|
    requires forall j :: 0 <= j < |data| && j != k ==> data[j] == s.data[j]
    requires forall i :: 0 <= i < |s.blocks| && s.used[i] ==> data[k][i] == Default(c, k)
    ensures Good(Enlisted(c, s, k, data))
  {
    hide Tells, Default;
    var r := Enlisted(c, s, k, data);
    assert r.table.nbrs.Keys == s.table.nbrs.Keys;
    forall b | b in r.table.nbrs ensures Tells(r, r.table.nbrs[b], r.slot[b]) {
      assert Tells(s, s.table.nbrs[b], s.slot[b]);
      EnlistedTells(c, s, k, data, b);
    }
  }

  /** The pool is exhausted exactly when the table is full. */
  lemma PoolIsTable(s: Snap)
    requires Good(s)
    ensures |s.table.nbrs| <= |s.blocks|
    ensures |s.table.nbrs| == |s.blocks| <==> forall i :: 0 <= i < |s.blocks| ==> s.used[i]
  {
    hide Tells;
    CountSlots(s.slot, |s.blocks|);
    assert |s.slot| == |s.table.nbrs| by { assert |s.slot.Keys| == |s.table.nbrs.Keys|; }
    if forall i :: 0 <= i < |s.blocks| ==> s.used[i] {
      forall i | 0 <= i < |s.blocks| ensures i in s.slot.Values {
        assert s.blocks[i].addr in s.slot && s.slot[s.blocks[i].addr] == i;
      }
    }
    if forall i :: 0 <= i < |s.blocks| ==> i in s.slot.Values {
      forall i | 0 <= i < |s.blocks| ensures s.used[i] {
        var a := Holder(s.slot, i);
      }
    }
  }

  lemma Holder(slot: map<LlAddr, nat>, i: nat) returns (a: LlAddr)
    requires i in slot.Values
    ensures a in slot && slot[a] == i
  {
    a :| a in slot && slot[a] == i;
  }

  /** Different neighbours in different slots below `n`: at most `n`, and `n` exactly when all are taken. */
  lemma {:induction false} CountSlots(slot: map<LlAddr, nat>, n: nat)
    requires forall a :: a in slot ==> slot[a] < n
    requires forall a, b :: a in slot && b in slot && slot[a] == slot[b] ==> a == b
    ensures |slot| <= n && (|slot| == n <==> forall i :: 0 <= i < n ==> i in slot.Values)
    decreases n
  {
    if n == 0 {
      assert slot.Keys == {};
    } else if n - 1 in slot.Values {
      var a := Holder(slot, n - 1);
      var rest := slot - {a};
      CountSlots(rest, n - 1);
      assert |rest| == |slot| - 1 by { assert rest.Keys == slot.Keys - {a}; }
      SameValues(slot, a, n - 1);
    } else {
      CountSlots(slot, n - 1);
    }
  }

  lemma SameValues(slot: map<LlAddr, nat>, a: LlAddr, v: nat)
    requires a in slot && slot[a] == v
    ensures forall i :: i != v ==> (i in slot.Values <==> i in (slot - {a}).Values)
  {
    forall i | i != v ensures i in slot.Values <==> i in (slot - {a}).Values {
      if i in slot.Values {
        var b := Holder(slot, i);
        assert b in slot - {a} && (slot - {a})[b] == i;
      }
    }
  }

  ghost function ValuesOf(mem: seq<Item<Block>>): (r: seq<Block>)
    reads mem`value
    ensures |r| == |mem| && forall i :: 0 <= i < |mem| ==> r[i] == mem[i].value
  {
    if |mem| == 0 then [] else [mem[0].value] + ValuesOf(mem[1..])
  }

  method MakePool(n: nat) returns (mem: seq<Item<Block>>)
    ensures |mem| == n && (forall i :: 0 <= i < n ==> fresh(mem[i])) && forall i, j :: 0 <= i < j < n ==> mem[i] != mem[j]
  {
    mem := [];
    while |mem| < n
      invariant |mem| <= n && (forall i :: 0 <= i < |mem| ==> fresh(mem[i]))
      invariant forall i, j :: 0 <= i < j < |mem| ==> mem[i] != mem[j]
    {
      var item := new Item<Block>(Block(0, 0, 0));
      mem := mem + [item];
    }
  }

  method MakeArrays(m: nat, n: nat) returns (data: seq<array<Value>>)
    ensures |data| == m && (forall i :: 0 <= i < m ==> fresh(data[i]) && data[i].Length == n)
    ensures forall i, j :: 0 <= i < j < m ==> data[i] != data[j]
  {
    data := [];
    while |data| < m
      invariant |data| <= m && (forall i :: 0 <= i < |data| ==> fresh(data[i]) && data[i].Length == n)
      invariant forall i, j :: 0 <= i < j < |data| ==> data[i] != data[j]
    {
      var d := new Value[n](_ => 0);
      data := data + [d];
    }
  }

  class Store {
    const config: Config
    const mem: seq<Item<Block>>            // the blocks of the pool
    const used: array<bool>                // their reference counts
    const data: seq<array<Value>>          // one array per attribute definition
    const list: List<Block>
    var attrs: seq<AttrId>
    var timeout: U16
    ghost var table: Table
    ghost var slot: map<LlAddr, nat>       // where each neighbour is

    /** Pool, list and arrays are apart and of the sizes they should have. */
    ghost predicate Layout()
    {
      && |mem| == used.Length == config.capacity && |data| == |config.defaults|
      && (forall i, j :: 0 <= i < j < |mem| ==> mem[i] != mem[j])
      && (forall i, j :: 0 <= i < j < |data| ==> data[i] != data[j])
      && (forall k :: 0 <= k < |data| ==> data[k].Length == config.capacity)
    }

    /** Linked blocks are exactly the allocated ones. */
    ghost predicate Linked()
      requires Layout()
      reads used, list`items
    {
      && (forall i :: 0 <= i < |mem| ==> (used[i] <==> mem[i] in list.items))
      && (forall j :: 0 <= j < |list.items| ==> list.items[j] in mem)
    }

    ghost function Blocks(): (r: seq<Block>)
      reads mem`value
      ensures |r| == |mem| && forall i :: 0 <= i < |mem| ==> r[i] == mem[i].value
    {
      ValuesOf(mem)
    }

    ghost function Arrays(): (r: seq<seq<Value>>)
      reads data
      ensures |r| == |data| && forall k :: 0 <= k < |data| ==> r[k] == data[k][..]
    {
      seq(|data|, k requires 0 <= k < |data| reads data => data[k][..])
    }

    ghost function Contents(): Snap
      reads this, used, mem`value, data
    {
      Snap(Blocks(), used[..], Arrays(), attrs, table, slot)
    }

    ghost predicate Valid()
      reads this, used, list, list.items`next, mem`value, data
    {
      Layout() && list.Valid() && Linked() && Good(Contents())
    }

    /** `MEMB` and `NEIGHBOR_ATTRIBUTE`: everything zero. */
    constructor (config: Config)
      ensures Valid() && this.config == config && table == Table([], map[]) && timeout == 0
      ensures fresh(used) && fresh(list) && (forall x <- mem :: fresh(x)) && forall d <- data :: fresh(d)
    {
      var pool := MakePool(config.capacity);
      var arrays := MakeArrays(|config.defaults|, config.capacity);
      this.config := config;
      mem, data := pool, arrays;
      used := new bool[config.capacity](_ => false);
      list := new List<Block>();
      attrs, timeout, table, slot := [], 0, Table([], map[]), map[];
      new;
      hide Good, Linked;
      ValidAtFirst();
    }

    lemma ValidAtFirst()
      requires Layout() && list.Valid() && list.items == [] && forall i :: 0 <= i < used.Length ==> !used[i]
      requires attrs == [] && table == Table([], map[]) && slot == map[]
      ensures Valid()
    {
      NothingYet(Contents());
      hide Good;
    }

    /** `neighbor_addr_get`, for an address that does not itself lie in the pool. */
    method Find(addr: LlAddr) returns (item: Item?<Block>)
      requires Valid()
      ensures item == null <==> addr !in table.nbrs
      ensures item != null ==> item == mem[slot[addr]]
    {
      hide Good, Linked, Layout, Contents;
      if addr in table.nbrs { Listed(addr); }
      item := list.head;
      ghost var j := 0;
      while item != null
        invariant 0 <= j <= |list.items| && item == LinkTo(list.items, j)
        invariant forall i :: 0 <= i < j ==> list.items[i].value.addr != addr
        decreases |list.items| - j
      {
        if item.value.addr == addr {
          WhereIs(item);
          return;
        }
        item := item.next;
        j := j + 1;
      }
    }

    /** `neighbor_attr_get_data`. */
    method Get(k: AttrId, addr: LlAddr) returns (r: Option<Value>)
      requires Valid() && k in attrs
      ensures r == GetData(table, k, addr)
    {
      var item := Find(addr);
      r := if item == null then None else Some(data[k][item.value.index]);
    }

    /** `memb_alloc`: the first block not in use. */
    method Alloc() returns (r: Item?<Block>, ghost s: nat)
      requires Layout()
      modifies used
      ensures r == null ==> (forall i :: 0 <= i < used.Length ==> old(used[i])) && used[..] == old(used[..])
      ensures r != null ==> s < used.Length && r == mem[s] && !old(used[s]) && used[..] == old(used[..])[s := true]
    {
      var i := 0;
      s := 0;
      while i < used.Length
        invariant 0 <= i <= used.Length && used[..] == old(used[..])
        invariant forall j :: 0 <= j < i ==> used[j]
      {
        if !used[i] {
          used[i] := true;
          return mem[i], i;
        }
        i := i + 1;
      }
      r := null;
    }

    /** "Look up index": the position of a block in the pool. */
    method IndexOf(item: Item<Block>, ghost s: nat) returns (i: nat)
      requires Layout() && s < |mem| && mem[s] == item
      ensures i == s
    {
      i := 0;
      while mem[i] != item
        invariant 0 <= i <= s
        decreases s - i
      {
        i := i + 1;
      }
    }

    /** `memb_free`: the block is found by its address in the pool. */
    method Free(item: Item<Block>, ghost s: nat)
      requires Layout() && s < |mem| && mem[s] == item
      modifies used
      ensures used[..] == old(used[..])[s := false]
    {
      var i := 0;
      while mem[i] != item
        invariant 0 <= i <= s && used[..] == old(used[..])
        decreases s - i
      {
        i := i + 1;
      }
      used[i] := false;
    }

    /** `neighbor_attr_tick`. */
    method Tick(addr: LlAddr)
      requires Valid()
      modifies this`table, mem`value
      ensures Valid() && table == Refresh(old(table), addr)
    {
      hide Good;
      var item := Find(addr);
      if item != null {
        SlotOf(Contents(), addr);
        SetTime(addr, item, 0);
      }
    }

    /** An assignment to `time` of a block in use. */
    method SetTime(ghost addr: LlAddr, item: Item<Block>, time: U16)
      requires Valid() && addr in table.nbrs && addr in slot && slot[addr] < |mem| && item == mem[slot[addr]]
      modifies this`table, mem`value
      ensures Valid() && table == WithTime(old(table), addr, time)
      ensures Blocks() == old(Blocks())[old(slot[addr]) := old(Blocks())[old(slot[addr])].(time := time)]
    {
      hide Good, Linked, Placed, Tells;
      ghost var was := Contents();
      GoodTime(was, addr, time);
      item.value := item.value.(time := time);
      table := WithTime(table, addr, time);
      assert Blocks() == was.blocks[slot[addr] := was.blocks[slot[addr]].(time := time)];
      assert Arrays() == was.data;
    }

    /** `neighbor_attr_remove_neighbor`. */
    method Remove(addr: LlAddr) returns (r: int)
      requires Valid()
      modifies this`table, this`slot, list, mem`next, used
      ensures Valid() && table == RemoveNeighbor(old(table), addr) && r == if addr in old(table.nbrs) then 0 else -1
    {
      hide Good, Linked;
      var item := Find(addr);
      if item != null {
        SlotOf(Contents(), addr);
        Release(addr, item);
        return 0;
      }
      assert table.nbrs - {addr} == table.nbrs;
      r := -1;
    }

    /** Unlink and free a block. */
    method Release(ghost addr: LlAddr, item: Item<Block>)
      requires Valid() && addr in table.nbrs && addr in slot && slot[addr] < |mem| && item == mem[slot[addr]]
      modifies this`table, this`slot, list, mem`next, used
      ensures Valid() && table == RemoveNeighbor(old(table), addr) && slot == old(slot) - {addr}
      ensures list.items == Without(old(list.items), item)
    {
      hide Good, Placed, Tells, Linked, Sizes, RemoveNeighbor, Blocks, Arrays, List<Block>.Valid;
      ghost var was := Contents();
      GoodRelease(was, addr);
      SlotOf(was, addr);
      Detach(item, slot[addr]);
      slot := slot - {addr};
      table := RemoveNeighbor(table, addr);
      assert Blocks() == was.blocks && Arrays() == was.data;
    }

    /** Out of the list and back to the pool. */
    method Detach(item: Item<Block>, ghost s: nat)
      requires Layout() && list.Valid() && Linked() && s < |mem| && mem[s] == item && used[s]
      modifies list, mem`next, used
      ensures list.Valid() && Linked() && used[..] == old(used[..])[s := false]
        && list.items == Without(old(list.items), item)
    {
      list.Remove(item);
      Free(item, s);
    }

    /** `set_attr`. */
    method SetAttr(k: AttrId, i: nat)
      requires Layout() && i < config.capacity && k < |data|
      modifies data
      ensures Arrays() == SetAt(old(Arrays()), k, i, Default(config, k))
    {
      hide Default;
      data[k][i] := Default(config, k);
    }

    /** `set_attr` for every registered attribute. */
    method SetDefaults(i: nat)
      requires Layout() && i < config.capacity && forall k :: k in attrs ==> k < |data|
      modifies data
      ensures Arrays() == Initialised(config, old(Arrays()), attrs, i)
    {
      hide Default;
      ghost var was := Arrays();
      var j := 0;
      while j < |attrs|
        invariant 0 <= j <= |attrs|
        invariant Arrays() == Initialised(config, was, attrs[..j], i)
      {
        assert attrs[j] in attrs;
        InitialisedMore(config, was, attrs, j, i);
        SetAttr(attrs[j], i);
        j := j + 1;
      }
      assert attrs[..j] == attrs;
    }

    /** A block linked in: no other block of the list moves. */
    method Link(item: Item<Block>, ghost s: nat)
      requires Layout() && list.Valid() && s < |mem| && mem[s] == item && used[s] && item !in list.items
      requires (forall i :: 0 <= i < |mem| ==> (used[i] <==> mem[i] in list.items || i == s))
      requires forall j :: 0 <= j < |list.items| ==> list.items[j] in mem
      modifies list, mem`next
      ensures list.Valid() && Linked() && list.items == [item] + old(list.items)
    {
      list.Push(item);
    }

    /** The block gets idle time, address and index. */
    method FillBlock(addr: LlAddr, item: Item<Block>, ghost s: nat) returns (i: nat)
      requires Layout() && s < |mem| && mem[s] == item
      modifies mem`value
      ensures i == s && Blocks() == old(Blocks())[s := Block(addr, 0, s)]
    {
      item.value := item.value.(time := 0);
      item.value := item.value.(addr := addr);
      i := IndexOf(item, s);
      item.value := item.value.(index := i);
    }

    /** Block and arrays together. */
    method WriteSlot(addr: LlAddr, item: Item<Block>, ghost s: nat)
      requires Layout() && s < |mem| && mem[s] == item && forall k :: k in attrs ==> k < |data|
      modifies mem`value, data
      ensures Blocks() == old(Blocks())[s := Block(addr, 0, s)]
      ensures Arrays() == Initialised(config, old(Arrays()), attrs, s)
    {
      hide Initialised;
      ghost var blocks, arrays := Blocks(), Arrays();
      var i := FillBlock(addr, item, s);
      assert Arrays() == arrays;
      ghost var filled := Blocks();
      SetDefaults(i);
      assert Blocks() == filled;
    }

    /** A linked block becomes the new neighbour, with the default in every array. */
    method Enter(addr: LlAddr, item: Item<Block>, ghost s: nat)
      requires Layout() && list.Valid() && Linked() && s < |mem| && mem[s] == item && addr !in table.nbrs
      requires used[s] && Good(Contents().(used := used[..][s := false]))
      modifies this`table, this`slot, mem`value, data
      ensures Valid() && table == old(table).(nbrs := old(table.nbrs)[addr := Nbr(0, Initial(config, attrs))])
    {
      hide Good, Linked, Placed, Tells, Initial, Initialised, Blocks, Arrays, List<Block>.Valid;
      ghost var was := Contents();
      GoodAfter(config, was, addr, s);
      WriteSlot(addr, item, s);
      slot := slot[addr := s];
      table := table.(nbrs := table.nbrs[addr := Nbr(0, Initial(config, attrs))]);
      assert Contents() == Snap(Blocks(), was.used, Arrays(), was.attrs, table, slot);
    }

    /** `neighbor_attr_add_neighbor`. */
    method AddNeighbor(addr: LlAddr) returns (r: int)
      requires Valid()
      modifies this`table, this`slot, list, mem, used, data
      ensures Valid() && table == NeighborAttr.AddNeighbor(config, old(table), addr)
      ensures attrs == old(attrs) && r == if addr in old(table.nbrs) then 0 else if addr in table.nbrs then 1 else -1
    {
      hide Good, Linked;
      var item := Find(addr);
      if item != null { return 0; }
      AttrsInRange(Contents());
      r := AddNew(addr);
    }

    /** The rest of it, for a neighbour that is not there. */
    method AddNew(addr: LlAddr) returns (r: int)
      requires Valid() && addr !in table.nbrs
      modifies this`table, this`slot, list, mem, used, data
      ensures Valid() && r == (if |old(table.nbrs)| < config.capacity then 1 else -1)
      ensures table == if r == 1 then old(table).(nbrs := old(table.nbrs)[addr := Nbr(0, Initial(config, attrs))]) else old(table)
    {
      hide Good, Placed, Tells, Initial;
      ghost var was := Contents();
      PoolIsTable(was);
      var item, s := Alloc();
      if item == null {
        assert used[..] == was.used;
        assert Contents() == was;
        return -1;
      }
      assert used[..][s := false] == was.used;
      Admit(addr, item, s);
      r := 1;
    }

    /** A block fresh from the pool becomes the new neighbour. */
    method Admit(addr: LlAddr, item: Item<Block>, ghost s: nat)
      requires Layout() && list.Valid() && s < |mem| && mem[s] == item && used[s] && addr !in table.nbrs
      requires item !in list.items && (forall i :: 0 <= i < |mem| ==> (used[i] <==> mem[i] in list.items || i == s))
      requires (forall j :: 0 <= j < |list.items| ==> list.items[j] in mem) && Good(Contents().(used := used[..][s := false]))
      modifies this`table, this`slot, list, mem, data
      ensures Valid() && table == old(table).(nbrs := old(table.nbrs)[addr := Nbr(0, Initial(config, attrs))])
    {
      hide Good, Linked, Initial;
      ghost var was := Contents();
      Link(item, s);
      assert Blocks() == was.blocks && Arrays() == was.data;
      Enter(addr, item, s);
    }

    /** `memcpy` into the array of an attribute. */
    method Put(k: AttrId, ghost addr: LlAddr, index: nat, v: Value)
      requires Valid() && addr in table.nbrs && addr in slot && index == slot[addr] < |mem| && k < |data|
      modifies this`table, data
      ensures Valid() && table == Written(old(Contents()), k, addr, v).table
    {
      hide Good, Linked, Placed, Tells;
      ghost var was := Contents();
      GoodWritten(was, k, addr, v);
      data[k][index] := v;
      table := Written(was, k, addr, v).table;
      assert Arrays() == SetAt(was.data, k, index, v);
      assert Contents() == Written(was, k, addr, v);
    }

    /** A value stored for a neighbour that is there; the time it was heard is reset first. */
    method Write(k: AttrId, addr: LlAddr, item: Item<Block>, v: Value)
      requires Valid() && addr in table.nbrs && addr in slot && slot[addr] < |mem| && item == mem[slot[addr]]
        && k < |data|
      requires item.value.index == slot[addr]
      modifies this`table, mem`value, data
      ensures Valid() && table == (var n := old(table.nbrs)[addr];
                                   old(table).(nbrs := old(table.nbrs)[addr := Nbr(0, if k in n.values then n.values[k := v] else n.values)]))
    {
      hide Good, Linked, Blocks, Arrays;
      ghost var s := slot[addr];
      SetTime(addr, item, 0);
      assert item.value == Blocks()[s];
      Put(k, addr, item.value.index, v);
    }

    /** `neighbor_attr_set_data`. */
    method Set(k: AttrId, addr: LlAddr, v: Value) returns (r: int)
      requires Valid() && k < |data|
      modifies this`table, this`slot, list, mem, used, data
      ensures Valid() && table == SetData(config, old(table), k, addr, v)
      ensures r == if addr in table.nbrs then 1 else 0
    {
      hide Good, Linked, NeighborAttr.AddNeighbor;
      var item := Find(addr);
      if item == null {
        var added := AddNeighbor(addr);
        if added != 0 { item := Find(addr); }
      } else {
        AddKnown(config, table, addr);
      }
      if item != null {
        SlotOf(Contents(), addr);
        Write(k, addr, item, v);
        return 1;
      }
      r := 0;
    }

    /** The loop of `neighbor_attr_register` over the neighbours there are. */
    method FillDefault(k: AttrId)
      requires Layout() && list.Valid() && Linked() && k < |data|
      requires forall i :: 0 <= i < |mem| && used[i] ==> mem[i].value.index == i
      modifies data
      ensures forall q :: 0 <= q < |data| && q != k ==> Arrays()[q] == old(Arrays())[q]
      ensures forall i :: 0 <= i < |mem| && used[i] ==> Arrays()[k][i] == Default(config, k)
    {
      hide Default, Linked;
      ghost var was := Arrays();
      ghost var places := Places();
      var addr := list.head;
      ghost var j := 0;
      while addr != null
        invariant 0 <= j <= |list.items| && addr == LinkTo(list.items, j)
        invariant forall q :: 0 <= q < |data| && q != k ==> data[q][..] == was[q]
        invariant forall m :: 0 <= m < j ==> data[k][places[m]] == Default(config, k)
        decreases |list.items| - j
      {
        assert addr.value.index == places[j];
        data[k][addr.value.index] := Default(config, k);
        addr := addr.next;
        j := j + 1;
      }
      forall i | 0 <= i < |mem| && used[i] ensures data[k][i] == Default(config, k) {
        ghost var m :| 0 <= m < |places| && places[m] == i;
      }
    }

    /** The indexes of the linked blocks, which are those in use. */
    ghost method Places() returns (places: seq<nat>)
      requires Layout() && list.Valid() && Linked() && forall i :: 0 <= i < |mem| && used[i] ==> mem[i].value.index == i
      ensures |places| == |list.items|
      ensures forall m :: 0 <= m < |places| ==> places[m] == list.items[m].value.index < |mem|
      ensures forall i :: 0 <= i < |mem| && used[i] ==> i in places
    {
      assert forall m :: 0 <= m < |list.items| ==> list.items[m] in mem;
      var blocks := ValuesOf(list.items);
      places := seq(|blocks|, m requires 0 <= m < |blocks| => blocks[m].index);
      forall i | 0 <= i < |mem| && used[i] ensures i in places {
        var m :| 0 <= m < |list.items| && list.items[m] == mem[i];
        assert places[m] == i;
      }
    }

    /** `neighbor_attr_register`: on the list of attributes, and the default for every neighbour there is. */
    method RegisterAttr(k: AttrId)
      requires Valid() && k < |data|
      modifies this`table, this`attrs, data
      ensures Valid() && table == Register(config, old(table), k)
    {
      hide Good, Placed, Tells, Default, Linked, Register, Blocks, List<Block>.Valid;
      ghost var was := Contents();
      IndexesRight(was);
      attrs := [k] + Minus(attrs, k);
      FillDefault(k);
      GoodRegister(config, was, k, Arrays());
      table := Register(config, table, k);
      assert Contents() == Enlisted(config, was, k, Arrays());
    }

    /** The neighbours in the order of the list: each of them once. */
    ghost method Order() returns (names: seq<LlAddr>)
      requires Valid()
      ensures |names| == |list.items|
      ensures forall m :: 0 <= m < |names| ==> list.items[m] in mem && names[m] == list.items[m].value.addr
      ensures forall m, n :: 0 <= m < n < |names| ==> names[m] != names[n]
      ensures forall a :: a in names <==> a in table.nbrs
    {
      hide Good, Linked, Layout, Contents;
      var blocks := ValuesOf(list.items);
      names := seq(|blocks|, m requires 0 <= m < |blocks| => blocks[m].addr);
      forall m | 0 <= m < |names|
        ensures names[m] in table.nbrs && names[m] in slot && slot[names[m]] < |mem|
          && mem[slot[names[m]]] == list.items[m]
        ensures list.items[m] in mem
      {
        WhereIs(list.items[m]);
      }
      forall a | a in table.nbrs ensures a in names {
        Listed(a);
        var m :| 0 <= m < |list.items| && list.items[m] == mem[slot[a]];
        assert names[m] == a;
      }
    }

    lemma Listed(a: LlAddr)
      requires Valid() && a in table.nbrs
      ensures a in slot && slot[a] < |mem| && mem[slot[a]] in list.items && mem[slot[a]].value.addr == a
    {
      hide Good, Placed, Tells;
      SlotOf(Contents(), a);
    }

    /** A linked block is the block of the neighbour whose address it holds. */
    lemma WhereIs(item: Item<Block>)
      requires Valid() && item in list.items
      ensures var a := item.value.addr;
              a in table.nbrs && a in slot && slot[a] < |mem| && mem[slot[a]] == item && table.nbrs[a].time == item.value.time && item in mem
    {
      hide Good, Placed, Tells;
      assert item in mem;
      var i :| 0 <= i < |mem| && mem[i] == item;
      InBlock(Contents(), i);
      TimeTold(Contents(), item.value.addr);
    }

    /** One turn of the loop of `timeout_check`. */
    method Visit(item: Item<Block>, ghost addr: LlAddr) returns (next: Item?<Block>)
      requires Valid() && item in list.items && item.value.addr == addr && addr in table.nbrs
      modifies this`table, this`slot, list, mem, used
      ensures Valid() && next == old(item.next)
      ensures var later := Later(old(table.nbrs)[addr].time);
              && table == (var t := WithTime(old(table), addr, later); if later < timeout then t else RemoveNeighbor(t, addr))
              && list.items == if later < timeout then old(list.items) else Without(old(list.items), item)
      ensures forall i :: 0 <= i < |mem| ==> mem[i].value.addr == old(mem[i].value.addr)
    {
      hide Good, Linked;
      WhereIs(item);
      next := item.next;
      SetTime(addr, item, Later(item.value.time));
      assert forall i :: 0 <= i < |mem| ==> mem[i].value == Blocks()[i];
      if item.value.time >= timeout {
        SlotOf(Contents(), addr);
        Release(addr, item);
      }
    }

    /** The first `i` neighbours of the original order have been looked at. */
    ghost predicate Checked(was: Table, order: seq<Item<Block>>, names: seq<LlAddr>, i: nat)
      requires i <= |order| == |names|
      reads this, list`items, mem`value
    {
      && table == Partial(was, timeout, names[..i]) && Aligned(list.items, order, i)
      && forall m :: 0 <= m < |order| ==> order[m] in mem && order[m].value.addr == names[m]
    }

    /** One turn as the loop sees it. */
    method Turn(item: Item<Block>, ghost was: Table, ghost order: seq<Item<Block>>, ghost names: seq<LlAddr>, ghost i: nat)
      returns (next: Item?<Block>)
      requires Valid() && i < |order| == |names| && item == order[i] && Checked(was, order, names, i)
      requires names[i] in was.nbrs && forall m, n :: 0 <= m < n < |names| ==> names[m] != names[n]
      modifies this`table, this`slot, list, mem, used
      ensures Valid() && Checked(was, order, names, i + 1) && next == LinkTo(order, i + 1)
    {
      hide Good, Linked, Partial, Without, Later, WithTime, RemoveNeighbor, Layout, Aligned;
      PartialStep(was, timeout, names, i);
      ghost var items := list.items;
      NextInOrder(items, order, i);
      next := Visit(item, names[i]);
      assert list.items == items || list.items == Without(items, order[i]);
    }

    /** `timeout_check`: every block of the list in turn, its successor fetched before it is unlinked. */
    method CheckTimeouts()
      requires Valid()
      modifies this`table, this`slot, list, mem, used
      ensures Valid() && table == TimeoutCheck(old(table), timeout)
    {
      hide Good, Linked, TimeoutCheck, Partial, Layout, Aligned;
      if timeout == 0 {
        NoCheck(table);
        return;
      }
      ghost var was := table;
      ghost var order := list.items;
      ghost var names := Order();
      ghost var i := 0;
      var item := list.head;
      PartialEnds(was, timeout, names);
      AlignedStart(order);
      assert Checked(was, order, names, 0);
      hide Checked;
      while item != null
        invariant Valid() && 0 <= i <= |order| && item == LinkTo(order, i) && Checked(was, order, names, i)
        decreases |order| - i
      {
        item := Turn(item, was, order, names, i);
        i := i + 1;
      }
      assert i == |names|;
      FullyChecked(was, order, names);
    }

    lemma FullyChecked(was: Table, order: seq<Item<Block>>, names: seq<LlAddr>)
      requires |order| == |names| && Checked(was, order, names, |names|)
      ensures table == Partial(was, timeout, names[..|names|])
    {
      hide Partial, Aligned;
    }
  }

  /** The list still ends with the original order from position `i` on. */
  ghost predicate Aligned(items: seq<Item<Block>>, order: seq<Item<Block>>, i: nat)
    requires i <= |order|
  {
    |order| - i <= |items| && items[|items| - (|order| - i)..] == order[i..]
  }

  lemma AlignedStart(order: seq<Item<Block>>)
    ensures Aligned(order, order, 0)
  {
    assert order[|order| - |order|..] == order[0..];
  }

  lemma NextInOrder(items: seq<Item<Block>>, order: seq<Item<Block>>, i: nat)
    requires i < |order| && Aligned(items, order, i)
    requires forall j, k :: 0 <= j < k < |items| ==> items[j] != items[k]
    requires forall j :: 0 <= j < |items| ==> items[j].next == LinkTo(items, j + 1)
    ensures order[i] in items && order[i].next == LinkTo(order, i + 1)
    ensures Aligned(items, order, i + 1) && Aligned(Without(items, order[i]), order, i + 1)
  {
    var p := |items| - (|order| - i);
    assert items[p] == items[p..][0] == order[i];
    assert items[p + 1..] == items[p..][1..] == order[i..][1..] == order[i + 1..];
    WithoutAt(items, order[i], p);
    assert Cut(items, p)[p..] == items[p + 1..];
    if i + 1 < |order| { assert items[p + 1] == items[p + 1..][0] == order[i + 1]; }
  }

  /** The check half done: applied to the neighbours in `done`. */
  ghost function Partial(t: Table, timeout: U16, done: seq<LlAddr>): Table {
    t.(nbrs := map a | a in t.nbrs && (a in done ==> Later(t.nbrs[a].time) < timeout) ::
                 if a in done then t.nbrs[a].(time := Later(t.nbrs[a].time)) else t.nbrs[a])
  }

  lemma PartialEnds(t: Table, timeout: U16, names: seq<LlAddr>)
    requires timeout > 0 && forall a :: a in names <==> a in t.nbrs
    ensures Partial(t, timeout, names[..0]) == t && Partial(t, timeout, names[..|names|]) == TimeoutCheck(t, timeout)
  {
    assert names[..|names|] == names;
    assert Partial(t, timeout, names[..0]).nbrs == t.nbrs;
    assert Partial(t, timeout, names).nbrs == TimeoutCheck(t, timeout).nbrs;
  }

  lemma PartialStep(t: Table, timeout: U16, names: seq<LlAddr>, i: nat)
    requires i < |names| && names[i] in t.nbrs && forall m, n :: 0 <= m < n < |names| ==> names[m] != names[n]
    ensures var p := Partial(t, timeout, names[..i]);
            && names[i] in p.nbrs && p.nbrs[names[i]] == t.nbrs[names[i]]
            && Partial(t, timeout, names[..i + 1])
               == (var later := Later(t.nbrs[names[i]].time);
                   var q := WithTime(p, names[i], later);
                   if later < timeout then q else RemoveNeighbor(q, names[i]))
  {
    var a := names[i];
    assert a !in names[..i];
    assert names[..i + 1] == names[..i] + [a];
    var p := Partial(t, timeout, names[..i]);
    var q := WithTime(p, a, Later(t.nbrs[a].time));
    var r := if Later(t.nbrs[a].time) < timeout then q else RemoveNeighbor(q, a);
    assert Partial(t, timeout, names[..i + 1]).nbrs == r.nbrs;
  }

  lemma NoCheck(t: Table)
    ensures TimeoutCheck(t, 0) == t
  {}

  lemma IndexesRight(s: Snap)
    requires Good(s)
    ensures |s.used| == |s.blocks| && forall i :: 0 <= i < |s.blocks| && s.used[i] ==> s.blocks[i].index == i
  {
    hide Tells;
  }

  lemma AddKnown(c: Config, t: Table, a: LlAddr)
    requires a in t.nbrs
    ensures NeighborAttr.AddNeighbor(c, t, a) == t
  {}

  lemma NothingYet(s: Snap)
    requires Sizes(s) && (forall i :: 0 <= i < |s.used| ==> !s.used[i]) && s.attrs == [] && s.table == Table([], map[]) && s.slot == map[]
    ensures Good(s)
  {}

  lemma AttrsInRange(s: Snap)
    requires Good(s)
    ensures s.table.attrs == s.attrs && forall k :: k in s.attrs ==> k < |s.data|
  {
    hide Tells;
  }

  lemma InBlock(s: Snap, i: nat)
    requires Good(s) && i < |s.blocks| && |s.used| == |s.blocks| && s.used[i]
    ensures s.blocks[i].index == i && s.blocks[i].addr in s.table.nbrs && s.blocks[i].addr in s.slot
      && s.slot[s.blocks[i].addr] == i
  {
    hide Tells;
  }

  lemma TimeTold(s: Snap, a: LlAddr)
    requires Good(s) && a in s.table.nbrs
    ensures a in s.slot && s.slot[a] < |s.blocks| && s.table.nbrs[a].time == s.blocks[s.slot[a]].time
  {
    assert Tells(s, s.table.nbrs[a], s.slot[a]);
  }

  lemma SlotOf(s: Snap, a: LlAddr)
    requires Good(s) && a in s.table.nbrs
    ensures a in s.slot && s.slot[a] < |s.blocks| == |s.used| && s.used[s.slot[a]] && s.blocks[s.slot[a]].addr == a
    ensures s.blocks[s.slot[a]].index == s.slot[a]
  {
    hide Tells;
  }
}
