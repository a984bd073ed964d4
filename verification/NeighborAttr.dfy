// The neighbour attribute store of neighbor_attr.c as a bounded map: every
// neighbour has an idle time and a value for every registered attribute.
module NeighborAttr {
  import opened Bytes
  import opened Sets

  type LlAddr = nat
  type AttrId = nat
  type Value = nat

  const TIMEOUT_SECONDS: nat := 5

  /** The pool size, and for each attribute definition its default, zeros if it has none. */
  datatype Config = Config(capacity: nat, defaults: seq<Option<Value>>)

  datatype Nbr = Nbr(time: U16, values: map<AttrId, Value>)

  /** The registered attributes, last first, and the neighbours. */
  datatype Table = Table(attrs: seq<AttrId>, nbrs: map<LlAddr, Nbr>)

  function Default(c: Config, k: AttrId): Value {
    if k < |c.defaults| && c.defaults[k].Some? then c.defaults[k].value else 0
  }

  function Initial(c: Config, attrs: seq<AttrId>): map<AttrId, Value> { map k | k in attrs :: Default(c, k) }

  function Minus(attrs: seq<AttrId>, k: AttrId): (r: seq<AttrId>)
    ensures forall j :: j in r <==> j in attrs && j != k
  {
    if attrs == [] then [] else if attrs[0] == k then Minus(attrs[1..], k) else [attrs[0]] + Minus(attrs[1..], k)
  }

  /** `neighbor_attr_register`: every neighbour there is gets the default. */
  function Register(c: Config, t: Table, k: AttrId): Table {
    Table([k] + Minus(t.attrs, k), map a | a in t.nbrs :: t.nbrs[a].(values := t.nbrs[a].values[k := Default(c, k)]))
  }

  /** `neighbor_attr_add_neighbor`. */
  function AddNeighbor(c: Config, t: Table, a: LlAddr): Table {
    if a in t.nbrs || |t.nbrs| >= c.capacity then t else t.(nbrs := t.nbrs[a := Nbr(0, Initial(c, t.attrs))])
  }

  /** `neighbor_attr_remove_neighbor`. */
  function RemoveNeighbor(t: Table, a: LlAddr): Table { t.(nbrs := t.nbrs - {a}) }

  /** `neighbor_attr_get_data`. */
  function GetData(t: Table, k: AttrId, a: LlAddr): Option<Value> {
    if a in t.nbrs && k in t.nbrs[a].values then Some(t.nbrs[a].values[k]) else None
  }

  /** `neighbor_attr_set_data`: a neighbour not there is added first, if there is room. */
  function SetData(c: Config, t: Table, k: AttrId, a: LlAddr, v: Value): Table {
    var t1 := AddNeighbor(c, t, a);
    if a in t1.nbrs then
      var n := t1.nbrs[a];
      t1.(nbrs := t1.nbrs[a := Nbr(0, if k in n.values then n.values[k := v] else n.values)])
    else t1
  }

  /** `neighbor_attr_tick`. */
  function Refresh(t: Table, a: LlAddr): Table {
    if a in t.nbrs then t.(nbrs := t.nbrs[a := t.nbrs[a].(time := 0)]) else t
  }

  /** `item->time += TIMEOUT_SECONDS` in 16 bits. */
  function Later(time: U16): U16 { (time + TIMEOUT_SECONDS) % 0x1_0000 }

  /** `timeout_check`. */
  function TimeoutCheck(t: Table, timeout: U16): Table {
    if timeout == 0 then t
    else t.(nbrs := map a | a in t.nbrs && Later(t.nbrs[a].time) < timeout :: t.nbrs[a].(time := Later(t.nbrs[a].time)))
  }

  datatype Event =
    | Registered(attr: AttrId)
    | Added(addr: LlAddr)
    | Removed(gone: LlAddr)
    | DataSet(key: AttrId, owner: LlAddr, value: Value)
    | Refreshed(alive: LlAddr)
    | Checked(timeout: U16)

  function Step(c: Config, t: Table, e: Event): Table {
    match e
    case Registered(k) => Register(c, t, k)
    case Added(a) => AddNeighbor(c, t, a)
    case Removed(a) => RemoveNeighbor(t, a)
    case DataSet(k, a, v) => SetData(c, t, k, a, v)
    case Refreshed(a) => Refresh(t, a)
    case Checked(timeout) => TimeoutCheck(t, timeout)
  }

  /** The table after a history of events, from nothing. */
  function Run(c: Config, events: seq<Event>): Table {
    if events == [] then Table([], map[]) else Step(c, Run(c, events[..|events| - 1]), events[|events| - 1])
  }

  // ---------------------------------------------------------------- over all runs

  /** Never more neighbours than blocks, a value for exactly the registered attributes, and idle times that
      are whole numbers of checks, so that their 16 bits never overflow. */
  ghost predicate Inv(c: Config, t: Table) {
    && |t.nbrs| <= c.capacity
    && (forall a, k :: a in t.nbrs ==> (k in t.nbrs[a].values <==> k in t.attrs))
    && (forall a :: a in t.nbrs ==> t.nbrs[a].time % TIMEOUT_SECONDS == 0 && t.nbrs[a].time < 0xffff)
  }

  lemma CheckKeeps(t: Table, timeout: U16)
    ensures TimeoutCheck(t, timeout).nbrs.Keys <= t.nbrs.Keys && |TimeoutCheck(t, timeout).nbrs| <= |t.nbrs|
  {
    SubsetCard(TimeoutCheck(t, timeout).nbrs.Keys, t.nbrs.Keys);
  }

  lemma StepInv(c: Config, t: Table, e: Event)
    requires Inv(c, t)
    ensures Inv(c, Step(c, t, e))
  {
    hide Inv, Register, AddNeighbor, RemoveNeighbor, SetData, Refresh, TimeoutCheck;
    match e {
      case Registered(k) => RegisterInv(c, t, k);
      case Added(a) => AddInv(c, t, a);
      case Removed(a) => RemoveInv(c, t, a);
      case DataSet(k, a, v) => SetInv(c, t, k, a, v);
      case Refreshed(a) => RefreshInv(c, t, a);
      case Checked(timeout) => CheckInv(c, t, timeout);
    }
  }

  lemma RegisterInv(c: Config, t: Table, k: AttrId)
    requires Inv(c, t)
    ensures Inv(c, Register(c, t, k))
  {
    hide Default;
    assert Register(c, t, k).nbrs.Keys == t.nbrs.Keys;
  }

  lemma AddInv(c: Config, t: Table, a: LlAddr)
    requires Inv(c, t)
    ensures Inv(c, AddNeighbor(c, t, a))
  {
    hide Default;
  }

  lemma RemoveInv(c: Config, t: Table, a: LlAddr)
    requires Inv(c, t)
    ensures Inv(c, RemoveNeighbor(t, a))
  {
    SubsetCard(RemoveNeighbor(t, a).nbrs.Keys, t.nbrs.Keys);
  }

  lemma SetInv(c: Config, t: Table, k: AttrId, a: LlAddr, v: Value)
    requires Inv(c, t)
    ensures Inv(c, SetData(c, t, k, a, v))
  {
    AddInv(c, t, a);
    hide AddNeighbor;
    var t1 := AddNeighbor(c, t, a);
    if a in t1.nbrs { WriteInv(c, t1, k, a, v); }
  }

  lemma WriteInv(c: Config, t: Table, k: AttrId, a: LlAddr, v: Value)
    requires Inv(c, t) && a in t.nbrs
    ensures var n := t.nbrs[a];
            Inv(c, t.(nbrs := t.nbrs[a := Nbr(0, if k in n.values then n.values[k := v] else n.values)]))
  {
    var n := t.nbrs[a];
    assert t.nbrs[a := Nbr(0, if k in n.values then n.values[k := v] else n.values)].Keys == t.nbrs.Keys;
  }

  lemma RefreshInv(c: Config, t: Table, a: LlAddr)
    requires Inv(c, t)
    ensures Inv(c, Refresh(t, a))
  {
    if a in t.nbrs { assert Refresh(t, a).nbrs.Keys == t.nbrs.Keys; }
  }

  lemma CheckInv(c: Config, t: Table, timeout: U16)
    requires Inv(c, t)
    ensures Inv(c, TimeoutCheck(t, timeout))
  {
    hide Later;
    CheckKeeps(t, timeout);
    forall a | a in t.nbrs ensures Later(t.nbrs[a].time) % TIMEOUT_SECONDS == 0 {
      NoOverflow(t.nbrs[a].time);
    }
  }

  /** 65535 is a whole number of checks and no timeout is longer. */
  lemma NoOverflow(time: U16)
    requires time % TIMEOUT_SECONDS == 0 && time < 0xffff
    ensures Later(time) == time + TIMEOUT_SECONDS && Later(time) % TIMEOUT_SECONDS == 0
  {}

  lemma {:induction false} RunInv(c: Config, events: seq<Event>)
    ensures Inv(c, Run(c, events))
    decreases |events|
  {
    hide Inv, Step;
    if events == [] {
      Nothing(c);
    } else {
      RunInv(c, events[..|events| - 1]);
      StepInv(c, Run(c, events[..|events| - 1]), events[|events| - 1]);
    }
  }

  lemma Nothing(c: Config)
    ensures Inv(c, Table([], map[]))
  {}

  /** What reading an attribute should give, from the history alone: the value last set since the neighbour
      was added or the attribute registered, else the default. */
  function Expected(c: Config, events: seq<Event>, k: AttrId, a: LlAddr): Option<Value>
    decreases |events|
  {
    if events == [] then None
    else
      var front, e := events[..|events| - 1], events[|events| - 1];
      if a !in Run(c, events).nbrs || k !in Run(c, events).attrs then None
      else if e.DataSet? && e.key == k && e.owner == a then Some(e.value)
      else if a !in Run(c, front).nbrs || e == Registered(k) then Some(Default(c, k))
      else Expected(c, front, k, a)
  }

  lemma {:induction false} ReadsLastWrite(c: Config, events: seq<Event>, k: AttrId, a: LlAddr)
    ensures GetData(Run(c, events), k, a) == Expected(c, events, k, a)
    decreases |events|
  {
    if events != [] {
      var front, e := events[..|events| - 1], events[|events| - 1];
      ReadsLastWrite(c, front, k, a);
      RunInv(c, events);
      RunInv(c, front);
      ReadStep(c, Run(c, front), e, k, a);
      hide Step;
    }
  }

  /** One event seen by one reader. */
  lemma ReadStep(c: Config, t: Table, e: Event, k: AttrId, a: LlAddr)
    requires Inv(c, t) && Inv(c, Step(c, t, e))
    ensures var r := Step(c, t, e);
            GetData(r, k, a) ==
            if a !in r.nbrs || k !in r.attrs then None
            else if e.DataSet? && e.key == k && e.owner == a then Some(e.value)
            else if a !in t.nbrs || e == Registered(k) then Some(Default(c, k))
            else GetData(t, k, a)
  {
    hide Default;
    match e {
      case DataSet(j, b, v) => ReadSet(c, t, j, b, v, k, a);
      case _ =>
    }
    hide SetData;
  }

  lemma ReadSet(c: Config, t: Table, j: AttrId, b: LlAddr, v: Value, k: AttrId, a: LlAddr)
    requires Inv(c, t) && Inv(c, SetData(c, t, j, b, v))
    ensures var r := SetData(c, t, j, b, v);
            && r.attrs == t.attrs
            && GetData(r, k, a) ==
               if a !in r.nbrs || k !in r.attrs then None
               else if j == k && b == a then Some(v)
               else if a !in t.nbrs then Some(Default(c, k))
               else GetData(t, k, a)
  {
    hide Default;
  }

  /** The neighbour an event names, if it names one. */
  function Names(e: Event): Option<LlAddr> {
    match e
    case Registered(_) => None
    case Added(a) => Some(a)
    case Removed(a) => Some(a)
    case DataSet(_, a, _) => Some(a)
    case Refreshed(a) => Some(a)
    case Checked(_) => None
  }

  /** No update touches another neighbour. */
  lemma OthersUntouched(c: Config, t: Table, e: Event, b: LlAddr)
    requires Names(e).Some? && Names(e).value != b
    ensures b in Step(c, t, e).nbrs <==> b in t.nbrs
    ensures b in t.nbrs ==> Step(c, t, e).nbrs[b] == t.nbrs[b]
  {}

  /** `n` checks with nothing heard from anyone. */
  function Checks(t: Table, timeout: U16, n: nat): Table
    decreases n
  {
    if n == 0 then t else Checks(TimeoutCheck(t, timeout), timeout, n - 1)
  }

  /** A silent neighbour stays exactly as long as its idle time has not reached the timeout. */
  lemma {:induction false} IdleRemoved(t: Table, timeout: U16, n: nat, a: LlAddr)
    requires timeout > 0 && a in t.nbrs && t.nbrs[a].time % TIMEOUT_SECONDS == 0 && t.nbrs[a].time < timeout
    ensures a in Checks(t, timeout, n).nbrs <==> t.nbrs[a].time + n * TIMEOUT_SECONDS < timeout
    decreases n
  {
    if n > 0 {
      NoOverflow(t.nbrs[a].time);
      var r := TimeoutCheck(t, timeout);
      if a in r.nbrs {
        IdleRemoved(r, timeout, n - 1, a);
      } else {
        StaysGone(r, timeout, n - 1, a);
      }
    }
  }

  lemma {:induction false} StaysGone(t: Table, timeout: U16, n: nat, a: LlAddr)
    requires a !in t.nbrs
    ensures a !in Checks(t, timeout, n).nbrs
    decreases n
  {
    if n > 0 { StaysGone(TimeoutCheck(t, timeout), timeout, n - 1, a); }
  }

  // ----------------------------------------------------------- who is in the table

  /** Who is there after an event: a neighbour added, or given a value, if there is room; not one removed, nor one whose idle
      time, five seconds more at every check, has reached the timeout. */
  lemma PresentExact(c: Config, t: Table, e: Event, a: LlAddr)
    requires Inv(c, t)
    ensures var r := Step(c, t, e);
            a in r.nbrs <==>
            match e
            case Registered(_) => a in t.nbrs
            case Added(b) => a in t.nbrs || (a == b && |t.nbrs| < c.capacity)
            case Removed(b) => a in t.nbrs && a != b
            case DataSet(_, b, _) => a in t.nbrs || (a == b && |t.nbrs| < c.capacity)
            case Refreshed(_) => a in t.nbrs
            case Checked(timeout) => a in t.nbrs && (timeout == 0 || t.nbrs[a].time + 5 < timeout)
  {
    hide Default;
    if a in t.nbrs { NoOverflow(t.nbrs[a].time); }
  }

  /** The neighbour is heard of. */
  predicate Heard(e: Event, a: LlAddr) { (e.DataSet? && e.owner == a) || (e.Refreshed? && e.alive == a) }

  /** Its idle time begins anew then, grows by five seconds at a check, and stays at any other event. */
  lemma TimeExact(c: Config, t: Table, e: Event, a: LlAddr)
    requires Inv(c, t) && a in Step(c, t, e).nbrs
    ensures Step(c, t, e).nbrs[a].time
            == if a !in t.nbrs || Heard(e, a) then 0
               else if e.Checked? && e.timeout != 0 then t.nbrs[a].time + 5 else t.nbrs[a].time
  {
    hide Default;
    if a in t.nbrs { NoOverflow(t.nbrs[a].time); }
  }

  /** The checks in a history since the neighbour was last heard of or came into the table. */
  function Silence(c: Config, events: seq<Event>, a: LlAddr): nat {
    if events == [] then 0
    else
      var front, e := events[..|events| - 1], events[|events| - 1];
      if a !in Run(c, front).nbrs || Heard(e, a) then 0
      else if e.Checked? && e.timeout != 0 then Silence(c, front, a) + 1
      else Silence(c, front, a)
  }

  /** Over every run the idle time is five seconds for each of them. */
  lemma {:induction false} IdleExact(c: Config, events: seq<Event>, a: LlAddr)
    requires a in Run(c, events).nbrs
    ensures Run(c, events).nbrs[a].time == 5 * Silence(c, events, a)
    decreases |events|
  {
    var front, e := events[..|events| - 1], events[|events| - 1];
    RunInv(c, front);
    TimeExact(c, Run(c, front), e, a);
    hide Step, Heard, Inv;
    if a in Run(c, front).nbrs { IdleExact(c, front, a); }
  }

  /** The attributes that have values are those that were ever registered. */
  lemma {:induction false} AttrsExact(c: Config, events: seq<Event>, k: AttrId)
    ensures k in Run(c, events).attrs <==> Registered(k) in events
    decreases |events|
  {
    if events != [] {
      var front, e := events[..|events| - 1], events[|events| - 1];
      AttrsExact(c, front, k);
      assert events == front + [e];
      hide Default;
    }
  }
}
