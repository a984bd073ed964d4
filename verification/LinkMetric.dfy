// The smoothed transmission count of neighbor_info.c: what one transmission
// report does to the stored metric, and where any run of reports leads.
module LinkMetric {
  import opened Bytes

  const ETX_LIMIT: nat := 15
  const ETX_ALPHA: nat := 90
  const ETX_SCALE: nat := 100
  const ETX_DIVISOR: nat := 16

  datatype Status = TxOk | TxCollision | TxNoAck | TxOther

  /** `rimeaddr_null`, the destination of a broadcast. */
  const NULL_ADDR: nat := 0

  /** The metrics of the neighbours in the attribute table, 0 while none was recorded. */
  type Table = map<nat, U8>

  /** The moving average, with every product and sum in 16 bits and the result in 8. */
  function Smooth(recorded: U8, sample: nat): U8 {
    (recorded * ETX_ALPHA % 0x1_0000 + sample * (ETX_SCALE - ETX_ALPHA) % 0x1_0000) % 0x1_0000 / ETX_SCALE % 0x100
  }

  function NewMetric(recorded: U8, sample: nat): U8 {
    if recorded == 0 then sample % 0x100 else Smooth(recorded, sample)
  }

  /** `packet_metric` in fixed point, `None` for a status that is not charged to the link. */
  function Sample(status: Status, numtx: nat): (r: nat) {
    if status == TxNoAck then ETX_LIMIT * ETX_DIVISOR else numtx % 0x100 * ETX_DIVISOR
  }

  /** `neighbor_info_packet_sent`. `room`: whether the attribute table can take another neighbour. */
  function Report(t: Table, dest: nat, status: Status, numtx: nat, room: bool): Table {
    if dest == NULL_ADDR || status == TxOther then t
    else
      var t1 := if status == TxOk && dest !in t && room then t[dest := 0] else t;
      if dest in t1 then t1[dest := NewMetric(t1[dest], Sample(status, numtx))] else t1
  }

  /** Unset, or between one and fifteen transmissions. */
  predicate InRange(m: nat) { m == 0 || ETX_DIVISOR <= m <= ETX_LIMIT * ETX_DIVISOR }

  /** The counts, in the 8 bits that are kept of them, that a metric can take: one to fifteen, and 160 more,
      where the average wraps once round its 8 bits. */
  predicate Fits(n: U8) { 1 <= n <= ETX_LIMIT || WRAP < n <= WRAP + ETX_LIMIT }

  const WRAP: nat := 160

  predicate Counted(status: Status, numtx: nat) {
    status == TxOk || status == TxCollision ==> Fits(numtx % 0x100)
  }

  /** What a transmission is charged with, in sixteenths: its count in 8 bits, or fifteen when there was no answer. */
  lemma Charged(numtx: nat)
    ensures Sample(TxOk, numtx) == Sample(TxCollision, numtx) == numtx % 256 * 16 && Sample(TxNoAck, numtx) == 240
  {}

  /** Whose metric a report touches: nobody's for a broadcast or an error of this node's own; a new neighbour comes in by a
      transmission that succeeded, if there is room, and its first metric is the sample; a known one is averaged. */
  lemma ReportExact(t: Table, dest: nat, status: Status, numtx: nat, room: bool)
    ensures var p := Sample(status, numtx);
            Report(t, dest, status, numtx, room)
            == if dest == 0 || status == TxOther then t
               else if dest in t then t[dest := if t[dest] == 0 then p % 256 else Smooth(t[dest], p)]
               else if status == TxOk && room then t[dest := p % 256]
               else t
  {
    hide Smooth, Sample;
  }

  // ------------------------------------------------------------------ one update

  /** No product wraps; the update is a tenth of the way to the sample, rounded down. */
  lemma SmoothIsTenth(r: U8, p: nat)
    requires ETX_DIVISOR <= r <= 240 && ETX_DIVISOR <= p <= 240
    ensures Smooth(r, p) == (9 * r + p) / 10
    ensures r <= p ==> r <= Smooth(r, p) <= p
    ensures p <= r ==> p <= Smooth(r, p) <= r
    ensures Smooth(r, p) == r <==> p - 9 <= r <= p
  {
    SmoothValue(r, p);
    hide Smooth;
    Band(r, p, (9 * r + p) / 10);
  }

  lemma SmoothValue(r: U8, p: nat)
    requires r <= 240 && p <= 240
    ensures Smooth(r, p) == (9 * r + p) / 10
  {
    NoWrap(90 * r, 10 * p);
    Tenth(9 * r + p);
    Small((9 * r + p) / 10);
  }

  lemma Small(x: nat)
    requires x < 0x100
    ensures x % 0x100 == x
  {}

  lemma NoWrap(x: nat, y: nat)
    requires x + y < 0x1_0000
    ensures (x % 0x1_0000 + y % 0x1_0000) % 0x1_0000 == x + y
  {}

  lemma Band(r: nat, p: nat, q: nat)
    requires 10 * q <= 9 * r + p < 10 * q + 10
    ensures r <= p ==> r <= q <= p
    ensures p <= r ==> p <= q <= r
    ensures q == r <==> p - 9 <= r <= p
  {}

  lemma Tenth(x: nat)
    ensures 10 * x / ETX_SCALE == x / 10
  {}

  /** For any count at all the average is exact in 16 bits, and wraps in 8. */
  lemma SmoothWraps(r: U8, n: U8)
    ensures Smooth(r, n * ETX_DIVISOR) == (9 * r + 16 * n) / 10 % 0x100
  {
    NoWrap(90 * r, 160 * n);
    Tenth(9 * r + 16 * n);
  }

  /** 160 transmissions more make no difference, to a first sample or to an average that wraps anyway. */
  lemma WrapIsOnce(r: U8, n: U8)
    requires n + WRAP < 0x100
    ensures NewMetric(r, (n + WRAP) * ETX_DIVISOR) == NewMetric(r, n * ETX_DIVISOR)
  {
    hide Smooth;
    SmoothWraps(r, n);
    SmoothWraps(r, n + WRAP);
    OnceRound(9 * r + 16 * n);
    OnceMore(n);
  }

  lemma OnceRound(x: nat)
    ensures (x + 2560) / 10 % 0x100 == x / 10 % 0x100
  {}

  lemma OnceMore(n: nat)
    ensures (n + WRAP) * ETX_DIVISOR % 0x100 == n * ETX_DIVISOR % 0x100
  {}

  /** Exactly these counts keep every metric in range. */
  lemma FitsExact(n: U8)
    ensures (forall r: U8 | InRange(r) :: InRange(NewMetric(r, n * ETX_DIVISOR))) <==> Fits(n)
  {
    if Fits(n) {
      forall r: U8 | InRange(r) ensures InRange(NewMetric(r, n * ETX_DIVISOR)) { StaysInRange(r, n); }
    } else {
      var r := Leaves(n);
    }
  }

  lemma StaysInRange(r: U8, n: U8)
    requires InRange(r) && Fits(n)
    ensures var p := (if n <= ETX_LIMIT then n else n - WRAP) * ETX_DIVISOR;
            var q := NewMetric(r, n * ETX_DIVISOR);
            InRange(q) && q != 0 && q == NewMetric(r, p) && (r != 0 ==> (if r <= p then r else p) <= q <= (if r <= p then p else r))
  {
    hide Smooth;
    var m: U8 := if n <= ETX_LIMIT then n else n - WRAP;
    if n > ETX_LIMIT { WrapIsOnce(r, m); }
    if r != 0 { SmoothIsTenth(r, m * ETX_DIVISOR); }
  }

  /** For any other count, a metric in range that it takes out of the range. */
  lemma Leaves(n: U8) returns (r: U8)
    requires !Fits(n)
    ensures InRange(r) && !InRange(NewMetric(r, n * ETX_DIVISOR))
  {
    hide NewMetric;
    r := Reaches(n, if n == 0 then 15 else if n <= 142 then 241 else if n <= WRAP then 0x100 + 15 else 0x100 + 241);
  }

  /** Every average between that of the ends of the range is met inside it. */
  lemma Reaches(n: U8, v: nat) returns (r: U8)
    requires 136 <= 10 * v - 16 * n <= 2160
    ensures ETX_DIVISOR <= r <= 240 && NewMetric(r, n * ETX_DIVISOR) == v % 0x100
  {
    r := Ninth(10 * v - 16 * n);
    SmoothWraps(r, n);
    hide Smooth;
    Quotient(9 * r + 16 * n, v);
  }

  lemma Ninth(x: int) returns (r: int)
    ensures x <= 9 * r < x + 9
  {
    r := (x + 8) / 9;
  }

  lemma Quotient(x: nat, v: nat)
    requires 10 * v <= x < 10 * v + 10
    ensures x / 10 == v
  {}

  /** An update of a set metric lies between the old value and the sample, the wrap taken off, and stays in
      range. */
  lemma ReportInRange(t: Table, dest: nat, status: Status, numtx: nat, room: bool)
    requires Counted(status, numtx) && forall a <- t :: InRange(t[a])
    ensures var r := Report(t, dest, status, numtx, room);
            && (forall a <- r :: InRange(r[a]))
            && (forall a <- t :: a != dest ==> a in r && r[a] == t[a])
            && (dest in t && t[dest] != 0 && dest != NULL_ADDR && status != TxOther ==>
                  var p := Sample(status, numtx) % (WRAP * ETX_DIVISOR);
                  (if t[dest] <= p then t[dest] else p) <= r[dest] <= (if t[dest] <= p then p else t[dest]))
  {
    if status != TxOther {
      var n: U8 := if status == TxNoAck then ETX_LIMIT else numtx % 0x100;
      assert Sample(status, numtx) == n * ETX_DIVISOR && Fits(n);
      Between(n);
      StaysInRange(if dest in t then t[dest] else 0, n);
    }
    hide NewMetric, Sample, Fits;
  }

  lemma Between(n: U8)
    requires Fits(n)
    ensures n * ETX_DIVISOR % (WRAP * ETX_DIVISOR) == (if n <= ETX_LIMIT then n else n - WRAP) * ETX_DIVISOR
  {}

  datatype Event = Sent(dest: nat, status: Status, numtx: nat, room: bool)

  function Run(t: Table, events: seq<Event>): Table
    decreases |events|
  {
    if events == [] then t
    else Run(Report(t, events[0].dest, events[0].status, events[0].numtx, events[0].room), events[1..])
  }

  /** Over any run of reports of such counts, every metric is unset or in [16, 240]. */
  lemma {:induction false} RunInRange(t: Table, events: seq<Event>)
    requires (forall a <- t :: InRange(t[a])) && forall e <- events :: Counted(e.status, e.numtx)
    ensures forall a <- Run(t, events) :: InRange(Run(t, events)[a])
    decreases |events|
  {
    if events != [] {
      var e := events[0];
      assert e in events;
      ReportInRange(t, e.dest, e.status, e.numtx, e.room);
      RunInRange(Report(t, e.dest, e.status, e.numtx, e.room), events[1..]);
    }
  }

  // --------------------------------------------------------------- the subscriber

  /** The value the subscriber is called with, if it is: a metric not set counts as fifteen transmissions. */
  function Notice(t: Table, dest: nat, status: Status, numtx: nat, room: bool): Option<U8> {
    var r := Report(t, dest, status, numtx, room);
    var recorded := if dest in t && t[dest] != 0 then t[dest] else ETX_LIMIT * ETX_DIVISOR;
    if dest != NULL_ADDR && status != TxOther && dest in r && r[dest] != recorded then Some(r[dest]) else None
  }

  /** What the subscriber was told last about each neighbour. */
  function Told(t: Table, told: map<nat, U8>, events: seq<Event>): map<nat, U8>
    decreases |events|
  {
    if events == [] then told
    else
      var e := events[0];
      var note := Notice(t, e.dest, e.status, e.numtx, e.room);
      Told(Report(t, e.dest, e.status, e.numtx, e.room), if note.Some? then told[e.dest := note.value] else told, events[1..])
  }

  /** The subscriber knows a metric, but for one of fifteen transmissions that followed none. */
  predicate Known(t: Table, told: map<nat, U8>, a: nat) {
    if a !in t then a !in told
    else
      || (a in told && told[a] == t[a])
      || (t[a] == ETX_LIMIT * ETX_DIVISOR && (a in told ==> told[a] == 0))
      || (t[a] == 0 && a !in told)
  }

  /** Fifteen transmissions and then thirty-three: a metric of less than one transmission, and the subscriber is
      told of it alone. */
  lemma CountWraps(dest: nat)
    requires dest != NULL_ADDR
    ensures var events := [Sent(dest, TxOk, 15, true), Sent(dest, TxOk, 33, true)];
            Run(map[], events) == Told(map[], map[], events) == map[dest := 12]
  {
    SmoothWraps(240, 33);
    hide Smooth;
    var rest := [Sent(dest, TxOk, 33, true)];
    var t := Report(map[], dest, TxOk, 15, true);
    assert t == map[dest := 240];
    assert Report(t, dest, TxOk, 33, true) == map[dest := 12];
    assert rest[1..] == [];
    assert Run(t, rest) == map[dest := 12];
    assert Told(t, map[], rest) == map[dest := 12];
    assert [Sent(dest, TxOk, 15, true), Sent(dest, TxOk, 33, true)][1..] == rest;
  }

  lemma NoticeKnown(t: Table, told: map<nat, U8>, e: Event, a: nat)
    requires Known(t, told, a)
    ensures var note := Notice(t, e.dest, e.status, e.numtx, e.room);
            Known(Report(t, e.dest, e.status, e.numtx, e.room), if note.Some? then told[e.dest := note.value] else told, a)
  {
    hide NewMetric, Sample;
  }

  /** Over every run, in range or not, from an empty table the subscriber's knowledge is that. */
  lemma SubscriberKnows(events: seq<Event>, a: nat)
    ensures Known(Run(map[], events), Told(map[], map[], events), a)
  {
    RunKnown(map[], map[], events, a);
  }

  lemma {:induction false} RunKnown(t: Table, told: map<nat, U8>, events: seq<Event>, a: nat)
    requires Known(t, told, a)
    ensures Known(Run(t, events), Told(t, told, events), a)
    decreases |events|
  {
    hide Known, Report, Notice;
    if events != [] {
      var e := events[0];
      NoticeKnown(t, told, e, a);
      var note := Notice(t, e.dest, e.status, e.numtx, e.room);
      RunKnown(Report(t, e.dest, e.status, e.numtx, e.room), if note.Some? then told[e.dest := note.value] else told, events[1..], a);
    }
  }

  // ----------------------------------------------------------------- convergence

  /** The metric after `n` reports of the same sample. */
  function Repeat(r: U8, p: nat, n: nat): U8
    decreases n
  {
    if n == 0 then r else Repeat(NewMetric(r, p), p, n - 1)
  }

  function Distance(r: nat, p: nat): nat { if r < p then p - r else r - p }

  /** Where a constant sample leads: to it from above, to 9 below it from farther below, nowhere from the band
      in between. */
  function Limit(r: nat, p: nat): int { if p <= r then p else if p - 9 <= r then r else p - 9 }

  /** Under a constant sample the metric reaches its limit within as many reports as it was away, and keeps it. */
  lemma {:induction false} Converges(r: U8, p: nat, n: nat)
    requires ETX_DIVISOR <= r <= 240 && ETX_DIVISOR <= p <= 240 && Distance(r, p) <= n
    ensures Repeat(r, p, n) == Limit(r, p)
    decreases n
  {
    if n > 0 {
      SmoothIsTenth(r, p);
      var next := NewMetric(r, p);
      if next == r {
        Stays(r, p, n);
      } else {
        assert Limit(next, p) == Limit(r, p);
        Converges(next, p, n - 1);
      }
    }
  }

  lemma {:induction false} Stays(r: U8, p: nat, n: nat)
    requires ETX_DIVISOR <= r <= 240 && p <= 240 && p - 9 <= r <= p
    ensures Repeat(r, p, n) == r
    decreases n
  {
    if n > 0 {
      SmoothIsTenth(r, p);
      Stays(r, p, n - 1);
    }
  }

  /** A link that got worse is never seen as such in full: whatever the sample, a metric more than 9 below it
      stops 9 short, however long the reports go on. */
  lemma BandIsTight(r: U8, p: nat, n: nat)
    requires ETX_DIVISOR <= r <= 240 && ETX_DIVISOR <= p <= 240 && Distance(r, p) <= n
    ensures Repeat(r, p, n) == p <==> p <= r
    ensures r < p - 9 ==> Repeat(r, p, n) == p - 9
  {
    Converges(r, p, n);
  }

  // ---------------------------------------------------------------- the component

  /** neighbor_info.c with the attribute table as its abstract value. */
  class NeighborInfo {
    var metrics: Table
    const capacity: nat

    constructor (capacity: nat)
      ensures this.capacity == capacity && metrics == map[]
    {
      this.capacity, metrics := capacity, map[];
    }

    /** `update_metric`; `note`: the call of the subscriber. */
    method UpdateMetric(dest: nat, packetMetric: nat) returns (note: Option<U8>)
      modifies this
      ensures metrics == if dest in old(metrics)
                         then old(metrics)[dest := NewMetric(old(metrics)[dest], packetMetric * ETX_DIVISOR)] else old(metrics)
      ensures var recorded := if dest in old(metrics) && old(metrics)[dest] != 0 then old(metrics)[dest] else ETX_LIMIT * ETX_DIVISOR;
              note == if dest in metrics && metrics[dest] != recorded then Some(metrics[dest]) else None
    {
      var sample := packetMetric * ETX_DIVISOR;
      var recorded: U8 := ETX_LIMIT * ETX_DIVISOR;
      var metric: U8;
      if dest !in metrics || metrics[dest] == 0 {
        metric := sample % 0x100;
      } else {
        recorded := metrics[dest];
        metric := (recorded * ETX_ALPHA % 0x1_0000 + sample * (ETX_SCALE - ETX_ALPHA) % 0x1_0000) % 0x1_0000 / ETX_SCALE % 0x100;
      }
      note := None;
      if dest in metrics {
        metrics := metrics[dest := metric];
        if metric != recorded { note := Some(metric); }
      }
    }

    /** `neighbor_info_packet_sent`. */
    method PacketSent(dest: nat, status: Status, numtx: nat) returns (note: Option<U8>)
      modifies this
      ensures metrics == Report(old(metrics), dest, status, numtx, |old(metrics)| < capacity)
      ensures note == Notice(old(metrics), dest, status, numtx, |old(metrics)| < capacity)
    {
      if dest == NULL_ADDR { return None; }
      var packetMetric;
      match status {
        case TxOk =>
          packetMetric := numtx % 0x100;
          if dest !in metrics && |metrics| < capacity { metrics := metrics[dest := 0]; }
        case TxCollision => packetMetric := numtx % 0x100;
        case TxNoAck => packetMetric := ETX_LIMIT;
        case TxOther => return None;
      }
      note := UpdateMetric(dest, packetMetric);
    }
  }
}
