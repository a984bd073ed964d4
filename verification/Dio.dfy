// DODAG Information Objects of rpl_icmp6.c: the octets dio_output writes and the
// option loop of dio_input that reads them (sections 6.3.1 and 6.7 of RFC 6550).
module Dio {
  import opened Bytes

  const OPTION_PAD1: Byte := 0
  const OPTION_DAG_METRIC_CONTAINER: Byte := 2
  const OPTION_ROUTE_INFO: Byte := 3
  const OPTION_DAG_CONF: Byte := 4
  const OPTION_PREFIX_INFO: Byte := 8

  const MC_NONE: Byte := 0
  const MC_ENERGY: Byte := 2
  const MC_ETX: Byte := 7
  const FLAG_P: Byte := 8

  const BASE_LEN: nat := 24

  /** The `union metric_object`. */
  datatype Object = Etx(etx: U16) | Energy(energyFlags: Byte, estimate: Byte)

  /** `rpl_metric_container_t`. */
  datatype Container = Container(kind: Byte, flags: Byte, aggr: Byte, prec: Byte, length: Byte, obj: Object)

  /** `rpl_prefix_t`. */
  datatype Prefix = Prefix(length: Byte, flags: Byte, lifetime: U32, prefix: seq<Byte>)

  /** The fields of `rpl_dag_t` a DIO carries. */
  datatype Dag = Dag(instance: Byte, version: Byte, rank: U16, grounded: bool, mop: Byte, dtsn: Byte, dagId: seq<Byte>,
                     mc: Container, conf: Conf, prefix: Prefix)

  /** The DODAG configuration. */
  datatype Conf = Conf(intDoubl: Byte, intMin: Byte, redundancy: Byte, maxRankInc: U16, minHopRankInc: U16, ocp: U16,
                       defaultLifetime: Byte, lifetimeUnit: U16)

  /** `rpl_dio_t`, what the receiver passes on. */
  datatype Message = Message(instance: Byte, version: Byte, rank: U16, grounded: Byte, mop: Byte, preference: Byte,
                             dtsn: Byte, dagId: seq<Byte>, mc: Container, conf: Conf, route: Prefix, prefix: Prefix)

  predicate Sane(d: Dag) {
    && |d.dagId| == 16 && |d.prefix.prefix| == 16
    && (d.mc.kind == MC_ETX ==> d.mc.obj.Etx?) && (d.mc.kind == MC_ENERGY ==> d.mc.obj.Energy?)
  }

  // ---------------------------------------------------------------------- writing

  function Be32(n: U32): (r: seq<Byte>)
    ensures |r| == 4
  {
    Be16(n / 0x1_0000) + Be16(n % 0x1_0000)
  }

  /** `update_metric_container` of the ETX objective function, for the path metric `etx`. */
  function Updated(mc: Container, etx: U16): Container { Container(MC_ETX, FLAG_P, 0, 0, 2, Etx(etx)) }

  /** The octet that should hold grounded flag, mode and preference; the flag is overwritten. */
  function ModeOctet(mop: Byte): Byte { mop << 3 }

  function Next(dtsn: Byte): Byte { dtsn + 1 }

  function Base(d: Dag): (r: seq<Byte>)
    requires |d.dagId| == 16
    ensures |r| == BASE_LEN
  {
    [d.instance, d.version] + Be16(d.rank) + [ModeOctet(d.mop), Next(d.dtsn), 0, 0] + d.dagId
  }

  function HighFlags(mc: Container): Byte { mc.flags >> 1 }

  function ContainerFlags(mc: Container): Byte { ((mc.flags & 1) << 7) | (mc.aggr << 4) | mc.prec }

  function ContainerOption(mc: Container): (r: seq<Byte>)
    ensures |r| == 8
  {
    [OPTION_DAG_METRIC_CONTAINER, 6, mc.kind, HighFlags(mc), ContainerFlags(mc), 2]
    + match mc.obj { case Etx(e) => Be16(e) case Energy(f, e) => [f, e] }
  }

  function ConfOption(c: Conf): (r: seq<Byte>)
    ensures |r| == 16
  {
    [OPTION_DAG_CONF, 14, 0, c.intDoubl, c.intMin, c.redundancy] + Be16(c.maxRankInc) + Be16(c.minHopRankInc)
    + Be16(c.ocp) + [0, c.defaultLifetime] + Be16(c.lifetimeUnit)
  }

  function PrefixOption(p: Prefix): (r: seq<Byte>)
    requires |p.prefix| == 16
    ensures |r| == 32
  {
    [OPTION_PREFIX_INFO, 30, p.length, p.flags] + Be32(p.lifetime) + Be32(p.lifetime) + Zeros(4) + p.prefix
  }

  /** `dio_output`: nothing is sent for a metric it does not know. The metric container is the one
      `update_metric_container` left. */
  function Encode(d: Dag): (r: Option<seq<Byte>>)
    requires Sane(d)
    ensures r.Some? ==> BASE_LEN <= |r.value| <= 80
  {
    if d.mc.kind !in {MC_NONE, MC_ETX, MC_ENERGY} then None
    else Some(Base(d) + (if d.mc.kind == MC_NONE then [] else ContainerOption(d.mc)) + ConfOption(d.conf)
              + if d.prefix.length == 0 then [] else PrefixOption(d.prefix))
  }

  // ---------------------------------------------------------------------- reading

  function Get32(buf: seq<Byte>, i: nat): U32
    requires i + 4 <= |buf|
  {
    Get16(buf, i) * 0x1_0000 + Get16(buf, i + 2)
  }

  function NoPrefix(): Prefix { Prefix(0, 0, 0, Zeros(16)) }

  function NoContainer(): Container { Container(MC_NONE, 0, 0, 0, 0, Etx(0)) }

  function GroundedOf(b: Byte): Byte { b & 0x80 }

  function MopOf(b: Byte): Byte { (b & 0x3c) >> 3 }

  function PreferenceOf(b: Byte): Byte { b & 0x07 }

  function FlagsOf(a: Byte, b: Byte): Byte { (a << 1) | (b >> 7) }

  function AggrOf(b: Byte): Byte { (b >> 4) & 0x3 }

  function PrecOf(b: Byte): Byte { b & 0xf }

  /** The base object; every option absent. */
  function ReadBase(buf: seq<Byte>): Message
    requires BASE_LEN <= |buf|
  {
    Message(buf[0], buf[1], Get16(buf, 2), GroundedOf(buf[4]), MopOf(buf[4]), PreferenceOf(buf[4]), buf[5], buf[8..24],
            NoContainer(), Conf(8, 12, 10, 0, 0, 0, 0, 0), NoPrefix(), NoPrefix())
  }

  /** The two octets behind an option may be read although they are not part of the packet. */
  predicate Readable(buf: seq<Byte>, size: nat) { BASE_LEN <= |buf| && size + 2 <= |buf| }

  function OptionLen(buf: seq<Byte>, i: nat): (r: nat)
    requires i + 1 < |buf|
    ensures r >= 1
  {
    if buf[i] == OPTION_PAD1 then 1 else 2 + Val(buf[i + 1])
  }

  function ReadContainer(m: Message, buf: seq<Byte>, i: nat, len: nat): Option<Message>
    requires i + len + 2 <= |buf|
  {
    if len < 6 then None
    else
      var mc := Container(buf[i + 2], FlagsOf(buf[i + 3], buf[i + 4]), AggrOf(buf[i + 4]), PrecOf(buf[i + 4]), buf[i + 5], m.mc.obj);
      if buf[i + 2] == MC_ETX then Some(m.(mc := mc.(obj := Etx(Get16(buf, i + 6)))))
      else if buf[i + 2] == MC_ENERGY then Some(m.(mc := mc.(obj := Energy(buf[i + 6], buf[i + 7]))))
      else None
  }

  function ReadRoute(m: Message, buf: seq<Byte>, i: nat, len: nat): Option<Message>
    requires i + len <= |buf| && |m.route.prefix| == 16
  {
    if len < 9 then None
    else
      var octets := (Val(buf[i + 2]) + 7) / 8;
      if octets + 8 <= len && Val(buf[i + 2]) <= 128 then
        Some(m.(route := Prefix(buf[i + 2], buf[i + 3], Get32(buf, i + 4), Splice(m.route.prefix, 0, buf[i + 8..i + 8 + octets]))))
      else None
  }

  function ReadConf(m: Message, buf: seq<Byte>, i: nat, len: nat): Option<Message>
    requires i + len <= |buf|
  {
    if len != 16 then None
    else Some(m.(conf := Conf(buf[i + 3], buf[i + 4], buf[i + 5], Get16(buf, i + 6), Get16(buf, i + 8), Get16(buf, i + 10),
                              buf[i + 13], Get16(buf, i + 14))))
  }

  function ReadPrefix(m: Message, buf: seq<Byte>, i: nat, len: nat): Option<Message>
    requires i + len <= |buf|
  {
    if len != 32 then None
    else Some(m.(prefix := Prefix(buf[i + 2], buf[i + 3], Get32(buf, i + 8), buf[i + 16..i + 32])))
  }

  /** The `switch`; `None` is a `return`. */
  function ReadOption(m: Message, buf: seq<Byte>, i: nat, len: nat): (r: Option<Message>)
    requires i + 1 <= |buf| && i + len + 2 <= |buf| && |m.route.prefix| == 16
    ensures r.Some? ==> |r.value.route.prefix| == 16
  {
    if buf[i] == OPTION_DAG_METRIC_CONTAINER then ReadContainer(m, buf, i, len)
    else if buf[i] == OPTION_ROUTE_INFO then ReadRoute(m, buf, i, len)
    else if buf[i] == OPTION_DAG_CONF then ReadConf(m, buf, i, len)
    else if buf[i] == OPTION_PREFIX_INFO then ReadPrefix(m, buf, i, len)
    else Some(m)
  }

  /** The option loop, which ends on every input: each option moves it on. */
  function ReadOptions(m: Message, buf: seq<Byte>, i: nat, size: nat): Option<Message>
    requires Readable(buf, size) && |m.route.prefix| == 16
    decreases size - i
  {
    if i >= size then Some(m)
    else
      var len := OptionLen(buf, i);
      if len + i > size then None
      else
        match ReadOption(m, buf, i, len)
        case None => None
        case Some(next) => ReadOptions(next, buf, i + len, size)
  }

  /** `dio_input` for a payload of `size` octets in `buf`: `None` drops the message. */
  function Decode(buf: seq<Byte>, size: nat): Option<Message>
    requires Readable(buf, size % 0x100)
  {
    ReadOptions(ReadBase(buf), buf, BASE_LEN, size % 0x100)
  }

  // -------------------------------------------------------------------- round trip

  /** What the DIO is meant to say. The grounded flag is overwritten and the preference never written. */
  function Meant(d: Dag): Message
    requires Sane(d)
  {
    Message(d.instance, d.version, d.rank, 0, d.mop, 0, Next(d.dtsn), d.dagId,
            if d.mc.kind == MC_NONE then NoContainer() else d.mc.(length := 2), d.conf, NoPrefix(),
            if d.prefix.length == 0 then NoPrefix() else d.prefix)
  }

  /** The fields keep within their bits. */
  predicate Representable(d: Dag) {
    d.mop <= 7 && (d.mc.kind != MC_NONE ==> d.mc.aggr <= 3 && d.mc.prec <= 15)
  }

  lemma Get32At(buf: seq<Byte>, i: nat, n: U32)
    requires At(buf, i, Be32(n))
    ensures Get32(buf, i) == n
  {
    AtConcat(buf, i, Be16(n / 0x1_0000), Be16(n % 0x1_0000));
    Get16At(buf, i, n / 0x1_0000);
    Get16At(buf, i + 2, n % 0x1_0000);
  }

  lemma MopBits(mop: Byte)
    ensures MopOf(ModeOctet(mop)) == mop <==> mop <= 7
    ensures PreferenceOf(ModeOctet(mop)) == 0 && (mop <= 7 ==> GroundedOf(ModeOctet(mop)) == 0)
  {}

  lemma ContainerBits(mc: Container)
    ensures var b := ContainerFlags(mc);
            FlagsOf(HighFlags(mc), b) == mc.flags && AggrOf(b) == mc.aggr && PrecOf(b) == mc.prec
            <==> mc.aggr <= 3 && mc.prec <= 15
  {}

  lemma At3(buf: seq<Byte>, i: nat, a: seq<Byte>, b: seq<Byte>, c: seq<Byte>)
    requires At(buf, i, a + b + c)
    ensures At(buf, i, a) && At(buf, i + |a|, b) && At(buf, i + |a| + |b|, c)
  {
    AtConcat(buf, i, a + b, c);
    AtConcat(buf, i, a, b);
  }

  lemma AtOctets(buf: seq<Byte>, i: nat, s: seq<Byte>)
    requires At(buf, i, s)
    ensures forall k :: i <= k < i + |s| ==> buf[k] == s[k - i]
  {
    assert forall k :: i <= k < i + |s| ==> buf[k] == buf[i..i + |s|][k - i];
  }

  /** The base object comes back, with grounded and preference 0. */
  lemma BaseRead(buf: seq<Byte>, d: Dag)
    requires Sane(d) && At(buf, 0, Base(d)) && BASE_LEN <= |buf|
    ensures var m := ReadBase(buf);
            && m.instance == d.instance && m.version == d.version && m.rank == d.rank && m.dtsn == Next(d.dtsn)
            && m.dagId == d.dagId && m.preference == 0 && (d.mop <= 7 ==> m.grounded == 0)
            && (m.mop == d.mop <==> d.mop <= 7)
            && m.mc == NoContainer() && m.route == NoPrefix() && m.prefix == NoPrefix()
  {
    hide Be16, Get16, Word, ModeOctet, Next, GroundedOf, MopOf, PreferenceOf, Zeros;
    var head, tail := [d.instance, d.version], [ModeOctet(d.mop), Next(d.dtsn), 0, 0];
    assert Base(d) == head + Be16(d.rank) + (tail + d.dagId);
    At3(buf, 0, head, Be16(d.rank), tail + d.dagId);
    AtConcat(buf, 4, tail, d.dagId);
    AtOctets(buf, 0, head);
    AtOctets(buf, 4, tail);
    Get16At(buf, 2, d.rank);
    MopBits(d.mop);
    assert buf[8..24] == d.dagId;
  }

  lemma Literals()
    ensures Val(6) == 6 && Val(14) == 14 && Val(30) == 30
  {}

  /** The metric container comes back exactly when its fields keep within their bits. */
  lemma ContainerRead(m: Message, buf: seq<Byte>, i: nat, mc: Container)
    requires At(buf, i, ContainerOption(mc)) && i + 10 <= |buf| && |m.route.prefix| == 16
    requires (mc.kind == MC_ETX && mc.obj.Etx?) || (mc.kind == MC_ENERGY && mc.obj.Energy?)
    ensures OptionLen(buf, i) == 8
    ensures var r := ReadOption(m, buf, i, 8);
            && r.Some? && r.value == m.(mc := r.value.mc)
            && (r.value.mc == mc.(length := 2) <==> mc.aggr <= 3 && mc.prec <= 15)
  {
    hide Be16, Get16, Word, Val, Get32, Splice, ContainerFlags, HighFlags, FlagsOf, AggrOf, PrecOf;
    Literals();
    var head := [OPTION_DAG_METRIC_CONTAINER, 6, mc.kind, HighFlags(mc), ContainerFlags(mc), 2];
    var obj := match mc.obj { case Etx(e) => Be16(e) case Energy(f, e) => [f, e] };
    AtConcat(buf, i, head, obj);
    AtOctets(buf, i, head);
    assert buf[i] == head[0] && buf[i + 1] == head[1] && buf[i + 2] == head[2] && buf[i + 3] == head[3]
           && buf[i + 4] == head[4] && buf[i + 5] == head[5];
    match mc.obj {
      case Etx(e) => Get16At(buf, i + 6, e);
      case Energy(f, e) => AtOctets(buf, i + 6, obj); assert buf[i + 6] == f && buf[i + 7] == e;
    }
    ContainerBits(mc);
  }

  lemma ConfRead(m: Message, buf: seq<Byte>, i: nat, c: Conf)
    requires At(buf, i, ConfOption(c)) && i + 18 <= |buf| && |m.route.prefix| == 16
    ensures OptionLen(buf, i) == 16 && ReadOption(m, buf, i, 16) == Some(m.(conf := c))
  {
    hide Be16, Get16, Word, Val, Get32, Splice;
    Literals();
    var head := [OPTION_DAG_CONF, 14, 0, c.intDoubl, c.intMin, c.redundancy];
    var mid := [0, c.defaultLifetime];
    var ranks := Be16(c.maxRankInc) + Be16(c.minHopRankInc) + Be16(c.ocp);
    assert ConfOption(c) == head + ranks + (mid + Be16(c.lifetimeUnit));
    At3(buf, i, head, ranks, mid + Be16(c.lifetimeUnit));
    At3(buf, i + 6, Be16(c.maxRankInc), Be16(c.minHopRankInc), Be16(c.ocp));
    AtConcat(buf, i + 12, mid, Be16(c.lifetimeUnit));
    AtOctets(buf, i, head);
    AtOctets(buf, i + 12, mid);
    assert buf[i] == head[0] && buf[i + 1] == head[1] && buf[i + 3] == head[3] && buf[i + 4] == head[4]
      && buf[i + 5] == head[5];
    assert buf[i + 13] == mid[1];
    Get16At(buf, i + 6, c.maxRankInc);
    Get16At(buf, i + 8, c.minHopRankInc);
    Get16At(buf, i + 10, c.ocp);
    Get16At(buf, i + 14, c.lifetimeUnit);
  }

  lemma PrefixRead(m: Message, buf: seq<Byte>, i: nat, p: Prefix)
    requires |p.prefix| == 16 && At(buf, i, PrefixOption(p)) && i + 34 <= |buf| && |m.route.prefix| == 16
    ensures OptionLen(buf, i) == 32 && ReadOption(m, buf, i, 32) == Some(m.(prefix := p))
  {
    hide Be16, Get16, Word, Val, Get32, Splice, Be32;
    Literals();
    var head := [OPTION_PREFIX_INFO, 30, p.length, p.flags];
    var times := Be32(p.lifetime) + Be32(p.lifetime);
    assert PrefixOption(p) == head + times + (Zeros(4) + p.prefix);
    At3(buf, i, head, times, Zeros(4) + p.prefix);
    AtConcat(buf, i + 4, Be32(p.lifetime), Be32(p.lifetime));
    AtConcat(buf, i + 12, Zeros(4), p.prefix);
    AtOctets(buf, i, head);
    assert buf[i] == head[0] && buf[i + 1] == head[1] && buf[i + 2] == head[2] && buf[i + 3] == head[3];
    Get32At(buf, i + 8, p.lifetime);
    assert buf[i + 16..i + 32] == p.prefix;
  }

  /** One option read on the way. */
  lemma NextOption(m: Message, buf: seq<Byte>, i: nat, size: nat, next: Message)
    requires Readable(buf, size) && |m.route.prefix| == 16 && i < size
    requires i + OptionLen(buf, i) <= size && ReadOption(m, buf, i, OptionLen(buf, i)) == Some(next)
    ensures |next.route.prefix| == 16
      && ReadOptions(m, buf, i, size) == ReadOptions(next, buf, i + OptionLen(buf, i), size)
  {
    hide ReadOption, OptionLen;
  }

  lemma TailRead(m: Message, buf: seq<Byte>, i: nat, d: Dag)
    requires Sane(d) && |m.route.prefix| == 16 && m.prefix == NoPrefix()
    requires At(buf, i, ConfOption(d.conf) + if d.prefix.length == 0 then [] else PrefixOption(d.prefix))
    requires var size := i + 16 + if d.prefix.length == 0 then 0 else 32;
             Readable(buf, size)
    ensures var size := i + 16 + if d.prefix.length == 0 then 0 else 32;
            ReadOptions(m, buf, i, size)
            == Some(m.(conf := d.conf, prefix := if d.prefix.length == 0 then NoPrefix() else d.prefix))
  {
    hide ReadOption, OptionLen, ReadOptions, ConfOption, PrefixOption, NoPrefix;
    var last: seq<Byte> := if d.prefix.length == 0 then [] else PrefixOption(d.prefix);
    var size := i + 16 + |last|;
    AtConcat(buf, i, ConfOption(d.conf), last);
    ConfRead(m, buf, i, d.conf);
    var m1 := m.(conf := d.conf);
    NextOption(m, buf, i, size, m1);
    if d.prefix.length != 0 {
      PrefixRead(m1, buf, i + 16, d.prefix);
      NextOption(m1, buf, i + 16, size, m1.(prefix := d.prefix));
      OptionsEnd(m1.(prefix := d.prefix), buf, size);
    } else {
      OptionsEnd(m1, buf, size);
    }
  }

  lemma OptionsEnd(m: Message, buf: seq<Byte>, size: nat)
    requires Readable(buf, size) && |m.route.prefix| == 16
    ensures ReadOptions(m, buf, size, size) == Some(m)
  {}

  /** All options: the configuration and any prefix come back, the container if its fields fit. */
  lemma OptionsRead(m: Message, buf: seq<Byte>, d: Dag, size: nat)
    requires Sane(d) && Encode(d).Some? && At(buf, 0, Encode(d).value) && size == |Encode(d).value|
      && Readable(buf, size)
    requires |m.route.prefix| == 16 && m.mc == NoContainer() && m.prefix == NoPrefix()
    ensures var r := ReadOptions(m, buf, BASE_LEN, size);
            && r.Some? && r.value == Meant(d).(instance := m.instance, version := m.version, rank := m.rank,
                 grounded := m.grounded, mop := m.mop, preference := m.preference, dtsn := m.dtsn, dagId := m.dagId,
                 route := m.route, mc := r.value.mc)
            && (r.value.mc == Meant(d).mc <==> (d.mc.kind != MC_NONE ==> d.mc.aggr <= 3 && d.mc.prec <= 15))
  {
    hide ReadOption, OptionLen, ReadOptions, ConfOption, PrefixOption, ContainerOption, Base, NoPrefix, NoContainer;
    var first: seq<Byte> := if d.mc.kind == MC_NONE then [] else ContainerOption(d.mc);
    var tail := ConfOption(d.conf) + if d.prefix.length == 0 then [] else PrefixOption(d.prefix);
    assert Encode(d).value == Base(d) + first + tail;
    At3(buf, 0, Base(d), first, tail);
    if d.mc.kind == MC_NONE {
      TailRead(m, buf, BASE_LEN, d);
    } else {
      ContainerFirst(m, buf, d, size);
    }
  }

  lemma ContainerFirst(m: Message, buf: seq<Byte>, d: Dag, size: nat)
    requires Sane(d) && d.mc.kind != MC_NONE && (d.mc.kind == MC_ETX || d.mc.kind == MC_ENERGY) && Readable(buf, size)
    requires At(buf, BASE_LEN, ContainerOption(d.mc))
    requires At(buf, BASE_LEN + 8, ConfOption(d.conf) + if d.prefix.length == 0 then [] else PrefixOption(d.prefix))
    requires size == BASE_LEN + 8 + 16 + if d.prefix.length == 0 then 0 else 32
    requires |m.route.prefix| == 16 && m.prefix == NoPrefix()
    ensures var r := ReadOptions(m, buf, BASE_LEN, size);
            && r.Some?
            && r.value == m.(conf := d.conf, prefix := if d.prefix.length == 0 then NoPrefix() else d.prefix, mc := r.value.mc)
            && (r.value.mc == d.mc.(length := 2) <==> d.mc.aggr <= 3 && d.mc.prec <= 15)
  {
    hide ReadOption, OptionLen, ReadOptions, ConfOption, PrefixOption, ContainerOption, NoPrefix;
    ContainerRead(m, buf, BASE_LEN, d.mc);
    var m1 := ReadOption(m, buf, BASE_LEN, 8).value;
    NextOption(m, buf, BASE_LEN, size, m1);
    TailRead(m1, buf, BASE_LEN + 8, d);
  }

  lemma Append6(was: seq<Byte>, a: seq<Byte>, b: seq<Byte>, c: seq<Byte>, d: seq<Byte>, e: seq<Byte>, f: seq<Byte>)
    ensures was + (a + b + c + d + e + f) == was + a + b + c + d + e + f
  {
    Regroup(was, a, b);
    Regroup(was, a + b, c);
    Regroup(was, a + b + c, d);
    Regroup(was, a + b + c + d, e);
    Regroup(was, a + b + c + d + e, f);
  }

  lemma EncodeBase(d: Dag, buf: seq<Byte>)
    requires Sane(d) && Encode(d).Some? && At(buf, 0, Encode(d).value)
    ensures At(buf, 0, Base(d))
  {
    hide Base, ConfOption, PrefixOption, ContainerOption;
    var rest := (if d.mc.kind == MC_NONE then [] else ContainerOption(d.mc))
                + (ConfOption(d.conf) + if d.prefix.length == 0 then [] else PrefixOption(d.prefix));
    assert Encode(d).value == Base(d) + rest;
    AtConcat(buf, 0, Base(d), rest);
  }

  /** For every state of a DODAG, whatever lies behind the message in the buffer: the receiver reads what
      was meant exactly when the mode of operation has three bits and the container's fields keep within
      theirs. */
  lemma DioRoundTrip(d: Dag, buf: seq<Byte>)
    requires Sane(d) && Encode(d).Some? && At(buf, 0, Encode(d).value) && Readable(buf, |Encode(d).value|)
    ensures Decode(buf, |Encode(d).value|) == Some(Meant(d)) <==> Representable(d)
  {
    hide ReadOptions, ReadBase, NoPrefix, NoContainer, Encode, At, Base, Next;
    EncodeBase(d, buf);
    BaseRead(buf, d);
    BlankPrefix();
    OptionsRead(ReadBase(buf), buf, d, |Encode(d).value|);
  }

  lemma BlankPrefix()
    ensures |NoPrefix().prefix| == 16
  {}

  /** As the ETX objective function fills the container, only the mode of operation can be lost. */
  lemma EtxDioRoundTrip(d: Dag, etx: U16, buf: seq<Byte>)
    requires Sane(d) && (d.mc.kind != MC_NONE ==> d.mc == Updated(d.mc, etx)) && d.mop <= 7
    requires Encode(d).Some? && At(buf, 0, Encode(d).value) && Readable(buf, |Encode(d).value|)
    ensures Decode(buf, |Encode(d).value|) == Some(Meant(d))
    ensures d.mc.kind != MC_NONE ==> Decode(buf, |Encode(d).value|).value.mc.obj == Etx(etx)
  {
    DioRoundTrip(d, buf);
    hide Decode, Encode;
  }

  // ------------------------------------------------------------------- the message buffer

  /** `UIP_ICMP_PAYLOAD` and the position the writer is at. */
  class Messenger {
    const buffer: array<Byte>
    var pos: nat

    constructor (buffer: array<Byte>)
      ensures this.buffer == buffer && pos == 0
    {
      this.buffer, pos := buffer, 0;
    }

    /** What was written so far. */
    ghost function Written(): seq<Byte>
      requires pos <= buffer.Length
      reads this, buffer
    {
      buffer[..pos]
    }

    /** `memcpy(buffer + pos, bytes); pos += |bytes|`, and with one or two octets `buffer[pos++]` and `set16`. */
    method Emit(bytes: seq<Byte>)
      requires pos + |bytes| <= buffer.Length
      modifies `pos, buffer
      ensures pos == old(pos) + |bytes| && Written() == old(Written()) + bytes
    {
      forall i | 0 <= i < |bytes| { buffer[pos + i] := bytes[i]; }
      pos := pos + |bytes|;
    }

    /** `set32`. */
    method Set32(value: U32)
      requires pos + 4 <= buffer.Length
      modifies `pos, buffer
      ensures pos == old(pos) + 4 && Written() == old(Written()) + Be32(value)
    {
      hide Be16;
      Emit(Be16(value / 0x1_0000));
      Emit(Be16(value % 0x1_0000));
    }

    /** `buffer[pos] = 0`, the grounded flag, and the mode of operation over both. */
    method EmitMode(d: Dag)
      requires pos < buffer.Length
      modifies `pos, buffer
      ensures pos == old(pos) + 1 && Written() == old(Written()) + [ModeOctet(d.mop)]
    {
      hide ModeOctet;
      buffer[pos] := 0;
      if d.grounded { buffer[pos] := buffer[pos] | 0x80; }
      Emit([ModeOctet(d.mop)]);
    }

    method EmitBase(d: Dag)
      requires pos + BASE_LEN <= buffer.Length && |d.dagId| == 16
      modifies `pos, buffer
      ensures pos == old(pos) + BASE_LEN && Written() == old(Written()) + Base(d)
    {
      hide Be16, ModeOctet, Next;
      Emit([d.instance, d.version]);
      Emit(Be16(d.rank));
      EmitMode(d);
      Emit([Next(d.dtsn), 0, 0]);
      Emit(d.dagId);
    }

    method EmitContainer(mc: Container) returns (known: bool)
      requires pos + 8 <= buffer.Length && (mc.kind == MC_ETX ==> mc.obj.Etx?) && (mc.kind == MC_ENERGY ==> mc.obj.Energy?)
      modifies `pos, buffer
      ensures known == (mc.kind in {MC_ETX, MC_ENERGY}) && pos <= buffer.Length
      ensures known ==> pos == old(pos) + 8 && Written() == old(Written()) + ContainerOption(mc)
    {
      hide Be16, ContainerFlags, HighFlags;
      Emit([OPTION_DAG_METRIC_CONTAINER, 6, mc.kind, HighFlags(mc)]);
      Emit([ContainerFlags(mc)]);
      if mc.kind == MC_ETX {
        Emit([2]);
        Emit(Be16(mc.obj.etx));
      } else if mc.kind == MC_ENERGY {
        Emit([2]);
        Emit([mc.obj.energyFlags, mc.obj.estimate]);
      } else {
        return false;
      }
      known := true;
    }

    method EmitConf(c: Conf)
      requires pos + 16 <= buffer.Length
      modifies `pos, buffer
      ensures pos == old(pos) + 16 && Written() == old(Written()) + ConfOption(c)
    {
      hide Be16, Written;
      ghost var was := Written();
      ghost var head := [OPTION_DAG_CONF, 14, 0, c.intDoubl, c.intMin, c.redundancy];
      Emit([OPTION_DAG_CONF, 14, 0, c.intDoubl, c.intMin, c.redundancy]);
      Emit(Be16(c.maxRankInc));
      Emit(Be16(c.minHopRankInc));
      Emit(Be16(c.ocp));
      Emit([0, c.defaultLifetime]);
      Emit(Be16(c.lifetimeUnit));
      Append6(was, head, Be16(c.maxRankInc), Be16(c.minHopRankInc), Be16(c.ocp), [0, c.defaultLifetime], Be16(c.lifetimeUnit));
    }

    method EmitPrefix(p: Prefix)
      requires pos + 32 <= buffer.Length && |p.prefix| == 16
      modifies `pos, buffer
      ensures pos == old(pos) + 32 && Written() == old(Written()) + PrefixOption(p)
    {
      hide Be32;
      Emit([OPTION_PREFIX_INFO, 30, p.length, p.flags]);
      Set32(p.lifetime);
      Set32(p.lifetime);
      Emit(Zeros(4));
      Emit(p.prefix);
    }

    /** `dio_output` once the metric container is up to date; `dag` has the advanced sequence number. */
    method Output(d: Dag) returns (sent: bool, dag: Dag)
      requires Sane(d) && 80 <= buffer.Length
      modifies `pos, buffer
      ensures sent == Encode(d).Some? && dag == d.(dtsn := Next(d.dtsn))
      ensures sent ==> pos == |Encode(d).value| && At(buffer[..], 0, Encode(d).value)
    {
      hide Base, ContainerOption, ConfOption, PrefixOption, Next;
      pos := 0;
      dag := d.(dtsn := Next(d.dtsn));
      EmitBase(d);
      if d.mc.kind != MC_NONE {
        sent := EmitContainer(d.mc);
        if !sent { return; }
      }
      EmitConf(d.conf);
      if d.prefix.length > 0 { EmitPrefix(d.prefix); }
      sent := true;
      assert buffer[..][0..pos] == Written();
    }

    /** `dio_input`: the option loop over `dio`, for a payload of `size` octets. */
    method Input(size: nat) returns (r: Option<Message>)
      requires Readable(buffer[..], size % 0x100)
      ensures r == Decode(buffer[..], size)
    {
      hide ReadOption, ReadBase, OptionLen, NoPrefix;
      var length := size % 0x100;
      var buf := buffer[..];
      BlankRoute(buf);
      var dio := ReadBase(buf);
      var i := BASE_LEN;
      while i < length
        invariant |dio.route.prefix| == 16 && ReadOptions(dio, buf, i, length) == Decode(buf, size)
        decreases length - i
      {
        var len := OptionLen(buf, i);
        if len + i > length { return None; }
        var next := ReadOption(dio, buf, i, len);
        if next.None? { return None; }
        dio := next.value;
        i := i + len;
      }
      r := Some(dio);
    }
  }

  lemma BlankRoute(buf: seq<Byte>)
    requires BASE_LEN <= |buf|
    ensures |ReadBase(buf).route.prefix| == 16
  {}
}
