// The wire format of section 3 of RFC 6282, octet by octet and apart from the
// code: every form a field can take, what it stands for, the form the compressor
// of sicsLowPan.c picks, and what its decompressor makes of any of them.
module IphcWire {
  import opened Bytes
  import opened Iphc

  // ------------------------------------------------------------------- the forms

  /** Traffic class (ECN and DSCP) and the 20 bits of the flow label; `pad` is padding that readers ignore. */
  datatype Tf =
    | Neither
    | ClassOnly(ecn: Byte, dscp: Byte)
    | FlowOnly(ecn: Byte, pad: Byte, f0: Byte, f1: Byte, f2: Byte)
    | ClassAndFlow(ecn: Byte, dscp: Byte, pad: Byte, f0: Byte, f1: Byte, f2: Byte)

  datatype Hops = One | SixtyFour | TwoFiftyFive | InlineHops(n: Byte)

  /** An interface identifier: in full, its last two octets, or that of the link-layer address. */
  datatype Iid = Iid64(octets: seq<Byte>) | Short(b0: Byte, b1: Byte) | FromLink

  datatype SrcForm = SrcFull(addr: seq<Byte>) | SrcLocal(iid: Iid) | SrcNone | SrcContext(iid: Iid)

  datatype DstForm =
    | DstFull(addr: seq<Byte>)
    | DstLocal(iid: Iid)
    | DstContext(iid: Iid)
    | DstReserved
    | Group128(addr: seq<Byte>)
    | Group48(flags: Byte, tail: seq<Byte>)
    | Group32(flags: Byte, tail: seq<Byte>)
    | Group8(last: Byte)
    | GroupContext(mode: Byte, octets: seq<Byte>)

  datatype Ports =
    | Ports32(s0: Byte, s1: Byte, d0: Byte, d1: Byte)
    | PortsDst8(s0: Byte, s1: Byte, d1: Byte)
    | PortsSrc8(s1: Byte, d0: Byte, d1: Byte)
    | Ports4(s: Byte, d: Byte)

  /** The UDP header; the checksum may be left out. */
  datatype Udp = Udp(ports: Ports, sum: Option<seq<Byte>>)

  /** `nh == None`: compressed, and then `udp` if the octet behind the addresses says so. */
  datatype Wire = Wire(cid: Option<Byte>, tf: Tf, nh: Option<Byte>, hops: Hops, src: SrcForm, dst: DstForm, udp: Option<Udp>)

  predicate TfFits(f: Tf) {
    match f
    case Neither => true
    case ClassOnly(ecn, dscp) => ecn < 4 && dscp < 64
    case FlowOnly(ecn, pad, f0, _, _) => ecn < 4 && pad < 4 && f0 < 16
    case ClassAndFlow(ecn, dscp, pad, f0, _, _) => ecn < 4 && dscp < 64 && pad < 16 && f0 < 16
  }

  predicate IidFits(i: Iid) { i.Iid64? ==> |i.octets| == 8 }

  predicate SrcFits(f: SrcForm) {
    match f
    case SrcFull(a) => |a| == 16
    case SrcLocal(i) => IidFits(i)
    case SrcNone => true
    case SrcContext(i) => IidFits(i)
  }

  predicate DstFits(f: DstForm) {
    match f
    case DstFull(a) => |a| == 16
    case DstLocal(i) => IidFits(i)
    case DstContext(i) => IidFits(i)
    case DstReserved => true
    case Group128(a) => |a| == 16
    case Group48(_, tail) => |tail| == 5
    case Group32(_, tail) => |tail| == 3
    case Group8(_) => true
    case GroupContext(mode, octets) => mode < 4 && |octets| <= 16
  }

  predicate UdpFits(u: Udp) { (u.ports.Ports4? ==> u.ports.s < 16 && u.ports.d < 16) && (u.sum.Some? ==> |u.sum.value| == 2) }

  predicate Fits(w: Wire) {
    && TfFits(w.tf) && SrcFits(w.src) && DstFits(w.dst)
    && (w.udp.Some? ==> w.nh.None? && UdpFits(w.udp.value))
  }

  // ------------------------------------------------------------------ the octets

  function TfBits(f: Tf): Byte {
    match f case Neither => 0x18 case ClassOnly(_, _) => 0x10 case FlowOnly(_, _, _, _, _) => 0x08 case _ => 0x00
  }

  function TfOctets(f: Tf): seq<Byte> {
    match f
    case Neither => []
    case ClassOnly(ecn, dscp) => [(ecn << 6) | dscp]
    case FlowOnly(ecn, pad, f0, f1, f2) => [(ecn << 6) | (pad << 4) | f0, f1, f2]
    case ClassAndFlow(ecn, dscp, pad, f0, f1, f2) => [(ecn << 6) | dscp, (pad << 4) | f0, f1, f2]
  }

  function HopsBits(h: Hops): Byte {
    match h case One => 0x01 case SixtyFour => 0x02 case TwoFiftyFive => 0x03 case InlineHops(_) => 0x00
  }

  function IidBits(i: Iid): Byte { match i case Iid64(_) => 1 case Short(_, _) => 2 case FromLink => 3 }

  function IidOctets(i: Iid): seq<Byte> { match i case Iid64(s) => s case Short(b0, b1) => [b0, b1] case FromLink => [] }

  function SrcBits(f: SrcForm): Byte {
    match f
    case SrcFull(_) => 0x00
    case SrcLocal(i) => IidBits(i) << 4
    case SrcNone => 0x40
    case SrcContext(i) => 0x40 | (IidBits(i) << 4)
  }

  function SrcOctets(f: SrcForm): seq<Byte> {
    match f case SrcFull(a) => a case SrcLocal(i) => IidOctets(i) case SrcNone => [] case SrcContext(i) => IidOctets(i)
  }

  function DstBits(f: DstForm): Byte {
    match f
    case DstFull(_) => 0x00
    case DstLocal(i) => IidBits(i)
    case DstReserved => 0x04
    case DstContext(i) => 0x04 | IidBits(i)
    case Group128(_) => 0x08
    case Group48(_, _) => 0x09
    case Group32(_, _) => 0x0a
    case Group8(_) => 0x0b
    case GroupContext(mode, _) => 0x0c | mode
  }

  function DstOctets(f: DstForm): seq<Byte> {
    match f
    case DstFull(a) => a
    case DstLocal(i) => IidOctets(i)
    case DstReserved => []
    case DstContext(i) => IidOctets(i)
    case Group128(a) => a
    case Group48(flags, tail) => [flags] + tail
    case Group32(flags, tail) => [flags] + tail
    case Group8(last) => [last]
    case GroupContext(_, octets) => octets
  }

  function PortsOctets(p: Ports): seq<Byte> {
    match p
    case Ports32(s0, s1, d0, d1) => [s0, s1, d0, d1]
    case PortsDst8(s0, s1, d1) => [s0, s1, d1]
    case PortsSrc8(s1, d0, d1) => [s1, d0, d1]
    case Ports4(s, d) => [(s << 4) | d]
  }

  /** 11110CPP. */
  function UdpOctet(u: Udp): Byte {
    (match u.ports case Ports32(_, _, _, _) => 0xF0 case PortsDst8(_, _, _) => 0xF1 case PortsSrc8(_, _, _) => 0xF2 case Ports4(_, _) => 0xF3)
    | (if u.sum.Some? then 0x00 else 0x04)
  }

  function UdpOctets(u: Udp): seq<Byte> {
    [UdpOctet(u)] + PortsOctets(u.ports) + if u.sum.Some? then u.sum.value else []
  }

  /** 011 TF NH HLIM. */
  function First(w: Wire): Byte {
    0x60 | TfBits(w.tf) | (if w.nh.None? then 0x04 else 0x00) | HopsBits(w.hops)
  }

  /** CID SAC SAM M DAC DAM. */
  function Second(w: Wire): Byte {
    (if w.cid.Some? then 0x80 else 0x00) | SrcBits(w.src) | DstBits(w.dst)
  }

  function Inline(b: Option<Byte>): seq<Byte> { if b.Some? then [b.value] else [] }

  function HopsOctets(h: Hops): seq<Byte> { if h.InlineHops? then [h.n] else [] }

  function Octets(w: Wire): seq<Byte> {
    [First(w), Second(w)] + Inline(w.cid) + TfOctets(w.tf) + Inline(w.nh) + HopsOctets(w.hops)
    + SrcOctets(w.src) + DstOctets(w.dst) + if w.udp.Some? then UdpOctets(w.udp.value) else []
  }

  // ----------------------------------------------------------------- the meaning

  /** Version 6, DSCP, ECN and flow label in the order of the IPv6 header. */
  function TfValue(f: Tf): (r: seq<Byte>)
    ensures |r| == 4
  {
    match f
    case Neither => [0x60, 0, 0, 0]
    case ClassOnly(ecn, dscp) => [0x60 | (dscp >> 2), (dscp << 6) | (ecn << 4), 0, 0]
    case FlowOnly(ecn, _, f0, f1, f2) => [0x60, (ecn << 4) | f0, f1, f2]
    case ClassAndFlow(ecn, dscp, _, f0, f1, f2) => [0x60 | (dscp >> 2), (dscp << 6) | (ecn << 4) | f0, f1, f2]
  }

  function HopsValue(h: Hops): Byte { match h case One => 1 case SixtyFour => 64 case TwoFiftyFive => 255 case InlineHops(n) => n }

  /** The identifier of section 3.2.2 of RFC 6282, or the one of the link-layer address with its bit 2 flipped. */
  function IidValue(i: Iid, ll: LlAddr): (r: seq<Byte>)
    requires IidFits(i)
    ensures |r| == 8
  {
    match i
    case Iid64(s) => s
    case Short(b0, b1) => [0, 0, 0, 0xff, 0xfe, 0, b0, b1]
    case FromLink => [ll[0] ^ 0x02, ll[1], ll[2], ll[3], ll[4], ll[5], ll[6], ll[7]]
  }

  const LINK_LOCAL: seq<Byte> := [0xfe, 0x80, 0, 0, 0, 0, 0, 0]

  /** `None`: there is no such context. */
  function SrcValue(t: Table, number: Byte, f: SrcForm, ll: LlAddr): Option<Addr>
    requires SrcFits(f)
  {
    match f
    case SrcFull(a) => Some(a)
    case SrcLocal(i) => Some(LINK_LOCAL + IidValue(i, ll))
    case SrcNone => Some([0, 0, 0, 0, 0, 0, 0, 0, 0, 0, 0, 0, 0, 0, 0, 0])
    case SrcContext(i) =>
      var c := ByNumber(t, number);
      if c.Some? then Some(c.value.prefix + IidValue(i, ll)) else None
  }

  /** The form that section 3.1.1 of RFC 6282 reserves reads as unspecified, under a context; the stateful
      multicast ones are refused. */
  function DstValue(t: Table, number: Byte, f: DstForm, ll: LlAddr): Option<Addr>
    requires DstFits(f)
  {
    match f
    case DstFull(a) => Some(a)
    case DstLocal(i) => Some(LINK_LOCAL + IidValue(i, ll))
    case DstReserved =>
      if ByNumber(t, number).Some? then Some([0, 0, 0, 0, 0, 0, 0, 0, 0, 0, 0, 0, 0, 0, 0, 0]) else None
    case DstContext(i) =>
      var c := ByNumber(t, number);
      if c.Some? then Some(c.value.prefix + IidValue(i, ll)) else None
    case Group128(a) => Some(a)
    case Group48(flags, tail) => Some([0xff, flags, 0, 0, 0, 0, 0, 0, 0, 0, 0] + tail)
    case Group32(flags, tail) => Some([0xff, flags, 0, 0, 0, 0, 0, 0, 0, 0, 0, 0, 0] + tail)
    case Group8(last) => Some([0xff, 0x02, 0, 0, 0, 0, 0, 0, 0, 0, 0, 0, 0, 0, 0, last])
    case GroupContext(_, _) => None
  }

  function PortsValue(p: Ports): (r: seq<Byte>)
    ensures |r| == 4
  {
    match p
    case Ports32(s0, s1, d0, d1) => [s0, s1, d0, d1]
    case PortsDst8(s0, s1, d1) => [s0, s1, 0xf0, d1]
    case PortsSrc8(s1, d0, d1) => [0xf0, s1, d0, d1]
    case Ports4(s, d) => [0xf0, 0xb0 | s, 0xf0, 0xb0 | d]
  }

  function SrcNumber(w: Wire): Byte { if w.cid.Some? then w.cid.value >> 4 else 0 }
  function DstNumber(w: Wire): Byte { if w.cid.Some? then w.cid.value & 0x0f else 0 }

  // ------------------------------------------------- the decompressor, field by field

  lemma TfRead(f: Tf, iphc0: Byte, buf: seq<Byte>, p: nat)
    requires TfFits(f) && p + 4 <= |buf| && At(buf, p, TfOctets(f)) && iphc0 & 0x18 == TfBits(f)
    ensures ReadTf(iphc0, buf, p) == (TfValue(f), p + |TfOctets(f)|)
  {
    hide ReadTf, At, TfOctets, TfValue, TfBits, TfFits;
    match f {
      case Neither => NeitherRead(iphc0, buf, p);
      case ClassOnly(_, _) => ClassRead(f, iphc0, buf, p);
      case FlowOnly(_, _, _, _, _) => FlowRead(f, iphc0, buf, p);
      case ClassAndFlow(_, _, _, _, _, _) => BothRead(f, iphc0, buf, p);
    }
  }

  lemma NeitherRead(iphc0: Byte, buf: seq<Byte>, p: nat)
    requires p + 4 <= |buf| && iphc0 & 0x18 == TfBits(Neither)
    ensures ReadTf(iphc0, buf, p) == (TfValue(Neither), p + |TfOctets(Neither)|)
  {
    ReadTfForms(iphc0, buf, p, 0x18);
    hide ReadTf;
  }

  lemma ClassRead(f: Tf, iphc0: Byte, buf: seq<Byte>, p: nat)
    requires f.ClassOnly? && TfFits(f) && p + 4 <= |buf| && At(buf, p, TfOctets(f)) && iphc0 & 0x18 == TfBits(f)
    ensures ReadTf(iphc0, buf, p) == (TfValue(f), p + |TfOctets(f)|)
  {
    assert buf[p] == buf[p..p + 1][0] == TfOctets(f)[0];
    hide At;
    ReadTfForms(iphc0, buf, p, 0x10);
    hide ReadTf;
    ClassBitsRead(f.ecn, f.dscp);
  }

  lemma FlowRead(f: Tf, iphc0: Byte, buf: seq<Byte>, p: nat)
    requires f.FlowOnly? && TfFits(f) && p + 4 <= |buf| && At(buf, p, TfOctets(f)) && iphc0 & 0x18 == TfBits(f)
    ensures ReadTf(iphc0, buf, p) == (TfValue(f), p + |TfOctets(f)|)
  {
    var s := buf[p..p + 3];
    assert buf[p] == s[0] && buf[p + 1] == s[1] && buf[p + 2] == s[2];
    ReadTfForms(iphc0, buf, p, 0x08);
    hide ReadTf;
    FlowBitsRead(f.ecn, f.pad, f.f0);
  }

  lemma BothRead(f: Tf, iphc0: Byte, buf: seq<Byte>, p: nat)
    requires f.ClassAndFlow? && TfFits(f) && p + 4 <= |buf| && At(buf, p, TfOctets(f)) && iphc0 & 0x18 == TfBits(f)
    ensures ReadTf(iphc0, buf, p) == (TfValue(f), p + |TfOctets(f)|)
  {
    var s := buf[p..p + 4];
    assert buf[p] == s[0] && buf[p + 1] == s[1] && buf[p + 2] == s[2] && buf[p + 3] == s[3];
    ReadTfForms(iphc0, buf, p, 0x00);
    hide ReadTf;
    BothBitsRead(f.ecn, f.dscp, f.pad, f.f0);
  }

  lemma ClassBitsRead(ecn: Byte, dscp: Byte)
    requires ecn < 4 && dscp < 64
    ensures var b := (ecn << 6) | dscp;
            (b >> 2) & 0x0F == dscp >> 2 && ((b << 6) & 0xC0) | ((b >> 2) & 0x30) == (dscp << 6) | (ecn << 4)
  {}

  lemma FlowBitsRead(ecn: Byte, pad: Byte, f0: Byte)
    requires ecn < 4 && pad < 4 && f0 < 16
    ensures var b := (ecn << 6) | (pad << 4) | f0; (b & 0x0F) | ((b >> 2) & 0x30) == (ecn << 4) | f0
  {}

  lemma BothBitsRead(ecn: Byte, dscp: Byte, pad: Byte, f0: Byte)
    requires ecn < 4 && dscp < 64 && pad < 16 && f0 < 16
    ensures var b := (ecn << 6) | dscp;
            && (b >> 2) & 0x0F == dscp >> 2
            && ((b >> 2) & 0x30) | (b << 6) | (((pad << 4) | f0) & 0x0F) == (dscp << 6) | (ecn << 4) | f0
  {}

  lemma NhRead(nh: Option<Byte>, iphc0: Byte, buf: seq<Byte>, p: nat)
    requires p + 1 <= |buf| && At(buf, p, Inline(nh)) && (iphc0 & 0x04 == if nh.None? then 0x04 else 0x00)
    ensures ReadNh(iphc0, buf, p) == (nh, p + |Inline(nh)|)
  {
    assert nh.Some? ==> buf[p..p + 1][0] == nh.value;
  }

  lemma HopsRead(h: Hops, iphc0: Byte, buf: seq<Byte>, p: nat)
    requires p + 1 <= |buf| && At(buf, p, HopsOctets(h)) && iphc0 & 0x03 == HopsBits(h)
    ensures ReadTtl(iphc0, buf, p) == (HopsValue(h), p + |HopsOctets(h)|)
  {
    assert h.InlineHops? ==> buf[p..p + 1][0] == h.n;
  }

  function Post(i: Iid): nat { |IidOctets(i)| }

  /** An identifier under a prefix of 8 octets, or of 2 with zeros behind. */
  lemma IidRead(i: Iid, prefix: seq<Byte>, pref: nat, ll: LlAddr, buf: seq<Byte>, p: nat)
    requires IidFits(i) && 0 < pref <= |prefix| && pref <= 8 && At(buf, p, IidOctets(i))
    ensures ReadAddr(prefix, pref, Post(i), ll, buf, p) == (prefix[..pref] + Zeros(8 - pref) + IidValue(i, ll), p + Post(i))
  {
    match i {
      case Iid64(s) => LongRead(s, prefix, pref, ll, buf, p);
      case Short(b0, b1) => ShortRead(b0, b1, prefix, pref, ll, buf, p);
      case FromLink => assert IidOf(ll) == IidValue(i, ll);
    }
    hide ReadAddr, At, IidValue;
  }

  lemma LongRead(s: seq<Byte>, prefix: seq<Byte>, pref: nat, ll: LlAddr, buf: seq<Byte>, p: nat)
    requires |s| == 8 && 0 < pref <= |prefix| && pref <= 8 && At(buf, p, s)
    ensures ReadAddr(prefix, pref, 8, ll, buf, p) == (prefix[..pref] + Zeros(8 - pref) + s, p + 8)
  {}

  lemma ShortRead(b0: Byte, b1: Byte, prefix: seq<Byte>, pref: nat, ll: LlAddr, buf: seq<Byte>, p: nat)
    requires 0 < pref <= |prefix| && pref <= 8 && At(buf, p, [b0, b1])
    ensures ReadAddr(prefix, pref, 2, ll, buf, p)
            == (prefix[..pref] + Zeros(8 - pref) + [0, 0, 0, 0xff, 0xfe, 0, b0, b1], p + 2)
  {
    var a := prefix[..pref] + Zeros(14 - pref) + buf[p..p + 2];
    var r, want := a[11 := 0xff][12 := 0xfe], prefix[..pref] + Zeros(8 - pref) + [0, 0, 0, 0xff, 0xfe, 0, b0, b1];
    assert buf[p..p + 2] == [b0, b1];
    assert |r| == |want| && forall k :: 0 <= k < 16 ==> r[k] == want[k];
    assert r == want;
  }

  lemma ContextIidRead(i: Iid, prefix: Prefix64, ll: LlAddr, buf: seq<Byte>, p: nat)
    requires IidFits(i) && At(buf, p, IidOctets(i))
    ensures ReadAddr(prefix, 8, Post(i), ll, buf, p) == (prefix + IidValue(i, ll), p + Post(i))
  {
    IidRead(i, prefix, 8, ll, buf, p);
    assert prefix[..8] + Zeros(0) == prefix;
  }

  lemma LocalIidRead(i: Iid, ll: LlAddr, buf: seq<Byte>, p: nat)
    requires IidFits(i) && p + 16 <= |buf| && At(buf, p, IidOctets(i))
    ensures ReadPlain(IidBits(i), ll, buf, p) == (LINK_LOCAL + IidValue(i, ll), p + Post(i))
  {
    IidRead(i, LL_PREFIX, 2, ll, buf, p);
    assert LL_PREFIX[..2] + Zeros(6) == LINK_LOCAL;
    hide ReadAddr, At;
  }

  lemma FullRead(a: seq<Byte>, ll: LlAddr, buf: seq<Byte>, p: nat)
    requires |a| == 16 && p + 16 <= |buf| && At(buf, p, a)
    ensures ReadPlain(0, ll, buf, p) == (a, p + 16)
  {
    FullRoundTrip(a, ll, buf, p);
    hide ReadAddr, At;
  }

  lemma Sixteen()
    ensures Zeros(16) == [0, 0, 0, 0, 0, 0, 0, 0, 0, 0, 0, 0, 0, 0, 0, 0]
  {}

  lemma SrcFlags(iphc1: Byte, m: Byte)
    requires m < 4
    ensures iphc1 & 0x70 == m << 4 ==> (iphc1 >> 4) & 0x03 == m && iphc1 & SAC == 0
    ensures iphc1 & 0x70 == 0x40 | (m << 4) ==> (iphc1 >> 4) & 0x03 == m && iphc1 & SAC != 0
  {}

  lemma SrcRead(t: Table, f: SrcForm, iphc1: Byte, cid: Byte, ll: LlAddr, buf: seq<Byte>, p: nat)
    requires SrcFits(f) && p + 16 <= |buf| && At(buf, p, SrcOctets(f)) && iphc1 & 0x70 == SrcBits(f)
    ensures var a := SrcValue(t, if iphc1 & 0x80 != 0 then cid >> 4 else 0, f, ll);
            ReadSrc(t, iphc1, cid, ll, buf, p) == if a.Some? then Some((a.value, p + |SrcOctets(f)|)) else None
  {
    hide ReadAddr, ReadPlain, At, ByNumber, IidValue;
    match f {
      case SrcFull(a) =>
        SrcFlags(iphc1, 0);
        FullRead(a, ll, buf, p);
      case SrcLocal(i) =>
        SrcFlags(iphc1, IidBits(i));
        LocalIidRead(i, ll, buf, p);
      case SrcNone =>
        SrcFlags(iphc1, 0);
        NothingRead(ll, buf, p);
      case SrcContext(i) =>
        SrcFlags(iphc1, IidBits(i));
        var c := ByNumber(t, if iphc1 & 0x80 != 0 then cid >> 4 else 0);
        if c.Some? { ContextIidRead(i, c.value.prefix, ll, buf, p); }
    }
  }

  lemma NothingRead(ll: LlAddr, buf: seq<Byte>, p: nat)
    requires p <= |buf|
    ensures ReadAddr([], 0, 0, ll, buf, p) == ([0, 0, 0, 0, 0, 0, 0, 0, 0, 0, 0, 0, 0, 0, 0, 0], p)
  {
    Sixteen();
  }

  lemma DstFlags(iphc1: Byte, m: Byte)
    requires m < 4
    ensures iphc1 & 0x0F == m ==> iphc1 & 0x03 == m && iphc1 & M == 0 && iphc1 & DAC == 0
    ensures iphc1 & 0x0F == 0x04 | m ==> iphc1 & 0x03 == m && iphc1 & M == 0 && iphc1 & DAC != 0
    ensures iphc1 & 0x0F == 0x08 | m ==> iphc1 & 0x03 == m && iphc1 & M != 0 && iphc1 & DAC == 0
    ensures iphc1 & 0x0F == 0x0c | m ==> iphc1 & 0x03 == m && iphc1 & M != 0 && iphc1 & DAC != 0
  {}

  lemma GroupRead(flags: Byte, tail: seq<Byte>, ll: LlAddr, buf: seq<Byte>, p: nat)
    requires |tail| in {1, 3, 5} && At(buf, p, tail)
    ensures ReadAddr([0xFF, flags], 2, |tail|, ll, buf, p) == ([0xFF, flags] + Zeros(14 - |tail|) + tail, p + |tail|)
  {
    var prefix: seq<Byte> := [0xFF, flags];
    assert prefix[..2] == prefix;
  }

  lemma DstUnicastRead(t: Table, f: DstForm, iphc1: Byte, cid: Byte, ll: LlAddr, buf: seq<Byte>, p: nat)
    requires f.DstFull? || f.DstLocal? || f.DstContext? || f.DstReserved?
    requires DstFits(f) && p + 16 <= |buf| && At(buf, p, DstOctets(f)) && iphc1 & 0x0F == DstBits(f)
    ensures var a := DstValue(t, if iphc1 & 0x80 != 0 then cid & 0x0F else 0, f, ll);
            ReadDst(t, iphc1, cid, ll, buf, p) == if a.Some? then Some((a.value, p + |DstOctets(f)|)) else None
  {
    hide ReadAddr, ReadPlain, At, ByNumber, IidValue;
    match f {
      case DstFull(a) =>
        DstFlags(iphc1, 0);
        FullRead(a, ll, buf, p);
      case DstLocal(i) =>
        DstFlags(iphc1, IidBits(i));
        LocalIidRead(i, ll, buf, p);
      case DstReserved =>
        DstFlags(iphc1, 0);
        NothingRead(ll, buf, p);
      case DstContext(i) =>
        DstFlags(iphc1, IidBits(i));
        var c := ByNumber(t, if iphc1 & 0x80 != 0 then cid & 0x0F else 0);
        if c.Some? { ContextIidRead(i, c.value.prefix, ll, buf, p); }
    }
  }

  lemma DstGroupRead(t: Table, f: DstForm, iphc1: Byte, cid: Byte, ll: LlAddr, buf: seq<Byte>, p: nat)
    requires f.Group128? || f.Group48? || f.Group32? || f.Group8? || f.GroupContext?
    requires DstFits(f) && p + 16 <= |buf| && At(buf, p, DstOctets(f)) && iphc1 & 0x0F == DstBits(f)
    ensures var a := DstValue(t, if iphc1 & 0x80 != 0 then cid & 0x0F else 0, f, ll);
            ReadDst(t, iphc1, cid, ll, buf, p) == if a.Some? then Some((a.value, p + |DstOctets(f)|)) else None
  {
    hide ReadAddr, ReadPlain, At, ByNumber, IidValue;
    match f {
      case Group128(a) =>
        DstFlags(iphc1, 0);
        FullRoundTrip(a, ll, buf, p);
      case Group48(flags, tail) =>
        DstFlags(iphc1, 1);
        FlagsFirst(flags, tail, buf, p);
        GroupRead(flags, tail, ll, buf, p + 1);
        assert [0xFF, flags] + Zeros(9) == [0xff, flags, 0, 0, 0, 0, 0, 0, 0, 0, 0];
      case Group32(flags, tail) =>
        DstFlags(iphc1, 2);
        FlagsFirst(flags, tail, buf, p);
        GroupRead(flags, tail, ll, buf, p + 1);
        assert [0xFF, flags] + Zeros(11) == [0xff, flags, 0, 0, 0, 0, 0, 0, 0, 0, 0, 0, 0];
      case Group8(last) =>
        DstFlags(iphc1, 3);
        GroupRead(0x02, [last], ll, buf, p);
        assert [0xFF, 0x02] + Zeros(13) + [last] == [0xff, 0x02, 0, 0, 0, 0, 0, 0, 0, 0, 0, 0, 0, 0, 0, last];
      case GroupContext(mode, _) =>
        DstFlags(iphc1, mode);
    }
  }

  lemma FlagsFirst(flags: Byte, tail: seq<Byte>, buf: seq<Byte>, p: nat)
    requires At(buf, p, [flags] + tail)
    ensures buf[p] == flags && At(buf, p + 1, tail)
  {
    AtConcat(buf, p, [flags], tail);
    assert buf[p..p + 1][0] == flags;
  }

  lemma DstRead(t: Table, f: DstForm, iphc1: Byte, cid: Byte, ll: LlAddr, buf: seq<Byte>, p: nat)
    requires DstFits(f) && p + 16 <= |buf| && At(buf, p, DstOctets(f)) && iphc1 & 0x0F == DstBits(f)
    ensures var a := DstValue(t, if iphc1 & 0x80 != 0 then cid & 0x0F else 0, f, ll);
            ReadDst(t, iphc1, cid, ll, buf, p) == if a.Some? then Some((a.value, p + |DstOctets(f)|)) else None
  {
    hide ReadDst, At, DstValue, DstOctets, DstBits;
    if f.DstFull? || f.DstLocal? || f.DstContext? || f.DstReserved? {
      DstUnicastRead(t, f, iphc1, cid, ll, buf, p);
    } else {
      DstGroupRead(t, f, iphc1, cid, ll, buf, p);
    }
  }

  lemma NibblesRead(s: Byte, d: Byte)
    requires s < 16 && d < 16
    ensures var b := (s << 4) | d; 0xB0 + (b >> 4) == 0xb0 | s && 0xB0 + (b & 0x0F) == 0xb0 | d
  {}

  lemma UdpOctetBits(u: Udp)
    ensures var b := UdpOctet(u);
            && b & 0xF8 == 0xF0 && (b & 0x04 == 0 <==> u.sum.Some?)
            && b & 0x03 == match u.ports case Ports32(_, _, _, _) => 0 case PortsDst8(_, _, _) => 1
                                         case PortsSrc8(_, _, _) => 2 case Ports4(_, _) => 3
  {}

  lemma PortsRead(u: Udp, buf: seq<Byte>, p: nat)
    requires UdpFits(u) && p + 5 <= |buf| && At(buf, p, [UdpOctet(u)] + PortsOctets(u.ports))
    ensures ReadPorts(buf, p) == (PortsValue(u.ports), p + 1 + |PortsOctets(u.ports)|)
  {
    hide UdpOctet, PortsOctets, PortsValue, ReadPorts;
    UdpOctetBits(u);
    var s := PortsOctets(u.ports);
    AtConcat(buf, p, [UdpOctet(u)], s);
    OctetAt(buf, p, [UdpOctet(u)], 0);
    PortsForm(u.ports, buf, p);
  }

  lemma PortsForm(ports: Ports, buf: seq<Byte>, p: nat)
    requires p + 5 <= |buf| && (ports.Ports4? ==> ports.s < 16 && ports.d < 16) && At(buf, p + 1, PortsOctets(ports))
    requires buf[p] & 0x03 == match ports case Ports32(_, _, _, _) => 0 case PortsDst8(_, _, _) => 1
                                          case PortsSrc8(_, _, _) => 2 case Ports4(_, _) => 3
    ensures ReadPorts(buf, p) == (PortsValue(ports), p + 1 + |PortsOctets(ports)|)
  {
    var s := PortsOctets(ports);
    OctetAt(buf, p + 1, s, 0);
    if |s| > 2 {
      OctetAt(buf, p + 1, s, 1);
      OctetAt(buf, p + 1, s, 2);
    }
    if |s| > 3 { OctetAt(buf, p + 1, s, 3); }
    hide At;
    if ports.Ports4? { NibbleForm(ports.s, ports.d, buf, p); }
  }

  lemma NibbleForm(s: Byte, d: Byte, buf: seq<Byte>, p: nat)
    requires p + 5 <= |buf| && s < 16 && d < 16 && buf[p] & 0x03 == 3 && buf[p + 1] == (s << 4) | d
    ensures ReadPorts(buf, p) == (PortsValue(Ports4(s, d)), p + 2)
  {
    NibblesRead(s, d);
  }

  lemma OctetAt(buf: seq<Byte>, p: nat, s: seq<Byte>, i: nat)
    requires At(buf, p, s) && i < |s|
    ensures p + i < |buf| && buf[p + i] == s[i]
  {
    assert buf[p..p + |s|][i] == s[i];
  }

  lemma UdpRead(u: Udp, buf: seq<Byte>, p: nat)
    requires UdpFits(u) && p + 7 <= |buf| && At(buf, p, UdpOctets(u))
    ensures ReadUdp(buf, p) == Some((PortsValue(u.ports), u.sum, p + |UdpOctets(u)|))
  {
    hide UdpOctet, ReadPorts, PortsValue, PortsOctets, At;
    var head, sum := [UdpOctet(u)] + PortsOctets(u.ports), if u.sum.Some? then u.sum.value else [];
    AtConcat(buf, p, head, sum);
    OctetAt(buf, p, head, 0);
    PortsRead(u, buf, p);
    UdpOctetBits(u);
    AtIs(buf, p + |head|, sum);
  }

  lemma AtIs(buf: seq<Byte>, p: nat, s: seq<Byte>)
    requires At(buf, p, s)
    ensures p + |s| <= |buf| && buf[p..p + |s|] == s
  {}

  // --------------------------------------------------- the decompressor on all forms

  /** The pieces as `Iphc.Fields` lists them. */
  function Pieces(w: Wire): Fields {
    Fields(Inline(w.cid), TfOctets(w.tf), Inline(w.nh), HopsOctets(w.hops), SrcOctets(w.src), DstOctets(w.dst),
           if w.udp.Some? then UdpOctets(w.udp.value) else [])
  }

  lemma OctetsJoined(w: Wire)
    ensures Octets(w) == [First(w), Second(w)] + Pieces(w).Join()
  {
    hide First, Second, Inline, TfOctets, HopsOctets, SrcOctets, DstOctets, UdpOctets;
    var f := Pieces(w);
    Regroup(f.dst, f.udp, []);
    assert Octets(w) == [First(w), Second(w)] + f.cid + f.tf + f.nh + f.ttl + f.src + f.dst + f.udp;
    Rejoin([First(w), Second(w)], f);
  }

  lemma Rejoin(head: seq<Byte>, f: Fields)
    ensures head + f.cid + f.tf + f.nh + f.ttl + f.src + f.dst + f.udp == head + f.Join()
  {
    var a, b, c, d, e := head + f.cid, head + f.cid + f.tf, head + f.cid + f.tf + f.nh, f.src + (f.dst + f.udp), f.dst + f.udp;
    Regroup(head, f.cid, f.tf + (f.nh + (f.ttl + d)));
    Regroup(a, f.tf, f.nh + (f.ttl + d));
    Regroup(b, f.nh, f.ttl + d);
    Regroup(c, f.ttl, d);
    Regroup(c + f.ttl, f.src, e);
    Regroup(c + f.ttl + f.src, f.dst, f.udp);
  }

  lemma FirstBits(w: Wire)
    ensures var b := First(w);
            && b & 0xE0 == 0x60 && b & 0x18 == TfBits(w.tf) && b & 0x03 == HopsBits(w.hops)
            && (b & 0x04 == if w.nh.None? then 0x04 else 0x00)
  {
    FirstParts(TfBits(w.tf), if w.nh.None? then 0x04 else 0x00, HopsBits(w.hops));
  }

  lemma FirstParts(tf: Byte, nh: Byte, hops: Byte)
    requires tf & 0x18 == tf && nh & 0x04 == nh && hops & 0x03 == hops
    ensures var b := 0x60 | tf | nh | hops; b & 0xE0 == 0x60 && b & 0x18 == tf && b & 0x04 == nh && b & 0x03 == hops
  {}

  lemma SecondBits(w: Wire)
    requires Fits(w)
    ensures var b := Second(w);
            && b & 0x70 == SrcBits(w.src) && b & 0x0F == DstBits(w.dst)
            && (b & 0x80 == if w.cid.Some? then 0x80 else 0x00)
  {
    SrcBitsMask(w.src);
    DstBitsMask(w.dst);
    SecondParts(if w.cid.Some? then 0x80 else 0x00, SrcBits(w.src), DstBits(w.dst));
  }

  lemma SrcBitsMask(f: SrcForm)
    ensures SrcBits(f) & 0x70 == SrcBits(f)
  {}

  lemma DstBitsMask(f: DstForm)
    requires DstFits(f)
    ensures DstBits(f) & 0x0F == DstBits(f)
  {}

  lemma SecondParts(cid: Byte, src: Byte, dst: Byte)
    requires cid & 0x80 == cid && src & 0x70 == src && dst & 0x0F == dst
    ensures var b := cid | src | dst; b & 0x80 == cid && b & 0x70 == src && b & 0x0F == dst
  {}

  /** Where the octets of a header lie in a frame. */
  lemma Placed(w: Wire, frame: seq<Byte>, hdr: nat)
    requires Fits(w) && hdr + 3 <= |frame| && At(frame, hdr, Octets(w))
    ensures var f := Pieces(w);
            && f.LaidOut(frame, hdr) && f.SrcPos(hdr) + |f.src| + |f.dst| + |f.udp| == hdr + |Octets(w)|
            && frame[hdr] == First(w) && frame[hdr + 1] == Second(w)
            && (frame[hdr + 1] & 0x80 != 0 <==> w.cid.Some?) && (w.cid.Some? ==> frame[hdr + 2] == w.cid.value)
            && |f.cid| == (if w.cid.Some? then 1 else 0) && |f.tf| <= 4 && |f.nh| <= 1 && |f.ttl| <= 1 && |f.src| <= 16
  {
    OctetsJoined(w);
    SecondBits(w);
    hide First, Second, TfFits, UdpOctets, PortsOctets, IidFits, DstOctets, DstFits, UdpFits, Octets, At;
    var f := Pieces(w);
    LayoutHead(frame, hdr, First(w), Second(w), f);
    Layout(frame, hdr, f);
  }

  /** The payload length: of the fragmented packet, or in one octet of what is left of the frame with the headers that
      come out of it. */
  function Length(ipLen: nat, lpLen: nat, end: nat, uncomp: nat): seq<Byte> {
    if ipLen > 0 then Be16(ipLen - 40) else [0, Low(lpLen - end + (uncomp - 40))]
  }

  /** The whole buffer after a header with these forms was read, source and destination being what they stand for. */
  ghost predicate ReadAs(d: Decoded, w: Wire, src: Addr, dst: Addr, end: nat, len: seq<Byte>, was: seq<Byte>)
    requires Fits(w)
  {
    && d.ok && d.hdrLen == end && d.uncomp == (if w.udp.Some? then 48 else 40) && |d.buf| == |was| >= 48 && |len| == 2
    && d.buf[0..4] == TfValue(w.tf) && d.buf[4..6] == len
    && d.buf[6] == (if w.nh.Some? then w.nh.value else if w.udp.Some? then 17 else was[6])
    && d.buf[7] == HopsValue(w.hops) && d.buf[8..24] == src && d.buf[24..40] == dst
    && d.buf[40..44] == (if w.udp.Some? then PortsValue(w.udp.value.ports) else was[40..44])
    && d.buf[44..46] == (if d.buf[6] == 17 then len else was[44..46])
    && d.buf[46..48] == (if w.udp.Some? && w.udp.value.sum.Some? then w.udp.value.sum.value else was[46..48])
    && d.buf[48..] == was[48..]
  }

  /** The length, copied to where a UDP header has its own when the next header says there is one. */
  function Measured(b: seq<Byte>, len: seq<Byte>): (r: seq<Byte>)
    requires |b| >= 48 && |len| == 2
    ensures |r| == |b|
    ensures r[0..4] == b[0..4] && r[4..6] == len && r[6] == b[6] && r[7] == b[7] && r[8..24] == b[8..24] && r[24..40] == b[24..40]
    ensures r[40..44] == b[40..44] && r[44..46] == (if b[6] == 17 then len else b[44..46]) && r[46..48] == b[46..48]
    ensures r[48..] == b[48..]
  {
    hide Splice;
    var c := Splice(b, 4, len);
    assert c[4..6] == len;
    if c[6] == PROTO_UDP then Splice(c, 44, c[4..6]) else c
  }

  function UdpWritten(b: seq<Byte>, ports: seq<Byte>, sum: Option<seq<Byte>>): (r: seq<Byte>)
    requires |b| >= 48 && |ports| == 4 && (sum.Some? ==> |sum.value| == 2)
    ensures |r| == |b|
    ensures r[0..4] == b[0..4] && r[6] == 17 && r[7] == b[7] && r[8..24] == b[8..24] && r[24..40] == b[24..40]
    ensures r[40..44] == ports && r[44..46] == b[44..46] && r[46..48] == (if sum.Some? then sum.value else b[46..48])
    ensures r[48..] == b[48..]
  {
    hide Splice;
    var c := Splice(b[6 := PROTO_UDP], 40, ports);
    if sum.Some? then Splice(c, 46, sum.value) else c
  }

  lemma RestSteps(w: Wire, frame: seq<Byte>, p: nat, ipLen: nat, lpLen: nat, b: seq<Byte>)
    requires Fits(w) && p + 7 <= |frame| && |b| >= 48
    requires At(frame, p, Pieces(w).udp) && (w.nh.None? && w.udp.None? ==> frame[p] & 0xF8 != 0xF0)
    ensures var q, n := p + |Pieces(w).udp|, if w.udp.Some? then 48 else 40;
            var c := if w.udp.Some? then UdpWritten(b, PortsValue(w.udp.value.ports), w.udp.value.sum) else b;
            DecompressRest(frame, First(w), p, ipLen, lpLen, b)
            == Decoded(Measured(c, LengthField(ipLen, lpLen, q, n)), q, n, true)
  {
    hide First, TfFits, UdpFits, SrcFits, DstFits, TfValue, HopsValue, PortsValue, LengthField, UdpOctets, At, ReadUdp, Splice,
      Measured, UdpWritten, DecompressRest;
    FirstBits(w);
    if w.udp.Some? {
      UdpFitsOf(w);
      UdpRead(w.udp.value, frame, p);
      UdpStep(frame, First(w), p, ipLen, lpLen, b);
    } else {
      if w.nh.None? { OtherNhc(frame, p); }
      PlainStep(frame, First(w), p, ipLen, lpLen, b);
    }
  }

  lemma UdpStep(frame: seq<Byte>, iphc0: Byte, p: nat, ipLen: nat, lpLen: nat, b: seq<Byte>)
    requires p + 7 <= |frame| && |b| >= 48 && iphc0 & 0x04 == 0x04 && ReadUdp(frame, p).Some?
    ensures var (ports, sum, q) := ReadUdp(frame, p).value;
            DecompressRest(frame, iphc0, p, ipLen, lpLen, b)
            == Decoded(Measured(UdpWritten(b, ports, sum), LengthField(ipLen, lpLen, q, 48)), q, 48, true)
  {
    hide ReadUdp, Splice, LengthField;
  }

  lemma PlainStep(frame: seq<Byte>, iphc0: Byte, p: nat, ipLen: nat, lpLen: nat, b: seq<Byte>)
    requires p + 7 <= |frame| && |b| >= 48 && (iphc0 & 0x04 == 0x00 || ReadUdp(frame, p).None?)
    ensures DecompressRest(frame, iphc0, p, ipLen, lpLen, b)
            == Decoded(Measured(b, LengthField(ipLen, lpLen, p, 40)), p, 40, true)
  {
    hide ReadUdp, Splice, LengthField;
  }

  lemma RestRead(w: Wire, frame: seq<Byte>, p: nat, ipLen: nat, lpLen: nat, was: seq<Byte>, b: seq<Byte>, src: Addr, dst: Addr)
    requires Fits(w) && p + 7 <= |frame| && |was| >= 48
    requires b == Fixed(was, TfValue(w.tf), w.nh, HopsValue(w.hops), src, dst)
    requires At(frame, p, Pieces(w).udp) && (w.nh.None? && w.udp.None? ==> frame[p] & 0xF8 != 0xF0)
    ensures var q := p + |Pieces(w).udp|;
            ReadAs(DecompressRest(frame, First(w), p, ipLen, lpLen, b), w, src, dst, q,
                   LengthField(ipLen, lpLen, q, if w.udp.Some? then 48 else 40), was)
  {
    hide First, TfFits, UdpFits, SrcFits, DstFits, TfValue, HopsValue, PortsValue, LengthField, UdpOctets, At, Fixed, Measured,
      UdpWritten, DecompressRest, Pieces;
    if w.udp.Some? { UdpFitsOf(w); }
    RestSteps(w, frame, p, ipLen, lpLen, b);
    FixedOctets(was, TfValue(w.tf), w.nh, HopsValue(w.hops), src, dst);
    Behind(b, was);
  }

  lemma Behind(b: seq<Byte>, was: seq<Byte>)
    requires |b| == |was| >= 48 && b[40..] == was[40..]
    ensures b[40..44] == was[40..44] && b[44..46] == was[44..46] && b[46..48] == was[46..48] && b[48..] == was[48..]
  {
    assert forall k :: 40 <= k < |b| ==> b[k] == b[40..][k - 40] == was[40..][k - 40] == was[k];
  }

  lemma UdpFitsOf(w: Wire)
    requires Fits(w) && w.udp.Some?
    ensures UdpFits(w.udp.value) && w.nh.None?
  {}

  lemma OtherNhc(frame: seq<Byte>, p: nat)
    requires p + 7 <= |frame| && frame[p] & 0xF8 != 0xF0
    ensures ReadUdp(frame, p) == None
  {}

  lemma FixedOctets(was: seq<Byte>, tf: seq<Byte>, nh: Option<Byte>, ttl: Byte, src: Addr, dst: Addr)
    requires |was| >= 48 && |tf| == 4
    ensures var b := Fixed(was, tf, nh, ttl, src, dst);
            && b[0..4] == tf && b[4..6] == was[4..6] && b[6] == (if nh.Some? then nh.value else was[6]) && b[7] == ttl
            && b[8..24] == src && b[24..40] == dst && b[40..] == was[40..]
  {
    hide Splice;
    var b := Fixed(was, tf, nh, ttl, src, dst);
    assert forall k :: 8 <= k < 24 ==> b[k] == src[k - 8];
    assert forall k :: 24 <= k < 40 ==> b[k] == dst[k - 24];
    assert forall k :: 40 <= k < |b| ==> b[k] == was[k];
    assert b[0..4] == tf;
    assert b[4..6] == was[4..6];
    assert b[8..24] == src;
    assert b[24..40] == dst;
    assert b[40..] == was[40..];
  }

  /** The two octets, both addresses and what is behind them, when there is no such context or the form is refused. */
  ghost predicate GivenUp(d: Decoded, w: Wire, src: Option<Addr>, hdr: nat, was: seq<Byte>)
    requires Fits(w)
  {
    && !d.ok && d.hdrLen == hdr && d.uncomp == 0 && |d.buf| == |was| >= 48
    && d.buf[0..4] == TfValue(w.tf) && d.buf[4..6] == was[4..6]
    && d.buf[6] == (if w.nh.Some? then w.nh.value else was[6])
    && d.buf[7] == HopsValue(w.hops)
    && d.buf[8..24] == (if src.Some? then src.value else was[8..24]) && d.buf[24..] == was[24..]
  }

  /** The decompressor, given what each reader returns, when it gives up. */
  lemma GivesUpAt(t: Table, w: Wire, frame: seq<Byte>, hdr: nat, sll: LlAddr, dll: LlAddr, ipLen: nat, lpLen: nat,
                  was: seq<Byte>, tf: (seq<Byte>, nat), nh: (Option<Byte>, nat), ttl: (Byte, nat),
                  src: Option<(Addr, nat)>, dst: Option<(Addr, nat)>)
    requires hdr + 2 + MAX_HDR <= |frame| && |was| >= IPUDPH_LEN && Fits(w)
    requires tf == ReadTf(frame[hdr], frame, if frame[hdr + 1] & CID != 0 then hdr + 3 else hdr + 2)
    requires nh == ReadNh(frame[hdr], frame, tf.1) && ttl == ReadTtl(frame[hdr], frame, nh.1)
    requires src == ReadSrc(t, frame[hdr + 1], frame[hdr + 2], sll, frame, ttl.1)
    requires src.Some? ==> dst == ReadDst(t, frame[hdr + 1], frame[hdr + 2], dll, frame, src.value.1)
    requires src.None? || dst.None?
    requires tf.0 == TfValue(w.tf) && nh.0 == w.nh && ttl.0 == HopsValue(w.hops)
    ensures GivenUp(Decompress(t, frame, hdr, sll, dll, ipLen, lpLen, was), w,
                    if src.Some? then Some(src.value.0) else None, hdr, was)
  {
    hide ReadTf, ReadNh, ReadTtl, ReadSrc, ReadDst, DecompressRest, Fits, Splice, HopsValue, TfValue;
  }

  /** Every form of every field, whoever sent it, is read as RFC 6282 has it, but for the stateful multicast forms and
      unknown contexts, where the decompressor stops. */
  lemma Decodes(t: Table, w: Wire, frame: seq<Byte>, hdr: nat, sll: LlAddr, dll: LlAddr, ipLen: nat, lpLen: nat, was: seq<Byte>)
    requires Fits(w) && hdr + 2 + MAX_HDR <= |frame| && |was| >= 48 && At(frame, hdr, Octets(w))
    requires w.nh.None? && w.udp.None? ==> hdr + |Octets(w)| < |frame| && frame[hdr + |Octets(w)|] & 0xF8 != 0xF0
    ensures var d := Decompress(t, frame, hdr, sll, dll, ipLen, lpLen, was);
            var src, dst := SrcValue(t, SrcNumber(w), w.src, sll), DstValue(t, DstNumber(w), w.dst, dll);
            var end := hdr + |Octets(w)|;
            if src.None? || dst.None? then GivenUp(d, w, src, hdr, was)
            else ReadAs(d, w, src.value, dst.value, end, Length(ipLen, lpLen, end, if w.udp.Some? then 48 else 40), was)
  {
    hide Octets, TfFits, SrcFits, DstFits, UdpFits, TfValue, HopsValue, SrcValue, DstValue, At, ReadAs, GivenUp, LengthField, Decompress, DecompressRest,
      Fixed, ReadTf, ReadNh, ReadTtl, ReadSrc, ReadDst, Pieces;
    Placed(w, frame, hdr);
    var f := Pieces(w);
    ShortsRead(w, frame, hdr);
    AddressesRead(t, w, frame, hdr, sll, dll);
    var p0, p3 := hdr + 2 + |f.cid|, f.SrcPos(hdr);
    var src, dst := SrcValue(t, SrcNumber(w), w.src, sll), DstValue(t, DstNumber(w), w.dst, dll);
    var s := if src.Some? then Some((src.value, p3 + |f.src|)) else None;
    var e := if dst.Some? then Some((dst.value, p3 + |f.src| + |f.dst|)) else None;
    var tf, nh, ttl := (TfValue(w.tf), p0 + |f.tf|), (w.nh, p0 + |f.tf| + |f.nh|), (HopsValue(w.hops), p3);
    if s.None? || e.None? {
      GivesUpAt(t, w, frame, hdr, sll, dll, ipLen, lpLen, was, tf, nh, ttl, s, e);
    } else {
      DecompressSteps(t, frame, hdr, sll, dll, ipLen, lpLen, was, tf, nh, ttl, s, e);
      var b := Fixed(was, TfValue(w.tf), w.nh, HopsValue(w.hops), src.value, dst.value);
      UdpNotEmpty(w);
      LengthIs(ipLen, lpLen, hdr + |Octets(w)|, if w.udp.Some? then 48 else 40);
      RestRead(w, frame, p3 + |f.src| + |f.dst|, ipLen, lpLen, was, b, src.value, dst.value);
    }
  }

  lemma ShortsRead(w: Wire, frame: seq<Byte>, hdr: nat)
    requires Fits(w) && hdr + 2 + MAX_HDR <= |frame| && At(frame, hdr, Octets(w))
    ensures var f := Pieces(w);
            var p0 := if frame[hdr + 1] & CID != 0 then hdr + 3 else hdr + 2;
            && p0 == hdr + 2 + |f.cid| && p0 + 6 <= |frame| && |f.tf| <= 4 && |f.nh| <= 1
            && ReadTf(frame[hdr], frame, p0) == (TfValue(w.tf), p0 + |f.tf|)
            && ReadNh(frame[hdr], frame, p0 + |f.tf|) == (w.nh, p0 + |f.tf| + |f.nh|)
            && ReadTtl(frame[hdr], frame, p0 + |f.tf| + |f.nh|) == (HopsValue(w.hops), f.SrcPos(hdr))
  {
    hide Octets, TfFits, UdpFits, SrcFits, DstFits, TfValue, HopsValue, At, ReadTf, ReadNh, ReadTtl, First, Second, TfOctets,
      HopsOctets, SrcOctets, DstOctets, UdpOctets, TfBits, HopsBits;
    Placed(w, frame, hdr);
    FirstBits(w);
    var f := Pieces(w);
    var p0 := hdr + 2 + |f.cid|;
    TfRead(w.tf, frame[hdr], frame, p0);
    NhRead(w.nh, frame[hdr], frame, p0 + |f.tf|);
    HopsRead(w.hops, frame[hdr], frame, p0 + |f.tf| + |f.nh|);
  }

  lemma AddressesRead(t: Table, w: Wire, frame: seq<Byte>, hdr: nat, sll: LlAddr, dll: LlAddr)
    requires Fits(w) && hdr + 2 + MAX_HDR <= |frame| && At(frame, hdr, Octets(w))
    ensures var f := Pieces(w);
            var p3 := f.SrcPos(hdr);
            var src, dst := SrcValue(t, SrcNumber(w), w.src, sll), DstValue(t, DstNumber(w), w.dst, dll);
            && p3 + |f.src| + 16 <= |frame| && |f.src| <= 16
            && ReadSrc(t, frame[hdr + 1], frame[hdr + 2], sll, frame, p3)
               == (if src.Some? then Some((src.value, p3 + |f.src|)) else None)
            && ReadDst(t, frame[hdr + 1], frame[hdr + 2], dll, frame, p3 + |f.src|)
               == (if dst.Some? then Some((dst.value, p3 + |f.src| + |f.dst|)) else None)
  {
    hide Octets, TfFits, UdpFits, SrcFits, DstFits, SrcValue, DstValue, At, ReadSrc, ReadDst, First, Second, TfOctets,
      HopsOctets, SrcOctets, DstOctets, UdpOctets, SrcBits, DstBits;
    Placed(w, frame, hdr);
    SecondBits(w);
    var f := Pieces(w);
    var p3 := f.SrcPos(hdr);
    SrcRead(t, w.src, frame[hdr + 1], frame[hdr + 2], sll, frame, p3);
    DstRead(t, w.dst, frame[hdr + 1], frame[hdr + 2], dll, frame, p3 + |f.src|);
  }

  lemma LengthIs(ipLen: nat, lpLen: nat, end: nat, uncomp: nat)
    ensures Length(ipLen, lpLen, end, uncomp) == LengthField(ipLen, lpLen, end, uncomp)
  {
    assert lpLen - end + (uncomp - 40) == lpLen - end + uncomp - 40;
  }

  lemma UdpNotEmpty(w: Wire)
    ensures |Pieces(w).udp| == 0 <==> w.udp.None?
  {}

  // ------------------------------------------------------- the forms the compressor picks

  predicate NoFlow(ip: seq<Byte>) requires |ip| >= 48 { ip[1] & 0x0F == 0 && ip[2] == 0 && ip[3] == 0 }

  predicate TfPicked(f: Tf, ip: seq<Byte>)
    requires |ip| >= 48
  {
    && TfFits(f) && TfValue(f) == [0x60 | (ip[0] & 0x0F), ip[1], ip[2], ip[3]]
    && match f
       case Neither => NoFlow(ip) && ip[0] & 0x0F == 0 && ip[1] & 0xF0 == 0
       case ClassOnly(_, _) => NoFlow(ip) && !(ip[0] & 0x0F == 0 && ip[1] & 0xF0 == 0)
       case FlowOnly(_, pad, _, _, _) => !NoFlow(ip) && ip[0] & 0x0F == 0 && ip[1] & 0xC0 == 0 && pad == 0
       case ClassAndFlow(_, _, pad, _, _, _) => !NoFlow(ip) && !(ip[0] & 0x0F == 0 && ip[1] & 0xC0 == 0) && pad == 0
  }

  predicate HopsPicked(h: Hops, n: Byte) { HopsValue(h) == n && (h.InlineHops? ==> n != 1 && n != 64 && n != 255) }

  predicate OfLink(a: Addr, ll: LlAddr) {
    a[8..16] == [ll[0] ^ 0x02, ll[1], ll[2], ll[3], ll[4], ll[5], ll[6], ll[7]]
  }

  predicate IidPicked(i: Iid, a: Addr, ll: LlAddr) {
    match i
    case FromLink => OfLink(a, ll)
    case Short(b0, b1) => !OfLink(a, ll) && a[8..16] == [0, 0, 0, 0xff, 0xfe, 0, b0, b1]
    case Iid64(s) => !OfLink(a, ll) && a[8..14] != [0, 0, 0, 0xff, 0xfe, 0] && s == a[8..16]
  }

  /** Some context has this prefix. */
  predicate InContext(t: Table, a: Addr) { exists k :: 0 <= k < |t| && t[k].used == 1 && t[k].prefix == a[0..8] }

  /** The local form of the source depends on the destination. */
  predicate LocalPicked(ip: seq<Byte>) requires |ip| >= 48 { ip[8] == 0xfe && ip[9] == 0x80 && ip[26..32] == [0, 0, 0, 0, 0, 0] }

  predicate SrcPicked(t: Table, f: SrcForm, ip: seq<Byte>, ll: LlAddr)
    requires |ip| >= 48
  {
    var a := ip[8..24];
    var zero := a == [0, 0, 0, 0, 0, 0, 0, 0, 0, 0, 0, 0, 0, 0, 0, 0];
    match f
    case SrcNone => zero
    case SrcContext(i) => !zero && InContext(t, a) && IidPicked(i, a, ll)
    case SrcLocal(i) => !zero && !InContext(t, a) && LocalPicked(ip) && IidPicked(i, a, ll)
    case SrcFull(x) => !zero && !InContext(t, a) && !LocalPicked(ip) && x == a
  }

  /** `used` octet 3 tells the prefix length in bits, and the prefix lies behind it. */
  predicate Captures(c: Context, a: Addr) {
    && 0 < c.used && c.used == Val(a[3]) && c.used / 8 <= 8
    && forall k :: 0 <= k < c.used / 8 ==> c.prefix[k] == a[4 + k]
  }

  predicate InGroupContext(t: Table, a: Addr) { exists k :: 0 <= k < |t| && Captures(t[k], a) }

  predicate ZerosFrom(a: Addr, from: nat, to: nat)
    requires to <= 16
  {
    forall k :: from <= k < to ==> a[k] == 0
  }

  predicate DstPicked(t: Table, f: DstForm, ip: seq<Byte>, ll: LlAddr)
    requires |ip| >= 48
  {
    var a := ip[24..40];
    match f
    case DstFull(x) => a[0] != 0xff && !InContext(t, a) && !(a[0] == 0xfe && a[1] == 0x80 && ZerosFrom(a, 2, 8)) && x == a
    case DstLocal(i) => !InContext(t, a) && a[0] == 0xfe && a[1] == 0x80 && ZerosFrom(a, 2, 8) && IidPicked(i, a, ll)
    case DstContext(i) => a[0] != 0xff && InContext(t, a) && IidPicked(i, a, ll)
    case DstReserved => false
    case GroupContext(mode, s) =>
      mode == 0 && a[0] == 0xff && InGroupContext(t, a) && s == [a[1], a[2], a[12], a[13], a[14], a[15]]
    case Group8(last) => a[0] == 0xff && !InGroupContext(t, a) && a[1] == 2 && ZerosFrom(a, 2, 15) && last == a[15]
    case Group32(flags, tail) =>
      && a[0] == 0xff && !InGroupContext(t, a) && !(a[1] == 2 && ZerosFrom(a, 2, 15)) && ZerosFrom(a, 2, 13)
      && flags == a[1] && tail == a[13..16]
    case Group48(flags, tail) =>
      a[0] == 0xff && !InGroupContext(t, a) && !ZerosFrom(a, 2, 13) && ZerosFrom(a, 2, 11) && flags == a[1] && tail == a[11..16]
    case Group128(x) => a[0] == 0xff && !InGroupContext(t, a) && !ZerosFrom(a, 2, 11) && x == a
  }

  /** The checksum is always sent. */
  predicate UdpPicked(u: Udp, ip: seq<Byte>)
    requires |ip| >= 48
  {
    UdpFits(u) && PortsPicked(u.ports, ip) && u.sum == Some(ip[46..48])
  }

  /** ECN, DSCP and the top of the flow label, out of the first two octets. */
  function Ecn(c: Byte): Byte { (c >> 4) & 0x03 }
  function Dscp(v: Byte, c: Byte): Byte { ((v & 0x0F) << 2) | (c >> 6) }
  function FlowTop(c: Byte): Byte { c & 0x0F }

  lemma TfPick(ip: seq<Byte>) returns (f: Tf)
    requires |ip| >= 48
    ensures TfPicked(f, ip) && TfPart(ip) == Part(TfBits(f), TfOctets(f))
  {
    if NoFlow(ip) {
      if ip[0] & 0x0F == 0 && ip[1] & 0xF0 == 0 { f := NeitherPick(ip); } else { f := ClassPick(ip); }
    } else if ip[0] & 0x0F == 0 && ip[1] & 0xC0 == 0 {
      f := FlowPick(ip);
    } else {
      f := BothPick(ip);
    }
    hide TfPicked, TfPart, TfBits, TfOctets;
  }

  lemma NeitherPick(ip: seq<Byte>) returns (f: Tf)
    requires |ip| >= 48 && NoFlow(ip) && ip[0] & 0x0F == 0 && ip[1] & 0xF0 == 0
    ensures TfPicked(f, ip) && TfPart(ip) == Part(TfBits(f), TfOctets(f))
  {
    f := Neither;
    TfCases(ip);
    SplitNone(ip[0], ip[1]);
    hide TfPart;
  }

  lemma ClassPick(ip: seq<Byte>) returns (f: Tf)
    requires |ip| >= 48 && NoFlow(ip) && !(ip[0] & 0x0F == 0 && ip[1] & 0xF0 == 0)
    ensures TfPicked(f, ip) && TfPart(ip) == Part(TfBits(f), TfOctets(f))
  {
    hide Ecn, Dscp, FlowTop, SwappedClass, TfPart;
    f := ClassOnly(Ecn(ip[1]), Dscp(ip[0], ip[1]));
    TfCases(ip);
    SplitSmall(ip[0], ip[1]);
    SplitClass(ip[0], ip[1]);
  }

  lemma FlowPick(ip: seq<Byte>) returns (f: Tf)
    requires |ip| >= 48 && !NoFlow(ip) && ip[0] & 0x0F == 0 && ip[1] & 0xC0 == 0
    ensures TfPicked(f, ip) && TfPart(ip) == Part(TfBits(f), TfOctets(f))
  {
    hide Ecn, Dscp, FlowTop, SwappedClass, TfPart, NoFlow;
    f := FlowOnly(Ecn(ip[1]), 0, FlowTop(ip[1]), ip[2], ip[3]);
    TfCases(ip);
    SplitSmall(ip[0], ip[1]);
    SplitFlow(ip[0], ip[1]);
  }

  lemma BothPick(ip: seq<Byte>) returns (f: Tf)
    requires |ip| >= 48 && !NoFlow(ip) && !(ip[0] & 0x0F == 0 && ip[1] & 0xC0 == 0)
    ensures TfPicked(f, ip) && TfPart(ip) == Part(TfBits(f), TfOctets(f))
  {
    hide Ecn, Dscp, FlowTop, SwappedClass, TfPart, NoFlow;
    f := ClassAndFlow(Ecn(ip[1]), Dscp(ip[0], ip[1]), 0, FlowTop(ip[1]), ip[2], ip[3]);
    SplitSmall(ip[0], ip[1]);
    SplitBoth(ip[0], ip[1]);
    BothOctets(ip, f);
  }

  lemma BothOctets(ip: seq<Byte>, f: Tf)
    requires |ip| >= 48 && !NoFlow(ip) && !(ip[0] & 0x0F == 0 && ip[1] & 0xC0 == 0)
    requires f == ClassAndFlow(Ecn(ip[1]), Dscp(ip[0], ip[1]), 0, FlowTop(ip[1]), ip[2], ip[3])
    ensures TfPart(ip) == Part(TfBits(f), TfOctets(f))
  {
    hide Ecn, Dscp, FlowTop, SwappedClass, TfPart, NoFlow;
    TfCases(ip);
    SplitBoth(ip[0], ip[1]);
  }

  lemma TfCases(ip: seq<Byte>)
    requires |ip| >= 48
    ensures NoFlow(ip) && ip[0] & 0x0F == 0 && ip[1] & 0xF0 == 0 ==> TfPart(ip) == Part(0x18, [])
    ensures NoFlow(ip) && !(ip[0] & 0x0F == 0 && ip[1] & 0xF0 == 0) ==> TfPart(ip) == Part(0x10, [SwappedClass(ip[0], ip[1])])
    ensures !NoFlow(ip) && ip[0] & 0x0F == 0 && ip[1] & 0xC0 == 0 ==>
              TfPart(ip) == Part(0x08, [(SwappedClass(ip[0], ip[1]) & 0xC0) | (ip[1] & 0x0F), ip[2], ip[3]])
    ensures !NoFlow(ip) && !(ip[0] & 0x0F == 0 && ip[1] & 0xC0 == 0) ==>
              TfPart(ip) == Part(0x00, [SwappedClass(ip[0], ip[1]), ip[1] & 0x0F, ip[2], ip[3]])
  {
    hide SwappedClass;
  }

  lemma SplitSmall(v: Byte, c: Byte)
    ensures Ecn(c) < 4 && Dscp(v, c) < 64 && FlowTop(c) < 16 && FlowTop(c) == c & 0x0F
  {}

  lemma SplitNone(v: Byte, c: Byte)
    requires v & 0x0F == 0 && c & 0x0F == 0 && c & 0xF0 == 0
    ensures c == 0 && 0x60 | (v & 0x0F) == 0x60
  {}

  lemma SplitClass(v: Byte, c: Byte)
    requires c & 0x0F == 0
    ensures 0x60 | (Dscp(v, c) >> 2) == 0x60 | (v & 0x0F) && (Dscp(v, c) << 6) | (Ecn(c) << 4) == c
    ensures (Ecn(c) << 6) | Dscp(v, c) == SwappedClass(v, c)
  {}

  lemma SplitFlow(v: Byte, c: Byte)
    requires v & 0x0F == 0 && c & 0xC0 == 0
    ensures 0x60 | (v & 0x0F) == 0x60 && (Ecn(c) << 4) | FlowTop(c) == c
    ensures var pad: Byte := 0; (Ecn(c) << 6) | (pad << 4) | FlowTop(c) == (SwappedClass(v, c) & 0xC0) | (c & 0x0F)
  {}

  lemma SplitBoth(v: Byte, c: Byte)
    ensures 0x60 | (Dscp(v, c) >> 2) == 0x60 | (v & 0x0F) && (Dscp(v, c) << 6) | (Ecn(c) << 4) | FlowTop(c) == c
    ensures (Ecn(c) << 6) | Dscp(v, c) == SwappedClass(v, c)
    ensures var pad: Byte := 0; (pad << 4) | FlowTop(c) == c & 0x0F
  {}

  lemma HopsPick(ip: seq<Byte>) returns (h: Hops)
    requires |ip| >= 48
    ensures HopsPicked(h, ip[7]) && TtlPart(ip) == Part(HopsBits(h), HopsOctets(h))
  {
    h := if ip[7] == 1 then One else if ip[7] == 64 then SixtyFour else if ip[7] == 255 then TwoFiftyFive else InlineHops(ip[7]);
  }

  lemma OfLinkExact(a: Addr, ll: LlAddr)
    ensures OfLink(a, ll) <==> MacBased(a, ll)
  {
    assert a[8..16] == a[8..];
    var x := [ll[0] ^ 0x02, ll[1], ll[2], ll[3], ll[4], ll[5], ll[6], ll[7]];
    assert forall k :: 0 <= k < 8 ==> IidOf(ll)[k] == x[k];
    assert IidOf(ll) == x;
  }

  lemma IidPick(a: Addr, ll: LlAddr) returns (i: Iid)
    ensures IidFits(i) && IidPicked(i, a, ll) && IidPart(a, ll) == Part(IidBits(i), IidOctets(i))
  {
    OfLinkExact(a, ll);
    assert a[8..16] == a[8..] && a[8..16] == a[8..14] + [a[14], a[15]] && a[14..] == [a[14], a[15]];
    hide OfLink, MacBased;
    i := if OfLink(a, ll) then FromLink else if Iid16(a) then Short(a[14], a[15]) else Iid64(a[8..16]);
  }

  lemma {:induction false} InContextExact(t: Table, a: Addr)
    ensures ByPrefix(t, a).Some? <==> InContext(t, a)
  {
    assert a[0..8] == a[..8];
    if t != [] && !(t[0].used == 1 && t[0].prefix == a[..8]) {
      InContextExact(t[1..], a);
      forall k | 0 <= k < |t| - 1 ensures t[1..][k] == t[k + 1] {}
      if InContext(t, a) {
        var k :| 0 <= k < |t| && t[k].used == 1 && t[k].prefix == a[0..8];
        assert t[1..][k - 1] == t[k];
      }
    }
  }

  /** Of several contexts with the prefix the first in the table is taken. */
  lemma {:induction false} FirstWithPrefix(t: Table, a: Addr, k: nat)
    requires k < |t| && t[k].used == 1 && t[k].prefix == a[0..8]
    requires forall j :: 0 <= j < k ==> t[j].used != 1 || t[j].prefix != a[0..8]
    ensures ByPrefix(t, a) == Some(t[k])
  {
    assert a[0..8] == a[..8];
    if k > 0 {
      assert t[1..][k - 1] == t[k];
      assert forall j :: 0 <= j < k - 1 ==> t[1..][j] == t[j + 1];
      FirstWithPrefix(t[1..], a, k - 1);
    }
  }

  lemma CapturesExact(c: Context, a: Addr)
    ensures McastMatch(c, a) <==> Captures(c, a)
  {
    var n := c.used / 8;
    if McastMatch(c, a) {
      forall k | 0 <= k < n ensures c.prefix[k] == a[4 + k] {
        assert c.prefix[..n][k] == a[4..4 + n][k];
      }
    }
    if Captures(c, a) {
      assert |c.prefix[..n]| == |a[4..4 + n]| && forall k :: 0 <= k < n ==> c.prefix[..n][k] == a[4..4 + n][k];
    }
  }

  lemma {:induction false} InGroupContextExact(t: Table, a: Addr)
    ensures ByMcastPrefix(t, a).Some? <==> InGroupContext(t, a)
  {
    if t != [] { CapturesExact(t[0], a); }
    hide McastMatch, Captures;
    if t != [] && !Captures(t[0], a) {
      InGroupContextExact(t[1..], a);
      forall k | 0 <= k < |t| - 1 ensures t[1..][k] == t[k + 1] {}
      if InGroupContext(t, a) {
        var k :| 0 <= k < |t| && Captures(t[k], a);
        assert t[1..][k - 1] == t[k];
      }
    }
  }

  lemma LocalExact(ip: seq<Byte>)
    requires |ip| >= 48
    ensures LocalPicked(ip) <==> SrcLinkLocalBranch(ip)
  {
    var x, y := Dst(ip)[2..8], ip[26..32];
    assert |x| == |y| && forall k :: 0 <= k < 6 ==> x[k] == y[k];
    assert x == y;
    assert forall k :: 0 <= k < 6 ==> Zeros(6)[k] == 0;
    var z: seq<Byte> := [0, 0, 0, 0, 0, 0];
    assert Zeros(6) == z;
  }

  lemma SrcPick(t: Table, ip: seq<Byte>, ll: LlAddr) returns (f: SrcForm)
    requires |ip| >= 48
    ensures SrcFits(f) && SrcPicked(t, f, ip, ll) && SrcPart(t, ip, ll) == Part(SrcBits(f), SrcOctets(f))
  {
    var a := ip[8..24];
    Sixteen();
    InContextExact(t, a);
    LocalExact(ip);
    hide IidPart, ByPrefix, InContext, IidPicked, LocalPicked, SrcLinkLocalBranch;
    var i := IidPick(a, ll);
    f := if Unspecified(a) then SrcNone
         else if InContext(t, a) then SrcContext(i)
         else if LocalPicked(ip) then SrcLocal(i)
         else SrcFull(a);
  }

  lemma ZerosExact(a: Addr, from: nat, to: nat)
    requires from <= to <= 16
    ensures a[from..to] == Zeros(to - from) <==> ZerosFrom(a, from, to)
  {
    if ZerosFrom(a, from, to) { assert a[from..to] == Zeros(to - from); }
    if a[from..to] == Zeros(to - from) {
      forall k | from <= k < to ensures a[k] == 0 { assert a[from..to][k - from] == 0; }
    }
  }

  lemma DstPick(t: Table, ip: seq<Byte>, ll: LlAddr) returns (f: DstForm)
    requires |ip| >= 48
    ensures DstFits(f) && DstPicked(t, f, ip, ll) && DstPart(t, ip, ll) == Part(DstBits(f), DstOctets(f))
  {
    if ip[24] == 0xff { f := GroupPick(t, ip, ll); } else { f := UnicastPick(t, ip, ll); }
  }

  lemma UnicastPick(t: Table, ip: seq<Byte>, ll: LlAddr) returns (f: DstForm)
    requires |ip| >= 48 && ip[24] != 0xff
    ensures DstFits(f) && DstPicked(t, f, ip, ll) && DstPart(t, ip, ll) == Part(DstBits(f), DstOctets(f))
  {
    var a := ip[24..40];
    InContextExact(t, a);
    ZerosExact(a, 2, 8);
    hide IidPart, ByPrefix, InContext, IidPicked, ZerosFrom, ByMcastPrefix, InGroupContext;
    var i := IidPick(a, ll);
    f := if InContext(t, a) then DstContext(i)
         else if a[0] == 0xfe && a[1] == 0x80 && ZerosFrom(a, 2, 8) then DstLocal(i)
         else DstFull(a);
  }

  lemma GroupPick(t: Table, ip: seq<Byte>, ll: LlAddr) returns (f: DstForm)
    requires |ip| >= 48 && ip[24] == 0xff
    ensures DstFits(f) && DstPicked(t, f, ip, ll) && DstPart(t, ip, ll) == Part(DstBits(f), DstOctets(f))
  {
    var a := ip[24..40];
    InGroupContextExact(t, a);
    ZerosExact(a, 2, 15);
    ZerosExact(a, 2, 13);
    ZerosExact(a, 2, 11);
    hide IidPart, ByPrefix, InContext, IidPicked, ByMcastPrefix, InGroupContext;
    assert a[1..3] + a[12..] == [a[1], a[2], a[12], a[13], a[14], a[15]];
    assert a[13..] == a[13..16] && a[11..] == a[11..16];
    f := if InGroupContext(t, a) then GroupContext(0, [a[1], a[2], a[12], a[13], a[14], a[15]])
         else if a[1] == 2 && ZerosFrom(a, 2, 15) then Group8(a[15])
         else if ZerosFrom(a, 2, 13) then Group32(a[1], a[13..16])
         else if ZerosFrom(a, 2, 11) then Group48(a[1], a[11..16])
         else Group128(a);
  }

  lemma Nibbles(hi: Byte, lo: Byte)
    requires hi & 0xF0 == 0xB0 && lo & 0xF0 == 0xB0
    ensures var s, d := hi & 0x0F, lo & 0x0F;
            s < 16 && d < 16 && 0xb0 | s == hi && 0xb0 | d == lo && (s << 4) | d == ((hi - 0xB0) << 4) + (lo - 0xB0)
  {}

  lemma UdpOctetLiteral(u: Udp)
    requires u.sum.Some?
    ensures UdpOctet(u) == match u.ports case Ports32(_, _, _, _) => 0xF0 case PortsDst8(_, _, _) => 0xF1
                                         case PortsSrc8(_, _, _) => 0xF2 case Ports4(_, _) => 0xF3
  {}

  lemma UdpPick(ip: seq<Byte>) returns (u: Udp)
    requires |ip| >= 48 && ip[6] == 17
    ensures UdpPicked(u, ip) && UdpPart(ip) == UdpOctets(u)
  {
    var ports := PortsPick(ip);
    u := Udp(ports, Some(ip[46..48]));
    hide UdpOctet, PortsPart, PortsOctets, PortsValue, PortsPicked;
    assert UdpOctets(u) == [UdpOctet(u)] + PortsOctets(ports) + ip[46..48];
  }

  /** Source before destination, and the short destination before the short source. */
  predicate PortsPicked(p: Ports, ip: seq<Byte>)
    requires |ip| >= 48
  {
    && (p.Ports4? ==> p.s < 16 && p.d < 16) && PortsValue(p) == ip[40..44]
    && var nibbles := ip[40] == 0xf0 && ip[41] & 0xf0 == 0xb0 && ip[42] == 0xf0 && ip[43] & 0xf0 == 0xb0;
    match p
    case Ports4(_, _) => nibbles
    case PortsDst8(_, _, _) => !nibbles && ip[42] == 0xf0
    case PortsSrc8(_, _, _) => ip[42] != 0xf0 && ip[40] == 0xf0
    case Ports32(_, _, _, _) => ip[42] != 0xf0 && ip[40] != 0xf0
  }

  lemma PortsPick(ip: seq<Byte>) returns (p: Ports)
    requires |ip| >= 48
    ensures PortsPicked(p, ip)
    ensures PortsPart(ip[40..42], ip[42..44]) == [UdpOctet(Udp(p, Some(ip[46..48])))] + PortsOctets(p)
  {
    assert ip[40..44] == [ip[40], ip[41], ip[42], ip[43]];
    PortsCases(ip[40..42], ip[42..44]);
    hide PortsPart, Port4, Port8;
    if ip[40] == 0xf0 && ip[41] & 0xf0 == 0xb0 && ip[42] == 0xf0 && ip[43] & 0xf0 == 0xb0 {
      p := Ports4(ip[41] & 0x0F, ip[43] & 0x0F);
      Nibbles(ip[41], ip[43]);
    } else if ip[42] == 0xf0 {
      p := PortsDst8(ip[40], ip[41], ip[43]);
    } else if ip[40] == 0xf0 {
      p := PortsSrc8(ip[41], ip[42], ip[43]);
    } else {
      p := Ports32(ip[40], ip[41], ip[42], ip[43]);
    }
    UdpOctetLiteral(Udp(p, Some(ip[46..48])));
    hide UdpOctet;
  }

  lemma PortsCases(src: seq<Byte>, dst: seq<Byte>)
    requires |src| == |dst| == 2
    ensures var nibbles := src[0] == 0xf0 && src[1] & 0xf0 == 0xb0 && dst[0] == 0xf0 && dst[1] & 0xf0 == 0xb0;
            PortsPart(src, dst)
            == if nibbles then [0xF3, ((src[1] - 0xB0) << 4) + (dst[1] - 0xB0)]
               else if dst[0] == 0xf0 then [0xF1, src[0], src[1], dst[1]]
               else if src[0] == 0xf0 then [0xF2, src[1], dst[0], dst[1]]
               else [0xF0, src[0], src[1], dst[0], dst[1]]
  {}

  /** The octet with both context numbers, that of an address that has none being 0. */
  predicate CidPicked(t: Table, other: Option<Context>, cid: Option<Byte>, ip: seq<Byte>)
    requires |ip| >= 48
  {
    var s, d := ByPrefix(t, ip[8..24]), ByPrefix(t, ip[24..40]);
    && (cid.Some? <==> if d.None? then other.Some? else s.None? || s.value.number != 0 || d.value.number != 0)
    && (cid.Some? ==>
          && cid.value >> 4 == (if s.Some? && ip[8..24] != [0, 0, 0, 0, 0, 0, 0, 0, 0, 0, 0, 0, 0, 0, 0, 0] then s.value.number else 0)
          && cid.value & 0x0f == (if d.Some? && ip[24] != 0xff then d.value.number else 0))
  }

  lemma CidPick(t: Table, other: Option<Context>, ip: seq<Byte>) returns (cid: Option<Byte>)
    requires |ip| >= 48 && WellFormed(t)
    ensures CidPicked(t, other, cid, ip)
    ensures CidPart(t, other, ip) == Part(if cid.Some? then 0x80 else 0x00, Inline(cid))
  {
    Sixteen();
    var s, d := ByPrefix(t, ip[8..24]), ByPrefix(t, ip[24..40]);
    ContextBits(if s.Some? && !Unspecified(ip[8..24]) then s.value.number else 0, if d.Some? && ip[24] != 0xff then d.value.number else 0);
    hide ByPrefix;
    cid := if SendsCid(t, other, ip) then Some(ContextOctet(t, ip)) else None;
  }

  /** Which form the compressor picks for every field of a header. */
  ghost predicate Picked(t: Table, other: Option<Context>, w: Wire, ip: seq<Byte>, sll: LlAddr, dll: LlAddr)
    requires |ip| >= 48
  {
    && CidPicked(t, other, w.cid, ip) && TfPicked(w.tf, ip) && w.nh == (if ip[6] == 17 then None else Some(ip[6]))
    && HopsPicked(w.hops, ip[7]) && SrcPicked(t, w.src, ip, sll) && DstPicked(t, w.dst, ip, dll)
    && (w.udp.Some? <==> ip[6] == 17) && (w.udp.Some? ==> UdpPicked(w.udp.value, ip))
  }

  /** Every octet the compressor emits. */
  lemma Encodes(t: Table, other: Option<Context>, ip: seq<Byte>, sll: LlAddr, dll: LlAddr) returns (w: Wire)
    requires |ip| >= 48 && WellFormed(t)
    ensures Fits(w) && Picked(t, other, w, ip, sll, dll) && Compress(t, other, ip, sll, dll) == Octets(w)
  {
    var cid := CidPick(t, other, ip);
    var tf := TfPick(ip);
    var hops := HopsPick(ip);
    var src := SrcPick(t, ip, sll);
    var dst := DstPick(t, ip, dll);
    var udp := None;
    if ip[6] == 17 {
      var u := UdpPick(ip);
      udp := Some(u);
    }
    w := Wire(cid, tf, if ip[6] == 17 then None else Some(ip[6]), hops, src, dst, udp);
    hide CidPart, TfPart, TtlPart, SrcPart, DstPart, UdpPart, CidPicked, TfPicked, HopsPicked, SrcPicked, DstPicked, UdpPicked,
      TfBits, TfOctets, HopsBits, HopsOctets, SrcBits, SrcOctets, DstBits, DstOctets, UdpOctets, Octets, TfFits, SrcFits, DstFits,
      Compress, UdpFits;
    UdpFitsPicked(udp, ip);
    TfFitsPicked(tf, ip);
    Composed(t, other, ip, sll, dll, w);
  }

  lemma TfFitsPicked(f: Tf, ip: seq<Byte>)
    requires |ip| >= 48
    ensures TfPicked(f, ip) ==> TfFits(f)
  {
    hide TfFits, TfValue;
  }

  lemma Composed(t: Table, other: Option<Context>, ip: seq<Byte>, sll: LlAddr, dll: LlAddr, w: Wire)
    requires |ip| >= 48
    requires CidPart(t, other, ip) == Part(if w.cid.Some? then 0x80 else 0x00, Inline(w.cid))
    requires TfPart(ip) == Part(TfBits(w.tf), TfOctets(w.tf)) && TtlPart(ip) == Part(HopsBits(w.hops), HopsOctets(w.hops))
    requires SrcPart(t, ip, sll) == Part(SrcBits(w.src), SrcOctets(w.src))
    requires DstPart(t, ip, dll) == Part(DstBits(w.dst), DstOctets(w.dst))
    requires w.nh == (if ip[6] == 17 then None else Some(ip[6]))
    requires UdpPart(ip) == if w.udp.Some? then UdpOctets(w.udp.value) else []
    ensures Compress(t, other, ip, sll, dll) == Octets(w)
  {
    hide CidPart, TfPart, TtlPart, SrcPart, DstPart, UdpPart, TfBits, TfOctets, HopsBits, HopsOctets, SrcBits, SrcOctets, DstBits,
      DstOctets, UdpOctets, Octets, Fields.Join;
    OctetsJoined(w);
    NhFlag(ip, NhPart(ip).flags);
    assert InlineFields(t, other, ip, sll, dll) == Pieces(w);
    assert Iphc0(ip) == First(w);
    assert Iphc1(t, other, ip, sll, dll) == Second(w);
  }

  lemma UdpFitsPicked(udp: Option<Udp>, ip: seq<Byte>)
    requires |ip| >= 48
    ensures udp.Some? && UdpPicked(udp.value, ip) ==> UdpFits(udp.value)
    ensures ip[6] != 17 ==> UdpPart(ip) == []
  {
    hide PortsValue, UdpFits;
  }

  // ------------------------------------------------------------- the first two octets

  /** 3: derived from the link-layer address, 2: sixteen bits inline, 1: in full. */
  function IidMode(a: Addr, ll: LlAddr): Byte {
    if OfLink(a, ll) then 3 else if a[8..14] == [0, 0, 0, 0xff, 0xfe, 0] then 2 else 1
  }

  function TfMode(ip: seq<Byte>): Byte
    requires |ip| >= 48
  {
    if NoFlow(ip) then if ip[0] & 0x0F == 0 && ip[1] & 0xF0 == 0 then 3 else 2
    else if ip[0] & 0x0F == 0 && ip[1] & 0xC0 == 0 then 1 else 0
  }

  /** Traffic class 0 and no flow label, no flow label, DSCP 0, or neither; next header UDP; hop limit 1, 64, 255 or another. */
  predicate FormBits(b: Byte, ip: seq<Byte>)
    requires |ip| >= 48
  {
    && b & 0xE0 == 0x60 && (b >> 3) & 0x03 == TfMode(ip) && (b & 0x04 != 0 <==> ip[6] == 17)
    && b & 0x03 == if ip[7] == 1 then 1 else if ip[7] == 64 then 2 else if ip[7] == 255 then 3 else 0
  }

  /** SAC and SAM. */
  predicate SourceBits(t: Table, b: Byte, ip: seq<Byte>, ll: LlAddr)
    requires |ip| >= 48
  {
    var a := ip[8..24];
    var zero := a == [0, 0, 0, 0, 0, 0, 0, 0, 0, 0, 0, 0, 0, 0, 0, 0];
    && (b & 0x40 != 0 <==> zero || InContext(t, a))
    && (b >> 4) & 0x03 == if !zero && (InContext(t, a) || LocalPicked(ip)) then IidMode(a, ll) else 0
  }

  /** M, DAC and DAM. */
  predicate DestinationBits(t: Table, b: Byte, ip: seq<Byte>, ll: LlAddr)
    requires |ip| >= 48
  {
    var a := ip[24..40];
    && (b & 0x08 != 0 <==> a[0] == 0xff)
    && (b & 0x04 != 0 <==> if a[0] == 0xff then InGroupContext(t, a) else InContext(t, a))
    && b & 0x03 ==
       if a[0] == 0xff then
         if InGroupContext(t, a) then 0 else if a[1] == 2 && ZerosFrom(a, 2, 15) then 3
         else if ZerosFrom(a, 2, 13) then 2 else if ZerosFrom(a, 2, 11) then 1 else 0
       else if InContext(t, a) || (a[0] == 0xfe && a[1] == 0x80 && ZerosFrom(a, 2, 8)) then IidMode(a, ll) else 0
  }

  /** The two octets every compressed header begins with. */
  lemma HeadSent(t: Table, other: Option<Context>, ip: seq<Byte>, sll: LlAddr, dll: LlAddr)
    requires |ip| >= 48 && WellFormed(t)
    ensures var c := Compress(t, other, ip, sll, dll);
            |c| >= 2 && FormBits(c[0], ip) && SourceBits(t, c[1], ip, sll) && DestinationBits(t, c[1], ip, dll)
  {
    var w := Encodes(t, other, ip, sll, dll);
    FirstBits(w);
    SecondBits(w);
    Octets2(w);
    hide Compress, Octets, First, Second, FormBits, SourceBits, DestinationBits, TfPicked, HopsPicked, SrcPicked, DstPicked,
      UdpPicked, CidPicked, TfBits, HopsBits, SrcBits, DstBits;
    FirstIs(First(w), w, ip);
    SourceIs(t, Second(w), w.src, ip, sll);
    DestinationIs(t, Second(w), w.dst, ip, dll);
  }

  lemma Octets2(w: Wire)
    ensures |Octets(w)| >= 2 && Octets(w)[0] == First(w) && Octets(w)[1] == Second(w)
  {
    hide First, Second, Inline, TfOctets, HopsOctets, SrcOctets, DstOctets, UdpOctets;
  }

  lemma FirstIs(b: Byte, w: Wire, ip: seq<Byte>)
    requires |ip| >= 48 && b & 0xE0 == 0x60 && b & 0x18 == TfBits(w.tf) && b & 0x03 == HopsBits(w.hops)
    requires b & 0x04 == if w.nh.None? then 0x04 else 0x00
    requires TfPicked(w.tf, ip) && HopsPicked(w.hops, ip[7]) && (w.nh.None? <==> ip[6] == 17)
    ensures FormBits(b, ip)
  {
    TfModeIs(b);
    hide NoFlow, TfFits, TfValue;
  }

  lemma TfModeIs(b: Byte)
    ensures (b & 0x18 == 0x18 ==> (b >> 3) & 0x03 == 3) && (b & 0x18 == 0x10 ==> (b >> 3) & 0x03 == 2)
    ensures (b & 0x18 == 0x08 ==> (b >> 3) & 0x03 == 1) && (b & 0x18 == 0x00 ==> (b >> 3) & 0x03 == 0)
  {}

  lemma ModeIs(i: Iid, a: Addr, ll: LlAddr)
    requires IidPicked(i, a, ll)
    ensures IidBits(i) == IidMode(a, ll)
  {
    hide OfLink;
    if i.Short? { assert a[8..14] == a[8..16][..6]; }
  }

  lemma SourceIs(t: Table, b: Byte, f: SrcForm, ip: seq<Byte>, ll: LlAddr)
    requires |ip| >= 48 && b & 0x70 == SrcBits(f) && SrcPicked(t, f, ip, ll)
    ensures SourceBits(t, b, ip, ll)
  {
    if f.SrcContext? { ModeIs(f.iid, ip[8..24], ll); }
    if f.SrcLocal? { ModeIs(f.iid, ip[8..24], ll); }
    hide IidPicked, InContext, LocalPicked, IidMode;
    if f.SrcContext? || f.SrcLocal? { SamIs(b, IidBits(f.iid)); } else { SamIs(b, 0); }
  }

  lemma SamIs(b: Byte, m: Byte)
    requires m < 4
    ensures b & 0x70 == m << 4 ==> (b >> 4) & 0x03 == m && b & 0x40 == 0
    ensures b & 0x70 == 0x40 | (m << 4) ==> (b >> 4) & 0x03 == m && b & 0x40 != 0
    ensures (0 as Byte) << 4 == 0 && (0x40 as Byte) | 0 == 0x40
  {}

  lemma DestinationIs(t: Table, b: Byte, f: DstForm, ip: seq<Byte>, ll: LlAddr)
    requires |ip| >= 48 && b & 0x0F == DstBits(f) && DstPicked(t, f, ip, ll) && DstFits(f)
    ensures DestinationBits(t, b, ip, ll)
  {
    if f.DstContext? { ModeIs(f.iid, ip[24..40], ll); }
    if f.DstLocal? { ModeIs(f.iid, ip[24..40], ll); }
    var m := if f.DstContext? || f.DstLocal? then IidBits(f.iid)
             else if f.Group48? then 1 else if f.Group32? then 2 else if f.Group8? then 3 else 0;
    DamIs(b, m);
    hide IidPicked, InContext, InGroupContext, IidMode;
    ZerosLess(ip[24..40]);
    hide ZerosFrom;
  }

  lemma ZerosLess(a: Addr)
    ensures (ZerosFrom(a, 2, 15) ==> ZerosFrom(a, 2, 13)) && (ZerosFrom(a, 2, 13) ==> ZerosFrom(a, 2, 11))
  {}

  lemma DamIs(b: Byte, m: Byte)
    requires m < 4
    ensures b & 0x0F == m ==> b & 0x03 == m && b & 0x04 == 0 && b & 0x08 == 0
    ensures b & 0x0F == 0x04 | m ==> b & 0x03 == m && b & 0x04 != 0 && b & 0x08 == 0
    ensures b & 0x0F == 0x08 | m ==> b & 0x03 == m && b & 0x04 == 0 && b & 0x08 != 0
    ensures b & 0x0F == 0x0c | m ==> b & 0x03 == m && b & 0x04 != 0 && b & 0x08 != 0
    ensures (0x08 as Byte) | 0 == 0x08 && (0x08 as Byte) | 1 == 0x09 && (0x08 as Byte) | 2 == 0x0a && (0x08 as Byte) | 3 == 0x0b && (0x0c as Byte) | 0 == 0x0c
  {}
}
