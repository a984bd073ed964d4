// The header codec of sicsLowPan.c (LOWPAN_IPHC and LOWPAN_UDP of RFC 6282) on
// values: what the compressor emits for an IPv6 header, what the decompressor
// reads back, and exactly when the second undoes the first.
module Iphc {
  import opened Bytes

  // ---------------------------------------------------------------- constants

  const DISPATCH_IPHC: Byte := 0x60
  const FL_C: Byte := 0x10
  const TC_C: Byte := 0x08
  const NH_C: Byte := 0x04
  const CID: Byte := 0x80
  const SAC: Byte := 0x40
  const M: Byte := 0x08
  const DAC: Byte := 0x04
  const PROTO_UDP: Byte := 17
  const NHC_UDP: Byte := 0xF0
  const NHC_UDP_CHECKSUMC: Byte := 0x04

  const LL_PREFIX: seq<Byte> := [0xFE, 0x80]

  const IPH_LEN: nat := 40
  const IPUDPH_LEN: nat := 48
  /** Octets past the dispatch that the decompressor may look at. */
  const MAX_HDR: nat := 48

  // ------------------------------------------------------------------- entities

  type LlAddr = a: seq<Byte> | |a| == 8 witness Zeros(8)
  type Addr = a: seq<Byte> | |a| == 16 witness Zeros(16)
  type Prefix64 = a: seq<Byte> | |a| == 8 witness Zeros(8)

  /** `used` doubles as the length in bits of a multicast prefix. */
  datatype Context = Context(used: nat, number: Byte, prefix: Prefix64)

  type Table = seq<Context>

  ghost predicate WellFormed(t: Table) {
    && (forall i :: 0 <= i < |t| ==> t[i].number < 16 && t[i].used <= 64)
    && (forall i, j :: 0 <= i < j < |t| && t[i].used == 1 && t[j].used == 1 ==> t[i].number != t[j].number)
  }

  function Src(ip: seq<Byte>): Addr requires |ip| >= IPH_LEN { ip[8..24] }
  function Dst(ip: seq<Byte>): Addr requires |ip| >= IPH_LEN { ip[24..40] }
  predicate IsUdp(ip: seq<Byte>) requires |ip| >= IPH_LEN { ip[6] == PROTO_UDP }
  function HeaderLen(ip: seq<Byte>): nat requires |ip| >= IPH_LEN {
    if IsUdp(ip) then IPUDPH_LEN else IPH_LEN
  }

  predicate Unspecified(a: Addr) { a == Zeros(16) }
  predicate LinkLocal(a: Addr) { a[0] == 0xFE && a[1] == 0x80 }
  predicate Multicast(a: Addr) { a[0] == 0xFF }

  /** The eight address octets derived from a link-layer address. */
  function IidOf(ll: LlAddr): (r: seq<Byte>)
    ensures |r| == 8
  {
    [ll[0] ^ 0x02] + ll[1..]
  }

  predicate MacBased(a: Addr, ll: LlAddr) { a[8..] == IidOf(ll) }
  predicate Iid16(a: Addr) { a[8..14] == [0, 0, 0, 0xff, 0xfe, 0] }
  predicate Mcast8(a: Addr) { a[1] == 2 && a[2..15] == Zeros(13) }
  predicate Mcast32(a: Addr) { a[2..13] == Zeros(11) }
  predicate Mcast48(a: Addr) { a[2..11] == Zeros(9) }

  // ------------------------------------------------------------ context lookups

  function ByPrefix(t: Table, a: Addr): (r: Option<Context>)
    ensures r.Some? ==> r.value in t && r.value.used == 1 && r.value.prefix == a[..8]
  {
    if t == [] then None
    else if t[0].used == 1 && t[0].prefix == a[..8] then Some(t[0])
    else ByPrefix(t[1..], a)
  }

  function ByNumber(t: Table, n: Byte): (r: Option<Context>)
    ensures r.Some? ==> r.value in t && r.value.used == 1 && r.value.number == n
  {
    if t == [] then None
    else if t[0].used == 1 && t[0].number == n then Some(t[0])
    else ByNumber(t[1..], n)
  }

  /** A multicast context matches on its `used / 8` first prefix octets. */
  predicate McastMatch(c: Context, a: Addr) {
    && 0 < c.used < 256 && c.used == Val(a[3])
    && c.used / 8 <= |c.prefix| && c.used / 8 <= 12
    && c.prefix[..c.used / 8] == a[4..4 + c.used / 8]
  }

  function ByMcastPrefix(t: Table, a: Addr): (r: Option<Context>)
  {
    if t == [] then None
    else if McastMatch(t[0], a) then Some(t[0])
    else ByMcastPrefix(t[1..], a)
  }

  lemma ByNumberFindsIt(t: Table, c: Context)
    requires WellFormed(t) && c in t && c.used == 1
    ensures ByNumber(t, c.number) == Some(c)
  {
    if t[0] != c {
      assert forall i :: 1 <= i < |t| ==> t[1..][i - 1] == t[i];
      var k :| 0 <= k < |t| && t[k] == c;
      if t[0].used == 1 { assert t[0].number != t[k].number; }
      assert t[1..][k - 1] == c;
      ByNumberFindsIt(t[1..], c);
    }
  }

  // ------------------------------------------------------------------ compressor

  /** What one header field contributes: encoding bits and inline octets. */
  datatype Part = Part(flags: Byte, bytes: seq<Byte>)

  /** ECN | DSCP, from the DSCP | ECN order of the IPv6 header. */
  function SwappedClass(vtc: Byte, tcflow: Byte): Byte {
    var t := (vtc << 4) | (tcflow >> 4);
    ((t & 0x03) << 6) | (t >> 2)
  }

  function TfPart(ip: seq<Byte>): (r: Part)
    requires |ip| >= IPH_LEN
    ensures |r.bytes| <= 4
  {
    var tc := SwappedClass(ip[0], ip[1]);
    if ip[1] & 0x0F == 0 && ip[2] == 0 && ip[3] == 0 then
      if ip[0] & 0x0F == 0 && ip[1] & 0xF0 == 0 then Part(FL_C | TC_C, [])
      else Part(FL_C, [tc])
    else if ip[0] & 0x0F == 0 && ip[1] & 0xC0 == 0 then
      Part(TC_C, [(tc & 0xC0) | (ip[1] & 0x0F), ip[2], ip[3]])
    else
      Part(0, [tc, ip[1] & 0x0F, ip[2], ip[3]])
  }

  function NhPart(ip: seq<Byte>): (r: Part)
    requires |ip| >= IPH_LEN
    ensures |r.bytes| <= 1
  {
    if IsUdp(ip) then Part(NH_C, []) else Part(0, [ip[6]])
  }

  function TtlPart(ip: seq<Byte>): (r: Part)
    requires |ip| >= IPH_LEN
    ensures |r.bytes| <= 1
  {
    if ip[7] == 1 then Part(1, [])
    else if ip[7] == 64 then Part(2, [])
    else if ip[7] == 255 then Part(3, [])
    else Part(0, [ip[7]])
  }

  /** `compress_addr_64` with the mode in the two low bits. */
  function IidPart(a: Addr, ll: LlAddr): (r: Part)
    ensures 1 <= r.flags <= 3 && |r.bytes| <= 8
  {
    if MacBased(a, ll) then Part(3, [])
    else if Iid16(a) then Part(2, a[14..])
    else Part(1, a[8..])
  }

  predicate SrcLinkLocalBranch(ip: seq<Byte>)
    requires |ip| >= IPH_LEN
  {
    LinkLocal(Src(ip)) && Dst(ip)[2..8] == Zeros(6)
  }

  function SrcPart(t: Table, ip: seq<Byte>, ll: LlAddr): (r: Part)
    requires |ip| >= IPH_LEN
    ensures |r.bytes| <= 16
  {
    var a := Src(ip);
    if Unspecified(a) then Part(SAC, [])
    else if ByPrefix(t, a).Some? then
      var p := IidPart(a, ll); Part(SAC | (p.flags << 4), p.bytes)
    else if SrcLinkLocalBranch(ip) then
      var p := IidPart(a, ll); Part(p.flags << 4, p.bytes)
    else Part(0, a)
  }

  function DstPart(t: Table, ip: seq<Byte>, ll: LlAddr): (r: Part)
    requires |ip| >= IPH_LEN
    ensures |r.bytes| <= 16
  {
    var a := Dst(ip);
    if Multicast(a) then
      if ByMcastPrefix(t, a).Some? then Part(M | DAC, a[1..3] + a[12..])
      else if Mcast8(a) then Part(M | 3, [a[15]])
      else if Mcast32(a) then Part(M | 2, [a[1]] + a[13..])
      else if Mcast48(a) then Part(M | 1, [a[1]] + a[11..])
      else Part(M, a)
    else if ByPrefix(t, a).Some? then
      var p := IidPart(a, ll); Part(DAC | p.flags, p.bytes)
    else if LinkLocal(a) && a[2..8] == Zeros(6) then IidPart(a, ll)
    else Part(0, a)
  }

  predicate Port4(p: seq<Byte>) requires |p| == 2 { p[0] == 0xF0 && p[1] & 0xF0 == 0xB0 }
  predicate Port8(p: seq<Byte>) requires |p| == 2 { p[0] == 0xF0 }

  function PortsPart(src: seq<Byte>, dst: seq<Byte>): (r: seq<Byte>)
    requires |src| == |dst| == 2
    ensures 2 <= |r| <= 5
  {
    if Port4(src) && Port4(dst) then [0xF3, ((src[1] - 0xB0) << 4) + (dst[1] - 0xB0)]
    else if Port8(dst) then [0xF1, src[0], src[1], dst[1]]
    else if Port8(src) then [0xF2, src[1], dst[0], dst[1]]
    else [0xF0, src[0], src[1], dst[0], dst[1]]
  }

  function UdpPart(ip: seq<Byte>): (r: seq<Byte>)
    requires |ip| >= IPUDPH_LEN
    ensures |r| <= 7
  {
    if IsUdp(ip) then PortsPart(ip[40..42], ip[42..44]) + ip[46..48] else []
  }

  /** Whether a context octet is sent. `other` is what an earlier packet left in `otherContext`. */
  predicate SendsCid(t: Table, other: Option<Context>, ip: seq<Byte>)
    requires |ip| >= IPH_LEN
  {
    var d, s := ByPrefix(t, Dst(ip)), ByPrefix(t, Src(ip));
    if d.Some? && s.Some? then !(d.value.number == 0 && s.value.number == 0)
    else if d.Some? then true
    else other.Some?
  }

  function NextOther(t: Table, other: Option<Context>, ip: seq<Byte>): Option<Context>
    requires |ip| >= IPH_LEN
  {
    if ByPrefix(t, Dst(ip)).Some? then ByPrefix(t, Src(ip)) else other
  }

  function SciBits(t: Table, ip: seq<Byte>): Byte
    requires |ip| >= IPH_LEN
  {
    var c := ByPrefix(t, Src(ip));
    if !Unspecified(Src(ip)) && c.Some? then c.value.number << 4 else 0
  }

  function DciBits(t: Table, ip: seq<Byte>): Byte
    requires |ip| >= IPH_LEN
  {
    var c := ByPrefix(t, Dst(ip));
    if !Multicast(Dst(ip)) && c.Some? then c.value.number else 0
  }

  /** The SCI | DCI octet. */
  function ContextOctet(t: Table, ip: seq<Byte>): Byte
    requires |ip| >= IPH_LEN
  {
    SciBits(t, ip) | DciBits(t, ip)
  }

  function CidPart(t: Table, other: Option<Context>, ip: seq<Byte>): (r: Part)
    requires |ip| >= IPH_LEN
    ensures |r.bytes| <= 1
  {
    if SendsCid(t, other, ip) then Part(CID, [ContextOctet(t, ip)]) else Part(0, [])
  }

  function Iphc0(ip: seq<Byte>): Byte requires |ip| >= IPH_LEN {
    DISPATCH_IPHC | TfPart(ip).flags | NhPart(ip).flags | TtlPart(ip).flags
  }

  function Iphc1(t: Table, other: Option<Context>, ip: seq<Byte>, sll: LlAddr, dll: LlAddr): Byte
    requires |ip| >= IPH_LEN
  {
    CidPart(t, other, ip).flags | SrcPart(t, ip, sll).flags | DstPart(t, ip, dll).flags
  }

  /** The inline octets of each field, in the order they are sent. */
  datatype Fields = Fields(cid: seq<Byte>, tf: seq<Byte>, nh: seq<Byte>, ttl: seq<Byte>,
                           src: seq<Byte>, dst: seq<Byte>, udp: seq<Byte>)
  {
    function Join(): seq<Byte> { cid + (tf + (nh + (ttl + (src + (dst + udp))))) }

    function SrcPos(hdr: nat): nat { hdr + 2 + |cid| + |tf| + |nh| + |ttl| }

    /** Every field lies where the earlier ones end, in a header that begins at `hdr`. */
    predicate LaidOut(frame: seq<Byte>, hdr: nat) {
      && At(frame, hdr + 2, cid) && At(frame, hdr + 2 + |cid|, tf) && At(frame, hdr + 2 + |cid| + |tf|, nh)
      && At(frame, hdr + 2 + |cid| + |tf| + |nh|, ttl) && At(frame, SrcPos(hdr), src)
      && At(frame, SrcPos(hdr) + |src|, dst) && At(frame, SrcPos(hdr) + |src| + |dst|, udp)
    }
  }

  function InlineFields(t: Table, other: Option<Context>, ip: seq<Byte>, sll: LlAddr, dll: LlAddr): Fields
    requires |ip| >= IPUDPH_LEN
  {
    Fields(CidPart(t, other, ip).bytes, TfPart(ip).bytes, NhPart(ip).bytes, TtlPart(ip).bytes,
           SrcPart(t, ip, sll).bytes, DstPart(t, ip, dll).bytes, UdpPart(ip))
  }

  /** `compress_hdr_hc06`: the octets from the dispatch to the end of the compressed headers. */
  function Compress(t: Table, other: Option<Context>, ip: seq<Byte>, sll: LlAddr, dll: LlAddr): seq<Byte>
    requires |ip| >= IPUDPH_LEN
  {
    [Iphc0(ip), Iphc1(t, other, ip, sll, dll)] + InlineFields(t, other, ip, sll, dll).Join()
  }

  // ---------------------------------------------------------------- decompressor

  /** First four octets of the header, and the next read position. */
  function ReadTf(iphc0: Byte, buf: seq<Byte>, p: nat): (r: (seq<Byte>, nat))
    requires p + 4 <= |buf|
    ensures |r.0| == 4 && p <= r.1 <= p + 4
  {
    var tc := buf[p];
    if iphc0 & FL_C == 0 then
      if iphc0 & TC_C == 0 then
        ([0x60 | ((tc >> 2) & 0x0F), ((tc >> 2) & 0x30) | (tc << 6) | (buf[p + 1] & 0x0F), buf[p + 2], buf[p + 3]], p + 4)
      else
        ([0x60, (tc & 0x0F) | ((tc >> 2) & 0x30), buf[p + 1], buf[p + 2]], p + 3)
    else if iphc0 & TC_C == 0 then
      ([0x60 | ((tc >> 2) & 0x0F), ((tc << 6) & 0xC0) | ((tc >> 2) & 0x30), 0, 0], p + 1)
    else ([0x60, 0, 0, 0], p)
  }

  /** `None`: the next header is left to the UDP decoder. */
  function ReadNh(iphc0: Byte, buf: seq<Byte>, p: nat): (r: (Option<Byte>, nat))
    requires p + 1 <= |buf|
    ensures p <= r.1 <= p + 1
  {
    if iphc0 & NH_C == 0 then (Some(buf[p]), p + 1) else (None, p)
  }

  function ReadTtl(iphc0: Byte, buf: seq<Byte>, p: nat): (r: (Byte, nat))
    requires p + 1 <= |buf|
    ensures p <= r.1 <= p + 1
  {
    var m := iphc0 & 0x03;
    if m == 1 then (1, p) else if m == 2 then (64, p) else if m == 3 then (255, p) else (buf[p], p + 1)
  }

  /** `uncompress_addr`: `pref` prefix octets, zeros, then `post` octets from the frame or an
      interface identifier made from the link-layer address. */
  function ReadAddr(prefix: seq<Byte>, pref: nat, post: nat, ll: LlAddr, buf: seq<Byte>, p: nat): (r: (Addr, nat))
    requires pref <= |prefix| && pref + post <= 16 && pref <= 8 && p + post <= |buf|
    ensures p <= r.1 == p + post
  {
    if post == 0 then
      if pref == 0 then (Zeros(16), p)
      else (prefix[..pref] + Zeros(8 - pref) + IidOf(ll), p)
    else
      var a := prefix[..pref] + Zeros(16 - pref - post) + buf[p..p + post];
      (if post == 2 then a[11 := 0xff][12 := 0xfe] else a, p + post)
  }

  function ReadSrc(t: Table, iphc1: Byte, cid: Byte, ll: LlAddr, buf: seq<Byte>, p: nat): (r: Option<(Addr, nat)>)
    requires p + 16 <= |buf|
    ensures r.Some? ==> p <= r.value.1 <= p + 16
  {
    var m := (iphc1 >> 4) & 0x03;
    if iphc1 & SAC != 0 then
      if m == 0 then Some(ReadAddr([], 0, 0, ll, buf, p))
      else
        var c := ByNumber(t, if iphc1 & CID != 0 then cid >> 4 else 0);
        if c.None? then None
        else Some(ReadAddr(c.value.prefix, 8, if m == 1 then 8 else if m == 2 then 2 else 0, ll, buf, p))
    else
      Some(ReadPlain(m, ll, buf, p))
  }

  /** Link-local or full unicast form, shared by source and destination. */
  function ReadPlain(m: Byte, ll: LlAddr, buf: seq<Byte>, p: nat): (r: (Addr, nat))
    requires p + 16 <= |buf|
    ensures p <= r.1 <= p + 16
  {
    if m == 0 then ReadAddr([], 0, 16, ll, buf, p)
    else ReadAddr(LL_PREFIX, 2, if m == 1 then 8 else if m == 2 then 2 else 0, ll, buf, p)
  }

  function ReadDst(t: Table, iphc1: Byte, cid: Byte, ll: LlAddr, buf: seq<Byte>, p: nat): (r: Option<(Addr, nat)>)
    requires p + 16 <= |buf|
    ensures r.Some? ==> p <= r.value.1 <= p + 16
  {
    var m := iphc1 & 0x03;
    if iphc1 & M != 0 then
      if iphc1 & DAC != 0 then None   // the test on iphc1 << 6 never lets this form through
      else if m == 0 then Some(ReadAddr([], 0, 16, ll, buf, p))
      else if m == 1 then Some(ReadAddr([0xFF, buf[p]], 2, 5, ll, buf, p + 1))
      else if m == 2 then Some(ReadAddr([0xFF, buf[p]], 2, 3, ll, buf, p + 1))
      else Some(ReadAddr([0xFF, 0x02], 2, 1, ll, buf, p))
    else if iphc1 & DAC != 0 then
      var c := ByNumber(t, if iphc1 & CID != 0 then cid & 0x0F else 0);
      if c.None? then None
      else if m == 0 then Some(ReadAddr([], 0, 0, ll, buf, p))
      else Some(ReadAddr(c.value.prefix, 8, if m == 1 then 8 else if m == 2 then 2 else 0, ll, buf, p))
    else
      Some(ReadPlain(m, ll, buf, p))
  }

  function ReadPorts(buf: seq<Byte>, p: nat): (r: (seq<Byte>, nat))
    requires p + 5 <= |buf|
    ensures |r.0| == 4 && p <= r.1 <= p + 5
  {
    var m := buf[p] & 0x03;
    if m == 0 then ([buf[p + 1], buf[p + 2], buf[p + 3], buf[p + 4]], p + 5)
    else if m == 1 then ([buf[p + 1], buf[p + 2], 0xF0, buf[p + 3]], p + 4)
    else if m == 2 then ([0xF0, buf[p + 1], buf[p + 2], buf[p + 3]], p + 4)
    else ([0xF0, 0xB0 + (buf[p + 1] >> 4), 0xF0, 0xB0 + (buf[p + 1] & 0x0F)], p + 2)
  }

  /** Ports, checksum if sent, and the next read position; `None` for another NHC. */
  function ReadUdp(buf: seq<Byte>, p: nat): (r: Option<(seq<Byte>, Option<seq<Byte>>, nat)>)
    requires p + 7 <= |buf|
    ensures r.Some? ==> |r.value.0| == 4 && p <= r.value.2 <= p + 7
    ensures r.Some? && r.value.1.Some? ==> |r.value.1.value| == 2
  {
    if buf[p] & 0xF8 != NHC_UDP then None
    else
      var (ports, q) := ReadPorts(buf, p);
      if buf[p] & NHC_UDP_CHECKSUMC == 0 then Some((ports, Some(buf[q..q + 2]), q + 2))
      else Some((ports, None, q))
  }

  /** What a run of `uncompress_hdr_hc06` leaves behind. A run that gives up early (`!ok`) keeps
      the two lengths it started with. */
  datatype Decoded = Decoded(buf: seq<Byte>, hdrLen: nat, uncomp: nat, ok: bool)

  function LengthField(ipLen: nat, lpLen: nat, hdrLen: nat, uncomp: nat): (r: seq<Byte>)
    ensures |r| == 2
  {
    if ipLen == 0 then [0, Low(lpLen - hdrLen + uncomp - IPH_LEN)] else Be16(ipLen - IPH_LEN)
  }

  /** `uncompress_hdr_hc06` run on the frame buffer from `hdr` on, writing over `was`. */
  function Decompress(t: Table, frame: seq<Byte>, hdr: nat, sll: LlAddr, dll: LlAddr,
                      ipLen: nat, lpLen: nat, was: seq<Byte>): (d: Decoded)
    requires hdr + 2 + MAX_HDR <= |frame| && |was| >= IPUDPH_LEN
    ensures |d.buf| == |was| && d.uncomp <= IPUDPH_LEN
    ensures !d.ok ==> d.hdrLen == hdr && d.uncomp == 0
  {
    var iphc0, iphc1, cid := frame[hdr], frame[hdr + 1], frame[hdr + 2];
    var p0 := if iphc1 & CID != 0 then hdr + 3 else hdr + 2;
    var (tf, p1) := ReadTf(iphc0, frame, p0);
    var b1 := Splice(was, 0, tf);
    var (nh, p2) := ReadNh(iphc0, frame, p1);
    var b2 := if nh.Some? then b1[6 := nh.value] else b1;
    var (ttl, p3) := ReadTtl(iphc0, frame, p2);
    DecompressAddresses(t, frame, hdr, sll, dll, ipLen, lpLen, p3, b2[7 := ttl])
  }

  /** From the addresses on, which start at `p`. */
  function DecompressAddresses(t: Table, frame: seq<Byte>, hdr: nat, sll: LlAddr, dll: LlAddr, ipLen: nat, lpLen: nat,
                               p: nat, b: seq<Byte>): (d: Decoded)
    requires hdr + 2 < |frame| && p + 39 <= |frame| && |b| >= IPUDPH_LEN
    ensures |d.buf| == |b| && d.uncomp <= IPUDPH_LEN
    ensures !d.ok ==> d.hdrLen == hdr && d.uncomp == 0
  {
    var iphc0, iphc1, cid := frame[hdr], frame[hdr + 1], frame[hdr + 2];
    var src := ReadSrc(t, iphc1, cid, sll, frame, p);
    if src.None? then Decoded(b, hdr, 0, false)
    else
      var b4 := Splice(b, 8, src.value.0);
      var dst := ReadDst(t, iphc1, cid, dll, frame, src.value.1);
      if dst.None? then Decoded(b4, hdr, 0, false)
      else
        var b5 := Splice(b4, 24, dst.value.0);
        DecompressRest(frame, iphc0, dst.value.1, ipLen, lpLen, b5)
  }

  /** The UDP header, if one follows, and the length fields. */
  function DecompressRest(frame: seq<Byte>, iphc0: Byte, p: nat, ipLen: nat, lpLen: nat, b: seq<Byte>): (d: Decoded)
    requires p + 7 <= |frame| && |b| >= IPUDPH_LEN
    ensures |d.buf| == |b| && d.ok && d.uncomp <= IPUDPH_LEN
  {
    var udp := if iphc0 & NH_C != 0 then ReadUdp(frame, p) else None;
    var (b1, q, uncomp) :=
      if udp.Some? then
        var (ports, sum, q) := udp.value;
        var c := Splice(b[6 := PROTO_UDP], 40, ports);
        (if sum.Some? then Splice(c, 46, sum.value) else c, q, IPUDPH_LEN)
      else (b, p, IPH_LEN);
    var b2 := Splice(b1, 4, LengthField(ipLen, lpLen, q, uncomp));
    Decoded(if b2[6] == PROTO_UDP then Splice(b2, 44, b2[4..6]) else b2, q, uncomp, true)
  }

  // ------------------------------------------------------- one field at a time

  /** Unswapping each of the four forms of the first two octets gives them back. */
  lemma ClassBits(vtc: Byte, tcflow: Byte)
    ensures var tc := SwappedClass(vtc, tcflow);
            && (tc >> 2) & 0x0F == vtc & 0x0F
            && ((tc >> 2) & 0x30) | (tc << 6) | ((tcflow & 0x0F) & 0x0F) == tcflow
            && (tcflow & 0x0F == 0 ==> ((tc << 6) & 0xC0) | ((tc >> 2) & 0x30) == tcflow)
            && var b := (tc & 0xC0) | (tcflow & 0x0F);
               (vtc & 0x0F == 0 && tcflow & 0xC0 == 0 ==> (b & 0x0F) | ((b >> 2) & 0x30) == tcflow)
    ensures tcflow & 0x0F == 0 && tcflow & 0xF0 == 0 ==> tcflow == 0
  {}

  /** What the decompressor makes of each form, octet by octet. */
  lemma ReadTfForms(iphc0: Byte, buf: seq<Byte>, p: nat, flags: Byte)
    requires p + 4 <= |buf| && iphc0 & 0x18 == flags
    ensures var r, b := ReadTf(iphc0, buf, p), buf[p];
            && (flags == FL_C | TC_C ==> r == ([0x60, 0, 0, 0], p))
            && (flags == FL_C ==> r == ([0x60 | ((b >> 2) & 0x0F), ((b << 6) & 0xC0) | ((b >> 2) & 0x30), 0, 0], p + 1))
            && (flags == TC_C ==> r == ([0x60, (b & 0x0F) | ((b >> 2) & 0x30), buf[p + 1], buf[p + 2]], p + 3))
            && (flags == 0 ==> r == ([0x60 | ((b >> 2) & 0x0F), ((b >> 2) & 0x30) | (b << 6) | (buf[p + 1] & 0x0F), buf[p + 2], buf[p + 3]], p + 4))
  {}

  lemma TfInlineAll(ip: seq<Byte>, iphc0: Byte, buf: seq<Byte>, p: nat)
    requires |ip| >= IPH_LEN && p + 4 <= |buf|
    requires At(buf, p, TfPart(ip).bytes) && iphc0 & 0x18 == TfPart(ip).flags == 0
    ensures ReadTf(iphc0, buf, p) == ([0x60 | (ip[0] & 0x0F), ip[1], ip[2], ip[3]], p + 4)
  {
    var bs := TfPart(ip).bytes;
    assert buf[p..p + 4] == bs;
    assert buf[p] == bs[0] && buf[p + 1] == bs[1] && buf[p + 2] == bs[2] && buf[p + 3] == bs[3];
    ClassBits(ip[0], ip[1]);
    ReadTfForms(iphc0, buf, p, 0);
  }

  lemma TfInlineClass(ip: seq<Byte>, iphc0: Byte, buf: seq<Byte>, p: nat)
    requires |ip| >= IPH_LEN && p + 4 <= |buf|
    requires At(buf, p, TfPart(ip).bytes) && iphc0 & 0x18 == TfPart(ip).flags == FL_C
    ensures ReadTf(iphc0, buf, p) == ([0x60 | (ip[0] & 0x0F), ip[1], ip[2], ip[3]], p + 1)
  {
    var bs := TfPart(ip).bytes;
    assert buf[p..p + 1] == bs;
    assert buf[p] == bs[0];
    ClassBits(ip[0], ip[1]);
    ReadTfForms(iphc0, buf, p, FL_C);
  }

  lemma TfInlineFlow(ip: seq<Byte>, iphc0: Byte, buf: seq<Byte>, p: nat)
    requires |ip| >= IPH_LEN && p + 4 <= |buf|
    requires At(buf, p, TfPart(ip).bytes) && iphc0 & 0x18 == TfPart(ip).flags == TC_C
    ensures ReadTf(iphc0, buf, p) == ([0x60 | (ip[0] & 0x0F), ip[1], ip[2], ip[3]], p + 3)
  {
    var bs := TfPart(ip).bytes;
    assert buf[p..p + 3] == bs;
    assert buf[p] == bs[0] && buf[p + 1] == bs[1] && buf[p + 2] == bs[2];
    ClassBits(ip[0], ip[1]);
    ReadTfForms(iphc0, buf, p, TC_C);
  }

  lemma TfRoundTrip(ip: seq<Byte>, iphc0: Byte, buf: seq<Byte>, p: nat)
    requires |ip| >= IPH_LEN && p + 4 <= |buf|
    requires At(buf, p, TfPart(ip).bytes) && iphc0 & 0x18 == TfPart(ip).flags
    ensures ReadTf(iphc0, buf, p) == ([0x60 | (ip[0] & 0x0F), ip[1], ip[2], ip[3]], p + |TfPart(ip).bytes|)
  {
    var flags := TfPart(ip).flags;
    if flags == 0 {
      TfInlineAll(ip, iphc0, buf, p);
    } else if flags == FL_C {
      TfInlineClass(ip, iphc0, buf, p);
    } else if flags == TC_C {
      TfInlineFlow(ip, iphc0, buf, p);
    } else {
      ClassBits(ip[0], ip[1]);
      ReadTfForms(iphc0, buf, p, flags);
    }
  }

  lemma NhRoundTrip(ip: seq<Byte>, iphc0: Byte, buf: seq<Byte>, p: nat)
    requires |ip| >= IPH_LEN && p + 1 <= |buf|
    requires At(buf, p, NhPart(ip).bytes) && iphc0 & NH_C == NhPart(ip).flags
    ensures ReadNh(iphc0, buf, p) == (if IsUdp(ip) then None else Some(ip[6]), p + |NhPart(ip).bytes|)
  {
    var bs := NhPart(ip).bytes;
    assert forall i :: 0 <= i < |bs| ==> buf[p + i] == bs[i];
  }

  lemma TtlRoundTrip(ip: seq<Byte>, iphc0: Byte, buf: seq<Byte>, p: nat)
    requires |ip| >= IPH_LEN && p + 1 <= |buf|
    requires At(buf, p, TtlPart(ip).bytes) && iphc0 & 0x03 == TtlPart(ip).flags
    ensures ReadTtl(iphc0, buf, p) == (ip[7], p + |TtlPart(ip).bytes|)
  {
    var bs := TtlPart(ip).bytes;
    assert forall i :: 0 <= i < |bs| ==> buf[p + i] == bs[i];
  }

  /** The three interface-identifier forms, under any prefix of 2 or 8 octets padded to 8. */
  lemma IidRoundTrip(a: Addr, ll: LlAddr, prefix: seq<Byte>, pref: nat, buf: seq<Byte>, p: nat)
    requires pref <= |prefix| && pref <= 8 && At(buf, p, IidPart(a, ll).bytes) && 0 < pref
    ensures var m := IidPart(a, ll).flags;
            var post := if m == 1 then 8 else if m == 2 then 2 else 0;
            ReadAddr(prefix, pref, post, ll, buf, p) == (prefix[..pref] + Zeros(8 - pref) + a[8..], p + post)
  {
    var part := IidPart(a, ll);
    var post := if part.flags == 1 then 8 else if part.flags == 2 then 2 else 0;
    var r := ReadAddr(prefix, pref, post, ll, buf, p).0;
    var want := prefix[..pref] + Zeros(8 - pref) + a[8..];
    if part.flags == 2 {
      assert forall i :: 8 <= i < 14 ==> a[i] == a[8..14][i - 8];
    }
    forall i | 0 <= i < 16 ensures r[i] == want[i] {}
    assert r == want;
  }

  lemma PlainRoundTrip(a: Addr, ll: LlAddr, buf: seq<Byte>, p: nat)
    requires p + 16 <= |buf| && At(buf, p, IidPart(a, ll).bytes)
    ensures ReadPlain(IidPart(a, ll).flags, ll, buf, p)
            == (LL_PREFIX + Zeros(6) + a[8..], p + |IidPart(a, ll).bytes|)
  {
    IidRoundTrip(a, ll, LL_PREFIX, 2, buf, p);
    assert LL_PREFIX[..2] == LL_PREFIX;
  }

  lemma CtxRoundTrip(a: Addr, ll: LlAddr, prefix: Prefix64, buf: seq<Byte>, p: nat)
    requires p + 16 <= |buf| && At(buf, p, IidPart(a, ll).bytes)
    ensures var m := IidPart(a, ll).flags;
            ReadAddr(prefix, 8, if m == 1 then 8 else if m == 2 then 2 else 0, ll, buf, p)
            == (prefix + a[8..], p + |IidPart(a, ll).bytes|)
  {
    IidRoundTrip(a, ll, prefix, 8, buf, p);
    assert prefix[..8] + Zeros(0) == prefix;
  }

  lemma FullRoundTrip(a: Addr, ll: LlAddr, buf: seq<Byte>, p: nat)
    requires p + 16 <= |buf| && At(buf, p, a)
    ensures ReadAddr([], 0, 16, ll, buf, p) == (a, p + 16)
  {
    assert [][..0] + Zeros(0) + buf[p..p + 16] == a;
  }

  /** The source address as the receiver sees it, when the frame names context `n`. */
  function SeenSrc(t: Table, n: Byte, ip: seq<Byte>): Option<Addr>
    requires |ip| >= IPH_LEN
  {
    var a := Src(ip);
    if Unspecified(a) then Some(a)
    else if ByPrefix(t, a).Some? then
      var c := ByNumber(t, n);
      if c.Some? then Some(c.value.prefix + a[8..]) else None
    else if SrcLinkLocalBranch(ip) then Some(LL_PREFIX + Zeros(6) + a[8..])
    else Some(a)
  }

  lemma SrcMode(iphc1: Byte, f: Byte, m: Byte)
    requires m < 4 && (f == m << 4 || f == SAC | (m << 4)) && iphc1 & 0x70 == f
    ensures (iphc1 >> 4) & 0x03 == m && (iphc1 & SAC != 0 <==> f != m << 4)
  {}

  lemma SrcRoundTrip(t: Table, ip: seq<Byte>, ll: LlAddr, iphc1: Byte, cid: Byte, buf: seq<Byte>, p: nat)
    requires |ip| >= IPH_LEN && p + 16 <= |buf|
    requires At(buf, p, SrcPart(t, ip, ll).bytes) && iphc1 & 0x70 == SrcPart(t, ip, ll).flags
    ensures var seen := SeenSrc(t, if iphc1 & CID != 0 then cid >> 4 else 0, ip);
            ReadSrc(t, iphc1, cid, ll, buf, p)
            == if seen.Some? then Some((seen.value, p + |SrcPart(t, ip, ll).bytes|)) else None
  {
    var a, part := Src(ip), SrcPart(t, ip, ll);
    if Unspecified(a) {
      SrcMode(iphc1, part.flags, 0);
    } else if ByPrefix(t, a).Some? {
      SrcMode(iphc1, part.flags, IidPart(a, ll).flags);
      var c := ByNumber(t, if iphc1 & CID != 0 then cid >> 4 else 0);
      if c.Some? { CtxRoundTrip(a, ll, c.value.prefix, buf, p); }
    } else if SrcLinkLocalBranch(ip) {
      SrcMode(iphc1, part.flags, IidPart(a, ll).flags);
      PlainRoundTrip(a, ll, buf, p);
    } else {
      SrcMode(iphc1, part.flags, 0);
      FullRoundTrip(a, ll, buf, p);
    }
  }

  lemma DstMode(iphc1: Byte, f: Byte, m: Byte)
    requires m < 4 && (f == m || f == DAC | m || f == M | m) && iphc1 & 0x0F == f
    ensures iphc1 & 0x03 == m && (iphc1 & DAC != 0 <==> f == DAC | m) && (iphc1 & M != 0 <==> f == M | m)
  {}

  /** A multicast form: an optional flags octet, a run of zeros, the last `post` octets. */
  lemma McastForm(a: Addr, second: Byte, post: nat, ll: LlAddr, buf: seq<Byte>, p: nat)
    requires 0 < post < 14 && post != 2 && p + post <= |buf|
    requires a[0] == 0xFF && a[1] == second && a[2..16 - post] == Zeros(14 - post) && At(buf, p, a[16 - post..])
    ensures ReadAddr([0xFF, second], 2, post, ll, buf, p) == (a, p + post)
  {
    var prefix: seq<Byte> := [0xFF, second];
    assert prefix[..2] == prefix == a[..2];
    assert a == a[..2] + a[2..16 - post] + a[16 - post..];
  }

  lemma McastRoundTrip(a: Addr, ll: LlAddr, buf: seq<Byte>, p: nat, bytes: seq<Byte>)
    requires p + 16 <= |buf| && Multicast(a) && At(buf, p, bytes)
    ensures Mcast8(a) && bytes == [a[15]] ==> ReadAddr([0xFF, 0x02], 2, 1, ll, buf, p) == (a, p + 1)
    ensures Mcast32(a) && bytes == [a[1]] + a[13..] ==> ReadAddr([0xFF, buf[p]], 2, 3, ll, buf, p + 1) == (a, p + 4)
    ensures Mcast48(a) && bytes == [a[1]] + a[11..] ==> ReadAddr([0xFF, buf[p]], 2, 5, ll, buf, p + 1) == (a, p + 6)
    ensures bytes == a ==> ReadAddr([], 0, 16, ll, buf, p) == (a, p + 16)
  {
    if bytes == a { FullRoundTrip(a, ll, buf, p); }
    if Mcast8(a) && bytes == [a[15]] {
      assert a[15..] == [a[15]];
      McastForm(a, 0x02, 1, ll, buf, p);
    }
    if Mcast32(a) && bytes == [a[1]] + a[13..] {
      AtConcat(buf, p, [a[1]], a[13..]);
      assert buf[p..p + 1][0] == a[1];
      McastForm(a, buf[p], 3, ll, buf, p + 1);
    }
    if Mcast48(a) && bytes == [a[1]] + a[11..] {
      AtConcat(buf, p, [a[1]], a[11..]);
      assert buf[p..p + 1][0] == a[1];
      McastForm(a, buf[p], 5, ll, buf, p + 1);
    }
  }

  /** A destination survives unless it takes the context-based multicast form. */
  lemma DstRoundTrip(t: Table, ip: seq<Byte>, ll: LlAddr, iphc1: Byte, cid: Byte, buf: seq<Byte>, p: nat)
    requires |ip| >= IPH_LEN && p + 16 <= |buf| && WellFormed(t)
    requires At(buf, p, DstPart(t, ip, ll).bytes) && iphc1 & 0x0F == DstPart(t, ip, ll).flags
    requires !Multicast(Dst(ip)) && ByPrefix(t, Dst(ip)).Some? ==>
               ByPrefix(t, Dst(ip)).value.number == if iphc1 & CID != 0 then cid & 0x0F else 0
    ensures ReadDst(t, iphc1, cid, ll, buf, p)
            == if Multicast(Dst(ip)) && ByMcastPrefix(t, Dst(ip)).Some? then None
               else Some((Dst(ip), p + |DstPart(t, ip, ll).bytes|))
  {
    if Multicast(Dst(ip)) { DstMulticast(t, ip, ll, iphc1, cid, buf, p); } else { DstUnicast(t, ip, ll, iphc1, cid, buf, p); }
  }

  lemma DstMulticast(t: Table, ip: seq<Byte>, ll: LlAddr, iphc1: Byte, cid: Byte, buf: seq<Byte>, p: nat)
    requires |ip| >= IPH_LEN && p + 16 <= |buf| && Multicast(Dst(ip))
    requires At(buf, p, DstPart(t, ip, ll).bytes) && iphc1 & 0x0F == DstPart(t, ip, ll).flags
    ensures ReadDst(t, iphc1, cid, ll, buf, p)
            == if ByMcastPrefix(t, Dst(ip)).Some? then None else Some((Dst(ip), p + |DstPart(t, ip, ll).bytes|))
  {
    var a, part := Dst(ip), DstPart(t, ip, ll);
    if ByMcastPrefix(t, a).Some? {
      StatefulMode(iphc1);
    } else {
      DstMode(iphc1, part.flags, if Mcast8(a) then 3 else if Mcast32(a) then 2 else if Mcast48(a) then 1 else 0);
      McastRoundTrip(a, ll, buf, p, part.bytes);
    }
  }

  lemma StatefulMode(iphc1: Byte)
    requires iphc1 & 0x0F == M | DAC
    ensures iphc1 & M != 0 && iphc1 & DAC != 0
  {}

  lemma DstUnicast(t: Table, ip: seq<Byte>, ll: LlAddr, iphc1: Byte, cid: Byte, buf: seq<Byte>, p: nat)
    requires |ip| >= IPH_LEN && p + 16 <= |buf| && WellFormed(t) && !Multicast(Dst(ip))
    requires At(buf, p, DstPart(t, ip, ll).bytes) && iphc1 & 0x0F == DstPart(t, ip, ll).flags
    requires ByPrefix(t, Dst(ip)).Some? ==>
               ByPrefix(t, Dst(ip)).value.number == if iphc1 & CID != 0 then cid & 0x0F else 0
    ensures ReadDst(t, iphc1, cid, ll, buf, p) == Some((Dst(ip), p + |DstPart(t, ip, ll).bytes|))
  {
    hide IidPart, ByPrefix, ReadPlain, ReadAddr;
    var a, part := Dst(ip), DstPart(t, ip, ll);
    if ByPrefix(t, a).Some? {
      var c := ByPrefix(t, a).value;
      DstMode(iphc1, part.flags, IidPart(a, ll).flags);
      ByNumberFindsIt(t, c);
      CtxRoundTrip(a, ll, c.prefix, buf, p);
      assert c.prefix + a[8..] == a;
    } else if LinkLocal(a) && a[2..8] == Zeros(6) {
      DstMode(iphc1, part.flags, part.flags);
      PlainRoundTrip(a, ll, buf, p);
      assert a == LL_PREFIX + a[2..8] + a[8..];
    } else {
      DstMode(iphc1, part.flags, 0);
      PlainFull(a, ll, buf, p);
    }
  }

  lemma PlainFull(a: Addr, ll: LlAddr, buf: seq<Byte>, p: nat)
    requires p + 16 <= |buf| && At(buf, p, a)
    ensures ReadPlain(0, ll, buf, p) == (a, p + 16)
  {
    FullRoundTrip(a, ll, buf, p);
  }

  lemma PortBits(hi: Byte, lo: Byte)
    requires hi & 0xF0 == 0xB0 && lo & 0xF0 == 0xB0
    ensures var b := ((hi - 0xB0) << 4) + (lo - 0xB0);
            0xB0 + (b >> 4) == hi && 0xB0 + (b & 0x0F) == lo
  {}

  lemma PortsRoundTrip(src: seq<Byte>, dst: seq<Byte>, buf: seq<Byte>, p: nat)
    requires |src| == |dst| == 2 && p + 5 <= |buf| && At(buf, p, PortsPart(src, dst))
    ensures ReadPorts(buf, p) == ([src[0], src[1], dst[0], dst[1]], p + |PortsPart(src, dst)|)
    ensures buf[p] & 0xF8 == NHC_UDP && buf[p] & NHC_UDP_CHECKSUMC == 0
  {
    var u := PortsPart(src, dst);
    assert buf[p] == u[0] && buf[p + 1] == u[1];
    assert |u| > 2 ==> buf[p + 2] == u[2] && buf[p + 3] == u[3];
    assert |u| > 4 ==> buf[p + 4] == u[4];
    if Port4(src) && Port4(dst) { PortBits(src[1], dst[1]); }
  }

  lemma UdpRoundTrip(ip: seq<Byte>, buf: seq<Byte>, p: nat)
    requires |ip| >= IPUDPH_LEN && p + 7 <= |buf| && IsUdp(ip)
    requires At(buf, p, UdpPart(ip))
    ensures ReadUdp(buf, p) == Some((ip[40..44], Some(ip[46..48]), p + |UdpPart(ip)|))
  {
    var src, dst, sum := ip[40..42], ip[42..44], ip[46..48];
    AtConcat(buf, p, PortsPart(src, dst), sum);
    PortsRoundTrip(src, dst, buf, p);
    assert [src[0], src[1], dst[0], dst[1]] == ip[40..44];
  }

  // ------------------------------------------------------------- whole headers

  lemma FlagBits(cid: Byte, tf: Byte, nh: Byte, ttl: Byte, src: Byte, dst: Byte)
    requires tf & 0x18 == tf && nh & NH_C == nh && ttl & 0x03 == ttl
    requires (cid == CID || cid == 0) && src & 0x70 == src && dst & 0x0F == dst
    ensures var b := DISPATCH_IPHC | tf | nh | ttl;
            b & 0x18 == tf && b & NH_C == nh && b & 0x03 == ttl && b & 0xE0 == DISPATCH_IPHC
    ensures var b := cid | src | dst;
            b & CID == cid && b & 0x70 == src && b & 0x0F == dst
  {}

  lemma PartMasks(t: Table, other: Option<Context>, ip: seq<Byte>, sll: LlAddr, dll: LlAddr)
    requires |ip| >= IPH_LEN
    ensures TfPart(ip).flags & 0x18 == TfPart(ip).flags && NhPart(ip).flags & NH_C == NhPart(ip).flags
    ensures TtlPart(ip).flags & 0x03 == TtlPart(ip).flags
    ensures SrcPart(t, ip, sll).flags & 0x70 == SrcPart(t, ip, sll).flags
    ensures DstPart(t, ip, dll).flags & 0x0F == DstPart(t, ip, dll).flags
    ensures Iphc0(ip) & 0xE0 == DISPATCH_IPHC && Iphc0(ip) & 0x18 == TfPart(ip).flags
    ensures Iphc0(ip) & NH_C == NhPart(ip).flags && Iphc0(ip) & 0x03 == TtlPart(ip).flags
    ensures var b := Iphc1(t, other, ip, sll, dll);
            && b & CID == CidPart(t, other, ip).flags
            && b & 0x70 == SrcPart(t, ip, sll).flags && b & 0x0F == DstPart(t, ip, dll).flags
  {
    SrcMask(t, ip, sll);
    DstMask(t, ip, dll);
    FlagBits(CidPart(t, other, ip).flags, TfPart(ip).flags, NhPart(ip).flags, TtlPart(ip).flags,
             SrcPart(t, ip, sll).flags, DstPart(t, ip, dll).flags);
  }

  lemma SrcMask(t: Table, ip: seq<Byte>, ll: LlAddr)
    requires |ip| >= IPH_LEN
    ensures SrcPart(t, ip, ll).flags & 0x70 == SrcPart(t, ip, ll).flags
  {}

  lemma DstMask(t: Table, ip: seq<Byte>, ll: LlAddr)
    requires |ip| >= IPH_LEN
    ensures DstPart(t, ip, ll).flags & 0x0F == DstPart(t, ip, ll).flags
  {}

  /** The context number the receiver uses for the source address. */
  function SentSci(t: Table, other: Option<Context>, ip: seq<Byte>): Byte
    requires |ip| >= IPH_LEN
  {
    if SendsCid(t, other, ip) then ContextOctet(t, ip) >> 4 else 0
  }

  lemma ContextBits(s: Byte, d: Byte)
    requires s < 16 && d < 16
    ensures ((s << 4) | d) >> 4 == s && ((s << 4) | d) & 0x0F == d
  {}

  /** Both context numbers travel in the one octet, when it is sent. */
  lemma ContextNumbers(t: Table, other: Option<Context>, ip: seq<Byte>)
    requires |ip| >= IPH_LEN && WellFormed(t)
    ensures !Unspecified(Src(ip)) && ByPrefix(t, Src(ip)).Some? && SendsCid(t, other, ip) ==>
              SentSci(t, other, ip) == ByPrefix(t, Src(ip)).value.number
    ensures !Multicast(Dst(ip)) && ByPrefix(t, Dst(ip)).Some? ==>
              ByPrefix(t, Dst(ip)).value.number == if SendsCid(t, other, ip) then ContextOctet(t, ip) & 0x0F else 0
  {
    var s, d := ByPrefix(t, Src(ip)), ByPrefix(t, Dst(ip));
    var sn: Byte := if !Unspecified(Src(ip)) && s.Some? then s.value.number else 0;
    var dn: Byte := if !Multicast(Dst(ip)) && d.Some? then d.value.number else 0;
    ContextBits(sn, dn);
    assert ContextOctet(t, ip) == (sn << 4) | dn;
  }

  /** What the receiver ends up with: the packet's own octets around the source it sees. */
  function Rebuilt(ip: seq<Byte>, src: Addr, len: seq<Byte>, was: seq<Byte>): (r: seq<Byte>)
    requires |ip| >= IPUDPH_LEN && |len| == 2 && |was| >= IPUDPH_LEN
    ensures |r| == |was|
  {
    var r := RebuiltIp(ip, src, len, was);
    if IsUdp(ip) then Splice(Splice(Splice(r, 40, ip[40..44]), 44, len), 46, ip[46..48]) else r
  }

  function RebuiltIp(ip: seq<Byte>, src: Addr, len: seq<Byte>, was: seq<Byte>): (r: seq<Byte>)
    requires |ip| >= IPUDPH_LEN && |len| == 2 && |was| >= IPUDPH_LEN
    ensures |r| == |was| && forall k :: 40 <= k < |was| ==> r[k] == was[k]
  {
    var head := Splice(Splice(Splice(was, 0, [0x60 | (ip[0] & 0x0F), ip[1], ip[2], ip[3]]), 4, len), 6, ip[6..8]);
    Splice(Splice(head, 8, src), 24, Dst(ip))
  }

  lemma LayoutHead(frame: seq<Byte>, hdr: nat, iphc0: Byte, iphc1: Byte, f: Fields)
    requires At(frame, hdr, [iphc0, iphc1] + f.Join())
    ensures At(frame, hdr + 2, f.Join()) && At(frame, hdr + 2, f.cid)
    ensures frame[hdr] == iphc0 && frame[hdr + 1] == iphc1 && (|f.cid| == 1 ==> frame[hdr + 2] == f.cid[0])
  {
    AtConcat(frame, hdr, [iphc0, iphc1], f.Join());
    assert frame[hdr..hdr + 2] == [iphc0, iphc1];
    AtConcat(frame, hdr + 2, f.cid, f.tf + (f.nh + (f.ttl + (f.src + (f.dst + f.udp)))));
    assert |f.cid| == 1 ==> frame[hdr + 2..hdr + 3] == f.cid;
  }

  lemma Layout(frame: seq<Byte>, hdr: nat, f: Fields)
    requires At(frame, hdr + 2, f.Join())
    ensures f.LaidOut(frame, hdr) && f.SrcPos(hdr) + |f.src| + |f.dst| + |f.udp| == hdr + 2 + |f.Join()|
  {
    hide At;
    var p := hdr + 2;
    AtConcat(frame, p, f.cid, f.tf + (f.nh + (f.ttl + (f.src + (f.dst + f.udp)))));
    p := p + |f.cid|;
    AtConcat(frame, p, f.tf, f.nh + (f.ttl + (f.src + (f.dst + f.udp))));
    p := p + |f.tf|;
    AtConcat(frame, p, f.nh, f.ttl + (f.src + (f.dst + f.udp)));
    p := p + |f.nh|;
    AtConcat(frame, p, f.ttl, f.src + (f.dst + f.udp));
    p := p + |f.ttl|;
    AtConcat(frame, p, f.src, f.dst + f.udp);
    AtConcat(frame, p + |f.src|, f.dst, f.udp);
  }

  /** The fixed header once the fields were read, but for its length. */
  function Fixed(was: seq<Byte>, tf: seq<Byte>, nh: Option<Byte>, ttl: Byte, src: Addr, dst: Addr): (r: seq<Byte>)
    requires |was| >= IPUDPH_LEN && |tf| == 4
    ensures |r| == |was|
  {
    var b1 := Splice(was, 0, tf);
    var b2 := if nh.Some? then b1[6 := nh.value] else b1;
    Splice(Splice(b2[7 := ttl], 8, src), 24, dst)
  }

  /** The decompressor, given what each reader returns. */
  lemma DecompressSteps(t: Table, frame: seq<Byte>, hdr: nat, sll: LlAddr, dll: LlAddr, ipLen: nat, lpLen: nat,
                        was: seq<Byte>, tf: (seq<Byte>, nat), nh: (Option<Byte>, nat), ttl: (Byte, nat),
                        src: Option<(Addr, nat)>, dst: Option<(Addr, nat)>)
    requires hdr + 2 + MAX_HDR <= |frame| && |was| >= IPUDPH_LEN
    requires tf == ReadTf(frame[hdr], frame, if frame[hdr + 1] & CID != 0 then hdr + 3 else hdr + 2)
    requires nh == ReadNh(frame[hdr], frame, tf.1) && ttl == ReadTtl(frame[hdr], frame, nh.1)
    requires src == ReadSrc(t, frame[hdr + 1], frame[hdr + 2], sll, frame, ttl.1)
    requires src.Some? ==> dst == ReadDst(t, frame[hdr + 1], frame[hdr + 2], dll, frame, src.value.1)
    ensures var d := Decompress(t, frame, hdr, sll, dll, ipLen, lpLen, was);
            if src.None? || dst.None? then !d.ok
            else
              dst.value.1 + 7 <= |frame|
              && d == DecompressRest(frame, frame[hdr], dst.value.1, ipLen, lpLen,
                                     Fixed(was, tf.0, nh.0, ttl.0, src.value.0, dst.value.0))
  {
    hide ReadTf, ReadNh, ReadTtl, ReadSrc, ReadDst, DecompressRest;
  }

  /** A header buffer whose length fields are still missing. */
  ghost predicate Unmeasured(ip: seq<Byte>, src: Addr, was: seq<Byte>, b: seq<Byte>) {
    && |ip| >= IPUDPH_LEN && |b| == |was| >= IPUDPH_LEN
    && b[0] == 0x60 | (ip[0] & 0x0F) && b[1] == ip[1] && b[2] == ip[2] && b[3] == ip[3] && b[7] == ip[7]
    && (!IsUdp(ip) ==> b[6] == ip[6])
    && (forall i :: 8 <= i < 24 ==> b[i] == src[i - 8])
    && (forall i :: 24 <= i < 40 ==> b[i] == ip[i])
    && (forall i :: 40 <= i < |b| ==> b[i] == was[i])
  }

  lemma MeasuredPlain(ip: seq<Byte>, src: Addr, was: seq<Byte>, b: seq<Byte>, len: seq<Byte>)
    requires Unmeasured(ip, src, was, b) && |len| == 2 && !IsUdp(ip)
    ensures Splice(b, 4, len) == Rebuilt(ip, src, len, was) && b[6] != PROTO_UDP
  {
    hide Rebuilt, Splice;
    var x, r := Splice(b, 4, len), Rebuilt(ip, src, len, was);
    forall i | 0 <= i < |r| ensures x[i] == r[i] {
      if i < IPH_LEN { RebuiltOctet(ip, src, len, was, i); } else { RebuiltTail(ip, src, len, was, i); }
    }
  }

  lemma MeasuredUdp(ip: seq<Byte>, src: Addr, was: seq<Byte>, b: seq<Byte>, len: seq<Byte>)
    requires Unmeasured(ip, src, was, b) && |len| == 2 && IsUdp(ip)
    ensures var c := Splice(Splice(Splice(b[6 := PROTO_UDP], 40, ip[40..44]), 46, ip[46..48]), 4, len);
            Splice(c, 44, c[4..6]) == Rebuilt(ip, src, len, was)
  {
    var c := Splice(Splice(Splice(b[6 := PROTO_UDP], 40, ip[40..44]), 46, ip[46..48]), 4, len);
    var x, r := Splice(c, 44, c[4..6]), Rebuilt(ip, src, len, was);
    forall i | 0 <= i < |r| ensures x[i] == r[i] {}
  }

  lemma RestRoundTrip(ip: seq<Byte>, frame: seq<Byte>, iphc0: Byte, p: nat, ipLen: nat, lpLen: nat,
                      was: seq<Byte>, src: Addr, b: seq<Byte>)
    requires Unmeasured(ip, src, was, b) && p + 7 <= |frame|
    requires iphc0 & NH_C == NhPart(ip).flags && At(frame, p, UdpPart(ip))
    ensures var q := p + |UdpPart(ip)|;
            DecompressRest(frame, iphc0, p, ipLen, lpLen, b)
            == Decoded(Rebuilt(ip, src, LengthField(ipLen, lpLen, q, HeaderLen(ip)), was), q, HeaderLen(ip), true)
  {
    NhFlag(ip, iphc0);
    if IsUdp(ip) {
      UdpRoundTrip(ip, frame, p);
      RestUdp(ip, frame, iphc0, p, ipLen, lpLen, was, src, b);
    } else {
      RestPlain(ip, frame, iphc0, p, ipLen, lpLen, was, src, b);
    }
  }

  lemma NhFlag(ip: seq<Byte>, iphc0: Byte)
    requires |ip| >= IPH_LEN && iphc0 & NH_C == NhPart(ip).flags
    ensures iphc0 & NH_C != 0 <==> IsUdp(ip)
  {}

  lemma RestUdp(ip: seq<Byte>, frame: seq<Byte>, iphc0: Byte, p: nat, ipLen: nat, lpLen: nat,
                was: seq<Byte>, src: Addr, b: seq<Byte>)
    requires Unmeasured(ip, src, was, b) && p + 7 <= |frame| && IsUdp(ip) && iphc0 & NH_C != 0
    requires ReadUdp(frame, p) == Some((ip[40..44], Some(ip[46..48]), p + |UdpPart(ip)|))
    ensures var q := p + |UdpPart(ip)|;
            DecompressRest(frame, iphc0, p, ipLen, lpLen, b)
            == Decoded(Rebuilt(ip, src, LengthField(ipLen, lpLen, q, IPUDPH_LEN), was), q, IPUDPH_LEN, true)
  {
    hide Rebuilt, ReadUdp, UdpPart, LengthField, Splice;
    MeasuredUdp(ip, src, was, b, LengthField(ipLen, lpLen, p + |UdpPart(ip)|, IPUDPH_LEN));
  }

  lemma RestPlain(ip: seq<Byte>, frame: seq<Byte>, iphc0: Byte, p: nat, ipLen: nat, lpLen: nat,
                  was: seq<Byte>, src: Addr, b: seq<Byte>)
    requires Unmeasured(ip, src, was, b) && p + 7 <= |frame| && !IsUdp(ip) && iphc0 & NH_C == 0
    ensures DecompressRest(frame, iphc0, p, ipLen, lpLen, b)
            == Decoded(Rebuilt(ip, src, LengthField(ipLen, lpLen, p, IPH_LEN), was), p, IPH_LEN, true)
  {
    hide Rebuilt, LengthField, Splice;
    MeasuredPlain(ip, src, was, b, LengthField(ipLen, lpLen, p, IPH_LEN));
  }

  lemma HeadRead(t: Table, other: Option<Context>, ip: seq<Byte>, sll: LlAddr, dll: LlAddr, frame: seq<Byte>, hdr: nat)
    requires |ip| >= IPUDPH_LEN && WellFormed(t) && At(frame, hdr, Compress(t, other, ip, sll, dll))
    ensures var f := InlineFields(t, other, ip, sll, dll);
            && f.LaidOut(frame, hdr)
            && f.SrcPos(hdr) + |f.src| + |f.dst| + |f.udp| == hdr + |Compress(t, other, ip, sll, dll)|
            && hdr + 2 + |f.cid| == if frame[hdr + 1] & CID != 0 then hdr + 3 else hdr + 2
    ensures frame[hdr] == Iphc0(ip) && frame[hdr + 1] == Iphc1(t, other, ip, sll, dll)
    ensures frame[hdr + 1] & CID != 0 ==> hdr + 3 <= |frame|
    ensures (if frame[hdr + 1] & CID != 0 then frame[hdr + 2] >> 4 else 0) == SentSci(t, other, ip)
    ensures !Multicast(Dst(ip)) && ByPrefix(t, Dst(ip)).Some? ==>
              ByPrefix(t, Dst(ip)).value.number == if frame[hdr + 1] & CID != 0 then frame[hdr + 2] & 0x0F else 0
  {
    var f := InlineFields(t, other, ip, sll, dll);
    var iphc0, iphc1 := Iphc0(ip), Iphc1(t, other, ip, sll, dll);
    LayoutHead(frame, hdr, iphc0, iphc1, f);
    PartMasks(t, other, ip, sll, dll);
    ContextNumbers(t, other, ip);
    assert iphc1 & CID != 0 <==> |f.cid| == 1;
    assert |f.cid| == 1 ==> f.cid[0] == ContextOctet(t, ip);
    hide TfPart, NhPart, TtlPart, SrcPart, DstPart, UdpPart, ContextOctet, Iphc0, Iphc1, ByPrefix, At;
    Layout(frame, hdr, f);
  }

  /** The readers of the short fields, each run where the previous one stopped, see their own octets. */
  ghost predicate ShortReadBack(frame: seq<Byte>, hdr: nat, ip: seq<Byte>, f: Fields)
    requires |ip| >= IPH_LEN && hdr + 2 + MAX_HDR <= |frame|
  {
    var p0 := if frame[hdr + 1] & CID != 0 then hdr + 3 else hdr + 2;
    && p0 + 6 <= |frame| && |f.tf| <= 4 && |f.nh| <= 1 && p0 == hdr + 2 + |f.cid|
    && ReadTf(frame[hdr], frame, p0) == ([0x60 | (ip[0] & 0x0F), ip[1], ip[2], ip[3]], p0 + |f.tf|)
    && ReadNh(frame[hdr], frame, p0 + |f.tf|) == (if IsUdp(ip) then None else Some(ip[6]), p0 + |f.tf| + |f.nh|)
    && ReadTtl(frame[hdr], frame, p0 + |f.tf| + |f.nh|) == (ip[7], f.SrcPos(hdr))
  }

  /** So do the readers of the two addresses. */
  ghost predicate AddressesReadBack(t: Table, frame: seq<Byte>, hdr: nat, sll: LlAddr, dll: LlAddr, ip: seq<Byte>,
                                    f: Fields, seen: Option<Addr>, dstLost: bool)
    requires |ip| >= IPH_LEN && hdr + 2 + MAX_HDR <= |frame|
  {
    var p3 := f.SrcPos(hdr);
    && p3 + |f.src| + 16 <= |frame|
    && ReadSrc(t, frame[hdr + 1], frame[hdr + 2], sll, frame, p3)
       == (if seen.Some? then Some((seen.value, p3 + |f.src|)) else None)
    && ReadDst(t, frame[hdr + 1], frame[hdr + 2], dll, frame, p3 + |f.src|)
       == (if dstLost then None else Some((Dst(ip), p3 + |f.src| + |f.dst|)))
  }

  ghost predicate ReadsBack(t: Table, frame: seq<Byte>, hdr: nat, sll: LlAddr, dll: LlAddr, ip: seq<Byte>,
                            f: Fields, seen: Option<Addr>, dstLost: bool)
    requires |ip| >= IPH_LEN && hdr + 2 + MAX_HDR <= |frame|
  {
    ShortReadBack(frame, hdr, ip, f) && AddressesReadBack(t, frame, hdr, sll, dll, ip, f, seen, dstLost)
  }

  lemma FieldsReadBack(t: Table, other: Option<Context>, ip: seq<Byte>, sll: LlAddr, dll: LlAddr, frame: seq<Byte>, hdr: nat)
    requires |ip| >= IPUDPH_LEN && WellFormed(t) && hdr + 2 + MAX_HDR <= |frame|
    requires At(frame, hdr, Compress(t, other, ip, sll, dll))
    ensures ReadsBack(t, frame, hdr, sll, dll, ip, InlineFields(t, other, ip, sll, dll),
                      SeenSrc(t, SentSci(t, other, ip), ip), Multicast(Dst(ip)) && ByMcastPrefix(t, Dst(ip)).Some?)
  {
    hide At, TfPart, NhPart, TtlPart, SrcPart, DstPart, UdpPart, ContextOctet, SendsCid, Iphc0, Iphc1, SentSci, SeenSrc,
         ByMcastPrefix, ByPrefix, CidPart, Compress, ShortReadBack, AddressesReadBack;
    HeadRead(t, other, ip, sll, dll, frame, hdr);
    PartMasks(t, other, ip, sll, dll);
    var f := InlineFields(t, other, ip, sll, dll);
    ShortFields(t, other, ip, sll, dll, frame, hdr, f);
    Addresses(t, other, ip, sll, dll, frame, hdr, f);
  }

  lemma ShortFields(t: Table, other: Option<Context>, ip: seq<Byte>, sll: LlAddr, dll: LlAddr, frame: seq<Byte>, hdr: nat,
                    f: Fields)
    requires |ip| >= IPUDPH_LEN && WellFormed(t) && hdr + 2 + MAX_HDR <= |frame|
    requires At(frame, hdr, Compress(t, other, ip, sll, dll)) && f == InlineFields(t, other, ip, sll, dll)
    ensures ShortReadBack(frame, hdr, ip, f)
  {
    hide At, TfPart, NhPart, TtlPart, SrcPart, DstPart, UdpPart, ContextOctet, SendsCid, Iphc0, Iphc1, SentSci,
         ReadTf, ReadNh, ReadTtl, ByPrefix, CidPart, Compress;
    HeadRead(t, other, ip, sll, dll, frame, hdr);
    PartMasks(t, other, ip, sll, dll);
    var p0 := hdr + 2 + |f.cid|;
    TfRoundTrip(ip, frame[hdr], frame, p0);
    NhRoundTrip(ip, frame[hdr], frame, p0 + |f.tf|);
    TtlRoundTrip(ip, frame[hdr], frame, p0 + |f.tf| + |f.nh|);
  }

  lemma Addresses(t: Table, other: Option<Context>, ip: seq<Byte>, sll: LlAddr, dll: LlAddr, frame: seq<Byte>, hdr: nat,
                  f: Fields)
    requires |ip| >= IPUDPH_LEN && WellFormed(t) && hdr + 2 + MAX_HDR <= |frame|
    requires At(frame, hdr, Compress(t, other, ip, sll, dll)) && f == InlineFields(t, other, ip, sll, dll)
    ensures AddressesReadBack(t, frame, hdr, sll, dll, ip, f, SeenSrc(t, SentSci(t, other, ip), ip),
                              Multicast(Dst(ip)) && ByMcastPrefix(t, Dst(ip)).Some?)
  {
    hide At, TfPart, NhPart, TtlPart, SrcPart, DstPart, UdpPart, ContextOctet, SendsCid, Iphc0, Iphc1, SentSci, SeenSrc,
         ReadSrc, ReadDst, ByMcastPrefix, ByPrefix, CidPart, Compress;
    HeadRead(t, other, ip, sll, dll, frame, hdr);
    PartMasks(t, other, ip, sll, dll);
    var p3 := f.SrcPos(hdr);
    SrcRoundTrip(t, ip, sll, frame[hdr + 1], frame[hdr + 2], frame, p3);
    DstRoundTrip(t, ip, dll, frame[hdr + 1], frame[hdr + 2], frame, p3 + |f.src|);
  }

  lemma DecompressFields(t: Table, ip: seq<Byte>, sll: LlAddr, dll: LlAddr, frame: seq<Byte>, hdr: nat, ipLen: nat, lpLen: nat,
                         was: seq<Byte>, f: Fields, seen: Option<Addr>, dstLost: bool)
    requires |ip| >= IPUDPH_LEN && |was| >= IPUDPH_LEN && hdr + 2 + MAX_HDR <= |frame|
    requires ReadsBack(t, frame, hdr, sll, dll, ip, f, seen, dstLost)
    requires frame[hdr] & NH_C == NhPart(ip).flags && f.udp == UdpPart(ip)
    requires At(frame, f.SrcPos(hdr) + |f.src| + |f.dst|, f.udp)
    ensures var d := Decompress(t, frame, hdr, sll, dll, ipLen, lpLen, was);
            if seen.None? || dstLost then !d.ok
            else
              var end := f.SrcPos(hdr) + |f.src| + |f.dst| + |f.udp|;
              d == Decoded(Rebuilt(ip, seen.value, LengthField(ipLen, lpLen, end, HeaderLen(ip)), was), end, HeaderLen(ip), true)
  {
    hide At, NhPart, UdpPart, ReadTf, ReadNh, ReadTtl, ReadSrc, ReadDst, Decompress, DecompressRest, Rebuilt,
      LengthField;
    var p0, p3 := hdr + 2 + |f.cid|, f.SrcPos(hdr);
    var head := [0x60 | (ip[0] & 0x0F), ip[1], ip[2], ip[3]];
    var nh := if IsUdp(ip) then None else Some(ip[6]);
    var src := if seen.Some? then Some((seen.value, p3 + |f.src|)) else None;
    var dst := if dstLost then None else Some((Dst(ip), p3 + |f.src| + |f.dst|));
    DecompressSteps(t, frame, hdr, sll, dll, ipLen, lpLen, was, (head, p0 + |f.tf|), (nh, p0 + |f.tf| + |f.nh|), (ip[7], p3), src, dst);
    if src.Some? && dst.Some? {
      var b5 := Fixed(was, head, nh, ip[7], seen.value, Dst(ip));
      RestRoundTrip(ip, frame, frame[hdr], p3 + |f.src| + |f.dst|, ipLen, lpLen, was, seen.value, b5);
    }
  }

  /** Decompressing what was compressed, for every header: either the run is given up, or every
      octet of the result is known. */
  lemma DecompressCompressed(t: Table, other: Option<Context>, ip: seq<Byte>, sll: LlAddr, dll: LlAddr,
                             frame: seq<Byte>, hdr: nat, ipLen: nat, lpLen: nat, was: seq<Byte>)
    requires |ip| >= IPUDPH_LEN && WellFormed(t) && |was| >= IPUDPH_LEN && hdr + 2 + MAX_HDR <= |frame|
    requires At(frame, hdr, Compress(t, other, ip, sll, dll))
    ensures var d := Decompress(t, frame, hdr, sll, dll, ipLen, lpLen, was);
            var seen := SeenSrc(t, SentSci(t, other, ip), ip);
            if seen.None? || (Multicast(Dst(ip)) && ByMcastPrefix(t, Dst(ip)).Some?) then !d.ok
            else
              var end := hdr + |Compress(t, other, ip, sll, dll)|;
              && d.ok && d.hdrLen == end && d.uncomp == HeaderLen(ip)
              && d.buf == Rebuilt(ip, seen.value, LengthField(ipLen, lpLen, end, HeaderLen(ip)), was)
  {
    hide At, TfPart, NhPart, TtlPart, SrcPart, DstPart, UdpPart, ContextOctet, SendsCid, Iphc0, Iphc1, SentSci, SeenSrc,
         Compress, ReadsBack, ByMcastPrefix, ByPrefix, CidPart, Decompress, Rebuilt, LengthField;
    HeadRead(t, other, ip, sll, dll, frame, hdr);
    PartMasks(t, other, ip, sll, dll);
    FieldsReadBack(t, other, ip, sll, dll, frame, hdr);
    var f := InlineFields(t, other, ip, sll, dll);
    DecompressFields(t, ip, sll, dll, frame, hdr, ipLen, lpLen, was, f, SeenSrc(t, SentSci(t, other, ip), ip),
                     Multicast(Dst(ip)) && ByMcastPrefix(t, Dst(ip)).Some?);
  }

  // ---------------------------------------------------- when the round trip holds

  /** The source survives: its context number reaches the receiver, and the link-local form, which
      is chosen by looking at the destination, drops nothing but zeros. */
  predicate SrcRecoverable(t: Table, other: Option<Context>, ip: seq<Byte>)
    requires |ip| >= IPH_LEN
  {
    var a := Src(ip);
    if Unspecified(a) then true
    else if ByPrefix(t, a).Some? then
      SendsCid(t, other, ip) || (var z := ByNumber(t, 0); z.Some? && z.value.prefix == a[..8])
    else SrcLinkLocalBranch(ip) ==> a[2..8] == Zeros(6)
  }

  predicate Recoverable(t: Table, other: Option<Context>, ip: seq<Byte>)
    requires |ip| >= IPH_LEN
  {
    && ip[0] & 0xF0 == 0x60
    && SrcRecoverable(t, other, ip)
    && !(Multicast(Dst(ip)) && ByMcastPrefix(t, Dst(ip)).Some?)
  }

  lemma SeenSrcExact(t: Table, other: Option<Context>, ip: seq<Byte>)
    requires |ip| >= IPH_LEN && WellFormed(t)
    ensures SeenSrc(t, SentSci(t, other, ip), ip) == Some(Src(ip)) <==> SrcRecoverable(t, other, ip)
  {
    var a := Src(ip);
    if !Unspecified(a) && ByPrefix(t, a).Some? {
      ContextNumbers(t, other, ip);
      ByNumberFindsIt(t, ByPrefix(t, a).value);
      assert a == a[..8] + a[8..];
      var c := ByNumber(t, SentSci(t, other, ip));
      if c.Some? { assert (c.value.prefix + a[8..])[..8] == c.value.prefix; }
    } else if !Unspecified(a) && SrcLinkLocalBranch(ip) {
      var b := LL_PREFIX + Zeros(6) + a[8..];
      assert a == LL_PREFIX + a[2..8] + a[8..];
      assert b[2..8] == Zeros(6);
    }
  }

  /** A decompressed header is the original one, its length fields aside, and nothing beyond it moved. */
  predicate Restores(d: Decoded, end: nat, ip: seq<Byte>, was: seq<Byte>)
    requires |ip| >= IPUDPH_LEN && |was| == |d.buf| >= IPUDPH_LEN
  {
    && d.ok && d.hdrLen == end && d.uncomp == HeaderLen(ip)
    && d.buf[..4] == ip[..4] && d.buf[6..40] == ip[6..40]
    && (if IsUdp(ip) then d.buf[40..44] == ip[40..44] && d.buf[46..48] == ip[46..48] else d.buf[40..48] == was[40..48])
    && d.buf[48..] == was[48..]
  }

  lemma VersionBits(v: Byte)
    ensures 0x60 | (v & 0x0F) == v <==> v & 0xF0 == 0x60
  {}

  function HeaderOctet(ip: seq<Byte>, src: Addr, l: seq<Byte>, k: nat): Byte
    requires |ip| >= IPUDPH_LEN && k < HeaderLen(ip) && |l| == 2
  {
    if k == 0 then 0x60 | (ip[0] & 0x0F)
    else if 4 <= k < 6 then l[k - 4]
    else if 8 <= k < 24 then src[k - 8]
    else if 44 <= k < 46 then l[k - 44]
    else ip[k]
  }

  lemma RebuiltOctet(ip: seq<Byte>, src: Addr, l: seq<Byte>, was: seq<Byte>, k: nat)
    requires |ip| >= IPUDPH_LEN && |l| == 2 && |was| >= IPUDPH_LEN && k < HeaderLen(ip)
    ensures Rebuilt(ip, src, l, was)[k] == HeaderOctet(ip, src, l, k)
  {
    if k < 40 { RebuiltIpOctet(ip, src, l, was, k); }
    hide Splice, RebuiltIp;
  }

  lemma RebuiltIpOctet(ip: seq<Byte>, src: Addr, l: seq<Byte>, was: seq<Byte>, k: nat)
    requires |ip| >= IPUDPH_LEN && |l| == 2 && |was| >= IPUDPH_LEN && k < 40
    ensures RebuiltIp(ip, src, l, was)[k] == HeaderOctet(ip, src, l, k)
  {
    hide Splice;
  }

  lemma RebuiltTail(ip: seq<Byte>, src: Addr, l: seq<Byte>, was: seq<Byte>, k: nat)
    requires |ip| >= IPUDPH_LEN && |l| == 2 && |was| >= IPUDPH_LEN && HeaderLen(ip) <= k < |was|
    ensures Rebuilt(ip, src, l, was)[k] == was[k]
  {
    hide Splice;
  }

  lemma RebuiltExact(ip: seq<Byte>, src: Addr, len: seq<Byte>, was: seq<Byte>, end: nat)
    requires |ip| >= IPUDPH_LEN && |len| == 2 && |was| >= IPUDPH_LEN
    ensures Restores(Decoded(Rebuilt(ip, src, len, was), end, HeaderLen(ip), true), end, ip, was)
            <==> ip[0] & 0xF0 == 0x60 && src == Src(ip)
  {
    var b := Rebuilt(ip, src, len, was);
    forall k | 0 <= k < |was| ensures b[k] == if k < HeaderLen(ip) then HeaderOctet(ip, src, len, k) else was[k] {
      if k < HeaderLen(ip) { RebuiltOctet(ip, src, len, was, k); } else { RebuiltTail(ip, src, len, was, k); }
    }
    VersionBits(ip[0]);
    hide Rebuilt;
    SameHeader(ip, src, len, was, b);
  }

  lemma SameOctet(ip: seq<Byte>, src: Addr, len: seq<Byte>, k: nat)
    requires |ip| >= IPUDPH_LEN && |len| == 2 && src == Src(ip) && 6 <= k < 40
    ensures HeaderOctet(ip, src, len, k) == ip[k]
  {}

  lemma SameHeader(ip: seq<Byte>, src: Addr, len: seq<Byte>, was: seq<Byte>, b: seq<Byte>)
    requires |ip| >= IPUDPH_LEN && |len| == 2 && |b| == |was| >= IPUDPH_LEN
    requires forall k :: 0 <= k < |was| ==> b[k] == if k < HeaderLen(ip) then HeaderOctet(ip, src, len, k) else was[k]
    ensures b[..4] == ip[..4] && b[6..40] == ip[6..40] <==> 0x60 | (ip[0] & 0x0F) == ip[0] && src == Src(ip)
    ensures if IsUdp(ip) then b[40..44] == ip[40..44] && b[46..48] == ip[46..48] else b[40..48] == was[40..48]
    ensures b[48..] == was[48..]
  {
    assert forall k :: 0 <= k < 16 ==> Src(ip)[k] == ip[k + 8];
    hide Src;
    if b[..4] == ip[..4] && b[6..40] == ip[6..40] {
      assert b[..4][0] == ip[..4][0];
      forall k | 0 <= k < 16 ensures src[k] == Src(ip)[k] {
        assert b[6..40][k + 2] == b[k + 8] == src[k] && ip[6..40][k + 2] == ip[k + 8];
      }
      assert src == Src(ip);
    }
    if b[0] == ip[0] && src == Src(ip) {
      forall k | 6 <= k < 40 ensures b[k] == ip[k] {
        SameOctet(ip, src, len, k);
      }
    }
  }

  /** The inverse property of the codec, on every header, context table and leftover `otherContext`:
      it holds exactly when `Recoverable` does. */
  lemma HeaderRoundTrip(t: Table, other: Option<Context>, ip: seq<Byte>, sll: LlAddr, dll: LlAddr,
                        frame: seq<Byte>, hdr: nat, ipLen: nat, lpLen: nat, was: seq<Byte>)
    requires |ip| >= IPUDPH_LEN && WellFormed(t) && |was| >= IPUDPH_LEN && hdr + 2 + MAX_HDR <= |frame|
    requires At(frame, hdr, Compress(t, other, ip, sll, dll))
    ensures Restores(Decompress(t, frame, hdr, sll, dll, ipLen, lpLen, was),
                     hdr + |Compress(t, other, ip, sll, dll)|, ip, was)
            <==> Recoverable(t, other, ip)
  {
    hide At, Compress, SendsCid, Decompress, SeenSrc, SentSci, ByMcastPrefix, SrcRecoverable, Restores, Rebuilt,
      LengthField;
    DecompressCompressed(t, other, ip, sll, dll, frame, hdr, ipLen, lpLen, was);
    SeenSrcExact(t, other, ip);
    var seen := SeenSrc(t, SentSci(t, other, ip), ip);
    var end := hdr + |Compress(t, other, ip, sll, dll)|;
    if seen.Some? { RebuiltExact(ip, seen.value, LengthField(ipLen, lpLen, end, HeaderLen(ip)), was, end); }
    var d := Decompress(t, frame, hdr, sll, dll, ipLen, lpLen, was);
    if !d.ok { NotRestored(d, end, ip, was); }
  }

  lemma NotRestored(d: Decoded, end: nat, ip: seq<Byte>, was: seq<Byte>)
    requires |ip| >= IPUDPH_LEN && |was| == |d.buf| >= IPUDPH_LEN && !d.ok
    ensures !Restores(d, end, ip, was)
  {}

  // ---------------------------------------------------------------------- sizes

  /** A compressed header is at least three octets and at most one octet longer than what it
      replaces; an unrecoverable context form is far shorter. */
  lemma CompressedSize(t: Table, other: Option<Context>, ip: seq<Byte>, sll: LlAddr, dll: LlAddr)
    requires |ip| >= IPUDPH_LEN
    ensures 2 <= |Compress(t, other, ip, sll, dll)| <= HeaderLen(ip) + 1
    ensures IsUdp(ip) ==> |Compress(t, other, ip, sll, dll)| < HeaderLen(ip)
  {
    hide TfPart, TtlPart, SrcPart, DstPart, Iphc0, Iphc1, CidPart, PortsPart;
  }
}
