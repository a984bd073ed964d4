// The unfragmented packet path of sicsLowPan.c on values: what `output` puts in
// a frame, what `input` makes of a frame, and when the packet comes back whole.
module Lowpan {
  import opened Bytes
  import opened Iphc

  /** The least size of a packet buffer (`UIP_CONF_BUFFER_SIZE`). */
  const BUFSIZE: nat := 160
  const MAC_MAX_PAYLOAD: nat := 102
  const DISPATCH_IPV6: Byte := 0x41
  const DISPATCH_MASK: Byte := 0xE0

  /** A packet or frame buffer. */
  type Buffer = b: seq<Byte> | |b| >= BUFSIZE witness Zeros(BUFSIZE)

  /** The size test of `output`, in the 16-bit unsigned arithmetic it is done in. */
  predicate Fits(len: nat, ip: Buffer, hdrLen: nat) {
    (len - HeaderLen(ip)) % 0x1_0000 <= MAC_MAX_PAYLOAD - hdrLen
  }

  /** The frame that carries the first `len` octets of `ip`. */
  function Frame(t: Table, other: Option<Context>, ip: Buffer, len: nat, sll: LlAddr, dll: LlAddr): seq<Byte>
    requires HeaderLen(ip) <= len <= |ip|
  {
    Compress(t, other, ip, sll, dll) + ip[HeaderLen(ip)..len]
  }

  /** Result of `input`: the packet buffer, and the packet length if one was delivered. */
  datatype Received = Received(buf: Buffer, len: Option<nat>)

  function Deliver(frame: Buffer, lpLen: nat, hdrLen: nat, uncomp: nat, buf: Buffer): Received
    requires lpLen <= MAC_MAX_PAYLOAD && uncomp <= IPUDPH_LEN
  {
    if lpLen < hdrLen then Received(buf, None)
    else Received(Splice(buf, uncomp, frame[hdrLen..lpLen]), Some(lpLen - hdrLen + uncomp))
  }

  function Receive(t: Table, frame: Buffer, lpLen: nat, sll: LlAddr, dll: LlAddr, was: Buffer): Received
    requires lpLen <= MAC_MAX_PAYLOAD
  {
    if frame[0] & DISPATCH_MASK == DISPATCH_IPHC then
      var d := Decompress(t, frame, 0, sll, dll, 0, lpLen, was);
      Deliver(frame, lpLen, d.hdrLen, d.uncomp, d.buf)
    else if frame[0] == DISPATCH_IPV6 then
      Deliver(frame, lpLen, 1 + IPH_LEN, IPH_LEN, Splice(was, 0, frame[1..1 + IPH_LEN]))
    else Received(was, None)
  }

  /** The length fields agree with the packet length, as `input` will set them. */
  predicate Measured(ip: Buffer, len: nat) {
    ip[4..6] == [0, Low(len - IPH_LEN)] && (IsUdp(ip) ==> ip[44..46] == ip[4..6])
  }

  /** A frame that the decompressor gives up on carries a header shorter than the original. */
  lemma GivenUpIsShort(t: Table, other: Option<Context>, ip: seq<Byte>, sll: LlAddr, dll: LlAddr)
    requires |ip| >= IPUDPH_LEN
    requires SeenSrc(t, SentSci(t, other, ip), ip).None? || (Multicast(Dst(ip)) && ByMcastPrefix(t, Dst(ip)).Some?)
    ensures |Compress(t, other, ip, sll, dll)| < HeaderLen(ip)
  {
    hide TfPart, NhPart, TtlPart, Iphc0, Iphc1, CidPart, PortsPart, MacBased, Iid16, Mcast8, Mcast32, Mcast48, SentSci;
  }

  /** Every packet that `output` accepts is the packet that `input` delivers, if and only if its
      header is recoverable and its length fields are consistent. */
  lemma PacketRoundTrip(t: Table, other: Option<Context>, ip: Buffer, len: nat, sll: LlAddr, dll: LlAddr,
                        frame: Buffer, was: Buffer)
    requires WellFormed(t) && len <= |ip| && len < 0x1_0000 && |was| == |ip|
      && Fits(len, ip, |Compress(t, other, ip, sll, dll)|)
    ensures HeaderLen(ip) <= len < 296 && |Frame(t, other, ip, len, sll, dll)| <= MAC_MAX_PAYLOAD
    ensures At(frame, 0, Frame(t, other, ip, len, sll, dll)) ==>
              var r := Receive(t, frame, |Frame(t, other, ip, len, sll, dll)|, sll, dll, was);
              r.len == Some(len) && r.buf[..len] == ip[..len] <==> Recoverable(t, other, ip) && Measured(ip, len)
  {
    hide Compress, Receive, Recoverable, Measured;
    CompressedSize(t, other, ip, sll, dll);
    if At(frame, 0, Frame(t, other, ip, len, sll, dll)) { ReceivedExact(t, other, ip, len, sll, dll, frame, was); }
  }

  predicate GivesUp(t: Table, other: Option<Context>, ip: Buffer) {
    SeenSrc(t, SentSci(t, other, ip), ip).None? || (Multicast(Dst(ip)) && ByMcastPrefix(t, Dst(ip)).Some?)
  }

  /** What `input` makes of the frame: a shorter packet, or the rebuilt header and the payload. */
  lemma ReceivedParts(t: Table, other: Option<Context>, ip: Buffer, len: nat, sll: LlAddr, dll: LlAddr, frame: Buffer,
                      was: Buffer)
    requires WellFormed(t) && HeaderLen(ip) <= len < 296 && len <= |ip| == |was|
    requires At(frame, 0, Frame(t, other, ip, len, sll, dll)) && |Frame(t, other, ip, len, sll, dll)| <= MAC_MAX_PAYLOAD
    ensures var r := Receive(t, frame, |Frame(t, other, ip, len, sll, dll)|, sll, dll, was);
            if GivesUp(t, other, ip) then r.len != Some(len)
            else
              var b := Rebuilt(ip, SeenSrc(t, SentSci(t, other, ip), ip).value, [0, Low(len - IPH_LEN)], was);
              r.len == Some(len) && r.buf == Splice(b, HeaderLen(ip), ip[HeaderLen(ip)..len])
  {
    hide Compress, SendsCid, Decompress, SeenSrc, SentSci, ByMcastPrefix, Rebuilt, Splice, Low, At;
    var c, h := Compress(t, other, ip, sll, dll), HeaderLen(ip);
    var f := Frame(t, other, ip, len, sll, dll);
    CompressedSize(t, other, ip, sll, dll);
    FrameOctets(frame, c, ip[h..len]);
    StartsIphc(t, other, ip, sll, dll);
    DecompressCompressed(t, other, ip, sll, dll, frame, 0, 0, |f|, was);
    if GivesUp(t, other, ip) { GivenUpIsShort(t, other, ip, sll, dll); }
  }

  lemma FrameOctets(frame: seq<Byte>, c: seq<Byte>, payload: seq<Byte>)
    requires At(frame, 0, c + payload) && c != []
    ensures At(frame, 0, c) && frame[0] == c[0] && |c| + |payload| <= |frame| && frame[|c|..|c| + |payload|] == payload
  {
    AtConcat(frame, 0, c, payload);
    assert frame[0] == frame[0..|c|][0];
  }

  lemma ReceivedExact(t: Table, other: Option<Context>, ip: Buffer, len: nat, sll: LlAddr, dll: LlAddr, frame: Buffer,
                      was: Buffer)
    requires WellFormed(t) && HeaderLen(ip) <= len < 296 && len <= |ip| == |was|
    requires At(frame, 0, Frame(t, other, ip, len, sll, dll)) && |Frame(t, other, ip, len, sll, dll)| <= MAC_MAX_PAYLOAD
    ensures var r := Receive(t, frame, |Frame(t, other, ip, len, sll, dll)|, sll, dll, was);
            r.len == Some(len) && r.buf[..len] == ip[..len] <==> Recoverable(t, other, ip) && Measured(ip, len)
  {
    ReceivedParts(t, other, ip, len, sll, dll, frame, was);
    SeenSrcExact(t, other, ip);
    hide Frame, Receive, SeenSrc, SentSci, ByMcastPrefix, SrcRecoverable, Rebuilt, Splice, Low, At;
    var h := HeaderLen(ip);
    if !GivesUp(t, other, ip) {
      var src, l := SeenSrc(t, SentSci(t, other, ip), ip).value, [0, Low(len - IPH_LEN)];
      DeliveredExact(ip, len, src, l, was, Splice(Rebuilt(ip, src, l, was), h, ip[h..len]));
    }
  }

  lemma StartsIphc(t: Table, other: Option<Context>, ip: seq<Byte>, sll: LlAddr, dll: LlAddr)
    requires |ip| >= IPUDPH_LEN
    ensures Compress(t, other, ip, sll, dll)[0] & DISPATCH_MASK == DISPATCH_IPHC
  {
    hide TfPart, TtlPart, SrcPart, DstPart, Iphc0, Iphc1, CidPart, UdpPart;
    assert Compress(t, other, ip, sll, dll)[0] == Iphc0(ip);
    PartMasks(t, other, ip, sll, dll);
  }

  /** Header rebuilt, payload copied behind it, octet by octet. */
  lemma DeliveredOctets(ip: Buffer, len: nat, src: Addr, l: seq<Byte>, was: Buffer, r: Buffer)
    requires HeaderLen(ip) <= len <= |ip| && len <= |was| && |l| == 2
    requires r == Splice(Rebuilt(ip, src, l, was), HeaderLen(ip), ip[HeaderLen(ip)..len])
    ensures r[0] == 0x60 | (ip[0] & 0x0F) && r[4] == l[0] && r[5] == l[1]
    ensures IsUdp(ip) ==> r[44] == l[0] && r[45] == l[1]
    ensures forall k :: 8 <= k < 24 ==> r[k] == src[k - 8]
    ensures forall k :: 0 < k < len && !(4 <= k < 6) && !(8 <= k < 24) && !(IsUdp(ip) && 44 <= k < 46) ==> r[k] == ip[k]
  {
    var b := Rebuilt(ip, src, l, was);
    forall k | 0 <= k < len
      ensures r[k] == if k < HeaderLen(ip) then HeaderOctet(ip, src, l, k) else ip[k]
    {
      if k < HeaderLen(ip) { RebuiltOctet(ip, src, l, was, k); }
    }
    hide Rebuilt, Splice;
  }

  /** The packet is back exactly when the version, the source and the length fields are. */
  lemma DeliveredExact(ip: Buffer, len: nat, src: Addr, l: seq<Byte>, was: Buffer, r: Buffer)
    requires HeaderLen(ip) <= len <= |ip| && len <= |was| && |l| == 2
    requires r == Splice(Rebuilt(ip, src, l, was), HeaderLen(ip), ip[HeaderLen(ip)..len])
    ensures r[..len] == ip[..len] <==>
              ip[0] & 0xF0 == 0x60 && src == Src(ip) && ip[4..6] == l && (IsUdp(ip) ==> ip[44..46] == ip[4..6])
  {
    DeliveredOctets(ip, len, src, l, was, r);
    VersionBits(ip[0]);
    SameOctets(ip, len, src, l, r);
  }

  lemma SameOctets(ip: Buffer, len: nat, src: Addr, l: seq<Byte>, r: Buffer)
    requires HeaderLen(ip) <= len <= |ip| && len <= |r| && |l| == 2
    requires r[4] == l[0] && r[5] == l[1] && (IsUdp(ip) ==> r[44] == l[0] && r[45] == l[1])
    requires forall k :: 8 <= k < 24 ==> r[k] == src[k - 8]
    requires forall k :: 0 < k < len && !(4 <= k < 6) && !(8 <= k < 24) && !(IsUdp(ip) && 44 <= k < 46) ==> r[k] == ip[k]
    ensures r[..len] == ip[..len] <==> r[0] == ip[0] && src == Src(ip) && ip[4..6] == l && (IsUdp(ip) ==> ip[44..46] == ip[4..6])
  {
    assert ip[4..6] == l <==> ip[4] == l[0] && ip[5] == l[1];
    assert ip[44..46] == ip[4..6] <==> ip[44] == ip[4] && ip[45] == ip[5];
    if r[..len] == ip[..len] {
      assert forall k :: 0 <= k < len ==> r[..len][k] == r[k] && ip[..len][k] == ip[k];
      assert r[4] == ip[4] && r[5] == ip[5] && (IsUdp(ip) ==> r[44] == ip[44] && r[45] == ip[45]);
      forall k | 0 <= k < 16 ensures src[k] == Src(ip)[k] {
        assert r[k + 8] == ip[k + 8];
      }
      assert src == Src(ip);
    }
    if r[0] == ip[0] && src == Src(ip) && ip[4..6] == l && (IsUdp(ip) ==> ip[44..46] == ip[4..6]) {
      forall k | 0 <= k < len ensures r[k] == ip[k] {
        assert 8 <= k < 24 ==> src[k - 8] == Src(ip)[k - 8] == ip[k];
      }
      assert r[..len] == ip[..len];
    }
  }
}
