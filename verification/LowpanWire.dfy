// The frames of RFC 4944 octet by octet: what input makes of a header that was
// not compressed, of a frame it does not know, and of a fragment of another
// packet; and what output writes in front of the fragments it sends.
module LowpanWire {
  import opened Bytes
  import opened Iphc
  import opened Lowpan
  import opened Fragments

  // ----------------------------------------------------------- uncompressed headers

  /** A packet sent whole and uncompressed, by a neighbour that does not compress, comes out as it is. */
  lemma UncompressedDelivered(t: Table, packet: seq<Byte>, frame: Buffer, sll: LlAddr, dll: LlAddr, was: Buffer)
    requires 40 <= |packet| <= 101 && |packet| <= |was| && At(frame, 0, [0x41] + packet)
    ensures var r := Receive(t, frame, |packet| + 1, sll, dll, was);
            r.len == Some(|packet|) && |r.buf| == |was| && r.buf[..|packet|] == packet && r.buf[|packet|..] == was[|packet|..]
  {
    hide Splice, Decompress;
    AtConcat(frame, 0, [0x41], packet);
    assert frame[0] == frame[0..1][0] == 0x41;
    NotIphc();
    assert frame[1..1 + |packet|] == packet;
    assert frame[1..41] == packet[..40] && frame[41..|packet| + 1] == packet[40..];
    var r := Receive(t, frame, |packet| + 1, sll, dll, was);
    SpliceSplice(was, 0, packet[..40], packet[40..]);
    assert packet[..40] + packet[40..] == packet;
    assert r.buf == Splice(was, 0, packet);
  }

  lemma NotIphc()
    ensures var d: Byte := 0x41; d & 0xE0 != 0x60
  {}

  /** Nothing comes of a frame that is shorter than its header, or has neither dispatch. */
  lemma DeliversExactly(t: Table, frame: Buffer, lpLen: nat, sll: LlAddr, dll: LlAddr, was: Buffer)
    requires lpLen <= 102
    ensures Receive(t, frame, lpLen, sll, dll, was).len.Some?
            <==> if frame[0] == 0x41 then lpLen >= 41
                 else frame[0] & 0xE0 == 0x60 && lpLen >= Decompress(t, frame, 0, sll, dll, 0, lpLen, was).hdrLen
    ensures frame[0] != 0x41 && frame[0] & 0xE0 != 0x60 ==> Receive(t, frame, lpLen, sll, dll, was) == Received(was, None)
  {
    NotIphc();
    hide Decompress, Splice;
  }

  /** Output sends a packet whole exactly if it has its headers and fits in a frame behind the compressed ones. */
  lemma FitsExact(len: nat, ip: Buffer, c: seq<Byte>)
    requires len < 0x1_0000 && |c| <= 49
    ensures Lowpan.Fits(len, ip, |c|) <==> HeaderLen(ip) <= len && |c| + (len - HeaderLen(ip)) <= 102
  {
    if len >= HeaderLen(ip) {
      assert (len - HeaderLen(ip)) % 0x1_0000 == len - HeaderLen(ip);
    } else {
      assert (len - HeaderLen(ip)) % 0x1_0000 == len - HeaderLen(ip) + 0x1_0000;
    }
  }

  // ----------------------------------------------------------------- fragment headers

  lemma SizeOctets(base: nat, len: nat)
    requires base < 248 && len < 2048
    ensures Val(Be16(base * 256 + len)[0]) == base + len / 256 && Val(Be16(base * 256 + len)[1]) == len % 256
  {
    hide Val, Low;
    LowBits((base * 256 + len) / 256);
    LowBits(base * 256 + len);
    assert (base * 256 + len) / 256 == base + len / 256;
  }

  lemma TagOctets(tag: U16)
    ensures Val(Be16(tag)[0]) == tag / 256 && Val(Be16(tag)[1]) == tag % 256
  {
    hide Val, Low;
    LowBits(tag / 256);
    LowBits(tag);
  }

  /** 11000 and 11 bits of size, 16 of the tag, the compressed headers and the first octets behind the others. */
  lemma FirstFragmentHeader(c: seq<Byte>, ip: Buffer, len: nat, tag: nat)
    requires |c| <= IPUDPH_LEN && HeaderLen(ip) + FirstPayload(|c|) <= len <= |ip| && len < 2048 && tag < 0x1_0000
    ensures var f := FirstFragment(c, ip, len, tag);
            && |f| >= 4 + |c| && Val(f[0]) == 192 + len / 256 && Val(f[1]) == len % 256 && Val(f[2]) == tag / 256 && Val(f[3]) == tag % 256
            && f[4..] == c + ip[HeaderLen(ip)..HeaderLen(ip) + (|f| - 4 - |c|)]
  {
    hide Val, Be16, HeaderLen;
    assert 0xC000 + len == 192 * 256 + len;
    SizeOctets(192, len);
    TagOctets(tag);
  }

  /** 11100 and 11 bits of size, 16 of the tag, the place in blocks of eight, and the octets from there. */
  lemma NextFragmentHeader(ip: Buffer, len: nat, tag: nat, p: nat)
    requires p < len <= |ip| && len < 2048 && tag < 0x1_0000 && p % 8 == 0
    ensures var f := NextFragment(ip, len, tag, p);
            && |f| >= 5 && Val(f[0]) == 224 + len / 256 && Val(f[1]) == len % 256 && Val(f[2]) == tag / 256 && Val(f[3]) == tag % 256
            && Val(f[4]) == p / 8 && f[5..] == ip[p..p + (|f| - 5)]
  {
    hide Val, Be16, Low;
    assert 0xE000 + len == 224 * 256 + len;
    SizeOctets(224, len);
    TagOctets(tag);
    LowBits(p / 8);
  }

  /** A fragment is as long as a frame of 102 octets lets it be, in blocks of eight but for the last one. */
  lemma FragmentsAreFull(c: seq<Byte>, ip: Buffer, len: nat, tag: nat, p: nat)
    requires |c| <= IPUDPH_LEN && HeaderLen(ip) + FirstPayload(|c|) <= |ip| && p < len <= |ip|
    ensures var f := FirstFragment(c, ip, len, tag); |f| <= 102 < |f| + 8 && (|f| - 4 - |c|) % 8 == 0
    ensures var f := NextFragment(ip, len, tag, p);
            |f| <= 102 && (if p + (|f| - 5) == len then true else 102 < |f| + 8 && (|f| - 5) % 8 == 0 && p + (|f| - 5) < len)
  {
    hide Low;
  }

  // --------------------------------------------------------------- receiving fragments

  /** A frame of another packet, another sender, or no fragment at all, while a packet is being reassembled. */
  predicate Other(st: Reass, f: Buffer, from: LlAddr) {
    || !(24 <= Val(f[0]) / 8 && (Val(f[0]) / 8 == 24 || Val(f[0]) / 8 == 28))
    || Get16(f, 0) % 2048 == 0 || Get16(f, 0) % 2048 != st.total || Get16(f, 2) != st.tag || from != st.sender
  }

  lemma DispatchBits(f: Buffer)
    ensures Dispatch(f) == Val(f[0]) / 8
  {
    hide Val;
    var h, l := Val(f[0]), Val(f[1]);
    assert h * 256 + l == 2048 * (h / 8) + (256 * (h % 8) + l);
  }

  /** It is dropped, and all but the frame buffer stays; unless the packet has taken too long, which is then forgotten. */
  lemma OthersDropped(t: Table, st: Reass, frame: seq<Byte>, from: LlAddr, to: LlAddr)
    requires |frame| <= 102 && |st.buf| >= REASS_ROOM && st.total < 2048 && st.done > 0
    requires Other(st, Splice(st.rime, 0, frame), from)
    ensures Input(t, st, frame, from, to, false) == (st.(rime := Splice(st.rime, 0, frame)), None)
  {
    DispatchBits(Splice(st.rime, 0, frame));
    hide Val, Get16, Splice, Dispatch;
  }

  lemma ExpiredStartsAnew(t: Table, st: Reass, frame: seq<Byte>, from: LlAddr, to: LlAddr)
    requires |frame| <= 102 && |st.buf| >= REASS_ROOM && st.total < 2048
    ensures Input(t, st, frame, from, to, true) == Input(t, st.(total := 0, done := 0), frame, from, to, false)
  {
    hide Splice, Absorb, Headers, SizeOf, Dispatch, TagOf;
  }

  /** Without a packet in the making, a frame that is no fragment is received as in a build without fragmentation. */
  lemma UnfragmentedInput(t: Table, st: Reass, frame: seq<Byte>, from: LlAddr, to: LlAddr)
    requires |frame| <= 102 && |st.buf| >= REASS_ROOM && st.total < 2048 && st.done == 0
    requires var f: Buffer := Splice(st.rime, 0, frame); !IsFragment(f)
    ensures var f: Buffer := Splice(st.rime, 0, frame);
            var (next, out) := Input(t, st, frame, from, to, false);
            var r := Receive(t, f, |frame|, from, to, st.buf);
            && next == st.(rime := f, buf := r.buf, total := if r.len.Some? then 0 else st.total)
            && (r.len.Some? ==> r.len.value <= |r.buf|) && out == if r.len.Some? then Some(r.buf[..r.len.value]) else None
  {
    hide Splice, Decompress, Dispatch, Get16;
    var f: Buffer := Splice(st.rime, 0, frame);
    NotIphc();
    var d := Headers(t, f, |frame|, from, to, st.buf);
  }

  /** A first fragment with an uncompressed header: its octets are put in place and counted as they are. */
  lemma UncompressedFirst(t: Table, st: Reass, data: seq<Byte>, len: nat, tag: nat, from: LlAddr, to: LlAddr)
    requires |st.buf| >= REASS_ROOM && st.total < 2048 && 0 < len < 2048 && tag < 0x1_0000 && 40 <= |data| <= 97
    requires st.done == 0 || (st.total == len && st.tag == tag && st.sender == from)
    ensures |Be16(0xC000 + len) + Be16(tag) + ([0x41] + data)| <= 102
    ensures var frame := Be16(0xC000 + len) + Be16(tag) + ([0x41] + data);
            var count := (st.done + |data|) % 65536;
            var (next, out) := Input(t, st, frame, from, to, false);
            && next.buf == Splice(st.buf, 0, data)
            && if count == 0 || count == len then next.done == 0 && out == Some(next.buf[..len])
               else out == None && next.done == count && next.total == len && next.tag == tag && next.sender == from
  {
    hide Get16, Val, TagOf, SizeOf, Dispatch, Splice, Decompress, Be16, Absorb;
    var rest := [0x41] + data;
    assert FRAG1 * 2048 == 0xC000;
    FragHeaderRead(st.rime, FRAG1, len, tag, rest);
    var frame := Be16(0xC000 + len) + Be16(tag) + rest;
    var f: Buffer := Splice(st.rime, 0, frame);
    AtConcat(f, 4, [0x41], data);
    FirstOctet(f, 4, [0x41]);
    NotIphc();
    assert f[5..5 + |data|] == data;
    var d := Decoded(Splice(st.buf, 0, f[5..45]), 45, 40, true);
    var s1 := st.(rime := f, total := len, tag := tag, sender := from);
    UncompressedAbsorbed(s1, f, data);
    assert Input(t, st, frame, from, to, false) == Absorb(s1, f, |frame|, false, d);
  }

  lemma UncompressedAbsorbed(st: Reass, f: Buffer, data: seq<Byte>)
    requires |st.buf| >= REASS_ROOM && 0 < st.total < 2048 && 40 <= |data| <= 97 && Dispatch(f) == FRAG1 && SizeOf(f) == st.total
    requires f[5..5 + |data|] == data
    ensures var count := (st.done + |data|) % 65536;
            var (next, out) := Absorb(st, f, 5 + |data|, false, Decoded(Splice(st.buf, 0, f[5..45]), 45, 40, true));
            && next.buf == Splice(st.buf, 0, data)
            && if count == 0 || count == st.total then next.done == 0 && out == Some(next.buf[..st.total])
               else out == None && next == st.(buf := next.buf, done := count)
  {
    hide Splice, Dispatch, SizeOf;
    assert f[5..45] == data[..40] && f[45..5 + |data|] == data[40..];
    SpliceSplice(st.buf, 0, data[..40], data[40..]);
    assert data[..40] + data[40..] == data;
  }

  /** A fragment with another dispatch behind its header begins a packet at most, and delivers and stores nothing. */
  lemma UnknownFirst(t: Table, st: Reass, frame: seq<Byte>, from: LlAddr, to: LlAddr)
    requires |frame| <= 102 && |st.buf| >= REASS_ROOM && st.total < 2048
    requires var f: Buffer := Splice(st.rime, 0, frame);
             Val(f[0]) / 8 == 24 && f[4] != 0x41 && f[4] & 0xE0 != 0x60
    ensures var (next, out) := Input(t, st, frame, from, to, false);
            out == None && next.buf == st.buf && next.done == st.done
  {
    DispatchBits(Splice(st.rime, 0, frame));
    hide Splice, Absorb, Dispatch, Val, Get16;
  }
}
