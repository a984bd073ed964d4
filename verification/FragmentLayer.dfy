// The fragmenting build of sicsLowPan.c: the send loop of `output` and the
// reassembly path of `input`, over the same buffers as the plain build.
module FragmentLayer {
  import opened Bytes
  import opened Iphc
  import opened Lowpan
  import opened Fragments
  import SicsLowPan

  class Layer {
    const base: SicsLowPan.Adaptation
    const reass: array<Byte>       // sicslowpan_buf
    var sicslowpanLen: nat
    var processedIpLen: nat
    var reassTag: nat
    var fragSender: LlAddr
    var myTag: nat
    var sent: seq<seq<Byte>>       // frames handed to the MAC, oldest first

    ghost predicate Valid()
      reads this, base
    {
      && base.Valid() && base.uip.Length >= MAX_DATAGRAM && reass.Length >= REASS_ROOM
      && reass != base.uip && reass != base.rime && sicslowpanLen < MAX_DATAGRAM && myTag < 0x1_0000
    }

    /** The receiver's state as Fragments sees it. */
    ghost function State(): Reass
      requires Valid()
      reads this, base, base.rime, reass
    {
      Reass(base.rime[..], reass[..], sicslowpanLen, processedIpLen, reassTag, fragSender)
    }

    constructor (base: SicsLowPan.Adaptation)
      requires base.Valid() && base.uip.Length >= MAX_DATAGRAM
      ensures Valid() && this.base == base && fresh(reass) && processedIpLen == 0 && myTag == 0 && sent == []
    {
      this.base := base;
      reass := new Byte[REASS_ROOM](_ => 0);
      sicslowpanLen, processedIpLen, reassTag, fragSender, myTag, sent := 0, 0, 0, Zeros(8), 0, [];
    }

    /** `SET16` on the frame buffer. */
    method Set16(at: nat, n: nat)
      requires Valid() && at + 2 <= base.rime.Length
      modifies base.rime
      ensures base.rime[..] == Splice(old(base.rime[..]), at, Be16(n))
    {
      base.rime[at], base.rime[at + 1] := Low(n / 256), Low(n);
    }

    /** Puts `uip[p..p + n]` behind the frame header and hands the frame to the MAC. */
    method SendPart(hdr: nat, p: nat, n: nat)
      requires Valid() && hdr + n <= BUFSIZE && p + n <= base.uip.Length
      modifies base.rime, `sent
      ensures sent == old(sent) + [old(base.rime[..hdr]) + base.uip[p..p + n]]
      ensures forall i :: 0 <= i < hdr ==> base.rime[i] == old(base.rime[i])
    {
      Memcpy(base.rime, hdr, base.uip[p..p + n]);
      var frame := base.rime[..hdr + n];
      assert frame == old(base.rime[..hdr]) + base.uip[p..p + n];
      sent := sent + [frame];
    }

    /** One turn of the send loop. */
    method SendNext(p: nat) returns (n: nat)
      requires Valid() && p < base.uipLen < MAX_DATAGRAM
      requires base.rime[0..2] == Be16(0xE000 + base.uipLen) && base.rime[2..4] == Be16(myTag)
      modifies base.rime, `sent
      ensures n == NextPayload(base.uipLen, p)
        && sent == old(sent) + [NextFragment(base.uip[..], base.uipLen, myTag, p)]
      ensures base.rime[0..2] == Be16(0xE000 + base.uipLen) && base.rime[2..4] == Be16(myTag)
    {
      hide Be16, Low;
      base.rime[4] := Low(p / 8);
      n := if base.uipLen - p < NEXT_PAYLOAD then base.uipLen - p else NEXT_PAYLOAD;
      assert base.rime[..FRAGN_HDR_LEN] == base.rime[0..2] + base.rime[2..4] + [Low(p / 8)];
      ghost var data := base.uip[..][p..p + n];
      assert base.uip[p..p + n] == data;
      ghost var a, b := base.rime[0..2], base.rime[2..4];
      assert a + b + [Low(p / 8)] + data == a + b + ([Low(p / 8)] + data);
      SendPart(FRAGN_HDR_LEN, p, n);
    }

    method SendNextFragments(first: nat)
      requires Valid() && base.uipLen < MAX_DATAGRAM && first <= base.uipLen
      requires base.rime[0..2] == Be16(0xE000 + base.uipLen) && base.rime[2..4] == Be16(myTag)
      modifies base.rime, `sent, `processedIpLen
      ensures Valid() && sent == old(sent) + NextFragments(base.uip[..], base.uipLen, myTag, first)
    {
      hide Be16, NextFragment;
      ghost var ip, len := base.uip[..], base.uipLen;
      processedIpLen := first;
      while processedIpLen < base.uipLen
        invariant Valid() && first <= processedIpLen <= len && base.uip[..] == ip
        invariant base.rime[0..2] == Be16(0xE000 + len) && base.rime[2..4] == Be16(myTag)
        invariant sent + NextFragments(ip, len, myTag, processedIpLen)
                  == old(sent) + NextFragments(ip, len, myTag, first)
      {
        ghost var p, before := processedIpLen, sent;
        var n := SendNext(processedIpLen);
        processedIpLen := processedIpLen + n;
        assert sent + NextFragments(ip, len, myTag, p + n)
               == before + ([NextFragment(ip, len, myTag, p)] + NextFragments(ip, len, myTag, p + n));
      }
    }

    /** The first fragment, for a compressed header of `n` octets already in place. */
    method SendFirst(n: nat, h: nat, ghost c: seq<Byte>) returns (payload: nat)
      requires Valid() && n <= IPUDPH_LEN && h == HeaderLen(base.uip[..]) && base.uipLen < MAX_DATAGRAM
      requires h + FirstPayload(n) <= base.uipLen && c == base.rime[..n]
      modifies base.rime, `sent
      ensures payload == FirstPayload(n) && base.rime[2..4] == Be16(myTag)
      ensures sent == old(sent) + [FirstFragment(c, base.uip[..], base.uipLen, myTag)]
    {
      hide Be16;
      ghost var ip, a, b := base.uip[..], Be16(0xC000 + base.uipLen), Be16(myTag);
      ShiftHeader(n);
      Set16(0, 0xC000 + base.uipLen);
      Set16(2, myTag);
      payload := (MAC_MAX_PAYLOAD - FRAG1_HDR_LEN - n) / 8 * 8;
      assert base.rime[..FRAG1_HDR_LEN + n] == a + b + c;
      ghost var data := ip[h..h + payload];
      assert base.uip[h..h + payload] == data;
      Regroup(a + b, c, data);
      SendPart(FRAG1_HDR_LEN + n, h, payload);
      assert base.rime[2..4] == b;
    }

    /** The fragmenting branch of `output`. */
    method SendFragments(n: nat, h: nat)
      requires Valid() && n <= IPUDPH_LEN && h == HeaderLen(base.uip[..]) && base.uipLen < MAX_DATAGRAM
      requires h + FirstPayload(n) <= base.uipLen
      modifies base.rime, `sent, `processedIpLen, `myTag
      ensures Valid() && sent == old(sent) + FragmentsOf(old(base.rime[..n]), base.uip[..], base.uipLen, old(myTag))
      ensures myTag == (old(myTag) + 1) % 0x1_0000
    {
      hide Be16, NextFragments, FirstFragment;
      ghost var ip, c := base.uip[..], base.rime[..n];
      var payload := SendFirst(n, h, c);
      assert base.uip[..] == ip;
      Set16(0, 0xE000 + base.uipLen);
      assert base.rime[0..2] == Be16(0xE000 + base.uipLen) && base.rime[2..4] == Be16(myTag);
      assert base.uip[..] == ip;
      SendNextFragments(payload + h);
      myTag := (myTag + 1) % 0x1_0000;
      processedIpLen := 0;
    }

    /** `output` in a fragmenting build. */
    method Output(dest: LlAddr)
      requires Valid() && base.uipLen < MAX_DATAGRAM && HeaderLen(base.uip[..]) <= base.uipLen
      modifies base`hc06, base`rimeHdrLen, base`uncompHdrLen, base`lpLen, base`otherContext, base.rime
      modifies `sent, `processedIpLen, `myTag
      ensures Valid()
      ensures var ip, len, c := base.uip[..], base.uipLen, Compress(base.contexts, old(base.otherContext), base.uip[..], base.lladdr, dest);
              if Fits(len, ip, |c|) then
                sent == old(sent) + [c + ip[HeaderLen(ip)..len]] && myTag == old(myTag)
              else
                && |c| <= IPUDPH_LEN && HeaderLen(ip) + FirstPayload(|c|) <= len
                && sent == old(sent) + FragmentsOf(c, ip, len, old(myTag))
                && myTag == (old(myTag) + 1) % 0x1_0000
    {
      hide Compress, FragmentsOf;
      ghost var ip := base.uip[..];
      base.uncompHdrLen, base.rimeHdrLen := 0, 0;
      base.CompressHdr(dest);
      var h, n := base.uncompHdrLen, base.rimeHdrLen;
      assert base.uip[..] == ip;
      if base.uipLen - h <= MAC_MAX_PAYLOAD - n {
        assert base.uip[h..base.uipLen] == ip[h..base.uipLen];
        SendPart(n, h, base.uipLen - h);
        base.lpLen := base.uipLen - h + n;
      } else {
        SendFragments(n, h);
      }
      assert base.uip[..] == ip;
    }

    /** `memmove` of the compressed header to make room for the fragment header. */
    method ShiftHeader(n: nat)
      requires Valid() && n <= IPUDPH_LEN
      modifies base.rime
      ensures base.rime[FRAG1_HDR_LEN..FRAG1_HDR_LEN + n] == old(base.rime[..n])
    {
      forall i | 0 <= i < n { base.rime[FRAG1_HDR_LEN + i] := base.rime[i]; }
    }

    // ------------------------------------------------------------------ receiving

    /** The dispatch after any fragment header; `ok` when the payload is to be copied. */
    method ReadHeaders(from: LlAddr, to: LlAddr, frameLen: nat, size: nat) returns (ok: bool)
      requires Valid() && frameLen <= MAC_MAX_PAYLOAD && size == SizeOf(base.rime[..])
      modifies base`hc06, base`uncompHdrLen, base`rimeHdrLen, reass
      ensures var d := Headers(base.contexts, base.rime[..], frameLen, from, to, old(reass[..]));
              && ok == d.Some?
              && if ok then base.rimeHdrLen == d.value.hdrLen && base.uncompHdrLen == d.value.uncomp && reass[..] == d.value.buf
                 else reass[..] == old(reass[..])
    {
      hide Decompress, Dispatch;
      ghost var f: Buffer := base.rime[..];
      base.uncompHdrLen, base.rimeHdrLen := 0, FragHdrLen(base.rime[..]);
      var h := base.rimeHdrLen;
      if h == FRAGN_HDR_LEN { return true; }
      if base.rime[h] & DISPATCH_MASK == DISPATCH_IPHC {
        var _ := base.UncompressHdr(size, from, to, frameLen, reass);
        assert base.rime[..] == f;
      } else if base.rime[h] == DISPATCH_IPV6 {
        assert base.rime[h + 1..h + 1 + IPH_LEN] == f[h + 1..h + 1 + IPH_LEN];
        Memcpy(reass, 0, base.rime[h + 1..h + 1 + IPH_LEN]);
        base.rimeHdrLen := h + 1 + IPH_LEN;
        base.uncompHdrLen := IPH_LEN;
        assert base.rime[..] == f;
      } else {
        return false;
      }
      return true;
    }

    /** The payload copy, the octet count and the hand-over to `uip`. */
    method CopyPayload(frameLen: nat, size: nat, last: bool, ghost d: Decoded) returns (delivered: bool)
      requires Valid() && frameLen <= MAC_MAX_PAYLOAD && size == SizeOf(base.rime[..])
      requires d.uncomp <= IPUDPH_LEN && d.hdrLen == base.rimeHdrLen && d.uncomp == base.uncompHdrLen
        && d.buf == reass[..]
      modifies `sicslowpanLen, `processedIpLen, base`uipLen, base.uip, reass
      ensures Valid() && base.rime[..] == old(base.rime[..])
      ensures Absorb(old(State()), base.rime[..], frameLen, last, d)
              == (State(), if delivered then Some(base.uip[..base.uipLen]) else None)
    {
      hide SizeOf, Dispatch, Val, Splice;
      ghost var f: Buffer := base.rime[..];
      if frameLen < base.rimeHdrLen { return false; }
      var payload := base.rime[base.rimeHdrLen..frameLen];
      assert payload == f[d.hdrLen..frameLen];
      var offset := if Dispatch(base.rime[..]) == FRAGN then Val(base.rime[4]) * 8 else 0;
      Memcpy(reass, base.uncompHdrLen + offset, payload);
      if size > 0 {
        if last {
          processedIpLen := size;
        } else {
          processedIpLen := (processedIpLen + (if Dispatch(base.rime[..]) == FRAG1 then base.uncompHdrLen else 0) + |payload|) % 0x1_0000;
        }
      } else {
        sicslowpanLen := |payload| + base.uncompHdrLen;
      }
      assert base.rime[..] == f;
      delivered := processedIpLen == 0 || processedIpLen == sicslowpanLen;
      if delivered { HandOver(); }
    }

    /** The complete packet copied to `uip`, and reassembly switched off. */
    method HandOver()
      requires Valid()
      modifies `sicslowpanLen, `processedIpLen, base`uipLen, base.uip
      ensures Valid() && State() == old(State()).(total := 0, done := 0)
      ensures base.uipLen == old(sicslowpanLen) && base.uip[..base.uipLen] == old(reass[..sicslowpanLen])
    {
      var packet := reass[..sicslowpanLen];
      Memcpy(base.uip, 0, packet);
      base.uipLen := sicslowpanLen;
      assert base.uip[..base.uipLen] == packet;
      sicslowpanLen, processedIpLen := 0, 0;
      assert base.rime[..] == old(base.rime[..]);
      assert reass[..] == old(reass[..]);
    }

    /** `input` in a fragmenting build, on a frame the MAC has just put in the frame buffer. */
    method Input(frame: seq<Byte>, from: LlAddr, to: LlAddr, expired: bool) returns (delivered: bool)
      requires Valid() && |frame| <= MAC_MAX_PAYLOAD
      modifies this, base`hc06, base`uncompHdrLen, base`rimeHdrLen, base`uipLen, base.uip, base.rime, reass
      ensures Valid()
      ensures Fragments.Input(base.contexts, old(State()), frame, from, to, expired)
              == (State(), if delivered then Some(base.uip[..base.uipLen]) else None)
    {
      hide Headers, Absorb, Dispatch, SizeOf, TagOf;
      Memcpy(base.rime, 0, frame);
      ghost var f: Buffer := base.rime[..];
      if expired { sicslowpanLen, processedIpLen := 0, 0; }
      var size, tag := SizeOf(base.rime[..]), TagOf(base.rime[..]);
      var last := Dispatch(base.rime[..]) == FRAGN && processedIpLen + |frame| - FRAGN_HDR_LEN >= size;
      if processedIpLen > 0 {
        if size == 0 || size != sicslowpanLen || tag != reassTag || from != fragSender {
          return false;
        }
      } else if size > 0 {
        sicslowpanLen, reassTag, fragSender := size, tag, from;
      }
      ghost var s1 := State();
      var ok := ReadHeaders(from, to, |frame|, size);
      assert base.rime[..] == f;
      if !ok { return false; }
      ghost var d := Headers(base.contexts, f, |frame|, from, to, s1.buf).value;
      assert Absorb(s1.(buf := d.buf), f, |frame|, last, d) == Absorb(s1, f, |frame|, last, d) by {
        AbsorbIgnoresBuf(s1, f, |frame|, last, d);
      }
      delivered := CopyPayload(|frame|, size, last, d);
    }
  }

  /** The buffer that counts is the one the headers were decompressed into. */
  lemma AbsorbIgnoresBuf(s: Reass, f: Buffer, n: nat, last: bool, d: Decoded)
    requires n <= MAC_MAX_PAYLOAD && n <= |f| && |s.buf| >= REASS_ROOM && |d.buf| == |s.buf|
      && d.uncomp <= IPUDPH_LEN && s.total < MAX_DATAGRAM
    ensures Absorb(s.(buf := d.buf), f, n, last, d) == Absorb(s, f, n, last, d)
  {}
}
