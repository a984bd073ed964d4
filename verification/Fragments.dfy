// 6LoWPAN fragmentation (section 5.3 of RFC 4944) as sicsLowPan.c does it: the
// frames `output` cuts a packet into, the reassembler inside `input` as a state
// machine over received frames, and the proof that the one undoes the other.
module Fragments {
  import opened Bytes
  import opened Iphc
  import opened Lowpan

  /** The five dispatch bits of a fragment: 11000 and 11100. */
  const FRAG1: nat := 24
  const FRAGN: nat := 28
  const FRAG1_HDR_LEN: nat := 4
  const FRAGN_HDR_LEN: nat := 5
  const MAX_DATAGRAM: nat := 2048
  /** `(MAC_MAX_PAYLOAD - FRAGN_HDR_LEN) & 0xf8`. */
  const NEXT_PAYLOAD: nat := 96
  /** Room for any fragment whose header can be expressed. */
  const REASS_ROOM: nat := 2190

  // --------------------------------------------------------------------- sending

  function FirstPayload(hdrLen: nat): nat
    requires hdrLen <= IPUDPH_LEN
  {
    (MAC_MAX_PAYLOAD - FRAG1_HDR_LEN - hdrLen) / 8 * 8
  }

  function NextPayload(len: nat, p: nat): nat
    requires p < len
  {
    if len - p < NEXT_PAYLOAD then len - p else NEXT_PAYLOAD
  }

  function FirstFragment(c: seq<Byte>, ip: Buffer, len: nat, tag: nat): seq<Byte>
    requires |c| <= IPUDPH_LEN && HeaderLen(ip) + FirstPayload(|c|) <= |ip|
  {
    Be16(0xC000 + len) + Be16(tag) + (c + ip[HeaderLen(ip)..HeaderLen(ip) + FirstPayload(|c|)])
  }

  function NextFragment(ip: Buffer, len: nat, tag: nat, p: nat): seq<Byte>
    requires p < len <= |ip|
  {
    Be16(0xE000 + len) + Be16(tag) + ([Low(p / 8)] + ip[p..p + NextPayload(len, p)])
  }

  /** The fragments that carry octets `p` to `len`. */
  function NextFragments(ip: Buffer, len: nat, tag: nat, p: nat): seq<seq<Byte>>
    requires p <= len <= |ip|
    decreases len - p
  {
    if p == len then [] else [NextFragment(ip, len, tag, p)] + NextFragments(ip, len, tag, p + NextPayload(len, p))
  }

  function FragmentsOf(c: seq<Byte>, ip: Buffer, len: nat, tag: nat): seq<seq<Byte>>
    requires |c| <= IPUDPH_LEN && HeaderLen(ip) + FirstPayload(|c|) <= len <= |ip|
  {
    [FirstFragment(c, ip, len, tag)] + NextFragments(ip, len, tag, HeaderLen(ip) + FirstPayload(|c|))
  }

  // ------------------------------------------------------------------- receiving

  /** The receiver's buffers and its reassembly variables; `done == 0` means reassembly is off. */
  datatype Reass = Reass(rime: Buffer, buf: Buffer, total: nat, done: nat, tag: nat, sender: LlAddr)

  function Dispatch(f: Buffer): nat { Get16(f, 0) / 2048 }
  predicate IsFragment(f: Buffer) { Dispatch(f) == FRAG1 || Dispatch(f) == FRAGN }
  function SizeOf(f: Buffer): (n: nat) ensures n < MAX_DATAGRAM { if IsFragment(f) then Get16(f, 0) % 2048 else 0 }
  function TagOf(f: Buffer): nat { if IsFragment(f) then Get16(f, 2) else 0 }
  function FragHdrLen(f: Buffer): nat {
    if Dispatch(f) == FRAG1 then FRAG1_HDR_LEN else if Dispatch(f) == FRAGN then FRAGN_HDR_LEN else 0
  }

  /** A frame that does not belong to the packet being reassembled. */
  predicate Foreign(st: Reass, f: Buffer, from: LlAddr) {
    st.done > 0 && (SizeOf(f) == 0 || SizeOf(f) != st.total || TagOf(f) != st.tag || from != st.sender)
  }

  /** The dispatch after any fragment header. `None`: unknown dispatch, frame dropped. */
  function Headers(t: Table, f: Buffer, n: nat, from: LlAddr, to: LlAddr, buf: Buffer): (r: Option<Decoded>)
    ensures r.Some? ==> |r.value.buf| == |buf| && r.value.uncomp <= IPUDPH_LEN
  {
    var h := FragHdrLen(f);
    if h == FRAGN_HDR_LEN then Some(Decoded(buf, h, 0, true))
    else if f[h] & DISPATCH_MASK == DISPATCH_IPHC then Some(Decompress(t, f, h, from, to, SizeOf(f), n, buf))
    else if f[h] == DISPATCH_IPV6 then
      Some(Decoded(Splice(buf, 0, f[h + 1..h + 1 + IPH_LEN]), h + 1 + IPH_LEN, IPH_LEN, true))
    else None
  }

  /** The payload copied behind the headers, the octets counted, and the packet handed up when the
      count says that it is complete. */
  function Absorb(s: Reass, f: Buffer, n: nat, last: bool, d: Decoded): (r: (Reass, Option<seq<Byte>>))
    requires n <= MAC_MAX_PAYLOAD && n <= |f| && |s.buf| >= REASS_ROOM && |d.buf| == |s.buf|
      && d.uncomp <= IPUDPH_LEN && s.total < MAX_DATAGRAM
    ensures |r.0.buf| == |s.buf| && |r.0.rime| == |s.rime| && r.0.total < MAX_DATAGRAM
  {
    if n < d.hdrLen then (s.(buf := d.buf), None)
    else
      var payload := f[d.hdrLen..n];
      var offset := if Dispatch(f) == FRAGN then Val(f[4]) * 8 else 0;
      var size := SizeOf(f);
      var buf := Splice(d.buf, d.uncomp + offset, payload);
      var done :=
        if size == 0 then s.done
        else if last then size
        else (s.done + (if Dispatch(f) == FRAG1 then d.uncomp else 0) + |payload|) % 0x1_0000;
      var total := if size == 0 then |payload| + d.uncomp else s.total;
      if done == 0 || done == total then (s.(buf := buf, total := 0, done := 0), Some(buf[..total]))
      else (s.(buf := buf, total := total, done := done), None)
  }

  /** `input` on one received frame: the state it leaves and the packet it delivers, if any. */
  function Input(t: Table, st: Reass, frame: seq<Byte>, from: LlAddr, to: LlAddr, expired: bool): (r: (Reass, Option<seq<Byte>>))
    requires |frame| <= MAC_MAX_PAYLOAD && |st.buf| >= REASS_ROOM && st.total < MAX_DATAGRAM
    ensures |r.0.buf| == |st.buf| && |r.0.rime| == |st.rime| && r.0.total < MAX_DATAGRAM
  {
    var f: Buffer := Splice(st.rime, 0, frame);
    var s0 := st.(rime := f, total := if expired then 0 else st.total, done := if expired then 0 else st.done);
    var size := SizeOf(f);
    var last := Dispatch(f) == FRAGN && s0.done + |frame| - FRAGN_HDR_LEN >= size;
    if Foreign(s0, f, from) then (s0, None)
    else
      var s1 := if s0.done == 0 && size > 0 then s0.(total := size, tag := TagOf(f), sender := from) else s0;
      var d := Headers(t, f, |frame|, from, to, s1.buf);
      if d.None? then (s1, None) else Absorb(s1, f, |frame|, last, d.value)
  }

  /** Frames received one after the other, in time, from one sender: what each of them delivers. */
  function Inputs(t: Table, st: Reass, frames: seq<seq<Byte>>, from: LlAddr, to: LlAddr): seq<Option<seq<Byte>>>
    requires |st.buf| >= REASS_ROOM && st.total < MAX_DATAGRAM
    requires forall k :: 0 <= k < |frames| ==> |frames[k]| <= MAC_MAX_PAYLOAD
    decreases |frames|
  {
    if frames == [] then []
    else
      var (next, out) := Input(t, st, frames[0], from, to, false);
      [out] + Inputs(t, next, frames[1..], from, to)
  }

  // ----------------------------------------------------------------- round trip

  /** Nothing is delivered before the last frame, and that one delivers `packet`. */
  predicate OnlyAtTheEnd(outs: seq<Option<seq<Byte>>>, packet: seq<Byte>) {
    |outs| > 0 && outs[|outs| - 1] == Some(packet) && forall k :: 0 <= k < |outs| - 1 ==> outs[k] == None
  }

  predicate Nothing(outs: seq<Option<seq<Byte>>>) { forall k :: 0 <= k < |outs| ==> outs[k] == None }

  predicate MeasuredAs(ip: Buffer, len: nat) {
    ip[4..6] == Be16(len - IPH_LEN) && (IsUdp(ip) ==> ip[44..46] == ip[4..6])
  }

  /** Any fragment: dispatch, size and tag as they were written, and the rest behind them. */
  lemma FragHeaderRead(rime: Buffer, base: nat, len: nat, tag: nat, rest: seq<Byte>)
    requires (base == FRAG1 || base == FRAGN) && len < MAX_DATAGRAM && tag < 0x1_0000 && 4 + |rest| <= MAC_MAX_PAYLOAD
    ensures var f := Splice(rime, 0, Be16(base * 2048 + len) + Be16(tag) + rest);
            Dispatch(f) == base && SizeOf(f) == len && TagOf(f) == tag && At(f, 4, rest)
  {
    hide Get16, Word, Low, Val, Be16;
    var head := Be16(base * 2048 + len) + Be16(tag);
    var f := Splice(rime, 0, head + rest);
    assert f[0..4 + |rest|] == head + rest;
    AtConcat(f, 0, head, rest);
    AtConcat(f, 0, Be16(base * 2048 + len), Be16(tag));
    Get16At(f, 0, base * 2048 + len);
    Get16At(f, 2, tag);
    hide At, Splice;
    HeaderFields(f, base, len, tag);
  }

  lemma HeaderFields(f: Buffer, base: nat, len: nat, tag: nat)
    requires (base == FRAG1 || base == FRAGN) && len < MAX_DATAGRAM && Get16(f, 0) == base * 2048 + len && Get16(f, 2) == tag
    ensures Dispatch(f) == base && SizeOf(f) == len && TagOf(f) == tag
  {
    hide Get16;
  }

  /** The offset octet counts blocks of eight. */
  lemma OffsetOctet(p: nat)
    requires p % 8 == 0 && p < MAX_DATAGRAM
    ensures Val(Low(p / 8)) * 8 == p
  {
    hide Low, Val;
    LowBits(p / 8);
  }

  /** What the receiver reads in the header of a later fragment. */
  lemma NextFragmentRead(ip: Buffer, len: nat, tag: nat, p: nat, rime: Buffer)
    requires p < len <= |ip| && len < MAX_DATAGRAM && p % 8 == 0 && tag < 0x1_0000
    ensures var frame := NextFragment(ip, len, tag, p);
            |frame| == FRAGN_HDR_LEN + NextPayload(len, p)
            && var f := Splice(rime, 0, frame);
            && Dispatch(f) == FRAGN && SizeOf(f) == len && TagOf(f) == tag && Val(f[4]) * 8 == p
            && f[FRAGN_HDR_LEN..|frame|] == ip[p..p + NextPayload(len, p)]
  {
    hide Get16, Word, SizeOf, TagOf, Dispatch, Low, Val, Be16, Splice;
    var data := ip[p..p + NextPayload(len, p)];
    var f := Splice(rime, 0, NextFragment(ip, len, tag, p));
    FragHeaderRead(rime, FRAGN, len, tag, [Low(p / 8)] + data);
    AtConcat(f, FRAG1_HDR_LEN, [Low(p / 8)], data);
    FirstOctet(f, FRAG1_HDR_LEN, [Low(p / 8)]);
    OffsetOctet(p);
  }

  /** Octets `p` on stored, `count` of them counted so far: the packet goes up when that is all. */
  function Stored(st: Reass, f: Buffer, buf: Buffer, count: nat): (Reass, Option<seq<Byte>>)
    requires st.total <= |buf|
  {
    if count == st.total then (st.(rime := f, buf := buf, total := 0, done := 0), Some(buf[..st.total]))
    else (st.(rime := f, buf := buf, done := count), None)
  }

  /** The whole state after one later fragment. */
  lemma NextFragmentStep(t: Table, st: Reass, ip: Buffer, len: nat, tag: nat, p: nat, from: LlAddr, to: LlAddr)
    requires |st.buf| >= REASS_ROOM && p < len <= |ip| && len < MAX_DATAGRAM && p % 8 == 0 && tag < 0x1_0000
    requires 0 < st.done <= p && st.total == len && st.tag == tag && st.sender == from
    ensures var n, frame := NextPayload(len, p), NextFragment(ip, len, tag, p);
            Input(t, st, frame, from, to, false)
            == Stored(st, Splice(st.rime, 0, frame), Splice(st.buf, p, ip[p..p + n]), st.done + n)
  {
    hide Get16, Word, Val, TagOf, SizeOf, NextFragment, Decompress, Splice, Dispatch, At, Absorb, Stored;
    NextFragmentRead(ip, len, tag, p, st.rime);
    var n := NextPayload(len, p);
    var f: Buffer := Splice(st.rime, 0, NextFragment(ip, len, tag, p));
    var d := Decoded(st.buf, FRAGN_HDR_LEN, 0, true);
    var last := st.done + n >= len;
    assert Absorb(st.(rime := f), f, FRAGN_HDR_LEN + n, last, d)
           == Input(t, st, NextFragment(ip, len, tag, p), from, to, false);
    AbsorbNext(st, f, n, p, ip[p..p + n]);
  }

  lemma AbsorbNext(st: Reass, f: Buffer, n: nat, p: nat, data: seq<Byte>)
    requires |st.buf| >= REASS_ROOM && 0 < st.total < MAX_DATAGRAM && FRAGN_HDR_LEN + n <= MAC_MAX_PAYLOAD
    requires Dispatch(f) == FRAGN && SizeOf(f) == st.total && Val(f[4]) * 8 == p
      && f[FRAGN_HDR_LEN..FRAGN_HDR_LEN + n] == data
    requires 0 < st.done && p + n <= st.total && st.done <= p
    ensures Absorb(st.(rime := f), f, FRAGN_HDR_LEN + n, st.done + n >= st.total, Decoded(st.buf, FRAGN_HDR_LEN, 0, true))
            == Stored(st, f, Splice(st.buf, p, data), st.done + n)
  {
    hide Get16, Word, Val, SizeOf, Dispatch, Splice;
  }

  /** All the later fragments, from octet `p` on, with `done` octets counted so far. */
  lemma NextFragmentsRun(t: Table, st: Reass, ip: Buffer, len: nat, tag: nat, p: nat, from: LlAddr, to: LlAddr)
    requires |st.buf| >= REASS_ROOM && p < len <= |ip| && len < MAX_DATAGRAM && p % 8 == 0 && tag < 0x1_0000
    requires 0 < st.done <= p && st.total == len && st.tag == tag && st.sender == from
    ensures forall k :: 0 <= k < |NextFragments(ip, len, tag, p)| ==> |NextFragments(ip, len, tag, p)[k]| <= MAC_MAX_PAYLOAD
    ensures var outs := Inputs(t, st, NextFragments(ip, len, tag, p), from, to);
            if st.done == p then OnlyAtTheEnd(outs, Splice(st.buf, p, ip[p..len])[..len]) else Nothing(outs)
    decreases len - p
  {
    hide Input, NextFragment, Splice;
    var n, frames := NextPayload(len, p), NextFragments(ip, len, tag, p);
    NextFragmentSize(ip, len, tag, p);
    NextFragmentStep(t, st, ip, len, tag, p, from, to);
    var (next, out) := Input(t, st, frames[0], from, to, false);
    if p + n < len {
      NextFragmentsRun(t, next, ip, len, tag, p + n, from, to);
      SpliceSplice(st.buf, p, ip[p..p + n], ip[p + n..len]);
      SliceSplit(ip, p, p + n, len);
      assert frames[1..] == NextFragments(ip, len, tag, p + n);
    } else {
      assert frames == [NextFragment(ip, len, tag, p)];
    }
  }

  lemma NextFragmentSize(ip: Buffer, len: nat, tag: nat, p: nat)
    requires p < len <= |ip|
    ensures |NextFragment(ip, len, tag, p)| == FRAGN_HDR_LEN + NextPayload(len, p) <= MAC_MAX_PAYLOAD
  {}

  /** The first fragment, as it lies in the receiver's frame buffer. */
  lemma FirstFragmentRead(c: seq<Byte>, ip: Buffer, len: nat, tag: nat, rime: Buffer)
    requires |c| <= IPUDPH_LEN && HeaderLen(ip) + FirstPayload(|c|) <= |ip| && len < MAX_DATAGRAM && tag < 0x1_0000
    ensures var frame := FirstFragment(c, ip, len, tag);
            |frame| == FRAG1_HDR_LEN + |c| + FirstPayload(|c|) <= MAC_MAX_PAYLOAD
            && var f := Splice(rime, 0, frame);
            && Dispatch(f) == FRAG1 && SizeOf(f) == len && TagOf(f) == tag && At(f, FRAG1_HDR_LEN, c)
            && f[FRAG1_HDR_LEN + |c|..|frame|] == ip[HeaderLen(ip)..HeaderLen(ip) + FirstPayload(|c|)]
  {
    hide Get16, Word, SizeOf, TagOf, Dispatch, Low, Val, Be16, Splice;
    var data := ip[HeaderLen(ip)..HeaderLen(ip) + FirstPayload(|c|)];
    var f := Splice(rime, 0, FirstFragment(c, ip, len, tag));
    FragHeaderRead(rime, FRAG1, len, tag, c + data);
    AtConcat(f, FRAG1_HDR_LEN, c, data);
  }

  /** A first fragment, given what the decompressor makes of its header. */
  lemma FirstInput(t: Table, st: Reass, frame: seq<Byte>, f: Buffer, len: nat, tag: nat, from: LlAddr, to: LlAddr, d: Decoded, data: seq<Byte>)
    requires |st.buf| >= REASS_ROOM && st.done == 0 && st.total < MAX_DATAGRAM && |frame| <= MAC_MAX_PAYLOAD
    requires f == Splice(st.rime, 0, frame) && Dispatch(f) == FRAG1 && SizeOf(f) == len && TagOf(f) == tag
    requires f[FRAG1_HDR_LEN] & DISPATCH_MASK == DISPATCH_IPHC
    requires d == Decompress(t, f, FRAG1_HDR_LEN, from, to, len, |frame|, st.buf)
    requires d.hdrLen <= |frame| && data == f[d.hdrLen..|frame|] && 0 < d.uncomp + |data| < len
    ensures Input(t, st, frame, from, to, false)
            == (st.(rime := f, total := len, tag := tag, sender := from,
                    buf := Splice(d.buf, d.uncomp, data), done := d.uncomp + |data|), None)
  {
    hide Get16, Word, Val, TagOf, SizeOf, Decompress, Dispatch, Splice, Absorb;
    AbsorbFirst(st.(rime := f, total := len, tag := tag, sender := from), f, |frame|, d, data);
  }

  lemma AbsorbFirst(st: Reass, f: Buffer, n: nat, d: Decoded, data: seq<Byte>)
    requires |st.buf| >= REASS_ROOM && 0 < st.total < MAX_DATAGRAM && st.done == 0 && d.hdrLen <= n <= MAC_MAX_PAYLOAD
    requires Dispatch(f) == FRAG1 && SizeOf(f) == st.total && |d.buf| == |st.buf| && d.uncomp <= IPUDPH_LEN
    requires data == f[d.hdrLen..n] && 0 < d.uncomp + |data| < st.total
    ensures Absorb(st, f, n, false, d) == (st.(buf := Splice(d.buf, d.uncomp, data), done := d.uncomp + |data|), None)
  {
    hide Get16, Word, Val, SizeOf, Dispatch, Splice;
  }

  /** After the first fragment: nothing is delivered yet, and the header and the first part of the
      payload are in place, unless the decompressor gave up, when fewer octets have been counted. */
  lemma FirstFragmentStep(t: Table, other: Option<Context>, ip: Buffer, len: nat, sll: LlAddr, dll: LlAddr, tag: nat, st: Reass)
    requires WellFormed(t) && |st.buf| >= REASS_ROOM && st.done == 0 && st.total < MAX_DATAGRAM
    requires tag < 0x1_0000 && len < MAX_DATAGRAM && len <= |ip|
    requires var c := Compress(t, other, ip, sll, dll); |c| <= IPUDPH_LEN && HeaderLen(ip) + FirstPayload(|c|) < len
    ensures var c := Compress(t, other, ip, sll, dll);
            var h, p := HeaderLen(ip), HeaderLen(ip) + FirstPayload(|c|);
            var seen := SeenSrc(t, SentSci(t, other, ip), ip);
            |FirstFragment(c, ip, len, tag)| <= MAC_MAX_PAYLOAD
            && var (next, out) := Input(t, st, FirstFragment(c, ip, len, tag), sll, dll, false);
            && out == None && next.total == len && next.tag == tag && next.sender == sll && 0 < next.done
            && if seen.None? || (Multicast(Dst(ip)) && ByMcastPrefix(t, Dst(ip)).Some?) then next.done < p
               else next.done == p && next.buf == Splice(Rebuilt(ip, seen.value, Be16(len - IPH_LEN), st.buf), h, ip[h..p])
  {
    hide Get16, Word, Val, TagOf, SizeOf, FirstFragment, Input, Compress, SeenSrc, SentSci, ByMcastPrefix, Decompress,
      Rebuilt, At, Be16, Splice, Dispatch;
    CompressedSize(t, other, ip, sll, dll);
    var c := Compress(t, other, ip, sll, dll);
    FirstFragmentRead(c, ip, len, tag, st.rime);
    var frame, h, n := FirstFragment(c, ip, len, tag), HeaderLen(ip), FirstPayload(|c|);
    var f := Splice(st.rime, 0, frame);
    StartsIphc(t, other, ip, sll, dll);
    FirstOctet(f, FRAG1_HDR_LEN, c);
    DecompressCompressed(t, other, ip, sll, dll, f, FRAG1_HDR_LEN, len, |frame|, st.buf);
    var seen := SeenSrc(t, SentSci(t, other, ip), ip);
    var d := Decompress(t, f, FRAG1_HDR_LEN, sll, dll, len, |frame|, st.buf);
    if seen.None? || (Multicast(Dst(ip)) && ByMcastPrefix(t, Dst(ip)).Some?) {
      GivenUpIsShort(t, other, ip, sll, dll);
    }
    FirstInput(t, st, frame, f, len, tag, sll, dll, d, f[d.hdrLen..|frame|]);
  }

  lemma FirstOctet(f: seq<Byte>, p: nat, c: seq<Byte>)
    requires At(f, p, c) && |c| > 0
    ensures f[p] == c[0]
  {
    assert f[p..p + |c|][0] == c[0];
  }

  /** A silent frame before a run changes neither when nor what it delivers. */
  lemma AfterSilence(rest: seq<Option<seq<Byte>>>, got: seq<Byte>, packet: seq<Byte>)
    ensures Nothing(rest) ==> !OnlyAtTheEnd([None] + rest, packet)
    ensures OnlyAtTheEnd(rest, got) ==> (OnlyAtTheEnd([None] + rest, packet) <==> got == packet)
  {
    var outs := [None] + rest;
    assert outs[|outs| - 1] == if rest == [] then None else rest[|rest| - 1];
    assert forall k :: 0 < k < |outs| ==> outs[k] == rest[k - 1];
  }

  /** Header and both parts of the payload in place: the packet, exactly when header and lengths are. */
  lemma ReassembledExact(ip: Buffer, len: nat, src: Addr, was: Buffer, p: nat)
    requires HeaderLen(ip) <= p <= len <= |ip| && len <= |was|
    ensures var h, r := HeaderLen(ip), Rebuilt(ip, src, Be16(len - IPH_LEN), was);
            Splice(Splice(r, h, ip[h..p]), p, ip[p..len])[..len] == ip[..len]
            <==> ip[0] & 0xF0 == 0x60 && src == Src(ip) && MeasuredAs(ip, len)
  {
    hide Rebuilt, Splice, Be16;
    var h, r := HeaderLen(ip), Rebuilt(ip, src, Be16(len - IPH_LEN), was);
    SpliceSplice(r, h, ip[h..p], ip[p..len]);
    SliceSplit(ip, h, p, len);
    DeliveredExact(ip, len, src, Be16(len - IPH_LEN), was, Splice(r, h, ip[h..len]));
  }

  /** Fragments fed in order deliver the packet, at the last one and not before, if and only if the
      header is recoverable and the length fields are consistent. */
  lemma FragmentationRoundTrip(t: Table, other: Option<Context>, ip: Buffer, len: nat, sll: LlAddr, dll: LlAddr, tag: nat, st: Reass)
    requires WellFormed(t) && |st.buf| >= REASS_ROOM && st.done == 0 && st.total < MAX_DATAGRAM && tag < 0x1_0000
    requires HeaderLen(ip) <= len <= |ip| && len < MAX_DATAGRAM && !Fits(len, ip, |Compress(t, other, ip, sll, dll)|)
    ensures var c := Compress(t, other, ip, sll, dll);
            && |c| <= IPUDPH_LEN && HeaderLen(ip) + FirstPayload(|c|) < len
            && var frames := FragmentsOf(c, ip, len, tag);
            && (forall k :: 0 <= k < |frames| ==> |frames[k]| <= MAC_MAX_PAYLOAD)
            && (OnlyAtTheEnd(Inputs(t, st, frames, sll, dll), ip[..len])
                <==> Recoverable(t, other, ip) && MeasuredAs(ip, len))
  {
    hide Input, FirstFragment, NextFragments, Compress, SeenSrc, SentSci, SendsCid, ByMcastPrefix, SrcRecoverable,
      Rebuilt, Splice, Be16,
         OnlyAtTheEnd, Nothing, At, MeasuredAs;
    CompressedSize(t, other, ip, sll, dll);
    var c := Compress(t, other, ip, sll, dll);
    var h, p := HeaderLen(ip), HeaderLen(ip) + FirstPayload(|c|);
    FirstFragmentStep(t, other, ip, len, sll, dll, tag, st);
    SeenSrcExact(t, other, ip);
    var (next, out) := Input(t, st, FirstFragment(c, ip, len, tag), sll, dll, false);
    NextFragmentsRun(t, next, ip, len, tag, p, sll, dll);
    var frames, rest := FragmentsOf(c, ip, len, tag), NextFragments(ip, len, tag, p);
    assert frames[0] == FirstFragment(c, ip, len, tag) && frames[1..] == rest;
    var outs := Inputs(t, next, rest, sll, dll);
    assert Inputs(t, st, frames, sll, dll) == [None] + outs;
    var seen := SeenSrc(t, SentSci(t, other, ip), ip);
    AfterSilence(outs, Splice(next.buf, p, ip[p..len])[..len], ip[..len]);
    if seen.Some? && !(Multicast(Dst(ip)) && ByMcastPrefix(t, Dst(ip)).Some?) {
      ReassembledExact(ip, len, seen.value, st.buf, p);
    }
  }
}
