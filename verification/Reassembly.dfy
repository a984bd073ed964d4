// IPv6 reassembly of uip.c (uip_reass; section 4.5 of RFC 2460): fragments of a
// packet come in any order, repeated and overlapping, and a bitmap of 8-octet blocks
// says when the packet is whole.
module Reassembly {
  import opened Bytes
  import opened Bits
  import opened Checksum

  const FRAG_HDR: nat := 8

  // ------------------------------------------------------------------- the bitmap

  /** Block `k` is marked as received. */
  predicate Bit(bitmap: seq<Byte>, k: nat)
    requires k < 8 * |bitmap|
  {
    BitOf(bitmap[k / 8], k % 8)
  }

  /** What octet `i` of the bitmap becomes when the blocks from bit `ar` of octet `aq` to before bit `br`
      of octet `bq` arrive. */
  function MarkedAt(x: Byte, i: nat, aq: nat, ar: nat, bq: nat, br: nat): Byte
    requires ar < 8 && br < 8
  {
    if aq == bq then if i == aq then x | (From(ar) & !From(br)) else x
    else if i == aq then x | From(ar)
    else if aq < i < bq then 0xff
    else if i == bq then x | !From(br)
    else x
  }

  /** Blocks `a` to `b - 1` marked. */
  function Marked(bitmap: seq<Byte>, a: nat, b: nat): (r: seq<Byte>)
    ensures |r| == |bitmap|
    ensures forall i :: 0 <= i < |bitmap| ==> r[i] == MarkedAt(bitmap[i], i, a / 8, a % 8, b / 8, b % 8)
  {
    seq(|bitmap|, i requires 0 <= i < |bitmap| => MarkedAt(bitmap[i], i, a / 8, a % 8, b / 8, b % 8))
  }

  /** The update marks the blocks of the fragment and no others. */
  lemma MarkedBits(bitmap: seq<Byte>, a: nat, b: nat, k: nat)
    requires a <= b && k < 8 * |bitmap|
    ensures Bit(Marked(bitmap, a, b), k) <==> Bit(bitmap, k) || a <= k < b
  {
    hide BitOf, From, Marked, MarkedAt;
    var x, i, j := bitmap[k / 8], k / 8, k % 8;
    MarkedBit(x, i, a / 8, a % 8, b / 8, b % 8, j);
    Block(a, i, j);
    Block(b, i, j);
    assert k == 8 * i + j;
  }

  lemma MarkedBit(x: Byte, i: nat, aq: nat, ar: nat, bq: nat, br: nat, j: nat)
    requires j < 8 && ar < 8 && br < 8 && (aq < bq || (aq == bq && ar <= br))
    ensures BitOf(MarkedAt(x, i, aq, ar, bq, br), j)
            <==> BitOf(x, j) || ((aq < i || (aq == i && ar <= j)) && !(bq < i || (bq == i && br <= j)))
  {
    hide BitOf, From;
    var fa, fb := From(ar), From(br);
    BitFrom(ar, j);
    BitFrom(br, j);
    BitNot(fb, j);
    BitAnd(fa, !fb, j);
    BitOr(x, fa & !fb, j);
    BitOr(x, fa, j);
    BitOr(x, !fb, j);
    BitConst(j);
  }

  /** Block `j` of octet `i` against a block number. */
  lemma Block(a: nat, i: nat, j: nat)
    requires j < 8
    ensures a <= 8 * i + j <==> a / 8 < i || (a / 8 == i && a % 8 <= j)
  {}

  /** The two completeness tests of `uip_reass` for a packet of `n` octets. */
  predicate Full(bitmap: seq<Byte>, n: nat)
    requires n / 64 < |bitmap|
  {
    && (forall i :: 0 <= i < n / 64 ==> bitmap[i] == 0xff)
    && bitmap[n / 64] == !From(n / 8 % 8)
  }

  /** They hold exactly when every whole block is marked and none behind them in the last octet is. */
  lemma FullExact(bitmap: seq<Byte>, n: nat)
    requires n / 64 < |bitmap|
    ensures Full(bitmap, n) <==> (forall k :: 0 <= k < 8 * (n / 64 + 1) ==> (Bit(bitmap, k) <==> k < n / 8))
  {
    hide BitOf, From;
    if Full(bitmap, n) { FullBits(bitmap, n); }
    if forall k :: 0 <= k < 8 * (n / 64 + 1) ==> (Bit(bitmap, k) <==> k < n / 8) { BitsFull(bitmap, n); }
  }

  lemma FullBits(bitmap: seq<Byte>, n: nat)
    requires n / 64 < |bitmap| && Full(bitmap, n)
    ensures forall k :: 0 <= k < 8 * (n / 64 + 1) ==> (Bit(bitmap, k) <==> k < n / 8)
  {
    hide BitOf, From;
    var c := n / 64;
    assert n / 8 / 8 == c && n / 8 == 8 * c + n / 8 % 8;
    forall k | 0 <= k < 8 * (c + 1) ensures Bit(bitmap, k) <==> k < n / 8 {
      BitConst(k % 8);
      BitFrom(n / 8 % 8, k % 8);
      BitNot(From(n / 8 % 8), k % 8);
    }
  }

  lemma BitsFull(bitmap: seq<Byte>, n: nat)
    requires n / 64 < |bitmap|
    requires forall k :: 0 <= k < 8 * (n / 64 + 1) ==> (Bit(bitmap, k) <==> k < n / 8)
    ensures Full(bitmap, n)
  {
    hide BitOf, From;
    var c := n / 64;
    assert n / 8 / 8 == c && n / 8 == 8 * c + n / 8 % 8;
    forall i | 0 <= i < c ensures bitmap[i] == 0xff {
      forall j | 0 <= j < 8 ensures BitOf(bitmap[i], j) <==> BitOf(0xff, j) {
        BitConst(j);
        assert Bit(bitmap, 8 * i + j);
      }
      SameBits(bitmap[i], 0xff);
    }
    forall j | 0 <= j < 8 ensures BitOf(bitmap[c], j) <==> BitOf(!From(n / 8 % 8), j) {
      BitFrom(n / 8 % 8, j);
      BitNot(From(n / 8 % 8), j);
      assert Bit(bitmap, 8 * c + j) <==> 8 * c + j < n / 8;
    }
    SameBits(bitmap[c], !From(n / 8 % 8));
  }

  // ------------------------------------------------------------------- one fragment

  /** A packet in `uip_buf` whose headers were parsed up to a Fragment header: its length, the length of
      its extension headers and where the Next Header octet naming the Fragment header lies. */
  datatype Packet = Packet(bytes: seq<Byte>, len: nat, ext: nat, nextHdr: nat)

  predicate Formed(p: Packet) {
    && IP_HDR + p.ext + FRAG_HDR <= p.len <= |p.bytes| < 0x1_0000
    && p.nextHdr < IP_HDR + p.ext
  }

  predicate AllFormed(ps: seq<Packet>) { forall j :: 0 <= j < |ps| ==> Formed(ps[j]) }

  function Hdr(p: Packet): nat { IP_HDR + p.ext }

  function OffsetResMore(p: Packet): U16
    requires Formed(p)
  {
    Word(p.bytes[Hdr(p) + 2], p.bytes[Hdr(p) + 3])
  }

  function Offset(p: Packet): nat
    requires Formed(p)
  {
    OffsetResMore(p) / 8 * 8
  }

  predicate More(p: Packet)
    requires Formed(p)
  {
    OffsetResMore(p) % 2 == 1
  }

  function Id(p: Packet): seq<Byte>
    requires Formed(p)
  {
    p.bytes[Hdr(p) + 4..Hdr(p) + 8]
  }

  function Data(p: Packet): (r: seq<Byte>)
    requires Formed(p)
    ensures |r| == p.len - Hdr(p) - FRAG_HDR
  {
    p.bytes[Hdr(p) + FRAG_HDR..p.len]
  }

  function End(p: Packet): nat
    requires Formed(p)
  {
    Offset(p) + |Data(p)|
  }

  /** The static variables of the reassembly. */
  datatype State = State(on: bool, first: bool, last: bool, error: bool, id: seq<Byte>, len: nat,
                         buf: seq<Byte>, bitmap: seq<Byte>)

  datatype Result = Result(state: State, bytes: seq<Byte>, len: nat)

  /** What `uip_reass` takes for granted: the test against the buffer size leaves the headers out, so the
      fragment, and the packet it completes, must have room behind them, and a bit in the bitmap. */
  predicate Room(st: State, p: Packet): (r: bool)
    ensures r ==> Formed(p)
  {
    && Formed(p) && Hdr(p) <= |st.buf| < 0x1_0000
    && (End(p) <= |st.buf| ==> Hdr(p) + End(p) <= |st.buf| && End(p) / 64 < |st.bitmap|)
    && (st.on && st.last ==> Hdr(p) + st.len <= |st.buf| && st.len / 64 < |st.bitmap|)
    && |st.buf| <= |p.bytes|
  }

  function Begin(st: State, p: Packet): State
    requires Room(st, p)
  {
    if st.on then st
    else State(true, false, false, false, Id(p), st.len, Splice(st.buf, 0, p.bytes[..Hdr(p)]), Zeros(|st.bitmap|))
  }

  predicate SamePacket(st: State, p: Packet)
    requires Room(st, p)
  {
    st.buf[8..IP_HDR] == p.bytes[8..IP_HDR] && st.id == Id(p)
  }

  /** The packet with the Next Header octet of the first fragment put in front. */
  function Patched(p: Packet): (r: seq<Byte>)
    requires Formed(p)
    ensures |r| == |p.bytes|
  {
    if Offset(p) == 0 then p.bytes[p.nextHdr := p.bytes[Hdr(p)]] else p.bytes
  }

  function NoteFirst(st: State, p: Packet): (r: State)
    requires Room(st, p)
    ensures |r.buf| == |st.buf| && r.bitmap == st.bitmap && r.on == st.on
  {
    if Offset(p) == 0 then st.(first := true, buf := Splice(st.buf, 0, Patched(p)[..Hdr(p)])) else st
  }

  function NoteLast(st: State, p: Packet): (r: State)
    requires Formed(p)
    ensures r.buf == st.buf && r.bitmap == st.bitmap
  {
    if More(p) then st else st.(last := true, len := End(p))
  }

  function Store(st: State, p: Packet): (r: State)
    requires Formed(p) && Hdr(p) + End(p) <= |st.buf|
    ensures |r.buf| == |st.buf| && |r.bitmap| == |st.bitmap| && r.last == st.last && r.len == st.len
  {
    st.(buf := Splice(st.buf, Hdr(p) + Offset(p), Data(p)), bitmap := Marked(st.bitmap, Offset(p) / 8, End(p) / 8))
  }

  /** The whole packet, back in `uip_buf` with its own length. */
  function Assembled(bytes: seq<Byte>, buf: seq<Byte>, total: nat): (r: seq<Byte>)
    requires IP_HDR <= total <= |buf| <= |bytes|
    ensures |r| == |bytes|
  {
    Splice(Splice(bytes, 0, buf[..total]), 4, Be16(total - IP_HDR))
  }

  /** The packet comes out if the last fragment and all blocks have come. */
  function Conclude(s: State, p: Packet): Result
    requires Formed(p) && |s.buf| <= |p.bytes|
    requires s.last ==> Hdr(p) + s.len <= |s.buf| && s.len / 64 < |s.bitmap|
  {
    if s.last && Full(s.bitmap, s.len) then
      var total := Hdr(p) + s.len;
      Result(s.(on := false, len := total), Assembled(Patched(p), s.buf, total), total)
    else Result(s, Patched(p), 0)
  }

  /** What `uip_reass` does once the headers were looked at. */
  function Placed(s: State, p: Packet): Result
    requires Room(s, p) && s.on
  {
    if End(p) > |s.buf| then Result(s.(on := false), Patched(p), 0)
    else if More(p) && |Data(p)| % 8 != 0 then Result(s.(on := false, error := true), Patched(p), p.len)
    else
      LastRoom(s, p);
      Conclude(Store(NoteLast(s, p), p), p)
  }

  lemma LastRoom(s: State, p: Packet)
    requires Room(s, p) && s.on && End(p) <= |s.buf|
    ensures var s2 := NoteLast(s, p);
            s2.last ==> s2.len / 64 < |s2.bitmap| && Hdr(p) + s2.len <= |s.buf|
    ensures |s.buf| <= |p.bytes| && Hdr(p) + End(p) <= |s.buf| && End(p) / 64 < |s.bitmap|
  {
    hide Offset, Data, Splice, Patched;
  }

  lemma BeginRoom(st: State, p: Packet)
    requires Room(st, p)
    ensures Room(Begin(st, p), p)
  {
    hide Offset, Data, Splice;
  }

  lemma FirstRoom(st: State, p: Packet)
    requires Room(st, p)
    ensures Room(NoteFirst(st, p), p)
  {
    hide Offset, Data, Splice;
  }

  /** `uip_reass`. */
  function Reass(st: State, p: Packet): Result
    requires Room(st, p)
  {
    var s0 := Begin(st, p);
    BeginRoom(st, p);
    FirstRoom(s0, p);
    if SamePacket(s0, p) then Placed(NoteFirst(s0, p), p) else Result(s0, p.bytes, 0)
  }

  /** The Fragment header of section 4.5 of RFC 2460: 13 bits of offset in units of eight octets, the M flag, 32 bits
      of identification, and the data behind them. */
  lemma FragmentFields(p: Packet)
    requires Formed(p)
    ensures var h := 40 + p.ext;
            && Offset(p) == Val(p.bytes[h + 2]) * 256 + Val(p.bytes[h + 3]) / 8 * 8
            && (More(p) <==> Val(p.bytes[h + 3]) % 2 == 1)
            && Id(p) == [p.bytes[h + 4], p.bytes[h + 5], p.bytes[h + 6], p.bytes[h + 7]] && Data(p) == p.bytes[h + 8..p.len]
  {
    hide Val;
    var h := 40 + p.ext;
    var a, b := Val(p.bytes[h + 2]), Val(p.bytes[h + 3]);
    EightsOf(a, b);
  }

  lemma EightsOf(a: nat, b: nat)
    ensures (a * 256 + b) / 8 * 8 == a * 256 + b / 8 * 8 && (a * 256 + b) % 2 == b % 2
  {
    assert (a * 256 + b) / 8 == a * 32 + b / 8;
  }

  /** While a packet is being put together, a fragment with other addresses or another identification leaves everything
      as it is; the very first fragment is always taken for one of its packet. */
  lemma OtherPacketLeft(st: State, p: Packet)
    requires Room(st, p) && st.on && (st.buf[8..40] != p.bytes[8..40] || st.id != p.bytes[44 + p.ext..48 + p.ext])
    ensures Reass(st, p) == Result(st, p.bytes, 0)
  {
    hide Placed, NoteFirst, Offset, Data;
  }

  /** A fragment of the packet that reaches behind the buffer ends the reassembly; so does one that is not the last and not
      of whole blocks, and it alone is returned, for the error message. */
  lemma Ends(st: State, p: Packet)
    requires Room(st, p) && SamePacket(Begin(st, p), p)
    requires End(p) > |st.buf| || (More(p) && |Data(p)| % 8 != 0)
    ensures var r := Reass(st, p);
            !r.state.on && r.len == (if End(p) > |st.buf| then 0 else p.len) && (r.state.error <==> r.len != 0 || (st.on && st.error))
  {
    BeginRoom(st, p);
    FirstRoom(Begin(st, p), p);
    LenIsSome(p);
    hide Offset, Data, Splice, Patched, SamePacket, Formed;
  }

  lemma LenIsSome(p: Packet)
    requires Formed(p)
    ensures p.len > 0
  {}

  /** With the buffer of 160 octets and the bitmap of 2 that are configured, an accepted fragment has its room
      exactly when it fits behind its headers and, once the last fragment has come, the packet does too; a bit
      in the bitmap they then have as well. */
  lemma RoomAsConfigured(st: State, p: Packet)
    requires |st.buf| == 160 && |st.bitmap| == 2
    requires Formed(p) && |p.bytes| >= 160 && End(p) <= |st.buf|
    ensures Room(st, p) <==> Hdr(p) + End(p) <= |st.buf| && (st.on && st.last ==> Hdr(p) + st.len <= |st.buf|)
  {
    hide Offset, Data;
  }

  /** A last fragment of eight octets at offset 120 passes the size test and has neither. */
  lemma AcceptedWithoutRoom(st: State)
    requires |st.buf| == 160 && |st.bitmap| == 2
    ensures var p := Packet(Zeros(160)[0 := 0x60][5 := 16][6 := 44][43 := 120], 56, 0, 6);
            && Formed(p) && End(p) <= |st.buf|
            && Hdr(p) + End(p) > |st.buf| && End(p) / 64 >= |st.bitmap| && !Room(st, p)
  {
    var p := Packet(Zeros(160)[0 := 0x60][5 := 16][6 := 44][43 := 120], 56, 0, 6);
    assert OffsetResMore(p) == Word(0, 120) == 120;
  }

  // -------------------------------------------------------- the packet being rebuilt

  /** An original packet: its unfragmentable part as the fragments carry it, the Next Header value behind
      it, its identification and its fragmentable part. */
  datatype Whole = Whole(unfrag: seq<Byte>, nextHdr: nat, next: Byte, id: seq<Byte>, payload: seq<Byte>)

  predicate Sound(w: Whole) {
    && |w.unfrag| >= IP_HDR && w.nextHdr < |w.unfrag| && w.nextHdr !in {4, 5} && !(8 <= w.nextHdr < IP_HDR)
    && |w.unfrag| + |w.payload| < 0x1_0000
  }

  /** `p` is a fragment of `w`: any cut of it, last fragments ending where the packet ends and the others
      of whole blocks. Only the payload length octets of the header may differ. */
  predicate Of(w: Whole, p: Packet): (r: bool)
    ensures r ==> Formed(p)
  {
    && Formed(p) && Hdr(p) == |w.unfrag| && p.nextHdr == w.nextHdr && Id(p) == w.id
    && (forall i :: 0 <= i < |w.unfrag| && i != 4 && i != 5 ==> p.bytes[i] == w.unfrag[i])
    && (Offset(p) == 0 ==> p.bytes[Hdr(p)] == w.next)
    && End(p) <= |w.payload| && Data(p) == w.payload[Offset(p)..End(p)]
    && (if More(p) then |Data(p)| % 8 == 0 else End(p) == |w.payload|)
  }

  /** The packet before it was cut. */
  function Original(w: Whole): (r: seq<Byte>)
    requires Sound(w)
    ensures |r| == |w.unfrag| + |w.payload|
  {
    Splice(w.unfrag[w.nextHdr := w.next], 4, Be16(|w.unfrag| + |w.payload| - IP_HDR)) + w.payload
  }

  /** Octet `i` of the fragmentable part came in one of `ps`. */
  predicate Received(ps: seq<Packet>, i: nat)
    requires AllFormed(ps)
  {
    exists j :: 0 <= j < |ps| && Offset(ps[j]) <= i < End(ps[j])
  }

  predicate GotLast(ps: seq<Packet>)
    requires AllFormed(ps)
  {
    exists j :: 0 <= j < |ps| && !More(ps[j])
  }

  predicate GotFirst(ps: seq<Packet>)
    requires AllFormed(ps)
  {
    exists j :: 0 <= j < |ps| && Offset(ps[j]) == 0
  }

  /** Everything arrived: the end of the packet and every octet of it. */
  predicate Complete(w: Whole, ps: seq<Packet>)
    requires AllFormed(ps)
  {
    GotLast(ps) && forall i :: 0 <= i < |w.payload| ==> Received(ps, i)
  }

  predicate Covered(ps: seq<Packet>, k: nat)
    requires AllFormed(ps)
  {
    exists j :: 0 <= j < |ps| && Offset(ps[j]) / 8 <= k < End(ps[j]) / 8
  }

  predicate AllOf(w: Whole, ps: seq<Packet>): (r: bool)
    ensures r ==> AllFormed(ps)
  {
    forall j :: 0 <= j < |ps| ==> Of(w, ps[j])
  }

  /** With the last fragment in, all octets are there exactly when all whole blocks are: the rest of an
      unaligned end can only come in the last fragment. */
  lemma BlocksSuffice(w: Whole, ps: seq<Packet>)
    requires AllOf(w, ps) && GotLast(ps)
    ensures Complete(w, ps) <==> forall k :: 0 <= k < |w.payload| / 8 ==> Covered(ps, k)
    ensures Complete(w, ps) ==> GotFirst(ps)
  {
    hide OffsetResMore, Data, Id, AllOf, Formed, AllFormed;
    if forall k :: 0 <= k < |w.payload| / 8 ==> Covered(ps, k) {
      BlocksToOctets(w, ps);
    }
    if Complete(w, ps) {
      OctetsToBlocks(w, ps);
    }
  }

  lemma BlocksToOctets(w: Whole, ps: seq<Packet>)
    requires AllOf(w, ps) && GotLast(ps) && forall k :: 0 <= k < |w.payload| / 8 ==> Covered(ps, k)
    ensures Complete(w, ps)
  {
    hide OffsetResMore, Data, Id, Of, Offset, Received;
    var n := |w.payload|;
    var last :| 0 <= last < |ps| && !More(ps[last]);
    forall i | 0 <= i < n ensures Received(ps, i) {
      if i / 8 < n / 8 {
        assert Covered(ps, i / 8);
        var j :| 0 <= j < |ps| && Offset(ps[j]) / 8 <= i / 8 < End(ps[j]) / 8;
        BlockHolds(w, ps, j, i);
      } else {
        TailHolds(w, ps, last, i);
      }
    }
  }

  lemma BlockHolds(w: Whole, ps: seq<Packet>, j: nat, i: nat)
    requires AllOf(w, ps) && j < |ps| && Offset(ps[j]) / 8 <= i / 8 < End(ps[j]) / 8
    ensures Received(ps, i)
  {
    hide OffsetResMore, Data, Id, Of, End;
    Eights(OffsetResMore(ps[j]) / 8, End(ps[j]), i);
    assert Offset(ps[j]) <= i < End(ps[j]);
  }

  lemma Eights(o: nat, e: nat, i: nat)
    requires o * 8 / 8 <= i / 8 < e / 8
    ensures o * 8 <= i < e
  {}

  /** Octets behind the last whole block come with the last fragment. */
  lemma TailHolds(w: Whole, ps: seq<Packet>, last: nat, i: nat)
    requires AllOf(w, ps) && last < |ps| && !More(ps[last]) && |w.payload| / 8 * 8 <= i < |w.payload|
    ensures Received(ps, i)
  {
    hide OffsetResMore, Data, Id;
    assert Of(w, ps[last]);
    Tail(OffsetResMore(ps[last]) / 8, |w.payload|, i);
    assert Offset(ps[last]) <= i < End(ps[last]);
  }

  lemma Tail(o: nat, n: nat, i: nat)
    requires o * 8 <= n && n / 8 * 8 <= i < n
    ensures o * 8 <= i
  {}

  lemma OctetsToBlocks(w: Whole, ps: seq<Packet>)
    requires AllOf(w, ps) && Complete(w, ps)
    ensures (forall k :: 0 <= k < |w.payload| / 8 ==> Covered(ps, k)) && GotFirst(ps)
  {
    hide OffsetResMore, Data, Id;
    var n := |w.payload|;
    forall k | 0 <= k < n / 8 ensures Covered(ps, k) {
      assert Received(ps, 8 * k);
      var j :| 0 <= j < |ps| && Offset(ps[j]) <= 8 * k < End(ps[j]);
      assert Of(w, ps[j]);
      WholeBlocks(w, ps[j], k);
    }
    if n > 0 {
      assert Received(ps, 0);
    } else {
      var last :| 0 <= last < |ps| && !More(ps[last]);
      assert Of(w, ps[last]);
    }
  }

  /** A fragment with the first octet of a whole block has all of it. */
  lemma WholeBlocks(w: Whole, p: Packet, k: nat)
    requires Of(w, p) && k < |w.payload| / 8 && Offset(p) <= 8 * k < End(p)
    ensures Offset(p) / 8 <= k < End(p) / 8
  {
    hide OffsetResMore, Data, Id;
    assert |Data(p)| == End(p) - Offset(p);
    if More(p) {
      assert End(p) % 8 == 0;
    }
  }

  // ---------------------------------------------------------------- the run so far

  /** The reassembly buffer holds the headers, and every octet of the payload that arrived. */
  predicate Holds(st: State, w: Whole, ps: seq<Packet>)
    requires Sound(w) && AllOf(w, ps)
  {
    && |w.unfrag| + |w.payload| <= |st.buf|
    && (forall i :: 0 <= i < |w.unfrag| && i != 4 && i != 5 && i != w.nextHdr ==> st.buf[i] == w.unfrag[i])
    && (st.first ==> st.buf[w.nextHdr] == w.next)
    && (forall i :: 0 <= i < |w.payload| && Received(ps, i) ==> st.buf[|w.unfrag| + i] == w.payload[i])
  }

  predicate Marks(st: State, ps: seq<Packet>)
    requires AllFormed(ps)
  {
    forall k :: 0 <= k < 8 * |st.bitmap| ==> (Bit(st.bitmap, k) <==> Covered(ps, k))
  }

  predicate Flags(st: State, w: Whole, ps: seq<Packet>)
    requires AllFormed(ps)
  {
    && st.on && st.id == w.id && (st.first <==> GotFirst(ps)) && (st.last <==> GotLast(ps))
    && (st.last ==> st.len == |w.payload|)
  }

  /** The variables after the fragments `ps` of `w`, while the packet is not whole. */
  predicate Tracks(st: State, w: Whole, ps: seq<Packet>)
    requires Sound(w)
  {
    && AllOf(w, ps) && Holds(st, w, ps) && Marks(st, ps) && Flags(st, w, ps)
  }

  /** The buffers are large enough for `w`. */
  predicate Fits(st: State, w: Whole) {
    |w.unfrag| + |w.payload| <= |st.buf| < 0x1_0000 && |w.payload| / 64 < |st.bitmap|
  }

  predicate Buffered(st: State, ps: seq<Packet>) { forall j :: 0 <= j < |ps| ==> |st.buf| <= |ps[j].bytes| }

  /** What the last call did: the whole packet with its own length, or nothing and the run goes on. */
  predicate Stepped(r: Result, w: Whole, ps: seq<Packet>)
    requires Sound(w) && AllOf(w, ps)
  {
    if Complete(w, ps) then
      && r.len == |w.unfrag| + |w.payload| <= |r.bytes| && r.bytes[..r.len] == Original(w) && !r.state.on
    else
      r.len == 0 && Tracks(r.state, w, ps)
  }

  lemma Shorter(w: Whole, ps: seq<Packet>)
    requires ps != [] && AllOf(w, ps) && AllFormed(ps[..|ps| - 1]) && !Complete(w, ps)
    ensures !Complete(w, ps[..|ps| - 1])
  {
    var front, p := ps[..|ps| - 1], ps[|ps| - 1];
    assert ps == front + [p];
    MoreReceived(front, p);
    hide Received, GotLast, Covered, GotFirst, Of;
  }

  lemma SameRoom(st: State, s: State, w: Whole)
    requires Fits(st, w) && |s.buf| == |st.buf| && |s.bitmap| == |st.bitmap|
    ensures Fits(s, w)
  {}

  // ------------------------------------------------------------------ one more step

  lemma MoreReceived(ps: seq<Packet>, p: Packet)
    requires Formed(p) && AllFormed(ps)
    ensures AllFormed(ps + [p])
    ensures forall i: nat :: Received(ps + [p], i) <==> Received(ps, i) || Offset(p) <= i < End(p)
    ensures forall k: nat :: Covered(ps + [p], k) <==> Covered(ps, k) || Offset(p) / 8 <= k < End(p) / 8
    ensures GotLast(ps + [p]) <==> GotLast(ps) || !More(p)
    ensures GotFirst(ps + [p]) <==> GotFirst(ps) || Offset(p) == 0
  {
    hide Formed, Offset, End, More;
    var all := ps + [p];
    assert all[|ps|] == p;
    assert forall j :: 0 <= j < |ps| ==> all[j] == ps[j];
  }

  lemma StartTracks(st: State, w: Whole, p: Packet)
    requires Sound(w) && Of(w, p) && Fits(st, w) && |st.buf| <= |p.bytes| && !st.on
    ensures Room(st, p) && Room(Begin(st, p), p)
    ensures Tracks(Begin(st, p), w, []) && Reass(st, p) == Reass(Begin(st, p), p) && Fits(Begin(st, p), w)
  {
    hide OffsetResMore, Data, Id, BitOf, Reass;
    RoomFor(st, w, p);
    var s := Begin(st, p);
    RoomFor(s, w, p);
    assert Begin(s, p) == s;
    ReassBegun(st, p);
    forall k | 0 <= k < 8 * |s.bitmap| ensures !Bit(s.bitmap, k) { BitConst(k % 8); }
  }

  lemma ReassBegun(st: State, p: Packet)
    requires Room(st, p) && Room(Begin(st, p), p)
    ensures Reass(st, p) == Reass(Begin(st, p), p)
  {
    hide SamePacket, NoteFirst, NoteLast, Store, Full, Assembled;
  }

  lemma RoomFor(st: State, w: Whole, p: Packet)
    requires Of(w, p) && Fits(st, w) && |st.buf| <= |p.bytes| && (st.on && st.last ==> st.len == |w.payload|)
    ensures Room(st, p) && End(p) <= |st.buf| && Hdr(p) + End(p) <= |st.buf|
  {
    hide OffsetResMore, Data, Id;
  }

  lemma FromSamePacket(s: State, w: Whole, ps: seq<Packet>, p: Packet)
    requires Sound(w) && Tracks(s, w, ps) && Of(w, p) && Room(s, p)
    ensures SamePacket(s, p)
  {
    hide Received, GotFirst, GotLast, Marks, Offset, Data, End, More;
    assert forall i :: 8 <= i < IP_HDR ==> s.buf[i] == p.bytes[i];
  }

  lemma FirstHolds(s: State, w: Whole, ps: seq<Packet>, p: Packet)
    requires Sound(w) && AllOf(w, ps) && Holds(s, w, ps) && Of(w, p) && Room(s, p)
    ensures Holds(NoteFirst(s, p), w, ps)
  {
    hide Received, OffsetResMore, Data, Id, More;
    if Offset(p) == 0 {
      var t := NoteFirst(s, p);
      assert forall i :: |w.unfrag| <= i < |s.buf| ==> t.buf[i] == s.buf[i];
    }
  }

  lemma OfData(w: Whole, p: Packet)
    requires Of(w, p)
    ensures Hdr(p) == |w.unfrag| && End(p) <= |w.payload| && Data(p) == w.payload[Offset(p)..End(p)]
    ensures More(p) ==> |Data(p)| % 8 == 0
  {
    hide Offset, More, Id;
  }

  lemma StoreHolds(s: State, w: Whole, ps: seq<Packet>, p: Packet)
    requires Sound(w) && AllOf(w, ps) && Holds(s, w, ps) && Of(w, p) && Hdr(p) + End(p) <= |s.buf|
    ensures AllOf(w, ps + [p]) && Holds(Store(s, p), w, ps + [p])
  {
    hide Received, Offset, Data, Id, More, Marked, Of, Splice, Covered, GotFirst, GotLast, AllFormed, Formed;
    MoreReceived(ps, p);
    OfData(w, p);
    var t := Store(s, p);
    forall i | 0 <= i < |w.payload| && Received(ps + [p], i) ensures t.buf[|w.unfrag| + i] == w.payload[i] {
      if Offset(p) <= i < End(p) {
        assert Data(p)[i - Offset(p)] == w.payload[i];
      }
    }
  }

  lemma StoreMarks(s: State, ps: seq<Packet>, p: Packet)
    requires Formed(p) && AllFormed(ps) && Marks(s, ps) && Hdr(p) + End(p) <= |s.buf|
    ensures AllFormed(ps + [p]) && Marks(Store(s, p), ps + [p])
  {
    MoreReceived(ps, p);
    hide Covered, Formed, OffsetResMore, Bit, Marked;
    var a, b := Offset(p) / 8, End(p) / 8;
    forall k | 0 <= k < 8 * |s.bitmap| ensures Bit(Marked(s.bitmap, a, b), k) <==> Covered(ps + [p], k) {
      MarkedBits(s.bitmap, a, b, k);
    }
  }

  /** All variables after a fragment was stored. */
  lemma StoreTracks(s: State, w: Whole, ps: seq<Packet>, p: Packet)
    requires Sound(w) && Tracks(s, w, ps) && Of(w, p) && Room(s, p) && Hdr(p) + End(p) <= |s.buf|
    ensures Tracks(Store(NoteLast(NoteFirst(s, p), p), p), w, ps + [p])
  {
    var s1 := NoteFirst(s, p);
    var s2 := NoteLast(s1, p);
    FirstHolds(s, w, ps, p);
    LastKeeps(s1, w, ps, p);
    StoreHolds(s2, w, ps, p);
    SameMarks(s, s2, ps);
    StoreMarks(s2, ps, p);
    MoreReceived(ps, p);
    hide Holds, Marks, Of, Offset, More, End, Splice, GotFirst, GotLast;
  }

  lemma LastKeeps(s: State, w: Whole, ps: seq<Packet>, p: Packet)
    requires Sound(w) && AllOf(w, ps) && Holds(s, w, ps) && Of(w, p)
    ensures Holds(NoteLast(s, p), w, ps)
  {
    hide Received, Of;
  }

  lemma SameMarks(s: State, t: State, ps: seq<Packet>)
    requires AllFormed(ps) && Marks(s, ps) && t.bitmap == s.bitmap
    ensures Marks(t, ps)
  {
    hide Formed, Covered, Bit;
  }

  /** The completeness tests are right. */
  lemma FullMeansComplete(s: State, w: Whole, ps: seq<Packet>)
    requires Sound(w) && Tracks(s, w, ps) && s.last && |w.payload| / 64 < |s.bitmap|
    ensures Full(s.bitmap, s.len) <==> Complete(w, ps)
  {
    var n := |w.payload|;
    FullExact(s.bitmap, n);
    BlocksSuffice(w, ps);
    hide Full, Complete, Holds, Bit, Offset;
    forall k: nat | Covered(ps, k) ensures k < n / 8 {
      var j :| 0 <= j < |ps| && Offset(ps[j]) / 8 <= k < End(ps[j]) / 8;
      assert Of(w, ps[j]);
    }
  }

  /** The buffer holds the whole packet. */
  lemma AssembledOriginal(s: State, w: Whole, ps: seq<Packet>, p: Packet)
    requires Sound(w) && Tracks(s, w, ps) && Complete(w, ps) && Of(w, p) && |s.buf| <= |p.bytes|
    ensures Assembled(Patched(p), s.buf, |w.unfrag| + |w.payload|)[..|w.unfrag| + |w.payload|] == Original(w)
  {
    hide Received, Marks, Splice, GotFirst, GotLast, Patched, Covered, Of, AllOf, Assembled, Original;
    BlocksSuffice(w, ps);
    forall i | 0 <= i < |w.payload| ensures s.buf[|w.unfrag| + i] == w.payload[i] {
      assert Received(ps, i);
    }
    AssembledAt(w, Patched(p), s.buf);
  }

  lemma AssembledAt(w: Whole, bytes: seq<Byte>, buf: seq<Byte>)
    requires Sound(w) && |w.unfrag| + |w.payload| <= |buf| <= |bytes|
    requires forall i :: 0 <= i < |w.unfrag| && i != 4 && i != 5 && i != w.nextHdr ==> buf[i] == w.unfrag[i]
    requires buf[w.nextHdr] == w.next
    requires forall i :: 0 <= i < |w.payload| ==> buf[|w.unfrag| + i] == w.payload[i]
    ensures Assembled(bytes, buf, |w.unfrag| + |w.payload|)[..|w.unfrag| + |w.payload|] == Original(w)
  {
    hide Splice, Be16, Assembled, Original;
    var total := |w.unfrag| + |w.payload|;
    var r, o := Assembled(bytes, buf, total), Original(w);
    forall i | 0 <= i < total ensures r[i] == o[i] {
      AssembledOctet(bytes, buf, total, i);
      OriginalOctet(w, i);
    }
  }

  lemma AssembledOctet(bytes: seq<Byte>, buf: seq<Byte>, total: nat, i: nat)
    requires IP_HDR <= total <= |buf| <= |bytes| && i < total
    ensures Assembled(bytes, buf, total)[i] == if i == 4 || i == 5 then Be16(total - IP_HDR)[i - 4] else buf[i]
  {
    hide Splice, Be16;
  }

  lemma OriginalOctet(w: Whole, i: nat)
    requires Sound(w) && i < |w.unfrag| + |w.payload|
    ensures Original(w)[i] ==
            if i == 4 || i == 5 then Be16(|w.unfrag| + |w.payload| - IP_HDR)[i - 4]
            else if i == w.nextHdr then w.next
            else if i < |w.unfrag| then w.unfrag[i] else w.payload[i - |w.unfrag|]
  {
    hide Splice, Be16;
  }

  /** The call as it goes for a fragment of the packet under way. */
  lemma ReassTracked(s: State, w: Whole, p: Packet)
    requires Of(w, p) && Room(s, p) && s.on && SamePacket(s, p) && End(p) <= |s.buf| && Hdr(p) + End(p) <= |s.buf|
    ensures var s3 := Store(NoteLast(NoteFirst(s, p), p), p);
            (s3.last ==> s3.len / 64 < |s3.bitmap| && Hdr(p) + s3.len <= |s.buf|) && |s.buf| <= |p.bytes| &&
            Reass(s, p) == Conclude(s3, p)
  {
    hide Conclude, SamePacket, Of, Data, Id, Room, NoteFirst, NoteLast, Store, Offset, More;
    OfData(w, p);
    BeginRoom(s, p);
    FirstRoom(s, p);
    LastRoom(NoteFirst(s, p), p);
    assert Begin(s, p) == s;
  }

  /** One call: either the packet is whole and comes out, or the variables follow. */
  lemma StepTracks(s: State, w: Whole, ps: seq<Packet>, p: Packet)
    requires Sound(w) && Tracks(s, w, ps) && Of(w, p) && Fits(s, w) && |s.buf| <= |p.bytes|
    ensures Room(s, p)
    ensures var r := Reass(s, p);
            AllOf(w, ps + [p]) && Stepped(r, w, ps + [p]) && |r.state.buf| == |s.buf| && |r.state.bitmap| == |s.bitmap|
  {
    hide Holds, Marks, GotFirst, GotLast, Offset, Id, Splice, Full, Original, Assembled, Patched, SamePacket, Complete,
      NoteFirst, NoteLast, Store, Reass, Room, Of, AllOf;
    RoomFor(s, w, p);
    FromSamePacket(s, w, ps, p);
    StoreTracks(s, w, ps, p);
    ReassTracked(s, w, p);
    OfData(w, p);
    var s3 := Store(NoteLast(NoteFirst(s, p), p), p);
    if s3.last { FullMeansComplete(s3, w, ps + [p]); }
    CompleteHasLast(w, ps + [p]);
    if Complete(w, ps + [p]) { AssembledOriginal(s3, w, ps + [p], p); }
    assert |s3.buf| == |s.buf|;
  }

  lemma CompleteHasLast(w: Whole, ps: seq<Packet>)
    requires AllFormed(ps)
    ensures Complete(w, ps) ==> GotLast(ps)
  {}

  /** `uip_reass` for each of `ps` in turn; the result of the last. Until the packet is whole every call
      returns 0; the call that makes it whole leaves the original packet in `uip_buf` and ends the
      reassembly. */
  function Feed(st: State, ps: seq<Packet>, ghost w: Whole): (r: Result)
    requires ps != [] && Sound(w) && AllOf(w, ps) && Fits(st, w) && Buffered(st, ps)
    requires !st.on && AllFormed(ps[..|ps| - 1]) && !Complete(w, ps[..|ps| - 1])
    ensures Stepped(r, w, ps) && |r.state.buf| == |st.buf| && |r.state.bitmap| == |st.bitmap|
    decreases |ps|
  {
    hide Reass, Complete, Of, Fits, Tracks;
    var p := ps[|ps| - 1];
    ghost var front := ps[..|ps| - 1];
    assert Of(w, p);
    assert ps == front + [p];
    if |ps| == 1 then
      StartTracks(st, w, p);
      StepTracks(Begin(st, p), w, [], p);
      Reass(st, p)
    else
      Shorter(w, front);
      var s := Feed(st, ps[..|ps| - 1], w).state;
      SameRoom(st, s, w);
      StepTracks(s, w, front, p);
      Reass(s, p)
  }

  // ------------------------------------------------------------- the static variables

  /** The flags, the reassembly buffer and the bitmap, updated in place. */
  class Reassembler {
    var on: bool
    var first: bool
    var last: bool
    var error: bool
    var id: seq<Byte>
    var len: nat
    const reassbuf: array<Byte>
    const bitmap: array<Byte>

    ghost function Contents(): State
      reads this, reassbuf, bitmap
    {
      State(on, first, last, error, id, len, reassbuf[..], bitmap[..])
    }

    constructor (reassbuf: array<Byte>, bitmap: array<Byte>)
      ensures this.reassbuf == reassbuf && this.bitmap == bitmap && !on
    {
      this.reassbuf, this.bitmap := reassbuf, bitmap;
      on, first, last, error, id, len := false, false, false, false, [], 0;
    }

    /** "Fill the stuff inbetween with 0xff". */
    method FillBetween(from: nat, to: nat)
      requires to <= bitmap.Length
      modifies bitmap
      ensures forall j :: 0 <= j < bitmap.Length ==> bitmap[j] == if from <= j < to then 0xff else old(bitmap[j])
    {
      var i := from;
      while i < to
        invariant from <= i
        invariant forall j :: 0 <= j < bitmap.Length ==>
                    bitmap[j] == if from <= j < i && j < to then 0xff else old(bitmap[j])
      {
        bitmap[i] := 0xff;
        i := i + 1;
      }
    }

    /** Blocks in different octets of the bitmap. */
    method MarkSpan(aq: nat, x: Byte, bq: nat, y: Byte)
      requires aq < bq < bitmap.Length
      modifies bitmap
      ensures forall j :: 0 <= j < bitmap.Length ==>
                bitmap[j] == if j == aq then old(bitmap[j]) | x else if aq < j < bq then 0xff
                             else if j == bq then old(bitmap[j]) | y else old(bitmap[j])
    {
      bitmap[aq] := bitmap[aq] | x;
      FillBetween(1 + aq, bq);
      bitmap[bq] := bitmap[bq] | y;
    }

    /** Blocks in one octet. */
    method MarkOne(a: nat, b: nat)
      requires a / 8 == b / 8 < bitmap.Length
      modifies bitmap
      ensures bitmap[..] == Marked(old(bitmap[..]), a, b)
    {
      hide From, Marked;
      bitmap[a / 8] := bitmap[a / 8] | (From(a % 8) & !From(b % 8));
    }

    /** "Update the bitmap": the two end octets and what lies between. */
    method MarkBlocks(a: nat, b: nat)
      requires a <= b && b / 8 < bitmap.Length
      modifies bitmap
      ensures bitmap[..] == Marked(old(bitmap[..]), a, b)
    {
      hide From, Marked;
      if a / 8 == b / 8 {
        MarkOne(a, b);
      } else {
        MarkSpan(a / 8, From(a % 8), b / 8, !From(b % 8));
      }
    }

    /** "Check if we have a full packet". */
    method IsFull() returns (full: bool)
      requires len / 64 < bitmap.Length
      ensures full <==> Full(bitmap[..], len)
    {
      hide From;
      var i := 0;
      while i < len / 64
        invariant 0 <= i <= len / 64
        invariant forall j :: 0 <= j < i ==> bitmap[j] == 0xff
      {
        if bitmap[i] != 0xff { return false; }
        i := i + 1;
      }
      full := bitmap[len / 64] == !From(len / 8 % 8);
    }

    /** Nothing being reassembled yet: take the headers over and clear the rest. */
    method Open(ghost p: Packet, buf: array<Byte>, ext: nat)
      requires p.bytes == buf[..] && p.ext == ext && Room(Contents(), p) && bitmap != reassbuf
      modifies this, reassbuf, bitmap
      ensures Contents() == Begin(old(Contents()), p)
    {
      hide Splice, Offset, Data, Zeros;
      if !on {
        Memcpy(reassbuf, 0, buf[..IP_HDR + ext]);
        on, first, last, error := true, false, false, false;
        id := buf[IP_HDR + ext + 4..IP_HDR + ext + 8];
        ClearBitmap();
      }
    }

    method ClearBitmap()
      modifies bitmap
      ensures bitmap[..] == Zeros(bitmap.Length)
      ensures reassbuf != bitmap ==> reassbuf[..] == old(reassbuf[..])
    {
      Memcpy(bitmap, 0, Zeros(bitmap.Length));
      assert bitmap[..] == Zeros(bitmap.Length);
    }

    /** The first fragment: its Next Header value replaces the one naming the Fragment header. */
    method TakeHeaders(ghost p: Packet, buf: array<Byte>, ext: nat, nextHdr: nat, offset: nat)
      requires p.bytes == buf[..] && p.ext == ext && p.nextHdr == nextHdr && Room(Contents(), p) && offset == Offset(p)
      requires bitmap != reassbuf && buf != reassbuf && buf != bitmap
      modifies `first, buf, reassbuf
      ensures Contents() == NoteFirst(old(Contents()), p) && buf[..] == Patched(p)
    {
      hide Splice, Offset;
      if offset == 0 {
        first := true;
        buf[nextHdr] := buf[IP_HDR + ext];
        assert buf[..] == Patched(p);
        Memcpy(reassbuf, 0, buf[..IP_HDR + ext]);
      }
    }

    /** The packet goes back to `uip_buf`, and its length field is set. */
    method HandBack(buf: array<Byte>, total: nat)
      requires IP_HDR <= total <= reassbuf.Length <= buf.Length && buf != reassbuf
      modifies buf
      ensures buf[..] == Assembled(old(buf[..]), reassbuf[..], total)
    {
      Memcpy(buf, 0, reassbuf[..total]);
      Memcpy(buf, 4, Be16(total - IP_HDR));
    }

    /** The fragment goes to its place, its blocks into the bitmap. */
    method StoreFragment(ghost p: Packet, data: seq<Byte>, hdr: nat, offset: nat, end: nat)
      requires Formed(p) && Hdr(p) == hdr && Data(p) == data && Offset(p) == offset && End(p) == end
        && bitmap != reassbuf
      requires Hdr(p) + end <= reassbuf.Length && end / 64 < bitmap.Length
      modifies bitmap, reassbuf
      ensures Contents() == Store(old(Contents()), p)
    {
      hide Splice, Data, Offset, Marked;
      Memcpy(reassbuf, hdr + offset, data);
      ghost var packet := reassbuf[..];
      MarkBlocks(offset / 8, end / 8);
      assert reassbuf[..] == packet;
    }

    /** "Finally, we check if we have a full packet in the buffer". */
    method Deliver(ghost p: Packet, buf: array<Byte>, hdr: nat) returns (r: nat)
      requires Formed(p) && Hdr(p) == hdr && |p.bytes| == buf.Length && buf[..] == Patched(p) && buf != reassbuf
        && buf != bitmap
      requires reassbuf.Length <= buf.Length && (last ==> hdr + len <= reassbuf.Length && len / 64 < bitmap.Length)
      modifies `on, `len, buf
      ensures Result(Contents(), buf[..], r) == Conclude(old(Contents()), p)
    {
      hide Full, Assembled, Patched;
      if last {
        var full := IsFull();
        if full {
          on := false;
          len := len + hdr;
          HandBack(buf, len);
          return len;
        }
      }
      r := 0;
    }

    /** A fragment of the packet under way, once its headers were looked at. */
    method Place(ghost p: Packet, buf: array<Byte>, dataLen: nat, hdr: nat, offsetResMore: U16) returns (r: nat)
      requires Room(Contents(), p) && on && Hdr(p) == hdr && OffsetResMore(p) == offsetResMore && |Data(p)| == dataLen
      requires buf.Length == |p.bytes| && buf[..] == Patched(p) && bitmap != reassbuf && buf != reassbuf
        && buf != bitmap
      modifies this, buf, bitmap, reassbuf
      ensures Result(Contents(), buf[..], r) == Placed(old(Contents()), p)
    {
      hide Conclude, Patched, Store, Data, Room, Word;
      ghost var s := Contents();
      PlaceFacts(s, p);
      var offset := offsetResMore / 8 * 8;
      if offset > reassbuf.Length || offset + dataLen > reassbuf.Length {
        on := false;
        return 0;
      }
      if offsetResMore % 2 == 0 {
        last := true;
        len := offset + dataLen;
      } else if dataLen % 8 != 0 {
        error := true;
        on := false;
        return hdr + FRAG_HDR + dataLen;
      }
      LastRoom(s, p);
      PatchedData(p);
      StoreFragment(p, buf[hdr + FRAG_HDR..hdr + FRAG_HDR + dataLen], hdr, offset, offset + dataLen);
      r := Deliver(p, buf, hdr);
    }

    /** `uip_reass` for the packet in `buf`; the ICMP error message it may build is left out. */
    method Reassemble(buf: array<Byte>, uipLen: nat, ext: nat, nextHdr: nat) returns (r: nat)
      requires Room(Contents(), Packet(buf[..], uipLen, ext, nextHdr))
      requires bitmap != reassbuf && buf != reassbuf && buf != bitmap
      modifies this, buf, bitmap, reassbuf
      ensures Result(Contents(), buf[..], r) == Reass(old(Contents()), Packet(old(buf[..]), uipLen, ext, nextHdr))
    {
      hide Conclude, Patched, Store, Word, Splice, NoteLast, NoteFirst;
      ghost var p := Packet(buf[..], uipLen, ext, nextHdr);
      BeginRoom(Contents(), p);
      Open(p, buf, ext);
      assert buf[..] == p.bytes;
      var h := IP_HDR + ext;
      if reassbuf[8..IP_HDR] != buf[8..IP_HDR] || id != buf[h + 4..h + 8] { return 0; }
      var dataLen := uipLen - ext - IP_HDR - FRAG_HDR;
      var offsetResMore := Word(buf[h + 2], buf[h + 3]);
      FirstRoom(Contents(), p);
      TakeHeaders(p, buf, ext, nextHdr, offsetResMore / 8 * 8);
      r := Place(p, buf, dataLen, h, offsetResMore);
    }
  }

  lemma PlaceFacts(st: State, p: Packet)
    requires Room(st, p)
    ensures |Data(p)| == p.len - Hdr(p) - FRAG_HDR && Hdr(p) + FRAG_HDR + |Data(p)| <= |p.bytes|
  {}

  lemma PatchedData(p: Packet)
    requires Formed(p)
    ensures Patched(p)[Hdr(p) + FRAG_HDR..p.len] == Data(p)
  {}
}
