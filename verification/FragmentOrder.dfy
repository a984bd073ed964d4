// 6LoWPAN reassembly when the frames of a packet overtake each other: whatever
// the order they come in, the last one to come delivers the packet.
module FragmentOrder {
  import opened Bytes
  import opened Iphc
  import opened Lowpan
  import opened Fragments

  /** A packet on its way: contexts and the leftover `otherContext`, its octets, both ends and its tag. */
  datatype Sent = Sent(t: Table, other: Option<Context>, ip: Buffer, len: nat, sll: LlAddr, dll: LlAddr, tag: nat)

  function Header(s: Sent): seq<Byte> { Compress(s.t, s.other, s.ip, s.sll, s.dll) }

  /** Where the second fragment begins. */
  function FirstEnd(s: Sent): nat
    requires |Header(s)| <= IPUDPH_LEN
  {
    HeaderLen(s.ip) + FirstPayload(|Header(s)|)
  }

  predicate InRange(s: Sent) {
    |Header(s)| <= IPUDPH_LEN && FirstEnd(s) < s.len <= |s.ip| && s.len < MAX_DATAGRAM && s.tag < 0x1_0000
  }

  /** A packet that `output` cuts into fragments. */
  ghost predicate Cut(s: Sent) { WellFormed(s.t) && InRange(s) }

  /** A fragment begins at octet `q`. */
  predicate IsStart(s: Sent, q: nat)
    requires |Header(s)| <= IPUDPH_LEN
  {
    q == 0 || (FirstEnd(s) <= q < s.len && (q - FirstEnd(s)) % NEXT_PAYLOAD == 0)
  }

  function FrameAt(s: Sent, q: nat): (frame: seq<Byte>)
    requires InRange(s) && IsStart(s, q)
    ensures |frame| <= MAC_MAX_PAYLOAD
  {
    if q == 0 then FirstFragment(Header(s), s.ip, s.len, s.tag) else NextFragment(s.ip, s.len, s.tag, q)
  }

  /** The octets of the packet it carries. */
  function Span(s: Sent, q: nat): nat
    requires |Header(s)| <= IPUDPH_LEN && IsStart(s, q)
  {
    if q == 0 then FirstEnd(s) else NextPayload(s.len, q)
  }

  /** The octets the receiver counts for it: fewer, when it gives up on the compressed header. */
  function Count(s: Sent, q: nat): nat
    requires |Header(s)| <= IPUDPH_LEN && IsStart(s, q)
  {
    if q == 0 && GivesUp(s.t, s.other, s.ip) then |Header(s)| + FirstPayload(|Header(s)|) else Span(s, q)
  }

  // ---------------------------------------------------------------- one fragment

  /** Nothing begun, or this packet. */
  predicate Ready(s: Sent, st: Reass): (r: bool)
    ensures r ==> |st.buf| >= REASS_ROOM
  {
    && |st.buf| >= REASS_ROOM && st.total < MAX_DATAGRAM
    && (st.done == 0 || (st.total == s.len && st.tag == s.tag && st.sender == s.sll))
  }

  /** What receiving the frame does. */
  function Got(s: Sent, st: Reass, q: nat): (r: (Reass, Option<seq<Byte>>))
    requires InRange(s) && IsStart(s, q) && Ready(s, st)
    ensures |r.0.buf| == |st.buf| && r.0.total < MAX_DATAGRAM
  {
    Input(s.t, st, FrameAt(s, q), s.sll, s.dll, false)
  }

  function Begun(s: Sent, st: Reass): Reass { st.(total := s.len, tag := s.tag, sender := s.sll) }

  /** The count after this frame, with `done` octets counted before it: a later fragment that fills the count makes
      it full, the header frame just adds in 16 bits, where nothing at all passes for everything. */
  function NextCount(s: Sent, done: nat, q: nat): nat
    requires |Header(s)| <= IPUDPH_LEN && IsStart(s, q)
  {
    if q > 0 then if s.len <= done + Span(s, q) then s.len else done + Span(s, q)
    else if (done + Count(s, q)) % 0x1_0000 == 0 then s.len else (done + Count(s, q)) % 0x1_0000
  }

  lemma CountIsSpan(s: Sent, q: nat)
    requires |Header(s)| <= IPUDPH_LEN && IsStart(s, q) && q > 0
    ensures Count(s, q) == Span(s, q)
  {
    hide Header, Compress, GivesUp, FirstEnd, FirstPayload, NextPayload;
  }

  /** Short of the full count it is just the sum. */
  lemma NextCountAdds(s: Sent, done: nat, q: nat)
    requires InRange(s) && IsStart(s, q) && done + Count(s, q) <= s.len
    ensures NextCount(s, done, q) == done + Count(s, q)
  {
    hide Header, Compress, IsStart, GivesUp, FirstEnd, FirstPayload, HeaderLen;
    CountBounds(s, q);
    if q > 0 { CountIsSpan(s, q); }
    hide Span, Count;
  }

  /** The state with the octets of the frame in place and counted, and the packet if that is all. */
  function Counted(s: Sent, st: Reass, q: nat, buf: Buffer): (Reass, Option<seq<Byte>>)
    requires InRange(s) && IsStart(s, q) && |buf| >= REASS_ROOM
  {
    Stored(Begun(s, st), Splice(st.rime, 0, FrameAt(s, q)), buf, NextCount(s, st.done, q))
  }

  /** The octets of a later fragment in place. */
  function LaterPlaced(s: Sent, was: Buffer, q: nat): (buf: Buffer)
    requires InRange(s) && IsStart(s, q) && q > 0 && |was| >= REASS_ROOM
    ensures |buf| == |was|
  {
    Splice(was, q, s.ip[q..q + Span(s, q)])
  }

  function SourceSeen(s: Sent): Option<Addr> { SeenSrc(s.t, SentSci(s.t, s.other, s.ip), s.ip) }

  /** The header rebuilt, and the octets of the first fragment behind it. */
  function HeaderPlaced(s: Sent, src: Addr, was: Buffer): (buf: Buffer)
    requires InRange(s) && |was| >= REASS_ROOM
    ensures |buf| == |was|
  {
    Splice(Rebuilt(s.ip, src, Be16(s.len - IPH_LEN), was), HeaderLen(s.ip), s.ip[HeaderLen(s.ip)..FirstEnd(s)])
  }

  /** A later fragment, whatever came before it. */
  lemma LaterStep(s: Sent, st: Reass, q: nat)
    requires InRange(s) && Ready(s, st) && IsStart(s, q) && q > 0
    ensures Got(s, st, q) == Counted(s, st, q, LaterPlaced(s, st.buf, q))
  {
    hide FrameAt, Stored, Begun, Span, IsStart, Compress, Header, FirstPayload, FirstEnd, Splice, Input, Val, Get16, Word,
      SizeOf, TagOf, Dispatch, GivesUp, NextFragment, FirstFragment, HeaderLen, Count;
    var n, frame := Span(s, q), FrameAt(s, q);
    LaterRead(s, st.rime, q);
    LaterAbsorbed(s, st, frame, Splice(st.rime, 0, frame), n, q, s.ip[q..q + n]);
  }

  lemma LaterRead(s: Sent, rime: Buffer, q: nat)
    requires InRange(s) && IsStart(s, q) && q > 0
    ensures var n, frame := Span(s, q), FrameAt(s, q);
            && 0 < n && q + n <= s.len && |frame| == FRAGN_HDR_LEN + n && Count(s, q) == n
            && var f := Splice(rime, 0, frame);
            && Dispatch(f) == FRAGN && SizeOf(f) == s.len && TagOf(f) == s.tag && Val(f[4]) * 8 == q
            && f[FRAGN_HDR_LEN..|frame|] == s.ip[q..q + n]
  {
    hide NextFragment, Splice, Dispatch, SizeOf, TagOf, Get16, Word, Low, Be16, Val, Compress, FirstPayload, GivesUp,
      FirstFragment, HeaderLen, Header, FirstEnd;
    StartIsBlock(s, q);
    NextFragmentRead(s.ip, s.len, s.tag, q, rime);
  }

  lemma LaterAbsorbed(s: Sent, st: Reass, frame: seq<Byte>, f: Buffer, n: nat, q: nat, data: seq<Byte>)
    requires Ready(s, st) && 0 < s.len < MAX_DATAGRAM && |frame| == FRAGN_HDR_LEN + n <= MAC_MAX_PAYLOAD && 0 < n
    requires f == Splice(st.rime, 0, frame) && Dispatch(f) == FRAGN && SizeOf(f) == s.len && TagOf(f) == s.tag
    requires Val(f[4]) * 8 == q && f[FRAGN_HDR_LEN..|frame|] == data && q + n <= s.len
    ensures q + |data| <= |st.buf|
    ensures Input(s.t, st, frame, s.sll, s.dll, false)
            == Stored(Begun(s, st), f, Splice(st.buf, q, data), if s.len <= st.done + n then s.len else st.done + n)
  {
    hide Get16, Word, Val, TagOf, SizeOf, Dispatch, Splice, Absorb, Stored, Decompress;
    AbsorbLater(Begun(s, st), f, n, q, data);
  }

  lemma StartIsBlock(s: Sent, q: nat)
    requires |Header(s)| <= IPUDPH_LEN && IsStart(s, q)
    ensures q % 8 == 0 && (q > 0 ==> q < s.len)
  {
    hide Compress;
    assert HeaderLen(s.ip) % 8 == 0 && FirstPayload(|Header(s)|) % 8 == 0;
  }

  lemma AbsorbLater(st: Reass, f: Buffer, n: nat, q: nat, data: seq<Byte>)
    requires |st.buf| >= REASS_ROOM && 0 < st.total < MAX_DATAGRAM && 0 < n && FRAGN_HDR_LEN + n <= MAC_MAX_PAYLOAD
    requires Dispatch(f) == FRAGN && SizeOf(f) == st.total && Val(f[4]) * 8 == q
      && f[FRAGN_HDR_LEN..FRAGN_HDR_LEN + n] == data
    requires q + n <= st.total
    ensures Absorb(st.(rime := f), f, FRAGN_HDR_LEN + n, st.done + n >= st.total, Decoded(st.buf, FRAGN_HDR_LEN, 0, true))
            == Stored(st, f, Splice(st.buf, q, data), if st.total <= st.done + n then st.total else st.done + n)
  {
    hide Get16, Word, Val, SizeOf, Dispatch, Splice;
  }

  /** The fragment with the header, whatever came before it. */
  lemma FirstStep(s: Sent, st: Reass) returns (buf: Buffer)
    requires Cut(s) && Ready(s, st)
    ensures |buf| == |st.buf| && Got(s, st, 0) == Counted(s, st, 0, buf)
    ensures !GivesUp(s.t, s.other, s.ip) ==> SourceSeen(s).Some? && buf == HeaderPlaced(s, SourceSeen(s).value, st.buf)
  {
    hide Get16, Word, Val, TagOf, SizeOf, FirstFragment, Input, Compress, SeenSrc, SentSci, ByMcastPrefix, Decompress,
      Rebuilt, At, Be16, Splice, Dispatch, Stored;
    CompressedSize(s.t, s.other, s.ip, s.sll, s.dll);
    var c := Header(s);
    FirstFragmentRead(c, s.ip, s.len, s.tag, st.rime);
    var frame := FirstFragment(c, s.ip, s.len, s.tag);
    var f := Splice(st.rime, 0, frame);
    StartsIphc(s.t, s.other, s.ip, s.sll, s.dll);
    FirstOctet(f, FRAG1_HDR_LEN, c);
    DecompressCompressed(s.t, s.other, s.ip, s.sll, s.dll, f, FRAG1_HDR_LEN, s.len, |frame|, st.buf);
    var d := Decompress(s.t, f, FRAG1_HDR_LEN, s.sll, s.dll, s.len, |frame|, st.buf);
    if GivesUp(s.t, s.other, s.ip) { GivenUpIsShort(s.t, s.other, s.ip, s.sll, s.dll); }
    var data := f[d.hdrLen..|frame|];
    FirstAbsorbed(s, st, frame, f, d, data);
    buf := Splice(d.buf, d.uncomp, data);
  }

  lemma FirstAbsorbed(s: Sent, st: Reass, frame: seq<Byte>, f: Buffer, d: Decoded, data: seq<Byte>)
    requires Ready(s, st) && |frame| <= MAC_MAX_PAYLOAD && 0 < s.len < MAX_DATAGRAM
    requires f == Splice(st.rime, 0, frame) && Dispatch(f) == FRAG1 && SizeOf(f) == s.len && TagOf(f) == s.tag
    requires f[FRAG1_HDR_LEN] & DISPATCH_MASK == DISPATCH_IPHC
    requires d == Decompress(s.t, f, FRAG1_HDR_LEN, s.sll, s.dll, s.len, |frame|, st.buf)
    requires d.hdrLen <= |frame| && data == f[d.hdrLen..|frame|] && 0 < d.uncomp + |data|
    ensures |Splice(d.buf, d.uncomp, data)| >= BUFSIZE
    ensures var c := (st.done + d.uncomp + |data|) % 0x1_0000;
            Input(s.t, st, frame, s.sll, s.dll, false)
            == Stored(Begun(s, st), f, Splice(d.buf, d.uncomp, data), if c == 0 then s.len else c)
  {
    hide Get16, Word, Val, TagOf, SizeOf, Decompress, Dispatch, Splice, Absorb, Stored;
    AbsorbHeader(Begun(s, st), f, |frame|, d, data);
  }

  lemma AbsorbHeader(st: Reass, f: Buffer, n: nat, d: Decoded, data: seq<Byte>)
    requires |st.buf| >= REASS_ROOM && 0 < st.total < MAX_DATAGRAM && d.hdrLen <= n <= MAC_MAX_PAYLOAD
    requires Dispatch(f) == FRAG1 && SizeOf(f) == st.total && |d.buf| == |st.buf| && d.uncomp <= IPUDPH_LEN
    requires data == f[d.hdrLen..n] && 0 < d.uncomp + |data|
    ensures var c := (st.done + d.uncomp + |data|) % 0x1_0000;
            Absorb(st.(rime := f), f, n, false, d) == Stored(st, f, Splice(d.buf, d.uncomp, data), if c == 0 then st.total else c)
  {
    hide Get16, Word, Val, SizeOf, Dispatch, Splice;
  }

  // ------------------------------------------------------------------ the buffer

  /** What octet `k` of the packet should come out as, the header being the one the decompressor rebuilds. */
  function Octet(s: Sent, src: Addr, k: nat): Byte
    requires InRange(s) && k < s.len
  {
    if k < HeaderLen(s.ip) then HeaderOctet(s.ip, src, Be16(s.len - IPH_LEN), k) else s.ip[k]
  }

  /** The octets of the fragment that begins at `q` are in place. */
  ghost predicate Holds(s: Sent, src: Addr, buf: Buffer, q: nat)
    requires InRange(s) && IsStart(s, q) && |buf| >= REASS_ROOM
  {
    q + Span(s, q) <= s.len && forall k :: q <= k < q + Span(s, q) ==> buf[k] == Octet(s, src, k)
  }

  lemma LaterHolds(s: Sent, src: Addr, was: Buffer, q: nat)
    requires InRange(s) && IsStart(s, q) && q > 0 && |was| >= REASS_ROOM
    ensures Holds(s, src, LaterPlaced(s, was, q), q)
    ensures forall k :: 0 <= k < |was| && !(q <= k < q + Span(s, q)) ==> LaterPlaced(s, was, q)[k] == was[k]
  {
    hide Compress, Header, FirstPayload, Splice, Be16, HeaderOctet;
  }

  lemma FirstHolds(s: Sent, src: Addr, was: Buffer)
    requires InRange(s) && |was| >= REASS_ROOM
    ensures Holds(s, src, HeaderPlaced(s, src, was), 0)
    ensures forall k :: FirstEnd(s) <= k < |was| ==> HeaderPlaced(s, src, was)[k] == was[k]
  {
    hide Compress, Header, FirstPayload, Splice, Be16, HeaderOctet, Rebuilt;
    var l := Be16(s.len - IPH_LEN);
    forall k | 0 <= k < |was|
      ensures Rebuilt(s.ip, src, l, was)[k] == if k < HeaderLen(s.ip) then HeaderOctet(s.ip, src, l, k) else was[k]
    {
      if k < HeaderLen(s.ip) { RebuiltOctet(s.ip, src, l, was, k); } else { RebuiltTail(s.ip, src, l, was, k); }
    }
  }

  /** Fragments do not overlap. */
  lemma Apart(s: Sent, q: nat, r: nat)
    requires InRange(s) && IsStart(s, q) && IsStart(s, r) && q < r
    ensures q + Span(s, q) <= r
  {
    hide Compress, Header, FirstPayload, HeaderLen;
    if q > 0 {
      var a, b := (q - FirstEnd(s)) / NEXT_PAYLOAD, (r - FirstEnd(s)) / NEXT_PAYLOAD;
      assert q == FirstEnd(s) + NEXT_PAYLOAD * a && r == FirstEnd(s) + NEXT_PAYLOAD * b;
    }
  }

  lemma StillHolds(s: Sent, src: Addr, was: Buffer, buf: Buffer, q: nat, r: nat)
    requires InRange(s) && IsStart(s, q) && IsStart(s, r) && q != r && |was| == |buf| >= REASS_ROOM && Holds(s, src, was, r)
    requires forall k :: 0 <= k < |was| && !(q <= k < q + Span(s, q)) ==> buf[k] == was[k]
    ensures Holds(s, src, buf, r)
  {
    hide Compress, IsStart, Header, FirstPayload, Octet;
    if q < r { Apart(s, q, r); } else { Apart(s, r, q); }
    hide Span;
  }

  /** With every fragment in place, so is every octet. */
  lemma AllHold(s: Sent, src: Addr, buf: Buffer)
    requires InRange(s) && |buf| >= REASS_ROOM && forall q :: IsStart(s, q) ==> Holds(s, src, buf, q)
    ensures forall k :: 0 <= k < s.len ==> buf[k] == Octet(s, src, k)
  {
    hide Compress, Header, FirstPayload, Octet;
    forall k | 0 <= k < s.len ensures buf[k] == Octet(s, src, k) {
      if k < FirstEnd(s) {
        assert Holds(s, src, buf, 0);
      } else {
        var q := BlockOf(FirstEnd(s), k);
        assert IsStart(s, q) && q <= k < q + Span(s, q);
        assert Holds(s, src, buf, q);
      }
    }
  }

  lemma BlockOf(p: nat, k: nat) returns (q: nat)
    requires p <= k
    ensures p <= q <= k < q + NEXT_PAYLOAD && (q - p) % NEXT_PAYLOAD == 0
  {
    q := k - (k - p) % NEXT_PAYLOAD;
  }

  // -------------------------------------------------------------------- the orders

  /** Where the fragments begin, in the order they are sent. */
  function LaterStarts(len: nat, p: nat): seq<nat>
    requires p <= len
    decreases len - p
  {
    if p == len then [] else [p] + LaterStarts(len, p + NextPayload(len, p))
  }

  function Starts(s: Sent): seq<nat>
    requires InRange(s)
  {
    [0] + LaterStarts(s.len, FirstEnd(s))
  }

  predicate AllStarts(s: Sent, order: seq<nat>)
    requires InRange(s)
  {
    forall i :: 0 <= i < |order| ==> IsStart(s, order[i])
  }

  function Frames(s: Sent, order: seq<nat>): (r: seq<seq<Byte>>)
    requires InRange(s) && AllStarts(s, order)
    ensures |r| == |order| && forall i :: 0 <= i < |r| ==> r[i] == FrameAt(s, order[i]) && |r[i]| <= MAC_MAX_PAYLOAD
  {
    if order == [] then [] else [FrameAt(s, order[0])] + Frames(s, order[1..])
  }

  function Total(s: Sent, order: seq<nat>): nat
    requires InRange(s) && AllStarts(s, order)
  {
    if order == [] then 0 else Count(s, order[0]) + Total(s, order[1..])
  }

  /** Every fragment that is not still to come is in place. */
  ghost predicate InPlace(s: Sent, src: Addr, buf: Buffer, todo: seq<nat>)
    requires InRange(s) && |buf| >= REASS_ROOM
  {
    forall q :: IsStart(s, q) && q !in todo ==> Holds(s, src, buf, q)
  }

  lemma PlaceOne(s: Sent, src: Addr, was: Buffer, buf: Buffer, todo: seq<nat>)
    requires InRange(s) && |was| == |buf| >= REASS_ROOM && todo != [] && IsStart(s, todo[0]) && InPlace(s, src, was, todo)
    requires Holds(s, src, buf, todo[0])
    requires forall k :: 0 <= k < |was| && !(todo[0] <= k < todo[0] + Span(s, todo[0])) ==> buf[k] == was[k]
    ensures InPlace(s, src, buf, todo[1..])
  {
    hide IsStart, Holds, Span;
    forall r | IsStart(s, r) && r !in todo[1..] ensures Holds(s, src, buf, r) {
      if r != todo[0] { StillHolds(s, src, was, buf, todo[0], r); }
    }
  }

  /** One frame received: the octets of the others stay, its own come right. */
  lemma StepPlaces(s: Sent, st: Reass, todo: seq<nat>) returns (buf: Buffer)
    requires Cut(s) && Ready(s, st) && todo != [] && IsStart(s, todo[0])
    ensures |buf| == |st.buf| && Got(s, st, todo[0]) == Counted(s, st, todo[0], buf)
    ensures !GivesUp(s.t, s.other, s.ip) ==>
              SourceSeen(s).Some?
              && (InPlace(s, SourceSeen(s).value, st.buf, todo) ==> InPlace(s, SourceSeen(s).value, buf, todo[1..]))
  {
    hide IsStart, Holds, Compress, Header, FirstPayload, HeaderLen, WellFormed, SeenSrc, SentSci, ByMcastPrefix, LaterPlaced,
      HeaderPlaced, Counted, Got, Ready, InPlace, GivesUp, FirstEnd, SourceSeen, Octet, FrameAt;
    SeenUnlessGivenUp(s);
    var q := todo[0];
    if q == 0 {
      buf := FirstStep(s, st);
      if !GivesUp(s.t, s.other, s.ip) {
        FirstHolds(s, SourceSeen(s).value, st.buf);
        if InPlace(s, SourceSeen(s).value, st.buf, todo) { PlaceOne(s, SourceSeen(s).value, st.buf, buf, todo); }
      }
    } else {
      LaterRead(s, st.rime, q);
      LaterStep(s, st, q);
      buf := LaterPlaced(s, st.buf, q);
      if !GivesUp(s.t, s.other, s.ip) {
        LaterHolds(s, SourceSeen(s).value, st.buf, q);
        if InPlace(s, SourceSeen(s).value, st.buf, todo) { PlaceOne(s, SourceSeen(s).value, st.buf, buf, todo); }
      }
    }
  }

  lemma SeenUnlessGivenUp(s: Sent)
    ensures !GivesUp(s.t, s.other, s.ip) ==> SourceSeen(s).Some?
  {
    hide SeenSrc, SentSci, ByMcastPrefix;
  }

  lemma CountBounds(s: Sent, q: nat)
    requires InRange(s) && IsStart(s, q)
    ensures 0 < Count(s, q) <= Span(s, q)
    ensures q == 0 && GivesUp(s.t, s.other, s.ip) ==> Count(s, q) < Span(s, q)
  {
    hide Compress, SeenSrc, SentSci, ByMcastPrefix;
    CompressedSize(s.t, s.other, s.ip, s.sll, s.dll);
    if GivesUp(s.t, s.other, s.ip) { GivenUpIsShort(s.t, s.other, s.ip, s.sll, s.dll); }
  }

  /** The frames to come, with those that came in place: the last one delivers the packet as it was rebuilt,
      or, when the header was given up on, none does. */
  lemma {:induction false} OrderRun(s: Sent, st: Reass, todo: seq<nat>) returns (packet: seq<Byte>)
    requires Cut(s) && Ready(s, st) && AllStarts(s, todo) && todo != []
    requires st.done + Total(s, todo) == if GivesUp(s.t, s.other, s.ip) then s.len - (Span(s, 0) - Count(s, 0)) else s.len
    requires !GivesUp(s.t, s.other, s.ip) ==> SourceSeen(s).Some? && InPlace(s, SourceSeen(s).value, st.buf, todo)
    requires GivesUp(s.t, s.other, s.ip) ==> Count(s, 0) < Span(s, 0)
    ensures var outs := Inputs(s.t, st, Frames(s, todo), s.sll, s.dll);
            if GivesUp(s.t, s.other, s.ip) then Nothing(outs)
            else
              && OnlyAtTheEnd(outs, packet) && |packet| == s.len
              && forall k :: 0 <= k < s.len ==> packet[k] == Octet(s, SourceSeen(s).value, k)
    decreases |todo|
  {
    hide IsStart, Holds, Compress, Header, FirstPayload, HeaderLen, WellFormed, SeenSrc, SentSci, ByMcastPrefix, LaterPlaced,
      HeaderPlaced, Input, GivesUp, FirstEnd, SourceSeen, Octet, FrameAt, Count, Span, InPlace,
      NextCount;
    var q, rest := todo[0], todo[1..];
    CountBounds(s, q);
    NextCountAdds(s, st.done, q);
    var buf := StepPlaces(s, st, todo);
    var (next, out) := Got(s, st, q);
    var frames := Frames(s, todo);
    assert frames[1..] == Frames(s, rest) && frames[0] == FrameAt(s, q);
    var outs := Inputs(s.t, next, Frames(s, rest), s.sll, s.dll);
    assert Inputs(s.t, st, frames, s.sll, s.dll) == [out] + outs;
    if rest == [] {
      packet := buf[..s.len];
      if !GivesUp(s.t, s.other, s.ip) {
        EverythingInPlace(s, SourceSeen(s).value, buf);
      }
    } else {
      CountBounds(s, rest[0]);
      packet := OrderRun(s, next, rest);
      AfterSilence(outs, packet, packet);
    }
  }

  lemma EverythingInPlace(s: Sent, src: Addr, buf: Buffer)
    requires InRange(s) && |buf| >= REASS_ROOM && InPlace(s, src, buf, [])
    ensures forall k :: 0 <= k < s.len ==> buf[k] == Octet(s, src, k)
  {
    AllHold(s, src, buf);
  }

  predicate OnGrid(s: Sent, p: nat)
    requires InRange(s)
  {
    FirstEnd(s) <= p <= s.len && (p == s.len || (p - FirstEnd(s)) % NEXT_PAYLOAD == 0)
  }

  lemma GridStep(s: Sent, p: nat)
    requires InRange(s) && OnGrid(s, p) && p < s.len
    ensures 0 < p && IsStart(s, p) && Count(s, p) == NextPayload(s.len, p) && OnGrid(s, p + NextPayload(s.len, p))
  {
    hide Compress, Header, FirstPayload, GivesUp;
    NextStart(FirstEnd(s), p, NextPayload(s.len, p), s.len);
  }

  lemma {:induction false} LaterTotal(s: Sent, p: nat)
    requires InRange(s) && OnGrid(s, p)
    ensures var starts := LaterStarts(s.len, p); AllStarts(s, starts) && Total(s, starts) == s.len - p
    decreases s.len - p
  {
    hide Compress, Header, FirstPayload, GivesUp, IsStart, OnGrid, Count, FirstEnd;
    if p < s.len {
      GridStep(s, p);
      LaterTotal(s, p + NextPayload(s.len, p));
      var rest := LaterStarts(s.len, p + NextPayload(s.len, p));
      assert LaterStarts(s.len, p) == [p] + rest && ([p] + rest)[1..] == rest;
    }
  }

  lemma {:induction false} LaterComplete(s: Sent, p: nat, q: nat)
    requires InRange(s) && OnGrid(s, p) && IsStart(s, q) && p <= q < s.len && q > 0
    ensures q in LaterStarts(s.len, p)
    decreases s.len - p
  {
    hide Compress, Header, FirstPayload, GivesUp, IsStart, OnGrid, Count, FirstEnd;
    GridStep(s, p);
    var rest := LaterStarts(s.len, p + NextPayload(s.len, p));
    assert LaterStarts(s.len, p) == [p] + rest;
    if q > p {
      Apart(s, p, q);
      LaterComplete(s, p + NextPayload(s.len, p), q);
      assert q in rest;
    }
  }

  lemma NextStart(e: nat, p: nat, n: nat, len: nat)
    requires e <= p < len && (p - e) % NEXT_PAYLOAD == 0 && n == NextPayload(len, p)
    ensures p + n == len || (p + n - e) % NEXT_PAYLOAD == 0
  {}

  /** Exactly the fragments of the packet, and all that they count for. */
  lemma StartsExact(s: Sent)
    requires InRange(s)
    ensures AllStarts(s, Starts(s)) && forall q :: IsStart(s, q) ==> q in Starts(s)
    ensures Total(s, Starts(s)) == s.len - (Span(s, 0) - Count(s, 0))
  {
    LaterTotal(s, FirstEnd(s));
    hide Compress, Header, FirstPayload, GivesUp, HeaderLen;
    var later := LaterStarts(s.len, FirstEnd(s));
    assert Starts(s)[1..] == later && Starts(s)[0] == 0;
    CountBounds(s, 0);
    forall q: nat | IsStart(s, q) ensures q in Starts(s) {
      if q > 0 { LaterComplete(s, FirstEnd(s), q); }
      assert Starts(s)[0] == 0;
    }
  }

  /** The frames at these places are the ones that are sent. */
  lemma FramesAreSent(s: Sent)
    requires InRange(s)
    ensures AllStarts(s, Starts(s)) && Frames(s, Starts(s)) == FragmentsOf(Header(s), s.ip, s.len, s.tag)
  {
    hide Header, Compress, FirstPayload, HeaderLen, NextFragments, FirstFragment, IsStart, Frames, Count, Total;
    ZeroStarts(s);
    StartsExact(s);
    LaterFrames(s, FirstEnd(s));
    FramesOfOneMore(s, 0, LaterStarts(s.len, FirstEnd(s)));
  }

  lemma {:induction false} LaterFrames(s: Sent, p: nat)
    requires InRange(s) && OnGrid(s, p)
    ensures AllStarts(s, LaterStarts(s.len, p))
    ensures Frames(s, LaterStarts(s.len, p)) == NextFragments(s.ip, s.len, s.tag, p)
    decreases s.len - p
  {
    hide Compress, Header, FirstPayload, GivesUp, NextFragment, FirstFragment, HeaderLen, Count, Total, IsStart, FrameAt, FirstEnd,
      Frames, OnGrid;
    LaterTotal(s, p);
    if p == s.len {
      FramesOfNone(s);
    } else {
      GridStep(s, p);
      LaterFrames(s, p + NextPayload(s.len, p));
      LaterFrame(s, p);
      FramesOfOneMore(s, p, LaterStarts(s.len, p + NextPayload(s.len, p)));
    }
  }

  lemma FramesOfNone(s: Sent)
    requires InRange(s)
    ensures Frames(s, []) == []
  {}

  lemma FramesOfOneMore(s: Sent, q: nat, rest: seq<nat>)
    requires InRange(s) && IsStart(s, q) && AllStarts(s, rest)
    ensures AllStarts(s, [q] + rest) && Frames(s, [q] + rest) == [FrameAt(s, q)] + Frames(s, rest)
  {
    hide Compress, Header, IsStart, FrameAt, InRange;
    assert ([q] + rest)[1..] == rest;
  }

  lemma LaterFrame(s: Sent, p: nat)
    requires InRange(s) && OnGrid(s, p) && p < s.len
    ensures IsStart(s, p) && FrameAt(s, p) == NextFragment(s.ip, s.len, s.tag, p)
  {
    hide Compress, Header, NextFragment, FirstFragment;
  }

  lemma {:induction false} TotalConcat(s: Sent, a: seq<nat>, b: seq<nat>)
    requires InRange(s) && AllStarts(s, a) && AllStarts(s, b)
    ensures AllStarts(s, a + b) && Total(s, a + b) == Total(s, a) + Total(s, b)
  {
    hide Compress, Header, IsStart, Count;
    if a == [] {
      assert a + b == b;
    } else {
      TotalConcat(s, a[1..], b);
      assert (a + b)[1..] == a[1..] + b;
    }
  }

  /** The order does not change what is counted in all. */
  lemma {:induction false} TotalOfAny(s: Sent, a: seq<nat>, b: seq<nat>)
    requires InRange(s) && AllStarts(s, a) && multiset(a) == multiset(b)
    ensures AllStarts(s, b) && Total(s, a) == Total(s, b)
    decreases |a|
  {
    hide Compress, Header, IsStart, Count;
    SameElements(a, b);
    forall i | 0 <= i < |b| ensures IsStart(s, b[i]) { assert b[i] in a; }
    if a != [] {
      var i := Without(a, b);
      var front, back := b[..i], b[i + 1..];
      TotalOfAny(s, a[1..], front + back);
      TotalConcat(s, front, [b[i]] + back);
      TotalConcat(s, front, back);
      assert ([b[i]] + back)[1..] == back && b == front + ([b[i]] + back);
    }
  }

  lemma Cancel(x: nat, a: multiset<nat>, f: multiset<nat>, b: multiset<nat>)
    requires multiset{x} + a == f + (multiset{x} + b)
    ensures a == f + b
  {
    assert (multiset{x} + a) - multiset{x} == a;
    assert (f + (multiset{x} + b)) - multiset{x} == f + b;
  }

  /** The first element of one order taken out of the other. */
  lemma Without(a: seq<nat>, b: seq<nat>) returns (i: nat)
    requires a != [] && multiset(a) == multiset(b)
    ensures i < |b| && b[i] == a[0] && multiset(a[1..]) == multiset(b[..i] + b[i + 1..])
  {
    SameElements(a, b);
    assert a[0] in a;
    i :| 0 <= i < |b| && b[i] == a[0];
    var front, back := b[..i], b[i + 1..];
    assert a == [a[0]] + a[1..] && b == front + ([b[i]] + back);
    assert multiset(a) == multiset{a[0]} + multiset(a[1..]);
    assert multiset(b) == multiset(front) + (multiset{b[i]} + multiset(back));
    assert multiset(front + back) == multiset(front) + multiset(back);
    Cancel(a[0], multiset(a[1..]), multiset(front), multiset(back));
  }

  lemma SameElements(a: seq<nat>, b: seq<nat>)
    requires multiset(a) == multiset(b)
    ensures |a| == |b| && forall x :: x in a <==> x in b
  {
    assert |multiset(a)| == |multiset(b)|;
    assert forall x :: x in a <==> x in multiset(a);
    assert forall x :: x in b <==> x in multiset(b);
  }

  /** Frames in any order, each once: nothing is delivered before the last one to come, and that one delivers
      the packet, if and only if the header is recoverable and the length fields are consistent. */
  lemma AnyOrder(s: Sent, order: seq<nat>, st: Reass)
    requires Cut(s) && Ready(s, st) && st.done == 0 && multiset(order) == multiset(Starts(s))
    ensures AllStarts(s, order)
    ensures OnlyAtTheEnd(Inputs(s.t, st, Frames(s, order), s.sll, s.dll), s.ip[..s.len])
            <==> Recoverable(s.t, s.other, s.ip) && MeasuredAs(s.ip, s.len)
  {
    StartsExact(s);
    TotalOfAny(s, Starts(s), order);
    SameElements(Starts(s), order);
    CountBounds(s, 0);
    SeenUnlessGivenUp(s);
    EmptyCount(s);
    hide Compress, Header, FirstPayload, HeaderLen, SeenSrc, SentSci, ByMcastPrefix, IsStart, Holds, Count, Span, FirstEnd,
      Starts, Input, Octet, OnlyAtTheEnd, SrcRecoverable, MeasuredAs, FrameAt, WellFormed, Total;
    assert order != [];
    var packet := OrderRun(s, st, order);
    SeenSrcExact(s.t, s.other, s.ip);
    var outs := Inputs(s.t, st, Frames(s, order), s.sll, s.dll);
    if GivesUp(s.t, s.other, s.ip) {
      NothingIsNotIt(outs, s.ip[..s.len]);
    } else {
      OnlyOne(outs, packet, s.ip[..s.len]);
      PacketExact(s, SourceSeen(s).value, packet, st.buf);
    }
  }

  lemma EmptyCount(s: Sent)
    requires InRange(s)
    ensures |Starts(s)| > 0
  {}

  lemma NothingIsNotIt(outs: seq<Option<seq<Byte>>>, packet: seq<Byte>)
    requires Nothing(outs)
    ensures !OnlyAtTheEnd(outs, packet)
  {}

  lemma OnlyOne(outs: seq<Option<seq<Byte>>>, got: seq<Byte>, packet: seq<Byte>)
    requires OnlyAtTheEnd(outs, got)
    ensures OnlyAtTheEnd(outs, packet) <==> got == packet
  {}

  lemma PacketExact(s: Sent, src: Addr, packet: seq<Byte>, was: Buffer)
    requires InRange(s) && |was| >= REASS_ROOM && |packet| == s.len && forall k :: 0 <= k < s.len ==> packet[k] == Octet(s, src, k)
    ensures packet == s.ip[..s.len] <==> s.ip[0] & 0xF0 == 0x60 && src == Src(s.ip) && MeasuredAs(s.ip, s.len)
  {
    hide Compress, Header, FirstPayload, Rebuilt, Splice, Be16, HeaderOctet;
    var l, h := Be16(s.len - IPH_LEN), HeaderLen(s.ip);
    var r := Splice(Rebuilt(s.ip, src, l, was), h, s.ip[h..s.len]);
    forall k | 0 <= k < s.len ensures packet[k] == r[k] {
      if k < h { RebuiltOctet(s.ip, src, l, was, k); }
    }
    assert packet == r[..s.len];
    DeliveredExact(s.ip, s.len, src, l, was, r);
  }

  // ----------------------------------------------------------------- repeated frames

  /** Octet `k` comes with one of these. */
  predicate Covered(s: Sent, order: seq<nat>, k: nat)
    requires InRange(s) && AllStarts(s, order)
  {
    exists i :: 0 <= i < |order| && order[i] <= k < order[i] + Span(s, order[i])
  }

  /** With `done` octets counted the count is full at the last of these frames and not before. */
  predicate FullAtTheEnd(s: Sent, done: nat, order: seq<nat>)
    requires InRange(s) && AllStarts(s, order)
    decreases |order|
  {
    && order != []
    && (NextCount(s, done, order[0]) == s.len <==> |order| == 1)
    && (|order| > 1 ==> FullAtTheEnd(s, NextCount(s, done, order[0]), order[1..]))
  }

  /** The header frame, if it is one of these, gives `src`. */
  predicate Gives(s: Sent, order: seq<nat>, src: Addr) {
    0 in order ==> !GivesUp(s.t, s.other, s.ip) && SourceSeen(s) == Some(src)
  }

  /** A frame that does not fill the count, and one that does. */
  lemma OneFrame(s: Sent, st: Reass, src: Addr, q: nat) returns (buf: Buffer)
    requires Cut(s) && Ready(s, st) && IsStart(s, q) && Gives(s, [q], src)
    ensures |buf| == |st.buf|
    ensures forall k :: 0 <= k < s.len ==> buf[k] == if q <= k < q + Span(s, q) then Octet(s, src, k) else st.buf[k]
    ensures var (next, out) := Got(s, st, q);
            if NextCount(s, st.done, q) == s.len then out == Some(buf[..s.len])
            else out == None && Ready(s, next) && next.done == NextCount(s, st.done, q) && next.buf == buf
  {
    hide Compress, Header, IsStart, FirstPayload, FrameAt, LaterPlaced, Got, Span, HeaderPlaced, NextCount, GivesUp, WellFormed,
      SourceSeen, Octet, FirstEnd, HeaderLen;
    if q == 0 {
      assert 0 in [q];
      buf := FirstStep(s, st);
      FirstHolds(s, src, st.buf);
      ZeroStarts(s);
    } else {
      buf := LaterPlaced(s, st.buf, q);
      LaterRead(s, st.rime, q);
      LaterStep(s, st, q);
      LaterHolds(s, src, st.buf, q);
    }
  }

  /** Frames in any order and any number of times, until the count is full: the octets that came are in place, the
      others are what the buffer held before. */
  lemma {:induction false} RepeatsRun(s: Sent, st: Reass, src: Addr, order: seq<nat>) returns (packet: seq<Byte>)
    requires Cut(s) && Ready(s, st) && AllStarts(s, order) && FullAtTheEnd(s, st.done, order) && Gives(s, order, src)
    ensures OnlyAtTheEnd(Inputs(s.t, st, Frames(s, order), s.sll, s.dll), packet) && |packet| == s.len
    ensures forall k :: 0 <= k < s.len ==> packet[k] == if Covered(s, order, k) then Octet(s, src, k) else st.buf[k]
    decreases |order|
  {
    hide IsStart, Compress, Header, FirstPayload, HeaderLen, Input, GivesUp, FirstEnd, FrameAt, Count, Covered, Got, Span,
      Octet, NextCount, SourceSeen, WellFormed, Inputs, Frames, OnlyAtTheEnd;
    var q, rest := order[0], order[1..];
    InputsOneMore(s, st, order);
    var buf := OneFrame(s, st, src, q);
    var next := Got(s, st, q).0;
    var outs := Inputs(s.t, next, Frames(s, rest), s.sll, s.dll);
    if |order| == 1 {
      packet := buf[..s.len];
      NoInputs(s, next);
      assert rest == [];
      JustOne(packet);
    } else {
      packet := RepeatsRun(s, next, src, rest);
      AfterSilence(outs, packet, packet);
    }
    forall k | 0 <= k < s.len ensures packet[k] == if Covered(s, order, k) then Octet(s, src, k) else st.buf[k] {
      CoveredFirst(s, order, k);
      if |order| == 1 { NotCovered(s, k); }
    }
  }

  lemma InputsOneMore(s: Sent, st: Reass, order: seq<nat>)
    requires InRange(s) && Ready(s, st) && AllStarts(s, order) && order != []
    ensures AllStarts(s, order[1..])
    ensures var (next, out) := Got(s, st, order[0]);
            Inputs(s.t, st, Frames(s, order), s.sll, s.dll) == [out] + Inputs(s.t, next, Frames(s, order[1..]), s.sll, s.dll)
  {
    hide Compress, Header, IsStart, FrameAt, Input, Ready;
    var frames := Frames(s, order);
    assert frames[1..] == Frames(s, order[1..]) && frames[0] == FrameAt(s, order[0]);
  }

  lemma NoInputs(s: Sent, st: Reass)
    requires InRange(s) && |st.buf| >= REASS_ROOM && st.total < MAX_DATAGRAM
    ensures Inputs(s.t, st, Frames(s, []), s.sll, s.dll) == []
  {
    hide Compress, Header;
  }

  lemma JustOne(packet: seq<Byte>)
    ensures OnlyAtTheEnd([Some(packet)] + [], packet)
  {}

  lemma NotCovered(s: Sent, k: nat)
    requires InRange(s)
    ensures !Covered(s, [], k)
  {}

  lemma CoveredFirst(s: Sent, order: seq<nat>, k: nat)
    requires InRange(s) && AllStarts(s, order) && order != []
    ensures AllStarts(s, order[1..])
    ensures Covered(s, order, k) <==> order[0] <= k < order[0] + Span(s, order[0]) || Covered(s, order[1..], k)
  {
    hide IsStart, Compress, Header, Span, FirstEnd;
    if Covered(s, order[1..], k) {
      var i :| 0 <= i < |order| - 1 && order[1..][i] <= k < order[1..][i] + Span(s, order[1..][i]);
      assert order[i + 1] <= k < order[i + 1] + Span(s, order[i + 1]);
    }
    if Covered(s, order, k) {
      var i :| 0 <= i < |order| && order[i] <= k < order[i] + Span(s, order[i]);
      if i > 0 { assert order[1..][i - 1] == order[i]; }
    }
  }

  /** A frame that comes twice is counted twice: the packet goes up when the count is full, and is right if and only
      if the header, should it have come, is recoverable and consistent, and the octets that have not come yet happen
      to be in the buffer already. */
  lemma RepeatedExact(s: Sent, order: seq<nat>, st: Reass)
    requires Cut(s) && Ready(s, st) && AllStarts(s, order) && FullAtTheEnd(s, st.done, order)
    requires 0 in order ==> !GivesUp(s.t, s.other, s.ip)
    ensures OnlyAtTheEnd(Inputs(s.t, st, Frames(s, order), s.sll, s.dll), s.ip[..s.len])
            <==> (0 in order ==> Recoverable(s.t, s.other, s.ip) && MeasuredAs(s.ip, s.len))
                 && forall k :: 0 <= k < s.len && !Covered(s, order, k) ==> st.buf[k] == s.ip[k]
  {
    hide IsStart, Compress, Header, FirstPayload, HeaderLen, Input, SeenSrc, SentSci, ByMcastPrefix, SrcRecoverable, WellFormed,
      FrameAt, Covered, OnlyAtTheEnd, FullAtTheEnd, MeasuredAs, Frames, Octet, Span, FirstEnd;
    SeenUnlessGivenUp(s);
    SeenSrcExact(s.t, s.other, s.ip);
    var src := if 0 in order then SourceSeen(s).value else Src(s.ip);
    var packet := RepeatsRun(s, st, src, order);
    var outs := Inputs(s.t, st, Frames(s, order), s.sll, s.dll);
    OnlyOne(outs, packet, s.ip[..s.len]);
    RestIsThere(s, order, src, packet, st.buf);
  }

  lemma ZeroStarts(s: Sent)
    requires InRange(s)
    ensures IsStart(s, 0) && Span(s, 0) == FirstEnd(s) > 0
  {
    hide Compress, Header, FirstPayload;
  }

  lemma RestIsThere(s: Sent, order: seq<nat>, src: Addr, packet: seq<Byte>, was: Buffer)
    requires InRange(s) && AllStarts(s, order) && |packet| == s.len && |was| >= REASS_ROOM
    requires forall k :: 0 <= k < s.len ==> packet[k] == if Covered(s, order, k) then Octet(s, src, k) else was[k]
    ensures packet == s.ip[..s.len]
            <==> (0 in order ==> s.ip[0] & 0xF0 == 0x60 && src == Src(s.ip) && MeasuredAs(s.ip, s.len))
                 && forall k :: 0 <= k < s.len && !Covered(s, order, k) ==> was[k] == s.ip[k]
  {
    hide Compress, Header, FirstPayload, Covered, MeasuredAs, Octet, IsStart, HeaderLen;
    HeaderExact(s, src, was);
    forall k | 0 <= k < s.len && Covered(s, order, k) ensures 0 in order || Octet(s, src, k) == s.ip[k] {
      LaterCovers(s, src, order, k);
    }
    if 0 in order {
      forall k | 0 <= k < FirstEnd(s) ensures Covered(s, order, k) { HeaderCovers(s, order, k); }
    }
    forall k | FirstEnd(s) <= k < s.len ensures Octet(s, src, k) == s.ip[k] { BehindHeader(s, src, k); }
    if packet == s.ip[..s.len] {
      forall k | 0 <= k < s.len ensures packet[k] == s.ip[k] { assert packet[k] == s.ip[..s.len][k]; }
    }
  }

  lemma BehindHeader(s: Sent, src: Addr, k: nat)
    requires InRange(s) && FirstEnd(s) <= k < s.len
    ensures Octet(s, src, k) == s.ip[k]
  {
    hide Compress, Header, FirstPayload;
  }

  lemma HeaderCovers(s: Sent, order: seq<nat>, k: nat)
    requires InRange(s) && AllStarts(s, order) && 0 in order && k < FirstEnd(s)
    ensures Covered(s, order, k)
  {
    hide Compress, Header, FirstEnd, IsStart;
    ZeroStarts(s);
    var i :| 0 <= i < |order| && order[i] == 0;
    assert order[i] <= k < order[i] + Span(s, order[i]);
  }

  lemma LaterCovers(s: Sent, src: Addr, order: seq<nat>, k: nat)
    requires InRange(s) && AllStarts(s, order) && k < s.len && Covered(s, order, k)
    ensures 0 in order || Octet(s, src, k) == s.ip[k]
  {
    hide Compress, Header, Octet, Span;
    var i :| 0 <= i < |order| && order[i] <= k < order[i] + Span(s, order[i]);
    assert IsStart(s, order[i]);
    if order[i] > 0 { BehindHeader(s, src, k); } else { assert order[i] in order; }
  }

  /** The octets of the first fragment are the packet's when header and lengths are. */
  lemma HeaderExact(s: Sent, src: Addr, was: Buffer)
    requires InRange(s) && |was| >= REASS_ROOM
    ensures (forall k :: 0 <= k < FirstEnd(s) ==> Octet(s, src, k) == s.ip[k])
            <==> s.ip[0] & 0xF0 == 0x60 && src == Src(s.ip) && MeasuredAs(s.ip, s.len)
  {
    hide Compress, Header, FirstPayload, MeasuredAs, Octet, HeaderLen, FirstEnd;
    var packet := seq(s.len, k requires 0 <= k < s.len => Octet(s, src, k));
    PacketExact(s, src, packet, was);
    forall k | FirstEnd(s) <= k < s.len ensures Octet(s, src, k) == s.ip[k] { BehindHeader(s, src, k); }
    if packet == s.ip[..s.len] {
      forall k | 0 <= k < s.len ensures Octet(s, src, k) == s.ip[k] { assert packet[k] == s.ip[..s.len][k]; }
    }
  }
}
