// The API frames of XBee modules in escaped mode, octet by octet: what `send`
// puts on the line, and what the parser makes of a frame from anyone else.
module XBeeWire {
  import opened Bytes
  import opened XBee

  // -------------------------------------------------------------------- the sender

  /** The octets that must not stand in a frame as they are. */
  predicate Reserved(b: Byte) { b == 0x7e || b == 0x7d || b == 0x11 || b == 0x13 }

  /** Escapes undone. */
  function Undone(s: seq<Byte>): seq<Byte>
    decreases |s|
  {
    if s == [] then []
    else if s[0] == 0x7d && |s| > 1 then [s[1] ^ 0x20] + Undone(s[2..])
    else [s[0]] + Undone(s[1..])
  }

  /** Only escapes are left of the reserved octets, and each stands before one that needs it. */
  predicate Stuffed(s: seq<Byte>) {
    forall i :: 0 <= i < |s| && Reserved(s[i]) ==> s[i] == 0x7d && i + 1 < |s| && !Reserved(s[i + 1]) && Reserved(s[i + 1] ^ 0x20)
  }

  lemma FlipReserved(b: Byte)
    ensures (b ^ 0x20) ^ 0x20 == b && (Reserved(b) ==> !Reserved(b ^ 0x20))
  {}

  lemma {:induction false} StuffedAll(s: seq<Byte>)
    ensures Stuffed(EscapedAll(s)) && Undone(EscapedAll(s)) == s
    decreases |s|
  {
    hide Reserved, EscapedAll, Undone, Stuffed, Special;
    if s == [] {
      NothingStuffed();
    } else {
      StuffedAll(s[1..]);
      UnfoldEscaped(s);
      SpecialIsReserved(s[0]);
      if Reserved(s[0]) { StuffedPair(s[0], EscapedAll(s[1..])); } else { StuffedOne(s[0], EscapedAll(s[1..])); }
      assert s == [s[0]] + s[1..];
    }
  }

  lemma NothingStuffed()
    ensures EscapedAll([]) == [] && Stuffed([]) && Undone([]) == []
  {}

  lemma SpecialIsReserved(b: Byte)
    ensures Special(b) <==> Reserved(b)
  {}

  lemma EscapeIsReserved()
    ensures Reserved(0x7d)
  {}

  lemma UnfoldEscaped(s: seq<Byte>)
    requires s != []
    ensures EscapedAll(s) == (if Special(s[0]) then [ESCAPE, s[0] ^ 0x20] else [s[0]]) + EscapedAll(s[1..])
  {}

  lemma StuffedPair(b: Byte, rest: seq<Byte>)
    requires Stuffed(rest) && Reserved(b)
    ensures Stuffed([0x7d, b ^ 0x20] + rest) && Undone([0x7d, b ^ 0x20] + rest) == [b] + Undone(rest)
  {
    FlipReserved(b);
    hide Reserved;
    var e := [0x7d, b ^ 0x20] + rest;
    assert e[2..] == rest && e[1] == b ^ 0x20;
    forall i | 0 <= i < |e| && Reserved(e[i])
      ensures e[i] == 0x7d && i + 1 < |e| && !Reserved(e[i + 1]) && Reserved(e[i + 1] ^ 0x20)
    {
      if i >= 2 { assert e[i] == rest[i - 2]; }
    }
  }

  lemma StuffedOne(b: Byte, rest: seq<Byte>)
    requires Stuffed(rest) && !Reserved(b)
    ensures Stuffed([b] + rest) && Undone([b] + rest) == [b] + Undone(rest)
  {
    EscapeIsReserved();
    hide Reserved;
    var e := [b] + rest;
    assert e[1..] == rest;
    forall i | 0 <= i < |e| && Reserved(e[i])
      ensures e[i] == 0x7d && i + 1 < |e| && !Reserved(e[i + 1]) && Reserved(e[i + 1] ^ 0x20)
    {
      if i >= 1 { assert e[i] == rest[i - 1]; }
    }
  }

  /** A start octet, and stuffed behind it: the length of what the checksum covers, the API id, the frame id, the data, and
      the octet that makes all that is covered add up to 0xff. */
  lemma SentExactly(f: Frame)
    requires |f.data| < 256
    ensures var s := Encode(f);
            && s != [] && s[0] == 0x7e && Stuffed(s[1..])
            && var u := Undone(s[1..]);
            && |u| == |f.data| + 5 && Val(u[0]) * 256 + Val(u[1]) == |f.data| + 2
            && u[2] == f.api && u[3] == f.id && u[4..|u| - 1] == f.data
            && Sum(u[2..]) % 256 == 255
  {
    hide Sum, EscapedAll, Stuffed, Undone, Body, Encode;
    StuffedAll(Body(f));
    EncodeStarts(f);
    BodyShape(f);
    BodySum(f);
  }

  lemma EncodeStarts(f: Frame)
    ensures Encode(f) != [] && Encode(f)[0] == 0x7e && Encode(f)[1..] == EscapedAll(Body(f))
  {
    hide EscapedAll, Body;
  }

  lemma BodyShape(f: Frame)
    requires |f.data| < 256
    ensures var b := Body(f);
            && |b| == |f.data| + 5 && Val(b[0]) * 256 + Val(b[1]) == |f.data| + 2
            && b[2] == f.api && b[3] == f.id && b[4..|b| - 1] == f.data && b[2..] == Covered(f) + [Checksum(f)]
  {
    hide Checksum, Be16, Val;
    WordOfBe16(|f.data| + 2);
    BodyPieces(Be16(|f.data| + 2), f.api, f.id, f.data, Checksum(f));
  }

  lemma BodyPieces(h: seq<Byte>, a: Byte, i: Byte, d: seq<Byte>, c: Byte)
    requires |h| == 2
    ensures var b := h + ([a, i] + d) + [c];
            && |b| == |d| + 5 && b[0] == h[0] && b[1] == h[1] && b[2] == a && b[3] == i && b[4..|b| - 1] == d
            && b[2..] == ([a, i] + d) + [c]
  {
    var b := h + ([a, i] + d) + [c];
    assert b[4..|b| - 1] == d;
    assert b[2..] == ([a, i] + d) + [c];
  }

  lemma BodySum(f: Frame)
    ensures Sum(Covered(f) + [Checksum(f)]) % 256 == 255
  {
    hide Covered, Checksum;
    SumConcat(Covered(f), [Checksum(f)]);
    SumOne(Checksum(f));
    SumValue(f);
    hide Sum;
    Completes(Sum(Covered(f)));
  }

  lemma SumOne(b: Byte)
    ensures Sum([b]) == Val(b)
  {}

  lemma Completes(s: nat)
    ensures (s + (255 - s % 256)) % 256 == 255
  {
    assert s == 256 * (s / 256) + s % 256;
  }

  // -------------------------------------------------------------------- the parser

  /** Any frame: the two length octets, the API id, as many octets less one as the second length octet says, and one
      more to complete the sum. */
  function Wire(msb: Byte, n: Byte, api: Byte, data: seq<Byte>, last: Byte): seq<Byte> {
    ([0x7e] + EscapedAll([msb, n, api])) + (EscapedAll(data) + EscapedAll([last]))
  }

  function Begun(p: Parser, msb: Byte, n: Byte, api: Byte): Parser {
    p.(pos := 4, total := (p.total + Val(api)) % 0x100, msb := msb, lsb := n, api := api)
  }

  lemma HeadRead(p: Parser, h: Byte, l: Byte, api: Byte)
    requires Ok(p) && !Stopped(p) && p.pos == 0
    ensures Ok(Begun(p, h, l, api)) && Consume(p, [0x7e] + EscapedAll([h, l, api])) == Progress(Begun(p, h, l, api), [])
  {
    hide Escaped, Consume, Step, EscapedAll, Accept, Report, Consume, Val;
    var p1 := p.(pos := 1);
    var p2 := p1.(msb := h, pos := 2);
    var p3 := p2.(lsb := l, pos := 3);
    StartStep(p);
    HeadAccepts(p, h, l, api);
    FeedOne(p, START_BYTE);
    FeedEscaped(p1, h);
    FeedEscaped(p2, l);
    FeedEscaped(p3, api);
    EscapedThree(h, l, api);
    ConsumeConcat(p2, Escaped(l), Escaped(api));
    ConsumeConcat(p1, Escaped(h), Escaped(l) + Escaped(api));
    ConsumeConcat(p, [START_BYTE], Escaped(h) + (Escaped(l) + Escaped(api)));
  }

  /** The running sum with all of a frame added. */
  function SumOf(t: nat, api: Byte, data: seq<Byte>, last: Byte): nat { t + Val(api) + Sum(data) + Val(last) }

  lemma DataLoaded(p: Parser, h: Byte, l: Byte, api: Byte, data: seq<Byte>)
    requires Ok(p) && !Stopped(p) && p.pos == 0 && !p.escape && |data| <= 107 && Ok(Begun(p, h, l, api))
    ensures var q := Loaded(Begun(p, h, l, api), data);
            && Ok(q) && !Stopped(q) && !q.escape && q.pos == 4 + |data| && q.api == api && PacketLength(q) == Val(l)
            && q.total == (p.total + Val(api) + Sum(data)) % 256 && q.data[..|data|] == data
  {
    hide Sum, Val, Splice;
    AddMod(p.total + Val(api), Sum(data));
    var q := Loaded(Begun(p, h, l, api), data);
    assert q.data[..|data|] == data;
  }

  /** Whoever sent it: a frame of 1 to 107 octets behind the length is taken in full, and delivered if and only if the
      octets behind the length, and any running sum left over, add up to 0xff. */
  lemma FrameRead(p: Parser, msb: Byte, n: Byte, api: Byte, data: seq<Byte>, last: Byte)
    requires Ok(p) && !Stopped(p) && p.pos == 0 && 1 <= Val(n) <= 107 && |data| == Val(n) - 1
    ensures var r := Consume(p, Wire(msb, n, api, data, last));
            && Clean(r.parser)
            && r.log == [if SumOf(p.total, api, data, last) % 256 == 255 then Delivered(api, data) else Failed(ChecksumFailure)]
  {
    hide Consume, EscapedAll, Escaped, Sum, Accept, Report, Clean, Loaded, Val, PacketLength, Begun;
    HeadRead(p, msb, n, api);
    var q := Begun(p, msb, n, api);
    BegunFacts(p, msb, n, api, |data|);
    FeedData(q, data);
    DataLoaded(p, msb, n, api, data);
    var u := Loaded(q, data);
    EscapedOne(last);
    FeedEscaped(u, last);
    LastRead(p.total, u, api, data, last);
    ConsumeConcat(q, EscapedAll(data), EscapedAll([last]));
    ConsumeConcat(p, [0x7e] + EscapedAll([msb, n, api]), EscapedAll(data) + EscapedAll([last]));
  }

  lemma BegunFacts(p: Parser, h: Byte, l: Byte, api: Byte, k: nat)
    requires Ok(p) && !Stopped(p) && p.pos == 0 && k <= 107
    ensures var q := Begun(p, h, l, api);
            && Ok(q) && !Stopped(q) && !q.escape && q.pos == 4 && PacketLength(q) == Val(l)
            && (EndsWithin(q, k) <==> 1 <= Val(l) <= k)
  {
    hide Val;
  }

  lemma LastRead(t: nat, u: Parser, api: Byte, data: seq<Byte>, last: Byte)
    requires Ok(u) && !Stopped(u) && !u.escape && u.pos == 4 + |data| == PacketLength(u) + 3 <= MAX_FRAME_DATA_SIZE && u.api == api
    requires u.total == (t + Val(api) + Sum(data)) % 256 && u.data[..|data|] == data
    ensures var q := Accept(u, last);
            && Clean(q) && q.pos == 0
            && Report(q) == [if SumOf(t, api, data, last) % 256 == 255 then Delivered(api, data) else Failed(ChecksumFailure)]
  {
    AcceptLast(u, last);
    AddMod(t + Val(api) + Sum(data), Val(last));
    hide Accept, Val, Sum, PacketLength;
  }

  /** One that says it has none, or more than 107, is given up at the 108th. */
  lemma TooLongRead(p: Parser, msb: Byte, n: Byte, api: Byte, data: seq<Byte>, last: Byte)
    requires Ok(p) && !Stopped(p) && p.pos == 0 && (Val(n) == 0 || Val(n) > 107) && |data| == 107
    ensures Consume(p, Wire(msb, n, api, data, last)).log == [Failed(PacketExceeds)]
  {
    hide Consume, EscapedAll, Escaped, Sum, Accept, Report, Loaded, Val, PacketLength, Begun;
    HeadRead(p, msb, n, api);
    var q := Begun(p, msb, n, api);
    BegunFacts(p, msb, n, api, 107);
    FeedData(q, data);
    DataLoaded(p, msb, n, api, data);
    var u := Loaded(q, data);
    EscapedOne(last);
    FeedEscaped(u, last);
    ExceedsRead(u, last);
    ConsumeConcat(q, EscapedAll(data), EscapedAll([last]));
    ConsumeConcat(p, [0x7e] + EscapedAll([msb, n, api]), EscapedAll(data) + EscapedAll([last]));
  }

  lemma ExceedsRead(u: Parser, last: Byte)
    requires Ok(u) && !Stopped(u) && !u.escape && u.pos == 111
    ensures Report(Accept(u, last)) == [Failed(PacketExceeds)]
  {
    hide Val;
  }

  /** A start octet inside a frame ends it in error; the octets behind it are those between two frames, which mean nothing
      up to the next start octet. */
  lemma StartInside(p: Parser)
    requires Ok(p) && !Stopped(p) && p.pos > 0
    ensures var q := Step(p, 0x7e); Report(q) == [Failed(UnexpectedStart)] && Boundary(q) && Restart(q).total == p.total
  {}

  lemma BetweenFrames(p: Parser, b: Byte)
    requires Ok(p) && !Stopped(p) && p.pos == 0 && b != 0x7e
    ensures Step(p, b) == p
  {}
}
