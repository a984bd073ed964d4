// The XBee API frames of XBee.cpp: the sender with its escapes, the incremental
// parser, and what of the one the other delivers however the octets trickle in.
module XBee {
  import opened Bytes

  const START_BYTE: Byte := 0x7e
  const ESCAPE: Byte := 0x7d
  const XON: Byte := 0x11
  const XOFF: Byte := 0x13
  const API_ID_INDEX: nat := 3
  const MAX_FRAME_DATA_SIZE: nat := 110

  datatype Error = NoError | ChecksumFailure | PacketExceeds | UnexpectedStart

  /** A request: API id, frame id and the frame data, whose length is a `uint8_t`. */
  datatype Frame = Frame(api: Byte, id: Byte, data: seq<Byte>)

  predicate Sendable(f: Frame) { |f.data| < 0x100 }

  // ------------------------------------------------------------------- the sender

  predicate Special(b: Byte) { b == START_BYTE || b == ESCAPE || b == XON || b == XOFF }

  /** `sendByte(b, true)`. */
  function Escaped(b: Byte): seq<Byte> {
    if Special(b) then [ESCAPE, b ^ 0x20] else [b]
  }

  function EscapedAll(s: seq<Byte>): seq<Byte> {
    if s == [] then [] else Escaped(s[0]) + EscapedAll(s[1..])
  }

  function Sum(s: seq<Byte>): nat {
    if s == [] then 0 else Val(s[0]) + Sum(s[1..])
  }

  /** What the checksum covers. */
  function Covered(f: Frame): seq<Byte> { [f.api, f.id] + f.data }

  function Checksum(f: Frame): Byte { Low(0xff - Sum(Covered(f)) % 0x100) }

  function Body(f: Frame): seq<Byte> {
    Be16(|f.data| + 2) + Covered(f) + [Checksum(f)]
  }

  /** The octets `send` writes. */
  function Encode(f: Frame): seq<Byte> { [START_BYTE] + EscapedAll(Body(f)) }

  function Stream(fs: seq<Frame>): seq<Byte> {
    if fs == [] then [] else Encode(fs[0]) + Stream(fs[1..])
  }

  // ------------------------------------------------------------------- the parser

  /** `_pos`, `_escape`, `_checksumTotal` and the response under construction. */
  datatype Parser = Parser(pos: nat, escape: bool, total: nat, msb: Byte, lsb: Byte, api: Byte, data: seq<Byte>,
                           frameLength: nat, checksum: Byte, complete: bool, error: Error)

  predicate Ok(p: Parser) {
    |p.data| == MAX_FRAME_DATA_SIZE && p.pos <= MAX_FRAME_DATA_SIZE + 1 && p.frameLength <= MAX_FRAME_DATA_SIZE
    && (p.escape ==> p.pos > 0) && p.total < 0x100
  }

  /** `isAvailable() || isError()`: `readPacket` has returned with this. */
  predicate Stopped(p: Parser) { p.complete || p.error != NoError }

  /** `readPacket` begins with this: a finished response is given up, the running sum is kept. */
  function Restart(p: Parser): (r: Parser)
    ensures Ok(p) ==> Ok(r)
    ensures !Stopped(r)
  {
    if Stopped(p) then Parser(0, false, p.total, 0, 0, 0, Zeros(MAX_FRAME_DATA_SIZE), 0, 0, false, NoError) else p
  }

  /** `getPacketLength`: the high octet is shifted out of the mask. */
  function PacketLength(p: Parser): nat { Val(p.lsb) }

  /** The default case of the `switch`, the octet already added to the running sum. */
  function AcceptLate(p: Parser, b: Byte): (r: Parser)
    requires Ok(p) && !p.escape && p.pos >= 4
    ensures Ok(r) && !r.escape
  {
    if p.pos > MAX_FRAME_DATA_SIZE then p.(error := PacketExceeds)
    else if p.pos == PacketLength(p) + 3 then
      var v := if p.total == 0xff then p.(checksum := b, complete := true, error := NoError) else p.(error := ChecksumFailure);
      v.(frameLength := p.pos - 4, pos := 0, total := 0)
    else p.(data := p.data[p.pos - 4 := b], pos := p.pos + 1)
  }

  /** The `switch`, for an octet with its escape undone. */
  function Accept(p: Parser, b: Byte): (r: Parser)
    requires Ok(p) && !p.escape
    ensures Ok(r) && !r.escape
  {
    var total := if p.pos >= API_ID_INDEX then (p.total + Val(b)) % 0x100 else p.total;
    var q := p.(total := total);
    if p.pos == 0 then if b == START_BYTE then q.(pos := 1) else q
    else if p.pos == 1 then q.(msb := b, pos := 2)
    else if p.pos == 2 then q.(lsb := b, pos := 3)
    else if p.pos == 3 then q.(api := b, pos := 4)
    else AcceptLate(q, b)
  }

  /** An octet as it is, or the second one of an escape. */
  function Unescape(p: Parser, b: Byte): (r: Parser)
    requires Ok(p)
    ensures Ok(r) && !r.escape
  {
    if p.escape then Accept(p.(escape := false), 0x20 ^ b) else Accept(p, b)
  }

  /** One round of the loop for an octet that is the last one available. */
  function Step(p: Parser, b: Byte): (r: Parser)
    requires Ok(p)
    ensures Ok(r)
  {
    if p.pos > 0 && b == START_BYTE then p.(error := UnexpectedStart)
    else if p.pos > 0 && b == ESCAPE then p.(escape := true)
    else Unescape(p, b)
  }

  /** What the caller learns from a response. */
  datatype Outcome = Delivered(api: Byte, data: seq<Byte>) | Failed(error: Error)

  function Report(p: Parser): seq<Outcome>
    requires Ok(p)
  {
    if p.complete then [Delivered(p.api, p.data[..p.frameLength])]
    else if p.error != NoError then [Failed(p.error)]
    else []
  }

  datatype Progress = Progress(parser: Parser, log: seq<Outcome>)

  /** The reference: octets fed one at a time, and everything reported on the way. */
  function Consume(p: Parser, bytes: seq<Byte>): (r: Progress)
    requires Ok(p)
    ensures Ok(r.parser)
    decreases |bytes|
  {
    if bytes == [] then Progress(p, [])
    else
      var q := Step(Restart(p), bytes[0]);
      var rest := Consume(q, bytes[1..]);
      Progress(rest.parser, Report(q) + rest.log)
  }

  // ------------------------------------------------------------ the call of the loop

  /** The serial line during one call: the octets still to come and the answers of `available()`, which
      may say no at any time and is never right to say yes at the end. */
  datatype Line = Line(stream: seq<Byte>, answers: seq<bool>)

  predicate Available(l: Line) { l.answers != [] && l.answers[0] && l.stream != [] }

  function Asked(l: Line): Line { if l.answers == [] then l else l.(answers := l.answers[1..]) }

  function Taken(l: Line): Line
    requires l.stream != []
  {
    l.(stream := l.stream[1..])
  }

  datatype Read = Read(parser: Parser, stream: seq<Byte>)

  /** The loop of `readPacket`. */
  function ReadLoop(p: Parser, l: Line): (r: Read)
    requires Ok(p) && !Stopped(p)
    ensures Ok(r.parser)
    decreases |l.answers|, 0
  {
    if !Available(l) then Read(p, l.stream)
    else
      var b := l.stream[0];
      var l1 := Taken(Asked(l));
      if p.pos > 0 && b == START_BYTE then Read(p.(error := UnexpectedStart), l1.stream)
      else if p.pos > 0 && b == ESCAPE then
        if Available(l1) then Turn(p, 0x20 ^ l1.stream[0], Taken(Asked(l1)))
        else ReadLoop(p.(escape := true), Asked(l1))
      else Turn(p, b, l1)
  }

  /** The rest of a round, and the rounds after it. */
  function Turn(p: Parser, b: Byte, l: Line): (r: Read)
    requires Ok(p) && !Stopped(p)
    ensures Ok(r.parser)
    decreases |l.answers|, 1
  {
    var q := Unescape(p, b);
    if Stopped(q) then Read(q, l.stream) else ReadLoop(q, l)
  }

  datatype Session = Session(parser: Parser, stream: seq<Byte>, log: seq<Outcome>)

  /** Calls of `readPacket`, each with its own answers of `available()`. */
  function Calls(p: Parser, stream: seq<Byte>, calls: seq<seq<bool>>): (r: Session)
    requires Ok(p)
    ensures Ok(r.parser)
    decreases |calls|
  {
    if calls == [] then Session(p, stream, [])
    else
      var r := ReadLoop(Restart(p), Line(stream, calls[0]));
      var rest := Calls(r.parser, r.stream, calls[1..]);
      Session(rest.parser, rest.stream, Report(r.parser) + rest.log)
  }

  // ------------------------------------------------------- chunks against octets

  /** No escape is followed by an octet that must itself be escaped. */
  predicate WellEscaped(s: seq<Byte>) {
    forall i :: 0 <= i < |s| - 1 && s[i] == ESCAPE ==> s[i + 1] != START_BYTE && s[i + 1] != ESCAPE
  }

  /** `b` would close the frame with a wrong sum, as it is and as the second octet of an escape. */
  predicate FailsAnyway(p: Parser, b: Byte) {
    && 4 <= p.pos <= MAX_FRAME_DATA_SIZE && p.pos == PacketLength(p) + 3
    && (p.total + Val(b)) % 0x100 != 0xff && (p.total + Val(0x20 ^ b)) % 0x100 != 0xff
  }

  /** An escape inside a frame with a start octet or an escape behind it; or the second of two escapes already,
      unless the octet behind it ends the frame in error in any case. */
  predicate Torn(p: Parser, s: seq<Byte>)
    requires s != []
  {
    p.pos > 0 && s[0] == ESCAPE && |s| > 1
    && (s[1] == START_BYTE || s[1] == ESCAPE || (p.escape && !FailsAnyway(p, s[1])))
  }

  /** None is met when the octets are fed one at a time; octets between frames do not matter. */
  predicate Tame(p: Parser, s: seq<Byte>)
    requires Ok(p)
    decreases |s|
  {
    s == [] || (!Torn(Restart(p), s) && Tame(Step(Restart(p), s[0]), s[1..]))
  }

  /** If the second octet of an escape is to come, it is not itself an escape. */
  predicate Pending(p: Parser, s: seq<Byte>) { Restart(p).escape && s != [] ==> s[0] != ESCAPE }

  lemma {:induction false} WellEscapedIsTame(p: Parser, s: seq<Byte>)
    requires Ok(p) && WellEscaped(s) && Pending(p, s)
    ensures Tame(p, s)
    decreases |s|
  {
    hide Accept, FailsAnyway;
    if s != [] {
      assert forall i :: 0 <= i < |s[1..]| ==> s[1..][i] == s[i + 1];
      WellEscapedIsTame(Step(Restart(p), s[0]), s[1..]);
    }
  }

  /** A call that left `r` did what feeding the octets it took does. */
  ghost predicate Agrees(p: Parser, stream: seq<Byte>, r: Read)
    requires Ok(p) && Ok(r.parser)
  {
    && |r.stream| <= |stream| && r.stream == stream[|stream| - |r.stream|..]
    && Consume(p, stream[..|stream| - |r.stream|]) == Progress(r.parser, Report(r.parser))
    && Tame(r.parser, r.stream)
  }

  lemma AgreesStep(p: Parser, stream: seq<Byte>, r: Read)
    requires Ok(p) && !Stopped(p) && stream != [] && Ok(r.parser)
    requires !Stopped(Step(p, stream[0])) && Agrees(Step(p, stream[0]), stream[1..], r)
    ensures Agrees(p, stream, r)
  {
    hide Step, Ok, Stopped, Tame;
    ReportNothing(Step(p, stream[0]));
    RestartNothing(p);
    var n := |stream| - |r.stream|;
    assert stream[..n][0] == stream[0] && stream[..n][1..] == stream[1..][..n - 1];
    assert r.stream == stream[n..];
    hide Report;
  }

  lemma AgreesStop(p: Parser, stream: seq<Byte>)
    requires Ok(p) && !Stopped(p) && stream != [] && Stopped(Step(p, stream[0]))
    requires Tame(Step(p, stream[0]), stream[1..])
    ensures Agrees(p, stream, Read(Step(p, stream[0]), stream[1..]))
  {
    var q := Step(p, stream[0]);
    hide Step, Report, Ok, Tame;
    assert stream[..1] == [stream[0]];
    assert Consume(q, []) == Progress(q, []);
    assert Consume(p, [stream[0]]) == Progress(q, Report(q) + []);
  }

  lemma ReportNothing(p: Parser)
    requires Ok(p) && !Stopped(p)
    ensures Report(p) == []
  {}

  lemma RestartNothing(p: Parser)
    requires !Stopped(p)
    ensures Restart(p) == p
  {}

  lemma TameTail(p: Parser, stream: seq<Byte>)
    requires Ok(p) && stream != [] && Tame(p, stream) && !Stopped(p)
    ensures Tame(Step(p, stream[0]), stream[1..])
  {
    hide Accept, Unescape;
    RestartNothing(p);
  }

  lemma TamePair(p: Parser, stream: seq<Byte>)
    requires Ok(p) && Tame(p, stream) && !Stopped(p) && p.pos > 0 && |stream| > 1 && stream[0] == ESCAPE
    ensures Ok(p.(escape := true)) && Step(p.(escape := true), stream[1]) == Unescape(p, 0x20 ^ stream[1])
  {
    hide Step, Ok, Unescape, FailsAnyway;
    RestartNothing(p);
    PairExact(p, stream[1]);
  }

  /** One call of `readPacket` on such octets is the octets fed one at a time, whether the second
      octet of an escape was read right away or after a gap. */
  lemma {:induction false} ReadLoopConsumes(p: Parser, l: Line)
    requires Ok(p) && !Stopped(p) && Tame(p, l.stream)
    ensures Agrees(p, l.stream, ReadLoop(p, l))
    decreases |l.answers|, 0
  {
    hide Unescape, Ok, Report, Consume, Restart, Tame, Agrees;
    if !Available(l) {
      NothingRead(p, l.stream);
    } else {
      var b := l.stream[0];
      var l1 := Taken(Asked(l));
      TameTail(p, l.stream);
      if p.pos > 0 && b == START_BYTE {
        AgreesStop(p, l.stream);
      } else if p.pos > 0 && b == ESCAPE {
        var pe := p.(escape := true);
        if Available(l1) {
          TamePair(p, l.stream);
          TameTail(pe, l1.stream);
          TurnConsumes(pe, p, 0x20 ^ l1.stream[0], l1.stream, Taken(Asked(l1)));
          AgreesStep(p, l.stream, ReadLoop(p, l));
        } else {
          ReadLoopConsumes(pe, Asked(l1));
          AgreesStep(p, l.stream, ReadLoop(p, l));
        }
      } else {
        TurnConsumes(p, p, b, l.stream, l1);
      }
    }
  }

  lemma NothingRead(p: Parser, stream: seq<Byte>)
    requires Ok(p) && !Stopped(p) && Tame(p, stream)
    ensures Agrees(p, stream, Read(p, stream))
  {
    hide Ok;
    assert stream[|stream| - |stream|..] == stream && stream[..|stream| - |stream|] == [];
  }

  lemma EscapePair(p: Parser, b: Byte)
    requires Ok(p) && p.pos > 0 && !p.escape && b != START_BYTE && b != ESCAPE
    ensures Ok(p.(escape := true)) && Step(p.(escape := true), b) == Unescape(p, 0x20 ^ b)
  {
    hide Accept;
    assert p.(escape := true).(escape := false) == p;
  }

  lemma TurnConsumes(p: Parser, u: Parser, b: Byte, stream: seq<Byte>, l: Line)
    requires Ok(p) && !Stopped(p) && Ok(u) && !Stopped(u) && stream != [] && l.stream == stream[1..]
    requires Step(p, stream[0]) == Unescape(u, b) && Tame(Step(p, stream[0]), l.stream)
    ensures Agrees(p, stream, Turn(u, b, l))
    decreases |l.answers|, 1
  {
    hide Unescape, Ok, Report, Consume, Restart, Step, Tame, Agrees;
    if Stopped(Unescape(u, b)) {
      AgreesStop(p, stream);
    } else {
      ReadLoopConsumes(Unescape(u, b), l);
      AgreesStep(p, stream, ReadLoop(Unescape(u, b), l));
    }
  }

  /** Feeding two pieces is feeding them together. */
  lemma {:induction false} ConsumeConcat(p: Parser, a: seq<Byte>, b: seq<Byte>)
    requires Ok(p)
    ensures var m := Consume(p, a);
            Consume(p, a + b) == (var r := Consume(m.parser, b); Progress(r.parser, m.log + r.log))
    decreases |a|
  {
    hide Step, Restart, Report, Ok;
    if a == [] {
      assert a + b == b;
    } else {
      var q := Step(Restart(p), a[0]);
      ConsumeConcat(q, a[1..], b);
      assert (a + b)[1..] == a[1..] + b && (a + b)[0] == a[0];
    }
  }

  /** A response given up early or late makes no difference. */
  lemma ConsumeRestart(p: Parser, a: seq<Byte>)
    requires Ok(p)
    ensures Consume(p, a).log == Consume(Restart(p), a).log
    ensures Restart(Consume(p, a).parser) == Restart(Consume(Restart(p), a).parser)
  {
    RestartNothing(Restart(p));
    hide Step, Restart, Ok;
  }

  lemma TameRestart(p: Parser, s: seq<Byte>)
    requires Ok(p) && Tame(p, s)
    ensures Tame(Restart(p), s)
  {
    RestartNothing(Restart(p));
    hide Step, Restart, Ok;
  }

  /** These calls took a beginning of the stream, reported what its octets give one at a time, and left the
      parser as they do. */
  ghost predicate Faithful(p: Parser, stream: seq<Byte>, calls: seq<seq<bool>>)
    requires Ok(p)
  {
    var r := Calls(p, stream, calls);
    && |r.stream| <= |stream| && r.stream == stream[|stream| - |r.stream|..]
    && var c := Consume(p, stream[..|stream| - |r.stream|]);
    c.log == r.log && Restart(c.parser) == Restart(r.parser)
  }

  /** Any calls with any answers of `available()` report what the octets they took give one at a time. */
  lemma {:induction false} CallsConsume(p: Parser, stream: seq<Byte>, calls: seq<seq<bool>>)
    requires Ok(p) && Tame(p, stream)
    ensures Faithful(p, stream, calls)
    decreases |calls|
  {
    hide Restart, Ok, Tame, Report, ReadLoop, Step;
    if calls == [] {
      assert stream[|stream| - |stream|..] == stream && stream[..|stream| - |stream|] == [];
    } else {
      var m := ReadLoop(Restart(p), Line(stream, calls[0]));
      TameRestart(p, stream);
      ReadLoopConsumes(Restart(p), Line(stream, calls[0]));
      CallsConsume(m.parser, m.stream, calls[1..]);
      var r := Calls(m.parser, m.stream, calls[1..]);
      var i, n := |stream| - |m.stream|, |stream| - |r.stream|;
      var a, b := stream[..i], m.stream[..|m.stream| - |r.stream|];
      assert stream[..n] == a + b;
      assert r.stream == stream[n..];
      ConsumeConcat(Restart(p), a, b);
      ConsumeRestart(p, stream[..n]);
    }
  }

  // --------------------------------------------------------- when the cut matters

  /** A caller, or a later octet, can tell the two apart. */
  ghost predicate Told(x: Parser, y: Parser)
    requires Ok(x) && Ok(y)
  {
    Report(x) != Report(y) || Restart(x) != Restart(y)
  }

  lemma TotalsTold(x: Parser, y: Parser)
    requires Ok(x) && Ok(y) && x.total != y.total
    ensures x != y && Told(x, y)
  {}

  /** An escape read after a gap and one read at once come to the same exactly for an octet that need not be
      escaped itself; if an escape was pending already, only for one that ends the frame in error either way. */
  lemma PairExact(p: Parser, b: Byte)
    requires Ok(p) && p.pos > 0
    ensures Ok(p.(escape := true))
    ensures Step(p.(escape := true), b) == Unescape(p, 0x20 ^ b)
            <==> b != START_BYTE && b != ESCAPE && (p.escape ==> FailsAnyway(p, b))
  {
    if b != START_BYTE && b != ESCAPE {
      if p.escape { PendingPair(p, b); } else { EscapePair(p, b); }
    }
    hide Accept, FailsAnyway;
  }

  /** Both readings of the octet behind two escapes. */
  lemma PendingPair(p: Parser, b: Byte)
    requires Ok(p) && p.pos > 0 && p.escape && b != START_BYTE && b != ESCAPE
    ensures var x, y := Accept(p.(escape := false), 0x20 ^ b), Accept(p.(escape := false), b);
            && Step(p, b) == x && Unescape(p, 0x20 ^ b) == y
            && (x == y <==> FailsAnyway(p, b))
            && (!Stopped(p) && !FailsAnyway(p, b) ==> Told(x, y))
  {
    hide Accept, Told, Val, Report, Restart;
    TwiceFlipped(b);
    AcceptsDiffer(p.(escape := false), b, 0x20 ^ b);
  }

  lemma TwiceFlipped(b: Byte)
    ensures 0x20 ^ (0x20 ^ b) == b && 0x20 ^ b != b && Val(0x20 ^ b) != Val(b)
  {}

  /** Two octets at the same place in a frame. */
  lemma AcceptsDiffer(p: Parser, b: Byte, c: Byte)
    requires Ok(p) && !p.escape && p.pos > 0 && b != c && Val(b) != Val(c)
    ensures var x, y := Accept(p, c), Accept(p, b);
            var fail := 4 <= p.pos <= MAX_FRAME_DATA_SIZE && p.pos == PacketLength(p) + 3
                        && (p.total + Val(b)) % 0x100 != 0xff && (p.total + Val(c)) % 0x100 != 0xff;
            && (x == y <==> fail)
            && (!Stopped(p) && !fail ==> Told(x, y))
  {
    hide Accept, AcceptLate, Told, PacketLength, Val, Report, Restart, Stopped;
    TotalsDiffer(p.total, Val(b), Val(c));
    if p.pos >= 4 {
      AcceptIsLate(p, b);
      AcceptIsLate(p, c);
      LatesDiffer(p, c, (p.total + Val(c)) % 0x100, b, (p.total + Val(b)) % 0x100);
    } else {
      FieldsTold(p, b, c);
    }
  }

  lemma AcceptIsLate(p: Parser, b: Byte)
    requires Ok(p) && !p.escape && p.pos >= 4
    ensures Accept(p, b) == AcceptLate(p.(total := (p.total + Val(b)) % 0x100), b)
  {
    hide Val, AcceptLate;
  }

  lemma FieldsTold(p: Parser, b: Byte, c: Byte)
    requires Ok(p) && !p.escape && 0 < p.pos <= API_ID_INDEX && b != c
    ensures Accept(p, c) != Accept(p, b)
    ensures !Stopped(p) ==> Told(Accept(p, c), Accept(p, b))
  {
    hide Report, Restart, Ok;
    FieldRead(p, b);
    FieldRead(p, c);
    hide Accept;
    if !Stopped(p) {
      RestartNothing(Accept(p, c));
      RestartNothing(Accept(p, b));
    }
  }

  /** The octet is where it belongs. */
  lemma FieldRead(p: Parser, b: Byte)
    requires Ok(p) && !p.escape && 0 < p.pos <= API_ID_INDEX
    ensures var q := Accept(p, b);
            && q.complete == p.complete && q.error == p.error
            && (if p.pos == 1 then q.msb else if p.pos == 2 then q.lsb else q.api) == b
  {
    hide Val, AcceptLate;
  }

  lemma LatesDiffer(p: Parser, c: Byte, u: nat, b: Byte, v: nat)
    requires Ok(p) && !p.escape && p.pos >= 4 && u < 0x100 && v < 0x100 && u != v
    ensures var x, y := AcceptLate(p.(total := u), c), AcceptLate(p.(total := v), b);
            var fail := p.pos <= MAX_FRAME_DATA_SIZE && p.pos == PacketLength(p) + 3 && u != 0xff && v != 0xff;
            && (x == y <==> fail)
            && (!Stopped(p) && !fail ==> Told(x, y))
  {
    hide Val, Report, Restart, Told;
    var x, y := AcceptLate(p.(total := u), c), AcceptLate(p.(total := v), b);
    if p.pos > MAX_FRAME_DATA_SIZE || p.pos != PacketLength(p) + 3 {
      TotalsTold(x, y);
    } else if u == 0xff || v == 0xff {
      if !Stopped(p) { OneDelivers(x, y); }
    }
  }

  lemma OneDelivers(x: Parser, y: Parser)
    requires Ok(x) && Ok(y) && x.complete != y.complete && Stopped(x) && Stopped(y)
    ensures Told(x, y)
  {}

  lemma TotalsDiffer(t: nat, x: nat, y: nat)
    requires x < 0x100 && y < 0x100 && x != y
    ensures (t + x) % 0x100 != (t + y) % 0x100
  {}

  ghost predicate EndsWith(s: seq<Byte>, r: seq<Byte>) { |r| <= |s| && r == s[|s| - |r|..] }

  lemma EndsWithMore(s: seq<Byte>, r: seq<Byte>)
    requires s != [] && EndsWith(s[1..], r)
    ensures EndsWith(s, r)
  {}

  lemma EndsWithItself(s: seq<Byte>)
    ensures EndsWith(s, s)
  {}

  lemma {:induction false} LoopSuffix(p: Parser, l: Line)
    requires Ok(p) && !Stopped(p)
    ensures EndsWith(l.stream, ReadLoop(p, l).stream)
    decreases |l.answers|, 0
  {
    hide Unescape, EndsWith;
    EndsWithItself(l.stream);
    if Available(l) {
      var b := l.stream[0];
      var l1 := Taken(Asked(l));
      EndsWithItself(l1.stream);
      if p.pos > 0 && b == START_BYTE {
        EndsWithMore(l.stream, l1.stream);
      } else if p.pos > 0 && b == ESCAPE && Available(l1) {
        TurnSuffix(p, 0x20 ^ l1.stream[0], Taken(Asked(l1)));
        EndsWithMore(l1.stream, ReadLoop(p, l).stream);
        EndsWithMore(l.stream, ReadLoop(p, l).stream);
      } else if p.pos > 0 && b == ESCAPE {
        LoopSuffix(p.(escape := true), Asked(l1));
        EndsWithMore(l.stream, ReadLoop(p, l).stream);
      } else {
        TurnSuffix(p, b, l1);
        EndsWithMore(l.stream, ReadLoop(p, l).stream);
      }
    }
  }

  lemma TurnSuffix(p: Parser, b: Byte, l: Line)
    requires Ok(p) && !Stopped(p)
    ensures EndsWith(l.stream, Turn(p, b, l).stream)
    decreases |l.answers|, 1
  {
    hide Unescape, Ok;
    if !Stopped(Unescape(p, b)) { LoopSuffix(Unescape(p, b), l); }
  }

  lemma {:induction false} CallsSuffix(p: Parser, stream: seq<Byte>, calls: seq<seq<bool>>)
    requires Ok(p)
    ensures EndsWith(stream, Calls(p, stream, calls).stream)
    decreases |calls|
  {
    hide Ok, ReadLoop, Restart, Report;
    if calls != [] {
      var m := ReadLoop(Restart(p), Line(stream, calls[0]));
      LoopSuffix(Restart(p), Line(stream, calls[0]));
      CallsSuffix(m.parser, m.stream, calls[1..]);
    }
  }

  lemma NothingAvailable(p: Parser, l: Line)
    requires Ok(p) && !Stopped(p) && l.answers == []
    ensures ReadLoop(p, l) == Read(p, l.stream)
  {}

  lemma LastTurn(p: Parser, b: Byte, l: Line)
    requires Ok(p) && !Stopped(p) && l.answers == []
    ensures Turn(p, b, l) == Read(Unescape(p, b), l.stream)
  {
    hide Unescape, Ok;
    if !Stopped(Unescape(p, b)) { NothingAvailable(Unescape(p, b), l); }
  }

  /** A call that finds one octet. */
  lemma OneOctet(p: Parser, stream: seq<Byte>)
    requires Ok(p) && !Stopped(p) && stream != []
    ensures ReadLoop(p, Line(stream, [true])) == Read(Step(p, stream[0]), stream[1..])
  {
    hide Unescape;
    var l1 := Taken(Asked(Line(stream, [true])));
    assert [true][1..] == [];
    if p.pos > 0 && stream[0] == ESCAPE {
      NothingAvailable(p.(escape := true), Asked(l1));
    } else if !(p.pos > 0 && stream[0] == START_BYTE) {
      LastTurn(p, stream[0], l1);
    }
  }

  /** A call that finds an escape and the octet behind it. */
  lemma EscapeAtOnce(p: Parser, stream: seq<Byte>)
    requires Ok(p) && !Stopped(p) && p.pos > 0 && |stream| > 1 && stream[0] == ESCAPE
    ensures ReadLoop(p, Line(stream, [true, true])) == Read(Unescape(p, 0x20 ^ stream[1]), stream[2..])
  {
    hide Unescape, Ok;
    var l := Line(stream, [true, true]);
    var l2 := Taken(Asked(Taken(Asked(l))));
    assert [true, true][1..] == [true] && [true][1..] == [];
    assert l2 == Line(stream[2..], []);
    LastTurn(p, 0x20 ^ stream[1], l2);
  }

  lemma TornDiffers(p: Parser, b: Byte)
    requires Ok(p) && !Stopped(p) && p.pos > 0
    requires b == START_BYTE || b == ESCAPE || (p.escape && !FailsAnyway(p, b))
    ensures Ok(p.(escape := true))
    ensures Told(Step(p.(escape := true), b), Unescape(p, 0x20 ^ b))
  {
    if b != START_BYTE && b != ESCAPE {
      PendingPair(p, b);
      assert p.(escape := true) == p;
    } else {
      SpecialDiffers(p, b);
    }
    hide Accept, FailsAnyway, Report, Restart, Step, Unescape;
  }

  lemma SpecialDiffers(p: Parser, b: Byte)
    requires Ok(p) && !Stopped(p) && p.pos > 0 && (b == START_BYTE || b == ESCAPE)
    ensures Told(Step(p.(escape := true), b), Unescape(p, 0x20 ^ b))
  {}

  lemma EscapeStep(p: Parser)
    requires Ok(p) && p.pos > 0
    ensures Step(p, ESCAPE) == p.(escape := true)
  {}

  lemma TornIsUnfaithful(p: Parser, stream: seq<Byte>)
    requires Ok(p) && stream != [] && Torn(Restart(p), stream)
    ensures !Faithful(p, stream, [[true, true]])
  {
    hide Ok, Step, Unescape, Report, Restart;
    var p0 := Restart(p);
    var pe := p0.(escape := true);
    EscapeAtOnce(p0, stream);
    TornDiffers(p0, stream[1]);
    EscapeStep(p0);
    ReportNothing(pe);
    RestartNothing(pe);
    ConsumeTwo(p, stream[0], stream[1]);
    var y := Unescape(p0, 0x20 ^ stream[1]);
    assert Calls(y, stream[2..], []) == Session(y, stream[2..], []);
    assert [[true, true]][1..] == [];
    assert Calls(p, stream, [[true, true]]) == Session(y, stream[2..], Report(y));
    assert stream[..2] == [stream[0], stream[1]];
  }

  lemma ConsumeTwo(p: Parser, a: Byte, b: Byte)
    requires Ok(p)
    ensures var x := Step(Restart(p), a);
            var y := Step(Restart(x), b);
            Consume(p, [a, b]) == Progress(y, Report(x) + Report(y))
  {
    hide Ok, Step, Report, Restart;
    var x := Step(Restart(p), a);
    var y := Step(Restart(x), b);
    assert [a, b][1..] == [b] && [b][1..] == [];
    assert Consume(y, []) == Progress(y, []);
    assert Consume(x, [b]) == Progress(y, Report(y) + []);
  }

  /** Where one octet at a time meets a torn escape, some calls do otherwise. */
  lemma {:induction false} WildCut(p: Parser, stream: seq<Byte>) returns (calls: seq<seq<bool>>)
    requires Ok(p) && !Tame(p, stream)
    ensures !Faithful(p, stream, calls)
    decreases |stream|
  {
    hide Ok, Step, Report, Restart, Faithful;
    if Torn(Restart(p), stream) {
      calls := [[true, true]];
      TornIsUnfaithful(p, stream);
    } else {
      var more := WildCut(Step(Restart(p), stream[0]), stream[1..]);
      calls := [[true]] + more;
      FaithfulTail(p, stream, more);
    }
  }

  lemma FaithfulTail(p: Parser, stream: seq<Byte>, more: seq<seq<bool>>)
    requires Ok(p) && stream != []
    ensures Faithful(p, stream, [[true]] + more) ==> Faithful(Step(Restart(p), stream[0]), stream[1..], more)
  {
    hide Ok, Step, Report, Restart;
    var q := Step(Restart(p), stream[0]);
    OneOctet(Restart(p), stream);
    CallsSuffix(q, stream[1..], more);
    assert ([[true]] + more)[1..] == more;
    var r := Calls(q, stream[1..], more);
    assert Calls(p, stream, [[true]] + more) == Session(r.parser, r.stream, Report(q) + r.log);
    var n := |stream| - |r.stream|;
    assert stream[..n][1..] == stream[1..][..n - 1] && stream[..n][0] == stream[0];
    var c := Consume(q, stream[1..][..n - 1]);
    assert Consume(p, stream[..n]) == Progress(c.parser, Report(q) + c.log);
    assert (Report(q) + c.log)[|Report(q)|..] == c.log && (Report(q) + r.log)[|Report(q)|..] == r.log;
  }

  /** How the octets are cut into chunks never matters if and only if no torn escape is met; from any state, also
      with an escape pending and another one next. */
  lemma CutsExact(p: Parser, stream: seq<Byte>)
    requires Ok(p)
    ensures (forall calls :: Faithful(p, stream, calls)) <==> Tame(p, stream)
  {
    hide Ok, Tame, Faithful, Restart;
    if Tame(p, stream) {
      forall calls ensures Faithful(p, stream, calls) { CallsConsume(p, stream, calls); }
    } else {
      var calls := WildCut(p, stream);
    }
  }

  // ------------------------------------------------------------ one frame, octet by octet

  /** Between frames: only a start octet means anything. */
  predicate Boundary(p: Parser) { Ok(p) && Restart(p).pos == 0 }

  /** Nothing left over from earlier octets. */
  predicate Clean(p: Parser) { Boundary(p) && Restart(p).total == 0 }

  lemma FeedOne(p: Parser, b: Byte)
    requires Ok(p) && !Stopped(p)
    ensures Consume(p, [b]) == Progress(Step(p, b), Report(Step(p, b)))
  {
    RestartNothing(p);
    hide Step, Report, Ok;
    assert [b][1..] == [];
    var q := Step(p, b);
    assert Consume(q, []) == Progress(q, []);
    assert Report(q) + [] == Report(q);
  }

  /** An octet and its escape are one octet to the parser. */
  lemma FeedEscaped(p: Parser, b: Byte)
    requires Ok(p) && !Stopped(p) && p.pos > 0 && !p.escape
    ensures Consume(p, Escaped(b)) == Progress(Accept(p, b), Report(Accept(p, b)))
  {
    hide Accept, Report, Consume, Ok;
    FlipTwice(b);
    if Special(b) {
      var pe := p.(escape := true);
      FeedOne(p, ESCAPE);
      ReportNothing(pe);
      EscapePair(p, b ^ 0x20);
      FeedOne(pe, b ^ 0x20);
      ConsumeConcat(p, [ESCAPE], [b ^ 0x20]);
      assert Escaped(b) == [ESCAPE] + [b ^ 0x20];
      assert [] + Report(Accept(p, b)) == Report(Accept(p, b));
    } else {
      FeedOne(p, b);
    }
  }

  lemma FlipTwice(b: Byte)
    ensures 0x20 ^ (b ^ 0x20) == b
    ensures Special(b) ==> b ^ 0x20 != START_BYTE && b ^ 0x20 != ESCAPE
  {}

  /** The frame data read so far. */
  function Loaded(p: Parser, s: seq<Byte>): Parser
    requires Ok(p) && 4 <= p.pos && p.pos + |s| <= MAX_FRAME_DATA_SIZE + 1
  {
    p.(data := Splice(p.data, p.pos - 4, s), pos := p.pos + |s|, total := (p.total + Sum(s)) % 0x100)
  }

  predicate EndsWithin(p: Parser, n: nat) { p.pos <= PacketLength(p) + 3 < p.pos + n }

  lemma AcceptData(p: Parser, b: Byte)
    requires Ok(p) && !Stopped(p) && !p.escape && 4 <= p.pos <= MAX_FRAME_DATA_SIZE && p.pos != PacketLength(p) + 3
    ensures Accept(p, b) == p.(data := p.data[p.pos - 4 := b], pos := p.pos + 1, total := (p.total + Val(b)) % 0x100)
  {}

  lemma LoadedStep(p: Parser, q: Parser, s: seq<Byte>)
    requires Ok(p) && Ok(q) && 4 <= p.pos && p.pos + |s| <= MAX_FRAME_DATA_SIZE + 1 && s != []
    requires q == p.(data := p.data[p.pos - 4 := s[0]], pos := p.pos + 1, total := (p.total + Val(s[0])) % 0x100)
    ensures Loaded(q, s[1..]) == Loaded(p, s)
  {
    hide Val;
    assert Splice(q.data, q.pos - 4, s[1..]) == Splice(p.data, p.pos - 4, s);
    AddMod(p.total + Val(s[0]), Sum(s[1..]));
  }

  lemma LoadedNothing(p: Parser)
    requires Ok(p) && 4 <= p.pos
    ensures Loaded(p, []) == p
  {
    assert Splice(p.data, p.pos - 4, []) == p.data;
  }

  lemma {:induction false} FeedData(p: Parser, s: seq<Byte>)
    requires Ok(p) && !Stopped(p) && !p.escape && 4 <= p.pos && p.pos + |s| <= MAX_FRAME_DATA_SIZE + 1
    requires !EndsWithin(p, |s|)
    ensures Consume(p, EscapedAll(s)) == Progress(Loaded(p, s), [])
    decreases |s|
  {
    hide Escaped, Consume, Val, Report, Loaded, Accept;
    if s == [] {
      LoadedNothing(p);
      FeedNothing(p);
    } else {
      var q := Accept(p, s[0]);
      AcceptData(p, s[0]);
      FeedEscaped(p, s[0]);
      ReportNothing(q);
      FeedData(q, s[1..]);
      LoadedStep(p, q, s);
      ConsumeConcat(p, Escaped(s[0]), EscapedAll(s[1..]));
    }
  }

  lemma FeedNothing(p: Parser)
    requires Ok(p)
    ensures Consume(p, []) == Progress(p, [])
  {}

  lemma {:induction false} EscapedConcat(a: seq<Byte>, b: seq<Byte>)
    ensures EscapedAll(a + b) == EscapedAll(a) + EscapedAll(b)
  {
    hide Escaped;
    if a == [] {
      assert a + b == b;
    } else {
      EscapedConcat(a[1..], b);
      assert (a + b)[0] == a[0] && (a + b)[1..] == a[1..] + b;
      Regroup(Escaped(a[0]), EscapedAll(a[1..]), EscapedAll(b));
    }
  }

  lemma EscapedOne(b: Byte)
    ensures EscapedAll([b]) == Escaped(b)
  {
    hide Escaped;
    assert [b][1..] == [];
    assert EscapedAll([]) == [];
  }

  /** After start, length and API id. */
  function Opened(p: Parser, f: Frame): Parser {
    p.(pos := 4, total := (p.total + Val(f.api)) % 0x100, msb := Low((|f.data| + 2) / 256), lsb := Low(|f.data| + 2), api := f.api)
  }

  lemma EscapedThree(a: Byte, b: Byte, c: Byte)
    ensures EscapedAll([a, b, c]) == Escaped(a) + (Escaped(b) + Escaped(c))
  {
    hide Escaped, EscapedAll;
    assert [a, b, c] == [a] + ([b] + [c]);
    EscapedConcat([a], [b] + [c]);
    EscapedConcat([b], [c]);
    EscapedOne(a);
    EscapedOne(b);
    EscapedOne(c);
  }

  lemma FeedHead(p: Parser, f: Frame)
    requires Ok(p) && !Stopped(p) && p.pos == 0
    ensures Ok(Opened(p, f))
    ensures Consume(p, [START_BYTE] + EscapedAll(Be16(|f.data| + 2) + [f.api])) == Progress(Opened(p, f), [])
  {
    hide Escaped, Consume, Step, Low, EscapedAll, Accept, Report, Consume;
    var h, l := Low((|f.data| + 2) / 256), Low(|f.data| + 2);
    var p1 := p.(pos := 1);
    var p2 := p1.(msb := h, pos := 2);
    var p3 := p2.(lsb := l, pos := 3);
    StartStep(p);
    HeadAccepts(p, h, l, f.api);
    FeedOne(p, START_BYTE);
    FeedEscaped(p1, h);
    FeedEscaped(p2, l);
    FeedEscaped(p3, f.api);
    assert Be16(|f.data| + 2) + [f.api] == [h, l, f.api];
    EscapedThree(h, l, f.api);
    ConsumeConcat(p2, Escaped(l), Escaped(f.api));
    ConsumeConcat(p1, Escaped(h), Escaped(l) + Escaped(f.api));
    ConsumeConcat(p, [START_BYTE], Escaped(h) + (Escaped(l) + Escaped(f.api)));
  }

  lemma HeadAccepts(p: Parser, h: Byte, l: Byte, api: Byte)
    requires Ok(p) && !Stopped(p) && p.pos == 0
    ensures var p1 := p.(pos := 1);
            var p2 := p1.(msb := h, pos := 2);
            var p3 := p2.(lsb := l, pos := 3);
            var p4 := p3.(api := api, pos := 4, total := (p.total + Val(api)) % 0x100);
            Ok(p1) && Ok(p2) && Ok(p3) && Ok(p4)
            && Accept(p1, h) == p2 && Accept(p2, l) == p3 && Accept(p3, api) == p4
            && Report(p2) == [] && Report(p3) == [] && Report(p4) == []
  {}

  lemma StartStep(p: Parser)
    requires Ok(p) && !Stopped(p) && p.pos == 0
    ensures Step(p, START_BYTE) == p.(pos := 1) && Report(p.(pos := 1)) == []
  {}

  lemma {:induction false} SumConcat(a: seq<Byte>, b: seq<Byte>)
    ensures Sum(a + b) == Sum(a) + Sum(b)
  {
    hide Val;
    if a == [] {
      assert a + b == b;
    } else {
      SumConcat(a[1..], b);
      assert (a + b)[0] == a[0] && (a + b)[1..] == a[1..] + b;
    }
  }

  lemma AddMod(a: nat, b: nat)
    ensures (a % 0x100 + b) % 0x100 == (a + b) % 0x100
  {}

  /** What the application gets for a frame. */
  function Delivery(f: Frame): Outcome { Delivered(f.api, [f.id] + f.data) }

  function Deliveries(fs: seq<Frame>): (r: seq<Outcome>)
    ensures |r| == |fs|
  {
    if fs == [] then [] else [Delivery(fs[0])] + Deliveries(fs[1..])
  }

  /** Room for the data and its frame id behind the 110th octet of the frame. */
  predicate Fits(f: Frame) { |f.data| <= 105 }

  predicate AllFit(fs: seq<Frame>) { forall i :: 0 <= i < |fs| ==> Fits(fs[i]) }

  lemma EncodeParts(f: Frame)
    ensures var head, data, sum := Be16(|f.data| + 2) + [f.api], [f.id] + f.data, Checksum(f);
            Encode(f) == ([START_BYTE] + EscapedAll(head)) + (EscapedAll(data) + Escaped(sum))
  {
    hide Escaped, EscapedAll, Sum, Be16, Checksum;
    var head, data, sum := Be16(|f.data| + 2) + [f.api], [f.id] + f.data, Checksum(f);
    assert Body(f) == head + (data + [sum]);
    EscapedConcat(head, data + [sum]);
    EscapedConcat(data, [sum]);
    EscapedOne(sum);
  }

  /** The packet length the parser reads: right up to 253 octets of data, short by 256 beyond. */
  lemma OpenedLength(p: Parser, f: Frame)
    requires Sendable(f)
    ensures PacketLength(Opened(p, f)) == if |f.data| <= 253 then |f.data| + 2 else |f.data| - 254
  {
    LowBits(|f.data| + 2);
    hide Val, Low;
  }

  /** The last octet closes the frame. */
  lemma AcceptSum(p: Parser, f: Frame, t: nat)
    requires Ok(p) && !Stopped(p) && !p.escape && 5 <= p.pos <= MAX_FRAME_DATA_SIZE && p.pos == PacketLength(p) + 3
      && t < 0x100
    requires p.total == (t + Sum(Covered(f))) % 0x100 && p.api == f.api && p.data[..p.pos - 4] == [f.id] + f.data
    ensures var q := Accept(p, Checksum(f));
            Clean(q) && Stopped(q) && Report(q) == [if t == 0 then Delivery(f) else Failed(ChecksumFailure)]
  {
    hide Sum, Accept, Val, Covered, Low, Checksum, Clean, Report, Stopped;
    AcceptLast(p, Checksum(f));
    SumValue(f);
    SumCloses(t, Sum(Covered(f)));
    hide PacketLength, Delivery;
    Closed(Accept(p, Checksum(f)), f, t);
  }

  lemma SumValue(f: Frame)
    ensures Val(Checksum(f)) == 0xff - Sum(Covered(f)) % 0x100
  {
    hide Sum, Covered;
    LowBits(0xff - Sum(Covered(f)) % 0x100);
    hide Val, Low;
  }

  lemma Closed(q: Parser, f: Frame, t: nat)
    requires Ok(q) && q.pos == 0 && q.total == 0 && q.api == f.api && q.data[..q.frameLength] == [f.id] + f.data
    requires (q.complete <==> t == 0) && q.error == if q.complete then NoError else ChecksumFailure
    ensures Clean(q) && Stopped(q) && Report(q) == [if t == 0 then Delivery(f) else Failed(ChecksumFailure)]
  {}

  lemma AcceptLast(p: Parser, b: Byte)
    requires Ok(p) && !Stopped(p) && !p.escape && 4 <= p.pos <= MAX_FRAME_DATA_SIZE && p.pos == PacketLength(p) + 3
    ensures var q := Accept(p, b);
            && q.pos == 0 && q.total == 0 && q.frameLength == p.pos - 4 && q.data == p.data && q.api == p.api
            && (q.complete <==> (p.total + Val(b)) % 0x100 == 0xff)
            && q.error == if q.complete then NoError else ChecksumFailure
  {
    hide Val, AcceptLate;
    LateLast(p.(total := (p.total + Val(b)) % 0x100), b);
  }

  lemma LateLast(p: Parser, b: Byte)
    requires Ok(p) && !Stopped(p) && !p.escape && 4 <= p.pos <= MAX_FRAME_DATA_SIZE && p.pos == PacketLength(p) + 3
    ensures var q := AcceptLate(p, b);
            && q.pos == 0 && q.total == 0 && q.frameLength == p.pos - 4 && q.data == p.data && q.api == p.api
            && (q.complete <==> p.total == 0xff)
            && q.error == if q.complete then NoError else ChecksumFailure
  {
    hide PacketLength, Ok;
    var v := if p.total == 0xff then p.(checksum := b, complete := true, error := NoError) else p.(error := ChecksumFailure);
    assert AcceptLate(p, b) == v.(frameLength := p.pos - 4, pos := 0, total := 0);
  }

  lemma SumCloses(t: nat, s: nat)
    requires t < 0x100
    ensures ((t + s) % 0x100 + (0xff - s % 0x100)) % 0x100 == 0xff <==> t == 0
  {
    var q, r := s / 0x100, s % 0x100;
    assert t + s == t + r + 0x100 * q;
    assert (t + s) % 0x100 == (t + r) % 0x100;
  }

  /** From any boundary, a frame of up to 105 octets of data is taken in full; it is delivered if the
      running sum was 0, counts as damaged if not, and leaves the parser clean in both cases. */
  lemma FrameAtBoundary(p: Parser, f: Frame)
    requires Boundary(p) && Fits(f)
    ensures var r := Consume(p, Encode(f));
            && Clean(r.parser)
            && r.log == [if Restart(p).total == 0 then Delivery(f) else Failed(ChecksumFailure)]
  {
    var p0 := Restart(p);
    FrameFrom(p0, f);
    hide Ok, Restart, Consume, Boundary, Encode;
    ConsumeRestart(p, Encode(f));
    CleanRestart(Consume(p, Encode(f)).parser, Consume(p0, Encode(f)).parser);
  }

  lemma CleanRestart(p: Parser, q: Parser)
    requires Ok(p) && Ok(q) && Restart(p) == Restart(q)
    ensures Clean(p) <==> Clean(q)
    ensures Boundary(p) <==> Boundary(q)
  {
    hide Restart, Ok;
  }

  lemma FrameFrom(p: Parser, f: Frame)
    requires Ok(p) && !Stopped(p) && p.pos == 0 && Fits(f)
    ensures var r := Consume(p, Encode(f));
            && Clean(r.parser)
            && r.log == [if p.total == 0 then Delivery(f) else Failed(ChecksumFailure)]
  {
    hide Consume, Encode, EscapedAll, Escaped, Sum, Accept, Report, Clean, Checksum, Loaded, Low, Val, Opened,
      Covered, PacketLength, Be16;
    var head, data, sum := Be16(|f.data| + 2) + [f.api], [f.id] + f.data, Checksum(f);
    var p4 := Opened(p, f);
    FeedHead(p, f);
    OpenedFacts(p, f);
    FeedData(p4, data);
    LoadedFrame(p, f);
    FeedEscaped(Loaded(p4, data), sum);
    AcceptSum(Loaded(p4, data), f, p.total);
    ConsumeConcat(p4, EscapedAll(data), Escaped(sum));
    ConsumeConcat(p, [START_BYTE] + EscapedAll(head), EscapedAll(data) + Escaped(sum));
    EncodeParts(f);
  }

  lemma OpenedFacts(p: Parser, f: Frame)
    requires Ok(p) && !Stopped(p) && p.pos == 0 && Fits(f)
    ensures var q := Opened(p, f);
            Ok(q) && !Stopped(q) && !q.escape && q.pos == 4 && PacketLength(q) == |f.data| + 2 && !EndsWithin(q, |f.data| + 1)
  {
    OpenedLength(p, f);
    hide Low, Val;
  }

  lemma LoadedFrame(p: Parser, f: Frame)
    requires Ok(p) && !Stopped(p) && p.pos == 0 && Fits(f) && Ok(Opened(p, f))
    ensures var pd := Loaded(Opened(p, f), [f.id] + f.data);
            && Ok(pd) && !Stopped(pd) && !pd.escape && pd.pos == |f.data| + 5 && pd.api == f.api
            && pd.total == (p.total + Sum(Covered(f))) % 0x100 && PacketLength(pd) == |f.data| + 2
            && pd.data[..pd.pos - 4] == [f.id] + f.data
  {
    hide Sum, Low, Val, Splice, Covered;
    OpenedFacts(p, f);
    FrameSum(p.total, f);
    var data := [f.id] + f.data;
    var pd := Loaded(Opened(p, f), data);
    assert pd.data[..|data|] == data;
  }

  lemma FrameSum(t: nat, f: Frame)
    ensures ((t + Val(f.api)) % 0x100 + Sum([f.id] + f.data)) % 0x100 == (t + Sum(Covered(f))) % 0x100
  {
    hide Val;
    assert Covered(f)[0] == f.api && Covered(f)[1..] == [f.id] + f.data;
    AddMod(t + Val(f.api), Sum([f.id] + f.data));
  }

  // ----------------------------------------------------------------- streams of frames

  /** From a clean state all frames of up to 105 octets of data arrive, in order and intact. */
  lemma {:induction false} StreamDelivered(p: Parser, fs: seq<Frame>)
    requires Clean(p) && AllFit(fs)
    ensures Consume(p, Stream(fs)).log == Deliveries(fs) && Clean(Consume(p, Stream(fs)).parser)
    decreases |fs|
  {
    hide Encode, Consume, Restart, Ok;
    if fs == [] {
      FeedNothing(p);
    } else {
      FrameAtBoundary(p, fs[0]);
      StreamDelivered(Consume(p, Encode(fs[0])).parser, fs[1..]);
      ConsumeConcat(p, Encode(fs[0]), Stream(fs[1..]));
    }
  }

  predicate NoStart(s: seq<Byte>) { forall i :: 0 <= i < |s| ==> s[i] != START_BYTE }

  lemma {:induction false} EscapedHasNoStart(s: seq<Byte>)
    ensures NoStart(EscapedAll(s)) && WellEscaped(EscapedAll(s))
    ensures EscapedAll(s) != [] ==> EscapedAll(s)[|EscapedAll(s)| - 1] != ESCAPE
  {
    if s != [] {
      EscapedHasNoStart(s[1..]);
      FlipTwice(s[0]);
      hide EscapedAll;
      WellEscapedConcat(Escaped(s[0]), EscapedAll(s[1..]));
    }
  }

  lemma WellEscapedConcat(a: seq<Byte>, b: seq<Byte>)
    requires WellEscaped(a) && WellEscaped(b) && (a != [] ==> a[|a| - 1] != ESCAPE)
    ensures WellEscaped(a + b)
  {
    var s := a + b;
    forall i | 0 <= i < |s| - 1 && s[i] == ESCAPE ensures s[i + 1] != START_BYTE && s[i + 1] != ESCAPE {
      if i >= |a| { assert b[i - |a|] == ESCAPE; } else { assert a[i] == ESCAPE; assert i < |a| - 1; }
    }
  }

  /** Between frames, octets other than the start octet change nothing. */
  lemma {:induction false} SkipNonStart(p: Parser, s: seq<Byte>)
    requires Boundary(p) && NoStart(s)
    ensures Consume(p, s).log == [] && Boundary(Consume(p, s).parser)
    ensures Restart(Consume(p, s).parser).total == Restart(p).total
    decreases |s|
  {
    if s != [] {
      var q := Step(Restart(p), s[0]);
      assert q == Restart(p);
      RestartNothing(q);
      hide Consume, Step;
      SkipNonStart(q, s[1..]);
      hide Restart, Boundary;
      ReportNothing(q);
      assert Consume(p, s) == Consume(q, s[1..]) by { ConsumeFirst(p, s); }
    }
  }

  lemma ConsumeFirst(p: Parser, s: seq<Byte>)
    requires Ok(p) && s != []
    ensures var q := Step(Restart(p), s[0]);
            Consume(p, s) == Progress(Consume(q, s[1..]).parser, Report(q) + Consume(q, s[1..]).log)
  {
    hide Step, Restart, Report, Ok;
  }

  /** A frame leaves the parser between frames, whatever it was in the middle of; in the middle of a frame it
      is lost itself, and the running sum of that frame is kept. */
  lemma FrameFromAnywhere(p: Parser, f: Frame)
    requires Ok(p) && Fits(f)
    ensures var r := Consume(p, Encode(f));
            && Boundary(r.parser)
            && (Restart(p).pos > 0 ==> r.log == [Failed(UnexpectedStart)] && Restart(r.parser).total == Restart(p).total)
  {
    var p0 := Restart(p);
    hide EscapedAll;
    if p0.pos == 0 {
      FrameAtBoundary(p, f);
    } else {
      var q := Step(p0, START_BYTE);
      assert q == p0.(error := UnexpectedStart) && Boundary(q) && Restart(q).total == p0.total;
      assert Report(q) + [] == [Failed(UnexpectedStart)];
      hide Step, Restart, Ok, Boundary, Consume;
      EscapedHasNoStart(Body(f));
      SkipNonStart(q, EscapedAll(Body(f)));
      assert Encode(f)[0] == START_BYTE && Encode(f)[1..] == EscapedAll(Body(f));
      ConsumeFirst(p, Encode(f));
    }
  }

  /** Self-stabilisation: from any state at all, in the middle of a frame or after any error, at most the
      next two frames are lost. */
  lemma Resynchronises(p: Parser, f: Frame, g: Frame, fs: seq<Frame>)
    requires Ok(p) && Fits(f) && Fits(g) && AllFit(fs)
    ensures Consume(p, Stream([f, g] + fs)).log == Consume(p, Encode(f) + Encode(g)).log + Deliveries(fs)
    ensures Clean(Consume(p, Encode(f) + Encode(g)).parser)
  {
    hide Encode, Consume, Ok, Boundary, Clean, Deliveries;
    var q := Consume(p, Encode(f)).parser;
    FrameFromAnywhere(p, f);
    FrameAtBoundary(q, g);
    StreamDelivered(Consume(q, Encode(g)).parser, fs);
    StreamSplit(f, g, fs);
    ConsumeConcat(p, Encode(f), Encode(g));
    ConsumeConcat(p, Encode(f) + Encode(g), Stream(fs));
  }

  /** In the middle of a frame the next frame is lost, and the one after it as well unless the running sum
      was 0. */
  lemma LostExact(p: Parser, f: Frame, g: Frame)
    requires Ok(p) && Restart(p).pos > 0 && Fits(f) && Fits(g)
    ensures Consume(p, Encode(f) + Encode(g)).log
         == [Failed(UnexpectedStart), if Restart(p).total == 0 then Delivery(g) else Failed(ChecksumFailure)]
  {
    hide Encode, Consume, Ok, Boundary, Clean, Restart;
    FrameFromAnywhere(p, f);
    FrameAtBoundary(Consume(p, Encode(f)).parser, g);
    ConsumeConcat(p, Encode(f), Encode(g));
  }

  /** From a clean state a frame cut off behind its API id costs the next two, if that id is not 0. */
  lemma TwoFramesLost(p: Parser, cut: Frame, f: Frame, g: Frame)
    requires Clean(p) && Fits(cut) && Fits(f) && Fits(g)
    ensures var head := [START_BYTE] + EscapedAll(Be16(|cut.data| + 2) + [cut.api]);
            Consume(p, head + (Encode(f) + Encode(g))).log
            == [Failed(UnexpectedStart), if cut.api == 0 then Delivery(g) else Failed(ChecksumFailure)]
  {
    hide Encode, Consume, EscapedAll, Be16, Val, Low;
    var head := [START_BYTE] + EscapedAll(Be16(|cut.data| + 2) + [cut.api]);
    var p0 := Restart(p);
    var q := Opened(p0, cut);
    FeedHead(p0, cut);
    OpenedFacts(p0, cut);
    ApiIsSum(cut.api);
    hide Opened;
    RestartNothing(q);
    LostExact(q, f, g);
    ConsumeConcat(p0, head, Encode(f) + Encode(g));
    ConsumeRestart(p, head + (Encode(f) + Encode(g)));
  }

  lemma ApiIsSum(api: Byte)
    ensures (0 + Val(api)) % 0x100 == 0 <==> api == 0
  {}

  lemma StreamSplit(f: Frame, g: Frame, fs: seq<Frame>)
    ensures Stream([f, g] + fs) == (Encode(f) + Encode(g)) + Stream(fs)
  {
    hide Encode;
    assert ([f, g] + fs)[1..] == [g] + fs && ([g] + fs)[1..] == fs;
    assert Stream([g] + fs) == Encode(g) + Stream(fs);
  }

  lemma {:induction false} StreamWellEscaped(fs: seq<Frame>)
    ensures WellEscaped(Stream(fs)) && (Stream(fs) != [] ==> Stream(fs)[0] == START_BYTE)
  {
    hide EscapedAll, Body;
    if fs != [] {
      var body := EscapedAll(Body(fs[0]));
      EscapedHasNoStart(Body(fs[0]));
      StreamWellEscaped(fs[1..]);
      WellEscapedConcat([START_BYTE], body);
      assert Encode(fs[0]) == [START_BYTE] + body;
      WellEscapedConcat(Encode(fs[0]), Stream(fs[1..]));
    }
  }

  /** However the octets of the frames trickle in, over however many calls: what was reported so far is a
      prefix of the frames, and all of them once all octets were read. */
  lemma AnyChunks(p: Parser, fs: seq<Frame>, calls: seq<seq<bool>>)
    requires Clean(p) && AllFit(fs)
    ensures var r := Calls(p, Stream(fs), calls);
            && r.log <= Deliveries(fs)
            && (r.stream == [] ==> r.log == Deliveries(fs) && Clean(r.parser))
  {
    hide Encode, Consume, Restart, Ok, Calls, Deliveries, Report, Stream, WellEscaped;
    var s := Stream(fs);
    StreamWellEscaped(fs);
    CleanTame(p, s);
    CallsConsume(p, s, calls);
    StreamDelivered(p, fs);
    var r := Calls(p, s, calls);
    var n := |s| - |r.stream|;
    assert s == s[..n] + s[n..];
    ConsumeConcat(p, s[..n], s[n..]);
    if r.stream == [] {
      assert s[..n] == s;
      CleanRestart(Consume(p, s).parser, r.parser);
    }
  }

  lemma CleanTame(p: Parser, s: seq<Byte>)
    requires Clean(p) && WellEscaped(s)
    ensures Tame(p, s)
  {
    WellEscapedIsTame(p, s);
    hide WellEscaped, Tame;
  }

  // ------------------------------------------------------------ where delivery ends

  /** Frame data beyond 105 octets is never delivered: it runs over the buffer, or, at 255 octets, the
      parser takes the frame for an empty one. */
  lemma TooLong(p: Parser, f: Frame)
    requires Ok(p) && !Stopped(p) && p.pos == 0 && Sendable(f) && !Fits(f)
    ensures Consume(p, Encode(f)).log != [] && Consume(p, Encode(f)).log[0] != Delivery(f)
  {
    hide Consume, Encode, EscapedAll, Escaped, Sum, Accept, Report, Loaded, Low, Val, Opened, Covered, PacketLength,
      Be16, Ok;
    var front := [START_BYTE] + EscapedAll(Be16(|f.data| + 2) + [f.api]);
    var rest := [f.id] + f.data + [Checksum(f)];
    var k := if |f.data| == 255 then 0 else 107;
    var p4 := Opened(p, f);
    OpenedLong(p, f);
    FeedHead(p, f);
    FeedData(p4, rest[..k]);
    var pd := Loaded(p4, rest[..k]);
    LoadedLong(p, f, rest[..k], rest[k]);
    FeedEscaped(pd, rest[k]);
    EncodeSplit(f, k);
    ConsumeConcat(pd, Escaped(rest[k]), EscapedAll(rest[k + 1..]));
    ConsumeConcat(p4, EscapedAll(rest[..k]), Escaped(rest[k]) + EscapedAll(rest[k + 1..]));
    ConsumeConcat(p, front, EscapedAll(rest[..k]) + (Escaped(rest[k]) + EscapedAll(rest[k + 1..])));
  }

  lemma EncodeSplit(f: Frame, k: nat)
    requires k <= |f.data| + 1
    ensures var front := [START_BYTE] + EscapedAll(Be16(|f.data| + 2) + [f.api]);
            var rest := [f.id] + f.data + [Checksum(f)];
            Encode(f) == front + (EscapedAll(rest[..k]) + (Escaped(rest[k]) + EscapedAll(rest[k + 1..])))
  {
    hide EscapedAll, Escaped, Be16, Checksum;
    var head := Be16(|f.data| + 2) + [f.api];
    var rest := [f.id] + f.data + [Checksum(f)];
    assert Body(f) == head + rest;
    EscapedConcat(head, rest);
    assert rest == rest[..k] + ([rest[k]] + rest[k + 1..]);
    EscapedConcat(rest[..k], [rest[k]] + rest[k + 1..]);
    EscapedConcat([rest[k]], rest[k + 1..]);
    EscapedOne(rest[k]);
    assert Encode(f) == [START_BYTE] + (EscapedAll(head) + EscapedAll(rest));
  }

  lemma OpenedLong(p: Parser, f: Frame)
    requires Ok(p) && !Stopped(p) && p.pos == 0 && Sendable(f) && !Fits(f)
    ensures var q := Opened(p, f);
            && Ok(q) && !Stopped(q) && !q.escape && q.pos == 4 && q.api == f.api
            && (if |f.data| == 255 then PacketLength(q) == 1 && !EndsWithin(q, 0)
                else PacketLength(q) + 3 !in {4, MAX_FRAME_DATA_SIZE} && !EndsWithin(q, 107))
  {
    OpenedLength(p, f);
    hide Low, Val;
  }

  lemma LoadedLong(p: Parser, f: Frame, s: seq<Byte>, b: Byte)
    requires Ok(p) && !Stopped(p) && p.pos == 0 && Sendable(f) && !Fits(f) && Ok(Opened(p, f))
    requires |s| == if |f.data| == 255 then 0 else 107
    ensures var pd := Loaded(Opened(p, f), s);
            && Ok(pd) && !Stopped(pd) && !pd.escape && pd.pos == 4 + |s|
            && Report(Accept(pd, b)) != [] && Report(Accept(pd, b))[0] != Delivery(f)
  {
    hide Low, Val, Splice, Sum;
    OpenedLong(p, f);
    var pd := Loaded(Opened(p, f), s);
    if |f.data| == 255 {
      AcceptLast(pd, b);
      hide Accept;
    }
  }

  /** From a clean state a frame arrives intact exactly when it has at most 105 octets of data. */
  lemma DeliveredExact(p: Parser, f: Frame)
    requires Clean(p) && Sendable(f)
    ensures Consume(p, Encode(f)).log == [Delivery(f)] <==> Fits(f)
  {
    hide Encode, Consume;
    if Fits(f) {
      FrameAtBoundary(p, f);
    } else {
      TooLong(Restart(p), f);
      ConsumeRestart(p, Encode(f));
    }
  }

  /** On a damaged stream the cut does matter: an escape followed by a start octet is an error after a gap,
      and plain data without one. */
  lemma CutMattersOnDamage(p: Parser)
    requires Ok(p) && !Stopped(p) && p.pos == 1 && !p.escape
    ensures ReadLoop(p, Line([ESCAPE, START_BYTE], [true, true])).parser == p.(msb := 0x5e, pos := 2)
    ensures ReadLoop(p, Line([ESCAPE, START_BYTE], [true, false, true])).parser == p.(escape := true, error := UnexpectedStart)
  {
    var l := Line([ESCAPE, START_BYTE], [true, false, true]);
    var pe := p.(escape := true);
    assert ReadLoop(pe, Line([START_BYTE], [true])).parser == pe.(error := UnexpectedStart);
    assert ReadLoop(p, l) == ReadLoop(pe, Asked(Taken(Asked(l))));
    var m := Line([ESCAPE, START_BYTE], [true, true]);
    var q := p.(msb := 0x5e, pos := 2);
    assert Unescape(p, 0x20 ^ START_BYTE) == q;
    assert ReadLoop(q, Taken(Asked(Taken(Asked(m))))).parser == q;
  }

  // ------------------------------------------------------------------------ the object

  lemma EscapedMore(s: seq<Byte>, i: nat)
    requires i < |s|
    ensures EscapedAll(s[..i + 1]) == EscapedAll(s[..i]) + Escaped(s[i])
  {
    hide Escaped, EscapedAll;
    assert s[..i + 1] == s[..i] + [s[i]];
    EscapedConcat(s[..i], [s[i]]);
    EscapedOne(s[i]);
  }

  lemma SumMore(a: seq<Byte>, s: seq<Byte>, i: nat)
    requires i < |s|
    ensures Sum(a + s[..i + 1]) % 0x100 == (Sum(a + s[..i]) % 0x100 + Val(s[i])) % 0x100
  {
    assert a + s[..i + 1] == (a + s[..i]) + [s[i]];
    SumConcat(a + s[..i], [s[i]]);
    assert Sum([s[i]]) == Val(s[i]);
    hide Sum, Val;
    AddMod(Sum(a + s[..i]), Val(s[i]));
  }

  lemma StartOfData(f: Frame)
    ensures EscapedAll(f.data[..0]) == []
    ensures (Val(f.api) % 0x100 + Val(f.id)) % 0x100 == Sum([f.api, f.id] + f.data[..0]) % 0x100
  {
    hide Val;
    assert [f.api, f.id] + f.data[..0] == [f.api, f.id];
    assert [f.api, f.id][1..] == [f.id] && [f.id][1..] == [];
    assert Sum([f.id]) == Val(f.id);
  }

  /** The octets one by one are the encoding. */
  lemma EncodePieces(was: seq<Byte>, f: Frame, h: Byte, l: Byte)
    requires h == Low((|f.data| + 2) / 256) && l == Low(|f.data| + 2)
    ensures was + Encode(f) == was + [START_BYTE] + Escaped(h) + Escaped(l) + Escaped(f.api) + Escaped(f.id)
                               + EscapedAll(f.data) + Escaped(Checksum(f))
  {
    hide Escaped, EscapedAll, Encode, Low, Checksum;
    EncodeParts(f);
    EscapedThree(h, l, f.api);
    assert Be16(|f.data| + 2) + [f.api] == [h, l, f.api];
    EscapedConcat([f.id], f.data);
    EscapedOne(f.id);
    var x, y, z := Escaped(h), Escaped(l), Escaped(f.api);
    var i, d, s := Escaped(f.id), EscapedAll(f.data), Escaped(Checksum(f));
    Regroup(was, [START_BYTE] + (x + (y + z)), (i + d) + s);
    Regroup(was, [START_BYTE], x + (y + z));
    Regroup(was + [START_BYTE], x, y + z);
    Regroup(was + [START_BYTE] + x, y, z);
    var head := was + [START_BYTE] + x + y + z;
    Regroup(head, i + d, s);
    Regroup(head, i, d);
  }

  /** A round of the loop, `available()` having said yes. */
  function Round(p: Parser, stream: seq<Byte>, answers: seq<bool>): (r: Read)
    requires Ok(p) && !Stopped(p) && stream != []
    ensures r == ReadLoop(p, Line(stream, [true] + answers))
  {
    var b, l1 := stream[0], Line(stream[1..], answers);
    assert Taken(Asked(Line(stream, [true] + answers))) == l1;
    if p.pos > 0 && b == START_BYTE then Read(p.(error := UnexpectedStart), l1.stream)
    else if p.pos > 0 && b == ESCAPE then EscapeRound(p, l1)
    else Turn(p, b, l1)
  }

  /** The rest of a round that began with an escape octet. */
  function EscapeRound(p: Parser, l: Line): Read
    requires Ok(p) && !Stopped(p) && p.pos > 0
  {
    if Available(l) then Turn(p, 0x20 ^ l.stream[0], Taken(Asked(l))) else ReadLoop(p.(escape := true), Asked(l))
  }

  /** class XBee with the serial line it is attached to: the octets still to arrive, the answers of
      `available()` in the current call, and the octets written. */
  class XBee {
    var pos: nat
    var escape: bool
    var checksumTotal: nat
    var msb: Byte
    var lsb: Byte
    var api: Byte
    const data: array<Byte>
    var frameLength: nat
    var checksum: Byte
    var complete: bool
    var error: Error
    var incoming: seq<Byte>
    var answers: seq<bool>
    var outgoing: seq<Byte>

    ghost function State(): Parser
      reads this, data
    {
      Parser(pos, escape, checksumTotal, msb, lsb, api, data[..], frameLength, checksum, complete, error)
    }

    ghost predicate Valid()
      reads this, data
    {
      Ok(State())
    }

    constructor ()
      ensures Valid() && Clean(State()) && fresh(data) && incoming == outgoing == [] && answers == []
    {
      data := new Byte[MAX_FRAME_DATA_SIZE](_ => 0);
      pos, escape, checksumTotal, msb, lsb, api := 0, false, 0, 0, 0, 0;
      frameLength, checksum, complete, error := 0, 0, false, NoError;
      incoming, answers, outgoing := [], [], [];
    }

    method SendByte(b: Byte, esc: bool)
      modifies `outgoing
      ensures outgoing == old(outgoing) + (if esc then Escaped(b) else [b])
    {
      if esc && (b == START_BYTE || b == ESCAPE || b == XON || b == XOFF) {
        outgoing := outgoing + [ESCAPE];
        outgoing := outgoing + [b ^ 0x20];
      } else {
        outgoing := outgoing + [b];
      }
    }

    /** Start octet, length, API id and frame id. */
    method SendHeader(f: Frame)
      modifies `outgoing
      ensures outgoing == old(outgoing) + [START_BYTE] + Escaped(Low((|f.data| + 2) / 256)) + Escaped(Low(|f.data| + 2))
                          + Escaped(f.api) + Escaped(f.id)
    {
      hide Escaped, Low;
      SendByte(START_BYTE, false);
      SendByte(Low((|f.data| + 2) / 256), true);
      SendByte(Low(|f.data| + 2), true);
      SendByte(f.api, true);
      SendByte(f.id, true);
    }

    /** `send`. */
    method Send(f: Frame)
      requires Sendable(f)
      modifies `outgoing
      ensures outgoing == old(outgoing) + Encode(f)
    {
      hide EscapedAll, Escaped, Low, Sum, Encode;
      EncodePieces(outgoing, f, Low((|f.data| + 2) / 256), Low(|f.data| + 2));
      SendHeader(f);
      var sum := SendData(f);
      SendByte(Low(0xff - sum), true);
    }

    /** The loop over the frame data, adding up the checksum in 8 bits. */
    method SendData(f: Frame) returns (sum: nat)
      modifies `outgoing
      ensures outgoing == old(outgoing) + EscapedAll(f.data) && sum == Sum(Covered(f)) % 0x100
    {
      hide EscapedAll, Escaped, Val, Sum;
      sum := Val(f.api) % 0x100;
      sum := (sum + Val(f.id)) % 0x100;
      StartOfData(f);
      ghost var was := outgoing;
      var i := 0;
      while i < |f.data|
        invariant 0 <= i <= |f.data|
        invariant outgoing == was + EscapedAll(f.data[..i]) && sum == Sum([f.api, f.id] + f.data[..i]) % 0x100
      {
        EscapedMore(f.data, i);
        SumMore([f.api, f.id], f.data, i);
        SendByte(f.data[i], true);
        assert outgoing == was + (EscapedAll(f.data[..i]) + Escaped(f.data[i]));
        sum := (sum + Val(f.data[i])) % 0x100;
        i := i + 1;
      }
      assert f.data[..i] == f.data;
    }

    method AskAvailable() returns (r: bool)
      modifies `answers
      ensures r <==> (old(answers) != [] && old(answers)[0] && incoming != [])
      ensures answers == Asked(Line(incoming, old(answers))).answers && (r ==> old(answers) == [true] + answers)
    {
      if answers == [] { return false; }
      r := answers[0] && incoming != [];
      answers := answers[1..];
    }

    method ReadByte() returns (b: Byte)
      requires incoming != []
      modifies `incoming
      ensures b == old(incoming)[0] && incoming == old(incoming)[1..]
    {
      b := incoming[0];
      incoming := incoming[1..];
    }

    /** `resetResponse`. */
    method ResetResponse()
      requires Valid() && Stopped(State())
      modifies `pos, `escape, `msb, `lsb, `api, data, `frameLength, `checksum, `complete, `error
      ensures State() == Restart(old(State()))
    {
      ClearData();
      hide Zeros;
      pos, escape := 0, false;
      complete, error, checksum := false, NoError, 0;
      api, msb, lsb, frameLength := 0, 0, 0, 0;
    }

    method ClearData()
      requires Valid()
      modifies data
      ensures data[..] == Zeros(MAX_FRAME_DATA_SIZE)
    {
      forall i | 0 <= i < data.Length { data[i] := 0; }
    }

    /** The `switch`. */
    method Dispatch(b: Byte)
      requires Valid() && !escape && !Stopped(State())
      modifies `pos, `checksumTotal, `msb, `lsb, `api, data, `frameLength, `checksum, `complete, `error
      ensures Valid() && State() == Accept(old(State()), b)
    {
      hide Val, AcceptLate;
      if pos >= API_ID_INDEX { checksumTotal := (checksumTotal + Val(b)) % 0x100; }
      match pos {
        case 0 => if b == START_BYTE { pos := pos + 1; }
        case 1 => msb := b; pos := pos + 1;
        case 2 => lsb := b; pos := pos + 1;
        case 3 => api := b; pos := pos + 1;
        case _ => FrameOctet(b);
      }
    }

    /** The default case. */
    method FrameOctet(b: Byte)
      requires Valid() && !escape && pos >= 4
      modifies `pos, `checksumTotal, data, `frameLength, `checksum, `complete, `error
      ensures Valid() && State() == AcceptLate(old(State()), b)
    {
      hide Val;
      if pos > MAX_FRAME_DATA_SIZE {
        error := PacketExceeds;
      } else if pos == Val(lsb) + 3 {
        if checksumTotal == 0xff {
          checksum := b;
          complete := true;
          error := NoError;
        } else {
          error := ChecksumFailure;
        }
        frameLength := pos - 4;
        pos := 0;
        checksumTotal := 0;
      } else {
        data[pos - 4] := b;
        pos := pos + 1;
      }
    }

    /** The second octet of an escape undone, then the `switch`. */
    method Handle(b: Byte)
      requires Valid() && !Stopped(State())
      modifies `pos, `escape, `checksumTotal, `msb, `lsb, `api, data, `frameLength, `checksum, `complete, `error
      ensures Valid() && State() == Unescape(old(State()), b)
    {
      hide Accept;
      var c := b;
      if escape {
        c := 0x20 ^ c;
        escape := false;
      }
      Dispatch(c);
    }

    /** After an escape octet: the next one right away, or a note that it is awaited. */
    method SecondOctet() returns (b: Byte, awaited: bool)
      requires Valid() && !Stopped(State()) && pos > 0
      modifies `escape, `incoming, `answers
      ensures Valid() && !Stopped(State()) && |answers| <= |old(answers)|
      ensures awaited == !Available(Line(old(incoming), old(answers)))
      ensures awaited ==> State() == old(State()).(escape := true) && Line(incoming, answers) == Asked(Line(old(incoming), old(answers)))
      ensures !awaited ==> State() == old(State()) && b == 0x20 ^ old(incoming)[0]
                           && Line(incoming, answers) == Taken(Asked(Line(old(incoming), old(answers))))
    {
      b := 0;
      var next := AskAvailable();
      awaited := !next;
      if awaited {
        escape := true;
      } else {
        b := ReadByte();
        b := 0x20 ^ b;
      }
    }

    /** The rest of a round. */
    method Finish(b: Byte) returns (stop: bool)
      requires Valid() && !Stopped(State())
      modifies `pos, `escape, `checksumTotal, `msb, `lsb, `api, data, `frameLength, `checksum, `complete, `error
      ensures Valid() && stop == Stopped(State())
      ensures Turn(old(State()), b, Line(incoming, answers))
              == if stop then Read(State(), incoming) else ReadLoop(State(), Line(incoming, answers))
    {
      hide Unescape, ReadLoop, Ok;
      Handle(b);
      stop := complete || error != NoError;
    }

    /** One round of the loop of `readPacket`. */
    method OneRound() returns (stop: bool)
      requires Valid() && !Stopped(State()) && incoming != []
      modifies `pos, `escape, `checksumTotal, `msb, `lsb, `api, data, `frameLength, `checksum, `complete, `error,
        `incoming, `answers
      ensures Valid() && |answers| <= |old(answers)| && stop == Stopped(State())
      ensures Round(old(State()), old(incoming), old(answers))
              == if stop then Read(State(), incoming) else ReadLoop(State(), Line(incoming, answers))
    {
      hide Unescape, ReadLoop, Ok, Available, Asked, Taken, Turn, EscapeRound;
      var b := ReadByte();
      if pos > 0 && b == START_BYTE {
        EscapeOk(State());
        error := UnexpectedStart;
        stop := true;
      } else if pos > 0 && b == ESCAPE {
        stop := AfterEscape();
      } else {
        stop := Finish(b);
      }
    }

    /** A round that began with an escape octet. */
    method AfterEscape() returns (stop: bool)
      requires Valid() && !Stopped(State()) && pos > 0
      modifies `pos, `escape, `checksumTotal, `msb, `lsb, `api, data, `frameLength, `checksum, `complete, `error,
        `incoming, `answers
      ensures Valid() && |answers| <= |old(answers)| && stop == Stopped(State())
      ensures EscapeRound(old(State()), Line(old(incoming), old(answers)))
              == if stop then Read(State(), incoming) else ReadLoop(State(), Line(incoming, answers))
    {
      hide Unescape, ReadLoop, Ok, Asked, Turn;
      var b, awaited := SecondOctet();
      if awaited { stop := false; } else { stop := Finish(b); }
    }

    /** `readPacket`: on a stream that is `Tame` its reports are those of `Consume`. */
    method ReadPacket()
      requires Valid()
      modifies this, data
      ensures Valid() && outgoing == old(outgoing)
      ensures Read(State(), incoming) == ReadLoop(Restart(old(State())), Line(old(incoming), old(answers)))
    {
      hide Unescape, Restart, ReadLoop, Ok, Round;
      if complete || error != NoError {
        ResetResponse();
      } else {
        RestartNothing(State());
      }
      ghost var goal := ReadLoop(State(), Line(incoming, answers));
      NotAvailable(State(), Line(incoming, answers));
      var more := AskAvailable();
      while more
        invariant Valid() && !Stopped(State()) && outgoing == old(outgoing) && (more ==> incoming != [])
        invariant goal == if more then Round(State(), incoming, answers) else Read(State(), incoming)
        decreases |answers|, more
      {
        var stop := OneRound();
        if stop { return; }
        NotAvailable(State(), Line(incoming, answers));
        more := AskAvailable();
      }
    }
  }

  lemma EscapeOk(p: Parser)
    requires Ok(p) && p.pos > 0
    ensures Ok(p.(escape := true)) && Ok(p.(error := UnexpectedStart))
  {}

  lemma NotAvailable(p: Parser, l: Line)
    requires Ok(p) && !Stopped(p)
    ensures !Available(l) ==> ReadLoop(p, l) == Read(p, l.stream)
  {}
}
