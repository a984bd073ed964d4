// The options of a DIO as a list (section 6.7 of RFC 6550), apart from the code:
// what each of them says, which ones make the receiver drop the message, and
// that those it does not know never matter.
module DioWire {
  import opened Bytes
  import opened Dio

  /** One octet of padding, or a type, the length of the rest, and the rest. */
  datatype Opt = Pad1 | Opt(kind: Byte, body: seq<Byte>)

  predicate Proper(o: Opt) { o.Opt? ==> o.kind != 0 && |o.body| <= 255 }

  function OptOctets(o: Opt): seq<Byte> {
    match o case Pad1 => [0] case Opt(kind, body) => [kind, Low(|body|)] + body
  }

  function Octets(opts: seq<Opt>): seq<Byte> {
    if opts == [] then [] else OptOctets(opts[0]) + Octets(opts[1..])
  }

  predicate AllProper(opts: seq<Opt>) { forall i :: 0 <= i < |opts| ==> Proper(opts[i]) }

  /** Types of options a DIO is read for. */
  predicate Known(o: Opt) { o.Opt? && (o.kind == 2 || o.kind == 3 || o.kind == 4 || o.kind == 8) }

  /** Octets a prefix of this many bits takes. */
  function PrefixOctets(bits: Byte): nat { (Val(bits) + 7) / 8 }

  /** A known option with a wrong length or of a wrong kind. */
  predicate Bad(o: Opt) {
    o.Opt? &&
      if o.kind == 2 then |o.body| < 4 || (o.body[0] != 7 && o.body[0] != 2)
      else if o.kind == 3 then |o.body| < 7 || PrefixOctets(o.body[0]) + 6 > |o.body| || Val(o.body[0]) > 128
      else if o.kind == 4 then |o.body| != 14
      else o.kind == 8 && |o.body| != 30
  }

  /** The two octets at `k` as a number, then four. */
  function Two(s: seq<Byte>, k: nat): U16 requires k + 2 <= |s| { Val(s[k]) * 256 + Val(s[k + 1]) }
  function Four(s: seq<Byte>, k: nat): U32 requires k + 4 <= |s| { Two(s, k) * 65536 + Two(s, k + 2) }

  /** A metric container: flags in nine bits, aggregation and precedence, and the object, which `after` completes when the
      option is too short for it. */
  function SaidContainer(b: seq<Byte>, after: seq<Byte>): Container
    requires |b| >= 4 && |after| >= 2
  {
    var s := b + after;
    Container(b[0], (b[1] << 1) | (b[2] >> 7), (b[2] >> 4) & 0x03, b[2] & 0x0f, b[3],
              if b[0] == 7 then Etx(Two(s, 4)) else Energy(s[4], s[5]))
  }

  /** A route; octets of an earlier one stay behind its prefix. */
  function SaidRoute(b: seq<Byte>, was: seq<Byte>): Prefix
    requires |b| >= 7 && PrefixOctets(b[0]) + 6 <= |b| && Val(b[0]) <= 128 && |was| == 16
  {
    var n := PrefixOctets(b[0]);
    Prefix(b[0], b[1], Four(b, 2), b[6..6 + n] + was[n..])
  }

  function SaidConf(b: seq<Byte>): Conf
    requires |b| == 14
  {
    Conf(b[1], b[2], b[3], Two(b, 4), Two(b, 6), Two(b, 8), b[11], Two(b, 12))
  }

  function SaidPrefix(b: seq<Byte>): Prefix
    requires |b| == 30
  {
    Prefix(b[0], b[1], Four(b, 6), b[14..30])
  }

  /** What a good option says; `after` is what lies behind it in the buffer. */
  function Says(m: Message, o: Opt, after: seq<Byte>): (r: Message)
    requires Proper(o) && !Bad(o) && |after| >= 2 && |m.route.prefix| == 16
    ensures |r.route.prefix| == 16
  {
    if !Known(o) then m
    else if o.kind == 2 then m.(mc := SaidContainer(o.body, after))
    else if o.kind == 3 then RouteLen(o.body, m.route.prefix); m.(route := SaidRoute(o.body, m.route.prefix))
    else if o.kind == 4 then m.(conf := SaidConf(o.body))
    else m.(prefix := SaidPrefix(o.body))
  }

  lemma RouteLen(b: seq<Byte>, was: seq<Byte>)
    requires |b| >= 7 && PrefixOctets(b[0]) + 6 <= |b| && Val(b[0]) <= 128 && |was| == 16
    ensures |SaidRoute(b, was).prefix| == 16
  {
    hide Val, Four;
  }

  /** All of them, in order; `None` as soon as one is bad. */
  function SayAll(m: Message, opts: seq<Opt>, after: seq<Byte>): Option<Message>
    requires AllProper(opts) && |after| >= 2 && |m.route.prefix| == 16
    decreases |opts|
  {
    if opts == [] then Some(m)
    else if Bad(opts[0]) then None
    else
      var rest := opts[1..];
      SayAll(Says(m, opts[0], Octets(rest) + after), rest, after)
  }

  // ---------------------------------------------------------------- the option loop

  lemma LowVal(n: nat)
    requires n < 256
    ensures Val(Low(n)) == n
  {
    LowBits(n);
  }

  /** The option at `i`, with two octets at least behind it. */
  ghost predicate OptAt(buf: seq<Byte>, i: nat, o: Opt, after: seq<Byte>) {
    i <= |buf| && buf[i..] == OptOctets(o) + after
  }

  lemma OptLen(buf: seq<Byte>, i: nat, o: Opt, after: seq<Byte>)
    requires OptAt(buf, i, o, after) && Proper(o) && |after| >= 2
    ensures i + |OptOctets(o)| + 2 <= |buf| && OptionLen(buf, i) == |OptOctets(o)|
    ensures o.Opt? ==> buf[i] == o.kind && forall k :: 0 <= k < |o.body| + |after| ==> buf[i + 2 + k] == (o.body + after)[k]
    ensures if o.Pad1? then buf[i] == 0 else |OptOctets(o)| == |o.body| + 2
  {
    hide Val, Low;
    var s := OptOctets(o) + after;
    assert forall k :: 0 <= k < |s| ==> buf[i + k] == buf[i..][k] == s[k];
    assert buf[i] == s[0] && buf[i + 1] == s[1];
    if o.Opt? {
      LowVal(|o.body|);
      assert s == [o.kind, Low(|o.body|)] + (o.body + after);
      forall k | 0 <= k < |o.body| + |after| ensures buf[i + 2 + k] == (o.body + after)[k] {
        assert s[k + 2] == (o.body + after)[k];
      }
    }
  }

  lemma BodySlice(buf: seq<Byte>, i: nat, o: Opt, after: seq<Byte>, a: nat, b: nat)
    requires OptAt(buf, i, o, after) && Proper(o) && |after| >= 2 && o.Opt? && a <= b <= |o.body|
    ensures i + 2 + b <= |buf| && buf[i + 2 + a..i + 2 + b] == o.body[a..b]
  {
    OptLen(buf, i, o, after);
    hide OptAt, OptOctets;
    var x, y := buf[i + 2 + a..i + 2 + b], o.body[a..b];
    assert |x| == |y| && forall k :: 0 <= k < |x| ==> x[k] == (o.body + after)[a + k] == y[k];
  }

  lemma ReadOpt(m: Message, buf: seq<Byte>, i: nat, o: Opt, after: seq<Byte>)
    requires OptAt(buf, i, o, after) && Proper(o) && |after| >= 2 && |m.route.prefix| == 16
    ensures i + |OptOctets(o)| + 2 <= |buf|
    ensures ReadOption(m, buf, i, |OptOctets(o)|) == if Bad(o) then None else Some(Says(m, o, after))
  {
    OptLen(buf, i, o, after);
    match o {
      case Pad1 =>
      case Opt(kind, body) =>
        if kind == 2 {
          SaysContainer(m, buf, i, o, after);
        } else if kind == 3 {
          SaysRoute(m, buf, i, o, after);
        } else if kind == 4 {
          SaysConf(m, buf, i, o, after);
        } else if kind == 8 {
          SaysPrefix(m, buf, i, o, after);
        }
    }
    hide Says, Bad, ReadContainer, ReadRoute, ReadConf, ReadPrefix, OptAt;
  }

  lemma SaysContainer(m: Message, buf: seq<Byte>, i: nat, o: Opt, after: seq<Byte>)
    requires OptAt(buf, i, o, after) && Proper(o) && |after| >= 2 && |m.route.prefix| == 16 && o.Opt? && o.kind == 2
    ensures i + |o.body| + 4 <= |buf|
    ensures ReadContainer(m, buf, i, |o.body| + 2) == if Bad(o) then None else Some(Says(m, o, after))
  {
    OptLen(buf, i, o, after);
    hide OptAt, Val, OptOctets;
    var s := o.body + after;
    if |o.body| >= 4 {
      assert buf[i + 2] == s[0] && buf[i + 3] == s[1] && buf[i + 4] == s[2] && buf[i + 5] == s[3] && buf[i + 6] == s[4] && buf[i + 7] == s[5];
    }
  }

  lemma SaysRoute(m: Message, buf: seq<Byte>, i: nat, o: Opt, after: seq<Byte>)
    requires OptAt(buf, i, o, after) && Proper(o) && |after| >= 2 && |m.route.prefix| == 16 && o.Opt? && o.kind == 3
    ensures i + |o.body| + 2 <= |buf|
    ensures ReadRoute(m, buf, i, |o.body| + 2) == if Bad(o) then None else Some(Says(m, o, after))
  {
    hide OptAt, OptOctets, Val, SaidRoute, Says, Splice, Get32, Four;
    OptLen(buf, i, o, after);
    var b, s := o.body, o.body + after;
    if |b| >= 7 {
      assert buf[i + 2] == s[0] == b[0];
      if !Bad(o) {
        RouteSaid(m.route.prefix, buf, i, o, after);
        SaysOfRoute(m, o, after);
      }
    }
  }

  lemma SaysOfRoute(m: Message, o: Opt, after: seq<Byte>)
    requires Proper(o) && !Bad(o) && |after| >= 2 && |m.route.prefix| == 16 && o.Opt? && o.kind == 3
    ensures Says(m, o, after) == m.(route := SaidRoute(o.body, m.route.prefix))
  {
    hide SaidRoute, Val;
  }

  lemma RouteSaid(was: seq<Byte>, buf: seq<Byte>, i: nat, o: Opt, after: seq<Byte>)
    requires OptAt(buf, i, o, after) && Proper(o) && |after| >= 2 && |was| == 16 && o.Opt? && o.kind == 3 && !Bad(o)
    ensures i + |o.body| + 4 <= |buf| && buf[i + 2] == o.body[0]
    ensures var n := PrefixOctets(o.body[0]);
            n <= 16 && n + 6 <= |o.body| &&
            Prefix(buf[i + 2], buf[i + 3], Get32(buf, i + 4), Splice(was, 0, buf[i + 8..i + 8 + n])) == SaidRoute(o.body, was)
  {
    hide OptAt, OptOctets, Val, Splice, Get16, Two, PrefixOctets;
    OptLen(buf, i, o, after);
    var b := o.body;
    BodyOctet(buf, i, o, after, 0);
    BodyOctet(buf, i, o, after, 1);
    BodyOctet(buf, i, o, after, 2);
    BodyOctet(buf, i, o, after, 3);
    BodyOctet(buf, i, o, after, 4);
    BodyOctet(buf, i, o, after, 5);
    TwoIs(buf, i + 4, b, 2);
    TwoIs(buf, i + 6, b, 4);
    var n := PrefixOctets(b[0]);
    AtMostSixteen(b[0]);
    BodySlice(buf, i, o, after, 6, 6 + n);
    RouteCopied(was, b[6..6 + n]);
  }

  lemma AtMostSixteen(bits: Byte)
    ensures Val(bits) <= 128 ==> PrefixOctets(bits) <= 16
  {}

  lemma BodyOctet(buf: seq<Byte>, i: nat, o: Opt, after: seq<Byte>, k: nat)
    requires OptAt(buf, i, o, after) && Proper(o) && |after| >= 2 && o.Opt? && k < |o.body|
    ensures i + 2 + k < |buf| && buf[i + 2 + k] == o.body[k]
  {
    OptLen(buf, i, o, after);
    assert (o.body + after)[k] == o.body[k];
  }

  lemma RouteCopied(was: seq<Byte>, s: seq<Byte>)
    requires |s| <= |was|
    ensures Splice(was, 0, s) == s + was[|s|..]
  {}

  lemma TwoIs(buf: seq<Byte>, i: nat, b: seq<Byte>, k: nat)
    requires i + 2 <= |buf| && k + 2 <= |b|
    ensures buf[i] == b[k] && buf[i + 1] == b[k + 1] ==> Get16(buf, i) == Two(b, k)
  {}

  lemma SaysConf(m: Message, buf: seq<Byte>, i: nat, o: Opt, after: seq<Byte>)
    requires OptAt(buf, i, o, after) && Proper(o) && |after| >= 2 && |m.route.prefix| == 16 && o.Opt? && o.kind == 4
    ensures i + |o.body| + 2 <= |buf|
    ensures ReadConf(m, buf, i, |o.body| + 2) == if Bad(o) then None else Some(Says(m, o, after))
  {
    OptLen(buf, i, o, after);
    if |o.body| == 14 { ConfSaid(buf, i, o, after); }
    hide SaidConf, Get16, OptAt;
  }

  lemma ConfSaid(buf: seq<Byte>, i: nat, o: Opt, after: seq<Byte>)
    requires OptAt(buf, i, o, after) && Proper(o) && |after| >= 2 && o.Opt? && |o.body| == 14
    ensures i + 16 <= |buf|
    ensures Conf(buf[i + 3], buf[i + 4], buf[i + 5], Get16(buf, i + 6), Get16(buf, i + 8), Get16(buf, i + 10), buf[i + 13], Get16(buf, i + 14))
            == SaidConf(o.body)
  {
    OptLen(buf, i, o, after);
    var b, s := o.body, o.body + after;
    hide OptAt, Val, OptOctets, Two;
    assert forall k :: 0 <= k < 14 ==> buf[i + 2 + k] == s[k] == b[k];
    assert buf[i + 3] == b[1] && buf[i + 4] == b[2] && buf[i + 5] == b[3] && buf[i + 13] == b[11];
    TwoIs(buf, i + 6, b, 4);
    TwoIs(buf, i + 8, b, 6);
    TwoIs(buf, i + 10, b, 8);
    TwoIs(buf, i + 14, b, 12);
    hide Get16;
  }

  lemma SaysPrefix(m: Message, buf: seq<Byte>, i: nat, o: Opt, after: seq<Byte>)
    requires OptAt(buf, i, o, after) && Proper(o) && |after| >= 2 && |m.route.prefix| == 16 && o.Opt? && o.kind == 8
    ensures i + |o.body| + 2 <= |buf|
    ensures ReadPrefix(m, buf, i, |o.body| + 2) == if Bad(o) then None else Some(Says(m, o, after))
  {
    OptLen(buf, i, o, after);
    var b, s := o.body, o.body + after;
    if |b| == 30 {
      PrefixSaid(buf, i, o, after);
    }
    hide OptAt, Val, OptOctets, SaidPrefix, Get32;
  }

  lemma PrefixSaid(buf: seq<Byte>, i: nat, o: Opt, after: seq<Byte>)
    requires OptAt(buf, i, o, after) && Proper(o) && |after| >= 2 && o.Opt? && |o.body| == 30
    ensures i + 32 <= |buf|
    ensures Prefix(buf[i + 2], buf[i + 3], Get32(buf, i + 8), buf[i + 16..i + 32]) == SaidPrefix(o.body)
  {
    OptLen(buf, i, o, after);
    BodySlice(buf, i, o, after, 14, 30);
    var b, s := o.body, o.body + after;
    TwoIs(buf, i + 8, b, 6);
    TwoIs(buf, i + 10, b, 8);
    hide OptAt, Val, OptOctets, Two, Get16;
    assert buf[i + 2] == s[0] && buf[i + 3] == s[1] && buf[i + 8] == s[6] && buf[i + 9] == s[7] && buf[i + 10] == s[8] && buf[i + 11] == s[9];
  }

  /** The loop over any options, as long as their octets are what is left. */
  lemma {:induction false} LoopSays(m: Message, buf: seq<Byte>, i: nat, opts: seq<Opt>, after: seq<Byte>)
    requires AllProper(opts) && |after| >= 2 && |m.route.prefix| == 16 && BASE_LEN <= |buf|
    requires i <= |buf| && buf[i..] == Octets(opts) + after
    ensures Readable(buf, i + |Octets(opts)|)
    ensures ReadOptions(m, buf, i, i + |Octets(opts)|) == SayAll(m, opts, after)
    decreases |opts|
  {
    hide OptOctets, ReadOption, OptionLen, Bad, Says, OptAt, AllProper, ReadOptions;
    assert |buf[i..]| == |buf| - i;
    if opts == [] {
      OptionsEnd(m, buf, i);
    } else {
      var rest := opts[1..];
      var o, next := opts[0], Octets(rest) + after;
      ProperRest(opts);
      Regroup(OptOctets(o), Octets(rest), after);
      OptNotEmpty(o);
      NextAt(buf, i, o, next);
      LoopStep(m, buf, i, o, next, i + |Octets(opts)|);
      if !Bad(o) { LoopSays(Says(m, o, next), buf, i + |OptOctets(o)|, rest, after); }
    }
  }

  lemma ProperRest(opts: seq<Opt>)
    requires AllProper(opts) && opts != []
    ensures AllProper(opts[1..]) && Proper(opts[0])
  {}

  lemma NextAt(buf: seq<Byte>, i: nat, o: Opt, next: seq<Byte>)
    requires i <= |buf| && buf[i..] == OptOctets(o) + next
    ensures OptAt(buf, i, o, next) && i + |OptOctets(o)| <= |buf| && buf[i + |OptOctets(o)|..] == next
  {
    hide OptOctets;
    assert buf[i + |OptOctets(o)|..] == buf[i..][|OptOctets(o)|..];
  }

  lemma LoopStep(m: Message, buf: seq<Byte>, i: nat, o: Opt, next: seq<Byte>, size: nat)
    requires Readable(buf, size) && |m.route.prefix| == 16 && OptAt(buf, i, o, next) && Proper(o) && |next| >= 2
    requires i + |OptOctets(o)| <= size
    ensures ReadOptions(m, buf, i, size)
            == if Bad(o) then None else ReadOptions(Says(m, o, next), buf, i + |OptOctets(o)|, size)
  {
    OptLen(buf, i, o, next);
    ReadOpt(m, buf, i, o, next);
    OptNotEmpty(o);
    hide OptOctets, ReadOption, OptionLen, Bad, Says, OptAt;
  }

  lemma OptNotEmpty(o: Opt)
    ensures |OptOctets(o)| >= 1
  {}

  // ------------------------------------------------------------- whole messages

  /** The base object of section 6.3.1, and what holds while no option says otherwise. */
  lemma BaseSays(buf: seq<Byte>)
    requires 24 <= |buf|
    ensures ReadBase(buf)
            == Message(buf[0], buf[1], Two(buf, 2), buf[4] & 0x80, (buf[4] & 0x3c) >> 3, buf[4] & 0x07, buf[5], buf[8..24],
                       Container(0, 0, 0, 0, 0, Etx(0)), Conf(8, 12, 10, 0, 0, 0, 0, 0),
                       Prefix(0, 0, 0, [0, 0, 0, 0, 0, 0, 0, 0, 0, 0, 0, 0, 0, 0, 0, 0]),
                       Prefix(0, 0, 0, [0, 0, 0, 0, 0, 0, 0, 0, 0, 0, 0, 0, 0, 0, 0, 0]))
  {
    hide Val;
    assert Zeros(16) == [0, 0, 0, 0, 0, 0, 0, 0, 0, 0, 0, 0, 0, 0, 0, 0];
  }

  lemma BaseRoute(buf: seq<Byte>)
    requires 24 <= |buf|
    ensures |ReadBase(buf).route.prefix| == 16
  {}

  /** A DIO of at most 255 octets is read option by option. */
  lemma MessageSays(buf: seq<Byte>, opts: seq<Opt>, after: seq<Byte>)
    requires AllProper(opts) && |after| >= 2 && 24 <= |buf| && buf[24..] == Octets(opts) + after && 24 + |Octets(opts)| <= 255
    ensures |ReadBase(buf).route.prefix| == 16 && Readable(buf, 24 + |Octets(opts)|)
    ensures Decode(buf, 24 + |Octets(opts)|) == SayAll(ReadBase(buf), opts, after)
  {
    hide ReadBase, ReadOptions, SayAll, Octets, AllProper;
    BaseRoute(buf);
    var m, size := ReadBase(buf), 24 + |Octets(opts)|;
    LoopSays(m, buf, 24, opts, after);
    assert size % 0x100 == size;
  }

  /** It is dropped exactly if one of them is bad. */
  lemma {:induction false} DroppedExactly(m: Message, opts: seq<Opt>, after: seq<Byte>)
    requires AllProper(opts) && |after| >= 2 && |m.route.prefix| == 16
    ensures SayAll(m, opts, after).None? <==> exists k :: 0 <= k < |opts| && Bad(opts[k])
    decreases |opts|
  {
    hide Bad, Says;
    if opts != [] && !Bad(opts[0]) {
      var rest := opts[1..];
      ProperRest(opts);
      DroppedExactly(Says(m, opts[0], Octets(rest) + after), rest, after);
      assert forall k :: 0 <= k < |rest| ==> rest[k] == opts[k + 1];
      if k :| 0 <= k < |opts| && Bad(opts[k]) { assert Bad(rest[k - 1]); }
    }
  }

  /** The containers are long enough for their object. */
  predicate Complete(opts: seq<Opt>) { forall k :: 0 <= k < |opts| && opts[k].Opt? && opts[k].kind == 2 ==> |opts[k].body| >= 6 }

  /** Then what lies behind an option does not matter. */
  lemma SaysAlike(m: Message, o: Opt, a: seq<Byte>, b: seq<Byte>)
    requires Proper(o) && !Bad(o) && |a| >= 2 && |b| >= 2 && |m.route.prefix| == 16 && Complete([o])
    ensures Says(m, o, a) == Says(m, o, b)
  {
    assert Known(o) && o.kind == 2 ==> |[o][0].body| >= 6;
    hide SaidRoute, SaidConf, SaidPrefix;
  }

  /** Padding and options of other types, anywhere in a DIO, change nothing about what is read. */
  lemma {:induction false} OthersIgnored(m: Message, opts: seq<Opt>, after: seq<Byte>, tail: seq<Byte>)
    requires AllProper(opts) && Complete(opts) && |after| >= 2 && |tail| >= 2 && |m.route.prefix| == 16
    ensures AllProper(OnlyKnown(opts)) && SayAll(m, opts, after) == SayAll(m, OnlyKnown(opts), tail)
    decreases |opts|
  {
    hide Bad, Says, OptOctets;
    if opts != [] {
      var o, rest := opts[0], opts[1..];
      ProperRest(opts);
      CompleteRest(opts);
      OthersIgnored(m, rest, after, tail);
      var kept := OnlyKnown(rest);
      if Known(o) {
        assert OnlyKnown(opts)[1..] == kept;
        if !Bad(o) {
          var x, y := Octets(rest) + after, Octets(kept) + tail;
          SaysAlike(m, o, x, y);
          OthersIgnored(Says(m, o, x), rest, after, tail);
        }
      } else {
        UnknownSays(m, o, Octets(rest) + after);
        assert OnlyKnown(opts) == kept;
      }
    }
  }

  lemma UnknownSays(m: Message, o: Opt, after: seq<Byte>)
    requires Proper(o) && !Known(o) && |after| >= 2 && |m.route.prefix| == 16
    ensures !Bad(o) && Says(m, o, after) == m
  {}

  lemma CompleteRest(opts: seq<Opt>)
    requires Complete(opts) && opts != []
    ensures Complete(opts[1..]) && Complete([opts[0]])
  {
    assert opts[0] == [opts[0]][0];
  }

  /** The options that count, in their order. */
  function OnlyKnown(opts: seq<Opt>): seq<Opt> {
    if opts == [] then [] else (if Known(opts[0]) then [opts[0]] else []) + OnlyKnown(opts[1..])
  }

  /** Any octets are options, and then nothing or an option that would run past the end. */
  lemma {:induction false} Parses(buf: seq<Byte>, i: nat, size: nat) returns (opts: seq<Opt>, whole: bool)
    requires Readable(buf, size) && i <= size
    ensures AllProper(opts) && i + |Octets(opts)| <= size && buf[i..i + |Octets(opts)|] == Octets(opts)
    ensures var j := i + |Octets(opts)|;
            if whole then j == size else j < size && buf[j] != 0 && j + 2 + Val(buf[j + 1]) > size
    decreases size - i
  {
    hide Val, Low, OptOctets, AllProper;
    opts, whole := [], i == size;
    if i < size && (buf[i] == 0 || i + 2 + Val(buf[i + 1]) <= size) {
      var o := OneOption(buf, i, size);
      OptNotEmpty(o);
      var rest;
      rest, whole := Parses(buf, i + |OptOctets(o)|, size);
      opts := [o] + rest;
      MoreSent(o, rest);
      SliceSplit(buf, i, i + |OptOctets(o)|, i + |OptOctets(o)| + |Octets(rest)|);
      ProperMore(o, rest);
    } else {
      NoneProper();
    }
  }

  lemma NoneProper()
    ensures AllProper([])
  {}

  lemma ProperMore(o: Opt, rest: seq<Opt>)
    requires Proper(o) && AllProper(rest)
    ensures AllProper([o] + rest)
  {
    assert forall k :: 0 < k < |[o] + rest| ==> ([o] + rest)[k] == rest[k - 1];
  }

  lemma OneOption(buf: seq<Byte>, i: nat, size: nat) returns (o: Opt)
    requires Readable(buf, size) && i < size && (buf[i] == 0 || i + 2 + Val(buf[i + 1]) <= size)
    ensures Proper(o) && i + |OptOctets(o)| <= size && buf[i..i + |OptOctets(o)|] == OptOctets(o)
  {
    hide Val, Low;
    if buf[i] == 0 {
      o := Pad1;
      assert buf[i..i + 1] == [0];
    } else {
      var n := Val(buf[i + 1]);
      o := Opt(buf[i], buf[i + 2..i + 2 + n]);
      LowOfVal(buf[i + 1]);
      assert OptOctets(o) == [buf[i], buf[i + 1]] + buf[i + 2..i + 2 + n];
      assert buf[i..i + 2 + n] == [buf[i], buf[i + 1]] + buf[i + 2..i + 2 + n];
    }
  }

  lemma LowSmall(n: nat)
    requires n < 256
    ensures Low(n) == n as bv8
  {}

  lemma ValAs(b: Byte)
    ensures (b as nat) as bv8 == b
  {}

  lemma LowOfVal(b: Byte)
    ensures Low(Val(b)) == b
  {
    hide Low;
    LowSmall(b as nat);
    ValAs(b);
  }

  /** An option that runs past the end drops the message, whatever came before it. */
  lemma PastTheEnd(m: Message, buf: seq<Byte>, i: nat, opts: seq<Opt>, size: nat)
    requires Readable(buf, size) && AllProper(opts) && |m.route.prefix| == 16 && i + |Octets(opts)| < size
    requires buf[i..i + |Octets(opts)|] == Octets(opts)
    requires var j := i + |Octets(opts)|; buf[j] != 0 && j + 2 + Val(buf[j + 1]) > size
    ensures ReadOptions(m, buf, i, size) == None
    decreases |opts|
  {
    hide OptOctets, ReadOption, Says, Val, AllProper, Bad, OptionLen;
    if opts == [] {
      StopsHere(m, buf, i, size);
    } else {
      var o, rest := opts[0], opts[1..];
      ProperRest(opts);
      OptNotEmpty(o);
      var j := i + |OptOctets(o)|;
      var next := buf[j..];
      FirstAndRest(buf, i, OptOctets(o), Octets(rest));
      NextAt(buf, i, o, next);
      LoopStep(m, buf, i, o, next, size);
      if !Bad(o) { PastTheEnd(Says(m, o, next), buf, j, rest, size); }
    }
  }

  lemma FirstAndRest(buf: seq<Byte>, i: nat, a: seq<Byte>, b: seq<Byte>)
    requires i + |a| + |b| <= |buf| && buf[i..i + |a| + |b|] == a + b
    ensures buf[i..] == a + buf[i + |a|..] && buf[i + |a|..i + |a| + |b|] == b
  {
    var s := buf[i..i + |a| + |b|];
    assert buf[i..i + |a|] == s[..|a|] == a && buf[i + |a|..i + |a| + |b|] == s[|a|..] == b;
    assert buf[i..] == buf[i..i + |a|] + buf[i + |a|..];
  }

  lemma StopsHere(m: Message, buf: seq<Byte>, i: nat, size: nat)
    requires Readable(buf, size) && |m.route.prefix| == 16 && i < size && buf[i] != 0 && i + 2 + Val(buf[i + 1]) > size
    ensures ReadOptions(m, buf, i, size) == None
  {
    hide ReadOption, Val;
  }

  /** Of the size only the low octet is kept, and a message of no more than 24 octets by it says nothing but its base. */
  lemma SizeInAnOctet(buf: seq<Byte>, size: nat)
    requires Readable(buf, size % 256)
    ensures Decode(buf, size) == Decode(buf, size % 256)
    ensures size % 256 <= 24 ==> Decode(buf, size) == Some(ReadBase(buf))
  {
    hide ReadBase;
  }

  /** For every message: it is dropped exactly if an option runs past its end or one before is bad, and what it says
      is what its options say. */
  lemma DecodeExact(buf: seq<Byte>, size: nat) returns (opts: seq<Opt>, whole: bool)
    requires 24 <= size <= 255 && Readable(buf, size)
    ensures AllProper(opts) && 24 + |Octets(opts)| <= size && buf[24..24 + |Octets(opts)|] == Octets(opts)
    ensures var j := 24 + |Octets(opts)|;
            if whole then j == size else j < size && buf[j] != 0 && j + 2 + Val(buf[j + 1]) > size
    ensures Decode(buf, size).None? <==> !whole || exists k :: 0 <= k < |opts| && Bad(opts[k])
    ensures whole ==> |ReadBase(buf).route.prefix| == 16 && Decode(buf, size) == SayAll(ReadBase(buf), opts, buf[size..])
  {
    hide ReadBase, ReadOptions, SayAll, AllProper, Bad, Val;
    opts, whole := Parses(buf, 24, size);
    BaseRoute(buf);
    var m := ReadBase(buf);
    assert size % 0x100 == size;
    if whole {
      assert buf[24..] == buf[24..size] + buf[size..];
      LoopSays(m, buf, 24, opts, buf[size..]);
      DroppedExactly(m, opts, buf[size..]);
    } else {
      PastTheEnd(m, buf, 24, opts, size);
    }
  }

  // -------------------------------------------------------------------- what is sent

  function Hi(n: nat): Byte { Low(n / 256) }

  /** The base object: the mode shifted by three, nothing of the grounded flag or the preference, the next DTSN. */
  function SentBase(d: Dag): seq<Byte> {
    [d.instance, d.version, Hi(d.rank), Low(d.rank), d.mop << 3, d.dtsn + 1, 0, 0] + d.dagId
  }

  function SentContainer(mc: Container): seq<Byte> {
    [mc.kind, mc.flags >> 1, ((mc.flags & 1) << 7) | (mc.aggr << 4) | mc.prec, 2]
    + match mc.obj case Etx(e) => [Hi(e), Low(e)] case Energy(f, e) => [f, e]
  }

  function SentConf(c: Conf): seq<Byte> {
    [0, c.intDoubl, c.intMin, c.redundancy, Hi(c.maxRankInc), Low(c.maxRankInc), Hi(c.minHopRankInc), Low(c.minHopRankInc),
     Hi(c.ocp), Low(c.ocp), 0, c.defaultLifetime, Hi(c.lifetimeUnit), Low(c.lifetimeUnit)]
  }

  /** The one lifetime as the valid and as the preferred one. */
  function SentPrefix(p: Prefix): seq<Byte> {
    var t := [Hi(p.lifetime / 65536), Low(p.lifetime / 65536), Hi(p.lifetime % 65536), Low(p.lifetime % 65536)];
    [p.length, p.flags] + t + t + [0, 0, 0, 0] + p.prefix
  }

  /** The container unless there is none, the configuration, and the prefix unless it is empty. */
  function SentOptions(d: Dag): seq<Opt> {
    (if d.mc.kind == 0 then [] else [Opt(2, SentContainer(d.mc))]) + [Opt(4, SentConf(d.conf))]
    + (if d.prefix.length == 0 then [] else [Opt(8, SentPrefix(d.prefix))])
  }

  lemma Six()
    ensures Low(6) == 6
  {}

  lemma Fourteen()
    ensures Low(14) == 14
  {}

  lemma Thirty()
    ensures Low(30) == 30
  {}

  /** The container of the ETX objective function: type 7, the P flag in its ninth bit from the top, and the path metric. */
  lemma EtxContainerSent(mc: Container, etx: U16)
    ensures Updated(mc, etx) == Container(7, 8, 0, 0, 2, Etx(etx))
    ensures SentContainer(Updated(mc, etx)) == [7, 4, 0, 2, Hi(etx), Low(etx)]
  {
    hide Low;
  }

  lemma OneSent(o: Opt)
    ensures Octets([o]) == OptOctets(o)
  {
    hide OptOctets;
    assert [o][1..] == [];
  }

  lemma MoreSent(o: Opt, rest: seq<Opt>)
    ensures Octets([o] + rest) == OptOctets(o) + Octets(rest)
  {
    hide OptOctets;
    assert ([o] + rest)[1..] == rest;
  }

  lemma ContainerSent(mc: Container)
    ensures OptOctets(Opt(2, SentContainer(mc))) == ContainerOption(mc)
  {
    Six();
    hide Low;
    var h, f := HighFlags(mc), ContainerFlags(mc);
    var obj := match mc.obj case Etx(e) => [Hi(e), Low(e)] case Energy(f, e) => [f, e];
    ContainerShape(mc.kind, h, f, obj);
    var b := SentContainer(mc);
    assert b == [mc.kind, h, f, 2] + obj;
    assert |b| == 6;
    hide HighFlags, ContainerFlags, SentContainer, Hi;
    assert OptOctets(Opt(2, b)) == [2, 6] + b;
  }

  lemma ContainerShape(k: Byte, h: Byte, f: Byte, obj: seq<Byte>)
    ensures [2, 6, k, h, f, 2] + obj == [2, 6] + ([k, h, f, 2] + obj)
  {}

  /** The same octets, told apart in another way. */
  lemma ConfShape(a: Byte, b: Byte, c: Byte, r: seq<Byte>, h: seq<Byte>, o: seq<Byte>, l: Byte, u: seq<Byte>)
    requires |r| == |h| == |o| == |u| == 2
    ensures [4, 14, 0, a, b, c] + r + h + o + [0, l] + u
            == [4, 14] + [0, a, b, c, r[0], r[1], h[0], h[1], o[0], o[1], 0, l, u[0], u[1]]
  {}

  lemma ConfSent(c: Conf)
    ensures OptOctets(Opt(4, SentConf(c))) == ConfOption(c)
  {
    Fourteen();
    hide Low;
    ConfShape(c.intDoubl, c.intMin, c.redundancy, Be16(c.maxRankInc), Be16(c.minHopRankInc), Be16(c.ocp), c.defaultLifetime,
              Be16(c.lifetimeUnit));
    var b := SentConf(c);
    assert |b| == 14;
    assert OptOctets(Opt(4, b)) == [4, 14] + b;
  }

  lemma PrefixSent(p: Prefix)
    requires |p.prefix| == 16
    ensures OptOctets(Opt(8, SentPrefix(p))) == PrefixOption(p)
  {
    Thirty();
    var t := [Hi(p.lifetime / 65536), Low(p.lifetime / 65536), Hi(p.lifetime % 65536), Low(p.lifetime % 65536)];
    assert Be32(p.lifetime) == t;
    hide Low, Be32, Hi;
    assert Zeros(4) == [0, 0, 0, 0];
    var b := SentPrefix(p);
    assert |b| == 30;
    assert OptOctets(Opt(8, b)) == [8, 30] + b;
    PrefixShape(p.length, p.flags, t, p.prefix);
  }

  lemma PrefixShape(a: Byte, b: Byte, t: seq<Byte>, p: seq<Byte>)
    ensures [8, 30, a, b] + t + t + [0, 0, 0, 0] + p == [8, 30] + ([a, b] + t + t + [0, 0, 0, 0] + p)
  {
    var x: seq<Byte> := [a, b];
    assert [8, 30] + x == [8, 30, a, b];
    Regroup([8, 30], x + t + t + [0, 0, 0, 0], p);
    Regroup([8, 30], x + t + t, [0, 0, 0, 0]);
    Regroup([8, 30], x + t, t);
    Regroup([8, 30], x, t);
  }

  lemma BaseSent(d: Dag)
    requires |d.dagId| == 16
    ensures SentBase(d) == Base(d)
  {
    hide Low;
  }

  /** Every octet of the message `dio_output` sends. */
  lemma EncodesAs(d: Dag)
    requires Sane(d)
    ensures Encode(d).None? <==> d.mc.kind != 0 && d.mc.kind != 7 && d.mc.kind != 2
    ensures Encode(d).Some? ==> Encode(d).value == SentBase(d) + Octets(SentOptions(d))
  {
    hide OptOctets, ContainerOption, ConfOption, PrefixOption, SentContainer, SentConf, SentPrefix, SentBase, Base;
    BaseSent(d);
    ContainerSent(d.mc);
    ConfSent(d.conf);
    PrefixSent(d.prefix);
    var a, b, c := Opt(2, SentContainer(d.mc)), Opt(4, SentConf(d.conf)), Opt(8, SentPrefix(d.prefix));
    OneSent(b);
    OneSent(c);
    MoreSent(b, [c]);
    MoreSent(a, [b]);
    MoreSent(a, [b] + [c]);
    hide Octets;
    if Encode(d).Some? {
      var x := if d.mc.kind == 0 then [] else ContainerOption(d.mc);
      var y := if d.prefix.length == 0 then [] else PrefixOption(d.prefix);
      assert Encode(d).value == Base(d) + (x + (ConfOption(d.conf) + y));
      assert SentOptions(d) == (if d.mc.kind == 0 then [] else [a]) + ([b] + if d.prefix.length == 0 then [] else [c]);
      if d.mc.kind == 0 {
        assert Octets(SentOptions(d)) == ConfOption(d.conf) + y;
      } else if d.prefix.length == 0 {
        assert SentOptions(d) == [a] + [b];
      } else {
        assert SentOptions(d) == [a] + ([b] + [c]);
      }
    }
  }
}
