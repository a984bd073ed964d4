// Where the header compression of sicsLowPan.c loses an address: one concrete
// header for each of the three ways, and what is left of them with the context
// table the stack starts with.
module IphcLimits {
  import opened Bytes
  import opened Iphc

  function Header(src: Addr, dst: Addr): (r: seq<Byte>)
    ensures |r| == IPUDPH_LEN && r[0] == 0x60
  {
    [0x60, 0, 0, 0, 0, 8, 58, 64] + src + dst + Zeros(8)
  }

  lemma HeaderFields(src: Addr, dst: Addr)
    ensures Src(Header(src, dst)) == src && Dst(Header(src, dst)) == dst && Header(src, dst)[0] & 0xF0 == 0x60
  {}

  /** fe80:1::7, a link-local address with something in its octets 2 to 7. */
  function OddLinkLocal(): Addr { [0xFE, 0x80, 0, 1] + Zeros(11) + [7] }

  /** 2001::1, a destination whose octets 2 to 7 are zero, and no context. */
  function Far(): Addr { [0x20, 0x01] + Zeros(13) + [1] }

  /** The test of the source reads the destination: its octets 2 to 7 are taken for zero and come back so. */
  lemma SourceTestLosesOctets(other: Option<Context>)
    ensures var ip := Header(OddLinkLocal(), Far());
            && !Recoverable([], other, ip)
            && SeenSrc([], SentSci([], other, ip), ip) == Some(LL_PREFIX + Zeros(6) + OddLinkLocal()[8..])
  {
    HeaderFields(OddLinkLocal(), Far());
    assert Far()[2..8] == Zeros(6);
    assert OddLinkLocal()[2..8][1] == 1;
    assert !Unspecified(OddLinkLocal()) by { assert OddLinkLocal()[0] != Zeros(16)[0]; }
  }

  /** A source under a context other than 0 and a destination without one: whether the packet survives
      depends on what the packet before it left in `otherContext`. */
  lemma StaleContextDecides(p0: Prefix64, p1: Prefix64, c: Context)
    requires p0 != p1 && Zeros(8) !in {p0, p1} && Far()[..8] !in {p0, p1}
    ensures var t := [Context(1, 0, p0), Context(1, 1, p1)];
            var ip := Header(p1 + [0, 0, 0, 0, 0, 0, 0, 7], Far());
            WellFormed(t) && !Recoverable(t, None, ip) && Recoverable(t, Some(c), ip)
  {
    var t := [Context(1, 0, p0), Context(1, 1, p1)];
    var src: Addr := p1 + [0, 0, 0, 0, 0, 0, 0, 7];
    var ip := Header(src, Far());
    HeaderFields(src, Far());
    assert src[..8] == p1;
    assert t[1..] == [t[1]] && t[1..][1..] == [];
    assert ByPrefix(t[1..], src) == Some(t[1]);
    assert ByPrefix(t[1..][1..], Far()) == None;
    assert ByPrefix(t[1..], Far()) == None;
    assert !Unspecified(src) by { assert src[15] == 7; }
  }

  /** ff02:1::1: its octet 3 is 1, which is what a context in use holds in `used`. */
  function OddMulticast(): Addr { [0xFF, 0x02, 0, 1] + Zeros(11) + [1] }

  /** Any context in use captures it: the stateful multicast form the receiver always refuses. */
  lemma MulticastCaptured(p: Prefix64, other: Option<Context>, src: Addr)
    ensures var t := [Context(1, 0, p)];
            WellFormed(t) && !Recoverable(t, other, Header(src, OddMulticast()))
  {
    var t := [Context(1, 0, p)];
    HeaderFields(src, OddMulticast());
    assert Val(1) == 1;
    assert OddMulticast()[3] == 1;
    assert p[..0] == OddMulticast()[4..4 + 0];
    assert McastMatch(t[0], OddMulticast());
  }

  /** `sicslowpan_init`: context 0 in use, the other not. */
  function StartTable(p: Prefix64): Table { [Context(1, 0, p), Context(0, 0, Zeros(8))] }

  /** With the table the stack starts with no context number is ever lost; what remains is the misread
      source test and the captured multicast. */
  lemma StartTableExact(p: Prefix64, other: Option<Context>, ip: seq<Byte>)
    requires |ip| >= IPUDPH_LEN
    ensures var t := StartTable(p);
            && WellFormed(t)
            && (Recoverable(t, other, ip) <==>
                  && ip[0] & 0xF0 == 0x60
                  && (SrcLinkLocalBranch(ip) && Src(ip)[..8] != p ==> Src(ip)[2..8] == Zeros(6))
                  && !(Multicast(Dst(ip)) && Dst(ip)[3] == 1))
  {
    var t := StartTable(p);
    var a, d := Src(ip), Dst(ip);
    assert t[1..] == [t[1]] && t[1..][1..] == [];
    assert ByPrefix(t[1..][1..], a) == None && ByPrefix(t[1..], a) == None;
    assert ByPrefix(t, a) == if p == a[..8] then Some(t[0]) else None;
    assert ByNumber(t, 0) == Some(t[0]);
    assert !McastMatch(t[1], d);
    assert ByMcastPrefix(t[1..][1..], d) == None && ByMcastPrefix(t[1..], d) == None;
    OneIsOne(d[3]);
    assert p[..0] == d[4..4 + 0];
    assert McastMatch(t[0], d) <==> d[3] == 1;
    if Unspecified(a) { assert a[0] == Zeros(16)[0]; }
  }

  lemma OneIsOne(b: Byte)
    ensures Val(b) == 1 <==> b == 1
  {}
}
