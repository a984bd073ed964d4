// The Internet checksum of uip.c (RFC 1071): the 16-bit end-around-carry sum, the
// pseudo-header sum over a packet buffer, and how senders fill and receivers check it.
module Checksum {
  import opened Bytes

  const IP_HDR: nat := 40
  const ICMP_CHKSUM: nat := 2       // of the checksum field in the ICMPv6 header
  const UDP_CHKSUM: nat := 6        // and in the UDP header

  // ------------------------------------------------------------ the sum itself

  /** One step of the loop: 16-bit addition with the carry added back. */
  function Add(sum: U16, t: U16): (r: U16)
    ensures r % 65535 == (sum + t) % 65535
    ensures r == 0 <==> sum == 0 && t == 0
  {
    var s := (sum + t) % 0x1_0000;
    if s < t then s + 1 else s
  }

  /** `chksum`: words are big-endian, an odd last octet counts as a high one. */
  function Chksum(sum: U16, data: seq<Byte>): U16
    decreases |data|
  {
    if |data| == 0 then sum
    else if |data| == 1 then Add(sum, Word(data[0], 0))
    else Chksum(Add(sum, Word(data[0], data[1])), data[2..])
  }

  /** The reference: every octet with its weight, in unbounded arithmetic. */
  function Weight(data: seq<Byte>, high: bool): nat {
    if data == [] then 0 else Val(data[0]) * (if high then 256 else 1) + Weight(data[1..], !high)
  }

  predicate AllZero(data: seq<Byte>) { forall i :: 0 <= i < |data| ==> data[i] == 0 }

  lemma ValZero(b: Byte)
    ensures Val(b) == 0 <==> b == 0
  {}

  /** The loop computes the sum modulo 65535, and gives 0 only for zeros. */
  lemma {:induction false} ChksumIsSum(sum: U16, data: seq<Byte>)
    ensures Chksum(sum, data) % 65535 == (sum + Weight(data, true)) % 65535
    ensures Chksum(sum, data) == 0 <==> sum == 0 && AllZero(data)
    decreases |data|
  {
    hide Add, Val, Word, Weight, AllZero;
    if |data| == 0 {
      Empty(data);
    } else if |data| == 1 {
      OneOctet(data);
    } else {
      var w := Word(data[0], data[1]);
      var s := Add(sum, w);
      ChksumIsSum(s, data[2..]);
      TwoOctets(data);
      Congruent(s, sum + w, Weight(data[2..], true));
      TwoZeros(data);
    }
  }

  lemma Empty(data: seq<Byte>)
    requires data == []
    ensures Weight(data, true) == 0 && AllZero(data)
  {}

  lemma OneOctet(data: seq<Byte>)
    requires |data| == 1
    ensures Weight(data, true) == Word(data[0], 0)
    ensures Word(data[0], 0) == 0 <==> AllZero(data)
  {
    hide Val;
    ValZero(0);
    WordZero(data[0], 0);
    assert Weight(data[1..], false) == 0;
  }

  lemma TwoZeros(data: seq<Byte>)
    requires |data| >= 2
    ensures AllZero(data) <==> Word(data[0], data[1]) == 0 && AllZero(data[2..])
  {
    WordZero(data[0], data[1]);
    hide Word;
    var rest := data[2..];
    assert forall i :: 2 <= i < |data| ==> data[i] == rest[i - 2];
  }

  lemma TwoOctets(data: seq<Byte>)
    requires |data| >= 2
    ensures Weight(data, true) == Word(data[0], data[1]) + Weight(data[2..], true)
  {
    hide Val;
    assert data[1..][0] == data[1] && data[1..][1..] == data[2..];
    assert Weight(data[1..], false) == Val(data[1]) + Weight(data[2..], true);
  }

  lemma WordZero(a: Byte, b: Byte)
    ensures Word(a, b) == 0 <==> a == 0 && b == 0
  {
    ValZero(a);
    ValZero(b);
  }

  lemma Congruent(a: int, b: int, c: int)
    requires a % 65535 == b % 65535
    ensures (a + c) % 65535 == (b + c) % 65535
  {
    var qa, qb := a / 65535, b / 65535;
    assert a + c == b + c + 65535 * (qa - qb);
    Shift(b + c, qa - qb);
  }

  lemma Shift(x: int, k: int)
    ensures (x + 65535 * k) % 65535 == x % 65535
  {
    var q, r := x / 65535, x % 65535;
    assert x + 65535 * k == 65535 * (q + k) + r;
    Quotient(x + 65535 * k, q + k, r);
  }

  lemma Quotient(x: int, q: int, r: int)
    requires 0 <= r < 65535 && x == 65535 * q + r
    ensures x % 65535 == r
  {}

  // ----------------------------------------------------- sums over a packet buffer

  /** `upper_layer_len`, in 16 bits. */
  function UpperLen(buf: seq<Byte>, ext: nat): U16
    requires |buf| >= IP_HDR
  {
    (Word(buf[4], buf[5]) - ext) % 0x1_0000
  }

  /** The upper layer the length field describes lies in the buffer. */
  predicate Holds(buf: seq<Byte>, ext: nat) {
    |buf| >= IP_HDR && IP_HDR + ext + UpperLen(buf, ext) <= |buf|
  }

  function Upper(buf: seq<Byte>, ext: nat): (r: seq<Byte>)
    requires Holds(buf, ext)
    ensures |r| == UpperLen(buf, ext)
  {
    buf[IP_HDR + ext..IP_HDR + ext + UpperLen(buf, ext)]
  }

  /** What is covered: the payload behind the extension headers, as long as octets 4 and 5 of the packet say. */
  lemma CoveredOctets(buf: seq<Byte>, ext: nat)
    requires |buf| >= 40
    requires var payload := Val(buf[4]) * 256 + Val(buf[5]); ext <= payload && 40 + payload <= |buf|
    ensures var payload := Val(buf[4]) * 256 + Val(buf[5]);
            Holds(buf, ext) && UpperLen(buf, ext) == payload - ext && Upper(buf, ext) == buf[40 + ext..40 + payload]
  {
    hide Val;
  }

  /** The first addition of `upper_layer_chksum`; it has no carry added back. */
  function Start(buf: seq<Byte>, ext: nat, proto: Byte): U16
    requires Holds(buf, ext)
  {
    (UpperLen(buf, ext) + Val(proto)) % 0x1_0000
  }

  /** `upper_layer_chksum`, in host order. */
  function UpperChksum(buf: seq<Byte>, ext: nat, proto: Byte): U16
    requires Holds(buf, ext)
  {
    var sum := Chksum(Chksum(Start(buf, ext, proto), buf[8..IP_HDR]), Upper(buf, ext));
    if sum == 0 then 0xffff else sum
  }

  /** What is summed, in unbounded arithmetic. */
  function Total(buf: seq<Byte>, ext: nat, proto: Byte): nat
    requires Holds(buf, ext)
  {
    Start(buf, ext, proto) + Weight(buf[8..IP_HDR], true) + Weight(Upper(buf, ext), true)
  }

  lemma UpperIsTotal(buf: seq<Byte>, ext: nat, proto: Byte)
    requires Holds(buf, ext)
    ensures UpperChksum(buf, ext, proto) % 65535 == Total(buf, ext, proto) % 65535
    ensures UpperChksum(buf, ext, proto) != 0
  {
    hide Chksum, Weight, Start, Upper, Val;
    var s := Start(buf, ext, proto);
    var a := Chksum(s, buf[8..IP_HDR]);
    ChksumIsSum(s, buf[8..IP_HDR]);
    ChksumIsSum(a, Upper(buf, ext));
    Congruent(a, s + Weight(buf[8..IP_HDR], true), Weight(Upper(buf, ext), true));
  }

  /** The receiver's test succeeds exactly when all that is summed is a multiple of 65535. */
  lemma CheckExact(buf: seq<Byte>, ext: nat, proto: Byte)
    requires Holds(buf, ext)
    ensures UpperChksum(buf, ext, proto) == 0xffff <==> Total(buf, ext, proto) % 65535 == 0
  {
    UpperIsTotal(buf, ext, proto);
    hide UpperChksum, Total;
  }

  /** The sum section 8.1 of RFC 2460 asks for: addresses, length and next header, and the upper layer. */
  function PseudoHeaderSum(buf: seq<Byte>, ext: nat, proto: Byte): nat
    requires Holds(buf, ext)
  {
    UpperLen(buf, ext) + Val(proto) + Weight(buf[8..IP_HDR], true) + Weight(Upper(buf, ext), true)
  }

  /** "This addition cannot carry": the value is the standard's exactly when length and next header
      together stay below 2^16. */
  lemma StandardSumExact(buf: seq<Byte>, ext: nat, proto: Byte)
    requires Holds(buf, ext)
    ensures UpperChksum(buf, ext, proto) % 65535 == PseudoHeaderSum(buf, ext, proto) % 65535
            <==> UpperLen(buf, ext) + Val(proto) <= 0xffff
  {
    hide UpperChksum, Weight, Val, UpperLen, Upper;
    UpperIsTotal(buf, ext, proto);
    if UpperLen(buf, ext) + Val(proto) > 0xffff {
      assert PseudoHeaderSum(buf, ext, proto) == Total(buf, ext, proto) + 65536;
      hide Total, PseudoHeaderSum;
      NextResidue(Total(buf, ext, proto));
    } else {
      assert PseudoHeaderSum(buf, ext, proto) == Total(buf, ext, proto);
    }
  }

  /** The receiver's test, for a packet as long as it says and shorter than 65280 octets: the sum of section 8.1 of RFC 2460
      over source, destination, length, next header and payload is a multiple of 65535. */
  lemma AcceptsExactly(buf: seq<Byte>, ext: nat, proto: Byte)
    requires |buf| >= 40
    requires var payload := Val(buf[4]) * 256 + Val(buf[5]); ext <= payload && 40 + payload <= |buf| && payload < 65280
    ensures Holds(buf, ext)
    ensures var payload := Val(buf[4]) * 256 + Val(buf[5]);
            UpperChksum(buf, ext, proto) == 0xffff
            <==> (Weight(buf[8..24], true) + Weight(buf[24..40], true) + (payload - ext) + Val(proto)
                  + Weight(buf[40 + ext..40 + payload], true)) % 65535 == 0
  {
    hide UpperChksum, Weight, Val, UpperLen, Upper, Total;
    CoveredOctets(buf, ext);
    CheckExact(buf, ext, proto);
    TotalParts(buf, ext, proto);
  }

  lemma TotalParts(buf: seq<Byte>, ext: nat, proto: Byte)
    requires Holds(buf, ext) && UpperLen(buf, ext) < 65280
    ensures Total(buf, ext, proto)
            == Weight(buf[8..24], true) + Weight(buf[24..40], true) + UpperLen(buf, ext) + Val(proto) + Weight(Upper(buf, ext), true)
  {
    hide Weight, Upper, UpperLen;
    assert buf[8..40] == buf[8..24] + buf[24..40];
    WeightConcat(buf[8..24], buf[24..40]);
  }

  lemma {:induction false} WeightConcat(a: seq<Byte>, b: seq<Byte>)
    requires |a| % 2 == 0
    ensures Weight(a + b, true) == Weight(a, true) + Weight(b, true)
    decreases |a|
  {
    hide Weight, Val, Word;
    if a == [] {
      Empty(a);
      assert a + b == b;
    } else {
      TwoOctets(a);
      TwoOctets(a + b);
      assert (a + b)[2..] == a[2..] + b;
      WeightConcat(a[2..], b);
    }
  }

  /** The standard sum of every packet a buffer of `n` octets can hold, whatever its extension headers. */
  ghost predicate AllStandard(n: nat, proto: Byte) {
    forall buf: seq<Byte>, ext: nat | |buf| == n && Holds(buf, ext) ::
      UpperChksum(buf, ext, proto) % 65535 == PseudoHeaderSum(buf, ext, proto) % 65535
  }

  /** The comment is right for every packet in a buffer exactly when the buffer is small enough for the next
      header: up to 65320 octets for any, 65517 for ICMPv6. */
  lemma CarryNeedsRoom(n: nat, proto: Byte)
    requires n >= IP_HDR && proto != 0
    ensures AllStandard(n, proto) <==> n + Val(proto) < IP_HDR + 0x1_0000
  {
    hide UpperChksum, PseudoHeaderSum;
    if n + Val(proto) < IP_HDR + 0x1_0000 {
      forall buf: seq<Byte>, ext: nat | |buf| == n && Holds(buf, ext)
        ensures UpperChksum(buf, ext, proto) % 65535 == PseudoHeaderSum(buf, ext, proto) % 65535
      {
        StandardSumExact(buf, ext, proto);
      }
    } else {
      var buf := Carries(n, proto);
      assert Holds(buf, 0);
    }
  }

  lemma SmallBuffer(buf: seq<Byte>, ext: nat, proto: Byte)
    requires Holds(buf, ext) && |buf| <= 65320
    ensures UpperChksum(buf, ext, proto) % 65535 == PseudoHeaderSum(buf, ext, proto) % 65535
  {
    hide UpperChksum, PseudoHeaderSum, Upper;
    StandardSumExact(buf, ext, proto);
  }

  /** In a larger one, a packet whose length and next header add up to 65536. */
  lemma Carries(n: nat, proto: Byte) returns (buf: seq<Byte>)
    requires proto != 0 && n + Val(proto) >= IP_HDR + 0x1_0000
    ensures |buf| == n && buf[0] == 0x60 && buf[6] == proto && Holds(buf, 0)
    ensures UpperChksum(buf, 0, proto) % 65535 != PseudoHeaderSum(buf, 0, proto) % 65535
  {
    hide UpperChksum, PseudoHeaderSum, Upper, Be16;
    ValZero(proto);
    var len := 0x1_0000 - Val(proto);
    buf := Zeros(n)[0 := 0x60][4 := Be16(len)[0]][5 := Be16(len)[1]][6 := proto];
    WordOfBe16(len);
    hide Val, Word;
    StandardSumExact(buf, 0, proto);
  }

  /** An ICMPv6 packet of 65518 octets. */
  lemma CarryIsLost()
    ensures var buf := Zeros(IP_HDR + 65478)[0 := 0x60][4 := 0xff][5 := 0xc6][6 := 58];
            && Holds(buf, 0) && UpperLen(buf, 0) == 65478
            && UpperChksum(buf, 0, 58) % 65535 != PseudoHeaderSum(buf, 0, 58) % 65535
  {
    hide UpperChksum, PseudoHeaderSum, Upper;
    var buf := Zeros(IP_HDR + 65478)[0 := 0x60][4 := 0xff][5 := 0xc6][6 := 58];
    assert Word(0xff, 0xc6) == 65478;
    StandardSumExact(buf, 0, 58);
  }

  lemma NextResidue(x: nat)
    ensures (x + 65536) % 65535 != x % 65535
  {}

  // ------------------------------------------------------------- filling the field

  /** The checksum field at `at` overwritten by the number `n`, most significant octet first. */
  function Put(buf: seq<Byte>, at: nat, n: int): (r: seq<Byte>)
    requires at + 2 <= |buf|
    ensures |r| == |buf|
  {
    Splice(buf, at, Be16(n))
  }

  /** `chksum = 0; chksum = ~upper_layer_chksum()`, and for UDP the complement 0 sent as 0xffff. */
  function Filled(buf: seq<Byte>, ext: nat, proto: Byte, field: nat, udp: bool): (r: seq<Byte>)
    requires Holds(buf, ext) && field + 2 <= UpperLen(buf, ext)
    ensures |r| == |buf|
  {
    var at := IP_HDR + ext + field;
    var zeroed := Put(buf, at, 0);
    PutHolds(buf, ext, field, 0);
    var c := 0xffff - UpperChksum(zeroed, ext, proto);
    Put(zeroed, at, if udp && c == 0 then 0xffff else c)
  }

  /** The field lies in the upper layer, so lengths, addresses and everything else stay. */
  lemma PutHolds(buf: seq<Byte>, ext: nat, field: nat, n: int)
    requires Holds(buf, ext) && field + 2 <= UpperLen(buf, ext)
    ensures var r := Put(buf, IP_HDR + ext + field, n);
            && Holds(r, ext) && UpperLen(r, ext) == UpperLen(buf, ext) && r[8..IP_HDR] == buf[8..IP_HDR]
            && Upper(r, ext) == Splice(Upper(buf, ext), field, Be16(n))
  {
    hide Word, Be16;
    var r := Put(buf, IP_HDR + ext + field, n);
    assert r[4] == buf[4] && r[5] == buf[5];
    assert r[8..IP_HDR] == buf[8..IP_HDR];
    var u, v := Upper(r, ext), Splice(Upper(buf, ext), field, Be16(n));
    assert u == v by { assert |u| == |v| && forall i :: 0 <= i < |u| ==> u[i] == v[i]; }
  }

  function FieldOf(data: seq<Byte>, at: nat): U16
    requires at + 2 <= |data|
  {
    Word(data[at], data[at + 1])
  }

  /** Replacing an aligned word moves the sum by the difference. */
  lemma {:induction false} WeightPut(data: seq<Byte>, at: nat, n: U16)
    requires at + 2 <= |data| && at % 2 == 0
    ensures Weight(Splice(data, at, Be16(n)), true) == Weight(data, true) - FieldOf(data, at) + n
    decreases |data|
  {
    var r := Splice(data, at, Be16(n));
    if at == 0 {
      WordOfBe16(n);
      hide Word, Be16, Weight;
      TwoOctets(data);
      TwoOctets(r);
      assert r[2..] == data[2..];
      assert r[0] == Be16(n)[0] && r[1] == Be16(n)[1];
    } else {
      hide Word, Be16, Weight;
      WeightPut(data[2..], at - 2, n);
      TwoOctets(data);
      TwoOctets(r);
      assert r[2..] == Splice(data[2..], at - 2, Be16(n));
    }
  }

  /** Putting a word changes the total by the difference. */
  lemma TotalPut(buf: seq<Byte>, ext: nat, proto: Byte, field: nat, n: U16)
    requires Holds(buf, ext) && field + 2 <= UpperLen(buf, ext) && field % 2 == 0
    ensures var r := Put(buf, IP_HDR + ext + field, n);
            Holds(r, ext) && Total(r, ext, proto) == Total(buf, ext, proto) - FieldOf(Upper(buf, ext), field) + n
  {
    PutHolds(buf, ext, field, n);
    WeightPut(Upper(buf, ext), field, n);
    hide Weight, Upper, UpperLen, Word, Put, Be16;
  }

  lemma UpperWithin(buf: seq<Byte>, ext: nat)
    requires Holds(buf, ext)
    ensures IP_HDR + ext + UpperLen(buf, ext) <= |buf|
  {}

  /** What a sender filled in always passes the receiver's check, for any length, odd ones included;
      and a UDP sender never leaves the value 0 that would switch the check off. */
  lemma FilledPasses(buf: seq<Byte>, ext: nat, proto: Byte, field: nat, udp: bool)
    requires Holds(buf, ext) && field + 2 <= UpperLen(buf, ext) && field % 2 == 0
    ensures var r := Filled(buf, ext, proto, field, udp);
            && Holds(r, ext) && UpperLen(r, ext) == UpperLen(buf, ext)
            && UpperChksum(r, ext, proto) == 0xffff
            && (udp ==> FieldOf(Upper(r, ext), field) != 0)
            && (forall i :: 0 <= i < |buf| && !(IP_HDR + ext + field <= i < IP_HDR + ext + field + 2) ==> r[i] == buf[i])
  {
    hide UpperChksum, Total, FieldOf, Upper, UpperLen, Be16, Holds;
    UpperWithin(buf, ext);
    var at := IP_HDR + ext + field;
    var zeroed := Put(buf, at, 0);
    PutHolds(buf, ext, field, 0);
    PutField(buf, ext, field, 0);
    var c := 0xffff - UpperChksum(zeroed, ext, proto);
    var n := if udp && c == 0 then 0xffff else c;
    FillStep(zeroed, ext, proto, field, n);
  }

  /** The complement put into a zeroed field. */
  lemma FillStep(buf: seq<Byte>, ext: nat, proto: Byte, field: nat, n: U16)
    requires Holds(buf, ext) && field + 2 <= UpperLen(buf, ext) && field % 2 == 0
      && FieldOf(Upper(buf, ext), field) == 0
    requires n == 0xffff - UpperChksum(buf, ext, proto) || (n == 0xffff && UpperChksum(buf, ext, proto) == 0xffff)
    ensures var r := Put(buf, IP_HDR + ext + field, n);
            && Holds(r, ext) && UpperLen(r, ext) == UpperLen(buf, ext)
            && UpperChksum(r, ext, proto) == 0xffff && FieldOf(Upper(r, ext), field) == n
  {
    hide UpperChksum, Total, FieldOf, Upper, UpperLen, Be16, Holds, Put;
    UpperWithin(buf, ext);
    TotalPut(buf, ext, proto, field, n);
    PutHolds(buf, ext, field, n);
    PutField(buf, ext, field, n);
    UpperIsTotal(buf, ext, proto);
    CheckExact(Put(buf, IP_HDR + ext + field, n), ext, proto);
    Complement(UpperChksum(buf, ext, proto), Total(buf, ext, proto), n);
  }

  lemma Complement(sum: U16, total: nat, n: nat)
    requires sum % 65535 == total % 65535 && sum != 0 && (n == 0xffff - sum || (n == 0xffff && sum == 0xffff))
    ensures (total + n) % 65535 == 0
  {
    Congruent(total, sum, n);
  }

  lemma PutField(buf: seq<Byte>, ext: nat, field: nat, n: U16)
    requires Holds(buf, ext) && field + 2 <= UpperLen(buf, ext)
    ensures var r := Put(buf, IP_HDR + ext + field, n);
            Holds(r, ext) && field + 2 <= UpperLen(r, ext) && FieldOf(Upper(r, ext), field) == n
  {
    PutHolds(buf, ext, field, n);
    WordOfBe16(n);
    hide Word, Upper, UpperLen, Put;
  }

  lemma Swapped(n: U16, w: U16)
    ensures {n, w} == {0, 0xffff} <==> ((n == 0 && w == 0xffff) || (n == 0xffff && w == 0))
  {
    if {n, w} == {0, 0xffff} { assert 0 in {n, w} && 0xffff in {n, w}; }
  }

  /** A packet that passes, with one aligned word of its upper layer changed, passes again exactly when
      the change swaps 0 and 0xffff: every other single-word error is caught. */
  lemma OneWordError(buf: seq<Byte>, ext: nat, proto: Byte, field: nat, n: U16)
    requires Holds(buf, ext) && field + 2 <= UpperLen(buf, ext) && field % 2 == 0
    requires UpperChksum(buf, ext, proto) == 0xffff && n != FieldOf(Upper(buf, ext), field)
    ensures var r := Put(buf, IP_HDR + ext + field, n);
            && Holds(r, ext)
            && (UpperChksum(r, ext, proto) == 0xffff
                <==> {n, FieldOf(Upper(buf, ext), field)} == {0, 0xffff})
  {
    hide UpperChksum, Total, FieldOf, Upper, Be16, Holds, Put;
    UpperWithin(buf, ext);
    var w := FieldOf(Upper(buf, ext), field);
    TotalPut(buf, ext, proto, field, n);
    var r := Put(buf, IP_HDR + ext + field, n);
    CheckExact(buf, ext, proto);
    CheckExact(r, ext, proto);
    Swapped(n, w);
    Difference(Total(buf, ext, proto), n, w);
  }

  lemma Difference(total: nat, n: U16, w: U16)
    requires total % 65535 == 0 && n != w
    ensures (total - w + n) % 65535 == 0 <==> ((n == 0 && w == 0xffff) || (n == 0xffff && w == 0))
  {
    Congruent(total, 0, n - w);
    var d := n - w;
    if d % 65535 == 0 {
      assert d == 65535 || d == -65535;
    }
  }

  // ---------------------------------------------------------------- the C functions

  /** `chksum` over `len` octets of the buffer. */
  method Sum(start: U16, buf: array<Byte>, from: nat, len: nat) returns (sum: U16)
    requires from + len <= buf.Length
    ensures sum == Chksum(start, buf[from..from + len])
  {
    hide Val, Word, Add;
    sum := start;
    var dataptr, lastByte: int := from, from + len - 1;
    ghost var data := buf[from..from + len];
    while dataptr < lastByte
      invariant from <= dataptr <= from + len
      invariant Chksum(sum, data[dataptr - from..]) == Chksum(start, data)
    {
      ghost var rest := data[dataptr - from..];
      assert rest[0] == buf[dataptr] && rest[1] == buf[dataptr + 1] && rest[2..] == data[dataptr + 2 - from..];
      sum := AddIn(sum, Word(buf[dataptr], buf[dataptr + 1]));
      dataptr := dataptr + 2;
    }
    ghost var rest := data[dataptr - from..];
    if dataptr == lastByte {
      assert rest == [buf[dataptr]];
      sum := AddIn(sum, Word(buf[dataptr], 0));
    }
  }

  /** The addition in the loop, and its carry. */
  method AddIn(sum: U16, t: U16) returns (r: U16)
    ensures r == Add(sum, t)
  {
    r := (sum + t) % 0x1_0000;
    if r < t { r := r + 1; }
  }

  /** `upper_layer_chksum`; every caller complements the result or compares it with 0xffff. */
  method UpperLayerChksum(buf: array<Byte>, ext: nat, proto: Byte) returns (r: U16)
    requires Holds(buf[..], ext)
    ensures r == UpperChksum(buf[..], ext, proto)
  {
    hide Chksum, Val;
    var upperLayerLen: U16 := (Word(buf[4], buf[5]) - ext) % 0x1_0000;
    var sum: U16 := (upperLayerLen + Val(proto)) % 0x1_0000;
    assert buf[..][8..IP_HDR] == buf[8..8 + 32];
    sum := Sum(sum, buf, 8, 32);
    assert Upper(buf[..], ext) == buf[IP_HDR + ext..IP_HDR + ext + upperLayerLen];
    sum := Sum(sum, buf, IP_HDR + ext, upperLayerLen);
    r := if sum == 0 then 0xffff else sum;
  }

  /** The senders' fill: uip.c for UDP, uip_icmp6.c and uip_nd6.c for ICMPv6. */
  method Fill(buf: array<Byte>, ext: nat, proto: Byte, udp: bool)
    requires Holds(buf[..], ext) && (if udp then UDP_CHKSUM else ICMP_CHKSUM) + 2 <= UpperLen(buf[..], ext)
    modifies buf
    ensures buf[..] == Filled(old(buf[..]), ext, proto, if udp then 6 else 2, udp)
    ensures Holds(buf[..], ext) && UpperChksum(buf[..], ext, proto) == 0xffff
  {
    var field := if udp then UDP_CHKSUM else ICMP_CHKSUM;
    var at := IP_HDR + ext + field;
    hide UpperLen, UpperChksum, Holds, Splice;
    FilledPasses(buf[..], ext, proto, field, udp);
    PutHolds(buf[..], ext, field, 0);
    UpperWithin(buf[..], ext);
    Memcpy(buf, at, Be16(0));
    var c: U16 := UpperLayerChksum(buf, ext, proto);
    c := 0xffff - c;
    if udp && c == 0 { c := 0xffff; }
    Memcpy(buf, at, Be16(c));
  }

  /** The receivers' tests: drop, or go on. */
  method Accept(buf: array<Byte>, ext: nat, proto: Byte, udp: bool) returns (accepted: bool)
    requires Holds(buf[..], ext) && (udp ==> UDP_CHKSUM + 2 <= UpperLen(buf[..], ext))
    ensures accepted <==> (udp && FieldOf(Upper(buf[..], ext), 6) == 0)
                          || Total(buf[..], ext, proto) % 65535 == 0
  {
    CheckExact(buf[..], ext, proto);
    hide UpperChksum, Total, Word;
    var field := 0;
    if udp {
      var at := IP_HDR + ext + UDP_CHKSUM;
      field := Word(buf[at], buf[at + 1]);
      if field == 0 { return true; }
    }
    var sum := UpperLayerChksum(buf, ext, proto);
    accepted := sum == 0xffff;
  }
}
