// Octets, octet strings and the few operations every codec here shares.
module Bytes {

  datatype Option<+T> = None | Some(value: T)

  type Byte = bv8

  type U8 = x: nat | x < 0x100
  type U16 = x: nat | x < 0x1_0000
  type U32 = x: nat | x < 0x1_0000_0000

  /** The octets `s` lie in `buf` from position `p` on. */
  predicate At(buf: seq<Byte>, p: nat, s: seq<Byte>) {
    p + |s| <= |buf| && buf[p..p + |s|] == s
  }

  /** `memcpy(buf + p, s, |s|)`. */
  function Splice(buf: seq<Byte>, p: nat, s: seq<Byte>): (r: seq<Byte>)
    requires p + |s| <= |buf|
    ensures |r| == |buf|
    ensures forall i :: 0 <= i < |buf| ==> r[i] == if p <= i < p + |s| then s[i - p] else buf[i]
  {
    buf[..p] + s + buf[p + |s|..]
  }

  /** `memcpy(target + at, bytes)`, in place. */
  method Memcpy(target: array<Byte>, at: nat, bytes: seq<Byte>)
    requires at + |bytes| <= target.Length
    modifies target
    ensures target[..] == Splice(old(target[..]), at, bytes)
  {
    forall i | 0 <= i < |bytes| { target[at + i] := bytes[i]; }
  }

  function Zeros(n: nat): (r: seq<Byte>)
    ensures |r| == n
    ensures forall i :: 0 <= i < n ==> r[i] == 0
  {
    seq(n, _ => 0)
  }

  /** Conversion of a C integer to `uint8_t`. */
  function Low(n: int): Byte {
    (n % 256) as bv8
  }

  /** The number an octet stands for. */
  function Val(b: Byte): (n: nat)
    ensures n < 256
  {
    b as nat
  }

  /** The number two octets stand for, most significant first. */
  function Word(high: Byte, low: Byte): U16 { Val(high) * 256 + Val(low) }

  /** `GET16`: the octets `i` and `i + 1` as a number. */
  function Get16(buf: seq<Byte>, i: nat): U16
    requires i + 2 <= |buf|
  {
    Word(buf[i], buf[i + 1])
  }

  /** `n` as two octets, most significant first. */
  function Be16(n: int): (r: seq<Byte>)
    ensures |r| == 2
  {
    [Low(n / 256), Low(n)]
  }

  lemma AtConcat(buf: seq<Byte>, p: nat, a: seq<Byte>, b: seq<Byte>)
    requires At(buf, p, a + b)
    ensures At(buf, p, a) && At(buf, p + |a|, b)
  {
    assert a == (a + b)[..|a|] && b == (a + b)[|a|..];
    assert buf[p..p + |a|] == buf[p..p + |a + b|][..|a|];
    assert buf[p + |a|..p + |a| + |b|] == buf[p..p + |a + b|][|a|..];
  }

  /** Two adjoining copies are one copy. */
  lemma SpliceSplice(buf: seq<Byte>, p: nat, a: seq<Byte>, b: seq<Byte>)
    requires p + |a| + |b| <= |buf|
    ensures Splice(Splice(buf, p, a), p + |a|, b) == Splice(buf, p, a + b)
  {
    var l, r := Splice(Splice(buf, p, a), p + |a|, b), Splice(buf, p, a + b);
    assert |l| == |r| && forall i :: 0 <= i < |l| ==> l[i] == r[i];
  }

  /** A copy placed right after what is already there. */
  lemma AtSplice(buf: seq<Byte>, a: seq<Byte>, b: seq<Byte>)
    requires At(buf, 0, a) && |a| + |b| <= |buf|
    ensures At(Splice(buf, |a|, b), 0, a + b)
  {
    var r := Splice(buf, |a|, b);
    assert forall i :: 0 <= i < |a| ==> r[i] == buf[0..|a|][i];
    assert r[0..|a| + |b|] == a + b;
  }

  lemma Regroup(a: seq<Byte>, b: seq<Byte>, c: seq<Byte>)
    ensures a + (b + c) == (a + b) + c
  {}

  lemma SliceSplit(s: seq<Byte>, a: nat, b: nat, c: nat)
    requires a <= b <= c <= |s|
    ensures s[a..b] + s[b..c] == s[a..c]
  {}

  /** In sixteen ranges, which the solver finds easier than one. */
  lemma ByteValue(m: nat)
    requires m < 256
    ensures (m as bv8) as nat == m
  {
    if m < 64 {
      if m < 16 {} else if m < 32 {} else if m < 48 {} else {}
    } else if m < 128 {
      if m < 80 {} else if m < 96 {} else if m < 112 {} else {}
    } else if m < 192 {
      if m < 144 {} else if m < 160 {} else if m < 176 {} else {}
    } else {
      if m < 208 {} else if m < 224 {} else if m < 240 {} else {}
    }
  }

  lemma LowBits(n: int)
    ensures Val(Low(n)) == n % 256
  {
    ByteValue(n % 256);
  }

  lemma WordOfBe16(n: U16)
    ensures Word(Be16(n)[0], Be16(n)[1]) == n
  {
    hide Val, Low;
    LowBits(n / 256);
    LowBits(n);
    TwoDigits(n);
  }

  lemma Get16At(buf: seq<Byte>, i: nat, n: U16)
    requires At(buf, i, Be16(n))
    ensures Get16(buf, i) == n
  {
    WordOfBe16(n);
    hide Be16, Word;
    var s := buf[i..i + 2];
    assert s[0] == buf[i] && s[1] == buf[i + 1];
  }

  lemma TwoDigits(n: U16)
    ensures n / 256 % 256 * 256 + n % 256 == n
  {}
}
