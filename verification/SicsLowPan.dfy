// sicsLowPan.c in its own form: pointers moving over two packet buffers that
// are written in place. Every method is tied to the functions of Iphc and
// Lowpan, where the properties are proved.
module SicsLowPan {
  import opened Bytes
  import opened Iphc
  import opened Lowpan

  class Adaptation {
    const contexts: Table          // addr_contexts
    const lladdr: LlAddr           // uip_lladdr
    const rime: array<Byte>        // uip_6lp_buf
    const uip: array<Byte>         // uip_buf, which is also sicslowpan_buf
    var hc06: nat                  // hc06_ptr - rime_ptr
    var rimeHdrLen: nat
    var uncompHdrLen: nat
    var uipLen: nat
    var lpLen: nat
    var otherContext: Option<Context>
    var delivered: bool            // whether the last input reached its end

    ghost predicate Valid()
      reads this
    {
      rime.Length == uip.Length >= BUFSIZE && rime != uip && WellFormed(contexts) && uipLen <= uip.Length < 0x1_0000
    }

    constructor (contexts: Table, lladdr: LlAddr, bufsize: nat)
      requires WellFormed(contexts) && BUFSIZE <= bufsize < 0x1_0000
      ensures Valid() && fresh(rime) && fresh(uip)
      ensures this.contexts == contexts && this.lladdr == lladdr && otherContext == None && uipLen == 0
    {
      this.contexts, this.lladdr := contexts, lladdr;
      rime, uip := new Byte[bufsize](_ => 0), new Byte[bufsize](_ => 0);
      hc06, rimeHdrLen, uncompHdrLen, uipLen, lpLen := 0, 0, 0, 0, 0;
      otherContext, delivered := None, false;
    }

    // ------------------------------------------------------------- compression

    /** `memcpy(hc06_ptr, bytes)` and the pointer moved past it. */
    method Put(bytes: seq<Byte>, ghost base: nat)
      requires Valid() && base <= hc06 && hc06 + |bytes| <= rime.Length
      modifies rime, `hc06
      ensures hc06 == old(hc06) + |bytes| && rime[base..hc06] == old(rime[base..hc06]) + bytes
      ensures forall i :: 0 <= i < base ==> rime[i] == old(rime[i])
    {
      forall i | 0 <= i < |bytes| { rime[hc06 + i] := bytes[i]; }
      hc06 := hc06 + |bytes|;
      assert rime[base..hc06] == old(rime[base..hc06]) + bytes;
    }

    method CompressTf(ghost base: nat) returns (iphc0: Byte)
      requires Valid() && base <= hc06 <= 8
      modifies rime, `hc06
      ensures var p := TfPart(uip[..]);
              && iphc0 == p.flags && hc06 == old(hc06) + |p.bytes|
              && rime[base..hc06] == old(rime[base..hc06]) + p.bytes
      ensures forall i :: 0 <= i < base ==> rime[i] == old(rime[i])
    {
      hide SwappedClass;
      ghost var p := TfPart(uip[..]);
      var tmp := SwappedClass(uip[0], uip[1]);
      iphc0 := 0;
      if uip[1] & 0x0F == 0 && uip[2] == 0 && uip[3] == 0 {
        iphc0 := iphc0 | FL_C;
        if uip[0] & 0x0F == 0 && uip[1] & 0xF0 == 0 {
          iphc0 := iphc0 | TC_C;
          assert rime[base..hc06] == rime[base..hc06] + [];
        } else {
          assert p.bytes == [tmp];
          Put([tmp], base);
        }
      } else if uip[0] & 0x0F == 0 && uip[1] & 0xC0 == 0 {
        iphc0 := iphc0 | TC_C;
        assert p.bytes == [(tmp & 0xC0) | (uip[1] & 0x0F), uip[2], uip[3]];
        Put([(tmp & 0xC0) | (uip[1] & 0x0F), uip[2], uip[3]], base);
      } else {
        assert p.bytes == [tmp, uip[1] & 0x0F, uip[2], uip[3]];
        Put([tmp, uip[1] & 0x0F, uip[2], uip[3]], base);
      }
    }

    method CompressNhTtl(ghost base: nat) returns (iphc0: Byte)
      requires Valid() && base <= hc06 <= 8
      modifies rime, `hc06
      ensures var n, l := NhPart(uip[..]), TtlPart(uip[..]);
              iphc0 == n.flags | l.flags && hc06 == old(hc06) + |n.bytes| + |l.bytes|
              && rime[base..hc06] == old(rime[base..hc06]) + (n.bytes + l.bytes)
      ensures forall i :: 0 <= i < base ==> rime[i] == old(rime[i])
    {
      ghost var before, n, l := rime[base..hc06], NhPart(uip[..]), TtlPart(uip[..]);
      iphc0 := 0;
      if uip[6] == PROTO_UDP { iphc0 := iphc0 | NH_C; }
      if iphc0 & NH_C == 0 {
        Put([uip[6]], base);
      }
      assert rime[base..hc06] == before + n.bytes;
      match uip[7] {
        case 1 => iphc0 := iphc0 | 1;
        case 64 => iphc0 := iphc0 | 2;
        case 255 => iphc0 := iphc0 | 3;
        case _ => Put([uip[7]], base);
      }
      assert before + n.bytes + l.bytes == before + (n.bytes + l.bytes);
    }

    method CompressAddr64(a: Addr, ll: LlAddr, ghost base: nat) returns (mode: Byte)
      requires Valid() && base <= hc06 <= 40
      modifies rime, `hc06
      ensures mode == IidPart(a, ll).flags && hc06 == old(hc06) + |IidPart(a, ll).bytes|
      ensures rime[base..hc06] == old(rime[base..hc06]) + IidPart(a, ll).bytes
      ensures forall i :: 0 <= i < base ==> rime[i] == old(rime[i])
    {
      if MacBased(a, ll) {
        mode := 3;
        assert rime[base..hc06] == rime[base..hc06] + [];
      } else if Iid16(a) {
        Put(a[14..], base);
        mode := 2;
      } else {
        Put(a[8..], base);
        mode := 1;
      }
    }

    method CompressSrc(cid: bool, ghost base: nat) returns (iphc1: Byte)
      requires Valid() && base == (if cid then 3 else 2) <= hc06 <= 12
      modifies rime, `hc06
      ensures var p := SrcPart(contexts, uip[..], lladdr);
              iphc1 == p.flags && hc06 == old(hc06) + |p.bytes| && rime[base..hc06] == old(rime[base..hc06]) + p.bytes
      ensures cid ==> rime[2] == old(rime[2]) | SciBits(contexts, uip[..])
    {
      var src := uip[8..24];
      assert src == Src(uip[..]) && uip[24..40] == Dst(uip[..]);
      iphc1 := 0;
      if Unspecified(src) {
        iphc1 := iphc1 | SAC;
        assert rime[base..hc06] == rime[base..hc06] + [];
      } else {
        var context := ByPrefix(contexts, src);
        if context.Some? {
          iphc1 := iphc1 | SAC;
          if cid { rime[2] := rime[2] | (context.value.number << 4); }
          assert rime[base..hc06] == old(rime[base..hc06]);
          var mode := CompressAddr64(src, lladdr, base);
          iphc1 := iphc1 | (mode << 4);
        } else if LinkLocal(src) && uip[24..40][2..8] == Zeros(6) {
          var mode := CompressAddr64(src, lladdr, base);
          iphc1 := iphc1 | (mode << 4);
        } else {
          Put(src, base);
        }
      }
    }

    method CompressDst(cid: bool, ll: LlAddr, ghost base: nat) returns (iphc1: Byte)
      requires Valid() && base == (if cid then 3 else 2) <= hc06 <= 28
      modifies rime, `hc06
      ensures var p := DstPart(contexts, uip[..], ll);
              iphc1 == p.flags && hc06 == old(hc06) + |p.bytes| && rime[base..hc06] == old(rime[base..hc06]) + p.bytes
      ensures cid ==> rime[2] == old(rime[2]) | DciBits(contexts, uip[..])
    {
      var dst := uip[24..40];
      assert dst == Dst(uip[..]);
      iphc1 := 0;
      if Multicast(dst) {
        iphc1 := iphc1 | M;
        if ByMcastPrefix(contexts, dst).Some? {
          iphc1 := iphc1 | DAC;
          Put(dst[1..3] + dst[12..], base);
        } else if Mcast8(dst) {
          iphc1 := iphc1 | 3;
          Put([dst[15]], base);
        } else if Mcast32(dst) {
          iphc1 := iphc1 | 2;
          Put([dst[1]] + dst[13..], base);
        } else if Mcast48(dst) {
          iphc1 := iphc1 | 1;
          Put([dst[1]] + dst[11..], base);
        } else {
          Put(dst, base);
        }
      } else {
        var context := ByPrefix(contexts, dst);
        if context.Some? {
          iphc1 := iphc1 | DAC;
          if cid { rime[2] := rime[2] | context.value.number; }
          assert rime[base..hc06] == old(rime[base..hc06]);
          var mode := CompressAddr64(dst, ll, base);
          iphc1 := iphc1 | mode;
        } else if LinkLocal(dst) && dst[2..8] == Zeros(6) {
          iphc1 := CompressAddr64(dst, ll, base);
        } else {
          Put(dst, base);
        }
      }
    }

    method CompressUdp(ghost base: nat)
      requires Valid() && base <= hc06 <= 44
      modifies rime, `hc06, `uncompHdrLen
      ensures hc06 == old(hc06) + |UdpPart(uip[..])| && rime[base..hc06] == old(rime[base..hc06]) + UdpPart(uip[..])
      ensures forall i :: 0 <= i < base ==> rime[i] == old(rime[i])
      ensures uncompHdrLen == HeaderLen(uip[..])
    {
      hide PortsPart, Port4, Port8;
      ghost var before := rime[base..hc06];
      uncompHdrLen := IPH_LEN;
      if uip[6] == PROTO_UDP {
        var src, dst, sum := uip[40..42], uip[42..44], uip[46..48];
        ghost var ports := PortsPart(src, dst);
        assert src == uip[..][40..42] && dst == uip[..][42..44] && sum == uip[..][46..48];
        CompressPorts(src, dst, base);
        Put(sum, base);
        Regroup(before, ports, sum);
        uncompHdrLen := uncompHdrLen + 8;
      } else {
        assert before == before + [];
      }
    }

    /** The two ports in the shortest form they have. */
    method CompressPorts(src: seq<Byte>, dst: seq<Byte>, ghost base: nat)
      requires Valid() && base <= hc06 <= 44 && |src| == |dst| == 2
      modifies rime, `hc06
      ensures hc06 == old(hc06) + |PortsPart(src, dst)| && rime[base..hc06] == old(rime[base..hc06]) + PortsPart(src, dst)
      ensures forall i :: 0 <= i < base ==> rime[i] == old(rime[i])
    {
      if Port4(src) && Port4(dst) {
        Put([0xF3, ((src[1] - 0xB0) << 4) + (dst[1] - 0xB0)], base);
      } else if Port8(dst) {
        Put([0xF1, src[0], src[1], dst[1]], base);
      } else if Port8(src) {
        Put([0xF2, src[1], dst[0], dst[1]], base);
      } else {
        Put([0xF0, src[0], src[1], dst[0], dst[1]], base);
      }
    }

    /** Whether the third octet is needed, which also refreshes `otherContext`. */
    method ChooseCid() returns (cid: bool)
      requires Valid()
      modifies `otherContext
      ensures cid == SendsCid(contexts, old(otherContext), uip[..])
      ensures otherContext == NextOther(contexts, old(otherContext), uip[..])
    {
      assert uip[8..24] == Src(uip[..]) && uip[24..40] == Dst(uip[..]);
      var context := ByPrefix(contexts, uip[24..40]);
      if context.Some? {
        otherContext := ByPrefix(contexts, uip[8..24]);
      }
      if context.Some? && otherContext.Some? {
        cid := !(context.value.number == 0 && otherContext.value.number == 0);
      } else {
        cid := context.Some? || otherContext.Some?;
      }
    }

    /** The fields after the encoding octets, context octet included. */
    method CompressFields(cid: bool, dest: LlAddr) returns (iphc0: Byte, iphc1: Byte)
      requires Valid() && hc06 == (if cid then 3 else 2)
      modifies this`hc06, this`uncompHdrLen, rime
      ensures uncompHdrLen == HeaderLen(uip[..]) && old(hc06) <= hc06 <= rime.Length
      ensures iphc0 == DISPATCH_IPHC | TfPart(uip[..]).flags | (NhPart(uip[..]).flags | TtlPart(uip[..]).flags)
      ensures iphc1 == (if cid then 0 | CID else 0)
                       | SrcPart(contexts, uip[..], lladdr).flags | DstPart(contexts, uip[..], dest).flags
      ensures cid ==> rime[2] == 0 | SciBits(contexts, uip[..]) | DciBits(contexts, uip[..])
      ensures rime[old(hc06)..hc06]
              == TfPart(uip[..]).bytes + (NhPart(uip[..]).bytes + TtlPart(uip[..]).bytes)
                 + SrcPart(contexts, uip[..], lladdr).bytes + DstPart(contexts, uip[..], dest).bytes + UdpPart(uip[..])
    {
      hide TfPart, NhPart, TtlPart, SrcPart, DstPart, UdpPart, SciBits, DciBits;
      ghost var ip, base := uip[..], hc06;
      rime[2] := 0;
      iphc0, iphc1 := DISPATCH_IPHC, if cid then 0 | CID else 0;
      assert rime[base..hc06] == [];
      var f := CompressTf(base);
      iphc0 := iphc0 | f;
      assert rime[base..hc06] == TfPart(ip).bytes;
      f := CompressNhTtl(base);
      iphc0 := iphc0 | f;
      f := CompressSrc(cid, base);
      iphc1 := iphc1 | f;
      f := CompressDst(cid, dest, base);
      iphc1 := iphc1 | f;
      CompressUdp(base);
    }

    /** `compress_hdr_hc06`. */
    method CompressHdr(dest: LlAddr)
      requires Valid()
      modifies this`hc06, this`rimeHdrLen, this`uncompHdrLen, this`otherContext, rime
      ensures rimeHdrLen <= IPUDPH_LEN && uncompHdrLen == HeaderLen(uip[..])
      ensures rime[..rimeHdrLen] == Compress(contexts, old(otherContext), uip[..], lladdr, dest)
      ensures otherContext == NextOther(contexts, old(otherContext), uip[..])
    {
      hide TfPart, NhPart, TtlPart, SrcPart, DstPart, UdpPart, SendsCid, NextOther, SciBits, DciBits, Compress;
      hc06 := 2;
      var cid := ChooseCid();
      if cid { hc06 := hc06 + 1; }
      ghost var base := hc06;
      var iphc0, iphc1 := CompressFields(cid, dest);
      Assemble(contexts, old(otherContext), uip[..], lladdr, dest, iphc0, iphc1, cid, rime[2..base], rime[base..hc06]);
      rime[0], rime[1] := iphc0, iphc1;
      rimeHdrLen := hc06;
      HeadAndTail(rime[..], base, hc06);
      CompressedSize(contexts, old(otherContext), uip[..], lladdr, dest);
    }

    // ----------------------------------------------------------- decompression

    method UncompressTf(iphc0: Byte, target: array<Byte>)
      requires Valid() && hc06 + 4 <= BUFSIZE && target != rime && target.Length >= IPUDPH_LEN
      modifies target, `hc06
      ensures var r := ReadTf(iphc0, rime[..], old(hc06));
              target[..] == Splice(old(target[..]), 0, r.0) && hc06 == r.1
    {
      if iphc0 & FL_C == 0 {
        if iphc0 & TC_C == 0 {
          var tmp, rest := rime[hc06], rime[hc06 + 1..hc06 + 4];
          hc06 := hc06 + 4;
          Memcpy(target, 0, [0x60 | ((tmp >> 2) & 0x0F), ((tmp >> 2) & 0x30) | (tmp << 6) | (rest[0] & 0x0F), rest[1], rest[2]]);
        } else {
          Memcpy(target, 0, [0x60, (rime[hc06] & 0x0F) | ((rime[hc06] >> 2) & 0x30), rime[hc06 + 1], rime[hc06 + 2]]);
          hc06 := hc06 + 3;
        }
      } else if iphc0 & TC_C == 0 {
        Memcpy(target, 0, [0x60 | ((rime[hc06] >> 2) & 0x0F), ((rime[hc06] << 6) & 0xC0) | ((rime[hc06] >> 2) & 0x30), 0, 0]);
        hc06 := hc06 + 1;
      } else {
        Memcpy(target, 0, [0x60, 0, 0, 0]);
      }
    }

    method UncompressNhTtl(iphc0: Byte, target: array<Byte>)
      requires Valid() && hc06 + 2 <= BUFSIZE && target != rime && target.Length >= IPUDPH_LEN
      modifies target, `hc06
      ensures var n := ReadNh(iphc0, rime[..], old(hc06));
              var l := ReadTtl(iphc0, rime[..], n.1);
              var b := if n.0.Some? then old(target[..])[6 := n.0.value] else old(target[..]);
              target[..] == b[7 := l.0] && hc06 == l.1
    {
      if iphc0 & NH_C == 0 {
        target[6] := rime[hc06];
        hc06 := hc06 + 1;
      }
      var m := iphc0 & 0x03;
      if m == 1 {
        target[7] := 1;
      } else if m == 2 {
        target[7] := 64;
      } else if m == 3 {
        target[7] := 255;
      } else {
        target[7] := rime[hc06];
        hc06 := hc06 + 1;
      }
    }

    /** The prefix and the run of zeros that `uncompress_addr` starts with. */
    method StorePrefix(target: array<Byte>, at: nat, prefix: seq<Byte>, pref: nat, zeros: nat)
      requires at + pref + zeros <= target.Length && pref <= |prefix|
      modifies target
      ensures target[..] == Splice(old(target[..]), at, prefix[..pref] + Zeros(zeros))
    {
      ghost var was := target[..];
      Memcpy(target, at, prefix[..pref]);
      Memcpy(target, at + pref, Zeros(zeros));
      SpliceSplice(was, at, prefix[..pref], Zeros(zeros));
    }

    /** The 0xff, 0xfe of a 16-bit interface identifier. */
    method MarkIid(target: array<Byte>, at: nat, ghost was: seq<Byte>, ghost a: seq<Byte>)
      requires |a| == 16 && at + 16 <= |was| && target[..] == Splice(was, at, a)
      modifies target
      ensures target[..] == Splice(was, at, a[11 := 0xff][12 := 0xfe])
    {
      SpliceMarks(was, at, a);
      target[at + 11], target[at + 12] := 0xff, 0xfe;
    }

    /** `uncompress_addr`, with the two counts already unpacked. */
    method UncompressAddr(target: array<Byte>, at: nat, prefix: seq<Byte>, pref: nat, post: nat, ll: LlAddr)
      requires Valid() && target != rime && at + 16 <= target.Length
      requires pref <= |prefix| && pref + post <= 16 && pref <= 8 && hc06 + post <= BUFSIZE
      modifies target, `hc06
      ensures var r := ReadAddr(prefix, pref, post, ll, rime[..], old(hc06));
              target[..] == Splice(old(target[..]), at, r.0) && hc06 == r.1
    {
      hide Splice, IidOf;
      ghost var was := target[..];
      StorePrefix(target, at, prefix, pref, 16 - pref - post);
      ghost var head := prefix[..pref] + Zeros(16 - pref - post);
      if post > 0 {
        var tail := rime[hc06..hc06 + post];
        assert tail == rime[..][hc06..hc06 + post];
        Memcpy(target, at + 16 - post, tail);
        SpliceSplice(was, at, head, tail);
        hc06 := hc06 + post;
        if post == 2 { MarkIid(target, at, was, head + tail); }
      } else if pref > 0 {
        Memcpy(target, at + 8, IidOf(ll));
        SpliceTail(was, at, prefix[..pref], 16 - pref, 8 - pref, IidOf(ll));
      } else {
        assert head == Zeros(16);
      }
    }

    method UncompressSrc(iphc1: Byte, cid: Byte, ll: LlAddr, target: array<Byte>) returns (ok: bool)
      requires Valid() && hc06 + 16 <= BUFSIZE && target != rime && target.Length >= IPUDPH_LEN
      modifies target, `hc06
      ensures var r := ReadSrc(contexts, iphc1, cid, ll, rime[..], old(hc06));
              ok == r.Some? && if ok then target[..] == Splice(old(target[..]), 8, r.value.0) && hc06 == r.value.1
                               else target[..] == old(target[..])
    {
      var mode := (iphc1 >> 4) & 0x03;
      if iphc1 & SAC != 0 {
        if mode == 0 {
          UncompressAddr(target, 8, [], 0, 0, ll);
        } else {
          var context := ByNumber(contexts, if iphc1 & CID != 0 then cid >> 4 else 0);
          if context.None? { return false; }
          UncompressAddr(target, 8, context.value.prefix, 8, if mode == 1 then 8 else if mode == 2 then 2 else 0, ll);
        }
      } else if mode == 0 {
        UncompressAddr(target, 8, [], 0, 16, ll);
      } else {
        UncompressAddr(target, 8, LL_PREFIX, 2, if mode == 1 then 8 else if mode == 2 then 2 else 0, ll);
      }
      return true;
    }

    method UncompressDst(iphc1: Byte, cid: Byte, ll: LlAddr, target: array<Byte>) returns (ok: bool)
      requires Valid() && hc06 + 16 <= BUFSIZE && target != rime && target.Length >= IPUDPH_LEN
      modifies target, `hc06
      ensures var r := ReadDst(contexts, iphc1, cid, ll, rime[..], old(hc06));
              ok == r.Some? && if ok then target[..] == Splice(old(target[..]), 24, r.value.0) && hc06 == r.value.1
                               else target[..] == old(target[..])
    {
      var mode := iphc1 & 0x03;
      if iphc1 & M != 0 {
        if iphc1 & DAC != 0 {
          ShiftedFlags(iphc1);
          if (iphc1 as bv16) << 6 != 0 { return false; }
        }
        var prefix: seq<Byte> := [0xFF, 0x02];
        if mode == 1 || mode == 2 {
          prefix := [0xFF, rime[hc06]];
          hc06 := hc06 + 1;
        }
        if mode == 0 {
          UncompressAddr(target, 24, [], 0, 16, ll);
        } else {
          UncompressAddr(target, 24, prefix, 2, if mode == 1 then 5 else if mode == 2 then 3 else 1, ll);
        }
      } else if iphc1 & DAC != 0 {
        var context := ByNumber(contexts, if iphc1 & CID != 0 then cid & 0x0F else 0);
        if context.None? { return false; }
        if mode == 0 {
          UncompressAddr(target, 24, [], 0, 0, ll);
        } else {
          UncompressAddr(target, 24, context.value.prefix, 8, if mode == 1 then 8 else if mode == 2 then 2 else 0, ll);
        }
      } else if mode == 0 {
        UncompressAddr(target, 24, [], 0, 16, ll);
      } else {
        UncompressAddr(target, 24, LL_PREFIX, 2, if mode == 1 then 8 else if mode == 2 then 2 else 0, ll);
      }
      return true;
    }

    method UncompressPorts(target: array<Byte>)
      requires Valid() && hc06 + 5 <= BUFSIZE && target != rime && target.Length >= IPUDPH_LEN
      modifies target, `hc06
      ensures var r := ReadPorts(rime[..], old(hc06)); target[..] == Splice(old(target[..]), 40, r.0) && hc06 == r.1
    {
      var m, q := rime[hc06] & 0x03, hc06 + 1;
      if m == 0 {
        Memcpy(target, 40, [rime[q], rime[q + 1], rime[q + 2], rime[q + 3]]);
        hc06 := hc06 + 5;
      } else if m == 1 {
        Memcpy(target, 40, [rime[q], rime[q + 1], 0xF0, rime[q + 2]]);
        hc06 := hc06 + 4;
      } else if m == 2 {
        Memcpy(target, 40, [0xF0, rime[q], rime[q + 1], rime[q + 2]]);
        hc06 := hc06 + 4;
      } else {
        Memcpy(target, 40, [0xF0, 0xB0 + (rime[q] >> 4), 0xF0, 0xB0 + (rime[q] & 0x0F)]);
        hc06 := hc06 + 2;
      }
    }

    method UncompressUdp(target: array<Byte>) returns (found: bool)
      requires Valid() && hc06 + 7 <= BUFSIZE && target != rime && target.Length >= IPUDPH_LEN
      modifies target, `hc06
      ensures var r := ReadUdp(rime[..], old(hc06));
              && found == r.Some?
              && (if found then
                    var c := Splice(old(target[..])[6 := PROTO_UDP], 40, r.value.0);
                    target[..] == (if r.value.1.Some? then Splice(c, 46, r.value.1.value) else c) && hc06 == r.value.2
                  else target[..] == old(target[..]) && hc06 == old(hc06))
    {
      hide ReadPorts;
      var nhc := rime[hc06];
      found := nhc & 0xF8 == NHC_UDP;
      if found {
        target[6] := PROTO_UDP;
        UncompressPorts(target);
        if nhc & NHC_UDP_CHECKSUMC == 0 {
          assert rime[hc06..hc06 + 2] == rime[..][hc06..hc06 + 2];
          Memcpy(target, 46, rime[hc06..hc06 + 2]);
          hc06 := hc06 + 2;
        }
      }
    }

    /** The UDP header if one follows, then both length fields. */
    method UncompressRest(iphc0: Byte, ipLen: nat, lpLen: nat, target: array<Byte>)
      requires Valid() && hc06 + 7 <= BUFSIZE && target != rime && target.Length >= IPUDPH_LEN && uncompHdrLen == 0
      modifies target, `hc06, `uncompHdrLen, `rimeHdrLen
      ensures DecompressRest(rime[..], iphc0, old(hc06), ipLen, lpLen, old(target[..]))
              == Decoded(target[..], rimeHdrLen, uncompHdrLen, true)
    {
      hide ReadUdp, LengthField, Splice;
      uncompHdrLen := uncompHdrLen + IPH_LEN;
      if iphc0 & NH_C != 0 {
        var found := UncompressUdp(target);
        if found { uncompHdrLen := uncompHdrLen + 8; }
      }
      rimeHdrLen := hc06;
      Memcpy(target, 4, LengthField(ipLen, lpLen, rimeHdrLen, uncompHdrLen));
      if target[6] == PROTO_UDP {
        assert target[4..6] == target[..][4..6];
        Memcpy(target, 44, target[4..6]);
      }
    }

    /** `uncompress_hdr_hc06`, into `target`. */
    method UncompressHdr(ipLen: nat, snd: LlAddr, rcv: LlAddr, frameLen: nat, target: array<Byte>) returns (ghost ok: bool)
      requires Valid() && target != rime && target.Length >= IPUDPH_LEN && rimeHdrLen + 2 + MAX_HDR <= BUFSIZE
        && uncompHdrLen == 0
      modifies target, `hc06, `uncompHdrLen, `rimeHdrLen
      ensures Decompress(contexts, rime[..], old(rimeHdrLen), snd, rcv, ipLen, frameLen, old(target[..]))
              == Decoded(target[..], rimeHdrLen, uncompHdrLen, ok)
    {
      hide ReadTf, ReadNh, ReadTtl, DecompressAddresses, Splice;
      hc06 := rimeHdrLen + 2;
      var iphc0, iphc1 := rime[rimeHdrLen], rime[rimeHdrLen + 1];
      if iphc1 & CID != 0 { hc06 := hc06 + 1; }
      UncompressTf(iphc0, target);
      UncompressNhTtl(iphc0, target);
      ok := UncompressAddresses(ipLen, snd, rcv, frameLen, target);
    }

    /** From the addresses on. */
    method UncompressAddresses(ipLen: nat, snd: LlAddr, rcv: LlAddr, frameLen: nat, target: array<Byte>) returns (ghost ok: bool)
      requires Valid() && target != rime && target.Length >= IPUDPH_LEN && rimeHdrLen + 2 < BUFSIZE
        && uncompHdrLen == 0 && hc06 + 39 <= BUFSIZE
      modifies target, `hc06, `uncompHdrLen, `rimeHdrLen
      ensures DecompressAddresses(contexts, rime[..], old(rimeHdrLen), snd, rcv, ipLen, frameLen, old(hc06), old(target[..]))
              == Decoded(target[..], rimeHdrLen, uncompHdrLen, ok)
    {
      hide ReadSrc, ReadDst, DecompressRest, Splice;
      var iphc0, iphc1, cid := rime[rimeHdrLen], rime[rimeHdrLen + 1], rime[rimeHdrLen + 2];
      var found := UncompressSrc(iphc1, cid, snd, target);
      if !found { return false; }
      found := UncompressDst(iphc1, cid, rcv, target);
      if !found { return false; }
      UncompressRest(iphc0, ipLen, frameLen, target);
      return true;
    }

    // ---------------------------------------------------------- output and input

    /** `output`: whether the packet in `uip` was handed to the MAC, and in which frame. */
    method Output(dest: LlAddr) returns (sent: bool)
      requires Valid()
      modifies this`hc06, this`rimeHdrLen, this`uncompHdrLen, this`lpLen, this`otherContext, rime
      ensures otherContext == NextOther(contexts, old(otherContext), uip[..])
      ensures sent <==> Fits(uipLen, uip[..], |Compress(contexts, old(otherContext), uip[..], lladdr, dest)|)
      ensures sent ==> HeaderLen(uip[..]) <= uipLen
      ensures sent ==> var f := Frame(contexts, old(otherContext), uip[..], uipLen, lladdr, dest);
                       lpLen == |f| && At(rime[..], 0, f)
    {
      hide Compress, NextOther;
      ghost var ip := uip[..];
      uncompHdrLen, rimeHdrLen := 0, 0;
      forall i | 0 <= i < rime.Length { rime[i] := 0; }
      assert uip[..] == ip;
      CompressHdr(dest);
      ghost var c := Compress(contexts, old(otherContext), ip, lladdr, dest);
      assert |c| == rimeHdrLen;
      if (uipLen - uncompHdrLen) % 0x1_0000 > MAC_MAX_PAYLOAD - rimeHdrLen {
        return false;
      }
      assert uncompHdrLen == HeaderLen(ip) <= uipLen;
      assert At(rime[..], 0, c);
      AtSplice(rime[..], c, ip[uncompHdrLen..uipLen]);
      assert uip[uncompHdrLen..uipLen] == ip[uncompHdrLen..uipLen];
      Memcpy(rime, rimeHdrLen, uip[uncompHdrLen..uipLen]);
      lpLen := uipLen - uncompHdrLen + rimeHdrLen;
      assert uip[..] == ip;
      return true;
    }

    /** `input`: the frame in `rime` turned back into a packet in `uip`. */
    method Input(snd: LlAddr, rcv: LlAddr)
      requires Valid() && lpLen <= MAC_MAX_PAYLOAD
      modifies this`hc06, this`rimeHdrLen, this`uncompHdrLen, this`uipLen, this`delivered, uip
      ensures Valid()
      ensures Receive(contexts, rime[..], lpLen, snd, rcv, old(uip[..]))
              == Received(uip[..], if delivered then Some(uipLen) else None)
      ensures !delivered ==> uipLen == old(uipLen)
    {
      hide Decompress, Splice;
      delivered := false;
      uncompHdrLen, rimeHdrLen := 0, 0;
      if rime[0] & DISPATCH_MASK == DISPATCH_IPHC {
        var _ := UncompressHdr(0, snd, rcv, lpLen, uip);
      } else if rime[0] == DISPATCH_IPV6 {
        rimeHdrLen := rimeHdrLen + 1;
        assert rime[rimeHdrLen..rimeHdrLen + IPH_LEN] == rime[..][1..1 + IPH_LEN];
        Memcpy(uip, 0, rime[rimeHdrLen..rimeHdrLen + IPH_LEN]);
        rimeHdrLen := rimeHdrLen + IPH_LEN;
        uncompHdrLen := uncompHdrLen + IPH_LEN;
      } else {
        return;
      }
      if lpLen < rimeHdrLen {
        return;
      }
      assert rime[rimeHdrLen..lpLen] == rime[..][rimeHdrLen..lpLen];
      Memcpy(uip, uncompHdrLen, rime[rimeHdrLen..lpLen]);
      uipLen := lpLen - rimeHdrLen + uncompHdrLen;
      delivered := true;
    }
  }

  lemma HeadAndTail(s: seq<Byte>, m: nat, n: nat)
    requires 2 <= m <= n <= |s|
    ensures s[..n] == [s[0], s[1]] + s[2..m] + s[m..n]
  {}

  /** Fields in order, behind the encoding octets: the compressed header. */
  lemma Assemble(t: Table, other: Option<Context>, ip: seq<Byte>, sll: LlAddr, dll: LlAddr,
                 iphc0: Byte, iphc1: Byte, cid: bool, first: seq<Byte>, body: seq<Byte>)
    requires |ip| >= IPUDPH_LEN && cid == SendsCid(t, other, ip)
    requires iphc0 == DISPATCH_IPHC | TfPart(ip).flags | (NhPart(ip).flags | TtlPart(ip).flags)
    requires iphc1 == (if cid then 0 | CID else 0) | SrcPart(t, ip, sll).flags | DstPart(t, ip, dll).flags
    requires first == if cid then [0 | SciBits(t, ip) | DciBits(t, ip)] else []
    requires body == TfPart(ip).bytes + (NhPart(ip).bytes + TtlPart(ip).bytes) + SrcPart(t, ip, sll).bytes
                     + DstPart(t, ip, dll).bytes + UdpPart(ip)
    ensures [iphc0, iphc1] + first + body == Compress(t, other, ip, sll, dll)
  {
    hide TfPart, NhPart, TtlPart, SrcPart, DstPart, UdpPart, SendsCid, SciBits, DciBits;
    var f := InlineFields(t, other, ip, sll, dll);
    assert first == f.cid && first + body == f.Join();
    assert [iphc0, iphc1] + first + body == [iphc0, iphc1] + (first + body);
  }

  /** The test on `iphc1 << 6` in 16-bit arithmetic rejects every context-based multicast form. */
  lemma ShiftedFlags(iphc1: Byte)
    requires iphc1 & DAC != 0
    ensures (iphc1 as bv16) << 6 != 0
  {}

  /** Writing 0xff, 0xfe over an address just stored. */
  lemma SpliceMarks(was: seq<Byte>, at: nat, a: seq<Byte>)
    requires |a| == 16 && at + 16 <= |was|
    ensures Splice(was, at, a)[at + 11 := 0xff][at + 12 := 0xfe] == Splice(was, at, a[11 := 0xff][12 := 0xfe])
  {}

  /** Writing an identifier over the second half of an address just zeroed. */
  lemma SpliceTail(was: seq<Byte>, at: nat, x: seq<Byte>, z: nat, keep: nat, iid: seq<Byte>)
    requires keep + |iid| == z && at + |x| + z <= |was|
    ensures Splice(Splice(was, at, x + Zeros(z)), at + |x| + keep, iid) == Splice(was, at, x + Zeros(keep) + iid)
  {
    var l, r := Splice(Splice(was, at, x + Zeros(z)), at + |x| + keep, iid), Splice(was, at, x + Zeros(keep) + iid);
    forall i | 0 <= i < |was| ensures l[i] == r[i] {}
  }
}
