/** UDP and IP headers with their checksums, built in one buffer (lib/udp.c, lib/ipv4.c). */
module UdpFrames {
  import opened Arith
  import opened Octets

  const IP_END: nat := 20
  const UDP_VIRT: nat := 8     // the pseudo-header overlaps the end of the IP header
  const UDP_CHECKSUM: nat := 26
  const UDP_END: nat := 28

  // ---------------------------------------------------------------------------------------------
  // One's-complement sums
  // ---------------------------------------------------------------------------------------------

  /** Sum of the 16-bit big-endian words of the bytes, an odd one padded with zero. */
  function WordSum(b: Bytes): nat {
    if b == [] then 0
    else WordSum(b[..|b|-1]) + b[|b|-1] as int * if |b| % 2 == 1 then 256 else 1
  }

  /** The one's-complement sum: end-around carries added until 16 bits remain. */
  function Fold(s: nat): nat {
    if s < 0x1_0000 then s else Fold(s / 0x1_0000 + s % 0x1_0000)
  }

  lemma {:induction false} FoldIsResidue(s: nat)
    ensures Fold(s) == if s == 0 then 0 else 1 + (s - 1) % 0xffff
  {
    if s < 0x1_0000 {
      if s > 0 { DivModUnique(s - 1, 0xffff, 0, s - 1); }
    } else {
      var h, l := s / 0x1_0000, s % 0x1_0000;
      var t := h + l;
      FoldIsResidue(t);
      DivMod(t - 1, 0xffff);
      DivModUnique(s - 1, 0xffff, (t - 1) / 0xffff + h, (t - 1) % 0xffff);
    }
  }

  lemma TwoCarries(s: nat)
    requires s < 0x1_0000_0000
    ensures var s1 := s / 0x1_0000 + s % 0x1_0000; Fold(s) == (s1 + s1 / 0x1_0000) % 0x1_0000
  {
    var s1 := s / 0x1_0000 + s % 0x1_0000;
    assert s / 0x1_0000 < 0x1_0000;
    assert Fold(s) == Fold(s1) by { assert s < 0x1_0000 ==> s1 == s; }
    if s1 >= 0x1_0000 {
      DivModUnique(s1, 0x1_0000, 1, s1 - 0x1_0000);
      DivModUnique(s1 + 1, 0x1_0000, 1, s1 - 0xffff);
    }
  }

  /** The two carries of the code are enough for a 32-bit sum. */
  function Checksum(s: nat): nat
    requires s < 0x1_0000_0000
    ensures Checksum(s) == 0xffff - Fold(s)
  {
    TwoCarries(s);
    var s1 := s / 0x1_0000 + s % 0x1_0000;
    var s2 := s1 + s1 / 0x1_0000;
    0xffff - s2 % 0x1_0000
  }

  /** Adding the checksum to the sum it was computed from gives all ones; so does 0xffff in place of
      a zero checksum. */
  lemma ChecksumCompletes(s: nat, c: nat)
    requires s < 0x1_0000_0000
    requires c == Checksum(s) || (Checksum(s) == 0 && c == 0xffff)
    ensures Fold(s + c) == 0xffff
  {
    FoldIsResidue(s);
    FoldIsResidue(s + c);
    if s > 0 {
      var q := (s - 1) / 0xffff;
      DivModUnique(s + c - 1, 0xffff, if c == Checksum(s) then q else q + 1, 0xfffe);
    }
  }

  lemma {:induction false} WordSumConcat(a: Bytes, b: Bytes)
    requires |a| % 2 == 0
    ensures WordSum(a + b) == WordSum(a) + WordSum(b)
  {
    if b == [] {
      assert a + b == a;
    } else {
      WordSumConcat(a, b[..|b|-1]);
      assert (a + b)[..|a+b|-1] == a + b[..|b|-1];
    }
  }

  lemma WordSumPair(x: u8, y: u8)
    ensures WordSum([x, y]) == 256 * x as int + y as int
  {
    assert [x, y][..1] == [x] && [x][..0] == [];
    assert WordSum([x]) == WordSum([]) + x as int * 256;
  }

  lemma WordSumNext(b: Bytes, k: nat, x: u8, y: u8)
    requires k % 2 == 0 && k + 2 <= |b| && b[k] == x && b[k+1] == y
    ensures WordSum(b[..k+2]) == WordSum(b[..k]) + (256 * x as int + y as int)
  {
    assert b[..k+2] == b[..k] + [x, y];
    WordSumConcat(b[..k], [x, y]);
    WordSumPair(x, y);
  }

  lemma {:induction false} WordSumBound(b: Bytes)
    ensures WordSum(b) <= 0xff00 * |b|
  {
    if b != [] { WordSumBound(b[..|b|-1]); }
  }

  lemma WordSumPadded(b: Bytes)
    ensures WordSum(b + [0]) == WordSum(b)
  {
    assert (b + [0])[..|b|] == b;
  }

  /** A zero 16-bit field at an even offset, filled with `c`, adds `c`. */
  lemma FillField(a: Bytes, c: nat, b: Bytes)
    requires |a| % 2 == 0 && c < 0x1_0000
    ensures WordSum(a + ToBE(c, 2) + b) == WordSum(a + [0, 0] + b) + c
  {
    WordSumConcat(a + ToBE(c, 2), b);
    WordSumConcat(a, ToBE(c, 2));
    WordSumConcat(a + [0, 0], b);
    WordSumConcat(a, [0, 0]);
    WordSumPair(0, 0);
    Be2(c);
    WordSumPair((c / 256) as u8, (c % 256) as u8);
  }

  lemma Be2(c: nat)
    requires c < 0x1_0000
    ensures ToBE(c, 2) == [(c / 256) as u8, (c % 256) as u8]
  {
    assert ToBE(c / 256, 1) == ToBE(c / 256 / 256, 0) + [(c / 256 % 256) as u8];
  }

  // ---------------------------------------------------------------------------------------------
  // Headers
  // ---------------------------------------------------------------------------------------------

  /** Addresses and ports as they go on the wire. */
  datatype UdpAddr = UdpAddr(saddr: Bytes, daddr: Bytes, sport: Bytes, dport: Bytes) {
    predicate Good() {
      |saddr| == 4 && |daddr| == 4 && |sport| == 2 && |dport| == 2
    }
  }

  /** The addresses of a reply: those of the received frame, swapped. */
  function ReplyTo(buf: Bytes): UdpAddr
    requires |buf| >= UDP_END
  {
    UdpAddr(buf[16..20], buf[12..16], buf[22..24], buf[20..22])
  }

  /** RFC 768: addresses, zero, protocol and length. */
  function PseudoHeader(a: UdpAddr, udpLen: nat): Bytes
    requires a.Good()
  {
    a.saddr + a.daddr + [0, 0x11] + ToBE(udpLen, 2)
  }

  function UdpHeader(a: UdpAddr, udpLen: nat, checksum: nat): Bytes
    requires a.Good()
  {
    a.sport + a.dport + ToBE(udpLen, 2) + ToBE(checksum, 2)
  }

  function IpHeader(a: UdpAddr, len: nat, checksum: nat): (h: Bytes)
    requires a.Good()
    ensures |h| == IP_END
  {
    [0x45, 0] + ToBE(len, 2) + [0, 0, 0, 0, 63, 17] + ToBE(checksum, 2) + a.saddr + a.daddr
  }

  function UdpChecksum(a: UdpAddr, payload: Bytes): nat
    requires a.Good() && |payload| < 0x1_0000
    ensures 0 < UdpChecksum(a, payload) < 0x1_0000
  {
    var data := Covered(a, payload, 0);
    WordSumBound(data);
    var c := Checksum(WordSum(data));
    if c == 0 then 0xffff else c
  }

  function IpChecksum(a: UdpAddr, len: nat): nat
    requires a.Good()
    ensures IpChecksum(a, len) < 0x1_0000
  {
    WordSumBound(IpHeader(a, len, 0));
    Checksum(WordSum(IpHeader(a, len, 0)))
  }

  /** The frame sent for a payload. */
  function Frame(a: UdpAddr, payload: Bytes): Bytes
    requires a.Good() && |payload| < 0x1_0000 - UDP_END
  {
    IpHeader(a, UDP_END + |payload|, IpChecksum(a, UDP_END + |payload|))
    + UdpHeader(a, 8 + |payload|, UdpChecksum(a, payload))
    + payload
  }

  /** What the receiver of a frame reads in it: an IP header of five words and the length of the whole
      frame, a UDP header and the length of the rest (RFC 791 and RFC 768). */
  predicate WellFramed(f: Bytes) {
    && |f| >= 28 && f[0] == 0x45 && f[9] == 17
    && FromBE(f[2..4]) == |f| && FromBE(f[24..26]) == |f| - 20
  }

  function Padded(b: Bytes): Bytes {
    if |b| % 2 == 1 then b + [0] else b
  }

  /** The pseudo-header it rebuilds from the two headers, and the datagram. */
  function ReceiverUdp(f: Bytes, length: nat): Bytes
    requires 28 <= length <= |f|
  {
    f[12..20] + [0, f[9]] + f[24..26] + f[20..length]
  }

  lemma FrameParts(a: UdpAddr, payload: Bytes)
    requires a.Good() && |payload| < 0x1_0000 - UDP_END
    ensures var f := Frame(a, payload);
            && |f| == UDP_END + |payload|
            && f[..IP_END] == IpHeader(a, UDP_END + |payload|, IpChecksum(a, UDP_END + |payload|))
            && f[12..16] == a.saddr && f[16..20] == a.daddr && f[9] == 0x11
            && f[20..22] == a.sport && f[22..24] == a.dport
            && f[IP_END..] == UdpHeader(a, 8 + |payload|, UdpChecksum(a, payload)) + payload
            && f[UDP_CHECKSUM..UDP_END] == ToBE(UdpChecksum(a, payload), 2) && f[UDP_END..] == payload
  {
    var len, c := UDP_END + |payload|, UdpChecksum(a, payload);
    var ip, udp := IpHeader(a, len, IpChecksum(a, len)), UdpHeader(a, 8 + |payload|, c);
    Associate(ip, udp, payload);
    Parts(ip, udp + payload);
    Parts(udp, payload);
    IpFields(a, len, IpChecksum(a, len), udp + payload);
    UdpFields(a, 8 + |payload|, c, payload);
    forall i, j | 0 <= i <= j <= |udp + payload| ensures Frame(a, payload)[IP_END+i..IP_END+j] == (udp + payload)[i..j] {
      Behind(ip, udp + payload, i, j);
    }
    assert (udp + payload)[|udp|..] == Frame(a, payload)[IP_END+8..];
  }

  lemma Parts(a: Bytes, b: Bytes)
    ensures (a + b)[..|a|] == a && (a + b)[|a|..] == b
  {
  }

  lemma Behind(a: Bytes, b: Bytes, i: nat, j: nat)
    requires i <= j <= |b|
    ensures (a + b)[|a|+i..|a|+j] == b[i..j]
  {
  }

  lemma IpFields(a: UdpAddr, len: nat, checksum: nat, rest: Bytes)
    requires a.Good()
    ensures var f := IpHeader(a, len, checksum) + rest;
            f[12..16] == a.saddr && f[16..20] == a.daddr && f[9] == 0x11
  {
    var head := [0x45, 0] + ToBE(len, 2) + [0, 0, 0, 0, 63, 17] + ToBE(checksum, 2);
    var f := IpHeader(a, len, checksum) + rest;
    assert f == head + (a.saddr + (a.daddr + rest));
    Behind(head, a.saddr + (a.daddr + rest), 0, 4);
    Behind(head, a.saddr + (a.daddr + rest), 4, 8);
    Parts(a.saddr, a.daddr + rest);
    Parts(a.daddr, rest);
    assert (a.saddr + (a.daddr + rest))[4..8] == (a.daddr + rest)[..4];
    assert f[9] == head[9];
  }

  lemma UdpFields(a: UdpAddr, udpLen: nat, checksum: nat, rest: Bytes)
    requires a.Good()
    ensures var f := UdpHeader(a, udpLen, checksum) + rest;
            f[0..2] == a.sport && f[2..4] == a.dport && f[6..8] == ToBE(checksum, 2)
  {
    var f := UdpHeader(a, udpLen, checksum) + rest;
    assert f == a.sport + (a.dport + (ToBE(udpLen, 2) + (ToBE(checksum, 2) + rest)));
  }

  /** The addresses of a reply to a frame are those of the frame, swapped. */
  lemma ReplySwaps(a: UdpAddr, payload: Bytes)
    requires a.Good() && |payload| < 0x1_0000 - UDP_END
    ensures |Frame(a, payload)| >= UDP_END
    ensures ReplyTo(Frame(a, payload)) == UdpAddr(a.daddr, a.saddr, a.dport, a.sport)
  {
    FrameParts(a, payload);
  }

  /** As 2^16 is 1 modulo 0xffff, the sum of the words is the number they make, modulo 0xffff. */
  lemma {:induction false} WordSumIsNumber(b: Bytes)
    requires |b| % 2 == 0
    ensures (FromBE(b) - WordSum(b)) % 0xffff == 0
  {
    if b != [] {
      var a, x, y := b[..|b|-2], b[|b|-2], b[|b|-1];
      WordSumIsNumber(a);
      WordSumNext(b, |a|, x, y);
      assert b[..|b|] == b && b[..|b|-1][..|a|] == a;
      assert FromBE(b) == FromBE(b[..|b|-1]) * 256 + y as int;
      assert FromBE(b[..|b|-1]) == FromBE(a) * 256 + x as int;
      TimesTwo16(FromBE(a), WordSum(a), 256 * x as int + y as int);
    }
  }

  lemma TimesTwo16(n: int, s: int, w: int)
    requires (n - s) % 0xffff == 0
    ensures ((n * 0x1_0000 + w) - (s + w)) % 0xffff == 0
  {
    var q := (n - s) / 0xffff;
    DivModUnique(n * 0x1_0000 - s, 0xffff, q + n, 0);
  }

  lemma Divides(b: Bytes)
    requires |b| % 2 == 0 && Fold(WordSum(b)) == 0xffff
    ensures FromBE(b) % 0xffff == 0
  {
    var s := WordSum(b);
    FoldIsResidue(s);
    WordSumIsNumber(b);
    var k, q := (FromBE(b) - s) / 0xffff, (s - 1) / 0xffff;
    DivMod(s - 1, 0xffff);
    DivModUnique(FromBE(b), 0xffff, k + q + 1, 0);
  }

  /** For every payload, of either parity, the receiver finds its lengths and both its checks succeed: as
      numbers, the IP header and what it sums for UDP are divisible by 0xffff. */
  lemma ReceiverAccepts(a: UdpAddr, payload: Bytes)
    requires a.Good() && |payload| < 0x1_0000 - UDP_END
    ensures var f := Frame(a, payload);
            && WellFramed(f) && FromBE(f[26..28]) != 0
            && FromBE(f[..20]) % 0xffff == 0 && FromBE(Padded(ReceiverUdp(f, FromBE(f[2..4])))) % 0xffff == 0
  {
    var f := Frame(a, payload);
    FrameFields(a, payload);
    IpDivides(f, a, payload);
    SeesCovered(f, a, payload);
    UdpDivides(a, payload);
  }

  lemma SeesCovered(f: Bytes, a: UdpAddr, payload: Bytes)
    requires a.Good() && |payload| < 0x1_0000 - UDP_END && f == Frame(a, payload) && |f| == 28 + |payload|
    ensures ReceiverUdp(f, |f|) == Covered(a, payload, UdpChecksum(a, payload))
  {
    FrameParts(a, payload);
    FrameFields(a, payload);
    ReceiverSees(f, a, payload, UdpChecksum(a, payload));
  }

  lemma IpDivides(f: Bytes, a: UdpAddr, payload: Bytes)
    requires a.Good() && |payload| < 0x1_0000 - UDP_END && f == Frame(a, payload)
    ensures |f| >= 20 && FromBE(f[..20]) % 0xffff == 0
  {
    FrameParts(a, payload);
    IpSumCompletes(a, UDP_END + |payload|);
    Divides(f[..20]);
  }

  lemma UdpDivides(a: UdpAddr, payload: Bytes)
    requires a.Good() && |payload| < 0x1_0000 - UDP_END
    ensures FromBE(Padded(Covered(a, payload, UdpChecksum(a, payload)))) % 0xffff == 0
  {
    UdpSumCompletes(a, payload);
    PaddedDivides(Covered(a, payload, UdpChecksum(a, payload)));
  }

  lemma PaddedDivides(sum: Bytes)
    requires Fold(WordSum(sum)) == 0xffff
    ensures FromBE(Padded(sum)) % 0xffff == 0
  {
    WordSumPadded(sum);
    Divides(Padded(sum));
  }

  lemma ReceiverSees(f: Bytes, a: UdpAddr, payload: Bytes, c: nat)
    requires a.Good() && |f| == 28 + |payload| && f[9] == 0x11
    requires f[12..16] == a.saddr && f[16..20] == a.daddr && f[24..26] == ToBE(8 + |payload|, 2)
    requires f[20..] == UdpHeader(a, 8 + |payload|, c) + payload
    ensures ReceiverUdp(f, |f|) == Covered(a, payload, c)
  {
    Joint(f, 12, 16, 20);
    WholeTail(f, 20);
    Rebuilt(f[12..20], f[24..26], f[20..|f|], a.saddr, a.daddr);
  }

  lemma Rebuilt(x: Bytes, l: Bytes, d: Bytes, s: Bytes, t: Bytes)
    requires x == s + t
    ensures x + [0, 0x11] + l + d == (s + t + [0, 0x11] + l) + d
  {
  }

  lemma Joint(f: Bytes, i: nat, j: nat, k: nat)
    requires i <= j <= k <= |f|
    ensures f[i..k] == f[i..j] + f[j..k]
  {
  }

  lemma WholeTail(f: Bytes, i: nat)
    requires i <= |f|
    ensures f[i..|f|] == f[i..]
  {
  }

  /** The fields of a finished frame, by their offsets. */
  lemma FrameFields(a: UdpAddr, payload: Bytes)
    requires a.Good() && |payload| < 0x1_0000 - UDP_END
    ensures var f := Frame(a, payload);
            && |f| == 28 + |payload|
            && f[0] == 0x45 && f[1] == 0 && f[4] == 0 && f[5] == 0 && f[6] == 0 && f[7] == 0 && f[8] == 63 && f[9] == 17
            && FromBE(f[2..4]) == |f| && FromBE(f[24..26]) == |f| - 20
            && f[12..16] == a.saddr && f[16..20] == a.daddr && f[20..22] == a.sport && f[22..24] == a.dport
            && f[24..26] == ToBE(|f| - 20, 2) && FromBE(f[26..28]) != 0 && f[28..] == payload
  {
    FrameParts(a, payload);
    var f, n, c := Frame(a, payload), 28 + |payload|, UdpChecksum(a, payload);
    var ip, udp := IpHeader(a, n, IpChecksum(a, n)), UdpHeader(a, n - 20, c) + payload;
    assert f[..20] == ip && f[20..] == udp;
    IpStart(a, n, IpChecksum(a, n));
    assert forall k :: 0 <= k < 10 ==> f[k] == f[..20][k];
    assert f[2..4] == f[..20][2..4] && f[24..26] == f[20..][4..6];
    UdpLength(a, n - 20, c, payload);
    TwoBytes(n);
    TwoBytes(n - 20);
    TwoBytes(c);
  }

  lemma TwoBytes(n: nat)
    requires n < 0x1_0000
    ensures FromBE(ToBE(n, 2)) == n
  {
    assert Pow256(2) == 256 * Pow256(1) && Pow256(1) == 256 * Pow256(0);
    FromToBE(n, 2);
  }

  lemma IpStart(a: UdpAddr, len: nat, checksum: nat)
    requires a.Good() && len < 0x1_0000
    ensures var h := IpHeader(a, len, checksum);
            && h[0] == 0x45 && h[1] == 0 && h[4] == 0 && h[5] == 0 && h[6] == 0 && h[7] == 0 && h[8] == 63 && h[9] == 17
            && h[2..4] == ToBE(len, 2)
  {
    var h := IpHeader(a, len, checksum);
    assert h[2] == ToBE(len, 2)[0] && h[3] == ToBE(len, 2)[1];
  }

  lemma UdpLength(a: UdpAddr, udpLen: nat, checksum: nat, rest: Bytes)
    requires a.Good()
    ensures (UdpHeader(a, udpLen, checksum) + rest)[4..6] == ToBE(udpLen, 2)
  {
    var f := UdpHeader(a, udpLen, checksum) + rest;
    assert f == a.sport + (a.dport + (ToBE(udpLen, 2) + (ToBE(checksum, 2) + rest)));
  }

  /** The bytes the UDP checksum covers. */
  function Covered(a: UdpAddr, payload: Bytes, checksum: nat): Bytes
    requires a.Good()
  {
    PseudoHeader(a, 8 + |payload|) + (UdpHeader(a, 8 + |payload|, checksum) + payload)
  }

  lemma UdpSumCompletes(a: UdpAddr, payload: Bytes)
    requires a.Good() && |payload| < 0x1_0000 - UDP_END
    ensures Fold(WordSum(Covered(a, payload, UdpChecksum(a, payload)))) == 0xffff
  {
    var n, c := 8 + |payload|, UdpChecksum(a, payload);
    var ports := a.sport + a.dport + ToBE(n, 2);
    Be2(0);
    Regroup(PseudoHeader(a, n), ports, ToBE(c, 2), payload);
    Regroup(PseudoHeader(a, n), ports, [0, 0], payload);
    FillField(PseudoHeader(a, n) + ports, c, payload);
    WordSumBound(Covered(a, payload, 0));
    ChecksumCompletes(WordSum(Covered(a, payload, 0)), c);
  }

  lemma Regroup(a: Bytes, b: Bytes, c: Bytes, d: Bytes)
    ensures (a + b) + c + d == a + ((b + c) + d)
  {
  }

  lemma IpSumCompletes(a: UdpAddr, len: nat)
    requires a.Good()
    ensures Fold(WordSum(IpHeader(a, len, IpChecksum(a, len)))) == 0xffff
  {
    var c := IpChecksum(a, len);
    var head := [0x45, 0] + ToBE(len, 2) + [0, 0, 0, 0, 63, 17];
    FillField(head, c, a.saddr + a.daddr);
    Be2(0);
    assert head + [0, 0] + (a.saddr + a.daddr) == IpHeader(a, len, 0);
    assert head + ToBE(c, 2) + (a.saddr + a.daddr) == IpHeader(a, len, c);
    WordSumBound(IpHeader(a, len, 0));
    ChecksumCompletes(WordSum(IpHeader(a, len, 0)), c);
  }

  // ---------------------------------------------------------------------------------------------
  // The code
  // ---------------------------------------------------------------------------------------------

  method Ipv4Checksum(buf: array<u8>, off: nat, shorts: nat) returns (c: nat)
    requires off + 2 * shorts <= buf.Length && shorts <= 0x8000
    ensures WordSum(buf[off..off + 2 * shorts]) < 0x1_0000_0000
    ensures c == Checksum(WordSum(buf[off..off + 2 * shorts]))
  {
    ghost var words := buf[off..off + 2 * shorts];
    var sum := 0;
    for i := 0 to shorts
      invariant sum == WordSum(words[..2 * i])
    {
      var x, y := buf[off + 2 * i], buf[off + 2 * i + 1];
      WordSumNext(words, 2 * i, x, y);
      sum := sum + (256 * x as int + y as int);
    }
    assert words[..2 * shorts] == words;
    WordSumBound(words);
    var s1 := sum / 0x1_0000 + sum % 0x1_0000;
    var s2 := s1 + s1 / 0x1_0000;
    c := 0xffff - s2 % 0x1_0000;
  }

  /** The bytes with `b` written over them at `pos`. */
  function Spliced(s: Bytes, pos: nat, b: Bytes): (r: Bytes)
    requires pos + |b| <= |s|
    ensures |r| == |s|
  {
    s[..pos] + b + s[pos + |b|..]
  }

  lemma SpliceNext(s: Bytes, pos: nat, a: Bytes, b: Bytes)
    requires pos + |a| + |b| <= |s|
    ensures Spliced(Spliced(s, pos, a), pos + |a|, b) == Spliced(s, pos, a + b)
  {
  }

  method Put(buf: array<u8>, pos: nat, bytes: Bytes)
    requires pos + |bytes| <= buf.Length
    modifies buf
    ensures buf[..] == Spliced(old(buf[..]), pos, bytes)
  {
    for i := 0 to |bytes|
      invariant forall k :: 0 <= k < buf.Length ==>
                  buf[k] == if pos <= k < pos + i then bytes[k-pos] else old(buf[k])
    {
      buf[pos+i] := bytes[i];
    }
    Written(old(buf[..]), buf[..], pos, bytes);
  }

  /** `memcpy` right behind what has been written so far. */
  method PutNext(buf: array<u8>, pos: nat, bytes: Bytes, ghost s: Bytes, ghost start: nat, ghost a: Bytes)
    requires pos == start + |a| && pos + |bytes| <= buf.Length == |s| && buf[..] == Spliced(s, start, a)
    modifies buf
    ensures buf[..] == Spliced(s, start, a + bytes)
  {
    SpliceNext(s, start, a, bytes);
    Put(buf, pos, bytes);
  }

  /** The pseudo-header and the UDP header with a zero checksum, in front of the payload. */
  method FillHeaders(buf: array<u8>, len: nat, a: UdpAddr)
    requires a.Good() && UDP_END <= len < buf.Length && len < 0x1_0000
    modifies buf
    ensures buf[..] == Spliced(old(buf[..]), UDP_VIRT, PseudoHeader(a, len - IP_END) + UdpHeader(a, len - IP_END, 0))
  {
    var n := len - IP_END;
    Be2(n);
    Be2(0);
    ghost var s, len2 := buf[..], ToBE(n, 2);
    Put(buf, 8, a.saddr);
    PutNext(buf, 12, a.daddr, s, 8, a.saddr);
    PutNext(buf, 16, [0, 0x11], s, 8, a.saddr + a.daddr);
    PutNext(buf, 18, [(n / 256) as u8, (n % 256) as u8], s, 8, a.saddr + a.daddr + [0, 0x11]);
    ghost var ph := PseudoHeader(a, n);
    PutNext(buf, 20, a.sport, s, 8, ph);
    PutNext(buf, 22, a.dport, s, 8, ph + a.sport);
    PutNext(buf, 24, [(n / 256) as u8, (n % 256) as u8], s, 8, ph + a.sport + a.dport);
    PutNext(buf, 26, [0, 0], s, 8, ph + a.sport + a.dport + len2);
    assert ph + a.sport + a.dport + len2 + [0, 0] == ph + UdpHeader(a, n, 0);
  }

  /** The checksum over pseudo-header, header and payload; the byte behind an odd payload is set to
      zero meanwhile. */
  method SumUdp(buf: array<u8>, len: nat) returns (sum: nat)
    requires UDP_END <= len < buf.Length && len < 0x1_0000
    modifies buf
    ensures buf[..] == old(buf[..])
    ensures WordSum(buf[UDP_VIRT..len]) < 0x1_0000_0000 && sum == Checksum(WordSum(buf[UDP_VIRT..len]))
  {
    ghost var before := buf[..];
    var oddb := buf[len];
    buf[len] := 0;
    var shorts := (len + 1 - UDP_VIRT) / 2;
    sum := Ipv4Checksum(buf, UDP_VIRT, shorts);
    assert buf[UDP_VIRT..len] == before[UDP_VIRT..len];
    WordSumPadded(before[UDP_VIRT..len]);
    assert len % 2 == 1 ==> buf[UDP_VIRT..UDP_VIRT + 2 * shorts] == before[UDP_VIRT..len] + [0];
    assert len % 2 == 0 ==> buf[UDP_VIRT..UDP_VIRT + 2 * shorts] == before[UDP_VIRT..len];
    buf[len] := oddb;
    assert buf[..] == before;
  }

  /** The IP header, over the remains of the pseudo-header. */
  method FillIp(buf: array<u8>, len: nat, a: UdpAddr)
    requires a.Good() && UDP_END <= len < buf.Length && len < 0x1_0000
    modifies buf
    ensures buf[..] == Spliced(old(buf[..]), 0, IpHeader(a, len, IpChecksum(a, len)))
  {
    Be2(len);
    Be2(0);
    ghost var s := buf[..];
    ghost var head := [0x45, 0] + ToBE(len, 2) + [0, 0, 0, 0, 63, 17] + ToBE(0, 2);
    Put(buf, 0, [0x45, 0, (len / 256) as u8, (len % 256) as u8, 0, 0, 0, 0, 63, 17, 0, 0]);
    assert head == [0x45, 0, (len / 256) as u8, (len % 256) as u8, 0, 0, 0, 0, 63, 17, 0, 0];
    PutNext(buf, 12, a.saddr, s, 0, head);
    PutNext(buf, 16, a.daddr, s, 0, head + a.saddr);
    assert buf[0..0 + 2 * (IP_END / 2)] == buf[..][..IP_END] == IpHeader(a, len, 0);
    var sum := Ipv4Checksum(buf, 0, IP_END / 2);
    Be2(sum);
    Put(buf, 10, [(sum / 256) as u8, (sum % 256) as u8]);
    IpHeaderFilled(s, a, len, sum);
  }

  lemma IpHeaderFilled(s: Bytes, a: UdpAddr, len: nat, sum: nat)
    requires a.Good() && IP_END <= |s|
    ensures Spliced(Spliced(s, 0, IpHeader(a, len, 0)), 10, ToBE(sum, 2)) == Spliced(s, 0, IpHeader(a, len, sum))
  {
    var h0, h := IpHeader(a, len, 0), IpHeader(a, len, sum);
    assert Spliced(h0, 10, ToBE(sum, 2)) == h;
  }

  datatype Option<T> = None | Some(value: T)

  /** `fill_udp`: the payload gets both headers in front; without an address it is a reply. */
  method FillUdp(buf: array<u8>, len: nat, uaddr: Option<UdpAddr>)
    requires UDP_END <= len < buf.Length && len < 0x1_0000 && (uaddr.Some? ==> uaddr.value.Good())
    modifies buf
    ensures var a := if uaddr.Some? then uaddr.value else ReplyTo(old(buf[..]));
            buf[..] == Frame(a, old(buf[UDP_END..len])) + old(buf[len..])
  {
    var a := if uaddr.Some? then uaddr.value else ReplyTo(buf[..]);
    ghost var s := buf[..];
    FillHeaders(buf, len, a);
    HeadersCover(s, len, a);
    assert buf[UDP_VIRT..len] == buf[..][UDP_VIRT..len];
    var sum := SumUdp(buf, len);
    if sum == 0 {
      sum := 0xffff;
    }
    Be2(sum);
    Put(buf, UDP_CHECKSUM, [(sum / 256) as u8, (sum % 256) as u8]);
    FillIp(buf, len, a);
    Assembled(s, len, a, sum);
    assert s[UDP_END..len] == old(buf[UDP_END..len]) && s[len..] == old(buf[len..]);
  }

  /** What is summed is what the UDP checksum covers. */
  lemma HeadersCover(s: Bytes, len: nat, a: UdpAddr)
    requires a.Good() && UDP_END <= len < |s|
    ensures var n := len - IP_END;
            Spliced(s, UDP_VIRT, PseudoHeader(a, n) + UdpHeader(a, n, 0))[UDP_VIRT..len] == Covered(a, s[UDP_END..len], 0)
  {
    var n := len - IP_END;
    SplicedSlice(s, UDP_VIRT, PseudoHeader(a, n) + UdpHeader(a, n, 0), len);
    Associate(PseudoHeader(a, n), UdpHeader(a, n, 0), s[UDP_END..len]);
  }

  lemma SplicedSlice(s: Bytes, pos: nat, b: Bytes, end: nat)
    requires pos + |b| <= end <= |s|
    ensures Spliced(s, pos, b)[pos..end] == b + s[pos+|b|..end]
  {
    var r := Spliced(s, pos, b);
    forall k | pos <= k < end ensures r[k] == (b + s[pos+|b|..end])[k-pos] {
    }
  }

  lemma Associate(a: Bytes, b: Bytes, c: Bytes)
    ensures (a + b) + c == a + (b + c)
  {
  }

  /** The three writes together make the frame. */
  lemma Assembled(s: Bytes, len: nat, a: UdpAddr, sum: nat)
    requires a.Good() && UDP_END <= len < |s| && len < 0x1_0000
    requires sum == UdpChecksum(a, s[UDP_END..len])
    ensures var n := len - IP_END;
            var s1 := Spliced(s, UDP_VIRT, PseudoHeader(a, n) + UdpHeader(a, n, 0));
            Spliced(Spliced(s1, UDP_CHECKSUM, ToBE(sum, 2)), 0, IpHeader(a, len, IpChecksum(a, len)))
            == Frame(a, s[UDP_END..len]) + s[len..]
  {
    var n := len - IP_END;
    var pseudo, ports := PseudoHeader(a, n), a.sport + a.dport + ToBE(n, 2);
    ThreeWrites(s, UDP_VIRT, pseudo, ports, ToBE(0, 2), ToBE(sum, 2), IpHeader(a, len, IpChecksum(a, len)));
    assert s[UDP_END..] == s[UDP_END..len] + s[len..];
    Associate(Frame(a, s[UDP_END..len])[..UDP_END], s[UDP_END..len], s[len..]);
    Parts(IpHeader(a, len, IpChecksum(a, len)) + UdpHeader(a, n, sum), s[UDP_END..len]);
  }

  lemma ThreeWrites(s: Bytes, p: nat, pseudo: Bytes, ports: Bytes, zero: Bytes, check: Bytes, ip: Bytes)
    requires |zero| == |check| && p + |pseudo| == |ip| && |ip| + |ports| + |zero| <= |s|
    ensures var s1 := Spliced(s, p, pseudo + (ports + zero));
            var s2 := Spliced(s1, |ip| + |ports|, check);
            Spliced(s2, 0, ip) == ip + (ports + check) + s[|ip| + |ports| + |zero|..]
  {
    var head, rest := s[..p] + pseudo, s[|ip| + |ports| + |zero|..];
    var s1 := Spliced(s, p, pseudo + (ports + zero));
    assert s1 == (head + ports) + zero + rest;
    Replaced(head + ports, zero, rest, check);
    var s2 := (head + ports) + check + rest;
    assert s2 == [] + head + (ports + check + rest);
    Replaced([], head, ports + check + rest, ip);
    assert [] + ip + (ports + check + rest) == ip + (ports + check) + rest;
  }

  /** Writing over a part of the same length replaces it. */
  lemma Replaced(a: Bytes, b: Bytes, c: Bytes, b': Bytes)
    requires |b| == |b'|
    ensures Spliced(a + b + c, |a|, b') == a + b' + c
  {
    var s := a + b + c;
    assert s[..|a|] == a && s[|a| + |b|..] == c;
  }
}
