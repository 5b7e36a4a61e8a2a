/** The receive queue of a socket: packets in a byte ring (lib/net.c). */
module SocketRing {
  import opened Arith
  import opened Octets

  const TS_BYTES: nat := 24    // sizeof(struct hw_timestamp)
  const HDR_BYTES: nat := 14   // sizeof(struct wr_ethhdr)

  /** What is queued for one frame. */
  datatype Packet = Packet(ts: Bytes, hdr: Bytes, payload: Bytes) {
    predicate Good() {
      |ts| == TS_BYTES && |hdr| == HDR_BYTES && |payload| < 0x1_0000
    }
  }

  function SizeBytes(n: nat): (b: Bytes)
    requires n < 0x1_0000
    ensures |b| == 2
  {
    [(n / 256) as u8, (n % 256) as u8]
  }

  function SizeOf(b: Bytes): nat
    requires |b| == 2
  {
    b[0] as int * 256 + b[1] as int
  }

  function Record(p: Packet): (b: Bytes)
    requires p.Good()
    ensures |b| == 2 + TS_BYTES + HDR_BYTES + |p.payload|
  {
    SizeBytes(|p.payload|) + p.ts + p.hdr + p.payload
  }

  ghost predicate AllGood(ps: seq<Packet>) {
    forall i :: 0 <= i < |ps| ==> ps[i].Good()
  }

  /** The bytes of the queued packets, oldest first. */
  ghost function Records(ps: seq<Packet>): Bytes
    requires AllGood(ps)
  {
    if ps == [] then [] else Record(ps[0]) + Records(ps[1..])
  }

  lemma {:induction false} RecordsAppend(ps: seq<Packet>, p: Packet)
    requires AllGood(ps) && p.Good()
    ensures AllGood(ps + [p]) && Records(ps + [p]) == Records(ps) + Record(p)
  {
    if ps == [] {
      assert ps + [p] == [p] && [p][1..] == [];
    } else {
      RecordsAppend(ps[1..], p);
      assert (ps + [p])[1..] == ps[1..] + [p];
      assert Record(ps[0]) + (Records(ps[1..]) + Record(p)) == Record(ps[0]) + Records(ps[1..]) + Record(p);
    }
  }

  // ---------------------------------------------------------------------------------------------
  // Bytes in a ring
  // ---------------------------------------------------------------------------------------------

  function Wrap(size: nat, x: nat): nat
    requires x < 2 * size
    ensures Wrap(size, x) < size
  {
    if x < size then x else x - size
  }

  /** The `count` bytes stored from position `tail` on. */
  function Stored(ring: Bytes, tail: nat, count: nat): (s: Bytes)
    requires tail < |ring| && count <= |ring|
    ensures |s| == count
    ensures forall i {:trigger s[i]} :: 0 <= i < count ==> s[i] == ring[Wrap(|ring|, tail + i)]
  {
    seq(count, i requires 0 <= i < count => ring[Wrap(|ring|, tail + i)])
  }

  lemma PushByte(ring: Bytes, tail: nat, count: nat, x: u8)
    requires tail < |ring| && count < |ring|
    ensures Stored(ring[Wrap(|ring|, tail + count) := x], tail, count + 1) == Stored(ring, tail, count) + [x]
  {
  }

  lemma PopMany(ring: Bytes, tail: nat, count: nat, k: nat)
    requires tail < |ring| && k <= count <= |ring|
    ensures Stored(ring, Wrap(|ring|, tail + k), count - k) == Stored(ring, tail, count)[k..]
  {
  }

  /** Where the loop `while (tail > size) tail -= size` ends. */
  function SkipTail(tail: nat, size: nat): nat
    requires 0 < size
  {
    if tail > size then SkipTail(tail - size, size) else tail
  }

  /** The loop reduces the position to the ring, except that a position that is a multiple of the
      size ends at the size itself, one past the last byte. */
  lemma {:induction false} SkipTailLands(tail: nat, size: nat)
    requires 0 < size && 0 < tail
    ensures SkipTail(tail, size) == if tail % size == 0 then size else tail % size
    decreases tail
  {
    if tail > size {
      SkipTailLands(tail - size, size);
      DivMod(tail - size, size);
      DivModUnique(tail, size, (tail - size) / size + 1, (tail - size) % size);
    } else {
      DivModUnique(tail, size, if tail == size then 1 else 0, if tail == size then 0 else tail);
    }
  }

  /** So a skip that starts in the ring stays in it exactly if it does not end at the size. */
  lemma SkipInRangeIff(tail: nat, skip: nat, size: nat)
    requires tail < size && 0 < skip <= size
    ensures SkipTail(tail + skip, size) == if tail + skip == size then size else Wrap(size, tail + skip)
    ensures SkipTail(tail + skip, size) < size <==> tail + skip != size
  {
    var t := tail + skip;
    SkipTailLands(t, size);
    DivModUnique(t, size, if t < size then 0 else 1, if t < size then t else t - size);
  }

  /** Where the fields of the oldest record are. */
  lemma RecordParts(p: Packet, rest: Bytes)
    requires p.Good()
    ensures var s := Record(p) + rest;
            && s[..2] == SizeBytes(|p.payload|)
            && s[2..][..TS_BYTES] == p.ts
            && s[2..][TS_BYTES..][..HDR_BYTES] == p.hdr
            && s[2..][TS_BYTES..][HDR_BYTES..] == p.payload + rest
  {
    var s := Record(p) + rest;
    assert s[2..] == p.ts + p.hdr + p.payload + rest;
    assert s[2..][TS_BYTES..] == p.hdr + p.payload + rest;
  }

  lemma Regroup(a: Bytes, b: Bytes, c: Bytes, d: Bytes, e: Bytes)
    ensures (((a + b) + c) + d) + e == a + (b + c + d + e)
  {
  }

  function Min(a: nat, b: nat): nat { if a < b then a else b }

  /** Where the tail lands when `len` bytes are taken and at most `buflen` delivered. */
  function Landing(size: nat, tail: nat, len: nat, buflen: nat): nat
    requires tail < size && len <= size
  {
    if 0 < buflen < len && tail + len == size then size else Wrap(size, tail + len)
  }

  /** A truncating receive of a record that ends exactly at the end of the ring. */
  predicate Overshoots(size: nat, tail: nat, p: Packet, dataLength: nat)
    requires p.Good()
  {
    0 < dataLength < |p.payload| && tail + |Record(p)| == size
  }

  // ---------------------------------------------------------------------------------------------
  // The code
  // ---------------------------------------------------------------------------------------------

  class SockQ {
    var head: nat
    var tail: nat
    var avail: nat
    var n: nat
    const size: nat
    const buff: array<u8>
    ghost var packets: seq<Packet>   // what the queue stands for

    ghost predicate Shape()
      reads this
    {
      && 0 < size == buff.Length <= 0x8000
      && tail < size && avail <= size
      && head == Wrap(size, tail + size - avail)
    }

    ghost function Contents(): Bytes
      requires Shape()
      reads this, buff
    {
      Stored(buff[..], tail, size - avail)
    }

    /** The stored bytes are the queued packets, and nothing else is stored. */
    ghost predicate Valid()
      reads this, buff
    {
      Shape() && n == |packets| && AllGood(packets) && Contents() == Records(packets)
    }

    constructor (len: nat)
      requires 0 < len <= 0x8000
      ensures Valid() && packets == [] && size == len && avail == len && tail == 0 && fresh(buff)
    {
      head, tail, avail, size, n := 0, 0, len, len, 0;
      buff := new u8[len](_ => 0);
      packets := [];
    }

    method CopyOut(src: Bytes) returns (len: nat)
      requires Shape() && |src| <= avail
      modifies this`head, buff
      ensures len == |src| && head == Wrap(size, tail + (size - avail) + |src|)
      ensures Stored(buff[..], tail, size - avail + |src|) == old(Contents()) + src
    {
      ghost var count := size - avail;
      ghost var before := Contents();
      var i := 0;
      while i < |src|
        invariant 0 <= i <= |src|
        invariant head == Wrap(size, tail + count + i)
        invariant Stored(buff[..], tail, count + i) == before + src[..i]
      {
        PushByte(buff[..], tail, count + i, src[i]);
        assert src[..i+1] == src[..i] + [src[i]];
        ghost var ring := buff[..];
        buff[head] := src[i];
        assert buff[..] == ring[head := src[i]];
        head := head + 1;
        if head == size {
          head := 0;
        }
        i := i + 1;
      }
      assert src[..i] == src;
      len := |src|;
    }

    /** Takes `len` bytes off the ring, of which at most `buflen` are delivered, all if it is 0. */
    method CopyIn(len: nat, buflen: nat) returns (dst: Bytes, taken: nat)
      requires Shape() && len <= size - avail
      modifies this`tail
      ensures taken == len
      ensures dst == old(Contents())[..if buflen == 0 then len else Min(len, buflen)]
      ensures tail == Landing(size, old(tail), len, buflen)
    {
      var limit := if buflen == 0 then len else buflen;
      ghost var start, s := tail, Contents();
      var m := Min(len, limit);
      dst := [];
      var i := 0;
      while i < m
        invariant 0 <= i <= m && dst == s[..i]
        invariant tail == Wrap(size, start + i)
      {
        assert s[i] == buff[tail];
        assert s[..i+1] == s[..i] + [s[i]];
        dst := dst + [buff[tail]];
        tail := tail + 1;
        if tail == size {
          tail := 0;
        }
        i := i + 1;
      }
      if len > limit {
        SkipInRangeIff(tail, len - limit, size);
        tail := tail + (len - limit);
        ghost var goal := SkipTail(tail, size);
        while tail > size
          invariant SkipTail(tail, size) == goal
        {
          tail := tail - size;
        }
      }
      taken := len;
    }

    /** `q->avail -= wrap_copy_out(q, src, len)` */
    method Append(src: Bytes)
      requires Shape() && |src| <= avail
      modifies this`head, this`avail, buff
      ensures Shape() && Contents() == old(Contents()) + src && avail == old(avail) - |src|
    {
      var len := CopyOut(src);
      avail := avail - len;
    }

    /** `q->avail += wrap_copy_in(dst, q, len, buflen)` */
    method Take(len: nat, buflen: nat) returns (dst: Bytes)
      requires Shape() && len <= size - avail
      modifies this`tail, this`avail
      ensures dst == old(Contents())[..if buflen == 0 then len else Min(len, buflen)]
      ensures avail == old(avail) + len
      ensures tail == Landing(size, old(tail), len, buflen)
      ensures tail < size ==> Shape() && Contents() == old(Contents())[len..]
    {
      PopMany(buff[..], tail, size - avail, len);
      var taken;
      dst, taken := CopyIn(len, buflen);
      avail := avail + taken;
    }

    method AppendRecord(p: Packet)
      requires Shape() && p.Good() && |Record(p)| <= avail
      modifies this`head, this`avail, buff
      ensures Shape() && Contents() == old(Contents()) + Record(p) && avail == old(avail) - |Record(p)|
    {
      ghost var before := Contents();
      Append(SizeBytes(|p.payload|));
      Append(p.ts);
      Append(p.hdr);
      Append(p.payload);
      Regroup(before, SizeBytes(|p.payload|), p.ts, p.hdr, p.payload);
    }

    /** Takes length, timestamp and header of the oldest record off the ring. */
    method TakeHeader(ghost p: Packet, ghost rest: Bytes) returns (len: nat, ts: Bytes, hdr: Bytes)
      requires Shape() && p.Good() && Contents() == Record(p) + rest
      modifies this`tail, this`avail
      ensures Shape() && Contents() == p.payload + rest
      ensures len == |p.payload| && ts == p.ts && hdr == p.hdr
      ensures avail == old(avail) + 2 + TS_BYTES + HDR_BYTES
      ensures tail == Wrap(size, old(tail) + 2 + TS_BYTES + HDR_BYTES)
    {
      RecordParts(p, rest);
      var sz := Take(2, 0);
      ts := Take(TS_BYTES, 0);
      hdr := Take(HDR_BYTES, 0);
      len := SizeOf(sz);
    }

    /** Queueing a frame, in `netif_poll`: a frame that does not fit is dropped. */
    method Enqueue(p: Packet)
      requires Valid() && p.Good()
      modifies this, buff
      ensures Valid()
      ensures tail == old(tail) && packets == if old(avail) < |Record(p)| then old(packets) else old(packets) + [p]
      ensures avail == if old(avail) < |Record(p)| then old(avail) else old(avail) - |Record(p)|
    {
      var required := HDR_BYTES + |p.payload| + TS_BYTES + 2;
      if avail < required {
        return;
      }
      RecordsAppend(packets, p);
      AppendRecord(p);
      n := n + 1;
      packets := packets + [p];
    }

    /** Reception by the owner of the socket.  The oldest packet comes out intact, up to the size of
        the caller's buffer; the queue stays sound unless a truncated record ends exactly at the end
        of the ring, in which case the tail is left outside of it. */
    method RecvFrom(dataLength: nat) returns (ret: nat, ts: Bytes, hdr: Bytes, data: Bytes)
      requires Valid()
      modifies this
      ensures old(n) == 0 ==> Valid() && packets == [] && ret == 0
      ensures old(n) > 0 ==>
                var p := old(packets)[0];
                && ts == p.ts && hdr == p.hdr
                && data == p.payload[..if dataLength == 0 then |p.payload| else Min(|p.payload|, dataLength)]
                && ret == Min(|p.payload|, dataLength)
                && packets == old(packets)[1..] && avail == old(avail) + |Record(p)|
                && |Record(p)| <= size
                && tail == (if Overshoots(size, old(tail), p, dataLength) then size else Wrap(size, old(tail) + |Record(p)|))
                && (Valid() <==> !Overshoots(size, old(tail), p, dataLength))
    {
      ret, ts, hdr, data := 0, [], [], [];
      if n == 0 {
        return;
      }
      n := n - 1;
      ghost var p, rest := packets[0], Records(packets[1..]);
      packets := packets[1..];
      var len;
      len, ts, hdr := TakeHeader(p, rest);
      data := Take(len, dataLength);
      assert (p.payload + rest)[|p.payload|..] == rest;
      assert data == p.payload[..|data|];
      ret := Min(len, dataLength);
    }
  }

  /** A ring that a record fills exactly: received into a one-byte buffer, it leaves the tail outside. */
  method TruncationLeavesRing(p: Packet) returns (q: SockQ)
    requires p.Good() && |p.payload| > 1 && |Record(p)| <= 0x8000
    ensures q.size == |Record(p)| == q.tail && !q.Valid() && q.packets == []
  {
    q := new SockQ(2 + TS_BYTES + HDR_BYTES + |p.payload|);
    q.Enqueue(p);
    var _, _, _, _ := q.RecvFrom(1);
  }
}
