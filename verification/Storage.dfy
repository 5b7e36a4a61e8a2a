/** Storage devices, formatting and file access (dev/storage.c, dev/sdbfs.c, dev/spi_flash.c). */
module Storage {
  import opened Octets
  import opened Arith
  import opened SdbFs

  /** The bits common to both numbers, of the lowest `n`. */
  function And(x: nat, y: nat, n: nat): (r: nat)
    ensures r <= x && r <= y
  {
    if n == 0 then 0 else 2 * And(x / 2, y / 2, n - 1) + (if x % 2 == 1 then y % 2 else 0)
  }

  function Ones(n: nat): nat {
    if n == 0 then 0 else 2 * Ones(n - 1) + 1
  }

  lemma {:induction false} AndOnes(y: nat, n: nat)
    requires y <= Ones(n)
    ensures And(Ones(n), y, n) == y
  {
    if n > 0 {
      var z := Ones(n - 1);
      AndOnes(y / 2, n - 1);
      DivModUnique(2 * z + 1, 2, z, 1);
      assert And(2 * z + 1, y, n) == 2 * And(z, y / 2, n - 1) + y % 2;
    }
  }

  /** Programming a byte of flash only clears bits. */
  function Programmed(was: u8, b: u8): (r: u8)
    ensures r <= was && r <= b
  {
    And(was as int, b as int, 8) as u8
  }

  /** So a blank byte takes every value. */
  lemma BlankTakes(b: u8)
    ensures Programmed(0xff, b) == b
  {
    assert Ones(4) == 15 && Ones(8) == 255;
    AndOnes(b as int, 8);
  }

  /** A device as an array of bytes that erases by blocks; flash is programmed, other chips are written. */
  class StorageDevice {
    const flash: bool
    const block: nat
    const data: array<u8>

    ghost predicate Valid() {
      0 < block
    }

    constructor (flash: bool, block: nat, size: nat)
      requires 0 < block
      ensures Valid() && this.flash == flash && this.block == block && data.Length == size && fresh(data)
    {
      this.flash, this.block := flash, block;
      data := new u8[size](_ => 0xff);
    }

    method Read(offset: nat, count: nat) returns (b: Bytes)
      requires offset + count <= data.Length
      ensures b == data[offset..offset+count]
    {
      b := data[offset..offset+count];
    }

    /** What a byte holds after `b` was written to it. */
    function Stored(was: u8, b: u8): u8 {
      if flash then Programmed(was, b) else b
    }

    /** The bytes take whatever is written to them. */
    ghost predicate Takes(offset: nat, n: nat)
      reads data
    {
      flash ==> forall k :: offset <= k < offset + n && k < data.Length ==> data[k] == 0xff
    }

    /** Bytes that take it hold what was written; no others are touched. */
    method Write(offset: nat, b: Bytes)
      requires offset + |b| <= data.Length
      modifies data
      ensures forall k :: 0 <= k < data.Length ==>
                data[k] == if offset <= k < offset + |b| then Stored(old(data[k]), b[k-offset]) else old(data[k])
      ensures old(Takes(offset, |b|)) ==> data[..] == old(data[..])[..offset] + b + old(data[..])[offset+|b|..]
    {
      for i := 0 to |b|
        invariant forall k :: 0 <= k < data.Length ==>
                    data[k] == if offset <= k < offset + i then Stored(old(data[k]), b[k-offset]) else old(data[k])
      {
        data[offset+i] := Stored(data[offset+i], b[i]);
      }
      if old(Takes(offset, |b|)) {
        forall k | offset <= k < offset + |b| ensures data[k] == b[k-offset] {
          BlankTakes(b[k-offset]);
        }
        Written(old(data[..]), data[..], offset, b);
      }
    }

    /** The chip erases the sector that holds the address. */
    method EraseSector(addr: nat)
      requires Valid() && SectorBase(addr, block) + block <= data.Length
      modifies data
      ensures forall k :: 0 <= k < data.Length ==>
                data[k] == if SectorBase(addr, block) <= k < SectorBase(addr, block) + block then 0xff else old(data[k])
    {
      var s := SectorBase(addr, block);
      for i := 0 to block
        invariant forall k :: 0 <= k < data.Length ==> data[k] == if s <= k < s + i then 0xff else old(data[k])
      {
        data[s+i] := 0xff;
      }
    }

    /** `spi_flash_erase` */
    method Erase(addr: nat, count: nat) returns (done: nat)
      requires Valid() && SectorBase(addr, block) + Align(count, block) <= data.Length
      modifies data
      ensures done == count
      ensures forall k :: 0 <= k < data.Length ==>
                data[k] == if Erased(addr, count, block, k) then 0xff else old(data[k])
    {
      var sectors := (count + block - 1) / block;
      ghost var s, w := SectorBase(addr, block), 0;
      SectorsCover(count, block);
      var i := 0;
      while i < sectors
        invariant 0 <= i <= sectors && w == i * block
        invariant forall k :: 0 <= k < data.Length ==> data[k] == if s <= k < s + w then 0xff else old(data[k])
      {
        NextSector(addr, i, block);
        MulMonotone(i + 1, sectors, block);
        EraseSector(addr + i * block);
        i, w := i + 1, w + block;
      }
      assert w == Align(count, block);
      done := count;
    }
  }

  lemma SectorsCover(count: nat, block: nat)
    requires 0 < block
    ensures (count + block - 1) / block >= 0 && ((count + block - 1) / block) * block == Align(count, block)
  {
    DivMod(count + block - 1, block);
  }

  lemma NextSector(addr: nat, i: nat, block: nat)
    requires 0 < block
    ensures 0 <= i * block && (i + 1) * block == i * block + block
    ensures SectorBase(addr + i * block, block) == SectorBase(addr, block) + i * block
  {
    var q, r := addr / block, addr % block;
    assert addr == q * block + r;
    assert (q + i) * block == q * block + i * block;
    DivModUnique(addr + i * block, block, q + i, r);
  }

  // ---------------------------------------------------------------------------------------------
  // Formatting
  // ---------------------------------------------------------------------------------------------

  /** The effect of the relocation loop from file `i` on, with the next free block at `cur`. */
  function Relocated(recs: seq<Rec>, i: nat, cur: nat, block: nat): (out: seq<Rec>)
    requires i <= |recs| && 0 < block
    requires forall k :: i <= k < |recs| ==> 0 <= Size(recs[k])
    ensures |out| == |recs|
    decreases |recs| - i
  {
    if i == |recs| then recs
    else
      Relocated(recs[i := SetRange(recs[i], cur, cur + Size(recs[i]))], i + 1,
                Align(cur + (Size(recs[i]) + 1), block), block)
  }

  /** Relocates the built-in directory in place. */
  method Relocate(image: array<Rec>, base: nat, block: nat)
    requires 0 < block && GoodImage(image[..]) && Fits(image[..], base, block)
    modifies image
    ensures image[..] == Layout(old(image[..]), base, block)
  {
    ghost var recs := image[..];
    var n := image.Length;
    var cur := base + Align(n * REC_BYTES, block);
    RelocatedIsLayout(recs, base, block);
    RelocateFiles(image, cur, block);
    assert image[0] == image[..][0] && image[n-1] == image[..][n-1];
    image[0] := SetRange(image[0], base, Last(image[n-1]));
  }

  method RelocateFiles(image: array<Rec>, start: nat, block: nat)
    requires 0 < block && 1 <= image.Length
    requires forall k :: 1 <= k < image.Length ==> 0 <= Size(image[k])
    modifies image
    ensures image[..] == Relocated(old(image[..]), 1, start, block)
  {
    var cur := start;
    var i := 1;
    while i < image.Length
      invariant 1 <= i <= image.Length
      invariant forall k :: i <= k < image.Length ==> 0 <= Size(image[k])
      invariant Relocated(image[..], i, cur, block) == Relocated(old(image[..]), 1, start, block)
    {
      ghost var before := image[..];
      var size := Last(image[i]) - First(image[i]);
      image[i] := SetRange(image[i], cur, cur + size);
      assert image[..] == before[i := SetRange(before[i], cur, cur + size)];
      cur := Align(cur + (size + 1), block);
      i := i + 1;
    }
  }

  /** The loop and the rewritten directory record give the layout. */
  lemma RelocatedIsLayout(recs: seq<Rec>, base: nat, block: nat)
    requires 0 < block && GoodImage(recs) && Fits(recs, base, block)
    ensures var out := Relocated(recs, 1, base + Align(|recs| * REC_BYTES, block), block);
            out[0 := SetRange(out[0], base, Last(out[|recs|-1]))] == Layout(recs, base, block)
  {
    var goal := Layout(recs, base, block);
    var starts := Starts(recs, base, block);
    forall k | 1 <= k < |recs| ensures Linked(recs, starts, goal, block, k) {
      LayoutLinks(recs, starts, goal, base, block, k);
    }
    RelocatedFrom(recs, recs, goal, starts, 1, block);
    LayoutHead(recs, base, block);
  }

  ghost function Starts(recs: seq<Rec>, base: nat, block: nat): (starts: seq<nat>)
    requires GoodImage(recs) && 0 < block
    ensures |starts| == |recs|
    ensures forall k {:trigger starts[k]} :: 1 <= k < |recs| ==> starts[k] == Start(recs, k, base, block)
    ensures starts[1] == base + Align(|recs| * REC_BYTES, block)
  {
    seq(|recs|, k requires 0 <= k < |recs| => if k == 0 then 0 else Start(recs, k, base, block))
  }

  lemma LayoutLinks(recs: seq<Rec>, starts: seq<nat>, goal: seq<Rec>, base: nat, block: nat, k: nat)
    requires GoodImage(recs) && 0 < block && 1 <= k < |recs|
    requires starts == Starts(recs, base, block) && goal == Layout(recs, base, block)
    ensures Linked(recs, starts, goal, block, k)
  {
    var a := starts[k];
    LayoutAt(recs, base, block, k, a);
    if k + 1 < |recs| {
      NextStart(recs, base, block, k, a, Align(a + Size(recs[k]) + 1, block));
      assert starts[k+1] == Start(recs, k + 1, base, block);
    }
  }

  /** File `k` is placed at its start, and its end decides where the next one starts. */
  ghost predicate Linked(recs: seq<Rec>, starts: seq<nat>, goal: seq<Rec>, block: nat, k: nat)
    requires 0 < block && |recs| == |goal| == |starts| && k < |recs|
  {
    && 0 <= Size(recs[k]) && goal[k] == SetRange(recs[k], starts[k], starts[k] + Size(recs[k]))
    && (k + 1 < |recs| ==> starts[k+1] == Align(starts[k] + (Size(recs[k]) + 1), block))
  }

  /** The loop with its running address places each file at its start. */
  lemma {:induction false} RelocatedFrom(recs: seq<Rec>, now: seq<Rec>, goal: seq<Rec>, starts: seq<nat>, i: nat,
                                         block: nat)
    requires 0 < block && 1 <= i < |recs| == |now| == |goal| == |starts|
    requires forall k {:trigger Linked(recs, starts, goal, block, k)} ::
               1 <= k < |recs| ==> Linked(recs, starts, goal, block, k)
    requires forall k {:trigger now[k]} :: i <= k < |recs| ==> now[k] == recs[k] && 0 <= Size(now[k])
    requires forall k {:trigger now[k]} :: 1 <= k < i ==> now[k] == goal[k]
    ensures var out := Relocated(now, i, starts[i], block);
            out[0] == now[0] && forall k {:trigger out[k]} :: 1 <= k < |recs| ==> out[k] == goal[k]
    decreases |recs| - i
  {
    assert now[i] == recs[i] && Linked(recs, starts, goal, block, i);
    var moved := now[i := goal[i]];
    if i + 1 < |recs| {
      RelocatedFrom(recs, moved, goal, starts, i + 1, block);
    } else {
      assert Relocated(moved, i + 1, Align(starts[i] + (Size(recs[i]) + 1), block), block) == moved;
    }
  }

  lemma LayoutAt(recs: seq<Rec>, base: nat, block: nat, i: nat, a: nat)
    requires GoodImage(recs) && 0 < block && 1 <= i < |recs| && a == Start(recs, i, base, block)
    ensures 0 <= Size(recs[i])
    ensures Layout(recs, base, block)[i] == SetRange(recs[i], a, a + Size(recs[i]))
  {
    PlacedAt(recs, base, block, i, a);
    var out := Layout(recs, base, block);
    assert out[i] == Placed(recs, i, base, block);
  }

  lemma PlacedAt(recs: seq<Rec>, base: nat, block: nat, i: nat, a: nat)
    requires GoodImage(recs) && 0 < block && 1 <= i < |recs| && a == Start(recs, i, base, block)
    ensures 0 <= Size(recs[i]) && Placed(recs, i, base, block) == SetRange(recs[i], a, a + Size(recs[i]))
  {
  }

  lemma NextStart(recs: seq<Rec>, base: nat, block: nat, i: nat, a: nat, b: nat)
    requires GoodImage(recs) && 0 < block && 1 <= i < |recs| - 1
    requires a == Start(recs, i, base, block) && 0 <= Size(recs[i]) && b == Align(a + Size(recs[i]) + 1, block)
    ensures b == Start(recs, i + 1, base, block)
  {
  }

  lemma LayoutHead(recs: seq<Rec>, base: nat, block: nat)
    requires GoodImage(recs) && 0 < block && Fits(recs, base, block)
    ensures var out := Layout(recs, base, block); out[0] == SetRange(recs[0], base, Last(out[|recs|-1]))
  {
    PlacedFields(recs, base, block, |recs| - 1);
  }

  /** The directory `recs` is stored from `entry` on. */
  ghost predicate HasDirectory(data: Bytes, entry: nat, recs: seq<Rec>) {
    && entry + REC_BYTES * |recs| <= |data|
    && forall i {:trigger recs[i]} :: 0 <= i < |recs| ==>
         data[entry + REC_BYTES * i..entry + REC_BYTES * i + REC_BYTES] == recs[i]
  }

  /** `storage_sdbfs_erase`: as many blocks as there are records, and nothing else. */
  method EraseAll(dev: StorageDevice, base: nat, n: nat)
    requires dev.Valid() && base + n * dev.block <= dev.data.Length
    modifies dev.data
    ensures var s := SectorBase(base, dev.block);
            forall k :: 0 <= k < dev.data.Length ==>
              dev.data[k] == if s <= k < s + n * dev.block then 0xff else old(dev.data[k])
  {
    var total := n * dev.block;
    var count := 0;
    ghost var i, s := 0, SectorBase(base, dev.block);
    while count < total
      invariant 0 <= i <= n && count == i * dev.block
      invariant forall k :: 0 <= k < dev.data.Length ==>
                  dev.data[k] == if s <= k < s + count then 0xff else old(dev.data[k])
      decreases total - count
    {
      assert i < n;
      MulMonotone(i + 1, n, dev.block);
      NextSector(base, i, dev.block);
      OneBlock(dev.block);
      var _ := dev.Erase(base + count, dev.block);
      count := count + dev.block;
      i := i + 1;
    }
    MulMonotone(i, n, dev.block);
  }

  lemma OneBlock(block: nat)
    requires 0 < block
    ensures Align(block, block) == block
  {
    DivModUnique(block + block - 1, block, 1, block - 1);
  }

  /** The blocks erased by a format reach to the end of the directory, or need not. */
  predicate Reaches(dev: StorageDevice, base: nat, n: nat)
    requires dev.Valid()
  {
    dev.flash ==> base + n * REC_BYTES <= SectorBase(base, dev.block) + n * dev.block
  }

  /** They do from a block boundary on, with blocks of at least a record. */
  lemma AlignedReaches(dev: StorageDevice, base: nat, n: nat)
    requires dev.Valid() && base % dev.block == 0 && REC_BYTES <= dev.block
    ensures Reaches(dev, base, n)
  {
    AlignedIsOwnBase(base, dev.block);
    MulMonotone(REC_BYTES, dev.block, n);
  }

  /** `storage_sdbfs_format`: relocate, erase, write the directory. */
  method Format(dev: StorageDevice, image: array<Rec>, base: nat)
    requires dev.Valid() && GoodImage(image[..]) && Fits(image[..], base, dev.block)
    requires base + image.Length * dev.block <= dev.data.Length
    requires base + image.Length * REC_BYTES <= dev.data.Length
    modifies image, dev.data
    ensures image[..] == Layout(old(image[..]), base, dev.block)
    ensures Reaches(dev, base, image.Length) ==> HasDirectory(dev.data[..], base, image[..])
    ensures var s := SectorBase(base, dev.block);
            forall k :: 0 <= k < dev.data.Length && !(base <= k < base + image.Length * REC_BYTES) ==>
              dev.data[k] == if s <= k < s + image.Length * dev.block then 0xff else old(dev.data[k])
  {
    Relocate(image, base, dev.block);
    EraseAll(dev, base, image.Length);
    WriteDirectory(dev, image, base);
  }

  method WriteDirectory(dev: StorageDevice, image: array<Rec>, base: nat)
    requires base + image.Length * REC_BYTES <= dev.data.Length
    modifies dev.data
    ensures old(dev.Takes(base, image.Length * REC_BYTES)) ==> HasDirectory(dev.data[..], base, image[..])
    ensures forall k :: 0 <= k < dev.data.Length && !(base <= k < base + image.Length * REC_BYTES) ==>
              dev.data[k] == old(dev.data[k])
  {
    ghost var recs, takes := image[..], dev.Takes(base, image.Length * REC_BYTES);
    var i := 0;
    while i < image.Length
      invariant 0 <= i <= image.Length
      invariant takes ==> HasDirectory(dev.data[..], base, recs[..i])
      invariant forall k :: 0 <= k < dev.data.Length && !(base <= k < base + i * REC_BYTES) ==>
                  dev.data[k] == old(dev.data[k])
    {
      ghost var before := dev.data[..];
      assert takes ==> dev.Takes(base + i * REC_BYTES, REC_BYTES);
      dev.Write(base + i * REC_BYTES, image[i]);
      if takes { DirectoryGrows(before, dev.data[..], base, recs, i); }
      i := i + 1;
    }
    assert recs[..i] == recs;
  }

  lemma DirectoryGrows(before: Bytes, after: Bytes, base: nat, recs: seq<Rec>, i: nat)
    requires i < |recs| && HasDirectory(before, base, recs[..i]) && base + REC_BYTES * (i + 1) <= |before|
    requires after == before[..base + i * REC_BYTES] + recs[i] + before[base + i * REC_BYTES + REC_BYTES..]
    ensures HasDirectory(after, base, recs[..i+1])
  {
    var now := recs[..i+1];
    forall k | 0 <= k < |now| ensures after[base + REC_BYTES * k..base + REC_BYTES * k + REC_BYTES] == now[k] {
      var a := base + REC_BYTES * k;
      if k < i {
        assert recs[..i][k] == now[k];
        assert after[a..a + REC_BYTES] == before[a..a + REC_BYTES];
      } else {
        assert after[a..a + REC_BYTES] == recs[i];
      }
    }
  }

  // ---------------------------------------------------------------------------------------------
  // Files
  // ---------------------------------------------------------------------------------------------

  predicate IsDirectory(r: Rec) {
    RecordType(r) == TYPE_INTERCONNECT && Magic(r) == SDB_MAGIC
  }

  /** The directory begins with a proper interconnect record that counts the others. */
  predicate GoodDirectory(recs: seq<Rec>) {
    1 <= |recs| && IsDirectory(recs[0]) && Records(recs[0]) == |recs|
  }

  predicate Matches(r: Rec, vid: Bytes, did: Bytes) {
    Vendor(r) == vid && Device(r) == did
  }

  /** `m` is the first record of this identity from `lo` up to `hi`, or `hi` if there is none. */
  predicate IsFirstIn(recs: seq<Rec>, lo: nat, hi: nat, vid: Bytes, did: Bytes, m: nat)
    requires hi <= |recs|
  {
    && lo <= m <= hi && (m < hi ==> Matches(recs[m], vid, did))
    && forall k :: lo <= k < m ==> !Matches(recs[k], vid, did)
  }

  /** The first file with this identity, or the number of records if there is none. */
  predicate IsFirstMatch(recs: seq<Rec>, vid: Bytes, did: Bytes, m: nat) {
    IsFirstIn(recs, 1, |recs|, vid, did, m)
  }

  /** `struct sdbfs` */
  class Sdbfs {
    const dev: StorageDevice
    const entrypoint: nat
    var current: Rec
    var isOpen: bool
    var fLen: int
    var fOffset: nat
    var pos: nat
    var nleft: int

    constructor (dev: StorageDevice, entrypoint: nat)
      ensures this.dev == dev && this.entrypoint == entrypoint && !isOpen && nleft == 0
    {
      this.dev, this.entrypoint := dev, entrypoint;
      isOpen, fLen, fOffset, pos, nleft := false, 0, 0, 0, 0;
      current := seq(REC_BYTES, _ => 0);
    }

    ghost predicate Mounted(recs: seq<Rec>)
      reads this, dev.data
    {
      GoodDirectory(recs) && HasDirectory(dev.data[..], entrypoint, recs)
    }

    /** `recs` is what the device holds from the entry point on. */
    ghost predicate Holds(recs: seq<Rec>)
      reads this, dev.data
    {
      1 <= |recs| && HasDirectory(dev.data[..], entrypoint, recs)
    }

    /** Starts a scan at the directory record, which must be an interconnect with the magic number. */
    method ScanNewDir(ghost recs: seq<Rec>) returns (ok: bool)
      requires Holds(recs) && pos == entrypoint
      modifies this`current, this`isOpen, this`pos, this`nleft
      ensures isOpen && current == recs[0] && (ok <==> IsDirectory(recs[0]))
      ensures ok <==> recs[0][63] == 0 && FromBE(recs[0][0..4]) == 0x5344_422d
      ensures ok ==> pos == entrypoint + 64 && nleft == FromBE(recs[0][4..6]) - 1
      ensures !ok ==> pos == entrypoint && nleft == old(nleft)
    {
      assert recs[0] == dev.data[..][entrypoint + REC_BYTES * 0..entrypoint + REC_BYTES * 0 + REC_BYTES];
      current := dev.Read(pos, REC_BYTES);
      isOpen := true;
      if RecordType(current) != TYPE_INTERCONNECT {
        return false;
      }
      if Magic(current) != SDB_MAGIC {
        return false;
      }
      nleft := Records(current) - 1;
      pos := pos + REC_BYTES;
      return true;
    }

    /** The next record of the scan, if any. */
    method ScanNext(ghost recs: seq<Rec>, ghost i: nat) returns (ok: bool)
      requires Holds(recs) && pos == entrypoint + REC_BYTES * i && 0 <= nleft && i + nleft <= |recs|
      modifies this`current, this`isOpen, this`pos, this`nleft, this`fOffset
      ensures ok <==> old(nleft) > 0
      ensures ok ==> isOpen && current == recs[i] && fOffset == First(recs[i])
      ensures ok ==> pos == entrypoint + REC_BYTES * (i + 1) && nleft == old(nleft) - 1
      ensures !ok ==> unchanged(this)
    {
      if nleft == 0 {
        return false;
      }
      assert recs[i] == dev.data[..][entrypoint + REC_BYTES * i..entrypoint + REC_BYTES * i + REC_BYTES];
      current := dev.Read(pos, REC_BYTES);
      isOpen := true;
      pos := pos + REC_BYTES;
      nleft := nleft - 1;
      fOffset := First(current);
      return true;
    }

    /** The records an open looks at.  Without a proper directory record these are as many as the scan
        before had left, from the entry point on. */
    ghost function Candidates(recs: seq<Rec>): (r: (nat, nat))
      requires recs != []
      reads this
    {
      if IsDirectory(recs[0]) then (1, Records(recs[0])) else (0, if nleft < 0 then 0 else nleft)
    }

    /** Looks through the records of the scan, of which `lo` is the next and `hi` behind the last. */
    method Search(vid: Bytes, did: Bytes, ghost recs: seq<Rec>, ghost lo: nat, ghost hi: nat)
      returns (ok: bool, ghost m: nat)
      requires Holds(recs) && lo <= hi <= |recs| && pos == entrypoint + REC_BYTES * lo && nleft == hi - lo
      modifies this
      ensures Holds(recs) && IsFirstIn(recs, lo, hi, vid, did, m) && 0 <= nleft && (!ok ==> nleft == 0)
      ensures ok <==> m < hi
      ensures ok ==> isOpen && current == recs[m] && fOffset == First(recs[m]) && fLen == Last(recs[m]) + 1 - fOffset
    {
      m := lo;
      ok := ScanNext(recs, m);
      while ok
        invariant lo <= m <= hi && Holds(recs) && 0 <= nleft && (ok <==> m < hi) && (!ok ==> nleft == 0)
        invariant ok ==> isOpen && current == recs[m] && fOffset == First(recs[m])
        invariant ok ==> pos == entrypoint + REC_BYTES * (m + 1) && nleft == hi - m - 1
        invariant forall k :: lo <= k < m ==> !Matches(recs[k], vid, did)
        decreases hi - m
      {
        if vid == Vendor(current) && did == Device(current) {
          fLen := Last(current) + 1 - fOffset;
          return;
        }
        m := m + 1;
        ok := ScanNext(recs, m);
      }
    }

    /** Opens a file by identity: exactly the first candidate so named, with its range. */
    method OpenId(vid: Bytes, did: Bytes, ghost recs: seq<Rec>) returns (ok: bool, ghost m: nat)
      requires Holds(recs) && 0 <= nleft && Candidates(recs).0 <= Candidates(recs).1 <= |recs|
      modifies this
      ensures Holds(recs) && IsFirstIn(recs, old(Candidates(recs)).0, old(Candidates(recs)).1, vid, did, m)
      ensures 0 <= nleft && (ok <==> m < old(Candidates(recs)).1) && (!ok ==> nleft == 0)
      ensures ok ==> isOpen && current == recs[m] && fOffset == First(recs[m]) && fLen == Last(recs[m]) + 1 - fOffset
      ensures ok ==> recs[m][24..32] == vid && recs[m][32..36] == did
      ensures ok ==> fOffset == FromBE(recs[m][8..16]) && fOffset + fLen == FromBE(recs[m][16..24]) + 1
      ensures forall k :: old(Candidates(recs)).0 <= k < m ==> recs[k][24..32] != vid || recs[k][32..36] != did
    {
      ghost var lo, hi := Candidates(recs).0, Candidates(recs).1;
      pos := entrypoint;
      var found := ScanNewDir(recs);
      if found {
        fOffset := First(current);
      }
      ok, m := Search(vid, did, recs, lo, hi);
    }

    /** `sdbfs_ferase` of the whole open file. */
    method EraseFile() returns (ret: int)
      requires dev.Valid() && 0 <= fLen && SectorBase(fOffset, dev.block) + Align(fLen, dev.block) <= dev.data.Length
      modifies dev.data
      ensures isOpen ==> ret == fLen && forall k :: 0 <= k < dev.data.Length ==>
                dev.data[k] == if Erased(fOffset, fLen, dev.block, k) then 0xff else old(dev.data[k])
      ensures !isOpen ==> ret < 0 && dev.data[..] == old(dev.data[..])
    {
      if !isOpen {
        return -2;
      }
      ret := dev.Erase(fOffset, fLen);
    }
  }

  /** Without a proper directory every open fails iff the scan before had no record left. */
  lemma NoDirectoryFailsIff(recs: seq<Rec>, left: nat)
    requires left <= |recs|
    ensures (forall vid, did :: IsFirstIn(recs, 0, left, vid, did, left)) <==> left == 0
  {
    if left > 0 {
      assert Matches(recs[0], Vendor(recs[0]), Device(recs[0]));
      assert !IsFirstIn(recs, 0, left, Vendor(recs[0]), Device(recs[0]), left);
    }
  }

  /** A formatted directory is a proper one. */
  lemma FormatKeepsDirectory(recs: seq<Rec>, base: nat, block: nat)
    requires 0 < block && GoodImage(recs) && GoodDirectory(recs) && Fits(recs, base, block)
    ensures GoodDirectory(Layout(recs, base, block))
  {
    EndFits(recs, base, block, |recs| - 1);
    var last := End(recs, |recs| - 1, base, block);
    SetRangeFields(recs[0], base, last);
    assert Layout(recs, base, block)[0] == SetRange(recs[0], base, last);
  }

  /** And it names the same files as before. */
  lemma FormatKeepsNames(recs: seq<Rec>, base: nat, block: nat, vid: Bytes, did: Bytes, m: nat)
    requires 0 < block && GoodImage(recs) && Fits(recs, base, block)
    ensures IsFirstMatch(Layout(recs, base, block), vid, did, m) <==> IsFirstMatch(recs, vid, did, m)
  {
    var out := Layout(recs, base, block);
    forall k | 1 <= k < |recs| ensures Vendor(out[k]) == Vendor(recs[k]) && Device(out[k]) == Device(recs[k]) {
      PlacedFields(recs, base, block, k);
      assert out[k] == Placed(recs, k, base, block);
    }
  }

  // ---------------------------------------------------------------------------------------------
  // Format, open and erase together
  // ---------------------------------------------------------------------------------------------

  /** The device reaches to the end of the last file's last block. */
  ghost predicate Room(recs: seq<Rec>, base: nat, block: nat, size: nat)
    requires GoodImage(recs) && 0 < block
  {
    Align(End(recs, |recs| - 1, base, block) + 1, block) <= size
  }

  lemma BlocksOnDevice(recs: seq<Rec>, base: nat, block: nat, m: nat, size: nat)
    requires GoodImage(recs) && 0 < block && Room(recs, base, block, size) && 1 <= m < |recs|
    ensures Align(End(recs, m, base, block) + 1, block) <= size
  {
    if m < |recs| - 1 {
      FilesInOrder(recs, m, |recs| - 1, base, block);
      assert Start(recs, |recs| - 1, base, block) <= End(recs, |recs| - 1, base, block);
    }
  }

  /** An aligned file is covered by whole sectors from its start. */
  lemma AlignedFile(r: Rec, block: nat, end: nat)
    requires 0 < block && First(r) % block == 0 && 0 <= Size(r) && Last(r) == end
    ensures SectorBase(First(r), block) == First(r) && First(r) + Align(Size(r) + 1, block) == Align(end + 1, block)
    ensures forall k :: InFile(r, k) ==> Erased(First(r), Size(r) + 1, block, k)
  {
    AlignedIsOwnBase(First(r), block);
    AlignShift(First(r), Size(r) + 1, block);
  }

  /** The sectors of file `m`: its own bytes are among them, and they are all on the device. */
  lemma FileSectors(recs: seq<Rec>, base: nat, block: nat, m: nat, size: nat, r: Rec)
    requires GoodImage(recs) && 0 < block && base % block == 0 && Fits(recs, base, block) && Room(recs, base, block, size)
    requires 1 <= m < |recs| && r == Layout(recs, base, block)[m]
    ensures First(r) == Start(recs, m, base, block) && Size(r) == Size(recs[m]) >= 0
    ensures SectorBase(First(r), block) == First(r) && First(r) + Align(Size(r) + 1, block) <= size
    ensures forall k :: InFile(r, k) ==> Erased(First(r), Size(r) + 1, block, k)
  {
    PlacedFields(recs, base, block, m);
    LayoutKeepsFiles(recs, base, block, m);
    AlignedFile(r, block, End(recs, m, base, block));
    BlocksOnDevice(recs, base, block, m, size);
  }

  /** Formatting makes a device that can be mounted at the base. */
  method FormatAndMount(dev: StorageDevice, image: array<Rec>, base: nat) returns (fs: Sdbfs)
    requires dev.Valid() && GoodImage(image[..]) && GoodDirectory(image[..]) && Fits(image[..], base, dev.block)
    requires base + image.Length * dev.block <= dev.data.Length
    requires base + image.Length * REC_BYTES <= dev.data.Length
    modifies image, dev.data
    ensures fs.dev == dev && fs.entrypoint == base && fs.nleft == 0
    ensures Reaches(dev, base, image.Length) ==> fs.Mounted(Layout(old(image[..]), base, dev.block))
  {
    FormatKeepsDirectory(image[..], base, dev.block);
    Format(dev, image, base);
    fs := new Sdbfs(dev, base);
  }

  /** No byte of the directory or of a file other than `m` is changed. */
  ghost predicate Spares(before: Bytes, after: Bytes, recs: seq<Rec>, base: nat, block: nat, m: nat)
    requires GoodImage(recs) && 0 < block && |before| == |after|
  {
    && (forall k :: 0 <= k < |after| && k < base + |recs| * REC_BYTES ==> after[k] == before[k])
    && (forall j, k {:trigger InFile(Layout(recs, base, block)[j], k)} ::
          1 <= j < |recs| && j != m && 0 <= k < |after| && InFile(Layout(recs, base, block)[j], k) ==> after[k] == before[k])
  }

  lemma EraseSpares(before: Bytes, after: Bytes, recs: seq<Rec>, base: nat, block: nat, m: nat)
    requires GoodImage(recs) && 0 < block && base % block == 0 && Fits(recs, base, block) && 1 <= m < |recs|
    requires |before| == |after|
    requires var r := Layout(recs, base, block)[m];
             && 0 <= Size(r)
             && forall k :: 0 <= k < |after| && !Erased(First(r), Size(r) + 1, block, k) ==> after[k] == before[k]
    ensures Spares(before, after, recs, base, block, m)
  {
    var out := Layout(recs, base, block);
    var r := out[m];
    forall k | 0 <= k < |after| && k < base + |recs| * REC_BYTES ensures after[k] == before[k] {
      if Erased(First(r), Size(r) + 1, block, k) { EraseIsLocal(recs, base, block, m, k); }
    }
    forall j, k | 1 <= j < |recs| && j != m && 0 <= k < |after| && InFile(out[j], k) ensures after[k] == before[k] {
      if Erased(First(r), Size(r) + 1, block, k) { EraseIsLocal(recs, base, block, m, k); }
    }
  }

  lemma DirectoryKept(before: Bytes, after: Bytes, base: nat, recs: seq<Rec>)
    requires |before| == |after| && HasDirectory(before, base, recs)
    requires forall k :: 0 <= k < |after| && k < base + |recs| * REC_BYTES ==> after[k] == before[k]
    ensures HasDirectory(after, base, recs)
  {
    forall i | 0 <= i < |recs| ensures after[base + REC_BYTES * i..base + REC_BYTES * i + REC_BYTES] == recs[i] {
      assert before[base + REC_BYTES * i..base + REC_BYTES * i + REC_BYTES] == recs[i];
    }
  }

  /** Erases the open file `m` of a formatted device. */
  method EraseOpened(fs: Sdbfs, ghost recs: seq<Rec>, ghost m: nat)
    requires fs.dev.Valid() && GoodImage(recs) && fs.entrypoint % fs.dev.block == 0 && 1 <= m < |recs|
    requires Fits(recs, fs.entrypoint, fs.dev.block) && Room(recs, fs.entrypoint, fs.dev.block, fs.dev.data.Length)
    requires var r := Layout(recs, fs.entrypoint, fs.dev.block)[m];
             fs.isOpen && fs.fOffset == First(r) && fs.fLen == Size(r) + 1
    modifies fs.dev.data
    ensures forall k :: 0 <= k < fs.dev.data.Length && fs.fOffset <= k < fs.fOffset + fs.fLen ==> fs.dev.data[k] == 0xff
    ensures Spares(old(fs.dev.data[..]), fs.dev.data[..], recs, fs.entrypoint, fs.dev.block, m)
  {
    ghost var base, block, before := fs.entrypoint, fs.dev.block, fs.dev.data[..];
    ghost var r := Layout(recs, base, block)[m];
    FileSectors(recs, base, block, m, fs.dev.data.Length, r);
    var _ := fs.EraseFile();
    assert forall k :: 0 <= k < fs.dev.data.Length && InFile(r, k) ==> fs.dev.data[k] == 0xff;
    EraseSpares(before, fs.dev.data[..], recs, base, block, m);
  }

  /** Erasing a file of a formatted device by its name: it is the first file of that name in the image,
      at the range the layout gave it, its bytes are blank afterwards, and the directory and all other
      files are as they were. */
  method EraseNamed(fs: Sdbfs, vid: Bytes, did: Bytes, ghost recs: seq<Rec>) returns (ok: bool, ghost m: nat)
    requires fs.dev.Valid() && GoodImage(recs) && fs.entrypoint % fs.dev.block == 0
    requires Fits(recs, fs.entrypoint, fs.dev.block) && Room(recs, fs.entrypoint, fs.dev.block, fs.dev.data.Length)
    requires fs.Mounted(Layout(recs, fs.entrypoint, fs.dev.block)) && 0 <= fs.nleft
    modifies fs, fs.dev.data
    ensures IsFirstMatch(recs, vid, did, m) && (ok <==> m < |recs|)
    ensures fs.Mounted(Layout(recs, fs.entrypoint, fs.dev.block)) && 0 <= fs.nleft
    ensures !ok ==> fs.dev.data[..] == old(fs.dev.data[..])
    ensures ok ==> fs.fOffset == Start(recs, m, fs.entrypoint, fs.dev.block) && fs.fLen == Size(recs[m]) + 1
    ensures ok ==>
              forall k :: 0 <= k < fs.dev.data.Length && fs.fOffset <= k < fs.fOffset + fs.fLen ==> fs.dev.data[k] == 0xff
    ensures ok ==> Spares(old(fs.dev.data[..]), fs.dev.data[..], recs, fs.entrypoint, fs.dev.block, m)
  {
    ghost var base, block, before := fs.entrypoint, fs.dev.block, fs.dev.data[..];
    ghost var out := Layout(recs, base, block);
    ok, m := fs.OpenId(vid, did, out);
    FormatKeepsNames(recs, base, block, vid, did, m);
    if !ok {
      return;
    }
    PlacedFields(recs, base, block, m);
    EraseOpened(fs, recs, m);
    DirectoryKept(before, fs.dev.data[..], base, out);
  }
}
