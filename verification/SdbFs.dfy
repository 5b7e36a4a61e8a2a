/** The SDB file system: layout, directory scan and sector erase
    (dev/storage.c, dev/sdbfs.c, dev/spi_flash.c). */
module SdbFs {
  import opened Octets
  import opened Arith

  const REC_BYTES: nat := 64

  /** A directory record, as stored. */
  type Rec = b: Bytes | |b| == REC_BYTES witness seq(REC_BYTES, _ => 0)

  function First(r: Rec): nat { FromBE(r[8..16]) }
  function Last(r: Rec): nat { FromBE(r[16..24]) }
  function Vendor(r: Rec): Bytes { r[24..32] }
  function Device(r: Rec): Bytes { r[32..36] }
  function RecordType(r: Rec): u8 { r[63] }
  function Magic(r: Rec): nat { FromBE(r[0..4]) }
  function Records(r: Rec): nat { FromBE(r[4..6]) }

  const SDB_MAGIC: nat := 0x5344_422d
  const TYPE_INTERCONNECT: u8 := 0

  /** The length of a file minus one, kept by relocation. */
  function Size(r: Rec): int { Last(r) - First(r) }

  function SetRange(r: Rec, first: nat, last: nat): Rec {
    r[..8] + ToBE(first, 8) + ToBE(last, 8) + r[24..]
  }

  lemma SetRangeFields(r: Rec, first: nat, last: nat)
    requires first < 0x8000_0000 && last < 0x8000_0000
    ensures var s := SetRange(r, first, last);
            && First(s) == first && Last(s) == last && Vendor(s) == Vendor(r) && Device(s) == Device(r)
            && RecordType(s) == RecordType(r) && Magic(s) == Magic(r) && Records(s) == Records(r)
  {
    var s := SetRange(r, first, last);
    assert Pow256(8) == 0x1_0000_0000_0000_0000;
    FromToBE(first, 8);
    FromToBE(last, 8);
    assert s[8..16] == ToBE(first, 8) && s[16..24] == ToBE(last, 8);
    assert s[24..32] == r[24..32] && s[32..36] == r[32..36] && s[0..4] == r[0..4] && s[4..6] == r[4..6];
  }

  lemma SetRangeTwice(r: Rec, a: nat, b: nat, c: nat, d: nat)
    ensures SetRange(SetRange(r, a, b), c, d) == SetRange(r, c, d)
  {
    var s := SetRange(r, a, b);
    assert s[..8] == r[..8] && s[24..] == r[24..];
  }

  // ---------------------------------------------------------------------------------------------
  // Layout
  // ---------------------------------------------------------------------------------------------

  lemma RoundedDown(y: nat, block: nat)
    requires 0 < block
    ensures 0 <= y % block < block && y % block <= y && (y - y % block) % block == 0
  {
    DivMod(y, block);
    MulMonotone(0, y / block, block);
    DivModUnique(y - y % block, block, y / block, 0);
  }

  /** `SDB_ALIGN`, for a block size that is a power of two: up to the next multiple. */
  function Align(x: nat, block: nat): (a: nat)
    requires 0 < block
    ensures x <= a < x + block && a % block == 0
  {
    var y := x + block - 1;
    RoundedDown(y, block);
    y - y % block
  }

  /** A directory to be formatted: its own record, then files of non-negative size. */
  ghost predicate GoodImage(recs: seq<Rec>) {
    2 <= |recs| && forall i {:trigger Size(recs[i])} :: 1 <= i < |recs| ==> 0 <= Size(recs[i])
  }

  /** Where file `i` is placed. */
  ghost function Start(recs: seq<Rec>, i: nat, base: nat, block: nat): (a: nat)
    requires GoodImage(recs) && 1 <= i < |recs| && 0 < block
    ensures base <= a
  {
    if i == 1 then base + Align(|recs| * REC_BYTES, block)
    else
      assert 0 <= Size(recs[i-1]);
      Align(Start(recs, i - 1, base, block) + Size(recs[i-1]) + 1, block)
  }

  ghost function End(recs: seq<Rec>, i: nat, base: nat, block: nat): nat
    requires GoodImage(recs) && 1 <= i < |recs| && 0 < block
  {
    assert 0 <= Size(recs[i]);
    Start(recs, i, base, block) + Size(recs[i])
  }

  /** The record of file `i`, or of the directory, after formatting. */
  ghost function Placed(recs: seq<Rec>, i: nat, base: nat, block: nat): Rec
    requires GoodImage(recs) && i < |recs| && 0 < block
  {
    if i == 0 then SetRange(recs[0], base, End(recs, |recs| - 1, base, block))
    else SetRange(recs[i], Start(recs, i, base, block), End(recs, i, base, block))
  }

  /** The formatted directory. */
  ghost function Layout(recs: seq<Rec>, base: nat, block: nat): (out: seq<Rec>)
    requires GoodImage(recs) && 0 < block
    ensures |out| == |recs|
    ensures forall i {:trigger out[i]} :: 0 <= i < |recs| ==> out[i] == Placed(recs, i, base, block)
  {
    seq(|recs|, i requires 0 <= i < |recs| => Placed(recs, i, base, block))
  }

  /** All addresses fit the `int` they are computed in. */
  ghost predicate Fits(recs: seq<Rec>, base: nat, block: nat)
    requires GoodImage(recs) && 0 < block
  {
    End(recs, |recs| - 1, base, block) < 0x8000_0000
  }

  /** A file starts in the first block free behind its predecessor. */
  lemma StartStep(recs: seq<Rec>, j: nat, base: nat, block: nat)
    requires GoodImage(recs) && 1 < j < |recs| && 0 < block
    ensures Start(recs, j, base, block) == Align(End(recs, j - 1, base, block) + 1, block)
    ensures Start(recs, j - 1, base, block) <= End(recs, j - 1, base, block) < Start(recs, j, base, block)
    ensures Start(recs, j, base, block) <= End(recs, j, base, block)
  {
    assert 0 <= Size(recs[j]) && 0 <= Size(recs[j-1]);
  }

  lemma {:induction false} FilesInOrder(recs: seq<Rec>, i: nat, j: nat, base: nat, block: nat)
    requires GoodImage(recs) && 1 <= i < j < |recs| && 0 < block
    ensures Start(recs, i, base, block) <= End(recs, i, base, block) < Start(recs, j, base, block)
    ensures Align(End(recs, i, base, block) + 1, block) <= Start(recs, j, base, block)
    ensures End(recs, i, base, block) < End(recs, j, base, block)
    decreases j
  {
    StartStep(recs, j, base, block);
    if i < j - 1 {
      FilesInOrder(recs, i, j - 1, base, block);
    }
  }

  lemma {:induction false} StartAligned(recs: seq<Rec>, i: nat, base: nat, block: nat)
    requires GoodImage(recs) && 1 <= i < |recs| && 0 < block && base % block == 0
    ensures Start(recs, i, base, block) % block == 0
    ensures base + |recs| * REC_BYTES <= Start(recs, i, base, block)
  {
    if i == 1 {
      AlignedSum(base, Align(|recs| * REC_BYTES, block), block);
    } else {
      FilesInOrder(recs, i - 1, i, base, block);
      StartAligned(recs, i - 1, base, block);
    }
  }

  lemma AlignedSum(a: nat, b: nat, block: nat)
    requires 0 < block && a % block == 0 && b % block == 0
    ensures (a + b) % block == 0
  {
    var p, q := a / block, b / block;
    assert a == p * block && b == q * block;
    assert (p + q) * block == p * block + q * block;
    DivModUnique(a + b, block, p + q, 0);
  }

  /** What the formatted record of a file says. */
  lemma PlacedFields(recs: seq<Rec>, base: nat, block: nat, i: nat)
    requires GoodImage(recs) && 0 < block && Fits(recs, base, block) && 1 <= i < |recs|
    ensures var r := Placed(recs, i, base, block);
            && First(r) == Start(recs, i, base, block) && Last(r) == End(recs, i, base, block)
            && Size(r) == Size(recs[i]) >= 0 && Vendor(r) == Vendor(recs[i]) && Device(r) == Device(recs[i])
  {
    EndFits(recs, base, block, i);
    var a, b := Start(recs, i, base, block), End(recs, i, base, block);
    SetRangeFields(recs[i], a, b);
  }

  lemma EndFits(recs: seq<Rec>, base: nat, block: nat, i: nat)
    requires GoodImage(recs) && 0 < block && Fits(recs, base, block) && 1 <= i < |recs|
    ensures 0 <= Size(recs[i]) == End(recs, i, base, block) - Start(recs, i, base, block)
    ensures End(recs, i, base, block) < 0x8000_0000
  {
    assert 0 <= Size(recs[i]);
    if i < |recs| - 1 { FilesInOrder(recs, i, |recs| - 1, base, block); }
  }

  /** After formatting at an aligned base each file is aligned, keeps its length and its identity,
      and lies behind the directory. */
  lemma LayoutKeepsFiles(recs: seq<Rec>, base: nat, block: nat, i: nat)
    requires GoodImage(recs) && 0 < block && base % block == 0 && Fits(recs, base, block)
    requires 1 <= i < |recs|
    ensures var r := Layout(recs, base, block)[i];
            && First(r) % block == 0 && base + |recs| * REC_BYTES <= First(r)
            && Size(r) == Size(recs[i]) >= 0 && Vendor(r) == Vendor(recs[i]) && Device(r) == Device(recs[i])
  {
    StartAligned(recs, i, base, block);
    PlacedFields(recs, base, block, i);
  }

  /** And the block in which a file ends is over before the next file starts. */
  lemma LayoutIsDisjoint(recs: seq<Rec>, base: nat, block: nat, i: nat, j: nat)
    requires GoodImage(recs) && 0 < block && Fits(recs, base, block)
    requires 1 <= i < j < |recs|
    ensures var out := Layout(recs, base, block); Align(Last(out[i]) + 1, block) <= First(out[j])
  {
    PlacedFields(recs, base, block, i);
    PlacedFields(recs, base, block, j);
    FilesInOrder(recs, i, j, base, block);
  }

  /** Only the two addresses of a record change. */
  lemma SetRangeBytes(r: Rec, first: nat, last: nat)
    requires first < 0x8000_0000 && last < 0x8000_0000
    ensures var s := SetRange(r, first, last);
            s[..8] == r[..8] && FromBE(s[8..16]) == first && FromBE(s[16..24]) == last && s[24..] == r[24..]
  {
    SetRangeFields(r, first, last);
    var s := SetRange(r, first, last);
    assert s[..8] == r[..8] && s[24..] == r[24..];
  }

  /** The first address free for a file is rounded up to a block. */
  ghost predicate NextBlock(start: int, free: int, block: nat)
    requires 0 < block
  {
    start % block == 0 && free <= start < free + block
  }

  /** The directory's own record says where it starts and where the last file ends. */
  lemma DirectoryInFull(recs: seq<Rec>, base: nat, block: nat, s: Rec, last: Rec)
    requires GoodImage(recs) && 0 < block && Fits(recs, base, block)
    requires s == Placed(recs, 0, base, block) && last == Placed(recs, |recs| - 1, base, block)
    ensures s[..8] == recs[0][..8] && s[24..] == recs[0][24..]
    ensures FromBE(s[8..16]) == base && FromBE(s[16..24]) == FromBE(last[16..24])
  {
    EndFits(recs, base, block, |recs| - 1);
    SetRangeBytes(recs[0], base, End(recs, |recs| - 1, base, block));
    PlacedFields(recs, base, block, |recs| - 1);
  }

  lemma FileInFull(recs: seq<Rec>, base: nat, block: nat, i: nat, s: Rec)
    requires GoodImage(recs) && 0 < block && Fits(recs, base, block) && 1 <= i < |recs|
    requires s == Placed(recs, i, base, block)
    ensures s[..8] == recs[i][..8] && s[24..] == recs[i][24..]
    ensures FromBE(s[8..16]) == Start(recs, i, base, block) && FromBE(s[16..24]) == End(recs, i, base, block)
    ensures FromBE(s[16..24]) - FromBE(s[8..16]) == FromBE(recs[i][16..24]) - FromBE(recs[i][8..16])
  {
    EndFits(recs, base, block, i);
    SetRangeBytes(recs[i], Start(recs, i, base, block), End(recs, i, base, block));
    PlacedFields(recs, base, block, i);
  }

  /** The whole layout, by the bytes of the records: the directory says where it starts and where the last
      file ends; the first file starts at the first block behind the directory, and each other one at the
      first block behind the file before; lengths stay, and so does all else. */
  lemma LayoutInFull(recs: seq<Rec>, base: nat, block: nat, i: nat, out: seq<Rec>)
    requires GoodImage(recs) && 0 < block && Fits(recs, base, block) && i < |recs| && out == Layout(recs, base, block)
    ensures |out| == |recs| && out[i][..8] == recs[i][..8] && out[i][24..] == recs[i][24..]
    ensures i == 0 ==> FromBE(out[0][8..16]) == base && FromBE(out[0][16..24]) == FromBE(out[|recs|-1][16..24])
    ensures i >= 1 ==> FromBE(out[i][16..24]) - FromBE(out[i][8..16]) == FromBE(recs[i][16..24]) - FromBE(recs[i][8..16])
    ensures i == 1 ==> NextBlock(FromBE(out[1][8..16]) - base, 64 * |recs|, block)
    ensures i >= 2 ==> NextBlock(FromBE(out[i][8..16]), FromBE(out[i-1][16..24]) + 1, block)
  {
    if i == 0 {
      DirectoryInFull(recs, base, block, out[0], out[|recs|-1]);
    } else {
      FileInFull(recs, base, block, i, out[i]);
      if i == 1 {
        FirstFile(recs, base, block);
      } else {
        FileInFull(recs, base, block, i - 1, out[i-1]);
        NextFile(recs, base, block, i);
      }
    }
  }

  lemma FirstFile(recs: seq<Rec>, base: nat, block: nat)
    requires GoodImage(recs) && 0 < block
    ensures NextBlock(Start(recs, 1, base, block) - base, 64 * |recs|, block)
  {
  }

  lemma NextFile(recs: seq<Rec>, base: nat, block: nat, i: nat)
    requires GoodImage(recs) && 0 < block && 2 <= i < |recs|
    ensures NextBlock(Start(recs, i, base, block), End(recs, i - 1, base, block) + 1, block)
  {
    StartStep(recs, i, base, block);
  }

  lemma {:induction false} SameSizesSameStart(a: seq<Rec>, b: seq<Rec>, i: nat, base: nat, block: nat)
    requires GoodImage(a) && GoodImage(b) && |a| == |b| && 1 <= i < |a| && 0 < block
    requires forall k {:trigger Size(a[k])} :: 1 <= k < |a| ==> Size(a[k]) == Size(b[k])
    ensures Start(a, i, base, block) == Start(b, i, base, block)
    ensures End(a, i, base, block) == End(b, i, base, block)
  {
    assert Size(a[i]) == Size(b[i]);
    if i > 1 {
      assert Size(a[i-1]) == Size(b[i-1]);
      SameSizesSameStart(a, b, i - 1, base, block);
    }
  }

  /** Formatting a second time, at another base or with another block size, gives the same directory
      as formatting there in the first place. */
  lemma ReformatForgets(recs: seq<Rec>, base: nat, block: nat, base': nat, block': nat)
    requires GoodImage(recs) && 0 < block && Fits(recs, base, block) && 0 < block'
    ensures GoodImage(Layout(recs, base, block))
    ensures Layout(Layout(recs, base, block), base', block') == Layout(recs, base', block')
  {
    var out := Layout(recs, base, block);
    forall i | 1 <= i < |recs| ensures Size(out[i]) == Size(recs[i]) && 0 <= Size(recs[i]) {
      PlacedFields(recs, base, block, i);
    }
    var x, y := Layout(out, base', block'), Layout(recs, base', block');
    forall i | 0 <= i < |recs| ensures x[i] == y[i] {
      PlacedTwice(recs, out, i, base, block, base', block');
    }
  }

  lemma PlacedTwice(recs: seq<Rec>, out: seq<Rec>, i: nat, base: nat, block: nat, base': nat, block': nat)
    requires GoodImage(recs) && GoodImage(out) && 0 < block && 0 < block' && i < |recs| == |out|
    requires out[i] == Placed(recs, i, base, block)
    requires forall k {:trigger Size(out[k])} :: 1 <= k < |recs| ==> Size(out[k]) == Size(recs[k])
    ensures Placed(out, i, base', block') == Placed(recs, i, base', block')
  {
    SameSizesSameStart(out, recs, if i == 0 then |recs| - 1 else i, base', block');
    if i == 0 {
      SetRangeTwice(recs[0], base, End(recs, |recs| - 1, base, block), base', End(recs, |recs| - 1, base', block'));
    } else {
      SetRangeTwice(recs[i], Start(recs, i, base, block), End(recs, i, base, block),
                    Start(recs, i, base', block'), End(recs, i, base', block'));
    }
  }

  // ---------------------------------------------------------------------------------------------
  // Sector erase
  // ---------------------------------------------------------------------------------------------

  /** The sector that holds an address. */
  function SectorBase(addr: nat, block: nat): (s: nat)
    requires 0 < block
    ensures s <= addr < s + block && s % block == 0
  {
    RoundedDown(addr, block);
    addr - addr % block
  }

  /** The bytes changed by erasing `count` bytes from `addr` on, by whole sectors. */
  predicate Erased(addr: nat, count: nat, block: nat, k: nat)
    requires 0 < block
  {
    SectorBase(addr, block) <= k < SectorBase(addr, block) + Align(count, block)
  }

  lemma AlignShift(a: nat, x: nat, block: nat)
    requires 0 < block && a % block == 0
    ensures a + Align(x, block) == Align(a + x, block)
  {
    var p, q := a / block, (x + block - 1) / block;
    var r := (x + block - 1) % block;
    assert a == p * block && x + block - 1 == q * block + r;
    assert (p + q) * block == p * block + q * block;
    DivModUnique(a + x + block - 1, block, p + q, r);
  }

  lemma AlignedIsOwnBase(a: nat, block: nat)
    requires 0 < block && a % block == 0
    ensures SectorBase(a, block) == a
  {
    assert a == (a / block) * block;
  }

  predicate InFile(r: Rec, k: nat) {
    First(r) <= k <= Last(r)
  }

  /** Erasing a whole file by sectors touches the directory and the other files in no byte. */
  lemma EraseIsLocal(recs: seq<Rec>, base: nat, block: nat, i: nat, k: nat)
    requires GoodImage(recs) && 0 < block && base % block == 0 && Fits(recs, base, block)
    requires 1 <= i < |recs|
    requires var r := Layout(recs, base, block)[i]; 0 <= Size(r) && Erased(First(r), Size(r) + 1, block, k)
    ensures base + |recs| * REC_BYTES <= k
    ensures forall j :: 1 <= j < |recs| && j != i ==> !InFile(Layout(recs, base, block)[j], k)
  {
    var out := Layout(recs, base, block);
    LayoutKeepsFiles(recs, base, block, i);
    AlignedIsOwnBase(First(out[i]), block);
    AlignShift(First(out[i]), Size(out[i]) + 1, block);
    forall j | 1 <= j < |recs| && j != i ensures !InFile(out[j], k) {
      if i < j {
        LayoutIsDisjoint(recs, base, block, i, j);
      } else {
        LayoutIsDisjoint(recs, base, block, j, i);
      }
    }
  }
}
