/** The SFP database kept in a file of the storage (dev/storage-sfp.c). */
module SfpDb {
  import opened Octets

  const SFPS_MAX: nat := 4
  const PN_BYTES: nat := 16
  const REC_BYTES: nat := 33

  const POSERR: int := -4
  const DBFULL: int := -2

  /** An entry; alpha and the delays are two's-complement words. */
  datatype Sfp = Sfp(pn: Bytes, alpha: nat, dTx: nat, dRx: nat) {
    predicate Shaped() {
      |pn| == PN_BYTES && alpha < Pow256(8) && dTx < Pow256(4) && dRx < Pow256(4)
    }

    /** Counted as an entry when read back. */
    predicate Good() {
      Shaped() && ValidPn(pn)
    }
  }

  /** `sfp_valid`: no 0xff in the part number. */
  predicate ValidPn(pn: Bytes) {
    |pn| == PN_BYTES && forall i :: 0 <= i < PN_BYTES ==> pn[i] != 0xff
  }

  /** `!strncmp(a, b, 16)`: equal up to the first NUL. */
  predicate SamePn(a: Bytes, b: Bytes) {
    |a| == PN_BYTES && |b| == PN_BYTES && SameFrom(a, b, 0)
  }

  predicate SameFrom(a: Bytes, b: Bytes, i: nat)
    requires |a| == PN_BYTES && |b| == PN_BYTES && i <= PN_BYTES
    decreases PN_BYTES - i
  {
    i == PN_BYTES || (a[i] == b[i] && (a[i] == 0 || SameFrom(a, b, i + 1)))
  }

  /** The same text: no difference at or before the first NUL. */
  ghost predicate SameText(a: Bytes, b: Bytes)
    requires |a| == 16 && |b| == 16
  {
    forall i {:trigger a[i]} :: 0 <= i < 16 && (forall k :: 0 <= k < i ==> a[k] != 0) ==> a[i] == b[i]
  }

  lemma {:induction false} SameFromIff(a: Bytes, b: Bytes, i: nat)
    requires |a| == 16 && |b| == 16 && i <= 16 && forall k :: 0 <= k < i ==> a[k] == b[k] && a[k] != 0
    ensures SameFrom(a, b, i) <==> SameText(a, b)
    decreases 16 - i
  {
    if i < 16 {
      if a[i] == b[i] && a[i] != 0 {
        SameFromIff(a, b, i + 1);
      } else if a[i] == b[i] {
        forall j | 0 <= j < 16 && (forall k :: 0 <= k < j ==> a[k] != 0) ensures a[j] == b[j] {
          assert !(i < j);
        }
      }
    }
  }

  lemma SamePnIff(a: Bytes, b: Bytes)
    requires |a| == 16 && |b| == 16
    ensures SamePn(a, b) <==> SameText(a, b)
  {
    SameFromIff(a, b, 0);
  }

  /** Behind the first NUL there are only NULs, as `strncpy` leaves a part number. */
  predicate Filled(pn: Bytes) {
    forall i, j :: 0 <= i < j < |pn| && pn[i] == 0 ==> pn[j] == 0
  }

  /** Part numbers so filled are the same only if they are equal. */
  lemma FilledPnIff(a: Bytes, b: Bytes)
    requires |a| == 16 && |b| == 16 && Filled(a) && Filled(b)
    ensures SamePn(a, b) <==> a == b
  {
    SamePnIff(a, b);
    if SameText(a, b) {
      forall j | 0 <= j < 16 ensures a[j] == b[j] {
        if i :| 0 <= i < j && a[i] == 0 {
          FirstNul(a, b, i);
          assert a[j] == 0 && b[j] == 0;
        }
      }
    }
  }

  lemma {:induction false} FirstNul(a: Bytes, b: Bytes, i: nat)
    requires |a| == 16 && |b| == 16 && Filled(a) && Filled(b) && SameText(a, b) && i < 16 && a[i] == 0
    ensures b[i] == 0
  {
    if k :| 0 <= k < i && a[k] == 0 {
      FirstNul(a, b, k);
    }
  }

  // ---------------------------------------------------------------------------------------------
  // Records
  // ---------------------------------------------------------------------------------------------

  function Body(s: Sfp): (b: Bytes)
    requires s.Shaped()
    ensures |b| == REC_BYTES - 1
  {
    s.pn + ToBE(s.alpha, 8) + ToBE(s.dTx, 4) + ToBE(s.dRx, 4)
  }

  function Encode(s: Sfp): (b: Bytes)
    requires s.Shaped()
    ensures |b| == REC_BYTES
  {
    Body(s) + [(Sum(Body(s)) % 256) as u8]
  }

  /** The check done on a record that has been read. */
  predicate ChecksumOk(b: Bytes)
    requires |b| == REC_BYTES
  {
    Sum(b[..REC_BYTES-1]) % 256 == b[REC_BYTES-1] as int
  }

  function Decode(b: Bytes): Sfp
    requires |b| == REC_BYTES
  {
    Sfp(b[..16], FromBE(b[16..24]), FromBE(b[24..28]), FromBE(b[28..32]))
  }

  /** A written record is read back with a valid checksum. */
  lemma DecodeEncode(s: Sfp)
    requires s.Shaped()
    ensures ChecksumOk(Encode(s)) && Decode(Encode(s)) == s
  {
    var b := Encode(s);
    assert b[..REC_BYTES-1] == Body(s);
    assert b[..16] == s.pn && b[16..24] == ToBE(s.alpha, 8) && b[24..28] == ToBE(s.dTx, 4) && b[28..32] == ToBE(s.dRx, 4);
    FromToBE(s.alpha, 8);
    FromToBE(s.dTx, 4);
    FromToBE(s.dRx, 4);
  }

  /** The record byte by byte: part number, alpha, both delays in network order, sum of all. */
  lemma RecordBytes(s: Sfp)
    requires s.Shaped()
    ensures var b := Encode(s);
            && |b| == 33 && b[..16] == s.pn
            && FromBE(b[16..24]) == s.alpha && FromBE(b[24..28]) == s.dTx && FromBE(b[28..32]) == s.dRx
            && b[32] as int == Total(b[..32]) % 256
  {
    SumIsTotal(Encode(s)[..32]);
    DecodeEncode(s);
    var b := Encode(s);
    assert Decode(b) == Sfp(b[..16], FromBE(b[16..24]), FromBE(b[24..28]), FromBE(b[28..32]));
  }

  /** A record with one byte changed, the checksum's included, is not accepted. */
  lemma ChecksumDetects(s: Sfp, i: nat, x: u8)
    requires s.Shaped() && i < 33 && Encode(s)[i] != x
    ensures !ChecksumOk(Encode(s)[i := x])
  {
    var b := Encode(s);
    var c := b[i := x];
    DecodeEncode(s);
    if i == 32 {
      assert c[..32] == b[..32];
    } else {
      var good, bad := b[..32], c[..32];
      SumChanged(good[..i], b[i], x, good[i+1..]);
      assert good == good[..i] + [b[i]] + good[i+1..] && bad == good[..i] + [x] + good[i+1..];
    }
  }

  lemma SumChanged(a: Bytes, x: u8, y: u8, b: Bytes)
    ensures Sum(a + [y] + b) == Sum(a + [x] + b) - x as int + y as int
  {
    SumConcat(a + [x], b);
    SumConcat(a, [x]);
    SumConcat(a + [y], b);
    SumConcat(a, [y]);
    SumOne(x);
    SumOne(y);
  }

  // ---------------------------------------------------------------------------------------------
  // The database as a list, and as bytes
  // ---------------------------------------------------------------------------------------------

  predicate Known(db: seq<Sfp>, pn: Bytes) {
    exists i :: 0 <= i < |db| && SamePn(db[i].pn, pn)
  }

  /** Entries of that part number take the new values; all others stay as they are, in order. */
  function Updated(db: seq<Sfp>, s: Sfp): (r: seq<Sfp>)
    ensures |r| == |db|
    ensures forall i {:trigger r[i]} :: 0 <= i < |db| ==>
              r[i] == if SamePn(db[i].pn, s.pn) then Sfp(db[i].pn, s.alpha, s.dTx, s.dRx) else db[i]
  {
    seq(|db|, i requires 0 <= i < |db| =>
      if SamePn(db[i].pn, s.pn) then Sfp(db[i].pn, s.alpha, s.dTx, s.dRx) else db[i])
  }

  /** Adding an entry: update in place, append, or leave a full database alone.  A new part number
      with a 0xff in it is written but not counted, so it does not become an entry. */
  function Upsert(db: seq<Sfp>, s: Sfp): seq<Sfp> {
    if Known(db, s.pn) then Updated(db, s) else if |db| < SFPS_MAX then Appended(db, s) else db
  }

  function Appended(db: seq<Sfp>, s: Sfp): seq<Sfp> {
    if ValidPn(s.pn) then db + [s] else db
  }

  function Slot(i: nat): nat { 1 + REC_BYTES * i }

  /** The file has room for the database. */
  predicate BigEnough(file: Bytes) {
    Slot(SFPS_MAX) <= |file|
  }

  /** The first slots hold the entries and no later slot looks like an entry. */
  ghost predicate Stores(file: Bytes, db: seq<Sfp>) {
    && BigEnough(file) && |db| <= SFPS_MAX
    && (forall i {:trigger db[i]} :: 0 <= i < |db| ==> db[i].Good() && file[Slot(i)..Slot(i) + REC_BYTES] == Encode(db[i]))
    && (forall i: nat {:trigger Slot(i)} :: |db| <= i && Slot(i) + REC_BYTES <= |file| ==>
          !ValidPn(file[Slot(i)..Slot(i) + PN_BYTES]))
  }

  lemma SlotHolds(file: Bytes, db: seq<Sfp>, i: nat)
    requires Stores(file, db) && i < |db|
    ensures Slot(i) + REC_BYTES <= |file| && file[Slot(i)..Slot(i) + PN_BYTES] == db[i].pn
    ensures file[Slot(i)..Slot(i) + REC_BYTES] == Encode(db[i]) && db[i].Good()
  {
    var r := file[Slot(i)..Slot(i) + REC_BYTES];
    assert db[i].Good() && r == Encode(db[i]);
    assert file[Slot(i)..Slot(i) + PN_BYTES] == r[..PN_BYTES];
  }

  /** Where the bytes of entry `i` lie: behind one byte for a count, 33 bytes each. */
  lemma StoredBytes(file: Bytes, db: seq<Sfp>, i: nat)
    requires Stores(file, db) && i < |db|
    ensures var r := 1 + 33 * i;
            && r + 33 <= |file| && file[r..r + 16] == db[i].pn && 0xff !in db[i].pn
            && FromBE(file[r + 16..r + 24]) == db[i].alpha
            && FromBE(file[r + 24..r + 28]) == db[i].dTx && FromBE(file[r + 28..r + 32]) == db[i].dRx
  {
    SlotHolds(file, db, i);
    RecordBytes(db[i]);
    var r := Slot(i);
    var b := file[r..r + 33];
    assert b == Encode(db[i]);
    Inner(file, r, 33, 16, 24);
    Inner(file, r, 33, 24, 28);
    Inner(file, r, 33, 28, 32);
  }

  /** Behind the entries every place has a 0xff in its part number. */
  lemma FreeBytes(file: Bytes, db: seq<Sfp>, i: nat)
    requires Stores(file, db) && |db| <= i && 1 + 33 * i + 33 <= |file|
    ensures 0xff in file[1 + 33 * i..17 + 33 * i]
  {
    var pn := file[Slot(i)..Slot(i) + PN_BYTES];
    assert !ValidPn(pn) && |pn| == 16;
  }

  lemma Inner(file: Bytes, r: nat, n: nat, i: nat, j: nat)
    requires i <= j <= n && r + n <= |file|
    ensures file[r..r + n][i..j] == file[r + i..r + j]
  {
    var a, b := file[r..r + n], file[r + i..r + j];
    forall k | 0 <= k < j - i ensures a[i..j][k] == b[k] {
      assert a[i..j][k] == a[i + k] == file[r + i + k];
    }
  }

  /** An erased file stores the empty database. */
  lemma ErasedStoresNothing(file: Bytes)
    requires BigEnough(file) && forall k :: 0 <= k < |file| ==> file[k] == 0xff
    ensures Stores(file, [])
  {
    forall i: nat | Slot(i) + REC_BYTES <= |file| ensures !ValidPn(file[Slot(i)..Slot(i) + PN_BYTES]) {
      assert file[Slot(i)..Slot(i) + PN_BYTES][0] == 0xff;
    }
  }

  /** Writing a record into the next slot appends an entry, if its part number counts. */
  lemma AppendedStores(before: Bytes, after: Bytes, db: seq<Sfp>, s: Sfp)
    requires Stores(before, db) && |db| < SFPS_MAX && s.Shaped()
    requires after == before[..Slot(|db|)] + Encode(s) + before[Slot(|db|) + REC_BYTES..]
    ensures Stores(after, Appended(db, s))
  {
    var n, db' := Slot(|db|), Appended(db, s);
    WrittenSlot(before, after, n, Encode(s));
    forall i | 0 <= i < |db'| ensures db'[i].Good() && after[Slot(i)..Slot(i) + REC_BYTES] == Encode(db'[i]) {
      if i < |db| {
        SlotHolds(before, db, i);
        OtherSlot(before, after, n, Slot(i), REC_BYTES);
      }
    }
    forall i: nat | |db'| <= i && Slot(i) + REC_BYTES <= |after| ensures !ValidPn(after[Slot(i)..Slot(i) + PN_BYTES]) {
      FreeSlot(before, after, db, s, i);
    }
  }

  /** No slot behind the entries comes to look like one. */
  lemma FreeSlot(before: Bytes, after: Bytes, db: seq<Sfp>, s: Sfp, i: nat)
    requires Stores(before, db) && |db| < SFPS_MAX && s.Shaped() && |after| == |before|
    requires after == before[..Slot(|db|)] + Encode(s) + before[Slot(|db|) + REC_BYTES..]
    requires |Appended(db, s)| <= i && Slot(i) + REC_BYTES <= |after|
    ensures !ValidPn(after[Slot(i)..Slot(i) + PN_BYTES])
  {
    var n := Slot(|db|);
    if i == |db| {
      WrittenSlot(before, after, n, Encode(s));
      assert after[n..n + PN_BYTES] == after[n..n + REC_BYTES][..PN_BYTES];
      assert Encode(s)[..PN_BYTES] == s.pn;
    } else {
      OtherSlot(before, after, n, Slot(i), PN_BYTES);
    }
  }

  lemma WrittenSlot(before: Bytes, after: Bytes, n: nat, rec: Bytes)
    requires n + |rec| <= |before| && after == before[..n] + rec + before[n + |rec|..]
    ensures |after| == |before| && after[n..n + |rec|] == rec
  {
  }

  lemma InTail(s: Bytes, m: nat, k: nat, len: nat)
    requires m <= k && k + len <= |s|
    ensures s[k..k + len] == s[m..][k - m..k - m + len]
  {
    var t := s[m..];
    var a, b := s[k..k + len], t[k - m..k - m + len];
    forall i | 0 <= i < len ensures a[i] == b[i] {
      assert t[k - m + i] == s[k + i];
    }
  }

  lemma OtherSlot(before: Bytes, after: Bytes, n: nat, k: nat, len: nat)
    requires n + REC_BYTES <= |before| == |after| && k + len <= |before|
    requires after[..n] == before[..n] && after[n + REC_BYTES..] == before[n + REC_BYTES..]
    requires k + len <= n || n + REC_BYTES <= k
    ensures after[k..k + len] == before[k..k + len]
  {
    if k + len <= n {
      assert after[k..k + len] == after[..n][k..k + len];
      assert before[k..k + len] == before[..n][k..k + len];
    } else {
      var m := n + REC_BYTES;
      InTail(after, m, k, len);
      InTail(before, m, k, len);
    }
  }

  // ---------------------------------------------------------------------------------------------
  // Adding behaves as on a bounded map
  // ---------------------------------------------------------------------------------------------

  /** What a match on a part number returns. */
  datatype Found = Missing | Values(alpha: nat, dTx: nat, dRx: nat)

  function Match(db: seq<Sfp>, pn: Bytes): Found {
    if db == [] then Missing
    else if SamePn(db[0].pn, pn) then Values(db[0].alpha, db[0].dTx, db[0].dRx)
    else Match(db[1..], pn)
  }

  lemma {:induction false} SameFromTransitive(a: Bytes, b: Bytes, c: Bytes, i: nat)
    requires |a| == PN_BYTES && |b| == PN_BYTES && |c| == PN_BYTES && i <= PN_BYTES
    ensures SameFrom(a, b, i) && SameFrom(b, c, i) ==> SameFrom(a, c, i)
    ensures SameFrom(a, b, i) ==> SameFrom(b, a, i)
    ensures SameFrom(a, a, i)
    decreases PN_BYTES - i
  {
    if i < PN_BYTES { SameFromTransitive(a, b, c, i + 1); }
  }

  /** Equality of part numbers is an equivalence. */
  lemma SamePnEquivalence(a: Bytes, b: Bytes, c: Bytes)
    requires |a| == PN_BYTES && |b| == PN_BYTES && |c| == PN_BYTES
    ensures SamePn(a, a) && (SamePn(a, b) ==> SamePn(b, a)) && (SamePn(a, b) && SamePn(b, c) ==> SamePn(a, c))
  {
    SameFromTransitive(a, b, c, 0);
  }

  lemma {:induction false} MatchFound(db: seq<Sfp>, pn: Bytes)
    ensures Match(db, pn).Missing? <==> !Known(db, pn)
  {
    if db != [] {
      MatchFound(db[1..], pn);
      if Known(db, pn) && !SamePn(db[0].pn, pn) {
        var i :| 0 <= i < |db| && SamePn(db[i].pn, pn);
        assert SamePn(db[1..][i-1].pn, pn);
      }
      if Known(db[1..], pn) {
        var i :| 0 <= i < |db[1..]| && SamePn(db[1..][i].pn, pn);
        assert SamePn(db[i+1].pn, pn);
      }
    }
  }

  lemma {:induction false} MatchUpdated(db: seq<Sfp>, s: Sfp, pn: Bytes)
    requires |s.pn| == PN_BYTES && |pn| == PN_BYTES && forall i :: 0 <= i < |db| ==> |db[i].pn| == PN_BYTES
    ensures Match(Updated(db, s), pn)
         == if SamePn(s.pn, pn) && Match(db, pn).Values? then Values(s.alpha, s.dTx, s.dRx) else Match(db, pn)
  {
    if db != [] {
      MatchUpdated(db[1..], s, pn);
      assert Updated(db, s)[1..] == Updated(db[1..], s);
      SamePnEquivalence(db[0].pn, s.pn, pn);
      SamePnEquivalence(s.pn, db[0].pn, pn);
      SamePnEquivalence(db[0].pn, pn, s.pn);
      SamePnEquivalence(pn, s.pn, db[0].pn);
      SamePnEquivalence(s.pn, pn, db[0].pn);
    }
  }

  lemma {:induction false} MatchAppended(db: seq<Sfp>, s: Sfp, pn: Bytes)
    ensures Match(db + [s], pn)
         == if Match(db, pn).Values? then Match(db, pn)
            else if SamePn(s.pn, pn) then Values(s.alpha, s.dTx, s.dRx) else Missing
  {
    if db == [] {
      assert db + [s] == [s] && [s][1..] == [];
    } else {
      MatchAppended(db[1..], s, pn);
      assert (db + [s])[1..] == db[1..] + [s];
    }
  }

  lemma {:induction false} MatchSame(db: seq<Sfp>, a: Bytes, b: Bytes)
    requires |a| == PN_BYTES && |b| == PN_BYTES && forall i :: 0 <= i < |db| ==> |db[i].pn| == PN_BYTES
    requires SamePn(a, b)
    ensures Match(db, a) == Match(db, b)
  {
    if db != [] {
      MatchSame(db[1..], a, b);
      SamePnEquivalence(db[0].pn, a, b);
      SamePnEquivalence(a, b, b);
      SamePnEquivalence(db[0].pn, b, a);
    }
  }

  /** The part number is that of an entry. */
  ghost predicate Listed(db: seq<Sfp>, pn: Bytes)
    requires |pn| == 16 && forall i :: 0 <= i < |db| ==> |db[i].pn| == 16
  {
    exists i {:trigger db[i]} :: 0 <= i < |db| && SameText(db[i].pn, pn)
  }

  lemma ListedIff(db: seq<Sfp>, pn: Bytes)
    requires |pn| == 16 && forall i :: 0 <= i < |db| ==> |db[i].pn| == 16
    ensures Listed(db, pn) <==> Known(db, pn)
  {
    forall i | 0 <= i < |db| ensures SameText(db[i].pn, pn) <==> SamePn(db[i].pn, pn) {
      SamePnIff(db[i].pn, pn);
    }
    if i :| 0 <= i < |db| && SamePn(db[i].pn, pn) { assert SameText(db[i].pn, pn); }
  }

  /** A match returns the values of the first entry with that part number, or nothing. */
  lemma {:induction false} MatchIsFirst(db: seq<Sfp>, pn: Bytes, i: nat)
    requires |pn| == 16 && forall k :: 0 <= k < |db| ==> |db[k].pn| == 16
    requires i <= |db| && (forall k :: 0 <= k < i ==> !SameText(db[k].pn, pn)) && (i < |db| ==> SameText(db[i].pn, pn))
    ensures Match(db, pn) == if i < |db| then Values(db[i].alpha, db[i].dTx, db[i].dRx) else Missing
  {
    if db != [] {
      SamePnIff(db[0].pn, pn);
      if i > 0 { MatchIsFirst(db[1..], pn, i - 1); }
    }
  }

  /** After adding, a match on that part number returns the values added, unless it was new and the
      four places were taken or it has a 0xff; matches on other part numbers return what they did. */
  lemma UpsertIsMapUpdate(db: seq<Sfp>, s: Sfp, pn: Bytes)
    requires |s.pn| == 16 && |pn| == 16 && forall i :: 0 <= i < |db| ==> |db[i].pn| == 16
    ensures Match(Upsert(db, s), pn)
         == if SameText(s.pn, pn) && (Listed(db, s.pn) || (|db| < 4 && 0xff !in s.pn))
            then Values(s.alpha, s.dTx, s.dRx) else Match(db, pn)
  {
    SamePnIff(s.pn, pn);
    ListedIff(db, s.pn);
    MatchFound(db, s.pn);
    MatchUpdated(db, s, pn);
    MatchAppended(db, s, pn);
    if SamePn(s.pn, pn) { MatchSame(db, s.pn, pn); }
  }

  /** What becomes of the list: a listed part number changes only the entries that have it, a new one
      comes last, and the order stays. */
  lemma UpsertEntries(db: seq<Sfp>, s: Sfp)
    requires |s.pn| == 16 && forall i :: 0 <= i < |db| ==> |db[i].pn| == 16
    ensures !Listed(db, s.pn) ==> Upsert(db, s) == if |db| < 4 && 0xff !in s.pn then db + [s] else db
    ensures Listed(db, s.pn) ==>
              var r := Upsert(db, s);
              |r| == |db| && forall i :: 0 <= i < |db| ==>
                r[i] == if SameText(db[i].pn, s.pn) then Sfp(db[i].pn, s.alpha, s.dTx, s.dRx) else db[i]
  {
    ListedIff(db, s.pn);
    forall i | 0 <= i < |db| ensures SameText(db[i].pn, s.pn) <==> SamePn(db[i].pn, s.pn) {
      SamePnIff(db[i].pn, s.pn);
    }
  }

  // ---------------------------------------------------------------------------------------------
  // The code
  // ---------------------------------------------------------------------------------------------

  ghost predicate AllGood(db: seq<Sfp>) {
    forall i {:trigger db[i]} :: 0 <= i < |db| ==> db[i].Good()
  }

  lemma UpdatedGood(db: seq<Sfp>, s: Sfp)
    requires AllGood(db) && s.Shaped()
    ensures AllGood(Updated(db, s))
  {
  }

  lemma NextEntry(entries: seq<Sfp>, i: nat)
    requires AllGood(entries) && i < |entries|
    ensures entries[i].Shaped() && entries[..i+1] == Appended(entries[..i], entries[i])
  {
    assert entries[i].Good();
  }

  class Database {
    const file: array<u8>
    var sfpcount: nat

    constructor (size: nat)
      requires Slot(SFPS_MAX) <= size
      ensures file.Length == size && fresh(file) && Stores(file[..], [])
    {
      file := new u8[size](_ => 0xff);
      sfpcount := 0;
      new;
      ErasedStoresNothing(file[..]);
    }

    /** `sdbfs_fread`: short at the end of the file. */
    method Fread(offset: nat, count: nat) returns (b: Bytes)
      requires offset <= file.Length
      ensures b == file[offset..if offset + count > file.Length then file.Length else offset + count]
    {
      b := if offset + count > file.Length then file[offset..] else file[offset..offset+count];
    }

    method Fwrite(offset: nat, b: Bytes)
      requires offset + |b| <= file.Length
      modifies file
      ensures file[..] == old(file[..])[..offset] + b + old(file[..])[offset+|b|..]
    {
      for i := 0 to |b|
        invariant forall k :: 0 <= k < file.Length ==>
                    file[k] == if offset <= k < offset + i then b[k-offset] else old(file[k])
      {
        file[offset+i] := b[i];
      }
      Written(old(file[..]), file[..], offset, b);
    }

    /** `storage_sfpdb_erase` */
    method EraseFile()
      modifies file
      ensures forall k :: 0 <= k < file.Length ==> file[k] == 0xff
    {
      for i := 0 to file.Length
        invariant forall k :: 0 <= k < i ==> file[k] == 0xff
      {
        file[i] := 0xff;
      }
    }

    /** Counts the entries from the start of the file. */
    method CountEntries(ghost db: seq<Sfp>)
      requires Stores(file[..], db)
      modifies this
      ensures sfpcount == |db|
    {
      sfpcount := 0;
      ghost var f := file[..];
      var rec := Fread(Slot(0), REC_BYTES);
      while |rec| == REC_BYTES && ValidPn(rec[..PN_BYTES])
        invariant sfpcount <= |db| && Slot(sfpcount) <= |f|
        invariant rec == f[Slot(sfpcount)..if Slot(sfpcount) + REC_BYTES > |f| then |f| else Slot(sfpcount) + REC_BYTES]
        decreases |db| - sfpcount
      {
        assert rec[..PN_BYTES] == f[Slot(sfpcount)..Slot(sfpcount) + PN_BYTES];
        assert sfpcount < |db|;
        sfpcount := sfpcount + 1;
        rec := Fread(Slot(sfpcount), REC_BYTES);
      }
      if sfpcount < |db| {
        SlotHolds(f, db, sfpcount);
      }
    }

    /** `sfp_entry` reading entry `pos`; the count is refreshed on the first one only. */
    method EntryGet(pos: nat, ghost db: seq<Sfp>) returns (ret: int, sfp: Sfp)
      requires Stores(file[..], db) && (0 < pos < SFPS_MAX ==> sfpcount == |db|)
      modifies this
      ensures pos < SFPS_MAX ==> sfpcount == |db|
      ensures pos < |db| ==> ret == |db| && sfp == db[pos]
      ensures pos >= SFPS_MAX ==> ret == POSERR
      ensures db == [] && pos == 0 ==> ret == 0
      ensures |db| <= pos < SFPS_MAX && !(db == [] && pos == 0) ==>
                Slot(pos) + REC_BYTES <= file.Length
                && ret == if ChecksumOk(file[Slot(pos)..Slot(pos) + REC_BYTES]) then |db| else -1
    {
      sfp := Sfp([], 0, 0, 0);
      if pos >= SFPS_MAX {
        return POSERR, sfp;
      }
      if pos == 0 {
        CountEntries(db);
      }
      if pos == 0 && sfpcount == 0 {
        return 0, sfp;
      }
      var rec := Fread(Slot(pos), REC_BYTES);
      if |rec| != REC_BYTES {
        return -1, sfp;
      }
      if pos < |db| {
        SlotHolds(file[..], db, pos);
        DecodeEncode(db[pos]);
      }
      var chksum := RunningSum(rec[..REC_BYTES-1]);
      if chksum % 256 != rec[REC_BYTES-1] as int {
        return -1, sfp;
      }
      return sfpcount, Decode(rec);
    }

    method RunningSum(b: Bytes) returns (sum: nat)
      ensures sum == Sum(b)
    {
      sum := 0;
      for i := 0 to |b|
        invariant sum == Sum(b[..i])
      {
        assert b[..i+1][..i] == b[..i];
        sum := sum + b[i] as int;
      }
      assert b[..|b|] == b;
    }

    method WriteEntry(pos: nat, sfp: Sfp, ghost db: seq<Sfp>)
      requires Stores(file[..], db) && pos == |db| < SFPS_MAX && sfp.Shaped()
      modifies file
      ensures Stores(file[..], Appended(db, sfp))
    {
      ghost var before := file[..];
      var chksum := RunningSum(Body(sfp));
      var record := Body(sfp) + [(chksum % 256) as u8];
      assert record == Encode(sfp) && Slot(pos) + REC_BYTES <= file.Length;
      Fwrite(Slot(pos), record);
      AppendedStores(before, file[..], db, sfp);
    }

    /** `sfp_entry` adding an entry at the end. */
    method EntryAdd(sfp: Sfp, ghost db: seq<Sfp>) returns (ret: int)
      requires Stores(file[..], db) && sfp.Shaped()
      modifies this, file
      ensures |db| < SFPS_MAX ==> ret == |db| + 1 && Stores(file[..], Appended(db, sfp))
      ensures |db| == SFPS_MAX ==> ret == DBFULL && file[..] == old(file[..])
    {
      CountEntries(db);
      if sfpcount == SFPS_MAX {
        return DBFULL;
      }
      WriteEntry(sfpcount, sfp, db);
      sfpcount := sfpcount + 1;
      ret := sfpcount;
    }

    /** `storage_match_sfp` */
    method MatchSfp(pn: Bytes, ghost db: seq<Sfp>) returns (ret: int, found: Found)
      requires Stores(file[..], db)
      modifies this
      ensures found == Match(db, pn) && ret == if found.Values? then 1 else 0
    {
      var count := 1;
      var i := 0;
      while i < count
        invariant 0 <= i <= count && (i > 0 ==> count == |db| == sfpcount) && (i == 0 ==> count == 1)
        invariant i <= |db| && Match(db, pn) == Match(db[i..], pn)
        decreases SFPS_MAX - i
      {
        var sfp;
        count, sfp := EntryGet(i, db);
        if count <= 0 {
          return count, Missing;
        }
        assert db[i..][1..] == db[i+1..];
        if SamePn(sfp.pn, pn) {
          return 1, Values(sfp.alpha, sfp.dTx, sfp.dRx);
        }
        i := i + 1;
      }
      return 0, Missing;
    }

    /** Reads all entries, giving those of the same part number the new values. */
    method LoadUpdated(s: Sfp, ghost db: seq<Sfp>) returns (ret: int, loaded: seq<Sfp>)
      requires Stores(file[..], db) && db != []
      modifies this
      ensures ret == |db| && loaded == Updated(db, s)
    {
      var count := 1;
      loaded := [];
      var i := 0;
      while i < count
        invariant 0 <= i <= count && (i > 0 ==> count == |db| == sfpcount) && (i == 0 ==> count == 1)
        invariant i <= |db| && loaded == Updated(db, s)[..i]
        decreases SFPS_MAX - i
      {
        var sfp;
        count, sfp := EntryGet(i, db);
        if SamePn(sfp.pn, s.pn) {
          sfp := Sfp(sfp.pn, s.alpha, s.dTx, s.dRx);
        }
        loaded := loaded + [sfp];
        i := i + 1;
      }
      ret := count;
    }

    /** Erases the file and adds the entries one by one. */
    method Rewrite(entries: seq<Sfp>) returns (ret: int)
      requires BigEnough(file[..]) && |entries| <= SFPS_MAX && AllGood(entries)
      modifies this, file
      ensures Stores(file[..], entries) && ret == |entries|
    {
      EraseFile();
      ErasedStoresNothing(file[..]);
      var i := 0;
      while i < |entries|
        invariant 0 <= i <= |entries| && Stores(file[..], entries[..i])
      {
        NextEntry(entries, i);
        var temp := EntryAdd(entries[i], entries[..i]);
        if temp < 0 {
          return temp;
        }
        i := i + 1;
      }
      assert entries[..i] == entries;
      ret := i;
    }

    /** `storage_update_sfp` */
    method UpdateSfp(s: Sfp, ghost db: seq<Sfp>) returns (ret: int)
      requires Stores(file[..], db) && db != [] && s.Shaped()
      modifies this, file
      ensures Stores(file[..], Updated(db, s)) && ret == |db|
    {
      var _, loaded := LoadUpdated(s, db);
      UpdatedGood(db, s);
      ret := Rewrite(loaded);
    }

    /** `storage_get_sfp` with `SFP_ADD`: the stored bytes go from one database to its upsert. */
    method AddSfp(s: Sfp, ghost db: seq<Sfp>) returns (ret: int)
      requires Stores(file[..], db) && s.Shaped()
      modifies this, file
      ensures Stores(file[..], Upsert(db, s))
      ensures ret == if Known(db, s.pn) then |db| else if |db| == SFPS_MAX then DBFULL else |db| + 1
      ensures ret == DBFULL ==> file[..] == old(file[..])
    {
      var matched, _ := MatchSfp(s.pn, db);
      MatchFound(db, s.pn);
      if matched == 0 {
        ret := EntryAdd(s, db);
      } else {
        ret := UpdateSfp(s, db);
      }
    }
  }
}
