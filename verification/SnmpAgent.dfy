/** GET and GETNEXT over the two-level table, rewriting the request in place (lib/snmp.c).

    `buf` is the part of the packet that starts at the length byte of the object identifier:
    `buf[0]` is that length, the identifier follows, then the value. */
module SnmpAgent {
  import opened Octets
  import opened SnmpOid
  import opened SnmpMib

  /** Room for the longest twig with its value, and for the longest limb before it.  Of the 200 bytes
      of a packet the UDP and SNMP headers leave more than this. */
  const ANSWER: nat := 80
  const AREA: nat := 120

  function Min(a: int, b: int): int { if a < b then a else b }

  // ---------------------------------------------------------------------------------------------
  // Writing into the packet
  // ---------------------------------------------------------------------------------------------

  /** `memcpy` into the packet. */
  method Put(buf: array<u8>, pos: nat, bytes: Bytes)
    requires pos + |bytes| <= buf.Length
    modifies buf
    ensures buf[pos..pos+|bytes|] == bytes
    ensures forall k :: 0 <= k < buf.Length && !(pos <= k < pos + |bytes|) ==> buf[k] == old(buf[k])
  {
    for i := 0 to |bytes|
      invariant forall k :: 0 <= k < i ==> buf[pos+k] == bytes[k]
      invariant forall k :: 0 <= k < buf.Length && !(pos <= k < pos + i) ==> buf[k] == old(buf[k])
    {
      buf[pos+i] := bytes[i];
    }
  }

  /** Writes type, length and contents.  The type is written even when nothing is sent, and a
      string takes its terminator along. */
  method GetValue(buf: array<u8>, pos: nat, version: u8, asn: u8, data: Bytes) returns (len: nat)
    requires |data| < MAX_OCTET_STR_LEN && pos + 3 + |data| <= buf.Length
    modifies buf
    ensures forall k :: 0 <= k < pos ==> buf[k] == old(buf[k])
    ensures len == if Sendable(version, asn) then 2 + |data| else 0
    ensures Sendable(version, asn) ==> buf[pos..pos+len] == Tlv(asn, data)
  {
    buf[pos] := asn;
    if !KnownAsn(asn) || (asn == ASN_COUNTER64 && version == SNMP_V1) {
      return 0;
    }
    Put(buf, pos + 1, [|data| as u8] + data + if asn == ASN_OCTET_STR then [0] else []);
    len := 2 + |data|;
    ghost var written := [|data| as u8] + data + if asn == ASN_OCTET_STR then [0] else [];
    assert buf[pos+1..pos+1+|written|] == written;
    forall k | 0 <= k < len ensures buf[pos+k] == Tlv(asn, data)[k] {
      if 0 < k { assert buf[pos+k] == buf[pos+1..pos+1+|written|][k-1]; }
    }
    assert buf[pos..pos+len] == Tlv(asn, data);
  }

  /** Type, length and contents of `r` follow its identifier at `pos`; `len` is their total. */
  ghost predicate Holds(buf: array<u8>, pos: nat, r: Option<Entry>, len: nat)
    reads buf
  {
    match r
    case None => len == 0
    case Some(e) =>
      && len == |e.oid| + |e.value| && pos + len <= buf.Length
      && buf[pos..pos+|e.oid|] == e.oid && buf[pos+|e.oid|..pos+len] == e.value
  }

  /** `Holds`, with the length byte of the identifier: GETNEXT sets it, GET leaves it. */
  ghost predicate Answered(buf: array<u8>, pos: nat, next: bool, oldLen: u8, len: nat, r: Option<Entry>)
    reads buf
  {
    && 0 < buf.Length && Holds(buf, pos, r, len)
    && (len == 0 <==> r == None)
    && (next && r.Some? ==> buf[0] as int == |r.value.oid|)
    && (!next ==> buf[0] == oldLen)
  }

  // ---------------------------------------------------------------------------------------------
  // Groups
  // ---------------------------------------------------------------------------------------------

  /** What a request for `t` is looking for in a list of instances. */
  ghost function Found(next: bool, es: seq<Entry>, t: Bytes): Option<Entry> {
    if next then FirstAfter(es, t) else Lookup(es, t)
  }

  ghost predicate Wanted(next: bool, t: Bytes, w: Bytes) {
    if next then Less(t, w) else t == w
  }

  lemma GroupNext(version: u8, twigs: seq<Twig>, i: nat, next: bool, t: Bytes)
    requires GoodGroup(twigs) && i < |twigs|
    ensures |twigs[i].data| < MAX_OCTET_STR_LEN
    ensures Found(next, GroupEntries(version, twigs, i), t)
         == if Wanted(next, t, twigs[i].oid) && Sendable(version, twigs[i].asn)
            then Some(Entry(twigs[i].oid, Tlv(twigs[i].asn, twigs[i].data)))
            else Found(next, GroupEntries(version, twigs, i + 1), t)
  {
    assert |twigs[i].data| < MAX_OCTET_STR_LEN;
    FirstAfterConcat(TwigEntry(version, twigs[i]), GroupEntries(version, twigs, i + 1), t);
    LookupConcat(TwigEntry(version, twigs[i]), GroupEntries(version, twigs, i + 1), t);
  }

  lemma GroupTooFar(version: u8, twigs: seq<Twig>, i: nat, t: Bytes)
    requires GoodGroup(twigs) && i < |twigs| && Less(t, twigs[i].oid)
    ensures Lookup(GroupEntries(version, twigs, i), t) == None
  {
    var es := GroupEntries(version, twigs, i);
    GroupSorted(version, twigs, i);
    forall j | 0 <= j < |es| ensures es[j].oid != t {
      assert IsTwig(twigs, i, es[j].oid);
      var m :| i <= m < |twigs| && twigs[m].oid == es[j].oid;
      if i < m {
        assert Less(twigs[i].oid, twigs[m].oid);
        LessTransitive(t, twigs[i].oid, twigs[m].oid);
      }
      LessAsymmetric(t, twigs[m].oid);
    }
    NoneNamed(es, t);
  }

  /** What the twig part of the packet holds when twig `i` is looked at: still the request, or the
      previous twig, which lies after the request but had nothing to send. */
  ghost predicate TwigArea(area: Bytes, twigs: seq<Twig>, i: nat, t: Bytes) {
    || PrefixOf(t, area)
    || (0 < i <= |twigs| && PrefixOf(twigs[i-1].oid, area) && Less(t, twigs[i-1].oid))
  }

  /** The comparison decides whether the twig lies after the request, in either case. */
  lemma TwigDecision(area: Bytes, twigs: seq<Twig>, i: nat, t: Bytes, n: nat)
    requires GoodGroup(twigs) && i < |twigs| && TwigArea(area, twigs, i, t)
    requires n == Min(|t|, |twigs[i].oid|) && n <= |area|
    ensures Less(t, twigs[i].oid)
       <==> MemCmp(twigs[i].oid, area, n) > 0 || (MemCmp(twigs[i].oid, area, n) == 0 && n < |twigs[i].oid|)
    ensures !PrefixOf(t, area) ==> Less(t, twigs[i].oid)
    ensures PrefixOf(t, area) && |t| == |twigs[i].oid| ==> (MemCmp(twigs[i].oid, area, n) == 0 <==> t == twigs[i].oid)
  {
    var w := twigs[i].oid;
    var c := MemCmp(w, area, n);
    if PrefixOf(t, area) {
      CompareHead(w, t, area, n);
    } else {
      var u := twigs[i-1].oid;
      assert Less(twigs[i-1].oid, twigs[i].oid);
      LessTransitive(t, u, w);
      assert |u| == |w| by { assert |twigs[i-1].oid| == |twigs[0].oid| && |twigs[i].oid| == |twigs[0].oid|; }
      var d: nat :| DiffersAt(u, w, d) && u[d] < w[d];
    }
  }

  /** Comparing a twig with a request decides their order. */
  lemma CompareHead(w: Bytes, t: Bytes, area: Bytes, n: nat)
    requires PrefixOf(t, area) && n == Min(|t|, |w|)
    ensures Less(t, w) <==> MemCmp(w, area, n) > 0 || (MemCmp(w, area, n) == 0 && n < |w|)
    ensures |t| == |w| ==> (MemCmp(w, area, n) == 0 <==> t == w)
  {
    var c := MemCmp(w, area, n);
    if c > 0 {
      var d: nat :| d < n && DiffersAt(w, area, d) && area[d] < w[d];
      assert DiffersAt(t, w, d);
    } else if c < 0 {
      var d: nat :| d < n && DiffersAt(w, area, d) && w[d] < area[d];
      assert DiffersAt(w, t, d);
      LessAsymmetric(w, t);
    } else {
      assert n < |w| ==> PrefixOf(t, w);
      assert n == |w| ==> PrefixOf(w, t);
      assert forall d: nat :: !DiffersAt(t, w, d);
    }
  }

  /** The part of the request below a limb of length `matched`; a search for the first object of a
      limb asks for what follows the empty suffix. */
  function Suffix(request: Bytes, matched: nat, first: bool): Bytes
    requires !first ==> matched <= |request|
  {
    if first then [] else request[matched..]
  }

  /** The object identifier in the packet. */
  function Request(buf: array<u8>): Bytes
    requires 1 <= buf.Length && 1 + buf[0] as int <= buf.Length
    reads buf
  {
    buf[1..1 + buf[0] as int]
  }

  /** Names the twig in the packet, on GETNEXT, and reads its value behind the name. */
  method UseTwig(buf: array<u8>, pos: nat, twig: Twig, next: bool, version: u8) returns (len: nat)
    requires 1 <= pos && pos + ANSWER <= buf.Length
    requires 0 < |twig.oid| < MAX_OID_LEN && |twig.data| < MAX_OCTET_STR_LEN
    requires !next ==> PrefixOf(twig.oid, buf[pos..])
    modifies buf
    ensures forall k :: 1 <= k < pos ==> buf[k] == old(buf[k])
    ensures buf[0] == if next then |twig.oid| as u8 else old(buf[0])
    ensures PrefixOf(twig.oid, buf[pos..])
    ensures Sendable(version, twig.asn) ==>
              len > 0 && Holds(buf, pos, Some(Entry(twig.oid, Tlv(twig.asn, twig.data))), len)
    ensures !next ==> forall k :: 0 <= k < pos + |twig.oid| ==> buf[k] == old(buf[k])
    ensures !Sendable(version, twig.asn) ==> len == 0
  {
    var w := twig.oid;
    if next {
      Put(buf, pos, w);
      buf[0] := |w| as u8;
    }
    assert buf[pos..pos+|w|] == w;
    ghost var named := buf[pos..pos+|w|];
    len := GetValue(buf, pos + |w|, version, twig.asn, twig.data);
    assert buf[pos..pos+|w|] == named;
    if len != 0 {
      len := len + |w|;
    }
  }

  /** The packet names `oid` from `pos` on, with its length. */
  ghost predicate Names(buf: array<u8>, pos: nat, oid: Bytes)
    requires pos <= buf.Length
    reads buf
  {
    0 < buf.Length && buf[0] as int == |oid| && PrefixOf(oid, buf[pos..])
  }

  /** Of the first `i` twigs the last, and so some, lies after `t`. */
  ghost predicate SomeAfter(twigs: seq<Twig>, i: nat, t: Bytes) {
    0 < i <= |twigs| && Less(t, twigs[i-1].oid)
  }

  lemma StillAfter(twigs: seq<Twig>, i: nat, t: Bytes)
    requires GoodGroup(twigs) && i < |twigs| && SomeAfter(twigs, i, t)
    ensures SomeAfter(twigs, i + 1, t)
  {
    assert Less(twigs[i-1].oid, twigs[i].oid);
    LessTransitive(t, twigs[i-1].oid, twigs[i].oid);
  }

  datatype Action = Skip | Use | Stop

  /** What to do with twig `i`. */
  method ChooseTwig(buf: array<u8>, pos: nat, twigs: seq<Twig>, i: nat, next: bool, first: bool, twigLen: int,
                    ghost t: Bytes)
    returns (action: Action)
    requires GoodGroup(twigs) && i < |twigs| && (first ==> next && t == [])
    requires pos + ANSWER <= buf.Length
    requires !first ==> |t| == twigLen && TwigArea(buf[pos..], twigs, i, t)
    requires !next ==> PrefixOf(t, buf[pos..])
    ensures action == Use <==> Wanted(next, t, twigs[i].oid)
    ensures action == Skip ==> PrefixOf(t, buf[pos..])
    ensures action == Stop ==> !next && Less(t, twigs[i].oid)
  {
    var w := twigs[i].oid;
    if first {
      assert PrefixOf(t, w);
      return Use;
    }
    var n := Min(twigLen, |w|);
    if !next && twigLen != |w| {
      // GET wants equal lengths
      return Skip;
    }
    TwigDecision(buf[pos..], twigs, i, t, n);
    var cmp := MemCmp(w, buf[pos..], n);
    if cmp == 0 && next && n == |w| {
      // exact match for GETNEXT: go to the next object
      return Skip;
    }
    if cmp == 0 || (next && cmp > 0) {
      return Use;
    }
    return if cmp > 0 then Stop else Skip;
  }

  /** Looks at twig `i`: either answers, or the twigs after it are left to be looked at. */
  method TryTwig(buf: array<u8>, pos: nat, twigs: seq<Twig>, i: nat, next: bool, first: bool, twigLen: int,
                 version: u8, ghost t: Bytes)
    returns (done: bool, len: nat)
    requires GoodGroup(twigs) && i < |twigs| && (first ==> next && t == [])
    requires 1 <= pos && pos + ANSWER <= buf.Length
    requires !first ==> |t| == twigLen && TwigArea(buf[pos..], twigs, i, t)
    requires !next ==> PrefixOf(t, buf[pos..])
    modifies buf
    ensures forall k :: 1 <= k < pos ==> buf[k] == old(buf[k])
    ensures !next ==> forall k :: 0 <= k < pos + |t| ==> buf[k] == old(buf[k])
    ensures !first ==> TwigArea(buf[pos..], twigs, i + 1, t)
    ensures done ==> Answered(buf, pos, next, old(buf[0]), len, Found(next, GroupEntries(version, twigs, i), t))
    ensures !done ==> Found(next, GroupEntries(version, twigs, i), t) == Found(next, GroupEntries(version, twigs, i + 1), t)
    ensures next && !done ==>
              if Less(t, twigs[i].oid) then Names(buf, pos, twigs[i].oid) else unchanged(buf)
    ensures next && done ==> len > 0
  {
    GroupNext(version, twigs, i, next, t);
    var action := ChooseTwig(buf, pos, twigs, i, next, first, twigLen, t);
    match action
    case Skip =>
      return false, 0;
    case Use =>
      len := UseTwig(buf, pos, twigs[i], next, version);
      return len != 0, len;
    case Stop =>
      GroupTooFar(version, twigs, i, t);
      return true, 0;
  }

  /** Search for a twig: the first one after the request, or the one requested.  A fruitless search
      for the next one leaves the name of the last twig behind, if that lies after the request. */
  method SearchGroup(buf: array<u8>, pos: nat, twigs: seq<Twig>, next: bool, first: bool, twigLen: int,
                     version: u8, ghost t: Bytes)
    returns (len: nat)
    requires GoodGroup(twigs) && (first ==> next && t == []) && 1 <= pos && pos + ANSWER <= buf.Length
    requires !first ==> |t| == twigLen && PrefixOf(t, buf[pos..])
    modifies buf
    ensures forall k :: 1 <= k < pos ==> buf[k] == old(buf[k])
    ensures Answered(buf, pos, next, old(buf[0]), len, Found(next, GroupEntries(version, twigs, 0), t))
    ensures !next ==> forall k :: 0 <= k < pos + |t| ==> buf[k] == old(buf[k])
    ensures next && len == 0 ==>
              if SomeAfter(twigs, |twigs|, t) then Names(buf, pos, twigs[|twigs|-1].oid) else unchanged(buf)
  {
    for i := 0 to |twigs|
      invariant forall k :: 1 <= k < pos ==> buf[k] == old(buf[k])
      invariant !next ==> forall k :: 0 <= k < pos + |t| ==> buf[k] == old(buf[k])
      invariant !first ==> TwigArea(buf[pos..], twigs, i, t)
      invariant Found(next, GroupEntries(version, twigs, i), t) == Found(next, GroupEntries(version, twigs, 0), t)
      invariant next ==> if SomeAfter(twigs, i, t) then Names(buf, pos, twigs[i-1].oid) else unchanged(buf)
    {
      if SomeAfter(twigs, i, t) { StillAfter(twigs, i, t); }
      var done;
      done, len := TryTwig(buf, pos, twigs, i, next, first, twigLen, version, t);
      if done {
        return;
      }
    }
    return 0;
  }

  /** The length byte after a fruitless search for the twig after `t`. */
  ghost function GroupLength(twigs: seq<Twig>, t: Bytes, len: nat): nat {
    if SomeAfter(twigs, |twigs|, t) then |twigs[|twigs|-1].oid| else len
  }

  /** Such a search, for a request of length `n` that ends in `t`, leaves its name and length. */
  ghost predicate GroupKeeps(twigs: seq<Twig>, n: nat, t: Bytes) {
    SomeAfter(twigs, |twigs|, t) ==> |twigs[|twigs|-1].oid| == n && PrefixOf(t, twigs[|twigs|-1].oid)
  }

  lemma GroupKeepsIff(twigs: seq<Twig>, n: nat, t: Bytes, len: nat, area: Bytes)
    requires |t| <= n && len == GroupLength(twigs, t, n)
    requires PrefixOf(if SomeAfter(twigs, |twigs|, t) then twigs[|twigs|-1].oid else t, area)
    ensures len == n && PrefixOf(t, area) <==> GroupKeeps(twigs, n, t)
  {
  }

  lemma SuffixInPlace(buf: array<u8>, matched: nat)
    requires 1 <= buf.Length && 1 + buf[0] as int <= buf.Length && matched <= buf[0] as int
    ensures var t := Suffix(Request(buf), matched, false);
            |t| == buf[0] as int - matched && PrefixOf(t, buf[1+matched..])
  {
    var n := buf[0] as int;
    assert Suffix(Request(buf), matched, false) == buf[1+matched..1+n];
  }

  method FuncGroup(buf: array<u8>, matched: nat, twigs: seq<Twig>, next: bool, first: bool, version: u8)
    returns (len: nat)
    requires GoodGroup(twigs) && (first ==> next)
    requires 1 + matched + ANSWER <= buf.Length && 1 + buf[0] as int <= buf.Length
    requires !first ==> matched <= buf[0] as int
    modifies buf
    ensures forall k :: 1 <= k < 1 + matched ==> buf[k] == old(buf[k])
    ensures Answered(buf, 1 + matched, next, old(buf[0]), len,
                     Found(next, GroupEntries(version, twigs, 0), Suffix(old(Request(buf)), matched, first)))
    ensures !next ==> forall k :: 0 <= k < 1 + old(buf[0]) as int ==> buf[k] == old(buf[k])
    ensures next && len == 0 ==>
              var t, n := Suffix(old(Request(buf)), matched, first), old(buf[0]) as int;
              && buf[0] as int == GroupLength(twigs, t, n)
              && (!first ==> (buf[0] as int == n && PrefixOf(t, buf[1+matched..]) <==> GroupKeeps(twigs, n, t)))
  {
    ghost var t, n := Suffix(Request(buf), matched, first), buf[0] as int;
    var twigLen := buf[0] as int - matched;
    if !first { SuffixInPlace(buf, matched); }
    len := SearchGroup(buf, 1 + matched, twigs, next, first, twigLen, version, t);
    if next && !first && len == 0 {
      GroupKeepsIff(twigs, n, t, buf[0] as int, buf[1+matched..]);
    }
  }

  // ---------------------------------------------------------------------------------------------
  // Tables
  // ---------------------------------------------------------------------------------------------

  const FIRST_ROW: u8 := 1

  /** The instance of a column at a row, if there is one. */
  function Cell(column: Column, row: int): Option<Entry>
    requires GoodColumn(column)
  {
    if 1 <= row <= |column.cells|
    then Some(Entry([column.id, row as u8], Tlv(column.asn, column.cells[row-1])))
    else None
  }

  /** Within the rows of the requested column, the next instance is in the next row. */
  lemma {:induction false} RowAfter(column: Column, row: nat, t: Bytes)
    requires 1 <= row && GoodColumn(column)
    requires |t| >= 2 && t[0] == column.id && row <= t[1] as int + 1
    ensures FirstAfter(RowEntries(column, row), t) == Cell(column, t[1] as int + 1)
    decreases |column.cells| + 1 - row
  {
    if row <= |column.cells| {
      var head := [column.id, row as u8];
      if row == t[1] as int + 1 {
        assert DiffersAt(t, head, 1);
      } else {
        assert !Less(t, head) by {
          assert row < t[1] as int ==> DiffersAt(head, t, 1) && Less(head, t);
          assert row == t[1] as int ==> PrefixOf(head, t);
          if row < t[1] as int { LessAsymmetric(head, t); }
        }
        RowAfter(column, row + 1, t);
      }
    }
  }

  /** A request before a column is answered by its first row. */
  lemma ColumnFirst(column: Column, t: Bytes)
    requires GoodColumn(column) && (t == [] || t == [column.id] || t[0] < column.id)
    ensures FirstAfter(RowEntries(column, 1), t) == Cell(column, 1)
  {
    var head := [column.id, 1];
    if t == [] || t == [column.id] {
      assert PrefixOf(t, head);
    } else {
      assert DiffersAt(t, head, 0);
    }
    assert Less(t, head);
  }

  lemma ColumnPassed(column: Column, t: Bytes)
    requires GoodColumn(column) && t != [] && column.id < t[0]
    ensures FirstAfter(RowEntries(column, 1), t) == None
  {
    var es := RowEntries(column, 1);
    RowsSorted(column, 1);
    forall i | 0 <= i < |es| ensures !Less(t, es[i].oid) {
      assert DiffersAt(es[i].oid, t, 0);
      LessAsymmetric(es[i].oid, t);
    }
    NoneAfter(es, t);
  }

  lemma TableNext(columns: seq<Column>, k: nat, t: Bytes)
    requires GoodTable(columns) && k < |columns|
    ensures GoodColumn(columns[k])
    ensures FirstAfter(TableEntries(columns, k), t)
         == if FirstAfter(RowEntries(columns[k], 1), t).Some? then FirstAfter(RowEntries(columns[k], 1), t)
            else FirstAfter(TableEntries(columns, k + 1), t)
    ensures Lookup(TableEntries(columns, k), t)
         == if Lookup(RowEntries(columns[k], 1), t).Some? then Lookup(RowEntries(columns[k], 1), t)
            else Lookup(TableEntries(columns, k + 1), t)
  {
    assert GoodColumn(columns[k]);
    FirstAfterConcat(RowEntries(columns[k], 1), TableEntries(columns, k + 1), t);
    LookupConcat(RowEntries(columns[k], 1), TableEntries(columns, k + 1), t);
  }

  /** A request before a column, in a table whose columns have the same rows, is answered by the
      first row of that column or not at all. */
  lemma {:induction false} TableFirst(columns: seq<Column>, k: nat, t: Bytes)
    requires GoodTable(columns) && k < |columns|
    requires t == [] || t == [columns[k].id] || t[0] < columns[k].id
    ensures GoodColumn(columns[k])
    ensures FirstAfter(TableEntries(columns, k), t) == Cell(columns[k], 1)
    decreases |columns| - k
  {
    TableNext(columns, k, t);
    ColumnFirst(columns[k], t);
    if |columns[k].cells| == 0 && k + 1 < |columns| {
      assert GoodColumn(columns[k+1]) && GoodColumn(columns[k]);
      assert columns[k].id < columns[k+1].id;
      TableFirst(columns, k + 1, t);
    }
  }

  lemma {:induction false} RowNamed(column: Column, row: nat, t: Bytes)
    requires 1 <= row && GoodColumn(column)
    ensures Lookup(RowEntries(column, row), t)
         == if |t| == 2 && t[0] == column.id && row <= t[1] as int then Cell(column, t[1] as int) else None
    decreases |column.cells| + 1 - row
  {
    if row <= |column.cells| {
      RowNamed(column, row + 1, t);
      assert t == [column.id, row as u8] <==> |t| == 2 && t[0] == column.id && t[1] == row as u8;
    }
  }

  /** Only the column named first in the request can hold the requested cell. */
  lemma {:induction false} OtherColumns(columns: seq<Column>, k: nat, t: Bytes)
    requires GoodTable(columns) && k <= |columns|
    requires |t| != 2 || forall i :: k <= i < |columns| ==> columns[i].id != t[0]
    ensures Lookup(TableEntries(columns, k), t) == None
    decreases |columns| - k
  {
    if k < |columns| {
      TableNext(columns, k, t);
      RowNamed(columns[k], 1, t);
      OtherColumns(columns, k + 1, t);
    }
  }

  /** Reads the cell named by the two bytes at `pos`; `len` counts these two as well. */
  method GetCell(buf: array<u8>, pos: nat, column: Column, version: u8) returns (len: nat)
    requires GoodColumn(column) && 1 <= pos && pos + ANSWER <= buf.Length && buf[pos] == column.id
    modifies buf
    ensures forall k :: 0 <= k < pos ==> buf[k] == old(buf[k])
    ensures Holds(buf, pos, Cell(column, old(buf[pos+1]) as int), len)
    ensures len == 0 ==> unchanged(buf)
  {
    var row := buf[pos+1] as int;
    if row < 1 || |column.cells| < row {
      return 0;
    }
    len := GetValue(buf, pos + 2, version, column.asn, column.cells[row-1]);
    assert buf[pos..pos+2] == [column.id, row as u8];
    len := len + 2;
  }

  /** Steps to the next row, or to the first row of the next column. */
  method NextCell(buf: array<u8>, pos: nat, columns: seq<Column>, k: nat, version: u8, ghost t: Bytes)
    returns (len: nat)
    requires GoodTable(columns) && k < |columns| && 1 <= pos && pos + ANSWER <= buf.Length
    requires |t| >= 2 && t[0] == columns[k].id == buf[pos] && t[1] == buf[pos+1]
    modifies buf
    ensures forall i :: 0 <= i < pos ==> buf[i] == old(buf[i])
    ensures Holds(buf, pos, FirstAfter(TableEntries(columns, k), t), len)
    ensures FirstAfter(TableEntries(columns, k), t).Some? ==>
              |FirstAfter(TableEntries(columns, k), t).value.oid| == 2
    ensures len == 0 ==> !PrefixOf(t, buf[pos..])
  {
    TableNext(columns, k, t);
    RowAfter(columns[k], 1, t);
    buf[pos+1] := if buf[pos+1] == 255 then 0 else buf[pos+1] + 1;
    len := GetCell(buf, pos, columns[k], version);
    if len != 0 || k + 1 == |columns| {
      return;
    }
    assert columns[k].id < columns[k+1].id;
    TableFirst(columns, k + 1, t);
    buf[pos] := columns[k+1].id;
    buf[pos+1] := FIRST_ROW;
    len := GetCell(buf, pos, columns[k+1], version);
  }

  /** Makes the packet name the first row of a column. */
  method NameCell(buf: array<u8>, pos: nat, id: u8)
    requires pos + 2 <= buf.Length
    modifies buf
    ensures buf[pos] == id && buf[pos+1] == FIRST_ROW && forall i :: 0 <= i < pos ==> buf[i] == old(buf[i])
  {
    buf[pos] := id;
    buf[pos+1] := FIRST_ROW;
  }

  /** Relation of a request to a column: not yet there, within, or behind it. */
  predicate Ahead(id: u8, t: Bytes) {
    t == [] || t == [id] || t[0] < id
  }

  predicate Within(id: u8, next: bool, t: Bytes) {
    |t| >= 2 && t[0] == id && (next || |t| == 2)
  }

  predicate Passed(id: u8, next: bool, t: Bytes) {
    if next then t != [] && id < t[0] else !Within(id, next, t)
  }

  datatype Match = FirstRow | SameColumn | NoMatch

  /** The tests made of one column. */
  method MatchColumn(buf: array<u8>, pos: nat, id: u8, next: bool, first: bool, twigLen: int, ghost t: Bytes)
    returns (m: Match)
    requires pos + ANSWER <= buf.Length && (first ==> next && t == [])
    requires !first ==> |t| == twigLen && PrefixOf(t, buf[pos..])
    requires next && !first ==> t != []
    ensures m == FirstRow <==> next && Ahead(id, t)
    ensures m == SameColumn <==> Within(id, next, t)
    ensures m == NoMatch ==> Passed(id, next, t)
  {
    if first {
      return FirstRow;
    }
    FirstByte(id, t, buf[pos..]);
    var cmp := MemCmp([id], buf[pos..], Min(twigLen, 1));
    if (next && cmp == 0 && twigLen < 2) || (next && cmp > 0) {
      return FirstRow;
    }
    if cmp == 0 && (twigLen == 2 || (next && twigLen > 2)) {
      return SameColumn;
    }
    return NoMatch;
  }

  /** Search for a column.  Either the request gives a row in it, to be stepped over on GETNEXT, or
      the packet is made to name its first row. */
  method FindColumn(buf: array<u8>, pos: nat, columns: seq<Column>, next: bool, first: bool, twigLen: int,
                    ghost t: Bytes)
    returns (k: nat, increase: bool)
    requires 1 <= pos && pos + ANSWER <= buf.Length && (first ==> next && t == [])
    requires !first ==> |t| == twigLen && PrefixOf(t, buf[pos..])
    requires next && !first ==> t != []
    modifies buf
    ensures forall i :: 0 <= i < pos ==> buf[i] == old(buf[i])
    ensures k <= |columns| && forall j :: 0 <= j < k ==> Passed(columns[j].id, next, t)
    ensures k == |columns| ==> unchanged(buf)
    ensures k < |columns| && next && !increase ==>
              Ahead(columns[k].id, t) && buf[pos] == columns[k].id && buf[pos+1] == FIRST_ROW
    ensures k < |columns| && (increase || !next) ==>
              increase == next && Within(columns[k].id, next, t) && unchanged(buf)
  {
    increase := next;
    k := 0;
    while k < |columns|
      invariant k <= |columns| && unchanged(buf) && increase == next
      invariant forall j :: 0 <= j < k ==> Passed(columns[j].id, next, t)
    {
      var m := MatchColumn(buf, pos, columns[k].id, next, first, twigLen, t);
      if m == FirstRow {
        NameCell(buf, pos, columns[k].id);
        increase := false;
        return;
      }
      if m == SameColumn {
        return;
      }
      k := k + 1;
    }
  }

  /** Columns passed over hold no answer. */
  lemma {:induction false} ColumnsPassed(columns: seq<Column>, k: nat, next: bool, t: Bytes)
    requires GoodTable(columns) && k <= |columns| && forall j :: 0 <= j < k ==> Passed(columns[j].id, next, t)
    ensures Found(next, TableEntries(columns, 0), t) == Found(next, TableEntries(columns, k), t)
  {
    if k > 0 {
      ColumnsPassed(columns, k - 1, next, t);
      TableNext(columns, k - 1, t);
      assert Passed(columns[k-1].id, next, t);
      if next { ColumnPassed(columns[k-1], t); } else { RowNamed(columns[k-1], 1, t); }
    }
  }

  lemma FirstByte(id: u8, t: Bytes, area: Bytes)
    requires PrefixOf(t, area)
    ensures t != [] ==> MemCmp([id], area, Min(|t|, 1)) == if id < t[0] then -1 else if t[0] < id then 1 else 0
    ensures |t| == 1 && t[0] == id ==> t == [id]
  {
    assert t != [] ==> t[0] == area[0];
  }

  lemma CellNamed(columns: seq<Column>, k: nat, t: Bytes)
    requires GoodTable(columns) && k < |columns| && |t| == 2 && t[0] == columns[k].id
    ensures GoodColumn(columns[k])
    ensures Lookup(TableEntries(columns, k), t) == Cell(columns[k], t[1] as int)
  {
    TableNext(columns, k, t);
    RowNamed(columns[k], 1, t);
    forall i | k + 1 <= i < |columns| ensures columns[i].id != t[0] {
      assert columns[k].id < columns[i].id;
    }
    OtherColumns(columns, k + 1, t);
  }

  method SetNameLength(buf: array<u8>, pos: nat, n: u8, ghost r: Option<Entry>, ghost len: nat)
    requires 1 <= pos <= buf.Length && Holds(buf, pos, r, len)
    modifies buf
    ensures buf[0] == n && Holds(buf, pos, r, len)
    ensures forall k :: 1 <= k < buf.Length ==> buf[k] == old(buf[k])
  {
    ghost var before := buf[..];
    buf[0] := n;
    match r
    case None =>
    case Some(e) =>
      SameSlice(before, buf[..], pos, pos + |e.oid|);
      SameSlice(before, buf[..], pos + |e.oid|, pos + len);
      assert buf[..][pos..pos+|e.oid|] == buf[pos..pos+|e.oid|];
      assert buf[..][pos+|e.oid|..pos+len] == buf[pos+|e.oid|..pos+len];
  }

  lemma SameSlice(a: Bytes, b: Bytes, lo: nat, hi: nat)
    requires lo <= hi <= |a| == |b| && forall k :: lo <= k < hi ==> a[k] == b[k]
    ensures a[lo..hi] == b[lo..hi]
  {
  }

  /** A fruitless search of the table for what follows `t` leaves `t` in the packet: all columns lie
      before it, or it is just the name of a column. */
  ghost predicate TableKeeps(columns: seq<Column>, t: Bytes)
    requires t != []
  {
    || (forall k {:trigger columns[k]} :: 0 <= k < |columns| ==> columns[k].id < t[0])
    || (|t| == 1 && exists k {:trigger columns[k]} :: 0 <= k < |columns| && columns[k].id == t[0])
  }

  lemma ColumnAheadKeeps(columns: seq<Column>, k: nat, t: Bytes, area: Bytes)
    requires GoodTable(columns) && k < |columns| && t != [] && Ahead(columns[k].id, t)
    requires |area| >= 2 && area[0] == columns[k].id
    requires forall j :: 0 <= j < k ==> Passed(columns[j].id, true, t)
    ensures PrefixOf(t, area) <==> TableKeeps(columns, t)
  {
    if t != [columns[k].id] {
      assert !PrefixOf(t, area);
      assert columns[k].id > t[0];
      forall j | 0 <= j < |columns| ensures columns[j].id != t[0] {
        assert j < k ==> Passed(columns[j].id, true, t);
        assert j > k ==> columns[k].id < columns[j].id;
      }
    }
  }

  /** Search in a table: the next cell, column by column, or the one requested. */
  method SearchColumns(buf: array<u8>, pos: nat, columns: seq<Column>, next: bool, first: bool, twigLen: int,
                       version: u8, ghost t: Bytes)
    returns (len: nat)
    requires GoodTable(columns) && 1 <= pos && pos + ANSWER <= buf.Length && (first ==> next && t == [])
    requires !first ==> |t| == twigLen && PrefixOf(t, buf[pos..])
    requires next && !first ==> t != []
    modifies buf
    ensures forall i :: 0 <= i < pos ==> buf[i] == old(buf[i])
    ensures Holds(buf, pos, Found(next, TableEntries(columns, 0), t), len)
    ensures len == 0 <==> Found(next, TableEntries(columns, 0), t) == None
    ensures next && len > 0 ==> |Found(next, TableEntries(columns, 0), t).value.oid| == 2
    ensures !next ==> forall i :: 0 <= i < pos + |t| ==> buf[i] == old(buf[i])
    ensures next && !first && len == 0 ==> (PrefixOf(t, buf[pos..]) <==> TableKeeps(columns, t))
  {
    var k, increase := FindColumn(buf, pos, columns, next, first, twigLen, t);
    ColumnsPassed(columns, k, next, t);
    if k == |columns| {
      return 0;
    }
    assert GoodColumn(columns[k]);
    if increase {
      len := NextCell(buf, pos, columns, k, version, t);
    } else {
      if next {
        TableFirst(columns, k, t);
        if !first { ColumnAheadKeeps(columns, k, t, buf[pos..]); }
      } else {
        CellNamed(columns, k, t);
      }
      len := GetCell(buf, pos, columns[k], version);
    }
  }

  method FuncTable(buf: array<u8>, matched: nat, columns: seq<Column>, next: bool, first: bool, version: u8)
    returns (len: nat)
    requires GoodTable(columns) && (first ==> next)
    requires 1 + matched + ANSWER <= buf.Length && 1 + buf[0] as int <= buf.Length
    requires !first ==> matched <= buf[0] as int
    requires next && !first ==> matched < buf[0] as int
    modifies buf
    ensures forall k :: 1 <= k < 1 + matched ==> buf[k] == old(buf[k])
    ensures Answered(buf, 1 + matched, next, old(buf[0]), len,
                     Found(next, TableEntries(columns, 0), Suffix(old(Request(buf)), matched, first)))
    ensures !next ==> forall k :: 0 <= k < 1 + old(buf[0]) as int ==> buf[k] == old(buf[k])
    ensures next && len == 0 ==> buf[0] == old(buf[0])
    ensures next && !first && len == 0 ==>
              var t := Suffix(old(Request(buf)), matched, first);
              PrefixOf(t, buf[1+matched..]) <==> TableKeeps(columns, t)
  {
    ghost var t := Suffix(Request(buf), matched, first);
    var pos := 1 + matched;
    len := SearchColumns(buf, pos, columns, next, first, buf[0] as int - matched, version, t);
    if len != 0 && next {
      SetNameLength(buf, pos, 2, Found(next, TableEntries(columns, 0), t), len);
    }
  }

  // ---------------------------------------------------------------------------------------------
  // Limbs
  // ---------------------------------------------------------------------------------------------

  /** The request is not after the limb, so all objects of the limb are after the request. */
  ghost predicate NotAfter(q: Bytes, limb: Bytes) {
    q == limb || Less(q, limb)
  }

  lemma FlatNext(version: u8, limbs: seq<Limb>, i: nat, q: Bytes)
    requires GoodMib(limbs) && i < |limbs|
    ensures GoodLimb(limbs[i])
    ensures FirstAfter(FlatFrom(version, limbs, i), q)
         == if FirstAfter(LimbEntries(version, limbs[i]), q).Some? then FirstAfter(LimbEntries(version, limbs[i]), q)
            else FirstAfter(FlatFrom(version, limbs, i + 1), q)
    ensures Lookup(FlatFrom(version, limbs, i), q)
         == if Lookup(LimbEntries(version, limbs[i]), q).Some? then Lookup(LimbEntries(version, limbs[i]), q)
            else Lookup(FlatFrom(version, limbs, i + 1), q)
  {
    assert GoodLimb(limbs[i]);
    FirstAfterConcat(LimbEntries(version, limbs[i]), FlatFrom(version, limbs, i + 1), q);
    LookupConcat(LimbEntries(version, limbs[i]), FlatFrom(version, limbs, i + 1), q);
  }

  /** A limb that begins the request is searched for the rest of the request. */
  lemma LimbWithin(version: u8, limb: Limb, q: Bytes)
    requires GoodLimb(limb) && PrefixOf(limb.oid, q)
    ensures FirstAfter(LimbEntries(version, limb), q)
         == Lift(limb.oid, FirstAfter(Suffixes(version, limb), q[|limb.oid|..]))
    ensures Lookup(LimbEntries(version, limb), q)
         == Lift(limb.oid, Lookup(Suffixes(version, limb), q[|limb.oid|..]))
  {
    var t := q[|limb.oid|..];
    assert q == limb.oid + t;
    FirstAfterUnder(limb.oid, Suffixes(version, limb), t);
    LookupUnder(limb.oid, Suffixes(version, limb), t);
  }

  /** A limb not before the request is answered by its first object. */
  lemma LimbBeyond(version: u8, limb: Limb, q: Bytes)
    requires GoodLimb(limb) && NotAfter(q, limb.oid)
    ensures FirstAfter(LimbEntries(version, limb), q) == Lift(limb.oid, FirstAfter(Suffixes(version, limb), []))
  {
    var es := Suffixes(version, limb);
    SuffixesSorted(version, limb);
    var all := LimbEntries(version, limb);
    forall i | 0 <= i < |es| ensures Less([], es[i].oid) && Less(q, all[i].oid) {
      assert PrefixOf([], es[i].oid);
      LessExtension(limb.oid, es[i].oid);
      if q != limb.oid { LessTransitive(q, limb.oid, limb.oid + es[i].oid); }
    }
    AllAfter(es, []);
    AllAfter(all, q);
  }

  /** A limb that differs from the request holds no object of that name, and none after it if the
      limb comes first. */
  lemma LimbElsewhere(version: u8, limb: Limb, q: Bytes, n: nat, area: Bytes)
    requires GoodLimb(limb) && PrefixOf(q, area) && n == Min(|limb.oid|, |q|)
    ensures MemCmp(limb.oid, area, n) < 0 ==> FirstAfter(LimbEntries(version, limb), q) == None
    ensures MemCmp(limb.oid, area, n) != 0 || |q| < |limb.oid| ==> Lookup(LimbEntries(version, limb), q) == None
  {
    var es, all := Suffixes(version, limb), LimbEntries(version, limb);
    SameComparison(limb.oid, q, area, n);
    forall i | 0 <= i < |es|
      ensures MemCmp(limb.oid, q, n) < 0 ==> !Less(q, all[i].oid)
      ensures MemCmp(limb.oid, q, n) != 0 || |q| < |limb.oid| ==> all[i].oid != q
    {
      CmpDecides(limb.oid, q, n, es[i].oid);
      LessIrreflexive(q);
    }
    if MemCmp(limb.oid, q, n) < 0 { NoneAfter(all, q); }
    if MemCmp(limb.oid, q, n) != 0 || |q| < |limb.oid| { NoneNamed(all, q); }
  }

  lemma LessIrreflexive(q: Bytes)
    ensures !Less(q, q)
  {
  }

  lemma {:induction false} SameComparison(a: Bytes, b: Bytes, c: Bytes, n: nat)
    requires n <= |a| && n <= |b| && PrefixOf(b, c)
    ensures MemCmp(a, b, n) == MemCmp(a, c, n)
  {
    if 0 < n {
      SameComparison(a, b, c, n - 1);
    }
  }

  /** What the packet holds when limb `i` is looked at: still the request, or the previous limb,
      which had nothing after the request. */
  ghost predicate LimbArea(area: Bytes, len: nat, limbs: seq<Limb>, i: nat, q: Bytes) {
    || (len == |q| && PrefixOf(q, area))
    || (0 < i <= |limbs| && PrefixOf(limbs[i-1].oid, area)
        && (PrefixOf(limbs[i-1].oid, q) || NotAfter(q, limbs[i-1].oid)))
  }

  /** The comparison with the packet, as it may have been rewritten, is right about the request. */
  lemma LimbDecision(area: Bytes, len: nat, limbs: seq<Limb>, i: nat, q: Bytes, n: nat, c: int)
    requires GoodMib(limbs) && i < |limbs| && LimbArea(area, len, limbs, i, q)
    requires n == Min(|limbs[i].oid|, len) && n <= |area| && c == MemCmp(limbs[i].oid, area, n)
    ensures c > 0 || (|limbs[i].oid| >= len && c == 0) ==> NotAfter(q, limbs[i].oid)
    ensures !(c > 0 || (|limbs[i].oid| >= len && c == 0)) ==>
              len == |q| && PrefixOf(q, area) && (c == 0 ==> PrefixOf(limbs[i].oid, q) && |limbs[i].oid| < |q|)
  {
    var p := limbs[i].oid;
    if len == |q| && PrefixOf(q, area) {
      CompareHead(p, q, area, n);
      if |p| == len && c == 0 { assert p == q; }
    } else {
      var p' := limbs[i-1].oid;
      assert Apart(limbs[i-1].oid, limbs[i].oid);
      if PrefixOf(p', q) {
        ApartExtends(p', p, q, p);
      } else {
        ApartExtends(p', p, p', p);
        if q != p' { LessTransitive(q, p', p); }
      }
      RewrittenComparison(p', p, area, n);
      assert n < |p| ==> n == len;
    }
  }

  /** Against a packet that holds an earlier limb, the comparison never points backwards. */
  lemma RewrittenComparison(p': Bytes, p: Bytes, area: Bytes, n: nat)
    requires Apart(p', p) && PrefixOf(p', area) && n <= |p| && n <= |area|
    ensures MemCmp(p, area, n) >= 0
    ensures MemCmp(p, area, n) == 0 ==> n < |p|
  {
    var d: nat :| DiffersAt(p', p, d) && p'[d] < p[d];
    if MemCmp(p, area, n) < 0 {
      var e: nat :| e < n && DiffersAt(p, area, e) && p[e] < area[e];
      assert DiffersAt(p, area, d);
      DiffersOnce(p, area, d, e);
    }
  }

  /** The length byte after a fruitless search for what follows `t` below the limb. */
  ghost function LengthLeft(limb: Limb, t: Bytes, len: nat): nat {
    match limb
    case Group(_, twigs) => GroupLength(twigs, t, len)
    case Table(_, _) => len
  }

  /** Such a search, for a request of length `n` that ends in `t`, leaves its name and length. */
  ghost predicate LimbKeeps(limb: Limb, n: nat, t: Bytes)
    requires t != []
  {
    match limb
    case Table(_, columns) => TableKeeps(columns, t)
    case Group(_, twigs) => GroupKeeps(twigs, n, t)
  }

  /** What a fruitless search for the next instance leaves, of a request of length `n`. */
  ghost predicate Leaves(buf: array<u8>, limb: Limb, next: bool, first: bool, n: nat, t: Bytes)
    requires 1 + |limb.oid| <= buf.Length && (next && !first ==> t != [])
    reads buf
  {
    next ==>
      && buf[0] as int == LengthLeft(limb, t, n)
      && (!first ==> (buf[0] as int == n && PrefixOf(t, buf[1+|limb.oid|..]) <==> LimbKeeps(limb, n, t)))
  }

  /** The search below a limb, whichever kind it is. */
  method SearchTwigs(buf: array<u8>, limb: Limb, next: bool, first: bool, version: u8,
                     ghost t: Bytes, ghost found: Option<Entry>)
    returns (len: nat)
    requires GoodLimb(limb) && (first ==> next)
    requires AREA <= buf.Length && 1 + buf[0] as int <= buf.Length
    requires !first ==> |limb.oid| <= buf[0] as int
    requires next && !first ==> |limb.oid| < buf[0] as int
    requires t == Suffix(Request(buf), |limb.oid|, first) && found == Found(next, Suffixes(version, limb), t)
    modifies buf
    ensures forall k :: 1 <= k < 1 + |limb.oid| ==> buf[k] == old(buf[k])
    ensures Answered(buf, 1 + |limb.oid|, next, old(buf[0]), len, found)
    ensures !next ==> forall k :: 0 <= k < 1 + old(buf[0]) as int ==> buf[k] == old(buf[k])
    ensures len == 0 ==> Leaves(buf, limb, next, first, old(buf[0]) as int, t)
  {
    match limb {
      case Group(_, twigs) =>
        len := FuncGroup(buf, |limb.oid|, twigs, next, first, version);
      case Table(_, columns) =>
        len := FuncTable(buf, |limb.oid|, columns, next, first, version);
    }
  }

  lemma {:induction false} FoundIn(next: bool, es: seq<Entry>, t: Bytes)
    ensures Found(next, es, t).Some? ==> Found(next, es, t).value in es
  {
    if es != [] && !Wanted(next, t, es[0].oid) {
      FoundIn(next, es[1..], t);
    }
  }

  lemma FoundLength(version: u8, limb: Limb, next: bool, t: Bytes)
    requires GoodLimb(limb)
    ensures var r := Found(next, Suffixes(version, limb), t); r.Some? ==> |r.value.oid| < MAX_OID_LEN
  {
    var es := Suffixes(version, limb);
    FoundIn(next, es, t);
    if Found(next, es, t).Some? {
      var i :| 0 <= i < |es| && es[i] == Found(next, es, t).value;
      match limb
      case Group(_, twigs) =>
        GroupSorted(version, twigs, 0);
        assert IsTwig(twigs, 0, es[i].oid);
      case Table(_, columns) => TableSorted(columns, 0);
    }
  }

  lemma HoldsAfterName(buf: array<u8>, name: Bytes, r: Option<Entry>, len: nat)
    requires 1 + |name| <= buf.Length && buf[1..1+|name|] == name && len > 0
    requires Holds(buf, 1 + |name|, r, len)
    ensures Holds(buf, 1, Lift(name, r), |name| + len)
  {
    var e := r.value;
    var n, m := |name|, |e.oid|;
    assert buf[1..1+n+m] == buf[1..1+n] + buf[1+n..1+n+m];
  }

  /** GETNEXT copies the limb into the packet; when the limb begins the request this changes nothing. */
  method NameLimb(buf: array<u8>, name: Bytes, next: bool, first: bool)
    requires AREA <= buf.Length && 1 + buf[0] as int <= buf.Length && |name| < MAX_OID_LEN && (first ==> next)
    requires !first ==> PrefixOf(name, Request(buf))
    modifies buf
    ensures buf[1..1+|name|] == name && buf[0] == old(buf[0])
    ensures !first ==> Request(buf) == old(Request(buf))
    ensures !next ==> unchanged(buf)
  {
    ghost var before := buf[..];
    if next {
      Put(buf, 1, name);
    } else {
      assert Request(buf)[..|name|] == name;
    }
    if !first { SameRequest(before, buf, name); }
  }

  lemma SameRequest(before: Bytes, buf: array<u8>, name: Bytes)
    requires 1 <= |before| == buf.Length && 1 + before[0] as int <= |before| && before[0] == buf[0]
    requires PrefixOf(name, before[1..1 + before[0] as int]) && 1 + |name| <= buf.Length
    requires forall k :: 1 <= k < 1 + |name| ==> buf[k] == name[k-1]
    requires forall k :: 1 + |name| <= k < buf.Length ==> buf[k] == before[k]
    ensures Request(buf) == before[1..1 + before[0] as int]
  {
    var a, b := Request(buf), before[1..1 + before[0] as int];
    forall k | 0 <= k < |b| ensures a[k] == b[k] {
      assert k < |name| ==> name[k] == b[k];
    }
  }

  /** Makes the answer below the limb an answer to the request. */
  method AddLimbLength(buf: array<u8>, name: Bytes, next: bool, len: nat, ghost oldLen: u8, ghost r: Option<Entry>)
    returns (total: nat)
    requires AREA <= buf.Length && |name| < MAX_OID_LEN && buf[1..1+|name|] == name
    requires len > 0 && Answered(buf, 1 + |name|, next, oldLen, len, r) && |r.value.oid| < MAX_OID_LEN
    modifies buf
    ensures buf[1..1+|name|] == name
    ensures Answered(buf, 1, next, oldLen, total, Lift(name, r))
    ensures !next ==> unchanged(buf)
  {
    if next {
      SetNameLength(buf, 1 + |name|, buf[0] + |name| as u8, r, len);
      assert buf[1..1+|name|] == name;
    }
    HoldsAfterName(buf, name, r, len);
    total := |name| + len;
  }

  /** Behind its limb, a request is in the packet iff the rest of it is. */
  lemma PrefixBehind(limb: Bytes, t: Bytes, area: Bytes)
    requires PrefixOf(limb, area)
    ensures PrefixOf(limb + t, area) <==> PrefixOf(t, area[|limb|..])
  {
    var q := limb + t;
    if PrefixOf(t, area[|limb|..]) {
      assert forall k :: 0 <= k < |t| ==> area[|limb|..][k] == area[|limb|+k];
    }
    if PrefixOf(q, area) {
      assert forall k :: 0 <= k < |t| ==> q[|limb|+k] == t[k];
    }
  }

  /** Names the limb and searches below it for `found`. */
  method SearchBelow(buf: array<u8>, limb: Limb, next: bool, first: bool, version: u8,
                     ghost t: Bytes, ghost found: Option<Entry>)
    returns (len: nat)
    requires GoodLimb(limb) && (first ==> next)
    requires AREA <= buf.Length && 1 + buf[0] as int <= buf.Length
    requires !first ==> PrefixOf(limb.oid, Request(buf)) && (next ==> |limb.oid| < buf[0] as int)
    requires t == Suffix(Request(buf), |limb.oid|, first) && found == Found(next, Suffixes(version, limb), t)
    modifies buf
    ensures buf[1..1+|limb.oid|] == limb.oid
    ensures Answered(buf, 1 + |limb.oid|, next, old(buf[0]), len, found)
    ensures !next ==> forall k :: 0 <= k < 1 + old(buf[0]) as int ==> buf[k] == old(buf[k])
    ensures len == 0 ==> Leaves(buf, limb, next, first, old(buf[0]) as int, t)
  {
    NameLimb(buf, limb.oid, next, first);
    len := SearchTwigs(buf, limb, next, first, version, t, found);
  }

  /** Searches one limb for `found`, the answer to what of the request lies below it. */
  method SearchLimb(buf: array<u8>, limb: Limb, next: bool, first: bool, version: u8,
                    ghost t: Bytes, ghost found: Option<Entry>)
    returns (len: nat)
    requires GoodLimb(limb) && (first ==> next)
    requires AREA <= buf.Length && 1 + buf[0] as int <= buf.Length
    requires !first ==> PrefixOf(limb.oid, Request(buf)) && (next ==> |limb.oid| < buf[0] as int)
    requires t == Suffix(Request(buf), |limb.oid|, first) && found == Found(next, Suffixes(version, limb), t)
    requires found.Some? ==> |found.value.oid| < MAX_OID_LEN
    modifies buf
    ensures buf[1..1+|limb.oid|] == limb.oid
    ensures Answered(buf, 1, next, old(buf[0]), len, Lift(limb.oid, found))
    ensures !next ==> forall k :: 0 <= k < 1 + old(buf[0]) as int ==> buf[k] == old(buf[k])
    ensures len == 0 ==> Leaves(buf, limb, next, first, old(buf[0]) as int, t)
  {
    ghost var oldLen := buf[0];
    len := SearchBelow(buf, limb, next, first, version, t, found);
    if len > 0 {
      len := AddLimbLength(buf, limb.oid, next, len, oldLen, found);
    }
  }

  /** Past the place where the requested name would be, no limb holds it. */
  lemma FlatTooFar(version: u8, limbs: seq<Limb>, i: nat, q: Bytes, n: nat, area: Bytes)
    requires GoodMib(limbs) && i < |limbs| && PrefixOf(q, area)
    requires n == Min(|limbs[i].oid|, |q|) && MemCmp(limbs[i].oid, area, n) > 0
    ensures Lookup(FlatFrom(version, limbs, i), q) == None
  {
    var es := FlatFrom(version, limbs, i);
    FlatSorted(version, limbs, i);
    var d: nat :| d < n && DiffersAt(limbs[i].oid, area, d) && area[d] < limbs[i].oid[d];
    assert DiffersAt(q, limbs[i].oid, d);
    LessAsymmetric(q, limbs[i].oid);
    forall k | 0 <= k < |es| ensures es[k].oid != q {
      assert UnderLimb(limbs, i, es[k].oid);
      var m :| i <= m < |limbs| && PrefixOf(limbs[m].oid, es[k].oid);
      if i < m && es[k].oid == q {
        assert Apart(limbs[i].oid, limbs[m].oid);
        ApartExtends(limbs[i].oid, limbs[m].oid, limbs[i].oid, q);
      }
    }
    NoneNamed(es, q);
  }

  /** Entering a limb looks for the same thing as the flat list of its instances. */
  lemma EnterLimb(version: u8, limb: Limb, next: bool, first: bool, q: Bytes, request: Bytes)
    requires GoodLimb(limb) && (first ==> next)
    requires if first then NotAfter(q, limb.oid) else request == q && PrefixOf(limb.oid, q)
    ensures Lift(limb.oid, Found(next, Suffixes(version, limb), Suffix(request, |limb.oid|, first)))
         == Found(next, LimbEntries(version, limb), q)
  {
    if first { LimbBeyond(version, limb, q); } else { LimbWithin(version, limb, q); }
  }

  ghost predicate Fresh(buf: array<u8>, q: Bytes)
    requires 1 <= buf.Length
    reads buf
  {
    buf[0] as int == |q| && PrefixOf(q, buf[1..])
  }

  /** GETNEXT enters a limb at its beginning exactly if the request is not after it, and otherwise
      exactly if it begins the request. */
  lemma ChoiceNext(version: u8, limbs: seq<Limb>, i: nat, q: Bytes, area: Bytes, len: nat, n: nat, c: int)
    requires GoodMib(limbs) && i < |limbs| && LimbArea(area, len, limbs, i, q)
    requires n == Min(|limbs[i].oid|, len) && n <= |area| && c == MemCmp(limbs[i].oid, area, n)
    ensures var p := limbs[i].oid;
            var first := c > 0 || (|p| >= len && c == 0);
            && GoodLimb(limbs[i]) && (first <==> NotAfter(q, p))
            && (!first ==> len == |q| && PrefixOf(q, area) && (c == 0 <==> PrefixOf(p, q)) && (c == 0 ==> |p| < |q|))
            && (!first && c < 0 ==> FirstAfter(LimbEntries(version, limbs[i]), q) == None)
  {
    var p := limbs[i].oid;
    assert GoodLimb(limbs[i]);
    LimbDecision(area, len, limbs, i, q, n, c);
    if len == |q| && PrefixOf(q, area) {
      CompareHead(p, q, area, n);
      LimbElsewhere(version, limbs[i], q, n, area);
      assert c < 0 ==> q != p && !PrefixOf(p, q);
    }
  }

  lemma ChoiceGet(version: u8, limbs: seq<Limb>, i: nat, q: Bytes, area: Bytes, n: nat)
    requires GoodMib(limbs) && i < |limbs| && PrefixOf(q, area) && n == Min(|limbs[i].oid|, |q|)
    ensures var p, c := limbs[i].oid, MemCmp(limbs[i].oid, area, n);
            && GoodLimb(limbs[i])
            && (c == 0 && n == |p| ==> PrefixOf(p, q))
            && (c != 0 || |q| < |p| ==> Lookup(LimbEntries(version, limbs[i]), q) == None)
            && (c > 0 ==> Lookup(FlatFrom(version, limbs, i), q) == None)
  {
    assert GoodLimb(limbs[i]);
    LimbElsewhere(version, limbs[i], q, n, area);
    if MemCmp(limbs[i].oid, area, n) > 0 { FlatTooFar(version, limbs, i, q, n, area); }
  }

  /** What to do with limb `i`. */
  method ChooseLimb(buf: array<u8>, limbs: seq<Limb>, i: nat, next: bool, ghost version: u8, ghost q: Bytes)
    returns (action: Action, first: bool)
    requires GoodMib(limbs) && i < |limbs| && AREA <= buf.Length && 1 + buf[0] as int <= buf.Length
    requires LimbArea(buf[1..], buf[0] as int, limbs, i, q) && (!next ==> Fresh(buf, q))
    ensures GoodLimb(limbs[i])
    ensures action == Use && first ==> next && NotAfter(q, limbs[i].oid)
    ensures action == Use && !first ==>
              Request(buf) == q && PrefixOf(limbs[i].oid, q) && (next ==> |limbs[i].oid| < |q|)
    ensures action == Skip ==> Found(next, LimbEntries(version, limbs[i]), q) == None && Fresh(buf, q)
    ensures action == Stop ==> !next && Found(next, FlatFrom(version, limbs, i), q) == None
    ensures next && !(action == Use && first) ==> !NotAfter(q, limbs[i].oid)
    ensures next && action == Skip ==> !PrefixOf(limbs[i].oid, q)
  {
    var name := limbs[i].oid;
    var n := Min(|name|, buf[0] as int);
    var cmp := MemCmp(name, buf[1..], n);
    if next {
      ChoiceNext(version, limbs, i, q, buf[1..], buf[0] as int, n, cmp);
    } else {
      ChoiceGet(version, limbs, i, q, buf[1..], n);
    }
    if !next && |name| > buf[0] as int {
      // GET wants a request at least as long as the limb
      return Skip, false;
    }
    first := next && (cmp > 0 || (|name| >= buf[0] as int && cmp == 0));
    if first || (|name| == n && cmp == 0) {
      return Use, first;
    }
    return if cmp > 0 then Stop else Skip, first;
  }

  /** Searches a limb the request leads into for the request. */
  method SearchLimbFor(buf: array<u8>, limb: Limb, next: bool, first: bool, version: u8, ghost q: Bytes, ghost t: Bytes)
    returns (len: nat)
    requires GoodLimb(limb) && (first ==> next) && AREA <= buf.Length && 1 + buf[0] as int <= buf.Length
    requires if first then NotAfter(q, limb.oid)
             else Request(buf) == q && PrefixOf(limb.oid, q) && (next ==> |limb.oid| < |q|)
    requires t == Suffix(Request(buf), |limb.oid|, first)
    modifies buf
    ensures buf[1..1+|limb.oid|] == limb.oid
    ensures Answered(buf, 1, next, old(buf[0]), len, Found(next, LimbEntries(version, limb), q))
    ensures !next ==> forall k :: 0 <= k < 1 + old(buf[0]) as int ==> buf[k] == old(buf[k])
    ensures len == 0 ==> Leaves(buf, limb, next, first, old(buf[0]) as int, t)
  {
    EnterLimb(version, limb, next, first, q, Request(buf));
    FoundLength(version, limb, next, t);
    len := SearchLimb(buf, limb, next, first, version, t, Found(next, Suffixes(version, limb), t));
  }

  /** Answers from such a limb, or leaves the packet for the limbs after it. */
  method UseLimb(buf: array<u8>, limb: Limb, next: bool, first: bool, version: u8, ghost q: Bytes) returns (len: nat)
    requires GoodLimb(limb) && (first ==> next) && AREA <= buf.Length && 1 + buf[0] as int <= buf.Length
    requires if first then NotAfter(q, limb.oid)
             else Request(buf) == q && PrefixOf(limb.oid, q) && (next ==> |limb.oid| < |q|)
    modifies buf
    ensures PrefixOf(limb.oid, buf[1..]) && 1 + buf[0] as int <= buf.Length
    ensures Answered(buf, 1, next, old(buf[0]), len, Found(next, LimbEntries(version, limb), q))
    ensures !next ==> Fresh(buf, q)
    ensures next && first && len == 0 ==> buf[0] as int == LengthLeft(limb, [], old(buf[0]) as int)
    ensures next && !first && len == 0 ==> (Fresh(buf, q) <==> LimbKeeps(limb, |q|, q[|limb.oid|..]))
  {
    ghost var t := Suffix(Request(buf), |limb.oid|, first);
    ghost var before, n := buf[..], buf[0] as int;
    len := SearchLimbFor(buf, limb, next, first, version, q, t);
    PrefixHere(buf, limb.oid);
    if !next {
      FreshKept(before, buf, q);
    } else if len == 0 {
      LimbLeft(buf, limb, first, n, q, t);
    } else {
      AnsweredFits(buf, old(buf[0]), len, Found(next, LimbEntries(version, limb), q));
    }
  }

  lemma PrefixHere(buf: array<u8>, name: Bytes)
    requires 1 + |name| <= buf.Length && buf[1..1+|name|] == name
    ensures PrefixOf(name, buf[1..])
  {
    forall k | 0 <= k < |name| ensures name[k] == buf[1..][k] {
      assert buf[1..1+|name|][k] == buf[1+k];
    }
  }

  lemma AnsweredFits(buf: array<u8>, oldLen: u8, len: nat, r: Option<Entry>)
    requires Answered(buf, 1, true, oldLen, len, r) && len > 0
    ensures 1 + buf[0] as int <= buf.Length
  {
  }

  lemma LimbLeft(buf: array<u8>, limb: Limb, first: bool, n: nat, q: Bytes, t: Bytes)
    requires GoodLimb(limb) && AREA <= buf.Length && 1 + n <= buf.Length && buf[1..1+|limb.oid|] == limb.oid
    requires if first then t == [] else |q| == n && PrefixOf(limb.oid, q) && t == q[|limb.oid|..] && t != []
    requires Leaves(buf, limb, true, first, n, t)
    ensures 1 + buf[0] as int <= buf.Length
    ensures first ==> buf[0] as int == LengthLeft(limb, [], n)
    ensures !first ==> (Fresh(buf, q) <==> LimbKeeps(limb, |q|, q[|limb.oid|..]))
  {
    LengthLeftBound(limb, t, n);
    if !first { FreshBehind(buf, limb.oid, t, q); }
  }

  lemma LengthLeftBound(limb: Limb, t: Bytes, n: nat)
    requires GoodLimb(limb)
    ensures LengthLeft(limb, t, n) == n || LengthLeft(limb, t, n) < MAX_OID_LEN
  {
  }

  lemma FreshKept(before: Bytes, buf: array<u8>, q: Bytes)
    requires |before| == buf.Length > 0 && 1 + before[0] as int <= |before| && before[1..1 + before[0] as int] == q
    requires forall k :: 0 <= k < 1 + before[0] as int ==> buf[k] == before[k]
    ensures Fresh(buf, q)
  {
  }

  lemma FreshBehind(buf: array<u8>, limb: Bytes, t: Bytes, q: Bytes)
    requires 1 + |limb| <= buf.Length && buf[1..1+|limb|] == limb && PrefixOf(limb, q) && t == q[|limb|..]
    ensures Fresh(buf, q) <==> buf[0] as int == |q| && PrefixOf(t, buf[1+|limb|..])
  {
    assert q == limb + t;
    assert PrefixOf(limb, buf[1..]);
    PrefixBehind(limb, t, buf[1..]);
    assert buf[1..][|limb|..] == buf[1+|limb|..];
  }

  // ---------------------------------------------------------------------------------------------
  // What a fruitless search leaves in the packet
  // ---------------------------------------------------------------------------------------------

  /** The length byte after the first `i` limbs: the last group entered from its beginning has set it. */
  ghost function LengthAfter(limbs: seq<Limb>, i: nat, q: Bytes): nat
    requires i <= |limbs|
  {
    if i == 0 then |q|
    else if NotAfter(q, limbs[i-1].oid) then LengthLeft(limbs[i-1], [], LengthAfter(limbs, i - 1, q))
    else LengthAfter(limbs, i - 1, q)
  }

  /** The limb, which comes before the request, leaves the request in the packet. */
  ghost predicate BelowKeeps(limb: Limb, q: Bytes) {
    PrefixOf(limb.oid, q) && |limb.oid| < |q| ==> LimbKeeps(limb, |q|, q[|limb.oid|..])
  }

  /** The packet after the first `i` limbs gave GETNEXT no answer. */
  ghost predicate Leftover(area: Bytes, len: nat, limbs: seq<Limb>, i: nat, q: Bytes)
    requires i <= |limbs|
  {
    if i > 0 && NotAfter(q, limbs[i-1].oid) then
      PrefixOf(limbs[i-1].oid, area) && (PrefixOf(q, limbs[i-1].oid) ==> len == LengthAfter(limbs, i, q))
    else
      len == |q| && PrefixOf(q, area) <==> i == 0 || BelowKeeps(limbs[i-1], q)
  }

  /** A noSuchName reply to GETNEXT carries the name that was asked for: the last limb, if it is not
      before the request, extends it and no group has changed its length; else the last limb keeps it. */
  ghost predicate NameKept(limbs: seq<Limb>, q: Bytes) {
    limbs == [] ||
    var last := limbs[|limbs|-1];
    if NotAfter(q, last.oid) then PrefixOf(q, last.oid) && LengthAfter(limbs, |limbs|, q) == |q|
    else BelowKeeps(last, q)
  }

  /** What begins a later limb begins the limbs between. */
  lemma PrefixBetween(q: Bytes, a: Bytes, b: Bytes)
    requires NotAfter(q, a) && Apart(a, b) && PrefixOf(q, b)
    ensures PrefixOf(q, a)
  {
    var d: nat :| DiffersAt(a, b, d) && a[d] < b[d];
    assert DiffersAt(a, b, d) && forall e: nat :: e < |q| ==> b[e] == q[e];
  }

  /** A limb that begins the request is the last not after it. */
  lemma NextIsAfter(q: Bytes, a: Bytes, b: Bytes)
    requires Apart(a, b) && PrefixOf(a, q)
    ensures NotAfter(q, b) && !PrefixOf(q, b)
  {
    ApartExtends(a, b, q, b);
    var d: nat :| DiffersAt(a, b, d) && a[d] < b[d];
    assert q[d] == a[d];
  }

  lemma NotAfterLater(q: Bytes, a: Bytes, b: Bytes)
    requires NotAfter(q, a) && Apart(a, b)
    ensures NotAfter(q, b)
  {
    ApartExtends(a, b, a, b);
    if q != a { LessTransitive(q, a, b); }
  }

  lemma LeftoverLength(area: Bytes, len: nat, limbs: seq<Limb>, i: nat, q: Bytes)
    requires GoodMib(limbs) && i < |limbs| && Leftover(area, len, limbs, i, q)
    requires PrefixOf(q, limbs[i].oid)
    ensures len == LengthAfter(limbs, i, q)
  {
    if i > 0 {
      assert Apart(limbs[i-1].oid, limbs[i].oid);
      if NotAfter(q, limbs[i-1].oid) {
        PrefixBetween(q, limbs[i-1].oid, limbs[i].oid);
      } else {
        if PrefixOf(limbs[i-1].oid, q) { NextIsAfter(q, limbs[i-1].oid, limbs[i].oid); }
        NothingSet(limbs, i, q);
      }
    }
  }

  lemma {:induction false} NothingSet(limbs: seq<Limb>, i: nat, q: Bytes)
    requires GoodMib(limbs) && 0 < i <= |limbs| && !NotAfter(q, limbs[i-1].oid)
    ensures LengthAfter(limbs, i, q) == |q|
  {
    if i > 1 {
      assert Apart(limbs[i-2].oid, limbs[i-1].oid);
      if NotAfter(q, limbs[i-2].oid) { NotAfterLater(q, limbs[i-2].oid, limbs[i-1].oid); }
      NothingSet(limbs, i - 1, q);
    }
  }

  lemma LeftoverFirst(area: Bytes, len: nat, area': Bytes, len': nat, limbs: seq<Limb>, i: nat, q: Bytes)
    requires GoodMib(limbs) && i < |limbs| && Leftover(area, len, limbs, i, q) && NotAfter(q, limbs[i].oid)
    requires PrefixOf(limbs[i].oid, area') && len' == LengthLeft(limbs[i], [], len)
    ensures Leftover(area', len', limbs, i + 1, q)
  {
    if PrefixOf(q, limbs[i].oid) { LeftoverLength(area, len, limbs, i, q); }
  }

  lemma LeftoverIsKept(area: Bytes, len: nat, limbs: seq<Limb>, q: Bytes)
    requires Leftover(area, len, limbs, |limbs|, q)
    ensures len == |q| && PrefixOf(q, area) <==> NameKept(limbs, q)
  {
    if limbs != [] && NotAfter(q, limbs[|limbs|-1].oid) {
      var last := limbs[|limbs|-1].oid;
      if !PrefixOf(q, last) {
        var d: nat :| DiffersAt(q, last, d) && q[d] < last[d];
        assert area[d] == last[d];
      }
    }
  }

  /** The answer in limb `i` or a later one. */
  ghost function FoundFrom(version: u8, limbs: seq<Limb>, i: nat, next: bool, q: Bytes): Option<Entry>
    requires GoodMib(limbs) && i <= |limbs|
    decreases |limbs| - i
  {
    if i == |limbs| then None
    else
      assert GoodLimb(limbs[i]);
      var r := Found(next, LimbEntries(version, limbs[i]), q);
      if r.Some? then r else FoundFrom(version, limbs, i + 1, next, q)
  }

  /** It is the answer in the flat list from there on. */
  ghost predicate FoundInFlat(version: u8, limbs: seq<Limb>, i: nat, next: bool, q: Bytes)
    requires GoodMib(limbs) && i <= |limbs|
  {
    FoundFrom(version, limbs, i, next, q) == Found(next, FlatFrom(version, limbs, i), q)
  }

  lemma FoundNext(version: u8, limbs: seq<Limb>, i: nat, next: bool, q: Bytes)
    requires GoodMib(limbs) && i < |limbs|
    ensures FoundInFlat(version, limbs, i + 1, next, q) ==> FoundInFlat(version, limbs, i, next, q)
  {
    FlatNext(version, limbs, i, q);
  }

  lemma FoundLast(version: u8, limbs: seq<Limb>, next: bool, q: Bytes)
    requires GoodMib(limbs)
    ensures FoundInFlat(version, limbs, |limbs|, next, q)
  {
  }

  lemma {:induction false} FoundFromIsFlat(version: u8, limbs: seq<Limb>, i: nat, next: bool, q: Bytes)
    requires GoodMib(limbs) && i <= |limbs|
    ensures FoundInFlat(version, limbs, i, next, q)
    decreases |limbs| - i
  {
    if i < |limbs| {
      FoundFromIsFlat(version, limbs, i + 1, next, q);
      FoundNext(version, limbs, i, next, q);
    } else {
      FoundLast(version, limbs, next, q);
    }
  }

  /** The state of the search when limb `i` is looked at: the limbs left hold the answer `goal`. */
  ghost predicate Searching(packet: Bytes, limbs: seq<Limb>, i: nat, next: bool, version: u8, q: Bytes,
                            goal: Option<Entry>)
    requires GoodMib(limbs) && i <= |limbs| && AREA <= |packet|
  {
    && 1 + packet[0] as int <= |packet|
    && LimbArea(packet[1..], packet[0] as int, limbs, i, q)
    && (if next then Leftover(packet[1..], packet[0] as int, limbs, i, q) else Unread(packet, q))
    && FoundFrom(version, limbs, i, next, q) == goal
  }

  /** The packet still holds the request. */
  ghost predicate Unread(packet: Bytes, q: Bytes)
    requires packet != []
  {
    packet[0] as int == |q| && PrefixOf(q, packet[1..])
  }

  /** The packet at the end of the search: the answer, or what a fruitless one leaves. */
  ghost predicate Closed(packet: Bytes, limbs: seq<Limb>, next: bool, oldLen: u8, len: nat, q: Bytes,
                         goal: Option<Entry>)
    requires AREA <= |packet|
  {
    && 1 + packet[0] as int <= |packet| && Reply(packet, next, oldLen, len, goal)
    && (len == 0 ==> if next then Leftover(packet[1..], packet[0] as int, limbs, |limbs|, q) else Unread(packet, q))
  }

  /** `Answered`, of the packet as a value. */
  ghost predicate Reply(packet: Bytes, next: bool, oldLen: u8, len: nat, r: Option<Entry>)
    requires packet != []
  {
    && (len == 0 <==> r == None)
    && (!next ==> packet[0] == oldLen)
    && match r
       case None => true
       case Some(e) =>
         && len == |e.oid| + |e.value| && 1 + len <= |packet|
         && packet[1..1+|e.oid|] == e.oid && packet[1+|e.oid|..1+len] == e.value
         && (next ==> packet[0] as int == |e.oid|)
  }

  lemma AnsweredIsReply(buf: array<u8>, next: bool, oldLen: u8, len: nat, r: Option<Entry>)
    requires 1 <= buf.Length
    ensures Answered(buf, 1, next, oldLen, len, r) <==> Reply(buf[..], next, oldLen, len, r)
  {
    match r
    case None =>
    case Some(e) =>
      if 1 + |e.oid| + |e.value| <= buf.Length {
        assert buf[..][1..1+|e.oid|] == buf[1..1+|e.oid|];
        assert buf[..][1+|e.oid|..1+|e.oid|+|e.value|] == buf[1+|e.oid|..1+|e.oid|+|e.value|];
      }
  }

  /** Looks at limb `i`: either answers, or the limbs after it are left to be looked at. */
  method TryLimb(buf: array<u8>, limbs: seq<Limb>, i: nat, next: bool, version: u8,
                 ghost q: Bytes, ghost goal: Option<Entry>)
    returns (done: bool, len: nat)
    requires GoodMib(limbs) && i < |limbs| && AREA <= buf.Length && Searching(buf[..], limbs, i, next, version, q, goal)
    modifies buf
    ensures done ==> Closed(buf[..], limbs, next, old(buf[0]), len, q, goal)
    ensures !done ==> Searching(buf[..], limbs, i + 1, next, version, q, goal)
    ensures !next ==> buf[0] == old(buf[0])
  {
    FoundFromIsFlat(version, limbs, i, next, q);
    assert buf[..][1..] == buf[1..];
    var action, first := ChooseLimb(buf, limbs, i, next, version, q);
    if action == Use {
      len := EnterLimbAt(buf, limbs, i, next, first, version, q);
      AnsweredIsReply(buf, next, old(buf[0]), len, Found(next, LimbEntries(version, limbs[i]), q));
      assert buf[..][1..] == buf[1..];
      return len > 0, len;
    }
    return action == Stop, 0;
  }

  /** Enters limb `i`. */
  method EnterLimbAt(buf: array<u8>, limbs: seq<Limb>, i: nat, next: bool, first: bool, version: u8, ghost q: Bytes)
    returns (len: nat)
    requires GoodMib(limbs) && i < |limbs| && AREA <= buf.Length && 1 + buf[0] as int <= buf.Length && (first ==> next)
    requires GoodLimb(limbs[i]) && (first <==> NotAfter(q, limbs[i].oid) && next)
    requires !first ==> Request(buf) == q && PrefixOf(limbs[i].oid, q) && (next ==> |limbs[i].oid| < |q|)
    requires next ==> Leftover(buf[1..], buf[0] as int, limbs, i, q)
    modifies buf
    ensures 1 + buf[0] as int <= buf.Length
    ensures Answered(buf, 1, next, old(buf[0]), len, Found(next, LimbEntries(version, limbs[i]), q))
    ensures LimbArea(buf[1..], buf[0] as int, limbs, i + 1, q)
    ensures if next then len == 0 ==> Leftover(buf[1..], buf[0] as int, limbs, i + 1, q)
            else buf[0] == old(buf[0]) && Fresh(buf, q)
  {
    ghost var area, n := buf[1..], buf[0] as int;
    len := UseLimb(buf, limbs[i], next, first, version, q);
    LimbNamed(buf[1..], buf[0] as int, limbs, i, q);
    if next && len == 0 {
      if first {
        LeftoverFirst(area, n, buf[1..], buf[0] as int, limbs, i, q);
      } else {
        LeftoverWithin(buf[1..], buf[0] as int, limbs, i, q);
      }
    }
  }

  lemma LimbNamed(area: Bytes, len: nat, limbs: seq<Limb>, i: nat, q: Bytes)
    requires i < |limbs| && PrefixOf(limbs[i].oid, area) && (PrefixOf(limbs[i].oid, q) || NotAfter(q, limbs[i].oid))
    ensures LimbArea(area, len, limbs, i + 1, q)
  {
  }

  lemma LeftoverWithin(area: Bytes, len: nat, limbs: seq<Limb>, i: nat, q: Bytes)
    requires i < |limbs| && !NotAfter(q, limbs[i].oid) && PrefixOf(limbs[i].oid, q) && |limbs[i].oid| < |q|
    requires len == |q| && PrefixOf(q, area) <==> LimbKeeps(limbs[i], |q|, q[|limbs[i].oid|..])
    ensures Leftover(area, len, limbs, i + 1, q)
  {
  }

  /** The loop over the limbs, for `goal`. */
  method SearchLimbs(buf: array<u8>, limbs: seq<Limb>, next: bool, version: u8, ghost q: Bytes, ghost goal: Option<Entry>)
    returns (len: nat)
    requires GoodMib(limbs) && AREA <= buf.Length && Searching(buf[..], limbs, 0, next, version, q, goal)
    modifies buf
    ensures Closed(buf[..], limbs, next, old(buf[0]), len, q, goal)
  {
    for i := 0 to |limbs|
      invariant Searching(buf[..], limbs, i, next, version, q, goal) && (!next ==> buf[0] == old(buf[0]))
    {
      var done;
      done, len := TryLimb(buf, limbs, i, next, version, q, goal);
      if done {
        return;
      }
    }
    SearchEnds(buf[..], limbs, next, version, old(buf[0]), q, goal);
    len := 0;
  }

  lemma SearchEnds(packet: Bytes, limbs: seq<Limb>, next: bool, version: u8, oldLen: u8, q: Bytes, goal: Option<Entry>)
    requires GoodMib(limbs) && AREA <= |packet| && Searching(packet, limbs, |limbs|, next, version, q, goal)
    requires !next ==> packet[0] == oldLen
    ensures Closed(packet, limbs, next, oldLen, 0, q, goal)
  {
  }

  lemma SearchStarts(packet: Bytes, limbs: seq<Limb>, next: bool, version: u8, q: Bytes)
    requires GoodMib(limbs) && AREA <= |packet| && 1 + packet[0] as int <= |packet|
    requires q == packet[1..1 + packet[0] as int]
    ensures Searching(packet, limbs, 0, next, version, q, Found(next, Flat(version, limbs), q))
  {
    FoundFromIsFlat(version, limbs, 0, next, q);
    assert PrefixOf(q, packet[1..]);
  }

  /** The agent answers a request in place: GETNEXT with the least instance after the request, GET
      with the instance requested; `len` is 0 when there is none and noSuchName is returned.  A
      fruitless GET leaves the name asked for, a fruitless GETNEXT exactly if `NameKept`. */
  method Respond(buf: array<u8>, limbs: seq<Limb>, next: bool, version: u8) returns (len: nat)
    requires GoodMib(limbs) && AREA <= buf.Length && 1 + buf[0] as int <= buf.Length
    modifies buf
    ensures 1 + buf[0] as int <= buf.Length
    ensures len == 0 ==> IsAnswer(version, limbs, next, old(Request(buf)), None)
    ensures len > 0 ==> 1 + len <= buf.Length
    ensures len > 0 ==> exists e {:trigger IsAnswer(version, limbs, next, old(Request(buf)), Some(e))} ::
              && IsAnswer(version, limbs, next, old(Request(buf)), Some(e))
              && buf[1..1+len] == e.oid + e.value
              && (if next then buf[0] as int == |e.oid| else buf[0] == old(buf[0]))
    ensures Answered(buf, 1, next, old(buf[0]), len, Found(next, Flat(version, limbs), old(Request(buf))))
    ensures len == 0 ==> (Fresh(buf, old(Request(buf))) <==> !next || NameKept(limbs, old(Request(buf))))
  {
    ghost var q := Request(buf);
    ghost var goal := Found(next, Flat(version, limbs), q);
    SearchStarts(buf[..], limbs, next, version, q);
    len := SearchLimbs(buf, limbs, next, version, q, goal);
    assert buf[..][1..] == buf[1..];
    AnsweredIsReply(buf, next, old(buf[0]), len, goal);
    if len == 0 && next { LeftoverIsKept(buf[1..], buf[0] as int, limbs, q); }
    FoundIsAnswer(version, limbs, next, q);
    if len > 0 { ReplyReads(buf[..], next, old(buf[0]), len, goal.value); }
  }

  lemma FoundIsAnswer(version: u8, limbs: seq<Limb>, next: bool, q: Bytes)
    requires GoodMib(limbs)
    ensures IsAnswer(version, limbs, next, q, Found(next, Flat(version, limbs), q))
  {
    if next { FirstIsAnswer(version, limbs, q); } else { LookupIsAnswer(version, limbs, q); }
  }

  lemma ReplyReads(packet: Bytes, next: bool, oldLen: u8, len: nat, e: Entry)
    requires packet != [] && Reply(packet, next, oldLen, len, Some(e))
    ensures 1 + len <= |packet| && packet[1..1+len] == e.oid + e.value
    ensures if next then packet[0] as int == |e.oid| else packet[0] == oldLen
  {
    assert packet[1..1+len] == packet[1..1+|e.oid|] + packet[1+|e.oid|..1+len];
  }

  ghost function LastName(es: seq<Entry>): Bytes
    requires es != []
  {
    es[|es|-1].oid
  }

  lemma {:induction false} LastTwig(version: u8, twigs: seq<Twig>, k: nat) returns (m: nat)
    requires GoodGroup(twigs) && k <= |twigs|
    ensures m <= |twigs| && (m == |twigs| <==> GroupEntries(version, twigs, k) == [])
    ensures m < |twigs| ==>
              && k <= m && Sendable(version, twigs[m].asn)
              && LastName(GroupEntries(version, twigs, k)) == twigs[m].oid
    ensures forall j {:trigger twigs[j]} ::
              k <= j < |twigs| && Sendable(version, twigs[j].asn) ==> m < |twigs| && j <= m
    decreases |twigs| - k
  {
    m := |twigs|;
    if k < |twigs| {
      m := LastTwig(version, twigs, k + 1);
      if m == |twigs| && Sendable(version, twigs[k].asn) { m := k; }
    }
  }

  lemma {:induction false} LastRow(column: Column, row: nat)
    requires GoodColumn(column) && 1 <= row <= |column.cells|
    ensures RowEntries(column, row) != [] && LastName(RowEntries(column, row)) == [column.id, |column.cells| as u8]
    decreases |column.cells| - row
  {
    if row < |column.cells| { LastRow(column, row + 1); }
  }

  lemma {:induction false} LastCell(columns: seq<Column>, k: nat)
    requires GoodTable(columns) && k <= |columns| && TableEntries(columns, k) != []
    ensures var c := columns[|columns|-1];
            k < |columns| && |c.cells| < 256 && LastName(TableEntries(columns, k)) == [c.id, |c.cells| as u8]
    decreases |columns| - k
  {
    assert GoodColumn(columns[k]) && GoodColumn(columns[|columns|-1]);
    if |columns[k].cells| == 0 {
      assert RowEntries(columns[k], 1) == [];
      LastCell(columns, k + 1);
    } else {
      LastRow(columns[k], 1);
      if k + 1 < |columns| {
        assert GoodColumn(columns[k+1]);
        LastRow(columns[k+1], 1);
        LastCell(columns, k + 1);
      }
    }
  }

  lemma LastOf(a: seq<Entry>, b: seq<Entry>)
    ensures b != [] ==> LastName(a + b) == LastName(b)
    ensures b == [] && a != [] ==> LastName(a + b) == LastName(a)
    ensures a + b == [] <==> a == [] && b == []
  {
  }

  lemma LastOfLimb(version: u8, limb: Limb)
    requires GoodLimb(limb)
    ensures LimbEntries(version, limb) == [] <==> Suffixes(version, limb) == []
    ensures Suffixes(version, limb) != [] ==>
              LastName(LimbEntries(version, limb)) == limb.oid + LastName(Suffixes(version, limb))
  {
  }

  ghost predicate Barren(version: u8, limb: Limb) {
    GoodLimb(limb) && Suffixes(version, limb) == []
  }

  ghost predicate BarrenFrom(version: u8, limbs: seq<Limb>, k: nat) {
    forall j {:trigger limbs[j]} :: k <= j < |limbs| ==> Barren(version, limbs[j])
  }

  /** The last name of the limbs from `k` on, or that there is none. */
  lemma LastAt(version: u8, limbs: seq<Limb>, k: nat)
    requires GoodMib(limbs) && k < |limbs|
    ensures GoodLimb(limbs[k])
    ensures FlatFrom(version, limbs, k) == [] <==> Barren(version, limbs[k]) && FlatFrom(version, limbs, k + 1) == []
    ensures FlatFrom(version, limbs, k + 1) != [] ==>
              LastName(FlatFrom(version, limbs, k)) == LastName(FlatFrom(version, limbs, k + 1))
    ensures FlatFrom(version, limbs, k + 1) == [] && !Barren(version, limbs[k]) ==>
              LastName(FlatFrom(version, limbs, k)) == limbs[k].oid + LastName(Suffixes(version, limbs[k]))
  {
    FlatSplit(version, limbs, k);
    LastOfBoth(version, limbs[k], FlatFrom(version, limbs, k + 1), FlatFrom(version, limbs, k));
  }

  lemma FlatSplit(version: u8, limbs: seq<Limb>, k: nat)
    requires GoodMib(limbs) && k < |limbs|
    ensures GoodLimb(limbs[k])
    ensures FlatFrom(version, limbs, k) == LimbEntries(version, limbs[k]) + FlatFrom(version, limbs, k + 1)
  {
    assert GoodLimb(limbs[k]);
  }

  lemma LastOfBoth(version: u8, limb: Limb, rest: seq<Entry>, all: seq<Entry>)
    requires GoodLimb(limb) && all == LimbEntries(version, limb) + rest
    ensures all == [] <==> Barren(version, limb) && rest == []
    ensures rest != [] ==> LastName(all) == LastName(rest)
    ensures rest == [] && !Barren(version, limb) ==> LastName(all) == limb.oid + LastName(Suffixes(version, limb))
  {
    LastOf(LimbEntries(version, limb), rest);
    LastOfLimb(version, limb);
  }

  /** The limb that holds the last instance. */
  lemma {:induction false} LastLimb(version: u8, limbs: seq<Limb>, k: nat) returns (i: nat)
    requires GoodMib(limbs) && k <= |limbs|
    ensures FlatFrom(version, limbs, k) == [] ==> BarrenFrom(version, limbs, k)
    ensures FlatFrom(version, limbs, k) != [] ==>
              && k <= i < |limbs| && GoodLimb(limbs[i]) && !Barren(version, limbs[i]) && BarrenFrom(version, limbs, i + 1)
              && LastName(FlatFrom(version, limbs, k)) == limbs[i].oid + LastName(Suffixes(version, limbs[i]))
    decreases |limbs| - k
  {
    i := k;
    if k < |limbs| {
      LastAt(version, limbs, k);
      var m := LastLimb(version, limbs, k + 1);
      if FlatFrom(version, limbs, k + 1) != [] { i := m; }
    }
  }

  /** The limb ends with an object that can be sent. */
  ghost predicate EndsInInstance(version: u8, limb: Limb) {
    limb.Group? && limb.twigs != [] && Sendable(version, limb.twigs[|limb.twigs|-1].asn)
  }

  lemma EndKept(version: u8, limbs: seq<Limb>, t: Bytes)
    requires GoodMib(limbs) && limbs != []
    requires var last := limbs[|limbs|-1];
             GoodLimb(last) && Suffixes(version, last) != [] && t == LastName(Suffixes(version, last))
    ensures NameKept(limbs, limbs[|limbs|-1].oid + t) <==> EndsInInstance(version, limbs[|limbs|-1])
  {
    var last := limbs[|limbs|-1];
    var q := last.oid + t;
    match last {
      case Group(_, twigs) =>
        var m := LastTwig(version, twigs, 0);
        assert t == twigs[m].oid && 0 < |t| == |twigs[|twigs|-1].oid|;
        if m == |twigs| - 1 {
          LessIrreflexive(t);
        } else {
          assert Less(twigs[m].oid, twigs[|twigs|-1].oid);
        }
      case Table(_, columns) =>
        LastCell(columns, 0);
        assert columns[|columns|-1].id == t[0];
    }
    LessExtension(last.oid, t);
    LessAsymmetric(last.oid, q);
    assert q[|last.oid|..] == t;
  }

  /** The noSuchName reply that ends a walk carries the last name asked for iff the last limb is a
      group that ends with an object that can be sent.  A table names the row after the last, and
      behind the last instance an object or a limb without instance is named instead. */
  lemma WalkEndKept(version: u8, limbs: seq<Limb>)
    requires GoodMib(limbs) && Flat(version, limbs) != []
    ensures NameKept(limbs, LastName(Flat(version, limbs))) <==> EndsInInstance(version, limbs[|limbs|-1])
  {
    var i := LastLimb(version, limbs, 0);
    var q := LastName(Flat(version, limbs));
    var last := limbs[|limbs|-1];
    if i == |limbs| - 1 {
      EndKept(version, limbs, LastName(Suffixes(version, last)));
    } else {
      assert Apart(limbs[i].oid, last.oid);
      NextIsAfter(q, limbs[i].oid, last.oid);
      if last.Group? { var _ := LastTwig(version, last.twigs, 0); }
    }
  }

  /** One group with one instance, and a table without rows, such as that of an empty SFP database. */
  const SMALL_MIB: seq<Limb> := [Group([1], [Twig([1], ASN_INTEGER, [])]), Table([2], [Column(2, ASN_INTEGER, [])])]

  lemma SmallMibIsGood(limbs: seq<Limb>)
    requires limbs == SMALL_MIB
    ensures GoodMib(limbs)
  {
    assert DiffersAt([1], [2], 0);
    assert Apart(limbs[0].oid, limbs[1].oid);
    assert GoodLimb(limbs[0]) && GoodLimb(limbs[1]);
  }

  /** GETNEXT of its only instance gets no answer, and the reply does not carry the name. */
  lemma EmptyTableLosesName(version: u8, limbs: seq<Limb>, q: Bytes)
    requires limbs == SMALL_MIB && q == [1, 1]
    ensures GoodMib(limbs) && FirstAfter(Flat(version, limbs), q) == None && !NameKept(limbs, q)
  {
    SmallMibIsGood(limbs);
    assert DiffersAt(q, limbs[1].oid, 0);
    FlatNext(version, limbs, 0, q);
    FlatNext(version, limbs, 1, q);
    LimbWithin(version, limbs[0], q);
    LimbBeyond(version, limbs[1], q);
    assert q[1..] == [1];
    GroupNext(version, limbs[0].twigs, 0, true, [1]);
    LessIrreflexive([1]);
    TableFirst(limbs[1].columns, 0, []);
  }

  // ---------------------------------------------------------------------------------------------
  // Walks
  // ---------------------------------------------------------------------------------------------

  ghost function InstanceNames(es: seq<Entry>): seq<Bytes> {
    seq(|es|, i requires 0 <= i < |es| => es[i].oid)
  }

  lemma WalkStep(es: seq<Entry>, q: Bytes, rest: seq<Bytes>)
    requires Sorted(es) && rest == InstanceNames(Walk(es, q))
    ensures match FirstAfter(es, q)
            case None => rest == []
            case Some(e) => rest != [] && rest[0] == e.oid && rest[1..] == InstanceNames(Walk(es, e.oid))
  {
  }

  lemma MoveOne<T>(a: seq<T>, b: seq<T>)
    requires b != []
    ensures (a + [b[0]]) + b[1..] == a + b
  {
  }

  /** One GETNEXT of a walk: the packet comes back with the next name, or there is none. */
  method AskNext(buf: array<u8>, limbs: seq<Limb>, version: u8) returns (len: nat)
    requires GoodMib(limbs) && AREA <= buf.Length && 1 + buf[0] as int <= buf.Length
    modifies buf
    ensures 1 + buf[0] as int <= buf.Length
    ensures var r := FirstAfter(Flat(version, limbs), old(Request(buf)));
            (len == 0 <==> r == None) && (r.Some? ==> Request(buf) == r.value.oid)
  {
    len := Respond(buf, limbs, true, version);
  }

  /** A client walks the agent from the name in the packet: each GETNEXT is sent with the name of the
      last reply.  It collects the names of all instances after the first name, in order. */
  method WalkAgent(buf: array<u8>, limbs: seq<Limb>, version: u8) returns (names: seq<Bytes>)
    requires GoodMib(limbs) && AREA <= buf.Length && 1 + buf[0] as int <= buf.Length
    modifies buf
    ensures Sorted(Flat(version, limbs))
    ensures names == InstanceNames(Walk(Flat(version, limbs), old(Request(buf))))
  {
    ghost var es := Flat(version, limbs);
    FlatSorted(version, limbs, 0);
    ghost var q, rest := Request(buf), InstanceNames(Walk(es, Request(buf)));
    ghost var all := rest;
    names := [];
    while true
      invariant 1 + buf[0] as int <= buf.Length && q == Request(buf)
      invariant rest == InstanceNames(Walk(es, q)) && all == names + rest
      decreases |rest|
    {
      var len := AskNext(buf, limbs, version);
      WalkStep(es, q, rest);
      if len == 0 {
        return;
      }
      MoveOne(names, rest);
      names := names + [Request(buf)];
      q, rest := Request(buf), rest[1..];
    }
  }

  /** From the empty name the walk collects the name of every instance, once each, in order. */
  method WalkAll(buf: array<u8>, limbs: seq<Limb>, version: u8) returns (names: seq<Bytes>)
    requires GoodMib(limbs) && AREA <= buf.Length
    modifies buf
    ensures Sorted(Flat(version, limbs)) && names == InstanceNames(Flat(version, limbs))
    ensures AllNames(names, version, limbs)
  {
    buf[0] := 0;
    WalkVisitsAll(version, limbs);
    names := WalkAgent(buf, limbs, version);
    WalkNames(version, limbs);
  }

  /** The names are those of all instances, each once and in order. */
  ghost predicate AllNames(names: seq<Bytes>, version: u8, limbs: seq<Limb>) {
    && (forall e {:trigger IsInstance(version, limbs, e)} :: IsInstance(version, limbs, e) ==> e.oid in names)
    && (forall i {:trigger names[i]} :: 0 <= i < |names| ==>
          exists e {:trigger IsInstance(version, limbs, e)} :: IsInstance(version, limbs, e) && e.oid == names[i])
    && (forall i, j {:trigger names[i], names[j]} :: 0 <= i < j < |names| ==> Precedes(names[i], names[j]))
  }

  lemma WalkNames(version: u8, limbs: seq<Limb>)
    requires GoodMib(limbs)
    ensures AllNames(InstanceNames(Flat(version, limbs)), version, limbs)
  {
    var es := Flat(version, limbs);
    var names := InstanceNames(es);
    FlatSorted(version, limbs, 0);
    forall e | IsInstance(version, limbs, e) ensures e.oid in names {
      FlatIff(version, limbs, e);
      var i :| 0 <= i < |es| && es[i] == e;
      assert names[i] == e.oid;
    }
    forall i | 0 <= i < |names| ensures IsInstance(version, limbs, es[i]) && es[i].oid == names[i] {
      FlatIff(version, limbs, es[i]);
    }
    forall i, j | 0 <= i < j < |names| ensures Precedes(names[i], names[j]) {
      assert Less(es[i].oid, es[j].oid);
      LessIsPrecedes(names[i], names[j]);
    }
  }
}
