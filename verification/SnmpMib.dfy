/** The two-level object table of the agent and its flat reading (lib/snmp.c).

    The agent keeps "limbs" (the leading part of an object identifier), each holding either a group
    of "twigs" or a table of columns and rows.  Sections 4.1.3 of RFC 1157 and 4.2.2 of RFC 3416
    speak of one ordered list of instances instead; `Flat` is that list. */
module SnmpMib {
  import opened Octets
  import opened SnmpOid

  const ASN_INTEGER: u8 := 0x02
  const ASN_OCTET_STR: u8 := 0x04
  const ASN_IPADDRESS: u8 := 0x40
  const ASN_COUNTER: u8 := 0x41
  const ASN_UNSIGNED: u8 := 0x42
  const ASN_TIMETICKS: u8 := 0x43
  const ASN_COUNTER64: u8 := 0x46
  const SNMP_V1: u8 := 0
  const MAX_OCTET_STR_LEN: nat := 32
  const MAX_OID_LEN: nat := 40

  datatype Option<T> = None | Some(value: T)

  /** An object with a single instance: its suffix within the group and what its getter reads. */
  datatype Twig = Twig(oid: Bytes, asn: u8, data: Bytes)

  /** A table column: rows are numbered from 1. */
  datatype Column = Column(id: u8, asn: u8, cells: seq<Bytes>)

  datatype Limb =
    | Group(oid: Bytes, twigs: seq<Twig>)
    | Table(oid: Bytes, columns: seq<Column>)

  /** An instance: its identifier and the type, length and contents sent for it. */
  datatype Entry = Entry(oid: Bytes, value: Bytes)

  predicate KnownAsn(asn: u8) {
    asn in {ASN_INTEGER, ASN_OCTET_STR, ASN_IPADDRESS, ASN_COUNTER, ASN_UNSIGNED, ASN_TIMETICKS, ASN_COUNTER64}
  }

  /** A value is sent unless its type is unknown, or is a 64-bit counter asked for by version 1. */
  predicate Sendable(version: u8, asn: u8) {
    KnownAsn(asn) && !(asn == ASN_COUNTER64 && version == SNMP_V1)
  }

  function Tlv(asn: u8, data: Bytes): Bytes
    requires |data| < MAX_OCTET_STR_LEN
  {
    [asn, |data| as u8] + data
  }

  // ---------------------------------------------------------------------------------------------
  // What the tables promise
  // ---------------------------------------------------------------------------------------------

  ghost predicate GoodGroup(twigs: seq<Twig>) {
    && (forall i {:trigger twigs[i].oid} :: 0 <= i < |twigs| ==>
          0 < |twigs[i].oid| == |twigs[0].oid| < MAX_OID_LEN)
    && (forall i {:trigger twigs[i].data} :: 0 <= i < |twigs| ==> |twigs[i].data| < MAX_OCTET_STR_LEN)
    && (forall i, j {:trigger Less(twigs[i].oid, twigs[j].oid)} ::
          0 <= i < j < |twigs| ==> Less(twigs[i].oid, twigs[j].oid))
  }

  predicate GoodColumn(column: Column) {
    && |column.cells| < 256
    && (forall r :: 0 <= r < |column.cells| ==> |column.cells[r]| < MAX_OCTET_STR_LEN)
    && KnownAsn(column.asn) && column.asn != ASN_COUNTER64
  }

  /** All columns have the same rows, and sorted identifiers. */
  ghost predicate GoodTable(columns: seq<Column>) {
    && (forall i {:trigger GoodColumn(columns[i])} :: 0 <= i < |columns| ==>
          GoodColumn(columns[i]) && |columns[i].cells| == |columns[0].cells|)
    && (forall i, j {:trigger columns[i].id, columns[j].id} ::
          0 <= i < j < |columns| ==> columns[i].id < columns[j].id)
  }

  ghost predicate GoodLimb(limb: Limb) {
    && 0 < |limb.oid| < MAX_OID_LEN
    && match limb
       case Group(_, twigs) => GoodGroup(twigs)
       case Table(_, columns) => GoodTable(columns)
  }

  /** `a` comes before `b` and neither is a prefix of the other. */
  ghost predicate Apart(a: Bytes, b: Bytes) {
    exists d: nat :: DiffersAt(a, b, d) && a[d] < b[d]
  }

  /** Limbs are well-formed, sorted and prefix-free. */
  ghost predicate GoodMib(limbs: seq<Limb>) {
    && (forall i {:trigger GoodLimb(limbs[i])} :: 0 <= i < |limbs| ==> GoodLimb(limbs[i]))
    && (forall i, j {:trigger Apart(limbs[i].oid, limbs[j].oid)} ::
          0 <= i < j < |limbs| ==> Apart(limbs[i].oid, limbs[j].oid))
  }

  // ---------------------------------------------------------------------------------------------
  // The flat reading
  // ---------------------------------------------------------------------------------------------

  /** What a twig contributes to the flat list. */
  function TwigEntry(version: u8, twig: Twig): seq<Entry>
    requires |twig.data| < MAX_OCTET_STR_LEN
  {
    if Sendable(version, twig.asn) then [Entry(twig.oid, Tlv(twig.asn, twig.data))] else []
  }

  /** The instances of a group from its twig number `k` on. */
  ghost function GroupEntries(version: u8, twigs: seq<Twig>, k: nat): seq<Entry>
    requires GoodGroup(twigs) && k <= |twigs|
    decreases |twigs| - k
  {
    if k == |twigs| then []
    else
      assert |twigs[k].data| < MAX_OCTET_STR_LEN;
      TwigEntry(version, twigs[k]) + GroupEntries(version, twigs, k + 1)
  }

  /** The instances of a column from row `row` on. */
  function RowEntries(column: Column, row: nat): seq<Entry>
    requires 1 <= row && GoodColumn(column)
    decreases |column.cells| + 1 - row
  {
    if |column.cells| < row then []
    else [Entry([column.id, row as u8], Tlv(column.asn, column.cells[row-1]))] + RowEntries(column, row + 1)
  }

  /** The instances of a table from its column number `k` on. */
  ghost function TableEntries(columns: seq<Column>, k: nat): seq<Entry>
    requires GoodTable(columns) && k <= |columns|
    decreases |columns| - k
  {
    if k == |columns| then []
    else
      assert GoodColumn(columns[k]);
      RowEntries(columns[k], 1) + TableEntries(columns, k + 1)
  }

  function Under(prefix: Bytes, es: seq<Entry>): (r: seq<Entry>)
    ensures |r| == |es|
    ensures forall i :: 0 <= i < |es| ==> r[i] == Entry(prefix + es[i].oid, es[i].value)
  {
    if es == [] then [] else [Entry(prefix + es[0].oid, es[0].value)] + Under(prefix, es[1..])
  }

  ghost function Suffixes(version: u8, limb: Limb): seq<Entry>
    requires GoodLimb(limb)
  {
    match limb
    case Group(_, twigs) => GroupEntries(version, twigs, 0)
    case Table(_, columns) => TableEntries(columns, 0)
  }

  ghost function LimbEntries(version: u8, limb: Limb): seq<Entry>
    requires GoodLimb(limb)
  {
    Under(limb.oid, Suffixes(version, limb))
  }

  /** The instances of the limbs from number `k` on, in table order. */
  ghost function FlatFrom(version: u8, limbs: seq<Limb>, k: nat): seq<Entry>
    requires GoodMib(limbs) && k <= |limbs|
    decreases |limbs| - k
  {
    if k == |limbs| then []
    else
      assert GoodLimb(limbs[k]);
      LimbEntries(version, limbs[k]) + FlatFrom(version, limbs, k + 1)
  }

  /** All instances, in table order. */
  ghost function Flat(version: u8, limbs: seq<Limb>): seq<Entry>
    requires GoodMib(limbs)
  {
    FlatFrom(version, limbs, 0)
  }

  // ---------------------------------------------------------------------------------------------
  // What is in the flat list, spelt out
  // ---------------------------------------------------------------------------------------------

  /** The object as it is sent: INTEGER, OCTET STRING, IpAddress, Counter32, Gauge32 or TimeTicks to
      everyone, a Counter64 to every version but 1, whose number is 0 (RFC 2578). */
  predicate IsObject(version: u8, twig: Twig, e: Entry) {
    && |twig.data| < 256 && e == Entry(twig.oid, [twig.asn, |twig.data| as u8] + twig.data)
    && (twig.asn in {0x02, 0x04, 0x40, 0x41, 0x42, 0x43} || (twig.asn == 0x46 && version != 0))
  }

  /** The cell in row `r` of a column, as it is sent; rows are numbered from 1. */
  predicate IsCell(column: Column, r: nat, e: Entry) {
    && r < |column.cells| && r < 255 && |column.cells[r]| < 256
    && e == Entry([column.id, (r + 1) as u8], [column.asn, |column.cells[r]| as u8] + column.cells[r])
  }

  ghost predicate InLimb(version: u8, limb: Limb, e: Entry) {
    match limb
    case Group(_, twigs) => exists j {:trigger twigs[j]} :: 0 <= j < |twigs| && IsObject(version, twigs[j], e)
    case Table(_, columns) =>
      exists k, r {:trigger IsCell(columns[k], r, e)} :: 0 <= k < |columns| && 0 <= r && IsCell(columns[k], r, e)
  }

  ghost predicate IsInstance(version: u8, limbs: seq<Limb>, e: Entry) {
    exists i, f {:trigger InLimb(version, limbs[i], f)} ::
      0 <= i < |limbs| && InLimb(version, limbs[i], f) && e == Entry(limbs[i].oid + f.oid, f.value)
  }

  lemma TwigIff(version: u8, twig: Twig, e: Entry)
    requires |twig.data| < MAX_OCTET_STR_LEN
    ensures e in TwigEntry(version, twig) <==> IsObject(version, twig, e)
  {
  }

  lemma {:induction false} GroupIff(version: u8, twigs: seq<Twig>, k: nat, e: Entry)
    requires GoodGroup(twigs) && k <= |twigs|
    ensures e in GroupEntries(version, twigs, k) <==>
              exists j {:trigger twigs[j]} :: k <= j < |twigs| && IsObject(version, twigs[j], e)
    decreases |twigs| - k
  {
    if k < |twigs| {
      assert |twigs[k].data| < MAX_OCTET_STR_LEN;
      GroupIff(version, twigs, k + 1, e);
      TwigIff(version, twigs[k], e);
      assert e in TwigEntry(version, twigs[k]) + GroupEntries(version, twigs, k + 1)
        <==> e in TwigEntry(version, twigs[k]) || e in GroupEntries(version, twigs, k + 1);
    }
  }

  lemma {:induction false} RowIff(column: Column, row: nat, e: Entry)
    requires 1 <= row && GoodColumn(column)
    ensures e in RowEntries(column, row) <==>
              exists r {:trigger IsCell(column, r, e)} :: row - 1 <= r && IsCell(column, r, e)
    decreases |column.cells| + 1 - row
  {
    if row <= |column.cells| {
      var first, rest := RowEntries(column, row)[0], RowEntries(column, row + 1);
      RowIff(column, row + 1, e);
      assert e == first <==> IsCell(column, row - 1, e);
      assert e in [first] + rest <==> e == first || e in rest;
    }
  }

  lemma {:induction false} TableIff(columns: seq<Column>, k: nat, e: Entry)
    requires GoodTable(columns) && k <= |columns|
    ensures e in TableEntries(columns, k) <==>
              exists j, r {:trigger IsCell(columns[j], r, e)} :: k <= j < |columns| && 0 <= r && IsCell(columns[j], r, e)
    decreases |columns| - k
  {
    if k < |columns| {
      assert GoodColumn(columns[k]);
      RowIff(columns[k], 1, e);
      TableIff(columns, k + 1, e);
      var head, tail := RowEntries(columns[k], 1), TableEntries(columns, k + 1);
      assert e in head + tail <==> e in head || e in tail;
    }
  }

  lemma SuffixIff(version: u8, limb: Limb, e: Entry)
    requires GoodLimb(limb)
    ensures e in Suffixes(version, limb) <==> InLimb(version, limb, e)
  {
    match limb
    case Group(_, twigs) => GroupIff(version, twigs, 0, e);
    case Table(_, columns) => TableIff(columns, 0, e);
  }

  /** `e` is an instance of limb `limb`. */
  ghost predicate UnderIt(version: u8, limb: Limb, e: Entry) {
    exists f {:trigger InLimb(version, limb, f)} :: InLimb(version, limb, f) && e == Entry(limb.oid + f.oid, f.value)
  }

  lemma LimbIff(version: u8, limb: Limb, e: Entry)
    requires GoodLimb(limb)
    ensures e in LimbEntries(version, limb) <==> UnderIt(version, limb, e)
  {
    var es, r := Suffixes(version, limb), LimbEntries(version, limb);
    if e in r {
      var i :| 0 <= i < |r| && r[i] == e;
      SuffixIff(version, limb, es[i]);
    }
    if UnderIt(version, limb, e) {
      var f :| InLimb(version, limb, f) && e == Entry(limb.oid + f.oid, f.value);
      SuffixIff(version, limb, f);
      var i :| 0 <= i < |es| && es[i] == f;
      assert r[i] == e;
    }
  }

  ghost predicate UnderSome(version: u8, limbs: seq<Limb>, k: nat, e: Entry) {
    exists i {:trigger limbs[i]} :: k <= i < |limbs| && UnderIt(version, limbs[i], e)
  }

  ghost predicate RightFrom(version: u8, limbs: seq<Limb>, k: nat, e: Entry)
    requires GoodMib(limbs) && k <= |limbs|
  {
    e in FlatFrom(version, limbs, k) <==> UnderSome(version, limbs, k, e)
  }

  lemma RightLast(version: u8, limbs: seq<Limb>, e: Entry)
    requires GoodMib(limbs)
    ensures RightFrom(version, limbs, |limbs|, e)
  {
  }

  lemma RightNext(version: u8, limbs: seq<Limb>, k: nat, e: Entry)
    requires GoodMib(limbs) && k < |limbs|
    ensures RightFrom(version, limbs, k + 1, e) ==> RightFrom(version, limbs, k, e)
  {
    FlatSplits(version, limbs, k);
    LimbIff(version, limbs[k], e);
    InEither(LimbEntries(version, limbs[k]), FlatFrom(version, limbs, k + 1), e);
    SomeNext(version, limbs, k, e);
  }

  lemma FlatSplits(version: u8, limbs: seq<Limb>, k: nat)
    requires GoodMib(limbs) && k < |limbs|
    ensures GoodLimb(limbs[k])
    ensures FlatFrom(version, limbs, k) == LimbEntries(version, limbs[k]) + FlatFrom(version, limbs, k + 1)
  {
    assert GoodLimb(limbs[k]);
  }

  lemma InEither(a: seq<Entry>, b: seq<Entry>, e: Entry)
    ensures e in a + b <==> e in a || e in b
  {
  }

  lemma SomeNext(version: u8, limbs: seq<Limb>, k: nat, e: Entry)
    requires k < |limbs|
    ensures UnderSome(version, limbs, k, e) <==> UnderIt(version, limbs[k], e) || UnderSome(version, limbs, k + 1, e)
  {
  }

  lemma {:induction false} FlatFromIff(version: u8, limbs: seq<Limb>, k: nat, e: Entry)
    requires GoodMib(limbs) && k <= |limbs|
    ensures RightFrom(version, limbs, k, e)
    decreases |limbs| - k
  {
    if k < |limbs| {
      FlatFromIff(version, limbs, k + 1, e);
      RightNext(version, limbs, k, e);
    } else {
      RightLast(version, limbs, e);
    }
  }

  /** The flat list holds exactly the instances, with type, length and contents as they are sent. */
  lemma FlatIff(version: u8, limbs: seq<Limb>, e: Entry)
    requires GoodMib(limbs)
    ensures e in Flat(version, limbs) <==> IsInstance(version, limbs, e)
  {
    FlatFromIff(version, limbs, 0, e);
    if IsInstance(version, limbs, e) {
      var i, f :| 0 <= i < |limbs| && InLimb(version, limbs[i], f) && e == Entry(limbs[i].oid + f.oid, f.value);
      assert UnderIt(version, limbs[i], e);
    }
    if i :| 0 <= i < |limbs| && UnderIt(version, limbs[i], e) {
      var f :| InLimb(version, limbs[i], f) && e == Entry(limbs[i].oid + f.oid, f.value);
    }
  }

  /** No instance version 1 gets has type Counter64. */
  lemma NoCounterToV1(limbs: seq<Limb>, e: Entry)
    requires GoodMib(limbs) && e in Flat(0, limbs)
    ensures e.value != [] && e.value[0] != 0x46
  {
    FlatIff(0, limbs, e);
    var i, f :| 0 <= i < |limbs| && InLimb(0, limbs[i], f) && e == Entry(limbs[i].oid + f.oid, f.value);
    assert GoodLimb(limbs[i]);
    match limbs[i]
    case Group(_, twigs) =>
      var j :| 0 <= j < |twigs| && IsObject(0, twigs[j], f);
    case Table(_, columns) =>
      var k, r :| 0 <= k < |columns| && 0 <= r && IsCell(columns[k], r, f);
      assert GoodColumn(columns[k]);
  }

  /** A 64-bit counter is an instance exactly for the versions after the first. */
  lemma CounterSentIff(version: u8, limbs: seq<Limb>, i: nat, j: nat)
    requires GoodMib(limbs) && i < |limbs| && limbs[i].Group? && j < |limbs[i].twigs| && limbs[i].twigs[j].asn == 0x46
    ensures |limbs[i].twigs[j].data| < 256
    ensures var t := limbs[i].twigs[j];
            Entry(limbs[i].oid + t.oid, [0x46, |t.data| as u8] + t.data) in Flat(version, limbs) <==> version != 0
  {
    assert GoodLimb(limbs[i]);
    var t := limbs[i].twigs[j];
    assert |t.data| < MAX_OCTET_STR_LEN;
    var f := Entry(t.oid, [0x46, |t.data| as u8] + t.data);
    var e := Entry(limbs[i].oid + t.oid, f.value);
    if version != 0 {
      assert IsObject(version, limbs[i].twigs[j], f);
      assert InLimb(version, limbs[i], f);
      FlatIff(version, limbs, e);
    } else if e in Flat(version, limbs) {
      NoCounterToV1(limbs, e);
    }
  }

  // ---------------------------------------------------------------------------------------------
  // Searching a list of instances
  // ---------------------------------------------------------------------------------------------

  /** The first instance of the list that lies after `q`. */
  ghost function FirstAfter(es: seq<Entry>, q: Bytes): (r: Option<Entry>)
    ensures r.Some? ==> Less(q, r.value.oid)
  {
    if es == [] then None
    else if Less(q, es[0].oid) then Some(es[0])
    else FirstAfter(es[1..], q)
  }

  /** The instance of the list named `q`. */
  ghost function Lookup(es: seq<Entry>, q: Bytes): (r: Option<Entry>)
    ensures r.Some? ==> r.value.oid == q
  {
    if es == [] then None
    else if es[0].oid == q then Some(es[0])
    else Lookup(es[1..], q)
  }

  lemma {:induction false} FirstAfterConcat(a: seq<Entry>, b: seq<Entry>, q: Bytes)
    ensures FirstAfter(a + b, q) == if FirstAfter(a, q).Some? then FirstAfter(a, q) else FirstAfter(b, q)
  {
    if a == [] {
      assert a + b == b;
    } else {
      FirstAfterConcat(a[1..], b, q);
      assert (a + b)[1..] == a[1..] + b;
    }
  }

  lemma {:induction false} LookupConcat(a: seq<Entry>, b: seq<Entry>, q: Bytes)
    ensures Lookup(a + b, q) == if Lookup(a, q).Some? then Lookup(a, q) else Lookup(b, q)
  {
    if a == [] {
      assert a + b == b;
    } else {
      LookupConcat(a[1..], b, q);
      assert (a + b)[1..] == a[1..] + b;
    }
  }

  function Lift(prefix: Bytes, r: Option<Entry>): Option<Entry> {
    match r
    case None => None
    case Some(e) => Some(Entry(prefix + e.oid, e.value))
  }

  lemma {:induction false} FirstAfterUnder(prefix: Bytes, es: seq<Entry>, t: Bytes)
    ensures FirstAfter(Under(prefix, es), prefix + t) == Lift(prefix, FirstAfter(es, t))
  {
    if es != [] {
      LessCommonPrefix(prefix, t, es[0].oid);
      FirstAfterUnder(prefix, es[1..], t);
    }
  }

  lemma {:induction false} LookupUnder(prefix: Bytes, es: seq<Entry>, t: Bytes)
    ensures Lookup(Under(prefix, es), prefix + t) == Lift(prefix, Lookup(es, t))
  {
    if es != [] {
      assert (prefix + t)[|prefix|..] == t && (prefix + es[0].oid)[|prefix|..] == es[0].oid;
      LookupUnder(prefix, es[1..], t);
    }
  }

  lemma {:induction false} AllAfter(es: seq<Entry>, q: Bytes)
    requires forall i :: 0 <= i < |es| ==> Less(q, es[i].oid)
    ensures FirstAfter(es, q) == if es == [] then None else Some(es[0])
  {
  }

  lemma {:induction false} NoneAfter(es: seq<Entry>, q: Bytes)
    requires forall i :: 0 <= i < |es| ==> !Less(q, es[i].oid)
    ensures FirstAfter(es, q) == None
  {
    if es != [] { NoneAfter(es[1..], q); }
  }

  lemma {:induction false} NoneNamed(es: seq<Entry>, q: Bytes)
    requires forall i :: 0 <= i < |es| ==> es[i].oid != q
    ensures Lookup(es, q) == None
  {
    if es != [] { NoneNamed(es[1..], q); }
  }

  // ---------------------------------------------------------------------------------------------
  // On a sorted list the first instance after `q` is the least one
  // ---------------------------------------------------------------------------------------------

  ghost predicate Sorted(es: seq<Entry>) {
    forall i, j {:trigger Less(es[i].oid, es[j].oid)} :: 0 <= i < j < |es| ==> Less(es[i].oid, es[j].oid)
  }

  /** The position of the first instance after `q`. */
  ghost function IndexAfter(es: seq<Entry>, q: Bytes): (k: nat)
    ensures k <= |es| && forall i :: 0 <= i < k ==> !Less(q, es[i].oid)
    ensures k < |es| ==> Less(q, es[k].oid) && FirstAfter(es, q) == Some(es[k])
    ensures k == |es| ==> FirstAfter(es, q) == None
  {
    if es == [] || Less(q, es[0].oid) then 0
    else
      var k := IndexAfter(es[1..], q);
      assert forall i :: 0 < i <= |es[1..]| ==> es[1..][i-1] == es[i];
      k + 1
  }

  /** GETNEXT names the least instance greater than the request, or there is none. */
  lemma FirstAfterIsLeast(es: seq<Entry>, q: Bytes)
    requires Sorted(es)
    ensures FirstAfter(es, q) == None <==> forall i :: 0 <= i < |es| ==> !Less(q, es[i].oid)
    ensures FirstAfter(es, q).Some? ==>
              var e := FirstAfter(es, q).value;
              && e in es && Less(q, e.oid)
              && forall i :: 0 <= i < |es| && Less(q, es[i].oid) ==> es[i] == e || Less(e.oid, es[i].oid)
  {
    var k := IndexAfter(es, q);
    if k < |es| {
      forall i | 0 <= i < |es| && Less(q, es[i].oid) ensures es[i] == es[k] || Less(es[k].oid, es[i].oid) {
        assert k < i ==> Less(es[k].oid, es[i].oid);
      }
    }
  }

  lemma IndexAfterIs(es: seq<Entry>, q: Bytes, k: nat)
    requires k <= |es| && forall i :: 0 <= i < k ==> !Less(q, es[i].oid)
    requires k < |es| ==> Less(q, es[k].oid)
    ensures IndexAfter(es, q) == k
  {
    var j := IndexAfter(es, q);
    assert !(j < k) && !(k < j);
  }

  lemma NoneBefore(es: seq<Entry>, i: nat, k: nat)
    requires Sorted(es) && i <= k < |es|
    ensures !Less(es[k].oid, es[i].oid)
  {
    var a, b := es[i].oid, es[k].oid;
    if i < k {
      assert Less(a, b);
      LessAsymmetric(a, b);
    } else if Less(b, a) {
      LessAsymmetric(b, a);
    }
  }

  lemma NextIndex(es: seq<Entry>, k: nat)
    requires Sorted(es) && k < |es|
    ensures IndexAfter(es, es[k].oid) == k + 1
  {
    var q := es[k].oid;
    forall i | 0 <= i < k + 1 ensures !Less(q, es[i].oid) {
      NoneBefore(es, i, k);
    }
    assert k + 1 < |es| ==> Less(q, es[k+1].oid);
    IndexAfterIs(es, q, k + 1);
  }

  /** The replies to a client that asks GETNEXT from `q` on, each time with the name last received. */
  ghost function Walk(es: seq<Entry>, q: Bytes): seq<Entry>
    requires Sorted(es)
    decreases |es| - IndexAfter(es, q)
  {
    match FirstAfter(es, q)
    case None => []
    case Some(e) =>
      NextIndex(es, IndexAfter(es, q));
      [e] + Walk(es, e.oid)
  }

  /** A walk visits each later instance once, in order, and ends. */
  lemma {:induction false} WalkIsComplete(es: seq<Entry>, q: Bytes)
    requires Sorted(es)
    ensures Walk(es, q) == es[IndexAfter(es, q)..]
    decreases |es| - IndexAfter(es, q)
  {
    var k := IndexAfter(es, q);
    if k < |es| {
      NextIndex(es, k);
      WalkIsComplete(es, es[k].oid);
      assert es[k..] == [es[k]] + es[k+1..];
    }
  }

  // ---------------------------------------------------------------------------------------------
  // The flat reading of a well-formed table is sorted
  // ---------------------------------------------------------------------------------------------

  lemma SortedConcat(a: seq<Entry>, b: seq<Entry>)
    requires Sorted(a) && Sorted(b)
    requires forall i, j {:trigger a[i], b[j]} :: 0 <= i < |a| && 0 <= j < |b| ==> Less(a[i].oid, b[j].oid)
    ensures Sorted(a + b)
  {
    var c := a + b;
    forall i, j | 0 <= i < j < |c| ensures Less(c[i].oid, c[j].oid) {
      if j < |a| {
        assert Less(a[i].oid, a[j].oid);
      } else if |a| <= i {
        assert Less(b[i-|a|].oid, b[j-|a|].oid);
      } else {
        assert Less(a[i].oid, b[j-|a|].oid);
      }
    }
  }

  lemma SortedUnder(prefix: Bytes, es: seq<Entry>)
    requires Sorted(es)
    ensures Sorted(Under(prefix, es))
  {
    var r := Under(prefix, es);
    forall i, j | 0 <= i < j < |r| ensures Less(r[i].oid, r[j].oid) {
      assert Less(es[i].oid, es[j].oid);
      LessCommonPrefix(prefix, es[i].oid, es[j].oid);
    }
  }

  ghost predicate IsTwig(twigs: seq<Twig>, k: nat, oid: Bytes) {
    exists i :: k <= i < |twigs| && twigs[i].oid == oid
  }

  lemma {:induction false} GroupSorted(version: u8, twigs: seq<Twig>, k: nat)
    requires GoodGroup(twigs) && k <= |twigs|
    ensures var es := GroupEntries(version, twigs, k);
            Sorted(es) && forall i {:trigger es[i]} :: 0 <= i < |es| ==> IsTwig(twigs, k, es[i].oid)
    decreases |twigs| - k
  {
    if k < |twigs| {
      var head, tail := TwigEntry(version, twigs[k]), GroupEntries(version, twigs, k + 1);
      GroupSorted(version, twigs, k + 1);
      forall j | 0 <= j < |tail| ensures IsTwig(twigs, k, tail[j].oid) && Less(twigs[k].oid, tail[j].oid) {
        assert IsTwig(twigs, k + 1, tail[j].oid);
        var m :| k + 1 <= m < |twigs| && twigs[m].oid == tail[j].oid;
        assert Less(twigs[k].oid, twigs[m].oid);
      }
      SortedConcat(head, tail);
    }
  }

  lemma {:induction false} RowsSorted(column: Column, row: nat)
    requires 1 <= row && GoodColumn(column)
    ensures var es := RowEntries(column, row);
            && Sorted(es)
            && forall i :: 0 <= i < |es| ==>
                 |es[i].oid| == 2 && es[i].oid[0] == column.id && row <= es[i].oid[1] as int
    decreases |column.cells| + 1 - row
  {
    if row <= |column.cells| {
      var tail := RowEntries(column, row + 1);
      RowsSorted(column, row + 1);
      var head := RowEntries(column, row)[0];
      forall j | 0 <= j < |tail| ensures Less(head.oid, tail[j].oid) {
        assert DiffersAt(head.oid, tail[j].oid, 1);
      }
      SortedConcat([head], tail);
    }
  }

  lemma {:induction false} TableSorted(columns: seq<Column>, k: nat)
    requires GoodTable(columns) && k <= |columns|
    ensures var es := TableEntries(columns, k);
            && Sorted(es)
            && forall i :: 0 <= i < |es| ==>
                 k < |columns| && |es[i].oid| == 2 && columns[k].id <= es[i].oid[0]
    decreases |columns| - k
  {
    if k < |columns| {
      assert GoodColumn(columns[k]);
      var head, tail := RowEntries(columns[k], 1), TableEntries(columns, k + 1);
      RowsSorted(columns[k], 1);
      TableSorted(columns, k + 1);
      assert k + 1 < |columns| ==> columns[k].id < columns[k+1].id;
      forall i, j | 0 <= i < |head| && 0 <= j < |tail| ensures Less(head[i].oid, tail[j].oid) {
        assert DiffersAt(head[i].oid, tail[j].oid, 0);
      }
      SortedConcat(head, tail);
    }
  }

  lemma SuffixesSorted(version: u8, limb: Limb)
    requires GoodLimb(limb)
    ensures var es := Suffixes(version, limb);
            Sorted(es) && forall i {:trigger es[i]} :: 0 <= i < |es| ==> es[i].oid != []
  {
    match limb
    case Group(_, twigs) =>
      GroupSorted(version, twigs, 0);
      var es := Suffixes(version, limb);
      forall i | 0 <= i < |es| ensures es[i].oid != [] {
        assert IsTwig(twigs, 0, es[i].oid);
      }
    case Table(_, columns) => TableSorted(columns, 0);
  }

  ghost predicate UnderLimb(limbs: seq<Limb>, k: nat, oid: Bytes) {
    exists i :: k <= i < |limbs| && PrefixOf(limbs[i].oid, oid)
  }

  lemma {:induction false} FlatSorted(version: u8, limbs: seq<Limb>, k: nat)
    requires GoodMib(limbs) && k <= |limbs|
    ensures var es := FlatFrom(version, limbs, k);
            Sorted(es) && forall i {:trigger es[i]} :: 0 <= i < |es| ==> UnderLimb(limbs, k, es[i].oid)
    decreases |limbs| - k
  {
    if k < |limbs| {
      assert GoodLimb(limbs[k]);
      SuffixesSorted(version, limbs[k]);
      SortedUnder(limbs[k].oid, Suffixes(version, limbs[k]));
      FlatSorted(version, limbs, k + 1);
      var head, tail := LimbEntries(version, limbs[k]), FlatFrom(version, limbs, k + 1);
      forall i | 0 <= i < |head| ensures UnderLimb(limbs, k, head[i].oid) && PrefixOf(limbs[k].oid, head[i].oid) {
      }
      forall i, j | 0 <= i < |head| && 0 <= j < |tail| ensures Less(head[i].oid, tail[j].oid) {
        assert UnderLimb(limbs, k + 1, tail[j].oid);
        var m :| k + 1 <= m < |limbs| && PrefixOf(limbs[m].oid, tail[j].oid);
        assert Apart(limbs[k].oid, limbs[m].oid);
        ApartExtends(limbs[k].oid, limbs[m].oid, head[i].oid, tail[j].oid);
      }
      SortedConcat(head, tail);
      forall j | 0 <= j < |tail| ensures UnderLimb(limbs, k, tail[j].oid) {
        assert UnderLimb(limbs, k + 1, tail[j].oid);
      }
    }
  }

  lemma ApartExtends(a: Bytes, b: Bytes, x: Bytes, y: Bytes)
    requires Apart(a, b) && PrefixOf(a, x) && PrefixOf(b, y)
    ensures Less(x, y)
  {
    var d: nat :| DiffersAt(a, b, d) && a[d] < b[d];
    assert DiffersAt(x, y, d);
  }

  /** What a request for `q` should be answered with, GETNEXT by the least instance after it and GET by
      the instance of that name (sections 4.1.2 and 4.1.3 of RFC 1157). */
  ghost predicate IsAnswer(version: u8, limbs: seq<Limb>, next: bool, q: Bytes, r: Option<Entry>) {
    match r
    case None =>
      forall f {:trigger IsInstance(version, limbs, f)} ::
        IsInstance(version, limbs, f) ==> if next then !Precedes(q, f.oid) else f.oid != q
    case Some(e) =>
      && IsInstance(version, limbs, e)
      && if next then
           && Precedes(q, e.oid)
           && forall f {:trigger IsInstance(version, limbs, f)} ::
                IsInstance(version, limbs, f) && Precedes(q, f.oid) ==> f == e || Precedes(e.oid, f.oid)
         else e.oid == q
  }

  /** The list search finds it. */
  lemma FirstIsAnswer(version: u8, limbs: seq<Limb>, q: Bytes)
    requires GoodMib(limbs)
    ensures IsAnswer(version, limbs, true, q, FirstAfter(Flat(version, limbs), q))
  {
    var es := Flat(version, limbs);
    var r := FirstAfter(es, q);
    FlatSorted(version, limbs, 0);
    FirstAfterIsLeast(es, q);
    if r.Some? {
      FlatIff(version, limbs, r.value);
      LessIsPrecedes(q, r.value.oid);
    }
    forall f | IsInstance(version, limbs, f) && Precedes(q, f.oid)
      ensures r.Some? && (f == r.value || Precedes(r.value.oid, f.oid))
    {
      FlatIff(version, limbs, f);
      LessIsPrecedes(q, f.oid);
      var i :| 0 <= i < |es| && es[i] == f;
      if r.Some? { LessIsPrecedes(r.value.oid, f.oid); }
    }
  }

  lemma {:induction false} LookupFinds(es: seq<Entry>, q: Bytes)
    ensures var r := Lookup(es, q);
            if r.Some? then r.value in es && r.value.oid == q else forall f :: f in es ==> f.oid != q
  {
    if es != [] { LookupFinds(es[1..], q); }
  }

  lemma LookupIsAnswer(version: u8, limbs: seq<Limb>, q: Bytes)
    requires GoodMib(limbs)
    ensures IsAnswer(version, limbs, false, q, Lookup(Flat(version, limbs), q))
  {
    var es := Flat(version, limbs);
    LookupFinds(es, q);
    var r := Lookup(es, q);
    if r.Some? { FlatIff(version, limbs, r.value); }
    forall f | IsInstance(version, limbs, f) ensures f in es { FlatIff(version, limbs, f); }
  }

  /** A client that walks the agent from the empty name receives all instances, once each, in
      increasing order, and is then told that there is no further name. */
  lemma WalkVisitsAll(version: u8, limbs: seq<Limb>)
    requires GoodMib(limbs)
    ensures Sorted(Flat(version, limbs))
    ensures Walk(Flat(version, limbs), []) == Flat(version, limbs)
  {
    var es := Flat(version, limbs);
    FlatSorted(version, limbs, 0);
    WalkIsComplete(es, []);
    if es != [] {
      assert UnderLimb(limbs, 0, es[0].oid);
      var i :| 0 <= i < |limbs| && PrefixOf(limbs[i].oid, es[0].oid);
      assert GoodLimb(limbs[i]);
      assert PrefixOf([], es[0].oid) && Less([], es[0].oid);
    }
  }
}
