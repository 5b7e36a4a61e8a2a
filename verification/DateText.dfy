/** The sortable text form of a date (lib/util.c). */
module DateText {
  import opened Arith
  import opened CivilDate
  import N = NumberText

  /** "%02d" and "%4d". */
  const ZERO_PADDED: N.Flags := N.Flags(true, true, false, false, false, false, false)

  function Two(v: nat): string
    requires v < 100
  {
    N.Text(v, 10, 2, -1, ZERO_PADDED)
  }

  function Year(y: nat): string
    requires y < 10000
  {
    N.Text(y, 10, 4, -1, N.DECIMAL)
  }

  predicate Printable(d: Date) {
    1000 <= d.year < 10000 && d.month < 100 && d.day < 100 && d.hour < 100 && d.min < 100 && d.sec < 100
  }

  function TimeText(d: Date): string
    requires Printable(d)
  {
    Two(d.hour) + (":" + (Two(d.min) + (":" + Two(d.sec))))
  }

  function DayText(d: Date): string
    requires Printable(d)
  {
    Year(d.year) + ("-" + (Two(d.month) + ("-" + Two(d.day))))
  }

  /** TIME_FORMAT_SORTED. */
  function SortedText(d: Date): string
    requires Printable(d)
  {
    DayText(d) + ("-" + TimeText(d))
  }

  lemma Joined(y: string, m: string, d: string, h: string, i: string, s: string)
    ensures y + "-" + m + "-" + d + "-" + h + ":" + i + ":" + s
         == (y + ("-" + (m + ("-" + d)))) + ("-" + (h + (":" + (i + (":" + s)))))
  {
  }

  method PrintTwo(v: nat) returns (s: string)
    requires v < 100
    ensures s == Two(v)
  {
    s := N.Number("", v, 10, 2, -1, ZERO_PADDED);
    assert s == "" + Two(v);
  }

  method PrintYear(y: nat) returns (s: string)
    requires y < 10000
    ensures s == Year(y)
  {
    s := N.Number("", y, 10, 4, -1, N.DECIMAL);
    assert s == "" + Year(y);
  }

  method FormatSorted(d: Date) returns (buf: string)
    requires Printable(d)
    ensures buf == SortedText(d)
  {
    var y := PrintYear(d.year);
    var m := PrintTwo(d.month);
    var day := PrintTwo(d.day);
    var h := PrintTwo(d.hour);
    var i := PrintTwo(d.min);
    var s := PrintTwo(d.sec);
    buf := y + "-" + m + "-" + day + "-" + h + ":" + i + ":" + s;
    Joined(y, m, day, h, i, s);
  }

  // ---------------------------------------------------------------------------------------------
  // Order of texts
  // ---------------------------------------------------------------------------------------------

  /** `a` sorts before `b` at their first difference. */
  ghost predicate LexLess(a: string, b: string) {
    exists k :: 0 <= k < |a| && k < |b| && a[..k] == b[..k] && a[k] < b[k]
  }

  lemma LexFront(a: string, b: string, x: string, y: string)
    requires LexLess(a, b)
    ensures LexLess(a + x, b + y)
  {
    var k :| 0 <= k < |a| && k < |b| && a[..k] == b[..k] && a[k] < b[k];
    assert (a + x)[..k] == a[..k] && (b + y)[..k] == b[..k];
    assert (a + x)[k] < (b + y)[k];
  }

  lemma LexBack(a: string, x: string, y: string)
    requires LexLess(x, y)
    ensures LexLess(a + x, a + y)
  {
    var k :| 0 <= k < |x| && k < |y| && x[..k] == y[..k] && x[k] < y[k];
    assert (a + x)[..|a|+k] == a + x[..k] && (a + y)[..|a|+k] == a + y[..k];
    assert (a + x)[|a|+k] < (a + y)[|a|+k];
  }

  lemma DigitsInOrder(v: nat, w: nat)
    requires v < w < 10
    ensures N.DigitChar(v, false) < N.DigitChar(w, false)
  {
  }

  function Pair(v: nat): string
    requires v < 100
  {
    [N.DigitChar(v / 10, false), N.DigitChar(v % 10, false)]
  }

  lemma TwoIs(v: nat)
    requires v < 100
    ensures Two(v) == Pair(v)
  {
    var last := N.DigitChar(v % 10, false);
    if v < 10 {
      assert N.Digits(v, 10, false) == [last];
    } else {
      assert N.Digits(v / 10, 10, false) == [N.DigitChar(v / 10, false)];
      assert N.Digits(v, 10, false) == [N.DigitChar(v / 10, false), last];
    }
  }

  lemma LexPair(a: char, b: char, c: char, d: char)
    requires a < c || (a == c && b < d)
    ensures LexLess([a, b], [c, d])
  {
    var x, y := [a, b], [c, d];
    assert x[..0] == y[..0];
    if a == c {
      assert x[..1] == y[..1] && x[1] < y[1];
    } else {
      assert x[0] < y[0];
    }
  }

  lemma PairInOrder(v: nat, w: nat)
    requires v < w < 100
    ensures LexLess(Pair(v), Pair(w))
  {
    if v / 10 < w / 10 { DigitsInOrder(v / 10, w / 10); } else { DigitsInOrder(v % 10, w % 10); }
    LexPair(N.DigitChar(v / 10, false), N.DigitChar(v % 10, false), N.DigitChar(w / 10, false), N.DigitChar(w % 10, false));
  }

  lemma TwoInOrder(v: nat, w: nat)
    requires v < w < 100
    ensures LexLess(Two(v), Two(w))
  {
    TwoIs(v);
    TwoIs(w);
    PairInOrder(v, w);
  }

  /** Numbers of the same number of digits sort like their texts. */
  lemma {:induction false} NumbersInOrder(m: nat, n: nat)
    requires m < n && |N.Digits(m, 10, false)| == |N.Digits(n, 10, false)|
    ensures LexLess(N.Digits(m, 10, false), N.Digits(n, 10, false))
  {
    var c, e := N.DigitChar(m % 10, false), N.DigitChar(n % 10, false);
    var a, b := N.Leading(m, 10, false), N.Leading(n, 10, false);
    if m / 10 < n / 10 {
      assert m >= 10 by { assert |b| == |a|; }
      NumbersInOrder(m / 10, n / 10);
      LexFront(a, b, [c], [e]);
    } else {
      DigitsInOrder(m % 10, n % 10);
      assert LexLess([c], [e]) by { assert [c][..0] == [e][..0] && [c][0] < [e][0]; }
      LexBack(a, [c], [e]);
    }
  }

  lemma YearIs(y: nat)
    requires 1000 <= y < 10000
    ensures Year(y) == N.Digits(y, 10, false) && |Year(y)| == 4
  {
    assert |N.Digits(y / 1000, 10, false)| == 1;
    assert y / 100 / 10 == y / 1000 && y / 10 / 10 == y / 100;
    assert |N.Digits(y / 100, 10, false)| == 2;
    assert |N.Digits(y / 10, 10, false)| == 3;
    assert |N.Digits(y, 10, false)| == 4;
  }

  lemma YearInOrder(y: nat, z: nat)
    requires 1000 <= y < z < 10000
    ensures LexLess(Year(y), Year(z))
  {
    YearIs(y);
    YearIs(z);
    NumbersInOrder(y, z);
  }

  // ---------------------------------------------------------------------------------------------
  // The sorted form sorts
  // ---------------------------------------------------------------------------------------------

  /** Two texts that differ in their first field sort by it, and otherwise by the rest. */
  lemma FieldFirst(a: string, b: string, sep: string, x: string, y: string)
    requires LexLess(a, b) || (a == b && LexLess(x, y))
    ensures LexLess(a + (sep + x), b + (sep + y))
  {
    if LexLess(a, b) {
      LexFront(a, b, sep + x, sep + y);
    } else {
      LexBack(sep, x, y);
      LexBack(a, sep + x, sep + y);
    }
  }

  lemma TimesSort(a: Date, b: Date)
    requires Printable(a) && Printable(b) && EarlierTime(a, b)
    ensures LexLess(TimeText(a), TimeText(b))
  {
    if a.hour < b.hour {
      TwoInOrder(a.hour, b.hour);
    } else {
      if a.min < b.min { TwoInOrder(a.min, b.min); } else { TwoInOrder(a.sec, b.sec); }
      FieldFirst(Two(a.min), Two(b.min), ":", Two(a.sec), Two(b.sec));
    }
    FieldFirst(Two(a.hour), Two(b.hour), ":", Two(a.min) + (":" + Two(a.sec)), Two(b.min) + (":" + Two(b.sec)));
  }

  lemma DaysSort(a: Date, b: Date)
    requires Printable(a) && Printable(b) && EarlierDay(a, b)
    ensures LexLess(DayText(a), DayText(b))
  {
    if a.year < b.year {
      YearInOrder(a.year, b.year);
    } else {
      if a.month < b.month { TwoInOrder(a.month, b.month); } else { TwoInOrder(a.day, b.day); }
      FieldFirst(Two(a.month), Two(b.month), "-", Two(a.day), Two(b.day));
    }
    FieldFirst(Year(a.year), Year(b.year), "-", Two(a.month) + ("-" + Two(a.day)), Two(b.month) + ("-" + Two(b.day)));
  }

  /** Every 32-bit time has a year of four digits, and its text fits the buffer. */
  lemma TimeIsPrintable(d: Date, s: nat)
    requires Denotes(Fourth, d, s) && s < TWO32
    ensures Printable(d) && |SortedText(d)| == 19
  {
    FourthClosed(d.year);
    assert DaysBeforeYear(Fourth, d.year) * DAY <= s;
    assert d.year < 2107;
    YearIs(d.year);
    TwoIs(d.month);
    TwoIs(d.day);
    TwoIs(d.hour);
    TwoIs(d.min);
    TwoIs(d.sec);
  }

  /** A field of digits that denotes `v`. */
  predicate Reads(text: string, v: nat) {
    (forall k :: 0 <= k < |text| ==> '0' <= text[k] <= '9') && N.Value(text, 10) == v
  }

  lemma TwoReads(v: nat)
    requires v < 100
    ensures |Two(v)| == 2 && Reads(Two(v), v)
  {
    TwoIs(v);
    N.DigitCharValue(v / 10, false);
    N.DigitCharValue(v % 10, false);
    PairValue(N.DigitChar(v / 10, false), N.DigitChar(v % 10, false));
  }

  lemma PairValue(a: char, b: char)
    ensures N.Value([a, b], 10) == N.DigitValue(a) * 10 + N.DigitValue(b)
  {
    N.ValueAppend([], a, 10);
    N.ValueAppend([a], b, 10);
    assert [] + [a] == [a] && [a] + [b] == [a, b];
  }

  lemma YearReads(y: nat)
    requires 1000 <= y < 10000
    ensures |Year(y)| == 4 && Reads(Year(y), y)
  {
    YearIs(y);
    N.DigitsDenote(y, 10, false);
    N.DigitsSpelled(y, 10, false);
  }

  /** The text is YYYY-MM-DD-hh:mm:ss. */
  lemma SortedTextReads(d: Date)
    requires Printable(d)
    ensures var t := SortedText(d);
            && |t| == 19 && t[4] == '-' && t[7] == '-' && t[10] == '-' && t[13] == ':' && t[16] == ':'
            && Reads(t[..4], d.year) && Reads(t[5..7], d.month) && Reads(t[8..10], d.day)
            && Reads(t[11..13], d.hour) && Reads(t[14..16], d.min) && Reads(t[17..], d.sec)
  {
    YearReads(d.year);
    TwoReads(d.month);
    TwoReads(d.day);
    TwoReads(d.hour);
    TwoReads(d.min);
    TwoReads(d.sec);
    SixFields(Year(d.year), Two(d.month), Two(d.day), Two(d.hour), Two(d.min), Two(d.sec), SortedText(d));
  }

  lemma SixFields(y: string, m: string, d: string, h: string, i: string, s: string, t: string)
    requires |y| == 4 && |m| == 2 && |d| == 2 && |h| == 2 && |i| == 2 && |s| == 2
    requires t == (y + ("-" + (m + ("-" + d)))) + ("-" + (h + (":" + (i + (":" + s)))))
    ensures |t| == 19 && t[4] == '-' && t[7] == '-' && t[10] == '-' && t[13] == ':' && t[16] == ':'
    ensures t[..4] == y && t[5..7] == m && t[8..10] == d && t[11..13] == h && t[14..16] == i && t[17..] == s
  {
  }

  lemma LexAsymmetric(a: string, b: string)
    requires LexLess(a, b)
    ensures !LexLess(b, a)
  {
    var k :| 0 <= k < |a| && k < |b| && a[..k] == b[..k] && a[k] < b[k];
    forall j | 0 <= j < |b| && j < |a|
      ensures b[..j] != a[..j] || a[j] <= b[j]
    {
      if j < k {
        assert a[..k][j] == a[j] && b[..k][j] == b[j];
      } else if k < j {
        assert a[..j][k] == a[k] && b[..j][k] == b[k];
      }
    }
  }

  lemma EarlierSorts(a: Date, b: Date, s: nat, t: nat)
    requires Denotes(Fourth, a, s) && Denotes(Fourth, b, t) && s < t && Printable(a) && Printable(b)
    ensures LexLess(SortedText(a), SortedText(b))
  {
    DateInOrder(Fourth, a, b, s, t);
    if EarlierDay(a, b) {
      DaysSort(a, b);
    } else {
      TimesSort(a, b);
    }
    FieldFirst(DayText(a), DayText(b), "-", TimeText(a), TimeText(b));
  }

  /** The order of the texts is the order of the times. */
  lemma SortedTextSorts(a: Date, b: Date, s: nat, t: nat)
    requires Denotes(Fourth, a, s) && Denotes(Fourth, b, t) && s < TWO32 && t < TWO32
    ensures Printable(a) && Printable(b)
    ensures LexLess(SortedText(a), SortedText(b)) <==> s < t
  {
    TimeIsPrintable(a, s);
    TimeIsPrintable(b, t);
    if s < t {
      EarlierSorts(a, b, s, t);
    } else if t < s {
      EarlierSorts(b, a, t, s);
      LexAsymmetric(SortedText(b), SortedText(a));
    } else {
      DateUnique(Fourth, a, b, s);
    }
  }

  /** From seconds to text: the fields are those of the conversion, and the text is that of the right
      Gregorian date exactly before March 2100. */
  method FormatTime(s: nat) returns (buf: string, d: Date)
    ensures Denotes(Fourth, d, s % TWO32) && Printable(d) && buf == SortedText(d) && |buf| == 19
    ensures Denotes(Leap, d, s) <==> s < 4_107_542_400
  {
    d := FormatTimeInt(s);
    TimeIsPrintable(d, s % TWO32);
    ConversionExactIff(s, d);
    buf := FormatSorted(d);
  }
}
