/** Dates as text: ISO formatting and its string order, and the birth date encoded in a
    tax id. Strings compare by code point, left to right, as Python compares them. */
module TaxId {
  import opened Basics
  import opened Calendar

  // --- string order ---------------------------------------------------------------

  lemma {:induction false} LexConcat(a: string, b: string, a': string, b': string)
    requires |a| == |a'|
    ensures LexLess(a + b, a' + b') <==> LexLess(a, a') || (a == a' && LexLess(b, b'))
  {
    if a == [] {
      assert a + b == b && a' + b' == b';
    } else {
      LexConcat(a[1..], b, a'[1..], b');
      assert (a + b)[1..] == a[1..] + b && (a' + b')[1..] == a'[1..] + b';
      assert a == [a[0]] + a[1..] && a' == [a'[0]] + a'[1..];
    }
  }

  // --- zero-padded numbers -----------------------------------------------------------

  function DigitValue(c: char): (d: nat)
    requires IsDigit(c)
    ensures d <= 9
  {
    c as int - '0' as int
  }

  function DigitChar(d: int): (c: char)
    requires 0 <= d <= 9
    ensures IsDigit(c) && DigitValue(c) == d
  {
    '0' + d as char
  }

  /** The last `width` decimal digits of `n`. */
  function Digits(n: nat, width: nat): (s: string)
    ensures |s| == width && forall i :: 0 <= i < |s| ==> IsDigit(s[i])
  {
    if width == 0 then "" else Digits(n / 10, width - 1) + [DigitChar(n % 10)]
  }

  /** The number a string of digits denotes. */
  function Value(s: string): nat
    requires forall i :: 0 <= i < |s| ==> IsDigit(s[i])
  {
    if s == "" then 0 else 10 * Value(s[..|s| - 1]) + DigitValue(s[|s| - 1])
  }

  function Pow10(w: nat): (p: nat)
    ensures p >= 1
  {
    if w == 0 then 1 else 10 * Pow10(w - 1)
  }

  lemma Pow10Step(w: nat)
    ensures Pow10(w + 1) == 10 * Pow10(w)
  {
  }

  lemma {:induction false} ValueOfDigits(n: nat, width: nat)
    requires n < Pow10(width)
    ensures Value(Digits(n, width)) == n
  {
    if width > 0 {
      ValueOfDigits(n / 10, width - 1);
      assert Digits(n, width)[..width - 1] == Digits(n / 10, width - 1);
    }
  }

  lemma {:induction false} DigitsOfValue(s: string)
    requires forall i :: 0 <= i < |s| ==> IsDigit(s[i])
    ensures Value(s) < Pow10(|s|) && Digits(Value(s), |s|) == s
  {
    if s != "" {
      var n := |s| - 1;
      DigitsOfValue(s[..n]);
      ValueStep(s);
      DigitsStep(Value(s[..n]), DigitValue(s[n]), n);
      Pow10Step(n);
      SameDigit(s[n]);
      hide Value, Digits, Pow10, DigitValue, DigitChar;
      assert s == s[..n] + [s[n]];
    }
  }

  lemma ValueStep(s: string)
    requires s != "" && forall i :: 0 <= i < |s| ==> IsDigit(s[i])
    ensures Value(s) == 10 * Value(s[..|s| - 1]) + DigitValue(s[|s| - 1])
  {
  }

  lemma DigitsStep(v: nat, d: nat, width: nat)
    requires d <= 9
    ensures Digits(10 * v + d, width + 1) == Digits(v, width) + [DigitChar(d)]
  {
    LastDigit(v, d);
  }

  lemma SameDigit(c: char)
    requires IsDigit(c)
    ensures DigitChar(DigitValue(c)) == c
  {
  }

  lemma LastDigit(v: nat, d: nat)
    requires d <= 9
    ensures (10 * v + d) / 10 == v && (10 * v + d) % 10 == d
  {
  }

  /** Equal-width numbers compare as strings exactly as they do as numbers. */
  lemma {:induction false} DigitsOrder(a: string, b: string)
    requires |a| == |b|
    requires forall i :: 0 <= i < |a| ==> IsDigit(a[i]) && IsDigit(b[i])
    ensures LexLess(a, b) <==> Value(a) < Value(b)
    ensures a == b <==> Value(a) == Value(b)
  {
    if a != "" {
      var n := |a| - 1;
      DigitsOrder(a[..n], b[..n]);
      assert a == a[..n] + [a[n]] && b == b[..n] + [b[n]];
      LexConcat(a[..n], [a[n]], b[..n], [b[n]]);
      assert LexLess([a[n]], [b[n]]) <==> a[n] < b[n] by {
        assert [a[n]][1..] == "" && [b[n]][1..] == "";
      }
    }
  }

  lemma PaddedOrder(m: nat, n: nat, width: nat)
    requires m < Pow10(width) && n < Pow10(width)
    ensures LexLess(Digits(m, width), Digits(n, width)) <==> m < n
    ensures Digits(m, width) == Digits(n, width) <==> m == n
  {
    ValueOfDigits(m, width);
    ValueOfDigits(n, width);
    DigitsOrder(Digits(m, width), Digits(n, width));
  }

  // --- ISO dates and timestamps -----------------------------------------------------------

  /** The years `datetime` can hold. */
  predicate FourDigitYear(d: Day) { 1 <= d.year <= 9999 }

  function Iso(d: Day): string
    requires FourDigitYear(d)
  {
    Digits(d.year, 4) + ("-" + (Digits(d.month, 2) + ("-" + Digits(d.day, 2))))
  }

  lemma Widths()
    ensures Pow10(4) == 10000 && Pow10(2) == 100 && Pow10(5) == 100000
  {
    assert Pow10(1) == 10;
    assert Pow10(2) == 100;
    assert Pow10(3) == 1000;
    assert Pow10(4) == 10000;
  }

  /** Zero-padded fields, each of the same width on both sides: order is decided by the
      first that differs. */
  lemma FieldOrder(m: nat, n: nat, width: nat, a: string, b: string)
    requires m < Pow10(width) && n < Pow10(width)
    ensures LexLess(Digits(m, width) + a, Digits(n, width) + b) <==> m < n || (m == n && LexLess(a, b))
    ensures Digits(m, width) + a == Digits(n, width) + b <==> m == n && a == b
  {
    PaddedOrder(m, n, width);
    LexConcat(Digits(m, width), a, Digits(n, width), b);
    if Digits(m, width) + a == Digits(n, width) + b {
      assert Digits(m, width) == (Digits(m, width) + a)[..width] == (Digits(n, width) + b)[..width] == Digits(n, width);
      assert a == (Digits(m, width) + a)[width..] && b == (Digits(n, width) + b)[width..];
    }
  }

  lemma SeparatorOrder(sep: string, a: string, b: string)
    requires |sep| == 1
    ensures LexLess(sep + a, sep + b) <==> LexLess(a, b)
    ensures sep + a == sep + b <==> a == b
  {
    LexConcat(sep, a, sep, b);
    LexIsATotalOrder(sep, sep);
    if sep + a == sep + b {
      assert a == (sep + a)[1..] && b == (sep + b)[1..];
    }
  }

  lemma DateWithSuffixOrder(a: Day, b: Day, x: string, y: string)
    requires FourDigitYear(a) && FourDigitYear(b)
    ensures LexLess(Iso(a) + x, Iso(b) + y) <==> Before(a, b) || (a == b && LexLess(x, y))
  {
    Widths();
    IsoUnfolds(a, x);
    IsoUnfolds(b, y);
    var da, db := Digits(a.day, 2) + x, Digits(b.day, 2) + y;
    var ma, mb := Digits(a.month, 2) + ("-" + da), Digits(b.month, 2) + ("-" + db);
    FieldOrder(a.day, b.day, 2, x, y);
    SeparatorOrder("-", da, db);
    FieldOrder(a.month, b.month, 2, "-" + da, "-" + db);
    SeparatorOrder("-", ma, mb);
    FieldOrder(a.year, b.year, 4, "-" + ma, "-" + mb);
  }

  lemma IsoUnfolds(d: Day, x: string)
    requires FourDigitYear(d)
    ensures Iso(d) + x == Digits(d.year, 4) + ("-" + (Digits(d.month, 2) + ("-" + (Digits(d.day, 2) + x))))
  {
  }

  /** ISO dates sort chronologically as strings, and are equal only for equal dates. */
  lemma IsoOrder(a: Day, b: Day)
    requires FourDigitYear(a) && FourDigitYear(b)
    ensures LexLess(Iso(a), Iso(b)) <==> Before(a, b)
    ensures Iso(a) == Iso(b) <==> a == b
  {
    DateWithSuffixOrder(a, b, "", "");
    DateWithSuffixOrder(b, a, "", "");
    assert Iso(a) + "" == Iso(a) && Iso(b) + "" == Iso(b);
    LexIsATotalOrder(Iso(a), Iso(b));
  }

  /** Text in the shape of an ISO date: exactly four digits, two and two, with dashes between. */
  predicate IsoShaped(s: string) {
    |s| == 10 && s[4] == '-' && s[7] == '-'
    && forall i :: 0 <= i < 10 && i != 4 && i != 7 ==> IsDigit(s[i])
  }

  /** It spells three zero-padded numbers; every date is spelled that way. */
  lemma IsoShapedIff(s: string)
    ensures IsoShaped(s) <==>
            exists y: nat, m: nat, d: nat :: y < 10000 && m < 100 && d < 100
                                             && s == Digits(y, 4) + ("-" + (Digits(m, 2) + ("-" + Digits(d, 2))))
  {
    if IsoShaped(s) {
      Widths();
      DigitsOfValue(s[..4]);
      DigitsOfValue(s[5..7]);
      DigitsOfValue(s[8..]);
      assert s == s[..4] + ("-" + (s[5..7] + ("-" + s[8..])));
    }
  }

  lemma IsoIsShaped(d: Day)
    requires FourDigitYear(d)
    ensures IsoShaped(Iso(d)) && |Iso(d)| == 10
  {
    IsoShapedIff(Iso(d));
  }

  /** A timestamp of one fixed format. */
  datatype Stamp = Stamp(day: Day, hour: nat, minute: nat, second: nat)

  predicate ValidStamp(t: Stamp) {
    FourDigitYear(t.day) && t.hour < 24 && t.minute < 60 && t.second < 60
  }

  /** Seconds since midnight before day 1. */
  function Instant(t: Stamp): int {
    86400 * Ordinal(t.day) + 3600 * t.hour + 60 * t.minute + t.second
  }

  function Clock(t: Stamp): string {
    "T" + (Digits(t.hour, 2) + (":" + (Digits(t.minute, 2) + (":" + (Digits(t.second, 2) + "")))))
  }

  function IsoStamp(t: Stamp): string
    requires ValidStamp(t)
  {
    Iso(t.day) + Clock(t)
  }

  /** Timestamps of equal format sort as strings exactly as they happened. */
  lemma StampOrder(a: Stamp, b: Stamp)
    requires ValidStamp(a) && ValidStamp(b)
    ensures LexLess(IsoStamp(a), IsoStamp(b)) <==> Instant(a) < Instant(b)
  {
    Widths();
    DateWithSuffixOrder(a.day, b.day, Clock(a), Clock(b));
    OrdinalOrder(a.day, b.day);
    var sa, sb := Digits(a.second, 2) + "", Digits(b.second, 2) + "";
    var ma, mb := Digits(a.minute, 2) + (":" + sa), Digits(b.minute, 2) + (":" + sb);
    FieldOrder(a.second, b.second, 2, "", "");
    SeparatorOrder(":", sa, sb);
    FieldOrder(a.minute, b.minute, 2, ":" + sa, ":" + sb);
    SeparatorOrder(":", ma, mb);
    FieldOrder(a.hour, b.hour, 2, ":" + ma, ":" + mb);
    SeparatorOrder("T", Digits(a.hour, 2) + (":" + ma), Digits(b.hour, 2) + (":" + mb));
  }

  // --- the newest application ------------------------------------------------------------------

  /** `_sort_key`: a missing timestamp sorts first. */
  function SortKey(appliedAt: Option<Stamp>): string
    requires appliedAt.Some? ==> ValidStamp(appliedAt.value)
  {
    if appliedAt.None? then "" else IsoStamp(appliedAt.value)
  }

  predicate Older(a: Option<Stamp>, b: Option<Stamp>) {
    b.Some? && (a.None? || Instant(a.value) < Instant(b.value))
  }

  predicate AllValid(stamps: seq<Option<Stamp>>) {
    forall i :: 0 <= i < |stamps| && stamps[i].Some? ==> ValidStamp(stamps[i].value)
  }

  /** The application times of rows of whatever kind. */
  function Stamps<A>(rows: seq<A>, appliedAt: A -> Option<Stamp>): (stamps: seq<Option<Stamp>>)
    ensures |stamps| == |rows| && forall i :: 0 <= i < |stamps| ==> stamps[i] == appliedAt(rows[i])
  {
    seq(|rows|, i requires 0 <= i < |rows| => appliedAt(rows[i]))
  }

  /** `max(rows, key=_sort_key)`: the first row whose key no other key exceeds. */
  function NewestIndex(stamps: seq<Option<Stamp>>): (n: nat)
    requires stamps != [] && AllValid(stamps)
    ensures n < |stamps|
  {
    if |stamps| == 1 then 0
    else
      var k := |stamps| - 1;
      var best := NewestIndex(stamps[..k]);
      if LexLess(SortKey(stamps[best]), SortKey(stamps[k])) then k else best
  }

  lemma SortKeyOrder(a: Option<Stamp>, b: Option<Stamp>)
    requires AllValid([a, b])
    ensures (a.Some? ==> ValidStamp(a.value)) && (b.Some? ==> ValidStamp(b.value))
    ensures LexLess(SortKey(a), SortKey(b)) <==> Older(a, b)
  {
    assert [a, b][0] == a && [a, b][1] == b;
    if a.Some? && b.Some? {
      StampOrder(a.value, b.value);
    }
  }

  lemma OlderThanTheNewest(a: Option<Stamp>, b: Option<Stamp>, c: Option<Stamp>)
    ensures Older(b, c) && !Older(b, a) ==> Older(a, c)
    ensures Older(a, c) ==> !Older(c, a)
  {
    hide Instant;
  }

  /** Comparing keys picks a chronologically newest application, the first of them. */
  lemma {:induction false} NewestIsNewest(stamps: seq<Option<Stamp>>)
    requires stamps != [] && AllValid(stamps)
    ensures var n := NewestIndex(stamps);
            && (forall i :: 0 <= i < |stamps| ==> !Older(stamps[n], stamps[i]))
            && (forall i :: 0 <= i < n ==> Older(stamps[i], stamps[n]))
  {
    if |stamps| > 1 {
      hide SortKey, LexLess, Older, ValidStamp;
      var k := |stamps| - 1;
      NewestIsNewest(stamps[..k]);
      var best := NewestIndex(stamps[..k]);
      SortKeyOrder(stamps[best], stamps[k]);
      assert forall i :: 0 <= i < k ==> stamps[..k][i] == stamps[i];
      forall i | 0 <= i < k
        ensures Older(stamps[best], stamps[k]) ==> Older(stamps[i], stamps[k]) && !Older(stamps[k], stamps[i])
      {
        OlderThanTheNewest(stamps[i], stamps[best], stamps[k]);
      }
      OlderThanTheNewest(stamps[k], stamps[k], stamps[k]);
    }
  }

  // --- the birth date in a tax id -----------------------------------------------------------------

  predicate AllDigits(s: string) { forall i :: 0 <= i < |s| ==> IsDigit(s[i]) }

  const EPOCH: Day := Date(1899, 12, 31)

  function BirthDay(inn: string): Day
    requires |inn| == 10 && AllDigits(inn)
  {
    EpochOrdinal();
    FromOrdinal(Ordinal(EPOCH) + Value(inn[..5]))
  }

  lemma EpochOrdinal()
    ensures Ordinal(EPOCH) == 693595
  {
    assert DaysBeforeMonth(1899, 12) == 334 by { MonthsFillTheYear(1899); }
  }

  lemma LastBirthDay()
    ensures Ordinal(Date(2173, 10, 14)) == 693595 + 99999
  {
    assert DaysBeforeMonth(2173, 3) == 59 by { assert DaysBeforeMonth(2173, 2) == 31; }
    assert DaysBeforeMonth(2173, 5) == 120;
    assert DaysBeforeMonth(2173, 7) == 181;
    assert DaysBeforeMonth(2173, 9) == 243;
    assert DaysBeforeMonth(2173, 10) == 273;
  }

  lemma YearsInRange(d: Day)
    requires Ordinal(EPOCH) <= Ordinal(d) <= Ordinal(Date(2173, 10, 14))
    ensures FourDigitYear(d)
  {
    OrdinalOrder(d, EPOCH);
    OrdinalOrder(Date(2173, 10, 14), d);
  }

  /** `_inn_birthday`: nothing for anything but ten digits. */
  function InnBirthday(inn: string): Option<string> {
    if |inn| == 10 && AllDigits(inn) then
      (BirthDayInRange(inn); Some(Iso(BirthDay(inn))))
    else None
  }

  lemma BirthDayInRange(inn: string)
    requires |inn| == 10 && AllDigits(inn)
    ensures Ordinal(BirthDay(inn)) == Ordinal(EPOCH) + Value(inn[..5])
    ensures !Before(BirthDay(inn), EPOCH) && !Before(Date(2173, 10, 14), BirthDay(inn))
    ensures FourDigitYear(BirthDay(inn))
  {
    hide Ordinal;
    EpochOrdinal();
    LastBirthDay();
    Widths();
    DigitsOfValue(inn[..5]);
    OrdinalOrder(BirthDay(inn), EPOCH);
    OrdinalOrder(Date(2173, 10, 14), BirthDay(inn));
    YearsInRange(BirthDay(inn));
  }

  /** Every ten-digit id decodes, to a date between 1899-12-31 and 2173-10-14, and the
      decoded text is ordered exactly as the first five digits: strictly, so two ids decode
      to the same date only if those digits agree. */
  lemma BirthdayIsStrictlyMonotone(a: string, b: string)
    requires |a| == |b| == 10 && AllDigits(a) && AllDigits(b)
    ensures InnBirthday(a).Some? && InnBirthday(b).Some?
    ensures LexLess(InnBirthday(a).value, InnBirthday(b).value) <==> LexLess(a[..5], b[..5])
    ensures InnBirthday(a) == InnBirthday(b) <==> a[..5] == b[..5]
  {
    hide Ordinal, Iso, BirthDay;
    BirthDayInRange(a);
    BirthDayInRange(b);
    DigitsOrder(a[..5], b[..5]);
    OrdinalOrder(BirthDay(a), BirthDay(b));
    IsoOrder(BirthDay(a), BirthDay(b));
  }

  /** And every date in that range is the one some id encodes. */
  lemma EveryBirthdayIsEncoded(d: Day)
    requires !Before(d, EPOCH) && !Before(Date(2173, 10, 14), d)
    ensures FourDigitYear(d)
    ensures exists inn: string :: |inn| == 10 && AllDigits(inn) && InnBirthday(inn) == Some(Iso(d))
  {
    hide Ordinal, Iso, BirthDay;
    EpochOrdinal();
    LastBirthDay();
    OrdinalOrder(d, EPOCH);
    OrdinalOrder(Date(2173, 10, 14), d);
    YearsInRange(d);
    Widths();
    var n := Ordinal(d) - Ordinal(EPOCH);
    var inn := Digits(n, 5) + Digits(0, 5);
    assert inn[..5] == Digits(n, 5);
    ValueOfDigits(n, 5);
    BirthDayInRange(inn);
    OrdinalOrder(BirthDay(inn), d);
  }
}
