/** Due dates. The service stores and sorts them as `YYYY-MM-DD` text, and
    compares them as the `java.util.Date` that `SimpleDateFormat("yyyy-MM-dd")`
    parses them to: the local midnight that starts the day. An instant is a
    count of milliseconds on the same local time line, whose origin is the
    midnight starting 0001-01-01 of the proleptic Gregorian calendar. */
module Dates {
  import opened Text

  const MillisPerDay: nat := 86_400_000

  /** A calendar day as parsed from text. */
  datatype Date = Date(year: nat, month: nat, day: nat)

  predicate IsLeap(y: nat)
  {
    y % 4 == 0 && (y % 100 != 0 || y % 400 == 0)
  }

  function DaysInYear(y: nat): nat
  {
    if IsLeap(y) then 366 else 365
  }

  function DaysInMonth(y: nat, m: nat): nat
    requires 1 <= m <= 12
  {
    if m == 2 then (if IsLeap(y) then 29 else 28)
    else if m == 4 || m == 6 || m == 9 || m == 11 then 30
    else 31
  }

  predicate ValidDate(d: Date)
  {
    1 <= d.year && 1 <= d.month <= 12 && 1 <= d.day <= DaysInMonth(d.year, d.month)
  }

  /** Text the parser reads as exactly the date it spells: four, two and two
      digits separated by dashes, naming a day that exists. */
  predicate WellFormed(s: string)
  {
    && |s| == 10
    && AllDigits(s[..4]) && s[4] == '-' && AllDigits(s[5..7]) && s[7] == '-' && AllDigits(s[8..])
    && ValidDate(Date(ParseNat(s[..4]), ParseNat(s[5..7]), ParseNat(s[8..])))
  }

  /** A due date as submitted, stored and returned. */
  type DateText = s: string | WellFormed(s)
    witness (ParseNatShort("1970"); ParseNatShort("01"); "1970-01-01")

  function Parse(s: DateText): (d: Date)
    ensures ValidDate(d)
  {
    Date(ParseNat(s[..4]), ParseNat(s[5..7]), ParseNat(s[8..]))
  }

  /** Days in the years before `y`. */
  function DaysBeforeYear(y: nat): nat
    requires 1 <= y
  {
    var n := y - 1;
    365 * n + n / 4 - n / 100 + n / 400
  }

  /** Days in the months of year `y` before month `m`. */
  function DaysBeforeMonth(y: nat, m: nat): nat
    requires 1 <= m <= 12
  {
    var before := [0, 31, 59, 90, 120, 151, 181, 212, 243, 273, 304, 334][m - 1];
    if m > 2 && IsLeap(y) then before + 1 else before
  }

  /** Days from 0001-01-01 to `d`. */
  function DayNumber(d: Date): nat
    requires ValidDate(d)
  {
    DaysBeforeYear(d.year) + DaysBeforeMonth(d.year, d.month) + d.day - 1
  }

  /** `toDate(s).getTime()`: the midnight that starts the day. */
  function Midnight(s: DateText): nat
  {
    DayNumber(Parse(s)) * MillisPerDay
  }

  /** `toDate(a).before(toDate(b))`. */
  predicate DateBefore(a: DateText, b: DateText)
  {
    Midnight(a) < Midnight(b)
  }

  /** `toDate(s).before(new Date())`, with `now` the current instant. */
  predicate BeforeInstant(s: DateText, now: nat)
  {
    Midnight(s) < now
  }

  /** The day an instant falls in. */
  function DayOf(now: nat): nat
  {
    now / MillisPerDay
  }

  // ---------------------------------------------------------------------------
  // Text order is chronological order

  lemma DaysBeforeYearStep(y: nat)
    requires 1 <= y
    ensures DaysBeforeYear(y + 1) == DaysBeforeYear(y) + DaysInYear(y)
  {
    var n := y - 1;
    DivStep(n, 4);
    DivStep(n, 100);
    DivStep(n, 400);
    MultipleChain(y);
  }

  /** A multiple of 400 is one of 100, and a multiple of 100 one of 4. */
  lemma MultipleChain(y: nat)
    ensures y % 400 == 0 ==> y % 100 == 0
    ensures y % 100 == 0 ==> y % 4 == 0
  {
    MultipleOf(y, 400, 100);
    MultipleOf(y, 100, 4);
  }

  /** A multiple of `a` is a multiple of any `b` dividing `a`. */
  lemma MultipleOf(y: nat, a: nat, b: nat)
    requires (a == 400 && b == 100) || (a == 100 && b == 4)
    ensures y % a == 0 ==> y % b == 0
  {
    if y % a == 0 {
      var q := y / a;
      var k := if a == 400 then 4 * q else 25 * q;
      assert y == b * k;
    }
  }

  /** Counting multiples of `k` up to `n + 1` adds one exactly when `n + 1` is one. */
  lemma DivStep(n: nat, k: nat)
    requires k == 4 || k == 100 || k == 400
    ensures (n + 1) / k == n / k + (if (n + 1) % k == 0 then 1 else 0)
  {
    var q, r := n / k, n % k;
    assert n == q * k + r && 0 <= r < k;
    if r + 1 == k {
      assert n + 1 == (q + 1) * k + 0;
    } else {
      assert n + 1 == q * k + (r + 1);
    }
  }

  /** Every day of year `y1` comes before every day of a later year `y2`. */
  lemma {:induction false} DaysBeforeYearMonotone(y1: nat, y2: nat)
    requires 1 <= y1 < y2
    ensures DaysBeforeYear(y1) + DaysInYear(y1) <= DaysBeforeYear(y2)
    decreases y2 - y1
  {
    DaysBeforeYearStep(y1);
    if y1 + 1 < y2 {
      DaysBeforeYearMonotone(y1 + 1, y2);
    }
  }

  lemma DaysBeforeMonthMonotone(y: nat, m1: nat, m2: nat)
    requires 1 <= m1 < m2 <= 12
    ensures DaysBeforeMonth(y, m1) + DaysInMonth(y, m1) <= DaysBeforeMonth(y, m2)
  {
  }

  lemma DayOfYearBound(d: Date)
    requires ValidDate(d)
    ensures DaysBeforeMonth(d.year, d.month) + d.day <= DaysInYear(d.year)
  {
  }

  /** Lexicographic order on (year, month, day). */
  function CompareDates(a: Date, b: Date): Order
  {
    if a.year != b.year then CompareInts(a.year, b.year)
    else if a.month != b.month then CompareInts(a.month, b.month)
    else CompareInts(a.day, b.day)
  }

  /** On real dates, the lexicographic order of the fields is the order of the
      days on the calendar. */
  lemma DayNumberOrder(a: Date, b: Date)
    requires ValidDate(a) && ValidDate(b)
    ensures CompareDates(a, b) == CompareInts(DayNumber(a), DayNumber(b))
  {
    if a.year < b.year {
      DayOfYearBound(a);
      DaysBeforeYearMonotone(a.year, b.year);
    } else if a.year > b.year {
      DayOfYearBound(b);
      DaysBeforeYearMonotone(b.year, a.year);
    } else if a.month < b.month {
      DaysBeforeMonthMonotone(a.year, a.month, b.month);
    } else if a.month > b.month {
      DaysBeforeMonthMonotone(a.year, b.month, a.month);
    }
  }

  /** On equal-length digit strings, text order is numeric order. */
  lemma {:induction false} DigitOrder(a: string, b: string)
    requires |a| == |b| && AllDigits(a) && AllDigits(b)
    ensures CompareStrings(a, b) == CompareInts(ParseNat(a), ParseNat(b))
    decreases |a|
  {
    if |a| > 0 {
      var n := |a| - 1;
      var a', b' := a[..n], b[..n];
      assert a == a' + [a[n]] && b == b' + [b[n]];
      CompareStringsConcat(a', [a[n]], b', [b[n]]);
      DigitOrder(a', b');
      if a' != b' {
        CompareStringsEqual(a', b');
        var x, y := ParseNat(a'), ParseNat(b');
        assert x != y;
        if x < y {
          assert x * 10 + 10 <= y * 10;
        } else {
          assert y * 10 + 10 <= x * 10;
        }
      }
    }
  }

  /** Text of the form `Y-M-D` compares by `Y`, then `M`, then `D`. */
  lemma {:induction false} CompareDashed(y: string, m: string, d: string, y': string, m': string, d': string)
    requires |y| == |y'| && |m| == |m'|
    ensures CompareStrings(y + "-" + m + "-" + d, y' + "-" + m' + "-" + d') ==
              if y != y' then CompareStrings(y, y')
              else if m != m' then CompareStrings(m, m')
              else CompareStrings(d, d')
  {
    var r, r' := "-" + m + "-" + d, "-" + m' + "-" + d';
    assert y + "-" + m + "-" + d == y + r && y' + "-" + m' + "-" + d' == y' + r';
    CompareStringsConcat(y, r, y', r');
    var q, q' := m + "-" + d, m' + "-" + d';
    assert r == "-" + q && r' == "-" + q';
    CompareStringsConcat("-", q, "-", q');
    var t, t' := "-" + d, "-" + d';
    assert q == m + t && q' == m' + t';
    CompareStringsConcat(m, t, m', t');
    CompareStringsConcat("-", d, "-", d');
  }

  /** Comparing two well-formed date texts compares the fields they spell. */
  lemma TextOrderIsFieldOrder(a: DateText, b: DateText)
    ensures CompareStrings(a, b) == CompareDates(Parse(a), Parse(b))
  {
    assert a == a[..4] + "-" + a[5..7] + "-" + a[8..];
    assert b == b[..4] + "-" + b[5..7] + "-" + b[8..];
    CompareDashed(a[..4], a[5..7], a[8..], b[..4], b[5..7], b[8..]);
    DigitOrder(a[..4], b[..4]);
    DigitOrder(a[5..7], b[5..7]);
    DigitOrder(a[8..], b[8..]);
    CompareStringsEqual(a[..4], b[..4]);
    CompareStringsEqual(a[5..7], b[5..7]);
  }

  /** Comparing two due dates as text (what sorting by `due` does) agrees with
      comparing the days they name. */
  lemma TextOrderIsChronological(a: DateText, b: DateText)
    ensures CompareStrings(a, b) == CompareInts(DayNumber(Parse(a)), DayNumber(Parse(b)))
  {
    TextOrderIsFieldOrder(a, b);
    DayNumberOrder(Parse(a), Parse(b));
  }

  /** Hence `toDate(a).before(toDate(b))` holds exactly when `a` sorts before
      `b` as text. */
  lemma DateBeforeIsTextOrder(a: DateText, b: DateText)
    ensures DateBefore(a, b) <==> CompareStrings(a, b) == Less
  {
    TextOrderIsChronological(a, b);
  }

  /** A due date of today is already in the past at any instant after the
      midnight starting today; only that midnight itself accepts it. */
  lemma TodayIsInThePast(s: DateText, now: nat)
    requires DayOf(now) == DayNumber(Parse(s))
    ensures BeforeInstant(s, now) <==> now % MillisPerDay != 0
  {
  }

  /** A due date is in the past exactly when its day comes before the day of
      `now`, or is that day and `now` is past its midnight. */
  lemma BeforeInstantByDay(s: DateText, now: nat)
    ensures BeforeInstant(s, now) <==>
              DayNumber(Parse(s)) < DayOf(now)
              || (DayNumber(Parse(s)) == DayOf(now) && now % MillisPerDay != 0)
  {
  }
}
