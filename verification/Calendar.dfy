/** Timestamps and licence expiry: days to dates by two loops, rendered, compared as text. */
module Calendar {
  import opened Results
  import opened Decimals

  const SECONDS_PER_DAY := 86400

  /** The Gregorian rule (Appendix C of RFC 3339). */
  predicate IsLeap(y: nat) {
    (y % 4 == 0 && y % 100 != 0) || y % 400 == 0
  }

  function YearDays(y: nat): nat {
    if IsLeap(y) then 366 else 365
  }

  function MonthDays(y: nat): (days: seq<nat>)
    ensures |days| == 12 && forall m :: 0 <= m < 12 ==> 28 <= days[m] <= 31
  {
    [31, if IsLeap(y) then 29 else 28, 31, 30, 31, 30, 31, 31, 30, 31, 30, 31]
  }

  datatype Date = Date(year: nat, month: nat, day: nat)

  predicate Valid(d: Date) {
    1970 <= d.year && 1 <= d.month <= 12 && 1 <= d.day <= MonthDays(d.year)[d.month - 1]
  }

  // ─── Counting days ───

  /** Days from 1970 to the start of a year. */
  function DaysToYear(y: nat): nat {
    if y <= 1970 then 0 else DaysToYear(y - 1) + YearDays(y - 1)
  }

  /** Days from the start of the year to the start of its month `m` (counted from zero). */
  function DaysToMonth(y: nat, m: nat): nat
    requires m <= 12
  {
    if m == 0 then 0 else DaysToMonth(y, m - 1) + MonthDays(y)[m - 1]
  }

  function DayNumber(d: Date): nat
    requires Valid(d)
  {
    DaysToYear(d.year) + DaysToMonth(d.year, d.month - 1) + d.day - 1
  }

  // ─── Days to dates, as both loops do it ───

  function FindMonth(y: nat, days: nat, m: nat): (nat, nat)
    requires m <= 12
    decreases 12 - m
  {
    if m == 12 || days < MonthDays(y)[m] then (m, days) else FindMonth(y, days - MonthDays(y)[m], m + 1)
  }

  function FindYear(y: nat, days: nat): (nat, nat)
    decreases days
  {
    if days < YearDays(y) then (y, days) else FindYear(y + 1, days - YearDays(y))
  }

  function DateOf(days: nat): Date {
    var (y, rest) := FindYear(1970, days);
    var (m, left) := FindMonth(y, rest, 0);
    Date(y, m + 1, left + 1)
  }

  lemma {:induction false} TwelveMonths(y: nat)
    ensures DaysToMonth(y, 12) == YearDays(y)
  {
    assert DaysToMonth(y, 1) == 31;
    assert DaysToMonth(y, 2) == 31 + MonthDays(y)[1];
    assert DaysToMonth(y, 4) == DaysToMonth(y, 2) + 61;
    assert DaysToMonth(y, 6) == DaysToMonth(y, 4) + 61;
    assert DaysToMonth(y, 8) == DaysToMonth(y, 6) + 62;
    assert DaysToMonth(y, 10) == DaysToMonth(y, 8) + 61;
  }

  lemma {:induction false} MonthFound(y: nat, days: nat, m: nat)
    requires m <= 12 && DaysToMonth(y, m) + days < YearDays(y)
    ensures var (k, left) := FindMonth(y, days, m);
            m <= k < 12 && left < MonthDays(y)[k] && DaysToMonth(y, k) + left == DaysToMonth(y, m) + days
    decreases 12 - m
  {
    hide MonthDays, YearDays;
    if m == 12 {
      TwelveMonths(y);
    } else if days < MonthDays(y)[m] {
    } else {
      MonthFound(y, days - MonthDays(y)[m], m + 1);
    }
  }

  lemma {:induction false} YearFound(y: nat, days: nat)
    requires y >= 1970
    ensures var (k, rest) := FindYear(y, days);
            y <= k && rest < YearDays(k) && DaysToYear(k) + rest == DaysToYear(y) + days
    decreases days
  {
    if days < YearDays(y) {
    } else {
      YearFound(y + 1, days - YearDays(y));
    }
  }

  /** The licence's loop: the month is numbered when it is found. */
  method DaysToYmd(total: nat) returns (date: Date)
    ensures date == DateOf(total)
  {
    hide MonthDays, YearDays;
    var days: nat := total;
    var year := 1970;
    while days >= YearDays(year)
      invariant year >= 1970 && FindYear(1970, total) == FindYear(year, days)
      decreases days
    {
      YearNotEmpty(year);
      days := days - YearDays(year);
      year := year + 1;
    }
    YearFound(1970, total);
    MonthFound(year, days, 0);
    var monthDays := MonthDays(year);
    var month := 0;
    ghost var goal := FindMonth(year, days, 0);
    var i := 0;
    while i < 12
      invariant 0 <= i <= 12 && goal == FindMonth(year, days, i)
      invariant month == 0
    {
      if days < monthDays[i] {
        month := i + 1;
        break;
      }
      days := days - monthDays[i];
      i := i + 1;
    }
    date := Date(year, month, days + 1);
  }

  lemma YearNotEmpty(y: nat)
    ensures YearDays(y) > 0
  {
  }

  /** The command line's loop: the month is counted along. */
  method DaysToDate(total: nat) returns (date: Date)
    ensures date == DateOf(total)
  {
    hide MonthDays, YearDays;
    var d: nat := total;
    var year := 1970;
    while true
      invariant year >= 1970 && FindYear(1970, total) == FindYear(year, d)
      decreases d
    {
      var dy := YearDays(year);
      if d < dy {
        break;
      }
      YearNotEmpty(year);
      d := d - dy;
      year := year + 1;
    }
    var mdays := MonthDays(year);
    var month := 1;
    ghost var goal := FindMonth(year, d, 0);
    for i := 0 to 12
      invariant month == i + 1 && goal == FindMonth(year, d, i)
    {
      if d < mdays[i] {
        break;
      }
      d := d - mdays[i];
      month := month + 1;
    }
    date := Date(year, month, d + 1);
  }

  /** Every day number is a valid date, and counting that date's days gives the number back. */
  lemma DateCounts(days: nat)
    ensures Valid(DateOf(days)) && DayNumber(DateOf(days)) == days
  {
    hide MonthDays, YearDays;
    var (y, rest) := FindYear(1970, days);
    YearFound(1970, days);
    MonthFound(y, rest, 0);
  }

  // ─── Order ───

  /** Calendar order: year, then month, then day. */
  predicate Before(a: Date, b: Date) {
    a.year < b.year || (a.year == b.year && (a.month < b.month || (a.month == b.month && a.day < b.day)))
  }

  lemma {:induction false} YearsGrow(a: nat, b: nat)
    requires 1970 <= a < b
    ensures DaysToYear(a) + YearDays(a) <= DaysToYear(b)
    decreases b
  {
    hide YearDays;
    if a + 1 == b {
    } else {
      YearsGrow(a, b - 1);
    }
  }

  lemma {:induction false} MonthsGrow(y: nat, a: nat, b: nat)
    requires a < b <= 12
    ensures DaysToMonth(y, a) + MonthDays(y)[a] <= DaysToMonth(y, b)
    decreases b
  {
    hide MonthDays;
    if a + 1 == b {
    } else {
      MonthsGrow(y, a, b - 1);
    }
  }

  /** An earlier date has a smaller day number. */
  lemma NumberGrows(a: Date, b: Date)
    requires Valid(a) && Valid(b) && Before(a, b)
    ensures DayNumber(a) < DayNumber(b)
  {
    hide MonthDays, YearDays;
    TwelveMonths(a.year);
    MonthsGrow(a.year, a.month - 1, 12);
    if a.year < b.year {
      YearsGrow(a.year, b.year);
    } else if a.month < b.month {
      MonthsGrow(a.year, a.month - 1, b.month - 1);
    }
  }

  /** A valid date is the date of its day number: dates and day numbers match one to one, in order. */
  lemma DateIsFound(d: Date)
    requires Valid(d)
    ensures DateOf(DayNumber(d)) == d
  {
    hide Valid, DayNumber, DateOf;
    var found := DateOf(DayNumber(d));
    DateCounts(DayNumber(d));
    if Before(found, d) {
      NumberGrows(found, d);
    } else if Before(d, found) {
      NumberGrows(d, found);
    }
  }

  lemma DatesOrdered(a: nat, b: nat)
    ensures a < b <==> Before(DateOf(a), DateOf(b))
  {
    hide DateOf, Valid, DayNumber, Before;
    DateCounts(a);
    DateCounts(b);
    Trichotomy(DateOf(a), DateOf(b));
    if Before(DateOf(a), DateOf(b)) {
      NumberGrows(DateOf(a), DateOf(b));
    } else if Before(DateOf(b), DateOf(a)) {
      NumberGrows(DateOf(b), DateOf(a));
    }
  }

  lemma Trichotomy(a: Date, b: Date)
    ensures a == b || Before(a, b) || Before(b, a)
  {
  }

  /** Leap days before a year, by the Gregorian rule in closed form. */
  function LeapsBefore(y: nat): int
    requires y > 0
  {
    (y - 1) / 4 - (y - 1) / 100 + (y - 1) / 400
  }

  lemma LeapStep(y: nat)
    requires y > 0
    ensures LeapsBefore(y + 1) == LeapsBefore(y) + if IsLeap(y) then 1 else 0
  {
    Quotients(y, 4);
    Quotients(y, 100);
    Quotients(y, 400);
  }

  lemma Quotients(y: nat, n: nat)
    requires y > 0 && n in {4, 100, 400}
    ensures y / n == (y - 1) / n + if y % n == 0 then 1 else 0
  {
  }

  /** The loop's year starts agree with the closed-form count. */
  lemma {:induction false} YearStarts(y: nat)
    requires y >= 1970
    ensures DaysToYear(y) == 365 * (y - 1970) + LeapsBefore(y) - LeapsBefore(1970)
  {
    if y == 1970 {
    } else {
      YearStarts(y - 1);
      LeapStep(y - 1);
    }
  }

  // ─── Rendering ───

  /** Digits a year is written in: as many as it needs, and no fewer than four. */
  function YearWidth(y: nat): (w: nat)
    ensures w >= 4 && y < Power(w)
    ensures w > 4 ==> Power(w - 1) <= y
  {
    FourDigits();
    WidthFrom(y, 4)
  }

  lemma FourDigits()
    ensures Power(4) == 10000 && Power(2) == 100
  {
    assert Power(2) == 100;
  }

  datatype Instant = Instant(date: Date, hour: nat, minute: nat, second: nat)

  function InstantOf(secs: nat): Instant {
    var tod := secs % SECONDS_PER_DAY;
    Instant(DateOf(secs / SECONDS_PER_DAY), tod / 3600, tod % 3600 / 60, tod % 60)
  }

  function Clock(t: Instant): string {
    Pad(t.hour, 2) + (":" + (Pad(t.minute, 2) + (":" + (Pad(t.second, 2) + "Z"))))
  }

  function AfterYear(t: Instant): string {
    "-" + (Pad(t.date.month, 2) + ("-" + (Pad(t.date.day, 2) + ("T" + Clock(t)))))
  }

  function YearText(t: Instant): string {
    Pad(t.date.year, YearWidth(t.date.year))
  }

  function Render(secs: nat): string {
    YearText(InstantOf(secs)) + AfterYear(InstantOf(secs))
  }

  // ─── Comparing text ───

  /** String order, as the language compares text. */
  predicate AtMost(a: string, b: string) {
    a == "" || (b != "" && (a[0] < b[0] || (a[0] == b[0] && AtMost(a[1..], b[1..]))))
  }

  /** A licence with no expiry is perpetual; otherwise text order decides. */
  predicate Accepts(expires: Option<string>, now: string) {
    expires.None? || AtMost(now, expires.value)
  }

  /** Equal-length fronts decide, unless they are equal. */
  lemma {:induction false} FrontDecides(p: string, q: string, a: string, b: string)
    requires |p| == |q|
    ensures AtMost(p + a, q + b) <==> if p == q then AtMost(a, b) else AtMost(p, q)
  {
    if p == "" {
      assert p + a == a && q + b == b;
    } else {
      assert (p + a)[1..] == p[1..] + a && (q + b)[1..] == q[1..] + b;
      assert p == q <==> p[0] == q[0] && p[1..] == q[1..];
      FrontDecides(p[1..], q[1..], a, b);
    }
  }

  /** Numbers in the same number of digits compare as text as they do as numbers. */
  lemma {:induction false} PadOrder(m: nat, n: nat, w: nat)
    requires m < Power(w) && n < Power(w)
    ensures (AtMost(Pad(m, w), Pad(n, w)) <==> m <= n) && (Pad(m, w) == Pad(n, w) <==> m == n)
    decreases w
  {
    hide Power;
    if w == 0 {
      assert Power(0) == 1 by {
        PowerZero();
      }
    } else {
      TenTimes(m, w);
      TenTimes(n, w);
      PadOrder(m / 10, n / 10, w - 1);
      var x, y := [DigitChar(m % 10)], [DigitChar(n % 10)];
      FrontDecides(Pad(m / 10, w - 1), Pad(n / 10, w - 1), x, y);
      assert AtMost(x, y) <==> m % 10 <= n % 10;
      SplitEqual(Pad(m / 10, w - 1), Pad(n / 10, w - 1), x, y);
    }
  }

  lemma SplitEqual(p: string, q: string, a: string, b: string)
    requires |p| == |q|
    ensures p + a == q + b <==> p == q && a == b
  {
    if p + a == q + b {
      assert (p + a)[..|p|] == p && (q + b)[..|p|] == q;
      assert (p + a)[|p|..] == a && (q + b)[|p|..] == b;
    }
  }

  /** A fixed-width field decides unless both are equal, and then what follows does. */
  lemma FieldDecides(m: nat, n: nat, w: nat, a: string, b: string)
    requires m < Power(w) && n < Power(w)
    ensures AtMost(Pad(m, w) + a, Pad(n, w) + b) <==> m < n || (m == n && AtMost(a, b))
  {
    PadOrder(m, n, w);
    FrontDecides(Pad(m, w), Pad(n, w), a, b);
  }

  lemma SameMark(c: char, a: string, b: string)
    ensures AtMost([c] + a, [c] + b) <==> AtMost(a, b)
  {
    FrontDecides([c], [c], a, b);
  }

  // ─── Expiry ───

  lemma ClockInRange(secs: nat)
    ensures var t := InstantOf(secs);
            t.hour < 24 && t.minute < 60 && t.second < 60 &&
            secs % SECONDS_PER_DAY == t.hour * 3600 + t.minute * 60 + t.second &&
            Valid(t.date) && t.date.month < 100 && t.date.day < 100
  {
    hide DateOf, Valid, DayNumber;
    DateCounts(secs / SECONDS_PER_DAY);
    ShortFields(DateOf(secs / SECONDS_PER_DAY));
  }

  lemma ShortFields(d: Date)
    requires Valid(d)
    ensures d.month < 100 && d.day < 100
  {
  }

  lemma ClockOrder(a: Instant, b: Instant)
    requires a.hour < 100 && a.minute < 60 && a.second < 60 && b.hour < 100 && b.minute < 60 && b.second < 60
    ensures AtMost(Clock(a), Clock(b)) <==>
            a.hour * 3600 + a.minute * 60 + a.second <= b.hour * 3600 + b.minute * 60 + b.second
  {
    hide AtMost, Pad;
    FourDigits();
    var a3, b3 := Pad(a.second, 2) + "Z", Pad(b.second, 2) + "Z";
    var a2, b2 := Pad(a.minute, 2) + (":" + a3), Pad(b.minute, 2) + (":" + b3);
    FieldDecides(a.second, b.second, 2, "Z", "Z");
    SameMark('Z', "", "");
    NothingAtMost("");
    SameMark(':', a3, b3);
    FieldDecides(a.minute, b.minute, 2, ":" + a3, ":" + b3);
    SameMark(':', a2, b2);
    FieldDecides(a.hour, b.hour, 2, ":" + a2, ":" + b2);
    assert "Z" == ['Z'] + "";
  }

  lemma NothingAtMost(b: string)
    ensures AtMost("", b)
  {
  }

  lemma AfterYearOrder(a: Instant, b: Instant)
    requires a.date.month < 100 && a.date.day < 100 && b.date.month < 100 && b.date.day < 100
    ensures AtMost(AfterYear(a), AfterYear(b)) <==>
            a.date.month < b.date.month ||
            (a.date.month == b.date.month &&
             (a.date.day < b.date.day || (a.date.day == b.date.day && AtMost(Clock(a), Clock(b)))))
  {
    hide AtMost, Pad, Clock;
    FourDigits();
    var a3, b3 := "T" + Clock(a), "T" + Clock(b);
    var a2, b2 := Pad(a.date.day, 2) + a3, Pad(b.date.day, 2) + b3;
    var a1, b1 := Pad(a.date.month, 2) + ("-" + a2), Pad(b.date.month, 2) + ("-" + b2);
    SameMark('T', Clock(a), Clock(b));
    FieldDecides(a.date.day, b.date.day, 2, a3, b3);
    SameMark('-', a2, b2);
    FieldDecides(a.date.month, b.date.month, 2, "-" + a2, "-" + b2);
    SameMark('-', a1, b1);
  }

  /**
   A licence that expires at one rendered instant accepts another exactly when that one is not later, whenever both
   years take the same number of digits (section 5.1 of RFC 3339).
   */
  lemma ExpiryOrders(now: nat, expires: nat)
    requires YearWidth(InstantOf(now).date.year) == YearWidth(InstantOf(expires).date.year)
    ensures Accepts(Some(Render(expires)), Render(now)) <==> now <= expires
  {
    hide AtMost, Pad, Clock, AfterYear, YearWidth, DateOf, Valid;
    var a, b := InstantOf(now), InstantOf(expires);
    ClockInRange(now);
    ClockInRange(expires);
    ClockOrder(a, b);
    AfterYearOrder(a, b);
    FieldDecides(a.date.year, b.date.year, YearWidth(a.date.year), AfterYear(a), AfterYear(b));
    DatesOrdered(now / SECONDS_PER_DAY, expires / SECONDS_PER_DAY);
    DatesOrdered(expires / SECONDS_PER_DAY, now / SECONDS_PER_DAY);
  }

  /** For all instants up to the end of year 9999; a licence without an expiry accepts them all. */
  lemma ExpiryTo9999(now: nat, expires: nat)
    requires InstantOf(now).date.year <= 9999 && InstantOf(expires).date.year <= 9999
    ensures Accepts(Some(Render(expires)), Render(now)) <==> now <= expires
    ensures Accepts(None, Render(now))
  {
    hide InstantOf, Render, AtMost;
    FourDigits();
    assert YearWidth(InstantOf(now).date.year) == YearWidth(InstantOf(expires).date.year) == 4;
    ExpiryOrders(now, expires);
  }

  // ─── Past year 9999 ───

  /** A year that takes more digits is later. */
  lemma WiderYearIsLater(a: nat, b: nat)
    requires YearWidth(a) < YearWidth(b)
    ensures a < b
  {
    PowersGrow(YearWidth(a), YearWidth(b) - 1);
  }

  /** With years of different lengths, the years' text alone decides. */
  lemma YearTextDecides(a: Instant, b: Instant)
    requires |YearText(a)| != |YearText(b)|
    ensures AtMost(YearText(a) + AfterYear(a), YearText(b) + AfterYear(b)) <==> AtMost(YearText(a), YearText(b))
  {
    hide Pad, Clock, YearWidth;
    var p, q := YearText(a), YearText(b);
    var k := if |p| < |q| then |p| else |q|;
    assert p == p[..k] + p[k..] && q == q[..k] + q[k..];
    assert p + AfterYear(a) == p[..k] + (p[k..] + AfterYear(a)) && q + AfterYear(b) == q[..k] + (q[k..] + AfterYear(b));
    FrontDecides(p[..k], q[..k], p[k..] + AfterYear(a), q[k..] + AfterYear(b));
    FrontDecides(p[..k], q[..k], p[k..], q[k..]);
    if |p| < |q| {
      assert (p[k..] + AfterYear(a))[0] == '-' && (q[k..] + AfterYear(b))[0] == q[k];
    } else {
      assert (q[k..] + AfterYear(b))[0] == '-' && (p[k..] + AfterYear(a))[0] == p[k];
    }
  }

  lemma DivideTwice(n: nat, p: nat)
    requires p > 0
    ensures n / 10 / p == n / (10 * p)
  {
    var q := n / 10 / p;
    assert q * p <= n / 10 < q * p + p;
    assert 10 * (q * p) <= n < 10 * (q * p) + 10 * p;
    assert q * (10 * p) == 10 * (q * p);
    QuotientIs(n, 10 * p, q);
  }

  lemma QuotientIs(n: nat, d: nat, q: nat)
    requires d > 0 && q * d <= n < q * d + d
    ensures n / d == q
  {
    var r := n / d;
    assert r * d <= n < r * d + d;
    ProductsOrdered(r + 1, q, d);
    ProductsOrdered(q + 1, r, d);
  }

  lemma ProductsOrdered(a: nat, b: nat, d: nat)
    ensures a <= b ==> a * d <= b * d
  {
  }

  lemma PadStep(n: nat, w: nat)
    requires w > 0
    ensures Pad(n, w) == Pad(n / 10, w - 1) + [DigitChar(n % 10)]
  {
  }

  lemma FrontOf(a: string, b: string, k: nat)
    requires k <= |a|
    ensures (a + b)[..k] == a[..k]
  {
  }

  /** Cutting off one digit and then the rest is cutting off all at once. */
  lemma CutTwice(n: nat, dropped: nat)
    ensures n / 10 / Power(dropped) == n / Power(dropped + 1)
  {
    hide Power;
    PowerStep(dropped + 1);
    DivideTwice(n, Power(dropped));
  }

  /** The first digits of a number are the number cut short. */
  lemma {:induction false} PadFront(n: nat, w: nat, k: nat)
    requires k <= w && n < Power(w)
    ensures Pad(n, w)[..k] == Pad(n / Power(w - k), k) && n / Power(w - k) < Power(k)
    decreases w - k
  {
    hide Power, Pad;
    if k == w {
      PowerZero();
      assert Pad(n, w)[..k] == Pad(n, w);
    } else {
      TenTimes(n, w);
      PadFront(n / 10, w - 1, k);
      CutTwice(n, w - 1 - k);
      PadStep(n, w);
      FrontOf(Pad(n / 10, w - 1), [DigitChar(n % 10)], k);
    }
  }

  lemma PowerStep(w: nat)
    requires w > 0
    ensures Power(w) == 10 * Power(w - 1)
  {
  }

  /** The number a year's text spells without its last `dropped` digits. */
  function Leading(year: nat, dropped: nat): int {
    year / Power(dropped)
  }

  lemma YearFits(year: nat)
    ensures year < Power(YearWidth(year))
  {
  }

  /** A shorter year comes first as text exactly when it is not over the longer year's first digits. */
  lemma ShorterYearFirst(s: nat, l: nat)
    requires YearWidth(s) < YearWidth(l)
    ensures var p, q := Pad(s, YearWidth(s)), Pad(l, YearWidth(l));
            var lead := Leading(l, YearWidth(l) - YearWidth(s));
            (AtMost(p, q) <==> s <= lead) && (AtMost(q, p) <==> lead < s)
  {
    hide Power, Pad, YearWidth;
    var w := YearWidth(s);
    YearFits(s);
    YearFits(l);
    var p, q := Pad(s, w), Pad(l, YearWidth(l));
    var lead := Leading(l, YearWidth(l) - w);
    PadFront(l, YearWidth(l), w);
    assert q == Pad(lead, w) + q[w..] && p == p + "" && q[w..] != "";
    FrontDecides(p, Pad(lead, w), "", q[w..]);
    FrontDecides(Pad(lead, w), p, q[w..], "");
    PadOrder(s, lead, w);
    PadOrder(lead, s, w);
  }

  /**
   Exactly when the text comparison is right: the years take the same number of digits, or the shorter one is not
   over the number that the longer one's first digits spell.
   */
  lemma ExpiryRightExactly(now: nat, expires: nat)
    ensures var a, b := InstantOf(now).date.year, InstantOf(expires).date.year;
            var v, w := YearWidth(a), YearWidth(b);
            (Accepts(Some(Render(expires)), Render(now)) <==> now <= expires) <==>
            (v == w || (v < w && a <= Leading(b, w - v)) || (w < v && b <= Leading(a, v - w)))
  {
    hide AtMost, Pad, AfterYear, YearWidth, DateOf, Before, Leading;
    var a, b := InstantOf(now), InstantOf(expires);
    if YearWidth(a.date.year) == YearWidth(b.date.year) {
      ExpiryOrders(now, expires);
    } else {
      YearTextDecides(a, b);
      LaterYearLaterInstant(now, expires);
      LaterYearLaterInstant(expires, now);
      if YearWidth(a.date.year) < YearWidth(b.date.year) {
        WiderYearIsLater(a.date.year, b.date.year);
        ShorterYearFirst(a.date.year, b.date.year);
      } else {
        WiderYearIsLater(b.date.year, a.date.year);
        ShorterYearFirst(b.date.year, a.date.year);
      }
    }
  }

  lemma LaterYearLaterInstant(s: nat, t: nat)
    ensures InstantOf(s).date.year < InstantOf(t).date.year ==> s < t
  {
    hide DateOf;
    DatesOrdered(s / SECONDS_PER_DAY, t / SECONDS_PER_DAY);
  }

  const YEAR_10000_DAY := 2932897

  lemma Year10000()
    ensures InstantOf(YEAR_10000_DAY * SECONDS_PER_DAY).date == Date(10000, 1, 1)
  {
    hide DateOf;
    YearStarts(10000);
    assert DaysToMonth(10000, 0) == 0;
    DateIsFound(Date(10000, 1, 1));
  }

  lemma PadOne(d: nat)
    ensures Pad(d, 1) == [DigitChar(d % 10)]
  {
    assert Pad(d, 1) == Pad(d / 10, 0) + [DigitChar(d % 10)];
  }

  lemma OneDigit(d: nat)
    requires d < 10
    ensures Pad(d, 1) == [DigitChar(d)]
  {
    hide Pad, Power;
    PadOne(d);
  }

  /** The first of a number's digits. */
  lemma LeadingDigit(n: nat, w: nat, d: nat)
    requires w > 0 && d < 10 && n < Power(w) && n / Power(w - 1) == d
    ensures Pad(n, w)[0] == DigitChar(d)
  {
    hide Power, Pad;
    PadFront(n, w, 1);
    OneDigit(d);
    assert Pad(n, w)[0] == Pad(n, w)[..1][0];
  }

  /** The first second of year 10000 is accepted by every licence that expired in the eight millennia before. */
  lemma LaterYetAccepted(expires: nat)
    requires 2000 <= InstantOf(expires).date.year <= 9999
    ensures expires < YEAR_10000_DAY * SECONDS_PER_DAY
    ensures Accepts(Some(Render(expires)), Render(YEAR_10000_DAY * SECONDS_PER_DAY))
  {
    hide AfterYear, DateOf, Before, Pad;
    var now := YEAR_10000_DAY * SECONDS_PER_DAY;
    var y := InstantOf(expires).date.year;
    Year10000();
    LaterYearLaterInstant(expires, now);
    FourDigits();
    assert Power(5) == 100000 && Power(4) == 10000 && Power(3) == 1000;
    PowersGrow(5, YearWidth(10000));
    assert YearWidth(10000) == 5;
    assert YearWidth(y) == 4;
    LeadingDigit(10000, 5, 1);
    LeadingDigit(y, 4, y / 1000);
    assert Render(now)[0] == '1' && Render(expires)[0] >= '2';
  }
  // ─── The Gregorian calendar in closed form ───

  /** Days of the year before month `m`, counted from zero: from March on, 153 days every five months. */
  function MonthStart(leap: bool, m: nat): int {
    if m < 2 then 31 * m else (153 * (m - 2) + 2) / 5 + (if leap then 60 else 59)
  }

  lemma {:induction false} MonthStarts(y: nat, m: nat)
    requires m <= 12
    ensures DaysToMonth(y, m) == MonthStart(IsLeap(y), m)
  {
    if m == 0 {
    } else {
      MonthStarts(y, m - 1);
      MonthLength(y, m - 1);
    }
  }

  lemma MonthLength(y: nat, m: nat)
    requires m < 12
    ensures MonthDays(y)[m] == MonthStart(IsLeap(y), m + 1) - MonthStart(IsLeap(y), m)
  {
  }

  /** The day number of every date, by the calendar's closed form: no month table, no loop. */
  lemma CivilDays(d: Date)
    requires Valid(d)
    ensures var y := d.year;
            var leap := (y % 4 == 0 && y % 100 != 0) || y % 400 == 0;
            DayNumber(d) == 365 * (y - 1970) + (y - 1) / 4 - (y - 1) / 100 + (y - 1) / 400 - 477 +
                            MonthStart(leap, d.month - 1) + d.day - 1
  {
    hide DaysToYear, DaysToMonth, MonthDays, MonthStart;
    YearStarts(d.year);
    MonthStarts(d.year, d.month - 1);
  }

  lemma FourDigitYear(y: nat)
    requires y < 10000
    ensures YearWidth(y) == 4 && Power(4) == 10000
  {
    FourDigits();
  }

  lemma TwoPlaces(n: nat)
    requires n < 100
    ensures n < Power(2)
  {
    assert Power(1) == 10 * Power(0);
  }

  /** The digits from `i` up to `j` spell `n`. */
  ghost predicate Spells(s: string, i: nat, j: nat, n: nat) {
    i <= j <= |s| && IsDigits(s[i..j]) && Number(s[i..j]) == n
  }

  /** A field of two characters, its separator before it, and the rest. */
  lemma FieldAt(before: string, mark: string, field: string, rest: string)
    requires |mark| == 1 && |field| == 2
    ensures var t := before + (mark + (field + rest));
            t == before + mark + field + rest && t[|before|] == mark[0] && t[|before| + 1..|before| + 3] == field
  {
  }

  lemma Spaced(y: string, mo: string, d: string, h: string, mi: string, s: string)
    requires |y| == 4 && |mo| == |d| == |h| == |mi| == |s| == 2
    ensures var t := y + ("-" + (mo + ("-" + (d + ("T" + (h + (":" + (mi + (":" + (s + "Z"))))))))));
            |t| == 20 && t[4] == '-' && t[7] == '-' && t[10] == 'T' && t[13] == ':' && t[16] == ':' && t[19] == 'Z' &&
            t[0..4] == y && t[5..7] == mo && t[8..10] == d && t[11..13] == h && t[14..16] == mi && t[17..19] == s
  {
    FieldAt(y, "-", mo, "-" + (d + ("T" + (h + (":" + (mi + (":" + (s + "Z"))))))));
    FieldAt(y + "-" + mo, "-", d, "T" + (h + (":" + (mi + (":" + (s + "Z"))))));
    FieldAt(y + "-" + mo + "-" + d, "T", h, ":" + (mi + (":" + (s + "Z"))));
    FieldAt(y + "-" + mo + "-" + d + "T" + h, ":", mi, ":" + (s + "Z"));
    FieldAt(y + "-" + mo + "-" + d + "T" + h + ":" + mi, ":", s, "Z");
  }

  /** Every instant before year 10000, place by place: date and time of day read back from the rendered text. */
  lemma Rendered(secs: nat)
    requires DateOf(secs / 86400).year < 10000
    ensures var d, tod, s := DateOf(secs / 86400), secs % 86400, Render(secs);
            |s| == 20 && s[4] == '-' && s[7] == '-' && s[10] == 'T' && s[13] == ':' && s[16] == ':' && s[19] == 'Z' &&
            Spells(s, 0, 4, d.year) && Spells(s, 5, 7, d.month) && Spells(s, 8, 10, d.day) &&
            Spells(s, 11, 13, tod / 3600) && Spells(s, 14, 16, tod % 3600 / 60) && Spells(s, 17, 19, tod % 60)
  {
    hide Pad, DateOf, YearWidth, Number, IsDigits, Power;
    var d, tod := DateOf(secs / 86400), secs % 86400;
    DateCounts(secs / 86400);
    FourDigitYear(d.year);
    PadReads(d.year, 4);
    Spaced(Pad(d.year, 4), Pad(d.month, 2), Pad(d.day, 2), Pad(tod / 3600, 2), Pad(tod % 3600 / 60, 2), Pad(tod % 60,
                                                                                                            2));
    TwoRead(d.month);
    TwoRead(d.day);
    TwoRead(tod / 3600);
    TwoRead(tod % 3600 / 60);
    TwoRead(tod % 60);
    PadIsDigits(d.year, 4);
  }

  lemma TwoRead(n: nat)
    requires n < 100
    ensures IsDigits(Pad(n, 2)) && Number(Pad(n, 2)) == n
  {
    TwoPlaces(n);
    PadReads(n, 2);
  }

  lemma PadIsDigits(n: nat, w: nat)
    ensures IsDigits(Pad(n, w))
  {
  }
}
