/** Strings compared character by character, as the database compares TEXT
    columns in the C collation and Python compares `str`. */
module Text {

  predicate LexLess(a: string, b: string) {
    b != [] && (a == [] || a[0] < b[0] || (a[0] == b[0] && LexLess(a[1..], b[1..])))
  }

  lemma {:induction false} LexTotal(a: string, b: string)
    ensures a != b ==> LexLess(a, b) || LexLess(b, a)
    ensures !(LexLess(a, b) && LexLess(b, a))
    ensures LexLess(a, b) ==> a != b
    decreases |a|
  {
    if a != [] && b != [] {
      LexTotal(a[1..], b[1..]);
      assert a == [a[0]] + a[1..] && b == [b[0]] + b[1..];
    }
  }

  lemma {:induction false} LexTransitive(a: string, b: string, c: string)
    requires LexLess(a, b) && LexLess(b, c)
    ensures LexLess(a, c)
    decreases |a|
  {
    if a != [] && a[0] == b[0] && b[0] == c[0] {
      LexTransitive(a[1..], b[1..], c[1..]);
    }
  }

  /** Fields of equal width decide first; equal fields leave it to the rest. */
  lemma {:induction false} LexFields(p: string, a: string, q: string, b: string)
    requires |p| == |q|
    ensures LexLess(p + a, q + b) <==> LexLess(p, q) || (p == q && LexLess(a, b))
    decreases |p|
  {
    if p == [] {
      assert p + a == a && q + b == b;
    } else {
      LexFields(p[1..], a, q[1..], b);
      assert (p + a)[1..] == p[1..] + a && (q + b)[1..] == q[1..] + b;
      assert p == [p[0]] + p[1..] && q == [q[0]] + q[1..];
    }
  }
}

/** Instants as the tables store them: `isoformat` of a UTC datetime, which
    leaves the microseconds out when they are zero
    (backend/app/events/store.py `_iso`). */
module IsoTime {
  import opened Text

  datatype DateTime = DateTime(year: int, month: int, day: int, hour: int, minute: int, second: int, micro: int)

  predicate Leap(y: int) { y % 4 == 0 && (y % 100 != 0 || y % 400 == 0) }

  function YearLength(y: int): int { if Leap(y) then 366 else 365 }

  function MonthLength(y: int, m: int): int {
    if m == 2 then (if Leap(y) then 29 else 28)
    else if m == 4 || m == 6 || m == 9 || m == 11 then 30
    else 31
  }

  predicate Valid(d: DateTime) {
    && 1 <= d.year <= 9999 && 1 <= d.month <= 12 && 1 <= d.day <= MonthLength(d.year, d.month)
    && 0 <= d.hour < 24 && 0 <= d.minute < 60 && 0 <= d.second < 60 && 0 <= d.micro < 1_000_000
  }

  // ---- the instant a datetime stands for ---------------------------------

  function DaysBeforeYear(y: nat): int {
    if y <= 1 then 0 else DaysBeforeYear(y - 1) + YearLength(y - 1)
  }

  function DaysBeforeMonth(y: int, m: nat): int {
    if m <= 1 then 0 else DaysBeforeMonth(y, m - 1) + MonthLength(y, m - 1)
  }

  function Days(d: DateTime): int
    requires Valid(d)
  {
    DaysBeforeYear(d.year) + DaysBeforeMonth(d.year, d.month) + d.day
  }

  /** Microseconds since midnight before 1 January of year 1, less a day. */
  function Instant(d: DateTime): int
    requires Valid(d)
  {
    (((Days(d) * 24 + d.hour) * 60 + d.minute) * 60 + d.second) * 1_000_000 + d.micro
  }

  lemma {:induction false} YearsMonotone(y: nat, z: nat)
    requires 1 <= y < z
    ensures DaysBeforeYear(y) + YearLength(y) <= DaysBeforeYear(z)
    decreases z
  {
    if y < z - 1 {
      YearsMonotone(y, z - 1);
    }
  }

  lemma {:induction false} MonthsMonotone(y: int, m: nat, n: nat)
    requires 1 <= m < n
    ensures DaysBeforeMonth(y, m) + MonthLength(y, m) <= DaysBeforeMonth(y, n)
    decreases n
  {
    if m < n - 1 {
      MonthsMonotone(y, m, n - 1);
    }
  }

  lemma MonthsInYear(y: int, m: nat)
    requires 1 <= m <= 12
    ensures 0 <= DaysBeforeMonth(y, m)
    ensures DaysBeforeMonth(y, m) + MonthLength(y, m) <= YearLength(y)
  {
    assert DaysBeforeMonth(y, 1) == 0;
    assert DaysBeforeMonth(y, 2) == 31;
    assert DaysBeforeMonth(y, 3) == 31 + MonthLength(y, 2);
    assert DaysBeforeMonth(y, 4) == 62 + MonthLength(y, 2);
    assert DaysBeforeMonth(y, 5) == 92 + MonthLength(y, 2);
    assert DaysBeforeMonth(y, 6) == 123 + MonthLength(y, 2);
    assert DaysBeforeMonth(y, 7) == 153 + MonthLength(y, 2);
    assert DaysBeforeMonth(y, 8) == 184 + MonthLength(y, 2);
    assert DaysBeforeMonth(y, 9) == 215 + MonthLength(y, 2);
    assert DaysBeforeMonth(y, 10) == 245 + MonthLength(y, 2);
    assert DaysBeforeMonth(y, 11) == 276 + MonthLength(y, 2);
    assert DaysBeforeMonth(y, 12) == 306 + MonthLength(y, 2);
    if m < 12 {
      MonthsMonotone(y, m, 12);
    }
    if m > 1 {
      MonthsMonotone(y, 1, m);
    }
  }

  predicate DayBefore(a: DateTime, b: DateTime) {
    a.year < b.year || (a.year == b.year && (a.month < b.month || (a.month == b.month && a.day < b.day)))
  }

  function SecondOfDay(d: DateTime): int { (d.hour * 60 + d.minute) * 60 + d.second }

  lemma DaysFollowDates(a: DateTime, b: DateTime)
    requires Valid(a) && Valid(b) && DayBefore(a, b)
    ensures Days(a) < Days(b)
  {
    MonthsInYear(a.year, a.month);
    MonthsInYear(b.year, b.month);
    if a.year < b.year {
      YearsMonotone(a.year, b.year);
    } else if a.month < b.month {
      MonthsMonotone(a.year, a.month, b.month);
    }
  }

  // ---- text --------------------------------------------------------------

  function Digit(n: int): char
    requires 0 <= n < 10
  {
    '0' + n as char
  }

  function Pow10(w: nat): (p: int)
    ensures p > 0
  {
    if w == 0 then 1 else 10 * Pow10(w - 1)
  }

  /** The `w` low decimal digits of `n`, most significant first. */
  function Digits(n: nat, w: nat): (s: string)
    ensures |s| == w
  {
    if w == 0 then "" else Digits(n / 10, w - 1) + [Digit(n % 10)]
  }

  lemma {:induction false} DigitsOrder(m: nat, n: nat, w: nat)
    requires m < Pow10(w) && n < Pow10(w)
    ensures LexLess(Digits(m, w), Digits(n, w)) <==> m < n
    ensures Digits(m, w) == Digits(n, w) <==> m == n
    decreases w
  {
    if w > 0 {
      DigitsOrder(m / 10, n / 10, w - 1);
      var p, q := Digits(m / 10, w - 1), Digits(n / 10, w - 1);
      var a, b := [Digit(m % 10)], [Digit(n % 10)];
      LexFields(p, a, q, b);
      assert LexLess(a, b) <==> m % 10 < n % 10;
      assert Digits(m, w)[w - 1] == a[0] && Digits(n, w)[w - 1] == b[0];
      assert Digits(m, w)[..w - 1] == p && Digits(n, w)[..w - 1] == q;
    }
  }

  /** Seconds' fraction, if any, and what ends the text. */
  function Tail(d: DateTime, end: string): string
    requires 0 <= d.micro
  {
    (if d.micro == 0 then "" else "." + Digits(d.micro, 6)) + end
  }

  function Clock(d: DateTime, end: string): string
    requires Valid(d)
  {
    Digits(d.hour, 2) + (":" + (Digits(d.minute, 2) + (":" + (Digits(d.second, 2) + Tail(d, end)))))
  }

  function Written(d: DateTime, end: string): string
    requires Valid(d)
  {
    Digits(d.year, 4) + ("-" + (Digits(d.month, 2) + ("-" + (Digits(d.day, 2) + ("T" + Clock(d, end))))))
  }

  const UTC := "+00:00"

  function Iso(d: DateTime): string
    requires Valid(d)
  {
    Written(d, UTC)
  }

  /** The same as a JSON string, as the settings table stores a marker. */
  function Json(d: DateTime): string
    requires Valid(d)
  {
    "\"" + Written(d, UTC + "\"")
  }

  /** One numeric field and what follows it. */
  lemma Field(m: nat, n: nat, w: nat, a: string, b: string)
    requires m < Pow10(w) && n < Pow10(w)
    ensures LexLess(Digits(m, w) + a, Digits(n, w) + b) <==> m < n || (m == n && LexLess(a, b))
  {
    DigitsOrder(m, n, w);
    LexFields(Digits(m, w), a, Digits(n, w), b);
  }

  lemma Separator(c: string, a: string, b: string)
    requires |c| == 1
    ensures LexLess(c + a, c + b) <==> LexLess(a, b)
  {
    LexFields(c, a, c, b);
    LexTotal(c, c);
  }

  lemma Million()
    ensures Pow10(6) == 1_000_000
  {
    assert Pow10(3) == 1000;
    assert Pow10(6) == 1000 * Pow10(3);
  }

  lemma TailStart(d: DateTime, end: string)
    requires 0 <= d.micro && UTC <= end
    ensures d.micro == 0 ==> Tail(d, end) == end && end[0] == '+'
    ensures d.micro != 0 ==> Tail(d, end) == "." + (Digits(d.micro, 6) + end)
  {
    assert "" + end == end && end[0] == UTC[0];
    assert "." + Digits(d.micro, 6) + end == "." + (Digits(d.micro, 6) + end);
  }

  /** A fraction sorts after none: '+' comes before '.'. */
  lemma HeadsDecide(a: string, b: string)
    requires a != [] && b != [] && a[0] != b[0]
    ensures LexLess(a, b) <==> a[0] < b[0]
  {
  }

  lemma FractionOrder(m: nat, n: nat, end: string)
    requires m < 1_000_000 && n < 1_000_000
    ensures LexLess("." + (Digits(m, 6) + end), "." + (Digits(n, 6) + end)) <==> m < n
  {
    Million();
    LexTotal(end, end);
    Field(m, n, 6, end, end);
    Separator(".", Digits(m, 6) + end, Digits(n, 6) + end);
  }

  lemma TailOrder(a: DateTime, b: DateTime, end: string)
    requires 0 <= a.micro < 1_000_000 && 0 <= b.micro < 1_000_000 && UTC <= end
    ensures LexLess(Tail(a, end), Tail(b, end)) <==> a.micro < b.micro
  {
    TailStart(a, end);
    TailStart(b, end);
    if a.micro != 0 && b.micro != 0 {
      FractionOrder(a.micro, b.micro, end);
    } else if a.micro == 0 && b.micro == 0 {
      LexTotal(end, end);
    } else {
      HeadsDecide(Tail(a, end), Tail(b, end));
    }
  }

  lemma ClockOrder(a: DateTime, b: DateTime, end: string)
    requires Valid(a) && Valid(b) && UTC <= end
    ensures LexLess(Clock(a, end), Clock(b, end)) <==>
            SecondOfDay(a) < SecondOfDay(b) || (SecondOfDay(a) == SecondOfDay(b) && a.micro < b.micro)
  {
    assert Pow10(2) == 100;
    TailOrder(a, b, end);
    var sa, sb := Digits(a.second, 2) + Tail(a, end), Digits(b.second, 2) + Tail(b, end);
    Field(a.second, b.second, 2, Tail(a, end), Tail(b, end));
    Separator(":", sa, sb);
    var ma, mb := Digits(a.minute, 2) + (":" + sa), Digits(b.minute, 2) + (":" + sb);
    Field(a.minute, b.minute, 2, ":" + sa, ":" + sb);
    Separator(":", ma, mb);
    Field(a.hour, b.hour, 2, ":" + ma, ":" + mb);
  }

  ghost predicate FieldsBefore(a: DateTime, b: DateTime) {
    || DayBefore(a, b)
    || (a.year == b.year && a.month == b.month && a.day == b.day &&
        (SecondOfDay(a) < SecondOfDay(b) || (SecondOfDay(a) == SecondOfDay(b) && a.micro < b.micro)))
  }

  lemma TextOrder(a: DateTime, b: DateTime, end: string)
    requires Valid(a) && Valid(b) && UTC <= end
    ensures LexLess(Written(a, end), Written(b, end)) <==> FieldsBefore(a, b)
  {
    assert Pow10(2) == 100 && Pow10(4) == 10000 by { assert Pow10(4) == 100 * Pow10(2); }
    ClockOrder(a, b, end);
    Separator("T", Clock(a, end), Clock(b, end));
    var da, db := Digits(a.day, 2) + ("T" + Clock(a, end)), Digits(b.day, 2) + ("T" + Clock(b, end));
    Field(a.day, b.day, 2, "T" + Clock(a, end), "T" + Clock(b, end));
    Separator("-", da, db);
    var ma, mb := Digits(a.month, 2) + ("-" + da), Digits(b.month, 2) + ("-" + db);
    Field(a.month, b.month, 2, "-" + da, "-" + db);
    Separator("-", ma, mb);
    Field(a.year, b.year, 4, "-" + ma, "-" + mb);
  }

  lemma InstantOrder(a: DateTime, b: DateTime)
    requires Valid(a) && Valid(b)
    ensures FieldsBefore(a, b) <==> Instant(a) < Instant(b)
  {
    if DayBefore(a, b) {
      DaysFollowDates(a, b);
    } else if DayBefore(b, a) {
      DaysFollowDates(b, a);
    }
  }

  /** Whether or not either side carries microseconds, the text order of two
      stored timestamps is the order of the instants they stand for. */
  lemma IsoOrder(a: DateTime, b: DateTime)
    requires Valid(a) && Valid(b)
    ensures LexLess(Iso(a), Iso(b)) <==> Instant(a) < Instant(b)
  {
    TextOrder(a, b, UTC);
    InstantOrder(a, b);
  }

  /** So is that of two markers stored as JSON, whose greater one a prune keeps. */
  lemma JsonOrder(a: DateTime, b: DateTime)
    requires Valid(a) && Valid(b)
    ensures LexLess(Json(a), Json(b)) <==> Instant(a) < Instant(b)
  {
    var end := UTC + "\"";
    Separator("\"", Written(a, end), Written(b, end));
    TextOrder(a, b, end);
    InstantOrder(a, b);
  }

  // ---- reading the text back ---------------------------------------------

  function Number(s: string): int {
    if s == "" then 0 else Number(s[..|s| - 1]) * 10 + (s[|s| - 1] as int - '0' as int)
  }

  lemma {:induction false} NumberOfDigits(n: nat, w: nat)
    requires n < Pow10(w)
    ensures Number(Digits(n, w)) == n
    decreases w
  {
    if w > 0 {
      NumberOfDigits(n / 10, w - 1);
      var front := Digits(n / 10, w - 1);
      assert Digits(n, w) == front + [Digit(n % 10)] && Digits(n, w)[..w - 1] == front;
    }
  }

  /** A time of day and its fraction, as they are read back. */
  function ReadClock(s: string): (int, int, int, int)
    requires |s| >= 14
  {
    (Number(s[..2]), Number(s[3..5]), Number(s[6..8]), if s[8] == '.' && |s| >= 15 then Number(s[9..15]) else 0)
  }

  /** A stored text as it is read back. */
  function Read(s: string): DateTime
    requires |s| >= 25
  {
    var (hour, minute, second, micro) := ReadClock(s[11..]);
    DateTime(Number(s[..4]), Number(s[5..7]), Number(s[8..10]), hour, minute, second, micro)
  }

  lemma Cut(p: string, r: string)
    ensures (p + r)[..|p|] == p && (p + r)[|p|..] == r
  {
  }

  /** Two digits, a separator, and what follows. */
  lemma TwoDigits(n: int, c: string, r: string)
    requires 0 <= n < 100 && |c| == 1
    ensures var s := Digits(n, 2) + (c + r); |s| == |r| + 3 && Number(s[..2]) == n && s[2] == c[0] && s[3..] == r
  {
    assert Pow10(2) == 100;
    NumberOfDigits(n, 2);
    Cut(Digits(n, 2), c + r);
    Cut(c, r);
    var s := Digits(n, 2) + (c + r);
    assert s[2..][1..] == s[3..];
  }

  lemma TailBack(d: DateTime)
    requires Valid(d)
    ensures var s := Tail(d, UTC);
            && |s| >= 6 && (if s[0] == '.' && |s| >= 7 then Number(s[1..7]) else 0) == d.micro
            && (s[0] == '.' <==> d.micro != 0)
  {
    TailStart(d, UTC);
    if d.micro != 0 {
      Million();
      NumberOfDigits(d.micro, 6);
      Cut(".", Digits(d.micro, 6) + UTC);
      Cut(Digits(d.micro, 6), UTC);
      var s := Tail(d, UTC);
      assert s[1..][..6] == s[1..7];
    }
  }

  lemma ClockBack(d: DateTime)
    requires Valid(d)
    ensures |Clock(d, UTC)| >= 14 && ReadClock(Clock(d, UTC)) == (d.hour, d.minute, d.second, d.micro)
  {
    var tail := Tail(d, UTC);
    var seconds := Digits(d.second, 2) + tail;
    var minutes := Digits(d.minute, 2) + (":" + seconds);
    TailBack(d);
    assert Pow10(2) == 100;
    NumberOfDigits(d.second, 2);
    Cut(Digits(d.second, 2), tail);
    TwoDigits(d.minute, ":", seconds);
    TwoDigits(d.hour, ":", minutes);
    var s := Clock(d, UTC);
    assert s[3..][..2] == s[3..5] && s[3..][3..] == s[6..] && s[6..][..2] == s[6..8] && s[6..][2..] == s[8..];
    assert s[8..] == tail;
    assert |s| >= 15 ==> s[8..][1..7] == s[9..15];
    assert s[8] == tail[0];
  }

  lemma MonthAndDayBack(month: int, day: int, clock: string)
    requires 0 <= month < 100 && 0 <= day < 100
    ensures var s := Digits(month, 2) + ("-" + (Digits(day, 2) + ("T" + clock)));
            |s| == |clock| + 6 && Number(s[..2]) == month && Number(s[3..5]) == day && s[6..] == clock
  {
    var days := Digits(day, 2) + ("T" + clock);
    TwoDigits(day, "T", clock);
    TwoDigits(month, "-", days);
    var s := Digits(month, 2) + ("-" + days);
    assert s[3..][..2] == s[3..5] && s[3..][3..] == s[6..];
  }

  lemma YearBack(year: int, rest: string)
    requires 0 <= year < 10000
    ensures var s := Digits(year, 4) + ("-" + rest); |s| == |rest| + 5 && Number(s[..4]) == year && s[5..] == rest
  {
    assert Pow10(4) == 10000 by { assert Pow10(4) == 100 * Pow10(2) && Pow10(2) == 100; }
    NumberOfDigits(year, 4);
    Cut(Digits(year, 4), "-" + rest);
    Cut("-", rest);
    var s := Digits(year, 4) + ("-" + rest);
    assert s[4..][1..] == s[5..];
  }

  /** A stored timestamp is read back as the datetime it was written from. */
  lemma IsoRoundTrip(d: DateTime)
    requires Valid(d)
    ensures |Iso(d)| >= 25 && Read(Iso(d)) == d
  {
    var clock := Clock(d, UTC);
    var months := Digits(d.month, 2) + ("-" + (Digits(d.day, 2) + ("T" + clock)));
    ClockBack(d);
    MonthAndDayBack(d.month, d.day, clock);
    YearBack(d.year, months);
    var s := Iso(d);
    assert s[5..][..2] == s[5..7] && s[5..][3..5] == s[8..10] && s[5..][6..] == s[11..];
  }

  /** And it is laid out as the standard says: the separators, and an offset of
      zero at the end. */
  lemma IsoLayout(d: DateTime)
    requires Valid(d)
    ensures var s := Iso(d);
            && |s| == (if d.micro == 0 then 25 else 32)
            && s[4] == '-' && s[7] == '-' && s[10] == 'T' && s[13] == ':' && s[16] == ':'
            && (d.micro != 0 ==> s[19] == '.') && s[|s| - 6..] == "+00:00"
  {
    TailStart(d, UTC);
    TailEnds(d);
    var s, tail := Iso(d), Tail(d, UTC);
    assert s == s[..19] + tail;
    assert s[19] == tail[0];
    assert s[|s| - 6..] == tail[|tail| - 6..];
  }

  lemma TailEnds(d: DateTime)
    requires Valid(d)
    ensures var tail := Tail(d, UTC); |tail| == (if d.micro == 0 then 6 else 13) && tail[|tail| - 6..] == "+00:00"
  {
    var tail, fraction := Tail(d, UTC), if d.micro == 0 then "" else "." + Digits(d.micro, 6);
    Cut(fraction, UTC);
  }
}
