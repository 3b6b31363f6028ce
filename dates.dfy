/** Calendar dates as `datetime.strptime(s, "%m/%d/%Y")` produces them (midnight of a day),
    the current moment they are compared with, and the `%m/%d/%Y` text form. */
module Dates {
  import opened Wrappers
  import opened Text

  datatype Date = Date(year: int, month: int, day: int)

  predicate IsLeapYear(y: int)
  {
    y % 4 == 0 && (y % 100 != 0 || y % 400 == 0)
  }

  function DaysInMonth(y: int, m: int): int
    requires 1 <= m <= 12
  {
    if m == 2 then (if IsLeapYear(y) then 29 else 28)
    else if m == 4 || m == 6 || m == 9 || m == 11 then 30
    else 31
  }

  /** A date `datetime` accepts: years 1 to 9999, a real month and a day inside it. */
  predicate ValidDate(d: Date)
  {
    1 <= d.year <= 9999 && 1 <= d.month <= 12 && 1 <= d.day <= DaysInMonth(d.year, d.month)
  }

  /** Chronological order of two dates. */
  predicate Before(a: Date, b: Date)
  {
    a.year < b.year || (a.year == b.year && (a.month < b.month || (a.month == b.month && a.day < b.day)))
  }

  /** The moment a query or a report runs: a day and the time elapsed since its midnight
      (in microseconds, the resolution of `datetime.now()`). */
  datatype Moment = Moment(date: Date, sinceMidnight: nat)

  /** `datetime` comparison: day first, then time of day. */
  predicate Earlier(a: Moment, b: Moment)
  {
    Before(a.date, b.date) || (a.date == b.date && a.sinceMidnight < b.sinceMidnight)
  }

  /** A parsed service date is the midnight that starts its day. */
  function Midnight(d: Date): Moment
  {
    Moment(d, 0)
  }

  /** `service_date < now`. */
  predicate IsPast(d: Date, now: Moment)
  {
    Earlier(Midnight(d), now)
  }

  /** `service_date > now`. */
  predicate IsFuture(d: Date, now: Moment)
  {
    Earlier(now, Midnight(d))
  }

  /** A date is past when its day is over or when it is today and midnight has gone by; it is
      future only from tomorrow on; and no date is both. */
  lemma PastAndFuture(d: Date, now: Moment)
    ensures IsPast(d, now) <==> Before(d, now.date) || (d == now.date && now.sinceMidnight > 0)
    ensures IsFuture(d, now) <==> Before(now.date, d)
    ensures !(IsPast(d, now) && IsFuture(d, now))
  {
  }

  /** The index of the first `c` in `s`, if any. */
  function IndexOf(s: string, c: char): (r: Option<nat>)
    ensures r.Some? ==> r.value < |s| && s[r.value] == c && c !in s[..r.value]
    ensures r.None? ==> c !in s
  {
    if s == [] then None
    else if s[0] == c then Some(0)
    else match IndexOf(s[1..], c)
      case None => None
      case Some(i) =>
        assert s[..i + 1] == [s[0]] + s[1..][..i];
        Some(i + 1)
  }

  /** What `%m` accepts: `1[0-2]|0[1-9]|[1-9]`. */
  predicate MonthField(t: string)
  {
    (|t| == 1 || |t| == 2) && AllDigits(t) && 1 <= DigitsValue(t) <= 12
  }

  /** What `%d` accepts: `3[01]|[12]\d|0[1-9]|[1-9]| [1-9]`, with `\d` taken as an ASCII
      digit (Python's `\d` also matches other Unicode decimal digits). */
  predicate DayField(t: string)
  {
    || ((|t| == 1 || |t| == 2) && AllDigits(t) && 1 <= DigitsValue(t) <= 31)
    || (|t| == 2 && t[0] == ' ' && IsDigit(t[1]) && t[1] != '0')
  }

  function DayValue(t: string): int
    requires DayField(t)
  {
    if t[0] == ' ' then DigitsValue(t[1..]) else DigitsValue(t)
  }

  /** `datetime.strptime(s, "%m/%d/%Y")`: month, day and a four-digit (ASCII) year separated by
      slashes, nothing after the year, and a date the calendar has; anything else raises
      `ValueError`, here `None`. */
  function ParseDate(s: string): (r: Option<Date>)
    ensures r.Some? ==> ValidDate(r.value)
  {
    match IndexOf(s, '/')
    case None => None
    case Some(i) =>
      var rest := s[i + 1..];
      match IndexOf(rest, '/')
      case None => None
      case Some(j) =>
        var m, d, y := s[..i], rest[..j], rest[j + 1..];
        if MonthField(m) && DayField(d) && |y| == 4 && AllDigits(y) then
          var date := Date(DigitsValue(y), DigitsValue(m), DayValue(d));
          if ValidDate(date) then Some(date) else None
        else None
  }

  function Zeros(n: nat): (r: string)
    ensures |r| == n && AllDigits(r)
    ensures forall k :: 0 <= k < n ==> r[k] == '0'
  {
    if n == 0 then "" else "0" + Zeros(n - 1)
  }

  /** The digits of `n`, zero-padded on the left to at least `width` characters. */
  function Pad(n: nat, width: nat): (r: string)
    ensures AllDigits(r) && |r| >= width
  {
    var ds := NatToDigits(n);
    if |ds| >= width then ds else Zeros(width - |ds|) + ds
  }

  /** `d.strftime("%m/%d/%Y")`. */
  function FormatDate(d: Date): (r: string)
    requires ValidDate(d)
    ensures |r| == 10 && r[2] == '/' && r[5] == '/'
  {
    PadFits(d.month, 2);
    PadFits(d.day, 2);
    PadFits(d.year, 4);
    Pad(d.month, 2) + "/" + Pad(d.day, 2) + "/" + Pad(d.year, 4)
  }

  function Pow10(k: nat): nat
  {
    if k == 0 then 1 else 10 * Pow10(k - 1)
  }

  lemma {:induction false} DigitsLength(n: nat, k: nat)
    requires 1 <= k && n < Pow10(k)
    ensures |NatToDigits(n)| <= k
  {
    if n >= 10 {
      assert k > 1;
      DigitsLength(n / 10, k - 1);
    }
  }

  lemma PadFits(n: nat, width: nat)
    requires 1 <= width && n < Pow10(width)
    ensures |Pad(n, width)| == width
  {
    DigitsLength(n, width);
  }

  lemma {:induction false} LeadingZeros(z: nat, ds: string)
    requires AllDigits(ds)
    ensures DigitsValue(Zeros(z) + ds) == DigitsValue(ds)
  {
    if ds == [] {
      assert Zeros(z) + ds == Zeros(z);
      ZerosValue(z);
    } else {
      var init := ds[..|ds| - 1];
      LeadingZeros(z, init);
      assert (Zeros(z) + ds)[..|Zeros(z) + ds| - 1] == Zeros(z) + init;
    }
  }

  lemma {:induction false} ZerosValue(z: nat)
    ensures DigitsValue(Zeros(z)) == 0
  {
    if z > 0 {
      ZerosValue(z - 1);
      assert Zeros(z) == Zeros(z - 1) + "0";
      assert Zeros(z)[..z - 1] == Zeros(z - 1);
    }
  }

  lemma {:induction false} PadValue(n: nat, width: nat)
    ensures DigitsValue(Pad(n, width)) == n
  {
    var ds := NatToDigits(n);
    DigitsRoundTrip(n);
    assert DigitsValue(ds) == n;
    if |ds| < width {
      var z := Zeros(width - |ds|);
      LeadingZeros(width - |ds|, ds);
      assert DigitsValue(z + ds) == n;
      assert Pad(n, width) == z + ds;
    }
  }

  /** Where `ParseDate` cuts `m/dd/y` when neither `m` nor `dd` holds a slash. */
  lemma SplitAtSlashes(m: string, dd: string, y: string)
    requires '/' !in m && '/' !in dd
    ensures var s := m + "/" + dd + "/" + y;
      && IndexOf(s, '/') == Some(|m|)
      && s[..|m|] == m
      && IndexOf(s[|m| + 1..], '/') == Some(|dd|)
      && s[|m| + 1..][..|dd|] == dd
      && s[|m| + 1..][|dd| + 1..] == y
  {
    var s := m + "/" + dd + "/" + y;
    IndexOfFirst(s, '/', |m|);
    var rest := s[|m| + 1..];
    assert rest == dd + "/" + y;
    IndexOfFirst(rest, '/', |dd|);
  }

  /** A zero-padded field holds no slash. */
  lemma DigitsHaveNoSlash(t: string)
    requires AllDigits(t)
    ensures '/' !in t
  {
  }

  /** Parsing what was formatted gives the date back: `strptime(d.strftime(f), f) == d`. */
  lemma FormatParseRoundTrip(d: Date)
    requires ValidDate(d)
    ensures ParseDate(FormatDate(d)) == Some(d)
  {
    var m, dd, y := Pad(d.month, 2), Pad(d.day, 2), Pad(d.year, 4);
    PadFits(d.month, 2);
    PadFits(d.day, 2);
    PadFits(d.year, 4);
    PadValue(d.month, 2);
    PadValue(d.day, 2);
    PadValue(d.year, 4);
    assert FormatDate(d) == m + "/" + dd + "/" + y;
    DigitsHaveNoSlash(m);
    DigitsHaveNoSlash(dd);
    SplitAtSlashes(m, dd, y);
    assert MonthField(m);
    assert DayField(dd) && DayValue(dd) == d.day;
  }

  lemma IndexOfFirst(s: string, c: char, i: nat)
    requires i < |s| && s[i] == c && forall k :: 0 <= k < i ==> s[k] != c
    ensures IndexOf(s, c) == Some(i)
  {
    assert c in s;
    var v := IndexOf(s, c).value;
    assert forall k :: 0 <= k < v ==> s[..v][k] == s[k];
  }

  /** 15 March 2025 is written `03/15/2025`. */
  lemma FormatDateExample()
    ensures FormatDate(Date(2025, 3, 15)) == "03/15/2025"
  {
    PadExamples();
    YearDigits();
  }

  /** Months and days take a leading zero below ten. */
  lemma PadExamples()
    ensures Pad(3, 2) == "03" && Pad(15, 2) == "15"
  {
    assert NatToDigits(3) == "3";
    assert Zeros(1) == "0";
    assert NatToDigits(1) == "1";
    assert NatToDigits(15) == "15";
  }

  /** A four-digit year is written as it is. */
  lemma YearDigits()
    ensures Pad(2025, 4) == "2025"
  {
    assert NatToDigits(2) == "2";
    assert NatToDigits(20) == "20";
    assert NatToDigits(202) == "202";
    assert NatToDigits(2025) == "2025";
  }
}
