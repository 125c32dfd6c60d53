/**
 * Archive timestamps. The catalog writes them in the fixed layout `YYYY-MM-DD HH:MM:SS`
 * (Go's reference layout "2006-01-02 15:04:05") and the program reads them as UTC.
 * A timestamp is kept as its calendar fields; `Seconds` maps it onto the time line,
 * which is what Go's `Before` and `Add` compare and shift.
 */
module Timestamp {
  import opened Wrappers

  datatype DateTime = DateTime(year: int, month: int, day: int, hour: int, minute: int, second: int)

  predicate IsLeap(year: int)
  {
    year % 4 == 0 && (year % 100 != 0 || year % 400 == 0)
  }

  function DaysIn(year: int, month: int): int
  {
    if month == 2 then (if IsLeap(year) then 29 else 28)
    else if month == 4 || month == 6 || month == 9 || month == 11 then 30
    else 31
  }

  /** The fields a four-digit-year layout can hold and Go's parser accepts. */
  predicate Valid(d: DateTime)
  {
    0 <= d.year <= 9999 && 1 <= d.month <= 12 && 1 <= d.day <= DaysIn(d.year, d.month) &&
    0 <= d.hour < 24 && 0 <= d.minute < 60 && 0 <= d.second < 60
  }

  type Date = d: DateTime | Valid(d) witness DateTime(1970, 1, 1, 0, 0, 0)

  // ---- the time line ----

  function YearLength(year: int): int
  {
    if IsLeap(year) then 366 else 365
  }

  /** Days from 0000-01-01 to the first day of `year`. */
  function DaysBeforeYear(year: nat): nat
  {
    if year == 0 then 0 else DaysBeforeYear(year - 1) + YearLength(year - 1)
  }

  /** Days from the first of January to the first of `month` in `year`. */
  function DaysBeforeMonth(year: int, month: int): int
    requires 1 <= month <= 12
  {
    var cumulative := [0, 31, 59, 90, 120, 151, 181, 212, 243, 273, 304, 334];
    cumulative[month - 1] + (if month > 2 && IsLeap(year) then 1 else 0)
  }

  /** Seconds from 0000-01-01 00:00:00 UTC. */
  function Seconds(d: Date): int
  {
    ((DaysBeforeYear(d.year) + DaysBeforeMonth(d.year, d.month) + d.day - 1) * 86400)
      + d.hour * 3600 + d.minute * 60 + d.second
  }

  /** Calendar order: year first, then month, day, hour, minute, second. */
  predicate Earlier(a: DateTime, b: DateTime)
  {
    if a.year != b.year then a.year < b.year
    else if a.month != b.month then a.month < b.month
    else if a.day != b.day then a.day < b.day
    else if a.hour != b.hour then a.hour < b.hour
    else if a.minute != b.minute then a.minute < b.minute
    else a.second < b.second
  }

  lemma MonthFitsInYear(year: int, m: int)
    requires 1 <= m <= 12
    ensures DaysBeforeMonth(year, m) + DaysIn(year, m) <= YearLength(year)
    ensures m < 12 ==> DaysBeforeMonth(year, m) + DaysIn(year, m) == DaysBeforeMonth(year, m + 1)
  {
  }

  lemma {:induction false} DaysBeforeYearMonotone(a: nat, b: nat)
    requires a < b
    ensures DaysBeforeYear(a) + YearLength(a) <= DaysBeforeYear(b)
    decreases b
  {
    if a + 1 < b {
      DaysBeforeYearMonotone(a, b - 1);
    }
  }

  lemma DaysBeforeMonthMonotone(year: int, m1: int, m2: int)
    requires 1 <= m1 < m2 <= 12
    ensures DaysBeforeMonth(year, m1) + DaysIn(year, m1) <= DaysBeforeMonth(year, m2)
  {
    MonthFitsInYear(year, m1);
  }

  /** Later calendar fields lie later on the time line. */
  lemma SecondsMonotone(a: Date, b: Date)
    requires Earlier(a, b)
    ensures Seconds(a) < Seconds(b)
  {
    var ta := a.hour * 3600 + a.minute * 60 + a.second;
    var tb := b.hour * 3600 + b.minute * 60 + b.second;
    assert 0 <= ta < 86400 && 0 <= tb < 86400;
    var da := DaysBeforeYear(a.year) + DaysBeforeMonth(a.year, a.month) + a.day - 1;
    var db := DaysBeforeYear(b.year) + DaysBeforeMonth(b.year, b.month) + b.day - 1;
    assert Seconds(a) == da * 86400 + ta && Seconds(b) == db * 86400 + tb;
    if a.year != b.year {
      MonthFitsInYear(a.year, a.month);
      DaysBeforeYearMonotone(a.year, b.year);
      assert da < db;
    } else if a.month != b.month {
      DaysBeforeMonthMonotone(a.year, a.month, b.month);
      assert da < db;
    } else if a.day != b.day {
      assert da < db;
    } else {
      assert da == db;
    }
  }

  /** Go's `Before` on two parsed times is exactly calendar order. */
  lemma SecondsOrder(a: Date, b: Date)
    ensures Seconds(a) < Seconds(b) <==> Earlier(a, b)
    ensures Seconds(a) == Seconds(b) <==> a == b
  {
    if Earlier(a, b) {
      SecondsMonotone(a, b);
    } else if a != b {
      assert Earlier(b, a);
      SecondsMonotone(b, a);
    }
  }

  // ---- the fixed-width text layout ----

  predicate IsDigit(c: char)
  {
    '0' <= c <= '9'
  }

  function Digit(n: int): (c: char)
    requires 0 <= n < 10
    ensures IsDigit(c)
  {
    ('0' as int + n) as char
  }

  function DigitValue(c: char): (n: int)
    requires IsDigit(c)
    ensures 0 <= n < 10 && Digit(n) == c
  {
    c as int - '0' as int
  }

  predicate AllDigits(s: string)
  {
    forall i :: 0 <= i < |s| ==> IsDigit(s[i])
  }

  /** Decimal value of a string of digits, most significant first. */
  function Number(s: string): (n: nat)
    requires AllDigits(s)
  {
    if s == [] then 0 else Number(s[..|s| - 1]) * 10 + DigitValue(s[|s| - 1])
  }

  function Pad2(n: int): (s: string)
    requires 0 <= n < 100
    ensures |s| == 2 && AllDigits(s)
  {
    [Digit(n / 10), Digit(n % 10)]
  }

  function Pad4(n: int): (s: string)
    requires 0 <= n < 10000
    ensures |s| == 4 && AllDigits(s)
  {
    Pad2(n / 100) + Pad2(n % 100)
  }

  /**
   * `Date.Format("2006-01-02 15:04:05")`: always 19 characters, and free of tabs, so a
   * formatted timestamp never splits a catalog line.
   */
  function Format(d: Date): (s: string)
    ensures |s| == 19 && '\t' !in s
  {
    var s := Pad4(d.year) + "-" + Pad2(d.month) + "-" + Pad2(d.day) + " " +
             Pad2(d.hour) + ":" + Pad2(d.minute) + ":" + Pad2(d.second);
    assert forall i :: 0 <= i < |s| ==> IsDigit(s[i]) || s[i] in "- :";
    s
  }

  /** `time.Parse("2006-01-02 15:04:05", s)` for the fixed-width layout: None is a parse error. */
  function Parse(s: string): (r: Option<Date>)
    ensures r.Some? ==> |s| == 19
  {
    if |s| != 19 || s[4] != '-' || s[7] != '-' || s[10] != ' ' || s[13] != ':' || s[16] != ':' then None
    else if !(AllDigits(s[0..4]) && AllDigits(s[5..7]) && AllDigits(s[8..10]) &&
              AllDigits(s[11..13]) && AllDigits(s[14..16]) && AllDigits(s[17..19])) then None
    else
      var d := DateTime(Number(s[0..4]), Number(s[5..7]), Number(s[8..10]),
                        Number(s[11..13]), Number(s[14..16]), Number(s[17..19]));
      if Valid(d) then Some(d) else None
  }

  lemma Pad2RoundTrip(n: int)
    requires 0 <= n < 100
    ensures AllDigits(Pad2(n)) && Number(Pad2(n)) == n
  {
    var s := Pad2(n);
    assert s[..1] == [Digit(n / 10)];
    assert Number(s[..1]) == n / 10 by {
      assert s[..1][..0] == [];
    }
  }

  lemma Pad4RoundTrip(n: int)
    requires 0 <= n < 10000
    ensures AllDigits(Pad4(n)) && Number(Pad4(n)) == n
  {
    var s := Pad4(n);
    Pad2RoundTrip(n / 100);
    Pad2RoundTrip(n % 100);
    var hi := Pad2(n / 100);
    assert s[..3] == hi + [s[2]];
    assert s[..3][..2] == hi;
    assert s[..2] == hi;
    assert Number(s[..3]) == (n / 100) * 10 + DigitValue(s[2]);
  }

  lemma Digits2(s: string)
    requires |s| == 2 && AllDigits(s)
    ensures Number(s) < 100 && Pad2(Number(s)) == s
  {
    assert s[..1][..0] == [];
    assert Number(s[..1]) == DigitValue(s[0]);
    assert Number(s) == DigitValue(s[0]) * 10 + DigitValue(s[1]);
  }

  /** Two more digits after `hi` multiply its value by a hundred. */
  lemma NumberAppend2(hi: string, lo: string)
    requires AllDigits(hi) && |lo| == 2 && AllDigits(lo)
    ensures AllDigits(hi + lo) && Number(hi + lo) == Number(hi) * 100 + Number(lo)
  {
    var s := hi + lo;
    assert s[..|s| - 1] == hi + [lo[0]];
    assert (hi + [lo[0]])[..|hi|] == hi;
    assert lo[..1][..0] == [];
    assert Number(lo[..1]) == DigitValue(lo[0]);
    assert Number(hi + [lo[0]]) == Number(hi) * 10 + DigitValue(lo[0]);
  }

  lemma Digits4(s: string)
    requires |s| == 4 && AllDigits(s)
    ensures Number(s) < 10000 && Pad4(Number(s)) == s
  {
    var hi, lo := s[..2], s[2..];
    assert s == hi + lo;
    Digits2(hi);
    Digits2(lo);
    NumberAppend2(hi, lo);
    var h, l := Number(hi), Number(lo);
    assert Number(s) == h * 100 + l;
    assert (h * 100 + l) / 100 == h && (h * 100 + l) % 100 == l;
  }

  /** Three fields, the last two of two characters each, joined by one separator character, as in `2006-01-02` and `15:04:05`. */
  lemma JoinedFields(a: string, b: string, c: string, sep: char)
    requires |b| == 2 && |c| == 2
    ensures var s := a + [sep] + b + [sep] + c;
      |s| == |a| + 6 && s[|a|] == sep && s[|a| + 3] == sep &&
      s[..|a|] == a && s[|a| + 1..|a| + 3] == b && s[|a| + 4..] == c
  {
    var s := a + [sep] + b + [sep] + c;
    assert s[..|a|] == a;
    assert s[|a| + 1..|a| + 3] == b;
    assert s[|a| + 4..] == c;
  }

  /** Where the fields sit in the layout. */
  lemma LayoutFields(y: string, mo: string, da: string, h: string, mi: string, se: string)
    requires |y| == 4 && |mo| == 2 && |da| == 2 && |h| == 2 && |mi| == 2 && |se| == 2
    ensures var s := y + "-" + mo + "-" + da + " " + h + ":" + mi + ":" + se;
      |s| == 19 && s[4] == '-' && s[7] == '-' && s[10] == ' ' && s[13] == ':' && s[16] == ':' &&
      s[0..4] == y && s[5..7] == mo && s[8..10] == da && s[11..13] == h && s[14..16] == mi && s[17..19] == se
  {
    var s := y + "-" + mo + "-" + da + " " + h + ":" + mi + ":" + se;
    var date, time := y + ['-'] + mo + ['-'] + da, h + [':'] + mi + [':'] + se;
    JoinedFields(y, mo, da, '-');
    JoinedFields(h, mi, se, ':');
    assert s == date + [' '] + time;
    assert s[..10] == date && s[11..] == time;
    assert s[0..4] == date[..4] && s[5..7] == date[5..7] && s[8..10] == date[8..];
    assert s[11..13] == time[..2] && s[14..16] == time[3..5] && s[17..19] == time[6..];
  }

  /** Formatting then parsing gives back the same timestamp. */
  lemma ParseFormat(d: Date)
    ensures Parse(Format(d)) == Some(d)
  {
    Pad4RoundTrip(d.year);
    Pad2RoundTrip(d.month);
    Pad2RoundTrip(d.day);
    Pad2RoundTrip(d.hour);
    Pad2RoundTrip(d.minute);
    Pad2RoundTrip(d.second);
    LayoutFields(Pad4(d.year), Pad2(d.month), Pad2(d.day), Pad2(d.hour), Pad2(d.minute), Pad2(d.second));
  }

  /** Parsing succeeds only on text the formatter would have written: the layout has one spelling per time. */
  lemma FormatParse(s: string)
    requires Parse(s).Some?
    ensures Format(Parse(s).value) == s
  {
    Digits4(s[0..4]);
    Digits2(s[5..7]);
    Digits2(s[8..10]);
    Digits2(s[11..13]);
    Digits2(s[14..16]);
    Digits2(s[17..19]);
    var d := Parse(s).value;
    assert Format(d) == s[0..4] + [s[4]] + s[5..7] + [s[7]] + s[8..10] + [s[10]] +
                        s[11..13] + [s[13]] + s[14..16] + [s[16]] + s[17..19];
  }
}
