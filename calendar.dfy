/**
 * Calendar dates as day numbers (days since 1970-01-01, proleptic
 * Gregorian) and their ISO rendering `YYYY-MM-DD`, which is what Python's
 * `str(date)` produces and what the sentiment maps use as keys.
 */
module Calendar {
  import opened Text

  const SecondsPerDay: int := 86400

  /**
   * The calendar date of a timestamp given in seconds since the epoch
   * (`datetime.date()`); floor division, so instants before the epoch fall
   * on the preceding day.
   */
  function DayOf(ts: int): (d: int)
    ensures d * SecondsPerDay <= ts < (d + 1) * SecondsPerDay
  {
    ts / SecondsPerDay
  }

  datatype Civil = Civil(year: int, month: int, day: int)

  /**
   * Days since 1970-01-01 to a civil date. The count is split into
   * 400-year eras starting on a 1 March, centuries of 36524 days (the last
   * one of an era 36525), four-year cycles of 1461 days (the last one of a
   * century that does not end an era 1460) and years of 365 days (the last
   * one of a cycle 366); the month comes from the day of the year counted
   * from 1 March.
   */
  function CivilFromDays(z: int): (c: Civil)
    ensures 1 <= c.month <= 12 && 1 <= c.day <= 31
  {
    var era := (z + 719468) / 146097;
    var doe := (z + 719468) % 146097;
    var (yoe, doy) := YearOfEra(doe);
    var (mp, d) := MonthOfYear(doy);
    var m := if mp < 10 then mp + 3 else mp - 9;
    Civil(era * 400 + yoe + (if m <= 2 then 1 else 0), m, d)
  }

  /**
   * Splits a day of a 400-year era (counted from 1 March of its first
   * year) into the year of the era and the day of that year.
   */
  function YearOfEra(doe: int): (r: (int, int))
    requires 0 <= doe < 146097
    ensures 0 <= r.0 < 400 && 0 <= r.1 <= 365
    ensures 365 * r.0 + r.0 / 4 - r.0 / 100 + r.1 == doe
  {
    var cen := if doe / 36524 < 3 then doe / 36524 else 3;
    var doc := doe - 36524 * cen;
    assert 0 <= doc <= 36524;
    var q := doc / 1461;
    var doq := doc % 1461;
    var yq := if doq / 365 < 3 then doq / 365 else 3;
    var doy := doq - 365 * yq;
    var yoe := 100 * cen + 4 * q + yq;
    DivBy4(yoe, 25 * cen + q, yq);
    DivBy100(yoe, cen, 4 * q + yq);
    (yoe, doy)
  }

  /**
   * Splits a day of a year counted from 1 March into the month counted
   * from March (0 to 11) and the day of the month.
   */
  function MonthOfYear(doy: int): (r: (int, int))
    requires 0 <= doy <= 365
    ensures 0 <= r.0 <= 11 && 1 <= r.1 <= 31
    ensures (153 * r.0 + 2) / 5 + r.1 - 1 == doy
  {
    var mp := (5 * doy + 2) / 153;
    (mp, doy - (153 * mp + 2) / 5 + 1)
  }

  /** The inverse direction: days since 1970-01-01 of a civil date. */
  function DaysFromCivil(c: Civil): int
  {
    var y := c.year - (if c.month <= 2 then 1 else 0);
    var era := y / 400;
    var yoe := y - era * 400;
    var mp := if c.month > 2 then c.month - 3 else c.month + 9;
    var doy := (153 * mp + 2) / 5 + c.day - 1;
    var doe := yoe * 365 + yoe / 4 - yoe / 100 + doy;
    era * 146097 + doe - 719468
  }

  lemma DivBy400(a: int, q: int, r: int)
    requires a == 400 * q + r && 0 <= r < 400
    ensures a / 400 == q
  {
  }

  lemma DivBy100(a: int, q: int, r: int)
    requires a == 100 * q + r && 0 <= r < 100
    ensures a / 100 == q
  {
  }

  lemma DivBy4(a: int, q: int, r: int)
    requires a == 4 * q + r && 0 <= r < 4
    ensures a / 4 == q
  {
  }

  /** Converting a day number to a civil date and back gives the day number. */
  lemma CivilRoundTrip(z: int)
    ensures DaysFromCivil(CivilFromDays(z)) == z
  {
    var era := (z + 719468) / 146097;
    var doe := (z + 719468) % 146097;
    assert era * 146097 + doe - 719468 == z;
    var (yoe, doy) := YearOfEra(doe);
    var (mp, d) := MonthOfYear(doy);
    var c := CivilFromDays(z);
    assert c.month > 2 <==> mp < 10;
    var y := c.year - (if c.month <= 2 then 1 else 0);
    assert y == 400 * era + yoe;
    DivBy400(y, era, yoe);
    assert y - (y / 400) * 400 == yoe;
    assert (if c.month > 2 then c.month - 3 else c.month + 9) == mp;
    assert (153 * mp + 2) / 5 + c.day - 1 == doy;
    assert yoe * 365 + yoe / 4 - yoe / 100 + doy == doe;
  }

  lemma CivilFromDaysInjective(a: int, b: int)
    requires CivilFromDays(a) == CivilFromDays(b)
    ensures a == b
  {
    CivilRoundTrip(a);
    CivilRoundTrip(b);
  }

  predicate IsDigit(c: char)
  {
    '0' <= c <= '9'
  }

  /** Decimal rendering of `n` with at least `w` digits (`"%0{w}d"`). */
  function Padded(n: nat, w: nat): (s: string)
    ensures |s| > 0 && forall i :: 0 <= i < |s| ==> IsDigit(s[i])
    decreases n, w
  {
    if n < 10 && w <= 1 then [('0' as int + n) as char]
    else Padded(n / 10, if w > 0 then w - 1 else 0) + [('0' as int + n % 10) as char]
  }

  /** The value of a string of decimal digits. */
  function DecimalValue(s: string): int
  {
    if s == [] then 0 else DecimalValue(s[..|s| - 1]) * 10 + (s[|s| - 1] as int - '0' as int)
  }

  lemma {:induction false} PaddedValue(n: nat, w: nat)
    ensures DecimalValue(Padded(n, w)) == n
    decreases n, w
  {
    if !(n < 10 && w <= 1) {
      var s := Padded(n, w);
      PaddedValue(n / 10, if w > 0 then w - 1 else 0);
      assert s[..|s| - 1] == Padded(n / 10, if w > 0 then w - 1 else 0);
    }
  }

  /** The year as `str(date)` writes it: four digits at least. */
  function YearText(y: int): string
  {
    if y < 0 then "-" + Padded(-y, 4) else Padded(y, 4)
  }

  function TwoDigits(n: int): string
    requires 0 <= n < 100
  {
    [('0' as int + n / 10) as char, ('0' as int + n % 10) as char]
  }

  /** `YYYY-MM-DD` for a day number. */
  function Iso(z: int): (s: string)
    ensures |s| >= 10
    ensures forall i :: 0 <= i < |s| ==> IsDigit(s[i]) || s[i] == '-'
  {
    var c := CivilFromDays(z);
    var y := YearText(c.year);
    assert |Padded(if c.year < 0 then -c.year else c.year, 4)| >= 4 by {
      PaddedWidth(if c.year < 0 then -c.year else c.year, 4);
    }
    y + "-" + TwoDigits(c.month) + "-" + TwoDigits(c.day)
  }

  lemma {:induction false} PaddedWidth(n: nat, w: nat)
    ensures |Padded(n, w)| >= w
    decreases n, w
  {
    if !(n < 10 && w <= 1) {
      PaddedWidth(n / 10, if w > 0 then w - 1 else 0);
    }
  }

  lemma YearTextSign(y: int)
    ensures YearText(y)[0] == '-' <==> y < 0
  {
    if y >= 0 {
      assert IsDigit(Padded(y, 4)[0]);
    }
  }

  lemma YearTextInjective(a: int, b: int)
    requires YearText(a) == YearText(b)
    ensures a == b
  {
    YearTextSign(a);
    YearTextSign(b);
    var na := if a < 0 then -a else a;
    var nb := if b < 0 then -b else b;
    assert Padded(na, 4) == Padded(nb, 4) by {
      if a < 0 {
        assert Padded(na, 4) == YearText(a)[1..];
        assert Padded(nb, 4) == YearText(b)[1..];
      }
    }
    PaddedValue(na, 4);
    PaddedValue(nb, 4);
  }

  /** Different days have different ISO renderings. */
  lemma IsoInjective(a: int, b: int)
    requires Iso(a) == Iso(b)
    ensures a == b
  {
    var ca, cb := CivilFromDays(a), CivilFromDays(b);
    var sa, sb := Iso(a), Iso(b);
    var ya, yb := YearText(ca.year), YearText(cb.year);
    assert |sa| == |ya| + 6 && |sb| == |yb| + 6;
    assert ya == sa[..|ya|] == sb[..|yb|] == yb;
    YearTextInjective(ca.year, cb.year);
    assert sa[|sa| - 5] == sb[|sb| - 5] && sa[|sa| - 4] == sb[|sb| - 4];
    assert sa[|sa| - 2] == sb[|sb| - 2] && sa[|sa| - 1] == sb[|sb| - 1];
    assert ca.month == cb.month && ca.day == cb.day;
    CivilFromDaysInjective(a, b);
  }

  lemma CivilExample()
    ensures CivilFromDays(19723) == Civil(2024, 1, 1)
    ensures CivilFromDays(19729) == Civil(2024, 1, 7)
  {
    assert (19723 + 719468) / 146097 == 5 && (19723 + 719468) % 146097 == 8706;
    assert (19729 + 719468) / 146097 == 5 && (19729 + 719468) % 146097 == 8712;
    assert YearOfEra(8706) == (23, 306);
    assert YearOfEra(8712) == (23, 312);
    assert MonthOfYear(306) == (10, 1);
    assert MonthOfYear(312) == (10, 7);
  }

  lemma YearTextExample()
    ensures YearText(2024) == "2024"
  {
    assert Padded(2, 1) == "2";
    assert Padded(20, 2) == "20";
    assert Padded(202, 3) == "202";
  }

  /** 2024-01-01 is day 19723. */
  lemma IsoExample()
    ensures Iso(19723) == "2024-01-01" && Iso(19729) == "2024-01-07"
  {
    CivilExample();
    YearTextExample();
  }
}
