/**
 * The part of JavaScript's `Date` that the pipeline observes, in UTC: a time
 * value is a count of milliseconds since 1970-01-01T00:00:00Z, and its
 * calendar fields come from the proleptic Gregorian calendar.
 */
module JsDate {
  import opened JsBuiltins

  /** The range of time values a `Date` can hold: 10^8 days either side of the epoch. */
  const MaxTimeValue: int := 8640000000000000

  type TimeValue = t: int | -MaxTimeValue <= t <= MaxTimeValue

  /** A calendar date: `month` is 1-based (1 = January), `day` is the day of the month. */
  datatype Civil = Civil(year: int, month: int, day: int)

  lemma Div1460(x: int, q: int)
    requires 1460 * q <= x < 1460 * q + 1460
    ensures x / 1460 == q
  {
  }

  lemma Div365(x: int, q: int)
    requires 365 * q <= x < 365 * q + 365
    ensures x / 365 == q
  {
  }

  lemma Div4(x: int, q: int)
    requires 4 * q <= x < 4 * q + 4
    ensures x / 4 == q
  {
  }

  lemma Div100(x: int, q: int)
    requires 100 * q <= x < 100 * q + 100
    ensures x / 100 == q
  {
  }

  /**
   * The shape of Hinnant's year-of-era formula on a day `doe` of a 400-year
   * era counted from 1 March of year 0 of the era: `yoe` is the year within
   * the era and the day left over is a day of that (March-based) year.
   */
  lemma {:induction false} YearOfEraBounds(doe: int)
    requires 0 <= doe < 146097
    ensures 0 <= (doe - doe / 1460 + doe / 36524 - doe / 146096) / 365 <= 399
    ensures var yoe := (doe - doe / 1460 + doe / 36524 - doe / 146096) / 365;
            0 <= doe - (365 * yoe + yoe / 4 - yoe / 100) <= 365
  {
    if doe == 146096 {
      assert doe / 1460 == 100 && doe / 36524 == 4 && doe / 146096 == 1;
      assert (doe - 100 + 4 - 1) / 365 == 399;
      assert 399 / 4 == 99 && 399 / 100 == 3;
    } else {
      // doe is day u of 4-year cycle j of century k.
      var k := doe / 36524;
      var t := doe % 36524;
      var j := t / 1461;
      var u := t % 1461;
      assert doe == 36524 * k + t && 0 <= t < 36524;
      assert t == 1461 * j + u && 0 <= u < 1461;
      YearOfEraInCycle(doe, k, j, u);
    }
  }

  /** `YearOfEraBounds` for a day `u` of 4-year cycle `j` of century `k` of an era, other than the era's last day. */
  lemma YearOfEraInCycle(doe: int, k: int, j: int, u: int)
    requires 0 <= doe < 146096 && doe == 36524 * k + 1461 * j + u
    requires 0 <= 1461 * j + u < 36524 && 0 <= u < 1461 && 0 <= k
    ensures 0 <= (doe - doe / 1460 + doe / 36524 - doe / 146096) / 365 <= 399
    ensures var yoe := (doe - doe / 1460 + doe / 36524 - doe / 146096) / 365;
            0 <= doe - (365 * yoe + yoe / 4 - yoe / 100) <= 365
  {
    assert 0 <= k <= 3 && 0 <= j <= 24;
    var e := if 24 * k + j + u >= 1460 then 1 else 0;
    Div1460(doe, 25 * k + j + e);
    Div36524(doe, k);
    assert doe / 146096 == 0;
    var a := doe - doe / 1460 + doe / 36524 - doe / 146096;
    assert a == 36500 * k + 1460 * j + (u - e);
    assert 0 <= u - e <= 1459;
    var w := (u - e) / 365;
    assert 0 <= w <= 3 && 365 * w <= u - e < 365 * w + 365;
    var yoe := 100 * k + 4 * j + w;
    Div365(a, yoe);
    Div4(yoe, 25 * k + j);
    Div100(yoe, k);
    assert (doe - doe / 1460 + doe / 36524 - doe / 146096) / 365 == yoe;
    assert doe - (365 * yoe + yoe / 4 - yoe / 100) == u - 365 * w;
  }

  lemma Div36524(x: int, q: int)
    requires 36524 * q <= x < 36524 * q + 36524
    ensures x / 36524 == q
  {
  }

  /** The 0-based year of the 400-year era (counted from March) that holds day `doe` of the era. */
  function YearOfEra(doe: int): (yoe: int)
    requires 0 <= doe < 146097
    ensures 0 <= yoe <= 399
    ensures 0 <= doe - (365 * yoe + yoe / 4 - yoe / 100) <= 365
  {
    YearOfEraBounds(doe);
    (doe - doe / 1460 + doe / 36524 - doe / 146096) / 365
  }

  /** The month index counted from March (0 = March, 11 = February) for a day of that year `doy`. */
  function MarchMonth(doy: int): (mp: int)
    requires 0 <= doy <= 365
    ensures 0 <= mp <= 11
    ensures 1 <= doy - (153 * mp + 2) / 5 + 1 <= 31
  {
    (5 * doy + 2) / 153
  }

  /**
   * A day broken down as Hinnant's civil-from-days algorithm does: the
   * 400-year era (eras start on 1 March of a year divisible by 400), the
   * year of the era, the month counted from March (0 = March, 11 =
   * February) and the day of that month.
   */
  datatype CivilParts = CivilParts(era: int, yoe: int, mp: int, d: int)

  /** The parts of the day `days` after 1970-01-01; they add back up to the day (day 719468 of era 0 is the epoch). */
  function PartsOfDays(days: int): (p: CivilParts)
    ensures 0 <= p.yoe <= 399 && 0 <= p.mp <= 11 && 1 <= p.d <= 31
    ensures days + 719468 == p.era * 146097 + (365 * p.yoe + p.yoe / 4 - p.yoe / 100) + (153 * p.mp + 2) / 5 + p.d - 1
  {
    var z := days + 719468;
    var era := z / 146097;
    var doe := z - era * 146097;
    var yoe := YearOfEra(doe);
    var doy := doe - (365 * yoe + yoe / 4 - yoe / 100);
    var mp := MarchMonth(doy);
    CivilParts(era, yoe, mp, doy - (153 * mp + 2) / 5 + 1)
  }

  /** The month (1 to 12) of the March-based month index `mp`. */
  function MonthOfMarchMonth(mp: int): (m: int)
    requires 0 <= mp <= 11
    ensures 1 <= m <= 12
  {
    if mp < 10 then mp + 3 else mp - 9
  }

  /** The calendar date the parts name: January and February belong to the next calendar year. */
  function CivilOfParts(p: CivilParts): (c: Civil)
    requires 0 <= p.mp <= 11
    ensures 1 <= c.month <= 12 && c.day == p.d
  {
    var m := MonthOfMarchMonth(p.mp);
    Civil(p.yoe + p.era * 400 + (if m <= 2 then 1 else 0), m, p.d)
  }

  /** The calendar date of the day `days` after 1970-01-01. */
  function CivilFromDays(days: int): (c: Civil)
    ensures 1 <= c.month <= 12 && 1 <= c.day <= 31
  {
    CivilOfParts(PartsOfDays(days))
  }

  /** The number of days from 1970-01-01 to a calendar date. */
  function DaysFromCivil(c: Civil): int
    requires 1 <= c.month <= 12
  {
    var y := c.year - (if c.month <= 2 then 1 else 0);
    var era := y / 400;
    var yoe := y - era * 400;
    var mp := if c.month > 2 then c.month - 3 else c.month + 9;
    var doy := (153 * mp + 2) / 5 + c.day - 1;
    var doe := yoe * 365 + yoe / 4 - yoe / 100 + doy;
    era * 146097 + doe - 719468
  }

  /** Converting a day count to a calendar date loses nothing: DaysFromCivil inverts CivilFromDays. */
  lemma CivilRoundTrip(days: int)
    ensures DaysFromCivil(CivilFromDays(days)) == days
  {
    DaysFromCivilOfParts(PartsOfDays(days));
  }

  /**
   * DaysFromCivil, on the date the parts name, adds the days of the eras,
   * the years, the months and the day back up.
   */
  lemma DaysFromCivilOfParts(p: CivilParts)
    requires 0 <= p.yoe <= 399 && 0 <= p.mp <= 11
    ensures DaysFromCivil(CivilOfParts(p))
            == p.era * 146097 + (365 * p.yoe + p.yoe / 4 - p.yoe / 100) + (153 * p.mp + 2) / 5 + p.d - 1 - 719468
  {
    var c := CivilOfParts(p);
    var y := p.yoe + p.era * 400;
    assert c.year - (if c.month <= 2 then 1 else 0) == y;
    Div400(y, p.era);
    assert (if c.month > 2 then c.month - 3 else c.month + 9) == p.mp;
  }

  lemma Div400(x: int, q: int)
    requires 400 * q <= x < 400 * q + 400
    ensures x / 400 == q
  {
  }

  /** Distinct day counts are distinct calendar dates. */
  lemma CivilInjective(d1: int, d2: int)
    requires CivilFromDays(d1) == CivilFromDays(d2)
    ensures d1 == d2
  {
    CivilRoundTrip(d1);
    CivilRoundTrip(d2);
  }

  /** Day 19431 after the epoch is 15 March 2023. */
  lemma Day19431()
    ensures CivilFromDays(19431) == Civil(2023, 3, 15)
  {
    // 19431 + 719468 is day 8414 of era 5; 8414 is day 14 of year 23 of the era.
    assert (19431 + 719468) / 146097 == 5;
    assert YearOfEra(8414) == 23;
    assert MarchMonth(14) == 0;
    assert PartsOfDays(19431) == CivilParts(5, 23, 0, 15);
  }

  // ---------------------------------------------------------------------------
  // Date.prototype.toISOString
  // ---------------------------------------------------------------------------

  /** An integer below `10^width` in exactly `width` digits, zero-padded on the left. */
  function Padded(n: nat, width: nat): (s: string)
  {
    PadStart(NatToDecimal(n), width, '0')
  }

  /** A zero-padded number reads back as itself. */
  lemma PaddedValue(n: nat, width: nat)
    ensures AllDigits(Padded(n, width)) && DecimalValue(Padded(n, width)) == n
    ensures |NatToDecimal(n)| <= width ==> |Padded(n, width)| == width
  {
    ZeroPadValue(NatToDecimal(n), width);
    DecimalRoundTrip(n);
  }

  /** Four digits for the years 0 to 9999; otherwise a sign and six digits. */
  function IsoYear(y: int): string
  {
    if 0 <= y <= 9999 then Padded(y, 4)
    else (if y < 0 then "-" else "+") + Padded(if y < 0 then -y else y, 6)
  }

  /** `new Date(t).toISOString()`: YYYY-MM-DDTHH:mm:ss.sssZ in UTC. */
  function IsoString(t: TimeValue): string
  {
    var ms := t % 86400000;
    IsoText(CivilFromDays(t / 86400000), ms / 3600000, ms / 60000 % 60, ms / 1000 % 60, ms % 1000)
  }

  /** The ISO text of a date and a time of day. */
  function IsoText(c: Civil, h: nat, mn: nat, sc: nat, f: nat): string
    requires c.month >= 1 && c.day >= 1
  {
    IsoDate(c) + "T" + IsoClock(h, mn, sc, f) + "Z"
  }

  /** The date part of an ISO string: YYYY-MM-DD. */
  function IsoDate(c: Civil): string
    requires c.month >= 1 && c.day >= 1
  {
    IsoYear(c.year) + "-" + Padded(c.month, 2) + "-" + Padded(c.day, 2)
  }

  /** The time part of an ISO string: HH:mm:ss.sss. */
  function IsoClock(h: nat, mn: nat, sc: nat, f: nat): string
  {
    Padded(h, 2) + ":" + Padded(mn, 2) + ":" + Padded(sc, 2) + "." + Padded(f, 3)
  }

  /** The fixed layout of a 24-character ISO string whose fields are all digits. */
  predicate IsIsoLayout(s: string) {
    && |s| == 24
    && s[4] == '-' && s[7] == '-' && s[10] == 'T' && s[13] == ':' && s[16] == ':'
    && s[19] == '.' && s[23] == 'Z'
    && AllDigits(s[0..4]) && AllDigits(s[5..7]) && AllDigits(s[8..10])
    && AllDigits(s[11..13]) && AllDigits(s[14..16]) && AllDigits(s[17..19]) && AllDigits(s[20..23])
  }

  /** The time value an ISO string of that layout denotes. */
  function IsoTimeValue(s: string): int
    requires IsIsoLayout(s)
  {
    var month := DecimalValue(s[5..7]);
    if 1 <= month <= 12 then
      DaysFromCivil(Civil(DecimalValue(s[0..4]), month, DecimalValue(s[8..10]))) * 86400000
        + DecimalValue(s[11..13]) * 3600000 + DecimalValue(s[14..16]) * 60000
        + DecimalValue(s[17..19]) * 1000 + DecimalValue(s[20..23])
    else 0
  }

  /** The fields of the date part of an ISO string of a year from 0 to 9999. */
  predicate DateFieldsAre(t: string, c: Civil) {
    && |t| == 10 && t[4] == '-' && t[7] == '-'
    && AllDigits(t[0..4]) && AllDigits(t[5..7]) && AllDigits(t[8..10])
    && DecimalValue(t[0..4]) == c.year && DecimalValue(t[5..7]) == c.month && DecimalValue(t[8..10]) == c.day
  }

  /** The fields of the time part of an ISO string. */
  predicate ClockFieldsAre(t: string, h: nat, mn: nat, sc: nat, f: nat) {
    && |t| == 12 && t[2] == ':' && t[5] == ':' && t[8] == '.'
    && AllDigits(t[0..2]) && AllDigits(t[3..5]) && AllDigits(t[6..8]) && AllDigits(t[9..12])
    && DecimalValue(t[0..2]) == h && DecimalValue(t[3..5]) == mn
    && DecimalValue(t[6..8]) == sc && DecimalValue(t[9..12]) == f
  }

  /** The date part of a year from 0 to 9999 has four, two and two digits that read back as the year, month and day. */
  lemma IsoDateFields(c: Civil)
    requires 0 <= c.year <= 9999 && 1 <= c.month <= 12 && 1 <= c.day <= 31
    ensures DateFieldsAre(IsoDate(c), c)
  {
    var y, mo, d := IsoYear(c.year), Padded(c.month, 2), Padded(c.day, 2);
    assert |y| == 4 && AllDigits(y) && DecimalValue(y) == c.year by { PaddedField(c.year, 4); }
    assert |mo| == 2 && AllDigits(mo) && DecimalValue(mo) == c.month by { PaddedField(c.month, 2); }
    assert |d| == 2 && AllDigits(d) && DecimalValue(d) == c.day by { PaddedField(c.day, 2); }
    FieldsOfDate(y, mo, d, c);
  }

  /** The time part of an in-range time of day has two, two, two and three digits that read back as its fields. */
  lemma IsoClockFields(h: nat, mn: nat, sc: nat, f: nat)
    requires h < 24 && mn < 60 && sc < 60 && f < 1000
    ensures ClockFieldsAre(IsoClock(h, mn, sc, f), h, mn, sc, f)
  {
    var hh, mi, ss, fr := Padded(h, 2), Padded(mn, 2), Padded(sc, 2), Padded(f, 3);
    assert |hh| == 2 && AllDigits(hh) && DecimalValue(hh) == h by { PaddedField(h, 2); }
    assert |mi| == 2 && AllDigits(mi) && DecimalValue(mi) == mn by { PaddedField(mn, 2); }
    assert |ss| == 2 && AllDigits(ss) && DecimalValue(ss) == sc by { PaddedField(sc, 2); }
    assert |fr| == 3 && AllDigits(fr) && DecimalValue(fr) == f by { PaddedField(f, 3); }
    FieldsOfClock(hh, mi, ss, fr, h, mn, sc, f);
  }

  /** A year, a month and a day joined by dashes sit at their places. */
  lemma SlicesOfDate(t: string, y: string, mo: string, d: string)
    requires |y| == 4 && |mo| == 2 && |d| == 2 && t == y + "-" + mo + "-" + d
    ensures |t| == 10 && t[4] == '-' && t[7] == '-' && t[0..4] == y && t[5..7] == mo && t[8..10] == d
  {
  }

  /** Hours, minutes, seconds and milliseconds joined by their separators sit at their places. */
  lemma SlicesOfClock(t: string, hh: string, mi: string, ss: string, fr: string)
    requires |hh| == 2 && |mi| == 2 && |ss| == 2 && |fr| == 3 && t == hh + ":" + mi + ":" + ss + "." + fr
    ensures |t| == 12 && t[2] == ':' && t[5] == ':' && t[8] == '.'
    ensures t[0..2] == hh && t[3..5] == mi && t[6..8] == ss && t[9..12] == fr
  {
  }

  /** A slice equal to a digit string is digits with the same value. */
  lemma DigitSlice(t: string, i: nat, j: nat, piece: string)
    requires i <= j <= |t| && t[i..j] == piece && AllDigits(piece)
    ensures AllDigits(t[i..j]) && DecimalValue(t[i..j]) == DecimalValue(piece)
  {
  }

  /** Digit strings of widths four, two and two joined by dashes form a date part with their values as fields. */
  lemma FieldsOfDate(y: string, mo: string, d: string, c: Civil)
    requires |y| == 4 && |mo| == 2 && |d| == 2
    requires AllDigits(y) && AllDigits(mo) && AllDigits(d)
    requires DecimalValue(y) == c.year && DecimalValue(mo) == c.month && DecimalValue(d) == c.day
    ensures DateFieldsAre(y + "-" + mo + "-" + d, c)
  {
    var t := y + "-" + mo + "-" + d;
    SlicesOfDate(t, y, mo, d);
    DigitSlice(t, 0, 4, y);
    DigitSlice(t, 5, 7, mo);
    DigitSlice(t, 8, 10, d);
  }

  /** Digit strings of widths two, two, two and three joined by the clock separators form a time part with their values as fields. */
  lemma FieldsOfClock(hh: string, mi: string, ss: string, fr: string, h: nat, mn: nat, sc: nat, f: nat)
    requires |hh| == 2 && |mi| == 2 && |ss| == 2 && |fr| == 3
    requires AllDigits(hh) && AllDigits(mi) && AllDigits(ss) && AllDigits(fr)
    requires DecimalValue(hh) == h && DecimalValue(mi) == mn && DecimalValue(ss) == sc && DecimalValue(fr) == f
    ensures ClockFieldsAre(hh + ":" + mi + ":" + ss + "." + fr, h, mn, sc, f)
  {
    var t := hh + ":" + mi + ":" + ss + "." + fr;
    SlicesOfClock(t, hh, mi, ss, fr);
    DigitSlice(t, 0, 2, hh);
    DigitSlice(t, 3, 5, mi);
    DigitSlice(t, 6, 8, ss);
    DigitSlice(t, 9, 12, fr);
  }

  /** A date part and a time part joined by `T` and closed by `Z` have the ISO layout, with the parts' fields in place. */
  lemma IsoLayoutOfParts(dt: string, cl: string, c: Civil, h: nat, mn: nat, sc: nat, f: nat)
    requires DateFieldsAre(dt, c) && ClockFieldsAre(cl, h, mn, sc, f)
    ensures var s := dt + "T" + cl + "Z";
            && IsIsoLayout(s)
            && s[0..4] == dt[0..4] && s[5..7] == dt[5..7] && s[8..10] == dt[8..10]
            && s[11..13] == cl[0..2] && s[14..16] == cl[3..5] && s[17..19] == cl[6..8] && s[20..23] == cl[9..12]
  {
    var s := dt + "T" + cl + "Z";
    assert s[0..4] == dt[0..4] && s[5..7] == dt[5..7] && s[8..10] == dt[8..10];
    assert s[11..13] == cl[0..2] && s[14..16] == cl[3..5] && s[17..19] == cl[6..8] && s[20..23] == cl[9..12];
  }

  /** A millisecond of the day splits into hours, minutes, seconds and milliseconds. */
  lemma TimeOfDaySplit(ms: int)
    requires 0 <= ms < 86400000
    ensures ms / 3600000 < 24
    ensures ms == ms / 3600000 * 3600000 + ms / 60000 % 60 * 60000 + ms / 1000 % 60 * 1000 + ms % 1000
  {
    var h := ms / 3600000;
    var r1 := ms % 3600000;
    var m := r1 / 60000;
    var r2 := r1 % 60000;
    var s := r2 / 1000;
    var f := r2 % 1000;
    assert ms == 3600000 * h + r1 && 0 <= r1 < 3600000;
    assert r1 == 60000 * m + r2 && 0 <= r2 < 60000 && 0 <= m < 60;
    assert r2 == 1000 * s + f && 0 <= f < 1000 && 0 <= s < 60;
    Div60000(ms, 60 * h + m);
    Mod60(60 * h + m, h, m);
    Div1000(ms, 3600 * h + 60 * m + s);
    Mod60(3600 * h + 60 * m + s, 60 * h + m, s);
    Mod1000(ms, 3600 * h + 60 * m + s, f);
    assert ms / 60000 % 60 == m && ms / 1000 % 60 == s && ms % 1000 == f;
  }

  lemma Div60000(x: int, q: int)
    requires 60000 * q <= x < 60000 * q + 60000
    ensures x / 60000 == q
  {
  }

  lemma Div1000(x: int, q: int)
    requires 1000 * q <= x < 1000 * q + 1000
    ensures x / 1000 == q
  {
  }

  lemma Mod1000(x: int, q: int, r: int)
    requires x == 1000 * q + r && 0 <= r < 1000
    ensures x % 1000 == r
  {
  }

  lemma Mod60(x: int, q: int, r: int)
    requires x == 60 * q + r && 0 <= r < 60
    ensures x % 60 == r
  {
  }

  /** The time value of an ISO string in terms of the numbers its fields hold. */
  lemma IsoTimeValueOfFields(s: string, c: Civil, h: nat, mn: nat, sc: nat, f: nat)
    requires IsIsoLayout(s) && 1 <= c.month <= 12
    requires DecimalValue(s[0..4]) == c.year && DecimalValue(s[5..7]) == c.month && DecimalValue(s[8..10]) == c.day
    requires DecimalValue(s[11..13]) == h && DecimalValue(s[14..16]) == mn
    requires DecimalValue(s[17..19]) == sc && DecimalValue(s[20..23]) == f
    ensures IsoTimeValue(s) == DaysFromCivil(c) * 86400000 + h * 3600000 + mn * 60000 + sc * 1000 + f
  {
  }

  /** A number below `10^width`, zero-padded to `width`, is `width` digits that read back as the number. */
  lemma PaddedField(n: nat, width: nat)
    requires 1 <= width <= 4 && n < Pow10(width)
    ensures |Padded(n, width)| == width && AllDigits(Padded(n, width)) && DecimalValue(Padded(n, width)) == n
  {
    PaddedValue(n, width);
    DigitCount(n, width);
  }

  /** The ISO text of in-range fields has the ISO layout, and each of its fields reads back as the number it was made from. */
  lemma IsoTextFields(c: Civil, h: nat, mn: nat, sc: nat, f: nat)
    requires 0 <= c.year <= 9999 && 1 <= c.month <= 12 && 1 <= c.day <= 31
    requires h < 24 && mn < 60 && sc < 60 && f < 1000
    ensures var s := IsoText(c, h, mn, sc, f);
            && IsIsoLayout(s)
            && DecimalValue(s[0..4]) == c.year && DecimalValue(s[5..7]) == c.month && DecimalValue(s[8..10]) == c.day
            && DecimalValue(s[11..13]) == h && DecimalValue(s[14..16]) == mn
            && DecimalValue(s[17..19]) == sc && DecimalValue(s[20..23]) == f
  {
    IsoDateFields(c);
    IsoClockFields(h, mn, sc, f);
    IsoLayoutOfParts(IsoDate(c), IsoClock(h, mn, sc, f), c, h, mn, sc, f);
  }

  /** The ISO text of in-range fields has the ISO layout and denotes the time value of those fields. */
  lemma IsoTextRoundTrip(c: Civil, h: nat, mn: nat, sc: nat, f: nat)
    requires 0 <= c.year <= 9999 && 1 <= c.month <= 12 && 1 <= c.day <= 31
    requires h < 24 && mn < 60 && sc < 60 && f < 1000
    ensures IsIsoLayout(IsoText(c, h, mn, sc, f))
    ensures IsoTimeValue(IsoText(c, h, mn, sc, f)) == DaysFromCivil(c) * 86400000 + h * 3600000 + mn * 60000 + sc * 1000 + f
  {
    IsoTextFields(c, h, mn, sc, f);
    IsoTimeValueOfFields(IsoText(c, h, mn, sc, f), c, h, mn, sc, f);
  }

  /**
   * For the years 0 to 9999 the ISO string has the fixed 24-character layout,
   * and reading its fields back gives the time value it was made from.
   */
  lemma {:induction false} IsoStringRoundTrip(t: TimeValue)
    requires 0 <= CivilFromDays(t / 86400000).year <= 9999
    ensures IsIsoLayout(IsoString(t)) && IsoTimeValue(IsoString(t)) == t
  {
    var ms := t % 86400000;
    TimeOfDaySplit(ms);
    IsoTextRoundTrip(CivilFromDays(t / 86400000), ms / 3600000, ms / 60000 % 60, ms / 1000 % 60, ms % 1000);
    CivilRoundTrip(t / 86400000);
  }

  /** A number below `10^width` has at most `width` digits. */
  lemma {:induction false} DigitCount(n: nat, width: nat)
    requires 1 <= width <= 4
    requires n < Pow10(width)
    ensures |NatToDecimal(n)| <= width
  {
    if n >= 10 {
      DigitCount(n / 10, width - 1);
    }
  }

  function Pow10(k: nat): (p: nat)
    ensures p >= 1
  {
    if k == 0 then 1 else 10 * Pow10(k - 1)
  }
}
