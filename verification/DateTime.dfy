/** Conversion between seconds since the epoch and RFC 3339 timestamps (section 5.6 of RFC 3339). */
module DateTime {
  import opened Text
  import opened Calendar

  const DAY := 86400

  // ---------------------------------------------------------------- printing

  function Pad2(n: nat): (s: string)
    requires n < 100
    ensures |s| == 2 && AllDigits(s)
  {
    [DigitChar(n / 10), DigitChar(n % 10)]
  }

  function Pad4(n: nat): (s: string)
    requires n < 10000
    ensures |s| == 4 && AllDigits(s)
  {
    Pad2(n / 100) + Pad2(n % 100)
  }

  lemma ValueSnoc(a: string, d: nat)
    requires AllDigits(a) && d < 10
    ensures AllDigits(a + [DigitChar(d)]) && DigitsValue(a + [DigitChar(d)]) == 10 * DigitsValue(a) + d
  {
    var s := a + [DigitChar(d)];
    assert s[..|s| - 1] == a;
  }

  lemma AppendPad2(a: string, n: nat)
    requires AllDigits(a) && n < 100
    ensures AllDigits(a + Pad2(n)) && DigitsValue(a + Pad2(n)) == 100 * DigitsValue(a) + n
  {
    var t := a + [DigitChar(n / 10)];
    ValueSnoc(a, n / 10);
    ValueSnoc(t, n % 10);
    assert a + Pad2(n) == t + [DigitChar(n % 10)];
  }

  lemma Pad2Value(n: nat)
    requires n < 100
    ensures DigitsValue(Pad2(n)) == n
  {
    AppendPad2("", n);
    assert "" + Pad2(n) == Pad2(n);
  }

  lemma Pad4Value(n: nat)
    requires n < 10000
    ensures DigitsValue(Pad4(n)) == n
  {
    Pad2Value(n / 100);
    AppendPad2(Pad2(n / 100), n % 100);
  }

  /** "%04d" for a year that is not negative. */
  function Year(y: nat): (s: string)
    ensures |s| >= 4 && AllDigits(s)
  {
    if y < 10000 then Pad4(y) else LongYear(y); Decimal(y)
  }

  lemma LongYear(y: nat)
    requires y >= 10000
    ensures |Decimal(y)| >= 5
  {
    assert |Decimal(y / 10000)| >= 1;
    assert y / 10 / 10 / 10 / 10 == y / 10000;
    assert |Decimal(y / 10 / 10 / 10)| >= 2;
    assert |Decimal(y / 10)| >= 4;
  }

  /** struct tm: the year in full, the month from 0. */
  datatype Tm = Tm(year: int, mon: int, mday: int, hour: int, min: int, sec: int)

  predicate ValidTm(tm: Tm) {
    && 0 <= tm.mon < 12 && 1 <= tm.mday <= 31
    && 0 <= tm.hour < 24 && 0 <= tm.min < 60 && 0 <= tm.sec < 60
  }

  /** Fields that are printed in two digits each. */
  predicate TwoDigits(tm: Tm) {
    && -1 <= tm.mon < 99 && 0 <= tm.mday < 100
    && 0 <= tm.hour < 100 && 0 <= tm.min < 100 && 0 <= tm.sec < 100
  }

  /** gmtime_r() */
  function Gmtime(time: int): (tm: Tm)
    ensures ValidTm(tm)
  {
    var c, secs := CivilOf(time / DAY), time % DAY;
    Tm(c.year, c.month - 1, c.day, secs / 3600, secs / 60 % 60, secs % 60)
  }

  /** "YYYY-MM-DDThh:mm:ss". */
  function Stamp(tm: Tm): string
    requires TwoDigits(tm) && tm.year >= 0
  {
    Year(tm.year) + "-" + Pad2(tm.mon + 1) + "-" + Pad2(tm.mday) + "T" +
    Pad2(tm.hour) + ":" + Pad2(tm.min) + ":" + Pad2(tm.sec)
  }

  /** Division in C truncates towards zero. */
  function TruncDiv(a: int, b: nat): int
    requires b > 0
  {
    if a >= 0 then a / b else -((-a) / b)
  }

  function TruncMod(a: int, b: nat): int
    requires b > 0
  {
    a - b * TruncDiv(a, b)
  }

  /** The two numbers an offset is printed as. */
  function Hours(off: int): (h: int)
    ensures -360000 < off < 360000 ==> -100 < h < 100
  {
    TruncDiv(TruncDiv(off, 60), 60)
  }

  function Minutes(off: int): (m: int)
    ensures -60 < m < 60
  {
    TruncMod(TruncDiv(off, 60), 60)
  }

  /** "%+03d:%02d"; negative minutes carry a sign of their own. */
  function HourMinute(h: int, m: int): (s: string)
    requires -100 < h < 100 && -60 < m < 60
    ensures |s| >= 4 && (s[0] == '+' || s[0] == '-')
  {
    [if h >= 0 then '+' else '-'] + (Pad2(if h >= 0 then h else -h) + (":" + MinuteText(m)))
  }

  function MinuteText(m: int): string
    requires -60 < m < 60
  {
    if m >= 0 then Pad2(m) else "-" + Decimal(-m)
  }

  function Zone(off: int): (s: string)
    requires -360000 < off < 360000
    ensures s != "" && !IsDigit(s[0]) && s[0] != '.'
  {
    if off == 0 then "Z" else HourMinute(Hours(off), Minutes(off))
  }

  /** nc_time2datetime() for a time zone with the given offset; years before 0 are refused. */
  function Print(t: int, off: int): Option<string>
    requires -360000 < off < 360000
  {
    PrintTm(Gmtime(t + off), Zone(off))
  }

  function PrintTm(tm: Tm, zone: string): Option<string>
    requires ValidTm(tm)
  {
    if tm.year < 0 then None else Some(Stamp(tm) + zone)
  }

  // ---------------------------------------------------------------- parsing

  /** A C string can be read at its terminator. */
  function At(s: string, i: nat): char {
    if i < |s| then s[i] else '\0'
  }

  /** timegm(): months out of range carry into the year, the rest adds up. */
  function Timegm(tm: Tm): int {
    DAY * (DayNumber(tm.year + tm.mon / 12, tm.mon % 12 + 1, 1) + tm.mday - 1) + 3600 * tm.hour + 60 * tm.min + tm.sec
  }

  predicate Shaped(dt: string) {
    |dt| >= 20 && dt[4] == '-' && dt[7] == '-' && dt[13] == ':' && dt[16] == ':'
  }

  /** struct tm as parsed. */
  function ReadTm(dt: string): Tm
    requires Shaped(dt)
  {
    Tm(Strtol(dt), Strtol(dt[5..]) - 1, Strtol(dt[8..]), Strtol(dt[11..]), Strtol(dt[14..]), Strtol(dt[17..]))
  }

  /** What follows the seconds, without a fraction. */
  function ZoneText(dt: string): string
    requires |dt| >= 20
  {
    if dt[19] == '.' then dt[20 + |LeadingDigits(dt[20..])|..] else dt[19..]
  }

  /** The offset in seconds, if it has the right shape. */
  function Shift(zone: string): Option<int> {
    if At(zone, 0) == 'Z' || At(zone, 0) == 'z' then Some(0)
    else if At(zone, 3) != ':' then None
    else
      var shift := Strtol(zone) * 60 * 60;
      var minutes := Strtol(zone[4..]) * 60;
      Some(shift + if shift < 0 then -minutes else minutes)
  }

  /** nc_datetime2time(), -1 on error. */
  function Parse(dt: string): int {
    if !Shaped(dt) then -1 else
    match Shift(ZoneText(dt))
    case None => -1
    case Some(shift) => Timegm(ReadTm(dt)) - shift
  }

  /** The loop that skips the digits of a fraction. */
  method SkipFraction(dt: string) returns (i: nat)
    requires |dt| >= 20
    ensures i <= |dt| && dt[i..] == ZoneText(dt)
  {
    i := 19;
    if dt[i] == '.' {
      i := 20;
      assert dt[20..20] == "";
      while i < |dt| && IsDigit(dt[i])
        invariant 20 <= i <= |dt| && AllDigits(dt[20..i])
      {
        assert dt[20..i + 1] == dt[20..i] + [dt[i]];
        i := i + 1;
      }
      assert dt[20..] == dt[20..i] + dt[i..];
      LeadingDigitsAre(dt[20..i], dt[i..]);
    }
  }

  /** nc_datetime2time() step by step. What it refuses, it refuses for the length or one of five characters. */
  method DateTimeToTime(dt: string) returns (t: int)
    ensures t == Parse(dt)
    ensures |dt| < 20 || At(dt, 4) != '-' || At(dt, 7) != '-' || At(dt, 13) != ':' || At(dt, 16) != ':' ==> t == -1
  {
    if |dt| < 20 || dt[4] != '-' || dt[7] != '-' || dt[13] != ':' || dt[16] != ':' {
      return -1;
    }
    t := Timegm(ReadTm(dt));
    var i := SkipFraction(dt);
    var shift := Shift(dt[i..]);
    if shift.None? {
      return -1;
    }
    t := t - shift.value;
  }

  // ---------------------------------------------------------------- round trip

  lemma ScansTo(digits: string, rest: string)
    requires digits != "" && AllDigits(digits) && DigitsValue(digits) < 1_000_000
    requires rest == "" || !IsDigit(rest[0])
    ensures Strtol(digits + rest) == DigitsValue(digits)
  {
    ScanDigits(digits, rest);
  }

  lemma SignedScan(sign: char, digits: string, rest: string)
    requires sign == '+' || sign == '-'
    requires digits != "" && AllDigits(digits) && DigitsValue(digits) < 1_000_000
    requires rest == "" || !IsDigit(rest[0])
    ensures Strtol([sign] + (digits + rest)) == (if sign == '-' then 0 - DigitsValue(digits) else DigitsValue(digits))
  {
    SignIsScanned(sign, digits, rest);
  }

  /** The six numbers of a stamp, whatever non-digit follows it. */
  lemma ReadsNumbers(y: string, m: string, d: string, h: string, mi: string, s: string, zone: string)
    requires |y| == 4 && |m| == |d| == |h| == |mi| == |s| == 2
    requires AllDigits(y) && AllDigits(m) && AllDigits(d) && AllDigits(h) && AllDigits(mi) && AllDigits(s)
    requires zone != ""
    ensures var dt := y + ("-" + (m + ("-" + (d + ("T" + (h + (":" + (mi + (":" + (s + zone))))))))));
            && Shaped(dt) && dt[19..] == zone
            && dt[5..] == m + ("-" + (d + ("T" + (h + (":" + (mi + (":" + (s + zone))))))))
            && dt[8..] == d + ("T" + (h + (":" + (mi + (":" + (s + zone))))))
            && dt[11..] == h + (":" + (mi + (":" + (s + zone))))
            && dt[14..] == mi + (":" + (s + zone))
            && dt[17..] == s + zone
  {
  }

  lemma StampSplits(tm: Tm, zone: string)
    requires TwoDigits(tm) && 0 <= tm.year < 10000
    ensures Stamp(tm) + zone
         == Pad4(tm.year) + ("-" + (Pad2(tm.mon + 1) + ("-" + (Pad2(tm.mday) + ("T" + (Pad2(tm.hour) + (":" +
            (Pad2(tm.min) + (":" + (Pad2(tm.sec) + zone))))))))))
  {
  }

  /** A stamp with a four-digit year reads back as the struct tm it was printed from, valid or not. */
  lemma StampFields(tm: Tm, zone: string)
    requires TwoDigits(tm) && 0 <= tm.year < 10000
    requires zone != "" && !IsDigit(zone[0])
    ensures var dt := Stamp(tm) + zone; Shaped(dt) && dt[19..] == zone && ReadTm(dt) == tm
  {
    var y, m, d := Pad4(tm.year), Pad2(tm.mon + 1), Pad2(tm.mday);
    var h, mi, s := Pad2(tm.hour), Pad2(tm.min), Pad2(tm.sec);
    Pad4Value(tm.year);
    Pad2Value(tm.mon + 1);
    Pad2Value(tm.mday);
    Pad2Value(tm.hour);
    Pad2Value(tm.min);
    Pad2Value(tm.sec);
    StampSplits(tm, zone);
    ReadsNumbers(y, m, d, h, mi, s, zone);
    ScansTo(y, "-" + (m + ("-" + (d + ("T" + (h + (":" + (mi + (":" + (s + zone))))))))));
    ScansTo(m, "-" + (d + ("T" + (h + (":" + (mi + (":" + (s + zone))))))));
    ScansTo(d, "T" + (h + (":" + (mi + (":" + (s + zone))))));
    ScansTo(h, ":" + (mi + (":" + (s + zone))));
    ScansTo(mi, ":" + (s + zone));
    ScansTo(s, zone);
  }

  lemma TimegmUndoesGmtime(time: int)
    ensures Timegm(Gmtime(time)) == time
  {
    var n, secs := time / DAY, time % DAY;
    var c := CivilOf(n);
    NumberOfCivil(n);
    assert (c.month - 1) / 12 == 0 && (c.month - 1) % 12 + 1 == c.month;
    PositiveSplit(secs);
    assert secs / 3600 == secs / 60 / 60;
    assert time == DAY * n + secs;
  }

  /** The offsets that survive printing and parsing. */
  predicate FaithfulOffset(off: int) {
    off % 60 == 0 && (off > -3600 || off % 3600 == 0)
  }

  lemma MinutesScan(m: int)
    requires -60 < m < 60
    ensures Strtol(MinuteText(m)) == m
  {
    if m >= 0 {
      assert Pad2(m) + "" == Pad2(m);
      Pad2Value(m);
      ScansTo(Pad2(m), "");
    } else {
      DecimalValue(-m);
      SignedScan('-', Decimal(-m), "");
      assert ['-'] + (Decimal(-m) + "") == "-" + Decimal(-m);
    }
  }

  /** Minutes are subtracted from negative hours and added to others. */
  function ReadBack(h: int, m: int): int {
    3600 * h + if h < 0 then -(60 * m) else 60 * m
  }

  lemma HoursScan(h: int, m: int)
    requires -100 < h < 100 && -60 < m < 60
    ensures var z := HourMinute(h, m); z[3] == ':' && z[4..] == MinuteText(m) && Strtol(z) == h
  {
    var sign := if h >= 0 then '+' else '-';
    var digits := Pad2(if h >= 0 then h else -h);
    var rest := ":" + MinuteText(m);
    var z := [sign] + (digits + rest);
    assert z[1..] == digits + rest && (digits + rest)[2..] == rest && rest[1..] == MinuteText(m);
    assert z[4..] == z[1..][2..][1..];
    Pad2Value(if h >= 0 then h else -h);
    SignedScan(sign, digits, rest);
  }

  lemma ShiftOfHourMinute(h: int, m: int)
    requires -100 < h < 100 && -60 < m < 60
    ensures Shift(HourMinute(h, m)) == Some(ReadBack(h, m))
  {
    HoursScan(h, m);
    MinutesScan(m);
    ShiftOf(HourMinute(h, m), h, m);
  }

  lemma ShiftOf(zone: string, h: int, m: int)
    requires |zone| >= 4 && zone[0] != 'Z' && zone[0] != 'z' && zone[3] == ':'
    requires Strtol(zone) == h && Strtol(zone[4..]) == m
    ensures Shift(zone) == Some(ReadBack(h, m))
  {
    assert At(zone, 0) == zone[0] && At(zone, 3) == ':';
  }

  lemma PositiveSplit(a: nat)
    ensures a == 3600 * (a / 60 / 60) + 60 * (a / 60 % 60) + a % 60
    ensures a % 3600 == 60 * (a / 60 % 60) + a % 60
    ensures a / 60 % 60 == a / 60 - 60 * (a / 60 / 60)
  {
    var q, r := a / 60, a % 60;
    var h, m := q / 60, q % 60;
    assert a == 60 * q + r && q == 60 * h + m;
    assert a == 3600 * h + (60 * m + r) && 0 <= 60 * m + r < 3600;
  }

  lemma NegativeRemainders(a: int)
    ensures (-a) % 60 == 0 <==> a % 60 == 0
    ensures (-a) % 3600 == 0 <==> a % 3600 == 0
  {
  }

  lemma ReadBackIff(off: int)
    ensures ReadBack(Hours(off), Minutes(off)) == off <==> FaithfulOffset(off)
  {
    var a := if off >= 0 then off else -off;
    PositiveSplit(a);
    NegativeRemainders(a);
    var h, m, s := a / 60 / 60, a / 60 % 60, a % 60;
    if off >= 0 {
      assert Hours(off) == h && Minutes(off) == m;
    } else {
      assert Hours(off) == -h && Minutes(off) == -m;
      assert ReadBack(-h, -m) == if h > 0 then -3600 * h + 60 * m else -(60 * m);
      assert off == -3600 * h - 60 * m - s;
    }
  }

  /** The offset read back is the one printed exactly for the faithful ones. */
  lemma ShiftIff(off: int)
    requires -360000 < off < 360000
    ensures Shift(Zone(off)).Some?
    ensures Shift(Zone(off)) == Some(off) <==> FaithfulOffset(off)
  {
    if off != 0 {
      ShiftOfHourMinute(Hours(off), Minutes(off));
      ReadBackIff(off);
    }
  }

  lemma HoursAndMinutes(a: int)
    requires a >= 0
    ensures Hours(a) == a / 60 / 60 && Minutes(a) == a / 60 % 60
    ensures Hours(-a) == -(a / 60 / 60) && Minutes(-a) == -(a / 60 % 60)
  {
    PositiveSplit(a);
  }

  /** The number a printed offset reads back as. */
  function PrintedShift(off: int): int {
    if off >= 0 then off - off % 60
    else if off > -3600 then off + -off % 60
    else -3600 * (-off / 3600) + (-off % 3600 - -off % 60)
  }

  lemma ReadBackIs(off: int)
    ensures ReadBack(Hours(off), Minutes(off)) == PrintedShift(off)
  {
    var a := if off >= 0 then off else -off;
    HoursAndMinutes(a);
    PositiveSplit(a);
    assert a / 3600 == a / 60 / 60;
  }

  /**
   * What a printed offset reads back as: its whole minutes, but west of -1 hour the minutes beyond the
   * hours count the wrong way.
   */
  lemma ShiftOfPrinted(off: int)
    requires -360000 < off < 360000
    ensures Shift(Zone(off)) == Some(PrintedShift(off))
  {
    if off != 0 {
      ShiftOfHourMinute(Hours(off), Minutes(off));
      ReadBackIs(off);
    }
  }

  /**
   * A time printed with any offset below 100 hours reads back as itself if and only if its local
   * year has at most four digits and is not negative, the offset is a whole number of minutes,
   * and it is above -1 hour or a whole number of hours. UTC, all non-negative whole-minute
   * offsets and all negative whole-hour offsets are among these.
   */
  lemma DateTimeRoundTripIff(t: int, off: int)
    requires -360000 < off < 360000
    ensures var p := Print(t, off);
            (p.Some? && Parse(p.value) == t) <==>
              0 <= Gmtime(t + off).year <= 9999 && FaithfulOffset(off)
  {
    TimegmUndoesGmtime(t + off);
    FarFuture(t + off);
    PrintWithOffsetIff(Gmtime(t + off), t, off);
  }

  /** The epoch, printed an hour and a half west of Greenwich, reads back as another time. */
  lemma HalfHourWestIsLost()
    ensures Print(0, -5400).Some? && Parse(Print(0, -5400).value) != 0
  {
    DateTimeRoundTripIff(0, -5400);
    assert -5400 / DAY == -1 && CivilOf(-1) == PreviousDay(CivilOf(0));
  }

  lemma PrintWithOffsetIff(tm: Tm, t: int, off: int)
    requires -360000 < off < 360000
    requires ValidTm(tm) && Timegm(tm) == t + off && (tm.year >= 10000 ==> t >= 0)
    ensures var p := PrintTm(tm, Zone(off));
            (p.Some? && Parse(p.value) == t) <==> 0 <= tm.year <= 9999 && FaithfulOffset(off)
  {
    ShiftIff(off);
    PrintTmIff(tm, Zone(off), t, off);
  }

  lemma PrintTmIff(tm: Tm, zone: string, t: int, off: int)
    requires ValidTm(tm) && Timegm(tm) == t + off
    requires zone != "" && !IsDigit(zone[0]) && zone[0] != '.' && Shift(zone).Some?
    requires tm.year >= 10000 ==> t >= 0
    ensures (PrintTm(tm, zone).Some? && Parse(PrintTm(tm, zone).value) == t) <==>
              0 <= tm.year < 10000 && Shift(zone) == Some(off)
  {
    if tm.year >= 10000 { LongYearIsRefused(tm, zone); } else if tm.year >= 0 { ParsesTo(tm, zone); }
  }

  /** What a stamp with anything behind it reads as. */
  lemma ParsesTo(tm: Tm, zone: string)
    requires TwoDigits(tm) && 0 <= tm.year < 10000
    requires zone != "" && !IsDigit(zone[0]) && zone[0] != '.'
    ensures Parse(Stamp(tm) + zone) == if Shift(zone).Some? then Timegm(tm) - Shift(zone).value else -1
  {
    StampFields(tm, zone);
  }

  /** A five-digit year breaks the fixed columns. */
  lemma LongYearIsRefused(tm: Tm, zone: string)
    requires ValidTm(tm) && tm.year >= 10000
    ensures Parse(Stamp(tm) + zone) == -1
  {
    LongYear(tm.year);
    var dt := Stamp(tm) + zone;
    assert dt[4] == Year(tm.year)[4];
    assert IsDigit(dt[4]);
  }

  lemma FarFuture(time: int)
    ensures Gmtime(time).year >= 10000 ==> time > 400000
  {
    var n := time / DAY;
    var c := CivilOf(n);
    NumberOfCivil(n);
    WithinYear(c);
    if c.year > 1970 { YearsIncrease(1970, c.year); }
    assert YearStart(1970) == 0;
  }

  /** A fraction of a second is ignored. */
  lemma FractionIsIgnored(tm: Tm, fraction: string, zone: string)
    requires TwoDigits(tm) && 0 <= tm.year < 10000
    requires AllDigits(fraction) && zone != "" && !IsDigit(zone[0]) && zone[0] != '.'
    ensures Parse(Stamp(tm) + ("." + (fraction + zone))) == Parse(Stamp(tm) + zone)
  {
    StampFields(tm, "." + (fraction + zone));
    SkipsFraction(Stamp(tm) + ("." + (fraction + zone)), fraction, zone);
    ParsesTo(tm, zone);
  }

  lemma SkipsFraction(dt: string, fraction: string, zone: string)
    requires |dt| >= 20 && dt[19..] == "." + (fraction + zone)
    requires AllDigits(fraction) && zone != "" && !IsDigit(zone[0])
    ensures ZoneText(dt) == zone
  {
    assert dt[19] == dt[19..][0] && dt[20..] == dt[19..][1..] == fraction + zone;
    LeadingDigitsAre(fraction, zone);
    assert dt[20 + |fraction|..] == dt[20..][|fraction|..] == zone;
  }

  // ---------------------------------------------------------------- all zones

  /** A zone as RFC 3339 has it: a sign, two digits, a colon, two digits. */
  predicate IsZone(zone: string, east: bool, hh: nat, mm: nat) {
    && |zone| == 6 && zone[0] == (if east then '+' else '-') && zone[3] == ':'
    && hh < 100 && zone[1..3] == Pad2(hh) && mm < 100 && zone[4..] == Pad2(mm)
  }

  /** The seconds such a zone stands for. */
  function OffsetOf(east: bool, hh: nat, mm: nat): int {
    if east then 3600 * hh + 60 * mm else -(3600 * hh + 60 * mm)
  }

  lemma ZoneScans(zone: string, east: bool, hh: nat, mm: nat)
    requires IsZone(zone, east, hh, mm)
    ensures Strtol(zone) == (if east then hh as int else 0 - hh as int) && Strtol(zone[4..]) == mm
  {
    Pad2Value(hh);
    Pad2Value(mm);
    SignedScan(zone[0], Pad2(hh), zone[3..]);
    assert zone == [zone[0]] + (zone[1..3] + zone[3..]);
    ScansTo(Pad2(mm), "");
    assert Pad2(mm) + "" == zone[4..];
  }

  /**
   * For every zone of this form: it is read as the offset it stands for if and only if it lies east,
   * has an hour, or has no minutes. "-00:mm" is read as if it lay east.
   */
  lemma ZoneShiftIff(zone: string, east: bool, hh: nat, mm: nat)
    requires IsZone(zone, east, hh, mm)
    ensures Shift(zone) == Some(OffsetOf(east || hh == 0, hh, mm))
    ensures Shift(zone) == Some(OffsetOf(east, hh, mm)) <==> east || hh > 0 || mm == 0
  {
    ZoneScans(zone, east, hh, mm);
    ShiftOf(zone, if east then hh as int else 0 - hh as int, mm);
  }

  /** Neither "Z" nor a zone with its colon in place. */
  predicate BadZone(zone: string) {
    zone != "" && !IsDigit(zone[0]) && zone[0] !in {'.', 'Z', 'z'} && At(zone, 3) != ':'
  }

  /**
   * For every stamp, its fields in range or not: what nc_datetime2time() makes of it with no offset,
   * with any zone of the standard form, and with a zone that has no colon in its place.
   */
  lemma StampIsParsed(tm: Tm, zone: string, east: bool, hh: nat, mm: nat)
    requires TwoDigits(tm) && 0 <= tm.year < 10000
    ensures Parse(Stamp(tm) + "Z") == Parse(Stamp(tm) + "z") == Timegm(tm)
    ensures IsZone(zone, east, hh, mm) ==>
              Parse(Stamp(tm) + zone) == Timegm(tm) - OffsetOf(east || hh == 0, hh, mm)
    ensures BadZone(zone) ==> Parse(Stamp(tm) + zone) == -1
  {
    ParsesTo(tm, "Z");
    ParsesTo(tm, "z");
    if IsZone(zone, east, hh, mm) {
      ZoneShiftIff(zone, east, hh, mm);
      ParsesTo(tm, zone);
    } else if BadZone(zone) {
      ParsesTo(tm, zone);
    }
  }

  /** Months beyond the year carry into the next one. */
  lemma MonthsCarry(tm: Tm)
    ensures Timegm(tm.(mon := tm.mon + 12)) == Timegm(tm.(year := tm.year + 1))
  {
    assert (tm.mon + 12) / 12 == tm.mon / 12 + 1 && (tm.mon + 12) % 12 == tm.mon % 12;
  }

  /** Half an hour west of Greenwich is read as half an hour east of it. */
  lemma MinutesWestAreEast()
    ensures IsZone("-00:30", false, 0, 30) && Shift("-00:30") == Some(1800)
  {
    assert Pad2(0) == "00" && Pad2(30) == "30";
    assert "-00:30"[1..3] == "00" && "-00:30"[4..] == "30";
    ZoneShiftIff("-00:30", false, 0, 30);
  }
}
