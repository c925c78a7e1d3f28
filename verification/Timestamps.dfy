/** Event-log timestamps: reading them, and the order they come out in. Text is one character per
    byte. What is read is the six fields alone, so a zone other than UTC or a fraction is lost. */
module Timestamps {
  import opened Trace
  import opened Decimal
  import opened Calendar

  /** Seconds since the epoch. Only the six fields are read: whatever stands between and after them
      (separators, fraction, zone) is skipped, and no field is checked against the calendar. */
  function ParseIso(s: string): Option<int> {
    if |s| < 19 then None
    else
      var year := ParseInt(s[0..4]);
      var month := ParseInt(s[5..7]);
      var day := ParseInt(s[8..10]);
      var hour := ParseInt(s[11..13]);
      var minute := ParseInt(s[14..16]);
      var second := ParseInt(s[17..19]);
      if year.None? || month.None? || day.None? || hour.None? || minute.None? || second.None? then None
      else Some(DaysFromCivil(year.value, month.value, day.value) * 86400
                + hour.value * 3600 + minute.value * 60 + second.value)
  }

  // ---- Timestamps as section 5.6 of RFC 3339 writes them ----------------------------------------

  /** `Z`, or so many hours and minutes ahead of UTC or behind it. */
  datatype Zone = Zulu | Numeric(ahead: bool, hours: nat, minutes: nat)

  predicate RealZone(z: Zone) { z.Numeric? ==> z.hours <= 23 && z.minutes <= 59 }

  /** Minutes ahead of UTC. */
  function Offset(z: Zone): int {
    match z
    case Zulu => 0
    case Numeric(ahead, hours, minutes) => if ahead then hours * 60 + minutes else -(hours * 60 + minutes)
  }

  /** The six fields, the digits of the fraction of a second, if any, and the zone. */
  datatype Timestamp = Timestamp(local: Moment, fraction: string, zone: Zone)

  predicate RealTimestamp(t: Timestamp) {
    Real(t.local) && RealZone(t.zone) && (t.fraction == "" || Numeral(t.fraction))
  }

  /** What a fraction's digits are worth: the first tenths, the next hundredths... */
  function Worth(digits: string): real
    requires digits == "" || Numeral(digits)
  {
    if digits == "" then 0.0
    else
      assert digits[1..] == "" || Numeral(digits[1..]);
      (DigitValue(digits[0]) as real + Worth(digits[1..])) / 10.0
  }

  /** The second a timestamp falls in, counted in UTC. */
  function Instant(t: Timestamp): int { Seconds(t.local) - 60 * Offset(t.zone) }

  /** The exact time, in seconds. */
  function Exact(t: Timestamp): real
    requires RealTimestamp(t)
  {
    Instant(t) as real + Worth(t.fraction)
  }

  datatype Moment = Moment(date: Date, hour: nat, minute: nat, second: nat)

  /** A leap second may be the 61st of its minute. */
  predicate Real(m: Moment) {
    && Valid(m.date) && 0 <= m.date.year <= 9999
    && m.hour <= 23 && m.minute <= 59 && m.second <= 60
  }

  function Two(n: nat): string
    requires n < 100
  {
    [DigitChar(n / 10), DigitChar(n % 10)]
  }

  function Four(n: nat): string
    requires n < 10000
  {
    Two(n / 100) + Two(n % 100)
  }

  function DateText(d: Date): string
    requires Valid(d) && 0 <= d.year <= 9999
  {
    Four(d.year) + ("-" + (Two(d.month) + ("-" + Two(d.day))))
  }

  function TimeText(m: Moment): string
    requires Real(m)
  {
    Two(m.hour) + (":" + (Two(m.minute) + (":" + Two(m.second))))
  }

  function Text(m: Moment): string
    requires Real(m)
  {
    DateText(m.date) + ("T" + TimeText(m))
  }

  function ZoneText(z: Zone): string
    requires RealZone(z)
  {
    match z
    case Zulu => "Z"
    case Numeric(ahead, hours, minutes) => (if ahead then "+" else "-") + Two(hours) + ":" + Two(minutes)
  }

  function Written(t: Timestamp): string
    requires RealTimestamp(t)
  {
    Text(t.local) + Ending(t)
  }

  function Ending(t: Timestamp): string
    requires RealTimestamp(t)
  {
    (if t.fraction == "" then "" else "." + t.fraction) + ZoneText(t.zone)
  }

  function Minutes(m: Moment): int { DayNumber(m.date) * 1440 + m.hour * 60 + m.minute }

  function Seconds(m: Moment): int { Minutes(m) * 60 + m.second }

  predicate Before(a: Moment, b: Moment) {
    Earlier(a.date, b.date) || (a.date == b.date && (a.hour < b.hour || (a.hour == b.hour &&
    (a.minute < b.minute || (a.minute == b.minute && a.second < b.second)))))
  }

  lemma DigitReads(n: nat)
    requires n < 10
    ensures IsDigit(DigitChar(n)) && DigitValue(DigitChar(n)) == n
    ensures Numeral([DigitChar(n)]) && Value([DigitChar(n)]) == n
  {}

  lemma TwoValue(n: nat)
    requires n < 100
    ensures Numeral(Two(n)) && Value(Two(n)) == n
  {
    DigitReads(n / 10);
    DigitReads(n % 10);
    ValueSnoc([DigitChar(n / 10)], DigitChar(n % 10));
    assert Two(n) == [DigitChar(n / 10)] + [DigitChar(n % 10)];
  }

  lemma FourValue(n: nat)
    requires n < 10000
    ensures Numeral(Four(n)) && Value(Four(n)) == n
  {
    var (a, b) := (DigitChar(n % 100 / 10), DigitChar(n % 100 % 10));
    TwoValue(n / 100);
    DigitReads(n % 100 / 10);
    DigitReads(n % 100 % 10);
    ValueSnoc(Two(n / 100), a);
    ValueSnoc(Two(n / 100) + [a], b);
    assert Four(n) == Two(n / 100) + [a] + [b];
  }

  lemma NumeralReads(s: string)
    requires Numeral(s) && Value(s) <= I64_MAX
    ensures ParseInt(s) == Some(Value(s))
  {
    assert IsDigit(s[0]);
  }

  lemma TwoReads(n: nat)
    requires n < 100
    ensures ParseInt(Two(n)) == Some(n)
  {
    TwoValue(n);
    NumeralReads(Two(n));
  }

  lemma FourReads(n: nat)
    requires n < 10000
    ensures ParseInt(Four(n)) == Some(n)
  {
    FourValue(n);
    NumeralReads(Four(n));
  }

  lemma DateFields(d: Date)
    requires Valid(d) && 0 <= d.year <= 9999
    ensures |DateText(d)| == 10
    ensures DateText(d)[0..4] == Four(d.year) && DateText(d)[5..7] == Two(d.month) && DateText(d)[8..10] == Two(d.day)
  {}

  lemma TimeFields(m: Moment)
    requires Real(m)
    ensures |TimeText(m)| == 8
    ensures TimeText(m)[0..2] == Two(m.hour) && TimeText(m)[3..5] == Two(m.minute) && TimeText(m)[6..8] == Two(m.second)
  {}

  lemma Within(whole: string, start: nat, part: string, a: nat, b: nat)
    requires start + |part| <= |whole| && whole[start..start + |part|] == part && a <= b <= |part|
    ensures whole[start + a..start + b] == part[a..b]
  {
    var slice := whole[start + a..start + b];
    forall i | 0 <= i < b - a ensures slice[i] == part[a..b][i] {
      assert part[a + i] == whole[start..start + |part|][a + i];
    }
  }

  lemma DateRead(d: Date, s: string)
    requires Valid(d) && 0 <= d.year <= 9999 && |s| >= 19 && s[0..10] == DateText(d)
    ensures ParseInt(s[0..4]) == Some(d.year) && ParseInt(s[5..7]) == Some(d.month) && ParseInt(s[8..10]) == Some(d.day)
  {
    DateFields(d);
    Within(s, 0, DateText(d), 0, 4);
    Within(s, 0, DateText(d), 5, 7);
    Within(s, 0, DateText(d), 8, 10);
    FourReads(d.year);
    TwoReads(d.month);
    TwoReads(d.day);
  }

  lemma TimeRead(m: Moment, s: string)
    requires Real(m) && |s| >= 19 && s[11..19] == TimeText(m)
    ensures ParseInt(s[11..13]) == Some(m.hour) && ParseInt(s[14..16]) == Some(m.minute) && ParseInt(s[17..19]) == Some(m.second)
  {
    TimeFields(m);
    Within(s, 11, TimeText(m), 0, 2);
    Within(s, 11, TimeText(m), 3, 5);
    Within(s, 11, TimeText(m), 6, 8);
    TwoReads(m.hour);
    TwoReads(m.minute);
    TwoReads(m.second);
  }

  lemma TextParts(m: Moment, rest: string)
    requires Real(m)
    ensures |Text(m) + rest| >= 19
    ensures (Text(m) + rest)[0..10] == DateText(m.date) && (Text(m) + rest)[11..19] == TimeText(m)
  {
    DateFields(m.date);
    TimeFields(m);
  }

  lemma {:induction false} FromFields(m: Moment, s: string)
    requires |s| >= 19
    requires ParseInt(s[0..4]) == Some(m.date.year) && ParseInt(s[5..7]) == Some(m.date.month) && ParseInt(s[8..10]) == Some(m.date.day)
    requires ParseInt(s[11..13]) == Some(m.hour) && ParseInt(s[14..16]) == Some(m.minute) && ParseInt(s[17..19]) == Some(m.second)
    ensures ParseIso(s) == Some(Seconds(m))
  {
    var days := DayNumber(m.date);
    assert days == DaysFromCivil(m.date.year, m.date.month, m.date.day);
    assert (days * 1440 + m.hour * 60 + m.minute) * 60 + m.second == days * 86400 + m.hour * 3600 + m.minute * 60 + m.second;
  }

  /** The six fields are read as the seconds they say, and nothing after them is. */
  lemma {:induction false} TextReads(m: Moment, rest: string)
    requires Real(m)
    ensures ParseIso(Text(m) + rest) == Some(Seconds(m))
  {
    TextParts(m, rest);
    DateRead(m.date, Text(m) + rest);
    TimeRead(m, Text(m) + rest);
    FromFields(m, Text(m) + rest);
  }

  // ---- Order ------------------------------------------------------------------------------------

  /** A leap second and the second after it, which are read alike. */
  predicate LeapTie(a: Moment, b: Moment) { a.second == 60 && b.second == 0 && Minutes(b) == Minutes(a) + 1 }

  /** Later moments never come out earlier, and come out equal only where a leap second meets the
      start of the next minute. */
  lemma SecondsOrder(a: Moment, b: Moment)
    requires Real(a) && Real(b) && Before(a, b)
    ensures Seconds(a) <= Seconds(b)
    ensures Seconds(a) == Seconds(b) <==> LeapTie(a, b)
  {
    if Earlier(a.date, b.date) {
      DayNumberOrders(a.date, b.date);
    }
  }

  /** The first difference decides. */
  ghost predicate TextBefore(s: string, t: string) {
    exists k :: FirstDifference(s, t, k)
  }

  ghost predicate FirstDifference(s: string, t: string, k: nat) {
    k < |s| && k < |t| && s[..k] == t[..k] && s[k] < t[k]
  }

  lemma DecidedEarly(s: string, t: string, x: string, y: string)
    requires TextBefore(s, t)
    ensures TextBefore(s + x, t + y)
  {
    var k: nat :| FirstDifference(s, t, k);
    assert (s + x)[..k] == s[..k] && (t + y)[..k] == t[..k];
    assert FirstDifference(s + x, t + y, k);
  }

  lemma DecidedLater(s: string, x: string, y: string)
    requires TextBefore(x, y)
    ensures TextBefore(s + x, s + y)
  {
    var k: nat :| FirstDifference(x, y, k);
    assert (s + x)[..|s| + k] == s + x[..k] && (s + y)[..|s| + k] == s + y[..k];
    assert FirstDifference(s + x, s + y, |s| + k);
  }

  lemma NeverBothWays(s: string, t: string)
    requires TextBefore(s, t)
    ensures !TextBefore(t, s) && s != t
  {
    var k: nat :| FirstDifference(s, t, k);
    forall j: nat ensures !FirstDifference(t, s, j) {
      assert j < k && j < |t| ==> s[..k][j] == t[..k][j];
      assert k < j <= |t| && j <= |s| ==> s[..j][k] == s[k] && t[..j][k] == t[k];
    }
  }

  lemma TwoOrder(m: nat, n: nat)
    requires m < n < 100
    ensures TextBefore(Two(m), Two(n))
  {
    var k := if m / 10 < n / 10 then 0 else 1;
    assert Two(m)[..1] == [DigitChar(m / 10)] && Two(n)[..1] == [DigitChar(n / 10)];
    assert FirstDifference(Two(m), Two(n), k);
  }

  lemma FourOrder(m: nat, n: nat)
    requires m < n < 10000
    ensures TextBefore(Four(m), Four(n))
  {
    if m / 100 < n / 100 {
      TwoOrder(m / 100, n / 100);
      DecidedEarly(Two(m / 100), Two(n / 100), Two(m % 100), Two(n % 100));
    } else {
      TwoOrder(m % 100, n % 100);
      DecidedLater(Two(m / 100), Two(m % 100), Two(n % 100));
    }
  }

  /** Two fields in a row, with a separator: the first that differs decides. */
  lemma FieldOrder(s: string, t: string, mark: string, x: string, y: string)
    requires TextBefore(s, t) || (s == t && TextBefore(x, y))
    ensures TextBefore(s + (mark + x), t + (mark + y))
  {
    if TextBefore(s, t) {
      DecidedEarly(s, t, mark + x, mark + y);
    } else {
      DecidedLater(mark, x, y);
      DecidedLater(s, mark + x, mark + y);
    }
  }

  lemma TwoDecides(m: nat, n: nat)
    requires m < 100 && n < 100
    ensures m < n ==> TextBefore(Two(m), Two(n))
  {
    if m < n {
      TwoOrder(m, n);
    }
  }

  lemma DateTextOrder(a: Date, b: Date)
    requires Valid(a) && Valid(b) && 0 <= a.year <= 9999 && 0 <= b.year <= 9999 && Earlier(a, b)
    ensures TextBefore(DateText(a), DateText(b))
  {
    var (dayA, dayB) := (Two(a.day), Two(b.day));
    var (restA, restB) := (Two(a.month) + ("-" + dayA), Two(b.month) + ("-" + dayB));
    TwoDecides(a.day, b.day);
    TwoDecides(a.month, b.month);
    if a.year < b.year {
      FourOrder(a.year, b.year);
    } else {
      FieldOrder(Two(a.month), Two(b.month), "-", dayA, dayB);
    }
    FieldOrder(Four(a.year), Four(b.year), "-", restA, restB);
  }

  lemma TimeTextOrder(a: Moment, b: Moment)
    requires Real(a) && Real(b)
    requires a.hour < b.hour || (a.hour == b.hour
      && (a.minute < b.minute || (a.minute == b.minute && a.second < b.second)))
    ensures TextBefore(TimeText(a), TimeText(b))
  {
    var (secA, secB) := (Two(a.second), Two(b.second));
    var (restA, restB) := (Two(a.minute) + (":" + secA), Two(b.minute) + (":" + secB));
    TwoDecides(a.second, b.second);
    TwoDecides(a.minute, b.minute);
    TwoDecides(a.hour, b.hour);
    if a.hour == b.hour {
      FieldOrder(Two(a.minute), Two(b.minute), ":", secA, secB);
    }
    FieldOrder(Two(a.hour), Two(b.hour), ":", restA, restB);
  }

  lemma TextOrder(a: Moment, b: Moment)
    requires Real(a) && Real(b) && Before(a, b)
    ensures TextBefore(Text(a), Text(b))
  {
    if Earlier(a.date, b.date) {
      DateTextOrder(a.date, b.date);
    } else {
      TimeTextOrder(a, b);
    }
    FieldOrder(DateText(a.date), DateText(b.date), "T", TimeText(a), TimeText(b));
  }

  // ---- Zones and fractions ----------------------------------------------------------------------

  lemma {:induction false} FractionBelowOne(digits: string)
    requires digits == "" || Numeral(digits)
    ensures 0.0 <= Worth(digits) < 1.0
  {
    if digits != "" {
      assert digits[1..] == "" || Numeral(digits[1..]);
      FractionBelowOne(digits[1..]);
      assert DigitValue(digits[0]) <= 9;
    }
  }

  /** A timestamp falls in its second. */
  lemma ExactWithin(t: Timestamp)
    requires RealTimestamp(t)
    ensures Instant(t) as real <= Exact(t) < Instant(t) as real + 1.0
  {
    FractionBelowOne(t.fraction);
  }

  /** What is read of a timestamp is the second it falls in, off by its zone. */
  lemma WrittenReads(t: Timestamp)
    requires RealTimestamp(t)
    ensures ParseIso(Written(t)) == Some(Seconds(t.local)) && Seconds(t.local) == Instant(t) + 60 * Offset(t.zone)
  {
    TextReads(t.local, Ending(t));
  }

  /** So it is the right second exactly when the zone is UTC. */
  lemma ReadsItsInstantExactly(t: Timestamp)
    requires RealTimestamp(t)
    ensures ParseIso(Written(t)).Some?
    ensures ParseIso(Written(t)).value == Instant(t) <==> Offset(t.zone) == 0
  {
    WrittenReads(t);
  }

  /** Midnight of the new year two hours ahead of UTC comes before eleven at night in UTC, and is read
      as later. */
  lemma AheadIsReadLater()
    ensures var ahead := Timestamp(Moment(Date(2024, 1, 1), 0, 0, 0), "", Numeric(true, 2, 0));
      var utc := Timestamp(Moment(Date(2023, 12, 31), 23, 0, 0), "", Zulu);
      && RealTimestamp(ahead) && RealTimestamp(utc) && Exact(ahead) < Exact(utc)
      && ParseIso(Written(ahead)).Some? && ParseIso(Written(utc)).Some?
      && ParseIso(Written(ahead)).value > ParseIso(Written(utc)).value
  {
    var ahead := Timestamp(Moment(Date(2024, 1, 1), 0, 0, 0), "", Numeric(true, 2, 0));
    var utc := Timestamp(Moment(Date(2023, 12, 31), 23, 0, 0), "", Zulu);
    WrittenReads(ahead);
    WrittenReads(utc);
    ExactWithin(ahead);
    ExactWithin(utc);
    assert utc.local.date == Previous(ahead.local.date);
    NextDayNumber(utc.local.date);
  }

  /** Reading keeps the order of the seconds two timestamps fall in. */
  ghost predicate KeepsOrder(a: Timestamp, b: Timestamp)
    requires RealTimestamp(a) && RealTimestamp(b)
  {
    && ParseIso(Written(a)).Some? && ParseIso(Written(b)).Some?
    && (ParseIso(Written(a)).value < ParseIso(Written(b)).value <==> Instant(a) < Instant(b))
  }

  ghost predicate ZonesKeepOrder(za: Zone, zb: Zone)
    requires RealZone(za) && RealZone(zb)
  {
    forall a, b :: RealTimestamp(a) && RealTimestamp(b) && a.zone == za && b.zone == zb ==> KeepsOrder(a, b)
  }

  /** Chronological order, to the second, is kept between all timestamps of two zones exactly when the
      zones are equally far from UTC. */
  lemma ZonesKeepOrderExactly(za: Zone, zb: Zone)
    requires RealZone(za) && RealZone(zb)
    ensures ZonesKeepOrder(za, zb) <==> Offset(za) == Offset(zb)
  {
    forall a, b | RealTimestamp(a) && RealTimestamp(b) && a.zone == za && b.zone == zb && Offset(za) == Offset(zb)
      ensures KeepsOrder(a, b)
    {
      WrittenReads(a);
      WrittenReads(b);
    }
    if Offset(za) != Offset(zb) {
      var a, b := ReadWrong(za, zb);
      assert !KeepsOrder(a, b);
    }
  }

  lemma ReadWrong(za: Zone, zb: Zone) returns (a: Timestamp, b: Timestamp)
    requires RealZone(za) && RealZone(zb) && Offset(za) != Offset(zb)
    ensures RealTimestamp(a) && RealTimestamp(b) && a.zone == za && b.zone == zb && !KeepsOrder(a, b)
  {
    var noon := Moment(Date(2000, 1, 1), 12, 0, 0);
    var later := if Offset(za) > Offset(zb) then noon else noon.(second := 1);
    a, b := Timestamp(noon, "", za), Timestamp(later, "", zb);
    WrittenReads(a);
    WrittenReads(b);
    assert Seconds(later) == Seconds(noon) + later.second;
  }

  /** All the event log writes is UTC. Such timestamps are never read in the wrong order, and two of
      them are read alike exactly when they fall in the same second: order within one is lost. */
  lemma UtcKeepsOrder(a: Timestamp, b: Timestamp)
    requires RealTimestamp(a) && RealTimestamp(b) && a.zone == b.zone == Zulu && Exact(a) < Exact(b)
    ensures ParseIso(Written(a)).Some? && ParseIso(Written(b)).Some?
    ensures ParseIso(Written(a)).value <= ParseIso(Written(b)).value
    ensures ParseIso(Written(a)).value == ParseIso(Written(b)).value <==> Seconds(a.local) == Seconds(b.local)
  {
    WrittenReads(a);
    WrittenReads(b);
    ExactWithin(a);
    ExactWithin(b);
  }

  /** Between timestamps equally far from UTC, what is read orders them to the second exactly as the
      calendar does, leap ties apart, and the calendar exactly as comparing their first nineteen
      characters would. */
  lemma ReadingKeepsOrder(a: Timestamp, b: Timestamp)
    requires RealTimestamp(a) && RealTimestamp(b) && Offset(a.zone) == Offset(b.zone)
    ensures ParseIso(Written(a)).Some? && ParseIso(Written(b)).Some?
    ensures ParseIso(Written(a)).value < ParseIso(Written(b)).value <==> Before(a.local, b.local) && !LeapTie(a.local, b.local)
    ensures Before(a.local, b.local) <==> TextBefore(Text(a.local), Text(b.local))
  {
    WrittenReads(a);
    WrittenReads(b);
    if Before(a.local, b.local) {
      SecondsOrder(a.local, b.local);
      TextOrder(a.local, b.local);
    } else if Before(b.local, a.local) {
      SecondsOrder(b.local, a.local);
      TextOrder(b.local, a.local);
      NeverBothWays(Text(b.local), Text(a.local));
    } else {
      assert a.local == b.local;
    }
  }
}
