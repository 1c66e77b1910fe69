/** Timestamps as text: formatting, parsing back, the expiry parser and text order. */
module Timestamps {
  import opened Results
  import opened Text
  import opened Calendar

  // ---- formatting --------------------------------------------------------------------

  function DateText(year: int, month: int, day: int): string {
    Padded(year, 4) + "-" + Padded(month, 2) + "-" + Padded(day, 2)
  }

  function TimeText(hour: int, minute: int, second: int): string {
    Padded(hour, 2) + ":" + Padded(minute, 2) + ":" + Padded(second, 2)
  }

  function Stamp(c: Date, hour: int, minute: int, second: int): string {
    DateText(c.year, c.month, c.day) + " " + TimeText(hour, minute, second)
  }

  function UnixToUtcMinute(secs: nat): string {
    var rem := secs % 86400;
    Stamp(CivilFromDays(secs / 86400), rem / 3600, rem % 3600 / 60, 0)
  }

  // ---- parsing -------------------------------------------------------------------------

  /** Year, month and day of `Y-M-D`, as far as the text itself goes. */
  function ParseDate(date: string): Option<Date> {
    var d := Split(date, '-');
    if |d| != 3 then None
    else
      var (y, m, n) := (ParseU32(d[0]), ParseU32(d[1]), ParseU32(d[2]));
      if y.Some? && m.Some? && n.Some? && 1 <= m.value <= 12 && 1 <= n.value <= 31
      then Some(Date(y.value, m.value, n.value)) else None
  }

  /** Seconds into the day of `H:M` or `H:M:S` with an optional fraction; second 60 passes. */
  function ParseTime(time: string): Option<nat> {
    var t := Split(time, ':');
    if |t| != 2 && |t| != 3 then None
    else
      var (h, m) := (ParseU32(t[0]), ParseU32(t[1]));
      var s := if |t| == 3 then ParseU32(Split(t[2], '.')[0]) else Some(0);
      if h.Some? && m.Some? && s.Some? && h.value <= 23 && m.value <= 59 && s.value <= 60
      then Some(h.value * 3600 + m.value * 60 + s.value) else None
  }

  function UnixFromUtc(text: string): Option<nat> {
    var halves := SplitOnce(text, ' ');
    if halves.None? then None
    else
      var (date, time) := (ParseDate(halves.value.0), ParseTime(halves.value.1));
      if date.None? || time.None? then None
      else
        var secs := DaysFromCivil(date.value) * 86_400 + time.value;
        if secs < 0 then None else Some(secs)
  }

  /** The expiry parser: fixed widths, a real date, and the canonical text as its result. */
  function ParseExpiresUtc(value: string): Option<string> {
    var halves := SplitOnce(value, ' ');
    if halves.None? then None
    else
      var (d, t) := (Split(halves.value.0, '-'), Split(halves.value.1, ':'));
      if |d| != 3 || (|t| != 2 && |t| != 3) then None
      else
        var (year, month, day) := (ParseFixedDigits(d[0], 4), ParseFixedDigits(d[1], 2), ParseFixedDigits(d[2], 2));
        var (hour, minute) := (ParseFixedDigits(t[0], 2), ParseFixedDigits(t[1], 2));
        var second := if |t| == 3 then ParseFixedDigits(t[2], 2) else Some(0);
        if year.None? || month.None? || day.None? || hour.None? || minute.None? || second.None? then None
        else if year.value == 0 || !(1 <= month.value <= 12) || hour.value > 23 || minute.value > 59 || second.value > 59 then None
        else if day.value < 1 || day.value > DaysInMonth(year.value, month.value) then None
        else Some(Stamp(Date(year.value, month.value, day.value), hour.value, minute.value, second.value))
  }

  // ---- the pieces of a stamp come apart again ------------------------------------------

  lemma DigitsAreNotMarks(s: string)
    requires AllDigits(s)
    ensures '-' !in s && ':' !in s && ' ' !in s && '.' !in s
  {
  }

  lemma SplitThree(a: string, b: string, c: string, mark: char)
    requires mark !in a && mark !in b && mark !in c
    ensures Split(a + [mark] + b + [mark] + c, mark) == [a, b, c]
  {
    SplitAbsent(c, mark);
    SplitFirst(b, mark, c);
    SplitFirst(a, mark, b + [mark] + c);
    assert a + [mark] + b + [mark] + c == a + [mark] + (b + [mark] + c);
  }

  lemma DateParts(year: nat, month: nat, day: nat)
    ensures Split(DateText(year, month, day), '-') == [PaddedNat(year, 4), PaddedNat(month, 2), PaddedNat(day, 2)]
    ensures ' ' !in DateText(year, month, day)
  {
    hide PaddedNat;
    var (y, m, d) := (PaddedNat(year, 4), PaddedNat(month, 2), PaddedNat(day, 2));
    DigitsAreNotMarks(y); DigitsAreNotMarks(m); DigitsAreNotMarks(d);
    SplitThree(y, m, d, '-');
    assert DateText(year, month, day) == y + ['-'] + m + ['-'] + d;
  }

  lemma TimeParts(hour: nat, minute: nat, second: nat)
    ensures Split(TimeText(hour, minute, second), ':') == [PaddedNat(hour, 2), PaddedNat(minute, 2), PaddedNat(second, 2)]
  {
    hide PaddedNat;
    var (h, m, s) := (PaddedNat(hour, 2), PaddedNat(minute, 2), PaddedNat(second, 2));
    DigitsAreNotMarks(h); DigitsAreNotMarks(m); DigitsAreNotMarks(s);
    SplitThree(h, m, s, ':');
    assert TimeText(hour, minute, second) == h + [':'] + m + [':'] + s;
  }

  lemma StampHalves(c: Date, hour: int, minute: int, second: int)
    requires ' ' !in DateText(c.year, c.month, c.day)
    ensures SplitOnce(Stamp(c, hour, minute, second), ' ')
            == Some((DateText(c.year, c.month, c.day), TimeText(hour, minute, second)))
  {
    hide DateText, TimeText;
    SplitOnceAt(DateText(c.year, c.month, c.day), ' ', TimeText(hour, minute, second));
  }

  lemma ParseDateText(c: Date)
    requires 0 <= c.year < U32_LIMIT && 1 <= c.month <= 12 && 1 <= c.day <= 31
    ensures ParseDate(DateText(c.year, c.month, c.day)) == Some(c) && ' ' !in DateText(c.year, c.month, c.day)
  {
    hide DateText, ParseU32;
    DateParts(c.year, c.month, c.day);
    ParsePadded(c.year, 4); ParsePadded(c.month, 2); ParsePadded(c.day, 2);
  }

  lemma ParseTimeText(hour: nat, minute: nat)
    requires hour <= 23 && minute <= 59
    ensures ParseTime(TimeText(hour, minute, 0)) == Some(hour * 3600 + minute * 60)
  {
    hide TimeText, ParseU32;
    TimeParts(hour, minute, 0);
    ParsePadded(hour, 2); ParsePadded(minute, 2); ParsePadded(0, 2);
    DigitsAreNotMarks(PaddedNat(0, 2));
    SplitAbsent(PaddedNat(0, 2), '.');
  }

  /** A stamp with a non-negative year parses to its day number and time, whatever the year. */
  lemma ParseStamp(c: Date, hour: nat, minute: nat)
    requires 0 <= c.year < U32_LIMIT && 1 <= c.month <= 12 && 1 <= c.day <= 31 && hour <= 23 && minute <= 59
    ensures
      var secs := DaysFromCivil(c) * 86_400 + hour * 3600 + minute * 60;
      UnixFromUtc(Stamp(c, hour, minute, 0)) == if secs < 0 then None else Some(secs)
  {
    hide Stamp, ParseDate, ParseTime, DaysFromCivil;
    ParseDateText(c);
    ParseTimeText(hour, minute);
    StampHalves(c, hour, minute, 0);
  }

  /** A negative year begins the text with its sign and is refused. */
  lemma NegativeYearRefused(c: Date, hour: int, minute: int)
    requires c.year < 0
    ensures UnixFromUtc(Stamp(c, hour, minute, 0)).None?
  {
    var text := Stamp(c, hour, minute, 0);
    assert text[0] == '-';
    var halves := SplitOnce(text, ' ');
    if halves.Some? {
      SplitOnceHead(text, ' ');
      var date := halves.value.0;
      assert date != [] && date[0] == '-';
      assert Split(date, '-')[0] == [];
      assert ParseU32([]).None?;
    }
  }

  lemma SplitOnceHead(s: string, c: char)
    requires s != [] && s[0] != c && SplitOnce(s, c).Some?
    ensures SplitOnce(s, c).value.0 != [] && SplitOnce(s, c).value.0[0] == s[0]
  {
  }

  // ---- formatting and parsing back -------------------------------------------------------

  /** The first second whose year does not fit 32 bits: 2147483648-01-01 00:00:00. */
  const FIRST_CUT_SECOND := 67_767_976_233_532_800

  const FIRST_CUT_DAY := 784_351_576_777

  lemma FirstCutDay()
    ensures IsDate(Date(0x8000_0000, 1, 1)) && DaysFromCivil(Date(0x8000_0000, 1, 1)) == FIRST_CUT_DAY
    ensures FIRST_CUT_SECOND == 86_400 * FIRST_CUT_DAY
  {
  }

  lemma YearFits(days: nat)
    ensures CivilFromDaysWide(days).year < 0x8000_0000 <==> days < FIRST_CUT_DAY
    ensures CivilFromDaysWide(days).year >= 1970
  {
    hide CivilFromDaysWide, DaysFromCivil;
    FirstCutDay();
    EpochIsZero();
    DaysOfCivil(days);
    EarlierNumber(days, Date(0x8000_0000, 1, 1));
    EarlierNumber(days, EPOCH);
  }

  /** Before the cut the date is a real one, from 1970 on. */
  lemma UncutDate(days: nat)
    requires days < FIRST_CUT_DAY
    ensures CivilFromDays(days) == CivilFromDaysWide(days)
    ensures IsDate(CivilFromDays(days)) && CivilFromDays(days).year >= 1970
  {
    hide CivilFromDays, CivilFromDaysWide, DaysFromCivil, IsDate;
    YearFits(days);
    DaysOfCivil(days);
    CutExact(days);
  }

  lemma ClockParts(secs: nat)
    ensures
      var rem := secs % 86400;
      rem / 3600 <= 23 && rem % 3600 / 60 <= 59
      && (secs / 86400) * 86_400 + (rem / 3600) * 3600 + (rem % 3600 / 60) * 60 == secs - secs % 60
  {
    var d, rem := secs / 86400, secs % 86400;
    var h, hour := rem / 3600, rem % 3600;
    var m, s := hour / 60, hour % 60;
    assert secs == 60 * (d * 1440 + h * 60 + m) + s;
    SecondsLeft(d * 1440 + h * 60 + m, s);
  }

  lemma SecondsLeft(minutes: nat, s: nat)
    requires s < 60
    ensures (60 * minutes + s) % 60 == s
  {
  }

  /**
   Parsing a formatted second gives back the second, cut down to the minute,
   exactly when the year fits 32 bits.
   */
  lemma RoundTrip(secs: nat)
    ensures UnixFromUtc(UnixToUtcMinute(secs)) == Some(secs - secs % 60) <==> secs < FIRST_CUT_SECOND
  {
    hide Stamp, UnixFromUtc, CivilFromDaysWide, DaysFromCivil;
    var days, rem := secs / 86400, secs % 86400;
    var wide, c := CivilFromDaysWide(days), CivilFromDays(days);
    ClockParts(secs);
    YearFits(days);
    CutExact(days);
    DaysOfCivil(days);
    if c.year < 0 {
      NegativeYearRefused(c, rem / 3600, rem % 3600 / 60);
    } else {
      ParseStamp(c, rem / 3600, rem % 3600 / 60);
      if c.year != wide.year {
        LaterYearLaterNumber(c, wide.year);
      }
    }
  }

  // ---- the expiry parser --------------------------------------------------------------------

  /** Seconds up to the end of year 9999. */
  const FIRST_FIVE_DIGIT_SECOND := 253_402_300_800

  lemma FiveDigitDay()
    ensures IsDate(Date(10_000, 1, 1)) && DaysFromCivil(Date(10_000, 1, 1)) == 2_932_897
    ensures IsDate(Date(9999, 12, 31)) && DaysFromCivil(Date(9999, 12, 31)) == 2_932_896
    ensures FIRST_FIVE_DIGIT_SECOND == 86_400 * 2_932_897
  {
  }

  lemma FourDigitYear(days: nat)
    requires days < FIRST_FIVE_DIGIT_SECOND / 86_400
    ensures CivilFromDays(days) == CivilFromDaysWide(days)
    ensures IsDate(CivilFromDays(days)) && 1970 <= CivilFromDays(days).year <= 9999
  {
    hide CivilFromDays, CivilFromDaysWide, DaysFromCivil;
    FiveDigitDay();
    EarlierNumber(days, Date(10_000, 1, 1));
    UncutDate(days);
  }

  lemma FixedOfPadded(n: nat, width: nat)
    requires width >= 1 && n < Pow10(width)
    ensures ParseFixedDigits(PaddedNat(n, width), width) == Some(n)
  {
    PaddedLength(n, width);
    PaddedValue(n, width);
  }

  lemma Widths()
    ensures Pow10(2) == 100 && Pow10(4) == 10_000
  {
    assert Pow10(1) == 10 && Pow10(2) == 100 && Pow10(3) == 1000;
  }

  /** A canonical stamp of a real date is accepted and returned unchanged. */
  lemma ExpiryOfStamp(c: Date, hour: nat, minute: nat, second: nat)
    requires IsDate(c) && 1 <= c.year <= 9999 && hour <= 23 && minute <= 59 && second <= 59
    ensures ParseExpiresUtc(Stamp(c, hour, minute, second)) == Some(Stamp(c, hour, minute, second))
  {
    Widths();
    FixedOfPadded(c.year, 4); FixedOfPadded(c.month, 2); FixedOfPadded(c.day, 2);
    FixedOfPadded(hour, 2); FixedOfPadded(minute, 2); FixedOfPadded(second, 2);
    DateParts(c.year, c.month, c.day);
    TimeParts(hour, minute, second);
    StampHalves(c, hour, minute, second);
    hide Stamp, DateText, TimeText, PaddedNat, ParseFixedDigits;
  }

  lemma ExpiryAcceptsFormatted(secs: nat)
    requires secs < FIRST_FIVE_DIGIT_SECOND
    ensures ParseExpiresUtc(UnixToUtcMinute(secs)) == Some(UnixToUtcMinute(secs))
  {
    hide Stamp, ParseExpiresUtc, CivilFromDays, CivilFromDaysWide;
    FourDigitYear(secs / 86400);
    ClockParts(secs);
    var rem := secs % 86400;
    ExpiryOfStamp(CivilFromDays(secs / 86400), rem / 3600, rem % 3600 / 60, 0);
  }

  /** Whatever the expiry parser returns is canonical: parsing it again changes nothing. */
  lemma ExpiryIdempotent(value: string)
    requires ParseExpiresUtc(value).Some?
    ensures ParseExpiresUtc(ParseExpiresUtc(value).value) == ParseExpiresUtc(value)
  {
    var halves := SplitOnce(value, ' ').value;
    var (d, t) := (Split(halves.0, '-'), Split(halves.1, ':'));
    var c := Date(Value(d[0]), Value(d[1]), Value(d[2]));
    var second := if |t| == 3 then Value(t[2]) else 0;
    Widths();
    ValueBound(d[0]);
    assert ParseExpiresUtc(value) == Some(Stamp(c, Value(t[0]), Value(t[1]), second));
    hide Stamp, ParseExpiresUtc;
    ExpiryOfStamp(c, Value(t[0]), Value(t[1]), second);
  }

  // ---- exactly what it accepts -----------------------------------------------------------------

  /** A date that exists, in a year of at most four digits, and a time of day. */
  predicate RealTime(c: Date, hour: nat, minute: nat, second: nat) {
    IsDate(c) && 1 <= c.year <= 9999 && hour <= 23 && minute <= 59 && second <= 59
  }

  /** The text without seconds. */
  function ShortStamp(c: Date, hour: int, minute: int): string {
    DateText(c.year, c.month, c.day) + " " + (Padded(hour, 2) + ":" + Padded(minute, 2))
  }

  predicate WrittenAs(value: string, c: Date, hour: nat, minute: nat, second: nat) {
    value == Stamp(c, hour, minute, second) || (second == 0 && value == ShortStamp(c, hour, minute))
  }

  lemma ExpiryOfShort(c: Date, hour: nat, minute: nat)
    requires RealTime(c, hour, minute, 0)
    ensures ParseExpiresUtc(ShortStamp(c, hour, minute)) == Some(Stamp(c, hour, minute, 0))
  {
    Widths();
    FixedOfPadded(c.year, 4); FixedOfPadded(c.month, 2); FixedOfPadded(c.day, 2);
    FixedOfPadded(hour, 2); FixedOfPadded(minute, 2);
    DateParts(c.year, c.month, c.day);
    var (h, m) := (PaddedNat(hour, 2), PaddedNat(minute, 2));
    DigitsAreNotMarks(h); DigitsAreNotMarks(m);
    SplitAbsent(m, ':');
    SplitFirst(h, ':', m);
    assert Padded(hour, 2) + ":" + Padded(minute, 2) == h + [':'] + m;
    SplitOnceAt(DateText(c.year, c.month, c.day), ' ', h + [':'] + m);
    hide Stamp, DateText, PaddedNat, ParseFixedDigits;
  }

  /** Three pieces, read back. */
  lemma ThreePieces(s: string, mark: char)
    requires |Split(s, mark)| == 3
    ensures s == Split(s, mark)[0] + [mark] + Split(s, mark)[1] + [mark] + Split(s, mark)[2]
  {
    hide Split;
    var rest := SplitHead(s, mark);
    var last := SplitHead(rest, mark);
    SplitSingle(last, mark);
  }

  lemma TwoPieces(s: string, mark: char)
    requires |Split(s, mark)| == 2
    ensures s == Split(s, mark)[0] + [mark] + Split(s, mark)[1]
  {
    hide Split;
    var rest := SplitHead(s, mark);
    SplitSingle(rest, mark);
  }

  /** What is accepted is the text of a real date and time, with or without seconds. */
  lemma AcceptedIsWritten(value: string) returns (c: Date, hour: nat, minute: nat, second: nat)
    requires ParseExpiresUtc(value).Some?
    ensures RealTime(c, hour, minute, second) && WrittenAs(value, c, hour, minute, second)
  {
    var halves := SplitOnce(value, ' ').value;
    var (d, t) := (Split(halves.0, '-'), Split(halves.1, ':'));
    c, hour, minute := Date(Value(d[0]), Value(d[1]), Value(d[2])), Value(t[0]), Value(t[1]);
    second := if |t| == 3 then Value(t[2]) else 0;
    Widths();
    FixedIsPadded(d[0], 4); FixedIsPadded(d[1], 2); FixedIsPadded(d[2], 2);
    FixedIsPadded(t[0], 2); FixedIsPadded(t[1], 2);
    SplitOnceJoins(value, ' ');
    ThreePieces(halves.0, '-');
    if |t| == 3 {
      FixedIsPadded(t[2], 2);
      ThreePieces(halves.1, ':');
    } else {
      TwoPieces(halves.1, ':');
    }
    hide Split, SplitOnce, PaddedNat, ParseFixedDigits, Value;
  }

  /** Accepted is exactly what writes a real date and time, and the result is its full text. */
  lemma ExpiryExactly(value: string)
    ensures ParseExpiresUtc(value).Some? <==>
      exists c, hour: nat, minute: nat, second: nat :: RealTime(c, hour, minute, second) && WrittenAs(value, c, hour, minute, second)
    ensures forall c, hour: nat, minute: nat, second: nat ::
      RealTime(c, hour, minute, second) && WrittenAs(value, c, hour, minute, second) ==>
        ParseExpiresUtc(value) == Some(Stamp(c, hour, minute, second))
  {
    if ParseExpiresUtc(value).Some? {
      var c, hour, minute, second := AcceptedIsWritten(value);
    }
    hide ParseExpiresUtc, Stamp, ShortStamp;
    forall c, hour: nat, minute: nat, second: nat | RealTime(c, hour, minute, second) && WrittenAs(value, c, hour, minute, second)
      ensures ParseExpiresUtc(value) == Some(Stamp(c, hour, minute, second))
    {
      ExpiryOfStamp(c, hour, minute, second);
      if second == 0 {
        ExpiryOfShort(c, hour, minute);
      }
    }
  }

  // ---- text order is time order -----------------------------------------------------------------

  /** Years with equally many digits: comparing the texts is comparing the dates and times. */
  lemma StampOrder(a: Date, b: Date, h: nat, i: nat, k: nat, l: nat)
    requires IsDate(a) && IsDate(b) && 0 <= a.year && 0 <= b.year && |PaddedNat(a.year, 4)| == |PaddedNat(b.year, 4)|
    requires h <= 23 && k <= 23 && i <= 59 && l <= 59
    ensures TextLess(Stamp(a, h, i, 0), Stamp(b, k, l, 0)) <==>
      Earlier(a, b) || (a == b && (h < k || (h == k && i < l)))
  {
    hide *;
    StampIsFive(a, h, i);
    StampIsFive(b, k, l);
    FieldOrders(a, b);
    ClockOrders(h, i, k, l);
    FiveOrder(PaddedNat(a.year, 4), PaddedNat(a.month, 2), PaddedNat(a.day, 2), PaddedNat(h, 2), PaddedNat(i, 2),
              PaddedNat(b.year, 4), PaddedNat(b.month, 2), PaddedNat(b.day, 2), PaddedNat(k, 2), PaddedNat(l, 2),
              PaddedNat(0, 2));
    EarlierMeans(a, b);
  }

  lemma EarlierMeans(a: Date, b: Date)
    ensures Earlier(a, b) <==>
      a.year < b.year || (a.year == b.year && (a.month < b.month || (a.month == b.month && a.day < b.day)))
  {
  }

  lemma StampIsFive(c: Date, h: nat, i: nat)
    requires IsDate(c) && 0 <= c.year
    ensures Stamp(c, h, i, 0)
            == Five(PaddedNat(c.year, 4), PaddedNat(c.month, 2), PaddedNat(c.day, 2), PaddedNat(h, 2), PaddedNat(i, 2), PaddedNat(0, 2))
  {
    hide PaddedNat;
  }

  /** Two numbers below `10^width` compare as their padded texts do. */
  lemma FieldOrder(m: nat, n: nat, width: nat)
    requires width == 2 && m < 100 && n < 100
    ensures |PaddedNat(m, width)| == |PaddedNat(n, width)|
    ensures TextLess(PaddedNat(m, width), PaddedNat(n, width)) <==> m < n
    ensures PaddedNat(m, width) == PaddedNat(n, width) <==> m == n
  {
    Widths();
    hide PaddedNat;
    PaddedOrder(m, n, width);
    PaddedLength(m, width);
    PaddedLength(n, width);
  }

  /** Years with equally many digits compare as their texts do. */
  lemma YearOrder(m: nat, n: nat)
    requires |PaddedNat(m, 4)| == |PaddedNat(n, 4)|
    ensures TextLess(PaddedNat(m, 4), PaddedNat(n, 4)) <==> m < n
    ensures PaddedNat(m, 4) == PaddedNat(n, 4) <==> m == n
  {
    hide PaddedNat;
    PaddedValue(m, 4);
    PaddedValue(n, 4);
    LessIsLessValue(PaddedNat(m, 4), PaddedNat(n, 4));
  }

  lemma FieldOrders(a: Date, b: Date)
    requires IsDate(a) && IsDate(b) && 0 <= a.year && 0 <= b.year && |PaddedNat(a.year, 4)| == |PaddedNat(b.year, 4)|
    ensures a.month >= 0 && b.month >= 0 && a.day >= 0 && b.day >= 0
    ensures |PaddedNat(a.month, 2)| == |PaddedNat(b.month, 2)|
    ensures |PaddedNat(a.day, 2)| == |PaddedNat(b.day, 2)|
    ensures TextLess(PaddedNat(a.year, 4), PaddedNat(b.year, 4)) <==> a.year < b.year
    ensures TextLess(PaddedNat(a.month, 2), PaddedNat(b.month, 2)) <==> a.month < b.month
    ensures TextLess(PaddedNat(a.day, 2), PaddedNat(b.day, 2)) <==> a.day < b.day
    ensures PaddedNat(a.year, 4) == PaddedNat(b.year, 4) <==> a.year == b.year
    ensures PaddedNat(a.month, 2) == PaddedNat(b.month, 2) <==> a.month == b.month
    ensures PaddedNat(a.day, 2) == PaddedNat(b.day, 2) <==> a.day == b.day
  {
    hide PaddedNat, TextLess;
    YearOrder(a.year, b.year);
    FieldOrder(a.month, b.month, 2);
    FieldOrder(a.day, b.day, 2);
  }

  lemma ClockOrders(h: nat, i: nat, k: nat, l: nat)
    requires h <= 23 && k <= 23 && i <= 59 && l <= 59
    ensures |PaddedNat(h, 2)| == |PaddedNat(k, 2)| && |PaddedNat(i, 2)| == |PaddedNat(l, 2)|
    ensures TextLess(PaddedNat(h, 2), PaddedNat(k, 2)) <==> h < k
    ensures TextLess(PaddedNat(i, 2), PaddedNat(l, 2)) <==> i < l
    ensures PaddedNat(h, 2) == PaddedNat(k, 2) <==> h == k
  {
    hide PaddedNat, TextLess;
    FieldOrder(h, k, 2);
    FieldOrder(i, l, 2);
  }

  function Five(y: string, m: string, d: string, h: string, i: string, z: string): string {
    y + ("-" + (m + ("-" + (d + (" " + (h + (":" + (i + (":" + z)))))))))
  }

  lemma MarkedOrder(mark: string, x: string, y: string)
    requires |mark| == 1
    ensures TextLess(mark + x, mark + y) <==> TextLess(x, y)
  {
    NotLessThanSelf(mark);
    LessByParts(mark, mark, x, y);
  }

  lemma FiveOrder(y: string, m: string, d: string, h: string, i: string,
                  y': string, m': string, d': string, h': string, i': string, z: string)
    requires |y| == |y'| && |m| == |m'| && |d| == |d'| && |h| == |h'| && |i| == |i'|
    ensures TextLess(Five(y, m, d, h, i, z), Five(y', m', d', h', i', z)) <==>
      TextLess(y, y') || (y == y' && (TextLess(m, m') || (m == m' && (TextLess(d, d') || (d == d' &&
        (TextLess(h, h') || (h == h' && TextLess(i, i'))))))))
  {
    hide TextLess;
    var i1, i2 := i + (":" + z), i' + (":" + z);
    NotLessThanSelf(":" + z);
    LessByParts(i, i', ":" + z, ":" + z);
    var h1, h2 := h + (":" + i1), h' + (":" + i2);
    MarkedOrder(":", i1, i2);
    LessByParts(h, h', ":" + i1, ":" + i2);
    var d1, d2 := d + (" " + h1), d' + (" " + h2);
    MarkedOrder(" ", h1, h2);
    LessByParts(d, d', " " + h1, " " + h2);
    var m1, m2 := m + ("-" + d1), m' + ("-" + d2);
    MarkedOrder("-", d1, d2);
    LessByParts(m, m', "-" + d1, "-" + d2);
    MarkedOrder("-", m1, m2);
    LessByParts(y, y', "-" + m1, "-" + m2);
  }

  // ---- years of different length ---------------------------------------------------------------

  function Digits(n: nat): nat {
    |Decimal(n)|
  }

  /** `n` without its last `k` digits. */
  function Leading(n: nat, k: nat): nat {
    if k == 0 then n else Leading(n / 10, k - 1)
  }

  /** The year a second is formatted with. */
  function Year(secs: nat): int {
    CivilFromDays(secs / 86400).year
  }

  /** The shorter year is no greater than the leading digits of the longer one. */
  predicate YearsSort(y: nat, z: nat) {
    if Digits(y) <= Digits(z) then y <= Leading(z, Digits(z) - Digits(y)) || Digits(y) == Digits(z)
    else z <= Leading(y, Digits(y) - Digits(z))
  }

  lemma {:induction false} DigitsMonotone(m: nat, n: nat)
    requires m <= n
    ensures Digits(m) <= Digits(n)
    decreases n
  {
    if n >= 10 && m >= 10 {
      DigitsMonotone(m / 10, n / 10);
    }
  }

  lemma {:induction false} LeadingText(n: nat, k: nat)
    requires k < Digits(n)
    ensures Decimal(n)[..Digits(n) - k] == Decimal(Leading(n, k))
    decreases k
  {
    if k > 0 {
      LeadingText(n / 10, k - 1);
      assert Decimal(n)[..Digits(n) - k] == Decimal(n / 10)[..Digits(n) - k];
    }
  }

  /** A shorter year with its dash against a longer one: what counts are the leading digits. */
  lemma LongerYear(y: nat, z: nat, r: string, s: string)
    requires Digits(y) < Digits(z)
    ensures TextLess(Decimal(y) + "-" + r, Decimal(z) + s) <==> y <= Leading(z, Digits(z) - Digits(y))
    ensures TextLess(Decimal(z) + s, Decimal(y) + "-" + r) <==> Leading(z, Digits(z) - Digits(y)) < y
  {
    var (p, q) := (Decimal(z)[..Digits(y)], Decimal(z)[Digits(y)..]);
    var lead := Leading(z, Digits(z) - Digits(y));
    LeadingText(z, Digits(z) - Digits(y));
    assert Decimal(z) == p + q;
    assert Decimal(z) + s == p + (q + s);
    assert Decimal(y) + "-" + r == Decimal(y) + ("-" + r);
    LessByParts(Decimal(y), p, "-" + r, q + s);
    LessByParts(p, Decimal(y), q + s, "-" + r);
    SameLengthOrder(y, lead);
    assert (q + s)[0] == Decimal(z)[Digits(y)];
    DashBeforeDigit("-" + r, q + s);
    hide *;
  }

  lemma SameLengthOrder(y: nat, z: nat)
    requires Digits(y) == Digits(z)
    ensures TextLess(Decimal(y), Decimal(z)) <==> y < z
    ensures TextLess(Decimal(z), Decimal(y)) <==> z < y
    ensures Decimal(y) == Decimal(z) <==> y == z
  {
    hide Decimal;
    DecimalValue(y);
    DecimalValue(z);
    LessIsLessValue(Decimal(y), Decimal(z));
    LessIsLessValue(Decimal(z), Decimal(y));
  }

  lemma DashBeforeDigit(r: string, s: string)
    requires r != [] && s != [] && r[0] == '-' && IsDigit(s[0])
    ensures TextLess(r, s) && !TextLess(s, r)
  {
  }

  lemma LongYearUnpadded(n: nat)
    requires n >= 1000
    ensures PaddedNat(n, 4) == Decimal(n)
  {
    LongEnough(n);
  }

  function AfterYear(m: string, d: string, h: string, i: string, z: string): string {
    m + ("-" + (d + (" " + (h + (":" + (i + (":" + z)))))))
  }

  lemma FiveStartsWithYear(y: string, m: string, d: string, h: string, i: string, z: string)
    ensures Five(y, m, d, h, i, z) == y + "-" + AfterYear(m, d, h, i, z)
  {
    assert y + ("-" + AfterYear(m, d, h, i, z)) == y + "-" + AfterYear(m, d, h, i, z);
  }

  lemma StampYear(c: Date, h: nat, i: nat) returns (r: string)
    requires IsDate(c) && c.year >= 1000
    ensures Stamp(c, h, i, 0) == Decimal(c.year) + "-" + r
    ensures |PaddedNat(c.year, 4)| == Digits(c.year)
  {
    hide Stamp, Decimal, Five, PaddedNat, AfterYear;
    LongYearUnpadded(c.year);
    StampIsFive(c, h, i);
    var (m, d, hh, ii, z) := (PaddedNat(c.month, 2), PaddedNat(c.day, 2), PaddedNat(h, 2), PaddedNat(i, 2), PaddedNat(0, 2));
    r := AfterYear(m, d, hh, ii, z);
    FiveStartsWithYear(Decimal(c.year), m, d, hh, ii, z);
  }

  /** Dates with years of different length: the texts sort by the leading digits. */
  lemma LongerStamp(a: Date, b: Date, h: nat, i: nat, k: nat, l: nat)
    requires IsDate(a) && IsDate(b) && a.year >= 1000 && b.year >= 1000 && Digits(a.year) < Digits(b.year)
    ensures a.year < b.year
    ensures TextLess(Stamp(a, h, i, 0), Stamp(b, k, l, 0)) <==> YearsSort(a.year, b.year)
    ensures TextLess(Stamp(b, k, l, 0), Stamp(a, h, i, 0)) <==> !YearsSort(a.year, b.year)
  {
    hide Stamp, TextLess, Leading, Decimal, IsDate;
    var r := StampYear(a, h, i);
    var s := StampYear(b, k, l);
    assert Decimal(b.year) + "-" + s == Decimal(b.year) + ("-" + s);
    LongerYear(a.year, b.year, r, "-" + s);
    if b.year <= a.year {
      DigitsMonotone(b.year, a.year);
    }
  }

  // ---- the certificate check compares texts ------------------------------------------------------

  /** The instant with the shorter year is the earlier one; the texts agree exactly when the years sort. */
  lemma LongerOneWay(a: nat, b: nat)
    requires a < FIRST_CUT_SECOND && b < FIRST_CUT_SECOND && Year(a) >= 1000 && Year(b) >= 1000
    requires Digits(Year(a)) < Digits(Year(b))
    ensures a / 60 < b / 60
    ensures TextLess(UnixToUtcMinute(a), UnixToUtcMinute(b)) <==> YearsSort(Year(a), Year(b))
    ensures TextLess(UnixToUtcMinute(b), UnixToUtcMinute(a)) <==> !YearsSort(Year(a), Year(b))
  {
    hide Stamp, CivilFromDays, CivilFromDaysWide, DaysFromCivil, TextLess, IsDate, Earlier, Decimal, YearsSort;
    var (m, n) := (a / 86400, b / 86400);
    FirstCutDay();
    UncutDate(m); UncutDate(n);
    ClockParts(a); ClockParts(b);
    var (p, q) := (a % 86400, b % 86400);
    var (c, d) := (CivilFromDays(m), CivilFromDays(n));
    LongerStamp(c, d, p / 3600, p % 3600 / 60, q / 3600, q % 3600 / 60);
    EarlierMeans(c, d);
    DayOrder(m, n);
    MinuteOrder(a, b);
  }

  lemma EachYear(a: nat)
    requires a < FIRST_CUT_SECOND
    ensures Year(a) >= 1970
  {
    hide CivilFromDays, CivilFromDaysWide;
    FirstCutDay();
    UncutDate(a / 86400);
  }

  /**
   Of two instants whose years fit 32 bits, comparing the texts is comparing
   whole minutes if and only if the years have equally many digits or the
   shorter one is no greater than the leading digits of the longer one.
   */
  lemma TextOrderExact(a: nat, b: nat)
    requires a < FIRST_CUT_SECOND && b < FIRST_CUT_SECOND
    ensures Year(a) >= 1970 && Year(b) >= 1970
    ensures (TextLess(UnixToUtcMinute(a), UnixToUtcMinute(b)) <==> a / 60 < b / 60) <==> YearsSort(Year(a), Year(b))
  {
    hide UnixToUtcMinute, TextLess, Decimal, Leading, Year;
    EachYear(a);
    EachYear(b);
    if Digits(Year(a)) < Digits(Year(b)) {
      LongerOneWay(a, b);
    } else if Digits(Year(b)) < Digits(Year(a)) {
      LongerOneWay(b, a);
    } else {
      SameLengthOneWay(a, b);
    }
  }

  lemma SameLengthOneWay(a: nat, b: nat)
    requires a < FIRST_CUT_SECOND && b < FIRST_CUT_SECOND && Year(a) >= 1000 && Year(b) >= 1000
    requires Digits(Year(a)) == Digits(Year(b))
    ensures TextLess(UnixToUtcMinute(a), UnixToUtcMinute(b)) <==> a / 60 < b / 60
  {
    hide Stamp, CivilFromDays, CivilFromDaysWide, DaysFromCivil, TextLess, IsDate, Earlier, Decimal;
    var (m, n) := (a / 86400, b / 86400);
    FirstCutDay();
    UncutDate(m); UncutDate(n);
    ClockParts(a); ClockParts(b);
    var (p, q) := (a % 86400, b % 86400);
    var (c, d) := (CivilFromDays(m), CivilFromDays(n));
    var r := StampYear(c, 0, 0);
    var s := StampYear(d, 0, 0);
    StampOrder(c, d, p / 3600, p % 3600 / 60, q / 3600, q % 3600 / 60);
    DayOrder(m, n);
    MinuteOrder(a, b);
  }

  /** Up to the end of 9999 comparing the texts is comparing whole minutes, equality included. */
  lemma TextOrderIsTimeOrder(a: nat, b: nat)
    requires a < FIRST_FIVE_DIGIT_SECOND && b < FIRST_FIVE_DIGIT_SECOND
    ensures TextLess(UnixToUtcMinute(a), UnixToUtcMinute(b)) <==> a / 60 < b / 60
    ensures UnixToUtcMinute(a) == UnixToUtcMinute(b) <==> a / 60 == b / 60
  {
    hide Stamp, CivilFromDays, CivilFromDaysWide, DaysFromCivil, TextLess, IsDate, Decimal;
    FourDigits(a); FourDigits(b);
    SameLengthOneWay(a, b);
    SameLengthOneWay(b, a);
    NotLessThanSelf(UnixToUtcMinute(a));
    if a / 60 == b / 60 {
      SameMinute(a, b);
    }
  }

  lemma FourDigits(a: nat)
    requires a < FIRST_FIVE_DIGIT_SECOND
    ensures a < FIRST_CUT_SECOND && Year(a) >= 1000 && Digits(Year(a)) == 4
  {
    hide CivilFromDays, CivilFromDaysWide;
    FourDigitYear(a / 86400);
    LongEnough(Year(a));
    Widths();
    DecimalLength(Year(a), 4);
  }

  lemma DayOrder(m: int, n: int)
    ensures Earlier(CivilFromDaysWide(m), CivilFromDaysWide(n)) <==> m < n
    ensures CivilFromDaysWide(m) == CivilFromDaysWide(n) <==> m == n
  {
    hide CivilFromDaysWide;
    if m < n { CivilMonotone(m, n); } else if n < m { CivilMonotone(n, m); }
  }

  lemma MinuteOrder(a: nat, b: nat)
    ensures a / 60 < b / 60 <==>
      a / 86400 < b / 86400 ||
      (a / 86400 == b / 86400 &&
        (a % 86400 / 3600 < b % 86400 / 3600 ||
          (a % 86400 / 3600 == b % 86400 / 3600 && a % 86400 % 3600 / 60 < b % 86400 % 3600 / 60)))
  {
    MinuteParts(a); MinuteParts(b);
  }

  lemma MinuteParts(a: nat)
    ensures a / 60 == 1440 * (a / 86400) + 60 * (a % 86400 / 3600) + a % 86400 % 3600 / 60
    ensures 0 <= a % 86400 / 3600 <= 23 && 0 <= a % 86400 % 3600 / 60 <= 59
  {
    ClockParts(a);
  }

  lemma SameMinute(a: nat, b: nat)
    requires a / 60 == b / 60
    ensures UnixToUtcMinute(a) == UnixToUtcMinute(b)
  {
    hide Stamp, CivilFromDays;
    MinuteParts(a); MinuteParts(b);
  }

  /** The end of 9999 is the greatest limit below which every pair sorts. */
  lemma OrderLimit(n: nat)
    ensures (forall a: nat, b: nat :: a < n && b < n ==>
              (TextLess(UnixToUtcMinute(a), UnixToUtcMinute(b)) <==> a / 60 < b / 60)) <==>
            n <= FIRST_FIVE_DIGIT_SECOND
  {
    hide UnixToUtcMinute, TextLess;
    if n <= FIRST_FIVE_DIGIT_SECOND {
      forall a: nat, b: nat | a < n && b < n
        ensures TextLess(UnixToUtcMinute(a), UnixToUtcMinute(b)) <==> a / 60 < b / 60
      {
        TextOrderIsTimeOrder(a, b);
      }
    } else {
      FiveDigitsBreakTheOrder();
    }
  }

  /** The minute after 9999-12-31 23:59 sorts before it. */
  lemma FiveDigitsBreakTheOrder()
    ensures TextLess(UnixToUtcMinute(FIRST_FIVE_DIGIT_SECOND), UnixToUtcMinute(FIRST_FIVE_DIGIT_SECOND - 1))
  {
    var (after, last) := (Date(10_000, 1, 1), Date(9999, 12, 31));
    AroundTheLimit();
    LeadingDigits();
    hide UnixToUtcMinute, Stamp, Decimal;
    YearLeads(after, 0, 0);
    YearLeads(last, 23, 59);
  }

  lemma {:induction false} AroundTheLimit()
    ensures UnixToUtcMinute(FIRST_FIVE_DIGIT_SECOND) == Stamp(Date(10_000, 1, 1), 0, 0, 0)
    ensures UnixToUtcMinute(FIRST_FIVE_DIGIT_SECOND - 1) == Stamp(Date(9999, 12, 31), 23, 59, 0)
  {
    hide Stamp, CivilFromDays, DaysFromCivil;
    FiveDigitDay();
    DateAt(Date(10_000, 1, 1));
    DateAt(Date(9999, 12, 31));
  }

  lemma DateAt(c: Date)
    requires IsDate(c) && 0 <= c.year < 0x8000_0000
    ensures CivilFromDays(DaysFromCivil(c)) == c
  {
    hide CivilFromDays, CivilFromDaysWide, DaysFromCivil, IsDate;
    CivilOfDays(c);
    CutExact(DaysFromCivil(c));
  }

  lemma LeadingDigits()
    ensures Decimal(10_000)[0] == '1' && Decimal(9999)[0] == '9'
  {
    LeadingDigit(10_000); LeadingDigit(1000); LeadingDigit(100); LeadingDigit(10); LeadingDigit(1);
    LeadingDigit(9999); LeadingDigit(999); LeadingDigit(99); LeadingDigit(9);
    hide Decimal;
  }

  lemma YearLeads(c: Date, hour: nat, minute: nat)
    requires c.year >= 1000
    ensures Stamp(c, hour, minute, 0) != [] && Stamp(c, hour, minute, 0)[0] == Decimal(c.year)[0]
  {
    LongEnough(c.year);
  }

  lemma LongEnough(n: nat)
    requires n >= 1000
    ensures |Decimal(n)| >= 4
  {
    assert |Decimal(n / 10 / 10 / 10)| >= 1;
    assert |Decimal(n / 10 / 10)| >= 2;
    assert |Decimal(n / 10)| >= 3;
  }

  lemma LeadingDigit(n: nat)
    ensures n >= 10 ==> Decimal(n)[0] == Decimal(n / 10)[0]
    ensures n < 10 ==> Decimal(n)[0] == Digit(n)
  {
  }
}
