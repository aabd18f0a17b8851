/**
 * HTTP dates (RFC 9110 section 5.6.7): the printer, the three-grammar parser
 * and the conditional-GET decision built from them. A time is the integer
 * number of milliseconds that `Date.getTime` returns.
 */
module HttpDate {
  import opened Text
  import opened Wrappers
  import opened Calendar

  const WEEKDAYS := ["Sun", "Mon", "Tue", "Wed", "Thu", "Fri", "Sat"]
  const LONG_WEEKDAYS := ["Sunday", "Monday", "Tuesday", "Wednesday", "Thursday", "Friday", "Saturday"]
  const MONTHS := ["Jan", "Feb", "Mar", "Apr", "May", "Jun", "Jul", "Aug", "Sep", "Oct", "Nov", "Dec"]

  // ---------------------------------------------------------------- instants

  /** What the UTC accessors of a `Date` report. */
  datatype Stamp = Stamp(civil: Civil, hour: int, minute: int, second: int)

  predicate IsStamp(s: Stamp) {
    IsCivil(s.civil) && 0 <= s.hour <= 23 && 0 <= s.minute <= 59 && 0 <= s.second <= 59
  }

  function StampOf(time: int): Stamp {
    var second := time % MS_PER_DAY / MS_PER_SECOND;
    Stamp(CivilFromDay(time / MS_PER_DAY), second / 3600, second / 60 % 60, second % 60)
  }

  function TimeOf(s: Stamp): int
    requires 0 <= s.civil.month <= 11
  {
    DayFromCivil(s.civil) * MS_PER_DAY + (s.hour * 3600 + s.minute * 60 + s.second) * MS_PER_SECOND
  }

  function FloorToSecond(time: int): int {
    time / MS_PER_SECOND * MS_PER_SECOND
  }

  lemma {:induction false} SplitTime(day: int, second: int)
    requires 0 <= second < 86_400
    ensures (day * MS_PER_DAY + second * MS_PER_SECOND) / MS_PER_DAY == day
    ensures (day * MS_PER_DAY + second * MS_PER_SECOND) % MS_PER_DAY == second * MS_PER_SECOND
  {
  }

  lemma {:induction false} SplitClock(hour: int, minute: int, second: int)
    requires 0 <= hour <= 23 && 0 <= minute <= 59 && 0 <= second <= 59
    ensures var n := hour * 3600 + minute * 60 + second;
            n / 3600 == hour && n / 60 % 60 == minute && n % 60 == second && 0 <= n < 86_400
  {
  }

  lemma {:induction false} JoinClock(n: int)
    requires 0 <= n < 86_400
    ensures 0 <= n / 3600 <= 23 && n / 3600 * 3600 + n / 60 % 60 * 60 + n % 60 == n
  {
  }

  lemma {:induction false} JoinTime(time: int)
    ensures 0 <= time % MS_PER_DAY / MS_PER_SECOND < 86_400
    ensures time / MS_PER_DAY * MS_PER_DAY + time % MS_PER_DAY / MS_PER_SECOND * MS_PER_SECOND == FloorToSecond(time)
  {
    var day, rest := time / MS_PER_DAY, time % MS_PER_DAY;
    assert time == day * MS_PER_DAY + rest;
    assert time / MS_PER_SECOND == day * 86_400 + rest / MS_PER_SECOND;
  }

  lemma {:induction false} StampTimeStamp(s: Stamp)
    requires IsStamp(s)
    ensures StampOf(TimeOf(s)) == s
  {
    var n := s.hour * 3600 + s.minute * 60 + s.second;
    SplitClock(s.hour, s.minute, s.second);
    var day := DayFromCivil(s.civil);
    assert TimeOf(s) == day * MS_PER_DAY + n * MS_PER_SECOND;
    StampOfParts(day, n);
    CivilDayCivil(s.civil);
  }

  lemma {:induction false} StampOfParts(day: int, n: int)
    requires 0 <= n < 86_400
    ensures StampOf(day * MS_PER_DAY + n * MS_PER_SECOND)
         == Stamp(CivilFromDay(day), n / 3600, n / 60 % 60, n % 60)
  {
    SplitTime(day, n);
  }

  lemma {:induction false} StampOfTime(time: int)
    ensures IsStamp(StampOf(time))
    ensures TimeOf(StampOf(time))
         == time / MS_PER_DAY * MS_PER_DAY + time % MS_PER_DAY / MS_PER_SECOND * MS_PER_SECOND
  {
    var n := time % MS_PER_DAY / MS_PER_SECOND;
    assert 0 <= n < 86_400 by { JoinTime(time); }
    JoinClock(n);
    DayCivilDay(time / MS_PER_DAY);
  }

  /** Instants to stamps and back loses exactly the milliseconds. */
  lemma {:induction false} TimeStampTime(time: int)
    ensures IsStamp(StampOf(time))
    ensures TimeOf(StampOf(time)) == FloorToSecond(time)
    ensures StampOf(FloorToSecond(time)) == StampOf(time)
  {
    StampOfTime(time);
    JoinTime(time);
    StampTimeStamp(StampOf(time));
  }

  // ------------------------------------------------------------ construction

  /** `Date.UTC`, which reads the years 0..99 as 1900..1999. */
  function DateUtc(s: Stamp): int
    requires 0 <= s.civil.month <= 11
  {
    var year := if 0 <= s.civil.year <= 99 then 1900 + s.civil.year else s.civil.year;
    TimeOf(s.(civil := s.civil.(year := year)))
  }

  /** `setUTCFullYear(year)`: same month, same day of month, same time of day. */
  function WithFullYear(time: int, year: int): int {
    var civil := CivilFromDay(time / MS_PER_DAY);
    DayFromCivil(civil.(year := year)) * MS_PER_DAY + time % MS_PER_DAY
  }

  /** `Date.UTC` followed by the correction of two-digit years. */
  function CorrectedUtc(wanted: Stamp): int
    requires 0 <= wanted.civil.month <= 11
  {
    if 0 <= wanted.civil.year <= 99 then WithFullYear(DateUtc(wanted), wanted.civil.year) else DateUtc(wanted)
  }

  /** The mutable `Date` object that the source builds and then corrects in place. */
  class UtcDate {
    var time: int

    constructor Utc(s: Stamp)
      requires 0 <= s.civil.month <= 11
      ensures time == DateUtc(s)
    {
      time := DateUtc(s);
    }

    method SetUtcFullYear(year: int)
      modifies this
      ensures time == WithFullYear(old(time), year)
    {
      time := WithFullYear(time, year);
    }
  }

  function MonthIndex(name: string): (month: Option<int>)
    ensures month.Some? ==> 0 <= month.value <= 11
  {
    match name
    case "Apr" => Some(3) case "Aug" => Some(7) case "Dec" => Some(11) case "Feb" => Some(1)
    case "Jan" => Some(0) case "Jul" => Some(6) case "Jun" => Some(5) case "Mar" => Some(2)
    case "May" => Some(4) case "Nov" => Some(10) case "Oct" => Some(9) case "Sep" => Some(8)
    case _ => None
  }

  /** The fields a grammar captures, before they are known to name a real instant. */
  datatype Fields = Fields(year: int, monthName: string, day: int, hour: int, minute: int, second: int)

  /** The instant that `HttpDateCreate` returns. */
  function DateCreate(f: Fields): Option<int> {
    if MonthIndex(f.monthName).None? then None else CheckedTime(StampOfFields(f))
  }

  function StampOfFields(f: Fields): Stamp
    requires MonthIndex(f.monthName).Some?
  {
    Stamp(Civil(f.year, MonthIndex(f.monthName).value, f.day), f.hour, f.minute, f.second)
  }

  function CheckedTime(wanted: Stamp): Option<int>
    requires 0 <= wanted.civil.month <= 11
  {
    if wanted.civil.date < 1 || wanted.civil.date > 31 || wanted.hour > 23 || wanted.minute > 59 || wanted.second > 59
    then None
    else if StampOf(CorrectedUtc(wanted)) == wanted then Some(CorrectedUtc(wanted))
    else None
  }

  /** The in-place construction, step by step as the source performs it. */
  method HttpDateCreate(f: Fields) returns (date: UtcDate?)
    ensures date == null <==> DateCreate(f).None?
    ensures date != null ==> DateCreate(f) == Some(date.time)
  {
    var month := MonthIndex(f.monthName);
    if month.None? || f.day < 1 || f.day > 31 || f.hour > 23 || f.minute > 59 || f.second > 59 {
      return null;
    }
    var wanted := StampOfFields(f);
    var built := new UtcDate.Utc(wanted);
    if 0 <= f.year <= 99 {
      built.SetUtcFullYear(f.year);
    }
    if StampOf(built.time) != wanted {
      return null;
    }
    return built;
  }

  // ------------------------------------------------- the component check, exactly

  lemma {:induction false} WithFullYearOfStamp(s: Stamp, year: int)
    requires IsStamp(s)
    ensures WithFullYear(TimeOf(s), year) == TimeOf(s.(civil := s.civil.(year := year)))
  {
    var n := s.hour * 3600 + s.minute * 60 + s.second;
    SplitClock(s.hour, s.minute, s.second);
    CivilDayCivil(s.civil);
    FullYearByParts(TimeOf(s), DayFromCivil(s.civil), n, s.civil, year);
  }

  lemma {:induction false} FullYearByParts(time: int, day: int, n: int, civil: Civil, year: int)
    requires 0 <= civil.month <= 11 && 0 <= n < 86_400 && CivilFromDay(day) == civil
    requires time == day * MS_PER_DAY + n * MS_PER_SECOND
    ensures WithFullYear(time, year) == DayFromCivil(civil.(year := year)) * MS_PER_DAY + n * MS_PER_SECOND
  {
    SplitDay(time, day, n * MS_PER_SECOND);
  }

  lemma {:induction false} SplitDay(time: int, day: int, rest: int)
    requires time == day * MS_PER_DAY + rest && 0 <= rest < MS_PER_DAY
    ensures time / MS_PER_DAY == day && time % MS_PER_DAY == rest
  {
  }

  lemma {:induction false} LeapYearsOfTheFirstCentury(year: int)
    requires 0 <= year <= 99
    ensures IsLeapYear(1900 + year) == (IsLeapYear(year) && year != 0)
  {
  }

  /** 29 February 0000, the one existing date the construction loses. */
  const LOST_LEAP_DAY := Civil(0, 1, 29)

  /** Whether the fields name a date and time of day that exist and that the construction keeps. */
  predicate NamesInstant(f: Fields) {
    MonthIndex(f.monthName).Some? && IsStamp(StampOfFields(f)) && StampOfFields(f).civil != LOST_LEAP_DAY
  }

  lemma {:induction false} LostLeapDayIsLost(wanted: Stamp)
    requires IsStamp(wanted) && wanted.civil == LOST_LEAP_DAY
    ensures StampOf(CorrectedUtc(wanted)) != wanted
  {
    var marchFirst := wanted.(civil := Civil(1900, 2, 1));
    assert DateUtc(wanted) == TimeOf(marchFirst);
    WithFullYearOfStamp(marchFirst, 0);
    StampTimeStamp(marchFirst.(civil := Civil(0, 2, 1)));
  }

  lemma {:induction false} CorrectedUtcTime(wanted: Stamp)
    requires IsStamp(wanted)
    requires wanted.civil != LOST_LEAP_DAY
    ensures CorrectedUtc(wanted) == TimeOf(wanted)
  {
    if 0 <= wanted.civil.year <= 99 {
      var read := wanted.(civil := wanted.civil.(year := 1900 + wanted.civil.year));
      LeapYearsOfTheFirstCentury(wanted.civil.year);
      assert IsStamp(read) && DateUtc(wanted) == TimeOf(read);
      WithFullYearOfStamp(read, wanted.civil.year);
    }
  }

  lemma {:induction false} CorrectedUtcRoundTrip(wanted: Stamp)
    requires 0 <= wanted.civil.month <= 11
    ensures StampOf(CorrectedUtc(wanted)) == wanted <==> IsStamp(wanted) && wanted.civil != LOST_LEAP_DAY
    ensures StampOf(CorrectedUtc(wanted)) == wanted ==> CorrectedUtc(wanted) == TimeOf(wanted)
  {
    if !IsStamp(wanted) {
      StampOfTime(CorrectedUtc(wanted));
    } else if wanted.civil == LOST_LEAP_DAY {
      LostLeapDayIsLost(wanted);
    } else {
      CorrectedUtcTime(wanted);
      StampTimeStamp(wanted);
    }
  }

  /** The construction succeeds exactly on the instants that exist, bar one day, and is then correct. */
  lemma {:induction false} DateCreateExact(f: Fields)
    ensures DateCreate(f) == if NamesInstant(f) then Some(TimeOf(StampOfFields(f))) else None
  {
    if MonthIndex(f.monthName).Some? {
      CorrectedUtcRoundTrip(StampOfFields(f));
    }
  }

  // ----------------------------------------------------------------- printing

  function Decimal(n: nat): string {
    var last := ["0123456789"[n % 10]];
    if n < 10 then last else Decimal(n / 10) + last
  }

  /** `Number.prototype.toString` on an integer. */
  function NumberToString(n: int): string {
    if n < 0 then "-" + Decimal(-n) else Decimal(n)
  }

  /** `padStart(width, "0")` */
  function PadStart(s: string, width: nat): (r: string)
    ensures |r| == if |s| < width then width else |s|
    decreases width - |s|
  {
    if |s| >= width then s else PadStart("0" + s, width)
  }

  function NumberFormat(n: int): string {
    PadStart(NumberToString(n), 2)
  }

  function YearFormat(year: int): string {
    PadStart(NumberToString(year), 4)
  }

  function ImfFixdate(weekday: string, date: string, month: string, year: string, clock: string): string {
    weekday + ", " + date + " " + month + " " + year + " " + clock + " GMT"
  }

  function WeekDay(time: int): int {
    (time / MS_PER_DAY + 4) % 7
  }

  function Clock(s: Stamp): string {
    NumberFormat(s.hour) + ":" + NumberFormat(s.minute) + ":" + NumberFormat(s.second)
  }

  function HttpDateFormat(time: int): string {
    var date := FloorToSecond(time);
    var s := StampOf(date);
    assert 0 <= s.civil.month <= 11 by { StampOfTime(date); }
    ImfFixdate(WEEKDAYS[WeekDay(date)], NumberFormat(s.civil.date), MONTHS[s.civil.month], YearFormat(s.civil.year), Clock(s))
  }

  // ------------------------------------------------------------------ parsing

  /** `Number` on a string of digits. */
  function Number(s: string): (n: int)
    requires AllDigits(s)
    ensures 0 <= n
  {
    if s == "" then 0 else Number(s[..|s| - 1]) * 10 + (s[|s| - 1] as int - '0' as int)
  }

  /** hh:mm:ss */
  predicate IsClock(s: string) {
    |s| == 8 && AllDigits(s[..2]) && s[2] == ':' && AllDigits(s[3..5]) && s[5] == ':' && AllDigits(s[6..])
  }

  function FieldsOf(year: int, monthName: string, day: string, clock: string): Fields
    requires AllDigits(day) && IsClock(clock)
  {
    Fields(year, monthName, Number(day), Number(clock[..2]), Number(clock[3..5]), Number(clock[6..]))
  }

  /** Wed, 06 Nov 1994 08:49:37 GMT */
  predicate IsImfFixdate(s: string) {
    |s| == 29 && s[..3] in WEEKDAYS && s[3..5] == ", " && AllDigits(s[5..7]) && s[7] == ' '
    && s[8..11] in MONTHS && s[11] == ' ' && AllDigits(s[12..16]) && s[16] == ' '
    && IsClock(s[17..25]) && s[25..] == " GMT"
  }

  /** The part of an RFC 850 date after its weekday: 06-Nov-94 08:49:37 GMT */
  predicate IsRfc850Tail(s: string) {
    |s| == 22 && AllDigits(s[..2]) && s[2] == '-' && s[3..6] in MONTHS && s[6] == '-'
    && AllDigits(s[7..9]) && s[9] == ' ' && IsClock(s[10..18]) && s[18..] == " GMT"
  }

  /** Where an RFC 850 date continues after its weekday, if the weekday and the rest match. */
  function Rfc850Tail(s: string): Option<string> {
    if 22 <= |s| && Rfc850Weekday(s[..|s| - 22]) && IsRfc850Tail(s[|s| - 22..]) then Some(s[|s| - 22..]) else None
  }

  predicate Rfc850Weekday(s: string) {
    2 <= |s| && s[|s| - 2..] == ", " && s[..|s| - 2] in LONG_WEEKDAYS
  }

  /** Wed Nov  6 08:49:37 1994 */
  predicate IsAsctime(s: string) {
    |s| == 24 && s[..3] in WEEKDAYS && s[3] == ' ' && s[4..7] in MONTHS && s[7] == ' '
    && (AllDigits(s[8..10]) || (s[8] == ' ' && IsDigit(s[9]))) && s[10] == ' '
    && IsClock(s[11..19]) && s[19] == ' ' && AllDigits(s[20..])
  }

  function ImfFixdateFields(s: string): Fields
    requires IsImfFixdate(s)
  {
    FieldsOf(Number(s[12..16]), s[8..11], s[5..7], s[17..25])
  }

  function Rfc850Year(twoDigits: int): int {
    if twoDigits <= 69 then 2000 + twoDigits else 1900 + twoDigits
  }

  function Rfc850Fields(tail: string): Fields
    requires IsRfc850Tail(tail)
  {
    FieldsOf(Rfc850Year(Number(tail[7..9])), tail[3..6], tail[..2], tail[10..18])
  }

  function AsctimeFields(s: string): Fields
    requires IsAsctime(s)
  {
    FieldsOf(Number(s[20..]), s[4..7], if AllDigits(s[8..10]) then s[8..10] else s[9..10], s[11..19])
  }

  function FieldsParse(s: string): Option<Fields> {
    if IsImfFixdate(s) then Some(ImfFixdateFields(s))
    else if Rfc850Tail(s).Some? then Some(Rfc850Fields(Rfc850Tail(s).value))
    else if IsAsctime(s) then Some(AsctimeFields(s))
    else None
  }

  function HttpDateParse(value: Option<string>): Option<int> {
    match value
    case None => None
    case Some(s) =>
      match FieldsParse(s)
      case None => None
      case Some(fields) => DateCreate(fields)
  }

  // ------------------------------------------------------------- numeric text

  lemma {:induction false} DecimalFacts(n: nat)
    ensures Decimal(n) != "" && AllDigits(Decimal(n)) && Number(Decimal(n)) == n
    ensures |Decimal(n)| == 1 <==> n < 10
  {
    if n >= 10 {
      DecimalFacts(n / 10);
      assert Decimal(n)[..|Decimal(n)| - 1] == Decimal(n / 10);
    }
  }

  lemma {:induction false} LeadingZero(s: string)
    requires AllDigits(s)
    ensures AllDigits("0" + s) && Number("0" + s) == Number(s)
  {
    var t := "0" + s;
    if s == "" {
      assert t[..0] == "";
    } else {
      LeadingZero(s[..|s| - 1]);
      assert t[..|t| - 1] == "0" + s[..|s| - 1];
    }
  }

  lemma {:induction false} PadStartFacts(s: string, width: nat)
    requires AllDigits(s)
    ensures AllDigits(PadStart(s, width)) && Number(PadStart(s, width)) == Number(s)
    decreases width - |s|
  {
    if |s| < width {
      LeadingZero(s);
      PadStartFacts("0" + s, width);
    }
  }

  lemma {:induction false} TwoDigits(n: int)
    requires 0 <= n <= 99
    ensures |NumberFormat(n)| == 2 && AllDigits(NumberFormat(n)) && Number(NumberFormat(n)) == n
  {
    DecimalFacts(n);
    DecimalFacts(n / 10);
    PadStartFacts(Decimal(n), 2);
  }

  lemma {:induction false} FourDigits(n: int)
    requires 0 <= n <= 9999
    ensures |YearFormat(n)| == 4 && AllDigits(YearFormat(n)) && Number(YearFormat(n)) == n
  {
    DecimalFacts(n);
    DecimalFacts(n / 10);
    DecimalFacts(n / 100);
    DecimalFacts(n / 1000);
    assert n / 10 / 10 == n / 100 && n / 100 / 10 == n / 1000;
    PadStartFacts(Decimal(n), 4);
  }

  lemma {:induction false} DecimalIsLong(n: nat, size: nat, least: nat)
    requires 1 <= size <= 5 && least == [1, 10, 100, 1000, 10000][size - 1] && least <= n
    ensures size <= |Decimal(n)|
    decreases size
  {
    if size > 1 { DecimalIsLong(n / 10, size - 1, least / 10); }
  }

  /** A year outside 0..9999 never prints as four digits and a space. */
  lemma {:induction false} OddYears(year: int)
    requires year < 0 || 9999 < year
    ensures 4 <= |YearFormat(year)|
    ensures !AllDigits(YearFormat(year)[..4]) || (4 < |YearFormat(year)| && IsDigit(YearFormat(year)[4]))
  {
    if year < 0 {
      PadStartMinus(NumberToString(year));
    } else {
      DecimalFacts(year);
      DecimalIsLong(year, 5, 10000);
    }
  }

  lemma {:induction false} PadStartMinus(s: string)
    requires 2 <= |s| && s[0] == '-'
    ensures exists i | 0 <= i < 4 :: PadStart(s, 4)[i] == '-'
  {
    assert |s| < 4 ==> PadStart(s, 4)[4 - |s|] == '-' by {
      if |s| == 2 { assert PadStart(s, 4) == PadStart("0" + s, 4) == PadStart("0" + ("0" + s), 4); }
      if |s| == 3 { assert PadStart(s, 4) == PadStart("0" + s, 4); }
    }
    assert |s| >= 4 ==> PadStart(s, 4)[0] == '-';
  }

  // ----------------------------------------------------------- the round trip

  lemma {:induction false} ClockFields(s: Stamp)
    requires IsStamp(s)
    ensures IsClock(Clock(s))
    ensures Number(Clock(s)[..2]) == s.hour && Number(Clock(s)[3..5]) == s.minute && Number(Clock(s)[6..]) == s.second
  {
    TwoDigits(s.hour);
    TwoDigits(s.minute);
    TwoDigits(s.second);
    var c := Clock(s);
    assert c[..2] == NumberFormat(s.hour) && c[3..5] == NumberFormat(s.minute) && c[6..] == NumberFormat(s.second);
  }

  lemma {:induction false} MonthNames(month: int)
    requires 0 <= month <= 11
    ensures |MONTHS[month]| == 3 && MonthIndex(MONTHS[month]) == Some(month)
  {
  }

  lemma {:induction false} ImfFixdateSlices(weekday: string, date: string, month: string, year: string, clock: string)
    requires |weekday| == 3 && |date| == 2 && |month| == 3 && 4 <= |year| && |clock| == 8
    ensures var s := ImfFixdate(weekday, date, month, year, clock);
            && |s| == 25 + |year|
            && s[..3] == weekday && s[3..5] == ", " && s[5..7] == date && s[7] == ' ' && s[8..11] == month && s[11] == ' '
            && s[12..12 + |year|] == year && s[12..16] == year[..4]
            && s[12 + |year|..13 + |year|] == " " && s[13 + |year|..21 + |year|] == clock && s[21 + |year|..] == " GMT"
  {
    var s := ImfFixdate(weekday, date, month, year, clock);
    assert s[12..12 + |year|] == year;
    assert s[12..16] == s[12..12 + |year|][..4];
  }

  /** The times an HTTP date can carry through this printer and parser. */
  predicate Expressible(time: int) {
    0 <= StampOf(time).civil.year <= 9999 && StampOf(time).civil != LOST_LEAP_DAY
  }

  function FieldsOfStamp(s: Stamp): Fields
    requires IsStamp(s)
  {
    Fields(s.civil.year, MONTHS[s.civil.month], s.civil.date, s.hour, s.minute, s.second)
  }

  lemma {:induction false} ImfFixdateRead(weekday: string, date: string, month: string, year: string, clock: string)
    requires weekday in WEEKDAYS && |date| == 2 && AllDigits(date) && month in MONTHS && IsClock(clock)
    requires |year| == 4 && AllDigits(year)
    ensures FieldsParse(ImfFixdate(weekday, date, month, year, clock)) == Some(FieldsOf(Number(year), month, date, clock))
  {
    ImfFixdateSlices(weekday, date, month, year, clock);
    assert year[..4] == year;
  }

  lemma {:induction false} ImfFixdateRejected(weekday: string, date: string, month: string, year: string, clock: string)
    requires weekday in WEEKDAYS && |date| == 2 && month in MONTHS && |clock| == 8
    requires 4 <= |year| && (!AllDigits(year[..4]) || (4 < |year| && IsDigit(year[4])))
    ensures FieldsParse(ImfFixdate(weekday, date, month, year, clock)) == None
  {
    var s := ImfFixdate(weekday, date, month, year, clock);
    ImfFixdateSlices(weekday, date, month, year, clock);
    assert 4 < |year| ==> s[16] == s[12..12 + |year|][4];
    assert s[3] == s[3..5][0] == ',';
    CommaIsNotRfc850(s);
  }

  lemma {:induction false} CommaIsNotRfc850(s: string)
    requires 4 <= |s| && s[3] == ','
    ensures Rfc850Tail(s).None?
  {
    assert forall w | w in LONG_WEEKDAYS :: 6 <= |w| && w[3] != ',';
  }

  lemma {:induction false} FormatFields(time: int)
    ensures IsStamp(StampOf(time))
    ensures FieldsParse(HttpDateFormat(time))
         == if 0 <= StampOf(time).civil.year <= 9999 then Some(FieldsOfStamp(StampOf(time))) else None
  {
    TimeStampTime(time);
    var s := StampOf(time);
    var weekday := WEEKDAYS[WeekDay(FloorToSecond(time))];
    TwoDigits(s.civil.date);
    ClockFields(s);
    MonthNames(s.civil.month);
    if 0 <= s.civil.year <= 9999 {
      FourDigits(s.civil.year);
      ImfFixdateRead(weekday, NumberFormat(s.civil.date), MONTHS[s.civil.month], YearFormat(s.civil.year), Clock(s));
    } else {
      OddYears(s.civil.year);
      ImfFixdateRejected(weekday, NumberFormat(s.civil.date), MONTHS[s.civil.month], YearFormat(s.civil.year), Clock(s));
    }
  }

  /**
   * The law of the printer and the parser, on every time: parsing a printed date
   * gives back the time floored to its second, exactly when the year has four
   * digits and the day is not the lost leap day; otherwise it is rejected.
   */
  lemma {:induction false} FormatThenParse(time: int)
    ensures HttpDateParse(Some(HttpDateFormat(time))) == if Expressible(time) then Some(FloorToSecond(time)) else None
  {
    FormatFields(time);
    var s := StampOf(time);
    if 0 <= s.civil.year <= 9999 {
      MonthNames(s.civil.month);
      assert StampOfFields(FieldsOfStamp(s)) == s;
      DateCreateExact(FieldsOfStamp(s));
      TimeStampTime(time);
    }
  }

  // --------------------------------------------- the two obsolete grammars agree

  /** The rfc850-date form of a time. */
  function Rfc850Format(time: int): string {
    var s := StampOf(time);
    assert 0 <= s.civil.month <= 11 by { StampOfTime(time); }
    LONG_WEEKDAYS[WeekDay(time)] + ", "
    + Rfc850DateTime(NumberFormat(s.civil.date), MONTHS[s.civil.month], NumberFormat(s.civil.year % 100), Clock(s))
  }

  function Rfc850DateTime(date: string, month: string, year: string, clock: string): string {
    date + "-" + month + "-" + year + " " + clock + " GMT"
  }

  /** The asctime-date form of a time; a one-digit day is padded with a space. */
  function AsctimeFormat(time: int): string {
    var s := StampOf(time);
    assert 0 <= s.civil.month <= 11 && 0 <= s.civil.date by { StampOfTime(time); }
    var date := if s.civil.date < 10 then " " + Decimal(s.civil.date) else Decimal(s.civil.date);
    Asctime(WEEKDAYS[WeekDay(time)], MONTHS[s.civil.month], date, Clock(s), YearFormat(s.civil.year))
  }

  function Asctime(weekday: string, month: string, date: string, clock: string, year: string): string {
    weekday + " " + month + " " + date + " " + clock + " " + year
  }

  lemma {:induction false} LongWeekdayShape(weekday: string)
    requires weekday in LONG_WEEKDAYS
    ensures 6 <= |weekday| && weekday[3] != ','
  {
  }

  lemma {:induction false} Rfc850Slices(weekday: string, tail: string)
    requires 6 <= |weekday| && |tail| == 22
    ensures var s := weekday + ", " + tail;
            s[..|s| - 22] == weekday + ", " && s[|s| - 22..] == tail && s[3] == weekday[3]
    ensures (weekday + ", ")[..|weekday|] == weekday && (weekday + ", ")[|weekday|..] == ", "
  {
  }

  lemma {:induction false} NoCommaIsNotImfFixdate(s: string)
    requires 4 <= |s| && s[3] != ','
    ensures !IsImfFixdate(s)
  {
    if |s| == 29 { assert s[3..5][0] == s[3]; }
  }

  lemma {:induction false} Rfc850DateTimeSlices(date: string, month: string, year: string, clock: string)
    requires |date| == 2 && |month| == 3 && |year| == 2 && |clock| == 8
    ensures var t := Rfc850DateTime(date, month, year, clock);
      && |t| == 22 && t[..2] == date && t[2] == '-' && t[3..6] == month && t[6] == '-' && t[7..9] == year
      && t[9] == ' ' && t[10..18] == clock && t[18..] == " GMT"
  {
  }

  lemma {:induction false} Rfc850Read(weekday: string, date: string, month: string, year: string, clock: string)
    requires weekday in LONG_WEEKDAYS && |date| == 2 && AllDigits(date) && month in MONTHS && IsClock(clock)
    requires |year| == 2 && AllDigits(year)
    ensures FieldsParse(weekday + ", " + Rfc850DateTime(date, month, year, clock))
         == Some(FieldsOf(Rfc850Year(Number(year)), month, date, clock))
  {
    var tail := Rfc850DateTime(date, month, year, clock);
    Rfc850DateTimeSlices(date, month, year, clock);
    LongWeekdayShape(weekday);
    Rfc850Slices(weekday, tail);
    NoCommaIsNotImfFixdate(weekday + ", " + tail);
    Rfc850TailRead(weekday + ", " + tail, tail);
  }

  lemma {:induction false} Rfc850TailRead(s: string, tail: string)
    requires 22 <= |s| && s[|s| - 22..] == tail && IsRfc850Tail(tail) && Rfc850Weekday(s[..|s| - 22]) && !IsImfFixdate(s)
    ensures FieldsParse(s) == Some(Rfc850Fields(tail))
  {
  }

  lemma {:induction false} AsctimeSlices(weekday: string, month: string, date: string, clock: string, year: string)
    requires |weekday| == 3 && |date| == 2 && |month| == 3 && |clock| == 8 && |year| == 4
    ensures var s := Asctime(weekday, month, date, clock, year);
      && |s| == 24 && s[..3] == weekday && s[3] == ' ' && s[4..7] == month && s[7] == ' ' && s[8..10] == date
      && s[9..10] == date[1..] && s[10] == ' ' && s[11..19] == clock && s[19] == ' ' && s[20..] == year
  {
  }

  lemma {:induction false} AsctimeRead(weekday: string, month: string, date: string, clock: string, year: string)
    requires weekday in WEEKDAYS && |date| == 2 && month in MONTHS && IsClock(clock) && |year| == 4 && AllDigits(year)
    requires AllDigits(date) || (date[0] == ' ' && IsDigit(date[1]))
    ensures FieldsParse(Asctime(weekday, month, date, clock, year))
         == Some(FieldsOf(Number(year), month, if AllDigits(date) then date else date[1..], clock))
  {
    var s := Asctime(weekday, month, date, clock, year);
    AsctimeSlices(weekday, month, date, clock, year);
    AsctimeIsNotRfc850(s);
    AsctimeDay(s, date);
    assert IsAsctime(s);
  }

  lemma {:induction false} AsctimeDay(s: string, date: string)
    requires |s| == 24 && |date| == 2 && s[8..10] == date && (AllDigits(date) || (date[0] == ' ' && IsDigit(date[1])))
    ensures AllDigits(s[8..10]) || (s[8] == ' ' && IsDigit(s[9]))
  {
    assert s[8] == s[8..10][0] && s[9] == s[8..10][1];
  }

  lemma {:induction false} AsctimeIsNotRfc850(s: string)
    requires |s| == 24
    ensures Rfc850Tail(s).None?
  {
    assert forall w | w in LONG_WEEKDAYS :: 6 <= |w|;
  }

  lemma {:induction false} Rfc850FormatFields(time: int)
    ensures IsStamp(StampOf(time))
    ensures var s := StampOf(time);
            FieldsParse(Rfc850Format(time)) == Some(FieldsOfStamp(s).(year := Rfc850Year(s.civil.year % 100)))
  {
    TimeStampTime(time);
    var s := StampOf(time);
    TwoDigits(s.civil.date);
    TwoDigits(s.civil.year % 100);
    ClockFields(s);
    MonthNames(s.civil.month);
    Rfc850Read(LONG_WEEKDAYS[WeekDay(time)], NumberFormat(s.civil.date), MONTHS[s.civil.month],
               NumberFormat(s.civil.year % 100), Clock(s));
  }

  lemma {:induction false} Rfc850YearAgrees(year: int)
    ensures Rfc850Year(year % 100) == year <==> 1970 <= year <= 2069
  {
  }

  /** A two-digit year is read correctly exactly in the hundred years from 1970. */
  lemma {:induction false} Rfc850Agrees(time: int)
    ensures HttpDateParse(Some(Rfc850Format(time))) == Some(FloorToSecond(time))
       <==> 1970 <= StampOf(time).civil.year <= 2069
  {
    TimeStampTime(time);
    Rfc850FormatFields(time);
    var s := StampOf(time);
    Rfc850YearAgrees(s.civil.year);
    OtherYearIsOtherTime(s, Rfc850Year(s.civil.year % 100));
  }

  /** Read with another year, or with its own if that is not 0, a stamp makes another time, or its own. */
  lemma {:induction false} OtherYearIsOtherTime(s: Stamp, year: int)
    requires IsStamp(s) && year > 0
    ensures DateCreate(FieldsOfStamp(s).(year := year)) == Some(TimeOf(s)) <==> year == s.civil.year
  {
    var f := FieldsOfStamp(s).(year := year);
    MonthNames(s.civil.month);
    DateCreateExact(f);
    StampTimeStamp(s);
    if NamesInstant(f) { StampTimeStamp(StampOfFields(f)); }
  }

  lemma {:induction false} SpacePaddedDay(date: int)
    requires 1 <= date <= 31
    ensures var text := if date < 10 then " " + Decimal(date) else Decimal(date);
      && |text| == 2 && (AllDigits(text) || (text[0] == ' ' && IsDigit(text[1])))
      && var day := if AllDigits(text) then text else text[1..];
         AllDigits(day) && Number(day) == date
  {
    DecimalFacts(date);
    DecimalFacts(date / 10);
    if date < 10 {
      var text := " " + Decimal(date);
      assert text[1..] == Decimal(date);
      assert !IsDigit(text[0]);
    }
  }

  lemma {:induction false} AsctimeFormatFields(time: int)
    requires 0 <= StampOf(time).civil.year <= 9999
    ensures IsStamp(StampOf(time)) && FieldsParse(AsctimeFormat(time)) == Some(FieldsOfStamp(StampOf(time)))
  {
    TimeStampTime(time);
    var s := StampOf(time);
    SpacePaddedDay(s.civil.date);
    FourDigits(s.civil.year);
    ClockFields(s);
    MonthNames(s.civil.month);
    var date := if s.civil.date < 10 then " " + Decimal(s.civil.date) else Decimal(s.civil.date);
    AsctimeRead(WEEKDAYS[WeekDay(time)], MONTHS[s.civil.month], date, Clock(s), YearFormat(s.civil.year));
  }

  /** The asctime form is read like the preferred one, on the same times. */
  lemma {:induction false} AsctimeAgrees(time: int)
    requires 0 <= StampOf(time).civil.year <= 9999
    ensures HttpDateParse(Some(AsctimeFormat(time))) == HttpDateParse(Some(HttpDateFormat(time)))
  {
    AsctimeFormatFields(time);
    FormatFields(time);
  }

  // -------------------------------------------------------------- normal forms

  lemma {:induction false} NumberBound(s: string)
    requires AllDigits(s) && |s| <= 4
    ensures Number(s) <= [0, 9, 99, 999, 9999][|s|]
  {
    if s != "" { NumberBound(s[..|s| - 1]); }
  }

  lemma {:induction false} ParsedFieldsRange(s: string)
    requires FieldsParse(s).Some?
    ensures 0 <= FieldsParse(s).value.year <= 9999
  {
    if IsImfFixdate(s) { NumberBound(s[12..16]); }
    else if Rfc850Tail(s).Some? { NumberBound(Rfc850Tail(s).value[7..9]); }
    else { NumberBound(s[20..]); }
  }

  /** Whatever is parsed, in any grammar and under any weekday, reprints to a fixed point. */
  lemma {:induction false} ParseThenFormat(s: string)
    requires HttpDateParse(Some(s)).Some?
    ensures var time := HttpDateParse(Some(s)).value;
            Expressible(time) && FloorToSecond(time) == time && HttpDateParse(Some(HttpDateFormat(time))) == Some(time)
  {
    var f := FieldsParse(s).value;
    ParsedFieldsRange(s);
    DateCreateExact(f);
    var time := TimeOf(StampOfFields(f));
    StampTimeStamp(StampOfFields(f));
    TimeStampTime(time);
    FormatThenParse(time);
  }

  // ----------------------------------------------------------- conditional GET

  datatype Decision = Decision(lastModified: string, status: int)

  function ConditionalGetEvaluate(lastModified: int, ifModifiedSince: Option<string>): Decision {
    var header := HttpDateFormat(lastModified);
    var lastModifiedDate := HttpDateParse(Some(header));
    var ifModifiedSinceDate := HttpDateParse(ifModifiedSince);
    if lastModifiedDate.None? || ifModifiedSinceDate.None? then Decision(header, 200)
    else if lastModifiedDate.value <= ifModifiedSinceDate.value then Decision(header, 304)
    else Decision(header, 200)
  }

  /** When a 304 is sent, in terms of the times alone. */
  lemma {:induction false} NotModifiedExactly(lastModified: int, ifModifiedSince: Option<string>)
    ensures ConditionalGetEvaluate(lastModified, ifModifiedSince).status == 304
       <==> Expressible(lastModified) && HttpDateParse(ifModifiedSince).Some?
            && FloorToSecond(lastModified) <= HttpDateParse(ifModifiedSince).value
  {
    FormatThenParse(lastModified);
  }

  /**
   * A client that echoes the `Last-Modified` of an earlier answer gets 304 exactly while the
   * resource has not moved to a later second and both times are ones a date can carry.
   */
  lemma {:induction false} EchoedValidator(seen: int, current: int)
    ensures ConditionalGetEvaluate(current, Some(ConditionalGetEvaluate(seen, None).lastModified)).status
         == if Expressible(seen) && Expressible(current) && FloorToSecond(current) <= FloorToSecond(seen) then 304 else 200
  {
    FormatThenParse(seen);
    FormatThenParse(current);
  }

  /** The answer carries the printed modification time whatever its status is, and there are two statuses. */
  lemma {:induction false} ConditionalGetHeader(lastModified: int, ifModifiedSince: Option<string>)
    ensures ConditionalGetEvaluate(lastModified, ifModifiedSince).lastModified == HttpDateFormat(lastModified)
    ensures ConditionalGetEvaluate(lastModified, ifModifiedSince).status in {200, 304}
  {
  }

  // ----------------------------------------------------------- the grammars, exactly

  /** The names as RFC 9110 section 5.6.7 lists them. */
  const WEEKDAY_NAMES := ["Sun", "Mon", "Tue", "Wed", "Thu", "Fri", "Sat"]
  const WEEKDAY_LONG_NAMES := ["Sunday", "Monday", "Tuesday", "Wednesday", "Thursday", "Friday", "Saturday"]
  const MONTH_NAMES := ["Jan", "Feb", "Mar", "Apr", "May", "Jun", "Jul", "Aug", "Sep", "Oct", "Nov", "Dec"]

  predicate IsDigits(s: string, size: nat) {
    |s| == size && AllDigits(s)
  }

  /** The pieces of a date in one of the three grammars. */
  datatype Pieces = Pieces(weekday: string, date: string, month: string, year: string, hour: string, minute: string, second: string)

  predicate ArePieces(p: Pieces) {
    p.month in MONTH_NAMES && IsDigits(p.hour, 2) && IsDigits(p.minute, 2) && IsDigits(p.second, 2)
  }

  function ClockText(p: Pieces): string {
    p.hour + ":" + p.minute + ":" + p.second
  }

  predicate ReadsAsPreferred(s: string, p: Pieces) {
    ArePieces(p) && p.weekday in WEEKDAY_NAMES && IsDigits(p.date, 2) && IsDigits(p.year, 4)
    && s == p.weekday + ", " + p.date + " " + p.month + " " + p.year + " " + ClockText(p) + " GMT"
  }

  predicate ReadsAsRfc850(s: string, p: Pieces) {
    ArePieces(p) && p.weekday in WEEKDAY_LONG_NAMES && IsDigits(p.date, 2) && IsDigits(p.year, 2)
    && s == p.weekday + ", " + (p.date + "-" + p.month + "-" + p.year + " " + ClockText(p) + " GMT")
  }

  predicate ReadsAsAsctime(s: string, p: Pieces) {
    ArePieces(p) && p.weekday in WEEKDAY_NAMES && IsDigits(p.year, 4)
    && (IsDigits(p.date, 2) || (|p.date| == 2 && p.date[0] == ' ' && IsDigit(p.date[1])))
    && s == p.weekday + " " + p.month + " " + p.date + " " + ClockText(p) + " " + p.year
  }

  lemma {:induction false} ClockOfPieces(p: Pieces)
    requires ArePieces(p)
    ensures IsClock(ClockText(p)) && |p.month| == 3
  {
    var c := ClockText(p);
    assert c[..2] == p.hour && c[3..5] == p.minute && c[6..] == p.second;
  }

  lemma {:induction false} PiecesOfClock(c: string)
    requires IsClock(c)
    ensures c == c[..2] + ":" + c[3..5] + ":" + c[6..]
  {
  }

  lemma {:induction false} PreferredPieces(s: string) returns (p: Pieces)
    requires IsImfFixdate(s)
    ensures ReadsAsPreferred(s, p)
  {
    var c := s[17..25];
    PiecesOfClock(c);
    p := Pieces(s[..3], s[5..7], s[8..11], s[12..16], c[..2], c[3..5], c[6..]);
    assert s == s[..3] + s[3..5] + s[5..7] + [s[7]] + s[8..11] + [s[11]] + s[12..16] + [s[16]] + c + s[25..];
  }

  lemma {:induction false} Rfc850Pieces(s: string) returns (p: Pieces)
    requires Rfc850Tail(s).Some?
    ensures ReadsAsRfc850(s, p)
  {
    var n := |s| - 22;
    var head, t := s[..n], s[n..];
    var c := t[10..18];
    PiecesOfClock(c);
    p := Pieces(head[..|head| - 2], t[..2], t[3..6], t[7..9], c[..2], c[3..5], c[6..]);
    assert t == t[..2] + [t[2]] + t[3..6] + [t[6]] + t[7..9] + [t[9]] + c + t[18..];
    assert head == head[..|head| - 2] + head[|head| - 2..] && s == head + t;
  }

  lemma {:induction false} AsctimePieces(s: string) returns (p: Pieces)
    requires IsAsctime(s)
    ensures ReadsAsAsctime(s, p)
  {
    var c := s[11..19];
    PiecesOfClock(c);
    p := Pieces(s[..3], s[8..10], s[4..7], s[20..], c[..2], c[3..5], c[6..]);
    assert s == s[..3] + [s[3]] + s[4..7] + [s[7]] + s[8..10] + [s[10]] + c + [s[19]] + s[20..];
  }

  /** A text is read if and only if its pieces make it up in one of the three grammars. */
  lemma {:induction false} GrammarsExactly(s: string)
    ensures FieldsParse(s).Some? <==> exists p :: ReadsAsPreferred(s, p) || ReadsAsRfc850(s, p) || ReadsAsAsctime(s, p)
  {
    if IsImfFixdate(s) {
      var p := PreferredPieces(s);
    } else if Rfc850Tail(s).Some? {
      var p := Rfc850Pieces(s);
    } else if IsAsctime(s) {
      var p := AsctimePieces(s);
    }
    if p :| ReadsAsPreferred(s, p) || ReadsAsRfc850(s, p) || ReadsAsAsctime(s, p) {
      ClockOfPieces(p);
      if ReadsAsPreferred(s, p) {
        ImfFixdateRead(p.weekday, p.date, p.month, p.year, ClockText(p));
      } else if ReadsAsRfc850(s, p) {
        Rfc850Read(p.weekday, p.date, p.month, p.year, ClockText(p));
      } else {
        AsctimeRead(p.weekday, p.month, p.date, ClockText(p), p.year);
      }
    }
  }

  // --------------------------------------------------------- pinned to the epoch

  /** The epoch is time 0, and the clock counts milliseconds from midnight. */
  lemma {:induction false} EpochIsTimeZero(hour: int, minute: int, second: int)
    ensures TimeOf(Stamp(Civil(1970, 0, 1), 0, 0, 0)) == 0
    ensures TimeOf(Stamp(Civil(1970, 0, 1), hour, minute, second)) == ((hour * 60 + minute) * 60 + second) * 1000
  {
  }

  /** The weekday of a time: the epoch is a Thursday, and the weekdays follow one another. */
  function WeekdayOf(time: int): (weekday: string)
    ensures |weekday| == 3
  {
    ["Thu", "Fri", "Sat", "Sun", "Mon", "Tue", "Wed"][time / 86_400_000 % 7]
  }

  lemma {:induction false} WeekdayPrinted(time: int)
    ensures WEEKDAYS[WeekDay(FloorToSecond(time))] == WeekdayOf(time)
  {
    FlooredDay(time);
    WeekdayName(time / 86_400_000);
  }

  /** Whatever the year, the printed date begins with that weekday. */
  lemma {:induction false} PrintedWeekday(time: int)
    ensures WeekdayOf(time) <= HttpDateFormat(time)
  {
    WeekdayPrinted(time);
    PrintedFrom(time);
  }

  lemma {:induction false} WeekdayName(day: int)
    ensures |WEEKDAYS[(day + 4) % 7]| == 3
    ensures WEEKDAYS[(day + 4) % 7] == ["Thu", "Fri", "Sat", "Sun", "Mon", "Tue", "Wed"][day % 7]
  {
    assert (day + 4) % 7 == (day % 7 + 4) % 7;
  }

  lemma {:induction false} PrintedFrom(time: int)
    requires |WEEKDAYS[WeekDay(FloorToSecond(time))]| == 3
    ensures |HttpDateFormat(time)| >= 3 && HttpDateFormat(time)[..3] == WEEKDAYS[WeekDay(FloorToSecond(time))]
  {
    var date := FloorToSecond(time);
    var s := StampOf(date);
    StampOfTime(date);
    PrintedPrefix(WEEKDAYS[WeekDay(date)], NumberFormat(s.civil.date), MONTHS[s.civil.month], YearFormat(s.civil.year), Clock(s));
  }

  lemma {:induction false} FlooredDay(time: int)
    ensures FloorToSecond(time) / MS_PER_DAY == time / MS_PER_DAY
  {
    JoinTime(time);
    SplitTime(time / MS_PER_DAY, time % MS_PER_DAY / MS_PER_SECOND);
  }

  lemma {:induction false} PrintedPrefix(weekday: string, date: string, month: string, year: string, clock: string)
    requires |weekday| == 3
    ensures |ImfFixdate(weekday, date, month, year, clock)| >= 3 && ImfFixdate(weekday, date, month, year, clock)[..3] == weekday
  {
  }

  function Digit(n: int): (c: char)
    requires 0 <= n <= 9
    ensures IsDigit(c) && c as int == '0' as int + n
  {
    ('0' as int + n) as char
  }

  /** The digits of a number, read from the right. */
  lemma {:induction false} DecimalSnoc(n: nat)
    ensures n < 10 ==> Decimal(n) == [Digit(n)]
    ensures n >= 10 ==> Decimal(n) == Decimal(n / 10) + [Digit(n % 10)]
  {
  }

  function Two(n: int): string
    requires 0 <= n <= 99
  {
    [Digit(n / 10), Digit(n % 10)]
  }

  function Four(n: int): string
    requires 0 <= n <= 9999
  {
    Two(n / 100) + Two(n % 100)
  }

  lemma {:induction false} TwoDigitsText(n: int)
    requires 0 <= n <= 99
    ensures NumberFormat(n) == Two(n)
  {
    DecimalSnoc(n);
    DecimalSnoc(n / 10);
    if n < 10 { assert PadStart("0" + Decimal(n), 2) == "0" + Decimal(n); }
  }

  lemma {:induction false} PaddedToFour(s: string)
    requires 1 <= |s| <= 4
    ensures PadStart(s, 4) == (if |s| == 1 then "000" else if |s| == 2 then "00" else if |s| == 3 then "0" else "") + s
  {
    if |s| == 3 { assert PadStart(s, 4) == PadStart("0" + s, 4); }
    if |s| == 2 { assert PadStart(s, 4) == PadStart("0" + s, 4) == PadStart("0" + ("0" + s), 4); }
    if |s| == 1 { assert PadStart(s, 4) == PadStart("0" + s, 4) == PadStart("0" + ("0" + s), 4) == PadStart("0" + ("0" + ("0" + s)), 4); }
  }

  lemma {:induction false} TensAndUnits(n: int, tens: int, units: int)
    requires n == 10 * tens + units && 0 <= units <= 9
    ensures n / 10 == tens && n % 10 == units
  {
  }

  lemma {:induction false} ThousandsOf(n: int, h: int)
    requires h == n / 100 && 0 <= n
    ensures n / 1000 == h / 10
  {
    var t, rest := h / 10, h % 10;
    assert n == 1000 * t + 100 * rest + n % 100;
  }

  lemma {:induction false} FourPieces(n: int)
    requires 0 <= n <= 9999
    ensures Four(n) == [Digit(n / 1000), Digit(n / 100 % 10), Digit(n / 10 % 10), Digit(n % 10)]
  {
    var h, l := n / 100, n % 100;
    var t, u := l / 10, l % 10;
    assert n == 100 * h + 10 * t + u && 0 <= u <= 9 && 0 <= t <= 9;
    TensAndUnits(n, 10 * h + t, u);
    TensAndUnits(10 * h + t, h, t);
    TensAndUnits(h, h / 10, h % 10);
    assert n / 1000 == h / 10 by { TensAndUnits(n / 10, h, t); ThousandsOf(n, h); }
  }

  /** Up to four digits, without the zeros in front. */
  lemma {:induction false} DecimalPieces(n: int)
    requires 0 <= n <= 9999
    ensures 1000 <= n ==> Decimal(n) == [Digit(n / 1000), Digit(n / 100 % 10), Digit(n / 10 % 10), Digit(n % 10)]
    ensures 100 <= n < 1000 ==> Decimal(n) == [Digit(n / 100), Digit(n / 10 % 10), Digit(n % 10)]
    ensures 10 <= n < 100 ==> Decimal(n) == [Digit(n / 10), Digit(n % 10)]
    ensures n < 10 ==> Decimal(n) == [Digit(n)]
  {
    DecimalSnoc(n);
    if n >= 10 { DecimalPieces(n / 10); }
    assert n / 10 / 100 == n / 1000 && n / 10 / 10 == n / 100;
  }

  lemma {:induction false} FourDigitsText(n: int)
    requires 0 <= n <= 9999
    ensures YearFormat(n) == Four(n)
  {
    DecimalPieces(n);
    FourPieces(n);
    PaddedToFour(Decimal(n));
  }

  lemma {:induction false} ImfText(weekday: string, date: string, month: string, year: string, hour: string, minute: string, second: string)
    ensures ImfFixdate(weekday, date, month, year, hour + ":" + minute + ":" + second)
         == weekday + ", " + date + " " + month + " " + year + " " + hour + ":" + minute + ":" + second + " GMT"
  {
  }

  lemma {:induction false} FormatUnfolds(time: int, date: int, s: Stamp, weekday: string)
    requires date == FloorToSecond(time) && s == StampOf(date) && 0 <= s.civil.month <= 11 && weekday == WEEKDAYS[WeekDay(date)]
    ensures HttpDateFormat(time)
         == ImfFixdate(weekday, NumberFormat(s.civil.date), MONTHS[s.civil.month], YearFormat(s.civil.year), Clock(s))
  {
  }

  lemma {:induction false} NumbersText(s: Stamp)
    requires IsStamp(s) && 0 <= s.civil.year <= 9999
    ensures NumberFormat(s.civil.date) == Two(s.civil.date) && YearFormat(s.civil.year) == Four(s.civil.year)
    ensures Clock(s) == Two(s.hour) + ":" + Two(s.minute) + ":" + Two(s.second)
  {
    TwoDigitsText(s.civil.date);
    TwoDigitsText(s.hour);
    TwoDigitsText(s.minute);
    TwoDigitsText(s.second);
    FourDigitsText(s.civil.year);
  }

  function DateText(weekday: string, s: Stamp): string
    requires IsStamp(s) && 0 <= s.civil.year <= 9999
  {
    weekday + ", " + Two(s.civil.date) + " " + MONTH_NAMES[s.civil.month] + " " + Four(s.civil.year)
    + " " + Two(s.hour) + ":" + Two(s.minute) + ":" + Two(s.second) + " GMT"
  }

  lemma {:induction false} StampText(weekday: string, s: Stamp)
    requires IsStamp(s) && 0 <= s.civil.year <= 9999
    ensures ImfFixdate(weekday, NumberFormat(s.civil.date), MONTHS[s.civil.month], YearFormat(s.civil.year), Clock(s))
         == DateText(weekday, s)
  {
    NumbersText(s);
    ImfText(weekday, Two(s.civil.date), MONTHS[s.civil.month], Four(s.civil.year), Two(s.hour), Two(s.minute), Two(s.second));
  }

  /** The printed text of every time in years 0 to 9999, character for character. */
  lemma {:induction false} PrintedExactly(time: int)
    requires 0 <= StampOf(time).civil.year <= 9999
    ensures IsStamp(StampOf(time)) && HttpDateFormat(time) == DateText(WeekdayOf(time), StampOf(time))
  {
    TimeStampTime(time);
    WeekdayPrinted(time);
    FormatUnfolds(time, FloorToSecond(time), StampOf(time), WeekdayOf(time));
    StampText(WeekdayOf(time), StampOf(time));
  }
}
