/** Instants as text, `YYYY-MM-DDTHH:MM:SSZ`, and the seconds they stand for. */
module Instants {
  import opened Options
  import opened Order
  import opened Decimals
  import opened Calendar

  datatype Moment = Moment(date: Date, hour: int, minute: int, second: int)

  const DAY := 86_400

  // ---- writing -----------------------------------------------------------------------------

  function Stamp(year: string, month: string, day: string, hour: string, minute: string, second: string): string {
    year + ("-" + (month + ("-" + (day + ("T" + (hour + (":" + (minute + (":" + (second + "Z"))))))))))
  }

  function Written(moment: Moment): string
    requires moment.date.year >= 0 && moment.date.month >= 0 && moment.date.day >= 0
    requires moment.hour >= 0 && moment.minute >= 0 && moment.second >= 0
  {
    Stamp(Padded(moment.date.year, 4), Padded(moment.date.month, 2), Padded(moment.date.day, 2),
          Padded(moment.hour, 2), Padded(moment.minute, 2), Padded(moment.second, 2))
  }

  function MomentOf(seconds: nat): Moment {
    var rem := seconds % DAY;
    Moment(CivilFromDays(seconds / DAY), rem / 3600, rem % 3600 / 60, rem % 60)
  }

  function FormatUnix(seconds: nat): string {
    MomentIsReal(seconds);
    Written(MomentOf(seconds))
  }

  // ---- reading -----------------------------------------------------------------------------

  /** A signed decimal number: a sign is optional, a digit is not. */
  function ReadNumber(text: string): Option<int> {
    var signed := text != "" && (text[0] == '+' || text[0] == '-');
    var digits := if signed then text[1..] else text;
    if digits == "" || !Digits(digits) then None
    else Some(if signed && text[0] == '-' then -DigitsValue(digits) else DigitsValue(digits))
  }

  /** A number is read exactly from one digit or more, with a plus, a minus or no sign before them. */
  lemma ReadNumberExactly(text: string, n: int)
    ensures ReadNumber(text) == Some(n) <==>
              exists digits :: digits != "" && Digits(digits) &&
                (((text == digits || text == "+" + digits) && n == DigitsValue(digits))
                 || (text == "-" + digits && n == -DigitsValue(digits)))
  {
    if ReadNumber(text) == Some(n) {
      var digits := if text[0] == '+' || text[0] == '-' then text[1..] else text;
      assert text == digits || text == [text[0]] + digits;
    }
    if digits :| digits != "" && Digits(digits) &&
                 (((text == digits || text == "+" + digits) && n == DigitsValue(digits))
                  || (text == "-" + digits && n == -DigitsValue(digits))) {
      assert IsDigit(digits[0]);
      if text != digits {
        assert text[1..] == digits;
      }
    }
  }

  /** The six numbers of an instant, by position. */
  function Fields(t: string): Option<Moment>
    requires |t| >= 20
  {
    var year, month, day := ReadNumber(t[0..4]), ReadNumber(t[5..7]), ReadNumber(t[8..10]);
    var hour, minute, second := ReadNumber(t[11..13]), ReadNumber(t[14..16]), ReadNumber(t[17..19]);
    if year.None? || month.None? || day.None? || hour.None? || minute.None? || second.None? then None
    else Some(Moment(Date(year.value, month.value, day.value), hour.value, minute.value, second.value))
  }

  predicate Punctuated(t: string)
    requires |t| >= 20
  {
    t[4] == '-' && t[7] == '-' && t[10] == 'T' && t[13] == ':' && t[16] == ':'
  }

  /** The checks both readers make: a day of the month may be 31 in any month, and no
      field is asked to be non-negative but the month and the day. */
  predicate InRange(moment: Moment, lastSecond: int) {
    && 1 <= moment.date.month <= 12 && 1 <= moment.date.day <= 31
    && moment.hour <= 23 && moment.minute <= 59 && moment.second <= lastSecond
  }

  function SecondsOf(moment: Moment): int {
    DaysFromCivil(moment.date) * DAY + moment.hour * 3600 + moment.minute * 60 + moment.second
  }

  /** The clock's reader. */
  function UnixOf(t: string): Option<nat> {
    if |t| != 20 || t[19] != 'Z' || !Punctuated(t) then None
    else
      var read := Fields(t);
      if read.None? || !InRange(read.value, 59) then None
      else
        var seconds := SecondsOf(read.value);
        if seconds < 0 then None else Some(seconds)
  }

  /** The ledger's reader: the last character is Z, wherever it stands, and a leap second
      is let through. */
  function EpochSeconds(t: string): Option<int> {
    if |t| < 20 || !Punctuated(t) || t[|t| - 1] != 'Z' then None
    else
      var read := Fields(t);
      if read.None? || !InRange(read.value, 60) then None
      else Some(SecondsOf(read.value))
  }

  /** What the two readers take, and what they make of it: 20 characters or, for the ledger, more;
      a month of 1 to 12, a day of 1 to 31, an hour below 24, a minute below 60 and a second
      below 60 or, for the ledger, 61. */
  lemma ReadersExactly(t: string, total: int)
    ensures (exists n: nat :: n == total && UnixOf(t) == Some(n)) <==> |t| == 20 && total >= 0 && Reads(t, 60, total)
    ensures EpochSeconds(t) == Some(total) <==> |t| >= 20 && Reads(t, 61, total)
  {
    if |t| >= 20 {
      FieldsRead(t, 60, total);
      FieldsRead(t, 61, total);
    }
  }

  lemma FieldsRead(t: string, seconds: int, total: int)
    requires |t| >= 20
    ensures Reads(t, seconds, total) <==>
              && Punctuated(t) && t[|t| - 1] == 'Z'
              && Fields(t).Some? && InRange(Fields(t).value, seconds - 1) && total == SecondsOf(Fields(t).value)
  {
    FieldsAreNumbers(t);
  }

  lemma FieldsAreNumbers(t: string)
    requires |t| >= 20
    ensures forall moment :: Fields(t) == Some(moment) <==> NumbersAt(t, moment)
  {
    forall moment ensures Fields(t) == Some(moment) <==> NumbersAt(t, moment) {
      if NumbersAt(t, moment) {
        assert Fields(t).value == Moment(Date(moment.date.year, moment.date.month, moment.date.day),
                                         moment.hour, moment.minute, moment.second);
      }
    }
  }

  ghost predicate Reads(t: string, seconds: int, total: int)
    requires |t| >= 20
  {
    && t[4] == t[7] == '-' && t[10] == 'T' && t[13] == t[16] == ':' && t[|t| - 1] == 'Z'
    && exists moment ::
         && NumbersAt(t, moment)
         && 0 < moment.date.month < 13 && 0 < moment.date.day < 32
         && moment.hour < 24 && moment.minute < 60 && moment.second < seconds
         && total == ((DaysFromCivil(moment.date) * 24 + moment.hour) * 60 + moment.minute) * 60 + moment.second
  }

  predicate NumbersAt(t: string, moment: Moment)
    requires |t| >= 20
  {
    && ReadNumber(t[0..4]) == Some(moment.date.year)
    && ReadNumber(t[5..7]) == Some(moment.date.month)
    && ReadNumber(t[8..10]) == Some(moment.date.day)
    && ReadNumber(t[11..13]) == Some(moment.hour)
    && ReadNumber(t[14..16]) == Some(moment.minute)
    && ReadNumber(t[17..19]) == Some(moment.second)
  }

  predicate IsInstant(t: string) {
    && |t| == 20 && Punctuated(t) && t[19] == 'Z'
    && Digits(t[0..4]) && Digits(t[5..7]) && Digits(t[8..10])
    && Digits(t[11..13]) && Digits(t[14..16]) && Digits(t[17..19])
  }

  // ---- the parts of an instant ----------------------------------------------------------------

  lemma StampParts(year: string, month: string, day: string, hour: string, minute: string, second: string)
    requires |month| == |day| == |hour| == |minute| == |second| == 2
    ensures var t := Stamp(year, month, day, hour, minute, second);
            && |t| == |year| + 16
            && (|year| == 4 ==>
                && Punctuated(t) && t[19] == 'Z'
                && t[0..4] == year && t[5..7] == month && t[8..10] == day
                && t[11..13] == hour && t[14..16] == minute && t[17..19] == second)
  {
    var t := Stamp(year, month, day, hour, minute, second);
    var fromSecond := second + "Z";
    var fromMinute := minute + (":" + fromSecond);
    var fromHour := hour + (":" + fromMinute);
    var fromDay := day + ("T" + fromHour);
    var fromMonth := month + ("-" + fromDay);
    Part(t, 0, year, "-", fromMonth);
    if |year| == 4 {
      Part(t, 5, month, "-", fromDay);
      Part(t, 8, day, "T", fromHour);
      Part(t, 11, hour, ":", fromMinute);
      Part(t, 14, minute, ":", fromSecond);
      Part(t, 17, second, "Z", "");
    }
  }

  /** A field at a place, its mark, and the rest. */
  lemma Part(t: string, at: nat, field: string, mark: string, rest: string)
    requires at <= |t| && |mark| == 1 && t[at..] == field + (mark + rest)
    ensures |t| == at + |field| + 1 + |rest|
    ensures t[at..at + |field|] == field && t[at + |field|] == mark[0] && t[at + |field| + 1..] == rest
  {
    var more := field + (mark + rest);
    assert |more| == |field| + 1 + |rest|;
    assert more[..|field|] == field && more[|field|] == mark[0] && more[|field| + 1..] == rest;
    assert t[at..at + |field|] == more[..|field|];
    assert t[at + |field|] == t[at..][|field|];
    assert t[at + |field| + 1..] == more[|field| + 1..];
  }

  lemma StampRebuilds(t: string)
    requires |t| == 20 && Punctuated(t) && t[19] == 'Z'
    ensures t == Stamp(t[0..4], t[5..7], t[8..10], t[11..13], t[14..16], t[17..19])
  {
  }

  lemma NumberRead(n: nat, width: nat)
    requires width >= 1
    ensures ReadNumber(Padded(n, width)) == Some(n)
  {
    PaddedIsDigits(n, width);
    assert Padded(n, width)[0] in Padded(n, width);
  }

  /** A moment by the calendar counted a day at a time. */
  predicate IsMomentOf(seconds: nat, moment: Moment) {
    var rem := seconds % DAY;
    && moment.date == DayAfterEpoch(seconds / DAY)
    && moment.hour == rem / 3600 && moment.minute == rem % 3600 / 60 && moment.second == rem % 60
  }

  lemma MomentIsReal(seconds: nat)
    ensures var moment := MomentOf(seconds);
            && IsDate(moment.date) && IsMomentOf(seconds, moment) && moment.date.year >= 1970
            && 0 <= moment.hour <= 23 && 0 <= moment.minute <= 59 && 0 <= moment.second <= 59
  {
    CivilIsTheCalendar(seconds / DAY);
    YearsOfFourDigits(seconds / DAY);
  }

  lemma SecondsSplit(seconds: nat, moment: Moment)
    requires IsMomentOf(seconds, moment)
    ensures SecondsOf(moment) == seconds
  {
    DaysCounted(seconds / DAY);
    TimeSplit(seconds % DAY);
  }

  lemma TimeSplit(rem: int)
    requires 0 <= rem < DAY
    ensures rem / 3600 * 3600 + rem % 3600 / 60 * 60 + rem % 60 == rem
  {
    assert rem % 60 == rem % 3600 % 60;
  }

  // ---- writing and reading back -----------------------------------------------------------------

  lemma FieldsOfWritten(moment: Moment)
    requires 0 <= moment.date.year && 1 <= moment.date.month <= 12 && 1 <= moment.date.day <= 31
    requires 0 <= moment.hour <= 23 && 0 <= moment.minute <= 59 && 0 <= moment.second <= 59
    ensures var t := Written(moment);
            if moment.date.year < 10_000 then IsInstant(t) && Fields(t) == Some(moment) else |t| > 20 && t[4] != '-'
  {
    var date := moment.date;
    FourDigits(date.year);
    TwoDigits(date.month);
    TwoDigits(date.day);
    TwoDigits(moment.hour);
    TwoDigits(moment.minute);
    TwoDigits(moment.second);
    StampParts(Padded(date.year, 4), Padded(date.month, 2), Padded(date.day, 2),
               Padded(moment.hour, 2), Padded(moment.minute, 2), Padded(moment.second, 2));
    if date.year >= 10_000 {
      var t, year := Written(moment), Padded(date.year, 4);
      assert t[4] == year[4] && year[4] in year;
    }
  }

  lemma TwoDigits(n: nat)
    requires n < 100
    ensures |Padded(n, 2)| == 2 && Digits(Padded(n, 2)) && ReadNumber(Padded(n, 2)) == Some(n)
  {
    assert Power(2) == 10 * Power(1) && Power(1) == 10 * Power(0);
    PaddedIsDigits(n, 2);
    NumberRead(n, 2);
  }

  lemma FourDigits(n: nat)
    ensures |Padded(n, 4)| >= 4 && Digits(Padded(n, 4)) && ReadNumber(Padded(n, 4)) == Some(n)
    ensures |Padded(n, 4)| == 4 <==> n < 10_000
  {
    assert Power(4) == 10 * Power(3) && Power(3) == 10 * Power(2);
    assert Power(2) == 10 * Power(1) && Power(1) == 10 * Power(0);
    PaddedIsDigits(n, 4);
    NumberRead(n, 4);
  }

  lemma WrittenReads(moment: Moment, seconds: nat)
    requires 0 <= moment.date.year && 1 <= moment.date.month <= 12 && 1 <= moment.date.day <= 31
    requires 0 <= moment.hour <= 23 && 0 <= moment.minute <= 59 && 0 <= moment.second <= 59
    requires SecondsOf(moment) == seconds
    ensures var t := Written(moment);
            if moment.date.year < 10_000
            then IsInstant(t) && UnixOf(t) == Some(seconds) && EpochSeconds(t) == Some(seconds)
            else UnixOf(t) == None && EpochSeconds(t) == None
  {
    FieldsOfWritten(moment);
  }

  /** Reading undoes writing exactly up to the end of the year 9999, in both readers. */
  lemma UnixUndoesFormat(seconds: nat)
    ensures var t := FormatUnix(seconds);
            if seconds < DAYS_TO_10000 * DAY
            then IsInstant(t) && UnixOf(t) == Some(seconds) && EpochSeconds(t) == Some(seconds)
            else UnixOf(t) == None && EpochSeconds(t) == None
  {
    var moment := MomentOf(seconds);
    MomentIsReal(seconds);
    SecondsSplit(seconds, moment);
    YearsOfFourDigits(seconds / DAY);
    WrittenReads(moment, seconds);
  }

  // ---- reading and writing back -----------------------------------------------------------------

  /** A text the reader takes is the text of its second exactly when it is digits in the
      digit places and names a day its month has. */
  lemma OnlyRealDaysComeBack(t: string)
    requires UnixOf(t).Some?
    ensures FormatUnix(UnixOf(t).value) == t <==> IsInstant(t) && IsDate(Fields(t).value.date)
  {
    var seconds, moment := UnixOf(t).value, Fields(t).value;
    if IsInstant(t) && IsDate(moment.date) {
      NumeralsOf(t);
      MomentBack(moment, seconds);
      StampRebuilds(t);
    } else if FormatUnix(seconds) == t {
      UnixUndoesFormat(seconds);
      MomentIsReal(seconds);
      YearsOfFourDigits(seconds / DAY);
      FieldsOfWritten(MomentOf(seconds));
      assert false;
    }
  }

  lemma MomentBack(moment: Moment, seconds: nat)
    requires IsDate(moment.date) && SecondsOf(moment) == seconds
    requires 0 <= moment.hour <= 23 && 0 <= moment.minute <= 59 && 0 <= moment.second <= 59
    ensures MomentOf(seconds) == moment
  {
    var days := DaysFromCivil(moment.date);
    var rem := moment.hour * 3600 + moment.minute * 60 + moment.second;
    assert seconds == days * DAY + rem && seconds / DAY == days && seconds % DAY == rem;
    CivilUndoesDays(moment.date, days);
    TimeBack(moment.hour, moment.minute, moment.second);
  }

  lemma TimeBack(hour: int, minute: int, second: int)
    requires 0 <= hour <= 23 && 0 <= minute <= 59 && 0 <= second <= 59
    ensures var rem := hour * 3600 + minute * 60 + second;
            rem / 3600 == hour && rem % 3600 / 60 == minute && rem % 60 == second
  {
    var rem := hour * 3600 + minute * 60 + second;
    assert rem == hour * 3600 + (minute * 60 + second) && rem == (hour * 60 + minute) * 60 + second;
  }

  /** The digits of an instant are its numbers, filled with zeros. */
  lemma NumeralsOf(t: string)
    requires IsInstant(t)
    ensures var read := Fields(t);
            && read.Some?
            && read.value.date.year >= 0 && read.value.date.month >= 0 && read.value.date.day >= 0
            && read.value.hour >= 0 && read.value.minute >= 0 && read.value.second >= 0
            && t[0..4] == Padded(read.value.date.year, 4) && t[5..7] == Padded(read.value.date.month, 2)
            && t[8..10] == Padded(read.value.date.day, 2) && t[11..13] == Padded(read.value.hour, 2)
            && t[14..16] == Padded(read.value.minute, 2) && t[17..19] == Padded(read.value.second, 2)
  {
    NumeralOf(t[0..4]);
    NumeralOf(t[5..7]);
    NumeralOf(t[8..10]);
    NumeralOf(t[11..13]);
    NumeralOf(t[14..16]);
    NumeralOf(t[17..19]);
  }

  lemma NumeralOf(digits: string)
    requires digits != "" && Digits(digits)
    ensures var read := ReadNumber(digits);
            read.Some? && read.value >= 0 && Padded(read.value, |digits|) == digits
  {
    assert digits[0] in digits;
    OneNumeral(digits, |digits|);
  }

  // ---- the order of texts is the order of time ----------------------------------------------------

  /** Up to the end of the year 9999, texts are in dictionary order exactly when their
      seconds are in order. */
  lemma OrderIsTime(a: nat, b: nat)
    requires a < DAYS_TO_10000 * DAY && b < DAYS_TO_10000 * DAY
    ensures Precedes(FormatUnix(a), FormatUnix(b)) <==> a < b
  {
    if a < b {
      EarlierPrecedes(a, b);
    } else if b < a {
      EarlierPrecedes(b, a);
    }
    InOrderOf(FormatUnix(a), FormatUnix(b), a, b);
  }

  lemma InOrderOf(s: string, t: string, a: nat, b: nat)
    requires a < b ==> Precedes(s, t)
    requires b < a ==> Precedes(t, s)
    requires a == b ==> s == t
    ensures Precedes(s, t) <==> a < b
  {
    PrecedesIsStrict(s, t);
  }

  predicate Sooner(m: Moment, n: Moment) {
    || Earlier(m.date, n.date)
    || (m.date == n.date && (m.hour < n.hour || (m.hour == n.hour
        && (m.minute < n.minute || (m.minute == n.minute && m.second < n.second)))))
  }

  lemma EarlierPrecedes(a: nat, b: nat)
    requires a < b < DAYS_TO_10000 * DAY
    ensures Precedes(FormatUnix(a), FormatUnix(b))
  {
    MomentIsReal(a);
    MomentIsReal(b);
    YearsOfFourDigits(a / DAY);
    YearsOfFourDigits(b / DAY);
    SoonerInTime(a, b, MomentOf(a), MomentOf(b));
    MomentsPrecede(MomentOf(a), MomentOf(b));
  }

  lemma SoonerInTime(a: nat, b: nat, m: Moment, n: Moment)
    requires a < b && IsMomentOf(a, m) && IsMomentOf(b, n)
    ensures Sooner(m, n)
  {
    if a / DAY < b / DAY {
      LaterDay(a / DAY, b / DAY);
    } else {
      assert a / DAY == b / DAY && a % DAY < b % DAY;
      TimeInOrder(a % DAY, b % DAY);
    }
  }

  lemma TimeInOrder(a: int, b: int)
    requires 0 <= a < b < DAY
    ensures a / 3600 <= b / 3600
    ensures a / 3600 == b / 3600 ==> a % 3600 / 60 <= b % 3600 / 60
    ensures a / 3600 == b / 3600 && a % 3600 / 60 == b % 3600 / 60 ==> a % 60 < b % 60
  {
    TimeSplit(a);
    TimeSplit(b);
  }

  lemma MomentsPrecede(m: Moment, n: Moment)
    requires IsDate(m.date) && IsDate(n.date) && 0 <= m.date.year < 10_000 && 0 <= n.date.year < 10_000
    requires 0 <= m.hour <= 23 && 0 <= m.minute <= 59 && 0 <= m.second <= 59
    requires 0 <= n.hour <= 23 && 0 <= n.minute <= 59 && 0 <= n.second <= 59
    requires Sooner(m, n)
    ensures Precedes(Written(m), Written(n))
  {
    Field(m.date.year, n.date.year, 4, "-", FromMonth(m), FromMonth(n));
    if m.date.year == n.date.year {
      Field(m.date.month, n.date.month, 2, "-", FromDay(m), FromDay(n));
      if m.date.month == n.date.month {
        Field(m.date.day, n.date.day, 2, "T", FromHour(m), FromHour(n));
        if m.date.day == n.date.day {
          TimesPrecede(m, n);
        }
      }
    }
  }

  lemma TimesPrecede(m: Moment, n: Moment)
    requires 0 <= m.hour <= 23 && 0 <= m.minute <= 59 && 0 <= m.second <= 59
    requires 0 <= n.hour <= 23 && 0 <= n.minute <= 59 && 0 <= n.second <= 59
    requires m.hour < n.hour || (m.hour == n.hour && (m.minute < n.minute || (m.minute == n.minute && m.second < n.second)))
    ensures Precedes(FromHour(m), FromHour(n))
  {
    Field(m.hour, n.hour, 2, ":", FromMinute(m), FromMinute(n));
    if m.hour == n.hour {
      Field(m.minute, n.minute, 2, ":", FromSecond(m), FromSecond(n));
      if m.minute == n.minute {
        Field(m.second, n.second, 2, "Z", "", "");
        assert FromSecond(m) == Padded(m.second, 2) + ("Z" + "");
        assert FromSecond(n) == Padded(n.second, 2) + ("Z" + "");
      }
    }
  }

  function FromSecond(m: Moment): string
    requires m.second >= 0
  {
    Padded(m.second, 2) + "Z"
  }

  function FromMinute(m: Moment): string
    requires m.second >= 0 && m.minute >= 0
  {
    Padded(m.minute, 2) + (":" + FromSecond(m))
  }

  function FromHour(m: Moment): string
    requires m.second >= 0 && m.minute >= 0 && m.hour >= 0
  {
    Padded(m.hour, 2) + (":" + FromMinute(m))
  }

  function FromDay(m: Moment): string
    requires m.second >= 0 && m.minute >= 0 && m.hour >= 0 && m.date.day >= 0
  {
    Padded(m.date.day, 2) + ("T" + FromHour(m))
  }

  function FromMonth(m: Moment): string
    requires m.second >= 0 && m.minute >= 0 && m.hour >= 0 && m.date.day >= 0 && m.date.month >= 0
  {
    Padded(m.date.month, 2) + ("-" + FromDay(m))
  }

  /** A field decides, or passes the decision on. */
  lemma Field(a: nat, b: nat, width: nat, mark: string, moreA: string, moreB: string)
    requires width >= 1 && a < Power(width) && b < Power(width)
    ensures a < b ==> Precedes(Padded(a, width) + (mark + moreA), Padded(b, width) + (mark + moreB))
    ensures a == b && Precedes(moreA, moreB)
            ==> Precedes(Padded(a, width) + (mark + moreA), Padded(b, width) + (mark + moreB))
  {
    if a < b {
      PaddedIsDigits(a, width);
      PaddedIsDigits(b, width);
      PaddedInOrder(a, b, width);
      StartDecides(Padded(a, width), Padded(b, width), mark + moreA, mark + moreB);
    } else {
      SameStart(Padded(a, width), mark + moreA, mark + moreB);
      SameStart(mark, moreA, moreB);
    }
  }

  // ---- what the readers let through ------------------------------------------------------------

  /** A day past the end of its month is read as a day of the next one, 31 February as
      2 or 3 March: so the converse of the round trip fails. */
  lemma DaysSpillOver(moment: Moment)
    requires 0 <= moment.date.year < 10_000 && 1 <= moment.date.month <= 11
    requires DaysIn(moment.date.year, moment.date.month) < moment.date.day <= 31
    requires 0 <= moment.hour <= 23 && 0 <= moment.minute <= 59 && 0 <= moment.second <= 59
    ensures var date := moment.date;
            var day := date.day - DaysIn(date.year, date.month);
            UnixOf(Written(moment)) == UnixOf(Written(moment.(date := Date(date.year, date.month + 1, day))))
  {
    var date := moment.date;
    var spilled := Date(date.year, date.month + 1, date.day - DaysIn(date.year, date.month));
    DaysCarried(date, spilled);
    ReadBySeconds(moment);
    ReadBySeconds(moment.(date := spilled));
  }

  lemma ReadBySeconds(moment: Moment)
    requires 0 <= moment.date.year < 10_000 && 1 <= moment.date.month <= 12 && 1 <= moment.date.day <= 31
    requires 0 <= moment.hour <= 23 && 0 <= moment.minute <= 59 && 0 <= moment.second <= 59
    ensures UnixOf(Written(moment)) == if SecondsOf(moment) < 0 then None else Some(SecondsOf(moment))
  {
    FieldsOfWritten(moment);
  }

  lemma DaysCarried(date: Date, spilled: Date)
    requires 1 <= date.month <= 11 && date.day > DaysIn(date.year, date.month)
    requires spilled == Date(date.year, date.month + 1, date.day - DaysIn(date.year, date.month))
    ensures DaysFromCivil(spilled) == DaysFromCivil(date)
  {
    var last := date.(day := DaysIn(date.year, date.month));
    NextIsOneMore(last);
    DaysInMonth(date, last);
    DaysInMonth(spilled, Next(last));
  }

  lemma DaysInMonth(a: Date, b: Date)
    requires a.year == b.year && a.month == b.month
    ensures DaysFromCivil(a) - DaysFromCivil(b) == a.day - b.day
  {
  }

  lemma FirstDigits()
    ensures Padded(9999, 4)[0] == '9' && Padded(10_000, 4)[0] == '1'
  {
  }

  /** The order of texts is the order of time no further: the year 10000 comes before 9999. */
  lemma OrderEndsWithTheYear9999(a: nat, b: nat)
    requires MomentOf(a).date.year == 9999 && MomentOf(b).date.year == 10_000
    ensures Precedes(FormatUnix(b), FormatUnix(a))
  {
    var early, late := FormatUnix(a), FormatUnix(b);
    FirstDigits();
    assert Codes(late)[0] == '1' as int && Codes(early)[0] == '9' as int;
  }

  /** Every second of a day at the turn of the year 10000 is in the year the calendar says. */
  lemma TurnOfTheYear(last: nat, first: nat)
    requires last / DAY == DAYS_TO_10000 - 1 && first / DAY == DAYS_TO_10000
    ensures MomentOf(last).date.year == 9999 && MomentOf(first).date.year == 10_000
  {
    NewYear9999();
    YearsBefore(last / DAY, Date(9999, 1, 1), 2_932_532);
    YearsOfFourDigits(last / DAY);
    YearsOfFourDigits(first / DAY);
    NewYear10001();
    YearsBefore(first / DAY, Date(10_001, 1, 1), 2_933_263);
    MomentIsReal(last);
    MomentIsReal(first);
  }

  lemma NewYear9999()
    ensures DaysFromCivil(Date(9999, 1, 1)) == 2_932_532
  {
  }

  lemma NewYear10001()
    ensures DaysFromCivil(Date(10_001, 1, 1)) == 2_933_263
  {
  }

  ghost predicate InTimeBelow(limit: nat) {
    forall a: nat, b: nat :: a < limit && b < limit ==> (Precedes(FormatUnix(a), FormatUnix(b)) <==> a < b)
  }

  /** So the end of the year 9999 is the largest bound there is. */
  lemma OrderIsTimeExactlyBelow(limit: nat)
    ensures InTimeBelow(limit) <==> limit <= DAYS_TO_10000 * DAY
  {
    if limit <= DAYS_TO_10000 * DAY {
      forall a: nat, b: nat | a < limit && b < limit
        ensures Precedes(FormatUnix(a), FormatUnix(b)) <==> a < b
      {
        OrderIsTime(a, b);
      }
    } else {
      var last, first := DAYS_TO_10000 * DAY - 1, DAYS_TO_10000 * DAY;
      TurnOfTheYear(last, first);
      OrderEndsWithTheYear9999(last, first);
      assert Precedes(FormatUnix(first), FormatUnix(last)) && !(first < last);
    }
  }

  /** The ledger's reader takes everything the clock's does, and lets a leap second through. */
  lemma ReadersAgree(t: string, seconds: nat)
    ensures UnixOf(t) == Some(seconds)
            <==> EpochSeconds(t) == Some(seconds) && |t| == 20 && Fields(t).value.second != 60
  {
  }
}
