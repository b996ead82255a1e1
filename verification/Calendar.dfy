/** The Gregorian calendar, and the closed forms that count its days. */
module Calendar {

  datatype Date = Date(year: int, month: int, day: int)

  // ---- the calendar itself -----------------------------------------------------------------

  predicate IsLeap(year: int) {
    year % 4 == 0 && (year % 100 != 0 || year % 400 == 0)
  }

  function DaysIn(year: int, month: int): int {
    if month == 2 then (if IsLeap(year) then 29 else 28)
    else if month == 4 || month == 6 || month == 9 || month == 11 then 30
    else 31
  }

  predicate IsDate(date: Date) {
    1 <= date.month <= 12 && 1 <= date.day <= DaysIn(date.year, date.month)
  }

  function Next(date: Date): Date {
    if date.day < DaysIn(date.year, date.month) then date.(day := date.day + 1)
    else if date.month < 12 then Date(date.year, date.month + 1, 1)
    else Date(date.year + 1, 1, 1)
  }

  /** The date `days` days after 1 January 1970, one day at a time. */
  function DayAfterEpoch(days: nat): Date {
    if days == 0 then Date(1970, 1, 1) else Next(DayAfterEpoch(days - 1))
  }

  predicate Earlier(a: Date, b: Date) {
    a.year < b.year || (a.year == b.year && (a.month < b.month || (a.month == b.month && a.day < b.day)))
  }

  // ---- the closed forms --------------------------------------------------------------------

  /** Days before 1 March of the year `yoe` years into its 400. */
  function DaysBeforeYear(yoe: int): int {
    yoe * 365 + yoe / 4 - yoe / 100
  }

  /** Days from 1 March to the first of the month `mp` months later. */
  function DaysBeforeMonth(mp: int): int {
    (153 * mp + 2) / 5
  }

  /** How many years of March to February come before day `doe` of 400 years. */
  function YearOfEra(doe: int): int {
    (doe - doe / 1460 + doe / 36_524 - doe / 146_096) / 365
  }

  function DateIn(era: int, yoe: int, doy: int): Date {
    var mp := (5 * doy + 2) / 153;
    var day := doy - DaysBeforeMonth(mp) + 1;
    var month := if mp < 10 then mp + 3 else mp - 9;
    Date(yoe + era * 400 + (if month <= 2 then 1 else 0), month, day)
  }

  function CivilFromDays(days: int): Date {
    var z := days + 719_468;
    var doe := z % 146_097;
    var yoe := YearOfEra(doe);
    DateIn(z / 146_097, yoe, doe - DaysBeforeYear(yoe))
  }

  function MarchYear(date: Date): int {
    if date.month <= 2 then date.year - 1 else date.year
  }

  function MarchMonth(date: Date): int {
    if date.month > 2 then date.month - 3 else date.month + 9
  }

  function DaysFromCivil(date: Date): int {
    var year := MarchYear(date);
    var era := year / 400;
    var doy := DaysBeforeMonth(MarchMonth(date)) + date.day - 1;
    era * 146_097 + (DaysBeforeYear(year - era * 400) + doy) - 719_468
  }

  // ---- one day on ---------------------------------------------------------------------------

  lemma NextMonth(year: int, month: int)
    requires 1 <= month <= 12 && month != 2
    ensures var mp := if month > 2 then month - 3 else month + 9;
            DaysBeforeMonth(mp + 1) == DaysBeforeMonth(mp) + DaysIn(year, month)
  {
    if month == 1 {} else if month == 3 {} else if month == 4 {} else if month == 5 {}
    else if month == 6 {} else if month == 7 {} else if month == 8 {} else if month == 9 {}
    else if month == 10 {} else if month == 11 {} else {}
  }

  /** The year of March to February that ends in February `year + 1`. */
  lemma NextYear(yoe: int)
    requires 0 <= yoe < 400
    ensures DaysBeforeYear(yoe + 1) == DaysBeforeYear(yoe) + 337 + DaysIn(yoe + 1, 2) - (if yoe == 399 then 1 else 0)
  {
    Fours(yoe);
    Hundreds(yoe);
  }

  lemma Fours(year: int)
    ensures (year + 1) / 4 == year / 4 + (if (year + 1) % 4 == 0 then 1 else 0)
  {
  }

  lemma Hundreds(year: int)
    ensures (year + 1) / 100 == year / 100 + (if (year + 1) % 100 == 0 then 1 else 0)
    ensures (year + 1) % 100 == 0 ==> (year + 1) % 4 == 0
  {
  }

  lemma SameLeap(year: int, yoe: int)
    requires 0 <= yoe < 400 && year / 400 * 400 + yoe == year
    ensures IsLeap(year + 1) == IsLeap(yoe + 1)
  {
    var era := year / 400;
    FoursAway(100 * era, yoe + 1);
    HundredsAway(4 * era, yoe + 1);
    ErasAway(era, yoe + 1);
  }

  lemma FoursAway(fours: int, year: int)
    ensures (4 * fours + year) % 4 == year % 4
  {
  }

  lemma HundredsAway(hundreds: int, year: int)
    ensures (100 * hundreds + year) % 100 == year % 100
  {
  }

  lemma ErasAway(eras: int, year: int)
    ensures (400 * eras + year) % 400 == year % 400
  {
  }

  lemma MarchFollows(year: int)
    ensures DaysFromCivil(Date(year, 3, 1)) == DaysFromCivil(Date(year, 2, DaysIn(year, 2))) + 1
  {
    var before := year - 1;
    var yoe := before - before / 400 * 400;
    NextYear(yoe);
    SameLeap(before, yoe);
    assert DaysIn(year, 2) == DaysIn(yoe + 1, 2);
    assert year / 400 == before / 400 + (if yoe == 399 then 1 else 0);
  }

  /** The day after is one day more. */
  lemma NextIsOneMore(date: Date)
    requires IsDate(date)
    ensures IsDate(Next(date)) && DaysFromCivil(Next(date)) == DaysFromCivil(date) + 1
  {
    if date.day == DaysIn(date.year, date.month) {
      if date.month == 2 {
        MarchFollows(date.year);
      } else {
        NextMonth(date.year, date.month);
      }
    }
  }

  lemma {:induction false} DaysCounted(days: nat)
    ensures IsDate(DayAfterEpoch(days)) && DaysFromCivil(DayAfterEpoch(days)) == days
  {
    if days > 0 {
      DaysCounted(days - 1);
      NextIsOneMore(DayAfterEpoch(days - 1));
    }
  }

  // ---- back to the date --------------------------------------------------------------------

  lemma MonthFound(mp: int, day: int)
    requires 0 <= mp <= 11 && 1 <= day
    requires day <= if mp == 11 then 29 else DaysBeforeMonth(mp + 1) - DaysBeforeMonth(mp)
    ensures 0 <= DaysBeforeMonth(mp) + day - 1 <= 365
    ensures (5 * (DaysBeforeMonth(mp) + day - 1) + 2) / 153 == mp
  {
    if mp == 0 {} else if mp == 1 {} else if mp == 2 {} else if mp == 3 {} else if mp == 4 {}
    else if mp == 5 {} else if mp == 6 {} else if mp == 7 {} else if mp == 8 {} else if mp == 9 {}
    else if mp == 10 {} else {}
  }

  /** The three corrections take out the leap days before day `doy` of year `yoe`. */
  lemma YearFound(yoe: int, doy: int)
    requires 0 <= yoe < 400 && 0 <= doy <= 365 && (doy == 365 ==> IsLeap(yoe + 1))
    ensures var doe := DaysBeforeYear(yoe) + doy;
            0 <= doe < 146_097 && YearOfEra(doe) == yoe
  {
    var c, r := yoe / 100, yoe % 100;
    var q, s := r / 4, r % 4;
    var doe := DaysBeforeYear(yoe) + doy;
    assert yoe / 4 == 25 * c + q;
    LeapAt(c, q, s);
    CenturiesFound(c, q, s, doy);
    FoursFound(c, q, s, doy);
  }

  /** Year `100 c + 4 q + s + 1` is leap only when `s` is 3. */
  lemma LeapAt(c: int, q: int, s: int)
    requires 0 <= c <= 3 && 0 <= q <= 24 && 0 <= s <= 3
    ensures IsLeap(100 * c + 4 * q + s + 1) <==> s == 3 && (q == 24 ==> c == 3)
  {
  }

  lemma CenturiesFound(c: int, q: int, s: int, doy: int)
    requires 0 <= c <= 3 && 0 <= q <= 24 && 0 <= s <= 3 && 0 <= doy <= 365
    requires doy == 365 ==> s == 3 && (q == 24 ==> c == 3)
    ensures var doe := 36_524 * c + 1461 * q + 365 * s + doy;
            0 <= doe < 146_097 && doe / 36_524 - doe / 146_096 == c
  {
    var doe := 36_524 * c + 1461 * q + 365 * s + doy;
    if doe == 146_096 {
    } else {
      assert 0 <= doe - 36_524 * c < 36_524;
    }
  }

  lemma FoursFound(c: int, q: int, s: int, doy: int)
    requires 0 <= c <= 3 && 0 <= q <= 24 && 0 <= s <= 3 && 0 <= doy <= 365
    requires doy == 365 ==> s == 3
    ensures var doe := 36_524 * c + 1461 * q + 365 * s + doy;
            0 <= 25 * c + q + doy - doe / 1460 < 365
  {
    var doe := 36_524 * c + 1461 * q + 365 * s + doy;
    var over := 24 * c + q + 365 * s + doy;
    assert doe == 1460 * (25 * c + q) + over;
    assert 0 <= over < 2920;
    if over < 1460 {
      assert doe / 1460 == 25 * c + q;
    } else {
      assert doe / 1460 == 25 * c + q + 1;
    }
  }

  lemma EraFound(era: int, doe: int)
    requires 0 <= doe < 146_097
    ensures (era * 146_097 + doe) / 146_097 == era && (era * 146_097 + doe) % 146_097 == doe
  {
  }

  /** The last day a March month may hold. */
  function LastIn(yoe: int, mp: int): int {
    if mp == 11 then (if IsLeap(yoe + 1) then 29 else 28) else DaysBeforeMonth(mp + 1) - DaysBeforeMonth(mp)
  }

  lemma YearStarts(yoe: int, mp: int, day: int)
    requires 0 <= yoe < 400 && 0 <= mp <= 11 && 1 <= day <= LastIn(yoe, mp)
    ensures var doe := DaysBeforeYear(yoe) + (DaysBeforeMonth(mp) + day - 1);
            0 <= doe < 146_097 && YearOfEra(doe) == yoe
  {
    MonthFound(mp, day);
    assert mp < 11 ==> DaysBeforeMonth(mp + 1) <= 337;
    YearFound(yoe, DaysBeforeMonth(mp) + day - 1);
  }

  lemma DateFound(era: int, yoe: int, mp: int, day: int, doy: int)
    requires 0 <= mp <= 11 && 1 <= day <= LastIn(yoe, mp) && doy == DaysBeforeMonth(mp) + day - 1
    ensures var month := if mp < 10 then mp + 3 else mp - 9;
            DateIn(era, yoe, doy) == Date(yoe + era * 400 + (if month <= 2 then 1 else 0), month, day)
  {
    MonthFound(mp, day);
  }

  lemma CivilUnfolds(days: int, era: int, doe: int)
    requires 0 <= doe < 146_097 && days == era * 146_097 + doe - 719_468
    ensures CivilFromDays(days) == DateIn(era, YearOfEra(doe), doe - DaysBeforeYear(YearOfEra(doe)))
  {
    EraFound(era, doe);
    assert (days + 719_468) % 146_097 == doe;
  }

  lemma DaysSplit(date: Date, era: int, yoe: int, mp: int)
    requires IsDate(date) && mp == MarchMonth(date)
    requires 0 <= yoe < 400 && MarchYear(date) == era * 400 + yoe
    ensures DaysFromCivil(date)
            == era * 146_097 + (DaysBeforeYear(yoe) + (DaysBeforeMonth(mp) + date.day - 1)) - 719_468
    ensures 0 <= mp <= 11 && date.day <= LastIn(yoe, mp)
  {
    assert MarchYear(date) / 400 == era;
    if date.month == 2 {
      SameLeap(MarchYear(date), yoe);
    } else {
      NextMonth(date.year, date.month);
    }
  }

  /** The two closed forms undo each other. */
  lemma CivilUndoesDays(date: Date, days: int)
    requires IsDate(date) && days == DaysFromCivil(date)
    ensures CivilFromDays(days) == date
  {
    var era := MarchYear(date) / 400;
    var yoe, mp := MarchYear(date) - era * 400, MarchMonth(date);
    DaysSplit(date, era, yoe, mp);
    YearStarts(yoe, mp, date.day);
    CivilUnfolds(days, era, DaysBeforeYear(yoe) + (DaysBeforeMonth(mp) + date.day - 1));
    DateFound(era, yoe, mp, date.day, DaysBeforeMonth(mp) + date.day - 1);
  }

  /** The closed form is the calendar counted a day at a time, for every day. */
  lemma CivilIsTheCalendar(days: nat)
    ensures CivilFromDays(days) == DayAfterEpoch(days)
    ensures IsDate(CivilFromDays(days)) && DaysFromCivil(CivilFromDays(days)) == days
  {
    DaysCounted(days);
    CivilUndoesDays(DayAfterEpoch(days), days);
  }

  // ---- later days are later dates -----------------------------------------------------------

  lemma NextIsLater(date: Date)
    requires IsDate(date)
    ensures Earlier(date, Next(date))
  {
  }

  lemma EarlierIsTransitive(a: Date, b: Date, c: Date)
    requires Earlier(a, b) && Earlier(b, c)
    ensures Earlier(a, c)
  {
  }

  lemma AlwaysADate(days: nat)
    ensures IsDate(DayAfterEpoch(days))
  {
    DaysCounted(days);
  }

  lemma {:induction false} LaterDay(a: nat, b: nat)
    requires a < b
    ensures Earlier(DayAfterEpoch(a), DayAfterEpoch(b))
    decreases b
  {
    AlwaysADate(b - 1);
    NextIsLater(DayAfterEpoch(b - 1));
    assert DayAfterEpoch(b) == Next(DayAfterEpoch(b - 1));
    if a < b - 1 {
      LaterDay(a, b - 1);
      EarlierIsTransitive(DayAfterEpoch(a), DayAfterEpoch(b - 1), DayAfterEpoch(b));
    }
  }

  /** The first day of the year 10000. */
  const DAYS_TO_10000 := 2_932_897

  lemma DayOf(date: Date, days: nat)
    requires IsDate(date) && DaysFromCivil(date) == days
    ensures DayAfterEpoch(days) == date
  {
    CivilIsTheCalendar(days);
    CivilUndoesDays(date, days);
  }

  lemma AtMostYear(a: nat, b: nat)
    requires a <= b
    ensures DayAfterEpoch(a).year <= DayAfterEpoch(b).year
  {
    if a < b {
      LaterDay(a, b);
    }
  }

  lemma YearsOfFourDigits(days: nat)
    ensures 1970 <= DayAfterEpoch(days).year
    ensures DayAfterEpoch(days).year < 10_000 <==> days < DAYS_TO_10000
  {
    YearsBefore(days, Date(10_000, 1, 1), DAYS_TO_10000);
    AtMostYear(0, days);
  }

  lemma YearsBefore(days: nat, newYear: Date, limit: nat)
    requires newYear.month == newYear.day == 1 && DaysFromCivil(newYear) == limit
    ensures DayAfterEpoch(days).year < newYear.year <==> days < limit
  {
    DayOf(newYear, limit);
    if days < limit {
      LaterDay(days, limit);
      AlwaysADate(days);
    } else {
      AtMostYear(limit, days);
    }
  }
}
