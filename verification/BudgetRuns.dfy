/** What every run of the ledger keeps: bounded spend, settlements that land once, and
    stops that hold. */
module BudgetRuns {
  import opened Options
  import opened Budget

  // ---- runs ------------------------------------------------------------------------------------

  lemma {:induction false} RunOnRun(state: State, a: seq<Step>, b: seq<Step>)
    ensures After(state, a + b) == After(After(state, a), b)
    ensures LegalRun(state, a) && LegalRun(After(state, a), b) ==> LegalRun(state, a + b)
    decreases |a|
  {
    if a == [] {
      assert a + b == b;
    } else {
      assert (a + b)[0] == a[0] && (a + b)[1..] == a[1..] + b;
      RunOnRun(Next(state, a[0]), a[1..], b);
    }
  }

  // ---- counters, row by row ------------------------------------------------------------------

  lemma {:induction false} TotalOfMore(rows: seq<Row>, row: Row, measure: Measure, scope: Scope)
    ensures Total(rows + [row], measure, scope) == Total(rows, measure, scope) + Part(measure, scope, row)
  {
    assert (rows + [row])[..|rows|] == rows;
  }

  lemma {:induction false} TotalOfChanged(rows: seq<Row>, i: nat, row: Row, measure: Measure, scope: Scope)
    requires i < |rows|
    ensures Total(rows[i := row], measure, scope) + Part(measure, scope, rows[i])
            == Total(rows, measure, scope) + Part(measure, scope, row)
    decreases |rows|
  {
    var last := |rows| - 1;
    if i == last {
      assert rows[i := row][..last] == rows[..last];
    } else {
      assert rows[i := row][..last] == rows[..last][i := row];
      TotalOfChanged(rows[..last], i, row, measure, scope);
    }
  }

  /** Spend is what was within the reservations and what was above. */
  lemma {:induction false} TokensSplit(rows: seq<Row>, scope: Scope)
    ensures Total(rows, Tokens, scope) == Total(rows, Within, scope) + Total(rows, Excess, scope)
  {
    if rows != [] {
      TokensSplit(rows[..|rows| - 1], scope);
    }
  }

  lemma {:induction false} LaterCountsLess(rows: seq<Row>, measure: Measure, a: int, b: int)
    requires a <= b
    ensures Total(rows, measure, Since(b)) <= Total(rows, measure, Since(a))
  {
    if rows != [] {
      LaterCountsLess(rows[..|rows| - 1], measure, a, b);
    }
  }

  lemma {:induction false} NoExcess(rows: seq<Row>, scope: Scope)
    requires forall i :: 0 <= i < |rows| && Spent(rows[i].kind) ==> rows[i].tokens <= rows[i].estimate
    ensures Total(rows, Excess, scope) == 0
  {
    if rows != [] {
      NoExcess(rows[..|rows| - 1], scope);
    }
  }

  // ---- what a settlement changes ---------------------------------------------------------------

  /** The counter after a settlement, exactly: the row's part moves from the old stamp to
      the new one. The row of an overrun is never spend. */
  lemma {:induction false} SettlementCounted(rows: seq<Row>, reservation: Reservation, settlement: Settlement, at: string, seconds: int,
                          measure: Measure, scope: Scope)
    requires Standing(rows, reservation.id)
    ensures var row := rows[reservation.id];
            Total(Settled(rows, reservation, settlement, at, seconds), measure, scope) + Part(measure, scope, row)
            == Total(rows, measure, scope) + Part(measure, scope, SettledRow(row, settlement, at, seconds))
  {
    var row := rows[reservation.id];
    var settledRow := SettledRow(row, settlement, at, seconds);
    var changed := rows[reservation.id := settledRow];
    TotalOfChanged(rows, reservation.id, settledRow, measure, scope);
    if Overruns(reservation, settlement) {
      TotalOfMore(changed, Row(row.job, row.request, Overrun, settlement.tokens, reservation.estimate, at, seconds), measure, scope);
    }
  }

  // ---- rows as they always are -------------------------------------------------------------------

  predicate SoundRow(row: Row) {
    && (row.kind.Reserved? || row.kind.Unknown? ==> row.tokens == row.estimate)
    && (row.kind.ProviderExhausted? || row.kind.NotSent? ==> row.tokens == 0)
    && (Spent(row.kind) ==> row.estimate <= PER_REQUEST_TOKENS)
  }

  ghost predicate Sound(rows: seq<Row>) {
    forall i :: 0 <= i < |rows| ==> SoundRow(rows[i])
  }

  /** A row as it is first written: a reservation at its estimate, or no spend at all. */
  predicate NewRow(row: Row) {
    if row.kind.Reserved? then row.tokens == row.estimate <= PER_REQUEST_TOKENS
    else !Spent(row.kind) && !row.kind.Overrun?
  }

  lemma AppendsNewRow(state: State, step: Step)
    requires Legal(state, step) && Taken(state, step).Append?
    ensures NewRow(Taken(state, step).row)
  {
  }

  lemma SettlesIssued(state: State, step: Step)
    requires Legal(state, step) && Taken(state, step).Settling?
    ensures var change := Taken(state, step);
            && Issued(state.rows, change.reservation) && step.Settle? && step.reservation == change.reservation
            && step.at == Time(change.at, Some(change.seconds)) && step.settlement == change.settlement
  {
  }

  lemma StepKeepsSound(state: State, step: Step)
    requires Sound(state.rows) && Legal(state, step)
    ensures Sound(Next(state, step).rows)
  {
    match Taken(state, step)
    case Append(row) =>
      AppendsNewRow(state, step);
    case Settling(reservation, settlement, at, seconds) =>
      SettlementKeepsSound(state.rows, reservation, settlement, at, seconds);
    case Nothing =>
  }

  lemma SettlementKeepsSound(rows: seq<Row>, reservation: Reservation, settlement: Settlement, at: string, seconds: int)
    requires Sound(rows)
    ensures Sound(Settled(rows, reservation, settlement, at, seconds))
  {
    if Standing(rows, reservation.id) {
      assert SoundRow(rows[reservation.id]);
    }
  }

  // ---- limits ------------------------------------------------------------------------------

  /** A limit that admissions keep to and settlements do not move rows into. */
  datatype Limit = JobLimit(job: string) | RunLimit(ceiling: nat) | MonthLimit(month: string)

  function ScopeOf(limit: Limit): Scope {
    match limit
    case JobLimit(job) => OfJob(job)
    case RunLimit(_) => Everything
    case MonthLimit(month) => InMonth(month)
  }

  function MostOf(limit: Limit): nat {
    match limit
    case JobLimit(_) => PER_JOB_TOKENS
    case RunLimit(ceiling) => ceiling
    case MonthLimit(_) => MONTH_TOKENS
  }

  /** What a limit asks of a step: a run ceiling, that every admission is under one as low;
      a month, that a settlement lands in the month of its reservation. */
  predicate KeepsTo(limit: Limit, state: State, step: Step) {
    match limit
    case JobLimit(_) => true
    case RunLimit(ceiling) => step.Admit? ==> step.ceiling.Some? && step.ceiling.value <= ceiling
    case MonthLimit(_) =>
      step.Settle? && Standing(state.rows, step.reservation.id)
      ==> MonthOf(step.at.text) == MonthOf(state.rows[step.reservation.id].at)
  }

  lemma StepKeepsLimit(limit: Limit, state: State, step: Step)
    requires Sound(state.rows) && Legal(state, step) && KeepsTo(limit, state, step)
    requires Total(state.rows, Within, ScopeOf(limit)) <= MostOf(limit)
    ensures Total(Next(state, step).rows, Within, ScopeOf(limit)) <= MostOf(limit)
  {
    match Taken(state, step)
    case Append(row) =>
      AppendsNewRow(state, step);
      TotalOfMore(state.rows, row, Within, ScopeOf(limit));
      if row.kind.Reserved? && Counts(ScopeOf(limit), row) {
        AdmissionUnderLimit(limit, state, step);
      }
    case Settling(reservation, settlement, at, seconds) =>
      SettlesIssued(state, step);
      if Standing(state.rows, reservation.id) {
        SettlementKeepsLimit(limit, state, step, seconds);
      }
    case Nothing =>
  }

  lemma AdmissionUnderLimit(limit: Limit, state: State, step: Step)
    requires Legal(state, step) && KeepsTo(limit, state, step)
    requires Taken(state, step).Append? && Taken(state, step).row.kind.Reserved?
    requires Counts(ScopeOf(limit), Taken(state, step).row)
    ensures Total(state.rows, Within, ScopeOf(limit)) + Taken(state, step).row.tokens <= MostOf(limit)
  {
    TokensSplit(state.rows, ScopeOf(limit));
    var at := step.at;
    assert at.seconds.Some? && LimitPassed(state.rows, at.text, at.seconds.value, step.job, step.estimate, step.ceiling) == None;
  }

  lemma SettlementKeepsLimit(limit: Limit, state: State, step: Step, seconds: int)
    requires Sound(state.rows) && KeepsTo(limit, state, step)
    requires step.Settle? && Standing(state.rows, step.reservation.id)
    ensures Total(Settled(state.rows, step.reservation, step.settlement, step.at.text, seconds), Within, ScopeOf(limit))
            <= Total(state.rows, Within, ScopeOf(limit))
  {
    var row := state.rows[step.reservation.id];
    assert SoundRow(row);
    SettlementCounted(state.rows, step.reservation, step.settlement, step.at.text, seconds, Within, ScopeOf(limit));
  }

  ghost predicate RunKeepsTo(limit: Limit, state: State, steps: seq<Step>)
    decreases |steps|
  {
    steps == [] || (KeepsTo(limit, state, steps[0]) && RunKeepsTo(limit, Next(state, steps[0]), steps[1..]))
  }

  lemma {:induction false} LimitHoldsWithin(limit: Limit, state: State, steps: seq<Step>)
    requires Sound(state.rows) && LegalRun(state, steps) && RunKeepsTo(limit, state, steps)
    requires Total(state.rows, Within, ScopeOf(limit)) <= MostOf(limit)
    ensures Total(After(state, steps).rows, Within, ScopeOf(limit)) <= MostOf(limit)
    decreases |steps|
  {
    if steps != [] {
      StepKeepsSound(state, steps[0]);
      StepKeepsLimit(limit, state, steps[0]);
      LimitHoldsWithin(limit, Next(state, steps[0]), steps[1..]);
    }
  }

  /** Whatever is admitted, settled and noted: spend under a limit is at most the limit and
      what its bills came to above their reservations. */
  lemma SpendIsBounded(limit: Limit, steps: seq<Step>)
    requires LegalRun(EMPTY, steps) && RunKeepsTo(limit, EMPTY, steps)
    ensures var rows := After(EMPTY, steps).rows;
            Total(rows, Tokens, ScopeOf(limit)) <= MostOf(limit) + Total(rows, Excess, ScopeOf(limit))
  {
    LimitHoldsWithin(limit, EMPTY, steps);
    TokensSplit(After(EMPTY, steps).rows, ScopeOf(limit));
  }

  // ---- overruns ---------------------------------------------------------------------------

  /** A bill, and the reservation it was above. */
  datatype Bill = Bill(job: string, request: string, tokens: nat, estimate: nat, at: string, seconds: int)

  function BillOf(row: Row): Bill {
    Bill(row.job, row.request, row.tokens, row.estimate, row.at, row.seconds)
  }

  predicate Above(row: Row) {
    Spent(row.kind) && row.tokens > row.estimate
  }

  /** A bill is looked for among the `overrun` rows, or among the settled rows themselves. */
  datatype Place = Named | Settlements

  function Found(place: Place, bill: Bill, row: Row): nat {
    if BillOf(row) == bill && (if place.Named? then row.kind.Overrun? else Above(row)) then 1 else 0
  }

  /** How many rows hold the bill. */
  function Count(rows: seq<Row>, place: Place, bill: Bill): nat {
    if rows == [] then 0
    else Count(rows[..|rows| - 1], place, bill) + Found(place, bill, rows[|rows| - 1])
  }

  lemma CountOfMore(rows: seq<Row>, row: Row, place: Place, bill: Bill)
    ensures Count(rows + [row], place, bill) == Count(rows, place, bill) + Found(place, bill, row)
  {
    assert (rows + [row])[..|rows|] == rows;
  }

  lemma {:induction false} CountOfChanged(rows: seq<Row>, i: nat, row: Row, place: Place, bill: Bill)
    requires i < |rows|
    ensures Count(rows[i := row], place, bill) + Found(place, bill, rows[i])
            == Count(rows, place, bill) + Found(place, bill, row)
    decreases |rows|
  {
    var last := |rows| - 1;
    if i == last {
      assert rows[i := row][..last] == rows[..last];
    } else {
      assert rows[i := row][..last] == rows[..last][i := row];
      CountOfChanged(rows[..last], i, row, place, bill);
    }
  }

  lemma SettlementNamesBills(rows: seq<Row>, reservation: Reservation, settlement: Settlement, at: string, seconds: int,
                             bill: Bill)
    requires Sound(rows) && Issued(rows, reservation) && Count(rows, Named, bill) == Count(rows, Settlements, bill)
    ensures var after := Settled(rows, reservation, settlement, at, seconds);
            Count(after, Named, bill) == Count(after, Settlements, bill)
  {
    if Standing(rows, reservation.id) {
      var row := rows[reservation.id];
      var settled := SettledRow(row, settlement, at, seconds);
      assert SoundRow(row);
      CountOfChanged(rows, reservation.id, settled, Named, bill);
      CountOfChanged(rows, reservation.id, settled, Settlements, bill);
      if Overruns(reservation, settlement) {
        var overrun := Row(row.job, row.request, Overrun, settlement.tokens, reservation.estimate, at, seconds);
        CountOfMore(rows[reservation.id := settled], overrun, Named, bill);
        CountOfMore(rows[reservation.id := settled], overrun, Settlements, bill);
        assert BillOf(overrun) == BillOf(settled);
      }
    }
  }

  lemma StepNamesBills(state: State, step: Step, bill: Bill)
    requires Sound(state.rows) && Legal(state, step)
    requires Count(state.rows, Named, bill) == Count(state.rows, Settlements, bill)
    ensures Count(Next(state, step).rows, Named, bill) == Count(Next(state, step).rows, Settlements, bill)
  {
    match Taken(state, step)
    case Append(row) =>
      AppendsNewRow(state, step);
      CountOfMore(state.rows, row, Named, bill);
      CountOfMore(state.rows, row, Settlements, bill);
    case Settling(reservation, settlement, at, seconds) =>
      SettlesIssued(state, step);
      SettlementNamesBills(state.rows, reservation, settlement, at, seconds, bill);
    case Nothing =>
  }

  lemma {:induction false} RunNamesBills(state: State, steps: seq<Step>, bill: Bill)
    requires Sound(state.rows) && Count(state.rows, Named, bill) == Count(state.rows, Settlements, bill)
    requires LegalRun(state, steps)
    ensures Count(After(state, steps).rows, Named, bill) == Count(After(state, steps).rows, Settlements, bill)
    decreases |steps|
  {
    if steps != [] {
      StepKeepsSound(state, steps[0]);
      StepNamesBills(state, steps[0], bill);
      RunNamesBills(Next(state, steps[0]), steps[1..], bill);
    }
  }

  /** In every reachable store the `overrun` rows and the settled rows above their estimates
      correspond one to one: same call, same bill, same reservation, same instant. */
  lemma OverrunsAreNamedOnce(steps: seq<Step>, bill: Bill)
    requires LegalRun(EMPTY, steps)
    ensures Count(After(EMPTY, steps).rows, Named, bill) == Count(After(EMPTY, steps).rows, Settlements, bill)
  {
    RunNamesBills(EMPTY, steps, bill);
  }

  lemma {:induction false} CountIsPositive(rows: seq<Row>, place: Place, bill: Bill)
    ensures Count(rows, place, bill) > 0 <==> exists i :: 0 <= i < |rows| && Found(place, bill, rows[i]) > 0
  {
    if rows != [] {
      var rest := rows[..|rows| - 1];
      CountIsPositive(rest, place, bill);
      assert forall i :: 0 <= i < |rest| ==> rest[i] == rows[i];
    }
  }

  lemma NoOverrunNoExcess(steps: seq<Step>, scope: Scope)
    requires LegalRun(EMPTY, steps)
    requires forall row :: row in After(EMPTY, steps).rows ==> !row.kind.Overrun?
    ensures Total(After(EMPTY, steps).rows, Excess, scope) == 0
  {
    var rows := After(EMPTY, steps).rows;
    forall i | 0 <= i < |rows|
      ensures !Above(rows[i])
    {
      var bill := BillOf(rows[i]);
      OverrunsAreNamedOnce(steps, bill);
      CountIsPositive(rows, Named, bill);
      CountIsPositive(rows, Settlements, bill);
    }
    NoExcess(rows, scope);
  }

  /** While no bill has been above its reservation, the limits hold outright. */
  lemma LimitsHoldOutright(limit: Limit, steps: seq<Step>)
    requires LegalRun(EMPTY, steps) && RunKeepsTo(limit, EMPTY, steps)
    requires forall row :: row in After(EMPTY, steps).rows ==> !row.kind.Overrun?
    ensures Total(After(EMPTY, steps).rows, Tokens, ScopeOf(limit)) <= MostOf(limit)
  {
    SpendIsBounded(limit, steps);
    NoOverrunNoExcess(steps, ScopeOf(limit));
  }
}
