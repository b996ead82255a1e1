/** The ledger against its books: what every step puts down for a call, kept beside the store by
    name and amount alone. Spend is the sum of the books, no more and no less. */
module BudgetAccounts {
  import opened Options
  import opened Budget
  import opened BudgetRuns

  // ---- what a settlement writes ------------------------------------------------------------------

  /** A standing reservation that is settled becomes a usage of its bill, whatever the bill is; an
      unknown usage of what was reserved; or a call that spent nothing. */
  lemma SettlementWrites(rows: seq<Row>, reservation: Reservation, settlement: Settlement, at: string, seconds: int)
    requires Standing(rows, reservation.id)
    ensures var after, row := Settled(rows, reservation, settlement, at, seconds), rows[reservation.id];
            && |rows| <= |after| && (forall i :: 0 <= i < |rows| && i != reservation.id ==> after[i] == rows[i])
            && after[reservation.id] ==
                 (match settlement
                  case UsageOf(bill) => Row(row.job, row.request, Usage, bill, row.estimate, at, seconds)
                  case UsageUnknown => Row(row.job, row.request, Unknown, row.tokens, row.estimate, at, seconds)
                  case NothingSpent => Row(row.job, row.request, NotSent, 0, row.estimate, at, seconds)
                  case Exhausted => Row(row.job, row.request, ProviderExhausted, 0, row.estimate, at, seconds))
            && (if settlement.UsageOf? && settlement.tokens > reservation.estimate
                then after[|rows|..] == [Row(row.job, row.request, Overrun, settlement.tokens, reservation.estimate, at, seconds)]
                else |after| == |rows|)
  {
  }

  // ---- when an admission is granted -----------------------------------------------------------------

  /** An admission is granted exactly when the store takes it, nothing has stopped the store or the
      process, and its estimate fits a request, its job, the five hours, the month and the run. */
  lemma GrantedExactly(state: State, step: Step)
    requires step.Admit?
    ensures Answer(state, step).Granted? <==>
              && step.taken && step.at.seconds.Some? && state.kept.None?
              && (forall row :: row in state.rows ==> row.kind != BoundUnsound && row.kind != Overrun)
              && step.estimate <= 250_000
              && Total(state.rows, Tokens, OfJob(step.job)) + step.estimate <= 1_000_000
              && Total(state.rows, Tokens, Since(step.at.seconds.value - 5 * 60 * 60)) + step.estimate <= 20_000_000
              && Total(state.rows, Tokens, InMonth(MonthOf(step.at.text))) + step.estimate <= 200_000_000
              && (step.ceiling.Some? ==> Total(state.rows, Tokens, Everything) + step.estimate <= step.ceiling.value)
    ensures Answer(state, step).Granted? ==>
              && Answer(state, step).reservation == Reservation(|state.rows|, step.estimate)
              && var at := step.at;
                 Next(state, step).rows == state.rows +
                   [Row(step.job, step.request, Reserved, step.estimate, step.estimate, at.text, at.seconds.value)]
  {
    StoppedExactly(state.rows);
  }

  lemma StoppedExactly(rows: seq<Row>)
    ensures StopOf(rows) == None <==> forall row :: row in rows ==> row.kind != BoundUnsound && row.kind != Overrun
    ensures StopOf(rows) == Some(UnsoundStop) <==> exists row :: row in rows && row.kind == BoundUnsound
  {
    if exists i :: 0 <= i < |rows| && (rows[i].kind.BoundUnsound? || rows[i].kind.Overrun?) {
      var i :| 0 <= i < |rows| && (rows[i].kind.BoundUnsound? || rows[i].kind.Overrun?);
      assert rows[i] in rows;
    }
    if i :| 0 <= i < |rows| && rows[i].kind.BoundUnsound? {
      assert rows[i] in rows;
    }
  }

  /** One that is not granted writes a row that is no spend, and is named for the first thing in
      its way: an unsound bound, an overrun, a request, a job, the five hours, the month, the run. */
  lemma DeniedInOrder(state: State, step: Step)
    requires step.Admit? && step.taken && step.at.seconds.Some? && !Answer(state, step).Granted?
    ensures Answer(state, step).Denied?
    ensures var denial, rows, estimate := Answer(state, step).denial, state.rows, step.estimate;
            var unsound := exists row :: row in rows && row.kind == BoundUnsound;
            var overrun := state.kept.Some? || exists row :: row in rows && row.kind == Overrun;
            denial ==
              if unsound then UnsoundStop
              else if overrun then OverrunStop
              else if estimate > 250_000 then PerRequest
              else if Total(rows, Tokens, OfJob(step.job)) + estimate > 1_000_000 then PerJob
              else if Total(rows, Tokens, Since(step.at.seconds.value - 18_000)) + estimate > 20_000_000 then WindowExhausted
              else if Total(rows, Tokens, InMonth(MonthOf(step.at.text))) + estimate > 200_000_000 then MonthExhausted
              else RunCeiling
    ensures var at := step.at;
            Next(state, step).rows == state.rows +
              [Row(step.job, step.request, if Answer(state, step).denial == RunCeiling then RunOverCeiling else Refusal,
                   0, step.estimate, at.text, at.seconds.value)]
  {
    StoppedExactly(state.rows);
  }

  /** A settlement the store does not take is kept when it is a bill above its reservation and the
      store has a file: as it was, with its own instant, after what is kept already, once. */
  lemma KeptExactly(state: State, step: Step)
    requires step.Settle?
    ensures var kept := if state.kept.Some? then state.kept.value else [];
            var bill := step.settlement;
            Next(state, step).kept ==
              if (step.taken && step.at.seconds.Some?) || !state.hasFile
                 || !bill.UsageOf? || bill.tokens <= step.reservation.estimate then state.kept
              else if exists entry :: entry in kept && entry.reservation.id == step.reservation.id then Some(kept)
              else Some(kept + [Unwritten(step.at.text, step.reservation, bill.tokens)])
  {
    var kept := if state.kept.Some? then state.kept.value else [];
    if i :| 0 <= i < |kept| && kept[i].reservation.id == step.reservation.id {
      assert kept[i] in kept;
    }
  }

  // ---- the books ---------------------------------------------------------------------------------------

  /** What is put down for one call, and whether that is a reservation still. */
  datatype Posting = Posting(job: string, amount: nat, at: string, seconds: int, open: bool)

  type Books = map<nat, Posting>

  /** A grant puts down its estimate. The first settlement the store takes puts down the bill
      instead, or nothing; or leaves the amount, when nobody said what was used. */
  function Post(state: State, step: Step, books: Books): Books {
    match step
    case Admit(at, job, _, estimate, _, _) =>
      if Answer(state, step).Granted? && at.seconds.Some?
      then books[Answer(state, step).reservation.id := Posting(job, estimate, at.text, at.seconds.value, true)]
      else books
    case Settle(at, reservation, settlement, taken) =>
      if taken && at.seconds.Some? && reservation.id in books && books[reservation.id].open then
        var posting := books[reservation.id];
        var amount :=
          match settlement
          case UsageOf(bill) => bill
          case UsageUnknown => posting.amount
          case _ => 0;
        books[reservation.id := Posting(posting.job, amount, at.text, at.seconds.value, false)]
      else books
    case _ => books
  }

  function PostAll(state: State, steps: seq<Step>, books: Books): Books
    decreases |steps|
  {
    if steps == [] then books else PostAll(Next(state, steps[0]), steps[1..], Post(state, steps[0], books))
  }

  predicate CountsPosting(scope: Scope, posting: Posting) {
    match scope
    case Everything => true
    case OfJob(job) => posting.job == job
    case Since(seconds) => posting.seconds > seconds
    case InMonth(month) => (if |posting.at| < 7 then posting.at else posting.at[..7]) == month
  }

  /** The sum of what is put down for the first `n` rows. */
  function Sum(books: Books, n: nat, scope: Scope): nat {
    if n == 0 then 0
    else Sum(books, n - 1, scope) + if n - 1 in books && CountsPosting(scope, books[n - 1]) then books[n - 1].amount else 0
  }

  /** The books and the rows agree call by call. */
  ghost predicate Balanced(rows: seq<Row>, books: Books) {
    && (forall id :: id in books ==> id < |rows|)
    && forall i :: 0 <= i < |rows| ==> Agree(rows[i], books, i)
  }

  ghost predicate Agree(row: Row, books: Books, i: nat) {
    && (i in books <==> Spent(row.kind))
    && (i in books ==> books[i] == Posting(row.job, row.tokens, row.at, row.seconds, row.kind.Reserved?))
  }

  lemma StepBalances(state: State, step: Step, books: Books)
    requires Balanced(state.rows, books) && Legal(state, step)
    ensures Balanced(Next(state, step).rows, Post(state, step, books))
  {
    match step
    case Admit(at, job, _, estimate, _, _) =>
      if step.taken && at.seconds.Some? {
        if Answer(state, step).Granted? {
          GrantedExactly(state, step);
        } else {
          DeniedInOrder(state, step);
        }
      }
    case Settle(at, reservation, settlement, taken) =>
      if taken && at.seconds.Some? {
        assert Agree(state.rows[reservation.id], books, reservation.id);
        if Standing(state.rows, reservation.id) {
          SettlementBalances(state.rows, reservation, settlement, at.text, at.seconds.value, books, Post(state, step, books));
        }
      }
    case _ =>
  }

  lemma SettlementBalances(
      rows: seq<Row>, reservation: Reservation, settlement: Settlement, at: string, seconds: int, books: Books, after: Books)
    requires Balanced(rows, books) && Standing(rows, reservation.id) && reservation.id in books
    requires after == books[reservation.id := Posting(books[reservation.id].job,
               match settlement { case UsageOf(bill) => bill case UsageUnknown => books[reservation.id].amount case _ => 0 },
               at, seconds, false)]
    ensures Balanced(Settled(rows, reservation, settlement, at, seconds), after)
  {
    SettlementWrites(rows, reservation, settlement, at, seconds);
    assert Agree(rows[reservation.id], books, reservation.id);
    var settled := Settled(rows, reservation, settlement, at, seconds);
    forall i | 0 <= i < |settled| ensures Agree(settled[i], after, i) {
      if i < |rows| {
        assert Agree(rows[i], books, i);
      } else {
        assert settled[i] == settled[|rows|..][i - |rows|];
      }
    }
  }

  lemma {:induction false} RunBalances(state: State, steps: seq<Step>, books: Books)
    requires Balanced(state.rows, books) && LegalRun(state, steps)
    ensures Balanced(After(state, steps).rows, PostAll(state, steps, books))
    decreases |steps|
  {
    if steps != [] {
      StepBalances(state, steps[0], books);
      RunBalances(Next(state, steps[0]), steps[1..], Post(state, steps[0], books));
    }
  }

  lemma {:induction false} SumOfRows(rows: seq<Row>, books: Books, n: nat, scope: Scope)
    requires Balanced(rows, books) && n <= |rows|
    ensures Sum(books, n, scope) == Total(rows[..n], Tokens, scope)
  {
    if n > 0 {
      SumOfRows(rows, books, n - 1, scope);
      assert rows[..n][..n - 1] == rows[..n - 1];
      assert Agree(rows[n - 1], books, n - 1);
    }
  }

  /** Over every run, what any counter counts is the sum of what the run put down: standing
      reservations at their estimates, bills whole, unknown usage at what was reserved. */
  lemma SpendIsTheBooks(steps: seq<Step>, scope: Scope)
    requires LegalRun(EMPTY, steps)
    ensures var rows := After(EMPTY, steps).rows;
            Total(rows, Tokens, scope) == Sum(PostAll(EMPTY, steps, map[]), |rows|, scope)
  {
    var rows := After(EMPTY, steps).rows;
    RunBalances(EMPTY, steps, map[]);
    SumOfRows(rows, PostAll(EMPTY, steps, map[]), |rows|, scope);
    assert rows[..|rows|] == rows;
  }

  // ---- what was above -------------------------------------------------------------------------------------

  /** What the rows that name an overrun were above their reservations. */
  function NamedExcess(rows: seq<Row>, scope: Scope): int {
    if rows == [] then 0
    else
      var row := rows[|rows| - 1];
      NamedExcess(rows[..|rows| - 1], scope) + if row.kind == Overrun && Counts(scope, row) then row.tokens - row.estimate else 0
  }

  lemma NamedOfMore(rows: seq<Row>, row: Row, scope: Scope)
    ensures NamedExcess(rows + [row], scope)
            == NamedExcess(rows, scope) + if row.kind == Overrun && Counts(scope, row) then row.tokens - row.estimate else 0
  {
    assert (rows + [row])[..|rows|] == rows;
  }

  lemma {:induction false} NamedOfChanged(rows: seq<Row>, i: nat, row: Row, scope: Scope)
    requires i < |rows| && rows[i].kind != Overrun && row.kind != Overrun
    ensures NamedExcess(rows[i := row], scope) == NamedExcess(rows, scope)
    decreases |rows|
  {
    var last := |rows| - 1;
    if i == last {
      assert rows[i := row][..last] == rows[..last];
    } else {
      assert rows[i := row][..last] == rows[..last][i := row];
      NamedOfChanged(rows[..last], i, row, scope);
    }
  }

  lemma StepNamesExcess(state: State, step: Step, scope: Scope)
    requires Sound(state.rows) && Legal(state, step)
    requires Total(state.rows, Excess, scope) == NamedExcess(state.rows, scope)
    ensures Total(Next(state, step).rows, Excess, scope) == NamedExcess(Next(state, step).rows, scope)
  {
    match Taken(state, step)
    case Append(row) =>
      AppendsNewRow(state, step);
      TotalOfMore(state.rows, row, Excess, scope);
      NamedOfMore(state.rows, row, scope);
    case Settling(reservation, settlement, at, seconds) =>
      SettlesIssued(state, step);
      if Standing(state.rows, reservation.id) {
        SettlementNamesExcess(state.rows, reservation, settlement, at, seconds, scope);
      }
    case Nothing =>
  }

  lemma SettlementNamesExcess(
      rows: seq<Row>, reservation: Reservation, settlement: Settlement, at: string, seconds: int, scope: Scope)
    requires Sound(rows) && Issued(rows, reservation) && Standing(rows, reservation.id)
    requires Total(rows, Excess, scope) == NamedExcess(rows, scope)
    ensures var after := Settled(rows, reservation, settlement, at, seconds);
            Total(after, Excess, scope) == NamedExcess(after, scope)
  {
    var row := rows[reservation.id];
    var settled := SettledRow(row, settlement, at, seconds);
    assert SoundRow(row);
    SettlementCounted(rows, reservation, settlement, at, seconds, Excess, scope);
    NamedOfChanged(rows, reservation.id, settled, scope);
    if Overruns(reservation, settlement) {
      NamedOfMore(rows[reservation.id := settled],
                  Row(row.job, row.request, Overrun, settlement.tokens, reservation.estimate, at, seconds), scope);
    }
  }

  lemma {:induction false} RunNamesExcess(state: State, steps: seq<Step>, scope: Scope)
    requires Sound(state.rows) && LegalRun(state, steps)
    requires Total(state.rows, Excess, scope) == NamedExcess(state.rows, scope)
    ensures Total(After(state, steps).rows, Excess, scope) == NamedExcess(After(state, steps).rows, scope)
    decreases |steps|
  {
    if steps != [] {
      StepKeepsSound(state, steps[0]);
      StepNamesExcess(state, steps[0], scope);
      RunNamesExcess(Next(state, steps[0]), steps[1..], scope);
    }
  }

  /** The excess the bounds allow for is what the rows that name an overrun say it is. */
  lemma ExcessIsNamed(steps: seq<Step>, scope: Scope)
    requires LegalRun(EMPTY, steps)
    ensures Total(After(EMPTY, steps).rows, Excess, scope) == NamedExcess(After(EMPTY, steps).rows, scope)
  {
    RunNamesExcess(EMPTY, steps, scope);
  }
}
