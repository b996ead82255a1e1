/** The rolling five hours: what keeps its bound, and what breaks it. */
module BudgetWindow {
  import opened Options
  import opened Budget
  import opened BudgetRuns

  // ---- when the window holds ---------------------------------------------------------------------

  /** The instant of the last grant, `last` so far, after a step. */
  function LastGrant(last: int, state: State, step: Step): int {
    match Taken(state, step)
    case Append(row) => if row.kind.Reserved? then row.seconds else last
    case _ => last
  }

  /** A settlement comes while its reservation is inside the window of the last grant, or keeps
      the reservation's own stamp, as a start reconciling what a killed process left does. When
      it is written, and what was refused or noted in the meantime, does not matter. */
  predicate Timely(last: int, state: State, step: Step) {
    match Taken(state, step)
    case Settling(reservation, _, _, seconds) =>
      Standing(state.rows, reservation.id)
      ==> var stamped := state.rows[reservation.id].seconds;
          seconds == stamped || stamped > last - WINDOW_SECONDS
    case _ => true
  }

  ghost predicate TimelyRun(last: int, state: State, steps: seq<Step>)
    decreases |steps|
  {
    steps == []
    || (Timely(last, state, steps[0])
        && TimelyRun(LastGrant(last, state, steps[0]), Next(state, steps[0]), steps[1..]))
  }

  function LastGrantOf(last: int, state: State, steps: seq<Step>): int
    decreases |steps|
  {
    if steps == [] then last
    else LastGrantOf(LastGrant(last, state, steps[0]), Next(state, steps[0]), steps[1..])
  }

  function InWindow(rows: seq<Row>, measure: Measure, now: int): nat {
    Total(rows, measure, Since(now - WINDOW_SECONDS))
  }

  lemma StepKeepsWindow(last: int, state: State, step: Step)
    requires Sound(state.rows) && Legal(state, step) && Timely(last, state, step)
    requires InWindow(state.rows, Within, last) <= WINDOW_TOKENS
    ensures InWindow(Next(state, step).rows, Within, LastGrant(last, state, step)) <= WINDOW_TOKENS
  {
    match Taken(state, step)
    case Append(row) =>
      AppendKeepsWindow(last, state, step);
    case Settling(reservation, settlement, at, seconds) =>
      if Standing(state.rows, reservation.id) {
        SettlementKeepsWindow(state.rows, reservation, settlement, at, seconds, last);
      }
    case Nothing =>
  }

  lemma AppendKeepsWindow(last: int, state: State, step: Step)
    requires Legal(state, step) && Taken(state, step).Append?
    requires InWindow(state.rows, Within, last) <= WINDOW_TOKENS
    ensures InWindow(Next(state, step).rows, Within, LastGrant(last, state, step)) <= WINDOW_TOKENS
  {
    var row := Taken(state, step).row;
    AppendsNewRow(state, step);
    if row.kind.Reserved? {
      AdmissionUnderWindow(state, step);
    }
    RowKeepsWindow(state.rows, row, last);
  }

  lemma RowKeepsWindow(rows: seq<Row>, row: Row, last: int)
    requires NewRow(row) && InWindow(rows, Within, last) <= WINDOW_TOKENS
    requires row.kind.Reserved? ==> InWindow(rows, Within, row.seconds) + row.tokens <= WINDOW_TOKENS
    ensures InWindow(rows + [row], Within, if row.kind.Reserved? then row.seconds else last) <= WINDOW_TOKENS
  {
    var now := if row.kind.Reserved? then row.seconds else last;
    TotalOfMore(rows, row, Within, Since(now - WINDOW_SECONDS));
  }

  lemma SettlementKeepsWindow(rows: seq<Row>, reservation: Reservation, settlement: Settlement, at: string, seconds: int,
                              last: int)
    requires Sound(rows) && Standing(rows, reservation.id) && InWindow(rows, Within, last) <= WINDOW_TOKENS
    requires rows[reservation.id].seconds == seconds || rows[reservation.id].seconds > last - WINDOW_SECONDS
    ensures InWindow(Settled(rows, reservation, settlement, at, seconds), Within, last) <= WINDOW_TOKENS
  {
    assert SoundRow(rows[reservation.id]);
    SettlementCounted(rows, reservation, settlement, at, seconds, Within, Since(last - WINDOW_SECONDS));
  }

  lemma AdmissionUnderWindow(state: State, step: Step)
    requires Legal(state, step) && Taken(state, step).Append? && Taken(state, step).row.kind.Reserved?
    ensures var row := Taken(state, step).row;
            InWindow(state.rows, Within, row.seconds) + row.tokens <= WINDOW_TOKENS
  {
    var at := step.at;
    assert at.seconds.Some?
           && LimitPassed(state.rows, at.text, at.seconds.value, step.job, step.estimate, step.ceiling) == None;
    TokensSplit(state.rows, Since(at.seconds.value - WINDOW_SECONDS));
  }

  lemma {:induction false} WindowHoldsWithin(last: int, state: State, steps: seq<Step>)
    requires Sound(state.rows) && LegalRun(state, steps) && TimelyRun(last, state, steps)
    requires InWindow(state.rows, Within, last) <= WINDOW_TOKENS
    ensures InWindow(After(state, steps).rows, Within, LastGrantOf(last, state, steps)) <= WINDOW_TOKENS
    decreases |steps|
  {
    if steps != [] {
      StepKeepsSound(state, steps[0]);
      StepKeepsWindow(last, state, steps[0]);
      WindowHoldsWithin(LastGrant(last, state, steps[0]), Next(state, steps[0]), steps[1..]);
    }
  }

  /** In every timely run, at every instant from the last grant on, the five hours before it
      hold at most the window and what their bills came to above their reservations. */
  lemma WindowIsBounded(start: int, steps: seq<Step>, now: int)
    requires LegalRun(EMPTY, steps) && TimelyRun(start, EMPTY, steps)
    requires now >= LastGrantOf(start, EMPTY, steps)
    ensures var rows := After(EMPTY, steps).rows;
            InWindow(rows, Tokens, now) <= WINDOW_TOKENS + InWindow(rows, Excess, now)
  {
    WindowHoldsWithin(start, EMPTY, steps);
    WindowLater(After(EMPTY, steps).rows, LastGrantOf(start, EMPTY, steps), now);
  }

  lemma WindowLater(rows: seq<Row>, last: int, now: int)
    requires now >= last && InWindow(rows, Within, last) <= WINDOW_TOKENS
    ensures InWindow(rows, Tokens, now) <= WINDOW_TOKENS + InWindow(rows, Excess, now)
  {
    LaterCountsLess(rows, Within, last - WINDOW_SECONDS, now - WINDOW_SECONDS);
    TokensSplit(rows, Since(now - WINDOW_SECONDS));
  }

  /** And with no overrun, at most the window. */
  lemma WindowHoldsOutright(start: int, steps: seq<Step>, now: int)
    requires LegalRun(EMPTY, steps) && TimelyRun(start, EMPTY, steps)
    requires now >= LastGrantOf(start, EMPTY, steps)
    requires forall row :: row in After(EMPTY, steps).rows ==> !row.kind.Overrun?
    ensures InWindow(After(EMPTY, steps).rows, Tokens, now) <= WINDOW_TOKENS
  {
    WindowIsBounded(start, steps, now);
    NoOverrunNoExcess(steps, Since(now - WINDOW_SECONDS));
  }

  // ---- a bill that is kept ------------------------------------------------------------------------

  /** While the process keeps a bill, nothing is granted. */
  lemma {:induction false} NoGrantWhileKept(last: int, state: State, steps: seq<Step>)
    requires LegalRun(state, steps) && state.kept.Some? && Restart !in steps
    ensures LastGrantOf(last, state, steps) == last && After(state, steps).kept.Some?
    decreases |steps|
  {
    if steps != [] {
      NoGrantWhileKept(last, Next(state, steps[0]), steps[1..]);
    }
  }

  /** A reservation that stands is the row it was. */
  lemma {:induction false} StandingIsTheSame(state: State, steps: seq<Step>, id: nat)
    requires id < |state.rows| && Standing(After(state, steps).rows, id)
    ensures Standing(state.rows, id) && After(state, steps).rows[id] == state.rows[id]
    decreases |steps|
  {
    if steps != [] {
      assert |state.rows| <= |Next(state, steps[0]).rows|;
      StandingIsTheSame(Next(state, steps[0]), steps[1..], id);
    }
  }

  /** So a bill the store refused, in time when it was refused, is in time whenever it lands,
      with whatever stamp. */
  lemma KeptLandsInTime(last: int, state: State, steps: seq<Step>, landing: Step)
    requires LegalRun(state, steps) && state.kept.Some? && Restart !in steps && landing.Settle?
    requires landing.reservation.id < |state.rows|
    requires state.rows[landing.reservation.id].seconds > last - WINDOW_SECONDS
    ensures Timely(LastGrantOf(last, state, steps), After(state, steps), landing)
  {
    NoGrantWhileKept(last, state, steps);
    if Standing(After(state, steps).rows, landing.reservation.id) {
      StandingIsTheSame(state, steps, landing.reservation.id);
    }
  }

  // ---- what a settlement does to the window -------------------------------------------------------

  /** Exactly: a settlement inside the window can only lower it, and one that comes after its
      reservation has left the window adds the whole charge again. */
  lemma SettlementInWindow(rows: seq<Row>, reservation: Reservation, settlement: Settlement, at: string, now: int)
    requires Standing(rows, reservation.id)
    ensures var row := rows[reservation.id];
            var charge := ChargeOf(settlement, row.tokens);
            var after := Settled(rows, reservation, settlement, at, now);
            InWindow(after, Tokens, now)
            == InWindow(rows, Tokens, now) + charge - (if row.seconds > now - WINDOW_SECONDS then row.tokens else 0)
  {
    SettlementCounted(rows, reservation, settlement, at, now, Tokens, Since(now - WINDOW_SECONDS));
  }

  /** So a settlement that is not above its reservation raises the window exactly when it charges
      something and its reservation has left the window. */
  lemma SettlementRaisesExactly(rows: seq<Row>, reservation: Reservation, settlement: Settlement, at: string, now: int)
    requires Sound(rows) && Issued(rows, reservation) && Standing(rows, reservation.id) && !Overruns(reservation, settlement)
    ensures var row := rows[reservation.id];
            InWindow(Settled(rows, reservation, settlement, at, now), Tokens, now) > InWindow(rows, Tokens, now)
            <==> row.seconds <= now - WINDOW_SECONDS && ChargeOf(settlement, row.tokens) > 0
  {
    assert SoundRow(rows[reservation.id]);
    SettlementInWindow(rows, reservation, settlement, at, now);
  }

  // ---- a run that is late ---------------------------------------------------------------------------

  /** Names no two of which are equal. */
  function Name(n: nat): string {
    if n == 0 then "" else Name(n - 1) + "x"
  }

  lemma {:induction false} NameLength(n: nat)
    ensures |Name(n)| == n
  {
    if n > 0 {
      NameLength(n - 1);
    }
  }

  /** The largest request there may be, of a job of its own. */
  function Asking(n: nat, at: string, seconds: int): Step {
    Admit(Time(at, Some(seconds)), Name(n), "", PER_REQUEST_TOKENS, None, true)
  }

  function Request(n: nat, at: string, seconds: int): Row {
    Row(Name(n), "", Reserved, PER_REQUEST_TOKENS, PER_REQUEST_TOKENS, at, seconds)
  }

  function Batch(count: nat, first: nat, at: string, seconds: int): seq<Step> {
    if count == 0 then [] else [Asking(first, at, seconds)] + Batch(count - 1, first + 1, at, seconds)
  }

  function Requests(count: nat, first: nat, at: string, seconds: int): seq<Row> {
    if count == 0 then [] else [Request(first, at, seconds)] + Requests(count - 1, first + 1, at, seconds)
  }

  ghost predicate NamesBelow(rows: seq<Row>, first: nat) {
    forall i :: 0 <= i < |rows| ==> |rows[i].job| < first && rows[i].kind.Reserved?
  }

  lemma {:induction false} FreshJob(rows: seq<Row>, first: nat)
    requires NamesBelow(rows, first)
    ensures Total(rows, Tokens, OfJob(Name(first))) == 0 && StopOf(rows) == None
  {
    NameLength(first);
    if rows != [] {
      assert rows[|rows| - 1].job != Name(first);
      FreshJob(rows[..|rows| - 1], first);
    }
  }

  lemma {:induction false} MonthIsPart(rows: seq<Row>, month: string)
    ensures Total(rows, Tokens, InMonth(month)) <= Total(rows, Tokens, Everything)
  {
    if rows != [] {
      MonthIsPart(rows[..|rows| - 1], month);
    }
  }

  /** Each request that fits is granted. */
  lemma OneMore(state: State, first: nat, at: string, seconds: int)
    requires state.kept == None && NamesBelow(state.rows, first)
    requires InWindow(state.rows, Tokens, seconds) + PER_REQUEST_TOKENS <= WINDOW_TOKENS
    requires Total(state.rows, Tokens, InMonth(MonthOf(at))) + PER_REQUEST_TOKENS <= MONTH_TOKENS
    ensures Next(state, Asking(first, at, seconds)) == state.(rows := state.rows + [Request(first, at, seconds)])
  {
    FreshJob(state.rows, first);
    assert LimitPassed(state.rows, at, seconds, Name(first), PER_REQUEST_TOKENS, None) == None;
  }

  lemma NamesOfMore(rows: seq<Row>, first: nat, at: string, seconds: int)
    requires NamesBelow(rows, first)
    ensures NamesBelow(rows + [Request(first, at, seconds)], first + 1)
  {
    NameLength(first);
  }

  /** The run of `count` requests grants them all. */
  ghost predicate AllGranted(state: State, count: nat, first: nat, at: string, seconds: int) {
    var steps := Batch(count, first, at, seconds);
    LegalRun(state, steps) && After(state, steps) == state.(rows := state.rows + Requests(count, first, at, seconds))
  }

  /** As many requests of new jobs as the window and the month hold are all granted. */
  lemma {:induction false} Many(state: State, count: nat, first: nat, at: string, seconds: int)
    requires state.kept == None && NamesBelow(state.rows, first)
    requires InWindow(state.rows, Tokens, seconds) + 250_000 * count <= WINDOW_TOKENS
    requires Total(state.rows, Tokens, InMonth(MonthOf(at))) + 250_000 * count <= MONTH_TOKENS
    ensures AllGranted(state, count, first, at, seconds)
    decreases count
  {
    if count == 0 {
      assert state.rows + [] == state.rows;
    } else {
      RoomLeft(state.rows, first, at, seconds);
      Many(state.(rows := state.rows + [Request(first, at, seconds)]), count - 1, first + 1, at, seconds);
      OneAndTheRest(state, count, first, at, seconds);
    }
  }

  lemma RoomLeft(rows: seq<Row>, first: nat, at: string, seconds: int)
    requires NamesBelow(rows, first)
    ensures var after := rows + [Request(first, at, seconds)];
            && NamesBelow(after, first + 1)
            && InWindow(after, Tokens, seconds) == InWindow(rows, Tokens, seconds) + 250_000
            && Total(after, Tokens, InMonth(MonthOf(at))) == Total(rows, Tokens, InMonth(MonthOf(at))) + 250_000
  {
    NamesOfMore(rows, first, at, seconds);
    TotalOfMore(rows, Request(first, at, seconds), Tokens, Since(seconds - WINDOW_SECONDS));
    TotalOfMore(rows, Request(first, at, seconds), Tokens, InMonth(MonthOf(at)));
  }

  lemma OneAndTheRest(state: State, count: nat, first: nat, at: string, seconds: int)
    requires count > 0 && state.kept == None && NamesBelow(state.rows, first)
    requires InWindow(state.rows, Tokens, seconds) + PER_REQUEST_TOKENS <= WINDOW_TOKENS
    requires Total(state.rows, Tokens, InMonth(MonthOf(at))) + PER_REQUEST_TOKENS <= MONTH_TOKENS
    requires AllGranted(state.(rows := state.rows + [Request(first, at, seconds)]), count - 1, first + 1, at, seconds)
    ensures AllGranted(state, count, first, at, seconds)
  {
    OneMore(state, first, at, seconds);
    StepThenRun(state, Asking(first, at, seconds), Batch(count - 1, first + 1, at, seconds));
    Regroup(state.rows, Request(first, at, seconds), Requests(count - 1, first + 1, at, seconds));
  }

  lemma StepThenRun(state: State, step: Step, steps: seq<Step>)
    ensures After(state, [step] + steps) == After(Next(state, step), steps)
    ensures LegalRun(state, [step] + steps) <==> Legal(state, step) && LegalRun(Next(state, step), steps)
  {
    assert ([step] + steps)[0] == step && ([step] + steps)[1..] == steps;
  }

  lemma Regroup(rows: seq<Row>, row: Row, more: seq<Row>)
    ensures rows + [row] + more == rows + ([row] + more)
  {
  }

  // ---- the counters of the requests -----------------------------------------------------------------

  lemma {:induction false} TotalOfBoth(a: seq<Row>, b: seq<Row>, measure: Measure, scope: Scope)
    ensures Total(a + b, measure, scope) == Total(a, measure, scope) + Total(b, measure, scope)
    decreases |b|
  {
    if b == [] {
      assert a + b == a;
    } else {
      assert (a + b)[..|a + b| - 1] == a + b[..|b| - 1];
      TotalOfBoth(a, b[..|b| - 1], measure, scope);
    }
  }

  lemma {:induction false} RequestsCounted(count: nat, first: nat, at: string, seconds: int, scope: Scope)
    requires scope.Since? || scope.Everything? || scope == InMonth(MonthOf(at))
    ensures Total(Requests(count, first, at, seconds), Tokens, scope)
            == if scope.Since? && seconds <= scope.seconds then 0 else 250_000 * count
    decreases count
  {
    if count > 0 {
      var request, rest := Request(first, at, seconds), Requests(count - 1, first + 1, at, seconds);
      RequestsCounted(count - 1, first + 1, at, seconds, scope);
      TotalOfBoth([request], rest, Tokens, scope);
      assert [request][..0] == [];
    }
  }

  lemma {:induction false} RequestsNamed(rows: seq<Row>, count: nat, first: nat, at: string, seconds: int)
    requires NamesBelow(rows, first)
    ensures NamesBelow(rows + Requests(count, first, at, seconds), first + count)
    decreases count
  {
    if count == 0 {
      assert rows + [] == rows;
    } else {
      NamesOfMore(rows, first, at, seconds);
      RequestsNamed(rows + [Request(first, at, seconds)], count - 1, first + 1, at, seconds);
      Regroup(rows, Request(first, at, seconds), Requests(count - 1, first + 1, at, seconds));
    }
  }

  /** A window's worth of requests, and another five hours later. */
  lemma TwoBatchesCounted(count: nat, early: string, late: string, start: int)
    requires 250_000 * count == WINDOW_TOKENS
    ensures var first := Requests(count, 0, early, start);
            var second := Requests(count, count, late, start + WINDOW_SECONDS);
            && NamesBelow(first, count) && NamesBelow(first + second, 2 * count)
            && Total(first, Tokens, Everything) == WINDOW_TOKENS
            && InWindow(first, Tokens, start + WINDOW_SECONDS) == 0
            && InWindow(first + second, Tokens, start + WINDOW_SECONDS) == WINDOW_TOKENS
  {
    var first := Requests(count, 0, early, start);
    var second := Requests(count, count, late, start + WINDOW_SECONDS);
    RequestsCounted(count, 0, early, start, Everything);
    RequestsCounted(count, 0, early, start, Since(start));
    RequestsCounted(count, count, late, start + WINDOW_SECONDS, Since(start));
    TotalOfBoth(first, second, Tokens, Since(start));
    RequestsNamed([], count, 0, early, start);
    assert [] + first == first;
    RequestsNamed(first, count, count, late, start + WINDOW_SECONDS);
  }

  // ---- the window passed ----------------------------------------------------------------------------

  function LateSettlement(late: string, now: int): Step {
    Settle(Time(late, Some(now)), Reservation(0, PER_REQUEST_TOKENS), UsageOf(PER_REQUEST_TOKENS), true)
  }

  /** Two windows' worth of requests, five hours apart, then the first of them settled: its
      reservation has left the window, and its settlement counts in it. */
  function LateRun(count: nat, early: string, late: string, start: int): seq<Step> {
    Batch(count, 0, early, start) + Batch(count, count, late, start + WINDOW_SECONDS)
    + [LateSettlement(late, start + WINDOW_SECONDS)]
  }

  /** So the window's bound needs its settlements in time: here no bill is above its
      reservation, the clock does not run back, and the window is passed. */
  lemma LateSettlementPassesTheWindow(count: nat, early: string, late: string, start: int)
    requires 250_000 * count == WINDOW_TOKENS
    ensures var rows := After(EMPTY, LateRun(count, early, late, start)).rows;
            && LegalRun(EMPTY, LateRun(count, early, late, start))
            && (forall row :: row in rows ==> !row.kind.Overrun?)
            && InWindow(rows, Tokens, start + WINDOW_SECONDS) == WINDOW_TOKENS + PER_REQUEST_TOKENS
  {
    var now := start + WINDOW_SECONDS;
    var both := Batch(count, 0, early, start) + Batch(count, count, late, now);
    TwoBatches(count, early, late, start);
    SettledLate(After(EMPTY, both), 2 * count, late, now);
    RunOnRun(EMPTY, both, [LateSettlement(late, now)]);
  }

  lemma TwoBatches(count: nat, early: string, late: string, start: int)
    requires 250_000 * count == WINDOW_TOKENS
    ensures var both := Batch(count, 0, early, start) + Batch(count, count, late, start + WINDOW_SECONDS);
            var rows := After(EMPTY, both).rows;
            && LegalRun(EMPTY, both) && |rows| > 0 && NamesBelow(rows, 2 * count)
            && rows[0] == Request(0, early, start)
            && InWindow(rows, Tokens, start + WINDOW_SECONDS) == WINDOW_TOKENS
  {
    var first := Requests(count, 0, early, start);
    var second := Requests(count, count, late, start + WINDOW_SECONDS);
    TwoBatchesCounted(count, early, late, start);
    MonthIsPart(first, MonthOf(late));
    FirstBatch(count, early, start);
    Many(State(first, true, None), count, count, late, start + WINDOW_SECONDS);
    RunOnRun(EMPTY, Batch(count, 0, early, start), Batch(count, count, late, start + WINDOW_SECONDS));
    assert (first + second)[0] == first[0];
  }

  lemma FirstBatch(count: nat, at: string, start: int)
    requires 250_000 * count == WINDOW_TOKENS
    ensures LegalRun(EMPTY, Batch(count, 0, at, start))
    ensures After(EMPTY, Batch(count, 0, at, start)) == State(Requests(count, 0, at, start), true, None)
  {
    Many(EMPTY, count, 0, at, start);
    assert EMPTY.rows + Requests(count, 0, at, start) == Requests(count, 0, at, start);
  }

  lemma SettledLate(state: State, jobs: nat, at: string, now: int)
    requires NamesBelow(state.rows, jobs) && |state.rows| > 0
    requires state.rows[0].estimate == state.rows[0].tokens == PER_REQUEST_TOKENS
    requires state.rows[0].seconds == now - WINDOW_SECONDS
    ensures var steps := [LateSettlement(at, now)];
            && LegalRun(state, steps)
            && InWindow(After(state, steps).rows, Tokens, now) == InWindow(state.rows, Tokens, now) + PER_REQUEST_TOKENS
            && forall row :: row in After(state, steps).rows ==> !row.kind.Overrun?
  {
    assert After(state, [LateSettlement(at, now)]) == Next(state, LateSettlement(at, now));
    SettlementInWindow(state.rows, Reservation(0, PER_REQUEST_TOKENS), UsageOf(PER_REQUEST_TOKENS), at, now);
  }
}
