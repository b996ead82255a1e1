/** Where the bound on a month ends: a run with no overrun whose month is passed, because a
    reservation of the month before is settled in it. */
module BudgetMonth {
  import opened Options
  import opened Budget
  import opened BudgetRuns
  import opened BudgetWindow

  /** A settlement that is not above its reservation raises a month exactly when it charges
      something, in that month, for a reservation of another. */
  lemma SettlementRaisesMonthExactly(
      rows: seq<Row>, reservation: Reservation, settlement: Settlement, at: string, seconds: int, month: string)
    requires Sound(rows) && Issued(rows, reservation) && Standing(rows, reservation.id) && !Overruns(reservation, settlement)
    ensures var row := rows[reservation.id];
            Total(Settled(rows, reservation, settlement, at, seconds), Tokens, InMonth(month)) > Total(rows, Tokens, InMonth(month))
            <==> MonthOf(at) == month && MonthOf(row.at) != month && ChargeOf(settlement, row.tokens) > 0
  {
    assert SoundRow(rows[reservation.id]);
    SettlementCounted(rows, reservation, settlement, at, seconds, Tokens, InMonth(month));
  }

  /** A window's worth of requests every five hours, each at its own stamp. */
  function Batches(count: nat, n: nat, first: nat, stamps: int -> string, seconds: int): seq<Step> {
    if n == 0 then []
    else Batch(count, first, stamps(seconds), seconds) + Batches(count, n - 1, first + count, stamps, seconds + WINDOW_SECONDS)
  }

  ghost predicate NoneAfter(rows: seq<Row>, seconds: int) {
    forall i :: 0 <= i < |rows| ==> rows[i].seconds <= seconds
  }

  lemma {:induction false} NoneCounted(rows: seq<Row>, seconds: int)
    requires NoneAfter(rows, seconds)
    ensures Total(rows, Tokens, Since(seconds)) == 0
  {
    if rows != [] {
      NoneCounted(rows[..|rows| - 1], seconds);
    }
  }

  lemma {:induction false} RequestsAt(count: nat, first: nat, at: string, seconds: int)
    ensures NoneAfter(Requests(count, first, at, seconds), seconds)
    decreases count
  {
    if count > 0 {
      RequestsAt(count - 1, first + 1, at, seconds);
    }
  }

  /** What holds between batches: everything is five hours ago, and the month has room for
      `n` more. */
  ghost predicate HasRoom(state: State, n: nat, first: nat, month: string, seconds: int) {
    && state.kept == None && NamesBelow(state.rows, first) && NoneAfter(state.rows, seconds - WINDOW_SECONDS)
    && Total(state.rows, Tokens, InMonth(month)) + WINDOW_TOKENS * n <= MONTH_TOKENS
  }

  /** `next` is where a batch that was granted leaves the store. */
  ghost predicate Leads(state: State, next: State, count: nat, first: nat, at: string, month: string, seconds: int) {
    && AllGranted(state, count, first, at, seconds)
    && next == state.(rows := state.rows + Requests(count, first, at, seconds))
    && Total(next.rows, Tokens, InMonth(month)) == Total(state.rows, Tokens, InMonth(month)) + WINDOW_TOKENS
  }

  /** The store with a batch granted. */
  function Following(state: State, count: nat, first: nat, at: string, seconds: int): State {
    state.(rows := state.rows + Requests(count, first, at, seconds))
  }

  /** One batch is granted, and leaves room for one less. */
  lemma OneBatch(state: State, count: nat, n: nat, first: nat, at: string, month: string, seconds: int)
    requires 250_000 * count == WINDOW_TOKENS && n > 0 && HasRoom(state, n, first, month, seconds) && MonthOf(at) == month
    ensures Leads(state, Following(state, count, first, at, seconds), count, first, at, month, seconds)
  {
    var more := Requests(count, first, at, seconds);
    NoneCounted(state.rows, seconds - WINDOW_SECONDS);
    Many(state, count, first, at, seconds);
    RequestsCounted(count, first, at, seconds, InMonth(month));
    TotalOfBoth(state.rows, more, Tokens, InMonth(month));
  }

  lemma LessRoom(state: State, count: nat, n: nat, first: nat, at: string, month: string, seconds: int)
    requires 250_000 * count == WINDOW_TOKENS && n > 0 && HasRoom(state, n, first, month, seconds) && MonthOf(at) == month
    ensures HasRoom(Following(state, count, first, at, seconds), n - 1, first + count, month, seconds + WINDOW_SECONDS)
  {
    OneBatch(state, count, n, first, at, month, seconds);
    RequestsNamed(state.rows, count, first, at, seconds);
    RequestsAt(count, first, at, seconds);
  }

  /** The number after those of `n` batches. */
  function Past(first: nat, count: nat, n: nat): nat
    decreases n
  {
    if n == 0 then first else Past(first + count, count, n - 1)
  }

  /** The run is granted `n` windows' worth in the month. */
  ghost predicate Fills(state: State, steps: seq<Step>, count: nat, n: nat, first: nat, month: string) {
    var rows := After(state, steps).rows;
    && LegalRun(state, steps) && (state.rows != [] ==> rows != [] && rows[0] == state.rows[0])
    && NamesBelow(rows, Past(first, count, n))
    && Total(rows, Tokens, InMonth(month)) == Total(state.rows, Tokens, InMonth(month)) + WINDOW_TOKENS * n
  }

  /** One batch and what fills the rest of the month fill all of it. */
  lemma BatchThenRest(state: State, count: nat, n: nat, first: nat, stamps: int -> string, month: string, seconds: int)
    requires 250_000 * count == WINDOW_TOKENS && n > 0 && HasRoom(state, n, first, month, seconds)
    requires MonthOf(stamps(seconds)) == month
    requires Fills(Following(state, count, first, stamps(seconds), seconds),
                   Batches(count, n - 1, first + count, stamps, seconds + WINDOW_SECONDS), count, n - 1, first + count, month)
    ensures Fills(state, Batches(count, n, first, stamps, seconds), count, n, first, month)
  {
    BatchThen(state, Batches(count, n - 1, first + count, stamps, seconds + WINDOW_SECONDS), count, n, first,
              stamps(seconds), month, seconds);
  }

  lemma BatchThen(
      state: State, rest: seq<Step>, count: nat, n: nat, first: nat, at: string, month: string, seconds: int)
    requires 250_000 * count == WINDOW_TOKENS && n > 0 && HasRoom(state, n, first, month, seconds) && MonthOf(at) == month
    requires Fills(Following(state, count, first, at, seconds), rest, count, n - 1, first + count, month)
    ensures Fills(state, Batch(count, first, at, seconds) + rest, count, n, first, month)
  {
    OneBatch(state, count, n, first, at, month, seconds);
    RunOnRun(state, Batch(count, first, at, seconds), rest);
  }

  lemma NoBatches(state: State, count: nat, first: nat, stamps: int -> string, month: string, seconds: int)
    requires HasRoom(state, 0, first, month, seconds)
    ensures Fills(state, Batches(count, 0, first, stamps, seconds), count, 0, first, month)
  {
  }

  /** So all of them are. */
  lemma {:induction false} AllBatches(state: State, count: nat, n: nat, first: nat, stamps: int -> string, month: string, seconds: int)
    requires 250_000 * count == WINDOW_TOKENS && HasRoom(state, n, first, month, seconds)
    requires forall s :: MonthOf(stamps(s)) == month
    ensures Fills(state, Batches(count, n, first, stamps, seconds), count, n, first, month)
    decreases n
  {
    if n == 0 {
      NoBatches(state, count, first, stamps, month, seconds);
    } else {
      LessRoom(state, count, n, first, stamps(seconds), month, seconds);
      AllBatches(Following(state, count, first, stamps(seconds), seconds), count, n - 1, first + count, stamps, month,
                 seconds + WINDOW_SECONDS);
      BatchThenRest(state, count, n, first, stamps, month, seconds);
    }
  }

  /** One request in the month before, a month's worth in the month, and the first settled. */
  function CarriedRun(count: nat, early: string, stamps: int -> string, start: int): seq<Step> {
    var late := start + 11 * WINDOW_SECONDS;
    [Asking(0, early, start)] + Batches(count, 10, 1, stamps, start + WINDOW_SECONDS) + [LateSettlement(stamps(late), late)]
  }

  /** No bill is above its reservation, and the month is passed by one request. */
  lemma SettlementCarriedPassesTheMonth(count: nat, early: string, stamps: int -> string, month: string, start: int)
    requires 250_000 * count == WINDOW_TOKENS
    requires MonthOf(early) != month && forall s :: MonthOf(stamps(s)) == month
    ensures var rows := After(EMPTY, CarriedRun(count, early, stamps, start)).rows;
            && LegalRun(EMPTY, CarriedRun(count, early, stamps, start))
            && (forall row :: row in rows ==> !row.kind.Overrun?)
            && Total(rows, Tokens, InMonth(month)) == MONTH_TOKENS + PER_REQUEST_TOKENS
  {
    var late := start + 11 * WINDOW_SECONDS;
    var first := State([Request(0, early, start)], true, None);
    var batches := Batches(count, 10, 1, stamps, start + WINDOW_SECONDS);
    FirstRequest(early, month, start);
    AllBatches(first, count, 10, 1, stamps, month, start + WINDOW_SECONDS);
    RunOnRun(EMPTY, [Asking(0, early, start)], batches);
    var before := After(first, batches);
    assert before.rows[0] == first.rows[0];
    CarriedOver(before, Past(1, count, 10), stamps(late), month, late);
    RunOnRun(EMPTY, [Asking(0, early, start)] + batches, [LateSettlement(stamps(late), late)]);
  }

  lemma FirstRequest(early: string, month: string, start: int)
    requires MonthOf(early) != month
    ensures var first := State([Request(0, early, start)], true, None);
            && LegalRun(EMPTY, [Asking(0, early, start)]) && After(EMPTY, [Asking(0, early, start)]) == first
            && HasRoom(first, 10, 1, month, start + WINDOW_SECONDS)
            && Total(first.rows, Tokens, InMonth(month)) == 0
  {
    OneGranted(EMPTY, 0, early, start);
    assert [] + [Request(0, early, start)] == [Request(0, early, start)];
    FirstLeavesRoom(early, month, start);
  }

  lemma OneGranted(state: State, first: nat, at: string, seconds: int)
    requires state.kept == None && NamesBelow(state.rows, first)
    requires InWindow(state.rows, Tokens, seconds) + PER_REQUEST_TOKENS <= WINDOW_TOKENS
    requires Total(state.rows, Tokens, InMonth(MonthOf(at))) + PER_REQUEST_TOKENS <= MONTH_TOKENS
    ensures LegalRun(state, [Asking(first, at, seconds)])
    ensures After(state, [Asking(first, at, seconds)]) == state.(rows := state.rows + [Request(first, at, seconds)])
  {
    OneMore(state, first, at, seconds);
    StepThenRun(state, Asking(first, at, seconds), []);
    assert [Asking(first, at, seconds)] + [] == [Asking(first, at, seconds)];
  }

  lemma FirstLeavesRoom(early: string, month: string, start: int)
    requires MonthOf(early) != month
    ensures var first := State([Request(0, early, start)], true, None);
            && HasRoom(first, 10, 1, month, start + WINDOW_SECONDS)
            && Total(first.rows, Tokens, InMonth(month)) == 0
  {
    NameLength(0);
    assert [Request(0, early, start)][..0] == [];
  }

  lemma CarriedOver(state: State, jobs: nat, at: string, month: string, now: int)
    requires NamesBelow(state.rows, jobs) && |state.rows| > 0
    requires state.rows[0].estimate == state.rows[0].tokens == PER_REQUEST_TOKENS
    requires MonthOf(state.rows[0].at) != month && MonthOf(at) == month
    ensures var steps := [LateSettlement(at, now)];
            && LegalRun(state, steps)
            && Total(After(state, steps).rows, Tokens, InMonth(month))
               == Total(state.rows, Tokens, InMonth(month)) + PER_REQUEST_TOKENS
            && forall row :: row in After(state, steps).rows ==> !row.kind.Overrun?
  {
    assert After(state, [LateSettlement(at, now)]) == Next(state, LateSettlement(at, now));
    SettlementCounted(state.rows, Reservation(0, PER_REQUEST_TOKENS), UsageOf(PER_REQUEST_TOKENS), at, now, Tokens, InMonth(month));
  }
}
