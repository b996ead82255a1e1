/** The rows of the budget ledger, and what one transaction makes of them. */
module Budget {
  import opened Options

  // ---- rows --------------------------------------------------------------------------------

  /** What a row records. The first five are spend. A refusal by the run ceiling keeps a
      name of its own; every other refusal is a `Refusal`. */
  datatype Kind =
    | Reserved
    | Usage
    | Unknown
    | ProviderExhausted
    | NotSent
    | Refusal
    | RunOverCeiling
    | Overrun
    | BoundUnsound
    | Noted(name: string)

  predicate Spent(kind: Kind) {
    kind.Reserved? || kind.Usage? || kind.Unknown? || kind.ProviderExhausted? || kind.NotSent?
  }

  /** `seconds` is the instant `at`, read. A row's id is its place. */
  datatype Row = Row(job: string, request: string, kind: Kind, tokens: nat, estimate: nat, at: string, seconds: int)

  const WINDOW_TOKENS := 20_000_000
  const MONTH_TOKENS := 200_000_000
  const WINDOW_SECONDS := 18_000
  const PER_REQUEST_TOKENS := 250_000
  const PER_JOB_TOKENS := 1_000_000

  // ---- counting ----------------------------------------------------------------------------

  /** Which rows a counter counts. `Since` is everything after an instant. */
  datatype Scope = Everything | OfJob(job: string) | Since(seconds: int) | InMonth(month: string)

  /** What a counter adds up: what was spent, the part of it within its reservation, or the
      part above. */
  datatype Measure = Tokens | Within | Excess

  function MonthOf(at: string): string {
    if |at| < 7 then at else at[..7]
  }

  predicate Counts(scope: Scope, row: Row) {
    match scope
    case Everything => true
    case OfJob(job) => row.job == job
    case Since(seconds) => row.seconds > seconds
    case InMonth(month) => MonthOf(row.at) == month
  }

  function Part(measure: Measure, scope: Scope, row: Row): nat {
    if !Spent(row.kind) || !Counts(scope, row) then 0
    else
      match measure
      case Tokens => row.tokens
      case Within => if row.tokens <= row.estimate then row.tokens else row.estimate
      case Excess => if row.tokens <= row.estimate then 0 else row.tokens - row.estimate
  }

  function Total(rows: seq<Row>, measure: Measure, scope: Scope): nat {
    if rows == [] then 0
    else Total(rows[..|rows| - 1], measure, scope) + Part(measure, scope, rows[|rows| - 1])
  }

  // ---- one transaction ---------------------------------------------------------------------

  datatype Reservation = Reservation(id: nat, estimate: nat)

  datatype Settlement = UsageOf(tokens: nat) | UsageUnknown | NothingSpent | Exhausted

  datatype Denial = WindowExhausted | MonthExhausted | PerRequest | PerJob | RunCeiling | OverrunStop | UnsoundStop

  function KindOfDenial(denial: Denial): Kind {
    if denial.RunCeiling? then RunOverCeiling else Refusal
  }

  /** The store's own stop: an unsound bound is reported before an overrun. */
  function StopOf(rows: seq<Row>): Option<Denial> {
    if exists i :: 0 <= i < |rows| && rows[i].kind.BoundUnsound? then Some(UnsoundStop)
    else if exists i :: 0 <= i < |rows| && rows[i].kind.Overrun? then Some(OverrunStop)
    else None
  }

  /** The first limit the estimate would pass, ceilings before what is left of the quota. */
  function LimitPassed(rows: seq<Row>, at: string, seconds: int, job: string, estimate: nat, ceiling: Option<nat>)
    : Option<Denial>
  {
    if estimate > PER_REQUEST_TOKENS then Some(PerRequest)
    else if Total(rows, Tokens, OfJob(job)) + estimate > PER_JOB_TOKENS then Some(PerJob)
    else if Total(rows, Tokens, Since(seconds - WINDOW_SECONDS)) + estimate > WINDOW_TOKENS then Some(WindowExhausted)
    else if Total(rows, Tokens, InMonth(MonthOf(at))) + estimate > MONTH_TOKENS then Some(MonthExhausted)
    else if ceiling.Some? && Total(rows, Tokens, Everything) + estimate > ceiling.value then Some(RunCeiling)
    else None
  }

  /** Why an admission is denied, if it is: a stop of the store, a stop of the process, a limit. */
  function DenialOf(rows: seq<Row>, held: bool, at: string, seconds: int, job: string, estimate: nat,
                    ceiling: Option<nat>): Option<Denial>
  {
    var stop := StopOf(rows);
    if stop.Some? then stop
    else if held then Some(OverrunStop)
    else LimitPassed(rows, at, seconds, job, estimate, ceiling)
  }

  /** An admission writes one row, whichever way it goes. */
  function AdmissionRow(denial: Option<Denial>, at: string, seconds: int, job: string, request: string, estimate: nat): Row {
    if denial.Some? then Row(job, request, KindOfDenial(denial.value), 0, estimate, at, seconds)
    else Row(job, request, Reserved, estimate, estimate, at, seconds)
  }

  function KindOf(settlement: Settlement): Kind {
    match settlement
    case UsageOf(_) => Usage
    case UsageUnknown => Unknown
    case NothingSpent => NotSent
    case Exhausted => ProviderExhausted
  }

  /** What a call is charged: its bill, whole; its estimate when nobody said; or nothing. */
  function ChargeOf(settlement: Settlement, standing: nat): nat {
    match settlement
    case UsageOf(tokens) => tokens
    case UsageUnknown => standing
    case NothingSpent => 0
    case Exhausted => 0
  }

  predicate Overruns(reservation: Reservation, settlement: Settlement) {
    settlement.UsageOf? && settlement.tokens > reservation.estimate
  }

  predicate Standing(rows: seq<Row>, id: nat) {
    id < |rows| && rows[id].kind.Reserved?
  }

  function SettledRow(row: Row, settlement: Settlement, at: string, seconds: int): Row {
    row.(kind := KindOf(settlement), tokens := ChargeOf(settlement, row.tokens), at := at, seconds := seconds)
  }

  /** A reservation's row becomes its settlement, and a bill above it adds the row that stops
      the store. A reservation already settled takes nothing more. */
  function Settled(rows: seq<Row>, reservation: Reservation, settlement: Settlement, at: string, seconds: int): seq<Row> {
    if !Standing(rows, reservation.id) then rows
    else
      var row := rows[reservation.id];
      var settled := rows[reservation.id := SettledRow(row, settlement, at, seconds)];
      if Overruns(reservation, settlement)
      then settled + [Row(row.job, row.request, Overrun, settlement.tokens, reservation.estimate, at, seconds)]
      else settled
  }

  // ---- a store and the process that has it open --------------------------------------------------

  /** A settlement above its reservation that the store did not take. */
  datatype Unwritten = Unwritten(at: string, reservation: Reservation, tokens: nat)

  /** `kept` is the process's entry for this store: once there, an admission here is stopped
      whether or not anything is left in it. A store without a file never has one. */
  datatype State = State(rows: seq<Row>, hasFile: bool, kept: Option<seq<Unwritten>>)

  const EMPTY := State([], true, None)

  predicate KeptHere(kept: seq<Unwritten>, id: nat) {
    exists i :: 0 <= i < |kept| && kept[i].reservation.id == id
  }

  function Keep(state: State, at: string, reservation: Reservation, settlement: Settlement): Option<seq<Unwritten>> {
    if !Overruns(reservation, settlement) || !state.hasFile then state.kept
    else
      var kept := if state.kept.Some? then state.kept.value else [];
      Some(if KeptHere(kept, reservation.id) then kept
           else kept + [Unwritten(at, reservation, settlement.tokens)])
  }

  /** What is left once the ids in `written` have been. */
  function Left(kept: seq<Unwritten>, written: seq<nat>): seq<Unwritten> {
    if kept == [] then []
    else
      var left := Left(kept[..|kept| - 1], written);
      if kept[|kept| - 1].reservation.id in written then left else left + [kept[|kept| - 1]]
  }

  /** An instant as a caller gives it, and what `EpochSeconds` reads from it. */
  datatype Time = Time(text: string, seconds: Option<int>)

  /** Everything that happens to a store, one indivisible step at a time. `taken` is whether
      the store takes the transaction; one it does not take leaves no row. */
  datatype Step =
    | Admit(at: Time, job: string, request: string, estimate: nat, ceiling: Option<nat>, taken: bool)
    | Settle(at: Time, reservation: Reservation, settlement: Settlement, taken: bool)
    | Forget(written: seq<nat>)
    | Note(at: Time, job: string, request: string, kind: Kind, tokens: nat, estimate: nat, taken: bool)
    | Restart

  datatype Outcome = Granted(reservation: Reservation) | Denied(denial: Denial) | Failed

  function Answer(state: State, step: Step): Outcome
    requires step.Admit?
  {
    var seconds := step.at.seconds;
    if !step.taken || seconds.None? then (if state.kept.Some? then Denied(OverrunStop) else Failed)
    else
      var denial := DenialOf(state.rows, state.kept.Some?, step.at.text, seconds.value, step.job, step.estimate, step.ceiling);
      if denial.Some? then Denied(denial.value) else Granted(Reservation(|state.rows|, step.estimate))
  }

  /** What the store takes of a step: nothing, one more row, or a settlement. */
  datatype Change = Nothing | Append(row: Row) | Settling(reservation: Reservation, settlement: Settlement, at: string, seconds: int)

  function Taken(state: State, step: Step): Change {
    match step
    case Admit(at, job, request, estimate, ceiling, taken) =>
      if !taken || at.seconds.None? then Nothing
      else
        var denial := DenialOf(state.rows, state.kept.Some?, at.text, at.seconds.value, job, estimate, ceiling);
        Append(AdmissionRow(denial, at.text, at.seconds.value, job, request, estimate))
    case Settle(at, reservation, settlement, taken) =>
      if !taken || at.seconds.None? then Nothing else Settling(reservation, settlement, at.text, at.seconds.value)
    case Note(at, job, request, kind, tokens, estimate, taken) =>
      if !taken || at.seconds.None? then Nothing
      else Append(Row(job, request, kind, tokens, estimate, at.text, at.seconds.value))
    case _ => Nothing
  }

  function RowsAfter(rows: seq<Row>, change: Change): seq<Row> {
    match change
    case Nothing => rows
    case Append(row) => rows + [row]
    case Settling(reservation, settlement, at, seconds) => Settled(rows, reservation, settlement, at, seconds)
  }

  /** What the process keeps for this store after a step: a bill above its reservation when
      the store does not take it, until it is forgotten or the process ends. */
  function KeptAfter(state: State, step: Step): Option<seq<Unwritten>> {
    match step
    case Settle(at, reservation, settlement, taken) =>
      if taken && at.seconds.Some? then state.kept else Keep(state, at.text, reservation, settlement)
    case Forget(written) => if state.kept.None? then None else Some(Left(state.kept.value, written))
    case Restart => None
    case _ => state.kept
  }

  function Next(state: State, step: Step): State {
    State(RowsAfter(state.rows, Taken(state, step)), state.hasFile, KeptAfter(state, step))
  }

  /** A reservation in the hands of a caller: one this ledger granted. */
  predicate Issued(rows: seq<Row>, reservation: Reservation) {
    reservation.id < |rows| && Spent(rows[reservation.id].kind) && rows[reservation.id].estimate == reservation.estimate
  }

  /** What the callers do: settle what they were granted, forget what is settled, and note
      facts that are neither spend nor overruns. */
  predicate Legal(state: State, step: Step) {
    match step
    case Settle(_, reservation, _, _) => Issued(state.rows, reservation)
    case Forget(written) => forall id :: id in written ==> id < |state.rows| && !state.rows[id].kind.Reserved?
    case Note(_, _, _, kind, _, _, _) => kind.BoundUnsound? || kind.Noted?
    case _ => true
  }

  function After(state: State, steps: seq<Step>): State
    decreases |steps|
  {
    if steps == [] then state else After(Next(state, steps[0]), steps[1..])
  }

  ghost predicate LegalRun(state: State, steps: seq<Step>)
    decreases |steps|
  {
    steps == [] || (Legal(state, steps[0]) && LegalRun(Next(state, steps[0]), steps[1..]))
  }
}
