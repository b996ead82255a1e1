/** The ledger over a store's rows and what its process keeps. Each method is a run of the
    steps of `Budget`, so what every run keeps, every use of the ledger keeps. */
module Ledger {
  import opened Options
  import opened Budget
  import opened BudgetRuns
  import opened BudgetStops
  import Instants

  /** One database. `file` is its path, when it has one. */
  class Store {
    const file: Option<string>
    var rows: seq<Row>

    constructor (file: Option<string>)
      ensures this.file == file && rows == []
    {
      this.file := file;
      rows := [];
    }
  }

  /** What one process keeps, by database file. */
  class Process {
    var unwritten: map<string, seq<Unwritten>>

    constructor ()
      ensures unwritten == map[]
    {
      unwritten := map[];
    }
  }

  /** Nothing kept for another file is touched. */
  ghost predicate OnlyFor(file: Option<string>, before: map<string, seq<Unwritten>>, after: map<string, seq<Unwritten>>) {
    forall other :: Some(other) != file
      ==> (other in after <==> other in before) && (other in before ==> after[other] == before[other])
  }

  function Read(at: string): Time {
    Time(at, Instants.EpochSeconds(at))
  }

  // ---- what is tried ---------------------------------------------------------------------------

  /** Whether the store takes the `i`th of several transactions. */
  predicate TakesOne(fates: seq<bool>, i: nat) {
    i < |fates| && fates[i]
  }

  /** What the process does about a bill it kept: settle it whole, at its own instant. */
  function Try(bill: Unwritten, taken: bool): Step {
    Step.Settle(Read(bill.at), bill.reservation, UsageOf(bill.tokens), taken)
  }

  function Tries(kept: seq<Unwritten>, fates: seq<bool>, n: nat): (steps: seq<Step>)
    requires n <= |kept|
    ensures |steps| == n && forall i :: 0 <= i < n ==> steps[i] == Try(kept[i], TakesOne(fates, i))
  {
    seq(n, i requires 0 <= i < n => Try(kept[i], TakesOne(fates, i)))
  }

  /** The reservations among the first `n` whose bills the store took. */
  function Written(kept: seq<Unwritten>, fates: seq<bool>, n: nat): seq<nat>
    requires n <= |kept|
  {
    if n == 0 then []
    else
      var before := Written(kept, fates, n - 1);
      if TakesOne(fates, n - 1) && Read(kept[n - 1].at).seconds.Some? then before + [kept[n - 1].reservation.id] else before
  }

  lemma OneMoreTry(kept: seq<Unwritten>, fates: seq<bool>, n: nat)
    requires n < |kept|
    ensures Tries(kept, fates, n + 1) == Tries(kept, fates, n) + [Try(kept[n], TakesOne(fates, n))]
  {
  }

  /** Each kept bill tried once, in order, and then those the store took forgotten. */
  function WritingOf(kept: Option<seq<Unwritten>>, fates: seq<bool>): seq<Step> {
    if kept.None? then []
    else Tries(kept.value, fates, |kept.value|) + [Forget(Written(kept.value, fates, |kept.value|))]
  }

  /** The settlement of a reservation left standing, to what is on record for it. */
  predicate IsCatchUp(step: Step, rows: seq<Row>, bills: map<nat, nat>) {
    && step.Settle? && Overdue(rows, bills, step.reservation.id)
    && step.reservation.estimate == rows[step.reservation.id].estimate
    && step.settlement == UsageOf(bills[step.reservation.id])
    && step.at == Read(rows[step.reservation.id].at)
  }

  class Ledger {
    const store: Store
    const process: Process
    const ceiling: Option<nat>

    constructor (store: Store, process: Process, ceiling: Option<nat>)
      ensures this.store == store && this.process == process && this.ceiling == ceiling
    {
      this.store := store;
      this.process := process;
      this.ceiling := ceiling;
    }

    /** A process started anew on a store keeps nothing: only the store's own rows speak. */
    static method Start(store: Store, ceiling: Option<nat>) returns (ledger: Ledger)
      ensures fresh(ledger) && fresh(ledger.process) && ledger.store == store && ledger.Valid()
      ensures ledger.View() == State(store.rows, store.file.Some?, None)
    {
      var process := new Process();
      ledger := new Ledger(store, process, ceiling);
    }

    function Kept(): Option<seq<Unwritten>>
      reads process
    {
      if store.file.Some? && store.file.value in process.unwritten then Some(process.unwritten[store.file.value]) else None
    }

    ghost function View(): State
      reads store, process
    {
      State(store.rows, store.file.Some?, Kept())
    }

    /** Whatever is kept is the settlement of a reservation this store granted. */
    ghost predicate Valid()
      reads store, process
    {
      KeptIssued(View())
    }

    predicate HoldsAStop()
      reads process
    {
      store.file.Some? && store.file.value in process.unwritten
    }

    /** One admission in one transaction, the stops read under its lock. */
    method AdmitOnce(at: string, job: string, request: string, estimate: nat, taken: bool) returns (outcome: Outcome)
      modifies store
      ensures var step := Step.Admit(Read(at), job, request, estimate, ceiling, taken);
              && View() == Next(old(View()), step)
              && (outcome == Failed || outcome == Answer(old(View()), step))
              && (outcome == Failed <==> !taken || Read(at).seconds.None?)
    {
      var time := Read(at);
      if !taken || time.seconds.None? {
        return Failed;
      }
      var denial := StopOf(store.rows);
      if denial.None? && HoldsAStop() {
        denial := Some(OverrunStop);
      }
      if denial.None? {
        denial := LimitPassed(store.rows, at, time.seconds.value, job, estimate, ceiling);
      }
      if denial.Some? {
        store.rows := store.rows + [Row(job, request, KindOfDenial(denial.value), 0, estimate, at, time.seconds.value)];
        outcome := Denied(denial.value);
      } else {
        outcome := Granted(Reservation(|store.rows|, estimate));
        store.rows := store.rows + [Row(job, request, Reserved, estimate, estimate, at, time.seconds.value)];
      }
    }

    /** A settlement in one transaction; what the store does not take and is above its
        reservation, the process keeps, once. */
    method SettleOnce(at: string, reservation: Reservation, settlement: Settlement, taken: bool) returns (done: bool)
      requires Valid() && Issued(store.rows, reservation)
      modifies store, process
      ensures Valid() && View() == Next(old(View()), Step.Settle(Read(at), reservation, settlement, taken))
      ensures done <==> taken && Read(at).seconds.Some?
      ensures done ==> process.unwritten == old(process.unwritten) && !Standing(store.rows, reservation.id)
      ensures Grows(old(store.rows), store.rows)
      ensures OnlyFor(store.file, old(process.unwritten), process.unwritten)
    {
      var time := Read(at);
      ghost var before := View();
      done := taken && time.seconds.Some?;
      if done {
        store.rows := Settled(store.rows, reservation, settlement, at, time.seconds.value);
      } else {
        KeepUnwritten(at, reservation, settlement);
      }
      SettleKeepsIssued(before, Step.Settle(time, reservation, settlement, taken));
      StepGrows(before, Step.Settle(time, reservation, settlement, taken));
    }

    method KeepUnwritten(at: string, reservation: Reservation, settlement: Settlement)
      modifies process
      ensures Kept() == Keep(old(View()), at, reservation, settlement)
      ensures OnlyFor(store.file, old(process.unwritten), process.unwritten)
    {
      if settlement.UsageOf? && settlement.tokens > reservation.estimate && store.file.Some? {
        var file := store.file.value;
        var kept := if file in process.unwritten then process.unwritten[file] else [];
        if !KeptHere(kept, reservation.id) {
          kept := kept + [Unwritten(at, reservation, settlement.tokens)];
        }
        process.unwritten := process.unwritten[file := kept];
      }
    }

    /** A reservation settles: its charge replaces its estimate, once. */
    method Settle(at: string, reservation: Reservation, settlement: Settlement, taken: bool) returns (done: bool)
      requires Valid() && Issued(store.rows, reservation)
      modifies store, process
      ensures Valid() && View() == Next(old(View()), Step.Settle(Read(at), reservation, settlement, taken))
      ensures done <==> taken && Read(at).seconds.Some?
      ensures OnlyFor(store.file, old(process.unwritten), process.unwritten)
    {
      done := SettleOnce(at, reservation, settlement, taken);
    }

    /** Write what is kept, where the store takes it (`fates` says of each), and keep the rest. */
    method WriteUnwritten(fates: seq<bool>) returns (ghost steps: seq<Step>)
      requires Valid()
      modifies store, process
      ensures Valid() && Ran(old(View()), steps, View())
      ensures steps == WritingOf(old(Kept()), fates)
      ensures OnlyFor(store.file, old(process.unwritten), process.unwritten)
    {
      steps := [];
      if Kept().None? {
        return;
      }
      var kept := Kept().value;
      var written: seq<nat> := [];
      var i := 0;
      while i < |kept|
        invariant 0 <= i <= |kept|
        invariant Valid() && Ran(old(View()), steps, View()) && Kept() == Some(kept)
        invariant steps == Tries(kept, fates, i) && written == Written(kept, fates, i)
        invariant AllSettled(store.rows, written)
        invariant OnlyFor(store.file, old(process.unwritten), process.unwritten)
      {
        ghost var before := View();
        ghost var step := Try(kept[i], TakesOne(fates, i));
        var done := WriteOne(kept[i], TakesOne(fates, i));
        OneMoreTry(kept, fates, i);
        SettledStaysSettled(before.rows, store.rows, written);
        if done {
          written := written + [kept[i].reservation.id];
        }
        StepAtTheEnd(old(View()), steps, before, step);
        steps := steps + [step];
        i := i + 1;
      }
      Forgets(written);
      StepAtTheEnd(old(View()), steps, State(store.rows, true, Some(kept)), Forget(written));
      steps := steps + [Forget(written)];
    }

    /** Try one kept bill: settled or not, it is kept until it is forgotten. */
    method WriteOne(bill: Unwritten, taken: bool) returns (done: bool)
      requires Valid() && Kept().Some? && bill in Kept().value
      modifies store, process
      ensures Valid() && Legal(old(View()), Try(bill, taken)) && View() == Next(old(View()), Try(bill, taken))
      ensures Kept() == old(Kept()) && Grows(old(store.rows), store.rows)
      ensures done <==> taken && Read(bill.at).seconds.Some?
      ensures done ==> bill.reservation.id < |store.rows| && !store.rows[bill.reservation.id].kind.Reserved?
      ensures OnlyFor(store.file, old(process.unwritten), process.unwritten)
    {
      assert Issued(store.rows, bill.reservation);
      done := SettleOnce(bill.at, bill.reservation, UsageOf(bill.tokens), taken);
      assert Issued(store.rows, bill.reservation);
    }

    /** Forget the bills that have been written. */
    method Forgets(written: seq<nat>)
      requires Valid() && Kept().Some?
      modifies process
      ensures Valid() && View() == Next(old(View()), Forget(written))
      ensures OnlyFor(store.file, old(process.unwritten), process.unwritten)
    {
      ghost var before := View();
      process.unwritten := process.unwritten[store.file.value := Left(Kept().value, written)];
      LeftIssued(before, written);
    }

    /** An admission: what is kept is written first, and is a stop either way. */
    method Admit(at: string, job: string, request: string, estimate: nat, fates: seq<bool>, taken: bool)
      returns (outcome: Outcome, ghost steps: seq<Step>)
      requires Valid()
      modifies store, process
      ensures Valid() && Ran(old(View()), steps, View())
      ensures steps == WritingOf(old(Kept()), fates) + [Step.Admit(Read(at), job, request, estimate, ceiling, taken)]
      ensures outcome == Answer(After(old(View()), steps[..|steps| - 1]), steps[|steps| - 1])
      ensures Stopped(old(View())) ==> !outcome.Granted?
      ensures outcome.Granted? ==> Standing(store.rows, outcome.reservation.id) && Issued(store.rows, outcome.reservation)
      ensures OnlyFor(store.file, old(process.unwritten), process.unwritten)
    {
      steps := WriteUnwritten(fates);
      ghost var step := Step.Admit(Read(at), job, request, estimate, ceiling, taken);
      ghost var middle := View();
      if Stopped(old(View())) {
        StopHolds(old(View()), steps);
      }
      outcome := AdmitOnce(at, job, request, estimate, taken);
      if outcome.Failed? && HoldsAStop() {
        outcome := Denied(OverrunStop);
      }
      AdmitKeepsIssued(middle, step);
      StepAtTheEnd(old(View()), steps, middle, step);
      assert (steps + [step])[..|steps|] == steps;
      steps := steps + [step];
    }

    /** A start, before anything is admitted: each reservation left standing by a process that
        was killed is settled to what its recorded exchange says it was billed, when that is
        above it. `bills` is what the exchanges say. */
    method Reconcile(bills: map<nat, nat>, fates: seq<bool>) returns (done: bool, ghost steps: seq<Step>)
      requires Valid()
      modifies store, process
      ensures Valid() && Ran(old(View()), steps, View())
      ensures forall step :: step in steps ==> IsCatchUp(step, old(store.rows), bills)
      ensures done ==>
                forall id :: Overdue(old(store.rows), bills, id) ==> IsSettled(store.rows, id) && StopOf(store.rows).Some?
      ensures OnlyFor(store.file, old(process.unwritten), process.unwritten)
    {
      steps := [];
      var standing := store.rows;
      for id := 0 to |standing|
        invariant Valid() && Ran(old(View()), steps, View())
        invariant Grows(standing, store.rows)
        invariant forall step :: step in steps ==> IsCatchUp(step, standing, bills)
        invariant forall earlier :: 0 <= earlier < id && Overdue(standing, bills, earlier) ==>
                    IsSettled(store.rows, earlier) && StopOf(store.rows).Some?
        invariant forall later :: id <= later < |standing| ==> store.rows[later] == standing[later]
        invariant OnlyFor(store.file, old(process.unwritten), process.unwritten)
      {
        if Overdue(standing, bills, id) {
          var reservation, bill := Reservation(id, standing[id].estimate), UsageOf(bills[id]);
          var taken := TakesOne(fates, id);
          ghost var before := store.rows;
          ghost var step := Step.Settle(Read(standing[id].at), reservation, bill, taken);
          StepAtTheEnd(old(View()), steps, View(), step);
          var settled := SettleOnce(standing[id].at, reservation, bill, taken);
          steps := steps + [step];
          GrowsTwice(standing, before, store.rows);
          if !settled {
            return false, steps;
          }
          SettledStops(before, reservation, bill, step.at.text, step.at.seconds.value);
          StillSettled(before, store.rows, id);
        }
      }
      done := true;
    }

    method Note(at: string, job: string, request: string, kind: Kind, tokens: nat, estimate: nat, taken: bool)
      requires Valid()
      modifies store
      ensures Valid() && View() == Next(old(View()), Step.Note(Read(at), job, request, kind, tokens, estimate, taken))
    {
      var time := Read(at);
      if taken && time.seconds.Some? {
        store.rows := store.rows + [Row(job, request, kind, tokens, estimate, at, time.seconds.value)];
      }
    }
  }

  predicate KeptIssued(state: State) {
    state.kept.Some? ==> forall i :: 0 <= i < |state.kept.value| ==> Issued(state.rows, state.kept.value[i].reservation)
  }

  lemma GrownIssued(before: seq<Row>, after: seq<Row>, reservation: Reservation)
    requires Grows(before, after) && Issued(before, reservation)
    ensures Issued(after, reservation)
  {
    assert Becomes(before[reservation.id], after[reservation.id]);
  }

  lemma SettleKeepsIssued(state: State, step: Step)
    requires KeptIssued(state) && step.Settle? && Issued(state.rows, step.reservation)
    ensures KeptIssued(Next(state, step))
  {
    var next := Next(state, step);
    StepGrows(state, step);
    if next.kept.Some? {
      forall i | 0 <= i < |next.kept.value|
        ensures Issued(next.rows, next.kept.value[i].reservation)
      {
        GrownIssued(state.rows, next.rows, next.kept.value[i].reservation);
      }
    }
  }

  lemma AdmitKeepsIssued(state: State, step: Step)
    requires KeptIssued(state) && step.Admit?
    ensures KeptIssued(Next(state, step))
    ensures var answer := Answer(state, step);
            answer.Granted? ==> Issued(Next(state, step).rows, answer.reservation) && Standing(Next(state, step).rows, answer.reservation.id)
    ensures Stopped(state) ==> !Answer(state, step).Granted?
  {
  }

  /** The steps a legal run of one process takes from `before` to `after`. */
  ghost predicate Ran(before: State, steps: seq<Step>, after: State) {
    LegalRun(before, steps) && NoRestart(steps) && after == After(before, steps)
  }

  lemma StepAtTheEnd(before: State, steps: seq<Step>, state: State, step: Step)
    requires Ran(before, steps, state) && Legal(state, step) && !step.Restart?
    ensures Ran(before, steps + [step], Next(state, step))
  {
    assert [step][1..] == [] && LegalRun(Next(state, step), [step][1..]);
    assert LegalRun(state, [step]);
    RunOnRun(before, steps, [step]);
  }

  predicate AllSettled(rows: seq<Row>, ids: seq<nat>) {
    forall id :: id in ids ==> id < |rows| && !rows[id].kind.Reserved?
  }

  lemma SettledStaysSettled(before: seq<Row>, after: seq<Row>, ids: seq<nat>)
    requires Grows(before, after) && AllSettled(before, ids)
    ensures AllSettled(after, ids)
  {
    forall id | id in ids
      ensures id < |after| && !after[id].kind.Reserved?
    {
      assert Becomes(before[id], after[id]);
    }
  }

  lemma LeftIssued(state: State, written: seq<nat>)
    requires KeptIssued(state) && state.kept.Some?
    ensures KeptIssued(state.(kept := Some(Left(state.kept.value, written))))
  {
    var left := Left(state.kept.value, written);
    forall i | 0 <= i < |left|
      ensures Issued(state.rows, left[i].reservation)
    {
      LeftOnes(state.kept.value, written, left[i]);
    }
  }

  /** A reservation left standing, whose call is on record as billed above it. */
  predicate Overdue(rows: seq<Row>, bills: map<nat, nat>, id: nat) {
    Standing(rows, id) && id in bills && bills[id] > rows[id].estimate
  }

  predicate IsSettled(rows: seq<Row>, id: nat) {
    id < |rows| && Spent(rows[id].kind) && !rows[id].kind.Reserved?
  }

  lemma SettledStops(rows: seq<Row>, reservation: Reservation, settlement: Settlement, at: string, seconds: int)
    requires Standing(rows, reservation.id) && Overruns(reservation, settlement)
    ensures var after := Settled(rows, reservation, settlement, at, seconds);
            && IsSettled(after, reservation.id) && StopOf(after).Some?
            && forall other :: 0 <= other < |rows| && other != reservation.id ==> after[other] == rows[other]
  {
    var after := Settled(rows, reservation, settlement, at, seconds);
    assert after[|rows|].kind.Overrun?;
  }

  lemma StillSettled(before: seq<Row>, after: seq<Row>, below: nat)
    requires Grows(before, after)
    ensures StopOf(before).Some? ==> StopOf(after).Some?
    ensures forall id :: 0 <= id < below && IsSettled(before, id) ==> IsSettled(after, id)
  {
    if StopOf(before).Some? {
      StopStays(before, after);
    }
    forall id | 0 <= id < below && IsSettled(before, id)
      ensures IsSettled(after, id)
    {
      assert Becomes(before[id], after[id]);
    }
  }
}
