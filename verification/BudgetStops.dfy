/** Settlements land once, and a bill above its reservation stops the store. */
module BudgetStops {
  import opened Options
  import opened Budget
  import opened BudgetRuns

  // ---- rows are only added, and settle once ----------------------------------------------------

  /** What may become of a row: nothing, or the settlement of a standing reservation. */
  predicate Becomes(before: Row, after: Row) {
    || after == before
    || (before.kind.Reserved? && Spent(after.kind) && !after.kind.Reserved?
        && after.job == before.job && after.request == before.request && after.estimate == before.estimate)
  }

  ghost predicate Grows(before: seq<Row>, after: seq<Row>) {
    |before| <= |after| && forall i :: 0 <= i < |before| ==> Becomes(before[i], after[i])
  }

  lemma StepGrows(state: State, step: Step)
    ensures Grows(state.rows, Next(state, step).rows)
  {
    match Taken(state, step)
    case Settling(reservation, settlement, at, seconds) =>
      SettlementGrows(state.rows, reservation, settlement, at, seconds);
    case _ =>
  }

  lemma SettlementGrows(rows: seq<Row>, reservation: Reservation, settlement: Settlement, at: string, seconds: int)
    ensures Grows(rows, Settled(rows, reservation, settlement, at, seconds))
  {
  }

  lemma GrowsTwice(a: seq<Row>, b: seq<Row>, c: seq<Row>)
    requires Grows(a, b) && Grows(b, c)
    ensures Grows(a, c)
  {
    forall i | 0 <= i < |a|
      ensures Becomes(a[i], c[i])
    {
      assert Becomes(a[i], b[i]) && Becomes(b[i], c[i]);
    }
  }

  /** Over every run no row is lost, and a row changes at most once: from a reservation to
      its settlement. A settled row never changes again. */
  lemma {:induction false} RowsSettleOnce(state: State, steps: seq<Step>)
    ensures Grows(state.rows, After(state, steps).rows)
    ensures forall i :: 0 <= i < |state.rows| && !state.rows[i].kind.Reserved?
              ==> After(state, steps).rows[i] == state.rows[i]
    decreases |steps|
  {
    if steps != [] {
      StepGrows(state, steps[0]);
      RowsSettleOnce(Next(state, steps[0]), steps[1..]);
      GrowsTwice(state.rows, Next(state, steps[0]).rows, After(state, steps).rows);
    }
    forall i | 0 <= i < |state.rows| && !state.rows[i].kind.Reserved?
      ensures After(state, steps).rows[i] == state.rows[i]
    {
      assert Becomes(state.rows[i], After(state, steps).rows[i]);
    }
  }

  // ---- stops -------------------------------------------------------------------------------

  predicate Stopped(state: State) {
    StopOf(state.rows).Some? || state.kept.Some?
  }

  ghost predicate NoRestart(steps: seq<Step>) {
    forall step :: step in steps ==> !step.Restart?
  }

  /** No admission of the run is granted. */
  ghost predicate NoneGranted(state: State, steps: seq<Step>)
    decreases |steps|
  {
    steps == []
    || ((steps[0].Admit? ==> !Answer(state, steps[0]).Granted?) && NoneGranted(Next(state, steps[0]), steps[1..]))
  }

  lemma StopStays(before: seq<Row>, after: seq<Row>)
    requires Grows(before, after) && StopOf(before).Some?
    ensures StopOf(after).Some?
  {
    var i :| 0 <= i < |before| && (before[i].kind.BoundUnsound? || before[i].kind.Overrun?);
    assert Becomes(before[i], after[i]);
  }

  lemma StepStaysStopped(state: State, step: Step)
    requires Stopped(state) && (StopOf(state.rows).Some? || !step.Restart?)
    ensures Stopped(Next(state, step)) && (StopOf(state.rows).Some? ==> StopOf(Next(state, step).rows).Some?)
    ensures step.Admit? ==> !Answer(state, step).Granted?
  {
    StepGrows(state, step);
    if StopOf(state.rows).Some? {
      StopStays(state.rows, Next(state, step).rows);
    }
  }

  /** A stop holds: the store's for good, the process's until the process ends. */
  lemma {:induction false} StopHolds(state: State, steps: seq<Step>)
    requires Stopped(state) && (StopOf(state.rows).Some? || NoRestart(steps))
    ensures NoneGranted(state, steps) && Stopped(After(state, steps))
    decreases |steps|
  {
    if steps != [] {
      assert steps[0] in steps && forall step :: step in steps[1..] ==> step in steps;
      StepStaysStopped(state, steps[0]);
      StopHolds(Next(state, steps[0]), steps[1..]);
    }
  }

  /** Once a bill above its reservation is settled, no admission is ever granted again,
      whatever restarts come; and when the store did not take it, none is in this process,
      as long as the store has a file. */
  lemma OverrunStopsTheStore(state: State, step: Step, steps: seq<Step>)
    requires step.Settle? && Overruns(step.reservation, step.settlement)
    requires Standing(state.rows, step.reservation.id)
    ensures step.taken && step.at.seconds.Some? ==> NoneGranted(Next(state, step), steps)
    ensures state.hasFile && NoRestart(steps) ==> NoneGranted(Next(state, step), steps)
  {
    var after := Next(state, step);
    if step.taken && step.at.seconds.Some? {
      assert after.rows[|state.rows|].kind.Overrun?;
      StopHolds(after, steps);
    } else if state.hasFile && NoRestart(steps) {
      StopHolds(after, steps);
    }
  }

  /** What can stop a store: a bill above its reservation, or an unsound bound on record. */
  predicate Alarming(step: Step) {
    || (step.Settle? && Overruns(step.reservation, step.settlement))
    || (step.Note? && step.kind.BoundUnsound?)
  }

  /** A store is stopped by nothing else. */
  lemma {:induction false} StoppedByNothingElse(state: State, steps: seq<Step>)
    requires !Stopped(state) && LegalRun(state, steps)
    requires forall step :: step in steps ==> !Alarming(step)
    ensures !Stopped(After(state, steps))
    decreases |steps|
  {
    if steps != [] {
      assert steps[0] in steps && forall step :: step in steps[1..] ==> step in steps;
      NotAlarmed(state, steps[0]);
      StoppedByNothingElse(Next(state, steps[0]), steps[1..]);
    }
  }

  lemma NotAlarmed(state: State, step: Step)
    requires !Stopped(state) && Legal(state, step) && !Alarming(step)
    ensures !Stopped(Next(state, step))
  {
    match Taken(state, step)
    case Append(row) =>
      AppendsNewRow(state, step);
      assert !row.kind.BoundUnsound? && !row.kind.Overrun?;
    case Settling(reservation, settlement, at, seconds) =>
      SettlesIssued(state, step);
    case Nothing =>
  }

  /** While a store is stopped, spend within reservations does not grow. */
  lemma {:induction false} StopFreezesSpend(state: State, steps: seq<Step>)
    requires Stopped(state) && (StopOf(state.rows).Some? || NoRestart(steps))
    requires Sound(state.rows) && LegalRun(state, steps)
    ensures Total(After(state, steps).rows, Within, Everything) <= Total(state.rows, Within, Everything)
    decreases |steps|
  {
    if steps != [] {
      assert steps[0] in steps && forall step :: step in steps[1..] ==> step in steps;
      StepStaysStopped(state, steps[0]);
      StepKeepsSound(state, steps[0]);
      StoppedStep(state, steps[0]);
      StopFreezesSpend(Next(state, steps[0]), steps[1..]);
    }
  }

  lemma StoppedStep(state: State, step: Step)
    requires Stopped(state) && Sound(state.rows) && Legal(state, step)
    ensures Total(Next(state, step).rows, Within, Everything) <= Total(state.rows, Within, Everything)
  {
    match Taken(state, step)
    case Append(row) =>
      AppendsNewRow(state, step);
      assert !Spent(row.kind);
      TotalOfMore(state.rows, row, Within, Everything);
    case Settling(reservation, settlement, at, seconds) =>
      SettlesIssued(state, step);
      if Standing(state.rows, reservation.id) {
        SettlementKeepsLimit(JobLimit(""), state, step, seconds);
        assert SoundRow(state.rows[reservation.id]);
        SettlementCounted(state.rows, reservation, settlement, at, seconds, Within, Everything);
      }
    case Nothing =>
  }

  // ---- what a process keeps ---------------------------------------------------------------------

  /** A bill the process keeps is kept until its reservation is settled, as long as the
      process lives. */
  lemma {:induction false} KeptUntilSettled(state: State, steps: seq<Step>, bill: Unwritten)
    requires state.kept.Some? && bill in state.kept.value
    requires LegalRun(state, steps) && NoRestart(steps)
    ensures var after := After(state, steps);
            && after.kept.Some?
            && (bill in after.kept.value
                || (bill.reservation.id < |after.rows| && !Standing(after.rows, bill.reservation.id)))
    decreases |steps|
  {
    if steps != [] {
      assert steps[0] in steps && forall step :: step in steps[1..] ==> step in steps;
      var next := Next(state, steps[0]);
      KeptAStep(state, steps[0], bill);
      if bill in next.kept.value {
        KeptUntilSettled(next, steps[1..], bill);
      } else {
        StaysKept(next, steps[1..]);
        RowsSettleOnce(next, steps[1..]);
      }
    }
  }

  lemma KeptAStep(state: State, step: Step, bill: Unwritten)
    requires state.kept.Some? && bill in state.kept.value && Legal(state, step) && !step.Restart?
    ensures var next := Next(state, step);
            && next.kept.Some?
            && (bill in next.kept.value
                || (bill.reservation.id < |next.rows| && !Standing(next.rows, bill.reservation.id)))
  {
    if step.Forget? {
      LeftOnes(state.kept.value, step.written, bill);
    }
  }

  lemma {:induction false} LeftOnes(kept: seq<Unwritten>, written: seq<nat>, bill: Unwritten)
    ensures bill in Left(kept, written) <==> bill in kept && bill.reservation.id !in written
  {
    if kept != [] {
      LeftOnes(kept[..|kept| - 1], written, bill);
      assert kept == kept[..|kept| - 1] + [kept[|kept| - 1]];
    }
  }

  lemma {:induction false} StaysKept(state: State, steps: seq<Step>)
    requires state.kept.Some? && NoRestart(steps)
    ensures After(state, steps).kept.Some?
    decreases |steps|
  {
    if steps != [] {
      assert steps[0] in steps && forall step :: step in steps[1..] ==> step in steps;
      StaysKept(Next(state, steps[0]), steps[1..]);
    }
  }
}
