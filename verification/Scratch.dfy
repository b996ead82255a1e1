/** What a derived value means, with no memo, no revision and no durability: the
    from-scratch computation that the evaluator in `Evaluator.dfy` must agree with.

    A registered function is a deterministic reader. Given the answers it has been
    handed so far, it asks for a key, declares an untracked read, or ends. A read of
    a key that fails ends the computation with that failure. */
module Scratch {
  import opened Bytes

  type Key = string
  type Value = seq<Byte>

  datatype EvalError =
    | Cycle(stack: seq<Key>)
    | UnknownFunction(name: string)
    | Function(reason: string)

  /** What a computation has been told: the value of a key it read, or, once it has
      declared an untracked read, the state of what the graph does not record. */
  datatype Answer = Got(value: Value) | Outside(state: Value)

  datatype Step = Read(key: Key) | ReportUntracked | Return(value: Value) | Fail(reason: string)

  type Computation = (string, seq<Answer>) -> Step
  type Functions = map<string, Computation>

  /** Everything a from-scratch computation can see. */
  datatype World = World(functions: Functions, inputs: map<Key, Value>, outside: Value)

  datatype Outcome = Unfinished | Failed(error: EvalError) | Done(value: Value)

  // ---- keys ------------------------------------------------------------------

  function MakeKey(name: string, argument: string): Key {
    name + ":" + argument
  }

  /** The part of a key before its first colon, or all of it. */
  function NameOf(key: Key): string {
    if key == "" || key[0] == ':' then "" else [key[0]] + NameOf(key[1..])
  }

  /** The part of a key after its first colon, or nothing. */
  function ArgumentOf(key: Key): string {
    if key == "" then "" else if key[0] == ':' then key[1..] else ArgumentOf(key[1..])
  }

  lemma {:induction false} SplitUndoesMakeKey(name: string, argument: string)
    requires ':' !in name
    ensures NameOf(MakeKey(name, argument)) == name
    ensures ArgumentOf(MakeKey(name, argument)) == argument
  {
    var key := MakeKey(name, argument);
    if name == "" {
      assert key[1..] == argument;
    } else {
      assert key[1..] == MakeKey(name[1..], argument);
      SplitUndoesMakeKey(name[1..], argument);
    }
  }

  // ---- the computation -------------------------------------------------------

  function Ask(functions: Functions, key: Key, answers: seq<Answer>): Step
    requires NameOf(key) in functions
  {
    functions[NameOf(key)](ArgumentOf(key), answers)
  }

  /** The value of a key computed from scratch, or `Unfinished` when `fuel` reads are
      not enough. */
  function Eval(w: World, fuel: nat, key: Key): Outcome
    decreases fuel, 1
  {
    if key in w.inputs then Done(w.inputs[key])
    else if NameOf(key) !in w.functions then Failed(UnknownFunction(NameOf(key)))
    else Run(w, fuel, key, [])
  }

  function Run(w: World, fuel: nat, key: Key, answers: seq<Answer>): Outcome
    requires NameOf(key) in w.functions
    decreases fuel, 0
  {
    match Ask(w.functions, key, answers)
    case Return(value) => Done(value)
    case Fail(reason) => Failed(Function(reason))
    case ReportUntracked =>
      if fuel == 0 then Unfinished
      else Run(w, fuel - 1, key, answers + [Outside(w.outside)])
    case Read(dependency) =>
      if fuel == 0 then Unfinished
      else
        var read := Eval(w, fuel - 1, dependency);
        if read.Done? then Run(w, fuel - 1, key, answers + [Got(read.value)]) else read
  }

  /** The from-scratch outcome of `key` is `outcome`. */
  ghost predicate Is(w: World, key: Key, outcome: Outcome) {
    !outcome.Unfinished? && exists fuel: nat :: Eval(w, fuel, key) == outcome
  }

  /** The from-scratch computation of `key` never ends. */
  ghost predicate Diverges(w: World, key: Key) {
    forall fuel: nat :: Eval(w, fuel, key).Unfinished?
  }

  lemma {:induction false} MoreFuel(w: World, less: nat, more: nat, key: Key)
    requires less <= more && !Eval(w, less, key).Unfinished?
    ensures Eval(w, more, key) == Eval(w, less, key)
    decreases less, 1
  {
    if key !in w.inputs && NameOf(key) in w.functions {
      MoreFuelRun(w, less, more, key, []);
    }
  }

  lemma {:induction false} MoreFuelRun(w: World, less: nat, more: nat, key: Key, answers: seq<Answer>)
    requires NameOf(key) in w.functions
    requires less <= more && !Run(w, less, key, answers).Unfinished?
    ensures Run(w, more, key, answers) == Run(w, less, key, answers)
    decreases less, 0
  {
    match Ask(w.functions, key, answers)
    case Return(_) =>
    case Fail(_) =>
    case ReportUntracked =>
      MoreFuelRun(w, less - 1, more - 1, key, answers + [Outside(w.outside)]);
    case Read(dependency) =>
      MoreFuel(w, less - 1, more - 1, dependency);
      var read := Eval(w, less - 1, dependency);
      if read.Done? {
        MoreFuelRun(w, less - 1, more - 1, key, answers + [Got(read.value)]);
      }
  }

  /** A key has one from-scratch outcome. */
  lemma OneOutcome(w: World, key: Key, a: Outcome, b: Outcome)
    requires Is(w, key, a) && Is(w, key, b)
    ensures a == b
  {
    var m: nat :| Eval(w, m, key) == a;
    var n: nat :| Eval(w, n, key) == b;
    MoreFuel(w, if m < n then m else n, if m < n then n else m, key);
  }

  // ---- traces ----------------------------------------------------------------

  /** `answers` are what the computation of `key` is told in `w`, in order. */
  ghost predicate Traces(w: World, key: Key, answers: seq<Answer>) {
    && NameOf(key) in w.functions
    && forall j :: 0 <= j < |answers| ==> Answered(w, key, answers, j)
  }

  ghost predicate Answered(w: World, key: Key, answers: seq<Answer>, j: nat)
    requires NameOf(key) in w.functions && j < |answers|
  {
    match Ask(w.functions, key, answers[..j])
    case Read(dependency) => answers[j].Got? && Is(w, dependency, Done(answers[j].value))
    case ReportUntracked => answers[j] == Outside(w.outside)
    case _ => false
  }

  lemma TracesPrefix(w: World, key: Key, answers: seq<Answer>, j: nat)
    requires Traces(w, key, answers) && j <= |answers|
    ensures Traces(w, key, answers[..j])
  {
    forall i | 0 <= i < j ensures Answered(w, key, answers[..j], i) {
      assert answers[..j][..i] == answers[..i];
      assert Answered(w, key, answers, i);
    }
  }

  lemma TracesExtend(w: World, key: Key, answers: seq<Answer>, answer: Answer)
    requires Traces(w, key, answers)
    requires Answered(w, key, answers + [answer], |answers|)
    ensures Traces(w, key, answers + [answer])
  {
    var longer := answers + [answer];
    forall i | 0 <= i < |longer| ensures Answered(w, key, longer, i) {
      if i < |answers| {
        assert longer[..i] == answers[..i];
        assert Answered(w, key, answers, i);
      }
    }
  }

  /** What a computation comes to after a trace is what it comes to. */
  lemma {:induction false} RunFromTrace(w: World, key: Key, answers: seq<Answer>, fuel: nat)
    returns (whole: nat)
    requires Traces(w, key, answers)
    requires !Run(w, fuel, key, answers).Unfinished?
    ensures Run(w, whole, key, []) == Run(w, fuel, key, answers)
    decreases |answers|
  {
    if answers == [] {
      whole := fuel;
    } else {
      var last := |answers| - 1;
      var before := answers[..last];
      assert answers == before + [answers[last]];
      assert Answered(w, key, answers, last);
      TracesPrefix(w, key, answers, last);
      var need := fuel;
      match Ask(w.functions, key, before) {
        case ReportUntracked =>
        case Read(dependency) =>
          var n: nat :| Eval(w, n, dependency) == Done(answers[last].value);
          need := if fuel < n then n else fuel;
          MoreFuel(w, n, need, dependency);
      }
      MoreFuelRun(w, fuel, need, key, answers);
      assert Run(w, need + 1, key, before) == Run(w, need, key, answers);
      whole := RunFromTrace(w, key, before, need + 1);
    }
  }

  lemma TraceReturns(w: World, key: Key, answers: seq<Answer>)
    requires key !in w.inputs && Traces(w, key, answers)
    requires Ask(w.functions, key, answers).Return?
    ensures Is(w, key, Done(Ask(w.functions, key, answers).value))
  {
    var n := RunFromTrace(w, key, answers, 0);
    assert Eval(w, n, key) == Run(w, n, key, []);
  }

  lemma TraceFails(w: World, key: Key, answers: seq<Answer>)
    requires key !in w.inputs && Traces(w, key, answers)
    requires Ask(w.functions, key, answers).Fail?
    ensures Is(w, key, Failed(Function(Ask(w.functions, key, answers).reason)))
  {
    var n := RunFromTrace(w, key, answers, 0);
    assert Eval(w, n, key) == Run(w, n, key, []);
  }

  lemma TraceReadFails(w: World, key: Key, answers: seq<Answer>, error: EvalError)
    requires key !in w.inputs && Traces(w, key, answers)
    requires Ask(w.functions, key, answers).Read?
    requires Is(w, Ask(w.functions, key, answers).key, Failed(error))
    ensures Is(w, key, Failed(error))
  {
    var m: nat :| Eval(w, m, Ask(w.functions, key, answers).key) == Failed(error);
    var n := RunFromTrace(w, key, answers, m + 1);
    assert Eval(w, n, key) == Run(w, n, key, []);
  }

  /** A computation with enough fuel has enough left after a trace. */
  lemma {:induction false} FuelAfterTrace(w: World, key: Key, answers: seq<Answer>, fuel: nat)
    requires Traces(w, key, answers)
    requires !Run(w, fuel, key, []).Unfinished?
    ensures |answers| <= fuel && Run(w, fuel - |answers|, key, answers) == Run(w, fuel, key, [])
    decreases |answers|
  {
    if answers != [] {
      var last := |answers| - 1;
      var before := answers[..last];
      assert answers == before + [answers[last]];
      assert Answered(w, key, answers, last);
      TracesPrefix(w, key, answers, last);
      FuelAfterTrace(w, key, before, fuel);
      match Ask(w.functions, key, before) {
        case ReportUntracked =>
        case Read(dependency) =>
          var read := Eval(w, fuel - last - 1, dependency);
          assert !read.Unfinished?;
          OneOutcome(w, dependency, read, Done(answers[last].value));
      }
    }
  }

  // ---- needing ---------------------------------------------------------------

  /** Computing `a` from scratch computes `b` on the way, with less fuel. */
  ghost predicate Needs(w: World, a: Key, b: Key) {
    forall fuel: nat {:trigger Eval(w, fuel, a)} ::
      !Eval(w, fuel, a).Unfinished? ==> fuel > 0 && !Eval(w, fuel - 1, b).Unfinished?
  }

  lemma ReadIsNeeded(w: World, key: Key, answers: seq<Answer>)
    requires key !in w.inputs && Traces(w, key, answers)
    requires Ask(w.functions, key, answers).Read?
    ensures Needs(w, key, Ask(w.functions, key, answers).key)
  {
    var dependency := Ask(w.functions, key, answers).key;
    forall fuel: nat {:trigger Eval(w, fuel, key)} | !Eval(w, fuel, key).Unfinished?
      ensures fuel > 0 && !Eval(w, fuel - 1, dependency).Unfinished?
    {
      FuelAfterTrace(w, key, answers, fuel);
      var left := fuel - |answers|;
      assert left > 0 && !Eval(w, left - 1, dependency).Unfinished?;
      MoreFuel(w, left - 1, fuel - 1, dependency);
    }
  }

  lemma NeedsTransitive(w: World, a: Key, b: Key, c: Key)
    requires Needs(w, a, b) && Needs(w, b, c)
    ensures Needs(w, a, c)
  {
    forall fuel: nat {:trigger Eval(w, fuel, a)} | !Eval(w, fuel, a).Unfinished?
      ensures fuel > 0 && !Eval(w, fuel - 1, c).Unfinished?
    {
      MoreFuel(w, fuel - 2, fuel - 1, c);
    }
  }

  /** A key that needs a divergent one diverges. */
  lemma NeedsDivergent(w: World, a: Key, b: Key)
    requires Needs(w, a, b) && Diverges(w, b)
    ensures Diverges(w, a)
  {
    forall fuel: nat ensures Eval(w, fuel, a).Unfinished? {
    }
  }

  /** A key that needs itself diverges: a real cycle, and the only thing the evaluator
      may report as one. */
  lemma SelfNeedDiverges(w: World, key: Key)
    requires Needs(w, key, key)
    ensures Diverges(w, key)
  {
    forall fuel: nat ensures Eval(w, fuel, key).Unfinished? {
      SelfNeedUnfinished(w, key, fuel);
    }
  }

  lemma {:induction false} SelfNeedUnfinished(w: World, key: Key, fuel: nat)
    requires Needs(w, key, key)
    ensures Eval(w, fuel, key).Unfinished?
  {
    if fuel > 0 {
      SelfNeedUnfinished(w, key, fuel - 1);
    }
  }

  // ---- computations another world does not change ---------------------------------

  /** What is read after the first `j` answers is one of `same`, or an input of `w` that is
      worth in `v` what it holds. */
  ghost predicate ReadsSame(v: World, w: World, same: set<Key>, key: Key, answers: seq<Answer>, j: nat)
    requires NameOf(key) in v.functions && j < |answers|
  {
    var step := Ask(v.functions, key, answers[..j]);
    step.Read? && (step.key in same || (step.key in w.inputs && Is(v, step.key, Done(w.inputs[step.key]))))
  }

  /** The computation of `key` in `v` is told `answers`, returns, and has read nothing that
      `w` changes. */
  ghost predicate Keeps(v: World, w: World, same: set<Key>, key: Key, answers: seq<Answer>) {
    && key !in v.inputs && key !in w.inputs && Traces(v, key, answers)
    && Ask(v.functions, key, answers).Return?
    && forall j :: 0 <= j < |answers| ==> ReadsSame(v, w, same, key, answers, j)
  }

  ghost predicate Unmoved(v: World, w: World, traces: map<Key, seq<Answer>>, same: set<Key>) {
    && w.functions == v.functions
    && forall key :: key in same ==> key in traces && Keeps(v, w, same, key, traces[key])
  }

  lemma {:induction false} UnmovedEval(
      v: World, w: World, traces: map<Key, seq<Answer>>, same: set<Key>, fuel: nat, key: Key)
    requires Unmoved(v, w, traces, same) && key in same
    requires !Eval(v, fuel, key).Unfinished?
    ensures Eval(w, fuel, key) == Eval(v, fuel, key)
    decreases fuel, 1
  {
    assert traces[key][..0] == [];
    UnmovedRun(v, w, traces, same, fuel, key, 0);
  }

  lemma {:induction false} UnmovedRun(
      v: World, w: World, traces: map<Key, seq<Answer>>, same: set<Key>, fuel: nat, key: Key, j: nat)
    requires Unmoved(v, w, traces, same) && key in same && j <= |traces[key]|
    requires !Run(v, fuel, key, traces[key][..j]).Unfinished?
    ensures Run(w, fuel, key, traces[key][..j]) == Run(v, fuel, key, traces[key][..j])
    decreases fuel, 0
  {
    var answers := traces[key];
    if j < |answers| {
      assert ReadsSame(v, w, same, key, answers, j);
      assert Answered(v, key, answers, j);
      var dependency := Ask(v.functions, key, answers[..j]).key;
      UnmovedRead(v, w, traces, same, fuel - 1, dependency);
      OneOutcome(v, dependency, Eval(v, fuel - 1, dependency), Done(answers[j].value));
      assert answers[..j] + [answers[j]] == answers[..j + 1];
      UnmovedRun(v, w, traces, same, fuel - 1, key, j + 1);
    } else {
      assert answers[..j] == answers;
    }
  }

  lemma {:induction false} UnmovedRead(
      v: World, w: World, traces: map<Key, seq<Answer>>, same: set<Key>, fuel: nat, key: Key)
    requires Unmoved(v, w, traces, same)
    requires key in same || (key in w.inputs && Is(v, key, Done(w.inputs[key])))
    requires !Eval(v, fuel, key).Unfinished?
    ensures Eval(w, fuel, key) == Eval(v, fuel, key)
    decreases fuel, 2
  {
    if key in same {
      UnmovedEval(v, w, traces, same, fuel, key);
    } else {
      OneOutcome(v, key, Eval(v, fuel, key), Done(w.inputs[key]));
    }
  }

  /** So in `w` it is told the same. */
  lemma UnmovedTraces(v: World, w: World, traces: map<Key, seq<Answer>>, same: set<Key>, key: Key)
    requires Unmoved(v, w, traces, same) && key in same
    ensures Traces(w, key, traces[key])
  {
    var answers := traces[key];
    forall j | 0 <= j < |answers| ensures Answered(w, key, answers, j) {
      assert ReadsSame(v, w, same, key, answers, j);
      assert Answered(v, key, answers, j);
      var dependency := Ask(v.functions, key, answers[..j]).key;
      var fuel: nat :| Eval(v, fuel, dependency) == Done(answers[j].value);
      UnmovedRead(v, w, traces, same, fuel, dependency);
    }
  }

  // ---- ranked functions always end --------------------------------------------

  /** In `w`, a computation reads only derived keys of smaller rank than its own, and
      asks fewer than `limit` times in all. */
  ghost predicate Ranked(w: World, rank: Key -> nat, limit: nat) {
    forall key, answers :: Traces(w, key, answers) && AsksAgain(w.functions, key, answers) ==>
      && |answers| < limit
      && var step := Ask(w.functions, key, answers);
         (step.Read? && step.key !in w.inputs ==> rank(step.key) < rank(key))
  }

  ghost predicate AsksAgain(functions: Functions, key: Key, answers: seq<Answer>)
    requires NameOf(key) in functions
  {
    Ask(functions, key, answers).Read? || Ask(functions, key, answers).ReportUntracked?
  }

  /** Enough fuel for any key of rank `r`. */
  function FuelFor(r: nat, limit: nat): (fuel: nat)
    ensures fuel >= limit
  {
    if r == 0 then limit else FuelFor(r - 1, limit) + limit
  }

  lemma {:induction false} FuelGrows(r: nat, s: nat, limit: nat)
    requires r < s
    ensures FuelFor(r, limit) + limit <= FuelFor(s, limit)
  {
    if r + 1 < s {
      FuelGrows(r, s - 1, limit);
    }
  }

  lemma {:induction false} RankedEnds(w: World, rank: Key -> nat, limit: nat, key: Key)
    requires Ranked(w, rank, limit)
    ensures !Eval(w, FuelFor(rank(key), limit), key).Unfinished?
    decreases rank(key), limit + 1
  {
    if key !in w.inputs && NameOf(key) in w.functions {
      RankedRunEnds(w, rank, limit, key, []);
    }
  }

  lemma {:induction false} RankedRunEnds(w: World, rank: Key -> nat, limit: nat, key: Key, answers: seq<Answer>)
    requires Ranked(w, rank, limit)
    requires Traces(w, key, answers) && |answers| <= limit
    ensures !Run(w, FuelFor(rank(key), limit) - |answers|, key, answers).Unfinished?
    decreases rank(key), limit - |answers|
  {
    var fuel := FuelFor(rank(key), limit) - |answers|;
    var step := Ask(w.functions, key, answers);
    if AsksAgain(w.functions, key, answers) {
      if step.ReportUntracked? {
        RankedAnswer(w, rank, limit, key, answers, Outside(w.outside));
      } else {
        if step.key !in w.inputs {
          RankedEnds(w, rank, limit, step.key);
          FuelGrows(rank(step.key), rank(key), limit);
          MoreFuel(w, FuelFor(rank(step.key), limit), fuel - 1, step.key);
        }
        var read := Eval(w, fuel - 1, step.key);
        if read.Done? {
          assert Is(w, step.key, Done(read.value));
          RankedAnswer(w, rank, limit, key, answers, Got(read.value));
        }
      }
    }
  }

  lemma {:induction false} RankedAnswer(
      w: World, rank: Key -> nat, limit: nat, key: Key, answers: seq<Answer>, answer: Answer)
    requires Ranked(w, rank, limit)
    requires Traces(w, key, answers) && |answers| < limit
    requires Answered(w, key, answers + [answer], |answers|)
    ensures !Run(w, FuelFor(rank(key), limit) - |answers| - 1, key, answers + [answer]).Unfinished?
    decreases rank(key), limit - |answers|, 0
  {
    TracesExtend(w, key, answers, answer);
    RankedRunEnds(w, rank, limit, key, answers + [answer]);
  }
}
