/** The memo graph as a value, the invariant every reachable graph satisfies, and the
    three writes that keep it. `Evaluator.dfy` performs the writes. */
module MemoGraph {
  import opened Scratch

  datatype Durability = Low | Medium | High {
    function Level(): nat {
      match this
      case Low => 0
      case Medium => 1
      case High => 2
    }

    /** The less durable of the two. */
    function Min(other: Durability): (d: Durability)
      ensures d.Level() <= Level() && d.Level() <= other.Level()
      ensures d == this || d == other
    {
      if Level() <= other.Level() then this else other
    }
  }

  datatype Input = Input(value: Value, changedAt: nat, durability: Durability)

  datatype Row = Row(
    value: Value,
    changedAt: nat,
    verifiedAt: nat,
    durability: Durability,
    untracked: bool,
    dependencies: seq<Key>)

  /** What a key was set to, or what its function came to, in a revision. */
  datatype Moment = Moment(revision: nat, value: Value, durability: Durability)

  /** The evaluator's tables, with what a proof needs beside them: the world each
      revision is about, what each memo's computation was told, everything each input was
      set to and each function came to, and the keys whose functions were called. */
  datatype Graph = Graph(
    revision: nat,
    levels: map<nat, nat>,
    inputs: map<Key, Input>,
    memos: map<Key, Row>,
    worlds: seq<World>,
    traces: map<Key, seq<Answer>>,
    settings: map<Key, seq<Moment>>,
    runs: map<Key, seq<Moment>>,
    calls: seq<Key>)

  /** A store nothing has happened to. */
  ghost function Empty(functions: Functions, outside: Value): Graph {
    Graph(0, map[], map[], map[], [World(functions, map[], outside)], map[], map[], map[], [])
  }

  /** The last revision in which an input of at least this durability changed. */
  function ChangedAtOrAbove(levels: map<nat, nat>, durability: Durability): nat {
    if durability.Level() in levels then levels[durability.Level()] else 0
  }

  ghost predicate Shallow(g: Graph, row: Row) {
    ChangedAtOrAbove(g.levels, row.durability) <= row.verifiedAt
  }

  /** A memo that no input shadows. */
  predicate Live(g: Graph, key: Key) {
    key in g.memos && key !in g.inputs
  }

  ghost function Now(g: Graph): World
    requires g.revision < |g.worlds|
  {
    g.worlds[g.revision]
  }

  // ---- what a computation read -----------------------------------------------

  /** The distinct keys read while being told `answers`, in the order first read. */
  function DependenciesOf(functions: Functions, key: Key, answers: seq<Answer>): seq<Key>
    requires NameOf(key) in functions
  {
    if answers == [] then []
    else
      var before := answers[..|answers| - 1];
      Recorded(DependenciesOf(functions, key, before), Ask(functions, key, before))
  }

  function Recorded(dependencies: seq<Key>, step: Step): seq<Key> {
    if step.Read? && step.key !in dependencies then dependencies + [step.key] else dependencies
  }

  function UntrackedIn(functions: Functions, key: Key, answers: seq<Answer>): bool
    requires NameOf(key) in functions
  {
    answers != [] &&
    var before := answers[..|answers| - 1];
    (UntrackedIn(functions, key, before) || Ask(functions, key, before).ReportUntracked?)
  }

  lemma {:induction false} ReadIsRecorded(functions: Functions, key: Key, answers: seq<Answer>, j: nat)
    requires NameOf(key) in functions && j < |answers|
    ensures DependenciesOf(functions, key, answers[..j]) <= DependenciesOf(functions, key, answers)
    ensures var step := Ask(functions, key, answers[..j]);
            && (step.Read? ==> step.key in DependenciesOf(functions, key, answers))
            && (step.ReportUntracked? ==> UntrackedIn(functions, key, answers))
    decreases |answers|
  {
    var last := |answers| - 1;
    if j < last {
      assert answers[..last][..j] == answers[..j];
      ReadIsRecorded(functions, key, answers[..last], j);
    }
  }

  /** The keys that were read, and no others, each once. */
  lemma {:induction false} DependenciesExactly(functions: Functions, key: Key, answers: seq<Answer>)
    requires NameOf(key) in functions
    ensures var dependencies := DependenciesOf(functions, key, answers);
            && (forall i, j :: 0 <= i < j < |dependencies| ==> dependencies[i] != dependencies[j])
            && forall d :: d in dependencies <==> WasRead(functions, key, answers, d)
    decreases |answers|
  {
    if answers != [] {
      var last := |answers| - 1;
      var before := answers[..last];
      DependenciesExactly(functions, key, before);
      forall d ensures d in DependenciesOf(functions, key, answers) <==> WasRead(functions, key, answers, d) {
        WasReadLast(functions, key, answers, d);
      }
    }
  }

  ghost predicate WasRead(functions: Functions, key: Key, answers: seq<Answer>, d: Key)
    requires NameOf(key) in functions
  {
    exists j :: 0 <= j < |answers| && Ask(functions, key, answers[..j]) == Read(d)
  }

  lemma WasReadLast(functions: Functions, key: Key, answers: seq<Answer>, d: Key)
    requires NameOf(key) in functions && answers != []
    ensures var before := answers[..|answers| - 1];
            WasRead(functions, key, answers, d) <==>
              WasRead(functions, key, before, d) || Ask(functions, key, before) == Read(d)
  {
    var before := answers[..|answers| - 1];
    if j :| 0 <= j < |before| && Ask(functions, key, before[..j]) == Read(d) {
      assert answers[..j] == before[..j];
    }
    if j :| 0 <= j < |answers| && Ask(functions, key, answers[..j]) == Read(d) {
      assert j < |before| ==> answers[..j] == before[..j];
    }
  }

  /** The moment a dependency was first read: everything read earlier is recorded
      before it. */
  lemma {:induction false} FirstRead(functions: Functions, key: Key, answers: seq<Answer>, i: nat)
    returns (j: nat)
    requires NameOf(key) in functions
    requires i < |DependenciesOf(functions, key, answers)|
    ensures j < |answers|
    ensures Ask(functions, key, answers[..j]) == Read(DependenciesOf(functions, key, answers)[i])
    ensures DependenciesOf(functions, key, answers[..j]) == DependenciesOf(functions, key, answers)[..i]
    decreases |answers|
  {
    var last := |answers| - 1;
    var before := answers[..last];
    if i < |DependenciesOf(functions, key, before)| {
      j := FirstRead(functions, key, before, i);
      assert before[..j] == answers[..j];
    } else {
      j := last;
    }
  }

  // ---- what really changed -------------------------------------------------------

  /** A run that came to another value than the one before it, or is less durable. */
  predicate Differs(before: Moment, after: Moment) {
    before.value != after.value || after.durability.Level() < before.durability.Level()
  }

  /** A setting that is news. */
  predicate IsNews(before: Moment, after: Moment) {
    before.value != after.value || before.durability != after.durability
  }

  ghost predicate RanOtherwise(runs: seq<Moment>, since: nat) {
    exists i :: 0 < i < |runs| && runs[i].revision > since && Differs(runs[i - 1], runs[i])
  }

  ghost predicate WasSet(settings: seq<Moment>, since: nat) {
    exists i :: 0 <= i < |settings| && settings[i].revision > since && (i > 0 ==> IsNews(settings[i - 1], settings[i]))
  }

  /** In a revision after `since`, `key` was set to something new, or its function came to
      another value or to one less durable. */
  ghost predicate Moved(g: Graph, key: Key, since: nat) {
    if key in g.inputs then key in g.settings && WasSet(g.settings[key], since)
    else key in g.runs && RanOtherwise(g.runs[key], since)
  }

  ghost predicate Climbs(moments: seq<Moment>) {
    forall i, j :: 0 <= i < j < |moments| ==> moments[i].revision < moments[j].revision
  }

  /** The revision of the last run that differs from the one before it. */
  ghost function LastMoved(runs: seq<Moment>): nat
    requires runs != []
    decreases |runs|
  {
    var last := |runs| - 1;
    if last == 0 || Differs(runs[last - 1], runs[last]) then runs[last].revision else LastMoved(runs[..last])
  }

  /** One more run: either the runs before it came to something else, or it did. */
  lemma RanOnceMore(runs: seq<Moment>, since: nat)
    requires |runs| > 1
    ensures var last := |runs| - 1;
            RanOtherwise(runs, since) <==>
              RanOtherwise(runs[..last], since) || (runs[last].revision > since && Differs(runs[last - 1], runs[last]))
  {
    var last := |runs| - 1;
    var before := runs[..last];
    if i :| 0 < i < |runs| && runs[i].revision > since && Differs(runs[i - 1], runs[i]) {
      assert i < last ==> before[i] == runs[i] && before[i - 1] == runs[i - 1];
    }
    if i :| 0 < i < |before| && before[i].revision > since && Differs(before[i - 1], before[i]) {
      assert before[i] == runs[i] && before[i - 1] == runs[i - 1];
    }
  }

  lemma {:induction false} LastMovedIsLast(runs: seq<Moment>, since: nat)
    requires runs != [] && Climbs(runs) && runs[0].revision <= since
    ensures LastMoved(runs) > since <==> RanOtherwise(runs, since)
    decreases |runs|
  {
    var last := |runs| - 1;
    if last > 0 {
      RanOnceMore(runs, since);
      if !Differs(runs[last - 1], runs[last]) {
        LastMovedIsLast(runs[..last], since);
      } else if i :| 0 < i < |runs[..last]| && runs[..last][i].revision > since && Differs(runs[..last][i - 1], runs[..last][i]) {
        assert runs[i].revision < runs[last].revision;
      }
    }
  }

  // ---- the invariant -----------------------------------------------------------

  ghost predicate Shape(g: Graph) {
    && |g.worlds| == g.revision + 1
    && (forall t :: 0 <= t < |g.worlds| ==> g.worlds[t].functions == g.worlds[0].functions)
    && (forall level :: level in g.levels ==> g.levels[level] <= g.revision)
    && ChangedAtOrAbove(g.levels, Low) == g.revision
    && g.traces.Keys == g.memos.Keys && g.runs.Keys == g.memos.Keys && g.settings.Keys == g.inputs.Keys
    && Now(g).inputs.Keys == g.inputs.Keys
  }

  /** An input's row says what the input has been since it last changed. */
  ghost predicate InputOk(g: Graph, key: Key)
    requires Shape(g) && key in g.inputs
  {
    && g.inputs[key].changedAt <= g.revision
    && forall t :: g.inputs[key].changedAt <= t <= g.revision ==>
         key in g.worlds[t].inputs && g.worlds[t].inputs[key] == g.inputs[key].value
  }

  /** An input's stamp is the revision in which it was last set to something new. */
  ghost predicate SettingsOk(g: Graph, key: Key)
    requires Shape(g) && key in g.inputs
  {
    var input, settings := g.inputs[key], g.settings[key];
    && settings != [] && Climbs(settings)
    && settings[|settings| - 1] == Moment(input.changedAt, input.value, input.durability)
    && forall i :: 0 < i < |settings| ==> IsNews(settings[i - 1], settings[i])
  }

  /** A memo's stamp is the revision in which its function last came to something else; and
      its function came to a value at most once a revision. */
  ghost predicate RunsOk(g: Graph, key: Key)
    requires Shape(g) && key in g.memos
  {
    var row, runs := g.memos[key], g.runs[key];
    && runs != [] && Climbs(runs) && runs[|runs| - 1].revision <= row.verifiedAt
    && runs[|runs| - 1].value == row.value && runs[|runs| - 1].durability == row.durability
    && row.changedAt == LastMoved(runs) && row.verifiedAt <= g.revision
  }

  /** A live memo's recorded computation is the one its verified revision performs, and,
      when the memo is shallow-verifiable, the one the current revision performs. */
  ghost predicate RowOk(g: Graph, key: Key)
    requires Shape(g) && Live(g, key)
  {
    var row, answers := g.memos[key], g.traces[key];
    && row.changedAt <= row.verifiedAt <= g.revision
    && key !in g.worlds[row.verifiedAt].inputs
    && Traces(g.worlds[row.verifiedAt], key, answers)
    && (Shallow(g, row) ==> Traces(Now(g), key, answers))
    && Ask(Now(g).functions, key, answers) == Return(row.value)
    && row.dependencies == DependenciesOf(Now(g).functions, key, answers)
    && row.untracked == UntrackedIn(Now(g).functions, key, answers)
    && (row.untracked ==> row.durability == Low)
  }

  /** What a memo may conclude from the stamps of one of its dependencies. */
  ghost predicate EdgeOk(g: Graph, key: Key, dependency: Key)
    requires Shape(g) && key in g.memos
  {
    var row := g.memos[key];
    row.verifiedAt <= g.revision &&
    if dependency in g.inputs then
      var read := g.inputs[dependency];
      && (read.changedAt <= row.verifiedAt ==> row.durability.Level() <= read.durability.Level())
      && (Shallow(g, row) ==> read.changedAt <= row.verifiedAt)
    else
      && dependency in g.memos && g.runs[dependency] != [] && g.runs[dependency][0].revision <= row.verifiedAt
      && var read := g.memos[dependency];
      && (read.changedAt <= row.verifiedAt ==>
            && row.durability.Level() <= read.durability.Level()
            && Is(g.worlds[row.verifiedAt], dependency, Done(read.value)))
      && (Shallow(g, row) ==> read.changedAt <= row.verifiedAt && Shallow(g, read))
  }

  ghost predicate Stamps(g: Graph)
    requires Shape(g)
  {
    && (forall key {:trigger SettingsOk(g, key)} :: key in g.inputs ==> SettingsOk(g, key))
    && (forall key {:trigger RunsOk(g, key)} :: key in g.memos ==> RunsOk(g, key))
    && (forall key {:trigger IsPast(g, key)} :: IsPast(g, key))
  }

  /** What an input was set to, and what a function came to, is what the key was worth in
      that revision. */
  ghost predicate IsPast(g: Graph, key: Key) {
    && (forall i :: 0 <= i < |Moments(g.settings, key)| ==> WasWorth(g, key, g.settings[key][i]))
    && (forall i :: 0 <= i < |Moments(g.runs, key)| ==> WasWorth(g, key, g.runs[key][i]))
  }

  ghost predicate WasWorth(g: Graph, key: Key, moment: Moment) {
    moment.revision < |g.worlds| && Is(g.worlds[moment.revision], key, Done(moment.value))
  }

  ghost predicate Inv(g: Graph) {
    && Shape(g)
    && Stamps(g)
    && (forall key {:trigger InputOk(g, key)} :: key in g.inputs ==> InputOk(g, key))
    && (forall key {:trigger RowOk(g, key)} :: Live(g, key) ==> RowOk(g, key))
    && (forall key, dependency {:trigger EdgeOk(g, key, dependency)} ::
          Live(g, key) && dependency in g.memos[key].dependencies ==>
          EdgeOk(g, key, dependency))
  }

  /** Shallow verification accepts only memos whose value is the current one. */
  lemma ShallowIsCurrent(g: Graph, key: Key)
    requires Inv(g) && Live(g, key) && Shallow(g, g.memos[key])
    ensures Is(Now(g), key, Done(g.memos[key].value))
  {
    assert RowOk(g, key);
    TraceReturns(Now(g), key, g.traces[key]);
  }

  // ---- the writes --------------------------------------------------------------

  ghost function MarkVerified(g: Graph, key: Key): Graph
    requires key in g.memos
  {
    g.(memos := g.memos[key := g.memos[key].(verifiedAt := g.revision)])
  }

  ghost function WriteMemo(g: Graph, key: Key, row: Row, answers: seq<Answer>): Graph {
    g.(memos := g.memos[key := row],
       traces := g.traces[key := answers],
       runs := g.runs[key := Moments(g.runs, key) + [Moment(g.revision, row.value, row.durability)]])
  }

  ghost function Moments(of: map<Key, seq<Moment>>, key: Key): seq<Moment> {
    if key in of then of[key] else []
  }

  /** The function of `key` is called. */
  ghost function Call(g: Graph, key: Key): Graph {
    g.(calls := g.calls + [key])
  }

  /** Every dependency is unchanged since the memo was verified, and current. */
  ghost predicate DependencyCurrent(g: Graph, row: Row, dependency: Key) {
    if dependency in g.inputs then g.inputs[dependency].changedAt <= row.verifiedAt
    else
      && dependency in g.memos
      && g.memos[dependency].changedAt <= row.verifiedAt
      && Shallow(g, g.memos[dependency])
  }

  lemma ShallowDependenciesCurrent(g: Graph, key: Key)
    requires Inv(g) && Live(g, key) && Shallow(g, g.memos[key])
    ensures Traces(Now(g), key, g.traces[key])
    ensures forall dependency :: dependency in g.memos[key].dependencies ==>
              DependencyCurrent(g, g.memos[key], dependency)
  {
    assert RowOk(g, key);
    forall dependency | dependency in g.memos[key].dependencies
      ensures DependencyCurrent(g, g.memos[key], dependency)
    {
      assert EdgeOk(g, key, dependency);
    }
  }

  lemma MarkVerifiedKeeps(g: Graph, key: Key)
    requires Inv(g) && Live(g, key)
    requires Traces(Now(g), key, g.traces[key])
    requires forall dependency :: dependency in g.memos[key].dependencies ==>
               DependencyCurrent(g, g.memos[key], dependency)
    ensures Inv(MarkVerified(g, key))
  {
    var h := MarkVerified(g, key);
    assert RowOk(g, key);
    forall other {:trigger InputOk(h, other)} | other in h.inputs ensures InputOk(h, other) {
      assert InputOk(g, other);
    }
    MarkedStamps(g, key);
    forall other {:trigger RowOk(h, other)} | Live(h, other) ensures RowOk(h, other) {
      assert RowOk(g, other);
    }
    forall other, dependency {:trigger EdgeOk(h, other, dependency)} |
      Live(h, other) && dependency in h.memos[other].dependencies
      ensures EdgeOk(h, other, dependency)
    {
      if other == key {
        MarkedOut(g, key, dependency);
      } else {
        MarkedIn(g, other, key, dependency);
      }
    }
  }

  lemma MarkedStamps(g: Graph, key: Key)
    requires Inv(g) && key in g.memos && Shape(MarkVerified(g, key))
    ensures Stamps(MarkVerified(g, key))
  {
    var h := MarkVerified(g, key);
    forall other {:trigger SettingsOk(h, other)} | other in h.inputs ensures SettingsOk(h, other) {
      assert SettingsOk(g, other);
    }
    forall other {:trigger RunsOk(h, other)} | other in h.memos ensures RunsOk(h, other) {
      assert RunsOk(g, other);
    }
    forall other {:trigger IsPast(h, other)} ensures IsPast(h, other) {
      assert IsPast(g, other);
    }
  }

  lemma MarkedOut(g: Graph, key: Key, dependency: Key)
    requires Inv(g) && Live(g, key) && dependency in g.memos[key].dependencies
    requires DependencyCurrent(g, g.memos[key], dependency)
    requires Shape(MarkVerified(g, key))
    ensures EdgeOk(MarkVerified(g, key), key, dependency)
  {
    assert RowOk(g, key);
    assert EdgeOk(g, key, dependency);
    if dependency !in g.inputs {
      ShallowIsCurrent(g, dependency);
    }
  }

  lemma MarkedIn(g: Graph, other: Key, key: Key, dependency: Key)
    requires Inv(g) && key in g.memos && Live(g, other) && other != key
    requires dependency in g.memos[other].dependencies
    requires Shape(MarkVerified(g, key))
    ensures EdgeOk(MarkVerified(g, key), other, dependency)
  {
    assert EdgeOk(g, other, dependency);
  }

  /** As long as the dependencies read so far are current, the computation at the
      current revision has been told exactly what it was told when the memo was
      verified, so it is about to read the same next key. */
  lemma CurrentSoFar(g: Graph, key: Key, i: nat, j: nat)
    requires Inv(g) && Live(g, key) && !g.memos[key].untracked
    requires i <= |g.memos[key].dependencies| && j <= |g.traces[key]|
    requires forall d :: d in g.memos[key].dependencies[..i] ==> DependencyCurrent(g, g.memos[key], d)
    requires NameOf(key) in Now(g).functions
    requires DependenciesOf(Now(g).functions, key, g.traces[key][..j]) <= g.memos[key].dependencies[..i]
    ensures Traces(Now(g), key, g.traces[key][..j])
  {
    var row, answers := g.memos[key], g.traces[key];
    assert RowOk(g, key);
    var past := g.worlds[row.verifiedAt];
    forall k | 0 <= k < j ensures Answered(Now(g), key, answers[..j], k) {
      assert answers[..j][..k] == answers[..k];
      assert Answered(past, key, answers, k);
      ReadIsRecorded(Now(g).functions, key, answers, k);
      ReadIsRecorded(Now(g).functions, key, answers[..j], k);
      var d := Ask(Now(g).functions, key, answers[..k]).key;
      assert d in row.dependencies[..i] && DependencyCurrent(g, row, d);
      SameThenAndNow(g, key, d, answers[k].value);
    }
  }

  /** A current dependency is worth now what it was worth when the memo was verified. */
  lemma SameThenAndNow(g: Graph, key: Key, dependency: Key, value: Value)
    requires Inv(g) && Live(g, key) && dependency in g.memos[key].dependencies
    requires DependencyCurrent(g, g.memos[key], dependency)
    requires g.memos[key].verifiedAt <= g.revision
    requires Is(g.worlds[g.memos[key].verifiedAt], dependency, Done(value))
    ensures Is(Now(g), dependency, Done(value))
  {
    var past := g.worlds[g.memos[key].verifiedAt];
    if dependency in g.inputs {
      assert InputOk(g, dependency);
      assert dependency in past.inputs;
      assert Eval(past, 0, dependency) == Done(g.inputs[dependency].value);
      OneOutcome(past, dependency, Done(value), Done(g.inputs[dependency].value));
      assert Eval(Now(g), 0, dependency) == Done(value);
    } else {
      assert EdgeOk(g, key, dependency);
      OneOutcome(past, dependency, Done(value), Done(g.memos[dependency].value));
      ShallowIsCurrent(g, dependency);
    }
  }

  lemma CalledStamps(g: Graph, key: Key)
    requires Inv(g)
    ensures Stamps(Call(g, key))
  {
    var h := Call(g, key);
    forall other {:trigger SettingsOk(h, other)} | other in h.inputs ensures SettingsOk(h, other) {
      assert SettingsOk(g, other);
    }
    forall other {:trigger RunsOk(h, other)} | other in h.memos ensures RunsOk(h, other) {
      assert RunsOk(g, other);
    }
    forall other {:trigger IsPast(h, other)} ensures IsPast(h, other) {
      assert IsPast(g, other);
    }
  }

  /** Calling a function writes nothing. */
  lemma CallKeeps(g: Graph, key: Key)
    requires Inv(g)
    ensures Inv(Call(g, key))
  {
    var h := Call(g, key);
    forall other {:trigger InputOk(h, other)} | other in h.inputs ensures InputOk(h, other) {
      assert InputOk(g, other);
    }
    CalledStamps(g, key);
    forall other {:trigger RowOk(h, other)} | Live(h, other) ensures RowOk(h, other) {
      assert RowOk(g, other);
    }
    forall other, dependency {:trigger EdgeOk(h, other, dependency)} |
      Live(h, other) && dependency in h.memos[other].dependencies
      ensures EdgeOk(h, other, dependency)
    {
      assert EdgeOk(g, other, dependency);
    }
  }

  // ---- stamps are the truth ------------------------------------------------------

  /** The stamp of a dependency is later than its reader's last verification exactly when
      the dependency really moved after it. */
  lemma StampIsTheLastMove(g: Graph, key: Key, dependency: Key)
    requires Inv(g) && Live(g, key) && dependency in g.memos[key].dependencies
    ensures dependency in g.inputs || dependency in g.memos
    ensures Moved(g, dependency, g.memos[key].verifiedAt) <==>
              (if dependency in g.inputs then g.inputs[dependency].changedAt else g.memos[dependency].changedAt)
              > g.memos[key].verifiedAt
  {
    var since := g.memos[key].verifiedAt;
    assert EdgeOk(g, key, dependency);
    if dependency in g.inputs {
      assert SettingsOk(g, dependency);
      var settings := g.settings[dependency];
      var last := |settings| - 1;
      assert last > 0 ==> IsNews(settings[last - 1], settings[last]);
      assert forall i :: 0 <= i < last ==> settings[i].revision < settings[last].revision;
    } else {
      assert RunsOk(g, dependency);
      LastMovedIsLast(g.runs[dependency], since);
    }
  }

  // ---- what an evaluation may touch ----------------------------------------------

  ghost predicate Untouched(o: Graph, g: Graph, key: Key) {
    && key in o.memos && key in g.memos && g.memos[key] == o.memos[key]
    && key in o.traces && key in g.traces && g.traces[key] == o.traces[key]
  }

  ghost predicate SameInputs(o: Graph, g: Graph) {
    && g.revision == o.revision && g.levels == o.levels && g.inputs == o.inputs
    && g.worlds == o.worlds && g.settings == o.settings && Accounted(o, g)
  }

  /** The functions called between `o` and `g`. */
  ghost function NewCalls(o: Graph, g: Graph): seq<Key>
    requires |o.calls| <= |g.calls|
  {
    g.calls[|o.calls|..]
  }

  /** What calls for the function of `key`: it has no memo; or its memo is of an earlier
      revision, shallow verification does not accept it, and it has looked at something
      untracked, or something it read really moved. */
  ghost predicate Due(o: Graph, g: Graph, key: Key) {
    && key !in o.inputs
    && (key in o.memos ==>
          var row := o.memos[key];
          && row.verifiedAt != o.revision && !Shallow(o, row)
          && (row.untracked || exists d :: d in row.dependencies && Moved(g, d, row.verifiedAt)))
  }

  /** Verified, perhaps, and nothing else. */
  ghost predicate Restamp(before: Row, after: Row) {
    before.verifiedAt <= after.verifiedAt && after == before.(verifiedAt := after.verifiedAt)
  }

  /** Between `o` and `g` functions are called only when due, nothing came to a value that was
      not called, and a memo whose function was not called is re-stamped at most. */
  ghost predicate Accounted(o: Graph, g: Graph) {
    && o.calls <= g.calls
    && forall key {:trigger AccountOf(o, g, key)} :: AccountOf(o, g, key)
  }

  ghost predicate AccountOf(o: Graph, g: Graph, key: Key)
    requires |o.calls| <= |g.calls|
  {
    && (key in NewCalls(o, g) ==> Due(o, g, key))
    && (key in o.runs ==> key in g.runs && o.runs[key] <= g.runs[key])
    && (key in g.runs && (key !in o.runs || g.runs[key] != o.runs[key]) ==> key in NewCalls(o, g))
    && (key in o.memos && key in g.memos ==> key in NewCalls(o, g) || Restamp(o.memos[key], g.memos[key]))
    && (key in o.traces ==> key in NewCalls(o, g) || (key in g.traces && g.traces[key] == o.traces[key]))
  }

  lemma MovedStays(o: Graph, g: Graph, key: Key, since: nat)
    requires g.inputs == o.inputs && g.settings == o.settings && Moved(o, key, since)
    requires key in o.runs ==> key in g.runs && o.runs[key] <= g.runs[key]
    ensures Moved(g, key, since)
  {
    if key !in o.inputs {
      var i :| 0 < i < |o.runs[key]| && o.runs[key][i].revision > since && Differs(o.runs[key][i - 1], o.runs[key][i]);
      assert g.runs[key][i] == o.runs[key][i] && g.runs[key][i - 1] == o.runs[key][i - 1];
    }
  }

  lemma DueStays(o: Graph, g: Graph, h: Graph, key: Key)
    requires Due(o, g, key) && h.inputs == g.inputs == o.inputs && h.settings == g.settings
    requires o.calls <= g.calls <= h.calls && Accounted(g, h)
    ensures Due(o, h, key)
  {
    if key in o.memos && !o.memos[key].untracked {
      var d :| d in o.memos[key].dependencies && Moved(g, d, o.memos[key].verifiedAt);
      assert AccountOf(g, h, d);
      MovedStays(g, h, d, o.memos[key].verifiedAt);
    }
  }

  lemma AccountedTwice(o: Graph, m: Graph, g: Graph)
    requires SameInputs(o, m) && SameInputs(m, g) && o.memos.Keys <= m.memos.Keys <= g.memos.Keys
    requires forall key :: key in o.memos ==> m.memos[key] == o.memos[key] || m.memos[key].verifiedAt == m.revision
    ensures Accounted(o, g)
  {
    forall key ensures AccountOf(o, g, key) {
      AccountTwice(o, m, g, key);
    }
  }

  lemma AccountTwice(o: Graph, m: Graph, g: Graph, key: Key)
    requires SameInputs(o, m) && SameInputs(m, g) && o.memos.Keys <= m.memos.Keys <= g.memos.Keys
    requires key in o.memos ==> m.memos[key] == o.memos[key] || m.memos[key].verifiedAt == m.revision
    ensures AccountOf(o, g, key)
  {
    assert AccountOf(o, m, key) && AccountOf(m, g, key);
    assert NewCalls(o, g) == NewCalls(o, m) + NewCalls(m, g);
    if key in NewCalls(o, m) {
      DueStays(o, m, g, key);
    }
  }

  /** A memo as durable as the least durable of what it read, all of which is at hand. */
  ghost predicate AsDurable(g: Graph, key: Key)
    requires key in g.memos
  {
    var row := g.memos[key];
    && (forall d :: d in row.dependencies ==> Available(g, d))
    && if row.untracked then row.durability == Low
       else
         && (forall d :: d in row.dependencies ==> row.durability.Level() <= DurabilityIn(g, d).Level())
         && (row.durability == High || exists d :: d in row.dependencies && DurabilityIn(g, d) == row.durability)
  }

  /** The functions called are ones the computation of `key` needs; and its own, if `own`. */
  ghost predicate CallsNeeded(o: Graph, g: Graph, key: Key, own: bool)
    requires |o.calls| <= |g.calls| && g.revision < |g.worlds|
  {
    forall k {:trigger CallNeeded(o, g, key, own, k)} :: CallNeeded(o, g, key, own, k)
  }

  ghost predicate CallNeeded(o: Graph, g: Graph, key: Key, own: bool, k: Key)
    requires |o.calls| <= |g.calls| && g.revision < |g.worlds|
  {
    k in NewCalls(o, g) ==> (own && k == key) || Needs(Now(g), key, k)
  }

  /** Between `o` and `g` the only functions called and memos written are ones the computation
      of `key` needs; the memos are now verified, and were not before; and a new one is as
      durable as it should be. */
  ghost predicate Below(o: Graph, g: Graph, key: Key) {
    && SameInputs(o, g) && g.revision < |g.worlds| && CallsNeeded(o, g, key, false)
    && o.memos.Keys <= g.memos.Keys
    && forall k {:trigger Untouched(o, g, k)} :: k in g.memos && !Untouched(o, g, k) ==>
         && g.memos[k].verifiedAt == g.revision
         && (if k in o.memos then o.memos[k].verifiedAt != g.revision else AsDurable(g, k))
         && Needs(Now(g), key, k)
  }

  /** The same, with the memo of `key` itself. */
  ghost predicate Within(o: Graph, g: Graph, key: Key) {
    && SameInputs(o, g) && g.revision < |g.worlds| && CallsNeeded(o, g, key, true)
    && o.memos.Keys <= g.memos.Keys
    && forall k {:trigger Untouched(o, g, k)} :: k in g.memos && !Untouched(o, g, k) ==>
         && g.memos[k].verifiedAt == g.revision
         && (if k in o.memos then o.memos[k].verifiedAt != g.revision else AsDurable(g, k))
         && (k == key || Needs(Now(g), key, k))
  }

  /** What follows does not touch what a verified memo read. */
  lemma AsDurableStays(m: Graph, g: Graph, key: Key, memo: Key)
    requires Within(m, g, key)
    requires memo in m.memos && m.memos[memo].verifiedAt == m.revision && AsDurable(m, memo)
    ensures memo in g.memos && AsDurable(g, memo)
  {
    assert Untouched(m, g, memo);
    forall d | d in m.memos[memo].dependencies
      ensures Available(g, d) && DurabilityIn(g, d) == DurabilityIn(m, d)
    {
      if d !in m.inputs {
        assert d in g.memos && Untouched(m, g, d);
      }
    }
  }

  lemma SameCallsNeeded(o: Graph, g: Graph, h: Graph, key: Key, own: bool)
    requires o.calls <= g.calls == h.calls && h.revision == g.revision < |g.worlds| && h.worlds == g.worlds
    requires CallsNeeded(o, g, key, own)
    ensures CallsNeeded(o, h, key, true)
  {
    forall k ensures CallNeeded(o, h, key, true, k) {
      assert CallNeeded(o, g, key, own, k);
    }
  }

  lemma BelowIsWithin(o: Graph, g: Graph, key: Key)
    requires Below(o, g, key)
    ensures Within(o, g, key)
  {
    SameCallsNeeded(o, g, g, key, false);
  }

  /** What is needed on the way to something needed is needed. */
  lemma CallsNeededTwice(o: Graph, m: Graph, g: Graph, key: Key, own: bool, through: Key)
    requires SameInputs(o, m) && SameInputs(m, g) && g.revision < |g.worlds|
    requires CallsNeeded(o, m, key, own) && CallsNeeded(m, g, through, true)
    requires (own && through == key) || Needs(Now(g), key, through)
    ensures o.calls <= g.calls && CallsNeeded(o, g, key, own)
  {
    assert NewCalls(o, g) == NewCalls(o, m) + NewCalls(m, g);
    forall k ensures CallNeeded(o, g, key, own, k) {
      assert CallNeeded(o, m, key, own, k) && CallNeeded(m, g, through, true, k);
      if Needs(Now(g), through, k) && Needs(Now(g), key, through) {
        NeedsTransitive(Now(g), key, through, k);
      }
    }
  }

  lemma BelowThenWithin(o: Graph, m: Graph, g: Graph, key: Key, dependency: Key)
    requires Below(o, m, key) && Within(m, g, dependency)
    requires o.traces.Keys == o.memos.Keys
    requires Needs(Now(g), key, dependency)
    ensures Below(o, g, key)
  {
    assert forall k :: k in o.memos ==> Untouched(o, m, k) || m.memos[k].verifiedAt == m.revision;
    AccountedTwice(o, m, g);
    CallsNeededTwice(o, m, g, key, false, dependency);
    forall k {:trigger Untouched(o, g, k)} | k in g.memos && !Untouched(o, g, k)
      ensures && g.memos[k].verifiedAt == g.revision
              && (if k in o.memos then o.memos[k].verifiedAt != g.revision else AsDurable(g, k))
              && Needs(Now(g), key, k)
    {
      if !Untouched(m, g, k) {
        if k != dependency {
          NeedsTransitive(Now(g), key, dependency, k);
        }
        if k in o.memos {
          assert !Untouched(o, m, k) || m.memos[k] == o.memos[k];
        } else {
          assert !Untouched(o, m, k);
        }
      } else {
        assert !Untouched(o, m, k);
        if k !in o.memos {
          AsDurableStays(m, g, dependency, k);
        }
      }
    }
  }

  lemma WithinTwice(o: Graph, m: Graph, g: Graph, key: Key)
    requires Within(o, m, key) && Within(m, g, key)
    ensures Within(o, g, key)
  {
    assert forall k :: k in o.memos ==> Untouched(o, m, k) || m.memos[k].verifiedAt == m.revision;
    AccountedTwice(o, m, g);
    CallsNeededTwice(o, m, g, key, true, key);
    forall k {:trigger Untouched(o, g, k)} | k in g.memos && !Untouched(o, g, k)
      ensures && g.memos[k].verifiedAt == g.revision
              && (if k in o.memos then o.memos[k].verifiedAt != g.revision else AsDurable(g, k))
              && (k == key || Needs(Now(g), key, k))
    {
      if !Untouched(m, g, k) {
        if k in o.memos {
          assert !Untouched(o, m, k) || m.memos[k] == o.memos[k];
        } else {
          assert !Untouched(o, m, k);
        }
      } else {
        assert !Untouched(o, m, k);
        if k !in o.memos {
          AsDurableStays(m, g, key, k);
        }
      }
    }
  }

  /** What the computation of a key needs never writes that key's own memo: to be
      written it would have to need itself, and then it would have no value. */
  lemma BelowKeepsSelf(o: Graph, g: Graph, key: Key)
    requires Inv(g) && Below(o, g, key)
    ensures key in g.memos ==> Untouched(o, g, key)
  {
    if key in g.memos && !Untouched(o, g, key) {
      SelfNeedDiverges(Now(g), key);
      var atOnce := Eval(Now(g), 0, key);
      if key !in g.inputs {
        ShallowIsCurrent(g, key);
      }
    }
  }

  /** Nor calls that key's own function, if it has a value. */
  lemma NotCalledItself(o: Graph, g: Graph, key: Key, value: Value)
    requires Below(o, g, key) && Is(Now(g), key, Done(value))
    ensures key !in NewCalls(o, g)
  {
    assert CallNeeded(o, g, key, false, key);
    if key in NewCalls(o, g) {
      SelfNeedDiverges(Now(g), key);
    }
  }

  ghost function DurabilityIn(g: Graph, key: Key): Durability {
    if key in g.inputs then g.inputs[key].durability
    else if key in g.memos then g.memos[key].durability
    else Low
  }

  /** The row `execute` writes for a computation told `answers` at the current
      revision. */
  ghost predicate FreshRow(g: Graph, key: Key, row: Row, answers: seq<Answer>)
    requires Shape(g)
  {
    && Traces(Now(g), key, answers)
    && Ask(Now(g).functions, key, answers) == Return(row.value)
    && row.dependencies == DependenciesOf(Now(g).functions, key, answers)
    && row.untracked == UntrackedIn(Now(g).functions, key, answers)
    && (row.untracked ==> row.durability == Low)
    && row.verifiedAt == g.revision
    && (if key in g.memos && g.memos[key].value == row.value &&
           row.durability.Level() >= g.memos[key].durability.Level()
        then row.changedAt == g.memos[key].changedAt
        else row.changedAt == g.revision)
    && (row.untracked || row.durability == High ||
          exists d :: d in row.dependencies && DurabilityIn(g, d) == row.durability)
    && forall d :: d in row.dependencies ==>
         && row.durability.Level() <= DurabilityIn(g, d).Level()
         && Available(g, d)
  }

  /** `key` can be read from the graph as it is. */
  ghost predicate Available(g: Graph, key: Key) {
    key in g.inputs || (key in g.memos && g.memos[key].verifiedAt == g.revision)
  }

  lemma WriteMemoKeeps(g: Graph, key: Key, row: Row, answers: seq<Answer>)
    requires Inv(g) && key !in g.inputs
    requires key in g.memos ==> !Shallow(g, g.memos[key])
    requires FreshRow(g, key, row, answers)
    ensures Inv(WriteMemo(g, key, row, answers))
  {
    var h := WriteMemo(g, key, row, answers);
    WrittenShape(g, key, row, answers);
    WrittenStamps(g, key, row, answers);
    forall other {:trigger RowOk(h, other)} | Live(h, other) ensures RowOk(h, other) {
      WrittenRow(g, other, key, row, answers);
    }
    forall other, dependency {:trigger EdgeOk(h, other, dependency)} |
      Live(h, other) && dependency in h.memos[other].dependencies
      ensures EdgeOk(h, other, dependency)
    {
      if other == key {
        WrittenOut(g, key, row, answers, dependency);
      } else {
        WrittenIn(g, other, key, row, answers, dependency);
      }
    }
  }

  lemma WrittenShape(g: Graph, key: Key, row: Row, answers: seq<Answer>)
    requires Inv(g) && FreshRow(g, key, row, answers)
    requires key in g.memos ==> !Shallow(g, g.memos[key])
    ensures Shape(WriteMemo(g, key, row, answers))
    ensures forall other {:trigger InputOk(WriteMemo(g, key, row, answers), other)} :: other in g.inputs ==>
              InputOk(WriteMemo(g, key, row, answers), other)
  {
    var h := WriteMemo(g, key, row, answers);
    forall other {:trigger InputOk(h, other)} | other in h.inputs ensures InputOk(h, other) {
      assert InputOk(g, other);
    }
  }

  lemma WrittenStamps(g: Graph, key: Key, row: Row, answers: seq<Answer>)
    requires Inv(g) && FreshRow(g, key, row, answers) && Shape(WriteMemo(g, key, row, answers))
    requires key !in g.inputs && (key in g.memos ==> !Shallow(g, g.memos[key]))
    ensures Stamps(WriteMemo(g, key, row, answers))
  {
    var h := WriteMemo(g, key, row, answers);
    forall other {:trigger SettingsOk(h, other)} | other in h.inputs ensures SettingsOk(h, other) {
      assert SettingsOk(g, other);
    }
    forall other {:trigger RunsOk(h, other)} | other in h.memos ensures RunsOk(h, other) {
      if other == key {
        WrittenRuns(g, key, row, answers);
      } else {
        assert RunsOk(g, other);
      }
    }
    forall other {:trigger IsPast(h, other)} ensures IsPast(h, other) {
      assert IsPast(g, other);
      if other == key {
        TraceReturns(Now(g), key, answers);
      }
    }
  }

  /** The stamp of the row that is written is where its function last came to something else. */
  lemma WrittenRuns(g: Graph, key: Key, row: Row, answers: seq<Answer>)
    requires Inv(g) && FreshRow(g, key, row, answers) && Shape(WriteMemo(g, key, row, answers))
    requires key in g.memos ==> !Shallow(g, g.memos[key])
    ensures RunsOk(WriteMemo(g, key, row, answers), key)
  {
    var before := Moments(g.runs, key);
    if key in g.memos {
      assert RunsOk(g, key);
      RanAgain(before, Moment(g.revision, row.value, row.durability));
    }
  }

  lemma RanAgain(runs: seq<Moment>, run: Moment)
    requires runs != [] && Climbs(runs) && runs[|runs| - 1].revision < run.revision
    ensures Climbs(runs + [run])
    ensures LastMoved(runs + [run]) == if Differs(runs[|runs| - 1], run) then run.revision else LastMoved(runs)
  {
    assert (runs + [run])[..|runs|] == runs;
    forall i | 0 <= i < |runs| ensures runs[i].revision < run.revision {
      assert i < |runs| - 1 ==> runs[i].revision < runs[|runs| - 1].revision;
    }
  }

  lemma WrittenRow(g: Graph, other: Key, key: Key, row: Row, answers: seq<Answer>)
    requires Inv(g) && key !in g.inputs
    requires FreshRow(g, key, row, answers)
    requires Live(WriteMemo(g, key, row, answers), other)
    requires Shape(WriteMemo(g, key, row, answers))
    ensures RowOk(WriteMemo(g, key, row, answers), other)
  {
    if other in g.memos {
      assert RowOk(g, other);
    }
  }

  lemma WrittenOut(g: Graph, key: Key, row: Row, answers: seq<Answer>, dependency: Key)
    requires Inv(g) && key !in g.inputs
    requires key in g.memos ==> !Shallow(g, g.memos[key])
    requires FreshRow(g, key, row, answers)
    requires dependency in row.dependencies
    requires Shape(WriteMemo(g, key, row, answers))
    ensures EdgeOk(WriteMemo(g, key, row, answers), key, dependency)
  {
    if dependency in g.inputs {
      assert InputOk(g, dependency);
    } else {
      assert RowOk(g, dependency) && RunsOk(g, dependency);
      ShallowIsCurrent(g, dependency);
    }
  }

  lemma WrittenIn(g: Graph, other: Key, key: Key, row: Row, answers: seq<Answer>, dependency: Key)
    requires Inv(g) && key !in g.inputs
    requires key in g.memos ==> !Shallow(g, g.memos[key])
    requires FreshRow(g, key, row, answers)
    requires Live(g, other) && other != key && dependency in g.memos[other].dependencies
    requires Shape(WriteMemo(g, key, row, answers))
    ensures EdgeOk(WriteMemo(g, key, row, answers), other, dependency)
  {
    assert RowOk(g, other);
    assert EdgeOk(g, other, dependency);
  }

  /** The graph after `set_input` has changed something: a new revision, about a world
      in which the unrecorded state may be anything. */
  ghost function SetInput(
      g: Graph, key: Key, value: Value, durability: Durability, outside: Value): Graph
    requires g.revision < |g.worlds|
  {
    var revision := g.revision + 1;
    g.(revision := revision,
       levels := Announced(g.levels, AnnouncedLevel(g.inputs, key, durability) + 1, revision),
       inputs := g.inputs[key := Input(value, revision, durability)],
       settings := g.settings[key := Moments(g.settings, key) + [Moment(revision, value, durability)]],
       worlds := g.worlds +
         [World(Now(g).functions, Now(g).inputs[key := value], outside)])
  }

  /** The larger of the input's new durability and the one it had. */
  function AnnouncedLevel(inputs: map<Key, Input>, key: Key, durability: Durability): nat {
    if key in inputs && inputs[key].durability.Level() > durability.Level()
    then inputs[key].durability.Level()
    else durability.Level()
  }

  /** Every level below `count` stamped with `revision`. */
  function Announced(levels: map<nat, nat>, count: nat, revision: nat): map<nat, nat> {
    if count == 0 then levels else Announced(levels, count - 1, revision)[count - 1 := revision]
  }

  lemma {:induction false} AnnouncedAt(levels: map<nat, nat>, count: nat, revision: nat, durability: Durability)
    ensures ChangedAtOrAbove(Announced(levels, count, revision), durability) ==
              if durability.Level() < count then revision else ChangedAtOrAbove(levels, durability)
  {
    if count > 0 {
      AnnouncedAt(levels, count - 1, revision, durability);
    }
  }

  lemma {:induction false} AnnouncedStamps(levels: map<nat, nat>, count: nat, revision: nat)
    requires forall level :: level in levels ==> levels[level] <= revision
    ensures forall level :: level in Announced(levels, count, revision) ==>
              Announced(levels, count, revision)[level] <= revision
  {
    if count > 0 {
      AnnouncedStamps(levels, count - 1, revision);
    }
  }

  /** A memo that verifies shallowly, and that an announcement up to `announced` leaves so. */
  ghost predicate Unannounced(g: Graph, memo: Key, announced: nat) {
    Live(g, memo) && Shallow(g, g.memos[memo]) && announced < g.memos[memo].durability.Level()
  }

  /** What a caller who turns a derived key into an input must keep to: no memo the
      announcement would leave alone has read it. */
  ghost predicate MaySet(g: Graph, key: Key, durability: Durability) {
    key in g.inputs
    || forall memo :: memo != key && Unannounced(g, memo, durability.Level()) ==>
         key !in g.memos[memo].dependencies
  }

  /** What a memo that verifies shallowly has read as a derived key is no less durable. */
  lemma ReadIsAsDurable(g: Graph, memo: Key, key: Key)
    requires Inv(g) && Live(g, memo) && Shallow(g, g.memos[memo])
    requires key in g.memos[memo].dependencies && key !in g.inputs
    ensures Live(g, key) && NameOf(key) in Now(g).functions
    ensures g.memos[memo].durability.Level() <= g.memos[key].durability.Level()
  {
    assert EdgeOk(g, memo, key);
    assert RowOk(g, key);
  }

  /** Three things a caller can see to: the key names no function, it has no memo, or it is
      set no less durable than its memo is. */
  lemma MaySetUnread(g: Graph, key: Key, durability: Durability)
    requires Inv(g)
    requires NameOf(key) !in Now(g).functions || key !in g.memos
             || durability.Level() >= g.memos[key].durability.Level()
    ensures MaySet(g, key, durability)
  {
    forall memo | key !in g.inputs && memo != key && Unannounced(g, memo, durability.Level())
      ensures key !in g.memos[memo].dependencies
    {
      if key in g.memos[memo].dependencies {
        ReadIsAsDurable(g, memo, key);
      }
    }
  }

  /** The memos that still verify shallowly after the change. */
  ghost function StillShallow(g: Graph, h: Graph): set<Key> {
    set memo | memo in g.memos && Live(g, memo) && memo !in h.inputs && Shallow(h, g.memos[memo])
  }

  /** Such a memo was shallow and above what was announced. */
  lemma StillUnannounced(g: Graph, key: Key, value: Value, durability: Durability, outside: Value, memo: Key)
    requires Inv(g) && memo in StillShallow(g, SetInput(g, key, value, durability, outside))
    ensures Unannounced(g, memo, AnnouncedLevel(g.inputs, key, durability)) && memo != key
    ensures RowOk(g, memo) && !g.memos[memo].untracked
  {
    assert RowOk(g, memo);
    AnnouncedAt(g.levels, AnnouncedLevel(g.inputs, key, durability) + 1, g.revision + 1, g.memos[memo].durability);
  }

  lemma UnannouncedStays(g: Graph, key: Key, value: Value, durability: Durability, outside: Value, memo: Key)
    requires Inv(g) && memo != key && Unannounced(g, memo, AnnouncedLevel(g.inputs, key, durability))
    ensures memo in StillShallow(g, SetInput(g, key, value, durability, outside))
  {
    AnnouncedAt(g.levels, AnnouncedLevel(g.inputs, key, durability) + 1, g.revision + 1, g.memos[memo].durability);
  }

  /** What a memo above the announcement reads: an input, other than one just set, or a memo
      above it too. */
  lemma UnannouncedEdge(g: Graph, key: Key, durability: Durability, memo: Key, dependency: Key)
    requires Inv(g) && Unannounced(g, memo, AnnouncedLevel(g.inputs, key, durability))
    requires dependency in g.memos[memo].dependencies
    ensures dependency in g.inputs ==> dependency != key
    ensures dependency !in g.inputs ==>
              Unannounced(g, dependency, AnnouncedLevel(g.inputs, key, durability))
  {
    assert RowOk(g, memo);
    assert EdgeOk(g, memo, dependency);
  }

  /** `key` is derived, and worth `value` already. */
  ghost predicate SameWorth(g: Graph, key: Key, value: Value) {
    Live(g, key) && Shallow(g, g.memos[key]) && g.memos[key].value == value
  }

  /** So what still verifies shallowly computes to the same, as long as none of it reads the
      key that is set; or as long as that is worth the same. */
  lemma SetInputUnmoved(g: Graph, key: Key, value: Value, durability: Durability, outside: Value)
    requires Inv(g) && (MaySet(g, key, durability) || SameWorth(g, key, value))
    ensures var h := SetInput(g, key, value, durability, outside);
            Unmoved(Now(g), Now(h), g.traces, StillShallow(g, h))
  {
    var h := SetInput(g, key, value, durability, outside);
    forall memo | memo in StillShallow(g, h)
      ensures memo in g.traces && Keeps(Now(g), Now(h), StillShallow(g, h), memo, g.traces[memo])
    {
      StillUnannounced(g, key, value, durability, outside, memo);
      forall j | 0 <= j < |g.traces[memo]|
        ensures ReadsSame(Now(g), Now(h), StillShallow(g, h), memo, g.traces[memo], j)
      {
        UnannouncedRead(g, key, value, durability, outside, memo, j);
      }
    }
  }

  lemma UnannouncedRead(g: Graph, key: Key, value: Value, durability: Durability, outside: Value, memo: Key, j: nat)
    requires Inv(g) && (MaySet(g, key, durability) || SameWorth(g, key, value))
    requires memo != key && Unannounced(g, memo, AnnouncedLevel(g.inputs, key, durability))
    requires RowOk(g, memo) && !g.memos[memo].untracked && j < |g.traces[memo]|
    ensures var h := SetInput(g, key, value, durability, outside);
            ReadsSame(Now(g), Now(h), StillShallow(g, h), memo, g.traces[memo], j)
  {
    var h := SetInput(g, key, value, durability, outside);
    assert Answered(Now(g), memo, g.traces[memo], j);
    ReadIsRecorded(Now(g).functions, memo, g.traces[memo], j);
    var dependency := Ask(Now(g).functions, memo, g.traces[memo][..j]).key;
    UnannouncedEdge(g, key, durability, memo, dependency);
    if dependency in g.inputs {
      assert Eval(Now(g), 0, dependency) == Done(Now(h).inputs[dependency]);
    } else if dependency == key {
      ShallowIsCurrent(g, key);
    } else {
      UnannouncedStays(g, key, value, durability, outside, dependency);
    }
  }

  /** What `set_input` takes for a change. */
  ghost predicate News(g: Graph, key: Key, value: Value, durability: Durability) {
    key in g.inputs ==> g.inputs[key].value != value || g.inputs[key].durability != durability
  }

  lemma SetInputKeeps(g: Graph, key: Key, value: Value, durability: Durability, outside: Value)
    requires Inv(g) && MaySet(g, key, durability) && News(g, key, value, durability)
    ensures Inv(SetInput(g, key, value, durability, outside))
  {
    var h := SetInput(g, key, value, durability, outside);
    SetInputShape(g, key, value, durability, outside);
    SetInputStamps(g, key, value, durability, outside);
    forall other {:trigger InputOk(h, other)} | other in h.inputs ensures InputOk(h, other) {
      if other != key {
        assert InputOk(g, other);
      }
    }
    forall other {:trigger RowOk(h, other)} | Live(h, other) ensures RowOk(h, other) {
      SetInputRow(g, key, value, durability, outside, other);
    }
    forall other, dependency {:trigger EdgeOk(h, other, dependency)} |
      Live(h, other) && dependency in h.memos[other].dependencies
      ensures EdgeOk(h, other, dependency)
    {
      SetInputEdge(g, key, value, durability, outside, other, dependency);
    }
  }

  lemma SetInputShape(g: Graph, key: Key, value: Value, durability: Durability, outside: Value)
    requires Inv(g)
    ensures Shape(SetInput(g, key, value, durability, outside))
  {
    var count := AnnouncedLevel(g.inputs, key, durability) + 1;
    AnnouncedAt(g.levels, count, g.revision + 1, Low);
    AnnouncedStamps(g.levels, count, g.revision + 1);
  }

  lemma SetInputStamps(g: Graph, key: Key, value: Value, durability: Durability, outside: Value)
    requires Inv(g) && News(g, key, value, durability)
    requires Shape(SetInput(g, key, value, durability, outside))
    ensures Stamps(SetInput(g, key, value, durability, outside))
  {
    var h := SetInput(g, key, value, durability, outside);
    forall other {:trigger SettingsOk(h, other)} | other in h.inputs ensures SettingsOk(h, other) {
      if other == key {
        NewSetting(g, key, value, durability, outside);
      } else {
        assert SettingsOk(g, other);
      }
    }
    forall other {:trigger RunsOk(h, other)} | other in h.memos ensures RunsOk(h, other) {
      assert RunsOk(g, other);
    }
    forall other {:trigger IsPast(h, other)} ensures IsPast(h, other) {
      PastStays(g, key, value, durability, outside, other);
    }
  }

  lemma PastStays(g: Graph, key: Key, value: Value, durability: Durability, outside: Value, other: Key)
    requires Inv(g) && Shape(SetInput(g, key, value, durability, outside))
    ensures IsPast(SetInput(g, key, value, durability, outside), other)
  {
    var h := SetInput(g, key, value, durability, outside);
    assert IsPast(g, other);
    assert forall t :: 0 <= t < |g.worlds| ==> h.worlds[t] == g.worlds[t];
    if other == key {
      assert Eval(Now(h), 0, key) == Done(value);
    }
  }

  lemma NewSetting(g: Graph, key: Key, value: Value, durability: Durability, outside: Value)
    requires Inv(g) && News(g, key, value, durability)
    requires Shape(SetInput(g, key, value, durability, outside))
    ensures SettingsOk(SetInput(g, key, value, durability, outside), key)
  {
    if key in g.inputs {
      assert SettingsOk(g, key) && InputOk(g, key);
    }
  }

  lemma SetInputRow(
      g: Graph, key: Key, value: Value, durability: Durability, outside: Value, memo: Key)
    requires Inv(g) && MaySet(g, key, durability) && Live(g, memo) && memo != key
    requires Shape(SetInput(g, key, value, durability, outside))
    ensures RowOk(SetInput(g, key, value, durability, outside), memo)
  {
    var h := SetInput(g, key, value, durability, outside);
    assert RowOk(g, memo);
    if Shallow(h, g.memos[memo]) {
      SetInputUnmoved(g, key, value, durability, outside);
      UnmovedTraces(Now(g), Now(h), g.traces, StillShallow(g, h), memo);
    }
  }

  lemma SetInputEdge(
      g: Graph, key: Key, value: Value, durability: Durability, outside: Value,
      memo: Key, dependency: Key)
    requires Inv(g) && MaySet(g, key, durability)
    requires Live(g, memo) && memo != key && dependency in g.memos[memo].dependencies
    requires Shape(SetInput(g, key, value, durability, outside))
    ensures EdgeOk(SetInput(g, key, value, durability, outside), memo, dependency)
  {
    var h := SetInput(g, key, value, durability, outside);
    assert RowOk(g, memo);
    assert EdgeOk(g, memo, dependency);
    if Shallow(h, g.memos[memo]) {
      StillUnannounced(g, key, value, durability, outside, memo);
      UnannouncedEdge(g, key, durability, memo, dependency);
      if dependency !in g.inputs {
        UnannouncedStays(g, key, value, durability, outside, dependency);
      }
    }
  }
}
