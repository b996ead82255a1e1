/** Where the evaluator's promise ends: the two things a caller must not do, when exactly
    each goes wrong, and a store in which it does. */
module Boundaries {
  import opened Options
  import opened Scratch
  import opened MemoGraph
  import opened Evaluator
  import opened Histories

  // ---- setting as an input a key that is derived ---------------------------------------

  /** What shallow verification accepts was told what its computation would be told now. */
  ghost predicate AcceptsOnlyCurrent(g: Graph)
    requires g.revision < |g.worlds| && g.memos.Keys <= g.traces.Keys
  {
    forall memo :: Live(g, memo) && Shallow(g, g.memos[memo]) ==> Traces(Now(g), memo, g.traces[memo])
  }

  /** An input may be set exactly when no memo the announcement would leave shallow has read
      its key as a derived one, or when it is worth that already. */
  lemma SetInputIsSafeExactly(g: Graph, key: Key, value: Value, durability: Durability, outside: Value)
    requires Inv(g)
    ensures AcceptsOnlyCurrent(SetInput(g, key, value, durability, outside))
            <==> MaySet(g, key, durability) || SameWorth(g, key, value)
  {
    var h := SetInput(g, key, value, durability, outside);
    if MaySet(g, key, durability) || SameWorth(g, key, value) {
      forall memo | Live(h, memo) && Shallow(h, h.memos[memo])
        ensures Traces(Now(h), memo, h.traces[memo])
      {
        assert RowOk(g, memo);
        SetInputUnmoved(g, key, value, durability, outside);
        UnmovedTraces(Now(g), Now(h), g.traces, StillShallow(g, h), memo);
      }
    } else {
      var memo :| memo != key && Unannounced(g, memo, durability.Level()) && key in g.memos[memo].dependencies;
      UnannouncedStays(g, key, value, durability, outside, memo);
      ReaderIsTold(g, memo, key, value, h);
    }
  }

  /** A memo that read a key as derived was told what the key was worth. */
  lemma ReaderIsTold(g: Graph, memo: Key, key: Key, value: Value, h: Graph)
    requires Inv(g) && Live(g, memo) && Shallow(g, g.memos[memo])
    requires key in g.memos[memo].dependencies && key !in g.inputs && !SameWorth(g, key, value)
    requires h.revision < |h.worlds| && Now(h).functions == Now(g).functions
    requires key in Now(h).inputs && Now(h).inputs[key] == value
    ensures memo in g.traces && !Traces(Now(h), memo, g.traces[memo])
  {
    assert RowOk(g, memo) && EdgeOk(g, memo, key);
    ShallowIsCurrent(g, key);
    var i :| 0 <= i < |g.memos[memo].dependencies| && g.memos[memo].dependencies[i] == key;
    var j := FirstRead(Now(g).functions, memo, g.traces[memo], i);
    assert Answered(Now(g), memo, g.traces[memo], j);
    OneOutcome(Now(g), key, Done(g.traces[memo][j].value), Done(g.memos[key].value));
    assert Eval(Now(h), 0, key) == Done(value);
    if Traces(Now(h), memo, g.traces[memo]) {
      assert Answered(Now(h), memo, g.traces[memo], j);
      OneOutcome(Now(h), key, Done(g.traces[memo][j].value), Done(value));
    }
  }

  /** Whatever the value, then, exactly when no such memo has read the key; and that is what
      keeps the invariant every later operation needs. */
  lemma SetInputKeepsExactly(g: Graph, key: Key, durability: Durability, outside: Value)
    requires Inv(g)
    ensures (forall value :: AcceptsOnlyCurrent(SetInput(g, key, value, durability, outside)))
            <==> MaySet(g, key, durability)
    ensures forall value :: News(g, key, value, durability) ==>
              (Inv(SetInput(g, key, value, durability, outside)) <==> MaySet(g, key, durability))
  {
    forall value
      ensures AcceptsOnlyCurrent(SetInput(g, key, value, durability, outside))
              <==> MaySet(g, key, durability) || SameWorth(g, key, value)
      ensures News(g, key, value, durability) ==>
                (Inv(SetInput(g, key, value, durability, outside)) <==> MaySet(g, key, durability))
    {
      SetInputIsSafeExactly(g, key, value, durability, outside);
      if News(g, key, value, durability) {
        InvKeptExactly(g, key, value, durability, outside);
      }
    }
    var other: Value := if key in g.memos && g.memos[key].value == [] then [0] else [];
    assert !SameWorth(g, key, other);
    assert AcceptsOnlyCurrent(SetInput(g, key, other, durability, outside)) ==> MaySet(g, key, durability);
  }

  lemma InvKeptExactly(g: Graph, key: Key, value: Value, durability: Durability, outside: Value)
    requires Inv(g) && News(g, key, value, durability)
    ensures Inv(SetInput(g, key, value, durability, outside)) <==> MaySet(g, key, durability)
  {
    var h := SetInput(g, key, value, durability, outside);
    if MaySet(g, key, durability) {
      SetInputKeeps(g, key, value, durability, outside);
    } else {
      var memo :| memo != key && Unannounced(g, memo, durability.Level()) && key in g.memos[memo].dependencies;
      UnannouncedStays(g, key, value, durability, outside, memo);
      assert RowOk(g, memo);
      assert Shape(h) ==> !EdgeOk(h, memo, key);
    }
  }

  // ---- unrecorded state that moves within a revision -----------------------------------

  /** A memo that declared an untracked read was told what it would be told now exactly as
      long as the unrecorded state has not moved since the revision began. */
  lemma OutsideSeenExactly(g: Graph, memo: Key, outside: Value)
    requires Inv(g) && Live(g, memo) && Shallow(g, g.memos[memo]) && g.memos[memo].untracked
    ensures Traces(Now(g).(outside := outside), memo, g.traces[memo]) <==> outside == Now(g).outside
  {
    assert RowOk(g, memo);
    var j := UntrackedAsks(Now(g).functions, memo, g.traces[memo]);
    assert Answered(Now(g), memo, g.traces[memo], j);
    var moved := Now(g).(outside := outside);
    if Traces(moved, memo, g.traces[memo]) {
      assert Answered(moved, memo, g.traces[memo], j);
    }
  }

  lemma {:induction false} UntrackedAsks(functions: Functions, key: Key, answers: seq<Answer>) returns (j: nat)
    requires NameOf(key) in functions && UntrackedIn(functions, key, answers)
    ensures j < |answers| && Ask(functions, key, answers[..j]).ReportUntracked?
    decreases |answers|
  {
    var before := answers[..|answers| - 1];
    if UntrackedIn(functions, key, before) {
      j := UntrackedAsks(functions, key, before);
      assert before[..j] == answers[..j];
    } else {
      j := |answers| - 1;
    }
  }

  /** The shallow memos more durable than `Low`. */
  ghost function Durable(g: Graph): set<Key> {
    set memo | memo in g.memos && Live(g, memo) && Shallow(g, g.memos[memo]) && !g.memos[memo].durability.Low?
  }

  /** A memo more durable than `Low` has seen nothing of the unrecorded state, through
      anything it read: wherever that moves, the memo holds its key's value. */
  lemma OutsideUnseen(g: Graph, memo: Key, outside: Value)
    requires Inv(g) && memo in Durable(g)
    ensures Is(Now(g).(outside := outside), memo, Done(g.memos[memo].value))
  {
    var moved := Now(g).(outside := outside);
    forall key | key in Durable(g)
      ensures key in g.traces && Keeps(Now(g), moved, Durable(g), key, g.traces[key])
    {
      assert RowOk(g, key);
      forall j | 0 <= j < |g.traces[key]|
        ensures ReadsSame(Now(g), moved, Durable(g), key, g.traces[key], j)
      {
        DurableRead(g, key, j);
      }
    }
    UnmovedTraces(Now(g), moved, g.traces, Durable(g), memo);
    assert RowOk(g, memo);
    TraceReturns(moved, memo, g.traces[memo]);
  }

  lemma DurableRead(g: Graph, key: Key, j: nat)
    requires Inv(g) && key in Durable(g) && RowOk(g, key) && j < |g.traces[key]|
    ensures var step := Ask(Now(g).functions, key, g.traces[key][..j]);
            step.Read? && (step.key in Durable(g)
                           || (step.key in Now(g).inputs && Is(Now(g), step.key, Done(Now(g).inputs[step.key]))))
  {
    assert Answered(Now(g), key, g.traces[key], j);
    ReadIsRecorded(Now(g).functions, key, g.traces[key], j);
    var dependency := Ask(Now(g).functions, key, g.traces[key][..j]).key;
    assert EdgeOk(g, key, dependency);
    if dependency in g.inputs {
      assert Eval(Now(g), 0, dependency) == Done(Now(g).inputs[dependency]);
    }
  }

  // ---- a store in which each goes wrong ------------------------------------------------

  /** Reads `b`, and is worth what `b` is worth. */
  const COPY: Computation :=
    (argument: string, answers: seq<Answer>) =>
      if |answers| == 0 then Read("b")
      else Return(if answers[0].Got? then answers[0].value else [])

  const ZERO: Computation := (argument: string, answers: seq<Answer>) => Return([0])

  /** Declares an untracked read, and is worth what it sees. */
  const PEEK: Computation :=
    (argument: string, answers: seq<Answer>) =>
      if |answers| == 0 then ReportUntracked
      else Return(if answers[0].Outside? then answers[0].state else [])

  const FUNCTIONS: Functions := map["a" := COPY, "b" := ZERO, "p" := PEEK]

  lemma Names()
    ensures NameOf("a") == "a" && NameOf("b") == "b" && NameOf("p") == "p"
  {
    assert "a"[1..] == "" && "b"[1..] == "" && "p"[1..] == "";
  }

  const FIRST := World(FUNCTIONS, map[], [7])

  /** What the functions read on the way to a value. */
  lemma TracesOf(w: World, key: Key, answers: seq<Answer>)
    requires w.functions == FUNCTIONS && key in FUNCTIONS && NameOf(key) == key
    requires Traces(w, key, answers) && Ask(FUNCTIONS, key, answers).Return?
    ensures DependenciesOf(FUNCTIONS, key, answers) == if key == "a" then ["b"] else []
    ensures UntrackedIn(FUNCTIONS, key, answers) <==> key == "p"
  {
    if |answers| > 0 {
      assert Answered(w, key, answers, |answers| - 1);
      assert |answers| == 1 && answers[..0] == [];
    }
  }

  /** An empty store that was asked for a key holds its memo. */
  lemma FirstMemo(g: Graph, key: Key)
    requires Inv(g) && Within(Empty(FUNCTIONS, [7]), g, key)
    requires key in FUNCTIONS && NameOf(key) == key && key in g.memos
    ensures Live(g, key) && Shallow(g, g.memos[key]) && AsDurable(g, key)
    ensures g.memos[key].verifiedAt == g.revision
    ensures g.memos[key].dependencies == if key == "a" then ["b"] else []
    ensures g.memos[key].untracked <==> key == "p"
  {
    assert RowOk(g, key) && !Untouched(Empty(FUNCTIONS, [7]), g, key);
    TracesOf(Now(g), key, g.traces[key]);
  }

  /** The memo of `a` is as durable as that of `b`, which reads nothing. */
  lemma CopyIsHigh(g: Graph)
    requires Inv(g) && Within(Empty(FUNCTIONS, [7]), g, "a") && "a" in g.memos
    ensures Live(g, "a") && Shallow(g, g.memos["a"]) && g.memos["a"].dependencies == ["b"]
    ensures Live(g, "b") && g.memos["a"].durability == High
  {
    Names();
    FirstMemo(g, "a");
    assert "b" in g.memos["a"].dependencies && Available(g, "b");
    assert !Untouched(Empty(FUNCTIONS, [7]), g, "b");
    assert RowOk(g, "b");
    TracesOf(Now(g), "b", g.traces["b"]);
  }

  /** An empty store, asked for `a`. */
  method AskedForACopy() returns (store: Store)
    ensures fresh(store) && store.Valid() && Within(Empty(FUNCTIONS, [7]), store.View(), "a")
    ensures "a" in store.memos && store.memos["a"].value == [0]
  {
    store := new Store(FUNCTIONS, [7]);
    var reply := store.Evaluate(FUNCTIONS, [7], "a", 1);
    Names();
    assert Eval(FIRST, 1, "a") == Done([0]) by {
      assert Eval(FIRST, 0, "b") == Done([0]);
      assert Run(FIRST, 0, "a", [] + [Got([0])]) == Done([0]);
    }
    AnswersWhereDefined(FIRST, "a", 1, reply);
  }

  /** What is left of it when `b` is set. */
  lemma CopyOfASetKey(g: Graph)
    requires Inv(g) && Within(Empty(FUNCTIONS, [7]), g, "a") && "a" in g.memos
    ensures var h := SetInput(g, "b", [1], Low, [7]);
            && Live(h, "a") && Shallow(h, h.memos["a"]) && !h.memos["a"].untracked
            && Now(h) == World(FUNCTIONS, map["b" := [1]], [7]) && Is(Now(h), "a", Done([1]))
  {
    var h := SetInput(g, "b", [1], Low, [7]);
    Names();
    CopyIsHigh(g);
    FirstMemo(g, "a");
    AnnouncedAt(g.levels, 1, g.revision + 1, High);
    assert Eval(Now(h), 1, "a") == Done([1]) by {
      assert Eval(Now(h), 0, "b") == Done([1]);
      assert Run(Now(h), 0, "a", [] + [Got([1])]) == Done([1]);
    }
  }

  /** From an empty store: ask for `a`, which reads the derived `b`, set `b` as an input, and
      ask again. The answer is the old one, and not what `a` is worth. */
  method SettingADerivedKeyGoesStale() returns (store: Store, again: Reply<Value>)
    ensures again == Ok([0])
    ensures store.revision < |store.worlds| && Is(Now(store.View()), "a", Done([1]))
  {
    store := AskedForACopy();
    CopyOfASetKey(store.View());
    var changed := store.SetInput("b", [1], Low, [7]);
    again := store.Evaluate(FUNCTIONS, [7], "a", 1);
  }

  /** From an empty store: ask for `p`, and let what it looks at move. In the same revision it
      is not looked at again. */
  method OutsideMovingWithinARevisionGoesStale(outside: Value) returns (store: Store, again: Reply<Value>)
    requires outside != [7]
    ensures var g := store.View();
            && store.Valid() && Live(g, "p") && g.memos["p"].untracked && again == Ok([7])
            && Is(Now(g).(outside := outside), "p", Done(outside))
  {
    store := new Store(FUNCTIONS, [7]);
    var reply := store.Evaluate(FUNCTIONS, [7], "p", 1);
    Names();
    assert Eval(FIRST, 1, "p") == Done([7]) by {
      assert Run(FIRST, 0, "p", [] + [Outside([7])]) == Done([7]);
    }
    AnswersWhereDefined(FIRST, "p", 1, reply);
    FirstMemo(store.View(), "p");
    again := store.Evaluate(FUNCTIONS, [7], "p", 1);
    ghost var moved := Now(store.View()).(outside := outside);
    assert Eval(moved, 1, "p") == Done(outside) by {
      assert Run(moved, 0, "p", [] + [Outside(outside)]) == Done(outside);
    }
  }
}
