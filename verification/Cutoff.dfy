/** A store in which what was recomputed came to what it was, so that what had read it was not
    executed. */
module Cutoff {
  import opened Scratch
  import opened MemoGraph
  import opened Evaluator
  import opened Histories

  /** Reads `a`, and is worth 7 whatever that is. */
  const CONSTANT: Computation :=
    (argument: string, answers: seq<Answer>) => if |answers| == 0 then Read("a") else Return([7])

  /** Reads `c`, and is worth one more. */
  const ABOVE: Computation :=
    (argument: string, answers: seq<Answer>) =>
      if |answers| == 0 then Read("c")
      else Return(if answers[0] == Got([7]) then [8] else [])

  const TWO: Functions := map["c" := CONSTANT, "d" := ABOVE]

  lemma TwoNames()
    ensures NameOf("a") == "a" && NameOf("c") == "c" && NameOf("d") == "d"
  {
    assert "a"[1..] == "" && "c"[1..] == "" && "d"[1..] == "";
  }

  /** From scratch, whatever `a` is. */
  lemma TwoAreWorth(w: World)
    requires w.functions == TWO && w.inputs.Keys == {"a"}
    ensures Eval(w, 2, "c") == Done([7]) && Eval(w, 2, "d") == Done([8])
    ensures forall value :: Is(w, "c", Done(value)) ==> value == [7]
  {
    TwoNames();
    assert Eval(w, 0, "a") == Eval(w, 1, "a") == Done(w.inputs["a"]);
    assert Eval(w, 1, "c") == Run(w, 1, "c", []) == Run(w, 0, "c", [] + [Got(w.inputs["a"])]) == Done([7]);
    MoreFuel(w, 1, 2, "c");
    assert Eval(w, 2, "d") == Run(w, 2, "d", []) == Run(w, 1, "d", [] + [Got([7])]) == Done([8]);
    forall value | Is(w, "c", Done(value)) ensures value == [7] {
      assert Is(w, "c", Done([7]));
      OneOutcome(w, "c", Done(value), Done([7]));
    }
  }

  lemma AboveAnswered(w: World, reply: Reply<Value>)
    requires w.functions == TWO && w.inputs.Keys == {"a"} && Faithful(w, "d", 2, reply)
    ensures reply == Ok([8])
  {
    TwoAreWorth(w);
    AnswersWhereDefined(w, "d", 2, reply);
  }

  /** What the two functions read on the way to a value. */
  lemma TwoRead(w: World, key: Key, answers: seq<Answer>)
    requires w.functions == TWO && (key == "c" || key == "d")
    requires Traces(w, key, answers) && Ask(TWO, key, answers).Return?
    ensures NameOf(key) == key && DependenciesOf(TWO, key, answers) == if key == "c" then ["a"] else ["c"]
    ensures !UntrackedIn(TWO, key, answers)
  {
    TwoNames();
    if |answers| > 0 {
      assert Answered(w, key, answers, |answers| - 1);
      assert |answers| == 1 && answers[..0] == [];
    }
  }

  /** Nothing but `a` has been set, and nothing asked for. */
  ghost predicate OnlyASet(o: Graph) {
    && Inv(o) && o.revision == 1 && o.memos == map[] && o.runs == map[] && o.inputs.Keys == {"a"}
    && o.inputs["a"].durability == Low
    && o.worlds[0].inputs == map[] && o.worlds[0].functions == o.worlds[1].functions == TWO && o.worlds[1].outside == []
  }

  /** Then `d` has been asked for: both memos are as durable as `a`. */
  ghost predicate AskedAbove(o: Graph, g: Graph) {
    OnlyASet(o) && Inv(g) && Within(o, g, "d") && Live(g, "d") && g.memos["d"].verifiedAt == g.revision
  }

  lemma AboveMemos(o: Graph, g: Graph)
    requires AskedAbove(o, g)
    ensures Live(g, "c") && Live(g, "d") && g.memos["d"].dependencies == ["c"] && !g.memos["d"].untracked
    ensures g.memos["c"].dependencies == ["a"] && g.memos["c"].durability == Low && g.memos["d"].durability == Low
    ensures g.memos["c"].verifiedAt == g.memos["d"].verifiedAt == 1 && Shallow(g, g.memos["c"])
  {
    assert RowOk(g, "d") && !Untouched(o, g, "d") && AsDurable(g, "d");
    TwoRead(Now(g), "d", g.traces["d"]);
    assert "c" in g.memos["d"].dependencies && Available(g, "c");
    assert RowOk(g, "c") && !Untouched(o, g, "c") && AsDurable(g, "c");
    TwoRead(Now(g), "c", g.traces["c"]);
    assert "a" in g.memos["c"].dependencies && DurabilityIn(g, "a") == Low;
  }

  /** With no `a` there is no `c`. */
  lemma NothingToRead(w: World, value: Value)
    requires w.functions == TWO && w.inputs == map[]
    ensures !Is(w, "c", Done(value))
  {
    TwoNames();
    assert Eval(w, 0, "a") == Failed(UnknownFunction("a"));
    assert Eval(w, 1, "c") == Run(w, 1, "c", []) == Failed(UnknownFunction("a"));
    assert Is(w, "c", Failed(UnknownFunction("a")));
    if Is(w, "c", Done(value)) {
      OneOutcome(w, "c", Done(value), Failed(UnknownFunction("a")));
    }
  }

  /** Three worlds of the two functions, of which the first has no `a`. */
  ghost predicate AfterNothing(h: Graph) {
    && |h.worlds| == 3 && h.worlds[0].functions == h.worlds[1].functions == h.worlds[2].functions == TWO
    && h.worlds[0].inputs == map[] && h.worlds[1].inputs.Keys == h.worlds[2].inputs.Keys == {"a"}
  }

  /** `c` comes to 7 in every revision in which `a` is set. */
  lemma SevenEachTime(h: Graph)
    requires IsPast(h, "c") && "c" in h.runs
    requires AfterNothing(h)
    ensures forall i :: 0 <= i < |h.runs["c"]| ==> h.runs["c"][i].revision > 0 && h.runs["c"][i].value == [7]
  {
    var runs := h.runs["c"];
    forall i | 0 <= i < |runs| ensures runs[i].revision > 0 && runs[i].value == [7] {
      assert WasWorth(h, "c", runs[i]);
      if runs[i].revision == 0 {
        NothingToRead(h.worlds[0], runs[i].value);
      } else {
        TwoAreWorth(h.worlds[runs[i].revision]);
      }
    }
  }

  /** What always comes to 7 and was Low in revision 1 has not moved by revision 2. */
  lemma NeverLess(known: seq<Moment>, runs: seq<Moment>)
    requires known != [] && known <= runs && Climbs(runs) && known[|known| - 1].durability == Low
    requires known[|known| - 1].revision == 1 && runs[|runs| - 1].revision <= 2
    requires forall i :: 0 <= i < |runs| ==> runs[i].value == [7]
    ensures forall i :: 0 < i < |runs| && runs[i].revision > 1 ==> !Differs(runs[i - 1], runs[i])
  {
    var last := |known| - 1;
    assert runs[last] == known[last];
    forall i | 0 < i < |runs| && runs[i].revision > 1 ensures !Differs(runs[i - 1], runs[i]) {
      assert runs[i - 1].revision < runs[i].revision <= 2;
    }
  }

  lemma ConstantStays(g: Graph, h: Graph)
    requires Inv(g) && Inv(h) && "c" in g.memos && "c" in h.memos && "c" !in h.inputs
    requires g.memos["c"].durability == Low && g.memos["c"].verifiedAt == 1 && h.revision == 2
    requires g.runs["c"] <= h.runs["c"]
    requires AfterNothing(h)
    ensures !Moved(h, "c", 1)
  {
    SevenEachTime(h);
    assert RunsOk(g, "c") && RunsOk(h, "c");
    var last := |g.runs["c"]| - 1;
    assert h.runs["c"][last] == g.runs["c"][last];
    NeverLess(g.runs["c"], h.runs["c"]);
  }

  /** What `c` is told is what `a` is worth. */
  lemma ToldOfA(w: World, answers: seq<Answer>)
    requires w.functions == TWO && "a" in w.inputs
    requires Traces(w, "c", answers) && Ask(TWO, "c", answers).Return?
    ensures answers == [Got(w.inputs["a"])]
  {
    TwoNames();
    assert |answers| > 0 && Answered(w, "c", answers, |answers| - 1);
    assert |answers| == 1 && answers[..0] == [] && Answered(w, "c", answers, 0);
    assert Eval(w, 0, "a") == Done(w.inputs["a"]);
    OneOutcome(w, "a", Done(answers[0].value), Done(w.inputs["a"]));
  }

  /** Once `a` is worth something else, what `c` was told is not what it would be told. */
  lemma ConstantIsCalled(g: Graph, n: Graph, h: Graph)
    requires Inv(g) && Inv(h) && Live(g, "c") && Live(h, "c") && |n.calls| <= |h.calls| && AccountOf(n, h, "c")
    requires Shallow(g, g.memos["c"]) && Shallow(h, h.memos["c"]) && n.traces == g.traces
    requires Now(g).functions == Now(h).functions == TWO && "a" in Now(g).inputs && "a" in Now(h).inputs
    requires Now(g).inputs["a"] != Now(h).inputs["a"]
    ensures "c" in NewCalls(n, h)
  {
    assert RowOk(g, "c") && RowOk(h, "c");
    ToldOfA(Now(g), g.traces["c"]);
    ToldOfA(Now(h), h.traces["c"]);
  }

  lemma SecondQuery(n: Graph, h: Graph, second: Value)
    requires Inv(h) && Within(n, h, "d") && Live(h, "d") && h.memos["d"].verifiedAt == h.revision
    requires Now(n).functions == TWO && Now(n).inputs == map["a" := second] && "c" !in n.inputs
    ensures Live(h, "c") && Shallow(h, h.memos["c"])
    ensures Now(h) == Now(n)
  {
    assert RowOk(h, "d");
    TwoRead(Now(h), "d", h.traces["d"]);
    assert EdgeOk(h, "d", "c");
  }

  /** `d` is asked for after `a` has been given another value. */
  ghost predicate AskedTwice(g: Graph, n: Graph, h: Graph, second: Value) {
    && Inv(g) && g.revision == 1 && Live(g, "d") && Live(g, "c") && Shallow(g, g.memos["c"])
    && g.memos["d"].dependencies == ["c"] && !g.memos["d"].untracked
    && g.memos["c"].durability == Low && g.memos["c"].verifiedAt == g.memos["d"].verifiedAt == 1
    && g.worlds[0].inputs == map[] && g.worlds[0].functions == TWO && g.inputs.Keys == {"a"}
    && g.inputs["a"].value != second
    && n == SetInput(g, "a", second, Low, []) && Inv(h) && Within(n, h, "d")
    && Live(h, "d") && h.memos["d"].verifiedAt == 2
  }

  lemma SecondWorld(g: Graph, second: Value)
    requires Shape(g) && g.inputs.Keys == {"a"}
    ensures var n := SetInput(g, "a", second, Low, []);
            n.worlds == g.worlds + [World(g.worlds[0].functions, map["a" := second], [])]
  {
    assert Now(g).inputs["a" := second] == map["a" := second];
  }

  /** The inputs have been nothing, the first `a` and the second. */
  lemma ThreeWorlds(g: Graph, n: Graph, h: Graph, second: Value)
    requires AskedTwice(g, n, h, second)
    ensures Now(g).inputs["a"] != second && Now(g).functions == TWO && Now(n).functions == TWO
    ensures Now(n).inputs == map["a" := second]
    ensures AfterNothing(h)
  {
    assert InputOk(g, "a") && h.worlds == n.worlds;
    SecondWorld(g, second);
  }

  lemma BelowIsCalled(g: Graph, n: Graph, h: Graph, second: Value)
    requires AskedTwice(g, n, h, second)
    ensures "c" in NewCalls(n, h)
  {
    ThreeWorlds(g, n, h, second);
    SecondQuery(n, h, second);
    assert AccountOf(n, h, "c");
    ConstantIsCalled(g, n, h);
  }

  lemma AboveIsNotCalled(g: Graph, n: Graph, h: Graph, second: Value)
    requires AskedTwice(g, n, h, second)
    ensures "d" !in NewCalls(n, h)
  {
    ThreeWorlds(g, n, h, second);
    SecondQuery(n, h, second);
    assert AccountOf(n, h, "c") && AccountOf(n, h, "d") && g.runs["c"] <= h.runs["c"];
    ConstantStays(g, h);
  }

  lemma OnlyBelow(o: Graph, g: Graph, n: Graph, h: Graph, second: Value)
    requires AskedAbove(o, g) && g.inputs["a"].value != second && n == SetInput(g, "a", second, Low, [])
    requires Inv(h) && Within(n, h, "d") && Live(h, "d") && h.memos["d"].verifiedAt == 2
    ensures "c" in NewCalls(n, h) && "d" !in NewCalls(n, h)
  {
    AboveMemos(o, g);
    BelowIsCalled(g, n, h, second);
    AboveIsNotCalled(g, n, h, second);
  }

  method SetA(first: Value) returns (store: Store)
    ensures fresh(store) && store.Valid() && OnlyASet(store.View()) && store.inputs == map["a" := Input(first, 1, Low)]
  {
    store := new Store(TWO, []);
    TwoNames();
    MaySetUnread(store.View(), "a", Low);
    var changed := store.SetInput("a", first, Low, []);
  }

  /** A store in which `d` was asked for, and what it was before. */
  method AskedForAbove(first: Value) returns (store: Store, ghost before: Graph)
    ensures fresh(store) && store.Valid() && AskedAbove(before, store.View())
    ensures store.inputs == map["a" := Input(first, 1, Low)]
  {
    store := SetA(first);
    before := store.View();
    var reply := store.Evaluate(TWO, [], "d", 2);
    AboveAnswered(Now(before), reply);
  }

  method SetAnew(store: Store, second: Value)
    requires store.Valid() && store.inputs.Keys == {"a"} && store.inputs["a"].value != second
    requires Now(store.View()).functions == TWO
    modifies store
    ensures store.Valid() && store.View() == SetInput(old(store.View()), "a", second, Low, [])
  {
    TwoNames();
    MaySetUnread(store.View(), "a", Low);
    var changed := store.SetInput("a", second, Low, []);
  }

  /** From an empty store: set `a`, ask for `d`, give `a` another value and ask for `d` again. The
      second time `c` is executed and comes to what it was, and `d` is not executed. */
  method ConstantCutsOff(first: Value, second: Value)
    returns (store: Store, again: Reply<Value>, ghost before: Graph)
    requires first != second
    ensures again == Ok([8]) && before.calls <= store.calls
    ensures "c" in NewCalls(before, store.View()) && "d" !in NewCalls(before, store.View())
  {
    ghost var o;
    store, o := AskedForAbove(first);
    ghost var g := store.View();
    SetAnew(store, second);
    before := store.View();
    again := store.Evaluate(TWO, [], "d", 2);
    AboveAnswered(Now(before), again);
    OnlyBelow(o, g, before, store.View(), second);
  }
}
