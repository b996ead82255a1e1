/** What a history does not execute: nothing it asks for again is, unless something it rests
    on really moved. */
module Economy {
  import opened Scratch
  import opened MemoGraph
  import opened Quiet
  import opened Evaluator
  import opened Histories

  // ---- a function is called for a reason ----------------------------------------------

  predicate LessDurable(a: Durability, b: Durability) {
    (a == Low && b != Low) || (a == Medium && b == High)
  }

  /** In a revision after `since`, an input was given another value or durability than it had,
      or a function came to another value than before, or to one less durable. What it had and
      what it was given are what the key was worth in the revisions they were of. */
  ghost predicate ReallyMoved(g: Graph, key: Key, since: nat) {
    if key in g.inputs then
      exists i :: 0 <= i < |Moments(g.settings, key)| && since < g.settings[key][i].revision <= g.revision
                  && WasWorth(g, key, g.settings[key][i])
                  && (i > 0 ==> && WasWorth(g, key, g.settings[key][i - 1])
                                && (|| g.settings[key][i - 1].value != g.settings[key][i].value
                                    || g.settings[key][i - 1].durability != g.settings[key][i].durability))
    else
      exists i :: 0 < i < |Moments(g.runs, key)| && since < g.runs[key][i].revision <= g.revision
                  && WasWorth(g, key, g.runs[key][i - 1]) && WasWorth(g, key, g.runs[key][i])
                  && (|| g.runs[key][i - 1].value != g.runs[key][i].value
                      || LessDurable(g.runs[key][i].durability, g.runs[key][i - 1].durability))
  }

  /** Whenever a query calls the function of a key that has a memo, the memo is of an earlier
      revision, and has looked at something untracked or read something that really moved. */
  lemma CalledForAReason(g: Graph, h: Graph, asked: Key, key: Key)
    requires Inv(g) && Inv(h) && Within(g, h, asked)
    requires key in NewCalls(g, h) && key in g.memos
    ensures var row := g.memos[key];
            && key !in g.inputs && row.verifiedAt < g.revision
            && (row.untracked || exists d :: d in row.dependencies && ReallyMoved(h, d, row.verifiedAt))
  {
    assert AccountOf(g, h, key) && RunsOk(g, key);
    var row := g.memos[key];
    if !row.untracked {
      var d :| d in row.dependencies && Moved(h, d, row.verifiedAt);
      MovedIsReal(h, d, row.verifiedAt);
    }
  }

  lemma MovedIsReal(g: Graph, key: Key, since: nat)
    requires Inv(g) && Moved(g, key, since)
    ensures ReallyMoved(g, key, since)
  {
    assert IsPast(g, key);
    if key in g.inputs {
      var i :| 0 <= i < |g.settings[key]| && g.settings[key][i].revision > since
               && (i > 0 ==> IsNews(g.settings[key][i - 1], g.settings[key][i]));
      assert WasWorth(g, key, g.settings[key][i]);
    } else {
      var i :| 0 < i < |g.runs[key]| && g.runs[key][i].revision > since && Differs(g.runs[key][i - 1], g.runs[key][i]);
      assert WasWorth(g, key, g.runs[key][i]);
    }
  }

  /** Early cutoff: however often what a memo read was recomputed, as long as it came to the
      same value at no less durability each time, the memo's function is not called. */
  lemma CutOff(g: Graph, h: Graph, asked: Key, key: Key)
    requires Inv(g) && Inv(h) && Within(g, h, asked)
    requires key in g.memos && !g.memos[key].untracked
    requires forall d :: d in g.memos[key].dependencies ==> CameToTheSame(h, d, g.memos[key].verifiedAt)
    ensures key !in NewCalls(g, h)
  {
    if key in NewCalls(g, h) {
      assert AccountOf(g, h, key);
      var d :| d in g.memos[key].dependencies && Moved(h, d, g.memos[key].verifiedAt);
      SameIsUnmoved(h, d, g.memos[key].verifiedAt);
    }
  }

  lemma SameIsUnmoved(g: Graph, key: Key, since: nat)
    requires CameToTheSame(g, key, since)
    ensures !Moved(g, key, since)
  {
  }

  ghost predicate CameToTheSame(g: Graph, key: Key, since: nat) {
    if key in g.inputs then
      forall i :: 0 <= i < |Moments(g.settings, key)| ==> g.settings[key][i].revision <= since
    else
      forall i :: 0 < i < |Moments(g.runs, key)| && g.runs[key][i].revision > since ==>
        && g.runs[key][i].value == g.runs[key][i - 1].value
        && !LessDurable(g.runs[key][i].durability, g.runs[key][i - 1].durability)
  }

  // ---- what a key rests on -----------------------------------------------------------------

  /** Everything a key of `rest` has read, directly or not, is in `rest`, and none of it has
      looked at anything untracked. */
  ghost predicate Closed(g: Graph, rest: set<Key>) {
    forall key {:trigger MemoClosed(g, rest, key)} :: key in rest ==> key in g.inputs || MemoClosed(g, rest, key)
  }

  ghost predicate MemoClosed(g: Graph, rest: set<Key>, key: Key) {
    && Live(g, key) && !g.memos[key].untracked
    && forall d :: d in g.memos[key].dependencies ==> d in rest
  }

  ghost predicate Accepted(g: Graph, key: Key) {
    key in g.inputs || (key in g.memos && Shallow(g, g.memos[key]))
  }

  /** What a memo that shallow verification accepts has read is accepted too. */
  lemma AcceptedPart(g: Graph, rest: set<Key>) returns (part: set<Key>)
    requires Inv(g) && Closed(g, rest)
    ensures part <= rest && Closed(g, part)
    ensures forall key :: key in part <==> key in rest && Accepted(g, key)
  {
    part := set key | key in rest && Accepted(g, key);
    forall key | key in part && key !in g.inputs ensures MemoClosed(g, part, key) {
      assert MemoClosed(g, rest, key);
      forall d | d in g.memos[key].dependencies ensures d in part {
        assert EdgeOk(g, key, d);
      }
    }
  }

  lemma AcceptedIsAtRest(g: Graph, rest: set<Key>)
    requires Inv(g) && Closed(g, rest) && forall key :: key in rest ==> Accepted(g, key)
    ensures AtRest(g, rest)
  {
    forall key | key in rest && key !in g.inputs ensures MemoAtRest(g, rest, key) {
      assert MemoClosed(g, rest, key);
      forall d | d in g.memos[key].dependencies ensures d in rest && !Moved(g, d, g.memos[key].verifiedAt) {
        assert EdgeOk(g, key, d);
        StampIsTheLastMove(g, key, d);
      }
    }
  }

  // ---- nothing at rest is called --------------------------------------------------------------

  /** Each memo of `rest` ranks above every memo it has read. */
  ghost predicate Ordered(g: Graph, rest: set<Key>, rank: map<Key, nat>) {
    forall key, d {:trigger Ranks(g, rank, key, d)} ::
      key in rest && key in g.memos && d in g.memos[key].dependencies ==> Ranks(g, rank, key, d)
  }

  ghost predicate Ranks(g: Graph, rank: map<Key, nat>, key: Key, d: Key) {
    d in g.inputs || key in g.inputs || (d in rank && key in rank && rank[d] < rank[key])
  }

  /** The least fuel a key is computed with, if it is with `fuel`. */
  ghost function LeastFuel(w: World, key: Key, fuel: nat): nat {
    if fuel > 0 && !Eval(w, fuel - 1, key).Unfinished? then LeastFuel(w, key, fuel - 1) else fuel
  }

  lemma {:induction false} LeastFuelIsLeast(w: World, key: Key, fuel: nat, other: nat)
    requires !Eval(w, fuel, key).Unfinished? && !Eval(w, other, key).Unfinished?
    ensures LeastFuel(w, key, fuel) <= other && !Eval(w, LeastFuel(w, key, fuel), key).Unfinished?
    decreases fuel
  {
    if fuel > 0 && !Eval(w, fuel - 1, key).Unfinished? {
      LeastFuelIsLeast(w, key, fuel - 1, other);
    } else if other < fuel {
      MoreFuel(w, other, fuel - 1, key);
    }
  }

  /** A memo takes more to compute than what it has read. */
  lemma FuelRanks(g: Graph, rest: set<Key>) returns (rank: map<Key, nat>)
    requires Inv(g) && Closed(g, rest) && forall key :: key in rest ==> Accepted(g, key)
    ensures Ordered(g, rest, rank)
  {
    var w := Now(g);
    forall key | key in rest && key !in g.inputs ensures exists fuel: nat :: !Eval(w, fuel, key).Unfinished? {
      assert MemoClosed(g, rest, key);
      ShallowIsCurrent(g, key);
      var fuel: nat :| Eval(w, fuel, key) == Done(g.memos[key].value);
    }
    rank := map key | key in rest && key !in g.inputs ::
      (var fuel: nat :| !Eval(w, fuel, key).Unfinished?; LeastFuel(w, key, fuel));
    forall key, d | key in rest && key in g.memos && d in g.memos[key].dependencies ensures Ranks(g, rank, key, d) {
      if key !in g.inputs && d !in g.inputs {
        assert MemoClosed(g, rest, key);
        FuelOfRead(g, key, d);
        var least: nat := rank[key];
        LeastAnyway(w, key, rank[key]);
        LeastAnyway(w, d, rank[d]);
      }
    }
  }

  lemma LeastAnyway(w: World, key: Key, least: nat)
    requires exists fuel: nat :: !Eval(w, fuel, key).Unfinished? && least == LeastFuel(w, key, fuel)
    ensures !Eval(w, least, key).Unfinished? && forall other: nat :: !Eval(w, other, key).Unfinished? ==> least <= other
  {
    var fuel: nat :| !Eval(w, fuel, key).Unfinished? && least == LeastFuel(w, key, fuel);
    forall other: nat | !Eval(w, other, key).Unfinished? ensures least <= other {
      LeastFuelIsLeast(w, key, fuel, other);
    }
    LeastFuelIsLeast(w, key, fuel, fuel);
  }

  lemma FuelOfRead(g: Graph, key: Key, d: Key)
    requires Inv(g) && Live(g, key) && Shallow(g, g.memos[key]) && d in g.memos[key].dependencies
    ensures Needs(Now(g), key, d)
  {
    assert RowOk(g, key);
    var i :| 0 <= i < |g.memos[key].dependencies| && g.memos[key].dependencies[i] == d;
    var j := FirstRead(Now(g).functions, key, g.traces[key], i);
    TracesPrefix(Now(g), key, g.traces[key], j);
    ReadIsNeeded(Now(g), key, g.traces[key][..j]);
  }

  /** Whatever is asked for, no function of a key at rest is called: what it has read would
      have to have moved, and so to have been called before it. */
  lemma {:induction false} NotCalledAtRest(g: Graph, h: Graph, asked: Key, rest: set<Key>, rank: map<Key, nat>, key: Key)
    requires Inv(g) && Within(g, h, asked) && AtRest(g, rest) && Ordered(g, rest, rank) && key in rest
    ensures key !in NewCalls(g, h)
    decreases if key in rank then rank[key] else 0
  {
    assert AccountOf(g, h, key);
    if key in NewCalls(g, h) {
      assert MemoAtRest(g, rest, key);
      var d :| d in g.memos[key].dependencies && Moved(h, d, g.memos[key].verifiedAt);
      assert !Moved(g, d, g.memos[key].verifiedAt) && AccountOf(g, h, d) && Ranks(g, rank, key, d);
      NotCalledAtRest(g, h, asked, rest, rank, d);
    }
  }

  lemma QueryKeepsRest(g: Graph, h: Graph, asked: Key, rest: set<Key>, rank: map<Key, nat>)
    requires Inv(g) && Within(g, h, asked) && AtRest(g, rest) && Ordered(g, rest, rank)
    ensures AtRest(h, rest) && Ordered(h, rest, rank)
  {
    forall key | key in rest
      ensures key in g.memos ==> key in h.memos && Restamp(g.memos[key], h.memos[key])
      ensures Moments(h.runs, key) == Moments(g.runs, key)
    {
      NotCalledAtRest(g, h, asked, rest, rank, key);
      assert AccountOf(g, h, key);
    }
    forall key | key in rest && key !in h.inputs ensures MemoAtRest(h, rest, key) {
      assert MemoAtRest(g, rest, key);
      forall d | d in h.memos[key].dependencies ensures d in rest && !Moved(h, d, h.memos[key].verifiedAt) {
        LaterMovesLess(g, h, d, g.memos[key].verifiedAt, h.memos[key].verifiedAt);
      }
    }
    forall key, d | key in rest && key in h.memos && d in h.memos[key].dependencies ensures Ranks(h, rank, key, d) {
      assert key in g.inputs || MemoAtRest(g, rest, key);
      assert Ranks(g, rank, key, d) || key in g.inputs;
    }
  }

  lemma SettingKeepsRest(
      g: Graph, key: Key, value: Value, durability: Durability, outside: Value, rest: set<Key>, rank: map<Key, nat>)
    requires Inv(g) && AtRest(g, rest) && Ordered(g, rest, rank) && key !in rest
    ensures var h := SetInput(g, key, value, durability, outside);
            AtRest(h, rest) && Ordered(h, rest, rank)
  {
    var h := SetInput(g, key, value, durability, outside);
    forall other | other in rest && other !in h.inputs ensures MemoAtRest(h, rest, other) {
      assert MemoAtRest(g, rest, other);
    }
    forall other, d | other in rest && other in h.memos && d in h.memos[other].dependencies
      ensures Ranks(h, rank, other, d)
    {
      assert Ranks(g, rank, other, d);
    }
  }

  // ---- over a history ------------------------------------------------------------------------

  /** No operation from `i` to `j` sets a key of `rest`. */
  ghost predicate SetsNothingOf(operations: seq<Operation>, i: nat, j: nat, rest: set<Key>)
    requires j <= |operations|
  {
    forall n :: i <= n < j && operations[n].Set? ==> operations[n].key !in rest
  }

  lemma {:induction false} RestsOn(
      functions: Functions, start: Value, operations: seq<Operation>, fuel: nat, graphs: seq<Graph>,
      replies: seq<Reply<Value>>, i: nat, j: nat, rest: set<Key>, rank: map<Key, nat>)
    requires |replies| <= |operations| && Unfolds(functions, start, operations, fuel, graphs, replies)
    requires i <= j <= |replies| && AtRest(graphs[i], rest) && Ordered(graphs[i], rest, rank)
    requires SetsNothingOf(operations, i, j, rest)
    ensures AtRest(graphs[j], rest) && Ordered(graphs[j], rest, rank)
  {
    if i < j {
      RestsOn(functions, start, operations, fuel, graphs, replies, i, j - 1, rest, rank);
      var g, h := graphs[j - 1], graphs[j];
      assert Turn(functions, start, operations, fuel, graphs, replies, j - 1);
      match operations[j - 1] {
        case Query(key) => QueryKeepsRest(g, h, key, rest, rank);
        case Set(key, value, durability, outside) => SettingKeepsRest(g, key, value, durability, outside, rest, rank);
      }
    }
  }

  /** A key is asked for and answered, and later asked for again. If meanwhile nothing was set
      that it rests on, whatever else was set and asked, not one function is called. */
  lemma AskedAgainNothingIsCalled(
      functions: Functions, start: Value, operations: seq<Operation>, fuel: nat, graphs: seq<Graph>,
      replies: seq<Reply<Value>>, i: nat, j: nat, key: Key, rest: set<Key>)
    requires |replies| <= |operations| && Unfolds(functions, start, operations, fuel, graphs, replies)
    requires i < j < |replies| && operations[i] == operations[j] == Query(key) && replies[i].Ok?
    requires key in rest && Closed(graphs[i + 1], rest) && SetsNothingOf(operations, i, j, rest)
    ensures graphs[j + 1].calls == graphs[j].calls
  {
    var g := graphs[i + 1];
    assert Turn(functions, start, operations, fuel, graphs, replies, i);
    assert Turn(functions, start, operations, fuel, graphs, replies, i + 1);
    var part := AcceptedPart(g, rest);
    AcceptedIsAtRest(g, part);
    var rank := FuelRanks(g, part);
    RestsOn(functions, start, operations, fuel, graphs, replies, i + 1, j, part, rank);
    assert key in part && AtRest(graphs[j], part);
    assert Turn(functions, start, operations, fuel, graphs, replies, j);
  }

  // ---- more durable memos -------------------------------------------------------------------------

  /** Setting an input leaves a memo more durable than it was and is to shallow verification, which
      no function is called for; one verified in the revision before, to begin with. */
  lemma MoreDurableIsLeftAlone(g: Graph, key: Key, value: Value, durability: Durability, outside: Value, memo: Key)
    requires Inv(g) && Live(g, memo) && memo != key
    requires g.memos[memo].verifiedAt == g.revision || Shallow(g, g.memos[memo])
    requires LessDurable(durability, g.memos[memo].durability)
    requires key in g.inputs ==> LessDurable(g.inputs[key].durability, g.memos[memo].durability)
    ensures var h := SetInput(g, key, value, durability, outside);
            Live(h, memo) && h.memos[memo] == g.memos[memo] && Shallow(h, h.memos[memo])
  {
    AnnouncedAt(g.levels, AnnouncedLevel(g.inputs, key, durability) + 1, g.revision + 1, g.memos[memo].durability);
  }
}
