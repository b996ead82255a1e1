/** The persistent demand-driven evaluator: a store of inputs and memos, and a session
    that brings one key up to date by shallow verification, deep verification or
    execution. */
module Evaluator {
  import opened Options
  import opened Scratch
  import opened MemoGraph
  import opened Quiet

  /** What an evaluation comes to. `Exhausted` stands for running out of the host's call
      stack: it is what a computation that never ends comes to here. */
  datatype Reply<+T> = Ok(value: T) | Err(error: EvalError) | Exhausted

  datatype Frame = Frame(dependencies: seq<Key>, untracked: bool)

  /** A reply about `key` is the from-scratch outcome in `w`; a cycle is reported, and
      the fuel runs out, only where there is none to reach. */
  ghost predicate Faithful(w: World, key: Key, fuel: nat, reply: Reply<Value>) {
    match reply
    case Ok(value) => Is(w, key, Done(value))
    case Err(Cycle(_)) => Diverges(w, key)
    case Err(error) => Is(w, key, Failed(error))
    case Exhausted => Eval(w, fuel, key).Unfinished?
  }

  /** A reply that is not a value, about a key whose outcome `key` passes on. */
  ghost predicate Stopped<T>(w: World, key: Key, fuel: nat, reply: Reply<T>) {
    match reply
    case Ok(_) => true
    case Err(error) => Faithful(w, key, fuel, Err(error))
    case Exhausted => Faithful(w, key, fuel, Exhausted)
  }

  class Store {
    var revision: nat
    var levels: map<nat, nat>
    var inputs: map<Key, Input>
    var memos: map<Key, Row>
    ghost var worlds: seq<World>
    ghost var traces: map<Key, seq<Answer>>
    ghost var settings: map<Key, seq<Moment>>
    ghost var runs: map<Key, seq<Moment>>
    ghost var calls: seq<Key>

    ghost function View(): Graph
      reads this
    {
      Graph(revision, levels, inputs, memos, worlds, traces, settings, runs, calls)
    }

    ghost predicate Valid()
      reads this
    {
      Inv(View())
    }

    /** An empty store, for the functions that will be registered with it. */
    constructor (ghost functions: Functions, ghost outside: Value)
      ensures Valid()
      ensures View() == Empty(functions, outside)
    {
      revision, levels, inputs, memos := 0, map[], map[], map[];
      worlds, traces := [World(functions, map[], outside)], map[];
      settings, runs, calls := map[], map[], [];
    }

    /** Set an input's value and durability; `changed` says whether that was news.
        `outside` is what the unrecorded state becomes with the new revision. */
    method SetInput(key: Key, value: Value, durability: Durability, ghost outside: Value)
      returns (changed: bool)
      requires Valid()
      modifies this
      ensures changed <==> !(key in old(inputs) && old(inputs)[key].value == value
                             && old(inputs)[key].durability == durability)
      ensures !changed ==> View() == old(View())
      ensures changed ==> View() == MemoGraph.SetInput(old(View()), key, value, durability, outside)
      ensures changed ==> forall level: Durability :: (
                ChangedAtOrAbove(levels, level) ==
                if level.Level() <= durability.Level()
                   || (key in old(inputs) && level.Level() <= old(inputs)[key].durability.Level())
                then revision else ChangedAtOrAbove(old(levels), level))
      ensures MaySet(old(View()), key, durability) ==> Valid()
    {
      if key in inputs && inputs[key].value == value && inputs[key].durability == durability {
        return false;
      }
      ghost var g := View();
      Advance(key, value, durability, outside);
      forall level: Durability {
        AnnouncedAt(g.levels, AnnouncedLevel(g.inputs, key, durability) + 1, g.revision + 1, level);
      }
      if MaySet(g, key, durability) {
        SetInputKeeps(g, key, value, durability, outside);
      }
      return true;
    }

    /** Start a revision in which `key` is the input that changed. */
    method Advance(key: Key, value: Value, durability: Durability, ghost outside: Value)
      requires |worlds| == revision + 1
      modifies this
      ensures View() == MemoGraph.SetInput(old(View()), key, value, durability, outside)
    {
      var announced := durability.Level();
      if key in inputs && inputs[key].durability.Level() > announced {
        announced := inputs[key].durability.Level();
      }
      worlds := worlds + [World(worlds[revision].functions, worlds[revision].inputs[key := value], outside)];
      revision := revision + 1;
      inputs := inputs[key := Input(value, revision, durability)];
      settings := settings[key := Moments(settings, key) + [Moment(revision, value, durability)]];
      Announce(announced + 1);
    }

    /** Stamp every level below `count` with this revision. */
    method Announce(count: nat)
      modifies this`levels
      ensures levels == Announced(old(levels), count, revision)
    {
      for level := 0 to count
        invariant levels == Announced(old(levels), level, revision)
      {
        levels := levels[level := revision];
      }
    }

    /** Replace a memo, and what its computation was told. */
    method Put(key: Key, row: Row, ghost answers: seq<Answer>)
      modifies this`memos, this`traces, this`runs
      ensures View() == WriteMemo(old(View()), key, row, answers)
    {
      memos := memos[key := row];
      traces := traces[key := answers];
      runs := runs[key := Moments(runs, key) + [Moment(revision, row.value, row.durability)]];
    }

    /** The memo of `key` is one that shallow verification accepts. */
    ghost predicate AtHand(key: Key)
      reads this
    {
      Live(View(), key) && Shallow(View(), memos[key]) && !memos[key].untracked
    }

    /** Compute or reuse a derived value: a function that has a memo is called exactly when
        that is due. In a store whose promise is void, still, a memo that shallow verification
        accepts is what it answers with. */
    method Evaluate(functions: Functions, outside: Value, key: Key, fuel: nat) returns (reply: Reply<Value>)
      requires Valid() || AtHand(key)
      requires revision < |worlds| && functions == Now(View()).functions && outside == Now(View()).outside
      modifies this
      ensures old(calls) <= calls
      ensures old(Valid()) ==> Valid() && Within(old(View()), View(), key) && Still(old(View()), View(), key)
      ensures old(Valid()) ==> Faithful(Now(View()), key, fuel, reply)
      ensures old(Valid()) && reply.Ok? ==> Settled(View(), key, reply.value)
      ensures old(key in memos && memos[key].verifiedAt == revision) ==> View() == old(View())
      ensures old(AtHand(key)) ==> View() == old(View()) || View() == MarkVerified(old(View()), key)
      ensures old(AtHand(key) || (Valid() && Live(View(), key) && Shallow(View(), memos[key]))) ==>
                reply == Ok(old(memos)[key].value) && calls == old(calls)
      ensures old(Valid()) && reply.Ok? && old(Live(View(), key)) ==>
                (key in NewCalls(old(View()), View()) <==> Due(old(View()), View(), key))
    {
      var session := new Session(this, functions, outside);
      reply := session.Fetch(key, fuel);
    }
  }

  class Session {
    const store: Store
    const functions: Functions
    const revision: nat
    /** What a computation that has declared an untracked read may look at. */
    const outside: Value
    /** The keys being computed, innermost last: a repeat is a cycle. */
    var stack: seq<Key>
    /** One frame per key on the stack, recording what it read. */
    var frames: seq<Frame>
    /** Keys already verified or recomputed in this evaluation. */
    var settled: seq<Key>

    ghost predicate Open()
      reads this, store
    {
      && revision == store.revision < |store.worlds|
      && functions == Now(store.View()).functions
      && outside == Now(store.View()).outside
      && |stack| == |frames|
    }

    ghost predicate Ready()
      reads this, store
    {
      && Open() && store.Valid()
      && forall key :: key in settled ==>
           key in store.memos && store.memos[key].verifiedAt == revision
    }

    /** Every key being computed needs `key`. */
    ghost predicate Wanted(key: Key)
      requires Ready()
      reads this, store
    {
      AllNeed(Now(store.View()), stack, key)
    }

    constructor (store: Store, functions: Functions, outside: Value)
      requires store.revision < |store.worlds|
      requires functions == Now(store.View()).functions && outside == Now(store.View()).outside
      ensures this.store == store && stack == [] && Open() && (store.Valid() ==> Ready())
    {
      this.store, this.functions, this.outside := store, functions, outside;
      revision := store.revision;
      stack, frames, settled := [], [], [];
    }

    /** Read a dependency, recording the edge, once, after those before it. */
    method Read(key: Key, fuel: nat) returns (reply: Reply<Value>)
      requires Ready() && Wanted(key)
      modifies this, store
      ensures Ready() && Within(old(store.View()), store.View(), key)
      ensures stack == old(stack) && EdgeRecorded(old(frames), frames, key)
      ensures Faithful(Now(store.View()), key, fuel, reply)
      ensures reply.Ok? ==> Settled(store.View(), key, reply.value)
      decreases fuel, 5
    {
      RecordEdge(key);
      reply := Fetch(key, fuel);
    }

    method RecordEdge(key: Key)
      requires Ready()
      modifies this`frames
      ensures Ready() && EdgeRecorded(old(frames), frames, key)
    {
      if |frames| > 0 {
        var last := frames[|frames| - 1];
        if key !in last.dependencies {
          frames := frames[..|frames| - 1] + [last.(dependencies := last.dependencies + [key])];
        }
      }
    }

    /** The value of a key, computing or validating it as needed. */
    method Fetch(key: Key, fuel: nat) returns (reply: Reply<Value>)
      requires (Ready() && Wanted(key)) || (Open() && key !in stack && store.AtHand(key))
      modifies this, store
      ensures stack == old(stack) && frames == old(frames)
      ensures old(store.calls) <= store.calls
      ensures old(Ready() && Wanted(key)) ==>
                Ready() && Within(old(store.View()), store.View(), key) && Still(old(store.View()), store.View(), key)
      ensures old(Ready() && Wanted(key)) ==> Faithful(Now(store.View()), key, fuel, reply)
      ensures old(Ready() && Wanted(key)) && reply.Ok? ==> Settled(store.View(), key, reply.value)
      ensures key in stack && key !in store.inputs ==>
                reply == Err(Cycle(stack + [key])) && store.View() == old(store.View())
      ensures old(key in store.memos && store.memos[key].verifiedAt == revision) ==>
                store.View() == old(store.View())
      ensures old(key !in stack && store.AtHand(key)) ==>
                store.View() == old(store.View()) || store.View() == MemoGraph.MarkVerified(old(store.View()), key)
      ensures old(key !in stack && (store.AtHand(key)
                  || (Ready() && Live(store.View(), key) && Shallow(store.View(), store.memos[key])))) ==>
                reply == Ok(old(store.memos)[key].value) && store.calls == old(store.calls)
      ensures old(Ready() && Wanted(key)) && reply.Ok? && old(Live(store.View(), key)) ==>
                (key in NewCalls(old(store.View()), store.View()) <==> Due(old(store.View()), store.View(), key))
      decreases fuel, 4
    {
      ghost var o := store.View();
      ghost var promised := Ready() && Wanted(key);
      if key in store.inputs {
        assert Inv(o) ==> InputOk(o, key);
        assert Eval(Now(o), 0, key) == Done(store.inputs[key].value);
        return Ok(store.inputs[key].value);
      }
      if key in stack {
        SelfNeedDiverges(Now(o), key);
        return Err(Cycle(stack + [key]));
      }
      if key in store.memos {
        var existing := store.memos[key];
        var current := Validate(key, existing, fuel);
        if !current.Ok? {
          return if current.Err? then Err(current.error) else Exhausted;
        }
        if current.value {
          if promised {
            ShallowIsCurrent(store.View(), key);
          }
          return Ok(existing.value);
        }
      }
      ghost var m := store.View();
      reply := Execute(key, fuel);
      Executed(o, m, store.View(), key);
    }

    /** Whether a memo is still current, without recomputing it. */
    method Validate(key: Key, memo: Row, fuel: nat) returns (reply: Reply<bool>)
      requires Live(store.View(), key) && store.memos[key] == memo
      requires (Ready() && Wanted(key)) || (Open() && store.AtHand(key))
      modifies this, store
      ensures stack == old(stack) && frames == old(frames)
      ensures old(store.AtHand(key)) ==> reply == Ok(true)
      ensures old(store.AtHand(key)) ==>
                store.View() == old(store.View()) || store.View() == MemoGraph.MarkVerified(old(store.View()), key)
      ensures old(Ready() && Wanted(key)) ==>
                Ready() && Within(old(store.View()), store.View(), key) && Still(old(store.View()), store.View(), key)
      ensures old(Ready() && Wanted(key)) ==> Stopped(Now(store.View()), key, fuel, reply)
      ensures old(Ready() && Wanted(key)) && reply == Ok(true) ==> Settled(store.View(), key, memo.value)
      ensures old(Ready() && Wanted(key)) && reply.Ok? ==> (reply.value <==> !Due(old(store.View()), store.View(), key))
      ensures old(store.calls) <= store.calls
      ensures reply == Ok(true) ==> key !in NewCalls(old(store.View()), store.View())
      ensures reply == Ok(false) ==> key in store.memos && store.memos[key] == memo
      ensures memo.verifiedAt == revision ==> reply == Ok(true) && store.View() == old(store.View())
      ensures memo.untracked && memo.verifiedAt != revision ==> reply == Ok(false) && store.View() == old(store.View())
      ensures old(Ready()) && Shallow(old(store.View()), memo) ==>
                reply == Ok(true) && store.calls == old(store.calls)
      decreases fuel, 3
    {
      ghost var o := store.View();
      assert Inv(o) ==> RowOk(o, key);
      if memo.verifiedAt == revision || key in settled {
        return Ok(true);
      }
      // What an untracked read saw is not in the graph to compare.
      if memo.untracked {
        return Ok(false);
      }
      // Shallow: no input at least as durable as this memo has changed since.
      if ChangedAtOrAbove(store.levels, memo.durability) <= memo.verifiedAt {
        if store.Valid() {
          ShallowDependenciesCurrent(o, key);
          MarkedWithin(o, o, key);
          StillMarked(o, o, key);
          MarkVerifiedKeeps(o, key);
        }
        MarkVerified(key);
        return Ok(true);
      }
      reply := ValidateDeep(key, memo, fuel);
    }

    /** A memo shallow verification does not accept: one is current if nothing it read has
        changed. */
    method ValidateDeep(key: Key, memo: Row, fuel: nat) returns (reply: Reply<bool>)
      requires Ready() && Wanted(key) && Live(store.View(), key) && store.memos[key] == memo
      requires memo.verifiedAt < revision && !memo.untracked && !Shallow(store.View(), memo)
      modifies this, store
      ensures stack == old(stack) && frames == old(frames)
      ensures Ready() && Within(old(store.View()), store.View(), key) && Still(old(store.View()), store.View(), key)
      ensures Stopped(Now(store.View()), key, fuel, reply)
      ensures reply.Ok? ==> (reply.value <==> !Due(old(store.View()), store.View(), key))
      ensures reply == Ok(true) ==>
                Settled(store.View(), key, memo.value) && key !in NewCalls(old(store.View()), store.View())
      ensures reply == Ok(false) ==> key in store.memos && store.memos[key] == memo
      decreases fuel, 2
    {
      ghost var o := store.View();
      reply := WalkEdges(key, memo, fuel);
      ghost var g := store.View();
      if reply == Ok(true) {
        WalkedIsCurrent(o, g, key);
        MarkVerified(key);
      } else {
        BelowIsWithin(o, g, key);
        WalkedIsDue(o, g, key);
      }
    }

    /** Deep: walk the recorded edges, in the order they were read. */
    method WalkEdges(key: Key, memo: Row, fuel: nat) returns (reply: Reply<bool>)
      requires Ready() && Wanted(key)
      requires Live(store.View(), key) && store.memos[key] == memo && !memo.untracked
      modifies this, store
      ensures Ready() && Below(old(store.View()), store.View(), key) && Still(old(store.View()), store.View(), key)
      ensures Untouched(old(store.View()), store.View(), key)
      ensures stack == old(stack) && frames == old(frames)
      ensures Stopped(Now(store.View()), key, fuel, reply)
      ensures reply == Ok(true) ==> AllUnchanged(store.View(), memo, |memo.dependencies|)
      ensures reply == Ok(false) ==>
                exists d :: d in memo.dependencies && Changed(store.View(), d, memo.verifiedAt)
      decreases fuel, 1
    {
      ghost var o := store.View();
      for i := 0 to |memo.dependencies|
        invariant Ready() && Wanted(key)
        invariant stack == old(stack) && frames == old(frames)
        invariant Below(o, store.View(), key) && Untouched(o, store.View(), key) && Still(o, store.View(), key)
        invariant AllUnchanged(store.View(), memo, i)
      {
        ghost var g := store.View();
        var changed := CheckEdge(key, memo, i, fuel);
        EdgeWalked(o, g, store.View(), key, memo, i);
        if !changed.Ok? {
          return changed;
        }
        if changed.value {
          return Ok(false);
        }
      }
      return Ok(true);
    }

    /** One edge, those before it unchanged: whether its dependency changed since. */
    method CheckEdge(key: Key, memo: Row, i: nat, fuel: nat) returns (changed: Reply<bool>)
      requires Ready() && Wanted(key)
      requires Live(store.View(), key) && store.memos[key] == memo && !memo.untracked && i < |memo.dependencies|
      requires AllUnchanged(store.View(), memo, i)
      modifies this, store
      ensures Ready() && Within(old(store.View()), store.View(), memo.dependencies[i])
      ensures Still(old(store.View()), store.View(), memo.dependencies[i])
      ensures Needs(Now(store.View()), key, memo.dependencies[i])
      ensures stack == old(stack) && frames == old(frames)
      ensures !changed.Ok? ==> Stopped(Now(store.View()), key, fuel, changed)
      ensures changed == Ok(true) ==> Changed(store.View(), memo.dependencies[i], memo.verifiedAt)
      ensures changed == Ok(false) ==> Unchanged(store.View(), memo, memo.dependencies[i])
      decreases fuel, 0
    {
      ghost var g := store.View();
      var dependency := memo.dependencies[i];
      ghost var j := AboutToRead(g, key, i);
      NeedsToo(Now(g), stack, key, dependency);
      if fuel == 0 {
        return Exhausted;
      }
      changed := ChangedAfter(dependency, memo.verifiedAt, fuel - 1);
      if !changed.Ok? {
        StopsToo(Now(g), key, g.traces[key][..j], fuel, changed);
      }
    }

    method MarkVerified(key: Key)
      requires Open() && Live(store.View(), key)
      requires Ready() ==> Inv(MemoGraph.MarkVerified(store.View(), key))
      modifies this, store
      ensures Open() && (old(Ready()) ==> Ready()) && stack == old(stack) && frames == old(frames)
      ensures store.View() == MemoGraph.MarkVerified(old(store.View()), key)
    {
      store.memos := store.memos[key := store.memos[key].(verifiedAt := revision)];
      settled := settled + [key];
    }

    /** Whether a dependency changed after `since`. A derived dependency is brought up to
        date first. */
    method ChangedAfter(key: Key, since: nat, fuel: nat) returns (reply: Reply<bool>)
      requires Ready() && Wanted(key)
      modifies this, store
      ensures Ready() && Within(old(store.View()), store.View(), key) && Still(old(store.View()), store.View(), key)
      ensures stack == old(stack) && frames == old(frames)
      ensures Stopped(Now(store.View()), key, fuel, reply)
      ensures reply.Ok? ==>
                && (key in store.inputs || (key in store.memos && store.memos[key].verifiedAt == revision))
                && (reply.value <==> Changed(store.View(), key, since))
      decreases fuel, 5
    {
      if key in store.inputs {
        return Ok(store.inputs[key].changedAt > since);
      }
      var fetched := Fetch(key, fuel);
      match fetched
      case Err(error) => return Err(error);
      case Exhausted => return Exhausted;
      case Ok(_) => return Ok(store.memos[key].changedAt > since);
    }

    method Execute(key: Key, fuel: nat) returns (reply: Reply<Value>)
      requires Ready() && Wanted(key)
      requires Due(store.View(), store.View(), key)
      modifies this, store
      ensures Ready() && Within(old(store.View()), store.View(), key)
      ensures stack == old(stack) && frames == old(frames)
      ensures Faithful(Now(store.View()), key, fuel, reply)
      ensures reply.Ok? ==> Settled(store.View(), key, reply.value)
      ensures old(store.calls) <= store.calls
      ensures reply.Ok? || NameOf(key) in functions ==> old(store.calls) + [key] <= store.calls
      decreases fuel, 3
    {
      ghost var o := store.View();
      if NameOf(key) !in functions {
        assert Eval(Now(o), 0, key) == Failed(UnknownFunction(NameOf(key)));
        return Err(UnknownFunction(NameOf(key)));
      }
      var previous := if key in store.memos then Some(store.memos[key]) else None;

      CallKeeps(o, key);
      store.calls := store.calls + [key];
      assert store.View() == Call(o, key);
      var frame;
      ghost var answers;
      reply, frame, answers := Run(key, fuel);
      CalledWithin(o, store.View(), key);
      if reply.Ok? {
        Finish(o, key, previous, reply.value, frame, answers);
      }
    }

    /** Run the function of a key, with the key open and a frame of its own. */
    method Run(key: Key, fuel: nat) returns (reply: Reply<Value>, frame: Frame, ghost answers: seq<Answer>)
      requires Ready() && Wanted(key) && key !in store.inputs && NameOf(key) in functions
      modifies this, store
      ensures Ready() && Below(old(store.View()), store.View(), key)
      ensures stack == old(stack) && frames == old(frames)
      ensures Faithful(Now(store.View()), key, fuel, reply)
      ensures reply.Ok? ==>
                && Traces(Now(store.View()), key, answers) && Ask(functions, key, answers) == Return(reply.value)
                && frame == Recording(key, answers) && AllAvailable(store.View(), frame.dependencies)
      decreases fuel, 2, 1
    {
      stack := stack + [key];
      frames := frames + [Frame([], false)];
      reply, answers := Compute(functions[NameOf(key)], ArgumentOf(key), key, fuel);
      frame := frames[|frames| - 1];
      frames := frames[..|frames| - 1];
      stack := stack[..|stack| - 1];
      assert stack == old(stack) && frames == old(frames);
    }

    /** What is left to do once a function has come to a value. */
    method Finish(
        ghost o: Graph, key: Key, previous: Option<Row>, value: Value, frame: Frame, ghost answers: seq<Answer>)
      requires Ready() && Due(o, o, key) && Below(Call(o, key), store.View(), key)
      requires o.traces.Keys == o.memos.Keys
      requires previous == if key in o.memos then Some(o.memos[key]) else None
      requires Traces(Now(store.View()), key, answers) && Ask(functions, key, answers) == Return(value)
      requires frame == Recording(key, answers)
      requires AllAvailable(store.View(), frame.dependencies)
      modifies this, store
      ensures Ready() && stack == old(stack) && frames == old(frames)
      ensures Within(o, store.View(), key) && store.calls == old(store.calls)
      ensures Settled(store.View(), key, value)
    {
      ghost var g := store.View();
      CalledWithin(o, g, key);
      BelowKeepsSelf(Call(o, key), g, key);
      ghost var row := Record(key, previous, value, frame, answers);
      WrittenWithin(o, g, key, row, answers);
    }

    /** Write the memo of a computation that ended. */
    method Record(key: Key, previous: Option<Row>, value: Value, frame: Frame, ghost answers: seq<Answer>)
      returns (ghost row: Row)
      requires Ready() && key !in store.inputs
      requires previous == if key in store.memos then Some(store.memos[key]) else None
      requires previous.Some? ==> !Shallow(store.View(), previous.value)
      requires Traces(Now(store.View()), key, answers) && Ask(functions, key, answers) == Return(value)
      requires frame == Recording(key, answers)
      requires AllAvailable(store.View(), frame.dependencies)
      modifies this, store
      ensures Ready() && stack == old(stack) && frames == old(frames)
      ensures Settled(store.View(), key, value)
      ensures FreshRow(old(store.View()), key, row, answers)
      ensures store.View() == WriteMemo(old(store.View()), key, row, answers)
    {
      ghost var g := store.View();
      var durability := LeastDurable(frame.dependencies);
      // One that read something untracked is not durable at all.
      if frame.untracked {
        durability := Low;
      }
      // Early cutoff, with the guard: never when this memo is less durable than the one
      // it replaces.
      var backdate := previous.Some? && previous.value.value == value
                      && durability.Level() >= previous.value.durability.Level();
      var written := Row(value, if backdate then previous.value.changedAt else revision, revision,
                         durability, frame.untracked, frame.dependencies);
      Write(key, written, answers);
      row := written;
    }

    method Write(key: Key, row: Row, ghost answers: seq<Answer>)
      requires Ready() && key !in store.inputs
      requires key in store.memos ==> !Shallow(store.View(), store.memos[key])
      requires FreshRow(store.View(), key, row, answers)
      modifies this, store
      ensures Ready() && stack == old(stack) && frames == old(frames)
      ensures store.View() == WriteMemo(old(store.View()), key, row, answers)
    {
      WriteMemoKeeps(store.View(), key, row, answers);
      store.Put(key, row, answers);
      settled := settled + [key];
    }

    /** A memo is as durable as its least durable input. */
    method LeastDurable(dependencies: seq<Key>) returns (durability: Durability)
      ensures forall d :: d in dependencies ==> durability.Level() <= DurabilityOf(d).Level()
      ensures durability == High || exists d :: d in dependencies && DurabilityOf(d) == durability
    {
      durability := High;
      for i := 0 to |dependencies|
        invariant forall d :: d in dependencies[..i] ==> durability.Level() <= DurabilityOf(d).Level()
        invariant durability == High || exists d :: d in dependencies[..i] && DurabilityOf(d) == durability
      {
        durability := durability.Min(DurabilityOf(dependencies[i]));
      }
      assert dependencies[..|dependencies|] == dependencies;
    }

    function DurabilityOf(key: Key): Durability
      reads this, store
    {
      if key in store.inputs then store.inputs[key].durability
      else if key in store.memos then store.memos[key].durability
      else Low
    }

    /** Run one function, answering what it asks. */
    method Compute(computation: Computation, argument: string, ghost key: Key, fuel: nat)
      returns (reply: Reply<Value>, ghost answers: seq<Answer>)
      requires Ready() && |stack| > 0 && stack[|stack| - 1] == key
      requires AllNeed(Now(store.View()), stack[..|stack| - 1], key)
      requires frames[|frames| - 1] == Frame([], false)
      requires key !in store.inputs && NameOf(key) in functions
      requires computation == functions[NameOf(key)] && argument == ArgumentOf(key)
      modifies this, store
      ensures Ready() && Below(old(store.View()), store.View(), key)
      ensures stack == old(stack)
      ensures frames[..|frames| - 1] == old(frames[..|frames| - 1])
      ensures Faithful(Now(store.View()), key, fuel, reply)
      ensures reply.Ok? ==>
                && Traces(Now(store.View()), key, answers)
                && Ask(functions, key, answers) == Return(reply.value)
                && frames[|frames| - 1] == Recording(key, answers)
                && AllAvailable(store.View(), frames[|frames| - 1].dependencies)
      decreases fuel, 2, 0
    {
      ghost var o := store.View();
      var told: seq<Answer> := [];
      var left := fuel;
      answers := [];
      while true
        invariant Ready() && stack == old(stack)
        invariant frames[..|frames| - 1] == old(frames[..|frames| - 1])
        invariant Below(o, store.View(), key)
        invariant |told| + left == fuel && Traces(Now(o), key, told)
        invariant frames[|frames| - 1] == Recording(key, told)
        invariant AllAvailable(store.View(), frames[|frames| - 1].dependencies)
        decreases left
      {
        answers := told;
        var step := computation(argument, told);
        if step.Return? {
          TraceReturns(Now(o), key, told);
          return Ok(step.value), told;
        }
        if step.Fail? {
          TraceFails(Now(o), key, told);
          return Err(Function(step.reason)), told;
        }
        if left == 0 {
          if !Eval(Now(o), fuel, key).Unfinished? {
            FuelAfterTrace(Now(o), key, told, fuel);
          }
          return Exhausted, told;
        }
        ghost var g := store.View();
        var answer := Tell(step, key, told, fuel);
        if step.Read? {
          BelowThenWithin(o, g, store.View(), key, step.key);
        }
        if !answer.Ok? {
          return if answer.Err? then Err(answer.error) else Exhausted, told;
        }
        told := told + [answer.value];
        left := left - 1;
      }
    }

    /** Answer what the computation of `key`, told `told` so far, asks for next. What stops the
        answer stops the computation. */
    method Tell(step: Step, ghost key: Key, ghost told: seq<Answer>, fuel: nat)
      returns (answer: Reply<Answer>)
      requires Ready() && |stack| > 0 && stack[|stack| - 1] == key && fuel > 0
      requires AllNeed(Now(store.View()), stack[..|stack| - 1], key)
      requires key !in store.inputs && Traces(Now(store.View()), key, told)
      requires step == Ask(functions, key, told) && (step.Read? || step.ReportUntracked?)
      requires frames[|frames| - 1] == Recording(key, told)
      requires AllAvailable(store.View(), frames[|frames| - 1].dependencies)
      modifies this, store
      ensures Ready() && stack == old(stack)
      ensures if step.Read? then Within(old(store.View()), store.View(), step.key) && Needs(Now(store.View()), key, step.key)
              else store.View() == old(store.View())
      ensures |frames| == |old(frames)| && frames[..|frames| - 1] == old(frames)[..|frames| - 1]
      ensures answer.Ok? ==>
                && Traces(Now(store.View()), key, told + [answer.value])
                && frames[|frames| - 1] == Recording(key, told + [answer.value])
                && AllAvailable(store.View(), frames[|frames| - 1].dependencies)
      ensures Stopped(Now(store.View()), key, fuel, answer)
      decreases fuel, 1
    {
      ghost var g := store.View();
      if step.ReportUntracked? {
        ReportUntracked();
        answer := Ok(Outside(outside));
        assert (told + [Outside(outside)])[..|told|] == told;
      } else {
        var read := ReadNext(step.key, key, told, fuel);
        if !read.Ok? {
          return if read.Err? then Err(read.error) else Exhausted;
        }
        answer := Ok(Got(read.value));
        assert (told + [Got(read.value)])[..|told|] == told;
      }
      TracesExtend(Now(g), key, told, answer.value);
    }

    /** Read what the computation of `key`, told `told` so far, asks for next. What stops the
        read stops the computation. */
    method ReadNext(dependency: Key, ghost key: Key, ghost told: seq<Answer>, fuel: nat) returns (reply: Reply<Value>)
      requires Ready() && |stack| > 0 && stack[|stack| - 1] == key && fuel > 0
      requires AllNeed(Now(store.View()), stack[..|stack| - 1], key)
      requires key !in store.inputs && Traces(Now(store.View()), key, told)
      requires Ask(functions, key, told) == Step.Read(dependency)
      requires frames[|frames| - 1] == Recording(key, told)
      requires AllAvailable(store.View(), frames[|frames| - 1].dependencies)
      modifies this, store
      ensures Ready() && Within(old(store.View()), store.View(), dependency)
      ensures stack == old(stack) && Needs(Now(store.View()), key, dependency)
      ensures |frames| == |old(frames)| && frames[..|frames| - 1] == old(frames)[..|frames| - 1]
      ensures reply.Ok? ==> Answered(Now(store.View()), key, told + [Got(reply.value)], |told|)
      ensures reply.Ok? ==> frames[|frames| - 1] == Recording(key, told + [Got(reply.value)])
      ensures reply.Ok? ==> AllAvailable(store.View(), frames[|frames| - 1].dependencies)
      ensures !reply.Ok? ==> Faithful(Now(store.View()), key, fuel, reply)
      decreases fuel, 0
    {
      ghost var g := store.View();
      ReadIsNeeded(Now(g), key, told);
      NeedsInside(Now(g), stack, key, dependency);
      reply := Read(dependency, fuel - 1);
      AvailableStays(g, store.View(), dependency, DependenciesOf(functions, key, told));
      if reply.Ok? {
        assert (told + [Got(reply.value)])[..|told|] == told;
      } else {
        StopsToo(Now(g), key, told, fuel, reply);
      }
    }

    /** Declare that this computation read something the graph does not record. */
    method ReportUntracked()
      requires Ready()
      modifies this`frames
      ensures Ready()
      ensures frames == if old(frames) == [] then [] else
                old(frames)[..|frames| - 1] + [old(frames)[|frames| - 1].(untracked := true)]
    {
      if |frames| > 0 {
        frames := frames[..|frames| - 1] + [frames[|frames| - 1].(untracked := true)];
      }
    }

    /** The frame of a computation that has been told `answers`. */
    ghost function Recording(key: Key, answers: seq<Answer>): Frame
      requires NameOf(key) in functions
    {
      Frame(DependenciesOf(functions, key, answers), UntrackedIn(functions, key, answers))
    }
  }

  /** The innermost frame has an edge to `key`: the one it had, or one after all it had. */
  ghost predicate EdgeRecorded(before: seq<Frame>, after: seq<Frame>, key: Key) {
    && |after| == |before|
    && (before != [] ==>
          var last := |before| - 1;
          && after[..last] == before[..last] && after[last].untracked == before[last].untracked
          && after[last].dependencies ==
               if key in before[last].dependencies then before[last].dependencies
               else before[last].dependencies + [key])
  }

  // ---- what is open needs what is read -------------------------------------------------

  /** Every key of a stack needs `key`. */
  ghost predicate AllNeed(w: World, stack: seq<Key>, key: Key) {
    forall open :: open in stack ==> Needs(w, open, key)
  }

  /** What needs `key` needs whatever it needs. */
  lemma NeedsToo(w: World, stack: seq<Key>, key: Key, dependency: Key)
    requires AllNeed(w, stack, key) && Needs(w, key, dependency)
    ensures AllNeed(w, stack, dependency)
  {
    forall open | open in stack ensures Needs(w, open, dependency) {
      NeedsTransitive(w, open, key, dependency);
    }
  }

  /** What the innermost computation needs, every open one does. */
  lemma NeedsInside(w: World, stack: seq<Key>, key: Key, dependency: Key)
    requires |stack| > 0 && stack[|stack| - 1] == key
    requires AllNeed(w, stack[..|stack| - 1], key) && Needs(w, key, dependency)
    ensures AllNeed(w, stack, dependency)
  {
    NeedsToo(w, stack[..|stack| - 1], key, dependency);
    assert stack == stack[..|stack| - 1] + [key];
  }

  // ---- what the methods say about the graph ------------------------------------------

  /** The stamp of a dependency is later than `since`. */
  ghost predicate Changed(g: Graph, key: Key, since: nat) {
    if key in g.inputs then g.inputs[key].changedAt > since
    else key in g.memos && g.memos[key].changedAt > since
  }

  ghost predicate Unchanged(g: Graph, memo: Row, dependency: Key) {
    Available(g, dependency) && !Changed(g, dependency, memo.verifiedAt)
  }

  /** The first `n` dependencies of a memo. */
  ghost predicate AllUnchanged(g: Graph, memo: Row, n: nat)
    requires n <= |memo.dependencies|
  {
    forall j {:trigger Unchanged(g, memo, memo.dependencies[j])} :: 0 <= j < n ==> Unchanged(g, memo, memo.dependencies[j])
  }

  lemma AllUnchangedHolds(g: Graph, memo: Row, n: nat)
    requires n <= |memo.dependencies| && AllUnchanged(g, memo, n)
    ensures forall d :: d in memo.dependencies[..n] ==> Unchanged(g, memo, d)
    ensures n == |memo.dependencies| ==> forall d :: d in memo.dependencies ==> Unchanged(g, memo, d)
  {
    forall d | d in memo.dependencies[..n] ensures Unchanged(g, memo, d) {
      var j :| 0 <= j < n && memo.dependencies[j] == d;
    }
    assert memo.dependencies[..|memo.dependencies|] == memo.dependencies;
  }

  ghost predicate AllAvailable(g: Graph, dependencies: seq<Key>) {
    forall d {:trigger Available(g, d)} :: d in dependencies ==> Available(g, d)
  }

  /** What was at hand stays so while more is read. */
  lemma AvailableStays(o: Graph, g: Graph, key: Key, dependencies: seq<Key>)
    requires Within(o, g, key) && AllAvailable(o, dependencies)
    ensures AllAvailable(g, dependencies)
    ensures Available(g, key) ==> AllAvailable(g, Recorded(dependencies, Step.Read(key)))
  {
    forall d | d in dependencies ensures Available(g, d) {
      assert Available(o, d);
      if d !in o.inputs {
        assert d in g.memos && Untouched(o, g, d);
      }
    }
  }

  lemma MarkedWithin(o: Graph, g: Graph, key: Key)
    requires Below(o, g, key) && key in o.memos && Untouched(o, g, key)
    requires o.memos[key].verifiedAt <= g.revision && o.memos[key].verifiedAt != g.revision
    ensures Within(o, MemoGraph.MarkVerified(g, key), key)
  {
    var h := MemoGraph.MarkVerified(g, key);
    MarkedAccounted(o, g, key);
    SameCallsNeeded(o, g, h, key, false);
    forall k {:trigger Untouched(o, h, k)} | k in h.memos && k != key && !Untouched(o, h, k)
      ensures !Untouched(o, g, k) && h.memos[k] == g.memos[k] {
    }
  }

  lemma MarkedAccounted(o: Graph, g: Graph, key: Key)
    requires Accounted(o, g) && key in o.memos && Untouched(o, g, key) && g.inputs == o.inputs && g.settings == o.settings
    requires o.memos[key].verifiedAt <= g.revision
    ensures Accounted(o, MemoGraph.MarkVerified(g, key))
  {
    var h := MemoGraph.MarkVerified(g, key);
    forall k ensures AccountOf(o, h, k) {
      assert AccountOf(o, g, k);
      if key in o.memos && k in NewCalls(o, g) {
        SameMoves(o, g, h, k);
      }
    }
  }

  lemma SameMoves(o: Graph, g: Graph, h: Graph, key: Key)
    requires Due(o, g, key) && h.inputs == g.inputs && h.settings == g.settings
    requires forall k {:trigger k in h.runs} :: k in g.runs ==> k in h.runs && g.runs[k] <= h.runs[k]
    ensures Due(o, h, key)
  {
    if key in o.memos && !o.memos[key].untracked {
      var d :| d in o.memos[key].dependencies && Moved(g, d, o.memos[key].verifiedAt);
      assert d in g.runs ==> d in h.runs;
      MovedStays(g, h, d, o.memos[key].verifiedAt);
    }
  }

  lemma WrittenAsDurable(g: Graph, key: Key, row: Row, answers: seq<Answer>, k: Key)
    requires key !in g.inputs && (key in g.memos ==> g.memos[key].verifiedAt != g.revision)
    requires Shape(g) && FreshRow(g, key, row, answers)
    requires k != key ==> k in g.memos && AsDurable(g, k)
    ensures AsDurable(WriteMemo(g, key, row, answers), k)
  {
    var h := WriteMemo(g, key, row, answers);
    forall d | d in h.memos[k].dependencies
      ensures Available(h, d) && DurabilityIn(h, d) == DurabilityIn(g, d)
    {
      assert Available(g, d);
    }
  }

  lemma WrittenWithin(o: Graph, g: Graph, key: Key, row: Row, answers: seq<Answer>)
    requires Within(o, g, key) && key !in g.inputs && key in NewCalls(o, g)
    requires Shape(g) && FreshRow(g, key, row, answers)
    requires key in o.memos ==> o.memos[key].verifiedAt != g.revision
    requires key in g.memos ==> g.memos[key].verifiedAt != g.revision
    ensures Within(o, WriteMemo(g, key, row, answers), key)
  {
    var h := WriteMemo(g, key, row, answers);
    WrittenAccounted(o, g, key, row, answers);
    SameCallsNeeded(o, g, h, key, true);
    forall k {:trigger Untouched(o, h, k)} | k in h.memos && !Untouched(o, h, k)
      ensures && h.memos[k].verifiedAt == h.revision
              && (if k in o.memos then o.memos[k].verifiedAt != h.revision else AsDurable(h, k))
              && (k == key || Needs(Now(h), key, k))
    {
      if k != key {
        assert !Untouched(o, g, k);
      }
      if k !in o.memos {
        WrittenAsDurable(g, key, row, answers, k);
      }
    }
  }

  lemma WrittenAccounted(o: Graph, g: Graph, key: Key, row: Row, answers: seq<Answer>)
    requires Accounted(o, g) && key in NewCalls(o, g)
    ensures Accounted(o, WriteMemo(g, key, row, answers))
  {
    var h := WriteMemo(g, key, row, answers);
    forall k ensures AccountOf(o, h, k) {
      assert AccountOf(o, g, k);
      if k in NewCalls(o, g) {
        SameMoves(o, g, h, k);
      }
    }
  }

  /** One more edge walked, below the memo. */
  lemma EdgeWalked(o: Graph, g: Graph, h: Graph, key: Key, memo: Row, i: nat)
    requires i < |memo.dependencies| && Within(g, h, memo.dependencies[i]) && Still(g, h, memo.dependencies[i])
    requires Below(o, g, key) && Still(o, g, key) && Untouched(o, g, key) && g.memos[key] == memo
    requires o.traces.Keys == o.memos.Keys && Inv(h) && key !in o.inputs && Needs(Now(h), key, memo.dependencies[i])
    requires AllUnchanged(g, memo, i)
    ensures Below(o, h, key) && Still(o, h, key) && Untouched(o, h, key)
    ensures Unchanged(h, memo, memo.dependencies[i]) ==> AllUnchanged(h, memo, i + 1)
  {
    BelowThenWithin(o, g, h, key, memo.dependencies[i]);
    BelowKeepsSelf(o, h, key);
    StillEdge(o, g, h, key, memo.dependencies[i]);
    UnchangedStays(g, h, memo.dependencies[i], memo);
    forall j | 0 <= j < i ensures Unchanged(h, memo, memo.dependencies[j]) {
      assert Unchanged(g, memo, memo.dependencies[j]);
    }
  }

  lemma UnchangedStays(o: Graph, g: Graph, key: Key, memo: Row)
    requires Within(o, g, key)
    ensures forall d :: Unchanged(o, memo, d) ==> Unchanged(g, memo, d)
  {
    forall d | Unchanged(o, memo, d) ensures Unchanged(g, memo, d) {
      if d !in o.inputs {
        assert d in g.memos && Untouched(o, g, d);
      }
    }
  }

  /** With every edge unchanged the memo is current, and marking it so is all that is done. */
  lemma WalkedIsCurrent(o: Graph, g: Graph, key: Key)
    requires Inv(g) && Below(o, g, key) && Still(o, g, key) && Untouched(o, g, key)
    requires Live(g, key) && !g.memos[key].untracked && g.memos[key].verifiedAt < g.revision
    requires AllUnchanged(g, g.memos[key], |g.memos[key].dependencies|)
    ensures var h := MemoGraph.MarkVerified(g, key);
            && Inv(h) && Within(o, h, key) && Still(o, h, key) && key !in NewCalls(o, h) && !Due(o, h, key)
  {
    NothingMoved(o, g, key);
    EverythingCurrent(g, key);
    CurrentIsWorth(g, key);
    NotCalledItself(o, g, key, g.memos[key].value);
    MarkVerifiedKeeps(g, key);
    StillMarked(o, g, key);
    MarkedWithin(o, g, key);
  }

  lemma CurrentIsWorth(g: Graph, key: Key)
    requires Inv(g) && Live(g, key) && Traces(Now(g), key, g.traces[key])
    ensures Is(Now(g), key, Done(g.memos[key].value))
  {
    assert RowOk(g, key);
    TraceReturns(Now(g), key, g.traces[key]);
  }

  lemma EverythingCurrent(g: Graph, key: Key)
    requires Inv(g) && Live(g, key) && !g.memos[key].untracked
    requires AllUnchanged(g, g.memos[key], |g.memos[key].dependencies|)
    ensures Traces(Now(g), key, g.traces[key])
    ensures forall d :: d in g.memos[key].dependencies ==> DependencyCurrent(g, g.memos[key], d)
  {
    var memo, answers := g.memos[key], g.traces[key];
    assert RowOk(g, key);
    AllUnchangedHolds(g, memo, |memo.dependencies|);
    assert answers[..|answers|] == answers;
    CurrentSoFar(g, key, |memo.dependencies|, |answers|);
  }

  /** With the earlier dependencies of a memo current, its next one is one the current
      computation reads too. */
  lemma AboutToRead(g: Graph, key: Key, i: nat) returns (j: nat)
    requires Inv(g) && Live(g, key) && !g.memos[key].untracked
    requires i < |g.memos[key].dependencies|
    requires AllUnchanged(g, g.memos[key], i)
    ensures j <= |g.traces[key]| && Traces(Now(g), key, g.traces[key][..j])
    ensures Ask(Now(g).functions, key, g.traces[key][..j]) == Read(g.memos[key].dependencies[i])
    ensures key !in Now(g).inputs && Needs(Now(g), key, g.memos[key].dependencies[i])
  {
    assert RowOk(g, key);
    j := FirstRead(Now(g).functions, key, g.traces[key], i);
    AllUnchangedHolds(g, g.memos[key], i);
    CurrentSoFar(g, key, i, j);
    ReadIsNeeded(Now(g), key, g.traces[key][..j]);
  }

  /** What stops a read stops the computation that reads. */
  lemma StopsToo<T>(w: World, key: Key, answers: seq<Answer>, fuel: nat, reply: Reply<T>)
    requires key !in w.inputs && Traces(w, key, answers) && Ask(w.functions, key, answers).Read?
    requires fuel > 0 && !reply.Ok?
    requires Stopped(w, Ask(w.functions, key, answers).key, fuel - 1, reply)
    ensures Stopped(w, key, fuel, reply)
  {
    var dependency := Ask(w.functions, key, answers).key;
    ReadIsNeeded(w, key, answers);
    if reply.Err? {
      if reply.error.Cycle? {
        NeedsDivergent(w, key, dependency);
      } else {
        TraceReadFails(w, key, answers, reply.error);
      }
    }
  }

  /** A memo with an edge that changed is due. */
  lemma WalkedIsDue(o: Graph, g: Graph, key: Key)
    requires Inv(g) && SameInputs(o, g) && Live(g, key) && Untouched(o, g, key)
    requires o.memos[key].verifiedAt != o.revision && !Shallow(o, o.memos[key]) && !o.memos[key].untracked
    ensures (exists d :: d in o.memos[key].dependencies && Changed(g, d, o.memos[key].verifiedAt)) ==> Due(o, g, key)
  {
    forall d | d in o.memos[key].dependencies
      ensures Changed(g, d, o.memos[key].verifiedAt) ==> Moved(g, d, o.memos[key].verifiedAt)
    {
      StampIsTheLastMove(g, key, d);
    }
  }

  /** One whose edges are all unchanged is not. */
  lemma NothingMoved(o: Graph, g: Graph, key: Key)
    requires Inv(g) && SameInputs(o, g) && Live(g, key) && Untouched(o, g, key) && !g.memos[key].untracked
    requires AllUnchanged(g, g.memos[key], |g.memos[key].dependencies|)
    ensures !Due(o, MemoGraph.MarkVerified(g, key), key)
  {
    var h := MemoGraph.MarkVerified(g, key);
    AllUnchangedHolds(g, g.memos[key], |g.memos[key].dependencies|);
    forall d | d in o.memos[key].dependencies
      ensures !Moved(h, d, o.memos[key].verifiedAt)
    {
      StampIsTheLastMove(g, key, d);
      LaterMovesLess(g, h, d, o.memos[key].verifiedAt, o.memos[key].verifiedAt);
    }
  }

  /** An undisturbed memo is never due. */
  lemma DueIsDisturbed(o: Graph, g: Graph, key: Key)
    requires Still(o, g, key) && Due(o, g, key)
    ensures !Undisturbed(o, key)
  {
    if Undisturbed(o, key) {
      var rest :| key in rest && AtRest(o, rest);
      assert MemoAtRest(o, rest, key);
      forall d | d in o.memos[key].dependencies ensures !Moved(g, d, o.memos[key].verifiedAt) {
        LaterMovesLess(o, g, d, o.memos[key].verifiedAt, o.memos[key].verifiedAt);
      }
    }
  }

  /** What is due and is called counts as called, and stays due. */
  lemma CalledLater(o: Graph, m: Graph, g: Graph, key: Key)
    requires SameInputs(o, m) && SameInputs(m, g) && Due(o, m, key)
    ensures o.calls <= g.calls && Due(o, g, key)
    ensures m.calls + [key] <= g.calls ==> key in NewCalls(o, g)
  {
    DueStays(o, m, g, key);
    if m.calls + [key] <= g.calls {
      assert NewCalls(o, g)[|m.calls| - |o.calls|] == key;
    }
  }

  /** A key is validated, found due, and executed. */
  lemma Executed(o: Graph, m: Graph, g: Graph, key: Key)
    requires Within(o, m, key) && Within(m, g, key) && Still(o, m, key) && Due(o, m, key)
    ensures Within(o, g, key) && Still(o, g, key) && Due(o, g, key)
    ensures m.calls + [key] <= g.calls ==> key in NewCalls(o, g)
  {
    DueIsDisturbed(o, m, key);
    WithinTwice(o, m, g, key);
    CalledLater(o, m, g, key);
  }

  lemma StillMarked(o: Graph, g: Graph, key: Key)
    requires Still(o, g, key) && key in g.memos && g.memos[key].verifiedAt <= g.revision
    ensures Still(o, MemoGraph.MarkVerified(g, key), key)
  {
    if OnlyVerified(o, g) {
      OnlyVerifiedTwice(o, g, MemoGraph.MarkVerified(g, key));
    }
  }

  lemma StillEdge(o: Graph, g: Graph, h: Graph, key: Key, dependency: Key)
    requires Still(o, g, key) && Still(g, h, dependency) && key !in o.inputs
    requires key in g.memos && dependency in g.memos[key].dependencies
    ensures Still(o, h, key)
  {
    if Undisturbed(o, key) {
      UndisturbedRead(o, g, key, dependency);
      OnlyVerifiedTwice(o, g, h);
    }
  }

  /** A function that is due is called, and then what it needs. */
  lemma CalledWithin(o: Graph, g: Graph, key: Key)
    requires Due(o, o, key) && Below(Call(o, key), g, key)
    ensures Within(o, g, key) && o.calls + [key] <= g.calls && key in NewCalls(o, g)
  {
    var c := Call(o, key);
    assert NewCalls(o, g) == [key] + NewCalls(c, g);
    CalledAccounted(o, g, key);
    forall k ensures CallNeeded(o, g, key, true, k) {
      assert CallNeeded(c, g, key, false, k);
    }
    assert forall k :: Untouched(c, g, k) <==> Untouched(o, g, k);
  }

  lemma CalledAccounted(o: Graph, g: Graph, key: Key)
    requires Due(o, o, key) && SameInputs(Call(o, key), g)
    ensures Accounted(o, g)
  {
    var c := Call(o, key);
    assert NewCalls(o, g) == [key] + NewCalls(c, g);
    forall k ensures AccountOf(o, g, k) {
      assert AccountOf(c, g, k);
      if k == key {
        DueStays(o, c, g, key);
      }
    }
  }

  /** `key` is worth `value` in the graph, and settled for the revision. */
  ghost predicate Settled(g: Graph, key: Key, value: Value) {
    if key in g.inputs then g.inputs[key].value == value
    else key in g.memos && g.memos[key].verifiedAt == g.revision && g.memos[key].value == value
  }
}
