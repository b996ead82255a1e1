/** Whole histories of the evaluator: whatever was set and asked before, an answer is the
    from-scratch one. */
module Histories {
  import opened Scratch
  import opened MemoGraph
  import opened Quiet
  import opened Evaluator

  /** `outside` is what the unrecorded state becomes if the input changes. */
  datatype Operation =
    | Set(key: Key, value: Value, durability: Durability, outside: Value)
    | Query(key: Key)

  /** A store with no memory of anything but its inputs. */
  datatype Plain = Plain(inputs: map<Key, (Value, Durability)>, outside: Value)

  function After(start: Value, operations: seq<Operation>): Plain {
    if operations == [] then Plain(map[], start)
    else Then(After(start, operations[..|operations| - 1]), operations[|operations| - 1])
  }

  function Then(before: Plain, operation: Operation): Plain {
    match operation
    case Query(_) => before
    case Set(key, value, durability, outside) =>
      if key in before.inputs && before.inputs[key] == (value, durability) then before
      else Plain(before.inputs[key := (value, durability)], outside)
  }

  function WorldOf(functions: Functions, plain: Plain): World {
    World(functions, map key | key in plain.inputs :: plain.inputs[key].0, plain.outside)
  }

  /** The store and the plain one agree about every input. */
  ghost predicate Agrees(g: Graph, functions: Functions, plain: Plain)
    requires Shape(g)
  {
    && Now(g) == WorldOf(functions, plain)
    && g.inputs.Keys == plain.inputs.Keys
    && forall key :: key in g.inputs ==>
         plain.inputs[key] == (g.inputs[key].value, g.inputs[key].durability)
  }

  /** The reply to operation `i`, when it asks something, is the from-scratch answer in
      the world the operations before it made; and a value is settled in the store it leaves. */
  ghost predicate AnsweredRight(
      functions: Functions, start: Value, operations: seq<Operation>, i: nat, fuel: nat, reply: Reply<Value>, h: Graph)
    requires i < |operations|
  {
    operations[i].Query? ==>
      && Faithful(WorldOf(functions, After(start, operations[..i])), operations[i].key, fuel, reply)
      && (reply.Ok? ==> Settled(h, operations[i].key, reply.value))
  }

  /** What an operation makes of a store. */
  ghost predicate Follows(g: Graph, operation: Operation, h: Graph)
    requires g.revision < |g.worlds|
  {
    match operation
    case Query(key) => Within(g, h, key) && Still(g, h, key)
    case Set(key, value, durability, outside) =>
      h == if key in g.inputs && g.inputs[key].value == value && g.inputs[key].durability == durability then g
           else SetInput(g, key, value, durability, outside)
  }

  ghost predicate MayPerform(g: Graph, operation: Operation) {
    operation.Set? ==> MaySet(g, operation.key, operation.durability)
  }

  /** An operation a caller may perform, and what it makes of a store that keeps the invariant. */
  ghost predicate Performed(g: Graph, operation: Operation, h: Graph) {
    Inv(g) && MayPerform(g, operation) && Follows(g, operation, h)
  }

  /** The stores a history goes through, and its replies, as far as it keeps to what a caller
      may set. */
  ghost predicate Unfolds(
      functions: Functions, start: Value, operations: seq<Operation>, fuel: nat,
      graphs: seq<Graph>, replies: seq<Reply<Value>>)
    requires |replies| <= |operations|
  {
    && |graphs| == |replies| + 1 && graphs[0] == Empty(functions, start)
    && forall i {:trigger Turn(functions, start, operations, fuel, graphs, replies, i)} ::
         0 <= i < |replies| ==> Turn(functions, start, operations, fuel, graphs, replies, i)
  }

  /** Operation `i` and its reply. */
  ghost predicate Turn(
      functions: Functions, start: Value, operations: seq<Operation>, fuel: nat,
      graphs: seq<Graph>, replies: seq<Reply<Value>>, i: nat)
    requires i < |replies| <= |operations| && |graphs| == |replies| + 1
  {
    && Performed(graphs[i], operations[i], graphs[i + 1])
    && AnsweredRight(functions, start, operations, i, fuel, replies[i], graphs[i + 1])
  }

  /** Over any history, every query is answered from scratch, up to the first input, if there
      is one, that a caller may not set. With every input set under a name of its own, or as
      durable as can be, there is none. */
  method Replay(functions: Functions, start: Value, operations: seq<Operation>, fuel: nat)
    returns (replies: seq<Reply<Value>>, ghost graphs: seq<Graph>)
    ensures |replies| <= |operations| && Unfolds(functions, start, operations, fuel, graphs, replies)
    ensures |replies| < |operations| ==> !MayPerform(graphs[|replies|], operations[|replies|])
    ensures (forall operation :: operation in operations && operation.Set? ==>
               NameOf(operation.key) !in functions || operation.durability.High?)
            ==> |replies| == |operations|
  {
    var store := new Store(functions, start);
    var outside := start;
    replies, graphs := [], [store.View()];
    ghost var plain := Plain(map[], start);
    while |replies| < |operations|
      invariant fresh(store) && store.Valid() && |replies| <= |operations|
      invariant outside == Now(store.View()).outside
      invariant Reached(functions, start, operations, fuel, graphs, replies, store.View(), plain)
    {
      ghost var g := store.View();
      var operation, allowed, reply := operations[|replies|], false, Exhausted;
      allowed, reply, outside := Attempt(store, functions, outside, operation, plain, fuel);
      if !allowed {
        return;
      }
      ReachedMore(functions, start, operations, fuel, graphs, replies, g, plain, store.View(), reply);
      plain := Then(plain, operation);
      replies := replies + [reply];
      graphs := graphs + [store.View()];
    }
  }

  /** The history so far has led to `g`, which agrees with `plain`. */
  ghost predicate Reached(
      functions: Functions, start: Value, operations: seq<Operation>, fuel: nat,
      graphs: seq<Graph>, replies: seq<Reply<Value>>, g: Graph, plain: Plain)
    requires |replies| <= |operations|
  {
    && Unfolds(functions, start, operations, fuel, graphs, replies) && graphs[|replies|] == g
    && plain == After(start, operations[..|replies|]) && Shape(g) && Agrees(g, functions, plain)
  }

  lemma ReachedMore(
      functions: Functions, start: Value, operations: seq<Operation>, fuel: nat, graphs: seq<Graph>,
      replies: seq<Reply<Value>>, g: Graph, plain: Plain, h: Graph, reply: Reply<Value>)
    requires |replies| < |operations| && Reached(functions, start, operations, fuel, graphs, replies, g, plain)
    requires Performed(g, operations[|replies|], h)
    requires Shape(h) && Agrees(h, functions, Then(plain, operations[|replies|]))
    requires var operation := operations[|replies|];
             operation.Query? ==>
               && Faithful(WorldOf(functions, plain), operation.key, fuel, reply)
               && (reply.Ok? ==> Settled(h, operation.key, reply.value))
    ensures Reached(functions, start, operations, fuel, graphs + [h], replies + [reply], h, Then(plain, operations[|replies|]))
  {
    AfterMore(start, operations, |replies|);
    UnfoldsMore(functions, start, operations, fuel, graphs, replies, h, reply);
  }

  lemma AfterMore(start: Value, operations: seq<Operation>, i: nat)
    requires i < |operations|
    ensures After(start, operations[..i + 1]) == Then(After(start, operations[..i]), operations[i])
  {
    assert operations[..i + 1][..i] == operations[..i];
  }

  lemma UnfoldsMore(
      functions: Functions, start: Value, operations: seq<Operation>, fuel: nat,
      graphs: seq<Graph>, replies: seq<Reply<Value>>, h: Graph, reply: Reply<Value>)
    requires |replies| < |operations| && Unfolds(functions, start, operations, fuel, graphs, replies)
    requires Performed(graphs[|replies|], operations[|replies|], h)
    requires AnsweredRight(functions, start, operations, |replies|, fuel, reply, h)
    ensures Unfolds(functions, start, operations, fuel, graphs + [h], replies + [reply])
  {
    forall i | 0 <= i <= |replies|
      ensures Turn(functions, start, operations, fuel, graphs + [h], replies + [reply], i)
    {
      assert i < |replies| ==> Turn(functions, start, operations, fuel, graphs, replies, i);
    }
  }

  /** Perform an operation, if it is one a caller may. */
  method Attempt(
      store: Store, functions: Functions, outside: Value, operation: Operation, ghost plain: Plain, fuel: nat)
    returns (allowed: bool, reply: Reply<Value>, after: Value)
    requires store.Valid() && outside == Now(store.View()).outside
    requires Agrees(store.View(), functions, plain)
    modifies store
    ensures allowed <==> MayPerform(old(store.View()), operation)
    ensures !allowed ==> operation.Set? && NameOf(operation.key) in functions && !operation.durability.High?
    ensures allowed ==>
              && store.Valid() && after == Now(store.View()).outside
              && Performed(old(store.View()), operation, store.View())
              && Agrees(store.View(), functions, Then(plain, operation))
              && (operation.Query? ==> Faithful(WorldOf(functions, plain), operation.key, fuel, reply))
              && (operation.Query? && reply.Ok? ==> Settled(store.View(), operation.key, reply.value))
    ensures !allowed ==> store.View() == old(store.View())
  {
    reply, after := Exhausted, outside;
    allowed := Allows(store, operation);
    if allowed {
      reply, after := Perform(store, functions, outside, operation, plain, fuel);
    } else {
      MayPerformPlain(store.View(), functions, operation);
    }
  }

  /** Whether the operation is one a caller may perform. */
  method Allows(store: Store, operation: Operation) returns (allowed: bool)
    ensures allowed <==> MayPerform(store.View(), operation)
  {
    if operation.Query? || operation.key in store.inputs {
      return true;
    }
    allowed := forall memo :: memo in store.memos && memo != operation.key && memo !in store.inputs
                              && ChangedAtOrAbove(store.levels, store.memos[memo].durability) <= store.memos[memo].verifiedAt
                              && operation.durability.Level() < store.memos[memo].durability.Level()
                 ==> operation.key !in store.memos[memo].dependencies;
    assert allowed ==> MaySet(store.View(), operation.key, operation.durability);
  }

  lemma MayPerformPlain(g: Graph, functions: Functions, operation: Operation)
    requires Inv(g) && Now(g).functions == functions
    ensures !MayPerform(g, operation) ==>
              operation.Set? && NameOf(operation.key) in functions && !operation.durability.High?
  {
    if operation.Set? && (NameOf(operation.key) !in functions || operation.durability.High?) {
      MaySetUnread(g, operation.key, operation.durability);
    }
  }

  method Perform(
      store: Store, functions: Functions, outside: Value, operation: Operation, ghost plain: Plain, fuel: nat)
    returns (reply: Reply<Value>, after: Value)
    requires store.Valid() && outside == Now(store.View()).outside
    requires Agrees(store.View(), functions, plain)
    requires MayPerform(store.View(), operation)
    modifies store
    ensures store.Valid() && Follows(old(store.View()), operation, store.View())
    ensures after == Now(store.View()).outside
    ensures Agrees(store.View(), functions, Then(plain, operation))
    ensures operation.Query? ==> Faithful(WorldOf(functions, plain), operation.key, fuel, reply)
    ensures operation.Query? && reply.Ok? ==> Settled(store.View(), operation.key, reply.value)
  {
    reply, after := Exhausted, outside;
    match operation {
      case Set(key, value, durability, later) =>
        ghost var g := store.View();
        var changed := store.SetInput(key, value, durability, later);
        if changed {
          after := later;
          SetAgrees(g, functions, plain, key, value, durability, later);
        }
      case Query(key) =>
        reply := store.Evaluate(functions, outside, key, fuel);
    }
  }

  lemma SetAgrees(
      g: Graph, functions: Functions, plain: Plain,
      key: Key, value: Value, durability: Durability, outside: Value)
    requires Shape(g) && Agrees(g, functions, plain)
    requires Shape(SetInput(g, key, value, durability, outside))
    ensures Agrees(SetInput(g, key, value, durability, outside), functions,
                   Plain(plain.inputs[key := (value, durability)], outside))
  {
    var h := SetInput(g, key, value, durability, outside);
    var after := Plain(plain.inputs[key := (value, durability)], outside);
    assert Now(h).inputs == WorldOf(functions, after).inputs;
  }

  /** Where the from-scratch computation ends within the fuel, the answer is its
      outcome: not a cycle, not exhaustion, and not anything else. */
  lemma AnswersWhereDefined(w: World, key: Key, fuel: nat, reply: Reply<Value>)
    requires Faithful(w, key, fuel, reply)
    requires !Eval(w, fuel, key).Unfinished?
    ensures reply == match Eval(w, fuel, key) {
                       case Done(value) => Ok(value)
                       case Failed(error) => Err(error)
                     }
  {
    var outcome := Eval(w, fuel, key);
    assert Is(w, key, outcome);
    match reply
    case Ok(value) => OneOutcome(w, key, outcome, Done(value));
    case Err(Cycle(_)) =>
    case Err(error) => OneOutcome(w, key, outcome, Failed(error));
    case Exhausted =>
  }

  /** Functions whose reads respect a rank never see a cycle reported. */
  lemma RankedNeverCycles(w: World, rank: Key -> nat, limit: nat, key: Key, fuel: nat, reply: Reply<Value>)
    requires Ranked(w, rank, limit) && fuel >= FuelFor(rank(key), limit)
    requires Faithful(w, key, fuel, reply)
    ensures reply.Ok? || (reply.Err? && !reply.error.Cycle?)
  {
    RankedEnds(w, rank, limit, key);
    MoreFuel(w, FuelFor(rank(key), limit), fuel, key);
    AnswersWhereDefined(w, key, fuel, reply);
  }
}
