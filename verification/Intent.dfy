/** A command's intent: what makes a retransmission the same command. */
module Intent {
  import opened Options
  import opened Values
  import opened Canonical
  import opened CanonicalTheorems
  import opened MemberOrder

  datatype IntentError =
    | NotAnObject
    | MissingMember(name: string)
    | MalformedRequires
    | MalformedExtensions
    | RequiredExtensionMissing(key: string)
    | DuplicateRequires(key: string)

  datatype Result<+T> = Ok(value: T) | Err(error: IntentError)

  const INTENT_MEMBERS: seq<string> := ["operation", "subject", "preconditions", "requires", "payload"]

  function Prefixed<T>(prefix: seq<T>, rest: Result<seq<T>>): Result<seq<T>> {
    match rest
    case Err(error) => Err(error)
    case Ok(more) => Ok(prefix + more)
  }

  lemma PrefixedNothing<T>(prefix: seq<T>, rest: Result<seq<T>>)
    ensures Prefixed([], rest) == rest && Prefixed(prefix, Ok([])) == Ok(prefix)
  {
    if rest.Ok? {
      assert [] + rest.value == rest.value;
    }
    assert prefix + [] == prefix;
  }

  lemma PrefixedTwice<T>(prefix: seq<T>, next: T, rest: Result<seq<T>>)
    ensures Prefixed(prefix, Prefixed([next], rest)) == Prefixed(prefix + [next], rest)
  {
    if rest.Ok? {
      assert prefix + ([next] + rest.value) == prefix + [next] + rest.value;
    }
  }

  // ---- looking members up ------------------------------------------------------------------

  function Find(members: seq<(string, Value)>, name: string): Option<Value> {
    if members == [] then None
    else if members[0].0 == name then Some(members[0].1)
    else Find(members[1..], name)
  }

  function Get(value: Value, name: string): Option<Value> {
    if value.Object? then Find(value.members, name) else None
  }

  /** An extension key contains a slash; a feature name never does. */
  predicate IsExtensionKey(entry: string) {
    '/' in entry
  }

  // ---- the intent ----------------------------------------------------------------------------

  /** The members the intent takes from the envelope, or the first that is absent. */
  function Taken(envelope: Value, names: seq<string>): Result<seq<(string, Value)>> {
    if names == [] then Ok([])
    else
      match Get(envelope, names[0])
      case None => Err(MissingMember(names[0]))
      case Some(value) =>
        Prefixed([(names[0], value)], Taken(envelope, names[1..]))
  }

  function Strings(items: seq<Value>): Result<seq<string>> {
    if items == [] then Ok([])
    else if !items[0].String? then Err(MalformedRequires)
    else Prefixed([items[0].text], Strings(items[1..]))
  }

  function Required(envelope: Value): Result<seq<string>> {
    match Get(envelope, "requires")
    case Some(Array(items)) => Strings(items)
    case _ => Err(MalformedRequires)
  }

  function Declared(envelope: Value): Result<seq<(string, Value)>> {
    match Get(envelope, "extensions")
    case None => Ok([])
    case Some(Object(members)) => Ok(members)
    case Some(_) => Err(MalformedExtensions)
  }

  /** The declared extensions `required` names, none of it `seen` before. */
  function Included(required: seq<string>, declared: seq<(string, Value)>, seen: seq<string>):
    Result<seq<(string, Value)>>
  {
    if required == [] then Ok([])
    else
      var key := required[0];
      if key in seen then Err(DuplicateRequires(key))
      else if !IsExtensionKey(key) then Included(required[1..], declared, seen + [key])
      else
        match Find(declared, key)
        case None => Err(RequiredExtensionMissing(key))
        case Some(value) => Prefixed([(key, value)], Included(required[1..], declared, seen + [key]))
  }

  function IntentOf(envelope: Value): Result<Value> {
    if !envelope.Object? then Err(NotAnObject)
    else
      match Taken(envelope, INTENT_MEMBERS)
      case Err(error) => Err(error)
      case Ok(taken) =>
        match Required(envelope)
        case Err(error) => Err(error)
        case Ok(required) =>
          match Declared(envelope)
          case Err(error) => Err(error)
          case Ok(declared) =>
            match Included(required, declared, [])
            case Err(error) => Err(error)
            case Ok(included) => Ok(Object(taken + [("extensions", Object(included))]))
  }

  // ---- building it ---------------------------------------------------------------------------

  method CommandIntent(envelope: Value) returns (result: Result<Value>)
    ensures result == IntentOf(envelope)
  {
    if !envelope.Object? {
      return Err(NotAnObject);
    }
    var taken := Take(envelope);
    if taken.Err? {
      return Err(taken.error);
    }
    var requires' := Get(envelope, "requires");
    if requires'.None? || !requires'.value.Array? {
      return Err(MalformedRequires);
    }
    var required := KeysOf(requires'.value.items);
    if required.Err? {
      return Err(required.error);
    }
    var extensions := Get(envelope, "extensions");
    if extensions.Some? && !extensions.value.Object? {
      return Err(MalformedExtensions);
    }
    var included := Include(required.value, if extensions.None? then [] else extensions.value.members);
    if included.Err? {
      return Err(included.error);
    }
    return Ok(Object(taken.value + [("extensions", Object(included.value))]));
  }

  method Take(envelope: Value) returns (result: Result<seq<(string, Value)>>)
    ensures result == Taken(envelope, INTENT_MEMBERS)
  {
    var intent: seq<(string, Value)> := [];
    PrefixedNothing(intent, Taken(envelope, INTENT_MEMBERS));
    assert INTENT_MEMBERS[0..] == INTENT_MEMBERS;
    for i := 0 to |INTENT_MEMBERS|
      invariant Taken(envelope, INTENT_MEMBERS) == Prefixed(intent, Taken(envelope, INTENT_MEMBERS[i..]))
    {
      assert INTENT_MEMBERS[i..][1..] == INTENT_MEMBERS[i + 1..];
      var name := INTENT_MEMBERS[i];
      var member := Get(envelope, name);
      if member.None? {
        return Err(MissingMember(name));
      }
      PrefixedTwice(intent, (name, member.value), Taken(envelope, INTENT_MEMBERS[i + 1..]));
      intent := intent + [(name, member.value)];
    }
    PrefixedNothing(intent, Ok([]));
    return Ok(intent);
  }

  method KeysOf(items: seq<Value>) returns (result: Result<seq<string>>)
    ensures result == Strings(items)
  {
    var keys: seq<string> := [];
    PrefixedNothing(keys, Strings(items));
    assert items[0..] == items;
    for i := 0 to |items|
      invariant Strings(items) == Prefixed(keys, Strings(items[i..]))
    {
      assert items[i..][1..] == items[i + 1..];
      if !items[i].String? {
        return Err(MalformedRequires);
      }
      PrefixedTwice(keys, items[i].text, Strings(items[i + 1..]));
      keys := keys + [items[i].text];
    }
    PrefixedNothing(keys, Ok([]));
    return Ok(keys);
  }

  method Include(required: seq<string>, declared: seq<(string, Value)>) returns (result: Result<seq<(string, Value)>>)
    ensures result == Included(required, declared, [])
  {
    var seen: seq<string> := [];
    var included: seq<(string, Value)> := [];
    PrefixedNothing(included, Included(required, declared, []));
    assert required[0..] == required;
    for i := 0 to |required|
      invariant Included(required, declared, []) == Prefixed(included, Included(required[i..], declared, seen))
    {
      assert required[i..][1..] == required[i + 1..];
      var key := required[i];
      if key in seen {
        return Err(DuplicateRequires(key));
      }
      if IsExtensionKey(key) {
        var value := Find(declared, key);
        if value.None? {
          return Err(RequiredExtensionMissing(key));
        }
        PrefixedTwice(included, (key, value.value), Included(required[i + 1..], declared, seen + [key]));
        included := included + [(key, value.value)];
      }
      seen := seen + [key];
    }
    PrefixedNothing(included, Ok([]));
    return Ok(included);
  }

  // ---- what the intent holds -------------------------------------------------------------------

  lemma {:induction false} FoundMember(members: seq<(string, Value)>, name: string)
    requires Find(members, name).Some?
    ensures (name, Find(members, name).value) in members
  {
    if members[0].0 != name {
      FoundMember(members[1..], name);
    } else {
      assert members[0] == (name, Find(members, name).value);
    }
  }

  lemma {:induction false} FindMember(members: seq<(string, Value)>, i: nat)
    requires Distinct(Names(members)) && i < |members|
    ensures Find(members, members[i].0) == Some(members[i].1)
  {
    if i > 0 {
      assert Names(members)[0] != Names(members)[i];
      DistinctRest(members);
      FindMember(members[1..], i - 1);
    }
  }

  lemma DistinctRest(members: seq<(string, Value)>)
    requires members != [] && Distinct(Names(members))
    ensures Distinct(Names(members[1..]))
  {
    var rest := members[1..];
    forall i, j | 0 <= i < j < |rest| ensures Names(rest)[i] != Names(rest)[j] {
      assert Names(members)[i + 1] != Names(members)[j + 1];
    }
  }

  lemma {:induction false} TakenNames(envelope: Value, names: seq<string>)
    requires Taken(envelope, names).Ok?
    ensures var taken := Taken(envelope, names).value;
            && |taken| == |names|
            && forall i :: 0 <= i < |names| ==>
                 taken[i].0 == names[i] && Get(envelope, names[i]) == Some(taken[i].1)
  {
    if names != [] {
      TakenNames(envelope, names[1..]);
    }
  }

  /** The keys of the included extensions: the required ones with a slash, each once. */
  lemma {:induction false} IncludedKeys(required: seq<string>, declared: seq<(string, Value)>, seen: seq<string>)
    requires Included(required, declared, seen).Ok?
    ensures var included := Included(required, declared, seen).value;
            && Names(included) == Keys(required)
            && (forall i :: 0 <= i < |included| ==> Find(declared, included[i].0) == Some(included[i].1))
            && (forall i :: 0 <= i < |included| ==> included[i].0 !in seen)
            && Distinct(Names(included))
  {
    if required != [] {
      IncludedKeys(required[1..], declared, seen + [required[0]]);
      var more := Included(required[1..], declared, seen + [required[0]]).value;
      var included := Included(required, declared, seen).value;
      if IsExtensionKey(required[0]) {
        assert Names(included) == [required[0]] + Names(more);
        forall j | 0 <= j < |more| ensures more[j].0 != required[0] {
          assert more[j].0 !in seen + [required[0]];
        }
      }
    }
  }

  function Keys(required: seq<string>): seq<string> {
    if required == [] then []
    else (if IsExtensionKey(required[0]) then [required[0]] else []) + Keys(required[1..])
  }

  lemma {:induction false} StringsAre(items: seq<Value>)
    requires Strings(items).Ok?
    ensures |Strings(items).value| == |items|
    ensures forall i :: 0 <= i < |items| ==> items[i] == String(Strings(items).value[i])
  {
    if items != [] {
      StringsAre(items[1..]);
    }
  }

  // ---- the domain is kept -----------------------------------------------------------------------

  /** The parts of an intent, when the envelope has one. */
  lemma IntentParts(envelope: Value) returns (taken: seq<(string, Value)>, included: seq<(string, Value)>)
    requires IntentOf(envelope).Ok?
    ensures envelope.Object? && Taken(envelope, INTENT_MEMBERS) == Ok(taken)
    ensures Required(envelope).Ok? && Declared(envelope).Ok?
    ensures Included(Required(envelope).value, Declared(envelope).value, []) == Ok(included)
    ensures IntentOf(envelope).value == Object(taken + [("extensions", Object(included))])
  {
    taken := Taken(envelope, INTENT_MEMBERS).value;
    included := Included(Required(envelope).value, Declared(envelope).value, []).value;
  }

  lemma IntentNames(taken: seq<(string, Value)>, last: (string, Value))
    requires |taken| == 5 && last.0 == "extensions"
    requires forall i :: 0 <= i < 5 ==> taken[i].0 == INTENT_MEMBERS[i]
    ensures Distinct(Names(taken + [last]))
  {
    assert Names(taken + [last]) == INTENT_MEMBERS + ["extensions"];
    assert |INTENT_MEMBERS[0]| == 9 && |INTENT_MEMBERS[1]| == 7 && |INTENT_MEMBERS[2]| == 13
        && |INTENT_MEMBERS[3]| == 8 && |INTENT_MEMBERS[4]| == 7 && INTENT_MEMBERS[1][0] != INTENT_MEMBERS[4][0];
  }

  lemma IntentInDomain(envelope: Value, room: nat)
    requires InDomain(envelope, room) && IntentOf(envelope).Ok?
    ensures InDomain(IntentOf(envelope).value, room)
  {
    var taken, included := IntentParts(envelope);
    TakenNames(envelope, INTENT_MEMBERS);
    var last := ("extensions", Object(included));
    IntentNames(taken, last);
    forall i | 0 <= i < 5 ensures Clean(taken[i].0) && InDomain(taken[i].1, room - 1) {
      FoundMember(envelope.members, taken[i].0);
    }
    FoundMember(envelope.members, "operation");
    ExtensionsInDomain(envelope, room, included);
    assert Clean("extensions");
  }

  lemma ExtensionsInDomain(envelope: Value, room: nat, included: seq<(string, Value)>)
    requires InDomain(envelope, room) && envelope.Object? && room > 0
    requires Required(envelope).Ok? && Declared(envelope).Ok?
    requires Included(Required(envelope).value, Declared(envelope).value, []) == Ok(included)
    ensures InDomain(Object(included), room - 1)
  {
    var declared := Declared(envelope).value;
    IncludedKeys(Required(envelope).value, declared, []);
    if Get(envelope, "extensions").Some? {
      FoundMember(envelope.members, "extensions");
    }
    forall i | 0 <= i < |included| ensures Clean(included[i].0) && InDomain(included[i].1, room - 2) {
      FoundMember(declared, included[i].0);
    }
  }

  // ---- the same intent ----------------------------------------------------------------------------

  /** Members with the same names in the same places are the same exactly when their values
      are. */
  lemma {:induction false} SamePlaces(a: seq<(string, Value)>, b: seq<(string, Value)>, from: nat)
    requires |a| == |b| && Names(a) == Names(b) && Distinct(Names(b)) && from <= |a|
    ensures SameMembers(a[from..], b) <==> forall i :: from <= i < |a| ==> Same(a[i].1, b[i].1)
    decreases |a| - from
  {
    if from < |a| {
      SamePlaces(a, b, from + 1);
      assert a[from..][0] == a[from] && a[from..][1..] == a[from + 1..];
      assert Names(a)[from] == Names(b)[from];
      if n :| n in b && SameMember(a[from], n) {
        var j :| 0 <= j < |b| && b[j] == n;
        assert Names(b)[j] == n.0 == Names(b)[from];
        assert j == from;
      }
      if Same(a[from].1, b[from].1) {
        assert b[from] in b && SameMember(a[from], b[from]);
      }
    }
  }

  /** Two envelopes ask for the same thing: the five members are the same, and so is every
      extension they require. */
  ghost predicate SameRequest(a: Value, b: Value) {
    && SameFive(a, b)
    && Required(a).Ok? && Declared(a).Ok? && Declared(b).Ok?
    && SameDeclared(Required(a).value, Declared(a).value, Declared(b).value)
  }

  ghost predicate SameFive(a: Value, b: Value) {
    forall i :: 0 <= i < |INTENT_MEMBERS| ==> SameFound(Get(a, INTENT_MEMBERS[i]), Get(b, INTENT_MEMBERS[i]))
  }

  ghost predicate SameDeclared(required: seq<string>, a: seq<(string, Value)>, b: seq<(string, Value)>) {
    forall key :: key in required && IsExtensionKey(key) ==> SameFound(Find(a, key), Find(b, key))
  }

  ghost predicate SameFound(a: Option<Value>, b: Option<Value>) {
    a.Some? && b.Some? && Same(a.value, b.value)
  }

  /** A command's canonical intent, and so its digest, is the same exactly when the
      request is: nothing else in the envelope counts, and nothing of the request is
      forgotten. */
  lemma IntentIsTheRequest(a: Value, b: Value, room: nat)
    requires InDomain(a, room) && InDomain(b, room)
    requires IntentOf(a).Ok? && IntentOf(b).Ok?
    ensures CanonicalText(IntentOf(a).value) == CanonicalText(IntentOf(b).value) <==> SameRequest(a, b)
  {
    IntentInDomain(a, room);
    IntentInDomain(b, room);
    CanonicalTellsApart(IntentOf(a).value, IntentOf(b).value, room);
    var takenA, includedA := IntentParts(a);
    var takenB, includedB := IntentParts(b);
    TakenNames(a, INTENT_MEMBERS);
    TakenNames(b, INTENT_MEMBERS);
    SameIntents(takenA, includedA, takenB, includedB);
    FiveAlike(a, b, takenA, takenB);
    if SameFive(a, b) {
      assert SameFound(Get(a, INTENT_MEMBERS[3]), Get(b, INTENT_MEMBERS[3]));
      SameRequires(a, b);
      SameExtensions(Required(a).value, Declared(a).value, Declared(b).value, includedA, includedB);
    }
  }

  lemma FiveAlike(a: Value, b: Value, takenA: seq<(string, Value)>, takenB: seq<(string, Value)>)
    requires Taken(a, INTENT_MEMBERS) == Ok(takenA) && Taken(b, INTENT_MEMBERS) == Ok(takenB)
    ensures |takenA| == |takenB| == 5
    ensures SameFive(a, b) <==> forall i :: 0 <= i < 5 ==> Same(takenA[i].1, takenB[i].1)
  {
    TakenNames(a, INTENT_MEMBERS);
    TakenNames(b, INTENT_MEMBERS);
    forall i | 0 <= i < 5
      ensures SameFound(Get(a, INTENT_MEMBERS[i]), Get(b, INTENT_MEMBERS[i])) <==> Same(takenA[i].1, takenB[i].1)
    {
    }
  }

  lemma SameIntents(
      takenA: seq<(string, Value)>, includedA: seq<(string, Value)>,
      takenB: seq<(string, Value)>, includedB: seq<(string, Value)>)
    requires |takenA| == |takenB| == 5
    requires forall i :: 0 <= i < 5 ==> takenA[i].0 == takenB[i].0 == INTENT_MEMBERS[i]
    ensures Same(Object(takenA + [("extensions", Object(includedA))]), Object(takenB + [("extensions", Object(includedB))]))
      <==> (forall i :: 0 <= i < 5 ==> Same(takenA[i].1, takenB[i].1)) && Same(Object(includedA), Object(includedB))
  {
    var ea, eb := ("extensions", Object(includedA)), ("extensions", Object(includedB));
    var wholeA, wholeB := takenA + [ea], takenB + [eb];
    IntentNames(takenB, eb);
    assert Names(wholeA) == Names(wholeB);
    SamePlaces(wholeA, wholeB, 0);
    assert wholeA[0..] == wholeA;
    assert forall i :: 0 <= i < 5 ==> wholeA[i] == takenA[i] && wholeB[i] == takenB[i];
    assert wholeA[5] == ea && wholeB[5] == eb;
  }

  lemma SameRequires(a: Value, b: Value)
    requires Required(a).Ok? && Required(b).Ok?
    requires SameFound(Get(a, "requires"), Get(b, "requires"))
    ensures Required(a) == Required(b)
  {
    var items, others := Get(a, "requires").value.items, Get(b, "requires").value.items;
    SameStrings(items, others);
  }

  lemma {:induction false} SameStrings(a: seq<Value>, b: seq<Value>)
    requires SameItems(a, b) && Strings(a).Ok?
    ensures Strings(a) == Strings(b)
  {
    if a != [] {
      SameStrings(a[1..], b[1..]);
    }
  }

  lemma SameExtensions(
      required: seq<string>, declaredA: seq<(string, Value)>, declaredB: seq<(string, Value)>,
      a: seq<(string, Value)>, b: seq<(string, Value)>)
    requires Included(required, declaredA, []) == Ok(a) && Included(required, declaredB, []) == Ok(b)
    ensures Same(Object(a), Object(b)) <==> SameDeclared(required, declaredA, declaredB)
  {
    IncludedKeys(required, declaredA, []);
    IncludedKeys(required, declaredB, []);
    SameByPlaces(Keys(required), a, b);
    KeysAre(required);
    if SameDeclared(required, declaredA, declaredB) {
      forall i | 0 <= i < |a| ensures Same(a[i].1, b[i].1) {
        assert Keys(required)[i] in Keys(required);
      }
    }
    if forall i :: 0 <= i < |a| ==> Same(a[i].1, b[i].1) {
      forall key | key in required && IsExtensionKey(key) ensures SameFound(Find(declaredA, key), Find(declaredB, key)) {
        assert key in Keys(required);
        var i :| 0 <= i < |Keys(required)| && Keys(required)[i] == key;
      }
    }
  }

  lemma SameByPlaces(keys: seq<string>, a: seq<(string, Value)>, b: seq<(string, Value)>)
    requires Names(a) == keys && Names(b) == keys && Distinct(keys)
    ensures |a| == |b| == |keys| && forall i :: 0 <= i < |a| ==> a[i].0 == b[i].0 == keys[i]
    ensures Same(Object(a), Object(b)) <==> forall i :: 0 <= i < |a| ==> Same(a[i].1, b[i].1)
  {
    assert |a| == |Names(a)| && |b| == |Names(b)|;
    SamePlaces(a, b, 0);
    assert a[0..] == a;
    forall i | 0 <= i < |a| ensures a[i].0 == b[i].0 == keys[i] {
      assert Names(a)[i] == Names(b)[i];
    }
  }

  lemma {:induction false} KeysAre(required: seq<string>)
    ensures forall key :: key in Keys(required) <==> key in required && IsExtensionKey(key)
  {
    if required != [] {
      KeysAre(required[1..]);
      assert required == [required[0]] + required[1..];
    }
  }

  // ---- the order on the wire ------------------------------------------------------------------------

  ghost predicate Alike(a: Option<Value>, b: Option<Value>) {
    (a.None? && b.None?) || SameFound(a, b)
  }

  lemma {:induction false} SameMemberOf(a: seq<(string, Value)>, b: seq<(string, Value)>, i: nat)
    returns (j: nat)
    requires SameMembers(a, b) && i < |a|
    ensures j < |b| && SameMember(a[i], b[j])
  {
    if i == 0 {
      var n :| n in b && SameMember(a[0], n);
      j :| 0 <= j < |b| && b[j] == n;
    } else {
      j := SameMemberOf(a[1..], b, i - 1);
    }
  }

  lemma FindsAlike(a: seq<(string, Value)>, b: seq<(string, Value)>, name: string, room: nat)
    requires InDomain(Object(a), room) && InDomain(Object(b), room) && Same(Object(a), Object(b))
    ensures Alike(Find(a, name), Find(b, name))
  {
    SameIsOrderedAlike(Object(a), Object(b), room);
    SameIsOrderedAlike(Object(b), Object(a), room);
    if Find(a, name).Some? {
      FoundMember(a, name);
      var i :| 0 <= i < |a| && a[i] == (name, Find(a, name).value);
      var j := SameMemberOf(a, b, i);
      FindMember(b, j);
    } else if Find(b, name).Some? {
      FoundMember(b, name);
      var i :| 0 <= i < |b| && b[i] == (name, Find(b, name).value);
      var j := SameMemberOf(b, a, i);
      FindMember(a, j);
    }
  }

  lemma {:induction false} TakenAlike(a: Value, b: Value, names: seq<string>, room: nat)
    requires InDomain(a, room) && InDomain(b, room) && a.Object? && b.Object? && Same(a, b)
    ensures Taken(a, names).Ok? == Taken(b, names).Ok?
    ensures Taken(a, names).Err? ==> Taken(b, names) == Taken(a, names)
  {
    if names != [] {
      FindsAlike(a.members, b.members, names[0], room);
      TakenAlike(a, b, names[1..], room);
    }
  }

  lemma {:induction false} StringsAlike(a: seq<Value>, b: seq<Value>)
    requires SameItems(a, b)
    ensures Strings(a) == Strings(b)
  {
    if a != [] {
      StringsAlike(a[1..], b[1..]);
    }
  }

  lemma {:induction false} IncludedAlike(
      required: seq<string>, a: seq<(string, Value)>, b: seq<(string, Value)>, seen: seq<string>, room: nat)
    requires InDomain(Object(a), room) && InDomain(Object(b), room) && Same(Object(a), Object(b))
    ensures Included(required, a, seen).Ok? == Included(required, b, seen).Ok?
    ensures Included(required, a, seen).Err? ==> Included(required, b, seen) == Included(required, a, seen)
  {
    if required != [] {
      FindsAlike(a, b, required[0], room);
      IncludedAlike(required[1..], a, b, seen + [required[0]], room);
    }
  }

  lemma RequiredAlike(a: Value, b: Value, room: nat)
    requires InDomain(a, room) && InDomain(b, room) && a.Object? && b.Object? && Same(a, b)
    ensures Required(a) == Required(b)
  {
    FindsAlike(a.members, b.members, "requires", room);
    var found := Get(a, "requires");
    if found.Some? && found.value.Array? {
      StringsAlike(found.value.items, Get(b, "requires").value.items);
    }
  }

  lemma DeclaredAlike(a: Value, b: Value, room: nat)
    requires InDomain(a, room) && InDomain(b, room) && a.Object? && b.Object? && Same(a, b)
    ensures Declared(a).Err? ==> Declared(b) == Declared(a)
    ensures Declared(a).Ok? ==>
              && Declared(b).Ok?
              && InDomain(Object(Declared(a).value), room) && InDomain(Object(Declared(b).value), room)
              && Same(Object(Declared(a).value), Object(Declared(b).value))
  {
    FindsAlike(a.members, b.members, "extensions", room);
    if Get(a, "extensions").Some? {
      FoundMember(a.members, "extensions");
      FoundMember(b.members, "extensions");
      MoreRoom(Get(a, "extensions").value, room - 1, room);
      MoreRoom(Get(b, "extensions").value, room - 1, room);
    }
  }

  lemma {:induction false} MoreRoom(value: Value, less: int, more: int)
    requires InDomain(value, less) && less <= more
    ensures InDomain(value, more)
    decreases value, 1
  {
    match value
    case Array(items) =>
      forall item | item in items ensures InDomain(item, more - 1) {
        MoreRoom(item, less - 1, more - 1);
      }
    case Object(members) =>
      forall member | member in members ensures Clean(member.0) && InDomain(member.1, more - 1) {
        MemberMoreRoom(member, less - 1, more - 1);
      }
    case _ =>
  }

  lemma {:induction false} MemberMoreRoom(member: (string, Value), less: int, more: int)
    requires InDomain(member.1, less) && less <= more
    ensures InDomain(member.1, more)
    decreases member, 2
  {
    MoreRoom(member.1, less, more);
  }

  /** The order members arrive in, at any level, changes neither whether an envelope has an
      intent, nor why not, nor what it is. */
  lemma WireOrderIsIgnored(a: Value, b: Value, room: nat)
    requires InDomain(a, room) && InDomain(b, room) && Same(a, b)
    ensures IntentOf(a).Err? ==> IntentOf(b) == IntentOf(a)
    ensures IntentOf(a).Ok? ==>
              IntentOf(b).Ok? && CanonicalText(IntentOf(a).value) == CanonicalText(IntentOf(b).value)
  {
    if a.Object? {
      TakenAlike(a, b, INTENT_MEMBERS, room);
      RequiredAlike(a, b, room);
      DeclaredAlike(a, b, room);
      if Required(a).Ok? && Declared(a).Ok? {
        IncludedAlike(Required(a).value, Declared(a).value, Declared(b).value, [], room);
      }
      if IntentOf(a).Ok? {
        SameEnvelopeSameRequest(a, b, room);
        IntentIsTheRequest(a, b, room);
      }
    }
  }

  lemma SameEnvelopeSameRequest(a: Value, b: Value, room: nat)
    requires InDomain(a, room) && InDomain(b, room) && a.Object? && b.Object? && Same(a, b)
    requires IntentOf(a).Ok?
    ensures SameRequest(a, b)
  {
    DeclaredAlike(a, b, room);
    var taken, included := IntentParts(a);
    TakenNames(a, INTENT_MEMBERS);
    forall i | 0 <= i < |INTENT_MEMBERS|
      ensures SameFound(Get(a, INTENT_MEMBERS[i]), Get(b, INTENT_MEMBERS[i]))
    {
      FindsAlike(a.members, b.members, INTENT_MEMBERS[i], room);
    }
    IncludedKeys(Required(a).value, Declared(a).value, []);
    KeysAre(Required(a).value);
    forall key | key in Required(a).value && IsExtensionKey(key)
      ensures SameFound(Find(Declared(a).value, key), Find(Declared(b).value, key))
    {
      FindsAlike(Declared(a).value, Declared(b).value, key, room);
      assert key in Names(included);
      var i :| 0 <= i < |included| && Names(included)[i] == key;
    }
  }
}
