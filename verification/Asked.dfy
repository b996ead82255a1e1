/** What a command's intent is made of, member by member, and exactly which envelopes have none
    and why. */
module Asked {
  import opened Options
  import opened Values
  import opened Intent

  // ---- members -------------------------------------------------------------------------------

  /** The first member of that name holds the value. */
  ghost predicate Has(members: seq<(string, Value)>, name: string, value: Value) {
    exists i :: 0 <= i < |members| && members[i] == (name, value) && forall j :: 0 <= j < i ==> members[j].0 != name
  }

  ghost predicate HasNo(members: seq<(string, Value)>, name: string) {
    forall member :: member in members ==> member.0 != name
  }

  lemma {:induction false} FindExactly(members: seq<(string, Value)>, name: string)
    ensures Find(members, name).None? <==> HasNo(members, name)
    ensures forall value :: Find(members, name) == Some(value) <==> Has(members, name, value)
  {
    if members != [] {
      var rest := members[1..];
      assert members == [members[0]] + rest;
      FindExactly(rest, name);
      forall value ensures Find(members, name) == Some(value) <==> Has(members, name, value) {
        if members[0].0 == name {
          assert members[0].1 == value ==> members[0] == (name, value);
        } else {
          HasInTheRest(members, name, value);
        }
      }
    }
  }

  lemma HasInTheRest(members: seq<(string, Value)>, name: string, value: Value)
    requires members != [] && members[0].0 != name
    ensures Has(members, name, value) <==> Has(members[1..], name, value)
  {
    if i :| 0 <= i < |members[1..]| && members[1..][i] == (name, value) && forall j :: 0 <= j < i ==> members[1..][j].0 != name {
      assert members[i + 1] == (name, value);
      forall j | 0 <= j < i + 1 ensures members[j].0 != name {
        assert j > 0 ==> members[1..][j - 1] == members[j];
      }
    }
    if i :| 0 <= i < |members| && members[i] == (name, value) && forall j :: 0 <= j < i ==> members[j].0 != name {
      assert members[1..][i - 1] == (name, value);
      assert forall j :: 0 <= j < i - 1 ==> members[1..][j] == members[j + 1];
    }
  }

  // ---- what an intent is made of ---------------------------------------------------------------

  datatype Parts = Parts(
    operation: Value, subject: Value, preconditions: Value, keys: seq<string>, payload: Value,
    declared: seq<(string, Value)>, included: seq<(string, Value)>)

  function Texts(keys: seq<string>): (items: seq<Value>)
    ensures |items| == |keys| && forall i :: 0 <= i < |keys| ==> items[i] == String(keys[i])
  {
    seq(|keys|, i requires 0 <= i < |keys| => String(keys[i]))
  }

  /** The keys with a slash, in order. */
  function WithSlash(keys: seq<string>): seq<string> {
    if keys == [] then [] else (if '/' in keys[0] then [keys[0]] else []) + WithSlash(keys[1..])
  }

  /** An envelope's five members; the extensions it declares, if any; and of those the ones its
      required keys name. No key is required twice. */
  ghost predicate MadeOf(envelope: Value, parts: Parts) {
    && envelope.Object?
    && Has(envelope.members, "operation", parts.operation)
    && Has(envelope.members, "subject", parts.subject)
    && Has(envelope.members, "preconditions", parts.preconditions)
    && Has(envelope.members, "requires", Array(Texts(parts.keys)))
    && Has(envelope.members, "payload", parts.payload)
    && (|| Has(envelope.members, "extensions", Object(parts.declared))
        || (HasNo(envelope.members, "extensions") && parts.declared == []))
    && Distinct(parts.keys)
    && Names(parts.included) == WithSlash(parts.keys)
    && forall member :: member in parts.included ==> Has(parts.declared, member.0, member.1)
  }

  function Built(parts: Parts): Value {
    Object([("operation", parts.operation), ("subject", parts.subject), ("preconditions", parts.preconditions),
            ("requires", Array(Texts(parts.keys))), ("payload", parts.payload), ("extensions", Object(parts.included))])
  }

  lemma {:induction false} WithSlashAreKeys(keys: seq<string>)
    ensures Keys(keys) == WithSlash(keys)
  {
    if keys != [] {
      WithSlashAreKeys(keys[1..]);
    }
  }

  /** The strings of an array, when that is all it holds. */
  lemma {:induction false} StringsExactly(items: seq<Value>)
    ensures Strings(items).Ok? <==> forall item :: item in items ==> item.String?
    ensures Strings(items).Err? ==> Strings(items).error == MalformedRequires
    ensures Strings(items).Ok? ==> items == Texts(Strings(items).value)
  {
    if items != [] {
      StringsExactly(items[1..]);
      assert items == [items[0]] + items[1..];
    }
  }

  /** A required key that stands in the way: one required before, or one with a slash that is
      not declared. */
  ghost predicate Offends(keys: seq<string>, declared: seq<(string, Value)>, seen: seq<string>, n: nat)
    requires n < |keys|
  {
    keys[n] in seen + keys[..n] || ('/' in keys[n] && HasNo(declared, keys[n]))
  }

  ghost predicate OffendsFirst(keys: seq<string>, declared: seq<(string, Value)>, seen: seq<string>, n: nat)
    requires n < |keys|
  {
    Offends(keys, declared, seen, n) && forall m :: 0 <= m < n ==> !Offends(keys, declared, seen, m)
  }

  lemma LaterOffence(keys: seq<string>, declared: seq<(string, Value)>, seen: seq<string>, n: nat)
    requires 0 < n < |keys|
    ensures Offends(keys, declared, seen, n) <==> Offends(keys[1..], declared, seen + [keys[0]], n - 1)
  {
    assert seen + keys[..n] == seen + [keys[0]] + keys[1..][..n - 1];
  }

  function OffenceAt(keys: seq<string>, seen: seq<string>, n: nat): IntentError
    requires n < |keys|
  {
    if keys[n] in seen + keys[..n] then DuplicateRequires(keys[n]) else RequiredExtensionMissing(keys[n])
  }

  ghost predicate IsFirstOffence(keys: seq<string>, declared: seq<(string, Value)>, seen: seq<string>, error: IntentError) {
    exists n {:trigger OffendsFirst(keys, declared, seen, n)} ::
      0 <= n < |keys| && OffendsFirst(keys, declared, seen, n) && error == OffenceAt(keys, seen, n)
  }

  ghost predicate NoOffence(keys: seq<string>, declared: seq<(string, Value)>, seen: seq<string>) {
    forall n :: 0 <= n < |keys| ==> !Offends(keys, declared, seen, n)
  }

  /** The first key that stands in the way is the one reported, and a repeat before an absence. */
  lemma {:induction false} IncludedExactly(keys: seq<string>, declared: seq<(string, Value)>, seen: seq<string>)
    ensures Included(keys, declared, seen).Ok? <==> NoOffence(keys, declared, seen)
    ensures Included(keys, declared, seen).Err? ==> IsFirstOffence(keys, declared, seen, Included(keys, declared, seen).error)
  {
    if keys != [] {
      var rest, more := keys[1..], seen + [keys[0]];
      FindExactly(declared, keys[0]);
      assert seen + keys[..0] == seen;
      if Offends(keys, declared, seen, 0) {
        assert OffendsFirst(keys, declared, seen, 0) && OffenceAt(keys, seen, 0) == Included(keys, declared, seen).error;
      } else {
        IncludedExactly(rest, declared, more);
        OffencesLater(keys, declared, seen);
        if Included(keys, declared, seen).Err? {
          FirstLater(keys, declared, seen, Included(rest, declared, more).error);
        }
      }
    }
  }

  lemma OffencesLater(keys: seq<string>, declared: seq<(string, Value)>, seen: seq<string>)
    requires keys != [] && !Offends(keys, declared, seen, 0)
    ensures NoOffence(keys, declared, seen) <==> NoOffence(keys[1..], declared, seen + [keys[0]])
  {
    var rest, more := keys[1..], seen + [keys[0]];
    forall n | 0 <= n < |rest| ensures Offends(keys, declared, seen, n + 1) <==> Offends(rest, declared, more, n) {
      LaterOffence(keys, declared, seen, n + 1);
    }
    if NoOffence(rest, declared, more) {
      forall n | 0 <= n < |keys| ensures !Offends(keys, declared, seen, n) {
        assert n > 0 ==> !Offends(rest, declared, more, n - 1);
      }
    }
  }

  lemma FirstLater(keys: seq<string>, declared: seq<(string, Value)>, seen: seq<string>, error: IntentError)
    requires keys != [] && !Offends(keys, declared, seen, 0)
    requires IsFirstOffence(keys[1..], declared, seen + [keys[0]], error)
    ensures IsFirstOffence(keys, declared, seen, error)
  {
    var rest, more := keys[1..], seen + [keys[0]];
    var n :| 0 <= n < |rest| && OffendsFirst(rest, declared, more, n) && error == OffenceAt(rest, more, n);
    assert seen + keys[..n + 1] == more + rest[..n];
    forall m | 0 <= m <= n ensures Offends(keys, declared, seen, m + 1) <==> Offends(rest, declared, more, m) {
      LaterOffence(keys, declared, seen, m + 1);
    }
    forall m | 0 <= m < n + 1 ensures !Offends(keys, declared, seen, m) {
      assert m > 0 ==> !Offends(rest, declared, more, m - 1);
    }
    assert OffendsFirst(keys, declared, seen, n + 1) && error == OffenceAt(keys, seen, n + 1);
  }

  lemma UnrepeatedKeys(keys: seq<string>, declared: seq<(string, Value)>)
    requires NoOffence(keys, declared, [])
    ensures Distinct(keys)
  {
    forall i, j | 0 <= i < j < |keys| ensures keys[i] != keys[j] {
      assert !Offends(keys, declared, [], j) && keys[..j][i] == keys[i] && keys[i] in [] + keys[..j];
    }
  }

  /** An intent is what an envelope's five members, required keys and declared extensions make,
      and nothing else is one. */
  lemma IntentExactly(envelope: Value, intent: Value)
    ensures IntentOf(envelope) == Ok(intent) <==> exists parts :: MadeOf(envelope, parts) && intent == Built(parts)
  {
    if IntentOf(envelope) == Ok(intent) {
      var parts := PartsOf(envelope);
    }
    if parts :| MadeOf(envelope, parts) && intent == Built(parts) {
      PartsMake(envelope, parts);
    }
  }

  lemma PartsOf(envelope: Value) returns (parts: Parts)
    requires IntentOf(envelope).Ok?
    ensures MadeOf(envelope, parts) && IntentOf(envelope).value == Built(parts)
  {
    var taken, included := IntentParts(envelope);
    var members, keys, declared := envelope.members, Required(envelope).value, Declared(envelope).value;
    TakenNames(envelope, INTENT_MEMBERS);
    FiveFound(envelope, taken);
    var items := Get(envelope, "requires").value.items;
    StringsExactly(items);
    FindExactly(members, "extensions");
    IncludedKeys(keys, declared, []);
    IncludedExactly(keys, declared, []);
    UnrepeatedKeys(keys, declared);
    WithSlashAreKeys(keys);
    forall member | member in included ensures Has(declared, member.0, member.1) {
      var i :| 0 <= i < |included| && included[i] == member;
      FindExactly(declared, member.0);
    }
    parts := Parts(taken[0].1, taken[1].1, taken[2].1, keys, taken[4].1, declared, included);
    assert taken + [("extensions", Object(included))] == Built(parts).members;
  }

  /** The five members, found one by one. */
  lemma FiveFound(envelope: Value, taken: seq<(string, Value)>)
    requires envelope.Object? && |taken| == 5
    requires forall i :: 0 <= i < 5 ==> taken[i].0 == INTENT_MEMBERS[i] && Get(envelope, INTENT_MEMBERS[i]) == Some(taken[i].1)
    ensures taken == [("operation", taken[0].1), ("subject", taken[1].1), ("preconditions", taken[2].1),
                      ("requires", taken[3].1), ("payload", taken[4].1)]
    ensures forall i :: 0 <= i < 5 ==> Has(envelope.members, taken[i].0, taken[i].1)
    ensures Get(envelope, "requires") == Some(taken[3].1)
  {
    forall i | 0 <= i < 5 ensures Has(envelope.members, taken[i].0, taken[i].1) {
      FindExactly(envelope.members, INTENT_MEMBERS[i]);
    }
    assert INTENT_MEMBERS[0] == "operation" && INTENT_MEMBERS[1] == "subject" && INTENT_MEMBERS[2] == "preconditions"
        && INTENT_MEMBERS[3] == "requires" && INTENT_MEMBERS[4] == "payload";
  }

  lemma PartsMake(envelope: Value, parts: Parts)
    requires MadeOf(envelope, parts)
    ensures IntentOf(envelope) == Ok(Built(parts))
  {
    var values := [parts.operation, parts.subject, parts.preconditions, Array(Texts(parts.keys)), parts.payload];
    forall i | 0 <= i < 5 ensures Get(envelope, INTENT_MEMBERS[i]) == Some(values[i]) {
      FindExactly(envelope.members, INTENT_MEMBERS[i]);
    }
    TakenOf(envelope, INTENT_MEMBERS, values);
    RequiringMakes(envelope, parts);
    IncludedBack(parts.keys, parts.declared, parts.included, []);
    assert Paired(INTENT_MEMBERS, values) + [("extensions", Object(parts.included))] == Built(parts).members;
  }

  lemma RequiringMakes(envelope: Value, parts: Parts)
    requires MadeOf(envelope, parts)
    ensures Required(envelope) == Ok(parts.keys) && Declared(envelope) == Ok(parts.declared)
  {
    FindExactly(envelope.members, "requires");
    FindExactly(envelope.members, "extensions");
    StringsBack(parts.keys);
  }

  function Paired(names: seq<string>, values: seq<Value>): (members: seq<(string, Value)>)
    requires |names| == |values|
    ensures |members| == |names| && forall i :: 0 <= i < |names| ==> members[i] == (names[i], values[i])
  {
    seq(|names|, i requires 0 <= i < |names| => (names[i], values[i]))
  }

  lemma {:induction false} TakenOf(envelope: Value, names: seq<string>, values: seq<Value>)
    requires |names| == |values| && forall i :: 0 <= i < |names| ==> Get(envelope, names[i]) == Some(values[i])
    ensures Taken(envelope, names) == Ok(Paired(names, values))
  {
    if names != [] {
      TakenOf(envelope, names[1..], values[1..]);
      assert [(names[0], values[0])] + Paired(names[1..], values[1..]) == Paired(names, values);
    }
  }

  lemma {:induction false} StringsBack(keys: seq<string>)
    ensures Strings(Texts(keys)) == Ok(keys)
  {
    if keys != [] {
      StringsBack(keys[1..]);
      assert Texts(keys)[1..] == Texts(keys[1..]);
      assert keys == [keys[0]] + keys[1..];
    }
  }

  lemma {:induction false} IncludedBack(
      keys: seq<string>, declared: seq<(string, Value)>, included: seq<(string, Value)>, seen: seq<string>)
    requires Distinct(keys) && (forall key :: key in keys ==> key !in seen)
    requires Names(included) == WithSlash(keys)
    requires forall member :: member in included ==> Has(declared, member.0, member.1)
    ensures Included(keys, declared, seen) == Ok(included)
  {
    if keys == [] {
      assert |included| == |Names(included)|;
    } else {
      var rest := keys[1..];
      assert forall i, j :: 0 <= i < j < |rest| ==> rest[i] == keys[i + 1] && rest[j] == keys[j + 1];
      forall key | key in rest ensures key !in seen + [keys[0]] {
        var i :| 0 <= i < |rest| && rest[i] == key;
        assert keys[i + 1] == key && key in keys;
      }
      if '/' in keys[0] {
        FindExactly(declared, keys[0]);
        assert |Names(included)| == |included| && Names(included)[0] == keys[0] == included[0].0 && included[0] in included;
        assert Names(included[1..]) == Names(included)[1..] == WithSlash(rest);
        IncludedBack(rest, declared, included[1..], seen + [keys[0]]);
        assert included == [included[0]] + included[1..];
      } else {
        IncludedBack(rest, declared, included, seen + [keys[0]]);
      }
    }
  }

  // ---- which envelopes have none -------------------------------------------------------------------

  const FIVE: seq<string> := ["operation", "subject", "preconditions", "requires", "payload"]

  lemma {:induction false} TakenExactly(envelope: Value, names: seq<string>)
    requires envelope.Object?
    ensures Taken(envelope, names).Ok? <==> forall name :: name in names ==> !HasNo(envelope.members, name)
    ensures Taken(envelope, names).Err? ==>
              exists n :: 0 <= n < |names| && Taken(envelope, names).error == MissingMember(names[n])
                && HasNo(envelope.members, names[n]) && forall m :: 0 <= m < n ==> !HasNo(envelope.members, names[m])
  {
    if names != [] {
      FindExactly(envelope.members, names[0]);
      var rest := names[1..];
      TakenExactly(envelope, rest);
      assert names == [names[0]] + rest;
      if Taken(envelope, names).Err? && Get(envelope, names[0]).Some? {
        var n :| 0 <= n < |rest| && Taken(envelope, rest).error == MissingMember(rest[n])
                 && HasNo(envelope.members, rest[n]) && forall m :: 0 <= m < n ==> !HasNo(envelope.members, rest[m]);
        assert names[n + 1] == rest[n];
        forall m | 0 <= m < n + 1 ensures !HasNo(envelope.members, names[m]) {
          assert m > 0 ==> names[m] == rest[m - 1];
        }
      }
    }
  }

  /** Why an envelope has no intent: it is no object; the first of the five members it lacks;
      requirements that are no array of strings; extensions that are no object; or its first
      required key that is a repeat or is not declared. */
  lemma RefusedInOrder(envelope: Value)
    ensures IntentOf(envelope).Err? ==> IsReason(envelope, IntentOf(envelope).error)
  {
    if envelope.Object? {
      assert INTENT_MEMBERS == FIVE;
      TakenExactly(envelope, FIVE);
      if Taken(envelope, FIVE).Ok? {
        assert forall i :: 0 <= i < 5 ==> FIVE[i] in FIVE;
        RequiringRefused(envelope);
      }
    }
  }

  lemma RequiringRefused(envelope: Value)
    requires HasFive(envelope) && Taken(envelope, INTENT_MEMBERS).Ok?
    ensures IntentOf(envelope).Err? ==> IsReason(envelope, IntentOf(envelope).error)
  {
    FindExactly(envelope.members, "extensions");
    RequiredExactly(envelope);
    if Required(envelope).Ok? && Declared(envelope).Ok? {
      KeyRefused(envelope, Required(envelope).value, Declared(envelope).value);
    }
  }

  lemma KeyRefused(envelope: Value, keys: seq<string>, declared: seq<(string, Value)>)
    requires IsRequiring(envelope, keys, declared)
    ensures Included(keys, declared, []).Err? ==> IsReason(envelope, Included(keys, declared, []).error)
  {
    IncludedExactly(keys, declared, []);
  }

  ghost predicate IsReason(envelope: Value, error: IntentError) {
    match error
    case NotAnObject => !envelope.Object?
    case MissingMember(name) =>
      && envelope.Object?
      && exists n :: 0 <= n < 5 && FIVE[n] == name && HasNo(envelope.members, name)
                     && forall m :: 0 <= m < n ==> !HasNo(envelope.members, FIVE[m])
    case MalformedRequires => HasFive(envelope) && !exists keys :: Has(envelope.members, "requires", Array(Texts(keys)))
    case MalformedExtensions =>
      && HasFive(envelope) && (exists keys :: Has(envelope.members, "requires", Array(Texts(keys))))
      && exists value: Value :: !value.Object? && Has(envelope.members, "extensions", value)
    case _ => exists keys, declared :: IsRequiring(envelope, keys, declared) && IsFirstOffence(keys, declared, [], error)
  }

  ghost predicate HasFive(envelope: Value) {
    envelope.Object? && forall i :: 0 <= i < 5 ==> !HasNo(envelope.members, FIVE[i])
  }

  /** The keys an envelope requires, and the extensions it declares. */
  ghost predicate IsRequiring(envelope: Value, keys: seq<string>, declared: seq<(string, Value)>) {
    && HasFive(envelope) && Has(envelope.members, "requires", Array(Texts(keys)))
    && (|| Has(envelope.members, "extensions", Object(declared))
        || (HasNo(envelope.members, "extensions") && declared == []))
  }

  lemma RequiredExactly(envelope: Value)
    requires envelope.Object?
    ensures Required(envelope).Err? ==> Required(envelope).error == MalformedRequires
    ensures Required(envelope).Ok? ==> Has(envelope.members, "requires", Array(Texts(Required(envelope).value)))
    ensures Required(envelope).Ok? <==> exists keys :: Has(envelope.members, "requires", Array(Texts(keys)))
  {
    FindExactly(envelope.members, "requires");
    var found := Get(envelope, "requires");
    if found.Some? && found.value.Array? {
      StringsExactly(found.value.items);
    }
    if keys :| Has(envelope.members, "requires", Array(Texts(keys))) {
      StringsBack(keys);
    }
  }
}
