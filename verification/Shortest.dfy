/** What canonical text looks like, said without the printer: its members in the order of their
    UTF-16 code units, its characters in their shortest spelling, and as a whole the shortest
    text that reads as the value it is of. */
module Shortest {
  import opened Decimals
  import opened Order
  import opened Values
  import opened Grammar
  import opened Reader
  import opened ReaderTheorems
  import opened Canonical
  import opened CanonicalTheorems
  import opened MemberOrder
  import opened Escapes

  // ---- the order of names --------------------------------------------------------------------

  /** `units` are the UTF-16 code units that decode to `text`: each a character, or the two
      surrogates that make one. */
  ghost predicate Decodes(units: seq<int>, text: string)
    decreases |text|
  {
    if text == "" then units == []
    else if text[0] as int < 0x10000 then
      units != [] && units[0] == text[0] as int && Decodes(units[1..], text[1..])
    else
      |units| >= 2 && PairOf(units[0], units[1], text[0]) && Decodes(units[2..], text[1..])
  }

  lemma {:induction false} Utf16Decodes(text: string)
    ensures Decodes(Utf16(text), text)
  {
    if text != "" {
      Utf16Decodes(text[1..]);
      assert Utf16(text)[|Units(text[0])|..] == Utf16(text[1..]);
    }
  }

  /** The first name has the smaller code unit where the two first differ, or ends there. */
  ghost predicate NameAscends(a: string, b: string) {
    exists u, v :: Decodes(u, a) && Decodes(v, b) && SmallerAtFirstDifference(u, v)
  }

  lemma AscendsWhenBefore(a: string, b: string)
    requires NameBefore(a, b)
    ensures NameAscends(a, b)
  {
    Utf16Decodes(a);
    Utf16Decodes(b);
    BeforeExactly(Utf16(a), Utf16(b));
  }

  /** At every level each member's name ascends to the next ones'. */
  ghost predicate MembersAscend(value: Value) {
    match value
    case Array(items) => forall item :: item in items ==> MembersAscend(item)
    case Object(members) =>
      && (forall i, j :: 0 <= i < j < |members| ==> NameAscends(members[i].0, members[j].0))
      && forall member :: member in members ==> MembersAscend(member.1)
    case _ => true
  }

  lemma {:induction false} OrderedAscends(value: Value, room: int)
    requires InDomain(value, room)
    ensures MembersAscend(Ordered(value))
    decreases value
  {
    match value
    case Array(items) =>
      forall i | 0 <= i < |items| ensures MembersAscend(OrderedItems(items)[i]) {
        assert items[i] in items;
        OrderedAscends(items[i], room - 1);
      }
    case Object(members) =>
      forall member | member in members ensures MembersAscend(Ordered(member.1)) {
        OrderedAscends(member.1, room - 1);
      }
      SortedAscends(members);
    case _ =>
  }

  lemma SortedAscends(members: seq<(string, Value)>)
    requires Distinct(Names(members))
    requires forall member :: member in members ==> MembersAscend(Ordered(member.1))
    ensures MembersAscend(Object(SortByName(OrderedMembers(members))))
  {
    var ordered := OrderedMembers(members);
    var sorted := SortByName(ordered);
    OrderedDistinct(members);
    SortInOrder(ordered);
    forall i, j | 0 <= i < j < |sorted| ensures NameAscends(sorted[i].0, sorted[j].0) {
      AscendsWhenBefore(sorted[i].0, sorted[j].0);
    }
    forall member | member in sorted ensures MembersAscend(member.1) {
      var i := SortedEntry(ordered, member);
      assert members[i] in members;
    }
  }

  /** What canonical text reads as has its members in the order of their code units. */
  lemma CanonicalAscends(value: Value, room: nat)
    requires InDomain(value, room)
    ensures ReadText(CanonicalText(value), room).Ok? && MembersAscend(ReadText(CanonicalText(value), room).value)
  {
    ReadUndoesCanonical(value, room);
    OrderedAscends(value, room);
  }

  // ---- the spelling of a character -------------------------------------------------------------

  /** The printer's spelling of a character: itself if it may stand so, a letter's escape if it
      has one, and lower-case digits otherwise. */
  lemma CharacterIsSpelled(c: char)
    ensures c as int >= 0x20 && c != '"' && c != '\\' ==> CharacterText(c) == [c]
    ensures forall i :: 0 <= i < |SHORTS| && SHORTS[i].1 == c as int && c != '/' ==> CharacterText(c) == ['\\', SHORTS[i].0]
    ensures c as int < 0x20 && (forall i :: 0 <= i < |SHORTS| ==> SHORTS[i].1 != c as int) ==>
              CharacterText(c) == "\\u00" + [LOWER[c as int / 16], LOWER[c as int % 16]]
  {
    if c as int < 0x20 {
      LowerDigit(c as int / 16);
      LowerDigit(c as int % 16);
      assert SHORTS[3].1 == 8 && SHORTS[4].1 == 12 && SHORTS[5].1 == 10 && SHORTS[6].1 == 13 && SHORTS[7].1 == 9;
    }
  }

  lemma LowerDigit(n: int)
    requires 0 <= n < 16
    ensures LowerHex(n) == LOWER[n]
  {
    if n < 10 {
      DecimalNibble(n);
    } else {
      LetterNibble(n);
    }
  }

  /** No spelling of it is shorter. */
  lemma CharacterIsShortest(unit: LegalUnit, after: string)
    ensures |SpellUnit(unit, after)| >= |CharacterText(UnitMeaning(unit))| + |after|
  {
  }

  lemma {:induction false} CharactersAreShortest(units: seq<LegalUnit>, after: string)
    ensures |SpellUnits(units, after)| >= |CharactersText(UnitsMeaning(units))| + |after|
  {
    if units != [] {
      CharactersAreShortest(units[1..], after);
      CharacterIsShortest(units[0], SpellUnits(units[1..], after));
      assert UnitsMeaning(units)[1..] == UnitsMeaning(units[1..]);
    }
  }

  lemma {:induction false} NumeralIsShortest(digits: string)
    requires digits != "" && Digits(digits)
    ensures DigitsValue(digits) >= 0 && |digits| >= |DecimalDigits(DigitsValue(digits))|
  {
    DigitsNonNegative(digits);
    var before := digits[..|digits| - 1];
    assert digits[|digits| - 1] in digits;
    if DigitsValue(digits) >= 10 {
      assert DigitsValue(before) == DigitsValue(digits) / 10;
      NumeralIsShortest(before);
    }
  }

  /** An integer's canonical text is read as it exactly when it is inside 53 bits and a sign. */
  lemma IntegersExactly(n: int, maxDepth: nat)
    ensures ReadText(CanonicalText(Int(n)), maxDepth) == Ok(Int(n)) <==> -0x20_0000_0000_0000 < n < 0x20_0000_0000_0000
  {
    if -0x20_0000_0000_0000 < n < 0x20_0000_0000_0000 {
      ReadUndoesText(Int(n), maxDepth);
    } else if ReadText(CanonicalText(Int(n)), maxDepth) == Ok(Int(n)) {
      ReadIsInDomain(CanonicalText(Int(n)), maxDepth);
    }
  }

  // ---- the length of a text ----------------------------------------------------------------------

  function MembersLength(members: seq<(string, Value)>): int {
    if members == [] then 0 else |MemberText(members[0])| + 1 + MembersLength(members[1..])
  }

  lemma {:induction false} LengthOfMembers(members: seq<(string, Value)>)
    ensures |MembersText(members)| == if members == [] then 0 else MembersLength(members) - 1
  {
    if |members| == 1 {
      assert members[1..] == [];
    } else if |members| > 1 {
      LengthOfMembers(members[1..]);
    }
  }

  lemma {:induction false} InsertLength(entry: (string, Value), sorted: seq<(string, Value)>)
    ensures MembersLength(Insert(entry, sorted)) == |MemberText(entry)| + 1 + MembersLength(sorted)
  {
    if sorted == [] || NameBefore(entry.0, sorted[0].0) {
      assert ([entry] + sorted)[1..] == sorted;
    } else {
      InsertLength(entry, sorted[1..]);
      assert ([sorted[0]] + Insert(entry, sorted[1..]))[1..] == Insert(entry, sorted[1..]);
    }
  }

  lemma {:induction false} MoreMembersLength(members: seq<(string, Value)>, last: (string, Value))
    ensures MembersLength(members + [last]) == MembersLength(members) + |MemberText(last)| + 1
  {
    if members == [] {
      assert members + [last] == [last] && [last][1..] == [];
    } else {
      assert (members + [last])[1..] == members[1..] + [last];
      MoreMembersLength(members[1..], last);
    }
  }

  /** Sorting leaves the length as it is. */
  lemma {:induction false} SortLength(members: seq<(string, Value)>)
    ensures MembersLength(SortByName(members)) == MembersLength(members)
    decreases |members|
  {
    if members != [] {
      var before, last := members[..|members| - 1], members[|members| - 1];
      assert members == before + [last];
      SortLength(before);
      InsertLength(last, SortByName(before));
      MoreMembersLength(before, last);
    }
  }

  /** So does putting everything in canonical order. */
  lemma {:induction false} CanonicalLength(value: Value)
    ensures |CanonicalText(value)| == |Text(value)|
    decreases value, 1
  {
    match value
    case Array(items) => ItemsLength(items);
    case Object(members) =>
      var ordered := OrderedMembers(members);
      OrderedLength(members);
      SortLength(ordered);
      LengthOfMembers(members);
      LengthOfMembers(SortByName(ordered));
      SortKeepsEntries(ordered);
    case _ =>
  }

  lemma {:induction false} ItemsLength(items: seq<Value>)
    ensures |ItemsText(OrderedItems(items))| == |ItemsText(items)|
    decreases items, 0
  {
    if items != [] {
      CanonicalLength(items[0]);
      ItemsLength(items[1..]);
      assert OrderedItems(items)[1..] == OrderedItems(items[1..]);
    }
  }

  lemma {:induction false} OrderedLength(members: seq<(string, Value)>)
    ensures MembersLength(OrderedMembers(members)) == MembersLength(members)
    decreases members, 0
  {
    if members != [] {
      MemberLength(members[0]);
      OrderedLength(members[1..]);
      assert OrderedMembers(members)[1..] == OrderedMembers(members[1..]);
    }
  }

  lemma {:induction false} MemberLength(member: (string, Value))
    ensures |MemberText(OrderedMember(member))| == |MemberText(member)|
    decreases member, 2
  {
    CanonicalLength(member.1);
  }

  // ---- the shortest text ---------------------------------------------------------------------------

  lemma {:induction false} TreeIsLonger(tree: Tree, room: int, after: string)
    requires Legal(tree, room)
    ensures |Spell(tree, after)| >= |Text(Meaning(tree))| + |after|
    decreases tree
  {
    match tree
    case Word(value) =>
    case Number(minus, digits) =>
      NumeralIsShortest(digits);
      IntegerIsShortest(minus, digits);
    case Quoted(units) =>
      CharactersAreShortest(units, "\"" + after);
    case List(_, items) =>
      ItemsAreLonger(items, room - 1, "]" + after);
    case Record(_, members) =>
      MembersAreLonger(members, room - 1, "}" + after);
      LengthOfMembers(MembersMeaning(members));
  }

  lemma IntegerIsShortest(minus: bool, digits: string)
    requires LegalNumber(minus, digits) && DigitsValue(digits) >= 0 && |digits| >= |DecimalDigits(DigitsValue(digits))|
    ensures |Decimal(if minus then -DigitsValue(digits) else DigitsValue(digits))| <= |digits| + (if minus then 1 else 0)
  {
  }

  lemma {:induction false} ItemsAreLonger(items: Items, room: int, after: string)
    requires LegalItems(items, room)
    ensures |SpellItems(items, after)| >= |ItemsText(ItemsMeaning(items))| + |after|
    decreases items
  {
    if items.Item? {
      ItemsAreLonger(items.rest, room, after);
      var rest := items.after + if items.rest.NoItem? then after else "," + SpellItems(items.rest, after);
      TreeIsLonger(items.tree, room, rest);
      assert ItemsMeaning(items)[1..] == ItemsMeaning(items.rest);
    }
  }

  lemma {:induction false} MembersAreLonger(members: Members, room: int, after: string)
    requires LegalMembers(members, room)
    ensures |SpellMembers(members, after)| >= |after| + (if members.NoMember? then 0 else MembersLength(MembersMeaning(members)) - 1)
    decreases members
  {
    if members.Member? {
      MembersAreLonger(members.rest, room, after);
      var next := members.after + if members.rest.NoMember? then after else "," + SpellMembers(members.rest, after);
      TreeIsLonger(members.tree, room, next);
      var value := members.colonBefore + (":" + (members.colonAfter + Spell(members.tree, next)));
      CharactersAreShortest(members.name, "\"" + value);
      assert MembersMeaning(members)[1..] == MembersMeaning(members.rest);
    }
  }

  /** Whatever reads as a value is at least as long as its canonical text. */
  lemma CanonicalIsShortest(text: string, maxDepth: nat)
    requires ReadText(text, maxDepth).Ok?
    ensures |CanonicalText(ReadText(text, maxDepth).value)| <= |text|
  {
    var value := ReadText(text, maxDepth).value;
    ReaderIsTheGrammar(text, maxDepth, value);
    var before, tree, after :| DenotesBy(text, value, maxDepth, before, tree, after);
    TreeIsLonger(tree, maxDepth, after);
    CanonicalLength(value);
  }
}
