/** Reading undoes printing, and printing tells two values apart exactly when they differ
    by more than the order of members. */
module CanonicalTheorems {
  import opened Decimals
  import opened Values
  import opened Grammar
  import opened Reader
  import opened ReaderTheorems
  import opened Canonical

  // ---- texts side by side -----------------------------------------------------------------

  lemma Regroup(a: string, b: string, c: string)
    ensures (a + b) + c == a + (b + c)
  {
  }

  lemma Nothing(a: string)
    ensures "" + a == a && a + "" == a
  {
  }

  // ---- numbers -------------------------------------------------------------------------

  lemma IntegerSpelled(n: int, after: string)
    requires -MAX_SAFE_INTEGER <= n <= MAX_SAFE_INTEGER
    ensures var magnitude := if n < 0 then -n else n;
            && LegalNumber(n < 0, DecimalDigits(magnitude))
            && SpellNumber(n < 0, DecimalDigits(magnitude), after) == Decimal(n) + after
            && Meaning(Number(n < 0, DecimalDigits(magnitude))) == Int(n)
  {
    DecimalIsDigits(if n < 0 then -n else n);
    Regroup("-", DecimalDigits(if n < 0 then -n else n), after);
  }

  // ---- strings -------------------------------------------------------------------------

  /** How the printer spells a character, in the grammar's terms. */
  function UnitFor(c: char): LegalUnit
    requires !IsNoncharacter(c as int)
  {
    if c == '"' || c == '\\' then Short(c)
    else if c as int == 8 then Short('b')
    else if c as int == 9 then Short('t')
    else if c as int == 10 then Short('n')
    else if c as int == 12 then Short('f')
    else if c as int == 13 then Short('r')
    else if c as int < 0x20 then
      HexOfControl(c as int);
      Escaped("00" + [LowerHex(c as int / 16), LowerHex(c as int % 16)])
    else Plain(c)
  }

  lemma HexOfControl(n: nat)
    requires n < 0x20
    ensures FourHex("00" + [LowerHex(n / 16), LowerHex(n % 16)])
    ensures HexValue("00" + [LowerHex(n / 16), LowerHex(n % 16)]) == n
  {
  }

  lemma CharacterSpelled(c: char, after: string)
    requires !IsNoncharacter(c as int)
    ensures SpellUnit(UnitFor(c), after) == CharacterText(c) + after
    ensures UnitMeaning(UnitFor(c)) == c
  {
    var n := c as int;
    match UnitFor(c)
    case Short(letter) =>
      assert CharacterText(c) == "\\" + [letter];
      Regroup("\\", [letter], after);
    case Escaped(hex) =>
      HexOfControl(n);
      assert CharacterText(c) == "\\" + ("u" + hex);
      Regroup("\\", "u" + hex, after);
      Regroup("u", hex, after);
    case Plain(_) =>
  }

  function UnitsFor(text: string): seq<LegalUnit>
    requires Clean(text)
  {
    if text == "" then [] else [UnitFor(text[0])] + UnitsFor(text[1..])
  }

  lemma {:induction false} CharactersSpelled(text: string, after: string)
    requires Clean(text)
    ensures SpellUnits(UnitsFor(text), after) == CharactersText(text) + after
    ensures UnitsMeaning(UnitsFor(text)) == text
  {
    if text == "" {
      Nothing(after);
    } else {
      CharactersSpelled(text[1..], after);
      CharacterSpelled(text[0], CharactersText(text[1..]) + after);
      Regroup(CharacterText(text[0]), CharactersText(text[1..]), after);
      assert UnitsFor(text)[1..] == UnitsFor(text[1..]);
    }
  }

  lemma StringSpelled(text: string, after: string)
    requires Clean(text)
    ensures SpellQuoted(UnitsFor(text), after) == StringText(text) + after
    ensures UnitsMeaning(UnitsFor(text)) == text
  {
    CharactersSpelled(text, "\"" + after);
    Regroup(CharactersText(text), "\"", after);
    Regroup("\"", CharactersText(text), "\"");
    Regroup("\"", CharactersText(text) + "\"", after);
  }

  // ---- the tree of a printed value -------------------------------------------------------

  ghost function TreeOf(value: Value, room: int): Tree
    requires InDomain(value, room)
    decreases value, 1
  {
    match value
    case Int(number) => Number(number < 0, DecimalDigits(if number < 0 then -number else number))
    case String(text) => Quoted(UnitsFor(text))
    case Array(items) => List("", TreeOfItems(items, room - 1))
    case Object(members) => Record("", TreeOfMembers(members, room - 1))
    case _ => Word(value)
  }

  ghost function TreeOfItems(items: seq<Value>, room: int): Items
    requires forall item :: item in items ==> InDomain(item, room)
    decreases items, 0
  {
    if items == [] then NoItem
    else Item("", TreeOf(items[0], room), "", TreeOfItems(items[1..], room))
  }

  ghost predicate MemberInDomain(member: (string, Value), room: int) {
    Clean(member.0) && InDomain(member.1, room)
  }

  ghost function TreeOfMembers(members: seq<(string, Value)>, room: int): Members
    requires forall member :: member in members ==> MemberInDomain(member, room)
    decreases members, 0
  {
    if members == [] then NoMember else TreeOfMember(members[0], room, TreeOfMembers(members[1..], room))
  }

  ghost function TreeOfMember(member: (string, Value), room: int, rest: Members): Members
    requires MemberInDomain(member, room)
    decreases member, 2
  {
    Member("", UnitsFor(member.0), "", "", TreeOf(member.1, room), "", rest)
  }

  lemma {:induction false} Printed(value: Value, room: int, after: string)
    requires InDomain(value, room)
    ensures var tree := TreeOf(value, room);
            && Legal(tree, room) && Meaning(tree) == value
            && Spell(tree, after) == Text(value) + after
    decreases value, 1
  {
    match value
    case Int(number) => IntegerSpelled(number, after);
    case String(text) => StringSpelled(text, after);
    case Array(items) =>
      ItemsPrinted(items, room - 1, "]" + after);
      Enclosed("[", ItemsText(items), "]", after);
    case Object(members) =>
      assert forall member :: member in members ==> MemberInDomain(member, room - 1);
      MembersPrinted(members, room - 1, "}" + after);
      Enclosed("{", MembersText(members), "}", after);
    case _ =>
  }

  lemma Enclosed(open: string, text: string, close: string, after: string)
    ensures open + ("" + (text + (close + after))) == open + text + close + after
  {
    Nothing(text + (close + after));
    Regroup(text, close, after);
    Regroup(open, text, close);
    Regroup(open, text + close, after);
  }

  lemma {:induction false} ItemsPrinted(items: seq<Value>, room: int, after: string)
    requires forall item :: item in items ==> InDomain(item, room)
    ensures var tree := TreeOfItems(items, room);
            && LegalItems(tree, room) && ItemsMeaning(tree) == items
            && SpellItems(tree, after) == ItemsText(items) + after
            && (tree.NoItem? <==> items == [])
    decreases items, 0
  {
    if items != [] {
      ItemsPrinted(items[1..], room, after);
      var rest := if |items| == 1 then after else "," + (ItemsText(items[1..]) + after);
      Printed(items[0], room, rest);
      SpelledFirst(Text(items[0]), rest);
      if |items| > 1 {
        Joined(Text(items[0]), ItemsText(items[1..]), after);
      }
    }
  }

  lemma SpelledFirst(text: string, rest: string)
    ensures "" + (text + ("" + rest)) == text + rest
    ensures "" + rest == rest
  {
  }

  lemma Joined(text: string, more: string, after: string)
    ensures text + ("," + (more + after)) == text + "," + more + after
  {
    Regroup(text, ",", more);
    Regroup(",", more, after);
    Regroup(text, "," + more, after);
  }

  lemma {:induction false} MembersPrinted(members: seq<(string, Value)>, room: int, after: string)
    requires forall member :: member in members ==> MemberInDomain(member, room)
    ensures var tree := TreeOfMembers(members, room);
            && LegalMembers(tree, room) && MembersMeaning(tree) == members
            && SpellMembers(tree, after) == MembersText(members) + after
            && (tree.NoMember? <==> members == [])
    decreases members, 0
  {
    if members != [] {
      MembersPrinted(members[1..], room, after);
      MemberPrinted(members[0], room, TreeOfMembers(members[1..], room), after,
                    if |members| == 1 then after else "," + (MembersText(members[1..]) + after));
      if |members| > 1 {
        Joined(MemberText(members[0]), MembersText(members[1..]), after);
      }
    }
  }

  lemma {:induction false} MemberPrinted(member: (string, Value), room: int, more: Members, after: string, rest: string)
    requires MemberInDomain(member, room)
    requires rest == if more.NoMember? then after else "," + SpellMembers(more, after)
    ensures var tree := TreeOfMember(member, room, more);
            && UnitsMeaning(tree.name) == member.0 && Legal(tree.tree, room) && Meaning(tree.tree) == member.1
            && SpellMembers(tree, after) == MemberText(member) + rest
    decreases member, 2
  {
    var value := Text(member.1) + rest;
    Printed(member.1, room, rest);
    Nothing(rest);
    Nothing(value);
    Nothing(":" + value);
    StringSpelled(member.0, ":" + value);
    Nothing(StringText(member.0) + (":" + value));
    Regroup(StringText(member.0), ":", Text(member.1));
    Regroup(":", Text(member.1), rest);
    Regroup(StringText(member.0), ":" + Text(member.1), rest);
  }

  // ---- round trip ------------------------------------------------------------------------

  /** Reading what was printed gives the value back, member order and all. */
  lemma ReadUndoesText(value: Value, room: nat)
    requires InDomain(value, room)
    ensures ReadText(Text(value), room) == Ok(value)
  {
    Printed(value, room, "");
    assert Text(value) + "" == Text(value);
    assert "" + Text(value) == Text(value);
    assert DenotesBy(Text(value), value, room, "", TreeOf(value, room), "");
    ReaderIsTheGrammar(Text(value), room, value);
  }

  /** What the grammar denotes is in the domain: everything the reader returns is. */
  lemma {:induction false} MeaningInDomain(tree: Tree, room: int)
    requires Legal(tree, room)
    ensures InDomain(Meaning(tree), room)
    decreases tree
  {
    match tree
    case Number(minus, digits) => DigitsNonNegative(digits);
    case Quoted(units) => UnitsClean(units);
    case List(_, items) => ItemsInDomain(items, room - 1);
    case Record(_, members) =>
      MembersInDomain(members, room - 1);
      assert forall member :: member in MembersMeaning(members) ==> MemberInDomain(member, room - 1);
    case _ =>
  }

  lemma {:induction false} ItemsInDomain(items: Items, room: int)
    requires LegalItems(items, room)
    ensures forall item :: item in ItemsMeaning(items) ==> InDomain(item, room)
    decreases items
  {
    if items.Item? {
      MeaningInDomain(items.tree, room);
      ItemsInDomain(items.rest, room);
    }
  }

  lemma {:induction false} MembersInDomain(members: Members, room: int)
    requires LegalMembers(members, room)
    ensures forall member :: member in MembersMeaning(members) ==> MemberInDomain(member, room)
    decreases members
  {
    if members.Member? {
      MeaningInDomain(members.tree, room);
      UnitsClean(members.name);
      MembersInDomain(members.rest, room);
    }
  }

  lemma {:induction false} DigitsNonNegative(digits: string)
    requires Digits(digits)
    ensures DigitsValue(digits) >= 0
  {
    if digits != "" {
      assert IsDigit(digits[|digits| - 1]);
      DigitsNonNegative(digits[..|digits| - 1]);
    }
  }

  lemma {:induction false} UnitsClean(units: seq<LegalUnit>)
    ensures Clean(UnitsMeaning(units))
  {
    if units != [] {
      assert !IsNoncharacter(UnitMeaning(units[0]) as int);
      UnitsClean(units[1..]);
    }
  }

  /** Whatever the reader returns, the domain admits. */
  lemma ReadIsInDomain(text: string, maxDepth: nat)
    requires ReadText(text, maxDepth).Ok?
    ensures InDomain(ReadText(text, maxDepth).value, maxDepth)
  {
    var value := ReadText(text, maxDepth).value;
    ReaderIsTheGrammar(text, maxDepth, value);
    var before, tree, after :| DenotesBy(text, value, maxDepth, before, tree, after);
    MeaningInDomain(tree, maxDepth);
  }
}
