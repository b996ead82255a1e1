/** The reader accepts exactly the texts of the grammar inside the domain, each as the
    value the grammar assigns to it. */
module ReaderTheorems {
  import opened Decimals
  import opened Values
  import opened Grammar
  import opened Reader

  /** What stands after a value is no more of it. */
  predicate Ends(tree: Tree, rest: string) {
    tree.Number? && rest != "" ==> !IsDigit(rest[0]) && !IsFraction(rest[0])
  }

  // ---- white space -------------------------------------------------------------------

  lemma {:induction false} SkipBlank(blank: string, rest: string)
    requires Blank(blank)
    ensures Skip(blank + rest) == Skip(rest)
  {
    if blank == "" {
      assert blank + rest == rest;
    } else {
      assert (blank + rest)[1..] == blank[1..] + rest;
      SkipBlank(blank[1..], rest);
    }
  }

  lemma {:induction false} SkippedBlank(s: string) returns (blank: string)
    ensures Blank(blank) && s == blank + Skip(s)
    ensures Skip(s) != "" ==> !IsSpace(Skip(s)[0])
  {
    if s != "" && IsSpace(s[0]) {
      var more := SkippedBlank(s[1..]);
      blank := [s[0]] + more;
      assert s == [s[0]] + s[1..];
      assert [s[0]] + (more + Skip(s)) == blank + Skip(s);
    } else {
      blank := "";
    }
  }

  // ---- strings -----------------------------------------------------------------------

  lemma {:induction false} LongEnough(s: string, n: nat)
    requires |s| >= n
    ensures Utf8Length(s) >= n
  {
    if n > 0 {
      LongEnough(s[1..], n - 1);
    }
  }

  lemma HexReads(hex: string, rest: string)
    requires FourHex(hex)
    ensures ReadHex4(hex + rest) == Read(HexValue(hex), rest)
  {
    LongEnough(hex + rest, 4);
    assert (hex + rest)[..4] == hex && (hex + rest)[4..] == rest;
  }

  lemma ShortReads(letter: char, rest: string)
    requires IsShort(letter)
    ensures ReadEscape([letter] + rest) == Read(ShortMeaning(letter), rest)
  {
    assert ([letter] + rest)[1..] == rest;
  }

  lemma UnicodeReads(hex: string, rest: string)
    requires IsLegal(Escaped(hex))
    ensures ReadUnicode(hex + rest) == Read(HexValue(hex) as char, rest)
  {
    HexReads(hex, rest);
  }

  lemma PairReads(high: string, low: string, rest: string)
    requires IsLegal(Surrogates(high, low))
    ensures ReadUnicode(high + ("\\u" + (low + rest))) == Read(Join(HexValue(high), HexValue(low)) as char, rest)
  {
    var last := "\\u" + (low + rest);
    HexReads(high, last);
    HexReads(low, rest);
    assert "\\u" <= last && last[2..] == low + rest;
  }

  lemma UnitReads(unit: LegalUnit, rest: string)
    ensures SpellUnit(unit, rest) != "" && SpellUnit(unit, rest)[0] != '"'
    ensures ReadCharacter(SpellUnit(unit, rest)) == Read(UnitMeaning(unit), rest)
  {
    match unit
    case Plain(c) =>
    case Short(letter) => ShortReads(letter, rest);
    case Escaped(hex) => UnicodeReads(hex, rest);
    case Surrogates(high, low) => PairReads(high, low, rest);
  }

  lemma {:induction false} StringReads(units: seq<LegalUnit>, rest: string, out: string)
    ensures ReadString(SpellUnits(units, "\"" + rest), out) == Read(out + UnitsMeaning(units), rest)
  {
    if units == [] {
      assert out + UnitsMeaning(units) == out;
    } else {
      UnitReads(units[0], SpellUnits(units[1..], "\"" + rest));
      StringReads(units[1..], rest, out + [UnitMeaning(units[0])]);
      MoreItems(out, UnitMeaning(units[0]), UnitsMeaning(units[1..]));
    }
  }

  lemma QuotedReads(units: seq<LegalUnit>, rest: string)
    ensures SpellQuoted(units, rest)[0] == '"'
    ensures ReadString(SpellQuoted(units, rest)[1..], "") == Read(UnitsMeaning(units), rest)
  {
    StringReads(units, rest, "");
    assert "" + UnitsMeaning(units) == UnitsMeaning(units);
  }

  lemma HexRead(s: string) returns (hex: string)
    requires ReadHex4(s).Read?
    ensures FourHex(hex) && HexValue(hex) == ReadHex4(s).value && s == hex + ReadHex4(s).rest
  {
    hex := s[..4];
  }

  lemma EscapeRead(s: string) returns (unit: LegalUnit)
    requires ReadEscape(s).Read?
    ensures SpellUnit(unit, ReadEscape(s).rest) == "\\" + s
    ensures UnitMeaning(unit) == ReadEscape(s).value
  {
    assert s == [s[0]] + s[1..];
    if s[0] == 'u' {
      unit := UnicodeRead(s[1..]);
    } else {
      unit := Short(s[0]);
    }
  }

  lemma UnicodeRead(s: string) returns (unit: LegalUnit)
    requires ReadUnicode(s).Read?
    ensures SpellUnit(unit, ReadUnicode(s).rest) == "\\" + ("u" + s)
    ensures UnitMeaning(unit) == ReadUnicode(s).value
  {
    var hex := HexRead(s);
    var first := ReadHex4(s);
    if IsHigh(first.value) {
      var low := HexRead(first.rest[2..]);
      unit := Surrogates(hex, low);
      assert first.rest == "\\u" + first.rest[2..];
    } else {
      unit := Escaped(hex);
    }
  }

  lemma {:induction false} StringRead(s: string, out: string) returns (units: seq<LegalUnit>)
    requires ReadString(s, out).Read?
    ensures s == SpellUnits(units, "\"" + ReadString(s, out).rest)
    ensures ReadString(s, out).value == out + UnitsMeaning(units)
    decreases |s|
  {
    if s[0] == '"' {
      units := [];
      assert s == "\"" + s[1..];
    } else {
      var unit := UnitRead(s);
      var rest := ReadCharacter(s).rest;
      var more := StringRead(rest, out + [UnitMeaning(unit)]);
      units := [unit] + more;
      MoreUnits(unit, more, "\"" + ReadString(s, out).rest);
      MoreItems(out, UnitMeaning(unit), UnitsMeaning(more));
    }
  }

  lemma MoreUnits(unit: LegalUnit, more: seq<LegalUnit>, after: string)
    ensures SpellUnits([unit] + more, after) == SpellUnit(unit, SpellUnits(more, after))
    ensures UnitsMeaning([unit] + more) == [UnitMeaning(unit)] + UnitsMeaning(more)
  {
    assert ([unit] + more)[1..] == more;
  }

  lemma UnitRead(s: string) returns (unit: LegalUnit)
    requires s != "" && s[0] != '"' && ReadCharacter(s).Read?
    ensures s == SpellUnit(unit, ReadCharacter(s).rest)
    ensures UnitMeaning(unit) == ReadCharacter(s).value
  {
    assert s == [s[0]] + s[1..];
    if s[0] == '\\' {
      unit := EscapeRead(s[1..]);
    } else {
      unit := Plain(s[0]);
    }
  }

  lemma QuotedRead(s: string) returns (units: seq<LegalUnit>)
    requires s != "" && s[0] == '"' && ReadString(s[1..], "").Read?
    ensures s == SpellQuoted(units, ReadString(s[1..], "").rest)
    ensures ReadString(s[1..], "").value == UnitsMeaning(units)
  {
    units := StringRead(s[1..], "");
    assert s == "\"" + s[1..];
    assert "" + UnitsMeaning(units) == UnitsMeaning(units);
  }

  // ---- numbers -----------------------------------------------------------------------

  function NumberMeaning(minus: bool, digits: string): Value {
    Int(if minus then -DigitsValue(digits) else DigitsValue(digits))
  }

  lemma NumberReads(minus: bool, digits: string, rest: string)
    requires LegalNumber(minus, digits) && Ends(Number(minus, digits), rest)
    ensures ReadNumber(SpellNumber(minus, digits, rest)) == Read(NumberMeaning(minus, digits), rest)
  {
    DigitsRead(digits, rest);
    assert (digits + rest)[0] == digits[0];
    assert minus ==> SpellNumber(minus, digits, rest)[1..] == digits + rest;
  }

  lemma NumberRead(s: string) returns (minus: bool, digits: string)
    requires ReadNumber(s).Read?
    ensures LegalNumber(minus, digits)
    ensures s == SpellNumber(minus, digits, ReadNumber(s).rest)
    ensures ReadNumber(s).value == NumberMeaning(minus, digits)
  {
    minus := s[0] == '-';
    var t := if minus then s[1..] else s;
    digits := ReadDigits(t).value;
    assert t == digits + ReadDigits(t).rest;
    assert digits != "" && digits[0] == t[0] && (|digits| > 1 ==> digits[1] == t[1]);
    assert minus ==> s == "-" + t;
  }

  // ---- every text of the grammar is read ----------------------------------------------

  /** The first character of a value is never one that skipping or closing would take. */
  lemma FirstCharacter(tree: Tree, room: int, after: string)
    requires Legal(tree, room)
    ensures var s := Spell(tree, after);
            s != "" && !IsSpace(s[0]) && s[0] != ']' && s[0] != '}' && s[0] != BYTE_ORDER_MARK
    ensures Skip(Spell(tree, after)) == Spell(tree, after)
  {
    var s := Spell(tree, after);
    match tree
    case Word(value) => assert s[0] == WordText(value)[0];
    case Number(minus, digits) => assert s[0] == if minus then '-' else digits[0]; assert IsDigit(digits[0]);
    case Quoted(units) => assert s[0] == '"';
    case List(_, _) => assert s[0] == '[';
    case Record(_, _) => assert s[0] == '{';
  }

  lemma {:induction false} ValueReads(tree: Tree, room: int, rest: string)
    requires Legal(tree, room) && Ends(tree, rest)
    ensures ReadValue(Spell(tree, rest), room) == Read(Meaning(tree), rest)
    decreases tree, 0
  {
    match tree
    case Word(value) => WordReads(value, rest);
    case Number(minus, digits) => NumberLeafReads(minus, digits, rest);
    case Quoted(units) => QuotedReads(units, rest);
    case List(blank, items) => ListReads(blank, items, room, rest);
    case Record(blank, members) => RecordReads(blank, members, room, rest);
  }

  lemma WordReads(value: Value, rest: string)
    requires IsWord(value)
    ensures var s := WordText(value) + rest;
            s != "" && s[0] != '{' && s[0] != '[' && ReadLeaf(s) == Read(value, rest)
  {
    var s := WordText(value) + rest;
    assert s[0] == WordText(value)[0];
    assert WordText(value) <= s && s[|WordText(value)|..] == rest;
  }

  lemma NumberLeafReads(minus: bool, digits: string, rest: string)
    requires LegalNumber(minus, digits) && Ends(Number(minus, digits), rest)
    ensures var s := SpellNumber(minus, digits, rest);
            s != "" && s[0] != '{' && s[0] != '[' && ReadLeaf(s) == Read(NumberMeaning(minus, digits), rest)
  {
    var s := SpellNumber(minus, digits, rest);
    NumberReads(minus, digits, rest);
    assert s[0] == if minus then '-' else digits[0];
    assert IsDigit(digits[0]);
  }

  lemma {:induction false} ListReads(blank: string, items: Items, room: int, rest: string)
    requires Legal(List(blank, items), room)
    ensures ReadArray(blank + SpellItems(items, "]" + rest), room) == Read(Array(ItemsMeaning(items)), rest)
    decreases items, 1
  {
    var inside := SpellItems(items, "]" + rest);
    SkipBlank(blank, inside);
    if items.NoItem? {
      assert Skip(inside) == inside;
    } else {
      var tail := items.after + if items.rest.NoItem? then "]" + rest else "," + SpellItems(items.rest, "]" + rest);
      SkipBlank(items.before, Spell(items.tree, tail));
      FirstCharacter(items.tree, room - 1, tail);
      assert Skip(Skip(inside)) == Skip(inside);
      ItemsRead(items, room, rest, []);
      assert [] + ItemsMeaning(items) == ItemsMeaning(items);
    }
  }

  lemma {:induction false} ItemsRead(items: Items, room: int, rest: string, before: seq<Value>)
    requires items.Item? && LegalItems(items, room - 1)
    ensures ReadItems(SpellItems(items, "]" + rest), room, before) ==
              Read(Array(before + ItemsMeaning(items)), rest)
    decreases items, 0, 1
  {
    var value := Meaning(items.tree);
    if items.rest.NoItem? {
      ItemReads(items.before, items.tree, items.after, room, "]" + rest, before);
      LastItem(before, value);
    } else {
      ItemReads(items.before, items.tree, items.after, room, "," + SpellItems(items.rest, "]" + rest), before);
      ItemsRead(items.rest, room, rest, before + [value]);
      MoreItems(before, value, ItemsMeaning(items.rest));
    }
  }

  /** One item, up to what closes or separates. */
  lemma {:induction false} ItemReads(
      blank: string, tree: Tree, after: string, room: int, close: string, before: seq<Value>)
    requires Blank(blank) && Blank(after) && Legal(tree, room - 1)
    requires close != "" && (close[0] == ',' || close[0] == ']')
    ensures ReadItems(blank + Spell(tree, after + close), room, before) ==
              if close[0] == ',' then ReadItems(close[1..], room, before + [Meaning(tree)])
              else Read(Array(before + [Meaning(tree)]), close[1..])
    decreases tree, 1
  {
    SkipBlank(blank, Spell(tree, after + close));
    FirstCharacter(tree, room - 1, after + close);
    EndsAfter(tree, after, close);
    ValueReads(tree, room - 1, after + close);
    SeparatorReads(after, close, ']');
  }

  lemma SeparatorReads(after: string, close: string, bracket: char)
    requires Blank(after) && (bracket == ']' || bracket == '}')
    requires close != "" && (close[0] == ',' || close[0] == bracket)
    ensures ReadSeparator(after + close, bracket) == Read(close[0] == ',', close[1..])
  {
    SkipBlank(after, close);
    assert Skip(close) == close;
  }

  lemma LastItem<T>(before: seq<T>, value: T)
    ensures before + ([value] + []) == before + [value]
  {
  }

  lemma MoreItems<T>(before: seq<T>, value: T, more: seq<T>)
    ensures before + ([value] + more) == before + [value] + more
  {
  }

  /** White space, or what closes or separates, ends the value before it. */
  lemma EndsAfter(tree: Tree, blank: string, close: string)
    requires Blank(blank) && close != "" && (close[0] == ',' || close[0] == ']' || close[0] == '}')
    ensures Ends(tree, blank + close)
  {
    assert (blank + close)[0] == if blank == "" then close[0] else blank[0];
    assert blank != "" ==> blank[0] in blank;
  }

  lemma {:induction false} RecordReads(blank: string, members: Members, room: int, rest: string)
    requires Legal(Record(blank, members), room)
    ensures ReadObject(blank + SpellMembers(members, "}" + rest), room) == Read(Object(MembersMeaning(members)), rest)
    decreases members, 1
  {
    var inside := SpellMembers(members, "}" + rest);
    SkipBlank(blank, inside);
    if members.NoMember? {
      assert Skip(inside) == inside;
    } else {
      var quoted := inside[|members.before|..];
      assert quoted[0] == '"' && Skip(quoted) == quoted;
      SkipBlank(members.before, quoted);
      assert [] + MembersMeaning(members) == MembersMeaning(members);
      MembersRead(members, room, rest, []);
    }
  }

  lemma {:induction false} MembersRead(members: Members, room: int, rest: string, before: seq<(string, Value)>)
    requires members.Member? && LegalMembers(members, room - 1)
    requires Distinct(Names(before + MembersMeaning(members)))
    ensures ReadMembers(SpellMembers(members, "}" + rest), room, before) ==
              Read(Object(before + MembersMeaning(members)), rest)
    decreases members, 0, 1
  {
    var pair := (UnitsMeaning(members.name), Meaning(members.tree));
    NewName(members, before);
    if members.rest.NoMember? {
      NameReads(members, room, "}" + rest, before);
      MemberReads(members, room, "}" + rest, before);
      LastItem(before, pair);
    } else {
      var close := "," + SpellMembers(members.rest, "}" + rest);
      NameReads(members, room, close, before);
      MemberReads(members, room, close, before);
      MoreItems(before, pair, MembersMeaning(members.rest));
      MembersRead(members.rest, room, rest, before + [pair]);
    }
  }

  /** One member up to its colon. */
  lemma NameReads(members: Members, room: int, close: string, before: seq<(string, Value)>)
    requires members.Member? && Blank(members.before) && Blank(members.colonBefore)
    requires UnitsMeaning(members.name) !in Names(before)
    ensures var colon := ":" + (members.colonAfter + Spell(members.tree, members.after + close));
            ReadMembers(members.before + SpellQuoted(members.name, members.colonBefore + colon), room, before) ==
              ReadMember(members.colonBefore + colon, room, before, UnitsMeaning(members.name))
  {
    var colon := ":" + (members.colonAfter + Spell(members.tree, members.after + close));
    var quoted := SpellQuoted(members.name, members.colonBefore + colon);
    SkipBlank(members.before, quoted);
    QuotedReads(members.name, members.colonBefore + colon);
    assert Skip(quoted) == quoted;
  }

  /** One member's colon and value, up to what closes or separates. */
  lemma {:induction false} MemberReads(members: Members, room: int, close: string, before: seq<(string, Value)>)
    requires members.Member? && LegalMembers(members, room - 1)
    requires close != "" && (close[0] == ',' || close[0] == '}')
    ensures var name := UnitsMeaning(members.name);
            var more := before + [(name, Meaning(members.tree))];
            var colon := ":" + (members.colonAfter + Spell(members.tree, members.after + close));
            ReadMember(members.colonBefore + colon, room, before, name) ==
              if close[0] == ',' then ReadMembers(close[1..], room, more) else Read(Object(more), close[1..])
    decreases members, 0, 0
  {
    var value := Spell(members.tree, members.after + close);
    var colon := ":" + (members.colonAfter + value);
    SkipBlank(members.colonBefore, colon);
    assert Skip(colon) == colon && ReadColon(members.colonBefore + colon) == Read((), members.colonAfter + value);
    SkipBlank(members.colonAfter, value);
    FirstCharacter(members.tree, room - 1, members.after + close);
    EndsAfter(members.tree, members.after, close);
    ValueReads(members.tree, room - 1, members.after + close);
    SeparatorReads(members.after, close, '}');
  }

  lemma NewName(members: Members, before: seq<(string, Value)>)
    requires members.Member? && Distinct(Names(before + MembersMeaning(members)))
    ensures UnitsMeaning(members.name) !in Names(before)
  {
    var all := Names(before + MembersMeaning(members));
    assert all[|before|] == UnitsMeaning(members.name);
    assert forall i :: 0 <= i < |before| ==> all[i] == Names(before)[i];
  }

  // ---- everything read is a text of the grammar ------------------------------------------

  lemma {:induction false} ValueRead(s: string, room: int) returns (tree: Tree)
    requires ReadValue(s, room).Read?
    ensures Legal(tree, room)
    ensures s == Spell(tree, ReadValue(s, room).rest)
    ensures Meaning(tree) == ReadValue(s, room).value
    decreases |s|, 2
  {
    assert s == [s[0]] + s[1..];
    if s[0] == '{' {
      tree := RecordOf(s[1..], room);
    } else if s[0] == '[' {
      tree := ListOf(s[1..], room);
    } else {
      tree := LeafRead(s, room);
    }
  }

  lemma LeafRead(s: string, room: int) returns (tree: Tree)
    requires s != "" && room >= 0 && ReadLeaf(s).Read?
    ensures Legal(tree, room)
    ensures s == Spell(tree, ReadLeaf(s).rest)
    ensures Meaning(tree) == ReadLeaf(s).value
  {
    if s[0] == '"' {
      var units := QuotedRead(s);
      tree := Quoted(units);
    } else if s[0] == 't' {
      WordRead(s, Bool(true));
      tree := Word(Bool(true));
    } else if s[0] == 'f' {
      WordRead(s, Bool(false));
      tree := Word(Bool(false));
    } else if s[0] == 'n' {
      WordRead(s, Null);
      tree := Word(Null);
    } else {
      var minus, digits := NumberRead(s);
      tree := Number(minus, digits);
    }
  }

  lemma WordRead(s: string, value: Value)
    requires ReadWord(s, value).Read?
    ensures s == WordText(value) + ReadWord(s, value).rest
  {
  }

  lemma {:induction false} ListOf(s: string, room: int) returns (tree: Tree)
    requires ReadArray(s, room).Read? && room >= 0
    ensures Legal(tree, room) && tree.List?
    ensures s == tree.blank + SpellItems(tree.items, "]" + ReadArray(s, room).rest)
    ensures Meaning(tree) == ReadArray(s, room).value
    decreases |s|, 4
  {
    var blank := SkippedBlank(s);
    var t := Skip(s);
    if t[0] == ']' {
      tree := List(blank, NoItem);
      assert t == "]" + t[1..];
    } else {
      var items := ItemsOf(blank, t, room, []);
      assert [] + ItemsMeaning(items) == ItemsMeaning(items);
      tree := List("", items);
      assert "" + s == s;
    }
  }

  lemma {:induction false} ItemsOf(blank: string, s: string, room: int, before: seq<Value>) returns (items: Items)
    requires ReadItems(s, room, before).Read?
    requires Blank(blank) && Skip(s) == s
    ensures items.Item? && LegalItems(items, room - 1)
    ensures blank + s == SpellItems(items, "]" + ReadItems(s, room, before).rest)
    ensures ReadItems(s, room, before).value == Array(before + ItemsMeaning(items))
    decreases |s|, 3
  {
    var tree := ValueRead(s, room - 1);
    var read := ReadValue(s, room - 1);
    var after := SeparatorRead(read.rest, ']');
    var next := ReadSeparator(read.rest, ']');
    if next.value {
      var blank' := SkippedBlank(next.rest);
      SkipTwice(next.rest);
      ItemsSkip(next.rest, room, before + [read.value]);
      var more := ItemsOf(blank', Skip(next.rest), room, before + [read.value]);
      items := Item(blank, tree, after, more);
      MoreItems(before, read.value, ItemsMeaning(more));
    } else {
      items := Item(blank, tree, after, NoItem);
      LastItem(before, read.value);
    }
  }

  lemma ItemsSkip(s: string, room: int, before: seq<Value>)
    ensures ReadItems(Skip(s), room, before) == ReadItems(s, room, before)
  {
    SkipTwice(s);
  }

  lemma MembersSkip(s: string, room: int, before: seq<(string, Value)>)
    ensures ReadMembers(Skip(s), room, before) == ReadMembers(s, room, before)
  {
    SkipTwice(s);
  }

  lemma SkipTwice(s: string)
    ensures Skip(Skip(s)) == Skip(s)
  {
    var blank := SkippedBlank(s);
  }

  lemma {:induction false} RecordOf(s: string, room: int) returns (tree: Tree)
    requires ReadObject(s, room).Read? && room >= 0
    ensures Legal(tree, room) && tree.Record?
    ensures s == tree.blank + SpellMembers(tree.members, "}" + ReadObject(s, room).rest)
    ensures Meaning(tree) == ReadObject(s, room).value
    decreases |s|, 4
  {
    var blank := SkippedBlank(s);
    var t := Skip(s);
    if t[0] == '}' {
      tree := Record(blank, NoMember);
      assert t == "}" + t[1..];
    } else {
      var members := MembersOf(blank, t, room, []);
      tree := Record("", members);
      Nothing(s, MembersMeaning(members));
    }
  }

  lemma Nothing<T>(s: string, entries: seq<T>)
    ensures "" + s == s && [] + entries == entries
  {
  }

  lemma {:induction false} MembersOf(blank: string, s: string, room: int, before: seq<(string, Value)>)
    returns (members: Members)
    requires ReadMembers(s, room, before).Read?
    requires Blank(blank) && Skip(s) == s
    requires Distinct(Names(before))
    ensures members.Member? && LegalMembers(members, room - 1)
    ensures blank + s == SpellMembers(members, "}" + ReadMembers(s, room, before).rest)
    ensures ReadMembers(s, room, before).value == Object(before + MembersMeaning(members))
    ensures Distinct(Names(before + MembersMeaning(members)))
    decreases |s|, 3
  {
    var name := QuotedRead(s);
    var quoted := ReadString(s[1..], "");
    members := MemberOf(blank, name, quoted.rest, room, before);
  }

  lemma {:induction false} MemberOf(
      blank: string, name: seq<LegalUnit>, s: string, room: int, before: seq<(string, Value)>)
    returns (members: Members)
    requires ReadMember(s, room, before, UnitsMeaning(name)).Read?
    requires Blank(blank)
    requires Distinct(Names(before)) && UnitsMeaning(name) !in Names(before)
    ensures members.Member? && LegalMembers(members, room - 1)
    ensures blank + SpellQuoted(name, s) ==
              SpellMembers(members, "}" + ReadMember(s, room, before, UnitsMeaning(name)).rest)
    ensures ReadMember(s, room, before, UnitsMeaning(name)).value == Object(before + MembersMeaning(members))
    ensures Distinct(Names(before + MembersMeaning(members)))
    decreases |s|, 3
  {
    var colonBefore, colonAfter, tree, after := ValueAfterColon(s, room);
    var value := ReadValue(Skip(ReadColon(s).rest), room - 1);
    var next := ReadSeparator(value.rest, '}');
    var pair := (UnitsMeaning(name), Meaning(tree));
    var more := before + [pair];
    assert Names(more) == Names(before) + [UnitsMeaning(name)];
    if next.value {
      var blank' := SkippedBlank(next.rest);
      SkipTwice(next.rest);
      MembersSkip(next.rest, room, more);
      var rest := MembersOf(blank', Skip(next.rest), room, more);
      members := Member(blank, name, colonBefore, colonAfter, tree, after, rest);
      MoreItems(before, pair, MembersMeaning(rest));
    } else {
      members := Member(blank, name, colonBefore, colonAfter, tree, after, NoMember);
      LastItem(before, pair);
    }
  }

  lemma {:induction false} ValueAfterColon(s: string, room: int)
    returns (colonBefore: string, colonAfter: string, tree: Tree, after: string)
    requires ReadColon(s).Read? && ReadValue(Skip(ReadColon(s).rest), room - 1).Read?
    requires ReadSeparator(ReadValue(Skip(ReadColon(s).rest), room - 1).rest, '}').Read?
    ensures Blank(colonBefore) && Blank(colonAfter) && Blank(after) && Legal(tree, room - 1)
    ensures var value := ReadValue(Skip(ReadColon(s).rest), room - 1);
            var next := ReadSeparator(value.rest, '}');
            && s == colonBefore + (":" + (colonAfter + Spell(tree, after + ((if next.value then "," else "}") + next.rest))))
            && Meaning(tree) == value.value
    decreases |s|, 2
  {
    colonBefore := SkippedBlank(s);
    assert Skip(s) == ":" + ReadColon(s).rest;
    colonAfter := SkippedBlank(ReadColon(s).rest);
    tree := ValueRead(Skip(ReadColon(s).rest), room - 1);
    after := SeparatorRead(ReadValue(Skip(ReadColon(s).rest), room - 1).rest, '}');
  }

  lemma SeparatorRead(s: string, bracket: char) returns (after: string)
    requires ReadSeparator(s, bracket).Read?
    ensures Blank(after)
    ensures var next := ReadSeparator(s, bracket);
            s == after + ((if next.value then "," else [bracket]) + next.rest)
  {
    after := SkippedBlank(s);
    assert Skip(s) == [Skip(s)[0]] + Skip(s)[1..];
  }

  // ---- the theorem -------------------------------------------------------------------------

  /** The reader takes a text for a value exactly when the grammar and the domain do. */
  lemma ReaderIsTheGrammar(text: string, maxDepth: nat, value: Value)
    ensures ReadText(text, maxDepth) == Ok(value) <==> Denotes(text, value, maxDepth)
  {
    if ReadText(text, maxDepth) == Ok(value) {
      var before := SkippedBlank(text);
      var tree := ValueRead(Skip(text), maxDepth);
      var after := SkippedBlank(ReadValue(Skip(text), maxDepth).rest);
      assert after + "" == after;
      assert DenotesBy(text, value, maxDepth, before, tree, after);
    }
    if Denotes(text, value, maxDepth) {
      var before, tree, after :| DenotesBy(text, value, maxDepth, before, tree, after);
      GrammarIsRead(text, maxDepth, value, before, tree, after);
    }
  }

  lemma GrammarIsRead(text: string, maxDepth: nat, value: Value, before: string, tree: Tree, after: string)
    requires DenotesBy(text, value, maxDepth, before, tree, after)
    ensures ReadText(text, maxDepth) == Ok(value)
  {
    SkipBlank(before, Spell(tree, after));
    FirstCharacter(tree, maxDepth, after);
    assert after != "" ==> after[0] in after;
    ValueReads(tree, maxDepth, after);
    assert after + "" == after;
    SkipBlank(after, "");
    assert text[0] == if before == "" then Spell(tree, after)[0] else before[0];
  }
}
