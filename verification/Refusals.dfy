/** Which texts the reader refuses, and as what: every way a text can stop being one of the
    grammar, with all that was read of it before. */
module Refusals {
  import opened Decimals
  import opened Values
  import opened Grammar
  import opened Reader
  import opened ReaderTheorems
  import opened Escapes

  // ---- what stands where a character of a string should ------------------------------------

  /** At most three bytes of UTF-8. */
  predicate FewBytes(s: string) {
    || s == ""
    || (|s| == 1 && s[0] as int < 0x10000)
    || (|s| == 2 && s[0] as int < 0x800 && s[1] as int < 0x800 && (s[0] as int < 0x80 || s[1] as int < 0x80))
    || (|s| == 3 && s[0] as int < 0x80 && s[1] as int < 0x80 && s[2] as int < 0x80)
  }

  /** Four hexadecimal digits come first, of that code unit. */
  predicate Hex(s: string, unit: int) {
    |s| >= 4 && HexOf(s[..4], unit)
  }

  ghost predicate NoHex(s: string, kind: ErrorKind) {
    if FewBytes(s) then kind == UnexpectedEnd else kind == InvalidEscape && forall unit :: !Hex(s, unit)
  }

  /** No second half of a pair, or one that makes a noncharacter. */
  ghost predicate NoLow(high: int, s: string, kind: ErrorKind) {
    if !("\\u" <= s) then kind == UnpairedSurrogate
    else
      || NoHex(s[2..], kind)
      || exists low :: Hex(s[2..], low)
           && if 0xDC00 <= low < 0xE000
              then kind == Noncharacter && exists c :: PairOf(high, low, c) && IsNoncharacter(c as int)
              else kind == UnpairedSurrogate
  }

  /** Nothing that a code unit and what follows it make a character of. */
  ghost predicate NoScalar(unit: int, rest: string, kind: ErrorKind) {
    if 0xD800 <= unit < 0xDC00 then NoLow(unit, rest, kind)
    else if 0xDC00 <= unit < 0xE000 then kind == UnpairedSurrogate
    else kind == Noncharacter && IsNoncharacter(unit)
  }

  ghost predicate NoUnicode(s: string, kind: ErrorKind) {
    NoHex(s, kind) || exists unit :: Hex(s, unit) && NoScalar(unit, s[4..], kind)
  }

  /** No character of a string, and not the quote that ends it. */
  ghost predicate NoCharacter(s: string, kind: ErrorKind) {
    if s == "" || s == "\\" then kind == UnexpectedEnd
    else if "\\u" <= s then NoUnicode(s[2..], kind)
    else if s[0] == '\\' then kind == InvalidEscape && forall i :: 0 <= i < |SHORTS| ==> SHORTS[i].0 != s[1]
    else if s[0] as int < 0x20 then kind == ControlCharacterInString
    else kind == Noncharacter && IsNoncharacter(s[0] as int)
  }

  lemma FewExactly(s: string)
    ensures FewBytes(s) <==> Utf8Length(s) < 4
  {
    if |s| >= 4 {
      LongEnough(s, 4);
    } else if |s| == 3 {
      var t := s[1..];
      var u := t[1..];
      assert u[1..] == "" && t[0] == s[1] && u[0] == s[2];
      assert Utf8Length(u) == 1 <==> s[2] as int < 0x80;
      assert Utf8Length(t) == 2 <==> s[1] as int < 0x80 && s[2] as int < 0x80;
    } else if |s| == 2 {
      assert s[1..][1..] == "" && s[1..][0] == s[1];
    } else if |s| == 1 {
      assert s[1..] == "";
    }
  }

  lemma HexIsRead(s: string, unit: int)
    ensures Hex(s, unit) <==> 0 <= unit < 0x10000 && ReadHex4(s) == Read(unit, if |s| >= 4 then s[4..] else "")
  {
    if |s| >= 4 {
      LongEnough(s, 4);
      if 0 <= unit < 0x10000 {
        HexExactly(s[..4], unit);
      }
    }
  }

  lemma NoHexExactly(s: string, kind: ErrorKind)
    ensures ReadHex4(s) == Refused(kind) <==> NoHex(s, kind)
  {
    FewExactly(s);
    if ReadHex4(s).Read? {
      HexIsRead(s, ReadHex4(s).value);
    }
    forall unit ensures Hex(s, unit) ==> ReadHex4(s).Read? {
      HexIsRead(s, unit);
    }
  }

  lemma JoinedExactly(high: int, low: int)
    requires IsHigh(high) && IsLow(low)
    ensures IsNoncharacter(Join(high, low)) <==> exists c :: PairOf(high, low, c) && IsNoncharacter(c as int)
  {
    JoinUndoesUnits(high, low);
  }

  /** What a reader that has read a high surrogate makes of what follows. */
  function ReadLow(high: int, s: string): Reading<char>
    requires IsHigh(high)
  {
    if !("\\u" <= s) then Refused(UnpairedSurrogate)
    else
      match ReadHex4(s[2..])
      case Refused(kind) => Refused(kind)
      case Read(second, last) =>
        if !IsLow(second) then Refused(UnpairedSurrogate) else Scalar(Join(high, second), last)
  }

  lemma NoLowExactly(high: int, s: string, kind: ErrorKind)
    requires IsHigh(high)
    ensures ReadLow(high, s) == Refused(kind) <==> NoLow(high, s, kind)
  {
    if "\\u" <= s {
      var t := s[2..];
      NoHexExactly(t, kind);
      forall low ensures Hex(t, low) <==> 0 <= low < 0x10000 && ReadHex4(t) == Read(low, if |t| >= 4 then t[4..] else "") {
        HexIsRead(t, low);
      }
      if ReadHex4(t).Read? {
        assert Hex(t, ReadHex4(t).value);
        if IsLow(ReadHex4(t).value) {
          JoinedExactly(high, ReadHex4(t).value);
        }
      }
    }
  }

  lemma NoScalarExactly(s: string, unit: int, rest: string, kind: ErrorKind)
    requires ReadHex4(s) == Read(unit, rest)
    ensures ReadUnicode(s) == Refused(kind) <==> NoScalar(unit, rest, kind)
  {
    if IsHigh(unit) {
      NoLowExactly(unit, rest, kind);
    }
  }

  lemma NoUnicodeExactly(s: string, kind: ErrorKind)
    ensures ReadUnicode(s) == Refused(kind) <==> NoUnicode(s, kind)
  {
    NoHexExactly(s, kind);
    match ReadHex4(s)
    case Refused(_) =>
      forall unit ensures !Hex(s, unit) {
        HexIsRead(s, unit);
      }
    case Read(unit, rest) =>
      forall other ensures Hex(s, other) <==> other == unit {
        HexIsRead(s, other);
      }
      assert rest == s[4..];
      NoScalarExactly(s, unit, rest, kind);
  }

  lemma NoCharacterExactly(s: string, kind: ErrorKind)
    ensures (s == "" || s[0] != '"') && ReadCharacter(s) == Refused(kind) <==> NoCharacter(s, kind)
  {
    if "\\u" <= s {
      assert s[1..][1..] == s[2..];
      NoUnicodeExactly(s[2..], kind);
    } else if |s| > 1 && s[0] == '\\' {
      forall i | 0 <= i < |SHORTS| ensures SHORTS[i].0 == s[1] ==> IsShort(s[1]) {
        if SHORTS[i].0 == s[1] {
          assert SHORTS[i] == (s[1], (SHORTS[i].1 as char) as int);
          ShortExactly(s[1], SHORTS[i].1 as char);
        }
      }
      if IsShort(s[1]) {
        ShortExactly(s[1], ShortMeaning(s[1]));
      }
    }
  }

  // ---- what stands where a scalar should ----------------------------------------------------

  /** The characters of a string, and then none. */
  ghost predicate NoString(s: string, kind: ErrorKind) {
    exists units: seq<LegalUnit>, rest :: s == SpellUnits(units, rest) && NoCharacter(rest, kind)
  }

  lemma {:induction false} StringRefused(units: seq<LegalUnit>, rest: string, kind: ErrorKind, out: string)
    requires NoCharacter(rest, kind)
    ensures ReadString(SpellUnits(units, rest), out) == Refused(kind)
  {
    if units == [] {
      NoCharacterExactly(rest, kind);
    } else {
      UnitReads(units[0], SpellUnits(units[1..], rest));
      StringRefused(units[1..], rest, kind, out + [UnitMeaning(units[0])]);
    }
  }

  lemma {:induction false} RefusedString(s: string, kind: ErrorKind, out: string)
    returns (units: seq<LegalUnit>, rest: string)
    requires ReadString(s, out) == Refused(kind)
    ensures s == SpellUnits(units, rest) && NoCharacter(rest, kind)
    decreases |s|
  {
    if ReadCharacter(s).Refused? {
      units, rest := [], s;
      NoCharacterExactly(s, kind);
    } else {
      var unit := UnitRead(s);
      units, rest := RefusedString(ReadCharacter(s).rest, kind, out + [ReadCharacter(s).value]);
      units := [unit] + units;
      assert units[1..] + [] == units[1..];
    }
  }

  /** A sign or none, all the digits there are, and what follows them: no integer of 53 bits. */
  predicate NoInteger(minus: bool, digits: string, rest: string, kind: ErrorKind) {
    && Digits(digits) && (minus || digits != "") && (rest == "" || rest[0] < '0' || rest[0] > '9')
    && if digits == "" then kind == NotJson
       else if digits[0] == '0' && |digits| > 1 then kind == LeadingZero
       else if rest != "" && (rest[0] == '.' || rest[0] == 'e' || rest[0] == 'E') then kind == NonIntegerNumber
       else if minus && digits == "0" then kind == NegativeZero
       else kind == IntegerOutOfRange && DigitsValue(digits) >= 0x20_0000_0000_0000
  }

  lemma SomeDigits(digits: string, rest: string)
    requires Digits(digits) && (rest == "" || !IsDigit(rest[0]))
    ensures ReadDigits(digits + rest) ==
            if digits == "" then Refused(NotJson)
            else if digits[0] == '0' && |digits| > 1 then Refused(LeadingZero)
            else Read(digits, rest)
  {
    if digits == "" {
      assert digits + rest == rest;
    } else if digits[0] == '0' && |digits| > 1 {
      assert (digits + rest)[1] == digits[1] && IsDigit(digits[1]);
    } else {
      DigitsRead(digits, rest);
    }
  }

  lemma NumberInParts(minus: bool, digits: string, rest: string)
    requires Digits(digits) && (minus || digits != "")
    ensures var spelled := SpellNumber(minus, digits, rest);
            && spelled != "" && (spelled[0] == '-' <==> minus)
            && (if minus then spelled[1..] else spelled) == digits + rest
  {
    var spelled := SpellNumber(minus, digits, rest);
    assert spelled[0] == if minus then '-' else digits[0];
    assert !minus ==> IsDigit(digits[0]);
  }

  lemma NumberOf(minus: bool, digits: string, rest: string)
    requires Digits(digits) && (rest == "" || !IsDigit(rest[0])) && (minus || digits != "")
    ensures ReadNumber(SpellNumber(minus, digits, rest)) ==
            if digits == "" then Refused(NotJson)
            else if digits[0] == '0' && |digits| > 1 then Refused(LeadingZero)
            else ReadInteger(minus, digits, rest)
  {
    SomeDigits(digits, rest);
    NumberInParts(minus, digits, rest);
  }

  lemma NoIntegerExactly(minus: bool, digits: string, rest: string, kind: ErrorKind)
    requires Digits(digits) && (rest == "" || !IsDigit(rest[0])) && (minus || digits != "")
    ensures ReadNumber(SpellNumber(minus, digits, rest)) == Refused(kind) <==> NoInteger(minus, digits, rest, kind)
  {
    NumberOf(minus, digits, rest);
  }

  ghost predicate NoNumber(s: string, kind: ErrorKind) {
    exists minus, digits, rest :: s == SpellNumber(minus, digits, rest) && NoInteger(minus, digits, rest, kind)
  }

  /** No value, where a value inside the depth should stand, and no bracket. */
  ghost predicate NoLeaf(s: string, kind: ErrorKind) {
    if s == "" then kind == UnexpectedEnd
    else if s[0] == '"' then NoString(s[1..], kind)
    else if s[0] == '-' || '0' <= s[0] <= '9' then NoNumber(s, kind)
    else
      kind == NotJson && s[0] !in "{[ \t\n\r" && !("null" <= s) && !("true" <= s) && !("false" <= s)
  }

  lemma AllDigits(s: string) returns (minus: bool, digits: string, rest: string)
    requires s != "" && (s[0] == '-' || IsDigit(s[0]))
    ensures s == SpellNumber(minus, digits, rest) && Digits(digits) && (minus || digits != "")
    ensures rest == "" || !IsDigit(rest[0])
  {
    minus := s[0] == '-';
    var t := if minus then s[1..] else s;
    digits, rest := t[..Run(t)], t[Run(t)..];
    assert t == digits + rest;
  }

  lemma NoNumberExactly(s: string, kind: ErrorKind)
    requires s != "" && (s[0] == '-' || IsDigit(s[0]))
    ensures ReadNumber(s) == Refused(kind) <==> NoNumber(s, kind)
  {
    var minus, digits, rest := AllDigits(s);
    NoIntegerExactly(minus, digits, rest, kind);
    if NoNumber(s, kind) {
      var minus', digits', rest' :| s == SpellNumber(minus', digits', rest') && NoInteger(minus', digits', rest', kind);
      NoIntegerExactly(minus', digits', rest', kind);
    }
  }

  lemma NoStringExactly(s: string, kind: ErrorKind)
    ensures ReadString(s, "") == Refused(kind) <==> NoString(s, kind)
  {
    if ReadString(s, "") == Refused(kind) {
      var units, rest := RefusedString(s, kind, "");
    }
    if units: seq<LegalUnit>, rest :| s == SpellUnits(units, rest) && NoCharacter(rest, kind) {
      StringRefused(units, rest, kind, "");
    }
  }

  lemma NoLeafExactly(s: string, room: nat, kind: ErrorKind)
    requires s == "" || (!IsSpace(s[0]) && s[0] != '{' && s[0] != '[')
    ensures ReadValue(s, room) == Refused(kind) <==> NoLeaf(s, kind)
  {
    if s == "" {
    } else if s[0] == '"' {
      NoStringExactly(s[1..], kind);
    } else if s[0] == '-' || IsDigit(s[0]) {
      NoNumberExactly(s, kind);
    } else {
      NoWordExactly(s);
    }
  }

  lemma NoWordExactly(s: string)
    requires s != ""
    ensures "null" <= s ==> s[0] == 'n'
    ensures "true" <= s ==> s[0] == 't'
    ensures "false" <= s ==> s[0] == 'f'
  {
    assert "null"[0] == 'n' && "true"[0] == 't' && "false"[0] == 'f';
  }

  // ---- the fault of a text ----------------------------------------------------------------------

  /** Where a value stops being one: at once, inside an array after some items, or inside an
      object after some members. */
  datatype Fault =
    | Here(rest: string)
    | InList(items: Items, before: string, item: ItemFault)
    | InRecord(members: Members, before: string, member: MemberFault)

  /** At the value, or after it, where neither a comma nor the closing bracket stands. */
  datatype ItemFault = InValue(fault: Fault) | NotEnded(tree: Tree, after: string, rest: string)

  datatype MemberFault =
    | NoQuote(rest: string)
    | InName(units: seq<LegalUnit>, rest: string)
    | SameName(name: seq<LegalUnit>, rest: string)
    | NoColon(name: seq<LegalUnit>, blank: string, rest: string)
    | AfterColon(name: seq<LegalUnit>, colonBefore: string, colonAfter: string, item: ItemFault)

  /** The text of items that each have a comma after them, with `rest` after them. */
  function SpellDone(items: Items, rest: string): string {
    if items.NoItem? then rest
    else items.before + Spell(items.tree, items.after + ("," + SpellDone(items.rest, rest)))
  }

  function SpellNamed(members: Members, rest: string): string {
    if members.NoMember? then rest
    else
      members.before +
      SpellQuoted(members.name,
        members.colonBefore + (":" + (members.colonAfter +
        Spell(members.tree, members.after + ("," + SpellNamed(members.rest, rest))))))
  }

  function SpellFault(fault: Fault): string {
    match fault
    case Here(rest) => rest
    case InList(items, before, item) => "[" + SpellDone(items, before + SpellItem(item))
    case InRecord(members, before, member) => "{" + SpellNamed(members, before + SpellMember(member))
  }

  function SpellItem(item: ItemFault): string {
    match item
    case InValue(fault) => SpellFault(fault)
    case NotEnded(tree, after, rest) => Spell(tree, after + rest)
  }

  function SpellMember(member: MemberFault): string {
    match member
    case NoQuote(rest) => rest
    case InName(units, rest) => "\"" + SpellUnits(units, rest)
    case SameName(name, rest) => SpellQuoted(name, rest)
    case NoColon(name, blank, rest) => SpellQuoted(name, blank + rest)
    case AfterColon(name, colonBefore, colonAfter, item) =>
      SpellQuoted(name, colonBefore + (":" + (colonAfter + SpellItem(item))))
  }

  /** Some other character than `wanted`, or the end. */
  predicate Instead(rest: string, wanted: string, kind: ErrorKind) {
    if rest == "" then kind == UnexpectedEnd else kind == NotJson && !IsSpace(rest[0]) && rest[0] !in wanted
  }

  /** The text stops being a value there, as an error of that kind, with `room` levels left. */
  ghost predicate Is(fault: Fault, room: int, kind: ErrorKind) {
    match fault
    case Here(rest) =>
      (rest != "" ==> !IsSpace(rest[0])) && if room < 0 then kind == DepthExceeded else NoLeaf(rest, kind)
    case InList(items, before, item) =>
      && room >= 0 && LegalItems(items, room - 1) && Blank(before) && IsInItem(item, room - 1, ']', kind)
      && (items.NoItem? ==> !("]" <= SpellItem(item)))
    case InRecord(members, before, member) =>
      && room >= 0 && LegalMembers(members, room - 1) && Blank(before)
      && Distinct(Names(MembersMeaning(members)))
      && IsInMember(member, Names(MembersMeaning(members)), room - 1, kind)
      && (members.NoMember? ==> !("}" <= SpellMember(member)))
  }

  ghost predicate IsInItem(item: ItemFault, room: int, close: char, kind: ErrorKind) {
    match item
    case InValue(fault) => Is(fault, room, kind)
    case NotEnded(tree, after, rest) =>
      Legal(tree, room) && Blank(after) && Ends(tree, after + rest) && Instead(rest, [',', close], kind)
  }

  ghost predicate IsInMember(member: MemberFault, names: seq<string>, room: int, kind: ErrorKind) {
    match member
    case NoQuote(rest) => kind == NotJson && (rest != "" ==> rest[0] != '"' && !IsSpace(rest[0]))
    case InName(units, rest) => NoCharacter(rest, kind)
    case SameName(name, _) => kind == DuplicateMember && UnitsMeaning(name) in names
    case NoColon(name, blank, rest) => UnitsMeaning(name) !in names && Blank(blank) && Instead(rest, ":", kind)
    case AfterColon(name, colonBefore, colonAfter, item) =>
      && UnitsMeaning(name) !in names && Blank(colonBefore) && Blank(colonAfter)
      && IsInItem(item, room, '}', kind)
  }

  // ---- a fault is refused ----------------------------------------------------------------------

  lemma FaultStarts(fault: Fault, room: int, kind: ErrorKind)
    requires Is(fault, room, kind)
    ensures Skip(SpellFault(fault)) == SpellFault(fault)
  {
  }

  lemma ItemStarts(item: ItemFault, room: int, close: char, kind: ErrorKind)
    requires IsInItem(item, room, close, kind)
    ensures Skip(SpellItem(item)) == SpellItem(item)
  {
    match item
    case InValue(fault) => FaultStarts(fault, room, kind);
    case NotEnded(tree, after, rest) => FirstCharacter(tree, room, after + rest);
  }

  lemma {:induction false} FaultRefused(fault: Fault, room: int, kind: ErrorKind)
    requires Is(fault, room, kind)
    ensures ReadValue(SpellFault(fault), room) == Refused(kind)
    decreases fault, 1
  {
    match fault
    case Here(rest) =>
      if room >= 0 {
        NoLeafExactly(rest, room, kind);
      }
    case InList(items, before, item) =>
      ListRefused(items, before, item, room, kind);
    case InRecord(members, before, member) =>
      RecordRefused(members, before, member, room, kind);
  }

  /** The value is refused, or what follows it is. */
  lemma {:induction false} ItemRefused(item: ItemFault, room: int, close: char, kind: ErrorKind)
    requires IsInItem(item, room, close, kind)
    ensures var read := ReadValue(SpellItem(item), room);
            read == Refused(kind) || (read.Read? && ReadSeparator(read.rest, close) == Refused(kind))
    decreases item, 2
  {
    match item
    case InValue(fault) => FaultRefused(fault, room, kind);
    case NotEnded(tree, after, rest) =>
      ValueReads(tree, room, after + rest);
      SkipBlank(after, rest);
      assert Skip(rest) == rest;
  }

  lemma {:induction false} DoneReads(items: Items, room: int, rest: string, before: seq<Value>)
    requires LegalItems(items, room - 1)
    ensures ReadItems(SpellDone(items, rest), room, before) == ReadItems(rest, room, before + ItemsMeaning(items))
  {
    if items.NoItem? {
      assert before + ItemsMeaning(items) == before;
    } else {
      var close := "," + SpellDone(items.rest, rest);
      ItemReads(items.before, items.tree, items.after, room, close, before);
      assert close[1..] == SpellDone(items.rest, rest);
      DoneReads(items.rest, room, rest, before + [Meaning(items.tree)]);
      MoreItems(before, Meaning(items.tree), ItemsMeaning(items.rest));
    }
  }

  /** An array that has a fault is not closed at once. */
  lemma ListStarts(items: Items, before: string, item: ItemFault, room: int, kind: ErrorKind)
    requires Is(InList(items, before, item), room, kind)
    ensures var text := SpellDone(items, before + SpellItem(item));
            ReadArray(text, room) == ReadItems(text, room, [])
  {
    var last := before + SpellItem(item);
    if items.NoItem? {
      ItemStarts(item, room - 1, ']', kind);
      SkipBlank(before, SpellItem(item));
    } else {
      var tail := items.after + ("," + SpellDone(items.rest, last));
      SkipBlank(items.before, Spell(items.tree, tail));
      FirstCharacter(items.tree, room - 1, tail);
    }
    ItemsSkip(SpellDone(items, last), room, []);
  }

  lemma {:induction false} ListRefused(items: Items, before: string, item: ItemFault, room: int, kind: ErrorKind)
    requires Is(InList(items, before, item), room, kind)
    ensures ReadArray(SpellDone(items, before + SpellItem(item)), room) == Refused(kind)
    decreases item, 3
  {
    ListStarts(items, before, item, room, kind);
    DoneReads(items, room, before + SpellItem(item), []);
    ItemStarts(item, room - 1, ']', kind);
    SkipBlank(before, SpellItem(item));
    ItemRefused(item, room - 1, ']', kind);
  }

  lemma {:induction false} NamedReads(members: Members, room: int, rest: string, before: seq<(string, Value)>)
    requires LegalMembers(members, room - 1) && Distinct(Names(before + MembersMeaning(members)))
    ensures ReadMembers(SpellNamed(members, rest), room, before)
         == ReadMembers(rest, room, before + MembersMeaning(members))
  {
    if members.NoMember? {
      assert before + MembersMeaning(members) == before;
    } else {
      var close := "," + SpellNamed(members.rest, rest);
      var pair := (UnitsMeaning(members.name), Meaning(members.tree));
      NewName(members, before);
      NameReads(members, room, close, before);
      MemberReads(members, room, close, before);
      assert close[1..] == SpellNamed(members.rest, rest);
      MoreItems(before, pair, MembersMeaning(members.rest));
      NamedReads(members.rest, room, rest, before + [pair]);
    }
  }

  lemma MemberStarts(member: MemberFault, names: seq<string>, room: int, kind: ErrorKind)
    requires IsInMember(member, names, room, kind)
    ensures Skip(SpellMember(member)) == SpellMember(member)
    ensures SpellMember(member) == "" || SpellMember(member)[0] != '"' <==> member.NoQuote?
  {
  }

  lemma {:induction false} MemberRefused(
      member: MemberFault, before: string, room: int, pairs: seq<(string, Value)>, kind: ErrorKind)
    requires Blank(before) && IsInMember(member, Names(pairs), room - 1, kind)
    ensures ReadMembers(before + SpellMember(member), room, pairs) == Refused(kind)
    decreases member, 3
  {
    SkipBlank(before, SpellMember(member));
    MemberStarts(member, Names(pairs), room - 1, kind);
    match member
    case NoQuote(_) =>
    case InName(units, rest) =>
      StringRefused(units, rest, kind, "");
    case SameName(name, rest) =>
      QuotedReads(name, rest);
    case NoColon(name, blank, rest) =>
      QuotedReads(name, blank + rest);
      SkipBlank(blank, rest);
      assert Skip(rest) == rest;
    case AfterColon(name, colonBefore, colonAfter, item) =>
      var value := colonAfter + SpellItem(item);
      QuotedReads(name, colonBefore + (":" + value));
      ColonReads(colonBefore, value);
      SkipBlank(colonAfter, SpellItem(item));
      ItemStarts(item, room - 1, '}', kind);
      ItemRefused(item, room - 1, '}', kind);
  }

  lemma ColonReads(blank: string, value: string)
    requires Blank(blank)
    ensures ReadColon(blank + (":" + value)) == Read((), value)
  {
    SkipBlank(blank, ":" + value);
    assert Skip(":" + value) == ":" + value;
  }

  lemma {:induction false} RecordRefused(
      members: Members, before: string, member: MemberFault, room: int, kind: ErrorKind)
    requires Is(InRecord(members, before, member), room, kind)
    ensures ReadObject(SpellNamed(members, before + SpellMember(member)), room) == Refused(kind)
    decreases member, 4
  {
    var last := before + SpellMember(member);
    var text := SpellNamed(members, last);
    var pairs := MembersMeaning(members);
    assert [] + pairs == pairs;
    SkipBlank(before, SpellMember(member));
    MemberStarts(member, Names(pairs), room - 1, kind);
    if members.Member? {
      var quoted := text[|members.before|..];
      assert text == members.before + quoted && quoted[0] == '"' && Skip(quoted) == quoted;
      SkipBlank(members.before, quoted);
    }
    MembersSkip(text, room, []);
    NamedReads(members, room, last, []);
    MemberRefused(member, before, room, pairs, kind);
  }

  // ---- what is refused has a fault -----------------------------------------------------------------

  /** What is read is all there is of it. */
  lemma ValueEnds(s: string, room: int, tree: Tree)
    requires ReadValue(s, room).Read? && Legal(tree, room) && s == Spell(tree, ReadValue(s, room).rest)
    ensures Ends(tree, ReadValue(s, room).rest)
  {
    if tree.Number? {
      var rest := ReadValue(s, room).rest;
      NumberInParts(tree.minus, tree.digits, rest);
      assert tree.minus || s[0] == tree.digits[0];
      assert ReadNumber(s).Read?;
    }
  }

  lemma {:induction false} RefusedFault(s: string, room: int, kind: ErrorKind) returns (fault: Fault)
    requires ReadValue(s, room) == Refused(kind) && (s != "" ==> !IsSpace(s[0]))
    ensures Is(fault, room, kind) && SpellFault(fault) == s
    decreases |s|, 2
  {
    if room >= 0 && s != "" && s[0] == '[' {
      fault := RefusedList(s[1..], room, kind);
      assert s == "[" + s[1..];
    } else if room >= 0 && s != "" && s[0] == '{' {
      fault := RefusedRecord(s[1..], room, kind);
      assert s == "{" + s[1..];
    } else {
      fault := Here(s);
      if room >= 0 {
        NoLeafExactly(s, room, kind);
      }
    }
  }

  lemma {:induction false} RefusedItem(s: string, room: int, close: char, kind: ErrorKind) returns (item: ItemFault)
    requires Skip(s) == s && (close == ']' || close == '}')
    requires var read := ReadValue(s, room);
             read == Refused(kind) || (read.Read? && ReadSeparator(read.rest, close) == Refused(kind))
    ensures IsInItem(item, room, close, kind) && SpellItem(item) == s
    decreases |s|, 3
  {
    var blank := SkippedBlank(s);
    if ReadValue(s, room).Refused? {
      var fault := RefusedFault(s, room, kind);
      item := InValue(fault);
    } else {
      var tree := ValueRead(s, room);
      ValueEnds(s, room, tree);
      var rest := ReadValue(s, room).rest;
      var after := SkippedBlank(rest);
      item := NotEnded(tree, after, Skip(rest));
    }
  }

  lemma {:induction false} RefusedItems(blank: string, s: string, room: int, before: seq<Value>, kind: ErrorKind)
    returns (items: Items, last: string, item: ItemFault)
    requires ReadItems(s, room, before) == Refused(kind) && Blank(blank) && Skip(s) == s
    ensures LegalItems(items, room - 1) && Blank(last) && IsInItem(item, room - 1, ']', kind)
    ensures blank + s == SpellDone(items, last + SpellItem(item))
    ensures items.NoItem? ==> SpellItem(item) == s
    decreases |s|, 4
  {
    var read := ReadValue(s, room - 1);
    if read.Read? && ReadSeparator(read.rest, ']').Read? {
      var next := ReadSeparator(read.rest, ']');
      var tree := ValueRead(s, room - 1);
      var after := SeparatorRead(read.rest, ']');
      var blank' := SkippedBlank(next.rest);
      SkipTwice(next.rest);
      ItemsSkip(next.rest, room, before + [read.value]);
      var more;
      more, last, item := RefusedItems(blank', Skip(next.rest), room, before + [read.value], kind);
      items := Item(blank, tree, after, more);
    } else {
      item := RefusedItem(s, room - 1, ']', kind);
      items, last := NoItem, blank;
    }
  }

  lemma {:induction false} RefusedList(s: string, room: int, kind: ErrorKind) returns (fault: Fault)
    requires room >= 0 && ReadArray(s, room) == Refused(kind)
    ensures Is(fault, room, kind) && SpellFault(fault) == "[" + s
    decreases |s|, 5
  {
    var blank := SkippedBlank(s);
    SkipTwice(s);
    var items, last, item := RefusedItems(blank, Skip(s), room, [], kind);
    fault := InList(items, last, item);
  }

  /** The fault is at the member's name. */
  lemma RefusedName(s: string, room: int, before: seq<(string, Value)>, kind: ErrorKind) returns (member: MemberFault)
    requires ReadMembers(s, room, before) == Refused(kind) && Skip(s) == s
    requires s == "" || s[0] != '"' || ReadString(s[1..], "").Refused? || ReadString(s[1..], "").value in Names(before)
    ensures IsInMember(member, Names(before), room - 1, kind) && SpellMember(member) == s
  {
    if s == "" || s[0] != '"' {
      var none := SkippedBlank(s);
      member := NoQuote(s);
    } else if ReadString(s[1..], "").Refused? {
      var units, rest := RefusedString(s[1..], kind, "");
      member := InName(units, rest);
    } else {
      var name := QuotedRead(s);
      member := SameName(name, ReadString(s[1..], "").rest);
    }
  }

  lemma ColonRead(s: string) returns (colonBefore: string, colonAfter: string)
    requires ReadColon(s).Read?
    ensures Blank(colonBefore) && Blank(colonAfter) && s == colonBefore + (":" + (colonAfter + Skip(ReadColon(s).rest)))
  {
    colonBefore := SkippedBlank(s);
    colonAfter := SkippedBlank(ReadColon(s).rest);
  }

  lemma NoColonRead(s: string, kind: ErrorKind) returns (blank: string)
    requires ReadColon(s) == Refused(kind)
    ensures Blank(blank) && s == blank + Skip(s) && Instead(Skip(s), ":", kind)
  {
    blank := SkippedBlank(s);
  }

  /** The fault is after the member's name, and not after its value's comma. */
  lemma {:induction false} RefusedAfter(
      name: seq<LegalUnit>, s: string, room: int, before: seq<(string, Value)>, kind: ErrorKind)
    returns (member: MemberFault)
    requires ReadMember(s, room, before, UnitsMeaning(name)) == Refused(kind) && UnitsMeaning(name) !in Names(before)
    requires ReadColon(s).Read? ==>
               var read := ReadValue(Skip(ReadColon(s).rest), room - 1);
               read.Refused? || ReadSeparator(read.rest, '}').Refused?
    ensures IsInMember(member, Names(before), room - 1, kind) && SpellMember(member) == SpellQuoted(name, s)
    decreases |s|, 4
  {
    if ReadColon(s).Refused? {
      var blank := NoColonRead(s, kind);
      member := NoColon(name, blank, Skip(s));
    } else {
      var colonBefore, colonAfter := ColonRead(s);
      SkipTwice(ReadColon(s).rest);
      var item := RefusedItem(Skip(ReadColon(s).rest), room - 1, '}', kind);
      member := AfterColon(name, colonBefore, colonAfter, item);
    }
  }

  lemma {:induction false} RefusedMembers(
      blank: string, s: string, room: int, before: seq<(string, Value)>, kind: ErrorKind)
    returns (members: Members, last: string, member: MemberFault)
    requires ReadMembers(s, room, before) == Refused(kind) && Blank(blank) && Skip(s) == s && Distinct(Names(before))
    ensures LegalMembers(members, room - 1) && Blank(last) && Distinct(Names(before + MembersMeaning(members)))
    ensures IsInMember(member, Names(before + MembersMeaning(members)), room - 1, kind)
    ensures blank + s == SpellNamed(members, last + SpellMember(member))
    ensures members.NoMember? ==> SpellMember(member) == s
    decreases |s|, 4
  {
    assert before + MembersMeaning(NoMember) == before;
    if s == "" || s[0] != '"' || ReadString(s[1..], "").Refused? || ReadString(s[1..], "").value in Names(before) {
      members, last := NoMember, blank;
      member := RefusedName(s, room, before, kind);
    } else {
      var name := QuotedRead(s);
      members, last, member := RefusedMember(blank, name, ReadString(s[1..], "").rest, room, before, kind);
    }
  }

  lemma {:induction false} RefusedMember(
      blank: string, name: seq<LegalUnit>, s: string, room: int, before: seq<(string, Value)>, kind: ErrorKind)
    returns (members: Members, last: string, member: MemberFault)
    requires ReadMember(s, room, before, UnitsMeaning(name)) == Refused(kind) && Blank(blank)
    requires Distinct(Names(before)) && UnitsMeaning(name) !in Names(before)
    ensures LegalMembers(members, room - 1) && Blank(last) && Distinct(Names(before + MembersMeaning(members)))
    ensures IsInMember(member, Names(before + MembersMeaning(members)), room - 1, kind)
    ensures blank + SpellQuoted(name, s) == SpellNamed(members, last + SpellMember(member))
    ensures members.NoMember? ==> SpellMember(member) == SpellQuoted(name, s)
    decreases |s|, 5
  {
    assert before + MembersMeaning(NoMember) == before;
    if ReadColon(s).Read? && ReadValue(Skip(ReadColon(s).rest), room - 1).Read?
       && ReadSeparator(ReadValue(Skip(ReadColon(s).rest), room - 1).rest, '}').Read? {
      members, last, member := RefusedLater(blank, name, s, room, before, kind);
    } else {
      members, last := NoMember, blank;
      member := RefusedAfter(name, s, room, before, kind);
    }
  }

  lemma {:induction false} RefusedLater(
      blank: string, name: seq<LegalUnit>, s: string, room: int, before: seq<(string, Value)>, kind: ErrorKind)
    returns (members: Members, last: string, member: MemberFault)
    requires ReadMember(s, room, before, UnitsMeaning(name)) == Refused(kind) && Blank(blank)
    requires Distinct(Names(before)) && UnitsMeaning(name) !in Names(before)
    requires ReadColon(s).Read? && ReadValue(Skip(ReadColon(s).rest), room - 1).Read?
    requires ReadSeparator(ReadValue(Skip(ReadColon(s).rest), room - 1).rest, '}').Read?
    ensures members.Member? && LegalMembers(members, room - 1) && Blank(last)
    ensures Distinct(Names(before + MembersMeaning(members)))
    ensures IsInMember(member, Names(before + MembersMeaning(members)), room - 1, kind)
    ensures blank + SpellQuoted(name, s) == SpellNamed(members, last + SpellMember(member))
    decreases |s|, 3
  {
    var colonBefore, colonAfter, tree, after := ValueAfterColon(s, room);
    var next := ReadSeparator(ReadValue(Skip(ReadColon(s).rest), room - 1).rest, '}');
    var pair := (UnitsMeaning(name), Meaning(tree));
    assert Names(before + [pair]) == Names(before) + [UnitsMeaning(name)];
    var blank' := SkippedBlank(next.rest);
    SkipTwice(next.rest);
    MembersSkip(next.rest, room, before + [pair]);
    var rest;
    rest, last, member := RefusedMembers(blank', Skip(next.rest), room, before + [pair], kind);
    members := Member(blank, name, colonBefore, colonAfter, tree, after, rest);
    MoreItems(before, pair, MembersMeaning(rest));
  }

  lemma {:induction false} RefusedRecord(s: string, room: int, kind: ErrorKind) returns (fault: Fault)
    requires room >= 0 && ReadObject(s, room) == Refused(kind)
    ensures Is(fault, room, kind) && SpellFault(fault) == "{" + s
    decreases |s|, 5
  {
    var blank := SkippedBlank(s);
    SkipTwice(s);
    MembersSkip(s, room, []);
    var members, last, member := RefusedMembers(blank, Skip(s), room, [], kind);
    assert [] + MembersMeaning(members) == MembersMeaning(members);
    fault := InRecord(members, last, member);
  }

  // ---- the theorem ----------------------------------------------------------------------------------

  /** A whole value, and then something else than white space. */
  ghost predicate GoesOn(text: string, room: int, before: string, tree: Tree, after: string, rest: string) {
    && Blank(before) && Blank(after) && Legal(tree, room) && text == before + Spell(tree, after + rest)
    && rest != "" && !IsSpace(rest[0]) && Ends(tree, after + rest)
  }

  ghost predicate HasFault(text: string, room: int, kind: ErrorKind, before: string, fault: Fault) {
    Blank(before) && Is(fault, room, kind) && text == before + SpellFault(fault)
  }

  /** A text is refused, as an error of that kind, exactly when it starts with a byte order
      mark, has such a fault after what it has read of the grammar, or goes on after a value. */
  lemma RefusedExactly(text: string, maxDepth: nat, kind: ErrorKind)
    ensures ReadText(text, maxDepth) == Err(kind) <==>
            if text != "" && text[0] as int == 0xFEFF then kind == ByteOrderMark
            else
              || (exists before, fault :: HasFault(text, maxDepth, kind, before, fault))
              || (kind == TrailingGarbage
                  && exists before, tree, after, rest :: GoesOn(text, maxDepth, before, tree, after, rest))
  {
    if text == "" || text[0] as int != 0xFEFF {
      if ReadText(text, maxDepth) == Err(kind) {
        WhyRefused(text, maxDepth, kind);
      }
      if before, fault :| HasFault(text, maxDepth, kind, before, fault) {
        SkipBlank(before, SpellFault(fault));
        FaultStarts(fault, maxDepth, kind);
        FaultRefused(fault, maxDepth, kind);
      }
      if before, tree, after, rest :| GoesOn(text, maxDepth, before, tree, after, rest) {
        SkipBlank(before, Spell(tree, after + rest));
        FirstCharacter(tree, maxDepth, after + rest);
        ValueReads(tree, maxDepth, after + rest);
        SkipBlank(after, rest);
      }
    }
  }

  lemma WhyRefused(text: string, maxDepth: nat, kind: ErrorKind)
    requires ReadBody(text, maxDepth) == Err(kind)
    ensures || (exists before, fault :: HasFault(text, maxDepth, kind, before, fault))
            || (kind == TrailingGarbage
                && exists before, tree, after, rest :: GoesOn(text, maxDepth, before, tree, after, rest))
  {
    var before := SkippedBlank(text);
    var s := Skip(text);
    if ReadValue(s, maxDepth).Refused? {
      var fault := RefusedFault(s, maxDepth, kind);
      assert HasFault(text, maxDepth, kind, before, fault);
    } else {
      var tree := ValueRead(s, maxDepth);
      ValueEnds(s, maxDepth, tree);
      var rest := ReadValue(s, maxDepth).rest;
      var after := SkippedBlank(rest);
      assert GoesOn(text, maxDepth, before, tree, after, Skip(rest));
    }
  }
}
