/** The parser: one position moving through a text, proved to read what `Reader` says. */
module Parsing {
  import opened Decimals
  import opened Values
  import opened Grammar
  import opened Reader

  class Parser {
    const text: string
    const maxDepth: nat
    var at: nat

    ghost predicate Valid()
      reads this
    {
      at <= |text|
    }

    /** What is still to be read. */
    ghost function Rest(): string
      reads this
      requires Valid()
    {
      text[at..]
    }

    /** The parser has read what `reading` says, and stands where it says; after a
        refusal it may stand anywhere. */
    ghost predicate Performed<T>(reading: Reading<T>, result: Result<T>)
      reads this
    {
      Valid() &&
      match result
      case Ok(value) => reading == Reading.Read(value, Rest())
      case Err(kind) => reading == Refused(kind)
    }

    constructor (text: string, maxDepth: nat)
      ensures Valid() && Rest() == text && this.text == text && this.maxDepth == maxDepth
    {
      this.text, this.maxDepth, this.at := text, maxDepth, 0;
    }

    predicate Sees(c: char)
      reads this
    {
      at < |text| && text[at] == c
    }

    method SkipWhitespace()
      requires Valid()
      modifies this
      ensures Valid() && Rest() == Skip(old(Rest()))
    {
      while at < |text| && IsSpace(text[at])
        invariant Valid() && Skip(Rest()) == Skip(old(Rest()))
      {
        at := at + 1;
      }
    }

    method Value(depth: nat) returns (result: Result<Value>)
      requires Valid()
      modifies this
      ensures Performed(ReadValue(old(Rest()), maxDepth - depth), result)
      decreases |text| - at, 2
    {
      if depth > maxDepth {
        return Err(DepthExceeded);
      }
      if at == |text| {
        return Err(UnexpectedEnd);
      }
      if text[at] == '{' {
        result := ReadObject(depth);
      } else if text[at] == '[' {
        result := ReadArray(depth);
      } else {
        result := Leaf();
      }
    }

    /** A value with nothing inside it. */
    method Leaf() returns (result: Result<Value>)
      requires Valid() && at < |text|
      modifies this
      ensures Performed(ReadLeaf(old(Rest())), result)
    {
      var c := text[at];
      if c == '"' {
        var read := QuotedString();
        return match read case Ok(s) => Ok(String(s)) case Err(kind) => Err(kind);
      }
      if c == 't' {
        result := Literal(Bool(true));
      } else if c == 'f' {
        result := Literal(Bool(false));
      } else if c == 'n' {
        result := Literal(Null);
      } else if c == '-' || IsDigit(c) {
        result := ReadNumber();
      } else {
        result := Err(NotJson);
      }
    }

    /** White space, one value, white space, and nothing else. */
    method Body() returns (result: Result<Value>)
      requires Valid()
      modifies this
      ensures result == ReadBody(old(Rest()), maxDepth)
    {
      SkipWhitespace();
      result := Value(0);
      if result.Ok? {
        ghost var rest := Rest();
        SkipWhitespace();
        assert Rest() == Skip(rest);
        if at != |text| {
          return Err(TrailingGarbage);
        }
      }
    }

    method Literal(value: Value) returns (result: Result<Value>)
      requires Valid() && IsWord(value)
      modifies this
      ensures Performed(ReadWord(old(Rest()), value), result)
    {
      if WordText(value) <= text[at..] {
        at := at + |WordText(value)|;
        return Ok(value);
      }
      return Err(NotJson);
    }

    method ReadObject(depth: nat) returns (result: Result<Value>)
      requires Valid() && Sees('{')
      modifies this
      ensures Performed(Reader.ReadObject(old(Rest())[1..], maxDepth - depth), result)
      decreases |text| - at, 1
    {
      at := at + 1;
      SkipWhitespace();
      if Sees('}') {
        at := at + 1;
        return Ok(Object([]));
      }
      result := ReadMembers(depth, Reader.ReadMembers(Rest(), maxDepth - depth, []));
    }

    /** The members of an object that has some, and the brace after them. */
    method ReadMembers(depth: nat, ghost goal: Reading<Value>) returns (result: Result<Value>)
      requires Valid() && goal == Reader.ReadMembers(Rest(), maxDepth - depth, [])
      modifies this
      ensures Performed(goal, result)
      decreases |text| - at, 4
    {
      var members: seq<(string, Values.Value)> := [];
      while true
        invariant Valid() && at >= old(at)
        invariant goal == Reader.ReadMembers(Rest(), maxDepth - depth, members)
        decreases |text| - at
      {
        SkipWhitespace();
        if !Sees('"') {
          return Err(NotJson);
        }
        var name := QuotedString();
        if name.Err? {
          return Err(name.kind);
        }
        if name.value in Names(members) {
          return Err(DuplicateMember);
        }
        var value := MemberValue(depth);
        if value.Err? {
          return value;
        }
        var more := Separator('}');
        if more.Err? {
          return Err(more.kind);
        }
        members := members + [(name.value, value.value)];
        if !more.value {
          return Ok(Object(members));
        }
      }
    }

    /** A member's colon and value. */
    method MemberValue(depth: nat) returns (result: Result<Value>)
      requires Valid()
      modifies this
      ensures Performed(match ReadColon(old(Rest()))
                        case Refused(kind) => Refused(kind)
                        case Read(_, after) => ReadValue(Skip(after), maxDepth - depth - 1), result)
      decreases |text| - at, 3
    {
      SkipWhitespace();
      var colon := Expect(':');
      if colon.Err? {
        return Err(colon.kind);
      }
      SkipWhitespace();
      result := Value(depth + 1);
    }

    method Expect(c: char) returns (result: Result<()>)
      requires Valid()
      modifies this
      ensures Valid()
      ensures result == if old(Rest()) == "" then Err(UnexpectedEnd)
                        else if old(Rest())[0] == c then Ok(()) else Err(NotJson)
      ensures result.Ok? ==> Rest() == old(Rest())[1..]
    {
      if at == |text| {
        return Err(UnexpectedEnd);
      }
      if text[at] != c {
        return Err(NotJson);
      }
      at := at + 1;
      return Ok(());
    }

    /** The comma that separates, or what closes. */
    method Separator(close: char) returns (result: Result<bool>)
      requires Valid()
      modifies this
      ensures Performed(ReadSeparator(old(Rest()), close), result)
      ensures result.Ok? ==> at > old(at)
    {
      SkipWhitespace();
      if at == |text| {
        return Err(UnexpectedEnd);
      }
      if text[at] != ',' && text[at] != close {
        return Err(NotJson);
      }
      at := at + 1;
      return Ok(text[at - 1] == ',');
    }

    method ReadArray(depth: nat) returns (result: Result<Value>)
      requires Valid() && Sees('[')
      modifies this
      ensures Performed(Reader.ReadArray(old(Rest())[1..], maxDepth - depth), result)
      decreases |text| - at, 1
    {
      at := at + 1;
      SkipWhitespace();
      if Sees(']') {
        at := at + 1;
        return Ok(Array([]));
      }
      result := ReadItems(depth, Reader.ReadItems(Rest(), maxDepth - depth, []));
    }

    /** The items of an array that has some, and the bracket after them. */
    method ReadItems(depth: nat, ghost goal: Reading<Value>) returns (result: Result<Value>)
      requires Valid() && goal == Reader.ReadItems(Rest(), maxDepth - depth, [])
      modifies this
      ensures Performed(goal, result)
      decreases |text| - at, 3
    {
      var items: seq<Values.Value> := [];
      while true
        invariant Valid() && at >= old(at)
        invariant goal == Reader.ReadItems(Rest(), maxDepth - depth, items)
        decreases |text| - at
      {
        SkipWhitespace();
        var item := Value(depth + 1);
        if item.Err? {
          return item;
        }
        var more := Separator(']');
        if more.Err? {
          return Err(more.kind);
        }
        items := items + [item.value];
        if !more.value {
          return Ok(Array(items));
        }
      }
    }

    method ReadNumber() returns (result: Result<Value>)
      requires Valid() && at < |text|
      modifies this
      ensures Performed(Reader.ReadNumber(old(Rest())), result)
    {
      var negative := Sees('-');
      if negative {
        at := at + 1;
      }
      assert Rest() == if negative then old(Rest())[1..] else old(Rest());
      var digits := IntegerDigits();
      if digits.Err? {
        return Err(digits.kind);
      }
      result := Integer(negative, digits.value);
    }

    method Integer(negative: bool, digits: string) returns (result: Result<Value>)
      requires Valid() && Digits(digits)
      ensures Performed(ReadInteger(negative, digits, Rest()), result)
    {
      if at < |text| && IsFraction(text[at]) {
        return Err(NonIntegerNumber);
      }
      if negative && digits == "0" {
        return Err(NegativeZero);
      }
      var magnitude := Magnitude(digits);
      if magnitude.Err? {
        return Err(magnitude.kind);
      }
      return Ok(Int(if negative then -magnitude.value else magnitude.value));
    }

    /** The digits of an integer: one zero, or a run that does not start with one. */
    method IntegerDigits() returns (result: Result<string>)
      requires Valid()
      modifies this
      ensures Performed(ReadDigits(old(Rest())), result)
      ensures result.Ok? ==> Digits(result.value)
    {
      var digitsAt := at;
      if at == |text| || !IsDigit(text[at]) {
        return Err(NotJson);
      }
      if text[at] == '0' {
        at := at + 1;
        if at < |text| && IsDigit(text[at]) {
          return Err(LeadingZero);
        }
      } else {
        while at < |text| && IsDigit(text[at])
          invariant digitsAt <= at <= |text|
          invariant Digits(text[digitsAt..at])
        {
          at := at + 1;
        }
      }
      var digits := text[digitsAt..at];
      assert digits + text[at..] == text[digitsAt..];
      DigitsRead(digits, Rest());
      return Ok(digits);
    }

    /** Accumulate digit by digit, stopping as soon as the domain is left. */
    method Magnitude(digits: string) returns (result: Result<int>)
      requires Digits(digits)
      ensures result == if DigitsValue(digits) > MAX_SAFE_INTEGER then Err(IntegerOutOfRange)
                        else Ok(DigitsValue(digits))
    {
      var magnitude := 0;
      for i := 0 to |digits|
        invariant magnitude == DigitsValue(digits[..i]) <= MAX_SAFE_INTEGER
      {
        assert digits[..i + 1][..i] == digits[..i];
        magnitude := magnitude * 10 + (digits[i] as int - '0' as int);
        if magnitude > MAX_SAFE_INTEGER {
          DigitsGrow(digits, i + 1);
          return Err(IntegerOutOfRange);
        }
      }
      assert digits[..|digits|] == digits;
      return Ok(magnitude);
    }

    /** A string, from its opening quote. */
    method QuotedString() returns (result: Result<string>)
      requires Valid() && Sees('"')
      modifies this
      ensures Performed(ReadString(old(Rest())[1..], ""), result)
      ensures result.Ok? ==> at > old(at)
    {
      at := at + 1;
      var out: string := "";
      ghost var goal := ReadString(Rest(), "");
      while !Sees('"')
        invariant Valid() && at > old(at)
        invariant goal == ReadString(Rest(), out)
        decreases |text| - at
      {
        var c := Character();
        if c.Err? {
          return Err(c.kind);
        }
        out := out + [c.value];
      }
      at := at + 1;
      return Ok(out);
    }

    /** One character of a string, as it is or escaped. */
    method Character() returns (result: Result<char>)
      requires Valid()
      modifies this
      ensures Performed(ReadCharacter(old(Rest())), result)
      ensures result.Ok? ==> at > old(at)
    {
      if at == |text| {
        return Err(UnexpectedEnd);
      }
      var c := text[at];
      if c == '\\' {
        at := at + 1;
        result := Escape();
      } else if c as int < 0x20 {
        return Err(ControlCharacterInString);
      } else if IsNoncharacter(c as int) {
        return Err(Noncharacter);
      } else {
        at := at + 1;
        return Ok(c);
      }
    }

    method Escape() returns (result: Result<char>)
      requires Valid()
      modifies this
      ensures Performed(ReadEscape(old(Rest())), result)
      ensures result.Ok? ==> at > old(at)
    {
      if at == |text| {
        return Err(UnexpectedEnd);
      }
      var letter := text[at];
      at := at + 1;
      if letter == 'u' {
        result := UnicodeEscape();
      } else if IsShort(letter) {
        return Ok(ShortMeaning(letter));
      } else {
        return Err(InvalidEscape);
      }
    }

    method UnicodeEscape() returns (result: Result<char>)
      requires Valid()
      modifies this
      ensures Performed(ReadUnicode(old(Rest())), result)
      ensures result.Ok? ==> at > old(at)
    {
      var first := Hex4();
      if first.Err? {
        return Err(first.kind);
      }
      var codePoint := first.value;
      if IsHigh(first.value) {
        if !("\\u" <= text[at..]) {
          return Err(UnpairedSurrogate);
        }
        at := at + 2;
        var second := Hex4();
        if second.Err? {
          return Err(second.kind);
        }
        if !IsLow(second.value) {
          return Err(UnpairedSurrogate);
        }
        codePoint := Join(first.value, second.value);
      } else if IsLow(first.value) {
        return Err(UnpairedSurrogate);
      }
      if IsNoncharacter(codePoint) {
        return Err(Noncharacter);
      }
      return Ok(codePoint as char);
    }

    method Hex4() returns (result: Result<nat>)
      requires Valid()
      modifies this
      ensures Performed(ReadHex4(old(Rest())), result)
      ensures result.Ok? ==> at > old(at) && result.value < 0x10000
    {
      if Utf8Length(text[at..]) < 4 {
        return Err(UnexpectedEnd);
      }
      var value: nat := 0;
      ghost var rest := Rest();
      for offset := 0 to 4
        invariant at == old(at) && offset <= |rest|
        invariant forall i :: 0 <= i < offset ==> IsHex(rest[i])
        invariant value == HexSoFar(rest[..offset])
      {
        if at + offset == |text| || !IsHex(text[at + offset]) {
          return Err(InvalidEscape);
        }
        assert rest[offset] == text[at + offset];
        assert rest[..offset + 1][..offset] == rest[..offset];
        value := value * 16 + HexDigit(text[at + offset]);
      }
      HexSoFarOfFour(rest[..4]);
      at := at + 4;
      return Ok(value);
    }
  }

  /** The number hexadecimal digits denote, however few there are yet. */
  function HexSoFar(hex: string): nat
    requires forall c :: c in hex ==> IsHex(c)
  {
    if hex == "" then 0 else HexSoFar(hex[..|hex| - 1]) * 16 + HexDigit(hex[|hex| - 1])
  }

  lemma HexSoFarOfFour(hex: string)
    requires FourHex(hex)
    ensures HexSoFar(hex) == HexValue(hex)
  {
    assert hex[..3][..2] == hex[..2] && hex[..2][..1] == hex[..1] && hex[..1][..0] == "";
    assert HexSoFar(hex[..1]) == HexDigit(hex[0]);
    assert HexSoFar(hex[..2]) == HexDigit(hex[0]) * 16 + HexDigit(hex[1]);
    assert HexSoFar(hex[..3]) == (HexDigit(hex[0]) * 16 + HexDigit(hex[1])) * 16 + HexDigit(hex[2]);
  }

  /** More digits never make a smaller number. */
  lemma {:induction false} DigitsGrow(digits: string, i: nat)
    requires Digits(digits) && i <= |digits|
    ensures 0 <= DigitsValue(digits[..i]) <= DigitsValue(digits)
    decreases |digits|
  {
    if digits == "" {
    } else if i == |digits| {
      assert digits[..i] == digits && IsDigit(digits[i - 1]);
      DigitsGrow(digits[..i - 1], i - 1);
    } else {
      assert IsDigit(digits[|digits| - 1]);
      assert digits[..|digits| - 1][..i] == digits[..i];
      DigitsGrow(digits[..|digits| - 1], i);
    }
  }

  /** Parse one JSON text, refusing anything outside the domain. */
  method Parse(text: string, maxDepth: nat) returns (result: Result<Value>)
    ensures result == ReadText(text, maxDepth)
  {
    if text != "" && text[0] == BYTE_ORDER_MARK {
      return Err(ByteOrderMark);
    }
    var parser := new Parser(text, maxDepth);
    result := parser.Body();
  }
}
