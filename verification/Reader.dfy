/** The strict reader: what it computes as functions on the text still to be read, and
    the parser that computes it by moving one position through the text. */
module Reader {
  import opened Decimals
  import opened Values
  import opened Grammar

  datatype ErrorKind =
    | ByteOrderMark
    | NotJson
    | TrailingGarbage
    | DuplicateMember
    | NonIntegerNumber
    | NegativeZero
    | LeadingZero
    | IntegerOutOfRange
    | UnpairedSurrogate
    | Noncharacter
    | ControlCharacterInString
    | InvalidEscape
    | UnexpectedEnd
    | DepthExceeded

  datatype Result<+T> = Ok(value: T) | Err(kind: ErrorKind)

  /** What is read from the front of a text, and the text left after it. */
  datatype Reading<+T> = Read(value: T, rest: string) | Refused(kind: ErrorKind)

  const BYTE_ORDER_MARK: char := 0xFEFF as char

  // ---- the reading functions ---------------------------------------------------------

  function Skip(s: string): (rest: string)
    ensures |rest| <= |s|
  {
    if s != "" && IsSpace(s[0]) then Skip(s[1..]) else s
  }

  function Utf8Length(s: string): nat {
    if s == "" then 0
    else
      (if s[0] as int < 0x80 then 1 else if s[0] as int < 0x800 then 2
       else if s[0] as int < 0x10000 then 3 else 4) + Utf8Length(s[1..])
  }

  function ReadHex4(s: string): (r: Reading<nat>)
    ensures r.Read? ==> r.value < 0x10000 && |r.rest| < |s|
  {
    if Utf8Length(s) < 4 then Refused(UnexpectedEnd)
    else if |s| < 4 || !FourHex(s[..4]) then Refused(InvalidEscape)
    else Read(HexValue(s[..4]), s[4..])
  }

  function Scalar(codePoint: nat, rest: string): Reading<char>
    requires codePoint <= 0x10FFFF && !IsHigh(codePoint) && !IsLow(codePoint)
  {
    if IsNoncharacter(codePoint) then Refused(Noncharacter) else Read(codePoint as char, rest)
  }

  function ReadUnicode(s: string): (r: Reading<char>)
    ensures r.Read? ==> |r.rest| < |s|
  {
    match ReadHex4(s)
    case Refused(kind) => Refused(kind)
    case Read(first, rest) =>
      if IsHigh(first) then
        if !("\\u" <= rest) then Refused(UnpairedSurrogate)
        else
          match ReadHex4(rest[2..])
          case Refused(kind) => Refused(kind)
          case Read(second, last) =>
            if !IsLow(second) then Refused(UnpairedSurrogate) else Scalar(Join(first, second), last)
      else if IsLow(first) then Refused(UnpairedSurrogate)
      else Scalar(first, rest)
  }

  function ReadEscape(s: string): (r: Reading<char>)
    ensures r.Read? ==> |r.rest| < |s|
  {
    if s == "" then Refused(UnexpectedEnd)
    else if s[0] == 'u' then ReadUnicode(s[1..])
    else if IsShort(s[0]) then Read(ShortMeaning(s[0]), s[1..])
    else Refused(InvalidEscape)
  }

  /** One character of a string, as it is or escaped. */
  function ReadCharacter(s: string): (r: Reading<char>)
    ensures r.Read? ==> |r.rest| < |s|
  {
    if s == "" then Refused(UnexpectedEnd)
    else if s[0] == '\\' then ReadEscape(s[1..])
    else if s[0] as int < 0x20 then Refused(ControlCharacterInString)
    else if IsNoncharacter(s[0] as int) then Refused(Noncharacter)
    else Read(s[0], s[1..])
  }

  /** The rest of a string whose opening quote has been read. */
  function ReadString(s: string, out: string): (r: Reading<string>)
    ensures r.Read? ==> |r.rest| < |s|
    decreases |s|
  {
    if s != "" && s[0] == '"' then Read(out, s[1..])
    else
      match ReadCharacter(s)
      case Refused(kind) => Refused(kind)
      case Read(c, rest) => ReadString(rest, out + [c])
  }

  /** How many digits `s` starts with. */
  function Run(s: string): (n: nat)
    ensures n <= |s| && Digits(s[..n]) && (n < |s| ==> !IsDigit(s[n]))
  {
    if s != "" && IsDigit(s[0]) then
      assert s[..1 + Run(s[1..])] == [s[0]] + s[1..][..Run(s[1..])];
      1 + Run(s[1..])
    else 0
  }

  /** The digits of an integer: one zero, or a run that does not start with one. */
  function ReadDigits(s: string): (r: Reading<string>)
    ensures r.Read? ==> |r.rest| < |s|
  {
    if s == "" || !IsDigit(s[0]) then Refused(NotJson)
    else if s[0] == '0' && |s| > 1 && IsDigit(s[1]) then Refused(LeadingZero)
    else Read(s[..Run(s)], s[Run(s)..])
  }

  function ReadNumber(s: string): (r: Reading<Value>)
    ensures r.Read? ==> |r.rest| < |s|
  {
    var minus := s != "" && s[0] == '-';
    match ReadDigits(if minus then s[1..] else s)
    case Refused(kind) => Refused(kind)
    case Read(digits, rest) => ReadInteger(minus, digits, rest)
  }

  /** What makes a number more than an integer. */
  predicate IsFraction(c: char) {
    c == '.' || c == 'e' || c == 'E'
  }

  function ReadInteger(minus: bool, digits: string, rest: string): (r: Reading<Value>)
    ensures r.Read? ==> r.rest == rest
  {
    if rest != "" && IsFraction(rest[0]) then Refused(NonIntegerNumber)
    else if minus && digits == "0" then Refused(NegativeZero)
    else if DigitsValue(digits) > MAX_SAFE_INTEGER then Refused(IntegerOutOfRange)
    else Read(Int(if minus then -DigitsValue(digits) else DigitsValue(digits)), rest)
  }

  function ReadWord(s: string, value: Value): (r: Reading<Value>)
    ensures IsWord(value) && r.Read? ==> |r.rest| < |s|
  {
    if WordText(value) <= s then Read(value, s[|WordText(value)|..]) else Refused(NotJson)
  }

  function ReadColon(s: string): (r: Reading<()>)
    ensures r.Read? ==> |r.rest| < |s|
  {
    var t := Skip(s);
    if t == "" then Refused(UnexpectedEnd)
    else if t[0] == ':' then Read((), t[1..])
    else Refused(NotJson)
  }

  /** Whether a comma follows, rather than what closes the array or object. */
  function ReadSeparator(s: string, close: char): (r: Reading<bool>)
    ensures r.Read? ==> |r.rest| < |s|
  {
    var t := Skip(s);
    if t == "" then Refused(UnexpectedEnd)
    else if t[0] == ',' then Read(true, t[1..])
    else if t[0] == close then Read(false, t[1..])
    else Refused(NotJson)
  }

  function ReadValue(s: string, room: int): (r: Reading<Value>)
    ensures r.Read? ==> |r.rest| < |s|
    decreases |s|, 2
  {
    if room < 0 then Refused(DepthExceeded)
    else if s == "" then Refused(UnexpectedEnd)
    else if s[0] == '{' then ReadObject(s[1..], room)
    else if s[0] == '[' then ReadArray(s[1..], room)
    else ReadLeaf(s)
  }

  function ReadLeaf(s: string): (r: Reading<Value>)
    requires s != ""
    ensures r.Read? ==> |r.rest| < |s|
  {
    if s[0] == '"' then
      match ReadString(s[1..], "")
      case Refused(kind) => Refused(kind)
      case Read(text, rest) => Read(String(text), rest)
    else if s[0] == 't' then ReadWord(s, Bool(true))
    else if s[0] == 'f' then ReadWord(s, Bool(false))
    else if s[0] == 'n' then ReadWord(s, Null)
    else if s[0] == '-' || IsDigit(s[0]) then ReadNumber(s)
    else Refused(NotJson)
  }

  /** The rest of an array whose opening bracket has been read. */
  function ReadArray(s: string, room: int): (r: Reading<Value>)
    ensures r.Read? ==> |r.rest| < |s|
    decreases |s|, 4
  {
    var t := Skip(s);
    if t != "" && t[0] == ']' then Read(Array([]), t[1..]) else ReadItems(t, room, [])
  }

  function ReadItems(s: string, room: int, items: seq<Value>): (r: Reading<Value>)
    ensures r.Read? ==> |r.rest| < |s|
    decreases |s|, 3
  {
    match ReadValue(Skip(s), room - 1)
    case Refused(kind) => Refused(kind)
    case Read(value, rest) =>
      match ReadSeparator(rest, ']')
      case Refused(kind) => Refused(kind)
      case Read(more, next) =>
        if more then ReadItems(next, room, items + [value]) else Read(Array(items + [value]), next)
  }

  /** The rest of an object whose opening brace has been read. */
  function ReadObject(s: string, room: int): (r: Reading<Value>)
    ensures r.Read? ==> |r.rest| < |s|
    decreases |s|, 4
  {
    var t := Skip(s);
    if t != "" && t[0] == '}' then Read(Object([]), t[1..]) else ReadMembers(t, room, [])
  }

  function ReadMembers(s: string, room: int, members: seq<(string, Value)>): (r: Reading<Value>)
    ensures r.Read? ==> |r.rest| < |s|
    decreases |s|, 3
  {
    var t := Skip(s);
    if t == "" || t[0] != '"' then Refused(NotJson)
    else
      match ReadString(t[1..], "")
      case Refused(kind) => Refused(kind)
      case Read(name, rest) =>
        if name in Names(members) then Refused(DuplicateMember)
        else ReadMember(rest, room, members, name)
  }

  /** The rest of an object after a member's name. */
  function ReadMember(s: string, room: int, members: seq<(string, Value)>, name: string): (r: Reading<Value>)
    ensures r.Read? ==> |r.rest| < |s|
    decreases |s|, 3
  {
    match ReadColon(s)
    case Refused(kind) => Refused(kind)
    case Read(_, after) =>
      match ReadValue(Skip(after), room - 1)
      case Refused(kind) => Refused(kind)
      case Read(value, rest) =>
        match ReadSeparator(rest, '}')
        case Refused(kind) => Refused(kind)
        case Read(more, next) =>
          var longer := members + [(name, value)];
          if more then ReadMembers(next, room, longer) else Read(Object(longer), next)
  }

  /** One JSON text, with nothing nested more than `maxDepth` deep. */
  function ReadText(text: string, maxDepth: nat): Result<Value> {
    if text != "" && text[0] == BYTE_ORDER_MARK then Err(ByteOrderMark) else ReadBody(text, maxDepth)
  }

  function ReadBody(text: string, maxDepth: nat): Result<Value> {
    match ReadValue(Skip(text), maxDepth)
    case Refused(kind) => Err(kind)
    case Read(value, rest) => if Skip(rest) == "" then Ok(value) else Err(TrailingGarbage)
  }

  // ---- one step at a time ---------------------------------------------------------------

  lemma DigitsRead(digits: string, rest: string)
    requires digits != "" && Digits(digits) && (digits[0] == '0' ==> |digits| == 1)
    requires rest != "" ==> !IsDigit(rest[0])
    ensures ReadDigits(digits + rest) == Read(digits, rest)
  {
    var s := digits + rest;
    RunOf(digits, rest);
    assert s[0] == digits[0] && (|s| > 1 ==> s[1] == if |digits| > 1 then digits[1] else rest[0]);
    assert s[..|digits|] == digits && s[|digits|..] == rest;
  }

  lemma {:induction false} RunOf(digits: string, rest: string)
    requires Digits(digits) && (rest != "" ==> !IsDigit(rest[0]))
    ensures Run(digits + rest) == |digits|
  {
    if digits == "" {
      assert digits + rest == rest;
    } else {
      assert (digits + rest)[1..] == digits[1..] + rest;
      RunOf(digits[1..], rest);
    }
  }
}
