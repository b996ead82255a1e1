/** The JSON grammar of RFC 8259 sections 2 to 7, as concrete syntax trees: every choice
    the grammar leaves a writer (white space, the spelling of each character) is in the
    tree. The domain's narrowings (integers only, no noncharacters, unique names) are in
    `Legal`. */
module Grammar {
  import opened Decimals
  import opened Values

  datatype Tree =
    | Word(value: Value)
    | Number(minus: bool, digits: string)
    | Quoted(units: seq<LegalUnit>)
    | List(blank: string, items: Items)
    | Record(blank: string, members: Members)

  datatype Items = NoItem | Item(before: string, tree: Tree, after: string, rest: Items)

  datatype Members =
    | NoMember
    | Member(before: string, name: seq<LegalUnit>, colonBefore: string, colonAfter: string,
             tree: Tree, after: string, rest: Members)

  /** One character of a string as it is spelled. */
  datatype Unit =
    | Plain(c: char)
    | Short(letter: char)
    | Escaped(hex: string)
    | Surrogates(high: string, low: string)

  type LegalUnit = unit: Unit | IsLegal(unit) witness Plain(' ')

  // ---- characters ------------------------------------------------------------------

  predicate IsSpace(c: char) {
    c == ' ' || c == '\t' || c == '\n' || c == '\r'
  }

  predicate Blank(text: string) {
    forall c :: c in text ==> IsSpace(c)
  }

  predicate IsHex(c: char) {
    IsDigit(c) || 'a' <= c <= 'f' || 'A' <= c <= 'F'
  }

  function HexDigit(c: char): (d: nat)
    requires IsHex(c)
    ensures d < 16
  {
    if IsDigit(c) then c as int - '0' as int
    else if 'a' <= c <= 'f' then c as int - 'a' as int + 10
    else c as int - 'A' as int + 10
  }

  predicate FourHex(text: string) {
    |text| == 4 && forall i :: 0 <= i < 4 ==> IsHex(text[i])
  }

  function HexValue(hex: string): (v: nat)
    requires FourHex(hex)
    ensures v < 0x10000
  {
    ((HexDigit(hex[0]) * 16 + HexDigit(hex[1])) * 16 + HexDigit(hex[2])) * 16 + HexDigit(hex[3])
  }

  predicate IsHigh(unit: int) {
    0xD800 <= unit <= 0xDBFF
  }

  predicate IsLow(unit: int) {
    0xDC00 <= unit <= 0xDFFF
  }

  function Join(high: int, low: int): (codePoint: int)
    requires IsHigh(high) && IsLow(low)
    ensures 0x10000 <= codePoint <= 0x10FFFF
  {
    0x10000 + (high - 0xD800) * 0x400 + (low - 0xDC00)
  }

  /** What a two-character escape stands for. */
  function ShortMeaning(letter: char): char
    requires IsShort(letter)
  {
    match letter
    case 'b' => 8 as char
    case 'f' => 12 as char
    case 'n' => '\n'
    case 'r' => '\r'
    case 't' => '\t'
    case _ => letter
  }

  predicate IsShort(letter: char) {
    || letter == '"' || letter == '\\' || letter == '/'
    || letter == 'b' || letter == 'f' || letter == 'n' || letter == 'r' || letter == 't'
  }

  // ---- strings ---------------------------------------------------------------------

  predicate IsLegal(unit: Unit) {
    match unit
    case Plain(c) => c as int >= 0x20 && c != '"' && c != '\\' && !IsNoncharacter(c as int)
    case Short(letter) => IsShort(letter)
    case Escaped(hex) =>
      FourHex(hex) && !IsHigh(HexValue(hex)) && !IsLow(HexValue(hex)) && !IsNoncharacter(HexValue(hex))
    case Surrogates(high, low) =>
      && FourHex(high) && FourHex(low) && IsHigh(HexValue(high)) && IsLow(HexValue(low))
      && !IsNoncharacter(Join(HexValue(high), HexValue(low)))
  }

  /** The spelling of one character, with `after` after it. */
  function SpellUnit(unit: Unit, after: string): string {
    match unit
    case Plain(c) => [c] + after
    case Short(letter) => "\\" + ([letter] + after)
    case Escaped(hex) => "\\" + ("u" + (hex + after))
    case Surrogates(high, low) => "\\" + ("u" + (high + ("\\u" + (low + after))))
  }

  function UnitMeaning(unit: LegalUnit): char {
    match unit
    case Plain(c) => c
    case Short(letter) => ShortMeaning(letter)
    case Escaped(hex) => HexValue(hex) as char
    case Surrogates(high, low) => Join(HexValue(high), HexValue(low)) as char
  }

  /** The spelling of a string's characters, with `after` after it. */
  function SpellUnits(units: seq<LegalUnit>, after: string): string {
    if units == [] then after else SpellUnit(units[0], SpellUnits(units[1..], after))
  }

  function UnitsMeaning(units: seq<LegalUnit>): string {
    if units == [] then "" else [UnitMeaning(units[0])] + UnitsMeaning(units[1..])
  }

  function SpellQuoted(units: seq<LegalUnit>, after: string): string {
    "\"" + SpellUnits(units, "\"" + after)
  }

  // ---- numbers ---------------------------------------------------------------------

  /** `int` of RFC 8259 section 6, inside the domain. */
  predicate LegalNumber(minus: bool, digits: string) {
    && digits != "" && Digits(digits)
    && (digits[0] == '0' ==> |digits| == 1)
    && (minus ==> digits != "0")
    && DigitsValue(digits) <= MAX_SAFE_INTEGER
  }

  // ---- values ----------------------------------------------------------------------

  predicate IsWord(value: Value) {
    value.Null? || value.Bool?
  }

  function WordText(value: Value): string {
    match value
    case Null => "null"
    case Bool(true) => "true"
    case Bool(false) => "false"
    case _ => ""
  }

  /** A tree of the grammar and the domain, nothing of it nested more than `room` deep. */
  ghost predicate Legal(tree: Tree, room: int) {
    room >= 0 &&
    match tree
    case Word(value) => IsWord(value)
    case Number(minus, digits) => LegalNumber(minus, digits)
    case Quoted(_) => true
    case List(blank, items) =>
      Blank(blank) && (items.Item? ==> blank == "") && LegalItems(items, room - 1)
    case Record(blank, members) =>
      && Blank(blank) && (members.Member? ==> blank == "") && LegalMembers(members, room - 1)
      && Distinct(Names(MembersMeaning(members)))
  }

  ghost predicate LegalItems(items: Items, room: int) {
    items.Item? ==>
      && Blank(items.before) && Blank(items.after) && Legal(items.tree, room)
      && LegalItems(items.rest, room)
  }

  ghost predicate LegalMembers(members: Members, room: int) {
    members.Member? ==>
      && Blank(members.before) && Blank(members.colonBefore) && Blank(members.colonAfter)
      && Blank(members.after) && Legal(members.tree, room) && LegalMembers(members.rest, room)
  }

  /** The text of a tree, with `after` after it. */
  function Spell(tree: Tree, after: string): string {
    match tree
    case Word(value) => WordText(value) + after
    case Number(minus, digits) => SpellNumber(minus, digits, after)
    case Quoted(units) => SpellQuoted(units, after)
    case List(blank, items) => "[" + (blank + SpellItems(items, "]" + after))
    case Record(blank, members) => "{" + (blank + SpellMembers(members, "}" + after))
  }

  function SpellNumber(minus: bool, digits: string, after: string): string {
    if minus then "-" + (digits + after) else digits + after
  }

  function SpellItems(items: Items, after: string): string {
    if items.NoItem? then after
    else
      items.before +
      Spell(items.tree,
            items.after + if items.rest.NoItem? then after else "," + SpellItems(items.rest, after))
  }

  function SpellMembers(members: Members, after: string): string {
    if members.NoMember? then after
    else
      members.before +
      SpellQuoted(members.name,
        members.colonBefore + (":" + (members.colonAfter +
        Spell(members.tree,
              members.after + if members.rest.NoMember? then after else "," + SpellMembers(members.rest, after)))))
  }

  function Meaning(tree: Tree): Value {
    match tree
    case Word(value) => value
    case Number(minus, digits) => Int(if minus then -DigitsValue(digits) else DigitsValue(digits))
    case Quoted(units) => String(UnitsMeaning(units))
    case List(_, items) => Array(ItemsMeaning(items))
    case Record(_, members) => Object(MembersMeaning(members))
  }

  function ItemsMeaning(items: Items): seq<Value> {
    if items.NoItem? then [] else [Meaning(items.tree)] + ItemsMeaning(items.rest)
  }

  function MembersMeaning(members: Members): seq<(string, Value)> {
    if members.NoMember? then []
    else [(UnitsMeaning(members.name), Meaning(members.tree))] + MembersMeaning(members.rest)
  }

  /** The grammar and the domain assign `value` to the whole of `text`. */
  ghost predicate Denotes(text: string, value: Value, room: int) {
    exists before, tree, after :: DenotesBy(text, value, room, before, tree, after)
  }

  ghost predicate DenotesBy(
    text: string, value: Value, room: int, before: string, tree: Tree, after: string)
  {
    && Blank(before) && Blank(after) && Legal(tree, room)
    && text == before + Spell(tree, after) && Meaning(tree) == value
  }
}
