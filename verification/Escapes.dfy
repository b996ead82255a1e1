/** What each way of spelling a character stands for, by tables and the arithmetic of UTF-16
    (section 3.9 of the Unicode Standard, definition D91): a string reads as the characters
    its spellings stand for. And which texts are read as the three words. */
module Escapes {
  import opened Values
  import opened Grammar
  import opened Reader
  import opened ReaderTheorems
  import opened Canonical

  // ---- the tables --------------------------------------------------------------------------

  const LOWER := "0123456789abcdef"
  const UPPER := "0123456789ABCDEF"

  /** The letters of two-character escapes, and their code points. */
  const SHORTS: seq<(char, int)> :=
    [('"', 0x22), ('\\', 0x5C), ('/', 0x2F), ('b', 0x08), ('f', 0x0C), ('n', 0x0A), ('r', 0x0D), ('t', 0x09)]

  predicate IsNibble(c: char, n: int) {
    0 <= n < 16 && (c == LOWER[n] || c == UPPER[n])
  }

  /** The four digits of a code unit, most significant first, in either case. */
  predicate HexOf(text: string, unit: int) {
    && |text| == 4 && 0 <= unit < 0x10000
    && IsNibble(text[0], unit / 4096) && IsNibble(text[1], unit / 256 % 16)
    && IsNibble(text[2], unit / 16 % 16) && IsNibble(text[3], unit % 16)
  }

  /** A high and a low surrogate, and the character they make. */
  predicate PairOf(high: int, low: int, c: char) {
    0xD800 <= high < 0xDC00 <= low < 0xE000 && c as int == (high - 0xD800) * 1024 + (low - 0xDC00) + 0x10000
  }

  /** The spellings of one character: itself, an escape of two characters, or the digits of
      its one or two UTF-16 code units. */
  ghost predicate Spells(c: char, text: string) {
    || (text == [c] && c as int >= 0x20 && c != '"' && c != '\\')
    || (exists i :: 0 <= i < |SHORTS| && SHORTS[i].1 == c as int && text == ['\\', SHORTS[i].0])
    || (exists hex :: HexOf(hex, c as int) && text == "\\u" + hex)
    || exists high, low, a, b ::
         PairOf(high, low, c) && HexOf(a, high) && HexOf(b, low) && text == "\\u" + a + "\\u" + b
  }

  // ---- digits, letters and pairs --------------------------------------------------------------

  lemma NibbleExactly(c: char, n: int)
    requires 0 <= n < 16
    ensures IsNibble(c, n) <==> IsHex(c) && HexDigit(c) == n
  {
    assert LOWER[..10] == "0123456789" && UPPER[..10] == "0123456789";
    if n < 10 {
      DecimalNibble(n);
    } else {
      LetterNibble(n);
    }
  }

  lemma DecimalNibble(n: int)
    requires 0 <= n < 10
    ensures LOWER[n] as int == UPPER[n] as int == 0x30 + n
  {
    var digits := "0123456789";
    assert digits[0] == '0' && digits[1] == '1' && digits[2] == '2' && digits[3] == '3' && digits[4] == '4';
    assert digits[5] == '5' && digits[6] == '6' && digits[7] == '7' && digits[8] == '8' && digits[9] == '9';
    assert LOWER[n] == digits[n] && UPPER[n] == digits[n];
  }

  lemma LetterNibble(n: int)
    requires 10 <= n < 16
    ensures LOWER[n] as int == 0x61 + (n - 10) && UPPER[n] as int == 0x41 + (n - 10)
  {
    assert LOWER[10] == 'a' && LOWER[11] == 'b' && LOWER[12] == 'c' && LOWER[13] == 'd' && LOWER[14] == 'e' && LOWER[15] == 'f';
    assert UPPER[10] == 'A' && UPPER[11] == 'B' && UPPER[12] == 'C' && UPPER[13] == 'D' && UPPER[14] == 'E' && UPPER[15] == 'F';
  }

  lemma HexExactly(text: string, unit: int)
    requires 0 <= unit < 0x10000
    ensures HexOf(text, unit) <==> FourHex(text) && HexValue(text) == unit
  {
    if |text| == 4 {
      NibbleExactly(text[0], unit / 4096);
      NibbleExactly(text[1], unit / 256 % 16);
      NibbleExactly(text[2], unit / 16 % 16);
      NibbleExactly(text[3], unit % 16);
      if FourHex(text) {
        FourDigits(HexDigit(text[0]), HexDigit(text[1]), HexDigit(text[2]), HexDigit(text[3]), unit);
      }
    }
  }

  lemma FourDigits(a: int, b: int, c: int, d: int, unit: int)
    requires 0 <= a < 16 && 0 <= b < 16 && 0 <= c < 16 && 0 <= d < 16
    ensures ((a * 16 + b) * 16 + c) * 16 + d == unit
            <==> a == unit / 4096 && b == unit / 256 % 16 && c == unit / 16 % 16 && d == unit % 16
  {
    SixteenthOfSixteenth(unit);
    LastDigit(a * 16 + b, c, unit / 16);
    LastDigit(a, b, unit / 256);
    LastDigit((a * 16 + b) * 16 + c, d, unit);
  }

  lemma LastDigit(q: int, r: int, n: int)
    requires 0 <= r < 16
    ensures n == q * 16 + r <==> q == n / 16 && r == n % 16
  {
  }

  lemma SixteenthOfSixteenth(n: int)
    ensures n / 256 == n / 16 / 16 && n / 4096 == n / 256 / 16
  {
  }

  lemma ShortExactly(letter: char, c: char)
    ensures (exists i :: 0 <= i < |SHORTS| && SHORTS[i] == (letter, c as int)) <==> IsShort(letter) && ShortMeaning(letter) == c
  {
    if IsShort(letter) && ShortMeaning(letter) == c {
      assert || SHORTS[0] == (letter, c as int) || SHORTS[1] == (letter, c as int) || SHORTS[2] == (letter, c as int)
             || SHORTS[3] == (letter, c as int) || SHORTS[4] == (letter, c as int) || SHORTS[5] == (letter, c as int)
             || SHORTS[6] == (letter, c as int) || SHORTS[7] == (letter, c as int);
    }
  }

  /** Joining two surrogates and cutting a character into two undo each other. */
  lemma JoinUndoesUnits(high: int, low: int)
    requires IsHigh(high) && IsLow(low)
    ensures PairOf(high, low, Join(high, low) as char)
    ensures Utf16([Join(high, low) as char]) == [high, low]
  {
    var c := Join(high, low) as char;
    assert [c][1..] == "" && Utf16("") == [];
  }

  /** The last two code points of a plane. */
  predicate EndsPlane(codePoint: int, plane: int) {
    0 <= plane < 17 && (codePoint == plane * 65536 + 65534 || codePoint == plane * 65536 + 65535)
  }

  /** The 66 noncharacters: a block of 32, and the last two of each of the 17 planes. */
  lemma NoncharactersExactly(codePoint: int)
    requires 0 <= codePoint <= 0x10FFFF
    ensures IsNoncharacter(codePoint) <==>
              0xFDD0 <= codePoint < 0xFDD0 + 32 || exists plane :: EndsPlane(codePoint, plane)
  {
    assert codePoint % 0x10000 >= 0xFFFE ==> EndsPlane(codePoint, codePoint / 0x10000);
  }

  // ---- one character -----------------------------------------------------------------------

  /** The grammar's ways of spelling a character are exactly these. */
  lemma SpelledExactly(c: char, text: string)
    requires !IsNoncharacter(c as int)
    ensures Spells(c, text) <==> exists unit: LegalUnit :: SpellUnit(unit, "") == text && UnitMeaning(unit) == c
  {
    if Spells(c, text) {
      var unit := UnitOf(c, text);
    }
    if unit: LegalUnit :| SpellUnit(unit, "") == text && UnitMeaning(unit) == c {
      UnitSpells(unit);
    }
  }

  lemma UnitOf(c: char, text: string) returns (unit: LegalUnit)
    requires !IsNoncharacter(c as int) && Spells(c, text)
    ensures SpellUnit(unit, "") == text && UnitMeaning(unit) == c
  {
    if text == [c] && c as int >= 0x20 && c != '"' && c != '\\' {
      unit := Plain(c);
    } else if i :| 0 <= i < |SHORTS| && SHORTS[i].1 == c as int && text == ['\\', SHORTS[i].0] {
      unit := ShortUnit(c, i);
    } else if hex :| HexOf(hex, c as int) && text == "\\u" + hex {
      unit := EscapedUnit(c, hex);
    } else {
      var high, low, a, b :|
        PairOf(high, low, c) && HexOf(a, high) && HexOf(b, low) && text == "\\u" + a + "\\u" + b;
      unit := PairUnit(c, high, low, a, b);
    }
  }

  lemma ShortUnit(c: char, i: int) returns (unit: LegalUnit)
    requires 0 <= i < |SHORTS| && SHORTS[i].1 == c as int
    ensures SpellUnit(unit, "") == ['\\', SHORTS[i].0] && UnitMeaning(unit) == c
  {
    assert SHORTS[i] == (SHORTS[i].0, c as int);
    ShortExactly(SHORTS[i].0, c);
    unit := Short(SHORTS[i].0);
  }

  lemma EscapedUnit(c: char, hex: string) returns (unit: LegalUnit)
    requires !IsNoncharacter(c as int) && HexOf(hex, c as int)
    ensures unit == Escaped(hex) && SpellUnit(unit, "") == "\\u" + hex && UnitMeaning(unit) == c
  {
    HexExactly(hex, c as int);
    unit := Escaped(hex);
    EscapedText(hex);
  }

  lemma PairUnit(c: char, high: int, low: int, a: string, b: string) returns (unit: LegalUnit)
    requires !IsNoncharacter(c as int) && PairOf(high, low, c) && HexOf(a, high) && HexOf(b, low)
    ensures SpellUnit(unit, "") == "\\u" + a + "\\u" + b && UnitMeaning(unit) == c
  {
    HexExactly(a, high);
    HexExactly(b, low);
    PairIsJoined(high, low, c);
    unit := Surrogates(a, b);
    SurrogatesText(a, b);
  }

  lemma PairIsJoined(high: int, low: int, c: char)
    requires PairOf(high, low, c)
    ensures IsHigh(high) && IsLow(low) && Join(high, low) == c as int
  {
  }

  lemma EscapedText(hex: string)
    ensures "\\" + ("u" + (hex + "")) == "\\u" + hex
  {
  }

  lemma SurrogatesText(a: string, b: string)
    ensures "\\" + ("u" + (a + ("\\u" + (b + "")))) == "\\u" + a + "\\u" + b
  {
  }

  lemma UnitSpells(unit: LegalUnit)
    ensures !IsNoncharacter(UnitMeaning(unit) as int) && Spells(UnitMeaning(unit), SpellUnit(unit, ""))
  {
    match unit
    case Plain(_) =>
    case Short(letter) =>
      ShortSpells(letter);
    case Escaped(hex) =>
      EscapedSpells(hex);
    case Surrogates(a, b) =>
      PairSpells(a, b);
  }

  lemma ShortSpells(letter: char)
    requires IsShort(letter)
    ensures !IsNoncharacter(ShortMeaning(letter) as int) && Spells(ShortMeaning(letter), SpellUnit(Short(letter), ""))
  {
    ShortExactly(letter, ShortMeaning(letter));
    var i :| 0 <= i < |SHORTS| && SHORTS[i] == (letter, ShortMeaning(letter) as int);
    assert SpellUnit(Short(letter), "") == ['\\', SHORTS[i].0];
  }

  lemma EscapedSpells(hex: string)
    requires FourHex(hex) && IsLegal(Escaped(hex))
    ensures Spells(HexValue(hex) as char, SpellUnit(Escaped(hex), ""))
  {
    HexExactly(hex, HexValue(hex));
    EscapedText(hex);
  }

  lemma PairSpells(a: string, b: string)
    requires IsLegal(Surrogates(a, b))
    ensures Spells(Join(HexValue(a), HexValue(b)) as char, SpellUnit(Surrogates(a, b), ""))
  {
    HexExactly(a, HexValue(a));
    HexExactly(b, HexValue(b));
    JoinUndoesUnits(HexValue(a), HexValue(b));
    SurrogatesText(a, b);
  }

  // ---- a string ----------------------------------------------------------------------------

  function Concat(parts: seq<string>): string {
    if parts == [] then "" else parts[0] + Concat(parts[1..])
  }

  ghost predicate AllSpell(text: string, spellings: seq<string>) {
    |spellings| == |text| && forall i :: 0 <= i < |text| ==> Spells(text[i], spellings[i])
  }

  /** What stands between two quotes reads as a text exactly when it is its characters, each
      spelled in one of these ways, and none of them a noncharacter. */
  lemma StringReadsExactly(raw: string, text: string, maxDepth: nat)
    ensures ReadText("\"" + raw + "\"", maxDepth) == Ok(String(text))
            <==> Clean(text) && exists spellings :: AllSpell(text, spellings) && Concat(spellings) == raw
  {
    var quoted := "\"" + raw + "\"";
    ReaderIsTheGrammar(quoted, maxDepth, String(text));
    if ReadText(quoted, maxDepth) == Ok(String(text)) {
      var before, tree, after :| DenotesBy(quoted, String(text), maxDepth, before, tree, after);
      QuotedAlone(raw, before, tree, after);
      var spellings := SpellingsOf(tree.units);
    }
    if Clean(text) {
      if spellings :| AllSpell(text, spellings) && Concat(spellings) == raw {
        var units := UnitsOf(text, spellings);
        QuotedDenotes(units, maxDepth);
      }
    }
  }

  lemma QuotedDenotes(units: seq<LegalUnit>, room: nat)
    ensures Denotes("\"" + SpellUnits(units, "") + "\"", String(UnitsMeaning(units)), room)
  {
    var raw := SpellUnits(units, "");
    UnitsApart(units, "\"" + "");
    assert "\"" + raw + "\"" == "\"" + (raw + ("\"" + ""));
    assert "" + Spell(Quoted(units), "") == Spell(Quoted(units), "");
    assert DenotesBy("\"" + raw + "\"", String(UnitsMeaning(units)), room, "", Quoted(units), "");
  }

  lemma {:induction false} UnitsApart(units: seq<LegalUnit>, after: string)
    ensures SpellUnits(units, after) == SpellUnits(units, "") + after
  {
    if units == [] {
      assert "" + after == after;
    } else {
      UnitsApart(units[1..], after);
      UnitApart(units[0], SpellUnits(units[1..], "") + after);
      UnitApart(units[0], SpellUnits(units[1..], ""));
      assert SpellUnit(units[0], "") + SpellUnits(units[1..], "") + after
          == SpellUnit(units[0], "") + (SpellUnits(units[1..], "") + after);
    }
  }

  lemma UnitApart(unit: LegalUnit, after: string)
    ensures SpellUnit(unit, after) == SpellUnit(unit, "") + after
  {
    match unit
    case Plain(_) =>
    case Short(letter) =>
      assert "\\" + ([letter] + after) == "\\" + ([letter] + "") + after;
    case Escaped(hex) =>
      assert "\\" + ("u" + (hex + after)) == "\\" + ("u" + (hex + "")) + after;
    case Surrogates(a, b) =>
      assert "\\" + ("u" + (a + ("\\u" + (b + after)))) == "\\" + ("u" + (a + ("\\u" + (b + "")))) + after;
  }

  /** Between two quotes there is a string's spelling and nothing else. */
  lemma QuotedAlone(raw: string, before: string, tree: Tree, after: string)
    requires Blank(before) && Blank(after) && tree.Quoted?
    requires "\"" + raw + "\"" == before + Spell(tree, after)
    ensures SpellUnits(tree.units, "") == raw
  {
    var units := SpellUnits(tree.units, "");
    UnitsApart(tree.units, "\"" + after);
    QuotesApart(before, units, after);
    BetweenQuotes(raw, before, units, after);
  }

  lemma QuotesApart(before: string, units: string, after: string)
    ensures before + ("\"" + (units + ("\"" + after))) == before + "\"" + units + "\"" + after
  {
  }

  lemma BetweenQuotes(raw: string, before: string, units: string, after: string)
    requires Blank(before) && Blank(after)
    requires "\"" + raw + "\"" == before + "\"" + units + "\"" + after
    ensures units == raw
  {
    var quoted := before + "\"" + units + "\"" + after;
    assert quoted[0] == '"' && quoted[|quoted| - 1] == '"';
    assert forall i :: 0 <= i < |before| ==> IsSpace(before[i]) && quoted[i] == before[i];
    assert forall i :: 0 <= i < |after| ==> IsSpace(after[i]) && quoted[|quoted| - |after| + i] == after[i];
    assert ("\"" + raw + "\"")[1..|raw| + 1] == raw && quoted[1..|units| + 1] == units;
  }

  lemma {:induction false} SpellingsOf(units: seq<LegalUnit>) returns (spellings: seq<string>)
    ensures Clean(UnitsMeaning(units)) && AllSpell(UnitsMeaning(units), spellings)
    ensures Concat(spellings) == SpellUnits(units, "")
  {
    if units == [] {
      spellings := [];
    } else {
      var rest := SpellingsOf(units[1..]);
      UnitSpells(units[0]);
      UnitApart(units[0], SpellUnits(units[1..], ""));
      spellings := [SpellUnit(units[0], "")] + rest;
      assert spellings[1..] == rest;
    }
  }

  lemma {:induction false} UnitsOf(text: string, spellings: seq<string>) returns (units: seq<LegalUnit>)
    requires Clean(text) && AllSpell(text, spellings)
    ensures UnitsMeaning(units) == text && SpellUnits(units, "") == Concat(spellings)
  {
    if text == "" {
      units := [];
    } else {
      var rest := UnitsOf(text[1..], spellings[1..]);
      var first := UnitOf(text[0], spellings[0]);
      UnitApart(first, SpellUnits(rest, ""));
      units := [first] + rest;
      assert units[1..] == rest && [text[0]] + text[1..] == text;
    }
  }

  // ---- words and white space ---------------------------------------------------------------

  /** Spaces, tabs, line feeds and carriage returns, by code point. */
  predicate Spaces(text: string) {
    forall i :: 0 <= i < |text| ==>
      text[i] as int == 0x20 || text[i] as int == 0x09 || text[i] as int == 0x0A || text[i] as int == 0x0D
  }

  ghost predicate OnlyWord(text: string, before: string, word: string, after: string) {
    Spaces(before) && Spaces(after) && text == before + word + after
  }

  /** The three words, alone but for white space, are read as their values, and nothing else is. */
  lemma WordsExactly(text: string, maxDepth: nat)
    ensures ReadText(text, maxDepth) == Ok(Null) <==> exists before, after :: OnlyWord(text, before, "null", after)
    ensures ReadText(text, maxDepth) == Ok(Bool(true)) <==> exists before, after :: OnlyWord(text, before, "true", after)
    ensures ReadText(text, maxDepth) == Ok(Bool(false)) <==> exists before, after :: OnlyWord(text, before, "false", after)
  {
    WordExactly(text, maxDepth, Null, "null");
    WordExactly(text, maxDepth, Bool(true), "true");
    WordExactly(text, maxDepth, Bool(false), "false");
  }

  lemma WordExactly(text: string, maxDepth: nat, value: Value, word: string)
    requires IsWord(value) && WordText(value) == word
    ensures ReadText(text, maxDepth) == Ok(value) <==> exists before, after :: OnlyWord(text, before, word, after)
  {
    ReaderIsTheGrammar(text, maxDepth, value);
    if Denotes(text, value, maxDepth) {
      var before, tree, after :| DenotesBy(text, value, maxDepth, before, tree, after);
      assert tree == Word(value);
      WordSpelled(text, maxDepth, value, before, after);
    }
    if before, after :| OnlyWord(text, before, word, after) {
      WordSpelled(text, maxDepth, value, before, after);
    }
  }

  lemma WordSpelled(text: string, room: nat, value: Value, before: string, after: string)
    requires IsWord(value)
    ensures DenotesBy(text, value, room, before, Word(value), after) <==> OnlyWord(text, before, WordText(value), after)
  {
    BlankIsSpaces(before);
    BlankIsSpaces(after);
    assert before + (WordText(value) + after) == before + WordText(value) + after;
  }

  lemma BlankIsSpaces(text: string)
    ensures Blank(text) <==> Spaces(text)
  {
    if Blank(text) {
      assert forall i :: 0 <= i < |text| ==> text[i] in text;
    }
  }
}
