/** The ids a packet names: any text spelled inside the identifier grammar, and cut to fit. */
module Ids {
  import opened Bytes
  import opened Options
  import opened Decimals

  const MAX := 128
  const DIGEST_DIGITS := 32

  // ---- the grammar ----------------------------------------------------------------------------

  predicate IsAlphanumeric(c: char) {
    '0' <= c <= '9' || 'A' <= c <= 'Z' || 'a' <= c <= 'z'
  }

  /** A character `Encode` leaves as itself. */
  predicate IsKept(c: char) {
    IsAlphanumeric(c) || c == '.' || c == '_' || c == '-'
  }

  predicate InGrammar(c: char) {
    IsKept(c) || c == ':' || c == '~'
  }

  predicate AllInGrammar(text: string) {
    forall i :: 0 <= i < |text| ==> InGrammar(text[i])
  }

  predicate IsIdentifier(text: string) {
    1 <= |text| <= MAX && IsAlphanumeric(text[0]) && AllInGrammar(text[1..])
  }

  /** ASCII letters and digits, by code. */
  lemma AlphanumericExactly(c: char)
    ensures IsAlphanumeric(c) <==> 48 <= c as int < 48 + 10 || 65 <= c as int < 65 + 26 || 97 <= c as int < 97 + 26
  {
  }

  /** An identifier is up to 128 ASCII letters, digits and marks, and starts with no mark. */
  lemma IdentifierExactly(text: string)
    ensures IsIdentifier(text) <==>
              && text != "" && |text| < 129
              && (forall c :: c in text ==> IsAlphanumeric(c) || c in ['.', '_', ':', '~', '-'])
              && text[0] !in ['.', '_', ':', '~', '-']
  {
    if IsIdentifier(text) {
      forall c | c in text ensures IsAlphanumeric(c) || c in ['.', '_', ':', '~', '-'] {
        var i :| 0 <= i < |text| && text[i] == c;
        assert i > 0 ==> text[1..][i - 1] == c;
      }
    }
    if text != "" && forall c :: c in text ==> IsAlphanumeric(c) || c in ['.', '_', ':', '~', '-'] {
      forall i | 0 <= i < |text[1..]| ensures InGrammar(text[1..][i]) {
        assert text[i + 1] in text;
      }
      assert text[0] in text;
    }
  }

  // ---- spelling a path ----------------------------------------------------------------------------

  function UpperHex(n: nat): (c: char)
    requires n < 16
    ensures IsKept(c)
  {
    if n < 10 then ('0' as int + n) as char else ('A' as int + n - 10) as char
  }

  predicate IsUpperHex(c: char) {
    '0' <= c <= '9' || 'A' <= c <= 'F'
  }

  function HexValue(c: char): (n: nat)
    requires IsUpperHex(c)
    ensures n < 16
  {
    if c <= '9' then c as int - '0' as int else c as int - 'A' as int + 10
  }

  function EncodeByte(byte: Byte): (spelled: string)
    ensures spelled != [] && AllInGrammar(spelled)
  {
    if IsKept(byte as char) then [byte as char]
    else if byte == 47 then ":"
    else ['~', UpperHex(byte / 16), UpperHex(byte % 16)]
  }

  function Encoded(raw: seq<Byte>): string {
    if raw == [] then "" else EncodeByte(raw[0]) + Encoded(raw[1..])
  }

  const DIGITS := "0123456789ABCDEF"

  /** A byte is spelled as the letter, digit, dot, line or dash it is; a slash as a colon; any
      other as its two digits. */
  lemma SpelledByByte(byte: Byte)
    ensures Encoded([byte]) ==
              if byte == 0x2F then ":"
              else if IsAlphanumeric(byte as char) || byte == 0x2E || byte == 0x5F || byte == 0x2D then [byte as char]
              else ['~', DIGITS[byte / 16], DIGITS[byte % 16]]
  {
    assert [byte][1..] == [] && EncodeByte(byte) + "" == EncodeByte(byte);
    UpperDigit(byte / 16);
    UpperDigit(byte % 16);
  }

  lemma UpperDigit(n: nat)
    requires n < 16
    ensures UpperHex(n) == DIGITS[n]
  {
    assert DIGITS[0] == '0' && DIGITS[1] == '1' && DIGITS[2] == '2' && DIGITS[3] == '3' && DIGITS[4] == '4' && DIGITS[5] == '5';
    assert DIGITS[6] == '6' && DIGITS[7] == '7' && DIGITS[8] == '8' && DIGITS[9] == '9' && DIGITS[10] == 'A' && DIGITS[11] == 'B';
    assert DIGITS[12] == 'C' && DIGITS[13] == 'D' && DIGITS[14] == 'E' && DIGITS[15] == 'F';
  }

  lemma {:induction false} EncodeOneMore(raw: seq<Byte>, byte: Byte)
    ensures Encoded(raw + [byte]) == Encoded(raw) + EncodeByte(byte)
  {
    if raw == [] {
      assert raw + [byte] == [byte] && [byte][1..] == [];
      assert EncodeByte(byte) + "" == "" + EncodeByte(byte);
    } else {
      EncodeOneMore(raw[1..], byte);
      assert (raw + [byte])[1..] == raw[1..] + [byte];
      assert EncodeByte(raw[0]) + (Encoded(raw[1..]) + EncodeByte(byte))
          == EncodeByte(raw[0]) + Encoded(raw[1..]) + EncodeByte(byte);
    }
  }

  method Encode(raw: seq<Byte>) returns (out: string)
    ensures out == Encoded(raw)
  {
    out := "";
    for i := 0 to |raw|
      invariant out == Encoded(raw[..i])
    {
      var byte: Byte := raw[i];
      EncodeOneMore(raw[..i], byte);
      assert raw[..i + 1] == raw[..i] + [byte];
      if IsKept(byte as char) {
        out := out + [byte as char];
      } else if byte == 47 {
        out := out + ":";
      } else {
        out := out + ['~', UpperHex(byte / 16), UpperHex(byte % 16)];
      }
    }
    assert raw[..|raw|] == raw;
  }

  /** The bytes a text spells, read from the left. */
  function Decoded(text: string): Option<seq<Byte>>
    decreases |text|
  {
    if text == "" then Some([])
    else if text[0] == ':' then Ahead(47, Decoded(text[1..]))
    else if text[0] == '~' then
      if |text| >= 3 && IsUpperHex(text[1]) && IsUpperHex(text[2])
      then Ahead(HexValue(text[1]) * 16 + HexValue(text[2]), Decoded(text[3..]))
      else None
    else if IsKept(text[0]) then Ahead(text[0] as int, Decoded(text[1..]))
    else None
  }

  function Ahead(byte: Byte, rest: Option<seq<Byte>>): Option<seq<Byte>> {
    if rest.None? then None else Some([byte] + rest.value)
  }

  /** Any bytes are spelled inside the grammar, and read back as themselves. */
  lemma {:induction false} DecodeUndoesEncode(raw: seq<Byte>)
    ensures AllInGrammar(Encoded(raw)) && Decoded(Encoded(raw)) == Some(raw)
  {
    if raw != [] {
      DecodeUndoesEncode(raw[1..]);
      var byte, rest := raw[0], Encoded(raw[1..]);
      ReadByte(byte, rest);
      assert raw == [byte] + raw[1..];
    }
  }

  lemma ReadByte(byte: Byte, rest: string)
    ensures Decoded(EncodeByte(byte) + rest) == Ahead(byte, Decoded(rest))
  {
    var spelled := EncodeByte(byte);
    var text := spelled + rest;
    if |spelled| == 1 {
      assert text[1..] == rest;
    } else {
      assert text[3..] == rest;
      assert byte / 16 * 16 + byte % 16 == byte;
    }
  }

  /** So two paths are two spellings. */
  lemma EncodeIsInjective(a: seq<Byte>, b: seq<Byte>)
    requires Encoded(a) == Encoded(b)
    ensures a == b
  {
    DecodeUndoesEncode(a);
    DecodeUndoesEncode(b);
  }

  /** No escape, reading from the left, spells a byte that has a spelling of its own. */
  predicate OnlyNeeded(text: string)
    decreases |text|
  {
    if text == "" then true
    else if text[0] == '~' && |text| >= 3 && IsUpperHex(text[1]) && IsUpperHex(text[2]) then
      var byte: Byte := HexValue(text[1]) * 16 + HexValue(text[2]);
      !IsKept(byte as char) && byte != 47 && OnlyNeeded(text[3..])
    else OnlyNeeded(text[1..])
  }

  /** A text that is read comes back exactly when it escapes only what it must. */
  lemma {:induction false} ComesBackExactly(text: string)
    requires Decoded(text).Some?
    ensures Encoded(Decoded(text).value) == text <==> OnlyNeeded(text)
    decreases |text|
  {
    if text != "" {
      var rest := if text[0] == '~' then text[3..] else text[1..];
      var raw := Decoded(text).value;
      ComesBackExactly(rest);
      FirstComesBack(text);
      assert raw[1..] == Decoded(rest).value;
      assert Encoded(raw) == EncodeByte(raw[0]) + Encoded(raw[1..]);
    }
  }

  /** The first byte comes back exactly when its escape, if it has one, is needed. */
  lemma FirstComesBack(text: string)
    requires text != "" && Decoded(text).Some?
    ensures var escaped := text[0] == '~';
            var first := if escaped then text[..3] else text[..1];
            var rest := if escaped then text[3..] else text[1..];
            var byte := Decoded(text).value[0];
            && text == first + rest
            && (EncodeByte(byte) == first || |EncodeByte(byte)| == 1 < |first|)
  {
    if text[0] == '~' {
      HexComesBack(text[1], text[2]);
      assert text == text[..3] + text[3..] && text[..3] == ['~', text[1], text[2]];
    } else {
      assert text == text[..1] + text[1..] && text[..1] == [text[0]];
    }
  }

  lemma HexComesBack(high: char, low: char)
    requires IsUpperHex(high) && IsUpperHex(low)
    ensures var byte := HexValue(high) * 16 + HexValue(low);
            byte < 256 && UpperHex(byte / 16) == high && UpperHex(byte % 16) == low
  {
  }

  /** So the spellings of bytes are exactly the texts that are read and escape only what they
      must: reading alone refuses too little. */
  lemma SpelledExactly(text: string)
    ensures (exists raw :: Encoded(raw) == text) <==> Decoded(text).Some? && OnlyNeeded(text)
  {
    if raw :| Encoded(raw) == text {
      DecodeUndoesEncode(raw);
      ComesBackExactly(text);
    }
    if Decoded(text).Some? && OnlyNeeded(text) {
      ComesBackExactly(text);
    }
  }

  /** An escape of a letter is read, and nothing is spelled so. */
  lemma NeedlessEscapeIsRead()
    ensures Decoded("~41") == Some([65]) && Encoded([65]) == "A"
    ensures forall raw :: Encoded(raw) != "~41"
  {
    var text, letter: seq<Byte> := "~41", [65];
    assert text[3..] == "" && Decoded(text[3..]) == Some([]);
    assert Decoded(text) == Ahead(65, Some([])) && letter == [65] + [];
    assert letter[1..] == [] && Encoded(letter) == EncodeByte(65) + "";
    assert !OnlyNeeded(text);
    SpelledExactly(text);
  }

  /** What marks a shortened id never comes out of `Encode`. */
  lemma {:induction false} NoMarkInside(raw: seq<Byte>, i: nat)
    requires i + 1 < |Encoded(raw)|
    ensures !(Encoded(raw)[i] == '~' && Encoded(raw)[i + 1] == '~')
  {
    if raw != [] {
      var spelled := EncodeByte(raw[0]);
      if i >= |spelled| {
        NoMarkInside(raw[1..], i - |spelled|);
      }
    }
  }

  // ---- the tail of an id ----------------------------------------------------------------------------

  predicate IsHexDigit(c: char) {
    '0' <= c <= '9' || 'A' <= c <= 'F' || 'a' <= c <= 'f'
  }

  predicate IsEscape(text: string, at: nat) {
    at + 2 < |text| && text[at] == '~' && IsHexDigit(text[at + 1]) && IsHexDigit(text[at + 2])
  }

  /** Whether a place is inside an escape, reading from `from` as `Decoded` does. */
  predicate Inside(text: string, from: nat, at: nat)
    decreases |text| - from
  {
    if from >= |text| then false
    else if IsEscape(text, from) then from < at < from + 3 || Inside(text, from + 3, at)
    else Inside(text, from + 1, at)
  }

  lemma HexDigitExactly(c: char)
    ensures IsHexDigit(c) <==> 48 <= c as int < 58 || 65 <= c as int < 71 || 97 <= c as int < 103
  {
  }

  /** In a spelling the places outside every escape are where the spelling of a byte ends. */
  lemma OutsideExactly(raw: seq<Byte>, at: nat)
    requires at <= |Encoded(raw)|
    ensures !Inside(Encoded(raw), 0, at) <==> exists k :: 0 <= k <= |raw| && |Encoded(raw[..k])| == at
  {
    OutsideFrom(raw, 0, at);
    forall k | 0 <= k <= |raw| ensures raw[0..k] == raw[..k] {
    }
  }

  lemma {:induction false} OutsideFrom(raw: seq<Byte>, n: nat, at: nat)
    requires n <= |raw| && |Encoded(raw[..n])| <= at <= |Encoded(raw)|
    ensures !Inside(Encoded(raw), |Encoded(raw[..n])|, at) <==> exists k :: n <= k <= |raw| && |Encoded(raw[..k])| == at
    decreases |raw| - n
  {
    var text, from := Encoded(raw), |Encoded(raw[..n])|;
    if n == |raw| {
      assert raw[..n] == raw;
    } else {
      var next := |Encoded(raw[..n + 1])|;
      ByteAt(raw, n);
      LengthsGrow(raw, n + 1);
      if at >= next {
        OutsideFrom(raw, n + 1, at);
        assert at != from;
      } else {
        BeforeAll(text, next, at);
        if at > from {
          forall k | n < k <= |raw| ensures |Encoded(raw[..k])| > at {
            LengthsGrowTo(raw, n + 1, k);
          }
        }
      }
    }
  }

  /** What stands for byte `n`, in the text as a whole. */
  lemma ByteAt(raw: seq<Byte>, n: nat)
    requires n < |raw|
    ensures var text, from, next := Encoded(raw), |Encoded(raw[..n])|, |Encoded(raw[..n + 1])|;
            && from < next <= |text| && text[from..next] == EncodeByte(raw[n])
            && (IsEscape(text, from) <==> next == from + 3) && (next == from + 1 || next == from + 3)
  {
    EncodeOneMore(raw[..n], raw[n]);
    assert raw[..n + 1] == raw[..n] + [raw[n]];
    EncodedApart(raw, n + 1);
    var text, from, next := Encoded(raw), |Encoded(raw[..n])|, |Encoded(raw[..n + 1])|;
    assert text[from..next] == EncodeByte(raw[n]);
    assert text[from] == EncodeByte(raw[n])[0];
    if |EncodeByte(raw[n])| == 3 {
      assert text[from + 1] == EncodeByte(raw[n])[1] && text[from + 2] == EncodeByte(raw[n])[2];
    }
  }

  lemma {:induction false} EncodedApart(raw: seq<Byte>, n: nat)
    requires n <= |raw|
    ensures Encoded(raw) == Encoded(raw[..n]) + Encoded(raw[n..])
    decreases |raw| - n
  {
    if n == |raw| {
      assert raw[..n] == raw && Encoded(raw) + "" == Encoded(raw);
    } else {
      EncodedApart(raw, n + 1);
      EncodeOneMore(raw[..n], raw[n]);
      assert raw[..n + 1] == raw[..n] + [raw[n]] && raw[n..][1..] == raw[n + 1..];
      Regrouped(Encoded(raw[..n]), EncodeByte(raw[n]), Encoded(raw[n + 1..]));
    }
  }

  lemma Regrouped(a: string, b: string, c: string)
    ensures a + b + c == a + (b + c)
  {
  }

  lemma LengthsGrow(raw: seq<Byte>, n: nat)
    requires n <= |raw|
    ensures |Encoded(raw[..n])| <= |Encoded(raw)|
  {
    EncodedApart(raw, n);
  }

  lemma LengthsGrowTo(raw: seq<Byte>, n: nat, k: nat)
    requires n <= k <= |raw|
    ensures |Encoded(raw[..n])| <= |Encoded(raw[..k])|
  {
    LengthsGrow(raw[..k], n);
    assert raw[..k][..n] == raw[..n];
  }

  lemma {:induction false} BeforeAll(text: string, from: nat, at: nat)
    requires at < from
    ensures !Inside(text, from, at)
    decreases |text| - from
  {
    if from < |text| {
      BeforeAll(text, if IsEscape(text, from) then from + 3 else from + 1, at);
    }
  }

  /** One past the last character outside the grammar. */
  function AfterOutside(text: string): (n: nat)
    ensures n <= |text| && AllInGrammar(text[n..])
    ensures n > 0 ==> !InGrammar(text[n - 1])
  {
    if text == "" then 0
    else if !InGrammar(text[|text| - 1]) then |text|
    else AfterOutside(text[..|text| - 1])
  }

  function Lowest(text: string, room: nat): (at: nat)
    ensures at <= |text| && |text| - at <= room && at >= AfterOutside(text)
  {
    var fits := if |text| <= room then 0 else |text| - room;
    if fits < AfterOutside(text) then AfterOutside(text) else fits
  }

  /** Where a tail may start. */
  predicate MayStart(text: string, at: nat) {
    at <= |text| && !Inside(text, 0, at)
  }

  predicate AtColon(text: string, at: nat) {
    at < |text| && text[at] == ':' && MayStart(text, at)
  }

  /** The tail starts at the first colon it may, or else at the first place it may. */
  predicate IsTailStart(text: string, room: nat, at: nat) {
    && Lowest(text, room) <= at && MayStart(text, at)
    && (AtColon(text, at) || forall i :: Lowest(text, room) <= i < |text| ==> !AtColon(text, i))
    && forall i :: Lowest(text, room) <= i < at ==> if AtColon(text, at) then !AtColon(text, i) else !MayStart(text, i)
  }

  lemma {:induction false} EndIsOutside(text: string, from: nat)
    ensures !Inside(text, from, |text|)
    decreases |text| - from
  {
    if from < |text| {
      EndIsOutside(text, if IsEscape(text, from) then from + 3 else from + 1);
    }
  }

  /** Which places are inside escapes. */
  method Marked(text: string) returns (inside: array<bool>)
    ensures fresh(inside) && inside.Length == |text| + 1
    ensures forall i :: 0 <= i <= |text| ==> inside[i] == Inside(text, 0, i)
  {
    inside := new bool[|text| + 1](i => false);
    var at := 0;
    while at < |text|
      invariant 0 <= at <= |text|
      invariant forall i :: 0 <= i <= |text| ==> (inside[i] || Inside(text, at, i) <==> Inside(text, 0, i))
      invariant forall i :: at <= i <= |text| ==> !inside[i]
    {
      if IsEscape(text, at) {
        inside[at + 1], inside[at + 2] := true, true;
        at := at + 3;
      } else {
        at := at + 1;
      }
    }
  }

  /** Where the tail of at most `room` characters starts. */
  method TailStart(text: string, room: nat) returns (start: nat)
    ensures IsTailStart(text, room, start)
  {
    var inside := Marked(text);
    var lowest := Lowest(text, room);
    start := lowest;
    while start < |text|
      invariant lowest <= start <= |text|
      invariant forall i :: lowest <= i < start ==> !AtColon(text, i)
    {
      if text[start] == ':' && !inside[start] {
        return;
      }
      start := start + 1;
    }
    EndIsOutside(text, 0);
    start := lowest;
    while inside[start]
      invariant lowest <= start <= |text|
      invariant forall i :: lowest <= i < start ==> inside[i]
      decreases |text| - start
    {
      start := start + 1;
    }
  }

  lemma TailStartIsOne(text: string, room: nat, a: nat, b: nat)
    requires IsTailStart(text, room, a) && IsTailStart(text, room, b)
    ensures a == b
  {
  }

  // ---- ids that fit -----------------------------------------------------------------------------------

  /** `digest` of a text: 64 lower-case hexadecimal digits, of which an id keeps the first. */
  predicate IsDigest(digest: string) {
    |digest| == 64 && forall i :: 0 <= i < 64 ==> '0' <= digest[i] <= '9' || 'a' <= digest[i] <= 'f'
  }

  predicate Unshortened(prefix: string, rest: string) {
    !(rest != "" && rest[0] == '~') && IsIdentifier(prefix + rest)
  }

  function Room(prefix: string): nat {
    if |prefix| + 2 + DIGEST_DIGITS > MAX then 0 else MAX - (|prefix| + 2 + DIGEST_DIGITS)
  }

  /** An id for `rest` under `prefix`, given the digest of `rest`. */
  method Bounded(prefix: string, rest: string, digest: string) returns (id: string, start: nat)
    requires IsDigest(digest)
    ensures IsTailStart(rest, Room(prefix), start) && id == BoundedAt(prefix, rest, digest, start)
  {
    start := TailStart(rest, Room(prefix));
    id := if Unshortened(prefix, rest) then prefix + rest
          else prefix + ("~~" + (digest[..DIGEST_DIGITS] + rest[start..]));
  }

  function BoundedAt(prefix: string, rest: string, digest: string, start: nat): string
    requires IsDigest(digest) && start <= |rest|
  {
    if Unshortened(prefix, rest) then prefix + rest
    else prefix + ("~~" + (digest[..DIGEST_DIGITS] + rest[start..]))
  }

  /** A prefix that starts with a letter or a digit and leaves room for the digest. */
  predicate IsPrefix(prefix: string) {
    1 <= |prefix| <= MAX - 2 - DIGEST_DIGITS && IsAlphanumeric(prefix[0]) && AllInGrammar(prefix)
  }

  /** Whatever is named, its id is an identifier. */
  lemma {:induction false} BoundedIsAnIdentifier(prefix: string, rest: string, digest: string, start: nat)
    requires IsPrefix(prefix) && IsDigest(digest) && IsTailStart(rest, Room(prefix), start)
    ensures IsIdentifier(BoundedAt(prefix, rest, digest, start))
  {
    if !Unshortened(prefix, rest) {
      var tail := rest[start..];
      TailIsInGrammar(rest, Room(prefix), start);
      GrammarOfBoth(digest[..DIGEST_DIGITS], tail);
      GrammarOfBoth("~~", digest[..DIGEST_DIGITS] + tail);
      GrammarOfBoth(prefix, "~~" + (digest[..DIGEST_DIGITS] + tail));
    }
  }

  /** An id is its name whole, or its prefix, the mark, half of the digest and the name's tail;
      and no longer than 128 characters either way. */
  lemma BoundedExactly(prefix: string, rest: string, digest: string, start: nat)
    requires IsPrefix(prefix) && IsDigest(digest) && IsTailStart(rest, Room(prefix), start)
    ensures var id := BoundedAt(prefix, rest, digest, start);
            && |id| <= 128
            && id == if IsIdentifier(prefix + rest) && !("~" <= rest) then prefix + rest
                     else prefix + "~~" + digest[..32] + rest[start..]
  {
    BoundedIsAnIdentifier(prefix, rest, digest, start);
    assert prefix + ("~~" + (digest[..32] + rest[start..])) == prefix + "~~" + digest[..32] + rest[start..];
  }

  lemma GrammarOfBoth(a: string, b: string)
    requires AllInGrammar(a) && AllInGrammar(b)
    ensures AllInGrammar(a + b)
  {
  }

  lemma TailIsInGrammar(text: string, room: nat, start: nat)
    requires IsTailStart(text, room, start)
    ensures AllInGrammar(text[start..]) && |text[start..]| <= room
  {
    var after := AfterOutside(text);
    forall i | 0 <= i < |text[start..]|
      ensures InGrammar(text[start..][i])
    {
      assert text[start..][i] == text[after..][start + i - after];
    }
  }

  /** A shortened id is never an unshortened one; two unshortened ids are equal only of equal
      names; two shortened ones only of names whose digests start alike. */
  lemma BoundedTellsApart(prefix: string, a: string, b: string, digestA: string, digestB: string, startA: nat, startB: nat)
    requires IsDigest(digestA) && IsDigest(digestB) && startA <= |a| && startB <= |b|
    requires BoundedAt(prefix, a, digestA, startA) == BoundedAt(prefix, b, digestB, startB)
    ensures Unshortened(prefix, a) <==> Unshortened(prefix, b)
    ensures Unshortened(prefix, a) ==> a == b
    ensures !Unshortened(prefix, a) ==> digestA[..DIGEST_DIGITS] == digestB[..DIGEST_DIGITS]
  {
    var id := BoundedAt(prefix, a, digestA, startA);
    AfterPrefix(prefix, a, digestA, startA);
    AfterPrefix(prefix, b, digestB, startB);
  }

  lemma AfterPrefix(prefix: string, rest: string, digest: string, start: nat)
    requires IsDigest(digest) && start <= |rest|
    ensures var id := BoundedAt(prefix, rest, digest, start);
            && |id| >= |prefix|
            && if Unshortened(prefix, rest) then id[|prefix|..] == rest && !(rest != "" && rest[0] == '~')
               else |id| >= |prefix| + 2 + DIGEST_DIGITS && id[|prefix|] == '~'
                    && id[|prefix| + 2..][..DIGEST_DIGITS] == digest[..DIGEST_DIGITS]
  {
    var id := BoundedAt(prefix, rest, digest, start);
    if !Unshortened(prefix, rest) {
      assert id[|prefix|..] == "~~" + (digest[..DIGEST_DIGITS] + rest[start..]);
      assert id[|prefix| + 2..] == digest[..DIGEST_DIGITS] + rest[start..];
    }
  }

  // ---- the ids of spans -------------------------------------------------------------------------------

  function Span(repository: string, path: seq<Byte>, start: int): string {
    "span-" + (repository + (":" + (Encoded(path) + ("-" + Decimal(start)))))
  }

  /** A span's id names one repository, path and first byte: a repository holds no colon and
      a first byte is not negative. */
  lemma SpansAreToldApart(r: string, s: string, path: seq<Byte>, other: seq<Byte>, a: nat, b: nat)
    requires ':' !in r && ':' !in s
    requires Span(r, path, a) == Span(s, other, b)
    ensures r == s && path == other && a == b
  {
    var fromPath, fromOther := Encoded(path) + ("-" + Decimal(a)), Encoded(other) + ("-" + Decimal(b));
    assert Span(r, path, a)[5..] == r + (":" + fromPath);
    assert Span(s, other, b)[5..] == s + (":" + fromOther);
    FirstMark(r, s, fromPath, fromOther);
    DecimalIsDigits(a);
    DecimalIsDigits(b);
    LastMark(Encoded(path), Encoded(other), DecimalDigits(a), DecimalDigits(b));
    EncodeIsInjective(path, other);
  }

  lemma FirstMark(a: string, b: string, moreA: string, moreB: string)
    requires ':' !in a && ':' !in b && a + (":" + moreA) == b + (":" + moreB)
    ensures a == b && moreA == moreB
  {
    var whole := a + (":" + moreA);
    MarkFollows(a, moreA);
    MarkFollows(b, moreB);
    assert whole[..|a|] == a && whole[..|b|] == b;
    assert whole[|a| + 1..] == moreA && whole[|b| + 1..] == moreB;
  }

  lemma MarkFollows(name: string, more: string)
    requires ':' !in name
    ensures var whole := name + (":" + more);
            whole[|name|] == ':' && forall i :: 0 <= i < |name| ==> whole[i] != ':'
  {
    forall i | 0 <= i < |name|
      ensures (name + (":" + more))[i] != ':'
    {
      assert name[i] in name;
    }
  }

  lemma LastMark(a: string, b: string, digitsA: string, digitsB: string)
    requires Digits(digitsA) && Digits(digitsB) && a + ("-" + digitsA) == b + ("-" + digitsB)
    ensures a == b && digitsA == digitsB
  {
    var whole := a + ("-" + digitsA);
    DigitsFollow(a, digitsA);
    DigitsFollow(b, digitsB);
    assert whole[..|a|] == a && whole[..|b|] == b;
    assert whole[|a| + 1..] == digitsA && whole[|b| + 1..] == digitsB;
  }

  lemma DigitsFollow(name: string, digits: string)
    requires Digits(digits)
    ensures var whole := name + ("-" + digits);
            whole[|name|] == '-' && forall i :: |name| < i < |whole| ==> whole[i] != '-'
  {
    var whole := name + ("-" + digits);
    forall i | |name| < i < |whole|
      ensures whole[i] != '-'
    {
      assert whole[i] == digits[i - |name| - 1] && digits[i - |name| - 1] in digits;
    }
  }

  /** With a negative first byte, which no span has, two spans would share an id. */
  lemma NegativeStartsCollide(repository: string, path: seq<Byte>, start: int)
    requires start > 0
    ensures Span(repository, path + [45], start) == Span(repository, path, -start)
  {
    EncodeOneMore(path, 45);
    var digits := DecimalDigits(start);
    assert Encoded(path) + "-" + ("-" + digits) == Encoded(path) + ("-" + ("-" + digits));
  }
}
