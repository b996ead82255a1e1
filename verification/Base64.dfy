/** Padded standard base64, section 4 of RFC 4648, canonical as its section 3.5 asks. */
module Base64 {
  import opened Bytes
  import opened Options

  type Sextet = d: int | 0 <= d < 64

  // ---- the alphabet ------------------------------------------------------------------------

  /** A to Z, a to z, 0 to 9, + and /. */
  function Letter(d: Sextet): char {
    if d < 26 then ('A' as int + d) as char
    else if d < 52 then ('a' as int + d - 26) as char
    else if d < 62 then ('0' as int + d - 52) as char
    else if d == 62 then '+'
    else '/'
  }

  /** Where a character stands in the alphabet, if it does. */
  function Position(c: char): (p: Option<Sextet>)
    ensures p.Some? ==> Letter(p.value) == c
  {
    if 'A' <= c <= 'Z' then Some(c as int - 'A' as int)
    else if 'a' <= c <= 'z' then Some(c as int - 'a' as int + 26)
    else if '0' <= c <= '9' then Some(c as int - '0' as int + 52)
    else if c == '+' then Some(62)
    else if c == '/' then Some(63)
    else None
  }

  lemma LettersDiffer(d: Sextet)
    ensures Position(Letter(d)) == Some(d) && Letter(d) != '='
  {
  }

  /** From A to Z, from a to z and from 0 to 9, each the next; then + and /. */
  lemma AlphabetExactly(d: Sextet)
    ensures Letter(0) == 'A' && Letter(25) == 'Z' && Letter(26) == 'a' && Letter(51) == 'z'
    ensures Letter(52) == '0' && Letter(61) == '9' && Letter(62) == '+' && Letter(63) == '/'
    ensures d !in [25, 51, 61, 62, 63] ==> Letter(d + 1) as int == Letter(d) as int + 1
  {
  }

  // ---- one group ---------------------------------------------------------------------------

  /** The 24 bits of a group, its missing bytes zero. */
  function Bits(group: seq<Byte>): (n: nat)
    requires 1 <= |group| <= 3
    ensures n < 0x100_0000
  {
    var first: int := group[0];
    var second: int := if |group| > 1 then group[1] else 0;
    var third: int := if |group| > 2 then group[2] else 0;
    first * 0x1_0000 + second * 0x100 + third
  }

  function EncodeGroup(group: seq<Byte>): (quad: string)
    requires 1 <= |group| <= 3
    ensures |quad| == 4
  {
    var n := Bits(group);
    Quad(n / 0x4_0000, n / 0x1000 % 64, n / 64 % 64, n % 64, |group|)
  }

  /** Four characters, padded when the group has fewer than three bytes. */
  function Quad(a: Sextet, b: Sextet, c: Sextet, d: Sextet, count: nat): (quad: string)
    ensures |quad| == 4
  {
    [Letter(a), Letter(b), if count > 1 then Letter(c) else '=', if count > 2 then Letter(d) else '=']
  }

  function FromSextets(a: Sextet, b: Sextet, c: Sextet, d: Sextet): (n: nat)
    ensures n < 0x100_0000
  {
    var first: int, second: int, third: int := a, b, c;
    first * 0x4_0000 + second * 0x1000 + third * 64 + d
  }

  /** How many characters at the end of a quad are padding. */
  function Padding(quad: string): (p: nat)
    requires |quad| == 4
    ensures p <= 4
  {
    if quad[3] != '=' then 0
    else if quad[2] != '=' then 1
    else if quad[1] != '=' then 2
    else if quad[0] != '=' then 3
    else 4
  }

  function DecodeQuad(quad: string, last: bool): (group: Option<seq<Byte>>)
    requires |quad| == 4
  {
    var padding := Padding(quad);
    if padding > 2 || (padding > 0 && !last) then None
    else
      var a, b := Position(quad[0]), Position(quad[1]);
      var c := if padding > 1 then Some(0) else Position(quad[2]);
      var d := if padding > 0 then Some(0) else Position(quad[3]);
      if a.None? || b.None? || c.None? || d.None? then None
      else
        var n := FromSextets(a.value, b.value, c.value, d.value);
        if (padding == 1 && n % 0x100 != 0) || (padding == 2 && n % 0x1_0000 != 0) then None
        else Some(BytesOf(n)[..3 - padding])
  }

  function BytesOf(n: nat): seq<Byte>
    requires n < 0x100_0000
  {
    [n / 0x1_0000, n / 0x100 % 0x100, n % 0x100]
  }

  lemma SplitSextets(n: nat)
    requires n < 0x100_0000
    ensures FromSextets(n / 0x4_0000, n / 0x1000 % 64, n / 64 % 64, n % 64) == n
  {
    var p := n / 64;
    var q := p / 64;
    var r, s, t := n % 64, p % 64, q % 64;
    Quotient(n, 0x1000, q, s * 64 + r);
    Quotient(n, 0x4_0000, q / 64, t * 0x1000 + s * 64 + r);
    assert FromSextets(q / 64, t, s, r) == n;
  }

  /** Bits that are zero leave sextets that are. */
  lemma NoStrayBits(n: nat)
    ensures n % 0x100 == 0 ==> n % 64 == 0
    ensures n % 0x1_0000 == 0 ==> n / 64 % 64 == 0 && n % 64 == 0
  {
    if n % 0x1_0000 == 0 {
      var k := n / 0x1_0000;
      SixtyFourTimes(n, 1024 * k);
      SixtyFourTimes(1024 * k, 16 * k);
    } else if n % 0x100 == 0 {
      SixtyFourTimes(n, 4 * (n / 0x100));
    }
  }

  lemma SixtyFourTimes(n: nat, k: nat)
    requires n == 64 * k
    ensures n % 64 == 0 && n / 64 == k
  {
  }

  lemma Quotient(n: nat, divisor: nat, quotient: nat, remainder: nat)
    requires divisor == 0x1000 || divisor == 0x4_0000
    requires n == quotient * divisor + remainder && remainder < divisor
    ensures n / divisor == quotient
  {
  }

  lemma JoinedSextets(a: Sextet, b: Sextet, c: Sextet, d: Sextet)
    ensures var n := FromSextets(a, b, c, d);
            n / 0x4_0000 == a && n / 0x1000 % 64 == b && n / 64 % 64 == c && n % 64 == d
  {
    var n := FromSextets(a, b, c, d);
    var first: int, second: int := a, b;
    assert n / 64 == first * 0x1000 + second * 64 + c;
    assert n / 0x1000 == first * 64 + b;
  }

  lemma BitsOfBytes(n: nat, count: nat)
    requires n < 0x100_0000 && 1 <= count <= 3
    requires count == 2 ==> n % 0x100 == 0
    requires count == 1 ==> n % 0x1_0000 == 0
    ensures Bits(BytesOf(n)[..count]) == n
  {
    assert n == n / 0x1_0000 * 0x1_0000 + n / 0x100 % 0x100 * 0x100 + n % 0x100;
  }

  lemma BytesOfBits(group: seq<Byte>)
    requires 1 <= |group| <= 3
    ensures BytesOf(Bits(group))[..|group|] == group
    ensures |group| == 2 ==> Bits(group) % 0x100 == 0
    ensures |group| == 1 ==> Bits(group) % 0x1_0000 == 0
  {
    var n := Bits(group);
    var first: int := group[0];
    assert n / 0x1_0000 == first;
    if |group| > 1 {
      assert n / 0x100 == first * 0x100 + group[1];
    }
  }

  lemma QuadOfSextets(a: Sextet, b: Sextet, c: Sextet, d: Sextet, count: nat, last: bool)
    requires 1 <= count <= 3 && (count < 3 ==> last && d == 0) && (count < 2 ==> c == 0)
    requires count == 2 ==> FromSextets(a, b, c, d) % 0x100 == 0
    requires count == 1 ==> FromSextets(a, b, c, d) % 0x1_0000 == 0
    ensures DecodeQuad(Quad(a, b, c, d, count), last) == Some(BytesOf(FromSextets(a, b, c, d))[..count])
  {
    LettersDiffer(a);
    LettersDiffer(b);
    LettersDiffer(c);
    LettersDiffer(d);
    assert Padding(Quad(a, b, c, d, count)) == 3 - count;
  }

  lemma QuadDecodes(group: seq<Byte>, last: bool)
    requires 1 <= |group| <= 3 && (|group| < 3 ==> last)
    ensures DecodeQuad(EncodeGroup(group), last) == Some(group)
  {
    var n := Bits(group);
    BytesOfBits(group);
    SplitSextets(n);
    NoStrayBits(n);
    QuadOfSextets(n / 0x4_0000, n / 0x1000 % 64, n / 64 % 64, n % 64, |group|, last);
  }

  lemma QuadEncodes(quad: string, last: bool)
    requires |quad| == 4 && DecodeQuad(quad, last).Some?
    ensures var group := DecodeQuad(quad, last).value;
            1 <= |group| <= 3 && (|group| < 3 ==> last) && EncodeGroup(group) == quad
  {
    var padding := Padding(quad);
    var a, b := Position(quad[0]).value, Position(quad[1]).value;
    var c := if padding > 1 then 0 else Position(quad[2]).value;
    var d := if padding > 0 then 0 else Position(quad[3]).value;
    JoinedSextets(a, b, c, d);
    BitsOfBytes(FromSextets(a, b, c, d), 3 - padding);
    assert Quad(a, b, c, d, 3 - padding) == quad;
  }

  // ---- whole texts ---------------------------------------------------------------------------

  function Encode(bytes: seq<Byte>): string {
    if bytes == [] then ""
    else if |bytes| <= 3 then EncodeGroup(bytes)
    else EncodeGroup(bytes[..3]) + Encode(bytes[3..])
  }

  function Decode(text: string): Option<seq<Byte>> {
    if |text| % 4 != 0 then None else DecodeQuads(text)
  }

  function DecodeQuads(text: string): Option<seq<Byte>>
    requires |text| % 4 == 0
  {
    if text == "" then Some([])
    else
      var group := DecodeQuad(text[..4], |text| == 4);
      if group.None? then None else Prefixed(group.value, DecodeQuads(text[4..]))
  }

  function Prefixed(bytes: seq<Byte>, rest: Option<seq<Byte>>): Option<seq<Byte>> {
    if rest.None? then None else Some(bytes + rest.value)
  }

  // ---- byte by byte --------------------------------------------------------------------------

  function ByteOr0(bytes: seq<Byte>, i: nat): Byte {
    if i < |bytes| then bytes[i] else 0
  }

  /** The sextet at a place: six bits of one byte, or two, four or six of one and the rest of
      the next. */
  function SextetAt(bytes: seq<Byte>, k: nat): Sextet {
    var first, second, third := ByteOr0(bytes, k / 4 * 3), ByteOr0(bytes, k / 4 * 3 + 1), ByteOr0(bytes, k / 4 * 3 + 2);
    match k % 4
    case 0 => first / 4
    case 1 => first % 4 * 16 + second / 16
    case 2 => second % 16 * 4 + third / 64
    case _ => third % 64
  }

  /** Each character of an encoding is the letter of its sextet as long as a bit of it is there,
      and padding after that, to a multiple of four. */
  lemma {:induction false} EncodedExactly(bytes: seq<Byte>, k: nat)
    ensures |Encode(bytes)| == (|bytes| + 2) / 3 * 4
    ensures k < |Encode(bytes)| ==> Encode(bytes)[k] == if 6 * k < 8 * |bytes| then Letter(SextetAt(bytes, k)) else '='
    decreases |bytes|
  {
    if 0 < |bytes| <= 3 {
      if k < 4 {
        GroupExactly(bytes, k);
      }
    } else if |bytes| > 3 {
      var rest := bytes[3..];
      EncodedExactly(rest, if k < 4 then 0 else k - 4);
      Thirds(|bytes|);
      if k < 4 {
        GroupExactly(bytes[..3], k);
        assert Encode(bytes)[k] == EncodeGroup(bytes[..3])[k];
      } else {
        LaterSextet(bytes, k);
        assert k < |Encode(bytes)| ==> Encode(bytes)[k] == Encode(rest)[k - 4];
      }
    }
  }

  lemma Thirds(n: nat)
    requires n > 3
    ensures (n + 2) / 3 * 4 == (n - 3 + 2) / 3 * 4 + 4
  {
    assert (n + 2) / 3 == (n - 3 + 2) / 3 + 1;
  }

  lemma LaterSextet(bytes: seq<Byte>, k: nat)
    requires |bytes| > 3 && k >= 4
    ensures SextetAt(bytes, k) == SextetAt(bytes[3..], k - 4)
  {
    assert (k - 4) / 4 == k / 4 - 1 && (k - 4) % 4 == k % 4;
  }

  lemma GroupExactly(group: seq<Byte>, k: nat)
    requires 1 <= |group| <= 3 && k < 4
    ensures EncodeGroup(group)[k] == if 6 * k < 8 * |group| then Letter(SextetAt(group, k)) else '='
  {
    SextetsOf(ByteOr0(group, 0), ByteOr0(group, 1), ByteOr0(group, 2));
  }

  /** A group's four sextets are parts of its bytes. */
  lemma SextetsOf(first: Byte, second: Byte, third: Byte)
    ensures var n := first * 0x1_0000 + second * 0x100 + third;
            && n / 0x4_0000 == first / 4 && n / 0x1000 % 64 == first % 4 * 16 + second / 16
            && n / 64 % 64 == second % 16 * 4 + third / 64 && n % 64 == third % 64
  {
    var n: int := first * 0x1_0000 + second * 0x100 + third;
    var a, b, c, d := first / 4, first % 4 * 16 + second / 16, second % 16 * 4 + third / 64, third % 64;
    assert n == ((a * 64 + b) * 64 + c) * 64 + d && 0 <= b < 64 && 0 <= c < 64 && 0 <= d < 64;
    assert n / 64 == (a * 64 + b) * 64 + c;
    assert n / 64 / 64 == a * 64 + b;
    assert n / 0x1000 == n / 64 / 64 && n / 0x4_0000 == n / 64 / 64 / 64;
  }

  method EncodeBase64(bytes: seq<Byte>) returns (out: string)
    ensures out == Encode(bytes)
  {
    out := "";
    var at := 0;
    while at < |bytes|
      invariant 0 <= at <= |bytes|
      invariant out + Encode(bytes[at..]) == Encode(bytes)
    {
      var end := if at + 3 < |bytes| then at + 3 else |bytes|;
      var chunk := bytes[at..end];
      var quad := EncodeGroup(chunk);
      EncodeStep(bytes, at, end);
      assert out + (quad + Encode(bytes[end..])) == out + quad + Encode(bytes[end..]);
      out := out + quad;
      at := end;
    }
    assert out + "" == out;
  }

  lemma EncodeStep(bytes: seq<Byte>, at: nat, end: nat)
    requires at < end <= |bytes| && end == if at + 3 < |bytes| then at + 3 else |bytes|
    ensures Encode(bytes[at..]) == EncodeGroup(bytes[at..end]) + Encode(bytes[end..])
  {
    var rest := bytes[at..];
    if |rest| > 3 {
      assert rest[..3] == bytes[at..end] && rest[3..] == bytes[end..];
    } else {
      assert bytes[at..end] == rest && bytes[end..] == [];
      assert EncodeGroup(rest) + "" == EncodeGroup(rest);
    }
  }

  method DecodeBase64(text: string) returns (result: Option<seq<Byte>>)
    ensures result == Decode(text)
  {
    if |text| % 4 != 0 {
      return None;
    }
    var out: seq<Byte> := [];
    var quads := |text| / 4;
    PrefixedNothing(out, DecodeQuads(text));
    for index := 0 to quads
      invariant DecodeQuads(text) == Prefixed(out, DecodeQuads(text[4 * index..]))
    {
      var at := 4 * index;
      NextQuad(text, quads, index);
      var group := DecodeQuad(text[at..at + 4], index == quads - 1);
      if group.None? {
        return None;
      }
      PrefixedTwice(out, group.value, DecodeQuads(text[at + 4..]));
      out := out + group.value;
    }
    PrefixedNothing(out, Some([]));
    return Some(out);
  }

  lemma QuadTaken(text: string, quads: nat, index: nat)
    requires |text| == 4 * quads && index < quads
    ensures var at := 4 * index;
            && at + 4 <= |text| && text[at..] == text[at..at + 4] + text[at + 4..]
            && |text[at + 4..]| % 4 == 0 && (text[at + 4..] == "" <==> index == quads - 1)
  {
    assert |text[4 * index + 4..]| == 4 * (quads - index - 1);
  }

  lemma NextQuad(text: string, quads: nat, index: nat)
    requires |text| == 4 * quads && index < quads
    ensures var at := 4 * index;
            && at + 4 <= |text| && |text[at..]| % 4 == 0 && |text[at + 4..]| % 4 == 0
            && var group := DecodeQuad(text[at..at + 4], index == quads - 1);
               DecodeQuads(text[at..])
               == if group.None? then None else Prefixed(group.value, DecodeQuads(text[at + 4..]))
  {
    QuadTaken(text, quads, index);
    DecodeStep(text[4 * index..4 * index + 4], text[4 * index + 4..]);
  }

  lemma DecodeStep(quad: string, rest: string)
    requires |quad| == 4 && |rest| % 4 == 0
    ensures |quad + rest| % 4 == 0
    ensures var group := DecodeQuad(quad, rest == "");
            DecodeQuads(quad + rest) == if group.None? then None else Prefixed(group.value, DecodeQuads(rest))
  {
    assert (quad + rest)[..4] == quad && (quad + rest)[4..] == rest;
  }

  lemma PrefixedNothing(bytes: seq<Byte>, rest: Option<seq<Byte>>)
    ensures Prefixed([], rest) == rest && Prefixed(bytes, Some([])) == Some(bytes)
  {
    if rest.Some? {
      assert [] + rest.value == rest.value;
    }
    assert bytes + [] == bytes;
  }

  lemma PrefixedTwice(a: seq<Byte>, b: seq<Byte>, rest: Option<seq<Byte>>)
    ensures Prefixed(a, Prefixed(b, rest)) == Prefixed(a + b, rest)
  {
    if rest.Some? {
      assert a + (b + rest.value) == a + b + rest.value;
    }
  }

  // ---- the theorem -------------------------------------------------------------------------------

  /** One spelling for each byte sequence, and no other text decodes. */
  lemma DecodesExactlyWhatEncodes(text: string, bytes: seq<Byte>)
    ensures Decode(text) == Some(bytes) <==> text == Encode(bytes)
  {
    EncodedDecodes(bytes);
    if Decode(text) == Some(bytes) {
      DecodedBack(text, bytes);
    }
  }

  lemma {:induction false} EncodedDecodes(bytes: seq<Byte>)
    ensures Decode(Encode(bytes)) == Some(bytes)
  {
    EncodedLength(bytes);
    if bytes == [] {
    } else if |bytes| <= 3 {
      QuadDecodes(bytes, true);
      DecodeStep(Encode(bytes), "");
      PrefixedNothing(bytes, Some([]));
      assert Encode(bytes) + "" == Encode(bytes);
    } else {
      EncodedDecodes(bytes[3..]);
      EncodedLength(bytes[3..]);
      QuadDecodes(bytes[..3], false);
      DecodeStep(EncodeGroup(bytes[..3]), Encode(bytes[3..]));
      assert bytes == bytes[..3] + bytes[3..];
    }
  }

  lemma DecodedIsEmpty(text: string)
    ensures Decode(text) == Some([]) <==> text == ""
    ensures text != "" && Decode(text).Some? ==> Decode(text).value != []
  {
    if text != "" && Decode(text).Some? {
      QuadEncodes(text[..4], |text| == 4);
    }
  }

  lemma {:induction false} EncodedLength(bytes: seq<Byte>)
    ensures |Encode(bytes)| == (|bytes| + 2) / 3 * 4
  {
    if |bytes| > 3 {
      EncodedLength(bytes[3..]);
      Thirds(|bytes|);
    }
  }

  lemma {:induction false} DecodedBack(text: string, bytes: seq<Byte>)
    requires Decode(text) == Some(bytes)
    ensures text == Encode(bytes)
    decreases |text|
  {
    if text != "" {
      var group, rest := FirstQuad(text, bytes);
      DecodedBack(text[4..], rest);
      DecodedIsEmpty(text[4..]);
      if rest == [] {
        assert bytes == group && text[..4] == text;
      } else {
        EncodedAfter(group, rest);
        assert text == text[..4] + text[4..];
      }
    }
  }

  /** The group the first quad stands for, and what the rest does. */
  lemma FirstQuad(text: string, bytes: seq<Byte>) returns (group: seq<Byte>, rest: seq<Byte>)
    requires Decode(text) == Some(bytes) && text != ""
    ensures |text| >= 4 && Decode(text[4..]) == Some(rest) && bytes == group + rest
    ensures 1 <= |group| <= 3 && (|group| < 3 ==> |text| == 4) && EncodeGroup(group) == text[..4]
  {
    FourLess(|text|);
    var quad, last := text[..4], |text| == 4;
    QuadEncodes(quad, last);
    group, rest := DecodeQuad(quad, last).value, DecodeQuads(text[4..]).value;
  }

  lemma FourLess(n: nat)
    requires n > 0 && n % 4 == 0
    ensures n >= 4 && (n - 4) % 4 == 0
  {
  }

  lemma EncodedAfter(group: seq<Byte>, rest: seq<Byte>)
    requires |group| == 3 && rest != []
    ensures Encode(group + rest) == EncodeGroup(group) + Encode(rest)
  {
    assert (group + rest)[..3] == group && (group + rest)[3..] == rest;
  }
}
