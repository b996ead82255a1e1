/** Canonical form, RFC 8785 sections 3.2.2.2 and 3.2.3 as the domain narrows them:
    members sorted by UTF-16 code units, no white space, the shortest escapes. */
module Canonical {
  import opened Decimals
  import opened Order
  import opened Values

  // ---- the order of member names -------------------------------------------------------

  function Utf16(text: string): seq<int> {
    if text == "" then [] else Units(text[0]) + Utf16(text[1..])
  }

  function Units(c: char): seq<int> {
    var codePoint := c as int;
    if codePoint < 0x10000 then [codePoint]
    else [0xD800 + (codePoint - 0x10000) / 0x400, 0xDC00 + (codePoint - 0x10000) % 0x400]
  }

  predicate NameBefore(a: string, b: string) {
    Before(Utf16(a), Utf16(b))
  }

  // ---- sorting -------------------------------------------------------------------------

  function Insert<T>(entry: (string, T), sorted: seq<(string, T)>): seq<(string, T)> {
    if sorted == [] || NameBefore(entry.0, sorted[0].0) then [entry] + sorted
    else [sorted[0]] + Insert(entry, sorted[1..])
  }

  /** A stable sort by name. */
  function SortByName<T>(entries: seq<(string, T)>): seq<(string, T)> {
    if entries == [] then []
    else Insert(entries[|entries| - 1], SortByName(entries[..|entries| - 1]))
  }

  // ---- canonical order at every level ----------------------------------------------------

  function Ordered(value: Value): Value
    decreases value, 1
  {
    match value
    case Array(items) => Array(OrderedItems(items))
    case Object(members) => Object(SortByName(OrderedMembers(members)))
    case _ => value
  }

  function OrderedItems(items: seq<Value>): (ordered: seq<Value>)
    ensures |ordered| == |items|
    ensures forall i :: 0 <= i < |items| ==> ordered[i] == Ordered(items[i])
    decreases items, 0
  {
    if items == [] then [] else [Ordered(items[0])] + OrderedItems(items[1..])
  }

  function OrderedMember(member: (string, Value)): (string, Value)
    decreases member, 2
  {
    (member.0, Ordered(member.1))
  }

  function OrderedMembers(members: seq<(string, Value)>): (ordered: seq<(string, Value)>)
    ensures |ordered| == |members|
    ensures forall i :: 0 <= i < |members| ==> ordered[i] == OrderedMember(members[i])
    decreases members, 0
  {
    if members == [] then [] else [OrderedMember(members[0])] + OrderedMembers(members[1..])
  }

  // ---- text ------------------------------------------------------------------------------

  function LowerHex(n: nat): char
    requires n < 16
  {
    if n < 10 then ('0' as int + n) as char else ('a' as int + n - 10) as char
  }

  function CharacterText(c: char): string {
    if c == '"' then "\\\""
    else if c == '\\' then "\\\\"
    else if c as int == 8 then "\\b"
    else if c as int == 9 then "\\t"
    else if c as int == 10 then "\\n"
    else if c as int == 12 then "\\f"
    else if c as int == 13 then "\\r"
    else if c as int < 0x20 then "\\u00" + [LowerHex(c as int / 16), LowerHex(c as int % 16)]
    else [c]
  }

  function CharactersText(text: string): string {
    if text == "" then "" else CharacterText(text[0]) + CharactersText(text[1..])
  }

  function StringText(text: string): string {
    "\"" + CharactersText(text) + "\""
  }

  /** The text of a value, its members in the order they are in. */
  function Text(value: Value): string
    decreases value, 1
  {
    match value
    case Null => "null"
    case Bool(truth) => if truth then "true" else "false"
    case Int(number) => Decimal(number)
    case String(text) => StringText(text)
    case Array(items) => "[" + ItemsText(items) + "]"
    case Object(members) => "{" + MembersText(members) + "}"
  }

  function ItemsText(items: seq<Value>): string
    decreases items, 0
  {
    if items == [] then ""
    else if |items| == 1 then Text(items[0])
    else Text(items[0]) + "," + ItemsText(items[1..])
  }

  function MemberText(member: (string, Value)): string
    decreases member, 2
  {
    StringText(member.0) + ":" + Text(member.1)
  }

  function MembersText(members: seq<(string, Value)>): string
    decreases members, 0
  {
    if members == [] then ""
    else if |members| == 1 then MemberText(members[0])
    else MemberText(members[0]) + "," + MembersText(members[1..])
  }

  function CanonicalText(value: Value): string {
    Text(Ordered(value))
  }

  // ---- the printer -------------------------------------------------------------------------

  class Printer {
    var out: string

    constructor ()
      ensures out == ""
    {
      out := "";
    }

    method Append(text: string)
      modifies this
      ensures out == old(out) + text
    {
      out := out + text;
    }

    method Write(value: Value)
      modifies this
      ensures out == old(out) + CanonicalText(value)
      decreases value, 1
    {
      match value
      case Null => Append("null");
      case Bool(truth) => Append(if truth then "true" else "false");
      case Int(number) => Append(Decimal(number));
      case String(text) => WriteString(text);
      case Array(items) =>
        Append("[");
        WriteItems(items);
        Append("]");
        Bracketed(old(out), "[", ItemsText(OrderedItems(items)), "]");
      case Object(members) =>
        Append("{");
        WriteMembers(members);
        Append("}");
        Bracketed(old(out), "{", MembersText(SortByName(OrderedMembers(members))), "}");
    }

    /** Sorted by UTF-16 code units, which is not code point order. */
    method WriteMembers(members: seq<(string, Value)>)
      modifies this
      ensures out == old(out) + MembersText(SortByName(OrderedMembers(members)))
      decreases members, 0
    {
      var ordered := SortByName(members);
      SortCommutes(members);
      for index := 0 to |ordered|
        invariant out + Remaining(MembersText(OrderedMembers(ordered[index..])), index, |ordered|) ==
                    old(out) + MembersText(OrderedMembers(ordered))
      {
        ghost var before := out;
        SortedIsMember(members, index);
        MembersSplit(ordered, index);
        if index > 0 {
          Append(",");
        }
        WriteMember(ordered[index]);
        Associate(before, if index > 0 then "," else "", MemberText(OrderedMember(ordered[index])),
                  Remaining(MembersText(OrderedMembers(ordered[index + 1..])), index + 1, |ordered|));
      }
    }

    method WriteMember(member: (string, Value))
      modifies this
      ensures out == old(out) + MemberText(OrderedMember(member))
      decreases member, 2
    {
      WriteString(member.0);
      Append(":");
      Write(member.1);
    }

    method WriteItems(items: seq<Value>)
      modifies this
      ensures out == old(out) + ItemsText(OrderedItems(items))
      decreases items, 0
    {
      for index := 0 to |items|
        invariant out + Remaining(ItemsText(OrderedItems(items[index..])), index, |items|) ==
                    old(out) + ItemsText(OrderedItems(items))
      {
        ghost var before := out;
        ItemsSplit(items, index);
        if index > 0 {
          Append(",");
        }
        Write(items[index]);
        Associate(before, if index > 0 then "," else "", CanonicalText(items[index]),
                  Remaining(ItemsText(OrderedItems(items[index + 1..])), index + 1, |items|));
      }
    }

    method WriteString(text: string)
      modifies this
      ensures out == old(out) + StringText(text)
    {
      Append("\"");
      for i := 0 to |text|
        invariant out + CharactersText(text[i..]) == old(out) + "\"" + CharactersText(text)
      {
        ghost var before := out;
        assert text[i..][1..] == text[i + 1..];
        Append(CharacterText(text[i]));
        Associate(before, "", CharacterText(text[i]), CharactersText(text[i + 1..]));
      }
      assert out + "" == out;
      Bracketed(old(out), "\"", CharactersText(text), "\"");
      Append("\"");
    }
  }

  /** What is left to write after `index` of `count`: the comma first, when there is one. */
  function Remaining(text: string, index: nat, count: nat): string {
    if index == count then "" else if index == 0 then text else "," + text
  }

  lemma Bracketed(before: string, open: string, text: string, close: string)
    ensures before + open + text + close == before + (open + text + close)
  {
  }

  lemma Associate(before: string, comma: string, text: string, rest: string)
    ensures before + comma + text + rest == before + (comma + (text + rest))
    ensures comma == "" ==> before + text + rest == before + (text + rest)
  {
    assert before + "" == before;
  }

  lemma ItemsSplit(items: seq<Value>, i: nat)
    requires i < |items|
    ensures ItemsText(OrderedItems(items[i..])) ==
              CanonicalText(items[i]) + Remaining(ItemsText(OrderedItems(items[i + 1..])), i + 1, |items|)
  {
    assert items[i..][1..] == items[i + 1..];
    assert OrderedItems(items[i..])[1..] == OrderedItems(items[i + 1..]);
    if i + 1 < |items| {
      assert CanonicalText(items[i]) + "," + ItemsText(OrderedItems(items[i + 1..])) ==
               CanonicalText(items[i]) + ("," + ItemsText(OrderedItems(items[i + 1..])));
    } else {
      assert CanonicalText(items[i]) + "" == CanonicalText(items[i]);
    }
  }

  lemma MembersSplit(members: seq<(string, Value)>, i: nat)
    requires i < |members|
    ensures MembersText(OrderedMembers(members[i..])) ==
              MemberText(OrderedMember(members[i])) + Remaining(MembersText(OrderedMembers(members[i + 1..])), i + 1, |members|)
  {
    assert members[i..][1..] == members[i + 1..];
    assert OrderedMembers(members[i..])[1..] == OrderedMembers(members[i + 1..]);
  }

  // ---- sorting facts -------------------------------------------------------------------------

  lemma {:induction false} InsertKeepsEntries<T>(entry: (string, T), sorted: seq<(string, T)>)
    ensures multiset(Insert(entry, sorted)) == multiset([entry] + sorted)
    ensures |Insert(entry, sorted)| == |sorted| + 1
  {
    if sorted != [] && !NameBefore(entry.0, sorted[0].0) {
      InsertKeepsEntries(entry, sorted[1..]);
      assert sorted == [sorted[0]] + sorted[1..];
    }
  }

  lemma {:induction false} SortKeepsEntries<T>(entries: seq<(string, T)>)
    ensures multiset(SortByName(entries)) == multiset(entries)
    ensures |SortByName(entries)| == |entries|
    ensures forall entry :: entry in SortByName(entries) <==> entry in entries
    decreases |entries|
  {
    if entries != [] {
      var last := |entries| - 1;
      SortKeepsEntries(entries[..last]);
      InsertKeepsEntries(entries[last], SortByName(entries[..last]));
      assert entries == entries[..last] + [entries[last]];
    }
    SameEntries(SortByName(entries), entries);
  }

  lemma SortedIsMember(members: seq<(string, Value)>, index: nat)
    requires index < |SortByName(members)|
    ensures SortByName(members)[index] in members
  {
    SortKeepsEntries(members);
    var entry := SortByName(members)[index];
    assert entry in multiset(SortByName(members)) && entry in multiset(members);
  }

  lemma SortedEntry<T>(entries: seq<(string, T)>, entry: (string, T)) returns (i: nat)
    requires entry in SortByName(entries)
    ensures i < |entries| && entries[i] == entry
  {
    SortKeepsEntries(entries);
    assert entry in entries;
    i :| 0 <= i < |entries| && entries[i] == entry;
  }

  lemma SameEntries<T>(a: seq<T>, b: seq<T>)
    requires multiset(a) == multiset(b)
    ensures forall entry :: entry in a <==> entry in b
  {
    assert forall entry :: entry in a <==> entry in multiset(a);
    assert forall entry :: entry in b <==> entry in multiset(b);
  }

  lemma {:induction false} InsertCommutes(entry: (string, Value), sorted: seq<(string, Value)>)
    ensures OrderedMembers(Insert(entry, sorted)) ==
              Insert(OrderedMember(entry), OrderedMembers(sorted))
  {
    if sorted != [] && !NameBefore(entry.0, sorted[0].0) {
      InsertCommutes(entry, sorted[1..]);
      assert OrderedMembers(sorted)[1..] == OrderedMembers(sorted[1..]);
    }
  }

  /** Sorting by name and putting the values in order do not disturb each other. */
  lemma {:induction false} SortCommutes(members: seq<(string, Value)>)
    ensures OrderedMembers(SortByName(members)) == SortByName(OrderedMembers(members))
    decreases |members|
  {
    if members != [] {
      var last := |members| - 1;
      SortCommutes(members[..last]);
      InsertCommutes(members[last], SortByName(members[..last]));
      assert OrderedMembers(members)[..last] == OrderedMembers(members[..last]);
    }
  }
}
