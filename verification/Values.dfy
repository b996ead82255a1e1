/** The JSON value domain: integers only, unique member names, no noncharacters. */
module Values {
  datatype Value =
    | Null
    | Bool(truth: bool)
    | Int(number: int)
    | String(text: string)
    | Array(items: seq<Value>)
    | Object(members: seq<(string, Value)>)

  const MAX_SAFE_INTEGER: int := 9_007_199_254_740_991

  /** U+FDD0 to U+FDEF, and every code point whose low 16 bits are FFFE or FFFF. */
  predicate IsNoncharacter(codePoint: int) {
    0xFDD0 <= codePoint <= 0xFDEF || codePoint % 0x10000 >= 0xFFFE
  }

  function Names(members: seq<(string, Value)>): seq<string> {
    seq(|members|, i requires 0 <= i < |members| => members[i].0)
  }

  ghost predicate Distinct<T>(items: seq<T>) {
    forall i, j :: 0 <= i < j < |items| ==> items[i] != items[j]
  }

  predicate Clean(text: string) {
    forall i :: 0 <= i < |text| ==> !IsNoncharacter(text[i] as int)
  }

  /** Inside the domain, with nothing nested more than `room` deep. A scalar takes no
      room of its own but may not stand deeper than the room there is. */
  ghost predicate InDomain(value: Value, room: int) {
    room >= 0 &&
    match value
    case Null => true
    case Bool(_) => true
    case Int(number) => -MAX_SAFE_INTEGER <= number <= MAX_SAFE_INTEGER
    case String(text) => Clean(text)
    case Array(items) => forall item :: item in items ==> InDomain(item, room - 1)
    case Object(members) =>
      && Distinct(Names(members))
      && forall member :: member in members ==> Clean(member.0) && InDomain(member.1, room - 1)
  }
}
