/** Member order is the one thing canonical text forgets. */
module MemberOrder {
  import opened Order
  import opened Values
  import opened Reader
  import opened Canonical
  import opened CanonicalTheorems

  // ---- the order of names ----------------------------------------------------------------

  lemma {:induction false} Utf16IsInjective(a: string, b: string)
    requires Utf16(a) == Utf16(b)
    ensures a == b
    decreases |a|
  {
    if a == "" || b == "" {
      assert Utf16(a) == [] <==> a == "";
      assert Utf16(b) == [] <==> b == "";
    } else {
      var u, v := Units(a[0]), Units(b[0]);
      assert Utf16(a)[0] == u[0] && Utf16(b)[0] == v[0];
      assert |u| == |v|;
      if |u| == 2 {
        assert Utf16(a)[1] == u[1] && Utf16(b)[1] == v[1];
      }
      assert a[0] == b[0];
      assert Utf16(a)[|u|..] == Utf16(a[1..]) && Utf16(b)[|u|..] == Utf16(b[1..]);
      Utf16IsInjective(a[1..], b[1..]);
      assert a == [a[0]] + a[1..] && b == [b[0]] + b[1..];
    }
  }

  lemma NamesAreOrdered(a: string, b: string)
    requires a != b
    ensures NameBefore(a, b) <==> !NameBefore(b, a)
  {
    if Utf16(a) == Utf16(b) {
      Utf16IsInjective(a, b);
    }
    BeforeIsTotal(Utf16(a), Utf16(b));
    BeforeIsStrict(Utf16(a), Utf16(b));
  }

  // ---- sorted members ----------------------------------------------------------------------

  /** Every name comes before every later one. */
  ghost predicate InOrder<T>(entries: seq<(string, T)>) {
    forall i, j :: 0 <= i < j < |entries| ==> NameBefore(entries[i].0, entries[j].0)
  }

  lemma {:induction false} InsertInOrder<T>(entry: (string, T), sorted: seq<(string, T)>)
    requires InOrder(sorted)
    requires forall other :: other in sorted ==> other.0 != entry.0
    ensures InOrder(Insert(entry, sorted))
    decreases |sorted|
  {
    if sorted == [] {
    } else if NameBefore(entry.0, sorted[0].0) {
      forall j | 0 < j < |sorted| ensures NameBefore(entry.0, sorted[j].0) {
        BeforeIsTransitive(Utf16(entry.0), Utf16(sorted[0].0), Utf16(sorted[j].0));
      }
    } else {
      var rest := sorted[1..];
      InsertInOrder(entry, rest);
      InsertKeepsEntries(entry, rest);
      NamesAreOrdered(entry.0, sorted[0].0);
      var after := Insert(entry, rest);
      forall j | 0 <= j < |after| ensures NameBefore(sorted[0].0, after[j].0) {
        assert after[j] in multiset(after);
        assert after[j] == entry || after[j] in rest;
      }
    }
  }

  ghost predicate DistinctNames<T>(entries: seq<(string, T)>) {
    forall i, j :: 0 <= i < j < |entries| ==> entries[i].0 != entries[j].0
  }

  lemma {:induction false} SortInOrder<T>(entries: seq<(string, T)>)
    requires DistinctNames(entries)
    ensures InOrder(SortByName(entries))
    decreases |entries|
  {
    if entries != [] {
      var last := |entries| - 1;
      SortInOrder(entries[..last]);
      SortKeepsEntries(entries[..last]);
      forall other | other in SortByName(entries[..last]) ensures other.0 != entries[last].0 {
        var i := SortedEntry(entries[..last], other);
      }
      InsertInOrder(entries[last], SortByName(entries[..last]));
    }
  }

  lemma OrderIsDistinct<T>(entries: seq<(string, T)>)
    requires InOrder(entries)
    ensures DistinctNames(entries)
  {
    forall i, j | 0 <= i < j < |entries| ensures entries[i].0 != entries[j].0 {
      BeforeIsStrict(Utf16(entries[i].0), Utf16(entries[j].0));
    }
  }

  /** There is one way to put given members in order. */
  lemma {:induction false} OneOrder<T>(a: seq<(string, T)>, b: seq<(string, T)>)
    requires InOrder(a) && InOrder(b)
    requires forall entry :: entry in a <==> entry in b
    ensures a == b
    decreases |a|
  {
    EmptyTogether(a, b);
    if a != [] {
      OrderIsDistinct(a);
      OrderIsDistinct(b);
      OneFirst(a, b);
      RestOfOrder(a, b);
      RestOfOrder(b, a);
      OneOrder(a[1..], b[1..]);
      assert a == [a[0]] + a[1..] && b == [b[0]] + b[1..];
    }
  }

  lemma OneFirst<T>(a: seq<(string, T)>, b: seq<(string, T)>)
    requires InOrder(a) && InOrder(b) && a != [] && b != []
    requires a[0] in b && b[0] in a
    ensures a[0] == b[0]
  {
    var i :| 0 <= i < |b| && b[i] == a[0];
    var j :| 0 <= j < |a| && a[j] == b[0];
    if i > 0 && j > 0 {
      BeforeIsStrict(Utf16(a[0].0), Utf16(b[0].0));
    }
  }

  lemma EmptyTogether<T>(a: seq<T>, b: seq<T>)
    requires forall entry :: entry in a <==> entry in b
    ensures a == [] <==> b == []
  {
    assert a != [] ==> a[0] in a && a[0] in b;
    assert b != [] ==> b[0] in b && b[0] in a;
  }

  lemma RestOfOrder<T>(a: seq<(string, T)>, b: seq<(string, T)>)
    requires a != [] && b != [] && a[0] == b[0]
    requires DistinctNames(a) && forall entry :: entry in a ==> entry in b
    ensures forall entry :: entry in a[1..] ==> entry in b[1..]
  {
    forall entry | entry in a[1..] ensures entry in b[1..] {
      var i :| 0 <= i < |a[1..]| && a[1..][i] == entry;
      assert a[i + 1] == entry && entry in a;
      assert entry.0 != a[0].0;
      var j :| 0 <= j < |b| && b[j] == entry;
      assert b[1..][j - 1] == entry;
    }
  }

  // ---- the same value up to member order -------------------------------------------------------

  /** Equal, except that members may stand in another order, at every level. */
  ghost predicate Same(v: Value, w: Value)
    decreases v, 1
  {
    match v
    case Array(items) => w.Array? && SameItems(items, w.items)
    case Object(members) => w.Object? && |members| == |w.members| && SameMembers(members, w.members)
    case _ => v == w
  }

  ghost predicate SameItems(a: seq<Value>, b: seq<Value>)
    decreases a, 0
  {
    |a| == |b| && (a != [] ==> Same(a[0], b[0]) && SameItems(a[1..], b[1..]))
  }

  /** Every member of `a` is one of `b`. */
  ghost predicate SameMembers(a: seq<(string, Value)>, b: seq<(string, Value)>)
    decreases a, 0
  {
    a != [] ==> (exists n :: n in b && SameMember(a[0], n)) && SameMembers(a[1..], b)
  }

  ghost predicate SameMember(m: (string, Value), n: (string, Value))
    decreases m, 2
  {
    m.0 == n.0 && Same(m.1, n.1)
  }

  /** The same values have one canonical order, and no others do. */
  lemma {:induction false} SameIsOrderedAlike(v: Value, w: Value, room: int)
    requires InDomain(v, room) && InDomain(w, room)
    ensures Same(v, w) <==> Ordered(v) == Ordered(w)
    decreases v, 1
  {
    match v
    case Array(items) =>
      if w.Array? {
        SameItemsAlike(items, w.items, room - 1);
      }
    case Object(members) =>
      if w.Object? {
        SameObjectsAlike(members, w.members, room - 1);
      }
    case _ =>
  }

  lemma {:induction false} SameObjectsAlike(a: seq<(string, Value)>, b: seq<(string, Value)>, room: int)
    requires Distinct(Names(a)) && Distinct(Names(b))
    requires forall m :: m in a ==> Clean(m.0) && InDomain(m.1, room)
    requires forall m :: m in b ==> Clean(m.0) && InDomain(m.1, room)
    ensures |a| == |b| && SameMembers(a, b) <==> SortByName(OrderedMembers(a)) == SortByName(OrderedMembers(b))
    decreases a, 1
  {
    assert forall m :: m in a ==> MemberInDomain(m, room);
    assert forall m :: m in b ==> MemberInDomain(m, room);
    if |a| == |b| {
      SameMembersAlike(a, b, room);
      OrderedObjectsAlike(a, b);
    } else {
      SortKeepsEntries(OrderedMembers(a));
      SortKeepsEntries(OrderedMembers(b));
    }
  }

  lemma {:induction false} SameItemsAlike(a: seq<Value>, b: seq<Value>, room: int)
    requires forall item :: item in a ==> InDomain(item, room)
    requires forall item :: item in b ==> InDomain(item, room)
    ensures SameItems(a, b) <==> OrderedItems(a) == OrderedItems(b)
    decreases a, 0
  {
    if |a| == |b| && a != [] {
      SameIsOrderedAlike(a[0], b[0], room);
      SameItemsAlike(a[1..], b[1..], room);
      assert OrderedItems(a) == [Ordered(a[0])] + OrderedItems(a[1..]);
      assert OrderedItems(b) == [Ordered(b[0])] + OrderedItems(b[1..]);
      assert OrderedItems(a)[1..] == OrderedItems(a[1..]) && OrderedItems(b)[1..] == OrderedItems(b[1..]);
    } else {
      assert |OrderedItems(a)| == |a| && |OrderedItems(b)| == |b|;
    }
  }

  lemma {:induction false} SameMembersAlike(a: seq<(string, Value)>, b: seq<(string, Value)>, room: int)
    requires forall m :: m in a ==> MemberInDomain(m, room)
    requires forall m :: m in b ==> MemberInDomain(m, room)
    ensures SameMembers(a, b) <==> forall m :: m in OrderedMembers(a) ==> m in OrderedMembers(b)
    decreases a, 0
  {
    var oa, ob := OrderedMembers(a), OrderedMembers(b);
    if a != [] {
      SameMembersAlike(a[1..], b, room);
      assert oa == [OrderedMember(a[0])] + OrderedMembers(a[1..]);
      forall n | n in b ensures SameMember(a[0], n) <==> OrderedMember(a[0]) == OrderedMember(n) {
        SameMemberAlike(a[0], n, room);
      }
      if OrderedMember(a[0]) in ob {
        var i :| 0 <= i < |ob| && ob[i] == OrderedMember(a[0]);
        assert b[i] in b && SameMember(a[0], b[i]);
      }
      if n :| n in b && SameMember(a[0], n) {
        var i :| 0 <= i < |b| && b[i] == n;
        assert ob[i] == OrderedMember(a[0]);
      }
    }
  }

  lemma {:induction false} SameMemberAlike(m: (string, Value), n: (string, Value), room: int)
    requires MemberInDomain(m, room) && MemberInDomain(n, room)
    ensures SameMember(m, n) <==> OrderedMember(m) == OrderedMember(n)
    decreases m, 2
  {
    SameIsOrderedAlike(m.1, n.1, room);
  }

  /** As many distinct names, each member found among the others: the same members. */
  lemma OrderedObjectsAlike(a: seq<(string, Value)>, b: seq<(string, Value)>)
    requires |a| == |b| && Distinct(Names(a)) && Distinct(Names(b))
    ensures (forall m :: m in OrderedMembers(a) ==> m in OrderedMembers(b)) <==>
              SortByName(OrderedMembers(a)) == SortByName(OrderedMembers(b))
  {
    var oa, ob := OrderedMembers(a), OrderedMembers(b);
    SortKeepsEntries(oa);
    SortKeepsEntries(ob);
    if forall m :: m in oa ==> m in ob {
      OrderedDistinct(a);
      OrderedDistinct(b);
      Pigeonhole(oa, ob);
      SortInOrder(oa);
      SortInOrder(ob);
      OneOrder(SortByName(oa), SortByName(ob));
    }
  }

  lemma OrderedDistinct(a: seq<(string, Value)>)
    requires Distinct(Names(a))
    ensures DistinctNames(OrderedMembers(a))
  {
    forall i, j | 0 <= i < j < |a| ensures OrderedMembers(a)[i].0 != OrderedMembers(a)[j].0 {
      assert Names(a)[i] != Names(a)[j];
    }
  }

  lemma Pigeonhole<T(!new)>(a: seq<(string, T)>, b: seq<(string, T)>)
    requires |a| == |b| && DistinctNames(a) && DistinctNames(b)
    requires forall m :: m in a ==> m in b
    ensures forall m :: m in b ==> m in a
  {
    var sa, sb := set m | m in a, set m | m in b;
    SizeOfDistinct(a);
    SizeOfDistinct(b);
    assert sa <= sb;
    if sa < sb {
      SmallerSet(sa, sb);
    }
    forall m | m in b ensures m in a {
      assert m in sb && m in sa;
    }
  }

  lemma SmallerSet<T>(a: set<T>, b: set<T>)
    requires a < b
    ensures |a| < |b|
  {
    var rest := b - a;
    assert b == a + rest && rest != {};
    assert |b| == |a| + |rest|;
  }

  lemma {:induction false} SizeOfDistinct<T>(a: seq<(string, T)>)
    requires DistinctNames(a)
    ensures |set m | m in a| == |a|
    decreases |a|
  {
    if a != [] {
      SizeOfDistinct(a[1..]);
      assert a[0] !in a[1..];
      assert (set m | m in a) == {a[0]} + (set m | m in a[1..]);
    }
  }

  // ---- the domain is kept --------------------------------------------------------------------

  lemma {:induction false} OrderedInDomain(value: Value, room: int)
    requires InDomain(value, room)
    ensures InDomain(Ordered(value), room)
    decreases value, 1
  {
    match value
    case Array(items) =>
      forall i | 0 <= i < |items| ensures InDomain(OrderedItems(items)[i], room - 1) {
        assert items[i] in items;
        OrderedInDomain(items[i], room - 1);
      }
    case Object(members) =>
      MembersStayInDomain(members, room - 1);
    case _ =>
  }

  lemma {:induction false} MembersStayInDomain(members: seq<(string, Value)>, room: int)
    requires Distinct(Names(members))
    requires forall member :: member in members ==> Clean(member.0) && InDomain(member.1, room)
    ensures var sorted := SortByName(OrderedMembers(members));
            && Distinct(Names(sorted))
            && forall member :: member in sorted ==> Clean(member.0) && InDomain(member.1, room)
    decreases members, 0
  {
    var ordered := OrderedMembers(members);
    var sorted := SortByName(ordered);
    SortKeepsEntries(ordered);
    OrderedDistinct(members);
    SortInOrder(ordered);
    OrderIsDistinct(sorted);
    forall i, j | 0 <= i < j < |sorted| ensures Names(sorted)[i] != Names(sorted)[j] {
    }
    forall member | member in sorted ensures Clean(member.0) && InDomain(member.1, room) {
      var i := SortedEntry(ordered, member);
      assert members[i] in members;
      OrderedMemberInDomain(members[i], room);
    }
  }

  lemma {:induction false} OrderedMemberInDomain(member: (string, Value), room: int)
    requires MemberInDomain(member, room)
    ensures MemberInDomain(OrderedMember(member), room)
    decreases member, 2
  {
    OrderedInDomain(member.1, room);
  }

  // ---- the theorems -----------------------------------------------------------------------------

  /** Reading canonical text gives the value in canonical order. */
  lemma ReadUndoesCanonical(value: Value, room: nat)
    requires InDomain(value, room)
    ensures ReadText(CanonicalText(value), room) == Ok(Ordered(value))
  {
    OrderedInDomain(value, room);
    ReadUndoesText(Ordered(value), room);
  }

  /** Two values have the same canonical text exactly when they differ in nothing but the
      order of members. */
  lemma CanonicalTellsApart(v: Value, w: Value, room: nat)
    requires InDomain(v, room) && InDomain(w, room)
    ensures CanonicalText(v) == CanonicalText(w) <==> Same(v, w)
  {
    SameIsOrderedAlike(v, w, room);
    ReadUndoesCanonical(v, room);
    ReadUndoesCanonical(w, room);
  }
}
