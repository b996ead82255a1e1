/** Retrieved rows and the one order they are walked in. */
module Rows {
  import opened Order

  datatype Origin = Index | Canonical

  datatype Found = Found(repository: string, path: string, blob: string, start: int, end: int, startLine: nat, endLine: nat,
                         score: real, origin: Origin, clipped: bool)

  /** A place in the order of rows: what a cursor holds. */
  datatype Key = Key(score: real, repository: string, path: string, start: int)

  function KeyOf(row: Found): Key {
    Key(row.score, row.repository, row.path, row.start)
  }

  /** By score, repository, path and first byte. */
  predicate Less(a: Key, b: Key) {
    || a.score < b.score
    || (a.score == b.score
        && (|| Precedes(a.repository, b.repository)
            || (a.repository == b.repository
                && (Precedes(a.path, b.path) || (a.path == b.path && a.start < b.start)))))
  }

  predicate Before(a: Found, b: Found) {
    Less(KeyOf(a), KeyOf(b))
  }

  lemma LessIsStrict(a: Key, b: Key)
    ensures !(Less(a, b) && Less(b, a)) && !Less(a, a)
  {
    PrecedesIsStrict(a.repository, b.repository);
    PrecedesIsStrict(a.path, b.path);
    PrecedesIsStrict(a.repository, a.repository);
    PrecedesIsStrict(a.path, a.path);
  }

  lemma LessIsTotal(a: Key, b: Key)
    requires a != b
    ensures Less(a, b) <==> !Less(b, a)
  {
    LessIsStrict(a, b);
    if a.repository != b.repository {
      PrecedesIsTotal(a.repository, b.repository);
    } else if a.path != b.path {
      PrecedesIsTotal(a.path, b.path);
    }
  }

  lemma LessIsTransitive(a: Key, b: Key, c: Key)
    requires Less(a, b) && Less(b, c)
    ensures Less(a, c)
  {
    if Precedes(a.repository, b.repository) && Precedes(b.repository, c.repository) {
      PrecedesIsTransitive(a.repository, b.repository, c.repository);
    }
    if Precedes(a.path, b.path) && Precedes(b.path, c.path) {
      PrecedesIsTransitive(a.path, b.path, c.path);
    }
  }

  // ---- rows in order -----------------------------------------------------------------------

  ghost predicate Ascending(rows: seq<Found>) {
    forall i, j :: 0 <= i < j < |rows| ==> Before(rows[i], rows[j])
  }

  /** No row comes after two greater ones. */
  ghost predicate NearlyAscending(rows: seq<Found>) {
    forall i, j, k :: 0 <= i < j < k < |rows| ==> !(Before(rows[k], rows[i]) && Before(rows[k], rows[j]))
  }

  ghost predicate DistinctKeys(rows: seq<Found>) {
    forall i, j :: 0 <= i < j < |rows| ==> KeyOf(rows[i]) != KeyOf(rows[j])
  }

  function Insert(row: Found, sorted: seq<Found>): seq<Found> {
    if sorted == [] || Before(row, sorted[0]) then [row] + sorted else [sorted[0]] + Insert(row, sorted[1..])
  }

  function Sort(rows: seq<Found>): seq<Found> {
    if rows == [] then [] else Insert(rows[0], Sort(rows[1..]))
  }

  lemma {:induction false} InsertHolds(row: Found, sorted: seq<Found>)
    ensures |Insert(row, sorted)| == |sorted| + 1
    ensures forall x :: x in Insert(row, sorted) <==> x == row || x in sorted
  {
    if sorted != [] && !Before(row, sorted[0]) {
      InsertHolds(row, sorted[1..]);
      assert sorted == [sorted[0]] + sorted[1..];
    }
  }

  lemma {:induction false} InsertAscends(row: Found, sorted: seq<Found>)
    requires Ascending(sorted) && forall x :: x in sorted ==> KeyOf(x) != KeyOf(row)
    ensures Ascending(Insert(row, sorted))
  {
    var inserted := Insert(row, sorted);
    if sorted == [] {
    } else if Before(row, sorted[0]) {
      forall j | 0 < j < |sorted|
        ensures Before(row, sorted[j])
      {
        LessIsTransitive(KeyOf(row), KeyOf(sorted[0]), KeyOf(sorted[j]));
      }
    } else {
      InsertAscends(row, sorted[1..]);
      InsertHolds(row, sorted[1..]);
      LessIsTotal(KeyOf(row), KeyOf(sorted[0]));
      forall j | 0 < j < |inserted|
        ensures Before(inserted[0], inserted[j])
      {
        assert inserted[j] == Insert(row, sorted[1..])[j - 1];
        assert inserted[j] in Insert(row, sorted[1..]);
      }
    }
  }

  lemma {:induction false} SortHolds(rows: seq<Found>)
    ensures |Sort(rows)| == |rows|
    ensures forall x :: x in Sort(rows) <==> x in rows
  {
    if rows != [] {
      SortHolds(rows[1..]);
      InsertHolds(rows[0], Sort(rows[1..]));
      assert rows == [rows[0]] + rows[1..];
    }
  }

  lemma {:induction false} SortAscends(rows: seq<Found>)
    requires DistinctKeys(rows)
    ensures Ascending(Sort(rows))
  {
    if rows != [] {
      SortAscends(rows[1..]);
      SortHolds(rows[1..]);
      forall x | x in Sort(rows[1..])
        ensures KeyOf(x) != KeyOf(rows[0])
      {
        var j :| 0 <= j < |rows[1..]| && rows[1..][j] == x;
        assert x == rows[j + 1];
      }
      InsertAscends(rows[0], Sort(rows[1..]));
    }
  }

  lemma AscendingIsDistinct(rows: seq<Found>)
    requires Ascending(rows)
    ensures DistinctKeys(rows)
  {
    forall i, j | 0 <= i < j < |rows|
      ensures KeyOf(rows[i]) != KeyOf(rows[j])
    {
      LessIsStrict(KeyOf(rows[i]), KeyOf(rows[j]));
    }
  }

  lemma AscendingIsNearly(rows: seq<Found>)
    requires Ascending(rows)
    ensures NearlyAscending(rows)
  {
    forall i, j, k | 0 <= i < j < k < |rows|
      ensures !(Before(rows[k], rows[i]) && Before(rows[k], rows[j]))
    {
      LessIsStrict(KeyOf(rows[i]), KeyOf(rows[k]));
    }
  }

  // ---- keeping some -------------------------------------------------------------------------

  /** The rows after a place, or all of them. */
  function Beyond(rows: seq<Found>, after: Cut): seq<Found> {
    if rows == [] then []
    else if Passes(after, rows[0]) then [rows[0]] + Beyond(rows[1..], after)
    else Beyond(rows[1..], after)
  }

  /** Where one source goes on: from the start, or after a score, a path and a byte, with the
      rest of the rows at that score or without. */
  datatype Cut = Start | After(score: real, path: string, start: int, includeEqualScore: bool)

  predicate Passes(after: Cut, row: Found) {
    || after.Start?
    || row.score > after.score
    || (after.includeEqualScore && row.score == after.score
        && (Precedes(after.path, row.path) || (row.path == after.path && row.start > after.start)))
  }

  lemma {:induction false} BeyondHolds(rows: seq<Found>, after: Cut)
    ensures forall x :: x in Beyond(rows, after) <==> x in rows && Passes(after, x)
    ensures |Beyond(rows, after)| <= |rows|
  {
    if rows != [] {
      BeyondHolds(rows[1..], after);
      assert rows == [rows[0]] + rows[1..];
    }
  }

  lemma {:induction false} BeyondAscends(rows: seq<Found>, after: Cut)
    requires Ascending(rows)
    ensures Ascending(Beyond(rows, after))
  {
    if rows != [] {
      BeyondAscends(rows[1..], after);
      BeyondHolds(rows[1..], after);
      var rest := Beyond(rows[1..], after);
      forall j | 0 <= j < |rest|
        ensures Before(rows[0], rest[j])
      {
        assert rest[j] in rest;
        var i :| 0 <= i < |rows[1..]| && rows[1..][i] == rest[j];
        assert Before(rows[0], rows[i + 1]);
      }
    }
  }

  /** The places, from `from` on, of the rows after a cut. */
  function Places(rows: seq<Found>, after: Cut, from: nat): seq<nat>
    requires from <= |rows|
    decreases |rows| - from
  {
    if from == |rows| then []
    else if Passes(after, rows[from]) then [from] + Places(rows, after, from + 1)
    else Places(rows, after, from + 1)
  }

  lemma {:induction false} PlacesInOrder(rows: seq<Found>, after: Cut, from: nat)
    requires from <= |rows|
    ensures forall i :: 0 <= i < |Places(rows, after, from)| ==> from <= Places(rows, after, from)[i] < |rows|
    ensures forall i, j :: 0 <= i < j < |Places(rows, after, from)| ==>
              Places(rows, after, from)[i] < Places(rows, after, from)[j]
    decreases |rows| - from
  {
    if from < |rows| {
      PlacesInOrder(rows, after, from + 1);
      if Passes(after, rows[from]) {
        assert Places(rows, after, from) == [from] + Places(rows, after, from + 1);
      }
    }
  }

  lemma {:induction false} PlacesAreAll(rows: seq<Found>, after: Cut, from: nat, p: nat)
    requires from <= p < |rows| && Passes(after, rows[p])
    ensures p in Places(rows, after, from)
    decreases p - from
  {
    if from < p {
      PlacesAreAll(rows, after, from + 1, p);
    }
  }

  lemma {:induction false} AsManyPlaces(rows: seq<Found>, after: Cut, from: nat)
    requires from <= |rows|
    ensures |Places(rows, after, from)| == |Beyond(rows[from..], after)|
    decreases |rows| - from
  {
    if from < |rows| {
      AsManyPlaces(rows, after, from + 1);
      assert rows[from..][1..] == rows[from + 1..];
    }
  }

  lemma {:induction false} RowAtPlace(rows: seq<Found>, after: Cut, from: nat, i: nat)
    requires from <= |rows| && i < |Places(rows, after, from)|
    ensures Places(rows, after, from)[i] < |rows| && i < |Beyond(rows[from..], after)|
    ensures Beyond(rows[from..], after)[i] == rows[Places(rows, after, from)[i]]
    decreases |rows| - from
  {
    var rest := rows[from..];
    assert rest[0] == rows[from] && rest[1..] == rows[from + 1..];
    if !Passes(after, rows[from]) {
      RowAtPlace(rows, after, from + 1, i);
    } else if i > 0 {
      RowAtPlace(rows, after, from + 1, i - 1);
    }
  }

  /** They are in order, and all of them. */
  lemma PlacesHold(rows: seq<Found>, after: Cut)
    ensures var places := Places(rows, after, 0);
            && |places| == |Beyond(rows, after)|
            && (forall i :: 0 <= i < |places| ==> places[i] < |rows| && Beyond(rows, after)[i] == rows[places[i]])
            && (forall i, j :: 0 <= i < j < |places| ==> places[i] < places[j])
            && forall p :: 0 <= p < |rows| && Passes(after, rows[p]) ==> p in places
  {
    var places := Places(rows, after, 0);
    assert rows[0..] == rows;
    PlacesInOrder(rows, after, 0);
    AsManyPlaces(rows, after, 0);
    forall i | 0 <= i < |places|
      ensures places[i] < |rows| && Beyond(rows, after)[i] == rows[places[i]]
    {
      RowAtPlace(rows, after, 0, i);
    }
    forall p | 0 <= p < |rows| && Passes(after, rows[p]) ensures p in places {
      PlacesAreAll(rows, after, 0, p);
    }
  }

  lemma BeyondDistinct(rows: seq<Found>, after: Cut)
    requires DistinctKeys(rows)
    ensures DistinctKeys(Beyond(rows, after))
  {
    PlacesHold(rows, after);
  }

  lemma BeyondNearly(rows: seq<Found>, after: Cut)
    requires NearlyAscending(rows)
    ensures NearlyAscending(Beyond(rows, after))
  {
    PlacesHold(rows, after);
  }

  // ---- orders side by side --------------------------------------------------------------------

  lemma Ranked(rows: seq<Found>, i: nat, j: nat)
    requires Ascending(rows) && i < |rows| && j < |rows|
    ensures i < j <==> Before(rows[i], rows[j])
  {
    LessIsStrict(KeyOf(rows[i]), KeyOf(rows[j]));
  }

  /** A row of `few` stands no earlier in `many` than in `few`. */
  lemma {:induction false} NoEarlier(few: seq<Found>, many: seq<Found>, j: nat)
    requires Ascending(few) && Ascending(many) && j < |few| && (forall x :: x in few ==> x in many)
    ensures exists k :: j <= k < |many| && many[k] == few[j]
  {
    assert few[j] in many;
    var k :| 0 <= k < |many| && many[k] == few[j];
    if j > 0 {
      NoEarlier(few, many, j - 1);
      var i :| j - 1 <= i < |many| && many[i] == few[j - 1];
      Ranked(many, i, k);
    }
  }

  /** If all that is missing from `some` comes after its first `n`, those are the first `n` of all. */
  lemma {:induction false} SameStart(some: seq<Found>, all: seq<Found>, n: nat)
    requires Ascending(some) && Ascending(all) && n <= |some|
    requires forall x :: x in some ==> x in all
    requires n > 0 ==> forall x :: x in all && x !in some ==> Before(some[n - 1], x)
    ensures n <= |all| && some[..n] == all[..n]
  {
    if n > 0 {
      assert forall i :: 0 <= i < n - 1 ==> Before(some[i], some[n - 1]);
      forall x | n > 1 && x in all && x !in some
        ensures Before(some[n - 2], x)
      {
        LessIsTransitive(KeyOf(some[n - 2]), KeyOf(some[n - 1]), KeyOf(x));
      }
      SameStart(some, all, n - 1);
      NoEarlier(some, all, n - 1);
      var k :| n - 1 <= k < |all| && all[k] == some[n - 1];
      NextIsNext(some, all, n - 1, k);
      assert some[..n] == some[..n - 1] + [some[n - 1]] && all[..n] == all[..n - 1] + [all[n - 1]];
    }
  }

  lemma NextIsNext(some: seq<Found>, all: seq<Found>, n: nat, k: nat)
    requires Ascending(some) && Ascending(all) && n < |some| && n <= k < |all|
    requires some[..n] == all[..n] && all[k] == some[n]
    requires forall x :: x in all && x !in some ==> Before(some[n], x)
    ensures all[n] == some[n]
  {
    Ranked(all, k, n);
    assert all[n] in all && all[n] in some;
    var i :| 0 <= i < |some| && some[i] == all[n];
    if i < n {
      SameAt(some, all, n, i);
      Ranked(all, i, n);
      LessIsStrict(KeyOf(all[n]), KeyOf(all[n]));
    } else {
      Ranked(some, n, i);
      LessIsStrict(KeyOf(some[n]), KeyOf(all[n]));
    }
  }

  lemma SameAt(a: seq<Found>, b: seq<Found>, n: nat, i: nat)
    requires i < n <= |a| && n <= |b| && a[..n] == b[..n]
    ensures a[i] == b[i]
  {
    assert a[..n][i] == b[..n][i];
  }

  /** The same rows in order are the same sequence. */
  lemma OneOrder(a: seq<Found>, b: seq<Found>)
    requires Ascending(a) && Ascending(b) && (forall x :: x in a <==> x in b)
    ensures a == b
  {
    SameStart(a, b, |a|);
    SameStart(b, a, |b|);
  }
}
