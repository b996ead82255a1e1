/** A walk yields every row once, in order, exactly when no row of a source comes after two
    greater ones. */
module Walking {
  import opened Options
  import opened Rows
  import opened Retrieval
  import opened Paging

  // ---- the rows after a cursor ---------------------------------------------------------------------

  /** The rows after a cursor. */
  function Rest(rows: seq<Found>, cursor: Option<Key>): seq<Found> {
    if rows == [] then []
    else if cursor.None? || Less(cursor.value, KeyOf(rows[0])) then [rows[0]] + Rest(rows[1..], cursor)
    else Rest(rows[1..], cursor)
  }

  lemma {:induction false} RestHolds(rows: seq<Found>, cursor: Option<Key>)
    ensures forall x :: x in Rest(rows, cursor) <==> x in rows && (cursor.None? || Less(cursor.value, KeyOf(x)))
  {
    if rows != [] {
      RestHolds(rows[1..], cursor);
      assert rows == [rows[0]] + rows[1..];
    }
  }

  /** In order, the rows after a cursor are the end of them. */
  lemma {:induction false} RestIsTheEnd(rows: seq<Found>, cursor: Option<Key>) returns (from: nat)
    requires Ascending(rows)
    ensures from <= |rows| && Rest(rows, cursor) == rows[from..]
    ensures forall i :: 0 <= i < from ==> cursor.Some? && !Less(cursor.value, KeyOf(rows[i]))
  {
    from := 0;
    if rows != [] {
      from := RestIsTheEnd(rows[1..], cursor);
      if cursor.None? || Less(cursor.value, KeyOf(rows[0])) {
        if from > 0 {
          LessIsTransitive(cursor.value, KeyOf(rows[0]), KeyOf(rows[1..][0]));
        }
        from := 0;
        assert rows == [rows[0]] + rows[1..];
      } else {
        from := from + 1;
      }
    }
  }

  /** Going on from a row is going on after it. */
  lemma {:induction false} RestFrom(rows: seq<Found>, k: nat)
    requires Ascending(rows) && k < |rows|
    ensures Rest(rows, Some(KeyOf(rows[k]))) == rows[k + 1..]
  {
    var from := RestIsTheEnd(rows, Some(KeyOf(rows[k])));
    LessIsStrict(KeyOf(rows[k]), KeyOf(rows[k]));
    if from <= k {
      assert rows[from..][k - from] == rows[k] && rows[k] in Rest(rows, Some(KeyOf(rows[k])));
      RestHolds(rows, Some(KeyOf(rows[k])));
    }
    assert k + 1 < |rows| ==> Before(rows[k], rows[k + 1]);
  }

  /** Going on from a row leaves fewer. */
  lemma {:induction false} RestShrinks(rows: seq<Found>, cursor: Option<Key>, x: Found)
    requires x in Rest(rows, cursor)
    ensures |Rest(rows, Some(KeyOf(x)))| < |Rest(rows, cursor)|
    ensures forall y :: y in Rest(rows, cursor) && KeyOf(y) != KeyOf(x) && !Before(x, y)
              ==> |Rest(rows, Some(KeyOf(x)))| + 2 <= |Rest(rows, cursor)|
  {
    RestHolds(rows, cursor);
    RestDrops(rows, cursor, x, x);
    forall y | y in Rest(rows, cursor) && KeyOf(y) != KeyOf(x) && !Before(x, y)
      ensures |Rest(rows, Some(KeyOf(x)))| + 2 <= |Rest(rows, cursor)|
    {
      RestDrops(rows, cursor, x, y);
    }
  }

  /** At least the rows of two places are dropped, or of one. */
  lemma {:induction false} RestDrops(rows: seq<Found>, cursor: Option<Key>, x: Found, y: Found)
    requires cursor.None? || Less(cursor.value, KeyOf(x))
    ensures var rest, later := Rest(rows, cursor), Rest(rows, Some(KeyOf(x)));
            |later| + (if x in rest then 1 else 0) + (if y in rest && KeyOf(y) != KeyOf(x) && !Before(x, y) then 1 else 0)
            <= |rest|
  {
    if rows != [] {
      RestDrops(rows[1..], cursor, x, y);
      LessIsStrict(KeyOf(x), KeyOf(x));
      if cursor.Some? && Less(KeyOf(x), KeyOf(rows[0])) {
        LessIsTransitive(cursor.value, KeyOf(x), KeyOf(rows[0]));
      }
    }
  }

  // ---- one page --------------------------------------------------------------------------------------

  /** Candidates of a view, against everything that is left: there are more than a page of
      them before anything is missing, and what is missing comes after a page of them. */
  ghost predicate Sampled(candidates: seq<Found>, rest: seq<Found>, rows: nat)
    requires rows >= 1
  {
    && Ascending(candidates) && Ascending(rest)
    && (forall x :: x in candidates ==> x in rest)
    && forall x :: x in rest && x !in candidates ==> rows < |candidates| && Before(candidates[rows - 1], x)
  }

  /** A page cut from such candidates is the start of what is left, and its cursor is owed
      exactly when more is left. */
  lemma PageOfSample(candidates: seq<Found>, rest: seq<Found>, sources: seq<Source>, bounds: Bounds)
    requires bounds.rows >= 1 && Sampled(candidates, rest, bounds.rows)
    ensures var answer := Page(candidates, sources, bounds);
            var n := |answer.found|;
            && n <= |rest| && answer.found == Clipped(rest[..n], bounds.spanBytes)
            && (n == 0 <==> rest == [])
            && answer.cursor == if n < |rest| then Some(KeyOf(rest[n - 1])) else None
  {
    var n := PageEnd(candidates, bounds, 0, 0).0;
    PageEndIsInside(candidates, bounds, 0, 0);
    StartOfSample(candidates, rest, bounds.rows, n);
    if n > 0 {
      assert rest[..n][n - 1] == candidates[..n][n - 1];
    }
  }

  lemma StartOfSample(candidates: seq<Found>, rest: seq<Found>, rows: nat, n: nat)
    requires rows >= 1 && Sampled(candidates, rest, rows) && n <= rows && n <= |candidates|
    ensures n <= |rest| && candidates[..n] == rest[..n]
    ensures n == |candidates| <==> n == |rest|
    ensures candidates == [] <==> rest == []
  {
    forall x | n > 0 && x in rest && x !in candidates
      ensures Before(candidates[n - 1], x)
    {
      if n < rows {
        LessIsTransitive(KeyOf(candidates[n - 1]), KeyOf(candidates[rows - 1]), KeyOf(x));
      }
    }
    SameStart(candidates, rest, n);
    if n == |candidates| {
      OneOrder(candidates, rest);
    } else {
      NoEarlier(candidates, rest, n);
    }
    assert rest != [] ==> rest[0] in rest;
  }

  /** The candidates of a steady view sample what is left. */
  lemma ViewIsSampled(view: seq<Readable>, bounds: Bounds)
    requires SteadyView(view) && bounds.rows >= 1
    ensures Sampled(Sort(Candidates(ById(view), bounds)), Rest(Everything(view), bounds.cursor), bounds.rows)
  {
    var candidates, rest := Sort(Candidates(ById(view), bounds)), Rest(Everything(view), bounds.cursor);
    InOrder(view, bounds);
    forall x | x in candidates
      ensures x in rest
    {
      CandidateIsLeft(view, bounds, x);
    }
    forall x | x in rest && x !in candidates
      ensures bounds.rows < |candidates| && Before(candidates[bounds.rows - 1], x)
    {
      MissingIsAfter(view, bounds, x);
    }
  }

  lemma SteadyIsWalkable(view: seq<Readable>)
    requires SteadyView(view)
    ensures WalkableView(view)
  {
    forall readable | readable in view ensures Walkable(readable) {
      assert Steady(readable);
    }
  }

  lemma WalkableIsOwn(view: seq<Readable>)
    requires WalkableView(view)
    ensures OwnView(view)
  {
    forall readable | readable in view ensures OwnRows(readable) {
      assert Walkable(readable);
    }
  }

  lemma InOrder(view: seq<Readable>, bounds: Bounds)
    requires WalkableView(view)
    ensures Ascending(Sort(Candidates(ById(view), bounds))) && Ascending(Rest(Everything(view), bounds.cursor))
  {
    ByIdHolds(view);
    CandidatesAscend(ById(view), bounds);
    EverythingHolds(view);
    var from := RestIsTheEnd(Everything(view), bounds.cursor);
  }

  /** The candidates are every contributed row. */
  lemma CandidatesHold(view: seq<Readable>, bounds: Bounds)
    ensures forall x :: x in Sort(Candidates(view, bounds))
              <==> exists i :: 0 <= i < |view| && x in Contribution(view[i], bounds).0
  {
    var parts := ContributionsOf(view, bounds);
    CandidatesAreJoined(view, bounds);
    JoinHolds(parts);
    SortHolds(Join(parts));
    forall x
      ensures x in Join(parts) <==> exists i :: 0 <= i < |view| && x in Contribution(view[i], bounds).0
    {
      if i :| 0 <= i < |parts| && x in parts[i] {
        assert x in Contribution(view[i], bounds).0;
      }
      if i :| 0 <= i < |view| && x in Contribution(view[i], bounds).0 {
        assert x in parts[i];
      }
    }
  }

  lemma ContributedIsCandidate(view: seq<Readable>, bounds: Bounds, readable: Readable, x: Found)
    requires readable in view && x in Contribution(readable, bounds).0
    ensures x in Sort(Candidates(ById(view), bounds))
  {
    var sorted := ById(view);
    ByIdHolds(view);
    CandidatesHold(sorted, bounds);
    var i :| 0 <= i < |sorted| && sorted[i] == readable;
  }

  /** Each once, in order. */
  lemma CandidatesAscend(view: seq<Readable>, bounds: Bounds)
    requires WalkableView(view)
    ensures Ascending(Sort(Candidates(view, bounds)))
  {
    var parts := ContributionsOf(view, bounds);
    CandidatesAreJoined(view, bounds);
    forall i | 0 <= i < |view|
      ensures DistinctKeys(parts[i]) && forall x: Found :: x in parts[i] ==> x.repository == view[i].id
    {
      assert Walkable(view[i]);
      ContributesOwn(view[i], bounds);
      ContributedIsDistinct(view[i], bounds);
    }
    JoinDistinct(parts);
    SortAscends(Join(parts));
  }

  lemma ContributedIsDistinct(readable: Readable, bounds: Bounds)
    requires Walkable(readable)
    ensures DistinctKeys(Contribution(readable, bounds).0)
  {
    StreamIsDistinct(readable);
    ContributesFirst(readable, bounds);
    BeyondDistinct(Stream(readable), CutOf(bounds.cursor, readable.id));
  }

  lemma CandidateIsLeft(view: seq<Readable>, bounds: Bounds, x: Found)
    requires OwnView(view) && x in Sort(Candidates(ById(view), bounds))
    ensures x in Rest(Everything(view), bounds.cursor)
  {
    var sorted := ById(view);
    ByIdHolds(view);
    CandidatesHold(sorted, bounds);
    var i :| 0 <= i < |sorted| && x in Contribution(sorted[i], bounds).0;
    assert sorted[i] in view && OwnRows(sorted[i]);
    ContributesOwn(sorted[i], bounds);
    EverythingIsAll(view);
    RestHolds(Everything(view), bounds.cursor);
  }

  // ---- what a page leaves out -------------------------------------------------------------------------

  /** Where a row that a source did not contribute stands among those past the cut: after more
      than a page of them. */
  lemma MissingIsLater(readable: Readable, bounds: Bounds, x: Found) returns (j: nat)
    requires Walkable(readable) && x in Stream(readable) && x !in Contribution(readable, bounds).0
    requires bounds.cursor.None? || Less(bounds.cursor.value, KeyOf(x))
    ensures var beyond := Beyond(Stream(readable), CutOf(bounds.cursor, readable.id));
            && bounds.rows < j < |beyond| && beyond[j] == x
            && Contribution(readable, bounds).0 == beyond[..bounds.rows + 1]
  {
    var cut := CutOf(bounds.cursor, readable.id);
    var beyond := Beyond(Stream(readable), cut);
    StreamIsOwn(readable);
    ContributesFirst(readable, bounds);
    BeyondHolds(Stream(readable), cut);
    CutIsTheCursor(bounds.cursor, x);
    assert x in beyond;
    j :| 0 <= j < |beyond| && beyond[j] == x;
    if j <= bounds.rows {
      IsTaken(beyond, bounds.rows + 1, j);
    }
  }

  lemma IsTaken(rows: seq<Found>, limit: nat, j: nat)
    requires j < |rows| && j < limit
    ensures rows[j] in Take(rows, limit)
  {
    assert Take(rows, limit)[j] == rows[j];
  }

  /** Of the rows a steady source did contribute then, all but one at most are less. */
  lemma MostAreLess(rows: seq<Found>, count: nat, j: nat) returns (few: seq<Found>)
    requires DistinctKeys(rows) && NearlyAscending(rows) && count < j < |rows|
    ensures |few| == count && DistinctKeys(few)
    ensures forall y :: y in few ==> y in rows[..count + 1] && Before(y, rows[j])
  {
    if p :| 0 <= p <= count && Before(rows[j], rows[p]) {
      few := Without(rows[..count + 1], p);
      forall i | 0 <= i < count
        ensures few[i] in rows[..count + 1] && Before(few[i], rows[j])
      {
        var k := if i < p then i else i + 1;
        assert few[i] == rows[..count + 1][k] == rows[k];
        LessIsTotal(KeyOf(rows[k]), KeyOf(rows[j]));
      }
    } else {
      few := rows[..count];
      forall i | 0 <= i < count
        ensures few[i] in rows[..count + 1] && Before(few[i], rows[j])
      {
        assert few[i] == rows[..count + 1][i];
        LessIsTotal(KeyOf(rows[i]), KeyOf(rows[j]));
      }
    }
  }

  /** All but one. */
  function Without(rows: seq<Found>, p: nat): (few: seq<Found>)
    requires p < |rows|
    ensures |few| == |rows| - 1
    ensures forall i :: 0 <= i < |few| ==> few[i] == rows[if i < p then i else i + 1]
    ensures DistinctKeys(rows) ==> DistinctKeys(few)
  {
    rows[..p] + rows[p + 1..]
  }

  /** That many distinct rows among candidates in order fill that many of their places. */
  lemma Reaches(few: seq<Found>, candidates: seq<Found>)
    requires few != [] && DistinctKeys(few) && Ascending(candidates) && forall y :: y in few ==> y in candidates
    ensures |few| <= |candidates|
    ensures exists y :: y in few && (y == candidates[|few| - 1] || Before(candidates[|few| - 1], y))
  {
    var last := |few| - 1;
    SortHolds(few);
    SortAscends(few);
    NoEarlier(Sort(few), candidates, last);
    var k :| last <= k < |candidates| && candidates[k] == Sort(few)[last];
    assert Sort(few)[last] in Sort(few);
  }

  /** The source of a row that is left, whose contribution is among the candidates. */
  lemma SourceOfRow(view: seq<Readable>, bounds: Bounds, x: Found) returns (readable: Readable)
    requires x in Rest(Everything(view), bounds.cursor)
    ensures readable in view && x in Stream(readable) && (bounds.cursor.None? || Less(bounds.cursor.value, KeyOf(x)))
    ensures forall y :: y in Contribution(readable, bounds).0 ==> y in Sort(Candidates(ById(view), bounds))
  {
    var sorted := ById(view);
    RestHolds(Everything(view), bounds.cursor);
    EverythingIsAll(view);
    readable :| readable in view && x in Stream(readable);
    ByIdHolds(view);
    var i :| 0 <= i < |sorted| && sorted[i] == readable;
    CandidatesHold(sorted, bounds);
  }

  /** A row that is left and no candidate: what its source contributed instead, and how much
      of that comes before it. */
  lemma ContributedInstead(view: seq<Readable>, bounds: Bounds, x: Found) returns (contributed: seq<Found>, few: seq<Found>)
    requires SteadyView(view) && x in Rest(Everything(view), bounds.cursor)
    requires x !in Sort(Candidates(ById(view), bounds))
    ensures |few| == bounds.rows && |contributed| == bounds.rows + 1
    ensures DistinctKeys(few) && DistinctKeys(contributed)
    ensures forall y :: y in contributed ==> y in Sort(Candidates(ById(view), bounds))
    ensures forall y :: y in few ==> y in contributed && Before(y, x)
  {
    var readable := SourceOfRow(view, bounds, x);
    contributed := Contribution(readable, bounds).0;
    few := LessContributed(view, readable, bounds, x);
  }

  lemma CandidatesInOrder(view: seq<Readable>, bounds: Bounds)
    requires SteadyView(view)
    ensures Ascending(Sort(Candidates(ById(view), bounds)))
  {
    SteadyIsWalkable(view);
    ByIdHolds(view);
    CandidatesAscend(ById(view), bounds);
  }

  lemma MissingIsAfter(view: seq<Readable>, bounds: Bounds, x: Found)
    requires SteadyView(view) && bounds.rows >= 1 && x in Rest(Everything(view), bounds.cursor)
    requires x !in Sort(Candidates(ById(view), bounds))
    ensures var candidates := Sort(Candidates(ById(view), bounds));
            bounds.rows < |candidates| && Before(candidates[bounds.rows - 1], x)
  {
    CandidatesInOrder(view, bounds);
    var contributed, few := ContributedInstead(view, bounds, x);
    FillsAPage(contributed, few, Sort(Candidates(ById(view), bounds)), x);
  }

  lemma FillsAPage(contributed: seq<Found>, few: seq<Found>, candidates: seq<Found>, x: Found)
    requires DistinctKeys(contributed) && DistinctKeys(few) && Ascending(candidates)
    requires few != [] && |contributed| == |few| + 1
    requires forall y :: y in contributed ==> y in candidates
    requires forall y :: y in few ==> y in contributed && Before(y, x)
    ensures |few| < |candidates| && Before(candidates[|few| - 1], x)
  {
    Reaches(contributed, candidates);
    Reaches(few, candidates);
    var y :| y in few && (y == candidates[|few| - 1] || Before(candidates[|few| - 1], y));
    if y != candidates[|few| - 1] {
      LessIsTransitive(KeyOf(candidates[|few| - 1]), KeyOf(y), KeyOf(x));
    }
  }

  lemma LessContributed(view: seq<Readable>, readable: Readable, bounds: Bounds, x: Found) returns (few: seq<Found>)
    requires SteadyView(view) && readable in view
    requires x in Stream(readable) && x !in Contribution(readable, bounds).0
    requires bounds.cursor.None? || Less(bounds.cursor.value, KeyOf(x))
    ensures |few| == bounds.rows && DistinctKeys(few)
    ensures |Contribution(readable, bounds).0| == bounds.rows + 1 && DistinctKeys(Contribution(readable, bounds).0)
    ensures forall y :: y in few ==> y in Contribution(readable, bounds).0 && Before(y, x)
  {
    assert Steady(readable);
    var cut := CutOf(bounds.cursor, readable.id);
    var j := MissingIsLater(readable, bounds, x);
    ContributedIsDistinct(readable, bounds);
    StreamIsDistinct(readable);
    BeyondDistinct(Stream(readable), cut);
    BeyondNearly(Stream(readable), cut);
    few := MostAreLess(Beyond(Stream(readable), cut), bounds.rows, j);
  }

  /** Over steady sources, a page is the start of everything after its cursor, clipped, and
      the next cursor stands exactly where it ends. */
  lemma PageIsTheStart(view: seq<Readable>, bounds: Bounds)
    requires SteadyView(view) && bounds.rows >= 1
    ensures var answer := SearchOf(view, bounds, false);
            var rest := Rest(Everything(view), bounds.cursor);
            var n := |answer.found|;
            && n <= |rest| && answer.found == Clipped(rest[..n], bounds.spanBytes)
            && (n == 0 <==> rest == [])
            && answer.cursor == if n < |rest| then Some(KeyOf(rest[n - 1])) else None
  {
    ViewIsSampled(view, bounds);
    PageOfSample(Sort(Candidates(ById(view), bounds)), Rest(Everything(view), bounds.cursor),
                 Sources(ById(view), bounds), bounds);
  }

  // ---- the walk ----------------------------------------------------------------------------------------

  /** Every page, until no cursor is owed. */
  ghost function Walk(view: seq<Readable>, bounds: Bounds): seq<Found>
    requires OwnView(view) && bounds.rows >= 1
    decreases |Rest(Everything(view), bounds.cursor)|
  {
    var answer := SearchOf(view, bounds, false);
    if answer.cursor.None? then answer.found
    else
      NextIsLater(view, bounds);
      answer.found + Walk(view, bounds.(cursor := answer.cursor))
  }

  /** Any walk ends: there is less after each cursor than after the one before. */
  lemma NextIsLater(view: seq<Readable>, bounds: Bounds)
    requires OwnView(view) && bounds.rows >= 1 && SearchOf(view, bounds, false).cursor.Some?
    ensures |Rest(Everything(view), SearchOf(view, bounds, false).cursor)| < |Rest(Everything(view), bounds.cursor)|
  {
    var x := NextIs(view, bounds);
  }

  /** A cursor is the last row shown, which comes after the cursor before. */
  lemma NextIs(view: seq<Readable>, bounds: Bounds) returns (x: Found)
    requires OwnView(view) && bounds.rows >= 1 && SearchOf(view, bounds, false).cursor.Some?
    ensures var answer := SearchOf(view, bounds, false);
            && answer.cursor == Some(KeyOf(x)) && 0 < |answer.found|
            && x in Rest(Everything(view), bounds.cursor)
            && |Rest(Everything(view), answer.cursor)| < |Rest(Everything(view), bounds.cursor)|
  {
    var candidates := Sort(Candidates(ById(view), bounds));
    var n := PageEnd(candidates, bounds, 0, 0).0;
    PageEndIsInside(candidates, bounds, 0, 0);
    x := candidates[n - 1];
    CandidateIsLeft(view, bounds, x);
    RestShrinks(Everything(view), bounds.cursor, x);
  }

  lemma NextIsLeft(view: seq<Readable>, bounds: Bounds)
    requires SteadyView(view) && bounds.rows >= 1 && SearchOf(view, bounds, false).cursor.Some?
    ensures var answer := SearchOf(view, bounds, false);
            var rest := Rest(Everything(view), bounds.cursor);
            && 0 < |answer.found| < |rest|
            && Rest(Everything(view), answer.cursor) == rest[|answer.found|..]
  {
    PageIsTheStart(view, bounds);
    SteadyIsWalkable(view);
    EverythingHolds(view);
    RestAfter(Everything(view), bounds.cursor, |SearchOf(view, bounds, false).found|);
  }

  /** What is left after the first `n` of what was left. */
  lemma RestAfter(rows: seq<Found>, cursor: Option<Key>, n: nat)
    requires Ascending(rows) && 0 < n <= |Rest(rows, cursor)|
    ensures var rest := Rest(rows, cursor);
            Rest(rows, Some(KeyOf(rest[n - 1]))) == rest[n..]
  {
    var from := RestIsTheEnd(rows, cursor);
    assert rows[from..][n - 1] == rows[from + n - 1];
    RestFrom(rows, from + n - 1);
    assert rows[from..][n..] == rows[from + n..];
  }

  /** Page by page, a walk over steady sources yields every row of every source exactly once,
      in order. */
  lemma {:induction false} WalkYieldsEverything(view: seq<Readable>, bounds: Bounds)
    requires SteadyView(view) && OwnView(view) && bounds.rows >= 1
    ensures Walk(view, bounds) == Clipped(Rest(Everything(view), bounds.cursor), bounds.spanBytes)
    decreases |Rest(Everything(view), bounds.cursor)|
  {
    var answer, rest := SearchOf(view, bounds, false), Rest(Everything(view), bounds.cursor);
    var n := |answer.found|;
    PageIsTheStart(view, bounds);
    if answer.cursor.Some? {
      NextIsLeft(view, bounds);
      WalkYieldsEverything(view, bounds.(cursor := answer.cursor));
      ClippedInTwo(rest, n, bounds.spanBytes);
    } else {
      assert rest[..n] == rest;
    }
  }

  lemma ClippedInTwo(rows: seq<Found>, n: nat, spanBytes: nat)
    requires n <= |rows|
    ensures Clipped(rows[..n], spanBytes) + Clipped(rows[n..], spanBytes) == Clipped(rows, spanBytes)
  {
  }
}
