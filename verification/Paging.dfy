/** Walking a search page by page. */
module Paging {
  import opened Options
  import opened Order
  import opened Rows
  import opened Retrieval

  // ---- sources that can be walked ------------------------------------------------------------------

  /** The files the read budget reaches, of which `read` is gone already. */
  function Reached(files: seq<File>, read: nat): (prefix: seq<File>)
    ensures prefix <= files
  {
    if files == [] then []
    else if !files[0].regular || !files[0].asked then [files[0]] + Reached(files[1..], read)
    else if read >= CANONICAL_READ_BYTES then []
    else [files[0]] + Reached(files[1..], if files[0].tooLarge then read else read + files[0].size)
  }

  /** Every row a source can give for the query, in the order its contributions keep to: what
      an index holds, what the read budget reaches of a tree, and of one that cannot be read
      nothing. */
  function Stream(readable: Readable): seq<Found> {
    if readable.State().Complete? then Sort(readable.rows)
    else if readable.files.None? then []
    else TreeRows(readable.id, Reached(readable.files.value, 0))
  }

  /** A complete source's rows are its own: what its index gives is given its name. */
  ghost predicate OwnRows(readable: Readable) {
    readable.State().Complete? ==> forall row :: row in readable.rows ==> row.repository == readable.id && row.start >= 0
  }

  /** No place twice. */
  ghost predicate Walkable(readable: Readable) {
    && OwnRows(readable)
    && if readable.State().Complete? then DistinctKeys(readable.rows) else DistinctKeys(Stream(readable))
  }

  /** And none of its rows comes after two greater ones. */
  ghost predicate Steady(readable: Readable) {
    Walkable(readable) && NearlyAscending(Stream(readable))
  }

  lemma {:induction false} BeyondBoth(a: seq<Found>, b: seq<Found>, cut: Cut)
    ensures Beyond(a + b, cut) == Beyond(a, cut) + Beyond(b, cut)
  {
    if a == [] {
      assert a + b == b;
    } else {
      assert (a + b)[0] == a[0] && (a + b)[1..] == a[1..] + b;
      BeyondBoth(a[1..], b, cut);
    }
  }

  lemma TakeBoth(a: seq<Found>, b: seq<Found>, limit: nat)
    ensures Take(a + b, limit) == Take(a, limit) + Take(b, limit - |Take(a, limit)|)
  {
  }

  /** What one file has for the query. */
  function FileRows(id: string, file: File): seq<Found> {
    if IsRead(file) && file.utf8 then ChunkRows(id, file, file.chunks) else []
  }

  lemma FirstFileTaken(id: string, file: File, more: seq<File>, cut: Cut, limit: nat)
    ensures var taken := Take(Beyond(FileRows(id, file), cut), limit);
            Take(Beyond(TreeRows(id, [file] + more), cut), limit)
            == taken + Take(Beyond(TreeRows(id, more), cut), limit - |taken|)
  {
    assert ([file] + more)[1..] == more;
    BeyondBoth(FileRows(id, file), TreeRows(id, more), cut);
    TakeBoth(Beyond(FileRows(id, file), cut), Beyond(TreeRows(id, more), cut), limit);
  }

  /** What is read when one more file has been. */
  function Spent(file: File, read: nat): nat {
    if IsRead(file) then read + file.size else read
  }

  /** One file, and then the rest: of the read, and of what it reaches. */
  lemma FileThenRest(id: string, file: File, more: seq<File>, cut: Cut, limit: nat, read: nat)
    requires limit > 0 && (file.regular && file.asked ==> read < CANONICAL_READ_BYTES)
    ensures var taken := Take(Beyond(FileRows(id, file), cut), limit);
            && FromTree(id, [file] + more, cut, limit, read).0
               == taken + FromTree(id, more, cut, limit - |taken|, Spent(file, read)).0
            && Reached([file] + more, read) == [file] + Reached(more, Spent(file, read))
  {
    var files := [file] + more;
    assert files[0] == file && files[1..] == more;
    if !IsRead(file) {
      NothingFirst(FromTree(id, more, cut, limit, read).0);
    }
  }

  /** A tree gives its rows past the cut, first come first, as far as the budget reaches. */
  lemma {:induction false} TreeGivesItsRows(id: string, files: seq<File>, cut: Cut, limit: nat, read: nat)
    ensures FromTree(id, files, cut, limit, read).0 == Take(Beyond(TreeRows(id, Reached(files, read)), cut), limit)
    decreases |files|
  {
    if files != [] && limit > 0 {
      var file, more := files[0], files[1..];
      if !file.regular || !file.asked || read < CANONICAL_READ_BYTES {
        var taken := Take(Beyond(FileRows(id, file), cut), limit);
        assert files == [file] + more;
        FileThenRest(id, file, more, cut, limit, read);
        FirstFileTaken(id, file, Reached(more, Spent(file, read)), cut, limit);
        TreeGivesItsRows(id, more, cut, limit - |taken|, Spent(file, read));
      }
    }
  }

  /** It says that the budget ended the read only when it did; and short of the limit, whenever
      it did. */
  lemma {:induction false} TreeSaysWhereItEnds(id: string, files: seq<File>, cut: Cut, limit: nat, read: nat)
    ensures var given := FromTree(id, files, cut, limit, read);
            && (given.1 ==> Reached(files, read) != files)
            && (|given.0| < limit ==> (given.1 <==> Reached(files, read) != files))
    decreases |files|
  {
    if files != [] && limit > 0 {
      var file, more := files[0], files[1..];
      assert files == [file] + more;
      if !file.regular || !file.asked || (read < CANONICAL_READ_BYTES && file.tooLarge) {
        TreeSaysWhereItEnds(id, more, cut, limit, read);
        SameMore(file, Reached(more, read), more);
      } else if read < CANONICAL_READ_BYTES {
        var taken := if file.utf8 then Take(Beyond(ChunkRows(id, file, file.chunks), cut), limit) else [];
        TreeSaysWhereItEnds(id, more, cut, limit - |taken|, read + file.size);
        SameMore(file, Reached(more, read + file.size), more);
      }
    }
  }

  lemma SameMore(file: File, a: seq<File>, b: seq<File>)
    ensures [file] + a == [file] + b <==> a == b
  {
    assert ([file] + a)[1..] == a && ([file] + b)[1..] == b;
  }

  lemma NothingFirst(rows: seq<Found>)
    ensures [] + rows == rows
  {
  }

  lemma {:induction false} ChunksOfThis(id: string, file: File, chunks: seq<Chunk>)
    ensures forall row :: row in ChunkRows(id, file, chunks) ==> row.repository == id && row.start >= 0
  {
    if chunks != [] {
      ChunksOfThis(id, file, chunks[1..]);
    }
  }

  lemma {:induction false} TreeOfThis(id: string, files: seq<File>)
    ensures forall row :: row in TreeRows(id, files) ==> row.repository == id && row.start >= 0
  {
    if files != [] {
      TreeOfThis(id, files[1..]);
      ChunksOfThis(id, files[0], files[0].chunks);
    }
  }

  lemma StreamIsOwn(readable: Readable)
    requires OwnRows(readable)
    ensures forall row :: row in Stream(readable) ==> row.repository == readable.id && row.start >= 0
  {
    if readable.State().Complete? {
      SortHolds(readable.rows);
    } else if readable.files.Some? {
      TreeOfThis(readable.id, Reached(readable.files.value, 0));
    }
  }

  lemma StreamIsDistinct(readable: Readable)
    requires Walkable(readable)
    ensures DistinctKeys(Stream(readable))
    ensures readable.State().Complete? ==> Ascending(Stream(readable)) && Steady(readable)
  {
    if readable.State().Complete? {
      SortAscends(readable.rows);
      AscendingIsDistinct(Sort(readable.rows));
      AscendingIsNearly(Sort(readable.rows));
    }
  }

  /** Whatever a source contributes is a row it holds, after the cursor. */
  lemma ContributesOwn(readable: Readable, bounds: Bounds)
    requires OwnRows(readable)
    ensures forall x :: x in Contribution(readable, bounds).0
              ==> x in Stream(readable) && x.repository == readable.id
                  && (bounds.cursor.None? || Less(bounds.cursor.value, KeyOf(x)))
  {
    var cut, contributed := CutOf(bounds.cursor, readable.id), Contribution(readable, bounds).0;
    StreamIsOwn(readable);
    if readable.State().Complete? {
      SortHolds(Beyond(readable.rows, cut));
      BeyondHolds(readable.rows, cut);
      SortHolds(readable.rows);
    } else if readable.files.Some? {
      TreeGivesItsRows(readable.id, readable.files.value, cut, bounds.rows + 1, 0);
      BeyondHolds(Stream(readable), cut);
    }
    forall x | x in contributed
      ensures x in Stream(readable) && x.repository == readable.id
              && (bounds.cursor.None? || Less(bounds.cursor.value, KeyOf(x)))
    {
      assert x in Stream(readable) && Passes(cut, x);
      CutIsTheCursor(bounds.cursor, x);
    }
  }

  /** A walkable source contributes the first of its rows past the cut, one more than a page:
      a complete one in order, a tree as it is walked. */
  lemma ContributesFirst(readable: Readable, bounds: Bounds)
    requires Walkable(readable)
    ensures Contribution(readable, bounds).0
            == Take(Beyond(Stream(readable), CutOf(bounds.cursor, readable.id)), bounds.rows + 1)
  {
    var cut := CutOf(bounds.cursor, readable.id);
    if readable.State().Complete? {
      var rows := readable.rows;
      SortHolds(rows);
      SortAscends(rows);
      BeyondHolds(rows, cut);
      BeyondDistinct(rows, cut);
      SortHolds(Beyond(rows, cut));
      SortAscends(Beyond(rows, cut));
      BeyondHolds(Sort(rows), cut);
      BeyondAscends(Sort(rows), cut);
      OneOrder(Sort(Beyond(rows, cut)), Beyond(Sort(rows), cut));
    } else if readable.files.Some? {
      TreeGivesItsRows(readable.id, readable.files.value, cut, bounds.rows + 1, 0);
    }
  }

  // ---- all the rows of a view -----------------------------------------------------------------------

  function Join(parts: seq<seq<Found>>): seq<Found> {
    if parts == [] then [] else Join(parts[..|parts| - 1]) + parts[|parts| - 1]
  }

  function StreamsOf(view: seq<Readable>): (parts: seq<seq<Found>>)
    ensures |parts| == |view| && forall i :: 0 <= i < |view| ==> parts[i] == Stream(view[i])
  {
    seq(|view|, i requires 0 <= i < |view| => Stream(view[i]))
  }

  function ContributionsOf(view: seq<Readable>, bounds: Bounds): (parts: seq<seq<Found>>)
    ensures |parts| == |view| && forall i :: 0 <= i < |view| ==> parts[i] == Contribution(view[i], bounds).0
  {
    seq(|view|, i requires 0 <= i < |view| => Contribution(view[i], bounds).0)
  }

  /** Everything the view has for the query, in order. */
  function Everything(view: seq<Readable>): seq<Found> {
    Sort(Join(StreamsOf(ById(view))))
  }

  lemma {:induction false} CandidatesAreJoined(view: seq<Readable>, bounds: Bounds)
    ensures Candidates(view, bounds) == Join(ContributionsOf(view, bounds))
  {
    if view != [] {
      CandidatesAreJoined(view[..|view| - 1], bounds);
      assert ContributionsOf(view, bounds)[..|view| - 1] == ContributionsOf(view[..|view| - 1], bounds);
    }
  }

  lemma {:induction false} JoinHolds(parts: seq<seq<Found>>)
    ensures forall x :: x in Join(parts) <==> exists i :: 0 <= i < |parts| && x in parts[i]
  {
    if parts != [] {
      var before := parts[..|parts| - 1];
      JoinHolds(before);
      forall x
        ensures x in Join(parts) <==> exists i :: 0 <= i < |parts| && x in parts[i]
      {
        if x in Join(before) {
          var i :| 0 <= i < |before| && x in before[i];
          assert x in parts[i];
        }
        if i :| 0 <= i < |before| && x in parts[i] {
          assert x in before[i];
        }
      }
    }
  }

  ghost predicate Apart(parts: seq<seq<Found>>) {
    && (forall part :: part in parts ==> DistinctKeys(part))
    && forall i, j, x, y :: 0 <= i < j < |parts| && x in parts[i] && y in parts[j] ==> KeyOf(x) != KeyOf(y)
  }

  lemma {:induction false} JoinDistinct(parts: seq<seq<Found>>)
    requires Apart(parts)
    ensures DistinctKeys(Join(parts))
  {
    if parts != [] {
      var before, last := parts[..|parts| - 1], parts[|parts| - 1];
      JoinDistinct(before);
      JoinHolds(before);
      BothDistinct(Join(before), last);
    }
  }

  lemma BothDistinct(a: seq<Found>, b: seq<Found>)
    requires DistinctKeys(a) && DistinctKeys(b)
    requires forall x, y :: x in a && y in b ==> KeyOf(x) != KeyOf(y)
    ensures DistinctKeys(a + b)
  {
    forall i, j | 0 <= i < j < |a + b|
      ensures KeyOf((a + b)[i]) != KeyOf((a + b)[j])
    {
      if i < |a| && |a| <= j {
        assert (a + b)[i] in a && (a + b)[j] in b;
      }
    }
  }

  // ---- the view in order -----------------------------------------------------------------------------

  ghost predicate DistinctIds(view: seq<Readable>) {
    forall i, j :: 0 <= i < j < |view| ==> view[i].id != view[j].id
  }

  ghost predicate OwnView(view: seq<Readable>) {
    forall readable :: readable in view ==> OwnRows(readable)
  }

  ghost predicate WalkableView(view: seq<Readable>) {
    DistinctIds(view) && forall readable :: readable in view ==> Walkable(readable)
  }

  ghost predicate SteadyView(view: seq<Readable>) {
    DistinctIds(view) && forall readable :: readable in view ==> Steady(readable)
  }

  lemma {:induction false} InsertByIdHolds(readable: Readable, view: seq<Readable>)
    ensures forall x :: x in InsertById(readable, view) <==> x == readable || x in view
    ensures DistinctIds(view) && (forall x :: x in view ==> x.id != readable.id) ==> DistinctIds(InsertById(readable, view))
  {
    if view != [] && !Precedes(readable.id, view[0].id) {
      InsertByIdHolds(readable, view[1..]);
      assert view == [view[0]] + view[1..];
      var inserted := InsertById(readable, view[1..]);
      if DistinctIds(view) && (forall x :: x in view ==> x.id != readable.id) {
        forall j | 0 <= j < |inserted|
          ensures view[0].id != inserted[j].id
        {
          assert inserted[j] in inserted;
        }
      }
    }
  }

  lemma {:induction false} ByIdHolds(view: seq<Readable>)
    ensures forall x :: x in ById(view) <==> x in view
    ensures DistinctIds(view) ==> DistinctIds(ById(view))
  {
    if view != [] {
      ByIdHolds(view[1..]);
      InsertByIdHolds(view[0], ById(view[1..]));
      assert view == [view[0]] + view[1..];
      forall x | DistinctIds(view) && x in ById(view[1..])
        ensures x.id != view[0].id
      {
        var j :| 0 <= j < |view[1..]| && view[1..][j] == x;
        assert x == view[j + 1];
      }
    }
  }

  /** Everything is every row of every source. */
  lemma EverythingIsAll(view: seq<Readable>)
    ensures forall x :: x in Everything(view) <==> exists readable :: readable in view && x in Stream(readable)
  {
    var sorted := ById(view);
    var parts := StreamsOf(sorted);
    ByIdHolds(view);
    JoinHolds(parts);
    SortHolds(Join(parts));
    forall x
      ensures x in Everything(view) <==> exists readable :: readable in view && x in Stream(readable)
    {
      if x in Everything(view) {
        var i :| 0 <= i < |parts| && x in parts[i];
        assert sorted[i] in view && x in Stream(sorted[i]);
      }
      if readable :| readable in view && x in Stream(readable) {
        var i :| 0 <= i < |sorted| && sorted[i] == readable;
        assert x in parts[i];
      }
    }
  }

  /** Each once, in order. */
  lemma EverythingHolds(view: seq<Readable>)
    requires WalkableView(view)
    ensures Ascending(Everything(view))
    ensures forall x :: x in Everything(view) <==> exists readable :: readable in view && x in Stream(readable)
  {
    ByIdHolds(view);
    StreamsApart(ById(view));
    JoinDistinct(StreamsOf(ById(view)));
    SortAscends(Join(StreamsOf(ById(view))));
    EverythingIsAll(view);
  }

  lemma StreamsApart(view: seq<Readable>)
    requires WalkableView(view)
    ensures Apart(StreamsOf(view))
  {
    var parts := StreamsOf(view);
    forall i | 0 <= i < |view|
      ensures DistinctKeys(parts[i]) && forall x: Found :: x in parts[i] ==> x.repository == view[i].id
    {
      assert Walkable(view[i]);
      StreamIsOwn(view[i]);
      StreamIsDistinct(view[i]);
    }
  }
}
