/** What a walk loses, and when exactly: rows a source has after two greater ones. */
module Losing {
  import opened Options
  import Order
  import opened Rows
  import opened Retrieval
  import opened Paging
  import opened Walking

  /** Row `k` comes after two greater ones. */
  predicate Behind(rows: seq<Found>, i: nat, j: nat, k: nat) {
    i < j < k < |rows| && Before(rows[k], rows[i]) && Before(rows[k], rows[j])
  }

  predicate IsAfter(cursor: Option<Key>, x: Found) {
    cursor.None? || Less(cursor.value, KeyOf(x))
  }

  // ---- what is behind is passed over ------------------------------------------------------------------

  /** With a page of one, a row behind two others is not contributed while they are ahead. */
  lemma BehindIsLeftOut(readable: Readable, bounds: Bounds, i: nat, j: nat, k: nat)
    requires Walkable(readable) && Behind(Stream(readable), i, j, k) && bounds.rows == 1
    requires IsAfter(bounds.cursor, Stream(readable)[k])
    ensures Stream(readable)[k] !in Contribution(readable, bounds).0 && Contribution(readable, bounds).0 != []
  {
    var rows := Stream(readable);
    StreamIsOwn(readable);
    StreamIsDistinct(readable);
    ContributesFirst(readable, bounds);
    PassesToo(readable, bounds, rows[k], rows[i]);
    PassesToo(readable, bounds, rows[k], rows[j]);
    PassesToo(readable, bounds, rows[k], rows[k]);
    NotAmongTwo(rows, CutOf(bounds.cursor, readable.id), i, j, k);
  }

  /** What is not before a row after the cursor is after the cursor. */
  lemma PassesToo(readable: Readable, bounds: Bounds, x: Found, y: Found)
    requires IsAfter(bounds.cursor, x)
    requires y == x || Before(x, y)
    requires y.repository == readable.id && y.start >= 0
    ensures Passes(CutOf(bounds.cursor, readable.id), y)
  {
    CutIsTheCursor(bounds.cursor, y);
    if bounds.cursor.Some? && y != x {
      LessIsTransitive(bounds.cursor.value, KeyOf(x), KeyOf(y));
    }
  }

  lemma NotAmongTwo(rows: seq<Found>, cut: Cut, i: nat, j: nat, k: nat)
    requires DistinctKeys(rows) && i < j < k < |rows|
    requires Passes(cut, rows[i]) && Passes(cut, rows[j]) && Passes(cut, rows[k])
    ensures Beyond(rows, cut) != [] && rows[k] !in Take(Beyond(rows, cut), 2)
  {
    var places := Places(rows, cut, 0);
    PlacesHold(rows, cut);
    var a :| 0 <= a < |places| && places[a] == i;
    var b :| 0 <= b < |places| && places[b] == j;
    forall c | 0 <= c < 2 && c < |places|
      ensures Beyond(rows, cut)[c] != rows[k]
    {
      assert places[c] != k;
    }
  }

  lemma BehindIsNoCandidate(view: seq<Readable>, bounds: Bounds, readable: Readable, i: nat, j: nat, k: nat)
    requires WalkableView(view) && readable in view && Behind(Stream(readable), i, j, k) && bounds.rows == 1
    requires IsAfter(bounds.cursor, Stream(readable)[k])
    ensures Sort(Candidates(ById(view), bounds)) != []
    ensures Stream(readable)[k] !in Sort(Candidates(ById(view), bounds))
  {
    var sorted, x := ById(view), Stream(readable)[k];
    ByIdHolds(view);
    CandidatesHold(sorted, bounds);
    assert Walkable(readable);
    BehindIsLeftOut(readable, bounds, i, j, k);
    StreamIsOwn(readable);
    forall n | 0 <= n < |sorted|
      ensures x !in Contribution(sorted[n], bounds).0
    {
      assert Walkable(sorted[n]);
      ContributesOwn(sorted[n], bounds);
      assert x in Stream(readable);
    }
    var at :| 0 <= at < |sorted| && sorted[at] == readable;
    assert Contribution(sorted[at], bounds).0[0] in Sort(Candidates(sorted, bounds));
  }

  // ---- so a walk of one row at a time loses it --------------------------------------------------------

  /** One row at a time, a walk shows no more rows than there are. */
  lemma {:induction false} WalkShowsNoMore(view: seq<Readable>, bounds: Bounds)
    requires OwnView(view) && bounds.rows == 1
    ensures |Walk(view, bounds)| <= |Rest(Everything(view), bounds.cursor)|
    decreases |Rest(Everything(view), bounds.cursor)|
  {
    var answer := SearchOf(view, bounds, false);
    var candidates := Sort(Candidates(ById(view), bounds));
    PageEndIsInside(candidates, bounds, 0, 0);
    if answer.cursor.Some? {
      NextIsLater(view, bounds);
      WalkShowsNoMore(view, bounds.(cursor := answer.cursor));
    } else if candidates != [] {
      CandidateIsLeft(view, bounds, candidates[0]);
    }
  }

  /** While a row is behind, some other row is shown. */
  lemma ShownInstead(view: seq<Readable>, bounds: Bounds, readable: Readable, i: nat, j: nat, k: nat)
    returns (shown: Found)
    requires WalkableView(view) && OwnView(view) && readable in view && bounds.rows == 1
    requires Behind(Stream(readable), i, j, k) && IsAfter(bounds.cursor, Stream(readable)[k])
    ensures var x, rest, answer := Stream(readable)[k], Rest(Everything(view), bounds.cursor), SearchOf(view, bounds, false);
            && x in rest && shown in rest && KeyOf(x) != KeyOf(shown)
            && |answer.found| == 1 && (answer.cursor.Some? ==> answer.cursor.value == KeyOf(shown))
  {
    var candidates, x := Sort(Candidates(ById(view), bounds)), Stream(readable)[k];
    BehindIsNoCandidate(view, bounds, readable, i, j, k);
    shown := candidates[0];
    PageOfOne(candidates, Sources(ById(view), bounds), bounds);
    CandidateIsLeft(view, bounds, shown);
    assert x in Stream(readable);
    IsLeft(view, bounds.cursor, readable, x);
    DistinctWhenLeft(view, bounds.cursor, shown, x);
  }

  lemma PageOfOne(candidates: seq<Found>, sources: seq<Source>, bounds: Bounds)
    requires candidates != [] && bounds.rows == 1
    ensures var answer := Page(candidates, sources, bounds);
            |answer.found| == 1 && (answer.cursor.Some? ==> answer.cursor.value == KeyOf(candidates[0]))
  {
    PageEndIsInside(candidates, bounds, 0, 0);
  }

  lemma IsLeft(view: seq<Readable>, cursor: Option<Key>, readable: Readable, x: Found)
    requires readable in view && x in Stream(readable) && IsAfter(cursor, x)
    ensures x in Rest(Everything(view), cursor)
  {
    EverythingIsAll(view);
    RestHolds(Everything(view), cursor);
  }

  lemma DistinctWhenLeft(view: seq<Readable>, cursor: Option<Key>, x: Found, y: Found)
    requires WalkableView(view) && x != y
    requires x in Rest(Everything(view), cursor) && y in Rest(Everything(view), cursor)
    ensures KeyOf(x) != KeyOf(y)
  {
    EverythingHolds(view);
    RestHolds(Everything(view), cursor);
    AscendingIsDistinct(Everything(view));
  }

  lemma {:induction false} WalkLoses(view: seq<Readable>, bounds: Bounds, readable: Readable, i: nat, j: nat, k: nat)
    requires WalkableView(view) && OwnView(view) && readable in view && bounds.rows == 1
    requires Behind(Stream(readable), i, j, k) && IsAfter(bounds.cursor, Stream(readable)[k])
    ensures |Walk(view, bounds)| < |Rest(Everything(view), bounds.cursor)|
    decreases |Rest(Everything(view), bounds.cursor)|
  {
    var answer := SearchOf(view, bounds, false);
    var shown := ShownInstead(view, bounds, readable, i, j, k);
    RestShrinks(Everything(view), bounds.cursor, shown);
    if answer.cursor.Some? {
      var next := bounds.(cursor := answer.cursor);
      if Before(shown, Stream(readable)[k]) {
        WalkLoses(view, next, readable, i, j, k);
      } else {
        WalkShowsNoMore(view, next);
      }
    } else {
      TwoAreTwo(Rest(Everything(view), bounds.cursor), shown, Stream(readable)[k]);
    }
  }

  lemma TwoAreTwo(rows: seq<Found>, a: Found, b: Found)
    requires a in rows && b in rows && a != b
    ensures |rows| >= 2
  {
  }

  // ---- exactly ----------------------------------------------------------------------------------------

  /** What a walk has to show. */
  ghost predicate ShowsEverything(view: seq<Readable>, bounds: Bounds) {
    OwnView(view) && bounds.rows >= 1 && Walk(view, bounds) == Clipped(Everything(view), bounds.spanBytes)
  }

  lemma {:induction false} RestOfAll(rows: seq<Found>)
    ensures Rest(rows, None) == rows
  {
    if rows != [] {
      RestOfAll(rows[1..]);
      assert rows == [rows[0]] + rows[1..];
    }
  }

  /** One row at a time, a walk from the start yields every row exactly when no source has a
      row after two greater ones. */
  lemma OneByOneExactly(view: seq<Readable>, bounds: Bounds)
    requires WalkableView(view) && bounds.rows == 1 && bounds.cursor.None?
    ensures ShowsEverything(view, bounds) <==> SteadyView(view)
  {
    WalkableIsOwn(view);
    RestOfAll(Everything(view));
    if SteadyView(view) {
      WalkYieldsEverything(view, bounds);
    } else {
      var readable :| readable in view && !Steady(readable);
      assert Walkable(readable);
      var i, j, k := SomeBehind(Stream(readable));
      WalkLoses(view, bounds, readable, i, j, k);
    }
  }

  lemma SomeBehind(rows: seq<Found>) returns (i: nat, j: nat, k: nat)
    requires !NearlyAscending(rows)
    ensures Behind(rows, i, j, k)
  {
    i, j, k :| 0 <= i < j < k < |rows| && Before(rows[k], rows[i]) && Before(rows[k], rows[j]);
  }

  /** And then, and only then, at every size of page and of batch. */
  lemma WalkExactly(view: seq<Readable>)
    requires WalkableView(view)
    ensures (forall bounds: Bounds :: bounds.rows >= 1 && bounds.cursor.None? ==> ShowsEverything(view, bounds))
            <==> SteadyView(view)
  {
    if SteadyView(view) {
      forall bounds: Bounds | bounds.rows >= 1 && bounds.cursor.None?
        ensures ShowsEverything(view, bounds)
      {
        WalkableIsOwn(view);
        RestOfAll(Everything(view));
        WalkYieldsEverything(view, bounds);
      }
    } else {
      OneByOneExactly(view, Bounds(1, None, 0, 0));
    }
  }

  // ---- a tree that loses a row ------------------------------------------------------------------------

  function OneChunk(path: string): File {
    File(path, "", true, true, false, 1, true, [Chunk(0, 1, 1, 1, true)])
  }

  /** A folder's files are walked after those beside it. */
  const FOLDER_LAST := Readable("r", "now", Some(Manifest("then", COMPILER)), [], Some([OneChunk("b"), OneChunk("c"), OneChunk("a/x")]))

  function RowAt(id: string, path: string): Found {
    Found(id, path, "", 0, 1, 1, 1, 0.0, Canonical, false)
  }

  lemma OneRowAFile(id: string, path: string, more: seq<File>)
    ensures TreeRows(id, [OneChunk(path)] + more) == [RowAt(id, path)] + TreeRows(id, more)
  {
    var files := [OneChunk(path)] + more;
    assert files[0] == OneChunk(path) && files[1..] == more;
    assert ChunkRows(id, files[0], files[0].chunks) == [RowAt(id, path)] + ChunkRows(id, files[0], []);
  }

  /** Three small files are within the read budget, and are three rows. */
  lemma FolderLastRows()
    ensures Stream(FOLDER_LAST) == [RowAt("r", "b"), RowAt("r", "c"), RowAt("r", "a/x")]
  {
    var last, middle, files := [OneChunk("a/x")], [OneChunk("c"), OneChunk("a/x")], FOLDER_LAST.files.value;
    OneRowAFile("r", "a/x", []);
    OneRowAFile("r", "c", last);
    OneRowAFile("r", "b", middle);
    assert last == [OneChunk("a/x")] + [] && middle == [OneChunk("c")] + last && files == [OneChunk("b")] + middle;
    assert last[1..] == [] && Reached(last, 2) == last;
    assert middle[1..] == last && Reached(middle, 1) == middle;
    assert files[1..] == middle && Reached(files, 0) == files;
  }

  lemma LetterFirst(a: string, b: string)
    requires a != "" && b != "" && a[0] < b[0]
    ensures Order.Precedes(a, b)
  {
    assert Order.Codes(a)[0] < Order.Codes(b)[0];
  }

  lemma FolderLastIsWalkable()
    ensures Walkable(FOLDER_LAST)
  {
    FolderLastRows();
  }

  lemma FolderLastIsBehind()
    ensures Behind(Stream(FOLDER_LAST), 0, 1, 2)
  {
    FolderLastRows();
    LetterFirst("a/x", "b");
    LetterFirst("a/x", "c");
  }

  /** The three rows of this tree are walked one at a time as fewer. */
  lemma FolderLastLosesARow(bounds: Bounds)
    requires bounds.rows == 1 && bounds.cursor.None?
    ensures WalkableView([FOLDER_LAST]) && OwnView([FOLDER_LAST])
    ensures |Walk([FOLDER_LAST], bounds)| < |Everything([FOLDER_LAST])|
  {
    FolderLastIsWalkable();
    FolderLastIsBehind();
    WalkableIsOwn([FOLDER_LAST]);
    WalkLoses([FOLDER_LAST], bounds, FOLDER_LAST, 0, 1, 2);
    RestOfAll(Everything([FOLDER_LAST]));
  }
}
