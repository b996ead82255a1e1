/** What the rows of an answer are, field by field, and what its sources say and why. */
module Shown {
  import opened Options
  import Order
  import R = Rows
  import opened Retrieval
  import opened Paging
  import opened Walking

  // ---- rows, cut -----------------------------------------------------------------------------------

  /** `cut` is `row` with a span no longer than it was and than allowed, and as long as that
      lets it be; marked clipped if it was, or was made shorter. */
  predicate IsCut(cut: R.Found, row: R.Found, spanBytes: nat) {
    && cut.repository == row.repository && cut.path == row.path && cut.blob == row.blob
    && cut.start == row.start && cut.startLine == row.startLine && cut.endLine == row.endLine
    && cut.score == row.score && cut.origin == row.origin
    && cut.end <= row.end && cut.end - cut.start <= spanBytes
    && (cut.end == row.end || cut.end - cut.start == spanBytes)
    && (cut.clipped <==> row.clipped || cut.end < row.end)
  }

  ghost predicate AreCut(cuts: seq<R.Found>, rows: seq<R.Found>, spanBytes: nat) {
    |cuts| == |rows| && forall k :: 0 <= k < |rows| ==> IsCut(cuts[k], rows[k], spanBytes)
  }

  lemma ClippedIsCut(rows: seq<R.Found>, spanBytes: nat)
    ensures AreCut(Clipped(rows, spanBytes), rows, spanBytes)
  {
  }

  /** Over any sources, an answer's rows are the first candidates, each cut. */
  lemma AnswerIsCut(view: seq<Readable>, bounds: Bounds)
    ensures var candidates := R.Sort(Candidates(ById(view), bounds));
            var found := SearchOf(view, bounds, false).found;
            |found| <= |candidates| && AreCut(found, candidates[..|found|], bounds.spanBytes)
  {
    var candidates := R.Sort(Candidates(ById(view), bounds));
    PageEndIsInside(candidates, bounds, 0, 0);
    ClippedIsCut(candidates[..PageEnd(candidates, bounds, 0, 0).0], bounds.spanBytes);
  }

  /** Over steady sources, a page is the start of what is left after its cursor, each row cut. */
  lemma PageIsCut(view: seq<Readable>, bounds: Bounds)
    requires SteadyView(view) && bounds.rows >= 1
    ensures var rest := Rest(Everything(view), bounds.cursor);
            var found := SearchOf(view, bounds, false).found;
            |found| <= |rest| && AreCut(found, rest[..|found|], bounds.spanBytes)
  {
    PageIsTheStart(view, bounds);
    ClippedIsCut(Rest(Everything(view), bounds.cursor)[..|SearchOf(view, bounds, false).found|], bounds.spanBytes);
  }

  /** And a walk is all of it, each row cut. */
  lemma WalkIsCut(view: seq<Readable>, bounds: Bounds)
    requires SteadyView(view) && OwnView(view) && bounds.rows >= 1
    ensures AreCut(Walk(view, bounds), Rest(Everything(view), bounds.cursor), bounds.spanBytes)
  {
    WalkYieldsEverything(view, bounds);
    ClippedIsCut(Rest(Everything(view), bounds.cursor), bounds.spanBytes);
  }

  // ---- where a row comes from ------------------------------------------------------------------------

  /** The row of a chunk that holds the terms asked for, in a file that is read. */
  predicate IsRowOf(row: R.Found, id: string, file: File, chunk: Chunk) {
    && file.regular && file.asked && !file.tooLarge && file.utf8 && chunk.matches
    && row.repository == id && row.path == file.path && row.blob == file.blob
    && row.start == chunk.start && row.end == chunk.end
    && row.startLine == chunk.startLine && row.endLine == chunk.endLine
    && row.score == 0.0 && row.origin == R.Canonical && !row.clipped
  }

  lemma {:induction false} ChunkRowsExactly(id: string, file: File, chunks: seq<Chunk>)
    requires IsRead(file) && file.utf8
    ensures forall row :: row in ChunkRows(id, file, chunks) <==> exists chunk :: chunk in chunks && IsRowOf(row, id, file, chunk)
  {
    if chunks != [] {
      ChunkRowsExactly(id, file, chunks[1..]);
      assert chunks == [chunks[0]] + chunks[1..];
      forall row ensures row in ChunkRows(id, file, chunks) <==> exists chunk :: chunk in chunks && IsRowOf(row, id, file, chunk) {
        assert IsRowOf(row, id, file, chunks[0]) <==> chunks[0].matches && row == ChunkRow(id, file, chunks[0]);
        if chunk :| chunk in chunks[1..] && IsRowOf(row, id, file, chunk) {
          assert chunk in chunks;
        }
      }
    }
  }

  ghost predicate InFile(row: R.Found, id: string, file: File) {
    exists chunk :: chunk in file.chunks && IsRowOf(row, id, file, chunk)
  }

  lemma {:induction false} TreeRowsExactly(id: string, files: seq<File>)
    ensures forall row :: row in TreeRows(id, files) <==> exists file :: file in files && InFile(row, id, file)
  {
    if files != [] {
      TreeRowsExactly(id, files[1..]);
      assert files == [files[0]] + files[1..];
      if IsRead(files[0]) && files[0].utf8 {
        ChunkRowsExactly(id, files[0], files[0].chunks);
      }
      forall row ensures row in TreeRows(id, files) <==> exists file :: file in files && InFile(row, id, file) {
        assert row in FileRows(id, files[0]) <==> InFile(row, id, files[0]);
        if file :| file in files[1..] && InFile(row, id, file) {
          assert file in files;
        }
      }
    }
  }

  /** A row of a source: of its index when that is complete, and of a file the read budget
      reaches when it is not. */
  ghost predicate IsOf(row: R.Found, readable: Readable) {
    if readable.manifest == Some(Manifest(readable.basis, COMPILER)) then row in readable.rows
    else readable.files.Some? && exists file :: file in Reached(readable.files.value, 0) && InFile(row, readable.id, file)
  }

  /** What a view holds is exactly the rows of its sources. */
  lemma EverythingExactly(view: seq<Readable>)
    ensures forall row :: row in Everything(view) <==> exists readable :: readable in view && IsOf(row, readable)
  {
    EverythingIsAll(view);
    forall row ensures row in Everything(view) <==> exists readable :: readable in view && IsOf(row, readable) {
      forall readable | readable in view ensures row in Stream(readable) <==> IsOf(row, readable) {
        StreamExactly(row, readable);
      }
    }
  }

  lemma StreamExactly(row: R.Found, readable: Readable)
    ensures row in Stream(readable) <==> IsOf(row, readable)
  {
    if readable.State().Complete? {
      R.SortHolds(readable.rows);
    } else if readable.files.Some? {
      TreeRowsExactly(readable.id, Reached(readable.files.value, 0));
    }
  }

  /** In order by score, then repository and path by code point, then first byte. */
  lemma EverythingAscends(view: seq<Readable>, i: nat, j: nat)
    requires WalkableView(view) && i < j < |Everything(view)|
    ensures var a, b := Everything(view)[i], Everything(view)[j];
            || a.score < b.score
            || (a.score == b.score && ComesFirst(a.repository, b.repository))
            || (a.score == b.score && a.repository == b.repository && ComesFirst(a.path, b.path))
            || (a.score == b.score && a.repository == b.repository && a.path == b.path && a.start < b.start)
  {
    EverythingHolds(view);
    var a, b := Everything(view)[i], Everything(view)[j];
    assert R.Before(a, b);
    PrecedesExactly(a.repository, b.repository);
    PrecedesExactly(a.path, b.path);
  }

  /** Up to some place the texts agree, and there the first ends or has the smaller character. */
  ghost predicate ComesFirst(a: string, b: string) {
    exists n :: 0 <= n <= |a| && n < |b| && a[..n] == b[..n] && (n == |a| || a[n] < b[n])
  }

  lemma PrecedesExactly(a: string, b: string)
    ensures Order.Precedes(a, b) ==> ComesFirst(a, b)
  {
    Order.BeforeExactly(Order.Codes(a), Order.Codes(b));
    if Order.Precedes(a, b) {
      var u, v := Order.Codes(a), Order.Codes(b);
      var n :| 0 <= n <= |u| && n < |v| && u[..n] == v[..n] && (n == |u| || u[n] < v[n]);
      forall k | 0 <= k < n ensures a[k] == b[k] {
        assert u[..n][k] == v[..n][k];
      }
      assert a[..n] == b[..n];
    }
  }

  // ---- what a source says --------------------------------------------------------------------------------

  /** Rows of the tree, as far as it is read, that come after the cursor. */
  ghost function Gives(readable: Readable, bounds: Bounds): seq<R.Found>
    requires readable.files.Some?
  {
    R.Beyond(TreeRows(readable.id, Reached(readable.files.value, 0)), CutOf(bounds.cursor, readable.id))
  }

  /** A complete source gives no reason; one that cannot be read says so; one that was read to
      its end and has nothing left says so; and one whose read the budget ended says so, unless
      it has filled the page. */
  lemma SourceSaysWhy(readable: Readable, bounds: Bounds)
    ensures var source := SourceOf(readable, bounds);
            && source.repository == readable.id
            && (source.state.Complete? <==> readable.manifest == Some(Manifest(readable.basis, COMPILER)))
            && (source.state.Unavailable? <==> readable.manifest.None?)
            && (source.state.Complete? ==> source.reason.None?)
            && (!source.state.Complete? ==>
                  if readable.files.None? then source.reason == Some(Unreadable)
                  else
                    && (source.reason == Some(NothingFound) <==>
                          Gives(readable, bounds) == [] && Reached(readable.files.value, 0) == readable.files.value)
                    && (source.reason == Some(BudgetReached) ==> Reached(readable.files.value, 0) != readable.files.value)
                    && (|Gives(readable, bounds)| <= bounds.rows ==>
                          (source.reason == Some(BudgetReached) <==> Reached(readable.files.value, 0) != readable.files.value)))
  {
    if !readable.State().Complete? && readable.files.Some? {
      var cut := CutOf(bounds.cursor, readable.id);
      TreeGivesItsRows(readable.id, readable.files.value, cut, bounds.rows + 1, 0);
      TreeSaysWhereItEnds(readable.id, readable.files.value, cut, bounds.rows + 1, 0);
    }
  }
}
