/** What every answer keeps to, whatever its sources; and when exactly one hides a gap. */
module Answers {
  import opened Options
  import opened Order
  import R = Rows
  import opened Retrieval
  import opened Paging
  import opened Walking
  import Losing

  // ---- the caps ------------------------------------------------------------------------------------

  function TotalSpan(rows: seq<R.Found>): nat {
    if rows == [] then 0 else TotalSpan(rows[..|rows| - 1]) + Span(rows[|rows| - 1])
  }

  /** The bytes of the first `n` candidates, as a page holds them. */
  function FirstSpans(candidates: seq<R.Found>, spanBytes: nat, n: nat): nat
    requires n <= |candidates|
  {
    if n == 0 then 0 else FirstSpans(candidates, spanBytes, n - 1) + Span(Clip(candidates[n - 1], spanBytes))
  }

  lemma {:induction false} FirstSpansAreTotal(candidates: seq<R.Found>, spanBytes: nat, n: nat)
    requires n <= |candidates|
    ensures TotalSpan(Clipped(candidates[..n], spanBytes)) == FirstSpans(candidates, spanBytes, n)
  {
    if n > 0 {
      FirstSpansAreTotal(candidates, spanBytes, n - 1);
      var first := Clipped(candidates[..n], spanBytes);
      assert first[..n - 1] == Clipped(candidates[..n - 1], spanBytes);
      assert first[n - 1] == Clip(candidates[n - 1], spanBytes);
    }
  }

  lemma {:induction false} SpansGrow(candidates: seq<R.Found>, spanBytes: nat, m: nat, n: nat)
    requires m <= n <= |candidates|
    ensures FirstSpans(candidates, spanBytes, m) <= FirstSpans(candidates, spanBytes, n)
  {
    if m < n {
      SpansGrow(candidates, spanBytes, m, n - 1);
    }
  }

  /** The first `n` candidates are no more than a page, in rows and, unless it is one, in bytes. */
  predicate FitsOnPage(candidates: seq<R.Found>, bounds: Bounds, n: nat)
    requires n <= |candidates|
  {
    n <= bounds.rows && (n <= 1 || FirstSpans(candidates, bounds.spanBytes, n) <= bounds.batchBytes)
  }

  lemma {:induction false} PageReaches(candidates: seq<R.Found>, bounds: Bounds, m: nat, bytes: nat, n: nat)
    requires m <= n <= |candidates| && FitsOnPage(candidates, bounds, m)
    requires bytes == FirstSpans(candidates, bounds.spanBytes, m)
    ensures n <= PageEnd(candidates, bounds, m, bytes).0 <==> FitsOnPage(candidates, bounds, n)
    decreases n - m
  {
    PageEndIsInside(candidates, bounds, m, bytes);
    if m < n && m < bounds.rows {
      var more := bytes + Span(Clip(candidates[m], bounds.spanBytes));
      assert more == FirstSpans(candidates, bounds.spanBytes, m + 1);
      if m == 0 || more <= bounds.batchBytes {
        PageReaches(candidates, bounds, m + 1, more, n);
      } else {
        SpansGrow(candidates, bounds.spanBytes, m + 1, n);
      }
    }
  }

  /** A page is the most candidates that fit on one. */
  lemma PageIsTheMost(candidates: seq<R.Found>, bounds: Bounds, n: nat)
    requires n <= |candidates|
    ensures n <= PageEnd(candidates, bounds, 0, 0).0 <==> FitsOnPage(candidates, bounds, n)
  {
    PageReaches(candidates, bounds, 0, 0, n);
  }

  /** Every answer: no more rows than a page, no span above its cap, and bytes within the
      batch unless it is a single row. */
  lemma AnswerKeepsToItsCaps(view: seq<Readable>, bounds: Bounds, noTerms: bool)
    ensures var found := SearchOf(view, bounds, noTerms).found;
            && |found| <= bounds.rows
            && (forall row :: row in found ==> Span(row) <= bounds.spanBytes)
            && (TotalSpan(found) <= bounds.batchBytes || |found| == 1)
  {
    var candidates := if noTerms then [] else R.Sort(Candidates(ById(view), bounds));
    var end := PageEnd(candidates, bounds, 0, 0).0;
    PageEndIsInside(candidates, bounds, 0, 0);
    PageIsTheMost(candidates, bounds, end);
    FirstSpansAreTotal(candidates, bounds.spanBytes, end);
  }

  // ---- what an answer names ---------------------------------------------------------------------------

  /** Whatever the indexes hold, an answer names the tree it was asked about, once for every
      repository in the view and for no other; and calls complete only what was built to that
      tree by this compiler, or was asked nothing. */
  lemma AnswerNamesTheBasis(view: seq<Readable>, bounds: Bounds, noTerms: bool)
    ensures var sources := SearchOf(view, bounds, noTerms).sources;
            && |sources| == |view|
            && (forall source :: source in sources ==> exists readable :: readable in view && Names(source, readable, noTerms))
            && forall readable :: readable in view ==> exists source :: source in sources && Names(source, readable, noTerms)
  {
    var sorted := ById(view);
    ByIdHolds(view);
    AsManyById(view);
    if noTerms {
      NoSourcesName(sorted);
    } else {
      SourcesName(sorted, bounds);
    }
  }

  predicate Names(source: Source, readable: Readable, noTerms: bool) {
    && source.repository == readable.id && source.frontier == readable.basis
    && (source.state.Complete? <==> noTerms || readable.manifest == Some(Manifest(readable.basis, COMPILER)))
  }

  lemma {:induction false} AsManyById(view: seq<Readable>)
    ensures |ById(view)| == |view|
  {
    if view != [] {
      AsManyById(view[1..]);
      OneMoreById(view[0], ById(view[1..]));
    }
  }

  lemma {:induction false} OneMoreById(readable: Readable, view: seq<Readable>)
    ensures |InsertById(readable, view)| == |view| + 1
  {
    if view != [] && !Precedes(readable.id, view[0].id) {
      OneMoreById(readable, view[1..]);
    }
  }

  lemma {:induction false} SourcesName(view: seq<Readable>, bounds: Bounds)
    ensures var sources := Sources(view, bounds);
            |sources| == |view| && forall i :: 0 <= i < |view| ==> Names(sources[i], view[i], false)
  {
    if view != [] {
      SourcesName(view[..|view| - 1], bounds);
    }
  }

  lemma {:induction false} NoSourcesName(view: seq<Readable>)
    ensures var sources := NoSources(view);
            |sources| == |view| && forall i :: 0 <= i < |view| ==> Names(sources[i], view[i], true)
  {
    if view != [] {
      NoSourcesName(view[..|view| - 1]);
    }
  }

  // ---- gaps ----------------------------------------------------------------------------------------

  ghost predicate DeclaresItsGaps(answer: Answer) {
    forall source :: source in answer.sources && !source.state.Complete? && source.reason.None?
      ==> exists row :: row in answer.found && row.repository == source.repository && row.origin.Canonical?
  }

  lemma {:induction false} TreeRowsAreCanonical(id: string, files: seq<File>, cut: R.Cut, limit: nat, read: nat)
    ensures forall row :: row in FromTree(id, files, cut, limit, read).0
              ==> row.repository == id && row.origin.Canonical? && row.start >= 0 && R.Passes(cut, row)
    decreases |files|
  {
    if files != [] && limit > 0 {
      var file := files[0];
      if !file.regular || !file.asked || file.tooLarge {
        TreeRowsAreCanonical(id, files[1..], cut, limit, read);
      } else if read < CANONICAL_READ_BYTES {
        var rows := if file.utf8 then Take(R.Beyond(ChunkRows(id, file, file.chunks), cut), limit) else [];
        TreeRowsAreCanonical(id, files[1..], cut, limit - |rows|, read + file.size);
        R.BeyondHolds(ChunkRows(id, file, file.chunks), cut);
        ChunksAreCanonical(id, file, file.chunks);
      }
    }
  }

  lemma {:induction false} ChunksAreCanonical(id: string, file: File, chunks: seq<Chunk>)
    ensures forall row :: row in ChunkRows(id, file, chunks)
              ==> row.repository == id && row.origin.Canonical? && row.start >= 0
  {
    if chunks != [] {
      ChunksAreCanonical(id, file, chunks[1..]);
    }
  }

  lemma {:induction false} NoSourcesAreComplete(view: seq<Readable>)
    ensures forall source :: source in NoSources(view) ==> source.state.Complete?
  {
    if view != [] {
      NoSourcesAreComplete(view[..|view| - 1]);
    }
  }

  lemma {:induction false} SourcesHold(view: seq<Readable>, bounds: Bounds)
    ensures forall source :: source in Sources(view, bounds)
              <==> exists readable :: readable in view && source == SourceOf(readable, bounds)
  {
    if view != [] {
      var before, last := view[..|view| - 1], view[|view| - 1];
      SourcesHold(before, bounds);
      assert view == before + [last];
      forall source
        ensures source in Sources(view, bounds)
                <==> exists readable :: readable in view && source == SourceOf(readable, bounds)
      {
        if readable :| readable in before && source == SourceOf(readable, bounds) {
          assert readable in view;
        }
      }
    }
  }

  /** A source that is not complete and does not say why. */
  predicate Silent(readable: Readable, bounds: Bounds) {
    !readable.State().Complete? && Contribution(readable, bounds).1.None?
  }

  predicate SpeaksFor(row: R.Found, id: string) {
    row.repository == id && row.origin.Canonical?
  }

  /** Among as many of the candidates as fit on a page, one is a row of the repository. */
  ghost predicate IsShown(view: seq<Readable>, bounds: Bounds, id: string) {
    var candidates := R.Sort(Candidates(ById(view), bounds));
    exists i :: 0 <= i < |candidates| && SpeaksFor(candidates[i], id) && FitsOnPage(candidates, bounds, i + 1)
  }

  lemma PageShows(candidates: seq<R.Found>, sources: seq<Source>, bounds: Bounds, i: nat)
    requires i < |candidates|
    ensures var found := Page(candidates, sources, bounds).found;
            && |found| <= |candidates| && (i < |found| <==> FitsOnPage(candidates, bounds, i + 1))
            && (i < |found| ==> found[i] == Clip(candidates[i], bounds.spanBytes))
  {
    PageEndIsInside(candidates, bounds, 0, 0);
    PageIsTheMost(candidates, bounds, i + 1);
  }

  lemma ShownIsFound(view: seq<Readable>, bounds: Bounds, id: string)
    requires IsShown(view, bounds, id)
    ensures exists row :: row in SearchOf(view, bounds, false).found && row.repository == id && row.origin.Canonical?
  {
    var candidates, found := R.Sort(Candidates(ById(view), bounds)), SearchOf(view, bounds, false).found;
    var i :| 0 <= i < |candidates| && SpeaksFor(candidates[i], id) && FitsOnPage(candidates, bounds, i + 1);
    PageShows(candidates, Sources(ById(view), bounds), bounds, i);
    assert found[i] in found;
  }

  lemma FoundIsShown(view: seq<Readable>, bounds: Bounds, id: string, row: R.Found)
    requires row in SearchOf(view, bounds, false).found && row.repository == id && row.origin.Canonical?
    ensures IsShown(view, bounds, id)
  {
    var candidates, found := R.Sort(Candidates(ById(view), bounds)), SearchOf(view, bounds, false).found;
    PageEndIsInside(candidates, bounds, 0, 0);
    var i :| 0 <= i < |found| && found[i] == row;
    PageShows(candidates, Sources(ById(view), bounds), bounds, i);
    assert SpeaksFor(candidates[i], id);
  }

  /** For every view and bounds: an answer declares its gaps exactly when each source that is
      silent about one has a row among the candidates that fit on the page. */
  lemma DeclaresExactly(view: seq<Readable>, bounds: Bounds)
    ensures DeclaresItsGaps(SearchOf(view, bounds, false))
            <==> forall readable :: readable in view && Silent(readable, bounds) ==> IsShown(view, bounds, readable.id)
  {
    var answer := SearchOf(view, bounds, false);
    ByIdHolds(view);
    SourcesHold(ById(view), bounds);
    if DeclaresItsGaps(answer) {
      forall readable | readable in view && Silent(readable, bounds)
        ensures IsShown(view, bounds, readable.id)
      {
        assert SourceOf(readable, bounds) in answer.sources;
        var row :| row in answer.found && row.repository == readable.id && row.origin.Canonical?;
        FoundIsShown(view, bounds, readable.id, row);
      }
    }
    if forall readable :: readable in view && Silent(readable, bounds) ==> IsShown(view, bounds, readable.id) {
      forall source | source in answer.sources && !source.state.Complete? && source.reason.None?
        ensures exists row :: row in answer.found && row.repository == source.repository && row.origin.Canonical?
      {
        var readable :| readable in ById(view) && source == SourceOf(readable, bounds);
        assert Silent(readable, bounds);
        ShownIsFound(view, bounds, readable.id);
      }
    }
  }

  /** A silent source has a candidate. */
  lemma SilentHasACandidate(view: seq<Readable>, bounds: Bounds, readable: Readable) returns (i: nat)
    requires readable in view && Silent(readable, bounds)
    ensures var candidates := R.Sort(Candidates(ById(view), bounds));
            i < |candidates| && SpeaksFor(candidates[i], readable.id)
  {
    var candidates := R.Sort(Candidates(ById(view), bounds));
    var row := SilentContributes(readable, bounds);
    ContributedIsCandidate(view, bounds, readable, row);
    i :| 0 <= i < |candidates| && candidates[i] == row;
  }

  lemma SilentContributes(readable: Readable, bounds: Bounds) returns (row: R.Found)
    requires Silent(readable, bounds)
    ensures row in Contribution(readable, bounds).0 && SpeaksFor(row, readable.id)
  {
    TreeRowsAreCanonical(readable.id, readable.files.value, CutOf(bounds.cursor, readable.id), bounds.rows + 1, 0);
    row := Contribution(readable, bounds).0[0];
  }

  /** So it does when all the candidates fit on a page, or some page shows them all; when there
      is one repository and a row to a page; and when nothing was asked. With no row to a page
      it does exactly when no source is silent. */
  lemma WhenItDeclares(view: seq<Readable>, bounds: Bounds)
    ensures var candidates := R.Sort(Candidates(ById(view), bounds));
            FitsOnPage(candidates, bounds, |candidates|) ==> DeclaresItsGaps(SearchOf(view, bounds, false))
    ensures bounds.rows >= 1 && SearchOf(view, bounds, false).cursor.None? ==> DeclaresItsGaps(SearchOf(view, bounds, false))
    ensures DeclaresItsGaps(SearchOf(view, bounds, true))
    ensures bounds.rows == 0 ==>
              (DeclaresItsGaps(SearchOf(view, bounds, false)) <==> forall readable :: readable in view ==> !Silent(readable, bounds))
  {
    var candidates := R.Sort(Candidates(ById(view), bounds));
    NoSourcesAreComplete(ById(view));
    DeclaresExactly(view, bounds);
    PageEndIsInside(candidates, bounds, 0, 0);
    PageIsTheMost(candidates, bounds, |candidates|);
    if FitsOnPage(candidates, bounds, |candidates|) {
      forall readable | readable in view && Silent(readable, bounds)
        ensures IsShown(view, bounds, readable.id)
      {
        var i := SilentHasACandidate(view, bounds, readable);
        PageIsTheMost(candidates, bounds, i + 1);
      }
    }
  }

  lemma OneRepositoryDeclares(readable: Readable, bounds: Bounds)
    requires bounds.rows >= 1
    ensures DeclaresItsGaps(SearchOf([readable], bounds, false))
  {
    var view := [readable];
    DeclaresExactly(view, bounds);
    if Silent(readable, bounds) {
      var candidates := R.Sort(Candidates(ById(view), bounds));
      var i := SilentHasACandidate(view, bounds, readable);
      assert view[1..] == [] && ById(view) == [readable] && view[..0] == [];
      TreeRowsAreCanonical(readable.id, readable.files.value, CutOf(bounds.cursor, readable.id), bounds.rows + 1, 0);
      R.SortHolds(Candidates(ById(view), bounds));
      assert candidates[0] in candidates;
      assert candidates[0] in Contribution(readable, bounds).0;
      assert SpeaksFor(candidates[0], readable.id) && FitsOnPage(candidates, bounds, 1);
    }
  }

  // ---- an answer that hides one ------------------------------------------------------------------------

  function Behindhand(id: string): Readable {
    Readable(id, "now", Some(Manifest("then", COMPILER)), [], Some([Losing.OneChunk("f")]))
  }

  lemma OneRow(id: string, bounds: Bounds)
    requires bounds.rows == 1 && bounds.cursor.None?
    ensures Contribution(Behindhand(id), bounds) == ([Losing.RowAt(id, "f")], None)
  {
    var files, row := Behindhand(id).files.value, Losing.RowAt(id, "f");
    Losing.OneRowAFile(id, "f", []);
    assert [Losing.OneChunk("f")] + [] == files && files[1..] == [];
    assert Reached(files, 0) == files;
    TreeGivesItsRows(id, files, R.Start, 2, 0);
    TreeSaysWhereItEnds(id, files, R.Start, 2, 0);
    assert [row][1..] == [] && R.Beyond([row], R.Start) == [row] + R.Beyond([], R.Start);
  }

  /** Two repositories, each behind and each with a row: a page of one shows the first's, and
      the second says nothing is wrong. */
  lemma TruncatedPageHidesAGap(bounds: Bounds)
    requires bounds.rows == 1 && bounds.cursor.None?
    ensures !DeclaresItsGaps(SearchOf([Behindhand("a"), Behindhand("b")], bounds, false))
  {
    var view, first, second := [Behindhand("a"), Behindhand("b")], Losing.RowAt("a", "f"), Losing.RowAt("b", "f");
    OneRow("a", bounds);
    OneRow("b", bounds);
    Losing.LetterFirst("a", "b");
    InOrderById(Behindhand("a"), Behindhand("b"));
    TwoCandidates(Behindhand("a"), Behindhand("b"), bounds, first, second);
    TwoRows(first, second);
    DeclaresExactly(view, bounds);
    assert Silent(view[1], bounds) && !IsShown(view, bounds, "b");
  }

  lemma InOrderById(first: Readable, second: Readable)
    requires Precedes(first.id, second.id)
    ensures ById([first, second]) == [first, second]
  {
    assert [first, second][1..] == [second] && [second][1..] == [];
    assert ById([second]) == [second];
  }

  lemma TwoCandidates(first: Readable, second: Readable, bounds: Bounds, a: R.Found, b: R.Found)
    requires Contribution(first, bounds).0 == [a] && Contribution(second, bounds).0 == [b]
    ensures Candidates([first, second], bounds) == [a, b]
  {
    var view := [first, second];
    assert view[..|view| - 1] == [first] && [first][..|[first]| - 1] == [];
    assert Candidates([], bounds) == [];
    assert Candidates([first], bounds) == Candidates([], bounds) + [a];
    assert Candidates(view, bounds) == Candidates([first], bounds) + [b];
  }

  lemma TwoRows(a: R.Found, b: R.Found)
    requires R.Before(a, b)
    ensures R.Sort([a, b]) == [a, b]
  {
    assert [a, b][1..] == [b] && [b][1..] == [];
    assert R.Sort([b]) == [b];
  }
}
