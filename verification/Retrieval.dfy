/** Searching a view: what each source contributes to a page, and where the page ends. */
module Retrieval {
  import opened Options
  import opened Order
  import opened Rows

  // ---- sources -------------------------------------------------------------------------------

  datatype State = Complete | Lagging | Unavailable

  /** A chunk of a file, and whether its text holds the terms asked for. */
  datatype Chunk = Chunk(start: nat, end: nat, startLine: nat, endLine: nat, matches: bool)

  /** An entry of a tree. `asked` is whether the search is of this path; `size` is what a
      read of it takes from the read budget, and `tooLarge` one that is not read at all. */
  datatype File = File(path: string, blob: string, regular: bool, asked: bool, tooLarge: bool, size: nat, utf8: bool,
                       chunks: seq<Chunk>)

  /** What a projection was built to, and by what. */
  datatype Manifest = Manifest(frontier: string, compiler: string)

  const COMPILER := "cbr-index/2"

  /** A repository of the caller's view at a basis. `rows` is what its index holds for the
      query; `files` is its tree in the order it is walked, when it can be read. */
  datatype Readable = Readable(id: string, basis: string, manifest: Option<Manifest>, rows: seq<Found>,
                               files: Option<seq<File>>) {
    /** Complete only when the index was built to this basis by this compiler. */
    function State(): State {
      if manifest.None? then Unavailable
      else if manifest.value.frontier == basis && manifest.value.compiler == COMPILER then Complete
      else Lagging
    }

    /** What a complete index was built to; the tree asked about otherwise. */
    function Frontier(): string {
      if State().Complete? then manifest.value.frontier else basis
    }
  }

  datatype Reason = BudgetReached | NothingFound | Unreadable

  datatype Source = Source(repository: string, frontier: string, state: State, reason: Option<Reason>)

  datatype Bounds = Bounds(rows: nat, cursor: Option<Key>, spanBytes: nat, batchBytes: nat)

  datatype Truncation = ByRows | ByBytes

  datatype Answer = Answer(found: seq<Found>, sources: seq<Source>, cursor: Option<Key>, truncated: Option<Truncation>)

  const CANONICAL_READ_BYTES := 8_388_608

  // ---- where a source goes on -------------------------------------------------------------------

  /** One cursor over the merged order, as each source has to read it: a source that sorts
      after the cursor's repository takes every row at the cursor's score, one that sorts
      before it takes none of them. */
  function CutOf(cursor: Option<Key>, repository: string): Cut {
    if cursor.None? then Start
    else if repository == cursor.value.repository then After(cursor.value.score, cursor.value.path, cursor.value.start, true)
    else After(cursor.value.score, "", -1, Precedes(cursor.value.repository, repository))
  }

  /** The cuts together take exactly the rows after the cursor. */
  lemma CutIsTheCursor(cursor: Option<Key>, row: Found)
    requires row.start >= 0
    ensures Passes(CutOf(cursor, row.repository), row) <==> cursor.None? || Less(cursor.value, KeyOf(row))
  {
    if cursor.Some? && row.repository != cursor.value.repository {
      PrecedesIsTotal(row.repository, cursor.value.repository);
      if row.path != "" {
        assert Codes("") == [] && |Codes(row.path)| > 0;
      }
    } else if cursor.Some? {
      PrecedesIsStrict(row.repository, row.repository);
    }
  }

  // ---- what a source contributes ------------------------------------------------------------------

  function Take(rows: seq<Found>, limit: nat): seq<Found> {
    if |rows| <= limit then rows else rows[..limit]
  }

  /** The index: the rows past the cut, in order, up to a limit. */
  function FromIndex(rows: seq<Found>, cut: Cut, limit: nat): seq<Found> {
    Take(Sort(Beyond(rows, cut)), limit)
  }

  function ChunkRow(id: string, file: File, chunk: Chunk): Found {
    Found(id, file.path, file.blob, chunk.start, chunk.end, chunk.startLine, chunk.endLine, 0.0, Canonical, false)
  }

  function ChunkRows(id: string, file: File, chunks: seq<Chunk>): seq<Found> {
    if chunks == [] then []
    else
      var rest := ChunkRows(id, file, chunks[1..]);
      if chunks[0].matches then [ChunkRow(id, file, chunks[0])] + rest else rest
  }

  predicate IsRead(file: File) {
    file.regular && file.asked && !file.tooLarge
  }

  /** Every row the tree holds, in the order it is walked. */
  function TreeRows(id: string, files: seq<File>): seq<Found> {
    if files == [] then []
    else (if IsRead(files[0]) && files[0].utf8 then ChunkRows(id, files[0], files[0].chunks) else [])
         + TreeRows(id, files[1..])
  }

  /** The bounded read of a tree: the rows past the cut up to a limit, and whether the read
      budget ended it. `read` is what has been read so far. */
  function FromTree(id: string, files: seq<File>, cut: Cut, limit: nat, read: nat): (seq<Found>, bool) {
    if files == [] || limit == 0 then ([], false)
    else if !files[0].regular || !files[0].asked then FromTree(id, files[1..], cut, limit, read)
    else if read >= CANONICAL_READ_BYTES then ([], true)
    else if files[0].tooLarge then FromTree(id, files[1..], cut, limit, read)
    else
      var rows := if files[0].utf8 then Take(Beyond(ChunkRows(id, files[0], files[0].chunks), cut), limit) else [];
      var rest := FromTree(id, files[1..], cut, limit - |rows|, read + files[0].size);
      Ahead(rows, rest)
  }

  method FromCanonical(id: string, files: seq<File>, cut: Cut, limit: nat) returns (found: seq<Found>, budgetReached: bool)
    ensures (found, budgetReached) == FromTree(id, files, cut, limit, 0)
  {
    found := [];
    var read: nat := 0;
    var i := 0;
    ghost var goal := FromTree(id, files, cut, limit, 0);
    assert files[0..] == files && [] + goal.0 == goal.0;
    while i < |files|
      invariant 0 <= i <= |files| && |found| <= limit
      invariant goal == Ahead(found, FromTree(id, files[i..], cut, limit - |found|, read))
    {
      if |found| >= limit {
        break;
      }
      var file := files[i];
      TreeStep(id, files, i, cut, limit - |found|, read);
      i := i + 1;
      if !file.regular || !file.asked {
        continue;
      }
      if read >= CANONICAL_READ_BYTES {
        assert found + [] == found;
        return found, true;
      }
      if file.tooLarge {
        continue;
      }
      read := read + file.size;
      var more := [];
      if file.utf8 {
        more := FromChunks(id, file, cut, limit - |found|);
      }
      AheadTwice(found, more, FromTree(id, files[i..], cut, limit - |found| - |more|, read));
      found := found + more;
    }
    assert found + [] == found;
    budgetReached := false;
  }

  /** What one file adds, and what it leaves. */
  lemma TreeStep(id: string, files: seq<File>, i: nat, cut: Cut, limit: nat, read: nat)
    requires i < |files| && limit > 0
    ensures var file := files[i];
            FromTree(id, files[i..], cut, limit, read)
            == if !file.regular || !file.asked then FromTree(id, files[i + 1..], cut, limit, read)
               else if read >= CANONICAL_READ_BYTES then ([], true)
               else if file.tooLarge then FromTree(id, files[i + 1..], cut, limit, read)
               else
                 var rows := if file.utf8 then Take(Beyond(ChunkRows(id, file, file.chunks), cut), limit) else [];
                 Ahead(rows, FromTree(id, files[i + 1..], cut, limit - |rows|, read + file.size))
  {
    assert files[i..][0] == files[i] && files[i..][1..] == files[i + 1..];
  }

  /** What is found so far, and then the rest. */
  function Ahead(found: seq<Found>, rest: (seq<Found>, bool)): (seq<Found>, bool) {
    (found + rest.0, rest.1)
  }

  lemma AheadTwice(found: seq<Found>, more: seq<Found>, rest: (seq<Found>, bool))
    ensures Ahead(found, Ahead(more, rest)) == Ahead(found + more, rest)
  {
    assert found + (more + rest.0) == found + more + rest.0;
  }

  method FromChunks(id: string, file: File, cut: Cut, limit: nat) returns (found: seq<Found>)
    ensures found == Take(Beyond(ChunkRows(id, file, file.chunks), cut), limit)
  {
    found := [];
    var i := 0;
    ghost var goal := Take(RowsFrom(id, file, 0, cut), limit);
    assert file.chunks[0..] == file.chunks && [] + goal == goal;
    while i < |file.chunks|
      invariant 0 <= i <= |file.chunks| && |found| <= limit
      invariant goal == found + Take(RowsFrom(id, file, i, cut), limit - |found|)
    {
      if |found| >= limit {
        break;
      }
      var chunk := file.chunks[i];
      var row := ChunkRow(id, file, chunk);
      ChunkStep(id, file, i, cut);
      i := i + 1;
      if Passes(cut, row) && chunk.matches {
        TakeOneMore(found, row, RowsFrom(id, file, i, cut), limit);
        found := found + [row];
      }
    }
    assert found + [] == found;
  }

  /** The rows past the cut from chunk `i` on. */
  function RowsFrom(id: string, file: File, i: nat, cut: Cut): seq<Found>
    requires i <= |file.chunks|
  {
    Beyond(ChunkRows(id, file, file.chunks[i..]), cut)
  }

  lemma ChunkStep(id: string, file: File, i: nat, cut: Cut)
    requires i < |file.chunks|
    ensures var row := ChunkRow(id, file, file.chunks[i]);
            var rest := RowsFrom(id, file, i + 1, cut);
            RowsFrom(id, file, i, cut) == if Passes(cut, row) && file.chunks[i].matches then [row] + rest else rest
  {
    assert file.chunks[i..][1..] == file.chunks[i + 1..];
    assert ([ChunkRow(id, file, file.chunks[i])] + ChunkRows(id, file, file.chunks[i + 1..]))[1..]
        == ChunkRows(id, file, file.chunks[i + 1..]);
  }

  lemma TakeOneMore(found: seq<Found>, row: Found, rest: seq<Found>, limit: nat)
    requires |found| < limit
    ensures found + Take([row] + rest, limit - |found|) == found + [row] + Take(rest, limit - |found| - 1)
  {
  }

  // ---- a search -----------------------------------------------------------------------------------

  /** What one repository adds to the candidates, and why it could not add more. */
  function Contribution(readable: Readable, bounds: Bounds): (seq<Found>, Option<Reason>) {
    var cut := CutOf(bounds.cursor, readable.id);
    if readable.State().Complete? then (FromIndex(readable.rows, cut, bounds.rows + 1), None)
    else if readable.files.None? then ([], Some(Unreadable))
    else
      var read := FromTree(readable.id, readable.files.value, cut, bounds.rows + 1, 0);
      (read.0, if read.1 then Some(BudgetReached) else if read.0 == [] then Some(NothingFound) else None)
  }

  function Candidates(view: seq<Readable>, bounds: Bounds): seq<Found> {
    if view == [] then [] else Candidates(view[..|view| - 1], bounds) + Contribution(view[|view| - 1], bounds).0
  }

  function SourceOf(readable: Readable, bounds: Bounds): Source {
    Source(readable.id, readable.Frontier(), readable.State(), Contribution(readable, bounds).1)
  }

  function Sources(view: seq<Readable>, bounds: Bounds): seq<Source> {
    if view == [] then [] else Sources(view[..|view| - 1], bounds) + [SourceOf(view[|view| - 1], bounds)]
  }

  function InsertById(readable: Readable, view: seq<Readable>): seq<Readable> {
    if view == [] || Precedes(readable.id, view[0].id) then [readable] + view
    else [view[0]] + InsertById(readable, view[1..])
  }

  function ById(view: seq<Readable>): seq<Readable> {
    if view == [] then [] else InsertById(view[0], ById(view[1..]))
  }

  /** A row as a page holds it: cut to the longest span one read may have. */
  function Clip(row: Found, spanBytes: nat): Found {
    if row.end - row.start > spanBytes then row.(end := row.start + spanBytes, clipped := true) else row
  }

  function Span(row: Found): nat {
    if row.end < row.start then 0 else row.end - row.start
  }

  function Clipped(rows: seq<Found>, spanBytes: nat): (clipped: seq<Found>)
    ensures |clipped| == |rows| && forall i :: 0 <= i < |rows| ==> clipped[i] == Clip(rows[i], spanBytes)
  {
    seq(|rows|, i requires 0 <= i < |rows| => Clip(rows[i], spanBytes))
  }

  /** How many candidates the page holds, `n` of them so far with `bytes`, and what ended it. */
  function PageEnd(candidates: seq<Found>, bounds: Bounds, n: nat, bytes: nat): (nat, Option<Truncation>)
    requires n <= |candidates|
    decreases |candidates| - n
  {
    if n == |candidates| then (n, None)
    else if n >= bounds.rows then (n, Some(ByRows))
    else
      var span := Span(Clip(candidates[n], bounds.spanBytes));
      if n > 0 && bytes + span > bounds.batchBytes then (n, Some(ByBytes))
      else PageEnd(candidates, bounds, n + 1, bytes + span)
  }

  function Page(candidates: seq<Found>, sources: seq<Source>, bounds: Bounds): Answer {
    var end := PageEnd(candidates, bounds, 0, 0);
    PageEndIsInside(candidates, bounds, 0, 0);
    var cursor := if 0 < end.0 < |candidates| then Some(KeyOf(candidates[end.0 - 1])) else None;
    Answer(Clipped(candidates[..end.0], bounds.spanBytes), sources, cursor, if cursor.None? then None else end.1)
  }

  /** An answer as a whole. A search for no terms finds nothing, in a complete source. */
  function SearchOf(view: seq<Readable>, bounds: Bounds, noTerms: bool): Answer {
    if noTerms then Page([], NoSources(ById(view)), bounds)
    else Page(Sort(Candidates(ById(view), bounds)), Sources(ById(view), bounds), bounds)
  }

  function NoSources(view: seq<Readable>): seq<Source> {
    if view == [] then []
    else NoSources(view[..|view| - 1]) + [Source(view[|view| - 1].id, view[|view| - 1].Frontier(), Complete, None)]
  }

  lemma {:induction false} PageEndIsInside(candidates: seq<Found>, bounds: Bounds, n: nat, bytes: nat)
    requires n <= |candidates|
    ensures n <= PageEnd(candidates, bounds, n, bytes).0 <= |candidates|
    ensures n <= bounds.rows ==> PageEnd(candidates, bounds, n, bytes).0 <= bounds.rows
    ensures n == 0 < bounds.rows && candidates != [] ==> PageEnd(candidates, bounds, n, bytes).0 > 0
    decreases |candidates| - n
  {
    if n < |candidates| && n < bounds.rows {
      var span := Span(Clip(candidates[n], bounds.spanBytes));
      if n == 0 || bytes + span <= bounds.batchBytes {
        PageEndIsInside(candidates, bounds, n + 1, bytes + span);
      }
    }
  }

  lemma OneMoreSource(view: seq<Readable>, i: nat, bounds: Bounds)
    requires i < |view|
    ensures Candidates(view[..i + 1], bounds) == Candidates(view[..i], bounds) + Contribution(view[i], bounds).0
    ensures Sources(view[..i + 1], bounds) == Sources(view[..i], bounds) + [SourceOf(view[i], bounds)]
    ensures NoSources(view[..i + 1]) == NoSources(view[..i]) + [Source(view[i].id, view[i].Frontier(), Complete, None)]
  {
    assert view[..i + 1][..i] == view[..i];
  }

  method Search(view: seq<Readable>, bounds: Bounds, noTerms: bool) returns (answer: Answer)
    ensures answer == SearchOf(view, bounds, noTerms)
  {
    var readable := ById(view);
    var sources: seq<Source>;
    var candidates: seq<Found> := [];
    if noTerms {
      sources := NoneSearched(readable);
    } else {
      candidates, sources := Gather(readable, bounds);
    }
    answer := TakePage(Sort(candidates), sources, bounds);
  }

  method Gather(readable: seq<Readable>, bounds: Bounds) returns (candidates: seq<Found>, sources: seq<Source>)
    ensures candidates == Candidates(readable, bounds) && sources == Sources(readable, bounds)
  {
    candidates, sources := [], [];
    var i := 0;
    while i < |readable|
      invariant 0 <= i <= |readable|
      invariant sources == Sources(readable[..i], bounds) && candidates == Candidates(readable[..i], bounds)
    {
      var found, reason := Contribute(readable[i], bounds);
      OneMoreSource(readable, i, bounds);
      candidates := candidates + found;
      sources := sources + [Source(readable[i].id, readable[i].Frontier(), readable[i].State(), reason)];
      i := i + 1;
    }
    assert readable[..i] == readable;
  }

  method NoneSearched(readable: seq<Readable>) returns (sources: seq<Source>)
    ensures sources == NoSources(readable)
  {
    sources := [];
    var i := 0;
    while i < |readable|
      invariant 0 <= i <= |readable| && sources == NoSources(readable[..i])
    {
      OneMoreSource(readable, i, Bounds(0, None, 0, 0));
      sources := sources + [Source(readable[i].id, readable[i].Frontier(), Complete, None)];
      i := i + 1;
    }
    assert readable[..i] == readable;
  }

  method Contribute(readable: Readable, bounds: Bounds) returns (found: seq<Found>, reason: Option<Reason>)
    ensures (found, reason) == Contribution(readable, bounds)
  {
    var cut := CutOf(bounds.cursor, readable.id);
    reason := None;
    if readable.State().Complete? {
      found := FromIndex(readable.rows, cut, bounds.rows + 1);
    } else if readable.files.None? {
      found, reason := [], Some(Unreadable);
    } else {
      var budgetReached: bool;
      found, budgetReached := FromCanonical(readable.id, readable.files.value, cut, bounds.rows + 1);
      if budgetReached {
        reason := Some(BudgetReached);
      } else if found == [] {
        reason := Some(NothingFound);
      }
    }
  }

  method TakePage(candidates: seq<Found>, sources: seq<Source>, bounds: Bounds) returns (answer: Answer)
    ensures answer == Page(candidates, sources, bounds)
  {
    var found: seq<Found> := [];
    var bytes: nat := 0;
    var truncated: Option<Truncation> := None;
    ghost var end := PageEnd(candidates, bounds, 0, 0);
    var n := 0;
    while n < |candidates|
      invariant 0 <= n <= |candidates| && found == Clipped(candidates[..n], bounds.spanBytes)
      invariant truncated == None && PageEnd(candidates, bounds, n, bytes) == end
    {
      if |found| >= bounds.rows {
        truncated := Some(ByRows);
        break;
      }
      var candidate := Clip(candidates[n], bounds.spanBytes);
      var span := Span(candidate);
      if found != [] && bytes + span > bounds.batchBytes {
        truncated := Some(ByBytes);
        break;
      }
      bytes := bytes + span;
      assert candidates[..n + 1] == candidates[..n] + [candidates[n]];
      found := found + [candidate];
      n := n + 1;
    }
    var cursor := if |candidates| > |found| && found != [] then Some(KeyOf(found[|found| - 1])) else None;
    if cursor.None? {
      truncated := None;
    }
    answer := Answer(found, sources, cursor, truncated);
  }
}
