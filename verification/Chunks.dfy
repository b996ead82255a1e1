/** Cutting a text into chunks, and finding a chunk's neighbours again. */
module Chunks {
  import opened Bytes
  import opened Options

  /** `end` is one past the last byte; lines count from one. */
  datatype Chunk = Chunk(start: nat, end: nat, startLine: nat, endLine: nat)

  /** The line feeds from one place of a text to another. */
  function Newlines(text: seq<Byte>, from: nat, to: nat): nat
    requires from <= to <= |text|
  {
    if from == to then 0 else Newlines(text, from, to - 1) + (if text[to - 1] == LINE_FEED then 1 else 0)
  }

  /** Where the last line of a piece starts: a line feed at the very end belongs to it. */
  function LastLine(text: seq<Byte>, from: nat, to: nat): (start: nat)
    requires from < to <= |text|
    ensures from <= start < to
  {
    if from + 1 == to then from
    else if text[to - 2] == LINE_FEED then to - 1
    else LastLine(text, from, to - 1)
  }

  // ---- what a cut is ---------------------------------------------------------------------------

  predicate Inside(text: seq<Byte>, chunk: Chunk) {
    chunk.start < chunk.end <= |text|
  }

  /** A chunk within both bounds, that starts at the line it says. */
  predicate Fits(text: seq<Byte>, chunk: Chunk, lines: nat, bytes: nat) {
    && Inside(text, chunk)
    && chunk.startLine == 1 + Newlines(text, 0, chunk.start)
    && Newlines(text, chunk.start, chunk.end) <= lines
    && LastLine(text, chunk.start, chunk.end) - chunk.start < bytes
  }

  /** It ends with the line that fills it, and with the number of that line. */
  predicate Full(text: seq<Byte>, chunk: Chunk, lines: nat, bytes: nat) {
    && Inside(text, chunk)
    && text[chunk.end - 1] == LINE_FEED
    && (Newlines(text, chunk.start, chunk.end) == lines || chunk.end - chunk.start >= bytes)
    && chunk.endLine == Newlines(text, 0, chunk.end)
  }

  /** It is the end of the text and no line fills it; it counts the line after its last
      line feed, whether or not anything is there. */
  predicate Partial(text: seq<Byte>, chunk: Chunk, lines: nat, bytes: nat) {
    && Inside(text, chunk) && chunk.end == |text|
    && Newlines(text, chunk.start, |text|) < lines
    && (text[|text| - 1] == LINE_FEED ==> chunk.end - chunk.start < bytes)
    && chunk.endLine == 1 + Newlines(text, 0, |text|)
  }

  /** One after another from the start of the text to `to`. */
  predicate Tile(chunks: seq<Chunk>, to: nat) {
    if chunks == [] then to == 0
    else
      var last := chunks[|chunks| - 1];
      last.end == to && last.start < to && Tile(chunks[..|chunks| - 1], last.start)
  }

  /** The whole text, each chunk filled before the next begins. */
  ghost predicate Cut(text: seq<Byte>, chunks: seq<Chunk>, lines: nat, bytes: nat) {
    && Tile(chunks, |text|)
    && (forall i :: 0 <= i < |chunks| ==> Fits(text, chunks[i], lines, bytes))
    && (forall i :: 0 <= i < |chunks| - 1 ==> Full(text, chunks[i], lines, bytes))
    && (chunks != [] ==>
          Full(text, chunks[|chunks| - 1], lines, bytes) || Partial(text, chunks[|chunks| - 1], lines, bytes))
  }

  lemma {:induction false} NewlinesUpTo(text: seq<Byte>, start: nat, end: nat)
    requires start <= end <= |text|
    ensures Newlines(text, 0, end) == Newlines(text, 0, start) + Newlines(text, start, end)
    decreases end
  {
    if start < end {
      NewlinesUpTo(text, start, end - 1);
    }
  }

  // ---- the cut -------------------------------------------------------------------------------------

  /** The chunks so far, up to where the next begins. */
  predicate Filled(text: seq<Byte>, chunks: seq<Chunk>, to: nat, lines: nat, bytes: nat) {
    if chunks == [] then to == 0
    else
      var last := chunks[|chunks| - 1];
      last.end == to && Fits(text, last, lines, bytes) && Full(text, last, lines, bytes)
      && Filled(text, chunks[..|chunks| - 1], last.start, lines, bytes)
  }

  lemma {:induction false} FilledHolds(text: seq<Byte>, chunks: seq<Chunk>, to: nat, lines: nat, bytes: nat)
    requires Filled(text, chunks, to, lines, bytes)
    ensures Tile(chunks, to)
    ensures forall i :: 0 <= i < |chunks| ==> Fits(text, chunks[i], lines, bytes) && Full(text, chunks[i], lines, bytes)
  {
    if chunks != [] {
      FilledHolds(text, chunks[..|chunks| - 1], chunks[|chunks| - 1].start, lines, bytes);
    }
  }

  /** What the loop has seen since: not yet a chunk. */
  predicate Open(text: seq<Byte>, start: nat, offset: nat, lines: nat, bytes: nat) {
    && start <= offset <= |text|
    && Newlines(text, start, offset) < lines
    && (start < offset ==> LastLine(text, start, offset) - start < bytes)
    && (start < offset && text[offset - 1] == LINE_FEED ==> offset - start < bytes)
  }

  lemma AddChunk(text: seq<Byte>, chunks: seq<Chunk>, chunk: Chunk, lines: nat, bytes: nat)
    requires Filled(text, chunks, chunk.start, lines, bytes)
    requires Fits(text, chunk, lines, bytes) && Full(text, chunk, lines, bytes)
    ensures Filled(text, chunks + [chunk], chunk.end, lines, bytes)
  {
    assert (chunks + [chunk])[..|chunks|] == chunks;
  }

  lemma OneByteOn(text: seq<Byte>, start: nat, offset: nat, lines: nat, bytes: nat)
    requires lines >= 1 && bytes >= 1 && Open(text, start, offset, lines, bytes) && offset < |text|
    ensures var counted := Newlines(text, start, offset + 1);
            && counted == Newlines(text, start, offset) + (if text[offset] == LINE_FEED then 1 else 0)
            && if text[offset] == LINE_FEED && (counted == lines || offset + 1 - start >= bytes)
               then
                 var startLine := 1 + Newlines(text, 0, start);
                 var chunk := Chunk(start, offset + 1, startLine, startLine + counted - 1);
                 && Fits(text, chunk, lines, bytes) && Full(text, chunk, lines, bytes)
                 && startLine + counted == 1 + Newlines(text, 0, offset + 1)
               else Open(text, start, offset + 1, lines, bytes)
  {
    NewlinesUpTo(text, start, offset + 1);
  }

  method FullChunks(text: seq<Byte>, lines: nat, bytes: nat) returns (chunks: seq<Chunk>, start: nat, startLine: nat)
    requires lines >= 1 && bytes >= 1
    ensures Filled(text, chunks, start, lines, bytes) && Open(text, start, |text|, lines, bytes)
    ensures startLine == 1 + Newlines(text, 0, start)
  {
    chunks, start, startLine := [], 0, 1;
    var counted := 0;
    var offset := 0;
    while offset < |text|
      invariant Open(text, start, offset, lines, bytes) && Filled(text, chunks, start, lines, bytes)
      invariant startLine == 1 + Newlines(text, 0, start) && counted == Newlines(text, start, offset)
    {
      OneByteOn(text, start, offset, lines, bytes);
      offset := offset + 1;
      if text[offset - 1] == LINE_FEED {
        counted := counted + 1;
        if counted == lines || offset - start >= bytes {
          AddChunk(text, chunks, Chunk(start, offset, startLine, startLine + counted - 1), lines, bytes);
          chunks := chunks + [Chunk(start, offset, startLine, startLine + counted - 1)];
          start, startLine, counted := offset, startLine + counted, 0;
          NothingYet(text, offset, lines, bytes);
        }
      }
    }
  }

  lemma NothingYet(text: seq<Byte>, offset: nat, lines: nat, bytes: nat)
    requires lines >= 1 && offset <= |text|
    ensures Open(text, offset, offset, lines, bytes) && Newlines(text, offset, offset) == 0
  {
  }

  lemma AddLast(text: seq<Byte>, chunks: seq<Chunk>, chunk: Chunk, lines: nat, bytes: nat)
    requires Filled(text, chunks, chunk.start, lines, bytes)
    requires Fits(text, chunk, lines, bytes) && Partial(text, chunk, lines, bytes)
    ensures Cut(text, chunks + [chunk], lines, bytes)
  {
    FilledHolds(text, chunks, chunk.start, lines, bytes);
    assert (chunks + [chunk])[..|chunks|] == chunks;
  }

  lemma LastIsPartial(text: seq<Byte>, start: nat, lines: nat, bytes: nat)
    requires lines >= 1 && bytes >= 1 && Open(text, start, |text|, lines, bytes) && start < |text|
    ensures var startLine := 1 + Newlines(text, 0, start);
            var chunk := Chunk(start, |text|, startLine, startLine + Newlines(text, start, |text|));
            Fits(text, chunk, lines, bytes) && Partial(text, chunk, lines, bytes)
  {
    NewlinesUpTo(text, start, |text|);
  }

  /** Every byte is in one chunk, in order: each chunk but the last ends with the line that
      fills it, by count or by size, and starts at its own line. */
  method ChunksBounded(text: seq<Byte>, wantedLines: nat, wantedBytes: nat) returns (chunks: seq<Chunk>)
    ensures Cut(text, chunks, if wantedLines < 1 then 1 else wantedLines, if wantedBytes < 1 then 1 else wantedBytes)
  {
    var lines := if wantedLines < 1 then 1 else wantedLines;
    var bytes := if wantedBytes < 1 then 1 else wantedBytes;
    var start, startLine;
    chunks, start, startLine := FullChunks(text, lines, bytes);
    if start < |text| {
      var chunk := Chunk(start, |text|, startLine, startLine + Newlines(text, start, |text|));
      LastIsPartial(text, start, lines, bytes);
      AddLast(text, chunks, chunk, lines, bytes);
      chunks := chunks + [chunk];
    } else {
      FilledHolds(text, chunks, start, lines, bytes);
    }
  }

  // ---- what a cut gives a reader ----------------------------------------------------------------------

  function TextOf(text: seq<Byte>, chunks: seq<Chunk>): seq<Byte> {
    if chunks == [] then []
    else
      var last := chunks[|chunks| - 1];
      TextOf(text, chunks[..|chunks| - 1]) + (if Inside(text, last) then text[last.start..last.end] else [])
  }

  /** Put together again, the chunks are the text. */
  lemma {:induction false} ChunksAreTheText(text: seq<Byte>, chunks: seq<Chunk>, to: nat)
    requires Tile(chunks, to) && to <= |text|
    ensures TextOf(text, chunks) == text[..to]
  {
    if chunks != [] {
      var last := chunks[|chunks| - 1];
      ChunksAreTheText(text, chunks[..|chunks| - 1], last.start);
      assert text[..to] == text[..last.start] + text[last.start..last.end];
    }
  }

  /** Consecutive chunks touch; chunks further apart do not reach each other. */
  lemma {:induction false} TilesTouch(chunks: seq<Chunk>, to: nat, i: nat)
    requires Tile(chunks, to) && i < |chunks|
    ensures chunks[i].start < chunks[i].end <= to
    ensures i == 0 ==> chunks[i].start == 0
    ensures i > 0 ==> chunks[i].start == chunks[i - 1].end
    ensures i == |chunks| - 1 ==> chunks[i].end == to
    decreases |chunks|
  {
    var before, last := chunks[..|chunks| - 1], chunks[|chunks| - 1];
    if i < |chunks| - 1 {
      TilesTouch(before, last.start, i);
    } else if i > 0 {
      TilesTouch(before, last.start, i - 1);
    }
  }

  lemma {:induction false} TilesInOrder(chunks: seq<Chunk>, to: nat, i: nat, j: nat)
    requires Tile(chunks, to) && i < j < |chunks|
    ensures chunks[i].end <= chunks[j].start
    decreases j
  {
    TilesTouch(chunks, to, j);
    if i < j - 1 {
      TilesInOrder(chunks, to, i, j - 1);
      TilesTouch(chunks, to, j - 1);
    }
  }

  // ---- neighbours ------------------------------------------------------------------------------------

  /** Of the rows that end by `bound`, one that ends last. */
  function EndsLast(rows: seq<Chunk>, bound: int): (best: Option<Chunk>)
    ensures best.Some? ==> best.value in rows && best.value.end <= bound
    ensures forall row :: row in rows && row.end <= bound ==> best.Some? && row.end <= best.value.end
  {
    if rows == [] then None
    else
      var rest := EndsLast(rows[1..], bound);
      if rows[0].end <= bound && (rest.None? || rest.value.end < rows[0].end) then Some(rows[0]) else rest
  }

  /** Of the rows that start from `bound` on, one that starts first. */
  function StartsFirst(rows: seq<Chunk>, bound: int): (best: Option<Chunk>)
    ensures best.Some? ==> best.value in rows && best.value.start >= bound
    ensures forall row :: row in rows && row.start >= bound ==> best.Some? && row.start >= best.value.start
  {
    if rows == [] then None
    else
      var rest := StartsFirst(rows[1..], bound);
      if rows[0].start >= bound && (rest.None? || rest.value.start > rows[0].start) then Some(rows[0]) else rest
  }

  /** The stored chunks of one file around a range. */
  function Neighbours(rows: seq<Chunk>, start: int, end: int): (Option<Chunk>, Option<Chunk>) {
    (EndsLast(rows, start), StartsFirst(rows, end))
  }

  /** However the chunks of a file are stored, the neighbours of one are the chunks next to
      it, so a span extended into them is one range of the file. */
  lemma NeighboursTouch(rows: seq<Chunk>, chunks: seq<Chunk>, to: nat, i: nat)
    requires Tile(chunks, to) && i < |chunks| && forall row :: row in rows <==> row in chunks
    ensures var (before, after) := Neighbours(rows, chunks[i].start, chunks[i].end);
            && before == (if i == 0 then None else Some(chunks[i - 1]))
            && after == (if i == |chunks| - 1 then None else Some(chunks[i + 1]))
            && (before.Some? ==> before.value.end == chunks[i].start)
            && (after.Some? ==> after.value.start == chunks[i].end)
  {
    TilesTouch(chunks, to, i);
    if i < |chunks| - 1 {
      TilesTouch(chunks, to, i + 1);
    }
    BeforeIsNext(rows, chunks, to, i);
    AfterIsNext(rows, chunks, to, i);
  }

  lemma BeforeIsNext(rows: seq<Chunk>, chunks: seq<Chunk>, to: nat, i: nat)
    requires Tile(chunks, to) && i < |chunks| && forall row :: row in rows <==> row in chunks
    ensures EndsLast(rows, chunks[i].start) == if i == 0 then None else Some(chunks[i - 1])
  {
    var best := EndsLast(rows, chunks[i].start);
    TilesTouch(chunks, to, i);
    if i > 0 {
      assert chunks[i - 1] in rows;
    }
    if best.Some? {
      var j :| 0 <= j < |chunks| && chunks[j] == best.value;
      TilesTouch(chunks, to, j);
      if j >= i {
        if j > i {
          TilesInOrder(chunks, to, i, j);
        }
      } else if j < i - 1 {
        TilesInOrder(chunks, to, j, i - 1);
        TilesTouch(chunks, to, i - 1);
      }
    }
  }

  lemma AfterIsNext(rows: seq<Chunk>, chunks: seq<Chunk>, to: nat, i: nat)
    requires Tile(chunks, to) && i < |chunks| && forall row :: row in rows <==> row in chunks
    ensures StartsFirst(rows, chunks[i].end) == if i == |chunks| - 1 then None else Some(chunks[i + 1])
  {
    var best := StartsFirst(rows, chunks[i].end);
    TilesTouch(chunks, to, i);
    if i < |chunks| - 1 {
      assert chunks[i + 1] in rows;
      TilesTouch(chunks, to, i + 1);
    }
    if best.Some? {
      var j :| 0 <= j < |chunks| && chunks[j] == best.value;
      TilesTouch(chunks, to, j);
      if j <= i {
        if j < i {
          TilesInOrder(chunks, to, j, i);
        }
      } else if j > i + 1 {
        TilesInOrder(chunks, to, i + 1, j);
      }
    }
  }
}
