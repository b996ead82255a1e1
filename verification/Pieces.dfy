/** What a cut of a text into chunks is, said by the places of its line feeds. */
module Pieces {
  import opened Bytes
  import opened Chunks

  /** The places of the line feeds, which are the bytes 10, from one byte to another. */
  function Feeds(text: seq<Byte>, from: nat, to: nat): set<nat>
    requires from <= to <= |text|
  {
    set p | from <= p < to && text[p] == 10
  }

  lemma {:induction false} NewlinesAreFeeds(text: seq<Byte>, from: nat, to: nat)
    requires from <= to <= |text|
    ensures Newlines(text, from, to) == |Feeds(text, from, to)|
  {
    if from == to {
      assert Feeds(text, from, to) == {};
    } else {
      NewlinesAreFeeds(text, from, to - 1);
      assert Feeds(text, from, to)
          == Feeds(text, from, to - 1) + (if text[to - 1] == LINE_FEED then {to - 1} else {});
    }
  }

  /** The lines up to `end` fill a chunk that starts at `start`. */
  predicate Fills(text: seq<Byte>, start: nat, end: nat, lines: nat, bytes: nat)
    requires start < end <= |text|
  {
    text[end - 1] == 10 && (|Feeds(text, start, end)| >= lines || end - start >= bytes)
  }

  /** The chunk ends with the first line that fills it or, when none does, with the text. It
      starts at the line after the line feeds before it, and ends at the line of its last
      byte; when no line fills it, at the line after the text's last line feed. */
  predicate EndsWhenFilled(text: seq<Byte>, chunk: Chunk, lines: nat, bytes: nat) {
    && Inside(text, chunk)
    && (forall end :: chunk.start < end < chunk.end ==> !Fills(text, chunk.start, end, lines, bytes))
    && (Fills(text, chunk.start, chunk.end, lines, bytes) || chunk.end == |text|)
    && chunk.startLine == 1 + |Feeds(text, 0, chunk.start)|
    && chunk.endLine == |Feeds(text, 0, chunk.end)|
                        + if Fills(text, chunk.start, chunk.end, lines, bytes) then 0 else 1
  }

  lemma {:induction false} LastLineExactly(text: seq<Byte>, from: nat, to: nat)
    requires from < to <= |text|
    ensures var start := LastLine(text, from, to);
            && from <= start < to && (start == from || text[start - 1] == LINE_FEED)
            && forall p :: start <= p < to - 1 ==> text[p] != LINE_FEED
  {
    if from + 1 < to && text[to - 2] != LINE_FEED {
      LastLineExactly(text, from, to - 1);
    }
  }

  /** Between the start of the last line and the last byte there is no line feed. */
  lemma {:induction false} NoneBetween(text: seq<Byte>, from: nat, to: nat)
    requires from <= to <= |text| && forall p :: from <= p < to ==> text[p] != LINE_FEED
    ensures Newlines(text, from, to) == 0
  {
    if from < to {
      NoneBetween(text, from, to - 1);
    }
  }

  lemma {:induction false} NewlinesBetween(text: seq<Byte>, start: nat, middle: nat, end: nat)
    requires start <= middle <= end <= |text|
    ensures Newlines(text, start, end) == Newlines(text, start, middle) + Newlines(text, middle, end)
    decreases end
  {
    if middle < end {
      NewlinesBetween(text, start, middle, end - 1);
    }
  }

  /** Where the last line of a piece starts, the piece has all its line feeds but one that
      ends it. */
  lemma UpToLastLine(text: seq<Byte>, from: nat, to: nat)
    requires from < to <= |text|
    ensures Newlines(text, from, to)
         == Newlines(text, from, LastLine(text, from, to)) + if text[to - 1] == LINE_FEED then 1 else 0
  {
    LastLineExactly(text, from, to);
    var start := LastLine(text, from, to);
    NoneBetween(text, start, to - 1);
    NewlinesBetween(text, from, start, to - 1);
  }

  lemma NoneFillsBefore(text: seq<Byte>, chunk: Chunk, lines: nat, bytes: nat)
    requires Fits(text, chunk, lines, bytes) && (Full(text, chunk, lines, bytes) || Partial(text, chunk, lines, bytes))
    ensures forall end :: chunk.start < end < chunk.end ==> !Fills(text, chunk.start, end, lines, bytes)
  {
    LastLineExactly(text, chunk.start, chunk.end);
    forall end | chunk.start < end < chunk.end && text[end - 1] == LINE_FEED
      ensures !Fills(text, chunk.start, end, lines, bytes)
    {
      assert end <= LastLine(text, chunk.start, chunk.end);
      NewlinesBetween(text, chunk.start, end, chunk.end - 1);
      NewlinesAreFeeds(text, chunk.start, end);
    }
  }

  lemma FilledFits(text: seq<Byte>, chunk: Chunk, lines: nat, bytes: nat)
    requires lines >= 1 && bytes >= 1 && EndsWhenFilled(text, chunk, lines, bytes)
    ensures Fits(text, chunk, lines, bytes) && (Full(text, chunk, lines, bytes) || Partial(text, chunk, lines, bytes))
  {
    var last := LastLine(text, chunk.start, chunk.end);
    LastLineExactly(text, chunk.start, chunk.end);
    UpToLastLine(text, chunk.start, chunk.end);
    NewlinesAreFeeds(text, 0, chunk.start);
    NewlinesAreFeeds(text, 0, chunk.end);
    NewlinesAreFeeds(text, chunk.start, chunk.end);
    NewlinesAreFeeds(text, chunk.start, last);
    if last > chunk.start {
      assert !Fills(text, chunk.start, last, lines, bytes);
    }
  }

  /** A chunk fits, and is full or partial, exactly when it ends with the first line that
      fills it. */
  lemma ChunkExactly(text: seq<Byte>, chunk: Chunk, lines: nat, bytes: nat)
    requires lines >= 1 && bytes >= 1
    ensures Fits(text, chunk, lines, bytes) && (Full(text, chunk, lines, bytes) || Partial(text, chunk, lines, bytes))
            <==> EndsWhenFilled(text, chunk, lines, bytes)
  {
    if EndsWhenFilled(text, chunk, lines, bytes) {
      FilledFits(text, chunk, lines, bytes);
    } else if Fits(text, chunk, lines, bytes) && (Full(text, chunk, lines, bytes) || Partial(text, chunk, lines, bytes)) {
      NoneFillsBefore(text, chunk, lines, bytes);
      NewlinesAreFeeds(text, 0, chunk.start);
      NewlinesAreFeeds(text, 0, chunk.end);
      NewlinesAreFeeds(text, chunk.start, chunk.end);
    }
  }

  lemma {:induction false} TileExactly(text: seq<Byte>, chunks: seq<Chunk>, to: nat)
    requires forall i :: 0 <= i < |chunks| ==> chunks[i].start < chunks[i].end
    ensures Tile(chunks, to) <==>
            if chunks == [] then to == 0
            else chunks[0].start == 0 && chunks[|chunks| - 1].end == to
                 && forall i :: 0 < i < |chunks| ==> chunks[i].start == chunks[i - 1].end
    decreases |chunks|
  {
    if chunks != [] {
      TileExactly(text, chunks[..|chunks| - 1], chunks[|chunks| - 1].start);
    }
  }

  /** The whole text, one chunk after another, each ending when it is filled. */
  predicate Filling(text: seq<Byte>, chunks: seq<Chunk>, lines: nat, bytes: nat) {
    && (if chunks == [] then text == [] else chunks[0].start == 0 && chunks[|chunks| - 1].end == |text|)
    && (forall i :: 0 < i < |chunks| ==> chunks[i].start == chunks[i - 1].end)
    && (forall i :: 0 <= i < |chunks| ==> EndsWhenFilled(text, chunks[i], lines, bytes))
  }

  /** A text is cut exactly when each chunk ends at the first line that fills it. */
  lemma CutExactly(text: seq<Byte>, chunks: seq<Chunk>, lines: nat, bytes: nat)
    requires lines >= 1 && bytes >= 1
    ensures Cut(text, chunks, lines, bytes) <==> Filling(text, chunks, lines, bytes)
  {
    forall i | 0 <= i < |chunks|
      ensures Fits(text, chunks[i], lines, bytes)
              && (Full(text, chunks[i], lines, bytes) || Partial(text, chunks[i], lines, bytes))
              <==> EndsWhenFilled(text, chunks[i], lines, bytes)
    {
      ChunkExactly(text, chunks[i], lines, bytes);
    }
    if Cut(text, chunks, lines, bytes) {
      TileExactly(text, chunks, |text|);
    }
    if Filling(text, chunks, lines, bytes) {
      TileExactly(text, chunks, |text|);
      forall i | 0 <= i < |chunks| - 1 ensures Full(text, chunks[i], lines, bytes) {
        assert chunks[i + 1].start == chunks[i].end && EndsWhenFilled(text, chunks[i + 1], lines, bytes);
      }
    }
  }

  /** There is one cut. */
  lemma CutIsOne(text: seq<Byte>, one: seq<Chunk>, other: seq<Chunk>, lines: nat, bytes: nat)
    requires lines >= 1 && bytes >= 1 && Cut(text, one, lines, bytes) && Cut(text, other, lines, bytes)
    ensures one == other
  {
    CutExactly(text, one, lines, bytes);
    CutExactly(text, other, lines, bytes);
    if |one| <= |other| {
      SameSoFar(text, one, other, lines, bytes, |one|);
      NothingFollows(text, one, other, lines, bytes);
    } else {
      SameSoFar(text, other, one, lines, bytes, |other|);
      NothingFollows(text, other, one, lines, bytes);
    }
  }

  lemma {:induction false} SameSoFar(text: seq<Byte>, one: seq<Chunk>, other: seq<Chunk>, lines: nat, bytes: nat, n: nat)
    requires Filling(text, one, lines, bytes) && Filling(text, other, lines, bytes) && n <= |one| <= |other|
    ensures one[..n] == other[..n]
  {
    if n > 0 {
      SameSoFar(text, one, other, lines, bytes, n - 1);
      assert n > 1 ==> one[n - 2] == one[..n - 1][n - 2] == other[..n - 1][n - 2] == other[n - 2];
      assert one[..n] == one[..n - 1] + [one[n - 1]] && other[..n] == other[..n - 1] + [other[n - 1]];
    }
  }

  lemma NothingFollows(text: seq<Byte>, one: seq<Chunk>, other: seq<Chunk>, lines: nat, bytes: nat)
    requires Filling(text, one, lines, bytes) && Filling(text, other, lines, bytes)
    requires |one| <= |other| && one == other[..|one|]
    ensures one == other
  {
    assert |one| > 0 ==> other[|one| - 1] == one[|one| - 1];
    if |one| < |other| {
      StartsInside(text, other, |one|, lines, bytes);
      assert false;
    }
  }

  lemma StartsInside(text: seq<Byte>, chunks: seq<Chunk>, n: nat, lines: nat, bytes: nat)
    requires Filling(text, chunks, lines, bytes) && n < |chunks|
    ensures (if n == 0 then 0 else chunks[n - 1].end) < |text|
  {
    assert EndsWhenFilled(text, chunks[n], lines, bytes);
  }
}
