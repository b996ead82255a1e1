/** The frame reader: pieces of a byte stream between line feeds, however the stream arrives. */
module Frames {
  import opened Bytes
  import opened Options

  /** What one read of the input gives: some bytes, or no byte before a timeout. No bytes at
      all, or nothing left to read, is the end of the input. */
  datatype Arrival = Data(bytes: seq<Byte>) | Timeout

  datatype Frame = Whole(bytes: seq<Byte>) | Blank | TooLarge | Eof | Idle

  const READ_SIZE := 8192

  // ---- the stream ----------------------------------------------------------------------------

  /** The bytes still to arrive, up to the end of the input. */
  function Ahead(input: seq<Arrival>): seq<Byte> {
    if input == [] then []
    else
      match input[0]
      case Timeout => Ahead(input[1..])
      case Data(bytes) => if bytes == [] then [] else bytes + Ahead(input[1..])
  }

  /** Where the first line feed is, or the length of a stream without one. */
  function PieceLength(stream: seq<Byte>): (n: nat)
    ensures n <= |stream| && (n < |stream| ==> stream[n] == LINE_FEED)
    ensures forall i :: 0 <= i < n ==> stream[i] != LINE_FEED
  {
    if stream == [] || stream[0] == LINE_FEED then 0 else 1 + PieceLength(stream[1..])
  }

  predicate IsBlank(bytes: seq<Byte>) {
    forall i :: 0 <= i < |bytes| ==> bytes[i] == 32 || bytes[i] == 9 || bytes[i] == 13 || bytes[i] == 10
  }

  function FrameOf(piece: seq<Byte>, limit: nat): Frame {
    if |piece| > limit then TooLarge else if IsBlank(piece) then Blank else Whole(piece)
  }

  /** The frames of a stream: its pieces in order until one is too large, or its end, where
      an unterminated tail is dropped unless it is itself too large. */
  function FramesOf(stream: seq<Byte>, limit: nat): (frames: seq<Frame>)
    ensures frames != []
    decreases |stream|
  {
    var n := PieceLength(stream);
    if n > limit then [TooLarge]
    else if n == |stream| then [Eof]
    else [FrameOf(stream[..n], limit)] + FramesOf(stream[n + 1..], limit)
  }

  /** A line, ended by byte 10, within the limit is one frame, blank when it is nothing but
      spaces, tabs and returns; one past it is the last thing said; and what no line feed ends
      is dropped, unless it is past it. */
  lemma LineByLine(line: seq<Byte>, rest: seq<Byte>, limit: nat)
    requires 10 !in line
    ensures FramesOf(line, limit) == if |line| > limit then [TooLarge] else [Eof]
    ensures FramesOf(line + [10] + rest, limit) ==
              if |line| > limit then [TooLarge]
              else [if forall byte :: byte in line ==> byte in [0x20, 0x09, 0x0D] then Blank else Whole(line)] + FramesOf(rest, limit)
  {
    var stream := line + [LINE_FEED] + rest;
    assert PieceLength(line) == |line|;
    assert PieceLength(stream) == |line| by {
      assert stream[|line|] == LINE_FEED && forall i :: 0 <= i < |line| ==> stream[i] == line[i] && line[i] in line;
    }
    assert stream[..|line|] == line && stream[|line| + 1..] == rest;
    assert IsBlank(line) <==> forall byte :: byte in line ==> byte in [0x20, 0x09, 0x0D] by {
      assert forall i :: 0 <= i < |line| ==> line[i] in line;
    }
  }

  /** What is held of an unfinished frame once the reader has answered: `partial` of it before,
      then `pending` bytes, then what arrives. Nothing of it once a line feed ends it, and
      nothing more once it has passed the limit. */
  function Held(partial: seq<Byte>, pending: seq<Byte>, eof: bool, input: seq<Arrival>, limit: nat): seq<Byte>
    decreases |input|, |pending|
  {
    if pending != [] then
      if PieceLength(pending) < |pending| then []
      else if |partial + pending| > limit then partial + pending
      else Held(partial + pending, [], eof, input, limit)
    else if eof || input == [] || input[0].Timeout? || input[0].bytes == [] then partial
    else Held(partial, input[0].bytes, false, input[1..], limit)
  }

  // ---- the reader ------------------------------------------------------------------------------

  predicate NoLineFeed(bytes: seq<Byte>) {
    forall i :: 0 <= i < |bytes| ==> bytes[i] != LINE_FEED
  }

  class FrameReader {
    /** What the input will give, in order. */
    var input: seq<Arrival>
    var buffered: seq<Byte>
    var at: nat
    var eof: bool
    var partial: seq<Byte>

    constructor (input: seq<Arrival>)
      requires forall arrival :: arrival in input && arrival.Data? ==> |arrival.bytes| <= READ_SIZE
      ensures this.input == input && partial == [] && Valid() && Unread() == Ahead(input)
    {
      this.input := input;
      buffered, at, eof, partial := [], 0, false, [];
    }

    ghost predicate Valid()
      reads this
    {
      && at <= |buffered| <= READ_SIZE
      && (eof ==> at == |buffered|)
      && NoLineFeed(partial)
      && forall arrival :: arrival in input && arrival.Data? ==> |arrival.bytes| <= READ_SIZE
    }

    /** The stream from the start of the frame being assembled. */
    ghost function Unread(): seq<Byte>
      requires at <= |buffered|
      reads this
    {
      partial + (buffered[at..] + (if eof then [] else Ahead(input)))
    }

    /** Take what the input gives next; nothing more is the end of it. */
    method Fill(ghost limit: nat) returns (timeout: bool)
      requires Valid() && at == |buffered| && !eof
      modifies this`input, this`buffered, this`at, this`eof
      ensures Valid() && Unread() == old(Unread()) && |input| <= |old(input)|
      ensures timeout ==> |input| < |old(input)|
      ensures !timeout ==> eof || (|input| < |old(input)| && at < |buffered|)
      ensures Held(partial, [], false, old(input), limit)
              == if timeout then partial else Held(partial, buffered[at..], eof, input, limit)
    {
      timeout := false;
      ghost var before := Ahead(input);
      assert partial + ([] + before) == Unread();
      if input == [] {
        buffered, at, eof := [], 0, true;
        return;
      }
      var arrival := input[0];
      input := input[1..];
      assert forall later :: later in input ==> later in old(input);
      at := 0;
      match arrival
      case Timeout =>
        buffered := [];
        timeout := true;
      case Data(bytes) =>
        buffered := bytes;
        eof := bytes == [];
    }

    /** The next frame under `limit`: the first frame of what is unread, the rest of which
        stays unread; a timeout leaves the stream as it was. However the stream arrives, no
        more of an unfinished frame is held than the limit and one read. */
    method NextFrame(limit: nat) returns (frame: Frame)
      requires Valid()
      modifies this
      ensures Valid()
      ensures var most := if |old(partial)| > limit then |old(partial)| else limit;
              |partial| <= most + READ_SIZE && (frame.TooLarge? || |partial| <= most)
      ensures partial == Held(old(partial), old(buffered[at..]), old(eof), old(input), limit)
      ensures frame.Idle? ==> Unread() == old(Unread()) && |input| < |old(input)|
      ensures !frame.Idle? && |old(partial)| <= limit ==> frame == FramesOf(old(Unread()), limit)[0]
      ensures !frame.Idle? && |old(partial)| > limit
              ==> frame == if old(Unread()) == old(partial) then Eof else TooLarge
      ensures frame.Whole? || frame.Blank?
              ==> partial == [] && FramesOf(old(Unread()), limit) == [frame] + FramesOf(Unread(), limit)
    {
      ghost var stream := Unread();
      ghost var start := partial;
      ghost var most := if |partial| > limit then |partial| else limit;
      ghost var held := Held(partial, buffered[at..], eof, input, limit);
      while true
        invariant Valid() && Unread() == stream && |partial| <= most && |input| <= |old(input)|
        invariant held == Held(partial, buffered[at..], eof, input, limit)
        invariant |start| > limit ==> partial == start
        decreases |input|, |buffered| - at
      {
        if at == |buffered| {
          var answer := Await(limit);
          if answer.Some? {
            return answer.value;
          }
        }
        var chunk := buffered[at..];
        var offset := PieceLength(chunk);
        if offset < |chunk| {
          frame := Finish(limit, offset);
          return;
        }
        var over := GoOn(limit);
        if over {
          return TooLarge;
        }
      }
    }

    /** Keep what is read of the frame, and stop as soon as the limit is passed. */
    method GoOn(limit: nat) returns (over: bool)
      requires Valid() && at < |buffered| && PieceLength(buffered[at..]) == |buffered| - at
      modifies this`at, this`partial
      ensures Valid() && Unread() == old(Unread()) && at == |buffered|
      ensures over <==> |partial| > limit
      ensures |old(partial)| < |partial| <= |old(partial)| + READ_SIZE
      ensures over ==> FramesOf(Unread(), limit) == [TooLarge] && old(Unread()) != old(partial)
      ensures Held(old(partial), old(buffered[at..]), eof, input, limit)
              == if over then partial else Held(partial, buffered[at..], eof, input, limit)
    {
      KeepAll();
      over := |partial| > limit;
      if over {
        StartsLong(Unread(), partial, limit);
      }
    }

    /** Nothing is left of the last read: read again, until there is something to look at, the
        end, or a timeout. */
    method Await(ghost limit: nat) returns (answer: Option<Frame>)
      requires Valid() && at == |buffered|
      modifies this`input, this`buffered, this`at, this`eof
      ensures Valid() && Unread() == old(Unread()) && |input| <= |old(input)|
      ensures Held(partial, old(buffered[at..]), old(eof), old(input), limit)
              == if answer.Some? then partial else Held(partial, buffered[at..], eof, input, limit)
      ensures answer.None? ==> |input| < |old(input)| && at < |buffered|
      ensures answer.Some? ==> answer == Some(Idle) || answer == Some(Eof)
      ensures answer == Some(Idle) ==> |input| < |old(input)|
      ensures answer == Some(Eof) ==> old(Unread()) == partial && PieceLength(partial) == |partial|
    {
      assert buffered[at..] == [];
      if eof {
        return Some(Eof);
      }
      var timeout := Fill(limit);
      if timeout {
        return Some(Idle);
      }
      answer := if eof then Some(Eof) else None;
    }

    /** No line feed yet: everything read so far belongs to the frame. */
    method KeepAll()
      requires Valid() && NoLineFeed(buffered[at..])
      modifies this`at, this`partial
      ensures Valid() && Unread() == old(Unread()) && at == |buffered|
      ensures partial == old(partial) + old(buffered[at..]) && buffered[at..] == []
      ensures |partial| == |old(partial)| + |buffered| - old(at) && partial <= Unread()
    {
      assert partial + (buffered[at..] + (if eof then [] else Ahead(input)))
          == partial + buffered[at..] + ([] + (if eof then [] else Ahead(input)));
      partial := partial + buffered[at..];
      at := |buffered|;
    }

    /** A line feed ends the frame. */
    method Finish(limit: nat, offset: nat) returns (frame: Frame)
      requires Valid() && at + offset < |buffered|
      requires offset == PieceLength(buffered[at..])
      modifies this`at, this`partial
      ensures Valid() && partial == [] && frame == FramesOf(old(Unread()), limit)[0]
      ensures frame.Whole? || frame.Blank? || frame.TooLarge?
      ensures !frame.TooLarge? ==> FramesOf(old(Unread()), limit) == [frame] + FramesOf(Unread(), limit)
      ensures |old(partial)| > limit ==> frame == TooLarge && old(Unread()) != old(partial)
      ensures Held(old(partial), old(buffered[at..]), eof, input, limit) == []
    {
      ghost var stream, chunk := Unread(), buffered[at..];
      var piece := partial + buffered[at..][..offset];
      PieceEnds(partial, chunk, if eof then [] else Ahead(input), offset);
      partial := [];
      at := at + offset + 1;
      assert chunk[offset + 1..] == buffered[at..];
      FramesGoOn(stream, piece, Unread(), limit);
      frame := if |piece| > limit then TooLarge else if IsBlank(piece) then Blank else Whole(piece);
    }
  }

  lemma FramesGoOn(stream: seq<Byte>, piece: seq<Byte>, rest: seq<Byte>, limit: nat)
    requires PieceLength(stream) == |piece| < |stream|
    requires piece == stream[..|piece|] && rest == stream[|piece| + 1..]
    ensures var frame := FrameOf(piece, limit);
            FramesOf(stream, limit) == [frame] + (if frame.TooLarge? then [] else FramesOf(rest, limit))
  {
  }

  /** Where a piece ends: at the first line feed of what was read after it began. */
  lemma PieceEnds(partial: seq<Byte>, chunk: seq<Byte>, ahead: seq<Byte>, offset: nat)
    requires NoLineFeed(partial) && offset == PieceLength(chunk) && offset < |chunk|
    ensures var stream := partial + (chunk + ahead);
            var piece := partial + chunk[..offset];
            && PieceLength(stream) == |piece| < |stream| && stream[..|piece|] == piece
            && stream[|piece| + 1..] == [] + (chunk[offset + 1..] + ahead)
  {
    var piece, rest := partial + chunk[..offset], chunk[offset + 1..] + ahead;
    CutAt(partial, chunk, ahead, offset);
    BothWithout(partial, chunk[..offset]);
    PieceThenRest(piece, rest);
  }

  lemma CutAt(partial: seq<Byte>, chunk: seq<Byte>, ahead: seq<Byte>, offset: nat)
    requires offset < |chunk| && chunk[offset] == LINE_FEED
    ensures partial + (chunk + ahead) == partial + chunk[..offset] + ([LINE_FEED] + (chunk[offset + 1..] + ahead))
  {
    assert chunk == chunk[..offset] + ([LINE_FEED] + chunk[offset + 1..]);
  }

  lemma PieceThenRest(piece: seq<Byte>, rest: seq<Byte>)
    requires NoLineFeed(piece)
    ensures var stream := piece + ([LINE_FEED] + rest);
            && PieceLength(stream) == |piece| < |stream| && stream[..|piece|] == piece
            && stream[|piece| + 1..] == [] + rest
  {
    var stream := piece + ([LINE_FEED] + rest);
    StartsWith(stream, piece);
    assert stream[|piece|] == LINE_FEED;
  }

  /** A stream that starts with more than the limit and no line feed starts with a frame
      that is too large. */
  lemma StartsLong(stream: seq<Byte>, start: seq<Byte>, limit: nat)
    requires |start| > limit && NoLineFeed(start) && start <= stream
    ensures FramesOf(stream, limit) == [TooLarge]
  {
    forall i | 0 <= i < |start|
      ensures stream[i] != LINE_FEED
    {
      assert start[i] == stream[i];
    }
  }

  // ---- how much is held -----------------------------------------------------------------------------

  /** How many bytes the first `k` reads give. */
  function Given(input: seq<Arrival>, k: nat): nat
    requires k <= |input|
  {
    if k == 0 then 0 else (if input[0].Data? then |input[0].bytes| else 0) + Given(input[1..], k - 1)
  }

  predicate AllGive(input: seq<Arrival>, k: nat)
    requires k <= |input|
  {
    forall i :: 0 <= i < k ==> input[i].Data? && input[i].bytes != []
  }

  /** With `k` more reads the frame is past the limit by more than one, and was not past it
      before; and no line feed has come. `already` is what was there before them. */
  ghost predicate PassesBy(already: nat, eof: bool, input: seq<Arrival>, length: nat, limit: nat, k: nat)
    requires k <= |input|
  {
    && AllGive(input, k) && (eof ==> k == 0)
    && limit + 1 < already + Given(input, k) <= length
    && forall i :: 0 <= i < k ==> already + Given(input, i) <= limit
  }

  ghost predicate SomeReadPasses(already: nat, eof: bool, input: seq<Arrival>, length: nat, limit: nat) {
    exists k :: 0 <= k <= |input| && PassesBy(already, eof, input, length, limit, k)
  }

  /** More than the limit and one byte is held exactly when one read takes a frame without a
      line feed from the limit or less to more than that. */
  lemma {:induction false} HeldExactly(partial: seq<Byte>, pending: seq<Byte>, eof: bool, input: seq<Arrival>, limit: nat)
    requires NoLineFeed(partial) && |partial| <= limit
    ensures var length := PieceLength(partial + (pending + (if eof then [] else Ahead(input))));
            |Held(partial, pending, eof, input, limit)| > limit + 1
            <==> SomeReadPasses(|partial| + |pending|, eof, input, length, limit)
    decreases |input|, |pending|
  {
    var ahead := if eof then [] else Ahead(input);
    var length := PieceLength(partial + (pending + ahead));
    var already := |partial| + |pending|;
    if pending != [] {
      if PieceLength(pending) < |pending| {
        PieceEnds(partial, pending, ahead, PieceLength(pending));
        NonePasses(already, eof, input, length, limit);
      } else {
        AllPending(partial, pending, ahead);
        if already > limit {
          PassesAtOnce(already, eof, input, length, limit);
        } else {
          HeldExactly(partial + pending, [], eof, input, limit);
        }
      }
    } else if eof || input == [] || input[0].Timeout? || input[0].bytes == [] {
      NonePasses(already, eof, input, length, limit);
    } else {
      assert [] + Ahead(input) == input[0].bytes + Ahead(input[1..]);
      HeldExactly(partial, input[0].bytes, false, input[1..], limit);
      OneReadLater(|partial|, input, length, limit);
    }
  }

  /** No line feed yet: all that is pending belongs to the frame. */
  lemma AllPending(partial: seq<Byte>, pending: seq<Byte>, ahead: seq<Byte>)
    requires NoLineFeed(partial) && PieceLength(pending) == |pending|
    ensures NoLineFeed(partial + pending)
    ensures partial + (pending + ahead) == partial + pending + ([] + ahead)
    ensures PieceLength(partial + (pending + ahead)) >= |partial| + |pending|
  {
    BothWithout(partial, pending);
    Regrouped(partial, pending, ahead);
    StartsWith(partial + pending + ([] + ahead), partial + pending);
  }

  lemma BothWithout(a: seq<Byte>, b: seq<Byte>)
    requires NoLineFeed(a) && NoLineFeed(b)
    ensures NoLineFeed(a + b)
  {
  }

  lemma Regrouped(a: seq<Byte>, b: seq<Byte>, c: seq<Byte>)
    ensures a + (b + c) == a + b + ([] + c) && a + b <= a + b + ([] + c)
  {
  }

  lemma StartsWith(stream: seq<Byte>, start: seq<Byte>)
    requires start <= stream && NoLineFeed(start)
    ensures PieceLength(stream) >= |start|
  {
    forall i | 0 <= i < |start|
      ensures stream[i] != LINE_FEED
    {
      assert start[i] == stream[i];
    }
  }

  /** None does once a line feed has come, or when no read gives anything. */
  lemma NonePasses(already: nat, eof: bool, input: seq<Arrival>, length: nat, limit: nat)
    requires already > length
             || (already <= limit && (eof || input == [] || input[0].Timeout? || input[0].bytes == []))
    ensures !SomeReadPasses(already, eof, input, length, limit)
  {
    if k :| 0 <= k <= |input| && PassesBy(already, eof, input, length, limit, k) {
      assert k > 0 ==> input[0].Data? && input[0].bytes != [];
    }
  }

  lemma PassesAtOnce(already: nat, eof: bool, input: seq<Arrival>, length: nat, limit: nat)
    requires limit < already <= length
    ensures SomeReadPasses(already, eof, input, length, limit) <==> already > limit + 1
  {
    if already > limit + 1 {
      assert PassesBy(already, eof, input, length, limit, 0);
    }
    if k :| 0 <= k <= |input| && PassesBy(already, eof, input, length, limit, k) {
      assert k > 0 ==> already + Given(input, 0) <= limit;
    }
  }

  lemma OneReadLater(already: nat, input: seq<Arrival>, length: nat, limit: nat)
    requires input != [] && input[0].Data? && input[0].bytes != [] && already <= limit
    ensures SomeReadPasses(already, false, input, length, limit)
            <==> SomeReadPasses(already + |input[0].bytes|, false, input[1..], length, limit)
  {
    var next, rest := already + |input[0].bytes|, input[1..];
    if k :| 0 <= k <= |input| && PassesBy(already, false, input, length, limit, k) {
      assert k > 0;
      LaterPasses(already, input, length, limit, k - 1);
      assert PassesBy(next, false, rest, length, limit, k - 1);
    }
    if k :| 0 <= k <= |rest| && PassesBy(next, false, rest, length, limit, k) {
      LaterPasses(already, input, length, limit, k);
      assert PassesBy(already, false, input, length, limit, k + 1);
    }
  }

  lemma LaterPasses(already: nat, input: seq<Arrival>, length: nat, limit: nat, k: nat)
    requires input != [] && input[0].Data? && input[0].bytes != [] && already <= limit && k < |input|
    ensures PassesBy(already + |input[0].bytes|, false, input[1..], length, limit, k)
            <==> PassesBy(already, false, input, length, limit, k + 1)
  {
    var first, rest := |input[0].bytes|, input[1..];
    assert forall i :: 0 < i <= k + 1 ==> Given(input, i) == first + Given(rest, i - 1);
    assert forall i :: 0 < i <= k ==> input[i] == rest[i - 1];
    if PassesBy(already, false, input, length, limit, k + 1) {
      forall i | 0 <= i < k
        ensures rest[i].Data? && rest[i].bytes != [] && already + first + Given(rest, i) <= limit
      {
        assert rest[i] == input[i + 1] && Given(input, i + 1) == first + Given(rest, i);
      }
    }
    if PassesBy(already + first, false, rest, length, limit, k) {
      forall i | 0 <= i < k + 1
        ensures input[i].Data? && input[i].bytes != [] && already + Given(input, i) <= limit
      {
        if i > 0 {
          assert input[i] == rest[i - 1] && Given(input, i) == first + Given(rest, i - 1);
        }
      }
    }
  }

  /** A read of one byte, so many times, and then one of two. */
  function OnesThenTwo(n: nat): (input: seq<Arrival>)
    ensures forall arrival :: arrival in input ==> arrival.Data? && |arrival.bytes| <= 2
  {
    if n == 0 then [Data([65, 65])] else [Data([65])] + OnesThenTwo(n - 1)
  }

  lemma {:induction false} HeldInTheEnd(partial: seq<Byte>, n: nat, limit: nat)
    requires |partial| + n == limit
    ensures |Held(partial, [], false, OnesThenTwo(n), limit)| == limit + 2
    decreases n
  {
    var input := OnesThenTwo(n);
    StartsWith([65, 65], [65, 65]);
    StartsWith([65], [65]);
    if n > 0 {
      assert input[0] == Data([65]) && input[1..] == OnesThenTwo(n - 1);
      HeldInTheEnd(partial + [65], n - 1, limit);
    }
  }

  /** Whatever the limit, two bytes more than it can be held, when the last read brings both;
      and the frame is said to be too large. */
  method HeldPastTheLimit(limit: nat) returns (reader: FrameReader, frame: Frame)
    ensures frame == TooLarge && |reader.partial| == limit + 2
  {
    reader := new FrameReader(OnesThenTwo(limit));
    HeldInTheEnd([], limit, limit);
    frame := reader.NextFrame(limit);
  }

  // ---- the pieces of a stream ------------------------------------------------------------------------

  /** What stands between line feeds, and last what follows the last of them. */
  function Pieces(stream: seq<Byte>): (pieces: seq<seq<Byte>>)
    ensures pieces != []
    decreases |stream|
  {
    var n := PieceLength(stream);
    if n == |stream| then [stream] else [stream[..n]] + Pieces(stream[n + 1..])
  }

  function Joined(pieces: seq<seq<Byte>>): seq<Byte>
    requires pieces != []
  {
    if |pieces| == 1 then pieces[0] else pieces[0] + [LINE_FEED] + Joined(pieces[1..])
  }

  /** The pieces, with a line feed between each two, are the stream, and hold none. */
  lemma {:induction false} PiecesAreTheStream(stream: seq<Byte>)
    ensures Joined(Pieces(stream)) == stream
    ensures forall piece :: piece in Pieces(stream) ==> NoLineFeed(piece)
    decreases |stream|
  {
    var n := PieceLength(stream);
    if n < |stream| {
      PiecesAreTheStream(stream[n + 1..]);
      assert Pieces(stream)[1..] == Pieces(stream[n + 1..]);
      assert stream == stream[..n] + [LINE_FEED] + stream[n + 1..];
    }
  }

  /** The frames of a stream: every piece but the last as a frame, then the end; or the
      pieces before the first too large one, then that. */
  function Framed(pieces: seq<seq<Byte>>, limit: nat): seq<Frame>
    requires pieces != []
  {
    if |pieces[0]| > limit then [TooLarge]
    else if |pieces| == 1 then [Eof]
    else [if IsBlank(pieces[0]) then Blank else Whole(pieces[0])] + Framed(pieces[1..], limit)
  }

  lemma {:induction false} FramesAreThePieces(stream: seq<Byte>, limit: nat)
    ensures FramesOf(stream, limit) == Framed(Pieces(stream), limit)
    decreases |stream|
  {
    var n := PieceLength(stream);
    if n < |stream| {
      FramesAreThePieces(stream[n + 1..], limit);
      assert Pieces(stream)[1..] == Pieces(stream[n + 1..]);
    }
  }

  /** One by one: if every piece fits, frame `i` is piece `i` and the end comes last; if not,
      the last frame says so, at the first piece that does not fit. */
  lemma {:induction false} FramesOneByOne(pieces: seq<seq<Byte>>, limit: nat)
    requires pieces != []
    ensures var frames := Framed(pieces, limit);
            var last := |frames| - 1;
            && last < |pieces|
            && (forall i :: 0 <= i < last ==> |pieces[i]| <= limit && frames[i] == FrameOf(pieces[i], limit))
            && (frames[last] == TooLarge <==> |pieces[last]| > limit)
            && (frames[last] != TooLarge ==> frames[last] == Eof && last == |pieces| - 1)
  {
    if |pieces[0]| <= limit && |pieces| > 1 {
      FramesOneByOne(pieces[1..], limit);
      var frames, rest := Framed(pieces, limit), Framed(pieces[1..], limit);
      forall i | 0 <= i < |frames| - 1
        ensures |pieces[i]| <= limit && frames[i] == FrameOf(pieces[i], limit)
      {
        if i > 0 {
          assert frames[i] == rest[i - 1] && pieces[i] == pieces[1..][i - 1];
        }
      }
      assert frames[|frames| - 1] == rest[|rest| - 1] && pieces[|frames| - 1] == pieces[1..][|rest| - 1];
    }
  }
}
