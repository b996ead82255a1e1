/** Which answers a range is put together from, and which answer refuses it. */
module Calls {
  import opened Bytes
  import opened Options
  import opened Assembly

  /** What the calls brought, from the peer's `n`th on. */
  function Brought(peer: Peer, n: nat, calls: seq<Call>): seq<Byte>
    decreases |calls|
  {
    if calls == [] then []
    else
      var reply := peer(n, calls[0].position, calls[0].asked);
      (if reply.Answered? then reply.piece.data else []) + Brought(peer, n + 1, calls[1..])
  }

  /** Some bytes from where they were asked for, at most as many as were, not yet to the end;
      the next call is for what then is missing, or as much of it as a call may ask for. */
  predicate BringsOn(reply: Reply, call: Call, next: Call, size: nat, end: nat) {
    && reply.Answered? && reply.piece.size == size && reply.piece.offset == call.position
    && 1 <= |reply.piece.data| <= call.asked && call.position + |reply.piece.data| < end
    && next.position == call.position + |reply.piece.data|
    && next.asked == if end - next.position < 16 * 1024 * 1024 then end - next.position else 16 * 1024 * 1024
  }

  /** The answer after which there is no other call, and what comes of it. */
  predicate Ends(reply: Reply, call: Call, size: nat, end: nat, bytes: seq<Byte>, result: Result) {
    match result
    case Assembled(all, whole) =>
      && reply.Answered? && reply.piece.size == size && reply.piece.offset == call.position
      && |reply.piece.data| <= call.asked && call.position + |reply.piece.data| == end
      && all == bytes && whole == size
    case Failed(PeerRefused) => reply.Refused?
    case Failed(SizeChanged) => reply.Answered? && reply.piece.size != size
    case Failed(FromElsewhere) => reply.Answered? && reply.piece.size == size && reply.piece.offset != call.position
    case Failed(TooMany) =>
      && reply.Answered? && reply.piece.size == size && reply.piece.offset == call.position
      && (|reply.piece.data| > call.asked || call.position + |reply.piece.data| > end)
    case Failed(NoneBeforeTheEnd) =>
      && reply.Answered? && reply.piece.size == size && reply.piece.offset == call.position
      && reply.piece.data == [] && call.position < end
    case Failed(PastTheEnd) => false
  }

  /** Every answer but the last brings the range on, and the last ends it. */
  ghost predicate Came(peer: Peer, n: nat, calls: seq<Call>, size: nat, end: nat, result: Result)
    requires calls != []
  {
    && (forall i :: 0 < i < |calls| ==>
          BringsOn(peer(n + i - 1, calls[i - 1].position, calls[i - 1].asked), calls[i - 1], calls[i], size, end))
    && var last := calls[|calls| - 1];
       Ends(peer(n + |calls| - 1, last.position, last.asked), last, size, end, Brought(peer, n, calls), result)
  }

  /** Of one call, its answer is the last. */
  lemma OneCall(peer: Peer, n: nat, call: Call, size: nat, end: nat, result: Result)
    ensures var reply := peer(n, call.position, call.asked);
            Came(peer, n, [call], size, end, result)
            <==> Ends(reply, call, size, end, if reply.Answered? then reply.piece.data else [], result)
  {
    var reply := peer(n, call.position, call.asked);
    assert Brought(peer, n, [call]) == if reply.Answered? then reply.piece.data else [];
  }

  lemma {:induction false} SomeCalls(peer: Peer, position: nat, asked: nat, piece: Piece, end: nat, n: nat)
      returns (calls: seq<Call>)
    requires position <= end && peer(n, position, asked) == Answered(piece)
    ensures calls != [] && calls[0] == Call(position, asked)
    ensures Came(peer, n, calls, piece.size, end, Taken(peer, position, asked, piece, end, n))
    decreases end - position, 0
  {
    var call, next := Call(position, asked), position + |piece.data|;
    if WrongWith(position, asked, piece, end).None? && next < end {
      var rest := MoreCalls(peer, next, end, piece.size, n + 1);
      calls := [call] + rest;
      assert calls[1..] == rest;
      var after := Collected(peer, next, end, piece.size, n + 1);
      assert Taken(peer, position, asked, piece, end, n) == Before(piece.data, after);
      OneMore(peer, n, calls, piece, end, after);
    } else {
      calls := [call];
      LastAnswer(peer, position, asked, piece, end, n);
    }
  }

  lemma LastAnswer(peer: Peer, position: nat, asked: nat, piece: Piece, end: nat, n: nat)
    requires position <= end && peer(n, position, asked) == Answered(piece)
    requires WrongWith(position, asked, piece, end).Some? || position + |piece.data| >= end
    ensures Came(peer, n, [Call(position, asked)], piece.size, end, Taken(peer, position, asked, piece, end, n))
  {
    OneCall(peer, n, Call(position, asked), piece.size, end, Taken(peer, position, asked, piece, end, n));
  }

  lemma {:induction false} MoreCalls(peer: Peer, position: nat, end: nat, size: nat, n: nat) returns (calls: seq<Call>)
    requires position < end
    ensures calls != [] && calls[0] == Call(position, Least(end - position, MAX_BYTES))
    ensures Came(peer, n, calls, size, end, Collected(peer, position, end, size, n))
    decreases end - position, 1
  {
    var asked := Least(end - position, MAX_BYTES);
    var reply := peer(n, position, asked);
    if reply.Answered? && reply.piece.size == size {
      calls := SomeCalls(peer, position, asked, reply.piece, end, n);
    } else {
      calls := [Call(position, asked)];
      OneCall(peer, n, calls[0], size, end, Collected(peer, position, end, size, n));
    }
  }

  /** A first answer that brings the range on, before what came of the others. */
  lemma OneMore(peer: Peer, n: nat, calls: seq<Call>, piece: Piece, end: nat, result: Result)
    requires |calls| > 1 && peer(n, calls[0].position, calls[0].asked) == Answered(piece)
    requires BringsOn(Answered(piece), calls[0], calls[1], piece.size, end)
    requires Came(peer, n + 1, calls[1..], piece.size, end, result)
    ensures Came(peer, n, calls, piece.size, end, Before(piece.data, result))
  {
    var rest := calls[1..];
    forall i | 0 < i < |calls|
      ensures BringsOn(peer(n + i - 1, calls[i - 1].position, calls[i - 1].asked), calls[i - 1], calls[i], piece.size, end)
    {
      if i > 1 {
        assert rest[i - 2] == calls[i - 1] && rest[i - 1] == calls[i];
      }
    }
  }

  /** After a first answer that brings the range on, what came of the others. */
  lemma OneLess(peer: Peer, n: nat, calls: seq<Call>, piece: Piece, end: nat, result: Result) returns (after: Result)
    requires |calls| > 1 && peer(n, calls[0].position, calls[0].asked) == Answered(piece)
    requires Came(peer, n, calls, piece.size, end, result)
    ensures BringsOn(Answered(piece), calls[0], calls[1], piece.size, end)
    ensures Came(peer, n + 1, calls[1..], piece.size, end, after) && result == Before(piece.data, after)
  {
    var rest := calls[1..];
    assert BringsOn(Answered(piece), calls[0], calls[1], piece.size, end);
    forall i | 0 < i < |rest|
      ensures BringsOn(peer(n + i, rest[i - 1].position, rest[i - 1].asked), rest[i - 1], rest[i], piece.size, end)
    {
      assert BringsOn(peer(n + i, calls[i].position, calls[i].asked), calls[i], calls[i + 1], piece.size, end);
    }
    after := if result.Failed? then result else Assembled(Brought(peer, n + 1, rest), result.size);
  }

  lemma {:induction false} TheseCalls(
      peer: Peer, position: nat, asked: nat, piece: Piece, end: nat, n: nat, calls: seq<Call>, result: Result)
    requires position <= end && peer(n, position, asked) == Answered(piece)
    requires calls != [] && calls[0] == Call(position, asked) && Came(peer, n, calls, piece.size, end, result)
    ensures result == Taken(peer, position, asked, piece, end, n)
    decreases |calls|, 0
  {
    if |calls| == 1 {
      assert calls == [calls[0]];
      OneCall(peer, n, calls[0], piece.size, end, result);
    } else {
      var after := OneLess(peer, n, calls, piece, end, result);
      TheseMore(peer, calls[1].position, end, piece.size, n + 1, calls[1..], after);
    }
  }

  lemma {:induction false} TheseMore(
      peer: Peer, position: nat, end: nat, size: nat, n: nat, calls: seq<Call>, result: Result)
    requires position < end && calls != [] && calls[0] == Call(position, Least(end - position, MAX_BYTES))
    requires Came(peer, n, calls, size, end, result)
    ensures result == Collected(peer, position, end, size, n)
    decreases |calls|, 1
  {
    var asked := Least(end - position, MAX_BYTES);
    var reply := peer(n, position, asked);
    assert |calls| > 1 ==> BringsOn(reply, calls[0], calls[1], size, end);
    if reply.Answered? && reply.piece.size == size {
      TheseCalls(peer, position, asked, reply.piece, end, n, calls, result);
    }
  }

  /** From any peer: what comes of a read is what its last answer says, when every other
      brought the range on, and a success is what they brought, in turn. */
  lemma AssembledExactly(offset: nat, length: Option<nat>, peer: Peer, result: Result)
    ensures var first := if length.None? || length.value > 16 * 1024 * 1024 then 16 * 1024 * 1024 else length.value;
            var reply := peer(0, offset, first);
            AssembledFrom(offset, length, peer) == result <==>
            if reply.Refused? then result == Failed(PeerRefused)
            else if offset > reply.piece.size then result == Failed(PastTheEnd)
            else
              var end := if length.None? || offset + length.value > reply.piece.size then reply.piece.size
                         else offset + length.value;
              exists calls: seq<Call> ::
                calls != [] && calls[0] == Call(offset, first) && Came(peer, 0, calls, reply.piece.size, end, result)
  {
    var first := FirstAsked(length);
    var reply := peer(0, offset, first);
    if reply.Answered? && offset <= reply.piece.size {
      var end := EndOf(offset, length, reply.piece.size);
      var calls := SomeCalls(peer, offset, first, reply.piece, end, 0);
      forall other: seq<Call> |
        other != [] && other[0] == Call(offset, first) && Came(peer, 0, other, reply.piece.size, end, result)
        ensures AssembledFrom(offset, length, peer) == result
      {
        TheseCalls(peer, offset, first, reply.piece, end, 0, other, result);
      }
    }
  }
}
