/** Putting a range of an artifact back together from reads that may each be short, from a
    peer that may answer anything. */
module Assembly {
  import opened Bytes
  import opened Options

  const MAX_BYTES := 16_777_216

  /** One answer: where its bytes are, the bytes, and the size of the whole artifact. */
  datatype Piece = Piece(offset: nat, data: seq<Byte>, size: nat)

  datatype Reply = Answered(piece: Piece) | Refused

  /** Any peer: what it replies to its `n`th call, for a place and a number of bytes. */
  type Peer = (nat, nat, nat) -> Reply

  datatype Wrong = PeerRefused | PastTheEnd | SizeChanged | FromElsewhere | TooMany | NoneBeforeTheEnd

  datatype Result = Assembled(bytes: seq<Byte>, size: nat) | Failed(wrong: Wrong)

  function Least(a: nat, b: nat): nat {
    if a < b then a else b
  }

  /** Where the range ends once the size is known. */
  function EndOf(offset: nat, length: Option<nat>, size: nat): nat {
    if length.None? then size else Least(offset + length.value, size)
  }

  /** What the first call asks for. */
  function FirstAsked(length: Option<nat>): nat {
    if length.None? then MAX_BYTES else Least(length.value, MAX_BYTES)
  }

  // ---- the outcome, call by call -----------------------------------------------------------------

  /** What is wrong with an answer about a range that ends at `end`, if anything is. */
  function WrongWith(position: nat, asked: nat, piece: Piece, end: nat): Option<Wrong>
    requires position <= end
  {
    if piece.offset != position then Some(FromElsewhere)
    else if |piece.data| > Least(asked, end - position) then Some(TooMany)
    else if piece.data == [] && position < end then Some(NoneBeforeTheEnd)
    else None
  }

  function Before(data: seq<Byte>, result: Result): Result {
    if result.Failed? then result else Assembled(data + result.bytes, result.size)
  }

  /** What an answer makes of the range from `position` on. */
  function Taken(peer: Peer, position: nat, asked: nat, piece: Piece, end: nat, n: nat): Result
    requires position <= end
    decreases end - position, 1
  {
    var wrong := WrongWith(position, asked, piece, end);
    if wrong.Some? then Failed(wrong.value)
    else if position + |piece.data| >= end then Assembled(piece.data, piece.size)
    else Before(piece.data, Collected(peer, position + |piece.data|, end, piece.size, n + 1))
  }

  /** The range from `position` to `end`, from the peer's `n`th call on. */
  function Collected(peer: Peer, position: nat, end: nat, size: nat, n: nat): Result
    requires position < end
    decreases end - position, 2
  {
    var asked := Least(end - position, MAX_BYTES);
    var reply := peer(n, position, asked);
    if reply.Refused? then Failed(PeerRefused)
    else if reply.piece.size != size then Failed(SizeChanged)
    else Taken(peer, position, asked, reply.piece, end, n)
  }

  function AssembledFrom(offset: nat, length: Option<nat>, peer: Peer): Result {
    var reply := peer(0, offset, FirstAsked(length));
    if reply.Refused? then Failed(PeerRefused)
    else if offset > reply.piece.size then Failed(PastTheEnd)
    else Taken(peer, offset, FirstAsked(length), reply.piece, EndOf(offset, length, reply.piece.size), 0)
  }

  // ---- the loop ----------------------------------------------------------------------------------

  /** A call: where it reads from, and how many bytes it asks for. */
  datatype Call = Call(position: nat, asked: nat)

  /** A call follows the peer's `n`th: it asks at the first missing byte, for some of what is
      missing, at most `MAX_BYTES`. */
  predicate Follows(call: Call, next: Call, n: nat, end: nat, peer: Peer) {
    var reply := peer(n, call.position, call.asked);
    && reply.Answered? && next.position == call.position + |reply.piece.data|
    && 1 <= next.asked <= MAX_BYTES && next.position + next.asked <= end
  }

  ghost predicate WellAsked(calls: seq<Call>, end: nat, peer: Peer) {
    forall i :: 0 <= i < |calls| - 1 ==> Follows(calls[i], calls[i + 1], i, end, peer)
  }

  /** The first call asks for the whole range, as far as one call may; every other follows
      the one before it. */
  method Assemble(offset: nat, length: Option<nat>, peer: Peer) returns (result: Result, ghost calls: seq<Call>)
    ensures result == AssembledFrom(offset, length, peer)
    ensures calls != [] && calls[0] == Call(offset, FirstAsked(length))
    ensures exists end: nat :: WellAsked(calls, end, peer) && (length.Some? ==> end <= offset + length.value)
  {
    var asked := FirstAsked(length);
    var reply := peer(0, offset, asked);
    calls := [Call(offset, asked)];
    assert WellAsked(calls, offset, peer);
    if reply.Refused? {
      return Failed(PeerRefused), calls;
    }
    if offset > reply.piece.size {
      return Failed(PastTheEnd), calls;
    }
    result, calls := Continue(offset, asked, reply.piece, EndOf(offset, length, reply.piece.size), peer);
  }

  method Continue(offset: nat, first: nat, piece: Piece, end: nat, peer: Peer) returns (result: Result, ghost calls: seq<Call>)
    requires offset <= end && peer(0, offset, first) == Answered(piece)
    ensures result == Taken(peer, offset, first, piece, end, 0)
    ensures calls != [] && calls[0] == Call(offset, first) && WellAsked(calls, end, peer)
  {
    ghost var goal := Taken(peer, offset, first, piece, end, 0);
    var assembled: seq<Byte>, asked, reply := [], first, Answered(piece);
    var n := 0;
    calls := [Call(offset, first)];
    Whole(goal);
    while true
      invariant offset + |assembled| <= end && reply == peer(n, offset + |assembled|, asked)
      invariant reply.Answered? && reply.piece.size == piece.size
      invariant |calls| == n + 1 && calls[n] == Call(offset + |assembled|, asked)
      invariant calls[0] == Call(offset, first) && WellAsked(calls, end, peer)
      invariant goal == Before(assembled, Taken(peer, offset + |assembled|, asked, reply.piece, end, n))
      decreases end - |assembled|
    {
      var position := offset + |assembled|;
      var data := reply.piece.data;
      var wrong := WrongWith(position, asked, reply.piece, end);
      if wrong.Some? {
        return Failed(wrong.value), calls;
      }
      if position + |data| >= end {
        return Assembled(assembled + data, piece.size), calls;
      }
      position := position + |data|;
      InTurn(assembled, data, Collected(peer, position, end, piece.size, n + 1));
      assembled := assembled + data;
      n := n + 1;
      asked := Least(end - position, MAX_BYTES);
      assert Follows(calls[n - 1], Call(position, asked), n - 1, end, peer);
      calls := calls + [Call(position, asked)];
      reply := peer(n, position, asked);
      if reply.Refused? {
        return Failed(PeerRefused), calls;
      }
      if reply.piece.size != piece.size {
        return Failed(SizeChanged), calls;
      }
    }
  }

  lemma Whole(result: Result)
    ensures Before([], result) == result
  {
    if result.Assembled? {
      assert [] + result.bytes == result.bytes;
    }
  }

  lemma InTurn(a: seq<Byte>, b: seq<Byte>, result: Result)
    ensures Before(a, Before(b, result)) == Before(a + b, result)
  {
    if result.Assembled? {
      assert a + (b + result.bytes) == a + b + result.bytes;
    }
  }

  // ---- what the outcome means -----------------------------------------------------------------------

  /** From any peer: a success is exactly as long as the range, and of one size. */
  lemma SuccessIsTheRange(offset: nat, length: Option<nat>, peer: Peer)
    requires AssembledFrom(offset, length, peer).Assembled?
    ensures var result := AssembledFrom(offset, length, peer);
            offset <= result.size && |result.bytes| == EndOf(offset, length, result.size) - offset
  {
    var piece := peer(0, offset, FirstAsked(length)).piece;
    TakenIsTheRange(peer, offset, FirstAsked(length), piece, EndOf(offset, length, piece.size), 0);
  }

  lemma {:induction false} TakenIsTheRange(peer: Peer, position: nat, asked: nat, piece: Piece, end: nat, n: nat)
    requires position <= end && Taken(peer, position, asked, piece, end, n).Assembled?
    ensures var result := Taken(peer, position, asked, piece, end, n);
            result.size == piece.size && |result.bytes| == end - position
    decreases end - position
  {
    var next := position + |piece.data|;
    if next < end {
      var more := Least(end - next, MAX_BYTES);
      TakenIsTheRange(peer, next, more, peer(n + 1, next, more).piece, end, n + 1);
    }
  }

  /** A peer that answers with the artifact's own bytes, however few, but some before its end. */
  ghost predicate Honest(peer: Peer, artifact: seq<Byte>) {
    forall n: nat, position: nat, asked: nat ::
      var reply := peer(n, position, asked);
      && reply.Answered? && reply.piece.size == |artifact|
      && (position <= |artifact| ==>
            && reply.piece.offset == position && |reply.piece.data| <= asked
            && reply.piece.data <= artifact[position..]
            && (asked > 0 && position < |artifact| ==> reply.piece.data != []))
  }

  /** From an honest peer, however short its answers: the artifact's own bytes, and past the
      end the error that says so. */
  lemma HonestPeerGivesTheArtifact(offset: nat, length: Option<nat>, peer: Peer, artifact: seq<Byte>)
    requires Honest(peer, artifact)
    ensures AssembledFrom(offset, length, peer)
            == if offset > |artifact| then Failed(PastTheEnd)
               else Assembled(artifact[offset..EndOf(offset, length, |artifact|)], |artifact|)
  {
    if offset <= |artifact| {
      HonestlyTaken(peer, artifact, offset, FirstAsked(length), EndOf(offset, length, |artifact|), 0);
    }
  }

  lemma {:induction false} HonestlyTaken(peer: Peer, artifact: seq<Byte>, position: nat, asked: nat, end: nat, n: nat)
    requires Honest(peer, artifact) && position <= end <= |artifact|
    requires position < end ==> 0 < asked
    requires asked <= end - position || end == |artifact|
    ensures Taken(peer, position, asked, peer(n, position, asked).piece, end, n)
            == Assembled(artifact[position..end], |artifact|)
    decreases end - position
  {
    var piece := peer(n, position, asked).piece;
    var next := position + |piece.data|;
    StartOfRange(artifact, position, piece.data);
    if next < end {
      HonestlyTaken(peer, artifact, next, Least(end - next, MAX_BYTES), end, n + 1);
      RangeInTwo(artifact, position, next, end);
    }
  }

  lemma RangeInTwo(artifact: seq<Byte>, from: nat, middle: nat, end: nat)
    requires from <= middle <= end <= |artifact|
    ensures artifact[from..end] == artifact[from..middle] + artifact[middle..end]
  {
  }

  lemma StartOfRange(artifact: seq<Byte>, position: nat, data: seq<Byte>)
    requires position <= |artifact| && data <= artifact[position..]
    ensures position + |data| <= |artifact| && data == artifact[position..position + |data|]
  {
    assert data == artifact[position..][..|data|];
  }

  // ---- the whole artifact, checked ---------------------------------------------------------------------

  /** A digest is of the whole, so a range is not checked. */
  predicate CheckWhole(bytes: seq<Byte>, offset: nat, size: nat, cited: string, digest: seq<Byte> -> string) {
    offset != 0 || |bytes| != size || digest(bytes) == cited
  }

  /** What is read whole, from any peer, and passes the check has the cited digest; a range
      that is not the whole is never refused for its digest. */
  lemma WholeIsChecked(offset: nat, length: Option<nat>, peer: Peer, cited: string, digest: seq<Byte> -> string)
    requires AssembledFrom(offset, length, peer).Assembled?
    ensures var result := AssembledFrom(offset, length, peer);
            CheckWhole(result.bytes, offset, result.size, cited, digest)
            <==> ((offset == 0 && (length.None? || length.value >= result.size)) ==> digest(result.bytes) == cited)
  {
    SuccessIsTheRange(offset, length, peer);
  }
}
