/**
 * A connection to one peer: the handshake and opening messages, how each
 * incoming message changes what the client knows about the peer (whether it
 * chokes us, which pieces it has), and the download of a piece block by
 * block. The message service behind the connection is a scripted stand-in:
 * the messages it will deliver, whether it accepts the handshake and which
 * messages it manages to send are fixed in advance, and it records every
 * handshake and message the connection sends.
 */
module Connection {
  import opened Numeric
  import opened Wrappers
  import opened PeerTypes

  // ---------------------------------------------------------------------
  // Errors and the service
  // ---------------------------------------------------------------------

  /** Errors of the message service. */
  datatype ServiceError =
    | UnhandledMessage
    | PeerHandshakeError
    | SendingMessageError
      /** Nothing more arrives: the stream ended or could not be read. */
    | ConnectionClosed

  /** Errors of the connection. */
  datatype ConnectionError =
    | PieceRequestingError(reason: string)
    | MessageServiceError(cause: ServiceError)
      /** `payload[8..]` on a payload shorter than 8 bytes: a panic in the source. */
    | MalformedBlock
      /** `counter += block_size` beyond 32 bits: a panic in a debug build. */
    | CounterOverflow

  const WAIT_FAILED: string := "Failed while waiting for message"
  const INVALID_BLOCK: string := "Invalid block received"
  const INVALID_PIECE: string := "Invalid piece received"

  /** What reaches the peer, in order. */
  datatype Event =
    | HandshakeSent(infoHash: Bytes, peerId: Bytes)
    | MessageSent(message: PeerMessage)

  type Incoming = Result<PeerMessage, ServiceError>

  /** The log entries of messages sent in this order. */
  function SentEvents(ms: seq<PeerMessage>): (es: seq<Event>)
    ensures |es| == |ms|
  {
    if ms == [] then [] else SentEvents(ms[..|ms| - 1]) + [MessageSent(ms[|ms| - 1])]
  }

  /** Logging one more message after `ms` extends a log that ended with the entries of `ms`. */
  lemma SentEventsAppend(log: seq<Event>, ms: seq<PeerMessage>, m: PeerMessage)
    ensures (log + SentEvents(ms)) + [MessageSent(m)] == log + SentEvents(ms + [m])
  {
    assert (ms + [m])[..|ms|] == ms;
    assert SentEvents(ms + [m]) == SentEvents(ms) + [MessageSent(m)];
  }

  class MessageService {
    /** What the next calls of `WaitForMessage` return, in order. */
    var incoming: seq<Incoming>
    /** Handshakes and messages sent so far, in order. */
    var log: seq<Event>
    const acceptsHandshake: bool
    const delivers: PeerMessage -> bool

    constructor (incoming: seq<Incoming>, acceptsHandshake: bool, delivers: PeerMessage -> bool)
      ensures this.incoming == incoming && log == []
      ensures this.acceptsHandshake == acceptsHandshake && this.delivers == delivers
    {
      this.incoming := incoming;
      this.log := [];
      this.acceptsHandshake := acceptsHandshake;
      this.delivers := delivers;
    }

    method Handshake(infoHash: Bytes, peerId: Bytes) returns (r: Result<(), ServiceError>)
      modifies this
      ensures log == old(log) + [HandshakeSent(infoHash, peerId)]
      ensures incoming == old(incoming)
      ensures r == if acceptsHandshake then Ok(()) else Err(PeerHandshakeError)
    {
      log := log + [HandshakeSent(infoHash, peerId)];
      r := if acceptsHandshake then Ok(()) else Err(PeerHandshakeError);
    }

    method SendMessage(message: PeerMessage) returns (r: Result<(), ServiceError>)
      modifies this
      ensures log == old(log) + [MessageSent(message)]
      ensures incoming == old(incoming)
      ensures r == if delivers(message) then Ok(()) else Err(SendingMessageError)
    {
      log := log + [MessageSent(message)];
      r := if delivers(message) then Ok(()) else Err(SendingMessageError);
    }

    method WaitForMessage() returns (r: Incoming)
      modifies this
      ensures log == old(log)
      ensures old(incoming) == [] ==> r == Err(ConnectionClosed) && incoming == []
      ensures old(incoming) != [] ==> r == old(incoming)[0] && incoming == old(incoming)[1..]
    {
      if incoming == [] {
        r := Err(ConnectionClosed);
      } else {
        r := incoming[0];
        incoming := incoming[1..];
      }
    }
  }

  // ---------------------------------------------------------------------
  // What the client knows about the peer
  // ---------------------------------------------------------------------

  datatype PeerState = PeerState(peerChoking: bool, bits: Bytes)

  const INITIAL: PeerState := PeerState(true, [])

  /**
   * The effect of one message: Unchoke lifts the choke, Bitfield replaces
   * the bitfield, Have and Piece change nothing; no other message is handled.
   */
  function Handle(s: PeerState, m: PeerMessage): (r: Option<PeerState>)
    ensures r.Some? <==> (m.id == Unchoke || m.id == PeerMessageId.Bitfield || m.id == Have || m.id == Piece)
    ensures r.Some? && m.id == Unchoke ==> r.value == PeerState(false, s.bits)
    ensures r.Some? && m.id == PeerMessageId.Bitfield ==> r.value == PeerState(s.peerChoking, m.payload)
    ensures r.Some? && (m.id == Have || m.id == Piece) ==> r.value == s
  {
    match m.id
    case Unchoke => Some(s.(peerChoking := false))
    case Bitfield => Some(s.(bits := m.payload))
    case Have => Some(s)
    case Piece => Some(s)
    case _ => None
  }

  /** No handled message puts the choke back once it is lifted. */
  lemma HandleKeepsUnchoked(s: PeerState, m: PeerMessage)
    requires !s.peerChoking && Handle(s, m).Some?
    ensures !Handle(s, m).value.peerChoking
  {
  }

  datatype Received = Received(result: Incoming, state: PeerState, rest: seq<Incoming>)

  /** `wait_for_message` of the connection: take the next message and apply it. */
  function Receive(s: PeerState, incoming: seq<Incoming>): (r: Received)
    ensures incoming == [] ==> r == Received(Err(ConnectionClosed), s, [])
    ensures incoming != [] ==> r.rest == incoming[1..]
    ensures r.result.Err? ==> r.state == s
    ensures incoming != [] && incoming[0].Err? ==> r.result == incoming[0]
    ensures incoming != [] && incoming[0].Ok? && Handle(s, incoming[0].value).None? ==>
              r.result == Err(UnhandledMessage)
    ensures r.result.Ok? ==>
              (incoming != [] && incoming[0] == r.result && Handle(s, r.result.value) == Some(r.state))
  {
    if incoming == [] then Received(Err(ConnectionClosed), s, [])
    else match incoming[0]
      case Err(e) => Received(Err(e), s, incoming[1..])
      case Ok(m) =>
        match Handle(s, m)
        case None => Received(Err(UnhandledMessage), s, incoming[1..])
        case Some(next) => Received(Ok(m), next, incoming[1..])
  }

  // ---------------------------------------------------------------------
  // Waiting until the peer is ready
  // ---------------------------------------------------------------------

  datatype ReadyOutcome = ReadyOutcome(result: Result<(), ServiceError>, state: PeerState, rest: seq<Incoming>)

  /** The condition `wait_until_ready` tests: the peer chokes us and has sent no bitfield. */
  predicate ChokedAndEmpty(s: PeerState)
  {
    s.peerChoking && s.bits == []
  }

  /** The evidently intended condition: the peer has unchoked us and said which pieces it has. */
  predicate Ready(s: PeerState)
  {
    !s.peerChoking && s.bits != []
  }

  /** The `wait_until_ready` loop with the readiness test `ready`: receive until it holds or a receive fails. */
  function AwaitReady(ready: PeerState -> bool, s: PeerState, incoming: seq<Incoming>): (o: ReadyOutcome)
    ensures o.result.Ok? ==> ready(o.state)
    decreases |incoming|
  {
    var r := Receive(s, incoming);
    if r.result.Err? then ReadyOutcome(Err(r.result.error), r.state, r.rest)
    else if ready(r.state) then ReadyOutcome(Ok(()), r.state, r.rest)
    else AwaitReady(ready, r.state, r.rest)
  }

  /**
   * The state after handling every message of `xs` in order, provided each
   * is a received message the connection handles and `ready` fails after each.
   */
  function NotReadyAfter(ready: PeerState -> bool, s: PeerState, xs: seq<Incoming>): Option<PeerState>
    decreases |xs|
  {
    if xs == [] then Some(s)
    else if xs[0].Err? then None
    else match Handle(s, xs[0].value)
      case None => None
      case Some(t) => if ready(t) then None else NotReadyAfter(ready, t, xs[1..])
  }

  /**
   * How the wait ends at the input `xs`, in state `t`: an exhausted stream
   * or a failed receive ends it with that error, an unhandled message with
   * `UnhandledMessage`, and a handled one only when `ready` holds afterwards.
   */
  predicate EndsWaitWith(ready: PeerState -> bool, t: PeerState, xs: seq<Incoming>, o: ReadyOutcome)
  {
    if xs == [] then o == ReadyOutcome(Err(ConnectionClosed), t, [])
    else match xs[0]
      case Err(e) => o == ReadyOutcome(Err(e), t, xs[1..])
      case Ok(m) =>
        match Handle(t, m)
        case None => o == ReadyOutcome(Err(UnhandledMessage), t, xs[1..])
        case Some(next) => ready(next) && o == ReadyOutcome(Ok(()), next, xs[1..])
  }

  /**
   * The wait consumes some inputs `incoming[..k]`, each handled without the
   * peer becoming ready, and then ends at input `k` as `EndsWaitWith` says.
   */
  lemma {:induction false} AwaitReadyStops(ready: PeerState -> bool, s: PeerState, incoming: seq<Incoming>)
    ensures exists k :: 0 <= k <= |incoming| && NotReadyAfter(ready, s, incoming[..k]).Some?
              && EndsWaitWith(ready, NotReadyAfter(ready, s, incoming[..k]).value, incoming[k..],
                              AwaitReady(ready, s, incoming))
    decreases |incoming|
  {
    var o := AwaitReady(ready, s, incoming);
    var r := Receive(s, incoming);
    assert incoming[..0] == [] && incoming[0..] == incoming;
    if incoming == [] || r.result.Err? || ready(r.state) {
      assert NotReadyAfter(ready, s, incoming[..0]) == Some(s);
      assert EndsWaitWith(ready, s, incoming[0..], o);
    } else {
      AwaitReadyStops(ready, r.state, r.rest);
      var k :| 0 <= k <= |r.rest| && NotReadyAfter(ready, r.state, r.rest[..k]).Some?
              && EndsWaitWith(ready, NotReadyAfter(ready, r.state, r.rest[..k]).value, r.rest[k..],
                              AwaitReady(ready, r.state, r.rest));
      assert incoming[..k + 1][1..] == r.rest[..k];
      assert NotReadyAfter(ready, s, incoming[..k + 1]) == NotReadyAfter(ready, r.state, r.rest[..k]);
      assert incoming[k + 1..] == r.rest[k..];
    }
  }

  /**
   * A wait that fails ends at an input `k` after inputs each handled without
   * the peer becoming ready: the stream is exhausted there, or input `k` is a
   * failed receive whose error is the wait's, or a message the connection
   * does not handle, reported as `UnhandledMessage`.
   */
  lemma AwaitReadyPropagates(ready: PeerState -> bool, s: PeerState, incoming: seq<Incoming>)
    requires AwaitReady(ready, s, incoming).result.Err?
    ensures var o := AwaitReady(ready, s, incoming);
      exists k :: 0 <= k <= |incoming| && NotReadyAfter(ready, s, incoming[..k]).Some?
        && o.state == NotReadyAfter(ready, s, incoming[..k]).value
        && (k == |incoming| ==> o.result == Err(ConnectionClosed) && o.rest == [])
        && (k < |incoming| ==> o.rest == incoming[k + 1..])
        && (k < |incoming| && incoming[k].Err? ==> o.result == Err(incoming[k].error))
        && (k < |incoming| && incoming[k].Ok? ==>
              Handle(o.state, incoming[k].value).None? && o.result == Err(UnhandledMessage))
  {
    AwaitReadyStops(ready, s, incoming);
    var o := AwaitReady(ready, s, incoming);
    var k :| 0 <= k <= |incoming| && NotReadyAfter(ready, s, incoming[..k]).Some?
              && EndsWaitWith(ready, NotReadyAfter(ready, s, incoming[..k]).value, incoming[k..], o);
    if k < |incoming| {
      assert incoming[k..][0] == incoming[k] && incoming[k..][1..] == incoming[k + 1..];
    }
  }

  /**
   * With the condition as written, once the peer has unchoked us the wait can
   * only end in an error: no handled message chokes us again.
   */
  lemma {:induction false} AsWrittenNeverReadyOnceUnchoked(s: PeerState, incoming: seq<Incoming>)
    requires !s.peerChoking
    ensures AwaitReady(ChokedAndEmpty, s, incoming).result.Err?
    decreases |incoming|
  {
    var r := Receive(s, incoming);
    if r.result.Ok? {
      HandleKeepsUnchoked(s, r.result.value);
      AsWrittenNeverReadyOnceUnchoked(r.state, r.rest);
    }
  }

  /**
   * The usual opening of a peer, a bitfield and then an unchoke, never
   * satisfies the condition as written; the intended condition is met by it.
   */
  lemma AsWrittenMissesUsualOpening()
    ensures AwaitReady(ChokedAndEmpty, INITIAL,
              [Ok(PeerMessage(PeerMessageId.Bitfield, 2, [0xFF])), Ok(UnchokeMessage())]).result
         == Err(ConnectionClosed)
    ensures AwaitReady(Ready, INITIAL,
              [Ok(PeerMessage(PeerMessageId.Bitfield, 2, [0xFF])), Ok(UnchokeMessage())])
         == ReadyOutcome(Ok(()), PeerState(false, [0xFF]), [])
  {
    var bitfield := PeerMessage(PeerMessageId.Bitfield, 2, [0xFF]);
    var afterBitfield := PeerState(true, [0xFF]);
    assert Receive(INITIAL, [Ok(bitfield), Ok(UnchokeMessage())])
        == Received(Ok(bitfield), afterBitfield, [Ok(UnchokeMessage())]);
    assert Receive(afterBitfield, [Ok(UnchokeMessage())])
        == Received(Ok(UnchokeMessage()), PeerState(false, [0xFF]), []);
    AsWrittenNeverReadyOnceUnchoked(PeerState(false, [0xFF]), []);
  }

  /**
   * With the condition as written, a fresh connection stops waiting at the
   * first Have, before the peer has unchoked the client or sent a bitfield;
   * the intended condition keeps waiting.
   */
  lemma AsWrittenStopsAtFirstHave(have: PeerMessage)
    requires have.id == Have
    ensures AwaitReady(ChokedAndEmpty, INITIAL, [Ok(have)]) == ReadyOutcome(Ok(()), INITIAL, [])
    ensures AwaitReady(Ready, INITIAL, [Ok(have)]) == ReadyOutcome(Err(ConnectionClosed), INITIAL, [])
  {
    assert Receive(INITIAL, [Ok(have)]) == Received(Ok(have), INITIAL, []);
  }

  // ---------------------------------------------------------------------
  // Blocks and pieces
  // ---------------------------------------------------------------------

  datatype BlockOutcome = BlockOutcome(result: Result<Bytes, ConnectionError>, state: PeerState, rest: seq<Incoming>)

  /**
   * The receive loop of `request_block`: skip handled messages until the
   * first Piece, then return its payload after the index and offset if the
   * block is valid. A failed receive ends the loop.
   */
  function AwaitBlock(validBlock: (Bytes, u32, u32) -> bool, s: PeerState, incoming: seq<Incoming>,
                      index: u32, begin: u32): (o: BlockOutcome)
    ensures |o.rest| <= |incoming|
    ensures o.result.Ok? ==> |o.rest| < |incoming|
    decreases |incoming|
  {
    var r := Receive(s, incoming);
    if r.result.Err? then BlockOutcome(Err(PieceRequestingError(WAIT_FAILED)), r.state, r.rest)
    else
      var m := r.result.value;
      if m.id != Piece then AwaitBlock(validBlock, r.state, r.rest, index, begin)
      else if !validBlock(m.payload, index, begin) then
        BlockOutcome(Err(PieceRequestingError(INVALID_BLOCK)), r.state, r.rest)
      else if |m.payload| < 8 then BlockOutcome(Err(MalformedBlock), r.state, r.rest)
      else BlockOutcome(Ok(m.payload[8..]), r.state, r.rest)
  }

  /** An input the block wait reads past: a received message, handled, that is not a Piece. */
  predicate PassedOver(x: Incoming)
  {
    x.Ok? && (x.value.id == Unchoke || x.value.id == PeerMessageId.Bitfield || x.value.id == Have)
  }

  /** The position of the first input the block wait does not read past, or the length when there is none. */
  function FirstStop(xs: seq<Incoming>): (i: nat)
    ensures i <= |xs|
    ensures forall j :: 0 <= j < i ==> PassedOver(xs[j])
    ensures i < |xs| ==> !PassedOver(xs[i])
    decreases |xs|
  {
    if xs == [] || !PassedOver(xs[0]) then 0 else 1 + FirstStop(xs[1..])
  }

  /** Input `x` answers the request for `begin` of piece `index` with `block`. */
  predicate Answers(validBlock: (Bytes, u32, u32) -> bool, x: Incoming, index: u32, begin: u32, block: Bytes)
  {
    && x.Ok? && x.value.id == Piece && validBlock(x.value.payload, index, begin)
    && |x.value.payload| >= 8 && block == x.value.payload[8..]
  }

  /**
   * How the block wait ends at the input `xs`: an exhausted stream, a failed
   * receive or an unhandled message is `WAIT_FAILED`; a Piece gives
   * `INVALID_BLOCK` when `valid_block` rejects it, `MalformedBlock` when it
   * is shorter than 8 bytes, and otherwise its payload after the index and
   * offset. What follows that input is left unread.
   */
  predicate EndsBlockWaitWith(validBlock: (Bytes, u32, u32) -> bool, xs: seq<Incoming>,
                              index: u32, begin: u32, o: BlockOutcome)
  {
    if xs == [] then o.result == Err(PieceRequestingError(WAIT_FAILED)) && o.rest == []
    else
      && o.rest == xs[1..]
      && if !(xs[0].Ok? && xs[0].value.id == Piece) then o.result == Err(PieceRequestingError(WAIT_FAILED))
         else
           var payload := xs[0].value.payload;
           if !validBlock(payload, index, begin) then o.result == Err(PieceRequestingError(INVALID_BLOCK))
           else if |payload| < 8 then o.result == Err(MalformedBlock)
           else o.result == Ok(payload[8..])
  }

  /**
   * The block wait reads past every input before the first one that is not
   * a handled non-Piece message, and ends there as `EndsBlockWaitWith` says.
   */
  lemma {:induction false} AwaitBlockFirstStop(validBlock: (Bytes, u32, u32) -> bool, s: PeerState,
                                               incoming: seq<Incoming>, index: u32, begin: u32)
    ensures EndsBlockWaitWith(validBlock, incoming[FirstStop(incoming)..], index, begin,
                              AwaitBlock(validBlock, s, incoming, index, begin))
    decreases |incoming|
  {
    if incoming != [] && PassedOver(incoming[0]) {
      var r := Receive(s, incoming);
      assert r.rest == incoming[1..];
      assert AwaitBlock(validBlock, s, incoming, index, begin) == AwaitBlock(validBlock, r.state, r.rest, index, begin);
      AwaitBlockFirstStop(validBlock, r.state, r.rest, index, begin);
      assert incoming[FirstStop(incoming)..] == r.rest[FirstStop(r.rest)..];
    } else {
      assert incoming[0..] == incoming;
    }
  }

  /**
   * A block comes back only from the first Piece among the inputs: every
   * input before it is a handled non-Piece message, it passes `valid_block`,
   * the block is its payload after the index and offset, and the inputs
   * after it are left unread.
   */
  lemma AwaitBlockFromPiece(validBlock: (Bytes, u32, u32) -> bool, s: PeerState,
                            incoming: seq<Incoming>, index: u32, begin: u32)
    requires AwaitBlock(validBlock, s, incoming, index, begin).result.Ok?
    ensures var o := AwaitBlock(validBlock, s, incoming, index, begin);
      exists i :: 0 <= i < |incoming|
        && Answers(validBlock, incoming[i], index, begin, o.result.value)
        && o.rest == incoming[i + 1..]
        && forall j :: 0 <= j < i ==> PassedOver(incoming[j])
  {
    AwaitBlockFirstStop(validBlock, s, incoming, index, begin);
    var i := FirstStop(incoming);
    assert i < |incoming|;
    assert incoming[i..][0] == incoming[i] && incoming[i..][1..] == incoming[i + 1..];
  }

  /** The fixed inputs of a piece download. */
  datatype Params = Params(
    delivers: PeerMessage -> bool,
    validBlock: (Bytes, u32, u32) -> bool,
    validPiece: (Bytes, u32) -> bool,
    pieceLength: u32)

  /** `request_block`: send the request, then wait for its block. */
  function RequestBlockSpec(p: Params, s: PeerState, incoming: seq<Incoming>,
                            index: u32, begin: u32, length: u32): (o: BlockOutcome)
    ensures |o.rest| <= |incoming|
    ensures o.result.Ok? ==> |o.rest| < |incoming|
  {
    if !p.delivers(RequestMessage(index, begin, length)) then
      BlockOutcome(Err(MessageServiceError(SendingMessageError)), s, incoming)
    else AwaitBlock(p.validBlock, s, incoming, index, begin)
  }

  datatype PieceOutcome = PieceOutcome(
    result: Result<Bytes, ConnectionError>,
    state: PeerState,
    rest: seq<Incoming>,
    sent: seq<PeerMessage>,
    blocks: seq<Bytes>)

  function ConcatBlocks(blocks: seq<Bytes>): Bytes
  {
    if blocks == [] then [] else blocks[0] + ConcatBlocks(blocks[1..])
  }

  /**
   * The `request_piece` loop from offset `counter` with `piece` collected so
   * far: rounds until one of them ends the download.
   */
  function CollectPiece(p: Params, s: PeerState, incoming: seq<Incoming>,
                        pieceIndex: u32, blockSize: u32, counter: u32, piece: Bytes): (o: PieceOutcome)
    decreases |incoming|, 1
  {
    Round(p, s, incoming, pieceIndex, blockSize, counter, piece)
  }

  /**
   * One round of the loop: request a block, append it, advance the offset by
   * the block size, and stop once the offset reaches the piece length.
   */
  function Round(p: Params, s: PeerState, incoming: seq<Incoming>,
                 pieceIndex: u32, blockSize: u32, counter: u32, piece: Bytes): (o: PieceOutcome)
    decreases |incoming|, 0
  {
    var request := RequestMessage(pieceIndex, counter, blockSize);
    var b := RequestBlockSpec(p, s, incoming, pieceIndex, counter, blockSize);
    if b.result.Err? then PieceOutcome(Err(b.result.error), b.state, b.rest, [request], [])
    else
      var block := b.result.value;
      var collected := piece + block;
      if counter + blockSize >= U32_LIMIT then
        PieceOutcome(Err(CounterOverflow), b.state, b.rest, [request], [block])
      else
        var next: u32 := counter + blockSize;
        if next >= p.pieceLength then
          var result := if p.validPiece(collected, pieceIndex) then Ok(collected)
                        else Err(PieceRequestingError(INVALID_PIECE));
          PieceOutcome(result, b.state, b.rest, [request], [block])
        else
          var o := CollectPiece(p, b.state, b.rest, pieceIndex, blockSize, next, collected);
          PieceOutcome(o.result, o.state, o.rest, [request] + o.sent, [block] + o.blocks)
  }

  /** One round of the download loop that neither fails nor finishes. */
  lemma CollectPieceStep(p: Params, s: PeerState, incoming: seq<Incoming>,
                         pieceIndex: u32, blockSize: u32, counter: u32, piece: Bytes)
    requires var b := RequestBlockSpec(p, s, incoming, pieceIndex, counter, blockSize);
      b.result.Ok? && counter + blockSize < p.pieceLength
    ensures var b := RequestBlockSpec(p, s, incoming, pieceIndex, counter, blockSize);
      var o := CollectPiece(p, b.state, b.rest, pieceIndex, blockSize, counter + blockSize, piece + b.result.value);
      CollectPiece(p, s, incoming, pieceIndex, blockSize, counter, piece)
        == PieceOutcome(o.result, o.state, o.rest, [RequestMessage(pieceIndex, counter, blockSize)] + o.sent,
                        [b.result.value] + o.blocks)
  {
    assert CollectPiece(p, s, incoming, pieceIndex, blockSize, counter, piece)
        == Round(p, s, incoming, pieceIndex, blockSize, counter, piece);
  }

  /**
   * The round that ends the download: one request, and a piece only when the
   * block arrived, the offset reached the piece length and the piece is valid.
   */
  lemma CollectPieceFinal(p: Params, s: PeerState, incoming: seq<Incoming>,
                          pieceIndex: u32, blockSize: u32, counter: u32, piece: Bytes)
    requires var b := RequestBlockSpec(p, s, incoming, pieceIndex, counter, blockSize);
      !(b.result.Ok? && counter + blockSize < p.pieceLength)
    ensures var b := RequestBlockSpec(p, s, incoming, pieceIndex, counter, blockSize);
      var o := CollectPiece(p, s, incoming, pieceIndex, blockSize, counter, piece);
      && o.sent == [RequestMessage(pieceIndex, counter, blockSize)]
      && (o.result.Ok? ==>
            && b.result.Ok? && counter + blockSize >= p.pieceLength
            && o.blocks == [b.result.value]
            && o.result.value == piece + b.result.value
            && p.validPiece(o.result.value, pieceIndex))
  {
    assert CollectPiece(p, s, incoming, pieceIndex, blockSize, counter, piece)
        == Round(p, s, incoming, pieceIndex, blockSize, counter, piece);
  }

  /** How many requests a round that does not end the download adds, and that it leaves the result as is. */
  lemma CollectPieceStepCount(p: Params, s: PeerState, incoming: seq<Incoming>,
                              pieceIndex: u32, blockSize: u32, counter: u32, piece: Bytes)
    requires var b := RequestBlockSpec(p, s, incoming, pieceIndex, counter, blockSize);
      b.result.Ok? && counter + blockSize < p.pieceLength
    ensures var b := RequestBlockSpec(p, s, incoming, pieceIndex, counter, blockSize);
      var o := CollectPiece(p, s, incoming, pieceIndex, blockSize, counter, piece);
      var o' := CollectPiece(p, b.state, b.rest, pieceIndex, blockSize, counter + blockSize, piece + b.result.value);
      |o.sent| == 1 + |o'.sent| && o.result == o'.result
  {
    CollectPieceStep(p, s, incoming, pieceIndex, blockSize, counter, piece);
  }

  /** The round that ends the download sends one request, and yields a piece only once the offset reaches the piece length. */
  lemma CollectPieceFinalCount(p: Params, s: PeerState, incoming: seq<Incoming>,
                               pieceIndex: u32, blockSize: u32, counter: u32, piece: Bytes)
    requires var b := RequestBlockSpec(p, s, incoming, pieceIndex, counter, blockSize);
      !(b.result.Ok? && counter + blockSize < p.pieceLength)
    ensures var o := CollectPiece(p, s, incoming, pieceIndex, blockSize, counter, piece);
      |o.sent| == 1 && (o.result.Ok? ==> counter + blockSize >= p.pieceLength)
  {
    CollectPieceFinal(p, s, incoming, pieceIndex, blockSize, counter, piece);
  }

  /** The offset of the `k`-th block request of a piece download started at `counter`. */
  function Offset(counter: nat, k: nat, blockSize: nat): nat
  {
    counter + k * blockSize
  }

  lemma OffsetNext(counter: nat, k: nat, blockSize: nat)
    requires k >= 1
    ensures Offset(counter, k, blockSize) == Offset(counter + blockSize, k - 1, blockSize)
  {
  }

  /**
   * At least one request goes out, and request `k` asks for `blockSize`
   * bytes at offset `counter + k * blockSize`, each offset fitting 32 bits.
   */
  lemma {:induction false} CollectPieceRequests(p: Params, s: PeerState, incoming: seq<Incoming>,
                                                pieceIndex: u32, blockSize: u32, counter: u32, piece: Bytes)
    ensures var o := CollectPiece(p, s, incoming, pieceIndex, blockSize, counter, piece);
      && |o.sent| >= 1
      && forall k :: 0 <= k < |o.sent| ==>
           && Offset(counter, k, blockSize) < U32_LIMIT
           && o.sent[k] == RequestMessage(pieceIndex, Offset(counter, k, blockSize), blockSize)
    decreases |incoming|
  {
    var o := CollectPiece(p, s, incoming, pieceIndex, blockSize, counter, piece);
    var b := RequestBlockSpec(p, s, incoming, pieceIndex, counter, blockSize);
    if b.result.Ok? && counter + blockSize < p.pieceLength {
      var next: u32 := counter + blockSize;
      var o' := CollectPiece(p, b.state, b.rest, pieceIndex, blockSize, next, piece + b.result.value);
      CollectPieceStep(p, s, incoming, pieceIndex, blockSize, counter, piece);
      CollectPieceRequests(p, b.state, b.rest, pieceIndex, blockSize, next, piece + b.result.value);
      RequestsShift(o'.sent, pieceIndex, blockSize, counter);
    } else {
      CollectPieceFinal(p, s, incoming, pieceIndex, blockSize, counter, piece);
    }
  }

  /** Requests at offsets from `counter + blockSize` on, preceded by one at `counter`, are at offsets from `counter` on. */
  lemma RequestsShift(later: seq<PeerMessage>, pieceIndex: u32, blockSize: u32, counter: u32)
    requires counter + blockSize < U32_LIMIT
    requires forall k :: 0 <= k < |later| ==>
               && Offset(counter + blockSize, k, blockSize) < U32_LIMIT
               && later[k] == RequestMessage(pieceIndex, Offset(counter + blockSize, k, blockSize), blockSize)
    ensures var sent := [RequestMessage(pieceIndex, counter, blockSize)] + later;
      forall k :: 0 <= k < |sent| ==>
        && Offset(counter, k, blockSize) < U32_LIMIT
        && sent[k] == RequestMessage(pieceIndex, Offset(counter, k, blockSize), blockSize)
  {
    var sent := [RequestMessage(pieceIndex, counter, blockSize)] + later;
    forall k | 0 <= k < |sent|
      ensures Offset(counter, k, blockSize) < U32_LIMIT
      ensures sent[k] == RequestMessage(pieceIndex, Offset(counter, k, blockSize), blockSize)
    {
      if k > 0 {
        OffsetNext(counter, k, blockSize);
        assert sent[k] == later[k - 1];
      }
    }
  }

  /**
   * A piece comes back only when it passes the piece check, and it is what
   * was collected before followed by every block received, in order, one
   * block per request.
   */
  lemma {:induction false} CollectPieceContents(p: Params, s: PeerState, incoming: seq<Incoming>,
                                                pieceIndex: u32, blockSize: u32, counter: u32, piece: Bytes)
    ensures var o := CollectPiece(p, s, incoming, pieceIndex, blockSize, counter, piece);
      o.result.Ok? ==>
        && |o.blocks| == |o.sent|
        && o.result.value == piece + ConcatBlocks(o.blocks)
        && p.validPiece(o.result.value, pieceIndex)
    decreases |incoming|
  {
    var o := CollectPiece(p, s, incoming, pieceIndex, blockSize, counter, piece);
    var b := RequestBlockSpec(p, s, incoming, pieceIndex, counter, blockSize);
    if b.result.Ok? && counter + blockSize < p.pieceLength {
      var block := b.result.value;
      var next: u32 := counter + blockSize;
      var o' := CollectPiece(p, b.state, b.rest, pieceIndex, blockSize, next, piece + block);
      CollectPieceStep(p, s, incoming, pieceIndex, blockSize, counter, piece);
      CollectPieceContents(p, b.state, b.rest, pieceIndex, blockSize, next, piece + block);
      if o.result.Ok? {
        assert ConcatBlocks(o.blocks) == block + ConcatBlocks(o'.blocks);
        AppendAssociative(piece, block, ConcatBlocks(o'.blocks));
      }
    } else {
      CollectPieceFinal(p, s, incoming, pieceIndex, blockSize, counter, piece);
      if o.result.Ok? {
        assert ConcatBlocks(o.blocks) == b.result.value + ConcatBlocks([]);
      }
    }
  }

  /** A block request yields a block only when the request went out and some input answered it; the inputs after that one are left unread. */
  lemma RequestBlockAnswered(p: Params, s: PeerState, incoming: seq<Incoming>, index: u32, begin: u32, length: u32)
    requires RequestBlockSpec(p, s, incoming, index, begin, length).result.Ok?
    ensures var b := RequestBlockSpec(p, s, incoming, index, begin, length);
      && p.delivers(RequestMessage(index, begin, length))
      && exists i :: 0 <= i < |incoming| && Answers(p.validBlock, incoming[i], index, begin, b.result.value)
           && b.rest == incoming[i + 1..]
  {
    AwaitBlockFromPiece(p.validBlock, s, incoming, index, begin);
  }

  /**
   * The first of `blocks` answers the request at offset `counter` of piece `pieceIndex`
   * with some input of `xs`, and the remaining blocks answer the requests at the following
   * offsets with inputs strictly after that one: no input answers two requests.
   */
  predicate AnsweredBy(validBlock: (Bytes, u32, u32) -> bool, xs: seq<Incoming>,
                       pieceIndex: u32, blockSize: u32, counter: nat, blocks: seq<Bytes>)
    decreases |blocks|
  {
    |blocks| == 0 ||
    (counter < U32_LIMIT &&
     exists i :: 0 <= i < |xs|
       && Answers(validBlock, xs[i], pieceIndex, counter as u32, blocks[0])
       && AnsweredBy(validBlock, xs[i + 1..], pieceIndex, blockSize, counter + blockSize, blocks[1..]))
  }

  lemma {:induction false} CollectPieceBlocks(p: Params, s: PeerState, incoming: seq<Incoming>,
                                              pieceIndex: u32, blockSize: u32, counter: u32, piece: Bytes)
    ensures var o := CollectPiece(p, s, incoming, pieceIndex, blockSize, counter, piece);
      AnsweredBy(p.validBlock, incoming, pieceIndex, blockSize, counter, o.blocks)
    decreases |incoming|
  {
    var o := CollectPiece(p, s, incoming, pieceIndex, blockSize, counter, piece);
    assert o == Round(p, s, incoming, pieceIndex, blockSize, counter, piece);
    var b := RequestBlockSpec(p, s, incoming, pieceIndex, counter, blockSize);
    if b.result.Ok? {
      RequestBlockAnswered(p, s, incoming, pieceIndex, counter, blockSize);
      var i0 :| 0 <= i0 < |incoming| && Answers(p.validBlock, incoming[i0], pieceIndex, counter, b.result.value)
                && b.rest == incoming[i0 + 1..];
      if counter + blockSize < p.pieceLength {
        var next: u32 := counter + blockSize;
        var o' := CollectPiece(p, b.state, b.rest, pieceIndex, blockSize, next, piece + b.result.value);
        CollectPieceBlocks(p, b.state, b.rest, pieceIndex, blockSize, next, piece + b.result.value);
        assert o.blocks == [b.result.value] + o'.blocks;
        assert o.blocks[1..] == o'.blocks;
        assert AnsweredBy(p.validBlock, incoming[i0 + 1..], pieceIndex, blockSize, counter + blockSize, o.blocks[1..]);
      } else {
        assert o.blocks == [b.result.value];
        assert AnsweredBy(p.validBlock, incoming[i0 + 1..], pieceIndex, blockSize, counter + blockSize, o.blocks[1..]);
      }
    }
  }

  lemma AppendAssociative<T>(a: seq<T>, b: seq<T>, c: seq<T>)
    ensures (a + b) + c == a + (b + c)
  {
  }

  /**
   * A successful download stops at the first request offset that reaches
   * the piece length: every request after the first was sent at an offset
   * below it, and the offset after the last request is at or past it.
   */
  lemma {:induction false} CollectPieceStops(p: Params, s: PeerState, incoming: seq<Incoming>,
                                             pieceIndex: u32, blockSize: u32, counter: u32, piece: Bytes)
    ensures var o := CollectPiece(p, s, incoming, pieceIndex, blockSize, counter, piece);
      o.result.Ok? ==>
        && Offset(counter, |o.sent|, blockSize) >= p.pieceLength
        && forall k :: 1 <= k < |o.sent| ==> Offset(counter, k, blockSize) < p.pieceLength
    decreases |incoming|
  {
    var o := CollectPiece(p, s, incoming, pieceIndex, blockSize, counter, piece);
    var b := RequestBlockSpec(p, s, incoming, pieceIndex, counter, blockSize);
    if b.result.Ok? && counter + blockSize < p.pieceLength {
      var next: u32 := counter + blockSize;
      var o' := CollectPiece(p, b.state, b.rest, pieceIndex, blockSize, next, piece + b.result.value);
      CollectPieceStepCount(p, s, incoming, pieceIndex, blockSize, counter, piece);
      CollectPieceStops(p, b.state, b.rest, pieceIndex, blockSize, next, piece + b.result.value);
      if o.result.Ok? {
        StopsShift(|o'.sent|, counter, next, blockSize, p.pieceLength);
      }
    } else {
      CollectPieceFinalCount(p, s, incoming, pieceIndex, blockSize, counter, piece);
    }
  }

  /**
   * Stopping `n` requests after offset `next = counter + blockSize`, below the piece
   * length, is stopping `n + 1` requests after `counter`.
   */
  lemma StopsShift(n: nat, counter: nat, next: nat, blockSize: nat, pieceLength: nat)
    requires next == counter + blockSize < pieceLength
    requires Offset(next, n, blockSize) >= pieceLength
    requires forall k :: 1 <= k < n ==> Offset(next, k, blockSize) < pieceLength
    ensures Offset(counter, n + 1, blockSize) >= pieceLength
    ensures forall k :: 1 <= k < n + 1 ==> Offset(counter, k, blockSize) < pieceLength
  {
    OffsetNext(counter, n + 1, blockSize);
    forall k | 1 <= k < n + 1
      ensures Offset(counter, k, blockSize) < pieceLength
    {
      OffsetNext(counter, k, blockSize);
    }
  }

  /** The errors a `request_block` can end with. */
  predicate BlockRequestError(e: ConnectionError)
  {
    || e == MessageServiceError(SendingMessageError)
    || e == PieceRequestingError(WAIT_FAILED)
    || e == PieceRequestingError(INVALID_BLOCK)
    || e == MalformedBlock
  }

  /** A failed `request_block` fails with one of its own errors. */
  lemma RequestBlockErrors(p: Params, s: PeerState, incoming: seq<Incoming>,
                           index: u32, begin: u32, length: u32)
    ensures var b := RequestBlockSpec(p, s, incoming, index, begin, length);
      b.result.Err? ==> BlockRequestError(b.result.error)
  {
    if p.delivers(RequestMessage(index, begin, length)) {
      AwaitBlockFirstStop(p.validBlock, s, incoming, index, begin);
    }
  }

  /**
   * Every outcome of the download loop. Each round sends one request, and
   * every round but possibly the last receives its block. When the last one
   * does not, the download fails with that request's error. When it does,
   * the offset after it either overflows, or reaches the piece length, and
   * then the collected piece is returned exactly when `valid_piece` accepts
   * it, and otherwise the download fails with `INVALID_PIECE`.
   */
  lemma {:induction false} CollectPieceOutcome(p: Params, s: PeerState, incoming: seq<Incoming>,
                                               pieceIndex: u32, blockSize: u32, counter: u32, piece: Bytes)
    ensures var o := CollectPiece(p, s, incoming, pieceIndex, blockSize, counter, piece);
      var whole := piece + ConcatBlocks(o.blocks);
      && |o.sent| - 1 <= |o.blocks| <= |o.sent|
      && (|o.blocks| < |o.sent| ==> o.result.Err? && BlockRequestError(o.result.error))
      && (|o.blocks| == |o.sent| ==>
            if Offset(counter, |o.sent|, blockSize) >= U32_LIMIT then o.result == Err(CounterOverflow)
            else if p.validPiece(whole, pieceIndex) then o.result == Ok(whole)
            else o.result == Err(PieceRequestingError(INVALID_PIECE)))
    decreases |incoming|
  {
    var o := CollectPiece(p, s, incoming, pieceIndex, blockSize, counter, piece);
    assert o == Round(p, s, incoming, pieceIndex, blockSize, counter, piece);
    var b := RequestBlockSpec(p, s, incoming, pieceIndex, counter, blockSize);
    if b.result.Err? {
      RequestBlockErrors(p, s, incoming, pieceIndex, counter, blockSize);
    } else if counter + blockSize < p.pieceLength {
      var block := b.result.value;
      var next: u32 := counter + blockSize;
      var o' := CollectPiece(p, b.state, b.rest, pieceIndex, blockSize, next, piece + block);
      CollectPieceOutcome(p, b.state, b.rest, pieceIndex, blockSize, next, piece + block);
      assert o.sent == [RequestMessage(pieceIndex, counter, blockSize)] + o'.sent;
      assert o.blocks == [block] + o'.blocks;
      assert o.result == o'.result;
      OffsetNext(counter, |o.sent|, blockSize);
      assert ConcatBlocks(o.blocks) == block + ConcatBlocks(o'.blocks);
      AppendAssociative(piece, block, ConcatBlocks(o'.blocks));
    } else {
      assert |o.sent| == 1 && o.blocks == [b.result.value];
      assert ConcatBlocks(o.blocks) == b.result.value + ConcatBlocks([]);
      assert piece + ConcatBlocks(o.blocks) == piece + b.result.value;
      assert Offset(counter, 1, blockSize) == counter + blockSize;
    }
  }

  // ---------------------------------------------------------------------
  // Opening a connection
  // ---------------------------------------------------------------------

  /** The three sending steps of `open_connection` in order, stopping at the first failure. */
  function Opening(acceptsHandshake: bool, delivers: PeerMessage -> bool,
                   infoHash: Bytes, clientPeerId: Bytes): (r: (seq<Event>, Option<ServiceError>))
  {
    var steps := OpeningSteps(infoHash, clientPeerId);
    if !acceptsHandshake then (steps[..1], Some(PeerHandshakeError))
    else if !delivers(UnchokeMessage()) then (steps[..2], Some(SendingMessageError))
    else if !delivers(InterestedMessage()) then (steps[..3], Some(SendingMessageError))
    else (steps, None)
  }

  /** Handshake, then Unchoke, then Interested. */
  function OpeningSteps(infoHash: Bytes, clientPeerId: Bytes): (steps: seq<Event>)
    ensures |steps| == 3
  {
    [HandshakeSent(infoHash, clientPeerId), MessageSent(UnchokeMessage()), MessageSent(InterestedMessage())]
  }

  /**
   * The steps taken are a prefix of handshake, Unchoke, Interested; all three
   * are taken without failure exactly when the peer accepts the handshake
   * and both messages go out, and a failure is always at the last step taken.
   */
  lemma OpeningOrder(acceptsHandshake: bool, delivers: PeerMessage -> bool, infoHash: Bytes, clientPeerId: Bytes)
    ensures var (events, failure) := Opening(acceptsHandshake, delivers, infoHash, clientPeerId);
      1 <= |events| <= 3
      && events == OpeningSteps(infoHash, clientPeerId)[..|events|]
      && (failure.None? <==> acceptsHandshake && delivers(UnchokeMessage()) && delivers(InterestedMessage()))
      && (failure.None? ==> |events| == 3)
      && (failure == Some(PeerHandshakeError) <==> !acceptsHandshake)
      && (|events| >= 2 ==> acceptsHandshake)
      && (|events| == 3 ==> delivers(UnchokeMessage()))
  {
  }

  // ---------------------------------------------------------------------
  // The connection
  // ---------------------------------------------------------------------

  class PeerConnection {
    /** Set once by the constructor and never changed afterwards. */
    const amChoking: bool
    const amInterested: bool
    var peerChoking: bool
    const peerInterested: bool
    const service: MessageService
    const infoHash: Bytes
    const pieceLength: u32
    const clientPeerId: Bytes
    const bitfield: Bitfield
    const peerId: Bytes
    const peer: Peer
    const validBlock: (Bytes, u32, u32) -> bool
    const validPiece: (Bytes, u32) -> bool

    /** What the client knows about the peer. */
    function State(): PeerState
      reads this, bitfield
    {
      PeerState(peerChoking, bitfield.bits)
    }

    function Inputs(): Params
    {
      Params(service.delivers, validBlock, validPiece, pieceLength)
    }

    /** `PeerConnection::new`: choked by the peer, no bitfield yet, the peer's own id. */
    constructor (peer: Peer, clientPeerId: Bytes, infoHash: Bytes, pieceLength: u32, service: MessageService,
                 validBlock: (Bytes, u32, u32) -> bool, validPiece: (Bytes, u32) -> bool)
      ensures State() == INITIAL
      ensures amChoking && amInterested && !peerInterested
      ensures this.peerId == peer.peerId && this.peer == peer && this.clientPeerId == clientPeerId
      ensures this.service == service && this.infoHash == infoHash && this.pieceLength == pieceLength
      ensures this.validBlock == validBlock && this.validPiece == validPiece
      ensures fresh(bitfield)
    {
      amChoking := true;
      amInterested := true;
      peerChoking := true;
      peerInterested := false;
      this.clientPeerId := clientPeerId;
      this.infoHash := infoHash;
      this.pieceLength := pieceLength;
      this.service := service;
      bitfield := new Bitfield();
      peerId := peer.peerId;
      this.peer := peer;
      this.validBlock := validBlock;
      this.validPiece := validPiece;
    }

    /** `wait_for_message`: the next message, applied to the state unless it is one the connection does not handle. */
    method WaitForMessage() returns (r: Incoming)
      modifies this, service, bitfield
      ensures Receive(old(State()), old(service.incoming)) == Received(r, State(), service.incoming)
      ensures service.log == old(service.log)
    {
      r := service.WaitForMessage();
      if r.Err? {
        return;
      }
      match r.value.id
      case Unchoke =>
        peerChoking := false;
      case Bitfield =>
        bitfield.SetBitfield(r.value.payload);
      case Have =>
      case Piece =>
      case _ =>
        r := Err(UnhandledMessage);
    }

    /** `wait_until_ready` as written: it returns once the peer still chokes us and has sent no bitfield. */
    method WaitUntilReadyAsWritten() returns (r: Result<(), ServiceError>)
      modifies this, service, bitfield
      ensures AwaitReady(ChokedAndEmpty, old(State()), old(service.incoming))
           == ReadyOutcome(r, State(), service.incoming)
      ensures service.log == old(service.log)
    {
      ghost var outcome := AwaitReady(ChokedAndEmpty, State(), service.incoming);
      while true
        invariant AwaitReady(ChokedAndEmpty, State(), service.incoming) == outcome
        invariant service.log == old(service.log)
        decreases |service.incoming|
      {
        var message := WaitForMessage();
        if message.Err? {
          return Err(message.error);
        }
        if peerChoking && !bitfield.NonEmpty() {
          return Ok(());
        }
      }
    }

    /** `wait_until_ready` with the intended test: it returns once the peer has unchoked us and sent its bitfield. */
    method WaitUntilReady() returns (r: Result<(), ServiceError>)
      modifies this, service, bitfield
      ensures AwaitReady(Ready, old(State()), old(service.incoming)) == ReadyOutcome(r, State(), service.incoming)
      ensures r.Ok? ==> !peerChoking && bitfield.NonEmpty()
      ensures service.log == old(service.log)
    {
      ghost var outcome := AwaitReady(Ready, State(), service.incoming);
      while true
        invariant AwaitReady(Ready, State(), service.incoming) == outcome
        invariant service.log == old(service.log)
        decreases |service.incoming|
      {
        var message := WaitForMessage();
        if message.Err? {
          return Err(message.error);
        }
        if !peerChoking && bitfield.NonEmpty() {
          return Ok(());
        }
      }
    }

    /** `request_block`: one Request for `length` bytes at `begin`, then the first Piece's block. */
    method RequestBlock(index: u32, begin: u32, length: u32) returns (r: Result<Bytes, ConnectionError>)
      modifies this, service, bitfield
      ensures RequestBlockSpec(Inputs(), old(State()), old(service.incoming), index, begin, length)
           == BlockOutcome(r, State(), service.incoming)
      ensures service.log == old(service.log) + [MessageSent(RequestMessage(index, begin, length))]
    {
      var request := MakeRequest(index, begin, length);
      var sent := service.SendMessage(request);
      if sent.Err? {
        return Err(MessageServiceError(sent.error));
      }
      ghost var outcome := AwaitBlock(validBlock, State(), service.incoming, index, begin);
      while true
        invariant AwaitBlock(validBlock, State(), service.incoming, index, begin) == outcome
        invariant service.log == old(service.log) + [MessageSent(request)]
        decreases |service.incoming|
      {
        var message := WaitForMessage();
        if message.Err? {
          return Err(PieceRequestingError(WAIT_FAILED));
        }
        if message.value.id == Piece {
          if validBlock(message.value.payload, index, begin) {
            if |message.value.payload| < 8 {
              return Err(MalformedBlock);
            }
            return Ok(message.value.payload[8..]);
          } else {
            return Err(PieceRequestingError(INVALID_BLOCK));
          }
        }
      }
    }

    /**
     * One round of the `request_piece` loop at offset `counter` with `piece`
     * collected so far, where `remaining` is what the rest of the download
     * yields: the round either ends the download (`done`) or continues from
     * offset `next` with `collected`, and `later` is then what the rest yields.
     */
    method PieceRound(pieceIndex: u32, blockSize: u32, counter: u32, piece: Bytes, ghost remaining: PieceOutcome)
      returns (done: bool, r: Result<Bytes, ConnectionError>, next: u32, collected: Bytes, ghost later: PieceOutcome)
      requires remaining == CollectPiece(Inputs(), State(), service.incoming, pieceIndex, blockSize, counter, piece)
      modifies this, service, bitfield
      ensures service.log == old(service.log) + [MessageSent(RequestMessage(pieceIndex, counter, blockSize))]
      ensures done ==> r == remaining.result && State() == remaining.state && service.incoming == remaining.rest
                       && remaining.sent == [RequestMessage(pieceIndex, counter, blockSize)]
      ensures !done ==> later == CollectPiece(Inputs(), State(), service.incoming, pieceIndex, blockSize, next, collected)
      ensures !done ==> |service.incoming| < |old(service.incoming)|
      ensures !done ==> remaining.result == later.result && remaining.state == later.state && remaining.rest == later.rest
                        && remaining.sent == [RequestMessage(pieceIndex, counter, blockSize)] + later.sent
    {
      ghost var s0, incoming0 := State(), service.incoming;
      assert remaining == Round(Inputs(), s0, incoming0, pieceIndex, blockSize, counter, piece);
      var block := RequestBlock(pieceIndex, counter, blockSize);
      next, collected, later := counter, piece, remaining;
      if block.Err? {
        return true, Err(block.error), next, collected, later;
      }
      collected := piece + block.value;
      if counter as int + blockSize as int >= U32_LIMIT {
        return true, Err(CounterOverflow), next, collected, later;
      }
      next := counter + blockSize;
      if next >= pieceLength {
        if validPiece(collected, pieceIndex) {
          return true, Ok(collected), next, collected, later;
        } else {
          return true, Err(PieceRequestingError(INVALID_PIECE)), next, collected, later;
        }
      }
      CollectPieceStep(Inputs(), s0, incoming0, pieceIndex, blockSize, counter, piece);
      later := CollectPiece(Inputs(), State(), service.incoming, pieceIndex, blockSize, next, collected);
      done, r := false, Ok([]);
    }

    /** `request_piece`: blocks at offsets 0, b, 2b, … until the piece length is reached, then the piece check. */
    method RequestPiece(pieceIndex: u32, blockSize: u32) returns (r: Result<Bytes, ConnectionError>)
      modifies this, service, bitfield
      ensures var o := CollectPiece(Inputs(), old(State()), old(service.incoming), pieceIndex, blockSize, 0, []);
        r == o.result && State() == o.state && service.incoming == o.rest
        && service.log == old(service.log) + SentEvents(o.sent)
    {
      var counter: u32 := 0;
      var piece: Bytes := [];
      ghost var outcome := CollectPiece(Inputs(), State(), service.incoming, pieceIndex, blockSize, 0, []);
      ghost var remaining := outcome;
      ghost var sent: seq<PeerMessage> := [];
      while true
        invariant remaining == CollectPiece(Inputs(), State(), service.incoming, pieceIndex, blockSize, counter, piece)
        invariant outcome.result == remaining.result && outcome.state == remaining.state
        invariant outcome.rest == remaining.rest && outcome.sent == sent + remaining.sent
        invariant service.log == old(service.log) + SentEvents(sent)
        decreases |service.incoming|
      {
        ghost var request := RequestMessage(pieceIndex, counter, blockSize);
        var done;
        ghost var later;
        done, r, counter, piece, later := PieceRound(pieceIndex, blockSize, counter, piece, remaining);
        SentEventsAppend(old(service.log), sent, request);
        AppendAssociative(sent, [request], later.sent);
        sent := sent + [request];
        if done {
          return;
        }
        assert outcome.sent == sent + later.sent;
        remaining := later;
      }
    }

    /**
     * The first three steps of `open_connection`: the handshake, Unchoke and
     * Interested, stopping at the first that fails, which is reported.
     */
    method SendOpening() returns (failure: Option<ServiceError>)
      modifies service
      ensures var (events, reported) := Opening(service.acceptsHandshake, service.delivers, infoHash, clientPeerId);
        service.log == old(service.log) + events && failure == reported
      ensures service.incoming == old(service.incoming)
    {
      var steps := OpeningSteps(infoHash, clientPeerId);
      var shaken := service.Handshake(infoHash, clientPeerId);
      if shaken.Err? {
        assert steps[..1] == [HandshakeSent(infoHash, clientPeerId)];
        return Some(PeerHandshakeError);
      }
      var unchoke := UnchokeMessage();
      var sent := service.SendMessage(unchoke);
      if sent.Err? {
        assert steps[..2] == [HandshakeSent(infoHash, clientPeerId), MessageSent(unchoke)];
        return Some(SendingMessageError);
      }
      var interested := InterestedMessage();
      sent := service.SendMessage(interested);
      if sent.Err? {
        assert steps[..3] == steps;
        return Some(SendingMessageError);
      }
      failure := None;
    }

    /**
     * `open_connection`: the handshake, Unchoke, Interested, then
     * `wait_until_ready` with its test as written; the first failure ends it.
     */
    method OpenConnection() returns (r: Result<(), ConnectionError>)
      modifies this, service, bitfield
      ensures var (events, failure) := Opening(service.acceptsHandshake, service.delivers, infoHash, clientPeerId);
        service.log == old(service.log) + events
        && (failure.Some? ==>
              r == Err(MessageServiceError(failure.value))
              && State() == old(State()) && service.incoming == old(service.incoming))
        && (failure.None? ==>
              var w := AwaitReady(ChokedAndEmpty, old(State()), old(service.incoming));
              State() == w.state && service.incoming == w.rest
              && r == (if w.result.Ok? then Ok(()) else Err(MessageServiceError(w.result.error))))
    {
      var failure := SendOpening();
      if failure.Some? {
        return Err(MessageServiceError(failure.value));
      }
      var ready := WaitUntilReadyAsWritten();
      if ready.Err? {
        return Err(MessageServiceError(ready.error));
      }
      r := Ok(());
    }

    /** `open_connection` with the wait for readiness corrected: it succeeds only once the peer is ready. */
    method OpenConnectionCorrected() returns (r: Result<(), ConnectionError>)
      modifies this, service, bitfield
      ensures var (events, failure) := Opening(service.acceptsHandshake, service.delivers, infoHash, clientPeerId);
        service.log == old(service.log) + events
        && (failure.Some? ==>
              r == Err(MessageServiceError(failure.value))
              && State() == old(State()) && service.incoming == old(service.incoming))
        && (failure.None? ==>
              var w := AwaitReady(Ready, old(State()), old(service.incoming));
              State() == w.state && service.incoming == w.rest
              && r == (if w.result.Ok? then Ok(()) else Err(MessageServiceError(w.result.error))))
      ensures r.Ok? ==> Ready(State())
    {
      var failure := SendOpening();
      if failure.Some? {
        return Err(MessageServiceError(failure.value));
      }
      var ready := WaitUntilReady();
      if ready.Err? {
        return Err(MessageServiceError(ready.error));
      }
      r := Ok(());
    }
  }
}
