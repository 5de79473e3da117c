/**
 * Peer-wire protocol values of the BitTorrent client: the piece bitfield a
 * peer advertises, the ten message ids, the messages the client builds, the
 * 68-byte handshake and the length-prefixed frame a message travels in.
 * The socket reads and writes around these layouts are not modelled.
 */
module PeerTypes {
  import opened Numeric
  import opened Wrappers

  type Bytes = seq<byte>

  /** Length of the protocol name that opens a handshake. */
  const PSTRLEN: byte := 19
  /** Size of a handshake whose info hash and peer id are 20 bytes each. */
  const HANDSHAKE_LENGTH: nat := 68
  const MESSAGE_ID_SIZE: nat := 1
  const MESSAGE_LENGTH_SIZE: nat := 4

  /** ASCII "BitTorrent protocol". */
  const PROTOCOL: Bytes :=
    [66, 105, 116, 84, 111, 114, 114, 101, 110, 116, 32, 112, 114, 111, 116, 111, 99, 111, 108]

  // ---------------------------------------------------------------------
  // Bits of one byte, most significant bit first
  // ---------------------------------------------------------------------

  /** `1 << (7 - offset)` on a `u8`. */
  function Mask(offset: nat): bv8
    requires offset < 8
  {
    1 << (7 - offset)
  }

  predicate BitOf(x: bv8, offset: nat)
    requires offset < 8
  {
    (x >> (7 - offset)) & 1 != 0
  }

  /** `(byte >> (7 - offset) & 1) != 0`: bit `offset` of `b`, counting from the most significant one. */
  predicate BitSet(b: byte, offset: nat)
    requires offset < 8
  {
    BitOf(b as bv8, offset)
  }

  /** `byte | 1 << (7 - offset)`. */
  function WithBit(b: byte, offset: nat): byte
    requires offset < 8
  {
    ((b as bv8) | Mask(offset)) as byte
  }

  lemma WithBitOf(b: byte, offset: nat)
    requires offset < 8
    ensures WithBit(b, offset) as bv8 == (b as bv8) | Mask(offset)
  {
  }

  lemma BitOfWithMask(x: bv8, offset: nat, other: nat)
    requires offset < 8 && other < 8
    ensures BitOf(x | Mask(offset), offset)
    ensures other != offset ==> BitOf(x | Mask(offset), other) == BitOf(x, other)
  {
    assert 7 - other in {0, 1, 2, 3, 4, 5, 6, 7};
    assert 7 - offset in {0, 1, 2, 3, 4, 5, 6, 7};
  }

  /** Setting a bit turns that bit on and leaves the other seven as they were. */
  lemma WithBitSets(b: byte, offset: nat, other: nat)
    requires offset < 8 && other < 8
    ensures BitSet(WithBit(b, offset), offset)
    ensures other != offset ==> BitSet(WithBit(b, offset), other) == BitSet(b, other)
  {
    WithBitOf(b, offset);
    BitOfWithMask(b as bv8, offset, other);
  }

  /** Offset 0 is the high bit and offset 7 the low bit of a byte. */
  lemma MostSignificantFirst(offset: nat)
    requires offset < 8
    ensures BitSet(0x80, offset) <==> offset == 0
    ensures BitSet(0x01, offset) <==> offset == 7
  {
    assert 7 - offset in {0, 1, 2, 3, 4, 5, 6, 7};
  }

  // ---------------------------------------------------------------------
  // Bitfield
  // ---------------------------------------------------------------------

  /** `has_piece` on a buffer: bit `index % 8` of byte `index / 8`, false past the end. */
  predicate HasPieceIn(bits: Bytes, index: nat)
  {
    var byteIndex := index / 8;
    var offset := index % 8;
    if byteIndex >= |bits| then false else BitSet(bits[byteIndex], offset)
  }

  /** The buffer `set_piece` leaves behind: only byte `index / 8` may change, and nothing does past the end. */
  function SetPieceIn(bits: Bytes, index: nat): (r: Bytes)
    ensures |r| == |bits|
    ensures forall k :: 0 <= k < |bits| && k != index / 8 ==> r[k] == bits[k]
    ensures index / 8 >= |bits| ==> r == bits
  {
    var byteIndex := index / 8;
    var offset := index % 8;
    if byteIndex >= |bits| then bits else bits[byteIndex := WithBit(bits[byteIndex], offset)]
  }

  /** After `set_piece(index)` the piece is present exactly when its byte exists. */
  lemma SetPieceHasPiece(bits: Bytes, index: nat)
    ensures HasPieceIn(SetPieceIn(bits, index), index) <==> index / 8 < |bits|
  {
    if index / 8 < |bits| {
      WithBitSets(bits[index / 8], index % 8, index % 8);
    }
  }

  /** `set_piece(index)` does not change whether any other piece is present. */
  lemma SetPieceKeepsOthers(bits: Bytes, index: nat, other: nat)
    requires other != index
    ensures HasPieceIn(SetPieceIn(bits, index), other) == HasPieceIn(bits, other)
  {
    if index / 8 < |bits| && other / 8 == index / 8 {
      WithBitSets(bits[index / 8], index % 8, other % 8);
    }
  }

  /** The pieces a peer has, one bit per piece, updated in place. */
  class Bitfield {
    var bits: Bytes

    /** `Bitfield::new`: no bytes, so no piece. */
    constructor ()
      ensures bits == []
      ensures !NonEmpty()
      ensures forall index: nat :: !HasPiece(index)
    {
      bits := [];
    }

    predicate NonEmpty()
      reads this
    {
      bits != []
    }

    method SetBitfield(bitfield: Bytes)
      modifies this
      ensures bits == bitfield
      ensures NonEmpty() <==> |bitfield| > 0
    {
      bits := bitfield;
    }

    predicate HasPiece(index: nat)
      reads this
    {
      HasPieceIn(bits, index)
    }

    method SetPiece(index: nat)
      modifies this
      ensures bits == SetPieceIn(old(bits), index)
      ensures |bits| == |old(bits)|
      ensures HasPiece(index) <==> index / 8 < |bits|
      ensures forall other: nat :: other != index ==> HasPiece(other) == old(HasPiece(other))
    {
      var byteIndex := index / 8;
      var offset := index % 8;
      SetPieceHasPiece(bits, index);
      forall other: nat | other != index
        ensures HasPieceIn(SetPieceIn(bits, index), other) == HasPieceIn(bits, other)
      {
        SetPieceKeepsOthers(bits, index, other);
      }
      if byteIndex >= |bits| {
        return;
      }
      bits := bits[byteIndex := WithBit(bits[byteIndex], offset)];
    }
  }

  /** A peer as the tracker announced it. */
  datatype Peer = Peer(ip: string, port: u16, peerId: Bytes)

  // ---------------------------------------------------------------------
  // Message ids
  // ---------------------------------------------------------------------

  datatype PeerMessageId =
    | Choke
    | Unchoke
    | Interested
    | NotInterested
    | Have
    | Bitfield
    | Request
    | Piece
    | Cancel
    | Port

  datatype MessageError = InvalidMessageId(id: byte)

  /** `id as u8`: the position of the id in declaration order. */
  function ToU8(id: PeerMessageId): (b: byte)
    ensures b < 10
  {
    match id
    case Choke => 0
    case Unchoke => 1
    case Interested => 2
    case NotInterested => 3
    case Have => 4
    case Bitfield => 5
    case Request => 6
    case Piece => 7
    case Cancel => 8
    case Port => 9
  }

  /** `PeerMessageId::from_u8`: ids 0 to 9 in declaration order, an error for any other byte. */
  function FromU8(id: byte): (r: Result<PeerMessageId, MessageError>)
    ensures r.Ok? <==> id < 10
    ensures r.Ok? ==> ToU8(r.value) == id
    ensures r.Err? ==> r.error == InvalidMessageId(id)
  {
    match id
    case 0 => Ok(Choke)
    case 1 => Ok(Unchoke)
    case 2 => Ok(Interested)
    case 3 => Ok(NotInterested)
    case 4 => Ok(Have)
    case 5 => Ok(PeerMessageId.Bitfield)
    case 6 => Ok(Request)
    case 7 => Ok(Piece)
    case 8 => Ok(Cancel)
    case 9 => Ok(Port)
    case _ => Err(InvalidMessageId(id))
  }

  /** The byte a sender writes for an id reads back as the same id. */
  lemma FromU8ToU8(id: PeerMessageId)
    ensures FromU8(ToU8(id)) == Ok(id)
  {
    var r := FromU8(ToU8(id));
    assert r.Ok?;
    match r.value
    case Choke =>
    case Unchoke =>
    case Interested =>
    case NotInterested =>
    case Have =>
    case Bitfield =>
    case Request =>
    case Piece =>
    case Cancel =>
    case Port =>
  }

  // ---------------------------------------------------------------------
  // Big-endian u32
  // ---------------------------------------------------------------------

  /** `u32::from_be_bytes`. */
  function FromBeBytes(bs: Bytes): u32
    requires |bs| == 4
  {
    (((bs[0] as int) * 0x100 + bs[1]) * 0x100 + bs[2]) * 0x100 + bs[3]
  }

  /** `u32::to_be_bytes`: most significant byte first. */
  function BeBytes(n: u32): (bs: Bytes)
    ensures |bs| == 4
  {
    [n / 0x100_0000, (n / 0x1_0000) % 0x100, (n / 0x100) % 0x100, n % 0x100]
  }

  lemma BeBytesInverse(n: u32)
    ensures FromBeBytes(BeBytes(n)) == n
  {
    var high := n / 0x100_0000;
    var upper := n / 0x1_0000;
    var middle := n / 0x100;
    assert upper == high * 0x100 + upper % 0x100;
    assert middle == upper * 0x100 + middle % 0x100;
    assert n == middle * 0x100 + n % 0x100;
  }

  lemma DivModByte(q: nat, r: nat)
    requires r < 0x100
    ensures (q * 0x100 + r) / 0x100 == q && (q * 0x100 + r) % 0x100 == r
  {
  }

  lemma DivModTwoBytes(q: nat, r: nat)
    requires r < 0x1_0000
    ensures (q * 0x1_0000 + r) / 0x1_0000 == q
  {
  }

  lemma DivModThreeBytes(q: nat, r: nat)
    requires r < 0x100_0000
    ensures (q * 0x100_0000 + r) / 0x100_0000 == q
  {
  }

  lemma FromBeBytesInverse(bs: Bytes)
    requires |bs| == 4
    ensures BeBytes(FromBeBytes(bs)) == bs
  {
    var n := FromBeBytes(bs);
    var high: nat := (bs[0] as int) * 0x100 + bs[1];
    var upper: nat := high * 0x100 + bs[2];
    DivModByte(upper, bs[3]);
    DivModByte(bs[0], bs[1]);
    DivModByte(high, bs[2]);
    DivModTwoBytes(high, (bs[2] as int) * 0x100 + bs[3]);
    DivModThreeBytes(bs[0], ((bs[1] as int) * 0x100 + bs[2]) * 0x100 + bs[3]);
  }

  /** Four bytes are determined by their big-endian value. */
  lemma FromBeBytesInjective(bs: Bytes, cs: Bytes)
    requires |bs| == 4 && |cs| == 4
    requires FromBeBytes(bs) == FromBeBytes(cs)
    ensures bs == cs
  {
    FromBeBytesInverse(bs);
    FromBeBytesInverse(cs);
  }

  /** `u32_to_vec_be`: four bytes whose big-endian value is `num`. */
  method U32ToVecBe(num: u32) returns (bytes: Bytes)
    ensures |bytes| == 4 && FromBeBytes(bytes) == num
  {
    var buffer := new byte[4](_ => 0);
    buffer[0] := (num / 0x100_0000) % 0x100;
    buffer[1] := (num / 0x1_0000) % 0x100;
    buffer[2] := (num / 0x100) % 0x100;
    buffer[3] := num % 0x100;
    bytes := buffer[..];
    assert bytes == BeBytes(num);
    BeBytesInverse(num);
  }

  // ---------------------------------------------------------------------
  // Messages
  // ---------------------------------------------------------------------

  /** `length` counts the id byte and the payload, as the frame's length prefix does. */
  datatype PeerMessage = PeerMessage(id: PeerMessageId, length: u32, payload: Bytes)

  /** The length prefix matches what follows it: one id byte and the payload. */
  predicate Consistent(m: PeerMessage)
  {
    m.length == |m.payload| + 1
  }

  /** `(payload.len() + 1) as u32`. */
  function LengthOf(payload: Bytes): (n: u32)
    ensures |payload| + 1 < U32_LIMIT ==> n == |payload| + 1
  {
    (|payload| + 1) % U32_LIMIT
  }

  function UnchokeMessage(): (m: PeerMessage)
    ensures m.id == Unchoke && Consistent(m) && m.payload == []
  {
    PeerMessage(Unchoke, 1, [])
  }

  function InterestedMessage(): (m: PeerMessage)
    ensures m.id == Interested && Consistent(m) && m.payload == []
  {
    PeerMessage(Interested, 1, [])
  }

  /** `keep_alive` as written: the Choke id with a zero length (see `KeepAliveFrameAsWritten`). */
  function KeepAliveMessage(): (m: PeerMessage)
    ensures m.length == 0 && m.payload == [] && !Consistent(m)
  {
    PeerMessage(Choke, 0, [])
  }

  /** `request(index, begin, length)`: a 12-byte payload of three big-endian numbers. */
  function RequestMessage(index: u32, begin: u32, length: u32): (m: PeerMessage)
    ensures m.id == Request && Consistent(m) && |m.payload| == 12
  {
    var payload := BeBytes(index) + BeBytes(begin) + BeBytes(length);
    PeerMessage(Request, LengthOf(payload), payload)
  }

  /** The payload of a request reads back as the index, the offset and the length, in that order. */
  lemma RequestMessageDecodes(index: u32, begin: u32, length: u32)
    ensures var m := RequestMessage(index, begin, length);
      && FromBeBytes(m.payload[..4]) == index
      && FromBeBytes(m.payload[4..8]) == begin
      && FromBeBytes(m.payload[8..]) == length
  {
    var payload := RequestMessage(index, begin, length).payload;
    assert payload[..4] == BeBytes(index) && payload[4..8] == BeBytes(begin) && payload[8..] == BeBytes(length);
    BeBytesInverse(index);
    BeBytesInverse(begin);
    BeBytesInverse(length);
  }

  /**
   * `piece(piece_index, offset, block)`: the index and offset, then the block;
   * the length wraps modulo 2^32 as the `as u32` cast does.
   */
  function PieceMessage(pieceIndex: u32, offset: u32, block: Bytes): (m: PeerMessage)
    ensures m.id == Piece && |m.payload| == 8 + |block|
    ensures m.length == (|block| + 9) % U32_LIMIT
    ensures |block| + 9 < U32_LIMIT ==> Consistent(m)
    ensures FromBeBytes(m.payload[..4]) == pieceIndex
    ensures FromBeBytes(m.payload[4..8]) == offset
    ensures m.payload[8..] == block
  {
    var payload := BeBytes(pieceIndex) + BeBytes(offset) + block;
    assert payload[..4] == BeBytes(pieceIndex) && payload[4..8] == BeBytes(offset) && payload[8..] == block;
    BeBytesInverse(pieceIndex);
    BeBytesInverse(offset);
    PeerMessage(Piece, LengthOf(payload), payload)
  }

  /** `PeerMessage::request`, appending the three big-endian numbers one after another. */
  method MakeRequest(index: u32, begin: u32, length: u32) returns (m: PeerMessage)
    ensures m == RequestMessage(index, begin, length)
  {
    var payload: Bytes := [];
    var bytes := U32ToVecBe(index);
    FromBeBytesInverse(bytes);
    payload := payload + bytes;
    bytes := U32ToVecBe(begin);
    FromBeBytesInverse(bytes);
    payload := payload + bytes;
    bytes := U32ToVecBe(length);
    FromBeBytesInverse(bytes);
    payload := payload + bytes;
    m := PeerMessage(Request, ((|payload| + 1) % U32_LIMIT) as u32, payload);
  }

  /** `PeerMessage::piece`, appending the index, the offset and then the block. */
  method MakePiece(pieceIndex: u32, offset: u32, block: Bytes) returns (m: PeerMessage)
    ensures m == PieceMessage(pieceIndex, offset, block)
  {
    var payload: Bytes := [];
    var bytes := U32ToVecBe(pieceIndex);
    FromBeBytesInverse(bytes);
    payload := payload + bytes;
    bytes := U32ToVecBe(offset);
    FromBeBytesInverse(bytes);
    payload := payload + bytes;
    payload := payload + block;
    m := PeerMessage(Piece, ((|payload| + 1) % U32_LIMIT) as u32, payload);
  }

  // ---------------------------------------------------------------------
  // Handshake
  // ---------------------------------------------------------------------

  function Zeros(n: nat): (z: Bytes)
    ensures |z| == n && forall i :: 0 <= i < n ==> z[i] == 0
  {
    seq(n, _ => 0)
  }

  /**
   * The handshake: the protocol name's length and the name, eight reserved
   * zero bytes, the info hash and the peer id, at fixed offsets.
   */
  function Handshake(infoHash: Bytes, peerId: Bytes): (h: Bytes)
    ensures |h| == 28 + |infoHash| + |peerId|
    ensures h[0] == PSTRLEN
    ensures h[1..20] == PROTOCOL
    ensures forall i :: 20 <= i < 28 ==> h[i] == 0
    ensures h[28..28 + |infoHash|] == infoHash
    ensures h[28 + |infoHash|..] == peerId
  {
    var h := [PSTRLEN] + PROTOCOL + Zeros(8) + infoHash + peerId;
    assert |PROTOCOL| == 19;
    assert h[1..20] == PROTOCOL;
    assert h[28..28 + |infoHash|] == infoHash;
    assert h[28 + |infoHash|..] == peerId;
    h
  }

  /** With a 20-byte info hash and a 20-byte peer id the handshake is `HANDSHAKE_LENGTH` bytes. */
  lemma HandshakeLength(infoHash: Bytes, peerId: Bytes)
    requires |infoHash| == 20 && |peerId| == 20
    ensures |Handshake(infoHash, peerId)| == HANDSHAKE_LENGTH
  {
  }

  /** `create_handshake_message`, appending the five parts in order. */
  method CreateHandshakeMessage(infoHash: Bytes, peerId: Bytes) returns (message: Bytes)
    ensures message == Handshake(infoHash, peerId)
  {
    message := [];
    message := message + [PSTRLEN];
    message := message + PROTOCOL;
    message := message + Zeros(8);
    message := message + infoHash;
    message := message + peerId;
  }

  // ---------------------------------------------------------------------
  // Frames
  // ---------------------------------------------------------------------

  /** The bytes `send_message` writes: the length, big-endian, then the id byte, then the payload. */
  function Frame(m: PeerMessage): (f: Bytes)
    ensures |f| == 5 + |m.payload|
    ensures FromBeBytes(f[..4]) == m.length
    ensures f[4] == ToU8(m.id) && f[5..] == m.payload
  {
    var f := BeBytes(m.length) + [ToU8(m.id)] + m.payload;
    assert f[..4] == BeBytes(m.length) && f[5..] == m.payload;
    BeBytesInverse(m.length);
    f
  }

  /** Ways the receive path of `wait_for_message` stops without a message. */
  datatype FrameError =
    | ShortRead            // `read_exact` finds too few bytes (the source unwraps and panics)
    | LengthUnderflow      // `message_length - 1` on a zero length (a panic in a debug build)
    | UnknownId(MessageError)

  /**
   * The receive path of `wait_for_message` over the bytes still to come:
   * the length, the id byte, `length - 1` payload bytes, then the id lookup.
   * It also returns what is left for the next read.
   */
  function ReadFrame(bs: Bytes): (r: Result<(PeerMessage, Bytes), FrameError>)
    ensures r.Ok? ==> Consistent(r.value.0) && Frame(r.value.0) + r.value.1 == bs
  {
    if |bs| < MESSAGE_LENGTH_SIZE then Err(ShortRead)
    else
      var length := FromBeBytes(bs[..4]);
      if |bs| < MESSAGE_LENGTH_SIZE + MESSAGE_ID_SIZE then Err(ShortRead)
      else if length == 0 then Err(LengthUnderflow)
      else if |bs| < 5 + (length - 1) then Err(ShortRead)
      else
        var payload := bs[5..5 + (length - 1)];
        match FromU8(bs[4])
        case Err(e) => Err(UnknownId(e))
        case Ok(id) =>
          var m := PeerMessage(id, length, payload);
          assert Frame(m) == bs[..5 + (length - 1)] by {
            FromBeBytesInverse(bs[..4]);
            assert Frame(m)[..4] == bs[..4];
          }
          Ok((m, bs[5 + (length - 1)..]))
  }

  /** A frame sent for a consistent message reads back as that message, leaving what followed it. */
  lemma FrameRoundTrip(m: PeerMessage, rest: Bytes)
    requires Consistent(m)
    ensures ReadFrame(Frame(m) + rest) == Ok((m, rest))
  {
    var bs := Frame(m) + rest;
    assert bs[..4] == Frame(m)[..4];
    assert bs[4] == ToU8(m.id);
    FromU8ToU8(m.id);
    assert bs[5..5 + (m.length - 1)] == m.payload;
    assert bs[5 + (m.length - 1)..] == rest;
  }

  /**
   * As written, a keep-alive goes out as five zero bytes: a length prefix of
   * zero followed by a stray id byte, and the receive path cannot read it back.
   */
  lemma KeepAliveFrameAsWritten()
    ensures Frame(KeepAliveMessage()) == [0, 0, 0, 0, 0]
    ensures FromBeBytes(Frame(KeepAliveMessage())[..4]) != |Frame(KeepAliveMessage())| - 4
    ensures ReadFrame(Frame(KeepAliveMessage())) == Err(LengthUnderflow)
  {
    assert Frame(KeepAliveMessage()) == BeBytes(0) + [0];
  }

  /** A keep-alive as BEP 3 defines it, or a message whose length counts its id byte and payload. */
  predicate WellFramed(m: PeerMessage)
  {
    Consistent(m) || (m.length == 0 && m.payload == [])
  }

  /** The frame with the keep-alive case corrected: a zero length is sent alone. */
  function WireFrame(m: PeerMessage): (f: Bytes)
  {
    if m.length == 0 then BeBytes(0) else Frame(m)
  }

  /** Every well-framed message goes out with a length prefix that counts exactly the bytes after it. */
  lemma WireFrameLengthPrefix(m: PeerMessage)
    requires WellFramed(m)
    ensures |WireFrame(m)| >= 4
    ensures FromBeBytes(WireFrame(m)[..4]) == |WireFrame(m)| - 4
    ensures m.length == 0 ==> WireFrame(m) == [0, 0, 0, 0]
  {
    if m.length == 0 {
      BeBytesInverse(0);
    }
  }
}
