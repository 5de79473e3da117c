# A verified model of a BitTorrent client's core

This project models the core of a BitTorrent client written in Rust. It has five parts:

- **Bencode encoder.** The client serialises bencode values (integers, byte strings, lists, dictionaries and the end marker) as the "bencoding" section of BEP 3 describes. Dictionary keys are written in ascending byte order.
- **Peer-wire values.** These cover the piece bitfield a peer advertises, most significant bit first. They also cover the ten message ids, the big-endian `u32` encoding, the `request`, `piece` and `keep_alive` messages, the 68-byte handshake and the length-prefixed frame `send_message` writes.
- **Configuration.** A `key=value` file is folded into a dictionary and turned into a `Config`. The `INDEX` environment value offsets the port and is appended to both paths.
- **Peer connection.** This is the state a connection keeps about its peer (choked or not, its bitfield). It covers how incoming messages update that state, waiting until the peer is ready, requesting a block, and requesting a whole piece block by block. It also covers the order of the opening exchange.
- **Piece manager.** This is the bookkeeping `new_piece_manager` builds for a torrent of `n` pieces.

## Files and modules

- `wrappers.dfy` (`Wrappers`): `Option` and `Result`.
- `numeric.dfy` (`Numeric`): the fixed-width integer types and the decimal digits of a natural number.
- `bencode_order.dfy` (`BencodeOrder`): the byte-string order of Rust's `Ord` on `Vec<u8>`. It also holds the sorted listing of a dictionary's keys.
- `bencode_encoder.dfy` (`BencodeEncoder`): the encoder. It has two forms:
  - `Encode`, a recursive specification function;
  - the imperative `encode_*` functions, which fill a byte buffer. The dictionary function sorts its keys in an array by insertion sort.
- `bencode_reader.dfy` (`BencodeReader`): a decoder. It is written only as the partner of the encoder, to prove that encoding loses nothing and is injective.
- `peer_types.dfy` (`PeerTypes`): the bitfield (a class updated in place), message ids, big-endian numbers, messages, the handshake and frames.
- `config.dfy` (`ConfigTypes`): line splitting, the configuration dictionary, `u16` parsing as Rust's `str::parse::<u16>` does it, and `create_config`.
- `connection.dfy` (`Connection`): the message service is a class with a script of incoming messages and a log of what was sent. `PeerConnection` is a class whose methods are proved against recursive specification functions.
- `piece_manager.dfy` (`PieceManager`): the worker record and `new_piece_manager`.

## Model

| member | source | states |
|---|---|---|
| BencodeEncoder.Encode | src/bencode/encoder.rs:24-32 | the bencoding of each kind of value, the specification the encoding methods are proved against; `DecodeEncode` and `EncodeInjective` state that it loses nothing |
| BencodeEncoder.EncodeValue | src/bencode/encoder.rs:24-32 | the bytes built equal `Encode(value)`; `End` gives nothing |
| BencodeEncoder.EncodeInteger | src/bencode/encoder.rs:34-39 | the bytes are `i`, the decimal text of the integer (with `-` when negative), then `e` |
| BencodeEncoder.EncodeString | src/bencode/encoder.rs:41-47 | the bytes are the decimal length, `:`, then the string itself |
| BencodeEncoder.EncodeList | src/bencode/encoder.rs:49-56 | the bytes are `l`, the items' encodings concatenated in order, then `e` |
| BencodeEncoder.EncodeDictionary | src/bencode/encoder.rs:58-68 | the bytes are `d`, then each key as a string followed by its value's encoding, keys in strictly ascending byte order, then `e` |
| BencodeEncoder.EncodeEntries | src/bencode/encoder.rs:62-65 | the loop over the sorted items writes the concatenation of key and value encodings in that order |
| BencodeEncoder.SortedItems | src/bencode/encoder.rs:60-61 | collecting then sorting the keys yields the unique strictly ascending listing of the dictionary's keys |
| BencodeEncoder.CollectKeys | src/bencode/encoder.rs:60 | every key of the dictionary is collected exactly once |
| BencodeEncoder.SortKeys | src/bencode/encoder.rs:61 | the array ends sorted and is a permutation of what it held |
| BencodeEncoder.InsertKey | src/bencode/encoder.rs:61 | one insertion step makes `a[..i + 1]` sorted and a permutation of what it held, leaves `a[i + 1..]` unchanged, and keeps the whole array a permutation |
| BencodeEncoder.InsertingStep | src/bencode/encoder.rs:61 | exchanging the key being inserted with a greater left neighbour keeps the insertion loop's invariant with the key one place further left |
| BencodeEncoder.PrefixMultiset | src/bencode/encoder.rs:61 | two sequences that are permutations of each other and agree from position `n` on have prefixes that are permutations of each other |
| BencodeEncoder.SwapAdjacent | src/bencode/encoder.rs:61 | exchanging two neighbours changes only those two cells and keeps a permutation |
| BencodeEncoder.InsertedSorted | src/bencode/encoder.rs:61 | a prefix whose one out-of-place key has reached its position is sorted |
| BencodeEncoder.ConcatAppend | src/bencode/encoder.rs:51-53 | appending encodings one after another concatenates them in order |
| BencodeEncoder.EncodeIntegerExamples | src/bencode/encoder.rs:73-92 | 123 encodes as `i123e`, -123 as `i-123e`, 0 as `i0e` |
| BencodeEncoder.EncodeStringExamples | src/bencode/encoder.rs:94-108 | `hola` encodes as `4:hola`, the empty string as `0:` |
| BencodeEncoder.EncodeListExample | src/bencode/encoder.rs:110-120 | the list 1, 2, 3 encodes as `li1ei2ei3ee` |
| BencodeEncoder.ExampleKeyOrder | src/bencode/encoder.rs:135-148 | the keys `spam` and `cow` are written as `cow`, then `spam` |
| BencodeEncoder.EncodeDictionaryExample | src/bencode/encoder.rs:135-148 | the dictionary `{spam: eggs, cow: moo}` encodes as `d3:cow3:moo4:spam4:eggse` |
| BencodeOrder.LexTotal | src/bencode/encoder.rs:61 | the key order is total: two different keys are ordered one way or the other |
| BencodeOrder.LexTransitive | src/bencode/encoder.rs:61 | the key order is transitive |
| BencodeOrder.LexAsymmetric | src/bencode/encoder.rs:61 | the key order is asymmetric |
| BencodeOrder.LexIrreflexive | src/bencode/encoder.rs:61 | no key sorts before itself |
| BencodeOrder.SortedKeys | src/bencode/encoder.rs:60-61 | the listing holds every key exactly once, strictly ascending |
| BencodeOrder.SortedKeysUnique | src/bencode/encoder.rs:60-61 | only one strictly ascending sequence lists a set of keys, so the output does not depend on the map's iteration order |
| BencodeOrder.LeastExists | src/bencode/encoder.rs:61 | every non-empty set of keys has a least key |
| BencodeOrder.DistinctPermutation | src/bencode/encoder.rs:60-61 | sorting the collected keys cannot introduce a repeated key |
| BencodeOrder.SortedDistinctIsStrict | src/bencode/encoder.rs:60-61 | sorted keys without repetitions are strictly ascending |
| BencodeReader.EncodeFirstByte | src/bencode/encoder.rs:25-31 | `End` encodes to nothing and every other value to a non-empty encoding; the first byte names the kind of value |
| BencodeReader.StringRoundTrip | src/bencode/encoder.rs:41-47 | a string's encoding reads back as that string, leaving what followed |
| BencodeReader.IntegerRoundTrip | src/bencode/encoder.rs:34-39 | an integer's encoding reads back as that integer, leaving what followed |
| BencodeReader.ListRoundTrip | src/bencode/encoder.rs:49-56 | a list of values other than `End` reads back as the same list |
| BencodeReader.DictionaryRoundTrip | src/bencode/encoder.rs:58-68 | a dictionary reads back as the same dictionary, its keys found strictly ascending |
| BencodeReader.DecodeEncode | src/bencode/encoder.rs:24-68 | every value without an `End` inside encodes to bytes that read back as that value, nested lists and dictionaries included |
| BencodeReader.EncodeInjective | src/bencode/encoder.rs:24-68 | two such values with the same encoding are equal |
| BencodeReader.ItemsRoundTrip | src/bencode/encoder.rs:51-53 | the concatenated item encodings followed by `e` read back as the items |
| BencodeReader.EntriesRoundTrip | src/bencode/encoder.rs:62-65 | the concatenated entry encodings in ascending key order read back as the dictionary restricted to those keys |
| BencodeReader.ReadNumberOfDecimal | src/bencode/encoder.rs:43 | the decimal text of a length reads back as that length |
| Numeric.DigitsCorrect | src/bencode/encoder.rs:36 | the decimal digits of `n` have no leading zero and denote `n` |
| Numeric.DigitsInjective | src/bencode/encoder.rs:36 | different numbers have different decimal digits |
| PeerTypes.HasPieceIn | src/peer/types.rs:29-36 | `has_piece` on the buffer: bit `7 - index % 8` of byte `index / 8` (through `BitSet`), false past the end; `SetPieceHasPiece` and `SetPieceKeepsOthers` relate it to `set_piece` |
| PeerTypes.SetPieceIn | src/peer/types.rs:39-47 | the buffer after `set_piece` keeps its length; only byte `index / 8` may change, and nothing changes past the end |
| PeerTypes.SetPieceHasPiece | src/peer/types.rs:29-47 | after `set_piece(i)`, `has_piece(i)` holds exactly when byte `i / 8` exists |
| PeerTypes.SetPieceKeepsOthers | src/peer/types.rs:29-47 | `set_piece(i)` does not change `has_piece(j)` for any `j` other than `i` |
| PeerTypes.WithBitSets | src/peer/types.rs:35-46 | or-ing in the mask turns on that bit and leaves the other seven as they were |
| PeerTypes.MostSignificantFirst | src/peer/types.rs:33-35 | offset 0 is the high bit of a byte and offset 7 the low bit |
| PeerTypes.Bitfield.constructor | src/peer/types.rs:16-18 | a new bitfield is empty and has no piece |
| PeerTypes.Bitfield.NonEmpty | src/peer/types.rs:20-22 | `non_empty`: the bitfield holds at least one byte |
| PeerTypes.Bitfield.HasPiece | src/peer/types.rs:29-36 | `has_piece` on the bitfield's bytes, as `HasPieceIn` |
| PeerTypes.Bitfield.SetBitfield | src/peer/types.rs:20-26 | the contents become exactly the given bytes, and `non_empty` holds exactly when there is at least one byte |
| PeerTypes.Bitfield.SetPiece | src/peer/types.rs:39-47 | the piece is present afterwards exactly when its byte exists; every other piece and the length are unchanged |
| PeerTypes.FromU8 | src/peer/types.rs:72-86 | a byte is accepted exactly when below 10, maps to the id at that position and is otherwise rejected with that byte |
| PeerTypes.FromU8ToU8 | src/peer/types.rs:58-86 | the byte a sender writes for an id reads back as the same id |
| PeerTypes.U32ToVecBe | src/peer/types.rs:116-123 | four bytes whose big-endian value is the number |
| PeerTypes.BeBytesInverse | src/peer/types.rs:116-123 | reading the big-endian bytes of a number gives the number back |
| PeerTypes.FromBeBytesInverse | src/peer/types.rs:186 | writing the value of four bytes back gives the same four bytes |
| PeerTypes.FromBeBytesInjective | src/peer/types.rs:186 | four bytes are determined by their big-endian value |
| PeerTypes.UnchokeMessage | src/peer/types.rs:98-105 | an unchoke has no payload and length 1 |
| PeerTypes.InterestedMessage | src/peer/types.rs:106-113 | an interested message has no payload and length 1 |
| PeerTypes.KeepAliveMessage | src/peer/types.rs:152-158 | a keep-alive has no payload and length 0, which does not count its id byte |
| PeerTypes.RequestMessage | src/peer/types.rs:125-137 | a request has a 12-byte payload and length 13 |
| PeerTypes.RequestMessageDecodes | src/peer/types.rs:125-137 | a request's payload reads back as the index, the offset and the length, in that order |
| PeerTypes.MakeRequest | src/peer/types.rs:125-137 | building the request byte by byte gives the request message |
| PeerTypes.PieceMessage | src/peer/types.rs:139-150 | a piece message's payload is the index and offset, big-endian, then the block; its length is the block's plus 9, modulo 2^32 |
| PeerTypes.MakePiece | src/peer/types.rs:139-150 | building the piece byte by byte gives the piece message |
| PeerTypes.Handshake | src/peer/types.rs:171-179 | a handshake is 19, `BitTorrent protocol`, eight zero bytes, the info hash, then the peer id |
| PeerTypes.HandshakeLength | src/peer/types.rs:5-6 | with a 20-byte info hash and a 20-byte peer id the handshake is 68 bytes |
| PeerTypes.CreateHandshakeMessage | src/peer/types.rs:171-179 | the bytes built equal the handshake layout |
| PeerTypes.Frame | src/peer/types.rs:215-223 | a sent frame is the big-endian length, the id byte, then the payload |
| PeerTypes.ReadFrame | src/peer/types.rs:183-199 | a frame read back is consistent, and its frame followed by what is left is exactly the input |
| PeerTypes.FrameRoundTrip | src/peer/types.rs:183-223 | a consistent message's frame reads back as that message, leaving what followed |
| PeerTypes.KeepAliveFrameAsWritten | src/peer/types.rs:152-158 | the keep-alive goes out as five zero bytes whose length prefix does not count the fifth, and the receive path rejects it |
| PeerTypes.WireFrameLengthPrefix | src/peer/types.rs:215-223 | with the keep-alive sent as a bare zero length, every length prefix counts exactly the bytes after it |
| ConfigTypes.IndexOf | src/config/types.rs:109 | the position of the first separator, or the length when there is none |
| ConfigTypes.Lines | src/config/types.rs:54 | the lines of a text, none holding a line break |
| ConfigTypes.LinesOfJoined | src/config/types.rs:54 | the lines of lines joined by line breaks are those lines |
| ConfigTypes.SplitLine | src/config/types.rs:109-112 | a line yields a pair exactly when it holds `=`; the key is the text before the first `=` and the value runs up to the second |
| ConfigTypes.SplitLineOf | src/config/types.rs:109-112 | `key=value` followed by nothing or by another `=` splits into that key and value |
| ConfigTypes.ConfigDict | src/config/types.rs:107-118 | the dictionary the lines fold into, first line to last; `ConfigDictKeys` and `ConfigDictLastWins` state what it holds |
| ConfigTypes.CreateConfigDict | src/config/types.rs:107-118 | the loop over the lines builds the configuration dictionary |
| ConfigTypes.ConfigDictKeys | src/config/types.rs:107-118 | a key is in the dictionary exactly when some line sets it |
| ConfigTypes.ConfigDictLastWins | src/config/types.rs:113 | when a key repeats, the value of the last line setting it wins |
| ConfigTypes.ConfigDictLast | src/config/types.rs:110-113 | a key is in the dictionary exactly when the newest line sets it or the earlier lines put it there |
| ConfigTypes.LineWithoutSeparator | src/config/types.rs:111-112 | a line without `=` leaves the dictionary unchanged |
| ConfigTypes.ParseU16 | src/config/types.rs:64-68 | `str::parse::<u16>`: an optional `+`, then the checked digit loop; `ParseU16Correct` states when it succeeds and with what |
| ConfigTypes.ParseU16Correct | src/config/types.rs:64-68 | port text parses exactly when it is an optional `+` followed by digits whose value fits in 16 bits, and then gives that value |
| ConfigTypes.ParseU16OfDecimal | src/config/types.rs:64-68 | the decimal text of any 16-bit number parses back to it |
| ConfigTypes.DecimalTextValue | src/config/types.rs:64-68 | the characters of a digit sequence denote its value |
| ConfigTypes.IndexOffset | src/config/types.rs:62-68 | `INDEX` offsets the port by its 16-bit value, or by 0 when it is not one |
| ConfigTypes.CreateConfig | src/config/types.rs:61-97 | `create_config` without the directory steps; `CreateConfigOk`, `CreateConfigMissingKey`, `CreateConfigReportsMissing` and `CreateConfigInvalidPort` state its outcomes |
| ConfigTypes.CreateConfigOk | src/config/types.rs:61-97 | a configuration results exactly when every key is present, the port parses and the offset port fits; its port is offset by `INDEX`, both paths get `INDEX` appended, and `persist_pieces` is true exactly for `"true"` |
| ConfigTypes.CreateConfigMissingKey | src/config/types.rs:64-81 | a missing key is reported only when every key looked up before it is present |
| ConfigTypes.CreateConfigReportsMissing | src/config/types.rs:64-81 | when key `i` of the lookup order is the first absent one and the port check before it passed, `MissingKey` of that key is reported |
| ConfigTypes.MissingDownloadPathExample | src/config/types.rs:160-166 | with a valid port, a log path and `persist_pieces` but no download path, `MissingKey(download_path)` is reported |
| ConfigTypes.CreateConfigInvalidPort | src/config/types.rs:64-67 | a `listen_port` that is not a 16-bit number is an error, not a default |
| ConfigTypes.ConfigFromText | src/config/types.rs:49-97 | `from_path` once the file has been read, for any text: a configuration results exactly when some line of `str::lines` sets each required key and the last `listen_port` line is a 16-bit number that fits once `INDEX` is added; each field then comes from the last line setting its key |
| ConfigTypes.ConfigOfLines | src/config/types.rs:61-118 | `create_config` over the dictionary of any lines: the same if-and-only-if and field values, stated on the lines themselves |
| ConfigTypes.LastSettingExists | src/config/types.rs:107-118 | a key some line sets has a last line that sets it |
| ConfigTypes.DictOfLastSetting | src/config/types.rs:107-118 | a key is in the dictionary exactly when a last line sets it, and its value is that line's value |
| ConfigTypes.ConfigFromLines | src/config/types.rs:49-97 | a file written as whole lines (none holding a line break or ending in a carriage return) is read back as those lines, so the configuration is characterised by the lines as written: each required key set, the last `listen_port` a fitting 16-bit number, each field from the last line setting its key |
| Connection.SentEvents | src/peer/connection.rs:98-99 | one log entry per message sent |
| Connection.MessageService.Handshake | src/peer/connection.rs:174-178 | the handshake is logged and fails as the peer decides; nothing is consumed |
| Connection.MessageService.SendMessage | src/peer/types.rs:215-223 | the message is logged and its delivery succeeds or fails; nothing is consumed |
| Connection.MessageService.WaitForMessage | src/peer/types.rs:183-199 | the next incoming message or failure is consumed; an exhausted stream reports a closed connection |
| Connection.Handle | src/peer/connection.rs:58-74 | Unchoke lifts the choke, Bitfield replaces the bitfield, Have and Piece change nothing, and no other id is handled |
| Connection.HandleKeepsUnchoked | src/peer/connection.rs:58-74 | no handled message chokes the client again |
| Connection.Receive | src/peer/connection.rs:58-74 | a receive consumes one input; a failed receive gives its error, an unhandled message gives `UnhandledMessage`, and either leaves the state as it was; a handled message updates the state as `Handle` says |
| Connection.AwaitReady | src/peer/connection.rs:76-85 | the wait ends successfully only in a state where the readiness test holds |
| Connection.AwaitReadyStops | src/peer/connection.rs:76-85 | the wait reads inputs each handled without the test holding after it, then ends at the next input: an exhausted stream, a failed receive or an unhandled message ends it with that error, and a handled message only when the test then holds |
| Connection.AwaitReadyPropagates | src/peer/connection.rs:76-85 | a failed wait ends at some input after inputs each handled without the test holding; the stream is exhausted there (`ConnectionClosed`), or that input's receive failed and its error is the wait's, or its message is unhandled and the error is `UnhandledMessage` |
| Connection.AsWrittenNeverReadyOnceUnchoked | src/peer/connection.rs:80 | with the test as written, a peer that has unchoked the client can never make the wait succeed |
| Connection.AsWrittenStopsAtFirstHave | src/peer/connection.rs:76-85 | with the test as written, a fresh connection stops waiting at the first Have; with the intended test it keeps waiting |
| Connection.AsWrittenMissesUsualOpening | src/peer/connection.rs:80 | after a bitfield and an unchoke, the test as written fails with a closed connection while the intended test succeeds |
| Connection.AwaitBlock | src/peer/connection.rs:100-121 | the wait for a block consumes input, and at least one message when it yields a block |
| Connection.FirstStop | src/peer/connection.rs:100-121 | the first input that is not a handled non-Piece message, every input before it being one |
| Connection.AwaitBlockFirstStop | src/peer/connection.rs:100-121 | the block wait ends at the first input that is not a handled non-Piece message, leaving the inputs after it: an exhausted stream, a failed receive or an unhandled message gives `WAIT_FAILED`; a Piece gives `INVALID_BLOCK` when `valid_block` rejects it, `MalformedBlock` when it is shorter than 8 bytes, and otherwise its payload after the index and offset (`EndsBlockWaitWith`) |
| Connection.AwaitBlockFromPiece | src/peer/connection.rs:100-121 | a block comes only from the first Piece among the inputs, every earlier input a handled non-Piece message; it passes `valid_block`, the block is its payload after the index and offset, and the inputs after it are left unread |
| Connection.RequestBlockSpec | src/peer/connection.rs:90-122 | a block request consumes input, and at least one message when it yields a block |
| Connection.RequestBlockAnswered | src/peer/connection.rs:90-122 | a block request yields a block only when the request went out and an input answered it with a valid Piece; the inputs after it are left unread |
| Connection.CollectPiece | src/peer/connection.rs:127-150 | the `request_piece` loop from a given offset, as rounds; `CollectPieceOutcome` states every outcome, and `CollectPieceRequests`, `CollectPieceContents`, `CollectPieceBlocks` and `CollectPieceStops` state what is requested and received |
| Connection.Round | src/peer/connection.rs:131-147 | one round of that loop: request a block, append it, advance the offset with the overflow check, and stop with the piece check once the offset reaches the piece length |
| Connection.CollectPieceRequests | src/peer/connection.rs:127-139 | at least one request goes out; request `k` asks for `b` bytes at offset `k * b`, every offset below 2^32 |
| Connection.CollectPieceContents | src/peer/connection.rs:127-147 | a piece results only when every request produced a block and `valid_piece` holds; the piece is the blocks concatenated in order |
| Connection.CollectPieceBlocks | src/peer/connection.rs:127-134 | the blocks of a download answer the requests in order: each is the payload, after the index and offset, of a Piece that passed `valid_block` for this piece at its request's offset, and each block's answering input comes strictly after the previous block's, so no input answers two requests |
| Connection.CollectPieceStops | src/peer/connection.rs:132-139 | requests stop at the first offset that reaches the piece length |
| Connection.RequestBlockErrors | src/peer/connection.rs:98-121 | a failed block request fails with a send error, `WAIT_FAILED`, `INVALID_BLOCK` or a malformed block, and nothing else |
| Connection.CollectPieceOutcome | src/peer/connection.rs:127-150 | every outcome of the loop: all rounds but possibly the last receive their block; a last round without one ends the download with one of `request_block`'s errors; otherwise an offset reaching 2^32 is `CounterOverflow`, and the collected piece is returned exactly when `valid_piece` accepts it, `INVALID_PIECE` being the error when it does not |
| Connection.Opening | src/peer/connection.rs:173-194 | the handshake, Unchoke and Interested steps of `open_connection` up to the first failure; `OpeningOrder` states their order and failures |
| Connection.OpeningOrder | src/peer/connection.rs:173-199 | the handshake, unchoke and interested go out in that order; a failure stops the later steps |
| Connection.PeerConnection.constructor | src/peer/connection.rs:26-46 | a new connection is choked by its peer, has an empty bitfield and takes the peer's id |
| Connection.PeerConnection.WaitForMessage | src/peer/connection.rs:58-74 | the connection's state and the stream move as one receive says |
| Connection.PeerConnection.WaitUntilReadyAsWritten | src/peer/connection.rs:76-85 | the loop as written ends as the wait with the written test says |
| Connection.PeerConnection.WaitUntilReady | src/peer/connection.rs:76-85 | the loop ends as the wait with the intended test says; on success the peer has unchoked the client and sent a bitfield |
| Connection.PeerConnection.RequestBlock | src/peer/connection.rs:90-122 | exactly one request is sent, and the result, state and stream are as the block request says |
| Connection.PeerConnection.PieceRound | src/peer/connection.rs:131-147 | one round sends one request and either ends the download as the piece collection says or continues at the next offset with the block appended, having consumed input |
| Connection.PeerConnection.RequestPiece | src/peer/connection.rs:127-150 | the result, state, stream and the requests sent are as the piece collection says |
| Connection.PeerConnection.SendOpening | src/peer/connection.rs:174-194 | the handshake, Unchoke and Interested are logged in order up to the first failure, which is reported; no input is consumed |
| Connection.PeerConnection.OpenConnection | src/peer/connection.rs:173-199 | the opening messages are logged in order, and the wait for readiness with its test as written runs only when they all succeed; the result is that wait's |
| Connection.PeerConnection.OpenConnectionCorrected | src/peer/connection.rs:173-199 | the same opening with the corrected wait; on success the peer has unchoked the client and sent a bitfield |
| PieceManager.PieceIds | src/piece_manager/types.rs:33-42 | the piece ids are exactly those below the number of pieces |
| PieceManager.PieceIdsCount | src/piece_manager/types.rs:33-42 | there are exactly `n` piece ids |
| PieceManager.NewPieceManager | src/piece_manager/types.rs:26-61 | every piece id maps to an empty peer list and is ready to download; the other collections are empty, the counters zero and the flags false |
| PieceManager.InitialSizes | src/piece_manager/types.rs:33-42 | the initial state holds one peer list and one ready entry per piece, for the same ids |
| PieceManager.InitialWithoutPieces | src/piece_manager/types.rs:33-42 | with no pieces every map and set is empty |

## Left out

- Socket I/O: `PeerMessageStream`'s connect, read and write, and its mock, are not modelled. The byte layouts they produce are modelled by `Frame` and `ReadFrame`. A script of incoming messages and a log of sent ones stand in for the stream.
- A read that would block forever on an exhausted stream is modelled as a closed connection (`ConnectionClosed`).
- SHA-1 is not modelled. `valid_block` and `valid_piece` are function-valued parameters of the connection.
- The `Metainfo` a connection holds is reduced to its info hash and piece length, the only fields the connection reads.
- `fs::read_to_string`, `env::var("INDEX")`, directory creation and path validation are not modelled. The file text and `INDEX` are parameters of `ConfigFromText`. The config errors for those steps do not arise.
- Panics are modelled as error values:
  - a zero length prefix on receive is `LengthUnderflow`;
  - a short read is `ShortRead`;
  - a block shorter than 8 bytes is `MalformedBlock`;
  - an offset overflowing `u32` is `CounterOverflow`;
  - a port plus `INDEX` overflowing `u16` is `PortOverflow`.
- Error messages are modelled as constants or ids rather than formatted text. This covers `from_u8` and the connection's error strings.
- The progress bar and coloured console output of the connection are not modelled. They use floating point and printing.
- The piece manager's channels and UI sender are not modelled. The worker struct's declaration is not part of this model. Its field types are taken from how `new_piece_manager` fills them: pieces are `u32` ids and peers are byte-string ids. The application's call of `new_piece_manager` with one argument is not part of this model either.
- The connection file refers to a client message service and `bitfield.is_empty()`, while the peer types file defines `PeerMessageService` and `non_empty`. The model uses one message-service class and reads `is_empty` as the negation of `non_empty`.
- `am_choking`, `am_interested` and `peer_interested` are set by the constructor and never changed. They are modelled as constant fields.
- `open_connection` tells the UI about the new connection (`send_new_connection`) after the wait succeeds. This notification is not modelled: the UI channel is outside this model.
- `BencodeReader`: the decoder is a partner that specifies the encoder. It is not the client's decoder, which is not part of this model.
- The bencode `End` marker encodes to nothing. Round trips are therefore stated for values without an `End` inside (`WellFormed`).

## Findings

| source | as written | input that shows it | evidently intended | confidence | as-written member | corrected member |
|---|---|---|---|---|---|---|
| src/peer/connection.rs:80 | `wait_until_ready` keeps waiting until the peer is choking the client and its bitfield is empty | the usual opening, a Bitfield followed by an Unchoke: the condition never holds and the wait runs until the stream ends | return once the peer has unchoked the client and sent a non-empty bitfield | not executed | Connection.AsWrittenMissesUsualOpening | Connection.PeerConnection.WaitUntilReady |
| src/peer/types.rs:152-158 | `keep_alive` has length 0 but is framed with an id byte, so five zero bytes go out and the receive path subtracts 1 from the zero length | `send_message(keep_alive())` writes `00 00 00 00 00`; reading it back underflows | a keep-alive is the bare four-byte zero length | not executed | PeerTypes.KeepAliveFrameAsWritten | PeerTypes.WireFrameLengthPrefix |
