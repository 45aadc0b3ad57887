# A verified model of the cometbt BitTorrent client

The client downloads a torrent over TCP: it decodes the bencoded metainfo, asks the tracker for peers over HTTP,
shakes hands with each peer, cuts the byte stream of each connection into messages, and shares the pieces of the
torrent out among the peers through one work queue. This project models the parts of it that compute, and proves
what they promise on every input and over every sequence of events.

| module | what it models |
|---|---|
| `Serial` | big-endian coding of C++ `int`s |
| `ReceiveBuffer` | the growing receive window, over an array |
| `FrameSplitter` | what a connection means: a function from all bytes received to the messages dispatched |
| `WireMessages` | the messages, frames and handshakes written, and what the splitter makes of them |
| `ReceiveState`, `PeerConnections` | the five-state receive machine, statement by statement, held to the splitter |
| `BencodeGrammar`, `BencodeParser`, `BencodeTruncation`, `BencodeStops`, `BencodeEncoder` | the accepted grammar, the decoder as a function, truncated input, input that leaves it without an answer, the encoder of BEP 3 |
| `BencodeDecoder` | the decoder object and its moving index |
| `PatternSearch`, `Torrent`, `HttpParser` | the substring search, the hashed slice of the metainfo file, the tracker's response head |
| `Pieces`, `Assembly` | a piece, its requests and its blocks |
| `Swarm`, `HonestSwarm`, `HonestRuns`, `Sessions` | peers, pieces and work queue as a step system, runs of it, the download from one peer from start to end, and the objects that take the steps |
| `Wiring` | what the messages of the connections do to the swarm |
| `Timers`, `EventLoops` | timers and the timer half of the event loop |

How the source is read:

- The build type is Debug, so a failed `assert` ends the process, as an uncaught exception does. So, in the model, does
  what C++ leaves undefined: a block copied outside its piece, a pop from an empty queue, a hash or a clearing past the
  end of a piece. All of that is the flag `fault`. The buffer's own asserts are preconditions, which the connection is
  proved to meet.
- A connection is told what it shares with others by parameters: how many pieces there are, how long they are, and
  whether the queue holds anything at its k-th UNCHOKE. `Wiring` ties them to the swarm.
- `char` is signed and bytes are octets: byte 0xFF compares equal to `EOF` in the decoder's `peek`.
- The bencode overflow guard narrows its accumulator to `int`. When the low 32 bits are negative its subtraction
  overflows, which C++ leaves undefined. The parameter `wraps` is the choice the compiler makes: wrap round (the
  guard then fires, as in an unoptimised build) or assume no overflow (it then never fires). All results hold for both.
- The byte one past the decoder's input, which `get_str_len` may read, is the arbitrary constant `beyond`.
- SHA-1 is an arbitrary function, the clock an arbitrary sequence of readings that never goes back, a read appends
  bytes, a write appends to a log.

Where the code falls short of what it is for, the exact condition is proved: a keep-alive or a negative length wedges a
connection for good, and so does a BITFIELD while unchoked, which is also dispatched again with every later read
(`SurvivesIffAccepted`, `AcceptedMeans`, `KeepAliveWedges`, `SettledFacts`); a short BITFIELD, a PIECE outside the pieces
and an UNCHOKE with nothing queued end the process or leave its memory (`AcceptedMeans`, `JudgedAlike`); a bad handshake
with bytes behind it in the same read meets a failing assert instead of a clean disconnect (`OnReceiveInternal`);
integers such as 21474836480 are refused where the guard wraps (`RoundTrip`, `LargeFileLength`); a byte 0xFF where a
token is due, at any depth, hangs the decoder in a list and crashes it in a dictionary, and, short of exhausting the
stack, no other input does (`Byte255Hangs`, `Byte255Crashes`, `AlwaysAnswers`); a number above LLONG_MAX is undefined
behaviour where it is due, and all other input that is not read is an exception (`NumberOverflows`,
`OtherwiseThrows`); a short info dictionary is not found (`HashedSliceIsInfo`); a header line without a colon or cut
off ends the head parser or sends it past the message (`HeadOutcome`); pieces of other than 16 blocks never finish or finish early (`EveryFinishedPieceIsRight`); a second
send before the first is served loses a piece, and so does one handed to an idle peer that has closed, or that lacks it,
or that takes it back in a new BITFIELD (`HarmlessExactly`, `TwoUnchokesLoseAPiece`, `ClosedPeerIsServed`,
`StrandedPieceIsReached`, `BitfieldDropsAPiece`), until one of a few steps brings it back (`LostComesBack`); a pop can
meet an empty queue, and behind a complete download it does (`PopOnEmptyQueue`, `EmptyPopIsReached`); a second
announcement is never saved, and every complete download from one peer makes one (`OnlyVerifiedIsAnnounced`,
`DownloadCompletes`); and a corrupt piece is asked for again only after a peer on it closes (`OnlyACloseFrees`,
`FreedIsFetchedAgain`, `CorruptPieceOverARun`, `CorruptPieceIsReached`).

## Model

| member | source | states |
|---|---|---|
| Serial.DeserializeSerialize | src/serial.cpp:8-34 | every C++ `int`, negatives included, is recovered from the first four bytes, whatever follows them |
| Serial.SerializeDeserialize | src/serial.cpp:8-34 | every four bytes are recovered from the integer read from them, so the coding is a bijection |
| Serial.BigEndian | src/serial.cpp:8-14 | the first byte weighs most; a negative value is written as the one 2^32 above it |
| Serial.SerializeInt | src/serial.cpp:8-14 | in place, exactly four bytes change, to the coding of the value; none when the room is below four |
| ReceiveBuffer.RecvBuffer.Reserve | src/recv_buffer.cpp:11-26 | room for `size` bytes at the returned place; no held byte changes; new capacity is the larger of end + size and message size, and only if needed |
| ReceiveBuffer.RecvBuffer.Grow | src/recv_buffer.cpp:28-38 | capacity to the message size, or by half of what it was, rounded down; no held byte changes |
| ReceiveBuffer.GrowsByHalf | src/recv_buffer.cpp:31-33 | the new capacity between its two bounds |
| ReceiveBuffer.RecvBuffer.AdvancePos | src/recv_buffer.cpp:40-49 | advances by what the message still lacks, or by a whole message size once it lacks nothing, or by what there is |
| ReceiveBuffer.RecvBuffer.Cut | src/recv_buffer.cpp:51-81 | with and without an offset, exactly the `size` bytes at the offset leave the window and the rest keeps its order |
| ReceiveBuffer.RecvBuffer.Reset | src/recv_buffer.cpp:90-108 | on a finished message both branches drop exactly its bytes and leave the unread count as it was |
| ReceiveBuffer.RecvBuffer.Clean | src/recv_buffer.cpp:110-117 | the window moves to the front with its bytes unchanged |
| ReceiveBuffer.RecvBuffer.Received | include/recv_buffer.h:40-44 | the bytes of the read are accounted for; both asserts hold |
| FrameSplitter.RunAppend | src/peer_connection_core.cpp:167-189 | splitting a prefix and then the tail with the rest is splitting the whole: read boundaries are invisible |
| FrameSplitter.HaltedForever | src/peer_connection.cpp:362-372 | once stopped, the splitter dispatches nothing more whatever follows, and drops no byte |
| FrameSplitter.TailIsUnread | src/peer_connection.cpp:277-382 | what is held is shorter than the field waited for, or opens with the field that stops the receiver, for the stated reason |
| WireMessages.CreateRequestMessage | src/peer_connection.cpp:62-74 | the 17 bytes of a request frame with its three fields |
| WireMessages.CreateInterestedMessage | src/peer_connection.cpp:76-81 | the 5 bytes of an interested frame |
| WireMessages.CreateHaveMessage | src/peer_connection.cpp:127-132 | the 9 bytes of a have frame |
| WireMessages.ParseBodyOfBody | src/peer_connection.cpp:62-81 | each field of each message written is recovered from its body |
| WireMessages.Layout | src/peer_connection.cpp:62-81 | the messages written byte for byte: length and id as literal bytes, then the fields in their order |
| WireMessages.HeaderText | src/peer_connection.cpp:280-300 | the header is the byte 19 and the text "BitTorrent protocol"; the ids are those of the protocol |
| WireMessages.BitsAreTheLast | src/peer_connection.cpp:384-386 | the bits kept are, byte for byte, those behind the fifth byte of the last BITFIELD that has any, and none if there was none |
| WireMessages.FramesAreDispatched | src/peer_connection.cpp:353-381 | accepted frames come out as their bodies, in order and once each, and splitting goes on behind them |
| WireMessages.AcceptedMeans | src/peer_connection.cpp:83-275 | what is accepted, in the peer's terms: BITFIELD of 6 bytes or more and only while choked, UNCHOKE only when a piece is queued, PIECE of 9 bytes or more for a piece there is with its block inside it |
| WireMessages.SurvivesIffAccepted | src/peer_connection.cpp:83-407 | the receiver neither stops nor ends the process over a list of frames if and only if they are accepted |
| WireMessages.KeepAliveWedges | src/peer_connection.cpp:362-366 | frames before a keep-alive are dispatched, nothing after it ever is |
| WireMessages.NothingLost | src/peer_connection.cpp:353-381 | conservation: dispatched frames plus held bytes are exactly the bytes received after the handshake |
| WireMessages.WireRoundTrip | src/peer_connection.cpp:62-81 | any list of request, have and interested messages arrives as written, fields recovered, nothing held |
| WireMessages.ReceiveAccepts | src/peer_connection.cpp:277-382 | whatever bytes come, the messages dispatched are a list of accepted frames, and the connection is choked as they say |
| WireMessages.HandshakeGate | src/peer_connection.cpp:280-351 | the message loop is reached if and only if bytes 0-19, 28-47 and 48-67 are the header, the expected hash and the expected id; it then reads from byte 68, and otherwise dispatches nothing |
| WireMessages.HandshakeInverse | src/peer_connection_core.cpp:58-76 | the handshake written for (hash, id) is accepted by exactly the receivers that expect that hash and id |
| WireMessages.Conversation | src/peer_connection_core.cpp:58-98 | a handshake and any messages behind it: all dispatched in order with every field, nothing held |
| ReceiveState.MessageConsumed | src/peer_connection.cpp:83-125 | an accepted message cut from the buffer keeps machine and splitter in step, replies to BITFIELD included |
| ReceiveState.MessageKept | src/peer_connection.cpp:384-407 | a message handed over and not cut keeps the account of what was dispatched again |
| ReceiveState.ReadArrives | src/peer_connection_core.cpp:167-173 | bytes behind the held ones keep machine and splitter in step |
| ReceiveState.SetupKeepsReady | src/peer_connection_core.cpp:191-204 | after the double growth there is room for a byte, and capacity is at most max(16384, 3L/2), L the largest field awaited |
| ReceiveState.ReadSettles | src/peer_connection_core.cpp:167-189 | after a read: state, tail, messages, replies, disconnect and crash are the splitter's, in both directions |
| ReceiveState.SettledFacts | src/peer_connection.cpp:384-407 | what was dispatched is the splitter's messages if and only if no unchoked BITFIELD or fatal frame was met; active if and only if hands were shaken; the bits kept are those of all messages handed over |
| ReceiveState.SegmentationIndependence | src/peer_connection_core.cpp:167-216 | two connections that have read the same bytes, however split, agree on all they consumed, wrote, hold and concluded, and, but for an unchoked BITFIELD or a fatal frame, on all they dispatched and the bits they keep |
| PeerConnections.PeerConnection.SendHandshake | src/peer_connection_core.cpp:58-99 | the 68 bytes are written, the eight reserved ones zero, and the connection waits for the first field with 16384 bytes of room |
| PeerConnections.PeerConnection.Await | src/peer_connection.cpp:103-125 | the finished field, and nothing else, leaves the held bytes |
| PeerConnections.PeerConnection.HandleBitfield | src/peer_connection.cpp:384-407 | choked: answered and cut; unchoked: left in the buffer; below 6 bytes, and only then, the process ends; the bits kept are the bytes behind the fifth |
| PeerConnections.PeerConnection.HandleUnchoke | src/peer_connection.cpp:103-125 | fails if and only if nothing is queued; otherwise unchoked, exactly the message cut, in step with the splitter |
| PeerConnections.PeerConnection.HandleChoke | src/peer_connection.cpp:229-234 | choked, exactly the message cut, in step with the splitter |
| PeerConnections.PeerConnection.HandlePiece | src/peer_connection.cpp:236-275 | fails if and only if the body is below 9 bytes, its index is no piece's, or its block lies outside the piece; otherwise exactly the message is cut |
| PeerConnections.PeerConnection.HandleUnsupported | src/peer_connection.cpp:92-98 | a message with any other id is cut whole and otherwise ignored |
| PeerConnections.PeerConnection.DoMessage | src/peer_connection.cpp:83-101 | every id goes to its handler, unknown ids are skipped whole; machine, messages, replies and bits stay in step |
| PeerConnections.PeerConnection.OnProtocolId | src/peer_connection.cpp:280-300 | accepted exactly when the 20 bytes are the protocol header, else dropped |
| PeerConnections.PeerConnection.OnInfoHash | src/peer_connection.cpp:302-327 | accepted exactly when the hash behind 8 ignored bytes is the expected one |
| PeerConnections.PeerConnection.OnPeerId | src/peer_connection.cpp:329-351 | accepted exactly when the 20 bytes are the expected id; the connection is then active |
| PeerConnections.PeerConnection.OnMessageSize | src/peer_connection.cpp:353-378 | a positive length is awaited; zero and negative lengths leave the prefix in the buffer |
| PeerConnections.PeerConnection.OnReceive | src/peer_connection.cpp:277-382 | one call takes at most one field, touches no unread byte and keeps machine and splitter in step |
| PeerConnections.PeerConnection.MakeRoom | src/peer_connection_core.cpp:191-200 | held bytes unchanged at the front of the buffer; a full buffer grows twice |
| PeerConnections.PeerConnection.SetupReceive | src/peer_connection_core.cpp:191-216 | at least one byte of room, position at the end, nothing else changed |
| PeerConnections.PeerConnection.OnReceiveInternal | src/peer_connection_core.cpp:167-189 | after any read of any size the connection is where the splitter says, and keeps the bits of the last BITFIELD handed over; it crashes if and only if it met a fatal frame, or a bad handshake field with bytes behind it |
| PeerConnections.PeerConnection.ReceiveAll | src/peer_connection_core.cpp:18-31 | for every input and every sequence of read sizes: messages consumed are the splitter's, dispatches equal them exactly when stated, active exactly after an accepted handshake, and the bits kept are those of the last BITFIELD handed over |
| BencodeParser.ParsePhrase | src/bencode.cpp:54-181 | a phrase anywhere in the input is read to its end with its meaning if its numbers are readable, and fails otherwise |
| BencodeParser.ReadPhrase | src/bencode.cpp:120-161 | whatever is accepted is a phrase of the grammar, and the value is its meaning |
| BencodeParser.ParseIffDerives | src/bencode.cpp:120-161 | success with value v up to j if and only if the grammar derives v from exactly those bytes (leading zeros allowed, last duplicate key wins) |
| BencodeParser.ScanDigits | src/bencode.cpp:54-69 | digits before their stop byte give their number, or fail, exactly as their prefixes are below the guard |
| BencodeEncoder.RoundTrip | src/bencode.cpp:38-181 | between any bytes, the encoding of a tree is read back to the tree and its exact end if and only if its numbers fit |
| BencodeEncoder.PhrasedMeans | src/bencode.cpp:38-181 | the encoder's text is a phrase that means the tree's value, readable exactly when the tree is storable |
| BencodeEncoder.DecimalIsNumber | src/bencode.cpp:59-69 | decimal digits are read back to their number, within LLONG_MAX and the guard, and only then |
| BencodeEncoder.EveryEntryKept | src/bencode.cpp:97-118 | with distinct keys, in any order, no entry of a dictionary is lost |
| BencodeGrammar.LastEntryWins | src/bencode.cpp:110-111 | of several entries with one key the last is kept |
| BencodeEncoder.IntSizesFit | src/bencode.cpp:163-181 | lengths up to INT_MAX are always read back |
| BencodeEncoder.LargeFileLength | src/bencode.cpp:3-5 | 21474836480 is in range, is refused where the guard wraps and fits where it does not |
| BencodeTruncation.TruncationRejected | src/bencode.cpp:89-113 | every non-empty proper prefix of every phrase, at any nesting depth and between key and value, is rejected; by an exception when its numbers are readable |
| BencodeGrammar.SamePhrase | src/bencode.cpp:120-161 | unique readability: at most one phrase stands at a place, whatever follows it |
| BencodeGrammar.PrefixFree | src/bencode.cpp:120-161 | no phrase is a proper prefix of another, and equal texts are the same phrase, numbers out of range included |
| BencodeStops.OpeningStops | src/bencode.cpp:80-118 | behind any readable opening, of any depth, the outcome at its token decides that of the whole call: null by the container it stands in, every failure as it is |
| BencodeStops.FindOpening | src/bencode.cpp:80-161 | whenever the decoder hangs, crashes or passes LLONG_MAX there is an opening that leads to the token at fault, and it is found |
| BencodeStops.Byte255Hangs | src/bencode.cpp:80-95 | the decoder hangs if and only if a readable opening, innermost a list, leads to a byte 0xFF |
| BencodeStops.Byte255Crashes | src/bencode.cpp:97-118 | it dereferences a null pointer if and only if a readable opening, innermost a dictionary, leads to one, as key or value |
| BencodeStops.AlwaysAnswers | src/bencode.cpp:120-161 | a value, an exception or a number out of range comes out if and only if there is input and no byte 0xFF at a token position |
| BencodeStops.NumberOverflows | src/bencode.cpp:54-69 | the behaviour is undefined if and only if a readable opening leads to an integer or a length whose digits, safe so far, pass LLONG_MAX at some digit |
| BencodeStops.OtherwiseThrows | src/bencode.cpp:120-161 | an exception if and only if there is input, no readable phrase stands there, no byte 0xFF at a token position, and no such number |
| BencodeStops.NonNumericThrows | tests/test_bencode_decoder.cpp:44-69 | a letter, or a sign, in an integer is an exception |
| BencodeStops.Byte255InAString | src/bencode.cpp:38-52 | a byte 0xFF in a string in a list is read |
| BencodeDecoder.Decoder.DecodeString | src/bencode.cpp:38-52 | the next n bytes, or an exception when they are not there |
| BencodeDecoder.Decoder.DecodeInt | src/bencode.cpp:54-78 | the scanned number with the index on its end token, or the failure of the scan |
| BencodeDecoder.Decoder.GetStrLen | src/bencode.cpp:163-181 | the scanned length; the read past the end can only end in an exception |
| BencodeDecoder.Decoder.DecodeList | src/bencode.cpp:80-95 | what the pure parser says for the items from the index on, for every input |
| BencodeDecoder.Decoder.DecodeDict | src/bencode.cpp:97-118 | what the pure parser says for the entries from the index on, for every input |
| BencodeDecoder.Decoder.Decode | src/bencode.cpp:120-161 | terminates on every input the source does, answers what the pure parser answers, and moves the index to its end |
| PatternSearch.FindPattern | src/torrent.cpp:58-75 | the least occurrence if it begins two pattern lengths or more before the end, -1 if and only if there is no such one |
| PatternSearch.GetBody | src/http_parser.cpp:67-93 | the same for CRLFCRLF, as the offset behind it |
| Torrent.FindInfoDict | src/torrent.cpp:77-91 | the slice from behind the six bytes of the first match to the last byte but one |
| Torrent.HashedSliceIsInfo | src/torrent.cpp:58-102 | the search hits the file's last entry "info" if and only if its dictionary takes 7 bytes and no "4:infod" precedes; the slice is then its text and decodes to document["info"] |
| HttpParser.ParseHeader | src/http_parser.cpp:2-38 | for every message the outcome of the pure parser, overruns and missing colons included |
| HttpParser.HeadRoundTrip | src/http_parser.cpp:2-38 | version, status and every field of a printed response, with any number of spaces behind the version and the colons, and nothing else, are read back; the parser stops on the blank line |
| HttpParser.HeadOutcome | src/http_parser.cpp:2-38 | complete field lines behind the status line lead to a blank line or the end (parsed, stopping there), to a line without a colon (the program ends), or to a line cut off before the byte behind its CR (overrun): each if and only if |
| HttpParser.FieldKept | src/http_parser.cpp:31 | a field whose name is not used again keeps its value |
| HttpParser.BodyFollowsHead | src/http_parser.cpp:67-93 | `get_body` answers if and only if the body has 4 bytes, with the offset two behind where the head parser stopped |
| Pieces.Piece.constructor | src/piece.cpp:3-14 | a piece of zeros with empty counters |
| Pieces.Piece.VerifyIntegrity | src/piece.cpp:49-52 | compares the hash of the first received-bytes bytes |
| Pieces.Piece.IncomingBlock | src/piece.cpp:54-59 | exactly the block's bytes change, and the two counters |
| Pieces.Piece.Reset | src/piece.cpp:86-93 | counters cleared, exactly the first received-bytes bytes zeroed |
| Pieces.ResetClears | src/piece.cpp:86-93 | the same of the piece as a value, byte by byte |
| Pieces.Piece.RequestBlocks | src/peer_connection.cpp:198-222 | the loop's requests and the piece that has sent them |
| Pieces.TilesPartition | src/peer_connection.cpp:198-204 | the requests partition the piece: contiguous from 0, sizes 1 to 16384, each byte in exactly one, none past the end |
| Assembly.PipelineIsConsistent | src/peer_connection.cpp:198-222 | requesting sends the next tiles, keeps the counters accounted for, and stops at five open or all asked |
| Assembly.AnswerIsConsistent | src/peer_connection.cpp:236-253 | a right answer to an open request fits, leaves all other bytes, and keeps the counters accounted for |
| Assembly.ResetIsConsistent | src/piece.cpp:86-93 | a reset starts the account afresh whatever stale bytes it leaves |
| Assembly.FinishedIsComplete | include/piece.h:27 | finished means at least 16 blocks; the data is whole, equal to the content and verified exactly when there are 16 |
| Assembly.SixteenBlocks | include/piece.h:27 | 16 blocks means 15 * 16384 < length <= 16 * 16384 |
| Assembly.SomethingOutstanding | src/peer_connection.cpp:174-222 | an unfinished piece of 16 blocks has as many open requests as its backlog says, and at least one |
| Assembly.RepeatedBlockFinishesEarly | src/piece.cpp:54-59 | a repeated block finishes a piece with a block missing; its data is right only if that block was there already |
| Assembly.Download | src/peer_connection.cpp:162-253 | answering open requests in any order and requesting in between ends, after 16 answers, with the content verified |
| Swarm.StepWellFormed | src/session.cpp:57-93 | every step the process lives through keeps every index naming a piece, in whatever order events come |
| Swarm.FetchAsks | src/peer_connection.cpp:162-222 | a fetch asks only for the piece its peer is on, from where its requests left off, and exactly if the peer has it, it is unfinished, and there is room and something to ask for |
| Swarm.ServedInVain | src/session.cpp:61-71 | a send for a peer that chokes this side or lacks the piece asks for nothing and puts the piece behind the queue |
| Swarm.CloseQueuesBehind | src/peer_connection.cpp:409-419 | a close puts its peer's piece at the very end of the queue and changes nothing else of queue and peers; the peer keeps pointing at it |
| Swarm.QueueStep | src/session.cpp:57-93 | for every step, what is queued followed by what enters is what leaves followed by what is queued then; an unchoke hands over what leaves |
| Swarm.FirstInFirstOut | src/piece_manager.cpp:17-22 | over every run pieces leave the queue in the order they entered it |
| Swarm.QueueFromTheStart | src/piece_manager.cpp:17-22 | from the start that order is the torrent's, and then that of entering |
| Swarm.FetchKeepsInView | src/peer_connection.cpp:162-226 | what a fetch leaves in view, exactly: what was, the piece offered if its peer is busy or is there and has it, the piece concluded |
| Swarm.FullSlotLosesItsPiece | src/peer_connection.cpp:107-120 | an unchoke, or a block (lines 262-269), that fills the slot before it is served loses its piece if and only if nobody else has it in view and the block is not for it |
| Swarm.ServingLosesAPiece | src/session.cpp:63-91 | serving a send loses a piece if and only if an idle peer is handed one it neither can fetch nor concludes: the piece sent for, when it has closed, or the next queued one behind an announcement, when it has closed or lacks it |
| Swarm.BitfieldLosesAPiece | src/peer_connection.cpp:384-407 | a new BITFIELD loses a piece if and only if it lacks the one its peer is on and nobody else has that in view |
| Swarm.HarmlessExactly | src/peer_connection.cpp:103-275 | any step loses a piece if and only if it is one of those |
| Swarm.HarmlessRunsLoseNothing | src/session.cpp:57-93 | over any run, every piece stays in view at every moment if and only if every step is harmless |
| Swarm.NoPieceIsEverLost | src/piece_manager.cpp:4-22 | the same from the start: each piece is queued, under way, with an open peer that has it, or announced, if and only if every step is harmless |
| Swarm.LostComesBack | src/peer_connection.cpp:162-275 | a piece out of view comes back exactly by a block for it, or by the BITFIELD, the close or the conclusion of the peer on it |
| Swarm.LostStaysLost | src/session.cpp:57-93 | over any run, it stays out of view at every moment if and only if no step is one of those |
| Swarm.TwoUnchokesLoseAPiece | src/peer_connection.cpp:103-125 | two unchokes from the start lose piece 0 |
| Swarm.ClosedPeerIsServed | src/peer_connection.cpp:409-419 | a run from the start in which a peer unchokes, closes and is then served loses piece 0 |
| Swarm.BitfieldDropsAPiece | src/peer_connection.cpp:384-407 | a run from the start in which a peer is handed piece 0 and then says it lacks it loses piece 0 |
| Swarm.PopOnEmptyQueue | src/session.cpp:85-90 | the pop after an announcement meets an empty queue exactly when the peer was idle and the queue empty before |
| Swarm.OnlyVerifiedIsAnnounced | src/session.cpp:73-91 | what one `try_download` announces, from the state before it: the peer's own piece if finished and verified, then the head of the queue if that is so too; only the first is handed over to be saved |
| Swarm.OnlyACloseFrees | src/peer_connection.cpp:174-222 | a piece asked for in full is not asked for again by any step, blocks for it included; the close of a peer on it, and only that, resets and queues it |
| Swarm.FreedIsFetchedAgain | src/peer_connection.cpp:409-419 | after that close, the next fetch of a peer that has the piece asks for it from its first block on |
| Swarm.CorruptPieceOverARun | src/peer_connection.cpp:179-194 | over every run, a piece with its blocks and a wrong hash stays so at every moment if and only if no peer on it closes; until then it is neither asked for nor announced |
| HonestSwarm.HonestStepIsGood | src/peer_connection.cpp:162-275 | every step of peers that answer each request once with one content, blocks back to back and sends overwritten included, keeps every piece's account |
| HonestSwarm.OnlyPopsFail | src/peer_connection.cpp:103-275 | what such peers cause ends the process if and only if it pops a piece from an empty queue |
| HonestSwarm.EveryFinishedPieceIsRight | include/piece.h:27 | over every such run: requests since the last reset are the first tiles, at most five open, all accounted for; a finished piece of 16 blocks is its content, and verifies if and only if that has the torrent's hash; shorter never finish, longer finish with bytes missing |
| HonestSwarm.AnnouncedIsRight | src/peer_connection.cpp:179-188 | with pieces of 16 blocks, whatever is announced or saved is at that moment exactly its content, and that has the torrent's hash |
| HonestSwarm.FetchNeverStalls | src/peer_connection.cpp:174-226 | a fetch that goes on with an unfinished piece the peer has leaves an open request for it |
| HonestSwarm.UnchokeStartsADownload | src/session.cpp:57-93 | an unchoke of an idle peer that has the next piece ends, once served, in open requests for it |
| HonestSwarm.BlockKeepsADownloadGoing | src/peer_connection.cpp:236-275 | a block short of the last is followed, once its send is served, by an open request for the same piece |
| HonestRuns.DownloadCompletes | src/session.cpp:57-93 | any number of pieces of 16 blocks, one peer that has them all: in whatever order it answers open requests and sends are served, no step is left after 32 for each piece at most, and that is so exactly when every piece has been announced; then each has been saved in order with its content, and one announced twice |
| HonestRuns.CompletionIsReached | src/session.cpp:57-93 | such a download can be carried through from the start |
| HonestRuns.EmptyPopIsReached | src/session.cpp:85-90 | behind it, the peer's further unchokes lead to a pop from an empty queue |
| HonestRuns.CorruptPieceIsReached | src/peer_connection.cpp:179-194 | a run from the start that brings all blocks of a piece with the wrong bytes leaves it spoilt, queued, not announced, and with no peer on it |
| HonestRuns.StrandedPieceIsReached | src/session.cpp:85-90 | a run from the start after which an open peer is on a piece it lacks, and nobody has that in view |
| Wiring.PieceArrives | src/peer_connection.cpp:236-253 | a PIECE written from (index, offset, block) and delivered puts the block at the offset of that piece, changes no other byte of any piece, and fills the slot; it ends the process exactly if there is no such place |
| Wiring.PieceLands | src/piece.cpp:54-59 | the same for every PIECE body: its bytes behind the ninth land where its two fields say |
| Wiring.JudgedAlike | src/peer_connection.cpp:83-275 | a dispatched message is fatal for the splitter if and only if the process does not live through it; otherwise both sides then agree on choked and bits |
| Wiring.RunsAgree | src/peer_connection.cpp:83-275 | over every run of messages, sends and closes: it goes through if and only if no connection's splitter finds a message fatal; choked flags and bitfields are then what each connection's messages say |
| Wiring.DispatchedMessagesAreSafe | src/session.cpp:96-122 | from the start, whatever bytes the peers have sent: the messages their receive paths dispatch are lived through, and swarm and splitters agree on who is choked, and each peer has what the bits of its last BITFIELD say |
| Sessions.Session.constructor | src/piece_manager.cpp:4-22 | one piece for each hash, every index queued once in order |
| Sessions.Session.FetchPiece | src/peer_connection.cpp:162-226 | the objects change as the step function says, one piece at most; fails if and only if the hash would read past the piece |
| Sessions.Session.FinishPiece | src/peer_connection.cpp:179-194 | announced with its index returned, or queued again; the peer is idle either way |
| Sessions.Session.TryDownload | src/session.cpp:57-93 | for every send, served for a closed peer or not: the step function's result, or a failure exactly on an empty pop or a hash past the piece |
| Sessions.Session.HandleUnchoke | src/peer_connection.cpp:103-125 | the front of the queue goes under way for this peer, the slot full or not; fails exactly on an empty queue |
| Sessions.Session.HandlePiece | src/peer_connection.cpp:236-275 | the block goes to its piece and a send is under way, the slot full or not; fails exactly if it lies outside the pieces |
| Sessions.Session.Deliver | src/peer_connection.cpp:83-101 | a dispatched message reaches its handler with its fields read; a PIECE lands its bytes behind the ninth at its offset and nowhere else; fails exactly when the process does not live through it |
| Sessions.Session.OnRemoteClose | src/peer_connection.cpp:409-419 | the closed peer's piece is reset and put at the end of the queue; fails exactly if more bytes would be cleared than there are |
| Timers.SetKeepsBooks | src/timer.cpp:17-29 | a timer set at a time no earlier than the last keeps order and accounts; the clamp is never reached |
| Timers.RunKeepsBooks | src/event_loop.cpp:191-211 | one turn keeps order and accounts and leaves one run fewer owed |
| EventLoops.EventLoop.SetTimer | src/event_loop.cpp:183-189 | queued with the loop's new time plus its timeout |
| EventLoops.EventLoop.Fire | src/event_loop.cpp:191-211 | one turn: the top is run at the time before, and comes back with one run fewer at the newly read time plus its timeout, or is gone |
| EventLoops.EventLoop.RunTimers | src/event_loop.cpp:191-211 | terminates; callbacks so far are in order of expiry and none early; only later expiries stay queued |
| EventLoops.EventLoop.ComputeNextTimeout | src/event_loop.cpp:159-176 | -1 exactly on an empty queue; otherwise never past an expiry, and up to the next one unless an `int` is too small |
| EventLoops.RunsAsAsked | src/timer.cpp:3-35 | a timer built with repeat r has run at most max(1, r) times, and exactly that often once it has left the queue |

## Left out

- libuv, sockets, OpenSSL, epoll, file access, console output and the progress bar: input and output, or foreign code.
- The depth of the decoder's recursion: `decode`, `decode_list` and `decode_dict` call each other once for each open container, and input nested deeply enough exhausts the stack.
- Lifetimes and copies of `buffer`, `piece`, `bitfield`, `info_hash` and `peer_connection`: memory management without an algorithm; the written messages are values here, although the source frees them before they are written.
- Overflow of sizes and times: positions, capacities and times are unbounded integers; only decoded fields and bencoded numbers have the source's widths.
- HonestSwarm.EveryFinishedPieceIsRight: no block requested before a reset arrives after it; `RepeatedBlockFinishesEarly` shows why such a block matters.
- Which pieces a bitfield's bytes name: an arbitrary function `bits` of the bytes kept; the source skips four bytes too many, takes bits low-first and does not test its index.
- Wiring.RunsAgree: the messages are those handed over and cut; a BITFIELD met while unchoked also replaces the bits, again with every later read.
- Saving a piece: `saved` only records that it was handed over, not what is written to the file.
- URL splitting, query strings, peer ids, hexadecimal and textual printing: no property beyond their bodies.
- EventLoops.EventLoop.RunTimers: callbacks do not touch the queue, timeouts are not negative, and the clock is abstract; `get_ms_time` truncates milliseconds to an `int`.
- The socket half of the event loop (`poll_io`, `async_write`, the write queue).
