# Verified core of a Stacks 2.0 node

A Dafny model of the parts of the node that move data between peers and into its
databases, with proofs of what they promise over all inputs and all runs:

- **Peer-to-peer streams.** `Wire` and `Messages` hold the codec, `Layout` the place of
  every field in the bytes, `Framing` says what a byte stream means as a whole, `Inbox`
  is the incremental parser, `Outbox` the sender with its pipes and partial writes,
  `StacksP2P` the protocol family with signatures, `Routing` the matching of replies to
  requests, and `Link` puts two ends together.
- **Message contents.** `Inventory` (bit vectors), `Relays` (relay lists), `ChainView`
  (a peer's view of the burnchain).
- **Burnchain.** `SyncPipeline` is the download pipeline as a transition system over its
  threads and channels; `BurnOps` are the checks and filters on the operations of a block.
- **Addresses.** `Base58` and `Crockford32`, both against one specification of change of
  base with leading zeros in `Numerals`; `Addresses` holds what they share.
- **Databases.** `Mempool` (replacement by fee, the walk over candidates) and `PeerDb`
  (denied address ranges).

Imperative code is modelled by methods and classes, each proved against a specification
function or predicate; the laws are proved about the specification. Hashes, checksums,
signature checks, the codecs of blocks and transactions, and the chain state are
parameters. Reads, writes and thread scheduling are nondeterministic. Integers are
unbounded, with casts and wrap-around written out where they occur.

Where the code does less than its documentation says, the model follows the code:

- `sync_with_indexer` can report success without having stored the blocks it was asked
  for, when the database tip was already at the end of the range and there are one to
  three headers (`SyncPipeline.SuccessIsCompleteIff`).
- An inbox overflow is documented to hold back reading until messages are taken out. It
  does so at the next call, but the bytes of the chunk under way are dropped
  (`Link.OverflowLosesMessage`); exactly when is `Link.Link.ReceiveFrames`. The
  peer-to-peer loop then drops the conversation, so it is not received on again.
- `iterate_candidates` is documented to visit every ancestor tip; it stops at the first
  populated height where its own fork has no transactions (`Mempool.ForkHidesAncestor`;
  exactly when it does visit all of them is `Mempool.EveryAncestorReachedIff`).
- Replacement by fee does not look at the sponsor slot when somebody holds the origin
  slot (`Mempool.ReplacesCheaperIff`).
- `c32_decode` counts leading zeros before it normalizes (`Crockford32.DecodeNormalized`).

## Model

| member | source | states |
|---|---|---|
| Framing.FrameStable | src/net/connection.rs:487-632 | a frame that is complete or invalid stays so, with the same message, length or error, whatever bytes arrive later |
| Framing.OverlongIsRefused | src/net/connection.rs:498-512 | a preamble that announces 16778054 bytes or more is refused before any payload is read |
| Framing.BadHead | src/net/connection.rs:514-545 | an error in a preamble is reported as it is, but garbage is a bad message, and too few bytes are no error |
| Framing.ParseResumes | src/net/connection.rs:721-837 | the meaning of a stream is the same when parsing stops anywhere and resumes with the bytes left over; errors included |
| Framing.RestIsPartial | src/net/connection.rs:721-837 | what parsing leaves over holds no complete frame |
| Framing.Provenance | src/net/connection.rs:577-837 | every message of a stream was read from a piece of it, one after another: a preamble and as many bytes as it announces, which the key, if known, signed |
| Framing.ResumesAlike | src/net/connection.rs:721-837 | a stream that means some messages followed by another stream does so whatever bytes follow both |
| Framing.FramesMeaning | src/net/connection.rs:721-837 | a concatenation of frames followed by anything means the messages in order, then what the rest means |
| Framing.FramesPrefix | src/net/connection.rs:721-837 | any prefix of a stream of frames means exactly the messages whose frames it holds in full, and leaves the partial frame over |
| Framing.TightResumes | src/net/connection.rs:721-837 | a part of a stream of full frames is one, and so is what it leaves over, followed by the other part |
| Inbox.ConnectionInbox.constructor | src/net/connection.rs:443-456 | a new inbox is empty and between frames |
| Inbox.ConnectionInbox.BufferPreambleBytes | src/net/connection.rs:460-483 | buffers a prefix of the input: all of it while the size hint is not reached, and never past the hint |
| Inbox.ConnectionInbox.ConsumePreamble | src/net/connection.rs:487-545 | finds the preamble that the buffer starts with, or has consumed everything and the frame is incomplete, or reports the error that the whole-stream parser reports |
| Inbox.ConnectionInbox.BufferMessageBytes | src/net/connection.rs:548-573 | buffers a prefix of the input: all of it while the payload is not complete, and never past its end |
| Inbox.ConnectionInbox.ConsumePayloadKnownLength | src/net/connection.rs:577-632 | yields the message of the first frame and drops exactly its bytes, or changes nothing and the frame is incomplete, or reports its error; what counts as the first frame is pinned by `Framing.Provenance` and `StacksP2P.FirstFrameIs` |
| Inbox.ConnectionInbox.ConsumePayload | src/net/connection.rs:694-710 | the same over the buffer and the new bytes together |
| Inbox.ConnectionInbox.ConsumeMessages | src/net/connection.rs:721-837 | after any chunk the inbox has grown by the messages of buffer and chunk, in order, and the buffer is the unparsed tail; an error is the error of the whole stream; an overflow loses a suffix of the chunk, at least one byte, and on full frames happens just before the first byte after the message that was one too many |
| Inbox.ConnectionInbox.RecvBytes | src/net/connection.rs:842-902 | for every way in which the socket cuts the stream, the inbox grows by all messages that arrived, in order, and the leftover bytes and the result depend only on the bytes; an inbox too full on entry is left untouched; otherwise an overflow keeps the first messages and loses bytes for good, and on full frames it happens exactly when the messages exceed the maximum by more than one, or by one with bytes after it; every message that it adds was read from a piece of the bytes received, which the known key signed |
| Inbox.ConnectionInbox.SpillsOver | src/net/connection.rs:714-730 | an overflow, in any family and however the stream is cut, means that the messages of the whole stream exceed the maximum by more than one, or by one with bytes after it |
| Inbox.ConnectionInbox.SetPublicKey | src/net/connection.rs:1299-1301 | a partial frame stays partial under a new key |
| Inbox.ConnectionInbox.NextMessage | src/net/connection.rs:905-907 | takes the oldest message, also after a failed receive |
| StacksP2P.P2PLawful | src/net/codec.rs:1319-1398 | the P2P family meets what the inbox relies on: preambles, payloads and signatures are decided by the bytes that hold them |
| StacksP2P.FirstFrameIs | src/net/codec.rs:1334-1398 | the first frame of any stream, by its bytes: 165 bytes of preamble, the announced rest, and, with a key, a signature that verifies over all bytes but itself before the body is read; each error as the source reports it |
| StacksP2P.ForgedIsRefused | src/net/connection.rs:584-592 | a frame that arrived in full and whose signature does not verify over the bytes received yields no message and a verification error |
| StacksP2P.ForgedEndsStream | src/net/connection.rs:584-592 | genuine frames before a forged one are received, and nothing after it |
| StacksP2P.OnlySigned | src/net/connection.rs:577-592 | every message parsed with a known key comes from a piece of the stream that the key signed, and has the preamble spelled out there |
| StacksP2P.SignedBytesAre | src/net/codec.rs:223-287 | a signature covers the 165 bytes of the preamble, its own 65 bytes blanked out, and the whole body |
| StacksP2P.FrameRead | src/net/codec.rs:1334-1377 | a framed message is read back whole, whatever follows it |
| StacksP2P.FramePrefix | src/net/codec.rs:1334-1377 | a frame that has not arrived in full is neither a message nor an error |
| StacksP2P.StreamMeaning | src/net/codec.rs:1319-1398 | signed frames one after another mean their messages, in order, and then whatever follows |
| StacksP2P.SignedIsFramed | src/net/codec.rs:1229-1236 | after `do_sign` the payload length is the length of the body, at least 5, and the signature verifies over the bytes as they are received |
| StacksP2P.SignatureCovers | src/net/codec.rs:1229-1236 | bytes 96 to 161 of a signed frame are the signature of all of its other bytes, among them the length of its body |
| Outbox.ConnectionOutbox.constructor | src/net/connection.rs:916-925 | a new outbox has queued, sent and launched nothing |
| Outbox.ConnectionOutbox.QueueMessage | src/net/connection.rs:961-981 | appends the message exactly when the outbox does not exceed its maximum, and changes nothing otherwise |
| Outbox.ConnectionOutbox.BeginNextMessage | src/net/connection.rs:927-942 | takes the pipe of the oldest message; the branch for a missing pipe is unreachable |
| Outbox.ConnectionOutbox.FinishMessage | src/net/connection.rs:944-959 | reached only when the whole message is on the socket; its notification goes in flight then, in queue order; the outbox is never empty here |
| Outbox.ConnectionOutbox.SendRound | src/net/connection.rs:989-1102 | one round of the loop keeps the account of bytes, notifications and stalls, and makes progress unless something stalled |
| Outbox.ConnectionOutbox.SendBytes | src/net/connection.rs:985-1116 | ends for every behaviour of pipes and socket; the result is exactly determined by what stalled and by the bytes that the socket took; without a stall nothing is left unsent |
| Outbox.ConnectionOutbox.WireIsPrefix | src/net/connection.rs:985-1116 | the bytes on the socket are a prefix of the queued messages, first in, first out, and cover every finished message |
| Outbox.ConnectionOutbox.Drained | src/net/connection.rs:1047-1051 | an empty outbox means that everything queued is on the socket and in flight |
| Routing.RouteMatches | src/net/connection.rs:1156-1202 | for every sequence number, replies go to the requests that expect it, oldest to oldest, until one side runs out; the rest stays in order |
| Routing.RouteKeepsOrder | src/net/connection.rs:1156-1202 | every message is delivered or returned, once; deliveries and returned messages each keep the order of arrival |
| Routing.RemoveExpired | src/net/connection.rs:1228-1235 | removing the collected positions from the back equals filtering, order kept |
| Routing.TimeoutsConserve | src/net/connection.rs:1206-1237 | no request is lost or duplicated by expiry |
| Routing.TimeoutsExact | src/net/connection.rs:1206-1237 | a request expires exactly when its deadline lies before now |
| Routing.NetworkConnection.constructor | src/net/connection.rs:1125-1137 | a new connection has delivered and expired nothing |
| Routing.NetworkConnection.IsSolicited | src/net/connection.rs:1140-1152 | true exactly when some request in flight expects this sequence number |
| Routing.NetworkConnection.FulfillRequest | src/net/connection.rs:1156-1177 | delivers to the oldest request in flight with this sequence number, or gives the message back |
| Routing.NetworkConnection.DrainInbox | src/net/connection.rs:1181-1202 | routes every message of the inbox, in order, and returns the unsolicited ones in order |
| Routing.NetworkConnection.DrainTimeouts | src/net/connection.rs:1206-1237 | keeps exactly the live requests in order, records the expired ones, and counts them |
| Routing.NetworkConnection.MakeRequestHandle | src/net/connection.rs:1243-1258 | a queued request has a reply channel of its own, or the outbox is full and nothing changes |
| Routing.NetworkConnection.MakeRelayHandle | src/net/connection.rs:1262-1271 | queues a message that expects no reply; no request is touched |
| Routing.NetworkConnection.RecvData | src/net/connection.rs:1279-1281 | receiving, well or badly, keeps every request accounted for; the inbox grows by what arrived; a connection whose inbox was too full on entry stays able to receive; bytes are lost as in `RecvBytes` |
| Routing.NetworkConnection.RecvAndDrain | src/net/p2p.rs:1450-1482 | the inbox is drained even if the receive failed: every message that arrived in full, also before a bad frame, is routed, unless the inbox overflowed |
| Routing.NetworkConnection.SendData | src/net/connection.rs:1274-1276 | sending keeps every request accounted for, and sends everything unless something stalled |
| Routing.NetworkConnection.OnePlace | src/net/connection.rs:944-1237 | over every run of queueing, sending, receiving, routing and expiry, failed receives included, a request whose bytes are not all sent is nowhere else, and one that is sent is in exactly one place: in flight, answered, timed out |
| Routing.NetworkConnection.AnsweredAfterSent | src/net/connection.rs:944-1202 | a reply is delivered only after the whole request is on the socket, and carries its sequence number |
| Link.PrefixMeaning | src/net/connection.rs:721-837 | the receiver of any prefix of signed frames gets exactly the messages that arrived in full |
| Link.Link.Send | src/net/connection.rs:985-1116 | sending keeps both ends consistent, whatever the receiver did, and sends everything unless something stalled |
| Link.Link.Receive | src/net/connection.rs:842-902 | receiving any bytes under way, in any chunks, keeps both ends consistent unless the bytes do not parse or the inbox overflows while it reads; an inbox too full on entry reads nothing |
| Link.Link.Queue | src/net/connection.rs:961-981 | queueing keeps both ends consistent |
| Link.Link.Take | src/net/connection.rs:905-907 | takes the oldest message, also after an overflow; consistent ends stay consistent |
| Link.Link.NeverFails | src/net/connection.rs:721-902 | what a sender of framed messages put on the socket always parses, however much of it is read |
| Link.Link.ReceiveFrames | src/net/connection.rs:714-902 | reading what an honest sender sent, in any chunks: nothing is read when the inbox is too full on entry; otherwise bytes are lost exactly when the messages exceed the maximum by more than one, or by one with bytes after it; in all other cases both ends stay consistent |
| Link.Link.FramesAreTight | src/net/connection.rs:721-902 | what a sender of framed messages put on the socket is a stream of full frames, from wherever the receiver left off |
| Link.OverflowLosesMessage | src/net/connection.rs:714-730 | with a maximum of zero, the second of two frames never arrives, however they are cut, even though the first message is taken out before reading on |
| Link.TwoPings | src/net/connection.rs:842-902 | such a pair of frames exists and fits into one read |
| Link.Link.EndToEnd | src/net/connection.rs:721-1116 | whatever was queued, and however the socket cut and delayed it, the other end has parsed a prefix of the messages, and all of them once all bytes are there |
| Wire.ReadNextVec | src/net/codec.rs:86-125 | the loop reads what the specification of a bounded vector reads, errors included |
| Wire.VecRoundTrip | src/net/codec.rs:86-125 | a vector within its bounds is read back, with the rest left over |
| Wire.VecCanonical | src/net/codec.rs:86-125 | an accepted vector is within its bounds and its bytes are its serialization |
| Messages.PreambleRoundTrip | src/net/codec.rs:289-358 | a preamble that the deserializer would not refuse is read back, whatever follows; where its fields stand is `Layout.PreambleLayout` |
| Messages.PreambleSize | src/net/codec.rs:289-302 | a preamble always takes 165 bytes |
| Messages.InvRoundTrip | src/net/codec.rs:383-408 | an inventory with bit vectors of the announced length is read back |
| Messages.ContentRoundTrip | src/net/codec.rs:1035-1143 | every well-formed payload of every kind is read back |
| Messages.ContentCanonical | src/net/codec.rs:1035-1143 | an accepted payload is well-formed and its bytes are its serialization |
| Messages.BodyTakesFive | src/net/codec.rs:1278-1284 | an accepted body takes at least five bytes |
| Messages.MessageRoundTrip | src/net/codec.rs:1145-1171 | a well-formed message is read back, with whatever follows left over |
| Messages.MessageIff | src/net/codec.rs:1145-1171 | the deserializer accepts exactly the serializations of well-formed messages |
| Layout.BigEndianAt | src/net/codec.rs:140-180 | byte i of a number, the most significant first |
| Layout.PreambleLayout | src/net/codec.rs:290-302 | the place of each of the ten fields in the 165 bytes of a preamble |
| Layout.PreambleReadIff | src/net/codec.rs:304-358 | 165 bytes are read as the preamble that they spell out exactly when its payload length is between 5 and 16778053 and its stable height is below its height; each refusal with its error |
| Layout.TypeByte | src/net/codec.rs:1035-1060 | the type byte of each kind of payload |
| Layout.FixedLayout | src/net/codec.rs:360-866 | the places of the fields of payloads of fixed size |
| Layout.HandshakeContent | src/net/codec.rs:735-800 | the places of the fields of a handshake, and of the heartbeat after an accept |
| Layout.InventoryContent | src/net/codec.rs:383-390 | the places of bit count and bit vectors in an inventory |
| Layout.NeighborsContent | src/net/codec.rs:668-694 | neighbour i takes the 38 bytes at 4 + 38 * i |
| Layout.AvailableContent | src/net/codec.rs:523-544 | block i takes the 52 bytes at 4 + 52 * i |
| Layout.BodyLayout | src/net/codec.rs:1145-1152 | a body is the number of relayers, 42 bytes for each, and the payload |
| Layout.RelayersLayout | src/net/codec.rs:872-878 | relayer i takes the 42 bytes at 4 + 42 * i, in the order address, port, key hash, sequence number |
| Layout.MessageLayout | src/net/codec.rs:1145-1152 | a message is its preamble, 165 bytes, and its body |
| Layout.ReadBackIff | src/net/codec.rs:289-1172 | a serialized message is read back exactly when it keeps the limits of the format, given in numbers |
| Inventory.CompressBools | src/net/codec.rs:419-441 | octet i holds flags 8i to 8i+7, lowest bit first; the length is that of the macro |
| Inventory.CompressedBit | src/net/codec.rs:443-464 | bit i of the vector is flag i, and false beyond the end |
| Inventory.FlagPlace | src/net/codec.rs:443-464 | eight flags a byte, the first in the lowest bit, in as many bytes as that takes |
| Inventory.CompressInjective | src/net/codec.rs:419-441 | different flags give different vectors |
| Inventory.InventoryAgrees | src/net/codec.rs:383-464 | any two flag lists survive the codec and are answered for flag by flag |
| Relays.SignRelay | src/net/codec.rs:1249-1276 | refuses exactly when the key is among the last fifteen relayers; otherwise keeps these, appends itself with the sequence number under which it received the message, and signs under its own |
| Relays.PathIff | src/net/codec.rs:1249-1276 | a message gets along a path exactly when nobody sees it again within fifteen hops; it then lists the last sixteen relayers |
| Relays.PathSpelled | src/net/codec.rs:1249-1276 | a path succeeds exactly when no key returns within fifteen hops; the message then lists the last sixteen relayers, each with the sequence number under which it received it |
| Relays.RelayedIsFramed | src/net/codec.rs:1229-1276 | a relayed message is a frame of its last relayer |
| Relays.CheckRelayerCycles | src/net/chat.rs:1525-1534 | accepts exactly the lists without two relayers of one key |
| Relays.CheckRelayersRemote | src/net/chat.rs:1537-1545 | accepts exactly the lists without our own address |
| Relays.PathHasNoCycle | src/net/chat.rs:1525-1534 | what a path of relayers delivers passes the check for cycles |
| ChainView.Conversation.constructor | src/net/chat.rs:487-525 | a new conversation has no view, no key and no request in flight |
| ChainView.Conversation.SetPublicKey | src/net/p2p.rs:1218-1227 | a conversation may start with a known key |
| ChainView.Conversation.Launch | src/net/connection.rs:944-957 | a request that has been sent is in flight |
| ChainView.Conversation.IsPreambleValid | src/net/chat.rs:660-723 | accepts exactly the preambles of our network and major version whose heights are the confirmations apart and whose stable hash does not contradict ours; the sum is checked for overflow |
| ChainView.Conversation.UpdateView | src/net/chat.rs:2182-2192 | the view stays the view of all accepted messages |
| ChainView.Conversation.Chat | src/net/chat.rs:2093-2257 | exactly the messages that count, up to the one that ends the loop, go into the view; success exactly when every message gets through; the key and the requests in flight are those that the messages leave behind |
| ChainView.Conversation.HandleMessage | src/net/chat.rs:2109-2192 | a message counts exactly when its preamble is valid, its handler accepts it, and the peer was authenticated or a request in flight expects it; that request is then answered; a key that the handler installed stays, even when the reply then fails |
| ChainView.CountedAreValid | src/net/chat.rs:2093-2192 | whatever counts is of our network and major version, has its heights the confirmations apart and does not contradict our hash |
| ChainView.StrangersDoNotCount | src/net/chat.rs:2120-2142 | a peer that never authenticates itself and that we asked nothing does not move our view |
| ChainView.FriendsCount | src/net/chat.rs:2120-2142 | every message of an authenticated peer counts, if all get through |
| ChainView.Conversation.HeightsApart | src/net/chat.rs:2182-2192 | over any run there is no view, or its heights are the confirmations apart |
| ChainView.ViewIsFirstHighest | src/net/chat.rs:2182-2192 | both halves of the view come from one message, the first of the highest |
| ChainView.ViewGrows | src/net/chat.rs:2182-2192 | neither height ever decreases |
| Base58.From | src/address/b58.rs:156-188 | for every UTF-8 string the in-place loop computes the specified decoding; the carry assertion and the table index never fail |
| Base58.MultiplyAdd | src/address/b58.rs:165-176 | one pass over the buffer multiplies it by 58 and adds the digit |
| Base58.ScratchLargeEnough | src/address/b58.rs:156-158 | 1 + len * 11 / 15 bytes hold every base-58 number of len digits |
| Base58.NextDigit | src/address/b58.rs:165-177 | the carry out of the buffer is zero |
| Base58.AfterAscii | src/address/b58.rs:160-164 | after an ASCII prefix of valid UTF-8 no byte is 128, so the guard with `>` is enough |
| Base58.TableMatchesAlphabet | src/address/b58.rs:24-153 | a character that the table maps to a digit stands at that place in the alphabet |
| Base58.EncodeIterUtf8 | src/address/b58.rs:213-253 | the encoding loop computes the specified encoding |
| Base58.DecodeEncoded | src/address/b58.rs:156-253 | decoding inverts encoding on every byte string, leading zeros included |
| Base58.EncodeDecoded | src/address/b58.rs:156-253 | encoding inverts decoding on every string over the alphabet |
| Base58.FromCheckIff | src/address/b58.rs:191-211 | a string is accepted with a payload exactly when it is the check encoding of that payload |
| Base58.CheckedSpells | src/address/b58.rs:279-282 | the text of checked data spells the data and, after it, the first four bytes of its digest |
| Base58.FromCheckIs | src/address/b58.rs:191-215 | a text is accepted exactly when its last four bytes are the first four of the digest of the rest; too short and bad checksums are reported as such |
| Crockford32.C32Encode | src/address/c32.rs:26-72 | the carry loop computes the specified encoding |
| Crockford32.C32Decode | src/address/c32.rs:84-140 | the carry loop computes the specified decoding, errors included |
| Crockford32.ByteStep | src/address/c32.rs:33-47 | every byte keeps digits and carry equal to the number read so far |
| Crockford32.DigitStep | src/address/c32.rs:106-115 | every digit keeps bytes and carry equal to the number read so far |
| Crockford32.DecodeEncoded | src/address/c32.rs:26-140 | decoding inverts encoding on every byte string |
| Crockford32.EncodeDecoded | src/address/c32.rs:26-140 | encoding inverts decoding on every normal string over the alphabet |
| Crockford32.DecodeNormalized | src/address/c32.rs:74-140 | decoding agrees with decoding the normal form exactly when no leading zeros run into a letter O |
| Crockford32.LetterOLosesAByte | src/address/c32.rs:84-140 | a lone letter O decodes to nothing, its normal form to a zero byte |
| Crockford32.CheckDecodeNormalized | src/address/c32.rs:177-213 | the check decoder gives the same result on the normal form |
| Crockford32.CheckDecodeIff | src/address/c32.rs:157-213 | it accepts exactly the texts whose normal form is the check encoding of nonempty data |
| Crockford32.AddressSpells | src/address/c32.rs:157-230 | an address is the letter S, the character of its version, and the spelling of data and checksum of version and data; versions from 32 on are refused |
| Crockford32.CheckDecodeIs | src/address/c32.rs:177-213 | the last four bytes have to be the checksum of version and data; otherwise both checksums are reported |
| Crockford32.AddressRoundTrip | src/address/c32.rs:215-226 | addresses of versions below 32 round trip exactly when there is data |
| Crockford32.AddressCanonical | src/address/c32.rs:215-226 | an accepted address is the address of what it decodes to, up to normalization |
| SyncPipeline.RunInv | src/burnchains/burnchain.rs:1113-1225 | in every state of every interleaving, with failures anywhere, each channel and thread holds the next item of the stream |
| SyncPipeline.StoredIsPrefix | src/burnchains/burnchain.rs:1173-1197 | the blocks stored are the images of a prefix of the headers, in order; a block is left out exactly when its height is zero |
| SyncPipeline.SomebodyMoves | src/burnchains/burnchain.rs:1113-1228 | no reachable state is deadlocked |
| SyncPipeline.RunsEnd | src/burnchains/burnchain.rs:1113-1228 | every run ends within ten steps per header and twelve more |
| SyncPipeline.InTransit | src/burnchains/burnchain.rs:1113-1225 | a successful feed leaves at most three headers between feeder and database |
| SyncPipeline.SyncedMeansStored | src/burnchains/burnchain.rs:1226-1254 | when the database was behind, or there were at least four headers, success means that every block up to the end is stored |
| SyncPipeline.SyncedIff | src/burnchains/burnchain.rs:1219-1254 | success is reported exactly when headers were all fed, the database thread ended well, and the last block stored, or the old tip, is at the end |
| SyncPipeline.SilentRun | src/burnchains/burnchain.rs:1113-1254 | with one to three headers a parse failure can go unnoticed |
| SyncPipeline.SuccessIsCompleteIff | src/burnchains/burnchain.rs:1113-1254 | success implies that everything is stored exactly when the database was behind the end, there are no headers, or there are at least four |
| SyncPipeline.EveryHeightStored | src/burnchains/burnchain.rs:1058-1254 | a successful sync that was behind, or that had four headers or more, stored every height above the lower of both tips, reorganized heights included, once, and returns the end |
| SyncPipeline.FetchIsCompleteIff | src/burnchains/burnchain.rs:1058-1254 | for a planned fetch, success implies completeness exactly under that condition on the heights and the number of headers |
| SyncPipeline.PlanSync | src/burnchains/burnchain.rs:1058-1106 | fetching starts at the lower of the tips of database and headers and ends at the lowest of headers, target and allowance; nothing is fetched only when the database is at the end and nothing was reorganized, or the end lies below both tips |
| SyncPipeline.LongestIsUnique | src/burnchains/burnchain.rs:1058-1106 | the range is determined by these bounds |
| SyncPipeline.ReadHeaders | src/burnchains/bitcoin/spv.rs:369-412 | the longest run of consecutive headers from the start |
| BurnOps.OpsAreSorted | src/burnchains/burnchain.rs:609-618 | true exactly for strictly increasing positions |
| BurnOps.ApplySafetyChecks | src/burnchains/db.rs:36-66 | succeeds exactly when positions differ and heights match; the result is a permutation in block order |
| BurnOps.FilterVrfDups | src/burnchains/burnchain.rs:624-652 | keeps exactly the first registration of each key, and everything else |
| BurnOps.FilterCommitsWithSameVrfKey | src/burnchains/burnchain.rs:658-714 | a commit stays exactly when every other commit for the key registered at the same block and position burns less, or as much and comes later; everything else stays |
| BurnOps.StaysIff | src/burnchains/burnchain.rs:658-714 | the same of the specification; a commit whose key nobody else consumes always stays |
| BurnOps.OneCommitPerKey | src/burnchains/burnchain.rs:654-714 | each consumed key keeps exactly one commit: the earliest of those that burn most |
| BurnOps.OneRegistrationPerKey | src/burnchains/burnchain.rs:620-652 | each registered key keeps exactly one registration, the earliest |
| BurnOps.FiltersKeepTheRest | src/burnchains/burnchain.rs:620-714 | both results are in block order and keep all other operations |
| BurnOps.FilterAgain | src/burnchains/burnchain.rs:620-714 | both filters are idempotent |
| BurnOps.FiltersCommute | src/burnchains/burnchain.rs:620-714 | the order of the two filters does not matter |
| Mempool.MemPool.constructor | src/core/mempool.rs:182-201 | a new table is empty |
| Mempool.FindByAddress | src/core/mempool.rs:723-748 | a row whose origin or sponsor slot is the given one, if any |
| Mempool.FindPrior | src/core/mempool.rs:796-806 | the holder of the origin slot, else the holder of the sponsor slot |
| Mempool.MemPool.TryAddTx | src/core/mempool.rs:779-871 | refuses exactly when the holder of the origin slot is in the fork and pays as much or more, or, if nobody holds it, the holder of the sponsor slot is and does; otherwise the transaction replaces exactly the rows that share a key with it, and the keys stay unique |
| Mempool.RefusedIff | src/core/mempool.rs:796-828 | the same as a statement about the table |
| Mempool.AcceptedAcrossForks | src/core/mempool.rs:808-820 | holders of its slots that pay less or are out of its fork do not keep a transaction out |
| Mempool.InForkIffPath | src/core/mempool.rs:246-273 | a tip is in the fork of another exactly when following parents leads to it |
| Mempool.MemPool.GarbageCollect | src/core/mempool.rs:875-881 | removes exactly the rows below the height |
| Mempool.ReplacesCheaperIff | src/core/mempool.rs:796-871 | replacement by fee holds for all replaced rows exactly when, if somebody holds the origin slot, the holder of the sponsor slot is out of the fork or paid less |
| Mempool.SponsorReplacedForLess | src/core/mempool.rs:796-871 | a cheap transaction can push out an expensive one by its sponsor slot |
| Mempool.GetNextTimestamp | src/core/mempool.rs:639-648 | the smallest later accept time at the tip, if any |
| Mempool.GetPreviousBlockHeight | src/core/mempool.rs:665-669 | the greatest lower height with transactions, if any |
| Mempool.GetTxsAt | src/core/mempool.rs:652-662 | all rows of the tip and time, once each, by origin nonce |
| Mempool.Walk | src/core/mempool.rs:393-490 | goes to the next populated height down when the ancestor there has transactions, and stops exactly when it has none; the unreachable branch is unreachable |
| Mempool.IterateCandidates | src/core/mempool.rs:499-594 | ends, and hands out whole batches, newer tips first and earlier times first, of exactly the transactions at the tips that the walk reaches |
| Mempool.SequenceIs | src/core/mempool.rs:499-594 | newer tips come first, at one tip earlier times, and at one time all transactions, once, by origin nonce |
| Mempool.HandedOnce | src/core/mempool.rs:499-594 | no transaction is handed out twice |
| Mempool.ForkHidesAncestor | src/core/mempool.rs:491-594 | in a table that keeps all three keys, a transaction of another fork can hide the older ones of this fork |
| Mempool.EveryAncestorReachedIff | src/core/mempool.rs:491-594 | given what `IterateCandidates` hands out, every transaction of this fork is handed out exactly when, from the oldest of them up, every height with transactions has some of this fork |
| PeerDb.TextMatchIff | src/net/db.rs:1130-1176 | comparing the first characters of the binary text is comparing under the mask, for every address, prefix and mask from 1 to 128 |
| PeerDb.MaskMatchIff | src/net/db.rs:1130-1176 | an address is in a range exactly when its first bits are those of the prefix |
| PeerDb.ToBinAt | src/util/hash.rs:669-675 | character j of byte q is its bit j, the highest first |
| PeerDb.ToBinInjective | src/util/hash.rs:669-675 | different addresses have different texts |
| PeerDb.IsAddressDenied | src/net/db.rs:1130-1143 | true exactly when some range matches under its mask |
| PeerDb.PeerDB.ResetDenies | src/net/db.rs:465-469 | nobody is denied, nothing else changes |
| PeerDb.PeerDB.ApplyCidrFilter | src/net/db.rs:1157-1176 | sets the column of exactly the rows whose text matches |
| PeerDb.PeerDB.RefreshDenies | src/net/db.rs:477-485 | afterwards a row is denied for good exactly when the lookup of its address says so, and not at all otherwise; row and lookup agree at every time before the largest 64-bit integer |
| PeerDb.PeerDB.AddDenyCidr | src/net/db.rs:1193-1204 | denies exactly the rows in the new range |
| PeerDb.PeerDB.IsPeerDenied | src/net/db.rs:794-817 | true exactly when the first row of the peer or its address is denied |

## Left out

- HTTP payloads of unknown length (`consume_payload_unknown_length`) and `stream_payload`: the inbox models families that announce their payload length.
- The codecs of blocks, microblocks and transactions, and the characters of URLs: parameters, required to be streaming where a statement needs it.
- Failure of `Preamble::sign` and of writing to memory: signing always yields a signature.
- SQLite itself: tables are sets, sequences or maps; errors of the database and `u64_to_sql` overflow are not modelled.
- `setup_chainstate`, `sync_reorg` and header download in `sync_with_indexer`: their results are parameters of `PlanSync`; a panic in a thread is not modelled.
- The deprecated pipeline that also evaluates sortitions, and everything after the filters (burn distribution, MARF, coordinator).
- Non-ASCII input of the Crockford codec: upper-casing of other letters is a library table.
- `NetworkReplyHandle` (polling, deadlines, writing into the pipe): a request is queued together with everything that will be written to it.
- Allow lists in the peer database, which repeat the deny lists with another column.
- Statistics, health scores, bandwidth, DNS, neighbour walks and the handlers of single message types: easy, floating point or input and output.
- Framing.OverlongIsRefused: the source compares the announced length cast to 32 bits, which changes nothing for the lengths that preambles can hold.
- Inbox.ConnectionInbox.RecvBytes: when a message does not fill its announced payload, an overflow is bounded from one side only, because then it depends on how the stream is cut; a further receive after a parse error is not modelled, because the source drops the connection.
- Routing.NetworkConnection.RecvData: does not model a second receive after one that failed to parse, because the source drops the connection.
- ChainView.Conversation.Chat: models the chain view, the peer key and the requests in flight; whether a handler fails, consumes a message or learns a key is a parameter of each message.
- ChainView.Conversation.HandleMessage: takes what the handlers do as parameters of the message, because they are not part of this model.
- Mempool.MemPool.TryAddTx: the row carries its accept time; the clock and the admission test before it are not modelled.
- PeerDb.PeerDB.IsPeerDenied: takes the time as a parameter.
