# telehash-c: a model and its proofs

This project models the parts of telehash-c whose correctness does not show from one function at
a time, and proves what they promise. `dafny verify dfyconfig.toml` checks all of it.

- **Handshakes and channel ids** (`Exchange`, `Handshake`, `Link`, `Channels`): the timestamps of two
  endpoints as a state machine over a network that loses, duplicates and reorders; the objects of
  `src/e3x/exchange.c` and `src/link.c` as classes proved against the functions the state machine uses.
- **P-256 arithmetic** (`Words`, `Vli`, `Product`, `Remainder`, `Inverse`, `Secp256r1`, `Ladder`,
  `OppositePoints`, `ChordPoints`): the word loops of `src/lib/uECC.c` on arrays, for every word count and every
  word size, against integers, the formulas of the point steps, and the scalars for which the ladder on top of
  them is right.
- **Stream transports** (`Chunks`, `ChunkStream`, `ChunkFormat`, `ChunkPeers`, `ChunkDelivery`,
  `Frames`, `FrameLink`): two peers over byte streams, for every schedule of writes, reads and receives.
- **The JSON packet** (`Js0n`, `JsonText`, `JsonHead`, `JsonRfc`, `RfcHeaders`, `Lob`, `LobText`, `EmptyKeys`,
  `Sorting`, `LobSort`): the byte scanner, a grammar of the headers it reads, the values of RFC 8259 among them,
  and in-place editing of a header as updates of a map.
- **Hashes, names and codecs** (`Sha256`, `Sha256Bits`, `Sha256Constants`, `Sha256Foo`, `Sha256Stream`, `Murmur`,
  `MurmurValues`, `Hashname`, `HashnameFold`, `Bits`, `Base32`, `Base64`, `CodecTables`, `Jwt`, `Xht`).

Loops and objects of the source are methods and classes here; each is proved against a function, and
the results below are about those functions and about whole runs of them.

## What the code does differently from what it promises

- **Handshakes.** A peer that has sent its current handshake is not always answered. If an earlier answer
  was lost, the other peer already holds the timestamp and stays silent (`LostAnswerGetsStuck`).
  `SyncConvergesExactlyWhen` and `ConvergesExactlyWhen` give the exact conditions; without loss there is no
  such case (`LosslessRunsConverge`).
- **Scalar multiplication.** The co-Z steps start from the difference of the x coordinates, so their comments
  hold only for finite points that are neither equal nor opposite. For a point of odd order n >= 5 the ladder
  keeps to that exactly when k <= n - 3 and not both k = 1 and n + 1 < 2^bits (`LadderCoveredExactlyWhen`);
  for P-256 it gives up k = 1, n - 2 and n - 1. On those it meets Q and -Q with two bits to go
  (`UnhandledMeetsOpposites`), and from there its formulas end at (0, 0) whatever the two bits are
  (`OppositesEndAtZero`), which `EccPoint_compute_public_key` reports as a failure.
- **Chunks.** A last data byte written alone is taken for the flush (src/util/chunks.c:233): the sender drops
  the packet without one, and the receiver holds its bytes until the next zero where a chunk begins, which
  ends the packet late, or runs them together with the next packet's bytes (`AfterLoneByte`). When neither
  comes, both peers stop (`LoneByteDeadlockIsReached`, `LoneByteDeadlocks`). With whole blocks written this
  happens exactly for packets one byte longer than a multiple of the chunk size (`LoneByteIsForced`); without
  such packets everything is delivered (`WorkDelivers`). The comment at src/util/chunks.c:229-230 says that a
  full chunk blocks; at that point `waiting` is already 0 and `cap` is at least 1, so that line never blocks.
  Only what is taken for the end of the packet at line 233 does.
- **Frames.** A packet of exactly eight bytes is never finished by the sender (`LeavesUnlessEight`), and a
  header cut by a call boundary is read from the wrong bytes (`SplitHeader`, `SplitHeaderRefused`).
- **Hashnames.** A usable key under the id `00` makes `hashname_vkeys` fail while the views from the other
  keys still have a name (`ViewsAgreeExactlyWhen`). The count of keys is a byte and wraps.
- **Tokens.** A token with an empty header, claims or signature encodes, but does not decode
  (`Jwt.RoundTrip`).
- **SHA-256.** The note at src/lib/sha256.c:128 doubts the length 2^32-1; the proof covers every length
  below 2^32 (`Sha256Stream.Hash`). In pieces, longer messages get the length modulo 2^32.
- **Packets.** The comma in front of a new member is left out of headers under 7 bytes. A header with members
  is that short exactly when its only member has an empty key and a value of one byte (`ShortExactlyWhen`).
  A key set next is then swallowed by that value and not found, unless it has a byte that ends a bare value
  (`EmptyKeyLosesComma`); with such a byte it may be found (`ColonKeyIsFound`). With the comma written,
  empty keys do no harm to the others (`SetWithComma`). Setting the empty key itself replaces the value of
  the first member (`EmptyKeySetsFirst`).
- **Text values.** `lob_set` escapes quotes and backslashes (src/lib/lob.c:380), `unescape` undoes quotes and
  newlines only (src/lib/lob.c:457-469). A text with a backslash never comes back as it was set, every other
  one that is not empty does (`ComesBackExactlyWhen`, `SetThenGet`).
- **JSON.** RFC 8259 allows the byte 127 in strings; the scanner does not (src/lib/js0n.c:59). Every other
  text of that grammar is read (`WriteIsRender`, `JumpTables`).

## Model

| member | source | states |
|---|---|---|
| `Exchanges.KeyOrdersAreOpposite` | src/e3x/exchange.c:42-49 | for equal-length keys the two sides compute orders 1 and 2, one each, if the keys differ, and 0 both if they are equal |
| `Exchanges.KeyOrderIsByFirstDifference` | src/e3x/exchange.c:42-49 | the order is 2 exactly when the own key has the lesser byte at the first position where the keys differ, 1 exactly when the peer's has, 0 exactly for equal keys |
| `Exchanges.FirstKeyIsEven` | src/e3x/exchange.c:94-112 | the side whose key sorts first raises `out`, and loads, to the least even timestamp from the given one on, the other side to the least odd one |
| `Exchanges.TakesOtherParity` | src/e3x/exchange.c:115-123 | the side whose key sorts first takes odd timestamps and the echo of its own, the other side even ones and the echo, and both only newer ones that are not behind `out` |
| `Exchanges.Exchange.constructor` | src/e3x/exchange.c:9-52 | the byte loop gives the order of the keys, and with it the first channel id |
| `Exchanges.Exchange.Out` | src/e3x/exchange.c:94-112 | raises `out` only to larger values and gives them the parity of the order; returns `out` |
| `Exchanges.Exchange.In` | src/e3x/exchange.c:115-123 | takes exactly the timestamps above `in`, not below `out`, with the peer's parity or equal to `out` |
| `Exchanges.Exchange.Sync` | src/e3x/exchange.c:141-162 | `out` follows `in` up; the channel-id check starts over exactly when the ephemeral id changes |
| `Exchanges.Exchange.NewId` | src/e3x/exchange.c:228-248 | hands out ids two apart, wrapping at 32 bits |
| `Exchanges.Exchange.CheckId` | src/e3x/exchange.c:228-248 | accepts exactly nonzero ids of the other parity above the last one accepted |
| `HandshakeProtocol.RunKeepsInv` | src/link.c:214-272 | every load, sync, resync, delivery, loss and duplication keeps `in <= out`, `in <= peer.out`, own parity or `in == out`, and the bounds on messages in flight |
| `HandshakeProtocol.SidesAreInterchangeable` | src/link.c:214-272 | exchanging the peers turns runs into runs, so what is stated of one peer holds of both |
| `HandshakeProtocol.Agreement` | src/e3x/exchange.c:94-147 | in every reachable state, if both peers have `in == out`, their `out` values are equal |
| `HandshakeProtocol.NewerIsNeverRefused` | src/link.c:239-260 | in every reachable state a handshake above the receiver's `out` passes the parity test, becomes `in` and `out`, and is answered with the same value |
| `HandshakeProtocol.DeliveriesTerminate` | src/link.c:214-272 | from every reachable state any sequence of deliveries is at most as long as a measure of the messages in flight and the two `out` values |
| `HandshakeProtocol.ConvergesExactlyWhen` | src/link.c:214-272 | from every reachable state with both sides loaded, all delivery orders end with equal `in` and `out` on both sides if and only if a condition on the two endpoints and the messages in flight holds |
| `HandshakeProtocol.SyncConvergesExactlyWhen` | src/link.c:358-365 | after a sync, all delivery orders converge unless the peer already holds the same timestamp, the sender still waits, and the echo is not in flight |
| `HandshakeProtocol.LosslessRunsConverge` | src/link.c:358-376 | in runs without loss, once anyone has sent, a quiet network means both links are up and hold the same timestamp |
| `HandshakeProtocol.LostAnswerGetsStuck` | src/link.c:239-260 | a run with one lost answer after which a sync leaves the sender waiting on a quiet network |
| `Links.Link.Load` | src/link.c:148-186 | idempotent; a new exchange starts with `out` from the clock in its own parity |
| `HandshakeProtocol.UpIsKept` | src/link.c:204-211 | in every reachable state a link is up exactly when it has taken a handshake; its peer is then loaded and not behind it, and no further move takes the link down |
| `Links.Link.Sync` | src/link.c:358-365 | sends the current `out`, if there is an exchange, a pipe and a timestamp |
| `Links.Link.Resync` | src/link.c:368-376 | moves `out` above its old value and sends it; ids and ephemeral stay |
| `Links.Link.ReceiveHandshake` | src/link.c:214-272 | does to the endpoint what the protocol's receive function does and sends its answer; says when the channel-id check is reset |
| `Links.Link.Open` | src/link.c:379-395 | the id of the open packet, or a fresh one, goes to the head of the list, unless it is 0 or the packet has no type |
| `Links.Link.ReceiveChannel` | src/link.c:277-317 | a known channel is processed; an unknown one is accepted exactly when it opens with an acceptable id |
| `Links.Link.HasChannel` | src/link.c:90-99 | finds exactly the listed nonzero ids |
| `Links.Process` | src/link.c:451-458 | the ended channels leave the list, the others keep their order |
| `ChannelIds.SidesNeverCollide` | src/e3x/exchange.c:228-248 | over all runs of both sides no id is handed out twice by either or both, no side accepts its own ids, and every newer id of the peer is acceptable |
| `ChannelIds.FirstKeyCountsFromTwo` | src/e3x/exchange.c:228-248 | over all runs the side whose key sorts first hands out 2, 4, 6 and so on, the other side 1, 3, 5 |
| `ChannelIds.ListedIdsAreDistinct` | src/link.c:277-317 | at every point of every run the listed ids are distinct and nonzero |
| `ChannelIds.AcceptedAtMostOnce` | src/e3x/exchange.c:228-248 | between two ephemeral keys accepted ids strictly grow, so none is accepted again |
| `Vli.Clear` | src/lib/uECC.c:207-213 | the words become zero and no other word changes |
| `Vli.Set` | src/lib/uECC.c:262-267 | copies the words and changes no other |
| `Vli.IsZero` | src/lib/uECC.c:217-223 | true exactly for the number 0 |
| `Vli.Cmp` | src/lib/uECC.c:271-284 | the sign of the difference of the two numbers, both ways |
| `Vli.Add` | src/lib/uECC.c:330-345 | result and carry are exactly the sum, also when arrays are shared |
| `Vli.Sub` | src/lib/uECC.c:349-364 | result and borrow are exactly the difference, also when arrays are shared |
| `Vli.Rshift1` | src/lib/uECC.c:315-325 | halves the number, words outside untouched |
| `Product.ColumnsAreProduct` | src/lib/uECC.c:411-440 | the columns of product scanning, each at its power of the base, add up to the product |
| `Product.MulAdd` | src/lib/uECC.c:369-407 | the three-word accumulator grows by exactly a * b |
| `Product.AddColumn` | src/lib/uECC.c:411-440 | one inner loop adds exactly its rows of the column and cannot overflow |
| `Product.Mult` | src/lib/uECC.c:411-440 | the 2n words hold exactly the product, for every n up to the base |
| `Remainder.NumDigits` | src/lib/uECC.c:232-240 | the words above are zero and the last one counted is not |
| `Remainder.NumBits` | src/lib/uECC.c:243-258 | the bit length of the number |
| `Remainder.HalveDouble` | src/lib/uECC.c:564-604 | halves a double-length number kept in two halves |
| `Remainder.Align` | src/lib/uECC.c:564-604 | the modulus times a power of two, with its top bit at the top of the double-length number |
| `Remainder.Mmod` | src/lib/uECC.c:564-604 | the remainder of any double-length number by any modulus with nonzero top word |
| `Remainder.ModMult` | src/lib/uECC.c:607-615 | (left * right) % mod for every word count and every modulus with nonzero top word, also when arrays are shared |
| `Inverse.Update` | src/lib/uECC.c:676-687 | exact halving modulo an odd modulus, the carry coming back as the top bit |
| `Inverse.SubtractMod` | src/lib/uECC.c:691-734 | exact subtraction modulo mod, the lost carry and the borrow cancelling |
| `Inverse.Iterate` | src/lib/uECC.c:691-734 | every branch keeps a = u * input and b = v * input modulo mod and the common divisors, and lowers a + b |
| `Inverse.ModInv` | src/lib/uECC.c:691-734 | for every odd modulus above 1: result * input is the greatest common divisor modulo mod, so it is 1 exactly when input and modulus are coprime; 0 for input 0 |
| `Secp256r1.TermsAreProduct` | include/curve-specific.inc:883-979 | the nine terms of section D.2.3 of FIPS 186-4 differ from the 512-bit product by a multiple of the prime |
| `Secp256r1.AddTerms` | include/curve-specific.inc:883-979 | eight words and a signed carry hold exactly t + 2s1 + 2s2 + s3 + s4 - d1 - d2 - d3 - d4 |
| `Secp256r1.MmodFast` | include/curve-specific.inc:883-979 | the product modulo the prime, for every 512-bit product |
| `Ladder.TestBit` | src/lib/uECC.c:227-229 | bit i of the number |
| `Ladder.Rung` | src/lib/uECC.c:784-854 | for two points whose sum and difference are apart as they are themselves, addC then add leave the sum in one point and the double in the other |
| `Ladder.CoveredExactlyWhen` | src/lib/uECC.c:797-830 | on mP and (m + 1)P both steps get points that are apart if and only if none of m, m + 1, 2m + 1 is a multiple of the order |
| `Ladder.Mult` | src/lib/uECC.c:857-900 | with any steps that do what their comments say on points that are apart, the ladder returns the scalar, with its implied top bit, times the point, if every rung gets such points |
| `Ladder.LadderCoveredExactlyWhen` | src/lib/uECC.c:857-913 | for every 0 < k < n and every point of odd order n >= 5, all rungs of the chosen scalar get points that are apart if and only if k <= n - 3 and not both k = 1 and n + 1 < 2^bits |
| `Ladder.UnhandledMeetsOpposites` | src/lib/uECC.c:857-913 | for every other k the ladder stands on Q and -Q, finite, when two bits are left, and all rungs before were covered |
| `Ladder.ScalarOneIsNotHandled` | src/lib/uECC.c:902-913 | for k = 1, unless n + 1 fills the bits, 2n + 1 is chosen and the rung on the multiples (n - 1)/2 and (n + 1)/2 is not covered |
| `OppositePoints.OppositesEndAtZero` | src/lib/uECC.c:784-900 | from coordinates of opposite points with two bits to go, the formulas of addC, add and the projection give (0, 0) for every modulus, every point and both bits |
| `ChordPoints.AddIsChord` | src/lib/uECC.c:788-813 | for residues modulo any m and any slope s of the chord, XYcZ_add gives the first point and the point of the chord law, x = s^2 - x1 - x2 and y = s (x1 - x) - y1, both with the difference of the x coordinates as Z |
| `ChordPoints.AddCIsChords` | src/lib/uECC.c:819-854 | XYcZ_addC gives the chord law's point for the second point turned over, and the one for the second point itself, with that same Z |
| `Ladder.RegularizeK` | src/lib/uECC.c:902-913 | the flag says whether k + n fills num_n_bits, and the chosen k + n or k + 2n has its top bit exactly there |
| `Ladder.RegularMult` | src/lib/uECC.c:915-933 | for every 0 < k < n and every point of odd order n >= 5, regularizing and multiplying gives kP if k <= n - 3 and not both k = 1 and n + 1 < 2^bits |
| `Chunks.FeedDecodes` | src/util/chunks.c:147-176 | the stack of chunks after any bytes means what decoding them one by one means |
| `Chunks.TakeMeaning` | src/util/chunks.c:84-144 | receiving removes exactly the first complete packet from what the stack means |
| `Chunks.WriteMirrored` | src/util/chunks.c:213-246 | any write except a lone last byte moves the receiver's view exactly as it moves the sender's place |
| `ChunkFormat.WritesFormat` | src/util/chunks.c:179-246 | writing everything offered puts a packet on the wire as chunks of a size byte, at most the cap, and that many bytes, and a zero, and then blocks, for every packet that is not one byte over a multiple of the cap |
| `ChunkFormat.FormatDecodes` | src/util/chunks.c:147-176 | decoding that format gives the packet, behind bytes held before, for every cap |
| `Chunks.LoneByteLosesFlush` | src/util/chunks.c:213-246 | a lone last byte drops the packet at the sender and leaves the receiver with all its bytes and no end |
| `Chunks.AfterLoneByte` | src/util/chunks.c:147-246 | data that follows is appended to the bytes left over, and the next zero where a chunk begins ends the packet, late or run together with that data |
| `Chunks.QueuedBetween` | src/util/chunks.c:74-246 | a packet queued after an acknowledgement was offered and before it is counted as written has that zero taken for its size byte |
| `Chunks.LoneByteIsForced` | src/util/chunks.c:179-246 | with whole blocks written the last byte goes alone exactly when the packet is one byte over a multiple of the cap |
| `ChunkStreams.ChunkStream.constructor` | src/util/chunks.c:34-52 | the cap made of the requested size, and an empty state |
| `ChunkStreams.ChunkStream.Send` | src/util/chunks.c:74-81 | queues the packet last |
| `ChunkStreams.ChunkStream.Append` | src/util/chunks.c:147-176 | copying whole blocks is feeding byte by byte; size bytes unblock and ask for an acknowledgement |
| `ChunkStreams.ChunkStream.Receive` | src/util/chunks.c:84-144 | finds the oldest flush and returns the data before it in order, with an acknowledgement due |
| `ChunkStreams.ChunkStream.Length` | src/util/chunks.c:179-197 | the number of bytes offered, starting a chunk if none is under way |
| `ChunkStreams.ChunkStream.Write` | src/util/chunks.c:200-210 | the bytes offered |
| `ChunkStreams.ChunkStream.WrittenBytes` | src/util/chunks.c:213-246 | the writer after any number of bytes, with every branch of the original |
| `ChunkPeers.PacketsArriveInOrder` | src/util/chunks.c:84-254 | over every run of two peers each has received a prefix of the packets given to the other, unchanged and in order; all finished ones when the wires are empty |
| `ChunkPeers.BlockedIsAnswered` | src/util/chunks.c:138-246 | in every quiet reachable state a blocked peer faces one with bytes to write |
| `ChunkPeers.WritableExactlyWhen` | src/util/chunks.c:179-246 | some write that is no lone last byte is possible exactly when there is something to write and it is not just that byte |
| `ChunkPeers.QueuedMeansProgress` | src/util/chunks.c:179-246 | in every quiet reachable state with a packet queued some peer can make such a write, unless all there is to write are lone last bytes |
| `ChunkPeers.OnlyLoneBytesBreakIt` | src/util/chunks.c:213-246 | in every reachable state a write keeps the round trip if and only if it is not a lone last byte |
| `ChunkPeers.LoneByteDeadlocks` | src/util/chunks.c:213-246 | a lone last byte towards a silent peer ends in a state where neither can write |
| `ChunkPeers.LoneByteDeadlockIsReached` | src/util/chunks.c:84-246 | a run of five moves from the start to such a state, for every cap and every one-byte packet |
| `ChunkDelivery.WorkIsBounded` | src/util/chunks.c:84-254 | without new packets the number of writes, reads and receives possible is at most a measure of the state |
| `ChunkDelivery.WorkDelivers` | src/util/chunks.c:84-254 | from every reachable state with no packet one byte over a multiple of the cap and none with only its last byte left, work that leaves none so is bounded, and when no more is possible each peer has received exactly the packets given to the other |
| `ChunkDelivery.WholeRunIsTidy` | src/util/chunks.c:179-246 | runs that write whole blocks and queue no such packet never leave only the last byte of a packet |
| `Frames.WritesTheStream` | src/util/frames.c:239-289 | over every run of the sender the bytes written and those remaining are the frames of the packets sent, in order |
| `Frames.HeaderIsLittleEndian` | src/util/frames.c:201-215 | the first four bytes of a header are the magic and the next four the length, lowest byte first, and are read back so |
| `Frames.LeavesUnlessEight` | src/util/frames.c:270-289 | a packet leaves after header and bytes exactly when it is not eight bytes long; an eight byte one stays for ever |
| `Frames.FedStream` | src/util/frames.c:171-237 | bytes of a stream of frames up to any place outside a header queue exactly the completed packets, and the receiver stands where the bytes end |
| `Frames.PacketsArriveInOrder` | src/util/frames.c:118-237 | over every run of feeds, split anywhere outside headers, and receives, the packets taken and waiting are the completed acceptable ones, each once, in order |
| `Frames.EndToEnd` | src/util/frames.c:101-289 | when the sender has nothing left and every byte has come, so has every packet |
| `Frames.SplitHeader` | src/util/frames.c:198-220 | a header cut by a call boundary is read right if and only if the bytes of the later call spell it again |
| `Frames.SplitHeaderRefused` | src/util/frames.c:205-215 | a header cut in the middle that is refused |
| `FrameLink.FrameState.Send` | src/util/frames.c:101-115 | queues packets of eight bytes and more, refuses others |
| `FrameLink.FrameState.Outbox` | src/util/frames.c:239-268 | drops emptied nodes and offers the header of the next packet if nothing is being written |
| `FrameLink.FrameState.Sent` | src/util/frames.c:270-289 | moves from header to packet to nothing, and says whether bytes remain |
| `FrameLink.FrameState.Receive` | src/util/frames.c:118-131 | hands out the first packet still in its node |
| `FrameLink.FrameState.Inbox` | src/util/frames.c:171-237 | the recursive reader is the specified one, including what it reads behind the data |
| `Js0n.Find` | src/lib/js0n.c:24-165 | the scanner loop is the step function run over the bytes, in key mode and in index mode |
| `JsonText.ReadsDeep` | src/lib/js0n.c:24-165 | below depth 1 a complete value of any shape is passed without touching index, depth or result |
| `JsonRfc.WriteIsRender` | src/lib/js0n.c:34-74 | every value of RFC 8259, written with any blanks, any of its escapes and any UTF-8 sequences and given by byte ranges of its own, is a complete value of the scanner's with the same text |
| `JsonRfc.JumpTables` | src/lib/js0n.c:34-74 | in every mode and for every byte the next mode is that of a table of literal bytes, and exactly the bytes it has nothing for end the scan with their offset |
| `JsonRfc.DepthAndRemain` | src/lib/js0n.c:101-163 | brackets outside strings move the depth by one, a lead byte announces one, two or three continuation bytes, nothing else changes either |
| `RfcHeaders.FindsFirst` | src/lib/js0n.c:24-165 | in the literal text of a header of plain keys and values of RFC 8259 the scanner finds the first value with the key, where it is written, inside its quotes if it is a string |
| `RfcHeaders.FindsNothing` | src/lib/js0n.c:24-165 | and nothing for a key that is not there |
| `JsonHead.ScanByKey` | src/lib/js0n.c:24-165 | on any header of plain keys and complete values the scanner finds the first member with the key and nothing if there is none, whatever the values contain |
| `JsonHead.ScanByIndex` | src/lib/js0n.c:24-165 | index mode finds keys at even and values at odd indices, and nothing beyond |
| `Lobs.FoundHasByteBefore` | src/lib/lob.c:483-507 | in any text at all a value found has a byte before it |
| `Lobs.PutUpdatesMap` | src/lib/lob.c:212-260 | replacing or appending a member is the update of one key of the map |
| `Lobs.SetTextIsHead` | src/lib/lob.c:212-260 | for members of plain or empty keys, with none yet or the comma in place, the edited text is that of the updated members |
| `Lobs.Lob.SetRaw` | src/lib/lob.c:212-260 | the header becomes the edited text for any key and any value; for a plain key and a complete value it is the text of the updated members, and the map changes at the key only |
| `Lobs.Lob.GetRaw` | src/lib/lob.c:483-494 | points at the text of the key's value, quotes included, exactly when the key is set; the empty key gets the first member's value |
| `Lobs.Lob.GetLen` | src/lib/lob.c:496-507 | the length of that text, 0 without one |
| `Lobs.Lob.Keys` | src/lib/lob.c:642-649 | the number of members |
| `Lobs.Lob.KeyAt` | src/lib/lob.c:541-548 | an even index gives the key of a member, nothing beyond the last |
| `Lobs.Lob.ValueAt` | src/lib/lob.c:541-548 | an odd index gives the unescaped text of a value without its quotes, nothing for an empty one |
| `Lobs.Unescape` | src/lib/lob.c:440-472 | escaped newlines and quotes become themselves, everything else stays |
| `Lobs.ReadAfterWrite` | src/lib/lob.c:212-260 | after any sequence of sets on an empty packet, the scan for any key finds exactly the text of the last value set for it, or nothing |
| `RfcHeaders.LastIsRead` | src/lib/lob.c:212-260 | after any sequence of sets of plain keys to values of RFC 8259, from an empty header on, the scan for a key finds the text of the last one set, byte for byte |
| `RfcHeaders.NothingIsRead` | src/lib/lob.c:212-260 | and nothing for a key never set |
| `LobText.ComesBackExactlyWhen` | src/lib/lob.c:369-472 | escaping a text and unescaping it gives it back if and only if it has no backslash |
| `LobText.Escape` | src/lib/lob.c:369-387 | the loop writes the text with a backslash before every quote and backslash, in quotes |
| `LobText.Set` | src/lib/lob.c:369-387 | the key is set to that string; for a plain key and UTF-8 text the packet is that of the updated members |
| `LobText.Get` | src/lib/lob.c:474-481 | the unescaped value of the key without its quotes, nothing for an empty one |
| `LobText.SetThenGet` | src/lib/lob.c:369-481 | a text that is set is what is got if and only if it is not empty and has no backslash |
| `EmptyKeys.ShortExactlyWhen` | src/lib/lob.c:237-248 | a header with members, whatever their keys, has fewer than the seven bytes the comma test asks for if and only if there is one member, with an empty key and a value of one byte |
| `EmptyKeys.SetWithComma` | src/lib/lob.c:212-260 | among members of plain or empty keys, with the comma written, a plain key set reads back with its value and every other nonempty key as before |
| `EmptyKeys.EmptyKeyLosesComma` | src/lib/lob.c:237-257 | behind a member with an empty key and any one-byte value, no plain key without a byte that ends a bare value is found, whatever complete value it is set to |
| `EmptyKeys.ColonKeyIsFound` | src/lib/lob.c:237-257 | a key with such a byte that is found there and reads back right |
| `EmptyKeys.EmptyKeySetsFirst` | src/lib/lob.c:219-236 | setting the empty key in a header that has members replaces the value of the first |
| `Sorting.FirstGap` | src/util/util.c:97-105 | a gap of the sequence 1, 4, 13, ... below the number of elements |
| `Sorting.Sink` | src/util/util.c:108-126 | permutes; with gap 1 it extends a sorted prefix by one |
| `Sorting.ShellSort` | src/util/util.c:89-132 | the array is sorted under strcmp and a permutation of what it was |
| `Sorting.LeIsByFirstDifference` | src/util/util.c:76-83 | one string is at most another exactly when it is a prefix of it or has the lesser byte at the first position where they differ |
| `LobSort.ArrangedKeysAscend` | src/lib/lob.c:651-684 | each key of the arrangement is a proper prefix of the next or has the lesser byte at the first position where they differ |
| `LobSort.ArrangementUnique` | src/lib/lob.c:651-684 | members with distinct keys have one arrangement in key order |
| `LobSort.Sort` | src/lib/lob.c:651-684 | the packet text is rewritten with its members arranged by key, every value and the body unchanged |
| `Hashname.ViewsAgree` | src/lib/hashname.c:48-183 | for any hash, any members with distinct keys and no usable 00, and any id, the name from the view with that key whole equals the name from all keys |
| `Hashname.ViewIsNamed` | src/lib/hashname.c:48-183 | a view has a name exactly when no key is too short and the number of usable hex ids is not a multiple of 256 |
| `Hashname.ViewsAgreeExactlyWhen` | src/lib/hashname.c:48-183 | view and name from all keys differ exactly for keys fit for a name that include a usable 00 |
| `Hashname.ZeroIsRefused` | src/lib/hashname.c:73-79 | with a usable 00 there is no name from all keys |
| `Hashname.OrderIndependent` | src/lib/hashname.c:91-101 | the name does not depend on the order of the members |
| `HashnameFold.HexIsLiteral` | src/util/util.c:7-66 | an id is spelled in the digits 0 to 9 and a to f and read back in either case, and exactly such pairs are ids |
| `HashnameFold.NameIsFold` | src/lib/hashname.c:48-101 | for any hash and keys under distinct hex ids other than 00, set in any order, the name is the fold over them in ascending order of sum := h(h(sum, id), h(key)), from nothing |
| `Hashname.SetBase32` | src/lib/lob.c:389-401 | the key is set to the base32 text of the bytes, and nothing else changes |
| `Hashname.MakeIm` | src/lib/hashname.c:147-183 | the intermediate packet has the specified members and body, or there is none; a key that does not decode leaves in the body what was decoded of it |
| `Hashname.RollIn` | src/lib/hashname.c:69-83 | the 64-byte buffer rolls in id and key, the first member without the sum before it |
| `Hashname.NameFromIm` | src/lib/hashname.c:48-89 | sorts the packet and rolls up its keys to the specified name or failure |
| `Hashname.NameFromKeys` | src/lib/hashname.c:91-101 | the name from all keys, by way of the intermediates |
| `Sha256.RollingStep` | src/lib/sha256.c:98-104 | the sixteen-word buffer always holds the next sixteen words of the 64-word schedule |
| `Sha256.Compress` | src/lib/sha256.c:93-126 | the block function of section 6.2.2 of FIPS 180-4 |
| `Sha256Bits.BigSigma0Bit` | src/lib/sha256.c:73-81 | bit i of the result is the exclusive or of bits i + 2, i + 13 and i + 22 of the word, around it |
| `Sha256Bits.BigSigma1Bit` | src/lib/sha256.c:83-91 | the same with 6, 11 and 25 |
| `Sha256Bits.SmallSigma0Bit` | src/lib/sha256.c:55-62 | the same with 7 and 18, and 3 with zeros from above |
| `Sha256Bits.SmallSigma1Bit` | src/lib/sha256.c:64-71 | the same with 17 and 19, and 10 with zeros from above |
| `Sha256Bits.ChoiceBits` | src/lib/sha256.c:105-106 | bit by bit, a bit of the first word chooses between the others, and the majority of three |
| `Sha256Constants.ConstantsAreCubeRoots` | src/lib/sha256.c:36-43 | constant t is the first 32 bits of the fractional part of the cube root of the prime number that has t primes below it |
| `Sha256Constants.InitialIsSquareRoots` | src/lib/sha256.c:131 | word t of the initial value comes so from the square root of that prime |
| `Sha256Foo.FooDigest` | test/lib_sha.c:7-10 | the digest of "foo" is the published one, schedule word by schedule word and round by round |
| `Sha256.BegunStep` | src/lib/sha256.c:152-155 | or-ing a byte, or exclusive-or-ing the mark, extends the big-endian words of the block by that byte |
| `Sha256Stream.LastBlocks` | src/lib/sha256.c:148-166 | the last one or two compressions are those of the padded message of section 5.1.1 of FIPS 180-4 |
| `Sha256Stream.Hash` | src/lib/sha256.c:129-175 | the digest of FIPS 180-4 for every message under 2^32 bytes |
| `Sha256Stream.Context.Fill` | src/lib/sha256.c:191-197 | bytes go into the block until it is full or the source is used up |
| `Sha256Stream.Context.Partial` | src/lib/sha256.c:179-230 | the context has absorbed exactly the bytes given; on the last call the digest of all of them |
| `Sha256Stream.Context.Init` | src/lib/sha256.c:232-235 | nothing absorbed |
| `Sha256Stream.Context.Update` | src/lib/sha256.c:237-240 | the bytes, as many as a 32-bit length says, are appended to what was absorbed |
| `Sha256Stream.Context.Final` | src/lib/sha256.c:242-245 | the digest of what was absorbed, with its length modulo 2^32 |
| `Sha256Stream.HashParts` | src/lib/sha256.c:179-245 | for every split of a message under 2^32 bytes into updates the digest is that of the whole message; otherwise that of what the updates took, with its length modulo 2^32 |
| `Murmur.RunningByte` | src/lib/murmur.c:184-193 | a byte shifted into the carry keeps the carry equal to the unprocessed bytes, and the fourth completes a word |
| `Murmur.RunningWord` | src/lib/murmur.c:235-267 | for every carry count the merged word and the new carry cover exactly four more bytes |
| `Murmur.Bytes` | src/lib/murmur.c:184-193 | any bytes taken one at a time keep the running state |
| `Murmur.Process` | src/lib/murmur.c:199-279 | both builds, at every address, add exactly the bytes of the key to the running state |
| `Murmur.Result` | src/lib/murmur.c:284-302 | the hash of everything processed, from the running hash and the carried bytes |
| `Murmur.HashParts` | src/lib/murmur.c:199-302 | for every split, every placement of the pieces and either build of each call, the hash is that of the whole message |
| `Murmur.Hash` | src/lib/murmur.c:307-312 | all at once, the same |
| `MurmurValues.FooBar` | test/lib_murmur.c:12 | the hash of "foo bar" is 0x0a329c57 |
| `MurmurValues.ShortValues` | src/lib/murmur.c:284-302 | the published values for two bytes, one and none |
| `Base32.Encode` | src/lib/base32.c:70-98 | the bit string of the data regrouped in fives, as far as the buffer goes |
| `Base32.Decode` | src/lib/base32.c:24-67 | the whole bytes in the digits, blanks skipped and mistyped digits forgiven; nothing counts if a bad character comes before the buffer is full; a length of 0 reads up to the terminator |
| `Base32.LengthsAgree` | src/lib/base32.c:100-108 | the decoded floor of the encoded length is the length |
| `Base32.RoundTrip` | src/lib/base32.c:24-108 | decoding the encoding of any bytes gives them back |
| `CodecTables.Base32Characters` | src/lib/base32.c:70-98 | character j of an encoding is the one in `abcdefghijklmnopqrstuvwxyz234567` for bits 5j to 5j + 4 of the data |
| `CodecTables.Base32Reading` | src/lib/base32.c:31-53 | what every single character adds to a reading: letters of both cases and 2 to 7 their digits, 0, 1 and 8 those of O, L and B, blanks and hyphens nothing, any other ends it |
| `CodecTables.Base32Bytes` | src/lib/base32.c:55-60 | byte k of a decoding is made of bits 8k to 8k + 7 of the digits |
| `Base64.Encode` | src/lib/base64.c:73-109 | the bit string regrouped in sixes and padded with `=` to whole groups, the length returned without padding |
| `Base64.Decode` | src/lib/base64.c:7-68 | the whole bytes in the digits, nothing for an impossible length or a bad character; the same count without a place to save to |
| `Base64.RoundTrip` | src/lib/base64.c:7-109 | decoding the returned length of an encoding gives the data back, whatever follows in memory |
| `CodecTables.Base64Characters` | src/lib/base64.c:73-109 | character j of an encoding is the one of section 5 of RFC 4648 for bits 6j to 6j + 5 of the data |
| `CodecTables.Base64Digit` | src/lib/base64.c:13-22 | a character has the digit of its place in that alphabet, `+` and `/` those of `-` and `_`, and no other has any |
| `CodecTables.Base64Bytes` | src/lib/base64.c:33-64 | byte k of a decoding is made of bits 8k to 8k + 7 of the digits |
| `Jwt.Encode` | src/lib/jwt.c:69-89 | three encoded sections joined by dots, over each other's padding; nothing without claims |
| `Jwt.Decode` | src/lib/jwt.c:16-54 | the specified parse: an empty section is read on up to the terminator |
| `Jwt.RoundTrip` | src/lib/jwt.c:16-89 | decoding an encoded token gives it back exactly when header, claims and signature are nonempty, and fails otherwise |
| `Xht.StoredValue` | src/lib/xht.c:72-106 | storing in a chain changes the value of one key only, whichever node it takes |
| `Xht.WalkIsMap` | src/lib/xht.c:171-183 | the nodes visited are exactly the bindings of the map, no key twice |
| `Xht.Table.constructor` | src/lib/xht.c:53-69 | an empty map |
| `Xht.Table.NodeFind` | src/lib/xht.c:44-50 | the first node with the key |
| `Xht.Table.Set` | src/lib/xht.c:72-106 | the table is the old map with the key bound, or unbound for NULL, for every hash and every number of chains |
| `Xht.Table.Get` | src/lib/xht.c:136-144 | the value the map has for the key |
| `Xht.Table.Walk` | src/lib/xht.c:171-183 | the walker is called once for every bound key, with its value, and for nothing else |

## Left out

- Encryption, signatures, ephemeral key generation and random numbers: handshakes are authentic and keys arbitrary byte strings.
- `e3x_exchange_down` and `link_down`: they set `out` back to 0, which the handshake results exclude.
- 32-bit wrap-around of handshake timestamps and channel ids: the methods wrap, the runs stop before it.
- Links.Link.ReceiveChannel: what channels do with a packet is a parameter, the set of channels that end.
- Constant-time claims, the assembly variants, `uECC_vli_square` and the variant of `muladd` for 64-bit words without a 128-bit type.
- Ladder.Rung: that the steps add points that are apart is taken from their comments, in any commutative group; ChordPoints proves their formulas to be the chord law, not that the chord law is a group or that it doubles.
- Ladder.Mult: the final projection to affine coordinates, which also needs coordinates of the point that are not 0, is not modelled for the scalars the ladder handles.
- Ladder.UnhandledMeetsOpposites: that opposite points with a common Z have equal x and opposite y is where OppositePoints starts, not proved.
- OppositePoints.OppositesEndAtZero: the steps are functions on coordinates, not updates of word arrays.
- The other curves, square roots, point compression and ECDSA.
- ChunkPeers.PacketsArriveInOrder: `util_chunks_write` and `util_chunks_written` are one step of a run, as in the callers under src/net; what a `util_chunks_send` between them does is in Chunks.QueuedBetween only.
- The frame interface of chunks (`util_chunks_frame`, `util_chunks_chunk`, `util_chunks_peek`, `util_chunks_next`).
- Frames.HeaderIsLittleEndian: the code copies the fields in the byte order of the machine.
- The interrupt flags `is_sending` and `is_receiving` of frames: one thread at a time.
- Whether a byte string parses as a packet (`lob_parse`, `lob_direct`): a parameter of the frame receiver.
- The cache of `lob_get_index`, and headers set from outside that have escaped or duplicate keys.
- Lists of packets (`lob_push`, `lob_splice` and the like), number formatting, `lob_set_json`.
- The ELF string hash of the table, `xht_iter`, `xht_store` and freeing: any string hash, chains as sequences of nodes.
- HMAC and HKDF on top of SHA-256, the byte-string wrappers of murmur, and signing and verifying of tokens.
- Memory: allocation failure, freeing and buffer sizes of callers; buffers are sequences or arrays of the size needed.
