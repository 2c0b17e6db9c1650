# Verified model of the LZ4 codec, the LZ4 frame format, XXH32 and the DTLS handshake transport

The wallet stores rendered animation frames as LZ4 blocks (`app/jni/lottie.cpp:172-180`) and loads
them into buffers of exactly the size they came from (`app/jni/lottie.cpp:228`). This project models
the code such blocks go through, the container and checksum that go with it, and the part of
BoringSSL that carries handshake messages over datagrams.

- **Blocks.** `BlockFormat` is the independent reference: what a list of literals and matches
  means, how it is encoded, and a byte-at-a-time decoder. `BlockDecoder` and `FastDecoder` are
  the main loop and the fast loop of `LZ4_decompress_generic`, copy by copy, on an array.
  `BlockCompressor` is the fast compressor with its table reuse. `HcMatchFinder`, `HcSearch`,
  `HcLazyParser`, `HcOptimalParser` and `HcCompressor` are the chained index, the match search,
  the two parsers and the compression levels of `lz4hc.c`. Every compressor ends in the same
  statement, `DecodesTo(block, input)`: in either build of the decoder, and in any buffer large
  enough, whatever it held, the block decodes to the input.
- **Frames.** `FrameFormat` says what a frame is. `FrameDecoder` is the resumable state machine
  of `LZ4F_decompress` with the history of `DecoderHistory`; `FrameEncoder` is the encoding
  context. `FrameRoundTrip` puts them together for any list of calls on either side.
- **XXH32.** `Xxh32` has the one-shot hash and the streaming state in 32-bit arithmetic.
- **DTLS.** `ReplayWindow` and `DtlsRecord` are the replay window and the order of the checks
  around it; `ReassemblyMask`, `Reassembly` and `ReassemblyRun` receive fragments; `Flight`
  sends them; `HandshakeTransport` connects the two sides over a network that loses, repeats and
  reorders.

Conventions. Pointers are indices; input buffers are sequences and output buffers arrays. The
machine is 64-bit and little-endian. The hash functions of the match finders, the AEAD, the
transport's results and the frame codec's block compressor are parameters, so the theorems hold
for all of them. Arithmetic that wraps around in the source wraps around here (the 32-bit
lengths of the block decoder, XXH32, the block count of the frame bound, the 64-bit byte
counters, the 16-bit message numbers).

## Model

| member | source | states |
|---|---|---|
| Memory.WildCopy8Within | app/jni/lz4/lz4.c:303-311 | in whole strides of 8, at a distance of at least 8, the copy equals copying byte by byte, and nothing outside its strides changes |
| Memory.WildCopy32Within | app/jni/lz4/lz4.c:349-359 | the same in strides of 32, made of two 16-byte copies, at a distance of at least 16 |
| BlockDecoder.ReadVariableLengthLoop | app/jni/lz4/lz4.c:1567-1587 | the loop computes the 32-bit wrapped sum of the length bytes, where it stops, and whether it ran past the limit, as the recursive reading does |
| BlockDecoder.LongDistanceCopy | app/jni/lz4/lz4.c:313-314 | copying from any multiple of the period back continues the period; the two tables pick such a multiple |
| BlockDecoder.CopyThroughTables | app/jni/lz4/lz4.c:1925-1938 | after the first eight bytes of an overlapping copy, for every offset below 8, the match pointer is a whole number of periods back and the bytes repeat with that offset |
| BlockDecoder.CopyMatchWithin | app/jni/lz4/lz4.c:1925-1956 | for every offset and length the bytes written are the overlapping byte-by-byte copy; fails exactly if the match reaches into the last 5 bytes |
| BlockDecoder.Shortcut | app/jni/lz4/lz4.c:1783-1825 | the 16-byte and 18-byte copies do what the full decoding of the sequence would do, also when the second stage does not apply |
| BlockDecoder.SafeLoop | app/jni/lz4/lz4.c:1772-1972 | on every input, from every position, it stays inside both buffers, succeeds exactly if the byte-at-a-time reading does, and leaves that reading's bytes |
| FastDecoder.MemcpyUsingOffset | app/jni/lz4/lz4.c:322-390 | for every offset below 16 the destination continues the bytes before it with that period over every stride written, and nothing else changes; at offset 0 it repeats what was there |
| FastDecoder.SameDecision | app/jni/lz4/lz4.c:1651-1733 | one turn of the fast loop accepts, rejects or hands over exactly where one turn of the main loop would do the same |
| FastDecoder.FastLoop | app/jni/lz4/lz4.c:1644-1770 | the wide copies and the two jumps into the main loop leave the bytes of a byte-at-a-time reading of the whole buffer, scribbles included |
| FastDecoder.FastIsSafe | app/jni/lz4/lz4.c:1644-1770 | from every position the two loops accept the same blocks with the same length, and give the same bytes if and only if every match at offset 0 finds zeros |
| FastDecoder.BuildsAgree | app/jni/lz4/lz4.c:1595-1984 | the builds with and without the fast loop always agree on acceptance and length; their bytes differ if and only if a match at offset 0 meets scribbled bytes |
| FastDecoder.AgreeWithoutZeroOffset | app/jni/lz4/lz4.c:1644-1770 | without offset 0 in the block, the two builds return the same |
| FastDecoder.BuildsDiffer | app/jni/lz4/lz4.c:1759-1767 | a 26-byte block on which they differ, for every content of a 128-byte buffer |
| FastDecoder.LZ4_decompress_safe | app/jni/lz4/lz4.c:1595-1984 | in either build, for every input and buffer: terminates inside both buffers, negative exactly if the build's reference rejects, and otherwise that reference's length and bytes |
| DecoderTheorems.SafeDecodeIsSound | app/jni/lz4/lz4.c:1567-1972 | whatever an input below 16843018 bytes decodes to is what the unbounded-integer reference decoder makes of it |
| DecoderTheorems.WrappingBlockIsMisread | app/jni/lz4/lz4.c:1569-1587 | a family of longer inputs, one for every length, that decode without an error to something else |
| DecoderTheorems.SoundnessLimit | app/jni/lz4/lz4.c:1569-1587 | for either build, acceptance means the reference decoding for all inputs of a length if and only if the length is below that limit |
| MatchCount.CommonLengthIsLongest | app/jni/lz4/lz4.c:527-550 | the count the next row computes agrees on its whole length and cannot be made longer |
| MatchCount.LZ4_count | app/jni/lz4/lz4.c:454-550 | the 8-byte, 4-byte, 2-byte and 1-byte steps give exactly the length of the common run before the limit |
| BlockCompressor.FindMatch | app/jni/lz4/lz4.c:866-923 | a match found is real, strictly behind and within 65535 bytes; every table entry stays behind the position, found or not, for any hash function and acceleration |
| BlockCompressor.CatchUp | app/jni/lz4/lz4.c:925-926 | walking back keeps the offset and the equality, and goes no further than the anchor |
| BlockCompressor.CheckSuffices | app/jni/lz4/lz4.c:1004-1029 | the check before a match length leaves room for its length bytes, wherever the match lies in the output, if and only if they are at most three more than a 256th of the length |
| BlockCompressor.CheckIsTooWeak | app/jni/lz4/lz4.c:1004-1029 | the shortest match length for which it does not |
| BlockCompressor.CompressGeneric | app/jni/lz4/lz4.c:764-1130 | every block returned decodes to the input, in either build and any buffer; no store passes the end of the buffer, unless an output limit was set and a match of more than 134655 bytes was misjudged, which the result says; fails only with an output limit; table entries stay behind the next input |
| BlockCompressor.Stream.PrepareTable | app/jni/lz4/lz4.c:714-760 | afterwards no stale entry can be read as a position of the next input: the table is empty, or its entries are behind the start index and 16-bit indices cannot overflow |
| BlockCompressor.Stream.CompressFastReset | app/jni/lz4/lz4.c:1164-1198 | over any sequence of calls on one state, with inputs and buffers of any size, each block decodes on its own to its own input, has at most the bound's size, and with a bound-sized buffer there always is one; only an input of more than 134655 bytes with a smaller buffer can be misjudged |
| BlockCompressor.LZ4_compress_fast | app/jni/lz4/lz4.c:1133-1153 | the same for a fresh state |
| BlockCompressor.StoreAndLoad | app/jni/lottie.cpp:172-180 | what the application stores with a bound-sized buffer it loads back unchanged into a buffer of exactly the original size |
| HcMatchFinder.Inserted | app/jni/lz4/lz4hc.c:117-135 | one insertion keeps both tables exact: heads are the last position of each hash, and a chain entry is the smaller of 65535 and the distance to the previous position with the same hash |
| HcMatchFinder.Index.Insert | app/jni/lz4/lz4hc.c:117-135 | the same for all positions up to the given one |
| HcMatchFinder.Index.Restart | app/jni/lz4/lz4hc.c:99-113 | after any earlier inputs the tables describe an empty index again, and the new start never passes 1 GB + 64 KB |
| HcSearch.PrefilterIsSafe | app/jni/lz4/lz4hc.c:259 | the two bytes compared first agree for every candidate that would improve on the longest match |
| HcSearch.SwapChain | app/jni/lz4/lz4hc.c:287-302 | the loop finds the largest chain step inside the best match and where it is |
| HcSearch.FollowPattern | app/jni/lz4/lz4hc.c:304-346 | jumping along a run of one byte never goes up, and what it returns is a real match or the earlier best one |
| HcSearch.InsertAndGetWiderMatch | app/jni/lz4/lz4hc.c:209-351 | the result is a real match wider than asked for, or nothing; with unlimited attempts and no short cuts, no candidate in the window gives a longer one |
| HcSearch.InsertAndFindBestMatch | app/jni/lz4/lz4hc.c:385-398 | with attempts for a whole window and no pattern analysis: the longest of all matches of at least 4 bytes within 65535 bytes, by a quantifier over all positions and lengths |
| HcEncoder.EncodeSequenceInto | app/jni/lz4/lz4hc.c:403-471 | writes exactly the encoding of the sequence behind what was there; with a bound-sized buffer it always fits, with a limit it leaves room for the last literals |
| HcLazyParser.SqueezeIsReal | app/jni/lz4/lz4hc.c:546-562 | moving the second match behind the first leaves both real, at least 4 long and with the same right edge |
| HcLazyParser.TakeFirst | app/jni/lz4/lz4hc.c:617-648 | encoding the first of three matches and going on with the other two keeps the order and every condition of the next label |
| HcLazyParser.NextStep | app/jni/lz4/lz4hc.c:512-648 | from one search to the next, over all labels and the restored match: the matches to encode are real and in order, the next search starts strictly further on, and the index is never asked to go back |
| HcLazyParser.CompressHashChain | app/jni/lz4/lz4hc.c:473-687 | terminates, and its block decodes to the input, or for a filled buffer to the part consumed; fails only with an output limit |
| HcOptimalParser.PriceIsSize | app/jni/lz4/lz4hc.c:1161-1185 | prices are the exact sizes of encoded sequences and literal runs |
| HcOptimalParser.LiteralsBehindMatch | app/jni/lz4/lz4hc.c:1338-1351 | a few literals behind a match are priced at their real size if and only if the run of literals before the match would need no further length byte for them |
| HcOptimalParser.PathIsValid | app/jni/lz4/lz4hc.c:1248-1397 | in a table whose every entry is a valid last step, the whole recorded path to any position consists of literals and real matches |
| HcOptimalParser.CheckFurther | app/jni/lz4/lz4hc.c:1302-1402 | the cost loop keeps every entry a valid last step, for the ordinary exit and for the immediate one |
| HcOptimalParser.ReverseTraversal | app/jni/lz4/lz4hc.c:1404-1422 | in place, the table of last steps becomes a table of next steps whose walk from 0 is exactly the recorded path followed by the last move |
| HcOptimalParser.CompressOptimal | app/jni/lz4/lz4hc.c:1216-1476 | terminates, and its block decodes to the input, or to the part consumed; fails only with an output limit |
| HcCompressor.Stream.CompressGeneric | app/jni/lz4/lz4hc.c:698-759 | the same for every level of the parameter table and every limit, with the size bound and the state that the next call relies on |
| HcCompressor.Stream.CompressFastReset | app/jni/lz4/lz4hc.c:837-852 | over any sequence of calls on one state, also after failures, at any level and for any buffer size, each block decodes on its own to its own input |
| HcCompressor.Stream.CompressDestSize | app/jni/lz4/lz4hc.c:877-884 | fails exactly for an empty buffer or an oversized input; otherwise the block fits and decodes to the consumed prefix |
| Xxh32.Finalize | app/jni/lz4/xxhash.c:290-348 | the 16-way switch with its fallthroughs processes all whole words, then all single bytes |
| Xxh32.XXH32 | app/jni/lz4/xxhash.c:352-416 | the stripe loop computes the hash that is defined by recursion over the input |
| Xxh32.State.Update | app/jni/lz4/xxhash.c:451-512 | takes the state of some data to the state of that data followed by the chunk, for all chunk sizes, with the 32-bit length counter and the sticky flag for large inputs |
| Xxh32.State.Digest | app/jni/lz4/xxhash.c:526-543 | from the state of some data, the hash of that data |
| Xxh32.HashChunks | app/jni/lz4/xxhash.c:437-543 | for every seed and every division into updates, the digest is the one-shot hash of the concatenation |
| BlockCodec.IndependentIsCodec | app/jni/lz4/lz4frame.c:738-804 | any block compressor whose output decodes to its input, whatever its tables hold, meets with the block decoder everything the frame theorems assume of a codec |
| BlockCodec.SpelledDecodesBehind | app/jni/lz4/lz4.c:2004-2011 | a block that spells its input behind a history, by the format's rules, decodes to it with every history that ends in that one, from the last 64 KB alone and without spare room |
| BlockCodec.LinkedIsCodec | app/jni/lz4/lz4frame.c:774-804 | so any compressor of such blocks, whatever its tables hold, is a codec for linked frames |
| FrameHeader.ReadNumbers | app/jni/lz4/lz4frame.c:1108-1193 | content size, dictionary number and checksum are read back from every valid header |
| FrameHistory.HistDecodes | app/jni/lz4/lz4frame.c:1645-1657 | a dictionary that ends with the last 64 KB of the output decodes every block as the whole output would |
| DecoderHistory.History.UpdateDict | app/jni/lz4/lz4frame.c:1279-1342 | in every branch, the dictionary ends with the last 64 KB of the output including what was just delivered, whether the block is complete or still waiting in the context |
| DecoderHistory.History.SaveHistory | app/jni/lz4/lz4frame.c:1783-1813 | the history is moved out of the caller's memory without losing what later blocks need or the part of a block still waiting |
| DecoderHistory.History.PlaceTmpOut | app/jni/lz4/lz4frame.c:1630-1643 | the next block is placed behind the history and inside the buffer, and a history longer than 64 KB is cut without losing the last 64 KB |
| FrameDecoder.Decoder.DecodeHeader | app/jni/lz4/lz4frame.c:1108-1193 | a header given whole or in parts is recognised, collected or decoded to the frame's parameters; a skippable frame is told apart |
| FrameDecoder.Decoder.Step | app/jni/lz4/lz4frame.c:1389-1781 | each of the stages keeps the invariant of where in the frame the context is, and consumes input or moves on in a way that cannot go on for ever |
| FrameDecoder.Decoder.Decompress | app/jni/lz4/lz4frame.c:1364-1818 | for any amount of input and room: the bytes written follow what was delivered before, the bytes in front of them in the caller's buffer stay, it stops only for want of input or room, and returns 0 exactly if the frame is complete |
| FrameDecoder.Decoder.OutIsPrefix | app/jni/lz4/lz4frame.c:1364-1818 | between any two calls, what has been delivered is a prefix of the frame's content |
| FrameDecoder.Decoder.MoreToCome | app/jni/lz4/lz4frame.c:1364-1818 | wherever a call may end with a size hint, part of the frame has not been consumed |
| FrameDecoder.DecodeFrame | app/jni/lz4/lz4frame.c:1364-1818 | for every valid frame, linked or not, checked or not, and every choice of chunks, places, room and stable buffers: the output is the frame's content, and exactly the frame is consumed |
| FrameEncoder.BoundIsEnough | app/jni/lz4/lz4frame.c:324-348 | the bound leaves room for all blocks, none of them smaller than its data, and the end of the frame, as long as the number of blocks fits 32 bits |
| FrameEncoder.Encoder.MakeBlock | app/jni/lz4/lz4frame.c:738-760 | a block decodes, with the content before it as history, to its source, and never takes more than the source and its overhead |
| FrameEncoder.Encoder.FitDict | app/jni/lz4/lz4.c:1427-1462 | renormalisation, a dictionary too small to be of use, and a block that lies over the dictionary: what is left of the dictionary is still the end of all content, and ends where it did |
| FrameEncoder.Encoder.Continue | app/jni/lz4/lz4.c:1464-1499 | after a block, the dictionary of the compressor is the end of all content, wherever the block lay |
| FrameEncoder.Encoder.LocalSaveDict | app/jni/lz4/lz4frame.c:806-811 | the history moves to the front of the internal buffer, stays the end of all content, and leaves room for a block |
| FrameEncoder.Encoder.CompressBegin | app/jni/lz4/lz4frame.c:599-701 | needs 19 bytes of room and nothing else; what goes out is the header of the requested frame |
| FrameEncoder.Encoder.CompressUpdate | app/jni/lz4/lz4frame.c:822-924 | fails exactly outside a frame or below the bound, changing nothing; otherwise blocks and buffered bytes together are all input so far, less than a block stays buffered, and at most the bound is written |
| FrameEncoder.Encoder.Flush | app/jni/lz4/lz4frame.c:935-971 | fails exactly if something is buffered and does not fit; otherwise nothing stays buffered |
| FrameEncoder.Encoder.CompressEnd | app/jni/lz4/lz4frame.c:983-1017 | never fails for space with LZ4F_compressBound(0, prefs); fails for the size exactly if one was announced and differs from the input modulo 2^64; what has gone out is then a frame of exactly the input |
| FrameEncoder.Encoder.FrameIsValid | app/jni/lz4/lz4frame.c:983-1017 | a finished frame whose announced size is right is valid and its content is the input |
| FrameRoundTrip.OptimalBSID | app/jni/lz4/lz4frame.c:304-316 | the smallest block size that holds all of the source, and never more than requested |
| FrameRoundTrip.CompressFrame | app/jni/lz4/lz4frame.c:350-418 | one call makes a frame of the source, and fails exactly if the buffer is smaller than LZ4F_compressFrameBound of the adapted preferences |
| FrameRoundTrip.EncodeFrame | app/jni/lz4/lz4frame.c:822-1017 | any list of updates and flushes between a begin and an end gives a valid frame of the concatenated input, except exactly if the announced size is wrong |
| FrameRoundTrip.RoundTrip | app/jni/lz4/lz4frame.c:822-1818 | encoded by any list of calls and decoded by any list of calls, the input comes back |
| ReplayWindow.BigEndianInjective | app/jni/boringssl/ssl/dtls_record.cc:128-136 | different 8-byte sequence numbers have different values |
| ReplayWindow.ToU64Be | app/jni/boringssl/ssl/dtls_record.cc:128-136 | the loop computes that value and it fits 64 bits |
| ReplayWindow.SlideBit | app/jni/boringssl/ssl/dtls_record.cc:160-169 | sliding the window, by any distance, leaves each bit saying whether its number was accepted |
| ReplayWindow.DiscardDecides | app/jni/boringssl/ssl/dtls_record.cc:140-150 | a bit of the map inside the window says exactly whether the number was accepted; newer numbers were not, and older ones are stale |
| ReplayWindow.Recorded | app/jni/boringssl/ssl/dtls_record.cc:171-174 | setting a bit makes the map describe the accepted numbers with this one |
| ReplayWindow.Bitmap.ShouldDiscard | app/jni/boringssl/ssl/dtls_record.cc:140-150 | true exactly for numbers accepted before and for numbers 64 or more behind the newest |
| ReplayWindow.Bitmap.Record | app/jni/boringssl/ssl/dtls_record.cc:152-175 | afterwards the map describes the accepted numbers with this one, wherever it lies; a stale one changes nothing |
| DtlsRecord.Reader.OpenRecord | app/jni/boringssl/ssl/dtls_record.cc:177-272 | over any run with any records no sequence number is accepted twice; a record is accepted exactly if it is well-formed, of this epoch, new, not stale, authentic and not too long; each outcome consumes what the source consumes |
| DtlsRecord.Reader.SetReadState | app/jni/boringssl/ssl/dtls_method.cc:81-95 | refused exactly if handshake data is left over; otherwise a new epoch keeps all that was accepted, and every record of it is new |
| DtlsRecord.Reader.ReadSequenceHasEpoch | app/jni/boringssl/ssl/ssl_lib.cc:2766-2774 | the assertion there holds if and only if the epoch is 0 or a record of the epoch has been accepted |
| DtlsRecord.AfterEpochChange | app/jni/boringssl/ssl/ssl_lib.cc:2770 | a run of one epoch change that ends where the assertion fails |
| HandshakeFormat.FragmentRoundTrip | app/jni/boringssl/ssl/d1_both.cc:459-473 | parsing undoes encoding, whatever follows the fragment |
| ReassemblyMask.BitRangeBit | app/jni/boringssl/ssl/d1_both.cc:201-205 | exactly the bits from start to end are set |
| ReassemblyMask.MarkRange | app/jni/boringssl/ssl/d1_both.cc:211-235 | exactly the bytes of the range are added to those marked, whether it lies in one mask byte or in many |
| ReassemblyMask.AllMarked | app/jni/boringssl/ssl/d1_both.cc:237-250 | true exactly if every byte of the message is marked |
| Reassembly.HmFragment.Mark | app/jni/boringssl/ssl/d1_both.cc:207-251 | the range has arrived, and the mask is dropped exactly if no byte is missing |
| Reassembly.HmFragment.Store | app/jni/boringssl/ssl/d1_both.cc:398-402 | the bytes land at their offset, and a message that agreed with the peer's still does, overlaps and repetitions included |
| Reassembly.Receiver.GetIncomingMessage | app/jni/boringssl/ssl/d1_both.cc:261-295 | the message's own slot, old or new; for a peer that repeats itself consistently, null exactly outside the window |
| Reassembly.Receiver.OpenHandshakeRecord | app/jni/boringssl/ssl/d1_both.cc:343-406 | a record adds exactly the messages and bytes of its fragments that are inside the window; records of honest pieces fail exactly for the rejected numbers |
| Reassembly.Receiver.OpenHandshake | app/jni/boringssl/ssl/d1_both.cc:297-406 | the same with the other record types, which change no message |
| Reassembly.Receiver.GetMessage | app/jni/boringssl/ssl/d1_both.cc:408-424 | hands out the next message exactly if it is complete, with the peer's type and body, and raw bytes that parse as that message unfragmented |
| Reassembly.Receiver.HasUnprocessedHandshakeData | app/jni/boringssl/ssl/d1_both.cc:440-457 | true exactly if there is a ChangeCipherSpec, or anything of a message other than the one in the caller's hands |
| Reassembly.Receiver.NextMessage | app/jni/boringssl/ssl/d1_both.cc:426-438 | moves the window on by one; what has arrived of all other messages stays; what was delivered are the peer's first messages in order |
| ReassemblyRun.Receive | app/jni/boringssl/ssl/d1_both.cc:297-438 | over every run with records of honest pieces, in any order, repeated and overlapping: each record adds to what is known all of its fragments but those beyond the window as it then stands, and nothing else; the run ends early exactly at a record with a fragment just past the window; and delivered are exactly the first messages all of whose bytes are known |
| ReassemblyRun.ReceivePaced | app/jni/boringssl/ssl/d1_both.cc:297-438 | if no record runs ahead of the window, delivered are exactly the first messages all of whose bytes are in the records, however long the run |
| ReassemblyRun.ReceiveFlight | app/jni/boringssl/ssl/d1_both.cc:297-438 | a flight of at most 7 messages whose bytes are all in the records comes out whole |
| ReassemblyRun.FragmentPastWindow | app/jni/boringssl/ssl/d1_both.cc:380-389 | an empty receiver fails on a fragment numbered 7 and ignores those numbered higher |
| Flight.ExactlyOnce | app/jni/boringssl/ssl/d1_both.cc:635-725 | for any sequence of records that leads from the start of the flight to a position, the pieces of each earlier message are, in order, its whole body; the current one is covered up to the offset; later ones not at all; each ChangeCipherSpec once |
| Flight.Sender.SealNextMessage | app/jni/boringssl/ssl/d1_both.cc:632-725 | the record is the next piece with its offset and length, fits the room, and the offset moves exactly past it; without progress nothing moves |
| Flight.Sender.SealNextPacket | app/jni/boringssl/ssl/d1_both.cc:727-771 | its records lead from the old position to the new one, and fit; the packet is not empty unless the current message cannot be sealed |
| Flight.Sender.SendFlight | app/jni/boringssl/ssl/d1_both.cc:773-818 | across any pattern of failed writes, the packets written so far lead from the start of the flight to where it stands, each within the MTU; it terminates, fails to write only if the transport does, and reports success only at the end of the flight; when a message cannot be sealed, the records of the unfinished packet are skipped, and for a refused message there are some exactly if the flight did not already stand at it |
| Flight.Sender.FlushFlight | app/jni/boringssl/ssl/d1_both.cc:820-825 | the same, and the flight is complete: the next message will start another one |
| Flight.SealErrorSkipsMessage | app/jni/boringssl/ssl/d1_both.cc:741-743 | a flight of two messages whose second cannot be sealed ends behind the first, and nothing was sent |
| Flight.Sender.Retransmit | app/jni/boringssl/ssl/d1_both.cc:827-836 | the same from the start of the flight, counting from the packets sent before |
| Flight.Sender.AddOutgoing | app/jni/boringssl/ssl/d1_both.cc:555-594 | a message after a complete flight starts a new one, otherwise it joins the end and what was sent still counts; it carries the current epoch, is refused exactly if there is no room or its size exceeds 32 bits, and extends the transcript and the message count unless it is a ChangeCipherSpec |
| Flight.Sender.SetWriteState | app/jni/boringssl/ssl/dtls_method.cc:97-107 | every message queued for the epoch that ends, and sendable until then, stays sendable with the keys of that epoch |
| HandshakeTransport.SentIsSlice | app/jni/boringssl/ssl/d1_both.cc:635-725 | every record the sender makes of a queued message is, for the receiver, one honest piece of that message |
| HandshakeTransport.ReceiveSent | app/jni/boringssl/ssl/d1_both.cc:297-836 | whatever packets and failed writes a flight was sent with, if every record gets through at least once, in any order and any number of times, the receiver hands over exactly the sender's messages |
| HandshakeTransport.SameTranscript | app/jni/boringssl/ssl/d1_both.cc:408-424 | the raw bytes handed over are the bytes the peer queued, so both transcripts agree |

`BlockFormat`, `BlockParse`, `BlockWriter`, `RoundTrip`, `FrameFormat`, `FrameHistory` and `FramePosition` hold
the definitions and lemmas these rest on. `RoundTrip.BlockDecodes` is the format's own theorem: every parse that
obeys the LZ4 block format's parsing restrictions decodes, in either build and in any buffer at least as large
as its content, to its meaning.

## Findings

Six places where the code does not do what one would expect. Each is kept as it is, reached at a concrete
input, and delimited by an exact condition.

| where | what happens | exactly when |
|---|---|---|
| app/jni/lz4/lz4.c:1569-1587 | lengths are summed in 32 bits, so a long enough run of 255s wraps around and the block decodes without an error to something else (`DecoderTheorems.WrappingBlockIsMisread`) | inputs of 16843018 bytes or more can be misread, shorter ones cannot (`DecoderTheorems.SoundnessLimit`) |
| app/jni/lz4/lz4.c:1759-1767 | at offset 0 the fast loop repeats whatever its wide copies left in the buffer, while the main loop writes zeros (`FastDecoder.BuildsDiffer`); both accept, with the same length | a match at offset 0 is met by the fast loop where the buffer does not hold zeros (`FastDecoder.BuildsAgree`) |
| app/jni/lz4/lz4.c:1004-1005 | with an output limit, the room for a match length is checked with a division by 256 where the format divides by 255, so a very long match is let through with too little room (`BlockCompressor.CheckIsTooWeak`) | the length bytes are more than three in excess of a 256th of the length (`BlockCompressor.CheckSuffices`); never for inputs of at most 134655 bytes, and never with a bound-sized buffer (`BlockCompressor.Stream.CompressFastReset`) |
| app/jni/boringssl/ssl/d1_both.cc:380-389 | fragments too far ahead are to be ignored, but the comparison is off by one against the window of `dtls1_get_incoming_message` (267-271), so a fragment just past the window fails the handshake (`ReassemblyRun.FragmentPastWindow`) | the message number is the next one plus 7 (`Reassembly.Receiver.OpenHandshakeRecord`) |
| app/jni/boringssl/ssl/d1_both.cc:741-743 | when sealing fails in the middle of a packet, the flight stays behind the records sealed before it, which were never sent, so that only a retransmission would send them (`Flight.SealErrorSkipsMessage`) | a message of another epoch, or one that is not one whole message, is reached, and the flight did not stand at it already (`Flight.Sender.SendFlight`) |
| app/jni/boringssl/ssl/ssl_lib.cc:2770 | the assertion that the newest number carries the current epoch fails after an epoch change (`DtlsRecord.AfterEpochChange`) | the epoch is not 0 and no record of it has been accepted yet (`DtlsRecord.Reader.ReadSequenceHasEpoch`) |

## Left out

- BlockCompressor.Stream.CompressFastReset: nothing is promised of a call whose result says that a match was misjudged (see Findings); the model stops there, also when the stores of the source would still happen to fit.
- BlockCompressor.LZ4_compress_fast: the heap allocation around it is not modelled.
- BlockCompressor.CompressGeneric: accelerations of 2^25 and more, for which `acceleration << 6` overflows a C int, are computed without overflow; the fillOutput path is left out, because shortening a match there does not restore the invariant of the table.
- Pointer tables (`byPtr`), dictionaries (`usingExtDict`, `usingDictCtx`, attached and loaded dictionaries, CDict) and the streaming block interfaces, apart from the bookkeeping of the history that frames rely on.
- 32-bit and big-endian variants, and the deprecated wrappers.
- Partial decoding, and `LZ4_decompress_fast`, which does not know the size of its input.
- FastDecoder.LZ4_decompress_safe: which negative number an error gives is not stated, and neither are the bytes beyond the returned length.
- HcSearch.FollowPattern: the pattern counters are modelled for a repeated byte, the only pattern the search accepts, and as their contract rather than word by word.
- Xxh32.State.Update: null input is not modelled; the 64-bit variant of the hash is left out.
- BlockCodec.LinkedIsCodec: that `LZ4_compress_fast_continue` and `LZ4_compress_HC_continue` make such blocks is assumed of them, as their search in external dictionaries is not modelled; nor is the second segment of history of the HC stream.
- FrameEncoder.Encoder.FitDict: the counter behind the renormalisation is not modelled, so it may happen before any block.
- FrameDecoder.Decoder.Decompress: the bytes of the caller's buffer behind the output are not described (a block decoded in place may leave something there); what it does on invalid frames (error codes depend on the path taken), a context reused after an error, and allocation failure are not modelled; checksums are computed over the bytes fed so far, by the theorem about XXH32 streaming.
- DecoderHistory.History.UpdateDict: that two separate buffers happen to lie next to each other in memory is not modelled; the internal buffers are sequences.
- FrameEncoder.Encoder.CompressUpdate: the number of blocks of one call is required to fit 32 bits, as LZ4F_compressBound_internal computes it; sources of 2^47 bytes and more are left out of the drivers.
- FrameEncoder.Encoder.CompressEnd: for a frame that was never begun only the size of the output is stated.
- FrameRoundTrip.CompressFrame: `LZ4F_compressFrame` with its context on the stack is left out.
- `LZ4F_getFrameInfo`, `LZ4F_decompress_usingDict` and `LZ4F_headerSize` on its own.
- DtlsRecord.Reader.OpenRecord: the AEAD is a function of the record; alerts are handed on but not processed; message callbacks are left out.
- DtlsRecord.Reader.SetReadState: the wrap-around of the 16-bit epoch is excluded.
- HcOptimalParser.PriceIsSize: entries of the table carry estimates (see LiteralsBehindMatch), so nothing is stated about the size of the cheapest path.
- Reassembly.Receiver.OpenHandshake: which alert goes with an error is left out.
- ReassemblyRun.Receive: the caller takes every message that is ready after each record, in the epoch without encryption; at most 65535 messages in a run.
- Flight.Sender.SendFlight: the write sequence numbers and the internals of sealing are left out (a cipher gives the length of its output); so are MTU discovery, timers, and clearing a flight when the handshake completes.
- The TLS handshake itself, certificate handling, all other cryptography, JNI glue and rendering.
