# Block transport protocol — a verified model

The repository streams media and control data from a sender to a receiver as
*essence blocks*. An essence block is a packed 24-byte header followed by a raw payload.
The header fields are:

- sync: the magic number 0x78563412, which appears on the wire as 12 34 56 78;
- size;
- essence type: ED = 0, NULL = 1, SMT = 2, EA = 3, unknown = 0xff;
- program index;
- stream type;
- stream index;
- a 64-bit timestamp in 90 kHz ticks;
- payload size.

On the sender:
- A media producer pushes one announcement (EA) block describing the input's streams, then one data (ED) block per demuxed packet.
- A table producer pushes, every five seconds, a manipulation table (SMT). Its single action alternates between add_image, which carries a base64 image, and remove_image.
- Both push onto a FIFO transfer queue.
- The muxer loop pops each block and restamps it with the 90 kHz clock. It writes the block and caches the latest announcement of each program.
- While the queue is empty, the muxer pads the output with NULL blocks once per bitrate window. Once per announcement period it re-emits every cached announcement, in ascending program order.
- The UDP writer cuts every write into chunks of at most 1024 bytes. It retries a blocked send and gives up on any other error.

On the receiver:
- A resynchronising reader appends the received bytes to an accumulator. Whenever the accumulator ends in the sync marker and holds at least a header, it hands the whole accumulator on and keeps the marker. An accumulator growing past 4 MiB is discarded.
- The render parser binds the program and the first video and audio streams from the *first* announcement, and opens the video decoder.
- It routes ED blocks of that program's video stream to the decoder.
- It keeps a single overlay slot. add_image loads the overlay image and takes the action's id. remove_image clears the overlay only when its id is the current one.

## How the model is built

- Fixed-width header fields are Dafny subset types. Every narrowing assignment of the C++ is written out as `U8`/`U32`/`U64`.
- `EncodeHeader`/`DecodeHeader` make the packed little-endian layout explicit.
- A block buffer is the class `EssenceBlock.Block`: a header record plus a payload sequence whose length is the allocated capacity.
- The transfer queue, the muxer, the 90 kHz clock, the reader, the parser and the table producer are classes. Their methods update the fields the source updates, and each is proved against a specification function:
  - the reader's `Step` and `Feed`;
  - the parser's `Dispatch` and `Run`;
  - the base64 functions `Encoding` and `Decoding`;
  - the muxer's `RenewalWrites`.
- The lemmas state the protocol's promises about those functions.

Library calls are inputs:
- the clock;
- `sendto`, as one outcome per call;
- the JSON parser and serialiser;
- the decoder lookup and open;
- the texture load;
- the demuxer's packets;
- the image files.

The module `Pipeline` connects producers and receiver. It proves the following:
- The table producer's alternating actions, received one table at a time, leave the overlay exactly as its last add or remove says.
- The media producer's announcement followed by its packets, with whatever timestamps the muxer stamps on them, delivers to the decoder exactly the packets of the first announced video stream, in order. This holds when that stream's decoder opened and the program index fits the header's byte. Otherwise nothing is delivered, because the sender truncates the program index to 8 bits in the header but the JSON document carries it in full.

Where the code differs from the protocol's stated design, the model follows the code:
- The reader hands the *whole* accumulator to its sink: the block followed by the next block's four marker bytes. It does no parse and no sync or length check.
- The JSON parser is total here. The source lets a malformed document throw rather than dropping the block.
- The writer retries a blocked send without bound. This becomes the precondition that the outcome oracle settles every chunk eventually.

## Model

| member | source | states |
|---|---|---|
| Bytes.U8 | src/ffmpeg_producer.h:35-38 | truncation to a byte is the identity on 0..255 and otherwise agrees with the value modulo 256, as a C assignment to a uint8_t field |
| Bytes.U32 | src/smt_producer.h:16 | truncation to 32 bits is the identity on 0..2^32-1 and otherwise agrees modulo 2^32 |
| Bytes.U64 | src/ffmpeg_producer.h:38 | truncation to 64 bits is the identity on 0..2^64-1 and otherwise agrees modulo 2^64 (pts and the action id counter) |
| Bytes.FromLEOfLE | src/essence_block.h:19-33 | reading back the n-byte little-endian encoding of x gives x |
| Bytes.LEOfFromLE | src/essence_block.h:19-33 | every byte window is the encoding of the value it reads as |
| Bytes.FromLEInjective | src/udp_reader.h:105-106 | two windows of equal width with the same host-order value are equal |
| EssenceBlock.EncodeHeader | src/essence_block.h:19-33 | the packed header is exactly 24 bytes |
| EssenceBlock.DecodeEncodeHeader | src/essence_block.h:19-33 | decoding the encoded header returns every field unchanged |
| EssenceBlock.EncodeDecodeHeader | src/essence_block.h:19-33 | every 24-byte window is the encoding of the header it decodes to, so the layout has no redundant bytes |
| EssenceBlock.SyncOnWire | src/essence_block.h:8 | a header carrying 0x78563412 starts with the bytes 12 34 56 78 |
| EssenceBlock.SyncMarkerIsMagic | src/udp_reader.h:105-106 | 12 34 56 78 is the one 4-byte window whose host-order word is the magic number |
| EssenceBlock.Serialize | src/muxer_consumer.h:49 | a block's wire form is size + payload_size bytes: the header, then the live payload |
| EssenceBlock.SerializeParses | src/muxer_consumer.h:49 | the wire form decodes back to the header, followed by exactly the live payload |
| EssenceBlock.Block.Create | src/essence_block.h:36-44 | a new block has sync 0x78563412, size 24 and a zero-filled payload of the requested capacity |
| EssenceBlock.Block.CopyIn | src/ffmpeg_producer.h:42-43 | the memcpy into the payload replaces its first bytes, keeps the rest and the capacity |
| EssenceBlock.Block.Clone | src/essence_block.h:46-50 | the clone is fresh, has capacity payload_size and the same header and live payload, so its first size + payload_size bytes equal the source's |
| EssenceBlock.Destroy | src/essence_block.h:52-57 | the pointer is null afterwards, whether or not it was null before |
| TransferQueue.Queue.constructor | src/queue_thread_safe.h:9 | a new queue is empty |
| TransferQueue.Queue.Push | src/queue_thread_safe.h:14-18 | the value is appended at the back; nothing queued before changes |
| TransferQueue.Queue.Pop | src/queue_thread_safe.h:20-26 | requires a non-empty queue (the wait); returns the front element and removes exactly it |
| TransferQueue.Queue.Empty | src/queue_thread_safe.h:28-31 | true exactly when nothing is queued; changes nothing |
| TransferQueue.RunIsFifo | src/queue_thread_safe.h:14-26 | over any sequence of pushes and pops, what was popped followed by what remains is what was queued followed by everything pushed, in push order |
| TransferQueue.PushesThenPops | src/queue_thread_safe.h:14-26 | pushing n values into an empty queue and popping n times returns them in push order and leaves the queue empty |
| MuxerTimestamp.MuxerTimestamp.CurrentTimestamp | src/muxer_timestamp.h:13-17 | the timestamp is elapsed microseconds * 90 / 1000, for a monotone clock and no 64-bit overflow |
| MuxerTimestamp.MuxerTimestamp.Start | src/muxer_timestamp.h:8-10 | start records the clock reading |
| MuxerTimestamp.MuxerTimestamp.TimestampAtStart | src/muxer_timestamp.h:15-16 | right after start the timestamp is 0 |
| MuxerTimestamp.TicksAtReferencePoints | src/muxer_timestamp.h:16 | 0 µs is tick 0, 1000 µs are 90 ticks, 1 000 000 µs are 90 000 ticks |
| MuxerTimestamp.TicksMonotone | src/muxer_timestamp.h:15-16 | more elapsed time never gives a smaller timestamp |
| MuxerTimestamp.TicksOfMilliseconds | src/muxer_timestamp.h:16 | each whole millisecond adds exactly 90 ticks; a remainder below a millisecond adds fewer than 90 |
| MapOrder.MinKey | src/muxer_consumer.h:90 | the smallest key of a non-empty key set is a member below all others |
| MapOrder.SortedKeysSpec | src/muxer_consumer.h:90 | std::map iteration lists every key exactly once, in ascending order |
| MapOrder.SortedKeysFirst | src/muxer_consumer.h:90 | iteration visits the smallest remaining key next |
| MuxerConsumer.Writer.Write | src/muxer_consumer.h:49 | every write is recorded in order; the transport reports the whole length or 0 |
| MuxerConsumer.NullHeader | src/muxer_consumer.h:22-28 | the filler header carries the timestamp it is stamped with |
| MuxerConsumer.NullWire | src/muxer_consumer.h:15 | every filler write is 2072 bytes: a NULL header with program, stream type and stream index 0xff and payload_size 2048, then 2048 zero bytes |
| MuxerConsumer.RestampOnlyTimestamp | src/muxer_consumer.h:92 | restamping a block's wire form changes the decoded timestamp and no other byte |
| MuxerConsumer.StampOnWire | src/muxer_consumer.h:46 | overwriting the timestamp field of a block is restamping its wire form |
| MuxerConsumer.RenewalWritesAt | src/muxer_consumer.h:90-94 | the i-th renewal write is the i-th visited cached announcement with the new timestamp |
| MuxerConsumer.Renewed | src/muxer_consumer.h:90-92 | renewal keeps the cache's programs and restamps every entry |
| MuxerConsumer.RenewalCoversCache | src/muxer_consumer.h:89-95 | a renewal writes every cached program exactly once, in ascending program order; each write is the cached wire form with only the timestamp bytes replaced |
| MuxerConsumer.Muxer.constructor | src/muxer_consumer.h:19-41 | setup: filler block with NULL header and 2048 zero bytes, empty cache, no bytes counted, both windows and the 90 kHz clock started at the first clock reading |
| MuxerConsumer.Muxer.SendQueued | src/muxer_consumer.h:44-62 | a popped block is restamped and written as size + payload_size bytes; only its reported length is counted; an EA block's clone, a newly allocated buffer, replaces its program's cache entry and every other entry keeps its buffer; other types leave the cache exactly as it was |
| MuxerConsumer.Muxer.Remember | src/muxer_consumer.h:53-60 | the cache maps the program to a newly allocated clone of the announcement, replacing any earlier one, with at most one entry per program; every other program keeps the same buffer |
| MuxerConsumer.Muxer.Fill | src/muxer_consumer.h:75-79 | the filler loop writes at most nullPacketsNeeded restamped NULL blocks and stops as soon as a producer pushes a block |
| MuxerConsumer.Muxer.RenewOne | src/muxer_consumer.h:91-93 | one renewal restamps one cached announcement and writes it |
| MuxerConsumer.Muxer.RenewedDescribes | src/muxer_consumer.h:89-95 | once every cached buffer carries the new timestamp, the restamped cache describes them |
| MuxerConsumer.Muxer.RenewAll | src/muxer_consumer.h:90-94 | the renewal loop writes exactly the renewal writes of the cache in ascending program order |
| MuxerConsumer.Muxer.Renew | src/muxer_consumer.h:89-95 | renewal writes every cached announcement in program order and leaves the cache restamped, entries and other bytes unchanged |
| MuxerConsumer.Muxer.TopUp | src/muxer_consumer.h:65-85 | once the bitrate window has elapsed, the log grows by exactly min(needed, arrival) (or needed) restamped NULL wires, the queue holds only a producer block that landed during the loop, the byte count resets to 0 and the window restarts, whether or not filler was needed; before that, nothing is written and the window and count stay |
| MuxerConsumer.Muxer.Refresh | src/muxer_consumer.h:87-96 | once the announcement period has elapsed, the log grows by exactly the renewal writes of the cache in ascending program order, the cache is restamped and the period restarts; before that, nothing is written and nothing changes |
| MuxerConsumer.Muxer.Step | src/muxer_consumer.h:43-97 | one iteration. With a block queued: that block is popped, restamped with the clock and written as its wire form, the reported length is counted, an EA block's newly allocated clone replaces its program's cache entry while the other entries keep their buffers, any other block leaves the cache as it was, and neither window moves. With the queue empty: the log grows by the filler of a closed bitrate window, then the renewal writes of an elapsed announcement period, the windows restart on their schedules, the queue holds only a block pushed during the filler loop, and the cache keeps the same buffers. Every iteration keeps the filler's 2048 zero bytes, the writer's health and every payload, so the same holds for the next iteration and iterations can be chained |
| UdpWriter.ChunksAt | src/udp_writer.h:81-86 | the i-th chunk is the bytes from i*1024 to min(n, (i+1)*1024); all but the last are 1024 bytes; there are ceil(n/1024) |
| UdpWriter.ChunksConcat | src/udp_writer.h:81-99 | the chunks, concatenated in order, are the packet |
| UdpWriter.CountSent | src/udp_writer.h:98 | the accepted sends never outnumber the calls |
| UdpWriter.Write | src/udp_writer.h:76-108 | each sendto carries the chunk after the accepted ones, so a blocked send retries the same chunk; the first hard failure returns 0 immediately; otherwise every chunk was accepted and the packet length is returned (0 for an empty packet with no send); there is one pause per 50 accepted chunks |
| UdpWriter.PauseStep | src/udp_writer.h:101-104 | one more accepted chunk adds a pause exactly when it completes a run of 50 |
| UdpWriter.Finished | src/udp_writer.h:107 | leaving the loop with no bytes remaining means every chunk was accepted and the whole length is returned |
| UdpWriter.Refused | src/udp_writer.h:93-96 | a hard send error ends the write with 0 right after the failed call |
| UdpReader.EndsWithSyncIsMagic | src/udp_reader.h:104-106 | the sync test on the last host-order word is the test that the accumulator ends in 12 34 56 78 |
| UdpReader.StepSpec | src/udp_reader.h:99-122 | one byte: the accumulator is a suffix of the old one plus the byte; a dispatch happens exactly when the extended accumulator ends in the marker and holds a full header, hands over the whole accumulator and keeps its last four bytes; the accumulator never exceeds 4 MiB |
| UdpReader.FeedAppend | src/udp_reader.h:99-122 | feeding a + b is feeding a, then b |
| UdpReader.FeedEachIsFeed | src/udp_reader.h:89-123 | the state after a run of datagrams is the state after their concatenated bytes |
| UdpReader.SplitIndependent | src/udp_reader.h:89-123 | two datagram splittings of the same byte stream give the same dispatched blocks and the same accumulator |
| UdpReader.FeedKeepsBounds | src/udp_reader.h:116-119 | the accumulator never exceeds the ceiling; dispatches are only appended; every dispatched block holds a header and ends in the marker |
| UdpReader.Window | src/udp_reader.h:105 | the four bytes a sync test reads |
| UdpReader.WithMarkers | src/udp_reader.h:109-111 | what the sink receives for each block: the block with the next marker behind it |
| UdpReader.FramingRecovery | src/udp_reader.h:104-112 | feeding serialized blocks that contain the marker only at their start, then one more marker, dispatches exactly those blocks in order, each followed by the four marker bytes, and leaves the marker accumulated |
| UdpReader.FeedOneBlock | src/udp_reader.h:99-112 | the rest of one such block plus the next marker is dispatched as one block |
| UdpReader.FeedClosingMarker | src/udp_reader.h:104-111 | a marker that follows a block dispatches it; no window straddling the boundary is a marker |
| UdpReader.FeedInside | src/udp_reader.h:99-101 | inside a block, after its marker, bytes only accumulate |
| UdpReader.SerializedOpensWithMarker | src/essence_block.h:38 | every serialized block with the magic sync field opens with the marker and is at least a header long |
| UdpReader.OverflowDiscards | src/udp_reader.h:116-119 | 4 MiB + 1 bytes without any marker dispatch nothing and leave the accumulator empty |
| UdpReader.UdpReader.Receive | src/udp_reader.h:101-119 | push_back, the host-order sync test and the overflow test change the accumulator and the sink record as Step says |
| UdpReader.UdpReader.ReaderLoop | src/udp_reader.h:93-123 | looping over the received datagrams byte by byte leaves the state Feed gives for their concatenation |
| RenderParser.TableWithoutAdd | src/render_parser.h:139-146 | a table with no add keeps the id and every field but the overlay, and clears the overlay exactly when one of its removes names the current id |
| RenderParser.LastAddDecides | src/render_parser.h:126-147 | after a table whose last add is acts[i], the id is that add's, whatever the prior state; the overlay is its image when that loads and no later remove names the id, and empty otherwise; nothing else changes |
| RenderParser.LastAddDecidesOverlay | src/render_parser.h:129-146 | the id and overlay half of LastAddDecides |
| RenderParser.ApplyActionsSnoc | src/render_parser.h:126 | a table with one more action ends with that action's step |
| RenderParser.TableTouchesOverlay | src/render_parser.h:126-147 | a table changes only the overlay and the action id |
| RenderParser.TableEndingInAdd | src/render_parser.h:129-138 | whatever came before, a table ending in an add leaves that add's id and its image as overlay when the image loads, none otherwise |
| RenderParser.TableEndingInRemove | src/render_parser.h:139-146 | an add followed by the remove of its id leaves that id and no overlay |
| RenderParser.FirstIndexOf | src/render_parser.h:160-162 | the index of the first stream of a type, or -1 exactly when there is none |
| RenderParser.ScanBindsFirst | src/render_parser.h:160-179 | the scan binds the first video stream and looks up and opens its codec and no other; it binds the first audio stream; an index already bound stays; nothing else changes |
| RenderParser.ScanBindsVideo | src/render_parser.h:162-176 | the video half: the first video stream binds, and only its codec is probed and opened |
| RenderParser.ScanBindsAudio | src/render_parser.h:177-179 | the audio half: the first audio stream binds |
| RenderParser.ScanKeepsRest | src/render_parser.h:160-180 | the scan changes only the two stream indices, the lookups and the decoder |
| RenderParser.TableKeepsBinding | src/render_parser.h:118-147 | a table never changes the bindings or what reaches the decoder |
| RenderParser.ScanCongruent | src/render_parser.h:160-180 | the scan's effect on the bindings depends on the bindings alone; it keeps the announcement and the decoder log |
| RenderParser.RunBeforeAnnouncement | src/render_parser.h:45-46 | before any announcement no ED block reaches the decoder and nothing is bound |
| RenderParser.RunAfterAnnouncement | src/render_parser.h:45-56 | once an announcement is kept, later ones change nothing, the bindings stay, and the decoder receives exactly the ED payloads of the bound program and video stream while a decoder is open |
| RenderParser.RunAppend | src/render_parser.h:43-185 | parsing a concatenation parses its parts in turn |
| RenderParser.FirstAnnouncementWins | src/render_parser.h:150-153 | the first EA block of a run fixes the bindings as if it came first, and the decoder receives exactly the routed ED payloads after it |
| RenderParser.AnnouncementBinds | src/render_parser.h:152-180 | the bindings the first announcement leaves: its program, its first video stream with the outcome of opening its codec, its first audio stream, or -1 when absent |
| RenderParser.RunOfOneActionTables | src/render_parser.h:118-147 | a run of tables of one action each applies those actions in order |
| RenderParser.NullBlocksChangeNothing | src/render_parser.h:114-116 | removing the NULL blocks from any run changes nothing |
| RenderParser.Parser.constructor | src/render_parser.h:209-220 | the fields start with no announcement, -1 indices, no decoder, no overlay and actionId (uint64_t) -1 |
| RenderParser.Parser.Parse | src/render_parser.h:43-185 | the fields move as the per-type transition says; the result is size + payload_size, which for a block under 2 GiB is its length on the wire |
| RenderParser.Parser.ParseEd | src/render_parser.h:45-56 | an ED block reaches the decoder only if an announcement was kept, its program and stream match the bound program and video stream, and a decoder is open |
| RenderParser.Parser.ParseSmt | src/render_parser.h:118-147 | the loop over a table applies its actions in order |
| RenderParser.Parser.TakeAction | src/render_parser.h:127-146 | add_image decodes its data, replaces the overlay by the loaded image or none, and takes the id; remove_image clears the overlay only for the current id |
| RenderParser.Parser.ParseEa | src/render_parser.h:152-180 | the first announcement is cloned and parsed, binds the program, and its streams are scanned |
| RenderParser.Parser.ScanInto | src/render_parser.h:160-180 | the loop over the announced streams is the scan |
| RenderParser.Parser.TakeStream | src/render_parser.h:161-179 | one stream: a video stream while none is bound binds and opens its codec (a missing decoder leaves the context, a failed open clears it); otherwise an audio stream while none is bound binds |
| FfmpegProducer.SetEssenceBlock | src/ffmpeg_producer.h:32-44 | the header gets type ED, the program, the stream index, the codec type, the pts and payload_size = packet length, each truncated; the payload starts with the packet bytes; sync and size keep their values |
| FfmpegProducer.SetEssenceAnnouncementBlock | src/ffmpeg_producer.h:46-61 | the header gets type EA, the program, stream index and type 0xff, timestamp 0 and payload_size = serialized length; the payload starts with the serialized bytes; sync and size keep their values |
| FfmpegProducer.CarriedPacketOnWire | src/ffmpeg_producer.h:32-44 | on the wire a packet block reads back as the ED header and exactly the packet bytes |
| FfmpegProducer.AnnouncementOnWire | src/ffmpeg_producer.h:46-61 | on the wire an announcement block reads back as the EA header and exactly the serialized document |
| FfmpegProducer.Produce | src/ffmpeg_producer.h:133-158 | the announcement goes on the queue first, then one block per packet in packet order, each fresh with 4 MiB capacity; nothing queued before changes |
| FfmpegProducer.PushEssence | src/ffmpeg_producer.h:145-154 | one pass of the read loop appends one fresh block carrying the packet |
| SmtProducer.SetManipulationTableBlock | src/smt_producer.h:11-21 | payload_size becomes the serialized length and the payload starts with the bytes; no other header field changes |
| SmtProducer.EmissionPairs | src/smt_producer.h:37-87 | emissions alternate add, remove, starting with an add; an add and the remove after it share an id; the next add takes the next id; the first add's id is 1001 |
| SmtProducer.AddCarriesItsFile | src/smt_producer.h:59-72 | an add with an even id announces image/jpeg and its data decodes to the JPEG file; an odd id, image/png and the PNG file |
| SmtProducer.Producer.constructor | src/smt_producer.h:36-38 | drawImage starts true, actionId 1001, the clock at the first reading, nothing emitted |
| SmtProducer.Producer.Step | src/smt_producer.h:40-94 | before 5000 ms nothing happens; then exactly one SMT block with program 0, stream type and index 0xff and timestamp 0, holding a table of the next single action, is pushed and the clock restarts |
| SmtProducer.Producer.NextAction | src/smt_producer.h:57-87 | the action built is the next emission, and drawImage and actionId move on as the closed form of the number emitted |
| SmtProducer.U64Succ | src/smt_producer.h:82 | incrementing the 64-bit id wraps as truncation of the untruncated successor |
| Pipeline.EmissionsIndex | src/smt_producer.h:40-94 | the k-th of the producer's first n actions is its k-th emission |
| Pipeline.ReceiverAppliesEmissions | src/render_parser.h:118-147 | tables of the producer's successive single actions drive the receiver through those actions in order |
| Pipeline.OverlayAfterAdd | src/render_parser.h:129-138 | after the producer's j-th add the receiver's id is 1001 + j and its overlay is the file that add carries (JPEG for even ids, PNG for odd) if it loads |
| Pipeline.OverlayAfterRemove | src/render_parser.h:139-146 | after the remove that follows it, the id stays 1001 + j and there is no overlay |
| Pipeline.AnnouncedBlockReceived | src/ffmpeg_producer.h:46-61 | the producer's announcement block, as built and read the way parse reads a block, is the EA header with the serialized document |
| Pipeline.CarriedBlockReceived | src/ffmpeg_producer.h:32-44 | a packet block, as built and read the way parse reads a block, is the ED header with the packet bytes |
| Pipeline.MuxedPacketWire | src/muxer_consumer.h:46-49 | the muxer's write of a producer packet block, restamped with any timestamp, decodes to the ED header the producer built with only the timestamp replaced, followed by exactly the packet bytes |
| Pipeline.MuxedAnnouncementWire | src/muxer_consumer.h:46-49 | the muxer's write of the producer's announcement block, restamped with any timestamp, decodes to the EA header with only the timestamp replaced, followed by exactly the serialized document |
| Pipeline.RoutedPackets | src/render_parser.h:45-56 | of the producer's packet blocks, whatever timestamps they carry, exactly the packets of the bound video stream reach an open decoder when the header's program byte is the bound program |
| Pipeline.ProducedVideoReachesDecoder | src/render_parser.h:45-180 | the producer's announcement and packet blocks, with any timestamps the muxer stamps on them, parsed from the start, hand the decoder exactly the packets of the first announced video stream, in order, when its decoder opened and the program index is 0..255, and nothing otherwise |
| Base64.AlphabetLayout | src/base64_simple.h:6-9 | the table is A-Z, a-z, 0-9, '+', '/' in that order |
| Base64.DigitIndex | src/base64_simple.h:21 | every digit value's character is in the alphabet and finds back to that value |
| Base64.IndexDigit | src/base64_simple.h:47 | every alphabet character is the character of the value find gives it |
| Base64.IsBase64Alphabet | src/base64_simple.h:34-36 | is_base64 holds exactly for the 64 table characters, and not for '=' |
| Base64.Spell | src/base64_simple.h:21 | one character per digit value |
| Base64.Values | src/base64_simple.h:47 | the digit values of alphabet characters, one per character |
| Base64.Drain | src/base64_simple.h:20-23 | the inner loop emits the characters of the digits the accumulator holds and leaves the bit count negative |
| Base64.EncodeDigits | src/base64_simple.h:17-27 | the byte loop and the closing digit produce the characters of the input's digit values, modelled with the 32-bit accumulator |
| Base64.Encode | src/base64_simple.h:11-32 | base64_encode returns the reference encoding of its input: digits, then '=' padding |
| Base64.EncodingLength | src/base64_encode.h:17-31 | the encoded length is 4 * ceil(n/3), a multiple of 4 |
| Base64.EncodingShape | src/base64_simple.h:21-30 | the encoding is alphabet characters followed by 0 to 2 '=' |
| Base64.Decode | src/base64_simple.h:38-55 | base64_decode returns the reference decoding, modelled with a 32-bit accumulator |
| Base64.ValidPrefix | src/base64_simple.h:42-46 | the longest run of alphabet characters at the start, ended by the first other character |
| Base64.RoundTrip | src/base64_simple.h:11-55 | decoding the encoding of any byte sequence gives it back |
| Base64.DecodingStopsAt | src/base64_simple.h:43-46 | decoding stops at the first '=' or the first character outside the alphabet and keeps what was decoded before it |
| Base64.DecodedLength | src/base64_simple.h:47-52 | k valid characters before the stop decode to floor(6k/8) bytes |
| Base64.EmptyVector | src/base64_encode.h:11-32 | "" encodes to "" (section 10 of RFC 4648) |
| Base64.OneByteVector | src/base64_encode.h:11-32 | "f" encodes to "Zg==" |
| Base64.TwoByteVector | src/base64_encode.h:11-32 | "fo" encodes to "Zm8=" |
| Base64.ThreeByteVector | src/base64_encode.h:11-32 | "foo" encodes to "Zm9v" |
| Base64.FourByteVector | src/base64_encode.h:11-32 | "foob" encodes to "Zm9vYg==" |
| Base64.FiveByteVector | src/base64_encode.h:11-32 | "fooba" encodes to "Zm9vYmE=" |
| Base64.SixByteVector | src/base64_encode.h:11-32 | "foobar" encodes to "Zm9vYmFy" |

## Left out

- Sockets: open, close, bind, multicast membership and the recv loop's failure path. Bytes received are given as a sequence of datagrams. The writer's sendto is an oracle of outcomes. The 1500-byte receive buffer only bounds datagram size and is not modelled.
- Threads, the queue's mutex and condition variable, and the stop flags. Everything runs sequentially. `Pop` requires a non-empty queue instead of waiting. A producer pushing during the filler loop is modelled by one late block.
- The steady clock and the sleeps. Clock readings are parameters, and the writer counts its pauses instead of sleeping.
- MuxerConsumer.Muxer.Step: one clock reading stamps every write of an iteration. The source reads the clock again for each filler and renewal write.
- MuxerConsumer.Muxer.Step: nullPacketsNeeded is a parameter, because the source computes it in double-precision floating point.
- MuxerConsumer.Writer.Write: stands for any WriterBase. It takes the whole packet or reports 0, and which of the two is fixed per writer, so a transport that refuses one packet and takes the next is not represented. This only affects totalBytesSent, which feeds nothing but the filler count the model takes as a parameter. The UDP writer itself is modelled separately, with a per-call outcome.
- The JSON library: parsing is a function in the parser's Environment, and serialising is a function parameter of the producers. Parse exceptions on malformed documents are not modelled.
- The JSON fields nobody reads: width, height, frame_rate, sample_rate, channels, bit_rate, the action timestamps and percentages, and the data_type the receiver reads but never uses.
- FFmpeg, SDL and SDL_image:
  - demuxing: packets are an input sequence, with the codec type of each stream;
  - decoding, swscale, windows, rendering and the overlay rectangle: the decoder's input is logged as the payloads sent;
  - loadJPEGFromMemory: a predicate on the image bytes, independent of the renderer;
  - announce_block_info: logging only.
- read_binary_file: the two image files' contents are inputs.
- Opening the input file with avformat, and its failure paths.
- FfmpegProducer.Produce: requires that every packet and the serialised announcement fit the 4 MiB payload, which the code does not check. SmtProducer.Producer.Step requires the same of the 1 MiB table block.
- RenderParser.ScanBindsFirst: assumes non-negative stream indices, as the producer writes them. A negative announced index would leave the slot unbound and let a later stream bind it.
- EssenceBlock.Block.Clone: requires size to be 24 and payload_size no larger than the payload, which every block built by the program satisfies. For other headers the source's memcpy would overrun.
- RenderParser.Parser.Parse: requires the same well-formedness of the block it is given. The reader hands over the raw accumulator without checking payload_size, and that receive-side path into parse is not part of this model.
- UDPReader::processData: only JSON-library calls, left out. The shown reader's sink is abstract, recorded as the list of dispatched accumulators.
- Base64.Decode: models the decoder's int accumulator modulo 2^32, which agrees with the source on every bit it outputs. Characters are compared as code points, so isalnum is the C-locale ASCII test.
- Pipeline: connects the producers' blocks to the parser through the muxer's restamped wire form (MuxedPacketWire, MuxedAnnouncementWire). It leaves out the UDP writer's chunking, the network and the reader between them. In the source the reader's sink is its own processData, not the render parser (src/udp_reader.h:22, src/udp_reader.h:110), so the delivery it states is what parse does with the blocks the sender writes, not a path the shipped receiver takes.
- src/main.cpp, src/main_sender.cpp and src/main_receiver.cpp (entry points and thread wiring), src/writer_base.h and src/parser_base.h (interfaces) are not part of this model.
