# ClamAV daemon client, modelled in Dafny

This project models `ClamAVClient`, the Java client that talks to a ClamAV
daemon (clamd) over TCP:

- the constructors, which check the timeout;
- `ping`, which sends `zPING\0` and compares a four-byte reply with `PONG`;
- `scan`, which streams the caller's content as an INSTREAM body.
  `scan` sends length-prefixed chunks of at most 2048 bytes. After each chunk
  it polls the socket for an early reply, and it aborts when one has arrived.
  Otherwise it sends the zero-length terminator chunk and hex-encodes the MD5
  digest of the content into the response object. It then reads the verdict
  and checks it for the size-limit message;
- `readAll`, `assertSizeLimit` and `isCleanReply`, which read and interpret
  replies.

How the pieces are modelled:

- Streams are scripted oracles. A `java.io.InputStream` is the list of
  deliveries it will make, `seq<seq<byte>>`. A read takes what it can from
  the next delivery, never more than it asked for. An empty delivery reads as
  0, and an exhausted script reads as -1.
- The socket's `available()` answers are a sequence indexed by a poll
  counter. Every poll past the end of the sequence answers 0. The answers
  are not tied to the inbound script. `HasBytes` and `TruthfulPolls` state
  the promise a socket's `available()` makes: a positive answer means the
  next read returns bytes. The abort guarantee of `scan` is proved under
  that promise.
- The socket's output, `OutStream.sent`, is what the client has written to
  its buffered output stream, in order. On a complete scan the flush before
  the reply is read delivers all of it. On an aborted scan the daemon may
  receive less (see "Left out").
- The stateful parts are classes whose methods update fields:
  - `Streams.InStream`, `Streams.OutStream` and `Streams.Connection`;
  - the response object `ClamAV.ScanResponse`;
  - the byte arrays `ping`, `scan` and `readAll` read into.
- The loops of `ping`, `scan`, `readAll` and the hash rendering are `while`
  and `for` loops. Each is proved against a functional specification:
  - `PingGather` for `ping`;
  - `FeedOutcome`, with its step-by-step twin `FeedChunks`, for `scan`;
  - `Drain` for `readAll`;
  - `Hex` for the hash rendering.
- Lemmas then prove what those specifications promise: the framing round
  trip, what the daemon receives, when `readAll` stops, and that the hex
  rendering loses nothing.

The modules:

- `Bytes` holds the octet type, the `Result`/`Error` outcome and the US-ASCII
  conversions.
- `Streams` holds the stream model.
- `Framing` holds the INSTREAM wire format and the daemon-side parsers.
- `Replies` holds reply classification.
- `DigestHex` holds the hash rendering.
- `ClamAV` holds the client itself.

## Model

| member | source | states |
|---|---|---|
| ClamAV.NewClient | src/main/java/com/file/scan/clamav/config/ClamAVClient.java:34-41 | construction fails with IllegalArgument exactly when the timeout is negative; otherwise the client keeps host, port and timeout unchanged |
| ClamAV.NewDefaultClient | src/main/java/com/file/scan/clamav/config/ClamAVClient.java:43-45 | the two-argument constructor always succeeds, with a 2000 ms timeout |
| ClamAV.PingGather | src/main/java/com/file/scan/clamav/config/ClamAVClient.java:64-69 | ping's read loop never gathers more bytes than the room it has |
| ClamAV.PingGatherPrefix | src/main/java/com/file/scan/clamav/config/ClamAVClient.java:64-69 | what ping gathers is a prefix of the bytes the daemon sent |
| ClamAV.PingGatherSplit | src/main/java/com/file/scan/clamav/config/ClamAVClient.java:64-69 | with no empty delivery, ping gathers the first four bytes however the daemon splits them |
| ClamAV.PingVerdict | src/main/java/com/file/scan/clamav/config/ClamAVClient.java:64-70 | ping succeeds only if the reply starts with PONG, and does so whenever it does and no delivery is empty; a reply shorter than four bytes fails |
| ClamAV.PingLoopAdvance | src/main/java/com/file/scan/clamav/config/ClamAVClient.java:66-69 | a read that returns bytes stores them at `copyIndex` and keeps the loop state: the gathered bytes, then zeros, with the rest still to come |
| ClamAV.PingLoopHalt | src/main/java/com/file/scan/clamav/config/ClamAVClient.java:66-69 | a read that returns 0 or -1 leaves the buffer as it was, holding exactly what was gathered, then zeros |
| ClamAV.PingDecision | src/main/java/com/file/scan/clamav/config/ClamAVClient.java:70 | comparing the zero-padded four-byte buffer with PONG is comparing the gathered bytes with PONG |
| ClamAV.GatherReply | src/main/java/com/file/scan/clamav/config/ClamAVClient.java:62-69 | the loop leaves the gathered bytes at the front of the buffer and zeros after them, and consumes exactly those bytes from the socket |
| ClamAV.Ping | src/main/java/com/file/scan/clamav/config/ClamAVClient.java:52-76 | ping sends `zPING\0`, answers true exactly when the gathered reply is PONG, makes no poll, and closes the connection |
| ClamAV.DrainNext | src/main/java/com/file/scan/clamav/config/ClamAVClient.java:205-208 | a positive read that finds more bytes available is followed by the rest of readAll, whose result it prefixes |
| ClamAV.DrainReads | src/main/java/com/file/scan/clamav/config/ClamAVClient.java:205-208 | the reads readAll makes are the first reads of the stream, and the stream's remaining reads follow them |
| ClamAV.DrainReply | src/main/java/com/file/scan/clamav/config/ClamAVClient.java:200-210 | readAll returns the concatenation of what at least one read returned, or fails with IndexOutOfBounds exactly at end of stream |
| ClamAV.DrainTakesPrefix | src/main/java/com/file/scan/clamav/config/ClamAVClient.java:203-209 | every read takes at most 2000 bytes, and the reply is the next bytes of the stream, with the stream going on right after it |
| ClamAV.DrainContinues | src/main/java/com/file/scan/clamav/config/ClamAVClient.java:208 | readAll reads again only after a read that returned bytes and a poll that found more available |
| ClamAV.DrainStops | src/main/java/com/file/scan/clamav/config/ClamAVClient.java:205-208 | readAll stops after a read of 0 bytes, or after a positive read whose poll found nothing; one poll is made per positive read |
| ClamAV.Drain | src/main/java/com/file/scan/clamav/config/ClamAVClient.java:200-210 | readAll's outcome: at most one poll per read and never fewer polls than it started with; its only failure is IndexOutOfBounds |
| ClamAV.ReadAll | src/main/java/com/file/scan/clamav/config/ClamAVClient.java:200-210 | the loop returns what `Drain` describes and leaves the socket's stream and poll counter where `Drain` says |
| ClamAV.AbortIndex | src/main/java/com/file/scan/clamav/config/ClamAVClient.java:136 | the index of the first poll that finds a reply is within the polls made, and that poll does find one |
| ClamAV.QuietBefore | src/main/java/com/file/scan/clamav/config/ClamAVClient.java:136 | every poll before the first one that finds a reply finds nothing |
| ClamAV.SizeChecked | src/main/java/com/file/scan/clamav/config/ClamAVClient.java:159 | `assertSizeLimit(readAll(..))`: readAll's failure passes unchanged; a reply passes unchanged exactly when it does not start with the size-limit message, and otherwise becomes a SizeLimitExceeded error |
| ClamAV.DrainAnswers | src/main/java/com/file/scan/clamav/config/ClamAVClient.java:205-208 | when the socket has bytes pending and its polls are truthful, readAll succeeds with a non-empty reply |
| ClamAV.AbortReportsReply | src/main/java/com/file/scan/clamav/config/ClamAVClient.java:136-139 | when a poll has found a reply and the socket's polls are truthful, an aborted scan ends in the size-limit error exactly when the reply starts with the size-limit message, and otherwise in the "Scan aborted. Reply from server: " I/O error carrying the whole non-empty reply text |
| ClamAV.AbortedReply | src/main/java/com/file/scan/clamav/config/ClamAVClient.java:138-139 | the early-reply branch reads the reply as `Drain` says and fails as `AbortOutcome` says; under truthful polls it fails with the size-limit error or with the I/O error carrying the non-empty reply |
| ClamAV.AbortOutcome | src/main/java/com/file/scan/clamav/config/ClamAVClient.java:136-140 | an aborted scan always fails: with readAll's failure, with the size-limit error, or otherwise with an I/O error whose message starts "Scan aborted. " and ends with the reply text |
| ClamAV.FeedOutcome | src/main/java/com/file/scan/clamav/config/ClamAVClient.java:127-142 | the chunk loop sends a prefix of the source's reads and makes one poll per block; when no poll finds a reply it sends all of them and exhausts the source |
| ClamAV.FeedChunks | src/main/java/com/file/scan/clamav/config/ClamAVClient.java:127-142 | step by step: one poll per block sent; an aborted loop sent at least one block and its last poll found a reply; a loop that was not aborted exhausted the source |
| ClamAV.FeedOutcomeAbort | src/main/java/com/file/scan/clamav/config/ClamAVClient.java:136-140 | when the first poll finds a reply, the loop stops after sending the first block |
| ClamAV.FeedOutcomeNext | src/main/java/com/file/scan/clamav/config/ClamAVClient.java:127-141 | when the first poll finds nothing, the loop sends the first block and continues from the rest of the source |
| ClamAV.FeedAgrees | src/main/java/com/file/scan/clamav/config/ClamAVClient.java:127-142 | the closed-form description of the chunk loop agrees with the step-by-step one on every source and every poll oracle |
| ClamAV.FeedReads | src/main/java/com/file/scan/clamav/config/ClamAVClient.java:127-142 | the loop sends the source's first reads, in order, and the source goes on right after them; without an early reply it sends every byte of the source |
| ClamAV.FeedPolls | src/main/java/com/file/scan/clamav/config/ClamAVClient.java:136 | one poll is made per block sent; every poll but an aborting last one found nothing, and an aborting one found a reply |
| ClamAV.FeedOutcomeAt | src/main/java/com/file/scan/clamav/config/ClamAVClient.java:127-142 | the loop's outcome is the blocks up to and including the first one whose poll finds a reply, or all of them |
| ClamAV.FeedingHolds | src/main/java/com/file/scan/clamav/config/ClamAVClient.java:127-141 | the source's reads, their trail and the aborting index satisfy the loop's context: every block fits a 32-bit length and the polls before the aborting one are quiet |
| ClamAV.SendNext | src/main/java/com/file/scan/clamav/config/ClamAVClient.java:133-135 | sending block `i` appends its chunk to the chunks before it and its bytes to the digest input |
| ClamAV.SendingStart | src/main/java/com/file/scan/clamav/config/ClamAVClient.java:127 | the first read establishes the loop state with nothing sent yet |
| ClamAV.SendingNext | src/main/java/com/file/scan/clamav/config/ClamAVClient.java:133-141 | a block sent, a quiet poll and the next read keep the loop state one block further on |
| ClamAV.SendingLast | src/main/java/com/file/scan/clamav/config/ClamAVClient.java:136-139 | the block sent before a poll that finds a reply is the aborting block |
| ClamAV.SendingAbort | src/main/java/com/file/scan/clamav/config/ClamAVClient.java:136-140 | stopping on a reply leaves what `FeedOutcome` describes for an aborted loop |
| ClamAV.SendingEnd | src/main/java/com/file/scan/clamav/config/ClamAVClient.java:128 | a read of -1 ends the loop with every block sent, as `FeedOutcome` describes |
| ClamAV.FeedDone | src/main/java/com/file/scan/clamav/config/ClamAVClient.java:127-142 | a loop that stopped after the right number of blocks has done exactly what `FeedOutcome` describes |
| ClamAV.SendChunk | src/main/java/com/file/scan/clamav/config/ClamAVClient.java:131-134 | the socket receives the 4-byte big-endian length, then the first `read` bytes of the buffer |
| ClamAV.SendBlock | src/main/java/com/file/scan/clamav/config/ClamAVClient.java:131-141 | one round sends the chunk and polls once; when the poll finds nothing, it reads the next block into the buffer |
| ClamAV.SendChunks | src/main/java/com/file/scan/clamav/config/ClamAVClient.java:127-142 | the chunk loop sends exactly the chunks of the blocks `FeedOutcome` names, feeds their bytes to the digest, and leaves the source and the poll counter where `FeedOutcome` says |
| ClamAV.Scan | src/main/java/com/file/scan/clamav/config/ClamAVClient.java:107-168 | scan writes the command, the chunks, and the terminator unless aborted. Unless aborted, it sets the hash to the 32-character hex MD5 of the bytes sent. It returns the size-checked reply, or the abort error. When a poll found a reply and the socket's polls are truthful, the abort error is the size-limit error or the I/O error carrying the non-empty reply. The connection is always closed |
| ClamAV.ScanResponse.SetHash | src/main/java/com/file/scan/clamav/config/ClamAVClient.java:156 | `setHash` stores the given hash |
| ClamAV.InstreamRoundTrip | src/main/java/com/file/scan/clamav/config/ClamAVClient.java:127-145 | the chunks parse back into the blocks read, each at most 2048 bytes, carrying exactly the source's bytes; with no empty delivery the daemon receives all of them and nothing after the terminator |
| ClamAV.ZeroReadEndsStreamEarly | src/main/java/com/file/scan/clamav/config/ClamAVClient.java:127-145 | a read of 0 bytes emits a zero-length chunk that the daemon takes for the terminator: it receives only a prefix of the content and is left with unread input |
| Framing.Be32 | src/main/java/com/file/scan/clamav/config/ClamAVClient.java:131 | `putInt` gives four bytes whose big-endian value is the length |
| Framing.Chunk | src/main/java/com/file/scan/clamav/config/ClamAVClient.java:131-134 | a chunk is four bytes whose big-endian value is the payload length, followed by the payload |
| Framing.Frame | src/main/java/com/file/scan/clamav/config/ClamAVClient.java:128-142 | the chunks of a run of blocks take four bytes per block plus the payload bytes |
| Framing.Be32Inverse | src/main/java/com/file/scan/clamav/config/ClamAVClient.java:131 | every four bytes are the encoding of the number they denote, so the prefix is a bijection |
| Framing.EmptyChunkIsTerminator | src/main/java/com/file/scan/clamav/config/ClamAVClient.java:145 | the chunk of an empty block is exactly the terminator `0,0,0,0` |
| Framing.FrameAppend | src/main/java/com/file/scan/clamav/config/ClamAVClient.java:128-142 | the chunks of two runs of blocks are the chunks of the first, then those of the second |
| Framing.FrameRoundTrip | src/main/java/com/file/scan/clamav/config/ClamAVClient.java:129-134 | the chunks parse back into exactly the blocks they were made of |
| Framing.InstreamDelivers | src/main/java/com/file/scan/clamav/config/ClamAVClient.java:128-145 | for non-empty blocks, the daemon receives the concatenated payloads and stops right after the terminator |
| Framing.InstreamStopsAtEmptyBlock | src/main/java/com/file/scan/clamav/config/ClamAVClient.java:128-145 | an empty block stops the daemon there: it receives only the blocks before it, and the later chunks and the real terminator stay unread |
| Framing.InstreamComplete | src/main/java/com/file/scan/clamav/config/ClamAVClient.java:128-145 | with no empty block the daemon receives every payload byte and nothing is left over |
| Replies.StartsWith | src/main/java/com/file/scan/clamav/config/ClamAVClient.java:194 | `startsWith` holds exactly when the prefix occurs at position 0 |
| Replies.Contains | src/main/java/com/file/scan/clamav/config/ClamAVClient.java:188 | `contains` never finds a pattern longer than the text and always finds the empty pattern; `ContainsOccurs` gives the full characterisation |
| Replies.ContainsOccurs | src/main/java/com/file/scan/clamav/config/ClamAVClient.java:188 | the position-by-position substring search finds a pattern exactly when it occurs |
| Replies.IsCleanReply | src/main/java/com/file/scan/clamav/config/ClamAVClient.java:185-189 | a reply is clean exactly when its text contains "OK" and does not contain "FOUND" |
| Replies.CleanVerdict | src/main/java/com/file/scan/clamav/config/ClamAVClient.java:188 | the daemon's plain OK verdict is classified clean |
| Replies.InfectedVerdict | src/main/java/com/file/scan/clamav/config/ClamAVClient.java:188 | a verdict naming a signature is classified not clean |
| Replies.FoundDominates | src/main/java/com/file/scan/clamav/config/ClamAVClient.java:188 | "FOUND" wins over "OK" when both occur |
| Replies.OccursInText | src/main/java/com/file/scan/clamav/config/ClamAVClient.java:186-188 | matching an ASCII pattern against the decoded text is matching its bytes against the raw reply |
| Replies.AssertSizeLimit | src/main/java/com/file/scan/clamav/config/ClamAVClient.java:192-197 | the reply passes unchanged unless it starts with the size-limit message. In that case the result is the size-limit error, whose message starts "Clamd size limit exceeded. " and ends with the reply text |
| Replies.SizeLimitPrefix | src/main/java/com/file/scan/clamav/config/ClamAVClient.java:193-194 | the decoded text starts with the size-limit message exactly when the raw bytes start with its encoding |
| DigestHex.HexDigit | src/main/java/com/file/scan/clamav/config/ClamAVClient.java:153 | a digit value renders as a lowercase hexadecimal character |
| DigestHex.Radix16 | src/main/java/com/file/scan/clamav/config/ClamAVClient.java:153 | `Integer.toString(n, 16)` has at least one digit |
| DigestHex.PaddedRadix | src/main/java/com/file/scan/clamav/config/ClamAVClient.java:153 | adding 0x100 and dropping the first digit gives the byte's two zero-padded digits |
| DigestHex.Hex | src/main/java/com/file/scan/clamav/config/ClamAVClient.java:150-154 | the hash text has two characters per digest byte |
| DigestHex.HexAt | src/main/java/com/file/scan/clamav/config/ClamAVClient.java:150-154 | byte `i` renders at positions 2i and 2i+1, high nibble first |
| DigestHex.HexLowercase | src/main/java/com/file/scan/clamav/config/ClamAVClient.java:153 | only lowercase hexadecimal digits appear in the hash |
| DigestHex.HexString | src/main/java/com/file/scan/clamav/config/ClamAVClient.java:150-154 | the string-builder loop produces exactly `Hex` of the digest |
| DigestHex.HexRoundTrip | src/main/java/com/file/scan/clamav/config/ClamAVClient.java:150-154 | the hash text parses back into the digest, so distinct digests give distinct hashes |
| DigestHex.Md5HexLength | src/main/java/com/file/scan/clamav/config/ClamAVClient.java:155-156 | a 16-byte MD5 digest renders as 32 characters, so the hash text of a complete scan is never empty and `isEmpty` never skips `setHash` |
| Bytes.AsciiBytes | src/main/java/com/file/scan/clamav/config/ClamAVClient.java:119 | US-ASCII encoding keeps the length and maps every ASCII character to its code |
| Bytes.AsciiText | src/main/java/com/file/scan/clamav/config/ClamAVClient.java:186 | US-ASCII decoding keeps the length and gives an ASCII character exactly for a byte below 0x80 |
| Bytes.AsciiRoundTrip | src/main/java/com/file/scan/clamav/config/ClamAVClient.java:119 | encoding an ASCII command and decoding it again gives the command back |
| Bytes.AsciiBytesRoundTrip | src/main/java/com/file/scan/clamav/config/ClamAVClient.java:186 | decoding ASCII reply bytes and encoding them again gives the bytes back |
| Streams.Take | src/main/java/com/file/scan/clamav/config/ClamAVClient.java:127 | a read takes as many bytes as it asked for, or all the next delivery holds if that is less |
| Streams.TakeRest | src/main/java/com/file/scan/clamav/config/ClamAVClient.java:127 | a read loses no byte and invents none |
| Streams.Reads | src/main/java/com/file/scan/clamav/config/ClamAVClient.java:127-141 | successive reads deliver the stream's bytes in order, each read at most the buffer size |
| Streams.TrailIsTrail | src/main/java/com/file/scan/clamav/config/ClamAVClient.java:127-141 | read `j` starts from the `j`-th state of the trail, returns block `j` and leaves the next state; the last state is exhausted |
| Streams.TrailReads | src/main/java/com/file/scan/clamav/config/ClamAVClient.java:127-141 | the reads made from the `j`-th state are the remaining reads of the whole stream |
| Streams.ReadsNonEmpty | src/main/java/com/file/scan/clamav/config/ClamAVClient.java:127 | a read returns 0 bytes exactly when the stream made an empty delivery |
| Streams.ReadCount | src/main/java/com/file/scan/clamav/config/ClamAVClient.java:67 | a read returns -1 exactly at end of stream when it asks for bytes, and never more than it asked for |
| Streams.ReadRest | src/main/java/com/file/scan/clamav/config/ClamAVClient.java:67 | the bytes a read takes, followed by what is left, are what was pending |
| Streams.Stored | src/main/java/com/file/scan/clamav/config/ClamAVClient.java:67 | a read stores its bytes at the offset and leaves every other element of the buffer as it was |
| Streams.InStream.Read | src/main/java/com/file/scan/clamav/config/ClamAVClient.java:67 | `read(buf, off, len)` returns what `ReadCount` says, consumes what `ReadRest` says, and stores the bytes as `Stored` says |
| Streams.InStream.Available | src/main/java/com/file/scan/clamav/config/ClamAVClient.java:136 | `available()` answers the oracle's entry for this poll and counts the poll |
| Streams.OutStream.Write | src/main/java/com/file/scan/clamav/config/ClamAVClient.java:133 | a write appends its bytes to everything sent so far |
| Streams.OutStream.WriteRange | src/main/java/com/file/scan/clamav/config/ClamAVClient.java:134 | `write(buf, off, len)` appends exactly that range of the buffer |
| Streams.Connection.Close | src/main/java/com/file/scan/clamav/config/ClamAVClient.java:163-167 | closing releases the connection |

## Left out

- Opening the socket, `setSoTimeout` and the timeout's effect are left out. A scan or ping is given its connection, and a read never times out.
- `BufferedOutputStream` buffering and `flush` are left out. `OutStream.sent` is what the client wrote, in order, not what reached the daemon. On a complete scan, the flush at line 146 of `ClamAVClient.java` delivers everything before the reply is read. On an aborted scan, the `finally` block closes the socket's input stream first (line 164), and that closes the socket. The flush in the output stream's `close()` (line 165) then fails, and the failure is swallowed. Up to a buffer's worth of chunks written since the last flush never reaches the daemon. The model does not capture this loss.
- The socket and the caller's stream never throw an `IOException`. The only failures modelled are the ones the client raises itself, and the one `readAll` provokes by writing a length of -1.
- `close()` failures, which the source logs and swallows, are left out. `Connection.Close` always succeeds, and the caller's stream is not closed, as in the source.
- Logging is left out.
- MD5 is a parameter of `Scan`, `md5: seq<byte> -> seq<byte>`, and is not computed. `MessageDigest.getInstance` cannot fail here, so `NoSuchAlgorithmException` is left out.
- `FileScanResponseDto` is reduced to the one field `scan` sets, its hash. `FileScanResponseDto` is not part of this model.
- `available()` is an oracle answering a finite list of counts, then 0. The network timing that decides those counts is left out.
- ClamAV.Scan: the oracle is not tied to the inbound stream. So the model also admits a positive poll followed by end of stream or by an empty delivery, which a real socket cannot produce. Those runs end in `IndexOutOfBounds` or with an empty reply. The promise that an aborted scan reports the daemon's reply is proved only for sockets whose polls are truthful (`HasBytes`, `TruthfulPolls`).
- ClamAV.Scan: it requires `md5` to return 16 bytes for every input, as MD5 does.
- `InStream` may make an empty delivery, so a read asking for bytes can return 0. `java.io.InputStream` promises never to do this. The model keeps the case so that `ZeroReadEndsStreamEarly` can show what the client would send.
- Java `int` widths are not modelled. Counts here are at most 2048, and `Framing.Be32` requires a value below 2^32, which every block meets.
- ClamAV.SendBlock: does not state the buffer's contents after a poll that finds a reply, because the loop stops there and never reads the buffer again.
- ClamAV.Scan: the hash text is stated, not the Java `StringBuilder`. `StringUtils.isEmpty` is modelled as a length test.
