# A verified model of pgprtdbg

pgprtdbg sits between a PostgreSQL client and a PostgreSQL server. It forwards every byte in both
directions and, on the side, rebuilds the protocol messages from the chunks its reads happen to deliver,
so that it can log and trace them. This project models that program in Dafny and proves what it promises,
or the exact condition under which it keeps its promise.

| file | what it models |
|---|---|
| `Options.dfy`, `Constants.dfy`, `Runs.dfy` | an option type, the shared limits, and runs of a state machine |
| `Bytes.dfy`, `IntegerCodec.dfy` | bytes, C strings, and the shift-and-or readers and byte-copying writers, on C's fixed-width integers |
| `Framing.dfy` | one pass of the framing loops of `pgprtdbg_client` and `pgprtdbg_server`: `Examine` is one round, `Drain` the loop, `Feed` one read |
| `ClientStream.dfy`, `ServerStream.dfy` | the trace of one direction and how its bytes were split into reads |
| `SharedStream.dfy` | both directions on the one static buffer they share |
| `TraceLines.dfy`, `TraceFile.dfy` | the text of a trace line; the file that all workers append to |
| `Counters.dfy` | the traffic counters of a client |
| `Protocol.dfy` | class `Tracer`: the static buffer, kind and length, and the two loops that rewrite them, with the refusals that the client's loop sends on its way |
| `Wire.dfy`, `Decoders.dfy`, `Walks.dfy` | the message formats as encoders, and the decoders proved against them |
| `Dump.dfy` | the hex and character dump in its fixed buffer |
| `Writing.dfy`, `Forwarding.dfy`, `Pipeline.dfy` | the partial-write loop; the worker as a state machine over whatever its sockets do; class `Worker` with the two callbacks, proved to be its transitions |
| `Connections.dfy` | the acceptor, any number of workers, the pid table, the connection count and the counters, as an interleaving transition system, and the loops on the shared memory |
| `LogLock.dfy` | the compare-and-swap lock with its timeout |
| `Configuration.dfy` | the configuration file: key and value of a line, sections, and the text fields |

What a packet, a line, a dump or a setting looks like is stated with the numbers and characters themselves
(`RequestVerdict`, `TaggedVerdict`, `LineShows`, `DumpLayout`, `LineIsReadBack`, `BindBytes` and their like), so that the
specification functions are tied to the formats and not only to the code.

The loops of the program are methods on arrays and fields. Each is proved to compute a specification
function or to make a transition of a specified state machine, and the theorems are about those. The reads
and writes of sockets, and the order in which callbacks and processes run, are arbitrary parameters.

## What holds, and what only holds under a condition

- **Chunks.** A client's trace is independent of how its bytes were split into reads exactly when no read
  ends inside a start-up packet of which eight bytes or more are in: the start-up branch does not wait for
  the whole packet. A server's trace is right exactly when no read has bytes on both sides of the end of a
  one-byte refusal `N` and none ends just behind the first byte of a NoticeResponse.
- **One buffer for two directions.** Frames and remainder are always the bytes in the order of the calls. Each
  direction is at every point of a run as on a buffer of its own exactly when the direction only changes while
  the buffer is empty. Without that a ReadyForQuery can go untraced (`SharingMixesDirections`); it can also
  happen that the end of the run looks right all the same (`DirectionsMayMixUnseen`).
- **Forwarding.** What a peer gets is always a prefix of what the other one sent and is all of it between
  callbacks of a running worker. Only the answers to protocol version 2 requests are added: at most 21 bytes for
  each request, however long a call lasts, exactly when the loop does not spin on a request of length 0. Such a
  request is answered in every round, for ever (`EmptyRequestIsAnsweredForever`).
- **Decoders.** Parse, RowDescription and DataRow invert their encoders, and Bind is read back, all stopping at
  the end of the frame. The counts of Bind and Parse are unsigned on the wire and signed in the code: they are
  recovered exactly when they are below 32768. The loop of DataRow ends exactly when there are fewer than 32767
  columns. The loops over an ErrorResponse and over SASL mechanisms stop early; they see everything exactly when
  the last text has three characters and the last name has eight.
- **Dump.** It has the stated layout for all bytes. It spells the bytes exactly when all are below 128 or are
  255: `%02X` of a negative `signed char` has eight digits and the cursor moves two places on. The
  printed text ends where the dump ends except for the inputs of up to four bytes that `Clean` excludes.
- **Trace lines.** A line never reaches the 128-byte limit. Kind `'5'` and kind 5 print the same.
- **Trace file.** In every interleaving of workers it is whole lines and at most the beginning of one more. The
  lines of a worker are those of the tagged packets of its run, in parse order, exactly when its loop does not
  spin on a packet with a kind and length -1: the line of such a packet is written in every round, so that five
  bytes of a client fill the file (`EmptyFlushFillsTheFile`).
- **Bookkeeping.** The pid table is right at all times, and with it the signals of a shutdown, exactly in the runs
  in which no store hits a place that was taken after it had been found free and no worker with a place leaves
  through `exit(1)` inside `fe_zero` or crashes. `OverlappingClaimsLoseAWorker` and `AbortLeavesTraces` are runs of either kind.
- **Log lock.** Processes exclude each other exactly in the runs in which nobody gives up waiting while another is
  inside, and nobody acquires the lock between a timeout that returned on a free word and that process's unlock
  or end. The second half is needed (`PatienceIsNotEnough`): the holder may unlock while a refused process sleeps.
- **Severity check.** It stays inside the message memory for all contents exactly when the memory has 25 bytes.
- **Configuration.** `key = value` is read back exactly for plain keys and values, and the last line that sets a
  key wins. A text field takes a new value exactly when it has at most 127 characters and the old text is not
  longer.

Where the code and what one would expect of it differ, the model follows the code.

## Model

| member | source | states |
|---|---|---|
| IntegerCodec.DecodeOfEncode | src/libpgprtdbg/utils.c:129-162 | reading after writing gives back every signed integer that fits, at every width, 32 and 64 bits among them |
| IntegerCodec.EncodeOfDecode | src/libpgprtdbg/utils.c:65-114 | writing after reading gives back the bytes, at every width |
| IntegerCodec.ShiftOrIsBigEndian | src/libpgprtdbg/utils.c:77-114 | shifting the bytes and or-ing them, on signed integers of the result's width, is big-endian two's complement (`read_int32` for four bytes, `read_long` for eight) |
| IntegerCodec.ShiftOr16IsBigEndian | src/libpgprtdbg/utils.c:65-74 | so it is for `read_int16`, whose first operand is sign-extended before the or |
| IntegerCodec.ReadInt16 | src/libpgprtdbg/utils.c:65-74 | returns the big-endian number at the cursor |
| IntegerCodec.ReadInt32 | src/libpgprtdbg/utils.c:77-88 | returns the big-endian number at the cursor |
| IntegerCodec.WriteInt | src/libpgprtdbg/utils.c:129-162 | copying the host's bytes backwards puts the big-endian encoding into the field and touches no other byte |
| Framing.DrainConserves | src/libpgprtdbg/protocol.c:113-197 | frames cut, followed by what is left, are the buffered bytes in order |
| Framing.RestIsIncomplete | src/libpgprtdbg/protocol.c:116-197 | what a loop that came to rest leaves behind is no complete frame |
| Framing.FailureIsAtRest | src/libpgprtdbg/protocol.c:116-197 | a loop that failed did so on what it left behind |
| Framing.ExamineExtends | src/libpgprtdbg/protocol.c:120-146 | a round that cuts a frame cuts the same one when more bytes follow, a lone `N` excepted |
| Framing.ExamineConforming | src/libpgprtdbg/protocol.c:120-146 | a well-formed packet at the front of the buffer is cut off whole; a one-byte `N` if nothing follows |
| Wire.StartupVerdict | src/libpgprtdbg/protocol.c:120-127 | for every start-up header with a length below 2^24 and any 32-bit code: the client's loop exits on a code that is none of 3·65536, 1234·65536 + 5678, 5679 and 5680, and 2·65536; otherwise it cuts off as many bytes as the length says, overruns if there are fewer and spins if that is none |
| Wire.RequestVerdict | src/libpgprtdbg/protocol.c:419-490 | eight bytes that announce themselves are cut off exactly for these five codes, whatever follows |
| Wire.TaggedVerdict | src/libpgprtdbg/protocol.c:128-191 | for every kind and every 32-bit length, in both loops: -1 spins, a smaller one and 2147483647 wait without end, any other waits for the packet and cuts it off whole, a DataRow of 32767 columns excepted |
| Wire.ShortVerdict | src/libpgprtdbg/protocol.c:225-233 | a buffer too short for a header waits, the server's single `N` alone is a packet |
| Protocol.OnlyVersion2IsAnswered | src/libpgprtdbg/protocol.c:481-486 | for every code, a round sends a refusal exactly for 2·65536 |
| Framing.DrainExtends | src/libpgprtdbg/protocol.c:113-197 | looping, then appending and looping again, is looping once over everything, unless the first loop failed or took a lone `N` |
| ClientStream.FeedAllIsDrain | src/libpgprtdbg/protocol.c:113-197 | piecemeal reads give the frames and remainder of one read of everything, and fail exactly when some prefix of the reads, read at once, fails |
| ClientStream.PrefixFails | src/libpgprtdbg/protocol.c:120-127 | the loop fails on a prefix of a stream it can parse exactly when the prefix stops inside a start-up packet, past its eighth byte |
| ClientStream.ChunkInvariance | src/libpgprtdbg/protocol.c:113-197 | for every parseable client stream and every split into reads: same frames and remainder as in one read, if and only if no read ends inside a start-up packet with eight or more bytes in; and the remainder is no complete frame |
| ClientStream.ConformingStreamIsTraced | src/libpgprtdbg/protocol.c:113-197 | for every stream of conforming packets and every split: exactly these packets are traced and nothing is left, if and only if the same condition holds |
| ServerStream.DrainVerdict | src/libpgprtdbg/protocol.c:221-332 | one loop over the start of a conforming server stream cuts exactly the complete packets if the read respects refusals and notices, and otherwise reaches a state no continuation repairs |
| ServerStream.DoomStays | src/libpgprtdbg/protocol.c:218-332 | such a state is indeed never repaired: whatever is read next, it stays one |
| ServerStream.FeedAllVerdict | src/libpgprtdbg/protocol.c:218-332 | so do all reads together |
| ServerStream.ConformingStreamIsTraced | src/libpgprtdbg/protocol.c:218-332 | for every stream of conforming server packets with one-byte refusals and every split: exactly these packets are traced and nothing is left, if and only if no read has bytes on both sides of the end of a refusal and none ends just behind the first byte of a NoticeResponse; a DataRow of 32767 columns is none of them, see `RowIsCut` |
| ServerStream.EveryPrefixIsIdeal | src/libpgprtdbg/protocol.c:218-332 | under that condition every prefix of the reads has traced exactly the packets complete so far and holds exactly the incomplete rest |
| SharedStream.SharedConserves | src/libpgprtdbg/protocol.c:92-118 | in every interleaving of the two directions, traced frames followed by the shared buffer are the bytes read, in call order; the buffer is no complete frame of the direction read last |
| SharedStream.SharedIsSplit | src/libpgprtdbg/protocol.c:92-97 | if the direction changes only while the buffer is empty, each direction is traced as on a buffer of its own, and the run fails only if a direction would alone |
| SharedStream.SharingIsHarmless | src/libpgprtdbg/protocol.c:92-97 | in a run that comes to rest, each direction has at every point the frames and the held bytes it would have on a buffer of its own, if and only if the direction changes only while the buffer is empty |
| SharedStream.ConnectionIsTraced | src/libpgprtdbg/protocol.c:100-337 | a whole connection of conforming packets, in every interleaving: every packet of each direction is traced once, in order, nothing is left and at no point did a direction hold or lose bytes of the other, if and only if switches are clean and the reads respect start-up packets, refusals and notices |
| SharedStream.SharingMixesDirections | src/libpgprtdbg/protocol.c:92-97 | a client's first byte in the buffer makes a complete ReadyForQuery of the server go untraced, which alone is traced |
| SharedStream.DirectionsMayMixUnseen | src/libpgprtdbg/protocol.c:92-97 | a run with an unclean switch whose end is right in both directions, so agreement at every point cannot be replaced by agreement at the end |
| TraceLines.LineIsWhole | src/libpgprtdbg/protocol.c:340-405 | every line is the complete format output, shorter than 128 characters, and its only newline is its last character |
| TraceLines.KindTextCollides | src/libpgprtdbg/protocol.c:350-398 | two kinds print alike if and only if they are equal or are a digit character and the control character of its value |
| TraceLines.LineIsReadable | src/libpgprtdbg/protocol.c:350-398 | equal lines with socket numbers have the same side, both sockets and the same kind text |
| TraceLines.LineShows | src/libpgprtdbg/protocol.c:350-398 | read back by its commas, every line shows the letter of the side, with sockets the one the packet came from and then the one it went to as decimal numbers without leading zeros, and the kind: a letter, a digit or `?` as itself, any other as a number |
| TraceFile.StepKeepsInv | src/libpgprtdbg/protocol.c:348-404 | every step keeps: the file is the completed lines and the holder's partial line; the lines of each worker's run, with one for each round of a loop that spins, are its completed ones followed by those it has still to write |
| TraceFile.FileIsWholeLines | src/libpgprtdbg/protocol.c:348-404 | with any number of workers in any interleaving the file is whole lines plus at most the beginning of the semaphore holder's line; each worker's lines, with those still to be written, are those of the tagged packets its run on the shared buffer traced, in parse order, and then the line it spins on once for each round |
| TraceFile.LinesAreOfPackets | src/libpgprtdbg/protocol.c:130-191 | in every run a worker's lines are exactly those of its tagged packets if and only if it does not spin on a packet with a kind and length -1 |
| TraceFile.EmptyFlushFillsTheFile | src/libpgprtdbg/protocol.c:128-191 | five bytes of a client have their line written any number of times although no packet is traced |
| TraceFile.FileShowsConnection | src/libpgprtdbg/protocol.c:100-405 | for a connection of conforming packets read as the loops need, the worker's client lines in the file show, one by one, `C`, the client's and the server's socket and the kinds of the client's tagged packets in the order sent, and its server lines `S`, the sockets the other way round and those of the server's, whatever other workers do |
| TraceFile.TraceLinesAreLines | src/libpgprtdbg/protocol.c:350-402 | the lines `output_write` produces end in their only newline and begin with the letter of their side |
| Protocol.DataAppend | src/libpgprtdbg/utils.c:527-549 | the new buffer is the old one, or nothing for NULL, followed by the new bytes; its size is right |
| Protocol.DataRemove | src/libpgprtdbg/utils.c:552-576 | the new buffer is the old one without its first bytes, NULL exactly when nothing is left |
| Protocol.Tracer.constructor | src/libpgprtdbg/protocol.c:92-97 | starts with nothing buffered, traced or written |
| Protocol.AnsweringIsDraining | src/libpgprtdbg/protocol.c:116-127 | up to the first round that removes nothing: the refusals sent inside the loop do not change what it cuts off as long as their writes come back; one that does not leaves the loop at its request with the earlier frames cut off; at most 21 bytes are sent for each request |
| Protocol.LinesShow | src/libpgprtdbg/protocol.c:186-188 | the lines of a loop show its tagged packets one by one and nothing else |
| Protocol.LastingIsDraining | src/libpgprtdbg/protocol.c:116-127 | the same however long a loop that spins is watched, with at most 21 bytes more for each further round on a request |
| Protocol.RefusalsAreBounded | src/libpgprtdbg/protocol.c:481-486 | for all results of the writes and all numbers of rounds, 21 bytes for each request are not exceeded, if and only if the loop does not spin on a request |
| Protocol.SpinningRefusesForever | src/libpgprtdbg/protocol.c:120-127 | a loop that spins on a request sends 21 bytes in every round if they are taken |
| Protocol.Tracer.Append | src/libpgprtdbg/protocol.c:113-114 | the read is behind what was buffered |
| Protocol.Tracer.Cut | src/libpgprtdbg/protocol.c:125-126 | the frame is off the front of the buffer, the rest stays, and data is NULL exactly when its size is 0 |
| Protocol.Tracer.TaggedRound | src/libpgprtdbg/protocol.c:128-191 | the branch for packets with a kind does what `Examine` says, with the unsigned comparison of a negative length plus one; its line is written before the packet is cut off, also when the packet has size zero and nothing is cut off |
| Protocol.Tracer.StartupRound | src/libpgprtdbg/protocol.c:120-127 | the start-up branch does what `Examine` says: no wait for the rest, exit on unknown requests; a version 2 request is answered before its packet is cut off, and a write that does not come back leaves the state as it was |
| Protocol.Tracer.ClientRound | src/libpgprtdbg/protocol.c:118-196 | one round of the client's loop is one verdict of `Examine`, its line and its answer |
| Protocol.Tracer.ClientLoop | src/libpgprtdbg/protocol.c:116-197 | the rounds up to the first that removes nothing are `Answering`, with their lines |
| Protocol.Tracer.ClientSpins | src/libpgprtdbg/protocol.c:116-197 | further rounds that remove nothing leave the buffer as it is and repeat line and answer |
| Protocol.Tracer.ServerRound | src/libpgprtdbg/protocol.c:223-331 | one round of the server's loop is one verdict of `Examine` with its line, the lone `N` without one |
| Protocol.Tracer.ServerLoop | src/libpgprtdbg/protocol.c:221-332 | the rounds up to the first that removes nothing are `Drain`, with their lines |
| Protocol.Tracer.ServerSpins | src/libpgprtdbg/protocol.c:221-332 | further rounds that remove nothing leave the buffer as it is and repeat the line |
| Protocol.Tracer.Client | src/libpgprtdbg/protocol.c:100-202 | the call is the loop of `Lasting` over the old buffer and the read: frames, remainder and failure, the bytes sent to the client and whether that came back, one trace line for each tagged frame in order and for each round of a loop that spins on one, and the counters; the bytes read stay as they are |
| Protocol.Tracer.Server | src/libpgprtdbg/protocol.c:205-337 | the call is one step of the shared-buffer run: frames, remainder and failure, one trace line for each tagged frame in order and for each round of a loop that spins on one, and the counters |
| Wire.PacketLayout | src/libpgprtdbg/protocol.c:128-135 | an encoded packet is a conforming frame, but for the endless DataRow, whose length word plus one is its size |
| Wire.FieldLayout | src/libpgprtdbg/protocol.c:1125-1152 | in a column description the table is right behind the name's NUL, the attribute number 4, the type 6, its size 10, the modifier 12 and the format 16 bytes further on |
| Wire.BindBytes | src/libpgprtdbg/protocol.c:495-558 | the encoded Bind of an example, byte by byte |
| Wire.ParseBytes | src/libpgprtdbg/protocol.c:650-684 | the encoded Parse of an example, byte by byte |
| Wire.DataRowBytes | src/libpgprtdbg/protocol.c:867-909 | the encoded DataRow of an example, byte by byte |
| Walks.SaslBytes | src/libpgprtdbg/protocol.c:1052-1063 | the encoded AuthenticationSASL of an example, byte by byte |
| Decoders.DecodeBind | src/libpgprtdbg/protocol.c:495-558 | on any frame, well-formed or not: what the decoder reads and where its cursor stops, or that it reads behind the frame |
| Decoders.BindIsRead | src/libpgprtdbg/protocol.c:495-558 | for every Bind with unsigned 16-bit counts the names and the three counts are recovered, all reads are inside the frame and the cursor stops at `length + 1`, if and only if all three counts are below 32768 |
| Decoders.FittingBindIsRead | src/libpgprtdbg/protocol.c:495-558 | the half of it that follows the cursor over both names, the format codes, the values with NULLs among them, and the result codes |
| Decoders.LargeCountIsNegative | src/libpgprtdbg/protocol.c:523-526 | a count of values from 32768 on is logged as itself less 65536 |
| Decoders.NegativeTakesNothing | src/libpgprtdbg/protocol.c:517-541 | no loop runs for a count that is not positive, and no byte is taken for a negative length |
| Decoders.DecodeParse | src/libpgprtdbg/protocol.c:650-684 | for every Parse with an unsigned 16-bit count the names are recovered; the count is if and only if it is below 32768, and then so are all parameter types in order and the cursor stops at `length + 1`; otherwise the loop is skipped |
| Decoders.DecodeField | src/libpgprtdbg/protocol.c:1123-1153 | all seven parts of a column description are recovered |
| Decoders.DecodeRowDescription | src/libpgprtdbg/protocol.c:1102-1154 | for every well-formed RowDescription all fields are recovered in order, and the cursor stops at `length + 1` |
| Decoders.ReadValue | src/libpgprtdbg/protocol.c:884-906 | a column's length word and bytes are recovered; NULL takes no bytes |
| Decoders.SkipValues | src/libpgprtdbg/protocol.c:526-541 | where the loop over the values and their bytes stops, a negative length having no bytes, or that it leaves the frame |
| Decoders.SkipNumbers | src/libpgprtdbg/protocol.c:517-521 | where the loop over 16-bit numbers stops, none for a negative count, or that it leaves the frame |
| Decoders.DecodeDataRow | src/libpgprtdbg/protocol.c:867-909 | for every well-formed DataRow of fewer than 32767 columns the count, every column's length word and bytes are recovered in order, and the cursor stops at `length + 1` |
| Decoders.ColumnLoopEnds | src/libpgprtdbg/protocol.c:882-882 | the loop with its 16-bit variable ends if and only if there are fewer than 32767 columns, and then after that many rounds |
| Decoders.RowIsCut | src/libpgprtdbg/protocol.c:881-908 | a DataRow is cut off and traced, whatever follows it, if and only if it has fewer than 32767 columns |
| Walks.SplitIsExact | src/libpgprtdbg/protocol.c:422-455 | cutting behind every NUL gives one piece for each NUL, each with exactly one, at its end; pieces and tail concatenate to the whole |
| Walks.CountPass | src/libpgprtdbg/protocol.c:424-434 | pass one counts the NULs between offset 8 and the last byte |
| Walks.CopyPass | src/libpgprtdbg/protocol.c:438-455 | pass two fills exactly the slots pass one sized, none outside the array, with the pieces in order |
| Walks.StartupParameters | src/libpgprtdbg/protocol.c:422-455 | the two passes agree: as many pieces as NULs counted, and they are the pieces of the parameter region |
| Walks.StartupIsRead | src/libpgprtdbg/protocol.c:422-455 | for every conforming StartupMessage the pieces are its strings, and together they are all but the final terminator |
| Walks.WalkError | src/libpgprtdbg/protocol.c:912-935 | for every well-formed ErrorResponse a prefix of the fields is visited in order, stopping inside the frame, the rest being at most four bytes; all are visited if and only if there are none or the last text has three characters |
| Walks.WalkSasl | src/libpgprtdbg/protocol.c:1054-1063 | for every well-formed mechanism list a prefix is visited in order, the rest being at most eight bytes; all are visited if and only if there are none or the last name has eight characters |
| Dump.DumpLayout | src/libpgprtdbg/logging.c:171-218 | the dump in every place: `3n + 2((n-1)/32) + 1` characters; at `2i + i/32` the two digits of byte `i` in upper case, FF from 128 on; at `i + i/32` of the second section the byte itself from 32 to 127 and `?` otherwise; line breaks between the sections and before every 32nd byte |
| Dump.HexIsPattern | src/libpgprtdbg/logging.c:190-190 | the digits printed spell the 32-bit pattern of the promoted signed character |
| Dump.DumpIsReadable | src/libpgprtdbg/logging.c:182-193 | the digits spell the bytes if and only if each is below 128 or is 255 |
| Dump.CleanEnd | src/libpgprtdbg/logging.c:190-218 | the place behind the dump holds a NUL if and only if the bytes are not one of the short inputs whose eight-digit outputs reach behind it |
| Dump.ReadFits | src/libpgprtdbg/configuration.c:309-314 | whatever buffer size is configured, the dump of a read fits 256 KiB |
| Dump.SprintfHex | src/libpgprtdbg/logging.c:190-190 | two or eight digits and a NUL are written at the cursor, inside the buffer, and nothing else changes |
| Dump.WriteHex | src/libpgprtdbg/logging.c:182-193 | the first loop leaves the hex section up to the cursor and the residue of the eight-digit outputs behind it |
| Dump.WriteChars | src/libpgprtdbg/logging.c:199-218 | the second loop appends the character section and changes nothing behind its cursor |
| Dump.DumpMemory | src/libpgprtdbg/utils.c:389-428 | both loops from a zeroed buffer: cursor, contents, residue, and the printed C string, which is exactly the dump if and only if the bytes are `Clean` |
| Writing.OkMeansAll | src/libpgprtdbg/message.c:216-268 | OK is returned if and only if everything was sent; an error only after a write failed |
| Writing.SentIsTaken | src/libpgprtdbg/message.c:229-265 | exactly the bytes the writes took before the first failure count as sent, up to the length; OK if and only if that is all, an error if and only if it is less and a write failed |
| Writing.StallsBoundTheLoop | src/libpgprtdbg/message.c:229-265 | a call that has not come back has had at most as many results as stalls plus bytes sent, so it returns when the stalls are finitely many |
| Writing.WriteMessage | src/libpgprtdbg/message.c:216-268 | over every sequence of write results the bytes accepted are the first of the message, once and in order, as many as the writes took; OK if and only if all were taken, an error if and only if a write failed before; `offset == totalbytes == length - remaining` throughout |
| Writing.RefusalIsText | src/libpgprtdbg/message.c:124-157 | the refusal is `E`, `connection refused` and a NUL, and the empty message goes out behind it also when its write failed, each as far as its writes took it |
| Writing.SendRefusal | src/libpgprtdbg/message.c:124-157 | 20 bytes and then one zero byte are sent as far as the writes take them, errors ignored, and it says whether a write has not come back |
| Forwarding.EveryRunKeepsInv | src/libpgprtdbg/pipeline.c:47-254 | every reachable state of a worker keeps the forwarding invariant |
| Forwarding.ProxyIsTransparent | src/libpgprtdbg/pipeline.c:57-79 | in every run against arbitrary reads and writes each peer got a prefix of what the other sent, all of it between callbacks while running, and the trace is that of the bytes read, cut short only by a refusal whose write has not come back |
| Forwarding.CountersAreTraffic | src/libpgprtdbg/protocol.c:110-111 | in every run the counters hold the number of reads and of bytes of each direction, modulo 32 and 64 bits |
| Forwarding.SeverityDecides | src/libpgprtdbg/pipeline.c:165-191 | for every error of the server with a severity and a code of five letters, whatever follows, that is read at once and passed on in full: the worker stops, reporting 4, if and only if the severity is FATAL or PANIC and the code is not 0A000 |
| Forwarding.OthersGoOn | src/libpgprtdbg/pipeline.c:165-174 | a read of the server that begins with any other letter and is passed on leaves the worker running |
| Forwarding.TerminateEnds | src/libpgprtdbg/pipeline.c:67-78 | a read of the client that is passed on ends the worker, reporting 0, if and only if it begins with `X` |
| Forwarding.ExitCodes | src/libpgprtdbg/pipeline.c:92-142 | 2 for the client's socket, 3 for the server's, 1 when the server has closed its side or a signal ends the worker |
| Forwarding.SeverityCheckNeeds25 | src/libpgprtdbg/pipeline.c:176-184 | the severity check stays inside the memory for all contents if and only if it has at least 25 bytes |
| Forwarding.InjectionsAreAnswers | src/libpgprtdbg/protocol.c:481-486 | in every run the bytes added towards the client are at most 21 for each version 2 request answered and for each further round of a loop that spins on one; for the requests alone unless the run ends in such a loop; none without requests |
| Forwarding.EmptyRequestIsAnsweredForever | src/libpgprtdbg/protocol.c:120-127 | a run in which one request of eight bytes is answered any number of times |
| Forwarding.NothingIsInjected | src/libpgprtdbg/pipeline.c:165-178 | without such requests the client's bytes are exactly the server's, in order |
| Pipeline.Worker.constructor | src/libpgprtdbg/worker.c:66-75 | a worker starts running, with failure as its exit code, zeroed memory and nothing buffered |
| Pipeline.Worker.ReadMessage | src/libpgprtdbg/message.c:160-213 | at most the memory's size is read to its front and the old bytes behind stay; a read that brings nothing clears it; the status tells which |
| Pipeline.Worker.MemoryFree | src/libpgprtdbg/memory.c:88-96 | the memory is zero and keeps its size |
| Pipeline.Worker.TraceClient | src/libpgprtdbg/pipeline.c:60-60 | the bytes read are traced and counted and refusals go to the client, as in the transition `ClientGot`; the lines name the client's socket before the server's |
| Pipeline.Worker.PipelineClient | src/libpgprtdbg/pipeline.c:47-142 | the callback is the transition `OnClient` on memory, tracer, counter, `running`, `exit_code` and both sockets, and writes the lines of the loop over the read, from the client's socket to the server's |
| Pipeline.Worker.Compare | src/libpgprtdbg/pipeline.c:176-181 | says whether the memory has the text at the offset, or that the comparison runs past the memory |
| Pipeline.Worker.CheckSeverity | src/libpgprtdbg/pipeline.c:174-184 | says whether the error is fatal, or that one of its comparisons, in their order, runs past the memory |
| Pipeline.Worker.PipelineServer | src/libpgprtdbg/pipeline.c:145-254 | the callback is the transition `OnServer`, the severity check at fixed offsets included, and writes the lines of the loop over the read, from the server's socket to the client's |
| Pipeline.Worker.SigQuit | src/libpgprtdbg/worker.c:167-173 | the signal is the transition `OnQuit` |
| Connections.ActiveStep | src/libpgprtdbg/worker.c:97-100 | every step keeps the 16-bit count equal to the workers between increment and decrement plus those gone through `exit(1)` or a crash |
| Connections.HarmlessStep | src/libpgprtdbg/worker.c:77-84 | a step that is no store into a place taken meanwhile and no exit or crash of a worker with a place keeps the table live |
| Connections.HarmfulStep | src/libpgprtdbg/worker.c:77-84 | a step that is one of these makes the table wrong at once, and the signals of a shutdown with it |
| Connections.CounterStep | src/main.c:424-443 | every step keeps the first 1000 counters equal to the sums over their clients' reads and the client number equal to the index of the next client |
| Connections.ActiveConnectionsCount | src/libpgprtdbg/worker.c:97-159 | in every run with fewer than 65536 workers, `active_connections` is the number of workers between their increment and decrement if and only if the number of workers gone through `exit(1)` or a crash is a multiple of 65536 |
| Connections.PidTableIsLive | src/libpgprtdbg/worker.c:77-154 | in every run, each access to the table being a step: at all times each used place belongs to a live worker that stored itself there and each such worker is still there, if and only if no store hits a place taken after it had been found free and no worker with a place leaves through `exit(1)` or crashes |
| Connections.LiveTableIsDistinct | src/libpgprtdbg/worker.c:77-84 | no pid is twice in a live table |
| Connections.AbortLeavesTraces | src/libpgprtdbg/protocol.c:487-490 | one such exit or crash leaves a dead pid in the table and a connection in the count |
| Connections.OverlappingClaimsLoseAWorker | src/libpgprtdbg/worker.c:77-84 | a run in which two workers look before either stores, and the first to store goes on without a place in the table |
| Connections.CountersAreSums | src/libpgprtdbg/counter.c:39-74 | in every run all indices are inside the 1001 entries, the first 1000 clients have entries of their own, the shared one is never reported, and each reported one holds the reads and bytes of its worker in each direction modulo the field width |
| Connections.ShutdownSignalsLiveWorkers | src/main.c:371-377 | in every run: shutdown would at all times signal live workers only, each once, and every registered one, if and only if the same condition holds |
| Connections.SharedMemory.constructor | src/libpgprtdbg/configuration.c:54-81 | starts with an empty table, zero counters and no connections |
| Connections.SharedMemory.ClaimSlot | src/libpgprtdbg/worker.c:77-84 | the first free place, if any, gets the pid, and no other changes |
| Connections.ClaimIsReplace | src/libpgprtdbg/worker.c:77-84 | the single looks and the store of the transition system, left alone, come to the same |
| Connections.SharedMemory.ReleaseSlot | src/libpgprtdbg/worker.c:147-154 | the first place with the pid, if any, becomes free, and no other changes |
| Connections.ReleaseIsReplace | src/libpgprtdbg/worker.c:147-154 | the single accesses of the transition system, left alone, come to the same |
| Connections.SharedMemory.Signals | src/main.c:371-377 | signals exactly the non-zero pids, in table order |
| Connections.Acceptor.AcceptClient | src/main.c:404-443 | a connection is taken exactly while at most 1000 are active and `accept` gives a socket, and the worker gets the index of the next client, capped at the shared entry |
| Connections.SignalledIsUsed | src/main.c:371-377 | the signalled pids are the non-zero ones of the table |
| Connections.SignalledOnce | src/main.c:371-377 | none is signalled twice if none is in the table twice |
| LogLock.Lock | src/libpgprtdbg/logging.c:98-132 | the lock is taken at the first attempt that finds it free, unless a second passed before, which returns without it |
| LogLock.ConditionsExclude | src/libpgprtdbg/logging.c:95-142 | under both conditions at most one process is inside at every point, and while the word is free a process inside came in by a timeout on a free word |
| LogLock.ExclusionIsPatience | src/libpgprtdbg/logging.c:95-142 | over every run, attempt, sleep and timeout being separate steps: the processes exclude each other throughout if and only if nobody gives up waiting while another is inside, and nobody acquires between a timeout that returned on a free word and that process's unlock or end |
| LogLock.PatienceIsNotEnough | src/libpgprtdbg/logging.c:109-132 | the first condition alone does not exclude: the holder unlocks during the sleep of a refused process, which returns by timeout, and a third one acquires |
| LogLock.LockWordIsExact | src/libpgprtdbg/logging.c:95-142 | without timeouts and exits inside, the word is in use exactly while one process is inside |
| LogLock.OnlyUnlockFrees | src/libpgprtdbg/logging.c:95-142 | once the word is in use nobody acquires until some process unlocks, in every run |
| LogLock.QuitAbandonsTheWord | src/libpgprtdbg/protocol.c:487-490 | a holder that exits inside leaves the word in use with nobody inside |
| Configuration.ExtractKeyValue | src/libpgprtdbg/configuration.c:450-484 | sets key and value to those of the line where it has them and leaves the rest as it was, reading only inside the string |
| Configuration.SettingIsReadBack | src/libpgprtdbg/configuration.c:450-484 | `key = value` and a newline is read back if and only if the key has no space or `=` and the value has no space, carriage return or newline and does not start with a tab or `=` |
| Configuration.LineIsReadBack | src/libpgprtdbg/configuration.c:450-484 | so it is for every separator of spaces, tabs and `=` that starts with no tab, and for lines that end in a newline or in a carriage return and a newline |
| Configuration.ReadConfiguration | src/libpgprtdbg/configuration.c:112-386 | although key and value pointers live across lines, the loop does what reading each line on its own does |
| Configuration.PairsAreLines | src/libpgprtdbg/configuration.c:112-386 | the pairs acted on are those that single lines say, each once and in the order of the lines, each in the section of the last section line before |
| Configuration.LastLineWins | src/libpgprtdbg/configuration.c:112-386 | a key has in the end the value of the last line that sets it, and none if no line does |
| Configuration.FailureStays | src/libpgprtdbg/configuration.c:136-140 | a second server section ends the reading |
| Configuration.SectionIsOpened | src/libpgprtdbg/configuration.c:116-147 | `[name]` opens the section of that name, cut at 127 characters, and fails the reading if it is the second one not called `pgprtdbg` |
| Configuration.CommentSaysNothing | src/libpgprtdbg/configuration.c:148-151 | a line that begins with `#` or `;`, or with `[` and has no `]`, says nothing |
| Configuration.SettingIsApplied | src/libpgprtdbg/configuration.c:153-380 | any other line with a plain key and value sets the key in the open section |
| Configuration.SecondServerFails | src/libpgprtdbg/configuration.c:130-140 | reading fails if and only if two lines open sections other than `pgprtdbg` |
| Configuration.BufferSize | src/libpgprtdbg/configuration.c:309-314 | never above 65535, and unchanged up to there |
| Configuration.StoreReplaces | src/libpgprtdbg/configuration.c:165-170 | a text field's text becomes the value if and only if the value has at most 127 characters and the old text is not longer; otherwise the value is cut and the old tail stays |

## Left out

- SharedStream.SharedIsSplit: one direction only; `SharingIsHarmless` has both.
- Decoders.DecodeRowDescription: the decoders other than Bind's are modelled on well-formed packets; what they read of others depends on memory behind the frame.
- Decoders.DecodeDataRow: 32767 columns are excluded, because the loop does not end on them (`ColumnLoopEnds`, `RowIsCut`).
- ServerStream.ConformingStreamIsTraced: apart from that DataRow, the theorems on framing presuppose decoders that return; those not modelled have no loop or a loop over the bytes of the packet.
- Pipeline.Worker.PipelineServer: a severity check that runs past the message memory is modelled as the end of the worker, since C leaves it undefined.
- TraceFile.FileIsWholeLines: the file grows by single characters under the semaphore; the C library's buffer is not modelled, nor is a process killed from outside while it holds the semaphore.
- Protocol.DataAppend: a reallocation in place is modelled as a new array.
- Protocol.Tracer.Client: a `length` of 2147483647 wraps to a negative sum, as compilers commonly do it; C leaves it undefined. Start-up packets and the lone `N` give no trace line, as in the code.
- The two words behind a CancelRequest, which the code logs, and the decoders that log only a letter or one string: they add nothing to the frames and the trace.
- The wording of the log, time stamps, headers of the traffic files, and begin and end markers. The dump loops of `pgprtdbg_log_mem` and `write_traffic` are the same text and are modelled once.
- Saving traffic and its identifier: they neither change the message nor the state.
- The event loop library: only that a turn runs each callback at most once and that the loop ends when `running` is cleared.
- Sockets, name resolution, signals set-up, the daemon mode and the command line: system calls and plumbing.
- Failure of memory allocation, of `fork` and of opening files.
- The conversion of boolean, integer and log-type values, the mapping of keys to fields, validation, and the copy of the server section, which starts from an uninitialised structure.
- Configuration lines longer than the line buffer: the lines are those that `fgets` delivers.
