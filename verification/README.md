# Models of the repository's C programs and of the Kore server core

Each `.dfy` file models one component and proves what it is for. Code that works by changing
things step by step is a class with the same fields, or a loop over an array, and each method is
proved against a function or a value; what the source promises is then a lemma about that function
or an invariant every method keeps. The operating system may do anything:
reads and writes take any number of bytes, allocations and calls fail at will, mappings land
anywhere, processes die between any two writes. Where it matters what it did, its answers are an
arbitrary script, so that a failure can be tied to the answer that caused it.

| file | models |
|---|---|
| CsvModel, CsvText, CsvParser, CsvPrinter, CsvFix | the push parser of libcsv with its growing buffer, the quoting printer, and the program that pipes one into the other |
| KoreBuf, HttpBody, FormText, Multipart | byte buffers, byte search, replace-all; reception of a request body; the search over a body that is only partly in memory, and uploads as slices of the body |
| Net, Msg, WebSocket | coalescing send queue, receive buffer, worker messages with routing by the parent, WebSocket frames (sections 5.2 and 5.3 of RFC 6455) |
| AcceptLock | the compare-and-swap accept lock of the workers, with crashes and recovery |
| Pool, Mem | element pools, and the allocator over flat byte-addressed memory |
| FileRef, Timer | reference-counted file cache, sorted timer queue |
| Base64, Gf2, Crc, Atoi, Pid | codecs and number conversions; polynomials over GF(2); the velocity-form controller |
| Bytes | bytes, machine sizes, byte orders |

Seven of the properties are false of the code as it stands. Each is proved with its exact condition
and with an input that shows it failing:

- A crash leaves the accept lock taken for ever exactly if it falls between the winning
  compare-and-swap and the write of `current`, or between the clearing of `current` and the
  releasing compare-and-swap; so does a clean exit while holding the lock; and nothing else does
  (`AcceptLock.EventLosesLock`, `RunLosesLock`, `LostForever`; `LockCanBeLost` has two workers and
  two events). Mutual exclusion itself holds always.
- In kore_worker_spawn the child stores 0 and then its pid in a table field that the parent stores to
  as well. A worker that dies while its 0 stands there, the parent's store being past, is never found
  by kore_worker_wait, and no other event has this effect (`AcceptLock.EventMakesNameless`,
  `RunMakesNameless`, `FoundUnlessNameless`, `NamelessForever`; `CanBeNameless` has seven events).
- The body file has one descriptor position for its own reader and for all uploads. Reading from an
  upload leaves the body's reader in step exactly if that reader had read as far as the bytes just
  returned; out of step it takes other bytes for the body. Rewinding the body restores it
  (`Multipart.HttpFile.Read`, `Request.TextIsBody`; `ReadsSkipAfterFileRead`, `OutOfStepExample`).
- The receiver of a WebSocket frame asks for more bytes than the frame has exactly if an extended
  length is used for a payload under 126 bytes (two-byte form) or under 127 (eight-byte form).
  Shortest-form lengths, which RFC 6455 demands, are safe (`WebSocket.FirstRequestWithinFrame`,
  `LongFormReadsPast`).
- The string conversion takes a comma for a minus sign, because the sign test is a range of
  characters; `Atoi.CommaCounts` says exactly when the result differs, and `CommaExample` has ",5".
- The bytes kore_malloc asks calloc for cover the block exactly up to twelve bytes below the
  largest size (`Mem.RequestCoversBlock`, `Mem.Heap.Malloc`, `RequestWraps`).
- `http_file_read` refuses a sound upload exactly if offset plus buffer size exceeds the largest size
  (`Multipart.HttpFile.RefusesExactly`, `RefusesLargestBuffer`).

## Model

| member | source | states |
|---|---|---|
| CsvModel.RunConcat | test_csv/libcsv.c:319-467 | parsing a then b is parsing a followed by b, callbacks included; a strict error in a hides b |
| CsvModel.ChunkIndependence | test_csv/libcsv.c:319-467 | cutting the input into any pieces changes neither the callbacks nor the final parser state |
| CsvModel.ResumeAgrees | test_csv/libcsv.c:340-352 | a parse that stopped early and was resumed at the returned offset agrees with one uninterrupted parse |
| CsvModel.LenientConsumesAll | test_csv/libcsv.c:355-460 | without CSV_STRICT there is no parse error on any input |
| CsvModel.Step | test_csv/libcsv.c:355-460 | the trailing-space count never exceeds the entry, so its subtractions never wrap |
| CsvText.UnquotedField | test_csv/libcsv.c:355-408 | at the start of a row or field, blanks, a text without quotes, delimiters, line ends and outer blanks, blanks again and then a delimiter or line end: the field reported is exactly that text, followed by the row at a line end |
| CsvText.UnquotedAtEnd | test_csv/libcsv.c:163-203 | the same at the end of the input |
| CsvText.StrictQuote | test_csv/libcsv.c:374-388 | in strict mode a quote inside an unquoted field stops the parse in front of it |
| CsvText.LenientQuote | test_csv/libcsv.c:374-388 | otherwise it is text, and the blanks in front of it too |
| CsvText.EmptyBeforeDelimiter | test_csv/libcsv.c:356-372 | only blanks in front of a delimiter are an empty field, which is null under CSV_EMPTY_IS_NULL |
| CsvText.EmptyBeforeLineEnd | test_csv/libcsv.c:356-372 | so are only blanks between a delimiter and a line end, and the row ends |
| CsvText.EmptyLine | test_csv/libcsv.c:356-372 | a line of blanks reports nothing, or under CSV_REPALL_NL an empty row |
| CsvText.EmptyAtEnd | test_csv/libcsv.c:163-203 | at the end of the input an empty field and the row behind a delimiter, nothing behind a line end |
| CsvText.QuotedField | test_csv/libcsv.c:355-460 | a quoted field is what stands between its quotes, whatever it is, without the blanks around them |
| CsvText.UnclosedAtEnd | test_csv/libcsv.c:163-203 | a quote that is never closed: the rest of the input is the field, or the error of CSV_STRICT_FINI |
| CsvText.JunkBehindQuote | test_csv/libcsv.c:410-460 | other text behind a closing quote stops a strict parse, and otherwise the quote belongs to the field |
| CsvText.PlainLines | test_csv/libcsv.c:319-467 | a file of lines of such fields parses to the rows of their texts |
| CsvParserObject.CsvParser.IncreaseBuffer | test_csv/libcsv.c:282-316 | the buffer grows by the wanted step halved as often as the allocator refused, and keeps the entry; out of memory exactly after refusals of every step down to one byte, too big only with no step to grow by |
| CsvParserObject.CsvParser.SubmitField | test_csv/libcsv.c:49-61 | reports the entry without trailing spaces (CsvText says what text that is), with the NUL behind it inside the buffer if asked for, and starts a new field |
| CsvParserObject.CsvParser.ConsumeAfterQuote | test_csv/libcsv.c:410-460 | the branch after a possible closing quote refines the model step, or is the strict error and changes no state |
| CsvParserObject.CsvParser.Parse | test_csv/libcsv.c:319-467 | on the real growing buffer, the consumed prefix gives exactly the model's callbacks and state (CsvText says which fields these are); stops early only for a strict error at that byte or because every step of a growth was refused |
| CsvParserObject.CsvParser.Finish | test_csv/libcsv.c:163-203 | csv_fini reports the pending field and row and resets, or is the strict-fini error and changes nothing |
| CsvPrinter.Write2 | test_csv/libcsv.c:482-516 | returns the size of the whole quoted field, saturating, and stores exactly the prefix that fits, nothing beyond it |
| CsvPrinter.PrintedText | test_csv/libcsv.c:482-516 | a text without quotes is printed between two quotes, and each quote in a text twice |
| CsvPrinter.Fwrite2 | test_csv/libcsv.c:519-545 | writes the same quoted text as the buffer printer up to the first character the stream refuses, and reports EOF exactly then; without a source writes nothing |
| CsvPrinter.ParseField | test_csv/libcsv.c:355-460 | a quoted field followed by a delimiter or a line feed parses to exactly its bytes, whatever they are |
| CsvPrinter.PrintThenParse | test_csv/libcsv.c:348-516 | round trip under every option combination: printed non-empty rows parse back to exactly their fields and row ends, with no strict error and nothing pending |
| CsvFix.CallsAreProper | test_csv/libcsv.c:355-460 | with options 0 no row is reported without a field, no field is null, and none stays open after csv_fini |
| CsvFix.EmitPrintsRows | test_csv/main.c:83-95 | appending fields with commas and seeking back over the last comma at row end prints exactly the reported rows |
| CsvFix.FixPrintsRows | test_csv/main.c:50-95 | the output file is the printed form of the rows of the input |
| CsvFix.FixPreservesRows | test_csv/main.c:50-95 | the canonical file parses to the same rows of fields as the original |
| CsvFix.FixIdempotent | test_csv/main.c:50-95 | canonicalising twice is canonicalising once |
| CsvFix.FixIsCanonical | test_csv/main.c:50-95 | two files have the same canonical form if and only if they have the same rows |
| CsvFix.FixPlainFile | test_csv/main.c:50-95 | a file of unquoted fields, with or without blanks around them, becomes exactly their texts, each between quotes |
| CsvFix.FixExample | test_csv/main.c:50-95 | the line of a, a blank, a comma and b becomes the two quoted letters with a comma between them |
| CsvFix.FixFile | test_csv/main.c:50-79 | the block loop with any read sizes, parser object and callbacks leaves exactly the canonical file; it fails, and leaves none, if a read failed, and otherwise only if the allocator refused every step down to one byte or the entry cannot grow further |
| KoreBuf.IndexOfIsFirst | kore-3.2.0/src/utils.c:545-562 | what the search function finds is the first occurrence, and none found means there is none |
| KoreBuf.MemFind | kore-3.2.0/src/utils.c:545-562 | kore_mem_find returns the leftmost occurrence within the given bytes |
| KoreBuf.Buf.Append | kore-3.2.0/src/buf.c:66-79 | the contents become the old contents and the new bytes, through a reallocation if needed |
| KoreBuf.Buf.ReplaceString | kore-3.2.0/src/buf.c:147-182 | terminates and leaves the left-to-right replacement of the old contents |
| KoreBuf.ReplaceAllIsJoin | kore-3.2.0/src/buf.c:147-182 | replacement cuts the text at its leftmost non-overlapping occurrences and joins the pieces with the new text, never rescanning it |
| KoreBuf.LeftmostPiecesUnique | kore-3.2.0/src/buf.c:147-182 | there is only one such way to cut a text |
| HttpBody.Reception.Begin | kore-3.2.0/src/http.c:783-836 | the bytes that came with the headers start the body, and no more is asked for than is missing |
| HttpBody.Reception.BodyRecv | kore-3.2.0/src/http.c:1763-1811 | a read of any size is stored in order and counted, a failed or short write ends the request, and the last byte completes it |
| HttpBody.Reception.RecvFlush | kore-3.2.0/src/http.c:1763-1811 | under any fragmentation the stored body is exactly the announced number of bytes of the stream, none of what follows them, and once complete all of it can be read from the beginning; it pauses only if reading blocked, and if no call on the body file fails it fails only with a failed read |
| Multipart.Request.Rewind | kore-3.2.0/src/http.c:1209-1226 | the whole body is unread again and the descriptor in step, or the seek failed and nothing changed |
| Multipart.Request.BodyRead | kore-3.2.0/src/http.c:1252-1290 | hands out the next bytes from where the descriptor stands and advances descriptor and counters alike, so their distance stays what it was |
| Multipart.Request.TextIsBody | kore-3.2.0/src/http.c:1252-1290 | in step the reader takes the body for what it is; out of step by d bytes it takes at each position the byte d further on |
| Multipart.Locate | kore-3.2.0/src/http.c:1550-1600 | the bytes a pass may skip hold no start of the needle, and a claimed match is one |
| FormText.NothingMore | kore-3.2.0/src/http.c:1153-1207 | once no boundary is ahead nothing more is found, however far the failed search got |
| FormText.FormIsFound | kore-3.2.0/src/http.c:1153-1207 | in a well-formed form the parts behind a boundary are found, each once and in order, with exactly their contents |
| FormText.FormReadBack | kore-3.2.0/src/http.c:1153-1207 | a form written with any preamble reads back as the non-empty contents of its upload and field parts |
| Multipart.FindData | kore-3.2.0/src/http.c:1537-1605 | succeeds if and only if the needle occurs in buffered plus unread bytes, unless a call fails during the search; out receives exactly the bytes before the first occurrence, their count is returned, and exactly what follows remains; terminates |
| Multipart.FindAligned | kore-3.2.0/src/http.c:1537-1605 | a search keeps the buffer equal to the last bytes read, so positions can be computed from the counters, and leaves off right behind the needle or where none is left |
| Multipart.AlignedIsSuffix | kore-3.2.0/src/http.c:1701-1725 | being aligned at k is the same as having the text from k on ahead |
| Multipart.FileAdd | kore-3.2.0/src/http.c:1701-1725 | the recorded position and length name the bytes up to two before the next boundary, and the buffer continues right behind it |
| Multipart.AddField | kore-3.2.0/src/http.c:1676-1699 | a form value is the bytes up to two before the next boundary |
| Multipart.HttpFile.Read | kore-3.2.0/src/http.c:969-1019 | calls with any sizes return the recorded slice of the body once and in order; it runs dry only at its end or on a failure; afterwards the body's reader is in step if and only if it had read as far as the bytes returned |
| Multipart.HttpFile.RefusesExactly | kore-3.2.0/src/http.c:975-980 | of the three checks only a size overflow of offset plus buffer can refuse a sound upload |
| Multipart.ReadsSkipAfterFileRead | kore-3.2.0/src/http.c:987-995 | a rewind, one byte read of an upload, and the body is read from its second byte on |
| Multipart.RefusesLargestBuffer | kore-3.2.0/src/http.c:975-980 | a buffer of the largest size is refused although a byte of the upload is left |
| Multipart.Populate | kore-3.2.0/src/http.c:1153-1207 | unless a call fails, exactly what the text holds is found (FormText says what that is); every upload recorded is new, belongs to the request and can be read from its first byte; it starts right behind the headers of a part or, for a further line of it, right behind a boundary (unless a call fails), ends two bytes before the next boundary, and overlaps no other, in the text the reader takes for the body, which in step is the body; the loop terminates |
| Multipart.PopulateForm | kore-3.2.0/src/http.c:1153-1207 | end to end: for an unread, well-formed form and reads of any sizes, the uploads are exactly the non-empty contents of the upload parts and the fields those of the others, in order |
| Multipart.Extract | kore-3.2.0/src/http.c:969-1207 | end to end: from a request in step, reads of any sizes from any upload found return the bytes between its start and two before the next boundary, from the first one on and in order, and unless a call fails at least one for every read until there are no more |
| Net.Sender.Queue | kore-3.2.0/src/net.c:77-121 | accepted plus unsent bytes are everything queued in order, across filling up the last netbuf and splitting over new ones |
| Net.Sender.Stream | kore-3.2.0/src/net.c:123-143 | a stream buffer joins the queue behind everything else |
| Net.Sender.Send | kore-3.2.0/src/net.c:217-251 | one write of any outcome keeps conservation and accepts what the kernel said; a netbuf leaves only when all of it was accepted, and then always; blocked only if the kernel blocked or had no answer, failed only if it failed |
| Net.Sender.Flush | kore-3.2.0/src/net.c:253-269 | ends with everything sent, the socket blocked, or a write that failed, each for a reason: blocked only if the last answer was that it would block or there was none left, failed only if the last was a failure; the wire grew by what the kernel accepted, and a kernel that keeps accepting drains the queue; bytes are conserved; a connection to be closed when empty is disconnected exactly when everything is sent |
| Net.Receiver.Expand | kore-3.2.0/src/net.c:206-215 | asks for more and keeps what has arrived |
| Net.Receiver.Read | kore-3.2.0/src/net.c:271-300 | moves exactly the bytes the kernel gives, at most those still asked for, from the socket into the buffer, losing and repeating none; blocked, failed or at the end only if the kernel said so |
| Msg.Send | kore-3.2.0/src/msg.c:135-150 | a sent message is queued as its header and payload, nothing else, and sent unless the socket blocked or failed |
| Msg.FirstFrame | kore-3.2.0/src/msg.c:152-205 | a stream beginning with a message begins with exactly one complete frame, namely that message |
| Msg.UniqueDecoding | kore-3.2.0/src/msg.c:152-205 | complete frames that are a prefix of a stream of messages are the first messages of it; if they are all of it, all of them |
| Msg.End.Route | kore-3.2.0/src/msg.c:185-201 | every connected worker that matches, or all on broadcast, is queued the message with only its destination changed, and no one else is, although the header is rewritten in place each time |
| Msg.End.RecvData | kore-3.2.0/src/msg.c:165-205 | a complete message is handled once, by its callback or by routing, and the end waits for a header again |
| Msg.End.RecvPacket | kore-3.2.0/src/msg.c:152-163 | a complete header makes the end wait for exactly the announced payload, or handles an empty one at once |
| Msg.End.RecvFlush | kore-3.2.0/src/net.c:271-300 | under any pattern of reads the bytes read are complete frames and a start of one, and each peer was forwarded exactly what they demand; it stops only for a failed read or a wrongly addressed message |
| Msg.End.RefusedWasSent | kore-3.2.0/src/msg.c:165-180 | apart from a failed read, receiving stops only if a message for a registered id was sent with a destination other than this end |
| Msg.End.Fidelity | kore-3.2.0/src/msg.c:152-205 | the receiver has handled a prefix of the messages, and all once all bytes are read; callbacks were made for messages to this end only |
| Msg.EndToEnd | kore-3.2.0/src/msg.c:135-205 | through any partial writes and reads the receiver handles the messages sent, in order, and all of them once queue and socket are empty |
| Msg.ForwardedIsRouted | kore-3.2.0/src/msg.c:185-201 | what the parent queues on a worker's connection is the stream of exactly the messages for that worker |
| Msg.RoutedAreItsOwn | kore-3.2.0/src/msg.c:185-201 | a worker gets every message for it or for all workers whose id the parent does not handle itself, in order, with only the destination changed |
| Msg.OthersAreNotRouted | kore-3.2.0/src/msg.c:185-201 | and no other one |
| Msg.RegisteredAreDispatched | kore-3.2.0/src/msg.c:170-183 | every message with a registered id is handed to its callback, once and in order |
| Msg.Serve | kore-3.2.0/src/msg.c:165-205 | whichever of the parent's receiving connections is served, the log of handled messages grows by what it handles, every peer is queued exactly what the log forwards to it, and what the other connections handled stays |
| Msg.RoutedIsInterleaved | kore-3.2.0/src/msg.c:185-201 | the messages for a worker are interleaved as the connections were served, and of each connection they are those for the worker, in order |
| Msg.RoutedEndToEnd | kore-3.2.0/src/msg.c:165-205 | with all connections of the parent served in any order, the worker handles exactly the messages routed to it, in that order, and all of them once queue and socket are empty |
| Msg.RoutedNeverRefused | kore-3.2.0/src/msg.c:165-205 | and it never stops at one of them as wrongly addressed |
| Msg.NativeLayoutIsFaithful | kore-3.2.0/src/msg.c:135-150 | the usual 64-bit layout of the header meets the assumption the other results make |
| WebSocket.LengthReadBack | kore-3.2.0/src/websocket.c:188-226 | a length written in any of the three forms, masked or not, is read back by the receiver's decoding |
| WebSocket.BuildReadBack | kore-3.2.0/src/websocket.c:188-226 | a built frame is final, unmasked, in the shortest form, and decodes to its opcode, length and payload |
| WebSocket.ServerExamples | kore-3.2.0/src/websocket.c:188-226 | the two unmasked frames of section 5.7 of RFC 6455, byte by byte |
| WebSocket.LengthExamples | kore-3.2.0/src/websocket.c:188-226 | its two- and eight-byte length fields |
| WebSocket.UnmaskMasked | kore-3.2.0/src/websocket.c:327-328 | masking twice with the same key gives the payload back |
| WebSocket.ClientExamples | kore-3.2.0/src/websocket.c:318-333 | its masked frames |
| WebSocket.TakenIsAcceptable | kore-3.2.0/src/websocket.c:228-333 | whatever the receiver takes for a whole frame is the encoding of an acceptable one: masked, no reserved bit, a known opcode, final and short if a control frame |
| WebSocket.AnswersFrames | kore-3.2.0/src/websocket.c:335-366 | frames are answered with a pong of the same payload for each ping, an empty close for the first close, and nothing else |
| WebSocket.UniqueDecoding | kore-3.2.0/src/websocket.c:228-366 | frames taken from a stream of acceptable frames are its first frames |
| WebSocket.FirstRequestWithinFrame | kore-3.2.0/src/websocket.c:228-280 | the request after the header stays inside the frame if and only if the extended length is long enough, which shortest-form lengths always are |
| WebSocket.LongFormReadsPast | kore-3.2.0/src/websocket.c:262-278 | an empty frame with a two-byte length takes 8 bytes and 134 are asked for |
| WebSocket.End.RecvOpcode | kore-3.2.0/src/websocket.c:228-280 | accepts exactly unreserved, masked, known opcodes with short control frames, and asks for the next bytes |
| WebSocket.End.Unmask | kore-3.2.0/src/websocket.c:327-328 | the in-place loop turns exactly the payload bytes into their unmasked form |
| WebSocket.End.TakeFrame | kore-3.2.0/src/websocket.c:318-366 | a complete frame is unmasked once, delivered or answered, and the end returns to the two-byte header |
| WebSocket.End.RecvFlush | kore-3.2.0/src/websocket.c:228-366 | under any fragmentation the bytes read are complete frames and a start of one, and exactly the pongs and closes they demand were queued; it pauses only if reading blocked or a close arrived, and stops only for a failed read or an unacceptable frame |
| WebSocket.End.NeverRejected | kore-3.2.0/src/websocket.c:228-366 | on a stream of acceptable frames the receiver never gives up, so only a failed read stops it |
| WebSocket.End.Fidelity | kore-3.2.0/src/websocket.c:228-366 | of a stream of acceptable frames the first ones were delivered with their original payloads and answered with pongs of their payloads and one close, no request reaches beyond the frame arriving, and all are taken once all bytes are read |
| WebSocket.End.OnlyAcceptable | kore-3.2.0/src/websocket.c:228-366 | whatever bytes arrive, what was taken of them, delivered and answered are acceptable frames |
| AcceptLock.RunKeepsInv | kore-3.2.0/src/worker.c:144-171 | every interleaving of single writes of workers and parent, spawning included, of crashes and of recovery keeps the lock invariant |
| AcceptLock.MutualExclusion | kore-3.2.0/src/worker.c:596-689 | in every run at most one live worker is between its winning and its releasing compare-and-swap, and a non-zero current names exactly that process |
| AcceptLock.FreeLockIsWon | kore-3.2.0/src/worker.c:638-681 | a worker that tries while the lock is free ends up holding it and named in it, whatever the others do between its three writes |
| AcceptLock.HolderGivesBack | kore-3.2.0/src/worker.c:608-635 | a holder that unlocks leaves the lock free right after its releasing compare-and-swap and is outside after its last write, whatever the others do in between |
| AcceptLock.UnlockFindsItLocked | kore-3.2.0/src/worker.c:683-689 | neither a worker nor the parent ever frees a lock that is not taken |
| AcceptLock.CrashLosesLock | kore-3.2.0/src/worker.c:566-569 | a crash loses the lock if and only if it falls into one of the two windows where the process is inside but unnamed |
| AcceptLock.ExitLosesLock | kore-3.2.0/src/worker.c:507-594 | a clean exit loses the lock if and only if the worker holds it |
| AcceptLock.EventLosesLock | kore-3.2.0/src/worker.c:507-689 | no other event ever loses it |
| AcceptLock.RunLosesLock | kore-3.2.0/src/worker.c:507-689 | a run loses the lock if and only if one of its events is such a crash or exit in the state it meets |
| AcceptLock.LockCanBeLost | kore-3.2.0/src/worker.c:672-681 | from the start, two workers, one compare-and-swap and one crash lose it; so does a holder's exit |
| AcceptLock.LostForever | kore-3.2.0/src/worker.c:507-689 | once lost the lock stays lost in every continuation |
| AcceptLock.RecoveryFreesLock | kore-3.2.0/src/worker.c:544-586 | in every interleaving that contains the parent's steps in their turn, the lock of a crashed process that was named was freed on the way, and after that its slot got a new process outside the lock |
| AcceptLock.NamelessForever | kore-3.2.0/src/worker.c:163-170 | a slot whose process died with 0 stored for its pid is never found again |
| AcceptLock.EventMakesNameless | kore-3.2.0/src/worker.c:163-170 | the only event that leaves a dead worker unnamed in the table is its death with its own 0 still stored and the parent's store already done |
| AcceptLock.RunMakesNameless | kore-3.2.0/src/worker.c:163-170 | a run leaves a slot nameless if and only if one of its events is such a death in the state it meets |
| AcceptLock.FoundUnlessNameless | kore-3.2.0/src/worker.c:524-586 | in every run from the start, a parent that looks for a dead worker begins its recovery or its replacement, unless some death in that slot was of that kind |
| AcceptLock.CanBeNameless | kore-3.2.0/src/worker.c:163-170 | and that can happen, in seven events from the start |
| Pools.NoOverflow | kore-3.2.0/src/pool.c:147-148 | the division guard is exactly the overflow test |
| Pools.CarveIsLaid | kore-3.2.0/src/pool.c:156-165 | the elements cut from a region never overlap |
| Pools.Pool.Init | kore-3.2.0/src/pool.c:37-60 | a pool is set up with its first region of the elements asked for (at least the minimum), to grow by a quarter of them, or refused exactly on overflow; later growth can never overflow |
| Pools.Pool.RegionCreate | kore-3.2.0/src/pool.c:132-168 | one new area of exactly the elements added, all free, apart from every element there was |
| Pools.Pool.Get | kore-3.2.0/src/pool.c:77-105 | hands out an element that was free, growing if there was none; inuse and free list still add up to elms |
| Pools.Pool.Put | kore-3.2.0/src/pool.c:107-130 | the element returns to the head of the free list if and only if it was busy |
| Mem.MemblockIndex | kore-3.2.0/src/mem.c:267-283 | the smallest power-of-two class that fits, and a failure exactly beyond the largest |
| Mem.FitsUnique | kore-3.2.0/src/mem.c:267-283 | there is only one such class, so freeing finds the class of the allocation |
| Mem.ElementHoldsBlock | kore-3.2.0/src/mem.c:74-77 | rounding down to the alignment still leaves room for size word, payload and trailer |
| Mem.RequestCoversBlock | kore-3.2.0/src/mem.c:110-111 | the calloc request covers the block if and only if the length is at most twelve below the largest size; otherwise it is under twelve bytes |
| Mem.RequestWraps | kore-3.2.0/src/mem.c:110-111 | eleven below the largest size, no byte is asked for |
| Mem.Heap.Init | kore-3.2.0/src/mem.c:58-83 | eleven pools of the right element sizes over disjoint areas, nothing handed out; gives up exactly if a first region is too large |
| Mem.Heap.Malloc | kore-3.2.0/src/mem.c:95-124 | for every length: if and only if the request covers the block, a new block of the length asked for (8 for 0), its size word and magic in place, overlapping no other, every other payload unchanged; otherwise the block sticks out of its area |
| Mem.Heap.Free | kore-3.2.0/src/mem.c:165-193 | freeing a live block never trips a check, returns its element to the head of the very list of its class and leaves all others alone; a null pointer does nothing |
| Mem.Heap.Realloc | kore-3.2.0/src/mem.c:126-147 | where the request covers the block: the common prefix survives the move, same length keeps the pointer, the old block is gone, all other payloads are unchanged; otherwise the new block sticks out of its area |
| Mem.Heap.Write | kore-3.2.0/src/mem.c:37-40 | a holder writing inside its payload damages no other block, no size word and no magic |
| Mem.Heap.LiveBlockReads | kore-3.2.0/src/mem.c:175-184 | size word and magic of every live block read back, so the fatal branches are not taken |
| Mem.Heap.LiveBlocksApart | kore-3.2.0/src/mem.c:95-124 | prefix, payload and trailer of any two live blocks are disjoint |
| Mem.Heap.BlockInElement | kore-3.2.0/src/mem.c:106-108 | a small block lies wholly inside one busy element of the smallest class that fits |
| Mem.Heap.InuseCountsLive | kore-3.2.0/src/pool.c:98 | nothing leaks: a pool's inuse is the number of live blocks of its class, and the rest of its elements are free |
| FileRefs.Cache.Get | kore-3.2.0/src/fileref.c:92-130 | a hit is the listed reference for the path, as old as the file now is, held once more and first in the list; a stale one leaves the list and is dropped exactly if nobody holds it; all others keep their order |
| FileRefs.Cache.Create | kore-3.2.0/src/fileref.c:46-86 | the cached reference or a new one at the end of the list, so a path is listed at most once; the stale one it replaces is dropped exactly if nobody holds it |
| FileRefs.Cache.Release | kore-3.2.0/src/fileref.c:132-152 | the count is the number of holders and never negative; at zero a removed reference is dropped and a listed one starts to expire |
| FileRefs.Cache.SoftRemove | kore-3.2.0/src/fileref.c:154-169 | listed if and only if not soft-removed; dropped at once exactly if nobody holds it |
| FileRefs.Cache.Drop | kore-3.2.0/src/fileref.c:193-211 | only ever on a live reference with count zero, which is then no longer live: each is dropped at most once |
| FileRefs.Cache.ExpirationCheck | kore-3.2.0/src/fileref.c:171-191 | removes and drops exactly the listed references that nobody holds and whose time has come, and keeps the order of the others |
| FileRefs.Cache.BalancedRun | kore-3.2.0/src/fileref.c:46-211 | when everything handed out was released, each reference not dropped yet is listed with count zero, so that its expiration drops it |
| Timers.InsertKeepsSorted | kore-3.2.0/src/timer.c:40-53 | a timer inserted behind all that run no later keeps the queue sorted with FIFO ties |
| Timers.InsertIsFair | kore-3.2.0/src/timer.c:40-53 | the place is behind exactly those that run no later |
| Timers.RequeueKeeps | kore-3.2.0/src/timer.c:62-99 | as a multiset, the queue afterwards is what was not due and each periodic due timer once with its next deadline |
| Timers.PeriodicRunsAgain | kore-3.2.0/src/timer.c:82-92 | a periodic timer that was due is queued again one interval after now, otherwise unchanged |
| Timers.OneshotRunsOnce | kore-3.2.0/src/timer.c:82-92 | a one-shot timer is not |
| Timers.RequeueSound | kore-3.2.0/src/timer.c:62-99 | and it is sorted, with every timer later than now |
| Timers.TimerQueue.Add | kore-3.2.0/src/timer.c:30-54 | the loop finds exactly the place the insertion function says |
| Timers.TimerQueue.Run | kore-3.2.0/src/timer.c:62-99 | terminates, fires each due timer exactly once in queue order, leaves only later ones, and the wait returned never passes the next deadline |
| Base64.Encode | kore-3.2.0/src/utils.c:414-479 | the bit-shifting loops append exactly the groups and the padding; empty input is refused |
| Base64.EncodedShape | kore-3.2.0/src/utils.c:414-479 | four characters for every three bytes begun, all in the alphabet, and exactly the missing ones are padding (section 4 of RFC 4648) |
| Base64.EncodedAt | kore-3.2.0/src/utils.c:414-479 | the k-th character is the table's at the six bits of the message from bit 6k on, the table being the 64 characters of the source |
| Base64.EncodesMan | kore-3.2.0/src/utils.c:414-479 | "Man" becomes "TWFu" |
| Base64.Decode | kore-3.2.0/src/utils.c:481-543 | the loop with its table scan computes the recursive reading of the text, rejecting foreign characters and early padding |
| Base64.DecodeMeaning | kore-3.2.0/src/utils.c:481-543 | a text of table characters, padded or not, decodes to the bytes its six-bit values spell, or is refused when too few come before the padding |
| Base64.DecodeForeign | kore-3.2.0/src/utils.c:481-543 | a text with a character outside the table is refused |
| Base64.RoundTrip | kore-3.2.0/src/utils.c:414-543 | decoding an encoding gives the bytes back, for every byte string |
| Crc.RegisterIsRemainder | test_crc/main.c:84-135 | the register is the unique residue of message times x^n by the generator over GF(2) |
| Crc.ResidueUnique | test_crc/main.c:84-135 | congruent residues of degree below n are equal |
| Crc.RegisterIsLinear | test_crc/main.c:84-135 | the CRC of the xor of equally long messages is the xor of their CRCs |
| Crc.CrcOfOne | test_crc/main.c:84-135 | the CRC of a single byte 1 is the polynomial |
| Crc.LeadingZeros | test_crc/main.c:84-135 | zero bytes in front of a message change nothing |
| Crc.AppendedCrcIsZero | test_crc/main.c:84-135 | a message followed by its CRC, high byte first, has CRC 0 |
| Crc.BurstDetected | test_crc/main.c:84-135 | messages differing by a burst shorter than the register width have different CRCs |
| Crc.AdjacentBytesDetected | test_crc/main.c:111-135 | CRC-16 differs for any two messages that differ only within two adjacent bytes |
| Crc.ComputeCrc8 | test_crc/main.c:84-108 | the nested loops in 8-bit arithmetic compute the register |
| Crc.ComputeCrc16 | test_crc/main.c:111-135 | the nested loops in 16-bit arithmetic compute the register |
| Atoi.LadderCompares | string_to_int_atoi/main.c:162-220 | comparing digit by digit is comparing the numbers |
| Atoi.CheckBigNumberMeaning | string_to_int_atoi/main.c:162-220 | the ladder accepts exactly the ten-digit numbers within 32 bits, for both signs |
| Atoi.Convert | string_to_int_atoi/main.c:95-143 | size checks, unsigned accumulation and negation give the clamped signed value of the digits, without wrap-around |
| Atoi.MyAtoi | string_to_int_atoi/main.c:29-143 | on every string: blanks, optional sign (a comma counting as minus), digits, clamped to 32 bits |
| Atoi.SignedNumber | string_to_int_atoi/main.c:29-143 | blanks, no sign, plus or minus, and digits up to something else: the value of the digits, negated exactly for a minus, clamped to 32 bits |
| Atoi.NoDigitsMeanZero | string_to_int_atoi/main.c:29-143 | anything else behind blanks and a sign is 0 |
| Atoi.CommaCounts | string_to_int_atoi/main.c:154-160 | the result is the expected one if and only if no comma followed by a non-zero number stands where the sign is |
| Atoi.CommaExample | string_to_int_atoi/main.c:154-160 | ",5" is -5 instead of 0 |
| Atoi.CommaFree | string_to_int_atoi/main.c:29-143 | on every string without a comma the result is the expected one |
| Pid.TracksIdeal | test_dsp/main.c:245-310 | after n steps 128 times the output is within 381 n of the ideal position-form controller |
| Pid.PidData.Compute | test_dsp/main.c:245-310 | the 16-bit arithmetic gives the exact next output when nothing overflows |
| Pid.PidData.Step | test_dsp/main.c:245-310 | on the object: from a flushed state and without overflow the bound holds after every call |
| Pid.PidData.FlushErrors | test_dsp/main.c:312-317 | starts a new run |

## Left out

- TLS paths, sendfile, MUST_RESEND, sockets, epoll, real clocks: replaced by nondeterministic results; stat results, times and read sizes are parameters.
- Net: netbufs are values in a queue; a stream buffer's data is copied into the model, so changes its owner makes before it is sent are not captured, and completion callbacks of streams are not called.
- Net: fatal size overflows of receive requests and the accounting of netbuf memory.
- Net.Sender.Flush: each call sees finitely many interrupted writes; under an endless run of them the code does not return.
- CSV: callbacks are never NULL, the output file of the canonicaliser never fails, and options, quote and delimiter do not change during a parse; is_space and is_term are sets of bytes.
- Multipart: how the text of a part's headers is read; which of its lines ask for an upload, a field or nothing is any function of that text. The names of uploads and fields. Hashing of the body.
- HttpBody: header parsing and the limits on the body; the first segment does not carry more bytes than content-length announces.
- Multipart.Populate: once a call has failed, what is recorded is sound but need not be complete, and in the middle of a part a further line of that part may start anywhere.
- FormText.FormIsFound: a part has one header line that counts and no boundary in its content; for other texts the function `Found`, which the code is proved to compute, says what is found.
- Msg: the layout of `struct kore_msg` is any that can be read back; its header file is not part of this model. Built-in message types (shutdown, access log, websocket broadcast) are ordinary ids.
- WebSocket: the handshake, broadcast, and continuation frames, which the code rejects as well; the FIN bit of data frames is ignored as in the code.
- AcceptLock: memory is sequentially consistent; a new process gets a pid that no process in the worker table has or had last; all workers have been spawned when a run starts; the tests of `kw->pid` right after fork use the value the same process has just stored; the key manager process and the single-worker and no-lock modes, which do not use the lock.
- AcceptLock: when kore_worker_wait is called. It reaps one process for each SIGCHLD seen, so of two deaths whose signals coalesce one waits for a later call; the results speak of a parent that does look.
- AcceptLock: limits on connections only decide when a worker tries or releases; here it may at any time.
- Mem.Heap.Realloc: where the request for the new block wraps around, the copy into it and the release of the old block are not followed further, because memory is already written outside its area.
- Mem: tagged blocks, kore_calloc's clearing, and kore_mem_cleanup; the flags word is always zero. calloc never fails, since the code ends the process then.
- Pools: entry headers are the free list and busy set of the pool rather than bytes in memory; the first-size quarter is exact integer division where the code multiplies by a float, which agrees below 2^24 elements. The task lock is not modelled.
- FileRefs: mapping and closing of files; releasing a reference that nobody holds, which the code treats as fatal.
- Timers: deadlines beyond 64 bits, periodic timers of interval 0, and callbacks that change the queue.
- Base64.RoundTrip: holds for the empty string too, as a fact about the two functions, but kore_base64_encode refuses it.
- Pid: PID_Small_Ki, the variant for small integral gains; the moving-average filter beside it.
- Atoi: strings longer than an int can index.
- Crc: the one-byte variant, which is the first turn of the loop.
