# BeeSDK: verified model of the runtime's stateful core

Dafny models of the parts of BeeSDK that carry state or arithmetic of their own, with proofs of what they
promise. `dafny verify dfyconfig.toml` checks everything. Objects whose methods change fields are classes with
the same fields; loops are loops; each method is proved to compute a function of the old state, and lemmas say
what follows from those functions for every input and every run. A whole-run method (`Run`, `Serve`, `Decode`,
`Scan`) starts from a new object, applies an arbitrary list of events and ends where the run function says
(`RunTo`, `FifoRun`, `After`, `Explains`); the safety lemmas (`RunSafe`, `RunKeepsText`, `NothingLost` and
others) are about that function, at every index of every run.

What these functions mean is stated apart from them: the cipher as rows of a recurrence (`Xxtea.CipherExactly`),
queue operations by their effect (`SafeQueue.OperationsTakeEffect`), printed sizes and requests character by
character (`HttpChunks.PrintedSizeIsRead`, `HttpRequest.PrintedText`), resumed readers by what they hold
(`ChunkPullReader.RunPrompt`), replies by the history of calls (`Sessions.AnsweredExactly`, `OpenedExactly`).

| file | models |
|---|---|
| `Machine.dfy` | 32-bit words, wrap-around, bitwise operators over integers, concatenation |
| `Xxtea.dfy`, `XxteaBytes.dfy` | the XXTEA block cipher on words in place, and its byte-string interface |
| `SafeQueue.dfy` | the bounded queue of one mutex and two semaphores, as interleaved steps of any number of threads |
| `VideoCache.dfy` | the ring buffer with free-running 32-bit counters, against a FIFO queue of bytes |
| `HttpChunks.dfy`, `ChunkPushDecoder.dfy`, `ChunkPullReader.dfy`, `ScanReader.dfy` | the two readers of chunked bodies (section 4.1 of RFC 7230) against a sender, and the scanner of binary fields, against a sender |
| `Text.dfy`, `HttpRequest.dfy`, `HttpUrl.dfy` | splitting and trimming, the request printer and parser with header editing, and URLs |
| `IoBuffer.dfy`, `SendPipeline.dfy` | the shared byte buffer and the queue of outgoing buffers over one outstanding write |
| `LwsService.dfy` | the websocket service at the granularity of its critical sections |
| `Sessions.dfy` | the table-driven session state machine and the session pool |
| `LogVolumes.dfy` | the rolling log file, on a directory as a map from file name to content |
| `TcpConnect.dfy` | trying endpoints one after another under two time limits |
| `PcmBlocks.dfy` | cutting captured sound into 10 ms blocks |

Sockets, timers, TLS, threads, the Lua engine and the file system appear as events or parameters.

## Where the code departs from what one would expect

The models follow the code. Each departure is stated exactly, with the condition under which the intended
behaviour holds.

- A trailer of a single encrypted word is always refused: `n - 3` wraps in `size_t` (`XxteaBytes.TrailerExact`).
- Push and Clear wait on a semaphore with the lock held. `SafeQueue.HolderBlockedExactly` says when that blocks,
  `BlockedForever` that it is final and `DeadlockReachable` that it happens.
- A read of a completely full cache takes the contiguous branch, since both positions coincide. It passes the end
  of the buffer exactly when the clamped length is larger than `size_ - use_ % size_` (`VideoCache.Overruns`,
  `LuaVideoCache.ReadData`); ResetSize reads the same way, and `VideoCache.FullReadOverruns` is such a run. A size
  that does not divide 2^32 loses its place exactly when the tail counter wraps (`VideoCache.FollowsExactly`,
  `WrapExact`), and a cache resized to nothing divides by zero at the next read, write or resize.
  `VideoCache.OutcomeOf` says which of these an operation comes to; `OddSizeLosesPlace` and `EmptyCacheDivides` are
  runs that reach them.
- A size line ends a chunked body exactly when its value is zero, which includes text without digits; where
  nothing but white space is buffered the extraction fails before it starts and the old size is kept
  (`ChunkPushDecoder.BodyEndExactly`; `BlankLineKeepsSize` shows a blank line after a size of 5).
- The pull reader's body load waits for size + 2 more bytes even when they are buffered
  (`ChunkPullReader.LoadStallsExactly`). A reader of a body that is not empty and arrives in one piece waits for ever
  (`ChunkPullReader.OnePieceStalls`). No load stalls when nothing comes in together with the size line before it
  (`ChunkPullReader.CarefulNeverStalls`), as when bytes come in one at a time (`OneByteCareful`); with everything
  delivered a stalled load is the only way a read inside the body can be left waiting (`RunSafe`).
- A read behind the end of a chunked body takes the next line for a size line. What is placed stays a prefix of the
  payload exactly when that line gives no size (`ChunkPullReader.ReadPastEndExactly`); a second chunked body there
  makes it fail (`SecondBodyStrays`, and `SecondBodyIsRead` for a whole run).
- `_ntohll` reverses the two halves of a number but leaves them in place, and 64-bit fields are pushed as 32 bits:
  in network order a number comes back as its high word (`ScanReader.LongPushed`). Negative numbers come back
  unsigned and strings end at their first NUL (`ScanReader.RoundTripExactly`).
- An empty buffer given to `async_write` while data is pending starts a second write
  (`SendPipeline.TcpStateMachine.AsyncWrite`, `EmptySubmissionDoubles`).
- The library may drop a writable request for a connection that is still being established; the mark set by the
  callback for Established makes up for it (`LwsService.RunSafe`). A message that is not taken whole is lost with
  its connection, and what waits behind it with it (`LwsService.FailedWriteCloses`).
- `switch_state` never refuses a defined input, because undefined entries hold 5 and it tests for -1. Closing an
  idle session directly would reach that sentinel (`Sessions.CloseInsideExactly`); through the manager no session
  does (`Sessions.Serve`).
- Volumes left by an earlier run with a larger volume count are never renamed or deleted. A run with at least
  count - 1 rolls leaves exactly count volumes and those (`LogVolumes.VolumesCounted`), so that the number of
  volumes never exceeds the count, whatever is logged, if and only if there are none (`LogVolumes.BoundExactly`).
  One volume is enough for all other claims.
- After N attempts a timed-out connect re-uses its index, so that the abort of an older attempt is taken for the
  current one and ends the state (`TcpConnect.CurrentExactly`, `FailureExactly`, `StaleAbortEnds`).
- A TLS handshake carries no index. Whenever one completes it ends the state, however many endpoints remain, and it
  is reported for its own endpoint exactly when no endpoint was tried since or it belongs to the attempts that
  re-use the last index (`TcpConnect.HandshakeExactly`, `RunHandshakes`). `OldHandshakeEnds` is a run in which the
  abort of the first handshake is reported as a failure of the second endpoint, whose attempt is under way.
- A failure report leaves the period timer running (`TcpConnectState.HandleConnect`). A second execute keeps the old
  attempt count (`TcpConnect.ExecutedAgain`) and replaces a running timer without cancelling it.
- A last block of sound is kept back even when it is full (`PcmBlocks.SentExactly`). An input shorter than the gap
  is read past its end and wraps the pending length (`PcmBlocks.PendingFitsExactly`,
  `AudioDeviceModuleWrapper.OnPCMData`); without a transport `OnPCMData` returns with its critical section entered.

## Model

| member | source | states |
|---|---|---|
| Machine.OrIntoClearLane | src/utility/crypto.cpp:89-91 | or-ing a shifted byte into a word whose lane is still clear adds it: the packing loop loses no bits |
| Xxtea.KeyIndexTable | src/utility/crypto.cpp:54 | the key word index is the two-bit exclusive or of position and `e` |
| Xxtea.MixByInput | src/utility/crypto.cpp:54 | what z contributes next to `sum`, y next to the key word, and `sum` with the key word: the shifts and places of the macro |
| Xxtea.MacroExactly | src/utility/crypto.cpp:54 | bit by bit, the macro is the value the mixer yields |
| Xxtea.CipherExactly | src/utility/crypto.cpp:54-149 | for every key and all words, w is the encryption of v if and only if rows lead from v to w: 6 + 52/len of them, each word of a row the one above plus the macro over its left neighbour in the same row, its right neighbour in the row above, cyclically, sum = r * 0x9e3779b9 modulo 2^32 and key word (p & 3) ^ (sum >> 2 & 3) |
| Xxtea.PassInverse | src/utility/crypto.cpp:139-166 | the backward pass over the words undoes the forward pass, for any round function of the two cyclic neighbours |
| Xxtea.RoundsInverse | src/utility/crypto.cpp:135-168 | running the schedule backwards undoes running it forwards, for any number of rounds |
| Xxtea.WordRoundTrip | src/utility/crypto.cpp:129-171 | for every word sequence and every mixing function (hence every key) decrypt undoes encrypt and encrypt undoes decrypt |
| Xxtea.ScheduleNonZero | src/utility/crypto.cpp:153-157 | DELTA is odd, so `sum` does not return to zero before 2^32 rounds: the test `sum != 0` ends the loop at the right round only |
| Xxtea.ScheduleAdvances | src/utility/crypto.cpp:136-167 | adding DELTA moves the schedule one round on and subtracting it one round back, through 32-bit wrap-around |
| Xxtea.EncryptPass | src/utility/crypto.cpp:139-145 | one pass in place, with `z` carried along, is the forward pass |
| Xxtea.EncryptInPlace | src/utility/crypto.cpp:129-149 | the array loop computes the word cipher, in exactly 6 + 52/len rounds; arrays of one word are left alone |
| Xxtea.DecryptPass | src/utility/crypto.cpp:160-166 | one pass in place, downwards, is the backward pass |
| Xxtea.DecryptInPlace | src/utility/crypto.cpp:151-171 | the loop guarded only by `sum != 0` computes the inverse cipher and terminates after exactly 6 + 52/len rounds |
| XxteaBytes.TrailerExact | src/utility/crypto.cpp:106-111 | a trailer m after len words passes the size_t test exactly when m bytes fill the words before it; a lone trailer word never does |
| XxteaBytes.UnpackPacked | src/utility/crypto.cpp:86-121 | unpacking words that start with a packed string gives the string back |
| XxteaBytes.PackUnpacked | src/utility/crypto.cpp:86-121 | packing unpacked words gives the words back |
| XxteaBytes.FixedKeyAgrees | src/utility/crypto.cpp:57-62 | key buffers that agree up to their first NUL are cut to the same sixteen bytes |
| XxteaBytes.TrailerRoundTrip | src/utility/crypto.cpp:67-127 | packing with the length trailer and unpacking gives every non-empty string below 2^32 bytes back |
| XxteaBytes.ByteRoundTrip | src/utility/crypto.cpp:173-231 | decrypting an encryption returns the same bytes and length, also under a key that agrees only up to its first NUL; the ciphertext has one word more than the packed text |
| XxteaBytes.DecryptionExact | src/utility/crypto.cpp:199-219 | a ciphertext decrypts to d if and only if the decrypted words hold d and its length as trailer |
| XxteaBytes.EncryptionExactly | src/utility/crypto.cpp:54-195 | bytes c are the encryption of d under a key if and only if that recurrence leads from words that hold d and its length to words that hold c, with key words that hold the sixteen key bytes up to their first NUL |
| XxteaBytes.DecryptionExactly | src/utility/crypto.cpp:54-219 | c decrypts to d if and only if the recurrence leads from words that hold d and its length to the words of c |
| XxteaBytes.FillWords | src/utility/crypto.cpp:86-92 | the byte loop packs the string little-endian and leaves the words behind it alone |
| XxteaBytes.ToWords | src/utility/crypto.cpp:67-95 | the packed words, with the length trailer if asked for |
| XxteaBytes.ToBytes | src/utility/crypto.cpp:97-127 | the unpacked bytes and a closing NUL; refused exactly when the trailer does not fit |
| XxteaBytes.CutKey | src/utility/crypto.cpp:57-62 | the two loops of the macro zero the key from its first NUL on |
| XxteaBytes.EncryptString | src/utility/crypto.cpp:173-226 | no output exactly for an empty input, otherwise the bytes the keyed recurrence leads to |
| XxteaBytes.DecryptString | src/utility/crypto.cpp:197-231 | bytes from which the keyed recurrence leads to the ciphertext; no output exactly when there are none or the input is empty |
| SafeQueue.StepConserves | src/comLib/SafeQueue.h:64-147 | every step keeps free slots + held slots + length = capacity and item tokens + held items = length |
| SafeQueue.StepMutual | src/comLib/SafeQueue.h:67-145 | exactly the lock holder is inside a critical section |
| SafeQueue.StepInv | src/comLib/SafeQueue.h:64-147 | every step of every thread, in any interleaving, keeps the whole invariant |
| SafeQueue.ExecutionSafe | src/comLib/SafeQueue.h:64-147 | in every reachable state the length and both semaphores stay within the capacity, removed ++ queue = enqueued in order, and no front or pop meets an empty queue |
| SafeQueue.OperationsTakeEffect | src/comLib/SafeQueue.h:64-145 | in every execution, whatever other threads do: between the moment a thread takes the lock for an operation and the moment it gives it back the queue undergoes exactly the effect of that operation, in terms of queue, enqueued and removed |
| SafeQueue.LeavesExactly | src/comLib/SafeQueue.h:64-120 | a thread leaves an operation by giving back the lock; only the wait of Pop can end otherwise, and then nothing has changed |
| SafeQueue.PushAlone | src/comLib/SafeQueue.h:64-78 | without other threads Push comes to its end: on a full queue the front leaves and the value goes behind the rest, with room it goes behind all |
| SafeQueue.BlockPushAlone | src/comLib/SafeQueue.h:80-91 | with room BlockPush comes to its end and puts the value behind all |
| SafeQueue.BlockPushOnFullWaits | src/comLib/SafeQueue.h:80-91 | without room it waits, outside the lock |
| SafeQueue.PopAlone | src/comLib/SafeQueue.h:93-120 | with an item both pops come to their end and take the front |
| SafeQueue.PopOnEmptyWaits | src/comLib/SafeQueue.h:93-120 | without an item both wait, and only Pop can give up |
| SafeQueue.ClearAlone | src/comLib/SafeQueue.h:136-147 | Clear comes to its end and leaves an empty queue |
| SafeQueue.TokenAccounting | src/comLib/SafeQueue.h:64-147 | the two token equations in terms of threads waiting with a reserved slot or a claimed item, up to what the holder has in hand |
| SafeQueue.HolderBlockedExactly | src/comLib/SafeQueue.h:67-75 | the lock holder is blocked if and only if it is in Push and every free slot is reserved by a waiting BlockPush, or in Push or Clear and every item is claimed by a waiting pop |
| SafeQueue.BlockedForever | src/comLib/SafeQueue.h:67-145 | once the holder is blocked nothing ever changes the queue or the holder again |
| SafeQueue.DeadlockReachable | src/comLib/SafeQueue.h:67-85 | one BlockPush and one Push on a queue of capacity 1 reach such a state |
| SafeQueue.HolderNeverBlocked | src/comLib/SafeQueue.h:80-120 | in runs of BlockPush, BlockPop and Pop the holder can always step, its steps count down to the unlock and no other thread disturbs them |
| VideoCache.FollowsExactly | src/lua/module/lua_video_cache.cpp:24-70 | a ring position follows its 32-bit counter through a move if and only if the size divides 2^32 or the counter does not wrap |
| VideoCache.WrapExact | src/lua/module/lua_video_cache.cpp:24-70 | hence a size keeps its places at every counter value if and only if it divides 2^32 |
| VideoCache.RingAppend | src/lua/module/lua_video_cache.cpp:24-46 | a copy to the tail, in one part or two, appends to the bytes of the ring |
| VideoCache.OldestBytes | src/lua/module/lua_video_cache.cpp:48-70 | reading m bytes takes the oldest m and leaves the rest in order |
| VideoCache.LuaVideoCache.WriteData | src/lua/module/lua_video_cache.cpp:24-46 | appends the longest prefix that fits and reports its length; the place is lost exactly when the tail wraps and the size does not divide 2^32 |
| VideoCache.LuaVideoCache.ReadData | src/lua/module/lua_video_cache.cpp:48-70 | removes the oldest bytes into the buffer; the contiguous copy passes the end exactly when the cache is full and the clamped length exceeds the room behind the start |
| VideoCache.LuaVideoCache.SkipData | src/lua/module/lua_video_cache.cpp:106-116 | drops the oldest bytes and reports how many; both counters are reset when nothing is left |
| VideoCache.LuaVideoCache.ResetSize | src/lua/module/lua_video_cache.cpp:118-126 | keeps the oldest bytes that fit the new size, whatever it is |
| VideoCache.LuaVideoCache.GetSpaceSize | src/lua/module/lua_video_cache.cpp:128-133 | the free room, at most what was asked for |
| VideoCache.LuaVideoCache.GetDataSize | src/lua/module/lua_video_cache.cpp:135-137 | the number of bytes held |
| VideoCache.FullReadOverruns | src/lua/module/lua_video_cache.cpp:48-70 | five calls that end in a read past the end of a full cache |
| VideoCache.OddSizeLosesPlace | src/lua/module/lua_video_cache.cpp:24-46 | four calls on a cache of 2^32 - 1 bytes after which the place is lost |
| VideoCache.EmptyCacheDivides | src/lua/module/lua_video_cache.cpp:24-46 | two calls that end in a division by zero |
| VideoCache.Run | src/lua/module/lua_video_cache.cpp:24-137 | any calls on a new cache, with any sizes, behave as a bounded FIFO queue of bytes across any number of counter wraps, up to the first that overruns, loses its place or divides by zero, which happens exactly where the reference says |
| HttpChunks.SizeLineRoundTrip | src/network/http_state_machine.cpp:360-363 | reading a size line yields the size and leaves what follows the line, for any hex spelling and any extension |
| HttpChunks.PrintedSizeIsRead | src/network/http_state_machine.cpp:360-363 | any number written in base 16 from the digits 0123456789abcdef, or their upper case, with any blanks and zeros in front, is read as that number, or as the largest that fits |
| HttpChunks.PrinterSends | src/network/http_state_machine.cpp:336-376 | a body whose sizes are printed so is one a sender may send, with the concatenated parts as payload |
| HttpChunks.LineArrived | src/network/http_state_machine.cpp:292-299 | a whole size line has arrived exactly when a CRLF is in the buffer: no part of a line looks complete |
| HttpChunks.SkipLine | src/network/http_state_machine.cpp:362-363 | the loop that drops the rest of a line leaves what follows its line feed |
| ChunkPushDecoder.BodyEndExactly | src/network/http_state_machine.cpp:355-371 | a size line ends the body exactly when more than two bytes are buffered and its digits are worth zero or, with nothing but white space buffered, the old size is zero |
| ChunkPushDecoder.BlankLineKeepsSize | src/network/http_state_machine.cpp:355-371 | after a size of 5 a blank line does not end the body: the decoder waits for 7 bytes |
| ChunkPushDecoder.SizeInSync | src/network/http_state_machine.cpp:336-376 | handling a size line keeps the decoder in step with the sender |
| ChunkPushDecoder.BodyInSync | src/network/http_state_machine.cpp:378-429 | handling a body takes exactly one chunk with its CRLF |
| ChunkPushDecoder.QuietMeansReported | src/network/http_state_machine.cpp:273-429 | when everything sent has arrived and nothing more can run, the body has been reported |
| ChunkPushDecoder.HandlingEnds | src/network/http_state_machine.cpp:304-334 | each handler takes bytes or leads to a later one: handling cannot go round for ever |
| ChunkPushDecoder.HttpRcvBodyState.ReadChunkBody | src/network/http_state_machine.cpp:319-331 | asks for size + 2 bytes in 32-bit arithmetic, less what is buffered |
| ChunkPushDecoder.HttpRcvBodyState.HandleReadChunkSize | src/network/http_state_machine.cpp:336-376 | the handler computes the reference step |
| ChunkPushDecoder.HttpRcvBodyState.HandleReadChunkBody | src/network/http_state_machine.cpp:378-429 | the handler computes the reference step |
| ChunkPushDecoder.Decode | src/network/http_state_machine.cpp:273-429 | for every chunk list of section 4.1 of RFC 7230 and every segmentation of its bytes, exactly the concatenated payloads are reported and nothing after the zero-size line is consumed |
| ChunkPushDecoder.DecodePrinted | src/network/http_state_machine.cpp:273-429 | so is every body whose sizes are printed in base 16, in either case, with zeros in front and extensions behind |
| ChunkPullReader.SizeInSync | src/lua/module/lua_http_session.cpp:703-726 | handling a size line keeps the session in step with the sender |
| ChunkPullReader.BodyInSync | src/lua/module/lua_http_session.cpp:728-743 | a loaded chunk is the next one, with its CRLF still behind it |
| ChunkPullReader.TakeInSync | src/lua/module/lua_http_session.cpp:745-762 | reading hands out the next payload bytes and steps over the CRLF exactly when the chunk is used up |
| ChunkPullReader.LoadStallsExactly | src/lua/module/lua_http_session.cpp:681-691 | the load asks the socket for size + 2 bytes whatever is buffered: at any moment it can never complete if and only if more was buffered at its start than follows the chunk |
| ChunkPullReader.OnePieceStalls | src/lua/module/lua_http_session.cpp:670-691 | for every body that is not empty, every kind of read and every length: when all bytes arrive in one piece the read waits for ever and gets nothing |
| ChunkPullReader.CarefulNeverStalls | src/lua/module/lua_http_session.cpp:652-743 | in every run in which nothing comes in behind a size line that is awaited, no load stalls: inside the body a read waits only for a chunk, or for the zero-size line, that has not come in completely, and all before it has been placed |
| ChunkPullReader.OneByteCareful | src/lua/module/lua_http_session.cpp:670-679 | bytes that come in one at a time make such a run |
| ChunkPullReader.WaitingMeansStalled | src/lua/module/lua_http_session.cpp:652-743 | once all a sender sent has arrived, a read that waits inside the body waits in such a load, with the whole chunk in the buffer |
| ChunkPullReader.PastEndAgain | src/lua/module/lua_http_session.cpp:703-726 | behind the end, a line that gives no size leaves the session behind the end |
| ChunkPullReader.ReadPastEndExactly | src/lua/module/lua_http_session.cpp:703-762 | what a read behind the end hands out keeps the bytes placed a prefix of the payload if and only if the next line gives no size |
| ChunkPullReader.SecondBodyStrays | src/lua/module/lua_http_session.cpp:703-726 | the size line of another chunk behind the end starts a load of its data |
| ChunkPullReader.SecondBodyIsRead | src/lua/module/lua_http_session.cpp:107-143 | for every chunk, kind and length a run that places bytes of a second body behind an empty one |
| ChunkPullReader.LuaHttpReader.Notify | src/lua/module/lua_http_reader.cpp:45-82 | takes what fits, then resumes with a result exactly when completed, asks for more otherwise, or gives up |
| ChunkPullReader.LuaHttpSession.Load | src/lua/module/lua_http_session.cpp:652-668 | serves the rest of the current chunk or asks for the next size line |
| ChunkPullReader.LuaHttpSession.HandleReadChunkSize | src/lua/module/lua_http_session.cpp:703-726 | a size line starts a load; a zero size ends the session for the reader |
| ChunkPullReader.LuaHttpSession.HandleLoadChunkBody | src/lua/module/lua_http_session.cpp:728-743 | makes the chunk available and notifies the reader |
| ChunkPullReader.LuaHttpSession.ReadStream | src/lua/module/lua_http_session.cpp:745-762 | moves bytes of the current chunk only, and drops its CRLF with its last byte |
| ChunkPullReader.LuaHttpSession.Pump | src/lua/module/lua_http_session.cpp:652-762 | the event loop runs every operation that is ready |
| ChunkPullReader.TurnProgresses | src/lua/module/lua_http_session.cpp:652-762 | one completed operation fills the buffer further or comes closer to waiting: the event loop ends |
| ChunkPullReader.TurnInSync | src/lua/module/lua_http_session.cpp:652-762 | one completed operation inside the body keeps session, reader and sender in step |
| ChunkPullReader.TurnInStep | src/lua/module/lua_http_session.cpp:652-762 | at any moment, one completed operation keeps them in step or strays; it strays only where the text behind the end is not harmless, and what was placed still starts with the payload |
| ChunkPullReader.RunSafe | src/lua/module/lua_http_session.cpp:107-143 | for every sequence of reads and every timing of arrivals: unless a read strayed behind the end, the bytes placed are in order a prefix of the payload, all of it once the end was seen; a read that strays only adds to it, and none does where harmless text follows; exact reads resume with a full buffer only; with everything delivered a read inside the body waits only in a stalled load |
| ChunkPullReader.PrintedRunSafe | src/lua/module/lua_http_session.cpp:107-143 | the same prefix for bodies whose sizes are printed in base 16 |
| ChunkPullReader.RunPrompt | src/lua/module/lua_http_reader.cpp:45-142 | in every run: a reader of any progress waits only while it holds no byte, an exact one only while it holds fewer than it asked for; one that holds what it waits for has been resumed with their number |
| ChunkPullReader.Run | src/lua/module/lua_http_session.cpp:107-143 | session and readers driven by any events stand where the run function says: unread wire, session, reader under way and every finished read |
| ScanReader.LuaHttpScanfReader.ReadData | src/lua/module/lua_http_reader.cpp:298-315 | hands out the next bytes, fewer at the end of the buffer |
| ScanReader.LuaHttpScanfReader.ScanNumber | src/lua/module/lua_http_reader.cpp:217-275 | one number, its bytes reversed on demand, pushed as 32 bits where it has 64 |
| ScanReader.LuaHttpScanfReader.Scanf | src/lua/module/lua_http_reader.cpp:204-296 | the loops over fields and their values push what the format says about the buffer, and use exactly its size |
| ScanReader.NetworkOrder | src/lua/module/lua_http_reader.cpp:224-249 | ntohs and ntohl undo network order |
| ScanReader.LongPushed | src/lua/module/lua_http_reader.cpp:251-262 | a 64-bit number comes back as its low word in host order and as its high word in network order |
| ScanReader.ShortPushed | src/lua/module/lua_http_reader.cpp:215-249 | a number of 8, 16 or 32 bits comes back as its bit pattern in either order |
| ScanReader.InMemory | src/lua/module/lua_http_reader.cpp:204-262 | how many bytes each type takes, and what one, two or four bytes are worth in either order |
| ScanReader.RoundTripExactly | src/lua/module/lua_http_reader.cpp:204-296 | scanning what a sender wrote gives the values back if and only if no number is negative, 64-bit numbers fit 32 bits and are zero in network order, and no string holds a NUL |
| ScanReader.Scan | src/lua/module/lua_http_reader.cpp:204-315 | a reader on the bytes of any rows of values pushes those values exactly in that case |
| Text.Split | src/utility/algorithm.h:17-33 | the loop yields the pieces between delimiters |
| Text.PiecesOfJoined | src/utility/algorithm.h:17-33 | splitting undoes joining, with or without a delimiter at the end |
| Text.PiecesFree | src/utility/algorithm.h:17-33 | no piece contains the delimiter |
| Text.TrimAround | src/http/http_request.cpp:207-215 | trimming takes off the blanks around a text and nothing else |
| HttpRequest.AgreeIsMapOf | src/http/http_request.cpp:129-176 | a header map that agrees with a list of distinct names is what assigning the list in order gives |
| HttpRequest.CleanRoundTrip | src/http/http_request.cpp:164-227 | parsing the text of a clean request gives back method, path, version and ordered headers |
| HttpRequest.ParsedClean | src/http/http_request.cpp:188-227 | every request that was parsed from text is clean |
| HttpRequest.RoundTripExact | src/http/http_request.cpp:164-227 | parsing undoes printing if and only if the request is clean: parts free of separators, names and values trimmed, version not empty |
| HttpRequest.PrintedText | src/http/http_request.cpp:164-176 | character by character: the text of any request is the three words with one blank between them, for each header in order its name, a colon, one blank and its value, and an empty line, each closed by CRLF; a clean text cut at CRLF gives those lines |
| HttpRequest.LooseLineParses | src/http/http_request.cpp:207-215 | a header line is read the same with any blanks, or none, around its name and its value |
| HttpRequest.LooseTextParses | src/http/http_request.cpp:188-227 | a request is read the same with any blanks around names and values |
| HttpRequest.ThreeWordsExactly | src/http/http_request.cpp:188-199 | a text of whole lines with an empty one is a request if and only if its first line has three words |
| HttpRequest.NoBlankLineNoRequest | src/http/http_request.cpp:189 | without an empty line nothing is a request |
| HttpRequest.ColonlessLineSkipped | src/http/http_request.cpp:206-212 | a line without a colon, wherever it stands, changes nothing |
| HttpRequest.SetAgrees | src/http/http_request.cpp:129-145 | overwriting a value in place keeps list and map in agreement |
| HttpRequest.AddAgrees | src/http/http_request.cpp:129-145 | appending a new name keeps list and map in agreement |
| HttpRequest.RemoveAgrees | src/http/http_request.cpp:147-158 | removing a name keeps list and map in agreement |
| HttpRequest.Request.SetHeader | src/http/http_request.cpp:129-145 | sets the value in place, or appends the header, in list and map |
| HttpRequest.Request.RemoveHeader | src/http/http_request.cpp:147-158 | removes the header from list and map, or nothing |
| HttpRequest.Request.GetHeader | src/http/http_request.cpp:121-127 | the value, or nothing |
| HttpRequest.Request.SerializeToString | src/http/http_header.h:39-48 | the request line and one line a header, in order, closed by an empty line |
| HttpRequest.Request.ParseBody | src/http/http_request.cpp:188-227 | parses exactly what the reference parser accepts, into list and map |
| HttpRequest.EditPrintParse | src/http/http_request.cpp:129-227 | a fresh request after any edits keeps list and map in agreement; its text reads back as the same request, list and map if and only if it is clean |
| HttpUrl.ParseUrlExact | src/http/http_request.cpp:43-91 | a URL is taken apart into its parts, with the default port and path where none are given |
| HttpUrl.ParseBareUrl | src/http/http_request.cpp:43-91 | without a scheme a URL is taken for http |
| HttpUrl.HostField | src/http/http_request.cpp:279-293 | the Host header a built request carries |
| HttpUrl.UrlRoundTrip | src/http/http_request.cpp:9-91 | URL to request to text and back: a GET for HTTP/1.1 whose path survives, and which names the host and port of the URL, or 80/443 |
| HttpUrl.RangeRoundTrip | src/http/http_request.cpp:330-354 | the byte range in the header, read as section 2.1 of RFC 7233 says, is the one asked for |
| HttpUrl.RangeExactly | src/http/http_request.cpp:330-354 | the header is sent if and only if the numbers select some byte of some resource |
| HttpUrl.SetRange | src/http/http_request.cpp:330-354 | sets the header exactly when the numbers make a range |
| HttpUrl.CreateFromUrl | src/http/http_request.cpp:9-41 | the request a URL, a referer and a byte range yield, and when there is none |
| HttpUrl.GetHostPort | src/http/http_request.cpp:229-247 | host and port from the Host header; a port that is no 32-bit number reads as 80 |
| IoBuffer.IOBuffer.Consume | src/utility/iobuffer.h:192-200 | drops the first unread bytes |
| IoBuffer.IOBuffer.Produce | src/utility/iobuffer.h:203-207 | extends the window over the following bytes |
| IoBuffer.IOBuffer.Resize | src/utility/iobuffer.h:135-149 | changes the unread length; the moving branch keeps the bytes already unread |
| IoBuffer.IOBuffer.Align | src/utility/iobuffer.h:210-226 | moves the unread bytes to the front without changing them |
| IoBuffer.IOBuffer.Fill | src/utility/iobuffer.h:163-170 | appends the longest prefix that fits behind the window, also from the buffer itself |
| IoBuffer.IOBuffer.Clone | src/utility/iobuffer.h:85-91 | a copy with its own bytes and the same window |
| IoBuffer.ActsAsBytes | src/utility/iobuffer.h:85-226 | what each call does to the unread bytes and to the room behind them, for any window |
| IoBuffer.OnlyOwnCallsChange | src/utility/iobuffer.h:85-226 | among any number of buffers and clones, a buffer keeps its bytes through everything but calls on itself |
| IoBuffer.CloneKeeps | src/utility/iobuffer.h:85-91 | a clone starts with the bytes of its original and keeps them through everything but calls on itself |
| IoBuffer.Run | src/utility/iobuffer.h:85-226 | objects on arrays under any list of calls and clones hold what the run function says |
| SendPipeline.TcpStateMachine.AsyncWrite | src/network/tcp_state_machine.h:253-280 | a submission goes behind everything pending; one write stays outstanding exactly unless an empty buffer is submitted over pending data |
| SendPipeline.EmptySubmissionDoubles | src/network/tcp_state_machine.h:253-280 | one byte and then an empty buffer leave two writes outstanding |
| SendPipeline.TcpStateMachine.CheckSendBuffer | src/network/tcp_state_machine.cpp:719-739 | acknowledged bytes leave the front and the next buffer moves up |
| SendPipeline.TcpStateMachine.HandleWrite | src/network/tcp_state_machine.cpp:359-394 | a completion acknowledges its bytes and starts the next write exactly when something is left |
| SendPipeline.TcpStateMachine.ResetCaches | src/network/tcp_state_machine.cpp:709-717 | drops everything pending |
| SendPipeline.CompleteBytes | src/server/statusd/statusd_client.cpp:239-264 | the statusd client drives the same completion: acknowledged bytes are the next submitted ones |
| SendPipeline.NothingLost | src/network/tcp_state_machine.h:253-280 | in every interleaving of submissions and partial or full completions, acknowledged ++ pending = submitted in order |
| SendPipeline.CompletionExactly | src/network/tcp_state_machine.cpp:719-739 | a completion of n bytes acknowledges the next n pending bytes, as far as the part being written goes; a part that is done gives way to the next |
| SendPipeline.Run | src/network/tcp_state_machine.h:253-280 | the pipeline on shared buffers stands where the run function says, up to the first empty submission over pending data, with one write outstanding exactly while something is pending |
| LwsService.LuaLwsService.Start | src/lua/module/lua_lws_service.cpp:100-149 | nothing for a running service; otherwise running exactly when there are protocols, a context and a thread that reports in time, with the code for what is missing |
| LwsService.LuaLwsService.Connect | src/lua/module/lua_lws_service.cpp:170-231 | refused while the service does not run; a new handle starts with an empty queue and is marked |
| LwsService.LuaLwsService.Write | src/lua/module/lua_lws_service.cpp:297-316 | queues the message and marks the connection; unknown handles are ignored |
| LwsService.LuaLwsService.OnWritable | src/lua/module/lua_lws_service.cpp:374-403 | gives the first message to the library and asks for the next turn when it was sent whole |
| LwsService.LuaLwsService.InnerCallback | src/lua/module/lua_lws_service.cpp:318-363 | a callback sends at most one message of its own connection and leaves the others alone |
| LwsService.LuaLwsService.LibraryCalls | src/lua/module/lua_lws_service.cpp:318-363 | a callback as the library makes it: a result of -1 closes the connection |
| LwsService.LuaLwsService.CheckWriteable | src/lua/module/lua_lws_service.cpp:438-455 | every mark of a live connection becomes a writable request |
| LwsService.LuaLwsService.CloseAll | src/lua/module/lua_lws_service.cpp:260-295 | closed sessions leave the table and all others start closing |
| LwsService.LuaLwsService.Stop | src/lua/module/lua_lws_service.cpp:151-164 | nothing is left in the table |
| LwsService.RestartIsClean | src/lua/module/lua_lws_service.cpp:100-164 | after a stop and a start no connection, no owed callback and no mark that would request one is left |
| LwsService.RunningExactly | src/lua/module/lua_lws_service.cpp:100-168 | the service runs if and only if some start had all it needs and no stop came after it |
| LwsService.StoppedRefuses | src/lua/module/lua_lws_service.cpp:170-316 | a service that does not run takes no connection, message or close |
| LwsService.ConnectedIsAsked | src/lua/module/lua_lws_service.cpp:219-231 | a new connection is asked for by the next round |
| LwsService.CloseEnds | src/lua/module/lua_lws_service.cpp:243-363 | a session that closes is gone after one round and one callback |
| LwsService.CloseAllEnds | src/lua/module/lua_lws_service.cpp:260-363 | close_all ends every connection whose session knows its handle in the same way |
| LwsService.ClosingLeaves | src/lua/module/lua_lws_service.cpp:329-343 | a closing connection is gone with its next callback, whatever that is about |
| LwsService.FailedWriteCloses | src/lua/module/lua_lws_service.cpp:374-403 | a message the library does not take whole is lost with its connection |
| LwsService.DrainSends | src/lua/module/lua_lws_service.cpp:374-455 | from any state one round and one callback a message send everything waiting on a live marked connection, in order |
| LwsService.StepKeepsArmed | src/lua/module/lua_lws_service.cpp:243-455 | no critical section, and no request dropped by the library, loses the wakeup of an established connection |
| LwsService.StepKeepsStrictlyArmed | src/lua/module/lua_lws_service.cpp:243-455 | without a dropped request no step loses a wakeup at all |
| LwsService.StepKeepsOrder | src/lua/module/lua_lws_service.cpp:297-403 | every step keeps given ++ waiting = written, for every connection |
| LwsService.RunSafe | src/lua/module/lua_lws_service.cpp:170-455 | after every event of every run: a live established connection with messages waiting has a wakeup on its way, and given ++ waiting = the messages written on it while the service knew it |
| LwsService.Run | src/lua/module/lua_lws_service.cpp:87-455 | the service driven by any events stands where the run function says |
| Sessions.InsideRunsBalance | src/session/bee_session.cpp:114-127 | whatever inputs keep a machine inside its table, opens and closes balance to the state reached |
| Sessions.CloseInsideExactly | src/session/bee_session.cpp:54-75 | closing stays inside the table if and only if the state is Opening or Ready; from Idle or Closing the first switch reports success and reaches the sentinel 5 |
| Sessions.BeeSession.InitStateMachine | src/session/bee_session.cpp:114-127 | the loops build the table of transitions |
| Sessions.BeeSession.SwitchState | src/state/simple_state_machine.cpp:22-40 | refuses only an input number out of range: no entry is the -1 it tests for |
| Sessions.BeeSession.Open | src/session/bee_session.cpp:20-52 | success leads to Ready with the reported capabilities, failure back to Idle with the engine kept; the call leaves the table exactly when the engine opens in a session that was not Idle |
| Sessions.BeeSession.Close | src/session/bee_session.cpp:54-75 | back to Idle with nothing registered; the call leaves the table exactly from Idle and from Closing |
| Sessions.BeeSession.Execute | src/session/bee_session.cpp:77-101 | the engine answers for a registered service only; the state is kept |
| Sessions.BeeSession.RegSvc | src/session/bee_session.cpp:142-163 | only supported codes are registered, and a second registration keeps the first service |
| Sessions.BeeSession.UnregSvc | src/session/bee_session.cpp:165-187 | erases by code |
| Sessions.SessionManager.Init | src/session/session_manager.cpp:16-36 | a pool of idle sessions, 16 if no count is given; nothing on a second call |
| Sessions.SessionManager.Uninit | src/session/session_manager.cpp:38-60 | every session ends Idle and the pool is empty |
| Sessions.SessionManager.OpenIdleSession | src/session/session_manager.cpp:62-88 | lends some idle session; reports a shortage exactly when all are lent |
| Sessions.SessionManager.CloseBusySession | src/session/session_manager.cpp:90-114 | succeeds exactly for lent ids |
| Sessions.SessionManager.DoExecute | src/service/bee_entrance.cpp:530-559 | what a client of a session handle observes |
| Sessions.SessionManager.DoRegSvc | src/service/bee_entrance.cpp:561-581 | registering through a handle: unknown handles are refused, and only the lease of this handle changes |
| Sessions.SessionManager.DoUnregSvc | src/service/bee_entrance.cpp:583-603 | the same for unregistering |
| Sessions.PoolsSafe | src/session/session_manager.cpp:16-114 | in every run lent ids lie in the pool and registered services within the capabilities |
| Sessions.NeverLentTwice | src/session/session_manager.cpp:62-114 | between two opens that return the same id lies a close of that id or a teardown |
| Sessions.AnsweredExactly | src/service/bee_entrance.cpp:530-559 | in every run an execute brings back the answer of the engine if and only if its id was lent and not given back, and its code registered in it and not withdrawn; the two other answers say which is missing |
| Sessions.OpenedExactly | src/session/session_manager.cpp:16-88 | in every run an open lends a session, one that was not lent, if and only if the engine opens and fewer ids are lent than there are sessions, sixteen where no number was given |
| Sessions.ClosedExactly | src/session/session_manager.cpp:90-114 | in every run a close succeeds if and only if its id was lent and not given back |
| Sessions.FirstServiceStays | src/session/bee_session.cpp:142-163 | the service first registered under a code keeps it, whatever is registered after it |
| Sessions.Serve | src/session/session_manager.cpp:16-127 | any calls on a new manager are answered as the client-side pool allows, and afterwards each session is Ready if lent and Idle if not: none is at the sentinel |
| LogVolumes.AtoiItoa | src/log/logger_impl.cpp:164-183 | a printed volume number is read back |
| LogVolumes.VolumeText | src/log/logger_impl.cpp:153-183 | a volume is prefix.log, or that with a dot and its plain decimal number |
| LogVolumes.IndexOfVolume | src/log/logger_impl.cpp:136-151 | the number read from a volume name is the one it was made with |
| LogVolumes.KeyOfVolume | src/log/logger_impl.cpp:196-232 | volume names sort by their number, whatever dots the prefix holds |
| LogVolumes.RollKeepsHistory | src/log/logger_impl.cpp:153-194 | one roll loses the text of the oldest kept volume and nothing else |
| LogVolumes.NextHalf | src/log/logger_impl.cpp:176-189 | each rename in descending order finds its new name free |
| LogVolumes.ShiftReached | src/log/logger_impl.cpp:153-194 | deletion, renames and the new file together are exactly one shift of all volumes |
| LogVolumes.LogAppenderFile.GetMaxVolumeIndex | src/log/logger_impl.cpp:120-134 | the largest volume number present |
| LogVolumes.LogAppenderFile.RenameAll | src/log/logger_impl.cpp:169-189 | the loop over the sorted listing performs exactly those renames |
| LogVolumes.LogAppenderFile.RollingVolumes | src/log/logger_impl.cpp:153-194 | a roll shifts the volumes |
| LogVolumes.LogAppenderFile.Append | src/log/logger_impl.cpp:52-72 | rolls exactly when the current volume has reached its size, and puts the whole text into the newest volume |
| LogVolumes.AppendKeeps | src/log/logger_impl.cpp:52-72 | one append keeps dropped text ++ volumes oldest to newest = what was there ++ what was appended |
| LogVolumes.AppendExactly | src/log/logger_impl.cpp:52-72 | a volume that has reached its size moves up with all before it and the text starts a new one; otherwise the text goes behind what the newest holds |
| LogVolumes.RolledAreFull | src/log/logger_impl.cpp:52-72 | in every run on an empty directory older volumes have reached their size, and the newest had not before the last text |
| LogVolumes.RunKeepsText | src/log/logger_impl.cpp:24-232 | the same for every sequence of texts; volumes beyond the count are never touched |
| LogVolumes.VolumesCounted | src/log/logger_impl.cpp:153-194 | never more volumes than the count and those beyond it; exactly so many after count - 1 rolls |
| LogVolumes.BoundExactly | src/log/logger_impl.cpp:153-194 | the number of volumes never exceeds the count, whatever is logged, if and only if none beyond it were there |
| LogVolumes.LayoutSize | src/log/logger_impl.cpp:24-50 | the directory holds one file a volume |
| LogVolumes.Run | src/log/logger_impl.cpp:24-232 | the appender on any directory of volumes leaves exactly the files the run function says |
| TcpConnect.EveryEndpointOnce | src/network/tcp_state_machine.cpp:132-213 | the first N attempts visit every endpoint exactly once, cyclically from the start index |
| TcpConnect.CurrentExactly | src/network/tcp_state_machine.cpp:172-176 | the index test takes a completion for the current attempt exactly when it is, or when both belong to the attempts that re-use the last index |
| TcpConnect.HandshakeExactly | src/network/tcp_state_machine.cpp:215-295 | a handshake that completes, of whichever attempt, adds one report and ends the state however many endpoints remain; failed or not, the report names the endpoint of the handshake if and only if no endpoint was tried since or the handshake belongs to the attempts that re-use the last index |
| TcpConnect.RunHandshakes | src/network/tcp_state_machine.cpp:215-295 | so it is at every event of every run, for the attempt the handshake recorded when it began |
| TcpConnect.OldHandshakeEnds | src/network/tcp_state_machine.cpp:182-295 | two endpoints with TLS: an input on which the abort of the first handshake is reported as a failure of the second endpoint, and one on which its success is reported as a connection to the second |
| TcpConnect.TcpConnectState.Execute | src/network/tcp_state_machine.cpp:112-158 | one more attempt, from the start index when it is valid; no counter is set back, and a running timer is replaced |
| TcpConnect.ExecutedAgain | src/network/tcp_state_machine.cpp:112-158 | after a second execute the first completion with an error other than a timeout ends the state exactly when tried + 1 reaches the number of endpoints |
| TcpConnect.TcpConnectState.HandleConnect | src/network/tcp_state_machine.cpp:160-246 | what each kind of completion does: ignored, next endpoint, same endpoint again, failure, handshake or success |
| TcpConnect.TcpConnectState.HandlePeriodTimeout | src/network/tcp_state_machine.cpp:248-261 | the total limit reports a timeout, the endpoint limit moves on |
| TcpConnect.TcpConnectState.HandleHandshake | src/network/tcp_state_machine.cpp:263-295 | reports the endpoint tried last |
| TcpConnect.FailureExactly | src/network/tcp_state_machine.cpp:172-193 | a failing completion ends the state exactly when its attempt passes for the current one, all endpoints were tried and the error is no timeout |
| TcpConnect.CompletionExactly | src/network/tcp_state_machine.cpp:160-246 | every completion, case by case: ignored, a connection reported with its endpoint, a handshake begun, the next attempt started, or a failure reported |
| TcpConnect.LimitExactly | src/network/tcp_state_machine.cpp:248-261 | a tick of 200 ms that reaches the total limit reports it and stops the timer; another starts an attempt exactly when the endpoint has had 10 s |
| TcpConnect.StaleAbortEnds | src/network/tcp_state_machine.cpp:182-213 | an input on which the abort of an old attempt ends the state while a new attempt is under way |
| TcpConnect.RunSafe | src/network/tcp_state_machine.cpp:112-295 | in every run the first attempt uses the start index, or 0 where that is out of range, attempt i targets endpoint (s+i-1) mod N up to N and the last one after that, a failure is reported only after N attempts and never for a timeout, success and handshake failures name the endpoint tried last at the report, a handshake under way belongs to an attempt made, and something is reported within the total limit |
| TcpConnect.ReportedAtOnce | src/network/tcp_state_machine.cpp:160-295 | the attempt number in a report is the number of attempts made at that moment |
| TcpConnect.Run | src/network/tcp_state_machine.cpp:112-295 | the state driven by any events stands where the run function says; it does not start without an endpoint |
| PcmBlocks.PendingFitsExactly | src/platform/win32/audio_device_module_wrapper.cpp:119-152 | at most one block stays pending if and only if the input fills the gap; a shorter one wraps the length around |
| PcmBlocks.SentExactly | src/platform/win32/audio_device_module_wrapper.cpp:138-152 | the loop sends whole blocks while more than one is left: what stays is the last block, even a full one, and nothing only where there was nothing |
| PcmBlocks.GapIsDistance | src/platform/win32/audio_device_module_wrapper.cpp:125-136 | the gap is the distance from the frames received to the next 10 ms boundary |
| PcmBlocks.AudioDeviceModuleWrapper.OnPCMData | src/platform/win32/audio_device_module_wrapper.cpp:107-153 | delivered ++ pending grows by exactly the input, and nothing is pending exactly when the input just fills the gap; the input is read past its end exactly when it is shorter than the gap; without a transport the lock stays held |
| PcmBlocks.Run | src/platform/win32/audio_device_module_wrapper.cpp:107-153 | for every sequence of inputs, up to the first that does not reach the next 10 ms boundary, all blocks are 10 ms long and blocks ++ pending = frames received, with at most one block pending, and none exactly when the last input ended the block that was pending |

## Left out

- WebRTC, JNI, iOS and Win32 adapters other than OnPCMData; Lua stack handling, coroutines and argument checks; the OpenSSL, zlib, RSA, AES, RC4, base64 and SHA1 wrappers: foreign calls.
- Allocation failure and null pointers: calloc, malloc and new are taken to succeed, and state machines and sessions to be alive when a handler runs.
- XXTEA lengths of 2^32 words and more, where the 32-bit `n + 1` is zero; the key buffer must have at least sixteen bytes, which FIXED_KEY reads.
- The big- and little-endian branches of the packing code are modelled once, by the branch that does not depend on the byte order.
- SafeQueue: GetSize and IsEmpty only read; DupAndClear empties the queue without the semaphores; a semaphore's platform limit on its maximum count.
- LuaVideoCache: DataPromise and MakePromise run foreign Lua code; its Scanf, which decodes fields like the one modelled in `ScanReader.dfy` but out of the ring; what a cache does once its place is lost or it has divided by zero; the bytes an overrunning copy would fetch from behind the buffer are not represented.
- Chunked bodies: streaming mode, trailers and end of file inside a chunk; a sign or a 0x prefix in a size line; in the push decoder sizes of 2^32 - 2 and more, whose size + 2 wraps; in the pull reader sizes of 2^64 - 2 and more.
- Body reading with Content-Length, header reading and redirects of the HTTP state machine; HttpRequestState::handle_write, which never calls check_send_buffer.
- ScanReader.LuaHttpScanfReader.Scanf: for buffers that hold all fields, as lua_http_module.cpp computes their size; a short buffer would leave old bytes in a number. Big-endian hosts, where ntohs changes nothing.
- HttpRequest::reset and editing parsed requests with duplicate header names, whose list and map disagree; proxies; signs and blanks that lexical_cast accepts; HttpResponse and its case-insensitive map.
- IOBuffer: two handles of one buffer used at the same time, and capacity growth in other constructors.
- SendPipeline: what happens after a failed write, beyond that nothing is acknowledged.
- ChunkPullReader.Run: a read issued while another waits, which replaces the waiting reader and posts a load beside the operation under way; scanf requests, which share the reader.
- LwsService: the memory order of flags read outside the mutex, building the connection request, the TLS callbacks, and a service thread that begins after start has given up on it.
- Sessions: generating the live session id (its text is a parameter), on_svc_notify, set_state and rollback_state, and the state machine of BeeEntrance around the manager.
- Sessions.BeeSession.Open: what happens after the table is left, which reads behind its rows, is not modelled.
- Sessions.BeeSession.Close: the same.
- LogVolumes: the line-counted mode without volumes, failing file operations, foreign files in the directory, gz volumes and 32-bit overflow of the size counter. GetIndexFromVolume passes the length of the rest as the length of the pattern "."; the search then reads past that literal, and is taken not to match.
- TcpConnect: the ticks of a timer that a second execute has replaced, and runs with more than one execute.
- PcmBlocks: rates below 100 Hz, for which the loop does not terminate; blocks larger than the pending buffer; what is copied once an input is read past its end; counted in frames, not bytes.
