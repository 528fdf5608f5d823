# Verified model of the AESD character driver and its socket server

This project models, in Dafny 4.11, the two stateful cores of the repository and proves what they promise.

**The driver** (`aesd-char-driver/`) is a bounded, newline-framed, evicting log. Writes accumulate in a staging
buffer, which is committed to a ring of ten entries whenever its last byte is a newline; an eleventh commit evicts
and frees the oldest entry. Every open file has a flat position; reads turn it into an entry and an offset, the
seek request turns a command and an offset back into a position.

**The server** (`server/`) spawns one handler thread per connection, keeps them in a heap linked list that it
sweeps while removing nodes from it, and serialises whole client sessions with one mutex.

How the files fit together:

- `Bytes.dfy`, `Layout.dfy`: byte strings; the meaning of a flat position (`Locate`) against the scan the driver
  performs in C integer arithmetic (`Scan`).
- `CommandLog.dfy`, `History.dfy`: the driver's data as a value, one write as a step on it, and the commits as a
  function of the chunks written.
- `Reading.dfy`: one read and one seek as functions of the stored commands.
- `CircularBuffer.dfy`, `KernelHeap.dfy`, `Ownership.dfy`, `Device.dfy`: the ring as a class over a ten-slot array,
  the allocator (every allocation has an identity; freeing or using anything not live is ruled out), and the file
  operations as methods, each proved to perform the value-level step and to keep exact ownership of every buffer.
- `Interleaving.dfy`: runs, that is any interleaving of calls by any number of open files, and the theorems over
  them. The device mutex makes each call one step. `AesdDevice.Read` and `Seek` are proved to be `Step` as seen by
  their file, `AesdDevice.Write` to be `WriteStep`, which is `Step` on the log.
- `ThreadQueue.dfy`, `Ledger.dfy`, `Server.dfy`: the linked list over real nodes, the main thread's bookkeeping as a
  value, and its sweep and drain as methods on the list.
- `Sessions.dfy`: handlers, mutex, data file and sweep as a step relation over all interleavings.
- `DataFile.dfy`: the two cores joined. The server's data file is the device, so what stdio writes out are the driver's
  writes; when the commits are the sessions.
- `Seekto.dfy`: tokenising and decoding of the seek command, in place.

Where the code does not do what it is meant to, the code is modelled as it is and the exact condition is proved:

- The position scan adds up in an `int`. A stored position is found correctly if and only if its entry ends below
  2^31, and all positions are if and only if the whole content is shorter than 2^31 bytes (`Layout.FindRightIff`,
  `Layout.FindRightEverywhereIff`); past the end, NULL is answered if and only if the running total never turns
  negative (`Layout.ScanPastEndIff`). `Layout.FindRightAtIff` joins the two for any one position, and
  `Layout.ScanOverflows` shows an entry of 2^31 bytes for which both fail.
- The commits are the lines of the text only if no write has a newline before its last byte
  (`History.CommitsAreLinesIff`, `History.ChunkingMatters`).
- A failed `krealloc` clears the staging pointer but not the size, and leaks the buffer. The bytes accepted later
  still follow the earlier ones, whatever the fresh allocation holds, if and only if nothing was staged
  (`CommandLog.NoMemoryHarmlessIff`); runs are called clean when every failure is of that kind, and
  `Interleaving.NoMemoryBreaksStream` is a run of three writes that is not and loses a byte.
- The size `aesd_llseek` computes uses one variable as counter and accumulator. It is the least multiple of staged
  length + 1 that is at least 10, and equals a given content length only under the condition of
  `Reading.LlseekSizeRightIff`; `Interleaving.LlseekSizeWrong` is a reachable state where it differs.
- The shutdown drain frees thread data before joining. The handlers can go on to use the freed data of a thread if
  and only if that thread had not completed (`Sessions.DrainSafeIffCompleted`), and to a state in which its descriptor
  has been closed twice if and only if it had not cleared it (`Sessions.DrainClosesOnceIffCleared`);
  `Sessions.DrainTooEarly` is a reachable state where both happen.
- The driver's commands are the sessions' payloads, whatever stdio writes out and when, if and only if each session
  contributes one line or nothing (`DataFile.SessionsAreCommitsIff`); `DataFile.TwoLinesBreakIt` is a reachable state
  where a session contributes two.
- The token searches of the seek command stay inside the receive buffer if and only if it holds a NUL or three tokens
  with a delimiter behind each (`Seekto.DecodableIff`), so for every chunk shorter than the buffer;
  `Seekto.FullChunkRunsOff` is a full one where they do not.
- `atoi` makes the seek command decode to the numbers printed if and only if both are below 2^31
  (`Seekto.SeektoRoundTrip`).

Preconditions follow the source: a write that gets the mutex needs `size + count > 0` because the code indexes
`size - 1`; a read needs a position that the scan above decodes correctly (`Reading.Readable`, its exact guard, which
holds everywhere while the content is shorter than 2^31 bytes: `Reading.ShortIsReadable`), for with a wild offset it
copies from outside the entry; a seek needs content below 2^63 bytes, the range of a file position; decoding a seek
command needs each token search to end inside the receive buffer (`Seekto.Decodable`, with the exact condition above).
The outcome of `krealloc`, of the copies to and from user memory and of waiting for the mutex are parameters, as are
the contents of fresh memory.

## Model

| member | source | states |
|---|---|---|
| Layout.LocateMeaning | aesd-char-driver/aesd-circular-buffer.c:19-28 | The entry and offset found for a position decompose it over the sizes before that entry; there is none exactly at or past the total. |
| Layout.LocateInverse | aesd-char-driver/aesd-circular-buffer.c:42-55 | That decomposition is unique: any entry and offset inside it that add up to the position are the ones found. |
| Layout.FindRightIff | aesd-char-driver/aesd-circular-buffer.c:32-57 | With the `int` accumulator wrapping, a stored position is found correctly iff its entry ends below 2^31. |
| Layout.FindRightEverywhereIff | aesd-char-driver/aesd-circular-buffer.c:32-57 | The scan agrees with flat indexing at every file position iff the total length is below 2^31. |
| Layout.ScanPastEndIff | aesd-char-driver/aesd-circular-buffer.c:46-60 | Past the end NULL is returned iff no running total is negative as an `int`. |
| Layout.FindRightAtIff | aesd-char-driver/aesd-circular-buffer.c:32-60 | One position, stored or not, is decoded correctly iff its entry ends below 2^31, or, past the end, no running total is negative. |
| Layout.ScanOverflows | aesd-char-driver/aesd-circular-buffer.c:32-60 | A witness: over one entry of 2^31 bytes, position 0 decodes wrongly and the position past the end is found in an entry. |
| Layout.ScanIgnoresEmptyTail | aesd-char-driver/aesd-circular-buffer.c:42-55 | Unused slots, being of size zero, never change the answer of the ten-slot scan. |
| Layout.EntryInFlat | aesd-char-driver/aesd-circular-buffer.c:21-22 | The bytes of an entry sit in the end-to-end concatenation right after the entries before it. |
| CircularBuffer.AddKeepsShape | aesd-char-driver/aesd-circular-buffer.c:79-96 | Adding keeps the ring invariant: before ten commits out_offs is 0, in_offs counts them and the rest is zero; from then on full, in_offs = out_offs and the slots are the last ten entries. |
| CircularBuffer.ScanOrder | aesd-char-driver/aesd-circular-buffer.c:42-44 | The modular walk from out_offs meets the last ten entries in order, then only empty slots. |
| CircularBuffer.Ring.constructor | aesd-char-driver/aesd-circular-buffer.c:105-108 | The zeroed ring satisfies the invariant with no entries. |
| CircularBuffer.Ring.AddEntry | aesd-char-driver/aesd-circular-buffer.c:70-100 | The entry becomes the newest; a full ring loses its oldest and returns that pointer, otherwise NULL; full never resets. |
| CircularBuffer.Ring.FindEntryOffsetForFpos | aesd-char-driver/aesd-circular-buffer.c:29-61 | The slot and offset are those of the C scan over the live entries, and of flat indexing when the content is below 2^31 bytes. |
| CommandLog.WriteConserves | aesd-char-driver/main.c:148-182 | One clean write extends evicted ++ live ++ staged by exactly its data if it succeeded and changes none of it otherwise (EFAULT included); staging never ends in a newline. |
| CommandLog.WriteMeaning | aesd-char-driver/main.c:150-182 | In every case, failures included, only a stored write adds bytes: all of its data, behind the staged ones; it commits iff its last byte is ASCII 10. |
| CommandLog.LiveIsLastTen | aesd-char-driver/aesd-circular-buffer.c:79-96 | A reader can see the last ten commands, all while there are no more. |
| CommandLog.NoMemoryHarmlessIff | aesd-char-driver/main.c:150-156 | After a failed krealloc later bytes follow the earlier ones, whatever fresh memory holds, iff nothing was staged. |
| CommandLog.NoMemoryThenStored | aesd-char-driver/main.c:150-156 | For given contents of fresh memory, iff they are the bytes that were lost. |
| CommandLog.EvictedGrows | aesd-char-driver/main.c:170-178 | Evicted bytes stay evicted, and a write without a commit evicts nothing. |
| History.CommitsAreGroups | aesd-char-driver/main.c:158-182 | Storing chunks one by one commits exactly the groups cut after each chunk that ends in a newline, and stages exactly the open group. |
| History.CommitsAreLinesIff | aesd-char-driver/main.c:170-182 | The commits are the newline-terminated lines of the bytes iff no chunk has a newline before its last byte. |
| History.LinesMeaning | aesd-char-driver/main.c:170-182 | The lines: each ends in ASCII 10 and holds it nowhere else (History.LineIs), the rest holds none, and together they are the text. |
| History.ChunkingIndependence | aesd-char-driver/main.c:158-182 | Two line-shaped chunkings of the same bytes leave the same state. |
| History.ChunkingMatters | aesd-char-driver/main.c:170-182 | A witness that without that restriction the chunking shows. |
| Reading.ReadIsWindow | aesd-char-driver/main.c:86-111 | A read returns the window of the flat content at the position, inside one entry, whose length is the smaller of count and the bytes left in that entry; nothing iff past the end or count is 0. |
| Reading.ReadDelivers | aesd-char-driver/main.c:86-111 | The same over the commands themselves: the content from the position on, to the end of the command there or as much as asked for. |
| Reading.ShortIsReadable | aesd-char-driver/main.c:86-111 | While the content is shorter than 2^31 bytes every file position can be read. |
| Reading.SeekAccepts | aesd-char-driver/main.c:285-312 | A pair is accepted iff the command exists and the offset is at most its size; its position is the length of the commands before it plus the offset. |
| Reading.SeekReachesAll | aesd-char-driver/main.c:285-312 | With anything stored every position up to the end of the content, that one included, is reached; with nothing stored no pair is accepted. |
| Reading.SeekThenFind | aesd-char-driver/main.c:296-316 | Seeking to (command, offset) and locating gives the pair back; with offset = size it is the start of the next command, or nothing after the last. |
| Reading.FindThenSeek | aesd-char-driver/main.c:279-316 | Every stored position is reached by exactly one pair with the offset below the size. |
| Reading.SeekInRange | aesd-char-driver/main.c:305-316 | An accepted seek never goes past the end of the content. |
| Reading.LlseekSizeIsLeastMultiple | aesd-char-driver/main.c:211-213 | The computed size is the least multiple of staged length + 1 that is at least 10, so between 10 and 10 + staged length. |
| Reading.LlseekSizeRightIff | aesd-char-driver/main.c:211-217 | When that equals a given content length. |
| Ownership.ReallocKeeps | aesd-char-driver/main.c:148-156 | A successful krealloc, moving or not, keeps every command's buffer and the staged bytes. |
| Ownership.LoseKeeps | aesd-char-driver/main.c:150-156 | A failing one leaves the ring untouched and leaks exactly the staging buffer. |
| Ownership.EvictKeeps | aesd-char-driver/main.c:170-182 | Committing into a full ring hands over the staging buffer and leaves the oldest entry's buffer as the one to free. |
| KernelHeap.Heap.Kfree | aesd-char-driver/main.c:174-178 | Only a live allocation can be freed, and it is recorded as freed once. |
| Device.AesdDevice.constructor | aesd-char-driver/main.c:363-366 | The zeroed device is valid, empty and owns nothing. |
| Device.AesdDevice.Write | aesd-char-driver/main.c:118-187 | The write performs the value-level step and returns count, -14, -12 or -512; the bytes held grow by exactly a non-negative return value; it commits iff its last byte is ASCII 10; it frees exactly the moved staging buffer and the evicted entry's, and leaks only on ENOMEM; ownership stays exact. |
| Device.AesdDevice.Commit | aesd-char-driver/main.c:170-182 | The staging buffer becomes the newest entry, the oldest of a full ring is freed once, staging restarts empty. |
| Device.AesdDevice.Read | aesd-char-driver/main.c:55-116 | At any position the scan decodes correctly, the read returns the content from there, to the end of the command or as much as asked for; a faulting copy of anything gives -14 and an interrupted wait -512; the position moves by what is returned, and not at all on an error. |
| Device.AesdDevice.Seek | aesd-char-driver/main.c:222-324 | The request returns 0 iff the command exists and the offset is at most its size, else -22, or -14 or -512 on a fault or interrupt; on 0 the position is the length of the commands before plus the offset, otherwise it stays. |
| Device.AesdDevice.WalkTo | aesd-char-driver/main.c:296-303 | The walk around the ring takes exactly write_cmd (at most 9) steps and sums the sizes before that command. |
| Device.AesdDevice.AvailableEntries | aesd-char-driver/main.c:279-282 | in_offs - out_offs, or ten when full, is the number of stored commands. |
| Device.AesdDevice.SizeForLlseek | aesd-char-driver/main.c:211-213 | The loop ends with the size described above. |
| Device.AesdDevice.Cleanup | aesd-char-driver/main.c:386-392 | Every entry's buffer is freed once, in slot order; only the staging buffer and leaked ones stay allocated. |
| Interleaving.StepIsLocal | aesd-char-driver/main.c:55-324 | A call sees and changes only the device and the position of its own file. |
| Interleaving.FailedReadIsNothing | aesd-char-driver/main.c:80-107 | A read interrupted or faulting delivers nothing and moves no file. |
| Interleaving.ModestRunIsAllowed | aesd-char-driver/main.c:55-187 | Runs meet what the theorems below require as long as no write is empty or out of memory, positions set are below 2^63 and less than 2^31 bytes are accepted. |
| Interleaving.RunIsHistory | aesd-char-driver/main.c:148-182 | After any clean run the log is the one of the successful writes alone: commits and staging are a pure function of their chunks. |
| Interleaving.RunConserves | aesd-char-driver/main.c:148-182 | At every point of any clean run, evicted ++ live ++ staged is the concatenation of all successful writes. |
| Interleaving.RunKeepsLength | aesd-char-driver/main.c:148-182 | In every run, clean or not, the lengths of evicted, live and staged bytes add up to the bytes accepted. |
| Interleaving.RunClosesCommits | aesd-char-driver/main.c:150-182 | In every run, reallocation failures included, every command committed ends in a newline. |
| Interleaving.NoMemoryBreaksStream | aesd-char-driver/main.c:150-182 | A witness: after one byte stored, one failed krealloc and a newline stored, the only command is the byte the fresh memory held and the newline, not what was accepted. |
| Interleaving.StreamWindow | aesd-char-driver/main.c:86-111 | In any interleaving a read at f_pos delivers bytes [E+f_pos, E+f_pos+n) of the accepted stream, E bytes having been evicted. |
| Interleaving.ReadGap | aesd-char-driver/main.c:86-111 | Two reads of a file without a seek between them are disjoint, in order, and separated by what the file read meanwhile plus exactly the bytes evicted meanwhile. |
| Interleaving.ReadsFromStart | aesd-char-driver/main.c:86-111 | A file that is only read is, from position 0 on, where its reads have brought it. |
| Interleaving.AcceptedGrows | aesd-char-driver/main.c:158-168 | The accepted stream is only ever extended. |
| Interleaving.DrainIsContiguous | aesd-char-driver/main.c:86-111 | While nothing is committed, the reads of a file are one contiguous stretch of the content, whatever other files do. |
| Interleaving.DrainIsComplete | aesd-char-driver/main.c:86-111 | A positive-count read then returns nothing iff all of content[f_pos..] has been delivered. |
| Interleaving.SeekThenDrain | aesd-char-driver/main.c:86-111 | After an accepted seek to byte y of command x, while nothing is committed and the file is not moved again, reads until the first empty one deliver exactly the content from that byte on. |
| Interleaving.DrainInTen | aesd-char-driver/main.c:86-111 | If each count covers the longest command, at most as many reads deliver data as there are commands left, hence at most ten. |
| Interleaving.ProductiveCounts | aesd-char-driver/main.c:86-111 | What is counted there are exactly the reads that deliver something. |
| Interleaving.LlseekSizeWrong | aesd-char-driver/main.c:211-213 | A reachable state with one stored byte for which the computed size is 10. |
| ThreadQueue.Queue.Enqueue | server/thread_queue.c:5-27 | The element is appended, or nothing changes if no node can be allocated; the list stays acyclic and live. |
| ThreadQueue.Queue.Dequeue | server/thread_queue.c:29-40 | The front element is taken out and returned, or NULL on an empty queue. |
| ThreadQueue.Queue.Remove | server/thread_queue.c:42-65 | The first occurrence is removed, the next node takes its place; true iff there was one. |
| ThreadQueue.RemoveFirstAt | server/thread_queue.c:50-62 | Removing the first match removes the node at that index and nothing else. |
| Ledger.KeptAndPicked | server/aesdsocket.c:336-347 | A sweep puts every queued thread in exactly one of kept and joined, according to the flag seen, in order. |
| Ledger.MidwayShape | server/aesdsocket.c:309-347 | Removing the completed ones one by one during the traversal leaves, at every point, the kept threads followed by those not visited yet. |
| Ledger.RunAccounts | server/aesdsocket.c:253-351 | Over any server run every spawned thread is, once, in the queue or among the joined. |
| Ledger.RunGoesOn | server/aesdsocket.c:253-351 | A run goes on with any new thread and any flags seen. |
| Ledger.ShutdownJoinsEachOnce | server/aesdsocket.c:365-378 | After the drain the queue is empty and the joined threads are the spawned ones, each once. |
| Server.MainLoop.Spawn | server/aesdsocket.c:264-360 | The new instance, with data of its own, enters at the end of the queue; if its data cannot be allocated, its thread not started or its node not allocated, the books stay as they are and the descriptor is closed, and in the last of these cases the thread, already started, is cancelled. |
| Server.MainLoop.Observe | server/aesdsocket.c:322-336 | The flag the sweep reads belongs to a queued thread, which the books show neither joined nor freed; reading it changes no other flag. |
| Server.MainLoop.Visit | server/aesdsocket.c:322-347 | One turn of the sweep: the saved next pointer is the right next node, and the instance is joined and freed iff its flag is seen set. |
| Server.MainLoop.Reap | server/aesdsocket.c:336-346 | Exactly this instance leaves the queue, is joined once, and nothing of it was freed before; its descriptor is not closed again. |
| Server.MainLoop.Sweep | server/aesdsocket.c:309-347 | The sweep under mutation visits each node once, terminates and touches no freed node; the queue keeps, in order, those seen not completed, the others are joined and freed, in order, and no descriptor is closed. |
| Server.MainLoop.Shutdown | server/aesdsocket.c:365-378 | The drain joins and frees all that is queued, front first, leaves the queue empty, and closes exactly the descriptors that are not -1 by then, each once and in that order. |
| Server.DrainAllIs | server/aesdsocket.c:365-378 | Draining one thread at a time joins the queue in order and closes the descriptors of just those still open. |
| Server.StillOpenMeaning | server/aesdsocket.c:369-373 | The descriptors closed are those not -1, each once, in queue order. |
| Sessions.PayloadIs | server/aesdsocket.c:42-93 | What the receive loop appends is the payload read off the input: the chunks up to the first with a newline, or all, less seek commands. |
| Sessions.PlainPayload | server/aesdsocket.c:42-93 | Where no chunk starts with the 18 bytes of AESDCHAR_IOCSEEKTO that is every byte sent, up to and with the first chunk that holds ASCII 10. |
| Sessions.SeekAddsNothing | server/aesdsocket.c:45-93 | A chunk that does start so adds nothing, and ends the session's input iff it holds ASCII 10. |
| Sessions.RunInvariant | server/aesdsocket.c:13-135 | Mutual exclusion, order of locking, per-handler protocol and byte accounting hold in every reachable state. |
| Sessions.SessionsSerialised | server/aesdsocket.c:25-126 | In every interleaving, with the mutex free the data file is the payloads of all sessions, whole, in lock order; with it held, those of the earlier sessions, whole, then the part of the holder's payload that has left its buffer. |
| Sessions.PlainSessions | server/aesdsocket.c:25-126 | Without seek commands the data file is the bytes received, session after session in lock order, less what the holder has buffered; a session that has unlocked has received all up to and with its first chunk that holds ASCII 10. |
| Sessions.RunBuffers | server/aesdsocket.c:42-82 | In every reachable state the bytes a handler has yet to write out are the last of those it has appended. |
| Sessions.WholeAtUnlock | server/aesdsocket.c:123-126 | Whenever an unlock is due, the data file holds the payloads of all sessions so far whole, the holder's included, because its file is closed first. |
| Sessions.LifetimeProtocol | server/aesdsocket.c:126-134 | A set flag means the descriptor is closed once and cleared and the handler has no step left; no step uses freed thread data, no descriptor is closed twice. |
| Sessions.DrainSafeIffCompleted | server/aesdsocket.c:366-376 | After the drain has freed a thread's data, the handlers can go on to a step of that thread that uses it (its mutex, descriptor, address or flag) iff the thread had not completed. |
| Sessions.DrainClosesOnceIffCleared | server/aesdsocket.c:366-376 | They can go on to a state with its descriptor closed twice iff the handler had not cleared it. |
| Sessions.DrainTooEarly | server/aesdsocket.c:366-376 | A reachable state, one thread just spawned, where both happen. |
| DataFile.RecordedIsRun | server/aesdsocket.c:34-124 | Over any run, the data file holds the driver's writes end to end. |
| DataFile.SessionsAreCommits | server/aesdsocket.c:25-126 | If each session contributes one line or nothing, then with the mutex free the driver's commits are their payloads in lock order, and nothing is staged. |
| DataFile.SessionInProgress | server/aesdsocket.c:25-126 | With it held, they are those of the earlier sessions, and the holder's if it has been written out whole; otherwise the written part is what is staged. |
| DataFile.ByteRun | server/aesdsocket.c:34-124 | Every reachable state is also reached by a run in which every write is of one byte. |
| DataFile.SessionsAreCommitsIff | server/aesdsocket.c:25-126 | With the mutex free, every run to this state leaves the payloads in lock order as the commits and nothing staged iff each session contributes one line or nothing. |
| DataFile.TwoLinesBreakIt | server/aesdsocket.c:79-86 | A reachable state, after one session of two lines in one chunk, where some run does not. |
| DataFile.ReadersSeeSessions | aesd-char-driver/main.c:158-182 | Under that condition, and with other calls and clean failures in between, the commands a reader sees are the payloads of the last ten sessions that wrote anything. |
| Seekto.DecodableIff | server/aesdsocket.c:54-62 | No token search runs off the buffer iff it holds a NUL or three tokens with a delimiter behind each. |
| Seekto.ShortIsDecodable | server/aesdsocket.c:15-93 | That is so for every chunk shorter than the 512 bytes of the zeroed buffer. |
| Seekto.FullChunkRunsOff | server/aesdsocket.c:42-62 | A 512-byte seek command where the second search runs off. |
| Seekto.TokenMeaning | server/aesdsocket.c:51-62 | A search skips colons and commas, takes the bytes up to the next one or a NUL, and has no token if a NUL comes first; the colon or comma that ends a token becomes a NUL. |
| Seekto.StrtokR | server/aesdsocket.c:54-62 | The in-place search does just that. |
| Seekto.DecodeSeekto | server/aesdsocket.c:51-70 | The handler's three tokens and two numbers, and that every newline among the received bytes survives. |
| Seekto.AtoiMeaning | server/aesdsocket.c:60-65 | White space (9 to 13, 32), a plus or minus or neither, and the digits of n up to a non-digit are read as n or -n iff that fits an int. |
| Seekto.AtoiOfNoDigits | server/aesdsocket.c:60-65 | White space and no digits are read as 0. |
| Seekto.SeektoMeaning | server/aesdsocket.c:45-70 | The command with white space and signs before its numbers decodes iff both fit an int, to these numbers, a negative one as the unsigned one 2^32 larger. |
| Seekto.SeektoExample | server/aesdsocket.c:45-70 | AESDCHAR_IOCSEEKTO:12,305 names byte 305 of command 12. |
| Seekto.SeektoRoundTrip | server/aesdsocket.c:45-70 | The printed command followed by a NUL is recognised, meets the requirement of the decoder, decodes to the numbers printed iff both are below 2^31, and its newline ends the receive loop. |

## Left out

- Argument checks of the file operations (NULL file or buffer, missing device), open and release, ioctl number decoding, module and cdev registration: no state worth proving.
- `fixed_size_llseek` is a kernel function and not part of this model; a file moved by llseek may be anywhere (`Reposition`).
- Device.AesdDevice.Write: excludes a write that gets the mutex with neither staged nor new bytes, for which the code reads the byte before the buffer.
- Device.AesdDevice.Read: excludes positions that the scan decodes wrongly (Layout.FindRightAtIff says which): what lies outside the entry is not modelled.
- Negative file positions.
- Sizes at or above 2^63 bytes: live buffers share a 64-bit kernel address space.
- Ring, heap and open-file objects are classes; the bytes inside an allocation are a value in the heap's map, so aliasing inside one allocation is not captured.
- Server.MainLoop.Sweep: handlers running concurrently appear as the flag values seen when each node is visited, any values that never go from set to clear; their interleaving with the handlers' own steps is in Sessions.
- Server.MainLoop.Spawn: not a failed allocation of the instance, which the code clears through the NULL pointer before it checks it, and not what a cancelled thread may still do with the data freed then.
- Server.MainLoop.Shutdown: not the handlers' own steps during the drain, which Sessions.DrainSafeIffCompleted and Sessions.DrainClosesOnceIffCleared are about.
- Failure of pthread_mutex_lock in a handler, after which it unlocks a mutex it does not hold.
- DataFile.SessionsAreCommitsIff: the driver's writes all succeed; stdio's handling of a failed one is not modelled.
- Seekto.StrtokR: excludes a search that meets neither a NUL nor the end of its token in the buffer, as when a chunk fills all 512 bytes: the C function reads on past the buffer.
- Seekto.DecodeSeekto: excludes the same for each of its three searches.
- The reply loop (fread and send), sockets, signals, daemon mode and logging; stdio buffering appears as arbitrary flushes of a prefix, at any time up to and during fclose.
- The timer thread, compiled out by USE_AESD_CHAR_DEVICE.
- The programs under examples/, finder-app/ and student-test/, and the shell scripts.
