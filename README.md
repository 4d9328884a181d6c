# AESD char driver and aesdsocket, modelled in Dafny

This project models two small byte-handling components of the AESD assignments.

**The `aesdchar` character device** (`aesd-char-driver/main.c`):
- `aesd_write` gathers the bytes of successive writes in a per-device working entry.
- When a write holds a newline, it commits the working entry, which then ends with that newline, as one command into a ring of `AESDCHAR_MAX_WRITE_OPERATIONS_SUPPORTED` (10) slots. When the ring is full, the oldest entry is released first.
- `aesd_read` treats the resident commands, oldest first, as one linear file. It resolves `*f_pos` to an entry and an offset inside it, copies at most to the end of that one entry, and advances `*f_pos` by the number of bytes copied.

**The socket server's client loop** (`handle_client` in `server/aesdsocket.c`):
- Every received byte is appended to `packet`.
- On a newline, the packet is appended to the data file, the whole file is sent back to the client, and the packet is reset.

## Modules

- `bytes.dfy` (`Bytes`):
  - the `byte` type, `NEWLINE` and `Option`;
  - `Concat`;
  - the newline views of a byte sequence used by both components (`FirstNewline` is `memchr`; `LastNewlineEnd` is the end of the terminated prefix).
- `circular_buffer.dfy` (`CircularBuffer`): the ring (`struct aesd_circular_buffer`). It is specified on values:
  - `RingState` and `WellFormed`;
  - `Resident`, the entries oldest first, and `Contents`, their concatenation in the linear address space;
  - `Added` for add_entry;
  - `Locate` and `SlotLocation` for find_entry_offset_for_fpos;
  - `ReadEntry` for one read.

  The class `AesdCircularBuffer` (slot array, `inOffs`, `outOffs`, `full`) implements init, add_entry and find_entry_offset_for_fpos. Its methods are proved against those functions.
- `aesd_char.dfy` (`AesdChar`): the class `AesdDev`, with the ring and the working entry (`workingBuffptr`, where `None` is NULL, and `workingSize`). Its methods `Write` and `Read` follow `aesd_write` and `aesd_read` branch by branch. Kernel services are supplied as outcomes:
  - whether the interruptible lock was acquired;
  - whether `kmalloc`, `copy_from_user`, `krealloc` and `copy_to_user` succeed;
  - what uninitialised memory a `krealloc(NULL, …)` hands out.
- `aesd_socket.dfy` (`AesdSocket`): `handle_client` as the method `HandleClient`. It loops over the recv chunks and their bytes like the C code. It is proved against the state machine `Step`/`Run` over a `Session`, which holds the data file, the pending packet, the bytes sent and the packets flushed.

The ring helpers live in `aesd-circular-buffer.c`, which is not part of this model. They are given the usual definitions, consistent with how `main.c` uses them:
- `entry[out_offs]` is the oldest entry;
- add_entry stores at `in_offs` and advances it, and advances `out_offs` too when the ring was full;
- add_entry sets `full` exactly when the advanced cursors meet;
- find walks the resident entries from `out_offs` and returns NULL past the end of the data.

Two behaviours of `main.c` are modelled as written, not as an idealised accumulator would behave:
- `aesd_write` keeps only the bytes up to and including the first newline of a chunk. The rest of the chunk is dropped, and the call still returns `count`.
- A failed `krealloc` is not all-or-nothing. `working_entry.buffptr` becomes NULL, but `working_entry.size` keeps its old value. The next successful `krealloc(NULL, size + …)` therefore starts the entry with `size` bytes of uninitialised memory (`Reallocated`).

## Model

| member | source | states |
|---|---|---|
| CircularBuffer.Empty | aesd-char-driver/main.c:225 | init leaves a well-formed ring with no resident entry |
| CircularBuffer.AesdCircularBuffer.Init | aesd-char-driver/main.c:219-225 | the ring of a zeroed device after init is the empty, well-formed ring |
| CircularBuffer.AesdCircularBuffer.AddEntry | aesd-char-driver/main.c:166-173 | add_entry on the slot array changes the ring exactly as `Added`: store at `in_offs`, advance the cursors, recompute `full`, keep the shape invariant |
| CircularBuffer.AddedResident | aesd-char-driver/main.c:165-173 | after add_entry the new entry is the newest resident. On a full ring exactly the oldest entry (`entry[out_offs]`) is dropped and the count stays at N; otherwise every entry stays and the count grows by one |
| CircularBuffer.AddedResidentFull | aesd-char-driver/main.c:165-173 | the full-ring half of AddedResident: the oldest entry is replaced and the other N-1 entries keep their order |
| CircularBuffer.AddedResidentNotFull | aesd-char-driver/main.c:173 | the half of AddedResident for a ring that is not full: the entry goes into the free slot after the newest, and no resident entry is touched |
| CircularBuffer.AddedAllKeepsNewest | aesd-char-driver/main.c:165-173 | eviction order: after any run of commits the ring holds exactly the newest N of the old residents followed by the commits, oldest first |
| CircularBuffer.Count | aesd-char-driver/main.c:70 | the number of resident entries is at most N, and below N unless the ring is full |
| CircularBuffer.Locate | aesd-char-driver/main.c:70-74 | resolving a linear offset fails exactly when it is at or past the end of the data. Otherwise it gives an entry and an in-range offset inside it, whose linear position is the offset |
| CircularBuffer.LocateRoundTrip | aesd-char-driver/main.c:70 | the linear position of byte `off` of resident entry `i` resolves back to (`i`, `off`) |
| CircularBuffer.LocateHit | aesd-char-driver/main.c:70 | the entry whose byte range contains the offset is the one that is found |
| CircularBuffer.FindStep | aesd-char-driver/main.c:70 | one step of find's walk: an entry's end is its start plus its size, and an offset before that end resolves into that entry's slot |
| CircularBuffer.FindEnd | aesd-char-driver/main.c:70-74 | an offset past every resident entry is not found (NULL) |
| CircularBuffer.AesdCircularBuffer.FindEntryOffsetForFpos | aesd-char-driver/main.c:70-74 | find returns the slot holding the located entry and the offset inside it, or None (NULL) exactly when the offset is past the end of the data; the slot and the offset are in range |
| CircularBuffer.EntryInContents | aesd-char-driver/main.c:76-80 | the bytes of one entry sit in the linear address space at that entry's start |
| CircularBuffer.WindowAt | aesd-char-driver/main.c:76-80 | the min(count, rest of entry) bytes from an offset in an entry are the linear contents from that position, and never cross into the next entry |
| CircularBuffer.ReadFromWindow | aesd-char-driver/main.c:70-86 | a read over a list of entries finds data exactly when the position is inside it. It returns min(size - offset, count) bytes, the contents from that position, never past the entry's end, and non-empty exactly when count > 0 |
| CircularBuffer.ReadEntryInContents | aesd-char-driver/main.c:70-86 | the same for the ring: a read is a window on the resident commands in ring order |
| CircularBuffer.ReadEntryFromSlot | aesd-char-driver/main.c:70-80 | the slot find returns holds the entry the read copies from |
| AesdChar.Reallocated | aesd-char-driver/main.c:124-127 | the first `size` bytes of the block krealloc returns are exactly `size` bytes long: the old contents of a live block, or uninitialised memory for NULL |
| AesdChar.AesdDev.constructor | aesd-char-driver/main.c:219-225 | a zeroed device has an initialised, empty ring and no working entry (NULL, size 0) |
| AesdChar.AesdDev.Write | aesd-char-driver/main.c:93-181 | an interrupted lock gives -ERESTARTSYS, a failed kmalloc -ENOMEM and a failed copy_from_user -EFAULT, with neither the working entry nor the ring changed. A failed krealloc gives -ENOMEM, sets the pointer to NULL and keeps the size, leaving the ring unchanged. A chunk with no newline is appended whole to the working entry, whose size grows by `count`; nothing is committed and the call returns `count`. A chunk with a newline commits the old working content followed by the chunk through its first newline (so the command ends with a newline) as the newest resident entry, returns `count` and resets the working entry to NULL and size 0; exactly the oldest entry is released when the ring was full, and nothing otherwise |
| AesdChar.AesdDev.Read | aesd-char-driver/main.c:54-91 | an interrupted lock gives -ERESTARTSYS and leaves the position. An offset past the data gives 0 and leaves the position. Otherwise the read copies exactly the `ReadEntry` window (at most to the end of one entry), returns its length and advances the position by that length; a failed copy_to_user gives -EFAULT and leaves the position. The method cannot modify the ring |
| AesdChar.PartialThenRest | aesd-char-driver/main.c:121-163 | a write of "partial" then one of "rest\n" commits exactly one command, "partialrest\n", and empties the working entry |
| AesdChar.PartialThenRestReadsBack | aesd-char-driver/main.c:54-91 | that command reads back whole from offset 0 |
| Bytes.FirstNewline | aesd-char-driver/main.c:121 | memchr finds nothing exactly when the chunk has no newline; otherwise it gives the index of a newline with none before it |
| Bytes.FirstNewlineAt | aesd-char-driver/main.c:121-144 | a newline with none before it is the one memchr finds |
| Bytes.LastNewlineEndSplits | server/aesdsocket.c:87-102 | the terminated prefix of a stream is empty or ends with a newline, and no newline follows it |
| Bytes.LastNewlineEndSnoc | server/aesdsocket.c:85-87 | one more byte: a newline terminates everything so far, any other byte leaves the terminated prefix as it was |
| Bytes.LastNewlineEndNone | server/aesdsocket.c:75-85 | a newline-free stream has nothing terminated |
| AesdSocket.RunSnoc | server/aesdsocket.c:75-76 | processing one more byte is one more step of the loop |
| AesdSocket.StepSplit | server/aesdsocket.c:75-103 | one byte keeps the split "file gains the terminated part, packet holds the rest" |
| AesdSocket.RunFile | server/aesdsocket.c:75-104 | after any byte stream, from a packet with no newline, the file is the old file followed by the packet-and-stream up to its last newline. The packet is the remaining suffix, which again has no newline |
| AesdSocket.FlushedSinceSnoc | server/aesdsocket.c:87-102 | a byte flushes the packet exactly when it is a newline, and the flushed packet is the pending packet plus that newline |
| AesdSocket.StepFlushes | server/aesdsocket.c:87-102 | each flushed packet is a complete command: it ends with its only newline |
| AesdSocket.RunFlushed | server/aesdsocket.c:74-105 | the packets flushed by a stream, in stream order, concatenate to exactly the terminated part of the stream |
| AesdSocket.FlushedConcatStep | server/aesdsocket.c:87-102 | one byte keeps the flushed packets equal to the terminated part of the stream |
| AesdSocket.RunFlushedCommands | server/aesdsocket.c:87-102 | every packet a stream flushes is a complete command |
| AesdSocket.RunSent | server/aesdsocket.c:89-97 | after each flush the client has been sent the whole data file, from offset 0, as it then is, and the file is the old file followed by the flushed packets |
| AesdSocket.StepSent | server/aesdsocket.c:89-97 | one byte keeps the bytes sent equal to one full-file echo per flushed packet |
| AesdSocket.FlushesPerNewline | server/aesdsocket.c:74-105 | under the intended echo (see Findings), a stretch of bytes with k newlines flushes exactly k packets, after those flushed before it |
| AesdSocket.RunAppend | server/aesdsocket.c:74-75 | splitting the stream into recv chunks does not change the outcome |
| AesdSocket.ReceivedSplit | server/aesdsocket.c:74 | the received stream is the chunks before a non-empty chunk, that chunk, and the stream after it |
| AesdSocket.ReceivedAll | server/aesdsocket.c:74 | up to the first empty recv, the received stream is the concatenation of the chunks |
| AesdSocket.RunFromStart | server/aesdsocket.c:62-104 | from an empty packet, the file gains exactly the stream up to its last newline |
| AesdSocket.ReceiveByte | server/aesdsocket.c:75-85 | the loop's next byte extends the processed stream by one, and processing it is one step |
| AesdSocket.ProcessedStop | server/aesdsocket.c:77-82 | a realloc failing at a byte stops the loop with exactly the bytes before it processed |
| AesdSocket.ProcessedAll | server/aesdsocket.c:74-107 | when recv reports the end first, every received byte was processed |
| AesdSocket.HandleClient | server/aesdsocket.c:59-110 | if fopen fails nothing is written or sent. Otherwise the new file and the bytes sent are those of the state machine run over the processed bytes: those received before recv first reports the end, cut at the byte whose realloc fails. The file gains exactly the processed bytes up to the last newline, so bytes still pending at the end of the connection or at a realloc failure are never written |
| AesdSocket.LastEchoPiece | server/aesdsocket.c:93-97 | the echo's last successful fread reads a non-empty final piece of the file, of (length - 1) mod 1024 + 1 bytes |
| AesdSocket.Clobbered | server/aesdsocket.c:95 | one fread into the front of `buffer` keeps its length, puts the piece's bytes first and leaves the rest of `buffer` as it was |
| AesdSocket.EchoBuffer | server/aesdsocket.c:93-97 | the echo's freads in order, each over the next 1024-byte piece of the file, keep the length of `buffer` |
| AesdSocket.EchoShort | server/aesdsocket.c:93-97 | a file that fits in `buffer` is echoed by one fread |
| AesdSocket.EchoLong | server/aesdsocket.c:93-97 | a file longer than 1024 bytes overwrites all of a recv chunk with its first piece; later freads only overwrite file bytes |
| AesdSocket.EchoBufferFront | server/aesdsocket.c:93-97 | after all the freads, the front of `buffer` holds the file's last piece |
| AesdSocket.ChunkAsWritten | server/aesdsocket.c:75-103 | the byte loop as written: after a flush the rest of the chunk is read from the `buffer` the echo's freads left. The flushed packets only grow |
| AesdSocket.ChunkAsWrittenStep | server/aesdsocket.c:75-103 | one pass of the as-written byte loop |
| AesdSocket.ChunkAsWrittenAgrees | server/aesdsocket.c:75-103 | a chunk whose only newline is (at most) its last byte is processed as received |
| AesdSocket.FirstCommandEchoed | server/aesdsocket.c:87-97 | a chunk "a\n??" on a four-byte file: flushing "a\n" echoes the file, whose bytes replace the chunk |
| AesdSocket.OldLineFlushed | server/aesdsocket.c:75-90 | the old file's last line, now in `buffer`, is flushed as a second packet |
| AesdSocket.ClobberedExample | server/aesdsocket.c:75-97 | the finding's first example: "a\nb\n" on a file holding "xyz\n" appends "a\nz\n" |
| AesdSocket.EchoClobbersPendingBytes | server/aesdsocket.c:95 | the as-written file differs from the file the client's bytes give |
| AesdSocket.EchoAddsFlush | server/aesdsocket.c:87-97 | the finding's second example: "a\nbc", with one newline, on a file holding "x\ny\n" flushes two packets where the client's bytes flush one |

## Findings

| source | as written | input that shows it | evidently intended | confidence | as-written member | corrected member |
|---|---|---|---|---|---|---|
| server/aesdsocket.c:95 | The echo's `fread` reads the file into `buffer`, the array the byte loop is still walking. After a flush, the rest of the current recv chunk is replaced by the file's bytes as the echo's freads leave `buffer`, and those file bytes are processed as if the client had sent them | the data file holds "xyz\n"; the client sends "a\nb\n" in one recv. The file becomes "xyz\na\nz\n". On a file holding "x\ny\n", the chunk "a\nbc" flushes "a\n" and "y\n" | echo through a separate buffer, so the remaining bytes are the client's and the file becomes "xyz\na\nb\n" | high; not executed | AesdSocket.ChunkAsWritten, AesdSocket.EchoClobbersPendingBytes, AesdSocket.EchoAddsFlush | AesdSocket.HandleClient |

`AesdSocket.ChunkAsWrittenAgrees` shows that the two agree on every chunk whose only newline is its last byte. That is the usual case of one line per send.

## Left out

- Module and registration code: `aesd_open`, `aesd_release`, `aesd_setup_cdev`, `aesd_init_module` beyond its initialisation of the device, `aesd_cleanup_module`, `file_operations`, and PDEBUG/printk. This is kernel glue with no logic to model.
- Locking: `mutex_lock_interruptible`/`mutex_unlock` are an "acquired or interrupted" outcome. There is no concurrency in the model.
- Memory management: `kfree`, and the freeing of the oldest entry, are not modelled beyond which entry is released (`released`). The leak of the old block on a failed `krealloc` is not modelled either.
- Integer widths: `size_t`, `ssize_t` and `loff_t` are unbounded naturals, so no overflow of `size + count` or of `*f_pos` is modelled. Write's `count` is the length of the user buffer.
- `AesdChar.AesdDev.Read`: a failed `copy_to_user` is modelled as copying nothing. The partial copy it may really do is not modelled, because the return value and `*f_pos` do not depend on it.
- Seek and ioctl: this `main.c` has neither operation, so neither is modelled. `CircularBuffer.LocateRoundTrip` states how an (entry, offset) pair maps to a linear position.
- Socket I/O: `recv` is a given sequence of chunks, where an empty chunk ends the loop like a return of 0 or -1. `send` is taken to send everything. `fopen` is a success flag, and the data file is a sequence. syslog, `fseek`/`fflush`/`fclose`, `create_server_socket`, `daemonize`, `handle_signal` and `main`'s accept loop are not modelled.
- `AesdSocket.HandleClient`: the first realloc that fails is given as the index of the stream byte it would hold, rather than as an allocator outcome per call.
- `AesdSocket.HandleClient` models the intended echo, not the buffer clobbering described under Findings, which only `AesdSocket.ChunkAsWritten` models. `recv`'s 1024-byte bound on a chunk is not imposed on `chunks`.
- `finder-app/writer.c`: it only opens, writes and closes a file, with no logic beyond I/O and error logging.
