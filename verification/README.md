# naive-script core, modelled in Dafny

naive-script records a terminal session. It forks a shell on a pseudo
terminal and pumps bytes between the host terminal, the pty master and a log
file. This project models four parts of it and proves properties of each:

- **ZeroCopy** (`zero_copy.dfy`) is the zero-copy staging buffer of
  `yanzc_buffer.h`. A buffer has a fixed capacity, one write offset and any
  number of read slices. Each slice keeps its own read offset. Space comes back
  only through `io_buffer_realign`, which rewinds everything to 0 once every
  slice has caught up.
- **Pump** (`pump.dfy`) is one iteration of the `pass_all` loop in
  `pseudoshell.c`, as a pure step function. The system calls are gone: the
  readiness wait and every transfer are inputs. What remains is the bookkeeping
  over the read- and write-interest sets, two buffers, three slices and the
  `quit` flag. `PassAll` runs the loop over a finite schedule of such inputs.
- **NtVis** (`nt_vis.dfy`) is the `nt_vis` escaper of `nt-vis.c`. It writes
  hex pairs or C string-literal escapes into a bounded, NUL-terminated output.
  The C-syntax escapes are the simple and octal escape sequences of section
  6.4.4.4 of ISO/IEC 9899:2011, plus the GNU `\e`.
- **NtBitmap** (`nt_bitmap.dfy`) is the naive bitmap of `nt-bitmap.c`, checked
  against the contract in `nt-bitmap.h`.

`optional.dfy` holds the `Option` type that the other modules share.

Modelling choices:

- Byte buffers are `seq<bv8>` and bitmap words are `seq<bv64>`. A word has 64
  bits, as `unsigned long` does on LP64.
- A read slice is its offset only. The buffer it reads is passed next to it.
- The bitmap keeps the source's 16-bit `size_` field and 16-bit indices. The
  word count is stored modulo 65536, as the C assignment does.
- The two transfer routines `from_fd_to_buffer` and `from_buffer_to_fd` are
  not part of this model. `Pump` assumes the following of them:
  - a successful read commits bytes, never more than the writable region holds;
  - a successful write advances the slice, never beyond what it can read;
  - a failed transfer moves no offset.

  The inputs say what each transfer offers, and the model clamps it to those
  bounds.

Behaviour of the code that the model keeps:

- **Stdin readiness.** A successful stdin read enlists both the log and the
  master for writing (pseudoshell.c:253-254).
- **Initial write interest.** The master is in the write-interest set from the
  start, before any keystroke has arrived (pseudoshell.c:208).
- **Line 267.** The master-writable branch compares the inbound slice with the
  *outbound* buffer's write offset (pseudoshell.c:267). `Pump` takes the
  comparison as a parameter:
  - `AgainstOutbound` is the code as written;
  - `AgainstInbound` compares with the inbound buffer's write offset, which is
    what the comment at pseudoshell.c:264-266 describes.
- **Bitmap size.** The field comment at nt-bitmap.c:32 and the documentation of
  `nt_bitmap_size` at nt-bitmap.h:95-100 call `size_` a number of bits. The
  code stores and returns a number of words.

## Model

| member | source | states |
|---|---|---|
| ZeroCopy.New | yanzc_buffer.h:39-48 | A buffer exists exactly when the allocation succeeds. It has the requested capacity, write offset 0 and all-zero data. |
| ZeroCopy.GetReadSlice | yanzc_buffer.h:50-53 | The slice starts at the given offset. From there it sees exactly the committed bytes, and from offset 0 it sees all of them. |
| ZeroCopy.RealignScan | yanzc_buffer.h:55-68 | The two loops as written. Realign reports success exactly when every slice's offset equals the write offset. On success it zeroes the write offset and every slice offset, and the number of slices is kept. On failure nothing changes. The result agrees with the reference `Realign`. |
| ZeroCopy.RealignAllOrNothing | yanzc_buffer.h:55-68 | Realignment preserves `read <= write <= size`. It never touches the data. Success gives back the whole capacity, and failure returns the inputs unchanged. |
| ZeroCopy.RealignKeepsPending | yanzc_buffer.h:55-68 | Realignment never removes a byte that some slice has yet to read. |
| ZeroCopy.RealignWithoutSlices | yanzc_buffer.h:58-67 | With no slices, realign always succeeds and rewinds the write offset. |
| ZeroCopy.RealignIdempotent | yanzc_buffer.h:55-68 | A second realignment straight after a successful one succeeds and changes nothing. |
| ZeroCopy.IsSpaceForWrites | yanzc_buffer.h:70 | True exactly when the writable size is positive. |
| ZeroCopy.WritableSize | yanzc_buffer.h:72-74 | Write offset plus writable size is the capacity. |
| ZeroCopy.WritableRegion | yanzc_buffer.h:76 | The region at the write pointer is exactly the rest of the storage after the committed bytes. |
| ZeroCopy.MoveWriteOffset | yanzc_buffer.h:75 | The move changes only the write offset. Within the writable size it keeps the buffer bounded, the bytes moved past leave the front of the writable region, and every slice that was behind the writer can now read exactly those bytes after what it had left. |
| ZeroCopy.MoveWriteKeepsBounded | yanzc_buffer.h:75 | The unclamped move keeps `write <= size` exactly when the amount is at most the writable size. |
| ZeroCopy.MoveReadOffset | yanzc_buffer.h:79-82 | The read offset never goes back. Within the readable size, the bytes moved past are the front of what the slice could read, and the moved slice reads exactly the rest. |
| ZeroCopy.MoveReadKeepsWithin | yanzc_buffer.h:79-82 | The unclamped move keeps `read <= write` exactly when the amount is at most the readable size. |
| ZeroCopy.HasDataToRead | yanzc_buffer.h:84-86 | True exactly when the readable size is positive. |
| ZeroCopy.ReadableSize | yanzc_buffer.h:88-90 | Read offset plus readable size is the write offset. |
| ZeroCopy.Readable | yanzc_buffer.h:92-94 | What a slice can read has the readable size, and the bytes before its offset followed by it are exactly the committed bytes. |
| ZeroCopy.Commit | yanzc_buffer.h:75-76 | Writing into the writable region and moving the write offset keeps the buffer bounded. The committed bytes stay as they were, and the new bytes follow them. |
| ZeroCopy.ReaderSeesCommit | yanzc_buffer.h:75-94 | After a commit, every slice can still read what it had left, followed by exactly the new bytes. |
| Pump.Start | pseudoshell.c:179-210 | Before the loop: buffers of 32 and 4096 zeroed bytes, all three slices at 0, read interest {master, stdin}, write interest {master}, quit clear. |
| Pump.OnStdInReadable | pseudoshell.c:245-258 | On success the inbound slice gains a prefix of the bytes read, and the log and the master join the write-interest set. On failure only quit is set. Nothing else changes. |
| Pump.OnMasterWritable | pseudoshell.c:260-273 | On success the inbound slice only loses bytes from its front. As written, the master leaves write interest exactly when the slice offset equals the outbound write offset. Under the intended test it leaves exactly when the slice is drained, and then keystrokes stay tracked. Failure sets quit. |
| Pump.OnMasterReadable | pseudoshell.c:275-284 | On success both outbound slices gain the same prefix of the bytes read, and stdout joins write interest. Failure sets quit. |
| Pump.OnStdOutWritable | pseudoshell.c:286-300 | The host slice never moves back, and on success its pending bytes only lose bytes from their front, so nothing is shown twice. Stdout stays watched exactly when the host slice still has data. The log is always added, and other interests are untouched. Failure sets quit. |
| Pump.OnLogWritable | pseudoshell.c:302-315 | The log slice never moves back, and on success its pending bytes only lose bytes from their front, so nothing is logged twice. The log stays watched exactly when the log slice still has data, and other interests are untouched. Failure sets quit. |
| Pump.RealignInbound | pseudoshell.c:316 | Realigning the inbound buffer touches only it and the child's slice. It keeps every pending keystroke, and rewinds the buffer to 0 when the slice has caught up. |
| Pump.RealignOutbound | pseudoshell.c:317-318 | Realigning the outbound buffer touches only it and the host and log slices. It keeps both slices' pending bytes, and rewinds the buffer to 0 when both have caught up. |
| Pump.RealignBoth | pseudoshell.c:316-318 | Both buffers are realigned against their full slice sets. Every drained buffer is rewound to 0, and no slice loses a pending byte. |
| Pump.Dispatch | pseudoshell.c:243-315 | The fixed dispatch order keeps the state well formed and the read interest fixed. Quit is set exactly when a branch that ran had its transfer fail. The inbound buffer keeps its committed bytes and gains only a prefix of what the stdin read delivered, and the outbound buffer likewise with the master read. No slice moves back. Output and (with the intended test) input stay tracked. |
| Pump.ExtendsConveys | yanzc_buffer.h:75-94 | When a buffer only gains a prefix of some bytes and a slice only advances, the slice's pending bytes afterwards are its old pending bytes followed by that prefix, less some bytes from the front. |
| Pump.StepConveys | pseudoshell.c:243-315 | Across a step that only appends to the buffers and only advances the slices, each slice's pending bytes are conveyed that way. The host and the log are handed the same prefix of the child's output. |
| Pump.Iterate | pseudoshell.c:224-328 | One loop pass ends the loop exactly when the wait failed or quit is set. EINTR only folds the signal into quit, and a zero result changes nothing. After a positive result quit is set exactly when a branch that ran had its transfer fail, and both buffers are reclaimed. Output and (with the intended test) input stay tracked. |
| Pump.IterateConveys | pseudoshell.c:243-318 | After a positive wait result, realignment included, the child's pending keystrokes are what it had pending followed by a prefix of the bytes read from stdin, less some from the front. The host and the log each get what they had pending followed by the same prefix of the bytes read from the master. |
| Pump.PassAll | pseudoshell.c:224-336 | The run either exits after at least one iteration or consumes the whole schedule; a run that has not exited has quit clear. It always returns -1, keeps the state well formed, and never modifies the read interest. |
| Pump.IterateStops | pseudoshell.c:319-328 | An iteration that starts with quit set, or whose wait fails with an error other than EINTR or is an EINTR after the child exited, ends the loop. |
| Pump.PassAllExitReason | pseudoshell.c:319-328 | A run that exits does so at an iteration that ended with quit set or whose wait failed. |
| Pump.PassAllStops | pseudoshell.c:319-328 | A quit already set ends the run after one iteration. A wait that fails with an error other than EINTR, or an EINTR after the child exited, ends the run at that iteration or earlier, so no iteration before the last one had such a wait. |
| Pump.PassAllKeepsTracking | pseudoshell.c:224-336 | Over the whole run output stays tracked, and with the intended drain test so does input. |
| Pump.AsWrittenDropsMaster | pseudoshell.c:260-270 | As written, once a write brings the inbound slice level with the outbound write offset while more keystrokes are buffered, the master leaves write interest and those keystrokes stay pending. |
| Pump.StrandingRunFirstIteration | pseudoshell.c:243-318 | From the start state, an iteration that reads keystrokes and child output buffers both, writes nothing, and keeps input and output tracked. |
| Pump.AsWrittenStrandsKeystrokes | pseudoshell.c:267-269 | A reachable run from the start state: any keystrokes followed by shorter child output (say 5 and 3 bytes), then as many keystrokes written as the child output. The master leaves write interest while the rest of the keystrokes wait in the inbound buffer. |
| NtVis.NtVis | nt-vis.c:46-145 | Nothing is written and 0 is returned when the size is at most the format's reserve. Otherwise a prefix of the input is encoded in order, and every byte of it was taken while fewer than `size - reserve` bytes had been written. It stops only at the end of the input or once that budget is spent. The output is NUL-terminated and fits. |
| NtVis.VisHex | nt-vis.c:57-67 | The hex branch: two digits per consumed byte, and the return value is twice the bytes consumed. |
| NtVis.VisC | nt-vis.c:68-142 | The C-syntax branch, also taken by any unknown format: each consumed byte is written as `CEscape` gives it, with one return unit per consumed byte. |
| NtVis.CEscape | nt-vis.c:72-137 | `"` and `\` are escaped with a backslash. Other printable bytes are copied, exactly those produce one byte. `\a \b \f \n \r \t \v \0 \e` take a backslash and a letter or digit. Everything else takes a backslash and three octal digits. |
| NtVis.OctalEscape | nt-vis.c:128-132 | Three octal digits, most significant first; the first is at most 3, and together they recombine to the byte. |
| NtVis.TransTableDigit | nt-vis.c:23 | The table maps each nibble to its upper-case hex digit. |
| NtVis.HexPairReads | nt-vis.c:59-62 | The two digits written for a byte read back as its high and low nibble, which recombine to the byte. |
| NtVis.HexRoundTrip | nt-vis.c:59-62 | Hex output reads back to exactly the bytes encoded. |
| NtVis.NulEscapeCollides | nt-vis.c:115-117 | The inputs 00 30 31 and 01 produce the same C-syntax output. |
| NtVis.CEscapeStrict | nt-vis.c:49-50 | NUL is written as `\000`, as the comment on the counter says; every other byte as before. |
| NtVis.StrictRoundTrip | nt-vis.c:71-138 | With `\000` for NUL, C-syntax output reads back to exactly the bytes encoded. |
| NtBitmap.Size | nt-bitmap.c:101 | The returned size never exceeds the words held. `SizeCountsWords` shows what it counts. |
| NtBitmap.WordCount | nt-bitmap.c:39 | The word count covers n bits with less than one word to spare. |
| NtBitmap.Create | nt-bitmap.c:36-52 | Zero bits give EINVAL and a refused allocation gives ENOMEM. Otherwise the result has `1 + (n-1)/64` zeroed words, with that count stored modulo 65536 in the size field. |
| NtBitmap.Set | nt-bitmap.c:91-99 | Returns 1 exactly when the index's word is below `size_`; then that bit is set and every other bit kept. Otherwise it returns 0 and the bitmap is unchanged. |
| NtBitmap.Clear | nt-bitmap.c:81-89 | Returns 1 exactly when the index's word is below `size_`; then that bit is cleared and every other bit kept. Otherwise it returns 0 and the bitmap is unchanged. |
| NtBitmap.SetIdempotent | nt-bitmap.c:91-99 | Setting a bit twice is setting it once. |
| NtBitmap.SetOfSetBit | nt-bitmap.c:95 | Setting a bit that is already set leaves the bitmap as it was. |
| NtBitmap.ClearIdempotent | nt-bitmap.c:81-89 | Clearing a bit twice is clearing it once. |
| NtBitmap.ClearAfterSet | nt-bitmap.c:81-99 | Clearing after setting is the same as clearing. |
| NtBitmap.ClearUndoesSet | nt-bitmap.c:81-99 | Setting a clear bit and then clearing it restores the bitmap. |
| NtBitmap.FirstClear | nt-bitmap.c:67 | `ffs` of the complement over a range of positions: 0 exactly when every bit there is set, otherwise one more than the lowest clear bit. |
| NtBitmap.FfcFrom | nt-bitmap.c:70-79 | The word-by-word scan from a word on, searching a given number of low bits per word. It finds the lowest clear searched bit, or returns `(unsigned long)-1` exactly when all searched bits are set. |
| NtBitmap.Ffc | nt-bitmap.c:67-79 | As written: `(unsigned long)-1` exactly when the low 32 bits of every used word are set, otherwise the lowest clear bit among those. |
| NtBitmap.FfcIntended | nt-bitmap.h:60-68 | `(unsigned long)-1` exactly when every bit of the used words is set, otherwise the index of the first clear bit. |
| NtBitmap.FfcMissesHighHalf | nt-bitmap.c:67 | One word with only its low half set. Bit 32 is clear, yet the code reports `(unsigned long)-1`; the intended search returns 32. |
| NtBitmap.FreshFfcIsZero | nt-bitmap.c:43 | On a freshly created bitmap with at least one word, find-first-clear returns 0. |
| NtBitmap.SizeCountsWords | nt-bitmap.c:101 | Set and clear accept an index exactly when it is below 64 times the returned size: the size counts words. |
| NtBitmap.SizeIsNotBitCount | nt-bitmap.h:95-101 | A 128-bit bitmap reports size 2, yet set accepts index 100, beyond "size minus 1". |
| NtBitmap.BitCapacity | nt-bitmap.h:95-101 | The number of bits the header promises: set and clear succeed exactly for the indices below it. |
| NtBitmap.CreateTruncatesWordCount | nt-bitmap.c:44 | A request for 4194304 bits allocates 65536 words, but the size field holds 0, so not even bit 0 can be set. |
| NtBitmap.CreateCoversRequest | nt-bitmap.c:36-52 | Below that wrap-around, every requested bit index can be set. |
| NtBitmap.CreateSaturating | nt-bitmap.c:36-52 | Create with the word count saturated at 65535: every index below the request that fits in an index can be set. |

## Left out

- The readiness wait itself (`pselect`, the descriptor-set copies and the
  `maxfd` scan) is an input, not an implementation. The SIGCHLD handler is
  folded into that input as "interrupted, and perhaps the child exited".
- The two transfer routines are not part of this model. Their assumed
  contract is stated above and in `pump.dfy`.
- `mkstemp` and making the log non-blocking are left out, and so is the early
  return -1 when that fails. So are the trailing `fsync`, `close` and `free`
  calls, and the unchecked NULL from `io_buffer_new` (the model assumes both
  buffers are allocated). All of these are file I/O or memory management.
- `main`, `forkpty`, terminal modes, signal masks, `execve`, `waitpid` and
  `get_shell_name`: OS process and terminal plumbing.
- The debug logging: it is output only.
- `nt_unvis`: it is declared without an implementation. `Unhex` and
  `Unescape` are independent readers written here for the round trips.
- `nt_bitmap_free` and `nt_bitmap_dump`: memory management and stdio output.
- The `total_bytes_*` and `*_count_` counters of the buffer: never updated.
- ZeroCopy.GetReadSlice: does not state that the slice refers to the given
  buffer, because slices carry no buffer pointer here.
- Pointer results (`io_buffer_get_buf_for_writes`,
  `yanz_read_slice_get_buf`) are modelled as the byte ranges they address.
- NtVis.NtVis: does not model `isprint` outside the C locale, or its undefined
  behaviour on bytes above 0x7F passed as negative `char`. Bytes are unsigned
  and printable means 0x20 to 0x7E.
- NtVis.NtVis: does not model non-GCC builds, which lack the `\e` case and so
  write ESC as `\033`.
- Offsets and sizes are unbounded integers. In the buffer, every offset stays
  within the capacity, which `pass_all` fixes at 32 and 4096 bytes. In the
  escaper, the loop guard keeps the output count and the return value below
  `output_size`, so the `unsigned int` arithmetic cannot wrap for any size.
  The one truncation that matters, the 16-bit `size_`, is modelled.
- NtBitmap.Ffc: models only the GCC `FFC` (`__builtin_ffs`). The MSVC version
  at nt-bitmap.c:60-65 returns the 0-based index from `_BitScanForward`, so
  there a clear bit 0 reads as "no clear bit" and every other answer is one
  lower.

## Findings

| source | as written | input that shows it | evidently intended | confidence | as-written member | corrected member |
|---|---|---|---|---|---|---|
| pseudoshell.c:267 | the inbound slice's offset is compared with the outbound buffer's write offset | 5 keystrokes and 3 bytes of child output in one iteration, then 3 keystrokes written to the master: offset 3 equals the outbound write offset, so the master is dropped with 2 keystrokes pending (any keystrokes with shorter child output do the same) | compare with the inbound buffer's write offset | high (not executed) | Pump.AsWrittenStrandsKeystrokes | Pump.PassAllKeepsTracking |
| nt-vis.c:115-117 | NUL is written as `\0` | bytes 00 30 31 and byte 01 both give `\001` | `\000`, as the comment at nt-vis.c:49 says, so that the output reads back unambiguously | high (not executed) | NtVis.NulEscapeCollides | NtVis.StrictRoundTrip |
| nt-bitmap.c:67 | `__builtin_ffs` takes an `int`, so only the low 32 bits of the complement are searched | one word 0x00000000FFFFFFFF: bit 32 is clear but the result is (unsigned long)-1 | search all 64 bits (`__builtin_ffsl`) | high (not executed) | NtBitmap.FfcMissesHighHalf | NtBitmap.FfcIntended |
| nt-bitmap.c:44 | `size_` holds the word count, and nt_bitmap_size returns it | create(128) reports size 2 while set(100) succeeds | the number of bits, 64 times the word count | medium (not executed) | NtBitmap.SizeIsNotBitCount | NtBitmap.BitCapacity |
| nt-bitmap.c:32 | the word count is stored in an `unsigned short` | create(4194304) allocates 65536 words but stores size 0, so set(0) fails | a size that does not wrap | medium (not executed) | NtBitmap.CreateTruncatesWordCount | NtBitmap.CreateSaturating |
