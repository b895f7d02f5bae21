# rat in Dafny

A Dafny model of the formatting core of `rat`, a `cat` clone written in Rust.
The model covers the following parts of the program:

- The byte transducer behind `cat -n -b -s -E -T -v` (`real_write`,
  `write_end`, the three line encoders, and `Config::end_str`, `tab_str` and
  `can_easy_write`). Its state, `OutState`, is carried from read to read and
  from file to file.
- The verbatim copy `easy_write`, the dispatch `rat_handle`, and the per-file
  loop of `rat_process` with the carriage return it prints at the very end.
- The in-place decimal line counter `LineNumber`.
- The buffered writer `BufferedWriterSingleThread`, which every output byte
  passes through.
- The block-size oracle `io_blksize`.

The project has six modules, one file each:

| file | module | contents |
|---|---|---|
| `bytes.dfy` | `Bytes` | bytes, the ASCII constants, small sequence lemmas |
| `format.dfy` | `Format` | `Config` and its derived strings, the `-v` notation, and the reference transducer. `Step` is what one input byte writes and how it changes the state. `Run` is the left fold of `Step` over a byte string. |
| `linenumber.dfy` | `LineNumber` | the counter as a class over a byte array, with `next_line_num` as a loop down the buffer. `LineNumText(n, size)` is the closed form of what it prints after `n` increments. |
| `io_util.dfy` | `IoUtil` | `io_blksize` as a function on naturals bounded by 2^64; the buffered writer as a class whose ghost `sink` is what standard output has received |
| `rat.dfy` | `Rat` | `OutState` as a class, the encoders and the chunk loop as methods, `real_write`, `easy_write`, `rat_handle` and `rat_process` |
| `scenarios.dfy` | `Scenarios` | the `-E` examples of `tests/tests.rs`, worked through the fold for every input of the same shape |

The central result is `Rat.FormatChunk`. For any chunk, the loop of
`real_write` writes exactly `Run(cfg, state, chunk).text` and leaves the state
at `Run(cfg, state, chunk).state`. Two lemmas then make chunk and file
boundaries irrelevant:

- `Format.RunAppend` shows the fold over `a + b` is the fold over `a` followed
  by the fold over `b`.
- `Rat.HandledAppend` shows the same for the easy path.

`Rat.RatProcess` therefore writes `Cat(cfg, all bytes received)` when no read
fails, however the bytes were split into reads and files.

Under `-E`, take the input `"a\rb\r\r\nc\n\r\nd\r"`, which has two carriage
returns before the first newline. The first of them becomes pending at
`lib.rs:551-553`. When the second one arrives, the first is written as it came,
at `lib.rs:506-509`. The output is therefore `"a\rb\r^M$\nc$\n^M$\nd\r"`, and
`Scenarios.ShowEndsDoubleCr` states it.

The reference definitions carry no row of their own in the table below. Their
properties are stated by the lemmas and methods that use them:

- `Format.NewlineOut` folds the newline branch, `lib.rs:490-504`.
- `Format.LineStart` folds the pending CR and line-number prelude, `lib.rs:505-516`.
- `Format.ByteOut` folds what the encoders and the CR branch write for one other
  byte, `lib.rs:517-558`.
- `Format.Step` and `Format.Run` fold one pass and the whole of the chunk loop,
  `lib.rs:481-560`.
- `Rat.Cat` folds `rat_process`, `lib.rs:413-435`, with the final carriage return
  of `lib.rs:431-433`.

## Model

| member | source | states |
|---|---|---|
| Format.EndStr | rat/src/lib.rs:143-150 | the end string always finishes with a newline; a '$' precedes it exactly under `show_ends`; otherwise it is the lone newline |
| Format.TabStr | rat/src/lib.rs:152-159 | a tab stays a tab exactly when `show_tabs` is off; under `show_tabs` it becomes printable ASCII (`^I`) |
| Format.NonprintingText | rat/src/lib.rs:597-610 | every `-v` notation is one to four bytes long (its meaning is stated by `NonprintingIsVisible` and `NonprintingRoundTrip`) |
| Format.RunAppend | rat/src/lib.rs:481-560 | reading `a + b` in one chunk, or `a` and then `b` with the state carried over, gives the same output and the same final state |
| Format.NonprintingAllPrintable | rat/src/lib.rs:597-599 | bytes in 32..=126 pass through the `-v` encoder unchanged |
| Format.PlainAllIdentity | rat/src/lib.rs:524-533 | without `show_tabs` the non-`-v` encoder copies every byte as it is |
| Format.PlainAllTabFree | rat/src/lib.rs:630-647 | tab-free text passes through the `-T` encoder unchanged |
| Format.SegmentRun | rat/src/lib.rs:505-535 | a nonempty run without terminators gets its line start once and then each byte encoded in order; the stream is then inside a non-blank line with nothing pending |
| Format.SegmentLf | rat/src/lib.rs:537-550 | such a run ended by a newline: line start, encoded bytes, end string; the stream is then at a line start |
| Format.SegmentCr | rat/src/lib.rs:551-554 | such a run (maybe empty) ended by a carriage return writes no CR yet and leaves one pending |
| Format.RunKeepsConsistent | rat/src/lib.rs:320-327 | the fold never leaves the states the loop can be in (a pending CR implies not at a line start, a blank line implies at a line start) |
| Format.RunCountsUp | rat/src/lib.rs:288-312 | the line count never decreases |
| Format.NoneNeverCounts | rat/src/lib.rs:511-516 | with numbering off the counter never advances |
| Format.LineOutput | rat/src/lib.rs:490-550 | a whole line read from a line start: the number exactly when the mode numbers it (`AllLine` always, `NonBlank` unless the line is empty), the encoded bytes, then the end string; the count goes up by one exactly when a number is printed |
| Format.NonEmptyLineOutput | rat/src/lib.rs:505-550 | the non-empty case of `LineOutput` |
| Format.EmptyLineOutput | rat/src/lib.rs:490-504 | an empty line: numbered only under `AllLine`, then the end string; it marks the blank-line flag |
| Format.SqueezeRun | rat/src/lib.rs:490-505 | under `squeeze_blank`, any run of one or more newlines at a line start writes exactly what its first newline writes, so repeated blank lines print once |
| Format.CarriageReturnResolution | rat/src/lib.rs:506-509 | a CR that ends a run is only remembered. A newline after it writes `^M` (under `show_ends`) or `\r`, then the end string. Any other byte after it writes a literal `\r` even under `show_ends`. A second CR stays pending. |
| Format.NonprintingNeverPending | rat/src/lib.rs:521-522 | under `-v` a carriage return is never left pending (it is written as `^M` inline) |
| Format.EasyConfigIsVerbatim | rat/src/lib.rs:134-141 | with no flag set, the output plus the CR left pending equals the CR pending at the start plus the input, byte for byte. The fast path `easy_write` is therefore a faithful shortcut. |
| Format.NonprintingIsVisible | rat/src/lib.rs:601-610 | under `-v` each byte other than a newline is written as printable ASCII only, except a tab without `show_tabs` |
| Format.NonprintingRoundTrip | rat/src/lib.rs:601-610 | the `-v` notation of each byte other than a newline decodes back to that byte, so distinct bytes look different |
| Format.NonprintingIsAmbiguous | rat/src/lib.rs:607 | byte 225 is written exactly as the three printable bytes `M-a`, so whole `-v` outputs cannot be decoded |
| LineNumber.LineNumber.constructor | rat/src/lib.rs:274-286 | a new counter over a buffer of the given size (at least six) holds count 0 and satisfies the counter invariant |
| LineNumber.LineNumber.NextLineNum | rat/src/lib.rs:288-312 | the in-place increment keeps the invariant and adds exactly one to the count. The invariant requires spaces left of `start`, the canonical digits of the count from `start` to the end, `print` six bytes from the right or at `start`, and on overflow '>' followed by the count modulo 10^(size-1). |
| LineNumber.LineNumber.BumpDigit | rat/src/lib.rs:291-293 | the early return: one digit below '9' goes up after the nines to its right became zeros, and the count goes up by one |
| LineNumber.LineNumber.CarryOut | rat/src/lib.rs:302-311 | the carry past the leftmost digit writes a new leading '1', or '>' at the buffer's left end, widens the printed slice when needed, and the count goes up by one |
| LineNumber.LineNumber.GetLineNum | rat/src/lib.rs:314-316 | the printed slice is `LineNumText(count, size)` |
| LineNumber.LineNumber.PrintedSlice | rat/src/lib.rs:314-316 | the slice from `print` to the end of the buffer is `LineNumText` of the count |
| LineNumber.ValIncrement | rat/src/lib.rs:290-299 | raising one digit and zeroing the nines after it adds exactly one to the decimal value |
| LineNumber.InPlaceIncrement | rat/src/lib.rs:291-293 | the early return of the digit loop keeps the counter invariant for count + 1 |
| LineNumber.CarryIncrement | rat/src/lib.rs:295-311 | the carry out of the leftmost digit keeps the counter invariant for count + 1 with the moved cursors |
| LineNumber.CarryWidens | rat/src/lib.rs:302-304 | a new leading '1' before zeros spells the next power of ten, which still fits |
| LineNumber.CarryOverflows | rat/src/lib.rs:305-307 | a full buffer of nines turns into '>' and zeros, which hold 10^size modulo 10^(size-1) |
| LineNumber.InitialText | rat/src/lib.rs:274-279 | a fresh counter prints five spaces and '0' |
| LineNumber.LineNumTextShape | rat/src/lib.rs:314-316 | below the overflow the printed number is the canonical decimal spelling of the count, right-aligned and padded with spaces to max(6, number of digits) bytes |
| LineNumber.WidthGrowth | rat/src/lib.rs:309-311 | each increment keeps the printed width or widens it by one byte; it widens exactly when the count reaches a power of ten of seven digits or more |
| LineNumber.OverflowText | rat/src/lib.rs:305-307 | once the count needs more digits than the buffer holds, the slice is the whole buffer: '>' and then the count modulo 10^(size-1) |
| IoUtil.AndPredecessorIsZeroIffPow2 | rat/src/io_util.rs:41 | the test `x & (x - 1) != 0` holds exactly when `x` is not a power of two |
| IoUtil.BitLengthBounds | rat/src/io_util.rs:42-45 | `x` lies between the powers of two around its top bit |
| IoUtil.NextPow2IsLeast | rat/src/io_util.rs:42-46 | every power of two above `x` is at least the one right above its top bit |
| IoUtil.RoundUpIsLeastMultiple | rat/src/io_util.rs:31-37 | after the padding step the size is the least multiple of the starting value that reaches `IO_BUFSIZE`, without overflow |
| IoUtil.PowerRoundSpec | rat/src/io_util.rs:41-47 | a power of two or a non-regular file is left alone; otherwise the result is the least power of two strictly above the value, unless the top bit is set, in which case it is unchanged |
| IoUtil.IoBlksizeAtLeastBufsize | rat/src/io_util.rs:30-50 | the result of `io_blksize` is never below 262144 |
| IoUtil.NonPositiveBlksizeGivesDefault | rat/src/ioblksize.rs:14-24 | a non-positive `st_blksize` gives exactly 262144, whatever the file type |
| IoUtil.IoBlksizeByFileType | rat/src/ioblksize.rs:20-30 | for a non-regular file the result is the padded value; for a regular file it is a power of two unless the padded value already has its top bit set |
| IoUtil.BufferedWriterSingleThread.constructor | rat/src/io_util.rs:134-139 | a new writer has an empty buffer and standard output as it was |
| IoUtil.BufferedWriterSingleThread.Write | rat/src/io_util.rs:142-156 | order is preserved: sink followed by buffer gains exactly `data`. The buffer stays within `max_size`. The sink grows by whole buffers. Data that fits (short of a full buffer) leaves the sink alone. Exactly `max_size` bytes into an empty buffer go straight to the sink. |
| IoUtil.BufferedWriterSingleThread.Place | rat/src/io_util.rs:149-154 | the tail of `write`: exactly a full buffer's worth goes straight out, anything shorter is appended to the buffer |
| IoUtil.BufferedWriterSingleThread.FillAndFlush | rat/src/io_util.rs:143-148 | one pass of the loop tops the buffer up to `max_size` from the front of the data and emits exactly `max_size` bytes, in order |
| IoUtil.BufferedWriterSingleThread.WriteByte | rat/src/io_util.rs:159-165 | a full buffer is flushed first, then the byte is pushed; sink followed by buffer gains exactly that byte |
| IoUtil.BufferedWriterSingleThread.Flush | rat/src/io_util.rs:168-174 | the buffer is appended to the sink and emptied (an empty buffer emits nothing) |
| IoUtil.BufferedWriterSingleThread.Wait | rat/src/io_util.rs:177-179 | neither the buffer nor the sink changes |
| Rat.OutState.constructor | rat/src/lib.rs:415-420 | the starting state: at a line start, no blank line, nothing pending, a counter of 20 bytes at 0 |
| Rat.WriteNumber | rat/src/lib.rs:492-496 | the counter advances by one, and its printed slice and a tab are written |
| Rat.WriteEnd | rat/src/lib.rs:567-587 | writes the pending CR's marker (`^M` under `show_ends`, else `\r`) and the end string, clears the pending flag, and leaves the buffer empty for an interactive input |
| Rat.WriteCrMark | rat/src/lib.rs:573-578 | writes `CrMark`: `^M` under `show_ends`, `\r` otherwise |
| Rat.NewlineStep | rat/src/lib.rs:490-504 | a newline at the head of the loop body writes `NewlineOut` and moves the state as it prescribes |
| Rat.BeginLine | rat/src/lib.rs:505-516 | before any other byte: writes the pending CR literally, then the number at a line start when numbering is on, as `LineStart` prescribes |
| Rat.Position | rat/src/lib.rs:597 | `Iterator::position`: the index of the first byte of the class, or none when no byte is in it |
| Rat.NonprintingScan | rat/src/lib.rs:597-612 | one search of the `-v` encoder: the skipped bytes are printable and copied as they are, and the byte found is written in its notation |
| Rat.ShowTabScan | rat/src/lib.rs:630-639 | one search of the `-T` encoder: the skipped bytes hold no tab, newline or CR, and a tab found after them becomes `TabStr` |
| Rat.WriteNotation | rat/src/lib.rs:601-610 | the match arms write the `-v` notation of the byte |
| Rat.CopyPrintable | rat/src/lib.rs:597-599 | the search of the `-v` encoder stops at the end or at a byte outside 32..=126, and the writer holds the `-v` output of everything before it |
| Rat.EscapeAt | rat/src/lib.rs:600-612 | the byte the search stopped at (not a newline) is written in its notation |
| Rat.WriteLineNonprinting | rat/src/lib.rs:590-620 | returns the index of the first newline, or the whole length; the writer receives the `-v` notation of every byte before it |
| Rat.CopyTabFree | rat/src/lib.rs:630-641 | the search of the `-T` encoder stops at the end or at a tab, newline or CR, and the writer holds the output of everything before it |
| Rat.TabAt | rat/src/lib.rs:635-639 | a tab found by the search is written as `TabStr` |
| Rat.WriteLineShowTab | rat/src/lib.rs:623-651 | returns the index of the first newline or CR, or the whole length; the writer receives the bytes before it with each tab as `TabStr` |
| Rat.WriteLinePlain | rat/src/lib.rs:524-533 | returns the index of the first newline or CR, or the whole length; the writer receives the bytes before it unchanged |
| Rat.WriteLine | rat/src/lib.rs:518-535 | the encoder dispatch stops at the first terminator for its mode (newline, and CR unless `-v`) or at the end, and writes the encoding of the run before it |
| Rat.FormatSegment | rat/src/lib.rs:505-558 | a chunk suffix not starting with a newline: at least one byte is consumed; writer and state move exactly as the fold over the consumed bytes prescribes |
| Rat.ChunkNewline | rat/src/lib.rs:490-504 | a newline at `offset` moves writer and state from the fold over `buffer[..offset]` to the fold over `buffer[..offset + 1]` |
| Rat.ChunkSegment | rat/src/lib.rs:505-558 | the bytes up to the terminator move writer and state from the fold over `buffer[..offset]` to the fold over `buffer[..next]` |
| Rat.FormatChunk | rat/src/lib.rs:487-559 | the loop over one chunk writes exactly the fold's output over the chunk and ends in the fold's state |
| Rat.EofAt | rat/src/lib.rs:482-486 | the first empty read ends the input; every earlier read delivered bytes |
| Rat.ReadEnds | rat/src/lib.rs:482-486 | a read fails exactly when the input ends with a failure, reports end of input exactly at `EofAt`, and otherwise delivers the next chunk |
| Rat.RunChunks | rat/src/lib.rs:481-560 | the fold over one more chunk carries on from the fold over the chunks before it |
| Rat.FormatNextChunk | rat/src/lib.rs:482-559 | the outer loop body for chunk `i` moves writer and state from the fold over the first `i` chunks to the fold over the first `i + 1` |
| Rat.RealWrite | rat/src/lib.rs:469-564 | succeeds exactly when no read fails. The state ends where the fold over every byte received ends. Standard output gains the fold's output, all of it on success and a prefix of it after a failed read. |
| Rat.CopyNextChunk | rat/src/lib.rs:453-462 | one chunk is passed on as it is, flushed at once for an interactive input |
| Rat.EasyWrite | rat/src/lib.rs:438-466 | succeeds exactly when no read fails; standard output gains every byte received, all of them on success and a prefix after a failed read |
| Rat.HandledAppend | rat/src/lib.rs:330-341 | handling `a + b` equals handling `a` and then `b` with the state carried over, on both paths |
| Rat.RatHandle | rat/src/lib.rs:330-341 | picks the verbatim copy exactly when no flag is set, leaving the state alone; otherwise the formatter. Succeeds exactly when no read fails. |
| Rat.ProcessInput | rat/src/lib.rs:422-430 | an input that could not be opened fails with nothing written and the state unchanged. An opened one is handled by `rat_handle`. Standard output gains a prefix of what handling the input writes, and all of it unless a read fails. |
| Rat.HandledSnoc | rat/src/lib.rs:422-430 | the state after one more input is where handling that input moves the state the earlier inputs left. What all of them write is what the earlier ones write, followed by what that input writes. |
| Rat.NextInput | rat/src/lib.rs:423-430 | one pass of the file loop: the input writes a prefix of what it writes when read to its end, and all of it unless a read fails. The state moves past the input. |
| Rat.WholeParts | rat/src/lib.rs:422-430 | parts that are each the whole output of their input add up to what handling all those inputs writes |
| Rat.CatOfWholeParts | rat/src/lib.rs:422-433 | when each part is the whole output of its input, the parts followed by the CR still pending after the last input are `Cat` of every byte received |
| Rat.Conclude | rat/src/lib.rs:422-433 | with every part a prefix of its input's output, and whole where reads do not fail, the parts and the pending CR make up `Cat` of all bytes received when no read fails |
| Rat.RatProcess | rat/src/lib.rs:413-435 | the exit status is 0 exactly when every input was opened and read to its end. Standard output is one part per input, in order, then a `\r` if one is still pending at the end. Each part is a prefix of what that input writes from the state the earlier inputs left, and all of it unless a read of that input fails. When no read fails, standard output is the fold's output over all bytes received, followed by the pending `\r`. |
| Scenarios.ShowEndsExample | tests/tests.rs:122-123 | under `-E`, "a\rb\r\nc\n\r\nd\r" gives "a\rb^M$\nc$\n^M$\nd\r", for every choice of the four letters other than newline and CR |
| Scenarios.ShowEndsDoubleCr | rat/src/lib.rs:506-509 | under `-E`, "a\rb\r\r\nc\n\r\nd\r" gives "a\rb\r^M$\nc$\n^M$\nd\r": of two CRs in a row only the second is marked |
| Scenarios.TwoInputsCrThenNewline | tests/tests.rs:125-127 | a CR left pending by the first file is resolved by the newline that starts the second: "1\r" and "\n2\r\n" give "1^M$\n2^M$\n" |
| Scenarios.TwoInputsCrThenByte | tests/tests.rs:129-131 | "1\r" and "2\r\n" give "1\r2^M$\n": the pending CR is followed by a byte and written as it came |

## Left out

- Command-line parsing (`rat_app`, `Config::from`, `parse_cmd_args`, `main`) is a layer over `clap`; the five formatting flags of `Config` are model inputs, and the file list is the sequence of inputs given to `RatProcess`.
- `open_file` and `get_input_type` use `fstat`, `fcntl`, `lseek`, `isatty` and path checks. Each input is abstracted as `Rejected` or as `Opened`. An opened input carries the chunks its reads return, whether the read after them fails, and whether it is a terminal. The read buffer size (`bufsize`, from `io_blksize`) only decides where chunks end, so chunks are model input.
- The splice fast path of `easy_write` (`splice_copy`, `copy_bytes`, `splice_bytes`, `rat/src/io_util.rs:233-289`) is kernel I/O and is left out; `EasyWrite` models the read loop only. The splice path's output can differ from the read loop's, in the following ways:
  - Order: it writes to file descriptor 1 directly, bypassing the buffer of the standard library's `stdout`.
  - Completion: when `splice_bytes` fails part way, `copy_bytes` still waits for the full count from the pipe, so it can block.
- `is_multithread`, `BufferedWriterMultiThread` and the `BufferedWriter` enum are left out. They are a thread and channel design, so the model uses the single-threaded writer throughout.
- Write errors on standard output are not modelled: the sink always accepts bytes.
- `IoUtil.BufferedWriterSingleThread.WriteByte`: `write_byte` compares against the buffer's `Vec` capacity while `write` compares against `max_size`; the model takes the capacity to equal `max_size` (both start at `IO_BUFSIZE`).
- Interactive flushes and the final `print!("\r")` only change when bytes reach the terminal, not which bytes. They are folded into the ghost sink; `WriteEnd` and `CopyNextChunk` state only that the buffer is empty afterwards.
- `rat/src/ioblksize.rs:13-33` is the same text as `rat/src/io_util.rs:30-50` and is not compiled into the program. One definition, `IoUtil.IoBlksize`, stands for both, so there is no separate equality lemma.
- `usize` is modelled as naturals below 2^64 and `st_blksize` as a signed 64-bit value. `RoundUp` is only applied to starting values below 2^63, which every positive `st_blksize` and `IO_BUFSIZE` are; the addition therefore cannot overflow.
- `Rat.RealWrite`: after a failed read the writer is dropped without a flush (it has no drop handler), so standard output holds only part of what was formatted. The contract says that output is a prefix, not which prefix.
- `Rat.EasyWrite`: the same weakening after a failed read.
- `Format.NonprintingText`: its own contract states only the length; the byte-by-byte table is its body, and its properties are the lemmas `NonprintingIsVisible`, `NonprintingRoundTrip` and `NonprintingIsAmbiguous`.
- The line counter's `count` is unbounded. After 10^20 lines the 20-byte buffer shows '>' and the low 19 digits; the model states that behaviour (`OverflowText`), not a machine-word limit on the number of lines.
