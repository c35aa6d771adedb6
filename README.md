# StdoutReader: capturing a container's output up to an end marker

This project models `StdoutReader` of SharpLab's container manager and proves properties of the model. `StdoutReader` reads the raw stdout bytes of a sandboxed execution from the container's stream into a rented byte buffer. One incremental UTF-8 decoder turns them into UTF-16 chars in a rented char buffer. After every read it searches the decoded chars for a caller-supplied end marker with an ordinal comparison. The loop stops when one of four things happens:

- the marker is found;
- a read loses the race against cancellation;
- the stream ends;
- a buffer is full.

Each of these maps to a fixed `(output, failed)` pair.

The model follows the structure of the source.

| file | module | what it holds |
|---|---|---|
| `unicode.dfy` | `Unicode` | Bytes, UTF-16 code units, and the UTF-16 form of a scalar value (section 2.1 of RFC 2781). |
| `search.dfy` | `MarkerSearch` | `FirstIndexOf`, the specification of `IndexOf(marker, StringComparison.Ordinal)`, and the lemmas about occurrences in prefixes, suffixes and extensions. |
| `buffers.dfy` | `Buffers` | The in-place copy into an array. `ArrayPool`, a class whose `Rent` and `Return` lend arrays and keep returned ones for the next renter. |
| `utf8.dfy` | `Utf8` | The decoder of `Encoding.UTF8.GetDecoder()`. |
| `transport.dfy` | `Transport` | The stream and `ReadWithCancellationAsync`. |
| `capture.dfy` | `CaptureSpec` | What one capture session computes, stated on values, and what it guarantees. |
| `reader.dfy` | `Reader` | The imperative loop over the two arrays, the decoder object and the stream, proved to compute what `CaptureSpec.Capture` says. Also both versions of `ReadOutputAsync`. |
| `scenarios.dfy` | `Scenarios` | Whole sessions with the marker `<<END>>`, over ASCII text and, in one of them, a character outside the Basic Multilingual Plane. |

More on three of them:

- **The decoder** (`Utf8`). A pure function `Decode` carries the bytes of an incomplete character as pending state. `DecodeWithin` is the capacity-limited conversion that `Decoder.Convert` performs. When the output of all the bytes does not fit, it stops after the last complete character that fits and takes none of the bytes of the character that did not fit. Both decode by the well-formed byte table of section 4 of RFC 3629. Ill-formed input becomes U+FFFD, one per maximal ill-formed subpart. The inverse of the decoder is the encoder of section 3 of RFC 3629 (`Encode`).
- **The stream** (`Transport`). It is a finite sequence of read events, fixed in advance. Each event delivers bytes, reports end of file, or is a read that the cancellation signal beat. Reads past the recorded events report end of file.
- **The capture session** (`CaptureSpec`). `Round` is one pass of the loop body and `Run` the rounds over the remaining reads. `Report` is the result mapping. `WindowRule` selects the scan window: `AsWritten` is the source's `Math.Min(charIndex, totalCharCount - outputEndMarker.Length)`, and `Corrected` is the rule under "## Findings".

## Model

| member | source | states |
|---|---|---|
| Unicode.Utf16 | source/Container.Manager/Internal/StdoutReader.cs:51-56 | The chars the decoder writes for a scalar value: one unit below U+10000, otherwise a high and a low surrogate that recombine to the value. |
| Unicode.Utf16String | source/Container.Manager/Internal/StdoutReader.cs:51-56 | The UTF-16 form of a string has between one and two units per character. |
| MarkerSearch.FirstIndexOf | source/Container.Manager/Internal/StdoutReader.cs:60-62 | Ordinal `IndexOf`. The result is -1 exactly when the marker does not occur; otherwise the marker occurs at the result and at no earlier index. |
| MarkerSearch.BeforeFirstIsFree | source/Container.Manager/Internal/StdoutReader.cs:80 | The text before the first occurrence of a non-empty marker does not contain the marker. |
| MarkerSearch.FirstIndexOfExtended | source/Container.Manager/Internal/StdoutReader.cs:60-64 | Appending text never moves the first occurrence of the marker once there is one. |
| Buffers.CopyInto | source/Container.Manager/Internal/StdoutReader.cs:51-53 | Writing items at an offset sets exactly that stretch of the array and leaves the rest alone. |
| Buffers.ArrayPool.Rent | source/Container.Manager/Internal/StdoutReader.cs:15-16 | The renter gets an array at least as long as requested and not lent to anyone else. It is the last returned array when that one is long enough, and a new array otherwise. |
| Buffers.ArrayPool.Return | source/Container.Manager/Internal/StdoutReader.cs:22-24 | A returned array is no longer lent and is kept for the next renter. |
| Transport.Delivered | source/Container.Manager/Internal/StdoutReader.cs:42 | A read that asks for `count` bytes gets at most `count`, a prefix of what the stream holds, and all of it when it fits. |
| Transport.ReadOutcome | source/Container.Manager/Internal/StdoutReader.cs:85-97 | Cancelled exactly when cancellation wins, and then `(default, true)`. End of file is reported exactly for a closed stream. The count is the bytes delivered, never more than requested. |
| Transport.AfterNext | source/Container.Manager/Internal/StdoutReader.cs:90 | Each read uses up one recorded event. |
| Transport.OutputStream.Next | source/Container.Manager/Internal/StdoutReader.cs:90 | A read ends with the next recorded event, or with end of file once they are used up, and consumes it. |
| Transport.ReadWithCancellation | source/Container.Manager/Internal/StdoutReader.cs:85-97 | Returns `ReadOutcome` of the next event. The delivered bytes land at `index` and nothing else in the buffer changes. |
| Utf8.SequenceLength | source/Container.Manager/Internal/StdoutReader.cs:51-56 | A lead byte starts a sequence of at most four bytes, and of one byte exactly when it is ASCII. |
| Utf8.CodePoint | source/Container.Manager/Internal/StdoutReader.cs:51-56 | A well-formed sequence encodes a scalar value that needs a surrogate pair exactly when the sequence has four bytes. |
| Utf8.Step | source/Container.Manager/Internal/StdoutReader.cs:51-56 | One byte keeps the decoder in a valid pending state and yields at most two units. It never yields more units than it and the pending bytes account for. |
| Utf8.Decode | source/Container.Manager/Internal/StdoutReader.cs:51-56 | Unlimited decoding without flush keeps a valid pending state and yields no more units than bytes. |
| Utf8.DecodeAppend | source/Container.Manager/Internal/StdoutReader.cs:35 | With the decoder carried from call to call, decoding `a + b` is decoding `a` and then `b`: the output does not depend on where reads split the bytes. |
| Utf8.DecodeWithin | source/Container.Manager/Internal/StdoutReader.cs:51-56 | A conversion into `capacity` units writes at most `capacity` units, uses at most the bytes given and keeps a valid pending state. |
| Utf8.DecodeWithinIsDecode | source/Container.Manager/Internal/StdoutReader.cs:51-56 | What a capacity-limited conversion writes is exactly the unlimited decoding of the bytes it used. |
| Utf8.DecodeWithinStopsWhenFull | source/Container.Manager/Internal/StdoutReader.cs:51-56 | A conversion stops before the end of its input only when the output of all of it does not fit. It then stops on a character boundary, and no later boundary's output fits. |
| Utf8.DecodeWithinStopsAt | source/Container.Manager/Internal/StdoutReader.cs:51-56 | When everything does not fit, a boundary whose output fits, with no boundary after it before the end, is exactly where the conversion stops, with that prefix's decoding. |
| Utf8.TruncatedSequenceReplaced | source/Container.Manager/Internal/StdoutReader.cs:51-56 | The start of a well-formed sequence cut short by a byte that cannot continue it is one maximal ill-formed subpart: it becomes exactly one U+FFFD, and the byte is then decoded afresh. |
| Utf8.TruncatedExamples | source/Container.Manager/Internal/StdoutReader.cs:51-56 | `E2 41` and `F0 9F 41` each decode to U+FFFD followed by `A`, with nothing pending. |
| Utf8.SequencePrefixPending | source/Container.Manager/Internal/StdoutReader.cs:51-56 | With `flush: false`, the bytes of a well-formed sequence before its last byte are kept pending and write nothing. |
| Utf8.DecodeWithinLeavesWide | source/Container.Manager/Internal/StdoutReader.cs:51-56 | After complete characters, a character whose UTF-16 form does not fit in the room left is not taken: the conversion uses exactly the bytes before it, writes their chars and keeps nothing pending. |
| Utf8.DecodeWithinComplete | source/Container.Manager/Internal/StdoutReader.cs:51-56 | With room for one unit per input byte, a conversion uses all of its input. |
| Utf8.EncodeAppend | source/Container.Manager/Internal/StdoutReader.cs:51-56 | The UTF-8 encoding of a concatenation is the concatenation of the encodings. |
| Utf8.EncodeScalarWellFormed | source/Container.Manager/Internal/StdoutReader.cs:51-56 | The encoding of a scalar value is one well-formed sequence that encodes that value. |
| Utf8.DecodeEncode | source/Container.Manager/Internal/StdoutReader.cs:51-56 | Round trip: decoding the UTF-8 encoding of any string yields exactly its UTF-16 form, with nothing pending. |
| Utf8.Decoder.constructor | source/Container.Manager/Internal/StdoutReader.cs:35 | `Encoding.UTF8.GetDecoder()`: a fresh decoder has nothing pending. |
| Utf8.Decoder.Convert | source/Container.Manager/Internal/StdoutReader.cs:51-56 | `Convert(..., flush: false, ...)` writes the conversion of `DecodeWithin` after the chars already in the destination. It keeps the pending bytes for the next call and leaves the rest of the destination alone. |
| CaptureSpec.WindowStart | source/Container.Manager/Internal/StdoutReader.cs:59 | The scan window never starts after `charIndex`. As written, a whole marker fits after the start. Corrected, a non-zero start is exactly one unit short of a marker's length before `charIndex`. |
| CaptureSpec.Scan | source/Container.Manager/Internal/StdoutReader.cs:57-66 | The end-marker check of a round yields -1 or an index at which the marker occurs. |
| CaptureSpec.CorrectedScanIsFirst | source/Container.Manager/Internal/StdoutReader.cs:58-64 | When the chars accepted before the round hold no marker, the corrected scan returns the first occurrence in the whole decoded text. That includes an occurrence that began in an earlier read. |
| CaptureSpec.Round | source/Container.Manager/Internal/StdoutReader.cs:42-72 | A round that goes on did read data and keeps both cursors below the lengths of their buffers. The byte cursor moves by exactly the count read, and the cursors never move back. |
| CaptureSpec.Run | source/Container.Manager/Internal/StdoutReader.cs:41-73 | The rounds end with cursors within the buffers and a valid decoder state. |
| CaptureSpec.RunText | source/Container.Manager/Internal/StdoutReader.cs:41-73 | The text of the outcome is a prefix of the chars decoded, and all of them unless the marker was found. |
| CaptureSpec.Capture | source/Container.Manager/Internal/StdoutReader.cs:35-73 | A session from the fresh state of lines 35-40 (both cursors at 0, no end index, a new decoder) ends with the cursors within the buffers. Its text is a prefix of the chars decoded, and all of them unless the marker was found. |
| CaptureSpec.RunOnSignal | source/Container.Manager/Internal/StdoutReader.cs:43-49 | A cancelled read ends the session as `Cancelled` and an end of file as `EndOfStream`. Both carry the chars decoded before that read. |
| CaptureSpec.RunOnData | source/Container.Manager/Internal/StdoutReader.cs:51-72 | After a read with data, the session ends as `MarkerFound` with the text before the found index, ends as `BufferExhausted` when a buffer is full, or goes on with the cursors advanced. |
| CaptureSpec.Report | source/Container.Manager/Internal/StdoutReader.cs:75-80 | Failed exactly when the marker was not found. On success the output is the text before the marker. |
| CaptureSpec.RoundDecodes | source/Container.Manager/Internal/StdoutReader.cs:51-57 | A round's conversion adds no more chars than bytes. When the char buffer is at least as long as the byte buffer, the chars are the decoding of all bytes read so far. |
| CaptureSpec.RoundKeepsCoherent | source/Container.Manager/Internal/StdoutReader.cs:41-73 | Loop invariant: a round keeps the cursors in range and, under the corrected rule, the accepted chars free of the marker; or it ends the session soundly. |
| CaptureSpec.RunSound | source/Container.Manager/Internal/StdoutReader.cs:41-80 | Every session ends soundly. The output text is the chars decoded, cut at an occurrence of the marker on success (the first under the corrected rule). `BufferExhausted` happens only with a buffer full. |
| CaptureSpec.RunExtends | source/Container.Manager/Internal/StdoutReader.cs:69-70 | `byteIndex` and `charIndex` never decrease: the final bytes and chars extend those of every earlier state. |
| CaptureSpec.CaptureResult | source/Container.Manager/Internal/StdoutReader.cs:75-80 | With the corrected window, success returns exactly the chars before the first occurrence of the marker, so the output never contains it. Cancellation returns the chars so far plus "timed out". End of stream and a full buffer both return the chars so far plus "unexpected end". |
| CaptureSpec.CaptureDecodesEverything | source/Container.Manager/Internal/StdoutReader.cs:35 | With one decoder per session and buffers of equal length, the chars are the decoding of all bytes read, whatever the split into reads. |
| CaptureSpec.FirstMarkerStays | source/Container.Manager/Internal/StdoutReader.cs:51-66 | Decoding more bytes never moves the first marker already present in the decoded text, nor changes the text before it. |
| CaptureSpec.FoundTextIndependentOfChunking | source/Container.Manager/Internal/StdoutReader.cs:41-80 | Two successful sessions over streams that deliver the same bytes in different reads return the same text. |
| Reader.IndexOf | source/Container.Manager/Internal/StdoutReader.cs:60-62 | The loop returns `FirstIndexOf` of the span. |
| Reader.FindOutputEnd | source/Container.Manager/Internal/StdoutReader.cs:57-67 | The check over `charBuffer[earliest..totalCharCount]` returns the absolute index that `Scan` specifies. |
| Reader.ConvertAndScan | source/Container.Manager/Internal/StdoutReader.cs:51-66 | The conversion writes `DecodeWithin`'s chars after `charIndex`, and the check returns `Scan` of the decoded chars. |
| Reader.ReadRound | source/Container.Manager/Internal/StdoutReader.cs:42-72 | One pass of the loop body over the arrays does what `Run` says for the current session: it ends the session exactly as `Run` does, or leaves the next session in the buffers and the decoder: the bytes read so far are `byteBuffer[..byteIndex + count]`, the chars decoded so far `charBuffer[..charIndex + charCount]`, and the decoder holds what is pending. |
| Reader.ReadUntilEnd | source/Container.Manager/Internal/StdoutReader.cs:35-73 | The `while` loop ends with `cancelled`, `outputEndIndex` and `charIndex` describing the outcome `Capture` gives for the stream's reads, with the chars in `charBuffer`. Its invariant keeps the bytes read so far in `byteBuffer[..byteIndex]`. |
| Reader.ReadOutputWithBuffers | source/Container.Manager/Internal/StdoutReader.cs:28-81 | The result is `Report` of `Capture`. On success it is a memory over `charBuffer` itself; on failure it is a new string. |
| Reader.ReadOutputAsWritten | source/Container.Manager/Internal/StdoutReader.cs:11-26 | Both buffers are rented with at least 10240 elements and returned on the way out. The result is `Report` of `Capture` for the lengths rented. On success the result shows the char array that is now back in the pool. Every shelved array that was not rented keeps its contents. |
| Reader.NextRenterOverwrites | source/Container.Manager/Internal/StdoutReader.cs:80 | The next renter of the char pool receives the very array a successful result shows, and what it writes there is what the result then shows. |
| Reader.ReadOutput | source/Container.Manager/Internal/StdoutReader.cs:11-26 | The corrected `ReadOutputAsync`: buffers rented and returned as before, and the result is `Report` of `Capture` under the corrected window, as a value of its own. Every shelved array that was not rented keeps its contents. |
| Scenarios.MarkerInOneRead | source/Container.Manager/Internal/StdoutReader.cs:57-66 | Text and marker in one read give the text and `failed = false`, under either window. |
| Scenarios.MarkerSplitAcrossReads | source/Container.Manager/Internal/StdoutReader.cs:57-66 | `pre + "<<E"` then `"ND>>"` gives `pre` and `failed = false`, under either window. |
| Scenarios.SignalAfterPlainRead | source/Container.Manager/Internal/StdoutReader.cs:43-49 | Text without the marker and then a cancelled read gives the text plus "timed out". Followed by end of file instead, it gives the text plus "unexpected end". Both have `failed = true`. |
| Scenarios.FullBufferFails | source/Container.Manager/Internal/StdoutReader.cs:71-78 | One read of 10240 chars without the marker fills the buffers, which gives all of them plus "unexpected end" and `failed = true`. |
| Scenarios.SplitRun | source/Container.Manager/Internal/StdoutReader.cs:41-73 | With a marker split after its third unit, the session succeeds in the second round exactly when that round's window starts at or before the marker. |
| Scenarios.StraddlingMarkerMissed | source/Container.Manager/Internal/StdoutReader.cs:59 | With the window as written, a marker split over two reads with anything after it in the second read is missed. At end of stream the session fails with text that contains the marker. |
| Scenarios.StraddlingMarkerFound | source/Container.Manager/Internal/StdoutReader.cs:59 | With the corrected window the same session succeeds with the text before the marker, whatever reads follow. |
| Scenarios.WideCharacterLeavesRoom | source/Container.Manager/Internal/StdoutReader.cs:51-56 | After at least one plain character, with one unit of room left, a character outside the Basic Multilingual Plane is dropped whole, and the next read's char takes that unit. The full char buffer then ends the session with the text of both reads plus "unexpected end". |

## Left out

- The empty end marker. Every member requires a non-empty marker, and the corrected window needs one. The source accepts an empty marker: `IndexOf("")` is 0 there, so the first read that delivers data (even zero bytes) returns an empty text with `failed = false`.
- The `Task.WhenAny` race, `TaskCompletionSource`, `CancellationToken.Register` and `async`/`await` are concurrency. A read that cancellation beats is the event `CancelFirst`. The abandoned read, which may still write into a buffer after it went back to the pool, is not modelled.
- The source loop has no termination argument: a read that delivers zero bytes without end of file repeats forever. In the model the stream is a finite sequence of events, so every session ends.
- `MultiplexedStream` and its stdout/stderr demultiplexing are transport I/O. The stream is the events its reads end with, and a read never delivers more than it asked for.
- The `ArgumentException` that `Decoder.Convert` throws when its destination cannot take even the first character. This needs one unit of room left while the next character needs a surrogate pair, which can only happen when the char buffer is shorter than the byte buffer. `ReadOutputAsync` rents both buffers with the same minimum length (StdoutReader.cs:15-16), and when they come out equally long the char buffer never fills first (`CaptureSpec.Coherent`: chars and pending bytes never outnumber the bytes read), so there this path is not reached. When it is, the model's decoder takes no bytes and writes nothing, and the loop goes on. When at least one character was written first, the source does not throw: the character that did not fit is dropped with its bytes (Scenarios.WideCharacterLeavesRoom).
- Exceptions from the transport propagate through `try`/`finally`; the model has no exceptions and returns both buffers on its one exit path.
- The internals of `ArrayPool<T>.Shared`, a foreign library. The model keeps returned arrays on a stack and lends the top one when it is long enough. On that basis the rented length is only known to be at least 10240, as with the real pool.
- `Decoder.Convert`'s `bytesUsed` and `completed` outputs, which the source ignores. Bytes the decoder did not take for lack of room are lost, and ReadRound advances `byteIndex` by the full count read, as the source does.
- The final `flush` of the decoder never happens in the source. A trailing incomplete character stays pending and is not part of the output, and the model keeps it pending the same way.
- Utf8.DecodeWithin: when the byte that cuts an incomplete sequence short starts a character that does not fit, the model stops before the incomplete sequence, so its U+FFFD is not written either. The documentation of `Decoder.Convert` does not say whether that U+FFFD is written before the decoder stops, so the model stops at the last character boundary that fits.
- Reader.ReadOutputAsWritten, Reader.ReadOutput: the lengths of the rented arrays are stated only as "at least 10240", because the pool may hand out longer arrays.

## Findings

| source | as written | input that shows it | evidently intended | confidence | as-written member | corrected member |
|---|---|---|---|---|---|---|
| source/Container.Manager/Internal/StdoutReader.cs:59 | Each round's scan starts at `Math.Min(charIndex, totalCharCount - outputEndMarker.Length)`. Once a marker's length of new chars has arrived, that is `charIndex`, so a marker that began in an earlier read is not seen. | marker `<<END>>`, reads `hello<<E`, `ND>>!!!`, then end of stream. The result is `("hello<<END>>!!!\n(Unexpected end of output)", true)`. | A marker that straddles a read boundary is found: start at `max(0, charIndex - outputEndMarker.Length + 1)`, so the result is `("hello", false)`. Only chars that were already scanned are skipped. | not executed; high | Scenarios.StraddlingMarkerMissed | Scenarios.StraddlingMarkerFound |
| source/Container.Manager/Internal/StdoutReader.cs:80 | On success the result is `charBuffer.AsMemory(0, outputEndIndex)`. The `finally` of `ReadOutputAsync` returns `charBuffer` to `ArrayPool<char>.Shared` before the caller sees that memory. | Any successful capture that is followed, before the caller reads the output, by another renter of the shared char pool that writes into the array it gets. | The caller gets text of its own, copied out of the char buffer before the buffer goes back to the pool. | not executed; medium | Reader.ReadOutputAsWritten, Reader.NextRenterOverwrites | Reader.ReadOutput |

The first finding is shown in the model by Scenarios.StraddlingMarkerMissed, and CaptureSpec.CorrectedScanIsFirst proves the corrected rule for every input. A straddling marker is still found as written when it ends exactly at the end of the decoded chars, as in `hello<<E` then `ND>>` (Scenarios.MarkerSplitAcrossReads). Any character after it in the same read hides it. The code itself shows that a straddling marker is meant to be found. The second operand of `Math.Min` at line 59, `totalCharCount - outputEndMarker.Length`, matters only when fewer than a marker's length of new chars arrived. It then moves the start back into chars of earlier reads, and the guard at line 58 exists only so that this start is valid. The name `earliestOutputEndCheckIndex` says the same: the start is the earliest index at which the marker can still begin.

For the second finding, Reader.ReadOutputAsWritten models the aliasing result and Reader.NextRenterOverwrites shows the overwrite.
