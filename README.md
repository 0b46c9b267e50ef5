# cpp-util bit codec, tokenizer, parameters and running averages in Dafny

This project models the core of the `cpp-util` C++ header library and proves
properties about it.

The main part is the **bit codec**. Unsigned fields of 1 to 32 bits are packed
most significant bit first into byte buffers, and fields of up to 64 bits are
unpacked again. Four classes do this:

- `BitWriter` writes into caller memory of fixed size and reports failure when
  a write does not fit.
- `OBitStream` owns its buffer and grows it, so a field write never fails.
- `IBitStream` reads from a buffer it holds.
- `BitReader` reads the same way from borrowed memory.

All four share one cursor: a byte position and a count of bits (1..8) left in
the current byte, standing for the bit offset `8*pos + 8 - bitsLeft`.

- **Writers.** Each writer carries a ghost sequence `Bits` of the bits written
  so far. Its invariant (`Cursor.Holds`) says that the bit image of the buffer
  is `Bits` followed by zeros. That zero tail is what makes the OR-merge of the
  slow write path correct.
- **Readers.** Each reader exposes the bits it has not yet read as
  `Pending()`.
- **Shared loops.** The chunking loops are modelled once and used by all four
  classes: the write loop and its fast path in `Cursor`, the read and skip
  loops in `Reading`. They keep the source's loop structure and are proved
  against the spec functions `BitsMSB` / `ValueMSB` (module `Bits`).
- **Central law.** `Codec.RoundTrip` proves it. Write `(value, width)` fields
  with `OBitStream`, open an `IBitStream` on `str()`, and read the same widths:
  every read succeeds and returns `value mod 2^width`. This holds for any
  positive initial size, including when the stream grows one or more times
  along the way. The RTP header test is an instance
  (`Codec.RtpHeaderRoundTrip`).

The smaller cores:

- `StringTokenizer::tokenize`: the method `Tokenizer.Tokenize` keeps the two
  nested loops. It is proved equal to the reference definition
  `Tokenizer.Tokens`, and the token count, delimiter-freedom and join
  properties are proved about `Tokens`.
- `GenericParameters`: five map fields, with pure getters and setters that
  update the maps in place.
- Both `RunningAverageQueue` templates, instantiated with `T = R = uint32_t`.
  The window is the newest `max_size` values of a ghost history, and the
  average is the window's sum, taken modulo 2^32 as the C++ conversion does,
  divided by its size.

Details of the code worth noting, which the model keeps:

- When `OBitStream::write` grows, it uses `uiBits >> 3`, the floor of
  `bits / 8`, not a ceiling. `OBitStreams.GrowthSuffices` shows that this
  still always makes room.
- The 32- and 64-bit `read` overloads do not reject a width larger than the
  output. Only the 8- and 16-bit overloads fail for it.
- `OBitStream::writeBytes` does not advance the cursor (see Findings).
- `readBytes` and `skipBytes` of both readers compute the bit count
  `uiBytes << 3` in 32 bits, so it wraps from 2^29 bytes on (see Findings).
- A delimiter character listed more than once in `tokenize`'s delimiter
  string makes every later match push the whole rest of the text, because
  `pos - last_pos` wraps. `Tokenizer.Tokens` and `Tokenizer.RepeatedDelimiter`
  model this behaviour.

## Model

| member | source | states |
|---|---|---|
| Bits.ValueOfBits | include/cpputil/IBitStream.h:43-65 | reading back the n bits `BitsMSB(v, n)` gives `v mod 2^n` (the low n bits) |
| Bits.OrIntoZeroBits | include/cpputil/BitWriter.h:134 | OR-ing a value below 2^k into a number whose low k bits are zero is addition: the merge never disturbs earlier bits |
| Bits.BitsSplit | include/cpputil/BitWriter.h:119-145 | the low m+k bits of v are the m bits above bit k followed by the low k bits (the chunking of the slow path) |
| Bits.ValueAppend | include/cpputil/IBitStream.h:47-53 | the value of a concatenation is the first part shifted left by the second part's length plus the second part |
| Bits.ValueOfBytes | include/cpputil/BitWriter.h:70-107 | the bit image of bytes read as one number is the bytes read big-endian |
| Cursor.TotalBitsLeft | include/cpputil/BitWriter.h:228-231 | the uint32 expression `bitsLeft + 8*(size - pos - 1)` equals `8*size` minus the bits written, including the wrapped case `pos == size` |
| Cursor.UsedBytes | include/cpputil/BitWriter.h:223-226 | bytesUsed() is the least number of whole bytes holding the bits written |
| Cursor.OnByteBoundary | include/cpputil/BitWriter.h:169 | a remaining bit count that is a multiple of 8 puts a reader on a byte boundary |
| Cursor.Pack | include/cpputil/BitWriter.h:68-146 | after a write of n bits, the buffer holds the old bits followed by the low n bits of the value MSB first, then zeros, and the cursor has moved by exactly n bits |
| Cursor.StoreField | include/cpputil/BitWriter.h:70-107 | the fast path stores byte j of the field at pos+n/8-1-j, most significant byte first, and leaves every other byte as it was |
| Cursor.FieldBytesBits | include/cpputil/BitWriter.h:70-107 | the bytes the fast path stores hold exactly the low 8k bits of the value MSB first |
| Cursor.MergeField | include/cpputil/BitWriter.h:119-145 | the slow path's loop appends the low n bits MSB first and moves the cursor by n bits; its invariant says the bits still to write are intact in the low part of `uiValueCopy` |
| Cursor.MergeStep | include/cpputil/BitWriter.h:124-144 | one iteration (mask, shift, OR, advance, subtract) keeps the loop invariant |
| Cursor.SubKeepsLow | include/cpputil/BitWriter.h:144 | subtracting the written chunk shifted above the overflow bits (uint32 arithmetic) keeps the low overflow bits of the copy |
| Reading.Unpack | include/cpputil/IBitStream.h:43-62 | the read loop yields the next n bits of the image read MSB first and moves the cursor by exactly n bits; with n up to the output width, `<<=` never drops a bit |
| Reading.ReadStep | include/cpputil/IBitStream.h:47-61 | one iteration (shift, mask, OR, advance) keeps the invariant "value holds the bits read so far" |
| Reading.ReadChunk | include/cpputil/IBitStream.h:51-53 | `(byte >> (bib - k)) & mask` is the value of the next k bits of the image |
| Reading.Advance | include/cpputil/IBitStream.h:191-203 | the skip loop moves the cursor by exactly n bits |
| Reading.Field | include/cpputil/IBitStream.h:43-65 | the value of n image bits is below 2^n and its n-bit expansion is those bits |
| BitWriters.BitWriter.constructor | include/cpputil/BitWriter.h:21-28 | the region is cleared, nothing is written, and the cursor is at byte 0 with 8 bits left |
| BitWriters.BitWriter.Reset | include/cpputil/BitWriter.h:35-40 | the region is cleared again and the cursor returns to byte 0 with 8 bits left |
| BitWriters.BitWriter.TotalBitsLeft | include/cpputil/BitWriter.h:228-231 | the free bits are `8*size` minus the bits written, and are 0 exactly when the region is full |
| BitWriters.BitWriter.BytesUsed | include/cpputil/BitWriter.h:223-226 | the bits written rounded up to whole bytes |
| BitWriters.BitWriter.Str | include/cpputil/BitWriter.h:233-245 | exactly bytesUsed() bytes holding the bits written padded with zeros; empty exactly when nothing was written |
| BitWriters.BitWriter.Write | include/cpputil/BitWriter.h:60-148 | succeeds exactly when n bits are free; on success appends the low n bits of the value MSB first; on failure nothing changes |
| BitWriters.BitWriter.Write8Bits | include/cpputil/BitWriter.h:42-58 | succeeds exactly when 8 bits are free and appends the byte; on failure nothing changes |
| BitWriters.BitWriter.WriteBytes | include/cpputil/BitWriter.h:151-160 | succeeds exactly on a byte boundary with room for the bytes; copies them and moves past them; on failure nothing changes |
| BitWriters.BitWriter.WriteStream | include/cpputil/BitWriter.h:165-190 | succeeds exactly when the writer is aligned, the reader's remaining bits are whole bytes and they fit; then every pending bit of the reader is appended and the reader is drained; on failure neither side changes |
| BitWriters.BitWriter.WriteStreamBytes | include/cpputil/BitWriter.h:194-221 | as WriteStream for the next n bytes, which the reader must also have; both cursors advance by n bytes |
| OBitStreams.GrownSize | include/OBitStream.h:62-63 | the grown size is `max(2*size, 2*(size + n/8))` |
| OBitStreams.GrowthSuffices | include/OBitStream.h:59-65 | for a non-empty buffer the grown size always leaves room for the n-bit field |
| OBitStreams.GrowthBound | include/OBitStream.h:59-65 | when the field does not fit, the grown size in bytes is below a quarter of the bits written plus half the field width: growth never outpaces the data |
| OBitStreams.OBitStream.constructor | include/OBitStream.h:21-28 | a cleared buffer of the given size, nothing written, cursor at byte 0 with 8 bits left |
| OBitStreams.OBitStream.FromBuffer | include/OBitStream.h:30-37 | the given buffer is cleared and used, with nothing written |
| OBitStreams.OBitStream.TotalBitsLeft | include/OBitStream.h:200-203 | the free bits are `8*size` minus the bits written |
| OBitStreams.OBitStream.BytesUsed | include/OBitStream.h:195-198 | the bits written rounded up to whole bytes |
| OBitStreams.OBitStream.Str | include/OBitStream.h:205-217 | exactly bytesUsed() bytes holding the bits written padded with zeros; empty exactly when nothing was written |
| OBitStreams.OBitStream.IncreaseBufferSize | include/OBitStream.h:219-226 | a new buffer of the new size that starts with the old bytes and is zero after them; the bits written are unchanged |
| OBitStreams.OBitStream.Write | include/OBitStream.h:56-182 | never fails: grows to GrownSize when fewer than n bits are free (otherwise keeps the same buffer) and appends the low n bits MSB first |
| OBitStreams.OBitStream.Write8Bits | include/OBitStream.h:39-54 | doubles the buffer when fewer than 8 bits are free and appends the byte |
| OBitStreams.OBitStream.WriteBytes | include/cpputil/BitWriter.h:151-160 | the corrected writeBytes: on a byte boundary with room, copies the bytes and moves past them; otherwise nothing changes; never grows |
| OBitStreams.WriteBytesAsWritten | include/OBitStream.h:185-193 | writeBytes as written: same success condition, bytes copied at the cursor, cursor left where it was |
| OBitStreams.WriteBytesLosesBytes | include/OBitStream.h:185-193 | on a fresh 12-byte stream writeBytes of one byte succeeds, yet str() stays empty |
| IBitStreams.IBitStream.constructor | include/cpputil/IBitStream.h:13-21 | nothing read: every bit of the buffer is pending and `8*size` bits remain |
| IBitStreams.IBitStream.FromString | include/cpputil/IBitStream.h:23-31 | the stream holds a copy of the string's bytes, with nothing read |
| IBitStreams.IBitStream.GetBitsRemaining | include/cpputil/IBitStream.h:33 | the number of pending bits, `8*size` minus the bits read |
| IBitStreams.IBitStream.GetBytesRemaining | include/cpputil/IBitStream.h:34 | the pending bits divided by 8, rounded down |
| IBitStreams.IBitStream.ReadBits | include/cpputil/IBitStream.h:43-64 | the value is the next n pending bits read MSB first, and exactly those n bits are consumed |
| IBitStreams.IBitStream.Read64 | include/cpputil/IBitStream.h:36-66 | fails with nothing changed (the output kept) when n exceeds the remaining bits; otherwise yields the next n bits and consumes them |
| IBitStreams.IBitStream.Read32 | include/cpputil/IBitStream.h:68-98 | as Read64, into a 32-bit output |
| IBitStreams.IBitStream.Read8 | include/cpputil/IBitStream.h:101-131 | also fails when n exceeds 8 |
| IBitStreams.IBitStream.Read16 | include/cpputil/IBitStream.h:134-164 | also fails when n exceeds 16 |
| IBitStreams.IBitStream.ReadBytes | include/cpputil/IBitStream.h:167-182 | for every byte count, succeeds exactly on a byte boundary with 8n bits remaining (the guard without the wrap of `uiBytes << 3`); hands out the n bytes at the cursor, whose bits are the next 8n pending bits, and consumes them; on failure nothing changes |
| IBitStreams.IBitStream.SkipBits | include/cpputil/IBitStream.h:184-206 | same failure condition and cursor effect as a read of n bits, with no output |
| IBitStreams.IBitStream.SkipBytes | include/cpputil/IBitStream.h:208-221 | for every byte count, succeeds exactly on a byte boundary with 8n bits remaining (the guard without the wrap), and then moves past n bytes; on failure nothing changes |
| IBitStreams.IBitStream.PeekAtCurrentByte | include/cpputil/IBitStream.h:223-226 | the byte under the cursor, whose low bits are the next pending bits; nothing changes |
| BitReaders.BitReader.constructor | include/cpputil/BitReader.h:12-20 | reads the borrowed memory without copying it; all `8*length` bits are pending |
| BitReaders.BitReader.GetBitsRemaining | include/cpputil/BitReader.h:22 | the number of pending bits |
| BitReaders.BitReader.GetBytesRemaining | include/cpputil/BitReader.h:23 | the pending bits divided by 8, rounded down |
| BitReaders.BitReader.ReadBits | include/cpputil/BitReader.h:32-53 | the value is the next n pending bits read MSB first, and exactly those bits are consumed |
| BitReaders.BitReader.Read32 | include/cpputil/BitReader.h:25-55 | fails with nothing changed when n exceeds the remaining bits; otherwise yields and consumes the next n bits |
| BitReaders.BitReader.Read8 | include/cpputil/BitReader.h:58-88 | also fails when n exceeds 8 |
| BitReaders.BitReader.Read16 | include/cpputil/BitReader.h:91-121 | also fails when n exceeds 16 |
| BitReaders.BitReader.ReadBytes | include/cpputil/BitReader.h:124-139 | for every byte count, succeeds exactly on a byte boundary with 8n bits remaining (the guard without the wrap); hands out the n bytes at the cursor and consumes them; on failure nothing changes |
| BitReaders.BitReader.SkipBits | include/cpputil/BitReader.h:141-163 | moves the cursor exactly as a read of n bits would |
| BitReaders.BitReader.SkipBytes | include/cpputil/BitReader.h:165-178 | for every byte count, succeeds exactly on a byte boundary with 8n bits remaining (the guard without the wrap), and then moves past n bytes; on failure nothing changes |
| Reading.SkipBytesAsWritten | include/cpputil/BitReader.h:165-178 | readBytes/skipBytes with the uint32 `uiBytes << 3`: the same verdict as the unwrapped guard whenever 8n fits in 32 bits, and on success the cursor moves by all n bytes |
| Reading.SkipBytesRunsPastEnd | include/cpputil/IBitStream.h:208-221 | with no bits left, skipBytes(2^29) as written succeeds and moves the cursor 2^29 bytes past the end |
| BitReaders.BitReader.PeekAtCurrentByte | include/cpputil/BitReader.h:180-183 | the byte under the cursor, whose low bits are the next pending bits; nothing changes |
| Codec.Encoding | src/test/main.cpp:69-133 | the bits of a field sequence total the sum of the widths |
| Codec.EncodingAppend | src/test/main.cpp:69-133 | encoding two runs of fields one after the other is the concatenation of their encodings |
| Codec.Encode | include/OBitStream.h:56-217 | writing fields into an OBitStream of any positive initial size, growing whenever a field does not fit, and taking str() gives bytes holding the concatenated fields padded to a whole byte |
| Codec.RoundTrip | src/test/main.cpp:69-133 | whatever the initial size and however often the writer grew, reading the written widths back from an IBitStream on str() succeeds every time and returns every value modulo 2^width |
| Codec.RtpHeaderRoundTrip | src/test/main.cpp:69-133 | every read succeeds and the RTP header fields 2, 0, 0, 0, 1, 96, 257, 123456789 come back unchanged |
| Codec.BufferUsage | src/test/main.cpp:21-67 | after the widths 2, 1, 1, 4, 1, 7, 16, 32, bytesUsed() and the size of str() are 1, 1, 1, 1, 2, 2, 4, 8, whatever the values |
| Codec.WriteCounted | include/OBitStream.h:195-217 | after a write that fits, bytesUsed() equals the size of str() and is the bits written rounded up to bytes |
| Codec.AlternatingBits | src/test/main.cpp:135-149 | writing 1 in 2 bits then 1398101 in 22 bits gives bytesUsed() 1 then 3 and the bytes 0x55 0x55 0x55 |
| Codec.WriteBytesShows | include/cpputil/BitWriter.h:157-158 | with the corrected writeBytes a written byte shows up in str() |
| Codec.ReadersAgree | include/cpputil/BitReader.h:4-8 | over the same bytes, BitReader and IBitStream give the same results for the same read/skip calls |
| Codec.Step | include/cpputil/BitReader.h:25-55 | one read or skip on both readers gives the same result and keeps their pending bits equal |
| Tokenizer.Tokenize | include/StringTokenizer.h:12-28 | the nested loops, with size_t arithmetic in `substr`, compute exactly `Tokens(text, delims)` |
| Tokenizer.MatchDelims | include/StringTokenizer.h:18-25 | the inner loop pushes one token per delimiter matching the character, and moves `last_pos` past it on a match |
| Tokenizer.Tokens | include/StringTokenizer.h:27-28 | the result is never empty |
| Tokenizer.FirstDelim | include/StringTokenizer.h:16-25 | the first delimiter position: delimiter-free before it |
| Tokenizer.TokenCount | include/StringTokenizer.h:16-28 | the number of tokens is 1 plus the number of (character, delimiter) matches |
| Tokenizer.TokenCountDistinct | include/StringTokenizer.h:16-28 | with distinct delimiters, the number of tokens is 1 plus the number of delimiter positions in the text |
| Tokenizer.TokensHaveNoDelims | include/StringTokenizer.h:16-25 | with distinct delimiters, no token contains a delimiter character |
| Tokenizer.JoinTokens | include/StringTokenizer.h:22-28 | with distinct delimiters, joining the tokens with the separating delimiters gives the text back |
| Tokenizer.EmptyText | include/StringTokenizer.h:27-28 | an empty text gives one empty token |
| Tokenizer.NoDelimiters | include/StringTokenizer.h:18 | an empty delimiter string gives the whole text as the only token |
| Tokenizer.AdjacentDelimiters | include/StringTokenizer.h:20-23 | adjacent delimiters and delimiters at the ends give empty tokens |
| Tokenizer.DefaultSplitsOnSpace | include/StringTokenizer.h:12 | the default delimiter string is a single space |
| Tokenizer.RepeatedDelimiter | include/StringTokenizer.h:20-23 | a delimiter listed twice also pushes the rest of the text, because the length wraps |
| Parameters.GenericParameters.GetInt | include/cpputil/GenericParameters.h:11-17 | engaged exactly when the name is in the int map, holding its value |
| Parameters.GenericParameters.GetUint | include/cpputil/GenericParameters.h:19-25 | engaged exactly when the name is in the uint map, holding its value |
| Parameters.GenericParameters.GetBool | include/cpputil/GenericParameters.h:27-33 | engaged exactly when the name is in the bool map, holding its value |
| Parameters.GenericParameters.GetDouble | include/cpputil/GenericParameters.h:35-41 | engaged exactly when the name is in the double map, holding its value |
| Parameters.GenericParameters.GetString | include/cpputil/GenericParameters.h:43-49 | engaged exactly when the name is in the string map, holding its value |
| Parameters.GenericParameters.SetInt | include/cpputil/GenericParameters.h:51-54 | the getter then yields the value whatever was stored before; other names and the other four maps are unchanged |
| Parameters.GenericParameters.SetUint | include/cpputil/GenericParameters.h:56-59 | as SetInt, for the uint map |
| Parameters.GenericParameters.SetBool | include/cpputil/GenericParameters.h:61-64 | as SetInt, for the bool map |
| Parameters.GenericParameters.SetDouble | include/cpputil/GenericParameters.h:66-69 | as SetInt, for the double map |
| Parameters.GenericParameters.SetString | include/cpputil/GenericParameters.h:71-74 | as SetInt, for the string map |
| Parameters.GenericParameters.constructor | include/cpputil/GenericParameters.h:76-80 | a new object has every map empty, so every getter answers none |
| Parameters.SameNameScenario | include/cpputil/GenericParameters.h:76-80 | the maps are independent: an int and a string under one name are both kept, the last int set wins, and unset names are absent |
| Averages.Newest | include/RunningAverageQueue.h:27-29 | the window is a suffix of the history, at most max_size long, and as long as the history while it is shorter |
| Averages.PushedNewest | include/RunningAverageQueue.h:27-29 | push_back then pop_front when oversized turns the window of a history into the window of the history extended by the value |
| Averages.Average | include/RunningAverageQueue.h:31 | the average times the size is at most the total, and one more than the average times the size exceeds it (unsigned division) |
| Averages.Total | include/RunningAverageQueue.h:31 | the sum as the division sees it: the sum itself whenever it fits in 32 bits |
| Averages.SumUpto | src/test/main.cpp:172-189 | twice the sum of 0..n-1 is n(n-1) |
| RunningAverageQueues.RunningAverageQueue.constructor | include/RunningAverageQueue.h:16-21 | an empty window and an average of 0 |
| RunningAverageQueues.RunningAverageQueue.GetAverage | include/RunningAverageQueue.h:23 | 0 before the first insert, otherwise the window's average |
| RunningAverageQueues.RunningAverageQueue.Insert | include/RunningAverageQueue.h:25-32 | the window becomes the newest max_size values of the history extended by t, never longer than max_size, ending with t, and the average is recomputed for it |
| RunningAverageQueues.Create | include/RunningAverageQueue.h:16-21 | fails with "Bad size" exactly when max_size is 0; otherwise an empty queue with average 0 |
| RunningAverageQueues.ZeroToNine | src/test/main.cpp:172-189 | inserting 0..9 into a queue of max_size 20 gives the average 4 |
| UtilRunningAverageQueues.RunningAverageQueue.constructor | include/cpputil/RunningAverageQueue.h:16-21 | an empty window and an average of 0 |
| UtilRunningAverageQueues.RunningAverageQueue.Elements | include/cpputil/RunningAverageQueue.h:23-31 | begin() to end() run over the newest max_size values inserted since the last clear, oldest first |
| UtilRunningAverageQueues.RunningAverageQueue.Size | include/cpputil/RunningAverageQueue.h:35 | never more than max_size; the number of values since the last clear while that is smaller |
| UtilRunningAverageQueues.RunningAverageQueue.Empty | include/cpputil/RunningAverageQueue.h:34 | true exactly when size() is 0, i.e. nothing was inserted since the last clear |
| UtilRunningAverageQueues.RunningAverageQueue.GetAverage | include/cpputil/RunningAverageQueue.h:37 | the window's average while the window is not empty |
| UtilRunningAverageQueues.RunningAverageQueue.Clear | include/cpputil/RunningAverageQueue.h:33 | empties the window and leaves the stored average as it was |
| UtilRunningAverageQueues.RunningAverageQueue.Insert | include/cpputil/RunningAverageQueue.h:41-48 | keeps the newest max_size values, evicting from the front, and recomputes the average |
| UtilRunningAverageQueues.Create | include/cpputil/RunningAverageQueue.h:16-21 | fails with "Bad size" exactly when max_size is 0; otherwise an empty queue |

## Left out

- The private `doWrite` helpers of `BitWriter` and `OBitStream`: nothing calls them.
- The `#if 0` block of `OBitStream::write`, the unreachable big-endian `assert(false)` branches, and every `LOG`/`DLOG`/`VLOG` line.
- `Buffer` (a `boost::shared_array` wrapper) is not part of this model. A `Buffer` is a plain byte sequence or array, so sharing, reference counts and lifetime are not modelled. `BitWriter::data()` is `str()`.
- `OBitStream`'s backing `Buffer` is an `array` that growth replaces. A buffer passed to `OBitStreams.OBitStream.FromBuffer` and later shared with other owners is not tracked.
- The 32-bit unsigned arithmetic of buffer sizes is not modelled. Every class requires `8 * size < 2^32`, so `size << 3` and the bit counts derived from the buffer cannot overflow. `OBitStreams.OBitStream.Write` and `Write8Bits` also require that the grown size fits, and `Codec.Encode` / `Codec.RoundTrip` require `8 * (size + total width) < 2^32`, which keeps every growth within that bound.
- IBitStreams.IBitStream.ReadBytes, IBitStreams.IBitStream.SkipBytes, BitReaders.BitReader.ReadBytes, BitReaders.BitReader.SkipBytes: model the guard the byte count evidently intends (`8 * n` compared unwrapped). For counts of 2^29 bytes or more, the source's wrapped `uiBytes << 3` can accept a call that these reject; `Reading.SkipBytesAsWritten` models that behaviour (see Findings). The copy past the end of the buffer that readBytes then makes is not modelled.
- `BitWriters.BitWriter.Write`, `OBitStreams.OBitStream.Write`, `Cursor.Pack`: require a width of at most 32, because wider widths make the shift in the source undefined.
- `IBitStreams.IBitStream.Read64`, `Read32` and `BitReaders.BitReader.Read32`: require a width of at most the output width. The source does not check this, and wider reads lose bits in `<<=`.
- `IBitStreams.IBitStream.PeekAtCurrentByte`, `BitReaders.BitReader.PeekAtCurrentByte`: require the cursor to be inside the buffer. Peeking at the end reads past it in the source.
- `OBitStreams.OBitStream.constructor`, `OBitStreams.OBitStream.FromBuffer`: require a buffer of at least 1 byte; an empty `Buffer` (a default-constructed one, or size 0) is not modelled. On an empty buffer the growth rule `max(2*size, 2*(size + n/8))` makes room for a write of 8 or more bits but leaves 0 bytes for a narrower one.
- `IBitStreams.IBitStream.FromString`: requires every character to be a byte. Strings are byte strings in C++.
- `Codec.ReadersAgree`: covers the 32-bit read and `skipBits` only. The other calls are the same shared loops and conditions in both classes.
- `Tokenizer.Tokenize`: requires the text to be shorter than the largest `size_t`. The `trim == true` path (`boost::algorithm::trim`) is not modelled.
- The standard deviation of the cpputil `RunningAverageQueue` (`sqrt` on doubles) and the `R = double` instantiations are left out, because they are floating point. Only `T = R = uint32_t` is modelled.
- `RunningAverageQueues.RunningAverageQueue.Insert`, `UtilRunningAverageQueues.RunningAverageQueue.Insert`: require the window size to fit in a `uint32_t`, the type it is cast to before the division.
- `UtilRunningAverageQueues.RunningAverageQueue.Elements`: `begin()`/`end()` are modelled as the sequence they traverse. Iterators and writes through them are not modelled.
- The constructors that throw `invalid_argument` are modelled by `Create`, which returns a failure; the class constructors require a positive size.
- `GenericParameters` stores doubles as `real`, since a double is only stored and handed back.
- The service, console, file, clock, random and utility headers are not part of this model (threads, signals, file I/O, time and floating point).

## Findings

| source | as written | input that shows it | evidently intended | confidence | as-written member | corrected member |
|---|---|---|---|---|---|---|
| include/OBitStream.h:185-193 | `writeBytes` copies the bytes at the cursor but does not advance `m_uiCurrentBytePos` | a fresh `OBitStream(12)`, `writeBytes` of one byte 0xAB: it returns true, yet `bytesUsed()` is 0 and `str()` is empty, and the next write ORs into the same byte | advance the cursor by the number of bytes, as `BitWriter::writeBytes` does at include/cpputil/BitWriter.h:158 | not executed | OBitStreams.WriteBytesLosesBytes | OBitStreams.OBitStream.WriteBytes |
| include/cpputil/IBitStream.h:208-221 | `skipBytes` (and `readBytes`, in IBitStream.h and BitReader.h alike) computes `uiBits = uiBytes << 3` as a uint32, compares the wrapped count with the bits remaining, then moves the cursor by all `uiBytes` | a stream with no bits left, `skipBytes(0x20000000)`: `uiBits` wraps to 0, the call returns true and the cursor moves 2^29 bytes past the end; `readBytes` with the same count copies from past the end | reject any byte count whose bits do not remain | not executed | Reading.SkipBytesRunsPastEnd | IBitStreams.IBitStream.SkipBytes |
