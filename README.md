# chowimg block decoder in Dafny

This project models the decompressor that `chowimg.py` uses for the
compressed images of a game asset archive. The format is LZ77-style and has
three layers:

- **VLL** (`load_vll`): variable-length unsigned integers seeded by a
  4-bit nibble. A seed of 15 is an escape: bytes are added to it for as long
  as the byte just added is 255.
- **Hunk** (`load_hunk`): a 4-byte little-endian payload length followed by
  subhunks. Each subhunk is a control byte, then the literal count (a VLL
  seeded by the high nibble) and that many literal bytes. Unless the payload
  is used up at that point, it continues with a 2-byte little-endian rewind
  distance and a replay length (a VLL seeded by the low nibble, plus 4). The
  replay is copied one byte at a time from `rewind` bytes back, so a copy may
  read its own output.
- **Image** (`load_img`): hunks decoded one after another and concatenated
  until the bytes consumed reach a compressed length the caller supplies.

The Python file object becomes an immutable byte sequence (`seq<Byte>`) plus a
cursor. Each operation takes the cursor and returns the cursor after what it
read. A failed `struct.unpack` on a short read becomes the error
`TruncatedInput`. A replay whose source lies outside the bytes decoded so far
becomes the error `WindowStartPastEnd` (rewind 0) or `NegativeWindowStart`
(rewind larger than the output).

Each loop of the source is a `method` with a `while` or `for` loop:
`Vll.LoadVll`, `Hunk.AppendLiterals`, `Hunk.AppendReplay`, `Hunk.LoadHunk` and
`Image.LoadImg`. Four of them are proved equal to a recursive specification
function: `Vll.LoadVll` to `Vll.Decode`, `Hunk.AppendReplay` to `Hunk.Replay`,
`Hunk.LoadHunk` to `Hunk.DecodeHunk` (whose loop is `Hunk.HunkLoop`) and
`Image.LoadImg` to `Image.DecodeImage`. `Hunk.AppendLiterals` is proved to
append exactly the input slice `input[cursor..cursor + count]`, or to fail with
`TruncatedInput`. The format's properties are lemmas about those functions.

Files:

- `wire.dfy` (module `Wire`): bytes, errors, `Result`, and the `"<H"`/`"<I"` field reads.
- `vll.dfy` (module `Vll`): `load_vll`.
- `hunk.dfy` (module `Hunk`): `load_hunk`.
- `image.dfy` (module `Image`): `load_img`.
- `scenarios.dfy` (module `Scenarios`): two small inputs decoded exactly.

## Model

| member | source | states |
|---|---|---|
| Wire.ReadU16 | chowimg.py:58 | The 2-byte field read fails with TruncatedInput exactly when fewer than 2 bytes remain. Otherwise it advances the cursor by 2. |
| Wire.ReadU32 | chowimg.py:38 | The 4-byte payload length read fails with TruncatedInput exactly when fewer than 4 bytes remain. Otherwise it advances the cursor by 4. |
| Wire.ReadU16IsLittleEndian | chowimg.py:58 | The rewind distance is the little-endian number its 2 bytes stand for. It is below 256^2, and its 2-byte little-endian representation is those bytes. |
| Wire.ReadU32IsLittleEndian | chowimg.py:38 | The payload length is the little-endian number its 4 bytes stand for. It is below 256^4, and its 4-byte representation is those bytes. |
| Vll.Escape | chowimg.py:27-31 | The escape loop fails only with TruncatedInput. When it succeeds it consumes at least one byte, all within the input. |
| Vll.Decode | chowimg.py:23-32 | A VLL decode fails only on a short read. With seed 15, what it consumes lies within the input. |
| Vll.EscapeCharacterization | chowimg.py:27-31 | A successful escape read consumes a complete escape run (255s closed by a non-255 byte) and returns its byte sum. A failed one means every remaining byte is 255. |
| Vll.EscapeRunUnique | chowimg.py:27-31 | Any complete escape run at the cursor is exactly the one the loop reads: same count, same sum. |
| Vll.DecodeSeedOnly | chowimg.py:23-26 | A seed below 15 is the value itself, and no byte is consumed. |
| Vll.DecodeEscaped | chowimg.py:26-32 | With seed 15 the decode succeeds exactly when a complete escape run follows. The value is then 15 plus the run's byte sum and the count is the run's length (at least 1). Every byte of the run but the last is 255, and the last is not. |
| Vll.DecodeAgree | chowimg.py:23-32 | A VLL decode reads no byte past the ones it counts. |
| Vll.LoadVll | chowimg.py:23-32 | The loop returns exactly what Decode specifies, including the TruncatedInput error. |
| Hunk.Replay | chowimg.py:65-66 | The replay keeps the output as a prefix and grows it by exactly n bytes. |
| Hunk.ReplayAppends | chowimg.py:65-66 | After a replay, each appended byte equals the byte rewind positions before it, and the earlier output is unchanged. |
| Hunk.ReplayPeriodic | chowimg.py:59-66 | The i-th replayed byte is the byte at len - rewind + (i mod rewind) of the output before the replay. The copy is periodic with period rewind even where it overlaps itself. |
| Hunk.Literals | chowimg.py:46-52 | The literal half advances the cursor by exactly the bytes it counts, only appends to the output, and stays within the input. |
| Hunk.Window | chowimg.py:58-66 | The replay half advances the cursor by exactly the bytes it counts, a positive number, only appends to the output, and stays within the input. |
| Hunk.Subhunk | chowimg.py:43-66 | Every subhunk increases bytes_read, so the hunk loop terminates. The cursor moves by exactly the bytes counted, and the output only grows. |
| Hunk.SubhunkAppendsLiterals | chowimg.py:50-52 | A subhunk leaves earlier output untouched and next appends the literal bytes verbatim, in order, from just after the control byte and the count's escape bytes. |
| Hunk.SubhunkStopsAfterLiterals | chowimg.py:54-55 | If bytes_read reaches the payload length after the literals, the subhunk reads no rewind or replay-length bytes, and the hunk loop stops there. |
| Hunk.WindowReplays | chowimg.py:58-66 | A replay reads a little-endian 16-bit rewind and appends exactly VLL + 4 (so at least 4) bytes. Each appended byte equals the byte rewind positions before it, and the cursor and bytes_read are exact. |
| Hunk.WindowRejectsBadRewind | chowimg.py:59-66 | Once both fields are read, rewind 0 gives WindowStartPastEnd and a rewind beyond the output gives NegativeWindowStart. Every other rewind succeeds (each as an if-and-only-if). |
| Hunk.HunkLoop | chowimg.py:42-66 | The `while bytes_read < hunk_len` loop: subhunk after subhunk from a state. When it succeeds, bytes_read has reached at least the payload length and never went below where it started. |
| Hunk.SubhunkThenLoop | chowimg.py:43-66 | One pass of the loop body followed by the rest of the loop. When it succeeds, bytes_read has strictly grown and reached the payload length. |
| Hunk.HunkLoopInvariant | chowimg.py:42-66 | The hunk loop ends with bytes_read >= payload length. The cursor moves by exactly bytes_read, and the output only grows. |
| Hunk.DecodeHunk | chowimg.py:35-71 | A decoded hunk reports at least the 4 bytes of its length field. |
| Hunk.DecodeHunkAccounting | chowimg.py:38-71 | load_hunk returns bytes_read + 4, which is exactly how far the cursor moved. That count is at least the little-endian payload length + 4, and a zero payload gives an empty hunk. |
| Hunk.LiteralsAgree | chowimg.py:46-52 | The literal half reads only the bytes it consumes. |
| Hunk.WindowAgree | chowimg.py:58-66 | The replay half reads only the bytes it consumes. |
| Hunk.SubhunkAgree | chowimg.py:43-66 | A subhunk reads only the bytes it consumes. |
| Hunk.HunkLoopAgree | chowimg.py:42-66 | The hunk loop reads only the bytes it consumes. |
| Hunk.DecodeHunkAgree | chowimg.py:35-71 | A hunk decodes the same from any input that agrees up to where the hunk ends. |
| Hunk.AppendLiterals | chowimg.py:50-52 | The literal copy appends exactly the count bytes at the cursor. It fails with TruncatedInput when they are not all there. |
| Hunk.AppendReplay | chowimg.py:65-66 | The byte-by-byte copy loop computes Replay. |
| Hunk.LoadLiterals | chowimg.py:46-52 | The literal half of the loop body returns exactly Literals. |
| Hunk.LoadWindow | chowimg.py:58-66 | The replay half of the loop body returns exactly Window. |
| Hunk.LoadSubhunk | chowimg.py:43-66 | One pass of the loop body returns exactly Subhunk. |
| Hunk.LoadHunk | chowimg.py:35-71 | load_hunk returns exactly DecodeHunk, including every error. |
| Image.DecodeImage | chowimg.py:77-83 | The `while total_bytes_read < compressed_len` loop: the next hunk's bytes followed by the rest of the image. When it succeeds, the running total has reached at least the compressed length and never went below its start. |
| Image.DecodeImageAccounting | chowimg.py:77-83 | Decoding stops once the running total reaches at least the compressed length. The total equals the bytes the cursor moved over, and with nothing left to consume nothing is read. |
| Image.DecodeImageSplits | chowimg.py:77-83 | If the hunks covering one length end exactly at it, decoding a longer length yields those hunks' bytes followed by the rest. |
| Image.DecodeImageAgree | chowimg.py:73-86 | An image decodes the same from any input that agrees up to where the image ends. |
| Image.LoadImg | chowimg.py:73-86 | load_img succeeds exactly when DecodeImage does. It returns the in-order concatenation of the hunks, and an error otherwise. |
| Scenarios.SingleLiteralImage | chowimg.py:35-86 | The 6-byte input with payload length 2, control byte 0x10 and literal 0x7F decodes to the single byte 0x7F, both as a hunk and as an image. |
| Scenarios.OverlappingReplayImage | chowimg.py:35-86 | A literal 'A' followed by a minimum replay of 4 from rewind 1 decodes to five 'A's, both as a hunk and as an image of 8 compressed bytes. |

## Left out

- The verbose `print` calls and the `hunk_count` statistics (chowimg.py:21, 68-69, 76-84) are diagnostic output and are not modelled.
- The `__main__` command-line block of chowimg.py (88-151) is not part of this model: option parsing, file size via `seek`/`tell`, and image output through PIL.
- The file object is a byte sequence plus a cursor. Reading past the end is the error `TruncatedInput`. Other I/O failures are not modelled.
- Hunk.WindowRejectsBadRewind: a rewind beyond the current output is an error here. In chowimg.py, when len(hunk) < rewind <= 2 * len(hunk), the copies use negative indices that Python wraps around into the hunk, and the replay succeeds with those bytes. That accidental wrap-around is not reproduced. For a larger rewind, or any rewind into an empty hunk, the first copy raises an index error in Python too.
- Hunk.WindowRejectsBadRewind: a rewind of 0 is an error (the source would raise an index error on the first copy). The error is reported after the replay-length VLL has been read, which is where the code fails.
- A decoder could check the window before reading the replay length. This one does not: the code reads both fields before it copies anything, so a bad rewind followed by a truncated replay length is reported as TruncatedInput, and the model follows the code.
- One literal followed by a three-byte replay cannot be encoded. The code adds 4 to every replay length, so no replay is shorter than 4 bytes (Hunk.WindowReplays). Scenarios.OverlappingReplayImage uses the shortest legal replay instead.
- The 65536-byte bound on a hunk's output is a property of the encoder, not of this decoder. The decoder accepts any hunk, and the model does the same.
- bytes_read may overshoot the payload length, and the image total may overshoot the compressed length. Both are accepted, as in the code; the lemmas state `>=`.
- There is no encoder. The compressor branch of chowimg.py is empty, so no encoder, VLL encoder or encode/decode round trip is modelled.
- Python integers are unbounded, and so are the model's `nat` values. A VLL value has no width limit in either.
