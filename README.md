# Event Message (emsg) decoder

A Dafny model of ExoPlayer's `EventMessageDecoder.decode`. The decoder reads the body of an
Event Message box, as defined in ISO/IEC 23009-1:2014 section 5.10.3.3, with the box header
already removed. It reads the fields in this order, through a `ParsableByteArray` cursor over
the buffer's backing array and its limit:

1. `scheme_id_uri` and `value`, each a NUL-terminated string;
2. `timescale`, `presentation_time_delta`, `event_duration` and `id`, each an unsigned
   32-bit big-endian integer;
3. `message_data`, which is every byte from the cursor up to the limit.

It logs a warning when `presentation_time_delta` is not 0. It rescales the duration to
milliseconds and returns an `EventMessage`.

Files:

- `Wrappers.dfy`: the `Option` and `Result` datatypes.
- `ParsableByteArray.dfy` (module `ParsableBytes`): the cursor.
  - The pure function `StringAt` states what a string read returns and where it leaves the
    cursor. The pure function `U32At` states what an integer read returns; the 4-byte advance is
    stated by `ReadUnsignedInt`.
  - The class `ParsableByteArray` has a `position` field. Its read methods advance `position` in
    place and are proved against those functions.
- `EventMessage.dfy` (module `Emsg`):
  - the wire layout of a box (`EmsgBox`, `Serialize`);
  - the decoded record (`EventMessage`);
  - the errors (`DecodeError`);
  - the decode as a function of the bytes and the limit (`Parse`), and whether it warns
    (`DeltaWarning`);
  - the lemmas about them.
- `EventMessageDecoder.dfy`: the decoder as an imperative method.
  - `ReadLead` does the four opening reads. `Decode` does the rest.
  - `Decode` is proved equal to `Parse` and `DeltaWarning`.

Every exception the Java decoder can throw becomes a `Failure` in the model:

- `MissingString`: a string read returned null, and `Assertions.checkNotNull` threw.
- `ReadPastArray`: an integer read ran off the end of the backing array.
- `ZeroTimescale`: the duration was rescaled by a timescale of 0.
- `HeaderPastLimit`: the cursor ended past the limit, so `Arrays.copyOfRange` got an inverted
  range.

The model follows the code in two places where a plain reading of the format suggests
otherwise:

- A string with no NUL before the limit does not fail by itself. The cursor returns the bytes up
  to the limit and stops there. The decode then fails at a later step, whichever comes first:
  the next string read finds no byte left (`MissingString`), an integer read runs off the array
  (`ReadPastArray`), the timescale read past the limit is 0 (`ZeroTimescale`), or the payload
  range is inverted (`HeaderPastLimit`). See `UnterminatedSchemeFails`, the three `UnterminatedValue` lemmas and `TruncatedHeaderFails`.
- Integer reads are checked only against the backing array, not against the limit. So a header
  that runs past the limit fails at the first of these steps: the timescale or delta read runs
  off the array (`ReadPastArray`, see `ParseFromFailedLead`); then, in the order
  `ParseFailsAfterLead` proves, the duration read runs off the array (`ReadPastArray`), the timescale is 0
  (`ZeroTimescale`), the id read runs off the array (`ReadPastArray`), and otherwise the payload
  copy (`HeaderPastLimit`). Before that, the warning may already have been raised from a delta
  that lies past the limit.

## Model

| member | source | states |
|---|---|---|
| EventMessageDecoder.Decode | library/core/src/main/java/com/google/android/exoplayer2/metadata/emsg/EventMessageDecoder.java:41-58 | The cursor-driven decode of `data` with limit `size` returns exactly `Parse(data[..], size)`: the same record or the same error. Its warning flag is exactly `DeltaWarning`. |
| EventMessageDecoder.ReadLead | library/core/src/main/java/com/google/android/exoplayer2/metadata/emsg/EventMessageDecoder.java:45-49 | The two string reads and the timescale and delta reads, from position 0, give `ParseLead`'s result. On success the cursor stands just past the delta. |
| ParsableBytes.ParsableByteArray.constructor | library/core/src/main/java/com/google/android/exoplayer2/metadata/emsg/EventMessageDecoder.java:45 | A new cursor over the backing array, with the buffer limit as its limit, at position 0. |
| ParsableBytes.ParsableByteArray.ReadNullTerminatedString | library/core/src/main/java/com/google/android/exoplayer2/metadata/emsg/EventMessageDecoder.java:46-47 | The in-place scan returns `StringAt` of the old position: null exactly when no byte is left, with the position unchanged. Otherwise it returns the bytes up to the first NUL or the limit, and the position moves past the NUL when there is one. |
| ParsableBytes.ParsableByteArray.ReadUnsignedInt | library/core/src/main/java/com/google/android/exoplayer2/metadata/emsg/EventMessageDecoder.java:48-49 | Returns `U32At` of the old position and advances exactly 4 bytes on success. It fails exactly when the backing array ends within the four bytes. |
| ParsableBytes.StringAt | library/core/src/main/java/com/google/android/exoplayer2/metadata/emsg/EventMessageDecoder.java:46-47 | None iff the start is at the limit. A start past the limit gives the empty string and leaves the cursor where it is. From a start below the limit the string is the bytes from the start, contains no NUL, and ends either at a NUL inside the limit (the NUL is consumed) or at the limit. |
| ParsableBytes.NulIndex | library/core/src/main/java/com/google/android/exoplayer2/metadata/emsg/EventMessageDecoder.java:46-47 | Returns the first NUL at or after the start within the limit, or the limit when there is none. No byte before it is NUL. |
| ParsableBytes.U32At | library/core/src/main/java/com/google/android/exoplayer2/metadata/emsg/EventMessageDecoder.java:48-49 | None iff fewer than 4 bytes remain in the backing array. Otherwise the value is below 2^32 and its big-endian encoding is exactly the 4 bytes read. |
| ParsableBytes.U32BytesOfBE32 | library/core/src/main/java/com/google/android/exoplayer2/metadata/emsg/EventMessageDecoder.java:48-49 | Round trip of the integer reads: encoding the big-endian value of 4 bytes gives back those bytes. |
| Emsg.ScaleToMs | library/core/src/main/java/com/google/android/exoplayer2/metadata/emsg/EventMessageDecoder.java:55 | The duration in milliseconds is the floor of `duration * 1000 / timescale`. |
| Emsg.ScaleToMsExamples | library/core/src/main/java/com/google/android/exoplayer2/metadata/emsg/EventMessageDecoder.java:55 | Three worked cases. A millisecond timescale leaves 2500 unchanged. 90000 ticks of the 90 kHz clock give 1000 ms. The largest 32-bit duration at 1 Hz gives 4294967295000 ms. |
| Emsg.ScaleToMsFitsInLong | library/core/src/main/java/com/google/android/exoplayer2/metadata/emsg/EventMessageDecoder.java:55 | For a 32-bit duration, the rescaled value is at most `duration * 1000`, which is below 2^63. Every integer intermediate of the helper's usual integer branches (`duration / (timescale / 1000)`, `duration * (1000 / timescale)`) is at most that bound, so the Java `long` cannot overflow. |
| Emsg.ScaleToMsDivides | library/core/src/main/java/com/google/android/exoplayer2/metadata/emsg/EventMessageDecoder.java:55 | When the timescale is a multiple of 1000, the rescale is division by `timescale / 1000`. A timescale of 1000 leaves the duration unchanged. |
| Emsg.ScaleToMsMultiplies | library/core/src/main/java/com/google/android/exoplayer2/metadata/emsg/EventMessageDecoder.java:55 | When the timescale divides 1000, the rescale is the exact multiplication by `1000 / timescale`. |
| Emsg.ParseLayout | library/core/src/main/java/com/google/android/exoplayer2/metadata/emsg/EventMessageDecoder.java:57 | On success the header takes exactly `len(schemeIdUri)+1+len(value)+1+16` bytes, and `messageData` is the rest of the bytes up to the limit (possibly empty). The id is below 2^32. |
| Emsg.ParseSerialized | library/core/src/main/java/com/google/android/exoplayer2/metadata/emsg/EventMessageDecoder.java:46-58 | Round trip: serializing a well-formed box with a non-zero timescale and decoding it gives back its strings, id and payload, and the duration rescaled to ms. This holds whatever lies past the limit. The warning is raised iff the delta is not 0. |
| Emsg.ParseZeroTimescale | library/core/src/main/java/com/google/android/exoplayer2/metadata/emsg/EventMessageDecoder.java:55 | A serialized box with timescale 0 fails with `ZeroTimescale`. |
| Emsg.ParsedIsSerialized | library/core/src/main/java/com/google/android/exoplayer2/metadata/emsg/EventMessageDecoder.java:46-57 | Every successful decode read a well-formed box with a non-zero timescale, and the bytes up to the limit are its layout. So `schemeIdUri` is the bytes before the first NUL, and `value` is the bytes between the first and the second NUL. |
| Emsg.ParseSucceedsIff | library/core/src/main/java/com/google/android/exoplayer2/metadata/emsg/EventMessageDecoder.java:46-57 | A decode succeeds iff the bytes up to the limit are the layout of some well-formed box with a non-zero timescale. |
| Emsg.SerializedPrefix | library/core/src/main/java/com/google/android/exoplayer2/metadata/emsg/EventMessageDecoder.java:43-58 | Bytes whose first `size` bytes are a serialized box decode to that box's record. They warn iff its delta is not 0. |
| Emsg.IgnoresBytesPastLimit | library/core/src/main/java/com/google/android/exoplayer2/metadata/emsg/EventMessageDecoder.java:43-57 | Two backing arrays that agree below the limit either both succeed or both fail. When they succeed, they give the same record and the same warning. |
| Emsg.DeltaIgnored | library/core/src/main/java/com/google/android/exoplayer2/metadata/emsg/EventMessageDecoder.java:49-54 | Changing only the four `presentation_time_delta` bytes of a decodable input leaves the record unchanged. Those bytes decide only the warning, which is raised iff their value is not 0. |
| Emsg.ParseFromFailedLead | library/core/src/main/java/com/google/android/exoplayer2/metadata/emsg/EventMessageDecoder.java:46-49 | A failure among the first four reads is the decode's error, and no warning is raised. |
| Emsg.ParseFailsAfterLead | library/core/src/main/java/com/google/android/exoplayer2/metadata/emsg/EventMessageDecoder.java:50-57 | Once the lead is read, the warning is exactly `delta != 0`. The later errors come in source order: the duration read, the zero timescale, the id read, then the payload range. |
| Emsg.UnterminatedSchemeFails | library/core/src/main/java/com/google/android/exoplayer2/metadata/emsg/EventMessageDecoder.java:46-47 | When no NUL occurs before the last valid byte, the second string read finds nothing, and the decode fails with `MissingString`. |
| Emsg.UnterminatedValueZeroTimescale | library/core/src/main/java/com/google/android/exoplayer2/metadata/emsg/EventMessageDecoder.java:47-55 | A value string that runs to a limit of 3 bytes, followed by 16 zero bytes past the limit, fails with `ZeroTimescale`: the timescale read past the limit is 0. |
| Emsg.UnterminatedValueReadPastArray | library/core/src/main/java/com/google/android/exoplayer2/metadata/emsg/EventMessageDecoder.java:47-55 | The same strings, with only 8 bytes past the limit, fail with `ReadPastArray` at the duration read. |
| Emsg.UnterminatedValueHeaderPastLimit | library/core/src/main/java/com/google/android/exoplayer2/metadata/emsg/EventMessageDecoder.java:47-57 | The same strings, followed by 16 bytes of 1, read every integer past the limit and fail with `HeaderPastLimit` at the payload copy. |
| Emsg.TruncatedHeaderFails | library/core/src/main/java/com/google/android/exoplayer2/metadata/emsg/EventMessageDecoder.java:46-57 | A limit that cuts a serialized box before its payload makes the decode fail. |

## Left out

- The `MetadataInputBuffer` and `ByteBuffer` plumbing and the `Metadata` wrapper (lines 42-44 and 58) are left out. The input is the backing array plus the limit, and the result is the `EventMessage` itself.
- `Log.w` (line 53) is a logging side effect with no result. It is modelled as the returned `warned` flag.
- UTF-8 decoding of the two strings is library code. The strings stay byte sequences.
- The Java classes `ParsableByteArray` and `Util` are not among the source files of this model. The model rebuilds the reads the decoder makes through them, as follows:
  - The cursor reads follow the usual ExoPlayer semantics, as stated in `ParsableBytes`.
  - `Util.scaleLargeTimestamp` is modelled as floor division; see the `Emsg.ScaleToMs` line below.
  - A zero timescale is an error rather than a precondition, because the decoder accepts any bytes.
- Emsg.ScaleToMs: the exact floor of `duration * 1000 / timescale`. For a timescale that neither divides 1000 nor is a multiple of 1000, the helper's usual floating-point branch (the helper is not part of this model) multiplies by a `double` factor `1000.0 / timescale` and truncates. That product can round just below a whole-number quotient, giving one less than the floor. For example, timescale 2997 with duration 2997 can give 999 where the model gives 1000, and timescale 3 with duration 195 can give 64999 where the model gives 65000. The model does not capture this off-by-one; the two integer branches are matched exactly (`ScaleToMsDivides`, `ScaleToMsMultiplies`).
- Exception types: each Java exception is one `DecodeError` constructor. Exception messages and stack traces are not modelled.
- ParsableBytes.ParsableByteArray.ReadUnsignedInt: on a failed read the position stays unchanged, whereas the Java cursor may have advanced part of the way before throwing. The decode aborts there either way, so this is not observable.
- The Java `long` results are unbounded naturals here. `ScaleToMsFitsInLong` shows that no value the decoder computes reaches 2^63.
- The backing array is never written. `data` and `limit` are constant fields of the cursor, and aliasing of the array by other code is not modelled.
