# git pack recompressor: a Dafny model of `transform`

`transform` makes one forward pass over a git pack stream (pack format version 2) read
from standard input. It runs in one of two directions. Decompressing, it inflates every
object's zlib payload. Compressing, it deflates every payload. Every other byte is copied
unchanged, and the 20-byte SHA-1 trailer is replaced by the digest of what was written.

The pass has five stages:

1. The 12-byte header is checked and echoed: `"PACK"`, big-endian version 2, and a
   big-endian object count.
2. Each object's type/size varint is decoded and echoed:
   - the first byte holds a continuation bit, a 3-bit type tag and 4 size bits;
   - each further byte adds 7 size bits, from bit 4 up.
3. The delta base is passed through:
   - a ref-delta has a 20-byte base id;
   - an ofs-delta has a high-bit varint;
   - other types have no base.
4. The payload is transcoded, and its size is checked:
   - decompressing, the decoder must produce exactly the declared size;
   - compressing, the encoder must read exactly the declared size.
5. The old trailer is read and dropped. The digest of everything written through the
   hashing sink goes straight to standard output, and the pass fails if input is left
   over.

All output goes through `HashingWrite`, a sink that feeds every buffer to the hasher and
then forwards it.

The project has two halves plus a set of properties:

- **Reference definition** (`pack_spec.dfy`, module `PackSpec`). It is written as
  functions over the whole input: `PackHeader`, `ObjectHeader`, `DeltaRef`,
  `ObjectMeta`, `Payload`, `ObjectAt`, `Objects`, `Trailer` and `Run`. Each one says where
  its stage leaves the read position and exactly which bytes it writes, including when
  the stage fails.
- **Imperative model** (`streams.dfy`, `transform.dfy`). Standard input is an
  `InputStream` cursor. Standard output is a `Stdout` log, the hasher is a `Sha1` log of
  what it absorbed, and `HashingWrite` wraps the two. `Transform` and its stage methods
  move the cursor and write through the sink as `transform` does. The two varint loops
  and the object loop keep the shape they have in `transform`.
  - Each method is proved to read and write exactly what its `PackSpec` function says.
  - `Transform.Transform` is proved equal to `PackSpec.Run`.
- **Properties** (`properties.dfy`). The pack-level properties are lemmas about `Run`,
  listed below.

`bytes.dfy` holds bytes, big-endian 32-bit values and high-bit runs. `object_type.dfy`
holds the `object_type` enumeration and `from_u8`. `codecs.dfy` holds the zlib and
SHA-1 collaborators.

Modelling decisions:

- **Bytes.** A byte is an integer in 0..255. The bit operations of `transform` are written as
  arithmetic: `b >> 7` is `b / 128`, `(b >> 4) & 7` is `b / 16 % 8`, `b & 0xf` is
  `b % 16` and `b & 0x7f` is `b % 128`.
- **The u64 size.** `size` is kept modulo 2^64.
  - The shift `(b & 0x7f) << offset` drops every bit from 64 up.
  - The chunks of different bytes never overlap, so the addition never carries.
  - Together, this makes the decoded size `HeaderSize(bytes) % 2^64`.
  - `Properties.NoTruncation` proves that a header of at most nine bytes is never
    truncated.
- **Failures.** `transform` panics on some errors (`assert!`, `expect`) and returns an
  `io::Error` on others. Both end the pass, and both are modelled as `Failure(error)`.
  - Panics: `BadMagic`, `UnsupportedVersion`, `ShiftOverflow`, `UnknownObjectType`,
    `SizeMismatch`.
  - `io::Error`s: `Eof`, `DecoderError`, `TrailingData`.
  - Everything written before the failure stays written, and the model states it byte
    for byte.
- **Collaborators.** zlib and SHA-1 are function values in `Codecs.Env`.
  - `Codecs.WellBehaved` says that a reader-based codec never pulls more bytes than its
    reader holds.
  - `Codecs.SelfTerminating` says that a decode which stopped before the end of its
    input is unchanged by bytes appended to that input. Only the appended-data property
    needs it, and only for payloads that end before the input does, as every payload
    followed by the 20 trailer bytes does.
  - The direction of the pass is the boolean `doEnflate`, as in `transform(do_enflate)`.

## Where the code and the format description differ

- **Type tag 0.** The pack format treats it as invalid, but `from_u8` maps it to
  `OBJ_NONE`. Such an object is then processed like any non-delta object. The model
  follows the code: only tag 5 fails (src/main.rs:28, 83).
- **Shift overflow.** `offset` has no bound in the code. The tenth continuation byte
  would be shifted by 67 bits, which a debug build refuses after reading and echoing
  that byte. The model stops there with `ShiftOverflow`, so a header holds at most nine
  continuation bytes (src/main.rs:76-81).

## Model

| member | source | states |
|---|---|---|
| Bytes.BE32RoundTrip | src/main.rs:62-66 | reading back the four big-endian bytes that `write_u32` writes gives the value |
| Bytes.BE32Canonical | src/main.rs:62-66 | writing back a value read by `read_u32` gives the same four bytes, so echoing the count copies its input bytes |
| ObjectTypes.FromU8 | src/main.rs:24-39 | `from_u8` succeeds exactly on 0-4 and 6-9, and its result has the discriminant it was given |
| ObjectTypes.FromU8Discriminant | src/main.rs:24-39 | every enumerator except `OBJ_BAD` comes back from its own discriminant |
| ObjectTypes.TagLookup | src/main.rs:73-83 | on a 3-bit tag the lookup fails only for 5 and maps 0, 1, 2, 3, 4, 6, 7 to NONE, COMMIT, TREE, BLOB, TAG, OFS_DELTA, REF_DELTA |
| PackSpec.PackHeader | src/main.rs:57-66 | the header goes on exactly when the input holds 12 bytes, starts with "PACK" and has version 2; it then writes the 12 input bytes; a bad magic writes nothing and a bad version writes only "PACK" |
| PackSpec.HeaderSizeBound | src/main.rs:74-81 | an n-byte object header carries a size below 2^(4 + 7(n - 1)) |
| PackSpec.ObjectHeaderCases | src/main.rs:70-82 | a complete header of at most ten bytes ends at the first byte with bit 7 clear, has tag `(b0 >> 4) & 7` and the u64 size of its bytes; otherwise the input ends on a run of high-bit bytes, or a tenth continuation byte is refused |
| PackSpec.DeltaRefCases | src/main.rs:85-96 | a ref-delta base is 20 bytes; an ofs-delta base runs up to and including the first byte with bit 7 clear, so it is at least one byte; other types have no base; the only failure is the end of the input |
| PackSpec.ObjectMetaCases | src/main.rs:70-96 | an object's metadata is at least one byte and names one of the seven types a 3-bit tag can carry; it fails only on a short input, an overlong size, or tag 5 |
| PackSpec.PayloadCases | src/main.rs:97-111 | everything the codec produced is written; decompressing goes on exactly when the decoder succeeds with `size` bytes of output; compressing reads at most `size` bytes and goes on exactly when it read all `size` |
| PackSpec.ObjectAtEchoesMeta | src/main.rs:70-96 | every header and delta-base byte an object consumed is written unchanged and in order, before its payload, whether or not the object then fails |
| PackSpec.Trailer | src/main.rs:117-128 | the trailer is never hashed; success exactly when the input ends right after the 20 trailer bytes; otherwise the remaining count is reported, always after the digest was written; a short trailer writes nothing more |
| PackSpec.Run | src/main.rs:54-129 | the output is what was hashed, possibly followed by the digest of exactly that; success writes the digest |
| Properties.DigestWrittenIffTrailerRead | src/main.rs:117-127 | the digest of the hashed bytes follows them on the output exactly when the pass succeeded or stopped on trailing data, since the remaining bytes are counted only after the digest was written |
| Streams.InputStream.ReadU8 | src/main.rs:77 | `read_u8` returns the byte at the cursor and advances, or reports the end of the input |
| Streams.InputStream.ReadExact | src/main.rs:58 | `read_exact` returns the next n bytes and advances by n, or fails when fewer remain |
| Streams.InputStream.ReadU32BE | src/main.rs:62-65 | `read_u32::<BigEndian>` returns the big-endian value of the next four bytes |
| Streams.InputStream.CountRemaining | src/main.rs:123 | `bytes().count()` consumes and counts every byte left |
| Streams.HashingWrite.Write | src/main.rs:15-18 | the hasher absorbs the buffer, then the destination receives it: both logs grow by exactly the buffer |
| Streams.HashingWrite.WriteU8 | src/main.rs:78 | `write_u8` through the sink: both logs grow by exactly that one byte |
| Streams.HashingWrite.WriteU32BE | src/main.rs:63-66 | `write_u32::<BigEndian>` through the sink: both logs grow by exactly the four big-endian bytes of the value |
| Streams.Sha1.Input | src/main.rs:16 | `input` appends the buffer to what the hasher has absorbed |
| Streams.Stdout.Write | src/main.rs:17 | a write to standard output appends the whole buffer to what it holds |
| Streams.HashingWrite.Flush | src/main.rs:19-21 | flushing changes neither what was hashed nor what was written |
| Transform.ReadPackHeader | src/main.rs:57-66 | the header stage reads and writes exactly what `PackHeader` says and returns the object count |
| Transform.HeaderLoopIsObjectHeader | src/main.rs:76-82 | the `while cont == 1` loop, from any state it reaches, computes the header `ObjectHeader` describes |
| Transform.ReadObjectHeader | src/main.rs:70-82 | the varint loop returns `ObjectHeader` and echoes exactly the bytes it consumed |
| Transform.OfsLoopIsDeltaRef | src/main.rs:92-95 | the ofs-delta loop, from any state it reaches, consumes the base `DeltaRef` describes |
| Transform.PassDeltaRef | src/main.rs:85-96 | the delta-base stage returns `DeltaRef` and echoes exactly the bytes it consumed |
| Transform.TranscodePayload | src/main.rs:97-111 | the payload stage writes the codec's output and ends as `Payload` says |
| Transform.ReadObjectMeta | src/main.rs:70-96 | header, type lookup and delta base together return `ObjectMeta` and echo its bytes |
| Transform.TransformObject | src/main.rs:70-111 | one iteration of the object loop does exactly what `ObjectAt` says |
| Transform.ObjectsHalted | src/main.rs:69 | once an object fails, the pass stops: no later object is read |
| Transform.TransformObjects | src/main.rs:69-116 | the object loop does exactly what `Objects` says for `count` objects |
| Transform.ReplaceTrailer | src/main.rs:117-128 | the trailer stage does exactly what `Trailer` says, and the digest bypasses the hasher |
| Transform.Transform | src/main.rs:54-129 | the whole pass ends with the status, output and hashed bytes that `Run` gives |
| Properties.BadMagicWritesNothing | src/main.rs:57-60 | the pass fails with a bad magic exactly when the first four bytes are not "PACK", and then nothing has been written |
| Properties.BadVersionWritesMagic | src/main.rs:62-63 | the pass fails with an unsupported version exactly when "PACK" is followed by a version other than 2 and has written only "PACK" |
| Properties.ObjectsErrors | src/main.rs:69-111 | an object can stop the pass only at the end of the input, on an overlong size, on tag 5, on a decoder error, or on a size mismatch |
| Properties.HeaderEchoed | src/main.rs:57-66 | once the header is good, the output starts with the 12 input header bytes, whatever follows |
| Properties.WorkedExample | src/main.rs:70-83 | `0x93 0x05` decodes to type 1 (commit) and size 83 in two bytes |
| Properties.NoTruncation | src/main.rs:74-81 | a header of at most nine bytes has its size held exactly by the u64 |
| Properties.ObjectsExtend | src/main.rs:69-111 | objects that convert cleanly convert the same way when more input follows, given a self-terminating decoder and a last object that ends before the input does |
| Properties.AppendedDataReported | src/main.rs:117-128 | bytes appended to a pack that converts cleanly fail the pass with their count, after the same output, digest included |
| Properties.EmptyPack | src/main.rs:54-129 | a header for zero objects plus any 20-byte trailer succeeds, and its output is the header followed by the digest of the header |
| Properties.EmptyPackTrailingByte | src/main.rs:123-127 | the same pack with one more byte fails, reporting one remaining byte |

## Left out

- zlib: `ZlibDecoder` and `ZlibEncoder` are parameters. The model states only that they read no more than their reader holds and report what they consumed and produced. No compress/decompress round trip is claimed.
- SHA-1: the hash is an uninterpreted function from the absorbed bytes to 20 bytes. `Streams.Sha1.Result`, the hasher's `result`, only applies that function to what was absorbed.
- Error values: `UnsupportedVersion`, `UnknownObjectType` and `SizeMismatch` carry the version, the tag and the two sizes so that the model can state them. The panic messages of `transform` ("unknown version", "unknown type", "size mismatch", "enc size mismatch") do not include them.
- Standard error: the progress messages go to standard error and are not modelled.
- `main` and argument parsing: the direction is the boolean parameter `doEnflate`.
- Short writes: every write is write-all, and the ignored `write` counts are not modelled.
- I/O errors: only the end of the input is modelled as an error. Other read or write errors, and codec read errors other than the decoder's own error, are left out.
- How much of the input a failed `read_exact` consumes is left out. Nothing is read after one fails.
- ShiftOverflow is a debug build's panic. A release build would shift by `offset` mod 64 instead, and that behaviour is not modelled.
- `OBJ_BAD`, `OBJ_ANY` and `OBJ_MAX` exist only in the enumeration: a 3-bit tag can never select them.
