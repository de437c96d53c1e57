# Registry hive header validation, modelled in Dafny

This project models the header validator of the `registry-rs` crate. The
validator takes a candidate Windows registry hive ("regf") file and either
returns a validated `Hive` that owns the open file, or one of three errors:
`CannotOpenHive`, `CannotReadData` or `InvalidHive`. It runs three checks on
the 512-byte base block, in this order:

1. the first four bytes must be the signature `72 65 67 66` ("regf");
2. the primary sequence number (bytes 4..8) must equal the secondary one
   (bytes 8..12), compared as raw bytes;
3. the XOR of the 127 little-endian 32-bit words in bytes 0..508 must equal
   the little-endian word stored at bytes 508..512.

The first check that fails decides the error. A file that ends before a check
has its bytes fails with `CannotReadData`. So does a seek that fails: the seek
back to offset 0 before the checksum pass, or the final rewind. On success
the file is at offset 0 and is handed to the `Hive`.

Files:

- `io.dfy`, module `FileIo`: the part of the standard I/O library the
  validator uses. It has `Option`, `Result` and an `IoError` value (kind and
  message). `Opened` describes a file that opened: its bytes, and for each
  successive seek the error that seek fails with, if any. `File` is a class
  whose `contents` and `seekFaults` are constants. Its read position `pos`
  and its seek count `seeks` are the fields that change. `ReadExact` fills a
  buffer or fails with the end-of-file error "failed to fill whole buffer".
  `SeekStart` moves to an absolute offset, or fails with that seek's fault.
- `hive.dfy`, module `RegistryHive`: the error type and its
  `description`/`cause` mappings, and an explicit little-endian decode that
  stands in for the `byteorder` crate. `XorFold` is the reference definition of the
  checksum. `Validate` is the reference definition of the outcome: a function
  from what opening the file gave to a verdict. `FoldWords` is the checksum
  loop, with a `bv32` accumulator and a cursor over the 508-byte buffer.
  `Hive.New` is the step-by-step validator: it reads from a `File` into the
  source's buffers and seeks like the source does. Its postcondition ties its
  result to `Validate`, and the lemmas prove what `Validate` promises.

Opening the path and the behaviour of each seek are abstract inputs.
`Hive.New` receives `Result<Opened, IoError>`: either the opened file, or
the error `File::open` failed with. A regular file has no seek faults. A
pipe or other stream that cannot be positioned fails every seek.

The checksummed region 0..508 includes the signature. So a block of zeros
with "regf" at offset 0 must store 0x66676572 at offset 508, not 0, and the
little-endian bytes of 0x66676572 are "regf" again.
`ZeroHeaderWithZeroChecksumRejected` and
`ZeroHeaderWithSignatureChecksumAccepted` prove both sides.

## Model

| member | source | states |
|---|---|---|
| `RegistryHive.Hive.New` | src/hive.rs:80-139 | The outcome is always the reference verdict: success exactly when the verdict is `Accepted`, and otherwise the verdict's error. That includes a failed open, short reads and faulting seeks. On success the fresh hive owns a fresh file with the opened contents unchanged, positioned at offset 0, and its header is valid. |
| `RegistryHive.Hive.constructor` | src/hive.rs:55-57 | A `Hive` can be built only around a file whose header passes all three checks. |
| `RegistryHive.FoldWords` | src/hive.rs:109-128 | The loop reads 127 words through a cursor over the 508-byte buffer, and every read stays in bounds, so the `try!` around each read cannot fire. The accumulated `bv32` equals the XOR of words 0..126, each decoded little-endian from bytes 4i..4i+4. |
| `RegistryHive.ValidateTwice` | src/hive.rs:80-139 | A corollary of `Hive.New`'s contract, since the input is an immutable value: validating the same input twice gives the reference verdict both times. That the file's bytes are not modified comes from `File.contents` being a constant. |
| `FileIo.File.constructor` | src/hive.rs:82-83 | An opened file holds the given contents and seek faults, is positioned at 0, and has not been seeked. |
| `FileIo.File.ReadExact` | src/hive.rs:89-90 | The read succeeds exactly when enough bytes remain. It then returns exactly the next `n` bytes and advances by `n`; otherwise it fails with the end-of-file error. The contents and the seek count never change. |
| `FileIo.File.SeekStart` | src/hive.rs:113-114 | The seek succeeds exactly when this seek has no fault. It then returns the offset and moves there; otherwise it fails with that fault and leaves the position unchanged. Either way it counts one seek. |
| `RegistryHive.SeekFaultIsCannotRead` | src/hive.rs:113-114 | Past the first two checks, a fault of the seek that starts the checksum pass gives `CannotReadData` with that fault, whatever the file holds. For a valid header, a fault of the final rewind (src/hive.rs:135-136) does too. |
| `RegistryHive.UnseekableStreamCannotBeRead` | src/hive.rs:113-114 | The zero block with stored checksum 0, read from a stream whose seeks all fail, gives `CannotReadData` with the seek's error. It is not `InvalidHive`, although its checksum is wrong. |
| `RegistryHive.BaseBlockChecksums` | src/hive.rs:115-123 | The checksum of the 508-byte body read on its own equals that of the file, and the 4 bytes after it decode to the stored checksum. |
| `RegistryHive.OpenFailureIsCannotOpen` | src/hive.rs:82-83 | A failed open yields `CannotOpenHive` carrying the open's error. `CannotOpenHive` arises from nothing else. |
| `RegistryHive.SignatureCheck` | src/hive.rs:86-94 | A file shorter than 4 bytes fails with a short read. A file whose first four bytes are not "regf" is `InvalidHive`, whatever follows. |
| `RegistryHive.SequenceCheck` | src/hive.rs:97-106 | With a correct signature, a file shorter than 12 bytes fails with a short read. With 12 or more bytes, bytes 4..8 that differ from bytes 8..12 give `InvalidHive`. |
| `RegistryHive.ShortFileNeverAccepted` | src/hive.rs:113-118 | No file shorter than 512 bytes is accepted. If the first two checks pass, such a file fails with `CannotReadData`. If the seek before the checksum pass also succeeds, that error is a short read. |
| `RegistryHive.ChecksumDecides` | src/hive.rs:123-132 | Assume the file has at least 512 bytes, passes the first two checks, and its first seek succeeds. Then a checksum mismatch is `InvalidHive`. A match is accepted exactly when the final rewind succeeds. |
| `RegistryHive.AcceptedIffValidHeader` | src/hive.rs:60-66 | A file is accepted exactly when all three checks hold of its base block and neither seek faults. |
| `RegistryHive.InvalidMeansCheckFailed` | src/hive.rs:86-132 | `InvalidHive` comes out exactly when three things hold: the file opened, it had at least the signature's 4 bytes, and it failed one of the three checks with that check's bytes present and the steps before it successful. It is never reported for an I/O fault. |
| `RegistryHive.ChecksumAsZeroFold` | src/hive.rs:123-132 | The stored checksum matches exactly when all 128 words of the base block, the stored one included, XOR to zero. |
| `RegistryHive.OnlyBaseBlockMatters` | src/hive.rs:86-138 | Two files of at least 512 bytes that agree on their first 512 bytes, and whose seeks behave alike, get the same verdict. |
| `RegistryHive.FoldPrefix` | src/hive.rs:115-128 | Folding the first n words depends only on the first 4n bytes. |
| `RegistryHive.FoldOfZeroWords` | src/hive.rs:125-128 | If words 1..n-1 are all zero bytes, the fold equals word 0. |
| `RegistryHive.DecodeEncode` | src/hive.rs:123 | Decoding the little-endian bytes of a word gives back that word. |
| `RegistryHive.EncodeDecode` | src/hive.rs:126 | Encoding the decoded word gives back the four bytes. |
| `RegistryHive.LeU32Value` | src/hive.rs:123 | The decoded word is byte 0 + 256·byte 1 + 65536·byte 2 + 16777216·byte 3. The equation is in `bv32`, but the weighted sum is at most 2^32 − 1, so no term wraps and it is the integer value. |
| `RegistryHive.ZeroHeaderChecksum` | src/hive.rs:109-132 | In a block that is zero apart from "regf" and a stored checksum, the computed checksum is 0x66676572. The stored checksum is that word decoded, and the sequence numbers are equal. |
| `RegistryHive.ZeroHeaderWithSignatureChecksumAccepted` | src/hive.rs:80-139 | The zero block whose stored checksum is "regf" (0x66676572) is accepted. |
| `RegistryHive.ZeroHeaderWithZeroChecksumRejected` | src/hive.rs:130-131 | The zero block with stored checksum 0 is `InvalidHive`. |
| `RegistryHive.ZeroHeaderWithChecksumOneRejected` | src/hive.rs:130-131 | The zero block with stored checksum 1 is `InvalidHive`. |
| `RegistryHive.SecondarySequenceOneRejected` | src/hive.rs:104-105 | The zero block with its secondary sequence number set to 1 is `InvalidHive`, whatever checksum it stores. |
| `RegistryHive.ThreeByteFileCannotBeRead` | src/hive.rs:89-90 | A 3-byte file fails with a short read before any check runs. |
| `RegistryHive.Description` | src/hive.rs:38-44 | `InvalidHive` is described as "Invalid or corrupt hive". The I/O variants are described by their I/O error's message. |
| `RegistryHive.Cause` | src/hive.rs:46-52 | The cause is present exactly for the two I/O variants, and it is the error they carry. |

## Left out

- Command-line handling in src/main.rs is not modelled: the argument check, printing to stderr and the exit codes 1 and 2. It is I/O glue around `Hive::new`.
- The `Display` formatting of errors (src/hive.rs:24-35) is not modelled. It only builds strings.
- The file system is not modelled. `File::open` is an abstract input: an `Opened` file, or an opaque `IoError`. A seek's failure is part of that input. An `IoError` is only a kind and a message.
- `FileIo.File.ReadExact` fails only at end of file. Device errors during a read are not modelled, because every `CannotReadData` exit at src/hive.rs:89-118 is already reachable with the end-of-file error through a shorter file; only the error's payload differs. After a failed read the position is set to the end of the file, where the standard library leaves it unspecified. Nothing reads the file after a failure, so no verdict depends on this choice.
- Closing the file on every error path is not modelled. Dafny has no destructors: on failure the `File` object simply becomes unreachable.
- The `byteorder` and `Cursor` internals are replaced by the explicit decode `LeU32`. The cursor is a local offset in `FoldWords`. Its end-of-buffer error at src/hive.rs:126-127 appears as the bounds obligation of each read, and that obligation is proved.
- `RegistryHive.Description` takes an I/O variant's description to be its `IoError` message. `io::Error::description` itself is not modelled.
