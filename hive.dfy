/**
 The header validator of a Windows registry hive ("regf") file.

 A hive starts with a 512-byte base block. The validator accepts a file only if
 its first four bytes are the signature "regf", if the primary sequence number
 (bytes 4..8) equals the secondary one (bytes 8..12), and if the little-endian
 32-bit word at bytes 508..512 equals the exclusive-or of the 127 little-endian
 words that make up bytes 0..508. The checks run in that order and the first
 failure decides the error.

 `Validate` is the reference definition of the outcome, `Hive.New` the
 step-by-step validator over an open file, and the lemmas state what the
 outcome means.
 */
module RegistryHive {
  import opened FileIo

  /** The ASCII bytes "regf". */
  const Signature: seq<bv8> := [0x72, 0x65, 0x67, 0x66]

  /** Number of 32-bit words covered by the checksum, and the bytes they span. */
  const WordCount: nat := 127
  const HeaderBodyLength: nat := 508

  /** Length of the base block: the checksummed body plus the stored checksum. */
  const BaseBlockLength: nat := 512

  /** Every way validation can fail. Only the I/O variants carry detail. */
  datatype HiveError =
    | CannotOpenHive(err: IoError)
    | CannotReadData(err: IoError)
    | InvalidHive

  /** The outcome of validating a file, without the file handle itself. */
  datatype Verdict = Accepted | Rejected(error: HiveError)

  /** The short description of an error: the I/O error's own message, or a
      fixed text for a structurally invalid hive. */
  function Description(e: HiveError): (r: string)
    ensures e.InvalidHive? ==> r == "Invalid or corrupt hive"
    ensures !e.InvalidHive? ==> r == e.err.message
  {
    match e
    case CannotOpenHive(err) => err.message
    case CannotReadData(err) => err.message
    case InvalidHive => "Invalid or corrupt hive"
  }

  /** The underlying error, present exactly for the I/O variants. */
  function Cause(e: HiveError): (r: Option<IoError>)
    ensures r.None? <==> e.InvalidHive?
    ensures r.Some? ==> r.value == e.err
  {
    match e
    case CannotOpenHive(err) => Some(err)
    case CannotReadData(err) => Some(err)
    case InvalidHive => None
  }

  // ---------------------------------------------------------------------------
  // Little-endian words

  /** Decodes four bytes as an unsigned 32-bit integer, least significant first. */
  function LeU32(b: seq<bv8>): (w: bv32)
    requires |b| == 4
  {
    (b[0] as bv32) | ((b[1] as bv32) << 8) | ((b[2] as bv32) << 16) | ((b[3] as bv32) << 24)
  }

  /** Encodes an unsigned 32-bit integer as four bytes, least significant first. */
  function LeBytes(w: bv32): (b: seq<bv8>)
    ensures |b| == 4
  {
    [(w & 0xFF) as bv8, ((w >> 8) & 0xFF) as bv8, ((w >> 16) & 0xFF) as bv8, (w >> 24) as bv8]
  }

  /** Decoding undoes encoding. */
  lemma DecodeEncode(w: bv32)
    ensures LeU32(LeBytes(w)) == w
  {
  }

  /** Encoding undoes decoding. */
  lemma EncodeDecode(b: seq<bv8>)
    requires |b| == 4
    ensures LeBytes(LeU32(b)) == b
  {
  }

  /** The decoded word is the sum of its bytes weighted by increasing powers
      of 256, least significant first. The equation is in `bv32`, but the
      weighted sum of four bytes is at most 2^32 - 1, so no term wraps and
      the word is this sum as an integer. */
  lemma LeU32Value(b: seq<bv8>)
    requires |b| == 4
    ensures LeU32(b) == (b[0] as bv32) + 0x100 * (b[1] as bv32) + 0x1_0000 * (b[2] as bv32) + 0x100_0000 * (b[3] as bv32)
  {
  }

  /** Word `i` of a buffer: bytes 4i..4i+4 decoded little-endian. */
  function Word(b: seq<bv8>, i: nat): (w: bv32)
    requires 4 * i + 4 <= |b|
  {
    LeU32(b[4 * i..4 * i + 4])
  }

  /** The exclusive-or of words 0..n of a buffer. */
  function XorFold(b: seq<bv8>, n: nat): (x: bv32)
    requires 4 * n <= |b|
    decreases n
  {
    if n == 0 then 0 else XorFold(b, n - 1) ^ Word(b, n - 1)
  }

  /** The checksum computed over the header body, bytes 0..508. */
  function HeaderChecksum(b: seq<bv8>): (x: bv32)
    requires |b| >= HeaderBodyLength
  {
    XorFold(b, WordCount)
  }

  /** The checksum stored in the header, bytes 508..512. */
  function StoredChecksum(b: seq<bv8>): (w: bv32)
    requires |b| >= BaseBlockLength
  {
    Word(b, WordCount)
  }

  /** A file whose base block passes all three checks. */
  predicate IsValidHeader(b: seq<bv8>)
  {
    && |b| >= BaseBlockLength
    && b[..4] == Signature
    && b[4..8] == b[8..12]
    && HeaderChecksum(b) == StoredChecksum(b)
  }

  /** The reference outcome of validating what opening the file gave: the
      opened file, or the error the open failed with. */
  function Validate(source: Result<Opened, IoError>): (v: Verdict)
  {
    match source
    case Failure(e) => Rejected(CannotOpenHive(e))
    case Success(o) => ValidateFile(o)
  }

  /** The signature and sequence checks on an opened file. Each check needs
      the bytes it reads, and a file too short for them fails with a short
      read. */
  function ValidateFile(o: Opened): (v: Verdict)
  {
    var b := o.contents;
    if |b| < 4 then Rejected(CannotReadData(ShortRead))
    else if b[..4] != Signature then Rejected(InvalidHive)
    else if |b| < 12 then Rejected(CannotReadData(ShortRead))
    else if b[4..8] != b[8..12] then Rejected(InvalidHive)
    else ChecksumPass(o)
  }

  /** The checksum check and the rewind. The pass starts with seek 0 and the
      rewind is seek 1; a seek that faults fails the validation with its
      error. */
  function ChecksumPass(o: Opened): (v: Verdict)
  {
    var b, faults := o.contents, o.seekFaults;
    if SeekFault(faults, 0).Some? then Rejected(CannotReadData(SeekFault(faults, 0).value))
    else if |b| < BaseBlockLength then Rejected(CannotReadData(ShortRead))
    else if HeaderChecksum(b) != StoredChecksum(b) then Rejected(InvalidHive)
    else if SeekFault(faults, 1).Some? then Rejected(CannotReadData(SeekFault(faults, 1).value))
    else Accepted
  }

  /** A regular file with the given bytes, whose seeks never fail. */
  function RegularFile(b: seq<bv8>): (source: Result<Opened, IoError>)
    ensures source.Success? && source.value.contents == b
    ensures SeekFault(source.value.seekFaults, 0).None? && SeekFault(source.value.seekFaults, 1).None?
  {
    Success(Opened(b, []))
  }

  // ---------------------------------------------------------------------------
  // The checksum loop

  /** Folds the 127 words of a 508-byte header body with exclusive-or, reading
      them one after another through a cursor. Every read stays inside the
      buffer, so the loop cannot fail. */
  method FoldWords(headerRaw: seq<bv8>) returns (xor: bv32)
    requires |headerRaw| == HeaderBodyLength
    ensures xor == HeaderChecksum(headerRaw)
  {
    xor := 0;
    var cursor: nat := 0;
    var i := 0;
    while i < WordCount
      invariant 0 <= i <= WordCount
      invariant cursor == 4 * i
      invariant xor == XorFold(headerRaw, i)
    {
      xor := xor ^ LeU32(headerRaw[cursor..cursor + 4]);
      cursor := cursor + 4;
      i := i + 1;
    }
  }

  // ---------------------------------------------------------------------------
  // The validated hive

  /** A hive whose header has been validated; it owns the open file. */
  class Hive {
    const f: File

    /** Only a file with a valid header is ever wrapped in a hive. */
    ghost predicate Valid()
    {
      IsValidHeader(f.contents)
    }

    constructor (f: File)
      requires IsValidHeader(f.contents)
      ensures this.f == f && Valid()
    {
      this.f := f;
    }

    /** Opens and validates a hive. `source` is what opening the path gave:
        the opened file, or the error the open failed with. On success the
        new hive's file holds the file's contents, unchanged, and is
        positioned at offset 0. */
    static method New(source: Result<Opened, IoError>) returns (r: Result<Hive, HiveError>)
      ensures r.Success? <==> Validate(source) == Accepted
      ensures r.Failure? ==> Validate(source) == Rejected(r.error)
      ensures r.Success? ==> && source.Success?
                             && fresh(r.value) && fresh(r.value.f)
                             && r.value.Valid()
                             && r.value.f.contents == source.value.contents
                             && r.value.f.pos == 0
    {
      if source.Failure? {
        return Failure(CannotOpenHive(source.error));
      }
      var regFile := new File(source.value);
      ghost var b := source.value.contents;

      // check the file signature
      var fileSig := regFile.ReadExact(4);
      if fileSig.Failure? {
        return Failure(CannotReadData(fileSig.error));
      }
      if fileSig.value != Signature {
        return Failure(InvalidHive);
      }
      assert b[..4] == Signature;

      // check the sequence numbers
      var primary := regFile.ReadExact(4);
      if primary.Failure? {
        return Failure(CannotReadData(primary.error));
      }
      var secondary := regFile.ReadExact(4);
      if secondary.Failure? {
        return Failure(CannotReadData(secondary.error));
      }
      if primary.value != secondary.value {
        return Failure(InvalidHive);
      }

      assert b[4..8] == b[8..12];
      assert Validate(source) == ChecksumPass(source.value) && regFile.seeks == 0;

      // check the XOR checksum
      var start := regFile.SeekStart(0);
      if start.Failure? {
        assert ChecksumPass(source.value) == Rejected(CannotReadData(start.error));
        return Failure(CannotReadData(start.error));
      }
      assert regFile.pos == 0 && SeekFault(regFile.seekFaults, 0).None?;
      var headerRaw := regFile.ReadExact(HeaderBodyLength);
      if headerRaw.Failure? {
        assert ChecksumPass(source.value) == Rejected(CannotReadData(headerRaw.error));
        return Failure(CannotReadData(headerRaw.error));
      }
      var headerCheck := regFile.ReadExact(4);
      if headerCheck.Failure? {
        assert ChecksumPass(source.value) == Rejected(CannotReadData(headerCheck.error));
        return Failure(CannotReadData(headerCheck.error));
      }
      var csum := LeU32(headerCheck.value);
      var xor := FoldWords(headerRaw.value);
      BaseBlockChecksums(b);
      assert xor == HeaderChecksum(b) && csum == StoredChecksum(b);
      if xor != csum {
        assert ChecksumPass(source.value) == Rejected(InvalidHive);
        return Failure(InvalidHive);
      }

      // reset the position to 0 before handing the file over
      assert regFile.seeks == 1 && |b| >= BaseBlockLength;
      var rewind := regFile.SeekStart(0);
      if rewind.Failure? {
        assert ChecksumPass(source.value) == Rejected(CannotReadData(rewind.error));
        return Failure(CannotReadData(rewind.error));
      }
      assert ChecksumPass(source.value) == Accepted;
      var h := new Hive(regFile);
      return Success(h);
    }
  }

  /** The verdict a call of `Hive.New` reached. */
  function VerdictOf(r: Result<Hive, HiveError>): (v: Verdict)
  {
    if r.Success? then Accepted else Rejected(r.error)
  }

  /** Validating the same file twice reaches the same verdict both times. */
  method ValidateTwice(source: Result<Opened, IoError>) returns (first: Verdict, second: Verdict)
    ensures first == second == Validate(source)
  {
    var r1 := Hive.New(source);
    var r2 := Hive.New(source);
    first, second := VerdictOf(r1), VerdictOf(r2);
  }

  // ---------------------------------------------------------------------------
  // What the outcome means

  /** Folding the first `n` words reads only the first 4n bytes. */
  lemma {:induction false} FoldPrefix(b: seq<bv8>, c: seq<bv8>, n: nat)
    requires 4 * n <= |b| && 4 * n <= |c|
    requires b[..4 * n] == c[..4 * n]
    ensures XorFold(b, n) == XorFold(c, n)
  {
    if n > 0 {
      assert b[..4 * (n - 1)] == b[..4 * n][..4 * (n - 1)];
      assert c[..4 * (n - 1)] == c[..4 * n][..4 * (n - 1)];
      FoldPrefix(b, c, n - 1);
      assert b[4 * (n - 1)..4 * n] == b[..4 * n][4 * (n - 1)..];
      assert c[4 * (n - 1)..4 * n] == c[..4 * n][4 * (n - 1)..];
    }
  }

  /** The checksum of the header body read on its own is the checksum of the
      file, and the four bytes after it decode to the stored checksum. */
  lemma BaseBlockChecksums(b: seq<bv8>)
    requires |b| >= BaseBlockLength
    ensures HeaderChecksum(b[0..HeaderBodyLength]) == HeaderChecksum(b)
    ensures LeU32(b[HeaderBodyLength..HeaderBodyLength + 4]) == StoredChecksum(b)
  {
    assert b[0..HeaderBodyLength][..4 * WordCount] == b[..4 * WordCount];
    FoldPrefix(b[0..HeaderBodyLength], b, WordCount);
  }

  /** Opening is the only step that yields `CannotOpenHive`, and it yields it
      with the error the open failed with. */
  lemma OpenFailureIsCannotOpen(source: Result<Opened, IoError>)
    ensures source.Failure? ==> Validate(source) == Rejected(CannotOpenHive(source.error))
    ensures Validate(source).Rejected? && Validate(source).error.CannotOpenHive? ==> source.Failure?
  {
  }

  /** A file shorter than the signature fails with a short read; a file whose
      first four bytes are not "regf" is invalid, whatever follows and however
      its seeks behave. */
  lemma SignatureCheck(o: Opened)
    ensures |o.contents| < 4 ==> Validate(Success(o)) == Rejected(CannotReadData(ShortRead))
    ensures |o.contents| >= 4 && o.contents[..4] != Signature ==> Validate(Success(o)) == Rejected(InvalidHive)
  {
  }

  /** With a correct signature, a file too short for both sequence numbers
      fails with a short read, and unequal sequence numbers make it invalid. */
  lemma SequenceCheck(o: Opened)
    requires |o.contents| >= 4 && o.contents[..4] == Signature
    ensures |o.contents| < 12 ==> Validate(Success(o)) == Rejected(CannotReadData(ShortRead))
    ensures |o.contents| >= 12 && o.contents[4..8] != o.contents[8..12] ==> Validate(Success(o)) == Rejected(InvalidHive)
  {
  }

  /** Past the first two checks, a fault of the seek that starts the checksum
      pass fails with that fault, whatever the rest of the file holds; and for
      a valid header, a fault of the final rewind does too. */
  lemma SeekFaultIsCannotRead(o: Opened)
    requires |o.contents| >= 12 && o.contents[..4] == Signature && o.contents[4..8] == o.contents[8..12]
    ensures SeekFault(o.seekFaults, 0).Some? ==>
              Validate(Success(o)) == Rejected(CannotReadData(SeekFault(o.seekFaults, 0).value))
    ensures SeekFault(o.seekFaults, 0).None? && IsValidHeader(o.contents) && SeekFault(o.seekFaults, 1).Some? ==>
              Validate(Success(o)) == Rejected(CannotReadData(SeekFault(o.seekFaults, 1).value))
  {
  }

  /** No file shorter than the base block is ever accepted. Past the first two
      checks such a file fails with a read error: a short read when the seek
      before the checksum pass succeeds. */
  lemma ShortFileNeverAccepted(o: Opened)
    requires |o.contents| < BaseBlockLength
    ensures Validate(Success(o)) != Accepted
    ensures |o.contents| >= 12 && o.contents[..4] == Signature && o.contents[4..8] == o.contents[8..12] ==>
              Validate(Success(o)).Rejected? && Validate(Success(o)).error.CannotReadData?
    ensures |o.contents| >= 12 && o.contents[..4] == Signature && o.contents[4..8] == o.contents[8..12]
            && SeekFault(o.seekFaults, 0).None? ==>
              Validate(Success(o)) == Rejected(CannotReadData(ShortRead))
  {
  }

  /** Once the file is long enough, the first two checks pass and the seek
      before the checksum pass succeeds, the checksum decides: a mismatch is
      invalid, and a match is accepted unless the final rewind faults. */
  lemma ChecksumDecides(o: Opened)
    requires |o.contents| >= BaseBlockLength && o.contents[..4] == Signature
    requires o.contents[4..8] == o.contents[8..12] && SeekFault(o.seekFaults, 0).None?
    ensures Validate(Success(o)) == Accepted <==>
              HeaderChecksum(o.contents) == StoredChecksum(o.contents) && SeekFault(o.seekFaults, 1).None?
    ensures HeaderChecksum(o.contents) != StoredChecksum(o.contents) ==> Validate(Success(o)) == Rejected(InvalidHive)
  {
  }

  /** A file is accepted exactly when its header is valid and neither seek
      faults. */
  lemma AcceptedIffValidHeader(o: Opened)
    ensures Validate(Success(o)) == Accepted <==>
              IsValidHeader(o.contents) && SeekFault(o.seekFaults, 0).None? && SeekFault(o.seekFaults, 1).None?
  {
  }

  /** `InvalidHive` is reported only for a readable file that fails one of the
      three checks, and never for an I/O fault. */
  lemma InvalidMeansCheckFailed(source: Result<Opened, IoError>)
    ensures Validate(source) == Rejected(InvalidHive) <==>
              && source.Success?
              && |source.value.contents| >= 4
              && var b := source.value.contents;
                 || b[..4] != Signature
                 || (|b| >= 12 && b[4..8] != b[8..12])
                 || (&& |b| >= BaseBlockLength && b[..4] == Signature && b[4..8] == b[8..12]
                     && SeekFault(source.value.seekFaults, 0).None?
                     && HeaderChecksum(b) != StoredChecksum(b))
  {
  }

  /** The stored checksum matches exactly when all 128 words of the base block,
      the stored checksum included, fold to zero. */
  lemma ChecksumAsZeroFold(b: seq<bv8>)
    requires |b| >= BaseBlockLength
    ensures HeaderChecksum(b) == StoredChecksum(b) <==> XorFold(b, WordCount + 1) == 0
  {
  }

  /** Only the base block affects the outcome: two files that agree on their
      first 512 bytes, and whose seeks behave alike, are validated alike. */
  lemma OnlyBaseBlockMatters(b: seq<bv8>, c: seq<bv8>, faults: seq<Option<IoError>>)
    requires |b| >= BaseBlockLength && |c| >= BaseBlockLength
    requires b[..BaseBlockLength] == c[..BaseBlockLength]
    ensures Validate(Success(Opened(b, faults))) == Validate(Success(Opened(c, faults)))
  {
    assert b[..4] == b[..BaseBlockLength][..4];
    assert c[..4] == c[..BaseBlockLength][..4];
    assert b[4..8] == b[..BaseBlockLength][4..8] && c[4..8] == c[..BaseBlockLength][4..8];
    assert b[8..12] == b[..BaseBlockLength][8..12] && c[8..12] == c[..BaseBlockLength][8..12];
    assert b[..4 * WordCount] == b[..BaseBlockLength][..4 * WordCount];
    assert c[..4 * WordCount] == c[..BaseBlockLength][..4 * WordCount];
    FoldPrefix(b, c, WordCount);
    assert b[508..512] == b[..BaseBlockLength][508..512];
    assert c[508..512] == c[..BaseBlockLength][508..512];
  }

  // ---------------------------------------------------------------------------
  // Concrete headers

  function Zeros(n: nat): (z: seq<bv8>)
    ensures |z| == n && forall j :: 0 <= j < n ==> z[j] == 0
  {
    seq(n, _ => 0)
  }

  /** When every byte of words 1..n is zero, the fold is word 0. */
  lemma {:induction false} FoldOfZeroWords(b: seq<bv8>, n: nat)
    requires 1 <= n && 4 * n <= |b|
    requires forall j :: 4 <= j < 4 * n ==> b[j] == 0
    ensures XorFold(b, n) == Word(b, 0)
  {
    if n > 1 {
      FoldOfZeroWords(b, n - 1);
      assert b[4 * (n - 1)..4 * n] == [0, 0, 0, 0];
    }
  }

  /** A base block that is zero apart from the signature at offset 0 and the
      checksum at offset 508. */
  function ZeroHeader(check: seq<bv8>): (b: seq<bv8>)
    requires |check| == 4
    ensures |b| == BaseBlockLength
  {
    Signature + Zeros(HeaderBodyLength - 4) + check
  }

  /** In such a block the header checksum is the signature read as a word,
      0x66676572, which is then also the checksum it must store. */
  lemma ZeroHeaderChecksum(check: seq<bv8>)
    requires |check| == 4
    ensures HeaderChecksum(ZeroHeader(check)) == 0x66676572
    ensures StoredChecksum(ZeroHeader(check)) == LeU32(check)
    ensures ZeroHeader(check)[..4] == Signature && ZeroHeader(check)[4..8] == ZeroHeader(check)[8..12]
  {
    var b := ZeroHeader(check);
    FoldOfZeroWords(b, WordCount);
    assert b[..4] == Signature;
    assert b[4..8] == [0, 0, 0, 0] == b[8..12];
    assert b[508..512] == check;
  }

  /** The zero block whose checksum is "regf" again is accepted. */
  lemma ZeroHeaderWithSignatureChecksumAccepted()
    ensures Validate(RegularFile(ZeroHeader(Signature))) == Accepted
  {
    ZeroHeaderChecksum(Signature);
  }

  /** The zero block with a zero checksum is rejected: the checksummed region
      includes the signature. */
  lemma ZeroHeaderWithZeroChecksumRejected()
    ensures Validate(RegularFile(ZeroHeader(Zeros(4)))) == Rejected(InvalidHive)
  {
    ZeroHeaderChecksum(Zeros(4));
  }

  /** The zero block with checksum 1 is rejected. */
  lemma ZeroHeaderWithChecksumOneRejected()
    ensures Validate(RegularFile(ZeroHeader([1, 0, 0, 0]))) == Rejected(InvalidHive)
  {
    ZeroHeaderChecksum([1, 0, 0, 0]);
  }

  /** The zero block with its secondary sequence number set to 1 is rejected,
      whatever checksum it stores. */
  lemma SecondarySequenceOneRejected(check: seq<bv8>)
    requires |check| == 4
    ensures Validate(RegularFile(ZeroHeader(check)[8 := 1])) == Rejected(InvalidHive)
  {
    var b := ZeroHeader(check)[8 := 1];
    assert b[..4] == Signature;
    assert b[4..8][0] == 0 && b[8..12][0] == 1;
    SequenceCheck(Opened(b, []));
  }

  /** A three-byte file fails with a short read before any check runs. */
  lemma ThreeByteFileCannotBeRead()
    ensures Validate(RegularFile([0x72, 0x65, 0x67])) == Rejected(CannotReadData(ShortRead))
  {
  }

  /** A stream that cannot be positioned, holding the block above with a
      stored checksum of 0, passes the first two checks and then fails with
      the fault of its first seek rather than being judged invalid. */
  lemma UnseekableStreamCannotBeRead(e: IoError)
    ensures Validate(Success(Opened(ZeroHeader(Zeros(4)), [Some(e), Some(e)]))) == Rejected(CannotReadData(e))
  {
    ZeroHeaderChecksum(Zeros(4));
  }
}
