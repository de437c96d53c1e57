/**
 A model of the small part of the standard I/O library that the hive validator
 relies on: an I/O error value, a result type, and an open file that serves
 `read_exact` from fixed contents and whose seeks fail as the open file
 dictates. The contents of a file are a constant: nothing the validator does
 can change them.
 */
module FileIo {

  /** The conventional optional value and success/failure wrapper. */
  datatype Option<T> = None | Some(value: T)
  datatype Result<T, E> = Success(value: T) | Failure(error: E)

  /** The kinds of I/O failure the model distinguishes; the operating system's
      own reasons for refusing to open a file are folded into `Other`. */
  datatype IoErrorKind = NotFound | PermissionDenied | UnexpectedEof | Other

  /** An I/O failure: its kind and its human-readable message. */
  datatype IoError = IoError(kind: IoErrorKind, message: string)

  /** The error `read_exact` reports when the file ends before the buffer is full. */
  const ShortRead: IoError := IoError(UnexpectedEof, "failed to fill whole buffer")

  /** What opening a path gave when it succeeded: the file's bytes, and for
      the k-th seek (counting from 0) the error it fails with, if any. A
      regular file has no seek faults; a pipe or other stream that cannot be
      positioned fails every seek. */
  datatype Opened = Opened(contents: seq<bv8>, seekFaults: seq<Option<IoError>>)

  /** The error the k-th seek fails with; seeks past the end of the list succeed. */
  function SeekFault(faults: seq<Option<IoError>>, k: nat): (e: Option<IoError>)
    ensures k >= |faults| ==> e.None?
    ensures k < |faults| ==> e == faults[k]
  {
    if k < |faults| then faults[k] else None
  }

  /** An open, readable file. */
  class File {
    const contents: seq<bv8>
    const seekFaults: seq<Option<IoError>>
    var pos: nat
    var seeks: nat

    /** A freshly opened file is positioned at its first byte and has not
        been seeked yet. */
    constructor (file: Opened)
      ensures contents == file.contents && seekFaults == file.seekFaults
      ensures pos == 0 && seeks == 0
    {
      contents := file.contents;
      seekFaults := file.seekFaults;
      pos := 0;
      seeks := 0;
    }

    /** Fills a buffer of `n` bytes from the current position, or fails with
        `ShortRead` when fewer than `n` bytes remain; a failed read consumes
        whatever was left. */
    method ReadExact(n: nat) returns (r: Result<seq<bv8>, IoError>)
      modifies this
      ensures seeks == old(seeks)
      ensures r.Success? <==> old(pos) + n <= |contents|
      ensures r.Success? ==> r.value == contents[old(pos)..old(pos) + n] && pos == old(pos) + n
      ensures r.Failure? ==> r.error == ShortRead && pos == if old(pos) < |contents| then |contents| else old(pos)
    {
      if pos + n <= |contents| {
        r := Success(contents[pos..pos + n]);
        pos := pos + n;
      } else {
        r := Failure(ShortRead);
        if pos < |contents| {
          pos := |contents|;
        }
      }
    }

    /** Moves the position to an absolute offset from the start of the file
        and returns it, or fails with this seek's fault and leaves the
        position where it was. */
    method SeekStart(offset: nat) returns (r: Result<nat, IoError>)
      modifies this
      ensures seeks == old(seeks) + 1
      ensures r.Success? <==> SeekFault(seekFaults, old(seeks)).None?
      ensures r.Success? ==> r.value == offset && pos == offset
      ensures r.Failure? ==> r.error == SeekFault(seekFaults, old(seeks)).value && pos == old(pos)
    {
      var fault := SeekFault(seekFaults, seeks);
      seeks := seeks + 1;
      if fault.Some? {
        r := Failure(fault.value);
      } else {
        pos := offset;
        r := Success(offset);
      }
    }
  }
}
