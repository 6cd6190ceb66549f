/** The byte-level part of `src/hasher.rs`: the binary heuristic and the
    content transform of `read_file`, written as the source writes them (an
    early-returning scan and a single pass with a one-byte `prev_byte`) and
    proved equal to the declarative definitions of module `Content`. The
    file read itself is a parameter: `None` stands for a failed read. */
module Hasher {
  import opened Wrappers
  import opened Content

  /** The error `read_file` reports when the file cannot be read. */
  datatype ReadError = ReadError(message: string)

  const FailedToRead: ReadError := ReadError("Failed to read file")

  /** Scans at most the first `BinaryScanLimit` bytes and reports whether
      one of them is zero. */
  method IsBinary(bytes: seq<Byte>) returns (r: bool)
    ensures r <==> exists i :: 0 <= i < |bytes| && i < BinaryScanLimit && bytes[i] == NUL
  {
    var n := if |bytes| < BinaryScanLimit then |bytes| else BinaryScanLimit;
    for i := 0 to n
      invariant forall j :: 0 <= j < i ==> bytes[j] != NUL
    {
      if bytes[i] == NUL {
        return true;
      }
    }
    return false;
  }

  /** The content of a file as it is handed to the digest. A failed read is
      an error; a binary buffer is returned unchanged; a text buffer goes
      through one left-to-right pass that emits each byte once the next one
      is known, skipping a CR whose successor is LF, and finally emits the
      last byte unless it is a CR. */
  method ReadFile(read: Option<seq<Byte>>) returns (r: Result<seq<Byte>, ReadError>)
    ensures r.Failure? <==> read.None?
    ensures r.Failure? ==> r.error == FailedToRead
    ensures read.Some? && LooksBinary(read.value) ==> r == Success(read.value)
    ensures read.Some? && !LooksBinary(read.value) ==> r == Success(Normalize(read.value))
    ensures read.Some? ==> r == Success(Prepared(read.value))
  {
    if read.None? {
      return Failure(FailedToRead);
    }
    var bytes := read.value;
    var binary := IsBinary(bytes);
    if binary {
      return Success(bytes);
    }

    var result: seq<Byte> := [];
    var prevByte: Option<Byte> := None;
    for i := 0 to |bytes|
      invariant prevByte == if i == 0 then None else Some(bytes[i - 1])
      invariant i == 0 ==> result == []
      invariant 0 < i ==> result + Normalize(bytes[i - 1..]) == Normalize(bytes)
    {
      var b := bytes[i];
      if prevByte.Some? && prevByte.value == CR && b == LF {
        // a CR immediately followed by LF is dropped
      } else if prevByte.Some? {
        result := result + [prevByte.value];
      }
      if 0 < i {
        ghost var t := bytes[i - 1..];
        assert t[0] == bytes[i - 1] && t[1] == b;
        assert t[1..] == bytes[i..];
      } else {
        assert bytes[0..] == bytes;
      }
      prevByte := Some(b);
    }

    if |bytes| > 0 {
      ghost var last := bytes[|bytes| - 1..];
      assert last == [bytes[|bytes| - 1]] && last[1..] == [];
      assert Normalize(last) == if bytes[|bytes| - 1] == CR then [] else last;
    }
    if prevByte.Some? && prevByte.value != CR {
      result := result + [prevByte.value];
    }
    assert |bytes| == 0 ==> result == [];
    assert |bytes| > 0 ==> result == Normalize(bytes);
    return Success(result);
  }
}
