/** Byte streams with short reads. A faulty stream may fail at any call; a sound
    one only returns fewer bytes than asked for, and 0 only at the end. */
module Io {
  import opened Bytes

  datatype IoError = DeviceFailure

  class Reader {
    const faulty: bool
    const content: bytes
    var rest: bytes

    constructor (content: bytes, faulty: bool)
      ensures this.content == content && this.faulty == faulty && rest == content
    {
      this.content, this.faulty, this.rest := content, faulty, content;
    }

    /** `Read::read` into a slice of the buffer: some positive number of bytes,
        0 only at the end of the stream or for an empty slice. */
    method Read(buffer: array<byte>, start: nat, end: nat) returns (r: Result<nat, IoError>)
      requires start <= end <= buffer.Length
      modifies this`rest, buffer
      ensures r.Err? ==> faulty && rest == old(rest) && buffer[..] == old(buffer[..])
      ensures r.Ok? ==>
        && r.value <= end - start && r.value <= |old(rest)|
        && (r.value == 0 <==> old(rest) == [] || start == end)
        && rest == old(rest)[r.value..]
        && buffer[..] == old(buffer[..start]) + old(rest)[..r.value] + old(buffer[start + r.value..])
    {
      if faulty {
        var fails: bool := *;
        if fails { return Err(DeviceFailure); }
      }
      var available := Min(|rest|, end - start);
      if available == 0 { return Ok(0); }
      var n: nat :| 1 <= n <= available;
      forall k | 0 <= k < n { buffer[start + k] := rest[k]; }
      rest := rest[n..];
      r := Ok(n);
    }

    /** `Seek::seek` to an absolute position; past the end nothing is left. */
    method Seek(position: nat)
      modifies this`rest
      ensures rest == if position <= |content| then content[position..] else []
    {
      rest := if position <= |content| then content[position..] else [];
    }
  }

  /** The loop shared by all readers: keep reading until the buffer is full or
      the stream ends. */
  method ReadUpTo(reader: Reader, size: nat) returns (r: Result<bytes, IoError>)
    modifies reader`rest
    ensures r.Err? ==> reader.faulty
    ensures r.Ok? ==>
      && |r.value| == Min(size, |old(reader.rest)|)
      && r.value == old(reader.rest)[..|r.value|]
      && reader.rest == old(reader.rest)[|r.value|..]
  {
    var buffer := new byte[size](_ => 0);
    var filled := 0;
    while filled < size
      invariant filled <= size && filled <= |old(reader.rest)|
      invariant buffer[..filled] == old(reader.rest)[..filled]
      invariant reader.rest == old(reader.rest)[filled..]
      decreases size - filled
    {
      var n :- reader.Read(buffer, filled, size);
      if n == 0 { break; }
      filled := filled + n;
    }
    r := Ok(buffer[..filled]);
  }

  class Writer {
    const faulty: bool
    var written: bytes

    constructor (faulty: bool)
      ensures this.faulty == faulty && written == []
    {
      this.faulty, written := faulty, [];
    }

    /** `write_all`: on failure an arbitrary prefix may have been written. */
    method WriteAll(data: bytes) returns (r: Result<(), IoError>)
      modifies this`written
      ensures r.Ok? ==> written == old(written) + data
      ensures r.Err? ==> faulty && exists n :: 0 <= n <= |data| && written == old(written) + data[..n]
    {
      if faulty {
        var fails: bool := *;
        if fails {
          var n: nat :| n <= |data|;
          written := written + data[..n];
          return Err(DeviceFailure);
        }
      }
      written := written + data;
      r := Ok(());
    }
  }
}
