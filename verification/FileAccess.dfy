/** A file opened for reading: short reads at the end, seeks past it, and reads that insist on their length. */
module FileAccess {
  import opened Basics
  import opened Outcomes
  import opened Hex
  import opened MetFormat
  import opened KnownMetImport

  /** What a read of `n` bytes at `p` returns: less than `n` bytes only at the end of the file. */
  function Chunk(d: Bytes, p: nat, n: nat): Bytes {
    d[Min(p, |d|)..Min(p + n, |d|)]
  }

  class FileReader {
    const data: Bytes
    var cursor: nat

    constructor (data: Bytes)
      ensures this.data == data && cursor == 0
    {
      this.data := data;
      cursor := 0;
    }

    /** The plain `read` of a file object. */
    method ReadUpTo(n: nat) returns (chunk: Bytes)
      modifies this`cursor
      ensures chunk == Chunk(data, old(cursor), n) && cursor == old(cursor) + |chunk|
    {
      chunk := data[Min(cursor, |data|)..Min(cursor + n, |data|)];
      cursor := cursor + |chunk|;
    }

    /** Moves forward, past the end if need be. */
    method SeekBy(n: nat)
      modifies this`cursor
      ensures cursor == old(cursor) + n
    {
      cursor := cursor + n;
    }

    function Tell(): nat
      reads this`cursor
    {
      cursor
    }

    /** A read that raises when it comes up short. */
    method Read(count: nat) returns (r: Result<Bytes>)
      modifies this`cursor
      ensures count > 0 || old(cursor) <= |data| ==> Did(Take(data, old(cursor), count), r, cursor)
    {
      var chunk := ReadUpTo(count);
      if |chunk| != count {
        return Err(Truncated);
      }
      return Ok(chunk);
    }

    method ReadUint(width: nat) returns (r: Result<nat>)
      requires width > 0
      modifies this`cursor
      ensures Did(Uint(data, old(cursor), width), r, cursor)
    {
      var b :- Read(width);
      return Ok(LittleEndian(b));
    }
  }
}
