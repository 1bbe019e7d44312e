/** A C stream opened for reading: contents, cursor, end-of-file indicator. */
module CFile {
  import opened Bytes

  class File {
    const data: seq<byte>
    var pos: nat
    var eof: bool

    constructor (data: seq<byte>)
      ensures this.data == data && pos == 0 && !eof
    {
      this.data, pos, eof := data, 0, false;
    }

    /** What is left to read. */
    ghost function Rest(): seq<byte>
      reads this
    {
      if pos <= |data| then data[pos..] else []
    }

    /** `fgetc`: the next octet, or -1 and the end-of-file indicator. */
    method Getc() returns (c: int)
      modifies this
      ensures old(pos) < |data| ==> c == data[old(pos)] && pos == old(pos) + 1 && eof == old(eof)
      ensures old(pos) >= |data| ==> c == -1 && pos == old(pos) && eof
    {
      if pos < |data| {
        c := data[pos];
        pos := pos + 1;
      } else {
        c := -1;
        eof := true;
      }
    }

    /** `fread` of `n` octets; a short read sets the end-of-file indicator. */
    method Read(n: nat) returns (d: seq<byte>)
      modifies this
      ensures d == if n <= |old(Rest())| then old(Rest())[..n] else old(Rest())
      ensures pos == old(pos) + |d| && eof == (old(eof) || |d| < n)
    {
      d := if pos <= |data| then data[pos..] else [];
      if n <= |d| {
        d := d[..n];
      } else {
        eof := true;
      }
      pos := pos + |d|;
    }

    /** `fseek` relative to the cursor; clears the end-of-file indicator. */
    method SeekBy(offset: int) returns (ok: bool)
      modifies this
      ensures ok <==> old(pos) + offset >= 0
      ensures ok ==> pos == old(pos) + offset && !eof
      ensures !ok ==> pos == old(pos) && eof == old(eof)
    {
      ok := pos + offset >= 0;
      if ok {
        pos := pos + offset;
        eof := false;
      }
    }
  }
}
