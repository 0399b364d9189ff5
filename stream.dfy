/** The binary file the decoder reads: a byte sequence and a cursor that `read`
    and `seek` move (the Python file object of logo_gen_decoder.py). */
module Streams {
  import opened Wire

  class Stream {
    const data: seq<Byte>
    var pos: nat

    constructor (data: seq<Byte>)
      ensures this.data == data && pos == 0
    {
      this.data := data;
      pos := 0;
    }

    /** `read(n)`: the next bytes, at most `n` of them; the cursor moves past them.
        At or beyond the end it returns nothing and the cursor stays put. */
    method Read(n: nat) returns (s: seq<Byte>)
      modifies this
      ensures s == Slice(data, old(pos), n)
      ensures pos == old(pos) + |s|
    {
      s := Slice(data, pos, n);
      pos := pos + |s|;
    }

    /** `seek(target)`: an absolute seek, which may go beyond the end. */
    method SeekTo(target: nat)
      modifies this
      ensures pos == target
    {
      pos := target;
    }

    /** `seek(offset, 1)`: a seek relative to the cursor; a position before the
        start of the file is an error in Python, so callers never ask for one. */
    method SeekBy(offset: int)
      requires pos + offset >= 0
      modifies this
      ensures pos == old(pos) + offset
    {
      pos := pos + offset;
    }
  }
}
