/**
 * The in-memory file object cryptpad reads and writes its buffers
 * through (`cStringIO.StringIO`, cryptpad.py:14-17): a byte string and a
 * position. Reads advance the position; writes overwrite from the
 * position and extend the string; truncation shortens the string and
 * puts the position at its new end.
 */
module StringBuffer {
  import opened Bytes

  function Min(a: nat, b: nat): nat
  {
    if a <= b then a else b
  }

  class StringIO {
    var buf: seq<byte>
    var pos: nat

    ghost predicate Valid()
      reads this
    {
      pos <= |buf|
    }

    /** `StringIO(initial)`: positioned at the start. */
    constructor (initial: seq<byte>)
      ensures Valid() && buf == initial && pos == 0
    {
      buf := initial;
      pos := 0;
    }

    /** `seek(offset)`, for offsets within the string (the only ones cryptpad uses). */
    method Seek(offset: nat)
      requires Valid() && offset <= |buf|
      modifies this
      ensures Valid() && buf == old(buf) && pos == offset
    {
      pos := offset;
    }

    /** `read(n)`: up to n bytes from the position on; fewer only at the end of the string. */
    method Read(n: nat) returns (chunk: seq<byte>)
      requires Valid()
      modifies this
      ensures Valid() && buf == old(buf)
      ensures chunk == buf[old(pos) .. Min(old(pos) + n, |buf|)]
      ensures pos == old(pos) + |chunk|
    {
      var end := Min(pos + n, |buf|);
      chunk := buf[pos..end];
      pos := end;
    }

    /** `write(s)`: overwrites from the position on, extending the string as needed. */
    method Write(s: seq<byte>)
      requires Valid()
      modifies this
      ensures Valid()
      ensures buf == old(buf[..pos]) + s + old(buf[Min(pos + |s|, |buf|)..])
      ensures old(pos) == old(|buf|) ==> buf == old(buf) + s
      ensures pos == old(pos) + |s|
    {
      buf := buf[..pos] + s + buf[Min(pos + |s|, |buf|)..];
      pos := pos + |s|;
    }

    /** `truncate(size)`: keeps the first min(size, length) bytes; the position moves to the new end. */
    method Truncate(size: nat)
      requires Valid()
      modifies this
      ensures Valid()
      ensures buf == old(buf[..Min(size, |buf|)])
      ensures pos == |buf|
    {
      buf := buf[..Min(size, |buf|)];
      pos := |buf|;
    }
  }
}
