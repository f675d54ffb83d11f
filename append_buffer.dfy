/**
 * The append buffer a frame is assembled in before the single write to the terminal:
 * a heap block `b` of exactly `len` bytes, grown by reallocation on every append.
 */
module AppendBuffer {
  import opened Bytes

  class ABuf {
    var b: array<byte>
    var len: int

    ghost predicate Valid()
      reads this
    {
      len == b.Length
    }

    /** The bytes appended so far. */
    ghost function Contents(): (s: seq<byte>)
      reads this, b
      requires Valid()
      ensures |s| == len
    {
      b[..]
    }

    /** The initialiser `{.b = NULL, .len = 0}`: an empty buffer. */
    constructor ()
      ensures Valid() && fresh(b)
      ensures Contents() == []
    {
      b := new byte[0];
      len := 0;
    }

    /**
     * abAppend: grows the block to len + n bytes (realloc, which keeps the old bytes)
     * and copies the first n bytes of s after them. When the reallocation fails the
     * buffer is left as it was; `reallocOk` says which happens.
     */
    method Append(s: seq<byte>, n: int, reallocOk: bool)
      requires Valid()
      requires 0 <= n <= |s|
      modifies this
      ensures Valid()
      ensures reallocOk ==> Contents() == old(Contents()) + s[..n] && fresh(b)
      ensures !reallocOk ==> b == old(b) && len == old(len)
    {
      if !reallocOk {
        return;
      }
      var grown := new byte[len + n];
      var i := 0;
      while i < len
        invariant 0 <= i <= len
        invariant grown[..i] == b[..i]
        modifies grown
      {
        grown[i] := b[i];
        i := i + 1;
      }
      var j := 0;
      while j < n
        invariant 0 <= j <= n
        invariant grown[..len] == b[..]
        invariant grown[len..len + j] == s[..j]
        modifies grown
      {
        grown[len + j] := s[j];
        j := j + 1;
      }
      assert grown[..] == grown[..len] + grown[len..len + n];
      b := grown;
      len := len + n;
    }
  }
}
