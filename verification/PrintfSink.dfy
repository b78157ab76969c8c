/** The output buffer: bounded writes beside the unbounded text they stand for. */
module PrintfSink {
  import opened PrintfSpec

  class Sink {
    const buf: array<char>
    const size: nat                 // end - buf
    var str: nat                    // str - buf: how far the text has got
    ghost var out: seq<char>        // the whole text so far
    ghost const init: seq<char>     // the buffer before any write

    /** The first `size` characters of the text are in the buffer, the rest of the buffer
        is as it was. */
    ghost predicate Valid()
      reads this, buf
    {
      && size <= buf.Length == |init|
      && str == |out|
      && forall i | 0 <= i < buf.Length :: buf[i] == if i < size && i < |out| then out[i] else init[i]
    }

    constructor (b: array<char>, n: nat)
      requires n <= b.Length
      ensures Valid() && buf == b && size == n && out == [] && init == b[..]
    {
      buf, size, str, out, init := b, n, 0, [], b[..];
    }

    method Put(c: char)
      requires Valid()
      modifies this, buf
      ensures Valid() && out == old(out) + [c]
    {
      if str < size {
        buf[str] := c;
      }
      str := str + 1;
      out := out + [c];
    }

    /** memcpy of a literal run, cut at the end of the buffer. */
    method Copy(s: seq<char>)
      requires Valid()
      modifies this, buf
      ensures Valid() && out == old(out) + s
    {
      if str < size {
        var copy := |s|;
        if copy > size - str { copy := size - str; }
        for i := 0 to copy
          invariant str == old(str) && out == old(out)
          invariant forall j | 0 <= j < buf.Length ::
                      buf[j] == if str <= j < str + i then s[j - str] else old(buf[j])
        {
          buf[str + i] := s[i];
        }
      }
      str := str + |s|;
      out := out + s;
    }

    /** The closing NUL: after the text, or in the last place of a full buffer. */
    method Terminate()
      requires Valid()
      modifies buf
      ensures str == |out|
      ensures forall i | 0 <= i < buf.Length ::
                buf[i] == if i < |out| && i < size - 1 then out[i]
                          else if size > 0 && i == Min(|out|, size - 1) then '\0'
                          else init[i]
    {
      if size > 0 {
        if str < size { buf[str] := '\0'; } else { buf[size - 1] := '\0'; }
      }
    }
  }

  function Min(a: int, b: int): int {
    if a < b then a else b
  }
}
