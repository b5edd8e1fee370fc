/** The collaborators of the formatter: the text sink every line is written
    to, and a byte source read in fixed-size chunks with `io.ReadFull`. */
module Io {

  import opened Wrappers
  import opened Render

  /** How a source ends: cleanly (EOF), or with an error. `UnexpectedEOF` is
      what a full-chunk read reports when the source ends part-way through. */
  datatype ReadError = EOF | UnexpectedEOF | Failed(reason: string)

  /** A text sink that keeps everything written to it. */
  class Writer {
    var text: string

    constructor ()
      ensures text == []
    {
      text := [];
    }

    method Write(s: string)
      modifies this
      ensures text == old(text) + s
    {
      text := text + s;
    }
  }

  /** What `io.ReadFull` reports after reading `n` of the `want` bytes asked
      for from a source that ends with `end`: nothing when the buffer was
      filled; EOF when the source ended cleanly before any byte was read;
      `UnexpectedEOF` when it ended cleanly part-way; otherwise, whether or
      not any byte was read, the source's own error. */
  function FullReadError(n: nat, want: nat, end: ReadError): Option<ReadError> {
    if n == want then None
    else if end == EOF then Some(if n == 0 then EOF else UnexpectedEOF)
    else Some(end)
  }

  /** A byte source scripted by the bytes it has still to deliver and the
      error it reports once they are gone (EOF for a clean end). */
  class Reader {
    var remaining: seq<byte>
    const end: ReadError

    constructor (data: seq<byte>, end: ReadError)
      ensures remaining == data && this.end == end
    {
      remaining := data;
      this.end := end;
    }

    /** `io.ReadFull(r, buf)`: fills `buf` if the source still has that many
        bytes, and otherwise delivers what is left together with the way the
        source ended. */
    method ReadFull(buf: array<byte>) returns (n: nat, err: Option<ReadError>)
      modifies this, buf
      ensures n == (if |old(remaining)| < buf.Length then |old(remaining)| else buf.Length)
      ensures buf[..n] == old(remaining)[..n]
      ensures remaining == old(remaining)[n..]
      ensures err == FullReadError(n, buf.Length, end)
    {
      var data := remaining;
      n := if |data| < buf.Length then |data| else buf.Length;
      var i := 0;
      while i < n
        invariant 0 <= i <= n
        invariant remaining == data
        invariant buf[..i] == data[..i]
      {
        buf[i] := data[i];
        i := i + 1;
      }
      err := FullReadError(n, buf.Length, end);
      remaining := data[n..];
    }
  }
}
