/** The formatter itself: a configuration, the mutable state that carries
    the row index and the previous row's length from one call to the next,
    and the three ways to drive it (a whole buffer, a stream, the default). */
module Hexdump {

  import opened Wrappers
  import opened Render
  import opened Layout
  import opened Io

  /** Bytes per row when the configuration leaves the width at zero. */
  const DefaultWidth := 32

  /** The width a formatter built from a configuration uses. */
  function EffectiveWidth(width: int): (w: int)
    ensures width != 0 ==> w == width
    ensures width == 0 ==> w == DefaultWidth
  {
    if width == 0 then DefaultWidth else width
  }

  /** The error `Stream` reports for a source that ends with `end`: none for
      a clean end or a short last chunk, the source's own error otherwise. */
  function StreamError(end: ReadError): (r: Option<ReadError>)
    ensures r == None <==> (end == EOF || end == UnexpectedEOF)
    ensures r != None ==> r == Some(end)
  {
    if end == EOF || end == UnexpectedEOF then None else Some(end)
  }

  /** The formatter's state: the configured width (defaulted), the index of
      the next row and the length of the row printed last. */
  class DumpState {
    const width: int
    var rowIndex: nat
    var maxRowWidth: nat

    /** A fresh state for a configuration; width 0 means the default. */
    constructor (c: Config)
      ensures width == EffectiveWidth(c.width)
      ensures rowIndex == 0 && maxRowWidth == 0
    {
      width := EffectiveWidth(c.width);
      rowIndex := 0;
      maxRowWidth := 0;
    }

    /** Prints `buf` in rows of `width` bytes, numbering them on from the
        current row index and padding each row that is shorter than the one
        printed before it. */
    method Dump(out: Writer, buf: seq<byte>)
      requires width > 0 || |buf| == 0
      modifies this, out
      ensures var r := Run(buf, width, old(rowIndex), old(maxRowWidth));
        out.text == old(out.text) + r.text && rowIndex == r.rowIndex && maxRowWidth == r.prev
    {
      var N := width;
      var i := 0;
      ghost var pos := 0;
      ghost var start, final := out.text, Run(buf, N, rowIndex, maxRowWidth);
      assert buf[pos..] == buf;
      while i * N < |buf|
        invariant 0 <= i && pos == Min(i * N, |buf|)
        invariant N > 0 || pos == |buf|
        invariant Pending(Run(buf[pos..], N, rowIndex, maxRowWidth), out.text, start, final)
        decreases |buf| - pos
      {
        assert N > 0 && i * N == pos;
        var a, b := i * N, (i + 1) * N;
        MulStep(i + 1, N);
        if b > |buf| {
          b := |buf|;
        }
        DumpNext(out, buf, a, b, start, final);
        i := i + 1;
        pos := b;
      }
      assert buf[pos..] == [];
    }

    /** One pass of the loop in `dump` on the row `buf[a..b]`, accounted
        against the run over the whole buffer: what is printed so far and
        what the rest of the buffer prints still make up the whole run. */
    method DumpNext(out: Writer, buf: seq<byte>, a: nat, b: nat, ghost start: string, ghost final: Progress)
      requires width > 0 && a < b <= |buf| && b == Min(a + width, |buf|)
      requires Pending(Run(buf[a..], width, rowIndex, maxRowWidth), out.text, start, final)
      modifies this, out
      ensures Pending(Run(buf[b..], width, rowIndex, maxRowWidth), out.text, start, final)
    {
      ghost var done, prev, ri := out.text, maxRowWidth, rowIndex;
      DumpRow(out, buf[a..b]);
      DumpAdvance(buf, a, b, width, ri, prev, rowIndex, maxRowWidth,
                  RenderEntry(Entry(Offset(ri, width), buf[a..b], prev)), done, out.text, start, final);
    }

    /** The body of the loop in `dump` once the row is cut: prints `row` as
        the next line, padded against the previous row, and moves on to the
        next row index. */
    method DumpRow(out: Writer, row: seq<byte>)
      requires width > 0
      modifies this, out
      ensures out.text == old(out.text) + RenderEntry(Entry(Offset(old(rowIndex), width), row, old(maxRowWidth)))
      ensures rowIndex == old(rowIndex) + 1 && maxRowWidth == |row|
    {
      ghost var prev := maxRowWidth;
      var hex, ascii := Printable(row);
      if |row| < maxRowWidth {
        var padding := maxRowWidth * 2 + maxRowWidth / 4 - |row| * 2 - |row| / 4;
        PaddedShort(row, prev, padding);
        hex := hex + Spaces(padding);
      }
      assert hex == PaddedHex(row, prev);
      maxRowWidth := |row|;
      out.Write(Line(Offset(rowIndex, width), hex, ascii));
      rowIndex := rowIndex + 1;
    }
  }

  // ---------------------------------------------------------------------
  // Proof scaffolding for `dump`: the account a loop pass keeps, and the
  // glue lemmas that move it from one row to the next. They take the
  // post-state values as parameters so that the method's own proof
  // obligations never unfold `Run` or the rendering functions.

  /** The text printed so far followed by what the rest of the run prints is
      the whole run, which ends in the same state. */
  ghost predicate Pending(rest: Progress, text: string, start: string, final: Progress) {
    text + rest.text == start + final.text && rest.rowIndex == final.rowIndex && rest.prev == final.prev
  }

  /** One row of `dump`, stated on the state after it: printing the row
      from `pos` to `next` as the next line keeps the account of the run.
      This is `RowPrinted` with the new row index and length passed as
      values: matching them against `rowIndex + 1` and `next - pos` is kept
      out of `DumpNext`, where it is expensive. */
  lemma DumpAdvance(buf: seq<byte>, pos: nat, next: nat, N: int, rowIndex: nat, prev: nat,
                    nextIndex: nat, nextPrev: nat, line: string, done: string, text: string,
                    start: string, final: Progress)
    requires N > 0 && pos < next <= |buf| && next == Min(pos + N, |buf|)
    requires Pending(Run(buf[pos..], N, rowIndex, prev), done, start, final)
    requires line == RenderEntry(Entry(Offset(rowIndex, N), buf[pos..next], prev)) && text == done + line
    requires nextIndex == rowIndex + 1 && nextPrev == next - pos
    ensures Pending(Run(buf[next..], N, nextIndex, nextPrev), text, start, final)
  {
    RowPrinted(buf, pos, next, N, rowIndex, prev, line, done, text, start, final);
  }

  /** One row of `dump`, stated on the row index and length it leaves. */
  lemma RowPrinted(buf: seq<byte>, pos: nat, next: nat, N: int, rowIndex: nat, prev: nat,
                   line: string, done: string, text: string, start: string, final: Progress)
    requires N > 0 && pos < next <= |buf| && next == Min(pos + N, |buf|)
    requires Pending(Run(buf[pos..], N, rowIndex, prev), done, start, final)
    requires line == RenderEntry(Entry(Offset(rowIndex, N), buf[pos..next], prev)) && text == done + line
    ensures Pending(Run(buf[next..], N, rowIndex + 1, next - pos), text, start, final)
  {
    RunStep(buf, pos, next, N, rowIndex, prev);
    PendingStep(Run(buf[pos..], N, rowIndex, prev), line, Run(buf[next..], N, rowIndex + 1, next - pos),
                done, text, start, final);
  }

  /** Printing the first line of what remains keeps the account. */
  lemma PendingStep(whole: Progress, line: string, rest: Progress, done: string, text: string,
                    start: string, final: Progress)
    requires whole == Progress(line + rest.text, rest.rowIndex, rest.prev)
    requires Pending(whole, done, start, final) && text == done + line
    ensures Pending(rest, text, start, final)
  {
    Regroup(done, line, rest.text, text, start + final.text);
  }

  /** The spaces `dump` adds to a short row are the padding of its hex field. */
  lemma PaddedShort(row: seq<byte>, prev: nat, padding: int)
    requires |row| < prev && padding == prev * 2 + prev / 4 - |row| * 2 - |row| / 4
    ensures padding == Padding(|row|, prev) > 0
    ensures PaddedHex(row, prev) == HexField(row) + Spaces(padding)
  {
  }

  lemma Regroup(done: string, line: string, rest: string, text: string, target: string)
    requires done + (line + rest) == target && text == done + line
    ensures text + rest == target
  {
    Assoc(done, line, rest);
  }

  /** A configuration: the number of bytes per row (0: the default). */
  datatype Config = Config(width: int) {

    /** The listing of `data`, built in a fresh buffer by a fresh state. */
    method Dump(data: seq<byte>) returns (r: string)
      requires width >= 0 || |data| == 0
      ensures r == Listing(data, EffectiveWidth(width))
    {
      var out := new Writer();
      var s := new DumpState(this);
      s.Dump(out, data);
      r := out.text;
      RunListing(data, EffectiveWidth(width), 0, 0);
      assert [] + Run(data, EffectiveWidth(width), 0, 0).text == r;
    }

    /** Reads `reader` to its end in chunks of `width` bytes, printing every
        chunk as it arrives. The output is the listing of everything the
        source delivered; a clean end (or a short last chunk) reports no
        error, any other error is passed on. */
    method Stream(reader: Reader, out: Writer) returns (err: Option<ReadError>)
      requires width > 0
      modifies reader, out
      ensures out.text == old(out.text) + Listing(old(reader.remaining), width)
      ensures reader.remaining == []
      ensures err == StreamError(reader.end)
    {
      var s := new DumpState(this);
      var buf := new byte[1 * width];
      err := StreamLoop(s, reader, buf, out);
    }

    /** One pass of the loop in `Stream` as written, for a configuration that
        leaves the width at zero: the read buffer is sized from the
        configuration rather than from the defaulted state, so it is empty;
        the read then succeeds with no bytes, nothing is printed and nothing
        is consumed, and the loop goes round again forever. */
    method StreamZeroWidthPass(reader: Reader, out: Writer) returns (err: Option<ReadError>)
      requires width == 0
      modifies reader, out
      ensures err == None && reader.remaining == old(reader.remaining) && out.text == old(out.text)
    {
      var s := new DumpState(this);
      var buf := new byte[1 * width];
      var n, e := reader.ReadFull(buf);
      s.Dump(out, buf[..n]);
      err := e;
    }

    /** `Stream` with the read buffer sized from the defaulted width, so that
        a zero width means the default as it does for `Dump`. */
    method StreamDefaulted(reader: Reader, out: Writer) returns (err: Option<ReadError>)
      requires width >= 0
      modifies reader, out
      ensures out.text == old(out.text) + Listing(old(reader.remaining), EffectiveWidth(width))
      ensures reader.remaining == []
      ensures err == StreamError(reader.end)
    {
      var s := new DumpState(this);
      var buf := new byte[1 * s.width];
      err := StreamLoop(s, reader, buf, out);
    }
  }

  /** The loop of `Stream`: reads the source to its end in chunks of the
      buffer's size, printing every chunk on a fresh state as it arrives. */
  method StreamLoop(s: DumpState, reader: Reader, buf: array<byte>, out: Writer) returns (err: Option<ReadError>)
    requires s.width > 0 && buf.Length == s.width && s.rowIndex == 0 && s.maxRowWidth == 0
    modifies s, reader, buf, out
    ensures out.text == old(out.text) + Listing(old(reader.remaining), s.width)
    ensures reader.remaining == []
    ensures err == StreamError(reader.end)
  {
    ghost var input := reader.remaining;
    ghost var start, final := out.text, Run(input, s.width, 0, 0);
    assert Pending(Run(input, s.width, 0, 0), start, start, final);
    while true
      invariant buf.Length == s.width
      invariant Pending(Run(reader.remaining, s.width, s.rowIndex, s.maxRowWidth), out.text, start, final)
      decreases |reader.remaining|
    {
      var e := StreamStep(s, reader, buf, out, start, final);
      if e != None {
        assert reader.remaining == [];
        Finished(input, s.width, s.rowIndex, s.maxRowWidth, out.text, start, final);
        if e == Some(EOF) || e == Some(UnexpectedEOF) {
          return None;
        }
        return e;
      }
    }
  }

  /** One pass of the loop in `Stream`: read a chunk of `buf.Length` bytes
      (fewer at the end) and print it on the running state. The account of
      the whole run is kept; an error comes only with the end of the input. */
  method StreamStep(s: DumpState, reader: Reader, buf: array<byte>, out: Writer,
                    ghost start: string, ghost final: Progress) returns (err: Option<ReadError>)
    requires s.width > 0 && buf.Length == s.width
    requires Pending(Run(reader.remaining, s.width, s.rowIndex, s.maxRowWidth), out.text, start, final)
    modifies s, reader, buf, out
    ensures Pending(Run(reader.remaining, s.width, s.rowIndex, s.maxRowWidth), out.text, start, final)
    ensures err == None ==> |reader.remaining| < |old(reader.remaining)|
    ensures err != None ==> reader.remaining == [] && err == FullReadError(|old(reader.remaining)|, buf.Length, reader.end)
  {
    ghost var before, ri, prev, done := reader.remaining, s.rowIndex, s.maxRowWidth, out.text;
    var n, e := reader.ReadFull(buf);
    var chunk := buf[..n];
    s.Dump(out, chunk);
    err := e;
    StepAccount(before, n, chunk, reader.remaining, s.width, ri, prev, done,
                out.text, s.rowIndex, s.maxRowWidth, start, final);
  }

  // ---------------------------------------------------------------------
  // Proof scaffolding for `Stream`: the account after one chunk, split into
  // the full-chunk case and the last-chunk case.

  /** The account of `Stream` after one chunk: either the chunk was full, or
      it was the whole rest of the input. */
  lemma StepAccount(before: seq<byte>, n: nat, chunk: seq<byte>, rest: seq<byte>, width: int,
                    rowIndex: nat, prev: nat, done: string, text: string,
                    nextIndex: nat, nextPrev: nat, start: string, final: Progress)
    requires width > 0 && n <= |before| && (n == width || n == |before|)
    requires chunk == before[..n] && rest == before[n..]
    requires Pending(Run(before, width, rowIndex, prev), done, start, final)
    requires var r := Run(chunk, width, rowIndex, prev);
      text == done + r.text && nextIndex == r.rowIndex && nextPrev == r.prev
    ensures Pending(Run(rest, width, nextIndex, nextPrev), text, start, final)
  {
    if n == width {
      FullChunk(before, n, chunk, rest, width, rowIndex, prev, done, text, nextIndex, nextPrev, start, final);
    } else {
      LastChunk(before, n, chunk, rest, width, rowIndex, prev, done, text, nextIndex, nextPrev, start, final);
    }
  }

  /** A full chunk: the run over the rest goes on from the next row. */
  lemma FullChunk(before: seq<byte>, n: nat, chunk: seq<byte>, rest: seq<byte>, width: int,
                    rowIndex: nat, prev: nat, done: string, text: string,
                    nextIndex: nat, nextPrev: nat, start: string, final: Progress)
    requires width > 0 && n <= |before| && n == width
    requires chunk == before[..n] && rest == before[n..]
    requires Pending(Run(before, width, rowIndex, prev), done, start, final)
    requires var r := Run(chunk, width, rowIndex, prev);
      text == done + r.text && nextIndex == r.rowIndex && nextPrev == r.prev
    ensures Pending(Run(rest, width, nextIndex, nextPrev), text, start, final)
  {
    RunSplit(before, width, rowIndex, prev);
    Regroup(done, Run(chunk, width, rowIndex, prev).text, Run(rest, width, nextIndex, nextPrev).text,
            text, start + final.text);
  }

  /** A chunk that is the whole rest of the input completes the account. */
  lemma LastChunk(before: seq<byte>, n: nat, chunk: seq<byte>, rest: seq<byte>, width: int,
                    rowIndex: nat, prev: nat, done: string, text: string,
                    nextIndex: nat, nextPrev: nat, start: string, final: Progress)
    requires width > 0 && n <= |before| && n == |before|
    requires chunk == before[..n] && rest == before[n..]
    requires Pending(Run(before, width, rowIndex, prev), done, start, final)
    requires var r := Run(chunk, width, rowIndex, prev);
      text == done + r.text && nextIndex == r.rowIndex && nextPrev == r.prev
    ensures Pending(Run(rest, width, nextIndex, nextPrev), text, start, final)
  {
    assert rest == [] && before == chunk;
    assert text + [] == text;
  }

  /** Once the input is used up, the text printed is the listing of it. */
  lemma Finished(input: seq<byte>, width: int, rowIndex: nat, prev: nat, text: string,
                 start: string, final: Progress)
    requires width > 0 && final == Run(input, width, 0, 0)
    requires Pending(Run([], width, rowIndex, prev), text, start, final)
    ensures text == start + Listing(input, width)
  {
    RunListing(input, width, 0, 0);
    assert text + [] == text;
  }

  /** The listing of `buf` with the default configuration. */
  method Dump(buf: seq<byte>) returns (r: string)
    ensures r == Listing(buf, DefaultWidth)
  {
    var c := Config(DefaultWidth);
    r := c.Dump(buf);
  }
}
