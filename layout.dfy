/** The layout of a listing: how a buffer is cut into rows, how a row's
    offset is printed (`%5d`), how a row shorter than the previous one is
    padded, and how the lines of consecutive rows follow each other. */
module Layout {

  import opened Render

  function Min(a: int, b: int): int {
    if a < b then a else b
  }

  function Max(a: int, b: int): int {
    if a < b then b else a
  }

  // ---------------------------------------------------------------------
  // Rows.

  /** Cuts `data` into consecutive rows of `width` bytes; the last row holds
      what remains. An empty buffer has no rows. */
  function Rows(data: seq<byte>, width: int): (rows: seq<seq<byte>>)
    requires width > 0 || |data| == 0
    ensures (rows == []) == (data == [])
    decreases |data|
  {
    if |data| == 0 then []
    else
      var k := Min(width, |data|);
      [data[..k]] + Rows(data[k..], width)
  }

  /** The rows laid end to end. */
  function Flatten(rows: seq<seq<byte>>): seq<byte> {
    if rows == [] then [] else rows[0] + Flatten(rows[1..])
  }

  /** The rows concatenate back to the buffer. */
  lemma {:induction false} RowsFlatten(data: seq<byte>, width: int)
    requires width > 0 || |data| == 0
    ensures Flatten(Rows(data, width)) == data
    decreases |data|
  {
    if |data| > 0 {
      var k := Min(width, |data|);
      var rows := Rows(data, width);
      assert rows[0] == data[..k] && rows[1..] == Rows(data[k..], width);
      RowsFlatten(data[k..], width);
      assert data == data[..k] + data[k..];
    }
  }

  /** Every row is non-empty and at most `width` long; every row but the last
      is exactly `width` long. */
  lemma {:induction false} RowsShape(data: seq<byte>, width: int, i: nat)
    requires width > 0 && i < |Rows(data, width)|
    ensures 0 < |Rows(data, width)[i]| <= width
    ensures i < |Rows(data, width)| - 1 ==> |Rows(data, width)[i]| == width
    decreases |data|
  {
    var k := Min(width, |data|);
    var rows := Rows(data, width);
    assert rows[0] == data[..k] && rows[1..] == Rows(data[k..], width);
    if i > 0 {
      assert rows[i] == Rows(data[k..], width)[i - 1];
      RowsShape(data[k..], width, i - 1);
    } else if |rows| > 1 {
      assert data[k..] != [];
    }
  }

  /** Row `i` is `data[i*width .. min((i+1)*width, |data|)]`. */
  lemma RowAt(data: seq<byte>, width: int, i: nat)
    requires width > 0 && i < |Rows(data, width)|
    ensures i * width < |data|
    ensures Rows(data, width)[i] == data[i * width .. Min((i + 1) * width, |data|)]
  {
    RowAtOffset(data, width, i);
    OffsetProduct(i, width);
    OffsetProduct(i + 1, width);
  }

  lemma {:induction false} RowAtOffset(data: seq<byte>, width: int, i: nat)
    requires width > 0 && i < |Rows(data, width)|
    ensures Offset(i, width) < |data|
    ensures Rows(data, width)[i] == data[Offset(i, width) .. Min(Offset(i + 1, width), |data|)]
    decreases |data|
  {
    var k := Min(width, |data|);
    var rows := Rows(data, width);
    assert rows[0] == data[..k] && rows[1..] == Rows(data[k..], width);
    if i > 0 {
      var rest := data[k..];
      assert rest != [] && k == width;
      RowAtOffset(rest, width, i - 1);
      assert rows[i] == Rows(rest, width)[i - 1];
      var p, q := Offset(i - 1, width), Min(Offset(i, width), |rest|);
      assert Offset(i, width) == p + width && Offset(i + 1, width) == Offset(i, width) + width;
      SliceShift(data, k, p, q);
    }
  }

  /** A slice of a suffix is a slice of the whole, shifted. */
  lemma SliceShift(data: seq<byte>, k: nat, p: nat, q: nat)
    requires k <= |data| && p <= q <= |data| - k
    ensures data[k..][p..q] == data[k + p .. k + q]
  {
  }

  /** The front and the back of a concatenation cut inside its first part. */
  lemma SliceAppend(a: seq<byte>, b: seq<byte>, n: nat)
    requires n <= |a|
    ensures (a + b)[..n] == a[..n] && (a + b)[n..] == a[n..] + b
  {
  }

  /** There are exactly ceil(|data| / width) rows: `width` times the number
      of rows covers the buffer, one row fewer does not. */
  lemma {:induction false} RowsCount(data: seq<byte>, width: int)
    requires width > 0
    ensures |data| <= |Rows(data, width)| * width
    ensures |data| > 0 ==> (|Rows(data, width)| - 1) * width < |data|
    decreases |data|
  {
    if |data| > 0 {
      var k := Min(width, |data|);
      var n := |Rows(data[k..], width)|;
      assert |Rows(data, width)| == n + 1;
      RowsCount(data[k..], width);
      assert (n + 1) * width == n * width + width;
      if |data| <= width {
        assert data[k..] == [];
        assert n == 0;
      }
    }
  }

  lemma MulStep(k: nat, width: int)
    requires k > 0
    ensures k * width == (k - 1) * width + width
  {
  }

  /** A buffer of at least one full row starts with that row. */
  lemma RowsCons(x: seq<byte>, width: int)
    requires width > 0 && |x| >= width
    ensures Rows(x, width) == [x[..width]] + Rows(x[width..], width)
  {
  }

  /** A buffer of `k` full rows followed by more bytes cuts into those `k`
      rows followed by the rows of the rest. */
  lemma {:induction false} RowsAppend(a: seq<byte>, b: seq<byte>, width: int, k: nat)
    requires width > 0 && |a| == k * width
    ensures Rows(a + b, width) == Rows(a, width) + Rows(b, width)
    ensures |Rows(a, width)| == k
    ensures k > 0 ==> |Rows(a, width)[k - 1]| == width
    decreases k
  {
    if k == 0 {
      assert a == [] && a + b == b;
    } else {
      MulStep(k, width);
      var rest := a[width..];
      SliceAppend(a, b, width);
      RowsCons(a + b, width);
      RowsCons(a, width);
      RowsAppend(rest, b, width, k - 1);
      Assoc([a[..width]], Rows(rest, width), Rows(b, width));
      if k > 1 {
        assert Rows(a, width)[k - 1] == Rows(rest, width)[k - 2];
      }
    }
  }

  // ---------------------------------------------------------------------
  // The offset column.

  function DigitChar(d: int): (c: char)
    requires 0 <= d < 10
    ensures '0' <= c <= '9'
  {
    (48 + d) as char
  }

  predicate IsDigits(s: string) {
    forall k :: 0 <= k < |s| ==> '0' <= s[k] <= '9'
  }

  /** The decimal digits of `n`, most significant first, without leading zeros. */
  function Decimal(n: nat): (s: string)
    ensures |s| > 0
  {
    if n < 10 then [DigitChar(n)] else Decimal(n / 10) + [DigitChar(n % 10)]
  }

  /** The decimal form is all digits, led by a non-zero digit unless it is "0". */
  lemma {:induction false} DecimalDigits(n: nat)
    ensures IsDigits(Decimal(n))
    ensures |Decimal(n)| > 1 ==> Decimal(n)[0] != '0'
  {
    if n >= 10 {
      DecimalDigits(n / 10);
      var s := Decimal(n);
      assert s[..|s| - 1] == Decimal(n / 10);
      assert forall k :: 0 <= k < |s| - 1 ==> s[k] == Decimal(n / 10)[k];
      if n / 10 < 10 {
        assert Decimal(n / 10) == [DigitChar(n / 10)];
      }
    }
  }

  /** The value of a string of decimal digits. */
  function ParseDecimal(s: string): nat
    requires IsDigits(s)
  {
    if s == [] then 0 else ParseDecimal(s[..|s| - 1]) * 10 + (s[|s| - 1] as int - 48)
  }

  lemma {:induction false} DecimalRoundTrip(n: nat)
    ensures IsDigits(Decimal(n)) && ParseDecimal(Decimal(n)) == n
  {
    DecimalDigits(n);
    if n >= 10 {
      DecimalRoundTrip(n / 10);
      var s := Decimal(n);
      assert s[..|s| - 1] == Decimal(n / 10);
    }
  }

  /** `n` spaces. */
  function Spaces(n: nat): (s: string)
    ensures |s| == n
  {
    if n == 0 then [] else [' '] + Spaces(n - 1)
  }

  /** Spaces are plain text with no escape character. */
  lemma {:induction false} SpacesPlain(n: nat)
    ensures EscChar !in Spaces(n)
  {
    if n > 0 {
      SpacesPlain(n - 1);
      assert Spaces(n) == [' '] + Spaces(n - 1);
    }
  }

  /** `%5d`: the decimal digits right-aligned in a field of at least five characters. */
  function OffsetField(n: nat): string {
    var d := Decimal(n);
    if |d| < 5 then Spaces(5 - |d|) + d else d
  }

  /** `s` without its leading spaces. */
  function TrimLeft(s: string): string {
    if s != [] && s[0] == ' ' then TrimLeft(s[1..]) else s
  }

  lemma {:induction false} TrimSpaces(n: nat, d: string)
    requires d == [] || d[0] != ' '
    ensures TrimLeft(Spaces(n) + d) == d
  {
    if n > 0 {
      assert (Spaces(n) + d)[1..] == Spaces(n - 1) + d;
      TrimSpaces(n - 1, d);
    } else {
      assert Spaces(n) + d == d;
    }
  }

  /** The offset column is as wide as the number or five characters, and it
      reads back as the offset. */
  lemma OffsetFieldReads(n: nat)
    ensures |OffsetField(n)| == Max(5, |Decimal(n)|)
    ensures TrimLeft(OffsetField(n)) == Decimal(n) && IsDigits(Decimal(n))
    ensures ParseDecimal(TrimLeft(OffsetField(n))) == n
  {
    var d := Decimal(n);
    DecimalRoundTrip(n);
    assert '0' <= d[0] <= '9';
    if |d| < 5 {
      TrimSpaces(5 - |d|, d);
    } else {
      TrimSpaces(0, d);
      assert Spaces(0) + d == d;
    }
    DecimalRoundTrip(n);
  }

  /** Offsets below 100000 fill exactly the five-character field. */
  lemma {:induction false} DecimalShort(n: nat, bound: nat, digits: nat)
    requires n < bound && digits >= 1 && bound == Pow10(digits)
    ensures |Decimal(n)| <= digits
  {
    if n >= 10 {
      assert digits > 1;
      assert Pow10(digits) == 10 * Pow10(digits - 1);
      DecimalShort(n / 10, Pow10(digits - 1), digits - 1);
    }
  }

  function Pow10(k: nat): nat {
    if k == 0 then 1 else 10 * Pow10(k - 1)
  }

  lemma OffsetFieldFive(n: nat)
    requires n < 100000
    ensures |OffsetField(n)| == 5
  {
    assert Pow10(5) == 100000;
    DecimalShort(n, 100000, 5);
  }

  // ---------------------------------------------------------------------
  // Lines.

  /** `%5d: %s | %s\n`. */
  function Line(offset: nat, hex: string, ascii: string): string {
    OffsetField(offset) + ": " + hex + " | " + ascii + "\n"
  }

  /** The spaces added after the hex field of a row of `len` bytes that
      follows a longer row of `prev` bytes, as the source computes them. */
  function Padding(len: nat, prev: nat): (p: nat)
    requires len < prev
    ensures p > 0
  {
    prev * 2 + prev / 4 - len * 2 - len / 4
  }

  /** The hex field of a row, padded when it is shorter than the previous row. */
  function PaddedHex(row: seq<byte>, prev: nat): string {
    if |row| < prev then HexField(row) + Spaces(Padding(|row|, prev)) else HexField(row)
  }

  /** What the padded hex field of a row shows. */
  function PlainPaddedHex(row: seq<byte>, prev: nat): string {
    if |row| < prev then PlainHex(row) + Spaces(Padding(|row|, prev)) else PlainHex(row)
  }

  lemma StripPaddedHex(row: seq<byte>, prev: nat, rest: string)
    ensures Strip(PaddedHex(row, prev) + rest) == PlainPaddedHex(row, prev) + Strip(rest)
  {
    if |row| < prev {
      var pad := Spaces(Padding(|row|, prev));
      Assoc(HexField(row), pad, rest);
      StripHexField(row, pad + rest);
      SpacesPlain(Padding(|row|, prev));
      StripPlain(pad, rest);
    } else {
      StripHexField(row, rest);
    }
  }

  /** The padding never goes negative, and a padded row shows exactly as wide
      a hex field as the previous row: the `|` column stays where it was. A
      row at least as long as the previous one is not padded. */
  lemma PaddedHexWidth(row: seq<byte>, prev: nat)
    ensures |Strip(PaddedHex(row, prev))| == Max(HexWidth(|row|), HexWidth(prev))
    ensures |row| < prev ==> |Strip(PaddedHex(row, prev))| == HexWidth(prev)
    ensures |row| >= prev ==> PaddedHex(row, prev) == HexField(row)
  {
    StripPaddedHex(row, prev, []);
    assert PaddedHex(row, prev) + [] == PaddedHex(row, prev);
    assert PlainPaddedHex(row, prev) + [] == PlainPaddedHex(row, prev);
    PlainHexWidth(row);
    HexWidthMonotone(if |row| < prev then |row| else prev, if |row| < prev then prev else |row|);
  }

  /** What a line shows on a terminal. */
  function PlainLine(offset: nat, row: seq<byte>, prev: nat): string {
    OffsetField(offset) + ": " + PlainPaddedHex(row, prev) + " | " + Glyphs(row) + "\n"
  }

  lemma OffsetPlain(n: nat)
    ensures EscChar !in OffsetField(n)
  {
    var d := Decimal(n);
    DecimalDigits(n);
    assert forall k :: 0 <= k < |d| ==> d[k] != EscChar;
    if |d| < 5 {
      SpacesPlain(5 - |d|);
    }
  }

  /** Proof scaffolding: a line followed by more text, regrouped from the right. */
  lemma LineNest(off: string, hex: string, ascii: string, rest: string)
    ensures off + ": " + hex + " | " + ascii + "\n" + rest
         == (off + ": ") + (hex + (" | " + (ascii + ("\n" + rest))))
  {
    var a := off + ": ";
    Assoc(a + hex + " | " + ascii, "\n", rest);
    Assoc(a + hex + " | ", ascii, "\n" + rest);
    Assoc(a + hex, " | ", ascii + ("\n" + rest));
    Assoc(a, hex, " | " + (ascii + ("\n" + rest)));
  }

  /** Joining plain text around a field that strips to its visible form. */
  lemma StripJoin(off: string, hex: string, ascii: string, rest: string, shownHex: string, glyphs: string)
    requires EscChar !in off
    requires Strip(hex + (" | " + (ascii + ("\n" + rest)))) == shownHex + Strip(" | " + (ascii + ("\n" + rest)))
    requires Strip(ascii + ("\n" + rest)) == glyphs + Strip("\n" + rest)
    ensures Strip(off + ": " + hex + " | " + ascii + "\n" + rest)
         == off + ": " + shownHex + " | " + glyphs + "\n" + Strip(rest)
  {
    var t2 := ascii + ("\n" + rest);
    var t1 := hex + (" | " + t2);
    LineNest(off, hex, ascii, rest);
    LineNest(off, shownHex, glyphs, Strip(rest));
    StripPlain(off + ": ", t1);
    StripPlain(" | ", t2);
    StripPlain("\n", rest);
  }

  /** A rendered line shows the offset, the pairs with their separators and
      padding, the separator ` | `, one glyph per byte and the newline. */
  lemma StripLine(offset: nat, row: seq<byte>, prev: nat, rest: string)
    ensures Strip(Line(offset, PaddedHex(row, prev), AsciiField(row)) + rest)
         == PlainLine(offset, row, prev) + Strip(rest)
  {
    var t2 := AsciiField(row) + ("\n" + rest);
    OffsetPlain(offset);
    StripPaddedHex(row, prev, " | " + t2);
    StripAsciiField(row, "\n" + rest);
    StripJoin(OffsetField(offset), PaddedHex(row, prev), AsciiField(row), rest,
              PlainPaddedHex(row, prev), Glyphs(row));
  }

  // ---------------------------------------------------------------------
  // Consecutive rows.

  /** What `dump` prints for one row: its offset, the row, and the length of
      the row before it, against which it is padded. */
  datatype Entry = Entry(offset: nat, row: seq<byte>, prev: nat)

  /** The offset printed for row `rowIndex` of rows `width` bytes wide: the
      row index times the width, counted up one row at a time. */
  function Offset(rowIndex: nat, width: nat): nat {
    if rowIndex == 0 then 0 else Offset(rowIndex - 1, width) + width
  }

  lemma {:induction false} OffsetProduct(rowIndex: nat, width: nat)
    ensures Offset(rowIndex, width) == rowIndex * width
  {
    if rowIndex > 0 {
      OffsetProduct(rowIndex - 1, width);
      assert (rowIndex - 1) * width + width == rowIndex * width;
    }
  }

  /** The entries of consecutive rows: row `j` gets offset
      `(rowIndex + j) * width` and is padded against the row before it
      (against `prev` for the first one). */
  function Plan(rows: seq<seq<byte>>, width: int, rowIndex: nat, prev: nat): seq<Entry>
    requires width > 0 || rows == []
  {
    if rows == [] then []
    else [Entry(Offset(rowIndex, width), rows[0], prev)] + Plan(rows[1..], width, rowIndex + 1, |rows[0]|)
  }

  /** The line printed for an entry. */
  function RenderEntry(e: Entry): string {
    Line(e.offset, PaddedHex(e.row, e.prev), AsciiField(e.row))
  }

  /** What the line printed for an entry shows on a terminal. */
  function PlainEntry(e: Entry): string {
    PlainLine(e.offset, e.row, e.prev)
  }

  /** The text of the entries, one after the other. */
  function Join(es: seq<Entry>, render: Entry -> string): string {
    if es == [] then [] else render(es[0]) + Join(es[1..], render)
  }

  /** The length of the row before row `j` (`prev` before the first row). */
  function PrevLen(rows: seq<seq<byte>>, prev: nat, j: nat): nat
    requires j <= |rows|
  {
    if j == 0 then prev else |rows[j - 1]|
  }

  /** The previous-row length once all rows are printed. */
  function After(rows: seq<seq<byte>>, prev: nat): nat {
    PrevLen(rows, prev, |rows|)
  }

  lemma {:induction false} PlanLength(rows: seq<seq<byte>>, width: int, rowIndex: nat, prev: nat)
    requires width > 0 || rows == []
    ensures |Plan(rows, width, rowIndex, prev)| == |rows|
    decreases |rows|
  {
    if rows != [] {
      PlanLength(rows[1..], width, rowIndex + 1, |rows[0]|);
    }
  }

  /** One entry per row; entry `j` carries offset `(rowIndex + j) * width`, so
      consecutive offsets differ by exactly `width`, and is padded against
      row `j - 1`. */
  lemma {:induction false} PlanAt(rows: seq<seq<byte>>, width: int, rowIndex: nat, prev: nat, j: nat)
    requires width > 0 && j < |rows|
    ensures |Plan(rows, width, rowIndex, prev)| == |rows|
    ensures Plan(rows, width, rowIndex, prev)[j] == Entry(Offset(rowIndex + j, width), rows[j], PrevLen(rows, prev, j))
    decreases j
  {
    PlanLength(rows, width, rowIndex, prev);
    if j > 0 {
      PlanAt(rows[1..], width, rowIndex + 1, |rows[0]|, j - 1);
      assert rowIndex + 1 + (j - 1) == rowIndex + j;
    }
  }

  /** Planning two groups of rows one after the other is planning them all,
      the second group continuing the first one's row index and previous row. */
  lemma {:induction false} PlanAppend(r1: seq<seq<byte>>, r2: seq<seq<byte>>, width: int, rowIndex: nat, prev: nat)
    requires width > 0
    ensures Plan(r1 + r2, width, rowIndex, prev)
         == Plan(r1, width, rowIndex, prev) + Plan(r2, width, rowIndex + |r1|, After(r1, prev))
    decreases |r1|
  {
    if r1 == [] {
      assert r1 + r2 == r2;
    } else {
      var x := r1 + r2;
      assert x[0] == r1[0] && x[1..] == r1[1..] + r2;
      PlanAppend(r1[1..], r2, width, rowIndex + 1, |r1[0]|);
      assert After(r1[1..], |r1[0]|) == After(r1, prev);
    }
  }

  lemma {:induction false} JoinAppend(a: seq<Entry>, b: seq<Entry>, render: Entry -> string)
    ensures Join(a + b, render) == Join(a, render) + Join(b, render)
    decreases |a|
  {
    if a == [] {
      assert a + b == b;
    } else {
      assert (a + b)[0] == a[0] && (a + b)[1..] == a[1..] + b;
      JoinAppend(a[1..], b, render);
    }
  }

  /** The printed entries show their plain lines: escapes have no width. */
  lemma {:induction false} StripJoinEntries(es: seq<Entry>)
    ensures Strip(Join(es, RenderEntry)) == Join(es, PlainEntry)
    decreases |es|
  {
    if es != [] {
      var rest := Join(es[1..], RenderEntry);
      StripLine(es[0].offset, es[0].row, es[0].prev, rest);
      StripJoinEntries(es[1..]);
    } else {
      assert Strip([]) == [];
    }
  }

  // ---------------------------------------------------------------------
  // Whole listings.

  /** The entries `dump` prints for `data` from row index `rowIndex` after a
      row of `prev` bytes. */
  function DumpPlan(data: seq<byte>, width: int, rowIndex: nat, prev: nat): seq<Entry>
    requires width > 0 || |data| == 0
  {
    Plan(Rows(data, width), width, rowIndex, prev)
  }

  /** The text printed for `data` by a fresh formatter of the given width. */
  function Listing(data: seq<byte>, width: int): string
    requires width > 0 || |data| == 0
  {
    Join(DumpPlan(data, width, 0, 0), RenderEntry)
  }

  /** Printing `k` full rows and then more bytes on the same formatter state
      prints the same entries as printing all of it at once. */
  lemma ListingSplit(a: seq<byte>, b: seq<byte>, width: int, k: nat, rowIndex: nat, prev: nat, render: Entry -> string)
    requires width > 0 && |a| == k * width
    ensures Join(DumpPlan(a + b, width, rowIndex, prev), render)
         == Join(DumpPlan(a, width, rowIndex, prev), render)
          + Join(DumpPlan(b, width, rowIndex + k, if k == 0 then prev else width), render)
  {
    RowsAppend(a, b, width, k);
    PlanAppend(Rows(a, width), Rows(b, width), width, rowIndex, prev);
    JoinAppend(DumpPlan(a, width, rowIndex, prev),
               DumpPlan(b, width, rowIndex + k, After(Rows(a, width), prev)), render);
  }

  /** In a listing of more than one row every hex column shows as wide as a
      full row's, so the ` | ` separator lines up on every line whose offset
      fits the five-character field; a single row is not padded. */
  lemma ListingAligned(data: seq<byte>, width: int, j: nat)
    requires width > 0 && j < |Rows(data, width)|
    ensures |DumpPlan(data, width, 0, 0)| == |Rows(data, width)|
    ensures var e := DumpPlan(data, width, 0, 0)[j];
      |Strip(PaddedHex(e.row, e.prev))|
        == if |Rows(data, width)| == 1 then HexWidth(|data|) else HexWidth(width)
    ensures var e := DumpPlan(data, width, 0, 0)[j];
      e.offset < 100000 ==>
        |OffsetField(e.offset)| + |": "| + |Strip(PaddedHex(e.row, e.prev))|
          == 7 + if |Rows(data, width)| == 1 then HexWidth(|data|) else HexWidth(width)
  {
    var rows := Rows(data, width);
    PlanAt(rows, width, 0, 0, j);
    var e := DumpPlan(data, width, 0, 0)[j];
    assert e.row == rows[j] && e.prev == PrevLen(rows, 0, j);
    RowsShape(data, width, j);
    PaddedHexWidth(rows[j], PrevLen(rows, 0, j));
    if |rows| == 1 {
      RowsFlatten(data, width);
      assert Flatten(rows) == rows[0] + Flatten(rows[1..]);
      assert rows[0] + [] == rows[0];
    } else if j > 0 {
      RowsShape(data, width, j - 1);
      HexWidthMonotone(|rows[j]|, width);
    }
    if e.offset < 100000 {
      OffsetFieldFive(e.offset);
    }
  }

  /** One iteration of `dump`: the row at `pos` is printed first, with the
      current row index and previous-row length, and the rest continues from
      the next row index with this row's length. */
  lemma DumpStep(data: seq<byte>, pos: nat, next: nat, width: int, rowIndex: nat, prev: nat, render: Entry -> string)
    requires width > 0 && pos < |data| && next == Min(pos + width, |data|)
    ensures Join(DumpPlan(data[pos..], width, rowIndex, prev), render)
         == render(Entry(Offset(rowIndex, width), data[pos..next], prev))
          + Join(DumpPlan(data[next..], width, rowIndex + 1, next - pos), render)
    ensures |Rows(data[pos..], width)| == 1 + |Rows(data[next..], width)|
    ensures After(Rows(data[pos..], width), prev) == After(Rows(data[next..], width), next - pos)
  {
    var t := data[pos..];
    var k := Min(width, |t|);
    assert k == next - pos;
    assert t[..k] == data[pos..next] && t[k..] == data[next..];
    var rows := Rows(t, width);
    assert rows == [data[pos..next]] + Rows(data[next..], width);
    assert rows[1..] == Rows(data[next..], width);
    var plan := DumpPlan(t, width, rowIndex, prev);
    assert plan == [Entry(Offset(rowIndex, width), data[pos..next], prev)] + DumpPlan(data[next..], width, rowIndex + 1, next - pos);
    assert plan[1..] == DumpPlan(data[next..], width, rowIndex + 1, next - pos);
  }

  // ---------------------------------------------------------------------
  // The formatter's run, row by row.

  /** What printing leaves behind: the text printed, the next row index and
      the length of the last row printed. */
  datatype Progress = Progress(text: string, rowIndex: nat, prev: nat)

  /** `dump` on `data`, one row at a time, from row index `rowIndex` after a
      row of `prev` bytes. */
  function Run(data: seq<byte>, width: int, rowIndex: nat, prev: nat): Progress
    requires width > 0 || |data| == 0
    decreases |data|
  {
    if |data| == 0 then Progress([], rowIndex, prev)
    else
      var k := Min(width, |data|);
      var rest := Run(data[k..], width, rowIndex + 1, k);
      Progress(RenderEntry(Entry(Offset(rowIndex, width), data[..k], prev)) + rest.text, rest.rowIndex, rest.prev)
  }

  /** A run prints the entries of the plan, moves the row index on by the
      number of rows, and remembers the length of the last row. */
  lemma {:induction false} RunListing(data: seq<byte>, width: int, rowIndex: nat, prev: nat)
    requires width > 0 || |data| == 0
    ensures Run(data, width, rowIndex, prev)
         == Progress(Join(DumpPlan(data, width, rowIndex, prev), RenderEntry),
                     rowIndex + |Rows(data, width)|, After(Rows(data, width), prev))
    decreases |data|
  {
    if |data| == 0 {
      assert Rows(data, width) == [];
    } else {
      var k := Min(width, |data|);
      RunListing(data[k..], width, rowIndex + 1, k);
      assert data[0..] == data;
      DumpStep(data, 0, k, width, rowIndex, prev, RenderEntry);
    }
  }

  /** Running from `pos` prints the row up to `next` and runs on from there. */
  lemma RunStep(data: seq<byte>, pos: nat, next: nat, width: int, rowIndex: nat, prev: nat)
    requires width > 0 && pos < next <= |data| && next == Min(pos + width, |data|)
    ensures var rest := Run(data[next..], width, rowIndex + 1, next - pos);
      Run(data[pos..], width, rowIndex, prev)
        == Progress(RenderEntry(Entry(Offset(rowIndex, width), data[pos..next], prev)) + rest.text,
                    rest.rowIndex, rest.prev)
  {
    var t := data[pos..];
    assert t[..next - pos] == data[pos..next] && t[next - pos..] == data[next..];
  }

  /** Running on input that holds at least one full row is running on that
      row and then on the rest from the next row index. */
  lemma RunSplit(data: seq<byte>, width: int, rowIndex: nat, prev: nat)
    requires 0 < width <= |data|
    ensures Run(data[..width], width, rowIndex, prev).rowIndex == rowIndex + 1
    ensures Run(data[..width], width, rowIndex, prev).prev == width
    ensures Run(data, width, rowIndex, prev)
         == Progress(Run(data[..width], width, rowIndex, prev).text + Run(data[width..], width, rowIndex + 1, width).text,
                     Run(data[width..], width, rowIndex + 1, width).rowIndex, Run(data[width..], width, rowIndex + 1, width).prev)
  {
    RunStep(data, 0, width, width, rowIndex, prev);
    assert data[0..] == data && data[0..width] == data[..width];
    var a := data[..width];
    RunStep(a, 0, width, width, rowIndex, prev);
    assert a[0..] == a && a[0..width] == a && a[width..] == [];
    var line := RenderEntry(Entry(Offset(rowIndex, width), a, prev));
    assert Run(a, width, rowIndex, prev) == Progress(line + [], rowIndex + 1, width);
    assert line + [] == line;
  }
}
