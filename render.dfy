/** Rendering of one row: the coloured hex field and the coloured ASCII field
    that `printable` builds, the ANSI colour wrapper `color`, and the view of
    a rendered string with its escape sequences removed (what a terminal
    shows), on which the widths and the round trip are stated. */
module Render {

  import opened Wrappers

  /** One byte of input. */
  type byte = b: int | 0 <= b < 256

  // ANSI escape building blocks, as the source spells them.
  const EscChar: char := '\U{1B}'
  const Esc: string := [EscChar, '[']
  const Reset: string := "0"
  const Term: string := "m"
  const White: string := "37"
  const Gray: string := "90"
  const DarkGreen: string := "32"
  const Green: string := "92"
  const Dim: string := "2;"
  const NoAttr: string := ""

  /** The glyph shown for a byte outside the printable range (a shaded block). */
  const Placeholder: char := '\U{2591}'

  /** Wraps `str` in its own escape sequence: select `attr` and `color`,
      show `str`, then reset all attributes. */
  function Color(str: string, attr: string, color: string): string
  {
    Esc + attr + color + Term +
    str +
    Esc + Reset + Term
  }

  /** Every coloured string starts with an escape and ends with a reset. */
  lemma ColorShape(str: string, attr: string, color: string)
    ensures var r := Color(str, attr, color);
      |r| >= |Esc + Reset + Term| && r[..|Esc|] == Esc && r[|r| - |Esc + Reset + Term|..] == Esc + Reset + Term
  {
  }

  // ---------------------------------------------------------------------
  // What a terminal shows: escape sequences removed.

  /** Drops the body of an escape sequence: everything up to and including
      the first 'm'. */
  function SkipEscape(s: string): (r: string)
    ensures |r| <= |s| && r == s[|s| - |r|..]
  {
    if s == [] then []
    else if s[0] == 'm' then s[1..]
    else SkipEscape(s[1..])
  }

  /** The visible characters of `s`: every escape sequence `ESC ... m` removed. */
  function Strip(s: string): string
    decreases |s|
  {
    if s == [] then []
    else if s[0] == EscChar then Strip(SkipEscape(s[1..]))
    else [s[0]] + Strip(s[1..])
  }

  lemma {:induction false} SkipPast(p: string, t: string)
    requires 'm' !in p
    ensures SkipEscape(p + Term + t) == t
  {
    if p == [] {
      assert p + Term + t == ['m'] + t;
    } else {
      assert (p + Term + t)[1..] == p[1..] + Term + t;
      SkipPast(p[1..], t);
    }
  }

  /** Text without an escape character is shown unchanged. */
  lemma {:induction false} StripPlain(str: string, rest: string)
    requires EscChar !in str
    ensures Strip(str + rest) == str + Strip(rest)
  {
    if str != [] {
      assert str[0] in str;
      assert (str + rest)[0] == str[0];
      assert (str + rest)[1..] == str[1..] + rest;
      StripPlain(str[1..], rest);
      assert str == [str[0]] + str[1..];
    } else {
      assert str + rest == rest;
    }
  }

  /** A coloured string shows exactly its text: the escapes have no width. */
  lemma StripColor(str: string, attr: string, color: string, rest: string)
    requires EscChar !in str && 'm' !in attr && 'm' !in color
    ensures Strip(Color(str, attr, color) + rest) == str + Strip(rest)
  {
    var open, close := Esc + attr + color + Term, Esc + Reset + Term;
    ColorParts(str, attr, color);
    Assoc(open, str + close, rest);
    Assoc(str, close, rest);
    Assoc(Esc, attr, color);
    StripEscape(attr + color, str + (close + rest));
    StripPlain(str, close + rest);
    StripEscape(Reset, rest);
  }

  /** A coloured string is its opening escape, its text and its closing escape. */
  lemma ColorParts(str: string, attr: string, color: string)
    ensures Color(str, attr, color) == (Esc + attr + color + Term) + (str + (Esc + Reset + Term))
  {
    var open, a := Esc + attr + color + Term, Esc + attr + color + Term + str;
    Assoc(a, Esc, Reset);
    Assoc(a, Esc + Reset, Term);
    Assoc(open, str, Esc + Reset + Term);
  }

  /** Proof scaffolding: regrouping a concatenation, called where the
      solver would otherwise have to prove sequence equality itself. */
  lemma Assoc<T>(a: seq<T>, b: seq<T>, c: seq<T>)
    ensures (a + b) + c == a + (b + c)
  {
  }

  /** An escape sequence whose body has no 'm' before its terminator shows nothing. */
  lemma StripEscape(body: string, rest: string)
    requires 'm' !in body
    ensures Strip(Esc + body + Term + rest) == Strip(rest)
  {
    var x := Esc + body + Term + rest;
    var p := ['['] + body;
    assert x[0] == EscChar;
    assert x[1..] == p + Term + rest;
    SkipPast(p, rest);
  }

  // ---------------------------------------------------------------------
  // Hex digits.

  /** The lowercase hex digit of a value below 16. */
  function HexDigit(d: int): (c: char)
    requires 0 <= d < 16
    ensures ('0' <= c <= '9') || ('a' <= c <= 'f')
  {
    if d < 10 then (48 + d) as char else (97 + d - 10) as char
  }

  /** The value of a lowercase hex digit, or None for any other character. */
  function HexValue(c: char): (r: Option<int>)
    ensures r.Some? ==> 0 <= r.value < 16
  {
    if '0' <= c <= '9' then Some(c as int - 48)
    else if 'a' <= c <= 'f' then Some(c as int - 97 + 10)
    else None
  }

  lemma HexDigitValue(d: int)
    requires 0 <= d < 16
    ensures HexValue(HexDigit(d)) == Some(d)
  {
  }

  /** `%02x` of one byte: two lowercase hex digits, high nibble first. */
  function HexPair(b: byte): (r: string)
    ensures |r| == 2 && EscChar !in r && ' ' !in r
  {
    [HexDigit(b / 16), HexDigit(b % 16)]
  }

  // ---------------------------------------------------------------------
  // The cells of a row, byte by byte.

  /** Bytes in [32, 127) are shown as themselves. */
  predicate IsPrintable(b: byte) {
    32 <= b < 127
  }

  /** Bright colour of byte position `i`: white in even 8-byte bands, green in odd ones. */
  function Hi(i: nat): string {
    if (i / 8) % 2 == 0 then White else Green
  }

  /** Dim colour of byte position `i`: gray in even 8-byte bands, dark green in odd ones. */
  function Lo(i: nat): string {
    if (i / 8) % 2 == 0 then Gray else DarkGreen
  }

  /** The attribute of a byte: dim for non-printables. */
  function Attr(b: byte): string {
    if IsPrintable(b) then NoAttr else Dim
  }

  /** The glyph a byte shows in the ASCII field. */
  function Glyph(b: byte): (c: char)
    ensures c == Placeholder <==> !IsPrintable(b)
    ensures IsPrintable(b) ==> c as int == b
  {
    if IsPrintable(b) then b as char else Placeholder
  }

  /** The group separator written after byte position `i`. */
  function Sep(i: nat): string {
    if i % 4 == 3 then " " else ""
  }

  /** The hex cell of byte `i`: its coloured pair, then the separator. */
  function HexCell(data: seq<byte>, i: nat): string
    requires i < |data|
  {
    Color(HexPair(data[i]), Attr(data[i]), Hi(i)) + Sep(i)
  }

  /** The ASCII cell of byte `i`: its coloured glyph. */
  function AsciiCell(data: seq<byte>, i: nat): string
    requires i < |data|
  {
    if IsPrintable(data[i]) then Color([data[i] as char], NoAttr, Hi(i))
    else Color([Placeholder], Dim, Lo(i))
  }

  /** The hex cells of positions `i..` of the row. */
  function HexFrom(data: seq<byte>, i: nat): string
    requires i <= |data|
    decreases |data| - i
  {
    if i == |data| then [] else HexCell(data, i) + HexFrom(data, i + 1)
  }

  /** The ASCII cells of positions `i..` of the row. */
  function AsciiFrom(data: seq<byte>, i: nat): string
    requires i <= |data|
    decreases |data| - i
  {
    if i == |data| then [] else AsciiCell(data, i) + AsciiFrom(data, i + 1)
  }

  /** The coloured hex field `printable` returns for a row. */
  function HexField(data: seq<byte>): string {
    HexFrom(data, 0)
  }

  /** The coloured ASCII field `printable` returns for a row. */
  function AsciiField(data: seq<byte>): string {
    AsciiFrom(data, 0)
  }

  // ---------------------------------------------------------------------
  // The visible fields.

  /** What the hex cells of positions `i..` show: pairs and separators. */
  function PlainHexFrom(data: seq<byte>, i: nat): string
    requires i <= |data|
    decreases |data| - i
  {
    if i == |data| then [] else HexPair(data[i]) + Sep(i) + PlainHexFrom(data, i + 1)
  }

  /** What the hex field of a row shows. */
  function PlainHex(data: seq<byte>): string {
    PlainHexFrom(data, 0)
  }

  /** What the ASCII field of a row shows: one glyph per byte. */
  function Glyphs(s: seq<byte>): (r: string)
    ensures |r| == |s|
  {
    if s == [] then [] else [Glyph(s[0])] + Glyphs(s[1..])
  }

  /** Glyph `k` of the ASCII field is the glyph of byte `k`. */
  lemma {:induction false} GlyphsAt(s: seq<byte>, k: nat)
    requires k < |s|
    ensures Glyphs(s)[k] == Glyph(s[k])
  {
    if k > 0 {
      GlyphsAt(s[1..], k - 1);
    }
  }

  /** The visible width of the hex field of a row of `n` bytes: two digits per
      byte and one space after every fourth byte. */
  function HexWidth(n: nat): nat {
    2 * n + n / 4
  }

  /** The style strings of the cells contain no escape terminator. */
  lemma StylesClean(b: byte, i: nat)
    ensures 'm' !in Attr(b) && 'm' !in Hi(i) && 'm' !in Lo(i) && 'm' !in Dim && 'm' !in NoAttr
  {
    assert White == ['3', '7'] && Green == ['9', '2'];
    assert Gray == ['9', '0'] && DarkGreen == ['3', '2'];
    assert Dim == ['2', ';'];
  }

  /** One hex cell shows its pair and its separator. */
  lemma StripHexCell(data: seq<byte>, i: nat, rest: string)
    requires i < |data|
    ensures Strip(HexCell(data, i) + rest) == HexPair(data[i]) + Sep(i) + Strip(rest)
  {
    var pair, sep := HexPair(data[i]), Sep(i);
    StylesClean(data[i], i);
    assert HexCell(data, i) + rest == Color(pair, Attr(data[i]), Hi(i)) + (sep + rest);
    StripColor(pair, Attr(data[i]), Hi(i), sep + rest);
    StripPlain(sep, rest);
  }

  /** One ASCII cell shows its glyph. */
  lemma StripAsciiCell(data: seq<byte>, i: nat, rest: string)
    requires i < |data|
    ensures Strip(AsciiCell(data, i) + rest) == [Glyph(data[i])] + Strip(rest)
  {
    StylesClean(data[i], i);
    if IsPrintable(data[i]) {
      StripColor([data[i] as char], NoAttr, Hi(i), rest);
    } else {
      StripColor([Placeholder], Dim, Lo(i), rest);
    }
  }

  /** Proof scaffolding: a cell that shows `shown` in front of more cells
      that show `more`. */
  lemma StripStep(cell: string, cells: string, rest: string, shown: string, more: string)
    requires Strip(cell + (cells + rest)) == shown + Strip(cells + rest)
    requires Strip(cells + rest) == more + Strip(rest)
    ensures Strip((cell + cells) + rest) == (shown + more) + Strip(rest)
  {
    Assoc(cell, cells, rest);
    Assoc(shown, more, Strip(rest));
  }

  lemma {:induction false} StripHexFrom(data: seq<byte>, i: nat, rest: string)
    requires i <= |data|
    ensures Strip(HexFrom(data, i) + rest) == PlainHexFrom(data, i) + Strip(rest)
    decreases |data| - i
  {
    if i < |data| {
      StripHexCell(data, i, HexFrom(data, i + 1) + rest);
      StripHexFrom(data, i + 1, rest);
      StripStep(HexCell(data, i), HexFrom(data, i + 1), rest, HexPair(data[i]) + Sep(i), PlainHexFrom(data, i + 1));
    } else {
      assert HexFrom(data, i) + rest == rest;
    }
  }

  lemma GlyphsCons(data: seq<byte>, i: nat)
    requires i < |data|
    ensures Glyphs(data[i..]) == [Glyph(data[i])] + Glyphs(data[i + 1..])
  {
    var s := data[i..];
    assert s[0] == data[i] && s[1..] == data[i + 1..];
  }

  lemma {:induction false} StripAsciiFrom(data: seq<byte>, i: nat, rest: string)
    requires i <= |data|
    ensures Strip(AsciiFrom(data, i) + rest) == Glyphs(data[i..]) + Strip(rest)
    decreases |data| - i
  {
    if i < |data| {
      StripAsciiCell(data, i, AsciiFrom(data, i + 1) + rest);
      StripAsciiFrom(data, i + 1, rest);
      StripStep(AsciiCell(data, i), AsciiFrom(data, i + 1), rest, [Glyph(data[i])], Glyphs(data[i + 1..]));
      GlyphsCons(data, i);
    } else {
      assert AsciiFrom(data, i) + rest == rest;
    }
  }

  /** The hex field shows exactly the hex pairs and the group separators. */
  lemma StripHexField(data: seq<byte>, rest: string)
    ensures Strip(HexField(data) + rest) == PlainHex(data) + Strip(rest)
  {
    StripHexFrom(data, 0, rest);
  }

  /** The ASCII field shows exactly one glyph per byte. */
  lemma StripAsciiField(data: seq<byte>, rest: string)
    ensures Strip(AsciiField(data) + rest) == Glyphs(data) + Strip(rest)
  {
    StripAsciiFrom(data, 0, rest);
    assert data[0..] == data;
  }

  lemma {:induction false} PlainHexFromWidth(data: seq<byte>, i: nat)
    requires i <= |data|
    ensures |PlainHexFrom(data, i)| == HexWidth(|data|) - HexWidth(i)
    decreases |data| - i
  {
    if i < |data| {
      PlainHexFromWidth(data, i + 1);
      assert |Sep(i)| == (i + 1) / 4 - i / 4;
    }
  }

  /** The visible hex field of a row of n bytes is 2n + n/4 characters wide. */
  lemma PlainHexWidth(data: seq<byte>)
    ensures |PlainHex(data)| == HexWidth(|data|)
  {
    PlainHexFromWidth(data, 0);
  }

  lemma HexWidthMonotone(m: nat, n: nat)
    requires m <= n
    ensures HexWidth(m) <= HexWidth(n)
  {
  }

  // ---------------------------------------------------------------------
  // Decoding the visible hex field back to bytes.

  /** `s` with every space removed. */
  function Unspace(s: string): (r: string)
    ensures ' ' !in r
  {
    if s == [] then [] else (if s[0] == ' ' then [] else [s[0]]) + Unspace(s[1..])
  }

  lemma {:induction false} UnspaceAppend(a: string, b: string)
    ensures Unspace(a + b) == Unspace(a) + Unspace(b)
  {
    if a != [] {
      assert (a + b)[0] == a[0];
      assert (a + b)[1..] == a[1..] + b;
      UnspaceAppend(a[1..], b);
    } else {
      assert a + b == b;
    }
  }

  /** Parses a string of lowercase hex digit pairs into bytes; None for an odd
      length or a character that is not a lowercase hex digit. */
  function DecodeHex(s: string): Option<seq<byte>>
  {
    if s == [] then Some([])
    else if |s| == 1 then None
    else match (HexValue(s[0]), HexValue(s[1]), DecodeHex(s[2..]))
      case (Some(hi), Some(lo), Some(rest)) => Some([hi * 16 + lo] + rest)
      case _ => None
  }

  lemma {:induction false} UnspaceNoSpace(s: string)
    requires ' ' !in s
    ensures Unspace(s) == s
  {
    if s != [] {
      assert s[0] in s;
      UnspaceNoSpace(s[1..]);
      assert s == [s[0]] + s[1..];
    }
  }

  /** A byte's pair in front of more hex decodes to that byte in front. */
  lemma DecodePair(b: byte, rest: string)
    ensures DecodeHex(HexPair(b) + rest) == match DecodeHex(rest)
      case Some(bs) => Some([b] + bs)
      case None => None
  {
    var s := HexPair(b) + rest;
    assert s[0] == HexDigit(b / 16) && s[1] == HexDigit(b % 16) && s[2..] == rest;
    HexDigitValue(b / 16);
    HexDigitValue(b % 16);
  }

  /** Removing spaces from a cell leaves its pair. */
  lemma UnspaceCell(pair: string, sep: string, more: string)
    requires ' ' !in pair && (sep == " " || sep == "")
    ensures Unspace(pair + sep + more) == pair + Unspace(more)
  {
    Assoc(pair, sep, more);
    UnspaceAppend(pair, sep + more);
    UnspaceAppend(sep, more);
    assert Unspace(sep) == [];
    assert [] + Unspace(more) == Unspace(more);
    UnspaceNoSpace(pair);
  }

  lemma {:induction false} DecodePlainHexFrom(data: seq<byte>, i: nat)
    requires i <= |data|
    ensures DecodeHex(Unspace(PlainHexFrom(data, i))) == Some(data[i..])
    decreases |data| - i
  {
    if i < |data| {
      var more := PlainHexFrom(data, i + 1);
      UnspaceCell(HexPair(data[i]), Sep(i), more);
      DecodePair(data[i], Unspace(more));
      DecodePlainHexFrom(data, i + 1);
      assert data[i..] == [data[i]] + data[i + 1..];
    } else {
      assert data[i..] == [];
    }
  }

  /** Round trip: the visible hex field, spaces removed, decodes to the row. */
  lemma DecodePlainHex(data: seq<byte>)
    ensures DecodeHex(Unspace(PlainHex(data))) == Some(data)
  {
    DecodePlainHexFrom(data, 0);
    assert data[0..] == data;
  }

  // ---------------------------------------------------------------------
  // Colour banding.

  /** Colours alternate every 8 bytes: positions in the same band share the
      pair, positions 8 apart use different pairs, and the dim colour of a
      band is never its bright colour. */
  lemma {:induction false} BandsAlternate(i: nat, j: nat)
    ensures i / 8 == j / 8 ==> Hi(i) == Hi(j) && Lo(i) == Lo(j)
    ensures Hi(i) != Hi(i + 8) && Lo(i) != Lo(i + 8)
    ensures Hi(i) != Lo(i)
  {
    assert (i + 8) / 8 == i / 8 + 1;
  }

  // ---------------------------------------------------------------------
  // `printable`.

  /** The hex cells of the first `i` positions, in the order the loop appends them. */
  function HexUpTo(data: seq<byte>, i: nat): string
    requires i <= |data|
  {
    if i == 0 then [] else HexUpTo(data, i - 1) + HexCell(data, i - 1)
  }

  /** The ASCII cells of the first `i` positions. */
  function AsciiUpTo(data: seq<byte>, i: nat): string
    requires i <= |data|
  {
    if i == 0 then [] else AsciiUpTo(data, i - 1) + AsciiCell(data, i - 1)
  }

  /** Proof scaffolding: the cell moved from the front of the rest to the
      end of what is done. */
  lemma MoveCell(done: string, cell: string, cells: string, upTo: string, from: string, whole: string)
    requires upTo == done + cell && from == cell + cells && done + from == whole
    ensures upTo + cells == whole
  {
    Assoc(done, cell, cells);
  }

  lemma {:induction false} HexUpToFrom(data: seq<byte>, i: nat)
    requires i <= |data|
    ensures HexUpTo(data, i) + HexFrom(data, i) == HexField(data)
    decreases i
  {
    if i == 0 {
      assert HexUpTo(data, 0) == [];
      assert [] + HexFrom(data, 0) == HexFrom(data, 0);
    } else {
      HexUpToFrom(data, i - 1);
      MoveCell(HexUpTo(data, i - 1), HexCell(data, i - 1), HexFrom(data, i), HexUpTo(data, i), HexFrom(data, i - 1), HexField(data));
    }
  }

  lemma {:induction false} AsciiUpToFrom(data: seq<byte>, i: nat)
    requires i <= |data|
    ensures AsciiUpTo(data, i) + AsciiFrom(data, i) == AsciiField(data)
    decreases i
  {
    if i == 0 {
      assert AsciiUpTo(data, 0) == [];
      assert [] + AsciiFrom(data, 0) == AsciiFrom(data, 0);
    } else {
      AsciiUpToFrom(data, i - 1);
      MoveCell(AsciiUpTo(data, i - 1), AsciiCell(data, i - 1), AsciiFrom(data, i), AsciiUpTo(data, i), AsciiFrom(data, i - 1), AsciiField(data));
    }
  }

  /** Appending a cell's separator, as the loop does it. */
  lemma AppendSep(done: string, colored: string, i: nat)
    ensures (if i % 4 == 3 then (done + colored) + " " else done + colored) == done + (colored + Sep(i))
  {
    if i % 4 != 3 {
      assert colored + Sep(i) == colored;
    }
  }

  /** Building the fields left to right yields the whole fields. */
  lemma FieldsUpTo(data: seq<byte>)
    ensures HexUpTo(data, |data|) == HexField(data)
    ensures AsciiUpTo(data, |data|) == AsciiField(data)
  {
    HexUpToFrom(data, |data|);
    AsciiUpToFrom(data, |data|);
    assert HexFrom(data, |data|) == [] && AsciiFrom(data, |data|) == [];
    assert HexUpTo(data, |data|) + [] == HexUpTo(data, |data|);
    assert AsciiUpTo(data, |data|) + [] == AsciiUpTo(data, |data|);
  }

  /** What the fields of a row show: the hex pairs with their separators,
      2n + n/4 characters that decode back to the row, and one glyph per byte. */
  lemma FieldsShow(data: seq<byte>)
    ensures Strip(HexField(data)) == PlainHex(data) && |Strip(HexField(data))| == HexWidth(|data|)
    ensures DecodeHex(Unspace(Strip(HexField(data)))) == Some(data)
    ensures Strip(AsciiField(data)) == Glyphs(data) && |Strip(AsciiField(data))| == |data|
  {
    assert HexField(data) + [] == HexField(data);
    assert AsciiField(data) + [] == AsciiField(data);
    StripHexField(data, []);
    StripAsciiField(data, []);
    assert PlainHex(data) + [] == PlainHex(data);
    assert Glyphs(data) + [] == Glyphs(data);
    PlainHexWidth(data);
    DecodePlainHex(data);
  }

  /** Renders one row into its coloured hex field and coloured ASCII field,
      building both left to right as the source does. */
  method Printable(data: seq<byte>) returns (hex: string, ascii: string)
    ensures hex == HexField(data) && ascii == AsciiField(data)
  {
    hex, ascii := "", "";
    var hi, lo := "", "";
    for i := 0 to |data|
      invariant hex == HexUpTo(data, i)
      invariant ascii == AsciiUpTo(data, i)
    {
      if (i / 8) % 2 == 0 {
        hi := White;
        lo := Gray;
      } else {
        hi := Green;
        lo := DarkGreen;
      }
      assert hi == Hi(i) && lo == Lo(i);
      ghost var hex0 := hex;
      if data[i] < 32 || data[i] >= 127 {
        assert Attr(data[i]) == Dim && AsciiCell(data, i) == Color([Placeholder], Dim, lo);
        ascii := ascii + Color([Placeholder], Dim, lo);
        hex := hex + Color(HexPair(data[i]), Dim, hi);
      } else {
        assert Attr(data[i]) == NoAttr && AsciiCell(data, i) == Color([data[i] as char], NoAttr, hi);
        ascii := ascii + Color([data[i] as char], NoAttr, hi);
        hex := hex + Color(HexPair(data[i]), NoAttr, hi);
      }
      if i % 4 == 3 {
        hex := hex + " ";
      }
      assert hex == hex0 + HexCell(data, i) by {
        AppendSep(hex0, Color(HexPair(data[i]), Attr(data[i]), Hi(i)), i);
      }
    }
    FieldsUpTo(data);
  }
}
