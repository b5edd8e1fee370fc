# hexdump in Dafny

A model of the Go package `hexdump` (augustoroman/hexdump). The package
turns bytes into a coloured, human-readable hex listing. Each line shows:

- the offset of its row of `Width` bytes, right-aligned in at least five columns (`%5d`);
- the row's bytes as lowercase hex pairs, with a space after every fourth byte;
- ` | `, then the row's bytes as ASCII, with a shaded block `░` for each byte outside `[32, 127)`.

Every hex pair and every glyph is wrapped in its own ANSI escape. The escape
selects a colour pair that alternates every 8 bytes and dims non-printable
bytes. After each cell it resets all attributes.

The package has three entry points:

- `Config.Dump` formats a whole buffer.
- `Config.Stream` reads a source in `Width`-sized chunks with `io.ReadFull`
  and formats each chunk as it arrives.
- `Dump` formats a buffer with the default width of 32.

Both `Config.Dump` and `Config.Stream` go through one `dumpState`. It keeps
the index of the next row and the length of the row printed last. A row
shorter than the one before it gets its hex field padded with spaces, so
that the ` | ` column stays aligned.

The model is split into modules:

- `Render` covers `printable`, `color` and the escape constants. `Strip`
  takes out the escape sequences, which gives what a terminal shows.
  `Printable` is the source's loop, proved to build the coloured fields
  `HexField`/`AsciiField`. The lemmas state what those fields show: pairs
  and separators of width `2n + n/4` that decode back to the row, one glyph
  per byte, and the colour bands.
- `Layout` covers how a buffer is cut into rows, the `%5d` offset column, the
  padding rule and the line format `%5d: hex | ascii\n`. It defines two
  specification functions: `Listing` (the whole text for a buffer) and
  `Run` (the text plus the state the formatter is left in, row by row).
- `Io` has a `Writer` that accumulates text. It also has a scripted `Reader`
  whose `ReadFull` follows `io.ReadFull`:
  - a full buffer reports no error;
  - a short read reports `EOF` when the source ended cleanly before any byte
    was read, `UnexpectedEOF` when it ended cleanly part-way, and otherwise
    (with or without bytes read) the source's own error.
- `Hexdump` holds the `Config` datatype with `Dump` and `Stream`, the
  `DumpState` class with the mutable `rowIndex` and `maxRowWidth`, and the
  top-level `Dump`.

Two loops are split into helper methods, each proved against `Run`:

- The loop of `dumpState.dump` (`Dump`) calls `DumpNext` for each pass, and
  `DumpNext` calls `DumpRow` for the body.
- The loop of `Stream` is `StreamLoop`, with `StreamStep` as its body.

When the rows are all printed, the text equals `Listing` of the whole input.
For `Stream` this means its output equals `Dump` of everything the source
delivered.

Three behaviours of the code are worth stating plainly:

- **Hex grouping.** Hex pairs are grouped by appending a space after every
  fourth byte, the last one included, so `ABCD` shows as `41424344 `, not
  `4142 4344`.
- **Padding in buffer mode.** A whole-buffer dump pads a short last row
  exactly as a stream does, because both run the same `dump`.
- **Stream dumps before it checks the error.** `Stream` dumps `buf[:n]`
  after every read, and only then looks at the read's error.

## Model

| member | source | states |
|---|---|---|
| Render.Color | hexdump.go:99-103 | `color`: the escape introducer, the attribute, the colour and `m`, then the text, then the reset `ESC[0m` |
| Render.Hi | hexdump.go:109-115 | the bright colour of position i: white when (i/8) % 2 == 0, green otherwise |
| Render.Lo | hexdump.go:109-115 | the dim colour of position i: gray when (i/8) % 2 == 0, dark green otherwise |
| Render.Attr | hexdump.go:117-123 | the attribute of a byte: `2;` (dim) outside [32, 127), none otherwise |
| Render.HexCell | hexdump.go:117-126 | the hex cell of byte i: its `%02x` pair coloured with the byte's attribute and the bright colour, then a space when i % 4 == 3 |
| Render.AsciiCell | hexdump.go:117-122 | the ASCII cell of byte i: the byte itself with no attribute in the bright colour, or `░` dimmed in the dim colour |
| Render.HexField | hexdump.go:105-129 | the `hex` result of `printable`: the hex cells of all bytes, in order |
| Render.AsciiField | hexdump.go:105-129 | the `ascii` result of `printable`: the ASCII cells of all bytes, in order |
| Render.ColorShape | hexdump.go:99-103 | a coloured string starts with the escape introducer and ends with the reset sequence `ESC[0m` |
| Render.StripColor | hexdump.go:99-103 | the escapes `color` adds show nothing: a coloured string shows exactly its text |
| Render.HexPair | hexdump.go:119 | `%02x` of a byte is two characters with no escape and no space |
| Render.Glyph | hexdump.go:117-122 | the glyph is the placeholder exactly when the byte is outside [32, 127), and otherwise the byte itself |
| Render.BandsAlternate | hexdump.go:109-115 | positions in one 8-byte band share their colour pair, positions 8 apart use different pairs, and the dim colour never equals the bright one |
| Render.Printable | hexdump.go:105-129 | the loop builds the coloured hex field and the coloured ASCII field of the row, cell by cell |
| Render.FieldsShow | hexdump.go:105-129 | the hex field shows the pairs and separators, is 2n + n/4 wide, and decodes back to the row with spaces removed; the ASCII field shows one glyph per byte |
| Render.StripHexField | hexdump.go:117-126 | with escapes removed, the hex field is the hex pairs with a space after every fourth byte |
| Render.StripAsciiField | hexdump.go:117-122 | with escapes removed, the ASCII field is the glyphs of the row |
| Render.GlyphsAt | hexdump.go:117-121 | glyph k of the visible ASCII field is the glyph of byte k |
| Render.PlainHexWidth | hexdump.go:119-126 | the visible hex field of n bytes is 2n + n/4 characters wide |
| Render.DecodePlainHex | hexdump.go:119-126 | round trip: the visible hex field with spaces removed decodes to the row |
| Layout.Rows | hexdump.go:31-36 | the rows `dump` cuts: consecutive slices of N bytes, the last one shorter; no rows exactly for an empty buffer |
| Layout.OffsetField | hexdump.go:45 | `%5d`: the decimal digits, left-padded with spaces to five characters |
| Layout.Line | hexdump.go:45 | `%5d: %s \| %s\n` of the offset, the hex field and the ASCII field |
| Layout.PaddedHex | hexdump.go:39-42 | the hex field, followed by `Padding` spaces when the row is shorter than the previous one |
| Layout.Run | hexdump.go:29-48 | `dump` row by row: the line of the first row at offset `Offset(rowIndex, N)`, padded against `prev`, then the rest from row index + 1 after this row's length; the result holds the text and the final row index and previous length |
| Layout.Listing | hexdump.go:59-63 | the text a fresh state (row index 0, previous length 0) prints for the data: the lines of all its rows in order |
| Layout.RowsFlatten | hexdump.go:31-36 | the rows concatenate back to the buffer |
| Layout.RowsCount | hexdump.go:31 | the number of rows is ceil(len / width) |
| Layout.RowAt | hexdump.go:31-36 | row i is `buf[i*N : min((i+1)*N, len)]` and starts inside the buffer |
| Layout.RowsShape | hexdump.go:32-35 | every row is non-empty and at most N long, and every row but the last is exactly N long |
| Layout.RowsAppend | hexdump.go:31-36 | k full rows followed by more bytes cut into those k rows, then the rows of the rest |
| Layout.DecimalRoundTrip | hexdump.go:45 | the decimal digits of the offset parse back to the offset |
| Layout.OffsetFieldReads | hexdump.go:45 | `%5d` is max(5, digits) wide, and with leading spaces trimmed it reads back as the offset |
| Layout.OffsetFieldFive | hexdump.go:45 | offsets below 100000 take exactly five columns |
| Layout.Padding | hexdump.go:39-41 | the padding added to a row shorter than the previous one is positive |
| Layout.PaddedHexWidth | hexdump.go:39-43 | a short row's visible hex field is exactly as wide as the previous row's, and a row at least as long as the previous one is not padded |
| Layout.StripLine | hexdump.go:45 | a printed line shows the offset, `: `, the visible padded hex field, ` \| `, the glyphs and a newline |
| Layout.StripJoinEntries | hexdump.go:29-48 | the printed lines show their plain forms one after another |
| Layout.OffsetProduct | hexdump.go:45 | the offset counted up row by row is rowIndex * N |
| Layout.PlanAt | hexdump.go:43-46 | entry j has offset (rowIndex + j) * N and is padded against row j - 1 (against the carried length for j = 0) |
| Layout.PlanAppend | hexdump.go:43-46 | planning two groups of rows in turn continues the row index and the previous length from the first group |
| Layout.JoinAppend | hexdump.go:45 | the text of two groups of lines is the first group's text followed by the second's |
| Layout.ListingSplit | hexdump.go:69-80 | printing k full rows and then more bytes on one state prints the same text as printing them all at once |
| Layout.ListingAligned | hexdump.go:39-45 | in a listing of more than one row, every hex column shows the width of a full row, so ` \| ` lines up on every line whose offset fits five columns |
| Layout.DumpStep | hexdump.go:31-47 | one pass of the loop prints the row at the current position, and the rest continues from the next row index with this row's length |
| Layout.RunListing | hexdump.go:29-48 | a run prints the listing's lines, advances the row index by the number of rows and leaves the last row's length |
| Layout.RunStep | hexdump.go:31-47 | running from a position prints its row's line and then runs on from the end of the row |
| Layout.RunSplit | hexdump.go:73-74 | running on a full chunk and then the rest equals running on everything, and a full chunk advances the row index by one and leaves length N |
| Io.FullReadError | hexdump.go:73 | the error `io.ReadFull` reports: none for a filled buffer, EOF for a clean end before any byte, UnexpectedEOF for a clean end part-way, otherwise the source's own error |
| Io.Writer.Write | hexdump.go:45 | a write appends its text to everything written before |
| Io.Reader.ReadFull | hexdump.go:73 | `io.ReadFull`: reads min(len(buf), remaining) bytes in order, consumes them, and reports none / EOF / UnexpectedEOF / the source's error |
| Hexdump.EffectiveWidth | hexdump.go:50-56 | a zero width becomes `DefaultWidth` (`kDefaultWidth`, 32), and any other width is kept |
| Hexdump.DumpState.constructor | hexdump.go:50-56 | a fresh state has the defaulted width, row index 0 and previous length 0 |
| Hexdump.DumpState.Dump | hexdump.go:29-48 | the text written and the new row index and previous length are those of `Run` from the old state |
| Hexdump.DumpState.DumpNext | hexdump.go:31-47 | printing row `buf[a:b]` keeps the account of the whole run: the text so far plus the rest's run is the whole run |
| Hexdump.DumpState.DumpRow | hexdump.go:37-46 | writes the row's line with its offset and padded hex field, increments the row index and records the row's length |
| Hexdump.PaddedShort | hexdump.go:39-42 | the spaces added to a short row are the padding of its hex field |
| Hexdump.DumpAdvance | hexdump.go:36-46 | after one row is printed, the state it leaves still accounts for the whole run |
| Hexdump.Config.Dump | hexdump.go:59-64 | the result is the listing of the data at the defaulted width |
| Hexdump.Dump | hexdump.go:14 | the result is the listing at width 32 |
| Hexdump.StreamError | hexdump.go:75-79 | no error exactly for EOF or UnexpectedEOF, and any other error is returned unchanged |
| Hexdump.Config.Stream | hexdump.go:69-81 | consumes the whole source, writes the listing of everything it delivered, and returns the error `StreamError` gives for how it ended |
| Hexdump.StreamLoop | hexdump.go:72-80 | the read loop on a fresh state writes the listing of the whole input and stops only at its end |
| Hexdump.StreamStep | hexdump.go:73-74 | one read-and-dump pass keeps the account of the whole run, makes progress when the chunk is full, and reports an error only at the end of the input |
| Hexdump.StepAccount | hexdump.go:73-74 | after a chunk the account holds: either the chunk was full, or it was the whole rest of the input |
| Hexdump.Finished | hexdump.go:75-78 | once the input is used up, the text written is its listing |
| Hexdump.Config.StreamZeroWidthPass | hexdump.go:71-74 | as written, with width 0 a pass reads nothing, writes nothing and reports no error, so the loop never ends |
| Hexdump.Config.StreamDefaulted | hexdump.go:69-81 | with the buffer sized from the defaulted width, a zero width streams the listing at width 32 |

## Left out

- `hexdumper/main.go` (the command-line tool) is not part of this model.
- The Go `int` width is not modelled. Row indices, offsets and padding are unbounded integers, so overflow past 2^63 is not modelled.
- Write errors of the `io.Writer` and the internals of `fmt.Fprintf` are left out: every write succeeds and appends its text.
- The `Reader` delivers its bytes and then reports how it ended. A source that fails part-way is modelled as one that ends there with that error. How a concrete source splits its data across `Read` calls is absorbed by `io.ReadFull`.
- The UTF-8 encoding of `░` (three bytes in Go) is left out: the model writes it as the one character U+2591, and printable bytes as the character with that code.
- `defaultConfig` is not modelled as a package variable. The top-level `Dump` builds `Config(DefaultWidth)` itself.
- Hexdump.DumpState.Dump: requires a positive width unless the buffer is empty, because a negative width makes the source's slice panic.
- Hexdump.Config.Dump: requires a non-negative width unless the data is empty, for the same reason. A zero width becomes 32.
- Hexdump.Config.Stream: requires a positive width. A negative width makes `make` panic, and width 0 never terminates (see Findings).
- Concurrency and blocking reads are not modelled. The model is sequential.

## Findings

| source | as written | input that shows it | evidently intended | confidence | as-written member | corrected member |
|---|---|---|---|---|---|---|
| hexdump.go:71 | the read buffer is `make([]byte, 1*c.Width)`, sized from the configuration rather than from the defaulted state | `Config{}.Stream(r, w)` (Width 0) on any reader: `io.ReadFull` on the empty buffer returns 0 bytes and no error forever | size the buffer from `s.Width`, so that width 0 means 32, as `Config.Dump` and the field's doc comment ("The default is 32") say | medium; not executed | Hexdump.Config.StreamZeroWidthPass | Hexdump.Config.StreamDefaulted |
