# Code 39 barcode component, modelled in Dafny

The repository's barcode component takes a string and draws it as a Code 39
barcode in SVG. This project models the three parts that carry logic:

- **The symbol table**, module `Code39Table` (`code39_table.dfy`). It maps the
  41 characters `0`-`9`, `A`-`Z`, `-`, `.`, space, `/` and `*` to a 9-flag
  wide/narrow pattern (`'1'` = wide). The entries are those of the character
  table of ISO/IEC 16388 (Code 39). `$`, `+` and `%` from that standard are
  absent.
- **The encoder**, module `Encoder` (`encoder.dfy`):
  - It upper-cases the value and frames it with the start/stop character `*`.
  - It looks up each character, falling back to the space's pattern.
  - It expands the nine elements of each pattern into unit cells. An
    even-indexed element is a bar (`'1'`) and an odd-indexed one a space
    (`'0'`). A wide element takes three cells and a narrow one a single cell.
  - It puts one `'0'` gap cell between characters, with none after the last.
  - `Encode` is the component's nested loop, written as methods with loop
    invariants. It is proved equal to the recursive specification `Encoding`,
    and every property of the pattern is proved about `Encoding`.
- **The layout**, module `Layout` (`layout.dfy`). The SVG is
  `pattern.length * width` wide and `height` tall. Every `'1'` cell `i`
  becomes a black rectangle at `x = i * width`, one cell wide and as tall as
  the image. `Render` is that mapping as a pure function, and `Barcode` is the
  component, with its default width 1.5 and height 40.

Module `Decoder` (`decoder.dfy`) is not part of the component. It is the inverse
the encoder is checked against. It reads a cell string back into the
characters it encodes, which proves the encoding loses nothing except
upper-casing and the replacement of unsupported characters by a space.

`Wrappers` (`wrappers.dfy`) holds the `Option` type.

The component is also described in terms of bar/space modules, one per
element, narrow or wide. By that description the empty value gives 19 modules
and a wide bar is drawn as one rectangle three cells wide. The code does
otherwise on both points, and the model follows the code:

- **Unit cells, not modules.** The encoder emits unit cells, 15 per character.
  It does not emit one (bar/space, narrow/wide) module per element, so the
  empty value gives 31 cells and not 19 modules. A value of `n` characters
  gives `16n + 31` cells.
- **Three rectangles per wide bar.** A wide bar is drawn as three adjacent
  one-cell rectangles, not as one rectangle three cells wide.

## Model

| member | source | states |
|---|---|---|
| Code39Table.TableEntry | src/components/Barcode.tsx:21-66 | every entry of the table is nine flags over {'0','1'} with exactly three wide ones, and its character is recovered from the pattern's value |
| Code39Table.TableInjective | src/components/Barcode.tsx:24-66 | two different characters of the table never share a pattern |
| Code39Table.SupportedIff | src/components/Barcode.tsx:24-66 | a character has an entry exactly when it is a digit, a capital letter or one of "- . space / *" |
| Code39Table.MissingCharacters | src/components/Barcode.tsx:24-66 | '$', '+', '%' (defined by Code 39 but absent here), '@' and lower-case letters have no entry |
| Code39Table.Find | src/components/Barcode.tsx:74 | a dictionary lookup: a found pattern is an entry for the character, and nothing is found only when no entry has that character |
| Code39Table.Lookup | src/components/Barcode.tsx:74 | the pattern used for a character is its own entry when it has one and the space's entry otherwise, and is always well formed |
| Code39Table.CharOf | src/components/Barcode.tsx:24-66 | the inverse of the table: a character returned for a pattern has that pattern as its entry |
| Code39Table.CharOfTable | src/components/Barcode.tsx:24-66 | every character of the table is recovered from its own pattern |
| Encoder.UpperHasNoLowerCase | src/components/Barcode.tsx:69 | no character of an upper-cased value is a lower-case letter a-z |
| Encoder.UpperIdempotent | src/components/Barcode.tsx:69 | upper-casing twice is upper-casing once |
| Encoder.ExpandLength | src/components/Barcode.tsx:78-89 | the first j elements take j cells plus two more per wide element among them |
| Encoder.ElementPlacement | src/components/Barcode.tsx:78-89 | element j of a character occupies the cells from j + 2·(wide elements before it), three of them if it is wide and one otherwise, all '1' if j is even and all '0' if j is odd |
| Encoder.CharCellsShape | src/components/Barcode.tsx:76-89 | a character expands into 15 cells of '0'/'1' that start and end with a bar cell |
| Encoder.AppendElements | src/components/Barcode.tsx:78-89 | the element and repeat loops append exactly the character's expansion to the pattern built so far |
| Encoder.EncodeFramed | src/components/Barcode.tsx:70-95 | the character loop builds the expansions of the framed string with one gap cell after every character but the last |
| Encoder.Encode | src/components/Barcode.tsx:68-97 | the encoder returns exactly `Encoding(val)`, the pattern all the properties below are stated about |
| Encoder.EncodingIsCells | src/components/Barcode.tsx:78-95 | the pattern holds only '0' and '1' |
| Encoder.EncodingLength | src/components/Barcode.tsx:69-95 | a value of n characters gives 16n + 31 cells: n + 2 expansions of 15 cells and n + 1 gaps |
| Encoder.EncodingBlocks | src/components/Barcode.tsx:72-89 | character k of the framed value is expanded at cells 16k to 16k + 14, with its own pattern or the space's |
| Encoder.EncodingGaps | src/components/Barcode.tsx:91-94 | every character but the last is followed by a '0' gap cell at 16k + 15 |
| Encoder.EncodingStart | src/components/Barcode.tsx:69-94 | the pattern opens with the expansion of '*' followed by a gap, and its first cell is '1' |
| Encoder.EncodingEnd | src/components/Barcode.tsx:69-94 | the pattern closes with a gap followed by the expansion of '*', with no gap after it, and its last cell is '1' |
| Encoder.Canonical | src/components/Barcode.tsx:74 | the character a character is drawn as has an entry and the same pattern |
| Encoder.SameEncodedSameEncoding | src/components/Barcode.tsx:68-97 | values that encode the same characters give the same pattern |
| Encoder.CaseInsensitive | src/components/Barcode.tsx:69 | a value and its upper-cased form give the same pattern, so "abc" and "ABC" are drawn alike |
| Encoder.UnsupportedAsSpace | src/components/Barcode.tsx:74 | a character with no entry, even after upper-casing, is drawn exactly as a space would be, and encoding never fails |
| Decoder.FlagsOfCharCells | src/components/Barcode.tsx:78-89 | reading back the cells of a character's first j elements gives their j flags, so the expansion loses nothing |
| Decoder.DecodeCharCells | src/components/Barcode.tsx:78-89 | every character of the table is read back from its 15 cells |
| Decoder.DecodeEncoding | src/components/Barcode.tsx:68-97 | reading the pattern of a value gives back the characters it encodes, start/stop characters included |
| Decoder.SameEncodingIff | src/components/Barcode.tsx:68-97 | two values give the same pattern if and only if they encode the same characters |
| Layout.ScaleIsProduct | src/components/Barcode.tsx:104 | laying n cell widths end to end is the product n * width the component computes |
| Layout.BarPosition | src/components/Barcode.tsx:116 | the rectangle for cell i starts at x = i * width |
| Layout.Barcode | src/components/Barcode.tsx:99-123 | the component draws the rendering of the encoded value, with default width 1.5 and height 40 |
| Layout.ImageSize | src/components/Barcode.tsx:104-106 | the image is 16n + 31 cell widths wide (`Scale(16n + 31, width)`) and height tall, and its view box is (0, 0, image width, image height) |
| Layout.ImageWidth | src/components/Barcode.tsx:104 | 16n + 31 cell widths laid end to end are the product (16n + 31) * width the component computes |
| Layout.RectCount | src/components/Barcode.tsx:110-123 | there are exactly as many rectangles as '1' cells |
| Layout.RectsAreBars | src/components/Barcode.tsx:110-123 | every rectangle draws a '1' cell, at that cell's position and size, and the rectangles follow the cells left to right |
| Layout.CellDrawnIff | src/components/Barcode.tsx:112-122 | cell i is drawn, as the rectangle at i * width, if and only if it is a '1' cell |
| Layout.RectsDisjoint | src/components/Barcode.tsx:114-119 | with a positive width the rectangles have strictly increasing x and do not overlap |
| Layout.RectsInside | src/components/Barcode.tsx:104-119 | with a non-negative width every rectangle lies within [0, pattern.length * width], from the top and as tall as the image |
| Layout.NoBarsNoRects | src/components/Barcode.tsx:110-123 | a pattern without '1' cells draws no rectangle |
| Layout.EdgeRects | src/components/Barcode.tsx:110-123 | an encoded value draws at least two rectangles, and the first and last are at the first and last cells of the pattern |

## Left out

- `src/components/IDCard.tsx` and `src/routes/index.tsx` are not part of this model. They hold form state, photo upload, image capture, printing requests and routing, with no barcode logic, and the card never calls the barcode component.
- JSX construction, `className`, the `fill` attribute, the SVG namespace and the caption `<span>` are left out. Only the image size, the view box and the rectangle list are modelled.
- Layout.Scale: lengths are Dafny reals. The component computes `i * width` in IEEE double precision, and its rounding is not modelled.
- Encoder.UpperChar: upper-casing covers ASCII a-z only. JavaScript's `toUpperCase` also maps other letters, and some of them change length or land inside the table: 'ß' becomes "SS" and the dotless 'ı' becomes 'I'.
- Encoder.Encode: a string is a sequence of characters. JavaScript indexes UTF-16 code units, so a character outside the Basic Multilingual Plane is two code units there and is drawn as two spaces. Here it is one character drawn as one space.
- Encoder.AppendElements: the element and repeat loops are a helper method called once per character. The component writes the three loops inline.
- Encoder.EncodeFramed: the character loop is a helper method that `Encode` calls after framing the value. The component does both in one function.
- Code39Table.Table: the table is held as five runs (digits, A-J, K-T, U-Z, symbols), and a character's run is picked by its range. The entries and their order are those of the component.
- Mod-43 check characters and Full ASCII Code 39 are not implemented by the component and are not modelled.
