# tym half-block renderer, modelled in Dafny

tym shows an image in a true-colour terminal. It resizes the image into a box
derived from the terminal size. Then it prints one text row for every two
pixel rows. Each terminal cell shows two stacked pixels: the upper one through
the foreground colour of a half-block glyph, the lower one through the
background colour. A pixel with alpha 0 is transparent, and the layer it would
paint keeps the terminal's default colour. Every other alpha counts as opaque.

The repository has two independent renderers, and this project models both:

- the C# program (`src/App.cs`): the `BlockChars` glyphs, the target size, and
  the render loop that builds one buffer. The buffer holds `MarginY` blank
  lines, then for each text row a cursor-forward directive, the cells, a style
  reset and a line break;
- the Python script (`src/tym.py`): the target box and the nested loop that
  writes each cell followed by a style reset, with a line break per row and
  no margins.

Modules:

- `Decimal`: decimal numerals of naturals and C# `int`s, with parsers as
  partners.
- `Text`: concatenation, runs of line breaks, and `SplitLines`, which reads a
  text back as terminal lines.
- `Pixels`: 8-bit RGBA pixels and the pixel grid.
- `Terminal`: the three glyphs and the ANSI directives:
  - `ESC[38;2;R;G;Bm` and `ESC[48;2;R;G;Bm` (24-bit colour);
  - `ESC[39m` and `ESC[49m` (default colours);
  - `ESC[0m` (style reset);
  - `ESC[nC` (cursor forward);
  - `Glyphs`, which keeps only the glyph characters of a text.
- `HalfBlock`: the four-way transparency policy stated once, as a reference
  independent of both renderers, and the glyph picture of an image.
- `App`: the C# renderer.
- `Tym`: the Python renderer.
- `Agreement`: the two renderers compared cell by cell and image by image.

Each renderer is written twice:

- a loop method that follows the source statement by statement (`+=` or
  `stdout.write`);
- a declarative function of the whole output.

The method is proved equal to the function. The function is proved to read
back as exact lines whose glyphs are the reference picture.

The model follows the code as written, in particular:

- The C# renderer writes the cursor-forward directive on every row. It does
  so even when `MarginX` is 0, giving `ESC[0C`, and when it is negative,
  giving `ESC[-5C` for -5 under a culture whose negative sign is the ASCII
  '-'. It never omits the directive.
- Both renderers emit `Height / 2` rows, rounded down. An odd last pixel row
  is never shown; it is not paired with a transparent row.
- The C# target height is the buffer's row count, not twice it.
- There is no fullscreen flag, no explicit width or height, and no fit mode
  other than the one passed to the resizer.

## Model

| member | source | states |
|---|---|---|
| Decimal.NatToDecimal | src/App.cs:113-114 | A colour channel is written as a canonical decimal numeral with no leading zero; the numeral starts with '0' exactly when the value is 0 |
| Decimal.ParseNatToDecimal | src/App.cs:113-114 | Reading a channel's numeral back gives the channel value |
| Decimal.NatToDecimalOfParse | src/App.cs:113-114 | Every canonical numeral is the formatting of the value it denotes, so formatting is onto the canonical numerals |
| Decimal.NatToDecimalInjective | src/App.cs:113-114 | Two values have the same numeral if and only if they are equal |
| Decimal.IntToDecimal | src/App.cs:98 | `MarginX` is written as C# formats an `int` under a culture whose negative sign is the ASCII '-': a '-' exactly when it is negative, then a canonical numeral |
| Decimal.ParseIntToDecimal | src/App.cs:98 | Reading the margin's text back gives the margin |
| Terminal.DirectiveShape | src/App.cs:107-108 | Every colour directive, default or 24-bit, for either layer, is one SGR sequence made of control characters that ends at its only 'm' |
| Terminal.ResetStyleShape | src/App.cs:119 | The style reset is four control characters |
| Terminal.CursorForwardShape | src/App.cs:98 | The cursor-forward directive is made of control characters, starts with ESC and has at least four characters |
| Terminal.Glyphs | src/App.cs:14-16 | Keeps, in order, only the three block glyphs of a text |
| Terminal.ColorParamsInjective | src/App.cs:113-114 | The `R;G;B` parameters identify the colour exactly; alpha is not among them |
| Terminal.ForegroundInjective | src/App.cs:113 | Two 24-bit foreground directives are equal if and only if their colours are |
| Terminal.BackgroundInjective | src/App.cs:114 | Two 24-bit background directives are equal if and only if their colours are |
| Terminal.ForegroundDirectiveInjective | src/App.cs:107 | The foreground directive determines whether the layer is default or coloured, and its colour; it never equals a background directive |
| Terminal.BackgroundDirectiveInjective | src/App.cs:108 | The background directive determines whether the layer is default or coloured, and its colour |
| HalfBlock.Policy | src/App.cs:103-116 | The reference rule. The glyph is a space exactly when both pixels are transparent, and the lower block exactly when only the upper one is. The background is coloured exactly when both are opaque, with the lower colour. The foreground is coloured exactly when some pixel is opaque, with the upper colour if the upper pixel is opaque |
| HalfBlock.PolicyIgnoresAlpha | src/App.cs:103-106 | Alpha decides only transparency: pairs with the same colours and the same transparency get the same segment |
| HalfBlock.EncodeInjective | src/App.cs:107-109 | Foreground directive, background directive and glyph written in that order determine the cell's paints and glyph, so two cells' texts are equal if and only if their segments are |
| App.TargetSize | src/App.cs:79-80 | The target width is half the buffer width rounded down (twice it is the buffer width or one less); the height is the buffer height |
| App.Cell | src/App.cs:101-116 | The four cases. Both opaque: 24-bit foreground with the upper colour, 24-bit background with the lower colour, upper block. Both transparent: `ESC[39m ESC[49m` and a space. Only the upper transparent: foreground with the lower colour, `ESC[49m`, lower block. Only the lower transparent: foreground with the upper colour, `ESC[49m`, upper block |
| App.CellEncodesPolicy | src/App.cs:103-116 | Every C# cell is the reference policy's segment, foreground directive first |
| App.CellIgnoresAlpha | src/App.cs:103-116 | Only `A == 0` matters: pairs with the same colours and the same transparency give the same cell, so alpha never appears in an emitted colour |
| App.CellGlyph | src/App.cs:109 | A cell draws exactly one glyph, the policy's, and it is the cell's last character |
| App.CellNoNewline | src/App.cs:101-116 | A cell contains no line break |
| App.LeadingNewlines | src/App.cs:90-94 | The first loop writes exactly `max(MarginY, 0)` characters, all line breaks; none when `MarginY` is 0 or negative |
| App.LineText | src/App.cs:97-117 | The per-row loop, every pixel read in bounds, builds the row's text up to the style reset |
| App.AppendRow | src/App.cs:118-120 | A row iteration leaves the buffer extended by exactly text row `y`: its cells, `ESC[0m` and a line break |
| App.RenderBuffer | src/App.cs:90-121 | The whole render loop, with every pixel read in bounds, builds exactly the declarative output `Render`, of which `RenderLines`, `RenderPrefix` and `RenderPicture` state the line structure and the glyphs |
| App.LineShape | src/App.cs:97-120 | Each text row is one terminal line. It starts with `ESC[MarginXC`, even when `MarginX` is 0, and ends with `ESC[0m` and its only line break |
| App.LineGlyphs | src/App.cs:99-117 | Each text row draws exactly `Width` glyphs, the policy's glyph for each column, left to right |
| App.RenderLines | src/App.cs:90-121 | Read as terminal lines, the output is `max(MarginY, 0)` empty lines followed by exactly the `Height / 2` text rows, in order |
| App.RenderPrefix | src/App.cs:90-98 | The output opens with exactly `max(MarginY, 0)` line breaks, then ESC at once when some row is drawn. It ends with a line break when some row is drawn, and has no other characters when none is |
| App.RenderPicture | src/App.cs:90-121 | Whatever the margins, the glyphs of the output are the reference picture |
| Tym.TargetBox | src/tym.py:33-36 | The box is half the terminal width rounded down (twice it is the width or one less) and 40 pixel rows high |
| Tym.WriteImage | src/tym.py:39-62 | The nested loop, with every pixel read in bounds, writes exactly the declarative output `Render`, of which `RenderLines` and `RenderPicture` state the line structure and the glyphs |
| Tym.CellEncodesPolicy | src/tym.py:44-60 | Every Python cell is the reference policy's two directives and glyph, then a style reset; the background directive comes first exactly when the upper pixel is transparent |
| Tym.Cell | src/tym.py:44-60 | The four branches, tried in order (both, only the lower, only the upper, neither transparent), cover every pair once. Both transparent: `ESC[49m ESC[39m`, a space. Only the lower transparent: foreground with the upper colour, `ESC[49m`, upper block. Only the upper transparent: `ESC[49m`, foreground with the lower colour, lower block. Neither: 24-bit foreground with the upper colour, 24-bit background with the lower colour, upper block. Each cell ends with `ESC[0m` |
| Tym.CellIgnoresAlpha | src/tym.py:44-59 | Only `[3] == 0` matters: pairs with the same colours and the same transparency give the same cell |
| Tym.CellGlyph | src/tym.py:44-60 | A cell draws exactly the policy's glyph and ends with the style reset |
| Tym.CellNoNewline | src/tym.py:44-60 | A cell contains no line break |
| Tym.LineShape | src/tym.py:40-62 | Each text row is one terminal line, closed by the break from `print()` |
| Tym.LineGlyphs | src/tym.py:40-60 | Each text row draws exactly `width` glyphs, the policy's glyph for each column, left to right |
| Tym.RenderLines | src/tym.py:39-62 | Read as terminal lines, the output is exactly the `height / 2` text rows, with nothing before them |
| Tym.RenderPicture | src/tym.py:39-62 | The glyphs of the output are the reference picture |
| Agreement.TargetWidthsAgree | src/tym.py:33-35 | Both target boxes are half the terminal's columns wide; the C# height is the buffer's rows, the Python height is 40 |
| Agreement.CellsAgree | src/tym.py:44-60 | For every pixel pair both renderers choose the same glyph and the same colour for each layer. The C# cell is foreground, background, glyph. The Python cell has the same three parts, with the two directives swapped when the upper pixel is transparent, plus a style reset. With an opaque upper pixel the Python cell is the C# cell followed by the reset |
| Agreement.LinesAgree | src/tym.py:40-60 | Text row `y` of both renderers draws the same glyphs, the reference row |
| Agreement.LineListsAgree | src/tym.py:39-62 | The two lists of text rows have the same length and draw the same glyphs row for row |
| Agreement.OutputLinesAgree | src/tym.py:39-62 | After the C# renderer's `max(MarginY, 0)` blank lines, the two outputs read back as the same number of lines, drawing the same glyphs line for line |
| Agreement.OutputsAgree | src/tym.py:39-62 | Both outputs draw the reference picture |

## Left out

- Resampling: `Source.Mutate(... Resize ...)` in `src/App.cs` and `ImageOps.contain` in `src/tym.py` are library code with floating-point kernels. The renderers take the already-resized grid as input.
- Resampler lookup and listing: the reflection over `KnownResamplers` calls into a foreign library.
- Command-line handling: the option parser of `src/App.cs`, and the `argv` handling and help text of `src/tym.py`.
- I/O and process exit: loading and opening the image, `Path.Exists` and `path.exists`, `Console.Write` and `stdout.write`, and `exit`/`Environment.Exit`. Output is a returned string, and `Console.BufferWidth`, `Console.BufferHeight` and `get_terminal_size` become parameters.
- Tym.TargetBox: the terminal height `h` and `h_target_char` (line 36) are computed but never used, so they are not modelled.
- Tym.TargetBox: `int(w / 2)` goes through a float. It is modelled as integer division, which agrees for every terminal width a float represents exactly (below 2^53).
- Tym.Lines: `int(resized.height / 2)` is modelled as integer division for the same reason.
- Tym.Cell: the Python renderer assumes four-channel pixels (`p1_color[3]`). Images that PIL returns in other modes (RGB, palette, greyscale) fail or behave differently there; the model accepts RGBA pixels only.
- Decimal.IntToDecimal: the sign of a negative `MarginX` is modelled as the ASCII '-'. The interpolation at `src/App.cs:98` uses the current culture's negative sign, which under some cultures (sv-SE with ICU, for example) is U+2212. For such a culture and a negative `MarginX`, the written directive differs from the model's, and `Terminal.CursorForwardShape` does not describe it.
- App.RenderBuffer: the model's buffer is an unbounded string. A .NET string holds at most 0x3FFFFFDF characters, so a `MarginY` above about 1,073,741,791, or an image whose output is that long, makes `Buffer +=` throw `OutOfMemoryException` and nothing is written. That error path, and the quadratic cost of repeated `+=`, are not modelled.
- App.LeadingNewlines: the same string-length limit applies to the blank lines; for a `MarginY` above it the first loop throws instead of returning `max(MarginY, 0)` line breaks.
- How a terminal interprets the directives, including `ESC[0C` and a negative count, is outside the model. The model states the exact characters written.

