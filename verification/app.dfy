/** The C# renderer (`TYM.App.Run`): the target size it asks the resizer for,
    and the text buffer it builds from the resized image: `MarginY` blank
    lines, then per pair of pixel rows a cursor-forward directive, one styled
    glyph per column, a style reset and a line break. */
module App {

  import opened Decimal
  import opened Text
  import opened Pixels
  import opened Terminal
  import opened HalfBlock

  /** A C# `int`, the type of the `MarginX` and `MarginY` options. */
  type Int32 = x: int | -0x8000_0000 <= x < 0x8000_0000

  /** The box the image is resized into: half the terminal buffer's columns
      (integer division) and as many pixel rows as the buffer has text rows. */
  function TargetSize(bufferWidth: nat, bufferHeight: nat): (t: Size)
    ensures 2 * t.width <= bufferWidth < 2 * t.width + 2
    ensures t.height == bufferHeight
  {
    Size(bufferWidth / 2, bufferHeight)
  }

  /** One terminal cell for the pixel pair `top` over `bottom`, written the way
      the loop body does: any transparent pixel sends it down the first branch,
      where the transparency side selects the foreground and the glyph. */
  function Cell(top: Rgba, bottom: Rgba): (cell: string)
    ensures !top.Transparent() && !bottom.Transparent() ==>
              cell == Foreground(top.Color()) + Background(bottom.Color()) + [TopBlock]
    ensures top.Transparent() && bottom.Transparent() ==>
              cell == DefaultForeground + DefaultBackground + [EmptyBlock]
    ensures top.Transparent() && !bottom.Transparent() ==>
              cell == Foreground(bottom.Color()) + DefaultBackground + [BottomBlock]
    ensures !top.Transparent() && bottom.Transparent() ==>
              cell == Foreground(top.Color()) + DefaultBackground + [TopBlock]
  {
    var pixels := [top, bottom];
    var anyClear := pixels[0].a == 0 || pixels[1].a == 0;
    var allClear := pixels[0].a == 0 && pixels[1].a == 0;
    if anyClear then
      var side := if allClear then 2 else if pixels[0].a == 0 then 0 else 1;
      var colored := pixels[if pixels[0].a == 0 then 1 else 0];
      (if side == 0 || side == 1 then Foreground(colored.Color()) else DefaultForeground)
      + DefaultBackground
      + [if allClear then EmptyBlock else if pixels[0].a == 0 then BottomBlock else TopBlock]
    else
      Foreground(pixels[0].Color()) + Background(pixels[1].Color()) + [TopBlock]
  }

  /** The cells of text row `y`, one per column. Row `y` reads pixel rows
      `2y` and `2y+1`, both inside the image because `y < Height / 2`. */
  function RowCells(img: Image, y: nat): (cells: seq<string>)
    requires img.Valid() && y < img.height / 2
    ensures |cells| == img.width
    ensures forall x :: 0 <= x < |cells| ==> cells[x] == Cell(img.At(x, y * 2), img.At(x, y * 2 + 1))
  {
    seq(img.width, x requires 0 <= x < img.width => Cell(img.At(x, y * 2), img.At(x, y * 2 + 1)))
  }

  lemma RowCellAt(img: Image, y: nat, x: nat, top: Rgba, bottom: Rgba)
    requires img.Valid() && y < img.height / 2 && x < img.width
    requires top == img.At(x, y * 2) && bottom == img.At(x, y * 2 + 1)
    ensures RowCells(img, y)[x] == Cell(top, bottom)
  {
  }

  /** Text row `y`: the left margin directive, every column's cell, a style
      reset, a line break. */
  function Line(img: Image, marginX: Int32, y: nat): string
    requires img.Valid() && y < img.height / 2
  {
    CursorForward(marginX) + Concat(RowCells(img, y)) + ResetStyle + "\n"
  }

  /** One text row per pair of pixel rows. */
  function Lines(img: Image, marginX: Int32): (lines: seq<string>)
    requires img.Valid()
    ensures |lines| == img.height / 2
    ensures forall y :: 0 <= y < |lines| ==> lines[y] == Line(img, marginX, y)
  {
    seq(img.height / 2, y requires 0 <= y < img.height / 2 => Line(img, marginX, y))
  }

  /** The whole buffer handed to `Console.Write`. */
  function Render(img: Image, marginX: Int32, marginY: Int32): string
    requires img.Valid()
  {
    Newlines(marginY) + Concat(Lines(img, marginX))
  }

  /** The first loop: `Buffer` starts empty and receives one line break per
      iteration of `y < MarginY`, none when `MarginY` is 0 or negative. */
  method LeadingNewlines(marginY: Int32) returns (buffer: string)
    ensures |buffer| == if marginY > 0 then marginY else 0
    ensures forall i :: 0 <= i < |buffer| ==> buffer[i] == '\n'
    ensures buffer == Newlines(marginY)
  {
    buffer := "";
    var y := 0;
    while y < marginY
      invariant 0 <= y <= (if marginY > 0 then marginY else 0)
      invariant buffer == Newlines(y)
    {
      buffer := buffer + "\n";
      y := y + 1;
    }
  }

  /** The body of one row iteration up to the style reset: `Line` starts
      with the cursor-forward directive and receives every column's cell,
      reading `Source[x, 2y]` and `Source[x, 2y+1]` inside the image. */
  method LineText(img: Image, marginX: Int32, y: nat) returns (line: string)
    requires img.Valid() && y < img.height / 2
    ensures line + ResetStyle + "\n" == Line(img, marginX, y)
  {
    line := "";
    line := line + CursorForward(marginX);
    ghost var cells := RowCells(img, y);
    assert cells[..0] == [];
    AppendNothing(line);
    var x := 0;
    while x < img.width
      invariant x <= img.width
      invariant line == CursorForward(marginX) + Concat(cells[..x])
    {
      var top, bottom := img.At(x, y * 2), img.At(x, y * 2 + 1);
      RowCellAt(img, y, x, top, bottom);
      line := line + Cell(top, bottom);
      ConcatStep(cells, x);
      AppendPiece(CursorForward(marginX), Concat(cells[..x]), cells[x], Concat(cells[..x + 1]));
      x := x + 1;
    }
    assert cells[..x] == cells;
  }

  /** The buffer after the blank lines and the first `n` text rows. */
  ghost function RenderedRows(img: Image, marginX: Int32, marginY: Int32, n: nat): string
    requires img.Valid() && n <= img.height / 2
  {
    Newlines(marginY) + Concat(Lines(img, marginX)[..n])
  }

  /** One more row iteration appends text row `y`. */
  lemma RenderStep(img: Image, marginX: Int32, marginY: Int32, y: nat)
    requires img.Valid() && y < img.height / 2
    ensures RenderedRows(img, marginX, marginY, y + 1) == RenderedRows(img, marginX, marginY, y) + Line(img, marginX, y)
    ensures RenderedRows(img, marginX, marginY, 0) == Newlines(marginY)
  {
    var lines := Lines(img, marginX);
    ConcatStep(lines, y);
    AppendPiece(Newlines(marginY), Concat(lines[..y]), lines[y], Concat(lines[..y + 1]));
    assert lines[..0] == [];
  }

  lemma RenderDone(img: Image, marginX: Int32, marginY: Int32)
    requires img.Valid()
    ensures RenderedRows(img, marginX, marginY, img.height / 2) == Render(img, marginX, marginY)
  {
    assert Lines(img, marginX)[..img.height / 2] == Lines(img, marginX);
  }

  /** The end of one row iteration: `Buffer` receives `Line`, the style reset
      and a line break. */
  method AppendRow(img: Image, marginX: Int32, y: nat, buffer: string) returns (next: string)
    requires img.Valid() && y < img.height / 2
    ensures next == buffer + Line(img, marginX, y)
  {
    var line := LineText(img, marginX, y);
    AppendLine(buffer, line, ResetStyle, Line(img, marginX, y));
    next := buffer + line;
    next := next + ResetStyle;
    next := next + "\n";
  }

  /** The render loop as written: `+=` into `Buffer` and `Line`, with every
      pixel read `Source[x, 2y]`, `Source[x, 2y+1]` inside the image. */
  method RenderBuffer(img: Image, marginX: Int32, marginY: Int32) returns (buffer: string)
    requires img.Valid()
    ensures buffer == Render(img, marginX, marginY)
  {
    buffer := LeadingNewlines(marginY);
    var y := 0;
    while y < img.height / 2
      invariant y <= img.height / 2
      invariant buffer == RenderedRows(img, marginX, marginY, y)
    {
      RenderStep(img, marginX, marginY, y);
      buffer := AppendRow(img, marginX, y, buffer);
      y := y + 1;
    }
    RenderDone(img, marginX, marginY);
  }

  /** Every cell is the reference policy's segment, written foreground
      directive first; so the colours of both layers and the glyph are those
      the policy assigns. */
  lemma CellEncodesPolicy(top: Rgba, bottom: Rgba)
    ensures Cell(top, bottom) == Encode(Policy(top, bottom))
  {
  }

  /** The alpha channel never reaches the output: a pixel's alpha matters
      only as far as it is 0 or not. */
  lemma CellIgnoresAlpha(top: Rgba, bottom: Rgba, top': Rgba, bottom': Rgba)
    requires top.Color() == top'.Color() && top.Transparent() == top'.Transparent()
    requires bottom.Color() == bottom'.Color() && bottom.Transparent() == bottom'.Transparent()
    ensures Cell(top, bottom) == Cell(top', bottom')
  {
    CellEncodesPolicy(top, bottom);
    CellEncodesPolicy(top', bottom');
    PolicyIgnoresAlpha(top, bottom, top', bottom');
  }

  /** A cell draws exactly one glyph, the policy's, as its last character. */
  lemma CellGlyph(top: Rgba, bottom: Rgba)
    ensures Glyphs(Cell(top, bottom)) == [Policy(top, bottom).glyph]
    ensures Cell(top, bottom)[|Cell(top, bottom)| - 1] == Policy(top, bottom).glyph
  {
    var s := Policy(top, bottom);
    var f, b := ForegroundDirective(s.fg), BackgroundDirective(s.bg);
    DirectiveShape(s.fg);
    DirectiveShape(s.bg);
    CellEncodesPolicy(top, bottom);
    GlyphBetween(f + b, s.glyph, []);
    assert Cell(top, bottom) == f + b + [s.glyph] + [];
  }

  /** A cell never breaks the line. */
  lemma CellNoNewline(top: Rgba, bottom: Rgba)
    ensures NoNewline(Cell(top, bottom))
  {
    var s := Policy(top, bottom);
    var f, b := ForegroundDirective(s.fg), BackgroundDirective(s.bg);
    DirectiveShape(s.fg);
    DirectiveShape(s.bg);
    ControlHasNoNewline(f);
    ControlHasNoNewline(b);
    assert Cell(top, bottom) == f + b + [s.glyph];
  }

  lemma RowCellsNoNewline(img: Image, y: nat)
    requires img.Valid() && y < img.height / 2
    ensures NoNewline(Concat(RowCells(img, y)))
  {
    var cells := RowCells(img, y);
    forall x | 0 <= x < |cells|
      ensures NoNewline(cells[x])
    {
      CellNoNewline(img.At(x, y * 2), img.At(x, y * 2 + 1));
    }
    ConcatNoNewline(cells);
  }

  /** Text row `y` is one terminal line that starts with the cursor-forward
      directive for `MarginX`, even when `MarginX` is 0, and ends with a style
      reset and its only line break. */
  lemma LineShape(img: Image, marginX: Int32, y: nat)
    requires img.Valid() && y < img.height / 2
    ensures IsLine(Line(img, marginX, y))
    ensures CursorForward(marginX) <= Line(img, marginX, y)
    ensures EndsWith(Line(img, marginX, y), ResetStyle + "\n")
  {
    var cf := CursorForward(marginX);
    CursorForwardShape(marginX);
    ResetStyleShape();
    ControlHasNoNewline(cf);
    ControlHasNoNewline(ResetStyle);
    RowCellsNoNewline(img, y);
    LineParts(cf, Concat(RowCells(img, y)), ResetStyle);
  }

  /** Each text row draws exactly `Width` glyphs: the policy's glyph for each
      column, left to right. */
  lemma LineGlyphs(img: Image, marginX: Int32, y: nat)
    requires img.Valid() && y < img.height / 2
    ensures Glyphs(Line(img, marginX, y)) == RowGlyphs(img, y)
    ensures |Glyphs(Line(img, marginX, y))| == img.width
  {
    CursorForwardShape(marginX);
    ResetStyleShape();
    forall x | 0 <= x < img.width
      ensures Glyphs(RowCells(img, y)[x]) == [RowGlyphs(img, y)[x]]
    {
      CellGlyph(img.At(x, y * 2), img.At(x, y * 2 + 1));
    }
    GlyphsOfConcat(RowCells(img, y), RowGlyphs(img, y));
    GlyphsFramed(CursorForward(marginX), Concat(RowCells(img, y)), ResetStyle);
  }

  lemma LinesAreLines(img: Image, marginX: Int32)
    requires img.Valid()
    ensures forall y :: 0 <= y < |Lines(img, marginX)| ==> IsLine(Lines(img, marginX)[y])
  {
    forall y | 0 <= y < img.height / 2
      ensures IsLine(Lines(img, marginX)[y])
    {
      LineShape(img, marginX, y);
    }
  }

  /** Read as terminal lines, the buffer is `max(MarginY, 0)` empty lines and
      then exactly `Height / 2` text rows, row `y` built from pixel rows `2y`
      and `2y+1`. */
  lemma RenderLines(img: Image, marginX: Int32, marginY: Int32)
    requires img.Valid()
    ensures var ls, m := SplitLines(Render(img, marginX, marginY)), if marginY > 0 then marginY else 0;
            && |ls| == m + img.height / 2
            && (forall i :: 0 <= i < m ==> ls[i] == "\n")
            && ls[m..] == Lines(img, marginX)
  {
    LinesAreLines(img, marginX);
    SplitAfterNewlines(marginY, Lines(img, marginX));
  }

  /** The buffer opens with exactly `max(MarginY, 0)` line breaks; the first
      row's cursor-forward directive follows at once, and the buffer ends at a
      line break unless no row is drawn. */
  lemma RenderPrefix(img: Image, marginX: Int32, marginY: Int32)
    requires img.Valid()
    ensures var out, m := Render(img, marginX, marginY), if marginY > 0 then marginY else 0;
            && |out| >= m
            && (forall i :: 0 <= i < m ==> out[i] == '\n')
            && (img.height / 2 == 0 ==> |out| == m)
            && (img.height / 2 > 0 ==> |out| > m && out[m] == Esc && out[|out| - 1] == '\n')
  {
    LinesAreLines(img, marginX);
    NewlinesThenLines(marginY, Lines(img, marginX));
    if img.height / 2 > 0 {
      LineShape(img, marginX, 0);
      CursorForwardShape(marginX);
      assert Lines(img, marginX)[0][0] == Esc;
    }
  }

  lemma {:induction false} NewlinesDrawNothing(n: int)
    ensures Glyphs(Newlines(n)) == []
    decreases if n > 0 then n else 0
  {
    if n > 0 {
      NewlinesDrawNothing(n - 1);
      GlyphsAppend(Newlines(n - 1), "\n");
      GlyphsOfGlyph('\n');
    }
  }

  /** The glyphs of the whole buffer are the reference picture, whatever the
      margins: `Width` glyphs for each of the `Height / 2` rows. */
  lemma RenderPicture(img: Image, marginX: Int32, marginY: Int32)
    requires img.Valid()
    ensures Glyphs(Render(img, marginX, marginY)) == Picture(img)
  {
    var lines := Lines(img, marginX);
    forall y | 0 <= y < |lines|
      ensures Glyphs(lines[y]) == PictureRows(img)[y]
    {
      LineGlyphs(img, marginX, y);
    }
    GlyphsOfConcatRows(lines, PictureRows(img));
    GlyphsAppend(Newlines(marginY), Concat(lines));
    NewlinesDrawNothing(marginY);
  }
}
