/** The Python renderer (`tym.py`): the target box it asks `ImageOps.contain`
    for, and the text it writes for the resized image: per pair of pixel rows
    one styled glyph per column, each followed by a style reset, and a line
    break from `print()`. There are no margins. */
module Tym {

  import opened Text
  import opened Pixels
  import opened Terminal
  import opened HalfBlock

  /** `h_target_pixel`: the box height is fixed, whatever the terminal's. */
  const TargetHeight: nat := 40

  /** The box the image is contained in: `int(w / 2)` columns, which for a
      terminal width `w >= 0` is the floor of half of it, and 40 pixel rows. */
  function TargetBox(w: nat): (t: Size)
    ensures 2 * t.width <= w < 2 * t.width + 2
    ensures t.height == 40
  {
    Size(w / 2, TargetHeight)
  }

  /** One terminal cell for `p1` over `p2`, as the `if`/`elif` chain writes
      it: both transparent, then only the lower one, then only the upper one,
      then neither; every branch is followed by a style reset. The four
      branches cover every pair exactly once. */
  function Cell(p1: Rgba, p2: Rgba): (c: string)
    ensures p1.Transparent() && p2.Transparent() ==>
              c == DefaultBackground + DefaultForeground + [EmptyBlock] + ResetStyle
    ensures !p1.Transparent() && p2.Transparent() ==>
              c == Foreground(p1.Color()) + DefaultBackground + [TopBlock] + ResetStyle
    ensures p1.Transparent() && !p2.Transparent() ==>
              c == DefaultBackground + Foreground(p2.Color()) + [BottomBlock] + ResetStyle
    ensures !p1.Transparent() && !p2.Transparent() ==>
              c == Foreground(p1.Color()) + Background(p2.Color()) + [TopBlock] + ResetStyle
  {
    if p1.a == 0 && p2.a == 0 then
      DefaultBackground + DefaultForeground + [EmptyBlock] + ResetStyle
    else if p2.a == 0 then
      Foreground(p1.Color()) + DefaultBackground + [TopBlock] + ResetStyle
    else if p1.a == 0 then
      DefaultBackground + Foreground(p2.Color()) + [BottomBlock] + ResetStyle
    else
      Foreground(p1.Color()) + Background(p2.Color()) + [TopBlock] + ResetStyle
  }

  /** The cells of text row `y`, one per column, from pixel rows `2y` and
      `2y+1`. */
  function RowCells(img: Image, y: nat): (cells: seq<string>)
    requires img.Valid() && y < img.height / 2
    ensures |cells| == img.width
    ensures forall x :: 0 <= x < |cells| ==> cells[x] == Cell(img.At(x, y * 2), img.At(x, y * 2 + 1))
  {
    seq(img.width, x requires 0 <= x < img.width => Cell(img.At(x, y * 2), img.At(x, y * 2 + 1)))
  }

  lemma RowCellAt(img: Image, y: nat, x: nat, p1: Rgba, p2: Rgba)
    requires img.Valid() && y < img.height / 2 && x < img.width
    requires p1 == img.At(x, y * 2) && p2 == img.At(x, y * 2 + 1)
    ensures RowCells(img, y)[x] == Cell(p1, p2)
  {
  }

  /** Text row `y`: its cells, then the line break `print()` writes. */
  function Line(img: Image, y: nat): string
    requires img.Valid() && y < img.height / 2
  {
    Concat(RowCells(img, y)) + "\n"
  }

  function Lines(img: Image): (lines: seq<string>)
    requires img.Valid()
    ensures |lines| == img.height / 2
    ensures forall y :: 0 <= y < |lines| ==> lines[y] == Line(img, y)
  {
    seq(img.height / 2, y requires 0 <= y < img.height / 2 => Line(img, y))
  }

  /** Everything written to standard output for one image. */
  function Render(img: Image): string
    requires img.Valid()
  {
    Concat(Lines(img))
  }

  /** The nested loop as written, with the writes to `stdout` collected in
      `out`; every `getpixel((x, y*2))` and `getpixel((x, y*2 + 1))` is
      inside the image. */
  method WriteImage(img: Image) returns (out: string)
    requires img.Valid()
    ensures out == Render(img)
  {
    out := "";
    ghost var lines := Lines(img);
    var y := 0;
    while y < img.height / 2
      invariant y <= img.height / 2
      invariant out == Concat(lines[..y])
    {
      ghost var before := out;
      ghost var cells := RowCells(img, y);
      assert cells[..0] == [];
      AppendNothing(out);
      var x := 0;
      while x < img.width
        invariant x <= img.width
        invariant out == before + Concat(cells[..x])
      {
        var p1, p2 := img.At(x, y * 2), img.At(x, y * 2 + 1);
        RowCellAt(img, y, x, p1, p2);
        out := out + Cell(p1, p2);
        ConcatStep(cells, x);
        AppendPiece(before, Concat(cells[..x]), cells[x], Concat(cells[..x + 1]));
        x := x + 1;
      }
      assert cells[..x] == cells;
      AppendPiece(before, Concat(cells), "\n", lines[y]);
      out := out + "\n";
      ConcatStep(lines, y);
      y := y + 1;
    }
    assert lines[..y] == lines;
  }

  /** Every cell is the reference policy's segment followed by a style reset;
      the two directives come background first exactly when the upper pixel
      is transparent. */
  lemma CellEncodesPolicy(p1: Rgba, p2: Rgba)
    ensures var s := Policy(p1, p2);
            var f, b := ForegroundDirective(s.fg), BackgroundDirective(s.bg);
            Cell(p1, p2) == (if p1.Transparent() then b + f else f + b) + [s.glyph] + ResetStyle
  {
  }

  /** The alpha channel never reaches the output: a pixel's alpha matters
      only as far as it is 0 or not. */
  lemma CellIgnoresAlpha(p1: Rgba, p2: Rgba, p1': Rgba, p2': Rgba)
    requires p1.Color() == p1'.Color() && p1.Transparent() == p1'.Transparent()
    requires p2.Color() == p2'.Color() && p2.Transparent() == p2'.Transparent()
    ensures Cell(p1, p2) == Cell(p1', p2')
  {
    CellEncodesPolicy(p1, p2);
    CellEncodesPolicy(p1', p2');
    PolicyIgnoresAlpha(p1, p2, p1', p2');
  }

  /** A cell draws exactly the policy's glyph and ends with a style reset. */
  lemma CellGlyph(p1: Rgba, p2: Rgba)
    ensures Glyphs(Cell(p1, p2)) == [Policy(p1, p2).glyph]
    ensures EndsWith(Cell(p1, p2), ResetStyle)
  {
    var s := Policy(p1, p2);
    var f, b := ForegroundDirective(s.fg), BackgroundDirective(s.bg);
    DirectiveShape(s.fg);
    DirectiveShape(s.bg);
    ResetStyleShape();
    var d := if p1.Transparent() then b + f else f + b;
    assert ControlOnly(d);
    CellEncodesPolicy(p1, p2);
    GlyphBetween(d, s.glyph, ResetStyle);
  }

  lemma CellNoNewline(p1: Rgba, p2: Rgba)
    ensures NoNewline(Cell(p1, p2))
  {
    var s := Policy(p1, p2);
    var f, b := ForegroundDirective(s.fg), BackgroundDirective(s.bg);
    DirectiveShape(s.fg);
    DirectiveShape(s.bg);
    ResetStyleShape();
    ControlHasNoNewline(f);
    ControlHasNoNewline(b);
    ControlHasNoNewline(ResetStyle);
    assert Cell(p1, p2) == (if p1.Transparent() then b + f else f + b) + [s.glyph] + ResetStyle;
  }

  /** Text row `y` is one terminal line. */
  lemma LineShape(img: Image, y: nat)
    requires img.Valid() && y < img.height / 2
    ensures IsLine(Line(img, y))
  {
    var cells := RowCells(img, y);
    forall x | 0 <= x < |cells|
      ensures NoNewline(cells[x])
    {
      CellNoNewline(img.At(x, y * 2), img.At(x, y * 2 + 1));
    }
    ConcatNoNewline(cells);
    LineOf(Concat(cells));
  }

  /** Each text row draws exactly `width` glyphs: the policy's glyph for each
      column, left to right. */
  lemma LineGlyphs(img: Image, y: nat)
    requires img.Valid() && y < img.height / 2
    ensures Glyphs(Line(img, y)) == RowGlyphs(img, y)
    ensures |Glyphs(Line(img, y))| == img.width
  {
    forall x | 0 <= x < img.width
      ensures Glyphs(RowCells(img, y)[x]) == [RowGlyphs(img, y)[x]]
    {
      CellGlyph(img.At(x, y * 2), img.At(x, y * 2 + 1));
    }
    GlyphsOfConcat(RowCells(img, y), RowGlyphs(img, y));
    GlyphsFramed([], Concat(RowCells(img, y)), []);
    assert [] + Concat(RowCells(img, y)) + [] + "\n" == Line(img, y);
  }

  /** Read as terminal lines, the output is exactly `height / 2` text rows,
      row `y` built from pixel rows `2y` and `2y+1`, and nothing before them. */
  lemma RenderLines(img: Image)
    requires img.Valid()
    ensures SplitLines(Render(img)) == Lines(img)
    ensures |SplitLines(Render(img))| == img.height / 2
  {
    forall y | 0 <= y < img.height / 2
      ensures IsLine(Lines(img)[y])
    {
      LineShape(img, y);
    }
    SplitConcatLines(Lines(img));
  }

  /** The glyphs of the whole output are the reference picture. */
  lemma RenderPicture(img: Image)
    requires img.Valid()
    ensures Glyphs(Render(img)) == Picture(img)
  {
    var lines := Lines(img);
    forall y | 0 <= y < |lines|
      ensures Glyphs(lines[y]) == PictureRows(img)[y]
    {
      LineGlyphs(img, y);
    }
    GlyphsOfConcatRows(lines, PictureRows(img));
  }
}
