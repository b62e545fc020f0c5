/** The two renderers side by side: for every pixel pair they pick the same
    glyph and the same coloured pixel for each layer, and differ only in the
    order of the two directives and in the style reset the Python renderer
    writes after every cell; over a whole image they draw the same picture,
    row for row. */
module Agreement {

  import opened Text
  import opened Pixels
  import opened Terminal
  import opened HalfBlock
  import App
  import Tym

  /** Both target boxes are half the terminal's columns wide; only the
      heights differ (the buffer's rows against a fixed 40). */
  lemma TargetWidthsAgree(columns: nat, rows: nat)
    ensures App.TargetSize(columns, rows).width == Tym.TargetBox(columns).width
    ensures App.TargetSize(columns, rows).height == rows && Tym.TargetBox(columns).height == 40
  {
  }

  /** One pixel pair: both cells carry the policy's foreground directive, its
      background directive and its glyph. The C# cell writes them foreground
      first; the Python cell does too unless the upper pixel is transparent,
      and adds a style reset. */
  lemma CellsAgree(top: Rgba, bottom: Rgba)
    ensures var s := Policy(top, bottom);
            var f, b := ForegroundDirective(s.fg), BackgroundDirective(s.bg);
            && App.Cell(top, bottom) == f + b + [s.glyph]
            && Tym.Cell(top, bottom) == (if top.Transparent() then b + f else f + b) + [s.glyph] + ResetStyle
    ensures !top.Transparent() ==> Tym.Cell(top, bottom) == App.Cell(top, bottom) + ResetStyle
    ensures Glyphs(App.Cell(top, bottom)) == Glyphs(Tym.Cell(top, bottom)) == [Policy(top, bottom).glyph]
  {
    App.CellEncodesPolicy(top, bottom);
    Tym.CellEncodesPolicy(top, bottom);
    App.CellGlyph(top, bottom);
    Tym.CellGlyph(top, bottom);
  }

  /** Text row `y` of both renderers draws the same glyphs: the policy's
      glyph for each column. */
  lemma LinesAgree(img: Image, marginX: App.Int32, y: nat)
    requires img.Valid() && y < img.height / 2
    ensures Glyphs(App.Line(img, marginX, y)) == Glyphs(Tym.Line(img, y)) == RowGlyphs(img, y)
  {
    App.LineGlyphs(img, marginX, y);
    Tym.LineGlyphs(img, y);
  }

  lemma LineListsAgree(img: Image, marginX: App.Int32)
    requires img.Valid()
    ensures SameGlyphs(App.Lines(img, marginX), Tym.Lines(img))
  {
    forall y | 0 <= y < img.height / 2
      ensures Glyphs(App.Lines(img, marginX)[y]) == Glyphs(Tym.Lines(img)[y])
    {
      LinesAgree(img, marginX, y);
    }
  }

  /** A whole image, line by line: after the C# renderer's `max(MarginY, 0)`
      blank lines, both outputs have the same number of lines and
      corresponding lines draw the same glyphs. */
  lemma OutputLinesAgree(img: Image, marginX: App.Int32, marginY: App.Int32)
    requires img.Valid()
    ensures var a, m := SplitLines(App.Render(img, marginX, marginY)), if marginY > 0 then marginY else 0;
            m <= |a| && SameGlyphs(a[m..], SplitLines(Tym.Render(img)))
  {
    App.RenderLines(img, marginX, marginY);
    Tym.RenderLines(img);
    LineListsAgree(img, marginX);
  }

  /** A whole image at once: both outputs draw the reference picture. */
  lemma OutputsAgree(img: Image, marginX: App.Int32, marginY: App.Int32)
    requires img.Valid()
    ensures Glyphs(App.Render(img, marginX, marginY)) == Glyphs(Tym.Render(img)) == Picture(img)
  {
    App.RenderPicture(img, marginX, marginY);
    Tym.RenderPicture(img);
  }
}
