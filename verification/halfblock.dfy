/** The half-block technique both renderers share: a terminal cell shows two
    vertically stacked pixels, the upper through one glyph's foreground and
    the lower through the background, with binary transparency deciding which
    layers keep the terminal's default colour. This module states that policy
    once, independently of either renderer's code, as a reference. */
module HalfBlock {

  import opened Pixels
  import opened Text
  import opened Terminal

  /** What a cell shows: the paint of each layer and the glyph drawn. */
  datatype Segment = Segment(fg: Paint, bg: Paint, glyph: char)

  /** The four-way transparency policy for the pixel pair of one cell. */
  function Policy(top: Rgba, bottom: Rgba): (s: Segment)
    ensures IsGlyph(s.glyph)
    // the glyph shows the opaque half; a space when neither half is opaque
    ensures s.glyph == EmptyBlock <==> top.Transparent() && bottom.Transparent()
    ensures s.glyph == BottomBlock <==> top.Transparent() && !bottom.Transparent()
    // a background colour only when both halves are opaque, and then the lower one
    ensures s.bg.Colored? <==> !top.Transparent() && !bottom.Transparent()
    ensures s.bg.Colored? ==> s.bg.rgb == bottom.Color()
    // a foreground colour whenever some half is opaque: the top one if it is opaque
    ensures s.fg.Colored? <==> !(top.Transparent() && bottom.Transparent())
    ensures s.fg.Colored? ==> s.fg.rgb == (if top.Transparent() then bottom.Color() else top.Color())
  {
    match (top.Transparent(), bottom.Transparent())
    case (false, false) => Segment(Colored(top.Color()), Colored(bottom.Color()), TopBlock)
    case (true, true) => Segment(Default, Default, EmptyBlock)
    case (true, false) => Segment(Colored(bottom.Color()), Default, BottomBlock)
    case (false, true) => Segment(Colored(top.Color()), Default, TopBlock)
  }

  /** Alpha only decides transparency: two pixel pairs with the same colours
      and the same transparency get the same segment. */
  lemma PolicyIgnoresAlpha(top: Rgba, bottom: Rgba, top': Rgba, bottom': Rgba)
    requires top.Color() == top'.Color() && top.Transparent() == top'.Transparent()
    requires bottom.Color() == bottom'.Color() && bottom.Transparent() == bottom'.Transparent()
    ensures Policy(top, bottom) == Policy(top', bottom')
  {
  }

  /** A segment written foreground directive first, then background
      directive, then the glyph. */
  function Encode(s: Segment): string {
    ForegroundDirective(s.fg) + BackgroundDirective(s.bg) + [s.glyph]
  }

  /** The encoding loses nothing: the text of a cell determines its segment. */
  lemma EncodeInjective(s1: Segment, s2: Segment)
    ensures Encode(s1) == Encode(s2) <==> s1 == s2
  {
    if Encode(s1) == Encode(s2) {
      var f1, b1 := ForegroundDirective(s1.fg), BackgroundDirective(s1.bg);
      var f2, b2 := ForegroundDirective(s2.fg), BackgroundDirective(s2.bg);
      DirectiveShape(s1.fg);
      DirectiveShape(s1.bg);
      DirectiveShape(s2.fg);
      DirectiveShape(s2.bg);
      assert Encode(s1) == f1 + (b1 + [s1.glyph]);
      assert Encode(s2) == f2 + (b2 + [s2.glyph]);
      CutAfterSgr(f1, b1 + [s1.glyph], f2, b2 + [s2.glyph]);
      CutAfterSgr(b1, [s1.glyph], b2, [s2.glyph]);
      ForegroundDirectiveInjective(s1.fg, s2.fg);
      BackgroundDirectiveInjective(s1.bg, s2.bg);
    }
  }

  /** The glyphs of text row `y`, one per column, left to right; the row
      shows pixel rows `2y` and `2y+1`. */
  function RowGlyphs(img: Image, y: nat): (g: string)
    requires img.Valid() && y < img.height / 2
    ensures |g| == img.width
    ensures forall x :: 0 <= x < |g| ==> g[x] == Policy(img.At(x, y * 2), img.At(x, y * 2 + 1)).glyph
  {
    seq(img.width, x requires 0 <= x < img.width => Policy(img.At(x, y * 2), img.At(x, y * 2 + 1)).glyph)
  }

  /** The glyph picture of an image: one row of glyphs per pair of pixel rows,
      so an odd last pixel row is not shown. */
  function PictureRows(img: Image): (rows: seq<string>)
    requires img.Valid()
    ensures |rows| == img.height / 2
    ensures forall y :: 0 <= y < |rows| ==> rows[y] == RowGlyphs(img, y)
  {
    seq(img.height / 2, y requires 0 <= y < img.height / 2 => RowGlyphs(img, y))
  }

  /** The whole glyph picture, top row first. */
  function Picture(img: Image): string
    requires img.Valid()
  {
    Concat(PictureRows(img))
  }
}
