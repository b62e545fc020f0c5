/** What the renderers write to the terminal: the three block glyphs and the
    ANSI control sequences (24-bit colour selection, colour reset, style reset,
    cursor forward) that style them. */
module Terminal {

  import opened Decimal
  import opened Pixels
  import opened Text

  const Esc: char := '\U{1B}'

  /** U+2580 UPPER HALF BLOCK: the foreground colour paints the upper pixel. */
  const TopBlock: char := '\U{2580}'

  /** U+2584 LOWER HALF BLOCK: the foreground colour paints the lower pixel. */
  const BottomBlock: char := '\U{2584}'

  /** U+0020 SPACE: only the background shows. */
  const EmptyBlock: char := ' '

  predicate IsGlyph(c: char) {
    c == TopBlock || c == BottomBlock || c == EmptyBlock
  }

  /** The characters the control sequences written here are made of. */
  predicate IsControlChar(c: char) {
    c == Esc || c == '[' || c == ';' || c == '-' || c == 'm' || c == 'C' || IsDigit(c)
  }

  predicate ControlOnly(s: string) {
    forall i :: 0 <= i < |s| ==> IsControlChar(s[i])
  }

  /** No 'm' before the last character: an SGR directive read from its first
      character ends exactly at its own final 'm'. */
  predicate SingleSgr(d: string) {
    1 <= |d| && d[|d| - 1] == 'm' && forall i :: 0 <= i < |d| - 1 ==> d[i] != 'm'
  }

  /** A Select Graphic Rendition directive, ESC '[' params 'm'. */
  function Sgr(params: string): string {
    [Esc, '['] + params + ['m']
  }

  const DefaultForeground: string := Sgr("39")
  const DefaultBackground: string := Sgr("49")
  const ResetStyle: string := Sgr("0")

  /** The three channels as SGR parameters, `R;G;B`; alpha has no place here. */
  function ColorParams(c: Rgb): string {
    NatToDecimal(c.r) + [';'] + NatToDecimal(c.g) + [';'] + NatToDecimal(c.b)
  }

  /** `ESC[38;2;R;G;Bm`: select a 24-bit foreground colour. */
  function Foreground(c: Rgb): string {
    Sgr("38;2;" + ColorParams(c))
  }

  /** `ESC[48;2;R;G;Bm`: select a 24-bit background colour. */
  function Background(c: Rgb): string {
    Sgr("48;2;" + ColorParams(c))
  }

  /** `ESC[nC`: move the cursor `n` columns right, `n` written as C# formats an int. */
  function CursorForward(n: int): string {
    [Esc, '['] + IntToDecimal(n) + ['C']
  }

  /** The colour state of one layer (foreground or background) of a cell. */
  datatype Paint = Default | Colored(rgb: Rgb)

  function ForegroundDirective(p: Paint): string {
    match p
    case Default => DefaultForeground
    case Colored(c) => Foreground(c)
  }

  function BackgroundDirective(p: Paint): string {
    match p
    case Default => DefaultBackground
    case Colored(c) => Background(c)
  }

  lemma SgrShape(params: string)
    requires ControlOnly(params)
    requires forall i :: 0 <= i < |params| ==> params[i] != 'm'
    ensures ControlOnly(Sgr(params)) && SingleSgr(Sgr(params))
  {
  }

  lemma ColorParamsShape(c: Rgb)
    ensures ControlOnly(ColorParams(c))
    ensures forall i :: 0 <= i < |ColorParams(c)| ==> ColorParams(c)[i] != 'm'
  {
  }

  /** Every directive a cell is made of is a single SGR sequence of control
      characters. */
  lemma DirectiveShape(p: Paint)
    ensures ControlOnly(ForegroundDirective(p)) && SingleSgr(ForegroundDirective(p))
    ensures ControlOnly(BackgroundDirective(p)) && SingleSgr(BackgroundDirective(p))
  {
    match p
    case Default =>
      SgrShape("39");
      SgrShape("49");
    case Colored(c) =>
      ColorParamsShape(c);
      SgrShape("38;2;" + ColorParams(c));
      SgrShape("48;2;" + ColorParams(c));
  }

  lemma ResetStyleShape()
    ensures ControlOnly(ResetStyle) && |ResetStyle| == 4
  {
    SgrShape("0");
  }

  lemma CursorForwardShape(n: int)
    ensures ControlOnly(CursorForward(n)) && |CursorForward(n)| >= 4
    ensures CursorForward(n)[0] == Esc
  {
  }

  /** Keeps the glyph characters of a text, in order. */
  function Glyphs(s: string): (g: string)
    ensures |g| <= |s|
    ensures forall i :: 0 <= i < |g| ==> IsGlyph(g[i])
    decreases |s|
  {
    if s == [] then [] else (if IsGlyph(s[0]) then [s[0]] else []) + Glyphs(s[1..])
  }

  /** Two lists of lines that draw the same glyphs, line for line. */
  predicate SameGlyphs(ls1: seq<string>, ls2: seq<string>) {
    |ls1| == |ls2| && forall y :: 0 <= y < |ls1| ==> Glyphs(ls1[y]) == Glyphs(ls2[y])
  }

  lemma {:induction false} GlyphsAppend(a: string, b: string)
    ensures Glyphs(a + b) == Glyphs(a) + Glyphs(b)
    decreases |a|
  {
    if a != [] {
      assert (a + b)[1..] == a[1..] + b;
      GlyphsAppend(a[1..], b);
    } else {
      assert a + b == b;
    }
  }

  /** Control sequences draw nothing. */
  lemma {:induction false} GlyphsOfControl(s: string)
    requires ControlOnly(s)
    ensures Glyphs(s) == []
    decreases |s|
  {
    if s != [] {
      GlyphsOfControl(s[1..]);
    }
  }

  lemma GlyphsOfGlyph(c: char)
    ensures Glyphs([c]) == if IsGlyph(c) then [c] else []
  {
    assert [c][1..] == [];
  }

  lemma FirstOccurrenceUnique(s: string, t: char, p: nat, q: nat)
    requires p < |s| && q < |s| && s[p] == t && s[q] == t
    requires forall i :: 0 <= i < p ==> s[i] != t
    requires forall i :: 0 <= i < q ==> s[i] != t
    ensures p == q
  {
  }

  /** Two texts, each followed by a separator they do not contain, can be
      told apart at the separator. */
  lemma CutAtSeparator(a: string, b: string, x: string, y: string, t: char)
    requires forall i :: 0 <= i < |a| ==> a[i] != t
    requires forall i :: 0 <= i < |b| ==> b[i] != t
    requires a + [t] + x == b + [t] + y
    ensures a == b && x == y
  {
    var s := a + [t] + x;
    FirstOccurrenceUnique(s, t, |a|, |b|);
    assert a == s[..|a|];
    assert b == s[..|b|];
    assert x == s[|a| + 1..];
  }

  lemma ColorParamsInjective(c1: Rgb, c2: Rgb)
    ensures ColorParams(c1) == ColorParams(c2) <==> c1 == c2
  {
    if ColorParams(c1) == ColorParams(c2) {
      var r1, g1, b1 := NatToDecimal(c1.r), NatToDecimal(c1.g), NatToDecimal(c1.b);
      var r2, g2, b2 := NatToDecimal(c2.r), NatToDecimal(c2.g), NatToDecimal(c2.b);
      assert ColorParams(c1) == r1 + [';'] + (g1 + [';'] + b1);
      assert ColorParams(c2) == r2 + [';'] + (g2 + [';'] + b2);
      CutAtSeparator(r1, r2, g1 + [';'] + b1, g2 + [';'] + b2, ';');
      CutAtSeparator(g1, g2, b1, b2, ';');
      NatToDecimalInjective(c1.r, c2.r);
      NatToDecimalInjective(c1.g, c2.g);
      NatToDecimalInjective(c1.b, c2.b);
    }
  }

  /** A colour directive names its colour exactly: equal directives carry
      equal colours and different colours give different directives. */
  lemma ForegroundInjective(c1: Rgb, c2: Rgb)
    ensures Foreground(c1) == Foreground(c2) <==> c1 == c2
  {
    if Foreground(c1) == Foreground(c2) {
      assert Foreground(c1)[7..|Foreground(c1)| - 1] == ColorParams(c1);
      assert Foreground(c2)[7..|Foreground(c2)| - 1] == ColorParams(c2);
      ColorParamsInjective(c1, c2);
    }
  }

  lemma BackgroundInjective(c1: Rgb, c2: Rgb)
    ensures Background(c1) == Background(c2) <==> c1 == c2
  {
    if Background(c1) == Background(c2) {
      assert Background(c1)[7..|Background(c1)| - 1] == ColorParams(c1);
      assert Background(c2)[7..|Background(c2)| - 1] == ColorParams(c2);
      ColorParamsInjective(c1, c2);
    }
  }

  /** The foreground directive determines the paint it sets, and never reads
      as a background directive. */
  lemma ForegroundDirectiveInjective(p1: Paint, p2: Paint)
    ensures ForegroundDirective(p1) == ForegroundDirective(p2) <==> p1 == p2
    ensures ForegroundDirective(p1) != BackgroundDirective(p2)
  {
    assert ForegroundDirective(p1)[2] == '3';
    assert BackgroundDirective(p2)[2] == '4';
    match (p1, p2)
    case (Colored(c1), Colored(c2)) =>
      ForegroundInjective(c1, c2);
    case (Colored(c1), Default) =>
      assert ForegroundDirective(p1)[3] != ForegroundDirective(p2)[3];
    case (Default, Colored(c2)) =>
      assert ForegroundDirective(p1)[3] != ForegroundDirective(p2)[3];
    case (Default, Default) =>
  }

  lemma BackgroundDirectiveInjective(p1: Paint, p2: Paint)
    ensures BackgroundDirective(p1) == BackgroundDirective(p2) <==> p1 == p2
  {
    match (p1, p2)
    case (Colored(c1), Colored(c2)) =>
      BackgroundInjective(c1, c2);
    case (Colored(c1), Default) =>
      assert BackgroundDirective(p1)[3] != BackgroundDirective(p2)[3];
    case (Default, Colored(c2)) =>
      assert BackgroundDirective(p1)[3] != BackgroundDirective(p2)[3];
    case (Default, Default) =>
  }

  /** Two directives written back to back can be read back one by one. */
  lemma CutAfterSgr(d1: string, x: string, d2: string, y: string)
    requires SingleSgr(d1) && SingleSgr(d2)
    requires d1 + x == d2 + y
    ensures d1 == d2 && x == y
  {
    var a, b := d1[..|d1| - 1], d2[..|d2| - 1];
    assert d1 == a + ['m'];
    assert d2 == b + ['m'];
    CutAtSeparator(a, b, x, y, 'm');
  }

  lemma ControlHasNoNewline(s: string)
    requires ControlOnly(s)
    ensures NoNewline(s)
  {
  }

  /** Pieces that each draw one glyph draw those glyphs, in order. */
  lemma {:induction false} GlyphsOfConcat(pieces: seq<string>, g: string)
    requires |pieces| == |g|
    requires forall i :: 0 <= i < |pieces| ==> Glyphs(pieces[i]) == [g[i]]
    ensures Glyphs(Concat(pieces)) == g
    decreases |pieces|
  {
    if pieces != [] {
      var k := |pieces| - 1;
      GlyphsOfConcat(pieces[..k], g[..k]);
      GlyphsAppend(Concat(pieces[..k]), pieces[k]);
      assert g == g[..k] + [g[k]];
    }
  }

  /** Pieces whose glyphs are given texts draw those texts one after another. */
  lemma {:induction false} GlyphsOfConcatRows(pieces: seq<string>, rows: seq<string>)
    requires |pieces| == |rows|
    requires forall i :: 0 <= i < |pieces| ==> Glyphs(pieces[i]) == rows[i]
    ensures Glyphs(Concat(pieces)) == Concat(rows)
    decreases |pieces|
  {
    if pieces != [] {
      var k := |pieces| - 1;
      GlyphsOfConcatRows(pieces[..k], rows[..k]);
      GlyphsAppend(Concat(pieces[..k]), pieces[k]);
    }
  }

  /** Text framed by control sequences and closed by a line break draws what
      the text draws. */
  lemma GlyphsFramed(a: string, b: string, c: string)
    requires ControlOnly(a) && ControlOnly(c)
    ensures Glyphs(a + b + c + "\n") == Glyphs(b)
  {
    GlyphsAppend(a + b + c, "\n");
    GlyphsAppend(a + b, c);
    GlyphsAppend(a, b);
    GlyphsOfControl(a);
    GlyphsOfControl(c);
    GlyphsOfGlyph('\n');
  }

  /** A glyph between two control sequences is all they draw together. */
  lemma GlyphBetween(d: string, g: char, r: string)
    requires ControlOnly(d) && ControlOnly(r)
    ensures Glyphs(d + [g] + r) == if IsGlyph(g) then [g] else []
    ensures (d + [g] + r)[|d|] == g
    ensures EndsWith(d + [g] + r, r)
  {
    GlyphsAppend(d + [g], r);
    GlyphsAppend(d, [g]);
    GlyphsOfControl(d);
    GlyphsOfControl(r);
    GlyphsOfGlyph(g);
    assert (d + [g] + r)[|d| + 1..] == r;
  }
}
