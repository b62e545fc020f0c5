/** Plain text helpers: joining pieces, runs of line breaks, and the reading
    of a text as the sequence of lines a terminal shows, which is the partner
    of the renderers' line-by-line construction. */
module Text {

  predicate NoNewline(s: string) {
    '\n' !in s
  }

  /** `s` is one terminal line: its only line break is its last character. */
  predicate IsLine(s: string) {
    1 <= |s| && s[|s| - 1] == '\n' && NoNewline(s[..|s| - 1])
  }

  predicate EndsWith(s: string, suffix: string) {
    |suffix| <= |s| && s[|s| - |suffix|..] == suffix
  }

  /** The pieces written one after another, as repeated `+=` builds them. */
  function Concat(pieces: seq<string>): string
    decreases |pieces|
  {
    if pieces == [] then [] else Concat(pieces[..|pieces| - 1]) + pieces[|pieces| - 1]
  }

  /** `n` line breaks; none when `n` is zero or negative, as a counted loop
      `for (y = 0; y < n; y++)` produces. */
  function Newlines(n: int): (s: string)
    ensures |s| == if n > 0 then n else 0
    ensures forall i :: 0 <= i < |s| ==> s[i] == '\n'
    decreases if n > 0 then n else 0
  {
    if n <= 0 then [] else Newlines(n - 1) + ['\n']
  }

  /** Cuts a text after every line break. Each piece keeps its break; a final
      piece without one is kept as it is. */
  function SplitLines(s: string): (ls: seq<string>)
    ensures s != [] ==> ls != []
    decreases |s|
  {
    if s == [] then []
    else
      var rest := SplitLines(s[1..]);
      if s[0] == '\n' then [['\n']] + rest
      else if rest == [] then [[s[0]]]
      else [[s[0]] + rest[0]] + rest[1..]
  }

  lemma ConcatStep(pieces: seq<string>, k: nat)
    requires k < |pieces|
    ensures Concat(pieces[..k + 1]) == Concat(pieces[..k]) + pieces[k]
  {
    assert pieces[..k + 1][..k] == pieces[..k];
  }

  lemma {:induction false} ConcatNoNewline(pieces: seq<string>)
    requires forall i :: 0 <= i < |pieces| ==> NoNewline(pieces[i])
    ensures NoNewline(Concat(pieces))
    decreases |pieces|
  {
    if pieces != [] {
      ConcatNoNewline(pieces[..|pieces| - 1]);
    }
  }

  /** A text that ends at a line break splits independently of what follows. */
  lemma {:induction false} SplitLinesAppend(a: string, b: string)
    requires a == [] || a[|a| - 1] == '\n'
    ensures SplitLines(a + b) == SplitLines(a) + SplitLines(b)
    decreases |a|
  {
    if a != [] {
      assert (a + b)[0] == a[0];
      assert (a + b)[1..] == a[1..] + b;
      SplitLinesAppend(a[1..], b);
      if a[0] != '\n' {
        var tail := SplitLines(a[1..]);
        assert a[1..] != [];
        assert (tail + SplitLines(b))[0] == tail[0];
        assert (tail + SplitLines(b))[1..] == tail[1..] + SplitLines(b);
        assert SplitLines(a) == [[a[0]] + tail[0]] + tail[1..];
      } else {
        assert SplitLines(a) == [['\n']] + SplitLines(a[1..]);
      }
    } else {
      assert a + b == b;
    }
  }

  lemma {:induction false} SplitOneLine(line: string)
    requires IsLine(line)
    ensures SplitLines(line) == [line]
    decreases |line|
  {
    if |line| > 1 {
      assert line[0] == line[..|line| - 1][0];
      assert line[1..][..|line| - 2] == line[..|line| - 1][1..];
      SplitOneLine(line[1..]);
      assert [line[0]] + line[1..] == line;
    } else {
      assert line == ['\n'];
    }
  }

  /** Lines written one after another are read back one by one. */
  lemma {:induction false} SplitConcatLines(lines: seq<string>)
    requires forall i :: 0 <= i < |lines| ==> IsLine(lines[i])
    ensures SplitLines(Concat(lines)) == lines
    ensures lines != [] ==> Concat(lines)[|Concat(lines)| - 1] == '\n'
    decreases |lines|
  {
    if lines != [] {
      var init, last := lines[..|lines| - 1], lines[|lines| - 1];
      assert forall i :: 0 <= i < |init| ==> init[i] == lines[i];
      SplitConcatLines(init);
      var done := Concat(init);
      assert Concat(lines) == done + last;
      assert IsLine(last);
      SplitLinesAppend(done, last);
      SplitOneLine(last);
      assert lines == init + [last];
      assert (done + last)[|done + last| - 1] == last[|last| - 1];
    }
  }

  lemma {:induction false} SplitNewlines(n: int)
    ensures |SplitLines(Newlines(n))| == if n > 0 then n else 0
    ensures forall i :: 0 <= i < |SplitLines(Newlines(n))| ==> SplitLines(Newlines(n))[i] == "\n"
    decreases if n > 0 then n else 0
  {
    if n > 0 {
      SplitNewlines(n - 1);
      SplitLinesAppend(Newlines(n - 1), ['\n']);
    }
  }

  lemma LineOf(body: string)
    requires NoNewline(body)
    ensures IsLine(body + "\n")
  {
    assert (body + "\n")[..|body|] == body;
  }

  /** A line made of three break-free parts and a final break. */
  lemma LineParts(a: string, b: string, c: string)
    requires NoNewline(a) && NoNewline(b) && NoNewline(c)
    ensures IsLine(a + b + c + "\n")
    ensures a <= a + b + c + "\n"
    ensures EndsWith(a + b + c + "\n", c + "\n")
  {
    var body := a + b + c;
    assert (body + "\n")[..|body|] == body;
    assert a + b + c + "\n" == a + (b + c + "\n");
    assert a + b + c + "\n" == (a + b) + (c + "\n");
  }

  /** The first character written is the first piece's first character. */
  lemma {:induction false} ConcatFirst(pieces: seq<string>)
    requires pieces != [] && pieces[0] != []
    ensures Concat(pieces) != [] && Concat(pieces)[0] == pieces[0][0]
    decreases |pieces|
  {
    if |pieces| > 1 {
      ConcatFirst(pieces[..|pieces| - 1]);
    } else {
      assert pieces[..0] == [];
    }
  }

  /** Appending one more piece to a text built as `prefix` then some pieces. */
  lemma AppendPiece(prefix: string, done: string, piece: string, whole: string)
    requires whole == done + piece
    ensures prefix + done + piece == prefix + whole
  {
  }

  /** Closing a line: the row text, then a suffix and a line break. */
  lemma AppendLine(prefix: string, row: string, suffix: string, whole: string)
    requires whole == row + suffix + "\n"
    ensures prefix + row + suffix + "\n" == prefix + whole
  {
  }

  lemma AppendNothing(prefix: string)
    ensures prefix + Concat([]) == prefix
  {
  }

  /** Line breaks written before some lines read back as that many empty
      lines and then the lines themselves. */
  lemma SplitAfterNewlines(n: int, lines: seq<string>)
    requires forall i :: 0 <= i < |lines| ==> IsLine(lines[i])
    ensures var ls, m := SplitLines(Newlines(n) + Concat(lines)), if n > 0 then n else 0;
            && |ls| == m + |lines|
            && (forall i :: 0 <= i < m ==> ls[i] == "\n")
            && ls[m..] == lines
  {
    SplitLinesAppend(Newlines(n), Concat(lines));
    SplitNewlines(n);
    SplitConcatLines(lines);
  }

  /** Line breaks written before some lines: exactly that many breaks come
      first, then the first line's first character; the text ends at a line
      break unless there are no lines. */
  lemma NewlinesThenLines(n: int, lines: seq<string>)
    requires forall i :: 0 <= i < |lines| ==> IsLine(lines[i])
    ensures var out, m := Newlines(n) + Concat(lines), if n > 0 then n else 0;
            && |out| >= m
            && (forall i :: 0 <= i < m ==> out[i] == '\n')
            && (lines == [] ==> |out| == m)
            && (lines != [] ==> IsLine(lines[0]) && |out| > m && out[m] == lines[0][0] && out[|out| - 1] == '\n')
  {
    if lines != [] {
      SplitConcatLines(lines);
      ConcatFirst(lines);
    }
  }
}
