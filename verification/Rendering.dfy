/** What the lines of a paragraph look like when they have been put out. */
module Rendering {
  import opened Filling
  import opened Paragraphs

  /** A gap between every two words, and none of them negative. */
  ghost predicate Spaced(l: OutLine) {
    && (l.words == [] ==> l.gaps == []) && (l.words != [] ==> |l.gaps| == |l.words| - 1)
    && forall n :: 0 <= n < |l.gaps| ==> l.gaps[n] >= 0
  }

  /** The column word n begins in: after the indent, and the words and gaps before it. */
  ghost function Start(l: OutLine, n: nat): (c: nat)
    requires Spaced(l) && n < |l.words|
  {
    if n == 0 then l.indent else Start(l, n - 1) + |l.words[n - 1].chars| + l.gaps[n - 1]
  }

  /** Columns from a to b are blank. */
  ghost predicate BlankIn(r: Text, a: int, b: int) {
    forall i :: a <= i < b && 0 <= i < |r| ==> r[i] == BLANK
  }

  lemma {:induction false} BodyLength(l: OutLine, n: nat)
    requires Spaced(l) && n < |l.words|
    ensures l.indent + |Body(l, n)| == Start(l, n)
    ensures |Body(l, n + 1)| == |Body(l, n)| + |l.words[n].chars| + if n < |l.words| - 1 then l.gaps[n] else 0
    decreases n
  {
    if n > 0 {
      BodyLength(l, n - 1);
    }
  }

  lemma {:induction false} BodyGrows(l: OutLine, n: nat, m: nat)
    requires n <= m <= |l.words|
    ensures |Body(l, n)| <= |Body(l, m)| && Body(l, m)[..|Body(l, n)|] == Body(l, n)
    decreases m
  {
    hide Piece;
    if n < m {
      BodyGrows(l, n, m - 1);
      assert Body(l, m)[..|Body(l, m - 1)|] == Body(l, m - 1);
    }
  }

  /** The line is as long as its last word's end, and the newline comes there. */
  lemma LineLength(l: OutLine)
    requires Spaced(l) && l.words != []
    ensures var r, k := Rendered(l), |l.words| - 1;
            |r| == Start(l, k) + |l.words[k].chars| + 1 && r[|r| - 1] == NL && BlankIn(r, 0, l.indent)
  {
    hide Body, Piece;
    BodyLength(l, |l.words| - 1);
  }

  /** Word n stands at its column, and the gap after it is blank. */
  lemma WordStands(l: OutLine, n: nat)
    requires Spaced(l) && n < |l.words|
    ensures var r, c, w := Rendered(l), Start(l, n), l.words[n].chars;
            && c + |w| < |r| && r[c..c + |w|] == w
            && (n + 1 < |l.words| ==> Start(l, n + 1) == c + |w| + l.gaps[n] && BlankIn(r, c + |w|, Start(l, n + 1)))
  {
    hide Rendered, Body, Piece, Start;
    var r, c, w := Rendered(l), Start(l, n), l.words[n].chars;
    var here := Piece(l, n);
    LineLength(l);
    PieceStands(l, n);
    PieceIs(l, n);
    StartsNext(l, n);
    Parts(r, c, here, w);
  }

  lemma StartsNext(l: OutLine, n: nat)
    requires Spaced(l) && n < |l.words|
    ensures n + 1 < |l.words| ==> Start(l, n + 1) == Start(l, n) + |l.words[n].chars| + l.gaps[n]
  {
  }

  lemma PieceIs(l: OutLine, n: nat)
    requires Spaced(l) && n < |l.words|
    ensures var here, w := Piece(l, n), l.words[n].chars;
            && |here| == |w| + (if n + 1 < |l.words| then l.gaps[n] else 0)
            && here[..|w|] == w && BlankIn(here, |w|, |here|)
  {
  }

  lemma Parts(r: Text, c: nat, here: Text, w: Text)
    requires c + |here| <= |r| && r[c..c + |here|] == here && |w| <= |here| && here[..|w|] == w && BlankIn(here, |w|, |here|)
    ensures r[c..c + |w|] == w && BlankIn(r, c + |w|, c + |here|)
  {
    assert r[c..c + |here|][..|w|] == r[c..c + |w|];
    forall i | c + |w| <= i < c + |here|
      ensures r[i] == BLANK
    {
      assert r[c..c + |here|][i - c] == here[i - c];
    }
  }

  lemma PieceStands(l: OutLine, n: nat)
    requires Spaced(l) && n < |l.words|
    ensures var r, c, here := Rendered(l), Start(l, n), Piece(l, n); c + |here| < |r| && r[c..c + |here|] == here
  {
    hide Piece, Start;
    BodyLength(l, n);
    BodyGrows(l, n + 1, |l.words|);
    assert Body(l, n + 1) == Body(l, n) + Piece(l, n);
    PieceAt(Rendered(l), Blanks(l.indent), Body(l, |l.words|), Body(l, n), Piece(l, n));
  }

  lemma PieceAt(r: Text, head: Text, body: Text, before: Text, here: Text)
    requires r == head + body + [NL] && |before + here| <= |body| && body[..|before + here|] == before + here
    ensures var c := |head| + |before|; c + |here| < |r| && r[c..c + |here|] == here
  {
    var c := |head| + |before|;
    forall i | 0 <= i < |here|
      ensures r[c + i] == here[i]
    {
      assert r[c + i] == body[|before| + i] == body[..|before + here|][|before| + i];
    }
  }

  /** The lines of a paragraph are spaced. */
  lemma LinesAreSpaced(l: OutLine, k: nat, s: Style)
    requires GoodLine(l, k, s) || LastLine(l, k, s)
    ensures Spaced(l)
  {
  }

  /** A justified line with a gap to widen ends in the last column, if what its words count is what they hold. */
  lemma JustifiedEnds(l: OutLine, k: nat, s: Style)
    requires GoodLine(l, k, s) && s.justflg && forall n :: 0 <= n < |l.words| ==> |l.words[n].chars| == l.words[n].nchars
    requires exists n :: 0 <= n < |l.gaps| && GapsOf(l.words)[n] > 0
    ensures |Rendered(l)| - 1 == s.lineleng
  {
    hide Rendered, Justified, GapsOf, Width;
    LinesAreSpaced(l, k, s);
    JustifiedFills(l, k, s);
    LineLength(l);
    StartIs(l, |l.words| - 1);
    assert l.words[..|l.words|] == l.words && l.gaps[..|l.words| - 1] == l.gaps;
  }

  lemma {:induction false} StartIs(l: OutLine, n: nat)
    requires Spaced(l) && n < |l.words| && forall n :: 0 <= n < |l.words| ==> |l.words[n].chars| == l.words[n].nchars
    ensures Start(l, n) + |l.words[n].chars| == l.indent + Columns(l.words[..n + 1]) + Sum(l.gaps[..n])
    decreases n
  {
    assert l.words[..n + 1][..n] == l.words[..n];
    if n > 0 {
      StartIs(l, n - 1);
      assert l.gaps[..n][..n - 1] == l.gaps[..n - 1];
    } else {
      assert l.words[..0] == [];
    }
  }

  // ----- what is put out -----

  /** A text without its blanks and newlines. */
  function Ink(t: Text): Text {
    if t == [] then [] else (if t[0] == BLANK || t[0] == NL then [] else [t[0]]) + Ink(t[1..])
  }

  /** The characters of words, one word after the other. */
  function Chars(ws: seq<Word>): Text {
    if ws == [] then [] else Chars(ws[..|ws| - 1]) + ws[|ws| - 1].chars
  }

  lemma {:induction false} InkCat(x: Text, y: Text)
    ensures Ink(x + y) == Ink(x) + Ink(y)
  {
    if x == [] {
      assert x + y == y;
    } else {
      assert (x + y)[1..] == x[1..] + y;
      InkCat(x[1..], y);
    }
  }

  lemma {:induction false} InkOfBlanks(n: int)
    ensures Ink(Blanks(n)) == []
    decreases n
  {
    if n > 0 {
      assert Blanks(n)[1..] == Blanks(n - 1);
      InkOfBlanks(n - 1);
    }
  }

  lemma {:induction false} InkOfBody(l: OutLine, n: nat)
    requires n <= |l.words|
    ensures Ink(Body(l, n)) == Ink(Chars(l.words[..n]))
    decreases n
  {
    if n > 0 {
      var w := l.words[n - 1].chars;
      InkOfBody(l, n - 1);
      assert l.words[..n][..n - 1] == l.words[..n - 1];
      InkCat(Chars(l.words[..n - 1]), w);
      InkCat(Body(l, n - 1), Piece(l, n - 1));
      InkCat(w, Piece(l, n - 1)[|w|..]);
      assert Piece(l, n - 1) == w + Piece(l, n - 1)[|w|..];
      if n - 1 < |l.words| - 1 && n - 1 < |l.gaps| {
        InkOfBlanks(l.gaps[n - 1]);
        assert Piece(l, n - 1)[|w|..] == Blanks(l.gaps[n - 1]);
      } else {
        assert Piece(l, n - 1)[|w|..] == [];
      }
    }
  }

  lemma InkOfLine(l: OutLine)
    ensures Ink(Rendered(l)) == Ink(Chars(l.words))
  {
    hide Body;
    InkOfBody(l, |l.words|);
    InkOfBlanks(l.indent);
    InkCat(Blanks(l.indent) + Body(l, |l.words|), [NL]);
    InkCat(Blanks(l.indent), Body(l, |l.words|));
    assert l.words[..|l.words|] == l.words;
    assert [NL][1..] == [];
  }

  lemma {:induction false} CharsCat(a: seq<Word>, b: seq<Word>)
    ensures Chars(a + b) == Chars(a) + Chars(b)
    decreases |b|
  {
    if b == [] {
      assert a + b == a;
    } else {
      assert (a + b)[..|a + b| - 1] == a + b[..|b| - 1];
      CharsCat(a, b[..|b| - 1]);
    }
  }

  /** Lines put out show the characters of their words and no others, in order. */
  lemma {:induction false} InkOfLines(ls: seq<OutLine>)
    ensures Ink(AllRendered(ls)) == Ink(Chars(WordsOf(ls)))
    decreases |ls|
  {
    hide Rendered;
    if ls != [] {
      var front, l := ls[..|ls| - 1], ls[|ls| - 1];
      InkOfLines(front);
      InkOfLine(l);
      CharsCat(WordsOf(front), l.words);
      InkCat(Chars(WordsOf(front)), Chars(l.words));
      InkCat(AllRendered(front), Rendered(l));
    }
  }

  /** So a paragraph holds its words, every one of them once and in order. */
  lemma ParagraphShows(ls: seq<OutLine>, ws: seq<Word>, s: Style)
    requires Paragraph(ls, ws, s)
    ensures Ink(AllRendered(ls)) == Ink(Chars(ws))
  {
    InkOfLines(ls);
  }

  // ----- how long lines are -----

  lemma LongIs(l: OutLine)
    requires Spaced(l) && l.words != [] && forall n :: 0 <= n < |l.words| ==> |l.words[n].chars| == l.words[n].nchars
    ensures |Rendered(l)| - 1 == l.indent + Columns(l.words) + Sum(l.gaps)
  {
    hide Rendered, Body;
    LineLength(l);
    StartIs(l, |l.words| - 1);
    assert l.words[..|l.words|] == l.words && l.gaps[..|l.words| - 1] == l.gaps;
  }

  /** A line of two words or more does not go beyond the last column. */
  lemma LineFits(l: OutLine, k: nat, s: Style)
    requires (GoodLine(l, k, s) || LastLine(l, k, s)) && |l.words| >= 2
    requires forall n :: 0 <= n < |l.words| ==> |l.words[n].chars| == l.words[n].nchars
    ensures |Rendered(l)| - 1 <= s.lineleng
  {
    hide Rendered, GapsOf, Width;
    LinesAreSpaced(l, k, s);
    LongIs(l);
    WidthIs(l.words);
  }

  /** And with the first word of the next line, set after it, it would. */
  lemma NextWouldNot(l: OutLine, k: nat, w: Word, s: Style)
    requires GoodLine(l, k, s) && NoRoom(l, k, w, s)
    requires |w.chars| == w.nchars && forall n :: 0 <= n < |l.words| ==> |l.words[n].chars| == l.words[n].nchars
    ensures |Rendered(OutLine(l.indent, l.words + [w], GapsOf(l.words + [w])))| - 1 > s.lineleng
  {
    hide Rendered, Width;
    var more := OutLine(l.indent, l.words + [w], GapsOf(l.words + [w]));
    LongIs(more);
    WidthIs(more.words);
  }
}
