/** The lines of a paragraph: words are collected for a line until one does not fit, and what is left over
    when the line has been put out is collected again for the next. */
module Paragraphs {
  import opened Filling

  const NL := 10
  const FF := 12
  const BLANK := 32
  const EOF := -1

  /** A word as getword leaves it: the characters collected, of which nchars are columns; its first and last
      character, the second in the buffer, the one that ended it, and the first after the white space. */
  datatype Word = Word(nchars: nat, chars: Text, firstchar: int, second: int, lastchar: int, brkchar: int, nextchar: int)

  predicate Printing(c: int) { BLANK < c < 127 }

  predicate Upper(c: int) { 65 <= c <= 90 }

  /** After these, before a capital, two blanks are put. */
  predicate DoubleSp(c: int) { c == 46 || c == 63 || c == 33 || c == 58 }

  /** hyonly: whether a word is nothing but hyphens, as far as it prints. */
  predicate HyOnly(s: Text) {
    forall i :: 0 <= i < |s| ==> !(Printing(s[i]) && s[i] != 45)
  }

  /** The gap between two words that follow one another on a line. */
  function Spacing(lw: Word, w: Word): (r: nat)
    ensures r <= 2
  {
    if Upper(w.firstchar) && DoubleSp(lw.lastchar) && w.second != 46 then 2
    else if lw.lastchar == 45 && !HyOnly(lw.chars)
            && (Printing(lw.brkchar) || lw.nextchar == NL || lw.nextchar == FF) && w.firstchar != 45 then 0
    else 1
  }

  /** Two blanks come between sentences, the second of which does not begin with an initial; none comes after a
      hyphen that ends a word, unless white space came, the next word begins with a hyphen or the word was
      a dash. */
  lemma SpacingIs(lw: Word, w: Word)
    ensures Spacing(lw, w) == 2 <==>
            && (lw.lastchar == '.' as int || lw.lastchar == '?' as int || lw.lastchar == '!' as int || lw.lastchar == ':' as int)
            && 'A' as int <= w.firstchar <= 'Z' as int && w.second != '.' as int
    ensures Spacing(lw, w) == 0 <==>
            && lw.lastchar == '-' as int && w.firstchar != '-' as int
            && (exists i :: 0 <= i < |lw.chars| && ' ' as int < lw.chars[i] < 127 && lw.chars[i] != '-' as int)
            && (' ' as int < lw.brkchar < 127 || lw.nextchar == '\n' as int || lw.nextchar == FF)
  {
  }

  /** The columns of words set as they come. */
  function Width(ws: seq<Word>): nat {
    if ws == [] then 0
    else
      var n := |ws| - 1;
      Width(ws[..n]) + (if n == 0 then 0 else Spacing(ws[n - 1], ws[n])) + ws[n].nchars
  }

  function GapsOf(ws: seq<Word>): (g: seq<int>)
    ensures |g| == (if ws == [] then 0 else |ws| - 1)
    ensures forall k :: 0 <= k < |g| ==> g[k] == Spacing(ws[k], ws[k + 1])
  {
    seq(if ws == [] then 0 else |ws| - 1, k requires 0 <= k < |ws| - 1 => Spacing(ws[k], ws[k + 1]))
  }

  function Columns(ws: seq<Word>): nat {
    if ws == [] then 0 else Columns(ws[..|ws| - 1]) + ws[|ws| - 1].nchars
  }

  lemma GapsSnoc(ws: seq<Word>, n: nat)
    requires |ws| == n + 1 && n > 0
    ensures GapsOf(ws) == GapsOf(ws[..n]) + [Spacing(ws[n - 1], ws[n])]
    ensures Sum(GapsOf(ws)) == Sum(GapsOf(ws[..n])) + Spacing(ws[n - 1], ws[n])
  {
    assert GapsOf(ws)[..n - 1] == GapsOf(ws[..n]);
  }

  /** The width of words is that of their characters and of the gaps. */
  lemma {:induction false} WidthIs(ws: seq<Word>)
    ensures Width(ws) == Columns(ws) + Sum(GapsOf(ws))
  {
    hide Spacing, Sum;
    if |ws| > 1 {
      WidthIs(ws[..|ws| - 1]);
      GapsSnoc(ws, |ws| - 1);
    } else {
      NoGaps(ws);
    }
  }

  lemma NoGaps(ws: seq<Word>)
    requires |ws| <= 1
    ensures Sum(GapsOf(ws)) == 0
  {
  }

  // ----- lines put out -----

  /** A line: its indent, its words and the gaps between them. */
  datatype OutLine = OutLine(indent: nat, words: seq<Word>, gaps: seq<int>)

  function Blanks(n: int): Text {
    seq(if n > 0 then n else 0, i => BLANK)
  }

  /** The first n words of a line with the gaps after them. */
  function Body(l: OutLine, n: nat): Text
    requires n <= |l.words|
  {
    if n == 0 then [] else Body(l, n - 1) + Piece(l, n - 1)
  }

  function Piece(l: OutLine, n: nat): Text
    requires n < |l.words|
  {
    l.words[n].chars + if n < |l.words| - 1 && n < |l.gaps| then Blanks(l.gaps[n]) else []
  }

  function Rendered(l: OutLine): Text {
    Blanks(l.indent) + Body(l, |l.words|) + [NL]
  }

  function AllRendered(ls: seq<OutLine>): Text {
    if ls == [] then [] else AllRendered(ls[..|ls| - 1]) + Rendered(ls[|ls| - 1])
  }

  lemma RendersOne(ls: seq<OutLine>, l: OutLine)
    ensures AllRendered(ls + [l]) == AllRendered(ls) + Rendered(l)
  {
    assert (ls + [l])[..|ls|] == ls;
  }

  function WordsOf(ls: seq<OutLine>): seq<Word> {
    if ls == [] then [] else WordsOf(ls[..|ls| - 1]) + ls[|ls| - 1].words
  }

  /** How lines are to be laid out. */
  datatype Style = Style(lineleng: int, indent0: nat, indent1: nat, justflg: bool) {
    function Indent(k: nat): nat { if k == 1 then indent0 else indent1 }
    function Room(k: nat): int { lineleng - Indent(k) }
  }

  /** The k-th line of a paragraph, when others follow: it has a word, it fits if it has two, and its gaps
      are those of its words, justified if that is wanted. */
  ghost predicate GoodLine(l: OutLine, k: nat, s: Style) {
    && l.indent == s.Indent(k) && l.words != [] && |l.gaps| == |l.words| - 1
    && (|l.words| >= 2 ==> Width(l.words) <= s.Room(k))
    && (if s.justflg then Justified(GapsOf(l.words), l.gaps, s.Room(k) - Width(l.words), k % 2 == 1)
        else l.gaps == GapsOf(l.words))
  }

  /** The last line of a paragraph. */
  ghost predicate LastLine(l: OutLine, k: nat, s: Style) {
    && l.indent == s.Indent(k) && l.gaps == GapsOf(l.words)
    && (|l.words| >= 2 ==> Width(l.words) <= s.Room(k))
  }

  /** The k-th line has no room for word w as well. */
  ghost predicate NoRoom(l: OutLine, k: nat, w: Word, s: Style) {
    Width(l.words + [w]) > s.Room(k)
  }

  /** Lines of which each ends because the first word of the next would not fit, and the last because the
      first of the words `rest` would not or, if there are none yet, because it is already too long. */
  ghost predicate Laid(ls: seq<OutLine>, rest: seq<Word>, s: Style) {
    && (forall i :: 0 <= i < |ls| ==> GoodLine(ls[i], i + 1, s))
    && (forall i :: 0 <= i < |ls| - 1 ==> NoRoom(ls[i], i + 1, ls[i + 1].words[0], s))
    && (ls != [] ==> var l := ls[|ls| - 1];
                     if rest != [] then NoRoom(l, |ls|, rest[0], s) else Width(l.words) > s.Room(|ls|))
  }

  /** The lines of a whole paragraph of words. */
  ghost predicate Paragraph(ls: seq<OutLine>, ws: seq<Word>, s: Style) {
    && ls != [] && WordsOf(ls) == ws
    && var n := |ls| - 1;
       Laid(ls[..n], ls[n].words, s) && LastLine(ls[n], |ls|, s)
  }

  lemma WidthSnoc(ws: seq<Word>, w: Word)
    ensures Width(ws + [w]) == Width(ws) + (if ws == [] then 0 else Spacing(ws[|ws| - 1], w)) + w.nchars
  {
    hide Spacing;
    assert (ws + [w])[..|ws|] == ws;
  }

  /** A line of two words or more that is justified fills the room there is, if it has a gap to widen. */
  lemma JustifiedFills(l: OutLine, k: nat, s: Style)
    requires GoodLine(l, k, s) && s.justflg && exists n :: 0 <= n < |l.gaps| && GapsOf(l.words)[n] > 0
    ensures Columns(l.words) + Sum(l.gaps) == s.Room(k)
  {
    WidthIs(l.words);
  }

  /** What has been collected for the k-th line when the words p have been gone through. */
  ghost predicate Collected(p: seq<Word>, nchars: int, nwords: nat, full: bool, more: bool, nspaces: seq<int>, k: nat, s: Style) {
    && nwords <= |p| && (p != [] ==> nwords > 0) && nwords <= |nspaces| + 1
    && nchars == Width(p[..nwords])
    && (forall n :: 0 <= n < nwords - 1 ==> nspaces[n] == Spacing(p[n], p[n + 1]))
    && (nwords >= 2 ==> nchars <= s.Room(k))
    && (full ==> nwords > 0 && (more || (nwords == 1 && nchars > s.Room(k))))
    && (more <==> nwords < |p|)
    && (more ==> full && Width(p[..nwords + 1]) > s.Room(k))
  }

  /** The words in a ring: the last entry may be one of no columns, at the end of the paragraph. */
  function Real(ring: seq<Word>): seq<Word> {
    if ring != [] && ring[|ring| - 1].nchars == 0 then ring[..|ring| - 1] else ring
  }

  class Filler {
    const NWORDS: nat
    const gaps: Gaps
    const lineleng: int
    const justflg: bool
    var indent0: nat
    var indent1: nat
    var outparline: nat
    var o_nchars: int
    var o_nwords: nat
    var o_fullflg: bool
    var o_moreflg: bool
    var word: seq<Word>
    var firstword: nat
    var lastword: nat
    var output: Text
    ghost var start: Text         // the output before the paragraph
    ghost var lines: seq<OutLine>
    ghost var ring: seq<Word>     // the words from firstword to lastword

    constructor (nwords: nat, lineleng: int, justflg: bool, blank: Word)
      requires nwords >= 2
      ensures Valid() && Written() && fresh(gaps) && ring == [] && lines == [] && output == []
      ensures this.lineleng == lineleng && this.justflg == justflg && NWORDS == nwords && S() == Style(lineleng, 0, 0, justflg)
    {
      NWORDS, this.lineleng, this.justflg := nwords, lineleng, justflg;
      gaps := new Gaps([]);
      indent0, indent1, outparline := 0, 0, 1;
      o_nchars, o_nwords, o_fullflg, o_moreflg := 0, 0, false, false;
      word := seq(nwords, i => blank);
      firstword, lastword := 0, nwords - 1;
      output, start, lines, ring := [], [], [], [];
    }

    ghost function S(): Style
      reads `indent0, `indent1
    {
      Style(lineleng, indent0, indent1, justflg)
    }

    /** curindent. */
    function CurIndent(): nat
      reads `indent0, `indent1, `outparline
    {
      if outparline == 1 then indent0 else indent1
    }

    function Next(i: nat): nat { if i < NWORDS - 1 then i + 1 else 0 }

    function Prev(i: nat): nat { if i > 0 then i - 1 else if NWORDS > 0 then NWORDS - 1 else 0 }

    /** The index k places after i. */
    ghost function At(i: nat, k: nat): nat { if i + k < NWORDS then i + k else i + k - NWORDS }

    /** The words in `ring` are where the indices say. */
    ghost predicate Ring()
      reads `word, `firstword, `lastword, `ring
    {
      && 2 <= NWORDS == |word| && firstword < NWORDS && lastword < NWORDS && |ring| < NWORDS
      && Next(lastword) == At(firstword, |ring|)
      && (forall k :: 0 <= k < |ring| ==> word[At(firstword, k)] == ring[k])
      && (forall k :: 0 <= k < |ring| - 1 ==> ring[k].nchars > 0)
    }

    /** Everything but that the words of the ring have been gone through. */
    ghost predicate Steady()
      reads this, gaps
    {
      && Ring() && gaps.Valid() && outparline == |lines| + 1
    }

    /** The output of the paragraph is its lines. */
    ghost predicate Written()
      reads `output, `start, `lines
    {
      output == start + AllRendered(lines)
    }

    ghost predicate Reckoned(p: seq<Word>)
      reads `o_nchars, `o_nwords, `o_fullflg, `o_moreflg, `indent0, `indent1, `outparline, gaps`nspaces
    {
      Collected(p, o_nchars, o_nwords, o_fullflg, o_moreflg, gaps.nspaces, outparline, S())
    }

    ghost predicate Valid()
      reads this, gaps
    {
      Steady() && Reckoned(Real(ring)) && Laid(lines, Real(ring), S())
    }

    /** addword: w, which is in the ring at this index, after the words p. */
    method AddWord(index: nat, ghost p: seq<Word>)
      requires index < NWORDS == |word| && Prev(index) < NWORDS && gaps.Valid() && Reckoned(p)
      requires p != [] ==> word[Prev(index)] == p[|p| - 1]
      modifies `o_nchars, `o_nwords, `o_fullflg, `o_moreflg, gaps`nspaces, gaps`candidate
      ensures gaps.Valid() && Reckoned(if word[index].nchars == 0 then p else p + [word[index]])
    {
      var w := word[index];
      if w.nchars == 0 {
        return;
      }
      hide Collected;
      if !o_fullflg {
        var space := 0;
        ghost var was := gaps.nspaces;
        Takes(p, w, o_nchars, o_nwords, o_moreflg, was, outparline, S());
        if o_nwords != 0 {
          space := Spacing(word[Prev(index)], w);
          gaps.Set(o_nwords - 1, space);
        }
        Joins(p, w, o_nchars, o_nwords, was, gaps.nspaces, outparline, S());
        var i := o_nchars + space + w.nchars;
        if i <= lineleng - CurIndent() || o_nwords == 0 {
          o_nchars := i;
          o_nwords := o_nwords + 1;
        } else {
          o_moreflg := true;
        }
        if i > lineleng - CurIndent() {
          o_fullflg := true;
        }
      } else {
        Waits(p, w, o_nchars, o_nwords, o_moreflg, gaps.nspaces, outparline, S());
        o_moreflg := true;
      }
    }

    ghost function Made(): OutLine
      reads this, gaps
      requires o_nwords <= |ring| && o_nwords <= |gaps.nspaces| + 1
    {
      OutLine(CurIndent(), ring[..o_nwords], gaps.nspaces[..if o_nwords == 0 then 0 else o_nwords - 1])
    }

    /** The part of putwords that writes a line. */
    method PutOut() returns (i: nat)
      requires Ring() && o_nwords <= |ring| && o_nwords <= |gaps.nspaces| + 1
      modifies `output
      ensures i == At(firstword, o_nwords) && output == old(output) + Rendered(Made())
    {
      hide Piece;
      ghost var l := Made();
      ghost var head := old(output) + Blanks(l.indent);
      PutBlanks(CurIndent());
      var n := 0;
      i := firstword;
      while n < o_nwords
        invariant n <= o_nwords && i == At(firstword, n)
        invariant output == head + Body(l, n)
      {
        PutWord(i, n, l);
        n := n + 1;
        i := Next(i);
      }
      output := output + [NL];
    }

    method PutWord(i: nat, n: nat, ghost l: OutLine)
      requires i < |word| && n < o_nwords == |l.words| && o_nwords - 1 == |l.gaps| <= |gaps.nspaces|
      requires word[i] == l.words[n] && (n < o_nwords - 1 ==> gaps.nspaces[n] == l.gaps[n])
      modifies `output
      ensures output == old(output) + Piece(l, n)
    {
      PutChars(word[i].chars);
      if n < o_nwords - 1 {
        PutBlanks(gaps.nspaces[n]);
      }
    }

    method PutBlanks(n: int)
      modifies `output
      ensures output == old(output) + Blanks(n)
    {
      var j := 0;
      while j < n
        invariant 0 <= j && (n >= 0 ==> j <= n) && output == old(output) + Blanks(j) && (n < 0 ==> j == 0)
      {
        output := output + [BLANK];
        j := j + 1;
      }
    }

    method PutChars(s: Text)
      modifies `output
      ensures output == old(output) + s
    {
      for j := 0 to |s|
        invariant output == old(output) + s[..j]
      {
        output := output + [s[j]];
      }
    }

    /** justify, for the line collected. */
    method JustifyLine()
      requires gaps.Valid() && Reckoned(Real(ring)) && o_moreflg
      modifies gaps
      ensures gaps.Valid() && |gaps.nspaces| == old(|gaps.nspaces|)
      ensures Justified(GapsOf(ring[..o_nwords]), gaps.nspaces[..o_nwords - 1],
                        S().Room(outparline) - Width(ring[..o_nwords]), outparline % 2 == 1)
    {
      hide Justified, Width, Collected, Real;
      CollectedGaps(ring, o_nchars, o_nwords, o_fullflg, o_moreflg, gaps.nspaces, outparline, S());
      gaps.Justify(o_nwords - 1, lineleng - o_nchars - CurIndent(), outparline);
    }

    /** The line collected is put out, justified if it is to be and there is more. */
    method PutLine() returns (i: nat, ghost l: OutLine)
      requires Steady() && Reckoned(Real(ring))
      modifies `output, gaps
      ensures gaps.Valid() && i == At(firstword, o_nwords)
      ensures o_nwords <= |ring| && l.words == ring[..o_nwords] && output == old(output) + Rendered(l)
      ensures o_moreflg ==> GoodLine(l, |lines| + 1, S())
      ensures !o_moreflg ==> LastLine(l, |lines| + 1, S())
    {
      hide Justified, Width, Rendered, Collected, Real, GapsOf;
      CollectedGaps(ring, o_nchars, o_nwords, o_fullflg, o_moreflg, gaps.nspaces, outparline, S());
      if justflg && o_moreflg {
        JustifyLine();
      }
      i := PutOut();
      l := Made();
    }

    /** One round of putwords, without the collecting. */
    method Round() returns (i: nat, ghost l: OutLine)
      requires Steady() && Reckoned(Real(ring))
      modifies this, gaps
      ensures Steady() && Reckoned([]) && i == firstword && S() == old(S())
      ensures old(o_nwords <= |ring|)
      ensures lines == old(lines) + [l] && l.words == old(ring[..o_nwords]) && ring == old(ring[o_nwords..])
      ensures output == old(output) + Rendered(l)
      ensures old(o_moreflg) ==> GoodLine(l, |lines|, S())
      ensures !old(o_moreflg) ==> LastLine(l, |lines|, S())
      ensures lastword == old(lastword) && word == old(word) && start == old(start) && !o_fullflg && !o_moreflg
    {
      hide Rendered, GoodLine, LastLine, Collected, Real;
      i, l := PutLine();
      MoveOn(i, l);
    }

    /** What putwords resets when it has put out a line. */
    method MoveOn(i: nat, ghost l: OutLine)
      requires Steady() && o_nwords <= |ring| && i == At(firstword, o_nwords)
      modifies this
      ensures Steady() && Reckoned([]) && firstword == i && S() == old(S())
      ensures lines == old(lines) + [l] && ring == old(ring[o_nwords..]) && output == old(output)
      ensures lastword == old(lastword) && word == old(word) && start == old(start) && !o_fullflg && !o_moreflg
    {
      hide Collected;
      RingOn(o_nwords);
      NothingCollected(gaps.nspaces, outparline + 1, S());
      outparline := outparline + 1;
      firstword := i;
      lines, ring := lines + [l], ring[o_nwords..];
      o_nchars, o_nwords, o_fullflg := 0, 0, false;
      o_moreflg := false;
    }

    lemma RingOn(n: nat)
      requires Ring() && n <= |ring|
      ensures var f := At(firstword, n);
              f < NWORDS && At(f, |ring| - n) == At(firstword, |ring|)
              && forall k :: 0 <= k < |ring| - n ==> At(f, k) == At(firstword, n + k)
    {
    }

    /** The words left over are collected again, until one does not fit. */
    method Recollect()
      requires Steady() && Reckoned([]) && ring != [] && !o_moreflg
      modifies `o_nchars, `o_nwords, `o_fullflg, `o_moreflg, gaps`nspaces, gaps`candidate
      ensures Steady() && Reckoned(Real(ring))
    {
      hide Collected, Ring, At, Next, Prev;
      var i := firstword;
      ghost var k := 0;
      RingAt(0);
      while !o_moreflg
        invariant Steady() && k < |ring| && i == At(firstword, k)
        invariant Reckoned(ring[..k])
        decreases |ring| - k
      {
        RingAt(k);
        AddWord(i, ring[..k]);
        assert ring[..k + 1] == ring[..k] + [ring[k]] && ring[..k + 1][..k] == ring[..k];
        if i == lastword {
          assert k == |ring| - 1 && ring[..k + 1] == ring;
          return;
        }
        i := Next(i);
        k := k + 1;
      }
      MoreStays(ring, k, o_nchars, o_nwords, o_fullflg, gaps.nspaces, outparline, S());
    }

    lemma RingAt(k: nat)
      requires Ring() && k < |ring|
      ensures At(firstword, 0) == firstword && |word| == NWORDS && (k < |ring| - 1 ==> ring[k].nchars > 0)
      ensures At(firstword, k) < NWORDS && word[At(firstword, k)] == ring[k]
      ensures k > 0 ==> Prev(At(firstword, k)) == At(firstword, k - 1) && word[Prev(At(firstword, k))] == ring[k - 1]
      ensures Prev(At(firstword, k)) < NWORDS
      ensures At(firstword, k) == lastword <==> k == |ring| - 1
      ensures k + 1 < |ring| ==> Next(At(firstword, k)) == At(firstword, k + 1)
    {
    }

    /** putwords: whole lines are put out, and at the end of a paragraph what is left too. */
    method PutWords(endpar: bool)
      requires Valid() && Written()
      modifies this, gaps
      ensures S() == old(S()) && lastword == old(lastword) && word == old(word)
      ensures Written() && start == old(start)
      ensures |ring| <= |old(ring)| && (old(Open()) ==> Open())
      ensures !endpar ==> Valid() && !o_fullflg
      ensures !endpar ==> WordsOf(lines) + Real(ring) == old(WordsOf(lines) + Real(ring))
      ensures endpar ==> Paragraph(lines, old(WordsOf(lines) + Real(ring)), S())
      ensures endpar ==> lines != [] && (lines[|lines| - 1].words == [] <==> old(Real(ring)) == [])
    {
      hide Collected, Rendered, GoodLine, LastLine, Laid, WordsOf, Real, Paragraph;
      while true
        invariant Valid() && S() == old(S()) && lastword == old(lastword) && word == old(word)
        invariant |ring| <= |old(ring)| && (old(Open()) ==> Open()) && Written() && start == old(start)
        invariant WordsOf(lines) + Real(ring) == old(WordsOf(lines) + Real(ring))
        invariant Real(ring) == [] <==> old(Real(ring)) == []
        decreases |ring|
      {
        if !endpar && !o_fullflg {
          return;
        }
        var more := o_moreflg;
        ghost var n, r, before, full := o_nwords, ring, lines, o_fullflg;
        ghost var nchars, ns := o_nchars, gaps.nspaces;
        var i, l := Round();
        RendersOne(before, l);
        LaysLine(before, l, r, nchars, n, full, more, ns, S());
        if !more {
          break;
        }
        Recollect();
      }
    }

    /** No word in the ring is without columns. */
    ghost predicate Open()
      reads `ring
    {
      forall k :: 0 <= k < |ring| ==> ring[k].nchars > 0
    }

    /** getword, once w has been read: what comes after it. */
    method GetWord(w: Word) returns (c: int)
      requires Valid() && Open() && |ring| + 1 < NWORDS
      modifies this, gaps
      ensures Valid() && S() == old(S()) && lines == old(lines) && output == old(output) && start == old(start)
      ensures ring == old(ring) + [w] && c == w.nextchar && lastword < |word| && word[lastword] == w
    {
      hide Collected, Laid, Ring, Prev, Next, Real;
      ghost var p := ring;
      RealOpen(p, w);
      EnterWord(w);
      AddWord(lastword, p);
      LaidOn(lines, p, w, S());
      c := w.nextchar;
    }

    /** A word goes into the ring. */
    method EnterWord(w: Word)
      requires Ring() && Open() && |ring| + 1 < NWORDS
      modifies `lastword, `word, `ring
      ensures Ring() && ring == old(ring) + [w] && lastword < |word| && word[lastword] == w
      ensures Prev(lastword) < NWORDS && (old(ring) != [] ==> word[Prev(lastword)] == old(ring)[|old(ring)| - 1])
    {
      RingGrows(w);
      lastword := Next(lastword);
      word := word[lastword := w];
      ring := ring + [w];
    }

    lemma RingGrows(w: Word)
      requires Ring() && |ring| + 1 < NWORDS
      ensures var l := Next(lastword);
              && l == At(firstword, |ring|) && l < NWORDS && Prev(l) == lastword
              && (ring != [] ==> word[lastword] == ring[|ring| - 1])
              && Next(l) == At(firstword, |ring| + 1)
              && forall k :: 0 <= k < |ring| ==> At(firstword, k) != l
    {
      if ring != [] {
        RingAt(|ring| - 1);
      }
    }

    /** What doit resets before a paragraph. */
    method Begin()
      requires 2 <= NWORDS == |word| && gaps.Valid()
      modifies this
      ensures Valid() && Written() && ring == [] && lines == [] && S() == Style(lineleng, 0, 0, justflg)
      ensures start == output == old(output)
    {
      hide Collected, Laid;
      NothingCollected(gaps.nspaces, 1, Style(lineleng, 0, 0, justflg));
      NothingLaid([], Style(lineleng, 0, 0, justflg));
      indent0, indent1, outparline := 0, 0, 1;
      firstword, lastword := 0, NWORDS - 1;
      o_nchars, o_nwords, o_fullflg, o_moreflg := 0, 0, false, false;
      start, lines, ring := output, [], [];
    }

    /** The indent of the first line, set when its first word has been collected without it. */
    method SetIndent0(n: nat)
      requires Valid() && lines == [] && indent0 == 0 && |ring| == 1
      modifies `indent0
      ensures Valid() && S() == old(S()).(indent0 := n)
    {
      indent0 := n;
    }

    /** The indent of the other lines, set before any line has been put out. */
    method SetIndent1(n: nat)
      requires Valid() && lines == []
      modifies `indent1
      ensures Valid() && S() == old(S()).(indent1 := n)
    {
      hide Collected, Laid, Real;
      SameRoom(Real(ring), o_nchars, o_nwords, o_fullflg, o_moreflg, gaps.nspaces, 1, S(), S().(indent1 := n));
      NothingLaid(Real(ring), S().(indent1 := n));
      indent1 := n;
    }

    /** doit, for one paragraph that begins with the first of the words to come.  pre[k] is the last indent
        met when word k has been read.  The words end with the input, or earlier with a blank line, which is
        a word of no columns; used tells how many were read.  It fails when the ring is full. */
    method Doit(ws: seq<Word>, pre: seq<nat>) returns (used: nat, ok: bool)
      requires 2 <= NWORDS == |word| && gaps.Valid()
      requires 0 < |ws| == |pre| && ws[0].nchars > 0 && Sane(ws)
      modifies this, gaps
      ensures 0 < used <= |ws| && (|ws| < NWORDS - 1 ==> ok)
      ensures ok ==> Paragraph(lines, Real(ws[..used]), S()) && Ends(ws, used)
      ensures ok ==> indent0 == if ws[0].nextchar == EOF then 0 else pre[0]
      ensures ok ==> forall k :: 0 < k < used && SecondLine(ws, k) ==>
                       indent1 == if ws[k].nextchar == EOF then 0 else pre[k]
      ensures ok ==> output == old(output) + AllRendered(lines) + if AtEnd(ws, used) then [] else [NL]
    {
      hide Collected, Laid, Real, Ring, Reckoned, Paragraph, AllRendered;
      Begin();
      var c := GetWord(ws[0]);
      used, ok := 1, true;
      FirstRead(ws);
      if c == EOF {
        PutWords(true);
        return;
      }
      SetIndent0(pre[0]);
      c, used, ok := ReadLine(ws, used, c);
      if !ok {
        return;
      }
      if c != EOF {
        c, used, ok := Read(ws, used);
        if !ok {
          return;
        }
      }
      if c == EOF {
        PutWords(true);
        return;
      }
      SetIndent1(pre[used - 1]);
      ok, used := ReadLines(ws, used, c);
    }

    /** The state when so many of the words have been read. */
    ghost predicate State(ws: seq<Word>, used: nat)
      reads this, gaps
    {
      && Valid() && Written() && 0 < used <= |ws| && |ring| <= used && lastword < |word| && word[lastword] == ws[used - 1]
      && WordsOf(lines) + Real(ring) == Real(ws[..used])
      && (ws[used - 1].nchars > 0 ==> Open())
    }

    lemma FirstRead(ws: seq<Word>)
      requires 0 < |ws| && ws[0].nchars > 0
      requires Valid() && Written() && ring == [ws[0]] && lines == [] && lastword < |word| && word[lastword] == ws[0]
      ensures State(ws, 1)
    {
      assert ws[..1] == [ws[0]];
    }

    lemma RingFull()
      requires Ring()
      ensures |ring| < NWORDS && (Next(Next(lastword)) == firstword <==> |ring| + 1 == NWORDS)
    {
    }

    /** The next word, or the end of the input. */
    method Read(ws: seq<Word>, used0: nat) returns (c: int, used: nat, ok: bool)
      requires State(ws, used0) && ws[used0 - 1].nchars > 0 && Sane(ws)
      modifies this, gaps
      ensures used0 <= used <= |ws| && used <= used0 + 1 && (|ws| < NWORDS - 1 ==> ok)
      ensures S() == old(S()) && lines == old(lines) && output == old(output) && start == old(start)
      ensures ok ==> State(ws, used) && (c == EOF ==> AtEnd(ws, used))
      ensures ok && used == used0 + 1 ==> c == ws[used0].nextchar
      ensures ok && c != EOF ==> used == used0 + 1 && c == ws[used0].nextchar
    {
      hide Collected, Laid, Real, Ring;
      used, ok := used0, true;
      if used == |ws| {
        return EOF, used, ok;
      }
      RingFull();
      if Next(Next(lastword)) == firstword {
        return EOF, used, false;
      }
      ReadsOne(WordsOf(lines), ring, ws, used);
      c := GetWord(ws[used]);
      used := used + 1;
    }

    /** The rest of the first line. */
    method ReadLine(ws: seq<Word>, used0: nat, c0: int) returns (c: int, used: nat, ok: bool)
      requires State(ws, used0) && c0 == ws[used0 - 1].nextchar && ws[used0 - 1].nchars > 0 && Sane(ws)
      modifies this, gaps
      ensures used0 <= used <= |ws| && (|ws| < NWORDS - 1 ==> ok)
      ensures S() == old(S()) && lines == old(lines) && output == old(output) && start == old(start)
      ensures ok ==> State(ws, used) && (c == EOF ==> AtEnd(ws, used))
      ensures ok && c != EOF ==> ws[used - 1].nchars > 0 && !Printing(ws[used - 1].nextchar)
      ensures ok ==> forall k :: used0 - 1 <= k < used - 1 ==> Printing(ws[k].nextchar)
    {
      hide Collected, Laid, Real, Ring, Reckoned;
      c, used, ok := c0, used0, true;
      while c != EOF && Printing(c)
        invariant State(ws, used) && used0 <= used && ok
        invariant if c == EOF then AtEnd(ws, used) else c == ws[used - 1].nextchar && ws[used - 1].nchars > 0
        invariant forall k :: used0 - 1 <= k < used - 1 ==> Printing(ws[k].nextchar)
        invariant S() == old(S()) && lines == old(lines) && output == old(output) && start == old(start)
        decreases |ws| - used, c != EOF
      {
        c, used, ok := Read(ws, used);
        if !ok {
          return;
        }
      }
    }

    /** The lines after the first, from the first word of the second. */
    method ReadLines(ws: seq<Word>, used0: nat, c0: int) returns (ok: bool, used: nat)
      requires State(ws, used0) && c0 == ws[used0 - 1].nextchar && c0 != EOF && Sane(ws)
      modifies this, gaps
      ensures used0 <= used <= |ws| && (|ws| < NWORDS - 1 ==> ok)
      ensures S() == old(S()) && start == old(start)
      ensures ok ==> Paragraph(lines, Real(ws[..used]), S()) && Ends(ws, used)
      ensures ok ==> output == start + AllRendered(lines) + if AtEnd(ws, used) then [] else [NL]
    {
      hide Collected, Laid, Real, Ring, Reckoned, Paragraph, AllRendered;
      var c := c0;
      used := used0;
      while c != EOF
        invariant State(ws, used) && used0 <= used
        invariant if c == EOF then AtEnd(ws, used) else c == ws[used - 1].nextchar
        invariant S() == old(S()) && start == old(start)
        decreases |ws| - used, c != EOF
      {
        if !Printing(c) {
          PutWords(false);
          if word[lastword].nchars == 0 {
            PutWords(true);
            output := output + [NL];
            return true, used;
          }
        }
        c, used, ok := Read(ws, used);
        if !ok {
          return;
        }
      }
      PutWords(true);
      ok := true;
    }
  }

  /** A word of no columns is a blank line: it stands after the end of a line, and ends one. */
  ghost predicate Sane(ws: seq<Word>) {
    forall k :: 0 <= k < |ws| && ws[k].nchars == 0 ==>
                  !Printing(ws[k].nextchar) && (k > 0 ==> !Printing(ws[k - 1].nextchar))
  }

  /** The k-th word is the first of the second line of the input. */
  ghost predicate SecondLine(ws: seq<Word>, k: nat)
    requires 0 < k <= |ws|
  {
    !Printing(ws[k - 1].nextchar) && forall j :: 0 <= j < k - 1 ==> Printing(ws[j].nextchar)
  }

  /** The input ends after so many words. */
  ghost predicate AtEnd(ws: seq<Word>, used: nat)
    requires 0 < used <= |ws|
  {
    ws[used - 1].nextchar == EOF || (used == |ws| && ws[used - 1].nchars > 0)
  }

  /** A paragraph ends after so many words: with the input, or with a blank line. */
  ghost predicate Ends(ws: seq<Word>, used: nat)
    requires 0 < used <= |ws|
  {
    AtEnd(ws, used) || ws[used - 1].nchars == 0
  }

  lemma ReadsOne(done: seq<Word>, ring: seq<Word>, ws: seq<Word>, used: nat)
    requires used < |ws| && (forall k :: 0 <= k < |ring| ==> ring[k].nchars > 0)
    requires used > 0 && ws[used - 1].nchars > 0 && done + Real(ring) == Real(ws[..used])
    ensures done + Real(ring + [ws[used]]) == Real(ws[..used + 1])
  {
    RealOpen(ring, ws[used]);
    assert ws[..used + 1] == ws[..used] + [ws[used]];
  }

  lemma NothingLaid(rest: seq<Word>, s: Style)
    ensures Laid([], rest, s)
  {
  }

  lemma SameRoom(p: seq<Word>, nchars: int, nwords: nat, full: bool, more: bool, nspaces: seq<int>, k: nat, s: Style,
                 s1: Style)
    requires Collected(p, nchars, nwords, full, more, nspaces, k, s) && s.Room(k) == s1.Room(k)
    ensures Collected(p, nchars, nwords, full, more, nspaces, k, s1)
  {
  }

  lemma RealOpen(ring: seq<Word>, w: Word)
    requires forall k :: 0 <= k < |ring| ==> ring[k].nchars > 0
    ensures Real(ring) == ring && Real(ring + [w]) == if w.nchars == 0 then ring else ring + [w]
  {
  }

  lemma LaidOn(ls: seq<OutLine>, p: seq<Word>, w: Word, s: Style)
    requires Laid(ls, p, s)
    ensures Laid(ls, p + [w], s)
  {
    if ls != [] && p == [] {
      WidthSnoc(ls[|ls| - 1].words, w);
    }
  }

  lemma RealRest(ring: seq<Word>, n: nat)
    requires n <= |Real(ring)|
    ensures Real(ring[n..]) == Real(ring)[n..]
  {
  }

  lemma LaysWords(ls: seq<OutLine>, l: OutLine, ring: seq<Word>, n: nat)
    requires n <= |Real(ring)| && l.words == ring[..n]
    ensures WordsOf(ls + [l]) + Real(ring[n..]) == WordsOf(ls) + Real(ring)
  {
    var r := Real(ring);
    RealRest(ring, n);
    assert (ls + [l])[..|ls|] == ls;
    assert r == r[..n] + r[n..] && r[..n] == l.words;
  }

  lemma LaysMore(ls: seq<OutLine>, l: OutLine, r: seq<Word>, n: nat, s: Style)
    requires Laid(ls, r, s) && GoodLine(l, |ls| + 1, s)
    requires 0 < n < |r| && l.words == r[..n] && Width(r[..n + 1]) > s.Room(|ls| + 1)
    ensures Laid(ls + [l], r[n..], s)
  {
    hide Justified, GapsOf, Width;
    var m, rest := ls + [l], r[n..];
    assert r[0] == l.words[0] && rest[0] == r[n];
    assert l.words + [r[n]] == r[..n + 1];
    assert NoRoom(l, |m|, rest[0], s);
    forall i | 0 <= i < |m| - 1
      ensures NoRoom(m[i], i + 1, m[i + 1].words[0], s)
    {
      assert m[i] == ls[i];
    }
  }

  lemma LaysLast(ls: seq<OutLine>, l: OutLine, r: seq<Word>, s: Style)
    requires Laid(ls, r, s) && LastLine(l, |ls| + 1, s) && l.words == r
    ensures Paragraph(ls + [l], WordsOf(ls) + r, s)
  {
    assert (ls + [l])[..|ls|] == ls;
  }

  lemma LongIsGood(l: OutLine, k: nat, s: Style)
    requires LastLine(l, k, s) && |l.words| == 1
    ensures GoodLine(l, k, s)
  {
    assert Sum([]) == 0;
  }

  lemma LaysLong(ls: seq<OutLine>, l: OutLine, r: seq<Word>, s: Style)
    requires Laid(ls, r, s) && LastLine(l, |ls| + 1, s) && l.words == r && |r| == 1 && Width(r) > s.Room(|ls| + 1)
    ensures Laid(ls + [l], [], s)
  {
    LongIsGood(l, |ls| + 1, s);
    hide GoodLine, LastLine, Width, NoRoom;
    var m := ls + [l];
    forall i | 0 <= i < |m| - 1
      ensures NoRoom(m[i], i + 1, m[i + 1].words[0], s)
    {
      assert m[i] == ls[i];
    }
  }

  lemma CollectedGaps(ring: seq<Word>, nchars: int, n: nat, full: bool, more: bool, ns: seq<int>, k: nat, s: Style)
    requires Collected(Real(ring), nchars, n, full, more, ns, k, s)
    ensures n <= |ring| && n <= |ns| + 1 && (more ==> n > 0)
    ensures ns[..if n == 0 then 0 else n - 1] == GapsOf(ring[..n]) && nchars == Width(ring[..n])
    ensures n >= 2 ==> nchars <= s.Room(k)
  {
    hide Width;
    assert Real(ring)[..n] == ring[..n];
  }

  lemma CollectedSays(p: seq<Word>, nchars: int, n: nat, full: bool, more: bool, ns: seq<int>, k: nat, s: Style)
    requires Collected(p, nchars, n, full, more, ns, k, s)
    ensures n <= |p| && (more <==> n < |p|)
    ensures more ==> n > 0 && Width(p[..n + 1]) > s.Room(k)
    ensures full && !more ==> n == 1 && Width(p[..1]) > s.Room(k)
  {
  }

  /** A line that has been put out is one more line laid; if there is no more, it may end the paragraph. */
  lemma LaysLine(ls: seq<OutLine>, l: OutLine, ring: seq<Word>, nchars: int, n: nat, full: bool, more: bool,
                 ns: seq<int>, s: Style)
    requires Collected(Real(ring), nchars, n, full, more, ns, |ls| + 1, s) && Laid(ls, Real(ring), s)
    requires n <= |ring| && l.words == ring[..n]
    requires if more then GoodLine(l, |ls| + 1, s) else LastLine(l, |ls| + 1, s)
    ensures n <= |Real(ring)| && WordsOf(ls + [l]) + Real(ring[n..]) == WordsOf(ls) + Real(ring)
    ensures more ==> n > 0 && ring[n..] != [] && Real(ring[n..]) != [] && Laid(ls + [l], Real(ring[n..]), s)
    ensures !more ==> l.words == Real(ring) && Real(ring[n..]) == [] && Paragraph(ls + [l], WordsOf(ls) + Real(ring), s)
    ensures !more && full ==> Laid(ls + [l], [], s)
  {
    hide Laid, GoodLine, LastLine, WordsOf, Paragraph, Width, Collected;
    var r := Real(ring);
    CollectedSays(r, nchars, n, full, more, ns, |ls| + 1, s);
    RealRest(ring, n);
    LaysWords(ls, l, ring, n);
    assert l.words == r[..n];
    if more {
      LaysMore(ls, l, r, n, s);
    } else {
      assert r[..n] == r;
      LaysLast(ls, l, r, s);
      if full {
        LaysLong(ls, l, r, s);
      }
    }
  }

  lemma MoreStays(ring: seq<Word>, k: nat, nchars: int, nwords: nat, full: bool, nspaces: seq<int>, line: nat, s: Style)
    requires k <= |Real(ring)| && Collected(ring[..k], nchars, nwords, full, true, nspaces, line, s)
    ensures Collected(Real(ring), nchars, nwords, full, true, nspaces, line, s)
  {
    var p, r := ring[..k], Real(ring);
    assert p[..nwords] == r[..nwords] && p[..nwords + 1] == r[..nwords + 1];
  }

  lemma NothingCollected(nspaces: seq<int>, k: nat, s: Style)
    ensures Collected([], 0, 0, false, false, nspaces, k, s)
  {
  }

  /** A line that is not full holds all the words so far. */
  lemma Takes(p: seq<Word>, w: Word, nchars: int, nwords: nat, more: bool, ns: seq<int>, k: nat, s: Style)
    requires Collected(p, nchars, nwords, false, more, ns, k, s)
    ensures !more && nwords == |p| && nwords <= |ns| + 1
  {
  }

  /** The next word joins the line, or makes it full. */
  lemma Joins(p: seq<Word>, w: Word, nchars: int, nwords: nat, ns: seq<int>, ns1: seq<int>, k: nat, s: Style)
    requires Collected(p, nchars, nwords, false, false, ns, k, s)
    requires nwords <= |ns1|  + 1 && (nwords > 0 ==> nwords <= |ns1| && ns1[..nwords - 1] == ns[..nwords - 1])
    requires nwords > 0 ==> p != [] && ns1[nwords - 1] == Spacing(p[|p| - 1], w)
    ensures var space := if nwords == 0 then 0 else Spacing(p[|p| - 1], w);
            var i := nchars + space + w.nchars;
            if i <= s.Room(k) || nwords == 0 then Collected(p + [w], i, nwords + 1, i > s.Room(k), false, ns1, k, s)
            else Collected(p + [w], nchars, nwords, true, true, ns1, k, s)
  {
    WidthSnoc(p, w);
    var q := p + [w];
    assert p[..nwords] == p && q[..nwords] == p && q[..nwords + 1] == q;
    hide Width;
    forall n | 0 <= n < nwords - 1
      ensures ns1[n] == Spacing(q[n], q[n + 1])
    {
      assert ns1[n] == ns1[..nwords - 1][n] && ns[n] == ns[..nwords - 1][n];
    }
  }

  /** A line that is full takes no more words. */
  lemma Waits(p: seq<Word>, w: Word, nchars: int, nwords: nat, more: bool, ns: seq<int>, k: nat, s: Style)
    requires Collected(p, nchars, nwords, true, more, ns, k, s)
    ensures Collected(p + [w], nchars, nwords, true, true, ns, k, s)
  {
    WidthSnoc(p, w);
    var q := p + [w];
    hide Width;
    assert q[..nwords] == p[..nwords];
    if more {
      assert q[..nwords + 1] == p[..nwords + 1];
    } else {
      assert p[..nwords] == p && q[..nwords + 1] == q;
    }
  }
}
