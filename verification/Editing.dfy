/** Splitting and joining lines, and taking rectangles out of a file and putting them back. */
module Editing {
  import opened LineCodec

  // ----- what saving a line does to it -----

  /** A line in memory once it has been written to the file and read again. */
  function Saved(s: Text, o: Options): Text
  {
    assert (s + [NL])[|s|] == NL;
    Internal(External(s + [NL], o), o)
  }

  /** The editor's modes exclude one another: setting -tabs resets literal mode, and the other way. */
  ghost predicate OneMode(o: Options) {
    !(o.uptabs && o.litmode)
  }

  /** Blanks are written as tabs wherever they reach a tab stop. */
  ghost predicate Tabbing(o: Options) {
    o.uptabs && !o.upblanks
  }

  /** A tab is a character of a line only where it is read as one. */
  ghost predicate Tabless(d: Text, o: Options) {
    o.litmode || NoTabs(d)
  }

  /** A text that can be written in this mode and read back: in -tabs mode its runs keep. */
  ghost predicate Writable(d: Text, o: Options) {
    SevenBit(d) && Tabless(d, o) && OneMode(o) && (Tabbing(o) ==> TabsKeep(d[..Kept(d, o)], 0, 0, 0))
  }

  /** The -tabs loop, where it is used, does right on d. */
  ghost predicate DoneRight(d: Text, o: Options) {
    Tabbing(o) ==> Within(d, 0, 0)
  }

  /** How much of d is kept: all but the blanks and tabs at its end, if those are stripped. */
  ghost function Kept(d: Text, o: Options): (k: nat)
    ensures k <= |d| && (forall i :: k <= i < |d| ==> White(d[i]))
    ensures if o.upnostrip then k == |d| else k == 0 || !White(d[k - 1])
  {
    if !o.upnostrip && d != [] && White(d[|d| - 1]) then Kept(d[..|d| - 1], o) else |d|
  }

  lemma StripIsKept(d: Text, o: Options)
    requires !o.upnostrip
    ensures Strip(d) == d[..Kept(d, o)]
  {
    var k := Kept(d, o);
    StripWhite(d, k);
    assert d[..|d|] == d;
    StripNothing(d[..k]);
  }

  lemma {:induction false} StripWhite(s: Text, k: nat)
    requires k <= |s| && forall i :: k <= i < |s| ==> s[i] == BLANK || s[i] == TAB
    ensures Strip(s) == Strip(s[..k])
    decreases |s|
  {
    if k < |s| {
      StripWhite(s[..|s| - 1], k);
      assert s[..|s| - 1][..k] == s[..k];
    } else {
      assert s[..k] == s;
    }
  }

  lemma StripTail(s: Text, w: Text)
    requires forall i :: 0 <= i < |w| ==> w[i] == BLANK || w[i] == TAB
    ensures Strip(s + w) == Strip(s)
  {
    StripWhite(s + w, |s|);
    assert (s + w)[..|s|] == s;
  }

  lemma GapWhite(lnb: nat, cn: nat)
    requires lnb <= cn
    ensures forall i :: 0 <= i < |Gap(lnb, cn)| ==> Gap(lnb, cn)[i] == BLANK || Gap(lnb, cn)[i] == TAB
  {
  }

  lemma LeadingKept(e: Text, cn: nat)
    requires NoTabs(e) && Dark(e) && |e| <= cn
    ensures Strip(Leading(e + Times(cn - |e|, BLANK))) == Strip(Leading(e))
  {
    hide Strip, Leading, Gap, Times, Dark;
    LeadingOn(e, cn, BLANK);
    GapWhite(|e|, cn);
    StripTail(Leading(e), Gap(|e|, cn));
  }

  lemma KeptSplits(d: Text, o: Options)
    requires NoTabs(d) && !o.upnostrip
    ensures var k := Kept(d, o); d == d[..k] + Times(|d| - k, BLANK) && NoTabs(d[..k]) && Dark(d[..k])
  {
    TailIsBlank(d, o);
    AllKept(d, o);
  }

  lemma AllKept(d: Text, o: Options)
    requires BlankTail(d, o)
    ensures var k := Kept(d, o); d == d[..k] + Times(|d| - k, BLANK)
  {
  }

  /** What is stripped from d is blanks. */
  ghost predicate BlankTail(d: Text, o: Options) {
    forall i :: Kept(d, o) <= i < |d| ==> d[i] == BLANK
  }

  /** d, less the blanks at its end, ends in a tab, and that is stripped. */
  ghost predicate TabLast(d: Text, o: Options) {
    !o.upnostrip && var u := Undarkened(d); u != [] && u[|u| - 1] == TAB
  }

  lemma TailIsBlank(d: Text, o: Options)
    ensures BlankTail(d, o) <==> !TabLast(d, o)
    ensures NoTabs(d) ==> BlankTail(d, o)
  {
    var u := Undarkened(d);
    if u != [] {
      assert u[|u| - 1] == d[|u| - 1];
    }
  }

  lemma {:induction false} TabbedBlanks(n: nat, a: nat, cn: nat)
    requires a <= cn
    ensures Tabbed(Times(n, BLANK), a, cn) == TabRun(a, cn + n)
    decreases n
  {
    if n > 0 {
      assert Times(n, BLANK)[1..] == Times(n - 1, BLANK);
      TabbedBlanks(n - 1, a, cn + 1);
    }
  }

  /** Blanks after a text that does not end with one are a run of their own. */
  lemma {:induction false} TabbedThenBlanks(e: Text, n: nat, a: nat, cn: nat)
    requires Dark(e) && e != [] && a <= cn
    ensures Tabbed(e + Times(n, BLANK), a, cn) == Tabbed(e, a, cn) + TabRun(cn + |e|, cn + |e| + n)
    decreases |e|
  {
    hide TabRun;
    var f := e + Times(n, BLANK);
    assert f[1..] == e[1..] + Times(n, BLANK);
    if |e| == 1 {
      assert f[1..] == Times(n, BLANK);
      TabbedBlanks(n, cn + 1, cn + 1);
      EmptyRun(cn + 1);
    } else {
      TabbedThenBlanks(e[1..], n, if e[0] == BLANK then a else cn + 1, cn + 1);
    }
  }

  lemma EmptyRun(a: nat)
    ensures TabRun(a, a) == [] && Tabbed([], a, a) == []
  {
  }

  lemma {:induction false} RunWhite(a: nat, b: nat)
    requires a <= b
    ensures forall i :: 0 <= i < |TabRun(a, b)| ==> TabRun(a, b)[i] == BLANK || TabRun(a, b)[i] == TAB
    decreases b - a
  {
    if NextTab(a) <= b {
      RunWhite(NextTab(a), b);
    }
  }

  lemma TabbedKept(e: Text, n: nat)
    requires Dark(e)
    ensures Strip(Tabbed(e + Times(n, BLANK), 0, 0)) == Strip(Tabbed(e, 0, 0))
  {
    hide Strip, Tabbed, TabRun;
    RunWhite(|e|, |e| + n);
    if e == [] {
      TabbedBlanks(n, 0, 0);
      assert e + Times(n, BLANK) == Times(n, BLANK);
      EmptyRun(0);
      StripTail([], TabRun(0, n));
      assert [] + TabRun(0, n) == TabRun(0, n);
    } else {
      TabbedThenBlanks(e, n, 0, 0);
      StripTail(Tabbed(e, 0, 0), TabRun(|e|, |e| + n));
    }
  }

  lemma CompressedTail(e: Text, n: nat, o: Options)
    requires NoTabs(e) && Dark(e)
    ensures Strip(Compressed(e + Times(n, BLANK), o)) == Compressed(e, o)
  {
    hide Strip, Leading, Tabbed, Times, NoTabs, Dark;
    CompressedEnds(e, o);
    if o.upblanks || (!o.uptabs && o.litmode) {
      StripTail(e, Times(n, BLANK));
    } else if o.uptabs {
      TabbedKept(e, n);
    } else {
      LeadingKept(e, |e| + n);
    }
  }

  /** Stripping the file's form of a line is writing it without its last blanks. */
  lemma CompressedKept(d: Text, o: Options)
    requires Tabless(d, o) && OneMode(o) && !o.upnostrip
    ensures Strip(Compressed(d, o)) == Compressed(d[..Kept(d, o)], o)
  {
    if o.litmode {
      StripIsKept(d, o);
    } else {
      hide Strip, Compressed, Times, NoTabs, Dark;
      KeptSplits(d, o);
      CompressedTail(d[..Kept(d, o)], |d| - Kept(d, o), o);
    }
  }

  /** A line whose text is d is saved as its text less the blanks at the end. */
  lemma SavedText(s: Text, d: Text, o: Options)
    requires Writable(d, o) && NL in s + [NL] && Decoded(s + [NL]) == d
    ensures Saved(s, o) == EscAll(d[..Kept(d, o)])
  {
    hide Decoded, Strip, Compressed, EscAll, Leading, Entered, TabsKeep;
    var e := d[..Kept(d, o)];
    assert o.upnostrip ==> e == d;
    if !o.upnostrip {
      CompressedKept(d, o);
    }
    assert External(s + [NL], o) == Compressed(e, o);
    CompressedReads(e, o);
    if !o.upnostrip {
      StripKept(e);
    }
  }

  lemma SavedSays(d: Text, o: Options)
    requires Writable(d, o)
    ensures Saved(EscAll(d), o) == EscAll(d[..Kept(d, o)])
  {
    DecodedEsc(d);
    SavedText(EscAll(d), d, o);
  }

  lemma DecodedOne(c: int, t: Text)
    requires 0 <= c < 128 && c != NL && NL in t
    ensures NL in Esc(c) + t && Decoded(Esc(c) + t) == [c] + Decoded(t)
  {
    hide Esc, Head;
    HeadEsc(c, t);
  }

  lemma {:induction false} DecodedCat(d: Text, t: Text)
    requires SevenBit(d) && NL in t
    ensures NL in EscAll(d) + t && Decoded(EscAll(d) + t) == d + Decoded(t)
  {
    hide Esc, Decoded;
    var s := EscAll(d) + t;
    if d == [] {
      assert s == t && d + Decoded(t) == Decoded(t);
    } else {
      var rest := EscAll(d[1..]) + t;
      DecodedCat(d[1..], t);
      DecodedOne(d[0], rest);
      assert s == Esc(d[0]) + rest;
      assert d + Decoded(t) == [d[0]] + (d[1..] + Decoded(t));
    }
  }

  /** A line that ends within an escape. */
  lemma SavedEndsEsc(d: Text, o: Options)
    requires SevenBit(d) && Writable(d + [ESC], o)
    ensures Saved(EscAll(d) + [ESC], o) == EscAll(d) + [ESC, ESC]
  {
    hide EscAll, Saved, TabsKeep;
    var e := d + [ESC];
    DecodedCat(d, [ESC, NL]);
    DecodedEndsEsc();
    assert EscAll(d) + [ESC] + [NL] == EscAll(d) + [ESC, NL];
    SavedText(EscAll(d) + [ESC], e, o);
    EscAllCat(d, [ESC]);
    EscOne(ESC);
    assert e[..|e|] == e;
  }

  lemma DecodedEndsEsc()
    ensures Decoded([ESC, NL]) == [ESC]
  {
    assert [ESC, NL][1..] == [NL];
    assert Head([ESC, NL]) == (ESC, 1) && Head([NL]) == (NL, 1);
  }

  lemma CompressedReads(e: Text, o: Options)
    requires SevenBit(e) && Tabless(e, o) && OneMode(o) && (Tabbing(o) ==> TabsKeep(e, 0, 0, 0))
    ensures Entered([], Compressed(e, o), o.litmode) == EscAll(e)
  {
    hide Entered, Plain, EscAll, Leading, Tabbed, TabsKeep;
    if o.upblanks || (!o.uptabs && o.litmode) {
      EnteredPlain([], e, o.litmode);
      PlainSays(e, 0, o.litmode);
      assert [] + EscAll(e) == EscAll(e);
    } else if o.uptabs {
      TabbedReads([], e, 0, 0, 0);
      assert [] + Times(0, BLANK) + EscAll(e) == EscAll(e);
    } else {
      LeadingReads(e);
    }
  }

  lemma StripKept(e: Text)
    requires SevenBit(e) && (e == [] || e[|e| - 1] != BLANK)
    ensures Strip(EscAll(e)) == EscAll(e)
  {
    hide Strip, EscAll;
    var k := StripEsc(e);
    if k < |e| {
      assert false;
    }
    assert e[..k] == e;
  }

  // ----- lines of plain text -----

  /** Printing characters only. */
  ghost predicate Printable(s: Text) { forall i :: 0 <= i < |s| ==> 32 <= s[i] < 127 }

  lemma PrintableWritable(s: Text, o: Options)
    requires Printable(s) && OneMode(o)
    ensures Writable(s, o)
  {
    PlainKeeps(s[..Kept(s, o)], 0, 0);
  }

  /** A line of printing characters is saved without the blanks at its end, in every mode. */
  lemma SavedPrintable(s: Text, o: Options)
    requires Printable(s) && OneMode(o)
    ensures Saved(s, o) == s[..Kept(s, o)]
  {
    hide Saved, Writable;
    EscPrinting(s);
    PrintableWritable(s, o);
    SavedSays(s, o);
    EscPrinting(s[..Kept(s, o)]);
  }

  /** Writing a line never makes it longer. */
  lemma {:induction false} TabbedShort(d: Text, a: nat, cn: nat)
    requires a <= cn
    ensures |Tabbed(d, a, cn)| <= |d| + (cn - a)
    decreases |d|
  {
    if d != [] {
      TabbedShort(d[1..], if d[0] == BLANK then a else cn + 1, cn + 1);
    }
  }

  lemma {:induction false} DecodedShort(s: Text)
    requires NL in s
    ensures |Decoded(s)| < |s|
    decreases |s|
  {
    var h := Head(s);
    if h.0 != NL {
      DecodedShort(s[h.1..]);
    }
  }

  lemma ExternalShort(s: Text, o: Options)
    requires NL in s
    ensures |External(s, o)| <= |Compressed(Decoded(s), o)| < |s|
  {
    DecodedShort(s);
    TabbedShort(Decoded(s), 0, 0);
  }

  /** What dechars leaves in a buffer whose first n characters are a line: the characters it wrote, stripped
      or not, the newline it put in at last, and the rest as it was. */
  function Written(buf: seq<int>, n: nat, o: Options): (r: seq<int>)
    requires 1 <= n <= |buf|
    ensures |r| == |buf| && r[n..] == buf[n..]
  {
    var s := buf[..n - 1] + [NL];
    assert s[n - 1] == NL;
    ExternalShort(s, o);
    var c := Compressed(Decoded(s), o);
    (c + buf[|c|..])[|External(s, o)| := NL]
  }

  /** What GetLine leaves in a buffer: the line, its newline, and the rest as it was. */
  function Loaded(buf: seq<int>, s: Text): (r: seq<int>)
    ensures |r| >= |buf| && |r| > |s| && r[..|s|] == s && r[|s|] == NL
    ensures forall i :: |s| < i < |buf| ==> r[i] == buf[i]
  {
    s + [NL] + if |buf| > |s| + 1 then buf[|s| + 1..] else []
  }

  // ----- what the commands do to a file -----

  type File = seq<Text>

  function Empties(n: nat): (r: File)
    ensures |r| == n && forall i :: 0 <= i < n ==> r[i] == []
  {
    seq(n, i => [])
  }

  /** s made col long at least. */
  function Padded(s: Text, col: nat): (r: Text)
    ensures |r| == if |s| < col then col else |s|
  {
    if |s| < col then s + Times(col - |s|, BLANK) else s
  }

  /** A line in a buffer, with blanks written behind it up to column col. */
  lemma PadFront(c: Text, s: Text, col: nat, c1: Text)
    requires |s| <= |c| && c[..|s|] == s && col <= |c|
    requires c1 == if |s| < col then c[..|s|] + Times(col - |s|, BLANK) + c[col..] else c
    ensures c1[..col] == Padded(s, col)[..col]
  {
    hide Times;
    if |s| < col {
      assert c1[..col] == s + Times(col - |s|, BLANK);
    } else {
      assert c[..col] == s[..col];
    }
  }

  /** Line `line` split at col, the rest of it being put nl lines down at column newc. */
  function Split(f: File, line: nat, col: nat, nl: nat, newc: nat, o: Options): File
    requires nl >= 1
  {
    if line >= |f| || col >= |f[line]| then f
    else f[..line] + [Saved(f[line][..col], o)] + Empties(nl - 1)
         + [Saved(Times(newc, BLANK) + f[line][col..], o)] + f[line + 1..]
  }

  /** The same for a line that is read as cur, being changed and not written yet: if writing strips it of
      column col, there is `left` for the second part. */
  function SplitRead(f: File, cur: Text, line: nat, col: nat, nl: nat, newc: nat, left: Text, o: Options): File
    requires nl >= 1
  {
    if line >= |f| || col >= |cur| then f
    else if col < |f[line]| then Split(f, line, col, nl, newc, o)
    else f[..line] + [Saved(f[line], o)] + Empties(nl - 1) + [Saved(Times(newc, BLANK) + left, o)] + f[line + 1..]
  }

  /** What is at column newc of t put at column col of s.  When newc is beyond the end of t, as much is lost
      of s; when it is so far beyond that nothing would be left, nothing is. */
  function JoinedLine(s: Text, col: nat, t: Text, newc: nat): Text {
    var p := Padded(s, col)[..col];
    if newc <= |t| then p + t[newc..] else if newc <= |t| + col then p[..col - (newc - |t|)] else p
  }

  /** The upper line keeps what it has before column col if and only if the column asked for is not beyond
      the end of the lower one, or is further beyond it than the upper one is long.  Between the two, the
      lower line is all lost and the upper one loses as many characters. */
  lemma UpperKept(s: Text, col: nat, t: Text, newc: nat)
    ensures var j, upper := JoinedLine(s, col, t, newc), Padded(s, col)[..col];
            && ((exists rest :: j == upper + rest) <==> newc <= |t| || newc > |t| + col)
            && (newc > |t| + col ==> j == upper)
            && (|t| < newc <= |t| + col ==> |j| == col - (newc - |t|) && j == upper[..|j|])
  {
    var j, upper := JoinedLine(s, col, t, newc), Padded(s, col)[..col];
    if newc <= |t| {
      assert j == upper + t[newc..];
    } else if newc > |t| + col {
      assert j == upper + [];
    } else {
      assert |j| < |upper|;
    }
  }

  /** Joining "x" from its column 3 to "abc" leaves "a". */
  lemma UpperLost()
    ensures JoinedLine(['a' as int, 'b' as int, 'c' as int], 3, ['x' as int], 3) == ['a' as int]
  {
    assert JoinedLine(['a' as int, 'b' as int, 'c' as int], 3, ['x' as int], 3) == ['a' as int, 'b' as int, 'c' as int][..1];
  }

  /** From its column 5, which is beyond both, leaves "abc". */
  lemma UpperUntouched()
    ensures JoinedLine(['a' as int, 'b' as int, 'c' as int], 3, ['x' as int], 5) == ['a' as int, 'b' as int, 'c' as int]
  {
    assert Padded(['a' as int, 'b' as int, 'c' as int], 3)[..3] == ['a' as int, 'b' as int, 'c' as int];
  }

  function LineOf(f: File, n: int): Text { if 0 <= n < |f| then f[n] else [] }

  /** Line line + nl from column newc on put at column col of line `line`, and the lines after that, down
      to line + nl, taken out. */
  function Join(f: File, line: nat, col: nat, nl0: nat, newc: nat, o: Options): File
  {
    if line >= |f| then f
    else
      var nl := if nl0 > |f| - line then |f| - line else nl0;
      var gone := if nl > |f| - (line + 1) then |f| - (line + 1) else nl;
      f[..line] + [Saved(JoinedLine(f[line], col, LineOf(f, line + nl), newc), o)] + f[line + 1 + gone..]
  }

  /** A line as a file holds it: what it says is the text d. */
  ghost predicate Says(s: Text, d: Text, o: Options) {
    s == EscAll(d) && SevenBit(d) && Tabless(d, o) && Kept(d, o) == |d|
  }

  lemma EscTimes(n: nat, d: Text)
    ensures EscAll(d + Times(n, BLANK)) == EscAll(d) + Times(n, BLANK)
    ensures EscAll(Times(n, BLANK) + d) == Times(n, BLANK) + EscAll(d)
  {
    EscPrinting(Times(n, BLANK));
    EscAllCat(d, Times(n, BLANK));
    EscAllCat(Times(n, BLANK), d);
  }

  /** The first part of a line that was split is, when it is joined again, padded to what it was. */
  lemma FrontRejoins(d: Text, o: Options)
    requires Writable(d, o) && BlankTail(d, o)
    ensures Padded(Saved(EscAll(d), o), |EscAll(d)|)[..|EscAll(d)|] == EscAll(d)
  {
    hide EscAll, Saved, Padded, SevenBit, NoTabs, Times, TabsKeep;
    SavedSays(d, o);
    var k := Kept(d, o);
    AllKept(d, o);
    EscTimes(|d| - k, d[..k]);
    PaddedBack(EscAll(d[..k]), |d| - k);
  }

  lemma PaddedBack(x: Text, n: nat)
    ensures Padded(x, |x + Times(n, BLANK)|)[..|x + Times(n, BLANK)|] == x + Times(n, BLANK)
  {
  }

  /** The second part, moved to column newc, is saved as it is. */
  lemma BackStays(d: Text, newc: nat, o: Options)
    requires Writable(Times(newc, BLANK) + d, o) && d != [] && Kept(d, o) == |d|
    ensures Saved(Times(newc, BLANK) + EscAll(d), o) == Times(newc, BLANK) + EscAll(d)
  {
    hide EscAll, Saved, Writable;
    var e := Times(newc, BLANK) + d;
    EscTimes(newc, d);
    assert e[|e| - 1] == d[|d| - 1];
    SavedSays(e, o);
    assert Kept(e, o) == |e| && e[..|e|] == e;
  }

  /** The lines of a file with a line split. */
  lemma SplitShape(f: File, line: nat, col: nat, nl: nat, newc: nat, o: Options)
    requires nl >= 1 && line < |f| && col < |f[line]|
    ensures var g := Split(f, line, col, nl, newc, o);
            && |g| == |f| + nl
            && g[line] == Saved(f[line][..col], o) && g[line + nl] == Saved(Times(newc, BLANK) + f[line][col..], o)
            && g[..line] == f[..line] && g[line + 1 + nl..] == f[line + 1..]
  {
    hide Saved, Times;
  }

  /** What comes of a line that is split and joined at the same places, if its second part is saved with
      the blanks it was moved by. */
  lemma JoinsAs(f: File, line: nat, front: Text, back: Text, back2: Text, nl: nat, newc: nat, o: Options)
    requires nl >= 1 && line < |f| && f[line] == front + back && back != []
    requires Saved(Times(newc, BLANK) + back, o) == Times(newc, BLANK) + back2
    ensures var g := Split(f, line, |front|, nl, newc, o);
            && |g| == |f| + nl
            && Join(g, line, |front|, nl, newc, o)
               == f[line := Saved(Padded(Saved(front, o), |front|)[..|front|] + back2, o)]
  {
    hide Saved, Padded, Split;
    var g := Split(f, line, |front|, nl, newc, o);
    SplitShape(f, line, |front|, nl, newc, o);
    assert f[line][..|front|] == front && f[line][|front|..] == back;
    var t := Times(newc, BLANK) + back2;
    assert t[newc..] == back2;
    assert JoinedLine(g[line], |front|, t, newc) == Padded(Saved(front, o), |front|)[..|front|] + back2;
    hide JoinedLine, Times;
    var x := Saved(Padded(Saved(front, o), |front|)[..|front|] + back2, o);
    assert f[line := x] == f[..line] + [x] + f[line + 1..];
  }

  /** A file with a line split in two parts that are saved well is joined again. */
  lemma Rejoins(f: File, line: nat, front: Text, back: Text, nl: nat, newc: nat, o: Options)
    requires nl >= 1 && line < |f| && f[line] == front + back && back != [] && Saved(f[line], o) == f[line]
    requires Padded(Saved(front, o), |front|)[..|front|] == front
    requires Saved(Times(newc, BLANK) + back, o) == Times(newc, BLANK) + back
    ensures var g := Split(f, line, |front|, nl, newc, o);
            && |g| == |f| + nl
            && Join(g, line, |front|, nl, newc, o) == f
  {
    hide Saved, Padded, Split, Join;
    JoinsAs(f, line, front, back, back, nl, newc, o);
    assert f[line := f[line]] == f;
  }

  /** The runs of a part of a line keep if those of the line do; and so they do with another character in
      place of the rest, if the rest does not begin with a blank. */
  lemma {:induction false} PrefixKeeps(d: Text, k: nat, x: int, a: nat, cn: nat, shift: nat)
    requires k < |d| && TabsKeep(d, a, cn, shift) && a <= cn && x != BLANK
    ensures TabsKeep(d[..k], a, cn, shift)
    ensures d[k] != BLANK ==> TabsKeep(d[..k] + [x], a, cn, shift)
    decreases |d|
  {
    if k == 0 {
      FirstRunKeeps(d, a, cn, shift);
      assert ([] + [x])[1..] == [];
    } else {
      Beheaded(d, k, x);
      if d[0] == BLANK {
        PrefixKeeps(d[1..], k - 1, x, a, cn + 1, shift);
      } else {
        PrefixKeeps(d[1..], k - 1, x, cn + 1, cn + 1, shift + |Esc(d[0])| - 1);
      }
    }
  }

  lemma Beheaded(d: Text, k: nat, x: int)
    requires 0 < k < |d|
    ensures d[..k][1..] == d[1..][..k - 1] && (d[..k] + [x])[1..] == d[1..][..k - 1] + [x]
  {
    assert d[..k][1..] == d[1..][..k - 1];
    assert (d[..k] + [x])[1..] == d[..k][1..] + [x];
  }

  /** The run a text begins with keeps, and so does what there is of it before that. */
  lemma {:induction false} FirstRunKeeps(d: Text, a: nat, cn: nat, shift: nat)
    requires TabsKeep(d, a, cn, shift) && a <= cn
    ensures RunKeeps(a, cn, shift)
    decreases |d|
  {
    if d != [] && d[0] == BLANK {
      FirstRunKeeps(d[1..], a, cn + 1, shift);
    }
  }

  /** Both parts of a line that can be written can be, the first with an ESC at its end too where it does
      not stand before a blank. */
  lemma PartsWritable(d: Text, k: nat, o: Options)
    requires Writable(d, o) && k < |d| && Kept(d, o) == |d|
    ensures Writable(d[..k], o) && (d[k] != BLANK ==> Writable(d[..k] + [ESC], o))
  {
    hide TabsKeep;
    var a := d[..k];
    if Tabbing(o) {
      assert d[..|d|] == d;
      PrefixKeeps(d, k, ESC, 0, 0, 0);
      var j := Kept(a, o);
      if j < k {
        PrefixKeeps(d, j, ESC, 0, 0, 0);
        assert a[..j] == d[..j];
      } else {
        assert a[..j] == a;
      }
      assert (a + [ESC])[..|a| + 1] == a + [ESC];
    }
  }

  /** Where a line is split: between two characters, or inside the escape of a control character. */
  function Place(d: Text, k: nat, inside: bool): nat
    requires k <= |d|
  {
    |EscAll(d[..k])| + if inside then 1 else 0
  }

  /** What the second part of the line says then. */
  function Rest(d: Text, k: nat, inside: bool): Text
    requires k < |d|
  {
    if inside then [d[k] + 64] + d[k + 1..] else d[k..]
  }

  lemma SplitInside(f: File, line: nat, k: nat, nl: nat, newc: nat, d: Text, o: Options)
    requires nl >= 1 && line < |f| && Writable(d, o) && Says(f[line], d, o) && k < |d| && 0 <= d[k] < 32
    requires Writable(Times(newc, BLANK) + Rest(d, k, true), o) && Saved(f[line], o) == f[line]
    ensures var g := Split(f, line, Place(d, k, true), nl, newc, o);
            |g| == |f| + nl && Join(g, line, Place(d, k, true), nl, newc, o) == f
  {
    hide EscAll, Saved, Padded, Split, Join, Writable;
    var a, e := d[..k], Rest(d, k, true);
    InsideEscape(d, k);
    PartsWritable(d, k, o);
    SavedEndsEsc(a, o);
    FrontHalf(EscAll(a));
    assert e[|e| - 1] == if k + 1 < |d| then d[|d| - 1] else d[k] + 64;
    BackStays(e, newc, o);
    Rejoins(f, line, EscAll(a) + [ESC], EscAll(e), nl, newc, o);
  }

  /** What the first part of the line says. */
  function First(d: Text, k: nat, inside: bool): Text
    requires k <= |d|
  {
    d[..k] + if inside then [ESC] else []
  }

  /** Splitting a line anywhere but inside the escape of an ESC, and joining at the same places, gives the
      file back: for any number of lines down, any column, and the last line like any other.  In -tabs mode
      the line's own runs have to keep, and those of its second part where that is put.  Where tabs are
      characters of the line and blanks and tabs are stripped from its end, it does if and only if the
      first part, less the blanks at its end, does not end in a tab. */
  lemma SplitThenJoin(f: File, line: nat, k: nat, inside: bool, nl: nat, newc: nat, d: Text, o: Options)
    requires nl >= 1 && line < |f| && Writable(d, o) && Says(f[line], d, o) && k < |d| && (inside ==> 0 <= d[k] < 32)
    requires Tabbing(o) ==> TabsKeep(Times(newc, BLANK) + Rest(d, k, inside), 0, 0, 0)
    requires DoneRight(d, o) && DoneRight(First(d, k, inside), o) && DoneRight(Times(newc, BLANK) + Rest(d, k, inside), o)
    ensures var g := Split(f, line, Place(d, k, inside), nl, newc, o);
            && |g| == |f| + nl
            && (Join(g, line, Place(d, k, inside), nl, newc, o) == f <==> inside || !TabLast(d[..k], o))
  {
    hide EscAll, Saved, Padded, Split, Join, TabsKeep, Within, TabLast;
    SavedSays(d, o);
    assert d[..|d|] == d;
    RestWritable(d, k, inside, newc, o);
    if inside {
      SplitInside(f, line, k, nl, newc, d, o);
    } else {
      SplitBetween(f, line, k, nl, newc, d, o);
    }
  }

  lemma SplitBetween(f: File, line: nat, k: nat, nl: nat, newc: nat, d: Text, o: Options)
    requires nl >= 1 && line < |f| && Writable(d, o) && Says(f[line], d, o) && k < |d|
    requires Writable(Times(newc, BLANK) + d[k..], o) && Saved(f[line], o) == f[line]
    ensures var g := Split(f, line, |EscAll(d[..k])|, nl, newc, o);
            && |g| == |f| + nl
            && (Join(g, line, |EscAll(d[..k])|, nl, newc, o) == f <==> !TabLast(d[..k], o))
  {
    hide EscAll, Saved, Padded, Split, Join, TabsKeep, TabLast;
    var a, b := d[..k], d[k..];
    assert d == a + b;
    EscAllCat(a, b);
    PartsWritable(d, k, o);
    TailIsBlank(a, o);
    assert d[|d| - 1] == b[|b| - 1];
    BackStays(b, newc, o);
    EscLong(b);
    if BlankTail(a, o) {
      FrontRejoins(a, o);
      Rejoins(f, line, EscAll(a), EscAll(b), nl, newc, o);
    } else {
      TabsLost(f, line, a, b, nl, newc, o);
    }
  }

  /** The first part, with blanks for what was stripped from it, and the rest. */
  ghost function Blanked(a: Text, b: Text, o: Options): Text {
    EscKept(a, Kept(a, o));
    a[..Kept(a, o)] + Times(|EscAll(a)| - |EscAll(a[..Kept(a, o)])|, BLANK) + b
  }

  /** Tabs at the end of the first part come back as blanks. */
  lemma TabsLost(f: File, line: nat, a: Text, b: Text, nl: nat, newc: nat, o: Options)
    requires nl >= 1 && line < |f| && Writable(a + b, o) && !BlankTail(a, o) && b != [] && Kept(a + b, o) == |a + b|
    requires f[line] == EscAll(a + b) && Saved(Times(newc, BLANK) + EscAll(b), o) == Times(newc, BLANK) + EscAll(b)
    ensures var g := Split(f, line, |EscAll(a)|, nl, newc, o);
            && |g| == |f| + nl
            && Join(g, line, |EscAll(a)|, nl, newc, o) == f[line := EscAll(Blanked(a, b, o))] != f
  {
    hide EscAll, Saved, Padded, Split, Join, TabsKeep, Blanked, BlankTail;
    EscAllCat(a, b);
    EscLong(b);
    JoinsAs(f, line, EscAll(a), EscAll(b), EscAll(b), nl, newc, o);
    LiteralFirst(a, b, o);
    EscBlanked(a, b, o);
    SavedSays(Blanked(a, b, o), o);
    BlankedDiffers(a, b, o);
  }

  lemma EscBlanked(a: Text, b: Text, o: Options)
    ensures var x := EscAll(a[..Kept(a, o)]); EscAll(Blanked(a, b, o)) == Padded(x, |EscAll(a)|)[..|EscAll(a)|] + EscAll(b)
  {
    hide EscAll, Padded;
    var j := Kept(a, o);
    EscKept(a, j);
    var m := |EscAll(a)| - |EscAll(a[..j])|;
    EscTimes(m, a[..j]);
    EscAllCat(a[..j] + Times(m, BLANK), b);
    PaddedIs(EscAll(a[..j]), m);
  }

  lemma PaddedIs(x: Text, m: nat)
    ensures Padded(x, |x| + m)[..|x| + m] == x + Times(m, BLANK)
  {
  }

  lemma EscKept(a: Text, j: nat)
    requires j <= |a|
    ensures |EscAll(a)| - |EscAll(a[..j])| >= |a| - j
  {
    hide EscAll;
    assert a == a[..j] + a[j..];
    EscAllCat(a[..j], a[j..]);
    EscLong(a[j..]);
  }

  lemma LiteralFirst(a: Text, b: Text, o: Options)
    requires Writable(a + b, o) && !BlankTail(a, o) && b != [] && Kept(a + b, o) == |a + b|
    ensures o.litmode && !o.upnostrip && SevenBit(a) && SevenBit(b)
    ensures exists i :: Kept(a, o) <= i < |a| && a[i] == TAB
    ensures Saved(EscAll(a), o) == EscAll(a[..Kept(a, o)])
    ensures var d := Blanked(a, b, o); Writable(d, o) && d[..Kept(d, o)] == d
  {
    hide EscAll, Saved, TabsKeep;
    SevenBitParts(a, b);
    TailIsBlank(a, o);
    NoTabsPart(a, b);
    SavedSays(a, o);
    EscKept(a, Kept(a, o));
    var d := Blanked(a, b, o);
    assert d[|d| - 1] == b[|b| - 1] == (a + b)[|a + b| - 1];
  }

  lemma BlankedDiffers(a: Text, b: Text, o: Options)
    requires Writable(a + b, o) && Writable(Blanked(a, b, o), o) && exists i :: Kept(a, o) <= i < |a| && a[i] == TAB
    ensures EscAll(Blanked(a, b, o)) != EscAll(a + b)
  {
    hide EscAll, TabsKeep;
    var i :| Kept(a, o) <= i < |a| && a[i] == TAB;
    EscKept(a, Kept(a, o));
    assert Blanked(a, b, o)[i] == BLANK && (a + b)[i] == TAB;
    if EscAll(Blanked(a, b, o)) == EscAll(a + b) {
      EscInjective(Blanked(a, b, o), a + b);
      assert false;
    }
  }

  lemma NoTabsPart(x: Text, y: Text)
    ensures NoTabs(x + y) ==> NoTabs(x) && NoTabs(y)
  {
    assert forall i :: 0 <= i < |x| ==> x[i] == (x + y)[i];
    assert forall i :: 0 <= i < |y| ==> y[i] == (x + y)[|x| + i];
  }

  lemma SevenBitParts(x: Text, y: Text)
    requires SevenBit(x + y)
    ensures SevenBit(x) && SevenBit(y)
  {
    forall i | 0 <= i < |x|
      ensures 0 <= x[i] < 128 && x[i] != NL
    {
      assert x[i] == (x + y)[i];
    }
    forall i | 0 <= i < |y|
      ensures 0 <= y[i] < 128 && y[i] != NL
    {
      assert y[i] == (x + y)[|x| + i];
    }
  }

  /** In literal mode a, b, a tab, c and d, split after the tab, come back with two blanks for it. */
  lemma TabComesBackBlank()
    ensures var o := Options(false, false, true, false);
            var d := ['a' as int, 'b' as int, TAB, 'c' as int, 'd' as int];
            var g := Split([EscAll(d)], 0, 4, 1, 0, o);
            && Saved(EscAll(d), o) == EscAll(d) && |g| == 2
            && Join(g, 0, 4, 1, 0, o) == [EscAll(['a' as int, 'b' as int, BLANK, BLANK, 'c' as int, 'd' as int])]
  {
    hide EscAll, Saved, Split, Join;
    var o := Options(false, false, true, false);
    var a, b := ['a' as int, 'b' as int, TAB], ['c' as int, 'd' as int];
    var f := [EscAll(a + b)];
    assert a + b == ['a' as int, 'b' as int, TAB, 'c' as int, 'd' as int];
    SavedSays(a + b, o);
    assert (a + b)[..5] == a + b;
    assert Kept(a, o) == 2 by { assert a[..2][1] == 'b' as int; }
    assert a[..2] == ['a' as int, 'b' as int];
    EscLength(a, a[..2]);
    assert b[..2] == b;
    assert Times(0, BLANK) + EscAll(b) == EscAll(b) && Times(0, BLANK) + b == b;
    SavedSays(b, o);
    TabsLost(f, 0, a, b, 1, 0, o);
    assert Blanked(a, b, o) == ['a' as int, 'b' as int, BLANK, BLANK, 'c' as int, 'd' as int];
  }

  lemma EscLength(a: Text, e: Text)
    requires e == ['a' as int, 'b' as int] && a == e + [TAB]
    ensures |EscAll(a)| == 4 && |EscAll(e)| == 2
  {
    hide EscAll;
    EscPrinting(e);
    EscAllCat(e, [TAB]);
    EscOne(TAB);
  }

  lemma RestWritable(d: Text, k: nat, inside: bool, newc: nat, o: Options)
    requires Writable(d, o) && k < |d| && Kept(d, o) == |d| && (inside ==> 0 <= d[k] < 32)
    requires Tabbing(o) ==> TabsKeep(Times(newc, BLANK) + Rest(d, k, inside), 0, 0, 0)
    ensures Writable(Times(newc, BLANK) + Rest(d, k, inside), o)
  {
    hide TabsKeep, SevenBit, NoTabs, Rest, Times;
    RestFine(d, k, inside, newc);
    RestEnds(d, k, inside, o);
    EndsKept(Times(newc, BLANK), Rest(d, k, inside), o);
  }

  lemma RestEnds(d: Text, k: nat, inside: bool, o: Options)
    requires k < |d| && Kept(d, o) == |d| && (inside ==> 0 <= d[k] < 32)
    ensures var r := Rest(d, k, inside); r != [] && (o.upnostrip || !White(r[|r| - 1]))
  {
  }

  lemma EndsKept(x: Text, r: Text, o: Options)
    requires r != [] && (o.upnostrip || !White(r[|r| - 1]))
    ensures Kept(x + r, o) == |x + r| && (x + r)[..|x + r|] == x + r
  {
  }

  lemma RestFine(d: Text, k: nat, inside: bool, newc: nat)
    requires SevenBit(d) && k < |d| && (inside ==> 0 <= d[k] < 32)
    ensures SevenBit(Times(newc, BLANK) + Rest(d, k, inside))
    ensures NoTabs(d) ==> NoTabs(Times(newc, BLANK) + Rest(d, k, inside))
  {
    var r := Rest(d, k, inside);
    assert SevenBit(r) && (NoTabs(d) ==> NoTabs(r));
  }

  /** A line of printing characters can be split and joined anywhere, in every mode. */
  lemma PrintableSplitThenJoin(f: File, line: nat, col: nat, nl: nat, newc: nat, o: Options)
    requires nl >= 1 && line < |f| && Printable(f[line]) && OneMode(o) && Kept(f[line], o) == |f[line]|
    requires col < |f[line]| && DoneRight(f[line], o)
    requires DoneRight(f[line][..col], o) && DoneRight(Times(newc, BLANK) + f[line][col..], o)
    ensures var g := Split(f, line, col, nl, newc, o);
            |g| == |f| + nl && Join(g, line, col, nl, newc, o) == f
  {
    hide EscAll, Saved, Split, Join, Writable, TabsKeep, Within, TabLast;
    var d := f[line];
    EscPrinting(d);
    EscPrinting(d[..col]);
    PrintableWritable(d, o);
    PlainKeeps(Times(newc, BLANK) + d[col..], 0, 0);
    TailIsBlank(d[..col], o);
    assert d[..col] + [] == d[..col];
    SplitThenJoin(f, line, col, false, nl, newc, d, o);
  }

  // ----- splitting a line that has not been written yet -----

  ghost predicate AllWhite(x: Text) { forall i :: 0 <= i < |x| ==> White(x[i]) }

  lemma {:induction false} TabbedWhite(d: Text, a: nat, cn: nat)
    requires AllWhite(d) && a <= cn
    ensures AllWhite(Tabbed(d, a, cn))
    decreases |d|
  {
    RunWhite(a, cn);
    if d != [] {
      TabbedWhite(d[1..], if d[0] == BLANK then a else cn + 1, cn + 1);
    }
  }

  lemma {:induction false} DecodedWhite(x: Text)
    requires AllWhite(x)
    ensures NL in x + [NL] && Decoded(x + [NL]) == x
  {
    var s := x + [NL];
    assert s[|x|] == NL;
    if x != [] {
      DecodedWhite(x[1..]);
      assert s[1..] == x[1..] + [NL];
      assert Head(s) == (x[0], 1);
    }
  }

  /** Nothing but blanks and tabs is written as nothing, if they are stripped. */
  lemma SavedWhite(x: Text, o: Options)
    requires AllWhite(x) && !o.upnostrip
    ensures Saved(x, o) == []
  {
    hide Decoded, Tabbed;
    DecodedWhite(x);
    TabbedWhite(x, 0, 0);
    var c := Compressed(x, o);
    assert AllWhite(c);
    StripTail([], c);
    assert [] + c == c;
    assert External(x + [NL], o) == [];
  }

  lemma KeptMore(x: Text, w: Text, o: Options)
    requires !o.upnostrip && AllWhite(w)
    ensures (x + w)[..Kept(x + w, o)] == x[..Kept(x, o)]
  {
    StripTail(x, w);
    StripIsKept(x, o);
    StripIsKept(x + w, o);
  }

  lemma EscAt(d: Text, k: nat)
    requires k < |d|
    ensures |EscAll(d[..k])| < |EscAll(d)| && EscAll(d)[|EscAll(d[..k])|] == Esc(d[k])[0]
  {
    hide EscAll;
    assert d == d[..k] + ([d[k]] + d[k + 1..]);
    EscAllCat(d[..k], [d[k]] + d[k + 1..]);
    EscAllCat([d[k]], d[k + 1..]);
    EscOne(d[k]);
  }

  lemma EscGrows(d: Text, j: nat, k: nat)
    requires j <= k <= |d|
    ensures |EscAll(d[..j])| + (k - j) <= |EscAll(d[..k])|
  {
    hide EscAll;
    assert d[..k] == d[..j] + d[j..k];
    EscAllCat(d[..j], d[j..k]);
    EscLong(d[j..k]);
  }

  /** What the buffer has in the column of the k-th character, when writing has stripped the line of it: a
      blank, or a tab written for blanks and stripped again; unless the character is a tab itself, and so
      far to the right that nothing was written there. */
  lemma LeftWhite(buf: seq<int>, d: Text, k: nat, o: Options)
    requires Writable(d, o) && !o.upnostrip && |EscAll(d)| < |buf| && buf[..|EscAll(d)|] == EscAll(d)
    requires Kept(d, o) < k < |d|
    ensures var col := |EscAll(d[..k])|;
            && col < |EscAll(d)|
            && var x := Written(buf, |EscAll(d)| + 1, o)[col];
               if d[k] == BLANK || col < |d| then White(x) else x == ESC
  {
    hide EscAll, Decoded, Strip, Compressed, TabsKeep;
    var s, j, col := EscAll(d), Kept(d, o), |EscAll(d[..k])|;
    EscAt(d, k);
    DecodedEsc(d);
    var c := Compressed(d, o);
    CompressedKept(d, o);
    CompressedLength(d[..j], o);
    CompressedLength(d, o);
    EscLong(d[..j]);
    EscGrows(d, j, k);
    assert buf[col] == s[col];
    assert buf[..|s| + 1 - 1] == s;
    assert col < |c| ==> White(c[col]) by { StripRest(c); }
    TailChar(d, k, o);
    if o.litmode {
      LiteralForm(d, o);
    }
  }

  lemma LiteralForm(d: Text, o: Options)
    requires o.litmode && OneMode(o)
    ensures Compressed(d, o) == d
  {
  }

  lemma TailChar(d: Text, k: nat, o: Options)
    requires Kept(d, o) <= k < |d| && SevenBit(d) && Tabless(d, o)
    ensures d[k] == BLANK || (d[k] == TAB && o.litmode)
    ensures Esc(BLANK) == [BLANK] && Esc(TAB) == [ESC, TAB + 64]
  {
  }

  lemma StripRest(c: Text)
    ensures forall i :: |Strip(c)| <= i < |c| ==> White(c[i])
  {
  }

  lemma CompressedLength(d: Text, o: Options)
    ensures |Compressed(d, o)| <= |d|
  {
    TabbedShort(d, 0, 0);
  }

  /** A line that says a text is split as it was read, though it is written first, and so may be stripped of
      the place: always if what is stripped is blanks.  Tabs that are stripped must not be split inside,
      nor so far to the right that the buffer still has their escapes. */
  lemma SplitAsRead(v: File, cur: Text, line: nat, k: nat, inside: bool, nl: nat, newc: nat, left: Text, d: Text, o: Options)
    requires nl >= 1 && line < |v| && cur == EscAll(d) && Writable(d, o) && k < |d| && (inside ==> 0 <= d[k] < 32)
    requires v[line] == Saved(cur, o) && Writable(Times(newc, BLANK) + Rest(d, k, inside), o)
    requires DoneRight(d, o) && DoneRight(First(d, k, inside), o) && DoneRight(Times(newc, BLANK) + Rest(d, k, inside), o)
    requires k == Kept(d, o) && !inside ==> left == []
    requires k > Kept(d, o) && !inside ==>
               |left| == 1 && if d[k] == BLANK || Place(d, k, inside) < |d| then White(left[0]) else left[0] == ESC
    ensures SplitRead(v, cur, line, Place(d, k, inside), nl, newc, left, o)
            == Split(v[line := cur], line, Place(d, k, inside), nl, newc, o)
            <==> k < Kept(d, o) || (!inside && (k == Kept(d, o) || d[k] == BLANK || Place(d, k, inside) < |d|))
  {
    hide EscAll, Saved, TabsKeep, Within;
    SavedSays(d, o);
    PlaceWithin(d, k, inside);
    if k < Kept(d, o) {
      StrippedBehind(d, k, inside, newc, o);
    } else {
      hide SplitRead, Split;
      PlaceStripped(d, k, inside, o);
      BothWays(v, cur, line, Place(d, k, inside), nl, newc, left, o);
      if inside {
        StrippedInside(d, k, o);
      } else {
        StrippedBefore(d, k, newc, left, o);
      }
    }
  }

  lemma PlaceStripped(d: Text, k: nat, inside: bool, o: Options)
    requires Kept(d, o) <= k < |d|
    ensures |EscAll(d[..Kept(d, o)])| <= Place(d, k, inside)
  {
    hide EscAll;
    EscGrows(d, Kept(d, o), k);
  }

  /** The two splits are the same if and only if both parts are saved the same. */
  lemma BothWays(v: File, cur: Text, line: nat, col: nat, nl: nat, newc: nat, left: Text, o: Options)
    requires nl >= 1 && line < |v| && |v[line]| <= col < |cur|
    ensures SplitRead(v, cur, line, col, nl, newc, left, o) == Split(v[line := cur], line, col, nl, newc, o)
            <==> Saved(v[line], o) == Saved(cur[..col], o)
                 && Saved(Times(newc, BLANK) + left, o) == Saved(Times(newc, BLANK) + cur[col..], o)
  {
    hide Saved, Times;
    var x, y := SplitRead(v, cur, line, col, nl, newc, left, o), Split(v[line := cur], line, col, nl, newc, o);
    assert x[line] == Saved(v[line], o) && y[line] == Saved(cur[..col], o);
    assert x[line + nl] == Saved(Times(newc, BLANK) + left, o) && y[line + nl] == Saved(Times(newc, BLANK) + cur[col..], o);
    assert v[line := cur][..line] == v[..line] && v[line := cur][line + 1..] == v[line + 1..];
  }

  /** Inside the escape of a tab that is stripped: the first part ends in an ESC, which is not. */
  lemma StrippedInside(d: Text, k: nat, o: Options)
    requires Writable(d, o) && Kept(d, o) <= k < |d| && 0 <= d[k] < 32
    ensures Place(d, k, true) < |EscAll(d)| && Saved(Saved(EscAll(d), o), o) != Saved(EscAll(d)[..Place(d, k, true)], o)
  {
    hide EscAll, Saved, TabsKeep;
    PlaceWithin(d, k, true);
    TailChar(d, k, o);
    assert d == d[..k] + d[k..];
    SevenBitParts(d[..k], d[k..]);
    assert Writable(d[..k] + [ESC], o);
    hide Writable, SevenBit, Tabless, Place, Rest;
    SavedEndsEsc(d[..k], o);
    SavedAgain(d, o);
    EscGrows(d, Kept(d, o), k);
  }

  lemma SavedAgain(d: Text, o: Options)
    requires Writable(d, o)
    ensures Saved(Saved(EscAll(d), o), o) == EscAll(d[..Kept(d, o)])
  {
    hide EscAll, Saved, Writable;
    SavedSays(d, o);
    KeptAgain(d, Kept(d, o), o);
    SavedSays(d[..Kept(d, o)], o);
  }

  lemma KeptAgain(d: Text, j: nat, o: Options)
    requires Writable(d, o) && j == Kept(d, o)
    ensures Writable(d[..j], o) && Kept(d[..j], o) == j && d[..j][..j] == d[..j]
  {
    hide TabsKeep;
    assert d[..j][..j] == d[..j];
    assert j > 0 ==> d[..j][j - 1] == d[j - 1];
    assert d[..j] + d[j..] == d;
    SevenBitParts(d[..j], d[j..]);
    NoTabsPart(d[..j], d[j..]);
  }

  lemma PlaceWithin(d: Text, k: nat, inside: bool)
    requires k < |d| && (inside ==> 0 <= d[k] < 32)
    ensures Place(d, k, inside) < |EscAll(d)|
    ensures EscAll(d)[Place(d, k, inside)..] == EscAll(Rest(d, k, inside))
    ensures EscAll(d)[..Place(d, k, inside)] == EscAll(d[..k]) + if inside then [ESC] else []
  {
    hide EscAll;
    var a, b := d[..k], d[k..];
    assert d == a + b;
    EscAllCat(a, b);
    EscLong(b);
    if inside {
      InsideEscape(d, k);
      var x := EscAll(a) + [ESC];
      assert EscAll(d) == x + EscAll(Rest(d, k, true));
      EscLong(Rest(d, k, true));
    }
  }

  /** White space at the end of a text does not matter if it is stripped. */
  lemma SavedMore(y: Text, w: Text, o: Options)
    requires Writable(y + w, o) && AllWhite(w) && !o.upnostrip
    ensures Writable(y, o) && Saved(EscAll(y + w), o) == Saved(EscAll(y), o)
  {
    hide EscAll, Saved, TabsKeep, AllWhite;
    KeptMore(y, w, o);
    FinePart(y, w, o);
    SavedSays(y, o);
    SavedSays(y + w, o);
  }

  lemma FinePart(x: Text, y: Text, o: Options)
    requires SevenBit(x + y) && Tabless(x + y, o)
    ensures SevenBit(x) && Tabless(x, o) && SevenBit(y) && Tabless(y, o)
  {
    SevenBitParts(x, y);
    NoTabsPart(x, y);
  }

  /** The place is within what is written. */
  lemma StrippedBehind(d: Text, k: nat, inside: bool, newc: nat, o: Options)
    requires Writable(d, o) && k < Kept(d, o) && (inside ==> 0 <= d[k] < 32)
    requires Writable(Times(newc, BLANK) + Rest(d, k, inside), o)
    ensures var s, t, col := EscAll(d), EscAll(d[..Kept(d, o)]), Place(d, k, inside);
            && col < |t| && col < |s| && t[..col] == s[..col]
            && Saved(Times(newc, BLANK) + t[col..], o) == Saved(Times(newc, BLANK) + s[col..], o)
  {
    hide EscAll, Saved, Writable, Rest, Times;
    var e := d[..Kept(d, o)];
    PlaceKept(d, k, inside, o);
    PlaceWithin(d, k, inside);
    PlaceWithin(e, k, inside);
    EscTimes(newc, Rest(d, k, inside));
    EscTimes(newc, Rest(e, k, inside));
    if o.upnostrip {
      assert e == d;
    } else {
      RestKept(d, k, inside, newc, o);
      SavedMore(Times(newc, BLANK) + Rest(e, k, inside), d[Kept(d, o)..], o);
    }
  }

  lemma PlaceKept(d: Text, k: nat, inside: bool, o: Options)
    requires k < Kept(d, o)
    ensures Place(d[..Kept(d, o)], k, inside) == Place(d, k, inside) && d[..Kept(d, o)][..k] == d[..k]
  {
    assert d[..Kept(d, o)][..k] == d[..k];
  }

  lemma RestKept(d: Text, k: nat, inside: bool, newc: nat, o: Options)
    requires k < Kept(d, o)
    ensures var e := d[..Kept(d, o)];
            && AllWhite(d[Kept(d, o)..])
            && Times(newc, BLANK) + Rest(d, k, inside) == Times(newc, BLANK) + Rest(e, k, inside) + d[Kept(d, o)..]
  {
    hide Times, Rest;
    var e, t := d[..Kept(d, o)], d[Kept(d, o)..];
    assert d == e + t;
    RestCat(e, t, k, inside);
    Regather(Times(newc, BLANK), Rest(e, k, inside), t);
  }

  lemma RestCat(e: Text, t: Text, k: nat, inside: bool)
    requires k < |e|
    ensures Rest(e + t, k, inside) == Rest(e, k, inside) + t
  {
    DropCat(e, t, k);
    DropCat(e, t, k + 1);
    Regather([e[k] + 64], e[k + 1..], t);
  }

  lemma DropCat(x: Text, y: Text, k: nat)
    requires k <= |x|
    ensures (x + y)[k..] == x[k..] + y
  {
  }

  lemma Regather(x: Text, y: Text, z: Text)
    ensures x + (y + z) == x + y + z
  {
  }

  /** The place is among what is stripped. */
  lemma StrippedBefore(d: Text, k: nat, newc: nat, left: Text, o: Options)
    requires Writable(d, o) && OneMode(o) && Kept(d, o) <= k < |d|
    requires k == Kept(d, o) ==> left == []
    requires k > Kept(d, o) ==>
               |left| == 1 && if d[k] == BLANK || |EscAll(d[..k])| < |d| then White(left[0]) else left[0] == ESC
    ensures var s, t, col := EscAll(d), EscAll(d[..Kept(d, o)]), |EscAll(d[..k])|;
            && col <= |s| && Saved(t, o) == Saved(s[..col], o)
            && (Saved(Times(newc, BLANK) + left, o) == Saved(Times(newc, BLANK) + s[col..], o)
                <==> k == Kept(d, o) || d[k] == BLANK || |EscAll(d[..k])| < |d|)
  {
    hide EscAll, Saved, Writable, Times;
    var j := Kept(d, o);
    PlaceWithin(d, k, false);
    assert EscAll(d[..k]) + [] == EscAll(d[..k]);
    StrippedFront(d, k, o);
    RestStripped(d, k, newc, o);
    if k == j || White(left[0]) {
      WhiteAfter(newc, left);
      SavedWhite(Times(newc, BLANK) + left, o);
    } else {
      OneMoreEsc(newc, left, o);
    }
    if k > j && !(d[k] == BLANK || |EscAll(d[..k])| < |d|) {
      assert left[0] == ESC && !White(ESC);
    }
  }

  lemma StrippedFront(d: Text, k: nat, o: Options)
    requires Writable(d, o) && Kept(d, o) <= k < |d|
    ensures Saved(EscAll(d[..Kept(d, o)]), o) == Saved(EscAll(d[..k]), o) && !o.upnostrip
  {
    hide EscAll, Saved, TabsKeep;
    var j := Kept(d, o);
    var e, w := d[..j], d[j..k];
    assert d[..k] == e + w && d == (e + w) + d[k..];
    FinePart(e + w, d[k..], o);
    KeptMore(e, w, o);
    KeptAgain(d, j, o);
    SavedMore(e, w, o);
  }

  /** The rest, if all of it is white, is saved as nothing. */
  lemma RestStripped(d: Text, k: nat, newc: nat, o: Options)
    requires Writable(d, o) && Kept(d, o) <= k < |d|
    ensures Saved(Times(newc, BLANK) + EscAll(d[k..]), o) == []
  {
    hide EscAll, Saved, TabsKeep;
    var x := Times(newc, BLANK) + d[k..];
    assert d == d[..k] + d[k..];
    FinePart(d[..k], d[k..], o);
    assert AllWhite(x);
    NothingKept(x, o);
    EscTimes(newc, d[k..]);
    NothingKeeps();
    assert Writable(x, o);
    SavedSays(x, o);
    EscNothing();
  }

  lemma NothingKeeps()
    ensures TabsKeep([], 0, 0, 0)
  {
  }

  lemma NothingKept(x: Text, o: Options)
    requires AllWhite(x) && !o.upnostrip
    ensures Kept(x, o) == 0 && x[..Kept(x, o)] == []
  {
  }

  lemma OneMoreEsc(newc: nat, left: Text, o: Options)
    requires |left| == 1 && left[0] == ESC && OneMode(o)
    ensures Saved(Times(newc, BLANK) + left, o) != []
  {
    hide EscAll, Saved;
    EscPrinting(Times(newc, BLANK));
    assert left == [ESC];
    SavedEndsEsc(Times(newc, BLANK), o) by {
      var e := Times(newc, BLANK) + [ESC];
      PlainKeepsEsc(newc);
      assert e[..Kept(e, o)] == e;
    }
  }

  lemma {:induction false} BlanksKeep(n: nat, c: int, a: nat, cn: nat)
    ensures TabsKeep(Times(n, BLANK) + [c], a, cn, 0)
    decreases n
  {
    var d := Times(n, BLANK) + [c];
    if n > 0 {
      assert d[1..] == Times(n - 1, BLANK) + [c];
      BlanksKeep(n - 1, c, a, cn + 1);
    } else {
      assert d[1..] == [];
    }
  }

  lemma PlainKeepsEsc(n: nat)
    ensures TabsKeep(Times(n, BLANK) + [ESC], 0, 0, 0)
  {
    BlanksKeep(n, ESC, 0, 0);
  }

  lemma WhiteAfter(newc: nat, left: Text)
    requires AllWhite(left)
    ensures AllWhite(Times(newc, BLANK) + left)
  {
  }

  lemma FrontHalf(s: Text)
    ensures Padded(s + [ESC, ESC], |s| + 1)[..|s| + 1] == s + [ESC]
  {
  }

  lemma InsideEscape(d: Text, k: nat)
    requires k < |d| && 0 <= d[k] < 32
    ensures EscAll(d) == EscAll(d[..k]) + [ESC] + EscAll([d[k] + 64] + d[k + 1..])
    ensures EscAll([d[k] + 64] + d[k + 1..]) != []
  {
    hide EscAll, SevenBit;
    var c, a, b := d[k], d[..k], d[k + 1..];
    assert d == a + [c] + b;
    EscAllCat(a + [c], b);
    EscAllCat(a, [c]);
    EscOne(c);
    EscOne(c + 64);
    EscAllCat([c + 64], b);
    Regroup(EscAll(a), c + 64, EscAll(b));
  }

  lemma Regroup(x: Text, c: int, y: Text)
    ensures x + [ESC, c] + y == x + [ESC] + ([c] + y)
  {
  }

  /** At or beyond the end of the line nothing is split. */
  lemma NothingToSplit(f: File, line: nat, col: nat, nl: nat, newc: nat, o: Options)
    requires nl >= 1
    ensures Split(f, line, col, nl, newc, o) == f <==>
              line >= |f| || col >= |f[line]|
  {
    if line < |f| && col < |f[line]| {
      assert |Split(f, line, col, nl, newc, o)| == |f| + nl;
    }
  }

  lemma {:induction false} EscLong(d: Text)
    ensures |EscAll(d)| >= |d|
  {
    if d != [] {
      EscLong(d[1..]);
    }
  }

  // ----- the commands -----

  class Editor {
    const o: Options
    var file: File          // the lines as they are read into memory
    var cline: seq<int>     // the current line, up to ncline with its newline, and what lies beyond
    var ncline: int
    var clineno: int
    var have: bool          // cline is line clineno of the file
    var fcline: bool        // and has been changed
    var before: bool        // a newline has been put in front of the buffer

    constructor (file: File, o: Options)
      ensures Valid() && View() == file && this.o == o && !have && !before
    {
      this.o := o;
      this.file := file;
      cline, ncline, clineno, have, fcline, before := [NL], 1, -1, false, false, false;
    }

    ghost predicate Valid()
      reads this
    {
      && 1 <= ncline <= |cline| && (fcline ==> have && 0 <= clineno < |file|)
      && (have ==> 0 <= clineno)
      && (have && !fcline ==> cline[ncline - 1] == NL && cline[..ncline - 1] == LineOf(file, clineno))
    }

    ghost function Cur(): Text
      reads `cline, `ncline
      requires 1 <= ncline <= |cline|
    {
      cline[..ncline - 1]
    }

    /** The file once the change to the current line has been written to it. */
    ghost function View(): File
      reads this
      requires Valid()
    {
      if fcline then file[clineno := Saved(Cur(), o)] else file
    }

    /** putline: dechars works in place, so the front of cline is the line as written. */
    method PutLine()
      requires 1 <= ncline <= |cline| && 0 <= clineno < |file|
      modifies this
      ensures file == old(file[clineno := Saved(Cur(), o)]) && !fcline && !have
      ensures cline == old(Written(cline, ncline, o))
      ensures |cline| == old(|cline|) && ncline == old(ncline) && cline[ncline..] == old(cline[ncline..])
      ensures before == old(before)
    {
      hide Saved, Written;
      file := file[clineno := Saved(cline[..ncline - 1], o)];
      cline := Written(cline, ncline, o);
      fcline, have := false, false;
    }

    /** putline when ncline is 0 or less: the newline goes in front of the buffer, and the line is written up
        to the one there is. */
    method PutBefore(end: int)
      requires ncline <= 0 <= end < |cline| && 0 <= clineno < |file| && cline[end] == NL
      modifies this
      ensures file == old(file[clineno := Saved(cline[..end], o)]) && !fcline && !have && before
      ensures 1 <= ncline <= |cline|
    {
      hide Saved, Written;
      before := true;
      file := file[clineno := Saved(cline[..end], o)];
      cline := Written(cline, end + 1, o);
      fcline, have := false, false;
      ncline := 1;  // not looked at before the next line is read
    }

    /** The buffer once the current line has been written, if it needs to be. */
    ghost function Buffer(): seq<int>
      reads `cline, `ncline, `fcline
      requires 1 <= ncline <= |cline|
    {
      if fcline then Written(cline, ncline, o) else cline
    }

    /** GetLine, for a negative line number: the current line is written and forgotten. */
    method Flush()
      requires Valid()
      modifies this
      ensures Valid() && file == View() == old(View()) && !have && !fcline
      ensures !old(fcline) ==> cline == old(cline) && ncline == old(ncline)
      ensures cline == old(Buffer()) && before == old(before)
    {
      if fcline {
        PutLine();
      }
      have := false;
    }

    /** GetLine.  A line beyond the end is blank. */
    method GetLine(ln: int)
      requires Valid() && 0 <= ln
      modifies this
      ensures Valid() && View() == old(View()) && have && clineno == ln && |file| == old(|file|)
      ensures before == old(before)
      ensures !(old(have) && old(clineno) == ln) ==> !fcline && Cur() == LineOf(View(), ln)
      ensures old(have) && old(clineno) == ln && ln < |file| ==>
                ncline == old(ncline) && cline == old(cline) && file == old(file) && fcline == old(fcline)
      ensures !old(have) && !old(fcline) && ln < |file| ==> cline == Loaded(old(cline), file[ln]) && file == old(file)
    {
      hide Loaded;
      if ln >= |file| {
        if fcline {
          PutLine();
        }
        clineno, have, ncline, cline := ln, true, 1, Loaded(cline, []);
        return;
      }
      if have && ln == clineno {
        return;
      }
      if fcline {
        PutLine();
      }
      have, fcline, clineno := true, false, ln;
      cline := Loaded(cline, file[ln]);
      ncline := |file[ln]| + 1;
    }

    method Move(from: int, to: int, n: int)
      requires 0 <= n && 0 <= from && from + n <= |cline| && 0 <= to && to + n <= |cline|
      modifies `cline
      ensures cline == old(cline)[..to] + old(cline)[from..from + n] + old(cline)[to + n..]
    {
      cline := cline[..to] + cline[from..from + n] + cline[to + n..];
    }

    method Fill(at: int, n: int, c: int)
      requires 0 <= n && 0 <= at && at + n <= |cline|
      modifies `cline
      ensures cline == old(cline)[..at] + Times(n, c) + old(cline)[at + n..]
    {
      cline := cline[..at] + Times(n, c) + cline[at + n..];
    }

    /** excline: room for so many more characters. */
    method Excline(n: nat)
      modifies `cline
      ensures |cline| == old(|cline|) + n && cline[..old(|cline|)] == old(cline)
    {
      cline := cline + Times(n, 0);
    }

    /** putbks: n blanks at column col, beyond the end of the line too. */
    method PutBks(col0: int, n0: int)
      requires 1 <= ncline <= |cline| && 0 <= col0
      modifies `cline, `ncline, `fcline
      ensures 1 <= ncline <= |cline| && cline[ncline - 1] == old(cline[ncline - 1]) && fcline
      ensures Cur() == old(if n0 <= 0 then Cur() else Spread(Cur(), col0, n0))
    {
      hide Spread, Times;
      fcline := true;
      if n0 <= 0 {
        return;
      }
      var n, col := n0, col0;
      if col >= ncline {
        n := n + (col - (ncline - 1));
        col := ncline - 1;
      }
      SpreadAt(Cur(), col0, n0, col, n);
      OpenUp(col, n);
    }

    /** The part of putbks that makes room and moves the rest of the line. */
    method OpenUp(col: int, n: int)
      requires 1 <= ncline <= |cline| && 0 <= col < ncline && n > 0
      modifies `cline, `ncline
      ensures 1 <= ncline <= |cline| && cline[ncline - 1] == old(cline[ncline - 1])
      ensures Cur() == old(Cur()[..col] + Times(n, BLANK) + Cur()[col..])
    {
      hide Times;
      ncline := ncline + n;
      if |cline| <= ncline {
        Excline(n);
      }
      ghost var s, c := old(Cur()), cline;
      assert c[..|s|] == s;
      Opens(c, s, col, n);
      if ncline - col - n > 0 {
        Move(col, col + n, ncline - col - n);
      }
      assert cline == c[..col + n] + c[col..|s| + 1] + c[|s| + 1 + n..];
      Fill(col, n, BLANK);
    }

    /** extend: blank lines at the end of the file. */
    method Extend(ext: nat)
      modifies `file
      ensures file == old(file) + Empties(ext)
    {
      file := file + Empties(ext);
    }

    /** la_blank at line `at`. */
    method Blank(at: int, n: nat)
      requires 0 <= at <= |file|
      modifies `file
      ensures file == old(file)[..at] + Empties(n) + old(file)[at..]
    {
      file := file[..at] + Empties(n) + file[at..];
    }

    /** splitlines.  The line is read as it is, with a change not written yet, but written before it is split
        and read again; if that strips it of the column, what is left for the second part is `left`: nothing,
        or the character the buffer has in that column. */
    method SplitLines(line: int, col: int, nl: int, newc: int) returns (ghost left: Text)
      requires Valid() && 0 <= line && 0 <= col && 1 <= nl && 0 <= newc
      modifies this
      ensures Valid() && View() == SplitRead(old(View()), old(AsRead(line)), line, col, nl, newc, left, o)
      ensures var s := LineOf(old(View()), line);
              line < |old(View())| && |s| <= col < |old(AsRead(line))| ==>
                if col == |s| then left == []
                else old(have && fcline && clineno == line) && left == [old(Buffer()[col])]
    {
      hide Saved, SplitRead, Written, Empties, Loaded;
      left := [];
      if line >= |file| {
        NotSplit(View(), AsRead(line), line, col, nl, newc, left, o);
        return;
      }
      ghost var v, cur := View(), AsRead(line);
      GetLine(line);
      if col >= ncline - 1 {
        NotSplit(v, cur, line, col, nl, newc, left, o);
        return;
      }
      Flush();
      if line == |file| - 1 {
        Extend(nl);
        assert v[line + 1..] == [];
      } else {
        Blank(line + 1, nl);
      }
      assert file == v[..line + 1] + Empties(nl) + v[line + 1..];
      left := SplitAt(v, cur, line, col, nl, newc);
    }

    /** A line as it is read: the current line with its change. */
    ghost function AsRead(line: int): Text
      reads this
      requires Valid()
    {
      if have && clineno == line && line < |file| then Cur() else LineOf(View(), line)
    }

    /** splitlines, once there are blank lines after the line. */
    method SplitAt(ghost f: File, ghost cur: Text, line: int, col: int, nl: int, newc: int) returns (ghost left: Text)
      requires 1 <= ncline <= |cline| && !have && !fcline && 0 <= line < |f| && 0 <= col < |cur| < |cline| && 1 <= nl
      requires file == f[..line + 1] + Empties(nl) + f[line + 1..] && 0 <= newc
      modifies this
      ensures Valid() && View() == SplitRead(f, cur, line, col, nl, newc, left, o)
      ensures |f[line]| <= col ==> left == if col == |f[line]| then [] else [old(cline[col])]
    {
      hide Saved, SplitRead, Spread, Empties;
      assert file[line] == f[line] && line + nl < |file|;
      GetLine(line);
      ghost var front, back := CutInTwo(line, col);
      left := back;
      SplitIs(f, cur, line, col, nl, newc, left, o);
      SpreadNothing(back);
      KeepSecond(newc, line + nl);
    }

    /** The second part of a line that was split is the current line, at column newc. */
    method KeepSecond(newc: int, n: int)
      requires 1 <= ncline <= |cline| && !have && 0 <= n < |file| && 0 <= newc
      modifies this
      ensures Valid() && View() == old(file[n := Saved(if newc <= 0 then Cur() else Spread(Cur(), 0, newc), o)])
    {
      hide Saved, Spread;
      PutBks(0, newc);
      have := true;
      clineno := n;
    }

    /** The first part of the line is written; the second is left in cline. */
    method CutInTwo(line: int, col: int) returns (ghost front: Text, ghost back: Text)
      requires Valid() && have && !fcline && clineno == line < |file| && 0 <= col < |cline| - 1
      modifies this
      ensures !have && !fcline && file == old(file[line := Saved(front, o)])
      ensures 1 <= ncline <= |cline| && back == Cur()
      ensures var s := old(Cur());
              && front == (if col < |s| then s[..col] else s)
              && back == if col < |s| then s[col..] else if col == |s| then [] else [old(cline[col])]
    {
      hide Saved, Written;
      ghost var c, s := cline, Cur();
      var csave := cline[col];
      cline := cline[col := NL];
      var nsave := ncline;
      ncline := col + 1;
      fcline := true;
      assert cline[..col] == c[..col];
      SavedUpTo(s, c[..col], o);
      front := if col < |s| then s[..col] else s;
      assert col < |s| ==> c[..col] == s[..col];
      PutLine();
      assert cline[col + 1..] == c[col + 1..];
      back := MoveDown(col, nsave, csave, c);
    }

    /** What is left of the line in c from column col on, where a newline was put, is moved to the front. */
    method MoveDown(col: int, nsave: int, csave: int, ghost c: seq<int>) returns (ghost back: Text)
      requires 0 <= col < |c| - 1 && 1 <= nsave <= |c| == |cline| && cline[col + 1..] == c[col + 1..] && csave == c[col]
      modifies `cline, `ncline
      ensures 1 <= ncline <= |cline| && cline[..ncline - 1] == back
      ensures back == if col < nsave - 1 then c[..nsave - 1][col..] else if col == nsave - 1 then [] else [c[col]]
    {
      cline := cline[col := csave];
      assert cline[col..] == c[col..];
      ncline := nsave - col;
      if ncline <= 0 {
        ncline := 2;
      }
      assert cline[col..col + ncline] == cline[col..][..ncline] == c[col..][..ncline] == c[col..col + ncline];
      Move(col, 0, ncline);
      back := cline[..ncline - 1];
      assert back == c[col..col + ncline][..ncline - 1];
      assert col < nsave - 1 ==> c[col..nsave][..nsave - col - 1] == c[..nsave - 1][col..];
    }

    /** dojoin, not saving.  A newline is put in front of the buffer if and only if the column asked for is
        further beyond the end of the lower line than the upper one is long. */
    method DoJoin(line: int, col: int, nl0: int, newc: int)
      requires Valid() && 0 <= line && 0 <= col && 1 <= nl0 && 0 <= newc
      modifies this
      ensures Valid() && file == View() == Join(old(View()), line, col, nl0, newc, o)
      ensures var nl := if nl0 > old(|file|) - line then old(|file|) - line else nl0;
              before <==> old(before) || (line < old(|file|) && newc > |LineOf(old(View()), line + nl)| + col)
    {
      hide Saved, Join, JoinedLine, Written, Editor.Buffer, Loaded;
      Flush();
      ghost var f := file;
      if line >= |file| {
        NothingToJoin(f, line, col, nl0, newc, o);
        return;
      }
      var nl := if nl0 > |file| - line then |file| - line else nl0;
      JoinAt(line, col, nl, newc);
      CloseLines(line + 1, nl);
      JoinIs(f, line, col, nl0, newc, o);
    }

    /** dojoin, without closing the lines joined. */
    method JoinAt(line: int, col: int, nl: int, newc: int)
      requires Valid() && !have && !fcline && 0 <= line < |file| && 0 <= col && 1 <= nl && 0 <= newc
      modifies this
      ensures Valid() && !have && !fcline
      ensures file == old(file[line := Saved(JoinedLine(file[line], col, LineOf(file, line + nl), newc), o)])
      ensures before <==> old(before) || newc > |LineOf(old(file), line + nl)| + col
    {
      hide Saved, JoinedLine, LineOf, Written, Editor.Buffer, Loaded;
      LineWithin(file, line);
      GetLine(line + nl);
      var nl2 := ncline - newc;
      var l2 := EndOfLine(newc);
      ghost var t := LineOf(file, line + nl);
      GetLine(line);
      TackOn(col, newc, nl2, l2, t);
      fcline := true;
      if ncline >= 1 {
        Flush();
      } else {
        PutBefore(col);
      }
    }

    /** The line from column newc on, with its newline, if there is any of it. */
    method EndOfLine(newc: int) returns (l2: Text)
      requires 1 <= ncline <= |cline| && cline[ncline - 1] == NL && 0 <= newc
      ensures l2 == if ncline - newc > 1 then Cur()[newc..] + [NL] else []
    {
      var nl2 := ncline - newc;
      l2 := [];
      if nl2 > 1 {
        l2 := cline[newc..newc + nl2];
        assert cline[..ncline] == Cur() + [NL];
      }
    }

    /** The rest of the lower line, l2, put at column col of the current one. */
    method TackOn(col: int, newc: int, nl2: int, l2: Text, ghost t: Text)
      requires 1 <= ncline <= |cline| && cline[ncline - 1] == NL && 0 <= col && 0 <= newc
      requires nl2 == |t| + 1 - newc && l2 == if nl2 > 1 then t[newc..] + [NL] else []
      modifies `cline, `ncline
      ensures ncline <= |cline| && (ncline >= 1 <==> newc <= |t| + col)
      ensures if ncline >= 1 then cline[..ncline - 1] == JoinedLine(old(Cur()), col, t, newc)
              else col < |cline| && cline[col] == NL && cline[..col] == JoinedLine(old(Cur()), col, t, newc)
    {
      ghost var s := Cur();
      Excline(col + if nl2 > 1 then nl2 else 1);
      ghost var c := cline;
      assert c[..|s|] == s;
      var nl1 := if col < ncline - 1 then col else ncline - 1;
      if col - nl1 > 0 {
        Fill(nl1, col - nl1, BLANK);
      }
      PadFront(c, s, col, cline);
      hide Padded;
      if nl2 > 1 {
        cline := cline[..col] + l2 + cline[col + nl2..];
      } else {
        cline := cline[col := NL];
      }
      ncline := col + nl2;
    }

    /** ed, closing whole lines into no buffer. */
    method CloseLines(line: int, nlines0: int)
      requires Valid() && 0 <= line && 1 <= nlines0 && !have
      modifies this
      ensures Valid() && !have && !fcline && before == old(before)
      ensures var f := old(file); var gone := if nlines0 > |f| - line then |f| - line else nlines0;
              file == if line >= |f| then f else f[..line] + f[line + gone..]
    {
      Flush();
      var endgap := line - |file|;
      var nlines := if nlines0 < |file| - line then nlines0 else |file| - line;
      if endgap >= 0 {
        return;
      }
      file := file[..line] + file[line + nlines..];
    }
  }

  lemma LineWithin(f: File, n: nat)
    requires n < |f|
    ensures LineOf(f, n) == f[n]
  {
  }

  lemma NothingToJoin(f: File, line: nat, col: nat, nl: nat, newc: nat, o: Options)
    requires line >= |f|
    ensures Join(f, line, col, nl, newc, o) == f
  {
  }

  lemma JoinIs(f: File, line: nat, col: nat, nl0: nat, newc: nat, o: Options)
    requires line < |f| && nl0 >= 1
    ensures var nl := if nl0 > |f| - line then |f| - line else nl0;
            var gone := if nl > |f| - (line + 1) then |f| - (line + 1) else nl;
            var g := f[line := Saved(JoinedLine(f[line], col, LineOf(f, line + nl), newc), o)];
            Join(f, line, col, nl0, newc, o) == if line + 1 >= |g| then g else g[..line + 1] + g[line + 1 + gone..]
  {
    hide Saved, JoinedLine;
  }

  lemma SpreadNothing(s: Text)
    ensures Spread(s, 0, 0) == s
  {
  }

  /** A line is written up to its first newline. */
  lemma SavedUpTo(s: Text, x: Text, o: Options)
    requires |s| < |x| ==> x[..|s|] == s && x[|s|] == NL
    ensures |s| < |x| ==> Saved(x, o) == Saved(s, o)
  {
    hide Internal, Compressed, Decoded;
    if |s| < |x| {
      var rest := x[|s| + 1..] + [NL];
      assert x + [NL] == s + [NL] + rest;
      DecodedUpTo(s, rest);
    }
  }

  lemma {:induction false} DecodedUpTo(s: Text, rest: Text)
    ensures NL in s + [NL] + rest && NL in s + [NL] && Decoded(s + [NL] + rest) == Decoded(s + [NL])
    decreases |s|
  {
    var x, y := s + [NL] + rest, s + [NL];
    assert x[|s|] == NL && y[|s|] == NL;
    var h := Head(y);
    assert Head(x) == h;
    if h.0 != NL {
      assert x[h.1..] == s[h.1..] + [NL] + rest && y[h.1..] == s[h.1..] + [NL];
      DecodedUpTo(s[h.1..], rest);
    }
  }

  lemma NotSplit(f: File, cur: Text, line: nat, col: nat, nl: nat, newc: nat, left: Text, o: Options)
    requires nl >= 1 && (line >= |f| || col >= |cur|)
    ensures SplitRead(f, cur, line, col, nl, newc, left, o) == f
  {
  }

  lemma SplitIs(f: File, cur: Text, line: nat, col: nat, nl: nat, newc: nat, left: Text, o: Options)
    requires nl >= 1 && line < |f| && col < |cur|
    ensures var s := f[line];
            var front, back := if col < |s| then s[..col] else s, if col < |s| then s[col..] else left;
            var g := f[..line + 1] + Empties(nl) + f[line + 1..];
            var h := g[line := Saved(front, o)];
            SplitRead(f, cur, line, col, nl, newc, left, o) == h[line + nl := Saved(Spread(back, 0, newc), o)]
  {
    hide Saved;
    var back := if col < |f[line]| then f[line][col..] else left;
    assert Spread(back, 0, newc) == Times(newc, BLANK) + back;
  }

  /** n blanks put in the line s in a buffer, which has room. */
  lemma Opens(c: seq<int>, s: Text, col: nat, n: nat)
    requires col <= |s| && |s| + 1 + n <= |c| && c[..|s|] == s && n > 0
    ensures var m := c[..col + n] + c[col..|s| + 1] + c[|s| + 1 + n..];
            var r := m[..col] + Times(n, BLANK) + m[col + n..];
            && |m| == |r| == |c| && r[..|s| + n] == s[..col] + Times(n, BLANK) + s[col..] && r[|s| + n] == c[|s|]
  {
    var m := c[..col + n] + c[col..|s| + 1] + c[|s| + 1 + n..];
    var r := m[..col] + Times(n, BLANK) + m[col + n..];
    assert c[col..|s| + 1] == s[col..] + [c[|s|]];
    assert m[col + n..] == s[col..] + [c[|s|]] + c[|s| + 1 + n..];
    assert m[..col] == s[..col];
  }

  /** n blanks put in at column col. */
  function Spread(s: Text, col: nat, n: nat): Text {
    var p := Padded(s, col);
    p[..col] + Times(n, BLANK) + p[col..]
  }

  /** Beyond the end of the line, blanks are put at its end. */
  lemma SpreadAt(s: Text, col: nat, n: nat, col1: nat, n1: nat)
    requires if col > |s| then col1 == |s| && n1 == n + (col - |s|) else col1 == col && n1 == n
    ensures Spread(s, col, n) == s[..col1] + Times(n1, BLANK) + s[col1..]
  {
    if col > |s| {
      assert Times(col - |s|, BLANK) + Times(n, BLANK) == Times(n1, BLANK);
    }
  }
}
