/** The two forms of a line: the one in the file and the one in memory, in which a tab is blanks and a
    control character is the escape character and a letter. */
module LineCodec {

  type Text = seq<int>

  const BLANK := 32
  const TAB := 9
  const NL := 10
  const ESC := 127
  /** What the -tabs mode of dechars takes for the column of no blank. */
  const MAXLINE := 10000

  /** The flags in force when a line is read or written. */
  datatype Options = Options(upblanks: bool, uptabs: bool, litmode: bool, upnostrip: bool)

  /** n times c. */
  function Times(n: nat, c: int): (r: Text)
    ensures |r| == n && forall i :: 0 <= i < n ==> r[i] == c
  {
    seq(n, i => c)
  }

  // ----- from the file to memory -----

  /** What stands in memory for a character other than a blank made of a tab. */
  function Esc(c: int): (r: Text)
    ensures 1 <= |r| <= 2
  {
    if 32 <= c < 127 then [c] else if c == ESC then [ESC, ESC] else [ESC, c + 64]
  }

  function EscAll(d: Text): Text {
    if d == [] then [] else Esc(d[0]) + EscAll(d[1..])
  }

  /** A line in memory with one more character of the file. */
  function Enter(acc: Text, ch: int, lit: bool): Text {
    if 32 <= ch < 127 then acc + [ch]
    else if ch == TAB && !lit then acc + Times(8 - |acc| % 8, BLANK)
    else acc + Esc(ch)
  }

  function Entered(acc: Text, b: Text, lit: bool): Text
    decreases |b|
  {
    if b == [] then acc else Entered(Enter(acc, b[0], lit), b[1..], lit)
  }

  ghost predicate White(c: int) { c == BLANK || c == TAB }

  /** s without the blanks and tabs at its end. */
  function Strip(s: Text): (r: Text)
    ensures |r| <= |s| && r == s[..|r|]
    ensures r == [] || !White(r[|r| - 1])
    ensures forall i :: |r| <= i < |s| ==> White(s[i])
  {
    if s != [] && (s[|s| - 1] == BLANK || s[|s| - 1] == TAB) then Strip(s[..|s| - 1]) else s
  }

  /** The line in memory, without its newline, for the line b of the file. */
  function Internal(b: Text, o: Options): Text {
    var e := Entered([], b, o.litmode);
    if o.upnostrip then e else Strip(e)
  }

  // ----- from memory to the file -----

  /** The character at the head of s and how many places it takes. */
  function Head(s: Text): (r: (int, int))
    requires NL in s
    ensures 1 <= r.1 <= |s| && (r.0 != NL ==> NL in s[r.1..])
  {
    assert s[0] != NL ==> NL in s[1..];
    if s[0] == ESC && s[1] != NL then
      assert NL in s[2..];
      (if s[1] == ESC then ESC else s[1] % 32, 2)
    else (s[0], 1)
  }

  /** What a line in memory says, up to a newline or a ^J. */
  function Decoded(s: Text): Text
    requires NL in s
    decreases |s|
  {
    var h := Head(s);
    if h.0 == NL then [] else [h.0] + Decoded(s[h.1..])
  }

  /** The number of blanks at the start of d. */
  function Lead(d: Text): (k: nat)
    ensures k <= |d| && (forall i :: 0 <= i < k ==> d[i] == BLANK) && (k < |d| ==> d[k] != BLANK)
  {
    if d == [] || d[0] != BLANK then 0 else 1 + Lead(d[1..])
  }

  /** d with tabs for the blanks at its start. */
  function Leading(d: Text): (r: Text)
    ensures |r| <= |d|
  {
    Times(Lead(d) / 8, TAB) + Times(Lead(d) % 8, BLANK) + d[Lead(d)..]
  }

  function NextTab(x: int): (r: int)
    ensures x < r <= x + 8 && r % 8 == 0
  {
    if x % 8 == 0 then x + 8 else x - x % 8 + 8
  }

  /** Tabs and blanks that lead from column a to column b. */
  function TabRun(a: nat, b: nat): (r: Text)
    requires a <= b
    ensures |r| <= b - a
    decreases b - a
  {
    if NextTab(a) <= b then [TAB] + TabRun(NextTab(a), b) else Times(b - a, BLANK)
  }

  /** d from column cn on, with tabs in place of blanks wherever they reach a tab stop, when the columns
      from a to cn are blanks not written yet. */
  function Tabbed(d: Text, a: nat, cn: nat): (r: Text)
    requires a <= cn
    decreases |d|
  {
    if d == [] then TabRun(a, cn)
    else if d[0] == BLANK then Tabbed(d[1..], a, cn + 1)
    else TabRun(a, cn) + [d[0]] + Tabbed(d[1..], cn + 1, cn + 1)
  }

  function Compressed(d: Text, o: Options): Text {
    if o.upblanks then d else if o.uptabs then Tabbed(d, 0, 0) else if o.litmode then d else Leading(d)
  }

  /** The line of the file, without its newline, for the line s in memory, which has its newline. */
  function External(s: Text, o: Options): Text
    requires NL in s
  {
    var c := Compressed(Decoded(s), o);
    if o.upnostrip then c else Strip(c)
  }

  // ----- what the line says -----

  /** Whether d does not end with a blank. */
  ghost predicate Dark(d: Text) { d == [] || d[|d| - 1] != BLANK }

  ghost predicate SevenBit(b: Text) { forall i :: 0 <= i < |b| ==> 0 <= b[i] < 128 && b[i] != NL }

  ghost predicate NoTabs(d: Text) { forall i :: 0 <= i < |d| ==> d[i] != TAB }

  /** Nothing but printing characters and tabs. */
  ghost predicate NoControls(b: Text) { forall i :: 0 <= i < |b| ==> 32 <= b[i] < 127 || b[i] == TAB }

  /** b with its tabs expanded, but no escapes, from column col of the line in memory. */
  function Plain(b: Text, col: nat, lit: bool): Text
    decreases |b|
  {
    if b == [] then []
    else if b[0] == TAB && !lit then Times(8 - col % 8, BLANK) + Plain(b[1..], col + (8 - col % 8), lit)
    else [b[0]] + Plain(b[1..], col + |Esc(b[0])|, lit)
  }

  lemma {:induction false} EscAllCat(x: Text, y: Text)
    ensures EscAll(x + y) == EscAll(x) + EscAll(y)
  {
    if x == [] {
      assert x + y == y;
    } else {
      assert (x + y)[1..] == x[1..] + y;
      EscAllCat(x[1..], y);
    }
  }

  lemma {:induction false} EscPrinting(d: Text)
    requires forall i :: 0 <= i < |d| ==> 32 <= d[i] < 127
    ensures EscAll(d) == d
  {
    if d != [] {
      EscPrinting(d[1..]);
    }
  }

  lemma {:induction false} PlainSays(b: Text, col: nat, lit: bool)
    requires SevenBit(b)
    ensures SevenBit(Plain(b, col, lit)) && (!lit ==> NoTabs(Plain(b, col, lit)))
    ensures lit ==> Plain(b, col, lit) == b
    ensures NoTabs(b) ==> Plain(b, col, lit) == b
    ensures !lit && NoControls(b) ==> NoControls(Plain(b, col, lit))
  {
    if b != [] {
      PlainSays(b[1..], if b[0] == TAB && !lit then col + (8 - col % 8) else col + |Esc(b[0])|, lit);
    }
  }

  /** The plain characters that c adds to a line in memory. */
  function Adds(c: int, col: nat, lit: bool): Text {
    if c == TAB && !lit then Times(8 - col % 8, BLANK) else [c]
  }

  lemma EnterAdds(acc: Text, c: int, lit: bool)
    ensures Enter(acc, c, lit) == acc + EscAll(Adds(c, |acc|, lit))
  {
    EscOne(c);
    EscPrinting(Times(8 - |acc| % 8, BLANK));
  }

  lemma PlainAdds(b: Text, col: nat, lit: bool)
    requires b != []
    ensures var t := Adds(b[0], col, lit); Plain(b, col, lit) == t + Plain(b[1..], col + |EscAll(t)|, lit)
  {
    EscOne(b[0]);
    EscPrinting(Times(8 - col % 8, BLANK));
  }

  lemma {:induction false} EnteredPlain(acc: Text, b: Text, lit: bool)
    requires SevenBit(b)
    ensures Entered(acc, b, lit) == acc + EscAll(Plain(b, |acc|, lit))
    decreases |b|
  {
    hide Enter, Plain, Adds, EscAll;
    if b == [] {
      EscNothing();
      PlainNothing(|acc|, lit);
    } else {
      var next := Enter(acc, b[0], lit);
      var t, p := Adds(b[0], |acc|, lit), Plain(b[1..], |next|, lit);
      EnterAdds(acc, b[0], lit);
      PlainAdds(b, |acc|, lit);
      EnteredPlain(next, b[1..], lit);
      EscAllCat(t, p);
      assert acc + (EscAll(t) + EscAll(p)) == next + EscAll(p);
    }
  }

  lemma PlainNothing(col: nat, lit: bool)
    ensures Plain([], col, lit) == []
  {
  }

  lemma EscOne(c: int)
    ensures EscAll([c]) == Esc(c) && (32 <= c < 127 ==> Esc(c) == [c])
  {
  }

  lemma {:induction false} EnteredCat(acc: Text, x: Text, y: Text, lit: bool)
    ensures Entered(acc, x + y, lit) == Entered(Entered(acc, x, lit), y, lit)
    decreases |x|
  {
    if x == [] {
      assert x + y == y;
    } else {
      assert (x + y)[1..] == x[1..] + y;
      EnteredCat(Enter(acc, x[0], lit), x[1..], y, lit);
    }
  }

  lemma HeadEsc(c: int, t: Text)
    requires 0 <= c < 128 && c != NL && NL in t
    ensures var s := Esc(c) + t; NL in s && Head(s) == (c, |Esc(c)|) && s[|Esc(c)|..] == t
  {
    var s := Esc(c) + t;
    if c == ESC {
      assert s[0] == ESC && s[1] == ESC;
    } else if !(32 <= c < 127) {
      assert s[0] == ESC && s[1] == c + 64;
    } else {
      assert s[0] == c;
    }
  }

  lemma {:induction false} DecodedEsc(d: Text)
    requires SevenBit(d)
    ensures NL in EscAll(d) + [NL] && Decoded(EscAll(d) + [NL]) == d
  {
    hide Esc, Head;
    var s := EscAll(d) + [NL];
    assert s[|s| - 1] == NL;
    if d != [] {
      var t := EscAll(d[1..]) + [NL];
      DecodedEsc(d[1..]);
      HeadEsc(d[0], t);
      assert s == Esc(d[0]) + t;
    } else {
      assert s == [NL] && Head(s) == (NL, 1) by { NewlineHead(); }
    }
  }

  lemma NewlineHead()
    ensures Head([NL]) == (NL, 1)
  {
  }

  lemma EscNothing()
    ensures EscAll([]) == []
  {
  }

  lemma EscLast(x: Text, c: int)
    requires 0 <= c < 128
    ensures var e := x + Esc(c);
            if c == BLANK then e[..|e| - 1] == x && e[|e| - 1] == BLANK else Strip(e) == e
  {
  }

  lemma {:induction false} StripEsc(d: Text) returns (k: nat)
    requires SevenBit(d)
    ensures k <= |d| && Strip(EscAll(d)) == EscAll(d[..k])
    ensures (forall i :: k <= i < |d| ==> d[i] == BLANK) && (k > 0 ==> d[k - 1] != BLANK)
  {
    hide Esc, EscAll, Strip;
    k := |d|;
    assert d[..k] == d;
    if d == [] {
      EscNothing();
      StripNothing([]);
      return;
    }
    var n := |d| - 1;
    assert d == d[..n] + [d[n]];
    EscAllCat(d[..n], [d[n]]);
    EscOne(d[n]);
    EscLast(EscAll(d[..n]), d[n]);
    if d[n] == BLANK {
      k := StripEsc(d[..n]);
      assert d[..n][..k] == d[..k];
      StripBlank(EscAll(d));
    }
  }

  lemma StripBlank(s: Text)
    requires s != [] && s[|s| - 1] == BLANK
    ensures Strip(s) == Strip(s[..|s| - 1])
  {
  }

  /** What the line in memory says: the characters of the file with the tabs expanded, less the blanks at
      the end when those are stripped. */
  lemma InternalSays(b: Text, o: Options) returns (d: Text)
    requires SevenBit(b)
    ensures Internal(b, o) == EscAll(d) && SevenBit(d) && (!o.litmode ==> NoTabs(d))
    ensures !o.upnostrip ==> Dark(d)
    ensures o.upnostrip ==> d == Plain(b, 0, o.litmode)
    ensures |d| <= |Plain(b, 0, o.litmode)| && d == Plain(b, 0, o.litmode)[..|d|]
    ensures forall i :: |d| <= i < |Plain(b, 0, o.litmode)| ==> Plain(b, 0, o.litmode)[i] == BLANK
  {
    hide Plain, EscAll, Entered, Strip;
    var p := Plain(b, 0, o.litmode);
    EnteredPlain([], b, o.litmode);
    PlainSays(b, 0, o.litmode);
    assert [] + EscAll(p) == EscAll(p);
    if o.upnostrip {
      d := p;
    } else {
      d := StripSays(p);
    }
  }

  lemma StripSays(p: Text) returns (d: Text)
    requires SevenBit(p)
    ensures Strip(EscAll(p)) == EscAll(d) && SevenBit(d) && (NoTabs(p) ==> NoTabs(d)) && Dark(d)
    ensures |d| <= |p| && d == p[..|d|] && forall i :: |d| <= i < |p| ==> p[i] == BLANK
  {
    hide EscAll, Strip;
    var k := StripEsc(p);
    d := p[..k];
  }

  // ----- reading back what was written -----

  lemma {:induction false} EnterTabs(acc: Text, k: nat)
    requires |acc| % 8 == 0
    ensures Entered(acc, Times(k, TAB), false) == acc + Times(8 * k, BLANK)
    decreases k
  {
    if k > 0 {
      assert Times(k, TAB)[1..] == Times(k - 1, TAB);
      EnterTabs(acc + Times(8, BLANK), k - 1);
    }
  }

  /** The default form of a line is read back as the line it was made from. */
  lemma LeadingReads(d: Text)
    requires SevenBit(d) && NoTabs(d)
    ensures Entered([], Leading(d), false) == EscAll(d)
  {
    hide EscAll, Entered, Plain, Lead;
    var q, m := Lead(d) / 8, Lead(d) % 8;
    assert Lead(d) == 8 * q + m;
    var t, rest := Times(q, TAB), Times(m, BLANK) + d[Lead(d)..];
    var front := Times(8 * q, BLANK);
    assert Leading(d) == t + rest;
    assert d == front + rest;
    assert SevenBit(rest) && NoTabs(rest);
    hide Leading, SevenBit, NoTabs;
    EnteredCat([], t, rest, false);
    EnterTabs([], q);
    assert [] + front == front;
    EnteredPlain(front, rest, false);
    PlainSays(rest, |front|, false);
    EscPrinting(front);
    EscAllCat(front, rest);
  }

  // ----- the -tabs form -----

  /** The blanks that a run written between columns a and b is read back as, when it is read `shift` columns
      further right. */
  function ReadWidth(a: nat, b: nat, shift: nat): nat
    requires a <= b
  {
    if NextTab(a) <= b then NextTab(a + shift) - (a + shift) + (b - NextTab(a)) else b - a
  }

  /** A run has no tab, or is read at columns that are to the tab stops as those it was written at. */
  predicate RunKeeps(a: nat, b: nat, shift: nat) {
    NextTab(a) <= b ==> shift % 8 == 0
  }

  /** Every run of blanks of d, from column cn on, that reaches a tab stop has a multiple of eight escapes
      before it; the blanks from a to cn belong to the first run, and `shift` escapes came before. */
  predicate TabsKeep(d: Text, a: nat, cn: nat, shift: nat)
    decreases |d|
  {
    if d == [] then RunKeeps(a, cn, shift)
    else if d[0] == BLANK then TabsKeep(d[1..], a, cn + 1, shift)
    else RunKeeps(a, cn, shift) && TabsKeep(d[1..], cn + 1, cn + 1, shift + |Esc(d[0])| - 1)
  }

  /** Without control characters there are no escapes. */
  lemma {:induction false} PlainKeeps(d: Text, a: nat, cn: nat)
    requires forall i :: 0 <= i < |d| ==> 32 <= d[i] < 127
    ensures TabsKeep(d, a, cn, 0)
    decreases |d|
  {
    if d != [] {
      PlainKeeps(d[1..], if d[0] == BLANK then a else cn + 1, cn + 1);
    }
  }

  lemma WidthKept(a: nat, b: nat, shift: nat)
    requires a <= b
    ensures ReadWidth(a, b, shift) == b - a <==> RunKeeps(a, b, shift)
  {
  }

  lemma {:induction false} TabRunReads(acc: Text, a: nat, b: nat, shift: nat)
    requires |acc| == a + shift && a <= b
    ensures Entered(acc, TabRun(a, b), false) == acc + Times(ReadWidth(a, b, shift), BLANK)
    decreases b - a
  {
    var n := NextTab(a);
    if n <= b {
      var t := Times(8 - |acc| % 8, BLANK);
      assert TabRun(a, b)[1..] == TabRun(n, b);
      TabRunReads(acc + t, n, b, |acc| + |t| - n);
      WidthKept(n, b, |acc| + |t| - n);
      TimesJoin(acc, |t|, b - n);
    } else {
      EnteredPlain(acc, Times(b - a, BLANK), false);
      PlainSays(Times(b - a, BLANK), |acc|, false);
      EscPrinting(Times(b - a, BLANK));
    }
  }

  lemma TimesJoin(acc: Text, m: nat, n: nat)
    ensures acc + Times(m, BLANK) + Times(n, BLANK) == acc + Times(m + n, BLANK)
  {
  }

  lemma {:induction false} EnteredExtends(acc: Text, b: Text, lit: bool)
    ensures |acc| <= |Entered(acc, b, lit)| && Entered(acc, b, lit)[..|acc|] == acc
    decreases |b|
  {
    if b != [] {
      EnteredExtends(Enter(acc, b[0], lit), b[1..], lit);
    }
  }

  /** Different numbers of blanks before something else make different lines. */
  lemma BlanksDiffer(acc: Text, m: nat, n: nat, x: Text, y: Text)
    requires m != n && (x != [] ==> x[0] != BLANK) && (y != [] ==> y[0] != BLANK) && (x == [] <==> y == [])
    ensures acc + Times(m, BLANK) + x != acc + Times(n, BLANK) + y
  {
    var s, t := acc + Times(m, BLANK) + x, acc + Times(n, BLANK) + y;
    if x == [] {
      assert |s| != |t|;
    } else {
      var i := |acc| + if m < n then m else n;
      assert s[i] != t[i];
    }
  }

  /** One character that is not a blank, with what is read before it. */
  lemma ReadsPast(acc: Text, a: nat, cn: nat, shift: nat, c: int, t: Text)
    requires |acc| == a + shift && a <= cn && c != TAB
    ensures Entered(acc, TabRun(a, cn) + [c] + t, false)
         == Entered(acc + Times(ReadWidth(a, cn, shift), BLANK) + Esc(c), t, false)
  {
    hide TabRun;
    TabRunReads(acc, a, cn, shift);
    EnteredCat(acc, TabRun(a, cn) + [c], t, false);
    EnteredCat(acc, TabRun(a, cn), [c], false);
    var upto := acc + Times(ReadWidth(a, cn, shift), BLANK);
    assert [c][1..] == [] && Entered(upto, [c], false) == Enter(upto, c, false);
    EscOne(c);
  }

  /** The -tabs form is read back as the line it was made from exactly when its runs keep. */
  lemma {:induction false} TabbedReads(acc: Text, d: Text, a: nat, cn: nat, shift: nat)
    requires SevenBit(d) && NoTabs(d) && |acc| == a + shift && a <= cn
    ensures Entered(acc, Tabbed(d, a, cn), false) == acc + Times(cn - a, BLANK) + EscAll(d)
            <==> TabsKeep(d, a, cn, shift)
    decreases |d|
  {
    hide Entered, TabRun, EscAll, Esc;
    WidthKept(a, cn, shift);
    if d == [] {
      TabRunReads(acc, a, cn, shift);
      EscNothing();
      if ReadWidth(a, cn, shift) != cn - a {
        BlanksDiffer(acc, ReadWidth(a, cn, shift), cn - a, [], []);
      }
    } else if d[0] == BLANK {
      TabbedReads(acc, d[1..], a, cn + 1, shift);
      BlankFirst(acc, d, cn - a);
    } else {
      var c, rest := d[0], d[1..];
      var t := Tabbed(rest, cn + 1, cn + 1);
      var m := ReadWidth(a, cn, shift);
      var upto := acc + Times(m, BLANK) + Esc(c);
      ReadsPast(acc, a, cn, shift, c, t);
      EscFirst(d);
      if m == cn - a {
        TabbedReads(upto, rest, cn + 1, cn + 1, shift + |Esc(c)| - 1);
        OtherFirst(acc, Times(m, BLANK), Esc(c), EscAll(rest));
      } else {
        EnteredExtends(upto, t, false);
        var z := Entered(upto, t, false)[|upto|..];
        assert Entered(upto, t, false) == acc + Times(m, BLANK) + (Esc(c) + z);
        BlanksDiffer(acc, m, cn - a, Esc(c) + z, EscAll(d));
      }
    }
  }

  lemma EscFirst(d: Text)
    requires d != [] && SevenBit(d) && d[0] != BLANK
    ensures EscAll(d) == Esc(d[0]) + EscAll(d[1..]) && |Esc(d[0])| >= 1 && Esc(d[0])[0] != BLANK
  {
  }

  lemma BlankFirst(acc: Text, d: Text, n: nat)
    requires d != [] && d[0] == BLANK
    ensures acc + Times(n + 1, BLANK) + EscAll(d[1..]) == acc + Times(n, BLANK) + EscAll(d)
  {
    EscOne(BLANK);
    assert Times(n + 1, BLANK) == Times(n, BLANK) + [BLANK];
    assert EscAll(d) == [BLANK] + EscAll(d[1..]);
  }

  lemma OtherFirst(acc: Text, b: Text, e: Text, rest: Text)
    ensures acc + b + e + Times(0, BLANK) + rest == acc + b + (e + rest)
  {
  }

  /** A line that ends with a character that is not stripped. */
  lemma EnteredEnds(b: Text)
    requires SevenBit(b) && (b == [] || (b[|b| - 1] != BLANK && b[|b| - 1] != TAB))
    ensures Strip(Entered([], b, false)) == Entered([], b, false)
  {
    if b != [] {
      var n := |b| - 1;
      assert b == b[..n] + [b[n]];
      EnteredCat([], b[..n], [b[n]], false);
      var upto := Entered([], b[..n], false);
      assert [b[n]][1..] == [] && Entered(upto, [b[n]], false) == Enter(upto, b[n], false);
      EscOne(b[n]);
      EscLast(upto, b[n]);
    }
  }

  lemma {:induction false} TabbedEnds(d: Text, a: nat, cn: nat)
    requires a <= cn && d != [] && d[|d| - 1] != BLANK
    ensures var r := Tabbed(d, a, cn); r != [] && r[|r| - 1] == d[|d| - 1]
    decreases |d|
  {
    if |d| > 1 {
      TabbedEnds(d[1..], if d[0] == BLANK then a else cn + 1, cn + 1);
    }
  }

  /** Stripping what is written takes nothing off a line that was stripped when it was read. */
  lemma CompressedEnds(d: Text, o: Options)
    requires NoTabs(d) && Dark(d)
    ensures Strip(Compressed(d, o)) == Compressed(d, o)
  {
    if d == [] {
      assert Compressed(d, o) == [];
    } else {
      TabbedEnds(d, 0, 0);
      var r := Compressed(d, o);
      assert r != [] && r[|r| - 1] == d[|d| - 1];
    }
  }

  /** What a line of the file says in memory. */
  function Said(b: Text, o: Options): Text {
    var p := Plain(b, 0, o.litmode);
    if o.upnostrip then p else Undarkened(p)
  }

  /** p without the blanks at its end. */
  function Undarkened(p: Text): (r: Text)
    ensures |r| <= |p| && r == p[..|r|] && Dark(r) && forall i :: |r| <= i < |p| ==> p[i] == BLANK
  {
    if p != [] && p[|p| - 1] == BLANK then Undarkened(p[..|p| - 1]) else p
  }

  lemma UndarkenedUnique(p: Text, d: Text)
    requires |d| <= |p| && d == p[..|d|] && Dark(d) && forall i :: |d| <= i < |p| ==> p[i] == BLANK
    ensures d == Undarkened(p)
  {
  }

  ghost predicate Stable(b: Text, o: Options)
    requires NL in Internal(b, o) + [NL]
  {
    Internal(External(Internal(b, o) + [NL], o), o) == Internal(b, o)
  }

  /** A line read, written and read again is what it was the first time: in default and -blanks mode for
      every line, in -tabs mode exactly if its runs keep, when it is one the loop does right on. */
  lemma SavedLineIsStable(b: Text, o: Options)
    requires SevenBit(b) && !o.litmode
    ensures NL in Internal(b, o) + [NL]
    ensures o.upblanks || !o.uptabs ==> Stable(b, o)
    ensures o.uptabs && !o.upblanks && Within(Said(b, o), 0, 0) ==> (Stable(b, o) <==> TabsKeep(Said(b, o), 0, 0, 0))
  {
    hide Within, Decoded, Strip, Leading, Tabbed, EscAll, Entered, Plain, TabsKeep;
    var d := InternalSays(b, o);
    if !o.upnostrip {
      UndarkenedUnique(Plain(b, 0, false), d);
    }
    DecodedEsc(d);
    if !o.upnostrip {
      CompressedEnds(d, o);
    }
    var c := Compressed(d, o);
    assert External(Internal(b, o) + [NL], o) == c;
    ReadsWhole(d, c, o);
  }

  /** Lines without control characters keep, when the loop, if it is used, does right on them. */
  lemma ControlFreeIsStable(b: Text, o: Options)
    requires SevenBit(b) && NoControls(b) && !o.litmode
    requires o.uptabs && !o.upblanks ==> Within(Said(b, o), 0, 0)
    ensures NL in Internal(b, o) + [NL] && Stable(b, o)
  {
    hide Within, Stable, TabsKeep, Undarkened, Plain;
    SavedLineIsStable(b, o);
    PlainSays(b, 0, false);
    PlainKeeps(Said(b, o), 0, 0);
  }

  /** What is read back is not stripped any further. */
  lemma ReadsWhole(d: Text, c: Text, o: Options)
    requires SevenBit(d) && NoTabs(d) && !o.litmode && (!o.upnostrip ==> Dark(d)) && c == Compressed(d, o)
    ensures o.upblanks || !o.uptabs ==> Internal(c, o) == EscAll(d)
    ensures o.uptabs && !o.upblanks ==> (Internal(c, o) == EscAll(d) <==> TabsKeep(d, 0, 0, 0))
  {
    hide Strip, Leading, EscAll, Entered, Plain, TabsKeep;
    if o.upblanks {
      EnteredPlain([], c, false);
      PlainSays(c, 0, false);
    } else if o.uptabs {
      TabbedReads([], d, 0, 0, 0);
      assert [] + Times(0, BLANK) + EscAll(d) == EscAll(d);
      TabbedSevenBit(d, 0, 0);
      if d != [] && !o.upnostrip {
        TabbedEnds(d, 0, 0);
      }
    } else {
      LeadingReads(d);
      LeadingSevenBit(d);
      if d != [] && !o.upnostrip {
        LeadingEnds(d);
      }
    }
    if !o.upnostrip {
      if d == [] {
        CompressedNothing(o);
      }
      EnteredEnds(c);
    }
  }

  lemma CompressedNothing(o: Options)
    ensures Compressed([], o) == []
  {
  }

  lemma LeadingEnds(d: Text)
    requires d != [] && d[|d| - 1] != BLANK
    ensures Leading(d) != [] && Leading(d)[|Leading(d)| - 1] == d[|d| - 1]
  {
  }

  lemma LeadingSevenBit(d: Text)
    requires SevenBit(d)
    ensures SevenBit(Leading(d))
  {
  }

  lemma {:induction false} RunSevenBit(a: nat, b: nat)
    requires a <= b
    ensures SevenBit(TabRun(a, b))
    decreases b - a
  {
    if NextTab(a) <= b {
      RunSevenBit(NextTab(a), b);
    }
  }

  lemma {:induction false} TabbedSevenBit(d: Text, a: nat, cn: nat)
    requires SevenBit(d) && a <= cn
    ensures SevenBit(Tabbed(d, a, cn))
    decreases |d|
  {
    RunSevenBit(a, cn);
    if d != [] {
      TabbedSevenBit(d[1..], if d[0] == BLANK then a else cn + 1, cn + 1);
    }
  }

  /** In literal mode with nothing stripped, a line is written exactly as it was read. */
  lemma LiteralIsExact(b: Text, o: Options)
    requires SevenBit(b) && o.litmode && o.upnostrip && (o.upblanks || !o.uptabs)
    ensures External(Internal(b, o) + [NL], o) == b
  {
    var d := InternalSays(b, o);
    PlainSays(b, 0, true);
    DecodedEsc(d);
  }

  lemma EscInjective(x: Text, y: Text)
    requires SevenBit(x) && SevenBit(y) && EscAll(x) == EscAll(y)
    ensures x == y
  {
    hide EscAll, Decoded;
    DecodedEsc(x);
    DecodedEsc(y);
  }

  /** k is where the blanks at the end of b begin. */
  ghost predicate BlanksFrom(b: Text, k: nat) {
    k <= |b| && (forall i :: k <= i < |b| ==> b[i] == BLANK) && (k > 0 ==> b[k - 1] != BLANK)
  }

  lemma LiteralSays(b: Text, o: Options, k: nat)
    requires SevenBit(b) && o.litmode && !o.upnostrip && BlanksFrom(b, k)
    ensures Internal(b, o) == EscAll(b[..k])
  {
    hide EscAll, Entered, Plain;
    EnteredPlain([], b, true);
    PlainSays(b, 0, true);
    assert [] + EscAll(b) == EscAll(b);
    var j := StripEsc(b);
  }

  /** In literal mode with stripping, reading takes off the blanks at the end but writing the tabs too:
      the line is stable exactly when no tab precedes those blanks. */
  lemma LiteralStrips(b: Text, o: Options, k: nat)
    requires SevenBit(b) && o.litmode && !o.upnostrip && (o.upblanks || !o.uptabs) && BlanksFrom(b, k)
    ensures NL in Internal(b, o) + [NL]
    ensures External(Internal(b, o) + [NL], o) == Strip(b)
    ensures Internal(External(Internal(b, o) + [NL], o), o) == Internal(b, o) <==> (k > 0 ==> b[k - 1] != TAB)
  {
    hide Internal, EscAll, Decoded, Plain;
    var d, e := b[..k], Strip(b);
    LiteralSays(b, o, k);
    DecodedEsc(d);
    StripPrefix(b, k);
    assert External(Internal(b, o) + [NL], o) == e;
    assert SevenBit(e);
    LiteralSays(e, o, |e|);
    assert e[..|e|] == e;
    if k > 0 && b[k - 1] == TAB && EscAll(e) == EscAll(d) {
      EscInjective(e, d);
      assert false;
    }
    if !(k > 0 && b[k - 1] == TAB) {
      StripNothing(d);
    }
  }

  lemma StripNothing(s: Text)
    requires s == [] || (s[|s| - 1] != BLANK && s[|s| - 1] != TAB)
    ensures Strip(s) == s
  {
  }

  lemma {:induction false} StripPrefix(s: Text, k: nat)
    requires k <= |s| && forall i :: k <= i < |s| ==> s[i] == BLANK
    ensures Strip(s) == Strip(s[..k])
    decreases |s|
  {
    if k < |s| {
      StripPrefix(s[..|s| - 1], k);
      assert s[..|s| - 1][..k] == s[..k];
    } else {
      assert s[..k] == s;
    }
  }

  // ----- GetLine and dechars themselves -----

  /** The characters of the pieces, one after the other, as seven-bit characters. */
  function Flat(pieces: seq<seq<int>>): Text {
    if pieces == [] then [] else Masked(pieces[0]) + Flat(pieces[1..])
  }

  function Masked(s: seq<int>): (r: Text)
    ensures |r| == |s| && forall i :: 0 <= i < |r| ==> r[i] == s[i] % 128
  {
    seq(|s|, i requires 0 <= i < |s| => s[i] % 128)
  }

  /** The line at the head of s, without its newline. */
  function LineAt(s: Text): (r: Text)
    ensures |r| <= |s| && r == s[..|r|] && NL !in r && (NL in s ==> |r| < |s| && s[|r|] == NL)
  {
    if s == [] || s[0] == NL then [] else [s[0]] + LineAt(s[1..])
  }

  lemma {:induction false} LineAtIs(s: Text, r: Text, rest: Text)
    requires s == r + [NL] + rest && NL !in r
    ensures NL in s && LineAt(s) == r
  {
    assert s[|r|] == NL;
    if r != [] {
      assert s[1..] == r[1..] + [NL] + rest;
      LineAtIs(s[1..], r[1..], rest);
    }
  }

  class Line {
    var cline: seq<int>     // the line, its newline last
    var ecline: bool        // it may hold an escape character

    constructor ()
      ensures cline == [NL] && !ecline
    {
      cline, ecline := [NL], false;
    }

    /** One character of a piece. */
    method Take(ch0: int, o: Options) returns (done: bool)
      modifies this
      ensures done <==> ch0 % 128 == NL
      ensures !done ==> cline == Enter(old(cline), ch0 % 128, o.litmode) && (old(ecline) ==> ecline)
      ensures !done && ecline && !old(ecline) ==> ESC in cline
      ensures done ==> cline == (if o.upnostrip then old(cline) else Strip(old(cline))) + [NL] && ecline == old(ecline)
    {
      var ch := ch0 % 128;
      if 32 <= ch < 127 {
        cline := cline + [ch];
      } else if ch == TAB && !o.litmode {
        var ri := 8 - |cline| % 8;
        ghost var was, n := cline, ri;
        while ri > 0
          invariant 0 <= ri <= n && cline == was + Times(n - ri, BLANK) && ecline == old(ecline)
        {
          cline := cline + [BLANK];
          ri := ri - 1;
        }
      } else if ch == NL {
        if !o.upnostrip {
          while |cline| > 0 && (cline[|cline| - 1] == BLANK || cline[|cline| - 1] == TAB)
            invariant Strip(cline) == Strip(old(cline)) && ecline == old(ecline)
            decreases |cline|
          {
            cline := cline[..|cline| - 1];
          }
        }
        cline := cline + [NL];
        return true;
      } else {
        ecline := true;
        cline := cline + [ESC];
        if ch != ESC {
          ch := ch + 64;
        }
        cline := cline + [ch];
      }
      return false;
    }

    /** The characters of one piece, up to a newline, which is the n-th. */
    method TakePiece(piece: seq<int>, o: Options, ghost read: Text) returns (done: bool, ghost n: nat)
      requires cline == Entered([], read, o.litmode)
      modifies this
      ensures n <= |piece| && NL !in Masked(piece)[..n] && (done <==> n < |piece|)
      ensures done ==> Masked(piece)[n] == NL
      ensures done ==> cline == Internal(read + Masked(piece)[..n], o) + [NL]
      ensures !done ==> cline == Entered([], read + Masked(piece)[..n], o.litmode)
    {
      hide Enter, Internal, Entered;
      var nleft := 0;
      ghost var m := Masked(piece);
      assert read + m[..0] == read;
      while nleft < |piece|
        invariant 0 <= nleft <= |piece| && NL !in m[..nleft]
        invariant cline == Entered([], read + m[..nleft], o.litmode)
      {
        assert m[..nleft + 1] == m[..nleft] + [m[nleft]];
        assert read + m[..nleft + 1] == read + m[..nleft] + [m[nleft]];
        EnteredSnoc(read + m[..nleft], m[nleft], o.litmode);
        done := Take(piece[nleft], o);
        if done {
          InternalIs(read + m[..nleft], o);
          return true, nleft;
        }
        nleft := nleft + 1;
      }
      return false, nleft;
    }

    /** GetLine, of a line that la_lpnt delivers in these pieces.  Did it end without a read error?  The
        pieces may go on beyond the end of the line. */
    method GetLine(pieces: seq<seq<int>>, o: Options) returns (ok: bool)
      modifies this
      ensures ok ==> NL in Flat(pieces) && cline == Internal(LineAt(Flat(pieces)), o) + [NL]
      ensures (forall i :: 0 <= i < |pieces| ==> pieces[i] != []) ==> (ok <==> NL in Flat(pieces))
    {
      hide Internal, LineAt, Entered, Flat, Masked;
      cline, ecline := [], false;
      var k := 0;
      ghost var read: Text := [];
      EnteredNothing(o.litmode);
      while true
        invariant 0 <= k <= |pieces|
        invariant Flat(pieces) == read + Flat(pieces[k..]) && NL !in read
        invariant cline == Entered([], read, o.litmode)
        decreases |pieces| - k
      {
        if k == |pieces| || pieces[k] == [] {
          assert k == |pieces| ==> pieces[k..] == [];
          return false;
        }
        ghost var m, rest := Masked(pieces[k]), Flat(pieces[k + 1..]);
        FlatStep(pieces, k);
        var done, n := TakePiece(pieces[k], o, read);
        if done {
          LineEnds(Flat(pieces), read, m, rest, n);
          return true;
        }
        LineGoesOn(Flat(pieces), read, m, rest);
        assert m[..n] == m;
        read := read + m;
        k := k + 1;
      }
    }
  }

  lemma FlatStep(pieces: seq<seq<int>>, k: nat)
    requires k < |pieces|
    ensures Flat(pieces[k..]) == Masked(pieces[k]) + Flat(pieces[k + 1..])
  {
    assert pieces[k..][1..] == pieces[k + 1..];
  }

  lemma LineEnds(all: Text, read: Text, m: Text, rest: Text, n: nat)
    requires all == read + (m + rest) && NL !in read && n < |m| && NL !in m[..n] && m[n] == NL
    ensures NL in all && LineAt(all) == read + m[..n]
  {
    assert all == read + m[..n] + [NL] + (m[n + 1..] + rest);
    LineAtIs(all, read + m[..n], m[n + 1..] + rest);
  }

  lemma LineGoesOn(all: Text, read: Text, m: Text, rest: Text)
    requires all == read + (m + rest)
    ensures all == read + m + rest
  {
  }

  lemma EnteredNothing(lit: bool)
    ensures Entered([], [], lit) == [] && Flat([]) == []
  {
  }

  lemma InternalIs(b: Text, o: Options)
    ensures var e := Entered([], b, o.litmode); Internal(b, o) == if o.upnostrip then e else Strip(e)
  {
  }

  lemma EnteredSnoc(b: Text, c: int, lit: bool)
    ensures Entered([], b + [c], lit) == Enter(Entered([], b, lit), c, lit)
  {
    EnteredCat([], b, [c], lit);
    assert [c][1..] == [];
  }

  /** The place of the character after the one at fm, and the character. */
  method Next(line: array<int>, fm0: int) returns (cc: int, fm: int)
    requires 0 <= fm0 < line.Length && NL in line[fm0..]
    ensures fm0 < fm <= line.Length && (cc, fm - fm0) == Head(line[fm0..])
    ensures cc == NL ==> Decoded(line[fm0..]) == []
    ensures cc != NL ==> fm < line.Length && NL in line[fm..] && Decoded(line[fm0..]) == [cc] + Decoded(line[fm..])
  {
    ghost var s := line[fm0..];
    assert line[fm0] == s[0];
    assert s[0] != NL ==> |s| > 1 && s[1..] == line[fm0 + 1..] && NL in s[1..];
    cc, fm := line[fm0], fm0 + 1;
    if cc == ESC && line[fm] != NL {
      assert line[fm] == s[1];
      assert s[2..] == line[fm0 + 2..];
      if line[fm] == ESC {
        cc := line[fm];
      } else {
        cc := line[fm] % 32;
      }
      fm := fm + 1;
    }
    assert s[fm - fm0..] == line[fm..];
  }

  /** Writes behind what is still to be read from fm on. */
  method Write(line: array<int>, to: int, c: int, ghost fm: int)
    requires 0 <= to < fm <= line.Length
    modifies line
    ensures line[..to + 1] == old(line[..to]) + [c] && line[fm..] == old(line[fm..])
  {
    line[to] := c;
  }

  /** The -blanks and the literal mode of dechars. */
  method AsIs(line: array<int>) returns (to: int)
    requires NL in line[..]
    modifies line
    ensures 0 <= to < line.Length && line[..to] == old(Decoded(line[..]))
  {
    hide Decoded, Head;
    var fm := 0;
    to := 0;
    ghost var all, d: Text := Decoded(line[..]), [];
    assert line[0..] == line[..];
    while true
      invariant 0 <= to <= fm < line.Length && NL in line[fm..]
      invariant line[..to] == d && all == d + Decoded(line[fm..])
      decreases line.Length - fm
    {
      var cc, fm1 := Next(line, fm);
      if cc == NL {
        return;
      }
      Write(line, to, cc, fm1);
      d := d + [cc];
      to, fm := to + 1, fm1;
    }
  }

  lemma TimesOn(w: Text, n: nat, c: int)
    ensures w + Times(n, c) + [c] == w + Times(n + 1, c) && w + Times(0, c) == w
  {
  }

  /** What the default mode writes for the blanks between columns lnb and cn. */
  function Gap(lnb: nat, cn: nat): Text
    requires lnb <= cn
  {
    if lnb == 0 then Times(cn / 8, TAB) + Times(cn % 8, BLANK) else Times(cn - lnb, BLANK)
  }

  /** The tabs before column cn on a line that has had only blanks. */
  method LeadingTabs(line: array<int>, to0: int, cn: int, ghost fm: int) returns (to: int, lnb: int)
    requires 0 <= to0 <= 0 <= cn < fm <= line.Length
    modifies line
    ensures lnb == cn - cn % 8 && 0 <= to <= lnb && line[fm..] == old(line[fm..])
    ensures line[..to] == old(line[..to0]) + Times(cn / 8, TAB)
  {
    hide Times;
    to, lnb := to0, 0;
    ghost var w := line[..to];
    TimesOn(w, 0, TAB);
    while 8 + (lnb - lnb % 8) <= cn
      invariant 0 <= lnb <= cn && lnb % 8 == 0 && to == lnb / 8
      invariant line[..to] == w + Times(lnb / 8, TAB) && line[fm..] == old(line[fm..])
      decreases cn - lnb
    {
      TimesOn(w, lnb / 8, TAB);
      Write(line, to, if lnb % 8 == 7 then BLANK else TAB, fm);
      to := to + 1;
      lnb := lnb - lnb % 8;
      lnb := lnb + 8;
    }
  }

  /** The tabs and blanks due before column cn, behind the character at fm - 1. */
  method Pad(line: array<int>, to0: int, lnb0: int, cn: int, ghost fm: int) returns (to: int, lnb: int)
    requires 0 <= to0 <= lnb0 <= cn < fm <= line.Length
    modifies line
    ensures lnb == cn + 1 && to0 <= to <= cn && line[fm..] == old(line[fm..])
    ensures line[..to] == old(line[..to0]) + Gap(lnb0, cn)
  {
    hide Times;
    to, lnb := to0, lnb0;
    if lnb == 0 {
      to, lnb := LeadingTabs(line, to, cn, fm);
    }
    ghost var tabbed, n0 := line[..to], lnb;
    lnb := lnb + 1;
    TimesOn(tabbed, 0, BLANK);
    while lnb <= cn
      invariant n0 < lnb <= cn + 1 && to <= lnb - 1
      invariant to == |tabbed| + (lnb - 1 - n0)
      invariant line[..to] == tabbed + Times(lnb - 1 - n0, BLANK) && line[fm..] == old(line[fm..])
    {
      TimesOn(tabbed, lnb - 1 - n0, BLANK);
      Write(line, to, BLANK, fm);
      to := to + 1;
      lnb := lnb + 1;
    }
  }

  lemma LeadIs(d: Text, k: nat)
    requires k <= |d| && (forall i :: 0 <= i < k ==> d[i] == BLANK) && (k < |d| ==> d[k] != BLANK)
    ensures Lead(d) == k
  {
  }

  lemma LeadingBlank(n: nat)
    ensures Leading([] + Times(n, BLANK)) == Leading([]) + Gap(0, n)
  {
    LeadIs([] + Times(n, BLANK), n);
    LeadIs([], 0);
  }

  lemma LeadingDark(d: Text, n: nat)
    requires Dark(d) && d != []
    ensures Leading(d + Times(n, BLANK)) == Leading(d) + Times(n, BLANK)
  {
    hide Lead;
    var e, k := d + Times(n, BLANK), Lead(d);
    LeadIs(e, k);
    assert e[k..] == d[k..] + Times(n, BLANK);
  }

  /** The default form of d and the blanks up to column cn, and of the character c after them. */
  lemma LeadingOn(d: Text, cn: nat, c: int)
    requires Dark(d) && |d| <= cn
    ensures var e := d + Times(cn - |d|, BLANK);
            && Leading(e) == Leading(d) + Gap(|d|, cn)
            && (c != BLANK ==> Leading(e + [c]) == Leading(d) + Gap(|d|, cn) + [c])
  {
    hide Leading, Times;
    if d == [] {
      LeadingBlank(cn);
    } else {
      LeadingDark(d, cn - |d|);
    }
    if c != BLANK {
      LeadingSnoc(d + Times(cn - |d|, BLANK), c);
    }
  }

  lemma LeadingSnoc(d: Text, c: int)
    requires c != BLANK
    ensures Leading(d + [c]) == Leading(d) + [c]
  {
    hide Lead;
    var k := Lead(d);
    LeadIs(d + [c], k);
    assert (d + [c])[k..] == d[k..] + [c];
  }

  /** One character that is not a blank, in the default mode, after the blanks between columns lnb and cn;
      w is what has been written. */
  method Emit(line: array<int>, to0: int, lnb0: int, cn: int, cc: int, ghost fm: int, ghost dark: Text)
    returns (to: int, lnb: int)
    requires 0 <= to0 <= lnb0 <= cn < fm <= line.Length && cc != BLANK
    requires lnb0 == |dark| && line[..to0] == Leading(dark) && Dark(dark)
    modifies line
    ensures lnb == cn + 1 && to0 <= to <= lnb && (cc == NL ==> to < lnb) && line[fm..] == old(line[fm..])
    ensures line[..to] == var d := dark + Times(cn - lnb0, BLANK); if cc == NL then Leading(d) else Leading(d + [cc])
  {
    hide Leading, Times, Gap;
    LeadingOn(dark, cn, cc);
    to, lnb := Pad(line, to0, lnb0, cn, fm);
    if cc != NL {
      Write(line, to, cc, fm);
      to := to + 1;
    }
  }

  /** The default mode of dechars. */
  method Default(line: array<int>) returns (to: int)
    requires NL in line[..]
    modifies line
    ensures 0 <= to < line.Length && line[..to] == old(Leading(Decoded(line[..])))
  {
    hide Decoded, Head, Leading, Times, Dark;
    var fm, cn, lnb := 0, 0, 0;
    to := 0;
    ghost var all, dark: Text := Decoded(line[..]), [];
    assert line[0..] == line[..];
    LeadingNothing();
    while true
      invariant 0 <= to <= lnb <= cn <= fm < line.Length && lnb == |dark| && NL in line[fm..]
      invariant all == dark + Times(cn - lnb, BLANK) + Decoded(line[fm..])
      invariant line[..to] == Leading(dark) && Dark(dark)
      decreases line.Length - fm
    {
      var cc, fm1 := Next(line, fm);
      OneMore(dark, cn - lnb, cc, if cc == NL then [] else Decoded(line[fm1..]));
      if cc != BLANK {
        ghost var d := dark + Times(cn - lnb, BLANK);
        to, lnb := Emit(line, to, lnb, cn, cc, fm1, dark);
        if cc == NL {
          return;
        }
        dark := d + [cc];
      }
      cn, fm := cn + 1, fm1;
    }
  }

  /** dark and n blanks, followed by c and the rest. */
  lemma OneMore(dark: Text, n: nat, c: int, rest: Text)
    ensures var d := dark + Times(n, BLANK);
            && d + [] == d
            && (c == BLANK ==> d + ([c] + rest) == dark + Times(n + 1, BLANK) + rest)
            && (c != BLANK ==> d + ([c] + rest) == d + [c] + Times(0, BLANK) + rest && Dark(d + [c]))
  {
    TimesOn(dark, n, BLANK);
    TimesOn(dark + Times(n, BLANK) + [c], 0, BLANK);
  }

  lemma LeadingNothing()
    ensures Leading([]) == [] && Times(0, BLANK) == [] && Dark([])
  {
  }

  /** What is due between columns a and b, if b is to the right. */
  function Due(a: nat, b: nat): Text {
    if a <= b then TabRun(a, b) else []
  }

  lemma DueSteps(w: Text, a: nat, b: nat)
    ensures NextTab(a) <= b ==> w + Due(a, b) == w + [TAB] + Due(NextTab(a), b)
    ensures NextTab(a) > b ==> Due(a, b) == Times(if a <= b then b - a else 0, BLANK)
  {
  }

  /** The tabs and blanks that lead from column lnb to column cn, in -tabs mode. */
  method PadTabs(line: array<int>, to0: int, lnb0: int, cn: int, ghost fm: int) returns (to: int)
    requires 0 <= to0 <= cn < fm <= line.Length && to0 <= lnb0
    modifies line
    ensures to0 <= to <= cn && line[fm..] == old(line[fm..])
    ensures line[..to] == old(line[..to0]) + Due(lnb0, cn)
  {
    hide Due, Times;
    var lnb := lnb0;
    to := to0;
    ghost var goal := line[..to] + Due(lnb, cn);
    while NextTab(lnb) <= cn
      invariant 0 <= to <= lnb && to0 <= to <= cn && line[fm..] == old(line[fm..])
      invariant line[..to] + Due(lnb, cn) == goal
      decreases cn - lnb
    {
      DueSteps(line[..to], lnb, cn);
      Write(line, to, TAB, fm);
      to := to + 1;
      lnb := NextTab(lnb);
    }
    DueSteps(line[..to], lnb, cn);
    to := BlanksTo(line, to, lnb, cn, fm);
  }

  /** The blanks that lead from column lnb to column cn. */
  method BlanksTo(line: array<int>, to0: int, lnb0: int, cn: int, ghost fm: int) returns (to: int)
    requires 0 <= to0 <= cn < fm <= line.Length && to0 <= lnb0
    modifies line
    ensures to0 <= to <= cn && line[fm..] == old(line[fm..])
    ensures line[..to] == old(line[..to0]) + Times(if lnb0 <= cn then cn - lnb0 else 0, BLANK)
  {
    hide Times;
    var lnb := lnb0;
    to := to0;
    ghost var w := line[..to];
    TimesOn(w, 0, BLANK);
    while lnb < cn
      invariant lnb0 <= lnb && (lnb0 <= cn ==> lnb <= cn) && (lnb0 > cn ==> lnb == lnb0) && to == to0 + (lnb - lnb0)
      invariant line[..to] == w + Times(lnb - lnb0, BLANK) && line[fm..] == old(line[fm..])
      decreases cn - lnb
    {
      TimesOn(w, lnb - lnb0, BLANK);
      Write(line, to, BLANK, fm);
      to := to + 1;
      lnb := lnb + 1;
    }
  }

  /** What the -tabs loop has in lnb at column cn, when the blanks from column a on are not written yet:
      MAXLINE stands for no blanks, and so a run that begins there is taken to begin at its second blank. */
  function Lnb(a: nat, cn: nat): nat
    requires a <= cn
  {
    if a == cn then MAXLINE else if a == MAXLINE && cn >= a + 2 then a + 1 else a
  }

  /** At a character or the end of the line at column cn, after blanks from column a on, the loop does
      right: it is not beyond MAXLINE, or it comes after blanks, and those do not begin at MAXLINE or are
      one or at least eight. */
  predicate DoesRight(a: nat, cn: nat) {
    cn <= MAXLINE || (a < cn && (a != MAXLINE || cn == a + 1 || cn >= a + 8))
  }

  lemma DueRight(a: nat, cn: nat)
    requires a <= cn
    ensures Due(Lnb(a, cn), cn) == TabRun(a, cn) <==> DoesRight(a, cn)
  {
    if a == MAXLINE && cn >= a + 2 {
      assert NextTab(a) == NextTab(a + 1) == a + 8;
    } else if a == cn && cn > MAXLINE {
      assert TabRun(a, cn) == [] && Due(MAXLINE, cn) != [];
    }
  }

  /** The loop does right everywhere in d, from column cn on. */
  predicate Within(d: Text, a: nat, cn: nat)
    decreases |d|
  {
    if d == [] then DoesRight(a, cn)
    else if d[0] == BLANK then Within(d[1..], a, cn + 1)
    else DoesRight(a, cn) && Within(d[1..], cn + 1, cn + 1)
  }

  lemma {:induction false} ShortIsWithin(d: Text, a: nat, cn: nat)
    requires cn + |d| <= MAXLINE
    ensures Within(d, a, cn)
    decreases |d|
  {
    if d != [] {
      ShortIsWithin(d[1..], if d[0] == BLANK then a else cn + 1, cn + 1);
    }
  }

  /** What the loop makes of d, if nothing it has still to read is overwritten. */
  function Coded(d: Text, a: nat, cn: nat): Text
    requires a <= cn
    decreases |d|
  {
    if d == [] then Due(Lnb(a, cn), cn)
    else if d[0] == BLANK then Coded(d[1..], a, cn + 1)
    else Due(Lnb(a, cn), cn) + [d[0]] + Coded(d[1..], cn + 1, cn + 1)
  }

  lemma {:induction false} DueIsWhite(a: nat, b: nat)
    ensures forall i :: 0 <= i < |Due(a, b)| ==> White(Due(a, b)[i])
    decreases if a <= b then b - a else 0
  {
    if NextTab(a) <= b {
      DueSteps([], a, b);
      DueIsWhite(NextTab(a), b);
      assert [] + Due(a, b) == Due(a, b) && [] + [TAB] + Due(NextTab(a), b) == [TAB] + Due(NextTab(a), b);
    }
  }

  /** Two texts that begin with white space of their own before the same character. */
  lemma SameStart(x: Text, y: Text, c: int, x2: Text, y2: Text)
    requires !White(c) && x + [c] + x2 == y + [c] + y2
    requires forall i :: 0 <= i < |x| ==> White(x[i])
    requires forall i :: 0 <= i < |y| ==> White(y[i])
    ensures x == y && x2 == y2
  {
    var t := x + [c] + x2;
    assert t[|x|] == c && t[|y|] == c;
    assert forall i :: 0 <= i < |x| ==> t[i] == x[i];
    assert forall i :: 0 <= i < |y| ==> t[i] == y[i];
    assert t[..|x|] == x && t[..|y|] == y && t[|x| + 1..] == x2 && t[|y| + 1..] == y2;
  }

  /** That is the -tabs form if and only if the loop does right everywhere. */
  lemma {:induction false} CodedIff(d: Text, a: nat, cn: nat)
    requires a <= cn && NoTabs(d)
    ensures Coded(d, a, cn) == Tabbed(d, a, cn) <==> Within(d, a, cn)
    decreases |d|
  {
    hide Due, TabRun, Lnb, DoesRight;
    DueRight(a, cn);
    if d != [] && d[0] == BLANK {
      CodedIff(d[1..], a, cn + 1);
    } else if d != [] {
      var x, y := Due(Lnb(a, cn), cn), TabRun(a, cn);
      var x2, y2 := Coded(d[1..], cn + 1, cn + 1), Tabbed(d[1..], cn + 1, cn + 1);
      CodedIff(d[1..], cn + 1, cn + 1);
      DueIsWhite(Lnb(a, cn), cn);
      DueIsWhite(a, cn);
      DueIsRun(a, cn);
      if x + [d[0]] + x2 == y + [d[0]] + y2 {
        SameStart(x, y, d[0], x2, y2);
      }
    }
  }

  lemma DueIsRun(a: nat, b: nat)
    requires a <= b
    ensures Due(a, b) == TabRun(a, b)
  {
  }

  /** So a line of 10002 characters, none of them blank, is written wrongly. */
  lemma TooLong(d: Text)
    requires d == Times(MAXLINE + 2, 'x' as int)
    ensures !Within(d, 0, 0)
  {
    NoneRight(d, 0);
  }

  lemma {:induction false} NoneRight(d: Text, cn: nat)
    requires cn + |d| > MAXLINE && forall i :: 0 <= i < |d| ==> d[i] != BLANK
    ensures !Within(d, cn, cn)
    decreases |d|
  {
    if d != [] {
      NoneRight(d[1..], cn + 1);
    }
  }

  /** What is written for one more character, c. */
  lemma TabbedSteps(w: Text, c: int, d: Text, a: nat, cn: nat)
    requires a <= cn
    ensures Within([], a, cn) ==> DoesRight(a, cn) && w + Tabbed([], a, cn) == w + Due(Lnb(a, cn), cn)
    ensures c == BLANK ==>
              Tabbed([c] + d, a, cn) == Tabbed(d, a, cn + 1) && (Within([c] + d, a, cn) ==> Within(d, a, cn + 1))
    ensures c != BLANK && Within([c] + d, a, cn) ==>
              && DoesRight(a, cn) && Within(d, cn + 1, cn + 1)
              && w + Tabbed([c] + d, a, cn) == w + Due(Lnb(a, cn), cn) + [c] + Tabbed(d, cn + 1, cn + 1)
  {
    hide Due, TabRun, Lnb, DoesRight;
    DueRight(a, cn);
    assert ([c] + d)[1..] == d;
  }

  /** The -tabs mode of dechars. */
  method Tabs(line: array<int>) returns (to: int)
    requires NL in line[..] && Within(Decoded(line[..]), 0, 0)
    modifies line
    ensures 0 <= to < line.Length && line[..to] == old(Tabbed(Decoded(line[..]), 0, 0))
  {
    hide Decoded, Head, Tabbed, Due, NextTab, Within;
    var fm, cn, lnb := 0, 0, MAXLINE;
    to := 0;
    ghost var a, out := 0, Tabbed(Decoded(line[..]), 0, 0);
    assert line[0..] == line[..];
    while true
      invariant 0 <= to <= a <= cn <= fm < line.Length && NL in line[fm..]
      invariant lnb == Lnb(a, cn) && Within(Decoded(line[fm..]), a, cn)
      invariant out == line[..to] + Tabbed(Decoded(line[fm..]), a, cn)
      decreases line.Length - fm
    {
      var cc, fm1 := Next(line, fm);
      TabbedSteps(line[..to], cc, if cc == NL then [] else Decoded(line[fm1..]), a, cn);
      if cc == BLANK && lnb == MAXLINE {
        lnb := cn;
      }
      if cc != BLANK {
        to := PadTabs(line, to, lnb, cn, fm1);
        if cc == NL {
          return;
        }
        Write(line, to, cc, fm1);
        to := to + 1;
        lnb := MAXLINE;
        a := cn + 1;
      }
      cn, fm := cn + 1, fm1;
    }
  }

  method StripAt(line: array<int>, to0: int) returns (to: int)
    requires 0 <= to0 <= line.Length
    ensures 0 <= to <= to0 && line[..to] == Strip(line[..to0])
  {
    to := to0;
    while to > 0 && (line[to - 1] == BLANK || line[to - 1] == TAB)
      invariant 0 <= to <= to0 && Strip(line[..to]) == Strip(line[..to0])
    {
      assert line[..to][..to - 1] == line[..to - 1];
      to := to - 1;
    }
  }

  /** dechars, in place: the characters it leaves at the front of the line, and how many. */
  method Dechars(line: array<int>, o: Options) returns (n: int)
    requires NL in line[..]
    requires o.uptabs && !o.upblanks ==> Within(Decoded(line[..]), 0, 0)
    modifies line
    ensures 1 <= n <= line.Length && line[..n] == old(External(line[..], o)) + [NL]
  {
    hide Decoded, Tabbed, Leading;
    var to;
    if o.upblanks {
      to := AsIs(line);
    } else if o.uptabs {
      to := Tabs(line);
    } else if o.litmode {
      to := AsIs(line);
    } else {
      to := Default(line);
    }
    if !o.upnostrip {
      to := StripAt(line, to);
    }
    line[to] := NL;
    n := to + 1;
  }
}
