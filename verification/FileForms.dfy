/** Which lines of a file are written back as they were: the form a line is written in. */
module FileForms {
  import opened LineCodec

  /** j tabs, fewer than eight blanks, and then what begins with no blank and has no tab. */
  ghost predicate LeadForm(b: Text, j: nat, m: nat) {
    && m < 8 && j + m <= |b|
    && (forall i :: 0 <= i < j ==> b[i] == TAB)
    && (forall i :: j <= i < j + m ==> b[i] == BLANK)
    && NoTabs(b[j + m..]) && (j + m < |b| ==> b[j + m] != BLANK)
  }

  /** From column cn on, where `shift` escapes came before: no blank reaches a tab stop or is followed by a
      tab, and a tab has a multiple of eight escapes before it.  `blank` tells of a blank just before. */
  predicate TabForm(b: Text, cn: nat, shift: nat, blank: bool) {
    if b == [] then true
    else if b[0] == TAB then !blank && shift % 8 == 0 && TabForm(b[1..], cn + 8 - cn % 8, shift, false)
    else if b[0] == BLANK then (cn + 1) % 8 != 0 && TabForm(b[1..], cn + 1, shift, true)
    else TabForm(b[1..], cn + 1, if 32 <= b[0] < 127 then shift else shift + 1, false)
  }

  /** The form of the mode, and no white space at the end if that is stripped. */
  ghost predicate InForm(b: Text, o: Options) {
    && (if o.upblanks then NoTabs(b)
        else if o.uptabs then TabForm(b, 0, 0, false)
        else exists j: nat, m: nat :: LeadForm(b, j, m))
    && (!o.upnostrip ==> b == [] || !White(b[|b| - 1]))
  }

  // ----- how it is read -----

  /** Reading goes on after b with one more character: a printing one stands for itself, a tab for blanks up to
      the next multiple of eight columns, and a control character becomes two, the second of them printing. */
  lemma ReadOn(b: Text, c: int)
    requires 0 <= c < 128 && c != NL
    ensures var x, y := Entered([], b, false), Entered([], b + [c], false);
            && |x| < |y| && y[..|x|] == x
            && (32 <= c < 127 ==> y[|x|..] == [c])
            && (c == TAB ==> |y| <= |x| + 8 && |y| % 8 == 0 && forall i :: |x| <= i < |y| ==> y[i] == BLANK)
            && (c < 32 && c != TAB ==> y[|x|..] == [ESC, c + 64])
            && (c == ESC ==> y[|x|..] == [ESC, ESC])
  {
    EnteredSnoc(b, c, false);
  }

  lemma {:induction false} PlainTabs(j: nat, x: Text, col: nat)
    requires col % 8 == 0
    ensures Plain(Times(j, TAB) + x, col, false) == Times(8 * j, BLANK) + Plain(x, col + 8 * j, false)
    decreases j
  {
    if j == 0 {
      assert Times(0, TAB) + x == x && Times(0, BLANK) + Plain(x, col, false) == Plain(x, col, false);
    } else {
      var b, rest := Times(j, TAB) + x, Times(j - 1, TAB) + x;
      assert b[1..] == rest;
      PlainTabs(j - 1, x, col + 8);
      assert Times(8, BLANK) + Times(8 * (j - 1), BLANK) == Times(8 * j, BLANK);
    }
  }

  lemma LeadSplit(b: Text, j: nat, m: nat)
    requires LeadForm(b, j, m)
    ensures b[j..] == Times(m, BLANK) + b[j + m..] && b == Times(j, TAB) + b[j..] && NoTabs(b[j..])
  {
    var x, rest := b[j..], b[j + m..];
    forall i | 0 <= i < |x|
      ensures x[i] == (Times(m, BLANK) + rest)[i] && x[i] != TAB
    {
      assert x[i] == b[j + i];
      if m <= i {
        assert b[j + i] == rest[i - m];
      }
    }
  }

  lemma LeadPlain(b: Text, j: nat, m: nat)
    requires SevenBit(b) && LeadForm(b, j, m)
    ensures Plain(b, 0, false) == Times(8 * j + m, BLANK) + b[j + m..] && Leading(Plain(b, 0, false)) == b
  {
    hide Plain, SevenBit, NoTabs, Times, Leading;
    var x, rest := b[j..], b[j + m..];
    LeadSplit(b, j, m);
    SevenBitTail(b, j);
    PlainTabs(j, x, 0);
    PlainSays(x, 8 * j, false);
    LeadLeads(j, m, rest);
    BlanksJoin(8 * j, m, rest);
    Regroup(Times(j, TAB), Times(m, BLANK), rest);
  }

  lemma BlanksJoin(m: nat, n: nat, rest: Text)
    ensures Times(m, BLANK) + (Times(n, BLANK) + rest) == Times(m + n, BLANK) + rest
  {
  }

  lemma Regroup(x: Text, y: Text, z: Text)
    ensures x + (y + z) == x + y + z
  {
  }

  lemma LeadLeads(j: nat, m: nat, rest: Text)
    requires m < 8 && (rest != [] ==> rest[0] != BLANK)
    ensures Leading(Times(8 * j + m, BLANK) + rest) == Times(j, TAB) + Times(m, BLANK) + rest
  {
    var d := Times(8 * j + m, BLANK) + rest;
    LeadIs(d, 8 * j + m);
    assert d[8 * j + m..] == rest;
  }

  lemma SevenBitTail(b: Text, j: nat)
    requires SevenBit(b) && j <= |b|
    ensures SevenBit(b[j..])
  {
  }

  lemma {:induction false} PlainLast(b: Text, col: nat)
    requires b != [] && !White(b[|b| - 1])
    ensures var p := Plain(b, col, false); p != [] && p[|p| - 1] == b[|b| - 1]
    decreases |b|
  {
    if |b| > 1 {
      PlainLast(b[1..], if b[0] == TAB then col + (8 - col % 8) else col + |Esc(b[0])|);
    }
  }

  /** A line that ends in no white space says all that it holds. */
  lemma AllSaid(b: Text, o: Options)
    requires SevenBit(b) && !o.litmode && (!o.upnostrip ==> b == [] || !White(b[|b| - 1]))
    ensures Said(b, o) == Plain(b, 0, false)
  {
    if !o.upnostrip && b != [] {
      PlainLast(b, 0);
    }
  }

  /** What is written says what was read. */
  lemma Written(b: Text, o: Options)
    requires SevenBit(b) && !o.litmode
    ensures var d := Said(b, o);
            && SevenBit(d) && NoTabs(d) && (!o.upnostrip ==> Dark(d))
            && NL in Internal(b, o) + [NL] && External(Internal(b, o) + [NL], o) == Compressed(d, o)
  {
    hide Decoded, Strip, EscAll, Entered, Plain, Compressed;
    var d := InternalSays(b, o);
    if !o.upnostrip {
      UndarkenedUnique(Plain(b, 0, false), d);
      CompressedEnds(d, o);
    }
    DecodedEsc(d);
  }

  // ----- the default form -----

  lemma LeadingInForm(d: Text)
    requires NoTabs(d)
    ensures LeadForm(Leading(d), Lead(d) / 8, Lead(d) % 8)
  {
    hide Lead;
    FormOf(Lead(d) / 8, Lead(d) % 8, d[Lead(d)..]);
  }

  lemma FormOf(j: nat, m: nat, rest: Text)
    requires m < 8 && NoTabs(rest) && (rest != [] ==> rest[0] != BLANK)
    ensures LeadForm(Times(j, TAB) + Times(m, BLANK) + rest, j, m)
  {
    var b := Times(j, TAB) + Times(m, BLANK) + rest;
    assert b[j + m..] == rest;
  }

  // ----- the -tabs form -----

  /** A run that ends at a tab stop, or has not begun, with one more tab. */
  lemma {:induction false} RunTab(a: nat, cn: nat)
    requires a <= cn && (a == cn || cn % 8 == 0)
    ensures TabRun(a, cn + 8 - cn % 8) == TabRun(a, cn) + [TAB]
    decreases cn - a
  {
    if NextTab(a) <= cn {
      RunTab(NextTab(a), cn);
    }
  }

  /** A run with one more blank that does not reach a stop. */
  lemma {:induction false} RunBlank(a: nat, cn: nat)
    requires a <= cn && (cn + 1) % 8 != 0
    ensures TabRun(a, cn + 1) == TabRun(a, cn) + [BLANK]
    decreases cn - a
  {
    if NextTab(a) <= cn {
      RunBlank(NextTab(a), cn);
    }
  }

  lemma {:induction false} TabbedOn(n: nat, x: Text, a: nat, cn: nat)
    requires a <= cn
    ensures Tabbed(Times(n, BLANK) + x, a, cn) == Tabbed(x, a, cn + n)
    decreases n
  {
    if n == 0 {
      assert Times(0, BLANK) + x == x;
    } else {
      assert (Times(n, BLANK) + x)[1..] == Times(n - 1, BLANK) + x;
      TabbedOn(n - 1, x, a, cn + 1);
    }
  }

  /** A line in the -tabs form is written as it was read. */
  lemma {:induction false} FormTabbed(b: Text, a: nat, cn: nat, shift: nat, blank: bool)
    requires SevenBit(b) && TabForm(b, cn, shift, blank) && a <= cn && (!blank ==> a == cn || cn % 8 == 0)
    ensures Tabbed(Plain(b, cn + shift, false), a, cn) == TabRun(a, cn) + b
    decreases |b|
  {
    hide TabRun, Tabbed, Plain, Times;
    if b == [] {
      PlainNothing(cn + shift, false);
      TabbedNothing(a, cn);
      return;
    }
    SevenBitTail(b, 1);
    if b[0] == TAB {
      FormTabbed(b[1..], a, cn + 8 - cn % 8, shift, false);
      TabOff(b, a, cn, shift);
    } else if b[0] == BLANK {
      FormTabbed(b[1..], a, cn + 1, shift, true);
      BlankOff(b, a, cn, shift);
    } else {
      FormTabbed(b[1..], cn + 1, cn + 1, if 32 <= b[0] < 127 then shift else shift + 1, false);
      OtherOff(b, a, cn, shift);
    }
  }

  lemma TabOff(b: Text, a: nat, cn: nat, shift: nat)
    requires b != [] && b[0] == TAB && a <= cn && shift % 8 == 0 && (a == cn || cn % 8 == 0)
    requires var n := cn + 8 - cn % 8; Tabbed(Plain(b[1..], n + shift, false), a, n) == TabRun(a, n) + b[1..]
    ensures Tabbed(Plain(b, cn + shift, false), a, cn) == TabRun(a, cn) + b
  {
    hide TabRun, Tabbed, Plain, Times;
    var w := 8 - cn % 8;
    assert (cn + shift) % 8 == cn % 8;
    PlainStep(b, cn + shift);
    TabbedOn(w, Plain(b[1..], cn + shift + w, false), a, cn);
    RunTab(a, cn);
    FirstOff(TabRun(a, cn), b);
  }

  lemma BlankOff(b: Text, a: nat, cn: nat, shift: nat)
    requires b != [] && b[0] == BLANK && a <= cn && (cn + 1) % 8 != 0
    requires Tabbed(Plain(b[1..], cn + 1 + shift, false), a, cn + 1) == TabRun(a, cn + 1) + b[1..]
    ensures Tabbed(Plain(b, cn + shift, false), a, cn) == TabRun(a, cn) + b
  {
    hide TabRun, Tabbed, Plain, Times;
    PlainStep(b, cn + shift);
    RunBlank(a, cn);
    TabbedStep(BLANK, Plain(b[1..], cn + 1 + shift, false), a, cn);
    FirstOff(TabRun(a, cn), b);
  }

  lemma OtherOff(b: Text, a: nat, cn: nat, shift: nat)
    requires b != [] && b[0] != BLANK && b[0] != TAB && a <= cn
    requires var more := if 32 <= b[0] < 127 then shift else shift + 1;
             Tabbed(Plain(b[1..], cn + 1 + more, false), cn + 1, cn + 1) == TabRun(cn + 1, cn + 1) + b[1..]
    ensures Tabbed(Plain(b, cn + shift, false), a, cn) == TabRun(a, cn) + b
  {
    hide TabRun, Tabbed, Plain, Times;
    var more := if 32 <= b[0] < 127 then shift else shift + 1;
    PlainStep(b, cn + shift);
    NoRun(cn + 1);
    TabbedStep(b[0], Plain(b[1..], cn + 1 + more, false), a, cn);
    FirstOff(TabRun(a, cn), b);
  }

  lemma FirstOff(x: Text, b: Text)
    requires b != []
    ensures x + [b[0]] + b[1..] == x + b && [] + b[1..] == b[1..]
  {
  }

  lemma PlainStep(b: Text, col: nat)
    requires b != []
    ensures Plain(b, col, false) ==
            if b[0] == TAB then Times(8 - col % 8, BLANK) + Plain(b[1..], col + (8 - col % 8), false)
            else [b[0]] + Plain(b[1..], col + if 32 <= b[0] < 127 then 1 else 2, false)
  {
  }

  lemma TabbedNothing(a: nat, cn: nat)
    requires a <= cn
    ensures Tabbed([], a, cn) == TabRun(a, cn) + []
  {
  }

  lemma NoRun(a: nat)
    ensures TabRun(a, a) == []
  {
  }

  lemma TabbedStep(c: int, d: Text, a: nat, cn: nat)
    requires a <= cn
    ensures Tabbed([c] + d, a, cn) == if c == BLANK then Tabbed(d, a, cn + 1) else TabRun(a, cn) + [c] + Tabbed(d, cn + 1, cn + 1)
  {
    assert ([c] + d)[1..] == d;
  }

  /** A run that keeps, and something after it, is in form. */
  lemma {:induction false} RunInForm(a: nat, b: nat, shift: nat, t: Text)
    requires a <= b && RunKeeps(a, b, shift) && (t != [] ==> !White(t[0])) && TabForm(t, b, shift, false)
    ensures TabForm(TabRun(a, b) + t, a, shift, false)
    decreases b - a
  {
    if NextTab(a) <= b {
      RunInForm(NextTab(a), b, shift, t);
      assert (TabRun(a, b) + t)[1..] == TabRun(NextTab(a), b) + t;
    } else {
      BlanksInForm(a, b, shift, t, false);
    }
  }

  lemma {:induction false} BlanksInForm(a: nat, b: nat, shift: nat, t: Text, blank: bool)
    requires a <= b < NextTab(a) && (t != [] ==> !White(t[0])) && TabForm(t, b, shift, false)
    ensures TabForm(Times(b - a, BLANK) + t, a, shift, blank)
    decreases b - a
  {
    if a == b {
      assert Times(0, BLANK) + t == t;
    } else {
      assert (Times(b - a, BLANK) + t)[1..] == Times(b - (a + 1), BLANK) + t;
      BlanksInForm(a + 1, b, shift, t, true);
    }
  }

  /** The -tabs form of a text whose runs keep. */
  lemma {:induction false} TabbedInForm(d: Text, a: nat, cn: nat, shift: nat)
    requires SevenBit(d) && NoTabs(d) && a <= cn && TabsKeep(d, a, cn, shift)
    ensures TabForm(Tabbed(d, a, cn), a, shift, false)
    decreases |d|
  {
    hide TabRun;
    if d == [] {
      RunInForm(a, cn, shift, []);
      assert TabRun(a, cn) + [] == TabRun(a, cn);
    } else if d[0] == BLANK {
      TabbedInForm(d[1..], a, cn + 1, shift);
    } else {
      var more := shift + |Esc(d[0])| - 1;
      var t := [d[0]] + Tabbed(d[1..], cn + 1, cn + 1);
      TabbedInForm(d[1..], cn + 1, cn + 1, more);
      assert t[1..] == Tabbed(d[1..], cn + 1, cn + 1);
      RunInForm(a, cn, shift, t);
      assert TabRun(a, cn) + [d[0]] + Tabbed(d[1..], cn + 1, cn + 1) == TabRun(a, cn) + t;
    }
  }

  // ----- the forms -----

  /** A line in the form of the mode is written back. */
  lemma FormIsKept(b: Text, o: Options)
    requires SevenBit(b) && !o.litmode && InForm(b, o)
    ensures Compressed(Said(b, o), o) == b
  {
    hide Plain, Said, Leading, Tabbed;
    AllSaid(b, o);
    if o.upblanks {
      PlainSays(b, 0, false);
    } else if o.uptabs {
      FormTabbed(b, 0, 0, 0, false);
      NoRun(0);
      assert [] + b == b;
    } else {
      var j: nat, m: nat :| LeadForm(b, j, m);
      LeadPlain(b, j, m);
    }
  }

  lemma CompressedLast(d: Text, o: Options)
    requires NoTabs(d) && Dark(d) && !o.litmode
    ensures var c := Compressed(d, o); c == [] || !White(c[|c| - 1])
  {
    if d == [] {
      CompressedNothing(o);
    } else {
      TabbedEnds(d, 0, 0);
      LeadingEnds(d);
    }
  }

  /** A line that is read is written back as it was if and only if it is in the form of the mode; and in
      that form is whatever is written, in -tabs mode if its runs keep. */
  lemma WrittenBack(b: Text, o: Options)
    requires SevenBit(b) && !o.litmode && (o.uptabs && !o.upblanks ==> Within(Said(b, o), 0, 0))
    ensures NL in Internal(b, o) + [NL]
    ensures External(Internal(b, o) + [NL], o) == b <==> InForm(b, o)
    ensures o.upblanks || !o.uptabs || TabsKeep(Said(b, o), 0, 0, 0) ==> InForm(External(Internal(b, o) + [NL], o), o)
  {
    hide Plain, Said, Leading, Tabbed, Within, TabsKeep, Lead, Internal, External, TabForm;
    var d := Said(b, o);
    Written(b, o);
    if InForm(b, o) {
      FormIsKept(b, o);
    }
    if !o.upnostrip {
      CompressedLast(d, o);
    }
    if o.upblanks {
    } else if o.uptabs {
      SavedLineIsStable(b, o);
      if TabsKeep(d, 0, 0, 0) {
        TabbedInForm(d, 0, 0, 0);
      }
    } else {
      LeadingInForm(d);
    }
  }
}
