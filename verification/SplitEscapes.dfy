/** Splitting a line inside the escape of an ESC, and joining it again. */
module SplitEscapes {
  import opened LineCodec
  import opened Editing

  /** The second half of the escape of an ESC, with r after it, is itself a text: the ESC goes with what is
      left of another, or makes a control character of what comes next. */
  predicate HalfKeeps(r: Text, o: Options) {
    r != []
    && if r[0] == ESC then HalfKeeps(r[1..], o)
       else r[0] < 32
            || (64 <= r[0] < 96 && r[0] - 64 != NL && (r[0] - 64 == TAB ==> o.litmode && (o.upnostrip || |r| > 1)))
  }

  /** What half an escape of an ESC, and r, read as. */
  function Reread(r: Text): Text {
    if r == [] then [ESC]
    else if r[0] == ESC then [ESC] + Reread(r[1..])
    else if r[0] < 32 then [ESC, r[0] + 64] + r[1..]
    else if r[0] % 32 == NL then []
    else [r[0] % 32] + r[1..]
  }

  lemma {:induction false} RereadIs(r: Text)
    requires SevenBit(r)
    ensures NL in [ESC] + EscAll(r) + [NL] && Decoded([ESC] + EscAll(r) + [NL]) == Reread(r)
  {
    hide EscAll, Decoded, Head, Esc;
    var s := [ESC] + EscAll(r) + [NL];
    assert s[|s| - 1] == NL;
    if r == [] {
      EscNothing();
      assert s == [ESC, NL];
      DecodedEndsEsc();
    } else {
      var c, rest := r[0], r[1..];
      var t := EscAll(rest) + [NL];
      assert t[|t| - 1] == NL;
      assert r == [c] + rest;
      EscAllCat([c], rest);
      EscOne(c);
      DecodedEsc(rest);
      if c == ESC {
        RereadIs(rest);
        assert s == Esc(ESC) + ([ESC] + EscAll(rest) + [NL]) by { EscForms(c); }
        DecodedOne(ESC, [ESC] + EscAll(rest) + [NL]);
      } else if c < 32 {
        EscForms(c);
        assert s == Esc(ESC) + ([c + 64] + t);
        DecodedPlain(c + 64, t);
        DecodedOne(ESC, [c + 64] + t);
        assert [ESC] + ([c + 64] + rest) == [ESC, c + 64] + rest;
      } else {
        EscForms(c);
        assert s == [ESC, c] + t;
        DecodedAfterEsc(c, t);
      }
    }
  }

  lemma EscForms(c: int)
    requires 0 <= c < 128
    ensures Esc(c) == (if c == ESC then [ESC, ESC] else if c < 32 then [ESC, c + 64] else [c]) && Esc(ESC) == [ESC, ESC]
  {
  }

  lemma DecodedPlain(c: int, t: Text)
    requires 32 <= c < 127 && NL in t
    ensures NL in [c] + t && Decoded([c] + t) == [c] + Decoded(t)
  {
    EscForms(c);
    DecodedOne(c, t);
  }

  lemma DecodedAfterEsc(c: int, t: Text)
    requires 32 <= c < 127 && NL in t
    ensures NL in [ESC, c] + t && Decoded([ESC, c] + t) == if c % 32 == NL then [] else [c % 32] + Decoded(t)
  {
    var s := [ESC, c] + t;
    assert s[0] == ESC && s[1] == c && s[2..] == t;
    assert NL in s[2..];
    assert Head(s) == (c % 32, 2);
  }

  // ----- saving a text that has tabs -----

  lemma {:induction false} EnterWhite(acc: Text, w: Text) returns (n: nat)
    requires AllWhite(w)
    ensures Entered(acc, w, false) == acc + Times(n, BLANK)
    decreases |w|
  {
    n := 0;
    assert acc + Times(0, BLANK) == acc;
    if w != [] {
      var next := Enter(acc, w[0], false);
      var m := EnterWhite(next, w[1..]);
      n := |next| - |acc| + m;
      assert next == acc + Times(|next| - |acc|, BLANK);
      TimesJoin(acc, |next| - |acc|, m);
    }
  }

  /** Stripping the file's form of a line makes no difference to a line that is stripped when it is read. */
  lemma StripTwice(c: Text)
    ensures Strip(Entered([], Strip(c), false)) == Strip(Entered([], c, false))
  {
    hide Entered, Strip;
    var b := Strip(c);
    StripSplits(c);
    EnteredCat([], b, c[|b|..], false);
    var n := EnterWhite(Entered([], b, false), c[|b|..]);
    StripTail(Entered([], b, false), Times(n, BLANK));
  }

  lemma StripSplits(c: Text)
    ensures |Strip(c)| <= |c| && c == Strip(c) + c[|Strip(c)|..] && AllWhite(c[|Strip(c)|..])
  {
    assert c[..|Strip(c)|] == Strip(c);
  }

  /** Tabs for the first blanks are read as those blanks, whatever comes after them. */
  lemma LeadingSame(d: Text)
    ensures Entered([], Leading(d), false) == Entered([], d, false)
  {
    hide Entered, Plain, Lead, EscAll;
    var q, m := Lead(d) / 8, Lead(d) % 8;
    assert Lead(d) == 8 * q + m;
    var t, rest := Times(q, TAB), Times(m, BLANK) + d[Lead(d)..];
    var front := Times(8 * q, BLANK);
    assert Leading(d) == t + rest;
    assert d == front + rest;
    hide Leading;
    EnteredCat([], t, rest, false);
    EnterTabs([], q);
    assert [] + front == front;
    EnteredCat([], front, rest, false);
    EnteredPlain([], front, false);
    PlainSays(front, 0, false);
    EscPrinting(front);
    assert [] + EscAll(front) == front;
  }

  /** What a line that reads as D is saved as, but for the -tabs mode: its tabs are expanded where they are
      not characters like others. */
  lemma SavedAny(s: Text, d: Text, o: Options)
    requires SevenBit(d) && OneMode(o) && !Tabbing(o) && NL in s + [NL] && Decoded(s + [NL]) == d
    ensures var e := Plain(d, 0, o.litmode);
            SevenBit(e) && Tabless(e, o) && Saved(s, o) == EscAll(e[..Kept(e, o)])
  {
    hide Decoded, Strip, Leading, EscAll, Entered, Plain, Kept;
    PlainSays(d, 0, o.litmode);
    var e := Plain(d, 0, o.litmode);
    if o.litmode {
      SavedText(s, d, o);
    } else {
      EnteredPlain([], d, false);
      assert [] + EscAll(e) == EscAll(e);
      var c := Compressed(d, o);
      assert Entered([], c, false) == EscAll(e) by {
        LeadingSame(d);
      }
      if o.upnostrip {
        assert Kept(e, o) == |e|;
        assert e[..|e|] == e;
      } else {
        StripTwice(c);
        StripEscKept(e, o);
      }
    }
  }

  lemma StripEscKept(e: Text, o: Options)
    requires SevenBit(e) && NoTabs(e) && !o.upnostrip
    ensures Strip(EscAll(e)) == EscAll(e[..Kept(e, o)])
  {
    hide Strip, EscAll;
    var k := StripEsc(e);
    assert k == Kept(e, o);
  }

  // ----- the second half, moved, saved and read again -----

  /** What the second half is saved as, before anything is stripped; n is how many blanks a tab comes to. */
  function Back(r: Text, n: nat, o: Options): Text {
    if r == [] then [ESC]
    else if r[0] == ESC then [ESC] + Back(r[1..], n, o)
    else if r[0] < 32 then [ESC, r[0] + 64] + r[1..]
    else if r[0] % 32 == NL then []
    else if r[0] % 32 == TAB && !o.litmode then Times(n, BLANK) + r[1..]
    else [r[0] % 32] + r[1..]
  }

  lemma {:induction false} RereadFine(r: Text)
    requires SevenBit(r)
    ensures SevenBit(Reread(r))
  {
    if r != [] && r[0] == ESC {
      RereadFine(r[1..]);
    }
  }

  lemma {:induction false} BackFine(r: Text, n: nat, o: Options)
    requires SevenBit(r) && Tabless(r, o)
    ensures SevenBit(Back(r, n, o)) && Tabless(Back(r, n, o), o)
  {
    if r != [] && r[0] == ESC {
      BackFine(r[1..], n, o);
    }
  }

  lemma {:induction false} PlainBack(r: Text, col: nat, o: Options) returns (n: nat)
    requires SevenBit(r) && Tabless(r, o)
    ensures n >= 1 && Plain(Reread(r), col, o.litmode) == Back(r, n, o)
  {
    hide Esc, Plain, Back, Reread;
    n := 1;
    RereadFine(r);
    if o.litmode {
      PlainSays(Reread(r), col, true);
      LiteralBack(r, n, o);
    } else if r == [] {
      PlainBackLast(r, col, n, o);
    } else if r[0] == ESC {
      n := PlainBack(r[1..], col + |Esc(ESC)|, o);
      PlainBackFirst(r, col, n, o);
    } else {
      n := 8 - col % 8;
      PlainBackLast(r, col, n, o);
    }
  }

  lemma PlainBackFirst(r: Text, col: nat, n: nat, o: Options)
    requires r != [] && r[0] == ESC && Plain(Reread(r[1..]), col + |Esc(ESC)|, false) == Back(r[1..], n, o) && !o.litmode
    ensures Plain(Reread(r), col, false) == Back(r, n, o)
  {
    hide Esc;
    assert Reread(r)[1..] == Reread(r[1..]);
  }

  lemma PlainBackLast(r: Text, col: nat, n: nat, o: Options)
    requires SevenBit(r) && NoTabs(r) && !o.litmode && (r == [] || (r[0] != ESC && n == 8 - col % 8))
    ensures Plain(Reread(r), col, false) == Back(r, n, o)
  {
    hide Esc, Plain;
    RereadFine(r);
    if r != [] && r[0] >= 32 && r[0] % 32 == TAB {
      var y := r[1..];
      PlainSays(y, col + n, false);
      PlainTab(y, col);
    } else {
      PlainSays(Reread(r), col, false);
    }
  }

  lemma PlainTab(y: Text, col: nat)
    ensures Plain([TAB] + y, col, false) == Times(8 - col % 8, BLANK) + Plain(y, col + (8 - col % 8), false)
  {
    assert ([TAB] + y)[1..] == y;
  }

  lemma {:induction false} LiteralBack(r: Text, n: nat, o: Options)
    requires o.litmode
    ensures Back(r, n, o) == Reread(r)
  {
    if r != [] && r[0] == ESC {
      LiteralBack(r[1..], n, o);
    }
  }

  /** b without the white space at its end, if that is stripped, ends at k. */
  ghost predicate EndsAt(b: Text, k: nat, o: Options) {
    && k <= |b| && (forall i :: k <= i < |b| ==> White(b[i]))
    && if o.upnostrip then k == |b| else k == 0 || !White(b[k - 1])
  }

  lemma KeptEnds(b: Text, k: nat, o: Options)
    ensures EndsAt(b, k, o) <==> k == Kept(b, o)
  {
  }

  /** What comes of the second half is, after another half of an ESC, read as the ESC and r if and only if
      it is a text itself. */
  lemma {:induction false} BackAgain(r: Text, n: nat, k: nat, o: Options)
    requires SevenBit(r) && Tabless(r, o) && (o.upnostrip || r == [] || !White(r[|r| - 1])) && n >= 1
    requires EndsAt(Back(r, n, o), k, o)
    ensures var g := Reread(Back(r, n, o)[..k]);
            && SevenBit(g) && Tabless(g, o) && g != [] && !White(g[0])
            && (g[..Kept(g, o)] == [ESC] + r <==> HalfKeeps(r, o))
    decreases |r|
  {
    hide Kept, Back, Reread, HalfKeeps, EndsAt;
    if r == [] {
      NilBackAgain(n, k, o);
    } else {
      var c, y := r[0], r[1..];
      assert r == [c] + y;
      assert y != [] ==> y[|y| - 1] == r[|r| - 1];
      assert SevenBit(y) && Tabless(y, o);
      if c == ESC {
        EscEnds(y, n, k, o);
        BackAgain(y, n, k - 1, o);
        EscFirstAgain(Back(y, n, o)[..k - 1], y, o);
      } else if c < 32 {
        CtrlBackAgain(c, y, n, k, o);
      } else {
        CharBackAgain(c, y, n, k, o);
      }
    }
  }

  lemma NilBackAgain(n: nat, k: nat, o: Options)
    requires EndsAt(Back([], n, o), k, o)
    ensures var g := Reread(Back([], n, o)[..k]);
            && SevenBit(g) && Tabless(g, o) && g != [] && !White(g[0])
            && g[..Kept(g, o)] != [ESC] + [] && !HalfKeeps([], o)
  {
    hide Kept;
    assert Back([], n, o)[0] == ESC && k == 1;
    assert [ESC][..1] == [ESC] && [ESC][1..] == [];
    assert Reread([ESC]) == [ESC, ESC];
    GKept([ESC, ESC], 2, o);
  }

  lemma EscEnds(y: Text, n: nat, k: nat, o: Options)
    requires EndsAt(Back([ESC] + y, n, o), k, o)
    ensures k >= 1 && EndsAt(Back(y, n, o), k - 1, o) && Back([ESC] + y, n, o)[..k] == [ESC] + Back(y, n, o)[..k - 1]
    ensures HalfKeeps([ESC] + y, o) == HalfKeeps(y, o)
  {
    var r := [ESC] + y;
    assert r[1..] == y && r[0] == ESC;
    var b, b2 := Back(r, n, o), Back(y, n, o);
    assert b == [ESC] + b2;
    assert b[0] == ESC && forall i :: 0 <= i < |b2| ==> b2[i] == b[i + 1];
  }

  /** A text as it may be in memory. */
  ghost predicate Fine(x: Text, o: Options) {
    SevenBit(x) && Tabless(x, o)
  }

  lemma FineCat(x: Text, y: Text, o: Options)
    requires Fine(x, o) && Fine(y, o)
    ensures Fine(x + y, o)
  {
  }

  lemma GKept(g: Text, k: nat, o: Options)
    requires k == |g| && (o.upnostrip || g == [] || !White(g[|g| - 1]))
    ensures Kept(g, o) == |g| && g[..Kept(g, o)] == g
  {
    KeptEnds(g, |g|, o);
  }

  /** One ESC more. */
  lemma EscFirstAgain(f: Text, y: Text, o: Options)
    requires SevenBit(Reread(f)) && Tabless(Reread(f), o)
    ensures var g, g2 := Reread([ESC] + f), Reread(f);
            && g == [ESC] + g2 && SevenBit(g) && Tabless(g, o)
            && (g[..Kept(g, o)] == [ESC] + ([ESC] + y) <==> g2[..Kept(g2, o)] == [ESC] + y)
  {
    hide Kept;
    var g, g2 := Reread([ESC] + f), Reread(f);
    assert ([ESC] + f)[1..] == f;
    var k := Kept(g2, o);
    KeptEnds(g2, k, o);
    assert forall i :: 1 <= i < |g| ==> g[i] == g2[i - 1];
    KeptEnds(g, k + 1, o);
    assert g[..k + 1] == [ESC] + g2[..k];
    assert ([ESC] + g2[..k])[1..] == g2[..k] && ([ESC] + ([ESC] + y))[1..] == [ESC] + y;
  }

  lemma CtrlBackAgain(c: int, y: Text, n: nat, k: nat, o: Options)
    requires 0 <= c < 32 && c != NL && Fine([c] + y, o) && (o.upnostrip || y == [] || !White(y[|y| - 1]))
    requires EndsAt(Back([c] + y, n, o), k, o) && (o.upnostrip || y != [] || !White(c))
    ensures var g := Reread(Back([c] + y, n, o)[..k]);
            g == [ESC] + ([c] + y) && SevenBit(g) && Tabless(g, o) && g[..Kept(g, o)] == g && HalfKeeps([c] + y, o)
  {
    hide Kept, SevenBit, Tabless;
    var r := [c] + y;
    assert r[1..] == y;
    var b := Back(r, n, o);
    assert b == [ESC, c + 64] + y;
    EndsKeep([ESC, c + 64], y, o);
    KeptEnds(b, k, o);
    assert b[1..] == [c + 64] + y && ([c + 64] + y)[1..] == y;
    assert Reread([c + 64] + y) == [c] + y;
    var g := [ESC] + r;
    FineTwo(ESC, ESC, o);
    FineCat([ESC], r, o);
    assert y != [] ==> r[|r| - 1] == y[|y| - 1];
    EndsKeep([ESC], r, o);
  }

  lemma CharBackAgain(c: int, y: Text, n: nat, k: nat, o: Options)
    requires 32 <= c < 127 && SevenBit(y) && Tabless(y, o) && (o.upnostrip || y == [] || !White(y[|y| - 1])) && n >= 1
    requires EndsAt(Back([c] + y, n, o), k, o)
    ensures var g := Reread(Back([c] + y, n, o)[..k]);
            && SevenBit(g) && Tabless(g, o) && g != [] && !White(g[0])
            && (g[..Kept(g, o)] == [ESC] + ([c] + y) <==> HalfKeeps([c] + y, o))
  {
    hide Kept, Reread, Back;
    var r := [c] + y;
    assert r[0] == c && r[1..] == y;
    var x, b := c % 32, Back(r, n, o);
    CharBack(c, y, n, o);
    if k == 0 {
      assert b[..0] == [];
      NothingBack(r, o);
      NothingKeeps(c, y, n, o);
    } else if x == TAB && !o.litmode {
      BlankBack(b[..k], y, k, n, r, o);
    } else {
      assert y != [] ==> b[|b| - 1] == y[|y| - 1];
      assert k == |b| && b[..k] == b;
      OtherBack(x, c, y, o);
    }
  }

  lemma CharBack(c: int, y: Text, n: nat, o: Options)
    requires 32 <= c < 127
    ensures Back([c] + y, n, o)
            == if c % 32 == NL then [] else if c % 32 == TAB && !o.litmode then Times(n, BLANK) + y else [c % 32] + y
  {
    assert ([c] + y)[1..] == y;
  }

  lemma NothingKeeps(c: int, y: Text, n: nat, o: Options)
    requires 32 <= c < 127 && n >= 1 && (o.upnostrip || y == [] || !White(y[|y| - 1]))
    requires EndsAt(Back([c] + y, n, o), 0, o)
    ensures !HalfKeeps([c] + y, o)
  {
    hide Back, HalfKeeps;
    CharBack(c, y, n, o);
    CharKeeps(c, y, o);
    if c % 32 != NL && !o.upnostrip && y != [] {
      EndsDark(if c % 32 == TAB && !o.litmode then Times(n, BLANK) else [c % 32], y, 0, o);
    } else if c % 32 != NL && !o.upnostrip && (c % 32 != TAB || o.litmode) {
      assert Back([c] + y, n, o)[0] == c % 32;
    }
  }

  lemma EndsDark(x: Text, y: Text, k: nat, o: Options)
    requires y != [] && !White(y[|y| - 1])
    ensures EndsAt(x + y, k, o) ==> k == |x + y|
  {
    assert (x + y)[|x + y| - 1] == y[|y| - 1];
  }

  lemma CharKeeps(c: int, y: Text, o: Options)
    requires 32 <= c < 127
    ensures HalfKeeps([c] + y, o) <==> c == c % 32 + 64 && c % 32 != NL && (c % 32 == TAB ==> o.litmode && (o.upnostrip || y != []))
  {
  }

  /** A character that becomes a control character. */
  lemma OtherBack(x: int, c: int, y: Text, o: Options)
    requires 32 <= c < 127 && x == c % 32 && x != NL && (x == TAB ==> o.litmode && (o.upnostrip || y != []))
    requires SevenBit(y) && Tabless(y, o) && (o.upnostrip || y == [] || !White(y[|y| - 1]))
    ensures var g := Reread([x] + y);
            && SevenBit(g) && Tabless(g, o) && g != [] && !White(g[0])
            && (g[..Kept(g, o)] == [ESC] + ([c] + y) <==> HalfKeeps([c] + y, o))
  {
    hide Kept, HalfKeeps, SevenBit, Tabless;
    CharKeeps(c, y, o);
    assert ([x] + y)[1..] == y;
    var g := [ESC, x + 64] + y;
    assert Reread([x] + y) == g;
    FineTwo(ESC, x + 64, o);
    FineCat([ESC, x + 64], y, o);
    EndsKeep([ESC, x + 64], y, o);
    assert g[1] == x + 64 && ([ESC] + ([c] + y))[1] == c;
    assert x + 64 == c ==> g == [ESC] + ([c] + y);
  }

  lemma FineTwo(c: int, c2: int, o: Options)
    requires 32 <= c < 128 && 32 <= c2 < 128
    ensures Fine([c, c2], o) && Fine([c], o)
  {
  }

  /** A text that ends with one of which all is kept. */
  lemma EndsKeep(x: Text, y: Text, o: Options)
    requires x != [] && !White(x[|x| - 1]) && (o.upnostrip || y == [] || !White(y[|y| - 1]))
    ensures Kept(x + y, o) == |x + y| && (x + y)[..|x + y|] == x + y
  {
    hide Kept;
    var g := x + y;
    assert y != [] ==> g[|g| - 1] == y[|y| - 1];
    GKept(g, |g|, o);
  }

  lemma NothingBack(r: Text, o: Options)
    requires r != []
    ensures var g := Reread([]); g == [ESC] && SevenBit(g) && Tabless(g, o) && g[..Kept(g, o)] != [ESC] + r
  {
  }

  /** Blanks in the place of a character: the half ESC before the first makes a NUL. */
  lemma BlankBack(f: Text, y: Text, k: nat, n: nat, r: Text, o: Options)
    requires 1 <= k <= n + |y| && n >= 1 && f == (Times(n, BLANK) + y)[..k] && SevenBit(y) && Tabless(y, o)
    ensures var g := Reread(f);
            SevenBit(g) && Tabless(g, o) && g != [] && !White(g[0]) && g[..Kept(g, o)] != [ESC] + r
  {
    hide Kept;
    assert f[0] == BLANK;
    var g := Reread(f);
    assert g == [0] + f[1..];
    TailFine(f, y, k, n, o);
    NulFirst(g, o);
    assert ([ESC] + r)[0] == ESC;
  }

  lemma TailFine(f: Text, y: Text, k: nat, n: nat, o: Options)
    requires 1 <= k <= n + |y| && n >= 1 && f == (Times(n, BLANK) + y)[..k] && Fine(y, o)
    ensures Fine([0] + f[1..], o)
  {
    forall i | 0 <= i < |f|
      ensures f[i] == if i < n then BLANK else y[i - n]
    {
    }
    var g := [0] + f[1..];
    assert forall i :: 1 <= i < |g| ==> g[i] == f[i];
  }

  lemma NulFirst(g: Text, o: Options)
    requires g != [] && g[0] == 0
    ensures Kept(g, o) >= 1 && g[..Kept(g, o)][0] == 0
  {
    KeptEnds(g, Kept(g, o), o);
  }

  // ----- the file -----

  lemma InsideEsc(d: Text, k: nat)
    requires k < |d| && d[k] == ESC
    ensures d == d[..k] + ([ESC] + d[k + 1..])
    ensures EscAll(d) == EscAll(d[..k]) + [ESC] + ([ESC] + EscAll(d[k + 1..]))
  {
    hide EscAll;
    var a, r := d[..k], d[k + 1..];
    assert d == a + ([ESC] + r);
    EscAllCat(a, [ESC] + r);
    EscAllCat([ESC], r);
    EscOne(ESC);
    Regroup(EscAll(a), ESC, EscAll(r));
  }

  /** A line that ends with an ESC, split inside its escape, is not: the ESC comes back as two. */
  lemma SplitInLastEsc(f: File, line: nat, nl: nat, newc: nat, a: Text, o: Options)
    requires nl >= 1 && line < |f| && SevenBit(a) && Tabless(a, o) && OneMode(o) && !Tabbing(o)
    requires f[line] == EscAll(a + [ESC])
    ensures var col := |EscAll(a)| + 1;
            var g := Split(f, line, col, nl, newc, o);
            && |g| == |f| + nl
            && Join(g, line, col, nl, newc, o) == f[line := EscAll(a + [ESC, ESC])] != f
  {
    hide EscAll, Saved, Split, Join, Padded;
    var front := EscAll(a) + [ESC];
    EscAllCat(a, [ESC]);
    EscOne(ESC);
    var s := f[line];
    assert s == front + [ESC] && s[..|front|] == front && s[|front|..] == [ESC];
    SavedEndsEsc(a, o);
    FrontHalf(EscAll(a));
    BlanksEndEsc(newc, o);
    assert a + [ESC] + [ESC] == a + [ESC, ESC];
    SavedEndsEsc(a + [ESC], o);
    EscAllCat(a, [ESC, ESC]);
    EscAllCat([ESC], [ESC]);
    assert [ESC] + [ESC] == [ESC, ESC];
    assert front + [ESC, ESC] == EscAll(a + [ESC]) + [ESC];
    assert EscAll(a + [ESC, ESC]) == EscAll(a + [ESC]) + [ESC, ESC];
    assert |EscAll(a + [ESC, ESC])| > |s|;
    JoinsTwice(f, line, front, nl, newc, EscAll(a + [ESC, ESC]), o);
  }

  lemma BlanksEndEsc(newc: nat, o: Options)
    requires OneMode(o) && !Tabbing(o)
    ensures Saved(Times(newc, BLANK) + [ESC], o) == Times(newc, BLANK) + [ESC, ESC]
  {
    hide EscAll, Saved;
    EscPrinting(Times(newc, BLANK));
    SavedEndsEsc(Times(newc, BLANK), o);
  }

  lemma JoinsTwice(f: File, line: nat, front: Text, nl: nat, newc: nat, twice: Text, o: Options)
    requires nl >= 1 && line < |f| && f[line] == front + [ESC] && Padded(Saved(front, o), |front|)[..|front|] == front
    requires Saved(Times(newc, BLANK) + [ESC], o) == Times(newc, BLANK) + [ESC, ESC]
    requires Saved(front + [ESC, ESC], o) == twice && twice != f[line]
    ensures var g := Split(f, line, |front|, nl, newc, o);
            |g| == |f| + nl && Join(g, line, |front|, nl, newc, o) == f[line := twice] != f
  {
    hide Saved, Padded, Split;
    var g := Split(f, line, |front|, nl, newc, o);
    SplitShape(f, line, |front|, nl, newc, o);
    assert f[line][..|front|] == front && f[line][|front|..] == [ESC];
    var t := Times(newc, BLANK) + [ESC, ESC];
    assert t[newc..] == [ESC, ESC];
    assert JoinedLine(g[line], |front|, t, newc) == front + [ESC, ESC];
    hide JoinedLine, Times;
    assert f[line := twice] == f[..line] + [twice] + f[line + 1..];
  }

  /** Part of a line of a text is a line of a text no longer. */
  lemma {:induction false} PartOfText(a: Text, i: nat, o: Options) returns (u: Text)
    requires SevenBit(a) && Tabless(a, o) && i <= |EscAll(a)|
    ensures |u| <= |a| && SevenBit(u) && Tabless(u, o)
    ensures NL in EscAll(a)[..i] + [NL] && Decoded(EscAll(a)[..i] + [NL]) == u
  {
    hide EscAll, Decoded, Esc;
    u := [];
    var s := EscAll(a)[..i];
    assert (s + [NL])[i] == NL;
    if i == 0 {
      EscNothing();
      DecodedEsc([]);
      assert s + [NL] == EscAll([]) + [NL];
    } else {
      EscNothing();
      assert a != [];
      var c, rest := a[0], a[1..];
      assert a == [c] + rest;
      EscAllCat([c], rest);
      EscOne(c);
      EscForms(c);
      if i < |Esc(c)| {
        assert s == [ESC];
        assert s + [NL] == [ESC, NL];
        DecodedEndsEsc();
        u := [ESC];
      } else {
        var more := PartOfText(rest, i - |Esc(c)|, o);
        var s2 := EscAll(rest)[..i - |Esc(c)|];
        assert s == Esc(c) + s2;
        assert s + [NL] == Esc(c) + (s2 + [NL]);
        DecodedOne(c, s2 + [NL]);
        u := [c] + more;
      }
    }
  }

  /** The second half of the line, moved to column newc, as it is saved: what of it is kept, or less than
      the blanks it was moved by. */
  lemma SecondHalf(r: Text, newc: nat, o: Options) returns (n: nat, k: nat)
    requires SevenBit(r) && Tabless(r, o) && OneMode(o) && !Tabbing(o)
    ensures n >= 1 && EndsAt(Back(r, n, o), k, o)
    ensures var t := Saved(Times(newc, BLANK) + ([ESC] + EscAll(r)), o);
            t == Times(newc, BLANK) + EscAll(Back(r, n, o)[..k]) || (t == [] && k == 0 && !o.upnostrip)
  {
    hide EscAll, Decoded, Saved, Plain, Kept, Esc;
    var m := Times(newc, BLANK);
    var s := m + ([ESC] + EscAll(r));
    RereadIs(r);
    RereadFine(r);
    EscPrinting(m);
    DecodedCat(m, [ESC] + EscAll(r) + [NL]);
    assert s + [NL] == EscAll(m) + ([ESC] + EscAll(r) + [NL]);
    var d := m + Reread(r);
    SavedAny(s, d, o);
    n := PlainBack(r, newc, o);
    PlainBlanks(newc, Reread(r), 0, o.litmode);
    var b := Back(r, n, o);
    var e := m + b;
    k := Kept(b, o);
    KeptEnds(b, k, o);
    MovedEnds(newc, b, k, o);
    if k > 0 || o.upnostrip {
      EscTimes(newc, b[..k]);
    } else {
      EscNothing();
    }
  }

  /** What is kept of a text moved by newc blanks. */
  lemma MovedEnds(newc: nat, b: Text, k: nat, o: Options)
    requires k == Kept(b, o)
    ensures var e := Times(newc, BLANK) + b;
            if k > 0 || o.upnostrip then Kept(e, o) == newc + k && e[..newc + k] == Times(newc, BLANK) + b[..k]
            else Kept(e, o) == 0 && e[..0] == []
  {
    hide Kept;
    var e := Times(newc, BLANK) + b;
    KeptEnds(b, k, o);
    assert forall i :: newc <= i < |e| ==> e[i] == b[i - newc];
    KeptEnds(e, if k > 0 || o.upnostrip then newc + k else 0, o);
  }

  lemma {:induction false} PlainBlanks(n: nat, d: Text, col: nat, lit: bool)
    ensures Plain(Times(n, BLANK) + d, col, lit) == Times(n, BLANK) + Plain(d, col + n, lit)
    decreases n
  {
    if n == 0 {
      assert Times(n, BLANK) + d == d && Times(n, BLANK) + Plain(d, col + n, lit) == Plain(d, col + n, lit);
    } else {
      hide Plain, Times;
      PlainBlanks(n - 1, d, col + 1, lit);
      FirstBlank(n, d);
      FirstBlank(n, Plain(d, col + n, lit));
      PlainBlank(Times(n - 1, BLANK) + d, col, lit);
    }
  }

  lemma FirstBlank(n: nat, d: Text)
    requires n > 0
    ensures Times(n, BLANK) + d == [BLANK] + (Times(n - 1, BLANK) + d)
  {
  }

  lemma PlainBlank(y: Text, col: nat, lit: bool)
    ensures Plain([BLANK] + y, col, lit) == [BLANK] + Plain(y, col + 1, lit)
  {
    assert ([BLANK] + y)[1..] == y;
  }

  /** What the line that is joined again says. */
  lemma JoinedSays(a: Text, f: Text, r: Text, o: Options)
    requires SevenBit(a) && Tabless(a, o) && SevenBit(f) && OneMode(o) && !Tabbing(o) && SevenBit(r) && Tabless(r, o)
    requires var g := Reread(f); SevenBit(g) && Tabless(g, o) && g != [] && !White(g[0])
    ensures var g := Reread(f);
            Saved(EscAll(a) + [ESC] + EscAll(f), o) == EscAll(a + ([ESC] + r)) <==> g[..Kept(g, o)] == [ESC] + r
  {
    hide EscAll, Decoded, Saved, Kept, Plain, Reread;
    var g := Reread(f);
    var s := EscAll(a) + [ESC] + EscAll(f);
    RereadIs(f);
    DecodedCat(a, [ESC] + EscAll(f) + [NL]);
    assert s + [NL] == EscAll(a) + ([ESC] + EscAll(f) + [NL]);
    SavedAny(s, a + g, o);
    PlainSays(a + g, 0, o.litmode);
    assert Tabless(a + g, o);
    KeptAfter(a, g, o);
    SameSaying(a, g[..Kept(g, o)], [ESC] + r);
  }

  lemma KeptAfter(a: Text, g: Text, o: Options)
    requires g != [] && !White(g[0])
    ensures (a + g)[..Kept(a + g, o)] == a + g[..Kept(g, o)]
  {
    hide Kept;
    var k, d := Kept(g, o), a + g;
    KeptEnds(g, k, o);
    assert forall i :: |a| <= i < |d| ==> d[i] == g[i - |a|];
    KeptEnds(d, |a| + k, o);
  }

  lemma SameSaying(a: Text, x: Text, y: Text)
    requires SevenBit(a) && SevenBit(x) && SevenBit(y)
    ensures EscAll(a + x) == EscAll(a + y) <==> x == y
  {
    hide EscAll;
    if EscAll(a + x) == EscAll(a + y) {
      EscInjective(a + x, a + y);
      assert (a + x)[|a|..] == x && (a + y)[|a|..] == y;
    }
  }

  /** A line split inside the escape of an ESC is joined again if and only if the second half is a text. */
  lemma SplitInEsc(f: File, line: nat, k: nat, nl: nat, newc: nat, d: Text, o: Options)
    requires nl >= 1 && line < |f| && Writable(d, o) && !Tabbing(o) && Says(f[line], d, o) && k < |d| && d[k] == ESC
    ensures var g := Split(f, line, Place(d, k, true), nl, newc, o);
            && |g| == |f| + nl
            && (Join(g, line, Place(d, k, true), nl, newc, o) == f <==> HalfKeeps(d[k + 1..], o))
  {
    hide EscAll, Saved, Padded, Split, Join, Kept, HalfKeeps, Back, Reread, TabsKeep;
    var a, r := d[..k], d[k + 1..];
    InsideEsc(d, k);
    EscParts(d, k, o);
    SavedEndsEsc(a, o);
    FrontHalf(EscAll(a));
    var n, m := SecondHalf(r, newc, o);
    BackAgain(r, n, m, o);
    var front, back, b := EscAll(a) + [ESC], [ESC] + EscAll(r), Back(r, n, o)[..m];
    BackFine(r, n, o);
    assert SevenBit(b);
    JoinedSays(a, b, r, o);
    assert front + EscAll(b) == EscAll(a) + [ESC] + EscAll(b);
    var t := Saved(Times(newc, BLANK) + back, o);
    SplitShape(f, line, |front|, nl, newc, o);
    HalfJoined(f, line, front, back, t, nl, newc, o);
    if t == Times(newc, BLANK) + EscAll(b) {
      assert t[newc..] == EscAll(b);
      assert JoinedLine(Saved(front, o), |front|, t, newc) == front + EscAll(b);
    } else {
      Emptied(a, b, r, newc, o);
      NothingLeft(r, n, o);
    }
  }

  lemma NothingLeft(r: Text, n: nat, o: Options)
    requires EndsAt(Back(r, n, o), 0, o) && !o.upnostrip
    ensures var g := Reread(Back(r, n, o)[..0]); g[..Kept(g, o)] != [ESC] + r
  {
    assert Back([], n, o) == [ESC] && !White([ESC][0]);
    assert Back(r, n, o)[..0] == [];
    NothingBack(r, o);
  }

  lemma EscParts(d: Text, k: nat, o: Options)
    requires Writable(d, o) && !Tabbing(o) && k < |d| && d[k] == ESC && Kept(d, o) == |d|
    ensures var a, r := d[..k], d[k + 1..];
            && SevenBit(a) && Tabless(a, o) && SevenBit(r) && Tabless(r, o) && Writable(a + [ESC], o)
            && (o.upnostrip || r == [] || !White(r[|r| - 1])) && d == a + ([ESC] + r)
  {
    var a, r := d[..k], d[k + 1..];
    assert d == a + ([ESC] + r);
    assert r != [] ==> r[|r| - 1] == d[|d| - 1];
    FinePart(a, [ESC] + r, o);
    FinePart([ESC], r, o);
  }

  /** The line joined again, whatever its second half has become. */
  lemma HalfJoined(f: File, line: nat, front: Text, back: Text, t: Text, nl: nat, newc: nat, o: Options)
    requires nl >= 1 && line < |f| && f[line] == front + back && back != []
    requires Saved(Times(newc, BLANK) + back, o) == t
    ensures var g := Split(f, line, |front|, nl, newc, o);
            && |g| == |f| + nl
            && Join(g, line, |front|, nl, newc, o) == f[line := Saved(JoinedLine(Saved(front, o), |front|, t, newc), o)]
  {
    hide Saved, Padded, Split, JoinedLine;
    var g := Split(f, line, |front|, nl, newc, o);
    SplitShape(f, line, |front|, nl, newc, o);
    assert f[line][..|front|] == front && f[line][|front|..] == back;
    hide Times;
    var x := Saved(JoinedLine(g[line], |front|, t, newc), o);
    assert f[line := x] == f[..line] + [x] + f[line + 1..];
  }

  /** A second half of which nothing is left is not joined again. */
  lemma Emptied(a: Text, b: Text, r: Text, newc: nat, o: Options)
    requires SevenBit(a) && Tabless(a, o) && SevenBit(r) && OneMode(o) && !Tabbing(o) && b == []
    requires Saved(EscAll(a) + [ESC], o) == EscAll(a) + [ESC, ESC]
    ensures var front := EscAll(a) + [ESC];
            newc == 0 || newc > |front| || Saved(JoinedLine(Saved(front, o), |front|, [], newc), o) != EscAll(a + ([ESC] + r))
    ensures var front := EscAll(a) + [ESC];
            newc == 0 || newc > |front| ==> JoinedLine(Saved(front, o), |front|, [], newc) == front + EscAll(b)
  {
    hide EscAll, Saved, Padded, Kept, Plain;
    EscNothing();
    var front := EscAll(a) + [ESC];
    FrontHalf(EscAll(a));
    if 0 < newc <= |front| {
      var i := |front| - newc;
      assert front[..i] == EscAll(a)[..i];
      var u := PartOfText(a, i, o);
      SavedAny(EscAll(a)[..i], u, o);
      PlainSays(u, 0, o.litmode);
      var x, y := u[..Kept(u, o)], a + ([ESC] + r);
      assert SevenBit(x) && SevenBit(y) && |x| < |y|;
      if EscAll(x) == EscAll(y) {
        EscInjective(x, y);
        assert false;
      }
    }
  }
}
