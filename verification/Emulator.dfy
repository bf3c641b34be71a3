/** The simulated terminal: what a stream of display codes does to the screen image and cursor,
    with no terminal in sight. */
module Emulator {
  import opened Terminal

  const VCCNUL := 0
  const VCCBEL := 7
  const VCCLEF := 8
  const VCCHOM := 11
  const VCCRET := 13
  const VCCUP := 14
  const VCCARG := 17
  const VCCDWN := 18
  const VCCAAD1 := 19
  const VCCAAD := 20
  const VCCRIT := 31

  /** The image of a w by h screen, the cursor, the state the next character is analysed in and the
      repeat count.  In state 1 the last character filled its line, and the next one goes below. */
  datatype Emu = Emu(w: nat, h: nat, image: seq<int>, line: int, col: int, state: int, arg: int)
  {
    function At(): int {
      Cells(line, w) + col
    }

    predicate Valid() {
      && 0 < w && 0 < h && |image| == Cells(h, w) && 0 <= line < h && 0 <= col < w
      && state in {0, 1, 2, 3, 5, 16} && arg >= 1
      && (state == 1 || state == 16 ==> col == 0) && (state in {2, 3} ==> arg == 1)
    }

    /** The cursor is on a cell. */
    lemma OnScreen()
      requires Valid()
      ensures 0 <= At() < |image|
    {
      hide Cells;
      CellsNext(line, w);
      CellsMonotone(0, line, w);
      CellsMonotone(line + 1, h, w);
    }

    /** The line the cursor is in is on the screen. */
    lemma RoomInLine()
      requires Valid()
      ensures 0 <= At() && At() + (w - col) <= |image|
      ensures At() + (w - col) == |image| <==> line == h - 1
    {
      hide Cells;
      CellsNext(line, w);
      CellsNext(line + 1, w);
      CellsMonotone(0, line, w);
      if line < h - 1 {
        CellsMonotone(line + 2, h, w);
      }
    }

    /** One character at the cursor. */
    function Put(chr: int): (e: Emu)
      requires Valid() && state == 0
      ensures e.Valid() && e.state in {0, 1} && e.arg == arg && e.w == w && e.h == h
    {
      OnScreen();
      var e := this.(image := image[At() := chr]);
      if col < w - 1 then e.(col := col + 1, state := 0) else e.(col := 0, state := 1)
    }

    /** Where a pending line break leads; at the bottom it leads nowhere. */
    function Unwrap(): (e: Emu)
      requires Valid() && state in {0, 1}
      ensures e.Valid() && e.state == 0 && e.arg == arg && e.w == w && e.h == h
    {
      if state == 1 then this.(line := if line < h - 1 then line + 1 else line, state := 0) else this
    }

    /** A character typed n times. */
    function PutAll(chr: int, n: nat): (e: Emu)
      requires Valid() && state in {0, 1}
      ensures e.Valid() && e.state in {0, 1} && e.arg == arg && e.w == w && e.h == h
      decreases n
    {
      if n == 0 then this else Unwrap().Put(chr).PutAll(chr, n - 1)
    }

    /** The cells from the cursor to the end of the screen. */
    function Left(): (n: nat)
      requires Valid()
      ensures n >= 1
    {
      OnScreen();
      |image| - At()
    }

    /** A character repeated by the count stops at the bottom right corner. */
    function Repeated(chr: int): Emu
      requires Valid() && state in {0, 1}
    {
      var e := Unwrap();
      e.OnScreen();
      e.PutAll(chr, if arg <= e.Left() then arg else e.Left()).(arg := 1)
    }

    /** A command, wherever it is recognised. */
    function Command(chr: int): Emu
      requires Valid()
    {
      match chr
      case 7 => this.(state := 0)
      case 8 => this.(col := Round(col - arg, w), state := 0, arg := 1)
      case 11 => this.(line := 0, col := 0, state := 0, arg := 1)
      case 13 => this.(col := 0, state := 0, arg := 1)
      case 14 => this.(line := Round(line - arg, h), state := 0, arg := 1)
      case 17 => this.(state := 2, arg := 1)
      case 18 => this.(line := Round(line + arg, h), state := 0, arg := 1)
      case 20 => this.(state := 3, arg := 1)
      case 31 => this.(col := Round(col + arg, w), state := 0, arg := 1)
      case _ => this.(state := 0)
    }

    /** The codes that are modelled; the others end a call to the display manager. */
    static predicate IsCommand(chr: int) {
      chr in {VCCBEL, VCCLEF, VCCHOM, VCCRET, VCCUP, VCCARG, VCCDWN, VCCAAD, VCCRIT}
    }

    /** In these states a control code is not part of what came before it. */
    predicate Recognises(chr: int) {
      chr < BLANK && (state == 0 || (state == 1 && chr != VCCARG) || state == 2 || state == 3 || state == 5)
    }

    /** One code other than a two-byte address. */
    function Feed(chr: int): (e: Emu)
      requires Valid() && 0 <= chr < 256
      ensures e.Valid() && e.w == w && e.h == h
    {
      if chr == VCCNUL then this
      else if Recognises(chr) then Command(chr)
      else match state
        case 0 => Repeated(chr)
        case 1 => if chr == VCCARG then this.(state := 16) else Repeated(chr)
        case 2 => this.(state := 0, arg := if chr > BLANK then chr - BLANK else 1)
        case 3 =>
          if chr == BLANK then this.(state := 5)
          else this.(col := (if chr - BLANK < w then chr - BLANK else w) - 1, state := 5)
        case 5 =>
          if chr == BLANK then this.(state := 0)
          else this.(line := (if chr - BLANK < h then chr - BLANK else h) - 1, state := 0)
        case _ => this.(state := 1, arg := if chr > BLANK then chr - BLANK else arg)
    }
  }

  /** The codes left out of the model. */
  predicate LeftOut(chr: int) {
    chr in {1, 3, 4, 30}
  }

  /** A stream of codes.  A two-byte address takes its column from the two bytes after it, the second
      of which is then looked at once more. */
  function Run(e: Emu, b: seq<int>): Emu
    requires e.Valid() && forall i :: 0 <= i < |b| ==> 0 <= b[i] < 256
    decreases |b|
  {
    if b == [] then e
    else if b[0] != VCCNUL && e.Recognises(b[0]) && !Emu.IsCommand(b[0]) then
      if b[0] == VCCAAD1 && |b| >= 3 && b[1] + 256 * b[2] < e.w then
        Run(e.(col := b[1] + 256 * b[2], state := 5), b[2..])
      else e.(state := 0)
    else Run(e.Feed(b[0]), b[1..])
  }

  /** No stream may name a code left out of the model, or a column beyond the screen.  A terminal that
      erases, or clears to the end of the line, is safe if, besides, all runs of blanks are. */
  ghost predicate Accepts(e: Emu, way: Way, b: seq<int>)
    requires e.Valid() && forall i :: 0 <= i < |b| ==> 0 <= b[i] < 256
    decreases |b|
  {
    b == [] ||
    if b[0] != VCCNUL && e.Recognises(b[0]) && !Emu.IsCommand(b[0]) then
      if b[0] == VCCAAD1 then
        |b| >= 3 && b[1] + 256 * b[2] < e.w && Accepts(e.(col := b[1] + 256 * b[2], state := 5), way, b[2..])
      else !LeftOut(b[0])
    else (b[0] == BLANK && (e.state == 0 || e.state == 1) ==> SafeRun(e.Unwrap(), way))
         && Accepts(e.Feed(b[0]), way, b[1..])
  }

  /** A run of blanks, as long as the count says, that does no harm. */
  ghost predicate SafeRun(e: Emu, way: Way)
    requires e.Valid()
  {
    match way
    case Written => true
    case Erased => ErasesInPlace(e)
    case Cleared => ClearsInPlace(e)
  }

  /** The run does not go on to erase a line below the one it began on, unless it began in the first column. */
  predicate ErasesInPlace(e: Emu) {
    e.col == 0 || e.col + e.arg - e.w <= 5 || e.w <= 5 || e.line == e.h - 1
  }

  /** Of the cells from `from` to lim only cp is not blank. */
  ghost predicate Lone(image: seq<int>, from: int, lim: int, cp: int) {
    && from <= cp < lim && 0 <= cp < |image| && image[cp] != BLANK
    && forall i :: from <= i < lim && 0 <= i < |image| && i != cp ==> image[i] == BLANK
  }

  ghost predicate HasLone(image: seq<int>, from: int, lim: int) {
    exists cp :: Lone(image, from, lim, cp)
  }

  /** Where the run ends, no line is cleared that has just one cell not blank to the right; or it is the first
      line of the screen. */
  ghost predicate ClearsInPlace(e: Emu)
    requires e.Valid()
  {
    var end := e.At() + e.arg;
    e.arg <= 5 || end % e.w <= 5 || end < e.w || end >= |e.image|
    || !HasLone(e.image, end, Cells((end - 1) / e.w + 1, e.w))
  }

  /** What other terminals may be sent one that writes all its blanks may be. */
  lemma {:induction false} AcceptsLess(e: Emu, way: Way, b: seq<int>)
    requires e.Valid() && (forall i :: 0 <= i < |b| ==> 0 <= b[i] < 256) && Accepts(e, way, b)
    ensures Accepts(e, Written, b)
    decreases |b|
  {
    if b == [] {
    } else if b[0] != VCCNUL && e.Recognises(b[0]) && !Emu.IsCommand(b[0]) {
      if b[0] == VCCAAD1 {
        AcceptsLess(e.(col := b[1] + 256 * b[2], state := 5), way, b[2..]);
      }
    } else {
      hide Emu.Feed;
      AcceptsLess(e.Feed(b[0]), way, b[1..]);
    }
  }

  // ----- runs of one character -----

  /** A stretch of an image made all one character. */
  function Filled(image: seq<int>, at: int, n: nat, chr: int): (r: seq<int>)
    requires 0 <= at && at + n <= |image|
    ensures |r| == |image|
    ensures forall i :: 0 <= i < |r| ==> r[i] == if at <= i < at + n then chr else image[i]
    decreases n
  {
    if n == 0 then image else Filled(image[at := chr], at + 1, n - 1, chr)
  }

  /** A run within one line. */
  lemma {:induction false} PutInLine(e: Emu, chr: int, n: nat)
    requires e.Valid() && e.state == 0 && n <= e.w - e.col
    ensures e.At() + n <= |e.image| && 0 <= e.At()
    ensures e.PutAll(chr, n) ==
            var f := e.(image := Filled(e.image, e.At(), n, chr));
            if n < e.w - e.col then f.(col := e.col + n) else f.(col := 0, state := 1)
    decreases n
  {
    e.RoomInLine();
    if n != 0 {
      var p := e.Put(chr);
      if e.col < e.w - 1 {
        PutInLine(p, chr, n - 1);
      }
    }
  }

  lemma {:induction false} PutAllAdd(e: Emu, chr: int, a: nat, b: nat)
    requires e.Valid() && e.state in {0, 1}
    ensures e.PutAll(chr, a + b) == e.PutAll(chr, a).PutAll(chr, b)
    decreases a
  {
    if a != 0 {
      PutAllAdd(e.Unwrap().Put(chr), chr, a - 1, b);
    }
  }

  /** While a run stays short of the corner, the room left shrinks by its length. */
  lemma {:induction false} RoomAfter(e: Emu, chr: int, n: nat)
    requires e.Valid() && e.state in {0, 1} && n < e.Unwrap().Left()
    ensures e.PutAll(chr, n).Unwrap().Left() == e.Unwrap().Left() - n
    decreases n
  {
    if n != 0 {
      var u := e.Unwrap();
      var p := u.Put(chr);
      assert p.Unwrap().Left() == u.Left() - 1 by {
        hide Emu.Put;
        PutRoom(u, chr);
      }
      RoomAfter(p, chr, n - 1);
    }
  }

  lemma PutRoom(u: Emu, chr: int)
    requires u.Valid() && u.state == 0 && u.Left() > 1
    ensures u.Put(chr).Unwrap().Left() == u.Left() - 1
  {
    hide Cells;
    CellsNext(u.line, u.w);
  }

  /** A character repeated by the count means the same as that many characters, if the run does not
      pass the bottom right corner. */
  lemma RepeatedIsTyped(e: Emu, chr: int)
    requires e.Valid() && e.state in {0, 1} && e.arg <= e.Unwrap().Left()
    ensures e.Repeated(chr) == e.(arg := 1).PutAll(chr, e.arg)
  {
    PutAllArg(e, chr, e.arg);
    if e.state == 1 {
      assert e.PutAll(chr, e.arg) == e.Unwrap().PutAll(chr, e.arg);
    }
  }

  lemma PutArg(e: Emu, chr: int)
    requires e.Valid() && e.state in {0, 1}
    ensures e.(arg := 1).Valid()
    ensures e.(arg := 1).Unwrap().Put(chr) == e.Unwrap().Put(chr).(arg := 1)
  {
  }

  lemma {:induction false} PutAllArg(e: Emu, chr: int, n: nat)
    requires e.Valid() && e.state in {0, 1}
    ensures e.PutAll(chr, n).(arg := 1) == e.(arg := 1).PutAll(chr, n)
    decreases n
  {
    if n != 0 {
      hide Emu.Valid, Emu.Put, Emu.Unwrap;
      var p := e.Unwrap().Put(chr);
      PutArg(e, chr);
      PutAllArg(p, chr, n - 1);
    }
  }

  /** The first line's share of a run: the cursor is left at the next cell of the line, or at its
      beginning when the line is full. */
  function FirstLine(e: Emu, chr: int, n: nat): (f: Emu)
    requires e.Valid() && e.state == 0 && n <= e.w - e.col
    ensures f.Valid() && f.w == e.w && f.h == e.h && f.line == e.line && f.state == 0 && f.arg == e.arg
  {
    e.RoomInLine();
    e.(image := Filled(e.image, e.At(), n, chr), col := if n < e.w - e.col then e.col + n else 0)
  }

  /** A run taken line by line, stopping at the bottom right corner. */
  function ByLines(e: Emu, chr: int, n: nat): Emu
    requires e.Valid() && e.state == 0 && n >= 1
    decreases n
  {
    if n < e.w - e.col then FirstLine(e, chr, n)
    else
      var f := FirstLine(e, chr, e.w - e.col);
      if n == e.w - e.col || e.line == e.h - 1 then f.(state := 1)
      else ByLines(f.(line := e.line + 1), chr, n - (e.w - e.col))
  }

  lemma FirstLineTyped(e: Emu, chr: int, n: nat)
    requires e.Valid() && e.state == 0 && n <= e.w - e.col
    ensures e.PutAll(chr, n) == if n < e.w - e.col then FirstLine(e, chr, n) else FirstLine(e, chr, n).(state := 1)
  {
    hide Filled, Emu.PutAll, Cells;
    PutInLine(e, chr, n);
  }

  lemma FirstLineRoom(e: Emu, chr: int)
    requires e.Valid() && e.state == 0 && e.line < e.h - 1
    ensures var f := FirstLine(e, chr, e.w - e.col);
            f.col == 0 && f.(line := e.line + 1).Valid() && f.(line := e.line + 1).Left() == e.Left() - (e.w - e.col)
  {
    hide Filled;
    e.RoomInLine();
    hide Cells;
    CellsNext(e.line, e.w);
  }

  lemma LineRoom(e: Emu)
    requires e.Valid()
    ensures 0 < e.w - e.col <= e.Left() && (e.w - e.col == e.Left() <==> e.line == e.h - 1)
  {
    e.RoomInLine();
  }

  /** A run that ends in the line it begins in, or at the corner. */
  lemma LastLine(e: Emu, chr: int, n: nat)
    requires e.Valid() && e.state == 0 && n >= 1 && (n <= e.w - e.col || e.line == e.h - 1)
    ensures ByLines(e, chr, n) == e.PutAll(chr, if n <= e.Left() then n else e.Left())
  {
    hide FirstLine, Emu.PutAll, Emu.Left, Cells, Filled;
    LineRoom(e);
    FirstLineTyped(e, chr, if n < e.w - e.col then n else e.w - e.col);
  }

  /** A run that goes on to the next line. */
  lemma GoesOn(e: Emu, chr: int, n: nat, m: nat)
    requires e.Valid() && e.state == 0 && n > e.w - e.col && e.line < e.h - 1 && m > e.w - e.col
    ensures var f := FirstLine(e, chr, e.w - e.col);
            && f.(state := 1).Unwrap() == f.(line := e.line + 1)
            && ByLines(e, chr, n) == ByLines(f.(line := e.line + 1), chr, n - (e.w - e.col))
            && e.PutAll(chr, m) == f.(line := e.line + 1).PutAll(chr, m - (e.w - e.col))
  {
    hide Emu.PutAll, Emu.Left, Cells, Filled;
    var i := e.w - e.col;
    var f := FirstLine(e, chr, i);
    FirstLineTyped(e, chr, i);
    assert f.(state := 1).Valid() by {
      FirstLineRoom(e, chr);
    }
    PutAllAdd(e, chr, i, m - i);
    UnwrapThenType(f.(state := 1), chr, m - i);
    assert f.(state := 1).Unwrap() == f.(line := e.line + 1);
  }

  lemma {:induction false} ByLinesIsTyped(e: Emu, chr: int, n: nat)
    requires e.Valid() && e.state == 0 && n >= 1
    ensures ByLines(e, chr, n) == e.PutAll(chr, if n <= e.Left() then n else e.Left())
    decreases n
  {
    hide FirstLine, Emu.PutAll, Emu.Left, Emu.Unwrap, ByLines, Cells, Filled;
    if n <= e.w - e.col || e.line == e.h - 1 {
      LastLine(e, chr, n);
    } else {
      LineRoom(e);
      FirstLineRoom(e, chr);
      var g := FirstLine(e, chr, e.w - e.col).(line := e.line + 1);
      GoesOn(e, chr, n, if n <= e.Left() then n else e.Left());
      ByLinesIsTyped(g, chr, n - (e.w - e.col));
    }
  }

  lemma UnwrapThenType(e: Emu, chr: int, n: nat)
    requires e.Valid() && e.state in {0, 1} && n >= 1
    ensures e.PutAll(chr, n) == e.Unwrap().PutAll(chr, n)
  {
    hide Emu.Put, Cells;
  }

  /** One line of a run taken line by line. */
  lemma LineUnfolds(e: Emu, chr: int, n: nat, j: nat)
    requires e.Valid() && e.state == 0 && n >= 1 && j == (if e.w - e.col < n then e.w - e.col else n)
    ensures e.At() >= 0 && e.At() + j <= |e.image|
    ensures var f := e.(image := Filled(e.image, e.At(), j, chr), col := if j < e.w - e.col then e.col + j else 0);
            if j < e.w - e.col then ByLines(e, chr, n) == f
            else if n == j || e.line == e.h - 1 then ByLines(e, chr, n) == f.(state := 1)
            else ByLines(e, chr, n) == ByLines(f.(line := e.line + 1), chr, n - j)
  {
    hide Filled, Cells;
    e.RoomInLine();
  }

  // ----- the two ways of writing a run -----

  /** Three characters or fewer, one by one. */
  lemma {:induction false} Singles(e: Emu, way: Way, chr: int, n: nat, b: seq<int>)
    requires e.Valid() && e.state in {0, 1} && e.arg == 1 && BLANK <= chr < 256
    requires |b| == n && forall i :: 0 <= i < n ==> b[i] == chr
    requires n <= e.Unwrap().Left() || n == 0
    ensures Run(e, b) == e.PutAll(chr, n) && Accepts(e, way, b)
    decreases n
  {
    if n != 0 {
      hide Cells, Emu.Put, Emu.Command;
      OneFed(e, chr);
      var p := e.Unwrap().Put(chr);
      if n > 1 {
        RoomAfter(e, chr, 1);
        assert e.PutAll(chr, 1) == p.PutAll(chr, 0) == p;
      }
      Singles(p, way, chr, n - 1, b[1..]);
    }
  }

  lemma OneFed(e: Emu, chr: int)
    requires e.Valid() && e.state in {0, 1} && e.arg == 1 && BLANK <= chr < 256
    ensures e.Feed(chr) == e.Unwrap().Put(chr) && !e.Recognises(chr)
    ensures ErasesInPlace(e.Unwrap()) && ClearsInPlace(e.Unwrap())
  {
    hide Cells, Emu.Put;
    var u := e.Unwrap();
    assert u.PutAll(chr, 1) == u.Put(chr).PutAll(chr, 0);
  }

  /** A repeat count and one character. */
  lemma Burst(e: Emu, way: Way, chr: int, n: nat)
    requires e.Valid() && e.state in {0, 1} && e.arg == 1 && BLANK <= chr < 256
    requires 1 <= n <= 95 && n <= e.Unwrap().Left()
    requires chr == BLANK ==> way.Written? || (way.Erased? && e.Unwrap().col + n <= e.w)
    ensures Run(e, [VCCARG, n + BLANK, chr]) == e.PutAll(chr, n)
    ensures Accepts(e, way, [VCCARG, n + BLANK, chr])
  {
    hide Cells, Emu.Put, Emu.PutAll, Emu.Repeated;
    var b := [VCCARG, n + BLANK, chr];
    var f := e.Feed(VCCARG).Feed(n + BLANK);
    assert f == e.(arg := n);
    RepeatedIsTyped(f, chr);
    assert b[1..] == [n + BLANK, chr] && b[1..][1..] == [chr] && [chr][1..] == [];
    assert Run(f, [chr]) == f.Feed(chr) == f.Repeated(chr);
    assert Accepts(f, way, [chr]);
    assert Run(e.Feed(VCCARG), [n + BLANK, chr]) == Run(f, [chr]);
    assert Accepts(e.Feed(VCCARG), way, [n + BLANK, chr]);
  }

  lemma StaysInLine(e: Emu, chr: int, n: nat)
    requires e.Valid() && e.state in {0, 1} && e.Unwrap().col + n < e.w && n >= 1
    ensures e.PutAll(chr, n).Unwrap().col == e.Unwrap().col + n
  {
    hide Cells, Emu.Put, Emu.PutAll;
    UnwrapThenType(e, chr, n);
    PutInLine(e.Unwrap(), chr, n);
  }

  /** What is left of a run of num after a burst of n. */
  lemma BurstLeft(e: Emu, way: Way, chr: int, n: nat, num: nat)
    requires e.Valid() && e.state in {0, 1} && 1 <= n <= num <= e.Unwrap().Left()
    requires way.Erased? && chr == BLANK ==> e.Unwrap().col + num <= e.w
    ensures var f := e.PutAll(chr, n);
            && f.PutAll(chr, num - n) == e.PutAll(chr, num) && (n == num ==> f == e.PutAll(chr, num))
            && (n < num ==> num - n <= f.Unwrap().Left())
            && (n < num && way.Erased? && chr == BLANK ==> f.Unwrap().col + (num - n) <= e.w)
  {
    hide Cells, Emu.Put, Emu.PutAll, Emu.Left;
    PutAllAdd(e, chr, n, num - n);
    if n < num {
      RoomAfter(e, chr, n);
      if way.Erased? && chr == BLANK {
        StaysInLine(e, chr, n);
      }
    }
  }

  lemma NoneTyped(e: Emu, chr: int)
    requires e.Valid() && e.state in {0, 1}
    ensures e.PutAll(chr, 0) == e
  {
  }
}
