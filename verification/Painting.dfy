/** Painting the lines of a file in the rows of a window, reusing what the rows show already. */
module Painting {
  import opened Terminal
  import opened Emulator
  import opened Display

  const MAXWIDTH := 255

  /** What column k of a window shows of a line whose column lcol is in the window's column 0. */
  function Visible(line: seq<int>, lcol: nat, k: nat): int {
    if lcol + k < |line| then line[lcol + k] else BLANK
  }

  /** Characters that can be put on the screen. */
  ghost predicate Printing(line: seq<int>) {
    forall i :: 0 <= i < |line| ==> BLANK <= line[i] < 256
  }

  /** The n cells from `base` on show the line. */
  ghost predicate Shows(image: seq<int>, base: int, n: nat, line: seq<int>, lcol: nat) {
    0 <= base && base + n <= |image| && (forall i :: base <= i < base + n ==> image[i] == Visible(line, lcol, i - base))
  }

  /** Of the n cells from `base` on, those that are not blank lie between first and last. */
  ghost predicate Bounded(image: seq<int>, base: int, n: nat, first: int, last: int) {
    && 0 <= base && base + n <= |image| && 0 <= first <= n && 0 <= last <= n
    && forall i :: base <= i < base + n && image[i] != BLANK ==> first <= i - base < last
  }

  /** An image with a piece of text laid over it. */
  function Splice(image: seq<int>, at: int, b: seq<int>): (r: seq<int>)
    requires 0 <= at && at + |b| <= |image|
    ensures |r| == |image|
    ensures forall i :: 0 <= i < |r| ==> r[i] == if at <= i < at + |b| then b[i - at] else image[i]
  {
    image[..at] + b + image[at + |b|..]
  }

  /** Text typed within one line. */
  lemma {:induction false} TypeText(e: Emu, way: Way, b: seq<int>)
    requires e.Valid() && e.state == 0 && e.arg == 1 && Printing(b) && e.col + |b| < e.w
    ensures 0 <= e.At() && e.At() + |b| <= |e.image|
    ensures Run(e, b) == e.(image := Splice(e.image, e.At(), b), col := e.col + |b|)
    ensures Accepts(e, way, b)
    decreases |b|
  {
    hide Cells, Emu.Command, Emu.Repeated;
    e.RoomInLine();
    if b == [] {
      assert Splice(e.image, e.At(), b) == e.image;
    } else {
      OneFed(e, b[0]);
      var p := e.Put(b[0]);
      assert Printing(b[1..]);
      TypeText(p, way, b[1..]);
      assert Splice(e.image, e.At(), b) == Splice(p.image, p.At(), b[1..]);
    }
  }

  /** A two-byte address. */
  lemma AddressCodes(e: Emu, way: Way, col: nat, line: nat)
    requires e.Valid() && e.state == 0 && e.arg == 1 && col < e.w && col < 256 && line < e.h && line + 33 < 256
    ensures var b := [VCCAAD1, col, 0, line + 33];
            Run(e, b) == e.(col := col, line := line) && Accepts(e, way, b)
  {
    hide Cells, Emu.Command, Emu.Repeated;
    var b := [VCCAAD1, col, 0, line + 33];
    var f := e.(col := col, state := 5);
    assert b[2..] == [0, line + 33] && b[2..][1..] == [line + 33] && [line + 33][1..] == [];
    assert Run(f, b[2..]) == Run(f, [line + 33]) == f.Feed(line + 33);
    assert Accepts(f.Feed(line + 33), way, []);
    assert Accepts(f, way, [line + 33]);
    assert Accepts(f, way, b[2..]);
    assert b[1] + 256 * b[2] == col;
  }

  /** One step of an arrow. */
  lemma ArrowCode(e: Emu, way: Way, chr: int)
    requires e.Valid() && e.state == 0 && e.arg == 1
    requires chr in {VCCLEF, VCCRIT, VCCUP, VCCDWN}
    ensures Accepts(e, way, [chr])
    ensures chr == VCCLEF && 0 < e.col ==> Run(e, [chr]) == e.(col := e.col - 1)
    ensures chr == VCCRIT && e.col + 1 < e.w ==> Run(e, [chr]) == e.(col := e.col + 1)
    ensures chr == VCCUP && 0 < e.line ==> Run(e, [chr]) == e.(line := e.line - 1)
    ensures chr == VCCDWN && e.line + 1 < e.h ==> Run(e, [chr]) == e.(line := e.line + 1)
  {
    hide Cells, Round, Emu.Repeated;
    assert [chr][1..] == [];
    RoundOnce(e.col - 1, e.w);
    RoundOnce(e.col + 1, e.w);
    RoundOnce(e.line - 1, e.h);
    RoundOnce(e.line + 1, e.h);
  }

  /** An image with columns col to lstcol of a row showing a line, and blanks from there to last. */
  ghost predicate Overlaid(before: seq<int>, after: seq<int>, base: int, n: nat, line: seq<int>, lcol: nat,
                           col: int, lstcol: int, last: int)
  {
    && |before| == |after| && 0 <= base && base + n <= |before| && 0 <= col && lstcol <= n && last <= n
    && forall i :: 0 <= i < |after| ==>
         after[i] == if base + col <= i < base + lstcol then Visible(line, lcol, i - base)
                     else if base + lstcol <= i < base + last then BLANK else before[i]
  }

  /** The repaint of one row: blanks up to the first character, the text, and blanks over what the row
      used to show beyond it. */
  lemma RowPainted(before: seq<int>, after: seq<int>, base: int, n: nat, line: seq<int>, lcol: nat,
                   strtcol: int, first: int, last: int, fc: int, col: int, lstcol: int)
    requires |before| == |after| && Bounded(before, base, n, first, last)
    requires 0 <= strtcol <= n && forall i :: base <= i < base + strtcol ==> before[i] == Visible(line, lcol, i - base)
    requires 0 <= fc <= n && forall k: nat :: k < fc ==> Visible(line, lcol, k) == BLANK
    requires 0 <= col <= n && (col <= strtcol || (col <= fc && col <= first))
    requires 0 <= lstcol <= n && forall k: nat :: lstcol <= k < n ==> Visible(line, lcol, k) == BLANK
    requires fc <= lstcol && col <= lstcol && Overlaid(before, after, base, n, line, lcol, col, lstcol, last)
    ensures Shows(after, base, n, line, lcol)
    ensures forall i :: 0 <= i < |after| && !(base <= i < base + n) ==> after[i] == before[i]
  {
  }

  lemma NewBounds(image: seq<int>, base: int, n: nat, line: seq<int>, lcol: nat, fc: int, lstcol: int)
    requires Shows(image, base, n, line, lcol) && 0 <= fc <= n && 0 <= lstcol <= n
    requires forall k: nat :: k < fc ==> Visible(line, lcol, k) == BLANK
    requires forall k: nat :: lstcol <= k < n ==> Visible(line, lcol, k) == BLANK
    ensures Bounded(image, base, n, fc, if lstcol == fc then 0 else lstcol)
  {
  }

  class Window {
    const d: Display
    const ltext: nat              // where the text begins on the screen
    const ttext: nat
    const rlimit: nat             // the number of text columns
    const btext: nat              // the last text row
    const firstcol: array<int>    // of each row, the first column that is not blank
    const lastcol: array<int>     // and one past the last
    var file: seq<seq<int>>
    var wlin: nat                 // the line and column of the file at the upper left
    var wcol: nat
    var cursorcol: int            // the cursor, within the window
    var cursorline: int
    var freshputup: bool          // the rows to be painted are blank
    var entfstline: bool          // the whole of the first row is to be written

    /** A window with nothing painted in it. */
    constructor (d: Display, ltext: nat, ttext: nat, rlimit: nat, btext: nat, file: seq<seq<int>>)
      requires 0 < rlimit <= MAXWIDTH && 0 < ltext && ltext + rlimit < d.t.width && ttext + btext < d.t.height
      requires ttext + btext + 33 < 256 && forall i :: 0 <= i < |file| ==> Printing(file[i])
      ensures Valid() && this.d == d && this.file == file && fresh(firstcol) && fresh(lastcol)
    {
      this.d, this.ltext, this.ttext, this.rlimit, this.btext, this.file := d, ltext, ttext, rlimit, btext, file;
      firstcol := new int[btext + 1](_ => 0);
      lastcol := new int[btext + 1](_ => rlimit);
      wlin, wcol, cursorcol, cursorline, freshputup, entfstline := 0, 0, 0, 0, false, true;
    }

    ghost predicate Valid()
      reads `file
    {
      && 0 < rlimit <= MAXWIDTH && 0 < ltext && ltext + rlimit < d.t.width && ttext + btext < d.t.height
      && ttext + btext + 33 < 256 && firstcol.Length == lastcol.Length == btext + 1 && firstcol != lastcol
      && firstcol != d.image && lastcol != d.image
      && forall i :: 0 <= i < |file| ==> Printing(file[i])
    }

    /** The display is whole, its record of the cursor right, unless the terminal clears to the end of the
        line, and its cursor is where the window thinks. */
    ghost predicate InStep()
      reads `cursorcol, `cursorline, d, d.image
    {
      && d.Valid() && d.Tracked() && d.Agrees() && (d.t.Way() == Cleared || !d.strayed) && d.state == 0 && d.arg == 1
      && d.Abs().line == ttext + cursorline && d.Abs().col == ltext + cursorcol
    }

    /** The first cell of a row. */
    ghost function Base(ln: int): int {
      Cells(ttext + ln, d.t.width) + ltext
    }

    /** The line shown in a row; beyond the end of the file there is nothing. */
    function Line(ln: nat): seq<int>
      reads `file, `wlin
    {
      if wlin + ln < |file| then file[wlin + ln] else []
    }

    /** fnbcol: the first column from `left` on, short of `right`, where the line is not blank. */
    method FnbCol(line: seq<int>, left: nat, right: nat) returns (cp: int)
      requires right <= |line| + 1 && Printing(line)
      ensures cp == left as int - 1 || left <= cp < right
      ensures left <= cp ==> cp < |line| && line[cp] != BLANK
      ensures forall i :: left <= i < (if left <= cp then cp else right) && i < |line| ==> line[i] == BLANK
    {
      if right < left {
        return left - 1;
      }
      cp := 0;
      while true
        invariant 0 <= cp <= right && cp <= |line|
        invariant forall i :: left <= i < cp ==> line[i] == BLANK
        decreases right - cp
      {
        if cp == |line| || cp >= right {
          return left - 1;
        }
        if line[cp] != BLANK && cp >= left {
          return;
        }
        cp := cp + 1;
      }
    }

    /** poscursor, within the window and its margins. */
    method PosCursor(col: int, lin: int)
      requires Valid() && InStep() && 0 <= ltext + col < d.t.width && 0 <= lin <= btext
      modifies `cursorcol, `cursorline, d`tty, d`ocursor, d`olin, d`ocol, d`icursor, d`lincurs, d`ilin, d`icol, d`arg, d`state, d`strayed, d.image
      ensures InStep() && cursorcol == col && cursorline == lin
      ensures d.image[..] == old(d.image[..])
    {
      hide Cells, Run, Accepts, Display.Tracked, Display.Agrees;
      var arrow := -1;
      if cursorline == lin && cursorcol == col {
        return;
      } else if cursorline == lin && (col == cursorcol - 1 || col == cursorcol + 1) {
        arrow := if col < cursorcol then VCCLEF else VCCRIT;
      } else if cursorcol == col && (lin == cursorline - 1 || lin == cursorline + 1) {
        arrow := if lin < cursorline then VCCUP else VCCDWN;
      }
      if arrow >= 0 {
        ArrowCode(d.Abs(), d.t.Way(), arrow);
        AcceptsLess(d.Abs(), d.t.Way(), [arrow]);
        d.DWrite([arrow]);
      } else {
        AddressCodes(d.Abs(), d.t.Way(), ltext + col, ttext + lin);
        AcceptsLess(d.Abs(), d.t.Way(), [VCCAAD1, ltext + col, 0, 33 + ttext + lin]);
        d.DWrite([VCCAAD1, ltext + col, 0, 33 + ttext + lin]);
      }
      cursorcol, cursorline := col, lin;
    }

    /** multchar of blanks, short of the right margin. */
    method Blanks(n: int)
      requires Valid() && InStep() && 0 <= cursorcol && cursorcol + n <= rlimit && cursorcol <= rlimit && 0 <= cursorline <= btext
      modifies `cursorcol, d`tty, d`ocursor, d`olin, d`ocol, d`icursor, d`lincurs, d`ilin, d`icol, d`arg, d`state, d`strayed, d.image
      ensures InStep() && cursorcol == old(cursorcol) + if n > 0 then n else 0
      ensures forall i :: 0 <= i < d.image.Length ==>
                d.image[i] == if Base(cursorline) + old(cursorcol) <= i < Base(cursorline) + cursorcol then BLANK
                              else old(d.image[i])
    {
      if n <= 0 {
        return;
      }
      ghost var e := d.Abs();
      LineRoom(e);
      PutInLine(e, BLANK, n);
      NoneTyped(e, BLANK);
      hide Cells, Emu.PutAll;
      d.MultChar(BLANK, n);
      cursorcol := cursorcol + n;
    }

    /** d_write of text, short of the right margin. */
    method Text(b: seq<int>)
      requires Valid() && InStep() && Printing(b)
      requires 0 <= cursorcol && cursorcol + |b| <= rlimit && 0 <= cursorline <= btext
      modifies `cursorcol, d`tty, d`ocursor, d`olin, d`ocol, d`icursor, d`lincurs, d`ilin, d`icol, d`arg, d`state, d`strayed, d.image
      ensures InStep() && cursorcol == old(cursorcol) + |b|
      ensures forall i :: 0 <= i < d.image.Length ==>
                d.image[i] == if Base(cursorline) + old(cursorcol) <= i < Base(cursorline) + cursorcol
                              then b[i - (Base(cursorline) + old(cursorcol))] else old(d.image[i])
    {
      TypeText(d.Abs(), d.t.Way(), b);
      AcceptsLess(d.Abs(), d.t.Way(), b);
      hide Cells, Run, Accepts, Display.Tracked, Display.Agrees;
      d.DWrite(b);
      cursorcol := cursorcol + |b|;
    }

    /** firstcol and lastcol bound what a row shows. */
    ghost predicate RowOk(ln: nat)
      requires ln < firstcol.Length && ln < lastcol.Length
      reads d.image, firstcol, lastcol
    {
      Bounded(d.image[..], Base(ln), rlimit, firstcol[ln], lastcol[ln])
    }

    lemma BaseOnScreen(ln: nat)
      requires Valid() && d.Valid() && ln <= btext
      ensures 0 <= Base(ln) && Base(ln) + rlimit < d.image.Length
    {
      hide Cells;
      d.t.InScreen(ttext + ln, ltext);
      d.t.InScreen(ttext + ln, ltext + rlimit);
    }

    /** The columns at which the painting of a row begins: the first character of the line, and the
        first column to be written. */
    method Begin(ln: nat, strtcol: int) returns (fc: int, col: int)
      requires Valid() && ln <= btext && 0 <= strtcol <= rlimit && 0 <= firstcol[ln] <= rlimit
      modifies `entfstline, firstcol
      ensures 0 <= fc <= rlimit && forall k: nat :: k < fc ==> Visible(Line(ln), wcol, k) == BLANK
      ensures fc < rlimit ==> wcol + fc < |Line(ln)|
      ensures 0 <= col <= rlimit && (col <= strtcol || (col <= fc && (!freshputup ==> col <= old(firstcol[ln]))))
      ensures firstcol[ln] == fc && forall i :: 0 <= i <= btext && i != ln ==> firstcol[i] == old(firstcol[i])
      ensures !entfstline
    {
      var line := Line(ln);
      fc := FnbCol(line, wcol, if |line| + 1 < wcol + rlimit then |line| + 1 else wcol + rlimit);
      fc := if fc < wcol then rlimit else fc - wcol;
      if entfstline {
        entfstline, col := false, 0;
      } else {
        col := if freshputup || fc < firstcol[ln] then fc else firstcol[ln];
        if col < strtcol {
          col := strtcol;
        }
      }
      firstcol[ln] := fc;
    }

    /** The writing of a row: blanks up to fc, text up to lstcol, and blanks up to `last`. */
    method PutCells(ln: nat, line: seq<int>, fc: int, col: int, lstcol: int, last: int)
      requires Valid() && InStep() && ln <= btext && Printing(line) && last <= rlimit
      requires 0 <= Base(ln) && Base(ln) + rlimit < d.image.Length
      requires 0 <= col <= lstcol <= rlimit && 0 <= fc <= lstcol
      requires lstcol <= |line| - wcol || lstcol == if fc > col then fc else col
      requires forall k: nat :: k < fc ==> Visible(line, wcol, k) == BLANK
      modifies `cursorcol, `cursorline
      modifies d`tty, d`ocursor, d`olin, d`ocol, d`icursor, d`lincurs, d`ilin, d`icol, d`arg, d`state, d`strayed, d.image
      ensures InStep()
      ensures Overlaid(old(d.image[..]), d.image[..], Base(ln), rlimit, line, wcol, col, lstcol, last)
    {
      hide Cells, InStep, Display.Valid;
      PosCursor(col, ln);
      var from := col;
      if fc - col > 0 {
        Blanks(fc - col);
        from := fc;
      }
      if lstcol - from > 0 {
        ghost var mid := d.image[..];
        var text := line[wcol + from..wcol + lstcol];
        Text(text);
        assert forall i :: 0 <= i < |text| ==> text[i] == Visible(line, wcol, from + i);
      }
      Blanks(last - lstcol);
    }

    /** The column after the text of a row, when the painting of it has come to column col. */
    method LastColumn(line: seq<int>, col: int) returns (lstcol: int)
      requires 0 <= col <= rlimit
      ensures col <= lstcol <= rlimit && (lstcol <= |line| - wcol || lstcol == col)
      ensures forall k: nat :: lstcol <= k < rlimit ==> Visible(line, wcol, k) == BLANK
    {
      lstcol := if |line| - wcol < 0 then 0 else if |line| - wcol > rlimit then rlimit else |line| - wcol;
      if lstcol < col {
        lstcol := col;
      }
    }

    /** One row of putup. */
    method PutRow(ln: nat, strtcol: int)
      requires Valid() && InStep() && ln <= btext && 0 <= strtcol <= rlimit
      requires 0 <= firstcol[ln] <= rlimit
      requires if freshputup then Bounded(d.image[..], Base(ln), rlimit, rlimit, 0) else RowOk(ln)
      requires forall i :: Base(ln) <= i < Base(ln) + strtcol && 0 <= i < d.image.Length ==>
                 d.image[i] == Visible(Line(ln), wcol, i - Base(ln))
      modifies `entfstline, `cursorcol, `cursorline, firstcol, lastcol
      modifies d`tty, d`ocursor, d`olin, d`ocol, d`icursor, d`lincurs, d`ilin, d`icol, d`arg, d`state, d`strayed, d.image
      ensures InStep() && !entfstline
      ensures Shows(d.image[..], Base(ln), rlimit, Line(ln), wcol) && RowOk(ln)
      ensures forall i :: 0 <= i < d.image.Length && !(Base(ln) <= i < Base(ln) + rlimit) ==> d.image[i] == old(d.image[i])
      ensures forall i :: 0 <= i <= btext && i != ln ==> firstcol[i] == old(firstcol[i]) && lastcol[i] == old(lastcol[i])
    {
      BaseOnScreen(ln);
      hide Cells, InStep, Display.Valid, Overlaid, Shows, Visible, Bounded;
      ghost var before := d.image[..];
      ghost var first, last := if freshputup then rlimit else firstcol[ln], if freshputup then 0 else lastcol[ln];
      var line := Line(ln);
      var fc, col := Begin(ln, strtcol);
      assert Line(ln) == line;
      var lstcol := LastColumn(line, if fc > col then fc else col);
      PutCells(ln, line, fc, col, lstcol, if freshputup then 0 else lastcol[ln]);
      RowPainted(before, d.image[..], Base(ln), rlimit, line, wcol, strtcol, first, last, fc, col, lstcol);
      NewBounds(d.image[..], Base(ln), rlimit, line, wcol, fc, lstcol);
      lastcol[ln] := if lstcol == fc then 0 else lstcol;
    }

    lemma RowsApart(ln: nat, ln2: nat)
      requires Valid() && d.Valid() && ln < ln2 <= btext
      ensures Base(ln) + rlimit < Base(ln2)
    {
      hide Cells;
      CellsNext(ttext + ln, d.t.width);
      CellsMonotone(ttext + ln + 1, ttext + ln2, d.t.width);
    }

    lemma AllApart()
      requires Valid() && d.Valid()
      ensures forall ln: nat, ln2: nat :: ln < ln2 <= btext ==> Base(ln) + rlimit < Base(ln2)
    {
      forall ln: nat, ln2: nat | ln < ln2 <= btext
        ensures Base(ln) + rlimit < Base(ln2)
      {
        RowsApart(ln, ln2);
      }
    }

    /** A row is ready to be painted from strtcol on: what is left of it is right already, and either
        its bounds are right or it is blank and known to be. */
    ghost predicate Paintable(ln: nat, strtcol: int)
      requires ln < firstcol.Length && ln < lastcol.Length
      reads `file, `wlin, `wcol, `freshputup, d.image, firstcol, lastcol
    {
      && 0 <= firstcol[ln] <= rlimit && 0 <= Base(ln) && Base(ln) + rlimit <= d.image.Length
      && (if freshputup then Bounded(d.image[..], Base(ln), rlimit, rlimit, 0) else RowOk(ln))
      && forall i :: Base(ln) <= i < Base(ln) + strtcol && 0 <= i < d.image.Length ==>
           d.image[i] == Visible(Line(ln), wcol, i - Base(ln))
    }

    /** A row shows its line, and its bounds are right. */
    ghost predicate Painted(ln: nat)
      requires ln < firstcol.Length && ln < lastcol.Length
      reads `file, `wlin, `wcol, d.image, firstcol, lastcol
    {
      RowOk(ln) && Shows(d.image[..], Base(ln), rlimit, Line(ln), wcol)
    }

    /** Of a painted row, what is in a cell of the screen: a character of the file, or a blank beyond the end of
        its line or of the file. */
    lemma OnTheScreen(ln: nat, k: nat)
      requires Valid() && d.Valid() && ln <= btext && k < rlimit && Painted(ln)
      ensures var i := (ttext + ln) * d.t.width + ltext + k;
              && 0 <= i < d.image.Length
              && d.image[i] == if wlin + ln < |file| && wcol + k < |file[wlin + ln]| then file[wlin + ln][wcol + k] else BLANK
    {
      BaseOnScreen(ln);
      assert d.image[..][Base(ln) + k] == d.image[Base(ln) + k];
    }

    /** A cell outside the text of rows ls to lf. */
    ghost predicate Elsewhere(i: int, ls: int, lf: int) {
      forall ln: nat :: ls <= ln <= lf && ln <= btext ==> !(Base(ln) <= i < Base(ln) + rlimit)
    }

    /** putup: paint rows ls to lf from column strtcol on, uninterrupted. */
    method PutUp(ls: nat, lf0: int, strtcol: int)
      requires Valid() && InStep() && 0 <= strtcol <= rlimit && ls <= btext
      requires forall ln: nat :: ls <= ln <= lf0 && ln <= btext ==> Paintable(ln, strtcol)
      modifies `entfstline, `cursorcol, `cursorline, firstcol, lastcol
      modifies d`tty, d`ocursor, d`olin, d`ocol, d`icursor, d`lincurs, d`ilin, d`icol, d`arg, d`state, d`strayed, d.image
      ensures InStep()
      ensures forall ln: nat :: ls <= ln <= lf0 && ln <= btext ==> Painted(ln)
      ensures forall ln: nat :: ln <= btext && !(ls <= ln <= lf0) ==>
                firstcol[ln] == old(firstcol[ln]) && lastcol[ln] == old(lastcol[ln])
                && (old(RowOk(ln)) ==> RowOk(ln)) && (old(Painted(ln)) ==> Painted(ln))
      ensures forall i :: 0 <= i < d.image.Length && Elsewhere(i, ls, lf0) ==> d.image[i] == old(d.image[i])
    {
      hide InStep, Paintable, Painted, Display.Valid, RowOk, Elsewhere;
      var lf := if lf0 > btext then btext else lf0;
      var ln := ls;
      while ln <= lf
        invariant ls <= ln && (ln <= lf + 1 || ln == ls) && Valid() && InStep()
        invariant forall r: nat :: ln <= r <= lf ==> Paintable(r, strtcol)
        invariant forall r: nat :: ls <= r < ln && r <= lf ==> Painted(r)
        invariant forall r: nat :: r <= btext && !(ls <= r < ln) ==>
                    firstcol[r] == old(firstcol[r]) && lastcol[r] == old(lastcol[r])
                    && (old(RowOk(r)) ==> RowOk(r)) && (old(Painted(r)) ==> Painted(r))
        invariant forall i :: 0 <= i < d.image.Length && Elsewhere(i, ls, lf0) ==> d.image[i] == old(d.image[i])
      {
        PutOne(ln, ls, lf0, strtcol);
        ln := ln + 1;
      }
    }

    /** One row of putup, and what it leaves alone. */
    method PutOne(ln: nat, ls: nat, lf: int, strtcol: int)
      requires Valid() && InStep() && ls <= ln <= lf && ln <= btext && 0 <= strtcol <= rlimit && Paintable(ln, strtcol)
      modifies `entfstline, `cursorcol, `cursorline, firstcol, lastcol
      modifies d`tty, d`ocursor, d`olin, d`ocol, d`icursor, d`lincurs, d`ilin, d`icol, d`arg, d`state, d`strayed, d.image
      ensures InStep() && Painted(ln)
      ensures forall r: nat :: r <= btext && r != ln ==>
                firstcol[r] == old(firstcol[r]) && lastcol[r] == old(lastcol[r])
                && (old(RowOk(r)) ==> RowOk(r)) && (old(Painted(r)) ==> Painted(r))
                && (old(Paintable(r, strtcol)) ==> Paintable(r, strtcol))
      ensures forall i :: 0 <= i < d.image.Length && Elsewhere(i, ls, lf) ==> d.image[i] == old(d.image[i])
    {
      PutRow(ln, strtcol);
      AllApart();
    }

    /** putch within a window: a character put in a row, noted in its bounds. */
    method PutCh(chr: int)
      requires Valid() && InStep() && BLANK <= chr < 256
      requires 0 <= cursorcol < rlimit && 0 <= cursorline <= btext && RowOk(cursorline)
      modifies `cursorcol, firstcol, lastcol
      modifies d`tty, d`ocursor, d`olin, d`ocol, d`icursor, d`lincurs, d`ilin, d`icol, d`arg, d`state, d`strayed, d.image
      ensures InStep() && RowOk(cursorline) && cursorcol == old(cursorcol) + 1
      ensures forall i :: 0 <= i < d.image.Length ==>
                d.image[i] == if i == Base(cursorline) + old(cursorcol) then chr else old(d.image[i])
    {
      if chr != BLANK {
        if firstcol[cursorline] > cursorcol {
          firstcol[cursorline] := cursorcol;
        }
        if lastcol[cursorline] <= cursorcol {
          lastcol[cursorline] := cursorcol + 1;
        }
      }
      BaseOnScreen(cursorline);
      Text([chr]);
    }
  }
}
