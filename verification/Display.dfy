/** The display manager: it keeps an image of the screen, and brings the terminal into line with it
    while sending as little as it can. */
module Display {
  import opened Emulator
  import opened Terminal

  /** `after` differs from `before` only by blanks, shown between from and to where the image is
      blank. */
  ghost predicate Spaced(before: seq<int>, after: seq<int>, image: seq<int>, from: int, to: int) {
    && |before| == |after| == |image|
    && forall i :: 0 <= i < |before| ==>
         after[i] == before[i] || (from <= i < to && image[i] == BLANK && after[i] == BLANK)
  }

  lemma SpacedNone(cells: seq<int>, image: seq<int>, at: int)
    requires |cells| == |image|
    ensures Spaced(cells, cells, image, at, at)
  {
  }

  lemma SpacedOne(before: seq<int>, now: seq<int>, image: seq<int>, from: int, at: int)
    requires Spaced(before, now, image, from, at) && from <= at && 0 <= at < |image| && image[at] == BLANK
    ensures Spaced(before, now[at := BLANK], image, from, at + 1)
  {
  }

  /** One cell more of a run of chr is shown. */
  lemma FilledOne(before: seq<int>, after: seq<int>, image: seq<int>, ocursor: int, chr: int, to: int, at: int,
                  withheld: bool)
    requires |before| == |after| == |image| && 0 <= to <= at < |image|
    requires forall i :: 0 <= i < |image| - 1 ==> before[i] == if to <= i < at then chr else image[i]
    requires forall i :: ocursor <= i < at && to <= i ==> image[i] == chr
    requires withheld ==> at == |image| - 1 && Spaced(before, after, image, ocursor, at)
    requires !withheld ==> after[at] == chr && Spaced(before, after[at := before[at]], image, ocursor, at)
    ensures forall i :: 0 <= i < |image| - 1 ==> after[i] == if to <= i < at + 1 then chr else image[i]
  {
    forall i | 0 <= i < |image| - 1
      ensures after[i] == if to <= i < at + 1 then chr else image[i]
    {
      assert i != at ==> after[at := before[at]][i] == after[i];
    }
  }

  lemma SameFill(before: seq<int>, after: seq<int>, at: int, n: nat, chr: int)
    requires |before| == |after| && 0 <= at && at + n <= |before|
    requires forall i :: 0 <= i < |after| ==> after[i] == if at <= i < at + n then chr else before[i]
    ensures after == Filled(before, at, n, chr)
  {
  }

  /** The cells are those of the image, with blanks from `to` to `end`. */
  ghost predicate BlankIn(cells: seq<int>, image: seq<int>, to: int, end: int) {
    |cells| == |image| && forall i :: 0 <= i < |image| - 1 ==> cells[i] == if to <= i < end then BLANK else image[i]
  }

  /** More than one of the cells from `from` to lim is not blank. */
  ghost predicate Several(image: seq<int>, from: int, lim: int) {
    exists i, j :: from <= i < j < lim && 0 <= i && j < |image| && image[i] != BLANK && image[j] != BLANK
  }

  /** A line cleared from `to` on, and its one cell not blank from `from` on shown again. */
  lemma ClearedCells(before: seq<int>, after: seq<int>, image: seq<int>, to: int, from: int, lim: int, cp: int, withheld: bool)
    requires |before| == |after| == |image| && 0 <= to <= from && lim <= |image| && Lone(image, from, lim, cp)
    requires forall i :: 0 <= i < |image| - 1 ==> before[i] == if to <= i < lim then BLANK else image[i]
    requires withheld ==> cp == |image| - 1 && Spaced(before, after, image, to, cp)
    requires !withheld ==> after[cp] == image[cp] && Spaced(before, after[cp := before[cp]], image, to, cp)
    ensures forall i :: 0 <= i < |image| - 1 ==> after[i] == if to <= i < from then BLANK else image[i]
  {
    forall i | 0 <= i < |image| - 1
      ensures after[i] == if to <= i < from then BLANK else image[i]
    {
      if i != cp {
        assert after[cp := before[cp]][i] == after[i];
      }
    }
  }

  /** Where the terminal cursor has come when the cells from `to` to `at` have been shown as chr: it is
      where it was, or not beyond them. */
  ghost predicate Behind(image: seq<int>, chr: int, to: int, at: int, was: int, now: int) {
    if AllAre(image, chr, to, at) then now == was else now <= at
  }

  ghost predicate AllAre(image: seq<int>, chr: int, to: int, at: int) {
    forall i :: to <= i < at && 0 <= i < |image| ==> image[i] == chr
  }

  /** The cells from `to` to the end of their line having been shown as chr, the terminal cursor is at
      the cell after them: none had to be written and it was there, or the last one was, and took it
      there. */
  ghost predicate Ready(image: seq<int>, chr: int, to: int, at: int, was: int, pwr: int) {
    if AllAre(image, chr, to, at) then was == at
    else 0 <= at - 1 < |image| && image[at - 1] != chr && pwr == 1
  }

  lemma ReadyAtFirst(image: seq<int>, chr: int, to: int, was: int, pwr: int)
    ensures Behind(image, chr, to, to, was, was)
  {
  }

  lemma BehindNext(image: seq<int>, chr: int, to: int, at: int, was: int, now: int, after: int, within: bool, pwr: int)
    requires 0 <= to <= at < |image| && Behind(image, chr, to, at, was, now)
    requires image[at] == chr ==> after == now
    requires image[at] != chr ==> (after == at + 1 <==> within || pwr == 1)
    ensures within ==> Behind(image, chr, to, at + 1, was, after)
    ensures !within ==> (after == at + 1 <==> Ready(image, chr, to, at + 1, was, pwr))
  {
    assert AllAre(image, chr, to, at + 1) <==> AllAre(image, chr, to, at) && image[at] == chr;
  }

  /** How the analysis of a code ends: with the next one, with a two-byte address to read, or with the
      whole call. */
  datatype Verdict = Next | Address | Illegal

  class Display {
    const t: Traits
    const image: array<int>
    var icursor: int       // the cursor, as an index into the image
    var ocursor: int       // where the terminal cursor is
    var lincurs: int       // the beginning of the current line
    var ilin: int          // the cursor, as line and column
    var icol: int
    var olin: int          // the terminal cursor, as line and column
    var ocol: int
    var state: int         // the state the next code is analysed in
    var arg: int           // repeat count
    var tty: Tty           // the terminal
    var strayed: bool      // the cursor on record has parted from the terminal's, which is followed no further

    /** A display that has just cleared its terminal and its image. */
    constructor (t: Traits)
      requires t.Truthful()
      ensures this.t == t && Valid() && Tracked() && Agrees() && !strayed && fresh(image)
      ensures forall i :: 0 <= i < image.Length ==> image[i] == BLANK
    {
      this.t := t;
      var size := t.Size();
      assert 0 <= size by { t.RowMonotone(0, t.height); t.RowNext(0); }
      image := new int[size](_ => BLANK);
      icursor, ocursor, lincurs, ilin, icol, olin, ocol := 0, 0, 0, 0, 0, 0, 0;
      state, arg, strayed := 0, 1, false;
      tty := Tty(seq(size, i => BLANK), 0, 0, true);
      t.RowNext(0);
    }

    ghost function Abs(): Emu
      reads this, image
    {
      Emu(t.width, t.height, image[..], ilin, icursor - lincurs, state, arg)
    }

    ghost predicate Valid()
      reads this, image
    {
      t.Truthful() && image.Length == t.Size() && Abs().Valid() && lincurs == t.Row(ilin)
    }

    /** What the manager thinks of the terminal cursor is so. */
    ghost predicate OnRecord()
      reads `tty, `ocursor, `olin, `ocol
    {
      && tty.Valid(t)
      && if tty.known then ocursor == t.Row(tty.row) + tty.col && olin == tty.row && ocol == tty.col
         else olin == t.height + 10 && ocol == t.width + 10 && ocursor == olin * ocol
    }

    /** Until the record has strayed, it is right. */
    ghost predicate Tracked()
      reads `tty, `ocursor, `olin, `ocol, `strayed
    {
      strayed || OnRecord()
    }

    /** The image is of blanks and printing characters, and until then every cell of the terminal, except the
        bottom right one, shows it. */
    ghost predicate Agrees()
      reads `tty, image, `strayed
    {
      && (forall i :: 0 <= i < image.Length ==> BLANK <= image[i])
      && (strayed || (image.Length == |tty.cells| && forall i :: 0 <= i < image.Length - 1 ==> tty.cells[i] == image[i]))
    }

    /** Where the image cursor is to be shown. */
    ghost predicate Placed()
      reads `icursor, `ilin, `icol
    {
      t.Truthful() && image.Length == t.Size() && 0 <= ilin < t.height && 0 <= icol < t.width
      && icursor == t.Row(ilin) + icol && 0 <= icursor < image.Length
    }

    /** The image cursor has gone on to the first column of a line, some way past the terminal's, but
        the column on record is still another. */
    ghost predicate Stale()
      reads `icursor, `ocursor, `ilin, `icol, `olin
    {
      t.Truthful() && 0 <= ilin < t.height && 0 < icol < t.width
      && icursor == t.Row(ilin) && icursor - ocursor > 3 && olin != ilin
    }

    ghost function Pos(): int
      reads `tty
    {
      tty.Pos(t)
    }

    /** n left arrows. */
    method LeftBy(n: nat)
      requires t.Truthful() && tty.Valid(t) && tty.known && t.hasLeft
      requires n <= Pos() && (n <= tty.col || t.wl == 1)
      modifies `tty
      ensures tty.Valid(t) && tty.known && tty.cells == old(tty.cells) && Pos() == old(Pos()) - n
    {
      var k := n;
      while k > 0
        invariant tty.Valid(t) && tty.known && tty.cells == old(tty.cells)
        invariant 0 <= k <= n && Pos() == old(Pos()) - n + k && (k <= tty.col || t.wl == 1)
      {
        tty.LeftMoves(t);
        tty := tty.Left(t);
        k := k - 1;
      }
    }

    /** n right arrows. */
    method RightBy(n: nat)
      requires t.Truthful() && tty.Valid(t) && tty.known && t.nright != 0
      requires Pos() + n < t.Size() && (tty.col + n < t.width || t.cwr == 1)
      modifies `tty
      ensures tty.Valid(t) && tty.known && tty.cells == old(tty.cells) && Pos() == old(Pos()) + n
    {
      var k := n;
      while k > 0
        invariant tty.Valid(t) && tty.known && tty.cells == old(tty.cells)
        invariant 0 <= k <= n && Pos() == old(Pos()) + n - k && (tty.col + k < t.width || t.cwr == 1)
      {
        tty.RightMoves(t);
        tty := tty.Right(t);
        k := k - 1;
      }
    }

    /** n blanks, over cells where the image is blank. */
    method SpaceBy(n: nat)
      requires t.Truthful() && image.Length == t.Size() && tty.Valid(t) && tty.known
      requires Pos() + n < t.Size() && (tty.col + n < t.width || t.pwr == 1)
      requires 0 <= Pos() && forall i :: Pos() <= i < Pos() + n ==> image[i] == BLANK
      modifies `tty
      ensures tty.Valid(t) && tty.known && Pos() == old(Pos()) + n
      ensures Spaced(old(tty.cells), tty.cells, image[..], old(Pos()), Pos())
    {
      assert 0 <= t.pwr <= 3;
      hide Cells, Traits.Truthful, Spaced, Tty.Show;
      SpacedNone(tty.cells, image[..], Pos());
      var k := n;
      while k > 0
        invariant tty.Valid(t) && tty.known
        invariant 0 <= k <= n && Pos() == old(Pos()) + n - k && (tty.col + k < t.width || t.pwr == 1)
        invariant Spaced(old(tty.cells), tty.cells, image[..], old(Pos()), Pos())
      {
        tty.ShowMoves(t, BLANK);
        SpacedOne(old(tty.cells), tty.cells, image[..], old(Pos()), Pos());
        tty := tty.Show(t, BLANK);
        k := k - 1;
      }
    }

    /** What a motion to the image cursor has to leave. */
    twostate predicate Arrived()
      reads this, image
    {
      tty.Valid(t) && tty.known && Pos() == icursor && image.Length == t.Size() && image[..] == old(image[..])
      && Spaced(old(tty.cells), tty.cells, image[..], old(ocursor), icursor)
    }

    /** The switch on the line distance, for the first column; false is `goto addr`. */
    method ColumnZero() returns (done: bool)
      requires Placed() && OnRecord() && icol == 0 && ocursor != icursor && -1 <= ilin - olin <= 1
      modifies `tty
      ensures if done then Arrived() else tty == old(tty)
    {
      t.RowNext(0);
      match ilin - olin {
        case -1 =>
          if !t.hasCret || !t.hasUp {
            return false;
          }
          tty := tty.Return(t).Up(t);
        case 0 =>
          if !t.hasCret {
            return false;
          }
          tty := tty.Return(t);
        case _ =>
          if t.cwr == 1 && icursor - ocursor == 1 {
            t.InScreen(ilin, icol);
            RightBy(1);
          } else {
            if !t.hasNl {
              return false;
            }
            tty := tty.Newline(t);
          }
      }
      return true;
    }

    /** The label `try1`: arrows, or blanks over blanks; false is `goto addr`. */
    method TryArrows() returns (done: bool)
      requires OnRecord() && (Placed() || Stale())
      modifies `tty
      ensures if done then Placed() && Arrived() else tty == old(tty)
    {
      if icursor - ocursor > 3 {
        return false;
      }
      t.FarAway();
      t.InScreen(ilin, icol);
      hide Cells;
      var n := icursor - ocursor;
      if n == -3 || n == -2 || n == -1 {
        if !(if n == -3 then t.lt3 else if n == -2 then t.lt2 else t.hasLeft)
           || (icol >= t.width + n && t.wl != 1) {
          return false;
        }
        if icol < t.width + n {
          t.RowUnique(tty.row, tty.col, ilin, icol - n);
        }
        LeftBy(-n);
        return true;
      } else if n == 1 || n == 2 || n == 3 {
        if icol <= n - 1 && t.cwr != 1 {
          return false;
        }
        if icol > n - 1 {
          t.RowUnique(tty.row, tty.col, ilin, icol - n);
        }
        tty.OnScreen(t);
        var arrows := if n == 3 then t.rt3 else if n == 2 then t.rt2 else t.nright == 1;
        if arrows {
          RightBy(n);
        } else if image[ocursor] == BLANK && (n < 2 || image[ocursor + 1] == BLANK)
                  && (n < 3 || image[ocursor + 2] == BLANK) {
          SpaceBy(n);
        } else if n == 1 && t.nright != 0 {
          RightBy(1);
        } else {
          return false;
        }
        return true;
      }
      return false;
    }

    /** The label `addr`: along one axis if that will do, else by full address. */
    method AddressTo()
      requires OnRecord() && 0 <= ilin < t.height && 0 <= icol < t.width && t.Truthful()
      requires ilin != olin || icol != ocol
      modifies `tty
      ensures tty.Valid(t) && tty.known && tty.row == ilin && tty.col == icol && tty.cells == old(tty.cells)
    {
      if t.axis == 0 {
        tty := tty.Address(t, ilin, icol);
      } else if ilin == olin {
        tty := if t.axis >= 2 then tty.AddressColumn(t, icol) else tty.Address(t, ilin, icol);
      } else if icol == ocol && -2 <= ilin - olin <= 2 {
        if (if ilin < olin then t.hasUp else t.hasDown) {
          tty := if ilin < olin then tty.Up(t) else tty.Down(t);
          if ilin != tty.row {
            tty := if ilin < olin then tty.Up(t) else tty.Down(t);
          }
        } else {
          tty := tty.Address(t, ilin, icol);
        }
      } else if icol == ocol && t.axis != 2 {
        tty := tty.AddressLine(t, ilin);
      } else {
        tty := tty.Address(t, ilin, icol);
      }
    }

    /** The part of putscr that moves the terminal cursor to the image cursor. */
    method MoveTo()
      requires OnRecord() && (Placed() || Stale())
      modifies `tty, `ocursor, `olin, `ocol
      ensures tty.Valid(t) && tty.known && ocursor == icursor && tty.row == ilin && tty.col == icol
      ensures Placed() ==> OnRecord() && Spaced(old(tty.cells), tty.cells, image[..], old(ocursor), icursor)
    {
      hide Cells;
      if Placed() {
        t.FarAway();
        t.InScreen(ilin, icol);
      }
      if ocursor == icursor {
        t.RowUnique(tty.row, tty.col, ilin, icol);
        return;
      }
      var done;
      if icol == 0 && -1 <= ilin - olin <= 1 {
        done := ColumnZero();
      } else if icol == 0 && icursor == 0 {
        tty := tty.Home();
        t.RowNext(0);
        done := true;
      } else {
        done := TryArrows();
      }
      if done {
        t.RowUnique(tty.row, tty.col, ilin, icol);
      } else {
        AddressTo();
      }
      ocursor, olin, ocol := icursor, ilin, icol;
    }

    /** Is a character at the image cursor not to be sent?  At the bottom right corner it would scroll
        some terminals. */
    ghost predicate Withheld()
      reads this
    {
      icursor == t.Size() - 1 && t.pwr <= 1
    }

    /** The part of putscr that shows a character, the terminal cursor being in place. */
    method ShowHere(chr: int)
      requires Placed() && OnRecord() && tty.known && ocursor == icursor && BLANK <= chr
      modifies `tty, `ocursor, `olin, `ocol
      ensures OnRecord()
      ensures if Withheld() then tty == old(tty) && ocursor == icursor
              else tty.cells == old(tty.cells)[icursor := chr]
      ensures icursor < t.Size() - 1 ==> (ocursor == icursor + 1 <==> icol < t.width - 1 || t.pwr == 1)
    {
      hide Cells;
      t.RowUnique(tty.row, tty.col, ilin, icol);
      t.InScreen(ilin, icol);
      t.FarAway();
      if icol != t.width - 1 {
        ocursor, ocol := ocursor + 1, ocol + 1;
        tty.ShowMoves(t, chr);
        tty := tty.Show(t, chr);
      } else if t.pwr == 0 {
        if ocursor != t.Size() - 1 {
          olin, ocol := t.height + 10, t.width + 10;
          ocursor := olin * ocol;
          tty := tty.Show(t, chr);
        }
      } else if t.pwr == 1 {
        if ocursor != t.Size() - 1 {
          ocursor, olin, ocol := ocursor + 1, olin + 1, 0;
          tty.ShowMoves(t, chr);
          tty := tty.Show(t, chr);
        }
      } else if t.pwr == 2 {
        ocursor, ocol := ocursor - (t.width - 1), 0;
        tty := tty.Show(t, chr);
      } else {
        tty := tty.Show(t, chr);
      }
    }

    /** putscr: bring the terminal cursor to the image cursor, and show a printing character there. */
    method PutScr(chr: int)
      requires Placed() && Tracked() && (chr == 0 || BLANK <= chr)
      modifies `tty, `ocursor, `olin, `ocol
      ensures Tracked()
      ensures !strayed && (chr == 0 || Withheld()) ==>
                tty.known && ocursor == icursor
                && Spaced(old(tty.cells), tty.cells, image[..], old(ocursor), icursor)
      ensures !strayed && chr != 0 && !Withheld() ==>
                && 0 <= icursor < |tty.cells| == image.Length == |old(tty.cells)| && tty.cells[icursor] == chr
                && Spaced(old(tty.cells), tty.cells[icursor := old(tty.cells)[icursor]], image[..], old(ocursor), icursor)
      ensures !strayed && chr != 0 && icursor < t.Size() - 1 ==>
                (ocursor == icursor + 1 <==> icol < t.width - 1 || t.pwr == 1)
    {
      if strayed {
        return;
      }
      t.InScreen(ilin, icol);
      MoveTo();
      if chr != 0 {
        ShowHere(chr);
      }
    }

    /** Part way through showing chr on the cells from `to` to `end`, the image not yet changed: the
        cells up to `at` are done, and the terminal cursor is past those that differ from the image. */
    ghost predicate Filling(chr: int, to: int, end: int, at: int)
      reads this, image
    {
      && 0 <= to <= at <= end <= image.Length == |tty.cells|
      && (forall i :: 0 <= i < image.Length - 1 ==>
            tty.cells[i] == if to <= i < at then chr else image[i])
      && (at < end ==> forall i :: ocursor <= i < at && to <= i < image.Length ==> image[i] == chr)
    }

    /** One cell of the loop of dbfill at the label `punt`. */
    method ShowCell(chr: int, to: int, end: int)
      requires Placed() && Tracked() && BLANK <= chr && image.Length == t.Size()
      requires !strayed ==> Filling(chr, to, end, icursor)
      requires icursor < end && (icol == t.width - 1 ==> icursor == end - 1)
      modifies `tty, `ocursor, `olin, `ocol
      ensures Tracked() && (!strayed ==> Filling(chr, to, end, icursor + 1))
      ensures image[icursor] == chr ==> ocursor == old(ocursor)
      ensures !strayed && image[icursor] != chr && icursor < t.Size() - 1 ==>
                (ocursor == icursor + 1 <==> icol < t.width - 1 || t.pwr == 1)
    {
      hide Tracked, Spaced, OnRecord, Cells;
      if image[icursor] != chr && !strayed {
        label before:
        PutScr(chr);
        FilledOne(old@before(tty.cells), tty.cells, image[..], old@before(ocursor), chr, to, icursor, Withheld());
        assert icursor + 1 < end ==> ocursor == icursor + 1;
      }
    }

    /** The loop of dbfill at the label `punt`. */
    method ShowRun(chr: int, to: int, nchars: nat)
      requires Valid() && Tracked() && Agrees() && BLANK <= chr
      requires t.InRow(to, nchars) && 0 < nchars
      modifies `tty, `ocursor, `olin, `ocol, `icursor, `ilin, `icol
      ensures Tracked() && unchanged(`icursor, `ilin, `icol)
      ensures !strayed ==> Filling(chr, to, to + nchars, to + nchars)
      ensures !strayed && to % t.width + nchars == t.width && to + nchars < t.Size() ==>
                (ocursor == to + nchars <==> Ready(image[..], chr, to, to + nchars, old(ocursor), t.pwr))
    {
      hide Tracked, Ready;
      ReadyAtFirst(image[..], chr, to, ocursor, t.pwr);
      var savicursor, savilin, savicol := icursor, ilin, icol;
      t.RowOf(to);
      icursor, ilin, icol := to, to / t.width, to % t.width;
      var k := nchars;
      while k > 0
        invariant 0 <= k <= nchars && icursor == to + nchars - k && icol == to % t.width + nchars - k
        invariant ilin == to / t.width && t.Truthful() && Tracked()
        invariant !strayed ==> Filling(chr, to, to + nchars, icursor)
        invariant !strayed && 0 < k ==> Behind(image[..], chr, to, icursor, old(ocursor), ocursor)
        invariant !strayed && k == 0 && icol == t.width && icursor < t.Size() ==>
                    (ocursor == icursor <==> Ready(image[..], chr, to, icursor, old(ocursor), t.pwr))
      {
        label before:
        ShowCell(chr, to, to + nchars);
        if !strayed && icursor < t.Size() - 1 {
          BehindNext(image[..], chr, to, icursor, old(ocursor), old@before(ocursor), ocursor, icol < t.width - 1, t.pwr);
        }
        icursor, icol, k := icursor + 1, icol + 1, k - 1;
      }
      icursor, ilin, icol := savicursor, savilin, savicol;
    }

    /** dbfill: fill a stretch of one line with a character, on the terminal and in the image. */
    method DbFill(chr: int, to: int, nchars: int)
      requires Valid() && Tracked() && Agrees() && BLANK <= chr
      requires t.InRow(to, nchars)
      requires Erases(chr, nchars) || Clears(chr, nchars) ==> icursor == to
      modifies `tty, `ocursor, `olin, `ocol, `icursor, `ilin, `icol, `strayed, image
      ensures Tracked() && Agrees() && unchanged(`icursor, `ilin, `icol)
      ensures strayed <==> old(strayed) || (Erases(chr, nchars) && StaleColumn() && old(ocursor) != icursor)
                           || (Clears(chr, nchars) && Misleads(old(image[..]), to, to + nchars))
      ensures Erases(chr, nchars) && strayed && !old(strayed) ==> !OnRecord()
      ensures strayed && !old(strayed) ==>
                !OnRecord() || !BlankIn(tty.cells, old(image[..]), to, to + nchars)
                || (t.pwr == 0 && LineEnd(to + nchars) == t.Size())
      ensures Erases(chr, nchars) && !strayed ==> tty.known && ocursor == icursor
      ensures !Erases(chr, nchars) && !Clears(chr, nchars) && !strayed && 0 < nchars && to % t.width + nchars == t.width
              && to + nchars < t.Size() ==>
                (ocursor == to + nchars <==> Ready(old(image[..]), chr, to, to + nchars, old(ocursor), t.pwr))
      ensures forall i :: 0 <= i < image.Length ==> image[i] == if to <= i < to + nchars then chr else old(image[i])
    {
      assert 0 <= to && to + nchars <= image.Length;
      hide Traits.InRow, Traits.Row, Tracked, Placed, Ready, OnRecord, Misleads;
      if nchars <= 0 {
        return;
      }
      if chr == BLANK && nchars > 5 && t.hasErase {
        EraseRun(nchars);
      } else if chr == BLANK && nchars > 5 && t.hasClreol {
        ClearRun(to, nchars);
      } else {
        ShowRun(chr, to, nchars);
      }
      forall i | to <= i < to + nchars {
        image[i] := chr;
      }
    }

    /** Is a run left to the terminal to erase? */
    predicate Erases(chr: int, nchars: int) {
      chr == BLANK && nchars > 5 && t.Way() == Erased
    }

    /** Is a run left to the terminal to clear, with the rest of the line? */
    predicate Clears(chr: int, nchars: int) {
      chr == BLANK && nchars > 5 && t.Way() == Cleared
    }

    /** The line a run lies in, up to its end. */
    function LineEnd(end: int): int {
      if t.width == 0 then 0 else t.Row((end - 1) / t.width + 1)
    }

    /** Left arrows lead from the beginning of a run in the second line to the last column of the first. */
    predicate LeftArrows(to: int) {
      t.wl == 1 && ((to == t.width && t.hasLeft) || (to == t.width + 1 && t.lt2) || (to == t.width + 2 && t.lt3))
    }

    /** A cell that is shown again does no harm: it is in the last column, where this terminal says nothing of
        its cursor, but not in the bottom line, and no arrows led elsewhere.  If they did, the cell is the
        bottom right one, which need not be right, and the one shown instead is to show the same. */
    predicate Spared(image: seq<int>, to: int, cp: int) {
      && t.pwr == 0 && 0 < t.width <= |image| && 0 <= cp < |image| && cp + 1 == LineEnd(cp + 1)
      && if LeftArrows(to) then cp == |image| - 1 && image[t.width - 1] == image[cp] else cp != |image| - 1
    }

    /** Clearing the line from `to` on parts the manager from the terminal: beyond the run, which ends at
        `end`, there is one cell not blank to be shown again, the line is not the first, and that does harm. */
    ghost predicate Misleads(image: seq<int>, to: int, end: int) {
      to >= t.width && exists cp :: Lone(image, end, LineEnd(end), cp) && !Spared(image, to, cp)
    }

    /** The column on record is not that of the image cursor. */
    predicate StaleColumn()
      reads `icol, `icursor, `lincurs
    {
      icol != icursor - lincurs
    }

    /** The case of dbfill that has the terminal erase.  Where putscr is sent off with the column of
        another line, it writes down a place that is none. */
    method EraseRun(nchars: nat)
      requires Valid() && Tracked() && Agrees() && t.hasErase && t.InRow(icursor, nchars)
      modifies `tty, `ocursor, `olin, `ocol, `strayed
      ensures Tracked()
      ensures strayed <==> old(strayed) || (StaleColumn() && old(ocursor) != icursor)
      ensures strayed && !old(strayed) ==> !OnRecord()
      ensures !strayed ==> |tty.cells| == image.Length && tty.known && ocursor == icursor
      ensures !strayed ==> forall i :: 0 <= i < image.Length - 1 ==>
                tty.cells[i] == if icursor <= i < icursor + nchars then BLANK else image[i]
    {
      t.Divided(ilin, icursor - lincurs);
      t.InScreen(ilin, icursor - lincurs);
      if strayed {
        return;
      }
      if icol == icursor - lincurs {
        PutScr(0);
      } else if ocursor != icursor {
        ocursor, olin, ocol, strayed := icursor, ilin, icol, true;
        return;
      }
      t.FarAway();
      t.RowUnique(tty.row, tty.col, ilin, icursor - lincurs);
      tty := tty.Erase(t, nchars);
    }

    /** Of the cells from `from` to lim, those that are not blank: none, one, or more. */
    method LoneCell(from: int, lim: int) returns (cp: int, more: bool)
      requires 0 <= from <= lim <= image.Length
      ensures more <==> Several(image[..], from, lim)
      ensures !more && cp >= 0 ==> Lone(image[..], from, lim, cp)
      ensures !more && cp < 0 ==> AllAre(image[..], BLANK, from, lim)
    {
      var rto := from;
      cp := -1;
      while rto < lim
        invariant from <= rto <= lim
        invariant if cp >= 0 then Lone(image[..], from, rto, cp) else AllAre(image[..], BLANK, from, rto)
      {
        if image[rto] != BLANK {
          if cp >= 0 {
            return cp, true;
          }
          cp := rto;
        }
        rto := rto + 1;
      }
      return cp, false;
    }

    /** The terminal shows the image, with blanks from `to` to `end`. */
    ghost predicate Blanked(to: int, end: int)
      reads `tty, image
    {
      BlankIn(tty.cells, image[..], to, end)
    }

    /** The case of dbfill for a terminal that does not erase, but clears to the end of the line.  If at most
        one cell to the right of the run is not blank, that cell is shown again, with its column for its place
        in the image, which is right in the first line of the screen only; if there are more, the run is
        written. */
    method ClearRun(to: int, nchars: nat)
      requires Valid() && Tracked() && Agrees() && t.InRow(to, nchars) && Clears(BLANK, nchars) && icursor == to
      modifies `tty, `ocursor, `olin, `ocol, `icursor, `ilin, `icol, `strayed
      ensures Tracked() && unchanged(`icursor, `ilin, `icol)
      ensures strayed <==> old(strayed) || Misleads(image[..], to, to + nchars)
      ensures !strayed ==> Blanked(to, to + nchars)
      ensures strayed && !old(strayed) ==>
                !OnRecord() || !Blanked(to, to + nchars) || (t.pwr == 0 && LineEnd(to + nchars) == image.Length)
    {
      hide Several, Lone, AllAre, OnRecord, Agrees, Spared, BlankIn;
      RunInLine(to, nchars);
      var cp, punted := LoneCell(to + nchars, lincurs + t.width);
      OnlyLone(image[..], to, to + nchars, cp, punted);
      if punted {
        ShowRun(BLANK, to, nchars);
        FilledBlank(to, nchars);
      } else if !strayed {
        if cp >= 0 {
          LoneDark(cp, to + nchars);
        }
        ClearWith(to, nchars, cp);
      }
    }

    lemma FilledBlank(to: int, nchars: nat)
      requires !strayed ==> Filling(BLANK, to, to + nchars, to + nchars)
      ensures !strayed ==> Blanked(to, to + nchars)
    {
    }

    /** At most one cell is shown again. */
    lemma OnlyLone(image: seq<int>, to: int, end: int, cp: int, punted: bool)
      requires punted <==> Several(image, end, LineEnd(end))
      requires !punted && cp >= 0 ==> Lone(image, end, LineEnd(end), cp)
      requires !punted && cp < 0 ==> AllAre(image, BLANK, end, LineEnd(end))
      ensures Misleads(image, to, end) <==> !punted && cp >= 0 && to >= t.width && !Spared(image, to, cp)
    {
      hide Spared;
    }

    lemma RunInLine(to: int, nchars: int)
      requires Valid() && t.InRow(to, nchars) && 0 < nchars && icursor == to
      ensures ilin == to / t.width && lincurs == t.Row(ilin) && to == lincurs + to % t.width
      ensures 0 <= to % t.width && to % t.width + nchars <= t.width
      ensures t.Row(ilin + 1) == lincurs + t.width == LineEnd(to + nchars) <= image.Length && 0 <= lincurs
      ensures to >= t.width <==> lincurs > 0
    {
      var c := icursor - lincurs;
      t.Divided(ilin, c);
      t.Divided(ilin, c + nchars - 1);
      t.RowNext(ilin);
      t.RowMonotone(ilin + 1, t.height);
      t.RowMonotone(0, ilin);
      t.RowNext(0);
      if ilin > 0 {
        t.RowMonotone(1, ilin);
      }
    }

    /** The line is cleared from the run on, and cell cp, if it is one, shown again. */
    method ClearWith(to: int, nchars: nat, cp: int)
      requires Valid() && !strayed && Tracked() && Agrees() && t.InRow(to, nchars) && Clears(BLANK, nchars) && icursor == to
      requires cp >= 0 ==> Lone(image[..], to + nchars, lincurs + t.width, cp)
      requires cp < 0 ==> AllAre(image[..], BLANK, to + nchars, lincurs + t.width)
      modifies `tty, `ocursor, `olin, `ocol, `icursor, `ilin, `icol, `strayed
      ensures unchanged(`icursor, `ilin, `icol)
      ensures strayed <==> cp >= 0 && to >= t.width && !Spared(image[..], to, cp)
      ensures !strayed ==> OnRecord() && Blanked(to, to + nchars)
      ensures strayed ==> !OnRecord() || !Blanked(to, to + nchars) || (t.pwr == 0 && cp == image.Length - 1)
    {
      RunInLine(to, nchars);
      var savicursor, savilin, savicol := icursor, ilin, icol;
      icursor, ilin, icol := to, to / t.width, to % t.width;
      hide Cells, Traits.InRow, Spared, OnRecord, Agrees, Lone, AllAre, BlankIn;
      if cp >= 0 {
        LoneDark(cp, to + nchars);
      }
      ClearHere();
      if cp >= 0 {
        icursor := cp - lincurs;
        icol := icursor;
        ShowAgain(cp, to, nchars);
      } else {
        ClearedAll(to, to + nchars, lincurs + t.width);
      }
      icursor, ilin, icol := savicursor, savilin, savicol;
    }

    lemma LoneDark(cp: int, from: int)
      requires Agrees() && Lone(image[..], from, lincurs + t.width, cp)
      ensures 0 <= from || from <= cp
      ensures from <= cp < lincurs + t.width && 0 <= cp < image.Length && BLANK < image[cp]
    {
    }

    lemma ClearedAll(to: int, end: int, lim: int)
      requires Blanked(to, lim) && AllAre(image[..], BLANK, end, lim) && end <= lim
      ensures Blanked(to, end)
    {
    }

    /** The line is cleared from the cursor on. */
    method ClearHere()
      requires Placed() && !strayed && Tracked() && Agrees() && t.hasClreol
      modifies `tty, `ocursor, `olin, `ocol
      ensures OnRecord() && tty.known && ocursor == icursor && Blanked(icursor, t.Row(ilin + 1))
    {
      PutScr(0);
      t.RowUnique(tty.row, tty.col, ilin, icol);
      tty := tty.ClearEol(t);
    }

    /** The one cell to the right of the run is shown again. */
    method ShowAgain(cp: int, to: int, nchars: nat)
      requires t.Truthful() && image.Length == t.Size() && !strayed && OnRecord() && tty.known && ocursor == to
      requires 0 <= ilin < t.height && 0 <= t.Row(ilin) <= to && to + nchars <= cp < t.Row(ilin + 1) && 5 < nchars
      requires icursor == icol == cp - t.Row(ilin) && cp < image.Length && BLANK < image[cp]
      requires Lone(image[..], to + nchars, t.Row(ilin + 1), cp) && Blanked(to, t.Row(ilin + 1))
      modifies `tty, `ocursor, `olin, `ocol, `strayed
      ensures strayed <==> to >= t.width && !Spared(image[..], to, cp)
      ensures !strayed ==> OnRecord() && Blanked(to, to + nchars)
      ensures strayed ==> !OnRecord() || !Blanked(to, to + nchars) || (t.pwr == 0 && cp == image.Length - 1)
    {
      hide Cells, Lone, OnRecord, BlankIn, Spared;
      t.RowNext(ilin);
      t.InScreen(ilin, icol);
      t.RowNext(0);
      t.RowMonotone(ilin + 1, t.height);
      if ilin == 0 {
        ShowFirst(cp, to, nchars);
      } else {
        t.RowMonotone(1, ilin);
        ShowAstray(cp, to, nchars);
      }
    }

    /** The same in another line: putscr, sent off to the cell's column in its line, but with that column for
        its place in the image.  From near the beginning of the second line that is a few places back; from
        elsewhere it takes an address. */
    method ShowAstray(cp: int, to: int, nchars: nat)
      requires t.Truthful() && image.Length == t.Size() && !strayed && OnRecord() && tty.known && ocursor == to
      requires 0 < ilin < t.height && t.width <= t.Row(ilin) <= to && to + nchars <= cp < t.Row(ilin + 1) && 5 < nchars
      requires icursor == icol == cp - t.Row(ilin) && cp < image.Length && BLANK < image[cp] && 0 <= icol < t.width
      requires t.Row(ilin + 1) == t.Row(ilin) + t.width <= image.Length
      requires Lone(image[..], to + nchars, t.Row(ilin + 1), cp) && Blanked(to, t.Row(ilin + 1))
      modifies `tty, `ocursor, `olin, `ocol, `strayed
      ensures strayed <==> !Spared(image[..], to, cp)
      ensures !strayed ==> OnRecord() && Blanked(to, to + nchars)
      ensures strayed ==> !OnRecord() || !Blanked(to, to + nchars) || (t.pwr == 0 && cp == image.Length - 1)
    {
      ghost var before := tty.cells;
      var n := icursor - ocursor;
      SecondLine(cp, to);
      t.RowUnique(tty.row, tty.col, ilin, to - t.Row(ilin));
      var arrows := t.wl == 1 && if n == -3 then t.lt3 else if n == -2 then t.lt2 else n == -1 && t.hasLeft;
      if arrows {
        LeftBy(-n);
        FirstLine(tty.row, tty.col, icol);
      } else {
        AddressTo();
      }
      assert tty.cells == before;
      ocursor, olin, ocol := icursor, ilin, icol;
      ShowWrong(cp, to, nchars, arrows);
    }

    /** The distances there are between the run and the cell's column taken for a place. */
    lemma SecondLine(cp: int, to: int)
      requires t.Truthful() && 0 < ilin < t.height && t.Row(ilin) <= to && to + 5 < cp < t.Row(ilin + 1)
      ensures var c := cp - t.Row(ilin);
              && t.Row(ilin + 1) == t.Row(ilin) + t.width && 0 < c < t.width && to - t.Row(ilin) < c
              && c - to <= -1 && (c - to >= -3 ==> t.Row(ilin) == t.width)
      ensures ilin < t.height - 1 <==> t.Row(ilin + 1) < t.Size()
    {
      t.RowNext(ilin);
      t.RowNext(0);
      t.RowNext(1);
      t.RowMonotone(1, ilin);
      if ilin > 1 {
        t.RowMonotone(2, ilin);
      }
      t.RowMonotone(ilin + 1, t.height);
      if ilin < t.height - 1 {
        t.RowMonotone(ilin + 2, t.height);
        t.RowNext(ilin + 1);
      }
    }

    lemma FirstLine(r: int, c: int, c2: int)
      requires 0 < t.width && 0 <= c < t.width && 0 <= c2 < t.width && t.Row(r) + c == c2
      ensures r == 0 && c == c2
    {
      t.RowNext(0);
      t.RowUnique(r, c, 0, c2);
    }

    /** The rest of putscr then: the cell is shown where the terminal cursor is, which is its place, or, if
        arrows led there, that column of the first line. */
    method ShowWrong(cp: int, to: int, nchars: nat, arrows: bool)
      requires t.Truthful() && image.Length == t.Size() && !strayed && tty.Valid(t) && tty.known
      requires 0 < ilin < t.height && t.width <= t.Row(ilin) <= to && to + nchars <= cp < t.Row(ilin + 1) && 5 < nchars
      requires ocursor == icursor == icol == ocol == cp - t.Row(ilin) && olin == ilin && cp < image.Length && BLANK < image[cp]
      requires Lone(image[..], to + nchars, t.Row(ilin + 1), cp) && Blanked(to, t.Row(ilin + 1))
      requires tty.col == icol && tty.row == if arrows then 0 else ilin
      requires arrows <==> t.wl == 1 && if icol - to == -3 then t.lt3 else if icol - to == -2 then t.lt2 else icol - to == -1 && t.hasLeft
      modifies `tty, `ocursor, `olin, `ocol, `strayed
      ensures strayed <==> !Spared(image[..], to, cp)
      ensures !strayed ==> OnRecord() && Blanked(to, to + nchars)
      ensures strayed ==> !OnRecord() || !Blanked(to, to + nchars) || (t.pwr == 0 && cp == image.Length - 1)
    {
      hide Cells, Lone, BlankIn, Spared, OnRecord;
      SecondLine(cp, to);
      t.InScreen(tty.row, tty.col);
      SparedIs(cp, to);
      ghost var before := tty.cells;
      if icol != t.width - 1 {
        ocursor, ocol := ocursor + 1, ocol + 1;
        tty := tty.Show(t, image[cp]);
        strayed := true;
        NotOnRecord();
      } else if t.pwr == 0 {
        olin, ocol := t.height + 10, t.width + 10;
        ocursor := olin * ocol;
        if tty.row == t.height - 1 {
          strayed := true;  // no telling what becomes of the screen
        } else {
          ghost var pos := t.Row(tty.row) + tty.col;
          t.RowNext(0);
          assert pos == if arrows then t.width - 1 else cp;
          tty := tty.Show(t, image[cp]);
          assert tty.cells == before[pos := image[cp]];
          strayed := arrows && (cp != image.Length - 1 || image[t.width - 1] != image[cp]);
          LostOnRecord();
          ShownWrong(before, to, nchars, t.Row(ilin + 1), cp, pos);
        }
      } else {
        if t.pwr == 1 {
          ocursor, olin, ocol := ocursor + 1, olin + 1, 0;
        } else if t.pwr == 2 {
          ocursor, ocol := ocursor - (t.width - 1), 0;
        }
        if tty.row < t.height - 1 || t.pwr >= 2 {
          tty := tty.Show(t, image[cp]);
        }
        strayed := true;
        NotOnRecord();
      }
    }

    lemma NotOnRecord()
      requires ocursor != t.Row(olin) + ocol && olin < t.height + 10
      ensures !OnRecord()
    {
    }

    lemma LostOnRecord()
      requires tty.Valid(t) && !tty.known && olin == t.height + 10 && ocol == t.width + 10 && ocursor == olin * ocol
      ensures OnRecord()
    {
    }

    lemma SparedIs(cp: int, to: int)
      requires t.Truthful() && 0 < ilin < t.height && t.Row(ilin) <= cp < t.Row(ilin + 1) && cp < image.Length == t.Size()
      ensures 0 < t.width <= image.Length
      ensures Spared(image[..], to, cp) <==>
                && t.pwr == 0 && cp - t.Row(ilin) == t.width - 1
                && if LeftArrows(to) then cp == image.Length - 1 && image[t.width - 1] == image[cp] else cp != image.Length - 1
    {
      t.RowNext(ilin);
      t.RowNext(0);
      t.RowMonotone(1, t.height);
      t.Divided(ilin, cp - t.Row(ilin));
    }

    /** What the screen is like then. */
    lemma ShownWrong(before: seq<int>, to: int, nchars: nat, lim: int, cp: int, pos: int)
      requires 0 < t.width <= to && to + nchars <= cp < image.Length == |before| && t.width - 1 < image.Length
      requires BLANK < image[cp] && (pos == cp || pos == t.width - 1) && BlankIn(before, image[..], to, lim)
      requires Lone(image[..], to + nchars, lim, cp)
      requires tty.cells == before[pos := image[cp]]
      ensures Blanked(to, to + nchars) <==> pos == cp || (cp == image.Length - 1 && image[t.width - 1] == image[cp])
    {
    }

    /** The same in the first line. */
    method ShowFirst(cp: int, to: int, nchars: nat)
      requires Placed() && !strayed && OnRecord() && ocursor == to && icursor == cp && BLANK < image[cp]
      requires ilin == 0 && 0 <= to && to + nchars <= cp < t.width <= image.Length == t.Size() && 5 < nchars
      requires Lone(image[..], to + nchars, t.width, cp) && Blanked(to, t.width)
      modifies `tty, `ocursor, `olin, `ocol
      ensures OnRecord() && Blanked(to, to + nchars)
    {
      hide OnRecord, Placed;
      ghost var before := tty.cells;
      PutScr(image[cp]);
      ClearedCells(before, tty.cells, image[..], to, to + nchars, t.width, cp, Withheld());
    }

    /** One line's worth of putmult: n characters, within the line. */
    method FillLine(chr: int, n: nat)
      requires Valid() && state == 0 && Tracked() && Agrees() && BLANK <= chr
      requires n <= t.width - (icursor - lincurs) && 0 <= icursor && icursor + n <= image.Length
      modifies `tty, `ocursor, `olin, `ocol, `icursor, `ilin, `icol, `strayed, image
      ensures Valid() && Tracked() && Agrees() && unchanged(`icol) && icursor == old(icursor)
      ensures image[..] == Filled(old(image[..]), old(icursor), n, chr)
      ensures unchanged(`lincurs, `ilin, `arg, `state)
      ensures strayed <==> old(strayed) || (Erases(chr, n) && StaleColumn() && old(ocursor) != icursor)
                           || (Clears(chr, n) && Misleads(old(image[..]), icursor, icursor + n))
      ensures Erases(chr, n) && strayed && !old(strayed) ==> !OnRecord()
      ensures Erases(chr, n) && !strayed ==> tty.known && ocursor == icursor
      ensures !Erases(chr, n) && !Clears(chr, n) && !strayed && n == t.width - (icursor - lincurs) && ilin < t.height - 1 ==>
                (ocursor == icursor + n <==> Ready(old(image[..]), chr, icursor, icursor + n, old(ocursor), t.pwr))
    {
      FillReady(n);
      hide Traits.InRow, Traits.Row, Tracked, Placed, Emu.Valid, Ready, OnRecord, Misleads;
      DbFill(chr, icursor, n);
      SameFill(old(image[..]), image[..], icursor, n, chr);
    }

    lemma FillReady(n: nat)
      requires Valid() && n <= t.width - (icursor - lincurs)
      ensures t.InRow(icursor, n) && 0 <= icursor && icursor + n <= image.Length
      ensures icursor % t.width == icursor - lincurs
      ensures ilin < t.height - 1 ==> icursor + n < t.Size()
      ensures Abs().At() == icursor && (icol == icursor - lincurs ==> Placed())
    {
      Abs().RoomInLine();
      t.Divided(ilin, icursor - lincurs);
      t.InScreen(ilin, icursor - lincurs);
    }

    /** The body of the loop of putmult: the share of the line the cursor is in.  Is the run over? */
    method PutLine(chr: int) returns (over: bool)
      requires Valid() && state == 0 && Tracked() && Agrees() && BLANK <= chr
      modifies `tty, `ocursor, `olin, `ocol, `icursor, `lincurs, `ilin, `icol, `arg, `state, `strayed, image
      ensures Valid() && Tracked() && Agrees() && unchanged(`icol)
      ensures over <==> old(arg) <= old(Room()) || old(ilin) == t.height - 1
      ensures over ==> Abs() == ByLines(old(Abs()).(arg := 1), chr, old(arg))
      ensures !over ==>
                && state == 0 && icursor == lincurs && 0 < arg == old(arg) - old(Room())
                && ilin == old(ilin) + 1 < t.height && icursor == old(icursor) + old(Room())
                && ByLines(Abs().(arg := 1), chr, arg) == ByLines(old(Abs()).(arg := 1), chr, old(arg))
      ensures var n := old(if Room() < arg then Room() else arg);
              strayed <==> old(strayed) || (Erases(chr, n) && old(StaleColumn() && ocursor != icursor))
                           || (Clears(chr, n) && old(Misleads(image[..], icursor, icursor + if Room() < arg then Room() else arg)))
      ensures var n := old(if Room() < arg then Room() else arg);
              0 <= old(icursor) && old(icursor) + n <= image.Length && image[..] == Filled(old(image[..]), old(icursor), n, chr)
      ensures !over && !strayed && chr == BLANK && t.Way() == Erased ==>
                (ocursor == icursor <==> old(NextReady(chr)))
    {
      hide Cells, Tracked, Agrees, Filled, ByLines, Ready, OnRecord, Placed, Traits.InRow, Emu.PutAll, Misleads;
      var i := t.width - 1 - (icursor - lincurs) + 1;
      var j := if i < arg then i else arg;
      LineUnfolds(Abs().(arg := 1), chr, arg, j);
      FillReady(j);
      FillLine(chr, j);
      over := PastLine(i, j);
    }

    /** The rest of the body, when j of the i cells left in the line have been filled. */
    method PastLine(i: int, j: int) returns (over: bool)
      requires Valid() && state == 0 && i == Room() && j == if i < arg then i else arg
      modifies `icursor, `lincurs, `ilin, `arg, `state
      ensures Valid() && (over <==> old(arg) <= i || old(ilin) == t.height - 1)
      ensures !over ==> icursor == lincurs == old(icursor) + i && ilin == old(ilin) + 1
      ensures Abs() == if j < i then old(Abs()).(col := old(Abs()).col + j, arg := 1)
                       else if over then old(Abs()).(col := 0, state := 1, arg := 1)
                       else old(Abs()).(line := old(ilin) + 1, col := 0, arg := old(arg) - j)
    {
      hide Cells;
      arg := arg - j;
      if j < i {
        icursor, arg := icursor + j, 1;
        return true;
      }
      icursor := lincurs;
      if arg == 0 || ilin == t.height - 1 {
        state, arg := 1, 1;
        return true;
      }
      t.RowNext(ilin);
      icursor, lincurs, ilin := icursor + t.width, lincurs + t.width, ilin + 1;
      return false;
    }

    /** The cells from the cursor to the end of its line. */
    function Room(): int
      reads `icursor, `lincurs
    {
      t.width - (icursor - lincurs)
    }

    /** When the rest of the line has been made chr, the terminal cursor will be at the beginning of the
        next: it was not erased, and either its last cell was written, by a terminal that goes on to
        the next line then, or nothing was written and the cursor was there already. */
    ghost predicate NextReady(chr: int)
      reads `icursor, `lincurs, `ocursor, image
    {
      Room() <= 5 && Ready(image[..], chr, icursor, icursor + Room(), ocursor, t.pwr)
    }

    /** A run of blanks begun past the first column, on a terminal that erases, parts the record of the
        cursor from the terminal: it has more than five cells to erase in the line below, without the
        terminal cursor being there already, or in the line below that. */
    ghost predicate ErasesAstray(chr: int)
      reads `icursor, `lincurs, `ocursor, `ilin, `arg, image
    {
      && chr == BLANK && t.Way() == Erased && t.width > 5 && lincurs < icursor && ilin < t.height - 1
      && arg - Room() > 5
      && (!NextReady(chr) || (arg - Room() - t.width > 5 && ilin < t.height - 2))
    }

    /** How much of a run of n is in the line it ends in, if it ends before that does. */
    function Share(at: int, n: nat): nat
      requires t.width > 0
    {
      var rest := (at + n) % t.width;
      if rest < n then rest else n
    }

    /** On a terminal that clears to the end of the line, a run of n does so where it ends. */
    ghost predicate ClearsAstray(chr: int, image: seq<int>, at: int, n: nat)
      requires t.width > 0 && 0 <= at
    {
      var share := Share(at, n);
      && Clears(chr, share) && at + n < |image|
      && Misleads(Filled(image, at, n - share, BLANK), at + n - share, at + n)
    }

    ghost predicate Strays(chr: int)
      requires t.width > 0 && 0 <= icursor && 0 <= arg
      reads `icursor, `lincurs, `ocursor, `ilin, `arg, image
    {
      ErasesAstray(chr) || ClearsAstray(chr, image[..], icursor, arg)
    }

    /** Where putmult has come with a run of n begun in line line0 with so much room in it: whether the record
        has strayed, and whether the terminal cursor is at the image's.  `next` tells whether it was to be
        there after the first line, `clears` whether the run is to stray where it ends. */
    ghost predicate Underway(chr: int, line0: int, n: int, room: int, next: bool, clears: bool, was: bool)
      requires t.width > 0
      reads `icursor, `lincurs, `ocursor, `ilin, `icol, `arg, `strayed, image
    {
      && line0 <= ilin && (ilin != line0 ==> icursor == lincurs)
      && (ilin == line0 ==> arg == n && Room() == room && icursor - lincurs == icol && strayed == was && NextReady(chr) == next)
      && (ilin == line0 + 1 ==>
            arg == n - room && strayed == was && (!strayed && chr == BLANK && t.Way() == Erased ==> (ocursor == icursor <==> next)))
      && (ilin == line0 + 2 ==>
            && arg == n - room - t.width
            && (strayed <==> was || (Erases(chr, t.width) && icol > 0 && !next))
            && (!strayed && Erases(chr, t.width) ==> ocursor != icursor))
      && (ilin > line0 + 2 ==> n - room > 2 * t.width && (strayed <==> was || (Erases(chr, t.width) && icol > 0)))
      && 0 <= icursor && 0 <= arg && ClearsAstray(chr, image[..], icursor, arg) == clears
    }

    /** Whether a run of n strays, by what is known before it. */
    ghost predicate StraysThen(chr: int, line0: int, n: int, room: int, next: bool, clears: bool) {
      clears
      || (&& chr == BLANK && t.Way() == Erased && t.width > 5 && room < t.width && line0 < t.height - 1 && n - room > 5
          && (!next || (n - room - t.width > 5 && line0 < t.height - 2)))
    }

    /** One round of the loop of putmult. */
    method MultLine(chr: int, ghost line0: int, ghost n: int, ghost room: int, ghost next: bool, ghost clears: bool,
                    ghost was: bool)
      returns (over: bool)
      requires Valid() && state == 0 && Tracked() && Agrees() && BLANK <= chr && 0 < room <= t.width
      requires icol == t.width - room && Underway(chr, line0, n, room, next, clears, was)
      modifies `tty, `ocursor, `olin, `ocol, `icursor, `lincurs, `ilin, `icol, `arg, `state, `strayed, image
      ensures Valid() && Tracked() && Agrees() && unchanged(`icol)
      ensures over ==> Abs() == ByLines(old(Abs()).(arg := 1), chr, old(arg))
      ensures !over ==>
                && state == 0 && 0 < arg < old(arg)
                && ByLines(Abs().(arg := 1), chr, arg) == ByLines(old(Abs()).(arg := 1), chr, old(arg))
      ensures if over then strayed <==> was || StraysThen(chr, line0, n, room, next, clears)
              else Underway(chr, line0, n, room, next, clears, was)
    {
      hide Cells, Tracked, Agrees, ByLines, Ready, Misleads, ClearsAstray, Filled, OnRecord;
      ghost var cells, at, count, space := image[..], icursor, arg, Room();
      FillReady(0);
      LineClears(chr);
      over := PutLine(chr);
      if !over {
        StillClears(chr, cells, at, count, space);
      }
    }

    /** putmult: show a character `arg` times, going on to the lines below but never past the bottom
        right corner. */
    method PutMult(chr: int)
      requires Valid() && state == 0 && Tracked() && Agrees() && BLANK <= chr && icol == icursor - lincurs
      modifies `tty, `ocursor, `olin, `ocol, `icursor, `lincurs, `ilin, `icol, `arg, `state, `strayed, image
      ensures Valid() && Tracked() && Agrees()
      ensures Abs() == old(Abs()).Repeated(chr)
      ensures 0 <= old(icursor) && (strayed <==> old(strayed) || old(Strays(chr)))
    {
      hide Cells, Tracked, Agrees, ByLines, Ready, Misleads, ClearsAstray;
      FillReady(0);
      ghost var e, n := Abs().(arg := 1), arg;
      ghost var room, next, clears := Room(), NextReady(chr), ClearsAstray(chr, image[..], icursor, arg);
      ByLinesIsTyped(e, chr, n);
      PutAllArg(Abs(), chr, if n <= e.Left() then n else e.Left());
      var over := false;
      assert Underway(chr, e.line, n, room, next, clears, strayed);
      hide Underway;
      while !over
        invariant Valid() && Tracked() && Agrees() && icol == old(icol)
        invariant !over ==> state == 0 && ByLines(Abs().(arg := 1), chr, arg) == ByLines(e, chr, n)
        invariant over ==> Abs() == ByLines(e, chr, n)
        invariant if over then strayed <==> old(strayed) || StraysThen(chr, e.line, n, room, next, clears)
                  else Underway(chr, e.line, n, room, next, clears, old(strayed))
        decreases !over, arg
      {
        over := MultLine(chr, e.line, n, room, next, clears, old(strayed));
      }
    }

    /** What clearing does in a line decides what it does in the run, if the run ends there; if the run goes
        on, or ends with the line, there is nothing to its right. */
    lemma LineClears(chr: int)
      requires Valid() && 0 <= icursor
      ensures var n := if Room() < arg then Room() else arg;
              if arg <= Room() || ilin == t.height - 1
              then ClearsAstray(chr, image[..], icursor, arg) <==> Clears(chr, n) && Misleads(image[..], icursor, icursor + n)
              else !(Clears(chr, n) && Misleads(image[..], icursor, icursor + n))
    {
      hide Spared;
      var c := icursor - lincurs;
      Abs().RoomInLine();
      t.RowNext(ilin);
      if arg < Room() {
        t.Divided(ilin, c + arg);
        assert Share(icursor, arg) == arg;
        SameFill(image[..], image[..], icursor, 0, BLANK);
      } else {
        t.Divided(ilin, t.width - 1);
        t.Divided(ilin + 1, 0);
      }
    }

    /** A run that has gone on to the next line does there what it was to do. */
    lemma StillClears(chr: int, cells: seq<int>, at: int, count: nat, space: nat)
      requires Valid() && 0 <= at && icursor == at + space == lincurs && arg == count - space && 0 < space < count
      requires at + space <= |cells| && image[..] == Filled(cells, at, space, chr)
      ensures 0 <= icursor && (ClearsAstray(chr, image[..], icursor, arg) <==> ClearsAstray(chr, cells, at, count))
    {
      hide Misleads, Filled, Traits.Truthful;
      SameShare(arg, count);
      var share := Share(icursor, arg);
      assert Share(at, count) == share;
      if chr == BLANK && icursor + arg < |cells| {
        TwiceFilled(cells, image[..], at, space, count - share);
      }
    }

    lemma SameShare(n: nat, count: nat)
      requires Valid() && icursor == lincurs && n < count
      ensures var rest := (icursor + n) % t.width; rest <= n && Share(icursor, n) == rest
    {
      var q, m := n / t.width, n % t.width;
      assert n == Cells(q, t.width) + m;
      hide Cells;
      CellsMinus(ilin + q, q, t.width);
      t.Divided(ilin + q, m);
    }

    lemma TwiceFilled(cells: seq<int>, now: seq<int>, at: int, space: nat, n: nat)
      requires 0 <= at && at + space <= |cells| && now == Filled(cells, at, space, BLANK) && space <= n && at + n <= |cells|
      ensures Filled(now, at + space, n - space, BLANK) == Filled(cells, at, n, BLANK)
    {
      hide Filled;
    }

    /** A run that strays is not one that does no harm. */
    lemma StraysUnsafe(chr: int)
      requires Valid() && state == 0 && 0 <= icursor && Strays(chr)
      ensures chr == BLANK && !SafeRun(Abs(), t.Way())
    {
      hide Spared, Ready;
      FillReady(0);
      if ClearsAstray(chr, image[..], icursor, arg) {
        ClearsUnsafe(chr);
      }
    }

    lemma ClearsUnsafe(chr: int)
      requires Valid() && state == 0 && 0 <= icursor == Abs().At() && ClearsAstray(chr, image[..], icursor, arg)
      ensures chr == BLANK && t.Way() == Cleared && !ClearsInPlace(Abs())
    {
      hide Spared, Cells;
      var share := Share(icursor, arg);
      var f, end := Filled(image[..], icursor, arg - share, BLANK), icursor + arg;
      var lim := LineEnd(end);
      var cp :| Lone(f, end, lim, cp) && !Spared(f, end - share, cp);
      assert Lone(image[..], end, lim, cp);
    }

    /** What becomes of the terminal when a run of blanks begun past the first column has had more than
        five cells erased in its line, and has more than five to erase in the next: its cursor goes to
        the column the run began in, and the manager takes it to be in the first. */
    method EraseBelow()
      requires Valid() && state == 0 && !strayed && Tracked() && Agrees() && t.Way() == Erased && icol == icursor - lincurs
      requires 0 < icol && t.width - icol > 5 && icol + arg - t.width > 5 && ilin < t.height - 1
      modifies `tty, `ocursor, `olin, `ocol, `icursor, `lincurs, `ilin, `icol, `strayed, image
      ensures old(Strays(BLANK)) && !OnRecord()
      ensures ilin == old(ilin) + 1 && icursor == lincurs == ocursor && tty.known && tty.row == ilin && tty.col == old(icol)
    {
      FillReady(t.width - icol);
      FillLine(BLANK, t.width - icol);
      t.RowNext(ilin);
      t.RowUnique(tty.row, tty.col, ilin, icol);
      hide Cells;
      icursor := lincurs;
      icursor, lincurs, ilin := icursor + t.width, lincurs + t.width, ilin + 1;
      MoveTo();
    }

    // ----- commands -----

    /** VCCLEF: left arrows, round the end of the line. */
    method GoLeft()
      requires Valid() && state == 0 && icol == icursor - lincurs
      modifies `icursor, `icol, `arg
      ensures lincurs <= icursor && icursor - lincurs == Round(old(icol) - old(arg), t.width) && arg == 0
    {
      hide Round;
      while true
        invariant 0 < t.width && icursor - lincurs == icol && 0 <= icol <= t.width && arg >= 1
        invariant Round(icol - arg, t.width) == Round(old(icol) - old(arg), t.width)
        decreases arg, icol == 0
      {
        RoundOnce(icol - arg, t.width);
        var j := icol;
        if j > 0 {
          j := if j < arg then j else arg;
          icursor, arg := icursor - j, arg - j;
        }
        if arg <= 0 {
          return;
        }
        icursor, icol := icursor + t.width, t.width;
      }
    }

    /** VCCRIT: right arrows, round the end of the line. */
    method GoRight()
      requires Valid() && state == 0 && icol == icursor - lincurs
      modifies `icursor, `icol, `arg
      ensures lincurs <= icursor && icursor - lincurs == Round(old(icol) + old(arg), t.width) && arg == 0
    {
      hide Round;
      while true
        invariant 0 < t.width && icursor - lincurs == icol && -1 <= icol < t.width && arg >= 1
        invariant Round(icol + arg, t.width) == Round(old(icol) + old(arg), t.width)
        decreases arg, icol == t.width - 1
      {
        RoundOnce(icol + arg - t.width, t.width);
        RoundOnce(icol + arg, t.width);
        var j := t.width - 1 - icol;
        if j > 0 {
          j := if j < arg then j else arg;
          icursor, arg := icursor + j, arg - j;
        }
        if arg <= 0 {
          return;
        }
        icursor, icol := icursor - t.width, -1;
      }
    }

    /** VCCUP: up arrows, round the top of the screen. */
    method GoUp()
      requires Valid() && state == 0 && icol == icursor - lincurs
      modifies `icursor, `lincurs, `ilin, `arg
      ensures 0 <= ilin < t.height && lincurs == t.Row(ilin) && icursor == lincurs + icol
      ensures ilin == Round(old(ilin) - old(arg), t.height) && arg == 0
    {
      hide Cells, Round;
      while true
        invariant 0 < t.height && 0 <= ilin < t.height && arg >= 0
        invariant lincurs == t.Row(ilin) && icursor == lincurs + icol
        invariant Round(ilin - arg, t.height) == Round(old(ilin) - old(arg), t.height)
        decreases arg
      {
        RoundOnce(ilin - arg, t.height);
        RoundOnce(ilin, t.height);
        var j := ilin;
        if j > 0 {
          j := if arg < j then arg else j;
          CellsMinus(ilin, j, t.width);
          ilin, arg := ilin - j, arg - j;
          j := Cells(j, t.width);
          icursor, lincurs := icursor - j, lincurs - j;
        }
        if arg <= 0 {
          return;
        }
        t.RowNext(0);
        lincurs := lincurs + t.Row(t.height - 1);
        icursor := lincurs + icol;
        ilin := t.height - 1;
        arg := arg - 1;
      }
    }

    /** VCCDWN: down arrows, round the bottom of the screen. */
    method GoDown()
      requires Valid() && state == 0 && icol == icursor - lincurs
      modifies `icursor, `lincurs, `ilin, `arg
      ensures 0 <= ilin < t.height && lincurs == t.Row(ilin) && icursor == lincurs + icol
      ensures ilin == Round(old(ilin) + old(arg), t.height) && arg == 0
    {
      hide Cells, Round;
      while true
        invariant 0 < t.height && 0 <= ilin < t.height && arg >= 0
        invariant lincurs == t.Row(ilin) && icursor == lincurs + icol
        invariant Round(ilin + arg, t.height) == Round(old(ilin) + old(arg), t.height)
        decreases arg
      {
        RoundOnce(ilin + arg - t.height, t.height);
        RoundOnce(ilin + arg, t.height);
        RoundOnce(ilin, t.height);
        var j := t.height - 1 - ilin;
        if j > 0 {
          j := if arg < j then arg else j;
          CellsMinus(ilin + j, j, t.width);
          ilin, arg := ilin + j, arg - j;
          j := Cells(j, t.width);
          icursor, lincurs := icursor + j, lincurs + j;
        }
        if arg <= 0 {
          return;
        }
        t.RowNext(0);
        lincurs := lincurs - t.Row(t.height - 1);
        icursor := lincurs + icol;
        ilin := 0;
        arg := arg - 1;
      }
    }

    /** The commands of the switch in state 0 that are modelled, and what follows it. */
    method Command(chr: int)
      requires Valid() && state == 0 && icol == icursor - lincurs && Tracked() && Agrees() && Emu.IsCommand(chr)
      modifies `icursor, `lincurs, `ilin, `icol, `arg, `state
      ensures Valid() && Abs() == old(Abs()).Command(chr)
    {
      hide Cells;
      t.RowNext(0);
      match chr {
        case 7 =>  // VCCBEL: sounds, and keeps the count
          return;
        case 8 =>
          GoLeft();
        case 11 =>
          icursor, lincurs, ilin := 0, 0, 0;
        case 13 =>
          icursor := lincurs;
        case 14 =>
          GoUp();
        case 17 =>
          state := 2;
        case 18 =>
          GoDown();
        case 20 =>
          state := 3;
        case _ =>
          GoRight();
      }
      arg := 1;
    }

    /** A printing character in state 0. */
    method Type(chr: int)
      requires Valid() && state == 0 && icol == icursor - lincurs && Tracked() && Agrees() && BLANK <= chr
      modifies `tty, `ocursor, `olin, `ocol, `icursor, `lincurs, `ilin, `icol, `arg, `state, `strayed, image
      ensures Valid() && Tracked() && Agrees()
      ensures strayed <==> old(strayed) || old(arg != 1 && Strays(chr))
      ensures Abs() == old(Abs()).Repeated(chr)
    {
      if arg == 1 {
        TypeOne(chr);
      } else {
        PutMult(chr);
      }
    }

    method TypeOne(chr: int)
      requires Valid() && state == 0 && icol == icursor - lincurs && Tracked() && Agrees() && BLANK <= chr && arg == 1
      modifies `tty, `ocursor, `olin, `ocol, `icursor, `state, image
      ensures Valid() && Tracked() && Agrees()
      ensures Abs() == old(Abs()).Repeated(chr)
    {
      hide Cells, Placed, OnRecord;
      FillReady(0);
      Abs().OnScreen();
      OneTyped(Abs(), chr);
      if chr != image[icursor] {
        PutScr(chr);
        image[icursor] := chr;
      }
      icursor := icursor + 1;
      if icol >= t.width - 1 {
        icursor, state := lincurs, 1;
      }
    }

    /** rollifnec(1): go to the line below, if there is one. */
    method RollIfNec()
      requires Valid() && state == 1
      modifies `icursor, `lincurs, `ilin
      ensures Valid() && Abs().(state := 0) == old(Abs()).Unwrap()
    {
      hide Cells;
      if ilin < t.height - 1 {
        t.RowNext(ilin);
        icursor, lincurs, ilin := icursor + t.width, lincurs + t.width, ilin + 1;
      }
    }

    /** State 0 of the inner loop of d_write. */
    method Carry(chr: int) returns (verdict: Verdict)
      requires Valid() && state == 0 && icol == icursor - lincurs && Tracked() && Agrees() && VCCNUL < chr < 256
      modifies `tty, `ocursor, `olin, `ocol, `icursor, `lincurs, `ilin, `icol, `arg, `state, `strayed, image
      ensures Valid() && Tracked() && Agrees()
      ensures strayed ==> old(strayed) || (chr == BLANK && !SafeRun(old(Abs()), t.Way()))
      ensures verdict == if BLANK <= chr || Emu.IsCommand(chr) then Next else if chr == VCCAAD1 then Address else Illegal
      ensures Abs() == if BLANK <= chr then old(Abs()).Repeated(chr)
                       else if Emu.IsCommand(chr) then old(Abs()).Command(chr) else old(Abs())
    {
      hide Strays, SafeRun;
      FillReady(0);
      if old(Strays(chr)) {
        StraysUnsafe(chr);
      }
      if BLANK <= chr {
        Type(chr);
        return Next;
      } else if chr == VCCAAD1 {
        return Address;
      } else if Emu.IsCommand(chr) {
        Command(chr);
        return Next;
      }
      return Illegal;
    }

    /** State 3 of the inner loop of d_write. */
    method GetColumn(chr: int)
      requires Valid() && state == 3 && icol == icursor - lincurs && BLANK <= chr < 256
      modifies `icursor, `state
      ensures Valid() && Abs() == old(Abs()).Feed(chr)
    {
      hide Cells;
      if chr > BLANK {
        icursor := lincurs + (if chr - BLANK < t.width then chr - BLANK else t.width) - 1;
      }
      state := 5;
    }

    /** State 5 of the inner loop of d_write. */
    method GetLine(chr: int)
      requires Valid() && state == 5 && icol == icursor - lincurs && BLANK <= chr < 256
      modifies `icursor, `lincurs, `ilin, `state
      ensures Valid() && Abs() == old(Abs()).Feed(chr)
    {
      hide Cells;
      if chr > BLANK {
        ilin := (if chr - BLANK < t.height then chr - BLANK else t.height) - 1;
        lincurs := t.Row(ilin);
        icursor := lincurs + icol;
      }
      state := 0;
    }

    /** The other states of the inner loop of d_write.  Is the code used up? */
    method Continue(chr: int) returns (used: bool)
      requires Valid() && state != 0 && icol == icursor - lincurs && VCCNUL < chr < 256
      modifies `icursor, `lincurs, `ilin, `arg, `state
      ensures Valid()
      ensures used ==> !old(Abs()).Recognises(chr) && Abs() == old(Abs()).Feed(chr)
      ensures !used ==> state == 0
      ensures !used && BLANK <= chr ==> old(state) == 1 && Abs() == old(Abs()).Unwrap()
      ensures !used && chr < BLANK ==> old(Abs()).Recognises(chr) && Abs() == old(Abs()).(state := 0)
    {
      hide Cells, Emu.Command, Emu.Repeated;
      match state {
        case 1 =>  // previous character spilled over
          if BLANK <= chr {
            RollIfNec();
          } else if chr == VCCARG {
            state := 16;
            return true;
          }
          state := 0;
        case 2 =>  // get argument
          state := 0;
          arg := if chr > BLANK then chr - BLANK else 1;
          return BLANK <= chr;
        case 3 =>
          if BLANK <= chr {
            GetColumn(chr);
            return true;
          }
          state := 0;
        case 5 =>
          if BLANK <= chr {
            GetLine(chr);
            return true;
          }
          state := 0;
        case _ =>  // argument while spilled over
          if chr > BLANK {
            arg := chr - BLANK;
          }
          state := 1;
          return true;
      }
      return false;
    }

    /** The inner loop of d_write: analyse a code, once more if it ends what came before it. */
    method Analyse(chr: int) returns (verdict: Verdict)
      requires Valid() && Tracked() && Agrees() && VCCNUL < chr < 256
      modifies `tty, `ocursor, `olin, `ocol, `icursor, `lincurs, `ilin, `icol, `arg, `state, `strayed, image
      ensures Valid() && Tracked() && Agrees()
      ensures strayed ==> old(strayed) || (chr == BLANK && old(state) in {0, 1}
                                           && !SafeRun(old(Abs()).Unwrap(), t.Way()))
      ensures verdict == Next <==> !(old(Abs()).Recognises(chr) && !Emu.IsCommand(chr))
      ensures verdict == Next ==> Abs() == old(Abs()).Feed(chr)
      ensures verdict != Next ==> Abs() == old(Abs()).(state := 0)
      ensures verdict == Address <==> old(Abs()).Recognises(chr) && chr == VCCAAD1
    {
      hide Cells, Tracked, Agrees, Emu.Command, Emu.Repeated, Emu.Unwrap;
      SecondLook(Abs(), chr);
      icol := icursor - lincurs;
      if state != 0 {
        var used := Continue(chr);
        if used {
          return Next;
        }
        icol := icursor - lincurs;
      }
      verdict := Carry(chr);
    }

    /** VCCNUL: put the terminal cursor where it belongs. */
    method Flush()
      requires Valid() && Tracked() && Agrees()
      modifies `tty, `ocursor, `olin, `ocol, `icol
      ensures Valid() && Tracked() && Agrees() && Abs() == old(Abs())
    {
      hide Cells;
      icol := icursor - lincurs;
      FillReady(0);
      PutScr(0);
    }

    /** VCCAAD1: the column of a two-byte address.  The width itself is let through, and is one beyond
        the last column of the line, off the image altogether in the last line. */
    method AddressColumn(i2: nat)
      requires Valid() && state == 0
      modifies `icursor, `state
      ensures Valid() <==> i2 < t.width
      ensures i2 < t.width ==> Abs() == old(Abs()).(col := i2, state := 5)
      ensures i2 >= t.width ==> icursor == t.Row(ilin + 1) && (ilin == t.height - 1 ==> icursor == image.Length)
    {
      t.RowNext(ilin);
      icursor := lincurs + (if i2 < t.width then i2 else t.width);
      state := 5;
    }

    /** d_write: show a stream of codes.  The image follows the simulated terminal, and the real one
        follows the image, unless the stream holds a run of blanks that makes it stray. */
    method DWrite(chp: seq<int>)
      requires Valid() && Tracked() && Agrees() && forall i :: 0 <= i < |chp| ==> 0 <= chp[i] < 256
      requires Accepts(Abs(), Written, chp)
      modifies `tty, `ocursor, `olin, `ocol, `icursor, `lincurs, `ilin, `icol, `arg, `state, `strayed, image
      ensures Valid() && Tracked() && Agrees()
      ensures Abs() == Run(old(Abs()), chp)
      ensures !old(strayed) && Accepts(old(Abs()), t.Way(), chp) ==> !strayed
    {
      hide Cells, Tracked, Agrees;
      var i := 0;
      assert chp[0..] == chp;
      while i < |chp|
        invariant 0 <= i <= |chp| && Valid() && Tracked() && Agrees()
        invariant Run(old(Abs()), chp) == Run(Abs(), chp[i..]) && Accepts(Abs(), Written, chp[i..])
        invariant !old(strayed) && Accepts(old(Abs()), t.Way(), chp) ==>
                    !strayed && Accepts(Abs(), t.Way(), chp[i..])
      {
        ghost var rest := chp[i..];
        assert rest[0] == chp[i] && rest[1..] == chp[i + 1..];
        if chp[i] == VCCNUL {
          Flush();
          i := i + 1;
        } else {
          var verdict := Analyse(chp[i]);
          if verdict == Illegal {
            return;
          }
          if verdict == Address {
            assert rest[2..] == chp[i + 2..] && rest[1] == chp[i + 1] && rest[2] == chp[i + 2];
            AddressColumn(chp[i + 1] + 256 * chp[i + 2]);
            i := i + 1;
          }
          i := i + 1;
        }
      }
    }

    /** A run that multchar can be trusted with: not of blanks, or on a terminal that writes them, or within
        its line on one that erases. */
    ghost predicate Fits(chr: int, e: Emu, num: int)
      requires e.Valid() && e.state in {0, 1}
    {
      chr != BLANK || t.Way() == Written || (t.Way() == Erased && e.Unwrap().col + num <= t.width)
    }

    /** multchar: num copies of a character, in bursts of at most 95.  The image and cursor end up as if
        each had been written by itself, as long as the run does not pass the bottom right corner. */
    method MultChar(chr: int, num0: int)
      requires Valid() && Tracked() && Agrees() && BLANK <= chr < 256
      requires state in {0, 1} && arg == 1 && num0 <= Abs().Unwrap().Left()
      modifies `tty, `ocursor, `olin, `ocol, `icursor, `lincurs, `ilin, `icol, `arg, `state, `strayed, image
      ensures Valid() && Tracked() && Agrees()
      ensures Abs() == old(Abs()).PutAll(chr, if num0 > 0 then num0 else 0)
      ensures !old(strayed) && Fits(chr, old(Abs()), num0) ==> !strayed
    {
      hide Cells, Tracked, Agrees, Emu.PutAll, Emu.Left, Accepts, Run;
      var num := num0;
      ghost var e, total := Abs(), if num0 > 0 then num0 else 0;
      ghost var fits := !strayed && Fits(chr, e, num0);
      NoneTyped(e, chr);
      while num > 0
        invariant Valid() && Tracked() && Agrees() && state in {0, 1} && arg == 1
        invariant 0 < num ==> num <= Abs().Unwrap().Left()
        invariant fits ==> !strayed && (0 < num ==> Fits(chr, Abs(), num))
        invariant 0 < num ==> Abs().PutAll(chr, num) == e.PutAll(chr, total)
        invariant num <= 0 ==> Abs() == e.PutAll(chr, total)
        decreases num
      {
        ghost var before := Abs();
        if num > 3 {
          var n := if num > 95 then 95 else num;
          ghost var way := if fits then t.Way() else Written;
          Burst(before, way, chr, n);
          BurstLeft(before, way, chr, n, num);
          AcceptsLess(before, way, [VCCARG, n + BLANK, chr]);
          num := num - n;
          DWrite([VCCARG, n + BLANK, chr]);
        } else {
          var buf := if num > 2 then [chr, chr, chr] else if num > 1 then [chr, chr] else [chr];
          Singles(before, t.Way(), chr, num, buf);
          AcceptsLess(before, t.Way(), buf);
          num := 0;
          DWrite(buf);
        }
      }
    }
  }

  /** A code that ends what came before it means what it means in state 0. */
  lemma SecondLook(e: Emu, chr: int)
    requires e.Valid()
    ensures e.(state := 0).Command(chr) == e.Command(chr)
    ensures e.state in {0, 1} ==> e.Unwrap().Repeated(chr) == e.Repeated(chr)
    ensures e.state == 0 ==> e.Unwrap() == e
  {
    hide Cells, Emu.PutAll, Round;
  }

  lemma OneTyped(e: Emu, chr: int)
    requires e.Valid() && e.state == 0 && e.arg == 1
    ensures e.Repeated(chr) == e.Put(chr)
  {
    hide Emu.Put, Cells;
    assert e.PutAll(chr, 1) == e.Put(chr).PutAll(chr, 0);
  }
}
