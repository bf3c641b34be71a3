/** Bringing every window on a file up to date after the file has changed. */
module Redisplay {
  import Painting
  import opened Terminal

  type Text = seq<seq<int>>

  /** The cells of a row of a window. */
  type Row = seq<int>

  /** Which columns of a file a window shows: w of them, from wcol on. */
  datatype View = View(wcol: nat, w: nat)

  function Blank(v: View): (r: Row)
    ensures |r| == v.w && forall k :: 0 <= k < v.w ==> r[k] == BLANK
  {
    seq(v.w, k => BLANK)
  }

  /** What a row is to show of line n; beyond the end of the file there is nothing. */
  function RowAt(f: Text, n: int, v: View): Row {
    Slice(if 0 <= n < |f| then f[n] else [], v)
  }

  function Slice(line: seq<int>, v: View): (r: Row)
    ensures |r| == v.w && forall k :: 0 <= k < v.w ==> r[k] == Painting.Visible(line, v.wcol, k)
  {
    seq(v.w, k requires 0 <= k => Painting.Visible(line, v.wcol, k))
  }

  /** The rows show the file from line wlin on. */
  ghost predicate Shows(rows: seq<Row>, f: Text, wlin: int, v: View) {
    forall r :: 0 <= r < |rows| ==> rows[r] == RowAt(f, wlin + r, v)
  }

  /** The cells of a row that are not blank lie between first and last. */
  ghost predicate Bounded(row: Row, first: int, last: int, v: View) {
    |row| == v.w && Painting.Bounded(row, 0, v.w, first, last)
  }

  /** A row as a value is what Painting has in the cells of the screen: the bounds of a row there are
      bounds of its cells, a painted row has the cells of its line, and a row ready to be painted afresh
      has blank ones. */
  lemma RowsOnScreen(w: Painting.Window, ln: nat)
    requires w.Valid() && w.d.Valid() && ln <= w.btext
    ensures 0 <= w.Base(ln) && w.Base(ln) + w.rlimit <= w.d.image.Length
    ensures var row, v := w.d.image[w.Base(ln)..w.Base(ln) + w.rlimit], View(w.wcol, w.rlimit);
            && (w.RowOk(ln) <==> Bounded(row, w.firstcol[ln], w.lastcol[ln], v))
            && (w.Painted(ln) <==> w.RowOk(ln) && row == RowAt(w.file, w.wlin + ln, v))
            && (Painting.Bounded(w.d.image[..], w.Base(ln), w.rlimit, w.rlimit, 0) <==> row == Blank(v))
  {
    w.BaseOnScreen(ln);
    var base, n, image := w.Base(ln), w.rlimit, w.d.image[..];
    var v := View(w.wcol, n);
    BoundedCells(image, base, n, w.firstcol[ln], w.lastcol[ln], v);
    BoundedCells(image, base, n, n, 0, v);
    BlankCells(image[base..base + n], v);
    ShownCells(image, base, n, w.Line(ln), v);
    assert image[base..base + n] == w.d.image[base..base + n];
  }

  lemma BoundedCells(image: seq<int>, base: int, n: nat, first: int, last: int, v: View)
    requires 0 <= base && base + n <= |image| && n == v.w
    ensures Painting.Bounded(image, base, n, first, last) <==> Bounded(image[base..base + n], first, last, v)
  {
    var row := image[base..base + n];
    forall i | base <= i < base + n
      ensures row[i - base] == image[i]
    {
    }
    if Bounded(row, first, last, v) {
      forall i | base <= i < base + n && image[i] != BLANK
        ensures first <= i - base < last
      {
        assert row[i - base] != BLANK;
      }
    }
  }

  lemma BlankCells(row: Row, v: View)
    requires |row| == v.w
    ensures Bounded(row, v.w, 0, v) <==> row == Blank(v)
  {
  }

  lemma ShownCells(image: seq<int>, base: int, n: nat, line: seq<int>, v: View)
    requires 0 <= base && base + n <= |image| && n == v.w
    ensures Painting.Shows(image, base, n, line, v.wcol) <==> image[base..base + n] == Slice(line, v)
  {
    var row := image[base..base + n];
    forall i | base <= i < base + n
      ensures row[i - base] == image[i]
    {
    }
    if row == Slice(line, v) {
      forall i | base <= i < base + n
        ensures image[i] == Painting.Visible(line, v.wcol, i - base)
      {
        assert row[i - base] == Slice(line, v)[i - base];
      }
    }
  }

  // ----- the three kinds of change -----

  /** A change at line `from`: num lines are altered, and the file grows by delta lines. */
  ghost predicate Changed(was: Text, now: Text, from: nat, num: nat, delta: int) {
    if delta > 0 then
      from + num <= |was| && |now| == |was| + delta
      && now[..from] == was[..from] && now[from + num + delta..] == was[from + num..]
    else if delta < 0 then
      from + num - delta <= |was| && |now| == |was| + delta
      && now[..from] == was[..from] && now[from + num..] == was[from + num - delta..]
    else
      |now| == |was| && forall i :: 0 <= i < |now| && !(from <= i < from + num) ==> now[i] == was[i]
  }

  /** What a change does to the line numbered n before it. */
  lemma LineMoves(was: Text, now: Text, from: nat, num: nat, delta: int, n: int, v: View)
    requires Changed(was, now, from, num, delta) && n >= 0
    ensures n < from ==> RowAt(now, n, v) == RowAt(was, n, v)
    ensures delta >= 0 && n >= from + num ==> RowAt(now, n + delta, v) == RowAt(was, n, v)
    ensures delta <= 0 && n >= from + num ==> RowAt(now, n, v) == RowAt(was, n - delta, v)
  {
    if delta > 0 {
      if n < from {
        assert n < |was| ==> now[n] == now[..from][n] && was[n] == was[..from][n];
      } else if from + num <= n < |was| {
        assert now[n + delta] == now[from + num + delta..][n - from - num] && was[n] == was[from + num..][n - from - num];
      }
    } else if delta < 0 {
      if n < from {
        assert now[n] == now[..from][n] && was[n] == was[..from][n];
      } else if from + num <= n < |now| {
        assert now[n] == now[from + num..][n - from - num] && was[n - delta] == was[from + num - delta..][n - from - num];
      }
    }
  }

  /** readjtop: how far the top of a window moves. */
  function ReadjTop(wlin: int, from: int, num: int, delta: int): int {
    if delta == 0 then 0
    else if delta > 0 then
      if from >= wlin then 0
      else if from + num <= wlin then delta
      else 0
    else if from > wlin then 0
    else if from - delta + num <= wlin then delta
    else if num == 0 then from - wlin
    else 0
  }

  /** A window that begins below the change keeps showing what it showed; one that began among lines
      only deleted begins with the first after them; any other begins at the same line, those among them
      that begin where lines are inserted. */
  lemma TopKept(was: Text, now: Text, from: nat, num: nat, delta: int, wlin: nat, v: View)
    requires Changed(was, now, from, num, delta)
    ensures var top := wlin + ReadjTop(wlin, from, num, delta);
            && 0 <= top
            && (wlin < from ==> top == wlin)
            && (delta > 0 && from < wlin && from + num <= wlin ==> RowAt(now, top, v) == RowAt(was, wlin, v))
            && (delta < 0 && from + num - delta <= wlin ==> RowAt(now, top, v) == RowAt(was, wlin, v))
            && (delta < 0 && num == 0 && from <= wlin < from - delta ==> RowAt(now, top, v) == RowAt(was, from - delta, v))
            && (num > 0 && from <= wlin < from + num + (if delta < 0 then -delta else 0) ==> top == wlin)
            && (delta < 0 && num == 0 && from <= wlin < from - delta ==> top == from)
            && (delta > 0 && wlin <= from ==> top == wlin) && (delta == 0 ==> top == wlin)
            && (delta > 0 && from < wlin && from + num <= wlin ==> top == wlin + delta)
            && (delta < 0 && from + num - delta <= wlin ==> top == wlin + delta)
  {
    LineMoves(was, now, from, num, delta, wlin, v);
    LineMoves(was, now, from, num, delta, from, v);
    if delta < 0 && from + num - delta <= wlin {
      LineMoves(was, now, from, num, delta, wlin + delta, v);
    }
  }

  /** Lines put in at the first line of a window, or below it, show in it where they fall in its rows. */
  lemma NewLinesShow(was: Text, now: Text, from: nat, num: nat, delta: int, wlin: nat, rows: seq<Row>, n: nat, v: View)
    requires Changed(was, now, from, num, delta) && delta > 0 && wlin <= from <= n < from + num + delta && n - wlin < |rows|
    requires Shows(rows, now, wlin + ReadjTop(wlin, from, num, delta), v)
    ensures rows[n - wlin] == RowAt(now, n, v)
  {
    hide RowAt;
    TopKept(was, now, from, num, delta, wlin, v);
  }

  /** How far the top can move. */
  lemma TopMoves(was: Text, now: Text, from: nat, num: nat, delta: int, wlin: nat)
    requires Changed(was, now, from, num, delta)
    ensures var wmove := ReadjTop(wlin, from, num, delta);
            && 0 <= wlin + wmove && (delta > 0 ==> from + num + delta <= |now|) && (delta < 0 ==> from + num <= |now|)
            && (delta < 0 ==> delta <= wmove <= 0)
            && (delta < 0 && wmove != delta && num > 0 ==> wmove == 0 && from - wlin - delta + num > 0)
            && (delta < 0 && wmove != delta && num == 0 ==> wlin + wmove <= from)
            && (delta < 0 && wmove == delta && num > 0 ==> from - (wlin + wmove) + num <= 0)
  {
  }

  // ----- windows -----

  /** Rows from `start` down moved n rows down, and n blank rows left. */
  function Down(rows: seq<Row>, start: int, n: int, v: View): (r: seq<Row>)
    requires 0 <= start && 0 <= n && start + n <= |rows|
    ensures |r| == |rows|
    ensures forall i :: 0 <= i < |r| ==>
              r[i] == if i < start then rows[i] else if i < start + n then Blank(v) else rows[i - n]
  {
    seq(|rows|, i requires 0 <= i < |rows| => if i < start then rows[i] else if i < start + n then Blank(v) else rows[i - n])
  }

  /** Rows below the n at `start` moved up over them, and n blank rows left at the bottom. */
  function Up(rows: seq<Row>, start: int, n: int, v: View): (r: seq<Row>)
    requires 0 <= start && 0 <= n && start + n <= |rows|
    ensures |r| == |rows|
    ensures forall i :: 0 <= i < |r| ==>
              r[i] == if i < start then rows[i] else if i < |rows| - n then rows[i + n] else Blank(v)
  {
    seq(|rows|, i requires 0 <= i < |rows| => if i < start then rows[i] else if i < |rows| - n then rows[i + n] else Blank(v))
  }

  /** The rows from `start` on show what belongs delta rows further down, all but some dirty rows. */
  ghost predicate Lagging(rows: seq<Row>, f: Text, wlin: int, start: int, delta: int, at: int, dirty: seq<Row>, v: View) {
    && (forall r :: 0 <= r < |rows| && r < start ==> rows[r] == RowAt(f, wlin + r, v))
    && (forall r :: 0 <= r < |rows| && at <= r < at + |dirty| ==> rows[r] == dirty[r - at])
    && forall r :: 0 <= r < |rows| && start <= r && !(at <= r < at + |dirty|) ==> rows[r] == RowAt(f, wlin + r + delta, v)
  }

  /** The rows from start + delta on, but for num dirty ones, show what belongs delta rows further up. */
  ghost predicate Ahead(rows: seq<Row>, f: Text, wlin: int, start: int, num: int, delta: int, v: View) {
    && (forall r :: 0 <= r < |rows| && r < start ==> rows[r] == RowAt(f, wlin + r, v))
    && forall r :: 0 <= r < |rows| && start + num + delta <= r ==> rows[r] == RowAt(f, wlin + r - delta, v)
  }

  lemma DownLags(rows: seq<Row>, f: Text, wlin: int, start: int, delta: int, at: int, dirty: seq<Row>, n: nat, v: View)
    requires Lagging(rows, f, wlin, start, delta, at, dirty, v) && 0 <= start <= at && start + n <= |rows|
    ensures var d := Down(rows, start, n, v);
            forall r :: 0 <= r < |d| && !(start <= r < start + n) ==>
              d[r] == if r < start then RowAt(f, wlin + r, v)
                      else if at + n <= r < at + n + |dirty| then dirty[r - at - n]
                      else RowAt(f, wlin + r + (delta - n), v)
  {
    hide RowAt;
    forall r | 0 <= r < |rows| && !(start <= r < start + n)
      ensures Down(rows, start, n, v)[r] == if r < start then RowAt(f, wlin + r, v)
                                            else if at + n <= r < at + n + |dirty| then dirty[r - at - n]
                                            else RowAt(f, wlin + r + (delta - n), v)
    {
      if r >= start {
        assert Down(rows, start, n, v)[r] == rows[r - n];
        if !(at + n <= r < at + n + |dirty|) {
          assert rows[r - n] == RowAt(f, wlin + (r - n) + delta, v);
        }
      }
    }
  }

  lemma UpAhead(rows: seq<Row>, f: Text, wlin: int, start: int, num: int, delta: int, n: nat, v: View)
    requires Ahead(rows, f, wlin, start, num, delta, v) && 0 <= start && 0 <= num && n <= delta && start + delta < |rows|
    ensures var u := Up(rows, start, n, v);
            forall r :: 0 <= r < |u| - n && !(start <= r < start + num + delta - n) ==>
              u[r] == RowAt(f, if r < start then wlin + r else wlin + r - (delta - n), v)
  {
    hide RowAt;
    forall r | 0 <= r < |rows| - n && !(start <= r < start + num + delta - n)
      ensures Up(rows, start, n, v)[r] == RowAt(f, if r < start then wlin + r else wlin + r - (delta - n), v)
    {
      if r >= start {
        assert rows[r + n] == RowAt(f, wlin + (r + n) - delta, v);
      }
    }
  }

  /** Once the blank rows left by a move down have been painted, the rows lag by so much less. */
  lemma LagsLess(rows: seq<Row>, e: seq<Row>, f: Text, wlin: int, start: int, delta: int, at: int, dirty: seq<Row>,
                 n: nat, v: View)
    requires Lagging(rows, f, wlin, start, delta, at, dirty, v) && 0 <= start <= at && start + n <= |rows| == |e|
    requires forall r :: 0 <= r < |e| ==>
               e[r] == if start <= r <= start + n - 1 then RowAt(f, wlin + (delta - n) + r, v) else Down(rows, start, n, v)[r]
    ensures Lagging(e, f, wlin, start, delta - n, at + n, dirty, v)
  {
    hide RowAt, Down;
    DownLags(rows, f, wlin, start, delta, at, dirty, n, v);
  }

  lemma AheadLess(rows: seq<Row>, e: seq<Row>, f: Text, wlin: int, start: int, num: int, delta: int, n: nat, v: View)
    requires Ahead(rows, f, wlin, start, num, delta, v)
    requires 0 <= start && 0 <= num && n <= delta && start + delta < |rows| == |e|
    requires forall r :: 0 <= r < |e| ==>
               e[r] == if |e| - n <= r <= |e| - 1 then RowAt(f, wlin - (delta - n) + r, v) else Up(rows, start, n, v)[r]
    ensures Ahead(e, f, wlin, start, num, delta - n, v)
  {
    hide RowAt, Up;
    UpAhead(rows, f, wlin, start, num, delta, n, v);
  }

  /** Rows that lag no more, none of them dirty. */
  lemma AllRight(rows: seq<Row>, f: Text, wlin: int, start: int, at: int, v: View)
    requires Lagging(rows, f, wlin, start, 0, at, [], v)
    ensures Shows(rows, f, wlin, v)
  {
    hide RowAt;
  }

  /** Rows all painted from `start` on. */
  lemma PaintedDown(rows: seq<Row>, e: seq<Row>, f: Text, wlin: int, start: int, v: View)
    requires |rows| == |e| && forall r :: 0 <= r < |rows| && r < start ==> rows[r] == RowAt(f, wlin + r, v)
    requires forall r :: 0 <= r < |e| ==> e[r] == if start <= r <= |e| - 1 then RowAt(f, wlin + r, v) else rows[r]
    ensures Shows(e, f, wlin, v)
  {
    hide RowAt;
  }

  /** Rows that lag, at the end of the file: below the new lines there is nothing to move. */
  lemma LaggingAtEnd(rows: seq<Row>, f: Text, wlin: int, start: int, delta: int, v: View)
    requires Lagging(rows, f, wlin, start, delta, start, [], v)
    requires 0 <= start && 0 <= delta && |f| - delta <= wlin + start
    ensures forall r :: 0 <= r < |rows| && !(start <= r < start + delta) ==> rows[r] == RowAt(f, wlin + r, v)
  {
  }

  /** Rows that are ahead, when the lines deleted were the last of the file. */
  lemma AheadAtEnd(rows: seq<Row>, f: Text, wlin: int, start: int, delta: int, v: View)
    requires Ahead(rows, f, wlin, start, 0, delta, v) && 0 <= start && 0 <= delta
    requires delta > 0 ==> |f| <= wlin + start
    ensures forall r :: 0 <= r < |rows| && !(start <= r < start + delta) ==> rows[r] == RowAt(f, wlin + r, v)
  {
  }

  /** The first row of a change in a window, and the altered rows from there on. */
  function First(winfirst: int): int {
    if winfirst > 0 then winfirst else 0
  }

  function Altered(winfirst: int, num: int): int {
    if winfirst > 0 then num else if winfirst + num > 0 then winfirst + num else 0
  }

  /** What is known of the rows of a window once the file has changed and its top has moved to line top,
      before anything is repainted: winfirst is the row of the change. */
  ghost predicate Stale(rows: seq<Row>, f: Text, top: int, winfirst: int, num: int, delta: int, wmove: int, v: View) {
    if delta == 0 then
      forall r :: 0 <= r < |rows| && !(winfirst <= r < winfirst + num) ==> rows[r] == RowAt(f, top + r, v)
    else if delta > 0 then
      if winfirst < 0 && winfirst + num <= 0 then Shows(rows, f, top, v)
      else
        && (forall r :: 0 <= r < |rows| && r < winfirst ==> rows[r] == RowAt(f, top + r, v))
        && (forall r :: 0 <= r < |rows| && winfirst + num <= r ==> rows[r] == RowAt(f, top + r + delta, v))
    else Ahead(rows, f, top, First(winfirst), Altered(winfirst, num), -(delta - wmove), v)
  }

  /** Rows of which the altered ones are set aside. */
  lemma SetAside(rows: seq<Row>, f: Text, top: int, winfirst: int, num: nat, delta: int, wmove: int, v: View)
    requires Stale(rows, f, top, winfirst, num, delta, wmove, v) && delta > 0 && (winfirst >= 0 || winfirst + num > 0)
    requires First(winfirst) + Altered(winfirst, num) <= |rows|
    ensures var first, d := First(winfirst), Altered(winfirst, num);
            Lagging(rows, f, top, first, delta, first, rows[first..first + d], v)
  {
    hide RowAt;
  }

  lemma RowsThen(rows: seq<Row>, was: Text, now: Text, from: nat, num: nat, delta: int, wlin: nat, v: View)
    requires Changed(was, now, from, num, delta) && Shows(rows, was, wlin, v)
    ensures var wmove := ReadjTop(wlin, from, num, delta);
            Stale(rows, now, wlin + wmove, from - (wlin + wmove), num, delta, wmove, v)
  {
    hide RowAt;
    forall r | 0 <= r < |rows|
      ensures wlin + r < from ==> rows[r] == RowAt(now, wlin + r, v)
      ensures delta >= 0 && wlin + r >= from + num ==> rows[r] == RowAt(now, wlin + r + delta, v)
      ensures delta < 0 && wlin + r >= from + num - delta ==> rows[r] == RowAt(now, wlin + r + delta, v)
    {
      LineMoves(was, now, from, num, delta, wlin + r, v);
      if delta < 0 && wlin + r >= from + num - delta {
        LineMoves(was, now, from, num, delta, wlin + r + delta, v);
      }
    }
  }

  /** What redisplay meets with in a window: the answers of the terminal to its wishes to move rows, and
      the line the editor has in hand when it comes to the last putup. */
  datatype Luck = Luck(answers: seq<int>, cline: seq<int>)

  /** Does the terminal, in one of the moves that make up delta, decline?  An answer that is none, or
      more than was asked, counts as declining. */
  function Declined(answers: seq<int>, delta: int): bool
    decreases |answers|
  {
    delta > 0
    && (answers == [] || answers[0] <= 0 || answers[0] > delta || Declined(answers[1..], delta - answers[0]))
  }

  /** The window begins so far down among the altered lines that, the rows having been moved, putup is
      asked to begin at a negative row.  It takes that for a wish to show the current line. */
  predicate Skewed(winfirst: int, num: int, delta: int, btext: int, answers: seq<int>) {
    delta > 0 && winfirst + delta < 0 < winfirst + num && winfirst + delta + num <= btext && !Declined(answers, delta)
  }

  /** The rows then: of the altered ones, which were moved down, the last shows the current line, and
      the others are left as they were. */
  ghost predicate Garbled(before: seq<Row>, rows: seq<Row>, f: Text, wlin: int, winfirst: int, num: int, delta: int,
                          cline: seq<int>, v: View)
    requires 0 <= delta
  {
    && |rows| == |before|
    && forall r :: 0 <= r < |rows| ==>
         rows[r] == if delta <= r < delta + winfirst + num - 1 then before[r - delta]
                    else if r == delta + winfirst + num - 1 then Slice(cline, v)
                    else RowAt(f, wlin + r, v)
  }

  /** That is right only by coincidence: each altered row must have shown, before the change, the line
      that belongs delta rows further down after it. */
  lemma GarbledShows(before: seq<Row>, rows: seq<Row>, f: Text, wlin: int, winfirst: int, num: int, delta: int,
                     cline: seq<int>, v: View)
    requires delta > 0 && winfirst + delta < 0 < winfirst + num && winfirst + delta + num < |rows|
    requires Garbled(before, rows, f, wlin, winfirst, num, delta, cline, v)
    ensures Shows(rows, f, wlin, v) <==>
            && (forall r :: 0 <= r < winfirst + num - 1 ==> before[r] == RowAt(f, wlin + r + delta, v))
            && Slice(cline, v) == RowAt(f, wlin + delta + winfirst + num - 1, v)
  {
    hide RowAt, Slice;
    if Shows(rows, f, wlin, v) {
      forall r | 0 <= r < winfirst + num - 1
        ensures before[r] == RowAt(f, wlin + r + delta, v)
      {
        assert rows[r + delta] == before[r];
        assert rows[r + delta] == RowAt(f, wlin + (r + delta), v);
      }
      assert rows[delta + winfirst + num - 1] == RowAt(f, wlin + (delta + winfirst + num - 1), v);
    } else {
      var r :| 0 <= r < |rows| && rows[r] != RowAt(f, wlin + r, v);
      if delta <= r < delta + winfirst + num - 1 {
        assert before[r - delta] != RowAt(f, wlin + (r - delta) + delta, v);
      }
    }
  }

  ghost const WAS: Text := [[97], [98], [99], [100], [101]]
  ghost const NOW: Text := [[65], [66], [67], [68], [69], [101]]

  lemma FourBecomeFive()
    ensures Changed(WAS, NOW, 0, 4, 1)
  {
    assert NOW[..0] == WAS[..0] == [];
    assert NOW[5..] == WAS[4..] == [[101]];
  }

  lemma TopStays()
    ensures ReadjTop(2, 0, 4, 1) == 0
  {
  }

  lemma SkewedThere()
    ensures Skewed(0 - 2, 4, 1, 4, [1])
  {
    assert [1][1..] == [];
  }

  lemma RowsThere(v: View)
    requires v == View(0, 1)
    ensures RowAt(WAS, 2, v)[0] == 99 && RowAt(NOW, 3, v)[0] == 68
  {
    assert WAS[2] == [99] && NOW[3] == [68];
  }

  /** Four lines become five, on a screen of one column and five rows that begins with the third of them:
      the row below goes on showing what the third line was. */
  lemma SkewedExample(before: seq<Row>, rows: seq<Row>, cline: seq<int>, v: View)
    requires v == View(0, 1)
    requires |before| == 5 && Shows(before, WAS, 2, v) && Garbled(before, rows, NOW, 2, -2, 4, 1, cline, v)
    ensures Changed(WAS, NOW, 0, 4, 1) && ReadjTop(2, 0, 4, 1) == 0 && Skewed(0 - 2, 4, 1, 4, [1])
    ensures !Shows(rows, NOW, 2, v)
  {
    hide RowAt, Changed, ReadjTop, Skewed;
    FourBecomeFive();
    TopStays();
    SkewedThere();
    RowsThere(v);
    assert rows[1] == before[0] == RowAt(WAS, 2 + 0, v);
    ShowsRow(rows, NOW, 2, 1, v);
  }

  lemma ShowsRow(rows: seq<Row>, f: Text, wlin: int, r: int, v: View)
    requires 0 <= r < |rows|
    ensures Shows(rows, f, wlin, v) ==> rows[r] == RowAt(f, wlin + r, v)
  {
  }

  /** A window: its rows, the bounds of what they show, its workspace and its alternate workspace. */
  class Window {
    const btext: nat        // the last row
    const v: View           // the columns of the file it shows
    var rows: seq<Row>
    var firstcol: seq<int>
    var lastcol: seq<int>
    var freshputup: bool    // the rows to be painted are known to be blank
    var wfile: nat          // the file of the workspace
    var wlin: int           // the line in row 0
    var altfile: nat
    var altlin: int

    constructor (btext: nat, v: View, wfile: nat, altfile: nat)
      ensures Valid() && this.btext == btext && this.v == v && this.wfile == wfile && this.altfile == altfile
    {
      this.btext, this.v, this.wfile, this.altfile := btext, v, wfile, altfile;
      rows := seq(btext + 1, i => Blank(v));
      firstcol, lastcol, freshputup := seq(btext + 1, i => 0), seq(btext + 1, i => 0), false;
      wlin, altlin := 0, 0;
    }

    /** The bounds of every row are right. */
    ghost predicate Valid()
      reads `rows, `firstcol, `lastcol, `freshputup
    {
      && Sized() && !freshputup
      && forall r :: 0 <= r <= btext ==> Bounded(rows[r], firstcol[r], lastcol[r], v)
    }

    ghost predicate Sized()
      reads `rows, `firstcol, `lastcol
    {
      |rows| == |firstcol| == |lastcol| == btext + 1
    }

    /** The first column in which a row is not blank, at or after k. */
    function FnbCol(row: Row, k: nat): (c: nat)
      requires k <= |row|
      ensures k <= c <= |row| && (forall i :: k <= i < c ==> row[i] == BLANK) && (c < |row| ==> row[c] != BLANK)
      decreases |row| - k
    {
      if k < |row| && row[k] == BLANK then FnbCol(row, k + 1) else k
    }

    /** One row of putup, as it is painted from right bounds, or from a blank row known to be so: it shows
        a line, and has the bounds of that. */
    method PutRow(line: seq<int>, ln: nat)
      requires Sized() && ln <= btext
      requires if freshputup then rows[ln] == Blank(v) else Bounded(rows[ln], firstcol[ln], lastcol[ln], v)
      modifies `rows, `firstcol, `lastcol
      ensures Sized() && rows == old(rows)[ln := Slice(line, v)]
      ensures Bounded(rows[ln], firstcol[ln], lastcol[ln], v)
      ensures forall r :: 0 <= r <= btext && r != ln ==> firstcol[r] == old(firstcol[r]) && lastcol[r] == old(lastcol[r])
    {
      var row := Slice(line, v);
      var fc := FnbCol(row, 0);
      var col := if freshputup || fc < firstcol[ln] then fc else firstcol[ln];
      var lstcol := if |line| < v.wcol then 0 else if |line| - v.wcol > v.w then v.w else |line| - v.wcol;
      if lstcol < (if fc > col then fc else col) {
        lstcol := if fc > col then fc else col;
      }
      rows := rows[ln := row];
      firstcol, lastcol := firstcol[ln := fc], lastcol[ln := if lstcol == fc then 0 else lstcol];
    }

    /** The row shows its line of the file. */
    method PutFileRow(f: Text, ln: nat)
      requires Sized() && ln <= btext
      requires if freshputup then rows[ln] == Blank(v) else Bounded(rows[ln], firstcol[ln], lastcol[ln], v)
      modifies `rows, `firstcol, `lastcol
      ensures Sized() && rows == old(rows)[ln := RowAt(f, wlin + ln, v)]
      ensures Bounded(rows[ln], firstcol[ln], lastcol[ln], v)
      ensures forall r :: 0 <= r <= btext && r != ln ==> firstcol[r] == old(firstcol[r]) && lastcol[r] == old(lastcol[r])
    {
      hide Slice, Bounded;
      PutRow(if 0 <= wlin + ln < |f| then f[wlin + ln] else [], ln);
    }

    /** putup, uninterrupted: rows ls to lf are made to show the file. */
    method PutUp(f: Text, ls: int, lf0: int)
      requires Sized() && 0 <= ls
      requires forall r :: ls <= r <= lf0 && r <= btext ==>
                 if freshputup then rows[r] == Blank(v) else Bounded(rows[r], firstcol[r], lastcol[r], v)
      modifies `rows, `firstcol, `lastcol
      ensures Sized()
      ensures forall r :: 0 <= r <= btext ==> rows[r] == if ls <= r <= lf0 then RowAt(f, wlin + r, v) else old(rows)[r]
      ensures forall r :: 0 <= r <= btext && ls <= r <= lf0 ==> Bounded(rows[r], firstcol[r], lastcol[r], v)
      ensures forall r :: 0 <= r <= btext && !(ls <= r <= lf0) ==>
                firstcol[r] == old(firstcol[r]) && lastcol[r] == old(lastcol[r])
    {
      hide RowAt, Bounded, Blank;
      var lf := if lf0 > btext then btext else lf0;
      var ln := ls;
      while ln <= lf
        invariant ls <= ln && Sized()
        invariant forall r :: 0 <= r <= btext ==>
                    rows[r] == if ls <= r < ln && r <= lf then RowAt(f, wlin + r, v) else old(rows)[r]
        invariant forall r :: ls <= r < ln && r <= lf ==> Bounded(rows[r], firstcol[r], lastcol[r], v)
        invariant forall r :: 0 <= r <= btext && !(ls <= r < ln && r <= lf) ==>
                    firstcol[r] == old(firstcol[r]) && lastcol[r] == old(lastcol[r])
      {
        PutFileRow(f, ln);
        ln := ln + 1;
      }
    }

    /** The bounds of rows from `start` on moved down over n rows, which have none. */
    method BoundsDown(start: int, num: int)
      requires Sized() && 0 <= start && 0 <= num && start + num <= btext + 1
      modifies `firstcol, `lastcol
      ensures Sized()
      ensures forall r :: 0 <= r <= btext ==>
                && firstcol[r] == (if r < start then old(firstcol[r]) else if r < start + num then 0 else old(firstcol[r - num]))
                && lastcol[r] == if r < start then old(lastcol[r]) else if r < start + num then 0 else old(lastcol[r - num])
    {
      var none := seq(num, i => 0);
      firstcol := firstcol[..start] + none + firstcol[start..btext + 1 - num];
      lastcol := lastcol[..start] + none + lastcol[start..btext + 1 - num];
    }

    /** The bounds of rows moved up over the num rows at `start`. */
    method BoundsUp(start: int, num: int)
      requires Sized() && 0 <= start && 0 <= num && start + num <= btext + 1
      modifies `firstcol, `lastcol
      ensures Sized()
      ensures forall r :: 0 <= r <= btext ==>
                && firstcol[r] == (if r < start then old(firstcol[r]) else if r <= btext - num then old(firstcol[r + num]) else 0)
                && lastcol[r] == if r < start then old(lastcol[r]) else if r <= btext - num then old(lastcol[r + num]) else 0
    {
      var none := seq(num, i => 0);
      firstcol := firstcol[..start] + firstcol[start + num..] + none;
      lastcol := lastcol[..start] + lastcol[start + num..] + none;
    }

    /** d_vmove: what the terminal makes of a wish to move the rows from `start` on by delta.  It may
        decline, answering 0 or less, or move them by any number of rows up to delta. */
    method VMove(start: int, delta: int, answer: int) returns (num: int)
      requires Sized() && 0 <= start && start + (if delta > 0 then delta else -delta) <= btext
      modifies `rows
      ensures num == (if 0 < answer <= (if delta > 0 then delta else -delta) then answer else -1) && Sized()
      ensures rows == if num <= 0 then old(rows)
                      else if delta > 0 then Down(old(rows), start, num, v) else Up(old(rows), start, num, v)
    {
      num := answer;
      if num <= 0 || num > (if delta > 0 then delta else -delta) {
        return -1;
      }
      rows := if delta > 0 then Down(rows, start, num, v) else Up(rows, start, num, v);
    }

    /** What vinsdel does when num rows have been opened at `start`: the bounds follow the rows, and the
        blank ones are painted, with the top of the window moved while the others still lag. */
    method Opened(f: Text, ghost before: seq<Row>, start: int, delta: int, num: int)
      requires Sized() && !freshputup && |before| == btext + 1 && 0 <= start && 0 < num && start + num <= btext + 1
      requires rows == Down(before, start, num, v)
      requires forall r :: 0 <= r <= btext ==> Bounded(before[r], firstcol[r], lastcol[r], v)
      modifies `rows, `wlin, `firstcol, `lastcol, `freshputup
      ensures Valid() && wlin == old(wlin)
      ensures forall r :: 0 <= r <= btext ==>
                rows[r] == if start <= r <= start + num - 1 then RowAt(f, wlin + (delta - num) + r, v)
                           else Down(before, start, num, v)[r]
    {
      hide RowAt, Bounded, Blank;
      BoundsDown(start, num);
      assert forall r :: start <= r < start + num ==> rows[r] == Blank(v);
      forall r | 0 <= r <= btext && !(start <= r < start + num)
        ensures Bounded(rows[r], firstcol[r], lastcol[r], v)
      {
        assert rows[r] == if r < start then before[r] else before[r - num];
      }
      hide Down;
      freshputup := true;
      wlin := wlin + (delta - num);
      PutUp(f, start, start + num - 1);
      wlin := wlin - (delta - num);
      freshputup := false;
    }

    /** The same when rows have been closed up over num rows at `start`. */
    method Closed(f: Text, ghost before: seq<Row>, start: int, delta: int, num: int)
      requires Sized() && !freshputup && |before| == btext + 1 && 0 <= start && 0 < num && start + num <= btext + 1
      requires rows == Up(before, start, num, v)
      requires forall r :: 0 <= r <= btext ==> Bounded(before[r], firstcol[r], lastcol[r], v)
      modifies `rows, `wlin, `firstcol, `lastcol, `freshputup
      ensures Valid() && wlin == old(wlin)
      ensures forall r :: 0 <= r <= btext ==>
                rows[r] == if btext + 1 - num <= r <= btext then RowAt(f, wlin - (delta - num) + r, v)
                           else Up(before, start, num, v)[r]
    {
      hide RowAt, Bounded, Blank;
      BoundsUp(start, num);
      assert forall r :: btext + 1 - num <= r <= btext ==> rows[r] == Blank(v);
      forall r | 0 <= r < btext + 1 - num
        ensures Bounded(rows[r], firstcol[r], lastcol[r], v)
      {
        assert rows[r] == if r < start then before[r] else before[r + num];
      }
      hide Up;
      freshputup := true;
      wlin := wlin - (delta - num);
      PutUp(f, btext + 1 - num, btext);
      wlin := wlin + (delta - num);
      freshputup := false;
    }

    /** putup with a negative first row: only the last is put up, and from the current line. */
    method PutCurrent(cline: seq<int>, lf0: int)
      requires Valid() && 0 <= lf0
      modifies `rows, `firstcol, `lastcol
      ensures Valid()
      ensures var lf := if lf0 > btext then btext else lf0; rows == old(rows)[lf := Slice(cline, v)]
    {
      hide Slice, Bounded;
      var lf := if lf0 > btext then btext else lf0;
      PutRow(cline, lf);
    }

    /** One round of vinsdel, inserting.  Did the terminal decline? */
    method InsertSome(f: Text, start: int, delta: int, ghost at: int, ghost dirty: seq<Row>, answer: int) returns (num: int)
      requires Valid() && delta > 0 && 0 <= start <= at && start + delta <= btext
      requires Lagging(rows, f, wlin, start, delta, at, dirty, v)
      modifies `rows, `wlin, `firstcol, `lastcol, `freshputup
      ensures Valid() && wlin == old(wlin) && num == if 0 < answer <= delta then answer else -1
      ensures num <= 0 ==> Shows(rows, f, wlin, v)
      ensures num > 0 ==> Lagging(rows, f, wlin, start, delta - num, at + num, dirty, v)
    {
      hide RowAt, Bounded, Blank, Shows;
      ghost var before := rows;
      num := VMove(start, delta, answer);
      if num <= 0 {
        PutUp(f, start, btext);
        PaintedDown(before, rows, f, wlin, start, v);
        return;
      }
      Opened(f, before, start, delta, num);
      LagsLess(before, rows, f, wlin, start, delta, at, dirty, num, v);
    }

    /** vinsdel, inserting: the rows from `start` on, but for the dirty ones, show what belongs delta
        rows further down.  `answers` are the terminal's, whatever they may be. */
    method Insert(f: Text, start: int, delta0: int, ghost dirty: seq<Row>, answers: seq<int>) returns (whole: bool)
      requires Valid() && delta0 > 0 && 0 <= start && start + delta0 <= btext
      requires Lagging(rows, f, wlin, start, delta0, start, dirty, v)
      modifies `rows, `wlin, `firstcol, `lastcol, `freshputup
      ensures Valid() && wlin == old(wlin) && whole == Declined(answers, delta0)
      ensures if whole then Shows(rows, f, wlin, v) else Lagging(rows, f, wlin, start, 0, start + delta0, dirty, v)
    {
      hide RowAt, Lagging, Shows;
      var delta, k := delta0, 0;
      assert answers[0..] == answers;
      while delta > 0
        invariant Valid() && wlin == old(wlin) && 0 <= delta <= delta0 && 0 <= k <= |answers|
        invariant Declined(answers[k..], delta) == Declined(answers, delta0)
        invariant Lagging(rows, f, wlin, start, delta, start + (delta0 - delta), dirty, v)
      {
        var num := InsertSome(f, start, delta, start + (delta0 - delta), dirty, if k < |answers| then answers[k] else -1);
        if num <= 0 {
          return true;
        }
        assert answers[k..][1..] == answers[k + 1..];
        k := k + 1;
        delta := delta - num;
      }
      return false;
    }

    /** One round of vinsdel, deleting. */
    method DeleteSome(f: Text, start: int, ghost dirty: int, delta: int, answer: int) returns (num: int)
      requires Valid() && delta >= 0 && 0 <= start && start + delta <= btext && 0 <= dirty
      requires Ahead(rows, f, wlin, start, dirty, delta, v)
      modifies `rows, `wlin, `firstcol, `lastcol, `freshputup
      ensures Valid() && wlin == old(wlin) && num <= delta
      ensures num <= 0 ==> Shows(rows, f, wlin, v)
      ensures num > 0 ==> Ahead(rows, f, wlin, start, dirty, delta - num, v)
    {
      hide RowAt, Bounded, Blank, Shows;
      ghost var before := rows;
      num := VMove(start, -delta, answer);
      if num <= 0 {
        PutUp(f, start, btext);
        PaintedDown(before, rows, f, wlin, start, v);
        return;
      }
      Closed(f, before, start, delta, num);
      AheadLess(before, rows, f, wlin, start, dirty, delta, num, v);
    }

    /** vinsdel, deleting: the rows from start + delta on, but for the dirty ones, show what belongs delta
        rows further up.  The loop is entered even when there is nothing to delete. */
    method Delete(f: Text, start: int, ghost dirty: int, delta0: int, answers: seq<int>) returns (whole: bool)
      requires Valid() && delta0 >= 0 && 0 <= start && start + delta0 <= btext && 0 <= dirty
      requires Ahead(rows, f, wlin, start, dirty, delta0, v)
      modifies `rows, `wlin, `firstcol, `lastcol, `freshputup
      ensures Valid() && wlin == old(wlin)
      ensures if whole then Shows(rows, f, wlin, v) else Ahead(rows, f, wlin, start, dirty, 0, v)
    {
      hide RowAt, Ahead, Shows;
      var delta, k := delta0, 0;
      while true
        invariant Valid() && wlin == old(wlin) && 0 <= delta <= delta0 && Ahead(rows, f, wlin, start, dirty, delta, v)
        decreases delta
      {
        var num := DeleteSome(f, start, dirty, delta, if k < |answers| then answers[k] else -1);
        k := k + 1;
        if num <= 0 {
          return true;
        }
        delta := delta - num;
        if delta <= 0 {
          return false;
        }
      }
    }

    /** redisplay when the file has grown by delta lines: num altered rows from row winfirst on are dirty,
        and those below them do not show the new lines yet. */
    method Inserted(f: Text, winfirst: int, num: nat, delta: int, cline: seq<int>, answers: seq<int>)
      requires Valid() && delta > 0 && 0 <= First(winfirst) <= btext && wlin + winfirst + num + delta <= |f|
      requires (winfirst >= 0 || winfirst + num > 0) && Stale(rows, f, wlin, winfirst, num, delta, 0, v)
      modifies `rows, `wlin, `firstcol, `lastcol, `freshputup
      ensures Valid() && wlin == old(wlin)
      ensures if Skewed(winfirst, num, delta, btext, answers)
              then Garbled(old(rows), rows, f, wlin, winfirst, num, delta, cline, v)
              else Shows(rows, f, wlin, v)
    {
      hide RowAt, Slice, Bounded;
      var first := if winfirst > 0 then winfirst else 0;
      var endwin := btext;
      if winfirst + delta + num > endwin {
        PutUp(f, first, endwin);
      } else if wlin + winfirst >= |f| - delta {
        SetAside(rows, f, wlin, winfirst, num, delta, 0, v);
        LaggingAtEnd(rows, f, wlin, first, delta, v);
        PutUp(f, first, winfirst + delta + num - 1);
      } else {
        ghost var before := rows;
        ghost var dirty := before[first..first + Altered(winfirst, num)];
        SetAside(rows, f, wlin, winfirst, num, delta, 0, v);
        hide Stale, Window.Valid, Shows;
        var whole := Insert(f, first, delta, dirty, answers);
        if !whole && num > 0 {
          Settle(f, winfirst, num, delta, cline, before);
        } else if !whole {
          AllRight(rows, f, wlin, first, first + delta, v);
        }
      }
    }

    /** The last putup of redisplay after an insertion: it is to paint the altered rows. */
    method Settle(f: Text, winfirst: int, num: nat, delta: int, cline: seq<int>, ghost before: seq<Row>)
      requires Valid() && delta > 0 && num > 0 && winfirst + num > 0 && winfirst + delta + num <= btext
      requires |before| == btext + 1
      requires var first := First(winfirst);
               Lagging(rows, f, wlin, first, 0, first + delta, before[first..first + Altered(winfirst, num)], v)
      modifies `rows, `firstcol, `lastcol
      ensures Valid()
      ensures if winfirst + delta < 0 then Garbled(before, rows, f, wlin, winfirst, num, delta, cline, v)
              else Shows(rows, f, wlin, v)
    {
      hide RowAt, Slice, Bounded;
      if winfirst + delta < 0 {
        PutCurrent(cline, winfirst + delta + num - 1);
      } else {
        PutUp(f, winfirst + delta, winfirst + delta + num - 1);
      }
    }

    /** redisplay when the file has shrunk by `gone` lines, of which the window showed `shown`. */
    method Deleted(f: Text, winfirst: int, num: nat, gone: int, shown: int, answers: seq<int>)
      requires Valid() && wlin >= 0 && wlin + winfirst >= 0 && 0 <= shown <= gone && winfirst <= btext
      requires wlin + winfirst + num <= |f| && (shown == 0 || num > 0 || 0 <= winfirst)
      requires Ahead(rows, f, wlin, First(winfirst), Altered(winfirst, num), shown, v)
      modifies `rows, `wlin, `firstcol, `lastcol, `freshputup
      ensures Valid() && wlin == old(wlin) && Shows(rows, f, wlin, v)
    {
      hide RowAt, Bounded;
      var first := if winfirst > 0 then winfirst else 0;
      var endwin := btext;
      if first + shown > endwin || (num > 0 && winfirst + gone + num > endwin) {
        PutUp(f, first, endwin);
      } else if wlin + winfirst >= |f| {
        AheadAtEnd(rows, f, wlin, first, shown, v);
        PutUp(f, first, winfirst + gone - 1);
      } else {
        var whole := Delete(f, first, Altered(winfirst, num), shown, answers);
        if !whole && num > 0 {
          PutUp(f, first, winfirst + num - 1);
        }
      }
    }

    /** The body of the loop of redisplay for a workspace on the changed file.  `skip` is for the
        current workspace when its display is left to the caller. */
    method Refresh(ghost was: Text, now: Text, from: nat, num: nat, delta: int, skip: bool, luck: Luck)
      requires Valid() && wlin >= 0 && Changed(was, now, from, num, delta) && Shows(rows, was, wlin, v)
      modifies `rows, `wlin, `firstcol, `lastcol, `freshputup
      ensures Valid() && wlin == old(wlin) + ReadjTop(old(wlin), from, num, delta) && wlin >= 0
      ensures delta >= 0 && old(wlin) <= from ==> wlin == old(wlin)
      ensures if skip then rows == old(rows)
              else if Skewed(from - wlin, num, delta, btext, luck.answers)
              then Garbled(old(rows), rows, now, wlin, from - wlin, num, delta, luck.cline, v)
              else Shows(rows, now, wlin, v)
    {
      hide Shows, Stale, Bounded, RowAt, Changed, ReadjTop, Window.Valid, Garbled, Declined;
      RowsThen(rows, was, now, from, num, delta, wlin, v);
      TopMoves(was, now, from, num, delta, wlin);
      TopKept(was, now, from, num, delta, wlin, v);
      var wmove := ReadjTop(wlin, from, num, delta);
      wlin := wlin + wmove;
      var winfirst := from - wlin;
      if skip {
        return;
      }
      RefreshRows(now, winfirst, num, delta, wmove, luck);
    }

    /** The part of redisplay that repaints a window: the change is at row winfirst, and the top of the
        window has been moved by wmove. */
    method RefreshRows(f: Text, winfirst: int, num: nat, delta: int, wmove: int, luck: Luck)
      requires Valid() && wlin >= 0 && wlin + winfirst >= 0
      requires delta > 0 ==> wlin + winfirst + num + delta <= |f|
      requires delta < 0 ==> wlin + winfirst + num <= |f| && delta <= wmove <= 0
      requires delta < 0 && wmove != delta ==>
                 (num > 0 ==> wmove == 0 && winfirst - delta + num > 0) && (num == 0 ==> 0 <= winfirst)
      requires delta < 0 && wmove == delta && num > 0 ==> winfirst + num <= 0
      requires Stale(rows, f, wlin, winfirst, num, delta, wmove, v)
      modifies `rows, `wlin, `firstcol, `lastcol, `freshputup
      ensures Valid() && wlin == old(wlin)
      ensures if Skewed(winfirst, num, delta, btext, luck.answers)
              then Garbled(old(rows), rows, f, wlin, winfirst, num, delta, luck.cline, v)
              else Shows(rows, f, wlin, v)
    {
      hide RowAt, Slice, Bounded, Declined, Garbled;
      var first := if winfirst > 0 then winfirst else 0;
      var endwin := btext;
      if first > endwin {
        return;
      }
      if delta == 0 && winfirst + num <= 0 {
        return;
      }
      if delta > 0 && winfirst < 0 && winfirst + num <= 0 {
        return;
      }
      if delta < 0 && winfirst - delta + num <= 0 {
        return;
      }
      if delta == 0 {
        PutUp(f, first, winfirst + num - 1);
      } else if delta > 0 {
        Inserted(f, winfirst, num, delta, luck.cline, luck.answers);
      } else {
        Deleted(f, winfirst, num, -delta, -(delta - wmove), luck.answers);
      }
    }
  }

  /** What redisplay owes a window for a change of file fn. */
  twostate predicate Updated(w: Window, fn: nat, now: Text, from: nat, num: nat, delta: int, skip: bool, luck: Luck)
    reads w
  {
    && w.Valid()
    && w.wfile == old(w.wfile) && w.altfile == old(w.altfile)
    && (delta >= 0 && old(w.wlin) <= from ==> w.wlin == old(w.wlin))
    && w.altlin == old(w.altlin) + (if w.altfile == fn then ReadjTop(old(w.altlin), from, num, delta) else 0)
    && if w.wfile == fn then
         && w.wlin == old(w.wlin) + ReadjTop(old(w.wlin), from, num, delta)
         && if skip then w.rows == old(w.rows)
            else if Skewed(from - w.wlin, num, delta, w.btext, luck.answers)
            then Garbled(old(w.rows), w.rows, now, w.wlin, from - w.wlin, num, delta, luck.cline, w.v)
            else Shows(w.rows, now, w.wlin, w.v)
       else
         w.wlin == old(w.wlin) && w.rows == old(w.rows)
  }

  /** redisplay: winlist holds every window there is; `cur` is the one with the current workspace, whose
      display is left alone unless cwkspflg is set.  luck[win] is what happens to be the case while window
      win is brought up to date. */
  method Redisplay(winlist: seq<Window>, fn: nat, ghost was: Text, now: Text, from: nat, num: nat, delta: int,
                   cur: Window, cwkspflg: bool, luck: seq<Luck>)
    requires forall i, j :: 0 <= i < j < |winlist| ==> winlist[i] != winlist[j]
    requires forall i :: 0 <= i < |winlist| ==> winlist[i].Valid() && winlist[i].wlin >= 0
    requires forall i :: 0 <= i < |winlist| && winlist[i].wfile == fn ==> Shows(winlist[i].rows, was, winlist[i].wlin, winlist[i].v)
    requires Changed(was, now, from, num, delta) && |luck| == |winlist|
    modifies winlist
    ensures forall i :: 0 <= i < |winlist| ==>
              Updated(winlist[i], fn, now, from, num, delta, winlist[i] == cur && !cwkspflg, luck[i])
  {
    hide Shows, Changed, ReadjTop, Garbled, Skewed;
    var win := 0;
    while win < |winlist|
      invariant 0 <= win <= |winlist|
      invariant forall i :: 0 <= i < win ==>
                  Updated(winlist[i], fn, now, from, num, delta, winlist[i] == cur && !cwkspflg, luck[i])
      invariant forall i :: win <= i < |winlist| ==> unchanged(winlist[i])
    {
      var w := winlist[win];
      if w.altfile == fn {
        w.altlin := w.altlin + ReadjTop(w.altlin, from, num, delta);
      }
      if w.wfile == fn {
        w.Refresh(was, now, from, num, delta, w == cur && !cwkspflg, luck[win]);
      }
      win := win + 1;
    }
  }
}
