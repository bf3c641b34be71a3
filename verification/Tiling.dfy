/** Changing the heights of windows that lie one under the other, and the widths of windows side by side. */
module Tiling {

  class Window {
    var tmarg: int
    var bmarg: int
    var lmarg: int
    var rmarg: int
    var ttext: int
    var btext: int
    var ltext: int
    var rtext: int
    var tedit: int
    var bedit: int
    var redit: int
    var wlin: int       // the line of the file in the first row
    const eof: int      // the number of lines of the file

    constructor (tmarg: int, bmarg: int, lmarg: int, rmarg: int, eof: int)
      ensures Consistent() && this.tmarg == tmarg && this.bmarg == bmarg
    {
      this.tmarg, this.bmarg, this.lmarg, this.rmarg, this.eof := tmarg, bmarg, lmarg, rmarg, eof;
      ttext, btext, ltext, rtext := tmarg + 1, bmarg - tmarg - 2, lmarg + 1, rmarg - lmarg - 2;
      tedit, bedit, redit, wlin := 0, bmarg - tmarg - 2, rmarg - lmarg - 2, 0;
    }

    /** What CheckWindowValues checks. */
    ghost predicate Consistent()
      reads this
    {
      ltext == lmarg + 1 && ttext == tmarg + 1 && rtext == rmarg - lmarg - 2 && btext == bmarg - tmarg - 2
    }

    function Height(): int
      reads this
    {
      bmarg - tmarg
    }

    function Width(): int
      reads this
    {
      rmarg - lmarg
    }

    /** The bottom margin has been set: the text goes down to it. */
    method SetBottom(bm: int)
      modifies `bmarg, `btext, `bedit
      ensures bmarg == bm && btext == bm - tmarg - 2 && bedit == btext
    {
      bmarg := bm;
      btext := bmarg - tmarg - 2;
      bedit := btext;
    }
  }

  /** CheckWindowValues: whether all is as it should be. */
  method CheckWindowValues(winlist: seq<Window>) returns (rc: int)
    ensures rc == 0 <==> forall i :: 0 <= i < |winlist| ==> winlist[i].Consistent()
    ensures rc == 0 || rc == 1
  {
    rc := 0;
    for i := 0 to |winlist|
      invariant rc == 0 || rc == 1
      invariant rc == 0 <==> forall k :: 0 <= k < i ==> winlist[k].Consistent()
    {
      var wp := winlist[i];
      if wp.ltext != wp.lmarg + 1 {
        rc := 1;
      }
      if wp.ttext != wp.tmarg + 1 {
        rc := 1;
      }
      if wp.rtext != wp.rmarg - wp.lmarg - 2 {
        rc := 1;
      }
      if wp.btext != wp.bmarg - wp.tmarg - 2 {
        rc := 1;
      }
    }
  }

  ghost predicate Distinct(ws: seq<Window>) {
    forall i, j :: 0 <= i < j < |ws| ==> ws[i] != ws[j]
  }

  /** The windows from top to bottom, each beginning where the one above ends. */
  ghost predicate Stacked(ws: seq<Window>)
    reads ws
  {
    && ws != []
    && (forall i :: 0 <= i < |ws| ==> ws[i].tmarg < ws[i].bmarg)
    && (forall i :: 0 <= i < |ws| - 1 ==> ws[i].bmarg == ws[i + 1].tmarg)
  }

  ghost predicate SameWindows(ws: seq<Window>, vs: seq<Window>) {
    && |ws| == |vs| && (forall i :: 0 <= i < |ws| ==> ws[i] in vs) && (forall i :: 0 <= i < |vs| ==> vs[i] in ws)
  }

  ghost function Tops(ws: seq<Window>): (r: seq<int>)
    reads ws
    ensures |r| == |ws| && forall i :: 0 <= i < |r| ==> r[i] == ws[i].tmarg
  {
    if ws == [] then [] else Tops(ws[..|ws| - 1]) + [ws[|ws| - 1].tmarg]
  }

  ghost function Bottoms(ws: seq<Window>): (r: seq<int>)
    reads ws
    ensures |r| == |ws| && forall i :: 0 <= i < |r| ==> r[i] == ws[i].bmarg
  {
    if ws == [] then [] else Bottoms(ws[..|ws| - 1]) + [ws[|ws| - 1].bmarg]
  }

  /** Rows t to b, one window's below another's. */
  ghost predicate Tiles(t: seq<int>, b: seq<int>) {
    |t| == |b| && forall i :: 0 <= i < |t| - 1 ==> b[i] == t[i + 1]
  }

  lemma {:induction false} TileOrder(t: seq<int>, b: seq<int>, i: nat, j: nat)
    requires Tiles(t, b) && i < j < |t| && forall k :: 0 <= k < |t| ==> t[k] < b[k]
    ensures b[i] <= t[j] && b[i] < b[j]
    decreases j - i
  {
    if i + 1 < j {
      TileOrder(t, b, i + 1, j);
    }
  }

  /** Where the windows are afterwards: the chosen one, the n-th, h rows higher, and those below it moved; or
      only the last one changed, if at all. */
  ghost predicate Shifted(t: seq<int>, b: seq<int>, t1: seq<int>, b1: seq<int>, n: nat, h: int, kept: bool, stops: bool) {
    && |t| == |b| == |t1| == |b1| && n < |t|
    && (forall i :: 0 <= i < |t| ==> t1[i] == t[i] + TopMove(t, b, i, n, h, stops))
    && (forall i :: 0 <= i < |t| ==> b1[i] == b[i] + BottomMove(t, b, i, n, h, kept, stops))
  }

  function TopMove(t: seq<int>, b: seq<int>, i: nat, n: nat, h: int, stops: bool): int
    requires i < |t| && n < |b|
  {
    if !stops && b[n] <= t[i] then h else 0
  }

  function BottomMove(t: seq<int>, b: seq<int>, i: nat, n: nat, h: int, kept: bool, stops: bool): int
    requires i < |t| && n < |b|
  {
    if i == |t| - 1 then if kept then 0 else h
    else if !stops && (i == n || b[n] <= t[i]) then h else 0
  }

  /** Every window is so many rows high at least. */
  ghost predicate High(t: seq<int>, b: seq<int>, least: int) {
    |t| == |b| && forall i :: 0 <= i < |t| ==> t[i] + least <= b[i]
  }

  /** The n-th window has changed its height by h and no other has, the last one ends h rows lower, each
      still begins where the one above ends, and none is lower than windows have to be. */
  ghost predicate Right(t: seq<int>, b: seq<int>, t1: seq<int>, b1: seq<int>, n: nat, h: int, least: int) {
    && |t| == |b| == |t1| && Tiles(t1, b1) && t != [] && t1[0] == t[0] && b1[|t| - 1] == b[|t| - 1] + h
    && (forall i :: 0 <= i < |t| ==> b1[i] - t1[i] == b[i] - t[i] + if i == n then h else 0)
    && High(t1, b1, least)
  }

  lemma ShiftedTiles(t: seq<int>, b: seq<int>, t1: seq<int>, b1: seq<int>, n: nat, h: int, kept: bool, stops: bool,
                     least: int)
    requires Tiles(t, b) && High(t, b, least) && least >= 1 && Shifted(t, b, t1, b1, n, h, kept, stops)
    requires kept || (stops && n < |t| - 1) ==> h != 0
    ensures Tiles(t1, b1)
    ensures Right(t, b, t1, b1, n, h, least) <==>
              !kept && (n == |t| - 1 || !stops) && b[n] - t[n] + h >= least
  {
    forall i | 0 <= i < |t| && i != n
      ensures b[n] <= t[i] <==> n < i
    {
      if n < i {
        TileOrder(t, b, n, i);
      } else {
        TileOrder(t, b, i, n);
      }
    }
    if stops && n < |t| - 1 {
      assert b1[n] - t1[n] != b[n] - t[n] + h;
    }
    if Right(t, b, t1, b1, n, h, least) {
      assert b1[n] - t1[n] == b[n] - t[n] + h;
    }
  }

  /** What adj_h_borders makes of a window that ends at row bm. */
  twostate predicate Adjusted(w: Window, bm: int, h: int)
    reads w
  {
    && w.tmarg == old(w.tmarg) && w.ttext == old(w.ttext) && w.tedit == old(w.tedit)
    && w.lmarg == old(w.lmarg) && w.rmarg == old(w.rmarg) && w.ltext == old(w.ltext) && w.rtext == old(w.rtext)
    && if old(w.bmarg) == bm && !(old(w.btext) == 0 && h < 0) then
         && w.bmarg == old(w.bmarg) + h && w.btext == w.bmarg - w.tmarg - 2 && w.bedit == w.btext
         && w.wlin == if h > 0 && old(w.Height()) <= w.eof < w.Height() && old(w.wlin) > 0 then 0 else old(w.wlin)
       else w.bmarg == old(w.bmarg) && w.btext == old(w.btext) && w.bedit == old(w.bedit) && w.wlin == old(w.wlin)
  }

  /** adj_h_borders: the windows that end at row bm_orig end h_chg rows lower.  Where that brings the whole
      file into the window, it is shown from its first line. */
  method AdjHBorders(winlist: seq<Window>, bm_orig: int, h_chg: int)
    requires Distinct(winlist)
    modifies winlist
    ensures forall i :: 0 <= i < |winlist| ==> Adjusted(winlist[i], bm_orig, h_chg)
  {
    for i := 0 to |winlist|
      invariant forall k :: 0 <= k < i ==> Adjusted(winlist[k], bm_orig, h_chg)
      invariant forall k :: i <= k < |winlist| ==> unchanged(winlist[k])
    {
      var wp := winlist[i];
      if bm_orig == wp.bmarg && !(wp.btext == 0 && h_chg < 0) {
        var ln_eof := wp.eof;
        var fit_inwin := ln_eof < wp.bmarg - wp.tmarg;
        wp.SetBottom(wp.bmarg + h_chg);
        if h_chg > 0 && !fit_inwin && wp.wlin > 0 && ln_eof < wp.bmarg - wp.tmarg {
          wp.wlin := 0;
        }
      }
    }
  }

  /** What alt_h_winresize makes of window w, when `adj` is the window to change, `last` the bottommost. */
  twostate predicate Resized(w: Window, adj: Window, last: Window, h: int)
    reads w, adj, last
  {
    var kept := old(last.btext) == 0 && h < 0;
    var stops := adj == last || (old(adj.bedit) < 1 && h < 0);
    var below := old(adj.bmarg) <= old(w.tmarg);
    && w.tmarg == old(w.tmarg) + (if !stops && below then h else 0)
    && w.bmarg == old(w.bmarg) + (if w == last then if kept then 0 else h
                                  else if !stops && (w == adj || below) then h else 0)
  }

  /** The side margins are as they were, and all that CheckWindowValues checks still is right.  So are the
      rows that are edited, and a window shows its file from where it did: all but the last one, which
      shows it from its start if h more rows bring all of it in, whether it is left those rows or not. */
  twostate predicate Sound(w: Window, last: Window, h: int)
    reads w
  {
    && w.lmarg == old(w.lmarg) && w.rmarg == old(w.rmarg) && w.ltext == old(w.ltext) && w.rtext == old(w.rtext)
    && (old(w.Consistent()) ==> w.Consistent())
    && (old(w.Consistent() && w.bedit == w.btext) ==> w.bedit == w.btext) && (w.tedit == old(w.tedit) || w.tedit == 0)
    && w.wlin == if w == last && ShownWhole(old(w.Height()), w.eof, old(w.wlin), h) then 0 else old(w.wlin)
  }

  /** A file of eof lines that did not fit in so many rows, and was shown from further down, fits in h more. */
  predicate ShownWhole(height: int, eof: int, wlin: int, h: int) {
    h > 0 && height <= eof < height + h && wlin > 0
  }

  /** When alt_h_winresize does what it should: nothing is taken away, or the chosen window can spare so much
      and neither it nor the bottommost one has but a row of text left. */
  ghost predicate TallEnough(adj: Window, last: Window, h: int, least: int)
    reads adj, last
  {
    h >= 0 || (adj.Height() + h >= least && last.btext != 0 && (adj == last || adj.bedit >= 1))
  }

  /** alt_h_winresize: the windows of `stack` are those of winlist, in any order, and the chosen one is the
      n-th from the top.  `least` is any height the windows all have: 1 for windows that end below where
      they begin, 2 for windows with a row of text.  Each begins where the one above ends in any case;
      otherwise all is right, and the windows are still so high, exactly when they are tall enough. */
  method AltHWinresize(winlist: seq<Window>, ghost stack: seq<Window>, bm_orig: int, h_chg: int, adjwin: int, ghost n: nat,
                       ghost least: int)
    requires Distinct(winlist) && Stacked(stack) && SameWindows(winlist, stack) && 0 <= adjwin < |winlist|
    requires least >= 1 && High(Tops(stack), Bottoms(stack), least)
    requires bm_orig == stack[|stack| - 1].bmarg && n < |stack| && stack[n] == winlist[adjwin]
    modifies winlist
    ensures Tiles(Tops(stack), Bottoms(stack))
    ensures Right(old(Tops(stack)), old(Bottoms(stack)), Tops(stack), Bottoms(stack), n, h_chg, least)
            <==> old(TallEnough(winlist[adjwin], stack[|stack| - 1], h_chg, least))
    ensures forall i :: 0 <= i < |stack| ==> Sound(stack[i], stack[|stack| - 1], h_chg)
  {
    ghost var last, adj := stack[|stack| - 1], winlist[adjwin];
    ghost var t, b := Tops(stack), Bottoms(stack);
    ghost var kept := last.btext == 0 && h_chg < 0;
    ghost var stops := adj == last || (adj.bedit < 1 && h_chg < 0);
    OnlyOnce(stack, t, b, |stack| - 1);
    OnlyOnce(stack, t, b, n);
    LastLowest(stack);
    hide Stacked, Sound, SameWindows, Distinct, Tiles, Right, Shifted;
    assert adj.Height() == b[n] - t[n] >= least;
    ResizeRows(winlist, stack, bm_orig, h_chg, adjwin, n, t, b, kept, stops);
    ShiftedTiles(t, b, Tops(stack), Bottoms(stack), n, h_chg, kept, stops, least);
  }

  /** The same, for the rows the windows are in. */
  method ResizeRows(winlist: seq<Window>, ghost stack: seq<Window>, bm_orig: int, h_chg: int, adjwin: int, ghost n: nat,
                    ghost t: seq<int>, ghost b: seq<int>, ghost kept: bool, ghost stops: bool)
    requires Distinct(winlist) && stack != [] && SameWindows(winlist, stack) && 0 <= adjwin < |winlist|
    requires bm_orig == stack[|stack| - 1].bmarg && winlist[adjwin].tmarg < winlist[adjwin].bmarg
    requires n < |stack| && stack[n] == winlist[adjwin]
    requires forall w :: w in stack && w.bmarg == bm_orig ==> w == stack[|stack| - 1]
    requires forall i :: 0 <= i < |stack| ==> (stack[i] == stack[n] <==> i == n)
    requires forall i :: 0 <= i < |stack| ==> (stack[i] == stack[|stack| - 1] <==> i == |stack| - 1)
    requires t == Tops(stack) && b == Bottoms(stack) && (kept <==> stack[|stack| - 1].btext == 0 && h_chg < 0)
    requires stops <==> n == |stack| - 1 || (stack[n].bedit < 1 && h_chg < 0)
    modifies winlist
    ensures Shifted(t, b, Tops(stack), Bottoms(stack), n, h_chg, kept, stops)
    ensures forall i :: 0 <= i < |stack| ==> Sound(stack[i], stack[|stack| - 1], h_chg)
  {
    hide Sound, SameWindows, Distinct, Tops, Bottoms;
    ghost var last, adj := stack[|stack| - 1], winlist[adjwin];
    Resize(winlist, stack, bm_orig, h_chg, adjwin);
    ghost var t1, b1 := Tops(stack), Bottoms(stack);
    forall i | 0 <= i < |t|
      ensures t1[i] == t[i] + TopMove(t, b, i, n, h_chg, stops)
      ensures b1[i] == b[i] + BottomMove(t, b, i, n, h_chg, kept, stops)
    {
      assert (stack[i] == adj <==> i == n) && (stack[i] == last <==> i == |stack| - 1);
      assert Resized(stack[i], adj, last, h_chg);
    }
    hide Resized, TopMove, BottomMove;
  }

  lemma TilesDown(stack: seq<Window>, t: seq<int>, b: seq<int>)
    requires Stacked(stack) && t == Tops(stack) && b == Bottoms(stack)
    ensures Tiles(t, b) && forall k :: 0 <= k < |t| ==> t[k] < b[k]
  {
  }

  /** A window is in the stack once. */
  lemma OnlyOnce(stack: seq<Window>, t: seq<int>, b: seq<int>, n: nat)
    requires Stacked(stack) && t == Tops(stack) && b == Bottoms(stack) && n < |stack|
    ensures Tiles(t, b) && forall k :: 0 <= k < |t| ==> t[k] < b[k]
    ensures forall i :: 0 <= i < |stack| ==> (stack[i] == stack[n] <==> i == n)
  {
    TilesDown(stack, t, b);
    hide Stacked, Tiles;
    forall i | 0 <= i < |stack|
      ensures stack[i] == stack[n] <==> i == n
    {
      if i < n {
        TileOrder(t, b, i, n);
      } else if n < i {
        TileOrder(t, b, n, i);
      }
    }
  }

  /** Only the last window ends where it does. */
  lemma LastLowest(stack: seq<Window>)
    requires Stacked(stack)
    ensures forall w :: w in stack && w.bmarg == stack[|stack| - 1].bmarg ==> w == stack[|stack| - 1]
  {
    var t, b := Tops(stack), Bottoms(stack);
    forall i | 0 <= i < |stack| - 1
      ensures stack[i].bmarg < stack[|stack| - 1].bmarg
    {
      TileOrder(t, b, i, |stack| - 1);
    }
  }

  /** alt_h_winresize, and what it makes of each window. */
  method Resize(winlist: seq<Window>, ghost stack: seq<Window>, bm_orig: int, h_chg: int, adjwin: int)
    requires Distinct(winlist) && stack != [] && SameWindows(winlist, stack) && 0 <= adjwin < |winlist|
    requires bm_orig == stack[|stack| - 1].bmarg && winlist[adjwin].tmarg < winlist[adjwin].bmarg
    requires forall w :: w in stack && w.bmarg == bm_orig ==> w == stack[|stack| - 1]
    modifies winlist
    ensures forall i :: 0 <= i < |stack| ==> Resized(stack[i], winlist[adjwin], stack[|stack| - 1], h_chg)
    ensures forall i :: 0 <= i < |stack| ==> Sound(stack[i], stack[|stack| - 1], h_chg)
  {
    ghost var last := stack[|stack| - 1];
    var bottommost_win := 0;
    while winlist[bottommost_win].bmarg != bm_orig
      invariant 0 <= bottommost_win < |winlist|
      invariant forall k :: 0 <= k < bottommost_win ==> winlist[k].bmarg != bm_orig
      decreases |winlist| - bottommost_win
    {
      bottommost_win := bottommost_win + 1;
    }
    assert winlist[bottommost_win] == last;
    ResizeFrom(winlist, bm_orig, h_chg, adjwin, bottommost_win);
    forall i | 0 <= i < |stack|
      ensures Resized(stack[i], winlist[adjwin], last, h_chg) && Sound(stack[i], stack[|stack| - 1], h_chg)
    {
      assert stack[i] in winlist;
    }
  }

  /** alt_h_winresize once it has found the bottommost window. */
  method ResizeFrom(winlist: seq<Window>, bm_orig: int, h_chg: int, adjwin: int, bottommost_win: int)
    requires Distinct(winlist) && 0 <= adjwin < |winlist| && 0 <= bottommost_win < |winlist|
    requires winlist[adjwin].tmarg < winlist[adjwin].bmarg
    requires forall i :: 0 <= i < |winlist| ==> (winlist[i].bmarg == bm_orig <==> i == bottommost_win)
    modifies winlist
    ensures forall i :: 0 <= i < |winlist| ==> Resized(winlist[i], winlist[adjwin], winlist[bottommost_win], h_chg)
    ensures forall i :: 0 <= i < |winlist| ==> Sound(winlist[i], winlist[bottommost_win], h_chg)
  {
    AdjHBorders(winlist, bm_orig, h_chg);
    if bottommost_win == adjwin {
      return;
    }
    var wp := winlist[adjwin];
    var bm_alt := wp.bmarg;
    if wp.bedit < 1 && h_chg < 0 {
      return;
    }
    wp.SetBottom(wp.bmarg + h_chg);
    MoveBelow(winlist, bm_alt, h_chg, bottommost_win);
  }

  /** The loop of alt_h_winresize over the windows below row bm_alt. */
  method MoveBelow(winlist: seq<Window>, bm_alt: int, h_chg: int, bottommost_win: int)
    requires Distinct(winlist)
    modifies winlist
    ensures forall i :: 0 <= i < |winlist| ==> Moved(winlist[i], bm_alt, h_chg, i == bottommost_win)
  {
    for i := 0 to |winlist|
      invariant forall k :: 0 <= k < i ==> Moved(winlist[k], bm_alt, h_chg, k == bottommost_win)
      invariant forall k :: i <= k < |winlist| ==> unchanged(winlist[k])
    {
      var wp := winlist[i];
      if bm_alt <= wp.tmarg {
        wp.tmarg := wp.tmarg + h_chg;
        wp.ttext := wp.tmarg + 1;
        wp.tedit := 0;
        if i != bottommost_win {
          wp.SetBottom(wp.bmarg + h_chg);
        } else {
          wp.btext := wp.bmarg - wp.tmarg - 2;
          wp.bedit := wp.btext;
        }
      }
    }
  }

  twostate predicate Moved(w: Window, bm_alt: int, h: int, bottommost: bool)
    reads w
  {
    && w.lmarg == old(w.lmarg) && w.rmarg == old(w.rmarg) && w.ltext == old(w.ltext) && w.rtext == old(w.rtext)
    && w.wlin == old(w.wlin)
    && if bm_alt <= old(w.tmarg) then
         && w.tmarg == old(w.tmarg) + h && w.ttext == w.tmarg + 1 && w.tedit == 0
         && w.bmarg == old(w.bmarg) + (if bottommost then 0 else h) && w.btext == w.bmarg - w.tmarg - 2 && w.bedit == w.btext
       else
         && w.tmarg == old(w.tmarg) && w.ttext == old(w.ttext) && w.tedit == old(w.tedit)
         && w.bmarg == old(w.bmarg) && w.btext == old(w.btext) && w.bedit == old(w.bedit)
  }

  // ----- widths -----

  /** The windows from left to right, each beginning where the one before ends. */
  ghost predicate SideBySide(ws: seq<Window>)
    reads ws
  {
    && ws != []
    && (forall i :: 0 <= i < |ws| ==> ws[i].lmarg < ws[i].rmarg)
    && (forall i :: 0 <= i < |ws| - 1 ==> ws[i].rmarg == ws[i + 1].lmarg)
  }

  ghost function Lefts(ws: seq<Window>): (r: seq<int>)
    reads ws
    ensures |r| == |ws| && forall i :: 0 <= i < |r| ==> r[i] == ws[i].lmarg
  {
    if ws == [] then [] else Lefts(ws[..|ws| - 1]) + [ws[|ws| - 1].lmarg]
  }

  ghost function Rights(ws: seq<Window>): (r: seq<int>)
    reads ws
    ensures |r| == |ws| && forall i :: 0 <= i < |r| ==> r[i] == ws[i].rmarg
  {
    if ws == [] then [] else Rights(ws[..|ws| - 1]) + [ws[|ws| - 1].rmarg]
  }

  /** What adj_w_borders makes of a window that ends at column rm. */
  twostate predicate AdjustedWide(w: Window, rm: int, h: int)
    reads w
  {
    && w.lmarg == old(w.lmarg) && w.ltext == old(w.ltext) && SameRows(w)
    && if old(w.rmarg) == rm && !(h < 0 && old(w.Width()) < 4) then
         w.rmarg == old(w.rmarg) + h && w.rtext == w.rmarg - w.lmarg - 2 && w.redit == w.rtext
       else w.rmarg == old(w.rmarg) && w.rtext == old(w.rtext) && w.redit == old(w.redit)
  }

  /** The rows of a window are as they were. */
  twostate predicate SameRows(w: Window)
    reads w
  {
    && w.tmarg == old(w.tmarg) && w.bmarg == old(w.bmarg) && w.ttext == old(w.ttext) && w.btext == old(w.btext)
    && w.tedit == old(w.tedit) && w.bedit == old(w.bedit) && w.wlin == old(w.wlin)
  }

  /** adj_w_borders: the windows that end at column rm_orig end w_chg columns further right, unless they are
      too narrow for that. */
  method AdjWBorders(winlist: seq<Window>, rm_orig: int, w_chg: int)
    requires Distinct(winlist)
    modifies winlist
    ensures forall i :: 0 <= i < |winlist| ==> AdjustedWide(winlist[i], rm_orig, w_chg)
  {
    for i := 0 to |winlist|
      invariant forall k :: 0 <= k < i ==> AdjustedWide(winlist[k], rm_orig, w_chg)
      invariant forall k :: i <= k < |winlist| ==> unchanged(winlist[k])
    {
      var wp := winlist[i];
      if rm_orig == wp.rmarg && !(w_chg < 0 && wp.rmarg - wp.lmarg < 4) {
        wp.rmarg := wp.rmarg + w_chg;
        wp.rtext := wp.rmarg - wp.lmarg - 2;
        wp.redit := wp.rtext;
      }
    }
  }

  /** What alt_w_winresize makes of window w, when `adj` is the window to change, `last` the rightmost. */
  twostate predicate ResizedWide(w: Window, adj: Window, last: Window, h: int)
    reads w, adj, last
  {
    var kept := old(last.Width()) < 4 && h < 0;
    var beyond := old(adj.rmarg) <= old(w.lmarg);
    && w.lmarg == old(w.lmarg) + (if adj != last && beyond then h else 0)
    && w.rmarg == old(w.rmarg) + (if w == last then if kept then 0 else h
                                  else if adj != last && (w == adj || beyond) then h else 0)
  }

  /** The rows are as they were, all that CheckWindowValues checks still is right, and so is the right edge of
      the part that is edited: it is not set in windows that are only moved, and need not be. */
  twostate predicate SoundWide(w: Window)
    reads w
  {
    && SameRows(w)
    && (old(w.Consistent()) ==> w.Consistent())
    && (old(w.Consistent() && w.redit == w.rtext) ==> w.redit == w.rtext)
  }

  /** When alt_w_winresize does what it should: nothing is taken away, or the chosen window can spare so much
      and the rightmost one is not too narrow. */
  ghost predicate WideEnough(adj: Window, last: Window, h: int, least: int)
    reads adj, last
  {
    h >= 0 || (adj.Width() + h >= least && last.Width() >= 4)
  }

  /** alt_w_winresize: the windows of `row` are those of winlist, in any order, and the chosen one is the n-th
      from the left; `least` is any width the windows all have.  Each begins where the one before ends in any
      case; otherwise all is right, and the windows are still so wide, exactly when they are wide enough. */
  method AltWWinresize(winlist: seq<Window>, ghost row: seq<Window>, rm_orig: int, w_chg: int, adjwin: int, ghost n: nat,
                       ghost least: int)
    requires Distinct(winlist) && SideBySide(row) && SameWindows(winlist, row) && 0 <= adjwin < |winlist|
    requires least >= 1 && High(Lefts(row), Rights(row), least)
    requires rm_orig == row[|row| - 1].rmarg && n < |row| && row[n] == winlist[adjwin]
    modifies winlist
    ensures Tiles(Lefts(row), Rights(row))
    ensures Right(old(Lefts(row)), old(Rights(row)), Lefts(row), Rights(row), n, w_chg, least)
            <==> old(WideEnough(winlist[adjwin], row[|row| - 1], w_chg, least))
    ensures forall i :: 0 <= i < |row| ==> SoundWide(row[i])
  {
    ghost var l, r := Lefts(row), Rights(row);
    ghost var kept := row[|row| - 1].Width() < 4 && w_chg < 0;
    assert WideEnough(winlist[adjwin], row[|row| - 1], w_chg, least) <==> !kept && r[n] - l[n] + w_chg >= least;
    assert Tiles(l, r);
    hide SideBySide, SoundWide, SameWindows, Distinct, Tiles, Right, Shifted, High, WideEnough, Window.Width;
    WidenRow(winlist, row, rm_orig, w_chg, adjwin, n, l, r, kept);
    ShiftedTiles(l, r, Lefts(row), Rights(row), n, w_chg, kept, n == |row| - 1, least);
  }

  /** Where the windows are afterwards. */
  method WidenRow(winlist: seq<Window>, ghost row: seq<Window>, rm_orig: int, w_chg: int, adjwin: int, ghost n: nat,
                  ghost l: seq<int>, ghost r: seq<int>, ghost kept: bool)
    requires Distinct(winlist) && SideBySide(row) && SameWindows(winlist, row) && 0 <= adjwin < |winlist|
    requires rm_orig == row[|row| - 1].rmarg && n < |row| && row[n] == winlist[adjwin]
    requires l == Lefts(row) && r == Rights(row) && (kept <==> row[|row| - 1].Width() < 4 && w_chg < 0)
    modifies winlist
    ensures Shifted(l, r, Lefts(row), Rights(row), n, w_chg, kept, n == |row| - 1)
    ensures forall i :: 0 <= i < |row| ==> SoundWide(row[i])
  {
    OnlyOnceAcross(row, l, r, |row| - 1);
    OnlyOnceAcross(row, l, r, n);
    RightmostAlone(row, l, r);
    hide SideBySide, SoundWide, SameWindows, Distinct, Tiles, Shifted, Window.Width;
    WidenColumns(winlist, row, rm_orig, w_chg, adjwin, n, l, r, kept);
  }

  /** The same, for the columns the windows are in. */
  method WidenColumns(winlist: seq<Window>, ghost row: seq<Window>, rm_orig: int, w_chg: int, adjwin: int, ghost n: nat,
                      ghost l: seq<int>, ghost r: seq<int>, ghost kept: bool)
    requires Distinct(winlist) && row != [] && SameWindows(winlist, row) && 0 <= adjwin < |winlist|
    requires rm_orig == row[|row| - 1].rmarg && winlist[adjwin].lmarg < winlist[adjwin].rmarg
    requires n < |row| && row[n] == winlist[adjwin]
    requires forall w :: w in row && w.rmarg == rm_orig ==> w == row[|row| - 1]
    requires forall i :: 0 <= i < |row| ==> (row[i] == row[n] <==> i == n)
    requires forall i :: 0 <= i < |row| ==> (row[i] == row[|row| - 1] <==> i == |row| - 1)
    requires l == Lefts(row) && r == Rights(row) && (kept <==> row[|row| - 1].Width() < 4 && w_chg < 0)
    modifies winlist
    ensures Shifted(l, r, Lefts(row), Rights(row), n, w_chg, kept, n == |row| - 1)
    ensures forall i :: 0 <= i < |row| ==> SoundWide(row[i])
  {
    hide SoundWide, SameWindows, Distinct, Lefts, Rights;
    ghost var last, adj := row[|row| - 1], winlist[adjwin];
    Widen(winlist, row, rm_orig, w_chg, adjwin);
    ghost var l1, r1 := Lefts(row), Rights(row);
    forall i | 0 <= i < |l|
      ensures l1[i] == l[i] + TopMove(l, r, i, n, w_chg, n == |row| - 1)
      ensures r1[i] == r[i] + BottomMove(l, r, i, n, w_chg, kept, n == |row| - 1)
    {
      assert (row[i] == adj <==> i == n) && (row[i] == last <==> i == |row| - 1);
      assert ResizedWide(row[i], adj, last, w_chg);
    }
    hide ResizedWide, TopMove, BottomMove;
  }

  lemma TilesAcross(row: seq<Window>, l: seq<int>, r: seq<int>)
    requires SideBySide(row) && l == Lefts(row) && r == Rights(row)
    ensures Tiles(l, r) && forall k :: 0 <= k < |l| ==> l[k] < r[k]
  {
  }

  lemma OnlyOnceAcross(row: seq<Window>, l: seq<int>, r: seq<int>, n: nat)
    requires SideBySide(row) && l == Lefts(row) && r == Rights(row) && n < |row|
    ensures Tiles(l, r) && forall k :: 0 <= k < |l| ==> l[k] < r[k]
    ensures forall i :: 0 <= i < |row| ==> (row[i] == row[n] <==> i == n)
  {
    TilesAcross(row, l, r);
    hide SideBySide, Tiles;
    forall i | 0 <= i < |row|
      ensures row[i] == row[n] <==> i == n
    {
      if i < n {
        TileOrder(l, r, i, n);
      } else if n < i {
        TileOrder(l, r, n, i);
      }
    }
  }

  /** Only the last window ends where it does. */
  lemma RightmostAlone(row: seq<Window>, l: seq<int>, r: seq<int>)
    requires SideBySide(row) && l == Lefts(row) && r == Rights(row)
    ensures forall w :: w in row && w.rmarg == row[|row| - 1].rmarg ==> w == row[|row| - 1]
  {
    forall i | 0 <= i < |row| - 1
      ensures row[i].rmarg < row[|row| - 1].rmarg
    {
      TileOrder(l, r, i, |row| - 1);
    }
  }

  /** alt_w_winresize, and what it makes of each window. */
  method Widen(winlist: seq<Window>, ghost row: seq<Window>, rm_orig: int, w_chg: int, adjwin: int)
    requires Distinct(winlist) && row != [] && SameWindows(winlist, row) && 0 <= adjwin < |winlist|
    requires rm_orig == row[|row| - 1].rmarg && winlist[adjwin].lmarg < winlist[adjwin].rmarg
    requires forall w :: w in row && w.rmarg == rm_orig ==> w == row[|row| - 1]
    modifies winlist
    ensures forall i :: 0 <= i < |row| ==> ResizedWide(row[i], winlist[adjwin], row[|row| - 1], w_chg)
    ensures forall i :: 0 <= i < |row| ==> SoundWide(row[i])
  {
    ghost var last := row[|row| - 1];
    var rightmost_win := 0;
    while winlist[rightmost_win].rmarg != rm_orig
      invariant 0 <= rightmost_win < |winlist|
      invariant forall k :: 0 <= k < rightmost_win ==> winlist[k].rmarg != rm_orig
      decreases |winlist| - rightmost_win
    {
      rightmost_win := rightmost_win + 1;
    }
    assert winlist[rightmost_win] == last;
    WidenFrom(winlist, rm_orig, w_chg, adjwin, rightmost_win);
    forall i | 0 <= i < |row|
      ensures ResizedWide(row[i], winlist[adjwin], last, w_chg) && SoundWide(row[i])
    {
      assert row[i] in winlist;
    }
  }

  /** alt_w_winresize once it has found the rightmost window. */
  method WidenFrom(winlist: seq<Window>, rm_orig: int, w_chg: int, adjwin: int, rightmost_win: int)
    requires Distinct(winlist) && 0 <= adjwin < |winlist| && 0 <= rightmost_win < |winlist|
    requires winlist[adjwin].lmarg < winlist[adjwin].rmarg
    requires forall i :: 0 <= i < |winlist| ==> (winlist[i].rmarg == rm_orig <==> i == rightmost_win)
    modifies winlist
    ensures forall i :: 0 <= i < |winlist| ==> ResizedWide(winlist[i], winlist[adjwin], winlist[rightmost_win], w_chg)
    ensures forall i :: 0 <= i < |winlist| ==> SoundWide(winlist[i])
  {
    AdjWBorders(winlist, rm_orig, w_chg);
    if rightmost_win == adjwin {
      return;
    }
    WidenChosen(winlist, w_chg, adjwin, rightmost_win);
  }

  /** The chosen window, which is not the rightmost, and those to the right of it. */
  method WidenChosen(winlist: seq<Window>, w_chg: int, adjwin: int, rightmost_win: int)
    requires Distinct(winlist) && 0 <= adjwin < |winlist| && adjwin != rightmost_win
    requires winlist[adjwin].lmarg < winlist[adjwin].rmarg
    modifies winlist
    ensures forall i :: 0 <= i < |winlist| && i != adjwin
              ==> MovedWide(winlist[i], old(winlist[adjwin].rmarg), w_chg, i == rightmost_win)
    ensures Chosen(winlist[adjwin], w_chg)
  {
    var wp := winlist[adjwin];
    var rm_old := wp.rmarg;
    wp.rmarg := wp.rmarg + w_chg;
    wp.rtext := wp.rmarg - wp.lmarg - 2;
    wp.redit := wp.rtext;
    MoveBeyond(winlist, rm_old, w_chg, rightmost_win);
  }

  /** Only the right margin has moved, and what goes with it. */
  twostate predicate Chosen(w: Window, h: int)
    reads w
  {
    && SameRows(w) && w.lmarg == old(w.lmarg) && w.ltext == old(w.ltext)
    && w.rmarg == old(w.rmarg) + h && w.rtext == w.rmarg - w.lmarg - 2 && w.redit == w.rtext
  }

  /** The loop of alt_w_winresize over the windows to the right of column rm_old. */
  method MoveBeyond(winlist: seq<Window>, rm_old: int, w_chg: int, rightmost_win: int)
    requires Distinct(winlist)
    modifies winlist
    ensures forall i :: 0 <= i < |winlist| ==> MovedWide(winlist[i], rm_old, w_chg, i == rightmost_win)
  {
    for i := 0 to |winlist|
      invariant forall k :: 0 <= k < i ==> MovedWide(winlist[k], rm_old, w_chg, k == rightmost_win)
      invariant forall k :: i <= k < |winlist| ==> unchanged(winlist[k])
    {
      var wp := winlist[i];
      if rm_old <= wp.lmarg {
        wp.lmarg := wp.lmarg + w_chg;
        wp.ltext := wp.lmarg + 1;
        if i != rightmost_win {
          wp.rmarg := wp.rmarg + w_chg;
          wp.rtext := wp.rmarg - wp.lmarg - 2;
        } else {
          wp.rtext := wp.rmarg - wp.lmarg - 2;
          wp.redit := wp.rtext;
        }
      }
    }
  }

  twostate predicate MovedWide(w: Window, rm_old: int, h: int, rightmost: bool)
    reads w
  {
    && SameRows(w)
    && if rm_old <= old(w.lmarg) then
         && w.lmarg == old(w.lmarg) + h && w.ltext == w.lmarg + 1
         && w.rmarg == old(w.rmarg) + (if rightmost then 0 else h) && w.rtext == w.rmarg - w.lmarg - 2
         && w.redit == if rightmost then w.rtext else old(w.redit)
       else
         w.lmarg == old(w.lmarg) && w.ltext == old(w.ltext) && w.rmarg == old(w.rmarg) && w.rtext == old(w.rtext)
         && w.redit == old(w.redit)
  }
}
