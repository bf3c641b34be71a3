/** Rectangles: taking one out of a file into a buffer, and putting the buffer into the file. */
module Rectangles {
  import opened LineCodec
  import opened Editing

  datatype Opc = Close | Erase | Insert | Cover | Overlay | Underlay | Blot | OpBlot

  /** Operations that put a buffer into the file. */
  predicate QFrom(opc: Opc) { !opc.Close? && !opc.Erase? }

  /** A buffer: its lines, as they are read into memory, and its width. */
  class Buffer {
    var lines: File
    var ncols: nat

    constructor ()
      ensures lines == [] && ncols == 0
    {
      lines, ncols := [], 0;
    }
  }

  // ----- what the operations do to a line -----

  /** What of s is in the columns of the rectangle. */
  function Segment(s: Text, col: nat, ncols: nat): Text {
    if col > |s| then [] else if col + ncols <= |s| then s[col..col + ncols] else s[col..]
  }

  /** A line of a buffer, as wide as the buffer. */
  function Widened(t: Text, ncols: nat): (r: Text)
    ensures |r| == ncols
  {
    if |t| >= ncols then t[..ncols] else t + Times(ncols - |t|, BLANK)
  }

  /** What comes of a character of the buffer and one of the file. */
  function Blend(opc: Opc, from: int, to: int): int {
    match opc
    case Blot => if from != BLANK then BLANK else to
    case OpBlot => if from == BLANK then BLANK else to
    case Overlay => if from == BLANK then to else from
    case Underlay => if to != BLANK then to else from
    case _ => from
  }

  function Blended(opc: Opc, from: Text, to: Text): (r: Text)
    requires |from| == |to|
    ensures |r| == |from| && forall i :: 0 <= i < |r| ==> r[i] == Blend(opc, from[i], to[i])
  {
    seq(|from|, i requires 0 <= i < |from| => Blend(opc, from[i], to[i]))
  }

  /** What an operation makes of line s; b is the line of the buffer, as wide as the rectangle. */
  function Changed(opc: Opc, s: Text, col: nat, ncols: nat, b: Text): Text
    requires QFrom(opc) ==> |b| == ncols
  {
    var endcol := col + ncols;
    if opc.Insert? then var p := Padded(s, col); p[..col] + b + p[col..]
    else if QFrom(opc) then
      var p := Padded(s, endcol);
      p[..col] + Blended(opc, b, p[col..endcol]) + p[endcol..]
    else if col > |s| then s
    else if endcol > |s| then s[..col]
    else if opc.Close? then s[..col] + s[endcol..]
    else s[..col] + Times(ncols, BLANK) + s[endcol..]
  }

  // ----- columns -----

  /** The character in column i, or the blank beyond the end of the line. */
  function Cell(s: Text, i: nat): int { if i < |s| then s[i] else BLANK }

  /** Saving a line changes none of its columns. */
  lemma SavedCells(x: Text, o: Options)
    requires Printable(x) && OneMode(o)
    ensures Printable(Saved(x, o)) && forall i: nat :: Cell(Saved(x, o), i) == Cell(x, i)
  {
    hide Saved;
    SavedPrintable(x, o);
    KeptCells(x, Kept(x, o));
  }

  lemma KeptCells(x: Text, k: nat)
    requires k <= |x| && forall i :: k <= i < |x| ==> x[i] == BLANK
    ensures forall i: nat :: Cell(x[..k], i) == Cell(x, i)
  {
  }

  /** The columns determine how the line is saved, unless blanks at its end are kept. */
  lemma SavedByCells(x: Text, s: Text, o: Options)
    requires Printable(x) && OneMode(o) && !o.upnostrip && Dark(s)
    requires forall i: nat :: Cell(x, i) == Cell(s, i)
    ensures Saved(x, o) == s
  {
    hide Saved, Kept;
    SavedPrintable(x, o);
    var k := Kept(x, o);
    assert |s| > 0 ==> Cell(x, |s| - 1) == Cell(s, |s| - 1);
    assert k > 0 ==> Cell(x, k - 1) == Cell(s, k - 1);
    forall i | 0 <= i < k
      ensures x[i] == s[i]
    {
      assert Cell(x, i) == Cell(s, i);
    }
  }

  /** What is in column i once the operation has been done. */
  function CellThen(opc: Opc, s: Text, col: nat, ncols: nat, b: Text, i: nat): int
    requires QFrom(opc) ==> |b| == ncols
  {
    if i < col then Cell(s, i)
    else if opc.Close? then Cell(s, i + ncols)
    else if i >= col + ncols then Cell(s, if opc.Insert? then i - ncols else i)
    else if opc.Erase? then BLANK
    else if opc.Insert? then b[i - col]
    else Blend(opc, b[i - col], Cell(s, i))
  }

  lemma CellOfThree(x: Text, y: Text, z: Text, i: nat)
    ensures Cell(x + y + z, i) == if i < |x| then x[i] else if i < |x| + |y| then y[i - |x|]
                                  else Cell(z, i - |x| - |y|)
  {
  }

  lemma PaddedCell(s: Text, n: nat, i: nat)
    ensures Cell(Padded(s, n), i) == Cell(s, i)
  {
  }

  lemma InsertedCell(s: Text, col: nat, ncols: nat, b: Text, i: nat)
    requires |b| == ncols
    ensures Cell(Changed(Insert, s, col, ncols, b), i) == CellThen(Insert, s, col, ncols, b, i)
  {
    hide Padded;
    var p := Padded(s, col);
    CellOfThree(p[..col], b, p[col..], i);
    PaddedCell(s, col, i);
    PaddedCell(s, col, if i >= col + ncols then i - ncols else i);
  }

  lemma BlendedCell(opc: Opc, s: Text, col: nat, ncols: nat, b: Text, i: nat)
    requires QFrom(opc) && !opc.Insert? && |b| == ncols
    ensures Cell(Changed(opc, s, col, ncols, b), i) == CellThen(opc, s, col, ncols, b, i)
  {
    hide Padded, Blended;
    var endcol := col + ncols;
    var p := Padded(s, endcol);
    CellOfThree(p[..col], Blended(opc, b, p[col..endcol]), p[endcol..], i);
    PaddedCell(s, endcol, i);
  }

  lemma TakenCell(opc: Opc, s: Text, col: nat, ncols: nat, b: Text, i: nat)
    requires !QFrom(opc)
    ensures Cell(Changed(opc, s, col, ncols, b), i) == CellThen(opc, s, col, ncols, b, i)
  {
    if col + ncols <= |s| {
      CellOfThree(s[..col], if opc.Close? then [] else Times(ncols, BLANK), s[col + ncols..], i);
      assert s[..col] + [] == s[..col];
    }
  }

  lemma ChangedCell(opc: Opc, s: Text, col: nat, ncols: nat, b: Text, i: nat)
    requires QFrom(opc) ==> |b| == ncols
    ensures Cell(Changed(opc, s, col, ncols, b), i) == CellThen(opc, s, col, ncols, b, i)
  {
    hide Changed, CellThen, Cell;
    if opc.Insert? {
      InsertedCell(s, col, ncols, b, i);
    } else if QFrom(opc) {
      BlendedCell(opc, s, col, ncols, b, i);
    } else {
      TakenCell(opc, s, col, ncols, b, i);
    }
  }

  /** What is seen in a column of the rectangle: what is laid over, but for its blanks; what it is laid under, but
      for the blanks of that; what covers; or what the one or the other blotting leaves, each of them half. */
  lemma LaidCell(s: Text, col: nat, ncols: nat, b: Text, i: nat)
    requires |b| == ncols && col <= i < col + ncols
    ensures var over := Cell(Changed(Overlay, s, col, ncols, b), i);
            b[i - col] != BLANK || Cell(s, i) == BLANK ==> over == b[i - col]
    ensures b[i - col] == BLANK ==> Cell(Changed(Overlay, s, col, ncols, b), i) == Cell(s, i)
    ensures var under := Cell(Changed(Underlay, s, col, ncols, b), i);
            under == if Cell(s, i) == BLANK then b[i - col] else Cell(s, i)
    ensures Cell(Changed(Cover, s, col, ncols, b), i) == b[i - col]
    ensures Cell(Changed(Blot, s, col, ncols, b), i) == if b[i - col] == BLANK then Cell(s, i) else BLANK
    ensures Cell(Changed(OpBlot, s, col, ncols, b), i) == if b[i - col] == BLANK then BLANK else Cell(s, i)
  {
    hide Changed, Cell;
    ChangedCell(Overlay, s, col, ncols, b, i);
    ChangedCell(Underlay, s, col, ncols, b, i);
    ChangedCell(Cover, s, col, ncols, b, i);
    ChangedCell(Blot, s, col, ncols, b, i);
    ChangedCell(OpBlot, s, col, ncols, b, i);
  }

  /** What the two blottings leave of a line, laid over one another, is the line. */
  lemma BlotsShare(s: Text, col: nat, ncols: nat, b: Text, i: nat)
    requires |b| == ncols
    ensures var left, other := Changed(Blot, s, col, ncols, b), Changed(OpBlot, s, col, ncols, b);
            && |left| == |other| && (|left| >= col + ncols)
            && Cell(Changed(Overlay, left, col, ncols, other[col..col + ncols]), i) == Cell(s, i)
  {
    var left, other := Changed(Blot, s, col, ncols, b), Changed(OpBlot, s, col, ncols, b);
    LaidLength(Blot, s, col, ncols, b);
    LaidLength(OpBlot, s, col, ncols, b);
    hide Changed;
    ChangedCell(Blot, s, col, ncols, b, i);
    ChangedCell(OpBlot, s, col, ncols, b, i);
    ChangedCell(Overlay, left, col, ncols, other[col..col + ncols], i);
  }

  lemma PrintableParts(x: Text, y: Text, z: Text)
    requires Printable(x) && Printable(y) && Printable(z)
    ensures Printable(x + y + z)
  {
  }

  lemma TakenPrintable(opc: Opc, s: Text, col: nat, ncols: nat, b: Text)
    requires Printable(s) && !QFrom(opc)
    ensures Printable(Changed(opc, s, col, ncols, b))
  {
    if col + ncols <= |s| {
      PrintableParts(s[..col], if opc.Close? then [] else Times(ncols, BLANK), s[col + ncols..]);
      assert s[..col] + [] == s[..col];
    }
  }

  lemma PutPrintable(opc: Opc, s: Text, col: nat, ncols: nat, b: Text)
    requires Printable(s) && QFrom(opc) && |b| == ncols && Printable(b)
    ensures Printable(Changed(opc, s, col, ncols, b))
  {
    var upto := if opc.Insert? then col else col + ncols;
    var p := Padded(s, upto);
    assert Printable(p);
    hide Padded;
    PrintableParts(p[..col], if opc.Insert? then b else Blended(opc, b, p[col..upto]), p[upto..]);
  }

  lemma SegmentCells(s: Text, col: nat, ncols: nat, o: Options)
    requires Printable(s) && OneMode(o)
    ensures var b := Widened(Saved(Segment(s, col, ncols), o), ncols);
            Printable(b) && forall j :: 0 <= j < ncols ==> b[j] == Cell(s, col + j)
  {
    hide Saved;
    var t := Segment(s, col, ncols);
    SavedCells(t, o);
    WidenedCells(Saved(t, o), ncols);
    hide Widened;
    forall j | 0 <= j < ncols
      ensures Widened(Saved(t, o), ncols)[j] == Cell(s, col + j)
    {
      assert Cell(Saved(t, o), j) == Cell(t, j);
    }
  }

  lemma WidenedCells(t: Text, ncols: nat)
    requires Printable(t)
    ensures Printable(Widened(t, ncols)) && forall j :: 0 <= j < ncols ==> Widened(t, ncols)[j] == Cell(t, j)
  {
  }

  lemma SavedWhole(x: Text, o: Options)
    requires Printable(x) && OneMode(o) && o.upnostrip
    ensures Saved(x, o) == x
  {
    hide Saved;
    SavedPrintable(x, o);
    assert x[..|x|] == x;
  }

  /** The columns and the length determine a line. */
  lemma SameCells(x: Text, y: Text)
    requires |x| == |y| && forall i: nat :: Cell(x, i) == Cell(y, i)
    ensures x == y
  {
    forall i | 0 <= i < |x|
      ensures x[i] == y[i]
    {
      assert Cell(x, i) == Cell(y, i);
    }
  }

  /** What comes of a line out of which the rectangle was taken, and into which it was put again: it loses
      the blanks at its end if those are stripped, and else is padded to the end of the rectangle. */
  ghost function PutBack(s: Text, endcol: nat, o: Options): Text {
    if o.upnostrip then Padded(s, endcol) else s[..Kept(s, o)]
  }

  ghost predicate Inverse(take: Opc, put: Opc) {
    (take.Close? && put.Insert?) || (take.Erase? && (put.Overlay? || put.Underlay? || put.Cover?))
  }

  lemma PutLength(take: Opc, put: Opc, s: Text, col: nat, ncols: nat, b: Text)
    requires Inverse(take, put) && |b| == ncols
    ensures |Changed(put, Changed(take, s, col, ncols, []), col, ncols, b)| == |Padded(s, col + ncols)|
  {
  }

  /** The -tabs loop, where it is used, does right on every line that is written: what goes into the buffer,
      the line it was taken out of and the line it was put into again. */
  ghost predicate AllDoneRight(s: Text, take: Opc, put: Opc, col: nat, ncols: nat, o: Options)
    requires Inverse(take, put)
  {
    && DoneRight(Segment(s, col, ncols), o)
    && DoneRight(Changed(take, s, col, ncols, []), o)
    && DoneRight(Changed(put, Saved(Changed(take, s, col, ncols, []), o), col, ncols,
                         Widened(Saved(Segment(s, col, ncols), o), ncols)), o)
  }

  lemma TakenLength(s: Text, take: Opc, col: nat, ncols: nat)
    requires !QFrom(take)
    ensures |Segment(s, col, ncols)| <= |s| && |Changed(take, s, col, ncols, [])| <= |s|
    ensures take.Close? && |s| > col ==>
              |Changed(take, s, col, ncols, [])| <= if |s| >= col + ncols then |s| - ncols else col
  {
  }

  lemma LaidLength(put: Opc, s: Text, col: nat, ncols: nat, b: Text)
    requires QFrom(put) && |b| == ncols
    ensures |Changed(put, s, col, ncols, b)|
            == if put.Insert? then (if |s| < col then col else |s|) + ncols else if |s| < col + ncols then col + ncols else |s|
  {
  }

  /** So it does if neither the line nor the rectangle reaches beyond column 10000. */
  lemma ShortDoneRight(s: Text, take: Opc, put: Opc, col: nat, ncols: nat, o: Options)
    requires Printable(s) && OneMode(o) && Inverse(take, put) && |s| <= MAXLINE && col + ncols <= MAXLINE
    ensures AllDoneRight(s, take, put, col, ncols, o)
  {
    hide Saved, Widened, Within, Changed, Segment;
    var c := Changed(take, s, col, ncols, []);
    var b := Widened(Saved(Segment(s, col, ncols), o), ncols);
    TakenPrintable(take, s, col, ncols, []);
    SavedPrintable(c, o);
    var e := Changed(put, Saved(c, o), col, ncols, b);
    TakenLength(s, take, col, ncols);
    LaidLength(put, Saved(c, o), col, ncols, b);
    ShortIsWithin(Segment(s, col, ncols), 0, 0);
    ShortIsWithin(c, 0, 0);
    ShortIsWithin(e, 0, 0);
  }

  lemma LinePutBack(s: Text, take: Opc, put: Opc, col: nat, ncols: nat, o: Options)
    requires Printable(s) && OneMode(o) && Inverse(take, put) && AllDoneRight(s, take, put, col, ncols, o)
    ensures var b := Widened(Saved(Segment(s, col, ncols), o), ncols);
            Saved(Changed(put, Saved(Changed(take, s, col, ncols, []), o), col, ncols, b), o)
            == PutBack(s, col + ncols, o)
  {
    hide Saved, Changed, Widened, AllDoneRight;
    var b := Widened(Saved(Segment(s, col, ncols), o), ncols);
    var c := Changed(take, s, col, ncols, []);
    var d := Saved(c, o);
    var e := Changed(put, d, col, ncols, b);
    SegmentCells(s, col, ncols, o);
    TakenPrintable(take, s, col, ncols, []);
    SavedCells(c, o);
    PutPrintable(put, d, col, ncols, b);
    forall i: nat
      ensures Cell(e, i) == Cell(s, i)
    {
      ChangedCell(put, d, col, ncols, b, i);
      var j := if i >= col + ncols && put.Insert? then i - ncols else i;
      assert Cell(d, j) == Cell(c, j);
      ChangedCell(take, s, col, ncols, [], j);
      assert col <= i < col + ncols ==> b[i - col] == Cell(s, col + (i - col));
    }
    CellsPutBack(s, take, put, col, ncols, c, b, e, o);
  }

  lemma CellsPutBack(s: Text, take: Opc, put: Opc, col: nat, ncols: nat, c: Text, b: Text, e: Text, o: Options)
    requires Printable(s) && Printable(c) && Printable(e) && OneMode(o) && Inverse(take, put) && |b| == ncols
    requires c == Changed(take, s, col, ncols, []) && e == Changed(put, Saved(c, o), col, ncols, b)
    requires forall i: nat :: Cell(e, i) == Cell(s, i)
    ensures Saved(e, o) == PutBack(s, col + ncols, o)
  {
    hide Saved, Changed, Cell, Padded;
    if o.upnostrip {
      SavedWhole(c, o);
      SavedWhole(e, o);
      PutLength(take, put, s, col, ncols, b);
      forall i: nat
        ensures Cell(e, i) == Cell(Padded(s, col + ncols), i)
      {
        PaddedCell(s, col + ncols, i);
      }
      SameCells(e, Padded(s, col + ncols));
    } else {
      var t := s[..Kept(s, o)];
      KeptCells(s, Kept(s, o));
      SavedByCells(e, t, o);
    }
  }

  // ----- edrect -----

  /** What the buffer keeps of line n. */
  function PickedAt(f: File, n: nat, col: nat, ncols: nat, o: Options): Text {
    Saved(Segment(LineOf(f, n), col, ncols), o)
  }

  /** The lines a rectangle is kept as. */
  function Picked(f: File, line: nat, col: nat, nlines: nat, ncols: nat, o: Options): (r: File)
    ensures |r| == nlines
    ensures forall i :: 0 <= i < nlines ==> r[i] == PickedAt(f, line + i, col, ncols, o)
  {
    seq(nlines, i requires 0 <= i < nlines => PickedAt(f, line + i, col, ncols, o))
  }

  function NewLine(opc: Opc, s: Text, col: nat, ncols: nat, t: Text, o: Options): Text {
    Saved(Changed(opc, s, col, ncols, Widened(t, ncols)), o)
  }

  /** The file with the operation done on the rectangle, from the lines t of a buffer if it needs one. */
  function OnRect(opc: Opc, f: File, line: nat, col: nat, nlines: nat, ncols: nat, t: File, o: Options): (r: File)
    requires |t| >= nlines
    ensures |r| == |f|
    ensures forall i :: 0 <= i < |f| ==> r[i] == OnLine(opc, f, line, col, nlines, ncols, t, i, o)
  {
    seq(|f|, i requires 0 <= i < |f| => OnLine(opc, f, line, col, nlines, ncols, t, i, o))
  }

  function OnLine(opc: Opc, f: File, line: nat, col: nat, nlines: nat, ncols: nat, t: File, i: nat, o: Options): Text
    requires |t| >= nlines && i < |f|
  {
    if line <= i < line + nlines then NewLine(opc, f[i], col, ncols, t[i - line], o) else f[i]
  }

  /** A line that taking out and putting back a rectangle restores: where blanks at the end of lines are
      stripped one without any, and where they are kept one as long as the rectangle is far to the right. */
  predicate Restores(s: Text, endcol: nat, o: Options) {
    if o.upnostrip then endcol <= |s| else s == [] || s[|s| - 1] != BLANK
  }

  lemma PutBackRestores(s: Text, endcol: nat, o: Options)
    requires Printable(s)
    ensures PutBack(s, endcol, o) == s <==> Restores(s, endcol, o)
  {
    if !o.upnostrip {
      assert s[..|s|] == s;
    }
  }

  /** Closing a rectangle and inserting the buffer at the same place, or erasing it and laying the buffer over,
      under or in place of what is there, gives the file back exactly if each of its lines is one that this
      restores.  The lines are of printing characters. */
  lemma RectangleRestored(f: File, take: Opc, put: Opc, line: nat, col: nat, nlines: nat, ncols: nat, o: Options)
    requires line + nlines <= |f| && OneMode(o) && Inverse(take, put)
    requires forall i :: line <= i < line + nlines ==> Printable(f[i]) && AllDoneRight(f[i], take, put, col, ncols, o)
    ensures var q := Picked(f, line, col, nlines, ncols, o);
            OnRect(put, OnRect(take, f, line, col, nlines, ncols, q, o), line, col, nlines, ncols, q, o) == f
            <==> forall i :: line <= i < line + nlines ==> Restores(f[i], col + ncols, o)
  {
    hide Saved, Changed, Widened, Segment, PutBack, Restores, AllDoneRight;
    var q := Picked(f, line, col, nlines, ncols, o);
    var g := OnRect(take, f, line, col, nlines, ncols, q, o);
    var h := OnRect(put, g, line, col, nlines, ncols, q, o);
    forall i | 0 <= i < |f|
      ensures h[i] == f[i] <==> (line <= i < line + nlines ==> Restores(f[i], col + ncols, o))
    {
      if line <= i < line + nlines {
        LinePutBack(f[i], take, put, col, ncols, o);
        PutBackRestores(f[i], col + ncols, o);
        TakesNothing(take, f[i], col, ncols, Widened(q[i - line], ncols));
        assert LineOf(f, line + (i - line)) == f[i];
      }
    }
  }

  lemma TakesNothing(opc: Opc, s: Text, col: nat, ncols: nat, b: Text)
    requires !QFrom(opc)
    ensures Changed(opc, s, col, ncols, b) == Changed(opc, s, col, ncols, [])
  {
  }

  /** What a line has in the rectangle, as a line of the buffer. */
  method Pick(e: Editor, line: int, col: int, ncols: int) returns (seg: Text)
    requires e.Valid() && !e.have && !e.fcline && 0 <= line && 0 <= col && 1 <= ncols
    modifies e
    ensures e.Valid() && !e.have && !e.fcline && e.file == old(e.file)
    ensures seg == PickedAt(e.file, line, col, ncols, e.o)
  {
    hide Saved;
    e.GetLine(line);
    ghost var s := e.Cur();
    var j := e.ncline - col;
    if j > 0 {
      e.Flush();
      j := if j < ncols then j else ncols;
      // at the end of the line there is a newline already
      var end := if col + j < e.ncline then col + j else e.ncline - 1;
      e.cline := e.cline[end := NL];
      assert e.cline[col..end] == Segment(s, col, ncols);
      seg := Saved(e.cline[col..end], e.o);
    } else {
      e.Flush();
      seg := Saved([], e.o);
    }
  }

  /** A line with room for a line of the buffer, or with the rectangle taken out. */
  function Roomy(opc: Opc, s: Text, col: nat, ncols: nat): Text {
    if opc.Insert? then Spread(s, col, ncols)
    else if QFrom(opc) then Padded(s, col + ncols)
    else Changed(opc, s, col, ncols, [])
  }

  /** The operation on the current line. */
  method Change(e: Editor, opc: Opc, col: int, ncols: int, linebuf: Text)
    requires 1 <= e.ncline <= |e.cline| && e.cline[e.ncline - 1] == NL && 0 <= col && 1 <= ncols
    requires QFrom(opc) ==> |linebuf| == ncols
    modifies e`cline, e`ncline, e`fcline
    ensures 1 <= e.ncline <= |e.cline| && !e.fcline
    ensures e.Cur() == Changed(opc, old(e.Cur()), col, ncols, linebuf)
  {
    ghost var s := e.Cur();
    if QFrom(opc) || col < e.ncline {
      if QFrom(opc) {
        Lengthen(e, opc, col, ncols);
        ghost var p := e.Cur();
        RoomyBlends(opc, s, col, ncols, linebuf);
        Lay(e, opc, col, linebuf);
      } else {
        TakeOut(e, opc, col, ncols);
        TakesNothing(opc, s, col, ncols, linebuf);
      }
      ghost var r := e.Cur();
      e.cline := e.cline[e.ncline - 1 := NL];
      assert e.Cur() == r;
    }
    e.fcline := false;
  }

  method Lengthen(e: Editor, opc: Opc, col: int, ncols: int)
    requires 1 <= e.ncline <= |e.cline| && e.cline[e.ncline - 1] == NL && 0 <= col && 1 <= ncols && QFrom(opc)
    modifies e`cline, e`ncline, e`fcline
    ensures 1 <= e.ncline <= |e.cline| && e.cline[e.ncline - 1] == NL
    ensures e.Cur() == Roomy(opc, old(e.Cur()), col, ncols)
  {
    var endcol := col + ncols;
    if opc.Insert? {
      e.PutBks(col, ncols);
    } else if endcol >= e.ncline {
      e.PutBks(e.ncline - 1, endcol + 1 - e.ncline);
    }
  }

  method TakeOut(e: Editor, opc: Opc, col: int, ncols: int)
    requires 1 <= e.ncline <= |e.cline| && 0 <= col < e.ncline && 1 <= ncols && !QFrom(opc)
    modifies e`cline, e`ncline
    ensures 1 <= e.ncline <= |e.cline|
    ensures e.Cur() == Roomy(opc, old(e.Cur()), col, ncols)
  {
    ghost var s, c := e.Cur(), e.cline;
    var endcol := col + ncols;
    if endcol >= e.ncline {
      e.ncline := col + 1;
      assert e.Cur() == s[..col];
    } else if opc.Close? {
      e.Move(endcol, col, e.ncline - endcol);
      e.ncline := e.ncline - ncols;
      assert c[endcol..|s| + 1][..|s| - endcol] == s[endcol..] && c[..col] == s[..col];
      assert e.Cur() == s[..col] + s[endcol..];
    } else {
      e.Fill(col, ncols, BLANK);
      assert c[..col] == s[..col] && c[endcol..][..|s| - endcol] == s[endcol..];
      assert e.Cur() == s[..col] + Times(ncols, BLANK) + s[endcol..];
    }
  }

  /** A line of the buffer laid into the room for it. */
  function Laid(opc: Opc, p: Text, col: nat, b: Text): Text
    requires col + |b| <= |p|
  {
    p[..col] + (if opc.Insert? then b else Blended(opc, b, p[col..col + |b|])) + p[col + |b|..]
  }

  lemma RoomyBlends(opc: Opc, s: Text, col: nat, ncols: nat, b: Text)
    requires QFrom(opc) && |b| == ncols
    ensures |Roomy(opc, s, col, ncols)| >= col + ncols
    ensures Laid(opc, Roomy(opc, s, col, ncols), col, b) == Changed(opc, s, col, ncols, b)
  {
    if opc.Insert? {
      var p, r := Padded(s, col), Spread(s, col, ncols);
      assert r[..col] == p[..col] && r[col + ncols..] == p[col..];
    }
  }

  method Lay(e: Editor, opc: Opc, col: int, linebuf: Text)
    requires 1 <= e.ncline <= |e.cline| && 0 <= col && col + |linebuf| <= e.ncline - 1 && QFrom(opc)
    modifies e`cline
    ensures |e.cline| == |old(e.cline)| && e.Cur() == Laid(opc, old(e.Cur()), col, linebuf)
  {
    ghost var p := e.Cur();
    assert p[col..col + |linebuf|] == e.cline[col..col + |linebuf|];
    if opc.Insert? || opc.Cover? {
      assert Blended(Cover, linebuf, p[col..col + |linebuf|]) == linebuf;
      e.cline := e.cline[..col] + linebuf + e.cline[col + |linebuf|..];
    } else {
      BlendIn(e, opc, col, linebuf);
    }
    assert e.Cur()[..col] == p[..col] && e.Cur()[col + |linebuf|..] == p[col + |linebuf|..];
  }

  /** The loop that lays a line of the buffer over, under or into the current line. */
  method BlendIn(e: Editor, opc: Opc, col: int, linebuf: Text)
    requires 0 <= col && col + |linebuf| <= |e.cline|
    modifies e`cline
    ensures e.cline == old(e.cline[..col] + Blended(opc, linebuf, e.cline[col..col + |linebuf|])
                           + e.cline[col + |linebuf|..])
  {
    var j := 0;
    while j < |linebuf|
      invariant 0 <= j <= |linebuf| && |e.cline| == |old(e.cline)|
      invariant forall k :: 0 <= k < |e.cline| ==>
                  e.cline[k] == if col <= k < col + j then Blend(opc, linebuf[k - col], old(e.cline)[k]) else old(e.cline)[k]
    {
      var cpfrom, cpto := linebuf[j], col + j;
      match opc {
        case Blot =>
          if cpfrom != BLANK {
            e.cline := e.cline[cpto := BLANK];
          }
        case OpBlot =>
          if cpfrom == BLANK {
            e.cline := e.cline[cpto := BLANK];
          }
        case Overlay =>
          if cpfrom != BLANK {
            e.cline := e.cline[cpto := cpfrom];
          }
        case Underlay =>
          if e.cline[cpto] == BLANK {
            e.cline := e.cline[cpto := cpfrom];
          }
        case _ =>
          e.cline := e.cline[cpto := cpfrom];
      }
      j := j + 1;
    }
  }

  /** The first part of edrect: the rectangle goes into the buffer. */
  method PickLines(e: Editor, q: Buffer, line: int, col: int, nlines: int, ncols: int)
    requires e.Valid() && !e.have && !e.fcline && 0 <= line && 0 <= col && 1 <= nlines && 1 <= ncols
    modifies e, q
    ensures e.Valid() && !e.have && !e.fcline && e.file == old(e.file)
    ensures q.lines == Picked(e.file, line, col, nlines, ncols, e.o) && q.ncols == ncols
  {
    hide Saved;
    var itmp, collected: File := 0, [];
    while itmp < nlines
      invariant 0 <= itmp <= nlines && |collected| == itmp
      invariant e.Valid() && !e.have && !e.fcline && e.file == old(e.file)
      invariant forall k :: 0 <= k < itmp ==> collected[k] == PickedAt(e.file, line + k, col, ncols, e.o)
    {
      var seg := Pick(e, line + itmp, col, ncols);
      collected := collected + [seg];
      itmp := itmp + 1;
    }
    q.lines, q.ncols := collected, ncols;
  }

  /** The second part: the lines of the file are changed, from the lines t of the buffer if need be. */
  method ChangeLines(e: Editor, opc: Opc, line: int, col: int, nlines: int, ncols: int, t: File)
    requires e.Valid() && !e.have && !e.fcline && 0 <= line && 0 <= col && 1 <= ncols && 0 <= nlines
    requires line + nlines <= |e.file| && |t| >= nlines
    modifies e
    ensures e.Valid() && !e.have && !e.fcline
    ensures e.file == OnRect(opc, old(e.file), line, col, nlines, ncols, t, e.o)
  {
    hide Saved, Changed, Widened, Written, Loaded, Editor.Buffer;
    ghost var f := e.file;
    var itmp, collected: File := 0, [];
    while itmp < nlines
      invariant 0 <= itmp <= nlines && |collected| == itmp
      invariant e.Valid() && !e.have && !e.fcline && e.file == f
      invariant forall k :: 0 <= k < itmp ==> collected[k] == NewLine(opc, f[line + k], col, ncols, t[k], e.o)
    {
      e.GetLine(line + itmp);
      e.Flush();
      var linebuf := if QFrom(opc) then Widened(t[itmp], ncols) else [];
      Change(e, opc, col, ncols, linebuf);
      if !QFrom(opc) {
        TakesNothing(opc, f[line + itmp], col, ncols, Widened(t[itmp], ncols));
      }
      collected := collected + [Saved(e.cline[..e.ncline - 1], e.o)];
      itmp := itmp + 1;
    }
    e.file := e.file[..line] + collected + e.file[line + nlines..];
  }

  /** edrect, when nothing is waiting to be written: an operation that takes a rectangle puts it into the
      buffer; one that puts a buffer into the file takes its height and width from the buffer. */
  method EdRect(e: Editor, q: Buffer, opc: Opc, line: int, col: int, nlines0: int, ncols0: int)
    requires e.Valid() && !e.have && !e.fcline && 0 <= line && 0 <= col
    requires line + (if QFrom(opc) then |q.lines| else nlines0) <= |e.file| && (QFrom(opc) ==> q.ncols > 0)
    modifies e, q
    ensures e.Valid() && !e.have && !e.fcline
    ensures !QFrom(opc) && (ncols0 <= 0 || nlines0 <= 0) ==>
              e.file == old(e.file) && q.lines == old(q.lines) && q.ncols == old(q.ncols)
    ensures !QFrom(opc) && ncols0 > 0 && nlines0 > 0 ==>
              && q.ncols == ncols0 && q.lines == Picked(old(e.file), line, col, nlines0, ncols0, e.o)
              && e.file == OnRect(opc, old(e.file), line, col, nlines0, ncols0, q.lines, e.o)
    ensures QFrom(opc) ==>
              && q.lines == old(q.lines) && q.ncols == old(q.ncols)
              && e.file == OnRect(opc, old(e.file), line, col, |q.lines|, q.ncols, q.lines, e.o)
  {
    hide Saved, Changed, Widened, Segment, NewLine;
    var nlines, ncols := nlines0, ncols0;
    if !QFrom(opc) && (ncols <= 0 || nlines <= 0) {
      return;
    }
    if !QFrom(opc) {
      PickLines(e, q, line, col, nlines, ncols);
    } else {
      nlines, ncols := |q.lines|, q.ncols;
    }
    ChangeLines(e, opc, line, col, nlines, ncols, q.lines);
  }
}
