/** The bookkeeping of a search through byte code: where it stands, and what it still owes. */
module Searching {
  import opened Pattern
  import opened Matching

  /** What a search was asked: match `items` against s from p, with captures k. */
  datatype Goal = Goal(items: seq<Item>, open: set<nat>, closed: set<nat>, s: Text, k: Caps, p: nat)

  /** How far it has come without making a choice: past `done`, with `left` coded at ep. */
  datatype Point = Point(done: seq<nat>, left: seq<Item>, open: set<nat>, closed: set<nat>, k: Caps, p: nat, ep: nat)

  ghost predicate Stands(g: Goal, w: Point, buf: seq<int>) {
    && w.ep <= |buf| && buf[w.ep..] == Code(w.left) && Fits(w.left)
    && w.p <= |g.s| && Sound(w.left, w.open, w.closed) && Placed(w.open, w.closed, w.k, w.p)
    && OpenAfter(w.left, w.open) == OpenAfter(g.items, g.open)
    && ClosedAfter(w.left, w.closed) == ClosedAfter(g.items, g.closed)
    && Forced(g.items, g.s, g.k, g.p, w.done, w.left, w.k, w.p)
    && SameOutside(g.items, g.k, w.k) && (forall it :: it in w.left ==> it in g.items)
  }

  lemma Start(g: Goal, w: Point, buf: seq<int>)
    requires w == Point([], g.items, g.open, g.closed, g.k, g.p, w.ep)
    requires w.ep <= |buf| && buf[w.ep..] == Code(g.items) && Fits(g.items)
    requires g.p <= |g.s| && Sound(g.items, g.open, g.closed) && Placed(g.open, g.closed, g.k, g.p)
    ensures Stands(g, w, buf)
  {
    hide Sound, Code, Fits, OpenAfter, ClosedAfter, Forced;
    ForcedStart(g.items, g.s, g.k, g.p);
  }

  /** The next item takes the search to q and no other place. */
  lemma Pass(g: Goal, w: Point, buf: seq<int>, q: nat, ep: nat) returns (next: Point)
    requires Stands(g, w, buf) && w.left != []
    requires Step(w.left[0], g.s, w.k, w.p, q)
    requires forall r :: Step(w.left[0], g.s, w.k, w.p, r) ==> r == q
    requires ep <= |buf| && buf[ep..] == Code(w.left[1..])
    ensures next == Point(w.done + [q], w.left[1..], OpenNext(w.left[0], w.open), ClosedNext(w.left[0], w.closed),
                          After(w.left[0], w.k, w.p), q, ep)
    ensures Stands(g, next, buf)
  {
    hide Code, Forced, Has;
    var it := w.left[0];
    next := Point(w.done + [q], w.left[1..], OpenNext(it, w.open), ClosedNext(it, w.closed),
                  After(it, w.k, w.p), q, ep);
    ForcedStep(g.items, g.s, g.k, g.p, w.done, w.left, w.k, w.p, q);
    assert it in w.left;
    assert w.p <= q <= |g.s|;
    assert Fits(next.left) by {
      assert forall i :: i in next.left ==> i in w.left;
    }
  }

  lemma DollarCode(items: seq<Item>)
    requires items != [] && items[0] == Dollar
    ensures Code(items) == [CDOL] + Code(items[1..])
  {
  }

  lemma PassDollar(g: Goal, w: Point, buf: seq<int>) returns (next: Point)
    requires Stands(g, w, buf) && w.left != [] && w.left[0] == Dollar && w.p == |g.s|
    ensures next.k == w.k && next.p == w.p && next.ep == w.ep + 1 && next.left == w.left[1..]
    ensures Stands(g, next, buf)
  {
    hide Sound, Fits, OpenAfter, ClosedAfter, Forced, ItemsCode, Placed, SameOutside;
    assert Code(w.left) == [CDOL] + Code(w.left[1..]) by {
      DollarCode(w.left);
    }
    Split(buf, w.ep, [CDOL], Code(w.left[1..]));
    next := Pass(g, w, buf, w.p, w.ep + 1);
  }

  lemma Found(g: Goal, w: Point, buf: seq<int>, tail: seq<nat>)
    requires Stands(g, w, buf) && Greediest(w.left, g.s, w.k, w.p, tail)
    ensures Greediest(g.items, g.s, g.k, g.p, w.done + tail)
    ensures Final(g.p, w.done + tail) == Final(w.p, tail)
    ensures CapsAlong(g.items, g.k, g.p, w.done + tail) == CapsAlong(w.left, w.k, w.p, tail)
  {
    ForcedFound(g.items, g.s, g.k, g.p, w.done, w.left, w.k, w.p, tail);
  }

  lemma Dead(g: Goal, w: Point, buf: seq<int>)
    requires Stands(g, w, buf) && NoPath(w.left, g.s, w.k, w.p)
    ensures NoPath(g.items, g.s, g.k, g.p)
  {
    hide IsPath;
  }

  lemma AtEnd(g: Goal, w: Point, buf: seq<int>)
    requires Stands(g, w, buf) && w.left == []
    ensures Greediest(g.items, g.s, g.k, g.p, w.done) && Final(g.p, w.done) == w.p
    ensures CapsAlong(g.items, g.k, g.p, w.done) == w.k
    ensures OpenAfter(g.items, g.open) == w.open && ClosedAfter(g.items, g.closed) == w.closed
  {
    hide Forced, Sound;
    assert Greediest(w.left, g.s, w.k, w.p, []);
    Found(g, w, buf, []);
    assert w.done + [] == w.done;
  }

  /** No step leads on. */
  lemma AtDeadEnd(g: Goal, w: Point, buf: seq<int>)
    requires Stands(g, w, buf) && w.left != []
    requires forall q :: !Step(w.left[0], g.s, w.k, w.p, q)
    ensures NoPath(g.items, g.s, g.k, g.p)
  {
    hide Forced, Sound, Step;
    Dead(g, w, buf);
  }

  /** A star from p can end at p, p+1, ... and up to, but not including, `end`. */
  ghost predicate Reach(x: Single, s: Text, p: nat, end: nat) {
    && p < end <= |s| + 1
    && (forall i: nat :: p <= i < end - 1 ==> Has(x, s[i]))
    && (end <= |s| ==> !Has(x, s[end - 1]))
  }

  lemma ReachSteps(x: Single, s: Text, k: Caps, p: nat, end: nat, r: nat)
    requires Reach(x, s, p, end)
    ensures Step(Star(x), s, k, p, r) <==> p <= r < end
  {
    hide Has;
  }

  lemma StarDead(g: Goal, w: Point, buf: seq<int>, end: nat)
    requires Stands(g, w, buf) && w.left != [] && w.left[0].Star? && Reach(w.left[0].x, g.s, w.p, end)
    requires forall r: nat :: w.p <= r < end ==> NoPath(w.left[1..], g.s, w.k, r)
    ensures NoPath(g.items, g.s, g.k, g.p)
  {
    hide Forced, Sound, Reach, Step, IsPath;
    var x := w.left[0].x;
    forall r: nat | Step(Star(x), g.s, w.k, w.p, r)
      ensures NoPath(w.left[1..], g.s, w.k, r)
    {
      ReachSteps(x, g.s, w.k, w.p, end, r);
    }
    StarFailed(x, w.left[1..], g.s, w.k, w.p);
    assert [Star(x)] + w.left[1..] == w.left;
    Dead(g, w, buf);
  }

  lemma StarWon(g: Goal, w: Point, buf: seq<int>, end: nat, q: nat, tail: seq<nat>) returns (path: seq<nat>)
    requires Stands(g, w, buf) && w.left != [] && w.left[0].Star? && Reach(w.left[0].x, g.s, w.p, end)
    requires w.p <= q < end && Greediest(w.left[1..], g.s, w.k, q, tail)
    requires forall r: nat :: q < r < end ==> NoPath(w.left[1..], g.s, w.k, r)
    ensures Greediest(g.items, g.s, g.k, g.p, path) && Final(g.p, path) == Final(q, tail)
    ensures CapsAlong(g.items, g.k, g.p, path) == CapsAlong(w.left[1..], w.k, q, tail)
  {
    hide Forced, Sound, Reach, Step, Greediest, CapsAlong, Code, Fits, OpenAfter, ClosedAfter, SameOutside, NoPath;
    var x := w.left[0].x;
    forall r: nat | r > q && Step(Star(x), g.s, w.k, w.p, r)
      ensures NoPath(w.left[1..], g.s, w.k, r)
    {
      ReachSteps(x, g.s, w.k, w.p, end, r);
    }
    ReachSteps(x, g.s, w.k, w.p, end, q);
    StarFound(x, w.left[1..], g.s, w.k, w.p, q, tail);
    assert [Star(x)] + w.left[1..] == w.left;
    Found(g, w, buf, [q] + tail);
    path := w.done + ([q] + tail);
  }

  /** At the code of a character item, plain or starred. */
  lemma HeadSingle(g: Goal, w: Point, buf: seq<int>)
    requires Stands(g, w, buf) && w.left != [] && (w.left[0].One? || w.left[0].Star?)
    ensures SingleFits(w.left[0].x) && Fits(w.left[1..])
    ensures buf[w.ep..] == SingleCode(w.left[0].x, if w.left[0].One? then 0 else CSTAR) + Code(w.left[1..])
    ensures Sound(w.left[1..], w.open, w.closed)
    ensures forall k2 :: SameOutside(w.left[1..], w.k, k2) ==> SameOutside(g.items, g.k, k2)
  {
    hide Forced;
    assert w.left[0] in w.left;
    assert forall i :: i in w.left[1..] ==> i in w.left;
    assert Code(w.left) == ItemCode(w.left[0]) + Code(w.left[1..]) by {
      hide ItemCode;
      assert Code(w.left) == (ItemCode(w.left[0]) + ItemsCode(w.left[1..])) + [CEOF, 0];
    }
  }

  lemma HeadKind(g: Goal, w: Point, buf: seq<int>)
    requires Stands(g, w, buf) && w.left != []
    ensures !w.left[0].BackStar?
    ensures w.left[0].Open? || w.left[0].Close? ==> w.left[0].n < NBRA
    ensures w.left[0].Back? ==>
              var n := w.left[0].n;
              n < NBRA && 0 <= w.k.starts[n] <= w.k.ends[n] <= w.p
    ensures w.left[0].Star? ==>
              && OpenAfter(g.items, g.open) == OpenAfter(w.left[1..], w.open)
              && ClosedAfter(g.items, g.closed) == ClosedAfter(w.left[1..], w.closed)
  {
    hide Forced, Fits, Code;
  }
}
