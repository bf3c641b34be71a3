/** Filling and justifying: words are put on lines, and the blanks a line lacks are spread over the gaps
    between its words. */
module Filling {

  type Text = seq<int>

  // ----- gaps -----

  function Sum(g: seq<int>): int {
    if g == [] then 0 else Sum(g[..|g| - 1]) + g[|g| - 1]
  }

  function Count(c: seq<bool>): nat {
    if c == [] then 0 else Count(c[..|c| - 1]) + if c[|c| - 1] then 1 else 0
  }

  /** What justify makes of the gaps g of a line that lacks ems blanks: h fills the line exactly, no gap
      shrinks, gaps of no width stay so and the others end within one blank of each other, the wider ones
      never narrower than the others.  Among gaps once of one width the right ones are the wider on odd
      lines, and the left ones on even lines. */
  ghost predicate Justified(g: seq<int>, h: seq<int>, ems: int, odd: bool) {
    && |h| == |g|
    && (forall n :: 0 <= n < |g| ==> h[n] >= g[n] && (g[n] == 0 ==> h[n] == 0))
    && (forall a, b :: 0 <= a < |g| && 0 <= b < |g| && g[a] > 0 && g[b] > 0 ==> h[a] <= h[b] + 1)
    && (forall a, b :: 0 <= a < |g| && 0 <= b < |g| && 0 < g[a] < g[b] ==> h[a] <= h[b])
    && (forall a, b :: 0 <= a < b < |g| && 0 < g[a] == g[b] ==> if odd then h[a] <= h[b] else h[a] >= h[b])
    && Sum(h) == Sum(g) + if exists n :: 0 <= n < |g| && g[n] > 0 then ems else 0
  }

  /** Gaps as addword leaves them. */
  ghost predicate Natural(g: seq<int>) {
    forall n :: 0 <= n < |g| ==> 0 <= g[n] <= 2
  }

  lemma {:induction false} SumAtMost(g: seq<int>, h: seq<int>)
    requires |g| == |h| && forall n :: 0 <= n < |g| ==> g[n] <= h[n]
    ensures Sum(g) <= Sum(h) && (Sum(g) == Sum(h) ==> g == h)
  {
    if g != [] {
      SumAtMost(g[..|g| - 1], h[..|g| - 1]);
      if Sum(g) == Sum(h) {
        assert g == g[..|g| - 1] + [g[|g| - 1]] && h == h[..|g| - 1] + [h[|g| - 1]];
      }
    }
  }

  /** The gaps of a justified line are determined. */
  lemma JustifiedUnique(g: seq<int>, h: seq<int>, k: seq<int>, ems: int, odd: bool)
    requires Natural(g) && Justified(g, h, ems, odd) && Justified(g, k, ems, odd)
    ensures h == k
  {
    if a, b :| 0 <= a < |g| && 0 <= b < |g| && h[a] < k[a] && h[b] > k[b] {
      assert false;
    } else if forall a :: 0 <= a < |g| ==> h[a] <= k[a] {
      SumAtMost(h, k);
    } else {
      SumAtMost(k, h);
    }
  }

  lemma CountAt(c: seq<bool>, n: nat)
    requires n < |c|
    ensures Count(c[..n + 1]) == Count(c[..n]) + if c[n] then 1 else 0
  {
    assert c[..n + 1][..n] == c[..n];
  }

  lemma {:induction false} SumUpdate(g: seq<int>, n: nat, v: int)
    requires n < |g|
    ensures Sum(g[n := v]) == Sum(g) - g[n] + v
  {
    var h := g[n := v];
    if n == |g| - 1 {
      assert h[..n] == g[..n];
    } else {
      assert h[..|g| - 1] == g[..|g| - 1][n := v];
      SumUpdate(g[..|g| - 1], n, v);
    }
  }

  /** The sum of gaps of which some have grown by i. */
  lemma {:induction false} SumGrown(g: seq<int>, h: seq<int>, c: seq<bool>, i: int)
    requires |g| == |h| == |c| && forall n :: 0 <= n < |g| ==> h[n] == g[n] + if c[n] then i else 0
    ensures Sum(h) == Sum(g) + i * Count(c)
  {
    if g != [] {
      var n := |g| - 1;
      SumGrown(g[..n], h[..n], c[..n], i);
      assert Sum(h) == Sum(g[..n]) + i * Count(c[..n]) + h[n];
      assert i * Count(c) == i * Count(c[..n]) + if c[n] then i else 0;
    }
  }

  /** The line being made up, as far as its gaps go. */
  class Gaps {
    var nspaces: seq<int>
    var candidate: seq<bool>

    constructor (g: seq<int>)
      ensures Valid() && nspaces == g
    {
      nspaces := g;
      candidate := seq(|g|, n => false);
    }

    ghost predicate Valid()
      reads `nspaces, `candidate
    {
      |candidate| == |nspaces|
    }

    /** Sets the n-th gap. */
    method Set(n: nat, v: int)
      requires Valid() && n <= |nspaces|
      modifies `nspaces, `candidate
      ensures Valid() && |nspaces| > n && nspaces[..n] == old(nspaces[..n]) && nspaces[n] == v
    {
      if n == |nspaces| {
        nspaces, candidate := nspaces + [v], candidate + [false];
      } else {
        nspaces := nspaces[n := v];
      }
    }

    /** Marks the gaps of the first m that are not of no width. */
    method MarkWide(m: nat) returns (ncandidates: nat)
      requires Valid() && m <= |nspaces|
      modifies `candidate
      ensures Valid() && ncandidates == Count(candidate[..m])
      ensures forall n :: 0 <= n < m ==> candidate[n] == (nspaces[n] > 0)
    {
      ncandidates := 0;
      for n := 0 to m
        invariant Valid() && ncandidates == Count(candidate[..n])
        invariant forall k :: 0 <= k < n ==> candidate[k] == (nspaces[k] > 0)
      {
        ghost var before := candidate[..n];
        candidate := candidate[n := nspaces[n] > 0];
        assert candidate[..n] == before;
        CountAt(candidate, n);
        if candidate[n] {
          ncandidates := ncandidates + 1;
        }
      }
    }

    /** Keeps as candidates the gaps narrower than maxgap. */
    method KeepNarrow(m: nat, maxgap: int) returns (ncandidates: nat)
      requires Valid() && m <= |nspaces|
      modifies `candidate
      ensures Valid() && ncandidates == Count(candidate[..m])
      ensures forall n :: 0 <= n < m ==> candidate[n] == (old(candidate[n]) && nspaces[n] < maxgap)
    {
      ncandidates := 0;
      for n := 0 to m
        invariant Valid() && ncandidates == Count(candidate[..n])
        invariant forall k :: 0 <= k < n ==> candidate[k] == (old(candidate[k]) && nspaces[k] < maxgap)
        invariant forall k :: n <= k < |candidate| ==> candidate[k] == old(candidate[k])
      {
        ghost var before := candidate[..n];
        candidate := candidate[n := candidate[n] && nspaces[n] < maxgap];
        assert candidate[..n] == before;
        CountAt(candidate, n);
        if candidate[n] {
          ncandidates := ncandidates + 1;
        }
      }
    }

    /** Widens every candidate by i. */
    method Widen(m: nat, i: int)
      requires Valid() && m <= |nspaces|
      modifies `nspaces
      ensures Valid() && Sum(nspaces[..m]) == old(Sum(nspaces[..m])) + i * Count(candidate[..m])
      ensures forall n :: 0 <= n < |nspaces| ==>
                nspaces[n] == old(nspaces[n]) + if n < m && candidate[n] then i else 0
    {
      for n := 0 to m
        invariant Valid()
        invariant forall k :: 0 <= k < |nspaces| ==>
                    nspaces[k] == old(nspaces[k]) + if k < n && candidate[k] then i else 0
      {
        if candidate[n] {
          nspaces := nspaces[n := nspaces[n] + i];
        }
      }
      SumGrown(old(nspaces)[..m], nspaces[..m], candidate[..m], i);
    }

    /** Widens the candidates, all one short of maxgap, to maxgap, and makes the others that are not of no
        width the candidates.  The number returned counts those too that are of no width. */
    method FillNarrow(m: nat, maxgap: int) returns (ncandidates: nat)
      requires Valid() && m <= |nspaces|
      requires forall n :: 0 <= n < m && candidate[n] ==> nspaces[n] == maxgap - 1
      modifies `nspaces, `candidate
      ensures Valid() && |nspaces| == old(|nspaces|)
      ensures Sum(nspaces[..m]) == old(Sum(nspaces[..m])) + old(Count(candidate[..m]))
      ensures forall n :: 0 <= n < |nspaces| ==>
                nspaces[n] == old(nspaces[n]) + if n < m && old(candidate[n]) then 1 else 0
      ensures forall n :: 0 <= n < m ==> candidate[n] == (!old(candidate[n]) && nspaces[n] > 0)
    {
      ncandidates := 0;
      for n := 0 to m
        invariant Valid() && |nspaces| == old(|nspaces|)
        invariant forall k :: 0 <= k < |nspaces| ==>
                    nspaces[k] == old(nspaces[k]) + if k < n && old(candidate[k]) then 1 else 0
        invariant forall k :: 0 <= k < n ==> candidate[k] == (!old(candidate[k]) && nspaces[k] > 0)
        invariant forall k :: n <= k < |candidate| ==> candidate[k] == old(candidate[k])
      {
        if candidate[n] {
          nspaces := nspaces[n := maxgap];
          candidate := candidate[n := false];
        } else {
          candidate := candidate[n := nspaces[n] > 0];
          ncandidates := ncandidates + 1;
        }
      }
      SumGrown(old(nspaces)[..m], nspaces[..m], old(candidate)[..m], 1);
    }

    /** One more blank in the n-th gap. */
    method Bump(m: nat, n: int)
      requires Valid() && 0 <= n < m <= |nspaces|
      modifies `nspaces
      ensures Valid() && nspaces == old(nspaces)[n := old(nspaces)[n] + 1]
      ensures Sum(nspaces[..m]) == old(Sum(nspaces[..m])) + 1
    {
      SumUpdate(nspaces[..m], n, nspaces[n] + 1);
      assert nspaces[n := nspaces[n] + 1][..m] == nspaces[..m][n := nspaces[n] + 1];
      nspaces := nspaces[n := nspaces[n] + 1];
    }

    /** Spreads ems blanks over the candidates, from the right.  There are candidates enough, so the index
        stays within the gaps. */
    method SpreadRight(m: nat, ems0: nat)
      requires Valid() && m <= |nspaces| && ems0 <= Count(candidate[..m])
      modifies `nspaces
      ensures Valid() && Sum(nspaces[..m]) == old(Sum(nspaces[..m])) + ems0
      ensures Spreads(old(nspaces), nspaces, candidate, m, true)
    {
      hide Sum;
      var ems, n := ems0, m - 1;
      while ems > 0
        invariant Valid() && 0 <= ems && -1 <= n < m && ems <= Count(candidate[..n + 1])
        invariant Sum(nspaces[..m]) == old(Sum(nspaces[..m])) + ems0 - ems
        invariant |nspaces| == old(|nspaces|) && forall k :: 0 <= k < |nspaces| ==>
                    nspaces[k] == old(nspaces[k]) + if n < k < m && candidate[k] then 1 else 0
        decreases n
      {
        CountAt(candidate, n);
        if candidate[n] {
          Bump(m, n);
          ems := ems - 1;
        }
        n := n - 1;
      }
    }

    /** The same from the left. */
    method SpreadLeft(m: nat, ems0: nat)
      requires Valid() && m <= |nspaces| && ems0 <= Count(candidate[..m])
      modifies `nspaces
      ensures Valid() && Sum(nspaces[..m]) == old(Sum(nspaces[..m])) + ems0
      ensures Spreads(old(nspaces), nspaces, candidate, m, false)
    {
      hide Sum;
      var ems, n := ems0, 0;
      while ems > 0
        invariant Valid() && 0 <= ems && 0 <= n <= m && ems + Count(candidate[..n]) <= Count(candidate[..m])
        invariant Sum(nspaces[..m]) == old(Sum(nspaces[..m])) + ems0 - ems
        invariant |nspaces| == old(|nspaces|) && forall k :: 0 <= k < |nspaces| ==>
                    nspaces[k] == old(nspaces[k]) + if k < n && candidate[k] then 1 else 0
        decreases m - n
      {
        CountAt(candidate, n);
        if candidate[n] {
          Bump(m, n);
          ems := ems - 1;
        }
        n := n + 1;
      }
    }

    /** justify: spreads over the first m gaps the ems blanks that the line lacks. */
    method Justify(m: nat, ems0: int, outparline: nat)
      requires Valid() && m <= |nspaces| && Natural(nspaces[..m])
      requires ems0 >= 0 || forall n :: 0 <= n < m ==> nspaces[n] == 0
      modifies `nspaces, `candidate
      ensures Valid() && |nspaces| == old(|nspaces|) && nspaces[m..] == old(nspaces[m..])
      ensures Justified(old(nspaces[..m]), nspaces[..m], ems0, outparline % 2 == 1)
    {
      hide Sum, Count;
      var ems := ems0;
      if ems == 0 {
        return;
      }
      ghost var g, tail := nspaces[..m], nspaces[m..];
      var ncandidates := MarkWide(m);
      NoneWide(g, candidate[..m]);
      if ncandidates == 0 {
        return;
      }
      SpreadSome(g, m, ncandidates, ems, outparline);
      assert nspaces[m..] == tail;
    }

    /** justify when there are gaps to widen. */
    method SpreadSome(ghost g: seq<int>, m: nat, ncandidates: nat, ems0: nat, outparline: nat)
      requires Valid() && m <= |nspaces| && g == nspaces[..m] && Natural(g) && ems0 > 0
      requires forall n :: 0 <= n < m ==> candidate[n] == (g[n] > 0)
      requires ncandidates == Count(candidate[..m]) > 0 && exists n :: 0 <= n < m && g[n] > 0
      modifies `nspaces, `candidate
      ensures Valid() && |nspaces| == old(|nspaces|)
      ensures forall n :: m <= n < |nspaces| ==> nspaces[n] == old(nspaces[n])
      ensures Justified(g, nspaces[..m], ems0, outparline % 2 == 1)
    {
      hide Sum, Count;
      var ems := ems0;
      var i := ems / ncandidates;
      if i != 0 {
        Widen(m, i);
        ems := ems % ncandidates;
        assert i * ncandidates == ems0 - ems;
        if ems == 0 {
          return;
        }
      }
      hide Justified;
      SpreadRest(g, m, ems0, ems, i, outparline);
    }

    /** The choice of the gaps to get another blank, when there are fewer blanks than gaps and the gaps have
        all been widened by i.  Gaps once one wide are now x wide, and the wider ones 2 + i. */
    method Choose(ghost g: seq<int>, m: nat, ems0: nat, i: nat) returns (ems: nat, ghost x: int)
      requires Valid() && m == |g| <= |nspaces| && Natural(g)
      requires forall n :: 0 <= n < m ==> nspaces[n] == (if g[n] > 0 then g[n] + i else 0) && candidate[n] == (g[n] > 0)
      requires 0 < ems0 < Count(candidate[..m])
      modifies `nspaces, `candidate
      ensures Valid() && |nspaces| == old(|nspaces|)
      ensures forall n :: m <= n < |nspaces| ==> nspaces[n] == old(nspaces[n])
      ensures Apiece(g, nspaces[..m], x, 2 + i) && Chosen(g, candidate[..m], x, 2 + i)
      ensures Sum(nspaces[..m]) + ems == old(Sum(nspaces[..m])) + ems0 && ems <= Count(candidate[..m])
    {
      hide Sum, Count;
      var maxgap := 2 + i;
      ems, x := ems0, 2 + i;
      ghost var wide := candidate[..m];
      var ncandidates := KeepNarrow(m, maxgap);
      ghost var narrow := candidate[..m];
      CountApart(narrow, wide);
      if ncandidates == 0 {
        NoneMarked(narrow);
        ncandidates := MarkWide(m);
        assert candidate[..m] == wide;
        maxgap := maxgap + 1;
      } else if ems >= ncandidates {
        ems := ems - ncandidates;
        ncandidates := FillNarrow(m, maxgap);
        assert candidate[..m] == Apart(narrow, wide);
      } else {
        x := 1 + i;
      }
    }

    /** The rest of justify after the gaps have all been widened by i. */
    method SpreadRest(ghost g: seq<int>, m: nat, ghost ems0: int, ems1: nat, i: nat, outparline: nat)
      requires Valid() && m == |g| <= |nspaces| && Natural(g) && exists n :: 0 <= n < m && g[n] > 0
      requires forall n :: 0 <= n < m ==> nspaces[n] == (if g[n] > 0 then g[n] + i else 0) && candidate[n] == (g[n] > 0)
      requires 0 < ems1 < Count(candidate[..m]) && Sum(nspaces[..m]) == Sum(g) + ems0 - ems1
      modifies `nspaces, `candidate
      ensures Valid() && |nspaces| == old(|nspaces|)
      ensures forall n :: m <= n < |nspaces| ==> nspaces[n] == old(nspaces[n])
      ensures Justified(g, nspaces[..m], ems0, outparline % 2 == 1)
    {
      hide Sum, Count, Apiece, Chosen, Justified;
      var ems, x := Choose(g, m, ems1, i);
      ghost var h := nspaces[..m];
      if ems > 0 {
        if outparline % 2 == 1 {
          SpreadRight(m, ems);
        } else {
          SpreadLeft(m, ems);
        }
      }
      SpreadJustifies(g, h, nspaces[..m], candidate[..m], outparline % 2 == 1, ems0, x, 2 + i);
    }
  }

  /** Marked in d but not in c. */
  function Apart(c: seq<bool>, d: seq<bool>): (r: seq<bool>)
    requires |c| == |d|
    ensures |r| == |c| && forall n :: 0 <= n < |r| ==> r[n] == (d[n] && !c[n])
  {
    seq(|c|, n requires 0 <= n < |c| => d[n] && !c[n])
  }

  lemma {:induction false} CountApart(c: seq<bool>, d: seq<bool>)
    requires |c| == |d| && forall n :: 0 <= n < |c| && c[n] ==> d[n]
    ensures Count(d) == Count(c) + Count(Apart(c, d))
  {
    if c != [] {
      var n := |c| - 1;
      CountApart(c[..n], d[..n]);
      assert Apart(c, d)[..n] == Apart(c[..n], d[..n]);
    }
  }

  lemma {:induction false} NoneMarked(c: seq<bool>)
    requires Count(c) == 0
    ensures forall n :: 0 <= n < |c| ==> !c[n]
  {
    if c != [] {
      NoneMarked(c[..|c| - 1]);
      assert forall n :: 0 <= n < |c| - 1 ==> c[n] == c[..|c| - 1][n];
    }
  }

  /** Gaps of widths one apart at most, of which some of one kind get another blank. */
  lemma SpreadJustifies(g: seq<int>, h: seq<int>, f: seq<int>, c: seq<bool>, odd: bool, ems: int, x: int,
                        y: int)
    requires Natural(g) && Spreads(h, f, c, |g|, odd) && |h| == |g|
    requires Sum(f) == Sum(g) + ems && exists n :: 0 <= n < |g| && g[n] > 0
    requires Apiece(g, h, x, y) && Chosen(g, c, x, y) && y >= 2
    ensures Justified(g, f, ems, odd)
  {
    hide Sum;
  }

  /** The candidates are the gaps that were the narrower, unless none are narrower now. */
  ghost predicate Chosen(g: seq<int>, c: seq<bool>, x: int, y: int) {
    && |c| == |g|
    && if x == y then forall n :: 0 <= n < |g| ==> (c[n] <==> g[n] == 2)
       else y == x + 1 && forall n :: 0 <= n < |g| ==> (c[n] <==> g[n] == 1)
  }

  /** Gaps once one wide are x wide, and those once two wide y. */
  ghost predicate Apiece(g: seq<int>, h: seq<int>, x: int, y: int) {
    && |h| == |g| && 1 <= x <= y
    && forall n :: 0 <= n < |g| ==> h[n] == if g[n] == 0 then 0 else if g[n] == 1 then x else y
  }

  /** Blanks spread over candidates among the first m gaps, one at most in each and the right or the left
      ones first. */
  ghost predicate Spreads(g: seq<int>, h: seq<int>, c: seq<bool>, m: nat, right: bool) {
    && |h| == |g| == |c| && m <= |g|
    && (forall n :: 0 <= n < |g| ==> g[n] <= h[n] <= g[n] + 1 && (!(n < m && c[n]) ==> h[n] == g[n]))
    && forall a, b :: 0 <= a < b < m && c[a] && c[b] ==>
         if right then h[a] - g[a] <= h[b] - g[b] else h[a] - g[a] >= h[b] - g[b]
  }

  lemma {:induction false} NoneWide(g: seq<int>, c: seq<bool>)
    requires |c| == |g| && forall n :: 0 <= n < |g| ==> c[n] == (g[n] > 0)
    ensures Count(c) == 0 <==> forall n :: 0 <= n < |g| ==> g[n] <= 0
  {
    if g != [] {
      NoneWide(g[..|g| - 1], c[..|g| - 1]);
      assert g[|g| - 1] == g[..][|g| - 1];
    }
  }
}
