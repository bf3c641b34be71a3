/** The compiler of patterns and the backtracking matcher that runs their byte code. */
module RegexEngine {
  import opened Pattern
  import opened Matching
  import Compiling
  import Searching

  /** The starred opcode of a single-character item, or the plain one. */
  function Opcode(it: Item): int {
    match it
    case One(Lit(_)) => CCHR
    case One(Dot) => CDOT
    case One(Class(negated, _)) => if negated then NCCL else CCL
    case Star(Lit(_)) => CCHR + CSTAR
    case Star(Dot) => CDOT + CSTAR
    case Star(Class(negated, _)) => (if negated then NCCL else CCL) + CSTAR
    case Open(_) => CBRA
    case Close(_) => CKET
    case Back(_) => CBACK
    case BackStar(_) => CBACK + CSTAR
    case Dollar => CDOL
  }

  lemma CodeHead(items: seq<Item>)
    ensures Code(items) != []
    ensures items == [] ==> Code(items) == [CEOF, 0]
    ensures items != [] ==> Code(items) == ItemCode(items[0]) + Code(items[1..])
                            && Code(items)[0] == Opcode(items[0])
  {
    if items != [] {
      var c := ItemCode(items[0]);
      assert c[0] == Opcode(items[0]);
      assert Code(items) == c + Code(items[1..]) by {
        hide ItemCode;
        assert Code(items) == (c + ItemsCode(items[1..])) + [CEOF, 0];
      }
    }
  }

  lemma BareCode(items: seq<Item>)
    ensures Code(items)[0] == CEOF <==> items == []
    ensures Code(items)[0] == CDOL && |Code(items)| > 1 && Code(items)[1] == CEOF <==> items == [Dollar]
    ensures |Code(items)| > 1
  {
    CodeHead(items);
    if items != [] && items[0] == Dollar {
      CodeHead(items[1..]);
      assert items == [Dollar] + items[1..];
    }
  }

  lemma Regrouped(x: seq<int>, y: seq<int>, z: seq<int>)
    ensures x + (y + z) == x + y + z
  {
  }

  /** A pattern that begins with a plain character matches only where that character is. */
  lemma FirstCharacter(items: seq<Item>, s: Text, p: nat)
    requires Code(items)[0] == CCHR
    ensures |Code(items)| > 1
    ensures At(s, p) != Code(items)[1] ==> NoPath(items, s, UNSEEN, p)
  {
    CodeHead(items);
  }

  class Regex {
    var expbuf: seq<int>            // the compiled pattern
    var circf: bool                 // it began with ^
    const braslist: array<int>      // where each group begins
    const braelist: array<int>      // where each group ends
    var matched: Text               // a copy of the matched part
    ghost var items: seq<Item>      // the pattern compiled last

    constructor ()
      ensures Valid() && fresh(braslist) && fresh(braelist)
      ensures expbuf == [0]
    {
      expbuf, circf, matched, items := [0], false, [], [];
      braslist := new int[NBRA](_ => NIL);
      braelist := new int[NBRA](_ => NIL);
    }

    ghost predicate Valid()
      reads this
    {
      braslist.Length == NBRA && braelist.Length == NBRA && braslist != braelist
    }

    ghost function Captures(): Caps
      reads this, braslist, braelist
    {
      Caps(braslist[..], braelist[..])
    }

    /** re_cclass: is c in the stored set (af), or out of it (!af)?  The final NUL is neither. */
    method CClass(at: nat, c: int, af: bool) returns (r: bool)
      requires at < |expbuf| && 1 <= expbuf[at] && at + expbuf[at] <= |expbuf|
      ensures r == (c != 0 && af == (c in expbuf[at + 1..at + expbuf[at]]))
    {
      if c == 0 {
        return false;
      }
      var n, i := expbuf[at] - 1, at + 1;
      while n != 0
        invariant 0 <= n < expbuf[at] && i + n == at + expbuf[at]
        invariant c !in expbuf[at + 1..i]
      {
        if expbuf[i] == c {
          assert expbuf[at + 1..at + expbuf[at]][i - (at + 1)] == c;
          return af;
        }
        i, n := i + 1, n - 1;
      }
      return !af;
    }

    /** re_backref: does the text of group i recur at lp? */
    method BackRef(s: Text, i: nat, lp: nat) returns (r: bool)
      requires Valid() && i < NBRA && lp <= |s|
      requires 0 <= braslist[i] <= braelist[i] <= lp
      ensures r == exists q :: Copies(s, braslist[i], braelist[i], lp, q)
      ensures r ==> Copies(s, braslist[i], braelist[i], lp, lp + (braelist[i] - braslist[i]))
    {
      var a, b := braslist[i], braelist[i];
      var bp, p := a, lp;
      while true
        invariant a <= bp && p == lp + (bp - a) && p <= |s| && (bp == a || bp < b)
        invariant forall j {:trigger s[j]} :: a <= j < bp ==> s[j] == s[j - a + lp]
        decreases |s| - p
      {
        if At(s, bp) != At(s, p) {
          forall q: nat
            ensures !Copies(s, a, b, lp, q)
          {
            CopiesAt(s, a, b, lp, q, bp - a);
          }
          return false;
        }
        bp, p := bp + 1, p + 1;
        if bp >= b {
          CopiesMade(s, a, b, lp);
          return true;
        }
      }
    }

    /** The cases of re_advance that take one character: does the item at ep take s[lp]? */
    method TakeOne(s: Text, lp: nat, ep: nat, ghost x: Single, ghost rest: seq<Item>)
      returns (ok: bool, next: nat)
      requires lp <= |s| && ep <= |expbuf| && expbuf[ep..] == SingleCode(x, 0) + Code(rest)
      requires SingleFits(x)
      ensures ok == (lp < |s| && Has(x, s[lp]))
      ensures ep < next <= |expbuf| && expbuf[next..] == Code(rest)
    {
      Split(expbuf, ep, SingleCode(x, 0), Code(rest));
      hide Code, Members, Names, Chained;
      match expbuf[ep] {
        case 2 =>  // CCHR
          ok, next := expbuf[ep + 1] == At(s, lp), ep + 2;
        case 4 =>  // CDOT
          ok, next := At(s, lp) != 0, ep + 1;
        case _ =>  // CCL, NCCL
          ok := ClassTakes(s, lp, ep, x.negated, x.elems);
          next := ep + 1 + expbuf[ep + 1];
      }
    }

    /** A stored class, plain or starred, against s[lp]. */
    method ClassTakes(s: Text, lp: nat, ep: nat, ghost negated: bool, ghost elems: seq<Elem>)
      returns (ok: bool)
      requires lp <= |s| && ep + 2 + |Members(elems)| <= |expbuf|
      requires expbuf[ep..ep + 2 + |Members(elems)|] == [expbuf[ep], |Members(elems)| + 1] + Members(elems)
      requires expbuf[ep] / 2 * 2 == (if negated then NCCL else CCL) && Chained(elems, 0)
      ensures ok == (lp < |s| && negated != Names(elems, s[lp]))
      ensures expbuf[ep + 1] == |Members(elems)| + 1
    {
      hide Members, Names, Chained;
      ghost var stored := expbuf[ep..ep + 2 + |Members(elems)|];
      assert expbuf[ep + 1] == stored[1];
      assert expbuf[ep + 2..ep + 2 + |Members(elems)|] == stored[2..] == Members(elems);
      ok := CClass(ep + 1, At(s, lp), expbuf[ep] == CCL || expbuf[ep] == CCL + CSTAR);
      if lp < |s| {
        MembersHave(elems, 0, s[lp]);
      }
    }

    /** The scanning loops of the starred cases: `end` is one past the furthest end of the star. */
    method StarEnd(s: Text, lp: nat, ep: nat, ghost x: Single, ghost rest: seq<Item>)
      returns (end: nat, next: nat)
      requires lp <= |s| && ep <= |expbuf| && expbuf[ep..] == SingleCode(x, CSTAR) + Code(rest)
      requires SingleFits(x)
      ensures lp < end <= |s| + 1
      ensures forall i: nat :: lp <= i < end - 1 ==> Has(x, s[i])
      ensures end <= |s| ==> !Has(x, s[end - 1])
      ensures ep < next <= |expbuf| && expbuf[next..] == Code(rest)
    {
      Split(expbuf, ep, SingleCode(x, CSTAR), Code(rest));
      hide Code, Members, Names, Chained;
      end := lp;
      match expbuf[ep] {
        case 3 =>  // CCHR|CSTAR
          end := LitEnd(s, lp, expbuf[ep + 1]);
          next := ep + 2;
        case 5 =>  // CDOT|CSTAR
          while At(s, end) != 0
            invariant lp <= end <= |s|
            decreases |s| - end
          {
            end := end + 1;
          }
          next := ep + 1;
        case _ =>  // CCL|CSTAR, NCCL|CSTAR
          end, next := ClassEnd(s, lp, ep, x.negated, x.elems);
      }
      end := end + 1;
    }

    method LitEnd(s: Text, lp: nat, c: Ch) returns (end: nat)
      requires lp <= |s|
      ensures lp <= end <= |s|
      ensures forall i: nat :: lp <= i < end ==> s[i] == c
      ensures end < |s| ==> s[end] != c
    {
      end := lp;
      while At(s, end) == c
        invariant lp <= end <= |s|
        invariant forall i: nat :: lp <= i < end ==> s[i] == c
        decreases |s| - end
      {
        end := end + 1;
      }
    }

    method ClassEnd(s: Text, lp: nat, ep: nat, ghost negated: bool, ghost elems: seq<Elem>)
      returns (end: nat, next: nat)
      requires lp <= |s| && ep + 2 + |Members(elems)| <= |expbuf|
      requires expbuf[ep..ep + 2 + |Members(elems)|] == [expbuf[ep], |Members(elems)| + 1] + Members(elems)
      requires expbuf[ep] / 2 * 2 == (if negated then NCCL else CCL) && Chained(elems, 0)
      ensures lp <= end <= |s|
      ensures forall i: nat :: lp <= i < end ==> negated != Names(elems, s[i])
      ensures end < |s| ==> negated == Names(elems, s[end])
      ensures next == ep + 2 + |Members(elems)|
    {
      hide Members, Names, Chained;
      end := lp;
      var takes := ClassTakes(s, end, ep, negated, elems);
      while takes
        invariant lp <= end <= |s|
        invariant forall i: nat :: lp <= i < end ==> negated != Names(elems, s[i])
        invariant takes == (end < |s| && negated != Names(elems, s[end]))
        decreases |s| - end, takes
      {
        end := end + 1;
        takes := ClassTakes(s, end, ep, negated, elems);
      }
      next := ep + 1 + expbuf[ep + 1];
    }

    /** The label `star`: try the rest of the pattern from each end of the star, the furthest
        first.  `q` is the end that succeeds. */
    method TryEnds(s: Text, curlp: nat, end: nat, ep: nat,
                   ghost rest: seq<Item>, ghost open: set<nat>, ghost closed: set<nat>)
      returns (rv: int, last: nat, ghost q: nat, ghost tail: seq<nat>)
      requires Valid() && curlp < end <= |s| + 1
      requires ep <= |expbuf| && expbuf[ep..] == Code(rest) && Fits(rest)
      requires Sound(rest, open, closed) && Placed(open, closed, Captures(), curlp)
      modifies braslist, braelist
      ensures rv == 0 || rv == 1
      ensures SameOutside(rest, old(Captures()), Captures())
      ensures rv == 0 ==> forall r: nat :: curlp <= r < end ==> NoPath(rest, s, old(Captures()), r)
      ensures rv == 1 ==>
        && curlp <= q < end
        && (forall r: nat :: q < r < end ==> NoPath(rest, s, old(Captures()), r))
        && Greediest(rest, s, old(Captures()), q, tail) && last == Final(q, tail)
        && Agree(OpenAfter(rest, open), ClosedAfter(rest, closed),
                 CapsAlong(rest, old(Captures()), q, tail), Captures())
      decreases |rest|, 2
    {
      hide Sound, IsPath, NoPath, Code, Fits, CapsAlong, OpenAfter, ClosedAfter;
      ghost var k := Captures();
      var lp := end;
      while true
        invariant curlp < lp <= end
        invariant SameOutside(rest, k, Captures())
        invariant forall r: nat :: lp <= r < end ==> NoPath(rest, s, k, r)
        decreases lp
      {
        lp := lp - 1;
        ghost var now := Captures();
        SoundKeeps(rest, open, closed, k, now);
        rv, last, tail := Advance(s, lp, ep, rest, open, closed);
        if rv != 0 {
          GreediestAgree(rest, s, now, k, lp, tail, open, closed);
          PathAgree(rest, s, now, k, lp, tail, open, closed);
          return rv, last, lp, tail;
        }
        NoPathAgree(rest, s, now, k, lp, open, closed);
        if lp <= curlp {
          return 0, 0, 0, [];
        }
      }
    }

    /** The case of re_advance for a starred back reference, when the group is not empty and the rest of
        the pattern is sound: tries the rest after as many copies as there are, and then after fewer.  If
        none will do, it does not fail: it goes on with the rest from the length of a copy before the
        place it began at.  j is the number of copies, or less than none. */
    method StarBack(s: Text, curlp: nat, ep: nat, i: nat,
                    ghost rest: seq<Item>, ghost open: set<nat>, ghost closed: set<nat>)
      returns (rv: int, last: nat, ghost j: int, ghost tail: seq<nat>)
      requires Valid() && i < NBRA && 0 <= braslist[i] < braelist[i] <= curlp <= |s|
      requires ep <= |expbuf| && expbuf[ep..] == Code(rest) && Fits(rest)
      requires Sound(rest, open, closed) && Placed(open, closed, Captures(), curlp - (braelist[i] - braslist[i]))
      modifies braslist, braelist
      ensures rv == 0 || rv == 1
      ensures var k, a, b := old(Captures()), old(braslist[i]), old(braelist[i]);
              if rv == 0 then
                && (forall m: nat :: Recurs(s, a, b, curlp, m) ==> NoPath(rest, s, k, Along(curlp, b - a, m)))
                && NoPath(rest, s, k, curlp - (b - a))
              else
                && (j >= 0 ==> Recurs(s, a, b, curlp, j))
                && (forall m: nat :: j < m && Recurs(s, a, b, curlp, m) ==> NoPath(rest, s, k, Along(curlp, b - a, m)))
                && var q := if j >= 0 then Along(curlp, b - a, j) else curlp - (b - a);
                   0 <= q <= |s| && Greediest(rest, s, k, q, tail) && last == Final(q, tail)
    {
      hide Sound, IsPath, NoPath, Code, Fits, CapsAlong, OpenAfter, ClosedAfter, Copies, Recurs, Greediest;
      ghost var k, a, b := Captures(), braslist[i], braelist[i];
      var lp, ct := curlp, braelist[i] - braslist[i];
      ghost var most;
      lp, most := CopiesEnd(s, curlp, i);
      j := most;
      while lp >= curlp
        invariant -1 <= j <= most && lp == (if j >= 0 then Along(curlp, ct, j) else curlp - ct) && lp <= |s|
        invariant j >= 0 ==> lp >= curlp
        invariant SameOutside(rest, k, Captures())
        invariant forall m: nat :: j < m && Recurs(s, a, b, curlp, m) ==> NoPath(rest, s, k, Along(curlp, ct, m))
        decreases j
      {
        rv, last, tail := AdvanceAgain(s, lp, ep, rest, open, closed, k);
        if rv != 0 {
          RecursLess(s, a, b, curlp, j, most);
          return;
        }
        if j > 0 {
          RecursNext(s, a, b, curlp, j - 1);
        }
        lp, j := lp - ct, j - 1;
      }
      rv, last, tail := AdvanceAgain(s, lp, ep, rest, open, closed, k);
    }

    /** The end of the copies of group i from curlp on, and how many there are. */
    method CopiesEnd(s: Text, curlp: nat, i: nat) returns (lp: nat, ghost most: nat)
      requires Valid() && i < NBRA && 0 <= braslist[i] < braelist[i] <= curlp <= |s|
      ensures lp <= |s| && lp == Along(curlp, braelist[i] - braslist[i], most)
      ensures forall m: nat :: Recurs(s, braslist[i], braelist[i], curlp, m) <==> m <= most
    {
      hide Copies;
      ghost var a, b := braslist[i], braelist[i];
      var ct := braelist[i] - braslist[i];
      lp, most := curlp, 0;
      var again := BackRef(s, i, lp);
      while again
        invariant curlp <= lp <= |s| && lp == Along(curlp, ct, most) && Recurs(s, a, b, curlp, most)
        invariant again <==> Copies(s, a, b, lp, lp + ct)
        decreases |s| - lp, again
      {
        CopiesEnds(s, a, b, lp);
        RecursNext(s, a, b, curlp, most);
        lp, most := lp + ct, most + 1;
        again := BackRef(s, i, lp);
        CopiesOnce(s, a, b, lp);
      }
      RecursNext(s, a, b, curlp, most);
      forall m: nat
        ensures Recurs(s, a, b, curlp, m) <==> m <= most
      {
        if m <= most {
          RecursLess(s, a, b, curlp, m, most);
        } else if Recurs(s, a, b, curlp, m) {
          RecursLess(s, a, b, curlp, most + 1, m);
        }
      }
    }

    lemma CopiesEnds(s: Text, a: nat, b: nat, p: nat)
      requires a <= b && Copies(s, a, b, p, p + (b - a)) && p <= |s|
      ensures p + (b - a) <= |s|
    {
    }

    lemma CopiesOnce(s: Text, a: nat, b: nat, p: nat)
      requires a <= b
      ensures (exists q :: Copies(s, a, b, p, q)) <==> Copies(s, a, b, p, p + (b - a))
    {
    }

    /** re_advance once more, whatever the attempts since k have written. */
    method AdvanceAgain(s: Text, lp: nat, ep: nat, ghost rest: seq<Item>, ghost open: set<nat>, ghost closed: set<nat>,
                        ghost k: Caps)
      returns (rv: int, last: nat, ghost tail: seq<nat>)
      requires Valid() && lp <= |s| && ep <= |expbuf| && expbuf[ep..] == Code(rest) && Fits(rest)
      requires Sound(rest, open, closed) && Placed(open, closed, k, lp) && SameOutside(rest, k, Captures())
      modifies braslist, braelist
      ensures rv == 0 || rv == 1
      ensures SameOutside(rest, k, Captures())
      ensures if rv == 0 then NoPath(rest, s, k, lp) else Greediest(rest, s, k, lp, tail) && last == Final(lp, tail)
    {
      hide Sound, IsPath, NoPath, Code, Fits, CapsAlong, OpenAfter, ClosedAfter;
      ghost var now := Captures();
      SoundKeeps(rest, open, closed, k, now);
      rv, last, tail := Advance(s, lp, ep, rest, open, closed);
      if rv != 0 {
        GreediestAgree(rest, s, now, k, lp, tail, open, closed);
      } else {
        NoPathAgree(rest, s, now, k, lp, open, closed);
      }
    }

    /** The cases of re_advance for group marks. */
    method StepMark(lp: nat, ep: nat, ghost g: Searching.Goal, ghost w: Searching.Point)
      returns (ghost w2: Searching.Point)
      requires Valid() && w.k == Captures() && w.p == lp && w.ep == ep
      requires Searching.Stands(g, w, expbuf) && w.left != [] && (w.left[0].Open? || w.left[0].Close?)
      modifies braslist, braelist
      ensures w2.k == Captures() && w2.p == lp && w2.ep == ep + 2 && Searching.Stands(g, w2, expbuf)
      ensures |w2.left| < |w.left|
    {
      hide Sound, Fits, OpenAfter, ClosedAfter, Forced, CapsAlong, Has, IsPath, Placed, SameOutside;
      CodeHead(w.left);
      Searching.HeadKind(g, w, expbuf);
      assert expbuf[ep] == expbuf[ep..][0] && expbuf[ep + 1] == expbuf[ep..][1] == w.left[0].n;
      w2 := Searching.Pass(g, w, expbuf, lp, ep + 2);
      if expbuf[ep] == CBRA {
        braslist[expbuf[ep + 1]] := lp;
      } else {
        braelist[expbuf[ep + 1]] := lp;
      }
    }

    /** The case of re_advance for a back reference. */
    method StepBack(s: Text, lp: nat, ep: nat, ghost g: Searching.Goal, ghost w: Searching.Point)
      returns (ok: bool, lp2: nat, ghost w2: Searching.Point)
      requires Valid() && w.k == Captures() && w.p == lp && w.ep == ep && g.s == s
      requires Searching.Stands(g, w, expbuf) && w.left != [] && w.left[0].Back?
      ensures ok ==> w2.k == Captures() && w2.p == lp2 && w2.ep == ep + 2 && Searching.Stands(g, w2, expbuf)
      ensures ok ==> |w2.left| < |w.left|
      ensures !ok ==> NoPath(g.items, s, g.k, g.p)
    {
      hide Sound, Fits, OpenAfter, ClosedAfter, Forced, CapsAlong, Has, IsPath, Placed, SameOutside, NoPath;
      CodeHead(w.left);
      Searching.HeadKind(g, w, expbuf);
      Split(expbuf, ep, ItemCode(w.left[0]), Code(w.left[1..]));
      assert expbuf[ep + 1] == expbuf[ep..][1] == w.left[0].n;
      var i := expbuf[ep + 1];
      assert braelist[i] != NIL;  // the group is closed, so re_advance does not give up here
      lp2, w2 := lp + (braelist[i] - braslist[i]), w;
      ok := BackRef(s, i, lp);
      if !ok {
        Searching.AtDeadEnd(g, w, expbuf);
      } else {
        assert Step(w.left[0], s, w.k, lp, lp2) && forall q :: Step(w.left[0], s, w.k, lp, q) ==> q == lp2;
        hide Step;
        w2 := Searching.Pass(g, w, expbuf, lp2, ep + 2);
      }
    }

    /** re_advance: match the byte code at ep0 against s from lp0.  It returns 1 and the end of the
        greediest match, its group boundaries recorded, or 0 when there is no match. */
    method Advance(s: Text, lp0: nat, ep0: nat,
                   ghost items: seq<Item>, ghost open: set<nat>, ghost closed: set<nat>)
      returns (rv: int, last: nat, ghost path: seq<nat>)
      requires Valid() && lp0 <= |s|
      requires ep0 <= |expbuf| && expbuf[ep0..] == Code(items) && Fits(items)
      requires Sound(items, open, closed) && Placed(open, closed, Captures(), lp0)
      modifies braslist, braelist
      ensures rv == 0 || rv == 1
      ensures SameOutside(items, old(Captures()), Captures())
      ensures rv == 0 ==> NoPath(items, s, old(Captures()), lp0)
      ensures rv == 1 ==>
        && Greediest(items, s, old(Captures()), lp0, path) && last == Final(lp0, path)
        && Agree(OpenAfter(items, open), ClosedAfter(items, closed),
                 CapsAlong(items, old(Captures()), lp0, path), Captures())
      decreases |items|, 1
    {
      hide Sound, Fits, OpenAfter, ClosedAfter, Forced, CapsAlong, Has, IsPath, ItemCode;
      ghost var g := Searching.Goal(items, open, closed, s, Captures(), lp0);
      ghost var w := Searching.Point([], items, open, closed, g.k, lp0, ep0);
      var lp, ep := lp0, ep0;
      Searching.Start(g, w, expbuf);
      while true
        invariant w.k == Captures() && w.p == lp && w.ep == ep && Searching.Stands(g, w, expbuf)
        decreases |w.left|
      {
        CodeHead(w.left);
        assert expbuf[ep] == expbuf[ep..][0];
        if expbuf[ep] == CEOF {
          Searching.AtEnd(g, w, expbuf);
          return 1, lp, w.done;
        } else if expbuf[ep] == CBRA || expbuf[ep] == CKET {
          w := StepMark(lp, ep, g, w);
          ep := ep + 2;
        } else if expbuf[ep] == CDOL {
          if At(s, lp) != 0 {
            Searching.AtDeadEnd(g, w, expbuf);
            return 0, 0, [];
          }
          w := Searching.PassDollar(g, w, expbuf);
          ep := ep + 1;
        } else if expbuf[ep] == CBACK {
          var ok;
          ok, lp, w := StepBack(s, lp, ep, g, w);
          if !ok {
            return 0, 0, [];
          }
          ep := ep + 2;
        } else if expbuf[ep] in {CCHR, CDOT, CCL, NCCL} {
          Searching.HeadSingle(g, w, expbuf);
          var ok, next := TakeOne(s, lp, ep, w.left[0].x, w.left[1..]);
          if !ok {
            Searching.AtDeadEnd(g, w, expbuf);
            return 0, 0, [];
          }
          w := Searching.Pass(g, w, expbuf, lp + 1, next);
          lp, ep := lp + 1, next;
        } else {
          Searching.HeadKind(g, w, expbuf);
          Searching.HeadSingle(g, w, expbuf);
          ghost var x, rest := w.left[0].x, w.left[1..];
          var end, next := StarEnd(s, lp, ep, x, rest);
          ghost var q, tail;
          rv, last, q, tail := TryEnds(s, lp, end, next, rest, w.open, w.closed);
          if rv == 0 {
            Searching.StarDead(g, w, expbuf, end);
            return 0, 0, [];
          }
          path := Searching.StarWon(g, w, expbuf, end, q, tail);
          return;
        }
      }
    }

    // ----- compiling -----

    /** Stores the members after the last one stored, up to c. */
    method Fill(c: int, count: int) returns (cclcnt: int)
      requires expbuf != []
      modifies `expbuf
      ensures expbuf == old(expbuf) + Run(old(expbuf)[|old(expbuf)| - 1] + 1, c)
      ensures cclcnt == count + |expbuf| - |old(expbuf)|
    {
      ghost var last := expbuf[|expbuf| - 1];
      cclcnt := count;
      while expbuf[|expbuf| - 1] < c
        invariant expbuf != [] && last <= expbuf[|expbuf| - 1]
        invariant if last < c then expbuf[|expbuf| - 1] <= c else expbuf == old(expbuf)
        invariant expbuf == old(expbuf) + Run(last + 1, expbuf[|expbuf| - 1])
        invariant cclcnt == count + |expbuf| - |old(expbuf)|
        decreases c - expbuf[|expbuf| - 1]
      {
        expbuf, cclcnt := expbuf + [expbuf[|expbuf| - 1] + 1], cclcnt + 1;
      }
    }

    /** Stores one part of a class: the character c, or the rest of the range up to c. */
    method StorePart(range: bool, c: Ch, count: int) returns (cclcnt: int, ghost e: Elem)
      requires expbuf != [] && 0 <= expbuf[|expbuf| - 1] < 128 && (range ==> expbuf[|expbuf| - 1] != 0)
      modifies `expbuf
      ensures e == if range then Range(old(expbuf)[|old(expbuf)| - 1], c) else Only(c)
      ensures expbuf == old(expbuf) + Stored(e) && expbuf[|expbuf| - 1] == c
      ensures cclcnt == count + |Stored(e)|
    {
      e := if range then Range(expbuf[|expbuf| - 1], c) else Only(c);
      cclcnt := count;
      if range {
        cclcnt := Fill(c, cclcnt);
      }
      expbuf, cclcnt := expbuf + [c], cclcnt + 1;
    }

    /** The loop that stores the members of a class, from sp[i0] to the closing bracket. */
    method CompMembers(sp: Text, i0: nat) returns (i: nat, cclcnt: int, report: Report, ghost elems: seq<Elem>)
      requires i0 <= |sp| && expbuf != [] && expbuf[|expbuf| - 1] == 0
      requires ParseElems(sp[i0..], 0) != Err(RunsOff)
      modifies `expbuf
      ensures match ParseElems(sp[i0..], 0)
              case Err(e) => report == Rejected(e)
              case Ok(v) => report == Accepted && elems == v.elems && i0 < i <= |sp| && v.rest == sp[i..]
                            && expbuf == old(expbuf) + Members(elems) && cclcnt == |Members(elems)| + 1
      ensures |old(expbuf)| <= |expbuf|
    {
      hide ParseElems, ParseMore, PrependElems, Members, Stored;
      var c := At(sp, i0);
      i, cclcnt, elems := i0 + 1, 1, [];
      Compiling.ReadNoMember(ParseElems(sp[i0..], 0));
      while true
        invariant i0 < i <= |sp| + 1 && c == At(sp, i - 1)
        invariant expbuf == old(expbuf) + Members(elems) && cclcnt == |Members(elems)| + 1
        invariant 0 <= expbuf[|expbuf| - 1] < 128
        invariant ParseElems(sp[i0..], 0) == PrependElems(elems, ParseElems(sp[i - 1..], expbuf[|expbuf| - 1]))
        decreases |sp| + 1 - i
      {
        ghost var t, last := sp[i - 1..], expbuf[|expbuf| - 1];
        Compiling.ReadMember(elems, t, last);
        if c == 0 {
          return i, cclcnt, Rejected(MissingBracket), [];
        }
        var range := c == '-' as int && expbuf[|expbuf| - 1] != 0;
        if range {
          c, i := At(sp, i), i + 1;
        }
        ghost var e;
        cclcnt, e := StorePart(range && c != ']' as int, if range && c == ']' as int then '-' as int else c, cclcnt);
        MembersSnoc(elems, e);
        Regrouped(old(expbuf), Members(elems), Stored(e));
        elems := elems + [e];
        if range && c == ']' as int {
          assert sp[i..] == t[2..];
          return i, cclcnt, Accepted, elems;
        }
        assert sp[i..] == if range then t[2..] else t[1..];
        Compiling.ReadMoreMembers(elems, sp[i..], c);
        c, i := At(sp, i), i + 1;
        if c == ']' as int {
          return i, cclcnt, Accepted, elems;
        }
      }
    }

    /** The case '[' of re_comp: reads a class from sp[i0..] and stores it. */
    method CompClass(sp: Text, i0: nat) returns (i: nat, report: Report, ghost elems: seq<Elem>)
      requires 1 <= i0 <= |sp|
      requires var negated := i0 < |sp| && sp[i0] == '^' as int;
               ParseElems(sp[if negated then i0 + 1 else i0..], 0) != Err(RunsOff)
      modifies `expbuf
      ensures var negated := i0 < |sp| && sp[i0] == '^' as int;
              match ParseElems(sp[if negated then i0 + 1 else i0..], 0)
              case Err(e) => report == Rejected(e)
              case Ok(v) => report == Accepted && elems == v.elems && i0 < i <= |sp| && v.rest == sp[i..]
                            && expbuf == old(expbuf) + SingleCode(Class(negated, elems), 0)
    {
      hide ParseElems, Members;
      var base := |expbuf|;
      expbuf := expbuf + [CCL, 0];
      i := i0;
      if At(sp, i0) == '^' as int {
        i := i0 + 1;
        expbuf := expbuf[base := NCCL];
      }
      var cclcnt;
      i, cclcnt, report, elems := CompMembers(sp, i);
      expbuf := expbuf[base + 1 := cclcnt];
    }

    /** The case '\\' of re_comp, after the backslash: sp[i - 1] is the character it escapes. */
    method CompEscape(sp: Text, i: nat, numbra: nat, bracket: seq<nat>, ghost done: seq<Item>)
      returns (report: Report, numbra2: nat, bracket2: seq<nat>, ghost it: Item)
      requires 2 <= i <= |sp| && sp[i - 2] == '\\' as int && numbra <= NBRA
      modifies `expbuf
      ensures match report
              case Rejected(e) => ParseSeq(sp[i - 2..], numbra, bracket) == Err(e)
              case Accepted =>
                && expbuf == old(expbuf) + ItemCode(it) && numbra2 <= NBRA
                && (Compiling.Starable(it) || it.Open? || it.Close?)
                && (Compiling.Starable(it) ==> numbra2 == numbra && bracket2 == bracket)
                && ParseSeq(sp[i - 2..], numbra, bracket)
                   == (if Compiling.Starable(it) then ParseAtom(it, sp[i..], numbra2, bracket2)
                       else Prepend(it, ParseSeq(sp[i..], numbra2, bracket2)))
    {
      ghost var t := sp[i - 2..];
      assert t[0] == sp[i - 2] && t[1] == sp[i - 1] && t[2..] == sp[i..];
      var c := sp[i - 1];
      report, numbra2, bracket2, it := Accepted, numbra, bracket, Dollar;
      if c == '(' as int {
        if numbra >= NBRA {
          return Rejected(TooManyGroups), numbra, bracket, it;
        }
        bracket2 := bracket + [numbra];
        expbuf := expbuf + [CBRA, numbra];
        it, numbra2 := Open(numbra), numbra + 1;
      } else if c == ')' as int {
        if bracket == [] {
          return Rejected(UnmatchedClose), numbra, bracket, it;
        }
        bracket2 := bracket[..|bracket| - 1];
        expbuf := expbuf + [CKET, bracket[|bracket| - 1]];
        it := Close(bracket[|bracket| - 1]);
      } else if '1' as int <= c < '1' as int + NBRA {
        expbuf := expbuf + [CBACK, c - '1' as int];
        it := Back(c - '1' as int);
      } else {
        expbuf := expbuf + [CCHR, c];
        it := One(Lit(c));
      }
    }

    /** The cases of re_comp that read one plain character, or $. */
    method CompPlain(sp: Text, i: nat, numbra: nat, bracket: seq<nat>) returns (ghost it: Item)
      requires 1 <= i <= |sp| && numbra <= NBRA
      requires sp[i - 1] != '\\' as int && sp[i - 1] != '[' as int && sp[i - 1] != '*' as int
      modifies `expbuf
      ensures expbuf == old(expbuf) + ItemCode(it)
      ensures Compiling.Starable(it) || it.Dollar?
      ensures Compiling.Starable(it) ==>
                ParseSeq(sp[i - 1..], numbra, bracket) == ParseAtom(it, sp[i..], numbra, bracket)
      ensures it.Dollar? ==>
                i == |sp| && ParseSeq(sp[i - 1..], numbra, bracket) == Prepend(it, ParseSeq(sp[i..], numbra, bracket))
    {
      ghost var t := sp[i - 1..];
      assert t[0] == sp[i - 1] && t[1..] == sp[i..];
      var c := sp[i - 1];
      if c == '.' as int {
        expbuf := expbuf + [CDOT];
        it := One(Dot);
      } else if c == '$' as int && i == |sp| {
        assert sp[i..] == [];
        expbuf := expbuf + [CDOL];
        it := Dollar;
      } else {
        expbuf := expbuf + [CCHR, c];
        it := One(Lit(c));
      }
    }

    /** The case '*' of re_comp after an item that can be starred, whose code is at lastep. */
    method CompStar(lastep: nat, ghost done: seq<Item>) returns (ghost starred: seq<Item>)
      requires done != [] && Compiling.Starable(done[|done| - 1]) && expbuf == ItemsCode(done)
      requires lastep == |ItemsCode(done[..|done| - 1])|
      modifies `expbuf
      ensures starred == done[..|done| - 1] + [Starred(done[|done| - 1])]
      ensures starred[..|starred| - 1] == done[..|done| - 1] && Compiling.Starable(starred[|starred| - 1])
      ensures expbuf == ItemsCode(starred)
    {
      hide ItemsCode, Compiling.SetStar;
      ghost var init, last := done[..|done| - 1], done[|done| - 1];
      assert init + [last] == done;
      Compiling.StarredCode(init, last);
      expbuf := expbuf[lastep := Compiling.SetStar(expbuf[lastep])];
      starred := init + [Starred(last)];
      assert starred[..|starred| - 1] == init;
    }

    /** The case '*' of re_comp: the last item is repeated, or the star stands for itself. */
    method CompRepeat(lastep: int, ghost done: seq<Item>, ghost pending: bool, ghost t: Text, ghost numbra: nat,
                      ghost bracket: seq<nat>) returns (ghost after: seq<Item>)
      requires expbuf == ItemsCode(done) && t != [] && t[0] == '*' as int
      requires pending ==> done != [] && Compiling.Starable(done[|done| - 1])
                           && lastep == |ItemsCode(done[..|done| - 1])|
      requires !pending ==> lastep == NIL || (0 <= lastep < |expbuf| && expbuf[lastep] in {CBRA, CKET})
      modifies `expbuf
      ensures expbuf == ItemsCode(after)
      ensures pending ==> after != [] && Compiling.Starable(after[|after| - 1])
                          && lastep == |ItemsCode(after[..|after| - 1])|
      ensures !pending && lastep != NIL ==> 0 <= lastep < |expbuf| && expbuf[lastep] in {CBRA, CKET}
      ensures Compiling.Resume(done, pending, t, numbra, bracket)
           == Compiling.Resume(after, pending, t[1..], numbra, bracket)
    {
      hide ItemsCode, Compiling.Resume, Compiling.Starable, Starred;
      Compiling.LastCode(done, pending);
      if lastep == NIL || expbuf[lastep] == CBRA || expbuf[lastep] == CKET {
        Compiling.ReadLiteralStar(done, pending, t, numbra, bracket);
        Compiling.Append(done, One(Lit('*' as int)));
        expbuf := expbuf + [CCHR, '*' as int];
        after := done + [One(Lit('*' as int))];
      } else {
        Compiling.ReadStar(done, t, numbra, bracket);
        after := CompStar(lastep, done);
      }
    }

    /** The cases of re_comp other than '*': compiles the item at sp[i0]. */
    method CompItem(sp: Text, i0: nat, numbra0: nat, bracket0: seq<nat>, ghost done: seq<Item>, ghost pending: bool)
      returns (i: nat, report: Report, numbra: nat, bracket: seq<nat>, ghost it: Item)
      requires i0 < |sp| && sp[i0] != '*' as int && numbra0 <= NBRA && (pending ==> done != [])
      requires Compiling.Resume(done, pending, sp[i0..], numbra0, bracket0) != Err(RunsOff)
      modifies `expbuf
      ensures report.Rejected? ==>
                Compiling.Resume(done, pending, sp[i0..], numbra0, bracket0) == Err(report.error)
      ensures report.Accepted? ==>
                && expbuf == old(expbuf) + ItemCode(it) && i0 < i <= |sp| && numbra <= NBRA
                && Compiling.Resume(done, pending, sp[i0..], numbra0, bracket0)
                   == Compiling.Resume(done + [it], Compiling.Starable(it), sp[i..], numbra, bracket)
                && (Compiling.Starable(it) || i == |sp| || it.Open? || it.Close?)
    {
      hide Compiling.Resume, ParseAtom, ParseElems;
      ghost var t := sp[i0..];
      assert t[0] == sp[i0] && t[1..] == sp[i0 + 1..];
      var c := sp[i0];
      i, report, numbra, bracket, it := i0 + 1, Accepted, numbra0, bracket0, Dollar;
      if c == '[' as int || c == '\\' as int {
        Compiling.NoOverrun(done, pending, t, numbra0, bracket0);
      }
      if c == '[' as int {
        ghost var elems;
        i, report, elems := CompClass(sp, i);
        it := One(Class(|t| > 1 && t[1] == '^' as int, elems));
      } else if c == '\\' as int {
        i := i0 + 2;
        report, numbra, bracket, it := CompEscape(sp, i, numbra0, bracket0, done);
      } else {
        it := CompPlain(sp, i, numbra0, bracket0);
      }
      if report.Rejected? {
        Compiling.ReadError(done, pending, t, numbra0, bracket0, report.error);
      } else {
        Compiling.ReadItem(done, pending, t, numbra0, bracket0, it, sp[i..], numbra, bracket);
      }
    }

    /** re_comp: compiles the text of a pattern, or reports what is wrong with it.  The empty text
        keeps the pattern compiled last. */
    method Comp(sp: Text) returns (report: Report)
      requires Valid() && expbuf != []
      requires Parse(sp) != Err(RunsOff)
      modifies `expbuf, `circf, `items
      ensures sp == [] ==> expbuf == old(expbuf) && circf == old(circf)
                           && report == if expbuf[0] == 0 then Rejected(NoPrevious) else Accepted
      ensures sp != [] ==> circf == Anchored(sp)
      ensures sp != [] ==> match Parse(sp)
                           case Ok(v) => report == Accepted && items == v && expbuf == Code(v)
                           case Err(e) => report == Rejected(e) && expbuf != [] && expbuf[0] == 0
    {
      if sp == [] {
        return if expbuf[0] == 0 then Rejected(NoPrevious) else Accepted;
      }
      circf := sp[0] == '^' as int;
      var i := if circf then 1 else 0;
      ghost var body := sp[i..];
      assert circf == Anchored(sp);
      hide ParseSeq, ParseAtom, ItemCode, ItemsCode, Compiling.Resume, Compiling.Starable, Starred, ParseElems;
      hide SingleCode, Prepend, PrependAll, DropStars, StarAhead, Anchored;
      var numbra, bracket: seq<nat>, lastep := 0, [], NIL;
      ghost var done: seq<Item>, pending := [], false;
      expbuf := [];
      Compiling.ReadNothing(body);
      while true
        invariant i <= |sp| && 0 <= numbra <= NBRA && expbuf == ItemsCode(done) && circf == Anchored(sp)
        invariant pending ==> done != [] && Compiling.Starable(done[|done| - 1])
                              && lastep == |ItemsCode(done[..|done| - 1])|
        invariant !pending ==> lastep == NIL || i == |sp|
                               || (0 <= lastep < |expbuf| && expbuf[lastep] in {CBRA, CKET})
        invariant ParseSeq(body, 0, []) == Compiling.Resume(done, pending, sp[i..], numbra, bracket)
        decreases |sp| - i
      {
        if i == |sp| {
          if bracket != [] {
            expbuf := [0];
            return Rejected(UnmatchedOpen);
          }
          expbuf := expbuf + [CEOF, 0];
          items := done;
          return Accepted;
        }
        ghost var t := sp[i..];
        var c := sp[i];
        if c == '*' as int {
          i := i + 1;
          assert t[0] == c && t[1..] == sp[i..];
          done := CompRepeat(lastep, done, pending, t, numbra, bracket);
        } else {
          lastep := |expbuf|;
          ghost var it;
          i, report, numbra, bracket, it := CompItem(sp, i, numbra, bracket, done, pending);
          if report.Rejected? {
            expbuf := [0];
            return;
          }
          Compiling.Append(done, it);
          done, pending := done + [it], Compiling.Starable(it);
        }
      }
    }

    // ----- executing -----

    /** A pattern is compiled, its classes fit, and its groups and back references are sound. */
    ghost predicate Compiled()
      reads this
    {
      expbuf == Code(items) && Fits(items) && Sound(items, {}, {})
    }

    /** Tries the pattern at p; what earlier tries left in the boundaries does not matter. */
    method Try(s: Text, p: nat) returns (ok: bool, last: nat, ghost path: seq<nat>)
      requires Valid() && Compiled() && p <= |s| && SameOutside(items, UNSEEN, Captures())
      modifies braslist, braelist
      ensures SameOutside(items, UNSEEN, Captures())
      ensures !ok ==> NoPath(items, s, UNSEEN, p)
      ensures ok ==> Greediest(items, s, UNSEEN, p, path) && last == Final(p, path)
                     && Captures() == CapsAlong(items, UNSEEN, p, path)
    {
      hide Sound, IsPath, CapsAlong, OpenAfter, ClosedAfter, Code, Fits;
      ghost var now := Captures();
      assert expbuf[0..] == expbuf;
      var rv;
      rv, last, path := Advance(s, p, 0, items, {}, {});
      ok := rv != 0;
      if ok {
        CapsExact(items, s, now, p, path, Captures());
        GreediestAgree(items, s, now, UNSEEN, p, path, {}, {});
      } else {
        NoPathAgree(items, s, now, UNSEEN, p, {}, {});
      }
    }

    /** re_exec: find the leftmost match at or after p1, the longest there unless back references come in the
        way, copy what matched and move the group boundaries into the copy; NIL when there is none.  At the
        end of the subject only the bare patterns ^, $ and ^$ are taken to match. */
    method Exec(s: Text, p1: nat) returns (r: int, ghost path: seq<nat>)
      requires Valid() && Compiled() && p1 <= |s|
      modifies `matched, braslist, braelist
      ensures p1 == |s| ==>
                && r == (if (circf && items == []) || items == [Dollar] then p1 else NIL)
                && (r != NIL ==> matched == [])
      ensures r == NIL ==> matched == old(matched)
      ensures p1 < |s| && r == NIL ==> Nowhere(items, s, circf, p1)
      ensures p1 < |s| && r != NIL ==>
                && 0 <= r && Leftmost(items, s, circf, p1, r)
                && Greediest(items, s, UNSEEN, r, path)
                && r <= Final(r, path) <= |s| && matched == s[r..Final(r, path)]
                && Moved(CapsAlong(items, UNSEEN, r, path), Captures(), r)
      ensures p1 < |s| && r != NIL && BacksEarly(items) ==> Longest(items, s, UNSEEN, r, r + |matched|)
    {
      hide BacksEarly, Longest, Greediest, Moved, Fits, Sound, IsPath, ItemsCode, CapsAlong, NoPath;
      path := [];
      BareCode(items);
      if At(s, p1) == 0 {
        if (expbuf[0] == CEOF && circf) || (expbuf[0] == CDOL && expbuf[1] == CEOF) {
          matched := [];
          return p1, [];
        }
        return NIL, [];
      }
      ResetBoundaries();
      var p, ok, last := p1, false, 0;
      if circf {
        ok, last, path := Try(s, p);
      } else if expbuf[0] == CCHR {
        // fast check for first character
        var c := expbuf[1];
        while true
          invariant !ok && p1 <= p <= |s| && matched == old(matched) && Valid() && Compiled() && SameOutside(items, UNSEEN, Captures())
          invariant forall q: nat :: p1 <= q < p ==> NoPath(items, s, UNSEEN, q)
          decreases |s| - p
        {
          FirstCharacter(items, s, p);
          if At(s, p) == c {
            ok, last, path := Try(s, p);
          }
          if ok || At(s, p) == 0 {
            break;
          }
          p := p + 1;
        }
      } else {
        while true
          invariant !ok && p1 <= p <= |s| && matched == old(matched) && Valid() && Compiled() && SameOutside(items, UNSEEN, Captures())
          invariant forall q: nat :: p1 <= q < p ==> NoPath(items, s, UNSEEN, q)
          decreases |s| - p
        {
          ok, last, path := Try(s, p);
          if ok || At(s, p) == 0 {
            break;
          }
          p := p + 1;
        }
      }
      if !ok {
        assert Nowhere(items, s, circf, p1);
        return NIL, [];
      }
      GreediestLongest(items, s, UNSEEN, p, path);
      GotIt(s, p, last, path);
      return p, path;
    }

    method ResetBoundaries()
      requires Valid()
      modifies braslist, braelist
      ensures Captures() == UNSEEN
    {
      var c := 0;
      while c < NBRA
        invariant 0 <= c <= NBRA
        invariant forall i :: 0 <= i < c ==> braslist[i] == NIL && braelist[i] == NIL
      {
        braslist[c] := NIL;
        braelist[c] := NIL;
        c := c + 1;
      }
      assert braslist[..] == UNSEEN.starts && braelist[..] == UNSEEN.ends;
    }

    /** The label `gotit` of re_exec. */
    method GotIt(s: Text, r: nat, last: nat, ghost path: seq<nat>)
      requires Valid() && r <= last <= |s|
      modifies `matched, braslist, braelist
      ensures matched == s[r..last]
      ensures Moved(old(Captures()), Captures(), r)
    {
      matched := [];
      var m := r;
      while m < last
        invariant r <= m <= last && matched == s[r..m] && Captures() == old(Captures())
      {
        matched, m := matched + [s[m]], m + 1;
      }
      assert forall i :: 0 <= i < NBRA ==> braslist[..][i] == old(braslist[..])[i];
      assert forall i :: 0 <= i < NBRA ==> braelist[..][i] == old(braelist[..])[i];
      var c := 0;
      while c < NBRA
        invariant 0 <= c <= NBRA && matched == s[r..last]
        invariant forall i :: 0 <= i < c ==> braslist[i] == Relocated(old(braslist[i]), r)
        invariant forall i :: 0 <= i < c ==> braelist[i] == Relocated(old(braelist[i]), r)
        invariant forall i :: c <= i < NBRA ==> braslist[i] == old(braslist[i]) && braelist[i] == old(braelist[i])
      {
        if braslist[c] != NIL {
          braslist[c] := braslist[c] - r;
        }
        if braelist[c] != NIL {
          braelist[c] := braelist[c] - r;
        }
        c := c + 1;
      }
    }

    // ----- replacing -----

    /** The copying loops of re_replace. */
    method CopyOut(buf: Text, from: nat, to: nat) returns (b: Text)
      requires from <= to <= |matched|
      ensures b == buf + matched[from..to]
    {
      b := buf;
      var m := from;
      while m < to
        invariant from <= m <= to && b == buf + matched[from..m]
      {
        b, m := b + [matched[m]], m + 1;
      }
    }

    /** What an escaped character of a template stands for. */
    method EscapeOut(buf: Text, c: Ch, ghost s: Text, ghost r: nat, ghost e: nat, ghost k: Caps) returns (b: Text)
      requires Valid() && r <= e <= |s| && matched == s[r..e] && Moved(k, Captures(), r)
      requires forall n :: 0 <= n < NBRA && k.starts[n] != NIL ==> r <= k.starts[n] <= k.ends[n] <= e
      ensures var n := c - '1' as int;
              b == buf + if 0 <= n < NBRA && k.starts[n] != NIL then s[k.starts[n]..k.ends[n]] else [c]
    {
      var n := c - '1' as int;
      if 0 <= n < NBRA && braslist[n] != NIL {
        assert braslist[n] == Captures().starts[n] && braelist[n] == Captures().ends[n];
        b := CopyOut(buf, braslist[n], braelist[n]);
        SliceOfSlice(s, r, e, k.starts[n], k.ends[n]);
      } else {
        assert n < 0 || n >= NBRA || braslist[n] == Captures().starts[n];
        b := buf + [c];
      }
    }

    /** The body of the loop of re_replace. */
    method PieceOut(buf: Text, lp: Text, i0: nat, ghost s: Text, ghost r: nat, ghost e: nat, ghost k: Caps)
      returns (b: Text, i: nat)
      requires Valid() && i0 < |lp| && TemplateOk(lp[i0..])
      requires r <= e <= |s| && matched == s[r..e] && CapsWf(k) && Moved(k, Captures(), r)
      requires forall n :: 0 <= n < NBRA && k.starts[n] != NIL ==> r <= k.starts[n] <= k.ends[n] <= e
      ensures i == i0 + Used(lp[i0..]) && i <= |lp|
      ensures b == buf + Piece(lp[i0..], s, r, e, k)
    {
      hide Moved;
      i := i0;
      if lp[i] == '&' as int {
        b := CopyOut(buf, 0, |matched|);
        assert matched[0..|matched|] == matched;
      } else if lp[i] == '\\' as int {
        i := i + 1;
        assert lp[i0..][1] == lp[i];
        b := EscapeOut(buf, lp[i], s, r, e, k);
      } else {
        b := buf + [lp[i]];
      }
      i := i + 1;
    }

    /** re_replace: makes out a template from what matched last. */
    method Replace(lp: Text, ghost s: Text, ghost r: nat, ghost e: nat, ghost k: Caps) returns (buf: Text)
      requires Valid() && TemplateOk(lp)
      requires r <= e <= |s| && matched == s[r..e] && CapsWf(k) && Moved(k, Captures(), r)
      requires forall n :: 0 <= n < NBRA && k.starts[n] != NIL ==> r <= k.starts[n] <= k.ends[n] <= e
      ensures buf == MadeOut(lp, s, r, e, k)
    {
      hide Moved, MadeOut, Piece, TemplateOk, Used;
      assert lp[0..] == lp;
      ghost var whole := MadeOut(lp, s, r, e, k);
      buf := [];
      var i := 0;
      while i < |lp|
        invariant i <= |lp| && TemplateOk(lp[i..])
        invariant buf + MadeOut(lp[i..], s, r, e, k) == whole
      {
        ghost var t := lp[i..];
        MadeOutStep(buf, t, s, r, e, k);
        ghost var i0 := i;
        buf, i := PieceOut(buf, lp, i, s, r, e, k);
        assert lp[i..] == t[i - i0..];
      }
      assert lp[i..] == [];
      MadeOutNothing(s, r, e, k);
    }
  }
}
