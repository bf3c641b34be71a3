/** What it means for a pattern to match: paths through a subject, the order in which a matcher
    prefers them, and why the preferred one is the longest. */
module Matching {
  import opened Pattern

  const NIL := -1  // a null pointer into the subject

  const A: Ch := 'a' as int
  const B: Ch := 'b' as int

  /** Where each group begins and ends; NIL where it has not been seen. */
  datatype Caps = Caps(starts: seq<int>, ends: seq<int>)

  ghost predicate CapsWf(k: Caps) {
    |k.starts| == NBRA && |k.ends| == NBRA
  }

  /** The character at a position, the terminating NUL at the end. */
  function At(s: Text, i: nat): int {
    if i < |s| then s[i] else 0
  }

  ghost predicate ElemHas(e: Elem, c: Ch) {
    match e
    case Only(x) => c == x
    case Range(lo, hi) => lo <= c <= hi || c == hi
  }

  /** Some part of a class names c. */
  ghost predicate Names(elems: seq<Elem>, c: Ch) {
    elems != [] && (ElemHas(elems[0], c) || Names(elems[1..], c))
  }

  ghost predicate Has(x: Single, c: Ch) {
    match x
    case Lit(a) => c == a
    case Dot => true
    case Class(negated, elems) => negated != Names(elems, c)
  }

  /** The bytes a class is stored as hold exactly the characters its parts and ranges name. */
  lemma {:induction false} MembersHave(elems: seq<Elem>, last: int, c: Ch)
    requires Chained(elems, last)
    ensures (c == last || c in Members(elems)) <==> (c == last || Names(elems, c))
  {
    if elems != [] {
      var e := elems[0];
      MembersHave(elems[1..], if e.Only? then e.c else e.hi, c);
      if e.Range? && e.lo < c <= e.hi {
        assert Run(e.lo + 1, e.hi)[c - (e.lo + 1)] == c;
      }
    }
  }

  /** A back reference to a group that captured s[a..b] takes the subject from p to q.  A group
      that captured nothing stands for the empty string only where the character that follows it
      recurs. */
  ghost predicate Copies(s: Text, a: int, b: int, p: nat, q: nat) {
    0 <= a <= b <= |s| &&
    if a < b then q == p + (b - a) && q <= |s| && s[p..q] == s[a..b]
    else q == p && At(s, a) == At(s, p)
  }

  lemma CopiesAt(s: Text, a: int, b: int, p: nat, q: nat, i: nat)
    ensures Copies(s, a, b, p, q) && (i == 0 || a + i < b) ==> At(s, a + i) == At(s, p + i)
  {
    if Copies(s, a, b, p, q) && a + i < b {
      assert s[p..q][i] == s[a..b][i];
    }
  }

  lemma CopiesMade(s: Text, a: nat, b: nat, p: nat)
    requires a <= b <= |s| && (if a < b then p + (b - a) <= |s| else At(s, a) == At(s, p))
    requires forall j {:trigger s[j]} :: a <= j < b ==> s[j] == s[j - a + p]
    ensures Copies(s, a, b, p, p + (b - a))
  {
    assert a < b ==> s[p..p + (b - a)] == s[a..b];
  }

  /** Item `it` takes the subject from p to q. */
  ghost predicate Step(it: Item, s: Text, k: Caps, p: nat, q: nat) {
    match it
    case One(x) => p < |s| && q == p + 1 && Has(x, s[p])
    case Star(x) => p <= q <= |s| && forall i {:trigger s[i]} :: p <= i < q ==> Has(x, s[i])
    case Open(_) => q == p
    case Close(_) => q == p
    case Back(n) => n < |k.starts| && n < |k.ends| && Copies(s, k.starts[n], k.ends[n], p, q)
    case BackStar(_) => false
    case Dollar => q == p == |s|
  }

  /** The captures after passing `it` at p. */
  ghost function After(it: Item, k: Caps, p: nat): Caps {
    match it
    case Open(n) => if n < |k.starts| then k.(starts := k.starts[n := p]) else k
    case Close(n) => if n < |k.ends| then k.(ends := k.ends[n := p]) else k
    case _ => k
  }

  /** `path` holds the position reached after each item, starting from p. */
  ghost predicate IsPath(items: seq<Item>, s: Text, k: Caps, p: nat, path: seq<nat>) {
    if items == [] then path == [] && p <= |s|
    else path != [] && Step(items[0], s, k, p, path[0])
         && IsPath(items[1..], s, After(items[0], k, p), path[0], path[1..])
  }

  function Final(p: nat, path: seq<nat>): nat {
    if path == [] then p else path[|path| - 1]
  }

  /** The captures at the end of a path. */
  ghost function CapsAlong(items: seq<Item>, k: Caps, p: nat, path: seq<nat>): Caps {
    if items == [] || path == [] then k
    else CapsAlong(items[1..], After(items[0], k, p), path[0], path[1..])
  }

  lemma {:induction false} PathLength(items: seq<Item>, s: Text, k: Caps, p: nat, path: seq<nat>)
    requires IsPath(items, s, k, p, path)
    ensures |path| == |items| && p <= Final(p, path) <= |s|
  {
    hide After, Has;
    if items != [] {
      PathLength(items[1..], s, After(items[0], k, p), path[0], path[1..]);
    }
  }

  // ----- the order of preference -----

  /** Position by position, the first path to go further is preferred. */
  ghost predicate LexLe(a: seq<nat>, b: seq<nat>)
    requires |a| == |b|
  {
    a == [] || a[0] < b[0] || (a[0] == b[0] && LexLe(a[1..], b[1..]))
  }

  /** Each item matches as much as it can while still letting the items after it match. */
  ghost predicate Greediest(items: seq<Item>, s: Text, k: Caps, p: nat, path: seq<nat>) {
    && IsPath(items, s, k, p, path)
    && forall other :: IsPath(items, s, k, p, other) ==> |other| == |path| && LexLe(other, path)
  }

  ghost predicate NoPath(items: seq<Item>, s: Text, k: Caps, p: nat) {
    forall path :: !IsPath(items, s, k, p, path)
  }

  lemma PathExists(items: seq<Item>, s: Text, k: Caps, p: nat, path: seq<nat>)
    requires IsPath(items, s, k, p, path)
    ensures !NoPath(items, s, k, p)
  {
    hide IsPath;
  }

  lemma {:induction false} LexAntisymmetric(a: seq<nat>, b: seq<nat>)
    requires |a| == |b| && LexLe(a, b) && LexLe(b, a)
    ensures a == b
  {
    if a != [] {
      LexAntisymmetric(a[1..], b[1..]);
      assert a == [a[0]] + a[1..] && b == [b[0]] + b[1..];
    }
  }

  /** There is at most one greediest path, so a search that finds one is fully determined. */
  lemma GreediestUnique(items: seq<Item>, s: Text, k: Caps, p: nat, a: seq<nat>, b: seq<nat>)
    requires Greediest(items, s, k, p, a) && Greediest(items, s, k, p, b)
    ensures a == b
  {
    LexAntisymmetric(a, b);
  }

  // ----- captures -----

  /** Captures that agree on everything a sound rest of a pattern can look at. */
  ghost predicate Agree(open: set<nat>, closed: set<nat>, k: Caps, k2: Caps) {
    && CapsWf(k) && CapsWf(k2)
    && (forall n :: n in open && n < NBRA ==> k.starts[n] == k2.starts[n])
    && forall n :: n in closed && n < NBRA ==> k.starts[n] == k2.starts[n] && k.ends[n] == k2.ends[n]
  }

  /** Open groups begin, and closed groups begin and end, at or before p. */
  ghost predicate Placed(open: set<nat>, closed: set<nat>, k: Caps, p: nat) {
    && CapsWf(k)
    && (forall n :: n in open ==> n < NBRA && 0 <= k.starts[n] <= p)
    && forall n :: n in closed ==> n < NBRA && 0 <= k.starts[n] <= k.ends[n] <= p
  }

  ghost function OpenNext(it: Item, open: set<nat>): set<nat> {
    match it case Open(n) => open + {n} case Close(n) => open - {n} case _ => open
  }

  ghost function ClosedNext(it: Item, closed: set<nat>): set<nat> {
    match it case Close(n) => closed + {n} case _ => closed
  }

  ghost function OpenAfter(items: seq<Item>, open: set<nat>): set<nat> {
    if items == [] then open
    else OpenAfter(items[1..], OpenNext(items[0], open))
  }

  ghost function ClosedAfter(items: seq<Item>, closed: set<nat>): set<nat> {
    if items == [] then closed
    else ClosedAfter(items[1..], ClosedNext(items[0], closed))
  }

  /** A path does not depend on captures it cannot look at, and overwrites those it does not keep. */
  lemma {:induction false} PathAgree(items: seq<Item>, s: Text, k: Caps, k2: Caps, p: nat, path: seq<nat>,
                                     open: set<nat>, closed: set<nat>)
    requires Sound(items, open, closed) && Agree(open, closed, k, k2)
    requires IsPath(items, s, k, p, path)
    ensures IsPath(items, s, k2, p, path)
    ensures Agree(OpenAfter(items, open), ClosedAfter(items, closed),
                  CapsAlong(items, k, p, path), CapsAlong(items, k2, p, path))
  {
    hide Has, Copies;
    if items != [] {
      var it, rest := items[0], items[1..];
      var ka, kb := After(it, k, p), After(it, k2, p);
      match it
      case Open(n) => PathAgree(rest, s, ka, kb, path[0], path[1..], open + {n}, closed);
      case Close(n) => PathAgree(rest, s, ka, kb, path[0], path[1..], open - {n}, closed + {n});
      case BackStar(_) =>
      case _ => PathAgree(rest, s, ka, kb, path[0], path[1..], open, closed);
    }
  }

  lemma GreediestAgree(items: seq<Item>, s: Text, k: Caps, k2: Caps, p: nat, path: seq<nat>,
                       open: set<nat>, closed: set<nat>)
    requires Sound(items, open, closed) && Agree(open, closed, k, k2)
    requires Greediest(items, s, k, p, path)
    ensures Greediest(items, s, k2, p, path)
  {
    PathAgree(items, s, k, k2, p, path, open, closed);
    forall other | IsPath(items, s, k2, p, other)
      ensures |other| == |path| && LexLe(other, path)
    {
      PathAgree(items, s, k2, k, p, other, open, closed);
    }
  }

  lemma NoPathAgree(items: seq<Item>, s: Text, k: Caps, k2: Caps, p: nat, open: set<nat>, closed: set<nat>)
    requires Sound(items, open, closed) && Agree(open, closed, k, k2)
    requires NoPath(items, s, k, p)
    ensures NoPath(items, s, k2, p)
  {
    forall path | IsPath(items, s, k2, p, path)
      ensures false
    {
      PathAgree(items, s, k2, k, p, path, open, closed);
    }
  }

  /** `k2` differs from `k` only in groups that `items` marks. */
  ghost predicate SameOutside(items: seq<Item>, k: Caps, k2: Caps) {
    && CapsWf(k) && CapsWf(k2)
    && forall n: nat :: n < NBRA ==>
         (k.starts[n] == k2.starts[n] || Open(n) in items) && (k.ends[n] == k2.ends[n] || Close(n) in items)
  }

  lemma {:induction false} SoundMarks(items: seq<Item>, open: set<nat>, closed: set<nat>, n: nat)
    requires Sound(items, open, closed)
    ensures n in open || n in closed ==> Open(n) !in items
    ensures n in closed ==> Close(n) !in items
  {
    if items != [] {
      match items[0]
      case Open(m) => SoundMarks(items[1..], open + {m}, closed, n);
      case Close(m) => SoundMarks(items[1..], open - {m}, closed + {m}, n);
      case BackStar(_) =>
      case _ => SoundMarks(items[1..], open, closed, n);
      assert forall it :: it in items <==> it == items[0] || it in items[1..];
    }
  }

  /** Whatever a search through `items` writes, it leaves alone what `items` can look at. */
  lemma SoundKeeps(items: seq<Item>, open: set<nat>, closed: set<nat>, k: Caps, k2: Caps)
    requires Sound(items, open, closed) && SameOutside(items, k, k2)
    ensures Agree(open, closed, k, k2)
  {
    forall n: nat
      ensures n in open || n in closed ==> Open(n) !in items
      ensures n in closed ==> Close(n) !in items
    {
      SoundMarks(items, open, closed, n);
    }
  }

  lemma {:induction false} SoundEnds(items: seq<Item>, open: set<nat>, closed: set<nat>, n: nat)
    requires Sound(items, open, closed)
    ensures OpenAfter(items, open) == {}
    ensures n in open || n in closed || Open(n) in items || Close(n) in items ==> n in ClosedAfter(items, closed)
  {
    if items != [] {
      SoundEnds(items[1..], OpenNext(items[0], open), ClosedNext(items[0], closed), n);
      assert forall it :: it in items <==> it == items[0] || it in items[1..];
    }
  }

  lemma {:induction false} CapsOutside(items: seq<Item>, k: Caps, p: nat, path: seq<nat>)
    requires CapsWf(k)
    ensures SameOutside(items, k, CapsAlong(items, k, p, path))
  {
    if items != [] && path != [] {
      CapsOutside(items[1..], After(items[0], k, p), path[0], path[1..]);
    }
  }

  /** No group seen yet. */
  ghost const UNSEEN := Caps(Nils, Nils)
  ghost const Nils: seq<int> := [NIL, NIL, NIL, NIL, NIL, NIL, NIL, NIL, NIL]

  /** A whole pattern leaves exactly the captures of the path it took, whatever failed before. */
  lemma CapsExact(items: seq<Item>, s: Text, now: Caps, p: nat, path: seq<nat>, then_: Caps)
    requires Sound(items, {}, {})
    requires SameOutside(items, UNSEEN, now) && SameOutside(items, UNSEEN, then_)
    requires IsPath(items, s, now, p, path)
    requires Agree(OpenAfter(items, {}), ClosedAfter(items, {}), CapsAlong(items, now, p, path), then_)
    ensures then_ == CapsAlong(items, UNSEEN, p, path)
  {
    hide Sound, IsPath, OpenAfter, ClosedAfter, CapsAlong;
    var k := CapsAlong(items, UNSEEN, p, path);
    CapsOutside(items, UNSEEN, p, path);
    PathAgree(items, s, now, UNSEEN, p, path, {}, {});
    forall n: nat | n < NBRA
      ensures then_.starts[n] == k.starts[n] && then_.ends[n] == k.ends[n]
    {
      SoundEnds(items, {}, {}, n);
    }
    assert then_.starts == k.starts && then_.ends == k.ends;
  }

  // ----- starred back references -----

  /** The place ct further on, j times. */
  function Along(p: nat, ct: nat, j: nat): (q: nat)
    ensures p <= q
    decreases j
  {
    if j == 0 then p else Along(p + ct, ct, j - 1)
  }

  /** s[a..b] recurs j times from p on. */
  ghost predicate Recurs(s: Text, a: nat, b: nat, p: nat, j: nat)
    requires a <= b
    decreases j
  {
    j == 0 || (Copies(s, a, b, p, p + (b - a)) && Recurs(s, a, b, p + (b - a), j - 1))
  }

  lemma {:induction false} RecursNext(s: Text, a: nat, b: nat, p: nat, j: nat)
    requires a <= b
    ensures var q := Along(p, b - a, j);
            && p <= q && Along(p, b - a, j + 1) == q + (b - a)
            && (Recurs(s, a, b, p, j + 1) <==> Recurs(s, a, b, p, j) && Copies(s, a, b, q, q + (b - a)))
    decreases j
  {
    hide Copies;
    if j > 0 {
      RecursNext(s, a, b, p + (b - a), j - 1);
    }
  }

  lemma {:induction false} RecursLess(s: Text, a: nat, b: nat, p: nat, j: nat, m: nat)
    requires a <= b && j <= m && Recurs(s, a, b, p, m)
    ensures Recurs(s, a, b, p, j)
    decreases m
  {
    hide Copies;
    if j < m {
      RecursNext(s, a, b, p, m - 1);
      RecursLess(s, a, b, p, j, m - 1);
    }
  }

  /** \(a\)b\1*bc and the line abc: after ab, where the a does not recur, bc does not match, but it does
      match one a's length further back. */
  lemma BackFromThere(k: Caps)
    ensures var s, rest := [A, B, B + 1], [One(Lit(B)), One(Lit(B + 1))];
            && (forall j: nat :: Recurs(s, 0, 1, 2, j) ==> NoPath(rest, s, k, Along(2, 1, j)))
            && !NoPath(rest, s, k, 2 - 1)
  {
    var s, rest := [A, B, B + 1], [One(Lit(B)), One(Lit(B + 1))];
    forall j: nat | Recurs(s, 0, 1, 2, j)
      ensures NoPath(rest, s, k, Along(2, 1, j))
    {
      if j > 0 {
        RecursLess(s, 0, 1, 2, 1, j);
        CopiesAt(s, 0, 1, 2, 3, 0);
      }
    }
    assert IsPath(rest[1..][1..], s, k, 3, []);
    assert [2, 3][1..] == [3] && [3][1..] == [];
    assert IsPath(rest[1..], s, k, 2, [3]);
    assert IsPath(rest, s, k, 1, [2, 3]);
  }

  /** Where r is the leftmost place, from p1 on, at which the pattern matches.  An anchored pattern
      is only tried at p1. */
  ghost predicate Leftmost(items: seq<Item>, s: Text, anchored: bool, p1: nat, r: nat) {
    && p1 <= r <= |s| && (anchored ==> r == p1)
    && !NoPath(items, s, UNSEEN, r)
    && forall p: nat :: p1 <= p < r ==> NoPath(items, s, UNSEEN, p)
  }

  ghost predicate Nowhere(items: seq<Item>, s: Text, anchored: bool, p1: nat) {
    forall p: nat :: p1 <= p <= |s| && (anchored ==> p == p1) ==> NoPath(items, s, UNSEEN, p)
  }

  /** A boundary in the subject as a boundary in the copy of the matched part. */
  function Relocated(x: int, r: nat): int {
    if x == NIL then NIL else x - r
  }

  /** `k2` holds the boundaries of `k` moved into a copy that begins at r. */
  ghost predicate Moved(k: Caps, k2: Caps, r: nat) {
    && CapsWf(k) && CapsWf(k2)
    && forall n :: 0 <= n < NBRA ==> k2.starts[n] == Relocated(k.starts[n], r) && k2.ends[n] == Relocated(k.ends[n], r)
  }

  lemma SliceOfSlice(s: Text, r: nat, e: nat, a: nat, b: nat)
    requires r <= a <= b <= e <= |s|
    ensures s[r..e][a - r..b - r] == s[a..b]
  {
    assert forall i :: 0 <= i < b - a ==> s[r..e][a - r..b - r][i] == s[a..b][i];
  }

  /** What a group took is between its boundaries in the copy. */
  lemma GroupInCopy(k: Caps, k2: Caps, s: Text, r: nat, e: nat, n: nat)
    requires Moved(k, k2, r) && n < NBRA && r <= k.starts[n] <= k.ends[n] <= e <= |s|
    ensures 0 <= k2.starts[n] <= k2.ends[n] <= |s[r..e]|
    ensures s[r..e][k2.starts[n]..k2.ends[n]] == s[k.starts[n]..k.ends[n]]
  {
    var a, b := k.starts[n], k.ends[n];
    assert k2.starts[n] == Relocated(a, r) && k2.ends[n] == Relocated(b, r);
    SliceOfSlice(s, r, e, a, b);
  }

  /** Every group that has been seen to its end lies between lo and p. */
  ghost predicate Within(open: set<nat>, closed: set<nat>, k: Caps, lo: nat, p: nat) {
    && CapsWf(k) && lo <= p
    && forall n: nat :: n < NBRA ==>
         if n in open then lo <= k.starts[n] <= p
         else if n in closed then lo <= k.starts[n] <= k.ends[n] <= p
         else k.starts[n] == NIL && k.ends[n] == NIL
  }

  lemma {:induction false} CapsWithin(items: seq<Item>, s: Text, k: Caps, p: nat, path: seq<nat>,
                                      open: set<nat>, closed: set<nat>, lo: nat)
    requires Sound(items, open, closed) && IsPath(items, s, k, p, path) && Within(open, closed, k, lo, p)
    ensures Within({}, ClosedAfter(items, closed), CapsAlong(items, k, p, path), lo, Final(p, path))
  {
    hide Has;
    if items != [] {
      var it := items[0];
      PathLength(items, s, k, p, path);
      CapsWithin(items[1..], s, After(it, k, p), path[0], path[1..], OpenNext(it, open), ClosedNext(it, closed), lo);
    }
  }

  // ----- the end of the subject -----

  /** Nothing in the pattern asks for a character. */
  ghost predicate CanBeEmpty(items: seq<Item>) {
    forall it :: it in items ==> !it.One?
  }

  lemma {:induction false} EmptyMatch(items: seq<Item>, s: Text, k: Caps) returns (path: seq<nat>)
    requires NoBack(items) && CanBeEmpty(items)
    ensures IsPath(items, s, k, |s|, path)
  {
    path := [];
    if items != [] {
      assert items[0] in items && forall it :: it in items[1..] ==> it in items;
      var tail := EmptyMatch(items[1..], s, After(items[0], k, |s|));
      path := [|s|] + tail;
      assert path[1..] == tail;
    }
  }

  lemma {:induction false} NeedsCharacter(items: seq<Item>, s: Text, k: Caps, p: nat, path: seq<nat>)
    requires IsPath(items, s, k, p, path) && !CanBeEmpty(items)
    ensures p < |s|
  {
    var it, rest := items[0], items[1..];
    PathLength(items, s, k, p, path);
    if !it.One? {
      assert forall i :: i in items <==> i == it || i in rest;
      NeedsCharacter(rest, s, After(it, k, p), path[0], path[1..]);
      PathLength([it], s, k, p, [path[0]]) by {
        assert IsPath([it][1..], s, After(it, k, p), path[0], []);
      }
    }
  }

  /** At the end of the subject the matcher takes only the bare patterns ^, $ and ^$ to match.  That
      is right exactly when the pattern is one of those or cannot match the empty text. */
  lemma EndOfSubject(items: seq<Item>, s: Text, anchored: bool)
    requires NoBack(items)
    ensures var bare := (anchored && items == []) || items == [Dollar];
            (bare <==> !NoPath(items, s, UNSEEN, |s|)) <==> (bare || !CanBeEmpty(items))
  {
    if CanBeEmpty(items) {
      var path := EmptyMatch(items, s, UNSEEN);
    } else {
      forall path | IsPath(items, s, UNSEEN, |s|, path)
        ensures false
      {
        NeedsCharacter(items, s, UNSEEN, |s|, path);
      }
    }
  }

  // ----- replacement text -----

  /** A template in which every backslash escapes something. */
  predicate TemplateOk(t: Text) {
    t == [] || if t[0] == '\\' as int then |t| > 1 && TemplateOk(t[2..]) else TemplateOk(t[1..])
  }

  /** How much of a template its first escape or character takes. */
  function Used(t: Text): (n: nat)
    requires t != [] && TemplateOk(t)
    ensures 0 < n <= |t|
  {
    if t[0] == '\\' as int then 2 else 1
  }

  /** What it stands for in a match of s[r..e]: & for the whole match, \n for the text of the nth
      group if there is one, and a backslash before anything else for nothing. */
  ghost function Piece(t: Text, s: Text, r: nat, e: nat, k: Caps): Text
    requires t != [] && TemplateOk(t) && r <= e <= |s| && CapsWf(k)
    requires forall n :: 0 <= n < NBRA && k.starts[n] != NIL ==> r <= k.starts[n] <= k.ends[n] <= e
  {
    if t[0] == '&' as int then s[r..e]
    else if t[0] == '\\' as int then
      var n := t[1] - '1' as int;
      if 0 <= n < NBRA && k.starts[n] != NIL then s[k.starts[n]..k.ends[n]] else [t[1]]
    else [t[0]]
  }

  /** A template made out for a match. */
  ghost function MadeOut(t: Text, s: Text, r: nat, e: nat, k: Caps): Text
    requires TemplateOk(t) && r <= e <= |s| && CapsWf(k)
    requires forall n :: 0 <= n < NBRA && k.starts[n] != NIL ==> r <= k.starts[n] <= k.ends[n] <= e
  {
    if t == [] then [] else Piece(t, s, r, e, k) + MadeOut(t[Used(t)..], s, r, e, k)
  }

  lemma {:induction false} TemplateCat(t: Text, u: Text)
    requires TemplateOk(t) && TemplateOk(u)
    ensures TemplateOk(t + u)
    decreases |t|
  {
    if t == [] {
      assert t + u == u;
    } else {
      var n := if t[0] == '\\' as int then 2 else 1;
      TemplateCat(t[n..], u);
      assert (t + u)[n..] == t[n..] + u;
    }
  }

  lemma PieceCat(t: Text, u: Text, s: Text, r: nat, e: nat, k: Caps)
    requires TemplateOk(t) && TemplateOk(t + u) && t != [] && r <= e <= |s| && CapsWf(k)
    requires forall n :: 0 <= n < NBRA && k.starts[n] != NIL ==> r <= k.starts[n] <= k.ends[n] <= e
    ensures Used(t + u) == Used(t) && Piece(t + u, s, r, e, k) == Piece(t, s, r, e, k)
    ensures (t + u)[Used(t)..] == t[Used(t)..] + u
  {
  }

  lemma Regroup(x: Text, y: Text, z: Text)
    ensures x + (y + z) == x + y + z
  {
  }

  /** Two templates one after the other make out to what they make out to. */
  lemma {:induction false} MadeOutCat(t: Text, u: Text, s: Text, r: nat, e: nat, k: Caps)
    requires TemplateOk(t) && TemplateOk(u) && r <= e <= |s| && CapsWf(k)
    requires forall n :: 0 <= n < NBRA && k.starts[n] != NIL ==> r <= k.starts[n] <= k.ends[n] <= e
    ensures TemplateOk(t + u) && MadeOut(t + u, s, r, e, k) == MadeOut(t, s, r, e, k) + MadeOut(u, s, r, e, k)
    decreases |t|
  {
    hide Piece;
    TemplateCat(t, u);
    if t == [] {
      assert t + u == u;
    } else {
      var rest := t[Used(t)..];
      PieceCat(t, u, s, r, e, k);
      MadeOutCat(rest, u, s, r, e, k);
      Regroup(Piece(t, s, r, e, k), MadeOut(rest, s, r, e, k), MadeOut(u, s, r, e, k));
    }
  }

  /** A text with a backslash before what means something in a template. */
  function Quoted(x: Text): Text {
    if x == [] then []
    else (if x[0] == '&' as int || x[0] == '\\' as int then ['\\' as int, x[0]] else [x[0]]) + Quoted(x[1..])
  }

  /** Any text can be asked for: quoted, it makes out to itself whatever matched. */
  lemma {:induction false} QuotedMakesItself(x: Text, s: Text, r: nat, e: nat, k: Caps)
    requires r <= e <= |s| && CapsWf(k)
    requires forall n :: 0 <= n < NBRA && k.starts[n] != NIL ==> r <= k.starts[n] <= k.ends[n] <= e
    ensures TemplateOk(Quoted(x)) && MadeOut(Quoted(x), s, r, e, k) == x
  {
    if x != [] {
      QuotedMakesItself(x[1..], s, r, e, k);
      var t := Quoted(x);
      assert t[Used(t)..] == Quoted(x[1..]);
      assert Piece(t, s, r, e, k) == [x[0]];
    }
  }

  /** & makes out to all that matched, \n to what the nth group did, or to the digit if there is no such group,
      and any other character to itself. */
  lemma MarksMakeOut(c: Ch, s: Text, r: nat, e: nat, k: Caps)
    requires r <= e <= |s| && CapsWf(k)
    requires forall n :: 0 <= n < NBRA && k.starts[n] != NIL ==> r <= k.starts[n] <= k.ends[n] <= e
    ensures MadeOut(['&' as int], s, r, e, k) == s[r..e]
    ensures c != '&' as int && c != '\\' as int ==> MadeOut([c], s, r, e, k) == [c]
    ensures forall n :: 0 <= n < NBRA ==>
              MadeOut(GroupMark(n), s, r, e, k) == if k.starts[n] == NIL then ['1' as int + n] else s[k.starts[n]..k.ends[n]]
  {
    assert ['&' as int][1..] == [] && [c][1..] == [];
    forall n | 0 <= n < NBRA
      ensures MadeOut(GroupMark(n), s, r, e, k) == Piece(GroupMark(n), s, r, e, k)
    {
      assert GroupMark(n)[2..] == [];
    }
  }

  /** \1 to \9. */
  function GroupMark(n: int): (t: Text)
    requires 0 <= n < NBRA
    ensures TemplateOk(t)
  {
    ['\\' as int, '1' as int + n]
  }

  lemma MadeOutNothing(s: Text, r: nat, e: nat, k: Caps)
    requires r <= e <= |s| && CapsWf(k)
    requires forall n :: 0 <= n < NBRA && k.starts[n] != NIL ==> r <= k.starts[n] <= k.ends[n] <= e
    ensures MadeOut([], s, r, e, k) == []
  {
  }

  lemma MadeOutStep(before: Text, t: Text, s: Text, r: nat, e: nat, k: Caps)
    requires t != [] && TemplateOk(t) && r <= e <= |s| && CapsWf(k)
    requires forall n :: 0 <= n < NBRA && k.starts[n] != NIL ==> r <= k.starts[n] <= k.ends[n] <= e
    ensures before + MadeOut(t, s, r, e, k) == (before + Piece(t, s, r, e, k)) + MadeOut(t[Used(t)..], s, r, e, k)
    ensures TemplateOk(t[Used(t)..])
  {
    hide Piece;
  }

  // ----- how a search narrows down -----

  /** Having passed the items before `rest` without a choice, along `done` from p0 to p, the paths
      still to be looked at are exactly those through `rest` from p. */
  ghost predicate Forced(items: seq<Item>, s: Text, k0: Caps, p0: nat, done: seq<nat>,
                         rest: seq<Item>, k: Caps, p: nat)
  {
    && |items| == |done| + |rest|
    && Final(p0, done) == p
    && (forall path :: IsPath(items, s, k0, p0, path) ==> done <= path && IsPath(rest, s, k, p, path[|done|..]))
    && (forall tail :: IsPath(rest, s, k, p, tail) ==>
          IsPath(items, s, k0, p0, done + tail)
          && CapsAlong(items, k0, p0, done + tail) == CapsAlong(rest, k, p, tail))
  }

  lemma ForcedStart(items: seq<Item>, s: Text, k: Caps, p: nat)
    ensures Forced(items, s, k, p, [], items, k, p)
  {
    hide IsPath, CapsAlong;
    forall path | IsPath(items, s, k, p, path)
      ensures [] <= path && path[0..] == path && [] + path == path
    {
    }
    assert forall path: seq<nat> :: path[0..] == path && [] + path == path;
  }

  lemma ForcedStep(items: seq<Item>, s: Text, k0: Caps, p0: nat, done: seq<nat>,
                   rest: seq<Item>, k: Caps, p: nat, q: nat)
    requires rest != [] && Forced(items, s, k0, p0, done, rest, k, p)
    requires Step(rest[0], s, k, p, q)
    requires forall r :: Step(rest[0], s, k, p, r) ==> r == q
    ensures Forced(items, s, k0, p0, done + [q], rest[1..], After(rest[0], k, p), q)
  {
    hide Step, After;
    var ka := After(rest[0], k, p);
    forall path | IsPath(items, s, k0, p0, path)
      ensures done + [q] <= path && IsPath(rest[1..], s, ka, q, path[|done + [q]|..])
    {
      var tail := path[|done|..];
      assert path == done + tail && tail[0] == q;
      assert path[|done + [q]|..] == tail[1..];
    }
    forall tail | IsPath(rest[1..], s, ka, q, tail)
      ensures IsPath(items, s, k0, p0, done + [q] + tail)
      ensures CapsAlong(items, k0, p0, done + [q] + tail) == CapsAlong(rest[1..], ka, q, tail)
    {
      assert ([q] + tail)[1..] == tail;
      assert IsPath(rest, s, k, p, [q] + tail);
      assert done + [q] + tail == done + ([q] + tail);
    }
  }

  lemma {:induction false} LexPrefix(done: seq<nat>, a: seq<nat>, b: seq<nat>)
    requires |a| == |b| && LexLe(a, b)
    ensures LexLe(done + a, done + b)
  {
    if done == [] {
      assert done + a == a && done + b == b;
    } else {
      LexPrefix(done[1..], a, b);
      assert (done + a)[1..] == done[1..] + a && (done + b)[1..] == done[1..] + b;
    }
  }

  lemma ForcedFound(items: seq<Item>, s: Text, k0: Caps, p0: nat, done: seq<nat>,
                    rest: seq<Item>, k: Caps, p: nat, tail: seq<nat>)
    requires Forced(items, s, k0, p0, done, rest, k, p)
    requires Greediest(rest, s, k, p, tail)
    ensures Greediest(items, s, k0, p0, done + tail)
    ensures Final(p0, done + tail) == Final(p, tail)
    ensures CapsAlong(items, k0, p0, done + tail) == CapsAlong(rest, k, p, tail)
  {
    forall other | IsPath(items, s, k0, p0, other)
      ensures |other| == |done + tail| && LexLe(other, done + tail)
    {
      assert other == done + other[|done|..];
      LexPrefix(done, other[|done|..], tail);
    }
  }

  /** Trying the ends of a star from the far end down, the first to succeed is the greediest. */
  lemma StarFound(x: Single, rest: seq<Item>, s: Text, k: Caps, p: nat, q: nat, tail: seq<nat>)
    requires Step(Star(x), s, k, p, q)
    requires forall r :: r > q && Step(Star(x), s, k, p, r) ==> NoPath(rest, s, k, r)
    requires Greediest(rest, s, k, q, tail)
    ensures Greediest([Star(x)] + rest, s, k, p, [q] + tail)
    ensures CapsAlong([Star(x)] + rest, k, p, [q] + tail) == CapsAlong(rest, k, q, tail)
  {
    hide Step;
    var items := [Star(x)] + rest;
    assert items[1..] == rest && ([q] + tail)[1..] == tail;
    forall other | IsPath(items, s, k, p, other)
      ensures |other| == |[q] + tail| && LexLe(other, [q] + tail)
    {
      PathLength(items, s, k, p, other);
      PathLength(rest, s, k, q, tail);
      assert !NoPath(rest, s, k, other[0]);
    }
  }

  lemma StarFailed(x: Single, rest: seq<Item>, s: Text, k: Caps, p: nat)
    requires forall r :: Step(Star(x), s, k, p, r) ==> NoPath(rest, s, k, r)
    ensures NoPath([Star(x)] + rest, s, k, p)
  {
    hide Step;
    var items := [Star(x)] + rest;
    assert items[1..] == rest;
    forall other | IsPath(items, s, k, p, other)
      ensures false
    {
      assert IsPath(rest, s, k, other[0], other[1..]);
    }
  }

  // ----- the greediest path is the longest -----

  ghost predicate NoBack(items: seq<Item>) {
    forall it :: it in items ==> !it.Back? && !it.BackStar?
  }

  /** The groups that are referred to are not marked here: they were closed before. */
  ghost predicate Settled(items: seq<Item>) {
    forall it :: it in items ==> !it.BackStar? && (it.Back? ==> Open(it.n) !in items && Close(it.n) !in items)
  }

  /** The groups that are referred to after the first star are closed before it, or there are none. */
  ghost predicate BacksEarly(items: seq<Item>) {
    items == []
    || if items[0].Star? then Settled(items[1..]) else !items[0].BackStar? && BacksEarly(items[1..])
  }

  lemma {:induction false} NoBackEarly(items: seq<Item>)
    requires NoBack(items)
    ensures Settled(items) && BacksEarly(items)
  {
    if items != [] {
      assert items[0] in items && forall it :: it in items[1..] ==> it in items;
      NoBackEarly(items[1..]);
    }
  }

  lemma {:induction false} SettledEarly(items: seq<Item>)
    requires Settled(items)
    ensures BacksEarly(items)
  {
    if items != [] {
      assert items[0] in items && forall it :: it in items[1..] ==> it in items;
      SettledEarly(items[1..]);
    }
  }

  /** Captures alike in the groups that are referred to. */
  ghost predicate SameRefs(items: seq<Item>, k: Caps, k2: Caps) {
    && |k.starts| == |k2.starts| && |k.ends| == |k2.ends|
    && forall it {:trigger it in items} :: it in items && it.Back? ==>
         (it.n < |k.starts| ==> k.starts[it.n] == k2.starts[it.n]) && (it.n < |k.ends| ==> k.ends[it.n] == k2.ends[it.n])
  }

  lemma RefsAfter(items: seq<Item>, k: Caps, k2: Caps, p: nat, p2: nat)
    requires items != [] && Settled(items) && SameRefs(items, k, k2)
    ensures Settled(items[1..]) && SameRefs(items[1..], After(items[0], k, p), After(items[0], k2, p2))
  {
    assert items[0] in items && forall it :: it in items[1..] ==> it in items;
  }

  lemma SameStep(it: Item, s: Text, k: Caps, k2: Caps, p: nat, q: nat)
    requires SameRefs([it], k, k2) && Step(it, s, k, p, q)
    ensures Step(it, s, k2, p, q)
  {
    hide Has, Copies;
    assert it in [it];
  }

  /** Items other than stars go on by a distance that the captures fix. */
  lemma StepFixed(it: Item, s: Text, k: Caps, k2: Caps, p: nat, q: nat, p2: nat, q2: nat)
    requires !it.Star? && SameRefs([it], k, k2) && Step(it, s, k, p, q) && Step(it, s, k2, p2, q2)
    ensures q - p == q2 - p2
  {
    hide Has;
    assert it in [it];
  }

  /** Captures do not steer the match beyond the groups that are referred to. */
  lemma {:induction false} CapsIrrelevant(items: seq<Item>, s: Text, k: Caps, k2: Caps, p: nat, path: seq<nat>)
    requires Settled(items) && SameRefs(items, k, k2) && IsPath(items, s, k, p, path)
    ensures IsPath(items, s, k2, p, path)
  {
    hide After, Step, Settled, SameRefs;
    if items != [] {
      OneRef(items, k, k2);
      SameStep(items[0], s, k, k2, p, path[0]);
      RefsAfter(items, k, k2, p, p);
      CapsIrrelevant(items[1..], s, After(items[0], k, p), After(items[0], k2, p), path[0], path[1..]);
    }
  }

  lemma OneRef(items: seq<Item>, k: Caps, k2: Caps)
    requires items != [] && SameRefs(items, k, k2)
    ensures SameRefs([items[0]], k, k2)
  {
    assert items[0] in items;
  }

  /** Paths that cross can be exchanged: if one match starts no later than another and ends no
      earlier, the later start can reach the later end too. */
  lemma {:induction false} Exchange(items: seq<Item>, s: Text, k: Caps, p: nat, path: seq<nat>,
                                    k2: Caps, p2: nat, path2: seq<nat>)
    returns (crossed: seq<nat>)
    requires Settled(items) && SameRefs(items, k, k2)
    requires IsPath(items, s, k, p, path) && IsPath(items, s, k2, p2, path2)
    requires p2 <= p && Final(p, path) <= Final(p2, path2)
    ensures IsPath(items, s, k, p, crossed) && Final(p, crossed) == Final(p2, path2)
  {
    hide After, Has, Copies, Settled, SameRefs;
    if items == [] {
      return path;
    }
    var it, rest := items[0], items[1..];
    var a, b := path[0], path2[0];
    var ka := After(it, k, p);
    OneRef(items, k, k2);
    RefsAfter(items, k, k2, p, p2);
    if b <= a {
      var tail := Exchange(rest, s, ka, a, path[1..], After(it, k2, p2), b, path2[1..]);
      crossed := [a] + tail;
      assert crossed[1..] == tail;
    } else {
      // only a star can be overtaken, and then it could have gone as far itself
      if !it.Star? {
        StepFixed(it, s, k, k2, p, a, p2, b);
      }
      PathLength(rest, s, ka, a, path[1..]);
      RefsBack(rest, ka, After(it, k2, p2));
      CapsIrrelevant(rest, s, After(it, k2, p2), ka, b, path2[1..]);
      crossed := path2;
    }
  }

  lemma RefsBack(items: seq<Item>, k: Caps, k2: Caps)
    requires SameRefs(items, k, k2)
    ensures SameRefs(items, k2, k)
  {
  }

  lemma {:induction false} GreediestTail(items: seq<Item>, s: Text, k: Caps, p: nat, path: seq<nat>)
    requires items != [] && Greediest(items, s, k, p, path)
    ensures path != [] && Greediest(items[1..], s, After(items[0], k, p), path[0], path[1..])
  {
    hide After, Step;
    forall tail | IsPath(items[1..], s, After(items[0], k, p), path[0], tail)
      ensures |tail| == |path[1..]| && LexLe(tail, path[1..])
    {
      var other := [path[0]] + tail;
      assert other[1..] == tail;
      assert IsPath(items, s, k, p, other);
    }
  }

  /** Of all the matches from one place the greediest is the longest, when the pattern has no back
      reference after its first star, or none but to groups closed before that. */
  lemma {:induction false} GreediestIsLongest(items: seq<Item>, s: Text, k: Caps, p: nat, path: seq<nat>,
                                              other: seq<nat>)
    requires BacksEarly(items) && Greediest(items, s, k, p, path) && IsPath(items, s, k, p, other)
    ensures Final(p, other) <= Final(p, path)
    decreases |items|
  {
    hide After, Step, Settled, SameRefs;
    if items != [] {
      var it, rest, ka := items[0], items[1..], After(items[0], k, p);
      GreediestTail(items, s, k, p, path);
      assert LexLe(other, path);
      if !it.Star? {
        RefsSelf([it], k);
        StepFixed(it, s, k, k, p, path[0], p, other[0]);
      } else {
        SettledEarly(rest);
      }
      if other[0] == path[0] {
        GreediestIsLongest(rest, s, ka, path[0], path[1..], other[1..]);
      } else if Final(p, path) < Final(p, other) {
        RefsSelf(rest, ka);
        var crossed := Exchange(rest, s, ka, path[0], path[1..], ka, other[0], other[1..]);
        GreediestIsLongest(rest, s, ka, path[0], path[1..], crossed);
      }
    }
  }

  lemma RefsSelf(items: seq<Item>, k: Caps)
    ensures SameRefs(items, k, k)
  {
  }

  /** No match from p ends beyond e. */
  ghost predicate Longest(items: seq<Item>, s: Text, k: Caps, p: nat, e: nat) {
    forall other :: IsPath(items, s, k, p, other) ==> Final(p, other) <= e
  }

  lemma GreediestLongest(items: seq<Item>, s: Text, k: Caps, p: nat, path: seq<nat>)
    requires Greediest(items, s, k, p, path)
    ensures p <= Final(p, path) <= |s| && !NoPath(items, s, k, p)
    ensures BacksEarly(items) ==> Longest(items, s, k, p, Final(p, path))
  {
    PathLength(items, s, k, p, path);
    PathExists(items, s, k, p, path);
    if BacksEarly(items) {
      forall other | IsPath(items, s, k, p, other)
        ensures Final(p, other) <= Final(p, path)
      {
        GreediestIsLongest(items, s, k, p, path, other);
      }
    }
  }


  /** The five positions of a path over five items. */
  lemma UnfoldFive(items: seq<Item>, s: Text, k: Caps, p: nat, path: seq<nat>)
    requires |items| == 5 && IsPath(items, s, k, p, path)
    ensures |path| == 5 && Step(items[0], s, k, p, path[0])
    ensures var k1 := After(items[0], k, p); var k2 := After(items[1], k1, path[0]);
            var k3 := After(items[2], k2, path[1]); var k4 := After(items[3], k3, path[2]);
            Step(items[1], s, k1, path[0], path[1]) && Step(items[2], s, k2, path[1], path[2])
            && Step(items[3], s, k3, path[2], path[3]) && Step(items[4], s, k4, path[3], path[4])
  {
    hide After, Step;
    PathLength(items, s, k, p, path);
    var k1 := After(items[0], k, p);
    var k2 := After(items[1], k1, path[0]);
    var k3 := After(items[2], k2, path[1]);
    assert items[1..][1..] == items[2..] && path[1..][1..] == path[2..];
    assert items[2..][1..] == items[3..] && path[2..][1..] == path[3..];
    assert items[3..][1..] == items[4..] && path[3..][1..] == path[4..];
    assert items[1..][0] == items[1] && items[2..][0] == items[2] && items[3..][0] == items[3];
    assert path[1..][0] == path[1] && path[2..][0] == path[2] && path[3..][0] == path[3];
    assert IsPath(items[1..], s, k1, path[0], path[1..]);
    assert IsPath(items[2..], s, k2, path[1], path[2..]);
    assert IsPath(items[3..], s, k3, path[2], path[3..]);
    assert items[4..][0] == items[4] && path[4..][0] == path[4];
    assert IsPath(items[4..], s, After(items[3], k3, path[2]), path[3], path[4..]);
  }

  lemma FivePath(items: seq<Item>, s: Text, k: Caps, p: nat, path: seq<nat>)
    requires |items| == 5 && |path| == 5 && Step(items[0], s, k, p, path[0]) && path[4] <= |s|
    requires var k1 := After(items[0], k, p); var k2 := After(items[1], k1, path[0]);
             var k3 := After(items[2], k2, path[1]); var k4 := After(items[3], k3, path[2]);
             Step(items[1], s, k1, path[0], path[1]) && Step(items[2], s, k2, path[1], path[2])
             && Step(items[3], s, k3, path[2], path[3]) && Step(items[4], s, k4, path[3], path[4])
    ensures IsPath(items, s, k, p, path)
  {
    hide After, Step;
    var k1 := After(items[0], k, p);
    var k2 := After(items[1], k1, path[0]);
    var k3 := After(items[2], k2, path[1]);
    var k4 := After(items[3], k3, path[2]);
    assert items[1..][1..] == items[2..] && path[1..][1..] == path[2..];
    assert items[2..][1..] == items[3..] && path[2..][1..] == path[3..];
    assert items[3..][1..] == items[4..] && path[3..][1..] == path[4..];
    assert IsPath(items[4..], s, k4, path[3], path[4..]);
    assert IsPath(items[3..], s, k3, path[2], path[3..]);
    assert IsPath(items[2..], s, k2, path[1], path[2..]);
  }

  lemma LexLeFive(a: seq<nat>, b: seq<nat>)
    requires |a| == |b| == 5 && a[0] == b[0] && a[1] == a[2] && b[1] == b[2]
    requires a[1] < b[1] || (a[1] == b[1] && a[3] == b[3] && a[4] == b[4])
    ensures LexLe(a, b)
  {
    assert a[1..][1..] == a[2..] && b[1..][1..] == b[2..];
    assert a[2..][1..] == a[3..] && b[2..][1..] == b[3..];
    assert a[3..][1..] == a[4..] && b[3..][1..] == b[4..];
    assert LexLe(a[4..], b[4..]) || a[1] < b[1];
    assert LexLe(a[2..], b[2..]) || a[1] < b[1];
  }

  const REPEAT := [Open(0), Star(Lit(A)), Close(0), Star(Dot), Back(0)]  // \(a*\).*\1

  /** aaaa, then n b's, then a. */
  function Tailed(n: nat): (s: Text)
    ensures |s| == 5 + n && s[4 + n] == A && forall i :: 0 <= i < 4 + n ==> s[i] == if i < 4 then A else B
  {
    seq(5 + n, i => if i < 4 || i == 4 + n then A else B)
  }

  /** The paths of that pattern through that line: x a's are captured, and recur at y. */
  lemma RepeatPath(n: nat, k: Caps, x: nat, y: nat, path: seq<nat>)
    requires CapsWf(k) && n >= 1
    ensures IsPath(REPEAT, Tailed(n), k, 0, path) && |path| == 5 && path[2] == x && path[3] == y
            ==> path == [0, x, x, y, path[4]] && x <= 4 && x <= y <= 5 + n && Copies(Tailed(n), 0, x, y, path[4])
    ensures x <= 4 && x <= y <= 5 + n && path == [0, x, x, y, y + x] && Copies(Tailed(n), 0, x, y, y + x)
            ==> IsPath(REPEAT, Tailed(n), k, 0, path)
  {
    var s := Tailed(n);
    if IsPath(REPEAT, s, k, 0, path) && |path| == 5 && path[2] == x && path[3] == y {
      UnfoldFive(REPEAT, s, k, 0, path);
      assert s[4] == B;
      assert x <= 4;
    }
    if x <= 4 && x <= y <= 5 + n && path == [0, x, x, y, y + x] && Copies(s, 0, x, y, y + x) {
      FivePath(REPEAT, s, k, 0, path);
    }
  }

  /** Only x == 2 at y == 2 captures two a's or more. */
  lemma RepeatAtMostTwo(n: nat, x: nat, y: nat, q: nat)
    requires n >= 1 && 2 <= x <= 4 && x <= y <= 5 + n && Copies(Tailed(n), 0, x, y, q)
    ensures x == 2 && y == 2 && q == 4
  {
    var s := Tailed(n);
    assert s[y..q][0] == s[0..x][0] && s[y..q][1] == s[0..x][1];
    assert s[y] == s[y + 1] == A;
  }

  /** With a back reference the greediest match need not be the longest, and can be shorter by any length:
      on aaaa, n b's and a, for every n >= 1, \(a*\).*\1 prefers aaaa to the whole line. */
  lemma GreediestNotLongestWithBack(n: nat, k: Caps)
    requires CapsWf(k) && n >= 1
    ensures Greediest(REPEAT, Tailed(n), k, 0, [0, 2, 2, 2, 4])
    ensures IsPath(REPEAT, Tailed(n), k, 0, [0, 1, 1, 4 + n, 5 + n])
    ensures Final(0, [0, 1, 1, 4 + n, 5 + n]) == |Tailed(n)| == Final(0, [0, 2, 2, 2, 4]) + n + 1
  {
    hide IsPath;
    var s := Tailed(n);
    assert s[2..4] == s[0..2] && s[4 + n..5 + n] == s[0..1];
    RepeatPath(n, k, 2, 2, [0, 2, 2, 2, 4]);
    RepeatPath(n, k, 1, 4 + n, [0, 1, 1, 4 + n, 5 + n]);
    forall rival | IsPath(REPEAT, s, k, 0, rival)
      ensures |rival| == 5 && LexLe(rival, [0, 2, 2, 2, 4])
    {
      PathLength(REPEAT, s, k, 0, rival);
      var x, y := rival[2], rival[3];
      RepeatPath(n, k, x, y, rival);
      if x >= 2 {
        RepeatAtMostTwo(n, x, y, rival[4]);
      }
      LexLeFive(rival, [0, 2, 2, 2, 4]);
    }
  }
}
