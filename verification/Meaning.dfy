/** What the text of a pattern means: the texts it takes from a line, said for the way patterns are built up
    and not for their items. */
module Meaning {
  import opened Pattern
  import opened Matching
  import PatternSearch

  /** What comes in a class after its first character: one more, or all up to one from the character before. */
  datatype Member = Another(c: Ch) | UpTo(hi: Ch)

  /** What patterns are made of.  A character may have a backslash before it, a class may end with a dash, there
      may be more stars than one, and an asterisk that follows nothing it could repeat stands for itself. */
  datatype Expr =
    | Nothing
    | Char(c: Ch, quoted: bool)
    | AnyOne
    | OneOf(negated: bool, first: Ch, more: seq<Member>, dash: bool)
    | Asterisk
    | Many(x: Expr, stars: nat)
    | Group(body: Expr)
    | Again(n: nat)
    | Then(a: Expr, b: Expr)

  predicate IsSingle(e: Expr) {
    e.Char? || e.AnyOne? || e.OneOf?
  }

  // ----- how it is written -----

  /** The characters that mean something wherever they stand, and those that do behind a backslash. */
  predicate Special(c: int) {
    c in {'\\' as int, '[' as int, '*' as int, '.' as int}
  }

  predicate Marked(c: int) {
    c == '(' as int || c == ')' as int || '1' as int <= c <= '9' as int
  }

  function SpelledMember(m: Member): Text {
    match m
    case Another(c) => [c]
    case UpTo(hi) => ['-' as int, hi]
  }

  function SpelledMembers(ms: seq<Member>): Text {
    if ms == [] then [] else SpelledMember(ms[0]) + SpelledMembers(ms[1..])
  }

  /** How a class ends. */
  function End(dash: bool): Text {
    if dash then ['-' as int, ']' as int] else [']' as int]
  }

  function Asterisks(n: nat): (r: Text)
    ensures |r| == n && forall i :: 0 <= i < n ==> r[i] == '*' as int
  {
    seq(n, i => '*' as int)
  }

  function Spelled(e: Expr): Text {
    match e
    case Nothing => []
    case Char(c, quoted) => if quoted then ['\\' as int, c] else [c]
    case AnyOne => ['.' as int]
    case OneOf(negated, first, more, dash) =>
      (if negated then ['[' as int, '^' as int] else ['[' as int]) + ([first] + SpelledMembers(more) + End(dash))
    case Asterisk => ['*' as int]
    case Many(x, stars) => Spelled(x) + Asterisks(stars + 1)
    case Group(body) => ['\\' as int, '(' as int] + Spelled(body) + ['\\' as int, ')' as int]
    case Again(n) => ['\\' as int, if n < NBRA then '1' as int + n else '1' as int]
    case Then(a, b) => Spelled(a) + Spelled(b)
  }

  /** A star after it would repeat what it ends with, or be one star more. */
  predicate EndsSingle(e: Expr) {
    match e
    case Nothing => false
    case Asterisk => false
    case Group(_) => false
    case Then(a, b) => EndsSingle(b) || (Spelled(b) == [] && EndsSingle(a))
    case _ => true
  }

  /** It ends with a $ that has no backslash. */
  predicate EndsDollar(e: Expr) {
    match e
    case Char(c, quoted) => c == '$' as int && !quoted
    case Then(a, b) => EndsDollar(b) || (Spelled(b) == [] && EndsDollar(a))
    case _ => false
  }

  predicate MemberFine(m: Member) {
    match m
    case Another(c) => c != ']' as int && c != '-' as int
    case UpTo(hi) => hi != ']' as int
  }

  predicate MembersFine(ms: seq<Member>) {
    forall i :: 0 <= i < |ms| ==> MemberFine(ms[i])
  }

  /** What is read as it is meant: only single characters are repeated, asterisks stand for themselves where they
      repeat nothing, and a $ only where something follows. */
  predicate Fine(e: Expr) {
    match e
    case Char(c, quoted) => if quoted then !Marked(c) else !Special(c)
    case OneOf(negated, first, more, dash) => MembersFine(more) && (!negated ==> first != '^' as int)
    case Many(x, _) => IsSingle(x) && Fine(x)
    case Group(body) => Fine(body)
    case Again(n) => n < NBRA
    case Then(a, b) =>
      Fine(a) && Fine(b) && (StarAhead(Spelled(b)) ==> !EndsSingle(a))
    case _ => true
  }

  /** How many groups there are. */
  function Groups(e: Expr): nat {
    match e
    case Group(body) => 1 + Groups(body)
    case Then(a, b) => Groups(a) + Groups(b)
    case _ => 0
  }

  // ----- what it takes -----

  /** The members of a class after the character prev name c. */
  predicate Covers(prev: Ch, ms: seq<Member>, c: Ch)
    decreases |ms|
  {
    ms != [] &&
    match ms[0]
    case Another(x) => c == x || Covers(x, ms[1..], c)
    case UpTo(hi) => prev <= c <= hi || c == hi || Covers(hi, ms[1..], c)
  }

  predicate Admits(e: Expr, c: Ch) {
    match e
    case Char(a, _) => c == a
    case AnyOne => true
    case OneOf(negated, first, more, dash) => negated != (c == first || Covers(first, more, c) || (dash && c == '-' as int))
    case Asterisk => c == '*' as int
    case _ => false
  }

  /** What groups have taken, by their numbers. */
  type Taken = map<nat, (nat, nat)>

  /** Group g has taken s[p..q]. */
  ghost predicate Noted(env: Taken, g: nat, p: nat, q: nat, env2: Taken) {
    env2 == env[g := (p, q)]
  }

  /** s[a..b] recurs from p to q.  If it is empty, what follows it does. */
  ghost predicate Recurs(s: Text, a: nat, b: nat, p: nat, q: nat) {
    && a <= b <= |s| && q == p + (b - a) && q <= |s| && s[p..q] == s[a..b]
    && (a == b ==> At(s, a) == At(s, p))
  }

  /** e, whose groups are numbered from g on, takes s[p..q], and leaves the groups as in env2. */
  ghost predicate Takes(e: Expr, g: nat, s: Text, env: Taken, p: nat, q: nat, env2: Taken) {
    match e
    case Nothing => p == q <= |s| && env2 == env
    case Many(x, _) => p <= q <= |s| && env2 == env && forall i :: p <= i < q ==> Admits(x, s[i])
    case Group(body) => exists inner :: Takes(body, g + 1, s, env, p, q, inner) && Noted(inner, g, p, q, env2)
    case Again(n) => n in env && Recurs(s, env[n].0, env[n].1, p, q) && env2 == env
    case Then(a, b) => exists m, mid :: Takes(a, g, s, env, p, m, mid) && Takes(b, g + Groups(a), s, mid, m, q, env2)
    case _ => p < |s| && q == p + 1 && Admits(e, s[p]) && env2 == env
  }

  /** A whole pattern takes s[p..q]. */
  ghost predicate Means(e: Expr, s: Text, p: nat, q: nat) {
    exists env :: Takes(e, 0, s, map[], p, q, env)
  }

  // ----- how it is read -----

  function Part(prev: Ch, m: Member): Elem {
    match m
    case Another(c) => Only(c)
    case UpTo(hi) => Range(prev, hi)
  }

  function Last(m: Member): Ch {
    match m
    case Another(c) => c
    case UpTo(hi) => hi
  }

  function Parts(prev: Ch, ms: seq<Member>): seq<Elem>
    decreases |ms|
  {
    if ms == [] then [] else [Part(prev, ms[0])] + Parts(Last(ms[0]), ms[1..])
  }

  function EndParts(dash: bool): seq<Elem> {
    if dash then [Only('-' as int)] else []
  }

  function Elems(e: Expr): seq<Elem>
    requires e.OneOf?
  {
    [Only(e.first)] + (Parts(e.first, e.more) + EndParts(e.dash))
  }

  function AsSingle(e: Expr): Single
    requires IsSingle(e) || e.Asterisk?
  {
    match e
    case Char(c, _) => Lit(c)
    case AnyOne => Dot
    case OneOf(negated, _, _, _) => Class(negated, Elems(e))
    case Asterisk => Lit('*' as int)
  }

  function Items(e: Expr, g: nat): seq<Item>
    requires Fine(e)
  {
    match e
    case Nothing => []
    case Many(x, _) => [Star(AsSingle(x))]
    case Group(body) => [Open(g)] + Items(body, g + 1) + [Close(g)]
    case Again(n) => [Back(n)]
    case Then(a, b) => Items(a, g) + Items(b, g + Groups(a))
    case _ => [One(AsSingle(e))]
  }

  lemma ReadEnd(dash: bool, t: Text, last: Ch)
    ensures ParseMore(End(dash) + t, last) == Ok(ClassText(EndParts(dash), t))
  {
    if dash {
      assert (End(dash) + t)[2..] == t;
    } else {
      assert (End(dash) + t)[1..] == t;
    }
  }

  lemma ReadMember(m: Member, t: Text, last: Ch)
    requires MemberFine(m)
    ensures ParseMore(SpelledMember(m) + t, last) == PrependElem(Part(last, m), ParseMore(t, Last(m)))
  {
    if m.Another? {
      assert ([m.c] + t)[1..] == t;
    } else {
      assert (['-' as int, m.hi] + t)[2..] == t;
    }
  }

  lemma FirstMember(ms: seq<Member>, dash: bool, t: Text, last: Ch)
    requires ms != []
    ensures SpelledMembers(ms) + End(dash) + t == SpelledMember(ms[0]) + (SpelledMembers(ms[1..]) + End(dash) + t)
    ensures Parts(last, ms) + EndParts(dash)
            == [Part(last, ms[0])] + (Parts(Last(ms[0]), ms[1..]) + EndParts(dash))
  {
    hide End, EndParts, SpelledMember;
  }

  lemma {:induction false} ReadMembers(ms: seq<Member>, dash: bool, t: Text, last: Ch)
    requires MembersFine(ms)
    ensures ParseMore(SpelledMembers(ms) + End(dash) + t, last) == Ok(ClassText(Parts(last, ms) + EndParts(dash), t))
    decreases |ms|
  {
    hide ParseMore, End, EndParts, SpelledMember, Part, Last;
    if ms == [] {
      ReadEnd(dash, t, last);
      assert SpelledMembers(ms) + End(dash) + t == End(dash) + t;
      assert Parts(last, ms) + EndParts(dash) == EndParts(dash);
    } else {
      var text := SpelledMembers(ms[1..]) + End(dash) + t;
      assert MembersFine(ms[1..]) && MemberFine(ms[0]);
      ReadMembers(ms[1..], dash, t, Last(ms[0]));
      FirstMember(ms, dash, t, last);
      hide SpelledMembers, Parts;
      ReadMember(ms[0], text, last);
    }
  }

  /** A class is read as its elements. */
  lemma ReadClass(e: Expr, t: Text)
    requires e.OneOf? && Fine(e)
    ensures var s := Spelled(e) + t;
            && s[0] == '[' as int && |s| > 1 && (s[1] == '^' as int <==> e.negated)
            && ParseElems(if e.negated then s[2..] else s[1..], 0) == Ok(ClassText(Elems(e), t))
  {
    hide ParseMore, SpelledMembers, MembersFine;
    var s := Spelled(e) + t;
    var text := SpelledMembers(e.more) + End(e.dash) + t;
    var inner := [e.first] + text;
    ReadMembers(e.more, e.dash, t, e.first);
    assert inner[1..] == text;
    if e.negated {
      assert s == ['[' as int, '^' as int] + inner && s[2..] == inner;
    } else {
      assert s == ['[' as int] + inner && s[1..] == inner;
    }
  }

  /** A single character, and a star after it. */
  lemma ReadSingle(e: Expr, t: Text, g: nat, stack: seq<nat>)
    requires IsSingle(e) && Fine(e) && (t == [] ==> !EndsDollar(e))
    ensures ParseSeq(Spelled(e) + t, g, stack) == ParseAtom(One(AsSingle(e)), t, g, stack)
  {
    hide ParseAtom, ParseElems;
    var s := Spelled(e) + t;
    if e.Char? {
      assert if e.quoted then s[2..] == t else s[1..] == t;
    } else if e.AnyOne? {
      assert s[1..] == t;
    } else {
      ReadClass(e, t);
    }
  }

  lemma PrependTwice(a: seq<Item>, b: seq<Item>, r: Result<seq<Item>>)
    ensures PrependAll(a, PrependAll(b, r)) == PrependAll(a + b, r)
  {
    if r.Ok? {
      assert a + (b + r.value) == a + b + r.value;
    }
  }

  lemma PrependOne(it: Item, r: Result<seq<Item>>)
    ensures Prepend(it, r) == PrependAll([it], r)
    ensures PrependAll([], r) == r
  {
    assert r.Ok? ==> [] + r.value == r.value;
  }

  lemma {:induction false} DropAsterisks(n: nat, t: Text)
    requires !StarAhead(t)
    ensures DropStars(Asterisks(n) + t) == t
    decreases n
  {
    if n == 0 {
      assert Asterisks(0) + t == t;
    } else {
      assert (Asterisks(n) + t)[1..] == Asterisks(n - 1) + t;
      DropAsterisks(n - 1, t);
    }
  }

  lemma ReadStar(x: Expr, stars: nat, t: Text, g: nat, stack: seq<nat>)
    requires IsSingle(x) && Fine(x) && !StarAhead(t)
    ensures ParseSeq(Spelled(Many(x, stars)) + t, g, stack) == Prepend(Star(AsSingle(x)), ParseSeq(t, g, stack))
  {
    hide ParseSeq, Asterisks;
    var u := Asterisks(stars + 1) + t;
    assert StarAhead(u);
    ReadSingle(x, u, g, stack);
    DropAsterisks(stars + 1, t);
    assert Spelled(Many(x, stars)) + t == Spelled(x) + u;
  }

  lemma ReadAsterisk(t: Text, g: nat, stack: seq<nat>)
    ensures ParseSeq(['*' as int] + t, g, stack) == Prepend(One(Lit('*' as int)), ParseSeq(t, g, stack))
  {
    assert (['*' as int] + t)[1..] == t;
  }

  lemma ReadMarks(inner: Text, t: Text, g: nat, stack: seq<nat>)
    ensures g < NBRA ==> ParseSeq(['\\' as int, '(' as int] + inner, g, stack)
                         == Prepend(Open(g), ParseSeq(inner, g + 1, stack + [g]))
    ensures stack != [] ==> ParseSeq(['\\' as int, ')' as int] + t, g, stack)
                            == Prepend(Close(stack[|stack| - 1]), ParseSeq(t, g, stack[..|stack| - 1]))
  {
    assert (['\\' as int, '(' as int] + inner)[2..] == inner;
    assert (['\\' as int, ')' as int] + t)[2..] == t;
  }

  lemma ReadAgain(n: nat, t: Text, g: nat, stack: seq<nat>)
    requires n < NBRA && !StarAhead(t)
    ensures ParseSeq(Spelled(Again(n)) + t, g, stack) == Prepend(Back(n), ParseSeq(t, g, stack))
  {
    assert (Spelled(Again(n)) + t)[2..] == t;
  }

  /** What is written is read as its items, and what comes after it as if it came first. */
  lemma {:induction false} ReadExpr(e: Expr, t: Text, g: nat, stack: seq<nat>)
    requires Fine(e) && g + Groups(e) <= NBRA && (StarAhead(t) ==> !EndsSingle(e)) && (t == [] ==> !EndsDollar(e))
    ensures ParseSeq(Spelled(e) + t, g, stack) == PrependAll(Items(e, g), ParseSeq(t, g + Groups(e), stack))
    decreases e, 0
  {
    hide ParseSeq, PrependAll, Prepend, MembersFine, Items, Spelled;
    match e
    case Group(body) =>
      ReadGroup(body, t, g, stack);
    case Then(a, b) =>
      ThenParts(a, b, t, g);
      AheadOfBoth(Spelled(b), t);
      ReadExpr(a, Spelled(b) + t, g, stack);
      ReadExpr(b, t, g + Groups(a), stack);
      PrependTwice(Items(a, g), Items(b, g + Groups(a)), ParseSeq(t, g + Groups(e), stack));
    case _ =>
      ReadPiece(e, t, g, stack);
  }

  lemma AheadOfBoth(s: Text, t: Text)
    ensures StarAhead(s + t) <==> if s == [] then StarAhead(t) else StarAhead(s)
    ensures s + t == [] <==> s == [] && t == []
  {
  }

  lemma ThenParts(a: Expr, b: Expr, t: Text, g: nat)
    requires Fine(Then(a, b))
    ensures Spelled(Then(a, b)) + t == Spelled(a) + (Spelled(b) + t)
    ensures Items(Then(a, b), g) == Items(a, g) + Items(b, g + Groups(a))
  {
  }

  /** A piece that is an item, or none. */
  lemma ReadPiece(e: Expr, t: Text, g: nat, stack: seq<nat>)
    requires Fine(e) && !e.Group? && !e.Then? && (StarAhead(t) ==> !EndsSingle(e)) && (t == [] ==> !EndsDollar(e))
    ensures ParseSeq(Spelled(e) + t, g, stack) == PrependAll(Items(e, g), ParseSeq(t, g, stack))
  {
    hide ParseSeq, ParseAtom, PrependAll, Prepend, MembersFine;
    var r := ParseSeq(t, g, stack);
    if e.Nothing? {
      assert Spelled(e) + t == t;
      PrependOne(Dollar, r);
    } else if e.Asterisk? {
      ReadAsterisk(t, g, stack);
      PrependOne(One(AsSingle(e)), r);
    } else if e.Many? {
      ReadStar(e.x, e.stars, t, g, stack);
      PrependOne(Star(AsSingle(e.x)), r);
    } else if e.Again? {
      ReadAgain(e.n, t, g, stack);
      PrependOne(Back(e.n), r);
    } else {
      ReadSingle(e, t, g, stack);
      ReadAtom(One(AsSingle(e)), t, g, stack);
      PrependOne(One(AsSingle(e)), r);
    }
  }

  lemma ReadAtom(it: Item, t: Text, g: nat, stack: seq<nat>)
    requires !StarAhead(t)
    ensures ParseAtom(it, t, g, stack) == Prepend(it, ParseSeq(t, g, stack))
  {
  }

  lemma {:induction false} ReadGroup(body: Expr, t: Text, g: nat, stack: seq<nat>)
    requires Fine(body) && g + 1 + Groups(body) <= NBRA
    ensures ParseSeq(Spelled(Group(body)) + t, g, stack)
            == PrependAll(Items(Group(body), g), ParseSeq(t, g + 1 + Groups(body), stack))
    decreases body, 1
  {
    hide ParseSeq, PrependAll, Items, Spelled, StarAhead;
    var after := ['\\' as int, ')' as int] + t;
    GroupSpelled(body, t);
    ReadExpr(body, after, g + 1, stack + [g]) by {
      NoStar(t);
    }
    ReadBetween(Items(body, g + 1), Spelled(body), t, g, g + 1 + Groups(body), stack);
    GroupItems(body, g);
  }

  lemma NoStar(t: Text)
    ensures !StarAhead(['\\' as int, ')' as int] + t) && ['\\' as int, ')' as int] + t != []
  {
  }

  lemma GroupItems(body: Expr, g: nat)
    requires Fine(body)
    ensures Items(Group(body), g) == [Open(g)] + Items(body, g + 1) + [Close(g)]
  {
  }

  /** What is between the marks of a group, read as `inner`. */
  lemma ReadBetween(inner: seq<Item>, text: Text, t: Text, g: nat, h: nat, stack: seq<nat>)
    requires g < NBRA
    requires var after := ['\\' as int, ')' as int] + t;
             ParseSeq(text + after, g + 1, stack + [g]) == PrependAll(inner, ParseSeq(after, h, stack + [g]))
    ensures ParseSeq(['\\' as int, '(' as int] + (text + (['\\' as int, ')' as int] + t)), g, stack)
            == PrependAll([Open(g)] + inner + [Close(g)], ParseSeq(t, h, stack))
  {
    hide ParseSeq, PrependAll, Prepend;
    ReadMarks(text + (['\\' as int, ')' as int] + t), t, g, stack);
    ReadMarks([], t, h, stack + [g]);
    assert (stack + [g])[..|stack|] == stack;
    PrependGroup(g, inner, ParseSeq(t, h, stack));
  }

  lemma GroupSpelled(body: Expr, t: Text)
    ensures Spelled(Group(body)) + t == ['\\' as int, '(' as int] + (Spelled(body) + (['\\' as int, ')' as int] + t))
  {
  }

  lemma PrependGroup(g: nat, inner: seq<Item>, r: Result<seq<Item>>)
    ensures Prepend(Open(g), PrependAll(inner, Prepend(Close(g), r))) == PrependAll([Open(g)] + inner + [Close(g)], r)
  {
    if r.Ok? {
      assert [Open(g)] + (inner + ([Close(g)] + r.value)) == [Open(g)] + inner + [Close(g)] + r.value;
    }
  }

  // ----- what its items match -----

  lemma {:induction false} NamesCat(a: seq<Elem>, b: seq<Elem>, c: Ch)
    ensures Names(a + b, c) <==> Names(a, c) || Names(b, c)
  {
    hide ElemHas;
    if a == [] {
      assert a + b == b;
    } else {
      NamesCat(a[1..], b, c);
      assert (a + b)[1..] == a[1..] + b;
    }
  }

  lemma {:induction false} NamesParts(prev: Ch, ms: seq<Member>, c: Ch)
    ensures Names(Parts(prev, ms), c) <==> Covers(prev, ms, c)
    decreases |ms|
  {
    if ms != [] {
      var next := Last(ms[0]);
      NamesParts(next, ms[1..], c);
      assert Parts(prev, ms)[1..] == Parts(next, ms[1..]);
    }
  }

  lemma AdmitsHas(e: Expr, c: Ch)
    requires IsSingle(e) || e.Asterisk?
    ensures Has(AsSingle(e), c) <==> Admits(e, c)
  {
    if e.OneOf? {
      var parts, end := Parts(e.first, e.more), EndParts(e.dash);
      NamesParts(e.first, e.more, c);
      NamesCat(parts, end, c);
      NamesCat([Only(e.first)], parts + end, c);
    }
  }

  /** The boundaries k are those of the groups in env, which are numbered below g. */
  ghost predicate Known(env: Taken, k: Caps, g: nat) {
    && CapsWf(k)
    && (forall n :: n in env ==> n < g && n < NBRA && env[n].0 <= env[n].1 && k.starts[n] == env[n].0 && k.ends[n] == env[n].1)
    && forall n: nat :: n < NBRA && n !in env ==> k.ends[n] == NIL
  }

  lemma {:induction false} Marks(e: Expr, g: nat, n: nat)
    requires Fine(e) && (Open(n) in Items(e, g) || Close(n) in Items(e, g))
    ensures g <= n < g + Groups(e)
  {
    match e
    case Group(body) =>
      if n != g {
        Marks(body, g + 1, n);
      }
    case Then(a, b) =>
      if Open(n) in Items(a, g) || Close(n) in Items(a, g) {
        Marks(a, g, n);
      } else {
        Marks(b, g + Groups(a), n);
      }
    case _ =>
  }

  lemma {:induction false} PathCat(xs: seq<Item>, ys: seq<Item>, s: Text, k: Caps, p: nat, path: seq<nat>, path2: seq<nat>)
    requires IsPath(xs, s, k, p, path) && IsPath(ys, s, CapsAlong(xs, k, p, path), Final(p, path), path2)
    ensures IsPath(xs + ys, s, k, p, path + path2)
    ensures CapsAlong(xs + ys, k, p, path + path2) == CapsAlong(ys, CapsAlong(xs, k, p, path), Final(p, path), path2)
    ensures Final(p, path + path2) == Final(Final(p, path), path2)
  {
    hide Step, After;
    if xs == [] {
      assert xs + ys == ys && path + path2 == path2;
    } else {
      PathCat(xs[1..], ys, s, After(xs[0], k, p), path[0], path[1..], path2);
      assert (xs + ys)[1..] == xs[1..] + ys && (path + path2)[1..] == path[1..] + path2;
    }
  }

  lemma {:induction false} PathCut(xs: seq<Item>, ys: seq<Item>, s: Text, k: Caps, p: nat, path: seq<nat>)
    requires IsPath(xs + ys, s, k, p, path)
    ensures |xs| <= |path|
    ensures IsPath(xs, s, k, p, path[..|xs|])
    ensures IsPath(ys, s, CapsAlong(xs, k, p, path[..|xs|]), Final(p, path[..|xs|]), path[|xs|..])
  {
    hide Step, After;
    PathLength(xs + ys, s, k, p, path);
    if xs == [] {
      assert xs + ys == ys && path[0..] == path;
      PathStarts(ys, s, k, p, path);
    } else {
      assert (xs + ys)[1..] == xs[1..] + ys;
      PathCut(xs[1..], ys, s, After(xs[0], k, p), path[0], path[1..]);
      assert path[1..][..|xs| - 1] == path[..|xs|][1..] && path[1..][|xs| - 1..] == path[|xs|..];
    }
  }

  /** What is left and where a path ends, by its two parts. */
  lemma PathParts(xs: seq<Item>, ys: seq<Item>, s: Text, k: Caps, p: nat, path: seq<nat>)
    requires IsPath(xs + ys, s, k, p, path)
    ensures |xs| <= |path|
    ensures var front, back := path[..|xs|], path[|xs|..];
            && IsPath(xs, s, k, p, front) && IsPath(ys, s, CapsAlong(xs, k, p, front), Final(p, front), back)
            && Final(p, path) == Final(Final(p, front), back)
            && CapsAlong(xs + ys, k, p, path) == CapsAlong(ys, CapsAlong(xs, k, p, front), Final(p, front), back)
  {
    hide IsPath, CapsAlong;
    PathCut(xs, ys, s, k, p, path);
    PathCat(xs, ys, s, k, p, path[..|xs|], path[|xs|..]);
    assert path[..|xs|] + path[|xs|..] == path;
  }

  lemma PathStarts(items: seq<Item>, s: Text, k: Caps, p: nat, path: seq<nat>)
    requires IsPath(items, s, k, p, path)
    ensures p <= |s|
  {
    PathLength(items, s, k, p, path);
  }

  lemma OnePath(it: Item, s: Text, k: Caps, p: nat, q: nat)
    ensures IsPath([it], s, k, p, [q]) <==> Step(it, s, k, p, q) && q <= |s|
    ensures CapsAlong([it], k, p, [q]) == After(it, k, p)
  {
    assert [it][1..] == [] && [q][1..] == [];
  }

  /** A path through a group, and one through what is in it. */
  lemma GroupPath(body: Expr, g: nat, s: Text, k: Caps, p: nat, tail: seq<nat>)
    requires Fine(body) && g < NBRA && CapsWf(k) && IsPath(Items(body, g + 1), s, After(Open(g), k, p), p, tail)
    ensures var q, path := Final(p, tail), [p] + tail + [Final(p, tail)];
            && IsPath(Items(Group(body), g), s, k, p, path) && Final(p, path) == q
            && CapsAlong(Items(Group(body), g), k, p, path)
               == After(Close(g), CapsAlong(Items(body, g + 1), After(Open(g), k, p), p, tail), q)
  {
    hide After, Step;
    var q, inner := Final(p, tail), Items(body, g + 1);
    PathLength(inner, s, After(Open(g), k, p), p, tail);
    OnePath(Open(g), s, k, p, p);
    OnePath(Close(g), s, CapsAlong(inner, After(Open(g), k, p), p, tail), q, q);
    Stays(g, s, k, p);
    Stays(g, s, CapsAlong(inner, After(Open(g), k, p), p, tail), q);
    PathCat([Open(g)], inner, s, k, p, [p], tail);
    PathCat([Open(g)] + inner, [Close(g)], s, k, p, [p] + tail, [q]);
  }

  lemma Stays(g: nat, s: Text, k: Caps, p: nat)
    ensures Step(Open(g), s, k, p, p) && Step(Close(g), s, k, p, p)
    ensures forall q :: Step(Open(g), s, k, p, q) || Step(Close(g), s, k, p, q) ==> q == p
  {
  }

  lemma CutGroup(body: Expr, g: nat, s: Text, k: Caps, p: nat, path: seq<nat>) returns (tail: seq<nat>)
    requires Fine(body) && g < NBRA && CapsWf(k) && IsPath(Items(Group(body), g), s, k, p, path)
    ensures IsPath(Items(body, g + 1), s, After(Open(g), k, p), p, tail)
    ensures path == [p] + tail + [Final(p, tail)] && p <= Final(p, tail) == Final(p, path)
    ensures CapsAlong(Items(Group(body), g), k, p, path)
            == After(Close(g), CapsAlong(Items(body, g + 1), After(Open(g), k, p), p, tail), Final(p, tail))
  {
    hide After, Step;
    var inner := Items(body, g + 1);
    PathLength(Items(Group(body), g), s, k, p, path);
    PathCut([Open(g)] + inner, [Close(g)], s, k, p, path);
    var front := path[..|inner| + 1];
    PathCut([Open(g)], inner, s, k, p, front);
    tail := front[1..];
    assert front[..1] == [front[0]];
    OnePath(Open(g), s, k, p, front[0]);
    Stays(g, s, k, p);
    assert front == [p] + tail;
    var last := path[|inner| + 1..];
    assert last == [last[0]];
    OnePath(Close(g), s, CapsAlong([Open(g)] + inner, k, p, front), Final(p, front), last[0]);
    Stays(g, s, CapsAlong([Open(g)] + inner, k, p, front), Final(p, front));
    assert path == front + last;
    PathLength(inner, s, After(Open(g), k, p), p, tail);
    GroupPath(body, g, s, k, p, tail);
  }

  /** The boundaries of a group once it is closed. */
  lemma KnownGroup(body: Expr, g: nat, k: Caps, k2: Caps, env: Taken, inner: Taken, p: nat, q: nat, tail: seq<nat>)
    requires Fine(body) && g < NBRA && Known(env, k, g) && p <= q
    requires k2 == CapsAlong(Items(body, g + 1), After(Open(g), k, p), p, tail) && Known(inner, k2, g + 1 + Groups(body))
    ensures Known(inner[g := (p, q)], After(Close(g), k2, q), g + 1 + Groups(body))
  {
    CapsOutside(Items(body, g + 1), After(Open(g), k, p), p, tail);
    if Open(g) in Items(body, g + 1) {
      Marks(body, g + 1, g);
    }
  }

  lemma KnownOpen(g: nat, k: Caps, env: Taken, p: nat)
    requires g < NBRA && Known(env, k, g)
    ensures Known(env, After(Open(g), k, p), g + 1)
  {
  }

  lemma RecursCopies(s: Text, a: nat, b: nat, p: nat, q: nat)
    requires a <= b
    ensures Recurs(s, a, b, p, q) <==> Copies(s, a, b, p, q) && q <= |s|
  {
  }

  /** A piece that is one item. */
  lemma OneItem(e: Expr, g: nat, s: Text, env: Taken, k: Caps, p: nat, q: nat)
    requires Fine(e) && (IsSingle(e) || e.Asterisk? || e.Many? || e.Again?) && Known(env, k, g)
    ensures IsPath(Items(e, g), s, k, p, [q]) <==> Takes(e, g, s, env, p, q, env)
    ensures CapsAlong(Items(e, g), k, p, [q]) == k
  {
    hide Copies, Recurs, Has, Admits, Known;
    OnePath(Items(e, g)[0], s, k, p, q);
    if e.Many? {
      forall c: Ch
        ensures Has(AsSingle(e.x), c) <==> Admits(e.x, c)
      {
        AdmitsHas(e.x, c);
      }
    } else if e.Again? {
      AgainIs(e.n, g, s, env, k, p, q);
    } else if p < |s| {
      AdmitsHas(e, s[p]);
    }
  }

  lemma AgainIs(n: nat, g: nat, s: Text, env: Taken, k: Caps, p: nat, q: nat)
    requires n < NBRA && Known(env, k, g)
    ensures n in env && Recurs(s, env[n].0, env[n].1, p, q) <==> Step(Back(n), s, k, p, q) && q <= |s|
  {
    hide Recurs;
    if n in env {
      RecursCopies(s, env[n].0, env[n].1, p, q);
    }
  }

  /** What is taken is matched by the items. */
  lemma {:induction false} TakenIsMatched(e: Expr, g: nat, s: Text, env: Taken, k: Caps, p: nat, q: nat, env2: Taken)
    returns (path: seq<nat>)
    requires Fine(e) && g + Groups(e) <= NBRA && Known(env, k, g) && Takes(e, g, s, env, p, q, env2)
    ensures IsPath(Items(e, g), s, k, p, path) && Final(p, path) == q
    ensures Known(env2, CapsAlong(Items(e, g), k, p, path), g + Groups(e))
    decreases e, 0
  {
    hide Known, Recurs, Admits, MembersFine, IsPath, CapsAlong, Step, After, Takes;
    match e
    case Nothing =>
      path := [];
      NothingTakes(g, s, env, p, q, env2);
      NothingMatched(s, k, p);
    case Group(body) =>
      path := TakenGroup(body, g, s, env, k, p, q, env2);
    case Then(a, b) =>
      var m, mid := BothTake(a, b, g, s, env, p, q, env2);
      var front := TakenIsMatched(a, g, s, env, k, p, m, mid);
      var back := TakenIsMatched(b, g + Groups(a), s, mid, CapsAlong(Items(a, g), k, p, front), m, q, env2);
      PathCat(Items(a, g), Items(b, g + Groups(a)), s, k, p, front, back);
      path := front + back;
    case _ =>
      path := [q];
      OneTakes(e, g, s, env, p, q, env2);
      OneItem(e, g, s, env, k, p, q);
  }

  lemma NothingTakes(g: nat, s: Text, env: Taken, p: nat, q: nat, env2: Taken)
    ensures Takes(Nothing, g, s, env, p, q, env2) <==> p == q <= |s| && env2 == env
  {
  }

  lemma BothTake(a: Expr, b: Expr, g: nat, s: Text, env: Taken, p: nat, q: nat, env2: Taken) returns (m: nat, mid: Taken)
    requires Takes(Then(a, b), g, s, env, p, q, env2)
    ensures Takes(a, g, s, env, p, m, mid) && Takes(b, g + Groups(a), s, mid, m, q, env2)
  {
    m, mid :| Takes(a, g, s, env, p, m, mid) && Takes(b, g + Groups(a), s, mid, m, q, env2);
  }

  lemma OneTakes(e: Expr, g: nat, s: Text, env: Taken, p: nat, q: nat, env2: Taken)
    requires !e.Nothing? && !e.Group? && !e.Then? && Takes(e, g, s, env, p, q, env2)
    ensures env2 == env
  {
  }

  lemma {:induction false} TakenGroup(body: Expr, g: nat, s: Text, env: Taken, k: Caps, p: nat, q: nat, env2: Taken)
    returns (path: seq<nat>)
    requires Fine(body) && g + 1 + Groups(body) <= NBRA && Known(env, k, g) && Takes(Group(body), g, s, env, p, q, env2)
    ensures IsPath(Items(Group(body), g), s, k, p, path) && Final(p, path) == q
    ensures Known(env2, CapsAlong(Items(Group(body), g), k, p, path), g + 1 + Groups(body))
    decreases body, 1
  {
    hide Known, Recurs, Admits, MembersFine, IsPath, CapsAlong, Step, After, Items, Fine;
    var inner :| Takes(body, g + 1, s, env, p, q, inner) && Noted(inner, g, p, q, env2);
    var k1 := After(Open(g), k, p);
    assert CapsWf(k) by { WellFormed(env, k, g); }
    KnownOpen(g, k, env, p);
    var tail := TakenIsMatched(body, g + 1, s, env, k1, p, q, inner);
    GroupPath(body, g, s, k, p, tail);
    PathLength(Items(body, g + 1), s, k1, p, tail);
    KnownGroup(body, g, k, CapsAlong(Items(body, g + 1), k1, p, tail), env, inner, p, q, tail);
    path := [p] + tail + [q];
  }

  lemma WellFormed(env: Taken, k: Caps, g: nat)
    requires Known(env, k, g)
    ensures CapsWf(k)
  {
  }

  /** What the items match is taken. */
  lemma {:induction false} MatchedIsTaken(e: Expr, g: nat, s: Text, env: Taken, k: Caps, p: nat, path: seq<nat>)
    returns (env2: Taken)
    requires Fine(e) && g + Groups(e) <= NBRA && Known(env, k, g) && IsPath(Items(e, g), s, k, p, path)
    ensures Takes(e, g, s, env, p, Final(p, path), env2)
    ensures Known(env2, CapsAlong(Items(e, g), k, p, path), g + Groups(e))
    decreases e, 0
  {
    hide Known, Recurs, Admits, MembersFine, IsPath, CapsAlong, Step, After;
    PathLength(Items(e, g), s, k, p, path);
    match e
    case Nothing =>
      NothingTaken(g, s, env, k, p, path);
      env2 := env;
    case Group(body) =>
      env2 := MatchedGroup(body, g, s, env, k, p, path);
    case Then(a, b) =>
      PathParts(Items(a, g), Items(b, g + Groups(a)), s, k, p, path);
      var front, back := path[..|Items(a, g)|], path[|Items(a, g)|..];
      var mid := MatchedIsTaken(a, g, s, env, k, p, front);
      env2 := MatchedIsTaken(b, g + Groups(a), s, mid, CapsAlong(Items(a, g), k, p, front), Final(p, front), back);
    case _ =>
      assert path == [path[0]];
      OneItem(e, g, s, env, k, p, path[0]);
      env2 := env;
  }

  lemma {:induction false} MatchedGroup(body: Expr, g: nat, s: Text, env: Taken, k: Caps, p: nat, path: seq<nat>)
    returns (env2: Taken)
    requires Fine(body) && g + 1 + Groups(body) <= NBRA && Known(env, k, g) && IsPath(Items(Group(body), g), s, k, p, path)
    ensures Takes(Group(body), g, s, env, p, Final(p, path), env2)
    ensures Known(env2, CapsAlong(Items(Group(body), g), k, p, path), g + 1 + Groups(body))
    decreases body, 1
  {
    hide Known, Recurs, Admits, MembersFine, IsPath, CapsAlong, Step, After, Items, Fine;
    var k1 := After(Open(g), k, p);
    assert CapsWf(k) by { WellFormed(env, k, g); }
    KnownOpen(g, k, env, p);
    var tail := CutGroup(body, g, s, k, p, path);
    var inner := MatchedIsTaken(body, g + 1, s, env, k1, p, tail);
    var q := Final(p, tail);
    KnownGroup(body, g, k, CapsAlong(Items(body, g + 1), k1, p, tail), env, inner, p, q, tail);
    env2 := inner[g := (p, q)];
    assert Noted(inner, g, p, q, env2);
  }

  lemma NothingMatched(s: Text, k: Caps, p: nat)
    requires p <= |s|
    ensures IsPath([], s, k, p, []) && CapsAlong([], k, p, []) == k
  {
  }

  lemma NothingTaken(g: nat, s: Text, env: Taken, k: Caps, p: nat, path: seq<nat>)
    requires IsPath([], s, k, p, path)
    ensures Takes(Nothing, g, s, env, p, Final(p, path), env) && CapsAlong([], k, p, path) == k
  {
  }

  // ----- whole texts -----

  /** The text of a pattern, with ^ before it and $ after it or not. */
  function Whole(e: Expr, hat: bool, dollar: bool): Text {
    (if hat then ['^' as int] else []) + Spelled(e) + (if dollar then ['$' as int] else [])
  }

  /** The items match s[p..q]. */
  ghost predicate Matches(items: seq<Item>, s: Text, p: nat, q: nat) {
    exists path :: IsPath(items, s, UNSEEN, p, path) && Final(p, path) == q
  }

  /** A pattern can be written down: it has no more groups than there may be, does not seem anchored, and does
      not end in a $ that is not meant. */
  predicate Writable(e: Expr, hat: bool, dollar: bool) {
    Fine(e) && Groups(e) <= NBRA && (!hat ==> !Anchored(Spelled(e))) && (!dollar ==> !EndsDollar(e))
  }

  lemma DollarRead(dollar: bool, g: nat)
    ensures var t := if dollar then ['$' as int] else [];
            !StarAhead(t) && ParseSeq(t, g, []) == Ok(if dollar then [Dollar] else [])
  {
    assert ParseSeq([], g, []) == Ok([]);
    assert [Dollar] + [] == [Dollar];
  }

  lemma WholeRead(e: Expr, hat: bool, dollar: bool)
    requires Writable(e, hat, dollar)
    ensures Anchored(Whole(e, hat, dollar)) <==> hat
    ensures Parse(Whole(e, hat, dollar)) == Ok(Items(e, 0) + if dollar then [Dollar] else [])
  {
    hide ParseSeq, Items, Spelled, StarAhead, Fine, Groups, EndsDollar, EndsSingle;
    var t := if dollar then ['$' as int] else [];
    DollarRead(dollar, Groups(e));
    ReadExpr(e, t, 0, []);
    if hat {
      assert Whole(e, hat, dollar)[1..] == Spelled(e) + t;
    } else {
      assert Whole(e, hat, dollar) == Spelled(e) + t;
    }
  }

  /** What the items match is what the pattern means. */
  lemma ItemsMean(e: Expr, s: Text, p: nat, q: nat)
    requires Fine(e) && Groups(e) <= NBRA
    ensures Matches(Items(e, 0), s, p, q) <==> Means(e, s, p, q)
  {
    hide Takes, IsPath;
    if Means(e, s, p, q) {
      var env :| Takes(e, 0, s, map[], p, q, env);
      var path := TakenIsMatched(e, 0, s, map[], UNSEEN, p, q, env);
    }
    if Matches(Items(e, 0), s, p, q) {
      var path :| IsPath(Items(e, 0), s, UNSEEN, p, path) && Final(p, path) == q;
      var env := MatchedIsTaken(e, 0, s, map[], UNSEEN, p, path);
    }
  }

  lemma DollarMatches(items: seq<Item>, s: Text, p: nat, q: nat)
    ensures Matches(items + [Dollar], s, p, q) <==> Matches(items, s, p, q) && q == |s|
  {
    hide Step;
    if Matches(items + [Dollar], s, p, q) {
      var path :| IsPath(items + [Dollar], s, UNSEEN, p, path) && Final(p, path) == q;
      PathLength(items + [Dollar], s, UNSEEN, p, path);
      PathCut(items, [Dollar], s, UNSEEN, p, path);
      var front := path[..|items|];
      assert path[|items|..] == [q];
      OnePath(Dollar, s, CapsAlong(items, UNSEEN, p, front), Final(p, front), q);
      DollarStep(s, CapsAlong(items, UNSEEN, p, front), Final(p, front), q);
    }
    if Matches(items, s, p, q) && q == |s| {
      var path :| IsPath(items, s, UNSEEN, p, path) && Final(p, path) == q;
      DollarStep(s, CapsAlong(items, UNSEEN, p, path), q, q);
      OnePath(Dollar, s, CapsAlong(items, UNSEEN, p, path), q, q);
      PathCat(items, [Dollar], s, UNSEEN, p, path, [q]);
    }
  }

  lemma DollarStep(s: Text, k: Caps, p: nat, q: nat)
    ensures Step(Dollar, s, k, p, q) <==> q == p == |s|
  {
  }

  /** The text of a pattern is read as items that match, from each place, what the pattern means: at the end
      of the line only, if it has a $ after it. */
  lemma TextMeans(e: Expr, hat: bool, dollar: bool, s: Text, p: nat, q: nat)
    requires Writable(e, hat, dollar)
    ensures Parse(Whole(e, hat, dollar)).Ok? && (Anchored(Whole(e, hat, dollar)) <==> hat)
    ensures Matches(Parse(Whole(e, hat, dollar)).value, s, p, q) <==> Means(e, s, p, q) && (dollar ==> q == |s|)
  {
    hide Matches, Means, Parse;
    WholeRead(e, hat, dollar);
    ItemsMean(e, s, p, q);
    if dollar {
      DollarMatches(Items(e, 0), s, p, q);
    } else {
      assert Items(e, 0) + [] == Items(e, 0);
    }
  }

  /** So a pattern is found at a place exactly if it means something there. */
  lemma PlaceMeans(e: Expr, hat: bool, dollar: bool, s: Text, p: nat)
    requires Writable(e, hat, dollar)
    ensures Parse(Whole(e, hat, dollar)).Ok?
    ensures !NoPath(Parse(Whole(e, hat, dollar)).value, s, UNSEEN, p)
            <==> exists q :: Means(e, s, p, q) && (dollar ==> q == |s|)
  {
    hide Means, Parse, IsPath;
    forall q: nat
      ensures Parse(Whole(e, hat, dollar)).Ok?
      ensures Matches(Parse(Whole(e, hat, dollar)).value, s, p, q) <==> Means(e, s, p, q) && (dollar ==> q == |s|)
    {
      TextMeans(e, hat, dollar, s, p, q);
    }
    TextMeans(e, hat, dollar, s, p, p);
    var items := Parse(Whole(e, hat, dollar)).value;
    if path :| IsPath(items, s, UNSEEN, p, path) {
      assert Matches(items, s, p, Final(p, path));
    }
  }

  // ----- plain texts -----

  /** The characters that mean something in some place of a text. */
  predicate Significant(c: int) {
    Special(c) || c == '^' as int || c == '$' as int
  }

  /** A text as a pattern, its dots standing for any character or for themselves. */
  function Letters(x: Text, wild: bool): Expr {
    if x == [] then Nothing
    else Then(if wild && x[0] == '.' as int then AnyOne else Char(x[0], Significant(x[0])), Letters(x[1..], wild))
  }

  /** A text with a backslash before every character that means something in a pattern. */
  function Quoted(x: Text): Text {
    if x == [] then []
    else (if Significant(x[0]) then ['\\' as int, x[0]] else [x[0]]) + Quoted(x[1..])
  }

  predicate LettersFine(e: Expr) {
    Fine(e) && Groups(e) == 0 && !StarAhead(Spelled(e)) && !Anchored(Spelled(e)) && !EndsDollar(e)
  }

  /** x stands in s from p to q, where its dots may count for any character. */
  predicate Stands(x: Text, wild: bool, s: Text, p: nat, q: nat) {
    q == p + |x| && q <= |s| && forall i :: 0 <= i < |x| ==> (wild && x[i] == '.' as int) || s[p + i] == x[i]
  }

  lemma {:induction false} LettersMean(x: Text, wild: bool, g: nat, s: Text, env: Taken, p: nat, q: nat, env2: Taken)
    ensures Takes(Letters(x, wild), g, s, env, p, q, env2) <==> Stands(x, wild, s, p, q) && env2 == env
  {
    if x != [] {
      var e := Letters(x, wild);
      LettersMean(x[1..], wild, g, s, env, p, q, env2);
      forall m: nat, mid: Taken
        ensures Takes(e.b, g, s, mid, m, q, env2) <==> Stands(x[1..], wild, s, m, q) && env2 == mid
      {
        LettersMean(x[1..], wild, g, s, mid, m, q, env2);
      }
      StandsFirst(x, wild, s, p, q);
      hide Stands;
      if p < |s| && Takes(e.a, g, s, env, p, p + 1, env) && Takes(e.b, g, s, env, p + 1, q, env2) {
        assert Takes(e, g, s, env, p, q, env2);
      }
    }
  }

  lemma StandsFirst(x: Text, wild: bool, s: Text, p: nat, q: nat)
    requires x != []
    ensures Stands(x, wild, s, p, q)
            <==> p < |s| && ((wild && x[0] == '.' as int) || s[p] == x[0]) && Stands(x[1..], wild, s, p + 1, q)
  {
    if p < |s| && Stands(x[1..], wild, s, p + 1, q) && ((wild && x[0] == '.' as int) || s[p] == x[0]) {
      forall i | 0 <= i < |x|
        ensures (wild && x[i] == '.' as int) || s[p + i] == x[i]
      {
        if i > 0 {
          assert x[1..][i - 1] == x[i] && s[p + 1 + (i - 1)] == s[p + i];
        }
      }
    }
  }

  lemma {:induction false} LettersAreFine(x: Text, wild: bool)
    ensures LettersFine(Letters(x, wild))
  {
    if x != [] {
      LettersAreFine(x[1..], wild);
    }
  }

  lemma {:induction false} LettersSpelled(x: Text, wild: bool)
    ensures !wild ==> Spelled(Letters(x, wild)) == Quoted(x)
    ensures wild && (forall i :: 0 <= i < |x| ==> x[i] == '.' as int || !Significant(x[i])) ==>
              Spelled(Letters(x, wild)) == x
  {
    if x != [] {
      LettersSpelled(x[1..], wild);
      assert x == [x[0]] + x[1..];
    }
  }

  /** A text of letters and dots matches where it stands, its dots counting for any character. */
  lemma LettersAndDots(x: Text, s: Text, p: nat, q: nat)
    requires forall i :: 0 <= i < |x| ==> x[i] == '.' as int || !Significant(x[i])
    ensures Parse(x).Ok? && (Matches(Parse(x).value, s, p, q) <==> Stands(x, true, s, p, q))
  {
    var e := Letters(x, true);
    LettersSpelled(x, true);
    assert Whole(e, false, false) == x;
    MeansLetters(x, true, s, p, q);
    TextMeans(e, false, false, s, p, q);
  }

  /** Any text, with what means something in it quoted, matches exactly where it stands. */
  lemma QuotedStands(x: Text, s: Text, p: nat, q: nat)
    ensures Parse(Quoted(x)).Ok? && (Matches(Parse(Quoted(x)).value, s, p, q) <==> Stands(x, false, s, p, q))
  {
    var e := Letters(x, false);
    LettersSpelled(x, false);
    assert Whole(e, false, false) == Quoted(x);
    MeansLetters(x, false, s, p, q);
    TextMeans(e, false, false, s, p, q);
  }

  lemma MeansLetters(x: Text, wild: bool, s: Text, p: nat, q: nat)
    ensures LettersFine(Letters(x, wild))
    ensures Means(Letters(x, wild), s, p, q) <==> Stands(x, wild, s, p, q)
  {
    hide Takes;
    LettersAreFine(x, wild);
    forall env: Taken
      ensures Takes(Letters(x, wild), 0, s, map[], p, q, env) <==> Stands(x, wild, s, p, q) && env == map[]
    {
      LettersMean(x, wild, 0, s, map[], p, q, env);
    }
    LettersMean(x, wild, 0, s, map[], p, q, map[]);
  }

  // ----- searches -----

  /** The places a search stops at are those where the pattern means something. */
  lemma HitMeans(e: Expr, dollar: bool, lines: seq<Text>, l: int, c: int)
    requires Writable(e, false, dollar)
    ensures Parse(Whole(e, false, dollar)).Ok?
    ensures PatternSearch.Hit(Parse(Whole(e, false, dollar)).value, lines, l, c)
            <==> 0 <= l < |lines| && 0 <= c <= |lines[l]| && exists q :: Means(e, lines[l], c, q) && (dollar ==> q == |lines[l]|)
  {
    hide Means, Parse, NoPath, Whole;
    PlaceMeans(e, false, dollar, [], 0);
    if 0 <= l < |lines| && 0 <= c <= |lines[l]| {
      PlaceMeans(e, false, dollar, lines[l], c);
    }
  }

  /** The text that is searched for: a backslash at its end stands for a $. */
  lemma BackslashLast(e: Expr)
    ensures PatternSearch.Finished(Whole(e, false, false) + ['\\' as int]) == Whole(e, false, true)
  {
    hide Spelled;
    assert Whole(e, false, false) == Spelled(e) && Whole(e, false, true) == Spelled(e) + ['$' as int];
  }

  lemma OtherLast(e: Expr, dollar: bool)
    requires var t := Whole(e, false, dollar); t != [] && t[|t| - 1] != '\\' as int
    ensures PatternSearch.Finished(Whole(e, false, dollar)) == Whole(e, false, dollar)
  {
  }

  /** So a pattern that ends in a quoted backslash is searched for as one that ends in a quoted $. */
  lemma QuotedBackslashLast(e: Expr)
    ensures Whole(Then(e, Char('\\' as int, true)), false, false) != []
    ensures PatternSearch.Finished(Whole(Then(e, Char('\\' as int, true)), false, false))
            == Whole(Then(e, Char('$' as int, true)), false, false)
  {
    hide Spelled;
    LastSpelled(e, '\\' as int);
    LastSpelled(e, '$' as int);
    var s, t := Whole(Then(e, Char('\\' as int, true)), false, false), Spelled(e);
    assert s == t + ['\\' as int, '\\' as int];
    assert s[|s| - 1 := '$' as int] == t + ['\\' as int, '$' as int];
  }

  lemma LastSpelled(e: Expr, c: Ch)
    ensures Spelled(Then(e, Char(c, true))) == Spelled(e) + ['\\' as int, c]
  {
  }

  // ----- every text that reads -----

  lemma {:induction false} MembersExpressed(t: Text, last: Ch) returns (ms: seq<Member>, dash: bool, rest: Text)
    requires ParseMore(t, last).Ok?
    ensures MembersFine(ms) && SpelledMembers(ms) + End(dash) + rest == t
    decreases |t|
  {
    if t != [] && t[0] == ']' as int {
      ms, dash, rest := [], false, t[1..];
    } else if t[0] == '-' as int && t[1] == ']' as int {
      ms, dash, rest := [], true, t[2..];
    } else {
      var m := if t[0] == '-' as int then UpTo(t[1]) else Another(t[0]);
      ms, dash, rest := MembersExpressed(t[|SpelledMember(m)|..], Last(m));
      FirstMember([m] + ms, dash, rest, last);
      assert ([m] + ms)[1..] == ms;
      assert t == SpelledMember(m) + t[|SpelledMember(m)|..];
      ms := [m] + ms;
    }
  }

  lemma BodyExpressed(body: Text) returns (ms: seq<Member>, dash: bool, rest: Text)
    requires ParseElems(body, 0).Ok?
    ensures body != [] && MembersFine(ms) && body == [body[0]] + SpelledMembers(ms) + End(dash) + rest
  {
    hide ParseMore, SpelledMembers, MembersFine, End;
    assert body != [] && ParseElems(body, 0) == PrependElem(Only(body[0]), ParseMore(body[1..], body[0]));
    ms, dash, rest := MembersExpressed(body[1..], body[0]);
    assert body == [body[0]] + body[1..];
    assert [body[0]] + (SpelledMembers(ms) + End(dash) + rest) == [body[0]] + SpelledMembers(ms) + End(dash) + rest;
  }

  lemma ClassReads(t: Text, g: nat, stack: seq<nat>)
    requires t != [] && t[0] == '[' as int && ParseSeq(t, g, stack).Ok?
    ensures ParseElems(if |t| > 1 && t[1] == '^' as int then t[2..] else t[1..], 0).Ok?
  {
  }

  lemma ClassExpressed(t: Text, g: nat, stack: seq<nat>) returns (e: Expr, rest: Text)
    requires t != [] && t[0] == '[' as int && ParseSeq(t, g, stack).Ok?
    ensures e.OneOf? && Fine(e) && Spelled(e) + rest == t
  {
    hide ParseElems, ParseSeq, SpelledMembers, MembersFine, End;
    var negated := |t| > 1 && t[1] == '^' as int;
    var body := if negated then t[2..] else t[1..];
    ClassReads(t, g, stack);
    var ms, dash;
    ms, dash, rest := BodyExpressed(body);
    e := OneOf(negated, body[0], ms, dash);
    ClassSpelled(t, e, rest);
  }

  lemma ClassSpelled(t: Text, e: Expr, rest: Text)
    requires e.OneOf? && |t| > 1 && t[0] == '[' as int && (e.negated ==> t[1] == '^' as int)
    requires (if e.negated then t[2..] else t[1..]) == [e.first] + SpelledMembers(e.more) + End(e.dash) + rest
    ensures Spelled(e) + rest == t
  {
    var head := if e.negated then ['[' as int, '^' as int] else ['[' as int];
    var inner := [e.first] + SpelledMembers(e.more) + End(e.dash);
    assert t == head + t[|head|..];
    assert Spelled(e) == head + inner;
    hide Spelled, SpelledMembers, End;
    Regroup(head, inner, rest);
  }

  /** The text begins with a group mark. */
  predicate MarkAhead(t: Text) {
    |t| > 1 && t[0] == '\\' as int && (t[1] == '(' as int || t[1] == ')' as int)
  }

  /** What a text begins with, if that is no group mark, no asterisk and not the $ at its end. */
  lemma NextPiece(t: Text, g: nat, stack: seq<nat>) returns (e: Expr, rest: Text)
    requires t != [] && ParseSeq(t, g, stack).Ok? && !MarkAhead(t) && !StarAhead(t) && t != ['$' as int]
    ensures (IsSingle(e) || e.Again?) && Fine(e) && Spelled(e) + rest == t && (rest == [] ==> !EndsDollar(e))
    ensures ParseSeq(t, g, stack) == ParseAtom(if e.Again? then Back(e.n) else One(AsSingle(e)), rest, g, stack)
    ensures !StarAhead(Spelled(e)) && Spelled(e) != []
  {
    hide ParseElems, ParseAtom, MembersFine, SpelledMembers;
    if t[0] == '\\' as int {
      rest := t[2..];
      e := if '1' as int <= t[1] <= '9' as int then Again(t[1] - '1' as int) else Char(t[1], true);
      assert t == [t[0], t[1]] + rest;
    } else if t[0] == '[' as int {
      e, rest := ClassExpressed(t, g, stack);
    } else {
      rest := t[1..];
      e := if t[0] == '.' as int then AnyOne else Char(t[0], false);
      assert t == [t[0]] + rest;
    }
    if IsSingle(e) {
      ReadSingle(e, rest, g, stack);
    }
  }

  lemma {:induction false} StarsDropped(t: Text) returns (n: nat)
    ensures t == Asterisks(n) + DropStars(t) && (StarAhead(t) ==> n > 0)
  {
    if StarAhead(t) {
      n := StarsDropped(t[1..]);
      n := n + 1;
      assert t == ['*' as int] + t[1..];
    } else {
      n := 0;
    }
  }

  /** A piece with the stars after it, which are no asterisks. */
  lemma WithStars(e: Expr, rest: Text, g: nat, stack: seq<nat>) returns (f: Expr, rest2: Text)
    requires (IsSingle(e) || e.Again?) && Fine(e) && Spelled(e) != [] && !StarAhead(Spelled(e)) && (rest == [] ==> !EndsDollar(e))
    requires var r := ParseAtom(if e.Again? then Back(e.n) else One(AsSingle(e)), rest, g, stack);
             r.Ok? && forall it :: it in r.value ==> !it.BackStar?
    ensures Fine(f) && Groups(f) == 0 && Spelled(f) + rest2 == Spelled(e) + rest && |rest2| <= |rest|
    ensures Spelled(f) != [] && !StarAhead(Spelled(f)) && !StarAhead(rest2) && (rest2 == [] ==> !EndsDollar(f))
    ensures var r := ParseAtom(if e.Again? then Back(e.n) else One(AsSingle(e)), rest, g, stack);
            var r2 := ParseSeq(rest2, g, stack);
            r2.Ok? && forall it :: it in r2.value ==> it in r.value
  {
    hide ParseSeq;
    if StarAhead(rest) {
      var n := StarsDropped(rest);
      rest2 := DropStars(rest);
      var it := if e.Again? then Back(e.n) else One(AsSingle(e));
      var r := ParseAtom(it, rest, g, stack);
      assert r == Prepend(Starred(it), ParseSeq(rest2, g, stack));
      assert r.value[0] == Starred(it) && r.value[0] in r.value;
      f := Many(e, n - 1);
      assert Spelled(f) + rest2 == Spelled(e) + rest;
    } else {
      f, rest2 := e, rest;
    }
  }

  /** What was written before the groups that are still open, with their first marks. */
  function Before(open: seq<Expr>): Text {
    if open == [] then []
    else Before(open[..|open| - 1]) + Spelled(open[|open| - 1]) + ['\\' as int, '(' as int]
  }

  function GroupsIn(open: seq<Expr>): nat {
    if open == [] then 0 else GroupsIn(open[..|open| - 1]) + Groups(open[|open| - 1]) + 1
  }

  ghost predicate AllFine(open: seq<Expr>) {
    forall i :: 0 <= i < |open| ==> Fine(open[i])
  }

  lemma Opens(open: seq<Expr>, cur: Expr, t: Text)
    ensures Before(open + [cur]) + Spelled(Nothing) + t == Before(open) + Spelled(cur) + (['\\' as int, '(' as int] + t)
    ensures GroupsIn(open + [cur]) + Groups(Nothing) == GroupsIn(open) + Groups(cur) + 1
    ensures AllFine(open) && Fine(cur) ==> AllFine(open + [cur])
  {
    assert (open + [cur])[..|open|] == open;
  }

  lemma Closes(open: seq<Expr>, cur: Expr, t: Text)
    requires open != []
    ensures var below, next := open[..|open| - 1], Then(open[|open| - 1], Group(cur));
            && Before(below) + Spelled(next) + t == Before(open) + Spelled(cur) + (['\\' as int, ')' as int] + t)
            && GroupsIn(below) + Groups(next) == GroupsIn(open) + Groups(cur)
            && (AllFine(open) && Fine(cur) ==> AllFine(below) && Fine(next)) && !EndsSingle(next) && !EndsDollar(next)
  {
    var x, a, b := Before(open[..|open| - 1]), Spelled(open[|open| - 1]), Spelled(cur);
    Around(x, a, ['\\' as int, '(' as int], b, ['\\' as int, ')' as int], t);
  }

  lemma Around(x: Text, a: Text, mark: Text, b: Text, end: Text, t: Text)
    ensures x + (a + (mark + b + end)) + t == x + a + mark + b + (end + t)
  {
  }

  /** One more piece. */
  lemma Appends(open: seq<Expr>, cur: Expr, e: Expr, t: Text)
    requires Fine(cur) && Fine(e) && Spelled(e) != [] && (StarAhead(Spelled(e)) ==> !EndsSingle(cur))
    ensures Fine(Then(cur, e)) && Before(open) + Spelled(Then(cur, e)) + t == Before(open) + Spelled(cur) + (Spelled(e) + t)
    ensures EndsDollar(Then(cur, e)) == EndsDollar(e) && EndsSingle(Then(cur, e)) == EndsSingle(e)
  {
  }

  /** The text t, after what has been expressed, with the groups that are open. */
  lemma {:induction false} Expressed(t: Text, g: nat, stack: seq<nat>, open: seq<Expr>, cur: Expr) returns (e: Expr, dollar: bool)
    requires ParseSeq(t, g, stack).Ok? && forall it :: it in ParseSeq(t, g, stack).value ==> !it.BackStar?
    requires |open| == |stack| && AllFine(open) && Fine(cur) && GroupsIn(open) + Groups(cur) == g <= NBRA
    requires (StarAhead(t) ==> !EndsSingle(cur)) && (t == [] ==> !EndsDollar(cur))
    ensures Fine(e) && Groups(e) <= NBRA && (!dollar ==> !EndsDollar(e))
    ensures Before(open) + Spelled(cur) + t == Spelled(e) + if dollar then ['$' as int] else []
    decreases |t|
  {
    hide Spelled, Before, GroupsIn, Fine, EndsSingle, EndsDollar, AllFine, Asterisks;
    if t == [] || t == ['$' as int] {
      e, dollar := cur, t != [];
      NothingOpen(open, cur);
    } else if MarkAhead(t) {
      var rest := t[2..];
      assert t == [t[0], t[1]] + rest;
      if t[1] == '(' as int {
        Opens(open, cur, rest);
        NothingFine();
        Fewer(Open(g), ParseSeq(rest, g + 1, stack + [g]));
        e, dollar := Expressed(rest, g + 1, stack + [g], open + [cur], Nothing);
      } else {
        Closes(open, cur, rest);
        Fewer(Close(stack[|stack| - 1]), ParseSeq(rest, g, stack[..|stack| - 1]));
        e, dollar := Expressed(rest, g, stack[..|stack| - 1], open[..|open| - 1], Then(open[|open| - 1], Group(cur)));
      }
    } else if StarAhead(t) {
      AsteriskFine();
      assert t == ['*' as int] + t[1..];
      Appends(open, cur, Asterisk, t[1..]);
      Fewer(One(Lit('*' as int)), ParseSeq(t[1..], g, stack));
      e, dollar := Expressed(t[1..], g, stack, open, Then(cur, Asterisk));
    } else {
      hide ParseSeq;
      var x, rest := NextPiece(t, g, stack);
      var f, rest2 := WithStars(x, rest, g, stack);
      Appends(open, cur, f, rest2);
      e, dollar := Expressed(rest2, g, stack, open, Then(cur, f));
    }
  }

  lemma NothingOpen(open: seq<Expr>, cur: Expr)
    ensures open == [] ==> Before(open) + Spelled(cur) == Spelled(cur) && GroupsIn(open) == 0
  {
  }

  lemma NothingFine()
    ensures Fine(Nothing) && !EndsSingle(Nothing) && !EndsDollar(Nothing)
  {
  }

  lemma AsteriskFine()
    ensures Fine(Asterisk) && !EndsSingle(Asterisk) && !EndsDollar(Asterisk) && Spelled(Asterisk) == ['*' as int]
  {
  }

  lemma Fewer(it: Item, r: Result<seq<Item>>)
    ensures Prepend(it, r).Ok? <==> r.Ok?
    ensures r.Ok? ==> forall i :: i in r.value ==> i in Prepend(it, r).value
  {
  }

  lemma {:induction false} NoBackStar(e: Expr, g: nat, it: Item)
    requires Fine(e) && it in Items(e, g)
    ensures !it.BackStar?
  {
    match e
    case Group(body) =>
      if it in Items(body, g + 1) {
        NoBackStar(body, g + 1, it);
      }
    case Then(a, b) =>
      if it in Items(a, g) {
        NoBackStar(a, g, it);
      } else {
        NoBackStar(b, g + Groups(a), it);
      }
    case _ =>
  }

  /** A text that is written for a pattern. */
  ghost predicate IsWritten(t: Text) {
    exists e, hat, dollar :: Writable(e, hat, dollar) && Whole(e, hat, dollar) == t
  }

  /** The texts that are written for patterns are all that read as one, but for those in which a copy of a
      group is repeated. */
  lemma EveryText(t: Text)
    ensures IsWritten(t) <==> Parse(t).Ok? && forall it :: it in Parse(t).value ==> !it.BackStar?
  {
    hide Parse, Items, Whole, Writable;
    if IsWritten(t) {
      var e, hat, dollar :| Writable(e, hat, dollar) && Whole(e, hat, dollar) == t;
      WrittenReads(e, hat, dollar);
    }
    if Parse(t).Ok? && forall it :: it in Parse(t).value ==> !it.BackStar? {
      var e, hat, dollar := ReadIsWritten(t);
    }
  }

  lemma WrittenReads(e: Expr, hat: bool, dollar: bool)
    requires Writable(e, hat, dollar)
    ensures var r := Parse(Whole(e, hat, dollar)); r.Ok? && forall it :: it in r.value ==> !it.BackStar?
  {
    hide Parse, Items, Whole;
    WholeRead(e, hat, dollar);
    forall it | it in Items(e, 0)
      ensures !it.BackStar?
    {
      NoBackStar(e, 0, it);
    }
  }

  lemma ReadIsWritten(t: Text) returns (e: Expr, hat: bool, dollar: bool)
    requires Parse(t).Ok? && forall it :: it in Parse(t).value ==> !it.BackStar?
    ensures Writable(e, hat, dollar) && Whole(e, hat, dollar) == t
  {
    hide ParseSeq, Fine, Spelled, Groups, EndsDollar, EndsSingle;
    hat := Anchored(t);
    var body := if hat then t[1..] else t;
    NothingFine();
    NothingOpen([], Nothing);
    NothingCounted();
    e, dollar := Expressed(body, 0, [], [], Nothing);
    assert Before([]) + Spelled(Nothing) + body == body;
    assert body == Spelled(e) + if dollar then ['$' as int] else [];
    assert t == (if hat then ['^' as int] else []) + body;
    assert Whole(e, hat, dollar) == (if hat then ['^' as int] else []) + body;
    assert Spelled(e) != [] ==> Spelled(e)[0] == body[0];
  }

  lemma NothingCounted()
    ensures Groups(Nothing) == 0 && Spelled(Nothing) == []
  {
  }
}
