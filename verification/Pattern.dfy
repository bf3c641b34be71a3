/** The pattern language of the editor's regular expressions: its syntax tree, the reading of
    a pattern text into that tree, and the byte code that stands for a tree. */
module Pattern {

  /** A character of a pattern or of a subject line: seven bits and never the terminating NUL. */
  type Ch = c: int | 0 < c < 128 witness 32
  type Text = seq<Ch>

  const NBRA := 9  // number of \( \) pairs a pattern may have

  /** One part of a bracketed class.  `Range(lo, hi)` is the part `lo-hi`; `lo` has already been
      given as the part before it. */
  datatype Elem = Only(c: Ch) | Range(lo: Ch, hi: Ch)

  /** What matches exactly one character, and so may be starred. */
  datatype Single = Lit(c: Ch) | Dot | Class(negated: bool, elems: seq<Elem>)

  datatype Item =
    | One(x: Single)
    | Star(x: Single)
    | Open(n: nat)
    | Close(n: nat)
    | Back(n: nat)
    | BackStar(n: nat)
    | Dollar

  /** Why a text is not a pattern.  `RunsOff` marks the two texts whose reading does not stop at
      the terminating NUL: a lone final backslash and a class that ends just after a dash. */
  datatype Error =
    | NoPrevious
    | UnmatchedOpen
    | UnmatchedClose
    | TooManyGroups
    | MissingBracket
    | RunsOff

  datatype Result<+T> = Ok(value: T) | Err(error: Error)

  /** What the compiler reports back. */
  datatype Report = Accepted | Rejected(error: Error)

  // ----- reading a bracketed class -----

  /** A class read from the text after `[` or `[^`: its parts and the text after `]`. */
  datatype ClassText = ClassText(elems: seq<Elem>, rest: Text)

  /** `last` is the member read just before, or 0 at the beginning of the class. */
  function ParseElems(t: Text, last: int): Result<ClassText>
    requires 0 <= last < 128
    decreases |t|, 1
  {
    if t == [] then Err(MissingBracket)
    else if t[0] == '-' as int && last != 0 then
      if |t| == 1 then Err(RunsOff)
      else if t[1] == ']' as int then Ok(ClassText([Only('-' as int)], t[2..]))
      else PrependElem(Range(last, t[1]), ParseMore(t[2..], t[1]))
    else PrependElem(Only(t[0]), ParseMore(t[1..], t[0]))
  }

  function ParseMore(t: Text, last: Ch): Result<ClassText>
    decreases |t|, 2
  {
    if t != [] && t[0] == ']' as int then Ok(ClassText([], t[1..]))
    else ParseElems(t, last)
  }

  function PrependElem(e: Elem, r: Result<ClassText>): Result<ClassText> {
    match r
    case Ok(v) => Ok(ClassText([e] + v.elems, v.rest))
    case Err(error) => Err(error)
  }

  function PrependElems(es: seq<Elem>, r: Result<ClassText>): Result<ClassText> {
    match r
    case Ok(v) => Ok(ClassText(es + v.elems, v.rest))
    case Err(error) => Err(error)
  }

  lemma ParseElemsShrinks(t: Text, last: int)
    requires 0 <= last < 128
    ensures ParseElems(t, last).Ok? ==> |ParseElems(t, last).value.rest| < |t|
    decreases |t|
  {
    if t != [] {
      if t[0] == '-' as int && last != 0 {
        if |t| > 1 && t[1] != ']' as int && !(|t| > 2 && t[2] == ']' as int) {
          ParseElemsShrinks(t[2..], t[1]);
        }
      } else if !(|t| > 1 && t[1] == ']' as int) {
        ParseElemsShrinks(t[1..], t[0]);
      }
    }
  }

  // ----- reading a pattern -----

  function DropStars(t: Text): (r: Text)
    ensures |r| <= |t|
    ensures r == [] || r[0] != '*' as int
  {
    if t != [] && t[0] == '*' as int then DropStars(t[1..]) else t
  }

  predicate StarAhead(t: Text) {
    t != [] && t[0] == '*' as int
  }

  function Starred(it: Item): Item {
    match it
    case One(x) => Star(x)
    case Back(n) => BackStar(n)
    case _ => it
  }

  function Prepend(it: Item, r: Result<seq<Item>>): Result<seq<Item>> {
    match r
    case Ok(v) => Ok([it] + v)
    case Err(error) => Err(error)
  }

  function PrependAll(its: seq<Item>, r: Result<seq<Item>>): Result<seq<Item>> {
    match r
    case Ok(v) => Ok(its + v)
    case Err(error) => Err(error)
  }

  /** The item `it` followed by `t`: any stars at the head of `t` belong to `it`. */
  function ParseAtom(it: Item, t: Text, groups: nat, stack: seq<nat>): Result<seq<Item>>
    decreases |t|, 1
  {
    if StarAhead(t) then Prepend(Starred(it), ParseSeq(DropStars(t), groups, stack))
    else Prepend(it, ParseSeq(t, groups, stack))
  }

  /** Reads `t` where `groups` groups have been opened before and those in `stack` are open. */
  function ParseSeq(t: Text, groups: nat, stack: seq<nat>): Result<seq<Item>>
    decreases |t|, 0
  {
    if t == [] then
      if stack == [] then Ok([]) else Err(UnmatchedOpen)
    else if t[0] == '\\' as int then
      if |t| == 1 then Err(RunsOff)
      else if t[1] == '(' as int then
        if groups >= NBRA then Err(TooManyGroups)
        else Prepend(Open(groups), ParseSeq(t[2..], groups + 1, stack + [groups]))
      else if t[1] == ')' as int then
        if stack == [] then Err(UnmatchedClose)
        else Prepend(Close(stack[|stack| - 1]), ParseSeq(t[2..], groups, stack[..|stack| - 1]))
      else if '1' as int <= t[1] <= '9' as int then
        ParseAtom(Back(t[1] - '1' as int), t[2..], groups, stack)
      else ParseAtom(One(Lit(t[1])), t[2..], groups, stack)
    else if t[0] == '[' as int then
      var negated := |t| > 1 && t[1] == '^' as int;
      var body := if negated then t[2..] else t[1..];
      match ParseElems(body, 0)
      case Err(error) => Err(error)
      case Ok(c) =>
        ParseElemsShrinks(body, 0);
        ParseAtom(One(Class(negated, c.elems)), c.rest, groups, stack)
    else if t[0] == '$' as int && |t| == 1 then Prepend(Dollar, ParseSeq([], groups, stack))
    else if t[0] == '*' as int then Prepend(One(Lit(t[0])), ParseSeq(t[1..], groups, stack))
    else if t[0] == '.' as int then ParseAtom(One(Dot), t[1..], groups, stack)
    else ParseAtom(One(Lit(t[0])), t[1..], groups, stack)
  }

  predicate Anchored(t: Text) {
    t != [] && t[0] == '^' as int
  }

  /** The items of a whole pattern, the leading `^` set aside. */
  function Parse(t: Text): Result<seq<Item>> {
    ParseSeq(if Anchored(t) then t[1..] else t, 0, [])
  }

  // ----- byte code -----

  const CBRA := 1
  const CCHR := 2
  const CDOT := 4
  const CCL := 6
  const NCCL := 8
  const CDOL := 10
  const CEOF := 11
  const CKET := 12
  const CBACK := 18
  const CSTAR := 1

  /** The bytes lo, lo+1, ..., hi; none when hi < lo. */
  function Run(lo: int, hi: int): (r: seq<int>)
    ensures |r| == if lo <= hi then hi - lo + 1 else 0
    ensures forall i :: 0 <= i < |r| ==> r[i] == lo + i
  {
    if lo <= hi then seq(hi - lo + 1, i => lo + i) else []
  }

  /** A range is stored as the members after its first, its last member once more. */
  function Stored(e: Elem): seq<int> {
    match e
    case Only(c) => [c]
    case Range(lo, hi) => Run(lo + 1, hi) + [hi]
  }

  function Members(elems: seq<Elem>): seq<int> {
    if elems == [] then [] else Stored(elems[0]) + Members(elems[1..])
  }

  function SingleCode(x: Single, star: int): seq<int> {
    match x
    case Lit(c) => [CCHR + star, c]
    case Dot => [CDOT + star]
    case Class(negated, elems) =>
      [(if negated then NCCL else CCL) + star, |Members(elems)| + 1] + Members(elems)
  }

  function ItemCode(it: Item): (r: seq<int>)
    ensures r != []
  {
    match it
    case One(x) => SingleCode(x, 0)
    case Star(x) => SingleCode(x, CSTAR)
    case Open(n) => [CBRA, n]
    case Close(n) => [CKET, n]
    case Back(n) => [CBACK, n]
    case BackStar(n) => [CBACK + CSTAR, n]
    case Dollar => [CDOL]
  }

  function ItemsCode(items: seq<Item>): seq<int> {
    if items == [] then [] else ItemCode(items[0]) + ItemsCode(items[1..])
  }

  function Code(items: seq<Item>): seq<int> {
    ItemsCode(items) + [CEOF, 0]
  }

  /** What follows ep in a buffer, split in two. */
  lemma Split(buf: seq<int>, ep: nat, a: seq<int>, b: seq<int>)
    requires ep <= |buf| && buf[ep..] == a + b
    ensures ep + |a| <= |buf| && buf[ep + |a|..] == b && buf[ep..ep + |a|] == a
    ensures forall i :: 0 <= i < |a| ==> buf[ep + i] == a[i]
  {
    assert forall i :: 0 <= i < |buf| - ep ==> buf[ep + i] == buf[ep..][i];
    assert forall i :: 0 <= i < |b| ==> (a + b)[|a| + i] == b[i];
  }

  lemma {:induction false} ItemsCodeSnoc(items: seq<Item>, it: Item)
    ensures ItemsCode(items + [it]) == ItemsCode(items) + ItemCode(it)
  {
    hide ItemCode;
    if items == [] {
      assert items + [it] == [it];
    } else {
      ItemsCodeSnoc(items[1..], it);
      assert (items + [it])[1..] == items[1..] + [it];
    }
  }

  lemma {:induction false} MembersSnoc(elems: seq<Elem>, e: Elem)
    ensures Members(elems + [e]) == Members(elems) + Stored(e)
  {
    hide Stored;
    if elems == [] {
      assert elems + [e] == [e];
    } else {
      MembersSnoc(elems[1..], e);
      assert (elems + [e])[1..] == elems[1..] + [e];
    }
  }

  /** Each range continues from the member read just before it. */
  ghost predicate Chained(elems: seq<Elem>, last: int) {
    elems == [] ||
    match elems[0]
    case Only(c) => Chained(elems[1..], c)
    case Range(lo, hi) => lo == last && Chained(elems[1..], hi)
  }

  /** A class whose member count fits the byte that holds it, and whose ranges continue from a
      member. */
  ghost predicate SingleFits(x: Single) {
    x.Class? ==> |Members(x.elems)| <= 254 && Chained(x.elems, 0)
  }

  ghost predicate Fits(items: seq<Item>) {
    forall it :: it in items && (it.One? || it.Star?) ==> SingleFits(it.x)
  }

  /** The condition on a pattern text: no class has more than 254 stored members. */
  ghost predicate ClassesFit(items: seq<Item>) {
    forall it :: it in items && (it.One? || it.Star?) && it.x.Class? ==> |Members(it.x.elems)| <= 254
  }

  lemma {:induction false} ParseElemsChained(t: Text, last: int)
    requires 0 <= last < 128 && ParseElems(t, last).Ok?
    ensures Chained(ParseElems(t, last).value.elems, last)
    decreases |t|
  {
    if t[0] == '-' as int && last != 0 {
      if t[1] != ']' as int && !(|t| > 2 && t[2] == ']' as int) {
        ParseElemsChained(t[2..], t[1]);
      }
    } else if !(|t| > 1 && t[1] == ']' as int) {
      ParseElemsChained(t[1..], t[0]);
    }
  }

  ghost predicate AllChained(items: seq<Item>) {
    forall it :: it in items && (it.One? || it.Star?) && it.x.Class? ==> Chained(it.x.elems, 0)
  }

  lemma {:induction false} ParseAtomChained(it: Item, t: Text, groups: nat, stack: seq<nat>)
    requires ParseAtom(it, t, groups, stack).Ok? && AllChained([it])
    ensures AllChained(ParseAtom(it, t, groups, stack).value)
    decreases |t|, 2
  {
    ParseSeqChained(if StarAhead(t) then DropStars(t) else t, groups, stack);
    assert it in [it];
  }

  /** The ranges of a pattern that was read are chained. */
  lemma {:induction false} ParseSeqChained(t: Text, groups: nat, stack: seq<nat>)
    requires ParseSeq(t, groups, stack).Ok?
    ensures AllChained(ParseSeq(t, groups, stack).value)
    decreases |t|, 0
  {
    if t == [] {
    } else if t[0] == '\\' as int {
      if t[1] == '(' as int {
        ParseSeqChained(t[2..], groups + 1, stack + [groups]);
      } else if t[1] == ')' as int {
        ParseSeqChained(t[2..], groups, stack[..|stack| - 1]);
      } else if '1' as int <= t[1] <= '9' as int {
        ParseAtomChained(Back(t[1] - '1' as int), t[2..], groups, stack);
      } else {
        ParseAtomChained(One(Lit(t[1])), t[2..], groups, stack);
      }
    } else if t[0] == '[' as int {
      var negated := |t| > 1 && t[1] == '^' as int;
      var body := if negated then t[2..] else t[1..];
      var c := ParseElems(body, 0).value;
      ParseElemsShrinks(body, 0);
      ParseElemsChained(body, 0);
      ParseAtomChained(One(Class(negated, c.elems)), c.rest, groups, stack);
    } else if t[0] == '$' as int && |t| == 1 {
    } else if t[0] == '*' as int {
      ParseSeqChained(t[1..], groups, stack);
    } else if t[0] == '.' as int {
      ParseAtomChained(One(Dot), t[1..], groups, stack);
    } else {
      ParseAtomChained(One(Lit(t[0])), t[1..], groups, stack);
    }
  }

  // ----- groups -----

  /** Groups are opened once, closed while open, all closed in the end, and referred back to only
      once closed; no back reference is starred. */
  ghost predicate Sound(items: seq<Item>, open: set<nat>, closed: set<nat>) {
    if items == [] then open == {} else
    match items[0]
    case Open(n) => n < NBRA && n !in open && n !in closed && Sound(items[1..], open + {n}, closed)
    case Close(n) => n in open && n !in closed && Sound(items[1..], open - {n}, closed + {n})
    case Back(n) => n in closed && Sound(items[1..], open, closed)
    case BackStar(_) => false
    case _ => Sound(items[1..], open, closed)
  }

  /** The condition a pattern's author can check: no starred back reference, and each back
      reference comes after the \) of its group. */
  ghost predicate BacksClosed(items: seq<Item>, closed: set<nat>) {
    items == [] ||
    match items[0]
    case Close(n) => BacksClosed(items[1..], closed + {n})
    case Back(n) => n in closed && BacksClosed(items[1..], closed)
    case BackStar(_) => false
    case _ => BacksClosed(items[1..], closed)
  }

  function Elements(s: seq<nat>): set<nat> {
    set n | n in s
  }

  /** Groups are numbered from 0; those in `stack` are open, outermost first. */
  ghost predicate Numbered(groups: nat, stack: seq<nat>, closed: set<nat>) {
    && groups <= NBRA
    && (forall i :: 0 <= i < |stack| ==> stack[i] < groups && stack[i] !in closed)
    && (forall i, j :: 0 <= i < j < |stack| ==> stack[i] != stack[j])
    && forall n :: n in closed ==> n < groups
  }

  lemma {:induction false} ParseAtomSound(it: Item, t: Text, groups: nat, stack: seq<nat>, closed: set<nat>)
    requires ParseAtom(it, t, groups, stack).Ok?
    requires it.One? || it.Back?
    requires Numbered(groups, stack, closed)
    requires BacksClosed(ParseAtom(it, t, groups, stack).value, closed)
    ensures Sound(ParseAtom(it, t, groups, stack).value, Elements(stack), closed)
    decreases |t|, 2
  {
    ParseSeqSound(if StarAhead(t) then DropStars(t) else t, groups, stack, closed);
  }

  lemma {:induction false} ParseEscapeSound(t: Text, groups: nat, stack: seq<nat>, closed: set<nat>)
    requires t != [] && t[0] == '\\' as int
    requires ParseSeq(t, groups, stack).Ok?
    requires Numbered(groups, stack, closed)
    requires BacksClosed(ParseSeq(t, groups, stack).value, closed)
    ensures Sound(ParseSeq(t, groups, stack).value, Elements(stack), closed)
    decreases |t|, 0
  {
    if t[1] == '(' as int {
      ParseSeqSound(t[2..], groups + 1, stack + [groups], closed);
      assert Elements(stack + [groups]) == Elements(stack) + {groups};
    } else if t[1] == ')' as int {
      var top, below := stack[|stack| - 1], stack[..|stack| - 1];
      assert stack == below + [top];
      ParseSeqSound(t[2..], groups, below, closed + {top});
      assert Elements(below) == Elements(stack) - {top};
    } else if '1' as int <= t[1] <= '9' as int {
      ParseAtomSound(Back(t[1] - '1' as int), t[2..], groups, stack, closed);
    } else {
      ParseAtomSound(One(Lit(t[1])), t[2..], groups, stack, closed);
    }
  }

  lemma {:induction false} ParseClassSound(t: Text, groups: nat, stack: seq<nat>, closed: set<nat>)
    requires t != [] && t[0] == '[' as int
    requires ParseSeq(t, groups, stack).Ok?
    requires Numbered(groups, stack, closed)
    requires BacksClosed(ParseSeq(t, groups, stack).value, closed)
    ensures Sound(ParseSeq(t, groups, stack).value, Elements(stack), closed)
    decreases |t|, 0
  {
    var negated := |t| > 1 && t[1] == '^' as int;
    var body := if negated then t[2..] else t[1..];
    var c := ParseElems(body, 0).value;
    ParseElemsShrinks(body, 0);
    ParseAtomSound(One(Class(negated, c.elems)), c.rest, groups, stack, closed);
  }

  /** What the compiler numbers, it numbers soundly: only the back references need checking. */
  lemma {:induction false} ParseSeqSound(t: Text, groups: nat, stack: seq<nat>, closed: set<nat>)
    requires ParseSeq(t, groups, stack).Ok?
    requires Numbered(groups, stack, closed)
    requires BacksClosed(ParseSeq(t, groups, stack).value, closed)
    ensures Sound(ParseSeq(t, groups, stack).value, Elements(stack), closed)
    decreases |t|, 1
  {
    if t == [] {
    } else if t[0] == '\\' as int {
      ParseEscapeSound(t, groups, stack, closed);
    } else if t[0] == '[' as int {
      ParseClassSound(t, groups, stack, closed);
    } else if t[0] == '$' as int && |t| == 1 {
      ParseSeqSound([], groups, stack, closed);
    } else if t[0] == '*' as int {
      ParseSeqSound(t[1..], groups, stack, closed);
    } else if t[0] == '.' as int {
      ParseAtomSound(One(Dot), t[1..], groups, stack, closed);
    } else {
      ParseAtomSound(One(Lit(t[0])), t[1..], groups, stack, closed);
    }
  }

  /** What a text has to meet for the byte code of its pattern to be run: its class sizes and its back
      references.  Everything else the compiler sees to. */
  lemma TextIsSound(t: Text)
    requires Parse(t).Ok? && ClassesFit(Parse(t).value) && BacksClosed(Parse(t).value, {})
    ensures Fits(Parse(t).value) && Sound(Parse(t).value, {}, {})
  {
    var body := if Anchored(t) then t[1..] else t;
    ParseSeqChained(body, 0, []);
    ParseSeqSound(body, 0, [], {});
    assert Elements([]) == {};
  }
}
