/** The bookkeeping of a one-pass compiler: how far the text has been read into items. */
module Compiling {
  import opened Pattern

  /** The reading of a whole text, once `done` has been read: `t` is left, and if `pending` the
      stars at its head still belong to the last item. */
  function Resume(done: seq<Item>, pending: bool, t: Text, groups: nat, stack: seq<nat>): Result<seq<Item>>
    requires pending ==> done != []
  {
    if pending && StarAhead(t) then
      PrependAll(done[..|done| - 1] + [Starred(done[|done| - 1])], ParseSeq(DropStars(t), groups, stack))
    else PrependAll(done, ParseSeq(t, groups, stack))
  }

  lemma ReadNothing(t: Text)
    ensures Resume([], false, t, 0, []) == ParseSeq(t, 0, []) && ItemsCode([]) == []
  {
    hide ParseSeq;
    assert forall v: seq<Item> :: [] + v == v;
  }

  /** An item that cannot be starred. */
  lemma ReadMark(done: seq<Item>, pending: bool, t: Text, groups: nat, stack: seq<nat>,
                 it: Item, t2: Text, groups2: nat, stack2: seq<nat>)
    requires (pending ==> done != []) && !(pending && StarAhead(t))
    requires ParseSeq(t, groups, stack) == Prepend(it, ParseSeq(t2, groups2, stack2))
    ensures Resume(done, pending, t, groups, stack) == Resume(done + [it], false, t2, groups2, stack2)
  {
    hide ParseSeq;
    assert forall v: seq<Item> :: done + ([it] + v) == done + [it] + v;
  }

  /** An item that the stars after it may belong to. */
  lemma ReadAtom(done: seq<Item>, pending: bool, t: Text, groups: nat, stack: seq<nat>, it: Item, t2: Text)
    requires (pending ==> done != []) && !(pending && StarAhead(t))
    requires ParseSeq(t, groups, stack) == ParseAtom(it, t2, groups, stack)
    ensures Resume(done, pending, t, groups, stack) == Resume(done + [it], true, t2, groups, stack)
  {
    hide ParseSeq;
    assert (done + [it])[..|done|] == done;
    assert forall v: seq<Item>, i: Item :: done + ([i] + v) == done + [i] + v;
  }

  /** One more item, with the stars after it still to come if it can have any. */
  lemma ReadItem(done: seq<Item>, pending: bool, t: Text, groups: nat, stack: seq<nat>,
                 it: Item, t2: Text, groups2: nat, stack2: seq<nat>)
    requires (pending ==> done != []) && !(pending && StarAhead(t))
    requires Starable(it) ==> groups2 == groups && stack2 == stack
    requires ParseSeq(t, groups, stack)
          == if Starable(it) then ParseAtom(it, t2, groups2, stack2) else Prepend(it, ParseSeq(t2, groups2, stack2))
    ensures Resume(done, pending, t, groups, stack) == Resume(done + [it], Starable(it), t2, groups2, stack2)
  {
    hide ParseSeq, Starable, ParseAtom, Resume;
    if Starable(it) {
      ReadAtom(done, pending, t, groups, stack, it, t2);
    } else {
      ReadMark(done, pending, t, groups, stack, it, t2, groups2, stack2);
    }
  }

  /** A text that is not overrun has a character after a backslash and reads classes within bounds. */
  lemma NoOverrun(done: seq<Item>, pending: bool, t: Text, groups: nat, stack: seq<nat>)
    requires (pending ==> done != []) && t != []
    requires Resume(done, pending, t, groups, stack) != Err(RunsOff)
    ensures t[0] == '\\' as int ==> |t| > 1
    ensures t[0] == '[' as int ==>
              ParseElems(if |t| > 1 && t[1] == '^' as int then t[2..] else t[1..], 0) != Err(RunsOff)
  {
  }

  /** The code of one more item. */
  lemma Append(done: seq<Item>, it: Item)
    ensures ItemsCode(done + [it]) == ItemsCode(done) + ItemCode(it)
    ensures (done + [it])[..|done + [it]| - 1] == done && (done + [it])[|done + [it]| - 1] == it
  {
    ItemsCodeSnoc(done, it);
  }

  /** One star of those that belong to the last item. */
  lemma ReadStar(done: seq<Item>, t: Text, groups: nat, stack: seq<nat>)
    requires done != [] && StarAhead(t)
    ensures Resume(done, true, t, groups, stack)
         == Resume(done[..|done| - 1] + [Starred(done[|done| - 1])], true, t[1..], groups, stack)
  {
    hide ParseSeq, PrependAll;
    var init, last := done[..|done| - 1], done[|done| - 1];
    var d := init + [Starred(last)];
    assert d[..|d| - 1] == init && d[|d| - 1] == Starred(last);
    assert Starred(Starred(last)) == Starred(last);
    assert DropStars(t) == DropStars(t[1..]);
    assert !StarAhead(t[1..]) ==> DropStars(t[1..]) == t[1..];
  }

  /** Reading stops here with an error. */
  lemma ReadError(done: seq<Item>, pending: bool, t: Text, groups: nat, stack: seq<nat>, e: Error)
    requires (pending ==> done != []) && !(pending && StarAhead(t))
    requires ParseSeq(t, groups, stack) == Err(e)
    ensures Resume(done, pending, t, groups, stack) == Err(e)
  {
  }

  predicate Starable(it: Item) {
    it.One? || it.Star? || it.Back? || it.BackStar?
  }

  /** op | CSTAR */
  function SetStar(op: int): int {
    if op % 2 == 0 then op + CSTAR else op
  }

  lemma StarredItemCode(it: Item)
    requires Starable(it)
    ensures ItemCode(Starred(it)) == ItemCode(it)[0 := SetStar(ItemCode(it)[0])]
    ensures ItemCode(it)[0] != CBRA && ItemCode(it)[0] != CKET
  {
  }

  /** Starring the last item sets a bit of its opcode. */
  lemma StarredCode(init: seq<Item>, it: Item)
    requires Starable(it)
    ensures var at := |ItemsCode(init)|; var code := ItemsCode(init + [it]);
            && at < |code| && code[at] != CBRA && code[at] != CKET
            && ItemsCode(init + [Starred(it)]) == code[at := SetStar(code[at])]
  {
    hide ItemCode, Starred, SetStar;
    ItemsCodeSnoc(init, it);
    ItemsCodeSnoc(init, Starred(it));
    StarredItemCode(it);
    var a, c := ItemsCode(init), ItemCode(it);
    assert (a + c)[|a|] == c[0];
    assert (a + c)[|a| := SetStar(c[0])] == a + c[0 := SetStar(c[0])];
  }

  lemma LastCode(done: seq<Item>, pending: bool)
    requires pending ==> done != [] && Starable(done[|done| - 1])
    ensures pending ==>
              var at := |ItemsCode(done[..|done| - 1])|;
              at < |ItemsCode(done)| && ItemsCode(done)[at] != CBRA && ItemsCode(done)[at] != CKET
  {
    hide ItemsCode, Starable;
    if pending {
      assert done[..|done| - 1] + [done[|done| - 1]] == done;
      StarredCode(done[..|done| - 1], done[|done| - 1]);
    }
  }

  /** A star with nothing to repeat stands for itself. */
  lemma ReadLiteralStar(done: seq<Item>, pending: bool, t: Text, groups: nat, stack: seq<nat>)
    requires !pending && StarAhead(t)
    ensures Resume(done, pending, t, groups, stack) == Resume(done + [One(Lit(t[0]))], false, t[1..], groups, stack)
  {
    ReadMark(done, pending, t, groups, stack, One(Lit(t[0])), t[1..], groups, stack);
  }

  // ----- inside a bracketed class -----

  lemma ReadElem(done: seq<Elem>, e: Elem, r: Result<ClassText>)
    ensures PrependElems(done, PrependElem(e, r)) == PrependElems(done + [e], r)
  {
    assert forall v: seq<Elem> :: done + ([e] + v) == done + [e] + v;
  }

  lemma ReadNoMember(r: Result<ClassText>)
    ensures PrependElems([], r) == r && Members([]) == []
  {
    assert forall v: seq<Elem> :: [] + v == v;
  }

  /** What the class reader does next, the parts `done` having been read. */
  lemma ReadMember(done: seq<Elem>, t: Text, last: int)
    requires 0 <= last < 128
    ensures var whole := PrependElems(done, ParseElems(t, last));
            if t == [] then whole == Err(MissingBracket)
            else if t[0] != '-' as int || last == 0 then
              whole == PrependElems(done + [Only(t[0])], ParseMore(t[1..], t[0]))
            else if |t| == 1 then whole == Err(RunsOff)
            else if t[1] == ']' as int then whole == Ok(ClassText(done + [Only('-' as int)], t[2..]))
            else whole == PrependElems(done + [Range(last, t[1])], ParseMore(t[2..], t[1]))
  {
    hide ParseMore;
    if t != [] {
      if t[0] != '-' as int || last == 0 {
        ReadElem(done, Only(t[0]), ParseMore(t[1..], t[0]));
      } else if |t| > 1 && t[1] != ']' as int {
        ReadElem(done, Range(last, t[1]), ParseMore(t[2..], t[1]));
      }
    }
  }

  /** After a part, either the class ends or it goes on. */
  lemma ReadMoreMembers(done: seq<Elem>, t: Text, last: Ch)
    ensures PrependElems(done, ParseMore(t, last))
         == if t != [] && t[0] == ']' as int then Ok(ClassText(done, t[1..]))
            else PrependElems(done, ParseElems(t, last))
  {
    hide ParseElems;
    assert done + [] == done;
  }
}
