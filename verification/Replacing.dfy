/** Searching a file for a string, and replacing it throughout a range of lines. */
module Replacing {
  import opened LineCodec
  import opened Editing
  import PatternSearch

  /** The key is in s at column c. */
  ghost predicate Occurs(s: Text, key: Text, c: int) {
    0 <= c && c + |key| <= |s| && s[c..c + |key|] == key
  }

  /** A key that is not empty, and ends where it ends. */
  ghost predicate Key(key: Text) {
    key != [] && forall i :: 0 <= i < |key| ==> key[i] != 0
  }

  /** An ESC and a character that strsearch takes for a ^J. */
  predicate JAt(key: Text, i: int) {
    0 <= i < |key| - 1 && key[i] == ESC && PatternSearch.IsJ(key[i + 1])
  }

  /** A key that has no ^J, in the way strsearch tells. */
  ghost predicate PlainKey(key: Text) {
    Key(key) && forall i :: !JAt(key, i)
  }

  /** The comparison of strsearch with a line that the whole key has room in, from the key's character
      sk and the line's fk on.  A ^J that begins the key has the rest of it compared with the beginning
      of the line; elsewhere it is never found before the end of the line. */
  predicate Compares(s: Text, key: Text, sk: nat, fk: nat)
    requires sk <= |key| && fk + (|key| - sk) <= |s|
    decreases |key| - sk
  {
    if sk == |key| then true
    else if JAt(key, sk) then sk == 0 && |key| > 2 && fk == 0 && Compares(s, key, 2, 0)
    else key[sk] == s[fk] && Compares(s, key, sk + 1, fk + 1)
  }

  /** A plain key compares where it is. */
  lemma {:induction false} PlainCompares(s: Text, key: Text, sk: nat, fk: nat)
    requires sk <= |key| && fk + (|key| - sk) <= |s| && forall i :: sk <= i < |key| ==> !JAt(key, i)
    ensures Compares(s, key, sk, fk) <==> s[fk..fk + (|key| - sk)] == key[sk..]
    decreases |key| - sk
  {
    if sk < |key| {
      PlainCompares(s, key, sk + 1, fk + 1);
      var piece := s[fk..fk + (|key| - sk)];
      assert piece == [s[fk]] + s[fk + 1..fk + (|key| - sk)];
      assert key[sk..] == [key[sk]] + key[sk + 1..];
      assert piece == key[sk..] ==> piece[0] == key[sk..][0] && piece[1..] == key[sk..][1..];
    }
  }

  /** A key with what is taken for a ^J further on compares nowhere past the beginning of a line. */
  lemma {:induction false} NeverCompares(s: Text, key: Text, sk: nat, fk: nat, j: nat)
    requires sk <= j && JAt(key, j) && 0 < fk && fk + (|key| - sk) <= |s|
    ensures !Compares(s, key, sk, fk)
    decreases |key| - sk
  {
    if !JAt(key, sk) {
      NeverCompares(s, key, sk + 1, fk + 1, j);
    }
  }

  /** Wherever there is room for the key, strsearch tells whether it is there. */
  ghost predicate ReadsRight(key: Text) {
    forall s: Text, at: nat :: at + |key| <= |s| ==> (Compares(s, key, 0, at) <==> Occurs(s, key, at))
  }

  /** The key holds no ^J as it is typed: skeylen then takes all of it for its length, so that the search
      looks for it only where all of it has room. */
  predicate OneLine(key: Text) {
    forall i :: 0 <= i < |key| - 1 && key[i] == ESC ==> key[i + 1] != 'j' as int && key[i + 1] != 'J' as int
  }

  lemma PlainReads(key: Text)
    requires PlainKey(key)
    ensures ReadsRight(key) && OneLine(key)
  {
    forall s: Text, at: nat | at + |key| <= |s|
      ensures Compares(s, key, 0, at) <==> Occurs(s, key, at)
    {
      PlainCompares(s, key, 0, at);
      assert key[0..] == key;
    }
    forall i | 0 <= i < |key| - 1 && key[i] == ESC
      ensures key[i + 1] != 'j' as int && key[i + 1] != 'J' as int
    {
      assert !JAt(key, i);
    }
  }

  /** For a key without ^J it does if and only if nothing in the key is taken for one: no ESC is followed by
      an asterisk or a newline character. */
  lemma ReadsPlain(key: Text)
    requires Key(key) && OneLine(key)
    ensures ReadsRight(key) <==> forall i :: 0 <= i < |key| - 1 && key[i] == ESC ==> key[i + 1] != '*' as int && key[i + 1] != NL
  {
    if forall i :: 0 <= i < |key| - 1 && key[i] == ESC ==> key[i + 1] != '*' as int && key[i + 1] != NL {
      assert PlainKey(key);
      PlainReads(key);
    } else {
      var j: nat :| j < |key| - 1 && key[j] == ESC && (key[j + 1] == '*' as int || key[j + 1] == NL);
      assert JAt(key, j);
      var s := [0] + key;
      NeverCompares(s, key, 0, 1, j);
      assert s[1..1 + |key|] == key;
      assert Occurs(s, key, 1);
    }
  }

  /** A control character of code 127 and an asterisk: ESC, ESC and *. */
  lemma MisreadKey()
    ensures var key := [ESC, ESC, '*' as int];
            Key(key) && OneLine(key) && Occurs(key, key, 0) && !Compares(key, key, 0, 0)
  {
    var key := [ESC, ESC, '*' as int];
    assert JAt(key, 1);
    assert key[0..0 + |key|] == key;
  }

  // ----- searching -----

  /** Where a search that starts at (ln, col) looks: on, or strictly before. */
  ghost predicate InReach(delta: int, ln: int, col: int, l: int, c: int) {
    if delta > 0 then l > ln || (l == ln && c >= col) else l < ln || (l == ln && c < col)
  }

  /** (l, c) has been passed by a search that has come to (ln, at). */
  ghost predicate Passed(delta: int, ln: int, at: int, l: int, c: int) {
    if delta > 0 then l < ln || (l == ln && c < at) else l > ln || (l == ln && c > at)
  }

  /** The key is in line l at column c. */
  ghost predicate Hit(g: File, key: Text, l: int, c: int) {
    0 <= l && Occurs(LineOf(g, l), key, c)
  }

  /** The key is nowhere where the search has been. */
  ghost predicate Clear(g: File, key: Text, delta: int, ln0: int, col: int, ln: int, at: int) {
    forall l, c :: Hit(g, key, l, c) ==> !(InReach(delta, ln0, col, l, c) && Passed(delta, ln, at, l, c))
  }

  /** The lines as a search that begins with line ln reads them: a changed line ln that has not been written
      is read as it is. */
  ghost function ReadAt(e: Editor, ln: int): File
    reads e
    requires e.Valid()
  {
    if e.have && e.clineno == ln && 0 <= ln < |e.file| then e.View()[ln := e.Cur()] else e.View()
  }

  /** The loop that compares the key with the line from column at on. */
  method Match(e: Editor, str: Text, at: int) returns (found: bool)
    requires 1 <= e.ncline <= |e.cline| && 0 <= at && at + |str| <= e.ncline - 1 && Key(str)
    ensures found <==> Compares(e.Cur(), str, 0, at)
    ensures PlainKey(str) ==> (found <==> Occurs(e.Cur(), str, at))
  {
    ghost var s := e.Cur();
    if PlainKey(str) {
      PlainReads(str);
    }
    var sk, fk := 0, at;
    while sk < |str|
      invariant 0 <= sk <= |str| && 0 <= fk && fk + (|str| - sk) <= |s|
      invariant Compares(s, str, sk, fk) <==> Compares(s, str, 0, at)
      invariant sk == 0 ==> fk == at
      decreases |str| - sk
    {
      if JAt(str, sk) {
        if sk == 0 && |str| > 2 {
          if fk != 0 {
            return false;
          }
          sk := 2;
        } else {
          return false;
        }
      } else {
        assert e.cline[fk] == s[fk];
        if str[sk] != e.cline[fk] {
          return false;
        }
        sk, fk := sk + 1, fk + 1;
      }
    }
    return true;
  }

  /** The state of a search that has come to line ln. */
  ghost predicate Reading(e: Editor, g: File, ln: int)
    reads e
  {
    && e.Valid() && e.have && e.clineno == ln && ln >= 0
    && e.Cur() == LineOf(g, ln) && e.cline[e.ncline - 1] == NL
  }

  /** The lines not read yet are as they were when the search began. */
  ghost predicate Unread(e: Editor, g: File, delta: int, ln: int)
    reads e
  {
    e.Valid() && |e.file| == |g| && forall l :: (if delta > 0 then l > ln else 0 <= l < ln) ==> LineOf(e.View(), l) == LineOf(g, l)
  }

  /** The search has come to (ln, at) and has not found the key yet. */
  ghost predicate Searching(e: Editor, g: File, str: Text, delta: int, ln0: int, col: int, ln: int, at: int)
    reads e
  {
    && Reading(e, g, ln) && Unread(e, g, delta, ln) && (if delta > 0 then ln0 <= ln else ln <= ln0)
    && Clear(g, str, delta, ln0, col, ln, at)
    && (if delta > 0 then 0 <= at || |LineOf(g, ln)| < |str| else at < 0 || at <= |LineOf(g, ln)| - |str|)
    && (ln == ln0 ==> if delta > 0 then col <= at || at + |str| > |LineOf(g, ln)| else at < col)
  }

  /** The key is nowhere in reach of a search as far as line `limit`. */
  ghost predicate Nowhere(g: File, str: Text, delta: int, ln0: int, col: int, limit: int) {
    forall l, c :: Hit(g, str, l, c) ==>
                     !(InReach(delta, ln0, col, l, c) && if delta > 0 then l <= limit else l >= limit || l == ln0)
  }

  /** The key is at (l, c), in reach of the search, and nowhere before that. */
  ghost predicate Finds(g: File, key: Text, delta: int, ln: int, col: int, l: int, c: int) {
    && Hit(g, key, l, c) && InReach(delta, ln, col, l, c) && Clear(g, key, delta, ln, col, l, c)
  }

  /** The loop that goes on to a line long enough for the key to be in it. */
  method NextLong(e: Editor, ghost g: File, str: Text, ghost ln0: int, ghost col: int, ln1: int, at1: int, limit: int,
                  delta: int)
    returns (done: bool, ln: int, at: int)
    requires PlainKey(str) && (delta == 1 || delta == -1) && 0 <= limit
    requires Searching(e, g, str, delta, ln0, col, ln1, at1)
    modifies e
    ensures e.Valid() && e.View() == old(e.View())
    ensures done ==> Nowhere(g, str, delta, ln0, col, limit)
    ensures !done ==> Searching(e, g, str, delta, ln0, col, ln, at) && 0 <= at && at + |str| <= |LineOf(g, ln)|
    ensures !done ==> (ln == ln1 && at == at1) || (if delta > 0 then ln1 < ln <= limit else ln < ln1)
  {
    var lkey := |str|;
    done, ln, at := false, ln1, at1;
    while at < 0 || at >= e.ncline - lkey
      invariant Searching(e, g, str, delta, ln0, col, ln, at) && e.View() == old(e.View())
      invariant (ln == ln1 && at == at1) || (if delta > 0 then ln1 < ln <= limit else ln < ln1)
      decreases if delta > 0 then limit - ln else ln
    {
      ln := ln + delta;
      if (delta < 0 && ln < limit) || (delta > 0 && ln > limit) {
        return true, ln, at;
      }
      e.GetLine(ln);
      at := 0;
      if delta < 0 {
        at := at + (e.ncline - 1 - lkey);
      }
    }
  }

  /** A line is read for a search that begins with it. */
  method ReadFirst(e: Editor, ghost g: File, ln: int, ghost delta: int)
    requires e.Valid() && 0 <= ln && g == ReadAt(e, ln) && ln <= |e.file|
    requires e.have && e.clineno == ln && ln < |e.file| ==> e.cline[e.ncline - 1] == NL
    modifies e
    ensures e.Valid() && e.View() == old(e.View()) && |e.file| == |g|
    ensures Reading(e, g, ln) && Unread(e, g, delta, ln)
  {
    hide Saved;
    e.GetLine(ln);
  }

  /** The start of a search on a line of the file. */
  method StartAt(e: Editor, ghost g: File, str: Text, ln: int, stcol: int, delta: int, starthere: bool) returns (at: int)
    requires e.Valid() && PlainKey(str) && (delta == 1 || delta == -1) && 0 <= ln < |e.file| && 0 <= stcol
    requires g == ReadAt(e, ln) && (starthere ==> delta == 1)
    requires e.have && e.clineno == ln ==> e.cline[e.ncline - 1] == NL
    modifies e
    ensures e.Valid() && e.View() == old(e.View())
    ensures Searching(e, g, str, delta, ln, if delta > 0 && !starthere then stcol + 1 else stcol, ln, at)
  {
    ReadFirst(e, g, ln, delta);
    hide ReadAt, Reading, Unread, Editor.View, Editor.Valid;
    ReadingSays(e, g, ln);
    at := if e.ncline - |str| < stcol then e.ncline - |str| else stcol;
    if starthere {
      at := at - delta;
    }
    at := at + delta;
  }

  lemma ReadingSays(e: Editor, g: File, ln: int)
    requires Reading(e, g, ln)
    ensures e.ncline == |LineOf(g, ln)| + 1
  {
  }

  /** strsearch for a plain key, over lines up to or down to `limit`: forward from column stcol of line ln,
      and that column itself if starthere is set, or backward from the column before it. */
  method StrSearch(e: Editor, str: Text, ln0: int, stcol: int, limit: int, delta: int, starthere: bool)
    returns (found: bool, srchline: int, srchcol: int)
    requires e.Valid() && PlainKey(str) && (delta == 1 || delta == -1) && 0 <= limit && 0 <= ln0 && 0 <= stcol
    requires starthere ==> delta == 1
    requires e.have && e.clineno == ln0 && ln0 < |e.file| ==> e.cline[e.ncline - 1] == NL
    modifies e
    ensures e.Valid() && e.View() == old(e.View())
    ensures var g := old(ReadAt(e, ln0));
            var col := if delta > 0 && !starthere then stcol + 1 else stcol;
            var ln := if delta < 0 && ln0 > |g| then |g| else ln0;
            if found then
              Finds(g, str, delta, ln, col, srchline, srchcol) && Reading(e, g, srchline) && |e.file| == |g|
              && (delta > 0 && ln0 <= limit ==> srchline <= limit)
            else Nowhere(g, str, delta, ln, col, limit)
  {
    hide Searching, Nowhere, ReadAt, Editor.View, Finds;
    ghost var g := ReadAt(e, ln0);
    ghost var col := if delta > 0 && !starthere then stcol + 1 else stcol;
    ReadAtLong(e, ln0);
    var ln, at := ln0, 0;
    if ln >= |e.file| {
      if delta > 0 {
        NowhereBeyond(g, str, ln, col, limit);
        return false, ln, at;
      }
      ln := |e.file|;
      ReadAtBeyond(e, ln0, ln);
      ReadFirst(e, g, ln, delta);
      at := at + delta;
      StartsBeyond(e, g, str, col, ln);
    } else {
      at := StartAt(e, g, str, ln, stcol, delta, starthere);
    }
    found, srchline, srchcol := SearchOn(e, g, str, ln, at, col, limit, delta);
  }

  /** The loop of strsearch. */
  method SearchOn(e: Editor, ghost g: File, str: Text, ln0: int, at0: int, ghost col: int, limit: int, delta: int)
    returns (found: bool, ln: int, at: int)
    requires e.Valid() && PlainKey(str) && (delta == 1 || delta == -1) && 0 <= limit
    requires Searching(e, g, str, delta, ln0, col, ln0, at0)
    modifies e
    ensures e.Valid() && e.View() == old(e.View())
    ensures if found then
              Finds(g, str, delta, ln0, col, ln, at) && Reading(e, g, ln) && |e.file| == |g|
              && (delta > 0 && ln0 <= limit ==> ln <= limit)
            else Nowhere(g, str, delta, ln0, col, limit)
  {
    hide Searching, Nowhere, Editor.View, Editor.Valid, Finds, Reading, Occurs, LineOf;
    var done;
    done, ln, at := NextLong(e, g, str, ln0, col, ln0, at0, limit, delta);
    while !done
      invariant e.Valid() && e.View() == old(e.View())
      invariant !done ==> Searching(e, g, str, delta, ln0, col, ln, at) && 0 <= at && at + |str| <= |LineOf(g, ln)|
      invariant done ==> Nowhere(g, str, delta, ln0, col, limit)
      invariant !done && delta > 0 && ln0 <= limit ==> ln <= limit
      decreases !done, if delta > 0 then limit - ln else ln, if delta > 0 then |LineOf(g, ln)| - at else at
    {
      SearchingSays(e, g, str, delta, ln0, col, ln, at);
      found := Match(e, str, at);
      if found {
        return true, ln, at;
      }
      MovesOn(e, g, str, delta, ln0, col, ln, at);
      done, ln, at := NextLong(e, g, str, ln0, col, ln, at + delta, limit, delta);
    }
    return false, ln, at;
  }

  lemma ReadAtLong(e: Editor, ln: int)
    requires e.Valid()
    ensures |ReadAt(e, ln)| == |e.file|
  {
  }

  lemma ReadAtBeyond(e: Editor, ln: int, ln1: int)
    requires e.Valid() && ln >= |e.file| && ln1 >= |e.file|
    ensures ReadAt(e, ln) == ReadAt(e, ln1)
  {
  }

  lemma NowhereBeyond(g: File, str: Text, ln: int, col: int, limit: int)
    requires PlainKey(str) && ln >= |g|
    ensures Nowhere(g, str, 1, ln, col, limit)
  {
  }

  lemma StartsBeyond(e: Editor, g: File, str: Text, col: int, ln: int)
    requires Reading(e, g, ln) && ln == |g| == |e.file| && Unread(e, g, -1, ln) && 0 <= col && str != []
    ensures Searching(e, g, str, -1, ln, col, ln, -1)
  {
  }

  lemma SearchingSays(e: Editor, g: File, str: Text, delta: int, ln0: int, col: int, ln: int, at: int)
    requires Searching(e, g, str, delta, ln0, col, ln, at) && (delta == 1 || delta == -1)
    ensures Reading(e, g, ln) && |e.file| == |g| && ln >= 0
    ensures 1 <= e.ncline <= |e.cline| && e.Cur() == LineOf(g, ln)
    ensures 0 <= at && Occurs(LineOf(g, ln), str, at) ==> Finds(g, str, delta, ln0, col, ln, at)
  {
  }

  /** The search goes on by a column. */
  lemma MovesOn(e: Editor, g: File, str: Text, delta: int, ln0: int, col: int, ln: int, at: int)
    requires Searching(e, g, str, delta, ln0, col, ln, at) && (delta == 1 || delta == -1) && 0 <= at
    requires !Occurs(LineOf(g, ln), str, at)
    ensures Searching(e, g, str, delta, ln0, col, ln, at + delta)
  {
  }

  // ----- replacing -----

  /** t with the key replaced wherever it is found, from the left, going on after it. */
  function Replaced(t: Text, key: Text, rep: Text): Text
    requires key != []
    decreases |t|
  {
    if |t| < |key| then t
    else if t[..|key|] == key then rep + Replaced(t[|key|..], key, rep)
    else [t[0]] + Replaced(t[1..], key, rep)
  }

  /** Pieces of text with something between them. */
  function Glued(pieces: seq<Text>, between: Text): Text
    requires pieces != []
  {
    if |pieces| == 1 then pieces[0] else pieces[0] + between + Glued(pieces[1..], between)
  }

  /** The key is in s no earlier than at column n. */
  ghost predicate NotBefore(s: Text, key: Text, n: int) {
    forall p :: Occurs(s, key, p) ==> p >= n
  }

  /** Pieces between the places of the key: in a piece and the key after it the key is found no earlier, and
      in the last piece nowhere. */
  ghost predicate Pieces(pieces: seq<Text>, key: Text) {
    && pieces != []
    && (forall i :: 0 <= i < |pieces| - 1 ==> NotBefore(pieces[i] + key, key, |pieces[i]|))
    && NotBefore(pieces[|pieces| - 1], key, |pieces[|pieces| - 1]| + 1)
  }

  /** What Replaced replaces: the text is pieces with the key between them, each key the first after the one
      before, and becomes the same pieces with the replacement between them. */
  lemma {:induction false} ReplacedIs(t: Text, key: Text, rep: Text) returns (pieces: seq<Text>)
    requires key != []
    ensures Pieces(pieces, key) && t == Glued(pieces, key) && Replaced(t, key, rep) == Glued(pieces, rep)
    decreases |t|
  {
    hide Pieces;
    if |t| < |key| {
      pieces := [t];
      LastPiece(t, key);
    } else if t[..|key|] == key {
      var rest := ReplacedIs(t[|key|..], key, rep);
      pieces := [[]] + rest;
      PiecesSome(rest, key);
      FirstPiece(rest, key);
      assert t == key + t[|key|..];
      GluedEmpty(rest, key);
      GluedEmpty(rest, rep);
    } else {
      var rest := ReplacedIs(t[1..], key, rep);
      PiecesSome(rest, key);
      pieces := [[t[0]] + rest[0]] + rest[1..];
      OneMoreChar(t, key, rest, pieces);
      GluedChar(rest, pieces, t[0], key);
      GluedChar(rest, pieces, t[0], rep);
    }
  }

  lemma PiecesSome(pieces: seq<Text>, key: Text)
    requires Pieces(pieces, key)
    ensures pieces != []
  {
  }

  lemma LastPiece(t: Text, key: Text)
    requires |t| < |key|
    ensures Pieces([t], key)
  {
  }

  lemma FirstPiece(rest: seq<Text>, key: Text)
    requires Pieces(rest, key)
    ensures Pieces([[]] + rest, key)
  {
    hide NotBefore;
    var pieces := [[]] + rest;
    NotBeforeStart([] + key, key);
    forall i | 0 <= i < |pieces| - 1
      ensures NotBefore(pieces[i] + key, key, |pieces[i]|)
    {
      if i > 0 {
        assert pieces[i] == rest[i - 1];
      }
    }
  }

  lemma NotBeforeStart(s: Text, key: Text)
    ensures NotBefore(s, key, 0)
  {
  }

  lemma GluedEmpty(rest: seq<Text>, between: Text)
    requires rest != []
    ensures Glued([[]] + rest, between) == between + Glued(rest, between)
  {
    assert ([[]] + rest)[1..] == rest;
  }

  lemma GluedChar(rest: seq<Text>, pieces: seq<Text>, c: int, between: Text)
    requires rest != [] && pieces == [[c] + rest[0]] + rest[1..]
    ensures Glued(pieces, between) == [c] + Glued(rest, between)
  {
    assert pieces[1..] == rest[1..];
  }

  lemma NotBeforeOne(s: Text, key: Text, c: int, n: int)
    requires NotBefore(s, key, n) && !Occurs([c] + s, key, 0)
    ensures NotBefore([c] + s, key, n + 1)
  {
    forall p | Occurs([c] + s, key, p)
      ensures p >= n + 1
    {
      if p > 0 {
        assert ([c] + s)[p..p + |key|] == s[p - 1..p - 1 + |key|];
        assert Occurs(s, key, p - 1);
      }
    }
  }

  /** The key stands at the start of t if it does at the start of a part of t. */
  lemma NotAtStart(t: Text, key: Text, c: int, s: Text, rest: Text)
    requires t == [c] + (s + rest) && |t| >= |key| && t[..|key|] != key
    ensures !Occurs([c] + s, key, 0)
  {
    assert t == [c] + s + rest;
    if |key| <= |[c] + s| {
      assert ([c] + s)[..|key|] == t[..|key|];
    }
  }

  lemma OneMoreChar(t: Text, key: Text, rest: seq<Text>, pieces: seq<Text>)
    requires key != [] && |t| >= |key| && t[..|key|] != key
    requires Pieces(rest, key) && t[1..] == Glued(rest, key) && pieces == [[t[0]] + rest[0]] + rest[1..]
    ensures Pieces(pieces, key)
  {
    hide NotBefore, Occurs, Glued;
    FirstLonger(t, key, rest);
  }

  lemma LongerPiece(t: Text, key: Text, s: Text, tail: Text, n: int)
    requires |t| >= |key| && t != [] && t[..|key|] != key && t[1..] == s + tail && NotBefore(s, key, n)
    ensures NotBefore([t[0]] + s, key, n + 1)
  {
    assert t == [t[0]] + (s + tail);
    NotAtStart(t, key, t[0], s, tail);
    NotBeforeOne(s, key, t[0], n);
  }

  /** The first piece with another character before it. */
  lemma FirstLonger(t: Text, key: Text, rest: seq<Text>)
    requires key != [] && |t| >= |key| && t[..|key|] != key
    requires Pieces(rest, key) && t[1..] == Glued(rest, key)
    ensures var r := [t[0]] + rest[0];
            if |rest| > 1 then NotBefore(r + key, key, |r|) else NotBefore(r, key, |r| + 1)
  {
    hide NotBefore;
    if |rest| > 1 {
      LongerPiece(t, key, rest[0] + key, Glued(rest[1..], key), |rest[0]|);
      assert [t[0]] + (rest[0] + key) == [t[0]] + rest[0] + key;
    } else {
      assert rest[0] + [] == rest[0];
      LongerPiece(t, key, rest[0], [], |rest[0]| + 1);
    }
  }

  /** The key is in s at column n or later. */
  ghost predicate HasKey(s: Text, key: Text, n: int) {
    exists p :: p >= n && Occurs(s, key, p)
  }

  ghost predicate Absent(s: Text, key: Text) {
    forall p :: !Occurs(s, key, p)
  }

  lemma OccursShift(s: Text, key: Text, n: nat, q: int)
    requires n <= |s|
    ensures 0 <= q ==> (Occurs(s[n..], key, q) <==> Occurs(s, key, n + q))
  {
    if 0 <= q && q + |key| <= |s| - n {
      assert s[n..][q..q + |key|] == s[n + q..n + q + |key|];
    }
  }

  lemma NotBeforeShift(s: Text, key: Text, n: nat, p: int)
    requires n <= |s| && forall q :: n <= q && Occurs(s, key, q) ==> q >= p
    ensures NotBefore(s[n..], key, p - n)
  {
    forall q | Occurs(s[n..], key, q)
      ensures q >= p - n
    {
      OccursShift(s, key, n, q);
    }
  }

  lemma AbsentShift(s: Text, key: Text, n: nat)
    requires n <= |s| && !HasKey(s, key, n)
    ensures Absent(s[n..], key)
  {
    forall q
      ensures !Occurs(s[n..], key, q)
    {
      OccursShift(s, key, n, q);
    }
  }

  lemma StartOccurs(t: Text, key: Text)
    ensures |key| <= |t| ==> (Occurs(t, key, 0) <==> t[..|key|] == key)
  {
  }

  lemma {:induction false} ReplacedFirst(t: Text, key: Text, rep: Text, p: nat)
    requires key != [] && Occurs(t, key, p) && NotBefore(t, key, p)
    ensures p + |key| <= |t|
    ensures Replaced(t, key, rep) == t[..p] + rep + Replaced(t[p + |key|..], key, rep)
    decreases p
  {
    hide Replaced;
    assert p + |key| <= |t|;
    StartOccurs(t, key);
    ReplacedSteps(t, key, rep);
    if p > 0 {
      var u := t[1..];
      NotBeforeShift(t, key, 1, p);
      OccursShift(t, key, 1, p - 1);
      assert !Occurs(t, key, 0);
      hide Occurs, NotBefore;
      ReplacedFirst(u, key, rep, p - 1);
      assert u[p - 1 + |key|..] == t[p + |key|..];
      Join4(t, u, 1, p, rep, Replaced(t[p + |key|..], key, rep));
      assert t[..1] == [t[0]];
    } else {
      assert t[..0] + rep == rep && t[p + |key|..] == t[|key|..];
    }
  }

  lemma ReplacedSteps(t: Text, key: Text, rep: Text)
    requires key != [] && |t| >= |key|
    ensures Replaced(t, key, rep) == if t[..|key|] == key then rep + Replaced(t[|key|..], key, rep)
                                     else [t[0]] + Replaced(t[1..], key, rep)
  {
  }

  lemma {:induction false} ReplacedNone(t: Text, key: Text, rep: Text)
    requires key != [] && Absent(t, key)
    ensures Replaced(t, key, rep) == t
    decreases |t|
  {
    if |t| >= |key| {
      StartOccurs(t, key);
      AbsentShift(t, key, 1);
      ReplacedNone(t[1..], key, rep);
      assert [t[0]] + t[1..] == t;
    }
  }

  /** A line with the key replaced from column n on. */
  function ReplacedFrom(s: Text, key: Text, rep: Text, n: nat): Text
    requires key != []
  {
    if n > |s| then s else s[..n] + Replaced(s[n..], key, rep)
  }

  /** The first key from column n on is replaced, and what follows the replacement is gone on with. */
  lemma ReplacedFromFirst(s: Text, key: Text, rep: Text, n: nat, p: nat)
    requires key != [] && n <= p && Occurs(s, key, p) && forall q :: n <= q && Occurs(s, key, q) ==> q >= p
    ensures p + |key| <= |s|
    ensures var t := s[..p] + rep + s[p + |key|..];
            p + |rep| <= |t| && ReplacedFrom(t, key, rep, p + |rep|) == ReplacedFrom(s, key, rep, n)
  {
    hide Replaced;
    assert p + |key| <= |s|;
    var u := s[n..];
    NotBeforeShift(s, key, n, p);
    OccursShift(s, key, n, p - n);
    hide Occurs, NotBefore;
    ReplacedFirst(u, key, rep, p - n);
    PartsAfter(s, n, p, |key|, rep);
    Join4(s, u, n, p, rep, Replaced(s[p + |key|..], key, rep));
  }

  lemma PartsAfter(s: Text, n: nat, p: nat, k: nat, rep: Text)
    requires n <= p && p + k <= |s|
    ensures var t := s[..p] + rep + s[p + k..];
            p + |rep| <= |t| && t[p + |rep|..] == s[p + k..] && t[..p + |rep|] == s[..p] + rep
    ensures s[n..][p - n + k..] == s[p + k..]
  {
  }

  lemma Join4(s: Text, u: Text, n: nat, p: nat, rep: Text, rest: Text)
    requires n <= p <= |s| && u == s[n..]
    ensures s[..p] + rep + rest == s[..n] + (u[..p - n] + rep + rest)
  {
    assert s[..p] == s[..n] + u[..p - n];
  }

  lemma ReplacedFromNone(s: Text, key: Text, rep: Text, n: nat)
    requires key != [] && !HasKey(s, key, n)
    ensures ReplacedFrom(s, key, rep, n) == s
  {
    if n <= |s| {
      AbsentShift(s, key, n);
      ReplacedNone(s[n..], key, rep);
    }
  }

  /** Room is made for a replacement longer than the key, or the rest of the line is moved up to a shorter
      one. */
  method Adjust(e: Editor, scol: int, wdelta: int)
    requires 1 <= e.ncline <= |e.cline| && e.cline[e.ncline - 1] == NL
    requires 0 <= scol <= e.ncline - 1 && scol - wdelta <= e.ncline - 1
    modifies e`cline, e`ncline, e`fcline
    ensures 1 <= e.ncline <= |e.cline| && e.cline[e.ncline - 1] == NL
    ensures e.Cur() == old(if wdelta > 0 then e.Cur()[..scol] + Times(wdelta, BLANK) + e.Cur()[scol..]
                           else e.Cur()[..scol] + e.Cur()[scol - wdelta..])
  {
    ghost var s, c := e.Cur(), e.cline;
    if wdelta > 0 {
      SpreadAt(s, scol, wdelta, scol, wdelta);
      e.PutBks(scol, wdelta);
    } else if wdelta < 0 {
      e.ncline := e.ncline + wdelta;
      if e.ncline - scol > 0 {
        e.Move(scol - wdelta, scol, e.ncline - scol);
      }
      assert c[scol - wdelta..|s| + 1] == s[scol - wdelta..] + [NL] && c[..scol] == s[..scol];
      assert e.cline[..e.ncline] == s[..scol] + (s[scol - wdelta..] + [NL]);
    }
  }

  /** rplit: the k characters at column scol of line slin are replaced. */
  method RplIt(e: Editor, slin: int, scol: int, k: int, rep: Text)
    requires e.Valid() && e.have && e.clineno == slin < |e.file| && e.cline[e.ncline - 1] == NL
    requires 0 <= scol && 0 <= k && scol + k <= e.ncline - 1
    modifies e
    ensures e.Valid() && e.have && e.clineno == slin && e.fcline && e.file == old(e.file) && e.cline[e.ncline - 1] == NL
    ensures e.Cur() == old(e.Cur()[..scol] + rep + e.Cur()[scol + k..])
  {
    hide Saved;
    e.GetLine(slin);
    RplLine(e, scol, k, rep);
    e.fcline := true;
  }

  method RplLine(e: Editor, scol: int, k: int, rep: Text)
    requires 1 <= e.ncline <= |e.cline| && e.cline[e.ncline - 1] == NL
    requires 0 <= scol && 0 <= k && scol + k <= e.ncline - 1
    modifies e`cline, e`ncline, e`fcline
    ensures 1 <= e.ncline <= |e.cline| && e.cline[e.ncline - 1] == NL
    ensures e.Cur() == old(e.Cur()[..scol] + rep + e.Cur()[scol + k..])
  {
    ghost var s := e.Cur();
    var wdelta := |rep| - k;
    Adjust(e, scol, wdelta);
    ghost var t := e.Cur();
    Overwritten(s, t, scol, k, rep);
    OverwriteAt(e, scol, rep);
  }

  method OverwriteAt(e: Editor, scol: int, rep: Text)
    requires 1 <= e.ncline <= |e.cline| && e.cline[e.ncline - 1] == NL && 0 <= scol && scol + |rep| <= e.ncline - 1
    modifies e`cline
    ensures e.ncline <= |e.cline| && e.cline[e.ncline - 1] == NL
    ensures e.Cur() == old(e.Cur()[..scol] + rep + e.Cur()[scol + |rep|..])
  {
    if |rep| > 0 {
      e.cline := e.cline[..scol] + rep + e.cline[scol + |rep|..];
    }
  }

  lemma Overwritten(s: Text, t: Text, scol: nat, k: nat, rep: Text)
    requires scol + k <= |s|
    requires var w := |rep| - k;
             t == if w > 0 then s[..scol] + Times(w, BLANK) + s[scol..] else s[..scol] + s[scol - w..]
    ensures scol + |rep| <= |t| && t[..scol] == s[..scol] && t[scol + |rep|..] == s[scol + k..]
  {
  }

  // ----- replacing throughout -----

  /** A replacement to be made: the file before, as written and as read, the key, and where to begin. */
  datatype Job = Job(v: File, g: File, key: Text, rep: Text, line: nat, col: nat, o: Options)

  ghost predicate Fit(j: Job) {
    |j.v| == |j.g| && PlainKey(j.key) && forall l :: 0 <= l < |j.v| && l != j.line ==> j.g[l] == j.v[l]
  }

  function From(j: Job, l: int): nat { if l == j.line then j.col else 0 }

  /** What becomes of line l: the key is replaced throughout; a line without it is not written. */
  ghost function Then(j: Job, l: int): Text
    requires 0 <= l < |j.v| == |j.g| && j.key != []
  {
    if l >= j.line && HasKey(j.g[l], j.key, From(j, l))
      then Saved(ReplacedFrom(j.g[l], j.key, j.rep, From(j, l)), j.o) else j.v[l]
  }

  /** The file as written is v, line L is read as cur, and all before column C of line L is done. */
  ghost predicate Progress(j: Job, v: File, cur: Text, L: int, C: int) {
    && Fit(j) && |v| == |j.v| && j.line <= L < |v| && 0 <= C
    && (forall l :: 0 <= l < L ==> v[l] == Then(j, l))
    && (forall l :: L < l < |v| ==> v[l] == j.v[l])
    && (if cur == j.g[L] && C == From(j, L) then v[L] == j.v[L] || Touched(j, v, cur, L, C) else Touched(j, v, cur, L, C))
  }

  ghost predicate Touched(j: Job, v: File, cur: Text, L: int, C: int)
    requires 0 <= L < |v| && |j.g| == |v| && 0 <= C && j.key != []
  {
    && C <= |cur| && v[L] == Saved(cur, j.o) && HasKey(j.g[L], j.key, From(j, L))
    && ReplacedFrom(cur, j.key, j.rep, C) == ReplacedFrom(j.g[L], j.key, j.rep, From(j, L))
  }

  /** A line is done when the key is not found in the rest of it. */
  lemma LineDone(j: Job, v: File, cur: Text, L: int, C: int)
    requires Progress(j, v, cur, L, C) && !HasKey(cur, j.key, C)
    ensures v[L] == Then(j, L)
  {
    hide Saved;
    if Touched(j, v, cur, L, C) {
      ReplacedFromNone(cur, j.key, j.rep, C);
    }
  }

  /** A line without the key, beyond the one that has been come to, is done as it is. */
  lemma LineSkipped(j: Job, v: File, cur: Text, L: int, C: int, l: int)
    requires Progress(j, v, cur, L, C) && L < l < |v| && !HasKey(v[l], j.key, 0)
    ensures v[l] == Then(j, l)
  {
  }

  /** Before the place found, the key is not in the lines searched. */
  lemma ClearSays(g: File, key: Text, L: int, C: int, M: int, at: int, l: int)
    requires Finds(g, key, 1, L, C, M, at) && 0 <= L <= l <= M < |g| && 0 <= C
    ensures l < M ==> !HasKey(g[l], key, if l == L then C else 0)
    ensures l == M ==> (if l == L then C else 0) <= at && Occurs(g[l], key, at)
    ensures l == M ==> forall q :: (if l == L then C else 0) <= q && Occurs(g[l], key, q) ==> q >= at
  {
    forall q | (if l == L then C else 0) <= q && Occurs(g[l], key, q)
      ensures l == M && q >= at
    {
      assert Hit(g, key, l, q);
    }
  }

  lemma DoneBefore(j: Job, v: File, cur: Text, L: int, C: int, M: int, at: int, l: int)
    requires Progress(j, v, cur, L, C) && Finds(v[L := cur], j.key, 1, L, C, M, at)
    requires 0 <= l < M < |v| && L <= M
    ensures v[l] == Then(j, l)
  {
    if l >= L {
      ClearSays(v[L := cur], j.key, L, C, M, at, l);
      if l == L {
        LineDone(j, v, cur, L, C);
      } else {
        LineSkipped(j, v, cur, L, C, l);
      }
    }
  }

  lemma NowTouched(j: Job, v: File, cur: Text, L: int, C: int, M: int, at: int, s: Text, t: Text)
    requires Progress(j, v, cur, L, C) && L <= M < |v| && s == (if M == L then cur else v[M])
    requires Finds(v[L := cur], j.key, 1, L, C, M, at)
    requires 0 <= at && at + |j.key| <= |s| && t == s[..at] + j.rep + s[at + |j.key|..]
    ensures Touched(j, v[M := Saved(t, j.o)], t, M, at + |j.rep|)
  {
    hide Saved, ReplacedFrom, Finds, Progress, HasKey, Occurs;
    var n := if M == L then C else 0;
    ProgressSays(j, v, cur, L, C);
    FoundFirst(v[L := cur], j.key, j.rep, L, C, M, at, s);
    GoalAt(j, v, cur, L, C, M, s);
  }

  lemma FoundFirst(g: File, key: Text, rep: Text, L: int, C: int, M: int, at: int, s: Text)
    requires key != [] && 0 <= L <= M < |g| && 0 <= C && s == g[M] && Finds(g, key, 1, L, C, M, at)
    ensures var n := if M == L then C else 0;
            var t := s[..at] + rep + s[at + |key|..];
            && HasKey(s, key, n) && 0 <= at && at + |rep| <= |t|
            && ReplacedFrom(t, key, rep, at + |rep|) == ReplacedFrom(s, key, rep, n)
  {
    hide ReplacedFrom, Finds;
    var n := if M == L then C else 0;
    FindsSays(g, key, L, C, M, at);
    ClearSays(g, key, L, C, M, at, M);
    ReplacedFromFirst(s, key, rep, n, at);
  }

  /** What is left to do on the line where the key has been found. */
  lemma GoalAt(j: Job, v: File, cur: Text, L: int, C: int, M: int, s: Text)
    requires Progress(j, v, cur, L, C) && L <= M < |v| && s == (if M == L then cur else v[M])
    requires HasKey(s, j.key, if M == L then C else 0)
    ensures |j.g| == |v| && HasKey(j.g[M], j.key, From(j, M))
    ensures ReplacedFrom(s, j.key, j.rep, if M == L then C else 0) == ReplacedFrom(j.g[M], j.key, j.rep, From(j, M))
  {
    hide Saved, ReplacedFrom, HasKey;
  }

  /** The key has been found at column at of line M, and is replaced there. */
  lemma Progresses(j: Job, v: File, cur: Text, L: int, C: int, M: int, at: int, s: Text, t: Text)
    requires Progress(j, v, cur, L, C) && L <= M < |v| && s == (if M == L then cur else v[M])
    requires Finds(v[L := cur], j.key, 1, L, C, M, at)
    requires 0 <= at && at + |j.key| <= |s| && t == s[..at] + j.rep + s[at + |j.key|..]
    ensures Progress(j, v[M := Saved(t, j.o)], t, M, at + |j.rep|)
  {
    NowTouched(j, v, cur, L, C, M, at, s, t);
    hide Saved, ReplacedFrom, Finds, Occurs, HasKey, Touched, Then;
    var w := v[M := Saved(t, j.o)];
    forall l | 0 <= l < M
      ensures w[l] == Then(j, l)
    {
      DoneBefore(j, v, cur, L, C, M, at, l);
    }
  }

  /** The key is not found any more, as far as line `limit`. */
  lemma AllDone(j: Job, v: File, cur: Text, L: int, C: int, limit: int, l: int)
    requires Progress(j, v, cur, L, C) && Nowhere(v[L := cur], j.key, 1, L, C, limit) && L <= limit
    requires 0 <= l < |v|
    ensures v[l] == if l <= limit then Then(j, l) else j.v[l]
  {
    var g := v[L := cur];
    if L <= l <= limit {
      NoKeyLeft(g, j.key, L, C, limit, l);
      if l == L {
        LineDone(j, v, cur, L, C);
      } else {
        LineSkipped(j, v, cur, L, C, l);
      }
    }
  }

  lemma NoKeyLeft(g: File, key: Text, L: int, C: int, limit: int, l: int)
    requires Nowhere(g, key, 1, L, C, limit) && 0 <= L <= l <= limit && l < |g|
    ensures !HasKey(g[l], key, if l == L then C else 0)
  {
    forall q | (if l == L then C else 0) <= q
      ensures !Occurs(g[l], key, q)
    {
      assert !Hit(g, key, l, q);
    }
  }

  /** Line L as it is read. */
  ghost function Line(e: Editor, L: int): Text
    reads e
    requires e.Valid()
  {
    LineOf(ReadAt(e, L), L)
  }

  lemma ReadAtIs(e: Editor, L: int)
    requires e.Valid() && 0 <= L < |e.file|
    ensures |e.View()| == |e.file| && ReadAt(e, L) == e.View()[L := Line(e, L)]
  {
  }

  /** What a line that has been found and changed leaves. */
  method ReplaceHere(e: Editor, ghost v: File, M: int, at: int, rpls1: Text, rpls2: Text)
    requires e.Valid() && e.have && e.clineno == M && 0 <= M < |e.file| && e.cline[e.ncline - 1] == NL && v == e.View()
    requires 0 <= at && at + |rpls1| <= |e.Cur()|
    modifies e
    ensures e.Valid() && e.have && e.clineno == M && e.cline[e.ncline - 1] == NL && |e.file| == |v|
    ensures var s := old(e.Cur());
            var t := s[..at] + rpls2 + s[at + |rpls1|..];
            Line(e, M) == t && e.View() == v[M := Saved(t, e.o)]
  {
    hide Saved;
    RplIt(e, M, at, |rpls1|, rpls2);
  }

  /** One round of the loop of doreplace. */
  method ReplaceNext(e: Editor, ghost j: Job, rpls1: Text, rpls2: Text, L: int, C: int, limit: int)
    returns (found: bool, M: int, D: int)
    requires e.Valid() && j.key == rpls1 && j.rep == rpls2 && j.o == e.o && 0 <= L <= limit < |e.file|
    requires Progress(j, e.View(), Line(e, L), L, C)
    requires e.have && e.clineno == L ==> e.cline[e.ncline - 1] == NL
    modifies e
    ensures e.Valid() && |e.View()| == |e.file| == |j.v|
    ensures found ==> L <= M <= limit && Progress(j, e.View(), Line(e, M), M, D) && e.have && e.cline[e.ncline - 1] == NL
    ensures found ==> D <= |Line(e, M)| && (M == L ==> |Line(e, M)| - D < old(|Line(e, L)|) - C)
    ensures !found ==> forall l :: 0 <= l < |j.v| ==> e.View()[l] == if l <= limit then Then(j, l) else j.v[l]
  {
    hide Saved, Then, Progress, Finds, Nowhere;
    ghost var v, cur := e.View(), Line(e, L);
    ReadAtIs(e, L);
    ProgressSays(j, v, cur, L, C);
    var at;
    found, M, at := StrSearch(e, rpls1, L, C, limit, 1, true);
    D := at;
    if !found {
      forall l | 0 <= l < |j.v|
        ensures v[l] == if l <= limit then Then(j, l) else j.v[l]
      {
        AllDone(j, v, cur, L, C, limit, l);
      }
      return;
    }
    FindsSays(v[L := cur], rpls1, L, C, M, at);
    ghost var s := e.Cur();
    ghost var t := s[..at] + rpls2 + s[at + |rpls1|..];
    Progresses(j, v, cur, L, C, M, at, s, t);
    ReplaceHere(e, v, M, at, rpls1, rpls2);
    D := at + |rpls2|;
  }

  lemma ProgressSays(j: Job, v: File, cur: Text, L: int, C: int)
    requires Progress(j, v, cur, L, C)
    ensures |v| == |j.v| == |j.g| && PlainKey(j.key) && 0 <= C && 0 <= L < |v|
  {
  }

  lemma FindsSays(g: File, key: Text, L: int, C: int, M: int, at: int)
    requires Finds(g, key, 1, L, C, M, at)
    ensures L <= M && 0 <= at && at + |key| <= |LineOf(g, M)| && (M == L ==> C <= at)
  {
  }

  /** doreplace, forward, for a plain key, from the cursor at (line, col) over nl lines: what it leaves is
      Then, and it ends whatever the replacement is. */
  method DoReplace(e: Editor, rpls1: Text, rpls2: Text, line: nat, col: nat, nl: int)
    requires e.Valid() && PlainKey(rpls1)
    requires e.have && e.clineno == line && line < |e.file| ==> e.cline[e.ncline - 1] == NL
    modifies e
    ensures e.Valid() && |e.View()| == |old(e.View())|
    ensures var j := old(Job(e.View(), ReadAt(e, line), rpls1, rpls2, line, col, e.o));
            var limit := if |j.v| - 1 < line + nl - 1 then |j.v| - 1 else line + nl - 1;
            |j.g| == |j.v| && forall l :: 0 <= l < |j.v| ==> e.View()[l] == if l <= limit then Then(j, l) else j.v[l]
  {
    hide Progress, Saved, ReplacedFrom, HasKey;
    ghost var j := Job(e.View(), ReadAt(e, line), rpls1, rpls2, line, col, e.o);
    var srchline: int, srchcol: int := line, col;
    var limit := if |e.file| - 1 < srchline + nl - 1 then |e.file| - 1 else srchline + nl - 1;
    if srchline > limit {
      return;
    }
    ReadAtIs(e, line);
    JobStarts(j, j.g[line]);
    var found := true;
    while found
      invariant e.Valid() && |e.View()| == |e.file| == |j.v| && limit < |e.file|
      invariant found ==> line <= srchline <= limit && Progress(j, e.View(), Line(e, srchline), srchline, srchcol)
      invariant found && e.have && e.clineno == srchline ==> e.cline[e.ncline - 1] == NL
      invariant !found ==> forall l :: 0 <= l < |j.v| ==> e.View()[l] == if l <= limit then Then(j, l) else j.v[l]
      decreases found, limit - srchline, if srchline >= 0 && found then |Line(e, srchline)| - srchcol else 0
    {
      found, srchline, srchcol := ReplaceNext(e, j, rpls1, rpls2, srchline, srchcol, limit);
    }
  }

  lemma JobStarts(j: Job, cur: Text)
    requires Fit(j) && j.line < |j.v| && cur == j.g[j.line]
    ensures Progress(j, j.v, cur, j.line, j.col)
  {
  }
}
