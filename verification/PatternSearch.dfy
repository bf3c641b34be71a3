/** Searching a file, forward or backward, for a pattern. */
module PatternSearch {
  import opened Pattern
  import opened Matching
  import opened RegexEngine

  /** A place in a file at which the pattern matches. */
  ghost predicate Hit(items: seq<Item>, lines: seq<Text>, l: int, c: int) {
    0 <= l < |lines| && 0 <= c <= |lines[l]| && !NoPath(items, lines[l], UNSEEN, c)
  }

  /** (l, c) comes before (l2, c2). */
  predicate Before(l: int, c: int, l2: int, c2: int) {
    l < l2 || (l == l2 && c < c2)
  }

  const ESCCHAR: Ch := 127  // marks a control character; written ^J when j follows

  /** Is c taken for a j?  Besides j and J themselves, * and the newline character are. */
  predicate IsJ(c: int) {
    c == 'j' as int || c == 'J' as int || c == '*' as int || c == '\n' as int
  }

  /** That is what setting the bits of 0140 before the comparison with j comes to. */
  lemma BitsOfJ(c: bv8)
    ensures c | 0x60 == 0x6A <==> IsJ(c as int)
  {
    if c | 0x60 == 0x6A {
      assert c == 0x0A || c == 0x2A || c == 0x4A || c == 0x6A;
    } else {
      assert c != 0x0A && c != 0x2A && c != 0x4A && c != 0x6A;
      assert (c as int) as bv8 == c;
    }
  }

  /** ^J, as the search tests for it. */
  predicate NewlineKey(t: Text, i: nat) {
    i + 1 < |t| && t[i] == ESCCHAR && IsJ(t[i + 1])
  }

  /** A lone final backslash is taken for $. */
  function Finished(pat: Text): Text
    requires pat != []
  {
    if pat[|pat| - 1] == '\\' as int then pat[|pat| - 1 := '$' as int] else pat
  }

  class Searcher {
    const re: Regex
    var lines: seq<Text>
    var srchline: int
    var srchcol: int

    constructor (lines: seq<Text>)
      ensures this.lines == lines && fresh(re) && re.Valid() && re.expbuf != []
      ensures fresh(re.braslist) && fresh(re.braelist)
    {
      this.lines := lines;
      srchline, srchcol := 0, 0;
      re := new Regex();
    }

    ghost predicate Valid()
      reads this, re
    {
      re.Valid() && re.expbuf != []
    }

    /** The compiled pattern is not anchored and asks for at least one character. */
    ghost predicate Ready()
      reads this, re
    {
      Valid() && re.Compiled() && !re.circf && !CanBeEmpty(re.items)
    }

    /** re_exec on a line, for a pattern that cannot match the empty text. */
    method Next(s: Text, p: nat) returns (r: int, ghost path: seq<nat>)
      requires Ready() && p <= |s|
      modifies re`matched, re.braslist, re.braelist
      ensures Ready()
      ensures r == NIL ==> re.matched == old(re.matched)
      ensures r == NIL ==> forall c: nat :: p <= c <= |s| ==> NoPath(re.items, s, UNSEEN, c)
      ensures r != NIL ==>
                && p <= r < |s| && Leftmost(re.items, s, false, p, r)
                && Greediest(re.items, s, UNSEEN, r, path) && r <= Final(r, path) <= |s|
                && re.matched == s[r..Final(r, path)]
                && Moved(CapsAlong(re.items, UNSEEN, r, path), re.Captures(), r)
    {
      hide NoPath, IsPath;
      r, path := re.Exec(s, p);
      NoHitAtEnd(re.items, s);
      if r != NIL && p < |s| {
        NeedsCharacter(re.items, s, UNSEEN, r, path);
      }
    }

    /** The main loop and the special first line of patsearch, searching forward: the first place at
        or after (ln0, stcol), or strictly after it unless `starthere`, up to the limit line. */
    method Forward(ln0: nat, stcol: nat, limit: nat, starthere: bool) returns (found: bool, ghost path: seq<nat>)
      requires Ready() && ln0 <= limit < |lines|
      modifies `srchline, `srchcol, re`matched, re.braslist, re.braelist
      ensures Ready()
      ensures var from := if starthere then stcol else stcol + 1;
              if found then
                && srchline <= limit && Hit(re.items, lines, srchline, srchcol)
                && !Before(srchline, srchcol, ln0, from)
                && (forall l, c :: !Before(l, c, ln0, from) && Before(l, c, srchline, srchcol)
                      ==> !Hit(re.items, lines, l, c))
                && Greediest(re.items, lines[srchline], UNSEEN, srchcol, path)
                && srchcol <= Final(srchcol, path) <= |lines[srchline]|
                && re.matched == lines[srchline][srchcol..Final(srchcol, path)]
                && Moved(CapsAlong(re.items, UNSEEN, srchcol, path), re.Captures(), srchcol)
              else forall l, c :: !Before(l, c, ln0, from) && l <= limit ==> !Hit(re.items, lines, l, c)
    {
      hide NoPath, Greediest;
      ghost var from := if starthere then stcol else stcol + 1;
      var ln := ln0;
      var at: nat := if starthere then stcol else stcol + 1;
      if at > |lines[ln]| {
        at := |lines[ln]|;
      }
      NoHitAtEnd(re.items, lines[ln]);
      while true
        invariant Ready() && ln0 <= ln <= limit && at <= |lines[ln]|
        invariant forall l, c :: !Before(l, c, ln0, from) && Before(l, c, ln, at) ==> !Hit(re.items, lines, l, c)
        invariant Before(ln, at, ln0, from) ==> at == |lines[ln]| && !Hit(re.items, lines, ln, at)
        decreases limit - ln
      {
        var fk;
        fk, path := Next(lines[ln], at);
        if fk != NIL {
          srchline, srchcol := ln, fk;
          return true, path;
        }
        ln := ln + 1;
        if ln > limit {
          srchline, srchcol := ln, at;
          return false, [];
        }
        at := 0;
      }
    }

    /** The inner loops of patsearch that step through the matches of a line: the last one that
        begins before `at`, or -1.  The text kept as matched is that of the match at m, which is a
        later one whenever some match begins at or after `at`. */
    method LastOnLine(s: Text, at: nat) returns (last: int, ghost m: int, ghost path: seq<nat>)
      requires Ready() && at <= |s| + 1
      modifies re`matched, re.braslist, re.braelist
      ensures Ready()
      ensures -1 <= last < at && (last != -1 ==> last <= |s| && !NoPath(re.items, s, UNSEEN, last))
      ensures forall c: nat :: last < c < at && c <= |s| ==> NoPath(re.items, s, UNSEEN, c)
      ensures last != -1 ==>
                && last <= m <= |s| && Greediest(re.items, s, UNSEEN, m, path)
                && m <= Final(m, path) <= |s| && re.matched == s[m..Final(m, path)]
                && (m == last <==> forall c: nat :: at <= c <= |s| ==> NoPath(re.items, s, UNSEEN, c))
    {
      hide NoPath, Greediest, IsPath;
      last, m, path := -1, -1, [];
      while true
        invariant Ready() && -1 <= last < at && last < |s| && m == last
        invariant last != -1 ==> !NoPath(re.items, s, UNSEEN, last) && Greediest(re.items, s, UNSEEN, m, path)
                                 && m <= Final(m, path) <= |s| && re.matched == s[m..Final(m, path)]
        decreases |s| - last
      {
        var fk;
        ghost var p;
        fk, p := Next(s, last + 1);
        if fk == NIL || fk >= at {
          if fk != NIL {
            m, path := fk, p;
          }
          return;
        }
        last, m, path := fk, fk, p;
      }
    }

    /** patsearch searching backward: the last place strictly before (ln0, stcol), down to the limit
        line.  A start past the last line means the end of the last line.  The text kept as matched
        is that of the place found just when no match begins at or after the starting place on the
        line where the search began and ended. */
    method Backward(ln0: nat, stcol: nat, limit: nat)
      returns (found: bool, ghost m: int, ghost path: seq<nat>)
      requires Ready() && limit < |lines| && limit <= ln0
      modifies `srchline, `srchcol, re`matched, re.braslist, re.braelist
      ensures Ready()
      ensures if found then
                && limit <= srchline && Hit(re.items, lines, srchline, srchcol)
                && Before(srchline, srchcol, ln0, stcol)
                && (forall l, c :: Before(srchline, srchcol, l, c) && Before(l, c, ln0, stcol)
                      ==> !Hit(re.items, lines, l, c))
                && 0 <= m <= |lines[srchline]| && Greediest(re.items, lines[srchline], UNSEEN, m, path)
                && m <= Final(m, path) <= |lines[srchline]| && re.matched == lines[srchline][m..Final(m, path)]
                && (m == srchcol <==>
                      srchline < ln0 || forall c :: stcol <= c ==> !Hit(re.items, lines, ln0, c))
              else forall l, c :: Before(l, c, ln0, stcol) && l >= limit ==> !Hit(re.items, lines, l, c)
    {
      hide NoPath, Greediest, IsPath;
      m, path := -1, [];
      var ln := ln0;
      var at: nat;
      if ln >= |lines| {
        ln := |lines| - 1;
        at := |lines[ln]| + 1;
      } else {
        at := if stcol < |lines[ln]| then stcol else |lines[ln]|;
        NoHitAtEnd(re.items, lines[ln]);
      }
      while true
        invariant Ready() && limit <= ln <= ln0 && ln < |lines| && at <= |lines[ln]| + 1
        invariant forall l, c :: Before(ln, at - 1, l, c) && Before(l, c, ln0, stcol) ==> !Hit(re.items, lines, l, c)
        invariant forall c :: 0 <= c < at ==> Before(ln, c, ln0, stcol)
        invariant ln < ln0 ==> at == |lines[ln]| + 1
        invariant ln == ln0 ==> forall c :: at <= c < stcol ==> !Hit(re.items, lines, ln, c)
        invariant ln == ln0 ==> at <= stcol
        decreases ln
      {
        var last;
        last, m, path := LastOnLine(lines[ln], at);
        if last != -1 {
          srchline, srchcol := ln, last;
          if ln == ln0 && forall c :: stcol <= c ==> !Hit(re.items, lines, ln0, c) {
            forall c: nat | at <= c <= |lines[ln]|
              ensures NoPath(re.items, lines[ln], UNSEEN, c)
            {
              assert !Hit(re.items, lines, ln, c);
            }
          }
          return true, m, path;
        }
        ln := ln - 1;
        if ln < limit {
          srchline, srchcol := ln, -1;
          return false, m, path;
        }
        at := |lines[ln]| + 1;
      }
    }

    /** patsearch: reads the pattern, then searches for it, forward or backward.  The text kept is the longest
        match of the place it is at, when no back reference comes in the way.  A pattern that does not
        read, or that names ^J, finds nothing; nor does a search forward from beyond the last line. */
    method PatSearch(pat: Text, ln: nat, stcol: nat, limit: nat, delta: int, starthere: bool)
      returns (found: bool, ghost m: int, ghost path: seq<nat>)
      requires Valid() && pat != [] && limit < |lines| && (delta == 1 || delta == -1)
      requires if delta > 0 then ln <= limit || ln >= |lines| else limit <= ln
      requires var b := Finished(pat);
               && !Anchored(b) && Parse(b) != Err(RunsOff)
               && (Parse(b).Ok? ==> ClassesFit(Parse(b).value) && BacksClosed(Parse(b).value, {})
                                    && !CanBeEmpty(Parse(b).value))
      modifies `srchline, `srchcol, re`expbuf, re`circf, re`items, re`matched, re.braslist, re.braelist
      ensures Parse(Finished(pat)).Err? || (exists i :: 0 <= i < |pat| && NewlineKey(pat, i)) ==> !found
      ensures Parse(Finished(pat)).Ok? && (forall i :: 0 <= i < |pat| ==> !NewlineKey(pat, i)) ==>
              var items := Parse(Finished(pat)).value;
              var from := if delta > 0 && !starthere then stcol + 1 else stcol;
              if found then
                && Nearest(items, lines, delta, ln, from, limit, srchline, srchcol)
                && 0 <= m <= |lines[srchline]| && Greediest(items, lines[srchline], UNSEEN, m, path)
                && m <= Final(m, path) <= |lines[srchline]| && re.matched == lines[srchline][m..Final(m, path)]
                && (m == srchcol <==>
                      delta > 0 || srchline < ln || forall c :: stcol <= c ==> !Hit(items, lines, ln, c))
                && (BacksEarly(items) ==> Longest(items, lines[srchline], UNSEEN, m, m + |re.matched|))
              else forall l, c :: Ahead(delta, ln, from, l, c) && (if delta > 0 then l <= limit else l >= limit)
                     ==> !Hit(items, lines, l, c)
    {
      hide Parse, Hit, Greediest, Fits, Sound, CanBeEmpty, BacksEarly, Longest;
      m, path := -1, [];
      var i := 0;
      while i < |pat|
        invariant 0 <= i <= |pat| && forall k :: 0 <= k < i ==> !NewlineKey(pat, k)
      {
        if NewlineKey(pat, i) {
          return false, m, path;
        }
        i := i + 1;
      }
      var b := Finished(pat);
      var report := re.Comp(b);
      if report.Rejected? {
        return false, m, path;
      }
      TextIsSound(b);
      if delta < 0 {
        found, m, path := Backward(ln, stcol, limit);
      } else if ln >= |lines| {
        return false, m, path;
      } else {
        found, path := Forward(ln, stcol, limit, starthere);
        m := srchcol;
        assert found ==> 0 <= m by {
          OnLine(re.items, lines, srchline, srchcol);
        }
      }
      if found {
        LongestKept(re.items, lines, srchline, srchcol, m, path);
      }
    }
  }

  lemma LongestKept(items: seq<Item>, lines: seq<Text>, l: int, c: int, m: int, path: seq<nat>)
    requires Hit(items, lines, l, c) && 0 <= m <= |lines[l]| && Greediest(items, lines[l], UNSEEN, m, path)
    ensures BacksEarly(items) ==> Longest(items, lines[l], UNSEEN, m, Final(m, path))
  {
    GreediestLongest(items, lines[l], UNSEEN, m, path);
  }

  lemma OnLine(items: seq<Item>, lines: seq<Text>, l: int, c: int)
    ensures Hit(items, lines, l, c) ==> 0 <= c
  {
  }

  /** Where a search looks: from (ln, from) on, or strictly before it. */
  predicate Ahead(delta: int, ln: int, from: int, l: int, c: int) {
    if delta > 0 then !Before(l, c, ln, from) else Before(l, c, ln, from)
  }

  /** The pattern matches at (l, c), ahead of the search and within its limit, and nowhere between. */
  ghost predicate Nearest(items: seq<Item>, lines: seq<Text>, delta: int, ln: int, from: int, limit: int, l: int, c: int) {
    && Hit(items, lines, l, c) && Ahead(delta, ln, from, l, c) && (if delta > 0 then l <= limit else l >= limit)
    && forall l2, c2 :: Ahead(delta, ln, from, l2, c2) && (if delta > 0 then Before(l2, c2, l, c) else Before(l, c, l2, c2))
         ==> !Hit(items, lines, l2, c2)
  }

  lemma NoHitAtEnd(items: seq<Item>, s: Text)
    requires !CanBeEmpty(items)
    ensures NoPath(items, s, UNSEEN, |s|)
  {
    forall path | IsPath(items, s, UNSEEN, |s|, path)
      ensures false
    {
      NeedsCharacter(items, s, UNSEEN, |s|, path);
    }
  }
}
