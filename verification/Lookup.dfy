/** Looking a name up in a sorted table of names, where it may be abbreviated. */
module Lookup {

  type Name = seq<int>

  const MAXLUPN := 30

  /** Names are of characters other than the NUL that ends them. */
  ghost predicate IsName(s: Name) { forall i :: 0 <= i < |s| ==> s[i] > 0 }

  /** The i-th character of a string, or the NUL at its end. */
  function At(s: Name, i: nat): int { if i < |s| then s[i] else 0 }

  ghost predicate Prefix(n: Name, s: Name) { |n| <= |s| && n == s[..|n|] }

  function Lower(c: int): int { if 65 <= c <= 90 then c + 32 else c }

  function Folded(n: Name): (r: Name)
    ensures |r| == |n| && forall i :: 0 <= i < |r| ==> r[i] == Lower(n[i])
  {
    seq(|n|, i requires 0 <= i < |n| => Lower(n[i]))
  }

  /** In the order of the table: at the first difference the smaller character, or the end, comes first. */
  ghost predicate Before(a: Name, b: Name) {
    Prefix(a, b) || exists k :: 0 <= k < |a| && k < |b| && a[..k] == b[..k] && a[k] < b[k]
  }

  ghost predicate Sorted(table: seq<Name>) {
    forall i, j :: 0 <= i < j < |table| ==> Before(table[i], table[j])
  }

  /** The answer there is to give for a name that is not empty: the first entry that is the name, or else
      the one entry it abbreviates, -2 if there are several and -1 if there is none. */
  ghost predicate Answer(n: Name, table: seq<Name>, r: int) {
    if n in table then
      0 <= r < |table| && table[r] == n && forall i :: 0 <= i < r ==> table[i] != n
    else if r == -1 then
      forall i :: 0 <= i < |table| ==> !Prefix(n, table[i])
    else if r == -2 then
      exists i, j :: 0 <= i < j < |table| && Prefix(n, table[i]) && Prefix(n, table[j])
    else
      0 <= r < |table| && Prefix(n, table[r]) && forall i :: 0 <= i < |table| && Prefix(n, table[i]) ==> i == r
  }

  /** There is only one answer. */
  lemma AnswerUnique(n: Name, table: seq<Name>, r: int, s: int)
    requires Answer(n, table, r) && Answer(n, table, s)
    ensures r == s
  {
  }

  /** An entry that is in the table twice has to be spelled out. */
  lemma TwiceMustBeSpelledOut(n: Name, table: seq<Name>, i: nat, j: nat, r: int)
    requires i < j < |table| && table[i] == table[j] && Answer(n, table, r) && 0 <= r && table[r] == table[i]
    ensures n == table[i]
  {
  }

  /** Once an entry comes after the name without being an expansion of it, no later one is. */
  lemma NoneAfter(n: Name, table: seq<Name>, ind: nat, k: nat, j: nat)
    requires Sorted(table) && ind <= j < |table| && IsName(table[ind])
    requires k < |n| && k < |table[ind]| && n[..k] == table[ind][..k] && n[k] < table[ind][k]
    ensures !Prefix(n, table[j])
  {
    if ind < j {
      assert Before(table[ind], table[j]);
    }
  }

  /** Where an exact entry is, no earlier one is an expansion. */
  lemma NoneBefore(n: Name, table: seq<Name>, i: nat, j: nat)
    requires Sorted(table) && i < j < |table| && table[j] == n && Prefix(n, table[i])
    ensures table[i] == n
  {
    assert Before(table[i], table[j]);
  }

  /** How far the name and an entry agree. */
  method Compare(lname: Name, str: Name) returns (k: nat)
    requires IsName(lname) && IsName(str)
    ensures k <= |lname| && k <= |str| && lname[..k] == str[..k]
    ensures (k == |lname| && k == |str|) || At(str, k) != At(lname, k)
  {
    k := 0;
    while At(str, k) == At(lname, k)
      invariant k <= |lname| && k <= |str| && lname[..k] == str[..k]
      decreases |str| - k
    {
      if At(str, k) == 0 {
        break;
      }
      k := k + 1;
    }
  }

  /** lookup, with its early ends: when the entry is the name, and when it comes after it. */
  method Lookup(name: Name, table: seq<Name>) returns (r: int)
    requires IsName(name) && (forall i :: 0 <= i < |table| ==> IsName(table[i])) && Sorted(table)
    ensures |name| >= MAXLUPN ==> r == -1
    ensures 0 < |name| < MAXLUPN ==> Answer(Folded(name), table, r)
    ensures name == [] ==> r == if table == [] then -1 else -2
  {
    var lname: Name := [];
    for i := 0 to |name|
      invariant |lname| == i < MAXLUPN && forall j :: 0 <= j < i ==> lname[j] == Lower(name[j])
    {
      lname := lname + [Lower(name[i])];
      if |lname| >= MAXLUPN {
        return -1;
      }
    }
    assert lname == Folded(name);
    r := Scan(lname, table);
  }

  /** The scan of lookup, for the name in lower case. */
  method Scan(lname: Name, table: seq<Name>) returns (r: int)
    requires IsName(lname) && (forall i :: 0 <= i < |table| ==> IsName(table[i])) && Sorted(table)
    ensures lname != [] ==> Answer(lname, table, r)
    ensures lname == [] ==> r == if table == [] then -1 else -2
  {
    hide State, Answer, Prefix, Before;
    var longest, ambig, value, ind := 0, false, 0, 0;
    StateStarts(lname, table);
    while ind < |table|
      invariant 0 <= ind <= |table| && (longest == 0 || longest == |lname|)
      invariant lname != [] ==> State(lname, table, ind, longest > 0, ambig, value)
      invariant lname == [] ==> longest == 0 && (ambig <==> ind > 0)
      decreases |table| - ind
    {
      var k := Compare(lname, table[ind]);
      if At(lname, k) == 0 {
        Agrees(lname, table[ind], k);
        if longest < k {
          if At(table[ind], k) == 0 {
            ExactFound(lname, table, ind, ambig, value);
            return ind;
          }
          FirstFound(lname, table, ind, ambig, value);
          longest, ambig, value := k, false, ind;
        } else {
          if lname != [] {
            AnotherFound(lname, table, ind, ambig, value);
          }
          ambig := true;
        }
      } else {
        Differs(lname, table[ind], k);
        if At(lname, k) < At(table[ind], k) {
          forall j | ind <= j < |table|
            ensures !Prefix(lname, table[j])
          {
            NoneAfter(lname, table, ind, k, j);
          }
          break;
        }
        NoneFound(lname, table, ind, longest > 0, ambig, value);
      }
      ind := ind + 1;
    }
    if lname != [] {
      StateAnswers(lname, table, ind, longest > 0, ambig, value);
    }
    if ambig {
      return -2;
    }
    if longest > 0 {
      return value;
    }
    return -1;
  }

  /** The comparison came to the end of the name. */
  lemma Agrees(n: Name, s: Name, k: nat)
    requires IsName(n) && IsName(s) && k <= |n| && k <= |s| && n[..k] == s[..k] && At(n, k) == 0
    ensures k == |n| && Prefix(n, s) && (At(s, k) == 0 <==> s == n)
  {
  }

  lemma Differs(n: Name, s: Name, k: nat)
    requires IsName(n) && IsName(s) && k <= |n| && k <= |s| && n[..k] == s[..k] && At(n, k) != 0 && At(s, k) != At(n, k)
    ensures k < |n| && !Prefix(n, s) && (At(n, k) < At(s, k) ==> k < |s| && n[k] < s[k])
  {
  }

  lemma StateStarts(n: Name, table: seq<Name>)
    ensures State(n, table, 0, false, false, 0)
  {
  }

  lemma ExactFound(n: Name, table: seq<Name>, ind: nat, ambig: bool, value: int)
    requires ind < |table| && table[ind] == n && State(n, table, ind, false, ambig, value)
    ensures Answer(n, table, ind)
  {
    forall i | 0 <= i < ind
      ensures table[i] != n
    {
      assert !Prefix(n, table[i]);
    }
  }

  lemma FirstFound(n: Name, table: seq<Name>, ind: nat, ambig: bool, value: int)
    requires ind < |table| && table[ind] != n && Prefix(n, table[ind]) && State(n, table, ind, false, ambig, value)
    ensures State(n, table, ind + 1, true, false, ind)
  {
  }

  lemma AnotherFound(n: Name, table: seq<Name>, ind: nat, ambig: bool, value: int)
    requires ind < |table| && Prefix(n, table[ind]) && State(n, table, ind, true, ambig, value)
    ensures State(n, table, ind + 1, true, true, value)
  {
  }

  lemma NoneFound(n: Name, table: seq<Name>, ind: nat, found: bool, ambig: bool, value: int)
    requires ind < |table| && !Prefix(n, table[ind]) && State(n, table, ind, found, ambig, value)
    ensures State(n, table, ind + 1, found, ambig, value)
  {
  }

  /** The answer when no later entry can be the name or an expansion of it. */
  lemma StateAnswers(n: Name, table: seq<Name>, ind: nat, found: bool, ambig: bool, value: int)
    requires Sorted(table) && State(n, table, ind, found, ambig, value)
    requires forall j :: ind <= j < |table| ==> !Prefix(n, table[j])
    ensures Answer(n, table, if ambig then -2 else if found then value else -1)
  {
    hide Before;
    forall j | 0 <= j < |table|
      ensures table[j] != n
    {
      if table[j] == n {
        assert Prefix(n, table[j]);
        assert found && value <= j;
        if value < j {
          NoneBefore(n, table, value, j);
        }
      }
    }
  }

  /** What the scan knows when it has come to entry ind: whether the name has been found to abbreviate one,
      which was the first, and whether it has been found to abbreviate more. */
  ghost predicate State(n: Name, table: seq<Name>, ind: nat, found: bool, ambig: bool, value: int) {
    && ind <= |table| && (ambig ==> found)
    && (found ==> 0 <= value < ind && Prefix(n, table[value]) && table[value] != n)
    && (found ==> forall i :: 0 <= i < value ==> !Prefix(n, table[i]))
    && (!found ==> forall i :: 0 <= i < ind ==> !Prefix(n, table[i]))
    && (found && !ambig ==> forall i :: value < i < ind ==> !Prefix(n, table[i]))
    && (ambig ==> exists i :: value < i < ind && Prefix(n, table[i]))
  }

  /** Letters of either case are taken for one another, and nothing else is. */
  lemma CaseIgnored(a: Name, b: Name)
    ensures Folded(a) == Folded(b) <==>
            |a| == |b| && forall i :: 0 <= i < |a| ==>
              a[i] == b[i] || (IsLetter(a[i]) && IsLetter(b[i]) && (a[i] == b[i] + 32 || b[i] == a[i] + 32))
  {
    if Folded(a) == Folded(b) {
      forall i | 0 <= i < |a|
        ensures a[i] == b[i] || (IsLetter(a[i]) && IsLetter(b[i]) && (a[i] == b[i] + 32 || b[i] == a[i] + 32))
      {
        assert Folded(a)[i] == Folded(b)[i];
      }
    }
  }

  predicate IsLetter(c: int) {
    'a' as int <= c <= 'z' as int || 'A' as int <= c <= 'Z' as int
  }

  /** What is found agrees with the name in every letter but for its case, and has no capital there: a name
      that is in the table with a capital is not found by it. */
  lemma FoundInLowerCase(name: Name, table: seq<Name>, r: int, i: nat)
    requires Answer(Folded(name), table, r) && 0 <= r && i < |name|
    ensures r < |table| && i < |table[r]| && !('A' as int <= table[r][i] <= 'Z' as int)
    ensures table[r][i] == name[i] || ('A' as int <= name[i] <= 'Z' as int && table[r][i] == name[i] + 32)
  {
    assert Prefix(Folded(name), table[r]);
    assert Folded(name)[i] == table[r][i];
  }
}
