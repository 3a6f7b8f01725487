/**
 * Model of array/arrayString/arrayString.go: membership tests over a Go
 * `[]string`, written as the source writes them, as `for range` scans that
 * return as soon as a match is found.
 */
module ArrayString {

  /** Some element of `s` equals some element of `stringSearch`. */
  predicate SharesElement(s: seq<string>, stringSearch: seq<string>) {
    exists i, j :: 0 <= i < |s| && 0 <= j < |stringSearch| && s[i] == stringSearch[j]
  }

  /** Contains: reports whether `stringSearch` is an element of `s`. */
  method Contains(s: seq<string>, stringSearch: string) returns (found: bool)
    ensures found <==> stringSearch in s
  {
    for i := 0 to |s|
      invariant stringSearch !in s[..i]
    {
      if s[i] == stringSearch {
        return true;
      }
    }
    assert s[..|s|] == s;
    return false;
  }

  /** ContainsWithMultipleArgs: reports whether any element of `s` equals any of the search arguments. */
  method ContainsWithMultipleArgs(s: seq<string>, stringSearch: seq<string>) returns (found: bool)
    ensures found <==> SharesElement(s, stringSearch)
  {
    for i := 0 to |s|
      invariant forall i', j :: 0 <= i' < i && 0 <= j < |stringSearch| ==> s[i'] != stringSearch[j]
    {
      for j := 0 to |stringSearch|
        invariant forall j' :: 0 <= j' < j ==> s[i] != stringSearch[j']
      {
        if s[i] == stringSearch[j] {
          return true;
        }
      }
    }
    return false;
  }

  /** With no search arguments nothing is found. */
  lemma NoArgumentsShareNothing(s: seq<string>)
    ensures !SharesElement(s, [])
  {
  }

  /** With a single search argument the multi-argument test is plain membership. */
  lemma SingleArgumentIsContains(s: seq<string>, x: string)
    ensures SharesElement(s, [x]) <==> x in s
  {
    if x in s {
      var i :| 0 <= i < |s| && s[i] == x;
      assert s[i] == [x][0];
    }
  }

  /** Searching for several arguments is searching for each of them. */
  lemma {:induction false} SharesElementSplit(s: seq<string>, xs: seq<string>, ys: seq<string>)
    ensures SharesElement(s, xs + ys) <==> SharesElement(s, xs) || SharesElement(s, ys)
  {
    var zs := xs + ys;
    if SharesElement(s, zs) {
      var i, j :| 0 <= i < |s| && 0 <= j < |zs| && s[i] == zs[j];
      if j < |xs| {
        assert s[i] == xs[j];
      } else {
        assert s[i] == ys[j - |xs|];
      }
    }
    if SharesElement(s, xs) {
      var i, j :| 0 <= i < |s| && 0 <= j < |xs| && s[i] == xs[j];
      assert s[i] == zs[j];
    }
    if SharesElement(s, ys) {
      var i, j :| 0 <= i < |s| && 0 <= j < |ys| && s[i] == ys[j];
      assert s[i] == zs[|xs| + j];
    }
  }

  /** IsEmpty: the slice has no elements. */
  predicate IsEmpty(s: seq<string>): (r: bool)
    ensures r <==> s == []
    ensures r <==> forall x :: x !in s
  {
    assert s != [] ==> s[0] in s;
    |s| == 0
  }

  /** IsNotEmpty: the negation of IsEmpty. */
  function IsNotEmpty(s: seq<string>): (r: bool)
    ensures r == !IsEmpty(s)
    ensures r <==> s != []
  {
    |s| > 0
  }
}
