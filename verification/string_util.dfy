/**
 * Model of string/string.go: the string helpers of the repository, together
 * with the functions of Go's `strings` package they are built on
 * (Index, Split, SplitN, Join, HasPrefix, HasSuffix, Trim, ToLower, ToUpper).
 * Strings are sequences of characters; a Go byte string made of ASCII
 * characters is modelled one character per byte.
 */
module StringUtil {

  // ---------------------------------------------------------------------
  // Occurrences and Go's strings.Index
  // ---------------------------------------------------------------------

  /** `sep` occurs in `s` starting at index `i`. */
  predicate OccursAt(s: string, sep: string, i: int) {
    0 <= i && i + |sep| <= |s| && s[i..i + |sep|] == sep
  }

  /** `s` contains `sep` somewhere (Go `strings.Contains`). */
  predicate Contains(s: string, sep: string) {
    exists i :: 0 <= i <= |s| - |sep| && OccursAt(s, sep, i)
  }

  /** First occurrence of `sep` in `s` at or after `k`, or -1. */
  function IndexFrom(s: string, sep: string, k: nat): (r: int)
    ensures r == -1 || (k <= r && OccursAt(s, sep, r))
    ensures forall j :: k <= j && (r == -1 || j < r) ==> !OccursAt(s, sep, j)
    decreases |s| - k
  {
    if k + |sep| > |s| then -1
    else if OccursAt(s, sep, k) then k
    else IndexFrom(s, sep, k + 1)
  }

  /** Go `strings.Index`: the first occurrence of `sep` in `s`, or -1. */
  function IndexOf(s: string, sep: string): (r: int)
    ensures r == -1 <==> !Contains(s, sep)
    ensures r != -1 ==> OccursAt(s, sep, r) && forall j :: 0 <= j < r ==> !OccursAt(s, sep, j)
  {
    IndexFrom(s, sep, 0)
  }

  /** A separator that is a single character occurs exactly where that character does. */
  lemma ContainsChar(s: string, c: char)
    ensures Contains(s, [c]) <==> c in s
  {
    if c in s {
      var i :| 0 <= i < |s| && s[i] == c;
      assert OccursAt(s, [c], i);
    }
    if Contains(s, [c]) {
      var i :| 0 <= i <= |s| - 1 && OccursAt(s, [c], i);
      assert s[i] == s[i..i + 1][0];
    }
  }

  /** The text before the first occurrence of `sep` does not contain `sep`. */
  lemma PrefixBeforeFirst(s: string, sep: string, i: int)
    requires sep != "" && 0 <= i <= |s|
    requires forall j :: 0 <= j < i ==> !OccursAt(s, sep, j)
    ensures !Contains(s[..i], sep)
  {
    forall j | 0 <= j <= i - |sep|
      ensures !OccursAt(s[..i], sep, j)
    {
      assert !OccursAt(s, sep, j);
      assert s[..i][j..j + |sep|] == s[j..j + |sep|];
    }
  }

  /** The first index holding the character `c`. */
  lemma FirstOccurrence(s: string, c: char) returns (i: nat)
    requires c in s
    ensures i < |s| && s[i] == c && c !in s[..i]
  {
    IndexOfChar(s, c);
    i := IndexOf(s, [c]);
  }

  /** Index of a character: the first position holding it, or -1 when it is absent. */
  lemma IndexOfChar(s: string, c: char)
    ensures var i := IndexOf(s, [c]);
            (i == -1 <==> c !in s) && (i != -1 ==> 0 <= i < |s| && s[i] == c && c !in s[..i])
  {
    ContainsChar(s, c);
    var i := IndexOf(s, [c]);
    if i != -1 {
      assert s[i..i + 1] == [s[i]];
      forall j | 0 <= j < i
        ensures s[j] != c
      {
        assert !OccursAt(s, [c], j);
        assert s[j..j + 1] == [s[j]];
      }
    }
  }

  // ---------------------------------------------------------------------
  // Go's strings.Join, strings.SplitN and strings.Split
  // ---------------------------------------------------------------------

  /** Go `strings.Join`: the result starts with the first piece. */
  function Join(parts: seq<string>, sep: string): (r: string)
    ensures |parts| == 0 ==> r == ""
    ensures |parts| >= 1 ==> parts[0] <= r
  {
    if |parts| == 0 then ""
    else if |parts| == 1 then parts[0]
    else parts[0] + sep + Join(parts[1..], sep)
  }

  /**
   * Go `strings.SplitN` for a non-empty separator: at most `n` pieces when
   * `n > 0`, no pieces when `n == 0`, all pieces when `n < 0`.
   */
  function SplitN(s: string, sep: string, n: int): (parts: seq<string>)
    requires sep != ""
    ensures n == 0 ==> parts == []
    ensures n != 0 ==> 1 <= |parts| && (n > 0 ==> |parts| <= n)
    decreases |s|
  {
    if n == 0 then []
    else if n == 1 then [s]
    else
      var i := IndexOf(s, sep);
      if i < 0 then [s]
      else [s[..i]] + SplitN(s[i + |sep|..], sep, if n < 0 then n else n - 1)
  }

  /**
   * The cut after `piece` falls at the first occurrence of `sep` in the text
   * that follows it: no occurrence starts inside `piece + sep` before `sep` itself.
   */
  predicate CutAtFirst(piece: string, sep: string) {
    forall j :: 0 <= j < |piece| ==> !OccursAt(piece + sep, sep, j)
  }

  /**
   * SplitN cuts `s` into pieces that join back to `s`, each cut at the first
   * occurrence of `sep` in what remains; no piece but the last contains `sep`,
   * and the last one does not either unless the limit `n` was reached. The
   * first piece is the text before the first occurrence of `sep`.
   */
  lemma SplitNSpec(s: string, sep: string, n: int)
    requires sep != ""
    ensures var parts := SplitN(s, sep, n);
            && (n != 0 ==> Join(parts, sep) == s)
            && (forall k :: 0 <= k < |parts| - 1 ==> !Contains(parts[k], sep))
            && (forall k :: 0 <= k < |parts| - 1 ==> CutAtFirst(parts[k], sep))
            && (n < 0 ==> forall k :: 0 <= k < |parts| ==> !Contains(parts[k], sep))
            && (n > 0 ==> |parts| == n || !Contains(parts[|parts| - 1], sep))
            && ((n >= 2 || n < 0) && Contains(s, sep) ==> |parts| >= 2 && parts[0] == s[..IndexOf(s, sep)])
  {
    SplitNPieces(s, sep, n);
    SplitNCuts(s, sep, n);
  }

  /** The pieces of SplitN join back to `s`, and the ones before the last are free of `sep`. */
  lemma {:induction false} SplitNPieces(s: string, sep: string, n: int)
    requires sep != ""
    ensures var parts := SplitN(s, sep, n);
            && (n != 0 ==> Join(parts, sep) == s)
            && (forall k :: 0 <= k < |parts| - 1 ==> !Contains(parts[k], sep))
            && (n < 0 ==> forall k :: 0 <= k < |parts| ==> !Contains(parts[k], sep))
    decreases |s|
  {
    if n != 0 && n != 1 {
      var i := IndexOf(s, sep);
      if i >= 0 {
        var m := if n < 0 then n else n - 1;
        var rest := SplitN(s[i + |sep|..], sep, m);
        SplitNPieces(s[i + |sep|..], sep, m);
        SplitStep(s, sep, i, rest);
        assert SplitN(s, sep, n) == [s[..i]] + rest;
      }
    }
  }

  /** Where SplitN cuts: at first occurrences, and it stops early only when no separator is left. */
  lemma SplitNCuts(s: string, sep: string, n: int)
    requires sep != ""
    ensures var parts := SplitN(s, sep, n);
            && (forall k :: 0 <= k < |parts| - 1 ==> CutAtFirst(parts[k], sep))
            && (n > 0 ==> |parts| == n || !Contains(parts[|parts| - 1], sep))
            && ((n >= 2 || n < 0) && Contains(s, sep) ==> |parts| >= 2 && parts[0] == s[..IndexOf(s, sep)])
  {
    SplitNFirstCuts(s, sep, n);
    EveryCutAtFirst(SplitN(s, sep, n), sep);
    if n > 0 {
      SplitNStopsEarly(s, sep, n);
    }
    if (n >= 2 || n < 0) && Contains(s, sep) {
      SplitNFirstPiece(s, sep, n);
    }
  }

  /** Every piece but the last ends at a first-occurrence cut. */
  predicate CutsAtFirst(parts: seq<string>, sep: string)
    decreases |parts|
  {
    |parts| <= 1 || (CutAtFirst(parts[0], sep) && CutsAtFirst(parts[1..], sep))
  }

  /** CutsAtFirst, piece by piece. */
  lemma {:induction false} EveryCutAtFirst(parts: seq<string>, sep: string)
    requires CutsAtFirst(parts, sep)
    ensures forall k :: 0 <= k < |parts| - 1 ==> CutAtFirst(parts[k], sep)
    decreases |parts|
  {
    if |parts| > 1 {
      EveryCutAtFirst(parts[1..], sep);
      forall k | 1 <= k < |parts| - 1
        ensures CutAtFirst(parts[k], sep)
      {
        assert parts[k] == parts[1..][k - 1];
      }
    }
  }

  /** Every cut SplitN makes is at the first occurrence of `sep` in what remains. */
  lemma {:induction false} SplitNFirstCuts(s: string, sep: string, n: int)
    requires sep != ""
    ensures CutsAtFirst(SplitN(s, sep, n), sep)
    decreases |s|
  {
    if n != 0 && n != 1 {
      var i := IndexOf(s, sep);
      if i >= 0 {
        var m := if n < 0 then n else n - 1;
        var rest := SplitN(s[i + |sep|..], sep, m);
        SplitNFirstCuts(s[i + |sep|..], sep, m);
        FirstCut(s, sep, i);
        var parts := [s[..i]] + rest;
        SplitNUnfold(s, sep, n, i);
        assert parts[1..] == rest;
      }
    }
  }

  /** With a positive limit, SplitN stops before the limit only when the last piece holds no separator. */
  lemma {:induction false} SplitNStopsEarly(s: string, sep: string, n: int)
    requires sep != "" && n > 0
    ensures |SplitN(s, sep, n)| == n || !Contains(SplitN(s, sep, n)[|SplitN(s, sep, n)| - 1], sep)
    decreases |s|
  {
    if n != 1 {
      var i := IndexOf(s, sep);
      if i >= 0 {
        var rest := SplitN(s[i + |sep|..], sep, n - 1);
        SplitNStopsEarly(s[i + |sep|..], sep, n - 1);
        SplitNUnfold(s, sep, n, i);
        LastOfCons(s[..i], rest);
      } else {
        SplitNNone(s, sep, n);
      }
    }
  }

  /** One step of SplitN when `sep` occurs at `i`, its first occurrence. */
  lemma SplitNUnfold(s: string, sep: string, n: int, i: int)
    requires sep != "" && n != 0 && n != 1 && i == IndexOf(s, sep) && i >= 0
    ensures SplitN(s, sep, n) == [s[..i]] + SplitN(s[i + |sep|..], sep, if n < 0 then n else n - 1)
  {
  }

  /** When `sep` does not occur, SplitN leaves `s` whole. */
  lemma SplitNNone(s: string, sep: string, n: int)
    requires sep != "" && n != 0 && IndexOf(s, sep) < 0
    ensures SplitN(s, sep, n) == [s] && !Contains(s, sep)
  {
  }

  /** When `sep` occurs and the limit allows a cut, the first piece is the text before its first occurrence. */
  lemma SplitNFirstPiece(s: string, sep: string, n: int)
    requires sep != "" && (n >= 2 || n < 0) && Contains(s, sep)
    ensures |SplitN(s, sep, n)| >= 2 && SplitN(s, sep, n)[0] == s[..IndexOf(s, sep)]
  {
    var i := IndexOf(s, sep);
    var m := if n < 0 then n else n - 1;
    assert SplitN(s, sep, n) == [s[..i]] + SplitN(s[i + |sep|..], sep, m);
  }

  /** Joining a non-empty list behind a first piece puts one separator between them. */
  lemma JoinCons(a: string, rest: seq<string>, sep: string)
    requires |rest| >= 1
    ensures Join([a] + rest, sep) == a + sep + Join(rest, sep)
  {
    assert ([a] + rest)[1..] == rest;
  }

  /** One step of SplitN: the text before the first separator, then the pieces of the text after it. */
  lemma SplitStep(s: string, sep: string, i: int, rest: seq<string>)
    requires sep != "" && OccursAt(s, sep, i)
    requires forall j :: 0 <= j < i ==> !OccursAt(s, sep, j)
    requires |rest| >= 1 && Join(rest, sep) == s[i + |sep|..]
    ensures Join([s[..i]] + rest, sep) == s
    ensures !Contains(s[..i], sep)
    ensures CutAtFirst(s[..i], sep)
  {
    PrefixBeforeFirst(s, sep, i);
    JoinCons(s[..i], rest, sep);
    CutAround(s, sep, i);
    FirstCut(s, sep, i);
  }

  /** The text before the first occurrence of `sep` ends at a first-occurrence cut. */
  lemma FirstCut(s: string, sep: string, i: int)
    requires OccursAt(s, sep, i)
    requires forall j :: 0 <= j < i ==> !OccursAt(s, sep, j)
    ensures CutAtFirst(s[..i], sep)
  {
    var p := s[..i] + sep;
    assert p == s[..i + |sep|];
    forall j | 0 <= j < i
      ensures !OccursAt(p, sep, j)
    {
      assert !OccursAt(s, sep, j);
      assert p[j..j + |sep|] == s[j..j + |sep|];
    }
  }

  /** `s` is the text before an occurrence of `sep`, `sep`, and the text after it. */
  lemma CutAround(s: string, sep: string, i: int)
    requires OccursAt(s, sep, i)
    ensures s == s[..i] + sep + s[i + |sep|..]
  {
    assert s == s[..i] + s[i..i + |sep|] + s[i + |sep|..];
  }

  /** Go's split of a string into its characters (`strings.Split(s, "")`). */
  function Explode(s: string): (parts: seq<string>)
    ensures |parts| == |s|
    ensures forall k :: 0 <= k < |s| ==> parts[k] == [s[k]]
  {
    seq(|s|, k requires 0 <= k < |s| => [s[k]])
  }

  /** Go `strings.Split`. */
  function Split(s: string, sep: string): (parts: seq<string>)
    ensures sep != "" ==> 1 <= |parts|
    ensures sep == "" ==> |parts| == |s|
  {
    if sep == "" then Explode(s) else SplitN(s, sep, -1)
  }

  /**
   * With a non-empty separator, Split's pieces join back to `s`, none contains
   * `sep`, and each cut is at the first occurrence of `sep` in what remains.
   */
  lemma SplitSpec(s: string, sep: string)
    requires sep != ""
    ensures var parts := Split(s, sep);
            && Join(parts, sep) == s
            && (forall k :: 0 <= k < |parts| ==> !Contains(parts[k], sep))
            && (forall k :: 0 <= k < |parts| - 1 ==> CutAtFirst(parts[k], sep))
  {
    SplitNSpec(s, sep, -1);
  }

  /** Splitting at a character absent from `w` leaves `w` whole. */
  lemma SplitNCharNone(w: string, c: char, n: int)
    requires c !in w && n != 0
    ensures SplitN(w, [c], n) == [w]
  {
    ContainsChar(w, c);
  }

  /** Splitting `w + [c] + x` at `c`, where `w` has no `c`, yields `w` first and then the pieces of `x`. */
  lemma SplitNCharHead(w: string, c: char, x: string, n: int)
    requires c !in w && n != 0 && n != 1
    ensures SplitN(w + [c] + x, [c], n) == [w] + SplitN(x, [c], if n < 0 then n else n - 1)
  {
    var s := w + [c] + x;
    assert OccursAt(s, [c], |w|) by { assert s[|w|..|w| + 1] == [c]; }
    forall j | 0 <= j < |w|
      ensures !OccursAt(s, [c], j)
    {
      assert s[j..j + 1] == [w[j]];
    }
    var i := IndexOf(s, [c]);
    assert i == |w|;
    assert s[..i] == w;
    assert s[i + 1..] == x;
  }

  /** The number of pieces of a split at one character is one more than the number of occurrences. */
  lemma {:induction false} SplitCharCount(s: string, c: char)
    ensures |Split(s, [c])| == multiset(s)[c] + 1
    decreases |s|
  {
    if c !in s {
      SplitNCharNone(s, c, -1);
      assert multiset(s)[c] == 0;
    } else {
      var i := FirstOccurrence(s, c);
      var w, x := s[..i], s[i + 1..];
      assert s == w + [c] + x;
      SplitNCharHead(w, c, x, -1);
      SplitCharCount(x, c);
      assert multiset(s) == multiset(w) + multiset([c]) + multiset(x);
      assert multiset(w)[c] == 0;
    }
  }

  // ---------------------------------------------------------------------
  // string/string.go
  // ---------------------------------------------------------------------

  /**
   * GetPartOfLast: the piece after the last cut Split makes. Go indexes
   * the last element of `strings.Split(s, sep)`, which panics when that
   * split is empty, i.e. when both `s` and `sep` are empty. What the piece
   * is for a non-empty separator is stated by GetPartOfLastSpec.
   */
  function GetPartOfLast(s: string, sep: string): (r: string)
    requires sep != "" || s != ""
    ensures sep == "" ==> r == [s[|s| - 1]]
  {
    var parts := Split(s, sep);
    parts[|parts| - 1]
  }

  /**
   * The piece GetPartOfLast returns is a suffix of `s` free of `sep`; it is
   * all of `s` when `sep` does not occur, and otherwise it directly follows
   * the occurrence of `sep` at which Split made its last cut.
   */
  lemma GetPartOfLastSpec(s: string, sep: string)
    requires sep != "" || s != ""
    ensures var r := GetPartOfLast(s, sep);
            && |r| <= |s| && r == s[|s| - |r|..]
            && (sep != "" ==> !Contains(r, sep))
            && (sep != "" && !Contains(s, sep) ==> r == s)
            && (sep != "" && Contains(s, sep) ==>
                  |r| + |sep| <= |s| && s == s[..|s| - |r| - |sep|] + sep + r)
  {
    if sep == "" {
      LastCharacter(s);
    } else {
      SplitSpec(s, sep);
      LastPieceOfJoin(Split(s, sep), sep);
    }
  }

  /** With an empty separator the last piece is the last character. */
  lemma LastCharacter(s: string)
    requires s != ""
    ensures GetPartOfLast(s, "") == s[|s| - 1..]
  {
    assert Split(s, "") == Explode(s);
  }

  /** The last of some `sep`-free pieces, as it sits in their join. */
  lemma LastPieceOfJoin(parts: seq<string>, sep: string)
    requires sep != "" && |parts| >= 1
    requires forall k :: 0 <= k < |parts| ==> !Contains(parts[k], sep)
    ensures var s, r := Join(parts, sep), parts[|parts| - 1];
            && |r| <= |s| && r == s[|s| - |r|..]
            && !Contains(r, sep)
            && (!Contains(s, sep) ==> r == s)
            && (Contains(s, sep) ==> |r| + |sep| <= |s| && s == s[..|s| - |r| - |sep|] + sep + r)
  {
    var s, r := Join(parts, sep), parts[|parts| - 1];
    JoinLast(parts, sep);
    if |parts| == 1 {
      assert s == r;
    } else {
      ContainsMiddle(s[..|s| - |r| - |sep|], sep, r);
    }
  }

  /** A string with `sep` in the middle contains `sep`. */
  lemma ContainsMiddle(a: string, sep: string, b: string)
    ensures Contains(a + sep + b, sep)
  {
    assert OccursAt(a + sep + b, sep, |a|) by {
      assert (a + sep + b)[|a|..|a| + |sep|] == sep;
    }
  }

  /** The last piece of a join follows the last separator. */
  lemma {:induction false} JoinLast(parts: seq<string>, sep: string)
    requires |parts| >= 1
    ensures var j := Join(parts, sep); var r := parts[|parts| - 1];
            |r| <= |j| && j[|j| - |r|..] == r &&
            (|parts| >= 2 ==> |r| + |sep| <= |j| && j == j[..|j| - |r| - |sep|] + sep + r)
  {
    if |parts| >= 2 {
      JoinLast(parts[1..], sep);
      var t, r := Join(parts[1..], sep), parts[|parts| - 1];
      assert parts[1..][|parts[1..]| - 1] == r;
      assert Join(parts, sep) == (parts[0] + sep) + t;
      if |parts| == 2 {
        ExtendFront(parts[0], "", r, sep);
      } else {
        ExtendFront(parts[0] + sep, t[..|t| - |r| - |sep|], r, sep);
      }
    }
  }

  /** Putting `a` in front of `m + sep + r` keeps `sep + r` at the end. */
  lemma ExtendFront(a: string, m: string, r: string, sep: string)
    ensures var j := a + (m + sep + r);
            && |r| + |sep| <= |j|
            && j[|j| - |r|..] == r
            && j == j[..|j| - |r| - |sep|] + sep + r
            && j == a + m + sep + r
  {
    var j := a + (m + sep + r);
    assert j == (a + m) + sep + r;
    assert j[..|j| - |r| - |sep|] == a + m;
  }

  /** The last piece of a split at `c` is the `c`-free tail that follows any `c`. */
  lemma {:induction false} LastPieceChar(p: string, c: char, t: string)
    requires c !in t
    ensures var parts := SplitN(p + [c] + t, [c], -1); parts[|parts| - 1] == t
    decreases |p|
  {
    if c !in p {
      SplitNCharHead(p, c, t, -1);
      SplitNCharNone(t, c, -1);
      LastOfCons(p, SplitN(t, [c], -1));
    } else {
      var i := FirstOccurrence(p, c);
      var w, x := p[..i], p[i + 1..];
      Regroup(p, i, c, t);
      SplitNCharHead(w, c, x + [c] + t, -1);
      LastPieceChar(x, c, t);
      LastOfCons(w, SplitN(x + [c] + t, [c], -1));
    }
  }

  /** Putting a piece in front keeps the last piece. */
  lemma LastOfCons(w: string, pieces: seq<string>)
    requires |pieces| >= 1
    ensures ([w] + pieces)[|[w] + pieces| - 1] == pieces[|pieces| - 1]
  {
  }

  /** Cutting `p + [c] + t` at an earlier `c`, the `i`-th character of `p`. */
  lemma Regroup(p: string, i: int, c: char, t: string)
    requires 0 <= i < |p| && p[i] == c
    ensures p + [c] + t == p[..i] + [c] + (p[i + 1..] + [c] + t)
  {
    assert p == p[..i] + [c] + p[i + 1..];
  }

  /** The piece after the last `c` is exactly the `c`-free tail that follows some `c`. */
  lemma GetPartOfLastChar(p: string, c: char, t: string)
    requires c !in t
    ensures GetPartOfLast(p + [c] + t, [c]) == t
  {
    var s := p + [c] + t;
    LastPieceChar(p, c, t);
    LastSplitPiece(s, [c]);
  }

  /** With a non-empty separator, GetPartOfLast is the last piece of the split. */
  lemma LastSplitPiece(s: string, sep: string)
    requires sep != ""
    ensures var parts := SplitN(s, sep, -1); GetPartOfLast(s, sep) == parts[|parts| - 1]
  {
  }

  /** IsEmpty: the string has no characters. */
  predicate IsEmpty(s: string): (r: bool)
    ensures r <==> |s| == 0
    ensures r <==> forall c :: c !in s
  {
    assert s != "" ==> s[0] in s;
    s == ""
  }

  /** IsNotEmpty: the negation of IsEmpty. */
  function IsNotEmpty(s: string): (r: bool)
    ensures r == !IsEmpty(s)
    ensures r <==> |s| > 0
  {
    s != ""
  }

  /** HasPrefix: `newString` is a prefix of `existString` (Go `strings.HasPrefix`). */
  function HasPrefix(existString: string, newString: string): (r: bool)
    ensures r <==> exists k :: 0 <= k <= |existString| && existString == newString + existString[k..]
  {
    var ok := |newString| <= |existString| && existString[..|newString|] == newString;
    assert ok ==> existString == newString + existString[|newString|..];
    ok
  }

  /** HasSuffix: `newString` is a suffix of `existString` (Go `strings.HasSuffix`). */
  function HasSuffix(existString: string, newString: string): (r: bool)
    ensures r <==> exists k :: 0 <= k <= |existString| && existString == existString[..k] + newString
  {
    var ok := |newString| <= |existString| && existString[|existString| - |newString|..] == newString;
    assert ok ==> existString == existString[..|existString| - |newString|] + newString;
    ok
  }

  // ---------------------------------------------------------------------
  // TrimWhiteSpace: strings.Trim(s, " ")
  // ---------------------------------------------------------------------

  /** Every character of `s` is a space. */
  predicate AllSpaces(s: string) {
    forall k :: 0 <= k < |s| ==> s[k] == ' '
  }

  /** `r` is `s` with its leading and trailing spaces, and nothing else, removed. */
  predicate IsTrimOf(r: string, s: string) {
    && (r == "" || (r[0] != ' ' && r[|r| - 1] != ' '))
    && exists i, j :: 0 <= i <= j <= |s| && r == s[i..j] && AllSpaces(s[..i]) && AllSpaces(s[j..])
  }

  /** Go `strings.TrimLeft(s, " ")`. */
  function TrimLeftSpaces(s: string): (r: string)
    ensures r == "" || r[0] != ' '
    ensures |r| <= |s| && r == s[|s| - |r|..] && AllSpaces(s[..|s| - |r|])
  {
    if |s| > 0 && s[0] == ' ' then TrimLeftSpaces(s[1..]) else s
  }

  /** Go `strings.TrimRight(s, " ")`. */
  function TrimRightSpaces(s: string): (r: string)
    ensures r == "" || r[|r| - 1] != ' '
    ensures |r| <= |s| && r == s[..|r|] && AllSpaces(s[|r|..])
  {
    if |s| > 0 && s[|s| - 1] == ' ' then TrimRightSpaces(s[..|s| - 1]) else s
  }

  /** TrimWhiteSpace: removes the spaces at both ends (only ' ', not tabs or newlines). */
  function TrimWhiteSpace(s: string): (r: string)
    ensures IsTrimOf(r, s)
  {
    var l := TrimLeftSpaces(s);
    var r := TrimRightSpaces(l);
    TrimBothEnds(s, l, r);
    r
  }

  /** Trimming the left and then the right end of `s` gives a trim of `s`. */
  lemma TrimBothEnds(s: string, l: string, r: string)
    requires l == "" || l[0] != ' '
    requires |l| <= |s| && l == s[|s| - |l|..] && AllSpaces(s[..|s| - |l|])
    requires r == "" || r[|r| - 1] != ' '
    requires |r| <= |l| && r == l[..|r|] && AllSpaces(l[|r|..])
    ensures IsTrimOf(r, s)
  {
    var i := |s| - |l|;
    var j := i + |r|;
    assert r == s[i..j];
    assert s[j..] == l[|r|..];
    assert r == "" || r[0] == l[0];
  }

  /** A trimmed string differs from the original only by spaces: every other character keeps its count. */
  lemma TrimKeepsOtherChars(s: string, c: char)
    requires c != ' '
    ensures multiset(TrimWhiteSpace(s))[c] == multiset(s)[c]
  {
    var r := TrimWhiteSpace(s);
    var i, j :| 0 <= i <= j <= |s| && r == s[i..j] && AllSpaces(s[..i]) && AllSpaces(s[j..]);
    SpacesAround(s, i, j, c);
  }

  /** Spaces on either side of `s[i..j]` add no character other than a space. */
  lemma SpacesAround(s: string, i: int, j: int, c: char)
    requires 0 <= i <= j <= |s| && AllSpaces(s[..i]) && AllSpaces(s[j..]) && c != ' '
    ensures multiset(s)[c] == multiset(s[i..j])[c]
  {
    assert s == s[..i] + s[i..j] + s[j..];
    NoCharInSpaces(s[..i], c);
    NoCharInSpaces(s[j..], c);
    assert multiset(s) == multiset(s[..i]) + multiset(s[i..j]) + multiset(s[j..]);
  }

  lemma NoCharInSpaces(a: string, c: char)
    requires AllSpaces(a) && c != ' '
    ensures multiset(a)[c] == 0
  {
    assert c !in a;
  }

  /** Trimming twice is trimming once. */
  lemma TrimWhiteSpaceIdempotent(s: string)
    ensures TrimWhiteSpace(TrimWhiteSpace(s)) == TrimWhiteSpace(s)
  {
    var r := TrimWhiteSpace(s);
    assert TrimLeftSpaces(r) == r;
    assert TrimRightSpaces(r) == r;
  }

  // ---------------------------------------------------------------------
  // ToLower / ToUpper (ASCII letters)
  // ---------------------------------------------------------------------

  predicate IsUpperAscii(c: char) { 'A' <= c <= 'Z' }
  predicate IsLowerAscii(c: char) { 'a' <= c <= 'z' }

  function LowerChar(c: char): char {
    if IsUpperAscii(c) then (c as int + 32) as char else c
  }

  function UpperChar(c: char): char {
    if IsLowerAscii(c) then (c as int - 32) as char else c
  }

  /** ToLower: maps every ASCII upper-case letter to its lower-case letter and keeps every other character. */
  function ToLower(s: string): (r: string)
    ensures |r| == |s|
    ensures forall k :: 0 <= k < |s| ==>
              if IsUpperAscii(s[k]) then r[k] as int == s[k] as int + 32 else r[k] == s[k]
  {
    if s == [] then [] else [LowerChar(s[0])] + ToLower(s[1..])
  }

  /** ToUpper: maps every ASCII lower-case letter to its upper-case letter and keeps every other character. */
  function ToUpper(s: string): (r: string)
    ensures |r| == |s|
    ensures forall k :: 0 <= k < |s| ==>
              if IsLowerAscii(s[k]) then r[k] as int == s[k] as int - 32 else r[k] == s[k]
  {
    if s == [] then [] else [UpperChar(s[0])] + ToUpper(s[1..])
  }

  /** Lower-casing leaves no upper-case letter and is idempotent. */
  lemma ToLowerIdempotent(s: string)
    ensures forall k :: 0 <= k < |s| ==> !IsUpperAscii(ToLower(s)[k])
    ensures ToLower(ToLower(s)) == ToLower(s)
  {
  }

  /** Lower-casing forgets the case a string was written in. */
  lemma ToLowerOfToUpper(s: string)
    ensures ToLower(ToUpper(s)) == ToLower(s)
  {
  }

  /** `ToLower(w) == t` for an all-lower-case `t` exactly when each character of `w` is that of `t` in either case. */
  lemma ToLowerMatches(w: string, t: string)
    requires forall k :: 0 <= k < |t| ==> !IsUpperAscii(t[k])
    ensures ToLower(w) == t <==> CaseVariantOf(w, t)
  {
    if ToLower(w) == t {
      ToLowerGivesVariant(w, t);
    }
    if CaseVariantOf(w, t) {
      VariantLowersTo(w, t);
    }
  }

  /** Each character of `w` is that of `t` or its upper-case letter. */
  predicate CaseVariantOf(w: string, t: string) {
    |w| == |t| && forall k :: 0 <= k < |t| ==> w[k] == t[k] || w[k] == UpperChar(t[k])
  }

  lemma ToLowerGivesVariant(w: string, t: string)
    requires forall k :: 0 <= k < |t| ==> !IsUpperAscii(t[k])
    requires ToLower(w) == t
    ensures CaseVariantOf(w, t)
  {
    forall k | 0 <= k < |t|
      ensures w[k] == t[k] || w[k] == UpperChar(t[k])
    {
      var l := ToLower(w);
      assert l[k] == t[k];
    }
  }

  lemma VariantLowersTo(w: string, t: string)
    requires forall k :: 0 <= k < |t| ==> !IsUpperAscii(t[k])
    requires CaseVariantOf(w, t)
    ensures ToLower(w) == t
  {
    var l := ToLower(w);
    forall k | 0 <= k < |t|
      ensures l[k] == t[k]
    {
      assert w[k] == t[k] || w[k] == UpperChar(t[k]);
    }
  }
}
