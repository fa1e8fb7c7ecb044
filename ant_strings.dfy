/**
 * Substring search as done by `IndexFrom` in path/ant_matcher.go, and the
 * joining of string pieces with a separator that several parts of the matcher
 * rely on.
 */
module AntStrings {

  /** `sep` occurs in `s` starting at index `i`. */
  predicate OccursAt(s: string, sep: string, i: int) {
    0 <= i && i + |sep| <= |s| && s[i..i + |sep|] == sep
  }

  /** `r` is the result of searching a non-empty `sep` in `s` from `from` on:
      the least occurrence at or after `from`, or -1 when there is none. */
  ghost predicate IsFirstFrom(s: string, sep: string, from: int, r: int) {
    && (r == -1 || (from <= r && OccursAt(s, sep, r)))
    && forall i :: from <= i && (r == -1 || i < r) ==> !OccursAt(s, sep, i)
  }

  /** Specification of `IndexFrom`: the first occurrence of `sep` at or after
      `from`, -1 when there is none, and 0 for an empty `sep`. */
  function FindFrom(s: string, sep: string, from: nat): (r: int)
    ensures sep == [] ==> r == 0
    ensures sep != [] ==> IsFirstFrom(s, sep, from, r)
    decreases |s| - from
  {
    if sep == [] then 0
    else if from + |sep| > |s| then -1
    else if OccursAt(s, sep, from) then from
    else FindFrom(s, sep, from + 1)
  }

  /** A search result is determined by the characterisation above. */
  lemma FirstFromUnique(s: string, sep: string, from: int, r1: int, r2: int)
    requires IsFirstFrom(s, sep, from, r1) && IsFirstFrom(s, sep, from, r2)
    ensures r1 == r2
  {
  }

  /** An occurrence found inside `a` is still the first one in `a + b`. */
  lemma FindFromPrefix(a: string, b: string, sep: string, from: nat)
    requires sep != []
    requires FindFrom(a, sep, from) >= 0
    ensures FindFrom(a + b, sep, from) == FindFrom(a, sep, from)
  {
    var r := FindFrom(a, sep, from);
    assert (a + b)[r..r + |sep|] == a[r..r + |sep|];
    forall i | from <= i < r
      ensures !OccursAt(a + b, sep, i)
    {
      assert !OccursAt(a, sep, i);
      assert (a + b)[i..i + |sep|] == a[i..i + |sep|];
    }
    assert IsFirstFrom(a + b, sep, from, r);
    FirstFromUnique(a + b, sep, from, r, FindFrom(a + b, sep, from));
  }

  /** Go's `IndexFrom(s, sep, from)`: a one-character fast path and a general
      loop; both return the first occurrence at or after `from`. */
  method IndexFrom(s: string, sep: string, from: nat) returns (r: int)
    ensures sep == [] ==> r == 0
    ensures sep != [] ==> IsFirstFrom(s, sep, from, r)
    ensures r == FindFrom(s, sep, from)
  {
    var n := |sep|;
    if n == 0 {
      return 0;
    }
    var c := sep[0];
    if n == 1 {
      var i := from;
      while i < |s|
        invariant from <= i
        invariant forall j :: from <= j < i ==> !OccursAt(s, sep, j)
      {
        if s[i] == c {
          assert s[i..i + 1] == [c] == sep;
          r := i;
          FirstFromUnique(s, sep, from, r, FindFrom(s, sep, from));
          return;
        }
        assert s[i..i + 1] != sep by { assert s[i..i + 1][0] == s[i]; }
        i := i + 1;
      }
      r := -1;
      FirstFromUnique(s, sep, from, r, FindFrom(s, sep, from));
      return;
    }
    var i := from;
    while i + n <= |s|
      invariant from <= i
      invariant forall j :: from <= j < i ==> !OccursAt(s, sep, j)
    {
      if s[i] == c && s[i..i + n] == sep {
        r := i;
        FirstFromUnique(s, sep, from, r, FindFrom(s, sep, from));
        return;
      }
      assert s[i..i + n] != sep by {
        if s[i] != c { assert s[i..i + n][0] == s[i]; }
      }
      i := i + 1;
    }
    r := -1;
    FirstFromUnique(s, sep, from, r, FindFrom(s, sep, from));
  }

  /** The pieces joined with `sep` between consecutive pieces. */
  function JoinWith(ps: seq<string>, sep: string): string
  {
    if ps == [] then []
    else if |ps| == 1 then ps[0]
    else ps[0] + sep + JoinWith(ps[1..], sep)
  }

  /** A non-empty list joins as its first piece, then the separator and the
      rest when there is more. */
  lemma JoinWithFirst(ps: seq<string>, sep: string)
    requires |ps| >= 1
    ensures JoinWith(ps, sep) == ps[0] + (if |ps| > 1 then sep + JoinWith(ps[1..], sep) else [])
  {
  }
}
