/**
 * The quick-reject prefilter of path/ant_matcher.go: `isPotentialMatch` and
 * its helpers `skipSeparator`, `skipSegment` and `isWildcardChar`. It walks a
 * position through the raw path and lines up the literal prefix of each
 * pattern segment against it; false means the path cannot match.
 */
module AntPrefilter {
  import opened AntStrings
  import opened AntTokenizer

  /** `wildcard_chars`: the characters that start a non-literal token. */
  const WildcardChars: seq<char> := ['*', '?', '{']

  /** Go's `isWildcardChar`: a search of `wildcard_chars`. */
  function IsWildcardChar(c: char): (b: bool)
    ensures b <==> c == '*' || c == '?' || c == '{'
  {
    c in WildcardChars
  }

  // ---------------------------------------------------------------------------
  // skipSeparator

  /** A separator the loop of `skipSeparator` consumes at `i`. The loop tests
      `end < len(path)`, so a separator that ends exactly at the end of the
      path is not consumed. */
  predicate SeparatorAt(path: string, i: int, sep: string) {
    0 <= i < |path| && i + |sep| < |path| && path[i..i + |sep|] == sep
  }

  /** `s` is a run of whole copies of `sep`. */
  ghost predicate Repeats(s: string, sep: string)
    decreases |s|
  {
    s == [] || (0 < |sep| <= |s| && s[..|sep|] == sep && Repeats(s[|sep|..], sep))
  }

  /** Specification of `skipSeparator`: how many characters of separators the
      loop consumes from `pos`. It never reaches the end of the path. */
  function SkippedSeparators(path: string, pos: nat, sep: string): (n: nat)
    requires |sep| > 0
    ensures n > 0 ==> pos + n < |path|
    decreases |path| - pos
  {
    if SeparatorAt(path, pos, sep) then |sep| + SkippedSeparators(path, pos + |sep|, sep) else 0
  }

  /** `skipSeparator` stops only where no further separator can be
      consumed. */
  lemma {:induction false} SkippedSeparatorsMaximal(path: string, pos: nat, sep: string)
    requires |sep| > 0
    ensures !SeparatorAt(path, pos + SkippedSeparators(path, pos, sep), sep)
    decreases |path| - pos
  {
    if SeparatorAt(path, pos, sep) {
      SkippedSeparatorsMaximal(path, pos + |sep|, sep);
    }
  }

  /** What `skipSeparator` consumes is a run of whole separators. */
  lemma {:induction false} SkippedSeparatorsRepeat(path: string, pos: nat, sep: string)
    requires |sep| > 0
    ensures pos + SkippedSeparators(path, pos, sep) <= |path| ==>
      Repeats(path[pos..pos + SkippedSeparators(path, pos, sep)], sep)
    decreases |path| - pos
  {
    if SeparatorAt(path, pos, sep) {
      var rest := SkippedSeparators(path, pos + |sep|, sep);
      var n := |sep| + rest;
      SkippedSeparatorsRepeat(path, pos + |sep|, sep);
      assert path[pos..pos + n][..|sep|] == sep;
      assert path[pos..pos + n][|sep|..] == path[pos + |sep|..pos + |sep| + rest];
    }
  }

  /** Go's `skipSeparator`. */
  method SkipSeparator(path: string, pos: nat, separator: string) returns (skipped: nat)
    requires |separator| > 0
    ensures skipped == SkippedSeparators(path, pos, separator)
  {
    skipped := 0;
    var sepl := |separator|;
    var plen := |path|;
    var begin, end := pos, pos + sepl;
    while begin < plen && end < plen && path[begin..end] == separator
      invariant begin == pos + skipped && end == begin + sepl
      invariant SkippedSeparators(path, pos, separator) == skipped + SkippedSeparators(path, begin, separator)
      decreases plen - begin
    {
      skipped := skipped + sepl;
      begin := begin + sepl;
      end := end + sepl;
    }
  }

  /** The cases of path/ant_matcher_test.go: "/ab/bb/cc" with "/b" from
      positions 0, 3 and 10. */
  lemma SkipSeparatorExamples()
    ensures SkippedSeparators("/ab/bb/cc", 0, "/b") == 0
    ensures SkippedSeparators("/ab/bb/cc", 3, "/b") == 2
    ensures SkippedSeparators("/ab/bb/cc", 10, "/b") == 0
  {
    var path := "/ab/bb/cc";
    assert path[0..2] == "/a";
    assert path[3..5] == "/b";
    assert path[5..7] == "b/";
  }

  // ---------------------------------------------------------------------------
  // skipSegment

  /** The number of characters of a pattern segment before its first `*`, `?`
      or `{`: its literal prefix. */
  function LiteralPrefixLength(prefix: string): (n: nat)
    ensures n <= |prefix|
    ensures n < |prefix| ==> IsWildcardChar(prefix[n])
  {
    if prefix == [] || IsWildcardChar(prefix[0]) then 0
    else 1 + LiteralPrefixLength(prefix[1..])
  }

  /** No wildcard comes before the end of the literal prefix. */
  lemma {:induction false} LiteralPrefixIsLiteral(prefix: string, i: nat)
    requires i < LiteralPrefixLength(prefix)
    ensures !IsWildcardChar(prefix[i])
    decreases |prefix|
  {
    if i > 0 {
      LiteralPrefixIsLiteral(prefix[1..], i - 1);
    }
  }

  /** The loop of `skipSegment` from the point where `skipped` characters of
      `chars` after `pos` have been lined up and `prefix` is left to read. A
      mismatching character of `prefix` is passed over; reaching the end of
      `chars` before a wildcard discards the count. */
  function AlignFrom(chars: string, pos: nat, prefix: string, skipped: nat): nat
    requires skipped == 0 || pos + skipped <= |chars|
    decreases |prefix|
  {
    if prefix == [] || IsWildcardChar(prefix[0]) then skipped
    else if pos + skipped >= |chars| then 0
    else AlignFrom(chars, pos, prefix[1..], if chars[pos + skipped] == prefix[0] then skipped + 1 else skipped)
  }

  /** The count only grows by characters of the literal prefix, and never
      past the end of `chars`. */
  lemma {:induction false} AlignFromBounds(chars: string, pos: nat, prefix: string, skipped: nat)
    requires skipped == 0 || pos + skipped <= |chars|
    ensures var n := AlignFrom(chars, pos, prefix, skipped);
      n == 0 || (skipped <= n <= skipped + LiteralPrefixLength(prefix) && pos + n <= |chars|)
    decreases |prefix|
  {
    if prefix != [] && !IsWildcardChar(prefix[0]) && pos + skipped < |chars| {
      AlignFromBounds(chars, pos, prefix[1..], if chars[pos + skipped] == prefix[0] then skipped + 1 else skipped);
    }
  }

  /** Specification of `skipSegment(chars, pos, prefix)`: at most the length
      of the literal prefix, 0 when the prefix starts with a wildcard, and
      never past the end of `chars`. */
  function SegmentAlignment(chars: string, pos: nat, prefix: string): (n: nat)
    ensures n <= LiteralPrefixLength(prefix)
    ensures n > 0 ==> pos + n <= |chars|
    ensures |prefix| > 0 && IsWildcardChar(prefix[0]) ==> n == 0
  {
    AlignFromBounds(chars, pos, prefix, 0);
    AlignFrom(chars, pos, prefix, 0)
  }

  /** Go's `skipSegment`. */
  method SkipSegment(chars: string, pos: nat, prefix: string) returns (skipped: nat)
    ensures skipped == SegmentAlignment(chars, pos, prefix)
  {
    skipped := 0;
    for i := 0 to |prefix|
      invariant skipped == 0 || pos + skipped <= |chars|
      invariant AlignFrom(chars, pos, prefix, 0) == AlignFrom(chars, pos, prefix[i..], skipped)
    {
      assert prefix[i..][0] == prefix[i] && prefix[i..][1..] == prefix[i + 1..];
      var c := prefix[i];
      if IsWildcardChar(c) {
        return;
      } else if pos + skipped >= |chars| {
        return 0;
      } else if chars[pos + skipped] == c {
        skipped := skipped + 1;
      }
    }
    assert prefix[|prefix|..] == [];
  }

  /** A slice equal to a non-empty `a` starts with `a[0]` and goes on with
      the rest of `a`. */
  lemma SliceTail(s: string, q: nat, a: string)
    requires |a| > 0 && q + |a| <= |s| && s[q..q + |a|] == a
    ensures s[q] == a[0] && s[q + 1..q + |a|] == a[1..]
  {
    assert s[q..q + |a|][0] == s[q];
  }

  /** When the path holds the segment at the current position, every
      character of its literal prefix lines up. */
  lemma {:induction false} AlignLiteral(chars: string, pos: nat, prefix: string, skipped: nat)
    requires pos + skipped + |prefix| <= |chars|
    requires chars[pos + skipped..pos + skipped + |prefix|] == prefix
    ensures AlignFrom(chars, pos, prefix, skipped) == skipped + LiteralPrefixLength(prefix)
    decreases |prefix|
  {
    if prefix != [] && !IsWildcardChar(prefix[0]) {
      SliceTail(chars, pos + skipped, prefix);
      AlignLiteral(chars, pos, prefix[1..], skipped + 1);
    }
  }

  /** Lining up a whole non-empty segment means the path holds exactly that
      segment there, and the segment has no wildcard. */
  lemma {:induction false} AlignFull(chars: string, pos: nat, prefix: string, skipped: nat)
    requires skipped == 0 || pos + skipped <= |chars|
    requires |prefix| > 0
    requires AlignFrom(chars, pos, prefix, skipped) == skipped + |prefix|
    ensures pos + skipped + |prefix| <= |chars|
    ensures chars[pos + skipped..pos + skipped + |prefix|] == prefix
    ensures LiteralPrefixLength(prefix) == |prefix|
    decreases |prefix|
  {
    assert !IsWildcardChar(prefix[0]) && pos + skipped < |chars|;
    var next := if chars[pos + skipped] == prefix[0] then skipped + 1 else skipped;
    AlignFromBounds(chars, pos, prefix[1..], next);
    assert next == skipped + 1;
    if |prefix| > 1 {
      AlignFull(chars, pos, prefix[1..], next);
      assert prefix == [prefix[0]] + prefix[1..];
    }
  }

  /** A non-empty segment lines up completely only when the path holds the
      segment at `pos` and the segment is all literal. */
  lemma FullAlignmentIsLiteralMatch(chars: string, pos: nat, prefix: string)
    requires |prefix| > 0
    requires SegmentAlignment(chars, pos, prefix) == |prefix|
    ensures pos + |prefix| <= |chars| && chars[pos..pos + |prefix|] == prefix
    ensures LiteralPrefixLength(prefix) == |prefix|
  {
    AlignFull(chars, pos, prefix, 0);
  }

  /** Conversely, an all-literal segment that the path holds at `pos` lines
      up completely. */
  lemma LiteralMatchAlignsFully(chars: string, pos: nat, prefix: string)
    requires pos + |prefix| <= |chars| && chars[pos..pos + |prefix|] == prefix
    requires LiteralPrefixLength(prefix) == |prefix|
    ensures SegmentAlignment(chars, pos, prefix) == |prefix|
  {
    AlignLiteral(chars, pos, prefix, 0);
  }

  /** The cases of path/ant_matcher_test.go on "/ab/bb/cc". */
  lemma SkipSegmentExamples()
    ensures SegmentAlignment("/ab/bb/cc", 0, "ac") == 0
    ensures SegmentAlignment("/ab/bb/cc", 1, "ac") == 1
    ensures SegmentAlignment("/ab/bb/cc", 1, "abc") == 2
    ensures SegmentAlignment("/ab/bb/cc", 10, "ac") == 0
    ensures SegmentAlignment("/ab/bb/cc", 1, "{ab}") == 0
  {
    assert !IsWildcardChar('a') && !IsWildcardChar('b') && !IsWildcardChar('c');
    assert "ac"[1..] == "c" && "abc"[1..] == "bc" && "bc"[1..] == "c" && "c"[1..] == [];
  }

  // ---------------------------------------------------------------------------
  // isPotentialMatch

  /** The walk of `isPotentialMatch` from `pos` over the segments from `i`
      on: skip separators, line up the segment's literal prefix, and stop at
      the first segment that does not line up completely. There the answer is
      true when some of it lined up, or when it starts with a wildcard. */
  function ScanFrom(path: string, pos: nat, dirs: seq<string>, i: nat): bool
    requires pos <= |path| && i <= |dirs|
    decreases |dirs| - i
  {
    if i == |dirs| then true
    else
      var p1 := pos + SkippedSeparators(path, pos, DefaultPathSeparator);
      var k := SegmentAlignment(path, p1, dirs[i]);
      if k < |dirs[i]| then k > 0 || (|dirs[i]| > 0 && IsWildcardChar(dirs[i][0]))
      else ScanFrom(path, p1 + k, dirs, i + 1)
  }

  /** Specification of `isPotentialMatch`. */
  function PotentialMatch(path: string, pattDirs: seq<string>, trimTokens: bool): bool {
    trimTokens || ScanFrom(path, 0, pattDirs, 0)
  }

  /** Go's `isPotentialMatch`; `trimTokens` is the global of the same name
      (false in the source). */
  method IsPotentialMatch(path: string, pattDirs: seq<string>, trimTokens: bool) returns (b: bool)
    ensures b == PotentialMatch(path, pattDirs, trimTokens)
  {
    if !trimTokens {
      var pos: nat := 0;
      for i := 0 to |pattDirs|
        invariant pos <= |path|
        invariant ScanFrom(path, 0, pattDirs, 0) == ScanFrom(path, pos, pattDirs, i)
      {
        var pattDir := pattDirs[i];
        var skipped := SkipSeparator(path, pos, DefaultPathSeparator);
        pos := pos + skipped;
        skipped := SkipSegment(path, pos, pattDir);
        if skipped < |pattDir| {
          if skipped > 0 {
            return true;
          }
          return |pattDir| > 0 && IsWildcardChar(pattDir[0]);
        }
        pos := pos + skipped;
      }
    }
    return true;
  }

  /** A rejection always comes from a non-empty segment that starts with a
      literal character: empty segments and segments that start with a
      wildcard never make the prefilter answer false. */
  lemma {:induction false} RejectionAtLiteralSegment(path: string, pos: nat, dirs: seq<string>, i: nat) returns (r: nat)
    requires pos <= |path| && i <= |dirs|
    requires !ScanFrom(path, pos, dirs, i)
    ensures i <= r < |dirs| && dirs[r] != [] && !IsWildcardChar(dirs[r][0])
    decreases |dirs| - i
  {
    var p1 := pos + SkippedSeparators(path, pos, DefaultPathSeparator);
    var k := SegmentAlignment(path, p1, dirs[i]);
    if k < |dirs[i]| {
      r := i;
    } else {
      r := RejectionAtLiteralSegment(path, p1 + k, dirs, i + 1);
    }
  }

  // ---------------------------------------------------------------------------
  // The prefilter never rejects the pattern's own text.

  /** No segment contains the separator, as after `TokenizePattern`. */
  predicate NoSeparatorIn(dirs: seq<string>) {
    forall k :: 0 <= k < |dirs| ==> PathSeparator !in dirs[k]
  }

  /** The path holds `m` separators at `pos`, followed by the segments from
      `j` on, joined; the segments from `i` to `j` are empty. */
  ghost predicate Layout(path: string, pos: nat, dirs: seq<string>, i: nat, m: nat, j: nat) {
    && pos + m <= |path|
    && i <= j < |dirs|
    && (forall t :: i <= t < j ==> dirs[t] == [])
    && (forall t :: pos <= t < pos + m ==> path[t] == PathSeparator)
    && path[pos + m..] == JoinWith(dirs[j..], DefaultPathSeparator)
  }

  /** Splitting the rest of a string at the end of its first part. */
  lemma SliceSplit(s: string, p: nat, a: string, b: string)
    requires p <= |s| && s[p..] == a + b
    ensures p + |a| <= |s| && s[p..p + |a|] == a && s[p + |a|..] == b
  {
    assert s[p..p + |a|] == (a + b)[..|a|];
    assert s[p + |a|..] == (a + b)[|a|..];
  }

  /** The segments from `j` on, joined, as the segment `j` and what follows. */
  lemma JoinFrom(dirs: seq<string>, j: nat)
    requires j < |dirs|
    ensures JoinWith(dirs[j..], DefaultPathSeparator) ==
      dirs[j] + (if j + 1 < |dirs| then DefaultPathSeparator + JoinWith(dirs[j + 1..], DefaultPathSeparator) else [])
  {
    JoinWithFirst(dirs[j..], DefaultPathSeparator);
    assert dirs[j..][0] == dirs[j];
    assert dirs[j..][1..] == dirs[j + 1..];
  }

  /** `skipSeparator` consumes exactly the `m` separators in front of a
      character that is not one. */
  lemma {:induction false} SkipExactSlashes(path: string, pos: nat, m: nat)
    requires pos + m < |path|
    requires forall i :: pos <= i < pos + m ==> path[i] == PathSeparator
    requires path[pos + m] != PathSeparator
    ensures SkippedSeparators(path, pos, DefaultPathSeparator) == m
    decreases m
  {
    if m == 0 {
      assert path[pos..pos + 1][0] == path[pos];
    } else {
      assert path[pos..pos + 1] == DefaultPathSeparator;
      SkipExactSlashes(path, pos + 1, m - 1);
    }
  }

  /** `skipSeparator` consumes separators only. */
  lemma {:induction false} SkipOnlySlashes(path: string, pos: nat)
    ensures forall i :: pos <= i < pos + SkippedSeparators(path, pos, DefaultPathSeparator) ==> path[i] == PathSeparator
    decreases |path| - pos
  {
    if SeparatorAt(path, pos, DefaultPathSeparator) {
      assert path[pos] == path[pos..pos + 1][0] == PathSeparator;
      SkipOnlySlashes(path, pos + 1);
    }
  }

  /** A joined list that starts with a character its first piece lacks
      starts with an empty piece followed by the separator. */
  lemma JoinStartsWithSeparator(ps: seq<string>, sep: string)
    requires |ps| >= 1 && |JoinWith(ps, sep)| > 0
    requires JoinWith(ps, sep)[0] !in ps[0]
    ensures ps[0] == [] && |ps| > 1
    ensures JoinWith(ps, sep) == sep + JoinWith(ps[1..], sep)
  {
    JoinWithFirst(ps, sep);
  }

  /** Consuming separators keeps the layout: once the leading `m` are used up,
      each further separator belongs to an empty segment. */
  lemma {:induction false} EatSlashes(path: string, pos: nat, dirs: seq<string>, i: nat, m: nat, j: nat, n: nat)
    returns (m': nat, j': nat)
    requires NoSeparatorIn(dirs)
    requires Layout(path, pos, dirs, i, m, j)
    requires pos + n <= |path|
    requires forall t :: pos <= t < pos + n ==> path[t] == PathSeparator
    ensures Layout(path, pos + n, dirs, i, m', j')
    decreases |dirs| - j
  {
    if n <= m {
      m', j' := m - n, j;
    } else {
      var rest := dirs[j..];
      assert path[pos + m] == path[pos + m..][0];
      assert rest[0] == dirs[j];
      JoinStartsWithSeparator(rest, DefaultPathSeparator);
      SliceSplit(path, pos + m, DefaultPathSeparator, JoinWith(rest[1..], DefaultPathSeparator));
      assert rest[1..] == dirs[j + 1..];
      m', j' := EatSlashes(path, pos, dirs, i, m + 1, j + 1, n);
    }
  }

  /** A non-empty segment first in the layout: the separators in front of it
      are skipped exactly and its literal prefix lines up. */
  lemma LiteralSegmentLinesUp(path: string, pos: nat, dirs: seq<string>, i: nat, m: nat)
    requires NoSeparatorIn(dirs)
    requires Layout(path, pos, dirs, i, m, i)
    requires dirs[i] != []
    ensures SkippedSeparators(path, pos, DefaultPathSeparator) == m
    ensures SegmentAlignment(path, pos + m, dirs[i]) == LiteralPrefixLength(dirs[i])
  {
    var seg := dirs[i];
    var p1 := pos + m;
    JoinFrom(dirs, i);
    var tail := if i + 1 < |dirs| then DefaultPathSeparator + JoinWith(dirs[i + 1..], DefaultPathSeparator) else [];
    SliceSplit(path, p1, seg, tail);
    assert path[p1] == seg[0] by {
      assert path[p1..p1 + |seg|][0] == path[p1];
    }
    SkipExactSlashes(path, pos, m);
    AlignLiteral(path, p1, seg, 0);
  }

  /** What follows a non-empty first segment is a layout of the remaining
      segments behind one separator. */
  lemma LayoutAfterSegment(path: string, pos: nat, dirs: seq<string>, i: nat, m: nat)
    requires Layout(path, pos, dirs, i, m, i)
    requires i + 1 < |dirs|
    ensures Layout(path, pos + m + |dirs[i]|, dirs, i + 1, 1, i + 1)
  {
    var p1 := pos + m;
    JoinFrom(dirs, i);
    var rest := JoinWith(dirs[i + 1..], DefaultPathSeparator);
    SliceSplit(path, p1, dirs[i], DefaultPathSeparator + rest);
    SliceSplit(path, p1 + |dirs[i]|, DefaultPathSeparator, rest);
  }

  /** An empty first segment: dropping it leaves a layout of the remaining
      segments at the same position. */
  lemma EmptySegmentLayout(path: string, pos: nat, dirs: seq<string>, i: nat, m: nat, j: nat)
    returns (m': nat, j': nat)
    requires Layout(path, pos, dirs, i, m, j)
    requires dirs[i] == [] && i + 1 < |dirs|
    ensures Layout(path, pos, dirs, i + 1, m', j')
  {
    if j == i {
      JoinFrom(dirs, i);
      SliceSplit(path, pos + m, DefaultPathSeparator, JoinWith(dirs[i + 1..], DefaultPathSeparator));
      m', j' := m + 1, i + 1;
    } else {
      m', j' := m, j;
    }
  }

  /** The walk passes a segment that lines up completely and goes on with
      the rest. */
  lemma ScanPassesSegment(path: string, pos: nat, dirs: seq<string>, i: nat, p1: nat, k: nat)
    requires pos <= |path| && i < |dirs|
    requires p1 == pos + SkippedSeparators(path, pos, DefaultPathSeparator)
    requires k == SegmentAlignment(path, p1, dirs[i]) && k == |dirs[i]|
    requires p1 + k <= |path|
    requires ScanFrom(path, p1 + k, dirs, i + 1)
    ensures ScanFrom(path, pos, dirs, i)
  {
  }

  /** The walk stops at a segment that lines up partly, or not at all but
      starts with a wildcard, and accepts. */
  lemma ScanStopsAtSegment(path: string, pos: nat, dirs: seq<string>, i: nat, p1: nat, k: nat)
    requires pos <= |path| && i < |dirs|
    requires p1 == pos + SkippedSeparators(path, pos, DefaultPathSeparator)
    requires k == SegmentAlignment(path, p1, dirs[i]) && k < |dirs[i]|
    requires k > 0 || IsWildcardChar(dirs[i][0])
    ensures ScanFrom(path, pos, dirs, i)
  {
  }

  /** The walk accepts any path laid out as its segments joined with the
      separator (with possibly extra separators in front). */
  lemma {:induction false} ScanAcceptsLayout(path: string, pos: nat, dirs: seq<string>, i: nat, m: nat, j: nat)
    requires NoSeparatorIn(dirs)
    requires Layout(path, pos, dirs, i, m, j)
    ensures ScanFrom(path, pos, dirs, i)
    decreases |dirs| - i, 1
  {
    if dirs[i] != [] {
      assert j == i;
      ScanAcceptsLiteralFirst(path, pos, dirs, i, m);
    } else {
      ScanAcceptsEmptyFirst(path, pos, dirs, i, m, j);
    }
  }

  /** The layout case of a non-empty segment `i`. */
  lemma {:induction false} ScanAcceptsLiteralFirst(path: string, pos: nat, dirs: seq<string>, i: nat, m: nat)
    requires NoSeparatorIn(dirs)
    requires Layout(path, pos, dirs, i, m, i)
    requires dirs[i] != []
    ensures ScanFrom(path, pos, dirs, i)
    decreases |dirs| - i, 0
  {
    var seg := dirs[i];
    var p1 := pos + m;
    var k := SegmentAlignment(path, p1, seg);
    LiteralSegmentLinesUp(path, pos, dirs, i, m);
    if k < |seg| {
      ScanStopsAtSegment(path, pos, dirs, i, p1, k);
    } else {
      if i + 1 < |dirs| {
        LayoutAfterSegment(path, pos, dirs, i, m);
        ScanAcceptsLayout(path, p1 + k, dirs, i + 1, 1, i + 1);
      }
      ScanPassesSegment(path, pos, dirs, i, p1, k);
    }
  }

  /** Skipping the separators in front of an empty segment `i` leaves a
      layout of the segments after it. */
  lemma SkipEmptySegment(path: string, pos: nat, dirs: seq<string>, i: nat, m: nat, j: nat)
    returns (m': nat, j': nat)
    requires NoSeparatorIn(dirs)
    requires Layout(path, pos, dirs, i, m, j)
    requires dirs[i] == [] && i + 1 < |dirs|
    ensures Layout(path, pos + SkippedSeparators(path, pos, DefaultPathSeparator), dirs, i + 1, m', j')
  {
    var m1, j1 := EmptySegmentLayout(path, pos, dirs, i, m, j);
    SkipOnlySlashes(path, pos);
    m', j' := EatSlashes(path, pos, dirs, i + 1, m1, j1, SkippedSeparators(path, pos, DefaultPathSeparator));
  }

  /** The layout case of an empty segment `i`. */
  lemma {:induction false} ScanAcceptsEmptyFirst(path: string, pos: nat, dirs: seq<string>, i: nat, m: nat, j: nat)
    requires NoSeparatorIn(dirs)
    requires Layout(path, pos, dirs, i, m, j)
    requires dirs[i] == []
    ensures ScanFrom(path, pos, dirs, i)
    decreases |dirs| - i, 0
  {
    var p1 := pos + SkippedSeparators(path, pos, DefaultPathSeparator);
    if i + 1 < |dirs| {
      var m', j' := SkipEmptySegment(path, pos, dirs, i, m, j);
      ScanAcceptsLayout(path, p1, dirs, i + 1, m', j');
    }
    ScanPassesSegment(path, pos, dirs, i, p1, 0);
  }

  /** The prefilter never rejects a pattern's own text used as the path: the
      literal prefixes of its segments always line up. */
  lemma PrefilterAcceptsPatternItself(pattern: string)
    ensures PotentialMatch(pattern, TokenizePattern(pattern), false)
  {
    var dirs := TokenizePattern(pattern);
    assert pattern[0..] == JoinWith(dirs[0..], DefaultPathSeparator) by {
      assert dirs[0..] == dirs;
    }
    ScanAcceptsLayout(pattern, 0, dirs, 0, 0, 0);
  }
}
