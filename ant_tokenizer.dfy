/** The segment splitter of path/ant_matcher.go (`tokenizePattern`). */
module AntTokenizer {
  import opened AntStrings

  /** The matcher's default path separator, `default_path_separator`. */
  const PathSeparator: char := '/'

  /** The separator as a one-character string. */
  const DefaultPathSeparator: string := [PathSeparator]

  /** Go's `tokenizePattern`: `strings.Split(pattern, "/")`. There is always at
      least one segment, no segment contains the separator, and joining the
      segments with the separator gives back the pattern. */
  function TokenizePattern(pattern: string): (dirs: seq<string>)
    ensures |dirs| >= 1
    ensures forall k :: 0 <= k < |dirs| ==> PathSeparator !in dirs[k]
    ensures JoinWith(dirs, DefaultPathSeparator) == pattern
    decreases |pattern|
  {
    if pattern == [] then [[]]
    else
      var rest := TokenizePattern(pattern[1..]);
      JoinWithFirst(rest, DefaultPathSeparator);
      if pattern[0] == PathSeparator then
        var dirs := [[]] + rest;
        JoinWithFirst(dirs, DefaultPathSeparator);
        assert dirs[1..] == rest;
        assert pattern == [pattern[0]] + pattern[1..];
        dirs
      else
        var dirs := [[pattern[0]] + rest[0]] + rest[1..];
        JoinWithFirst(dirs, DefaultPathSeparator);
        assert dirs[1..] == rest[1..];
        assert pattern == [pattern[0]] + pattern[1..];
        assert forall k :: 1 <= k < |dirs| ==> dirs[k] == rest[k];
        dirs
  }

  /** Splitting text that starts with a separator-free piece puts that piece in
      front of the first segment of the rest. */
  lemma {:induction false} TokenizeAfterPiece(a: string, b: string)
    requires PathSeparator !in a
    ensures TokenizePattern(a + b) == [a + TokenizePattern(b)[0]] + TokenizePattern(b)[1..]
    decreases |a|
  {
    if a == [] {
      assert a + b == b;
      assert a + TokenizePattern(b)[0] == TokenizePattern(b)[0];
      assert TokenizePattern(b) == [TokenizePattern(b)[0]] + TokenizePattern(b)[1..];
    } else {
      assert (a + b)[0] == a[0] && (a + b)[1..] == a[1..] + b;
      TokenizeAfterPiece(a[1..], b);
      assert [a[0]] + (a[1..] + TokenizePattern(b)[0]) == a + TokenizePattern(b)[0];
    }
  }

  /** The other half of the round trip: segments without the separator,
      joined with it, are split back into exactly those segments. */
  lemma {:induction false} TokenizeJoin(dirs: seq<string>)
    requires |dirs| >= 1
    requires forall k :: 0 <= k < |dirs| ==> PathSeparator !in dirs[k]
    ensures TokenizePattern(JoinWith(dirs, DefaultPathSeparator)) == dirs
    decreases |dirs|
  {
    JoinWithFirst(dirs, DefaultPathSeparator);
    if |dirs| == 1 {
      TokenizeAfterPiece(dirs[0], []);
      assert dirs[0] + [] == dirs[0];
    } else {
      var tail := JoinWith(dirs[1..], DefaultPathSeparator);
      TokenizeJoin(dirs[1..]);
      var t := DefaultPathSeparator + tail;
      assert t[0] == PathSeparator && t[1..] == tail;
      assert TokenizePattern(t) == [[]] + dirs[1..];
      TokenizeAfterPiece(dirs[0], t);
      assert dirs[0] + DefaultPathSeparator + tail == dirs[0] + t;
      assert dirs[0] + [] == dirs[0];
      assert dirs == [dirs[0]] + dirs[1..];
    }
  }

  /** `strings.Split("/a/b", "/")` is `["", "a", "b"]`. */
  lemma TokenizeExample()
    ensures TokenizePattern("/a/b") == ["", "a", "b"]
  {
    var dirs := ["", "a", "b"];
    TokenizeJoin(dirs);
    assert dirs[1..][1..] == ["b"];
    assert JoinWith(dirs[1..], DefaultPathSeparator) == "a" + "/" + "b";
    assert JoinWith(dirs, DefaultPathSeparator) == "" + "/" + ("a" + "/" + "b");
    assert "" + "/" + ("a" + "/" + "b") == "/a/b";
  }
}
