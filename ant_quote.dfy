/**
 * The literal escaper of path/ant_matcher.go (`RegexpQuote` and `quote`):
 * literal text is wrapped in a `\Q...\E` run, and every `\E` inside the text
 * closes the run, is written as an escaped backslash followed by `E`, and
 * reopens a fresh run.
 */
module AntQuote {
  import opened Wrappers
  import opened AntStrings
  import opened RegexSyntax

  /** What stands for each `\E` of the text: close, `\\`, `E`, reopen. */
  const Reopen: string := @"\E\\E\Q"

  /** The text contains no `\E`. */
  predicate NoClose(s: string) {
    FindFrom(s, QuoteClose, 0) == -1
  }

  /** The pieces of `s[current..]` between successive `\E`, found left to right. */
  function PiecesFrom(s: string, current: nat): (ps: seq<string>)
    requires current <= |s|
    ensures |ps| >= 1
    decreases |s| - current
  {
    var e := FindFrom(s, QuoteClose, current);
    if e < 0 then [s[current..]] else [s[current..e]] + PiecesFrom(s, e + 2)
  }

  function Pieces(s: string): seq<string> {
    PiecesFrom(s, 0)
  }

  /** Specification of `RegexpQuote`: the pieces joined with `Reopen`, inside
      one opening `\Q` and one closing `\E`. */
  function Quoted(s: string): string {
    QuoteOpen + JoinWith(Pieces(s), Reopen) + QuoteClose
  }

  /** A slice in which `s` has no `\E` contains none. */
  lemma NoCloseSlice(s: string, lo: nat, hi: nat)
    requires lo <= hi <= |s|
    requires forall i :: lo <= i && i + 2 <= hi ==> !OccursAt(s, QuoteClose, i)
    ensures NoClose(s[lo..hi])
  {
    var t := s[lo..hi];
    forall i | 0 <= i
      ensures !OccursAt(t, QuoteClose, i)
    {
      if i + 2 <= |t| {
        assert t[i..i + 2] == [t[i], t[i + 1]] == [s[lo + i], s[lo + i + 1]] == s[lo + i..lo + i + 2];
        assert !OccursAt(s, QuoteClose, lo + i);
      }
    }
    assert IsFirstFrom(t, QuoteClose, 0, -1);
    FirstFromUnique(t, QuoteClose, 0, -1, FindFrom(t, QuoteClose, 0));
  }

  /** The pieces rejoined with `\E` give back the text, and none contains `\E`. */
  lemma {:induction false} PiecesFromRejoin(s: string, current: nat)
    requires current <= |s|
    ensures JoinWith(PiecesFrom(s, current), QuoteClose) == s[current..]
    ensures forall k :: 0 <= k < |PiecesFrom(s, current)| ==> NoClose(PiecesFrom(s, current)[k])
    decreases |s| - current
  {
    var e := FindFrom(s, QuoteClose, current);
    var ps := PiecesFrom(s, current);
    if e < 0 {
      NoCloseSlice(s, current, |s|);
      assert s[current..|s|] == s[current..];
    } else {
      NoCloseSlice(s, current, e);
      PiecesFromRejoin(s, e + 2);
      var rest := PiecesFrom(s, e + 2);
      assert ps == [s[current..e]] + rest;
      assert ps[1..] == rest;
      assert s[e..e + 2] == QuoteClose;
      assert s[current..] == s[current..e] + s[e..e + 2] + s[e + 2..];
      forall k | 0 <= k < |ps|
        ensures NoClose(ps[k])
      {
        if k > 0 { assert ps[k] == rest[k - 1]; }
      }
    }
  }

  /** Round trip of the split: rejoining the quoted pieces with `\E` recovers
      the text exactly, and no piece contains `\E`. */
  lemma PiecesRoundTrip(s: string)
    ensures JoinWith(Pieces(s), QuoteClose) == s
    ensures forall k :: 0 <= k < |Pieces(s)| ==> NoClose(Pieces(s)[k])
  {
    PiecesFromRejoin(s, 0);
  }

  /** A text without `\E` is quoted as `\Q` + text + `\E`. */
  lemma QuotedWithoutClose(s: string)
    requires NoClose(s)
    ensures Quoted(s) == QuoteOpen + s + QuoteClose
  {
    assert Pieces(s) == [s[0..]];
    assert s[0..] == s;
  }

  /** The first `\E` after an opening `\Q` is the one that follows the piece. */
  lemma FirstCloseAfterPiece(p: string, t: string)
    requires NoClose(p)
    ensures FindFrom(QuoteOpen + p + QuoteClose + t, QuoteClose, 2) == 2 + |p|
  {
    var r := QuoteOpen + p + QuoteClose + t;
    var e := 2 + |p|;
    assert r[e..e + 2] == QuoteClose;
    forall i | 2 <= i < e
      ensures !OccursAt(r, QuoteClose, i)
    {
      if i + 2 <= e {
        assert r[i..i + 2] == p[i - 2..i];
        assert !OccursAt(p, QuoteClose, i - 2);
      } else {
        assert r[i + 1] == '\\';
        assert r[i..i + 2][1] == r[i + 1];
      }
    }
    assert IsFirstFrom(r, QuoteClose, 2, e);
    FirstFromUnique(r, QuoteClose, 2, e, FindFrom(r, QuoteClose, 2));
  }

  /** The wrapped run of pieces that `Quoted` produces. */
  function QuotedRun(ps: seq<string>): string {
    QuoteOpen + JoinWith(ps, Reopen) + QuoteClose
  }

  /** A run of two or more pieces is the first piece quoted on its own,
      followed by the escaped `\E` and the run of the remaining pieces. */
  lemma QuotedRunUnfold(ps: seq<string>)
    requires |ps| >= 1
    ensures |ps| == 1 ==> QuotedRun(ps) == QuoteOpen + ps[0] + QuoteClose + []
    ensures |ps| > 1 ==> QuotedRun(ps) == QuoteOpen + ps[0] + QuoteClose + (@"\\E" + QuotedRun(ps[1..]))
  {
  }

  /** Reading a quoted piece: it contributes its text and no group, and what
      follows its `\E` is read on its own. */
  lemma ReadQuotedPiece(p: string, t: string)
    requires NoClose(p)
    ensures LiteralText(QuoteOpen + p + QuoteClose + t) == Prepend(p, LiteralText(t))
    ensures Groups(QuoteOpen + p + QuoteClose + t) == Groups(t)
    ensures Closed(QuoteOpen + p + QuoteClose + t) == Closed(t)
  {
    var r := QuoteOpen + p + QuoteClose + t;
    var e := 2 + |p|;
    assert r[0] == '\\' && r[1] == 'Q';
    FirstCloseAfterPiece(p, t);
    assert r[2..e] == p;
    assert r[e + 2..] == t;
  }

  /** Reading the escaped backslash and the `E` written between two runs. */
  lemma ReadEscapedClose(y: string)
    ensures LiteralText(@"\\E" + y) == Prepend(QuoteClose, LiteralText(y))
    ensures Groups(@"\\E" + y) == Groups(y)
    ensures Closed(@"\\E" + y) == Closed(y)
  {
    var u := ['E'] + y;
    assert @"\\E" + y == ['\\', '\\'] + u;
    assert IsMeta('\\') && !IsMeta('E');
    ReadEscaped('\\', u);
    ReadPlain('E', y);
    PrependTwice(['\\'], "E", LiteralText(y));
    assert ['\\'] + "E" == QuoteClose;
  }

  /** Reading a quoted piece followed by the escaped `\E` and a literal rest. */
  lemma ReadPieceThenClose(p: string, y: string, j: string)
    requires NoClose(p)
    requires LiteralText(y) == Some(j)
    ensures LiteralText(QuoteOpen + p + QuoteClose + (@"\\E" + y)) == Some(p + QuoteClose + j)
  {
    ReadQuotedPiece(p, @"\\E" + y);
    ReadEscapedClose(y);
    assert p + (QuoteClose + j) == p + QuoteClose + j;
  }

  /** A run of pieces without `\E`, joined with `Reopen` and wrapped, reads as
      exactly the pieces joined with `\E`. */
  lemma {:induction false} QuotedRunIsLiteral(ps: seq<string>)
    requires |ps| >= 1
    requires forall k :: 0 <= k < |ps| ==> NoClose(ps[k])
    ensures LiteralText(QuotedRun(ps)) == Some(JoinWith(ps, QuoteClose))
  {
    QuotedRunUnfold(ps);
    JoinWithFirst(ps, QuoteClose);
    if |ps| == 1 {
      ReadQuotedPiece(ps[0], []);
      assert ps[0] + [] == ps[0];
    } else {
      QuotedRunIsLiteral(ps[1..]);
      ReadPieceThenClose(ps[0], QuotedRun(ps[1..]), JoinWith(ps[1..], QuoteClose));
    }
  }

  /** A run of pieces without `\E` opens no group and is closed. */
  lemma {:induction false} QuotedRunIsClosed(ps: seq<string>)
    requires |ps| >= 1
    requires forall k :: 0 <= k < |ps| ==> NoClose(ps[k])
    ensures Groups(QuotedRun(ps)) == 0
    ensures Closed(QuotedRun(ps))
  {
    QuotedRunUnfold(ps);
    var p := ps[0];
    if |ps| == 1 {
      ReadQuotedPiece(p, []);
    } else {
      var y := QuotedRun(ps[1..]);
      ReadQuotedPiece(p, @"\\E" + y);
      ReadEscapedClose(y);
      QuotedRunIsClosed(ps[1..]);
    }
  }

  /** The quoted text, read as a regular expression, matches the original
      text literally and only it; it opens no group and is closed. */
  lemma QuotedIsLiteral(s: string)
    ensures LiteralText(Quoted(s)) == Some(s)
    ensures Groups(Quoted(s)) == 0
    ensures Closed(Quoted(s))
  {
    PiecesRoundTrip(s);
    QuotedRunIsLiteral(Pieces(s));
    QuotedRunIsClosed(Pieces(s));
    assert Quoted(s) == QuotedRun(Pieces(s));
  }

  /** One step of the quoting loop: appending the next piece and `Reopen`
      leaves the same text still to be produced. */
  lemma PiecesFromStep(s: string, current: nat, sb: string)
    requires current <= |s|
    requires FindFrom(s, QuoteClose, current) >= 0
    ensures var e := FindFrom(s, QuoteClose, current);
      sb + s[current..e] + Reopen + JoinWith(PiecesFrom(s, e + 2), Reopen)
      == sb + JoinWith(PiecesFrom(s, current), Reopen)
  {
    var e := FindFrom(s, QuoteClose, current);
    var rest := PiecesFrom(s, e + 2);
    var ps := PiecesFrom(s, current);
    assert ps == [s[current..e]] + rest;
    assert ps[1..] == rest;
    assert JoinWith(ps, Reopen) == s[current..e] + Reopen + JoinWith(rest, Reopen);
  }

  /** Go's `RegexpQuote`: a shortcut when the text has no `\E`, otherwise a
      loop that appends each piece followed by `Reopen`. */
  method RegexpQuote(s: string) returns (r: string)
    ensures r == Quoted(s)
    ensures LiteralText(r) == Some(s)
  {
    var first := IndexFrom(s, QuoteClose, 0);
    if first == -1 {
      r := QuoteOpen + s + QuoteClose;
      assert r == Quoted(s) by { QuotedWithoutClose(s); }
      assert LiteralText(r) == Some(s) by { QuotedIsLiteral(s); }
      return;
    }
    ghost var goal := QuoteOpen + JoinWith(Pieces(s), Reopen);
    var sb := QuoteOpen;
    var current := 0;
    var e := IndexFrom(s, QuoteClose, current);
    while e != -1
      invariant current <= |s|
      invariant e == FindFrom(s, QuoteClose, current)
      invariant sb + JoinWith(PiecesFrom(s, current), Reopen) == goal
      decreases |s| - current
    {
      PiecesFromStep(s, current, sb);
      sb := sb + s[current..e];
      current := e + 2;
      sb := sb + Reopen;
      e := IndexFrom(s, QuoteClose, current);
    }
    assert PiecesFrom(s, current) == [s[current..]];
    sb := sb + s[current..];
    sb := sb + QuoteClose;
    r := sb;
    assert r == Quoted(s);
    assert LiteralText(r) == Some(s) by { QuotedIsLiteral(s); }
  }

  /** Go's `quote(s, start, end)`: the empty string for an empty gap, else the
      quoted slice. */
  function Quote(s: string, start: nat, end: nat): (r: string)
    requires start <= end <= |s|
    ensures r == [] <==> start == end
  {
    if start == end then [] else Quoted(s[start..end])
  }

  /** Either way `quote` gives an expression that matches the slice
      literally, opens no group and is closed. */
  lemma QuoteIsLiteral(s: string, start: nat, end: nat)
    requires start <= end <= |s|
    ensures start == end ==> Quote(s, start, end) == []
    ensures LiteralText(Quote(s, start, end)) == Some(s[start..end])
    ensures Groups(Quote(s, start, end)) == 0 && Closed(Quote(s, start, end))
  {
    if start == end {
      assert s[start..end] == [];
    } else {
      QuotedIsLiteral(s[start..end]);
    }
  }

  /** The text of the quoted example, assembled from its parts. */
  lemma QuoteExampleText()
    ensures QuoteOpen + (@"/aa/bb/c" + Reopen + "c") + QuoteClose == @"\Q/aa/bb/c\E\\E\Qc\E"
  {
    var q := QuoteOpen + (@"/aa/bb/c" + Reopen + "c") + QuoteClose;
    var expected := @"\Q/aa/bb/c\E\\E\Qc\E";
    assert |q| == |expected|;
    assert forall i :: 0 <= i < |q| ==> q[i] == expected[i];
  }

  /** The example of path/ant_matcher_test.go: `/aa/bb/c\Ec`. */
  lemma QuoteExample()
    ensures Quoted(@"/aa/bb/c\Ec") == @"\Q/aa/bb/c\E\\E\Qc\E"
  {
    var s := @"/aa/bb/c\Ec";
    assert s[8..10] == QuoteClose;
    forall i | 0 <= i < 8 ensures !OccursAt(s, QuoteClose, i) {
      assert s[i] != '\\';
      assert s[i..i + 2][0] == s[i];
    }
    assert IsFirstFrom(s, QuoteClose, 0, 8);
    FirstFromUnique(s, QuoteClose, 0, 8, FindFrom(s, QuoteClose, 0));
    assert FindFrom(s, QuoteClose, 10) == -1;
    assert Pieces(s) == [s[0..8]] + [s[10..]];
    assert s[0..8] == @"/aa/bb/c" && s[10..] == "c";
    assert JoinWith(Pieces(s), Reopen) == @"/aa/bb/c" + Reopen + "c";
    QuoteExampleText();
  }
}
