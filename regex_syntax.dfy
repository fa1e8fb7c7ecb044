/**
 * A reading of the part of Go's regular-expression syntax (RE2) that the
 * segment translator emits: plain characters, backslash escapes, `\Q...\E`
 * quoted runs and parentheses. It is the reference against which the quoting
 * and the translation are proved; it is not a regular-expression engine.
 */
module RegexSyntax {
  import opened Wrappers
  import opened AntStrings

  /** Opens a quoted run: everything up to the next `\E` is literal text. */
  const QuoteOpen: string := @"\Q"
  /** Closes a quoted run. */
  const QuoteClose: string := @"\E"

  /** Characters with a meaning of their own outside a quoted run. */
  predicate IsMeta(c: char) {
    c in @"\.+*?()|[]{}^$"
  }

  function Prepend(p: string, o: Option<string>): Option<string> {
    if o.Some? then Some(p + o.value) else None
  }

  /** Prepending twice is prepending the two parts at once. */
  lemma PrependTwice(a: string, b: string, o: Option<string>)
    ensures Prepend(a, Prepend(b, o)) == Prepend(a + b, o)
  {
    if o.Some? {
      assert a + (b + o.value) == (a + b) + o.value;
    }
  }

  /** The one text that the expression `r` matches when `r` is written with
      literal syntax only (plain characters, escaped metacharacters and quoted
      runs); None when `r` uses anything else. A `\Q` without a closing `\E`
      quotes to the end, as in RE2. */
  function LiteralText(r: string): Option<string>
    decreases |r|
  {
    if r == [] then Some([])
    else if r[0] == '\\' then
      if |r| < 2 then None
      else if r[1] == 'Q' then
        var e := FindFrom(r, QuoteClose, 2);
        if e < 0 then Some(r[2..]) else Prepend(r[2..e], LiteralText(r[e + 2..]))
      else if IsMeta(r[1]) then Prepend([r[1]], LiteralText(r[2..]))
      else None
    else if IsMeta(r[0]) then None
    else Prepend([r[0]], LiteralText(r[1..]))
  }

  /** What follows an opening parenthesis makes it a capturing group: plain
      `(`, or the named forms `(?P<name>` and `(?<name>`. Any other `(?` is a
      non-capturing or flag group. */
  predicate Capturing(y: string) {
    y == [] || y[0] != '?' || (|y| >= 2 && y[1] == '<') || (|y| >= 3 && y[1] == 'P' && y[2] == '<')
  }

  /** Enough of `y` is present to tell which kind of group the parenthesis
      before it opens. */
  predicate HeaderComplete(y: string) {
    |y| >= 1 && (y[0] == '?' ==> |y| >= 2 && (y[1] == 'P' ==> |y| >= 3))
  }

  /** The number of capturing groups `r` opens: each `(` outside a quoted run
      and not escaped that `Capturing` accepts. Character classes are not
      read, so a `(` inside `[...]` is counted too. */
  function Groups(r: string): nat
    decreases |r|
  {
    if r == [] then 0
    else if r[0] == '\\' then
      if |r| < 2 then 0
      else if r[1] == 'Q' then
        var e := FindFrom(r, QuoteClose, 2);
        if e < 0 then 0 else Groups(r[e + 2..])
      else Groups(r[2..])
    else if r[0] == '(' then
      (if Capturing(r[1..]) then 1 else 0) + Groups(r[1..])
    else Groups(r[1..])
  }

  /** Reading `r` with `d` groups already open closes them all: every `)`
      matches an open group, every group header is complete, and the text
      ends outside any escape or quoted run. */
  predicate ClosedAt(r: string, d: nat)
    decreases |r|
  {
    if r == [] then d == 0
    else if r[0] == '\\' then
      |r| >= 2 &&
      if r[1] == 'Q' then
        var e := FindFrom(r, QuoteClose, 2);
        e >= 0 && ClosedAt(r[e + 2..], d)
      else ClosedAt(r[2..], d)
    else if r[0] == '(' then HeaderComplete(r[1..]) && ClosedAt(r[1..], d + 1)
    else if r[0] == ')' then d > 0 && ClosedAt(r[1..], d - 1)
    else ClosedAt(r[1..], d)
  }

  /** `r` has balanced parentheses and ends outside any escape or quoted
      run, so that what follows it is read on its own. */
  predicate Closed(r: string) {
    ClosedAt(r, 0)
  }

  /** Reading a backslash-escaped metacharacter. */
  lemma ReadEscaped(c: char, y: string)
    requires IsMeta(c)
    ensures LiteralText(['\\', c] + y) == Prepend([c], LiteralText(y))
    ensures Groups(['\\', c] + y) == Groups(y)
    ensures Closed(['\\', c] + y) == Closed(y)
  {
    var r := ['\\', c] + y;
    assert r[0] == '\\' && r[1] == c && r[2..] == y;
  }

  /** Reading a plain character. */
  lemma ReadPlain(c: char, y: string)
    requires !IsMeta(c)
    ensures LiteralText([c] + y) == Prepend([c], LiteralText(y))
    ensures Groups([c] + y) == Groups(y)
    ensures Closed([c] + y) == Closed(y)
  {
    var r := [c] + y;
    assert r[0] == c && r[1..] == y;
  }

  /** Any character other than a backslash or a parenthesis opens no group
      and leaves the depth where it was. */
  lemma ReadOrdinary(c: char, y: string, d: nat)
    requires c != '\\' && c != '(' && c != ')'
    ensures Groups([c] + y) == Groups(y)
    ensures ClosedAt([c] + y, d) == ClosedAt(y, d)
  {
    var r := [c] + y;
    assert r[0] == c && r[1..] == y;
  }

  /** The same for a run of such characters. */
  lemma {:induction false} ReadOrdinaryRun(p: string, y: string, d: nat)
    requires forall k :: 0 <= k < |p| ==> p[k] != '\\' && p[k] != '(' && p[k] != ')'
    ensures Groups(p + y) == Groups(y)
    ensures ClosedAt(p + y, d) == ClosedAt(y, d)
    decreases |p|
  {
    if p != [] {
      ReadOrdinaryRun(p[1..], y, d);
      assert p + y == [p[0]] + (p[1..] + y);
      ReadOrdinary(p[0], p[1..] + y, d);
    } else {
      assert p + y == y;
    }
  }

  /** Reading a closing parenthesis inside a group. */
  lemma ReadCloseParen(y: string, d: nat)
    requires d > 0
    ensures Groups(")" + y) == Groups(y)
    ensures ClosedAt(")" + y, d) == ClosedAt(y, d - 1)
  {
    var r := ")" + y;
    assert r[0] == ')' && r[1..] == y;
  }

  /** Reading a parenthesis that opens a capturing group. */
  lemma ReadOpenGroup(y: string, d: nat)
    requires y != [] && y[0] != '?'
    ensures Groups("(" + y) == 1 + Groups(y)
    ensures ClosedAt("(" + y, d) == ClosedAt(y, d + 1)
  {
    var r := "(" + y;
    assert r[0] == '(' && r[1..] == y;
  }

  /** A complete group header keeps its kind whatever follows it. */
  lemma HeaderExtends(y: string, z: string)
    requires HeaderComplete(y)
    ensures HeaderComplete(y + z)
    ensures Capturing(y + z) == Capturing(y)
  {
    assert (y + z)[0] == y[0];
    if |y| >= 2 {
      assert (y + z)[1] == y[1];
    }
    if |y| >= 3 {
      assert (y + z)[2] == y[2];
    }
  }

  /** A part that closes the `d` groups open before it, followed by a part
      that closes `k`, closes `d + k`. */
  lemma {:induction false} ReadConcat(a: string, b: string, d: nat, k: nat)
    requires ClosedAt(a, d) && ClosedAt(b, k)
    ensures ClosedAt(a + b, d + k)
    decreases |a|, 1
  {
    if a == [] {
      assert a + b == b;
    } else if a[0] == '\\' {
      ReadConcatEscape(a, b, d, k);
    } else {
      ReadConcatChar(a, b, d, k);
    }
  }

  /** The case of `ReadConcat` where `a` starts with an escape. */
  lemma {:induction false} ReadConcatEscape(a: string, b: string, d: nat, k: nat)
    requires a != [] && a[0] == '\\'
    requires ClosedAt(a, d) && ClosedAt(b, k)
    ensures ClosedAt(a + b, d + k)
    decreases |a|, 0
  {
    assert (a + b)[0] == '\\' && (a + b)[1] == a[1];
    if a[1] == 'Q' {
      var e := FindFrom(a, QuoteClose, 2);
      FindFromPrefix(a, b, QuoteClose, 2);
      assert (a + b)[e + 2..] == a[e + 2..] + b;
      ReadConcat(a[e + 2..], b, d, k);
    } else {
      assert (a + b)[2..] == a[2..] + b;
      ReadConcat(a[2..], b, d, k);
    }
  }

  /** The case of `ReadConcat` where `a` starts with any other character. */
  lemma {:induction false} ReadConcatChar(a: string, b: string, d: nat, k: nat)
    requires a != [] && a[0] != '\\'
    requires ClosedAt(a, d) && ClosedAt(b, k)
    ensures ClosedAt(a + b, d + k)
    decreases |a|, 0
  {
    assert (a + b)[0] == a[0];
    assert (a + b)[1..] == a[1..] + b;
    if a[0] == '(' {
      HeaderExtends(a[1..], b);
      ReadConcat(a[1..], b, d + 1, k);
    } else if a[0] == ')' {
      ReadConcat(a[1..], b, d - 1, k);
    } else {
      ReadConcat(a[1..], b, d, k);
    }
  }

  /** Group counts add up across a left part that reads without breaking
      down. */
  lemma {:induction false} ConcatGroups(a: string, b: string, d: nat)
    requires ClosedAt(a, d)
    ensures Groups(a + b) == Groups(a) + Groups(b)
    decreases |a|
  {
    if a == [] {
      assert a + b == b;
    } else if a[0] == '\\' {
      assert (a + b)[0] == '\\' && (a + b)[1] == a[1];
      if a[1] == 'Q' {
        var e := FindFrom(a, QuoteClose, 2);
        FindFromPrefix(a, b, QuoteClose, 2);
        assert (a + b)[e + 2..] == a[e + 2..] + b;
        ConcatGroups(a[e + 2..], b, d);
      } else {
        assert (a + b)[2..] == a[2..] + b;
        ConcatGroups(a[2..], b, d);
      }
    } else {
      assert (a + b)[0] == a[0];
      assert (a + b)[1..] == a[1..] + b;
      if a[0] == '(' {
        HeaderExtends(a[1..], b);
        ConcatGroups(a[1..], b, d + 1);
      } else if a[0] == ')' {
        ConcatGroups(a[1..], b, d - 1);
      } else {
        ConcatGroups(a[1..], b, d);
      }
    }
  }

  /** Closed parts stay closed when concatenated. */
  lemma ConcatClosed(a: string, b: string)
    requires Closed(a) && Closed(b)
    ensures Closed(a + b)
  {
    ReadConcat(a, b, 0, 0);
  }

  /** `(?P<x>a)` and `(?<x>a)` are named groups, and capture. */
  lemma NamedGroupsCapture()
    ensures Groups("(?P<x>a)") == 1 && Groups("(?<x>a)") == 1
  {
    ReadCloseParen([], 1);
    assert ")" + [] == ")";
    var r1, y1 := "(?P<x>a)", "?P<x>a" + ")";
    assert r1[0] == '(' && r1[1..] == y1 && y1[1] == 'P' && y1[2] == '<';
    ReadOrdinaryRun("?P<x>a", ")", 0);
    var r2, y2 := "(?<x>a)", "?<x>a" + ")";
    assert r2[0] == '(' && r2[1..] == y2 && y2[1] == '<';
    ReadOrdinaryRun("?<x>a", ")", 0);
  }

  /** `(?:a)` is closed and captures nothing. */
  lemma NonCapturingGroup()
    ensures Groups("(?:a)") == 0 && Closed("(?:a)")
  {
    ReadCloseParen([], 1);
    assert ")" + [] == ")";
    var r, y := "(?:a)", "?:a" + ")";
    assert r[0] == '(' && r[1..] == y && y[1] == ':';
    ReadOrdinaryRun("?:a", ")", 1);
  }

  /** A stray `)` or an unclosed `(` is not closed. */
  lemma Unbalanced()
    ensures !Closed(")") && !Closed("(a")
  {
    assert ")"[0] == ')';
    var r := "(a";
    assert r[0] == '(' && r[1..] == "a" && "a"[0] == 'a' && "a"[1..] == [];
  }
}
