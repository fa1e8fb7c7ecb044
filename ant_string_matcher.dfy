/**
 * The segment translator and capture binding of path/ant_matcher.go
 * (`newStringMatcher` and `AntPathStringMatcher.MatchStrings`).
 *
 * The Go code relies on the `regexp` package twice: to find the `?`, `*` and
 * `{...}` tokens of a pattern segment, and to match the compiled expression
 * against a path segment. Both are inputs here: the tokens are given as the
 * spans the token scanner reports, and a match is given as the list
 * `FindStringSubmatch` would return (None when there is no match).
 */
module AntStringMatcher {
  import opened Wrappers
  import opened AntStrings
  import opened RegexSyntax
  import opened AntQuote

  /** The expression a `{name}` variable stands for. */
  const DefaultVariablePattern: string := "(.*)"

  /** The position of one token in the pattern: `pattern[start..end]`. */
  datatype Span = Span(start: nat, end: nat)

  /** Where the literal gap before token `i` begins: the end of the token
      before it, or the start of the pattern. */
  function EndOf(spans: seq<Span>, i: nat): nat
    requires i <= |spans|
  {
    if i == 0 then 0 else spans[i - 1].end
  }

  /** What the token scanner guarantees: tokens inside the pattern, in order
      and without overlap. */
  predicate ValidSpans(pattern: string, spans: seq<Span>) {
    && (forall k :: 0 <= k < |spans| ==> spans[k].start <= spans[k].end <= |pattern|)
    && (forall j, k :: 0 <= j < k < |spans| ==> spans[j].end <= spans[k].start)
  }

  /** The kinds of token the translator tells apart. A brace token without a
      colon names a variable matched by `DefaultVariablePattern`; with a colon
      it carries its own expression after the first colon. Any other text
      emits nothing. */
  datatype Token =
    | AnyChar
    | AnyRun
    | Variable(name: string)
    | Custom(name: string, re: string)
    | Other

  /** How `newStringMatcher` reads the text of one token. */
  function Classify(m: string): (t: Token)
    ensures t.Variable? || t.Custom? ==> |m| >= 2 && m[0] == '{' && m[|m| - 1] == '}'
    ensures t.Custom? ==> ':' !in t.name && |t.name| + |t.re| + 3 == |m|
  {
    if m == "?" then AnyChar
    else if m == "*" then AnyRun
    else if |m| >= 2 && m[0] == '{' && m[|m| - 1] == '}' then
      var c := FindFrom(m, ":", 0);
      if c == -1 then Variable(m[1..|m| - 1])
      else
        ColonInside(m, c);
        Custom(m[1..c], m[c + 1..|m| - 1])
    else Other
  }

  /** The first colon of a brace token lies strictly between the braces. */
  lemma ColonInside(m: string, c: int)
    requires |m| >= 2 && m[0] == '{' && m[|m| - 1] == '}'
    requires c == FindFrom(m, ":", 0) && c != -1
    ensures 1 <= c < |m| - 1
    ensures ':' !in m[1..c]
  {
    assert m[c..c + 1] == ":";
    forall i | 0 <= i < |m[1..c]|
      ensures m[1..c][i] != ':'
    {
      assert !OccursAt(m, ":", i + 1);
      assert m[i + 1..i + 2][0] == m[i + 1];
    }
  }

  /** The expression emitted for a token. */
  function TokenRegex(t: Token): string {
    match t
    case AnyChar => "."
    case AnyRun => ".*"
    case Variable(_) => DefaultVariablePattern
    case Custom(_, re) => "(" + re + ")"
    case Other => []
  }

  /** The variable name a token defines, if any. */
  function TokenName(t: Token): seq<string> {
    match t
    case Variable(name) => [name]
    case Custom(name, _) => [name]
    case _ => []
  }

  function TokenAt(pattern: string, s: Span): Token
    requires s.start <= s.end <= |pattern|
  {
    Classify(pattern[s.start..s.end])
  }

  /** The expression text emitted for the first `i` tokens: each literal gap
      quoted, then the token's expression. */
  function Emitted(pattern: string, spans: seq<Span>, i: nat): string
    requires ValidSpans(pattern, spans) && i <= |spans|
  {
    if i == 0 then []
    else
      Emitted(pattern, spans, i - 1)
      + Quote(pattern, EndOf(spans, i - 1), spans[i - 1].start)
      + TokenRegex(TokenAt(pattern, spans[i - 1]))
  }

  /** The variable names defined by the first `i` tokens, left to right. */
  function VariableNames(pattern: string, spans: seq<Span>, i: nat): seq<string>
    requires ValidSpans(pattern, spans) && i <= |spans|
  {
    if i == 0 then []
    else VariableNames(pattern, spans, i - 1) + TokenName(TokenAt(pattern, spans[i - 1]))
  }

  /** The unanchored expression of a whole segment: all tokens, then the
      quoted gap after the last one. */
  function Body(pattern: string, spans: seq<Span>): string
    requires ValidSpans(pattern, spans)
  {
    Emitted(pattern, spans, |spans|) + Quote(pattern, EndOf(spans, |spans|), |pattern|)
  }

  /** The anchored expression `newStringMatcher` compiles. */
  function Source(pattern: string, spans: seq<Span>, caseSensitive: bool): string
    requires ValidSpans(pattern, spans)
  {
    var b := Body(pattern, spans);
    if caseSensitive then "^" + b + "$" else "(?i:^" + b + "$)"
  }

  // ---------------------------------------------------------------------------
  // Groups and names

  /** A custom expression that opens no capturing group of its own (named
      groups included), is closed, uses no character class, and does not turn
      its enclosing parenthesis into a `(?` group. Character classes are
      excluded because the reader does not parse them: in Go a `[` in one
      custom expression can swallow the parentheses emitted after it. */
  predicate PlainRegex(re: string) {
    Closed(re) && Groups(re) == 0 && (re == [] || re[0] != '?') && '[' !in re
  }

  predicate TokenIsPlain(t: Token) {
    t.Custom? ==> PlainRegex(t.re)
  }

  /** None of the first `i` tokens carries a custom expression with groups
      of its own. */
  predicate PlainCustoms(pattern: string, spans: seq<Span>, i: nat)
    requires ValidSpans(pattern, spans) && i <= |spans|
  {
    i == 0 || (PlainCustoms(pattern, spans, i - 1) && TokenIsPlain(TokenAt(pattern, spans[i - 1])))
  }

  /** A named group in a custom expression is a group of its own, so such a
      token is not plain. */
  lemma NamedGroupIsNotPlain()
    ensures !PlainRegex("(?P<x>a)") && !PlainRegex("(?<x>a)")
  {
    NamedGroupsCapture();
  }

  /** `(.*)`, the expression of a variable, is closed and opens one group. */
  lemma DefaultPatternGroups()
    ensures Closed(DefaultVariablePattern) && Groups(DefaultVariablePattern) == 1
  {
    ReadCloseParen([], 1);
    ReadOrdinaryRun(".*", ")", 1);
    assert ")" + [] == ")";
    assert DefaultVariablePattern == "(" + (".*" + ")");
    ReadOpenGroup(".*" + ")", 0);
  }

  /** `(re)` for a plain custom expression is closed and opens one group. */
  lemma CustomGroups(re: string)
    requires PlainRegex(re)
    ensures Closed("(" + re + ")") && Groups("(" + re + ")") == 1
  {
    ReadCloseParen([], 1);
    assert ")" + [] == ")";
    ReadConcat(re, ")", 0, 1);
    ConcatGroups(re, ")", 0);
    assert "(" + re + ")" == "(" + (re + ")");
    ReadOpenGroup(re + ")", 0);
  }

  /** Each token's expression is closed and opens exactly one group per
      variable name it defines. */
  lemma TokenRegexGroups(t: Token)
    requires TokenIsPlain(t)
    ensures Closed(TokenRegex(t))
    ensures Groups(TokenRegex(t)) == |TokenName(t)|
  {
    match t
    case AnyChar =>
      ReadOrdinaryRun(".", [], 0);
      assert "." + [] == ".";
    case AnyRun =>
      ReadOrdinaryRun(".*", [], 0);
      assert ".*" + [] == ".*";
    case Variable(_) =>
      DefaultPatternGroups();
    case Custom(_, re) =>
      CustomGroups(re);
    case Other =>
  }

  /** Three closed parts in a row make a closed whole whose groups add up. */
  lemma ConcatThree(a: string, b: string, c: string)
    requires Closed(a) && Closed(b) && Closed(c)
    ensures Closed(a + b + c)
    ensures Groups(a + b + c) == Groups(a) + Groups(b) + Groups(c)
  {
    ConcatGroups(a, b, 0);
    ConcatClosed(a, b);
    ConcatGroups(a + b, c, 0);
    ConcatClosed(a + b, c);
  }

  /** One round of the translation loop: the gap before token `i - 1` and its
      expression are appended, and its name, if any, is recorded. */
  lemma EmittedStep(pattern: string, spans: seq<Span>, i: nat)
    requires ValidSpans(pattern, spans) && 0 < i <= |spans|
    ensures Emitted(pattern, spans, i) == Emitted(pattern, spans, i - 1)
      + Quote(pattern, EndOf(spans, i - 1), spans[i - 1].start) + TokenRegex(TokenAt(pattern, spans[i - 1]))
    ensures VariableNames(pattern, spans, i) == VariableNames(pattern, spans, i - 1) + TokenName(TokenAt(pattern, spans[i - 1]))
  {
  }

  /** The first `i` tokens emit a closed expression with one capturing group
      per variable name, provided no custom expression has groups of its
      own. */
  lemma {:induction false} EmittedGroups(pattern: string, spans: seq<Span>, i: nat)
    requires ValidSpans(pattern, spans) && i <= |spans|
    requires PlainCustoms(pattern, spans, i)
    ensures Closed(Emitted(pattern, spans, i))
    ensures Groups(Emitted(pattern, spans, i)) == |VariableNames(pattern, spans, i)|
  {
    if i > 0 {
      var s := spans[i - 1];
      var t := TokenAt(pattern, s);
      EmittedGroups(pattern, spans, i - 1);
      TokenRegexGroups(t);
      QuoteIsLiteral(pattern, EndOf(spans, i - 1), s.start);
      ConcatThree(Emitted(pattern, spans, i - 1), Quote(pattern, EndOf(spans, i - 1), s.start), TokenRegex(t));
      EmittedStep(pattern, spans, i);
    }
  }

  /** The whole segment expression is closed and has one capturing group per
      variable name. */
  lemma BodyGroups(pattern: string, spans: seq<Span>)
    requires ValidSpans(pattern, spans)
    requires PlainCustoms(pattern, spans, |spans|)
    ensures Closed(Body(pattern, spans))
    ensures Groups(Body(pattern, spans)) == |VariableNames(pattern, spans, |spans|)|
  {
    var e := Emitted(pattern, spans, |spans|);
    var gap := Quote(pattern, EndOf(spans, |spans|), |pattern|);
    EmittedGroups(pattern, spans, |spans|);
    QuoteIsLiteral(pattern, EndOf(spans, |spans|), |pattern|);
    ConcatGroups(e, gap, 0);
    ConcatClosed(e, gap);
  }

  /** The anchors `^` and `$` add no group. */
  lemma AnchoredGroups(b: string)
    requires Closed(b)
    ensures Groups("^" + b + "$") == Groups(b)
  {
    ReadOrdinaryRun("$", [], 0);
    assert "$" + [] == "$";
    ConcatGroups(b, "$", 0);
    ReadOrdinaryRun("^", b + "$", 0);
    assert "^" + b + "$" == "^" + (b + "$");
  }

  /** The case-insensitive wrapping `(?i:...)` is a flag group and adds no
      capturing group either. */
  lemma CaseInsensitiveGroups(b: string)
    requires Closed(b)
    ensures Groups("(?i:^" + b + "$)") == Groups(b)
  {
    ReadCloseParen([], 1);
    ReadOrdinaryRun("$", ")", 0);
    assert ")" + [] == ")";
    assert "$)" == "$" + ")";
    ConcatGroups(b, "$)", 0);
    ReadOrdinaryRun("?i:^", b + "$)", 0);
    var r := "(?i:^" + b + "$)";
    assert r == "(" + ("?i:^" + (b + "$)"));
    assert r[0] == '(' && r[1..] == "?i:^" + (b + "$)");
    assert r[1..][0] == '?' && r[1..][1] == 'i';
  }

  /** The compiled expression has exactly as many capturing groups as the
      matcher has variable names, whatever the case setting, provided no
      custom expression has groups of its own. This is what keeps
      `MatchStrings` from reporting a mismatch. */
  lemma SourceGroupsMatchNames(pattern: string, spans: seq<Span>, caseSensitive: bool)
    requires ValidSpans(pattern, spans)
    requires PlainCustoms(pattern, spans, |spans|)
    ensures Groups(Source(pattern, spans, caseSensitive)) == |VariableNames(pattern, spans, |spans|)|
  {
    var b := Body(pattern, spans);
    BodyGroups(pattern, spans);
    if caseSensitive {
      AnchoredGroups(b);
    } else {
      CaseInsensitiveGroups(b);
    }
  }

  /** A segment without tokens compiles to an expression that matches the
      segment's text literally. */
  lemma NoTokensIsLiteral(pattern: string)
    ensures LiteralText(Body(pattern, [])) == Some(pattern)
  {
    assert Emitted(pattern, [], 0) == [];
    assert Body(pattern, []) == Quote(pattern, 0, |pattern|);
    QuoteIsLiteral(pattern, 0, |pattern|);
    assert pattern[0..|pattern|] == pattern;
  }

  /** A brace token without a colon names the variable between the braces. */
  lemma ClassifyVariable(m: string)
    requires |m| >= 2 && m[0] == '{' && m[|m| - 1] == '}'
    requires forall k :: 0 <= k < |m| ==> m[k] != ':'
    ensures Classify(m) == Variable(m[1..|m| - 1])
  {
    forall i | 0 <= i
      ensures !OccursAt(m, ":", i)
    {
      if i + 1 <= |m| {
        assert m[i..i + 1][0] == m[i];
      }
    }
    assert IsFirstFrom(m, ":", 0, -1);
    FirstFromUnique(m, ":", 0, -1, FindFrom(m, ":", 0));
  }

  /** The two tokens of the segment of path/ant_matcher_test.go,
      "/aa/bb/cc/{ab}/{cd}", are the variables `ab` and `cd`. */
  lemma ExampleTokens()
    ensures "/aa/bb/cc/{ab}/{cd}"[10..14] == "{ab}" && Classify("{ab}") == Variable("ab")
    ensures "/aa/bb/cc/{ab}/{cd}"[15..19] == "{cd}" && Classify("{cd}") == Variable("cd")
  {
    ClassifyVariable("{ab}");
    assert "{ab}"[1..3] == "ab";
    ClassifyVariable("{cd}");
    assert "{cd}"[1..3] == "cd";
  }

  /** On that segment the names come out in order. */
  lemma VariableNamesExample()
    ensures ValidSpans("/aa/bb/cc/{ab}/{cd}", [Span(10, 14), Span(15, 19)])
    ensures VariableNames("/aa/bb/cc/{ab}/{cd}", [Span(10, 14), Span(15, 19)], 2) == ["ab", "cd"]
  {
    ExampleTokens();
  }

  /** The token `{id:(a)}` carries the custom expression `(a)`. */
  lemma ClassifyCustomExample()
    ensures Classify("{id:(a)}") == Custom("id", "(a)")
  {
    var m := "{id:(a)}";
    assert OccursAt(m, ":", 3) by {
      assert m[3..4] == ":";
    }
    forall i | 0 <= i < 3
      ensures !OccursAt(m, ":", i)
    {
      assert m[i..i + 1][0] == m[i];
    }
    assert IsFirstFrom(m, ":", 0, 3);
    FirstFromUnique(m, ":", 0, 3, FindFrom(m, ":", 0));
    assert m[1..3] == "id" && m[4..7] == "(a)";
  }

  /** `((a))` opens two capturing groups. */
  lemma TwoGroups()
    ensures Groups("((a))") == 2
  {
    ReadCloseParen([], 1);
    ReadCloseParen(")", 1);
    assert ")" + [] == ")";
    ReadOrdinaryRun("a", "))", 0);
    assert "(a))" == "(" + ("a" + "))");
    ReadOpenGroup("a" + "))", 0);
    assert "((a))" == "(" + "(a))";
    ReadOpenGroup("(a))", 0);
  }

  /** A custom expression with a capturing group of its own, `{id:(a)}`: the
      compiled expression has two groups for one name, which is the mismatch
      `MatchStrings` reports. */
  lemma CapturingCustomMismatch()
    ensures ValidSpans("{id:(a)}", [Span(0, 8)])
    ensures |VariableNames("{id:(a)}", [Span(0, 8)], 1)| == 1
    ensures Body("{id:(a)}", [Span(0, 8)]) == "((a))"
    ensures Groups(Body("{id:(a)}", [Span(0, 8)])) == 2
  {
    var m := "{id:(a)}";
    var spans := [Span(0, 8)];
    assert TokenAt(m, spans[0]) == Custom("id", "(a)") by {
      assert m[0..8] == m;
      ClassifyCustomExample();
    }
    assert Emitted(m, spans, 1) == "((a))" by {
      assert Emitted(m, spans, 0) == [];
      assert Quote(m, 0, 0) == [];
    }
    assert Quote(m, 8, 8) == [];
    TwoGroups();
  }

  // ---------------------------------------------------------------------------
  // Capture binding

  /** The message of the group-count error. */
  function MismatchMessage(source: string): string {
    "The number of capturing groups in the pattern segment " + source
    + " does not match the number of URI template variables it defines, "
    + "which can occur if capturing groups are used in a URI template regex. "
    + "Use non-capturing groups instead."
  }

  /** The map after writing `names[i] := values[i]` for each `i` in turn. */
  function Bind(m: map<string, string>, names: seq<string>, values: seq<string>): map<string, string>
    requires |names| == |values|
    decreases |names|
  {
    if names == [] then m
    else Bind(m, names[..|names| - 1], values[..|values| - 1])[names[|names| - 1] := values[|values| - 1]]
  }

  /** A key no name mentions keeps its entry, or stays absent. */
  lemma {:induction false} BindKeepsOthers(m: map<string, string>, names: seq<string>, values: seq<string>, k: string)
    requires |names| == |values|
    requires k !in names
    ensures k in Bind(m, names, values) <==> k in m
    ensures k in m ==> Bind(m, names, values)[k] == m[k]
    decreases |names|
  {
    if names != [] {
      var n := |names| - 1;
      assert names[n] != k;
      assert k !in names[..n];
      BindKeepsOthers(m, names[..n], values[..n], k);
    }
  }

  /** Every name is bound, and to the value of its last occurrence: a later
      duplicate name wins. */
  lemma {:induction false} BindLaterWins(m: map<string, string>, names: seq<string>, values: seq<string>, j: nat)
    requires |names| == |values|
    requires j < |names|
    requires forall l :: j < l < |names| ==> names[l] != names[j]
    ensures names[j] in Bind(m, names, values)
    ensures Bind(m, names, values)[names[j]] == values[j]
    decreases |names|
  {
    var n := |names| - 1;
    if j < n {
      assert names[..n][j] == names[j] && values[..n][j] == values[j];
      assert names[n] != names[j];
      BindLaterWins(m, names[..n], values[..n], j);
    }
  }

  /** Bound keys are exactly the old keys and the names. */
  lemma {:induction false} BindKeys(m: map<string, string>, names: seq<string>, values: seq<string>)
    requires |names| == |values|
    ensures Bind(m, names, values).Keys == m.Keys + set k | k in names
    decreases |names|
  {
    if names != [] {
      var n := |names| - 1;
      BindKeys(m, names[..n], values[..n]);
      assert names == names[..n] + [names[n]];
      assert (set k | k in names) == (set k | k in names[..n]) + {names[n]};
    }
  }

  /** The body of `newStringMatcher`'s loop for one token text `m`: the
      expression it appends and the variable name, if any, it records. */
  method TranslateToken(m: string) returns (regex: string, name: seq<string>)
    ensures regex == TokenRegex(Classify(m))
    ensures name == TokenName(Classify(m))
  {
    regex, name := [], [];
    if m == "?" {
      regex := ".";
    } else if m == "*" {
      regex := ".*";
    } else if |m| >= 2 && m[0] == '{' && m[|m| - 1] == '}' {
      var colonIdx := IndexFrom(m, ":", 0);
      if colonIdx == -1 {
        regex := DefaultVariablePattern;
        name := [m[1..|m| - 1]];
      } else {
        ColonInside(m, colonIdx);
        var variablePattern := m[colonIdx + 1..|m| - 1];
        regex := "(" + variablePattern + ")";
        name := [m[1..colonIdx]];
      }
    }
  }

  /** The URI template variables map a caller hands to `MatchStrings`. */
  class UriTemplateVariables {
    var entries: map<string, string>

    constructor(entries: map<string, string>)
      ensures this.entries == entries
    {
      this.entries := entries;
    }
  }

  /** The matcher of one pattern segment. */
  class AntPathStringMatcher {
    var source: string
    var defaultVariablePattern: string
    var variableNames: seq<string>

    /** Go's `newStringMatcher`, with the token spans the scanner finds in
        `pattern` given as `spans`. */
    constructor(pattern: string, caseSensitive: bool, spans: seq<Span>)
      requires ValidSpans(pattern, spans)
      ensures source == Source(pattern, spans, caseSensitive)
      ensures variableNames == VariableNames(pattern, spans, |spans|)
      ensures defaultVariablePattern == DefaultVariablePattern
    {
      var b := [];
      var names := [];
      var end := 0;
      for i := 0 to |spans|
        invariant end == EndOf(spans, i)
        invariant b == Emitted(pattern, spans, i)
        invariant names == VariableNames(pattern, spans, i)
      {
        b := b + Quote(pattern, end, spans[i].start);
        var regex, name := TranslateToken(pattern[spans[i].start..spans[i].end]);
        b := b + regex;
        names := names + name;
        end := spans[i].end;
      }
      b := b + Quote(pattern, end, |pattern|);
      if caseSensitive {
        source := "^" + b + "$";
      } else {
        source := "(?i:^" + b + "$)";
      }
      defaultVariablePattern := DefaultVariablePattern;
      variableNames := names;
    }

    /** Go's `MatchStrings`. `matches` is what the compiled expression gives
        for the path segment: None when it does not match, otherwise the
        whole match followed by one entry per capturing group. A null `vars`
        is Go's nil map. */
    method MatchStrings(matches: Option<seq<string>>, vars: UriTemplateVariables?)
      returns (matched: bool, err: Option<string>)
      requires matches.Some? ==> |matches.value| >= 1
      modifies vars
      ensures matches.None? ==> !matched && err == None
      ensures matches.Some? && vars == null ==> matched && err == None
      ensures matches.Some? && vars != null && |variableNames| != |matches.value| - 1 ==>
        !matched && err == Some(MismatchMessage(source))
      ensures matches.Some? && vars != null && |variableNames| == |matches.value| - 1 ==>
        matched && err == None
        && vars.entries == Bind(old(vars.entries), variableNames, matches.value[1..])
      ensures vars != null && !(matches.Some? && |variableNames| == |matches.value| - 1) ==>
        vars.entries == old(vars.entries)
    {
      if matches.Some? {
        if vars != null {
          var groups := matches.value;
          if |variableNames| != |groups| - 1 {
            return false, Some(MismatchMessage(source));
          }
          for i := 1 to |groups|
            invariant vars.entries == Bind(old(vars.entries), variableNames[..i - 1], groups[1..i])
          {
            var name := variableNames[i - 1];
            var value := groups[i];
            assert variableNames[..i][..i - 1] == variableNames[..i - 1];
            assert groups[1..i + 1][..i - 1] == groups[1..i];
            vars.entries := vars.entries[name := value];
          }
          assert variableNames[..|groups| - 1] == variableNames;
          assert groups[1..|groups|] == groups[1..];
        }
        return true, None;
      } else {
        return false, None;
      }
    }
  }

  /** The example of path/ant_matcher_test.go: "/aa/bb/cc/{ab}/{cd}" against
      "/aa/bb/cc/123/456" binds `ab` to "123" and `cd` to "456". */
  lemma MatchStringsExample()
    ensures Bind(map[], ["ab", "cd"], ["123", "456"]) == map["ab" := "123", "cd" := "456"]
  {
    assert ["ab", "cd"][..1] == ["ab"] && ["123", "456"][..1] == ["123"];
    assert ["ab"][..0] == [] && ["123"][..0] == [];
  }
}
