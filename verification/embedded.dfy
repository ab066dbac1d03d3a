/** PHP code embedded in a Blade template: dynamic component parameters, the
    inner content of echo tags and the second argument of `@section`. The
    command pre-filters the text with a regular expression, wraps it into a
    one-statement PHP script, re-parses it, and takes argument 0 of the
    outermost call (src/Commands/Translate.php:297-333, 342-383, 386-419). */
module Embedded {
  import opened Text
  import opened Wrappers
  import opened PhpAst
  import ShortKey

  /** The exceptions that escape the key extraction. */
  datatype ExtractError =
    | PhpFileParseError(path: string)  // the parser rejects a PHP file
    | SnippetParseError(code: string)  // the parser rejects a wrapped snippet
    | NoStatement(code: string)        // `$ast[0]` on an empty statement list
    | NoArgument(code: string)         // `$arguments[0]` on a call without arguments

  /** The PHP parser applied to a wrapped snippet; `None` is a parse error. */
  type SnippetParser = string -> Option<seq<PhpNode>>

  // ---------------------------------------------------------------------------
  // Pre-filter: `preg_match("/" . $function . "\s*\(\s*(\"|')/", $content)`
  // ---------------------------------------------------------------------------

  /** The pattern matches at position `p`: the name, optional `\s`, an opening
      parenthesis, optional `\s`, then a quote. `\s*` stops at the first
      non-space; neither `(` nor a quote is a space, so no backtracking helps. */
  predicate CallOpensAt(s: string, f: string, p: nat)
    requires p <= |s|
  {
    && StartsWith(s[p..], f)
    && var a := SkipSpaces(s, p + |f|);
       && a < |s| && s[a] == '('
       && var b := SkipSpaces(s, a + 1);
          b < |s| && IsQuote(s[b])
  }

  predicate MentionsCall(s: string, f: string) {
    exists p | 0 <= p <= |s| :: CallOpensAt(s, f, p)
  }

  /** The same pattern read as a regular expression: some position holds the
      name, some later `(` follows it across spaces only, and some later quote
      follows that across spaces only. */
  ghost predicate CallPatternMatches(s: string, f: string) {
    exists p | 0 <= p :: NameAt(s, f, p) && OpenAfter(s, p + |f|)
  }

  ghost predicate NameAt(s: string, f: string, p: nat) {
    p + |f| <= |s| && s[p..p + |f|] == f
  }

  /** `\s*\(\s*["']` matches from position `i`. */
  ghost predicate OpenAfter(s: string, i: nat) {
    exists a | i <= a < |s| :: AllSpace(s[i..a]) && s[a] == '(' && QuoteAfter(s, a + 1)
  }

  /** `\s*["']` matches from position `i`. */
  ghost predicate QuoteAfter(s: string, i: nat) {
    exists b | i <= b < |s| :: AllSpace(s[i..b]) && IsQuote(s[b])
  }

  lemma {:induction false} SkipSpacesStopsAt(s: string, i: nat, a: nat)
    requires i <= a < |s|
    requires AllSpace(s[i..a]) && !IsSpace(s[a])
    ensures SkipSpaces(s, i) == a
    decreases a - i
  {
    if i < a {
      assert IsSpace(s[i..a][0]);
      assert s[i + 1..a] == s[i..a][1..];
      SkipSpacesStopsAt(s, i + 1, a);
    }
  }

  lemma ScanMatchIsPatternMatch(s: string, f: string, p: nat)
    requires p <= |s| && CallOpensAt(s, f, p)
    ensures CallPatternMatches(s, f)
  {
    var a := SkipSpaces(s, p + |f|);
    var b := SkipSpaces(s, a + 1);
    assert QuoteAfter(s, a + 1);
    assert OpenAfter(s, p + |f|);
    assert s[p..p + |f|] == s[p..][..|f|];
    assert NameAt(s, f, p);
  }

  lemma SplitIsScanMatch(s: string, f: string, p: nat, a: nat, b: nat)
    requires p + |f| <= a < b < |s|
    requires s[p..p + |f|] == f
    requires AllSpace(s[p + |f|..a]) && s[a] == '('
    requires AllSpace(s[a + 1..b]) && IsQuote(s[b])
    ensures CallOpensAt(s, f, p)
  {
    SkipSpacesStopsAt(s, p + |f|, a);
    SkipSpacesStopsAt(s, a + 1, b);
    assert s[p..][..|f|] == s[p..p + |f|];
  }

  lemma PatternMatchIsScanMatch(s: string, f: string)
    requires CallPatternMatches(s, f)
    ensures MentionsCall(s, f)
  {
    var p :| 0 <= p && NameAt(s, f, p) && OpenAfter(s, p + |f|);
    var a :| p + |f| <= a < |s| && AllSpace(s[p + |f|..a]) && s[a] == '(' && QuoteAfter(s, a + 1);
    var b :| a + 1 <= b < |s| && AllSpace(s[a + 1..b]) && IsQuote(s[b]);
    SplitIsScanMatch(s, f, p, a, b);
  }

  /** The greedy scan finds a match exactly when the regular expression does. */
  lemma MentionsCallIffPattern(s: string, f: string)
    ensures MentionsCall(s, f) <==> CallPatternMatches(s, f)
  {
    if MentionsCall(s, f) {
      var p :| 0 <= p <= |s| && CallOpensAt(s, f, p);
      ScanMatchIsPatternMatch(s, f, p);
    }
    if CallPatternMatches(s, f) {
      PatternMatchIsScanMatch(s, f);
    }
  }

  // ---------------------------------------------------------------------------
  // Rewrite: `"<?php " . preg_replace('/^({{|{!!)|(!!}|}})$/', "", $content)`
  // followed by `;` (`preg_match("/\s*;\s*^/", $code)` never matches: `^`
  // cannot follow the `;` it has consumed, so the `;` is always appended).
  // ---------------------------------------------------------------------------

  /** Removes a closing `!!}` or `}}` at the end of `r`, or just before a final
      line feed (where `$` also matches). */
  function StripClosing(r: string): string {
    var body := if |r| > 0 && r[|r| - 1] == '\n' then r[..|r| - 1] else r;
    var tail := r[|body|..];
    if EndsWith(body, "!!}") then body[..|body| - 3] + tail
    else if EndsWith(body, "}}") then body[..|body| - 2] + tail
    else r
  }

  /** Removes one opening `{{` or `{!!` at the start and one closing delimiter
      after it; both alternatives of the pattern are replaced in one pass. */
  function StripDelimiters(s: string): string {
    var lead := if StartsWith(s, "{{") then 2 else if StartsWith(s, "{!!") then 3 else 0;
    StripClosing(s[lead..])
  }

  /** An expression wrapped in any of the echo delimiters comes back unchanged. */
  lemma StripDelimitersRoundTrip(open: string, e: string, close: string)
    requires open in ["{{", "{!!"] && close in ["}}", "!!}"]
    ensures StripDelimiters(open + e + close) == e
  {
    assert open + e + close == open + (e + close);
    OpeningIsStripped(open, e + close);
    ClosingIsStripped(e, close);
  }

  lemma OpeningIsStripped(open: string, r: string)
    requires open in ["{{", "{!!"]
    ensures StripDelimiters(open + r) == StripClosing(r)
  {
    var s := open + r;
    assert s[..|open|] == open;
    if open == "{{" {
      assert StartsWith(s, "{{");
    } else {
      assert !StartsWith(s, "{{") by { assert s[1] == '!'; }
      assert StartsWith(s, "{!!");
    }
    assert s[|open|..] == r;
  }

  lemma ClosingIsStripped(e: string, close: string)
    requires close in ["}}", "!!}"]
    ensures StripClosing(e + close) == e
  {
    var r := e + close;
    assert r[|r| - 1] == '}';
    assert r[|r| - |close|..] == close;
    if close == "}}" {
      assert !EndsWith(r, "!!}") by {
        assert r[|r| - 2] == '}';
      }
    }
    assert r[..|r| - |close|] == e;
    assert r[|r|..] == [];
  }

  /** A bare expression, with no delimiter at either end, comes back unchanged. */
  lemma StripDelimitersKeepsBare(e: string)
    requires !StartsWith(e, "{{") && !StartsWith(e, "{!!")
    requires !EndsWith(e, "}}") && !EndsWith(e, "!!}")
    requires !EndsWith(e, "}}\n") && !EndsWith(e, "!!}\n")
    ensures StripDelimiters(e) == e
  {
    assert e[0..] == e;
  }

  /** The script handed to the parser. */
  function SnippetCode(content: string): string {
    "<?php " + StripDelimiters(content) + ";"
  }

  // ---------------------------------------------------------------------------
  // Re-parse and take argument 0 of the outermost call of the first statement.
  // ---------------------------------------------------------------------------

  /** `None` when the first statement is not an expression statement holding a
      function call, or when that call's argument 0 is not a string literal.
      The callee's name is not looked at. */
  function SnippetKey(code: string, reparse: SnippetParser): (r: Result<Option<string>, ExtractError>)
    ensures r.Failure? <==>
      || reparse(code).None?
      || |reparse(code).value| == 0
      || (reparse(code).value[0].ExpressionStmt? && reparse(code).value[0].expr.FuncCall?
          && |reparse(code).value[0].expr.args| == 0)
    ensures reparse(code).None? ==> r == Failure(SnippetParseError(code))
    ensures r.Success? && r.value.Some? <==>
      && reparse(code).Some? && |reparse(code).value| > 0
      && reparse(code).value[0].ExpressionStmt?
      && reparse(code).value[0].expr.FuncCall?
      && |reparse(code).value[0].expr.args| > 0
      && reparse(code).value[0].expr.args[0].StringLit?
    ensures r.Success? && r.value.Some? ==>
      StringLit(r.value.value) == reparse(code).value[0].expr.args[0]
  {
    match reparse(code)
    case None => Failure(SnippetParseError(code))
    case Some(stmts) =>
      if |stmts| == 0 then Failure(NoStatement(code))
      else match stmts[0]
        case ExpressionStmt(FuncCall(_, args)) =>
          if |args| == 0 then Failure(NoArgument(code))
          else if args[0].StringLit? then Success(Some(args[0].value))
          else Success(None)
        case _ => Success(None)
  }

  /** A found key is pushed unless it is a short key. */
  function Kept(key: Option<string>): seq<string> {
    match key
    case Some(k) => if ShortKey.LangKeyIsShortKey(k) then [] else [k]
    case None => []
  }

  /** Component parameters and echo content: for each of `__`, `trans` and
      `trans_choice`, in that order, whose call the pre-filter sees, the same
      snippet is re-parsed and its key pushed. */
  function EmbeddedKeys(content: string, reparse: SnippetParser): Result<seq<string>, ExtractError> {
    EmbeddedKeysFor(content, TranslationFunctions, reparse)
  }

  /** The per-name loop of an echo tag or component parameter
      (src/Commands/Translate.php:304-337 and 349-382). */
  function EmbeddedKeysFor(content: string, functions: seq<string>, reparse: SnippetParser)
    : Result<seq<string>, ExtractError>
  {
    if |functions| == 0 then Success([])
    else
      var here :-
        if MentionsCall(content, functions[0]) then
          var key :- SnippetKey(SnippetCode(content), reparse);
          Success(Kept(key))
        else Success([]);
      var rest :- EmbeddedKeysFor(content, functions[1..], reparse);
      Success(here + rest)
  }

  /** How many of the names the pre-filter sees in `content`. */
  function MentionCount(content: string, functions: seq<string>): (n: nat)
    ensures n <= |functions|
  {
    if |functions| == 0 then 0
    else (if MentionsCall(content, functions[0]) then 1 else 0) + MentionCount(content, functions[1..])
  }

  function Repeat(ks: seq<string>, n: nat): seq<string> {
    if n == 0 then [] else ks + Repeat(ks, n - 1)
  }

  /** The per-name loop amounts to: no re-parse at all when no name is seen;
      otherwise one re-parse whose failure escapes and whose kept key is pushed
      once per name seen. */
  lemma {:induction false} EmbeddedKeysForIsOneReparse(content: string, functions: seq<string>, reparse: SnippetParser)
    ensures var n := MentionCount(content, functions);
      EmbeddedKeysFor(content, functions, reparse) ==
        if n == 0 then Success([])
        else match SnippetKey(SnippetCode(content), reparse)
          case Failure(e) => Failure(e)
          case Success(key) => Success(Repeat(Kept(key), n))
  {
    if |functions| > 0 {
      EmbeddedKeysForIsOneReparse(content, functions[1..], reparse);
      var m := MentionCount(content, functions[1..]);
      var sk := SnippetKey(SnippetCode(content), reparse);
      var rest := EmbeddedKeysFor(content, functions[1..], reparse);
      if MentionsCall(content, functions[0]) {
        if sk.Success? {
          if m == 0 {
            assert rest == Success([]);
            assert Repeat(Kept(sk.value), 1) == Kept(sk.value) + [];
          } else {
            assert rest == Success(Repeat(Kept(sk.value), m));
          }
        }
      } else {
        if m == 0 {
          assert rest == Success([]);
          assert Success([] + []) == EmbeddedKeysFor(content, functions, reparse);
        } else if sk.Success? {
          assert rest == Success(Repeat(Kept(sk.value), m));
          assert [] + rest.value == rest.value;
        }
      }
    }
  }

  /** The key of the outermost call is taken whatever that call is named, as
      soon as the pre-filter sees a translation call somewhere in the text:
      `{{ sprintf('%s', __('Hello')) }}` yields `%s`. */
  lemma OuterCallNameIsNotChecked(content: string, reparse: SnippetParser, f: string, callee: Callee, v: string, rest: seq<PhpNode>)
    requires f in TranslationFunctions && MentionsCall(content, f)
    requires reparse(SnippetCode(content)) == Some([ExpressionStmt(FuncCall(callee, [StringLit(v)] + rest))])
    requires !ShortKey.LangKeyIsShortKey(v)
    ensures EmbeddedKeys(content, reparse).Success?
    ensures var ks := EmbeddedKeys(content, reparse).value;
      |ks| > 0 && forall k :: k in ks ==> k == v
  {
    EmbeddedKeysForIsOneReparse(content, TranslationFunctions, reparse);
    MentionCountPositive(content, TranslationFunctions, f);
    RepeatMembers([v], MentionCount(content, TranslationFunctions));
  }

  lemma {:induction false} MentionCountPositive(content: string, functions: seq<string>, f: string)
    requires f in functions && MentionsCall(content, f)
    ensures MentionCount(content, functions) > 0
  {
    if functions[0] != f {
      MentionCountPositive(content, functions[1..], f);
    }
  }

  lemma {:induction false} RepeatMembers(ks: seq<string>, n: nat)
    ensures |Repeat(ks, n)| == n * |ks|
    ensures forall k :: k in Repeat(ks, n) ==> k in ks
  {
    if n > 0 {
      RepeatMembers(ks, n - 1);
    }
  }

  /** A snippet the pre-filter does not flag is never parsed, so it can neither
      fail nor contribute. */
  lemma UnflaggedContentIsSkipped(content: string, reparse: SnippetParser)
    requires forall f :: f in TranslationFunctions ==> !MentionsCall(content, f)
    ensures EmbeddedKeys(content, reparse) == Success([])
  {
    EmbeddedKeysForIsOneReparse(content, TranslationFunctions, reparse);
    if MentionCount(content, TranslationFunctions) > 0 {
      NoMentionCountsZero(content, TranslationFunctions);
    }
  }

  lemma {:induction false} NoMentionCountsZero(content: string, functions: seq<string>)
    requires forall f :: f in functions ==> !MentionsCall(content, f)
    ensures MentionCount(content, functions) == 0
  {
    if |functions| > 0 {
      NoMentionCountsZero(content, functions[1..]);
    }
  }

  // ---------------------------------------------------------------------------
  // `@section` argument 1.
  // ---------------------------------------------------------------------------

  /** `str_starts_with(ltrim($content), $function)` for one of the names. */
  predicate SectionMentionsCall(content: string) {
    exists f | f in TranslationFunctions :: StartsWith(Ltrim(content), f)
  }

  /** A section's content is re-parsed once when its left-trimmed text starts
      with one of the names. */
  function SectionKeys(content: string, reparse: SnippetParser): (r: Result<seq<string>, ExtractError>)
    ensures !SectionMentionsCall(content) ==> r == Success([])
    ensures r.Success? ==> |r.value| <= 1
    ensures r.Success? && |r.value| == 1 ==>
      && SnippetKey(SnippetCode(content), reparse) == Success(Some(r.value[0]))
      && !ShortKey.LangKeyIsShortKey(r.value[0])
    ensures SectionMentionsCall(content) ==>
      r == match SnippetKey(SnippetCode(content), reparse)
        case Failure(e) => Failure(e)
        case Success(k) => Success(Kept(k))
  {
    if SectionMentionsCall(content) then
      var key :- SnippetKey(SnippetCode(content), reparse);
      Success(Kept(key))
    else Success([])
  }

  /** A section flagged by its prefix test whose text mentions exactly one
      name behaves like an echo tag with the same text: the same key, or the
      same failure. */
  lemma SectionAgreesWithEcho(content: string, reparse: SnippetParser)
    requires SectionMentionsCall(content)
    requires MentionCount(content, TranslationFunctions) == 1
    ensures SectionKeys(content, reparse) == EmbeddedKeys(content, reparse)
  {
    EmbeddedKeysForIsOneReparse(content, TranslationFunctions, reparse);
    var sk := SnippetKey(SnippetCode(content), reparse);
    if sk.Success? {
      var ks := Kept(sk.value);
      assert Repeat(ks, 1) == ks + Repeat(ks, 0) == ks + [] == ks;
      assert SectionKeys(content, reparse) == Success(ks);
    }
  }

  /** Because `trans_choice` starts with `trans`, the section test reduces to
      two prefixes. */
  lemma SectionTestIsTwoPrefixes(content: string)
    ensures SectionMentionsCall(content) <==>
      StartsWith(Ltrim(content), "__") || StartsWith(Ltrim(content), "trans")
  {
    StartsWithSomeNameIsTwoPrefixes(Ltrim(content));
  }

  lemma StartsWithSomeNameIsTwoPrefixes(t: string)
    ensures (exists f | f in TranslationFunctions :: StartsWith(t, f)) <==>
      StartsWith(t, "__") || StartsWith(t, "trans")
  {
    forall f | f in TranslationFunctions && StartsWith(t, f)
      ensures StartsWith(t, "__") || StartsWith(t, "trans")
    {
      if f == "trans_choice" {
        ChoiceStartsWithTrans(t);
      }
    }
    assert "__" in TranslationFunctions && "trans" in TranslationFunctions;
  }

  lemma ChoiceStartsWithTrans(t: string)
    requires StartsWith(t, "trans_choice")
    ensures StartsWith(t, "trans")
  {
    assert "trans_choice"[..5] == "trans";
    PrefixOfPrefix(t, "trans_choice", "trans");
  }

  lemma PrefixOfPrefix(t: string, longer: string, shorter: string)
    requires StartsWith(t, longer) && StartsWith(longer, shorter)
    ensures StartsWith(t, shorter)
  {
    assert t[..|shorter|] == t[..|longer|][..|shorter|];
  }
}
