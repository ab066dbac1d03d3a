/** Key extraction from a Blade template (src/Commands/Translate.php:259-420):
    `@choice` and `@lang` directives, dynamic component parameters, echo tags
    and `@section` directives, in that order. The template parser is not
    modelled: a template is the flat node list it yields. */
module Blade {
  import opened Text
  import opened Wrappers
  import opened PhpAst
  import opened Embedded
  import Seqs
  import ShortKey

  datatype ParameterType = DynamicVariable | OtherParameter

  /** A component parameter; `value` is its raw text (for `:title="__('x')"`,
      the expression `__('x')`). */
  datatype Parameter = Parameter(kind: ParameterType, value: string)

  /** The nodes of a parsed template. A directive's `arguments` are absent when
      it has no parenthesised list; otherwise they are the raw argument texts. */
  datatype BladeNode =
    | Directive(name: string, arguments: Option<seq<string>>)
    | Component(parameters: seq<Parameter>)
    | Echo(innerContent: string)
    | Comment(text: string)
    | Literal(text: string)

  type Template = seq<BladeNode>

  // ---------------------------------------------------------------------------
  // Directive arguments: `^\s*('|").*('|")\s*$`, then the quotes are stripped.
  // ---------------------------------------------------------------------------

  /** One past the last character that is not `\s`, or 0. */
  function TrimEnd(v: string): (e: nat)
    ensures e <= |v| && AllSpace(v[e..])
    ensures e == 0 || !IsSpace(v[e - 1])
  {
    if |v| > 0 && IsSpace(v[|v| - 1]) then
      var e := TrimEnd(v[..|v| - 1]);
      assert v[e..] == v[..|v| - 1][e..] + [v[|v| - 1]];
      e
    else |v|
  }

  /** The argument, without surrounding spaces, starts and ends with a quote
      (not necessarily the same one) and has no line feed in between. */
  predicate IsQuotedArgument(v: string) {
    var i := SkipSpaces(v, 0);
    var e := TrimEnd(v);
    && i + 2 <= e
    && IsQuote(v[i]) && IsQuote(v[e - 1])
    && forall k | i < k < e - 1 :: v[k] != '\n'
  }

  /** The pattern read as a regular expression: a quote after leading spaces,
      then a closing quote after characters other than a line feed, then only
      spaces (`\s*` also absorbs the line feed before which `$` may match). */
  ghost predicate QuotedArgumentPattern(v: string) {
    exists i | 0 <= i < |v| :: AllSpace(v[..i]) && IsQuote(v[i]) && ClosingQuoteAfter(v, i)
  }

  ghost predicate ClosingQuoteAfter(v: string, i: nat) {
    exists j | i < j < |v| ::
      (forall k | i < k < j :: v[k] != '\n') && IsQuote(v[j]) && AllSpace(v[j + 1..])
  }

  lemma {:induction false} TrimEndStopsAt(v: string, j: nat)
    requires j < |v| && !IsSpace(v[j]) && AllSpace(v[j + 1..])
    ensures TrimEnd(v) == j + 1
    decreases |v|
  {
    if j + 1 < |v| {
      assert IsSpace(v[j + 1..][|v| - j - 2]);
      assert v[..|v| - 1][j + 1..] == v[j + 1..][..|v| - j - 2];
      TrimEndStopsAt(v[..|v| - 1], j);
    }
  }

  /** The trimming test accepts exactly what the pattern matches. */
  lemma QuotedArgumentIffPattern(v: string)
    ensures IsQuotedArgument(v) <==> QuotedArgumentPattern(v)
  {
    if IsQuotedArgument(v) {
      QuotedArgumentMatches(v);
    }
    if QuotedArgumentPattern(v) {
      var i :| 0 <= i < |v| && AllSpace(v[..i]) && IsQuote(v[i]) && ClosingQuoteAfter(v, i);
      MatchIsQuotedArgument(v, i);
    }
  }

  lemma QuotedArgumentMatches(v: string)
    requires IsQuotedArgument(v)
    ensures QuotedArgumentPattern(v)
  {
    var i := SkipSpaces(v, 0);
    var e := TrimEnd(v);
    assert v[..i] == v[0..i];
    assert v[e - 1 + 1..] == v[e..];
    assert ClosingQuoteAfter(v, i);
  }

  lemma MatchIsQuotedArgument(v: string, i: nat)
    requires i < |v| && AllSpace(v[..i]) && IsQuote(v[i]) && ClosingQuoteAfter(v, i)
    ensures IsQuotedArgument(v)
  {
    var j :| i < j < |v| && (forall k | i < k < j :: v[k] != '\n') && IsQuote(v[j]) && AllSpace(v[j + 1..]);
    QuotesAtIsQuotedArgument(v, i, j);
  }

  lemma QuotesAtIsQuotedArgument(v: string, i: nat, j: nat)
    requires i < j < |v| && AllSpace(v[..i]) && IsQuote(v[i]) && IsQuote(v[j]) && AllSpace(v[j + 1..])
    requires forall k | i < k < j :: v[k] != '\n'
    ensures IsQuotedArgument(v)
  {
    assert v[0..i] == v[..i];
    SkipSpacesStopsAt(v, 0, i);
    TrimEndStopsAt(v, j);
  }

  /** `preg_replace("/^(\"|')/", "", $v)`: a quote is removed only when it is
      the very first character. */
  function StripLeadingQuote(v: string): string {
    if |v| > 0 && IsQuote(v[0]) then v[1..] else v
  }

  /** `preg_replace("/(\"|')$/", "", $v)`: a quote is removed when it is the
      last character, or the last before a final line feed. */
  function StripTrailingQuote(v: string): string {
    if |v| > 0 && IsQuote(v[|v| - 1]) then v[..|v| - 1]
    else if |v| >= 2 && v[|v| - 1] == '\n' && IsQuote(v[|v| - 2]) then v[..|v| - 2] + "\n"
    else v
  }

  /** The first quoted argument with its quotes stripped, or `""`. */
  function FirstQuotedArgument(values: seq<string>): string {
    if |values| == 0 then ""
    else if IsQuotedArgument(values[0]) then StripTrailingQuote(StripLeadingQuote(values[0]))
    else FirstQuotedArgument(values[1..])
  }

  /** The key of a `@lang` or `@choice` directive; `""` when it has no
      arguments or none of them is quoted (src/Commands/Translate.php:278-284). */
  function DirectiveKey(arguments: Option<seq<string>>): string {
    match arguments
    case None => ""
    case Some(values) => FirstQuotedArgument(values)
  }

  /** A quoted literal as the first quoted argument comes back without its
      quotes, whatever other arguments follow. */
  lemma DirectiveKeyRoundTrip(open: char, body: string, close: char, others: seq<string>)
    requires IsQuote(open) && IsQuote(close)
    requires forall k | 0 <= k < |body| :: body[k] != '\n'
    ensures DirectiveKey(Some([[open] + body + [close]] + others)) == body
  {
    var v := [open] + body + [close];
    assert SkipSpaces(v, 0) == 0;
    assert TrimEnd(v) == |v|;
    assert forall k | 0 < k < |v| - 1 :: v[k] == body[k - 1];
    assert IsQuotedArgument(v);
    assert ([v] + others)[0] == v;
    assert v[1..] == body + [close];
    assert (body + [close])[..|body|] == body;
  }

  /** With no quoted argument, the key is empty (and is dropped later). */
  lemma UnquotedDirectiveHasEmptyKey(values: seq<string>)
    requires forall k | 0 <= k < |values| :: !IsQuotedArgument(values[k])
    ensures DirectiveKey(Some(values)) == ""
    ensures DirectiveKey(None) == ""
  {
    if |values| > 0 {
      UnquotedDirectiveHasEmptyKey(values[1..]);
    }
  }

  // ---------------------------------------------------------------------------
  // Selecting nodes.
  // ---------------------------------------------------------------------------

  predicate IsDirectiveNamed(name: string, n: BladeNode) {
    n.Directive? && n.name == name
  }

  function DirectivesNamed(t: Template, name: string): seq<BladeNode> {
    Seqs.Filter((n: BladeNode) => IsDirectiveNamed(name, n), t)
  }

  function Components(t: Template): seq<BladeNode> {
    Seqs.Filter((n: BladeNode) => n.Component?, t)
  }

  function Echoes(t: Template): seq<BladeNode> {
    Seqs.Filter((n: BladeNode) => n.Echo?, t)
  }

  // ---------------------------------------------------------------------------
  // The four kinds of keys.
  // ---------------------------------------------------------------------------

  /** A directive's key is pushed unless it is a short key (even when empty). */
  function DirectiveKeys(directives: seq<BladeNode>): seq<string> {
    if |directives| == 0 then []
    else
      var key := if directives[0].Directive? then DirectiveKey(directives[0].arguments) else "";
      (if ShortKey.LangKeyIsShortKey(key) then [] else [key]) + DirectiveKeys(directives[1..])
  }

  /** All `@choice` keys, then all `@lang` keys. */
  function TemplateDirectiveKeys(t: Template): seq<string> {
    DirectiveKeys(DirectivesNamed(t, "choice") + DirectivesNamed(t, "lang"))
  }

  /** Applies a failing extraction to each item in turn; the first failure escapes. */
  function CollectEach<T>(items: seq<T>, f: T -> Result<seq<string>, ExtractError>): Result<seq<string>, ExtractError> {
    if |items| == 0 then Success([])
    else
      var here :- f(items[0]);
      var rest :- CollectEach(items[1..], f);
      Success(here + rest)
  }

  function ParameterKeys(p: Parameter, reparse: SnippetParser): Result<seq<string>, ExtractError> {
    if p.kind == DynamicVariable then EmbeddedKeys(p.value, reparse) else Success([])
  }

  function ComponentKeys(n: BladeNode, reparse: SnippetParser): Result<seq<string>, ExtractError> {
    if n.Component? then CollectEach(n.parameters, (p: Parameter) => ParameterKeys(p, reparse))
    else Success([])
  }

  function EchoKeys(n: BladeNode, reparse: SnippetParser): Result<seq<string>, ExtractError> {
    if n.Echo? then EmbeddedKeys(n.innerContent, reparse) else Success([])
  }

  /** Argument 1 of a `@section`, or `""`. */
  function SectionContent(n: BladeNode): string {
    if n.Directive? && n.arguments.Some? && |n.arguments.value| > 1 then n.arguments.value[1] else ""
  }

  function SectionDirectiveKeys(n: BladeNode, reparse: SnippetParser): Result<seq<string>, ExtractError> {
    SectionKeys(SectionContent(n), reparse)
  }

  /** The keys a template contributes, in the order the command pushes them
      (src/Commands/Translate.php:259-420). */
  function TemplateKeys(t: Template, reparse: SnippetParser): Result<seq<string>, ExtractError> {
    var components :- CollectEach(Components(t), (n: BladeNode) => ComponentKeys(n, reparse));
    var echoes :- CollectEach(Echoes(t), (n: BladeNode) => EchoKeys(n, reparse));
    var sections :- CollectEach(DirectivesNamed(t, "section"), (n: BladeNode) => SectionDirectiveKeys(n, reparse));
    Success(TemplateDirectiveKeys(t) + components + echoes + sections)
  }

  // ---------------------------------------------------------------------------
  // Properties.
  // ---------------------------------------------------------------------------

  function WithoutComments(t: Template): Template {
    Seqs.Filter((n: BladeNode) => !n.Comment?, t)
  }

  /** Comment nodes are never looked at: a template yields the same keys, or
      the same failure, once its comments are removed. This holds because
      `TemplateKeys` selects nodes by kind. It shows only that the model ignores
      `Comment` nodes. That a Blade comment hides a directive written inside
      it is the parser's doing, and the parser is a parameter here. */
  lemma CommentsContributeNothing(t: Template, reparse: SnippetParser)
    ensures TemplateKeys(WithoutComments(t), reparse) == TemplateKeys(t, reparse)
  {
    DirectivesIgnoreComments(t, "choice");
    DirectivesIgnoreComments(t, "lang");
    DirectivesIgnoreComments(t, "section");
    ComponentsAndEchoesIgnoreComments(t);
  }

  lemma DirectivesIgnoreComments(t: Template, name: string)
    ensures DirectivesNamed(WithoutComments(t), name) == DirectivesNamed(t, name)
  {
    Seqs.FilterAbsorbs((n: BladeNode) => IsDirectiveNamed(name, n), (n: BladeNode) => !n.Comment?, t);
  }

  lemma ComponentsAndEchoesIgnoreComments(t: Template)
    ensures Components(WithoutComments(t)) == Components(t)
    ensures Echoes(WithoutComments(t)) == Echoes(t)
  {
    Seqs.FilterAbsorbs((n: BladeNode) => n.Component?, (n: BladeNode) => !n.Comment?, t);
    Seqs.FilterAbsorbs((n: BladeNode) => n.Echo?, (n: BladeNode) => !n.Comment?, t);
  }

  /** In particular a `Comment` node anywhere in the template changes nothing,
      whatever its text. Whether a commented-out directive becomes a `Comment`
      node is up to the Blade parser, which is a parameter of the model. */
  lemma CommentedDirectiveIsIgnored(before: Template, text: string, after: Template, reparse: SnippetParser)
    ensures TemplateKeys(before + [Comment(text)] + after, reparse) == TemplateKeys(before + after, reparse)
  {
    DroppingCommentNode(before, text, after);
    CommentsContributeNothing(before + [Comment(text)] + after, reparse);
    CommentsContributeNothing(before + after, reparse);
  }

  lemma DroppingCommentNode(before: Template, text: string, after: Template)
    ensures WithoutComments(before + [Comment(text)] + after) == WithoutComments(before + after)
  {
    var notComment := (n: BladeNode) => !n.Comment?;
    Seqs.FilterAppend(notComment, before + [Comment(text)], after);
    Seqs.FilterAppend(notComment, before, [Comment(text)]);
    Seqs.FilterAppend(notComment, before, after);
    Seqs.FilterKeepsNone(notComment, [Comment(text)]);
  }

  /** Directive keys: every `@choice` key comes before every `@lang` key,
      whatever their order in the template. */
  lemma ChoiceKeysComeFirst(t: Template)
    ensures TemplateDirectiveKeys(t) ==
      DirectiveKeys(DirectivesNamed(t, "choice")) + DirectiveKeys(DirectivesNamed(t, "lang"))
  {
    DirectiveKeysAppend(DirectivesNamed(t, "choice"), DirectivesNamed(t, "lang"));
  }

  lemma {:induction false} DirectiveKeysAppend(a: seq<BladeNode>, b: seq<BladeNode>)
    ensures DirectiveKeys(a + b) == DirectiveKeys(a) + DirectiveKeys(b)
  {
    if |a| == 0 {
      assert a + b == b;
    } else {
      assert (a + b)[0] == a[0];
      assert (a + b)[1..] == a[1..] + b;
      DirectiveKeysAppend(a[1..], b);
    }
  }

  /** `'body'`: how a single-quoted literal argument appears in a template. */
  function SingleQuoted(body: string): string {
    "'" + body + "'"
  }

  /** The shape of the book index fixture (`@extends(...)`, then
      `@lang('List of books')`, then `@choice(':count authors found.')`):
      the `@choice` key comes out first, and both keys lose their quotes. */
  lemma BookIndexDirectives(layout: Option<seq<string>>, langBody: string, choiceBody: string, i: nat, j: nat)
    requires forall k | 0 <= k < |langBody| :: langBody[k] != '\n'
    requires forall k | 0 <= k < |choiceBody| :: choiceBody[k] != '\n'
    requires i < |langBody| && langBody[i] == ' '
    requires j < |choiceBody| && choiceBody[j] == ' '
    ensures TemplateDirectiveKeys([
      Directive("extends", layout),
      Directive("lang", Some([SingleQuoted(langBody)])),
      Directive("choice", Some([SingleQuoted(choiceBody)]))])
      == [choiceBody, langBody]
  {
    var other := Directive("extends", layout);
    var lang := Directive("lang", Some([SingleQuoted(langBody)]));
    var choice := Directive("choice", Some([SingleQuoted(choiceBody)]));
    BookIndexSelection(other, lang, choice);
    DirectiveKeysAppend([choice], [lang]);
    SpacedDirectiveKey("lang", langBody, i);
    SpacedDirectiveKey("choice", choiceBody, j);
  }

  lemma BookIndexSelection(other: BladeNode, lang: BladeNode, choice: BladeNode)
    requires other.Directive? && other.name == "extends"
    requires lang.Directive? && lang.name == "lang"
    requires choice.Directive? && choice.name == "choice"
    ensures DirectivesNamed([other, lang, choice], "choice") == [choice]
    ensures DirectivesNamed([other, lang, choice], "lang") == [lang]
  {
    var t := [other, lang, choice];
    assert t[1..] == [lang, choice] && t[1..][1..] == [choice];
    assert "extends" != "choice" && "extends" != "lang" by { assert "extends"[0] == 'e'; }
    assert "lang" != "choice" by { assert "lang"[0] == 'l'; }
    var isChoice := (n: BladeNode) => IsDirectiveNamed("choice", n);
    assert Seqs.Filter(isChoice, [choice]) == [choice];
    assert Seqs.Filter(isChoice, t) == [choice];
    var isLang := (n: BladeNode) => IsDirectiveNamed("lang", n);
    assert Seqs.Filter(isLang, [choice]) == [];
    assert Seqs.Filter(isLang, t) == [lang];
  }

  lemma SpacedDirectiveKey(name: string, body: string, space: nat)
    requires forall k | 0 <= k < |body| :: body[k] != '\n'
    requires space < |body| && body[space] == ' '
    ensures DirectiveKeys([Directive(name, Some([SingleQuoted(body)]))]) == [body]
  {
    SingleDirectiveKey(body);
    ShortKey.SpacedKeyIsNotShort(body, space);
    DirectiveKeysSingle(Directive(name, Some([SingleQuoted(body)])), body);
  }

  lemma DirectiveKeysSingle(d: BladeNode, key: string)
    requires d.Directive? && DirectiveKey(d.arguments) == key && !ShortKey.LangKeyIsShortKey(key)
    ensures DirectiveKeys([d]) == [key]
  {
  }

  lemma SingleDirectiveKey(body: string)
    requires forall k | 0 <= k < |body| :: body[k] != '\n'
    ensures DirectiveKey(Some([SingleQuoted(body)])) == body
  {
    DirectiveKeyRoundTrip('\'', body, '\'', []);
    assert [['\''] + body + ['\'']] + [] == [SingleQuoted(body)];
  }
}
