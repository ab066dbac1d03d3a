# laravel-translate `translate` command, modelled in Dafny

The `translate` Artisan command of khalyomede/laravel-translate scans a
Laravel project for translation keys. It adds the missing keys to every
configured locale's JSON catalog. Keys come from two places:

- calls to `__`, `trans` and `trans_choice` in PHP files;
- `@lang` / `@choice` directives, dynamic component parameters, echo tags
  and `@section` directives in Blade templates.

The found keys become one ordered map, each key mapped to `""`. Each
locale's catalog is then reconciled with that map, in one of two ways:

- keep-all merge: the catalog keeps every entry it has;
- prune (`remove_missing_keys`): the catalog keeps only the keys that were
  found.

The result is optionally sorted and written back. In a dry run nothing is
written, and the exit code says whether keys are missing.

The model is the command's logic with the console, file, JSON and database
plumbing removed. The modules follow the command's stages:

| module | what it models |
|---|---|
| `Text` (text.dfy) | `\w`, `\s`, `ltrim`, `str_starts_with` / `str_ends_with` |
| `ShortKey` (short_key.dfy) | `langKeyIsShortKey` (Translate.php:514-520, `LangKeyIsShortKey`): its regular expression as a grammar and as an executable shape |
| `FileKind` (file_kind.dfy) | `isPhpFile` and `isBladeFile` (Translate.php:504-512, `IsPhpFile` / `IsBladeFile`) and the path filter of `getFilePaths` (line 156) |
| `PhpAst` (php_ast.dfy) | the PHP syntax nodes the command looks at, and the node traverser (Translate.php:428, `Traverse`) running the `leaveNode` visitor (lines 237-251, `LeaveNode`) |
| `Embedded` (embedded.dfy) | PHP embedded in templates: the regex pre-filter, the delimiter strip, re-parsing, argument 0 of the outer call (the per-name loops at Translate.php:304-337 and 349-382, `EmbeddedKeysFor`), and the `@section` test (lines 386-420, `SectionKeys`) |
| `Blade` (blade.dfy) | template nodes, the directive quoted-argument rule (Translate.php:278-284, `DirectiveKey`), and the order in which a template's keys are pushed (lines 259-420, `TemplateKeys`) |
| `Scan` (scan.dfy) | the file loop of `getAllTranslationKeys` (Translate.php:256-440), both as written with the never-reset static `$phpKeys` (`ScanFilesAsWritten`) and per file (`ScanFiles`) |
| `KeySet` (key_set.dfy) | the empty filter, `filterTranslationKeys` (`diff`, `concat`, `flip`) and the found-key map |
| `Catalog` (catalog.dfy) | ordered string-keyed maps: `merge` (array_merge on string keys, Translate.php:97, `Merge`), `removeMissingKeys` (lines 539-552), `getKeyThatWillBeAdded` (lines 528-531) |
| `KeyOrder` (key_order.dfy) | `sortKeys` as a byte-order sort of the entries |
| `Command` (command.dfy) | the per-locale loop of `handle` (Translate.php:81-135, with the catalog written for one locale at lines 95-102, `NewKeys`) and its exit code |
| `Seqs` (seqs.dfy) | `Filter` and first-occurrence `Dedup` (what `flip` keeps) |
| `Wrappers` (wrappers.dfy) | `Option` and `Result` |

Regular expressions are modelled as PCRE reads them:

- `\w` is ASCII `[A-Za-z0-9_]`;
- `\s` is space, tab, line feed, vertical tab, form feed and carriage return;
- `$` also matches just before a final line feed, wherever that changes the
  outcome.

Catalogs are sequences of `(key, value)` pairs. A value is a string or JSON
`null`. Every parser is a function parameter:

- the PHP parser: text to an optional statement list, where `None` is a
  parse error;
- the Blade parser: text to a flat node list;
- the snippet re-parser: like the PHP parser.

### Behaviour of the code that the model keeps

- **Snippet re-parse errors.** When a re-parsed snippet fails to parse, the
  whole scan fails (`Embedded.SnippetParseError`), because the code does not
  catch the parser's exception. The model also fails on `$ast[0]` when the
  statement list is empty and on `$arguments[0]` when a call has no
  arguments. In PHP 8 these reads only raise a warning and give `null`. They
  become failures because Laravel's error handler turns warnings into
  `ErrorException`. Skipping such snippets would be another possible design,
  but nothing in the program describes it.
- **Quote pairing.** The directive quoted-argument pattern does not require
  the two quotes to be the same character.
- **Outer callee.** In a re-parsed snippet the outer call's name is never
  checked (`Embedded.OuterCallNameIsNotChecked`). `sprintf('%s', __('x'))`
  passes the pre-filter, and its key is `%s`, argument 0 of `sprintf`. For
  `foo(__('x'))`, argument 0 of `foo` is a call, not a string literal. So no
  key is pushed, and `x` is lost.
- **`;` is always appended.** The pattern `/\s*;\s*^/` can never match, so
  the `;` is appended to every wrapped snippet.

## Model

| member | source | states |
|---|---|---|
| ShortKey.LangKeyIsShortKeyIffPattern | src/Commands/Translate.php:514-520 | the classifier (pattern test plus the no-whitespace test) holds exactly when the whole key matches `^\w[\w0-9_]+(\.[\w0-9_]+){1,}\w$`; the whitespace test only removes the final-line-feed reading of `$` |
| ShortKey.ShortKeyShapeIffPattern | src/Commands/Translate.php:516 | the executable shape (dot-separated word segments, at least two, first and last of length ≥ 2, no empty segment) accepts exactly the strings the regular expression matches |
| ShortKey.ShapeMatchesPattern | src/Commands/Translate.php:516 | every string of that shape is matched by the pattern |
| ShortKey.PatternMatchesHaveShape | src/Commands/Translate.php:516 | every string the pattern matches has that shape |
| ShortKey.DotTailShapeMatches | src/Commands/Translate.php:516 | a dot followed by dotted word runs ending in two word characters matches `(\.[\w0-9_]+){1,}\w$` |
| ShortKey.MatchesHaveDotTailShape | src/Commands/Translate.php:516 | and everything `(\.[\w0-9_]+){1,}\w$` matches has that shape |
| ShortKey.ShortKeysAreDottedWords | src/Commands/Translate.php:514-520 | a short key contains a dot and only word characters and dots, so a sentence is never dropped |
| ShortKey.DottedWordsAreShortKeys | src/Commands/Translate.php:514-520 | two word runs of at least two characters joined by a dot always form a short key, with underscores and digits allowed |
| ShortKey.SpacedKeyIsNotShort | src/Commands/Translate.php:517-519 | a key with a whitespace character anywhere is never a short key |
| ShortKey.ShortKeyExamples | src/Commands/Translate.php:514-520 | `user.index.title` is a short key |
| ShortKey.ShortKeyExamplesMore | src/Commands/Translate.php:514-520 | `pagination.next` is a short key |
| ShortKey.NotShortKeyExamples | src/Commands/Translate.php:514-520 | `Created :date`, `New journey`, `Book saved.`, the empty key and `a.bc` (first segment of one character) are not short keys |
| FileKind.KindsAreExclusive | src/Commands/Translate.php:504-512 | no path is both a template and a plain PHP file |
| FileKind.ScannedIffPhpSuffix | src/Commands/Translate.php:156 | a path is kept for scanning exactly when it ends with `.php` |
| FileKind.SourcePaths | src/Commands/Translate.php:154-157 | the kept paths are exactly the template and PHP paths among those found, none added |
| FileKind.SourcePathsKeepOrder | src/Commands/Translate.php:154-157 | the filter keeps enumeration order: filtering a listing's two parts and joining the results gives the same as filtering the whole listing |
| FileKind.SourcePathsIsFilter | src/Commands/Translate.php:156 | the kept paths are the order-keeping filter of the listing by "template or PHP file" |
| FileKind.FileKindExamples | src/Commands/Translate.php:504-512 | the fixture paths: a `.blade.php` view is a template and not a PHP file, a controller is a PHP file, a `.json` file is neither |
| PhpAst.FirstStringArgument | src/Commands/Translate.php:240-242 | the result is present exactly when some argument is a string literal, and is then the value of the first such argument |
| PhpAst.TraverseIsPostOrder | src/Commands/Translate.php:236-252 | the traverser pushes, onto the accumulator, the `leaveNode` contributions of the nodes in post-order (children before parents, a callee before the arguments) |
| PhpAst.TraverseAllIsPostOrder | src/Commands/Translate.php:428 | the same for a statement list |
| PhpAst.LeaveEachMembership | src/Commands/Translate.php:239-249 | a key is pushed for a sequence of left nodes exactly when one of them is a `__`/`trans`/`trans_choice` call whose first string-literal argument is that key |
| PhpAst.FileCallKeysAreTranslationCalls | src/Commands/Translate.php:239-249 | a key is collected from a file exactly when some node of the file is such a call with that key as its first string-literal argument |
| PhpAst.BookControllerKeys | src/Commands/Translate.php:236-252 | the three controller actions, each a call nested in a method chain, yield their keys in source order; the `"count"` literal inside the array argument of `trans_choice` is not a key |
| PhpAst.CallShapes | src/Commands/Translate.php:239-249 | the first string literal counts wherever it sits; a call without one contributes nothing; a call whose first name part is not one of the three is ignored; a nested call's key precedes the outer call's |
| Embedded.MentionsCallIffPattern | src/Commands/Translate.php:305 | the executable pre-filter (name, `\s*`, `(`, `\s*`, quote at one position) holds exactly when the regular expression `fn\s*\(\s*["']` matches somewhere |
| Embedded.StripDelimitersRoundTrip | src/Commands/Translate.php:306 | an expression wrapped in `{{`/`{!!` and `}}`/`!!}` comes back unchanged after the delimiter strip |
| Embedded.StripDelimitersKeepsBare | src/Commands/Translate.php:306 | an expression without delimiters at either end is left as it is |
| Embedded.SnippetKey | src/Commands/Translate.php:312-333 | a re-parse fails exactly when the parser rejects the script, it has no statement, or its first statement is a call without arguments; a key is found exactly when the first statement is a call whose argument 0 is a string literal, and it is that literal's value |
| Embedded.EmbeddedKeysForIsOneReparse | src/Commands/Translate.php:302-337 | the per-name loop makes no re-parse when the pre-filter sees no name; otherwise one re-parse decides, a failure escapes, and the kept key is pushed once per name seen |
| Embedded.UnflaggedContentIsSkipped | src/Commands/Translate.php:305 | content the pre-filter does not flag for any name contributes nothing and cannot fail |
| Embedded.OuterCallNameIsNotChecked | src/Commands/Translate.php:318-332 | once any name is seen, argument 0 of the outer call is pushed whatever the callee is |
| Embedded.SectionKeys | src/Commands/Translate.php:386-420 | section content that does not start with a name after `ltrim` yields nothing. Otherwise it is re-parsed once: a re-parse failure escapes, a string argument 0 is pushed unless it is a short key, and anything else pushes nothing |
| Embedded.SectionAgreesWithEcho | src/Commands/Translate.php:302-337 | a flagged section whose text mentions exactly one name yields the same key, or the same failure, as an echo tag with that text |
| Embedded.SectionTestIsTwoPrefixes | src/Commands/Translate.php:388 | the section test holds exactly when the left-trimmed text starts with `__` or `trans`, because `trans_choice` starts with `trans` |
| Embedded.StartsWithSomeNameIsTwoPrefixes | src/Commands/Translate.php:388 | starting with one of the three names is the same as starting with `__` or `trans` |
| Blade.QuotedArgumentIffPattern | src/Commands/Translate.php:281 | the executable quoted-argument test holds exactly when the argument is optional whitespace, a quote, text without line feeds, a quote and optional whitespace; the two quotes need not be the same character |
| Blade.DirectiveKeyRoundTrip | src/Commands/Translate.php:278-284 | a quoted literal without line feeds, given as the first argument, comes back without its quotes whatever arguments follow |
| Blade.UnquotedDirectiveHasEmptyKey | src/Commands/Translate.php:278-284 | a directive with no arguments, or none quoted, has the key `""` |
| Blade.ChoiceKeysComeFirst | src/Commands/Translate.php:262-275 | a template's directive keys are all `@choice` keys, then all `@lang` keys |
| Blade.DirectiveKeysAppend | src/Commands/Translate.php:275-291 | directive keys distribute over concatenation of directive lists |
| Blade.CommentsContributeNothing | src/Commands/Translate.php:262-270 | removing all comment nodes from a template changes neither its keys nor its failure; this shows that the model ignores `Comment` nodes, while hiding a directive inside a comment is up to the parser |
| Blade.CommentedDirectiveIsIgnored | src/Commands/Translate.php:262-270 | a comment node anywhere in a template can be dropped without changing the result |
| Blade.BookIndexDirectives | src/Commands/Translate.php:262-291 | for the index-view shape (`@extends`, then `@lang`, then `@choice`, each with one quoted sentence), the keys come out as the choice key, then the lang key |
| Scan.ScannedFilesFollowSourcePaths | src/Commands/Translate.php:154-157 | the files the loop scans are those whose paths the filter keeps, in the same order |
| Scan.OtherFilesContributeNothing | src/Commands/Translate.php:256-440 | a file that is neither a template nor a PHP file contributes nothing to the loop, so filtering the paths first (line 156) changes neither the keys nor the failure |
| Scan.ParsePhp | src/Commands/Translate.php:424 | parsing a PHP file fails exactly when the parser rejects its text; the parser's exception carries no path, and the file-path label on the model's error is the model's own |
| Scan.AccumulatorIsHarmless | src/Commands/Translate.php:430-436 | with keys already pushed covering the accumulator, the as-written loop (re-pushing every earlier PHP file's keys) and the per-file loop give the same failure or the same keys after first-occurrence de-duplication |
| Scan.AccumulatorDoesNotChangeFoundKeys | src/Commands/Translate.php:430-460 | from an empty accumulator, both loops fail alike, or give the same found-key map |
| Scan.SameDedupSameFoundKeys | src/Commands/Translate.php:442-460 | key streams with the same first-occurrence de-duplication give the same found-key map |
| KeySet.GatheredKeys | src/Commands/Translate.php:442-444 | a key is gathered exactly when it comes from a file or a model and is not empty in PHP's sense (`""` or `"0"`) |
| KeySet.FoundKeys | src/Commands/Translate.php:452-460 | the found-key map has distinct keys, each mapped to `""`; a key is in it exactly when it is gathered and not ignored, or translatable |
| KeySet.FoundKeysFirstOccurrenceOrder | src/Commands/Translate.php:457 | the map's keys are ordered by their first occurrence in (gathered minus ignored) followed by the translatables |
| KeySet.DistinctKeysPassThrough | src/Commands/Translate.php:452-460 | distinct non-empty, non-ignored keys come out as they went in, in the same order |
| KeySet.ZeroKey | src/Commands/Translate.php:442-456 | `"0"` is dropped from the file and model keys but kept when it is translatable |
| Seqs.DedupKeepsFirstOccurrenceOrder | src/Commands/Translate.php:457 | de-duplication lists elements in the order of their first occurrences |
| Seqs.DedupFilterCommute | src/Commands/Translate.php:454-457 | filtering before or after de-duplication gives the same sequence |
| Seqs.DedupAbsorbs | src/Commands/Translate.php:457 | appending elements that already occurred changes nothing after de-duplication |
| Catalog.GetWellFormed | src/Commands/Translate.php:542-544 | in a catalog with distinct keys, a lookup gives a value exactly when that entry is in the catalog |
| Catalog.MergeKeyOrder | src/Commands/Translate.php:97 | the merged keys are the found keys in found order, then the catalog-only keys in catalog order |
| Catalog.MergeLookup | src/Commands/Translate.php:97 | in the merge the catalog's value wins for a shared key; other keys keep their own value |
| Catalog.MergeMembership | src/Commands/Translate.php:97 | an entry is in the merge exactly when it is in the catalog, or it is found and its key is not in the catalog |
| Catalog.MergeWellFormed | src/Commands/Translate.php:97 | merging two catalogs with distinct keys gives distinct keys |
| Catalog.MergeIdempotent | src/Commands/Translate.php:97 | merging the found keys into an already merged catalog changes nothing |
| Catalog.RemoveMissingKeys | src/Commands/Translate.php:539-552 | pruning keeps exactly the found keys, in found order |
| Catalog.PruneLookup | src/Commands/Translate.php:543-545 | for any catalog, entry i of the result is found key i. Its value is the catalog's string translation when there is one; otherwise, when the key is absent or holds `null`, it is the found value |
| Catalog.PruneKeepsTranslations | src/Commands/Translate.php:541-546 | a catalog translation whose key is found survives pruning unchanged |
| Catalog.PruneIsRestrictedMerge | src/Commands/Translate.php:539-552 | on a catalog without `null` values, pruning equals the keep-all merge restricted to the found keys |
| Catalog.PruneIsOverlay | src/Commands/Translate.php:539-552 | on such a catalog, pruning gives each found key the catalog's value when it has one |
| Catalog.PruneIdempotent | src/Commands/Translate.php:539-552 | pruning a pruned catalog again changes nothing |
| Catalog.KeysThatWillBeAdded | src/Commands/Translate.php:528-531 | an entry is reported as added exactly when it is found and its key is not in the catalog |
| Catalog.MergedKeysAreCurrentPlusAdded | src/Commands/Translate.php:89-97 | the keys of the merge are exactly the catalog's keys plus the added keys |
| KeyOrder.KeyLessTransitive | src/Commands/Translate.php:195-198 | byte order on keys is transitive |
| KeyOrder.KeyLessTotal | src/Commands/Translate.php:195-198 | any two different keys are ordered one way |
| KeyOrder.KeyLessIrreflexive | src/Commands/Translate.php:195-198 | no key precedes itself |
| KeyOrder.Insert | src/Commands/Translate.php:195-198 | insertion into a sorted catalog keeps it sorted and adds exactly one entry |
| KeyOrder.SortKeys | src/Commands/Translate.php:195-198 | sorting gives a sorted permutation of the entries, strictly sorted when the keys are distinct |
| KeyOrder.StrictlySortedUnique | src/Commands/Translate.php:195-198 | two strictly sorted catalogs with the same entries are equal |
| KeyOrder.SortKeysDependsOnlyOnEntries | src/Commands/Translate.php:195-198 | sorting depends only on the set of entries, not their order |
| KeyOrder.SortKeysIdempotent | src/Commands/Translate.php:195-198 | sorting a sorted catalog changes nothing |
| KeyOrder.KeyOrderExamples | src/Commands/Translate.php:195-198 | `:count authors found.` sorts before `Book saved.`, a prefix sorts first, and lower case sorts after upper case |
| Command.ProjectFoundKeys | src/Commands/Translate.php:67-74 | the found-key map of a project fails exactly when the scan fails. Otherwise its keys are distinct and all mapped to `""`. They are exactly the non-empty, non-ignored keys of the files and the models, plus the translatable keys |
| Command.NewKeysNonDestructive | src/Commands/Translate.php:95-102 | an existing translation survives reconciliation under keep-all, and under prune when its key is found; sorting does not remove it either |
| Command.NewKeysWellFormed | src/Commands/Translate.php:95-102 | the reconciled catalog has distinct keys |
| Command.NothingAddedAfterWrite | src/Commands/Translate.php:92-102 | a second run on a reconciled catalog reports no added keys |
| Command.NewKeysIdempotent | src/Commands/Translate.php:95-102 | reconciling a reconciled catalog again, under the same settings, changes nothing |
| Command.SortKeepsEntries | src/Commands/Translate.php:100-102 | sorting keeps exactly the same entries |
| Command.Handle | src/Commands/Translate.php:81-135 | every locale's reconciled catalog is written, in order, unless it is a dry run; the reported added set is exactly `getKeyThatWillBeAdded` of the last locale's catalog; the exit code is 1 exactly when it is a dry run and the last locale lacks a found key, and 0 otherwise |
| Command.MergeExample | src/Commands/Translate.php:97 | merging one found key into a catalog that holds it after another key gives the found key first, with the catalog's value |
| Command.PruneExample | src/Commands/Translate.php:542-544 | a `null` catalog value is replaced by the found `""` on pruning, and keys that were not found are removed |

## Left out

- The PHP parser, the Blade parser and the snippet re-parser are foreign libraries. They are function parameters. The Blade parser is taken to accept every text, and a template is the flat list of nodes it yields, with no nesting.
- File and directory I/O is left out: the directory walk and its not-a-directory error, and reading and writing the locale files. A run receives the file contents, and each locale's catalog, as values. `Command.Handle` returns the writes it would make.
- JSON decoding and encoding, pretty-printing and unicode escaping are left out. A catalog value is a string or `null`; other JSON values are not modelled.
- Model columns read from the database and the translatable callbacks are left out. Both are given as key sequences (`modelKeys`, `translatables`).
- Console output, progress bars, elapsed time and peak memory are left out. They do not affect the result.
- Configuration reading is left out: `translate.include`, `langs`, `ignore_keys`, `remove_missing_keys` and `sort_keys` are parameters.
- PHP turns numeric-string keys into integers, and `array_merge` renumbers them. `sortKeys` compares numeric strings as numbers (`SORT_REGULAR`). The model assumes non-numeric keys and compares keys in byte order.
- `\w` and `\s` are ASCII. Locale- and Unicode-dependent classes are not modelled.
- Catalog.PruneIsRestrictedMerge: it holds only for catalogs without `null` values. With a `null` value, pruning yields the found `""` and the merge yields `null` (see `Command.PruneExample`); `Catalog.PruneLookup` states the value of every pruned entry for any catalog.
