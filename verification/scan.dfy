/** The file loop of `getAllTranslationKeys` (src/Commands/Translate.php:231-445):
    each file is dispatched on its suffix to the template rules or to the PHP
    call rules. The parsers are parameters. */
module Scan {
  import opened Wrappers
  import Seqs
  import FileKind
  import ShortKey
  import PhpAst
  import Embedded
  import Blade
  import KeySet

  datatype SourceFile = SourceFile(path: string, content: string)

  /** A PHP parser: the statements of a file, or `None` when it throws. */
  type PhpParser = string -> Option<seq<PhpAst.PhpNode>>

  /** A template parser, which accepts every text. */
  type BladeParser = string -> Blade.Template

  datatype Parsers = Parsers(php: PhpParser, blade: BladeParser, snippet: Embedded.SnippetParser)

  type Outcome = Result<seq<string>, Embedded.ExtractError>

  function NotShort(): string -> bool {
    (k: string) => !ShortKey.LangKeyIsShortKey(k)
  }

  function ParsePhp(file: SourceFile, parsers: Parsers): (r: Result<seq<PhpAst.PhpNode>, Embedded.ExtractError>)
    ensures r.Failure? <==> parsers.php(file.content).None?
    ensures r.Failure? ==> r.error == Embedded.PhpFileParseError(file.path)
  {
    match parsers.php(file.content)
    case None => Failure(Embedded.PhpFileParseError(file.path))
    case Some(ast) => Success(ast)
  }

  /** The keys one file contributes when each PHP file collects its own calls. */
  function FileKeys(file: SourceFile, parsers: Parsers): Outcome {
    if FileKind.IsBladeFile(file.path) then
      Blade.TemplateKeys(parsers.blade(file.content), parsers.snippet)
    else if FileKind.IsPhpFile(file.path) then
      var ast :- ParsePhp(file, parsers);
      Success(Seqs.Filter(NotShort(), PhpAst.FileCallKeys(ast)))
    else Success([])
  }

  /** The keys of all files, in file order; the first failure ends the scan. */
  function ScanFiles(files: seq<SourceFile>, parsers: Parsers): Outcome {
    if |files| == 0 then Success([])
    else
      var here :- FileKeys(files[0], parsers);
      var rest :- ScanFiles(files[1..], parsers);
      Success(here + rest)
  }

  /** The loop as written: the calls of every PHP file are appended to one
      accumulator `phpKeys` that is never reset, and after each PHP file the
      whole accumulator is pushed again (src/Commands/Translate.php:249, 430-436). */
  function ScanFilesAsWritten(files: seq<SourceFile>, parsers: Parsers, phpKeys: seq<string>): Outcome {
    if |files| == 0 then Success([])
    else if FileKind.IsBladeFile(files[0].path) then
      var here :- Blade.TemplateKeys(parsers.blade(files[0].content), parsers.snippet);
      var rest :- ScanFilesAsWritten(files[1..], parsers, phpKeys);
      Success(here + rest)
    else if FileKind.IsPhpFile(files[0].path) then
      var ast :- ParsePhp(files[0], parsers);
      var accumulated := phpKeys + PhpAst.FileCallKeys(ast);
      var rest :- ScanFilesAsWritten(files[1..], parsers, accumulated);
      Success(Seqs.Filter(NotShort(), accumulated) + rest)
    else ScanFilesAsWritten(files[1..], parsers, phpKeys)
  }

  /** Two outcomes agree after `prefix`: the same failure, or key streams that
      de-duplicate to the same sequence. */
  predicate Agree(prefix: seq<string>, w: Outcome, r: Outcome) {
    if w.Success? then r.Success? && Seqs.Dedup(prefix + w.value) == Seqs.Dedup(prefix + r.value)
    else r.Failure? && w.error == r.error
  }

  /** The files `getFilePaths` keeps: templates and PHP files. */
  function IsSource(): SourceFile -> bool {
    (f: SourceFile) => FileKind.IsSourcePath(f.path)
  }

  function Paths(files: seq<SourceFile>): (r: seq<string>)
    ensures |r| == |files| && forall i :: 0 <= i < |files| ==> r[i] == files[i].path
  {
    seq(|files|, i requires 0 <= i < |files| => files[i].path)
  }

  /** The files scanned are those whose paths `FileKind.SourcePaths` keeps, in
      the same order. */
  lemma {:induction false} ScannedFilesFollowSourcePaths(files: seq<SourceFile>)
    ensures Paths(Seqs.Filter(IsSource(), files)) == FileKind.SourcePaths(Paths(files))
    decreases |files|
  {
    if |files| > 0 {
      ScannedFilesFollowSourcePaths(files[1..]);
      assert Paths(files)[1..] == Paths(files[1..]);
      var rest := Seqs.Filter(IsSource(), files[1..]);
      if IsSource()(files[0]) {
        assert Paths([files[0]] + rest) == [files[0].path] + Paths(rest);
      } else {
        assert Seqs.Filter(IsSource(), files) == [] + rest;
      }
    }
  }

  /** Files of any other kind contribute nothing: scanning only the kept files
      gives the same keys, or the same failure, as scanning all of them. */
  lemma {:induction false} OtherFilesContributeNothing(files: seq<SourceFile>, parsers: Parsers)
    ensures ScanFiles(Seqs.Filter(IsSource(), files), parsers) == ScanFiles(files, parsers)
    decreases |files|
  {
    if |files| > 0 {
      var kept := Seqs.Filter(IsSource(), files);
      var rest := Seqs.Filter(IsSource(), files[1..]);
      OtherFilesContributeNothing(files[1..], parsers);
      if IsSource()(files[0]) {
        assert kept == [files[0]] + rest;
        assert kept[0] == files[0] && kept[1..] == rest;
      } else {
        assert kept == rest;
        assert FileKeys(files[0], parsers) == Success([]);
        var r := ScanFiles(files[1..], parsers);
        if r.Success? {
          assert [] + r.value == r.value;
        }
      }
    }
  }

  /** The re-pushed accumulator only repeats keys already pushed, so it
      disappears under first-occurrence de-duplication. */
  lemma {:induction false} AccumulatorIsHarmless(files: seq<SourceFile>, parsers: Parsers, prefix: seq<string>, phpKeys: seq<string>)
    requires forall k :: k in Seqs.Filter(NotShort(), phpKeys) ==> k in prefix
    ensures Agree(prefix, ScanFilesAsWritten(files, parsers, phpKeys), ScanFiles(files, parsers))
    decreases |files|
  {
    if |files| > 0 {
      var f := files[0];
      if FileKind.IsBladeFile(f.path) {
        var h := Blade.TemplateKeys(parsers.blade(f.content), parsers.snippet);
        if h.Success? {
          AccumulatorIsHarmless(files[1..], parsers, prefix + h.value, phpKeys);
          AppendAssociates(prefix, h.value, ScanFilesAsWritten(files[1..], parsers, phpKeys));
          AppendAssociates(prefix, h.value, ScanFiles(files[1..], parsers));
        }
      } else if FileKind.IsPhpFile(f.path) {
        var p := ParsePhp(f, parsers);
        if p.Success? {
          PhpFileStep(files, parsers, prefix, phpKeys, p.value);
        }
      } else {
        AccumulatorIsHarmless(files[1..], parsers, prefix, phpKeys);
        assert ScanFiles(files, parsers) == ScanFiles(files[1..], parsers) by {
          assert FileKeys(f, parsers) == Success([]);
          var rest := ScanFiles(files[1..], parsers);
          if rest.Success? {
            assert [] + rest.value == rest.value;
          }
        }
      }
    }
  }

  lemma AppendAssociates(prefix: seq<string>, h: seq<string>, o: Outcome)
    ensures o.Success? ==> prefix + (h + o.value) == (prefix + h) + o.value
  {
  }

  lemma {:induction false} PhpFileStep(files: seq<SourceFile>, parsers: Parsers, prefix: seq<string>, phpKeys: seq<string>, ast: seq<PhpAst.PhpNode>)
    requires |files| > 0 && !FileKind.IsBladeFile(files[0].path) && FileKind.IsPhpFile(files[0].path)
    requires ParsePhp(files[0], parsers) == Success(ast)
    requires forall k :: k in Seqs.Filter(NotShort(), phpKeys) ==> k in prefix
    ensures Agree(prefix, ScanFilesAsWritten(files, parsers, phpKeys), ScanFiles(files, parsers))
    decreases |files|, 0
  {
    var c := PhpAst.FileCallKeys(ast);
    var acc := phpKeys + c;
    var repushed := Seqs.Filter(NotShort(), phpKeys);
    var added := Seqs.Filter(NotShort(), c);
    Seqs.FilterAppend(NotShort(), phpKeys, c);
    AccumulatorIsHarmless(files[1..], parsers, prefix + added, acc);
    PhpFileUnfolds(files, parsers, phpKeys, ast);
    var w := ScanFilesAsWritten(files[1..], parsers, acc);
    var r := ScanFiles(files[1..], parsers);
    if w.Success? {
      DedupStep(prefix, repushed, added, w.value, r.value);
    }
  }

  /** One step of both loops at a PHP file that parses. */
  lemma PhpFileUnfolds(files: seq<SourceFile>, parsers: Parsers, phpKeys: seq<string>, ast: seq<PhpAst.PhpNode>)
    requires |files| > 0 && !FileKind.IsBladeFile(files[0].path) && FileKind.IsPhpFile(files[0].path)
    requires ParsePhp(files[0], parsers) == Success(ast)
    ensures var acc := phpKeys + PhpAst.FileCallKeys(ast);
      var w := ScanFilesAsWritten(files[1..], parsers, acc);
      ScanFilesAsWritten(files, parsers, phpKeys) ==
        if w.Success? then Success(Seqs.Filter(NotShort(), acc) + w.value) else w
    ensures var r := ScanFiles(files[1..], parsers);
      ScanFiles(files, parsers) ==
        if r.Success? then Success(Seqs.Filter(NotShort(), PhpAst.FileCallKeys(ast)) + r.value) else r
  {
    assert FileKeys(files[0], parsers) == Success(Seqs.Filter(NotShort(), PhpAst.FileCallKeys(ast)));
  }

  /** The arithmetic of one PHP step: keys pushed again after `prefix` already
      holds them leave the de-duplicated stream unchanged. */
  lemma DedupStep(prefix: seq<string>, repushed: seq<string>, added: seq<string>, w: seq<string>, r: seq<string>)
    requires forall k :: k in repushed ==> k in prefix
    requires Seqs.Dedup((prefix + added) + w) == Seqs.Dedup((prefix + added) + r)
    ensures Seqs.Dedup(prefix + ((repushed + added) + w)) == Seqs.Dedup(prefix + (added + r))
  {
    Regroup(prefix, repushed, added, w);
    Regroup(prefix, [], added, r);
    Seqs.DedupAbsorbs(prefix, repushed);
    Seqs.DedupAppendCongruence(prefix + repushed, prefix, added + w);
  }

  lemma Regroup(a: seq<string>, b: seq<string>, c: seq<string>, d: seq<string>)
    ensures a + ((b + c) + d) == (a + b) + (c + d)
    ensures a + (c + d) == (a + c) + d
    ensures b == [] ==> a + ((b + c) + d) == a + (c + d)
  {
  }

  /** Whichever loop runs, the found-key map is the same: the global
      accumulator changes how often a PHP key is pushed, never which keys are
      found or in which order. */
  lemma AccumulatorDoesNotChangeFoundKeys(files: seq<SourceFile>, parsers: Parsers,
                                          modelKeys: seq<string>, ignore: seq<string>, translatables: seq<string>)
    ensures var w := ScanFilesAsWritten(files, parsers, []);
      var r := ScanFiles(files, parsers);
      && (w.Failure? <==> r.Failure?)
      && (w.Failure? ==> w.error == r.error)
      && (w.Success? ==>
            KeySet.FoundKeys(KeySet.GatheredKeys(w.value, modelKeys), ignore, translatables)
            == KeySet.FoundKeys(KeySet.GatheredKeys(r.value, modelKeys), ignore, translatables))
  {
    AccumulatorIsHarmless(files, parsers, [], []);
    var w := ScanFilesAsWritten(files, parsers, []);
    var r := ScanFiles(files, parsers);
    if w.Success? {
      assert [] + w.value == w.value && [] + r.value == r.value;
      SameDedupSameFoundKeys(w.value, r.value, modelKeys, ignore, translatables);
    }
  }

  lemma SameDedupSameFoundKeys(a: seq<string>, b: seq<string>,
                               modelKeys: seq<string>, ignore: seq<string>, translatables: seq<string>)
    requires Seqs.Dedup(a) == Seqs.Dedup(b)
    ensures KeySet.FoundKeys(KeySet.GatheredKeys(a, modelKeys), ignore, translatables)
         == KeySet.FoundKeys(KeySet.GatheredKeys(b, modelKeys), ignore, translatables)
  {
    Seqs.DedupAppendCongruence(a, b, modelKeys);
    Seqs.DedupFilterCommute(KeySet.NonEmpty(), a + modelKeys);
    Seqs.DedupFilterCommute(KeySet.NonEmpty(), b + modelKeys);
    var ga := KeySet.GatheredKeys(a, modelKeys);
    var gb := KeySet.GatheredKeys(b, modelKeys);
    Seqs.DedupFilterCommute(KeySet.NotIgnored(ignore), ga);
    Seqs.DedupFilterCommute(KeySet.NotIgnored(ignore), gb);
    Seqs.DedupAppendCongruence(Seqs.Filter(KeySet.NotIgnored(ignore), ga),
                               Seqs.Filter(KeySet.NotIgnored(ignore), gb), translatables);
  }
}
