/** Classification of the files found under the `include` directories
    (`isPhpFile` / `isBladeFile`, src/Commands/Translate.php:504-512) and the
    filter `getFilePaths` applies to them (src/Commands/Translate.php:156). */
module FileKind {
  import opened Text
  import Seqs

  const BladeSuffix: string := ".blade.php"
  const PhpSuffix: string := ".php"

  /** `isBladeFile` (src/Commands/Translate.php:509-512). */
  predicate IsBladeFile(path: string) {
    EndsWith(path, BladeSuffix)
  }

  /** `isPhpFile` (src/Commands/Translate.php:504-507). */
  predicate IsPhpFile(path: string) {
    !EndsWith(path, BladeSuffix) && EndsWith(path, PhpSuffix)
  }

  /** A path `getFilePaths` keeps: a template or a plain PHP file. */
  predicate IsSourcePath(path: string) {
    IsBladeFile(path) || IsPhpFile(path)
  }

  /** The paths kept for scanning, in enumeration order. */
  function SourcePaths(paths: seq<string>): (r: seq<string>)
    ensures |r| <= |paths|
    ensures forall p :: p in r <==> p in paths && IsSourcePath(p)
  {
    if |paths| == 0 then []
    else
      var rest := SourcePaths(paths[1..]);
      if IsSourcePath(paths[0]) then [paths[0]] + rest else rest
  }

  /** The filter keeps enumeration order: the kept paths of a listing are
      those of its first part followed by those of its second part. */
  lemma {:induction false} SourcePathsKeepOrder(a: seq<string>, b: seq<string>)
    ensures SourcePaths(a + b) == SourcePaths(a) + SourcePaths(b)
    decreases |a|
  {
    if |a| > 0 {
      assert (a + b)[0] == a[0] && (a + b)[1..] == a[1..] + b;
      SourcePathsKeepOrder(a[1..], b);
    } else {
      assert a + b == b;
    }
  }

  /** `SourcePaths` is the order-keeping filter by `IsSourcePath`. */
  lemma {:induction false} SourcePathsIsFilter(paths: seq<string>)
    ensures SourcePaths(paths) == Seqs.Filter(IsSourcePathFn(), paths)
    decreases |paths|
  {
    if |paths| > 0 {
      SourcePathsIsFilter(paths[1..]);
      Seqs.FilterAppend(IsSourcePathFn(), [paths[0]], paths[1..]);
      assert [paths[0]] + paths[1..] == paths;
    }
  }

  function IsSourcePathFn(): string -> bool {
    (p: string) => IsSourcePath(p)
  }

  /** No path is both a template and a plain PHP file. */
  lemma KindsAreExclusive(path: string)
    ensures !(IsBladeFile(path) && IsPhpFile(path))
  {
  }

  /** A path is scanned exactly when it ends with `.php`: templates are the
      `.php` files that also end with `.blade.php`. */
  lemma ScannedIffPhpSuffix(path: string)
    ensures IsBladeFile(path) || IsPhpFile(path) <==> EndsWith(path, PhpSuffix)
  {
    if IsBladeFile(path) {
      var n := |path|;
      assert path[n - 10..] == BladeSuffix;
      assert path[n - 4..] == path[n - 10..][6..];
    }
  }

  lemma FileKindExamples()
    ensures IsBladeFile("resources/views/book/index.blade.php")
    ensures IsPhpFile("app/Http/Controllers/BookController.php")
    ensures !IsBladeFile("resources/lang/fr.json") && !IsPhpFile("resources/lang/fr.json")
    ensures !IsPhpFile("resources/views/plan/index.blade.php")
  {
  }
}
