/** The per-locale loop and the exit code of `handle`
    (src/Commands/Translate.php:46-136): each locale's catalog is reconciled
    with the found keys under the configured policies, written unless the run
    is a dry run, and the exit code reports keys the last locale lacks. */
module Command {
  import opened Wrappers
  import opened Catalog
  import KeyOrder
  import KeySet
  import Scan
  import Embedded
  import Seqs

  /** `translate.remove_missing_keys` and `translate.sort_keys`. */
  datatype Config = Config(removeMissingKeys: bool, sortKeys: bool)

  /** A configured locale and the catalog its JSON file holds. */
  datatype Locale = Locale(name: string, current: Catalog)

  /** A catalog written to a locale's file. */
  datatype Write = Write(locale: string, content: Catalog)

  /** The found-key map of a project: the keys of the files, then the model
      keys, through `filterTranslationKeys`. */
  function ProjectFoundKeys(files: seq<Scan.SourceFile>, parsers: Scan.Parsers, modelKeys: seq<string>,
                            ignore: seq<string>, translatables: seq<string>): (r: Result<Catalog, Embedded.ExtractError>)
    ensures r.Failure? <==> Scan.ScanFiles(files, parsers).Failure?
    ensures r.Success? ==> WellFormed(r.value) && forall e | e in r.value :: e.1 == Str("")
    ensures r.Success? ==> forall k :: HasKey(r.value, k) <==>
      ((k in Scan.ScanFiles(files, parsers).value || k in modelKeys) && !KeySet.IsPhpEmpty(k) && k !in ignore)
      || k in translatables
  {
    var keys :- Scan.ScanFiles(files, parsers);
    Success(KeySet.FoundKeys(KeySet.GatheredKeys(keys, modelKeys), ignore, translatables))
  }

  /** The catalog written for one locale (src/Commands/Translate.php:95-102). */
  function NewKeys(found: Catalog, current: Catalog, cfg: Config): Catalog {
    var kept := if cfg.removeMissingKeys then RemoveMissingKeys(current, found) else Merge(found, current);
    if cfg.sortKeys then KeyOrder.SortKeys(kept) else kept
  }

  lemma SortKeepsEntries(c: Catalog, e: Entry)
    ensures e in KeyOrder.SortKeys(c) <==> e in c
  {
    KeyOrder.SameMultisetSameMembers(KeyOrder.SortKeys(c), c);
  }

  /** Existing translations survive: under keep-all every catalog entry is
      kept, under prune every entry of a found key with a translation. */
  lemma NewKeysNonDestructive(found: Catalog, current: Catalog, cfg: Config, k: string, s: string)
    requires WellFormed(current) && (k, Str(s)) in current
    requires cfg.removeMissingKeys ==> HasKey(found, k)
    ensures (k, Str(s)) in NewKeys(found, current, cfg)
  {
    if cfg.removeMissingKeys {
      PruneKeepsTranslations(current, found, k, s);
      SortKeepsEntries(RemoveMissingKeys(current, found), (k, Str(s)));
    } else {
      MergeMembership(found, current, (k, Str(s)));
      SortKeepsEntries(Merge(found, current), (k, Str(s)));
    }
  }

  lemma NewKeysWellFormed(found: Catalog, current: Catalog, cfg: Config)
    requires WellFormed(found) && WellFormed(current)
    ensures WellFormed(NewKeys(found, current, cfg))
  {
    if !cfg.removeMissingKeys {
      MergeWellFormed(found, current);
    }
    if cfg.sortKeys {
      var kept := if cfg.removeMissingKeys then RemoveMissingKeys(current, found) else Merge(found, current);
      KeyOrder.StrictlySortedIsWellFormed(KeyOrder.SortKeys(kept));
    }
  }

  /** Every found key is in the written catalog, so a later dry run against
      it reports nothing to add. */
  lemma NothingAddedAfterWrite(found: Catalog, current: Catalog, cfg: Config)
    ensures KeysThatWillBeAdded(NewKeys(found, current, cfg), found) == []
  {
    var n := NewKeys(found, current, cfg);
    var kept := if cfg.removeMissingKeys then RemoveMissingKeys(current, found) else Merge(found, current);
    MergeKeyOrder(found, current);
    forall e | e in found ensures HasKey(n, e.0) {
      MemberHasKey(found, e);
      assert HasKey(kept, e.0);
      var i :| 0 <= i < |kept| && Keys(kept)[i] == e.0;
      SortKeepsEntries(kept, kept[i]);
      if cfg.sortKeys {
        MemberHasKey(n, kept[i]);
      }
    }
    Seqs.FilterKeepsNone(OnKey(NotIn(n)), found);
  }

  /** Entries alone decide lookups in a catalog with distinct keys. */
  lemma SameEntriesSameLookup(a: Catalog, b: Catalog, k: string)
    requires WellFormed(a) && WellFormed(b)
    requires forall e :: e in a <==> e in b
    ensures Get(a, k) == Get(b, k)
  {
    var g := Get(a, k);
    if g.Some? {
      GetWellFormed(a, k, g.value);
      GetWellFormed(b, k, g.value);
    } else if HasKey(b, k) {
      var h := Get(b, k);
      GetWellFormed(b, k, h.value);
      MemberHasKey(a, (k, h.value));
    }
  }

  lemma PruneOfSameEntries(a: Catalog, b: Catalog, found: Catalog)
    requires WellFormed(a) && WellFormed(b)
    requires forall e :: e in a <==> e in b
    ensures RemoveMissingKeys(a, found) == RemoveMissingKeys(b, found)
  {
    forall i | 0 <= i < |found| ensures RemoveMissingKeys(a, found)[i] == RemoveMissingKeys(b, found)[i] {
      SameEntriesSameLookup(a, b, found[i].0);
    }
  }

  /** Running the command twice writes what running it once wrote, under
      every combination of the two policies. */
  lemma NewKeysIdempotent(found: Catalog, current: Catalog, cfg: Config)
    requires WellFormed(found) && WellFormed(current)
    ensures NewKeys(found, NewKeys(found, current, cfg), cfg) == NewKeys(found, current, cfg)
  {
    if cfg.removeMissingKeys {
      PruneIdempotent(current, found);
      if cfg.sortKeys {
        SortedPruneIdempotent(found, current);
      }
    } else {
      MergeIdempotent(found, current);
      if cfg.sortKeys {
        SortedMergeIdempotent(found, current);
      }
    }
  }

  lemma SortedPruneIdempotent(found: Catalog, current: Catalog)
    requires WellFormed(found)
    ensures var p := RemoveMissingKeys(current, found);
      KeyOrder.SortKeys(RemoveMissingKeys(KeyOrder.SortKeys(p), found)) == KeyOrder.SortKeys(p)
  {
    var p := RemoveMissingKeys(current, found);
    var s := KeyOrder.SortKeys(p);
    KeyOrder.SameMultisetSameMembers(s, p);
    KeyOrder.StrictlySortedIsWellFormed(s);
    PruneOfSameEntries(s, p, found);
    PruneIdempotent(current, found);
  }

  lemma SortedMergeIdempotent(found: Catalog, current: Catalog)
    requires WellFormed(found) && WellFormed(current)
    ensures var m := Merge(found, current);
      KeyOrder.SortKeys(Merge(found, KeyOrder.SortKeys(m))) == KeyOrder.SortKeys(m)
  {
    var m := Merge(found, current);
    var s := KeyOrder.SortKeys(m);
    MergeWellFormed(found, current);
    KeyOrder.SameMultisetSameMembers(s, m);
    KeyOrder.StrictlySortedIsWellFormed(s);
    MergeWellFormed(found, s);
    MergeIntoSameEntries(found, current, s);
    KeyOrder.SortKeysDependsOnlyOnEntries(Merge(found, s), m);
    KeyOrder.SortKeysIdempotent(m);
  }

  /** Merging the found keys into any catalog with the merge's entries gives
      back those entries. */
  lemma MergeIntoSameEntries(found: Catalog, current: Catalog, s: Catalog)
    requires WellFormed(s)
    requires forall e :: e in s <==> e in Merge(found, current)
    ensures forall e :: e in Merge(found, s) <==> e in Merge(found, current)
  {
    var m := Merge(found, current);
    MergeKeyOrder(found, current);
    forall e ensures e in Merge(found, s) <==> e in m {
      MergeMembership(found, s, e);
      if e in found {
        MemberHasKey(found, e);
        assert e.0 in Keys(m);
        var i :| 0 <= i < |m| && Keys(m)[i] == e.0;
        MemberHasKey(s, m[i]);
      }
    }
  }

  /** The catalogs a writing run puts in each locale's file, in locale order. */
  function Reconciled(found: Catalog, locales: seq<Locale>, cfg: Config): (ws: seq<Write>)
    ensures |ws| == |locales|
  {
    seq(|locales|, i requires 0 <= i < |locales| => Write(locales[i].name, NewKeys(found, locales[i].current, cfg)))
  }

  /** `handle` after the key scan: reconciles every locale in turn; `added` is
      overwritten for each, so only the last locale decides the exit code. */
  method Handle(found: Catalog, locales: seq<Locale>, cfg: Config, dryRun: bool)
    returns (writes: seq<Write>, added: Catalog, exitCode: int)
    ensures writes == if dryRun then [] else Reconciled(found, locales, cfg)
    ensures |locales| == 0 ==> added == []
    ensures |locales| > 0 ==> added == KeysThatWillBeAdded(locales[|locales| - 1].current, found)
    ensures |locales| > 0 ==> forall e :: e in added <==> e in found && !HasKey(locales[|locales| - 1].current, e.0)
    ensures exitCode == 0 || exitCode == 1
    ensures exitCode == 1 <==>
      dryRun && |locales| > 0 && exists e :: e in found && !HasKey(locales[|locales| - 1].current, e.0)
  {
    writes := [];
    added := [];
    var i := 0;
    while i < |locales|
      invariant 0 <= i <= |locales|
      invariant writes == if dryRun then [] else Reconciled(found, locales[..i], cfg)
      invariant i == 0 ==> added == []
      invariant i > 0 ==> added == KeysThatWillBeAdded(locales[i - 1].current, found)
    {
      var current := locales[i].current;
      added := KeysThatWillBeAdded(current, found);
      var newKeys := NewKeys(found, current, cfg);
      if !dryRun {
        ReconciledSnoc(found, locales, i, cfg);
        writes := writes + [Write(locales[i].name, newKeys)];
      }
      i := i + 1;
    }
    assert locales[..i] == locales;
    if dryRun && |added| > 0 {
      exitCode := 1;
    } else {
      exitCode := 0;
    }
    if |locales| > 0 {
      AddedIsEmptyIffAllPresent(locales[|locales| - 1].current, found);
    }
  }

  lemma ReconciledSnoc(found: Catalog, locales: seq<Locale>, i: nat, cfg: Config)
    requires i < |locales|
    ensures Reconciled(found, locales[..i + 1], cfg) ==
      Reconciled(found, locales[..i], cfg) + [Write(locales[i].name, NewKeys(found, locales[i].current, cfg))]
  {
  }

  /** The added set is empty exactly when the catalog already has every
      found key. */
  lemma AddedIsEmptyIffAllPresent(current: Catalog, found: Catalog)
    ensures |KeysThatWillBeAdded(current, found)| > 0 <==> exists e :: e in found && !HasKey(current, e.0)
  {
    var added := KeysThatWillBeAdded(current, found);
    assert |added| > 0 ==> added[0] in added;
  }

  /** Keep-all order on two keys: the found key keeps its place and takes the
      catalog's value; the catalog-only key follows. */
  lemma MergeExample(a: string, b: string, va: Value, vb: Value)
    requires a != b
    ensures Merge([(a, Str(""))], [(b, vb), (a, va)]) == [(a, va), (b, vb)]
  {
    var found: Catalog := [(a, Str(""))];
    var current: Catalog := [(b, vb), (a, va)];
    assert Keys(found) == [a];
    assert Get(current, a) == Some(va);
    assert Overlay(found, current) == [(a, va)];
    assert !HasKey(found, b) && HasKey(found, a);
    assert current[1..] == [(a, va)] && current[1..][1..] == [];
    assert OnKey(NotIn(found))((b, vb)) && !OnKey(NotIn(found))((a, va));
    var p := OnKey(NotIn(found));
    assert Seqs.Filter(p, current[1..][1..]) == [];
    assert Seqs.Filter(p, current[1..]) == [];
    assert Seqs.Filter(p, current) == [(b, vb)];
  }

  /** Prune on the same two keys: the catalog-only key is dropped, and a
      `null` translation falls back to `""`. */
  lemma PruneExample(a: string, b: string, vb: Value)
    requires a != b
    ensures RemoveMissingKeys([(b, vb), (a, Null)], [(a, Str(""))]) == [(a, Str(""))]
  {
    var current: Catalog := [(b, vb), (a, Null)];
    assert Get(current, a) == Some(Null);
  }
}
