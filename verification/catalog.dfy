/** Translation catalogs: the ordered key/value object read from a locale's
    JSON file, and the found-key map. The operations are the ones `handle`
    applies per locale: the added-keys diff, the keep-all merge and the prune
    (src/Commands/Translate.php:92-97, 528-552). */
module Catalog {
  import opened Wrappers
  import Seqs

  /** A catalog value: a translation, or JSON `null`. */
  datatype Value = Str(text: string) | Null

  type Entry = (string, Value)

  /** An ordered association list; a PHP array has distinct keys (`WellFormed`). */
  type Catalog = seq<Entry>

  function Keys(c: Catalog): seq<string> {
    seq(|c|, i requires 0 <= i < |c| => c[i].0)
  }

  predicate HasKey(c: Catalog, k: string) {
    k in Keys(c)
  }

  predicate WellFormed(c: Catalog) {
    Seqs.Distinct(Keys(c))
  }

  /** The value stored under `k`, from its first entry. */
  function Get(c: Catalog, k: string): (r: Option<Value>)
    ensures r.None? <==> !HasKey(c, k)
    ensures r.Some? ==> (k, r.value) in c
  {
    if |c| == 0 then None
    else
      assert Keys(c) == [c[0].0] + Keys(c[1..]);
      if c[0].0 == k then Some(c[0].1)
      else Get(c[1..], k)
  }

  // ---------------------------------------------------------------------------
  // Key-wise filtering.
  // ---------------------------------------------------------------------------

  function OnKey(p: string -> bool): Entry -> bool {
    (e: Entry) => p(e.0)
  }

  function NotIn(c: Catalog): string -> bool {
    (k: string) => !HasKey(c, k)
  }

  function In(c: Catalog): string -> bool {
    (k: string) => HasKey(c, k)
  }

  lemma {:induction false} KeysAppend(a: Catalog, b: Catalog)
    ensures Keys(a + b) == Keys(a) + Keys(b)
  {
  }

  lemma {:induction false} KeysOfFilter(p: string -> bool, c: Catalog)
    ensures Keys(Seqs.Filter(OnKey(p), c)) == Seqs.Filter(p, Keys(c))
  {
    if |c| > 0 {
      KeysOfFilter(p, c[1..]);
      assert Keys(c) == [c[0].0] + Keys(c[1..]);
      KeysAppend(if p(c[0].0) then [c[0]] else [], Seqs.Filter(OnKey(p), c[1..]));
    }
  }

  /** Looking up `k` in a concatenation finds the first part's entry first. */
  lemma {:induction false} GetAppend(a: Catalog, b: Catalog, k: string)
    ensures Get(a + b, k) == if HasKey(a, k) then Get(a, k) else Get(b, k)
  {
    if |a| > 0 {
      assert (a + b)[1..] == a[1..] + b;
      assert Keys(a) == [a[0].0] + Keys(a[1..]);
      GetAppend(a[1..], b, k);
    } else {
      assert a + b == b;
    }
  }

  /** In a catalog with distinct keys, lookup and membership agree. */
  lemma {:induction false} GetWellFormed(c: Catalog, k: string, v: Value)
    requires WellFormed(c)
    ensures Get(c, k) == Some(v) <==> (k, v) in c
  {
    if |c| > 0 {
      assert Keys(c) == [c[0].0] + Keys(c[1..]);
      assert Keys(c[1..]) == Keys(c)[1..];
      forall j | 0 <= j < |c| - 1 ensures Keys(c[1..])[j] != c[0].0 {
        assert Keys(c)[j + 1] != Keys(c)[0];
      }
      if (k, v) in c[1..] {
        MemberHasKey(c[1..], (k, v));
      }
      GetWellFormed(c[1..], k, v);
    }
  }

  lemma MemberHasKey(c: Catalog, e: Entry)
    requires e in c
    ensures HasKey(c, e.0)
  {
    var i :| 0 <= i < |c| && c[i] == e;
    assert Keys(c)[i] == e.0;
  }

  /** Every entry of the overlay carries a found key. */
  lemma OverlayKeysAreFound(found: Catalog, current: Catalog)
    ensures forall e | e in Overlay(found, current) :: HasKey(found, e.0)
  {
    forall e | e in Overlay(found, current) ensures HasKey(found, e.0) {
      MemberHasKey(Overlay(found, current), e);
    }
  }

  lemma GetAt(c: Catalog, i: nat)
    requires WellFormed(c) && i < |c|
    ensures Get(c, c[i].0) == Some(c[i].1)
  {
    GetWellFormed(c, c[i].0, c[i].1);
  }

  // ---------------------------------------------------------------------------
  // Keep-all merge: `$foundKeys->merge($currentKeys)` (array_merge).
  // ---------------------------------------------------------------------------

  /** The value the merge keeps under a found entry's key. */
  function MergedValue(current: Catalog, e: Entry): Value {
    match Get(current, e.0)
    case Some(v) => v
    case None => e.1
  }

  /** The found entries in found order, each with the catalog's value when the
      catalog has the key. */
  function Overlay(found: Catalog, current: Catalog): (r: Catalog)
    ensures Keys(r) == Keys(found)
  {
    seq(|found|, i requires 0 <= i < |found| => (found[i].0, MergedValue(current, found[i])))
  }

  /** The catalog entries whose key was not found, in catalog order. */
  function CurrentOnly(found: Catalog, current: Catalog): Catalog {
    Seqs.Filter(OnKey(NotIn(found)), current)
  }

  /** `array_merge($found, $current)` on string keys: the found keys in found
      order with the catalog's values replacing theirs, then the keys only
      the catalog has, in catalog order (src/Commands/Translate.php:97). */
  function Merge(found: Catalog, current: Catalog): Catalog {
    Overlay(found, current) + CurrentOnly(found, current)
  }

  /** Key order of the merge: found keys first, then the other catalog keys. */
  lemma MergeKeyOrder(found: Catalog, current: Catalog)
    ensures Keys(Merge(found, current)) == Keys(found) + Seqs.Filter(NotIn(found), Keys(current))
  {
    KeysAppend(Overlay(found, current), CurrentOnly(found, current));
    KeysOfFilter(NotIn(found), current);
  }

  /** Lookup in the merge: the later array wins, as with `array_merge` or a
      right-biased map union. */
  lemma MergeLookup(found: Catalog, current: Catalog, k: string)
    ensures Get(Merge(found, current), k) ==
      if HasKey(current, k) then Get(current, k) else Get(found, k)
  {
    var o := Overlay(found, current);
    GetAppend(o, CurrentOnly(found, current), k);
    if HasKey(found, k) {
      OverlayLookup(found, current, k);
    } else {
      KeysOfFilter(NotIn(found), current);
      GetOfKeptKey(NotIn(found), current, k);
    }
  }

  lemma {:induction false} OverlayLookup(found: Catalog, current: Catalog, k: string)
    requires HasKey(found, k)
    ensures Get(Overlay(found, current), k) ==
      if HasKey(current, k) then Get(current, k) else Get(found, k)
  {
    if found[0].0 != k {
      assert Keys(found) == [found[0].0] + Keys(found[1..]);
      assert Overlay(found, current)[1..] == Overlay(found[1..], current);
      OverlayLookup(found[1..], current, k);
    }
  }

  /** Filtering by key leaves the lookup of a kept key unchanged. */
  lemma {:induction false} GetOfKeptKey(p: string -> bool, c: Catalog, k: string)
    requires p(k)
    ensures Get(Seqs.Filter(OnKey(p), c), k) == Get(c, k)
  {
    if |c| > 0 {
      GetOfKeptKey(p, c[1..], k);
      GetAppend(if p(c[0].0) then [c[0]] else [], Seqs.Filter(OnKey(p), c[1..]), k);
      assert Keys([c[0]]) == [c[0].0];
    }
  }

  /** Non-destructive: every catalog entry survives the keep-all merge, and
      the only other entries are found entries whose key the catalog lacks. */
  lemma MergeMembership(found: Catalog, current: Catalog, e: Entry)
    requires WellFormed(current)
    ensures e in Merge(found, current) <==> e in current || (e in found && !HasKey(current, e.0))
  {
    if e in current {
      if HasKey(found, e.0) {
        GetWellFormed(current, e.0, e.1);
        var i := Seqs.FirstIndex(Keys(found), e.0);
        assert Overlay(found, current)[i] == e;
      }
    }
    if e in Overlay(found, current) {
      var i :| 0 <= i < |found| && Overlay(found, current)[i] == e;
      if HasKey(current, e.0) {
        GetWellFormed(current, e.0, e.1);
      } else {
        assert e == found[i];
      }
    }
    if e in found && !HasKey(current, e.0) {
      var i :| 0 <= i < |found| && found[i] == e;
      assert Overlay(found, current)[i] == e;
    }
  }

  lemma MergeWellFormed(found: Catalog, current: Catalog)
    requires WellFormed(found) && WellFormed(current)
    ensures WellFormed(Merge(found, current))
  {
    MergeKeyOrder(found, current);
    var ks := Keys(Merge(found, current));
    var tail := Seqs.Filter(NotIn(found), Keys(current));
    FilterOfDistinct(NotIn(found), Keys(current));
    forall i, j | 0 <= i < j < |ks| ensures ks[i] != ks[j] {
      if j >= |found| && i < |found| {
        assert ks[j] in tail;
        assert ks[i] in Keys(found);
      }
      if i >= |found| {
        assert ks[i] == tail[i - |found|] && ks[j] == tail[j - |found|];
      }
    }
  }

  lemma {:induction false} FilterOfDistinct(p: string -> bool, s: seq<string>)
    requires Seqs.Distinct(s)
    ensures Seqs.Distinct(Seqs.Filter(p, s))
  {
    if |s| > 0 {
      FilterOfDistinct(p, s[1..]);
      assert s[0] !in s[1..];
    }
  }

  /** Keep-all idempotence: merging the found keys into an already merged
      catalog changes nothing. */
  lemma MergeIdempotent(found: Catalog, current: Catalog)
    requires WellFormed(found)
    ensures Merge(found, Merge(found, current)) == Merge(found, current)
  {
    OverlayOfMerge(found, current);
    CurrentOnlyOfMerge(found, current);
  }

  lemma OverlayOfMerge(found: Catalog, current: Catalog)
    requires WellFormed(found)
    ensures Overlay(found, Merge(found, current)) == Overlay(found, current)
  {
    var o := Overlay(found, current);
    var m := Merge(found, current);
    forall i | 0 <= i < |found| ensures Overlay(found, m)[i] == o[i] {
      assert Keys(found)[i] == found[i].0;
      assert Keys(o)[i] == found[i].0;
      GetAppend(o, CurrentOnly(found, current), found[i].0);
      GetAt(o, i);
    }
  }

  lemma CurrentOnlyOfMerge(found: Catalog, current: Catalog)
    ensures CurrentOnly(found, Merge(found, current)) == CurrentOnly(found, current)
  {
    var o := Overlay(found, current);
    var notFound := OnKey(NotIn(found));
    Seqs.FilterAppend(notFound, o, CurrentOnly(found, current));
    OverlayKeysAreFound(found, current);
    Seqs.FilterKeepsNone(notFound, o);
    Seqs.FilterAbsorbs(notFound, notFound, current);
  }

  // ---------------------------------------------------------------------------
  // Prune: `removeMissingKeys`.
  // ---------------------------------------------------------------------------

  /** `$currentKeys->get($key) ?? $value`: the catalog's translation unless it
      is absent or `null`. */
  function PrunedValue(current: Catalog, e: Entry): Value {
    match Get(current, e.0)
    case Some(Str(s)) => Str(s)
    case _ => e.1
  }

  /** Exactly the found keys, in found order, keeping existing translations. */
  function RemoveMissingKeys(current: Catalog, found: Catalog): (r: Catalog)
    ensures Keys(r) == Keys(found)
  {
    seq(|found|, i requires 0 <= i < |found| => (found[i].0, PrunedValue(current, found[i])))
  }

  /** Prune keeps every existing translation of a found key. */
  lemma PruneKeepsTranslations(current: Catalog, found: Catalog, k: string, s: string)
    requires WellFormed(current) && (k, Str(s)) in current && HasKey(found, k)
    ensures (k, Str(s)) in RemoveMissingKeys(current, found)
  {
    GetWellFormed(current, k, Str(s));
    var i := Seqs.FirstIndex(Keys(found), k);
    assert RemoveMissingKeys(current, found)[i] == (k, Str(s));
  }

  /** Entry by entry, for every catalog: the found key, with the catalog's
      string translation when it has one, and the found value when the key is
      absent from the catalog or holds `null`. */
  lemma PruneLookup(current: Catalog, found: Catalog, i: nat)
    requires i < |found|
    ensures var g := Get(current, found[i].0);
      RemoveMissingKeys(current, found)[i] ==
        (found[i].0, if g.Some? && g.value.Str? then g.value else found[i].1)
  {
  }

  /** Without `null` values in the catalog, the prune is the keep-all merge
      restricted to the found keys. */
  lemma PruneIsRestrictedMerge(current: Catalog, found: Catalog)
    requires WellFormed(current)
    requires forall e | e in current :: e.1.Str?
    ensures RemoveMissingKeys(current, found) == Seqs.Filter(OnKey(In(found)), Merge(found, current))
  {
    RestrictedMergeIsOverlay(found, current);
    PruneIsOverlay(current, found);
  }

  lemma RestrictedMergeIsOverlay(found: Catalog, current: Catalog)
    ensures Seqs.Filter(OnKey(In(found)), Merge(found, current)) == Overlay(found, current)
  {
    var o := Overlay(found, current);
    var inFound := OnKey(In(found));
    Seqs.FilterAppend(inFound, o, CurrentOnly(found, current));
    OverlayKeysAreFound(found, current);
    Seqs.FilterKeepsAll(inFound, o);
    Seqs.FilterKeepsNone(inFound, CurrentOnly(found, current));
  }

  lemma PruneIsOverlay(current: Catalog, found: Catalog)
    requires forall e | e in current :: e.1.Str?
    ensures RemoveMissingKeys(current, found) == Overlay(found, current)
  {
    forall i | 0 <= i < |found| ensures RemoveMissingKeys(current, found)[i] == Overlay(found, current)[i] {
      var g := Get(current, found[i].0);
      if g.Some? {
        assert (found[i].0, g.value) in current;
      }
    }
  }

  /** Pruning again with the same found keys changes nothing. */
  lemma PruneIdempotent(current: Catalog, found: Catalog)
    requires WellFormed(found)
    ensures RemoveMissingKeys(RemoveMissingKeys(current, found), found) == RemoveMissingKeys(current, found)
  {
    var p := RemoveMissingKeys(current, found);
    forall i | 0 <= i < |found| ensures RemoveMissingKeys(p, found)[i] == p[i] {
      assert Keys(found)[i] == found[i].0;
      GetAt(p, i);
    }
  }

  // ---------------------------------------------------------------------------
  // Added keys: `$newKeys->diffKeys($currentKeys)`.
  // ---------------------------------------------------------------------------

  /** The found entries whose key the catalog lacks, in found order. */
  function KeysThatWillBeAdded(current: Catalog, found: Catalog): (r: Catalog)
    ensures forall e :: e in r <==> e in found && !HasKey(current, e.0)
  {
    Seqs.Filter(OnKey(NotIn(current)), found)
  }

  /** The merge holds the catalog's keys and the added keys, and nothing else. */
  lemma MergedKeysAreCurrentPlusAdded(current: Catalog, found: Catalog, k: string)
    ensures HasKey(Merge(found, current), k) <==>
      HasKey(current, k) || HasKey(KeysThatWillBeAdded(current, found), k)
  {
    MergeKeyOrder(found, current);
    KeysOfFilter(NotIn(current), found);
  }
}
