/** Assembly of the found-key map: the gathered keys lose the empty ones
    (src/Commands/Translate.php:442-444), then the ignored ones, the
    translatable keys are appended, and `flip` keeps each key once, at its
    first position, with the value `""` (src/Commands/Translate.php:452-460). */
module KeySet {
  import Seqs
  import opened Catalog

  /** PHP's `empty` on a string is true for `""` and for `"0"`. */
  predicate IsPhpEmpty(k: string) {
    k == "" || k == "0"
  }

  function NonEmpty(): string -> bool {
    (k: string) => !IsPhpEmpty(k)
  }

  function NotIgnored(ignore: seq<string>): string -> bool {
    (k: string) => k !in ignore
  }

  /** The result of `getAllTranslationKeys`: the keys from the files, then the
      keys read from the models, without the empty ones. */
  function GatheredKeys(fileKeys: seq<string>, modelKeys: seq<string>): (r: seq<string>)
    ensures forall k :: k in r <==> (k in fileKeys || k in modelKeys) && !IsPhpEmpty(k)
  {
    Seqs.Filter(NonEmpty(), fileKeys + modelKeys)
  }

  /** The keys that survive `diff` and `concat`, in order, with repetitions. */
  function Candidates(gathered: seq<string>, ignore: seq<string>, translatables: seq<string>): seq<string> {
    Seqs.Filter(NotIgnored(ignore), gathered) + translatables
  }

  /** Every key paired with the empty translation. */
  function Blank(keys: seq<string>): (c: Catalog)
    ensures Keys(c) == keys
    ensures forall e | e in c :: e.1 == Str("")
  {
    seq(|keys|, i requires 0 <= i < |keys| => (keys[i], Str("")))
  }

  /** `filterTranslationKeys`: one entry per key, valued `""`. A translatable
      key is kept even when it is ignored or empty. */
  function FoundKeys(gathered: seq<string>, ignore: seq<string>, translatables: seq<string>): (found: Catalog)
    ensures WellFormed(found)
    ensures forall k :: HasKey(found, k) <==> (k in gathered && k !in ignore) || k in translatables
    ensures forall e | e in found :: e.1 == Str("")
  {
    Blank(Seqs.Dedup(Candidates(gathered, ignore, translatables)))
  }

  /** `flip` order: keys come out in the order of their first occurrence among
      the candidates. */
  lemma FoundKeysFirstOccurrenceOrder(gathered: seq<string>, ignore: seq<string>, translatables: seq<string>, i: nat, j: nat)
    requires i < j < |FoundKeys(gathered, ignore, translatables)|
    ensures var ks := Keys(FoundKeys(gathered, ignore, translatables));
      var source := Candidates(gathered, ignore, translatables);
      ks[i] in source && ks[j] in source &&
      Seqs.FirstIndex(source, ks[i]) < Seqs.FirstIndex(source, ks[j])
  {
    var source := Candidates(gathered, ignore, translatables);
    assert Keys(FoundKeys(gathered, ignore, translatables)) == Seqs.Dedup(source);
    DedupOrder(source, i, j);
  }

  lemma DedupOrder(s: seq<string>, i: nat, j: nat)
    requires i < j < |Seqs.Dedup(s)|
    ensures Seqs.FirstIndex(s, Seqs.Dedup(s)[i]) < Seqs.FirstIndex(s, Seqs.Dedup(s)[j])
  {
    Seqs.DedupKeepsFirstOccurrenceOrder(s);
  }

  /** Keys that are already distinct and neither empty nor ignored come out
      unchanged, in their own order. */
  lemma DistinctKeysPassThrough(keys: seq<string>, ignore: seq<string>)
    requires Seqs.Distinct(keys)
    requires forall k | k in keys :: !IsPhpEmpty(k) && k !in ignore
    ensures Keys(FoundKeys(GatheredKeys(keys, []), ignore, [])) == keys
  {
    assert keys + [] == keys;
    Seqs.FilterKeepsAll(NonEmpty(), keys);
    Seqs.FilterKeepsAll(NotIgnored(ignore), keys);
    assert Candidates(keys, ignore, []) == keys;
    Seqs.DedupOfDistinct(keys);
  }

  /** `"0"` is dropped like the empty key when found in a file, yet kept when
      it is translatable. */
  lemma ZeroKey(fileKeys: seq<string>)
    ensures !HasKey(FoundKeys(GatheredKeys(fileKeys, []), [], []), "0")
    ensures HasKey(FoundKeys(GatheredKeys(fileKeys, []), [], ["0"]), "0")
  {
  }
}
