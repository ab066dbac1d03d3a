/** Key sorting: `$items->sortKeys()` (src/Commands/Translate.php:195-198).
    Keys compare character by character, a proper prefix first; for the
    non-numeric keys modelled here this is PHP's string comparison, and on
    UTF-8 text byte order and code-point order agree. */
module KeyOrder {
  import opened Catalog

  predicate KeyLess(a: string, b: string)
    decreases |a|
  {
    if |a| == 0 then |b| > 0
    else |b| > 0 && (a[0] < b[0] || (a[0] == b[0] && KeyLess(a[1..], b[1..])))
  }

  lemma {:induction false} KeyLessIrreflexive(a: string)
    ensures !KeyLess(a, a)
    decreases |a|
  {
    if |a| > 0 {
      KeyLessIrreflexive(a[1..]);
    }
  }

  lemma {:induction false} KeyLessTransitive(a: string, b: string, c: string)
    requires KeyLess(a, b) && KeyLess(b, c)
    ensures KeyLess(a, c)
    decreases |a|
  {
    if |a| > 0 && a[0] == b[0] && b[0] == c[0] {
      KeyLessTransitive(a[1..], b[1..], c[1..]);
    }
  }

  /** Distinct keys are always ordered one way or the other. */
  lemma {:induction false} KeyLessTotal(a: string, b: string)
    requires a != b
    ensures KeyLess(a, b) || KeyLess(b, a)
    decreases |a|
  {
    if |a| > 0 && |b| > 0 && a[0] == b[0] {
      assert a == [a[0]] + a[1..] && b == [b[0]] + b[1..];
      KeyLessTotal(a[1..], b[1..]);
    }
  }

  lemma KeyLessAsymmetric(a: string, b: string)
    requires KeyLess(a, b)
    ensures !KeyLess(b, a)
  {
    if KeyLess(b, a) {
      KeyLessTransitive(a, b, a);
      KeyLessIrreflexive(a);
    }
  }

  /** "Not less than" is transitive, as the order is total. */
  lemma NotLessTransitive(a: string, b: string, c: string)
    requires !KeyLess(a, b) && !KeyLess(b, c)
    ensures !KeyLess(a, c)
  {
    if KeyLess(a, c) {
      if a == b {
      } else {
        KeyLessTotal(a, b);
        KeyLessTransitive(b, a, c);
      }
    }
  }

  predicate Sorted(c: Catalog) {
    forall i, j | 0 <= i < j < |c| :: !KeyLess(c[j].0, c[i].0)
  }

  predicate StrictlySorted(c: Catalog) {
    forall i, j | 0 <= i < j < |c| :: KeyLess(c[i].0, c[j].0)
  }

  /** Inserts `e` before the first entry whose key is not less than its own. */
  function Insert(e: Entry, c: Catalog): (r: Catalog)
    requires Sorted(c)
    ensures Sorted(r)
    ensures multiset(r) == multiset(c) + multiset{e}
    ensures StrictlySorted(c) && !HasKey(c, e.0) ==> StrictlySorted(r)
  {
    if |c| == 0 then [e]
    else if !KeyLess(c[0].0, e.0) then
      InsertFrontSorted(e, c);
      [e] + c
    else
      var rest := Insert(e, c[1..]);
      assert multiset(c) == multiset{c[0]} + multiset(c[1..]) by {
        assert c == [c[0]] + c[1..];
      }
      TailKeepsStrictness(e, c);
      InsertAfterSorted(e, c, rest);
      [c[0]] + rest
  }

  lemma InsertFrontSorted(e: Entry, c: Catalog)
    requires Sorted(c) && |c| > 0 && !KeyLess(c[0].0, e.0)
    ensures Sorted([e] + c)
    ensures StrictlySorted(c) && !HasKey(c, e.0) ==> StrictlySorted([e] + c)
  {
    var r := [e] + c;
    forall j | 0 < j < |r| ensures !KeyLess(r[j].0, e.0) {
      if j == 1 {
        KeyLessIrreflexive(c[0].0);
      }
      NotLessTransitive(r[j].0, c[0].0, e.0);
    }
    if StrictlySorted(c) && !HasKey(c, e.0) {
      assert Keys(c)[0] == c[0].0;
      KeyLessTotal(e.0, c[0].0);
      forall j | 1 < j < |r| ensures KeyLess(e.0, r[j].0) {
        KeyLessTransitive(e.0, c[0].0, r[j].0);
      }
    }
  }

  lemma TailKeepsStrictness(e: Entry, c: Catalog)
    requires |c| > 0
    ensures StrictlySorted(c) && !HasKey(c, e.0) ==> StrictlySorted(c[1..]) && !HasKey(c[1..], e.0)
  {
    assert Keys(c[1..]) == Keys(c)[1..];
  }

  lemma InsertAfterSorted(e: Entry, c: Catalog, rest: Catalog)
    requires Sorted(c) && |c| > 0 && KeyLess(c[0].0, e.0)
    requires Sorted(rest) && multiset(rest) == multiset(c[1..]) + multiset{e}
    requires StrictlySorted(c) && !HasKey(c, e.0) ==> StrictlySorted(rest)
    ensures Sorted([c[0]] + rest)
    ensures StrictlySorted(c) && !HasKey(c, e.0) ==> StrictlySorted([c[0]] + rest)
  {
    var r := [c[0]] + rest;
    assert c == [c[0]] + c[1..];
    forall j | 0 < j < |r| ensures !KeyLess(r[j].0, c[0].0) && (StrictlySorted(c) ==> KeyLess(c[0].0, r[j].0)) {
      assert r[j] in multiset(rest);
      if r[j] == e {
        KeyLessAsymmetric(c[0].0, e.0);
      } else {
        assert r[j] in c[1..];
        var k :| 0 <= k < |c[1..]| && c[1..][k] == r[j];
        assert c[k + 1] == r[j];
      }
    }
  }

  /** `sortKeys`: the same entries in ascending key order. */
  function SortKeys(c: Catalog): (r: Catalog)
    ensures Sorted(r)
    ensures multiset(r) == multiset(c)
    ensures WellFormed(c) ==> StrictlySorted(r)
  {
    if |c| == 0 then []
    else
      var rest := SortKeys(c[1..]);
      assert c == [c[0]] + c[1..];
      HeadKeyIsNew(c, rest);
      Insert(c[0], rest)
  }

  lemma HeadKeyIsNew(c: Catalog, rest: Catalog)
    requires |c| > 0 && multiset(rest) == multiset(c[1..])
    ensures WellFormed(c) ==> WellFormed(c[1..]) && !HasKey(rest, c[0].0)
  {
    if WellFormed(c) {
      TailIsWellFormed(c);
      SameEntriesSameKeys(c[1..], rest, c[0].0);
    }
  }

  lemma TailIsWellFormed(c: Catalog)
    requires WellFormed(c) && |c| > 0
    ensures WellFormed(c[1..]) && !HasKey(c[1..], c[0].0)
  {
    assert Keys(c[1..]) == Keys(c)[1..];
    forall j | 0 <= j < |c| - 1 ensures Keys(c[1..])[j] != c[0].0 {
      assert Keys(c)[j + 1] != Keys(c)[0];
    }
  }

  lemma SameEntriesSameKeys(a: Catalog, b: Catalog, k: string)
    requires multiset(a) == multiset(b)
    ensures HasKey(a, k) <==> HasKey(b, k)
  {
    if HasKey(a, k) {
      var i :| 0 <= i < |a| && Keys(a)[i] == k;
      assert a[i] in multiset(b);
      MemberHasKey(b, a[i]);
    }
    if HasKey(b, k) {
      var i :| 0 <= i < |b| && Keys(b)[i] == k;
      assert b[i] in multiset(a);
      MemberHasKey(a, b[i]);
    }
  }

  lemma StrictlySortedIsWellFormed(c: Catalog)
    requires StrictlySorted(c)
    ensures WellFormed(c)
  {
    forall i, j | 0 <= i < j < |c| ensures Keys(c)[i] != Keys(c)[j] {
      if c[i].0 == c[j].0 {
        KeyLessIrreflexive(c[i].0);
      }
    }
  }

  /** A strictly sorted catalog is determined by its entries. */
  lemma {:induction false} StrictlySortedUnique(a: Catalog, b: Catalog)
    requires StrictlySorted(a) && StrictlySorted(b)
    requires forall e :: e in a <==> e in b
    ensures a == b
    decreases |a|
  {
    assert |b| > 0 ==> b[0] in b;
    if |a| == 0 {
    } else {
      assert a[0] in b && b[0] in a;
      if a[0] != b[0] {
        var i :| 0 < i < |a| && a[i] == b[0];
        var j :| 0 < j < |b| && b[j] == a[0];
        KeyLessAsymmetric(a[0].0, a[i].0);
      }
      assert a[0] == b[0];
      assert a == [a[0]] + a[1..] && b == [b[0]] + b[1..];
      KeyLessIrreflexive(a[0].0);
      forall e ensures e in a[1..] <==> e in b[1..] {
        if e in a[1..] {
          var i :| 0 <= i < |a[1..]| && a[1..][i] == e;
          assert e == a[i + 1] && e != a[0];
          assert e in b;
          assert e in b[1..];
        }
        if e in b[1..] {
          var j :| 0 <= j < |b[1..]| && b[1..][j] == e;
          assert e == b[j + 1] && e != b[0];
          assert e in a;
          assert e in a[1..];
        }
      }
      StrictlySortedUnique(a[1..], b[1..]);
      assert a == [a[0]] + a[1..] && b == [b[0]] + b[1..];
    }
  }

  lemma SameMultisetSameMembers(a: Catalog, b: Catalog)
    requires multiset(a) == multiset(b)
    ensures forall e :: e in a <==> e in b
  {
    forall e ensures e in a <==> e in b {
      assert e in a <==> e in multiset(a);
    }
  }

  /** Two catalogs with distinct keys and the same entries sort identically. */
  lemma SortKeysDependsOnlyOnEntries(a: Catalog, b: Catalog)
    requires WellFormed(a) && WellFormed(b)
    requires forall e :: e in a <==> e in b
    ensures SortKeys(a) == SortKeys(b)
  {
    var sa := SortKeys(a);
    var sb := SortKeys(b);
    SameMultisetSameMembers(sa, a);
    SameMultisetSameMembers(sb, b);
    StrictlySortedUnique(sa, sb);
  }

  /** Sorting a sorted catalog changes nothing. */
  lemma SortKeysIdempotent(c: Catalog)
    requires WellFormed(c)
    ensures SortKeys(SortKeys(c)) == SortKeys(c)
  {
    var s := SortKeys(c);
    StrictlySortedIsWellFormed(s);
    SameMultisetSameMembers(s, c);
    SortKeysDependsOnlyOnEntries(s, c);
  }

  /** The sorted fixture: a key starting with `:` sorts before one starting
      with an upper-case letter, and a prefix before its extensions. */
  lemma KeyOrderExamples()
    ensures KeyLess(":count authors found.", "Book saved.")
    ensures KeyLess("Book", "Book saved.")
    ensures !KeyLess("book", "Book saved.")
  {
    assert ":count authors found."[0] == ':' && "Book saved."[0] == 'B';
    assert "book"[0] == 'b';
  }
}
