/** Order-preserving filtering and first-occurrence de-duplication of
    sequences: the `filter`, `diff` and `flip` steps of the key pipeline keep
    the order in which keys were found. */
module Seqs {

  function Filter<T(!new)>(p: T -> bool, s: seq<T>): (r: seq<T>)
    ensures |r| <= |s|
    ensures forall x :: x in r <==> x in s && p(x)
  {
    if |s| == 0 then []
    else (if p(s[0]) then [s[0]] else []) + Filter(p, s[1..])
  }

  lemma {:induction false} FilterAppend<T(!new)>(p: T -> bool, a: seq<T>, b: seq<T>)
    ensures Filter(p, a + b) == Filter(p, a) + Filter(p, b)
  {
    if |a| == 0 {
      assert a + b == b;
    } else {
      assert (a + b)[1..] == a[1..] + b;
      FilterAppend(p, a[1..], b);
    }
  }

  /** Filtering by a stronger predicate makes a weaker filter before it redundant. */
  lemma {:induction false} FilterAbsorbs<T(!new)>(p: T -> bool, q: T -> bool, s: seq<T>)
    requires forall x :: p(x) ==> q(x)
    ensures Filter(p, Filter(q, s)) == Filter(p, s)
  {
    if |s| > 0 {
      FilterAbsorbs(p, q, s[1..]);
      FilterAppend(p, if q(s[0]) then [s[0]] else [], Filter(q, s[1..]));
    }
  }

  /** A filter that every element passes changes nothing. */
  lemma {:induction false} FilterKeepsAll<T(!new)>(p: T -> bool, s: seq<T>)
    requires forall x :: x in s ==> p(x)
    ensures Filter(p, s) == s
  {
    if |s| > 0 {
      FilterKeepsAll(p, s[1..]);
    }
  }

  /** A filter that no element passes leaves nothing. */
  lemma FilterKeepsNone<T(!new)>(p: T -> bool, s: seq<T>)
    requires forall x :: x in s ==> !p(x)
    ensures Filter(p, s) == []
  {
  }

  predicate Distinct<T(==,!new)>(s: seq<T>) {
    forall i, j :: 0 <= i < j < |s| ==> s[i] != s[j]
  }

  /** The position of the first occurrence of `x` in `s`. */
  function FirstIndex<T(==,!new)>(s: seq<T>, x: T): (i: nat)
    requires x in s
    ensures i < |s| && s[i] == x
    ensures forall j :: 0 <= j < i ==> s[j] != x
  {
    if s[0] == x then 0 else 1 + FirstIndex(s[1..], x)
  }

  /** Keeps the first occurrence of every element: each element is appended
      unless it is already there, as PHP's `array_flip` keeps the position a
      key was first inserted at. */
  function Dedup<T(==,!new)>(s: seq<T>): (r: seq<T>)
    ensures Distinct(r)
    ensures forall x :: x in r <==> x in s
    ensures |r| <= |s|
  {
    if |s| == 0 then []
    else
      var d := Dedup(s[..|s| - 1]);
      assert forall x :: x in s <==> x in s[..|s| - 1] || x == s[|s| - 1] by {
        assert s == s[..|s| - 1] + [s[|s| - 1]];
      }
      if s[|s| - 1] in d then d else d + [s[|s| - 1]]
  }

  /** One step of `Dedup`, for a sequence written as a prefix and a last element. */
  lemma DedupSnoc<T(!new)>(s: seq<T>, x: T)
    ensures Dedup(s + [x]) == if x in Dedup(s) then Dedup(s) else Dedup(s) + [x]
  {
    assert (s + [x])[..|s + [x]| - 1] == s;
  }

  lemma FirstIndexInPrefix<T(!new)>(s: seq<T>, n: nat, x: T)
    requires n <= |s| && x in s[..n]
    ensures FirstIndex(s, x) == FirstIndex(s[..n], x)
  {
    var i := FirstIndex(s[..n], x);
    assert s[i] == x;
    var k := FirstIndex(s, x);
    assert k <= i;
    assert s[..n][k] == x;
  }

  /** Elements come out in the order of their first occurrences. */
  lemma {:induction false} DedupKeepsFirstOccurrenceOrder<T(!new)>(s: seq<T>)
    ensures var r := Dedup(s);
      forall i, j :: 0 <= i < j < |r| ==> FirstIndex(s, r[i]) < FirstIndex(s, r[j])
  {
    if |s| > 0 {
      var s' := s[..|s| - 1];
      var x := s[|s| - 1];
      assert s == s' + [x];
      DedupSnoc(s', x);
      var d := Dedup(s');
      DedupKeepsFirstOccurrenceOrder(s');
      OrderCarriesOver(s, |s| - 1, d);
      if x !in d {
        assert FirstIndex(s, x) == |s| - 1;
        OrderedSnoc(s, d, x);
      }
    }
  }

  /** An order by first occurrence in a prefix is the same order in the whole
      sequence, and every first occurrence lies inside the prefix. */
  lemma OrderCarriesOver<T(!new)>(s: seq<T>, n: nat, d: seq<T>)
    requires n <= |s|
    requires forall y :: y in d ==> y in s[..n]
    requires forall i, j :: 0 <= i < j < |d| ==> FirstIndex(s[..n], d[i]) < FirstIndex(s[..n], d[j])
    ensures forall y :: y in d ==> y in s && FirstIndex(s, y) < n
    ensures forall i, j :: 0 <= i < j < |d| ==> FirstIndex(s, d[i]) < FirstIndex(s, d[j])
  {
    forall y | y in d ensures y in s && FirstIndex(s, y) == FirstIndex(s[..n], y) < n {
      FirstIndexInPrefix(s, n, y);
    }
    forall i, j | 0 <= i < j < |d| ensures FirstIndex(s, d[i]) < FirstIndex(s, d[j]) {
      assert d[i] in d && d[j] in d;
    }
  }

  /** A newcomer whose first occurrence follows those of an ordered run extends
      the run in order. */
  lemma OrderedSnoc<T(!new)>(s: seq<T>, d: seq<T>, x: T)
    requires x in s
    requires forall y :: y in d ==> y in s && FirstIndex(s, y) < FirstIndex(s, x)
    requires forall i, j :: 0 <= i < j < |d| ==> FirstIndex(s, d[i]) < FirstIndex(s, d[j])
    ensures var r := d + [x];
      forall i, j :: 0 <= i < j < |r| ==> FirstIndex(s, r[i]) < FirstIndex(s, r[j])
  {
    var r := d + [x];
    forall i, j | 0 <= i < j < |r| ensures FirstIndex(s, r[i]) < FirstIndex(s, r[j]) {
      assert r[i] == d[i] && r[i] in d;
      if j < |d| {
        assert r[j] == d[j];
      } else {
        assert r[j] == x;
      }
    }
  }

  /** Appending elements that already occur changes nothing. */
  lemma {:induction false} DedupAbsorbs<T(!new)>(a: seq<T>, b: seq<T>)
    requires forall x :: x in b ==> x in a
    ensures Dedup(a + b) == Dedup(a)
  {
    if |b| == 0 {
      assert a + b == a;
    } else {
      var b' := b[..|b| - 1];
      assert (a + b)[..|a + b| - 1] == a + b';
      assert (a + b)[|a + b| - 1] == b[|b| - 1];
      DedupAbsorbs(a, b');
    }
  }

  /** Sequences with the same de-duplication stay so when the same suffix is appended. */
  lemma {:induction false} DedupAppendCongruence<T(!new)>(a: seq<T>, a': seq<T>, c: seq<T>)
    requires Dedup(a) == Dedup(a')
    ensures Dedup(a + c) == Dedup(a' + c)
  {
    if |c| == 0 {
      assert a + c == a && a' + c == a';
    } else {
      var c' := c[..|c| - 1];
      assert (a + c)[..|a + c| - 1] == a + c';
      assert (a' + c)[..|a' + c| - 1] == a' + c';
      assert (a + c)[|a + c| - 1] == c[|c| - 1] == (a' + c)[|a' + c| - 1];
      DedupAppendCongruence(a, a', c');
    }
  }

  /** Filtering before or after de-duplication gives the same sequence. */
  lemma {:induction false} DedupFilterCommute<T(!new)>(p: T -> bool, s: seq<T>)
    ensures Dedup(Filter(p, s)) == Filter(p, Dedup(s))
  {
    if |s| > 0 {
      var s' := s[..|s| - 1];
      var x := s[|s| - 1];
      assert s == s' + [x];
      DedupFilterCommute(p, s');
      DedupFilterSnoc(p, s', x);
    }
  }

  lemma DedupFilterSnoc<T(!new)>(p: T -> bool, s: seq<T>, x: T)
    requires Dedup(Filter(p, s)) == Filter(p, Dedup(s))
    ensures Dedup(Filter(p, s + [x])) == Filter(p, Dedup(s + [x]))
  {
    FilterAppend(p, s, [x]);
    if p(x) {
      DedupFilterKept(p, s, x);
    } else {
      assert Filter(p, [x]) == [];
      assert Filter(p, s + [x]) == Filter(p, s);
      DedupSnoc(s, x);
      FilterAppend(p, Dedup(s), [x]);
    }
  }

  lemma DedupFilterKept<T(!new)>(p: T -> bool, s: seq<T>, x: T)
    requires p(x) && Dedup(Filter(p, s)) == Filter(p, Dedup(s))
    ensures Dedup(Filter(p, s) + [x]) == Filter(p, Dedup(s + [x]))
  {
    assert Filter(p, [x]) == [x];
    DedupSnoc(Filter(p, s), x);
    DedupSnoc(s, x);
    FilterAppend(p, Dedup(s), [x]);
  }

  lemma {:induction false} DedupOfDistinct<T(!new)>(s: seq<T>)
    requires Distinct(s)
    ensures Dedup(s) == s
  {
    if |s| > 0 {
      var s' := s[..|s| - 1];
      DedupOfDistinct(s');
      assert s[|s| - 1] !in s';
      assert s' + [s[|s| - 1]] == s;
    }
  }
}
