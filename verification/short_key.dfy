/** The "short key" classifier `langKeyIsShortKey` (src/Commands/Translate.php:514-520).
    A short key is a dotted identifier such as `user.index.title`: a reference to
    a PHP translation file entry, which must not be copied into the JSON catalog
    as literal text. */
module ShortKey {
  import opened Text

  // ---------------------------------------------------------------------------
  // The regular expression `^\w[\w0-9_]+(\.[\w0-9_]+){1,}\w$`, read as a grammar.
  // `[\w0-9_]` is the same class as `\w`.
  // ---------------------------------------------------------------------------

  /** `(\.[\w0-9_]+){1,}\w` followed by the end of the subject: one or more
      groups of a dot and a word run, then one final word character. */
  ghost predicate DotGroupsThenWord(s: string)
    decreases |s|
  {
    exists j | 2 <= j < |s| ::
      && s[0] == '.'
      && AllWord(s[1..j])
      && ((j == |s| - 1 && IsWordChar(s[j])) || DotGroupsThenWord(s[j..]))
  }

  /** The whole pattern with `^` and `$` at the very ends of the subject. */
  ghost predicate MatchesShortKeyPattern(s: string) {
    exists i | 2 <= i < |s| :: IsWordChar(s[0]) && AllWord(s[1..i]) && DotGroupsThenWord(s[i..])
  }

  // ---------------------------------------------------------------------------
  // An executable characterisation of the same language.
  // ---------------------------------------------------------------------------

  predicate WordOrDot(s: string) {
    forall i :: 0 <= i < |s| ==> IsWordChar(s[i]) || s[i] == '.'
  }

  predicate NoAdjacentDots(s: string) {
    forall i :: 0 <= i < |s| - 1 ==> !(s[i] == '.' && s[i + 1] == '.')
  }

  /** Dot-separated word segments, at least two of them, none empty, and the
      first and the last at least two characters long. */
  predicate ShortKeyShape(s: string) {
    && |s| >= 2
    && IsWordChar(s[0]) && IsWordChar(s[1])
    && IsWordChar(s[|s| - 2]) && IsWordChar(s[|s| - 1])
    && WordOrDot(s)
    && NoAdjacentDots(s)
    && '.' in s
  }

  /** The shape of what `DotGroupsThenWord` accepts. */
  predicate DotTailShape(s: string) {
    && |s| >= 3
    && s[0] == '.'
    && IsWordChar(s[|s| - 2]) && IsWordChar(s[|s| - 1])
    && WordOrDot(s)
    && NoAdjacentDots(s)
  }

  /** Index of the first dot at or after `from`, or `|s|` when there is none. */
  function DotIndex(s: string, from: nat): (d: nat)
    requires from <= |s|
    ensures from <= d <= |s|
    ensures d < |s| ==> s[d] == '.'
    ensures forall k :: from <= k < d ==> s[k] != '.'
    decreases |s| - from
  {
    if from == |s| || s[from] == '.' then from else DotIndex(s, from + 1)
  }

  /** `langKeyIsShortKey` as written (src/Commands/Translate.php:514-520): the
      pattern above, whose `$` also matches just before a final line feed, and
      no `\s` anywhere in the key. */
  predicate LangKeyIsShortKey(key: string) {
    var looksLikeShortKey :=
      || ShortKeyShape(key)
      || (|key| > 0 && key[|key| - 1] == '\n' && ShortKeyShape(key[..|key| - 1]));
    var doesntContainSpaces := !exists i | 0 <= i < |key| :: IsSpace(key[i]);
    looksLikeShortKey && doesntContainSpaces
  }

  // ---------------------------------------------------------------------------
  // Lemmas
  // ---------------------------------------------------------------------------

  lemma {:induction false} DotTailShapeMatches(s: string)
    requires DotTailShape(s)
    ensures DotGroupsThenWord(s)
    decreases |s|
  {
    var d := DotIndex(s, 1);
    if d < |s| {
      assert d >= 2 by {
        assert !(s[0] == '.' && s[1] == '.');
      }
      assert d <= |s| - 3;
      assert AllWord(s[1..d]) by {
        forall k | 0 <= k < d - 1 ensures IsWordChar(s[1..d][k]) {
          assert s[1 + k] != '.';
        }
      }
      var t := s[d..];
      SuffixFromDotKeepsShape(s, d);
      DotTailShapeMatches(t);
      assert 2 <= d < |s| && s[0] == '.' && AllWord(s[1..d]) && DotGroupsThenWord(s[d..]);
    } else {
      var j := |s| - 1;
      assert AllWord(s[1..j]) by {
        forall k | 0 <= k < j - 1 ensures IsWordChar(s[1..j][k]) {
          assert s[1 + k] != '.';
        }
      }
      assert 2 <= j < |s| && s[0] == '.' && AllWord(s[1..j]) && j == |s| - 1 && IsWordChar(s[j]);
    }
  }

  /** A dot and a word run in front of a dotted tail form a dotted tail. */
  lemma PrependGroupKeepsShape(s: string, j: nat)
    requires 2 <= j < |s| && s[0] == '.'
    requires forall k :: 1 <= k < j ==> IsWordChar(s[k])
    requires DotTailShape(s[j..])
    ensures DotTailShape(s)
  {
    var t := s[j..];
    assert s[|s| - 2] == t[|t| - 2] && s[|s| - 1] == t[|t| - 1];
    forall k | j <= k < |s| ensures IsWordChar(s[k]) || s[k] == '.' {
      assert s[k] == t[k - j];
    }
    forall k | 0 <= k < |s| - 1 ensures !(s[k] == '.' && s[k + 1] == '.') {
      if k >= j {
        assert s[k] == t[k - j] && s[k + 1] == t[k - j + 1];
      }
    }
  }

  lemma {:induction false} MatchesHaveDotTailShape(s: string)
    requires DotGroupsThenWord(s)
    ensures DotTailShape(s)
    decreases |s|
  {
    var j :| 2 <= j < |s| && s[0] == '.' && AllWord(s[1..j])
             && ((j == |s| - 1 && IsWordChar(s[j])) || DotGroupsThenWord(s[j..]));
    assert forall k :: 1 <= k < j ==> IsWordChar(s[k]) by {
      forall k | 1 <= k < j ensures IsWordChar(s[k]) {
        assert s[k] == s[1..j][k - 1];
      }
    }
    if j == |s| - 1 && IsWordChar(s[j]) {
    } else {
      MatchesHaveDotTailShape(s[j..]);
      PrependGroupKeepsShape(s, j);
    }
  }

  /** The part of a dotted word string from one of its dots onwards keeps the shape. */
  lemma SuffixFromDotKeepsShape(s: string, d: nat)
    requires d <= |s| - 3 && s[d] == '.'
    requires IsWordChar(s[|s| - 2]) && IsWordChar(s[|s| - 1])
    requires WordOrDot(s) && NoAdjacentDots(s)
    ensures DotTailShape(s[d..])
  {
    var t := s[d..];
    assert t[|t| - 2] == s[|s| - 2] && t[|t| - 1] == s[|s| - 1];
    forall k | 0 <= k < |t| ensures IsWordChar(t[k]) || t[k] == '.' {
      assert t[k] == s[d + k];
    }
    forall k | 0 <= k < |t| - 1 ensures !(t[k] == '.' && t[k + 1] == '.') {
      assert t[k] == s[d + k] && t[k + 1] == s[d + k + 1];
    }
  }

  lemma ShapeMatchesPattern(s: string)
    requires ShortKeyShape(s)
    ensures MatchesShortKeyPattern(s)
  {
    var i := DotIndex(s, 0);
    assert i < |s|;
    assert 2 <= i <= |s| - 3;
    assert AllWord(s[1..i]) by {
      forall k | 0 <= k < i - 1 ensures IsWordChar(s[1..i][k]) {
        assert s[1 + k] != '.';
      }
    }
    SuffixFromDotKeepsShape(s, i);
    DotTailShapeMatches(s[i..]);
  }

  lemma PatternMatchesHaveShape(s: string)
    requires MatchesShortKeyPattern(s)
    ensures ShortKeyShape(s)
  {
    var i :| 2 <= i < |s| && IsWordChar(s[0]) && AllWord(s[1..i]) && DotGroupsThenWord(s[i..]);
    PatternWitnessHasShape(s, i);
  }

  lemma PatternWitnessHasShape(s: string, i: nat)
    requires 2 <= i < |s| && IsWordChar(s[0]) && AllWord(s[1..i]) && DotGroupsThenWord(s[i..])
    ensures ShortKeyShape(s)
  {
    MatchesHaveDotTailShape(s[i..]);
    forall k | 1 <= k < i ensures IsWordChar(s[k]) {
      assert s[k] == s[1..i][k - 1];
    }
    PrependWordKeepsShape(s, i);
  }

  /** A word run of two or more characters in front of a dotted tail is a short key. */
  lemma PrependWordKeepsShape(s: string, i: nat)
    requires 2 <= i < |s|
    requires forall k :: 0 <= k < i ==> IsWordChar(s[k])
    requires DotTailShape(s[i..])
    ensures ShortKeyShape(s)
  {
    var t := s[i..];
    assert s[|s| - 2] == t[|t| - 2] && s[|s| - 1] == t[|t| - 1];
    assert s[i] == t[0];
    forall k | i <= k < |s| ensures IsWordChar(s[k]) || s[k] == '.' {
      assert s[k] == t[k - i];
    }
    forall k | 0 <= k < |s| - 1 ensures !(s[k] == '.' && s[k + 1] == '.') {
      if k >= i {
        assert s[k] == t[k - i] && s[k + 1] == t[k - i + 1];
      }
    }
  }

  /** The executable shape accepts exactly the strings the pattern matches. */
  lemma ShortKeyShapeIffPattern(s: string)
    ensures ShortKeyShape(s) <==> MatchesShortKeyPattern(s)
  {
    if ShortKeyShape(s) {
      ShapeMatchesPattern(s);
    }
    if MatchesShortKeyPattern(s) {
      PatternMatchesHaveShape(s);
    }
  }

  /** The "no whitespace" test only ever rejects the keys that the pattern
      accepted through its `$`-before-final-line-feed reading: the classifier is
      exactly a whole-string match of the pattern. */
  lemma LangKeyIsShortKeyIffPattern(key: string)
    ensures LangKeyIsShortKey(key) <==> MatchesShortKeyPattern(key)
  {
    ShortKeyShapeIffPattern(key);
    if ShortKeyShape(key) {
      assert !exists i | 0 <= i < |key| :: IsSpace(key[i]) by {
        forall i | 0 <= i < |key| ensures !IsSpace(key[i]) {
          assert IsWordChar(key[i]) || key[i] == '.';
        }
      }
    }
    if |key| > 0 && key[|key| - 1] == '\n' {
      assert IsSpace(key[|key| - 1]);
      assert !ShortKeyShape(key);
    }
  }

  /** A short key never contains whitespace and always contains a dot, so no
      sentence is ever dropped by the classifier. */
  lemma ShortKeysAreDottedWords(key: string)
    requires LangKeyIsShortKey(key)
    ensures '.' in key
    ensures forall i :: 0 <= i < |key| ==> IsWordChar(key[i]) || key[i] == '.'
  {
    if !ShortKeyShape(key) {
      assert IsSpace(key[|key| - 1]);
    }
  }

  /** The classifier on the keys the test-suite and fixtures use. */
  lemma ShortKeyExamples()
    ensures LangKeyIsShortKey("user.index.title")
  {
  }

  lemma ShortKeyExamplesMore()
    ensures LangKeyIsShortKey("pagination.next")
  {
  }

  /** Two word runs of at least two characters joined by a dot form a short
      key, whatever word characters (underscores, digits) they hold. */
  lemma DottedWordsAreShortKeys(a: string, b: string)
    requires |a| >= 2 && |b| >= 2 && AllWord(a) && AllWord(b)
    ensures LangKeyIsShortKey(a + "." + b)
  {
    var key := a + "." + b;
    assert key[|a|] == '.';
    forall i | 0 <= i < |key| ensures IsWordChar(key[i]) || key[i] == '.' {
      if i < |a| {
        assert key[i] == a[i];
      } else if i > |a| {
        assert key[i] == b[i - |a| - 1];
      }
    }
    assert key[|key| - 2] == b[|b| - 2] && key[|key| - 1] == b[|b| - 1];
    assert key[0] == a[0] && key[1] == a[1];
    forall i | 0 <= i < |key| - 1 ensures !(key[i] == '.' && key[i + 1] == '.') {
      if i < |a| - 1 {
        assert key[i] == a[i];
      } else if i == |a| - 1 {
        assert key[i] == a[i];
      } else if i == |a| {
        assert key[i + 1] == b[0];
      } else {
        assert key[i] == b[i - |a| - 1];
      }
    }
    forall i | 0 <= i < |key| ensures !IsSpace(key[i]) {
      assert IsWordChar(key[i]) || key[i] == '.';
    }
  }

  /** A key with a space anywhere in it is never a short key. */
  lemma SpacedKeyIsNotShort(key: string, i: nat)
    requires i < |key| && IsSpace(key[i])
    ensures !LangKeyIsShortKey(key)
  {
  }

  /** Sentences, the empty key and a key whose first segment has one character
      are not short keys. */
  lemma NotShortKeyExamples()
    ensures !LangKeyIsShortKey("Created :date")
    ensures !LangKeyIsShortKey("New journey")
    ensures !LangKeyIsShortKey("Book saved.")
    ensures !LangKeyIsShortKey("")
    ensures !LangKeyIsShortKey("a.bc")
  {
    assert "Created :date"[7] == ' ';
    assert "New journey"[3] == ' ';
    assert "Book saved."[4] == ' ';
  }
}
