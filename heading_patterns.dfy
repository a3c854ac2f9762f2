/**
 * The four heading regexes of the PDF processor, each as a predicate on the
 * (ASCII) text, written the way Python's `re.match` runs them: anchored at the
 * start, greedy runs, and `$` accepting either the end of the text or the
 * position just before a final newline. Each is paired with an independent
 * description of the language it accepts and a lemma proving the two agree.
 */
module HeadingPatterns {
  import opened PyText

  /** Where the regex anchor `$` succeeds: the end, or just before a final '\n'. */
  predicate AtEnd(s: string, i: nat) {
    i == |s| || (i + 1 == |s| && s[i] == '\n')
  }

  /** Length of the longest run of characters of class `cls` starting at `i`. */
  function RunLen(s: string, i: nat, cls: char -> bool): (n: nat)
    requires i <= |s|
    ensures i + n <= |s|
    ensures forall k :: i <= k < i + n ==> cls(s[k])
    ensures i + n == |s| || !cls(s[i + n])
    decreases |s| - i
  {
    if i == |s| || !cls(s[i]) then 0 else 1 + RunLen(s, i + 1, cls)
  }

  /** A run that is followed by a character outside its class is the longest one. */
  lemma {:induction false} RunLenExact(s: string, i: nat, cls: char -> bool, n: nat)
    requires i + n <= |s|
    requires forall k :: i <= k < i + n ==> cls(s[k])
    requires i + n == |s| || !cls(s[i + n])
    ensures RunLen(s, i, cls) == n
    decreases n
  {
    if n > 0 {
      RunLenExact(s, i + 1, cls, n - 1);
    }
  }

  predicate IsUpperOrSpace(c: char) { IsUpperChar(c) || IsSpaceChar(c) }

  // ---------------------------------------------------------------------------
  // Pattern 1, ALL CAPS: ^[A-Z][A-Z\s]{2,}$

  /** `re.match(r'^[A-Z][A-Z\s]{2,}$', s)`: a capital, a greedy run of at least two, then `$`. */
  predicate AllCapsPattern(s: string) {
    |s| >= 1 && IsUpperChar(s[0]) &&
    var n := RunLen(s, 1, IsUpperOrSpace);
    n >= 2 && AtEnd(s, 1 + n)
  }

  /** The ALL CAPS language: at least three characters, a capital first, only capitals and whitespace. */
  predicate AllCapsText(s: string) {
    |s| >= 3 && IsUpperChar(s[0]) &&
    forall i :: 1 <= i < |s| ==> IsUpperOrSpace(s[i])
  }

  /** The final newline `$` may skip is whitespace, so the anchor adds nothing here. */
  lemma AllCapsIff(s: string)
    ensures AllCapsPattern(s) <==> AllCapsText(s)
  {
    if AllCapsText(s) {
      RunLenExact(s, 1, IsUpperOrSpace, |s| - 1);
    }
  }

  // ---------------------------------------------------------------------------
  // Patterns 2 and 4, numbered and Roman: ^\d+\.\s+[A-Z] and ^[IVX]+\.\s+[A-Z]

  /**
   * `re.match(r'^M+\.\s+[A-Z]', s)` for a marker class M: a greedy run of
   * markers, a dot, a greedy run of whitespace, a capital. Only a prefix of
   * `s` has to match.
   */
  predicate MarkerPrefix(s: string, marker: char -> bool) {
    var d := RunLen(s, 0, marker);
    d >= 1 && d < |s| && s[d] == '.' &&
    var w := RunLen(s, d + 1, IsSpaceChar);
    w >= 1 && d + 1 + w < |s| && IsUpperChar(s[d + 1 + w])
  }

  /** `^\d+\.\s+[A-Z]`, a numbered heading such as "2. Results". */
  predicate NumberedPattern(s: string) { MarkerPrefix(s, IsDigitChar) }

  /** `^[IVX]+\.\s+[A-Z]`, a Roman-numbered heading such as "IV. Methods". */
  predicate RomanPattern(s: string) { MarkerPrefix(s, IsRomanChar) }

  /** `s` begins with `d` markers, a dot, `w` whitespace characters and a capital. */
  predicate MarkerShape(s: string, marker: char -> bool, d: nat, w: nat) {
    d >= 1 && w >= 1 && d + 1 + w < |s| &&
    (forall k :: 0 <= k < d ==> marker(s[k])) && s[d] == '.' &&
    (forall k :: d < k <= d + w ==> IsSpaceChar(s[k])) &&
    IsUpperChar(s[d + 1 + w])
  }

  /**
   * Greedy matching finds a prefix of this shape exactly when one exists,
   * because a dot is not a marker and a capital is not whitespace.
   */
  lemma MarkerPrefixIff(s: string, marker: char -> bool)
    requires !marker('.')
    ensures MarkerPrefix(s, marker) <==> exists d: nat, w: nat :: MarkerShape(s, marker, d, w)
  {
    if MarkerPrefix(s, marker) {
      var d := RunLen(s, 0, marker);
      var w := RunLen(s, d + 1, IsSpaceChar);
      assert MarkerShape(s, marker, d, w);
    }
    if exists d: nat, w: nat :: MarkerShape(s, marker, d, w) {
      var d: nat, w: nat :| MarkerShape(s, marker, d, w);
      RunLenExact(s, 0, marker, d);
      RunLenExact(s, d + 1, IsSpaceChar, w);
    }
  }

  // ---------------------------------------------------------------------------
  // Pattern 3, Title Case: ^[A-Z][a-z]+(?:\s+[A-Z][a-z]+)*$

  /** `[A-Z][a-z]+` matches at `i`. */
  predicate WordAt(s: string, i: nat) {
    i < |s| && IsUpperChar(s[i]) && RunLen(s, i + 1, IsLowerChar) >= 1
  }

  /** The position just after the greedy word that starts at `i`. */
  function WordEnd(s: string, i: nat): (e: nat)
    requires i < |s|
    ensures i < e <= |s|
  {
    i + 1 + RunLen(s, i + 1, IsLowerChar)
  }

  /** `(?:\s+[A-Z][a-z]+)*$` matches from position `i`. */
  predicate TitleRest(s: string, i: nat)
    requires i <= |s|
    decreases |s| - i
  {
    AtEnd(s, i) ||
    (var w := RunLen(s, i, IsSpaceChar);
     w >= 1 && WordAt(s, i + w) && TitleRest(s, WordEnd(s, i + w)))
  }

  /** `re.match(r'^[A-Z][a-z]+(?:\s+[A-Z][a-z]+)*$', s)`. */
  predicate TitleCasePattern(s: string) {
    WordAt(s, 0) && TitleRest(s, WordEnd(s, 0))
  }

  /**
   * Position `i` of the first `n` characters is well placed in a sequence of
   * words `[A-Z][a-z]+` separated by whitespace: a capital starts a word and
   * is followed by a small letter, a small letter follows a letter, and
   * whitespace follows a small letter or whitespace.
   */
  predicate TitleCharOk(s: string, n: nat, i: nat)
    requires i < n <= |s|
  {
    if IsUpperChar(s[i]) then (i == 0 || IsSpaceChar(s[i - 1])) && i + 1 < n && IsLowerChar(s[i + 1])
    else if IsLowerChar(s[i]) then i > 0 && (IsUpperChar(s[i - 1]) || IsLowerChar(s[i - 1]))
    else IsSpaceChar(s[i]) && i > 0 && (IsLowerChar(s[i - 1]) || IsSpaceChar(s[i - 1]))
  }

  /** The first `n` characters are Title Case words separated by whitespace, and nothing else. */
  predicate TitleWordsUpTo(s: string, n: nat)
    requires n <= |s|
  {
    2 <= n && IsUpperChar(s[0]) && IsLowerChar(s[n - 1]) &&
    forall i :: 0 <= i < n ==> TitleCharOk(s, n, i)
  }

  /** The Title Case language: the whole text, or the text without one final '\n'. */
  predicate TitleCaseText(s: string) {
    TitleWordsUpTo(s, |s|) || (|s| >= 1 && s[|s| - 1] == '\n' && TitleWordsUpTo(s, |s| - 1))
  }

  lemma SpaceIsNoLetter(c: char)
    requires IsSpaceChar(c)
    ensures !IsUpperChar(c) && !IsLowerChar(c)
  {
  }

  /** The first word of a match is a Title Case prefix. */
  lemma FirstWordOk(s: string)
    requires WordAt(s, 0)
    ensures TitleWordsUpTo(s, WordEnd(s, 0))
  {
    var e := WordEnd(s, 0);
    forall i | 0 <= i < e ensures TitleCharOk(s, e, i) {
      if i > 0 {
        assert IsLowerChar(s[i]);
        if i > 1 { assert IsLowerChar(s[i - 1]); }
      } else {
        assert IsLowerChar(s[1]);
      }
    }
  }

  /** Appending whitespace and one more word to a Title Case prefix keeps it one. */
  lemma ExtendTitleWords(s: string, i: nat)
    requires i <= |s| && TitleWordsUpTo(s, i)
    requires RunLen(s, i, IsSpaceChar) >= 1 && WordAt(s, i + RunLen(s, i, IsSpaceChar))
    ensures TitleWordsUpTo(s, WordEnd(s, i + RunLen(s, i, IsSpaceChar)))
  {
    var j := i + RunLen(s, i, IsSpaceChar);
    var e := WordEnd(s, j);
    forall k | 0 <= k < e ensures TitleCharOk(s, e, k) {
      if k < i {
        assert TitleCharOk(s, i, k);
      } else if k < j {
        SpaceIsNoLetter(s[k]);
        if k > i { assert IsSpaceChar(s[k - 1]); }
      } else if k == j {
        assert IsSpaceChar(s[j - 1]);
        assert IsLowerChar(s[j + 1]);
      } else {
        assert IsLowerChar(s[k]);
        if k > j + 1 { assert IsLowerChar(s[k - 1]); }
      }
    }
  }

  lemma {:induction false} TitleRestSound(s: string, i: nat)
    requires i <= |s| && TitleWordsUpTo(s, i) && TitleRest(s, i)
    ensures TitleCaseText(s)
    decreases |s| - i
  {
    if !AtEnd(s, i) {
      var j := i + RunLen(s, i, IsSpaceChar);
      ExtendTitleWords(s, i);
      TitleRestSound(s, WordEnd(s, j));
    }
  }

  lemma {:induction false} TitleRestComplete(s: string, n: nat, i: nat)
    requires n == |s| || (n + 1 == |s| && s[n] == '\n')
    requires TitleWordsUpTo(s, n)
    requires 2 <= i <= n && IsLowerChar(s[i - 1]) && (i == n || !IsLowerChar(s[i]))
    ensures TitleRest(s, i)
    decreases n - i
  {
    if i < n {
      assert TitleCharOk(s, n, i);
      assert IsSpaceChar(s[i]);
      var w := RunLen(s, i, IsSpaceChar);
      var j := i + w;
      assert !IsSpaceChar(s[j]) && IsSpaceChar(s[j - 1]);
      assert TitleCharOk(s, n, j);
      SpaceIsNoLetter(s[j - 1]);
      assert IsUpperChar(s[j]) && IsLowerChar(s[j + 1]);
      TitleRestComplete(s, n, WordEnd(s, j));
    }
  }

  /** The greedy Title Case matcher accepts exactly the Title Case language. */
  lemma TitleCaseIff(s: string)
    ensures TitleCasePattern(s) <==> TitleCaseText(s)
  {
    if TitleCasePattern(s) {
      FirstWordOk(s);
      TitleRestSound(s, WordEnd(s, 0));
    }
    if TitleCaseText(s) {
      var n := if TitleWordsUpTo(s, |s|) then |s| else |s| - 1;
      assert TitleCharOk(s, n, 0);
      assert WordAt(s, 0);
      TitleRestComplete(s, n, WordEnd(s, 0));
    }
  }
}
