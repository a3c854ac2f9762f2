/**
 * The small part of Python's `str` behaviour that the heading heuristics rely on,
 * restricted to ASCII: character classes, `isupper`, `count`, `strip`,
 * `split('\n')`, and the decimal rendering of a non-negative `int`.
 */
module PyText {

  /** `[A-Z]` in a regex, and `c.isupper()` for one ASCII character. */
  predicate IsUpperChar(c: char) { 'A' <= c <= 'Z' }

  /** `[a-z]`, and `c.islower()` for one ASCII character. */
  predicate IsLowerChar(c: char) { 'a' <= c <= 'z' }

  /** `\d` restricted to ASCII. */
  predicate IsDigitChar(c: char) { '0' <= c <= '9' }

  /** `[IVX]`, the Roman-numeral class of the heading patterns. */
  predicate IsRomanChar(c: char) { c == 'I' || c == 'V' || c == 'X' }

  /**
   * Python's whitespace among ASCII characters: `str.isspace`, the characters
   * `str.strip()` removes and the regex class `\s` all agree on
   * TAB, LF, VT, FF, CR (9..13), the separators 28..31 and SPACE (32).
   */
  predicate IsSpaceChar(c: char) {
    (9 <= c as int <= 13) || (28 <= c as int <= 32)
  }

  /** `s.isupper()`: at least one cased character, and no lower-case one. */
  predicate IsUpper(s: string) {
    (exists i :: 0 <= i < |s| && IsUpperChar(s[i])) &&
    (forall i :: 0 <= i < |s| ==> !IsLowerChar(s[i]))
  }

  /** `c.upper()` for one ASCII character. */
  function UpperChar(c: char): char {
    if IsLowerChar(c) then (c as int - 32) as char else c
  }

  /** `c.lower()` for one ASCII character. */
  function LowerChar(c: char): char {
    if IsUpperChar(c) then (c as int + 32) as char else c
  }

  /** `s.upper()`. */
  function ToUpper(s: string): string {
    seq(|s|, i requires 0 <= i < |s| => UpperChar(s[i]))
  }

  /** `s.lower()`. */
  function ToLower(s: string): string {
    seq(|s|, i requires 0 <= i < |s| => LowerChar(s[i]))
  }

  /**
   * `isupper` through the case mappings: a string is upper case exactly when
   * upper-casing leaves it unchanged and lower-casing changes it.
   */
  lemma IsUpperIff(s: string)
    ensures IsUpper(s) <==> ToUpper(s) == s && ToLower(s) != s
  {
    if IsUpper(s) {
      var i :| 0 <= i < |s| && IsUpperChar(s[i]);
      assert ToLower(s)[i] != s[i];
      assert ToUpper(s) == s;
    }
    if ToUpper(s) == s && ToLower(s) != s {
      forall i | 0 <= i < |s| ensures !IsLowerChar(s[i]) {
        assert ToUpper(s)[i] == s[i];
      }
    }
  }

  /** `s.count(c)` for a one-character argument. */
  function Count(s: string, c: char): (n: nat)
    ensures n <= |s|
    ensures n == 0 <==> c !in s
  {
    if s == [] then 0 else (if s[0] == c then 1 else 0) + Count(s[1..], c)
  }

  predicate AllSpace(s: string) {
    forall i :: 0 <= i < |s| ==> IsSpaceChar(s[i])
  }

  /** `s.lstrip()`: drop whitespace from the front. */
  function LStrip(s: string): string {
    if s != [] && IsSpaceChar(s[0]) then LStrip(s[1..]) else s
  }

  /** `s.rstrip()`: drop whitespace from the back. */
  function RStrip(s: string): string {
    if s != [] && IsSpaceChar(s[|s| - 1]) then RStrip(s[..|s| - 1]) else s
  }

  /** `s.strip()`: drop whitespace from both ends. */
  function Strip(s: string): string {
    RStrip(LStrip(s))
  }

  /** A string `strip()` leaves unchanged. */
  predicate IsStripped(s: string) {
    s == [] || (!IsSpaceChar(s[0]) && !IsSpaceChar(s[|s| - 1]))
  }

  /** How many whitespace characters `lstrip()` removes. */
  function LeadCount(s: string): nat {
    if s != [] && IsSpaceChar(s[0]) then 1 + LeadCount(s[1..]) else 0
  }

  /** How many whitespace characters `rstrip()` removes. */
  function TrailCount(s: string): nat {
    if s != [] && IsSpaceChar(s[|s| - 1]) then 1 + TrailCount(s[..|s| - 1]) else 0
  }

  lemma {:induction false} LStripSpec(s: string)
    ensures LeadCount(s) <= |s| && AllSpace(s[..LeadCount(s)]) && LStrip(s) == s[LeadCount(s)..]
    ensures LStrip(s) == [] || !IsSpaceChar(LStrip(s)[0])
    decreases |s|
  {
    if s != [] && IsSpaceChar(s[0]) {
      LStripSpec(s[1..]);
      var k := LeadCount(s[1..]);
      assert s[..k + 1] == [s[0]] + s[1..][..k];
      assert s[k + 1..] == s[1..][k..];
    }
  }

  lemma {:induction false} RStripSpec(s: string)
    ensures TrailCount(s) <= |s| && AllSpace(s[|s| - TrailCount(s)..]) && RStrip(s) == s[..|s| - TrailCount(s)]
    ensures RStrip(s) == [] || !IsSpaceChar(RStrip(s)[|RStrip(s)| - 1])
    decreases |s|
  {
    if s != [] && IsSpaceChar(s[|s| - 1]) {
      var init := s[..|s| - 1];
      RStripSpec(init);
      var k := |init| - TrailCount(init);
      assert s[k..] == init[k..] + [s[|s| - 1]];
      assert s[..k] == init[..k];
    }
  }

  /**
   * What `strip()` promises: the result has no whitespace at either end, and
   * it is the infix of `s` left after removing whitespace in front and behind.
   */
  lemma StripSpec(s: string)
    ensures IsStripped(Strip(s))
    ensures var a := LeadCount(s); var b := a + |Strip(s)|;
      b <= |s| && AllSpace(s[..a]) && Strip(s) == s[a..b] && AllSpace(s[b..])
  {
    var l := LStrip(s);
    LStripSpec(s);
    RStripSpec(l);
    var a := LeadCount(s);
    var j := |l| - TrailCount(l);
    assert Strip(s) == l[..j] == s[a..a + j];
    assert s[a + j..] == l[j..];
  }

  /** Stripping twice is stripping once. */
  lemma StripIdempotent(s: string)
    ensures Strip(Strip(s)) == Strip(s)
  {
    StripSpec(s);
    StrippedIsFixed(Strip(s));
  }

  lemma StrippedIsFixed(s: string)
    requires IsStripped(s)
    ensures Strip(s) == s
  {
  }

  /** `s.split(sep)`: the pieces between occurrences of `sep`, never an empty list. */
  function Split(s: string, sep: char): (parts: seq<string>)
    ensures |parts| >= 1
    ensures forall i :: 0 <= i < |parts| ==> sep !in parts[i]
  {
    if s == [] then [[]]
    else if s[0] == sep then [[]] + Split(s[1..], sep)
    else
      var tail := Split(s[1..], sep);
      [[s[0]] + tail[0]] + tail[1..]
  }

  /** `sep.join(parts)`, the inverse of `Split`. */
  function Join(parts: seq<string>, sep: char): string
    requires |parts| >= 1
  {
    if |parts| == 1 then parts[0] else parts[0] + [sep] + Join(parts[1..], sep)
  }

  /** Joining the pieces back with the separator gives the original string. */
  lemma {:induction false} JoinSplit(s: string, sep: char)
    ensures Join(Split(s, sep), sep) == s
    decreases |s|
  {
    if s == [] {
    } else if s[0] == sep {
      JoinSplit(s[1..], sep);
      assert s == [sep] + s[1..];
    } else {
      var tail := Split(s[1..], sep);
      JoinSplit(s[1..], sep);
      if |tail| == 1 {
        assert s == [s[0]] + tail[0];
      } else {
        assert tail[1..][1..] == tail[2..];
        assert Join(tail, sep) == tail[0] + [sep] + Join(tail[1..], sep);
        assert s == [s[0]] + s[1..];
      }
    }
  }

  /** Splitting a join of separator-free pieces gives the pieces back. */
  lemma {:induction false} SplitJoin(parts: seq<string>, sep: char)
    requires |parts| >= 1
    requires forall i :: 0 <= i < |parts| ==> sep !in parts[i]
    ensures Split(Join(parts, sep), sep) == parts
    decreases |parts|, |parts[0]|
  {
    var p := parts[0];
    if |parts| == 1 {
      SplitNoSep(p, sep);
    } else if p == [] {
      var rest := Join(parts[1..], sep);
      SplitJoin(parts[1..], sep);
      assert Join(parts, sep) == [sep] + rest;
      assert ([sep] + rest)[1..] == rest;
      assert [[]] + parts[1..] == parts;
    } else {
      var shorter := [p[1..]] + parts[1..];
      assert shorter[1..] == parts[1..];
      assert forall i :: 0 <= i < |shorter| ==> sep !in shorter[i] by {
        forall i | 0 <= i < |shorter| ensures sep !in shorter[i] {
          if i == 0 { assert forall c :: c in p[1..] ==> c in p; } else { assert shorter[i] == parts[i]; }
        }
      }
      SplitJoin(shorter, sep);
      var j := Join(parts, sep);
      assert p[0] in p;
      assert j == p + [sep] + Join(parts[1..], sep);
      assert Join(shorter, sep) == p[1..] + [sep] + Join(parts[1..], sep);
      assert j[0] == p[0] && j[1..] == Join(shorter, sep);
      var tail := Split(j[1..], sep);
      assert tail == shorter;
      assert [p[0]] + p[1..] == p;
      assert Split(j, sep) == [[p[0]] + tail[0]] + tail[1..];
      assert [p] + parts[1..] == parts;
    }
  }

  lemma {:induction false} SplitNoSep(s: string, sep: char)
    requires sep !in s
    ensures Split(s, sep) == [s]
    decreases |s|
  {
    if s != [] {
      assert s[0] in s;
      assert forall c :: c in s[1..] ==> c in s;
      SplitNoSep(s[1..], sep);
      assert [s[0]] + s[1..] == s;
    }
  }

  /** The first `n` elements of a list, as `xs[:n]` does (shorter lists are kept whole). */
  function Take<T>(xs: seq<T>, n: nat): (r: seq<T>)
    ensures |r| == if |xs| < n then |xs| else n
    ensures forall i :: 0 <= i < |r| ==> r[i] == xs[i]
  {
    if |xs| <= n then xs else xs[..n]
  }

  /** `str(n)` for a non-negative integer: its decimal digits, no leading zero. */
  function NatToString(n: nat): (s: string)
    ensures |s| >= 1
    ensures forall i :: 0 <= i < |s| ==> IsDigitChar(s[i])
    ensures |s| > 1 ==> s[0] != '0'
    decreases n
  {
    if n < 10 then [DigitChar(n)] else NatToString(n / 10) + [DigitChar(n % 10)]
  }

  function DigitChar(d: nat): (c: char)
    requires d < 10
    ensures IsDigitChar(c)
  {
    ('0' as int + d) as char
  }

  /** The value of a string of decimal digits, as `int(s)` reads it. */
  function DecimalValue(s: string): nat
    requires forall i :: 0 <= i < |s| ==> IsDigitChar(s[i])
  {
    if s == [] then 0
    else
      assert IsDigitChar(s[|s| - 1]);
      10 * DecimalValue(s[..|s| - 1]) + (s[|s| - 1] as int - '0' as int)
  }

  /** Reading back the rendered digits gives the number. */
  lemma {:induction false} DecimalRoundTrip(n: nat)
    ensures DecimalValue(NatToString(n)) == n
    decreases n
  {
    if n >= 10 {
      DecimalRoundTrip(n / 10);
      var s := NatToString(n);
      assert s[..|s| - 1] == NatToString(n / 10);
    }
  }
}
