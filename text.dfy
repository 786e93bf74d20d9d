/** Small option type used throughout the model. */
module Optional {
  datatype Option<T> = None | Some(value: T)
}

/**
 * Character classes and string helpers with the meaning Python 3 gives them
 * for `str` values: `\d`, `\s` and `\w` in `re` patterns, `str.lower`,
 * `str.strip`, `str.isalnum`, `int(...)` on a digit string and the ordering
 * `<=` on strings.
 */
module Text {

  /** `\d`: a decimal digit (ASCII digits only in this model). */
  predicate IsDigit(c: char) {
    '0' <= c <= '9'
  }

  /** `\s` and `str.isspace`: the characters Python treats as whitespace. */
  predicate IsSpace(c: char) {
    ('\t' <= c <= '\r') || ('\U{1C}' <= c <= ' ') || c == '\U{85}' || c == '\U{A0}'
    || c == '\U{1680}' || ('\U{2000}' <= c <= '\U{200A}') || c == '\U{2028}' || c == '\U{2029}'
    || c == '\U{202F}' || c == '\U{205F}' || c == '\U{3000}'
  }

  /** `str.isalnum` for the scripts the model covers: ASCII and Cyrillic (U+0400..U+045F). */
  predicate IsAlnum(c: char) {
    ('a' <= c <= 'z') || ('A' <= c <= 'Z') || IsDigit(c) || ('\U{400}' <= c <= '\U{45F}')
  }

  /** `\w`: alphanumeric or underscore. */
  predicate IsWordChar(c: char) {
    IsAlnum(c) || c == '_'
  }

  /** `str.lower` on one character: ASCII and Cyrillic capitals map to their small letters. */
  function Lower(c: char): char {
    if 'A' <= c <= 'Z' then (c as int + 32) as char
    else if '\U{410}' <= c <= '\U{42F}' then (c as int + 32) as char
    else if '\U{400}' <= c <= '\U{40F}' then (c as int + 80) as char
    else c
  }

  function LowerStr(s: string): string {
    seq(|s|, i requires 0 <= i < |s| => Lower(s[i]))
  }

  /** Every character of `s` is already lower case. */
  predicate IsLowered(s: string) {
    forall k | 0 <= k < |s| :: Lower(s[k]) == s[k]
  }

  /** `str.lower` is idempotent: its result is lower case. */
  lemma LowerStrLowered(s: string)
    ensures IsLowered(LowerStr(s))
  {
  }

  /** Stripping a lower-case string leaves it lower case. */
  lemma StripLowered(s: string)
    requires IsLowered(s)
    ensures IsLowered(Strip(s))
  {
    var r := Strip(s);
    var a, b :| StripsTo(s, a, b) && r == s[a..b];
    assert forall k | 0 <= k < |r| :: r[k] == s[a + k];
  }

  /**
   * `s[a..b]` is `s` without its leading and trailing whitespace: everything
   * outside it is whitespace, and it neither starts nor ends with whitespace.
   */
  predicate StripsTo(s: string, a: int, b: int) {
    0 <= a <= b <= |s|
    && (forall k | 0 <= k < a :: IsSpace(s[k]))
    && (forall k | b <= k < |s| :: IsSpace(s[k]))
    && (a < b ==> !IsSpace(s[a]) && !IsSpace(s[b - 1]))
  }

  /** `str.strip()`: drop leading and trailing whitespace. */
  function Strip(s: string): (r: string)
    ensures r != [] ==> !IsSpace(r[0]) && !IsSpace(r[|r| - 1])
    ensures exists a, b | StripsTo(s, a, b) :: r == s[a..b]
  {
    var a := SpacesEnd(s, 0);
    var b := TrimEnd(s, a, |s|);
    assert StripsTo(s, a, b);
    s[a..b]
  }

  /** Only one slice of `s` can be `s` stripped, and `Strip` returns it. */
  lemma StripUnique(s: string, a: int, b: int)
    requires StripsTo(s, a, b)
    ensures Strip(s) == s[a..b]
  {
    var a' := SpacesEnd(s, 0);
    var b' := TrimEnd(s, a', |s|);
    if a < b {
      assert a' == a;
      assert b' == b;
    } else {
      assert a' == |s|;
    }
  }

  /** A string that neither starts nor ends with whitespace is its own stripped form. */
  lemma StripUnchanged(s: string)
    requires s != [] ==> !IsSpace(s[0]) && !IsSpace(s[|s| - 1])
    ensures Strip(s) == s
  {
    StripUnique(s, 0, |s|);
    assert s[0..|s|] == s;
  }

  /** A leading space is stripped away. */
  lemma StripSpaceBefore(s: string)
    ensures Strip(" " + s) == Strip(s)
  {
    var stripped := Strip(s);
    var a, b :| StripsTo(s, a, b) && stripped == s[a..b];
    StripsToSpaceBefore(s, a, b);
    StripUnique(" " + s, a + 1, b + 1);
  }

  /** Stripping `" " + s` keeps the same slice of `s`, one place further on. */
  lemma StripsToSpaceBefore(s: string, a: int, b: int)
    requires StripsTo(s, a, b)
    ensures StripsTo(" " + s, a + 1, b + 1) && (" " + s)[a + 1..b + 1] == s[a..b]
  {
    var l := " " + s;
    assert forall i | 0 < i < |l| :: l[i] == s[i - 1];
  }

  /** A trailing space is stripped away. */
  lemma StripSpaceAfter(s: string)
    ensures Strip(s + " ") == Strip(s)
  {
    var stripped := Strip(s);
    var a, b :| StripsTo(s, a, b) && stripped == s[a..b];
    StripsToSpaceAfter(s, a, b);
    StripUnique(s + " ", a, b);
  }

  /** Stripping `s + " "` keeps the same slice of `s`. */
  lemma StripsToSpaceAfter(s: string, a: int, b: int)
    requires StripsTo(s, a, b)
    ensures StripsTo(s + " ", a, b) && (s + " ")[a..b] == s[a..b]
  {
    var l := s + " ";
    assert forall i | 0 <= i < |s| :: l[i] == s[i];
  }

  /** The end of `s[a..b]` once trailing whitespace is dropped. */
  function TrimEnd(s: string, a: nat, b: nat): (e: nat)
    requires a <= b <= |s|
    ensures a <= e <= b
    ensures e == a || !IsSpace(s[e - 1])
    ensures forall k :: e <= k < b ==> IsSpace(s[k])
    decreases b
  {
    if b > a && IsSpace(s[b - 1]) then TrimEnd(s, a, b - 1) else b
  }

  /** `w` occurs in `s` starting at index `i`. */
  predicate StartsAt(s: string, i: int, w: string) {
    0 <= i && i + |w| <= |s| && s[i..i + |w|] == w
  }

  /** `re.search(w, s)` for a pattern that is a plain word. */
  predicate Contains(s: string, w: string) {
    exists i | 0 <= i <= |s| :: StartsAt(s, i, w)
  }

  /** End of the run of whitespace starting at `i` (`\s*` taken greedily). */
  function SpacesEnd(s: string, i: nat): (j: nat)
    requires i <= |s|
    ensures i <= j <= |s|
    ensures forall k :: i <= k < j ==> IsSpace(s[k])
    ensures j == |s| || !IsSpace(s[j])
    decreases |s| - i
  {
    if i < |s| && IsSpace(s[i]) then SpacesEnd(s, i + 1) else i
  }

  /** End of the run of word characters starting at `i` (`\w*` taken greedily). */
  function WordEnd(s: string, i: nat): (j: nat)
    requires i <= |s|
    ensures i <= j <= |s|
    ensures forall k :: i <= k < j ==> IsWordChar(s[k])
    ensures j == |s| || !IsWordChar(s[j])
    decreases |s| - i
  {
    if i < |s| && IsWordChar(s[i]) then WordEnd(s, i + 1) else i
  }

  /** No whitespace character is a word character. */
  lemma SpaceNotWord(c: char)
    requires IsSpace(c)
    ensures !IsWordChar(c)
  {
  }

  /** A slice of a slice is a slice of the original. */
  lemma SliceOfSlice(x: string, a: nat, b: nat, i: nat, j: nat)
    requires a <= b <= |x| && i <= j <= b - a
    ensures x[a..b][i..j] == x[a + i..a + j]
  {
    var y := x[a..b];
    assert forall t | 0 <= t < j - i :: y[i..j][t] == y[i + t] == x[a + i + t];
  }

  /** A word character extends the run that follows it. */
  lemma WordEndStep(s: string, i: nat)
    requires i < |s| && IsWordChar(s[i])
    ensures WordEnd(s, i) == WordEnd(s, i + 1)
  {
  }

  /** A run of word characters from `i` to `j` that ends the word is where `WordEnd` stops. */
  lemma WordEndUnique(s: string, i: nat, j: nat)
    requires i <= j <= |s|
    requires forall k | i <= k < j :: IsWordChar(s[k])
    requires j == |s| || !IsWordChar(s[j])
    ensures WordEnd(s, i) == j
  {
  }

  /** End of the run of digits starting at `i` (`\d*` taken greedily). */
  function DigitsEnd(s: string, i: nat): (j: nat)
    requires i <= |s|
    ensures i <= j <= |s|
    ensures forall k :: i <= k < j ==> IsDigit(s[k])
    ensures j == |s| || !IsDigit(s[j])
    decreases |s| - i
  {
    if i < |s| && IsDigit(s[i]) then DigitsEnd(s, i + 1) else i
  }

  predicate AllDigits(s: string) {
    forall k :: 0 <= k < |s| ==> IsDigit(s[k])
  }

  /** `\d{n}` at index `i`. */
  predicate DigitsAt(s: string, i: nat, n: nat) {
    i + n <= |s| && forall k :: i <= k < i + n ==> IsDigit(s[k])
  }

  /** The `n` characters a `\d{n}` match covers are all digits. */
  lemma DigitsAtSlice(s: string, i: nat, n: nat)
    requires DigitsAt(s, i, n)
    ensures |s[i..i + n]| == n && AllDigits(s[i..i + n])
  {
    var t := s[i..i + n];
    assert forall k | 0 <= k < n :: t[k] == s[i + k];
  }

  function DigitValue(c: char): nat
    requires IsDigit(c)
  {
    c as int - '0' as int
  }

  function DigitChar(v: nat): (c: char)
    requires v < 10
    ensures IsDigit(c) && DigitValue(c) == v
  {
    ('0' as int + v) as char
  }

  /** `int(s)` on a string of decimal digits. */
  function ParseNat(s: string): nat
    requires AllDigits(s)
  {
    if s == [] then 0 else 10 * ParseNat(s[..|s| - 1]) + DigitValue(s[|s| - 1])
  }

  function Pow10(n: nat): (p: nat)
    ensures p >= 1
  {
    if n == 0 then 1 else 10 * Pow10(n - 1)
  }

  /** `v` written with exactly `w` decimal digits, zero-padded on the left (`%0wd`). */
  function Digits(v: nat, w: nat): (s: string)
    ensures |s| == w && AllDigits(s)
  {
    if w == 0 then "" else Digits(v / 10, w - 1) + [DigitChar(v % 10)]
  }

  /** `str(n)` for a natural number. */
  function NatToString(n: nat): (s: string)
    ensures s != [] && AllDigits(s)
  {
    if n < 10 then [DigitChar(n)] else NatToString(n / 10) + [DigitChar(n % 10)]
  }

  /** Reading back what `Digits` wrote gives the number, when it fits in `w` digits. */
  lemma {:induction false} ParseDigits(v: nat, w: nat)
    requires v < Pow10(w)
    ensures ParseNat(Digits(v, w)) == v
  {
    if w > 0 {
      var s := Digits(v, w);
      assert s[..|s| - 1] == Digits(v / 10, w - 1);
      ParseDigits(v / 10, w - 1);
    }
  }

  /** `int(str(n)) == n`. */
  lemma {:induction false} ParseNatToString(n: nat)
    ensures ParseNat(NatToString(n)) == n
  {
    var s := NatToString(n);
    if n >= 10 {
      assert s[..|s| - 1] == NatToString(n / 10);
      ParseNatToString(n / 10);
    } else {
      assert s[..|s| - 1] == "";
    }
  }

  /** Three-way comparison of strings by code point, as Python compares `str` values. */
  function Cmp(a: string, b: string): (c: int)
    ensures -1 <= c <= 1
  {
    if a == [] && b == [] then 0
    else if a == [] then -1
    else if b == [] then 1
    else if a[0] < b[0] then -1
    else if a[0] > b[0] then 1
    else Cmp(a[1..], b[1..])
  }

  /** Python's `a <= b` on strings. */
  predicate LexLe(a: string, b: string) {
    Cmp(a, b) <= 0
  }

  function Sign(x: int): int {
    if x < 0 then -1 else if x > 0 then 1 else 0
  }

  /** Comparison is antisymmetric: it reports equality exactly for equal strings, and swapping flips it. */
  lemma {:induction false} CmpProperties(a: string, b: string)
    ensures Cmp(a, b) == 0 <==> a == b
    ensures Cmp(b, a) == -Cmp(a, b)
  {
    if a != [] && b != [] && a[0] == b[0] {
      CmpProperties(a[1..], b[1..]);
      if a[1..] == b[1..] {
        assert a == [a[0]] + a[1..] && b == [b[0]] + b[1..];
      }
    }
  }

  /** `<=` on strings is a total order: of two strings one is `<=` the other, and both only when equal. */
  lemma LexLeTotal(a: string, b: string)
    ensures LexLe(a, b) || LexLe(b, a)
    ensures LexLe(a, b) && LexLe(b, a) ==> a == b
  {
    CmpProperties(a, b);
  }

  /** Equal-length prefixes decide a comparison unless they are equal. */
  lemma {:induction false} CmpConcat(a: string, b: string, c: string, d: string)
    requires |a| == |c|
    ensures Cmp(a + b, c + d) == if Cmp(a, c) != 0 then Cmp(a, c) else Cmp(b, d)
  {
    if a != [] {
      assert (a + b)[1..] == a[1..] + b;
      assert (c + d)[1..] == c[1..] + d;
      CmpConcat(a[1..], b, c[1..], d);
    } else {
      assert a + b == b && c + d == d;
    }
  }

  /** Fixed-width zero-padded numerals compare as strings exactly as the numbers compare. */
  lemma {:induction false} CmpDigits(v1: nat, v2: nat, w: nat)
    requires v1 < Pow10(w) && v2 < Pow10(w)
    ensures Cmp(Digits(v1, w), Digits(v2, w)) == Sign(v1 - v2)
  {
    if w > 0 {
      CmpDigits(v1 / 10, v2 / 10, w - 1);
      CmpConcat(Digits(v1 / 10, w - 1), [DigitChar(v1 % 10)], Digits(v2 / 10, w - 1), [DigitChar(v2 % 10)]);
      assert [DigitChar(v1 % 10)][1..] == [] && [DigitChar(v2 % 10)][1..] == [];
    }
  }
}
