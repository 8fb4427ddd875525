/** Kotlin string primitives the chat client relies on, stated over `seq<char>`.

    - `IsWhitespace`, `IsBlank`, `Trim`: Kotlin's `Char.isWhitespace()`,
      `CharSequence.isBlank()` and `String.trim()` on the JVM.
    - `Contains`, `ContainsIgnoreCase`: `String.contains(other, ignoreCase)`.
    - `LexLess`: `String.compareTo(other) < 0`, the order `sortedWith`,
      `maxByOrNull` and `sortedBy` use on the timestamp strings.
    - `Decimal`, `Fixed`, `FormatInt`, `ParseInt`: `Int.toString()`,
      fixed-width zero-padded digits, `"%0Nd".format(x)` and `String.toInt()`.
 */
module Text {
  import opened Wrappers

  // ---------------------------------------------------------------------
  // Whitespace, blank, trim
  // ---------------------------------------------------------------------

  /** Kotlin/JVM `Char.isWhitespace()`: `Character.isWhitespace(c) ||
      Character.isSpaceChar(c)`, i.e. the ASCII controls TAB..CR and
      FS..US plus every space, line and paragraph separator. */
  predicate IsWhitespace(c: char) {
    || c == ' ' || c == '\t' || c == '\n' || c == '\r'
    || c == '\U{000B}' || c == '\U{000C}'
    || ('\U{001C}' <= c <= '\U{001F}')
    || c == '\U{00A0}' || c == '\U{1680}'
    || ('\U{2000}' <= c <= '\U{200A}')
    || c == '\U{2028}' || c == '\U{2029}' || c == '\U{202F}'
    || c == '\U{205F}' || c == '\U{3000}'
  }

  /** `CharSequence.isBlank()`: empty or whitespace only. */
  predicate IsBlank(s: string) {
    forall i :: 0 <= i < |s| ==> IsWhitespace(s[i])
  }

  /** Index of the first non-whitespace character (|s| when there is none). */
  function FirstNonBlank(s: string): (i: nat)
    ensures i <= |s|
    ensures forall k :: 0 <= k < i ==> IsWhitespace(s[k])
    ensures i < |s| ==> !IsWhitespace(s[i])
  {
    if s == [] || !IsWhitespace(s[0]) then 0
    else 1 + FirstNonBlank(s[1..])
  }

  /** One past the last non-whitespace character (0 when there is none). */
  function LastNonBlankEnd(s: string): (j: nat)
    ensures j <= |s|
    ensures forall k :: j <= k < |s| ==> IsWhitespace(s[k])
    ensures 0 < j ==> !IsWhitespace(s[j - 1])
  {
    if s == [] || !IsWhitespace(s[|s| - 1]) then |s|
    else LastNonBlankEnd(s[..|s| - 1])
  }

  /** `String.trim()`: drops leading and trailing whitespace. The result is
      one contiguous slice of the input, everything cut away is whitespace,
      and a non-empty result starts and ends with a non-whitespace char. */
  function Trim(s: string): (r: string)
    ensures exists i, j :: 0 <= i <= j <= |s| && r == s[i..j]
                           && IsBlank(s[..i]) && IsBlank(s[j..])
    ensures r != [] ==> !IsWhitespace(r[0]) && !IsWhitespace(r[|r| - 1])
  {
    var t := s[FirstNonBlank(s)..];
    var j := LastNonBlankEnd(t);
    var i := FirstNonBlank(s);
    assert t[..j] == s[i..i + j];
    assert s[i + j..] == t[j..];
    t[..j]
  }

  /** A string is blank exactly when trimming it leaves nothing. */
  lemma BlankIffTrimEmpty(s: string)
    ensures IsBlank(s) <==> Trim(s) == []
  {
    var r := Trim(s);
    var i, j :| 0 <= i <= j <= |s| && r == s[i..j] && IsBlank(s[..i]) && IsBlank(s[j..]);
    if r == [] {
      forall k | 0 <= k < |s|
        ensures IsWhitespace(s[k])
      {
        if k < i {
          assert s[..i][k] == s[k];
        } else {
          assert s[j..][k - j] == s[k];
        }
      }
    } else {
      assert s[i] == r[0];
    }
  }

  /** Trimming never lengthens a string, and a trimmed string is its own trim. */
  lemma TrimIdempotent(s: string)
    ensures |Trim(s)| <= |s|
    ensures Trim(Trim(s)) == Trim(s)
  {
    var r := Trim(s);
    if r != [] {
      assert !IsWhitespace(r[0]);
      assert FirstNonBlank(r) == 0;
      assert r[0..] == r;
      assert LastNonBlankEnd(r) == |r|;
      assert r[..|r|] == r;
    }
  }

  // ---------------------------------------------------------------------
  // String.length
  // ---------------------------------------------------------------------

  /** A character outside the Basic Multilingual Plane, which the JVM stores
      as a surrogate pair. */
  predicate Supplementary(c: char) {
    c as int >= 0x10000
  }

  /** `String.length` on the JVM: the number of UTF-16 code units, two for
      each supplementary character and one for any other. */
  function Utf16Length(s: string): (n: nat)
    ensures |s| <= n <= 2 * |s|
    ensures n == |s| <==> forall i :: 0 <= i < |s| ==> !Supplementary(s[i])
    ensures n == 2 * |s| <==> forall i :: 0 <= i < |s| ==> Supplementary(s[i])
  {
    if s == [] then 0
    else
      assert forall i :: 0 < i < |s| ==> s[i] == s[1..][i - 1];
      (if Supplementary(s[0]) then 2 else 1) + Utf16Length(s[1..])
  }

  // ---------------------------------------------------------------------
  // Substring search
  // ---------------------------------------------------------------------

  /** `t` occurs in `s` starting at index `i`. */
  predicate OccursAt(s: string, t: string, i: int) {
    0 <= i && i + |t| <= |s| && s[i..i + |t|] == t
  }

  /** `s.contains(t)` (case-sensitive). */
  function Contains(s: string, t: string): (r: bool)
    ensures r <==> exists i :: OccursAt(s, t, i)
  {
    if |t| > |s| then
      assert forall i :: !OccursAt(s, t, i);
      false
    else if t <= s then
      assert OccursAt(s, t, 0);
      true
    else
      var rest := Contains(s[1..], t);
      assert forall i :: OccursAt(s[1..], t, i) <==> OccursAt(s, t, i + 1) by {
        forall i ensures OccursAt(s[1..], t, i) <==> OccursAt(s, t, i + 1) {
          if 0 <= i && i + |t| <= |s| - 1 {
            assert s[1..][i..i + |t|] == s[i + 1..i + 1 + |t|];
          }
        }
      }
      assert !OccursAt(s, t, 0);
      assert rest ==> exists i :: OccursAt(s, t, i) by {
        if rest {
          var i :| OccursAt(s[1..], t, i);
          assert OccursAt(s, t, i + 1);
        }
      }
      assert (exists i :: OccursAt(s, t, i)) ==> rest by {
        if exists i :: OccursAt(s, t, i) {
          var i :| OccursAt(s, t, i);
          assert i != 0;
          assert OccursAt(s[1..], t, i - 1);
        }
      }
      rest
  }

  /** A string contains each of its own slices; in particular itself and "". */
  lemma ContainsSlice(s: string, i: int, j: int)
    requires 0 <= i <= j <= |s|
    ensures Contains(s, s[i..j])
  {
    assert OccursAt(s, s[i..j], i);
  }

  /** Containment is preserved by putting text around the haystack. */
  lemma ContainsInContext(a: string, s: string, b: string, t: string)
    requires Contains(s, t)
    ensures Contains(a + s + b, t)
  {
    var i :| OccursAt(s, t, i);
    assert (a + s + b)[|a| + i..|a| + i + |t|] == s[i..i + |t|];
    assert OccursAt(a + s + b, t, |a| + i);
  }

  lemma ContainsLeft(x: string, y: string, t: string)
    requires Contains(x, t)
    ensures Contains(x + y, t)
  {
    ContainsInContext([], x, y, t);
    assert [] + x + y == x + y;
  }

  lemma ContainsRight(x: string, y: string, t: string)
    requires Contains(y, t)
    ensures Contains(x + y, t)
  {
    ContainsInContext(x, y, [], t);
    assert x + y + [] == x + y;
  }

  /** A needle whose first character the haystack lacks does not occur. */
  lemma AbsentHeadNotContained(s: string, t: string)
    requires |t| > 0 && t[0] !in s
    ensures !Contains(s, t)
  {
  }

  /** ASCII case folding (see the README for the non-ASCII gap). */
  function Lower(c: char): (d: char)
    ensures 'A' <= c <= 'Z' ==> d as int == c as int + 32
    ensures !('A' <= c <= 'Z') ==> d == c
  {
    if 'A' <= c <= 'Z' then (c as int + 32) as char else c
  }

  function LowerAll(s: string): (r: string)
    ensures |r| == |s|
    ensures forall i :: 0 <= i < |s| ==> r[i] == Lower(s[i])
  {
    if s == [] then [] else [Lower(s[0])] + LowerAll(s[1..])
  }

  /** `t` matches `s` at `i` when characters are compared ignoring case. */
  predicate MatchesIgnoreCaseAt(s: string, t: string, i: int) {
    0 <= i && i + |t| <= |s| && forall k :: 0 <= k < |t| ==> Lower(s[i + k]) == Lower(t[k])
  }

  /** `s.contains(t, ignoreCase = true)`: some window of `s` matches `t`
      character by character once both sides are case-folded. */
  function ContainsIgnoreCase(s: string, t: string): (r: bool)
    ensures r <==> exists i :: MatchesIgnoreCaseAt(s, t, i)
  {
    var hay, needle := LowerAll(s), LowerAll(t);
    assert forall i :: OccursAt(hay, needle, i) <==> MatchesIgnoreCaseAt(s, t, i) by {
      forall i ensures OccursAt(hay, needle, i) <==> MatchesIgnoreCaseAt(s, t, i) {
        if 0 <= i && i + |t| <= |s| {
          if OccursAt(hay, needle, i) {
            forall k | 0 <= k < |t| ensures Lower(s[i + k]) == Lower(t[k]) {
              assert hay[i..i + |t|][k] == hay[i + k];
            }
          }
          if MatchesIgnoreCaseAt(s, t, i) {
            assert hay[i..i + |t|] == needle;
          }
        }
      }
    }
    Contains(hay, needle)
  }

  /** A case-sensitive match is also a case-insensitive one. */
  lemma ContainsImpliesIgnoreCase(s: string, t: string)
    requires Contains(s, t)
    ensures ContainsIgnoreCase(s, t)
  {
    var i :| OccursAt(s, t, i);
    forall k | 0 <= k < |t| ensures Lower(s[i + k]) == Lower(t[k]) {
      assert s[i..i + |t|][k] == s[i + k];
    }
    assert MatchesIgnoreCaseAt(s, t, i);
  }

  // ---------------------------------------------------------------------
  // Lexicographic order (Kotlin String.compareTo)
  // ---------------------------------------------------------------------

  /** `a < b` as Kotlin compares strings: the first differing character
      decides; when one is a prefix of the other the shorter is smaller. */
  predicate LexLess(a: string, b: string) {
    if a == [] then b != []
    else if b == [] then false
    else if a[0] != b[0] then a[0] < b[0]
    else LexLess(a[1..], b[1..])
  }

  lemma {:induction false} LexLessIrreflexive(a: string)
    ensures !LexLess(a, a)
  {
    if a != [] { LexLessIrreflexive(a[1..]); }
  }

  lemma {:induction false} LexLessAsymmetric(a: string, b: string)
    ensures LexLess(a, b) ==> !LexLess(b, a)
  {
    if a != [] && b != [] && a[0] == b[0] { LexLessAsymmetric(a[1..], b[1..]); }
  }

  lemma {:induction false} LexLessTransitive(a: string, b: string, c: string)
    requires LexLess(a, b) && LexLess(b, c)
    ensures LexLess(a, c)
  {
    if a != [] && b != [] && c != [] && a[0] == b[0] && b[0] == c[0] {
      LexLessTransitive(a[1..], b[1..], c[1..]);
    }
  }

  /** Any two distinct strings are ordered one way or the other. */
  lemma {:induction false} LexLessTotal(a: string, b: string)
    requires a != b
    ensures LexLess(a, b) || LexLess(b, a)
  {
    if a != [] && b != [] && a[0] == b[0] {
      assert a == [a[0]] + a[1..];
      assert b == [b[0]] + b[1..];
      LexLessTotal(a[1..], b[1..]);
    }
  }

  /** Comparing two concatenations whose first parts have the same length:
      the first parts decide unless they are equal. */
  lemma {:induction false} LexLessConcat(a1: string, a2: string, b1: string, b2: string)
    requires |a1| == |b1|
    ensures LexLess(a1 + a2, b1 + b2) <==>
            (LexLess(a1, b1) || (a1 == b1 && LexLess(a2, b2)))
  {
    if a1 == [] {
      assert a1 + a2 == a2 && b1 + b2 == b2;
    } else {
      assert (a1 + a2)[0] == a1[0] && (b1 + b2)[0] == b1[0];
      assert (a1 + a2)[1..] == a1[1..] + a2;
      assert (b1 + b2)[1..] == b1[1..] + b2;
      if a1[0] == b1[0] {
        LexLessConcat(a1[1..], a2, b1[1..], b2);
        assert a1 == b1 <==> a1[1..] == b1[1..] by {
          assert a1 == [a1[0]] + a1[1..];
          assert b1 == [b1[0]] + b1[1..];
        }
      }
    }
  }

  // ---------------------------------------------------------------------
  // Decimal digits
  // ---------------------------------------------------------------------

  predicate IsDigit(c: char) {
    '0' <= c <= '9'
  }

  predicate AllDigits(s: string) {
    forall i :: 0 <= i < |s| ==> IsDigit(s[i])
  }

  function DigitChar(d: nat): (c: char)
    requires d < 10
    ensures IsDigit(c)
  {
    ('0' as int + d) as char
  }

  function DigitValue(c: char): (d: nat)
    requires IsDigit(c)
    ensures d < 10
    ensures DigitChar(d) == c
  {
    c as int - '0' as int
  }

  /** The value of an ASCII digit string, most significant digit first. */
  function DigitsValue(s: string): nat
    requires AllDigits(s)
  {
    if s == [] then 0 else 10 * DigitsValue(s[..|s| - 1]) + DigitValue(s[|s| - 1])
  }

  function Pow10(w: nat): (p: nat)
    ensures p >= 1
  {
    if w == 0 then 1 else 10 * Pow10(w - 1)
  }

  /** `n.toString()` for a natural number: shortest decimal form. */
  function Decimal(n: nat): (s: string)
    ensures |s| >= 1 && AllDigits(s)
    ensures n >= 10 ==> s[0] != '0'
    decreases n
  {
    if n < 10 then [DigitChar(n)] else Decimal(n / 10) + [DigitChar(n % 10)]
  }

  /** Reading back a decimal rendering yields the number. */
  lemma {:induction false} DecimalValue(n: nat)
    ensures DigitsValue(Decimal(n)) == n
    decreases n
  {
    if n >= 10 {
      DecimalValue(n / 10);
      assert Decimal(n)[..|Decimal(n)| - 1] == Decimal(n / 10);
    }
  }

  /** `n` written in exactly `w` digits, zero-padded on the left (the
      `yyyy`, `MM`, `dd`, `HH`, `mm`, `ss` fields of a date pattern). */
  function Fixed(n: nat, w: nat): (s: string)
    ensures |s| == w && AllDigits(s)
  {
    if w == 0 then [] else Fixed(n / 10, w - 1) + [DigitChar(n % 10)]
  }

  /** Reading back `w` fixed digits yields the number modulo 10^w. */
  lemma {:induction false} FixedValue(n: nat, w: nat)
    requires n < Pow10(w)
    ensures DigitsValue(Fixed(n, w)) == n
  {
    if w > 0 {
      FixedValue(n / 10, w - 1);
      assert Fixed(n, w)[..w - 1] == Fixed(n / 10, w - 1);
    }
  }

  /** Fixed-width digit strings compare like the numbers they spell. */
  lemma {:induction false} FixedOrder(x: nat, y: nat, w: nat)
    requires x < Pow10(w) && y < Pow10(w)
    ensures LexLess(Fixed(x, w), Fixed(y, w)) <==> x < y
  {
    if w == 0 {
      assert Fixed(x, w) == [] && Fixed(y, w) == [];
    } else {
      FixedOrder(x / 10, y / 10, w - 1);
      LexLessConcat(Fixed(x / 10, w - 1), [DigitChar(x % 10)], Fixed(y / 10, w - 1), [DigitChar(y % 10)]);
      FixedInjective(x / 10, y / 10, w - 1);
    }
  }

  lemma {:induction false} FixedInjective(x: nat, y: nat, w: nat)
    requires x < Pow10(w) && y < Pow10(w)
    ensures Fixed(x, w) == Fixed(y, w) <==> x == y
  {
    if Fixed(x, w) == Fixed(y, w) {
      FixedValue(x, w);
      FixedValue(y, w);
    }
  }

  function Zeros(k: nat): (s: string)
    ensures |s| == k
    ensures forall i :: 0 <= i < k ==> s[i] == '0'
  {
    if k == 0 then [] else Zeros(k - 1) + ['0']
  }

  /** Left-pads with '0' up to width `w`; longer strings are kept whole. */
  function PadZeros(s: string, w: int): (r: string)
    ensures |r| == if |s| < w then w else |s|
    ensures r[|r| - |s|..] == s
  {
    if |s| < w then Zeros(w - |s|) + s else s
  }

  /** `"%0wd".format(x)` for a Kotlin `Int`: the digits of |x| zero-padded so
      that the whole field, sign included, is at least `w` wide. */
  function FormatInt(x: int, w: nat): (r: string)
    ensures x >= 0 ==> |r| >= w && |r| >= |Decimal(x)| && r[|r| - |Decimal(x)|..] == Decimal(x)
    ensures x < 0 ==> |r| >= 2 && r[0] == '-'
  {
    if x >= 0 then PadZeros(Decimal(x), w) else "-" + PadZeros(Decimal(-x), w - 1)
  }

  lemma {:induction false} FixedZero(w: nat)
    ensures Fixed(0, w) == Zeros(w)
  {
    if w > 0 { FixedZero(w - 1); }
  }

  lemma {:induction false} DecimalFits(n: nat, w: nat)
    requires w >= 1 && n < Pow10(w)
    ensures |Decimal(n)| <= w
    decreases n
  {
    if n >= 10 {
      assert w >= 1;
      assert n / 10 < Pow10(w - 1);
      DecimalFits(n / 10, w - 1);
    }
  }

  lemma PadZerosSnoc(s: string, c: char, w: nat)
    requires w >= 1
    ensures PadZeros(s + [c], w) == PadZeros(s, w - 1) + [c]
  {
    if |s| + 1 < w {
      assert Zeros(w - |s| - 1) + (s + [c]) == (Zeros(w - 1 - |s|) + s) + [c];
    }
  }

  /** For a number that fits, zero-padding its decimal form to `w` gives
      exactly the fixed-width form. */
  lemma {:induction false} PadDecimalFixed(n: nat, w: nat)
    requires w >= 1 && n < Pow10(w)
    ensures PadZeros(Decimal(n), w) == Fixed(n, w)
    decreases n
  {
    if n < 10 {
      FixedZero(w - 1);
      assert Fixed(n, w) == Zeros(w - 1) + [DigitChar(n)];
      PadZerosSnoc([], DigitChar(n), w);
      assert PadZeros([], w - 1) == Zeros(w - 1);
    } else {
      assert w >= 2 && n / 10 < Pow10(w - 1);
      PadDecimalFixed(n / 10, w - 1);
      PadZerosSnoc(Decimal(n / 10), DigitChar(n % 10), w);
    }
  }

  /** `"%0wd"` of a non-negative number that fits in `w` digits is exactly
      its fixed-width form. */
  lemma FormatIntFixed(n: nat, w: nat)
    requires w >= 1 && n < Pow10(w)
    ensures FormatInt(n, w) == Fixed(n, w)
  {
    PadDecimalFixed(n, w);
  }

  // ---------------------------------------------------------------------
  // String.toInt()
  // ---------------------------------------------------------------------

  const IntMin: int := -0x8000_0000
  const IntMax: int := 0x7fff_ffff

  /** `String.toInt()`: an optional '+' or '-' followed by at least one digit,
      and a value inside the 32-bit range; anything else throws. */
  function ParseInt(s: string): (r: Result<int>)
    ensures r.Success? ==> IntMin <= r.value <= IntMax
    ensures AllDigits(s) && s != [] && DigitsValue(s) <= IntMax ==> r == Success(DigitsValue(s))
    ensures s == [] ==> r.Failure?
  {
    if s == [] then Failure(NumberFormat)
    else
      var neg := s[0] == '-';
      var body := if s[0] == '-' || s[0] == '+' then s[1..] else s;
      if body == [] || !AllDigits(body) then Failure(NumberFormat)
      else
        var mag: int := DigitsValue(body);
        var v := if neg then -mag else mag;
        if v < IntMin || v > IntMax then Failure(NumberFormat) else Success(v)
  }

  /** `s.substring(i, j)`: fails past the end of the string. */
  function Substring(s: string, i: nat, j: nat): (r: Result<string>)
    requires i <= j
    ensures r.Success? <==> j <= |s|
    ensures r.Success? ==> r.value == s[i..j]
  {
    if j <= |s| then Success(s[i..j]) else Failure(IndexOutOfBounds)
  }

  /** `s.substring(i, j).toInt()`. */
  function FieldInt(s: string, i: nat, j: nat): (r: Result<int>)
    requires i <= j
    ensures j > |s| ==> r == Failure(IndexOutOfBounds)
    ensures j <= |s| ==> r == ParseInt(s[i..j])
  {
    var sub :- Substring(s, i, j);
    ParseInt(sub)
  }
}
