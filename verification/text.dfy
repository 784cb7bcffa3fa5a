/**
 * The few `java.lang.String` operations the payroll parser relies on:
 * `trim`, `startsWith`/`endsWith`, `split(",", -1)` and ASCII digit strings.
 */
module Text {

  /** `String.trim` strips every leading and trailing char whose code is at most U+0020. */
  predicate IsBlank(c: char) {
    c <= ' '
  }

  predicate StartsWith(s: string, prefix: string) {
    |prefix| <= |s| && s[..|prefix|] == prefix
  }

  predicate EndsWith(s: string, suffix: string) {
    |suffix| <= |s| && s[|s| - |suffix|..] == suffix
  }

  /** True when `s` has no blank at either end, that is, trimming leaves it alone. */
  predicate IsTrimmed(s: string) {
    |s| == 0 || (!IsBlank(s[0]) && !IsBlank(s[|s| - 1]))
  }

  /** Number of blanks `trim` removes from the front of `s`. */
  function LeadingBlanks(s: string): (n: nat)
    ensures n <= |s|
    ensures forall i | 0 <= i < n :: IsBlank(s[i])
    ensures n < |s| ==> !IsBlank(s[n])
  {
    if |s| > 0 && IsBlank(s[0]) then 1 + LeadingBlanks(s[1..]) else 0
  }

  /** Number of blanks `trim` removes from the back of `s`. */
  function TrailingBlanks(s: string): (n: nat)
    ensures n <= |s|
    ensures forall i | |s| - n <= i < |s| :: IsBlank(s[i])
    ensures n < |s| ==> !IsBlank(s[|s| - 1 - n])
  {
    if |s| > 0 && IsBlank(s[|s| - 1]) then 1 + TrailingBlanks(s[..|s| - 1]) else 0
  }

  /**
   * Java's `String.trim`: the longest infix of `s` that neither starts nor ends
   * with a blank, obtained by dropping only blanks at both ends.
   */
  function Trim(s: string): (r: string)
    ensures IsTrimmed(r)
    ensures LeadingBlanks(s) + |r| <= |s|
    ensures r == s[LeadingBlanks(s)..LeadingBlanks(s) + |r|]
    ensures forall i | LeadingBlanks(s) + |r| <= i < |s| :: IsBlank(s[i])
  {
    var t := s[LeadingBlanks(s)..];
    t[..|t| - TrailingBlanks(t)]
  }

  lemma TrimmedIsFixed(s: string)
    requires IsTrimmed(s)
    ensures Trim(s) == s
  {
    if |s| > 0 {
      assert LeadingBlanks(s) == 0;
      assert TrailingBlanks(s) == 0;
    }
  }

  lemma TrimIdempotent(s: string)
    ensures Trim(Trim(s)) == Trim(s)
  {
    TrimmedIsFixed(Trim(s));
  }

  /** Index of the first `c` in `s`, or `|s|` when there is none. */
  function IndexOf(s: string, c: char): (i: nat)
    ensures i <= |s|
    ensures i < |s| ==> s[i] == c
    ensures forall j | 0 <= j < i :: s[j] != c
  {
    if |s| == 0 then 0
    else if s[0] == c then 0
    else 1 + IndexOf(s[1..], c)
  }

  /** Number of occurrences of `c` in `s`. */
  function Occurrences(s: string, c: char): nat {
    if |s| == 0 then 0
    else (if s[0] == c then 1 else 0) + Occurrences(s[1..], c)
  }

  /** The fields joined back together, separated by `sep`. */
  function Join(fields: seq<string>, sep: char): string {
    if |fields| == 0 then ""
    else if |fields| == 1 then fields[0]
    else fields[0] + [sep] + Join(fields[1..], sep)
  }

  /**
   * `s.split(String.valueOf(sep), -1)` for a separator that is not a regular
   * expression metacharacter: every occurrence separates two fields, and empty
   * leading and trailing fields are kept.
   */
  function Split(s: string, sep: char): (fields: seq<string>)
    ensures |fields| == Occurrences(s, sep) + 1
    ensures forall k | 0 <= k < |fields| :: sep !in fields[k]
    ensures Join(fields, sep) == s
    decreases |s|
  {
    var i := IndexOf(s, sep);
    if i == |s| then
      NoOccurrences(s, sep);
      [s]
    else
      var rest := Split(s[i + 1..], sep);
      OccurrencesSplit(s, i, sep);
      assert s == s[..i] + [sep] + s[i + 1..];
      [s[..i]] + rest
  }

  lemma NoOccurrences(s: string, c: char)
    requires c !in s
    ensures Occurrences(s, c) == 0
  {
    if |s| > 0 {
      assert c !in s[1..];
      NoOccurrences(s[1..], c);
    }
  }

  /** Occurrences counted around the first occurrence, at index `i`. */
  lemma OccurrencesSplit(s: string, i: nat, c: char)
    requires i < |s| && s[i] == c
    requires forall j | 0 <= j < i :: s[j] != c
    ensures Occurrences(s, c) == 1 + Occurrences(s[i + 1..], c)
  {
    if i > 0 {
      OccurrencesSplit(s[1..], i - 1, c);
      assert s[1..][i..] == s[i + 1..];
    }
  }

  /** The converse of `Split`'s round trip: fields free of the separator come back unchanged. */
  lemma {:induction false} SplitJoin(fields: seq<string>, sep: char)
    requires |fields| >= 1
    requires forall k | 0 <= k < |fields| :: sep !in fields[k]
    ensures Split(Join(fields, sep), sep) == fields
  {
    var s := Join(fields, sep);
    if |fields| == 1 {
      assert IndexOf(s, sep) == |s|;
    } else {
      var tail := Join(fields[1..], sep);
      assert s == fields[0] + [sep] + tail;
      var i := IndexOf(s, sep);
      assert i == |fields[0]| by {
        assert s[|fields[0]|] == sep;
        forall j | 0 <= j < |fields[0]| ensures s[j] != sep {
          assert s[j] == fields[0][j];
        }
      }
      assert s[..i] == fields[0];
      assert s[i + 1..] == tail;
      SplitJoin(fields[1..], sep);
      assert fields == [fields[0]] + fields[1..];
    }
  }

  // ---------------------------------------------------------------------------
  // ASCII digit strings (both `Double.parseDouble` and `DateTimeFormatter`
  // accept only the digits '0'..'9').

  predicate IsDigit(c: char) {
    '0' <= c <= '9'
  }

  predicate AllDigits(s: string) {
    forall i | 0 <= i < |s| :: IsDigit(s[i])
  }

  function DigitValue(c: char): nat
    requires IsDigit(c)
  {
    (c as int - '0' as int) as nat
  }

  function DigitChar(d: nat): (c: char)
    requires d < 10
    ensures IsDigit(c) && DigitValue(c) == d
  {
    ('0' as int + d) as char
  }

  function Pow10(n: nat): (p: nat)
    ensures p >= 1
  {
    if n == 0 then 1 else 10 * Pow10(n - 1)
  }

  /** The number a decimal digit string denotes, most significant digit first. */
  function DigitsValue(s: string): (v: nat)
    requires AllDigits(s)
    ensures v < Pow10(|s|)
  {
    if |s| == 0 then 0
    else DigitsValue(s[..|s| - 1]) * 10 + DigitValue(s[|s| - 1])
  }

  /** Decimal notation of `n` without leading zeros. */
  function FormatNat(n: nat): (s: string)
    ensures |s| >= 1 && AllDigits(s)
    ensures DigitsValue(s) == n
  {
    if n < 10 then [DigitChar(n)]
    else
      var s := FormatNat(n / 10) + [DigitChar(n % 10)];
      assert s[..|s| - 1] == FormatNat(n / 10);
      s
  }

  /** `n` in exactly `width` digits, padded with leading zeros. */
  function PadNat(n: nat, width: nat): (s: string)
    requires n < Pow10(width)
    ensures |s| == width && AllDigits(s)
    ensures DigitsValue(s) == n
  {
    if width == 0 then ""
    else
      var s := PadNat(n / 10, width - 1) + [DigitChar(n % 10)];
      assert s[..|s| - 1] == PadNat(n / 10, width - 1);
      s
  }
}
