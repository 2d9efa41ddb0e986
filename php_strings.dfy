/**
 * The PHP string primitives the core relies on, written out: integer conversion
 * (`intval` / `(int)` / `sprintf('%d')`), decimal formatting of integers,
 * `explode` / `preg_split` on single characters, `implode`, `str_starts_with`,
 * `str_ends_with`, `ltrim`/`mb_trim` and ASCII lower-casing.
 */
module PhpStrings {

  // ---------------------------------------------------------------------------
  // Digits and decimal formatting
  // ---------------------------------------------------------------------------

  predicate IsDigit(c: char) { '0' <= c <= '9' }

  predicate AllDigits(s: string) { forall i :: 0 <= i < |s| ==> IsDigit(s[i]) }

  function DigitChar(d: nat): (c: char)
    requires d < 10
    ensures IsDigit(c)
  {
    (('0' as int) + d) as char
  }

  function DigitValue(c: char): (d: nat)
    requires IsDigit(c)
    ensures d < 10
  {
    (c as int) - ('0' as int)
  }

  /** PHP's rendering of a non-negative integer in a string ("{$n}", `%d`). */
  function NatToString(n: nat): (s: string)
    ensures |s| >= 1 && AllDigits(s)
  {
    if n < 10 then [DigitChar(n)] else NatToString(n / 10) + [DigitChar(n % 10)]
  }

  /** PHP's rendering of any integer: a '-' before the digits of a negative one. */
  function IntToString(i: int): string
  {
    if i < 0 then "-" + NatToString(-i) else NatToString(i)
  }

  /** The number a string of decimal digits denotes. */
  function DigitsValue(s: string): nat
    requires AllDigits(s)
  {
    if s == [] then 0 else DigitsValue(s[..|s| - 1]) * 10 + DigitValue(s[|s| - 1])
  }

  /** The longest prefix of `s` made of decimal digits. */
  function LeadingDigits(s: string): (d: string)
    ensures AllDigits(d) && d <= s
  {
    if s != [] && IsDigit(s[0]) then [s[0]] + LeadingDigits(s[1..]) else []
  }

  /** The white space PHP skips before the digits of a numeric string. */
  predicate IsNumericSpace(c: char)
  {
    c == ' ' || c == '\t' || c == '\n' || c == '\r' || c == 11 as char || c == 12 as char
  }

  function SkipNumericSpace(s: string): (t: string)
    ensures |t| <= |s|
  {
    if s != [] && IsNumericSpace(s[0]) then SkipNumericSpace(s[1..]) else s
  }

  /**
   * PHP's integer conversion of a string (`intval`, `(int)`, `%d`): leading white
   * space, an optional sign and the leading decimal digits; 0 when there are none.
   */
  function IntVal(s: string): int
  {
    var t := SkipNumericSpace(s);
    if t != [] && t[0] == '-' then -(DigitsValue(LeadingDigits(t[1..])) as int)
    else if t != [] && t[0] == '+' then DigitsValue(LeadingDigits(t[1..]))
    else DigitsValue(LeadingDigits(t))
  }

  lemma {:induction false} DigitsValueOfNatToString(n: nat)
    ensures DigitsValue(NatToString(n)) == n
  {
    var s := NatToString(n);
    if n >= 10 {
      DigitsValueOfNatToString(n / 10);
      assert s[..|s| - 1] == NatToString(n / 10);
    }
  }

  lemma {:induction false} LeadingDigitsOfDigits(s: string)
    requires AllDigits(s)
    ensures LeadingDigits(s) == s
  {
    if s != [] {
      LeadingDigitsOfDigits(s[1..]);
    }
  }

  /** Formatting a natural number and reading it back with `intval` gives the number. */
  lemma IntValOfNatToString(n: nat)
    ensures IntVal(NatToString(n)) == n
  {
    var s := NatToString(n);
    assert SkipNumericSpace(s) == s;
    LeadingDigitsOfDigits(s);
    DigitsValueOfNatToString(n);
  }

  /** Round trip of the integer rendering through `intval`, negative numbers included. */
  lemma IntValOfIntToString(i: int)
    ensures IntVal(IntToString(i)) == i
  {
    if i < 0 {
      var s := IntToString(i);
      assert SkipNumericSpace(s) == s;
      assert s[1..] == NatToString(-i);
      LeadingDigitsOfDigits(s[1..]);
      DigitsValueOfNatToString(-i);
    } else {
      IntValOfNatToString(i);
    }
  }

  function Pow10(k: nat): (p: nat)
    ensures p >= 1
  {
    if k == 0 then 1 else 10 * Pow10(k - 1)
  }

  /** A number of at least 10^k needs more than k digits. */
  lemma {:induction false} NatToStringLength(n: nat, k: nat)
    requires n >= Pow10(k)
    ensures |NatToString(n)| > k
  {
    if k > 0 {
      NatToStringLength(n / 10, k - 1);
    }
  }

  // ---------------------------------------------------------------------------
  // Splitting and joining
  // ---------------------------------------------------------------------------

  predicate NoneOf(s: string, seps: set<char>)
  {
    forall i :: 0 <= i < |s| ==> s[i] !in seps
  }

  /**
   * `explode` on one separator character, or `preg_split('/[...]/')` on a class of
   * them: every separator ends a piece, empty pieces included.
   */
  function Split(s: string, seps: set<char>): (parts: seq<string>)
    ensures |parts| >= 1
    ensures forall k :: 0 <= k < |parts| ==> NoneOf(parts[k], seps)
  {
    if s == [] then [""]
    else if s[0] in seps then [""] + Split(s[1..], seps)
    else
      var rest := Split(s[1..], seps);
      [[s[0]] + rest[0]] + rest[1..]
  }

  /** `implode` / `join`. */
  function Join(parts: seq<string>, sep: string): string
  {
    if parts == [] then ""
    else if |parts| == 1 then parts[0]
    else parts[0] + sep + Join(parts[1..], sep)
  }

  lemma {:induction false} SplitAfterPlainPrefix(p: string, t: string, seps: set<char>)
    requires NoneOf(p, seps)
    ensures Split(p + t, seps) == [p + Split(t, seps)[0]] + Split(t, seps)[1..]
  {
    if p != [] {
      assert (p + t)[1..] == p[1..] + t;
      SplitAfterPlainPrefix(p[1..], t, seps);
      assert [p[0]] + (p[1..] + Split(t, seps)[0]) == p + Split(t, seps)[0];
    } else {
      var r := Split(t, seps);
      assert p + t == t && p + r[0] == r[0];
      assert r == [r[0]] + r[1..];
    }
  }

  /**
   * Splitting a joined list on a separator class that contains the joining
   * character and none of the pieces' characters gives the pieces back.
   */
  lemma {:induction false} SplitJoin(parts: seq<string>, c: char, seps: set<char>)
    requires |parts| >= 1 && c in seps
    requires forall k :: 0 <= k < |parts| ==> NoneOf(parts[k], seps)
    ensures Split(Join(parts, [c]), seps) == parts
  {
    if |parts| == 1 {
      SplitAfterPlainPrefix(parts[0], "", seps);
      assert parts[0] + "" == parts[0];
    } else {
      var rest := Join(parts[1..], [c]);
      SplitJoin(parts[1..], c, seps);
      assert Join(parts, [c]) == parts[0] + ([c] + rest);
      SplitAfterPlainPrefix(parts[0], [c] + rest, seps);
      assert ([c] + rest)[1..] == rest;
      assert Split([c] + rest, seps) == [""] + parts[1..];
      assert parts[0] + "" == parts[0];
    }
  }

  /** Joining the pieces of a split on one character with that character gives the string back. */
  lemma {:induction false} JoinSplit(s: string, c: char)
    ensures Join(Split(s, {c}), [c]) == s
  {
    if s != [] {
      var rest := Split(s[1..], {c});
      JoinSplit(s[1..], c);
      if s[0] == c {
        assert Split(s, {c}) == [""] + rest;
        assert Join([""] + rest, [c]) == "" + [c] + Join(rest, [c]);
        assert s == [s[0]] + s[1..];
      } else if |rest| == 1 {
        assert Split(s, {c}) == [[s[0]] + rest[0]];
        assert s == [s[0]] + s[1..];
      } else {
        var parts := Split(s, {c});
        assert parts == [[s[0]] + rest[0]] + rest[1..];
        assert parts[1..] == rest[1..];
        assert Join(rest, [c]) == rest[0] + [c] + Join(rest[1..], [c]);
        assert Join(parts, [c]) == ([s[0]] + rest[0]) + [c] + Join(rest[1..], [c]);
        assert s == [s[0]] + s[1..];
      }
    }
  }

  /** The position of the first `c` in `s`, if any. */
  function IndexOf(s: string, c: char): (r: int)
    ensures -1 <= r < |s|
    ensures r >= 0 ==> s[r] == c && forall i :: 0 <= i < r ==> s[i] != c
    ensures r < 0 ==> forall i :: 0 <= i < |s| ==> s[i] != c
  {
    if s == [] then -1
    else if s[0] == c then 0
    else
      var r := IndexOf(s[1..], c);
      if r < 0 then -1 else r + 1
  }

  // ---------------------------------------------------------------------------
  // Prefixes, suffixes, trimming, case
  // ---------------------------------------------------------------------------

  predicate StartsWith(s: string, prefix: string)
  {
    |prefix| <= |s| && s[..|prefix|] == prefix
  }

  predicate EndsWith(s: string, suffix: string)
  {
    |suffix| <= |s| && s[|s| - |suffix|..] == suffix
  }

  /** `ltrim($s, $c)` for one character: every leading `c` removed. */
  function LTrimChar(s: string, c: char): (t: string)
    ensures t == [] || t[0] != c
    ensures |t| <= |s| && t == s[|s| - |t|..]
    ensures forall i :: 0 <= i < |s| - |t| ==> s[i] == c
  {
    if s != [] && s[0] == c then LTrimChar(s[1..], c) else s
  }

  function AsciiLower(s: string): (t: string)
    ensures |t| == |s|
  {
    if s == [] then []
    else [if 'A' <= s[0] <= 'Z' then ((s[0] as int) + 32) as char else s[0]] + AsciiLower(s[1..])
  }
}
