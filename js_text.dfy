/**
 * The JavaScript string built-ins the extension relies on, over strings seen as
 * sequences of Unicode scalar values: `String.prototype.trim`, `includes`, a global
 * literal `replace`, `parseInt(s)` without a radix, and `String(n)` on integers.
 */
module JsText {
  import opened Wrappers

  /** ECMAScript WhiteSpace and LineTerminator code points: what `trim` strips. */
  predicate IsWhiteSpace(c: char) {
    || c == '\t' || c == '\n' || c == '\U{B}' || c == '\U{C}' || c == '\r' || c == ' '
    || c == '\U{A0}' || c == '\U{1680}' || ('\U{2000}' <= c <= '\U{200A}')
    || c == '\U{2028}' || c == '\U{2029}' || c == '\U{202F}' || c == '\U{205F}'
    || c == '\U{3000}' || c == '\U{FEFF}'
  }

  /** Leading white space removed. */
  function TrimStart(s: string): (r: string)
    ensures |r| <= |s| && r == s[|s| - |r|..]
    ensures forall i :: 0 <= i < |s| - |r| ==> IsWhiteSpace(s[i])
    ensures r == [] || !IsWhiteSpace(r[0])
  {
    if s == [] || !IsWhiteSpace(s[0]) then s else TrimStart(s[1..])
  }

  /** Trailing white space removed. */
  function TrimEnd(s: string): (r: string)
    ensures |r| <= |s| && r == s[..|r|]
    ensures forall i :: |r| <= i < |s| ==> IsWhiteSpace(s[i])
    ensures r == [] || !IsWhiteSpace(r[|r| - 1])
  {
    if s == [] || !IsWhiteSpace(s[|s| - 1]) then s else TrimEnd(s[..|s| - 1])
  }

  /** `s.trim()`. */
  function Trim(s: string): string {
    TrimEnd(TrimStart(s))
  }

  /** `!s || !s.trim()`: the string is empty or only white space. */
  predicate IsBlank(s: string) {
    Trim(s) == []
  }

  /** A string is blank exactly when every character of it is white space. */
  lemma BlankIff(s: string)
    ensures IsBlank(s) <==> forall i :: 0 <= i < |s| ==> IsWhiteSpace(s[i])
  {
    var t := TrimStart(s);
    if !forall i :: 0 <= i < |s| ==> IsWhiteSpace(s[i]) {
      assert t != [];
      assert !IsWhiteSpace(t[0]);
      assert TrimEnd(t) != [];
    }
  }

  /** `p` occurs in `s` starting at `i`. */
  predicate OccursAt(s: string, p: string, i: int) {
    0 <= i && i + |p| <= |s| && s[i..i + |p|] == p
  }

  /** An occurrence in the tail is an occurrence one place further on in the whole. */
  lemma OccursAtTail(s: string, p: string, i: nat)
    requires |s| > 0
    ensures OccursAt(s[1..], p, i) <==> OccursAt(s, p, i + 1)
  {
    if i + |p| <= |s| - 1 {
      assert s[1..][i..i + |p|] == s[i + 1..i + 1 + |p|];
    }
  }

  /** `s.includes(p)`. */
  predicate Contains(s: string, p: string) {
    exists i | 0 <= i <= |s| - |p| :: OccursAt(s, p, i)
  }

  /** A string containing a non-white-space pattern is not blank. */
  lemma ContainsNonBlankIsNotBlank(s: string, p: string)
    requires Contains(s, p)
    requires exists k :: 0 <= k < |p| && !IsWhiteSpace(p[k])
    ensures !IsBlank(s)
  {
    var i :| 0 <= i <= |s| - |p| && OccursAt(s, p, i);
    var k :| 0 <= k < |p| && !IsWhiteSpace(p[k]);
    assert s[i..i + |p|] == p;
    assert s[i + k] == p[k];
    BlankIff(s);
  }

  /**
   * `s.replace(/p/g, r)` for a pattern with no regular-expression metacharacters
   * and a replacement with no `$`: every non-overlapping occurrence of `p`, scanned
   * from the left, is replaced by `r`.
   */
  function ReplaceAll(s: string, p: string, r: string): string
    requires |p| > 0
    decreases |s|
  {
    if |s| < |p| then s
    else if s[..|p|] == p then r + ReplaceAll(s[|p|..], p, r)
    else [s[0]] + ReplaceAll(s[1..], p, r)
  }

  /** A string without the pattern is left as it is. */
  lemma {:induction false} ReplaceAllAbsent(s: string, p: string, r: string)
    requires |p| > 0 && !Contains(s, p)
    ensures ReplaceAll(s, p, r) == s
    decreases |s|
  {
    if |s| >= |p| {
      assert !OccursAt(s, p, 0);
      forall i | OccursAt(s[1..], p, i) ensures false {
        assert s[1..][i..i + |p|] == s[i + 1..i + 1 + |p|];
        assert OccursAt(s, p, i + 1);
      }
      ReplaceAllAbsent(s[1..], p, r);
    }
  }

  /**
   * Every occurrence is replaced: when the first occurrence of `p` in `a + p + b`
   * starts right after `a`, the result is `a`, then `r`, then `b` with its own
   * occurrences replaced.
   */
  lemma {:induction false} ReplaceAllFirst(a: string, p: string, b: string, r: string)
    requires |p| > 0
    requires forall i :: 0 <= i < |a| ==> !OccursAt(a + p + b, p, i)
    ensures ReplaceAll(a + p + b, p, r) == a + r + ReplaceAll(b, p, r)
    decreases |a|
  {
    var s := a + p + b;
    if a == [] {
      assert s == p + b;
      assert s[..|p|] == p && s[|p|..] == b;
    } else {
      var a', s' := a[1..], a[1..] + p + b;
      assert !OccursAt(s, p, 0);
      assert s[..|p|] != p;
      assert ReplaceAll(s, p, r) == [s[0]] + ReplaceAll(s[1..], p, r);
      assert s[1..] == s';
      forall i | 0 <= i < |a'| ensures !OccursAt(s', p, i) {
        OccursAtTail(s, p, i);
      }
      ReplaceAllFirst(a', p, b, r);
      assert [s[0]] + (a' + r + ReplaceAll(b, p, r)) == a + r + ReplaceAll(b, p, r);
    }
  }

  /** Characters that cannot start the pattern are copied through unchanged. */
  lemma {:induction false} ReplaceAllSkip(a: string, b: string, p: string, r: string)
    requires |p| > 0
    requires forall i :: 0 <= i < |a| ==> a[i] != p[0]
    ensures ReplaceAll(a + b, p, r) == a + ReplaceAll(b, p, r)
    decreases |a|
  {
    if a == [] {
      assert a + b == b;
    } else {
      var s := a + b;
      assert s[0] == a[0];
      if |s| >= |p| {
        assert s[..|p|] != p by {
          assert s[..|p|][0] == s[0];
        }
      }
      assert ReplaceAll(s, p, r) == [s[0]] + ReplaceAll(s[1..], p, r);
      assert s[1..] == a[1..] + b;
      ReplaceAllSkip(a[1..], b, p, r);
      assert a == [a[0]] + a[1..];
    }
  }

  /** The pattern alone becomes the replacement. */
  lemma ReplaceAllPattern(p: string, r: string)
    requires |p| > 0
    ensures ReplaceAll(p, p, r) == r
  {
    assert p[..|p|] == p && p[|p|..] == [];
    assert r + [] == r;
  }

  predicate IsDecimalDigit(c: char) {
    '0' <= c <= '9'
  }

  predicate IsHexDigit(c: char) {
    IsDecimalDigit(c) || 'a' <= c <= 'f' || 'A' <= c <= 'F'
  }

  function DigitValue(c: char): (d: nat)
    requires IsHexDigit(c)
    ensures d < 16 && (IsDecimalDigit(c) ==> d < 10)
  {
    if IsDecimalDigit(c) then c as int - '0' as int
    else if 'a' <= c <= 'f' then c as int - 'a' as int + 10
    else c as int - 'A' as int + 10
  }

  /** The longest prefix of `s` made of digits of the given radix (10 or 16). */
  function DigitPrefix(s: string, hex: bool): (r: string)
    ensures |r| <= |s| && r == s[..|r|]
    ensures forall i :: 0 <= i < |r| ==> (if hex then IsHexDigit(r[i]) else IsDecimalDigit(r[i]))
  {
    if s != [] && (if hex then IsHexDigit(s[0]) else IsDecimalDigit(s[0]))
    then [s[0]] + DigitPrefix(s[1..], hex)
    else []
  }

  /** The number a digit string denotes in the given radix, most significant digit first. */
  function DigitsValue(s: string, radix: nat): nat
    requires forall i :: 0 <= i < |s| ==> IsHexDigit(s[i])
  {
    if s == [] then 0 else DigitsValue(s[..|s| - 1], radix) * radix + DigitValue(s[|s| - 1])
  }

  /**
   * The digits after the sign: a `0x`/`0X` prefix selects hexadecimal, then the
   * longest run of digits of that radix is read; None when there is no digit.
   */
  function ParseMagnitude(u: string): Option<nat> {
    var hex := |u| >= 2 && u[0] == '0' && (u[1] == 'x' || u[1] == 'X');
    var digits := DigitPrefix(if hex then u[2..] else u, hex);
    if digits == [] then None else Some(DigitsValue(digits, if hex then 16 else 10))
  }

  /**
   * `parseInt(s)` without a radix: leading white space skipped, then an optional
   * sign and the magnitude; None stands for NaN (no digit at all).
   */
  function ParseInt(s: string): Option<int> {
    if s != [] && IsWhiteSpace(s[0]) then ParseInt(s[1..]) else ParseSigned(s)
  }

  /** An optional sign, then the magnitude. */
  function ParseSigned(t: string): Option<int> {
    var signed := |t| > 0 && (t[0] == '-' || t[0] == '+');
    match ParseMagnitude(if signed then t[1..] else t)
    case None => None
    case Some(m) =>
      var value := if signed && t[0] == '-' then 0 - m as int else m as int;
      Some(value)
  }

  /** Decimal digits of a natural number, without leading zeros. */
  function NatToString(n: nat): (r: string)
    ensures |r| > 0 && forall i :: 0 <= i < |r| ==> IsDecimalDigit(r[i])
  {
    if n < 10 then ['0' + n as char]
    else NatToString(n / 10) + ['0' + (n % 10) as char]
  }

  /** `String(n)` for an integer `n`. */
  function IntToString(n: int): string {
    if n < 0 then "-" + NatToString(-n) else NatToString(n)
  }

  lemma {:induction false} DigitPrefixAll(s: string, hex: bool)
    requires forall i :: 0 <= i < |s| ==> IsDecimalDigit(s[i])
    ensures DigitPrefix(s, hex) == s
  {
    if s != [] {
      DigitPrefixAll(s[1..], hex);
    }
  }

  lemma {:induction false} NatToStringValue(n: nat)
    ensures DigitsValue(NatToString(n), 10) == n
  {
    if n >= 10 {
      var r := NatToString(n);
      NatToStringValue(n / 10);
      assert r[..|r| - 1] == NatToString(n / 10);
    }
  }

  lemma ParseMagnitudeOfNatToString(m: nat)
    ensures ParseMagnitude(NatToString(m)) == Some(m)
  {
    var u := NatToString(m);
    assert |u| >= 2 ==> IsDecimalDigit(u[1]);
    DigitPrefixAll(u, false);
    NatToStringValue(m);
  }

  /** `parseInt(String(n)) == n` for every integer `n`. */
  lemma ParseIntOfIntToString(n: int)
    ensures ParseInt(IntToString(n)) == Some(n)
  {
    var s := IntToString(n);
    if n < 0 {
      var u := NatToString(-n);
      assert s == "-" + u && s[1..] == u;
      ParseMagnitudeOfNatToString(-n);
      assert ParseSigned(s) == Some(n);
    } else {
      var u := NatToString(n);
      assert !IsWhiteSpace(u[0]) && u[0] != '-' && u[0] != '+';
      ParseMagnitudeOfNatToString(n);
      assert ParseSigned(s) == Some(n);
    }
  }
}
