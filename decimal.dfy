/**
  Decimal text for unsigned integers: how fmt's `%v` renders a uint64 and how
  strconv's ParseUint(s, 10, 64) reads one back. The ownership checks compare a
  caller's id string with `Render` of the stored owner.
*/
module Decimal {
  import opened Wrappers
  import opened Entities

  predicate IsDigit(c: char) { '0' <= c <= '9' }

  predicate IsDigits(s: string) { forall i :: 0 <= i < |s| ==> IsDigit(s[i]) }

  /** The only spelling `%v` produces: digits, no sign, no leading zero except in "0". */
  predicate IsCanonical(s: string) { |s| > 0 && IsDigits(s) && (s[0] == '0' ==> |s| == 1) }

  function DigitChar(d: nat): (c: char)
    requires d < 10
    ensures IsDigit(c)
  {
    ('0' as int + d) as char
  }

  function DigitValue(c: char): (d: nat)
    requires IsDigit(c)
    ensures d < 10
  {
    c as int - '0' as int
  }

  /** The number a string of digits denotes, most significant digit first. */
  function Value(s: string): nat
    requires IsDigits(s)
  {
    if s == [] then 0 else Value(s[..|s| - 1]) * 10 + DigitValue(s[|s| - 1])
  }

  /** fmt.Sprintf("%v", n) for an unsigned integer n. */
  function Render(n: nat): (s: string)
    ensures IsCanonical(s)
    ensures Value(s) == n
    decreases n
  {
    if n < 10 then [DigitChar(n)]
    else
      var prefix := Render(n / 10);
      var s := prefix + [DigitChar(n % 10)];
      assert s[..|s| - 1] == prefix;
      s
  }

  /** A canonical numeral has a leading digit other than zero unless it is "0" itself. */
  lemma {:induction false} PositiveLeadingDigit(s: string)
    requires IsDigits(s) && |s| > 0 && s[0] != '0'
    ensures Value(s) >= 1
  {
    if |s| > 1 {
      var prefix := s[..|s| - 1];
      assert prefix[0] == s[0];
      PositiveLeadingDigit(prefix);
    }
  }

  /** Rendering is the inverse of reading on canonical numerals. */
  lemma {:induction false} RenderValue(s: string)
    requires IsCanonical(s)
    ensures Render(Value(s)) == s
  {
    if |s| > 1 {
      var prefix := s[..|s| - 1];
      assert prefix[0] == s[0];
      PositiveLeadingDigit(prefix);
      RenderValue(prefix);
      assert s == prefix + [s[|s| - 1]];
    }
  }

  /** Two numbers render alike exactly when they are equal. */
  lemma RenderInjective(a: nat, b: nat)
    ensures Render(a) == Render(b) <==> a == b
  {
  }

  /** A string equals the rendering of n exactly when it is canonical and denotes n. */
  lemma RenderMatches(s: string, n: nat)
    ensures s == Render(n) <==> IsCanonical(s) && Value(s) == n
  {
    if IsCanonical(s) && Value(s) == n {
      RenderValue(s);
    }
  }

  function Pow10(k: nat): (p: nat)
    ensures p >= 1
  {
    if k == 0 then 1 else 10 * Pow10(k - 1)
  }

  lemma {:induction false} Pow10Monotone(a: nat, b: nat)
    requires a <= b
    ensures Pow10(a) <= Pow10(b)
    decreases b
  {
    if a < b {
      Pow10Monotone(a, b - 1);
    }
  }

  /** A string of k digits denotes less than 10^k. */
  lemma {:induction false} ValueBound(s: string)
    requires IsDigits(s)
    ensures Value(s) < Pow10(|s|)
    decreases |s|
  {
    if s != [] {
      ValueBound(s[..|s| - 1]);
    }
  }

  /** A digit string never decreases in value as it grows. */
  lemma {:induction false} ValuePrefix(s: string, i: nat, j: nat)
    requires i <= j <= |s| && IsDigits(s[..j])
    ensures IsDigits(s[..i]) && Value(s[..i]) <= Value(s[..j])
    decreases j
  {
    if i < j {
      assert s[..j][..j - 1] == s[..j - 1];
      ValuePrefix(s, i, j - 1);
    }
  }

  /** The length of the run of digits at the front of s. */
  function DigitRun(s: string): (k: nat)
    ensures k <= |s| && IsDigits(s[..k])
    ensures k < |s| ==> !IsDigit(s[k])
  {
    if s == [] || !IsDigit(s[0]) then 0
    else
      var k := DigitRun(s[1..]);
      assert s[..k + 1] == [s[0]] + s[1..][..k];
      1 + k
  }

  /** How ParseUint's digit loop ends: with a value, at a character that is no digit, or on overflow. */
  datatype UintScan = Parsed(n: nat) | SyntaxError | RangeError

  /** The smallest n with n * 10 above the 64-bit maximum (ParseUint's `cutoff` for base 10). */
  const Cutoff: nat := MaxUint64 / 10 + 1

  /**
    ParseUint's loop over s, from the value n read so far: a character other than a
    digit stops it with a syntax error, and the first digit that would carry the value
    past 64 bits stops it with a range error, without looking further.
  */
  function ScanDigits(s: string, n: nat): (r: UintScan)
    requires n <= MaxUint64
    ensures r.Parsed? ==> r.n <= MaxUint64
    decreases |s|
  {
    if s == [] then Parsed(n)
    else if !IsDigit(s[0]) then SyntaxError
    else if n >= Cutoff then RangeError
    else if n * 10 + DigitValue(s[0]) > MaxUint64 then RangeError
    else ScanDigits(s[1..], n * 10 + DigitValue(s[0]))
  }

  /**
    The loop over s[j..], having read the digits s[..j]: overflow anywhere in the
    digits s[..i] is a range error; otherwise a non-digit at i is a syntax error
    and the end of s is the value of s.
  */
  lemma {:induction false} ScanFrom(s: string, j: nat, i: nat)
    requires j <= i <= |s| && IsDigits(s[..i])
    requires IsDigits(s[..j]) && Value(s[..j]) <= MaxUint64
    ensures Value(s[..i]) > MaxUint64 ==> ScanDigits(s[j..], Value(s[..j])) == RangeError
    ensures Value(s[..i]) <= MaxUint64 && i < |s| && !IsDigit(s[i]) ==> ScanDigits(s[j..], Value(s[..j])) == SyntaxError
    ensures Value(s[..i]) <= MaxUint64 && i == |s| ==> ScanDigits(s[j..], Value(s[..j])) == Parsed(Value(s))
    decreases i - j
  {
    if j == i {
      assert i == |s| ==> s[j..] == [] && s[..i] == s;
    } else {
      assert IsDigit(s[..i][j]);
      var m := Value(s[..j + 1]);
      assert s[..j + 1][..j] == s[..j];
      assert m == Value(s[..j]) * 10 + DigitValue(s[j]);
      ValuePrefix(s, j + 1, i);
      if m <= MaxUint64 {
        assert s[j..][1..] == s[j + 1..];
        ScanFrom(s, j + 1, i);
      }
    }
  }

  /** strconv.ParseUint(s, 10, 64): an empty string is a syntax error, otherwise the digit loop from 0. */
  function ScanUint(s: string): (r: UintScan)
    ensures r.Parsed? ==> r.n <= MaxUint64
  {
    if s == [] then SyntaxError else ScanDigits(s, 0)
  }

  /**
    How ParseUint ends, by the digits in front of the first non-digit: a range error
    once they leave 64 bits, whatever follows; a syntax error for the empty string
    and at a non-digit reached within 64 bits; the value of a digit string within 64 bits.
  */
  lemma ScanUintCases(s: string)
    ensures s == [] ==> ScanUint(s) == SyntaxError
    ensures forall i :: 0 <= i <= |s| && IsDigits(s[..i]) && Value(s[..i]) > MaxUint64 ==> ScanUint(s) == RangeError
    ensures forall i :: 0 <= i < |s| && IsDigits(s[..i]) && !IsDigit(s[i]) && Value(s[..i]) <= MaxUint64 ==> ScanUint(s) == SyntaxError
    ensures s != [] && IsDigits(s) && Value(s) <= MaxUint64 ==> ScanUint(s) == Parsed(Value(s))
  {
    forall i | 0 <= i <= |s| && IsDigits(s[..i])
      ensures Value(s[..i]) > MaxUint64 ==> ScanDigits(s, 0) == RangeError
      ensures Value(s[..i]) <= MaxUint64 && i < |s| && !IsDigit(s[i]) ==> ScanDigits(s, 0) == SyntaxError
      ensures Value(s[..i]) <= MaxUint64 && i == |s| ==> ScanDigits(s, 0) == Parsed(Value(s))
    {
      assert s[..0] == [] && s[0..] == s;
      ScanFrom(s, 0, i);
    }
    assert s[..|s|] == s;
  }

  /** ParseUint with its error as None: digits only, at least one, and within 64 bits. */
  function ParseUint(s: string): (r: Option<uint64>)
    ensures r.Some? <==> |s| > 0 && IsDigits(s) && Value(s) <= MaxUint64
    ensures r.Some? ==> r.value as int == Value(s)
  {
    ScanUintCases(s);
    var k := DigitRun(s);
    assert IsDigits(s[..k]);
    assert k == |s| ==> s[..k] == s;
    match ScanUint(s)
    case Parsed(n) => Some(n as uint64)
    case _ => None
  }

  /** Reading back what `%v` wrote gives the original uint64. */
  lemma ParseRender(n: uint64)
    ensures ParseUint(Render(n as nat)) == Some(n)
  {
  }
}
