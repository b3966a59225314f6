// The search space of one trial: every n-bit string, zero-padded, in numeric order,
// as produced by the comprehension [f"{i:0{n}b}" for i in range(2 ** n)].

module BitStrings {

  /** 2 ** n */
  function Pow2(n: nat): (r: nat)
    ensures r >= 1
  {
    if n == 0 then 1 else 2 * Pow2(n - 1)
  }

  predicate IsBitString(s: string)
  {
    forall i :: 0 <= i < |s| ==> s[i] == '0' || s[i] == '1'
  }

  function BitValue(c: char): nat
  {
    if c == '1' then 1 else 0
  }

  /** The number a string of binary digits denotes, most significant digit first. */
  function Value(s: string): nat
  {
    if s == [] then 0 else 2 * Value(s[..|s| - 1]) + BitValue(s[|s| - 1])
  }

  function DigitChar(b: nat): char
    requires b < 2
  {
    if b == 0 then '0' else '1'
  }

  /** Python's format type 'b': binary digits without leading zeros, "0" for zero. */
  function Digits(i: nat): string
  {
    if i < 2 then [DigitChar(i)] else Digits(i / 2) + [DigitChar(i % 2)]
  }

  function Zeros(k: nat): string
  {
    seq(k, _ => '0')
  }

  /** f"{i:0{width}b}": the binary digits of i, left-padded with '0' up to width; never truncated. */
  function FormatBinary(i: nat, width: nat): string
  {
    var d := Digits(i);
    if |d| >= width then d else Zeros(width - |d|) + d
  }

  /** [f"{i:0{n}b}" for i in range(2 ** n)] */
  function SearchSpace(n: nat): seq<string>
  {
    seq(Pow2(n), i requires 0 <= i => FormatBinary(i, n))
  }

  lemma {:induction false} DigitsDenote(i: nat)
    ensures IsBitString(Digits(i)) && Value(Digits(i)) == i
  {
    if i >= 2 {
      DigitsDenote(i / 2);
      var d := Digits(i);
      assert d == Digits(i / 2) + [DigitChar(i % 2)];
      assert d[..|d| - 1] == Digits(i / 2);
    }
  }

  lemma {:induction false} DigitsFit(i: nat, n: nat)
    requires 1 <= n && i < Pow2(n)
    ensures |Digits(i)| <= n
  {
    if i >= 2 {
      assert i / 2 < Pow2(n - 1);
      DigitsFit(i / 2, n - 1);
    }
  }

  lemma {:induction false} ZerosDenoteZero(k: nat)
    ensures Value(Zeros(k)) == 0
  {
    if k > 0 {
      assert Zeros(k)[..k - 1] == Zeros(k - 1);
      ZerosDenoteZero(k - 1);
    }
  }

  /** Leading zeros do not change the value of a binary string. */
  lemma {:induction false} LeadingZeros(k: nat, d: string)
    ensures Value(Zeros(k) + d) == Value(d)
    decreases |d|
  {
    if d == [] {
      assert Zeros(k) + d == Zeros(k);
      ZerosDenoteZero(k);
    } else {
      var s := Zeros(k) + d;
      assert s[..|s| - 1] == Zeros(k) + d[..|d| - 1];
      LeadingZeros(k, d[..|d| - 1]);
    }
  }

  /** For 1 <= n and i < 2 ** n the padded rendering is exactly n binary digits denoting i. */
  lemma FormatBinaryDenotes(i: nat, n: nat)
    requires 1 <= n && i < Pow2(n)
    ensures |FormatBinary(i, n)| == n
    ensures IsBitString(FormatBinary(i, n))
    ensures Value(FormatBinary(i, n)) == i
  {
    DigitsDenote(i);
    DigitsFit(i, n);
    var d := Digits(i);
    if |d| < n {
      LeadingZeros(n - |d|, d);
    }
  }

  lemma {:induction false} ValueBound(s: string)
    ensures Value(s) < Pow2(|s|)
  {
    if s != [] {
      ValueBound(s[..|s| - 1]);
    }
  }

  lemma LastDigit(a: nat, b: nat, c: nat, d: nat)
    requires b < 2 && d < 2 && 2 * a + b == 2 * c + d
    ensures a == c && b == d
  {
  }

  /** Two binary strings of one length that denote the same number are equal. */
  lemma {:induction false} ValueInjective(s: string, u: string)
    requires IsBitString(s) && IsBitString(u) && |s| == |u|
    requires Value(s) == Value(u)
    ensures s == u
  {
    if s != [] {
      var k := |s| - 1;
      LastDigit(Value(s[..k]), BitValue(s[k]), Value(u[..k]), BitValue(u[k]));
      assert s[k] == u[k];
      ValueInjective(s[..k], u[..k]);
      assert s == s[..k] + [s[k]];
      assert u == u[..k] + [u[k]];
    }
  }

  /** Rendering a non-empty binary string's value at its own width gives the string back. */
  lemma FormatBinaryRoundTrip(s: string)
    requires 1 <= |s| && IsBitString(s)
    ensures FormatBinary(Value(s), |s|) == s
  {
    ValueBound(s);
    FormatBinaryDenotes(Value(s), |s|);
    ValueInjective(FormatBinary(Value(s), |s|), s);
  }

  /** The enumeration has 2 ** n entries; entry i is n binary digits denoting i, so entries are distinct. */
  lemma SearchSpaceEntries(n: nat)
    requires 1 <= n
    ensures |SearchSpace(n)| == Pow2(n)
    ensures forall i :: 0 <= i < Pow2(n) ==>
      |SearchSpace(n)[i]| == n && IsBitString(SearchSpace(n)[i]) && Value(SearchSpace(n)[i]) == i
    ensures forall i, j :: 0 <= i < j < Pow2(n) ==> SearchSpace(n)[i] != SearchSpace(n)[j]
  {
    forall i | 0 <= i < Pow2(n)
      ensures |SearchSpace(n)[i]| == n && IsBitString(SearchSpace(n)[i]) && Value(SearchSpace(n)[i]) == i
    {
      FormatBinaryDenotes(i, n);
    }
  }

  /** Every non-empty binary string occurs in the enumeration of its width, at the index it denotes. */
  lemma {:induction false} SearchSpaceComplete(s: string)
    requires 1 <= |s| && IsBitString(s)
    ensures Value(s) < |SearchSpace(|s|)| && SearchSpace(|s|)[Value(s)] == s
  {
    ValueBound(s);
    FormatBinaryRoundTrip(s);
  }

  /** With width 0 the format still prints one digit: the single entry is "0", not the empty string. */
  lemma SearchSpaceWidthZero()
    ensures SearchSpace(0) == ["0"]
  {
    assert Digits(0) == "0";
  }
}
