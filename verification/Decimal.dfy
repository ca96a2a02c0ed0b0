/** Decimal text as printf("%d") writes it and atoi reads it. */
module Decimal {
  import opened CStrings

  const MINUS: byte := 45

  predicate IsDigit(b: byte) {
    48 <= b <= 57
  }

  predicate AllDigits(s: seq<byte>) {
    forall k :: 0 <= k < |s| ==> IsDigit(s[k])
  }

  /** The decimal digits of a natural number, most significant first. */
  function Digits(n: nat): (r: seq<byte>)
    ensures r != [] && AllDigits(r) && (|r| > 1 ==> r[0] != 48)
  {
    if n < 10 then [48 + n] else Digits(n / 10) + [48 + n % 10]
  }

  /** printf("%d"). */
  function Decimal(i: int): (r: seq<byte>)
    ensures r != [] && NUL !in r && LF !in r && CR !in r
  {
    if i < 0 then [MINUS] + Digits(-i) else Digits(i)
  }

  /** The value atoi accumulates over a run of digits. */
  function Value(s: seq<byte>): (v: nat)
    requires AllDigits(s)
  {
    if s == [] then 0 else 10 * Value(s[..|s| - 1]) + (s[|s| - 1] - 48)
  }

  /** Reading back what was printed. */
  lemma {:induction false} ValueOfDigits(n: nat)
    ensures Value(Digits(n)) == n
  {
    if n >= 10 {
      ValueOfDigits(n / 10);
      assert Digits(n)[..|Digits(n)| - 1] == Digits(n / 10);
    }
  }

  /** printf("%d") in bytes: a minus sign, 45, in front of the digits of a negative number, no
      leading zeros, and the digits have the value of the number. */
  lemma DecimalInBytes(i: int)
    ensures var d := if i < 0 then Decimal(i)[1..] else Decimal(i);
            && (i < 0 ==> Decimal(i)[0] == 45)
            && d != [] && (forall k :: 0 <= k < |d| ==> 48 <= d[k] <= 57) && (|d| > 1 ==> d[0] != 48)
            && AllDigits(d) && Value(d) == if i < 0 then -i else i
  {
    ValueOfDigits(if i < 0 then -i else i);
  }

  /** The value of digits, the last of them worth its distance from 48. */
  lemma ValueInBytes(d: seq<byte>, c: byte)
    requires AllDigits(d) && 48 <= c <= 57
    ensures AllDigits(d + [c]) && Value(d + [c]) == 10 * Value(d) + (c - 48) && Value([]) == 0
  {
    assert (d + [c])[..|d|] == d;
  }

  function Pow10(k: nat): (p: nat)
    ensures p >= 1
  {
    if k == 0 then 1 else 10 * Pow10(k - 1)
  }

  lemma {:induction false} DigitsLength(n: nat, k: nat)
    requires k > 0 && n < Pow10(k)
    ensures |Digits(n)| <= k
  {
    if n >= 10 {
      assert k > 1;
      DigitsLength(n / 10, k - 1);
    }
  }

  const INT_MAX: int := 0x7fff_ffff

  /** A C int never prints as more than eleven characters. */
  lemma IntLength(i: int)
    requires -INT_MAX - 1 <= i <= INT_MAX
    ensures |Decimal(i)| <= 11
  {
    assert Pow10(10) == 10000000000 by {
      assert Pow10(2) == 100;
      assert Pow10(4) == 10000;
      assert Pow10(6) == 1000000;
      assert Pow10(8) == 100000000;
    }
    DigitsLength(if i < 0 then -i else i, 10);
  }

  method Atoi(s: seq<byte>) returns (v: nat)
    requires AllDigits(s)
    ensures v == Value(s)
  {
    v := 0;
    for i := 0 to |s|
      invariant v == Value(s[..i])
    {
      v := 10 * v + (s[i] - 48);
      assert s[..i + 1][..i] == s[..i];
    }
    assert s[..|s|] == s;
  }
}
