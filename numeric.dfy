/**
 * Fixed-width integer ranges of the Rust source and the decimal text that
 * `to_string` produces for unsigned values.
 */
module Numeric {

  type byte = x: int | 0 <= x < 0x100
  type u16 = x: int | 0 <= x < 0x1_0000
  type u32 = x: int | 0 <= x < 0x1_0000_0000
  type i64 = x: int | -0x8000_0000_0000_0000 <= x < 0x8000_0000_0000_0000

  const U16_LIMIT: int := 0x1_0000
  const U32_LIMIT: int := 0x1_0000_0000

  /** ASCII code of the character '0'. */
  const ASCII_ZERO: byte := 48

  /** Decimal digit values of `n`, most significant first, as `n.to_string()` writes them. */
  function Digits(n: nat): (ds: seq<nat>)
    ensures |ds| >= 1
    decreases n
  {
    if n < 10 then [n] else Digits(n / 10) + [n % 10]
  }

  /** The number a sequence of decimal digit values denotes (Horner's rule). */
  function DigitsValue(ds: seq<nat>): nat
  {
    if ds == [] then 0 else DigitsValue(ds[..|ds| - 1]) * 10 + ds[|ds| - 1]
  }

  predicate AllDigits(ds: seq<nat>)
  {
    forall i :: 0 <= i < |ds| ==> ds[i] < 10
  }

  /** Canonical decimal text: only digits, and no leading zero unless the number is zero itself. */
  predicate Canonical(ds: seq<nat>)
  {
    |ds| >= 1 && AllDigits(ds) && (ds[0] == 0 ==> |ds| == 1)
  }

  /** `Digits` is the canonical decimal text of `n` and reads back as `n`. */
  lemma {:induction false} DigitsCorrect(n: nat)
    ensures Canonical(Digits(n))
    ensures DigitsValue(Digits(n)) == n
    decreases n
  {
    if n >= 10 {
      DigitsCorrect(n / 10);
      var ds := Digits(n);
      assert ds[..|ds| - 1] == Digits(n / 10);
    }
  }

  /** Two numbers with the same decimal text are equal. */
  lemma DigitsInjective(n: nat, m: nat)
    requires Digits(n) == Digits(m)
    ensures n == m
  {
    DigitsCorrect(n);
    DigitsCorrect(m);
  }

  /** Ten to the power `k`. */
  function Pow10(k: nat): (p: nat)
    ensures p >= 1
  {
    if k == 0 then 1 else 10 * Pow10(k - 1)
  }

  /** ASCII bytes of decimal digit values. */
  function AsciiDigits(ds: seq<nat>): (bs: seq<byte>)
    requires AllDigits(ds)
    ensures |bs| == |ds|
    ensures forall i :: 0 <= i < |ds| ==> bs[i] == ASCII_ZERO + ds[i]
  {
    seq(|ds|, i requires 0 <= i < |ds| => ASCII_ZERO + ds[i])
  }

  /** The ASCII text `n.to_string()` for a non-negative `n`. */
  function DecimalBytes(n: nat): (bs: seq<byte>)
    ensures |bs| >= 1
    ensures forall i :: 0 <= i < |bs| ==> ASCII_ZERO <= bs[i] <= ASCII_ZERO + 9
  {
    DigitsCorrect(n);
    AsciiDigits(Digits(n))
  }

  /** A number below ten is written as its one digit. */
  lemma DecimalBytesOfDigit(n: nat)
    requires n < 10
    ensures DecimalBytes(n) == [ASCII_ZERO + n]
  {
    assert Digits(n) == [n];
  }
}
