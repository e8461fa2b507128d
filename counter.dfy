/**
 * The page's tab counter: a C# `int`, incremented in the default unchecked
 * context (so it wraps from 2147483647 to -2147483648), and its rendering as
 * decimal text inside a tab title.
 */
module Counter {

  const INT32_MIN: int := -0x8000_0000
  const INT32_MAX: int := 0x7FFF_FFFF
  const INT32_RANGE: int := 0x1_0000_0000

  predicate IsInt32(x: int) {
    INT32_MIN <= x <= INT32_MAX
  }

  /** Two's-complement reduction of a mathematical integer to 32 bits. */
  function Wrap(x: int): (r: int)
    ensures IsInt32(r)
    ensures IsInt32(x) ==> r == x
  {
    INT32_MIN + (x - INT32_MIN) % INT32_RANGE
  }

  /** Adding a multiple of 2^32 does not change a remainder modulo 2^32. */
  lemma ModShift(b: int, q: int)
    ensures (b + INT32_RANGE * q) % INT32_RANGE == b % INT32_RANGE
  {
    var r := b % INT32_RANGE;
    assert b == INT32_RANGE * (b / INT32_RANGE) + r;
    assert b + INT32_RANGE * q == INT32_RANGE * (b / INT32_RANGE + q) + r;
  }

  /** Two integers wrap to the same 32-bit value exactly when they are congruent modulo 2^32. */
  lemma WrapCongruent(x: int, y: int)
    ensures Wrap(x) == Wrap(y) <==> (x - y) % INT32_RANGE == 0
  {
    var a, b := x - INT32_MIN, y - INT32_MIN;
    if Wrap(x) == Wrap(y) {
      assert a % INT32_RANGE == b % INT32_RANGE;
      assert a - b == INT32_RANGE * (a / INT32_RANGE - b / INT32_RANGE);
      ModShift(0, a / INT32_RANGE - b / INT32_RANGE);
    }
    if (x - y) % INT32_RANGE == 0 {
      var q := (x - y) / INT32_RANGE;
      assert a == b + INT32_RANGE * q;
      ModShift(b, q);
    }
  }

  /** Numbers less than 2^32 apart wrap to different values. */
  lemma WrapDistinct(x: int, d: int)
    requires 0 < d < INT32_RANGE
    ensures Wrap(x) != Wrap(x + d)
  {
    WrapCongruent(x + d, x);
    assert (x + d) - x == d;
  }

  /** `_tabCounter++` on a C# int: one more, or the minimum after the maximum. */
  function Increment(c: int): (r: int)
    ensures IsInt32(r)
    ensures INT32_MIN <= c < INT32_MAX ==> r == c + 1
    ensures c == INT32_MAX ==> r == INT32_MIN
  {
    Wrap(c + 1)
  }

  /** Incrementing a wrapped value is wrapping the next integer. */
  lemma IncrementWrap(x: int)
    ensures Increment(Wrap(x)) == Wrap(x + 1)
  {
    WrapCongruent(Wrap(x) + 1, x + 1);
    WrapCongruent(Wrap(x), x);
  }

  /** The counter after `k` increments starting from `c`. */
  function CounterAfter(c: int, k: nat): (r: int)
    ensures k > 0 ==> IsInt32(r)
  {
    if k == 0 then c else Increment(CounterAfter(c, k - 1))
  }

  /** k increments of a 32-bit counter add k modulo 2^32. */
  lemma {:induction false} CounterAfterIsWrap(c: int, k: nat)
    requires IsInt32(c)
    ensures CounterAfter(c, k) == Wrap(c + k)
  {
    if k > 0 {
      CounterAfterIsWrap(c, k - 1);
      IncrementWrap(c + k - 1);
    }
  }

  /** Fewer than 2^32 increments apart, two counter values differ. */
  lemma CountersDistinct(c: int, j: nat, k: nat)
    requires IsInt32(c)
    requires j < k < j + INT32_RANGE
    ensures CounterAfter(c, j) != CounterAfter(c, k)
  {
    CounterAfterIsWrap(c, j);
    CounterAfterIsWrap(c, k);
    WrapDistinct(c + j, k - j);
  }

  /** Starting from 1, as the page does, the k-th increment gives 1 + k until the maximum. */
  lemma CounterFromOne(k: nat)
    requires k < INT32_MAX
    ensures CounterAfter(1, k) == 1 + k
  {
    CounterAfterIsWrap(1, k);
  }

  /** `Wrap(c - 1)` undoes an increment: `_tabCounter - 1` after `_tabCounter++`. */
  lemma DecrementUndoesIncrement(c: int)
    requires IsInt32(c)
    ensures Wrap(Increment(c) - 1) == c
  {
    WrapCongruent(Increment(c) - 1, c);
    WrapCongruent(c + 1, Increment(c));
  }

  // Decimal rendering of an int, as string interpolation writes it
  // (invariant culture: a leading '-' for negative numbers).

  predicate IsDigit(ch: char) {
    '0' <= ch <= '9'
  }

  function DigitChar(d: nat): (ch: char)
    requires d < 10
    ensures IsDigit(ch)
  {
    (d + '0' as int) as char
  }

  /** Decimal digits, most significant first, with no leading zero. */
  function NatToString(n: nat): (s: string)
    ensures |s| >= 1
  {
    if n < 10 then [DigitChar(n)] else NatToString(n / 10) + [DigitChar(n % 10)]
  }

  /** The rendering of a natural number is made of decimal digits only. */
  lemma {:induction false} NatToStringDigits(n: nat)
    ensures forall i | 0 <= i < |NatToString(n)| :: IsDigit(NatToString(n)[i])
  {
    if n >= 10 {
      NatToStringDigits(n / 10);
      var s := NatToString(n);
      assert s == NatToString(n / 10) + [DigitChar(n % 10)];
    }
  }

  /** A leading '-' exactly for a negative number, then the digits of its magnitude. */
  function IntToString(n: int): (s: string)
    ensures |s| >= 1
  {
    if n < 0 then "-" + NatToString(-n) else NatToString(n)
  }

  /** The rendering starts with '0' only for zero: no leading zeros. */
  lemma {:induction false} NatToStringLeading(n: nat)
    ensures IsDigit(NatToString(n)[0])
    ensures NatToString(n)[0] == '0' <==> n == 0
  {
    if n >= 10 {
      NatToStringLeading(n / 10);
      assert NatToString(n)[0] == NatToString(n / 10)[0];
    }
  }

  /** The rendering starts with '-' exactly for a negative number. */
  lemma IntToStringSign(n: int)
    ensures IntToString(n)[0] == '-' <==> n < 0
  {
    if n >= 0 {
      NatToStringLeading(n);
    }
  }

  /** The inverse reading of a string of decimal digits. */
  function ParseNat(s: string): int {
    if |s| == 0 then 0 else ParseNat(s[..|s| - 1]) * 10 + (s[|s| - 1] as int - '0' as int)
  }

  function ParseInt(s: string): int {
    if |s| > 0 && s[0] == '-' then -ParseNat(s[1..]) else ParseNat(s)
  }

  lemma {:induction false} ParseNatToString(n: nat)
    ensures ParseNat(NatToString(n)) == n
  {
    if n >= 10 {
      var s := NatToString(n);
      assert s[..|s| - 1] == NatToString(n / 10);
      ParseNatToString(n / 10);
    }
  }

  /** Decimal rendering loses nothing: reading it back gives the number. */
  lemma ParseIntToString(n: int)
    ensures ParseInt(IntToString(n)) == n
  {
    if n < 0 {
      assert IntToString(n)[1..] == NatToString(-n);
      ParseNatToString(-n);
    } else {
      NatToStringDigits(n);
      ParseNatToString(n);
    }
  }

  /** Distinct numbers render as distinct text. */
  lemma IntToStringInjective(a: int, b: int)
    ensures IntToString(a) == IntToString(b) <==> a == b
  {
    ParseIntToString(a);
    ParseIntToString(b);
  }
}
