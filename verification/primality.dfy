/**
  The primality test a consumer applies to an item it has removed, only
  when verbose output is on and only to decide what to print: trial
  division by every candidate from 2 up to half the number. Only the
  search for a divisor is performed, so 0, 1 and every negative number are
  reported prime as well.
 */
module Primality {

  predicate Divides(d: int, n: int)
    requires d > 0
  {
    n % d == 0
  }

  /** Integer halving as C does it: the quotient is truncated toward zero. */
  function HalfTowardZero(n: int): (r: int)
    ensures n >= 0 ==> 0 <= r && r + r <= n <= r + r + 1
    ensures n < 0 ==> r <= 0 && n <= r + r <= n + 1
  {
    if n >= 0 then n / 2 else -((-n) / 2)
  }

  /** Whether the search in `IsPrime` finds a divisor. */
  ghost predicate HasDivisorUpToHalf(num: int)
  {
    exists i :: 2 <= i <= HalfTowardZero(num) && Divides(i, num)
  }

  /** The textbook notion, as an independent reference. */
  ghost predicate IsPrimeNumber(n: int)
  {
    n >= 2 && forall d :: 2 <= d < n ==> !Divides(d, n)
  }

  /** Trial division: false as soon as a candidate divides `num`. */
  method IsPrime(num: int) returns (flag: bool)
    ensures flag <==> !HasDivisorUpToHalf(num)
    ensures num <= 3 ==> flag
  {
    flag := true;
    var i := 2;
    while i <= HalfTowardZero(num)
      invariant 2 <= i
      invariant i <= HalfTowardZero(num) + 1 || HalfTowardZero(num) < 2
      invariant flag
      invariant forall j :: 2 <= j < i ==> !Divides(j, num)
      decreases HalfTowardZero(num) - i
    {
      if num % i == 0 {
        assert Divides(i, num);
        flag := false;
        break;
      }
      i := i + 1;
    }
  }

  /** Every divisor of `n` other than `n` itself is at most half of `n`. */
  lemma ProperDivisorAtMostHalf(d: int, n: int)
    requires 2 <= d < n && Divides(d, n)
    ensures d <= HalfTowardZero(n)
  {
    var q := n / d;
    assert n == q * d;
    assert q >= 2;
    assert q * d >= 2 * d;
  }

  /**
    For numbers from 2 up, the half-range search agrees with primality;
    below 2 it reports prime where the reference says not.
   */
  lemma IsPrimeAgreesWithPrimality(n: int)
    ensures n >= 2 ==> (!HasDivisorUpToHalf(n) <==> IsPrimeNumber(n))
    ensures n < 2 ==> !HasDivisorUpToHalf(n) && !IsPrimeNumber(n)
  {
    if n >= 2 {
      if !HasDivisorUpToHalf(n) {
        forall d | 2 <= d < n
          ensures !Divides(d, n)
        {
          if Divides(d, n) {
            ProperDivisorAtMostHalf(d, n);
          }
        }
      }
    }
  }
}
