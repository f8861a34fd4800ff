/** 64-bit durations, and the growth of the two retry delays: between lock attempts and after failed passes. */
module Backoff {
  const SECOND := 1_000_000_000
  const TWO62 := 0x4000_0000_0000_0000
  const TWO63 := 0x8000_0000_0000_0000
  const TWO64 := 0x1_0000_0000_0000_0000

  /** The 64-bit two's complement value of an integer. */
  function Wrap(x: int): (r: int)
    ensures -TWO63 <= r < TWO63
    ensures -TWO63 <= x < TWO63 ==> r == x
    ensures TWO63 <= x < TWO64 ==> r == x - TWO64
  {
    (x + TWO63) % TWO64 - TWO63
  }

  function Pow2(n: nat): (p: nat)
    ensures p >= 1
  {
    if n == 0 then 1 else 2 * Pow2(n - 1)
  }

  function Min(a: int, b: int): int {
    if a < b then a else b
  }

  predicate Bounds(min: int, max: int) {
    0 < min <= max < TWO63
  }

  // ----- Delay between lock attempts -----

  /** The largest delay after the given attempt: 64-bit shift and product, then clamped into [min, max]. */
  function BackoffCeiling(attempt: nat, min: int, max: int): int
    requires Bounds(min, max)
  {
    var shifted := Wrap(Pow2(attempt));
    var product := Wrap(min * if shifted <= 0 then 1 else shifted);
    var raised := if product < min then min else product;
    if raised > max then max else raised
  }

  /** How the program turns configured seconds into backoff bounds before its first attempt. */
  function LockBounds(minSeconds: int, maxSeconds: int): (b: (int, int))
    ensures Bounds(b.0, b.1)
    ensures 0 < minSeconds <= maxSeconds && maxSeconds * SECOND < TWO63 ==> b == (minSeconds * SECOND, maxSeconds * SECOND)
    ensures -9_000_000_000 <= minSeconds <= 0 ==> b.0 == SECOND
    ensures -9_000_000_000 <= maxSeconds <= minSeconds < 9_000_000_000 ==> b.1 == b.0
  {
    var configuredMin, configuredMax := Wrap(minSeconds * SECOND), Wrap(maxSeconds * SECOND);
    var min := if configuredMin <= 0 then SECOND else configuredMin;
    (min, if configuredMax < min then min else configuredMax)
  }

  lemma {:induction false} Pow2Adds(a: nat, b: nat)
    ensures Pow2(a + b) == Pow2(a) * Pow2(b)
  {
    if b > 0 {
      Pow2Adds(a, b - 1);
      DoubleProduct(Pow2(a), Pow2(b - 1));
    }
  }

  lemma DoubleProduct(x: int, y: int)
    ensures x * (2 * y) == 2 * (x * y)
  {
  }

  lemma SmallPowers()
    ensures Pow2(7) == 128 && Pow2(8) == 256
  {
  }

  lemma Pow2Of63()
    ensures Pow2(63) == TWO63 && Pow2(64) == TWO64
  {
    SmallPowers();
    hide Pow2;
    Pow2Adds(8, 8);
    Pow2Adds(16, 16);
    Pow2Adds(32, 16);
    Pow2Adds(48, 8);
    Pow2Adds(56, 7);
    Pow2Adds(56, 8);
  }

  /** From attempt 63 on, the shifted multiplier is no longer positive. */
  lemma ShiftedOut(attempt: nat)
    requires attempt >= 63
    ensures Wrap(Pow2(attempt)) <= 0
  {
    Pow2Of63();
    if attempt >= 64 {
      Pow2Adds(64, attempt - 64);
      MultipleWraps(Pow2(attempt - 64));
    }
  }

  lemma MultipleWraps(k: int)
    ensures Wrap(TWO64 * k) == 0
  {
    assert (TWO64 * k + TWO63) % TWO64 == TWO63 by {
      ModMultiple(k);
    }
  }

  lemma ModMultiple(k: int)
    ensures (TWO64 * k + TWO63) % TWO64 == TWO63
  {
  }

  /**
   The delay ceiling stays within the bounds for every attempt. While min * 2^attempt fits 64 bits it is that product cut
   at max; from attempt 63 on, the multiplier is lost and the ceiling is back at min.
   */
  lemma CeilingMeaning(attempt: nat, min: int, max: int)
    requires Bounds(min, max)
    ensures min <= BackoffCeiling(attempt, min, max) <= max
    ensures min * Pow2(attempt) < TWO63 ==> BackoffCeiling(attempt, min, max) == Min(max, min * Pow2(attempt))
    ensures attempt >= 63 ==> BackoffCeiling(attempt, min, max) == min
  {
    hide Wrap, Pow2;
    if min * Pow2(attempt) < TWO63 {
      AtLeastFactor(min, Pow2(attempt));
      assert Wrap(min * Pow2(attempt)) == min * Pow2(attempt);
    }
    if attempt >= 63 {
      ShiftedOut(attempt);
      assert Wrap(min * 1) == min;
    }
  }

  lemma AtLeastFactor(x: int, y: int)
    requires x >= 1 && y >= 1
    ensures x <= x * y && y <= x * y
  {
  }

  /** Without wrap-around the ceiling never falls as attempts go on. */
  lemma CeilingGrows(attempt: nat, min: int, max: int)
    requires Bounds(min, max) && min * Pow2(attempt + 1) < TWO63
    ensures BackoffCeiling(attempt, min, max) <= BackoffCeiling(attempt + 1, min, max)
  {
    DoubleProduct(min, Pow2(attempt));
    AtLeastFactor(min, Pow2(attempt));
    CeilingMeaning(attempt, min, max);
    CeilingMeaning(attempt + 1, min, max);
  }

  lemma {:induction false} Pow2Monotone(a: nat, b: nat)
    requires a <= b
    ensures Pow2(a) <= Pow2(b)
  {
    if a < b {
      Pow2Monotone(a, b - 1);
    }
  }

  lemma ProductMonotone(x: int, y: int, z: int)
    requires x > 0 && y <= z
    ensures x * y <= x * z
  {
  }

  /** The last attempt whose product still fits 64 bits. */
  lemma LastFitting(min: int, n: nat) returns (a: nat)
    requires 0 < min < TWO62 && min * Pow2(n) >= TWO63
    ensures 1 <= a < n && min * Pow2(a) < TWO63 <= min * Pow2(a + 1)
  {
    a := n;
    while a > 0 && min * Pow2(a) >= TWO63
      invariant a <= n && (a < n ==> min * Pow2(a + 1) >= TWO63) && (a == n ==> min * Pow2(a) >= TWO63)
    {
      a := a - 1;
    }
    assert Pow2(0) == 1 && Pow2(1) == 2;
  }

  /** At the attempt after it, the ceiling is back at the minimum. */
  lemma FallsAfter(a: nat, min: int, max: int)
    requires Bounds(min, max) && min < max && a >= 1 && min * Pow2(a) < TWO63 <= min * Pow2(a + 1)
    ensures BackoffCeiling(a + 1, min, max) == min < BackoffCeiling(a, min, max)
  {
    CeilingMeaning(a, min, max);
    assert Pow2(a) == 2 * Pow2(a - 1);
    DoubleProduct(min, Pow2(a - 1));
    AtLeastFactor(min, Pow2(a - 1));
    DoubleProduct(min, Pow2(a));
    AtLeastFactor(min, Pow2(a));
    if a + 1 >= 63 {
      CeilingMeaning(a + 1, min, max);
    } else {
      Pow2Of63();
      Pow2Monotone(a + 1, 62);
      assert Pow2(63) == 2 * Pow2(62);
    }
  }

  /** The multiplied minimum, in 64 bits, is above the minimum at none of the first n attempts. */
  ghost predicate NeverRises(n: nat, min: int) {
    forall a: nat | a < n :: Wrap(min * Pow2(a)) <= min
  }

  lemma TwiceWrapped(x: int)
    requires Wrap(x) >= TWO62
    ensures Wrap(2 * x) == 2 * Wrap(x) - TWO64
  {
  }

  /** A minimum of 2^62 or more fits no multiple of itself: the ceiling rises, if at all, by a wrapped product. */
  lemma LargeMinimum(a: nat, min: int, max: int)
    requires Bounds(min, max) && min < max && min >= TWO62
    ensures BackoffCeiling(a, min, max) > min <==> Wrap(min * Pow2(a)) > min
    ensures BackoffCeiling(a, min, max) > min ==> BackoffCeiling(a + 1, min, max) == min
  {
    DoubleProduct(min, Pow2(a));
    if a >= 63 {
      CeilingMeaning(a, min, max);
      HighBitsLost(a, min);
    } else {
      Pow2Of63();
      Pow2Monotone(a, 62);
      assert Pow2(63) == 2 * Pow2(62);
      if Wrap(min * Pow2(a)) > min {
        TwiceWrapped(min * Pow2(a));
        if a + 1 >= 63 {
          CeilingMeaning(a + 1, min, max);
        } else {
          Pow2Monotone(a + 1, 62);
        }
      }
    }
  }

  lemma HighBitsLost(a: nat, min: int)
    requires a >= 63 && min > 0
    ensures Wrap(min * Pow2(a)) <= 0
  {
    Pow2Of63();
    Pow2Adds(63, a - 63);
    MultipleOfHalf(min * Pow2(a - 63));
    assert min * Pow2(a) == TWO63 * (min * Pow2(a - 63)) by {
      Associates(min, TWO63, Pow2(a - 63));
    }
  }

  lemma Associates(x: int, y: int, z: int)
    ensures x * (y * z) == y * (x * z)
  {
  }

  lemma MultipleOfHalf(k: int)
    ensures Wrap(TWO63 * k) <= 0
  {
    if k % 2 == 0 {
      MultipleWraps(k / 2);
      assert TWO63 * k == TWO64 * (k / 2);
    } else {
      HalfAndMultiple(k / 2);
      assert TWO63 * k == TWO64 * (k / 2) + TWO63;
    }
  }

  lemma HalfAndMultiple(k: int)
    ensures Wrap(TWO64 * k + TWO63) == -TWO63
  {
    assert (TWO64 * k + TWO63 + TWO63) % TWO64 == 0 by {
      ModMultipleAlone(k + 1);
    }
  }

  lemma ModMultipleAlone(k: int)
    ensures (TWO64 * k) % TWO64 == 0
  {
  }

  /**
   Up to the attempt after n, the ceiling never falls exactly when min * 2^n still fits 64 bits, or the bounds coincide, or, for
   a minimum of which not even the double fits, no wrapped product before that attempt happens to be above it.
   */
  lemma CeilingNeverFallsExactly(n: nat, min: int, max: int)
    requires Bounds(min, max)
    ensures (forall a: nat | a < n :: BackoffCeiling(a, min, max) <= BackoffCeiling(a + 1, min, max))
       <==> min * Pow2(n) < TWO63 || min == max || (min >= TWO62 && NeverRises(n, min))
  {
    hide BackoffCeiling, Wrap, Pow2, NeverRises;
    if min == max || min * Pow2(n) < TWO63 {
      FittingNeverFalls(n, min, max);
    } else if min < TWO62 {
      var a := LastFitting(min, n);
      FallsAfter(a, min, max);
    } else {
      LargeNeverFalls(n, min, max);
    }
  }

  lemma LargeNeverFalls(n: nat, min: int, max: int)
    requires Bounds(min, max) && min < max && min >= TWO62
    ensures (forall a: nat | a < n :: BackoffCeiling(a, min, max) <= BackoffCeiling(a + 1, min, max)) <==> NeverRises(n, min)
  {
    hide BackoffCeiling, Wrap, Pow2;
    if NeverRises(n, min) {
      forall a: nat | a < n
        ensures BackoffCeiling(a, min, max) <= BackoffCeiling(a + 1, min, max)
      {
        LargeMinimum(a, min, max);
        CeilingMeaning(a + 1, min, max);
      }
    } else {
      var a: nat :| a < n && Wrap(min * Pow2(a)) > min;
      LargeMinimum(a, min, max);
    }
  }

  lemma FewMultiples(min: int)
    requires 0 < min < TWO63
    ensures Pow2(3) == 8
    ensures min >= TWO62 ==> (NeverRises(3, min) <==> !(min < min * 4 - TWO64 < TWO63))
  {
    assert Pow2(0) == 1 && Pow2(1) == 2 && Pow2(2) == 4 && Pow2(3) == 8;
    assert min >= TWO62 ==> Wrap(min * Pow2(0)) == min && Wrap(min * Pow2(1)) == min * 2 - TWO64;
    assert min >= TWO62 ==> Wrap(min * Pow2(2)) == if min * 4 - TWO64 < TWO63 then min * 4 - TWO64 else min * 4 - 2 * TWO64;
    hide Wrap, Pow2;
    if min >= TWO62 {
      if NeverRises(3, min) {
        assert Wrap(min * Pow2(2)) <= min;
      } else {
        var a: nat :| a < 3 && Wrap(min * Pow2(a)) > min;
        assert a == 2;
      }
    }
  }

  lemma FittingNeverFalls(n: nat, min: int, max: int)
    requires Bounds(min, max) && (min == max || min * Pow2(n) < TWO63)
    ensures forall a: nat | a < n :: BackoffCeiling(a, min, max) <= BackoffCeiling(a + 1, min, max)
  {
    hide BackoffCeiling;
    forall a: nat | a < n
      ensures BackoffCeiling(a, min, max) <= BackoffCeiling(a + 1, min, max)
    {
      CeilingMeaning(a, min, max);
      CeilingMeaning(a + 1, min, max);
      if min != max {
        Pow2Monotone(a + 1, n);
        ProductMonotone(min, Pow2(a + 1), Pow2(n));
        CeilingGrows(a, min, max);
      }
    }
  }

  // ----- Delay after failed passes -----

  /** The error backoff after one more failed pass. */
  function NextErrorBackoff(backoff: int, min: int, max: int): int {
    var grown :=
      if backoff <= 0 then min
      else if Wrap(backoff * 2) < min then min
      else Wrap(backoff * 2);
    if grown > max then max else grown
  }

  /** The error backoff after a number of failed passes in a row. */
  function ErrorBackoffAfter(failures: nat, min: int, max: int): int {
    if failures == 0 then 0 else NextErrorBackoff(ErrorBackoffAfter(failures - 1, min, max), min, max)
  }

  function DoublingCutAt(failures: nat, min: int, max: int): int
    requires failures >= 1
  {
    Min(max, min * Pow2(failures - 1))
  }

  lemma {:induction false} ErrorBackoffBounded(failures: nat, min: int, max: int)
    requires Bounds(min, max) && failures >= 1
    ensures min <= ErrorBackoffAfter(failures, min, max) <= max
  {
    if failures > 1 {
      ErrorBackoffBounded(failures - 1, min, max);
    }
  }

  /** As long as the doubled value has not passed 2^62, the backoff is min doubled once per further failure, cut at max. */
  lemma {:induction false} DoublesWhileSmall(failures: nat, min: int, max: int)
    requires Bounds(min, max) && failures >= 1
    requires max < TWO62 || min == max || failures == 1 || min * Pow2(failures - 2) < TWO62
    ensures ErrorBackoffAfter(failures, min, max) == DoublingCutAt(failures, min, max)
  {
    if failures > 1 {
      AtLeastFactor(min, Pow2(failures - 2));
      DoubleProduct(min, Pow2(failures - 2));
      if failures > 2 {
        DoubleProduct(min, Pow2(failures - 3));
        AtLeastFactor(min, Pow2(failures - 3));
      }
      DoublesWhileSmall(failures - 1, min, max);
      ErrorBackoffBounded(failures - 1, min, max);
    }
  }

  /** The first number of failures whose doubled value reaches 2^62. */
  lemma FirstLarge(min: int) returns (failures: nat)
    requires 0 < min
    ensures failures >= 1 && min * Pow2(failures - 1) >= TWO62
    ensures failures == 1 || min * Pow2(failures - 2) < TWO62
  {
    Pow2Of63();
    assert Pow2(63) == 2 * Pow2(62);
    failures := 63;
    AtLeastFactor(min, Pow2(62));
    while failures > 1 && min * Pow2(failures - 2) >= TWO62
      invariant 1 <= failures && min * Pow2(failures - 1) >= TWO62
    {
      failures := failures - 1;
    }
  }

  /** Past 2^62, doubling wraps and the backoff falls back to min although it had been growing. */
  lemma FallsBack(min: int, max: int) returns (failures: nat)
    requires Bounds(min, max) && max >= TWO62 && min != max
    ensures failures >= 1 && ErrorBackoffAfter(failures, min, max) == min < DoublingCutAt(failures, min, max)
  {
    failures := FirstLarge(min);
    if failures > 1 {
      DoubleProduct(min, Pow2(failures - 2));
    }
    DoublesWhileSmall(failures, min, max);
    assert TWO62 <= ErrorBackoffAfter(failures, min, max) < TWO63;
    DoubleProduct(min, Pow2(failures - 1));
    AtLeastFactor(min, Pow2(failures - 1));
    failures := failures + 1;
  }

  /**
   The error backoff is min(max, min * 2^(k-1)) after every number k of failed passes in a row exactly when max is below
   2^62 nanoseconds (some 146 years) or the bounds coincide.
   */
  lemma ErrorBackoffClosedForm(min: int, max: int)
    requires Bounds(min, max)
    ensures (forall k: nat | k >= 1 :: ErrorBackoffAfter(k, min, max) == DoublingCutAt(k, min, max))
       <==> max < TWO62 || min == max
  {
    if max < TWO62 || min == max {
      forall k: nat | k >= 1
        ensures ErrorBackoffAfter(k, min, max) == DoublingCutAt(k, min, max)
      {
        DoublesWhileSmall(k, min, max);
      }
    } else {
      var k := FallsBack(min, max);
    }
  }
}
