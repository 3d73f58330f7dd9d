/**
 A model of the counter widget's primality check: trial division of the
 initial counter value by every candidate divisor up to its square root.

 The source bounds the loop with a floating-point square root; for
 non-negative integers `i <= sqrt(n)` holds exactly when `i * i <= n`, so
 the model uses the integer bound throughout. Every division in the check
 has a positive dividend and a positive divisor, where the source's
 truncating `%` and Dafny's Euclidean `%` agree.
 */
module Primality {

  /** The mathematical definition: greater than one, and no divisor strictly
      between one and itself. */
  predicate IsPrimeSpec(n: int) {
    n > 1 && forall d :: 2 <= d < n ==> n % d != 0
  }

  /** What trial division inspects: no candidate `i >= 2` with `i * i <= n`
      divides `n`. */
  ghost predicate NoDivisorUpToRoot(n: int) {
    forall i :: 2 <= i && i * i <= n ==> n % i != 0
  }

  /** Squaring is monotone on the naturals. */
  lemma SquareMonotone(a: nat, b: nat)
    requires a <= b
    ensures a * a <= b * b
  {
  }

  /** A product of `d` copies of `q` leaves no remainder when divided by `q`:
      Euclidean division is unique, so the quotient is `d` and the remainder 0. */
  lemma MultipleHasNoRemainder(d: nat, q: nat)
    requires q > 0
    ensures (d * q) % q == 0
  {
    var n := d * q;
    var m, s := n / q, n % q;
    assert n == m * q + s && 0 <= s < q;
    var t := d - m;
    assert t * q == s by {
      assert t * q == d * q - m * q;
    }
    assert t == 0;
  }

  /** Any divisor strictly between one and `n` comes with a divisor whose
      square does not exceed `n`: the smaller of `d` and `n / d`. */
  lemma DivisorUpToRoot(n: int, d: int) returns (i: int)
    requires 2 <= d < n && n % d == 0
    ensures 2 <= i && i * i <= n && n % i == 0
  {
    var q := n / d;
    assert n == d * q;
    assert q >= 2;
    if d <= q {
      SquareMonotone(d, q);
      i := d;
    } else {
      SquareMonotone(q, d);
      MultipleHasNoRemainder(d, q);
      i := q;
    }
  }

  /** For a number above one, checking candidates up to the square root is
      exactly as strong as checking every candidate below the number: a
      divisor `d` pairs with the cofactor `n / d`, and the smaller of the two
      has a square no larger than `n`. */
  lemma TrialDivisionIsPrimality(n: int)
    requires n > 1
    ensures NoDivisorUpToRoot(n) <==> IsPrimeSpec(n)
  {
    if IsPrimeSpec(n) {
      forall i | 2 <= i && i * i <= n
        ensures n % i != 0
      {
        assert i < i * i by {
          assert i * i == i * (i - 1) + i;
          assert i * (i - 1) >= 1;
        }
      }
    }
    if NoDivisorUpToRoot(n) {
      forall d | 2 <= d < n
        ensures n % d != 0
      {
        if n % d == 0 {
          var i := DivisorUpToRoot(n, d);
          assert false;
        }
      }
    }
  }

  /** `isPrime(number)`: anything not above one is rejected; otherwise the
      first candidate from 2 upwards whose square does not exceed the number
      and that divides it exactly makes the answer false. */
  method IsPrime(n: int) returns (r: bool)
    ensures n <= 1 ==> !r
    ensures r <==> n > 1 && NoDivisorUpToRoot(n)
    ensures r <==> IsPrimeSpec(n)
  {
    if n <= 1 {
      return false;
    }
    var i := 2;
    while i * i <= n
      invariant 2 <= i
      invariant forall j :: 2 <= j < i ==> n % j != 0
      decreases n - i
    {
      if n % i == 0 {
        TrialDivisionIsPrimality(n);
        return false;
      }
      assert i < i * i by {
        assert i * i == i * (i - 1) + i;
        assert i * (i - 1) >= 1;
      }
      i := i + 1;
    }
    forall j | 2 <= j && j * j <= n
      ensures n % j != 0
    {
      if i <= j {
        SquareMonotone(i, j);
      }
    }
    TrialDivisionIsPrimality(n);
    return true;
  }

  /** Seed 7 is reported prime. */
  lemma SevenIsPrime()
    ensures IsPrimeSpec(7)
  {
  }

  /** Seed 8 is reported not prime: 2 divides it. */
  lemma EightIsNotPrime()
    ensures !IsPrimeSpec(8)
  {
    assert 8 % 2 == 0;
  }
}
