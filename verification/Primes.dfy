/**
 Prime table sizes: trial division, the search for the next prime, and the number
 theory that both of them and double hashing rest on (src/helper.c).
 */
module Primes {

  ghost predicate Divides(d: int, n: int)
    requires d > 0
  {
    exists q: int :: IsProduct(q, d, n)
  }

  ghost predicate IsProduct(q: int, d: int, n: int) {
    q * d == n
  }

  ghost predicate Prime(n: int) {
    2 <= n && forall d :: 2 <= d < n ==> !Divides(d, n)
  }

  // ----- divisibility

  lemma DividesByRemainder(d: int, n: int)
    requires d > 0
    ensures Divides(d, n) <==> n % d == 0
  {
    if n % d == 0 {
      assert IsProduct(n / d, d, n);
    }
    if Divides(d, n) {
      var q :| IsProduct(q, d, n);
      MultipleHasNoRemainder(q, d);
    }
  }

  lemma MultipleHasNoRemainder(q: int, d: int)
    requires d > 0
    ensures (q * d) % d == 0
  {
    var n := q * d;
    var e, r := n / d, n % d;
    assert (q - e) * d == r;
    MultipleBounds(q - e, d);
  }

  lemma MultipleBounds(k: int, d: int)
    requires d > 0
    ensures k >= 1 ==> k * d >= d && k * d >= k
    ensures k <= -1 ==> k * d <= -d
    ensures k == 0 ==> k * d == 0
  {
  }

  lemma DividesLinear(d: int, a: int, b: int, x: int, y: int)
    requires d > 0 && Divides(d, a) && Divides(d, b)
    ensures Divides(d, x * a + y * b)
  {
    var p :| IsProduct(p, d, a);
    var q :| IsProduct(q, d, b);
    assert x * a + y * b == (x * p + y * q) * d by {
      assert x * (p * d) == (x * p) * d;
      assert y * (q * d) == (y * q) * d;
    }
    assert IsProduct(x * p + y * q, d, x * a + y * b);
  }

  lemma DivisorAtMost(d: int, n: int)
    requires d > 0 && n > 0 && Divides(d, n)
    ensures d <= n
  {
    var q :| IsProduct(q, d, n);
    MultipleBounds(q, d);
  }

  lemma DividesTrans(a: int, b: int, c: int)
    requires a > 0 && b > 0 && Divides(a, b) && Divides(b, c)
    ensures Divides(a, c)
  {
    var q :| IsProduct(q, b, c);
    DividesLinear(a, b, b, q, 0);
  }

  /** Euclid's lemma, by descent on `a`: replacing `a` by `p % a` keeps the divisibility. */
  lemma {:induction false} PrimeDividesNoProduct(p: int, a: int, b: int)
    requires Prime(p) && 0 < a < p && 0 < b < p
    ensures !Divides(p, a * b)
    decreases a
  {
    if Divides(p, a * b) {
      if a == 1 {
        DivisorAtMost(p, b);
      } else {
        var q, r := p / a, p % a;
        assert r != 0 by { DividesByRemainder(a, p); }
        assert IsProduct(1, p, p);
        DividesLinear(p, p, a * b, b, -q);
        assert r * b == b * p + (-q) * (a * b) by {
          assert p == q * a + r;
          assert b * p == b * (q * a) + b * r;
          assert b * (q * a) == q * (a * b);
        }
        PrimeDividesNoProduct(p, r, b);
      }
    }
  }

  // ----- there is always a larger prime

  /** The least divisor above 1 is prime. */
  lemma {:induction false} PrimeDivisorExists(n: int, d: int) returns (p: int)
    requires 2 <= d <= n && Divides(d, n)
    ensures Prime(p) && p <= d && Divides(p, n)
    decreases d
  {
    if Prime(d) {
      p := d;
    } else {
      var e :| 2 <= e < d && Divides(e, d);
      DividesTrans(e, d, n);
      p := PrimeDivisorExists(n, e);
    }
  }

  ghost function Factorial(n: nat): (f: nat)
    ensures f >= 1
  {
    if n == 0 then 1 else n * Factorial(n - 1)
  }

  lemma {:induction false} FactorialDivisible(n: nat, d: int)
    requires 1 <= d <= n
    ensures Divides(d, Factorial(n))
  {
    if d == n {
      assert IsProduct(Factorial(n - 1), d, Factorial(n));
    } else {
      FactorialDivisible(n - 1, d);
      DividesLinear(d, Factorial(n - 1), Factorial(n - 1), n, 0);
    }
  }

  /** Euclid: a prime divisor of x! + 1 exceeds x. */
  lemma LargerPrime(x: nat) returns (p: int)
    ensures Prime(p) && p > x
  {
    var n := Factorial(x) + 1;
    assert IsProduct(1, n, n);
    p := PrimeDivisorExists(n, n);
    if p <= x {
      FactorialDivisible(x, p);
      DividesLinear(p, n, Factorial(x), 1, -1);
      DivisorAtMost(p, 1);
    }
  }

  // ----- is_prime

  lemma CofactorBounds(q: int, d: int, x: int, i: int)
    requires q * d == x && 2 <= d < x && x < i * i && i >= 0
    ensures 2 <= q < x && (q < i || d < i)
  {
    MultipleBounds(q, d);
    MultipleBounds(q, d - 1);
    assert q * d == q * (d - 1) + q;
    assert q == 1 ==> q * d == d;
    if q >= i && d >= i {
      SquareBound(q, d, i);
    }
  }

  lemma SquareBound(a: int, b: int, i: int)
    requires a >= i >= 0 && b >= i
    ensures a * b >= i * i
  {
    assert a * b - i * i == a * (b - i) + i * (a - i);
  }

  /** A divisor at or above `i` leaves a cofactor below `i` once `i * i` exceeds `x`. */
  lemma SmallCofactor(x: int, i: int)
    requires 2 <= i && x < i * i
    requires forall d :: 2 <= d < i && d < x ==> !Divides(d, x)
    requires 2 <= x
    ensures Prime(x)
  {
    forall d | 2 <= d < x
      ensures !Divides(d, x)
    {
      if Divides(d, x) {
        var q :| IsProduct(q, d, x);
        CofactorBounds(q, d, x, i);
        assert IsProduct(d, q, x);
        assert Divides(q, x);
      }
    }
  }

  /** Trial division by 2 and by odd numbers up to the square root decides primality. */
  method IsPrime(x: int) returns (r: bool)
    ensures r <==> Prime(x)
  {
    if x < 2 {
      return false;
    }
    if x == 2 {
      return true;
    }
    DividesByRemainder(2, x);
    if x % 2 == 0 {
      return false;
    }
    var i := 3;
    while i * i <= x
      invariant 3 <= i && i % 2 == 1
      invariant forall d :: 2 <= d < i && d < x ==> !Divides(d, x)
      decreases x - i
    {
      assert i < x by { assert i * i >= 3 * i; }
      DividesByRemainder(i, x);
      if x % i == 0 {
        return false;
      }
      OddHasNoEvenDivisor(x, i + 1);
      i := i + 2;
    }
    SmallCofactor(x, i);
    return true;
  }

  lemma OddHasNoEvenDivisor(x: int, d: int)
    requires d > 0 && d % 2 == 0 && x % 2 == 1
    ensures !Divides(d, x)
  {
    if Divides(d, x) {
      assert IsProduct(d / 2, 2, d);
      DividesTrans(2, d, x);
      DividesByRemainder(2, x);
    }
  }

  // ----- next_prime

  /** `p` is the least prime that is at least `x`. */
  ghost predicate IsNextPrime(x: int, p: int) {
    Prime(p) && x <= p && forall q :: x <= q < p ==> !Prime(q)
  }

  ghost function LeastPrimeBetween(x: int, bound: int): (p: int)
    requires x <= bound && Prime(bound)
    ensures IsNextPrime(x, p)
    decreases bound - x
  {
    if Prime(x) then x else LeastPrimeBetween(x + 1, bound)
  }

  lemma NextPrimeExists(x: int)
    ensures exists p :: IsNextPrime(x, p)
  {
    var bound := LargerPrime(if x < 0 then 0 else x);
    assert IsNextPrime(x, LeastPrimeBetween(x, bound));
  }

  lemma NextPrimeUnique(x: int, p: int, q: int)
    requires IsNextPrime(x, p) && IsNextPrime(x, q)
    ensures p == q
  {
  }

  ghost function NextPrimeOf(x: int): (p: int)
    ensures IsNextPrime(x, p)
  {
    NextPrimeExists(x);
    var p :| IsNextPrime(x, p);
    p
  }

  lemma TwoIsPrime()
    ensures Prime(2)
  {
  }

  lemma FiveIsPrime()
    ensures Prime(5) && NextPrimeOf(4) == 5
  {
    forall d | 2 <= d < 5
      ensures !Divides(d, 5)
    {
      DividesByRemainder(d, 5);
    }
    DividesByRemainder(2, 4);
    assert Divides(2, 4);
    NextPrimeUnique(4, 5, NextPrimeOf(4));
  }

  /** The search terminates for every `x` because a prime at or above it exists. */
  method NextPrime(x: int) returns (p: int)
    ensures p == NextPrimeOf(x)
  {
    TwoIsPrime();
    if x < 2 {
      NextPrimeUnique(x, 2, NextPrimeOf(x));
      return 2;
    }
    ghost var bound := LargerPrime(x);
    p := x;
    var found := IsPrime(p);
    while !found
      invariant x <= p <= bound
      invariant found <==> Prime(p)
      invariant forall q :: x <= q < p ==> !Prime(q)
      decreases bound - p
    {
      p := p + 1;
      found := IsPrime(p);
    }
    NextPrimeUnique(x, p, NextPrimeOf(x));
  }
}
