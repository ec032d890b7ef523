/**
 * The `prime` command: it reads a number n and finds the n-th prime by
 * trial division, counting primes upward from 2.
 */
module Prime {
  import opened Ulib

  ghost predicate IsPrime(x: int) {
    x >= 2 && forall d :: 2 <= d < x ==> x % d != 0
  }

  /** The number of primes in [2, hi). */
  ghost function PrimesBelow(hi: int): nat
    decreases hi
  {
    if hi <= 2 then 0 else PrimesBelow(hi - 1) + (if IsPrime(hi - 1) then 1 else 0)
  }

  /** p is the n-th prime, counting 2 as the first. */
  ghost predicate IsNthPrime(n: nat, p: int) {
    IsPrime(p) && PrimesBelow(p) + 1 == n
  }

  function Factorial(m: nat): (r: nat)
    ensures r >= 1
  {
    if m == 0 then 1 else m * Factorial(m - 1)
  }

  /** Division by a positive `d` is unique: `d * q + r` leaves remainder `r`. */
  lemma ModOfMultiplePlus(d: int, q: int, r: int)
    requires d > 0 && 0 <= r < d
    ensures (d * q + r) % d == r
  {
    var z := d * q + r;
    var k := q - z / d;
    assert d * k == z % d - r by {
      assert z == d * (z / d) + z % d;
      assert d * k == d * q - d * (z / d);
    }
  }

  lemma MulDivisible(d: int, x: int, y: int)
    requires d > 0 && x % d == 0
    ensures (x * y) % d == 0
  {
    var q := x / d;
    assert x == d * q;
    assert x * y == d * (q * y);
    ModOfMultiplePlus(d, q * y, 0);
  }

  /** Every number in [1, m] divides m!. */
  lemma {:induction false} FactorialDivisible(m: nat, d: nat)
    requires 1 <= d <= m
    ensures Factorial(m) % d == 0
  {
    if d == m {
      MulDivisible(m, m, Factorial(m - 1));
    } else {
      FactorialDivisible(m - 1, d);
      MulDivisible(d, Factorial(m - 1), m);
    }
  }

  lemma DivisorTransitive(n: int, e: int, x: int)
    requires e > 0 && x > 0 && n % e == 0 && e % x == 0
    ensures n % x == 0
  {
    var a := n / e;
    assert n == e * a;
    MulDivisible(x, e, a);
  }

  lemma SuccessorNotDivisible(a: int, d: int)
    requires d >= 2 && a % d == 0
    ensures (a + 1) % d == 1
  {
    var q := a / d;
    assert a + 1 == d * q + 1;
    ModOfMultiplePlus(d, q, 1);
  }

  /** The least divisor of `n` that is at least `d`. */
  function LeastDivisorFrom(n: nat, d: nat): (e: nat)
    requires 2 <= d <= n
    decreases n - d
    ensures d <= e <= n && n % e == 0
    ensures forall x :: d <= x < e ==> n % x != 0
  {
    if n % d == 0 then d else LeastDivisorFrom(n, d + 1)
  }

  /** Euclid: there is a prime above every number.  This bounds the search. */
  lemma PrimeAbove(m: nat) returns (p: int)
    ensures p > m && IsPrime(p)
  {
    var n := Factorial(m) + 1;
    p := LeastDivisorFrom(n, 2);
    forall x | 2 <= x < p
      ensures p % x != 0
    {
      if p % x == 0 {
        DivisorTransitive(n, p, x);
      }
    }
    if p <= m {
      FactorialDivisible(m, p);
      SuccessorNotDivisible(Factorial(m), p);
    }
  }

  /**
   * The nested loops of `prime`: returns the value printed as the answer,
   * `--i` after the outer loop.  For n <= 0 the loop does not run and 1 is
   * printed; otherwise the answer is the n-th prime.
   */
  method NthPrime(n: int) returns (p: int)
    ensures n <= 0 ==> p == 1
    ensures n >= 1 ==> IsNthPrime(n, p)
  {
    var i, k := 2, 0;
    ghost var bound: int := 2;  // a prime not below i
    while k < n
      invariant i >= 2 && 0 <= k
      invariant k == PrimesBelow(i)
      invariant i > 2 ==> PrimesBelow(i - 1) < n
      invariant IsPrime(bound) && bound >= i
      decreases n - k, bound - i
    {
      var j := 2;
      while j < i
        invariant 2 <= j <= i
        invariant forall d :: 2 <= d < j ==> i % d != 0
      {
        if i % j == 0 {
          break;
        }
        j := j + 1;
      }
      // i == j exactly when i has no divisor in [2, i - 1]
      assert i == j <==> IsPrime(i);
      if i == j {
        k := k + 1;
      }
      if i == bound {
        bound := PrimeAbove(i);
      }
      i := i + 1;
    }
    i := i - 1;
    p := i;
  }

  /** Small instances of the specification. */
  lemma FirstPrimes()
    ensures IsNthPrime(1, 2) && IsNthPrime(2, 3) && IsNthPrime(3, 5)
  {
    assert PrimesBelow(2) == 0;
    assert !IsPrime(4) by { assert 4 % 2 == 0; }
    assert PrimesBelow(5) == 2;
  }

  /** The `n` printed beside the answer, and the answer. */
  datatype Report = Report(n: int, answer: int)

  /**
   * The command as a whole: anything but exactly one argument is a usage
   * error with exit status 1; otherwise it prints the answer for
   * `atoi(argv[1])` and exits with status 0.
   */
  method PrimeCommand(argv: seq<string>) returns (status: int, printed: Option<Report>)
    ensures |argv| != 2 ==> status == 1 && printed == None
    ensures |argv| == 2 ==> status == 0 && printed.Some? && printed.value.n == Atoi(argv[1])
    ensures |argv| == 2 && Atoi(argv[1]) == 0 ==> printed == Some(Report(0, 1))
    ensures |argv| == 2 && Atoi(argv[1]) >= 1 ==> IsNthPrime(Atoi(argv[1]), printed.value.answer)
  {
    if |argv| != 2 {
      return 1, None;
    }
    var n := Atoi(argv[1]);
    var p := NthPrime(n);
    return 0, Some(Report(n, p));
  }
}
