/** The number-theory helpers of the contest template: Euclid's greatest common divisor,
    the sieve of Eratosthenes over two shared tables, and exponentiation by squaring.
    Euclid's algorithm and exponentiation by squaring use Java's truncating `%` and `/`. */
module NumberTheory {
  import opened Arithmetic

  /** Euclid's algorithm: `gcd(a, b)` is `a` when `b` is zero and `gcd(b, a % b)` otherwise.
      With Java's remainder the result carries the sign the recursion leaves it with. */
  function Gcd(a: int, b: int): (g: int)
    ensures a >= 0 && b >= 0 ==> g >= 0
    ensures g == 0 <==> a == 0 && b == 0
    decreases Abs(b)
  {
    if b == 0 then a else Gcd(b, JavaRem(a, b))
  }

  /** The divisors of `Gcd(a, b)` are exactly the common divisors of `a` and `b`. */
  lemma {:induction false} GcdCommonDivisors(a: int, b: int, d: int)
    ensures Divides(d, Gcd(a, b)) <==> Divides(d, a) && Divides(d, b)
    decreases Abs(b)
  {
    if b == 0 {
      DividesSelf(d);
    } else {
      GcdCommonDivisors(b, JavaRem(a, b), d);
      JavaRemCommonDivisors(a, b, d);
    }
  }

  /** `Gcd(a, b)` divides both arguments, and every positive common divisor is at most
      its magnitude unless both arguments are zero. */
  lemma GcdIsGreatestCommonDivisor(a: int, b: int, d: int)
    ensures Divides(Gcd(a, b), a) && Divides(Gcd(a, b), b)
    ensures d > 0 && Divides(d, a) && Divides(d, b) && (a != 0 || b != 0) ==> d <= Abs(Gcd(a, b))
  {
    var g := Gcd(a, b);
    DividesSelf(g);
    GcdCommonDivisors(a, b, g);
    if d > 0 && Divides(d, a) && Divides(d, b) && (a != 0 || b != 0) {
      GcdCommonDivisors(a, b, d);
      DividesBound(d, g);
    }
  }

  /** The template's own example: `gcd(12, 15)` is 3. */
  lemma GcdSample()
    ensures Gcd(12, 15) == 3
  {
    assert Gcd(3, 0) == 3;
    assert JavaRem(12, 3) == 0;
    assert Gcd(12, 3) == 3;
    assert JavaRem(15, 12) == 3;
    assert Gcd(15, 12) == 3;
    assert JavaRem(12, 15) == 12;
  }

  /** x raised to the n-th power, without any reduction. */
  function Pow(x: int, n: nat): int {
    if n == 0 then 1 else x * Pow(x, n - 1)
  }

  /** An even power is never negative; an odd power has the sign of the base. */
  lemma {:induction false} PowSign(x: int, n: nat)
    ensures n % 2 == 0 || x >= 0 ==> Pow(x, n) >= 0
    ensures n % 2 == 1 && x <= 0 ==> Pow(x, n) <= 0
  {
    if n > 0 {
      PowSign(x, n - 1);
      if x >= 0 {
        assert Pow(x, n) == x * Pow(x, n - 1) >= 0;
      } else if n % 2 == 0 {
        assert Pow(x, n - 1) <= 0;
        assert Pow(x, n) == x * Pow(x, n - 1) >= 0;
      } else {
        assert Pow(x, n - 1) >= 0;
        assert Pow(x, n) == x * Pow(x, n - 1) <= 0;
      }
    }
  }

  /** Squaring the base doubles the exponent. */
  lemma {:induction false} PowSquare(x: int, k: nat)
    ensures Pow(x * x, k) == Pow(x, 2 * k)
  {
    if k > 0 {
      PowSquare(x, k - 1);
      var p := Pow(x, 2 * k - 2);
      assert Pow(x, 2 * k) == x * (x * p);
      assert (x * x) * p == x * (x * p);
    }
  }

  /** Congruent bases give congruent powers. */
  lemma {:induction false} PowCongruent(a: int, b: int, n: nat, m: int)
    requires Congruent(a, b, m)
    ensures Congruent(Pow(a, n), Pow(b, n), m)
  {
    if n == 0 {
      DividesSelf(m);
    } else {
      PowCongruent(a, b, n - 1, m);
      var pa, pb := Pow(a, n - 1), Pow(b, n - 1);
      CongruentMul(a, b, pa, m);
      CongruentMul(pa, pb, b, m);
      assert a * pa == Pow(a, n) && pb * b == Pow(b, n);
      CongruentTransitive(a * pa, b * pa, pb * b, m);
    }
  }

  /** Exponentiation by squaring as the template writes it: `modPow(x, n, mod)` is 1 when
      n is 0; otherwise it squares x modulo mod, recurses on n / 2 and, when n is odd
      (`(n & 1) != 0`, which on two's-complement values is the Euclidean `n % 2`), multiplies
      once more by x. Negative exponents are accepted and terminate, since n / 2 truncates. */
  function ModPow(x: int, n: int, mod: int): (r: int)
    requires n == 0 || mod != 0
    ensures x >= 0 ==> r >= 0
    ensures n != 0 ==> Abs(r) < Abs(mod)
    decreases Abs(n)
  {
    if n == 0 then 1
    else
      HalfShrinks(n);
      var res := ModPow(JavaRem(x * x, mod), JavaDiv(n, 2), mod);
      if n % 2 != 0 then JavaRem(res * x, mod) else res
  }

  /** The result is congruent to x^n modulo mod, for every base and every non-zero modulus. */
  lemma {:induction false} ModPowCongruent(x: int, n: nat, mod: int)
    requires mod != 0
    ensures Congruent(ModPow(x, n, mod), Pow(x, n), mod)
    decreases n
  {
    if n == 0 {
      DividesSelf(mod);
    } else {
      var y := JavaRem(x * x, mod);
      var h := JavaDiv(n, 2);
      assert h == n / 2;
      var res := ModPow(y, h, mod);
      ModPowCongruent(y, h, mod);
      JavaRemCongruent(x * x, mod);
      PowCongruent(y, x * x, h, mod);
      PowSquare(x, h);
      CongruentTransitive(res, Pow(y, h), Pow(x, 2 * h), mod);
      if n % 2 != 0 {
        assert 2 * h + 1 == n;
        JavaRemCongruent(res * x, mod);
        CongruentMul(res, Pow(x, 2 * h), x, mod);
        assert Pow(x, 2 * h) * x == Pow(x, n);
        CongruentTransitive(JavaRem(res * x, mod), res * x, Pow(x, n), mod);
      } else {
        assert 2 * h == n;
      }
    }
  }

  /** The result has the sign Java's `x^n % mod` has: the squared base is reduced to a
      non-negative value, so only the final multiplication by x, for an odd exponent, can
      make it negative. */
  lemma ModPowSign(x: int, n: int, mod: int)
    requires n == 0 || mod != 0
    ensures n % 2 == 0 || x >= 0 ==> ModPow(x, n, mod) >= 0
    ensures n % 2 == 1 && x <= 0 ==> ModPow(x, n, mod) <= 0
  {
    if n != 0 {
      HalfShrinks(n);
      var res := ModPow(JavaRem(x * x, mod), JavaDiv(n, 2), mod);
      assert res >= 0;
      if n % 2 != 0 {
        assert ModPow(x, n, mod) == JavaRem(res * x, mod);
        assert x >= 0 ==> res * x >= 0;
        assert x <= 0 ==> res * x <= 0;
      }
    }
  }

  /** For every base, every non-zero modulus and every positive exponent, the result is
      exactly x^n % mod, with Java's remainder: negative bases included. */
  lemma ModPowIsPowMod(x: int, n: nat, mod: int)
    requires mod != 0 && n > 0
    ensures ModPow(x, n, mod) == JavaRem(Pow(x, n), mod)
  {
    var r, p := ModPow(x, n, mod), Pow(x, n);
    ModPowCongruent(x, n, mod);
    JavaRemCongruent(p, mod);
    CongruentSymmetric(JavaRem(p, mod), p, mod);
    CongruentTransitive(r, p, JavaRem(p, mod), mod);
    ModPowSign(x, n, mod);
    PowSign(x, n);
    CongruentSameSign(r, JavaRem(p, mod), mod);
  }

  /** The template's own example: `modPow(3, 50, 19)` is 3^50 mod 19, which is 4. */
  lemma ModPowSample()
    ensures ModPow(3, 50, 19) == 4
  {
    assert ModPow(16, 0, 19) == 1;
    assert JavaRem(4 * 4, 19) == 16 && JavaDiv(1, 2) == 0;
    assert ModPow(4, 1, 19) == 4;
    assert JavaRem(17 * 17, 19) == 4 && JavaDiv(3, 2) == 1;
    assert ModPow(17, 3, 19) == 11;
    assert JavaRem(6 * 6, 19) == 17 && JavaDiv(6, 2) == 3;
    assert ModPow(6, 6, 19) == 11;
    assert JavaRem(5 * 5, 19) == 6 && JavaDiv(12, 2) == 6;
    assert ModPow(5, 12, 19) == 11;
    assert JavaRem(9 * 9, 19) == 5 && JavaDiv(25, 2) == 12;
    assert ModPow(9, 25, 19) == 4;
    assert JavaRem(3 * 3, 19) == 9 && JavaDiv(50, 2) == 25;
  }

  /** A negative base keeps Java's sign: `modPow(-2, 3, 5)` is -3, which is (-8) % 5. */
  lemma ModPowNegativeBaseSample()
    ensures ModPow(-2, 3, 5) == -3 == JavaRem(Pow(-2, 3), 5)
  {
    assert JavaRem(4 * 4, 5) == 1 && JavaDiv(1, 2) == 0;
    assert ModPow(1, 0, 5) == 1;
    assert ModPow(1, 1, 5) == 1;
    assert JavaRem(-2 * -2, 5) == 4 && JavaDiv(3, 2) == 1;
    assert ModPow(4, 1, 5) == 4;
  }

  /** A negative exponent gives the same result as its magnitude: halving and the parity
      test treat n and -n alike. */
  lemma {:induction false} ModPowNegativeExponent(x: int, n: int, mod: int)
    requires n == 0 || mod != 0
    ensures ModPow(x, -n, mod) == ModPow(x, n, mod)
    decreases Abs(n)
  {
    if n != 0 {
      HalfShrinks(n);
      ModPowNegativeExponent(JavaRem(x * x, mod), JavaDiv(n, 2), mod);
    }
  }

  /** With exponent 0 the template answers 1 whatever the modulus, so for mod = 1 it answers 1
      where x^0 mod 1 is 0. */
  lemma ModPowZeroExponentUnreduced(x: int)
    ensures ModPow(x, 0, 1) == 1 && JavaRem(Pow(x, 0), 1) == 0
  {
  }

  /** The result reduced once more modulo mod: the same value whenever the exponent is
      non-zero, and 1 % mod instead of 1 when it is zero. */
  function ModPowReduced(x: int, n: int, mod: int): (r: int)
    requires mod != 0
    ensures n != 0 ==> r == ModPow(x, n, mod)
  {
    var res := ModPow(x, n, mod);
    JavaRemSmall(res, mod);
    JavaRem(res, mod)
  }

  /** The reduced form is x^n % mod for every base, every non-zero modulus and every
      exponent, zero included. */
  lemma ModPowReducedIsPowMod(x: int, n: nat, mod: int)
    requires mod != 0
    ensures ModPowReduced(x, n, mod) == JavaRem(Pow(x, n), mod)
  {
    if n > 0 {
      ModPowIsPowMod(x, n, mod);
    }
  }

  /** No d in [2, hi) divides k. */
  ghost predicate NoDivisorBelow(k: int, hi: int) {
    forall d :: 2 <= d < hi ==> !Divides(d, k)
  }

  ghost predicate IsPrime(k: int) {
    k >= 2 && NoDivisorBelow(k, k)
  }

  /** The primes up to n in increasing order. */
  ghost function PrimesUpTo(n: int): (r: seq<int>)
    ensures |r| <= if n < 2 then 0 else n - 1
    decreases n
  {
    if n < 2 then [] else PrimesUpTo(n - 1) + (if IsPrime(n) then [n] else [])
  }

  /** `PrimesUpTo(n)` holds exactly the primes from 2 to n. */
  lemma {:induction false} PrimesUpToMembers(n: int, x: int)
    ensures x in PrimesUpTo(n) <==> 2 <= x <= n && IsPrime(x)
    decreases n
  {
    if n >= 2 {
      PrimesUpToMembers(n - 1, x);
    }
  }

  /** `PrimesUpTo(n)` is strictly increasing, so it lists each prime once. */
  lemma {:induction false} PrimesUpToIncreasing(n: int, a: int, b: int)
    requires 0 <= a < b < |PrimesUpTo(n)|
    ensures PrimesUpTo(n)[a] < PrimesUpTo(n)[b]
    decreases n
  {
    var r := PrimesUpTo(n - 1);
    if b < |r| {
      PrimesUpToIncreasing(n - 1, a, b);
    } else {
      assert PrimesUpTo(n)[a] == r[a];
      PrimesUpToMembers(n - 1, r[a]);
    }
  }

  /** Extending the bound by one adds i as a divisor to rule out; when i is composite that
      rules out nothing new, since a divisor of i below i already divides every multiple of i. */
  lemma NoDivisorBelowStep(i: int)
    requires i >= 2
    ensures forall k :: NoDivisorBelow(k, i + 1) <==> NoDivisorBelow(k, i) && !Divides(i, k)
    ensures !IsPrime(i) ==> forall k :: NoDivisorBelow(k, i + 1) <==> NoDivisorBelow(k, i)
  {
    if !IsPrime(i) {
      var d :| 2 <= d < i && Divides(d, i);
      forall k | NoDivisorBelow(k, i) && Divides(i, k) ensures false {
        DividesTransitive(d, i, k);
      }
    }
  }

  /** Trial division by every d in [lo, hi), one candidate at a time. */
  predicate NoDivisorFrom(k: int, lo: int, hi: int)
    decreases hi - lo
  {
    lo >= hi || (!Divides(lo, k) && NoDivisorFrom(k, lo + 1, hi))
  }

  lemma {:induction false} NoDivisorFromSpec(k: int, lo: int, hi: int)
    ensures NoDivisorFrom(k, lo, hi) <==> forall d :: lo <= d < hi ==> !Divides(d, k)
    decreases hi - lo
  {
    if lo < hi {
      NoDivisorFromSpec(k, lo + 1, hi);
    }
  }

  /** Primality decided by trial division, for small literal arguments. */
  lemma IsPrimeByTrialDivision(k: int)
    requires k >= 2
    ensures IsPrime(k) <==> NoDivisorFrom(k, 2, k)
  {
    NoDivisorFromSpec(k, 2, k);
  }

  /** The primes up to 13, the bound the template's example sieves to. */
  lemma PrimesUpTo13()
    ensures PrimesUpTo(13) == [2, 3, 5, 7, 11, 13]
  {
    IsPrimeByTrialDivision(2);
    IsPrimeByTrialDivision(3);
    assert Divides(2, 4);
    IsPrimeByTrialDivision(5);
    assert Divides(2, 6);
    IsPrimeByTrialDivision(7);
    assert Divides(2, 8);
    assert Divides(3, 9);
    assert Divides(2, 10);
    IsPrimeByTrialDivision(11);
    assert Divides(2, 12);
    IsPrimeByTrialDivision(13);
    assert PrimesUpTo(1) == [];
    assert PrimesUpTo(3) == [2, 3];
    assert PrimesUpTo(7) == [2, 3, 5, 7];
    assert PrimesUpTo(11) == [2, 3, 5, 7, 11];
  }

  /** Size of the shared tables. */
  const MAX := 10000

  /** The two static tables of the template: `isPrime[k]` says whether k is prime for every
      k up to the last sieve's bound, and `prime` lists the primes found, in order. */
  class PrimeTables {
    const prime: array<int>
    const isPrime: array<bool>

    predicate Valid() {
      prime.Length == MAX && isPrime.Length == MAX
    }

    constructor()
      ensures Valid() && fresh(prime) && fresh(isPrime)
      ensures forall k :: 0 <= k < MAX ==> prime[k] == 0 && !isPrime[k]
    {
      prime := new int[MAX](_ => 0);
      isPrime := new bool[MAX](_ => false);
    }

    /** Sieve of Eratosthenes up to n: marks the primes in `isPrime[0..n]`, writes them to the
        front of `prime` and returns how many there are. Table entries beyond n (and beyond 1)
        keep what earlier calls left there. */
    method Sieve(n: int) returns (p: int)
      requires Valid() && n < MAX
      modifies prime, isPrime
      ensures p == |PrimesUpTo(n)| && prime[..p] == PrimesUpTo(n)
      ensures forall k :: p <= k < MAX ==> prime[k] == old(prime[k])
      ensures !isPrime[0] && !isPrime[1]
      ensures forall k :: 2 <= k <= n ==> (isPrime[k] <==> IsPrime(k))
      ensures forall k :: 1 < k < MAX && n < k ==> isPrime[k] == old(isPrime[k])
    {
      p := 0;
      MarkCandidates(n);
      isPrime[0] := false;
      isPrime[1] := false;
      var i := 2;
      while i <= n
        invariant 2 <= i && (i <= n + 1 || i == 2)
        invariant 0 <= p <= i - 2
        invariant prime[..p] == PrimesUpTo(i - 1)
        invariant forall k :: p <= k < MAX ==> prime[k] == old(prime[k])
        invariant !isPrime[0] && !isPrime[1]
        invariant forall k :: 2 <= k < i ==> (isPrime[k] <==> IsPrime(k))
        invariant forall k :: i <= k <= n ==> (isPrime[k] <==> NoDivisorBelow(k, i))
        invariant forall k :: 1 < k < MAX && n < k ==> isPrime[k] == old(isPrime[k])
      {
        NoDivisorBelowStep(i);
        if isPrime[i] {
          prime[p] := i;
          assert prime[..p + 1] == PrimesUpTo(i - 1) + [i] == PrimesUpTo(i);
          p := p + 1;
          CrossOutMultiples(i, n);
        }
        i := i + 1;
      }
    }

    /** Marks every index in [0, n] as a candidate prime and leaves the rest of the table. */
    method MarkCandidates(n: int)
      requires Valid() && n < MAX
      modifies isPrime
      ensures forall k :: 0 <= k < MAX ==> isPrime[k] == (k <= n || old(isPrime[k]))
    {
      var i := 0;
      while i <= n
        invariant 0 <= i && (i <= n + 1 || i == 0)
        invariant forall k :: 0 <= k < MAX ==> isPrime[k] == (k < i || old(isPrime[k]))
      {
        isPrime[i] := true;
        i := i + 1;
      }
    }

    /** The inner loop of the sieve: clears `isPrime[j]` for j = 2i, 3i, ... up to n. */
    method CrossOutMultiples(i: int, n: int)
      requires Valid() && 2 <= i <= n < MAX
      modifies isPrime
      ensures forall k :: 0 <= k < MAX ==> isPrime[k] == (old(isPrime[k]) && !(i < k <= n && Divides(i, k)))
    {
      ghost var before := isPrime[..];
      var j := 2 * i;
      MultipleDivides(i, 2);
      assert isPrime[..] == Crossed(before, i, j, n);
      while j <= n
        invariant 2 * i <= j <= n + i && Divides(i, j)
        invariant isPrime[..] == Crossed(before, i, j, n)
      {
        CrossedStep(before, i, j, n);
        isPrime[j] := false;
        DividesSelf(i);
        DividesCombination(i, j, i, 1);
        j := j + i;
      }
      CrossedEnd(before, i, j, n);
    }
  }

  /** The table `o` after the multiples 2i, 3i, ... below j (and up to n) have been cleared. */
  ghost function Crossed(o: seq<bool>, i: int, j: int, n: int): (r: seq<bool>)
    ensures |r| == |o|
  {
    seq(|o|, k requires 0 <= k < |o| => o[k] && !(2 * i <= k < j && k <= n && Divides(i, k)))
  }

  /** Clearing the multiple j moves the boundary to the next multiple, j + i. */
  lemma CrossedStep(o: seq<bool>, i: int, j: int, n: int)
    requires i > 0 && Divides(i, j) && 2 * i <= j <= n < |o|
    ensures Crossed(o, i, j, n)[j := false] == Crossed(o, i, j + i, n)
  {
    forall k | j < k < j + i ensures !Divides(i, k) {
      NoMultipleBetween(i, j, k);
    }
  }

  /** Once the boundary has passed n, exactly the multiples of i in (i, n] are cleared. */
  lemma CrossedEnd(o: seq<bool>, i: int, j: int, n: int)
    requires i > 0 && n < j
    ensures forall k :: 0 <= k < |o| ==> Crossed(o, i, j, n)[k] == (o[k] && !(i < k <= n && Divides(i, k)))
  {
    DividesSelf(i);
    forall k | i < k < 2 * i ensures !Divides(i, k) {
      NoMultipleBetween(i, i, k);
    }
  }

  /** The template's own example: sieving to 13 finds 6 primes, and 13 is one of them. */
  method SieveSample() returns (count: int, thirteen: bool)
    ensures count == 6 && thirteen
  {
    var tables := new PrimeTables();
    count := tables.Sieve(13);
    thirteen := tables.isPrime[13];
    PrimesUpTo13();
    PrimesUpToMembers(13, 13);
  }
}
