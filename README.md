# Code Jam template: permutations and number theory

This project models the algorithmic core of the Java template for Google Code Jam in
`java/GcjTemplate/src/Solution.java`. It has two parts.

**Permutation enumeration.** `Permutation` is the enumerator and `Permutation.Iter` its
iterator. They walk through every permutation of `0..size-1` in lexicographic order, inside
one reused `int[]` buffer, in the manner of C++ `std::next_permutation` (ISO/IEC 14882,
[alg.permutation.generators]):
- The first `hasNext` only announces the identity.
- Each later `hasNext` finds the last ascent (the pivot) and the last element above the
  pivot. It swaps those two elements and reverses the tail.
- On the last permutation it reverses the whole buffer back to ascending order and answers
  `false`.

**Number theory.** `NumberTheory` has three routines:
- `gcd` is Euclid's algorithm.
- `sieve` is the sieve of Eratosthenes. It writes into two static tables, `isPrime` and
  `prime`, each of size `MAX = 10000`.
- `modPow` is exponentiation by squaring.

`gcd` and `modPow` use Java's truncating `%` and `/`; `sieve` uses neither.

Files:
- `sequences.dfy` (module `Sequences`): reversal, monotone runs and lexicographic order on
  integer sequences.
- `permutation.dfy` (module `Permutations`):
  - the `Permutation` value and its checked construction;
  - the specification of one step, `NextPermutation`, together with the lemmas that make it
    the lexicographic successor;
  - the class `Iter`. Its `source` array and `isFirst` flag are updated in place by
    `HasNext`, `Swap` and `Reverse`. Each method is proved against `NextPermutation` and
    `Reversed`.
- `arithmetic.dfy` (module `Arithmetic`): Java's remainder and quotient (`JavaRem`,
  `JavaDiv`), divisibility and congruences.
- `number_theory.dfy` (module `NumberTheory`):
  - `Gcd`, `Pow` and `ModPow` as recursive functions;
  - the class `PrimeTables`, which holds the two static arrays, with `Sieve` as a method over
    them.

## Model

| member | source | states |
|---|---|---|
| Permutations.NewPermutation | java/GcjTemplate/src/Solution.java:25-28 | construction fails (IllegalArgumentException) exactly when size <= 0; otherwise the enumerator has that size, which its type keeps positive |
| Permutations.Iterator | java/GcjTemplate/src/Solution.java:30-32 | a new iterator owns a fresh buffer holding the identity 0..size-1 and has not yet been asked `hasNext` |
| Permutations.Iter.constructor | java/GcjTemplate/src/Solution.java:38-43 | the buffer is a fresh array holding 0, 1, ..., size-1, which is a permutation of 0..size-1 |
| Permutations.Iter.HasNext | java/GcjTemplate/src/Solution.java:50-68 | the first call answers true and leaves the buffer alone; each later call answers whether a lexicographic successor exists and turns the buffer into `NextPermutation` of its old contents; the buffer stays a permutation of 0..size-1 |
| Permutations.Iter.FindPivot | java/GcjTemplate/src/Solution.java:56-58 | the downward scan stops at the last ascent of the buffer, or at 0 when the buffer never goes up |
| Permutations.Iter.FindPartner | java/GcjTemplate/src/Solution.java:59-60 | the `--j` scan stops at a position from the pivot's right neighbour on whose value exceeds the pivot, and every value after it is at most the pivot |
| Permutations.Iter.SwapAndReverse | java/GcjTemplate/src/Solution.java:61-62 | given where the two scans stopped, exchanging positions i-1 and j and then reversing [i, n) turns the buffer into `NextPermutation` of its old contents |
| Permutations.SwapThenReverseIsNext | java/GcjTemplate/src/Solution.java:57-62 | the swap at the scanned positions followed by the reversal of the tail is the lexicographic successor `NextPermutation` |
| Permutations.Iter.Next | java/GcjTemplate/src/Solution.java:77-79 | returns the shared buffer itself and changes nothing |
| Permutations.Iter.Swap | java/GcjTemplate/src/Solution.java:85-89 | the array afterwards is the old contents with positions i and j exchanged |
| Permutations.Iter.Reverse | java/GcjTemplate/src/Solution.java:91-93 | exactly the range [s, t) is reversed, and every index outside it keeps its value; over the whole array it is the reversal |
| Sequences.ReversedRange | java/GcjTemplate/src/Solution.java:91-93 | an array that mirrors [lo, hi) and agrees elsewhere is the old one with that range reversed |
| Permutations.LastAscent | java/GcjTemplate/src/Solution.java:57-58 | the downward scan stops at the last ascent s[r-1] < s[r], and everything from r on never goes up |
| Permutations.LastAbove | java/GcjTemplate/src/Solution.java:59-60 | the `--j` scan stops at the last position holding a value above the pivot, which is at or after i |
| Permutations.NextPermutation | java/GcjTemplate/src/Solution.java:56-67 | one advance rearranges the buffer: the multiset of values is unchanged |
| Permutations.NextPermutationAt | java/GcjTemplate/src/Solution.java:57-62 | the positions the two scans find are the pivot and partner of the definition, so the in-place swap and reverse compute `NextPermutation` |
| Permutations.NextPermutationOfLast | java/GcjTemplate/src/Solution.java:66-67 | a buffer with no ascent has no successor, and the advance reverses it whole |
| Permutations.NextPermutationKeepsPermutation | java/GcjTemplate/src/Solution.java:56-67 | a permutation of 0..n-1 stays a permutation of 0..n-1 after an advance |
| Permutations.NextPermutationAdvances | java/GcjTemplate/src/Solution.java:57-63 | with a pivot, the result is lexicographically larger, agrees with the old buffer before the pivot, and holds the partner value at the pivot |
| Permutations.NextPermutationTailSorted | java/GcjTemplate/src/Solution.java:62 | after the advance, the part after the pivot is in ascending order |
| Permutations.NextPermutationIsLeast | java/GcjTemplate/src/Solution.java:57-63 | every rearrangement larger than the buffer is at least the result of the advance, so the advance gives the lexicographic successor |
| Permutations.NoSuccessorIsGreatest | java/GcjTemplate/src/Solution.java:66-67 | without an ascent, no rearrangement of the buffer is lexicographically larger |
| Permutations.HasSuccessorIff | java/GcjTemplate/src/Solution.java:45-50 | `hasNext` answers true after the first call exactly when some rearrangement is lexicographically larger than the buffer |
| Permutations.IdentityIsFirst | java/GcjTemplate/src/Solution.java:38-43 | the identity the iterator starts from is the lexicographically least permutation |
| Permutations.LastPermutation | java/GcjTemplate/src/Solution.java:66-67 | a permutation of 0..n-1 has no successor exactly when it is n-1, ..., 1, 0, and advancing past it resets the buffer to the identity |
| Permutations.LastIsDescending | java/GcjTemplate/src/Solution.java:66-67 | a permutation without a successor is the descending one, and the reversal makes it the identity |
| Permutations.DescendingHasNoSuccessor | java/GcjTemplate/src/Solution.java:57-58 | the scan finds no ascent in n-1, ..., 1, 0 |
| Permutations.SingletonEnumeration | java/GcjTemplate/src/Solution.java:50-67 | with one element, the first `hasNext` is true with buffer [0] and the second is false |
| Arithmetic.JavaRem | java/GcjTemplate/src/Solution.java:106 | Java's `a % b` is smaller than b in magnitude and has the sign of a |
| Arithmetic.JavaDivRem | java/GcjTemplate/src/Solution.java:139 | Java's quotient and remainder satisfy b * (a / b) + a % b == a |
| Arithmetic.HalfShrinks | java/GcjTemplate/src/Solution.java:139 | `n / 2` moves every non-zero n toward zero, reaches zero only from -1, 0 and 1, and is odd in n |
| Arithmetic.JavaRemCommonDivisors | java/GcjTemplate/src/Solution.java:106 | a and b have the same common divisors as b and a % b |
| NumberTheory.Gcd | java/GcjTemplate/src/Solution.java:104-107 | the result is non-negative on non-negative arguments, and is 0 exactly when both arguments are 0 |
| NumberTheory.GcdCommonDivisors | java/GcjTemplate/src/Solution.java:104-107 | the divisors of gcd(a, b) are exactly the common divisors of a and b, for all signs |
| NumberTheory.GcdIsGreatestCommonDivisor | java/GcjTemplate/src/Solution.java:101-107 | gcd(a, b) divides a and b, and every positive common divisor is at most its magnitude |
| NumberTheory.GcdSample | java/GcjTemplate/src/Solution.java:223 | gcd(12, 15) is 3 |
| NumberTheory.ModPow | java/GcjTemplate/src/Solution.java:137-144 | defined for every base and exponent, and for mod == 0 when the exponent is 0; the result is non-negative for a non-negative base and, for a non-zero exponent, smaller than mod in magnitude |
| NumberTheory.ModPowSign | java/GcjTemplate/src/Solution.java:137-144 | the result is non-negative for an even exponent or a non-negative base, and at most 0 for an odd exponent and a non-positive base, as Java's `x^n % mod` is |
| NumberTheory.ModPowCongruent | java/GcjTemplate/src/Solution.java:133-144 | for every base, non-negative exponent and non-zero modulus, the result is congruent to x^n modulo mod |
| NumberTheory.ModPowIsPowMod | java/GcjTemplate/src/Solution.java:133-144 | for every base, every non-zero modulus and every n > 0, the result is exactly x^n % mod with Java's remainder, so negative bases and moduli included (modPow(-2, 3, 5) is -3) |
| NumberTheory.ModPowNegativeExponent | java/GcjTemplate/src/Solution.java:137-144 | a negative exponent gives the same result as its magnitude, because halving truncates and the parity test ignores the sign |
| NumberTheory.ModPowNegativeBaseSample | java/GcjTemplate/src/Solution.java:137-144 | modPow(-2, 3, 5) is -3, which is Java's (-2)^3 % 5 |
| NumberTheory.ModPowSample | java/GcjTemplate/src/Solution.java:240 | modPow(3, 50, 19) is 4 |
| NumberTheory.ModPowZeroExponentUnreduced | java/GcjTemplate/src/Solution.java:138 | with exponent 0 and mod 1 the result is 1, while x^0 mod 1 is 0 |
| NumberTheory.ModPowReduced | java/GcjTemplate/src/Solution.java:137-144 | reducing once more changes nothing for a non-zero exponent |
| NumberTheory.ModPowReducedIsPowMod | java/GcjTemplate/src/Solution.java:133-144 | for every base and every non-zero modulus, the reduced form is x^n % mod with Java's remainder for every exponent n >= 0, zero included |
| NumberTheory.PrimeTables.constructor | java/GcjTemplate/src/Solution.java:112-114 | both tables have MAX entries, initially 0 and false |
| NumberTheory.PrimeTables.Sieve | java/GcjTemplate/src/Solution.java:115-131 | afterwards isPrime[k] is true exactly when k is prime, for 2 <= k <= n; isPrime[0] and isPrime[1] are false; prime[0..p) is the list of primes up to n and p is its length; every other entry of both tables keeps its old value |
| NumberTheory.PrimeTables.MarkCandidates | java/GcjTemplate/src/Solution.java:116-118 | every entry of isPrime from 0 to n becomes true, and every entry after n keeps its value |
| NumberTheory.PrimeTables.CrossOutMultiples | java/GcjTemplate/src/Solution.java:124-126 | exactly the multiples of i in (i, n] are cleared, and nothing else changes |
| NumberTheory.NoDivisorBelowStep | java/GcjTemplate/src/Solution.java:121-128 | moving the sieve to i + 1 rules out i as a divisor, and when i is composite this changes nothing |
| NumberTheory.PrimesUpToMembers | java/GcjTemplate/src/Solution.java:109-131 | the list the sieve produces holds exactly the primes from 2 to n |
| NumberTheory.PrimesUpToIncreasing | java/GcjTemplate/src/Solution.java:122-123 | the primes are listed in strictly increasing order, each once |
| NumberTheory.PrimesUpTo13 | java/GcjTemplate/src/Solution.java:230-233 | the primes up to 13 are 2, 3, 5, 7, 11, 13 |
| NumberTheory.SieveSample | java/GcjTemplate/src/Solution.java:230-233 | sieving to 13 returns 6 and marks 13 as prime |

## Left out

- Permutations: the model does not prove that a full enumeration from the identity visits all size! permutations. It proves the two facts such an argument rests on: each step goes to the lexicographic successor (`NextPermutationIsLeast`), and the walk starts at the least permutation and stops after the greatest (`IdentityIsFirst`, `LastPermutation`). The counting argument over all permutations is not formalised.
- Permutations.Iter.HasNext: the source's `for` loop returns from inside its body once it finds an ascent. The model runs the descending scan for the pivot first, then takes one branch: with a pivot it runs the `--j` scan and advances, and without one it reverses the whole buffer. The result and the final buffer are the same.
- Permutations.Iter.FindPivot: this is not a separate method in the source. It is the `for` loop of `hasNext`, lines 57-58, moved into a method of its own so that each proof stays small.
- Permutations.Iter.FindPartner: this is not a separate method in the source. It is the `--j` loop of `hasNext`, lines 59-60, moved into a method of its own for the same reason.
- Permutations.Iter.SwapAndReverse: this is not a separate method in the source. It is lines 61-62 of `hasNext`, moved into a method of its own for the same reason.
- NumberTheory.PrimeTables.MarkCandidates: this is not a separate method in the source. It is the first loop of `sieve`, lines 116-118, moved into a method of its own for the same reason.
- NumberTheory.PrimeTables.CrossOutMultiples: this is not a separate method in the source. It is the inner loop of `sieve`, lines 124-126, moved into a method of its own so that each proof stays small.
- Permutations.Iter.Reverse: requires s <= t. The source does nothing when s > t, but none of its callers passes such a range.
- Permutations.Iter.constructor: accepts size 0 as well. The source's private constructor is only reached with a positive size.
- `Iter.remove` (it only throws UnsupportedOperationException) and the `Iterable`/`Iterator` interface plumbing are not modelled. Neither touches the state.
- NumberTheory.PrimeTables.Sieve: requires n < MAX. For larger n the source indexes past its tables and throws ArrayIndexOutOfBoundsException.
- Java `long` overflow is not modelled (`gcd` cannot overflow: its only operation is `%`, and Java defines `Integer.MIN_VALUE % -1` as 0, which `JavaRem` gives too). All arithmetic is on unbounded integers, so the model does not capture:
  - the wrap-around of the `long` product `x * x` in `modPow`, which happens once |x| > 3037000499;
  - the wrap-around of the `long` product `res * x` in `modPow`, which happens once |res * x| >= 2^63.
- NumberTheory.ModPow: requires n == 0 || mod != 0. With mod == 0 the source returns 1 for n == 0, which the model gives too; for a non-zero exponent it throws ArithmeticException, which the model does not represent.
- NumberTheory.ModPowCongruent: proved for non-negative exponents only. Negative exponents are related back to non-negative ones by `ModPowNegativeExponent`.
- NumberTheory.ModPowIsPowMod: proved for n > 0 only, and NumberTheory.ModPowReducedIsPowMod for n >= 0 only; `ModPowNegativeExponent` carries both over to negative exponents.
- The `Sample` class (console demonstrations of library calls, floating point and big numbers) is not part of this model, apart from the three values it prints for `gcd`, `sieve` and `modPow`, which are proved as samples.
- `read`, `solve` and `main` (file and console I/O and an empty `solve`) are not part of this model.
- `ruby/template/solution.rb` (file I/O and timing scaffolding only) is not part of this model.

## Findings

| source | as written | input that shows it | evidently intended | confidence | as-written member | corrected member |
|---|---|---|---|---|---|---|
| java/GcjTemplate/src/Solution.java:138 | `if(n==0) return 1;` returns 1 whatever the modulus | modPow(5, 0, 1) returns 1, but 5^0 mod 1 is 0 | the documented result is x^n mod mod, i.e. 1 % mod for n = 0 | medium: mod = 1 is rarely passed; not executed | NumberTheory.ModPowZeroExponentUnreduced | NumberTheory.ModPowReducedIsPowMod |
