/** Primality, the ascending list of primes below a bound, and what it means to be
    the prime of a given rank. This is the specification the sieve is proved against. */
module Primes {

  /** The sieve crosses n off while processing base d: d is at least 2, n is a
      multiple of d, and n is at or above d * d. */
  predicate StruckBy(d: int, n: int) {
    2 <= d && d * d <= n && n % d == 0
  }

  /** No d' with d <= d' and d' * d' <= n divides n. */
  predicate NoFactorFrom(n: nat, d: nat)
    requires d >= 2
    decreases n - d
  {
    d * d > n || (n % d != 0 && NoFactorFrom(n, d + 1))
  }

  /** n is prime, decided by trial division up to its square root. */
  predicate IsPrime(n: int) {
    n >= 2 && NoFactorFrom(n, 2)
  }

  predicate StrictlyIncreasing(s: seq<nat>) {
    forall a, b :: 0 <= a < b < |s| ==> s[a] < s[b]
  }

  lemma MulMod(q: int, c: int)
    requires q > 0
    ensures (q * c) % q == 0
  {
    var k := q * c;
    assert k == q * (k / q) + k % q;
    var d := c - k / q;
    assert q * d == k % q;
    assert d >= 1 ==> q * d >= q * 1;
    assert d <= -1 ==> q * d <= q * -1;
  }

  lemma MulLess(a: int, b: int)
    requires 0 <= a < b
    ensures a * a < b * b
  {
    assert a * a <= a * b;
    assert a * b < b * b;
  }

  /** A factor found between d and the square root rules out NoFactorFrom(n, d). */
  lemma {:induction false} FactorBreaksSearch(n: nat, d: nat, f: int)
    requires 2 <= d <= f && StruckBy(f, n)
    ensures !NoFactorFrom(n, d)
    decreases f - d
  {
    if d < f {
      MulLess(d, f);
      FactorBreaksSearch(n, d + 1, f);
    }
  }

  /** Every number the sieve crosses off is composite. */
  lemma StruckIsComposite(d: int, n: int)
    requires StruckBy(d, n)
    ensures !IsPrime(n)
  {
    FactorBreaksSearch(n, 2, d);
  }

  lemma {:induction false} SearchFindsFactor(n: nat, d: nat) returns (f: int)
    requires d >= 2 && !NoFactorFrom(n, d)
    ensures d <= f && StruckBy(f, n)
    decreases n - d
  {
    if n % d == 0 {
      f := d;
    } else {
      f := SearchFindsFactor(n, d + 1);
    }
  }

  /** Every composite n >= 2 is crossed off by some base: it has a factor f with
      f * f <= n. */
  lemma CompositeIsStruck(n: int) returns (f: int)
    requires n >= 2 && !IsPrime(n)
    ensures StruckBy(f, n)
  {
    f := SearchFindsFactor(n, 2);
  }

  /** Crossing-off is transitive: a multiple of a crossed-off number i (at or above
      i * i) is crossed off by the factor that crossed off i. */
  lemma StruckTransitive(q: int, i: int, k: int)
    requires StruckBy(q, i) && StruckBy(i, k)
    ensures StruckBy(q, k)
  {
    var a := k / i;
    var b := i / q;
    assert k == i * a;
    assert i == q * b;
    assert k == q * (b * a);
    MulMod(q, b * a);
    assert i <= i * i;
  }

  /** A prime has no divisor d with 2 <= d < n. */
  lemma PrimeHasNoDivisor(n: int, d: int)
    requires IsPrime(n) && 2 <= d < n
    ensures n % d != 0
  {
    if n % d == 0 {
      var m := n / d;
      assert n == d * m;
      if d * d <= n {
        StruckIsComposite(d, n);
      } else {
        assert m >= d ==> d * m >= d * d;
        assert m < 2 ==> d * m <= d * 1;
        assert m * m <= m * d;
        MulMod(m, d);
        assert StruckBy(m, n);
        StruckIsComposite(m, n);
      }
    }
  }

  /** Trial division up to the square root agrees with the textbook definition:
      n >= 2 and no d with 2 <= d < n divides n. */
  lemma IsPrimeIff(n: int)
    ensures IsPrime(n) <==> n >= 2 && forall d :: 2 <= d < n ==> n % d != 0
  {
    if IsPrime(n) {
      forall d | 2 <= d < n
        ensures n % d != 0
      {
        PrimeHasNoDivisor(n, d);
      }
    } else if n >= 2 {
      var f := CompositeIsStruck(n);
      assert f < n by {
        assert f * 2 <= f * f;
      }
    }
  }

  /** The primes below n, collected in increasing order of n. */
  function PrimesBelow(n: nat): (r: seq<nat>) {
    if n <= 2 then [] else PrimesBelow(n - 1) + (if IsPrime(n - 1) then [n - 1] else [])
  }

  /** PrimesBelow(n) is strictly increasing and holds exactly the primes below n. */
  lemma {:induction false} PrimesBelowSpec(n: nat)
    ensures StrictlyIncreasing(PrimesBelow(n))
    ensures forall x: nat :: x in PrimesBelow(n) <==> 2 <= x < n && IsPrime(x)
    ensures forall a :: 0 <= a < |PrimesBelow(n)| ==> PrimesBelow(n)[a] < n
  {
    if n > 2 {
      PrimesBelowSpec(n - 1);
    }
  }

  lemma HeadIsMember(s: seq<nat>)
    ensures s == [] || s[0] in s
  {
  }

  /** A strictly increasing sequence is determined by the set of its elements. */
  lemma {:induction false} SameMembersEqual(a: seq<nat>, b: seq<nat>)
    requires StrictlyIncreasing(a) && StrictlyIncreasing(b)
    requires forall x :: x in a <==> x in b
    ensures a == b
    decreases |a|
  {
    if a == [] {
      HeadIsMember(b);
    } else {
      assert b != [] by { assert a[0] in a; }
      assert a[0] == b[0] by {
        assert a[0] in b;
        assert b[0] in a;
      }
      forall x
        ensures x in a[1..] <==> x in b[1..]
      {
        if x in a[1..] {
          assert x in a && x != a[0];
        }
        if x in b[1..] {
          assert x in b && x != b[0];
        }
      }
      SameMembersEqual(a[1..], b[1..]);
      assert a == [a[0]] + a[1..];
      assert b == [b[0]] + b[1..];
    }
  }

  /** The answer of the sieve: entry num of primes, or the out-of-range panic for a
      negative rank or one at or past the length. */
  datatype Outcome = Ok(value: nat) | IndexOutOfRange

  function At(primes: seq<nat>, num: int): (r: Outcome)
    ensures r.Ok? <==> 0 <= num < |primes|
    ensures r.Ok? ==> r.value in primes && r.value == primes[num]
  {
    if 0 <= num < |primes| then Ok(primes[num]) else IndexOutOfRange
  }

  /** Entry num of the primes below n is the num-th prime (0-indexed): it is prime,
      below n, and exactly num primes are smaller than it. */
  lemma AtIsNthPrime(n: nat, num: int)
    requires At(PrimesBelow(n), num).Ok?
    ensures var p := At(PrimesBelow(n), num).value;
      IsPrime(p) && p < n && |PrimesBelow(p)| == num
  {
    var ps := PrimesBelow(n);
    var p := ps[num];
    PrimesBelowSpec(n);
    PrimesBelowSpec(p);
    assert p in ps;
    var below := ps[..num];
    assert StrictlyIncreasing(below);
    forall x: nat
      ensures x in below <==> x in PrimesBelow(p)
    {
      if x in below {
        var a :| 0 <= a < num && below[a] == x;
        assert x == ps[a] && x in ps;
      }
      if x in PrimesBelow(p) {
        assert x in ps;
        var a :| 0 <= a < |ps| && ps[a] == x;
        assert below[a] == x;
      }
    }
    SameMembersEqual(below, PrimesBelow(p));
  }

  /** There are no fewer primes below a larger bound. */
  lemma {:induction false} CountMonotone(m: nat, n: nat)
    requires m <= n
    ensures |PrimesBelow(m)| <= |PrimesBelow(n)|
    decreases n - m
  {
    if m < n {
      CountMonotone(m, n - 1);
    }
  }

  /** Two primes with the same number of smaller primes are equal, and the one
      with fewer smaller primes is the smaller one. */
  lemma RankDeterminesPrime(p: nat, q: nat)
    requires IsPrime(p) && IsPrime(q)
    requires |PrimesBelow(p)| <= |PrimesBelow(q)|
    ensures p <= q
    ensures |PrimesBelow(p)| == |PrimesBelow(q)| ==> p == q
  {
    if q < p {
      assert |PrimesBelow(q + 1)| == |PrimesBelow(q)| + 1;
      CountMonotone(q + 1, p);
    } else if p < q {
      assert |PrimesBelow(p + 1)| == |PrimesBelow(p)| + 1;
      CountMonotone(p + 1, q);
    }
  }

  /** Conversely, a num-th prime below n is what entry num of the primes below n
      holds. */
  lemma NthPrimeIsAt(n: nat, num: int, p: nat)
    requires IsPrime(p) && p < n && |PrimesBelow(p)| == num
    ensures At(PrimesBelow(n), num) == Ok(p)
  {
    var ps := PrimesBelow(n);
    PrimesBelowSpec(n);
    assert p in ps;
    var a :| 0 <= a < |ps| && ps[a] == p;
    AtIsNthPrime(n, a);
  }

  /** Answers for different bounds (different calls on one engine, or calls on
      different engines) agree on rank and order: a larger rank gives a larger prime
      and equal ranks the same prime. */
  lemma AnswersOrdered(n1: nat, num1: int, n2: nat, num2: int)
    requires At(PrimesBelow(n1), num1).Ok? && At(PrimesBelow(n2), num2).Ok?
    requires num1 <= num2
    ensures num1 < num2 ==> At(PrimesBelow(n1), num1).value < At(PrimesBelow(n2), num2).value
    ensures num1 == num2 ==> At(PrimesBelow(n1), num1) == At(PrimesBelow(n2), num2)
  {
    var p := At(PrimesBelow(n1), num1).value;
    var q := At(PrimesBelow(n2), num2).value;
    AtIsNthPrime(n1, num1);
    AtIsNthPrime(n2, num2);
    RankDeterminesPrime(p, q);
  }
}
