/** The incremental Sieve of Eratosthenes of go/pkg/sieve/sieve.go. One engine keeps
    a bitset of prime candidates and the bound up to which it has been sieved; each
    query re-uses that work, sieves up to the query's bound and reads the answer off
    the bitset. */
module IncrementalSieve {
  import opened Primes
  import Bitset

  /** Below n, the set bits are exactly the primes (indices 0 and 1 do not matter). */
  ghost predicate SievedBelow(bits: seq<bool>, n: int) {
    forall k :: 2 <= k < n ==> Bitset.Test(bits, k) == IsPrime(k)
  }

  /** The state the marking pass starts from: sieved below the old frontier, bit 2
      set, and every odd index from the old frontier up to the new bound set. */
  ghost predicate Candidates(bits: seq<bool>, frontier: int, upperBound: int) {
    Bitset.Test(bits, 2) &&
    SievedBelow(bits, frontier) &&
    forall k :: frontier <= k < upperBound && k % 2 == 1 ==> Bitset.Test(bits, k)
  }

  /** The least r with upperBound <= r * r: the bound on the bases sieved. */
  function CeilSqrt(upperBound: nat): (r: nat)
    ensures upperBound <= r * r
    ensures r == 0 || (r - 1) * (r - 1) < upperBound
    ensures r <= upperBound
  {
    CeilSqrtFrom(upperBound, 0)
  }

  function CeilSqrtFrom(n: nat, k: nat): (r: nat)
    requires k == 0 || (k - 1) * (k - 1) < n
    ensures k <= r && n <= r * r
    ensures r == 0 || (r - 1) * (r - 1) < n
    ensures r <= n
    decreases n - k
  {
    SquareAtLeast(k);
    SquareAtLeast(if k > 0 then k - 1 else 0);
    if n <= k * k then k
    else CeilSqrtFrom(n, k + 1)
  }

  lemma SquareAtLeast(k: nat)
    ensures k <= k * k
  {
    assert k >= 1 ==> k * k >= k * 1;
  }

  /** Where crossing off the multiples of base i starts: the largest multiple of i
      at or below the old frontier, but never below i * i. */
  function MultiplesStart(i: nat, frontier: nat): (r: nat)
    requires i >= 2
    ensures r % i == 0 && i * i <= r
    ensures r == i * i || r <= frontier < r + i
    ensures i * i <= frontier ==> r <= frontier < r + i
  {
    MulMod(i, i);
    MulMod(i, frontier / i);
    assert frontier == (frontier / i) * i + frontier % i;
    if i * i >= (frontier / i) * i then i * i else (frontier / i) * i
  }

  class Sieve {
    /** Set bit i: i is still a prime candidate. */
    var marked: seq<bool>
    /** How far marked has been sieved (0 before the first query). */
    var largestUpperBound: nat

    ghost predicate Valid()
      reads this
    {
      largestUpperBound == 0 ||
      (2 < largestUpperBound <= |marked| && SievedBelow(marked, largestUpperBound))
    }

    /** An engine that has sieved nothing yet. */
    constructor ()
      ensures Valid()
      ensures marked == [] && largestUpperBound == 0
    {
      marked := [];
      largestUpperBound := 0;
    }

    /** The prime of rank num (0-indexed). The bound is 6 for num <= 1 and the
        estimate rosserBound otherwise; the sieve is brought up to that bound and
        the answer is entry num of the primes below it, or the out-of-range panic. */
    method NthPrime(num: int, rosserBound: int) returns (r: Outcome)
      requires Valid()
      requires num > 1 ==> rosserBound >= 6
      modifies this
      ensures Valid()
      ensures largestUpperBound == if num > 1 then rosserBound else 6
      ensures r == At(PrimesBelow(largestUpperBound), num)
      ensures r.Ok? ==> IsPrime(r.value) && r.value < largestUpperBound && |PrimesBelow(r.value)| == num
      ensures forall p: nat :: IsPrime(p) && p < largestUpperBound && |PrimesBelow(p)| == num ==> r == Ok(p)
      ensures old(largestUpperBound) == 0 ==> |marked| == largestUpperBound + 1
      ensures 0 < largestUpperBound <= old(largestUpperBound) ==> marked == old(marked)
    {
      var upperBound: nat := 6;
      if num > 1 {
        upperBound := rosserBound;
      }

      ghost var before := marked;
      if largestUpperBound == 0 {
        SetAllCandidates(upperBound);
        ColdStartCandidates(marked, upperBound);
      } else if upperBound > largestUpperBound && largestUpperBound != 0 {
        ExtendCandidates(upperBound);
        ExtensionCandidates(before, marked, largestUpperBound, upperBound);
      } else {
        SievedBelowShrinks(marked, largestUpperBound, upperBound);
      }

      ghost var candidates := marked;
      MarkComposites(upperBound);
      if 0 < upperBound <= largestUpperBound {
        NoOpKeepsBits(candidates, marked, largestUpperBound, upperBound);
      }

      largestUpperBound := upperBound;
      var primes := GeneratePrimes();
      PrimesBelowSpec(upperBound);
      SameMembersEqual(primes, PrimesBelow(upperBound));

      if 0 <= num < |primes| {
        r := Ok(primes[num]);
        AtIsNthPrime(upperBound, num);
      } else {
        r := IndexOutOfRange;
      }
      forall p: nat | IsPrime(p) && p < upperBound && |PrimesBelow(p)| == num
        ensures r == Ok(p)
      {
        NthPrimeIsAt(upperBound, num, p);
      }
    }

    /** First query: a bitset of upperBound + 1 bits, all of them set. Setting bit 2
        and the odd bits again changes nothing, except that a bitset shorter than 3
        bits grows to hold bit 2. */
    method SetAllCandidates(upperBound: nat)
      modifies this`marked
      ensures |marked| == Max(upperBound + 1, 3)
      ensures forall k :: 0 <= k <= upperBound || k == 2 ==> marked[k]
    {
      marked := Bitset.SetAll(Bitset.New(upperBound + 1));
      marked := Bitset.Set(marked, 2);
      var idx := 3;
      while idx < |marked|
        invariant |marked| == Max(upperBound + 1, 3)
        invariant forall k :: 0 <= k <= upperBound || k == 2 ==> marked[k]
      {
        marked := Bitset.Set(marked, idx);
        idx := idx + 2;
      }
    }

    /** A later query with a larger bound: the odd indices from the old frontier
        through upperBound are set (growing the bitset as needed, the added even
        positions cleared) and every other bit is left as it was. */
    method ExtendCandidates(upperBound: nat)
      requires 0 < largestUpperBound < upperBound
      requires largestUpperBound <= |marked|
      modifies this`marked
      ensures |marked| == Max(|old(marked)|, upperBound + upperBound % 2)
      ensures forall k :: 0 <= k < |marked| ==>
        marked[k] == ((largestUpperBound <= k <= upperBound && k % 2 == 1) ||
                      (k < |old(marked)| && old(marked)[k]))
    {
      var markStart := largestUpperBound;
      if markStart % 2 == 0 {
        markStart := markStart + 1;
      }
      var idx := markStart;
      while idx <= upperBound
        invariant idx % 2 == 1 && markStart <= idx <= upperBound + 2
        invariant |marked| == Max(|old(marked)|, idx - 1)
        invariant forall k :: 0 <= k < |marked| ==>
          marked[k] == ((largestUpperBound <= k < idx && k % 2 == 1) ||
                        (k < |old(marked)| && old(marked)[k]))
      {
        marked := Bitset.Set(marked, idx);
        idx := idx + 2;
      }
    }

    /** Clear the multiples of every base i below CeilSqrt(upperBound) whose bit is
        still set, from MultiplesStart(i, largestUpperBound) up to (not including)
        upperBound. Only bits of numbers below upperBound that some base crosses off
        are cleared, and afterwards the bits below upperBound are exactly the primes. */
    method MarkComposites(upperBound: nat)
      requires Candidates(marked, largestUpperBound, upperBound)
      modifies this`marked
      ensures |marked| == |old(marked)|
      ensures forall k :: 0 <= k < |marked| && marked[k] ==> old(marked)[k]
      ensures forall k :: 0 <= k < |marked| && old(marked)[k] && !marked[k] ==>
        k < upperBound && exists d :: StruckBy(d, k)
      ensures SievedBelow(marked, upperBound)
    {
      ghost var m0 := marked;
      var basePrimeUpperLimit := CeilSqrt(upperBound);
      var i := 2;
      while i < basePrimeUpperLimit
        invariant 2 <= i
        invariant ClearsOnlyStruck(m0, marked, upperBound)
        invariant CrossedOffBelow(marked, i, upperBound)
      {
        if Bitset.Test(marked, i) {
          var multiplesStart := MultiplesStart(i, largestUpperBound);
          ghost var m1 := marked;
          CrossOffMultiples(i, multiplesStart, upperBound);
          CrossOffStep(m0, m1, marked, i, multiplesStart, largestUpperBound, upperBound);
        } else {
          SkipStep(m0, marked, i, largestUpperBound, upperBound);
        }
        i := i + 1;
      }
      SievedAtEnd(m0, marked, i, largestUpperBound, upperBound);
    }

    /** Clear bit j for every multiple j of i with start <= j < upperBound. */
    method CrossOffMultiples(i: nat, start: nat, upperBound: nat)
      requires i >= 2 && start % i == 0
      modifies this`marked
      ensures |marked| == |old(marked)|
      ensures forall k :: 0 <= k < |marked| ==>
        marked[k] == (old(marked)[k] && !(start <= k < upperBound && k % i == 0))
    {
      var j := start;
      while j < upperBound
        invariant start <= j && j % i == 0
        invariant |marked| == |old(marked)|
        invariant forall k :: 0 <= k < |marked| ==>
          marked[k] == (old(marked)[k] && !(start <= k < j && k < upperBound && k % i == 0))
      {
        marked := Bitset.Clear(marked, j);
        forall k | j < k < j + i
          ensures k % i != 0
        {
          NoMultipleBetween(i, j, k);
        }
        NextMultiple(i, j);
        j := j + i;
      }
    }

    /** The set indices in [2, largestUpperBound), in ascending order. */
    method GeneratePrimes() returns (primes: seq<nat>)
      ensures StrictlyIncreasing(primes)
      ensures forall x: nat :: x in primes <==> 2 <= x < largestUpperBound && Bitset.Test(marked, x)
    {
      primes := [];
      var i := 2;
      while i < largestUpperBound
        invariant 2 <= i && (i <= largestUpperBound || i == 2)
        invariant StrictlyIncreasing(primes)
        invariant forall a :: 0 <= a < |primes| ==> primes[a] < i
        invariant forall x: nat :: x in primes <==> 2 <= x < i && Bitset.Test(marked, x)
      {
        if Bitset.Test(marked, i) {
          primes := primes + [i];
        }
        i := i + 1;
      }
    }
  }

  /** After the first query's initialisation every bit is set, which is where the
      marking pass may start from a frontier of 0. */
  lemma ColdStartCandidates(bits: seq<bool>, upperBound: nat)
    requires |bits| == Max(upperBound + 1, 3)
    requires forall k :: 0 <= k <= upperBound || k == 2 ==> bits[k]
    ensures Candidates(bits, 0, upperBound)
  {
  }

  /** After an extension the marking pass may start from the old frontier. */
  lemma ExtensionCandidates(m0: seq<bool>, m: seq<bool>, frontier: nat, upperBound: nat)
    requires 2 < frontier <= |m0| && frontier < upperBound
    requires SievedBelow(m0, frontier)
    requires |m| == Max(|m0|, upperBound + upperBound % 2)
    requires forall k :: 0 <= k < |m| ==>
      m[k] == ((frontier <= k <= upperBound && k % 2 == 1) || (k < |m0| && m0[k]))
    ensures Candidates(m, frontier, upperBound)
  {
    assert Bitset.Test(m0, 2) == IsPrime(2);
  }

  /** Without extension the marking pass may start from the old frontier as well:
      a bitset sieved below the frontier is sieved below any smaller bound. */
  lemma SievedBelowShrinks(bits: seq<bool>, frontier: nat, upperBound: nat)
    requires 2 < frontier && upperBound <= frontier
    requires SievedBelow(bits, frontier)
    ensures Candidates(bits, frontier, upperBound)
  {
    assert Bitset.Test(bits, 2) == IsPrime(2);
  }

  /** When the new bound does not exceed the old frontier the marking pass changes no
      bit: everything it could clear is composite and already clear. */
  lemma NoOpKeepsBits(m0: seq<bool>, m: seq<bool>, frontier: nat, upperBound: nat)
    requires upperBound <= frontier && SievedBelow(m0, frontier)
    requires ClearsOnlyStruck(m0, m, upperBound)
    ensures m == m0
  {
    forall k | 0 <= k < |m|
      ensures m[k] == m0[k]
    {
      if m0[k] && !m[k] {
        var d :| StruckBy(d, k);
        StruckIsComposite(d, k);
      }
    }
  }

  /** Relative to m0, m only clears bits, and each bit it clears belongs to a number
      below upperBound that some base crosses off. */
  ghost predicate ClearsOnlyStruck(m0: seq<bool>, m: seq<bool>, upperBound: int) {
    |m| == |m0| &&
    (forall k :: 0 <= k < |m| && m[k] ==> m0[k]) &&
    (forall k :: 0 <= k < |m| && m0[k] && !m[k] ==> k < upperBound && exists d :: StruckBy(d, k))
  }

  /** Every number below upperBound that a base below i crosses off has its bit
      cleared. */
  ghost predicate CrossedOffBelow(m: seq<bool>, i: int, upperBound: int) {
    forall d, k :: d < i && k < upperBound && StruckBy(d, k) ==> !Bitset.Test(m, k)
  }

  /** The marking pass never clears the bit of a prime below upperBound. */
  lemma PrimeBitKept(m0: seq<bool>, m: seq<bool>, frontier: int, upperBound: int, k: int)
    requires Candidates(m0, frontier, upperBound)
    requires ClearsOnlyStruck(m0, m, upperBound)
    requires IsPrime(k) && k < upperBound
    ensures Bitset.Test(m, k)
  {
    if k % 2 == 0 && k != 2 {
      StruckIsComposite(2, k);
    }
    assert Bitset.Test(m0, k);
    if !m[k] {
      var d :| StruckBy(d, k);
      StruckIsComposite(d, k);
    }
  }

  /** Crossing off the multiples of base i from MultiplesStart(i, frontier) keeps the
      marking invariant and extends it to base i. */
  lemma CrossOffStep(m0: seq<bool>, m1: seq<bool>, m2: seq<bool>, i: nat, start: nat,
                     frontier: nat, upperBound: int)
    requires Candidates(m0, frontier, upperBound)
    requires ClearsOnlyStruck(m0, m1, upperBound) && CrossedOffBelow(m1, i, upperBound)
    requires i >= 2 && start == MultiplesStart(i, frontier)
    requires |m2| == |m1|
    requires forall k :: 0 <= k < |m2| ==>
      m2[k] == (m1[k] && !(start <= k < upperBound && k % i == 0))
    ensures ClearsOnlyStruck(m0, m2, upperBound) && CrossedOffBelow(m2, i + 1, upperBound)
  {
    forall k | 0 <= k < |m2| && m0[k] && !m2[k]
      ensures k < upperBound && exists d :: StruckBy(d, k)
    {
      if m1[k] {
        assert StruckBy(i, k);
      }
    }
    forall d, k | d < i + 1 && k < upperBound && StruckBy(d, k)
      ensures !Bitset.Test(m2, k)
    {
      if d == i && k < start {
        StruckIsComposite(i, k);
        assert !Bitset.Test(m0, k);
      }
    }
  }

  /** A base whose bit is already clear is composite, so everything it would cross
      off has been crossed off by a smaller base. */
  lemma SkipStep(m0: seq<bool>, m: seq<bool>, i: int, frontier: int, upperBound: int)
    requires Candidates(m0, frontier, upperBound)
    requires ClearsOnlyStruck(m0, m, upperBound) && CrossedOffBelow(m, i, upperBound)
    requires 2 <= i < upperBound && !Bitset.Test(m, i)
    ensures CrossedOffBelow(m, i + 1, upperBound)
  {
    if IsPrime(i) {
      PrimeBitKept(m0, m, frontier, upperBound, i);
    }
    var q := CompositeIsStruck(i);
    forall d, k | d < i + 1 && k < upperBound && StruckBy(d, k)
      ensures !Bitset.Test(m, k)
    {
      if d == i {
        StruckTransitive(q, i, k);
        MulLess(q, i);
      }
    }
  }

  /** Once every base below the ceiling of the square root is done, the bits below
      upperBound are exactly the primes. */
  lemma SievedAtEnd(m0: seq<bool>, m: seq<bool>, i: int, frontier: int, upperBound: nat)
    requires Candidates(m0, frontier, upperBound)
    requires ClearsOnlyStruck(m0, m, upperBound) && CrossedOffBelow(m, i, upperBound)
    requires CeilSqrt(upperBound) <= i
    ensures SievedBelow(m, upperBound)
  {
    var root := CeilSqrt(upperBound);
    forall k | 2 <= k < upperBound
      ensures Bitset.Test(m, k) == IsPrime(k)
    {
      if IsPrime(k) {
        PrimeBitKept(m0, m, frontier, upperBound, k);
      } else {
        var d := CompositeIsStruck(k);
        if d >= root {
          MulLess(root, d);
        }
      }
    }
  }

  function Max(a: int, b: int): (r: int)
    ensures r >= a && r >= b && (r == a || r == b)
  {
    if a < b then b else a
  }

  /** Adding less than i to a multiple of i leaves that remainder. */
  lemma ModAdd(i: int, j: int, r: int)
    requires i > 0 && j % i == 0 && 0 <= r < i
    ensures (j + r) % i == r
  {
    var q := j / i;
    assert j == i * q;
    var m := (j + r) / i;
    var s := (j + r) % i;
    assert j + r == i * m + s;
    assert i * (m - q) == r - s;
    assert m - q >= 1 ==> i * (m - q) >= i * 1;
    assert m - q <= -1 ==> i * (m - q) <= i * -1;
  }

  lemma NoMultipleBetween(i: int, j: int, k: int)
    requires i > 0 && j % i == 0 && j < k < j + i
    ensures k % i != 0
  {
    ModAdd(i, j, k - j);
  }

  lemma NextMultiple(i: int, j: int)
    requires i > 0 && j % i == 0
    ensures (j + i) % i == 0
  {
    var q := j / i;
    assert j + i == i * (q + 1);
    MulMod(i, q + 1);
  }
}
