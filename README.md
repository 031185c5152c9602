# Incremental Sieve of Eratosthenes, modelled and proved in Dafny

This project models the prime engine of `go/pkg/sieve/sieve.go`. The engine answers
`NthPrime(num)`: the prime of rank `num`, counting from 0, so rank 0 is 2. It keeps
two pieces of state between queries:

- `marked`, a growable bitset. A set bit `i` means `i` is still a prime candidate.
- `largestUpperBound`, the frontier: how far `marked` has been sieved. It is 0 on a
  fresh engine.

Each query goes through four steps:

1. It picks an upper bound: 6 for ranks up to 1, and an estimate for larger ranks.
2. It prepares the bitset. A fresh engine sets every bit. An engine that has run
   before and gets a larger bound sets the odd bits from the old frontier up to
   the new bound.
3. It clears the multiples of every base below the ceiling of the square root of
   the bound, for each base whose bit is still set. Clearing starts at
   `max(i*i, (oldFrontier/i)*i)` and stops before the bound.
4. It stores the bound as the new frontier. Then it collects the set indices in
   `[2, frontier)` in ascending order and returns entry `num` of that list. An
   index outside the list is a panic in Go.

The modules:

- `Bitset` (`bitset.dfy`) gives the meaning of the bitset calls the engine makes
  (`New`, `SetAll`, `Set`, `Clear`, `Test`), on a `seq<bool>`. Setting a bit past
  the end grows the bitset, and the positions it gains start cleared. Testing or
  clearing past the end reads false or does nothing.
- `Primes` (`primes.dfy`) is the number theory the engine is proved against:
  - `IsPrime`, by trial division up to the square root, with a lemma equating it
    to the textbook definition;
  - `PrimesBelow(n)`, the ascending list of primes below `n`;
  - the result type `Outcome` (`Ok(p)` or `IndexOutOfRange`);
  - lemmas that entry `num` of that list is the prime of rank `num`.
- `IncrementalSieve` (`sieve.dfy`) holds the engine. It is a class `Sieve` with the
  two fields in place. Each step of `NthPrime` is a method that loops as the Go code
  loops. The object invariant `Valid()` says that below the frontier the set bits
  are exactly the primes.
- `SieveTest` (`sieve_test.dfy`) models ranks 0 and 19 of the Go test
  (`sieve_test.go:13-14`) on one engine. It then asks for ranks 1, 0 and -1, which
  exercise the falling frontier and the out-of-range index. Its answers follow from
  the engine's contracts alone.

Two inputs are parameters instead of being computed:

- The estimated bound for ranks above 1 is the parameter `rosserBound` of
  `NthPrime`. The Go code computes it with float64 logarithms, and
  `num > 1 ==> rosserBound >= 6` is all the proofs need. The Go expression is
  11 at rank 2 and grows from there.
- The ceiling of the square root is the exact integer `CeilSqrt`.

## Model

| member | source | states |
|---|---|---|
| `IncrementalSieve.Sieve.constructor` | go/pkg/sieve/sieve.go:21-27 | A fresh engine has an empty bitset and frontier 0, and satisfies the object invariant. |
| `IncrementalSieve.Sieve.NthPrime` | go/pkg/sieve/sieve.go:64-119 | Keeps the invariant: afterwards the bits below the new frontier are exactly the primes. The frontier becomes the call's bound (6 for `num <= 1`), even when that is smaller than before. The answer is entry `num` of the primes below the bound, or `IndexOutOfRange` for a negative or too-large rank. A returned value is prime, below the bound, and has exactly `num` smaller primes. Any prime below the bound with `num` smaller primes is what gets returned. On a fresh engine the bitset ends with bound+1 bits. A bound at or below the old frontier leaves the bitset unchanged. |
| `IncrementalSieve.Sieve.SetAllCandidates` | go/pkg/sieve/sieve.go:72-79 | On the first query the bitset has `upperBound + 1` bits (at least 3, because setting bit 2 grows a shorter bitset). Every bit from 0 to the bound is set, and so is bit 2. |
| `IncrementalSieve.Sieve.ExtendCandidates` | go/pkg/sieve/sieve.go:80-91 | With a larger bound and a nonzero frontier, exactly the odd indices from the old frontier through the bound become set. Every other existing bit keeps its value, and even positions added by growth are cleared. The new length is the larger of the old length and the last odd index at most the bound, plus one. |
| `IncrementalSieve.Sieve.MarkComposites` | go/pkg/sieve/sieve.go:93-105 | Starting from the prepared candidates, it only clears bits and never changes the length. Every bit it clears is that of a number below the bound which some base crosses off (a multiple `k` of `d` with `d*d <= k`). Afterwards the bits below the bound are exactly the primes. |
| `IncrementalSieve.Sieve.CrossOffMultiples` | go/pkg/sieve/sieve.go:101-103 | Clears exactly the bits of the multiples of `i` in `[start, upperBound)`, and leaves every other bit and the length as they were. |
| `IncrementalSieve.Sieve.GeneratePrimes` | go/pkg/sieve/sieve.go:121-131 | The result is strictly increasing and holds exactly the indices `x` with `2 <= x < largestUpperBound` whose bit is set. Indices 0 and 1 and the frontier itself never appear. |
| `IncrementalSieve.CeilSqrt` | go/pkg/sieve/sieve.go:95 | The least `r` with `upperBound <= r*r`, and never more than the bound. |
| `IncrementalSieve.MultiplesStart` | go/pkg/sieve/sieve.go:100 | A multiple of `i`, at least `i*i`. When `i*i` is at or below the old frontier, it is the largest multiple of `i` at or below that frontier, so clearing picks up where the previous sieve stopped. Otherwise it is `i*i`. Together these fix the value as `max(i*i, (frontier/i)*i)`. |
| `IncrementalSieve.ColdStartCandidates` | go/pkg/sieve/sieve.go:72-79 | After the first query's initialisation, the marking pass may start from frontier 0: bit 2 and every odd bit below the bound are set. |
| `IncrementalSieve.ExtensionCandidates` | go/pkg/sieve/sieve.go:80-91 | After an extension, the bitset is still sieved below the old frontier, bit 2 is set, and every odd index from the old frontier to the bound is set. |
| `IncrementalSieve.SievedBelowShrinks` | go/pkg/sieve/sieve.go:80 | When the bound does not exceed the frontier, no initialisation runs, and the bitset already meets the marking pass's precondition. |
| `IncrementalSieve.NoOpKeepsBits` | go/pkg/sieve/sieve.go:96-104 | When the bound does not exceed the old frontier, the marking pass changes no bit. Everything it may clear is composite and already clear. |
| `IncrementalSieve.PrimeBitKept` | go/pkg/sieve/sieve.go:97-103 | The marking pass never clears the bit of a prime below the bound. |
| `IncrementalSieve.CrossOffStep` | go/pkg/sieve/sieve.go:97-104 | Crossing off from `max(i*i, (F/i)*i)` is enough. Multiples of `i` below that start are below the old frontier, so they are composite and already clear. After base `i`, everything a base up to `i` crosses off is clear. |
| `IncrementalSieve.SkipStep` | go/pkg/sieve/sieve.go:96-97 | Skipping a base whose bit is clear loses nothing. That base is composite, and everything it would cross off has already been crossed off by a smaller factor. |
| `IncrementalSieve.SievedAtEnd` | go/pkg/sieve/sieve.go:93-96 | Bases below the ceiling of the square root suffice. Once they are done, the bits below the bound are exactly the primes. |
| `Bitset.Test` | go/pkg/sieve/sieve.go:97 | Reads bit `i`, the guard of the base loop here and of the collection at line 125. An index below 0 or at or past the length reads as cleared. |
| `Bitset.New` | go/pkg/sieve/sieve.go:73 | A bitset of the requested length with every bit cleared. |
| `Bitset.SetAll` | go/pkg/sieve/sieve.go:74 | Same length, and exactly the bits below the length are set. |
| `Bitset.Set` | go/pkg/sieve/sieve.go:89 | Bit `i` is set and no other bit changes. The length grows to `i + 1` when it was shorter, and the other added positions read as cleared. |
| `Bitset.Clear` | go/pkg/sieve/sieve.go:102 | Bit `i` is cleared, no other bit or the length changes, and an index past the end leaves the bitset unchanged. |
| `Primes.IsPrimeIff` | go/pkg/sieve/sieve.go:38-50 | Trial division up to the square root is primality: `n >= 2` and no `d` in `[2, n)` divides `n`. |
| `Primes.StruckIsComposite` | go/pkg/sieve/sieve.go:45-48 | A multiple of a base `d >= 2` at or above `d*d` is not prime. |
| `Primes.CompositeIsStruck` | go/pkg/sieve/sieve.go:45-48 | A composite `n >= 2` has a factor `f >= 2` with `f*f <= n`. |
| `Primes.StruckTransitive` | go/pkg/sieve/sieve.go:96-97 | What a composite base would cross off, the factor that crossed that base off also crosses off. |
| `Primes.PrimesBelowSpec` | go/pkg/sieve/sieve.go:50 | The reference list of primes below `n` is strictly increasing, and holds exactly the primes below `n`. |
| `Primes.SameMembersEqual` | go/pkg/sieve/sieve.go:121-131 | Two strictly increasing sequences with the same elements are equal. This ties the collected list to the reference list. |
| `Primes.At` | go/pkg/sieve/sieve.go:118 | Indexing the collected primes: `Ok` exactly when `num` is at least 0 and below the list's length, and then the value is entry `num`. A negative or too-large rank, a panic in Go, is `IndexOutOfRange`. |
| `Primes.AtIsNthPrime` | go/pkg/sieve/sieve.go:118 | Entry `num` of the primes below `n` is prime and below `n`, with exactly `num` smaller primes. |
| `Primes.NthPrimeIsAt` | go/pkg/sieve/sieve.go:118 | Conversely, a prime below `n` with `num` smaller primes is entry `num` of the primes below `n`. |
| `Primes.CountMonotone` | go/pkg/sieve/sieve_test.go:13-18 | There are no fewer primes below a larger bound. |
| `Primes.RankDeterminesPrime` | go/pkg/sieve/sieve_test.go:13-18 | Among primes, fewer smaller primes means a smaller or equal prime, and the same count means the same prime. |
| `Primes.AnswersOrdered` | go/pkg/sieve/sieve_test.go:13-18 | Answers for any two bounds agree. A smaller rank gives a strictly smaller prime, and equal ranks give the same prime. So answers do not depend on the order of queries or on the engine's history. |
| `SieveTest.PrimesBelowSix` | go/pkg/sieve/sieve.go:66 | The primes below the constant bound 6 are 2, 3 and 5. |
| `SieveTest.PrimeCount71` | go/pkg/sieve/sieve_test.go:14 | Nineteen primes lie below 71. |
| `SieveTest.QuerySequence` | go/pkg/sieve/sieve_test.go:10-18 | On one fresh engine, ranks 0, 19, 1, 0 and -1 return 2, 71, 3, 2 and the out-of-range panic. The estimate at `sieve.go:69` is 90 for rank 19. The frontiers after the calls are 6, 90, 6, 6, 6. |

## Left out

- The bound estimate for ranks above 1 (`go/pkg/sieve/sieve.go:65-70`) uses float64 `Log` and `Ceil`. It is the parameter `rosserBound` with `num > 1 ==> rosserBound >= 6`. That it always lies above the prime of the requested rank (Rosser's theorem) is not proved. The answer is correct for whatever bound is given, and `IndexOutOfRange` when the bound is too small.
- The float `math.Sqrt`, `math.Ceil` and `math.Max` at `sieve.go:95` and `sieve.go:100` are replaced by exact integers. Rounding of float64 above 2^53 is not modelled.
- The `int64` and `uint` conversions and their overflow at extreme ranks are not modelled. Integers are unbounded.
- The Go panic on `primes[num]` (`sieve.go:118`) is the value `IndexOutOfRange`, not an abort of the caller.
- `Debug`, the `DEBUG_ME` environment variable and `spew.Dump` (`sieve.go:15-19`, `sieve.go:110-116`) are I/O with no effect on results, so they are not modelled.
- The `Sieve` interface (`sieve.go:11-13`) is a Go indirection. The class is called directly.
- The bitset library's word layout and `cleanLastWord` are replaced by a sequence of bits.
- The test expectations at ranks 99, 500, 986 and 2000 (`sieve_test.go:15-18`) are not proved. They need the prime count below hundreds to thousands of numbers, evaluated by the verifier, and that is too costly. Only ranks 0, 1 and 19 are proved as concrete answers.
- The test ranks 1,000,000, 10,000,000 and 100,000,000 (`sieve_test.go:20-22`) are memory and time scale checks, so they are not modelled.
- The fuzz test and `big.ProbablyPrime` (`sieve_test.go:25-37`) appear only as the proved property that every returned value is prime.
- Concurrency is not modelled. The engine is single-threaded and not safe to share.

## Where the code departs from its own comments

- The frontier is not monotonic. The field comment at `sieve.go:33-34` says `largestUpperBound` tracks the largest size marked so far. But line 107 overwrites it with each call's bound, so a small query after a large one lowers it (see `SieveTest.QuerySequence`). The next larger query then re-sets and re-sieves bits that were already final. This costs work but not correctness.
- The comment at `sieve.go:75` says only the odds and 2 are marked. But `SetAll` at line 74 has already set every bit, including 0, 1 and the even indices. The evens are cleared by base 2 in the marking pass. Indices 0 and 1 stay set and are skipped by the collection, which starts at 2.
- The comment at `sieve.go:81-82` says only the delta between the old and new bounds is marked. The loop at lines 83-90 starts at the old frontier itself when it is odd. It grows the bitset only to the last odd index at most the bound, plus one, not always to bound + 1. An even index just at or past the old frontier may hold a stale bit. Base 2 always clears it, because its marking starts within one step of the old frontier.
- The comment at `sieve.go:98-99` says marking picks up from the tail end of the previous bound. It restarts at the largest multiple of the base at or below the old frontier, `(F/i)*i`. The `Ceil` at line 100 acts on an integer quotient and has no effect. So at most one multiple below the frontier is cleared again.
- When the bound does not exceed the frontier, the marking pass at lines 96-105 still runs. It only touches bits that are already clear, and `NthPrime` proves the bitset is unchanged in that case.
