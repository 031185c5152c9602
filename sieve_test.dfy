/** Ranks 0 and 19 of go/pkg/sieve/sieve_test.go:13-14 on one engine, then ranks 1,
    0 and -1, which exercise the falling frontier and the out-of-range index. The
    answers are derived from the contracts of the engine alone. */
module SieveTest {
  import opened Primes
  import opened IncrementalSieve

  lemma PrimesBelowSix()
    ensures PrimesBelow(6) == [2, 3, 5]
  {
  }

  /** 9 primes lie below 24. */
  lemma PrimeCount24()
    ensures |PrimesBelow(24)| == 9
  {
    PrimesBelowSix();
    assert !IsPrime(6);
    assert |PrimesBelow(7)| == 3;
    assert IsPrime(7);
    assert |PrimesBelow(8)| == 4;
    assert !IsPrime(8);
    assert |PrimesBelow(9)| == 4;
    assert !IsPrime(9);
    assert |PrimesBelow(10)| == 4;
    assert !IsPrime(10);
    assert |PrimesBelow(11)| == 4;
    assert IsPrime(11);
    assert |PrimesBelow(12)| == 5;
    assert !IsPrime(12);
    assert |PrimesBelow(13)| == 5;
    assert IsPrime(13);
    assert |PrimesBelow(14)| == 6;
    assert !IsPrime(14);
    assert |PrimesBelow(15)| == 6;
    assert !IsPrime(15);
    assert |PrimesBelow(16)| == 6;
    assert !IsPrime(16);
    assert |PrimesBelow(17)| == 6;
    assert IsPrime(17);
    assert |PrimesBelow(18)| == 7;
    assert !IsPrime(18);
    assert |PrimesBelow(19)| == 7;
    assert IsPrime(19);
    assert |PrimesBelow(20)| == 8;
    assert !IsPrime(20);
    assert |PrimesBelow(21)| == 8;
    assert !IsPrime(21);
    assert |PrimesBelow(22)| == 8;
    assert !IsPrime(22);
    assert |PrimesBelow(23)| == 8;
    assert IsPrime(23);
  }

  /** 13 primes lie below 42. */
  lemma PrimeCount42()
    ensures |PrimesBelow(42)| == 13
  {
    PrimeCount24();
    assert !IsPrime(24);
    assert |PrimesBelow(25)| == 9;
    assert !IsPrime(25);
    assert |PrimesBelow(26)| == 9;
    assert !IsPrime(26);
    assert |PrimesBelow(27)| == 9;
    assert !IsPrime(27);
    assert |PrimesBelow(28)| == 9;
    assert !IsPrime(28);
    assert |PrimesBelow(29)| == 9;
    assert IsPrime(29);
    assert |PrimesBelow(30)| == 10;
    assert !IsPrime(30);
    assert |PrimesBelow(31)| == 10;
    assert IsPrime(31);
    assert |PrimesBelow(32)| == 11;
    assert !IsPrime(32);
    assert |PrimesBelow(33)| == 11;
    assert !IsPrime(33);
    assert |PrimesBelow(34)| == 11;
    assert !IsPrime(34);
    assert |PrimesBelow(35)| == 11;
    assert !IsPrime(35);
    assert |PrimesBelow(36)| == 11;
    assert !IsPrime(36);
    assert |PrimesBelow(37)| == 11;
    assert IsPrime(37);
    assert |PrimesBelow(38)| == 12;
    assert !IsPrime(38);
    assert |PrimesBelow(39)| == 12;
    assert !IsPrime(39);
    assert |PrimesBelow(40)| == 12;
    assert !IsPrime(40);
    assert |PrimesBelow(41)| == 12;
    assert IsPrime(41);
  }

  /** 17 primes lie below 60. */
  lemma PrimeCount60()
    ensures |PrimesBelow(60)| == 17
  {
    PrimeCount42();
    assert !IsPrime(42);
    assert |PrimesBelow(43)| == 13;
    assert IsPrime(43);
    assert |PrimesBelow(44)| == 14;
    assert !IsPrime(44);
    assert |PrimesBelow(45)| == 14;
    assert !IsPrime(45);
    assert |PrimesBelow(46)| == 14;
    assert !IsPrime(46);
    assert |PrimesBelow(47)| == 14;
    assert IsPrime(47);
    assert |PrimesBelow(48)| == 15;
    assert !IsPrime(48);
    assert |PrimesBelow(49)| == 15;
    assert !IsPrime(49);
    assert |PrimesBelow(50)| == 15;
    assert !IsPrime(50);
    assert |PrimesBelow(51)| == 15;
    assert !IsPrime(51);
    assert |PrimesBelow(52)| == 15;
    assert !IsPrime(52);
    assert |PrimesBelow(53)| == 15;
    assert IsPrime(53);
    assert |PrimesBelow(54)| == 16;
    assert !IsPrime(54);
    assert |PrimesBelow(55)| == 16;
    assert !IsPrime(55);
    assert |PrimesBelow(56)| == 16;
    assert !IsPrime(56);
    assert |PrimesBelow(57)| == 16;
    assert !IsPrime(57);
    assert |PrimesBelow(58)| == 16;
    assert !IsPrime(58);
    assert |PrimesBelow(59)| == 16;
    assert IsPrime(59);
  }

  /** 19 primes lie below 71. */
  lemma PrimeCount71()
    ensures |PrimesBelow(71)| == 19
  {
    PrimeCount60();
    assert !IsPrime(60);
    assert |PrimesBelow(61)| == 17;
    assert IsPrime(61);
    assert |PrimesBelow(62)| == 18;
    assert !IsPrime(62);
    assert |PrimesBelow(63)| == 18;
    assert !IsPrime(63);
    assert |PrimesBelow(64)| == 18;
    assert !IsPrime(64);
    assert |PrimesBelow(65)| == 18;
    assert !IsPrime(65);
    assert |PrimesBelow(66)| == 18;
    assert !IsPrime(66);
    assert |PrimesBelow(67)| == 18;
    assert IsPrime(67);
    assert |PrimesBelow(68)| == 19;
    assert !IsPrime(68);
    assert |PrimesBelow(69)| == 19;
    assert !IsPrime(69);
    assert |PrimesBelow(70)| == 19;
    assert !IsPrime(70);
  }

  /** Ranks 0 and 19 on a fresh engine (the rank-19 estimate of the bound is 90),
      then ranks 1 and 0 again and a negative rank. The frontier follows each call's
      bound, so it drops back from 90 to 6. */
  method QuerySequence() returns (answers: seq<Outcome>, frontiers: seq<nat>)
    ensures answers == [Ok(2), Ok(71), Ok(3), Ok(2), IndexOutOfRange]
    ensures frontiers == [6, 90, 6, 6, 6]
  {
    var s := new Sieve();
    PrimesBelowSix();
    PrimeCount71();
    assert IsPrime(71);
    NthPrimeIsAt(90, 19, 71);
    var a0 := s.NthPrime(0, 0);
    var f0 := s.largestUpperBound;
    var a1 := s.NthPrime(19, 90);
    var f1 := s.largestUpperBound;
    var a2 := s.NthPrime(1, 0);
    var f2 := s.largestUpperBound;
    var a3 := s.NthPrime(0, 0);
    var f3 := s.largestUpperBound;
    var a4 := s.NthPrime(-1, 0);
    var f4 := s.largestUpperBound;
    answers := [a0, a1, a2, a3, a4];
    frontiers := [f0, f1, f2, f3, f4];
  }
}
