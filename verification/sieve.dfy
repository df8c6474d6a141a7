/** `SieveOfEratosthenes`, the incremental prime generator behind the `Sieve` interface:
    it keeps the list of every prime up to the largest one found so far, extends it by
    trial division when a prime beyond the list is asked for, and answers membership,
    index and factorisation queries from the list. */
module SieveOfEratosthenes {
  import opened Wrappers
  import opened SortSpec
  import opened Primes
  import JavaInt
  import BinarySearch

  /** The sieve's state: the `primes` list. */
  datatype Sieve = Sieve(primes: seq<int>)

  /** The largest prime found so far. */
  function Last(s: Sieve): int
    requires |s.primes| > 0
  {
    s.primes[|s.primes| - 1]
  }

  /** The class invariant: the list holds, in increasing order, exactly the primes up to
      its last entry. */
  ghost predicate Valid(s: Sieve) {
    |s.primes| >= 1 && s.primes == PrimesUpTo(Last(s))
  }

  /** The list is sorted by value, which is what the binary searches need. */
  lemma ValidIsSorted(s: Sieve)
    requires Valid(s)
    ensures SortedBetween(s.primes, IntKey, 0, |s.primes|)
    ensures forall a, b :: 0 <= a < b < |s.primes| ==> s.primes[a] < s.primes[b]
  {
    PrimesUpToIncreasing(Last(s));
  }

  /** The constructor: the list starts as `[2]`. */
  function New(): (s: Sieve)
    ensures Valid(s) && Last(s) == 2
  {
    assert PrimesUpTo(2) == [2] by {
      assert IsPrime(2);
    }
    Sieve([2])
  }

  /** The inner loop of `getPrime`: whether some listed prime divides `i` (Java's `%` and
      Dafny's agree on whether the remainder is zero). */
  method HasListedDivisor(primes: seq<int>, i: int) returns (found: bool)
    requires forall k :: 0 <= k < |primes| ==> primes[k] >= 2
    ensures found <==> exists k :: 0 <= k < |primes| && i % primes[k] == 0
  {
    var n := 0;
    while n < |primes|
      invariant 0 <= n <= |primes|
      invariant forall k :: 0 <= k < n ==> i % primes[k] != 0
    {
      if i % primes[n] == 0 {
        return true;
      }
      n := n + 1;
    }
    return false;
  }

  /** `getPrime(p)`: the `p`-th prime, counting 2 as the first. A `p` inside the list is
      answered from it, and `p < 1` fails on the list lookup at `p - 1`. Otherwise trial
      division extends the list until it holds `p + 1` primes. The list only ever grows
      by appending, and the sieve stays valid. */
  method GetPrime(s: Sieve, p: int) returns (r: Result<int>, s': Sieve)
    requires Valid(s)
    ensures Valid(s') && s.primes <= s'.primes
    ensures p < |s.primes| ==> s' == s
    ensures p >= |s.primes| ==> |s'.primes| == p + 1
    ensures r.Err? <==> p < 1
    ensures r.Err? ==> r.error == IndexOutOfBounds(p - 1, |s.primes|)
    ensures r.Ok? ==> r.value == s'.primes[p - 1]
    ensures r.Ok? ==> IsPrime(r.value) && |PrimesUpTo(r.value)| == p
  {
    if p < |s.primes| {
      if p - 1 < 0 {
        return Err(IndexOutOfBounds(p - 1, |s.primes|)), s;
      }
      PrimesUpToAt(Last(s), p - 1);
      return Ok(s.primes[p - 1]), s;
    }
    s' := Extend(s, p);
    PrimesUpToAt(Last(s'), p - 1);
    return Ok(s'.primes[p - 1]), s';
  }

  /** The trial-division loop of `getPrime`: tests each number past the last prime against
      the listed primes and appends it when none divides it, until the list holds `p + 1`
      primes. Euclid's bound on the next prime makes the loop terminate. */
  method Extend(s: Sieve, p: int) returns (s': Sieve)
    requires Valid(s) && p >= |s.primes|
    ensures Valid(s') && s.primes <= s'.primes && |s'.primes| == p + 1
  {
    var primes := s.primes;
    var i := Last(s) + 1;
    ghost var next := NextPrime(Last(s));
    while |primes| <= p
      invariant |primes| <= p + 1 && s.primes <= primes
      invariant i >= 3 && primes == PrimesUpTo(i - 1)
      invariant IsPrime(next) && next >= i
      decreases p + 1 - |primes|, next - i
    {
      assert forall k :: 0 <= k < |primes| ==> primes[k] >= 2;
      var divisible := HasListedDivisor(primes, i);
      PrimeTest(i, primes);
      if !divisible {
        primes := primes + [i];
        next := NextPrime(i);
      } else if i == next {
        assert false;
      }
      i := i + 1;
    }
    s' := Sieve(primes);
    PrimesUpToAt(i - 1, |primes| - 1);
    assert primes[..|primes|] == primes;
  }

  /** `isKnownPrime(prime)`: a binary search of the list. It answers true exactly for the
      primes no larger than the largest one found so far. */
  method IsKnownPrime(s: Sieve, prime: int) returns (b: bool)
    requires Valid(s)
    ensures b <==> prime in s.primes
    ensures b <==> IsPrime(prime) && prime <= Last(s)
  {
    ValidIsSorted(s);
    var found := BinarySearch.Find(Value(prime), s.primes, IntKey);
    b := found.value >= 0;
    PrimesUpToMembers(Last(s), prime);
  }

  /** `getPrimeIndex(prime)`: one more than the binary search's answer. For a listed prime
      that is its position counting 2 as 1, that is the number of primes up to it; for any
      other number it is the negated insertion point, at most 0. */
  method GetPrimeIndex(s: Sieve, prime: int) returns (r: int)
    requires Valid(s)
    ensures prime in s.primes ==> 1 <= r <= |s.primes| && s.primes[r - 1] == prime
    ensures prime in s.primes ==> r == |PrimesUpTo(prime)|
    ensures prime !in s.primes ==> r <= 0 && BinarySearch.InsertionPoint(s.primes, IntKey, prime, -r)
  {
    ValidIsSorted(s);
    var found := BinarySearch.Find(Value(prime), s.primes, IntKey);
    r := 1 + found.value;
    if prime in s.primes {
      PrimesUpToAt(Last(s), r - 1);
    }
  }

  /** `getPrimeIndex` undoes `getPrime`: the index of the `p`-th prime is `p`. */
  method IndexOfNthPrime(s: Sieve, p: int) returns (index: int, s': Sieve)
    requires Valid(s) && p >= 1
    ensures Valid(s') && index == p
  {
    var r;
    r, s' := GetPrime(s, p);
    index := GetPrimeIndex(s', r.value);
  }

  /** The body of `primeFactorize` as written: for each listed prime that divides `n`, the
      prime is added `n / prime` times (Java's truncating division). */
  function FactorsAsWritten(primes: seq<int>, n: int): (r: seq<int>)
    requires forall k :: 0 <= k < |primes| ==> primes[k] >= 2
    ensures forall k :: 0 <= k < |r| ==> r[k] in primes
  {
    if primes == [] then []
    else
      var p := primes[0];
      var copies := if n % p == 0 then Repeat(p, JavaInt.Div(n, p)) else [];
      copies + FactorsAsWritten(primes[1..], n)
  }

  /** As written, too, the factors follow the increasing order of the listed primes. */
  lemma {:induction false} FactorsAsWrittenSorted(primes: seq<int>, n: int)
    requires forall k :: 0 <= k < |primes| ==> primes[k] >= 2
    requires forall a, b :: 0 <= a < b < |primes| ==> primes[a] < primes[b]
    ensures SortedBetween(FactorsAsWritten(primes, n), IntKey, 0, |FactorsAsWritten(primes, n)|)
    decreases |primes|
  {
    if primes != [] {
      var p, rest := primes[0], primes[1..];
      FactorsAsWrittenSorted(rest, n);
      var f := FactorsAsWritten(rest, n);
      assert forall k :: 0 <= k < |f| ==> f[k] > p by {
        assert forall x :: x in rest ==> x > p;
      }
    }
  }

  /** `primeFactorize(n)` as written. */
  function PrimeFactorizeAsWritten(s: Sieve, n: int): (r: seq<int>)
    requires Valid(s)
    ensures forall k :: 0 <= k < |r| ==> r[k] in s.primes
    ensures SortedBetween(r, IntKey, 0, |r|)
  {
    ValidIsSorted(s);
    FactorsAsWrittenSorted(s.primes, n);
    FactorsAsWritten(s.primes, n)
  }

  /** A prime divides no other prime. */
  lemma PrimeNotDivisible(p: int, q: int)
    requires IsPrime(p) && IsPrime(q) && p != q
    ensures q % p != 0
  {
    if p > q {
      assert q % p == q;
    }
  }

  /** As written, a prime `q` over a list of distinct primes gives `[q]` when it is listed
      (it is added `q / q` times, and no other listed prime divides it) and nothing
      otherwise. */
  lemma {:induction false} FactorsAsWrittenOfPrime(primes: seq<int>, q: int)
    requires IsPrime(q) && forall k :: 0 <= k < |primes| ==> primes[k] >= 2 && IsPrime(primes[k])
    requires forall a, b :: 0 <= a < b < |primes| ==> primes[a] < primes[b]
    ensures FactorsAsWritten(primes, q) == if q in primes then [q] else []
    decreases |primes|
  {
    if primes != [] {
      var p, rest := primes[0], primes[1..];
      FactorsAsWrittenOfPrime(rest, q);
      assert q in primes <==> q == p || q in rest;
      if p == q {
        assert q !in rest;
        assert JavaInt.Div(q, q) == 1 && Repeat(q, 1) == [q];
      } else {
        PrimeNotDivisible(p, q);
      }
    }
  }

  /** The sieve that `getPrime(2)` leaves behind lists 2, 3 and 5. */
  lemma FirstThreePrimes()
    ensures Valid(Sieve([2, 3, 5]))
  {
    assert IsPrime(2) && IsPrime(3) && IsPrime(5);
    assert !IsPrime(4) by {
      assert 4 % 2 == 0;
    }
    assert PrimesUpTo(5) == [2, 3, 5];
  }

  /** As written, 6 "factorises" as [2, 2, 2, 3, 3], whose product is 72: the prime 2 is
      emitted 6 / 2 = 3 times and 3 is emitted twice, although each divides 6 once. */
  lemma SixFactorsAsWritten()
    ensures Valid(Sieve([2, 3, 5]))
    ensures PrimeFactorizeAsWritten(Sieve([2, 3, 5]), 6) == [2, 2, 2, 3, 3]
    ensures Product(PrimeFactorizeAsWritten(Sieve([2, 3, 5]), 6)) == 72
  {
    FirstThreePrimes();
    FactorsAsWrittenOfSix([2, 3, 5], [3, 5]);
    ProductSeventyTwo();
  }

  /** The loop as written on 6, one listed prime at a time: 2 is listed `6 / 2` times. */
  lemma FactorsAsWrittenOfSix(ps: seq<int>, qs: seq<int>)
    requires ps == [2, 3, 5] && qs == [3, 5]
    ensures FactorsAsWritten(ps, 6) == [2, 2, 2, 3, 3]
  {
    assert ps[1..] == qs;
    FactorsAsWrittenOfSixFrom3(qs, [5]);
    assert Repeat(2, 3) == [2, 2, 2];
  }

  /** 3 is listed `6 / 3` times, and 5 not at all. */
  lemma FactorsAsWrittenOfSixFrom3(qs: seq<int>, rs: seq<int>)
    requires qs == [3, 5] && rs == [5]
    ensures FactorsAsWritten(qs, 6) == [3, 3]
  {
    assert qs[1..] == rs && rs[1..] == [];
    assert FactorsAsWritten(rs, 6) == [];
    assert Repeat(3, 2) == [3, 3];
  }

  /** 2 * 2 * 2 * 3 * 3 is 72. */
  lemma ProductSeventyTwo()
    ensures Product([2, 2, 2, 3, 3]) == 72
  {
    ProductAppend([2, 2, 2], [3, 3]);
    assert [2, 2, 2] + [3, 3] == [2, 2, 2, 3, 3];
    assert Product([2, 2, 2]) == 8 by {
      ProductRepeat(2, 3);
      assert Repeat(2, 3) == [2, 2, 2];
    }
    assert Product([3, 3]) == 9 by {
      ProductRepeat(3, 2);
      assert Repeat(3, 2) == [3, 3];
    }
  }


  /** The factorisation the documentation describes: each listed prime as many times as it
      divides what is left of `n`. */
  function Factors(primes: seq<int>, n: int): (r: seq<int>)
    requires n >= 1 && forall k :: 0 <= k < |primes| ==> primes[k] >= 2
    ensures forall k :: 0 <= k < |r| ==> r[k] in primes
  {
    if primes == [] then []
    else
      var p := primes[0];
      Repeat(p, Multiplicity(n, p)) + Factors(primes[1..], StripFactor(n, p))
  }

  /** What is left of `n` once every listed prime is divided out. */
  function Cofactor(primes: seq<int>, n: int): int
    requires n >= 1 && forall k :: 0 <= k < |primes| ==> primes[k] >= 2
  {
    if primes == [] then n else Cofactor(primes[1..], StripFactor(n, primes[0]))
  }

  /** The factors times the cofactor give back `n`. */
  lemma {:induction false} FactorsTimesCofactor(primes: seq<int>, n: int)
    requires n >= 1 && forall k :: 0 <= k < |primes| ==> primes[k] >= 2
    ensures Product(Factors(primes, n)) * Cofactor(primes, n) == n
    decreases |primes|
  {
    if primes != [] {
      var p, rest := primes[0], primes[1..];
      var m, stripped := Multiplicity(n, p), StripFactor(n, p);
      StripFactorSpec(n, p);
      FactorsTimesCofactor(rest, stripped);
      var f, c := Factors(rest, stripped), Cofactor(rest, stripped);
      assert Factors(primes, n) == Repeat(p, m) + f && Cofactor(primes, n) == c;
      assert Product(Repeat(p, m) + f) == Pow(p, m) * Product(f) by {
        ProductAppend(Repeat(p, m), f);
        ProductRepeat(p, m);
      }
      MulAssoc(Pow(p, m), Product(f), c);
    }
  }

  /** The cofactor is positive and no listed prime divides it. */
  lemma {:induction false} CofactorCoprime(primes: seq<int>, n: int)
    requires n >= 1 && forall k :: 0 <= k < |primes| ==> primes[k] >= 2
    ensures 1 <= Cofactor(primes, n) <= n
    ensures forall k :: 0 <= k < |primes| ==> Cofactor(primes, n) % primes[k] != 0
    decreases |primes|
  {
    if primes != [] {
      var p, rest := primes[0], primes[1..];
      var stripped := StripFactor(n, p);
      CofactorCoprime(rest, stripped);
      var c := Cofactor(rest, stripped);
      assert c % p != 0 by {
        StripFactorSpec(n, p);
        FactorsTimesCofactor(rest, stripped);
        if c % p == 0 {
          DividesProduct(p, c, Product(Factors(rest, stripped)));
        }
      }
      assert forall k :: 0 < k < |primes| ==> primes[k] == rest[k - 1];
    }
  }

  /** The listed primes in increasing order give factors in increasing order. */
  lemma {:induction false} FactorsSorted(primes: seq<int>, n: int)
    requires n >= 1 && forall k :: 0 <= k < |primes| ==> primes[k] >= 2
    requires forall a, b :: 0 <= a < b < |primes| ==> primes[a] < primes[b]
    ensures SortedBetween(Factors(primes, n), IntKey, 0, |Factors(primes, n)|)
    decreases |primes|
  {
    if primes != [] {
      var p, rest := primes[0], primes[1..];
      FactorsSorted(rest, StripFactor(n, p));
      var f := Factors(rest, StripFactor(n, p));
      assert forall k :: 0 <= k < |f| ==> f[k] > p by {
        assert forall x :: x in rest ==> x > p;
      }
    }
  }

  /** `primeFactorize(n)` as documented: no factors for `n < 1` (as the code also gives),
      otherwise the listed primes with their multiplicities. */
  function PrimeFactorize(s: Sieve, n: int): (r: seq<int>)
    requires Valid(s)
    ensures forall k :: 0 <= k < |r| ==> r[k] in s.primes
  {
    if n < 1 then [] else Factors(s.primes, n)
  }

  /** The documented promise: the factors come in increasing order, their product is at
      most `n` and divides it, and it equals `n` when every prime of `n` is known, in
      particular when `n` is no larger than the largest known prime. */
  lemma PrimeFactorizeSpec(s: Sieve, n: int)
    requires Valid(s) && n >= 1
    ensures SortedBetween(PrimeFactorize(s, n), IntKey, 0, |PrimeFactorize(s, n)|)
    ensures Product(PrimeFactorize(s, n)) * Cofactor(s.primes, n) == n
    ensures 1 <= Product(PrimeFactorize(s, n)) <= n
    ensures n <= Last(s) ==> Product(PrimeFactorize(s, n)) == n
  {
    ValidIsSorted(s);
    FactorsSorted(s.primes, n);
    FactorsTimesCofactor(s.primes, n);
    CofactorCoprime(s.primes, n);
    var f, c := Factors(s.primes, n), Cofactor(s.primes, n);
    assert Product(f) >= 1;
    MulAtLeast(Product(f), c);
    if n <= Last(s) {
      KnownPrimesLeaveNoCofactor(s, n);
    }
  }

  /** When `n` is no larger than the largest known prime, every prime dividing it is
      listed, so nothing is left over. */
  lemma KnownPrimesLeaveNoCofactor(s: Sieve, n: int)
    requires Valid(s) && 1 <= n <= Last(s)
    ensures Cofactor(s.primes, n) == 1
  {
    CofactorCoprime(s.primes, n);
    var c := Cofactor(s.primes, n);
    if c >= 2 {
      var q := PrimeDivisor(c);
      PrimeListed(Last(s), q);
      assert false;
    }
  }

  /** No listed prime divides 1, so it has no factors. */
  lemma {:induction false} FactorsOfOne(primes: seq<int>)
    requires forall k :: 0 <= k < |primes| ==> primes[k] >= 2
    ensures Factors(primes, 1) == []
    decreases |primes|
  {
    if primes != [] {
      assert 1 % primes[0] == 1;
      FactorsOfOne(primes[1..]);
    }
  }

  /** As documented, a prime `q` over a list of distinct primes gives `[q]` when it is
      listed and nothing otherwise. */
  lemma {:induction false} FactorsOfPrime(primes: seq<int>, q: int)
    requires IsPrime(q) && forall k :: 0 <= k < |primes| ==> primes[k] >= 2 && IsPrime(primes[k])
    requires forall a, b :: 0 <= a < b < |primes| ==> primes[a] < primes[b]
    ensures Factors(primes, q) == if q in primes then [q] else []
    decreases |primes|
  {
    if primes != [] {
      var p, rest := primes[0], primes[1..];
      assert q in primes <==> q == p || q in rest;
      if p == q {
        assert q !in rest;
        assert 1 % q == 1;
        assert Multiplicity(q, q) == 1 && StripFactor(q, q) == 1;
        FactorsOfOne(rest);
        assert Repeat(q, 1) == [q];
      } else {
        PrimeNotDivisible(p, q);
        assert Multiplicity(q, p) == 0 && StripFactor(q, p) == q;
        FactorsOfPrime(rest, q);
      }
    }
  }

  /** A known prime factorises as itself, both as written and as documented: the single
      factor `q` is added `q / q` times by the code, and has multiplicity one. */
  lemma KnownPrimeFactors(s: Sieve, q: int)
    requires Valid(s) && q in s.primes
    ensures PrimeFactorizeAsWritten(s, q) == [q]
    ensures PrimeFactorize(s, q) == [q]
  {
    PrimesUpToMembers(Last(s), q);
    ValidIsSorted(s);
    FactorsAsWrittenOfPrime(s.primes, q);
    FactorsOfPrime(s.primes, q);
  }

  /** With the factorisation as documented, 6 is 2 times 3. */
  lemma SixFactors()
    ensures Valid(Sieve([2, 3, 5]))
    ensures PrimeFactorize(Sieve([2, 3, 5]), 6) == [2, 3]
  {
    FirstThreePrimes();
    assert Multiplicity(3, 2) == 0 && StripFactor(3, 2) == 3;
    assert Multiplicity(6, 2) == 1 && StripFactor(6, 2) == 3;
    assert Multiplicity(1, 3) == 0 && StripFactor(1, 3) == 1;
    assert Multiplicity(3, 3) == 1 && StripFactor(3, 3) == 1;
    assert Multiplicity(1, 5) == 0;
    assert Factors([5], 1) == [];
    assert [2, 3, 5][1..] == [3, 5] && [3, 5][1..] == [5];
    assert Repeat(2, 1) == [2] && Repeat(3, 1) == [3];
  }
}
