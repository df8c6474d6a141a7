/** The number theory the sieve relies on: primality, the increasing list of primes up to
    a bound, a prime divisor of every number above one, and Euclid's bound on the next
    prime. */
module Primes {

  /** `n` is a prime: at least 2 and divisible by no number strictly between 1 and `n`. */
  predicate IsPrime(n: int) {
    n >= 2 && forall d :: 2 <= d < n ==> n % d != 0
  }

  /** A multiple of a multiple of `a` is a multiple of `a`. */
  lemma DividesTrans(a: int, b: int, c: int)
    requires a > 0 && b > 0 && b % a == 0 && c % b == 0
    ensures c % a == 0
  {
    var x, y := b / a, c / b;
    assert b == a * x;
    assert c == b * y;
    assert c == a * (x * y);
    MultipleMod(a, x * y);
  }

  /** A positive multiple of a positive number is at least that number. */
  lemma MulAtLeast(a: int, t: int)
    requires a > 0 && t >= 1
    ensures a * t >= a
  {
  }

  /** `a * y` leaves no remainder when divided by `a`. */
  lemma MultipleMod(a: int, y: int)
    requires a > 0
    ensures (a * y) % a == 0
  {
    var q, r := (a * y) / a, (a * y) % a;
    assert a * y == a * q + r;
    assert a * (y - q) == r;
    if y - q >= 1 {
      MulAtLeast(a, y - q);
    } else if y - q <= -1 {
      MulAtLeast(a, q - y);
    }
  }

  /** Every number from 2 on has a prime divisor no larger than itself. */
  lemma {:induction false} PrimeDivisor(n: int) returns (q: int)
    requires n >= 2
    ensures IsPrime(q) && q <= n && n % q == 0
    decreases n
  {
    if IsPrime(n) {
      q := n;
    } else {
      var d :| 2 <= d < n && n % d == 0;
      q := PrimeDivisor(d);
      DividesTrans(q, d, n);
    }
  }

  /** `n!`. */
  function Fact(n: nat): (r: nat)
    ensures r >= 1
  {
    if n == 0 then 1 else n * Fact(n - 1)
  }

  /** Every number from 1 to `n` divides `n!`. */
  lemma {:induction false} FactDivisible(n: nat, k: int)
    requires 1 <= k <= n
    ensures Fact(n) % k == 0
  {
    if k == n {
      MultipleMod(n, Fact(n - 1));
    } else {
      FactDivisible(n - 1, k);
      var c := Fact(n - 1) / k;
      assert Fact(n - 1) == k * c;
      assert Fact(n) == k * (n * c);
      MultipleMod(k, n * c);
    }
  }

  /** No number from 2 on divides two consecutive numbers. */
  lemma NoCommonDivisorOfSuccessor(x: int, q: int)
    requires q >= 2 && x % q == 0
    ensures (x + 1) % q != 0
  {
    var a := x / q;
    assert x == q * a;
    if (x + 1) % q == 0 {
      var b := (x + 1) / q;
      assert q * (b - a) == 1;
      if b - a >= 1 {
        MulAtLeast(q, b - a);
      } else if b - a <= -1 {
        MulAtLeast(q, a - b);
      }
    }
  }

  /** Euclid: beyond every `n` there is a prime, and one no larger than `n! + 1`. */
  lemma NextPrime(n: nat) returns (q: int)
    ensures IsPrime(q) && n < q <= Fact(n) + 1
  {
    q := PrimeDivisor(Fact(n) + 1);
    if q <= n {
      FactDivisible(n, q);
      NoCommonDivisorOfSuccessor(Fact(n), q);
    }
  }

  /** The primes up to `n`, in increasing order. */
  ghost function PrimesUpTo(n: int): (r: seq<int>)
    ensures forall k :: 0 <= k < |r| ==> IsPrime(r[k]) && r[k] <= n
    decreases n
  {
    if n < 2 then [] else PrimesUpTo(n - 1) + (if IsPrime(n) then [n] else [])
  }

  /** `q` is listed exactly when it is a prime no larger than `n`. */
  lemma {:induction false} PrimesUpToMembers(n: int, q: int)
    ensures q in PrimesUpTo(n) <==> IsPrime(q) && q <= n
    decreases n
  {
    if n >= 2 {
      PrimesUpToMembers(n - 1, q);
    }
  }

  /** Every prime up to `n` is listed. */
  lemma PrimeListed(n: int, q: int)
    requires IsPrime(q) && q <= n
    ensures q in PrimesUpTo(n)
  {
    PrimesUpToMembers(n, q);
  }

  /** The list is strictly increasing. */
  lemma {:induction false} PrimesUpToIncreasing(n: int)
    ensures forall a, b :: 0 <= a < b < |PrimesUpTo(n)| ==> PrimesUpTo(n)[a] < PrimesUpTo(n)[b]
    decreases n
  {
    if n >= 2 {
      PrimesUpToIncreasing(n - 1);
    }
  }

  /** Raising the bound only appends: the list up to `m` is a prefix of the list up to
      `n`. */
  lemma {:induction false} PrimesUpToPrefix(m: int, n: int)
    requires m <= n
    ensures PrimesUpTo(m) <= PrimesUpTo(n)
    decreases n - m
  {
    if m < n {
      PrimesUpToPrefix(m, n - 1);
    }
  }

  /** The `k`-th entry of a list of primes is the last prime of its own list: exactly
      `k + 1` primes are no larger than it. */
  lemma PrimesUpToAt(n: int, k: int)
    requires 0 <= k < |PrimesUpTo(n)|
    ensures PrimesUpTo(PrimesUpTo(n)[k]) == PrimesUpTo(n)[..k + 1]
  {
    var all, q := PrimesUpTo(n), PrimesUpTo(n)[k];
    PrimesUpToPrefix(q, n);
    var below := PrimesUpTo(q);
    assert |below| > 0 && below[|below| - 1] == q;
    assert all[|below| - 1] == q;
    PrimesUpToIncreasing(n);
    assert |below| - 1 == k;
    assert below == all[..k + 1];
  }

  /** Trial division by the primes below `i` decides whether `i` is prime. */
  lemma PrimeTest(i: int, primes: seq<int>)
    requires i >= 2 && primes == PrimesUpTo(i - 1)
    ensures IsPrime(i) <==> forall k :: 0 <= k < |primes| ==> i % primes[k] != 0
  {
    if !IsPrime(i) {
      var k := ListedDivisor(i, primes);
    }
  }

  /** A number from 2 on that is not prime has a divisor among the primes below it. */
  lemma ListedDivisor(i: int, primes: seq<int>) returns (k: int)
    requires i >= 2 && primes == PrimesUpTo(i - 1) && !IsPrime(i)
    ensures 0 <= k < |primes| && i % primes[k] == 0
  {
    var d :| 2 <= d < i && i % d == 0;
    var q := PrimeDivisor(d);
    DividesTrans(q, d, i);
    PrimeListed(i - 1, q);
    k := IndexOf(primes, q);
  }

  /** A member of a sequence sits at some index. */
  lemma IndexOf(s: seq<int>, x: int) returns (k: int)
    requires x in s
    ensures 0 <= k < |s| && s[k] == x
  {
    k :| 0 <= k < |s| && s[k] == x;
  }

  /** `b` to the power `e`. */
  function Pow(b: int, e: nat): int {
    if e == 0 then 1 else b * Pow(b, e - 1)
  }

  /** The product of a list of numbers; the empty product is 1. */
  function Product(xs: seq<int>): (r: int)
    ensures (forall k :: 0 <= k < |xs| ==> xs[k] >= 1) ==> r >= 1
  {
    if xs == [] then 1
    else
      assert forall k :: 0 <= k < |xs| - 1 ==> xs[1..][k] == xs[k + 1];
      var rest := Product(xs[1..]);
      assert xs[0] >= 1 && rest >= 1 ==> xs[0] * rest >= 1 by {
        if xs[0] >= 1 && rest >= 1 {
          MulAtLeast(rest, xs[0]);
        }
      }
      xs[0] * rest
  }

  /** `m` copies of `x`. */
  function Repeat(x: int, m: int): (r: seq<int>)
    ensures |r| == if m > 0 then m else 0
    ensures forall k :: 0 <= k < |r| ==> r[k] == x
    decreases m
  {
    if m <= 0 then [] else [x] + Repeat(x, m - 1)
  }

  lemma {:induction false} ProductAppend(a: seq<int>, b: seq<int>)
    ensures Product(a + b) == Product(a) * Product(b)
    decreases |a|
  {
    if a == [] {
      assert a + b == b;
    } else {
      var ab := a + b;
      assert ab[0] == a[0] && ab[1..] == a[1..] + b;
      ProductAppend(a[1..], b);
      ProductCons(ab);
      ProductCons(a);
      MulAssoc(a[0], Product(a[1..]), Product(b));
    }
  }

  /** The product of a non-empty list is its head times the product of its tail. */
  lemma ProductCons(xs: seq<int>)
    requires xs != []
    ensures Product(xs) == xs[0] * Product(xs[1..])
  {
  }

  lemma {:induction false} ProductRepeat(x: int, m: nat)
    ensures Product(Repeat(x, m)) == Pow(x, m)
    decreases m
  {
    if m > 0 {
      ProductRepeat(x, m - 1);
      assert Repeat(x, m)[1..] == Repeat(x, m - 1);
    }
  }

  /** A multiple `n >= 1` of `p >= 2` has the quotient `n / p` in `[1, n)`. */
  lemma QuotientBounds(n: int, p: int)
    requires n >= 1 && p >= 2 && n % p == 0
    ensures n == p * (n / p) && 1 <= n / p < n
  {
    var q := n / p;
    assert n == p * q;
    if q >= 1 {
      MulAtLeast(q, p);
      assert p * q >= 2 * q;
    }
  }

  /** How many times `p` divides `n`. */
  function Multiplicity(n: int, p: int): nat
    requires n >= 1 && p >= 2
    decreases n
  {
    if n % p == 0 then QuotientBounds(n, p); 1 + Multiplicity(n / p, p) else 0
  }

  /** `n` with every factor `p` divided out. */
  function StripFactor(n: int, p: int): (r: int)
    requires n >= 1 && p >= 2
    ensures 1 <= r <= n
    decreases n
  {
    if n % p == 0 then QuotientBounds(n, p); StripFactor(n / p, p) else n
  }

  /** `n` is `p` to its multiplicity times a part that `p` no longer divides. */
  lemma {:induction false} StripFactorSpec(n: int, p: int)
    requires n >= 1 && p >= 2
    ensures n == Pow(p, Multiplicity(n, p)) * StripFactor(n, p)
    ensures StripFactor(n, p) >= 1 && StripFactor(n, p) % p != 0
    decreases n
  {
    if n % p == 0 {
      QuotientBounds(n, p);
      var q := n / p;
      StripFactorSpec(q, p);
      var e, rest := Multiplicity(q, p), StripFactor(q, p);
      assert Multiplicity(n, p) == e + 1 && StripFactor(n, p) == rest;
      assert Pow(p, e + 1) == p * Pow(p, e);
      MulAssoc(p, Pow(p, e), rest);
    }
  }

  /** Multiplication is associative. */
  lemma MulAssoc(a: int, b: int, c: int)
    ensures a * (b * c) == (a * b) * c
  {
  }

  /** A divisor of one factor of a product divides the product. */
  lemma DividesProduct(p: int, c: int, y: int)
    requires p > 0 && c > 0 && c % p == 0
    ensures (y * c) % p == 0
  {
    MultipleMod(c, y);
    assert y * c == c * y;
    DividesTrans(p, c, y * c);
  }
}
