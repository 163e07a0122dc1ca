/** Divisibility, greatest common divisors, primes, Fermat's little theorem and the Chinese
    remainder theorem: the mathematics RSA rests on. */
module NumberTheory {
  import opened Arithmetic

  // ---- divisibility ----

  ghost predicate Divides(d: int, n: int)
    requires 0 < d
  {
    n % d == 0
  }

  lemma DividesIntro(d: int, n: int, k: int)
    requires 0 < d && n == k * d
    ensures Divides(d, n)
  {
    MultipleMod(k, d);
  }

  lemma DividesElim(d: int, n: int) returns (k: int)
    requires 0 < d && Divides(d, n)
    ensures n == k * d
  {
    k := n / d;
    DivIsMultiple(n, d);
  }

  lemma DividesCombination(d: int, a: int, b: int, x: int, y: int)
    requires 0 < d && Divides(d, a) && Divides(d, b)
    ensures Divides(d, x * a + y * b)
  {
    hide Divides;
    var j := DividesElim(d, a);
    var k := DividesElim(d, b);
    MulAssoc(x, j, d);
    MulAssoc(y, k, d);
    DividesIntro(d, x * a + y * b, x * j + y * k);
  }

  lemma DividesProduct(d: int, a: int, x: int)
    requires 0 < d && Divides(d, a)
    ensures Divides(d, x * a)
  {
    hide Divides;
    var j := DividesElim(d, a);
    MulAssoc(x, j, d);
    DividesIntro(d, x * a, x * j);
  }

  lemma DividesLeq(d: int, n: int)
    requires 0 < d && 0 < n && Divides(d, n)
    ensures d <= n
  {
    hide Divides;
    var k := DividesElim(d, n);
    if k <= 0 {
      MulMono(k, 0, d);
    } else {
      MulMono(1, k, d);
    }
  }

  // ---- greatest common divisors ----

  /** Euclid's algorithm, the reference for mpi_gcd. */
  function Gcd(a: nat, b: nat): nat
    decreases b
  {
    if b == 0 then a else Gcd(b, a % b)
  }

  ghost predicate IsGcd(g: int, a: int, b: int) {
    && 0 < g && Divides(g, a) && Divides(g, b)
    && (forall d {:trigger Divides(d, a)} {:trigger Divides(d, b)} {:trigger Divides(d, g)} ::
          0 < d && Divides(d, a) && Divides(d, b) ==> Divides(d, g))
  }

  /** The greatest common divisor is the one every common divisor divides. */
  lemma {:induction false} GcdIsGcd(a: nat, b: nat)
    requires 0 < a || 0 < b
    ensures IsGcd(Gcd(a, b), a, b)
    decreases b
  {
    if b > 0 {
      GcdIsGcd(b, a % b);
      var g, q, r := Gcd(b, a % b), a / b, a % b;
      assert a == q * b + r;
      hide Divides;
      DividesCombination(g, b, r, q, 1);
      forall d | 0 < d && Divides(d, a) && Divides(d, b)
        ensures Divides(d, g)
      {
        DividesCombination(d, a, b, 1, -q);
        assert 1 * a + (-q) * b == r;
      }
    } else {
      DividesIntro(a, a, 1);
      DividesIntro(a, 0, 0);
    }
  }

  lemma GcdUnique(g: int, h: int, a: int, b: int)
    requires IsGcd(g, a, b) && IsGcd(h, a, b)
    ensures g == h
  {
    DividesLeq(g, h);
    DividesLeq(h, g);
  }

  lemma GcdFromDivisors(a: nat, b: nat, c: nat, d: nat)
    requires (0 < a || 0 < b) && (0 < c || 0 < d)
    requires forall x {:trigger Divides(x, a)} {:trigger Divides(x, c)} ::
               0 < x ==> (Divides(x, a) && Divides(x, b) <==> Divides(x, c) && Divides(x, d))
    ensures Gcd(a, b) == Gcd(c, d)
  {
    hide Gcd, Divides;
    GcdIsGcd(a, b);
    GcdIsGcd(c, d);
    GcdUnique(Gcd(a, b), Gcd(c, d), c, d);
  }

  lemma GcdSymmetric(a: nat, b: nat)
    ensures Gcd(a, b) == Gcd(b, a)
  {
    if a == 0 && b == 0 {
    } else {
      GcdFromDivisors(a, b, b, a);
    }
  }

  lemma GcdSubtract(a: nat, b: nat)
    requires 0 < b <= a
    ensures Gcd(a, b) == Gcd(a - b, b)
  {
    hide Divides, Gcd;
    forall x | 0 < x
      ensures Divides(x, a) && Divides(x, b) <==> Divides(x, a - b) && Divides(x, b)
    {
      if Divides(x, a) && Divides(x, b) {
        DividesCombination(x, a, b, 1, -1);
      }
      if Divides(x, a - b) && Divides(x, b) {
        DividesCombination(x, a - b, b, 1, 1);
      }
    }
    GcdFromDivisors(a, b, a - b, b);
  }

  /** An odd number that divides 2c divides c. */
  lemma OddDividesHalf(d: int, c: int)
    requires 0 < d && d % 2 == 1 && Divides(d, 2 * c)
    ensures Divides(d, c)
  {
    hide Divides;
    var k := DividesElim(d, 2 * c);
    var h := d / 2;
    assert d == 2 * h + 1;
    OddTimes(k, h);
    var j := k / 2;
    assert k == 2 * j;
    MulAssoc(2, j, d);
    DividesIntro(d, c, j);
  }

  lemma DivisorOfOdd(d: int, b: int)
    requires 0 < d && b % 2 == 1 && Divides(d, b)
    ensures d % 2 == 1
  {
    hide Divides;
    var k := DividesElim(d, b);
    EvenTimes(k, d / 2);
  }

  lemma EvenTimes(k: int, h: int)
    ensures k * (2 * h) == 2 * (k * h)
  {
  }

  /** Factors of two of one operand only do not count. */
  lemma GcdHalf(a: nat, b: nat)
    requires a % 2 == 0 && b % 2 == 1
    ensures Gcd(a, b) == Gcd(a / 2, b)
  {
    hide Divides, Gcd;
    var c := a / 2;
    forall x | 0 < x
      ensures Divides(x, a) && Divides(x, b) <==> Divides(x, c) && Divides(x, b)
    {
      if Divides(x, a) && Divides(x, b) {
        DivisorOfOdd(x, b);
        OddDividesHalf(x, c);
      }
      if Divides(x, c) && Divides(x, b) {
        DividesProduct(x, c, 2);
      }
    }
    GcdFromDivisors(a, b, c, b);
  }

  /** Common factors come out. */
  lemma {:induction false} GcdScale(a: nat, b: nat, k: nat)
    requires 0 < k
    ensures 0 <= a * k && 0 <= b * k && Gcd(a * k, b * k) == Gcd(a, b) * k
    decreases b
  {
    MulNonNegative(a, k);
    MulNonNegative(b, k);
    if b > 0 {
      MulStrictMono(0, b, k);
      var q, r := a / b, a % b;
      MulStrictMono(r, b, k);
      MulNonNegative(r, k);
      MulAssoc(q, b, k);
      DivModUnique(a * k, b * k, q, r * k);
      GcdScale(b, r, k);
    }
  }

  lemma GcdOne(a: nat, b: nat, d: int)
    requires Gcd(a, b) == 1 && (0 < a || 0 < b) && 0 < d && Divides(d, a) && Divides(d, b)
    ensures d == 1
  {
    hide Gcd;
    GcdIsGcd(a, b);
    DividesLeq(d, 1);
  }

  // ---- primes ----

  ghost predicate IsPrime(p: int) {
    1 < p && forall d {:trigger Divides(d, p)} :: 1 < d < p ==> !Divides(d, p)
  }

  lemma {:induction false} PrimeCancel(p: int, a: int, b: int)
    requires IsPrime(p) && 0 < a < p && Divides(p, a * b)
    ensures Divides(p, b)
    decreases a
  {
    if a > 1 {
      var q, r := p / a, p % a;
      assert !Divides(a, p);
      hide Divides;
      DividesIntro(p, p, 1);
      DividesCombination(p, p, a * b, b, -q);
      Remainder(p, a, b, q, r);
      PrimeCancel(p, r, b);
    }
  }

  lemma Remainder(p: int, a: int, b: int, q: int, r: int)
    requires p == q * a + r
    ensures b * p + (-q) * (a * b) == r * b
  {
    MulAssoc(q, a, b);
    assert (q * a + r) * b == (q * a) * b + r * b;
  }

  /** Euclid's lemma. */
  lemma EuclidLemma(p: int, a: int, b: int)
    requires IsPrime(p) && Divides(p, a * b)
    ensures Divides(p, a) || Divides(p, b)
  {
    var q, r := a / p, a % p;
    if r != 0 {
      hide Divides;
      DividesIntro(p, p, 1);
      DividesProduct(p, p, q * b);
      DividesCombination(p, a * b, (q * b) * p, 1, -1);
      assert 1 * (a * b) + -1 * ((q * b) * p) == r * b by {
        Remainder(a, p, b, q, r);
        MulAssoc(q, b, p);
      }
      PrimeCancel(p, r, b);
    }
  }

  /** Distinct primes that divide a number divide it together. */
  lemma DistinctPrimes(p: int, q: int, x: int)
    requires IsPrime(p) && IsPrime(q) && p != q && Divides(p, x) && Divides(q, x)
    ensures 0 < p * q && Divides(p * q, x)
  {
    MulStrictMono(0, p, q);
    var k := DividesElim(q, x);
    EuclidLemma(p, k, q);
    if Divides(p, q) {
      DividesLeq(p, q);
      assert false;
    }
    var j := DividesElim(p, k);
    MulAssoc(j, p, q);
    DividesIntro(p * q, x, j);
  }

  // ---- Fermat's little theorem ----

  function Choose(n: nat, k: nat): nat {
    if k == 0 then 1 else if n == 0 then 0 else Choose(n - 1, k - 1) + Choose(n - 1, k)
  }

  lemma {:induction false} ChooseOutside(n: nat, k: nat)
    requires n < k
    ensures Choose(n, k) == 0
  {
    if n > 0 {
      ChooseOutside(n - 1, k - 1);
      ChooseOutside(n - 1, k);
    }
  }

  lemma {:induction false} ChooseAll(n: nat)
    ensures Choose(n, n) == 1
  {
    if n > 0 {
      ChooseAll(n - 1);
      ChooseOutside(n - 1, n);
    }
  }

  /** k * C(n, k) = n * C(n-1, k-1). */
  lemma {:induction false} Absorption(n: nat, k: nat)
    requires 0 < n && 0 < k
    ensures k * Choose(n, k) == n * Choose(n - 1, k - 1)
  {
    if n == 1 {
      if k > 1 {
        ChooseOutside(1, k);
        ChooseOutside(0, k - 1);
      }
    } else {
      Absorption(n - 1, k);
      var c, d := Choose(n - 1, k - 1), Choose(n - 1, k);
      if k == 1 {
        assert c == 1 && Choose(n - 2, 0) == 1;
      } else {
        Absorption(n - 1, k - 1);
        var e, f := Choose(n - 2, k - 2), Choose(n - 2, k - 1);
        assert c == e + f;
        AbsorptionStep(n, k, c, d, e, f);
      }
    }
  }

  lemma AbsorptionStep(n: int, k: int, c: int, d: int, e: int, f: int)
    requires c == e + f && k * d == (n - 1) * f && (k - 1) * c == (n - 1) * e
    ensures k * (c + d) == n * c
  {
    assert (n - 1) * c == (n - 1) * e + (n - 1) * f;
  }

  /** C(p, 0) + C(p, 1) a + ... + C(p, m) a^m */
  function BinomialSum(a: int, n: nat, m: nat): int {
    if m == 0 then 1 else BinomialSum(a, n, m - 1) + Choose(n, m) * Pow(a, m)
  }

  lemma {:induction false} PascalSum(a: int, n: nat, m: nat)
    requires 0 < n && 0 < m
    ensures BinomialSum(a, n, m) == BinomialSum(a, n - 1, m) + a * BinomialSum(a, n - 1, m - 1)
  {
    PowStep(a, m - 1);
    var w := Pow(a, m - 1);
    var c, d := Choose(n - 1, m - 1), Choose(n - 1, m);
    var u := BinomialSum(a, n - 1, m - 1);
    assert Choose(n, m) == c + d;
    assert BinomialSum(a, n, m) == BinomialSum(a, n, m - 1) + (c + d) * (a * w);
    assert BinomialSum(a, n - 1, m) == u + d * (a * w);
    if m > 1 {
      PascalSum(a, n, m - 1);
      assert u == BinomialSum(a, n - 1, m - 2) + c * w;
      hide BinomialSum, Choose, Pow;
      PascalStep(a, c, d, w, u, BinomialSum(a, n - 1, m - 2));
    } else {
      assert w == 1 && c == 1;
      hide BinomialSum, Choose, Pow;
      PascalStep(a, c, d, w, u, 0);
    }
  }

  lemma PascalStep(a: int, c: int, d: int, w: int, u: int, v: int)
    requires u == v + c * w
    ensures u + a * v + (c + d) * (a * w) == u + d * (a * w) + a * u
  {
    MulAssoc(c, a, w);
    MulAssoc(a, c, w);
  }

  /** The binomial theorem for a + 1. */
  lemma {:induction false} BinomialTheorem(a: int, n: nat)
    ensures BinomialSum(a, n, n) == Pow(a + 1, n)
  {
    if n > 0 {
      BinomialTheorem(a, n - 1);
      PascalSum(a, n, n);
      NoTermBeyond(a, n - 1);
      PowStep(a + 1, n - 1);
      hide BinomialSum, Pow;
      PlusOneTimes(a, BinomialSum(a, n - 1, n - 1));
    }
  }

  lemma NoTermBeyond(a: int, n: nat)
    ensures BinomialSum(a, n, n + 1) == BinomialSum(a, n, n)
  {
    ChooseOutside(n, n + 1);
  }

  lemma PlusOneTimes(a: int, s: int)
    ensures (a + 1) * s == s + a * s
  {
  }

  /** A prime divides its inner binomial coefficients. */
  lemma PrimeDividesChoose(p: int, k: nat)
    requires IsPrime(p) && 0 < k < p
    ensures Divides(p, Choose(p, k))
  {
    hide Choose;
    Absorption(p, k);
    assert Divides(p, k * Choose(p, k)) by {
      hide Divides;
      DividesIntro(p, k * Choose(p, k), Choose(p - 1, k - 1));
    }
    PrimeCancel(p, k, Choose(p, k));
  }

  lemma {:induction false} SumModPrime(p: int, a: int, m: nat)
    requires IsPrime(p) && m < p
    ensures Cong(BinomialSum(a, p, m), 1, p)
  {
    if m == 0 {
      CongRefl(1, p);
    } else {
      SumModPrime(p, a, m - 1);
      PrimeDividesChoose(p, m);
      var c, w, x := Choose(p, m), Pow(a, m), BinomialSum(a, p, m - 1);
      assert BinomialSum(a, p, m) == x + c * w;
      hide Choose, Pow, BinomialSum;
      AddDivisible(x, 1, c, w, p);
    }
  }

  lemma AddDivisible(x: int, y: int, c: int, w: int, p: int)
    requires 0 < p && Cong(x, y, p) && Divides(p, c)
    ensures Cong(x + c * w, y, p)
  {
    hide Divides, Cong;
    var k := DividesElim(p, c);
    var j := CongElim(x, y, p);
    MulAssoc(k, p, w);
    MulAssoc(k, w, p);
    CongIntro(x + c * w, y, p, j + k * w);
  }

  /** Fermat's little theorem: a^p = a mod p. */
  lemma {:induction false} Fermat(p: int, a: nat)
    requires IsPrime(p)
    ensures Cong(Pow(a, p), a, p)
  {
    if a == 0 {
      PowOfZero(p);
      CongRefl(0, p);
    } else {
      Fermat(p, a - 1);
      BinomialTheorem(a - 1, p);
      SumModPrime(p, a - 1, p - 1);
      ChooseAll(p);
      assert Pow(a, p) == BinomialSum(a - 1, p, p - 1) + Pow(a - 1, p);
      hide Pow, Cong, BinomialSum;
      CongAdd(BinomialSum(a - 1, p, p - 1), 1, Pow(a - 1, p), a - 1, p);
    }
  }
}
