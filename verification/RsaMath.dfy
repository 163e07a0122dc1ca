/** RSA on integers: the plain private operation, the one by the Chinese remainder theorem, and
    why each undoes the public operation (section 5.1 of RFC 8017). */
module RsaMath {
  import opened Arithmetic
  import opened NumberTheory

  datatype Key = Key(n: nat, e: nat, d: nat, p: nat, q: nat, dp: nat, dq: nat, qp: nat)

  /** The equations rsa_gen_key establishes between the components of a key. */
  ghost predicate ValidKey(k: Key) {
    && IsPrime(k.p) && IsPrime(k.q) && k.p != k.q && k.p % 2 == 1 && k.q % 2 == 1
    && k.n == k.p * k.q
    && 0 < (k.p - 1) * (k.q - 1) && Cong(k.e * k.d, 1, (k.p - 1) * (k.q - 1))
    && k.dp == k.d % (k.p - 1) && k.dq == k.d % (k.q - 1)
    && Cong(k.qp * k.q, 1, k.p)
  }

  /** Such keys exist. */
  lemma SmallKey()
    ensures ValidKey(Key(15, 3, 3, 3, 5, 1, 3, 2))
  {
    assert !Divides(2, 3);
    assert !Divides(2, 5) && !Divides(3, 5) && !Divides(4, 5);
  }

  function Public(k: Key, m: nat): nat
    requires 0 < k.n
  {
    Pow(m, k.e) % k.n
  }

  /** The branch of rsa_private that is compiled out. */
  function PrivatePlain(k: Key, c: nat): nat
    requires 0 < k.n
  {
    Pow(c, k.d) % k.n
  }

  /** The branch that is compiled in. */
  function PrivateCrt(k: Key, c: nat): int
    requires 0 < k.p && 0 < k.q
  {
    var t1 := Pow(c, k.dp) % k.p;
    var t2 := Pow(c, k.dq) % k.q;
    t2 + (((t1 - t2) * k.qp) % k.p) * k.q
  }

  // ---- exponents modulo p - 1 ----

  lemma {:induction false} ExponentCycle(p: int, a: nat, k: nat)
    requires IsPrime(p)
    ensures 0 <= k * (p - 1) && Cong(Pow(a, 1 + k * (p - 1)), a, p)
  {
    assert 1 < p;
    hide IsPrime, Cong;
    MulNonNegative(k, p - 1);
    if k == 0 {
      PowStep(a, 0);
      CongRefl(a, p);
    } else {
      ExponentCycle(p, a, k - 1);
      var e := (k - 1) * (p - 1);
      assert 1 + k * (p - 1) == (1 + e) + (p - 1);
      hide Pow;
      PowAdd(a, 1 + e, p - 1);
      PowStep(a, p - 1);
      Fermat(p, a);
      CongRefl(Pow(a, p - 1), p);
      CongMul(Pow(a, 1 + e), a, Pow(a, p - 1), Pow(a, p - 1), p);
      CongTrans(Pow(a, 1 + k * (p - 1)), a * Pow(a, p - 1), a, p);
    }
  }

  /** A positive exponent can be reduced modulo p - 1, for every base. */
  lemma ReduceExponent(p: int, a: nat, x: nat, k: nat)
    requires IsPrime(p) && 0 < x
    ensures 0 <= k * (p - 1) && Cong(Pow(a, x + k * (p - 1)), Pow(a, x), p)
  {
    assert 1 < p;
    hide Cong, Pow, IsPrime;
    ExponentCycle(p, a, k);
    var kp := k * (p - 1);
    var u := Pow(a, x - 1);
    PowAdd(a, x - 1, 1 + kp);
    assert Pow(a, x + kp) == u * Pow(a, 1 + kp) by {
      assert (x - 1) + (1 + kp) == x + kp;
    }
    PowStep(a, x - 1);
    CongRefl(u, p);
    CongMul(u, u, Pow(a, 1 + kp), a, p);
  }

  // ---- the private exponent ----

  /** A congruence modulo a product holds modulo each factor. */
  lemma CongFactor(a: int, b: int, m: int, n: int)
    requires 0 < m && 0 < n && 0 < m * n && Cong(a, b, m * n)
    ensures Cong(a, b, m) && Cong(a, b, n)
  {
    hide Cong;
    var k := CongElim(a, b, m * n);
    MulAssoc(k, n, m);
    CongIntro(a, b, m, k * n);
    MulAssoc(k, m, n);
    CongIntro(a, b, n, k * m);
  }

  lemma PhiFactors(k: Key)
    requires ValidKey(k)
    ensures 2 <= k.p - 1 && 2 <= k.q - 1
    ensures Cong(k.e * k.d, 1, k.p - 1) && Cong(k.e * k.d, 1, k.q - 1)
  {
    assert k.p != 2 && k.q != 2;
    hide Cong, IsPrime;
    CongFactor(k.e * k.d, 1, k.p - 1, k.q - 1);
  }

  /** e * d is 1 more than a multiple of p - 1. */
  lemma ExponentProduct(e: nat, d: nat, p: int) returns (j: nat)
    requires 2 < p && Cong(e * d, 1, p - 1)
    ensures 0 < e && 0 < d && 0 <= e * d && e * d == 1 + j * (p - 1)
  {
    hide Cong;
    var i := CongElim(e * d, 1, p - 1);
    MulNonNegative(e, d);
    if i < 0 {
      MulMono(i, -1, p - 1);
    }
    if e * d == 0 {
      MinusOneIsNoMultiple(i, p - 1);
    }
    j := i;
  }

  lemma MinusOneIsNoMultiple(i: int, m: int)
    requires 2 <= m
    ensures -1 != i * m
  {
    if i <= -1 {
      MulMono(i, -1, m);
    }
    MulNonNegative(if i < 0 then 0 else i, m);
  }

  /** d mod (p - 1) is not zero. */
  lemma ReducedExponentPositive(e: nat, d: nat, p: int)
    requires 2 < p && Cong(e * d, 1, p - 1)
    ensures 0 < d % (p - 1)
  {
    hide Cong;
    if d % (p - 1) == 0 {
      var j := CongElim(e * d, 1, p - 1);
      var i := d / (p - 1);
      assert d == i * (p - 1);
      MulAssoc(e, i, p - 1);
      assert -1 == (j - e * i) * (p - 1);
      MinusOneIsNoMultiple(j - e * i, p - 1);
      assert false;
    }
  }

  /** The half exponent serves as well as the whole one. */
  lemma HalfExponent(k: Key, p: int, c: nat)
    requires ValidKey(k) && IsPrime(p) && 2 < p && Cong(k.e * k.d, 1, p - 1)
    ensures Cong(Pow(c, k.d), Pow(c, k.d % (p - 1)), p)
  {
    hide Cong, Pow, IsPrime, ValidKey;
    ReducedExponentPositive(k.e, k.d, p);
    var i := k.d / (p - 1);
    assert k.d == k.d % (p - 1) + i * (p - 1);
    ReduceExponent(p, c, k.d % (p - 1), i);
  }

  // ---- recombination ----

  /** Congruent modulo two distinct primes is congruent modulo their product. */
  lemma CongPrimes(a: int, b: int, p: int, q: int)
    requires IsPrime(p) && IsPrime(q) && p != q && Cong(a, b, p) && Cong(a, b, q)
    ensures 0 < p * q && Cong(a, b, p * q)
  {
    DistinctPrimes(p, q, a - b);
  }

  /** Garner's formula: t2 + h * q agrees with t1 modulo p and with t2 modulo q. */
  lemma Garner(t1: int, t2: int, qp: int, p: int, q: int)
    requires 0 < p && 0 < q && Cong(qp * q, 1, p)
    ensures var h := ((t1 - t2) * qp) % p;
      Cong(t2 + h * q, t1, p) && Cong(t2 + h * q, t2, q)
  {
    hide Cong;
    var u := t1 - t2;
    var h := (u * qp) % p;
    CongIntro(t2 + h * q, t2, q, h);
    CongMod(u * qp, p);
    CongRefl(q, p);
    CongMul(h, u * qp, q, q, p);
    CongRefl(u, p);
    CongMul(u, u, qp * q, 1, p);
    MulAssoc(u, qp, q);
    CongTrans(h * q, u * (qp * q), u * 1, p);
    CongRefl(t2, p);
    CongAdd(t2, t2, h * q, u * 1, p);
  }

  lemma RecombinedRange(t2: int, h: int, p: int, q: int)
    requires 0 <= t2 < q && 0 <= h < p
    ensures 0 <= t2 + h * q < p * q
  {
    MulNonNegative(h, q);
    MulMono(h, p - 1, q);
  }

  /** The fast private operation returns exactly what the plain one returns. */
  lemma CrtIsPlain(k: Key, c: nat)
    requires ValidKey(k)
    ensures 0 < k.n && PrivateCrt(k, c) == PrivatePlain(k, c) == Pow(c, k.d) % k.n < k.n
  {
    hide Pow, Cong;
    PhiFactors(k);
    HalfExponent(k, k.p, c);
    HalfExponent(k, k.q, c);
    var x := Pow(c, k.d);
    var t1, t2 := Pow(c, k.dp) % k.p, Pow(c, k.dq) % k.q;
    Garner(t1, t2, k.qp, k.p, k.q);
    var m := PrivateCrt(k, c);
    CongPower(m, t1, Pow(c, k.dp), x, k.p);
    CongPower(m, t2, Pow(c, k.dq), x, k.q);
    RecombinedRange(t2, ((t1 - t2) * k.qp) % k.p, k.p, k.q);
    CongPrimes(m, x, k.p, k.q);
    CongSameMod(m, x, k.n);
    DivModUnique(m, k.n, 0, m);
  }

  /** m = y mod p = y = x, all modulo p. */
  lemma CongPower(m: int, r: int, y: int, x: int, p: int)
    requires 0 < p && Cong(m, r, p) && r == y % p && Cong(x, y, p)
    ensures Cong(m, x, p)
  {
    hide Cong;
    CongMod(y, p);
    CongTrans(m, r, y, p);
    CongSym(x, y, p);
    CongTrans(m, y, x, p);
  }

  // ---- each operation undoes the other ----

  lemma PowerRoundTrip(k: Key, p: int, m: nat)
    requires IsPrime(p) && 2 < p && Cong(k.e * k.d, 1, p - 1)
    ensures 0 <= k.e * k.d && Cong(Pow(m, k.e * k.d), m, p)
  {
    hide Cong, Pow, IsPrime;
    var j := ExponentProduct(k.e, k.d, p);
    ExponentCycle(p, m, j);
  }

  lemma ProductRoundTrip(k: Key, m: nat)
    requires ValidKey(k) && m < k.n
    ensures 0 <= k.e * k.d && Pow(m, k.e * k.d) % k.n == m
  {
    hide Pow, Cong;
    PhiFactors(k);
    PowerRoundTrip(k, k.p, m);
    PowerRoundTrip(k, k.q, m);
    var x := Pow(m, k.e * k.d);
    CongPrimes(x, m, k.p, k.q);
    CongSameMod(x, m, k.n);
    DivModUnique(m, k.n, 0, m);
  }

  lemma PowerOfResidue(m: nat, x: nat, y: nat, n: int)
    requires 0 < n
    ensures 0 <= x * y && Pow(Pow(m, x) % n, y) % n == Pow(m, x * y) % n
  {
    hide Pow, Cong;
    var u := Pow(m, x);
    CongMod(u, n);
    CongPow(u % n, u, y, n);
    PowPow(m, x, y);
    CongSameMod(Pow(u % n, y), Pow(u, y), n);
  }

  /** The private operation undoes the public one, and the public one the private one, on every
      message representative below n. */
  lemma RoundTrip(k: Key, m: nat)
    requires ValidKey(k) && m < k.n
    ensures PrivateCrt(k, Public(k, m)) == m
    ensures 0 <= PrivateCrt(k, m) && Public(k, PrivateCrt(k, m)) == m
    ensures 0 < k.n && Pow(Pow(m, k.e) % k.n, k.d) % k.n == m && Pow(Pow(m, k.d) % k.n, k.e) % k.n == m
  {
    hide Pow, Cong, ValidKey, PrivateCrt;
    CrtIsPlain(k, Public(k, m));
    CrtIsPlain(k, m);
    ProductRoundTrip(k, m);
    PowerOfResidue(m, k.e, k.d, k.n);
    PowerOfResidue(m, k.d, k.e, k.n);
    assert k.e * k.d == k.d * k.e;
  }
}
