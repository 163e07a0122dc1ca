/** The binary extended Euclid of mpi_inv_mod on integers (algorithm 14.61 of the Handbook of Applied
    Cryptography): what the code computes as long as no addition loses a carry. */
module BinaryEuclid {
  import opened Arithmetic
  import opened NumberTheory

  // ---- the algorithm ----

  /** TU, U1 and U2, or TV, V1 and V2. */
  datatype Plain = Plain(t: nat, c: int, d: int)

  /** One pass of a strip loop. */
  function PlainHalved(z: Plain, a: nat, n: nat): Plain {
    if z.c % 2 == 1 || z.d % 2 == 1 then Plain(z.t / 2, (z.c + n) / 2, (z.d - a) / 2)
    else Plain(z.t / 2, z.c / 2, z.d / 2)
  }

  /** A strip loop. */
  function PlainStripped(z: Plain, a: nat, n: nat): (y: Plain)
    requires 0 < z.t
    ensures 0 < y.t <= z.t && y.t % 2 == 1
    decreases z.t
  {
    if z.t % 2 == 1 then z else PlainStripped(PlainHalved(z, a, n), a, n)
  }

  /** The subtraction of one side from the other. */
  function PlainReduced(x: Plain, y: Plain): Plain
    requires y.t <= x.t
  {
    Plain(x.t - y.t, x.c - y.c, x.d - y.d)
  }

  /** The main loop: the side of TV when TU has become zero. */
  function PlainRun(u: Plain, v: Plain, a: nat, n: nat): Plain
    requires 0 < u.t && 0 < v.t
    decreases u.t + v.t
  {
    var x, y := PlainStripped(u, a, n), PlainStripped(v, a, n);
    if x.t < y.t then PlainRun(x, PlainReduced(y, x), a, n)
    else if x.t == y.t then y
    else PlainRun(PlainReduced(x, y), y, a, n)
  }

  function PlainInverse(a: nat, n: nat): Plain
    requires 0 < a && 0 < n
  {
    PlainRun(Plain(a, 1, 0), Plain(n, 0, 1), a, n)
  }

  // ---- combinations ----

  /** u1 and u2 express t as a combination of x and y. */
  ghost predicate Bezout(u1: int, u2: int, t: int, x: int, y: int) {
    u1 * x + u2 * y == t
  }

  lemma TermParity(u: int, x: int)
    ensures (u * x) % 2 == if x % 2 == 1 then u % 2 else 0
  {
    var h := x / 2;
    if x % 2 == 1 {
      OddTimes(u, h);
      AddEven(u, u * h);
    } else {
      EvenTimes(u, h);
      AddEven(0, u * h);
    }
  }

  lemma AddEven(u: int, k: int)
    ensures (u + 2 * k) % 2 == u % 2
  {
  }

  /** An even combination of numbers that are not both even has, after adding y to one coefficient
      and taking x from the other where one of them is odd, two even coefficients. */
  lemma Parity(u1: int, u2: int, t: int, x: int, y: int)
    requires Bezout(u1, u2, t, x, y) && t % 2 == 0 && (x % 2 == 1 || y % 2 == 1)
    ensures (u1 % 2 == 0 && u2 % 2 == 0) || ((u1 + y) % 2 == 0 && (u2 - x) % 2 == 0)
  {
    TermParity(u1, x);
    TermParity(u2, y);
    ParityOfSum(u1 * x, u2 * y, u1, u2, x, y);
  }

  lemma ParityOfSum(p: int, q: int, u1: int, u2: int, x: int, y: int)
    requires (p + q) % 2 == 0 && (x % 2 == 1 || y % 2 == 1)
    requires p % 2 == (if x % 2 == 1 then u1 % 2 else 0) && q % 2 == (if y % 2 == 1 then u2 % 2 else 0)
    ensures (u1 % 2 == 0 && u2 % 2 == 0) || ((u1 + y) % 2 == 0 && (u2 - x) % 2 == 0)
  {
  }

  lemma HalveBezout(u1: int, u2: int, t: int, x: int, y: int)
    requires Bezout(u1, u2, t, x, y) && u1 % 2 == 0 && u2 % 2 == 0
    ensures Bezout(u1 / 2, u2 / 2, t / 2, x, y)
  {
    MulAssoc(2, u1 / 2, x);
    MulAssoc(2, u2 / 2, y);
  }

  lemma ShiftBezout(u1: int, u2: int, t: int, x: int, y: int)
    requires Bezout(u1, u2, t, x, y)
    ensures Bezout(u1 + y, u2 - x, t, x, y)
  {
    assert (u1 + y) * x == u1 * x + y * x;
    assert (u2 - x) * y == u2 * y - x * y;
  }

  lemma SubtractBezout(u1: int, u2: int, t: int, v1: int, v2: int, w: int, x: int, y: int)
    requires Bezout(u1, u2, t, x, y) && Bezout(v1, v2, w, x, y)
    ensures Bezout(u1 - v1, u2 - v2, t - w, x, y)
  {
    assert (u1 - v1) * x == u1 * x - v1 * x;
    assert (u2 - v2) * y == u2 * y - v2 * y;
  }

  /** The coefficients v1 and v2 that the strip loops halve. */
  lemma HalvedBezout(u1: int, u2: int, v1: int, v2: int, t: int, x: int, y: int)
    requires Bezout(u1, u2, t, x, y) && t % 2 == 0 && (x % 2 == 1 || y % 2 == 1)
    requires if u1 % 2 == 0 && u2 % 2 == 0 then v1 == u1 && v2 == u2 else v1 == u1 + y && v2 == u2 - x
    ensures v1 % 2 == 0 && v2 % 2 == 0 && Bezout(v1 / 2, v2 / 2, t / 2, x, y)
  {
    hide Bezout;
    Parity(u1, u2, t, x, y);
    ShiftBezout(u1, u2, t, x, y);
    HalveBezout(v1, v2, t, x, y);
  }

  ghost predicate Combines(z: Plain, a: nat, n: nat) { Bezout(z.c, z.d, z.t, a, n) }

  lemma HalvedCombines(z: Plain, a: nat, n: nat)
    requires Combines(z, a, n) && z.t % 2 == 0 && (a % 2 == 1 || n % 2 == 1)
    ensures Combines(PlainHalved(z, a, n), a, n)
  {
    hide Bezout;
    if z.c % 2 == 1 || z.d % 2 == 1 {
      HalvedBezout(z.c, z.d, z.c + n, z.d - a, z.t, a, n);
    } else {
      HalvedBezout(z.c, z.d, z.c, z.d, z.t, a, n);
    }
  }

  lemma {:induction false} StrippedCombines(z: Plain, a: nat, n: nat)
    requires 0 < z.t && Combines(z, a, n) && (a % 2 == 1 || n % 2 == 1)
    ensures Combines(PlainStripped(z, a, n), a, n)
    decreases z.t
  {
    hide Combines;
    if z.t % 2 == 0 {
      HalvedCombines(z, a, n);
      StrippedCombines(PlainHalved(z, a, n), a, n);
    }
  }

  lemma ReducedCombines(x: Plain, y: Plain, a: nat, n: nat)
    requires y.t <= x.t && Combines(x, a, n) && Combines(y, a, n)
    ensures Combines(PlainReduced(x, y), a, n)
  {
    hide Bezout;
    SubtractBezout(x.c, x.d, x.t, y.c, y.d, y.t, a, n);
  }

  lemma OneOdd(a: nat, b: nat)
    requires Gcd(a, b) == 1 && (0 < a || 0 < b)
    ensures a % 2 == 1 || b % 2 == 1
  {
    hide Gcd;
    if a % 2 == 0 && b % 2 == 0 {
      GcdOne(a, b, 2);
    }
  }

  /** Stripping factors of two keeps numbers coprime. */
  lemma {:induction false} StrippedCoprime(z: Plain, other: nat, a: nat, n: nat)
    requires 0 < z.t && Gcd(z.t, other) == 1
    ensures Gcd(PlainStripped(z, a, n).t, other) == 1
    decreases z.t
  {
    hide Gcd;
    if z.t % 2 == 0 {
      OneOdd(z.t, other);
      GcdHalf(z.t, other);
      StrippedCoprime(PlainHalved(z, a, n), other, a, n);
    }
  }

  lemma StrippedBoth(u: Plain, v: Plain, a: nat, n: nat)
    requires 0 < u.t && 0 < v.t && Gcd(u.t, v.t) == 1
    ensures Gcd(PlainStripped(u, a, n).t, PlainStripped(v, a, n).t) == 1
  {
    hide Gcd, PlainStripped;
    StrippedCoprime(u, v.t, a, n);
    GcdSymmetric(PlainStripped(u, a, n).t, v.t);
    StrippedCoprime(v, PlainStripped(u, a, n).t, a, n);
    GcdSymmetric(PlainStripped(v, a, n).t, PlainStripped(u, a, n).t);
  }

  lemma GcdOfEqual(a: nat)
    requires 0 < a
    ensures Gcd(a, a) == a
  {
    assert a % a == 0;
  }

  /** The run ends in 1, with the coefficients that express it. */
  lemma {:induction false} RunCombines(u: Plain, v: Plain, a: nat, n: nat)
    requires 0 < u.t && 0 < v.t && Gcd(u.t, v.t) == 1 && (a % 2 == 1 || n % 2 == 1)
    requires Combines(u, a, n) && Combines(v, a, n)
    ensures PlainRun(u, v, a, n).t == 1 && Combines(PlainRun(u, v, a, n), a, n)
    decreases u.t + v.t
  {
    hide Gcd, Combines, PlainStripped;
    var x, y := PlainStripped(u, a, n), PlainStripped(v, a, n);
    StrippedCombines(u, a, n);
    StrippedCombines(v, a, n);
    StrippedBoth(u, v, a, n);
    GcdSymmetric(x.t, y.t);
    if x.t < y.t {
      GcdSubtract(y.t, x.t);
      GcdSymmetric(y.t - x.t, x.t);
      ReducedCombines(y, x, a, n);
      RunCombines(x, PlainReduced(y, x), a, n);
    } else if x.t == y.t {
      GcdOfEqual(x.t);
    } else {
      GcdSubtract(x.t, y.t);
      ReducedCombines(x, y, a, n);
      RunCombines(PlainReduced(x, y), y, a, n);
    }
  }

  /** The coefficient of a combination that yields 1 is an inverse. */
  lemma InverseFromBezout(v1: int, v2: int, a: int, n: int)
    requires 1 < n && Bezout(v1, v2, 1, a % n, n)
    ensures Cong(v1 * a, 1, n)
  {
    hide Cong;
    var q := a / n;
    assert a == q * n + a % n;
    assert v1 * a == v1 * (q * n) + v1 * (a % n);
    MulAssoc(v1, q, n);
    CongIntro(v1 * a, 1, n, v1 * q - v2);
  }

  /** On integers the algorithm ends with the inverse, for every modulus and every number coprime to it. */
  lemma PlainInverseIsInverse(a: int, n: nat)
    requires 1 < n && 0 < a % n && Gcd(a % n, n) == 1
    ensures Cong(PlainInverse(a % n, n).c * a, 1, n)
  {
    hide Gcd, PlainRun, Bezout, Cong;
    var r: nat := a % n;
    UnitBezout(r, n);
    OneOdd(r, n);
    RunCombines(Plain(r, 1, 0), Plain(n, 0, 1), r, n);
    InverseFromBezout(PlainInverse(r, n).c, PlainInverse(r, n).d, a, n);
  }

  lemma UnitBezout(x: int, y: int)
    ensures Bezout(1, 0, x, x, y) && Bezout(0, 1, y, x, y)
  {
  }
}
