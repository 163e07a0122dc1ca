/** Integer facts used by every other module: order under multiplication, powers, exact division,
    and congruence.  Each lemma is about a handful of scalars, so that the proofs about limb
    buffers never have to do nonlinear reasoning themselves. */
module Arithmetic {

  function Min(x: int, y: int): (m: int)
    ensures m <= x && m <= y && (m == x || m == y)
  {
    if x < y then x else y
  }

  // ---- multiplication and order ----

  lemma MulMono(a: int, b: int, c: int)
    requires a <= b && 0 <= c
    ensures a * c <= b * c
  {
    assert (b - a) * c >= 0;
  }

  lemma MulStrictMono(a: int, b: int, c: int)
    requires a < b && 0 < c
    ensures a * c < b * c
  {
    assert (b - a) * c > 0;
  }

  lemma MulCancelLess(a: int, b: int, c: int)
    requires 0 < c && a * c < b * c
    ensures a < b
  {
    if b <= a {
      MulMono(b, a, c);
    }
  }

  lemma MulCancelLeq(a: int, b: int, c: int)
    requires 0 < c && a * c <= b * c
    ensures a <= b
  {
    if b < a {
      MulStrictMono(b, a, c);
    }
  }

  lemma MulAssoc(a: int, b: int, c: int)
    ensures a * (b * c) == (a * b) * c
  {
  }

  lemma MulShuffle(a: int, b: int, c: int, d: int)
    ensures (a * b) * (c * d) == (a * c) * (b * d)
  {
    MulAssoc(a, b, c * d);
    MulAssoc(b, c, d);
    MulAssoc(c, b, d);
    MulAssoc(a, c, b * d);
  }

  lemma MulNonNegative(a: int, b: int)
    requires 0 <= a && 0 <= b
    ensures 0 <= a * b
  {
  }

  lemma OddTimes(k: int, h: int)
    ensures k * (2 * h + 1) == 2 * (k * h) + k
  {
  }

  // ---- division with remainder ----

  lemma DivModUnique(x: int, d: int, q: int, r: int)
    requires 0 < d && x == q * d + r && 0 <= r < d
    ensures q == x / d && r == x % d
  {
    var q', r' := x / d, x % d;
    assert x == q' * d + r';
    assert (q - q') * d == r' - r;
    if q < q' {
      MulMono(q - q', -1, d);
    } else if q' < q {
      MulMono(1, q - q', d);
    }
  }

  lemma DivLess(x: int, d: int, n: int)
    requires 0 < d && 0 <= x < n * d
    ensures 0 <= x / d < n
  {
    var q := x / d;
    assert x == q * d + x % d;
    if n <= q {
      MulMono(n, q, d);
    }
  }

  lemma DivIsMultiple(x: int, d: int)
    requires 0 < d && x % d == 0
    ensures x == (x / d) * d
  {
  }

  lemma MultipleMod(k: int, d: int)
    requires 0 < d
    ensures (k * d) % d == 0 && (k * d) / d == k
  {
    DivModUnique(k * d, d, k, 0);
  }

  /** Dividing twice is dividing by the product. */
  lemma DivDiv(x: nat, c: nat, d: nat)
    requires 0 < c && 0 < d
    ensures 0 < c * d && (x / c) / d == x / (c * d)
  {
    var q, r := x / c, x % c;
    var q', r' := q / d, q % d;
    assert x == (q' * d + r') * c + r;
    assert x == q' * (c * d) + (r' * c + r);
    MulMono(r', d - 1, c);
    MulNonNegative(r', c);
    MulStrictMono(0, c, d);
    assert (d - 1) * c == c * d - c;
    DivModUnique(x, c * d, q', r' * c + r);
  }

  /** Division rounding up. */
  lemma CeilDiv(x: nat, d: int, n: nat)
    requires 0 < d
    ensures (x + d - 1) / d <= n <==> x <= n * d
  {
    var q := (x + d - 1) / d;
    var r := (x + d - 1) % d;
    assert x + d - 1 == q * d + r;
    if q <= n {
      MulMono(q, n, d);
    } else {
      MulMono(n, q - 1, d);
    }
  }

  // ---- powers ----

  function Pow(b: int, e: nat): (r: int)
    ensures 0 < b ==> 0 < r
    ensures 0 <= b ==> 0 <= r
  {
    if e == 0 then 1
    else
      var r := Pow(b, e - 1);
      assert 0 < b && 0 < r ==> 0 < b * r;
      assert 0 <= b && 0 <= r ==> 0 <= b * r;
      b * r
  }

  lemma PowStep(b: int, n: nat)
    ensures Pow(b, n + 1) == b * Pow(b, n)
    ensures Pow(b, 0) == 1
  {
  }

  lemma {:induction false} PowAdd(b: int, m: nat, n: nat)
    ensures Pow(b, m + n) == Pow(b, m) * Pow(b, n)
  {
    if m > 0 {
      PowAdd(b, m - 1, n);
      var x, y := Pow(b, m - 1), Pow(b, n);
      assert Pow(b, m + n) == b * (x * y) by {
        assert m + n - 1 == (m - 1) + n;
      }
      MulAssoc(b, x, y);
    }
  }

  lemma {:induction false} PowPow(b: int, m: nat, n: nat)
    ensures 0 <= m * n && Pow(Pow(b, m), n) == Pow(b, m * n)
  {
    MulNonNegative(m, n);
    if n > 0 {
      PowPow(b, m, n - 1);
      assert m * n == m + m * (n - 1);
      PowAdd(b, m, m * (n - 1));
    }
  }

  lemma {:induction false} PowOfProduct(a: int, b: int, n: nat)
    ensures Pow(a * b, n) == Pow(a, n) * Pow(b, n)
  {
    if n > 0 {
      PowOfProduct(a, b, n - 1);
      MulShuffle(a, b, Pow(a, n - 1), Pow(b, n - 1));
    }
  }

  lemma {:induction false} PowMono(b: int, m: nat, n: nat)
    requires 1 <= b && m <= n
    ensures Pow(b, m) <= Pow(b, n)
  {
    if m < n {
      PowMono(b, m, n - 1);
      MulMono(1, b, Pow(b, n - 1));
    }
  }

  lemma PowCancelLess(b: int, m: nat, n: nat)
    requires 1 <= b && Pow(b, m) < Pow(b, n)
    ensures m < n
  {
    if n <= m {
      PowMono(b, n, m);
    }
  }

  lemma {:induction false} PowOfZero(n: nat)
    requires 0 < n
    ensures Pow(0, n) == 0
  {
  }

  lemma {:induction false} PowOfOne(n: nat)
    ensures Pow(1, n) == 1
  {
    if n > 0 {
      PowOfOne(n - 1);
    }
  }

  lemma {:induction false} PowExceeds(n: nat)
    ensures n < Pow(2, n)
  {
    if n > 0 {
      PowExceeds(n - 1);
    }
  }

  // ---- congruence ----

  ghost predicate Cong(a: int, b: int, n: int)
    requires 0 < n
  {
    (a - b) % n == 0
  }

  lemma CongIntro(a: int, b: int, n: int, k: int)
    requires 0 < n && a - b == k * n
    ensures Cong(a, b, n)
  {
    MultipleMod(k, n);
  }

  lemma CongElim(a: int, b: int, n: int) returns (k: int)
    requires 0 < n && Cong(a, b, n)
    ensures a - b == k * n
  {
    k := (a - b) / n;
    DivIsMultiple(a - b, n);
  }

  lemma CongRefl(a: int, n: int)
    requires 0 < n
    ensures Cong(a, a, n)
  {
    CongIntro(a, a, n, 0);
  }

  lemma CongSym(a: int, b: int, n: int)
    requires 0 < n && Cong(a, b, n)
    ensures Cong(b, a, n)
  {
    var k := CongElim(a, b, n);
    CongIntro(b, a, n, -k);
  }

  lemma CongTrans(a: int, b: int, c: int, n: int)
    requires 0 < n && Cong(a, b, n) && Cong(b, c, n)
    ensures Cong(a, c, n)
  {
    var j := CongElim(a, b, n);
    var k := CongElim(b, c, n);
    CongIntro(a, c, n, j + k);
  }

  lemma CongAdd(a: int, b: int, c: int, d: int, n: int)
    requires 0 < n && Cong(a, b, n) && Cong(c, d, n)
    ensures Cong(a + c, b + d, n)
  {
    var j := CongElim(a, b, n);
    var k := CongElim(c, d, n);
    CongIntro(a + c, b + d, n, j + k);
  }

  lemma CongMul(a: int, b: int, c: int, d: int, n: int)
    requires 0 < n && Cong(a, b, n) && Cong(c, d, n)
    ensures Cong(a * c, b * d, n)
  {
    var j := CongElim(a, b, n);
    var k := CongElim(c, d, n);
    calc {
      a * c - b * d;
      (a - b) * c + b * (c - d);
      (j * n) * c + b * (k * n);
      (j * c + b * k) * n;
    }
    CongIntro(a * c, b * d, n, j * c + b * k);
  }

  lemma {:induction false} CongPow(a: int, b: int, e: nat, n: int)
    requires 0 < n && Cong(a, b, n)
    ensures Cong(Pow(a, e), Pow(b, e), n)
  {
    if e == 0 {
      CongRefl(1, n);
    } else {
      CongPow(a, b, e - 1, n);
      CongMul(a, b, Pow(a, e - 1), Pow(b, e - 1), n);
    }
  }

  lemma CongMod(a: int, n: int)
    requires 0 < n
    ensures Cong(a % n, a, n)
  {
    assert a == (a / n) * n + a % n;
    CongIntro(a % n, a, n, -(a / n));
  }

  /** Congruent residues in range are equal. */
  lemma CongUnique(a: int, b: int, n: int)
    requires 0 < n && Cong(a, b, n) && 0 <= a < n && 0 <= b < n
    ensures a == b
  {
    var k := CongElim(a, b, n);
    if 0 < k {
      MulMono(1, k, n);
    } else if k < 0 {
      MulMono(k, -1, n);
    }
  }

  lemma CongSameMod(a: int, b: int, n: int)
    requires 0 < n && Cong(a, b, n)
    ensures a % n == b % n
  {
    CongMod(a, n);
    CongMod(b, n);
    CongSym(b % n, b, n);
    CongTrans(a % n, a, b, n);
    CongTrans(a % n, b, b % n, n);
    CongUnique(a % n, b % n, n);
  }

  lemma CongZero(a: int, n: int)
    requires 0 < n
    ensures Cong(a, 0, n) <==> a % n == 0
  {
  }
}
