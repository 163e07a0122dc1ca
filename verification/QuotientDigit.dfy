/** Estimating one digit of a long division from the top limbs of dividend and divisor
    (algorithm 14.20 of the Handbook of Applied Cryptography). */
module QuotientDigit {
  import opened Arithmetic
  import opened Digits
  import opened Limbs

  /** The dividend x, with top place i, is about to be divided by y, with top place t, for the
      digit at place i - t - 1. */
  ghost predicate AtDigit(x: seq<limb>, y: seq<limb>, i: nat, t: nat) {
    && t < i < |x| && t < |y| && y[t] != 0
    && (forall k :: t < k < |y| ==> y[k] == 0)
    && 0 < Val(y, BASE)
    && 0 <= Val(x, BASE) < Val(y, BASE) * Pow(BASE, i - t)
  }

  /** The divisor moved to the place of the digit. */
  ghost function Shifted(y: seq<limb>, i: nat, t: nat): (d: int)
    requires t < i
  {
    Val(y, BASE) * Pow(BASE, i - t - 1)
  }

  /** The true digit. */
  ghost function TrueDigit(x: seq<limb>, y: seq<limb>, i: nat, t: nat): (q: int)
    requires AtDigit(x, y, i, t)
    ensures 0 <= q < BASE
    ensures 0 < Shifted(y, i, t) && q * Shifted(y, i, t) <= Val(x, BASE) < (q + 1) * Shifted(y, i, t)
  {
    DigitRange(Val(x, BASE), Val(y, BASE), Pow(BASE, i - t - 1), BASE);
    PowStep(BASE, i - t - 1);
    Val(x, BASE) / Shifted(y, i, t)
  }

  lemma DigitRange(x: int, y: int, w: int, b: int)
    requires 0 < y && 0 < w && 0 < b && 0 <= x < y * (b * w)
    ensures 0 < y * w && 0 <= x / (y * w) < b
    ensures (x / (y * w)) * (y * w) <= x < (x / (y * w) + 1) * (y * w)
  {
    MulStrictMono(0, y, w);
    var q := x / (y * w);
    assert x == q * (y * w) + x % (y * w);
    MulAssoc(y, b, w);
    MulAssoc(b, y, w);
    if b <= q {
      MulMono(b, q, y * w);
    }
  }

  /** The two top limbs of the divisor, as the source assembles them. */
  function DivisorTop(y: seq<limb>, t: nat): int
    requires t < |y|
  {
    (if t < 1 then 0 else y[t - 1]) + BASE * y[t]
  }

  /** The three top limbs of the dividend. */
  function DividendTop(x: seq<limb>, i: nat): int
    requires 0 < i < |x|
  {
    (if i < 2 then 0 else x[i - 2]) + BASE * x[i - 1] + BASE * (BASE * x[i])
  }

  function Estimate(x: seq<limb>, y: seq<limb>, i: nat, t: nat): int
    requires 0 < i < |x| && t < |y| && y[t] != 0
  {
    if x[i] >= y[t] then BASE - 1 else (x[i] * BASE + x[i - 1]) / y[t]
  }

  // ---- the top of a buffer brackets its value ----

  lemma TopPart(p: seq<limb>, k: nat)
    requires k <= |p|
    ensures 0 <= Val(p[k..], BASE)
    ensures Val(p[k..], BASE) * Pow(BASE, k) <= Val(p, BASE) < (Val(p[k..], BASE) + 1) * Pow(BASE, k)
  {
    hide Val, Pow;
    ValSplit(p, k, BASE);
    ValBounds(p[..k], BASE);
    ValBounds(p[k..], BASE);
  }

  lemma TopOne(p: seq<limb>, i: nat)
    requires i < |p| && forall k :: i < k < |p| ==> p[k] == 0
    ensures Val(p[i..], BASE) == p[i]
  {
    hide Val, Pow;
    ValCons(p, i, BASE);
    ValZeros(p[i + 1..], BASE);
  }

  lemma TopTwo(p: seq<limb>, i: nat)
    requires 0 < i < |p| && forall k :: i < k < |p| ==> p[k] == 0
    ensures Val(p[i - 1..], BASE) == p[i - 1] + BASE * p[i]
  {
    hide Val, Pow;
    TopOne(p, i);
    ValCons(p, i - 1, BASE);
  }

  lemma TopThree(p: seq<limb>, i: nat)
    requires 1 < i < |p| && forall k :: i < k < |p| ==> p[k] == 0
    ensures Val(p[i - 2..], BASE) == p[i - 2] + BASE * p[i - 1] + BASE * (BASE * p[i])
  {
    hide Val, Pow;
    TopTwo(p, i);
    ValCons(p, i - 2, BASE);
  }

  /** The dividend has nothing above place i. */
  lemma DividendFits(x: seq<limb>, y: seq<limb>, i: nat, t: nat)
    requires AtDigit(x, y, i, t)
    ensures forall k :: i < k < |x| ==> x[k] == 0
  {
    hide Val, Pow;
    ValZeroTop(y, t + 1, BASE);
    ValBounds(y[..t + 1], BASE);
    PowAdd(BASE, t + 1, i - t);
    MulStrictMono(Val(y, BASE), Pow(BASE, t + 1), Pow(BASE, i - t));
    SmallValZeroTop(x, i + 1, BASE);
  }

  // ---- no estimate is too small ----

  /** If q times the divisor fits the dividend, q times its top fits the dividend's top. */
  lemma TopsOfProduct(q: int, v: int, u: int, y: int, x: int, wt: int, we: int)
    requires 0 <= q && 0 < wt && 0 < we
    requires v * wt <= y && q * (y * we) <= x && x < (u + 1) * (wt * we)
    ensures q * v <= u
  {
    MulMono(v * wt, y, we);
    MulMono2(q, (v * wt) * we, y * we);
    calc {
      q * ((v * wt) * we);
      { MulAssoc(v, wt, we); MulAssoc(q, v, wt * we); }
      (q * v) * (wt * we);
    }
    MulStrictMono(0, wt, we);
    MulCancelLess(q * v, u + 1, wt * we);
  }

  lemma MulMono2(c: int, a: int, b: int)
    requires 0 <= c && a <= b
    ensures c * a <= c * b
  {
    MulMono(a, b, c);
  }

  /** The first estimate is never below the digit, and is itself a limb. */
  lemma EstimateNotBelow(x: seq<limb>, y: seq<limb>, i: nat, t: nat)
    requires AtDigit(x, y, i, t)
    ensures TrueDigit(x, y, i, t) <= Estimate(x, y, i, t) < BASE
    ensures 0 <= Estimate(x, y, i, t)
  {
    hide Val, Pow, TrueDigit, Shifted;
    var q := TrueDigit(x, y, i, t);
    if x[i] < y[t] {
      OneLimbBound(x, y, i, t);
      var u := x[i] * BASE + x[i - 1];
      QuotientAtLeast(u, y[t], q);
      QuotientBelow(x[i], x[i - 1], y[t], BASE);
    }
  }

  lemma QuotientAtLeast(u: int, v: int, q: int)
    requires 0 < v && 0 <= u && q * v <= u
    ensures q <= u / v
  {
    var r := u / v;
    assert u == r * v + u % v;
    if r < q {
      MulMono(r + 1, q, v);
    }
  }

  lemma QuotientBelow(hi: int, lo: int, v: int, b: int)
    requires 0 <= hi < v && 0 <= lo < b
    ensures 0 <= hi * b && 0 <= (hi * b + lo) / v < b
  {
    MulNonNegative(hi, b);
    MulMono(hi, v - 1, b);
    assert (v - 1) * b == v * b - b;
    var r := (hi * b + lo) / v;
    if b <= r {
      MulMono(b, r, v);
    }
  }

  /** q * Y[t] <= X[i] X[i-1]. */
  lemma OneLimbBound(x: seq<limb>, y: seq<limb>, i: nat, t: nat)
    requires AtDigit(x, y, i, t)
    ensures TrueDigit(x, y, i, t) * y[t] <= x[i] * BASE + x[i - 1]
  {
    hide Val, Pow, TrueDigit;
    DividendFits(x, y, i, t);
    TopPart(x, i - 1);
    TopTwo(x, i);
    TopPart(y, t);
    TopOne(y, t);
    PowAdd(BASE, t, i - t - 1);
    TopsOfProduct(TrueDigit(x, y, i, t), y[t], x[i - 1] + BASE * x[i], Val(y, BASE), Val(x, BASE),
                  Pow(BASE, t), Pow(BASE, i - t - 1));
  }

  /** The true digit passes the two-limb test, so the correction loop stops at it at the latest. */
  lemma DigitPassesTest(x: seq<limb>, y: seq<limb>, i: nat, t: nat)
    requires AtDigit(x, y, i, t)
    ensures TrueDigit(x, y, i, t) * DivisorTop(y, t) <= DividendTop(x, i)
  {
    hide Val, Pow, TrueDigit;
    var q := TrueDigit(x, y, i, t);
    if t == 0 {
      OneLimbBound(x, y, i, t);
      ScaleTest(q, y[0], x[i] * BASE + x[i - 1], BASE);
      MulAssoc(x[i], BASE, BASE);
    } else {
      TwoLimbBound(x, y, i, t);
    }
  }

  lemma TwoLimbBound(x: seq<limb>, y: seq<limb>, i: nat, t: nat)
    requires AtDigit(x, y, i, t) && 0 < t
    ensures TrueDigit(x, y, i, t) * DivisorTop(y, t) <= DividendTop(x, i)
  {
    hide Val, Pow, TrueDigit;
    DividendFits(x, y, i, t);
    TopPart(x, i - 2);
    TopThree(x, i);
    TopPart(y, t - 1);
    TopTwo(y, t);
    PowAdd(BASE, t - 1, i - t - 1);
    TopsOfProduct(TrueDigit(x, y, i, t), DivisorTop(y, t), DividendTop(x, i), Val(y, BASE), Val(x, BASE),
                  Pow(BASE, t - 1), Pow(BASE, i - t - 1));
  }

  lemma ScaleTest(q: int, v: int, u: int, b: int)
    requires 0 <= b && q * v <= u
    ensures q * (b * v) <= u * b
  {
    MulMono(q * v, u, b);
    MulAssoc(q, v, b);
  }

  // ---- an estimate that passes the test is at most one too large ----

  lemma PassedBound(z: int, v: int, u: int, y: int, x: int, wt: int, we: int, b: int)
    requires 0 <= z < b && 0 < wt && 0 < we
    requires y < (v + 1) * wt && b * wt <= y && u * (wt * we) <= x && z * v <= u
    ensures z * (y * we) < x + y * we
  {
    MulStrictMono(0, wt, we);
    MulMono(y, (v + 1) * wt, we);
    MulMono2(z, y * we, ((v + 1) * wt) * we);
    calc {
      z * (((v + 1) * wt) * we);
      { MulAssoc(v + 1, wt, we); MulAssoc(z, v + 1, wt * we); }
      (z * v + z) * (wt * we);
    }
    MulMono(z * v + z, u + z, wt * we);
    assert (u + z) * (wt * we) == u * (wt * we) + z * (wt * we);
    MulStrictMono(z, b, wt * we);
    MulMono(b * wt, y, we);
    MulAssoc(b, wt, we);
  }

  lemma AtMostOneMore(z: int, q: int, d: int, x: int)
    requires 0 < d && z * d < x + d && x < (q + 1) * d
    ensures z <= q + 1
  {
    assert (q + 1) * d + d == (q + 2) * d;
    MulCancelLess(z, q + 2, d);
  }

  lemma PassedOneLimb(z: int, y0: int, u: int, low: int, x: int, we: int, b: int)
    requires 0 <= z && 0 < b && 0 <= low < b && 0 < we && u * we <= x
    requires z * (b * y0) <= low + b * u
    ensures z * (y0 * we) <= x
  {
    calc {
      z * (b * y0);
      { MulAssoc(z, y0, b); }
      (z * y0) * b;
    }
    if u < z * y0 {
      MulMono(u + 1, z * y0, b);
    }
    MulMono(z * y0, u, we);
    MulAssoc(z, y0, we);
  }

  lemma TestOneLimb(x: seq<limb>, y: seq<limb>, i: nat, z: int)
    requires AtDigit(x, y, i, 0) && 0 <= z < BASE
    requires z * DivisorTop(y, 0) <= DividendTop(x, i)
    ensures z * Shifted(y, i, 0) <= Val(x, BASE)
  {
    hide Val, Pow;
    DividendFits(x, y, i, 0);
    TopPart(x, i - 1);
    TopTwo(x, i);
    assert y[0..] == y;
    TopOne(y, 0);
    DividendTopSplit(x, i);
    hide AtDigit, DividendTop;
    var low := if i < 2 then 0 else x[i - 2];
    var u := x[i - 1] + BASE * x[i];
    assert z * (BASE * y[0]) <= low + BASE * u;
    PassedOneLimb(z, y[0], u, low, Val(x, BASE), Pow(BASE, i - 1), BASE);
  }

  lemma DividendTopSplit(x: seq<limb>, i: nat)
    requires 0 < i < |x|
    ensures DividendTop(x, i) == (if i < 2 then 0 else x[i - 2]) + BASE * (x[i - 1] + BASE * x[i])
  {
  }

  lemma TestMoreLimbs(x: seq<limb>, y: seq<limb>, i: nat, t: nat, z: int)
    requires AtDigit(x, y, i, t) && 0 < t && 0 <= z < BASE
    requires z * DivisorTop(y, t) <= DividendTop(x, i)
    ensures z * Shifted(y, i, t) < Val(x, BASE) + Shifted(y, i, t)
  {
    hide Val, Pow;
    DividendFits(x, y, i, t);
    TopPart(x, i - 2);
    TopThree(x, i);
    TopPart(y, t - 1);
    TopTwo(y, t);
    DivisorTopLimb(y, t);
    PowAdd(BASE, t - 1, i - t - 1);
    hide AtDigit;
    PassedBound(z, DivisorTop(y, t), DividendTop(x, i), Val(y, BASE), Val(x, BASE),
                Pow(BASE, t - 1), Pow(BASE, i - t - 1), BASE);
  }

  lemma DivisorTopLimb(y: seq<limb>, t: nat)
    requires 0 < t < |y| && y[t] != 0 && forall k :: t < k < |y| ==> y[k] == 0
    ensures BASE * Pow(BASE, t - 1) <= Val(y, BASE)
  {
    hide Val, Pow;
    TopPart(y, t);
    TopOne(y, t);
    PowStep(BASE, t - 1);
    MulMono(1, y[t], Pow(BASE, t));
  }

  /** After the correction loop the digit is right or one too large. */
  lemma TestBoundsDigit(x: seq<limb>, y: seq<limb>, i: nat, t: nat, z: int)
    requires AtDigit(x, y, i, t) && 0 <= z < BASE
    requires z * DivisorTop(y, t) <= DividendTop(x, i)
    ensures z <= TrueDigit(x, y, i, t) + 1
  {
    hide Val, Pow, TrueDigit, DivisorTop, DividendTop, Shifted;
    var q, d := TrueDigit(x, y, i, t), Shifted(y, i, t);
    if t == 0 {
      TestOneLimb(x, y, i, z);
    } else {
      TestMoreLimbs(x, y, i, t, z);
    }
    AtMostOneMore(z, q, d, Val(x, BASE));
  }
}
