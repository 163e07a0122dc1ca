/** Long division, mpi_div_mpi, and reduction, mpi_mod_mpi. */
module MpiDiv {
  import opened Arithmetic
  import opened Digits
  import opened Limbs
  import opened Mpis
  import opened MpiShift
  import opened MpiAddSub
  import opened MpiMul
  import opened QuotientDigit

  const ERR_MPI_DIVISION_BY_ZERO: int := 0x000A

  lemma LowLimbs(p: seq<limb>, k: nat)
    requires k <= |p| && forall j :: k <= j < |p| ==> p[j] == 0
    ensures k == 2 ==> Val(p, BASE) == p[0] + BASE * p[1]
    ensures k == 3 ==> Val(p, BASE) == p[0] + BASE * p[1] + BASE * (BASE * p[2])
  {
    hide Val, Pow;
    assert p[0..] == p;
    if k == 2 {
      TopTwo(p, 1);
    } else if k == 3 {
      TopThree(p, 2);
    }
  }

  /** T1 = z * (the two top limbs of Y). */
  method TrialProduct(T1: Mpi, Y: Mpi, t: nat, z: limb)
    requires T1 != Y && 2 <= |T1.p| && t < |Y.p|
    modifies T1
    ensures T1.Ok() && T1.s == 1 && 2 <= |T1.p|
    ensures T1.Mag() == z * DivisorTop(Y.p, t)
  {
    hide Val, Pow, Sig;
    BaseFacts();
    LSet(T1, 0);
    T1.p := T1.p[0 := if t < 1 then 0 else Y.p[t - 1]];
    T1.p := T1.p[1 := Y.p[t]];
    LowLimbs(T1.p, 2);
    MulInt(T1, T1, z);
  }

  /** T2 = the three top limbs of X. */
  method DividendLimbs(T2: Mpi, X: Mpi, i: nat)
    requires T2 != X && 3 <= |T2.p| && 0 < i < |X.p|
    modifies T2
    ensures T2.Ok() && T2.s == 1 && |T2.p| == old(|T2.p|)
    ensures T2.Mag() == DividendTop(X.p, i)
  {
    hide Val, Pow, Sig;
    BaseFacts();
    LSet(T2, 0);
    T2.p := T2.p[0 := if i < 2 then 0 else X.p[i - 2]];
    T2.p := T2.p[1 := if i < 1 then 0 else X.p[i - 1]];
    T2.p := T2.p[2 := X.p[i]];
    LowLimbs(T2.p, 3);
  }

  /** The estimate and its correction loop: digit i - t - 1 of Z is right or one too large. */
  method EstimateDigit(X: Mpi, Y: Mpi, Z: Mpi, T1: Mpi, T2: Mpi, i: nat, t: nat)
    requires T1 != X && T1 != Y && T1 != Z && T2 != X && T2 != Y && T2 != Z && T1 != T2 && Z != X && Z != Y
    requires AtDigit(X.p, Y.p, i, t) && i - t - 1 < |Z.p| && 2 <= |T1.p| && 3 <= |T2.p|
    modifies Z`p, T1, T2
    ensures 2 <= |T1.p| && 3 <= |T2.p| && |Z.p| == old(|Z.p|)
    ensures Z.p == old(Z.p)[i - t - 1 := Z.p[i - t - 1]]
    ensures TrueDigit(X.p, Y.p, i, t) <= Z.p[i - t - 1] <= TrueDigit(X.p, Y.p, i, t) + 1
    ensures X.Mag() == 0 ==> Z.p[i - t - 1] == 0
  {
    hide Val, Pow, Sig, TrueDigit, DivisorTop, DividendTop, Shifted;
    BaseFacts();
    var e := i - t - 1;
    ghost var q := TrueDigit(X.p, Y.p, i, t);
    EstimateNotBelow(X.p, Y.p, i, t);
    DigitPassesTest(X.p, Y.p, i, t);
    ZeroDividend(X.p, Y.p, i, t);
    if X.p[i] >= Y.p[t] {
      Z.p := Z.p[e := BASE - 1];
    } else {
      var r := (X.p[i] * BASE + X.p[i - 1]) / Y.p[t];
      if r > BASE - 1 {
        r := BASE - 1;
      }
      Z.p := Z.p[e := r];
    }
    assert Z.p[e] == Estimate(X.p, Y.p, i, t);
    Z.p := Z.p[e := WrapAdd(Z.p[e], 1)];
    var above := true;
    while above
      invariant |Z.p| == old(|Z.p|) && Z.p == old(Z.p)[e := Z.p[e]]
      invariant 2 <= |T1.p| && 3 <= |T2.p|
      invariant above ==> q <= WrapSub(Z.p[e], 1) <= Estimate(X.p, Y.p, i, t)
      invariant !above ==> q <= Z.p[e] <= Estimate(X.p, Y.p, i, t)
      invariant !above ==> Z.p[e] * DivisorTop(Y.p, t) <= DividendTop(X.p, i)
      decreases above, WrapSub(Z.p[e], 1)
    {
      Z.p := Z.p[e := WrapSub(Z.p[e], 1)];
      TrialProduct(T1, Y, t, Z.p[e]);
      DividendLimbs(T2, X, i);
      var r := CmpMpi(T1, T2);
      above := r > 0;
    }
    TestBoundsDigit(X.p, Y.p, i, t, Z.p[e]);
  }

  lemma ZeroDividend(x: seq<limb>, y: seq<limb>, i: nat, t: nat)
    requires AtDigit(x, y, i, t)
    ensures Val(x, BASE) == 0 ==> Estimate(x, y, i, t) == 0
  {
    hide Val, Pow;
    if Val(x, BASE) == 0 {
      ZeroVal(x, BASE);
      QuotientBelow(0, 0, y[t], 1);
    }
  }

  lemma LimbShift(m: int, e: nat)
    ensures 0 <= LIMB_BITS * e && m * Pow(2, LIMB_BITS * e) == m * Pow(BASE, e)
  {
    hide Pow;
    PowPow(2, LIMB_BITS, e);
  }

  /** T = v * B^e, as the source computes it. */
  method ShiftLimbs(T: Mpi, e: nat)
    requires T.Ok()
    modifies T
    ensures T.Ok() && T.s == old(T.s) && T.Mag() == old(T.Mag()) * Pow(BASE, e)
    ensures old(|T.p|) <= |T.p|
  {
    hide Val, Pow, LimbsFor;
    LimbShift(T.Mag(), e);
    ShiftL(T, LIMB_BITS * e);
  }

  lemma DigitProduct(z: int, y: int, w: int)
    ensures (y * z) * w == z * (y * w)
  {
    MulAssoc(z, y, w);
  }

  /** What subtracting z * d leaves when z is the digit q or one more. */
  lemma AddBack(x: int, z: int, q: int, d: int)
    requires q * d <= x < (q + 1) * d && q <= z <= q + 1
    ensures x - z * d < 0 <==> z == q + 1
    ensures z == q + 1 ==> x - z * d + d == x - q * d
  {
  }

  /** Multiply, subtract and, if the digit was one too large, add back. */
  method SubtractDigit(X: Mpi, Y: Mpi, Z: Mpi, T1: Mpi, i: nat, t: nat)
    requires T1 != X && T1 != Y && T1 != Z && Z != X && Z != Y && X != Y
    requires X.Ok() && Y.Ok() && Y.s == 1 && (X.s == 1 || X.Mag() == 0)
    requires t < i && AtDigit(X.p, Y.p, i, t) && i - t - 1 < |Z.p| && 2 <= |T1.p|
    requires TrueDigit(X.p, Y.p, i, t) <= Z.p[i - t - 1] <= TrueDigit(X.p, Y.p, i, t) + 1
    requires X.Mag() == 0 ==> Z.p[i - t - 1] == 0
    modifies X, Z`p, T1
    ensures X.Ok() && (X.s == 1 || X.Mag() == 0) && old(|X.p|) <= |X.p| && 2 <= |T1.p|
    ensures |Z.p| == old(|Z.p|) && Z.p == old(Z.p)[i - t - 1 := old(TrueDigit(X.p, Y.p, i, t))]
    ensures X.Mag() == old(X.Mag()) - old(TrueDigit(X.p, Y.p, i, t)) * Shifted(Y.p, i, t)
  {
    hide Val, Pow, Sig, TrueDigit, AddFaulty, AtDigit;
    var e := i - t - 1;
    ghost var q, x, z := TrueDigit(X.p, Y.p, i, t), X.Mag(), Z.p[e];
    ghost var d := Shifted(Y.p, i, t);
    DigitProduct(z, Y.Mag(), Pow(BASE, e));
    AddBack(x, z, q, d);
    MulInt(T1, Y, Z.p[e]);
    ghost var n1 := |T1.p|;
    ShiftLimbs(T1, e);
    assert T1.Mag() == z * d;
    SubtractProduct(X, T1);
    var r := CmpInt(X, 0);
    if r < 0 {
      Copy(T1, Y);
      ShiftLimbs(T1, e);
      AddMpi(X, X, T1);
      Z.p := Z.p[e := Z.p[e] - 1];
    }
  }

  /** X -= T, also for an X that is a zero with a minus sign. */
  method SubtractProduct(X: Mpi, T: Mpi)
    requires X != T && X.Ok() && T.Ok() && T.s == 1 && (X.s == 1 || X.Mag() == 0 == T.Mag())
    modifies X
    ensures X.Ok() && old(|X.p|) <= |X.p|
    ensures X.V() == old(X.Mag()) - T.Mag()
    ensures X.s == 1 || X.V() <= 0
  {
    hide Val, Pow, Sig;
    if X.s != 1 {
      NothingAddsExactly(X, X, T);
    }
    SubMpi(X, X, T);
  }

  // ---- the digit loop ----

  /** The digits of z above place i - t are found; x is what remains to be divided by y. */
  ghost predicate Dividing(x: seq<limb>, y: seq<limb>, z: seq<limb>, i: nat, t: nat, total: int) {
    && t <= i < |x| && t < |y| && i - t <= |z|
    && y[t] != 0 && (forall k :: t < k < |y| ==> y[k] == 0) && 0 < Val(y, BASE)
    && 0 <= Val(x, BASE) < Val(y, BASE) * Pow(BASE, i - t)
    && (forall k :: 0 <= k < i - t ==> z[k] == 0)
    && Val(z, BASE) * Val(y, BASE) + Val(x, BASE) == total
  }

  lemma StoreDigit(vz: int, y: int, x: int, q: int, w: int, vz': int, x': int)
    requires vz' == vz + (q - 0) * w && x' == x - q * (y * w)
    ensures vz' * y + x' == vz * y + x
  {
    MulAssoc(q, w, y);
  }

  lemma DividingNext(x: seq<limb>, x': seq<limb>, y: seq<limb>, z: seq<limb>, i: nat, t: nat, total: int)
    requires t < i && Dividing(x, y, z, i, t, total) && AtDigit(x, y, i, t) && |x| <= |x'|
    requires Val(x', BASE) == Val(x, BASE) - TrueDigit(x, y, i, t) * Shifted(y, i, t)
    ensures Dividing(x', y, z[i - t - 1 := TrueDigit(x, y, i, t)], i - 1, t, total)
  {
    hide Val, Pow, TrueDigit;
    var q, e := TrueDigit(x, y, i, t), i - t - 1;
    ValUpdate(z, e, q, BASE);
    StoreDigit(Val(z, BASE), Val(y, BASE), Val(x, BASE), q, Pow(BASE, e), Val(z[e := q], BASE), Val(x', BASE));
    ValBounds(x', BASE);
    assert (q + 1) * Shifted(y, i, t) == q * Shifted(y, i, t) + Shifted(y, i, t);
  }

  lemma DividingAt(x: seq<limb>, y: seq<limb>, z: seq<limb>, i: nat, t: nat, total: int)
    requires Dividing(x, y, z, i, t, total)
    ensures t < i ==> AtDigit(x, y, i, t)
    ensures i == t ==> Val(x, BASE) < Val(y, BASE)
    ensures i < |x| && t < |y| && i - t <= |z|
  {
  }

  method DivideLimbs(X: Mpi, Y: Mpi, Z: Mpi, T1: Mpi, T2: Mpi, n: nat, t: nat, ghost total: int)
    requires T1 != X && T1 != Y && T1 != Z && T2 != X && T2 != Y && T2 != Z && T1 != T2
    requires Z != X && Z != Y && X != Y
    requires X.Ok() && Y.Ok() && Y.s == 1 && (X.s == 1 || X.Mag() == 0)
    requires t <= n && Dividing(X.p, Y.p, Z.p, n, t, total) && 2 <= |T1.p| && 3 <= |T2.p|
    modifies X, Z`p, T1, T2
    ensures X.Ok() && (X.s == 1 || X.Mag() == 0)
    ensures Val(Z.p, BASE) * Y.Mag() + X.Mag() == total && X.Mag() < Y.Mag()
    ensures |Z.p| == old(|Z.p|)
  {
    hide Val, Pow, Sig, TrueDigit, Dividing, AtDigit, Shifted;
    var i := n;
    DividingAt(X.p, Y.p, Z.p, i, t, total);
    while i > t
      invariant t <= i <= n && 2 <= |T1.p| && 3 <= |T2.p| && |Z.p| == old(|Z.p|)
      invariant X.Ok() && (X.s == 1 || X.Mag() == 0)
      invariant Dividing(X.p, Y.p, Z.p, i, t, total)
    {
      DividingAt(X.p, Y.p, Z.p, i, t, total);
      ghost var x, z := X.p, Z.p;
      ghost var q := TrueDigit(x, Y.p, i, t);
      EstimateDigit(X, Y, Z, T1, T2, i, t);
      SubtractDigit(X, Y, Z, T1, i, t);
      assert Z.p == z[i - t - 1 := q];
      DividingNext(x, X.p, Y.p, z, i, t, total);
      i := i - 1;
    }
    DividingAt(X.p, Y.p, Z.p, i, t, total);
    DividingTotal(X.p, Y.p, Z.p, i, t, total);
  }

  lemma DividingTotal(x: seq<limb>, y: seq<limb>, z: seq<limb>, i: nat, t: nat, total: int)
    requires Dividing(x, y, z, i, t, total)
    ensures Val(z, BASE) * Val(y, BASE) + Val(x, BASE) == total
  {
  }

  // ---- normalisation and the top digit ----

  lemma SigByValue(p: seq<limb>, q: seq<limb>)
    requires Val(p, BASE) == Val(q, BASE)
    ensures Sig(p) == Sig(q)
  {
    hide Val, Pow, Sig;
    BaseFacts();
    SigMono(p, q, BASE);
    SigMono(q, p, BASE);
  }

  /** The significant limbs are those the bits need. */
  lemma SigIsLimbsFor(p: seq<limb>)
    ensures 0 <= Val(p, BASE) && Sig(p) == LimbsFor(BitLen(Val(p, BASE)))
  {
    hide Val, Pow, Sig, LimbsFor, BitLen, BitsIn;
    BaseFacts();
    ValBounds(p, BASE);
    var v := Val(p, BASE);
    SigLeqBits(p, Sig(p));
    LimbsForLeq(BitLen(v), Sig(p));
    SigLeqBits(p, LimbsFor(BitLen(v)));
    LimbsForLeq(BitLen(v), LimbsFor(BitLen(v)));
  }

  lemma SigLeqBits(p: seq<limb>, k: nat)
    ensures 0 <= Val(p, BASE) && (Sig(p) <= k <==> BitLen(Val(p, BASE)) <= BitsIn(k))
  {
    hide Val, Pow, Sig, BitLen;
    BaseFacts();
    ValBounds(p, BASE);
    SigLeq(p, k, BASE);
    PowPow(2, LIMB_BITS, k);
    BitLenLess(Val(p, BASE), LIMB_BITS * k);
  }

  /** Both operands shifted until the divisor's top limb has LIMB_BITS - 1 bits; no limb above the
      significant ones is left in either. */
  method Normalize(X: Mpi, Y: Mpi) returns (k: nat)
    requires X != Y && X.Ok() && Y.Ok() && |X.p| == Sig(X.p) && |Y.p| == Sig(Y.p)
    modifies X, Y
    ensures X.Ok() && Y.Ok() && X.s == old(X.s) && Y.s == old(Y.s)
    ensures X.Mag() == old(X.Mag()) * Pow(2, k) && Y.Mag() == old(Y.Mag()) * Pow(2, k)
    ensures |X.p| == Sig(X.p) && |Y.p| == Sig(Y.p)
    ensures BitLen(Y.Mag()) % LIMB_BITS == LIMB_BITS - 1 && k < LIMB_BITS
  {
    hide Val, Pow, Sig, LimbsFor, BitLen;
    X.SigFacts();
    Y.SigFacts();
    ghost var x, y := X.Mag(), Y.Mag();
    k := Size(Y);
    k := k % LIMB_BITS;
    if k < LIMB_BITS - 1 {
      k := LIMB_BITS - 1 - k;
      ShiftExact(X, k);
      ShiftExact(Y, k);
      BitLenShift(y, k);
      PadToTop(BitLen(y), LIMB_BITS);
    } else {
      k := 0;
      PowStep(2, 0);
    }
  }

  lemma PadToTop(n: nat, l: int)
    requires 1 < l
    ensures (n + (l - 1 - n % l)) % l == l - 1
  {
    DivModUnique(n + (l - 1 - n % l), l, n / l, l - 1);
  }

  method ShiftExact(X: Mpi, k: nat)
    requires X.Ok() && |X.p| == Sig(X.p)
    modifies X
    ensures X.Ok() && X.s == old(X.s) && X.Mag() == old(X.Mag()) * Pow(2, k)
    ensures |X.p| == Sig(X.p)
  {
    hide Val, Pow, Sig, LimbsFor, BitLen;
    X.SigFacts();
    ghost var m, p := X.Mag(), X.p;
    BitLenShift(m, k);
    SigIsLimbsFor(p);
    ShiftL(X, k);
    SigIsLimbsFor(X.p);
    BaseFacts();
    PowMono(2, 0, k);
    PowStep(2, 0);
    MulMono2(m, 1, Pow(2, k));
    SigMono(p, X.p, BASE);
  }

  lemma TopDigitRoom(x: int, y: int, n: nat, t: nat)
    requires t <= n && x < Pow(BASE, n + 1) && Pow(BASE, t) <= y
    ensures x < BASE * (y * Pow(BASE, n - t)) && 0 < y * Pow(BASE, n - t)
  {
    hide Pow;
    MulMono(Pow(BASE, t), y, Pow(BASE, n - t));
    PowAdd(BASE, t, n - t);
    PowStep(BASE, n);
    MulMono2(BASE, Pow(BASE, n), y * Pow(BASE, n - t));
  }

  lemma CountUp(x: int, w: int, z: int, b: int, x0: int)
    requires 0 < w && z * w + x == x0 && w <= x && x0 < b * w
    ensures (z + 1) * w + (x - w) == x0 && z + 1 < b
  {
    MulCancelLess(z + 1, b, w);
  }

  /** while X >= Y: count in limb k of Z. */
  method CountDown(X: Mpi, Y: Mpi, Z: Mpi, k: nat)
    requires X != Y && Z != X && Z != Y && X.Ok() && Y.Ok() && X.s == 1 && Y.s == 1
    requires k < |Z.p| && Z.p[k] == 0 && 0 < Y.Mag() && X.Mag() < BASE * Y.Mag()
    modifies X, Z`p
    ensures X.Ok() && X.s == 1 && old(|X.p|) <= |X.p| && |Z.p| == old(|Z.p|)
    ensures Z.p == old(Z.p)[k := Z.p[k]]
    ensures Z.p[k] * Y.Mag() + X.Mag() == old(X.Mag()) && X.Mag() < Y.Mag()
  {
    hide Val, Pow, Sig;
    ghost var w, x0, z0 := Y.Mag(), X.Mag(), Z.p;
    var r := CmpMpi(X, Y);
    while r >= 0
      invariant X.Ok() && X.s == 1 && old(|X.p|) <= |X.p| && |Z.p| == |z0|
      invariant r == Order(X.Mag(), w)
      invariant Z.p == z0[k := Z.p[k]] && Z.p[k] * w + X.Mag() == x0
      decreases X.Mag()
    {
      CountUp(X.Mag(), w, Z.p[k], BASE, x0);
      Z.p := Z.p[k := Z.p[k] + 1];
      SubMpi(X, X, Y);
      r := CmpMpi(X, Y);
    }
  }

  lemma TopDigitDone(x: seq<limb>, y: seq<limb>, z: seq<limb>, n: nat, t: nat, d: limb, x0: int)
    requires t <= n < |x| && t + 1 == Sig(y) && n - t < |z| && forall k :: 0 <= k < |z| ==> z[k] == 0
    requires 0 <= Val(x, BASE) < Val(y, BASE) * Pow(BASE, n - t)
    requires d * (Val(y, BASE) * Pow(BASE, n - t)) + Val(x, BASE) == x0
    ensures Dividing(x, y, z[n - t := d], n, t, x0)
  {
    hide Val, Pow, Sig;
    BaseFacts();
    SigBounds(y, BASE);
    ValZeros(z, BASE);
    ValUpdate(z, n - t, d, BASE);
    MulAssoc(d, Pow(BASE, n - t), Val(y, BASE));
  }

  /** The digit at place n - t, found by repeated subtraction of the divisor moved up there. */
  method TopDigit(X: Mpi, Y: Mpi, Z: Mpi, n: nat, t: nat)
    requires X != Y && Z != X && Z != Y && X.Ok() && Y.Ok() && X.s == 1 && Y.s == 1
    requires t <= n && |X.p| == n + 1 && t + 1 == Sig(Y.p)
    requires n - t < |Z.p| && forall k :: 0 <= k < |Z.p| ==> Z.p[k] == 0
    modifies X, Y, Z`p
    ensures X.Ok() && Y.Ok() && X.s == 1 && Y.s == 1 && |Z.p| == old(|Z.p|)
    ensures Y.Mag() == old(Y.Mag())
    ensures Dividing(X.p, Y.p, Z.p, n, t, old(X.Mag()))
  {
    hide Val, Pow, Sig, Dividing;
    ghost var x0, y, z0 := X.Mag(), Y.Mag(), Z.p;
    Y.SigFacts();
    ValBounds(X.p, BASE);
    TopDigitRoom(x0, y, n, t);
    ShiftLimbs(Y, n - t);
    CountDown(X, Y, Z, n - t);
    MoveBack(Y, y, n - t);
    SigByValue(Y.p, old(Y.p));
    TopDigitDone(X.p, Y.p, z0, n, t, Z.p[n - t], x0);
  }

  /** mpi_shift_r undoes mpi_shift_l. */
  method MoveBack(Y: Mpi, ghost y: int, k: nat)
    requires Y.Mag() == y * Pow(BASE, k)
    modifies Y`p
    ensures |Y.p| == old(|Y.p|) && Y.Mag() == y
  {
    hide Val, Pow, Sig;
    LimbShift(1, k);
    MultipleMod(y, Pow(BASE, k));
    ShiftR(Y, LIMB_BITS * k);
  }

  // ---- the whole division ----

  lemma Quotient(a: nat, b: nat, k: nat, z: nat, x: nat)
    requires z * (b * Pow(2, k)) + x == a * Pow(2, k) && x < b * Pow(2, k)
    ensures 0 < b && z == a / b && x / Pow(2, k) == a % b
  {
    hide Pow;
    var c := Pow(2, k);
    MulAssoc(z, b, c);
    assert x == (a - z * b) * c;
    MulCancelLess(a - z * b, b, c);
    if a - z * b < 0 {
      MulMono(a - z * b, -1, c);
    }
    DivModUnique(a, b, z, a - z * b);
    MultipleMod(a - z * b, c);
  }

  /** mpi_div_mpi on operands with |B| <= |A|: the magnitudes of quotient and remainder. */
  method DivideMagnitudes(A: Mpi, B: Mpi) returns (Z: Mpi, X: Mpi, k: nat)
    requires A.Ok() && B.Ok() && 0 < B.Mag() <= A.Mag()
    ensures fresh(Z) && fresh(X) && Z != X && Z.Ok() && X.Ok() && Z.s == 1 && (X.s == 1 || X.Mag() == 0)
    ensures Z.Mag() == A.Mag() / B.Mag() && X.Mag() / Pow(2, k) == A.Mag() % B.Mag()
  {
    hide Val, Pow, Sig, Dividing;
    X := CopyOfMagnitude(A);
    var Y := CopyOfMagnitude(B);
    Z := Grown(|A.p| + 2);
    var T1 := Grown(2);
    var T2 := Grown(3);
    BaseFacts();
    LSet(Z, 0);
    k := Normalize(X, Y);
    var n := |X.p| - 1;
    var t := |Y.p| - 1;
    Normalized(A, B, X, Y, k);
    TopDigit(X, Y, Z, n, t);
    DivideLimbs(X, Y, Z, T1, T2, n, t, A.Mag() * Pow(2, k));
    Quotient(A.Mag(), B.Mag(), k, Z.Mag(), X.Mag());
  }

  /** A fresh number with n limbs. */
  method Grown(n: nat) returns (T: Mpi)
    ensures fresh(T) && T.p == Zeros(n) && T.s == if 0 < n then 1 else 0
  {
    T := new Mpi();
    Grow(T, n);
    assert [] + Zeros(n) == Zeros(n);
  }

  method CopyOfMagnitude(A: Mpi) returns (X: Mpi)
    requires A.Ok() && 0 < A.Mag()
    ensures fresh(X) && X.Ok() && X.s == 1 && X.Mag() == A.Mag() && |X.p| == Sig(X.p)
  {
    hide Val, Pow, Sig;
    A.SigFacts();
    X := new Mpi();
    Copy(X, A);
    X.s := 1;
  }

  lemma Normalized(A: Mpi, B: Mpi, X: Mpi, Y: Mpi, k: nat)
    requires k < LIMB_BITS && 0 < B.Mag() <= A.Mag()
    requires X.Mag() == A.Mag() * Pow(2, k) && Y.Mag() == B.Mag() * Pow(2, k)
    requires |X.p| == Sig(X.p) && |Y.p| == Sig(Y.p)
    ensures 0 < |Y.p| <= |X.p| <= |A.p| + 1
  {
    hide Val, Pow, Sig;
    BaseFacts();
    MulMono(B.Mag(), A.Mag(), Pow(2, k));
    MulStrictMono(0, B.Mag(), Pow(2, k));
    SigMono(Y.p, X.p, BASE);
    Y.SigFacts();
    QuotientRoom(A, X, k);
  }

  /** Normalisation adds at most one limb. */
  lemma QuotientRoom(A: Mpi, X: Mpi, k: nat)
    requires k < LIMB_BITS && X.Mag() == A.Mag() * Pow(2, k) && |X.p| == Sig(X.p)
    ensures |X.p| <= |A.p| + 1
  {
    hide Val, Pow, Sig;
    BaseFacts();
    PowMono(2, k, LIMB_BITS);
    ValBounds(A.p, BASE);
    PowStep(BASE, |A.p|);
    MulMono2(A.Mag(), Pow(2, k), BASE);
    MulStrictMono(A.Mag(), Pow(BASE, |A.p|), BASE);
    SigLeq(X.p, |A.p| + 1, BASE);
  }

  lemma SignedDivision(a: int, b: int, s: int, t: int)
    ensures b > 0 && a >= 0 && (s == 1 || s == -1) && (t == 1 || t == -1) ==>
      (if s < 0 then -a else a) ==
      (if s * t < 0 then -(a / b) else a / b) * (if t < 0 then -b else b) + (if s < 0 then -(a % b) else a % b)
  {
    if b > 0 {
      var q := a / b;
      assert a == q * b + a % b;
      assert (-q) * b == -(q * b) && q * (-b) == -(q * b) && (-q) * (-b) == q * b;
    }
  }

  /** mpi_div_mpi: A = Q * B + R, truncating.  Q has to be an object of its own; R can be A, but
      then loses the sign of a negative A. */
  method DivMpi(Q: Mpi?, R: Mpi?, A: Mpi, B: Mpi) returns (ret: int)
    requires A.Ok() && B.Ok()
    requires Q != null ==> Q != A && Q != B && Q != R
    modifies Q, R
    ensures ret == if old(B.Mag()) == 0 then ERR_MPI_DIVISION_BY_ZERO else 0
    ensures ret != 0 && Q != null ==> Q.s == old(Q.s) && Q.p == old(Q.p)
    ensures ret != 0 && R != null ==> R.s == old(R.s) && R.p == old(R.p)
    ensures ret == 0 && Q != null ==> Q.Ok() && Q.Mag() == old(A.Mag()) / old(B.Mag())
    ensures ret == 0 && Q != null ==>
              Q.s == if old(A.Mag()) < old(B.Mag()) then 1 else old(A.s) * old(B.s)
    ensures ret == 0 && R != null ==> R.Ok() && R.Mag() == old(A.Mag()) % old(B.Mag())
    ensures ret == 0 && R != null ==>
              R.V() == if old(A.s) == 1 || (R == A && old(B.Mag()) <= old(A.Mag())) then R.Mag() else -R.Mag()
    ensures ret == 0 && R != null && R.Mag() == 0 && old(B.Mag()) <= old(A.Mag()) ==> R.s == 1
    ensures ret == 0 && R != null && R.Mag() != 0 && old(A.s) == 1 ==> R.s == 1
    ensures ret == 0 && R != null && old(A.Mag()) < old(B.Mag()) ==> R.s == old(A.s)
    ensures ret == 0 && R != null ==> old(|R.p|) <= |R.p|
    ensures ret == 0 && Q != null && R != null && (R != A || old(A.s) == 1) ==>
              old(A.V()) == Q.V() * old(B.V()) + R.V()
  {
    hide Val, Pow, Sig;
    B.SigFacts();
    SignedDivision(A.Mag(), B.Mag(), A.s, B.s);
    var r := CmpInt(B, 0);
    if r == 0 {
      return ERR_MPI_DIVISION_BY_ZERO;
    }
    r := CmpAbs(A, B);
    if r < 0 {
      DivModUnique(A.Mag(), B.Mag(), 0, A.Mag());
      BaseFacts();
      if Q != null {
        LSet(Q, 0);
      }
      if R != null {
        Copy(R, A);
      }
      return 0;
    }
    var Z, X, k := DivideMagnitudes(A, B);
    if Q != null {
      Copy(Q, Z);
      Q.s := A.s * B.s;
    }
    if R != null {
      ShiftR(X, k);
      StoreRemainder(R, X, A);
    }
    return 0;
  }

  /** The end of mpi_div_mpi: the sign of A is read after R is written. */
  method StoreRemainder(R: Mpi, X: Mpi, A: Mpi)
    requires R != X && X != A && X.Ok() && A.Ok() && (X.s == 1 || X.Mag() == 0)
    modifies R
    ensures R.Ok() && R.Mag() == X.Mag() && old(|R.p|) <= |R.p|
    ensures R.s == if X.Mag() == 0 || R == A then 1 else A.s
  {
    hide Val, Pow, Sig;
    Copy(R, X);
    R.s := A.s;
    var r := CmpInt(R, 0);
    if r == 0 {
      R.s := 1;
    }
  }

  lemma NegativeMod(a: int, b: int)
    requires 0 < b
    ensures (-a) % b == if a % b == 0 then 0 else b - a % b
  {
    var q, r := a / b, a % b;
    if r == 0 {
      DivModUnique(-a, b, -q, 0);
    } else {
      DivModUnique(-a, b, -q - 1, b - r);
    }
  }

  /** A zero that carries a minus sign. */
  ghost predicate NegativeZero(A: Mpi)
    reads A
  {
    A.Mag() == 0 && A.s == -1
  }

  /** mpi_mod_mpi: the residue in [0, B), unless A is a negative zero, which gives -B. */
  method ModMpi(R: Mpi, A: Mpi, B: Mpi) returns (ret: int)
    requires A.Ok() && B.Ok() && B.s == 1 && R != B
    requires R == A ==> A.s == 1
    modifies R
    ensures ret == if B.Mag() == 0 then ERR_MPI_DIVISION_BY_ZERO else 0
    ensures ret != 0 ==> R.s == old(R.s) && R.p == old(R.p)
    ensures ret == 0 ==> R.Ok() && old(|R.p|) <= |R.p|
    ensures ret == 0 ==> R.V() == if old(NegativeZero(A)) then -B.V() else old(A.V()) % B.V()
    ensures ret == 0 && !old(NegativeZero(A)) ==> R.s == 1
  {
    hide Val, Pow, Sig, AddFaulty;
    ghost var a, b, residue, negZero := A.Mag(), B.Mag(), 0, NegativeZero(A);
    if b != 0 {
      residue := A.V() % b;
      NegativeMod(a, b);
    }
    B.SigFacts();
    ret := DivMpi(null, R, A, B);
    if ret != 0 {
      return;
    }
    R.SigFacts();
    if a < b {
      DivModUnique(a, b, 0, a);
    }
    var r := CmpInt(R, 0);
    while r < 0
      invariant R.Ok() && old(|R.p|) <= |R.p| && r == Order(R.V(), 0)
      invariant r < 0 ==> R.s == -1 && R.V() == -(a % b) && residue == b - a % b
      invariant 0 <= r ==> if negZero then R.V() == 0 && R.s == -1 else R.V() == residue && R.s == 1
      decreases -R.V()
    {
      AddMpi(R, R, B);
      r := CmpInt(R, 0);
    }
    R.SigFacts();
    r := CmpMpi(R, B);
    while r >= 0
      invariant R.Ok() && old(|R.p|) <= |R.p|
      invariant r < 0 ==> if negZero then R.V() == -b else R.V() == residue && R.s == 1
      invariant 0 <= r ==> negZero && R.V() == 0 && R.s == -1
      decreases r
    {
      ZeroAddsExactly(R, B);
      SubMpi(R, R, B);
      R.SigFacts();
      SigByMag(R, B);
      r := CmpMpi(R, B);
    }
  }

  lemma SigByMag(X: Mpi, Y: Mpi)
    ensures X.Mag() == Y.Mag() ==> Sig(X.p) == Sig(Y.p)
  {
    if X.Mag() == Y.Mag() {
      SigByValue(X.p, Y.p);
    }
  }
}
