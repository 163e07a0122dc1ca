/** Montgomery initialisation, multiplication and reduction (algorithms 14.32 and 14.36 of the
    Handbook of Applied Cryptography). */
module Montgomery {
  import opened Arithmetic
  import opened Digits
  import opened Limbs
  import opened Mpis
  import opened MpiAddSub
  import opened MpiMul

  // ---- mpi_montg_init ----

  /** x is the inverse of m modulo 2^k. */
  ghost predicate InverseModPow2(x: int, m: int, k: nat) {
    Cong(x * m, 1, Pow(2, k))
  }

  /** The first approximation has four correct bits. */
  lemma FirstApproximation(m: int, c: int)
    requires m % 2 == 1 && c == ((m + 2) / 4) % 2
    ensures ((m + 8 * c) * m - 1) % 16 == 0
  {
    var q, r := m / 8, m % 8;
    assert r % 2 == 1 by { EvenMultiple(r, 4, q); }
    ApproximationBit(m, q, r, c);
    SquareMod16(q, r, c, m + 8 * c, m);
  }

  lemma ApproximationBit(m: int, q: int, r: int, c: int)
    requires m % 2 == 1 && c == ((m + 2) / 4) % 2 && m == 8 * q + r && 0 <= r < 8 && r % 2 == 1
    ensures if c == 0 then r == 1 || r == 7 else c == 1 && (r == 3 || r == 5)
  {
    if r == 1 {
      DivModUnique(m + 2, 4, 2 * q, 3);
      DivModUnique(2 * q, 2, q, 0);
    } else if r == 7 {
      DivModUnique(m + 2, 4, 2 * q + 2, 1);
      DivModUnique(2 * q + 2, 2, q + 1, 0);
    } else {
      DivModUnique(m + 2, 4, 2 * q + 1, r - 2);
      DivModUnique(2 * q + 1, 2, q, 1);
    }
  }

  lemma SquareMod16(q: int, r: int, c: int, x: int, m: int)
    requires x == 8 * q + (r + 8 * c) && m == 8 * q + r
    requires if c == 0 then r == 1 || r == 7 else c == 1 && (r == 3 || r == 5)
    ensures (x * m - 1) % 16 == 0
  {
    if r == 1 {
      ProductMod16(q, 1, 1, 1, 0);
    } else if r == 3 {
      ProductMod16(q, 11, 3, 7, 2);
    } else if r == 5 {
      ProductMod16(q, 13, 5, 9, 4);
    } else {
      ProductMod16(q, 7, 7, 7, 3);
    }
  }

  lemma ProductMod16(q: int, a: int, b: int, k: int, l: int)
    requires a + b == 2 * k && a * b == 16 * l + 1
    ensures ((8 * q + a) * (8 * q + b) - 1) % 16 == 0
  {
    ExpandProduct(q, a, b);
    assert (2 * k) * q == 2 * (k * q);
    DivModUnique((8 * q + a) * (8 * q + b) - 1, 16, 4 * (q * q) + k * q + l, 0);
  }

  lemma ExpandProduct(q: int, a: int, b: int)
    ensures (8 * q + a) * (8 * q + b) == 64 * (q * q) + 8 * ((a + b) * q) + a * b
  {
  }

  lemma NewtonIdentity(x: int, m: int)
    ensures (x * (2 - m * x)) * m - 1 == -((x * m - 1) * (x * m - 1))
  {
    var y := x * m;
    assert m * x == y;
    calc {
      (x * (2 - y)) * m;
      { MulAssoc(x, 2 - y, m); MulAssoc(x, m, 2 - y); }
      y * (2 - y);
    }
  }

  lemma SquaredError(x: int, m: int, d: int)
    requires 0 < d && Cong(x * m, 1, d)
    ensures Cong((x * (2 - m * x)) * m, 1, d * d)
  {
    hide Cong;
    var j := CongElim(x * m, 1, d);
    NewtonIdentity(x, m);
    MulShuffle(j, d, j, d);
    CongIntro((x * (2 - m * x)) * m, 1, d * d, -(j * j));
  }

  /** A congruence modulo BASE holds modulo every smaller power of two. */
  lemma CoarserCong(a: int, b: int, k: nat)
    requires k <= LIMB_BITS && Cong(a, b, BASE)
    ensures Cong(a, b, Pow(2, k))
  {
    hide Pow, Cong;
    var i := CongElim(a, b, BASE);
    PowAdd(2, LIMB_BITS - k, k);
    MulAssoc(i, Pow(2, LIMB_BITS - k), Pow(2, k));
    CongIntro(a, b, Pow(2, k), i * Pow(2, LIMB_BITS - k));
  }

  /** One Newton step doubles the number of correct bits. */
  lemma NewtonStep(x: int, m: int, k: nat, x': int)
    requires InverseModPow2(x, m, k) && 2 * k <= LIMB_BITS && Cong(x', x * (2 - m * x), BASE)
    ensures InverseModPow2(x', m, 2 * k)
  {
    hide Pow, Cong;
    var y, d2 := x * (2 - m * x), Pow(2, 2 * k);
    PowAdd(2, k, k);
    SquaredError(x, m, Pow(2, k));
    CoarserCong(x', y, 2 * k);
    CongRefl(m, d2);
    CongMul(x', y, m, m, d2);
    CongTrans(x' * m, y * m, 1, d2);
  }

  /** t_int arithmetic is arithmetic modulo BASE. */
  function Wrap(x: int): (r: int)
    ensures 0 <= r < BASE
  {
    x % BASE
  }

  /** What mpi_montmul needs of mm: mm * N[0] = -1 mod BASE. */
  ghost predicate MontConst(mm: int, n0: int) { (mm * n0 + 1) % BASE == 0 }

  /** mpi_montg_init: mm = -N[0]^-1 mod BASE. */
  method MontgInit(N: Mpi) returns (mm: limb)
    requires 0 < |N.p| && N.p[0] % 2 == 1
    ensures MontConst(mm, N.p[0])
  {
    hide Pow, Cong, InverseModPow2, Wrap;
    BaseFacts();
    var m0: int := N.p[0];
    var x := m0;
    x := Wrap(x + Wrap(8 * ((Wrap(m0 + 2) / 4) % 2)));
    FirstStep(m0, x);
    var y := NewtonIterate(x, m0, 4);
    x := NewtonIterate(y, m0, 8);
    if LIMB_BITS >= 32 {
      x := NewtonIterate(x, m0, 16);
    }
    if LIMB_BITS >= 64 {
      x := NewtonIterate(x, m0, 32);
    }
    mm := Wrap(Wrap(BASE - 1 - x) + 1);
    NegatedInverse(x, m0, mm);
  }

  lemma FirstStep(m: int, x: int)
    requires 0 <= m < BASE && m % 2 == 1 && x == Wrap(m + Wrap(8 * ((Wrap(m + 2) / 4) % 2)))
    ensures 0 <= x < BASE && InverseModPow2(x, m, 4)
  {
    hide Pow, Wrap;
    BaseFacts();
    var h := Pow(2, LIMB_BITS - 4);
    SixteenDivides();
    var c := (Wrap(m + 2) / 4) % 2;
    WrapKeepsBit2(m, h);
    FirstApproximation(m, c);
    WrapSmall(8 * c);
    WrapIs(m + 8 * c);
    ReduceMod(m + 8 * c, x, m, h, BASE);
  }

  lemma SixteenDivides()
    ensures Pow(2, 4) == 16 && BASE == 16 * Pow(2, LIMB_BITS - 4)
  {
    PowAdd(2, 2, 2);
    PowAdd(2, 4, LIMB_BITS - 4);
  }

  lemma WrapSmall(x: int)
    requires 0 <= x < BASE
    ensures Wrap(x) == x
  {
    DivModUnique(x, BASE, 0, x);
  }

  lemma Bit2Periodic(x: int, h: int)
    ensures ((x + 16 * h) / 4) % 2 == (x / 4) % 2
  {
    var q, r := x / 4, x % 4;
    DivModUnique(x + 16 * h, 4, q + 4 * h, r);
    var u, v := q / 2, q % 2;
    DivModUnique(q + 4 * h, 2, u + 2 * h, v);
  }

  lemma WrapOver(x: int)
    requires BASE <= x < 2 * BASE
    ensures Wrap(x) == x - BASE
  {
    DivModUnique(x, BASE, 1, x - BASE);
  }

  lemma WrapIs(x: int)
    ensures x == (x / BASE) * BASE + Wrap(x)
  {
  }

  /** Wrapping at BASE does not touch bit 2. */
  lemma WrapKeepsBit2(m: int, h: int)
    requires 0 < h && BASE == 16 * h && 0 <= m < BASE
    ensures (Wrap(m + 2) / 4) % 2 == ((m + 2) / 4) % 2
  {
    hide Wrap;
    BaseFacts();
    if m + 2 < BASE {
      WrapSmall(m + 2);
    } else {
      WrapOver(m + 2);
      Bit2Periodic(m + 2 - BASE, h);
    }
  }

  lemma ReduceMod(y: int, x: int, m: int, h: int, b: int)
    requires 0 < h && b == 16 * h && x == y - (y / b) * b && (y * m - 1) % 16 == 0
    ensures (x * m - 1) % 16 == 0
  {
    var k := y / b;
    MulAssoc(k, 16, h);
    MulAssoc(16, k, h);
    MulAssoc(16, k * h, m);
    var j := (k * h) * m;
    assert x == y - 16 * (k * h);
    assert x * m == y * m - 16 * j;
  }

  method NewtonIterate(x: int, m0: int, ghost k: nat) returns (x': int)
    requires InverseModPow2(x, m0, k) && 2 * k <= LIMB_BITS
    ensures 0 <= x' < BASE && InverseModPow2(x', m0, 2 * k)
  {
    hide Pow, Cong, InverseModPow2;
    x' := Wrap(x * Wrap(2 - Wrap(m0 * x)));
    WrappedStep(x, m0);
    NewtonStep(x, m0, k, x');
  }

  lemma WrappedStep(x: int, m: int)
    ensures 0 < BASE && Cong(Wrap(x * Wrap(2 - Wrap(m * x))), x * (2 - m * x), BASE)
  {
    hide Pow, Cong;
    CongMod(m * x, BASE);
    var a := Wrap(m * x);
    var j := CongElim(a, m * x, BASE);
    CongIntro(2 - a, 2 - m * x, BASE, -j);
    var b := Wrap(2 - a);
    CongMod(2 - a, BASE);
    CongTrans(b, 2 - a, 2 - m * x, BASE);
    CongRefl(x, BASE);
    CongMul(x, x, b, 2 - m * x, BASE);
    CongMod(x * b, BASE);
    CongTrans(Wrap(x * b), x * b, x * (2 - m * x), BASE);
  }

  lemma NegatedInverse(x: int, m: int, mm: int)
    requires 0 <= x < BASE && InverseModPow2(x, m, LIMB_BITS) && mm == Wrap(Wrap(BASE - 1 - x) + 1)
    ensures MontConst(mm, m)
  {
    hide Pow, Cong;
    var k := CongElim(x * m, 1, BASE);
    if x == 0 {
      DivModUnique(BASE, BASE, 1, 0);
      MultipleMod(1 - k, BASE);
    } else {
      DivModUnique(BASE - x, BASE, 0, BASE - x);
      DivModUnique(BASE - 1 - x, BASE, 0, BASE - 1 - x);
      assert (BASE - x) * m + 1 == (m - k) * BASE;
      MultipleMod(m - k, BASE);
    }
  }

  // ---- mpi_montmul ----

  /** After i of the n steps: the low i limbs of A times B, times BASE^-i, is t modulo N; t sits in
      the n + 2 limbs from T[i] on, everything above is zero, and below are the limbs of A. */
  ghost predicate Reducing(t: seq<limb>, a: seq<limb>, b: int, nv: int, i: nat, n: nat) {
    && i <= n <= |a| && 0 < nv && 2 * n + 2 <= |t|
    && Cong(Val(t[i..i + n + 2], BASE) * Pow(BASE, i), Val(a[..i], BASE) * b, nv)
    && 0 <= Val(t[i..i + n + 2], BASE) < nv + b
    && t[..i] == a[..i]
    && (forall k :: i + n + 2 <= k < |t| ==> t[k] == 0)
  }

  lemma ReducingFirst(t: seq<limb>, a: seq<limb>, b: int, nv: int, n: nat)
    requires n <= |a| && 0 < nv && 0 <= b && 2 * n + 2 <= |t| && forall k :: 0 <= k < |t| ==> t[k] == 0
    ensures Reducing(t, a, b, nv, 0, n)
  {
    hide Pow, Cong;
    ValZeros(t[0..n + 2], BASE);
    ValZeros(a[..0], BASE);
    CongRefl(0, nv);
  }

  /** Two limbs more than N hold every intermediate sum. */
  lemma StepRoom(t: int, u0: int, u1: int, b: int, nv: int, n: nat)
    requires 0 <= t < nv + b && 0 <= u0 < BASE && 0 <= u1 < BASE && 0 <= b <= nv < Pow(BASE, n)
    ensures 0 <= u0 * b && 0 <= u1 * nv
    ensures t + u0 * b + u1 * nv < BASE * (nv + b)
    ensures t + u0 * b + u1 * nv < Pow(BASE, n + 2)
  {
    hide Pow;
    BaseFacts();
    MulNonNegative(u0, b);
    MulNonNegative(u1, nv);
    MulMono(u0, BASE - 1, b);
    MulMono(u1, BASE - 1, nv);
    PowStep(BASE, n);
    PowStep(BASE, n + 1);
    TwiceFits(nv + b, Pow(BASE, n), BASE);
  }

  lemma TwiceFits(x: int, w: int, b: int)
    requires x < 2 * w && 2 <= b && 0 < w
    ensures b * x < b * (b * w)
  {
    MulMono(2, b, w);
    MulStrictMono(x, b * w, b);
  }

  /** The multiplier u1 clears the low limb. */
  lemma LowLimbCleared(s0: int, mm: int, n0: int)
    requires MontConst(mm, n0)
    ensures Cong(s0 + Wrap(s0 * mm) * n0, 0, BASE)
  {
    hide Cong, Pow;
    var p, u1, b := mm * n0, Wrap(s0 * mm), BASE;
    assert Cong(p, -1, b) by {
      var k := (p + 1) / b;
      DivIsMultiple(p + 1, b);
      CongIntro(p, -1, b, k);
    }
    CongMod(s0 * mm, b);
    CongRefl(n0, b);
    CongMul(u1, s0 * mm, n0, n0, b);
    MulAssoc(s0, mm, n0);
    CongRefl(s0, b);
    CongMul(s0, s0, p, -1, b);
    CongTrans(u1 * n0, s0 * p, s0 * -1, b);
    CongAdd(s0, s0, u1 * n0, s0 * -1, b);
  }

  /** u1 = (d[0] + u0 * B[0]) * mm */
  function Multiplier(d0: int, u0: int, b0: int, mm: int): (r: int)
    ensures 0 <= r < BASE
  {
    Wrap((d0 + u0 * b0) * mm)
  }

  /** The window sum is a multiple of BASE. */
  lemma LowLimbOfSum(t: seq<limb>, b: seq<limb>, nn: seq<limb>, u0: int, u1: int, mm: int)
    requires 0 < |t| && 0 < |b| && 0 < |nn| && MontConst(mm, nn[0])
    requires u1 == Multiplier(t[0], u0, b[0], mm)
    ensures Cong(Val(t, BASE) + u0 * Val(b, BASE) + u1 * Val(nn, BASE), 0, BASE)
  {
    hide Val, Pow, Cong, MontConst, Multiplier;
    ValHead(t, BASE);
    ValHead(b, BASE);
    ValHead(nn, BASE);
    LiftLowLimb(t[0], Val(t[1..], BASE), Val(t, BASE), u0, b[0], Val(b[1..], BASE), Val(b, BASE),
                u1, nn[0], Val(nn[1..], BASE), Val(nn, BASE), mm);
  }

  lemma LiftLowLimb(t0: int, t1: int, t: int, u0: int, b0: int, b1: int, bv: int,
                    u1: int, n0: int, n1: int, nv: int, mm: int)
    requires MontConst(mm, n0) && u1 == Multiplier(t0, u0, b0, mm)
    requires t == t0 + BASE * t1 && bv == b0 + BASE * b1 && nv == n0 + BASE * n1
    ensures Cong(t + u0 * bv + u1 * nv, 0, BASE)
  {
    hide Cong, Pow, MontConst, Wrap;
    var s0 := t0 + u0 * b0;
    LowLimbCleared(s0, mm, n0);
    ScaleLow(u0, b0, b1, bv, BASE);
    ScaleLow(u1, n0, n1, nv, BASE);
    hide Multiplier;
    AddMultiples(s0 + u1 * n0, t1, u0 * b1, u1 * n1, t + u0 * bv + u1 * nv, BASE);
  }

  lemma AddMultiples(x: int, x1: int, x2: int, x3: int, y: int, b: int)
    requires 0 < b && Cong(x, 0, b) && y == x + b * x1 + x2 * b + x3 * b
    ensures Cong(y, 0, b)
  {
    hide Cong;
    var k := CongElim(x, 0, b);
    CongIntro(y, 0, b, k + x1 + x2 + x3);
  }

  lemma ScaleLow(u: int, x0: int, x1: int, x: int, b: int)
    requires x == x0 + b * x1
    ensures u * x == u * x0 + (u * x1) * b
  {
    MulAssoc(u, x1, b);
  }

  /** Dropping the cleared limb divides by BASE. */
  lemma StepCong(t: int, s: int, t': int, u0: int, u1: int, a: int, b: int, nv: int, w: int, base: int)
    requires 0 < nv && Cong(t * w, a * b, nv) && s == t + u0 * b + u1 * nv && s == base * t'
    ensures Cong(t' * (base * w), (a + u0 * w) * b, nv)
  {
    hide Cong;
    var k := CongElim(t * w, a * b, nv);
    calc {
      t' * (base * w);
      { MulAssoc(t', base, w); }
      s * w;
      t * w + (u0 * b) * w + (u1 * nv) * w;
      { MulAssoc(u0, b, w); MulAssoc(u0, w, b); MulAssoc(u1, nv, w); MulAssoc(u1, w, nv); }
      a * b + k * nv + (u0 * w) * b + (u1 * w) * nv;
    }
    assert (a + u0 * w) * b == a * b + (u0 * w) * b;
    assert (k + u1 * w) * nv == k * nv + (u1 * w) * nv;
    CongIntro(t' * (base * w), (a + u0 * w) * b, nv, k + u1 * w);
  }

  lemma DropClearedLimb(w: seq<limb>)
    requires 0 < |w| && Val(w, BASE) % BASE == 0
    ensures Val(w, BASE) == BASE * Val(w[1..] + [0], BASE) && 0 <= Val(w[1..] + [0], BASE)
  {
    hide Val, Pow;
    BaseFacts();
    var v := w[1..] + [0];
    assert w[0..] == w && v[..|w| - 1] == w[1..];
    ValCons(w, 0, BASE);
    DivModUnique(Val(w, BASE), BASE, Val(w[1..], BASE), w[0]);
    ValZeroTop(v, |w| - 1, BASE);
    ValBounds(v, BASE);
  }

  /** One step: s is the window after both multiply-adds, t' the buffer after *d++ = u0; d[n+1] = 0. */
  lemma ReducingNext(t: seq<limb>, s: seq<limb>, t': seq<limb>, a: seq<limb>, b: int, nv: int, u1: limb, i: nat, n: nat)
    requires i < n && n <= |a| && Reducing(t, a, b, nv, i, n) && SameOutside(s, t, i, n + 2)
    requires 0 <= b <= nv < Pow(BASE, n)
    requires Val(s[i..i + n + 2], BASE) == Val(t[i..i + n + 2], BASE) + a[i] * b + u1 * nv
    requires Val(s[i..i + n + 2], BASE) % BASE == 0
    requires t' == s[i := a[i]][i + n + 2 := 0]
    ensures Reducing(t', a, b, nv, i + 1, n)
  {
    hide Val, Pow, Cong;
    BaseFacts();
    var w := s[i..i + n + 2];
    assert t'[i + 1..i + 1 + n + 2] == w[1..] + [0];
    var sv, v := Val(w, BASE), Val(w[1..] + [0], BASE);
    DropClearedLimb(w);
    StepCong(Val(t[i..i + n + 2], BASE), sv, v, a[i], u1, Val(a[..i], BASE), b, nv, Pow(BASE, i), BASE);
    PowStep(BASE, i);
    ValSnoc(a, i, BASE);
    StepRoom(Val(t[i..i + n + 2], BASE), a[i], u1, b, nv, n);
    MulCancelLess(v, nv + b, BASE);
    assert t'[..i + 1] == a[..i + 1] by {
      assert t'[..i] == s[..i] == t[..i];
    }
  }

  /** The operands of one Montgomery product. */
  ghost predicate MontReady(A: Mpi, B: Mpi, N: Mpi, mm: int, T: Mpi)
    reads A, B, N, T
  {
    && A != N && A != T && B != T && N != T
    && 0 < |N.p| < |A.p| && 0 < |B.p| && 2 * |N.p| + 2 <= |T.p|
    && 0 < N.Mag() && A.Mag() < Pow(BASE, |N.p|) && B.Mag() <= N.Mag()
    && MontConst(mm, N.p[0])
  }

  /** B fits the limbs of N that are used. */
  lemma UsedLimbs(b: seq<limb>, m: nat, n: nat)
    requires m == (if |b| < n then |b| else n) && Val(b, BASE) < Pow(BASE, n)
    ensures Val(b[..m], BASE) == Val(b, BASE)
  {
    hide Val, Pow;
    if |b| < n {
      assert b[..m] == b;
    } else {
      SmallValZeroTop(b, n, BASE);
    }
  }

  /** One row: T = (T + u0 * B + u1 * N) / 2^biL, in place. */
  method MontStep(A: Mpi, B: Mpi, N: Mpi, mm: limb, T: Mpi, i: nat, m: nat)
    requires MontReady(A, B, N, mm, T) && i < |N.p| && m == if |B.p| < |N.p| then |B.p| else |N.p|
    requires Reducing(T.p, A.p, B.Mag(), N.Mag(), i, |N.p|)
    modifies T`p
    ensures |T.p| == old(|T.p|) && Reducing(T.p, A.p, B.Mag(), N.Mag(), i + 1, |N.p|)
  {
    hide Val, Pow, Cong, MontConst, Multiplier, Wrap, Reducing;
    var n := |N.p|;
    ghost var t, b, nv := T.p, B.Mag(), N.Mag();
    ghost var win := t[i..i + n + 2];
    ReducingRange(t, A.p, b, nv, i, n);
    ValBounds(N.p, BASE);
    UsedLimbs(B.p, m, n);
    assert N.p[..n] == N.p;
    var u0 := A.p[i];
    var u1 := Multiplier(T.p[i], u0, B.p[0], mm);
    assert win[0] == T.p[i];
    LowLimbOfSum(win, B.p, N.p, u0, u1, mm);
    StepRoom(Val(win, BASE), u0, u1, b, nv, n);
    MulHlp(m, B.p, T, i, u0, n + 2);
    MulHlp(n, N.p, T, i, u1, n + 2);
    ghost var s := T.p;
    T.p := T.p[i := u0];
    BaseFacts();
    T.p := T.p[i + n + 2 := 0];
    CongZero(Val(s[i..i + n + 2], BASE), BASE);
    ReducingNext(t, s, T.p, A.p, b, nv, u1, i, n);
  }

  lemma ReducingRange(t: seq<limb>, a: seq<limb>, b: int, nv: int, i: nat, n: nat)
    requires Reducing(t, a, b, nv, i, n)
    ensures i + n + 2 <= |t| && 0 <= Val(t[i..i + n + 2], BASE) < nv + b
  {
  }

  /** The rows leave the reduced product in the limbs of T from n on, and A below them. */
  lemma ReducingLast(t: seq<limb>, a: seq<limb>, b: int, nv: int, n: nat)
    requires Reducing(t, a, b, nv, n, n) && 0 <= b <= nv < Pow(BASE, n) && Val(a, BASE) < Pow(BASE, n)
    ensures n + n + 1 <= |t| && t[..n] == a[..n]
    ensures 0 <= Val(t[n..n + n + 1], BASE) < 2 * nv
    ensures Val(t, BASE) == Val(a, BASE) + Pow(BASE, n) * Val(t[n..n + n + 1], BASE)
    ensures Cong(Val(t[n..n + n + 1], BASE) * Pow(BASE, n), Val(a, BASE) * b, nv)
  {
    hide Val, Pow, Cong;
    BaseFacts();
    var w := t[n..n + n + 2];
    PowStep(BASE, n);
    MulMono(2, BASE, Pow(BASE, n));
    SmallValZeroTop(w, n + 1, BASE);
    assert w[..n + 1] == t[n..n + n + 1];
    SmallValZeroTop(a, n, BASE);
    ValSplit(t, n, BASE);
    ValZeroTop(t[n..], n + 2, BASE);
    assert t[n..][..n + 2] == w;
  }

  /** The value after memcpy( A->p, d, ciL * (n + 1) ). */
  lemma CopiedBack(a: seq<limb>, r: seq<limb>, n: nat)
    requires |r| == n + 1 <= |a| && Val(a, BASE) < Pow(BASE, n)
    ensures Val(r + a[n + 1..], BASE) == Val(r, BASE)
  {
    hide Val, Pow;
    SmallValZeroTop(a, n, BASE);
    var x := r + a[n + 1..];
    assert x[..n + 1] == r;
    ValZeroTop(x, n + 1, BASE);
  }

  /** The low n limbs of the result do not exceed what T then holds. */
  lemma DummyFits(r: seq<limb>, n: nat, low: int, t: int)
    requires n <= |r| && 0 <= low && t == low + Pow(BASE, n) * Val(r, BASE) && Val(r, BASE) < Pow(BASE, n)
    ensures Val(r[..n], BASE) <= t
  {
    hide Val, Pow;
    ValBounds(r, BASE);
    SmallValZeroTop(r, n, BASE);
    MulMono(1, Pow(BASE, n), Val(r, BASE));
  }

  lemma SubtractModulus(x: int, w: int, y: int, nv: int)
    requires 0 < nv && Cong(x * w, y, nv)
    ensures Cong((x - nv) * w, y, nv)
  {
    hide Cong;
    var k := CongElim(x * w, y, nv);
    assert (x - nv) * w == x * w - w * nv;
    CongIntro((x - nv) * w, y, nv, k - w);
  }

  /** mpi_montmul: A = A * B * R^-1 mod N for R = BASE^n, n the limbs of N. */
  method MontMul(A: Mpi, B: Mpi, N: Mpi, mm: limb, T: Mpi)
    requires MontReady(A, B, N, mm, T)
    modifies A`p, T`p
    ensures |A.p| == old(|A.p|) && |T.p| == old(|T.p|)
    ensures A.Mag() < N.Mag()
    ensures Cong(A.Mag() * Pow(BASE, |N.p|), old(A.Mag()) * old(B.Mag()), N.Mag())
  {
    hide Val, Pow, Cong, MontConst, Multiplier, Wrap, Reducing, Sig;
    ghost var a, b, nv := A.Mag(), B.Mag(), N.Mag();
    T.p := Zeros(|T.p|);
    var n := |N.p|;
    var m := if |B.p| < n then |B.p| else n;
    ReducingFirst(T.p, A.p, b, nv, n);
    var i := 0;
    while i < n
      invariant i <= n && |T.p| == old(|T.p|) && A.p == old(A.p)
      invariant Reducing(T.p, A.p, b, nv, i, n)
    {
      MontStep(A, B, N, mm, T, i, m);
      i := i + 1;
    }
    ValBounds(N.p, BASE);
    ReducingLast(T.p, A.p, b, nv, n);
    CopiedBack(A.p, T.p[n..n + n + 1], n);
    A.p := T.p[n..n + n + 1] + A.p[n + 1..];
    FinalSubtraction(A, N, T, a, a * b);
  }

  /** The end of mpi_montmul: reduce the result, or perform the subtraction on T for show. */
  method FinalSubtraction(A: Mpi, N: Mpi, T: Mpi, ghost a: int, ghost product: int)
    requires A != N && A != T && N != T && 0 < |N.p| < |A.p| && |N.p| <= |T.p| && 0 < N.Mag()
    requires 0 <= a && A.Mag() < 2 * N.Mag() && T.Mag() == a + Pow(BASE, |N.p|) * A.Mag()
    requires Cong(A.Mag() * Pow(BASE, |N.p|), product, N.Mag())
    modifies A`p, T`p
    ensures |A.p| == old(|A.p|) && |T.p| == old(|T.p|) && A.Mag() < N.Mag()
    ensures Cong(A.Mag() * Pow(BASE, |N.p|), product, N.Mag())
  {
    hide Val, Pow, Cong, Sig;
    var n := |N.p|;
    assert N.p[..n] == N.p;
    ValBounds(N.p, BASE);
    var r := CmpAbs(A, N);
    if r >= 0 {
      SubtractModulus(A.Mag(), Pow(BASE, n), product, N.Mag());
      SubHlp(n, N.p, A);
    } else {
      DummyFits(A.p, n, a, T.Mag());
      SubHlp(n, A.p, T);
    }
  }

  /** mpi_montred: A = A * R^-1 mod N. */
  method MontRed(A: Mpi, N: Mpi, mm: limb, T: Mpi)
    requires A != N && A != T && N != T
    requires 0 < |N.p| < |A.p| && 2 * |N.p| + 2 <= |T.p|
    requires 0 < N.Mag() && A.Mag() < Pow(BASE, |N.p|) && MontConst(mm, N.p[0])
    modifies A`p, T`p
    ensures |A.p| == old(|A.p|) && |T.p| == old(|T.p|)
    ensures A.Mag() < N.Mag()
    ensures Cong(A.Mag() * Pow(BASE, |N.p|), old(A.Mag()), N.Mag())
  {
    hide Val, Pow, Cong, MontConst;
    BaseFacts();
    var U := new Mpi();
    U.s := 1;
    U.p := [1];
    ValOne(1, BASE);
    MontMul(A, U, N, mm, T);
  }
}
