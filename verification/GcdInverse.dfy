/** Binary greatest common divisor and binary extended Euclid, mpi_gcd and mpi_inv_mod
    (algorithms 14.54 and 14.61 of the Handbook of Applied Cryptography). */
module GcdInverse {
  import opened Arithmetic
  import opened NumberTheory
  import opened Digits
  import opened Limbs
  import opened Mpis
  import opened MpiShift
  import opened MpiAddSub
  import opened MpiMul
  import opened MpiDiv
  import opened SlidingWindow
  import opened BinaryEuclid
  import opened InverseRun
  import opened CleanRun

  // ---- mpi_gcd ----

  lemma LowerPower(a: nat, l: nat, c: nat)
    requires IsLsb(a, l) && c <= l
    ensures a % Pow(2, c) == 0
  {
    hide Pow;
    if a == 0 {
      DivModUnique(0, Pow(2, c), 0, 0);
    } else {
      PowAdd(2, l - c, c);
      DivIsMultiple(a, Pow(2, l));
      MulAssoc(a / Pow(2, l), Pow(2, l - c), Pow(2, c));
      MultipleMod((a / Pow(2, l)) * Pow(2, l - c), Pow(2, c));
    }
  }

  lemma ScaledBack(a: nat, b: nat, w: nat)
    requires 0 < w && a % w == 0 && b % w == 0
    ensures Gcd(a, b) == w * Gcd(a / w, b / w)
    ensures 0 < b ==> 0 < b / w
    ensures a == 0 <==> a / w == 0
  {
    hide Gcd;
    DivIsMultiple(a, w);
    DivIsMultiple(b, w);
    GcdScale(a / w, b / w, w);
  }

  /** The smaller of the two powers of two divides both operands, and leaves one of them odd. */
  lemma CommonTwos(a: nat, b: nat, la: nat, lb: nat, w: nat)
    requires IsLsb(a, la) && IsLsb(b, lb) && 0 < w && w == Pow(2, if la < lb then la else lb)
    ensures Gcd(a, b) == w * Gcd(a / w, b / w)
    ensures (0 < b ==> 0 < b / w) && (a == 0 <==> a / w == 0)
    ensures 0 < a && 0 < b ==> (a / w) % 2 == 1 || (b / w) % 2 == 1
  {
    hide Pow, Gcd;
    var c := if la < lb then la else lb;
    LowerPower(a, la, c);
    LowerPower(b, lb, c);
    ScaledBack(a, b, w);
  }

  /** mpi_shift_r by one bit until the number is odd, next to an operand that is odd by then. */
  method StripTwos(X: Mpi, ghost other: nat)
    requires X.Ok() && 0 < X.Mag() && (X.Mag() % 2 == 1 || other % 2 == 1)
    modifies X
    ensures X.Ok() && X.s == old(X.s) && 0 < X.Mag() <= old(X.Mag()) && X.Mag() % 2 == 1
    ensures Gcd(X.Mag(), other) == Gcd(old(X.Mag()), other)
  {
    hide Val, Pow, Sig, Gcd;
    PowOne();
    LowLimbParity(X.p);
    while X.p[0] % 2 == 0
      invariant X.Ok() && X.s == old(X.s) && 0 < X.Mag() <= old(X.Mag())
      invariant X.Mag() % 2 == X.p[0] % 2 && (X.Mag() % 2 == 1 || other % 2 == 1)
      invariant Gcd(X.Mag(), other) == Gcd(old(X.Mag()), other)
      decreases X.Mag()
    {
      GcdHalf(X.Mag(), other);
      ShiftR(X, 1);
      LowLimbParity(X.p);
    }
  }

  lemma PowOne()
    ensures Pow(2, 1) == 2
  {
    PowStep(2, 0);
  }

  /** One subtraction of the binary algorithm. */
  lemma OddDifference(a: nat, b: nat)
    requires a % 2 == 1 && b % 2 == 1 && b <= a
    ensures Gcd(a, b) == Gcd((a - b) / 2, b)
  {
    hide Gcd;
    GcdSubtract(a, b);
    GcdHalf(a - b, b);
  }

  /** X := (X - Y) / 2 for odd X >= Y. */
  method SubtractAndHalve(X: Mpi, Y: Mpi)
    requires X != Y && X.Ok() && Y.Ok() && X.Mag() % 2 == 1 && Y.Mag() % 2 == 1 && Y.Mag() <= X.Mag()
    modifies X
    ensures X.Ok() && X.s == old(X.s) && X.Mag() == (old(X.Mag()) - Y.Mag()) / 2
    ensures Gcd(X.Mag(), Y.Mag()) == Gcd(old(X.Mag()), Y.Mag())
  {
    hide Val, Pow, Sig, Gcd;
    PowOne();
    OddDifference(X.Mag(), Y.Mag());
    var ret := SubAbs(X, X, Y);
    ShiftR(X, 1);
  }

  /** What the loop of mpi_gcd keeps. */
  ghost predicate GcdRun(t: int, a: int, b: int, g: int) {
    && 0 <= a && 0 <= b && (0 < a ==> 0 < b) && t * Gcd(a, b) == g
    && (0 < a ==> a % 2 == 1 || b % 2 == 1)
  }

  /** mpi_gcd: the greatest common divisor of the magnitudes, for every B but a zero beside a
      nonzero A. */
  method GcdMpi(G: Mpi, A: Mpi, B: Mpi)
    requires A.Ok() && B.Ok() && (B.Mag() != 0 || A.Mag() == 0)
    modifies G
    ensures G.Ok() && G.s == 1 && G.Mag() == Gcd(old(A.Mag()), old(B.Mag()))
  {
    hide Val, Pow, Sig, Gcd, GcdRun, IsLsb;
    var TG, TA, TB := GcdStart(A, B);
    ghost var g := Gcd(A.Mag(), B.Mag());
    var r := CmpInt(TA, 0);
    while r != 0
      invariant TG.Ok() && TA.Ok() && TB.Ok() && TG.s == 1 && TA.s == 1 && TB.s == 1
      invariant GcdRun(TG.Mag(), TA.Mag(), TB.Mag(), g)
      invariant r == Order(TA.Mag(), 0)
      decreases TA.Mag() + TB.Mag()
    {
      GcdStep(TA, TB, TG.Mag(), g);
      r := CmpInt(TA, 0);
    }
    GcdEnd(TG.Mag(), TB.Mag(), g);
    MulMpi(G, TG, TB);
  }

  lemma GcdEnd(t: int, b: int, g: int)
    requires GcdRun(t, 0, b, g)
    ensures t * b == g
  {
    GcdSymmetric(0, b);
  }

  method GcdStart(A: Mpi, B: Mpi) returns (TG: Mpi, TA: Mpi, TB: Mpi)
    requires A.Ok() && B.Ok() && (B.Mag() != 0 || A.Mag() == 0)
    ensures fresh(TG) && fresh(TA) && fresh(TB) && TG != TA && TG != TB && TA != TB
    ensures TG.Ok() && TA.Ok() && TB.Ok() && TG.s == 1 && TA.s == 1 && TB.s == 1
    ensures GcdRun(TG.Mag(), TA.Mag(), TB.Mag(), Gcd(A.Mag(), B.Mag()))
  {
    hide Val, Pow, Sig, Gcd, IsLsb;
    BaseFacts();
    TG := new Mpi();
    TA := new Mpi();
    TB := new Mpi();
    LSet(TG, 1);
    Copy(TA, A);
    Copy(TB, B);
    TA.s := 1;
    TB.s := 1;
    var la := Lsb(TA);
    var lb := Lsb(TB);
    var count := if la < lb then la else lb;
    CommonTwos(A.Mag(), B.Mag(), la, lb, Pow(2, count));
    ShiftL(TG, count);
    ShiftR(TA, count);
    ShiftR(TB, count);
  }

  /** One round of mpi_gcd. */
  method GcdStep(TA: Mpi, TB: Mpi, ghost t: int, ghost g: int)
    requires TA != TB && TA.Ok() && TB.Ok() && TA.s == 1 && TB.s == 1 && 0 < TA.Mag()
    requires GcdRun(t, TA.Mag(), TB.Mag(), g)
    modifies TA, TB
    ensures TA.Ok() && TB.Ok() && TA.s == 1 && TB.s == 1
    ensures GcdRun(t, TA.Mag(), TB.Mag(), g)
    ensures TA.Mag() + TB.Mag() < old(TA.Mag() + TB.Mag())
  {
    hide Val, Pow, Sig, Gcd;
    StripTwos(TA, TB.Mag());
    GcdSymmetric(TA.Mag(), TB.Mag());
    StripTwos(TB, TA.Mag());
    GcdSymmetric(TA.Mag(), TB.Mag());
    var r := CmpMpi(TA, TB);
    if r >= 0 {
      SubtractAndHalve(TA, TB);
    } else {
      SubtractAndHalve(TB, TA);
      GcdSymmetric(TA.Mag(), TB.Mag());
    }
  }

  // ---- mpi_inv_mod: the coefficients ----

  ghost function HeldBy(X: Mpi): Held
    reads X
  {
    Held(X.s, X.Mag(), |X.p|)
  }

  /** Whether a carry is lost can be told from magnitude and buffer length. */
  lemma FaultyIs(X: Mpi, B: Mpi)
    requires X != B
    ensures AddFaulty(X, X, B) == SumLoses(HeldBy(X), B.Mag()) && Sig(B.p) == LimbLen(B.Mag())
  {
    hide Val, Pow, Sig, LimbLen;
    var g, n := Ground(X, X, B), Sig(B.p);
    SigIsLimbLen(B.p);
    B.SigFacts();
    MagExtend(X.p, Max(n - |X.p|, 0));
    if n + 1 < |g| {
      DigitOf(g, n);
    }
  }

  lemma SigIsLimbLen(p: seq<limb>)
    ensures 0 <= Val(p, BASE) && Sig(p) == LimbLen(Val(p, BASE)) <= |p|
  {
    hide Val, Sig, LimbsFor, BitLen;
    SigIsLimbsFor(p);
  }

  /** A limb and the limbs below it, by division. */
  lemma DigitOf(g: seq<limb>, n: nat)
    requires n < |g|
    ensures 0 < Pow(BASE, n) && 0 < BASE && (Val(g, BASE) / Pow(BASE, n)) % BASE == g[n]
    ensures Val(g, BASE) % Pow(BASE, n) == Val(g[..n], BASE)
  {
    hide Val, Pow;
    BaseFacts();
    ValSplit(g, n, BASE);
    ValBounds(g[..n], BASE);
    DivModUnique(Val(g, BASE), Pow(BASE, n), Val(g[n..], BASE), Val(g[..n], BASE));
    ValCons(g, n, BASE);
    DivModUnique(Val(g[n..], BASE), BASE, Val(g[n + 1..], BASE), g[n]);
  }

  lemma LimbLenMono(m: nat, k: nat)
    requires m <= k
    ensures LimbLen(m) <= LimbLen(k)
  {
    hide LimbLen, Pow;
    LimbLenLeq(k, LimbLen(k));
    LimbLenLeq(m, LimbLen(k));
  }

  /** What the contract of a signed addition in place says about y, the number left of x. */
  ghost predicate Summed(x: Held, y: Held, s: int, m: nat) {
    && x.Signed() && (s == 1 || s == -1) && LimbLen(x.m) <= x.l
    && y.s == (if x.s != s && x.m < m then s else x.s)
    && (y.V() == x.V() + s * m <==> AddsExactly(x, s, m))
    && (!AddsExactly(x, s, m) ==> y.m == x.m + m - (BASE - 1) * Pow(BASE, LimbLen(m)))
    && y.l == Max(Max(x.l, LimbLen(m)), LimbLen(y.m))
  }

  lemma SummedIsAdded(x: Held, y: Held, s: int, m: nat)
    requires Summed(x, y, s, m)
    ensures y == Added(x, s, m)
  {
    hide LimbLen, Pow;
    if x.s != s {
      if m <= x.m {
        LimbLenMono(m, x.m);
        LimbLenMono(y.m, x.m);
      } else {
        LimbLenMono(y.m, m);
      }
    }
  }

  method AddInPlace(X: Mpi, B: Mpi)
    requires X != B && X.Ok() && B.Ok()
    modifies X
    ensures X.Ok() && HeldBy(X) == Added(old(HeldBy(X)), B.s, B.Mag())
  {
    hide Val, Pow, Sig, AddFaulty, SumLoses, LimbLen, Added;
    FaultyIs(X, B);
    SigIsLimbLen(X.p);
    ghost var x := HeldBy(X);
    AddMpi(X, X, B);
    SigIsLimbLen(X.p);
    SummedIsAdded(x, HeldBy(X), B.s, B.Mag());
  }

  method SubInPlace(X: Mpi, B: Mpi)
    requires X != B && X.Ok() && B.Ok()
    modifies X
    ensures X.Ok() && HeldBy(X) == Added(old(HeldBy(X)), -B.s, B.Mag())
  {
    hide Val, Pow, Sig, AddFaulty, SumLoses, LimbLen, Added;
    FaultyIs(X, B);
    SigIsLimbLen(X.p);
    ghost var x := HeldBy(X);
    SubMpi(X, X, B);
    SigIsLimbLen(X.p);
    SummedIsAdded(x, HeldBy(X), -B.s, B.Mag());
  }

  method HalveOne(X: Mpi)
    requires X.Ok()
    modifies X
    ensures X.Ok() && HeldBy(X) == Half(old(HeldBy(X)))
  {
    hide Val, Pow, Sig;
    PowOne();
    ShiftR(X, 1);
  }

  // ---- mpi_inv_mod: the steps ----

  /** T, C1 and C2 hold side x of the algorithm, in buffers of their own. */
  ghost predicate Holds(T: Mpi, C1: Mpi, C2: Mpi, x: Side)
    reads T, C1, C2
  {
    && T != C1 && T != C2 && C1 != C2 && T.Ok() && C1.Ok() && C2.Ok()
    && T.s == 1 && T.Mag() == x.t && HeldBy(C1) == x.c && HeldBy(C2) == x.d
  }

  /** The two moduli of the extended algorithm. */
  ghost predicate Moduli(TA: Mpi, TB: Mpi)
    reads TA, TB
  {
    TA.Ok() && TB.Ok() && TA.s == 1 && TB.s == 1
  }

  /** The inner part of the strip loops: make both coefficients even and halve them. */
  method HalveCoefficients(U1: Mpi, U2: Mpi, TA: Mpi, TB: Mpi, ghost x: Side)
    requires U1 != U2 && {U1, U2} !! {TA, TB} && U1.Ok() && U2.Ok() && Moduli(TA, TB)
    requires HeldBy(U1) == x.c && HeldBy(U2) == x.d
    modifies U1, U2
    ensures U1.Ok() && U2.Ok()
    ensures HeldBy(U1) == Halved(x, TA.Mag(), TB.Mag()).c && HeldBy(U2) == Halved(x, TA.Mag(), TB.Mag()).d
  {
    hide Val, Pow, Sig, Added, AddsExactly, Half;
    LowLimbParity(U1.p);
    LowLimbParity(U2.p);
    if U1.p[0] % 2 != 0 || U2.p[0] % 2 != 0 {
      AddInPlace(U1, TB);
      SubInPlace(U2, TA);
    }
    HalveOne(U1);
    HalveOne(U2);
  }

  /** The strip loop of one side: divide T by two until it is odd, and its coefficients along. */
  method StripSide(T: Mpi, C1: Mpi, C2: Mpi, TA: Mpi, TB: Mpi, ghost x: Side)
    requires {T, C1, C2} !! {TA, TB} && Moduli(TA, TB) && Holds(T, C1, C2, x) && 0 < x.t
    modifies T, C1, C2
    ensures Holds(T, C1, C2, Stripped(x, TA.Mag(), TB.Mag()))
  {
    hide Val, Pow, Sig, Added, AddsExactly, Half;
    PowOne();
    LowLimbParity(T.p);
    ghost var y := x;
    while T.p[0] % 2 == 0
      invariant Holds(T, C1, C2, y) && 0 < y.t && T.Mag() % 2 == T.p[0] % 2
      invariant Stripped(y, TA.Mag(), TB.Mag()) == Stripped(x, TA.Mag(), TB.Mag())
      decreases y.t
    {
      ShiftR(T, 1);
      LowLimbParity(T.p);
      HalveCoefficients(C1, C2, TA, TB, y);
      y := Halved(y, TA.Mag(), TB.Mag());
    }
  }

  /** The subtraction of the smaller side from the larger. */
  method SubtractSide(T: Mpi, C1: Mpi, C2: Mpi, W: Mpi, D1: Mpi, D2: Mpi, ghost x: Side, ghost y: Side)
    requires {T, C1, C2} !! {W, D1, D2} && Holds(T, C1, C2, x) && Holds(W, D1, D2, y) && 0 < y.t <= x.t
    modifies T, C1, C2
    ensures Holds(T, C1, C2, Reduced(x, y))
  {
    hide Val, Pow, Sig, Added, AddsExactly, AddFaulty;
    SubMpi(T, T, W);
    SubInPlace(C1, D1);
    SubInPlace(C2, D2);
  }

  /** One round of mpi_inv_mod. */
  method InverseStep(TU: Mpi, U1: Mpi, U2: Mpi, TV: Mpi, V1: Mpi, V2: Mpi, TA: Mpi, TB: Mpi,
          ghost u: Side, ghost v: Side)
    returns (ghost u': Side, ghost v': Side)
    requires {TU, U1, U2} !! {TV, V1, V2} && {TU, U1, U2, TV, V1, V2} !! {TA, TB} && Moduli(TA, TB)
    requires Holds(TU, U1, U2, u) && Holds(TV, V1, V2, v) && 0 < u.t && 0 < v.t
    modifies TU, U1, U2, TV, V1, V2
    ensures Holds(TU, U1, U2, u') && Holds(TV, V1, V2, v') && 0 < v'.t && u'.t + v'.t < u.t + v.t
    ensures Run(u, v, TA.Mag(), TB.Mag()) == if u'.t == 0 then v' else Run(u', v', TA.Mag(), TB.Mag())
  {
    hide Val, Pow, Sig, Stripped, Reduced;
    ghost var x, y := Stripped(u, TA.Mag(), TB.Mag()), Stripped(v, TA.Mag(), TB.Mag());
    StripSide(TU, U1, U2, TA, TB, u);
    StripSide(TV, V1, V2, TA, TB, v);
    u', v' := x, y;
    var r := CmpMpi(TU, TV);
    if r >= 0 {
      u' := Reduced(x, y);
      SubtractSide(TU, U1, U2, TV, V1, V2, x, y);
      ReducedNumber(x, y);
    } else {
      v' := Reduced(y, x);
      SubtractSide(TV, V1, V2, TU, U1, U2, y, x);
      ReducedNumber(y, x);
    }
  }

  lemma ReducedNumber(x: Side, y: Side)
    requires y.t <= x.t
    ensures Reduced(x, y).t == x.t - y.t
  {
  }

  /** The main loop of mpi_inv_mod. */
  method InverseLoop(TU: Mpi, U1: Mpi, U2: Mpi, TV: Mpi, V1: Mpi, V2: Mpi, TA: Mpi, TB: Mpi,
          ghost u0: Side, ghost v0: Side)
    requires {TU, U1, U2} !! {TV, V1, V2} && {TU, U1, U2, TV, V1, V2} !! {TA, TB} && Moduli(TA, TB)
    requires Holds(TU, U1, U2, u0) && Holds(TV, V1, V2, v0) && 0 < u0.t && 0 < v0.t
    modifies TU, U1, U2, TV, V1, V2
    ensures V1.Ok() && HeldBy(V1) == Run(u0, v0, TA.Mag(), TB.Mag()).c
  {
    hide Val, Pow, Sig, Run;
    BaseFacts();
    ghost var a, n := TA.Mag(), TB.Mag();
    ghost var u, v := u0, v0;
    while true
      invariant Moduli(TA, TB) && TA.Mag() == a && TB.Mag() == n
      invariant Holds(TU, U1, U2, u) && Holds(TV, V1, V2, v) && 0 < u.t && 0 < v.t
      invariant Run(u, v, a, n) == Run(u0, v0, a, n)
      decreases u.t + v.t
    {
      u, v := InverseStep(TU, U1, U2, TV, V1, V2, TA, TB, u, v);
      var r := CmpInt(TU, 0);
      if r == 0 {
        break;
      }
    }
  }

  /** mpi_inv_mod up to the end of the main loop. */
  method RawInverse(A: Mpi, N: Mpi) returns (V1: Mpi)
    requires A.Ok() && N.Ok() && N.s == 1 && 1 < N.Mag() && Gcd(A.Mag(), N.Mag()) == 1
    ensures fresh(V1) && V1.Ok() && 0 < A.V() % N.Mag()
    ensures V1.V() == Inverse(A.V() % N.Mag(), N.Mag()).c.V()
  {
    hide Val, Pow, Sig, Gcd, Run, CopyLen, Holds;
    var TA := ResidueOf(A, N);
    var TB := new Mpi();
    Copy(TB, N);
    var TU, U1, U2, TV, V2;
    TU, U1, U2, TV, V1, V2 := NewSides(TA, TB);
    InverseLoop(TU, U1, U2, TV, V1, V2, TA, TB, First(TA.Mag(), 1, 0), First(TB.Mag(), 0, 1));
  }

  /** TA = A mod N for an invertible A. */
  method ResidueOf(A: Mpi, N: Mpi) returns (TA: Mpi)
    requires A.Ok() && N.Ok() && N.s == 1 && 1 < N.Mag() && Gcd(A.Mag(), N.Mag()) == 1
    ensures fresh(TA) && TA.Ok() && TA.s == 1 && TA.Mag() == A.V() % N.Mag()
    ensures 0 < TA.Mag() < N.Mag() && Gcd(TA.Mag(), N.Mag()) == 1
  {
    hide Val, Pow, Sig, Gcd;
    GcdOfResidue(A.V(), N.Mag());
    GcdSymmetric(0, N.Mag());
    GcdZero(N.Mag());
    TA := new Mpi();
    var r := ModMpi(TA, A, N);
  }

  method NewSides(TA: Mpi, TB: Mpi) returns (TU: Mpi, U1: Mpi, U2: Mpi, TV: Mpi, V1: Mpi, V2: Mpi)
    requires Moduli(TA, TB)
    ensures fresh({TU, U1, U2, TV, V1, V2}) && {TU, U1, U2} !! {TV, V1, V2}
    ensures Holds(TU, U1, U2, First(TA.Mag(), 1, 0)) && Holds(TV, V1, V2, First(TB.Mag(), 0, 1))
  {
    hide Val, Pow, Sig;
    TU, U1, U2 := NewSide(TA, 1, 0);
    TV, V1, V2 := NewSide(TB, 0, 1);
  }

  method NewSide(T0: Mpi, c1: int, c2: int) returns (T: Mpi, C1: Mpi, C2: Mpi)
    requires T0.Ok() && T0.s == 1 && 0 <= c1 <= 1 && 0 <= c2 <= 1
    ensures fresh(T) && fresh(C1) && fresh(C2) && Holds(T, C1, C2, First(T0.Mag(), c1, c2))
  {
    hide Val, Pow, Sig;
    BaseFacts();
    T := new Mpi();
    C1 := new Mpi();
    C2 := new Mpi();
    Copy(T, T0);
    LSet(C1, c1);
    LSet(C2, c2);
  }

  lemma DividesAbs(x: int, a: int)
    requires 0 < x
    ensures Divides(x, a) <==> Divides(x, Abs(a))
  {
    hide Divides;
    if Divides(x, a) {
      DividesProduct(x, a, -1);
    }
    if Divides(x, Abs(a)) {
      DividesProduct(x, Abs(a), -1);
    }
  }

  lemma DividesResidue(x: int, a: int, n: int)
    requires 0 < x && 0 < n && Divides(x, n)
    ensures Divides(x, a % n) <==> Divides(x, a)
  {
    hide Divides;
    var q, r := a / n, a % n;
    assert a == q * n + r;
    if Divides(x, r) {
      DividesCombination(x, r, n, 1, q);
    }
    if Divides(x, a) {
      DividesCombination(x, a, n, 1, -q);
    }
  }

  /** The residue of a has the greatest common divisor with n that a has. */
  lemma GcdOfResidue(a: int, n: nat)
    requires 0 < n
    ensures Gcd(a % n, n) == Gcd(Abs(a), n)
  {
    hide Gcd, Divides, Abs;
    forall x | 0 < x
      ensures Divides(x, a % n) && Divides(x, n) <==> Divides(x, Abs(a)) && Divides(x, n)
    {
      if Divides(x, n) {
        DividesResidue(x, a, n);
        DividesAbs(x, a);
      }
    }
    GcdFromDivisors(a % n, n, Abs(a), n);
  }

  lemma GcdZero(a: nat)
    ensures Gcd(a, 0) == a
  {
  }

  // ---- mpi_inv_mod ----

  lemma CongShift(v: int, w: int, n: int)
    requires 0 < n && (w == v + n || w == v - n)
    ensures Cong(w, v, n)
  {
    CongIntro(w, v, n, if w == v + n then 1 else -1);
  }

  /** The two final loops of mpi_inv_mod: the residue, except that a multiple of N can become -N. */
  method NormalizeInverse(V1: Mpi, N: Mpi)
    requires V1 != N && V1.Ok() && N.Ok() && N.s == 1 && 1 < N.Mag()
    modifies V1
    ensures V1.Ok() && -N.Mag() <= V1.V() < N.Mag() && Cong(V1.V(), old(V1.V()), N.Mag())
    ensures V1.V() < 0 ==> V1.V() == -N.Mag()
  {
    hide Val, Pow, Sig, AddFaulty, Cong;
    N.SigFacts();
    CongRefl(V1.V(), N.Mag());
    var r := CmpInt(V1, 0);
    while r < 0
      invariant V1.Ok() && r == Order(V1.V(), 0)
      invariant Cong(V1.V(), old(V1.V()), N.Mag())
      decreases -V1.V()
    {
      CongShift(V1.V(), V1.V() + N.Mag(), N.Mag());
      CongTrans(V1.V() + N.Mag(), V1.V(), old(V1.V()), N.Mag());
      AddMpi(V1, V1, N);
      r := CmpInt(V1, 0);
    }
    ReduceInverse(V1, N, old(V1.V()));
  }

  method ReduceInverse(V1: Mpi, N: Mpi, ghost v: int)
    requires V1 != N && V1.Ok() && N.Ok() && N.s == 1 && 1 < N.Mag() && 0 <= V1.V() && Cong(V1.V(), v, N.Mag())
    modifies V1
    ensures V1.Ok() && -N.Mag() <= V1.V() < N.Mag() && Cong(V1.V(), v, N.Mag())
    ensures V1.V() < 0 ==> V1.V() == -N.Mag()
  {
    hide Val, Pow, Sig, AddFaulty, Cong;
    N.SigFacts();
    V1.SigFacts();
    var r := CmpMpi(V1, N);
    while r >= 0
      invariant V1.Ok() && -N.Mag() <= V1.V() && Cong(V1.V(), v, N.Mag())
      invariant V1.V() < 0 ==> V1.V() == -N.Mag()
      invariant r < 0 ==> V1.V() < N.Mag()
      invariant 0 <= r ==> if V1.Mag() == 0 then V1.s == -1 else V1.s == 1 && N.Mag() <= V1.Mag()
      decreases V1.V() + N.Mag()
    {
      CongShift(V1.V(), V1.V() - N.Mag(), N.Mag());
      CongTrans(V1.V() - N.Mag(), V1.V(), v, N.Mag());
      if V1.Mag() == 0 {
        ZeroAddsExactly(V1, N);
      }
      SubMpi(V1, V1, N);
      V1.SigFacts();
      SigByMag(V1, N);
      r := CmpMpi(V1, N);
    }
  }

  const ERR_MPI_NOT_INVERTIBLE: int := 0x000C

  /** No lost carry goes into the inverse of a modulo n. */
  ghost predicate InvertsExactly(a: int, n: int) {
    1 < n && 0 < a % n && Inverse(a % n, n).Exact()
  }

  /** No carry lost in a subtraction goes into it. */
  ghost predicate SubtractsExactly(a: int, n: int) {
    1 < n && 0 < a % n && Inverse(a % n, n).subs
  }

  /** Too few bits for a strip loop to lose a carry. */
  ghost predicate FewBits(a: int, n: int) {
    1 < n && 4 + TotalBits(a % n, n) <= BASE
  }

  /** An inverse is not congruent to zero. */
  lemma InverseNotZero(x: int, a: int, n: int)
    requires 1 < n && Cong(x * a, 1, n)
    ensures !Cong(x, 0, n)
  {
    hide Cong;
    if Cong(x, 0, n) {
      CongRefl(a, n);
      CongMul(x, 0, a, a, n);
      CongSym(x * a, 1, n);
      CongTrans(1, x * a, 0, n);
      OneIsNotZero(n);
    }
  }

  lemma OneIsNotZero(n: int)
    requires 1 < n
    ensures !Cong(1, 0, n)
  {
    DivModUnique(1, n, 0, 1);
  }

  /** mpi_inv_mod: refuses exactly the numbers that have no inverse; otherwise the number that the run
      of the algorithm defines, reduced modulo N.  It is the inverse exactly when it agrees with the
      algorithm on integers, which it does if no lost carry has gone into it.  That is decided by the
      subtractions alone for a modulus of up to about half of BASE bits, and none is lost for a small one. */
  method InvMod(X: Mpi, A: Mpi, N: Mpi) returns (ret: int)
    requires A.Ok() && N.Ok() && N.V() != 1
    modifies X
    ensures ret ==
      if old(N.V()) <= 0 then ERR_MPI_INVALID_PARAMETER
      else if Gcd(old(A.Mag()), old(N.Mag())) != 1 then ERR_MPI_NOT_INVERTIBLE else 0
    ensures ret != 0 ==> X.s == old(X.s) && X.p == old(X.p)
    ensures ret == 0 ==> X.Ok() && -old(N.V()) <= X.V() < old(N.V()) && 0 < old(A.V()) % old(N.V())
    ensures ret == 0 ==> Cong(X.V(), Inverse(old(A.V()) % old(N.V()), old(N.V())).c.V(), old(N.V()))
    ensures ret == 0 ==> RightWhenExact(X.V(), old(A.V()), old(N.V()))
    ensures ret == 0 ==> var n := old(N.V()); var a := old(A.V()) % n;
      && (4 + BitLen(a) + BitLen(n) <= BASE || forall r :: r in RoundsOf(a, n) ==> CleanStart(r, a, n))
      && (forall r :: r in RoundsOf(a, n) ==> CleanRound(r)) ==>
        0 < X.V() && Cong(X.V() * old(A.V()), 1, n)
  {
    hide Val, Pow, Sig, Gcd, Cong, Inverse, RightWhenExact, RunIsClean, RoundsOf, CleanRound, CleanStart, BitLen;
    BaseFacts();
    var r := CmpInt(N, 0);
    if r <= 0 {
      return ERR_MPI_INVALID_PARAMETER;
    }
    var G := new Mpi();
    GcdMpi(G, A, N);
    r := CmpInt(G, 1);
    if r != 0 {
      return ERR_MPI_NOT_INVERTIBLE;
    }
    ghost var a, n := A.V(), N.V();
    var V1 := RawInverse(A, N);
    NormalizeInverse(V1, N);
    InverseStands(V1.V(), a, n);
    RunIsCleanIs(a % n, n);
    Copy(X, V1);
    ret := 0;
  }

  /** No subtraction of the run on integers adds numbers of one sign so that the last carry meets a limb
      of ones below the end of the buffer; nor does a strip loop, for numbers of BASE bits and more. */
  ghost predicate RunIsClean(a: int, n: int) {
    && 0 < a < n
    && (4 + BitLen(a) + BitLen(n) <= BASE || forall r :: r in RoundsOf(a, n) ==> CleanStart(r, a, n))
    && forall r :: r in RoundsOf(a, n) ==> CleanRound(r)
  }

  lemma RunIsCleanIs(a: int, n: int)
    requires 0 < a < n
    ensures RunIsClean(a, n) <==>
      && (4 + BitLen(a) + BitLen(n) <= BASE || forall r :: r in RoundsOf(a, n) ==> CleanStart(r, a, n))
      && (forall r :: r in RoundsOf(a, n) ==> CleanRound(r))
  {
  }

  /** When x is the inverse of a modulo n. */
  ghost predicate RightWhenExact(x: int, a: int, n: int)
    requires 1 < n && 0 < a % n
  {
    && (Cong(x * a, 1, n) <==> Cong(x, PlainInverse(a % n, n).c, n))
    && (Cong(x * a, 1, n) ==> 0 < x)
    && (InvertsExactly(a, n) ==> Cong(x * a, 1, n))
    && (FewBits(a, n) ==> (InvertsExactly(a, n) <==> SubtractsExactly(a, n)))
    && (SmallModulus(a % n, n) ==> InvertsExactly(a, n))
    && (n < BASE ==> SmallModulus(a % n, n))
  }

  lemma InverseStands(x: int, a: int, n: int)
    requires 1 < n && 0 < a % n && Gcd(Abs(a), n) == 1 && -n <= x < n && (x < 0 ==> x == -n)
    requires Cong(x, Inverse(a % n, n).c.V(), n)
    ensures RightWhenExact(x, a, n)
    ensures RunIsClean(a % n, n) ==> 0 < x && Cong(x * a, 1, n)
  {
    hide Gcd, Cong, Inverse, PlainInverse, SmallModulus, RoundsOf, CleanRound, CleanStart, BitLen;
    GcdOfResidue(a, n);
    if RunIsClean(a % n, n) {
      if 4 + BitLen(a % n) + BitLen(n) <= BASE {
        CleanInverse(a % n, n);
      } else {
        AllCleanInverse(a % n, n);
      }
    }
    var y, z := Inverse(a % n, n).c.V(), PlainInverse(a % n, n).c;
    RightIsAgreeing(a, n);
    PlainInverseIsInverse(a, n);
    if Cong(x * a, 1, n) {
      InverseIsUnique(x, z, a, n);
      InverseNotZero(x, a, n);
      CongIntro(-n, 0, n, -1);
      CongRefl(0, n);
    }
    if Cong(x, z, n) {
      InversesAgree(x, z, a, n);
    }
    if Cong(y * a, 1, n) {
      InversesAgree(x, y, a, n);
    }
    if FewBits(a, n) {
      StripsLoseNothing(a % n, n);
    }
    if SmallModulus(a % n, n) {
      SmallExact(a % n, n);
    }
    if n < BASE {
      OneLimbSmall(a % n, n);
    }
  }
}
