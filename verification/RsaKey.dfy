/** Key checks, and the part of key generation that follows the choice of the primes. */
module RsaKey {
  import opened Arithmetic
  import opened NumberTheory
  import opened Digits
  import opened Limbs
  import opened Mpis
  import opened MpiAddSub
  import opened MpiMul
  import opened MpiDiv
  import opened SlidingWindow
  import opened BinaryEuclid
  import opened InverseRun
  import opened CleanRun
  import opened GcdInverse
  import opened RsaMath
  import opened Rsa
  import opened RsaPkcs1

  const ERR_RSA_KEY_CHK_FAILED: int := 0x0330

  /** mpi_sub_int, with 1 for the integer: X = A - 1 for a positive A. */
  method Decrement(X: Mpi, A: Mpi)
    requires X != A && A.Ok() && A.s == 1 && 0 < A.Mag()
    modifies X
    ensures X.Ok() && X.s == 1 && X.Mag() == A.Mag() - 1
  {
    hide Val, Pow, Sig, AddFaulty;
    BaseFacts();
    var B := new Mpi();
    B.s := 1;
    B.p := [1];
    ValOne(1, BASE);
    SubMpi(X, A, B);
  }

  /** The order of the group of units modulo the product of two primes. */
  function Phi(p: int, q: int): nat
    requires 0 < p && 0 < q
  {
    MulNonNegative(p - 1, q - 1);
    (p - 1) * (q - 1)
  }

  lemma PhiIs(p: int, q: int)
    requires 0 < p && 0 < q
    ensures Phi(p, q) == (p - 1) * (q - 1)
  {
  }

  /** H = (P - 1) * (Q - 1) and G = gcd(E, H) */
  method Totient(P: Mpi, Q: Mpi, E: Mpi) returns (P1: Mpi, Q1: Mpi, H: Mpi, G: Mpi)
    requires P.Ok() && Q.Ok() && E.Ok() && P.s == 1 && Q.s == 1 && 1 < P.Mag() && 1 < Q.Mag()
    ensures fresh({P1, Q1, H, G}) && P1.Ok() && Q1.Ok() && H.Ok() && G.Ok()
    ensures P1.s == 1 && Q1.s == 1 && H.s == 1 && G.s == 1
    ensures P1.Mag() == P.Mag() - 1 && Q1.Mag() == Q.Mag() - 1
    ensures H.Mag() == Phi(P.Mag(), Q.Mag()) && 0 < H.Mag() && G.Mag() == Gcd(E.Mag(), H.Mag())
  {
    hide Val, Pow, Sig, Gcd;
    P1 := new Mpi();
    Q1 := new Mpi();
    H := new Mpi();
    G := new Mpi();
    Decrement(P1, P);
    Decrement(Q1, Q);
    MulMpi(H, P1, Q1);
    MulStrictMono(0, P1.Mag(), Q1.Mag());
    GcdMpi(G, E, H);
  }

  /** rsa_check_privkey: the modulus is the product of the primes and the public exponent has an
      inverse. */
  method CheckPrivkey(ctx: RsaContext) returns (ret: int)
    requires ctx.N.Ok() && ctx.E.Ok() && ctx.P.Ok() && ctx.Q.Ok()
    requires ctx.N.s == 1 && ctx.P.s == 1 && ctx.Q.s == 1 && 1 < ctx.P.Mag() && 1 < ctx.Q.Mag()
    ensures 0 <= (ctx.P.Mag() - 1) * (ctx.Q.Mag() - 1)
    ensures ret == if ctx.P.Mag() * ctx.Q.Mag() == ctx.N.Mag() &&
                      Gcd(ctx.E.Mag(), (ctx.P.Mag() - 1) * (ctx.Q.Mag() - 1)) == 1
                   then 0 else ERR_RSA_KEY_CHK_FAILED
  {
    hide Val, Pow, Sig, Gcd, Phi;
    PhiIs(ctx.P.Mag(), ctx.Q.Mag());
    var TN := new Mpi();
    MulMpi(TN, ctx.P, ctx.Q);
    var P1, Q1, H, G := Totient(ctx.P, ctx.Q, ctx.E);
    ret := Verdict(TN, ctx.N, G);
  }

  method Verdict(TN: Mpi, N: Mpi, G: Mpi) returns (ret: int)
    requires TN.Ok() && N.Ok() && G.Ok() && TN.s == 1 && N.s == 1 && G.s == 1
    ensures ret == if TN.Mag() == N.Mag() && G.Mag() == 1 then 0 else ERR_RSA_KEY_CHK_FAILED
  {
    hide Val, Pow, Sig;
    BaseFacts();
    var r := CmpMpi(TN, N);
    var g := CmpInt(G, 1);
    return if r == 0 && g == 0 then 0 else ERR_RSA_KEY_CHK_FAILED;
  }

  /** rsa_check_pubkey */
  method CheckPubkey(ctx: RsaContext) returns (ret: int)
    requires ctx.N.Ok() && ctx.E.Ok()
    ensures ret == if ctx.N.Mag() % 2 == 1 && ctx.E.Mag() % 2 == 1 &&
                      Pow(2, 127) <= ctx.N.Mag() < Pow(2, 4096) && 2 <= ctx.E.Mag() < Pow(2, 64)
                   then 0 else ERR_RSA_KEY_CHK_FAILED
  {
    hide Val, Pow, Sig, BitLen;
    LowLimbParity(ctx.N.p);
    LowLimbParity(ctx.E.p);
    PowOne();
    if ctx.N.p[0] % 2 == 0 || ctx.E.p[0] % 2 == 0 {
      return ERR_RSA_KEY_CHK_FAILED;
    }
    BitLenLess(ctx.N.Mag(), 127);
    BitLenLess(ctx.N.Mag(), 4096);
    BitLenLess(ctx.E.Mag(), 1);
    BitLenLess(ctx.E.Mag(), 64);
    var n := Size(ctx.N);
    if n < 128 || n > 4096 {
      return ERR_RSA_KEY_CHK_FAILED;
    }
    var e := Size(ctx.E);
    if e < 2 || e > 64 {
      return ERR_RSA_KEY_CHK_FAILED;
    }
    return 0;
  }

  /** Distinct primes are coprime. */
  lemma PrimesCoprime(p: int, q: int)
    requires IsPrime(p) && IsPrime(q) && p != q
    ensures Gcd(q, p) == 1
  {
    hide Gcd, Divides;
    GcdIsGcd(q, p);
    var g := Gcd(q, p);
    DividesLeq(g, p);
    DividesLeq(g, q);
  }

  /** mpi_swap */
  method Swap(X: Mpi, Y: Mpi)
    modifies X, Y
    ensures X.s == old(Y.s) && X.p == old(Y.p) && Y.s == old(X.s) && Y.p == old(X.p)
  {
    X.s, X.p, Y.s, Y.p := Y.s, Y.p, X.s, X.p;
  }

  /** The numbers of a context that key generation writes are pairwise distinct objects. */
  ghost predicate Distinct(ctx: RsaContext) {
    && ctx.Apart() && ctx.P != ctx.Q && ctx.N !in {ctx.P, ctx.Q, ctx.E}
    && ctx.D !in {ctx.N, ctx.P, ctx.Q, ctx.E} && ctx.DP !in {ctx.N, ctx.P, ctx.Q, ctx.E, ctx.D}
    && ctx.DQ !in {ctx.N, ctx.P, ctx.Q, ctx.E, ctx.D, ctx.DP} && ctx.E !in {ctx.P, ctx.Q}
    && ctx.QP !in {ctx.N, ctx.P, ctx.Q, ctx.E, ctx.D, ctx.DP, ctx.DQ}
  }

  /** A context with a candidate pair of primes and a public exponent, and empty caches. */
  ghost predicate Candidate(ctx: RsaContext)
    reads ctx.P, ctx.Q, ctx.E, ctx.RN, ctx.RP, ctx.RQ
  {
    && Distinct(ctx) && ctx.P.Ok() && ctx.Q.Ok() && ctx.E.Ok()
    && ctx.P.s == 1 && ctx.Q.s == 1 && ctx.E.s == 1
    && IsPrime(ctx.P.Mag()) && IsPrime(ctx.Q.Mag()) && ctx.P.Mag() % 2 == 1 && ctx.Q.Mag() % 2 == 1
    && |ctx.RN.p| == 0 && |ctx.RP.p| == 0 && |ctx.RQ.p| == 0
  }

  /** Neither of the two modular inverses of a key takes up a lost carry. */
  ghost predicate InversesExact(p: int, q: int, e: int) {
    0 < p && 0 < q && InvertsExactly(e, Phi(p, q)) && InvertsExactly(q, p)
  }

  /** A sufficient condition on the numbers of a key. */
  ghost predicate InversesSmall(p: int, q: int, e: int) {
    && 0 < p && 0 < q && 0 < Phi(p, q) && 0 <= e
    && SmallModulus(e % Phi(p, q), Phi(p, q)) && SmallModulus(q % p, p)
  }

  /** Another one: no subtraction of the two runs on integers loses a carry. */
  ghost predicate InversesClean(p: int, q: int, e: int) {
    && 0 < p && 0 < q && 0 < Phi(p, q)
    && RunIsClean(e % Phi(p, q), Phi(p, q)) && RunIsClean(q % p, p)
  }

  /** For a modulus of up to 4096 bits the rounds of the two runs are all that has to be looked at. */
  lemma KeyIsClean(p: int, q: int, e: int)
    requires 1 < q < p && 0 <= e && p * q < Pow(2, 4096) && 0 < (p - 1) * (q - 1)
    requires 0 < e % ((p - 1) * (q - 1))
    requires forall r :: r in RoundsOf(e % ((p - 1) * (q - 1)), (p - 1) * (q - 1)) ==> CleanRound(r)
    requires forall r :: r in RoundsOf(q, p) ==> CleanRound(r)
    ensures InversesClean(p, q, e)
  {
    hide Pow, BitLen, CleanRound, RoundsOf;
    DivModUnique(q, p, 0, q);
    ShortKey(p, q);
    ShortRun(e % Phi(p, q), Phi(p, q));
    ShortRun(q, p);
  }

  lemma ShortKey(p: int, q: int)
    requires 1 < q < p && p * q < Pow(2, 4096)
    ensures p < Pow(2, 4096) && Phi(p, q) < Pow(2, 4096)
  {
    hide Pow;
    MulMono(1, q, p);
  }

  lemma ShortRun(a: int, n: int)
    requires 0 < a < n < Pow(2, 4096)
    ensures 4 + BitLen(a) + BitLen(n) <= BASE
  {
    hide Pow, BitLen;
    BitLenLess(a, 4096);
    BitLenLess(n, 4096);
    BaseFacts();
  }

  /** The numbers of a key pair in terms of its primes and its public exponent. */
  ghost predicate KeyEquations(d: int, dp: int, dq: int, qp: int, p: int, q: int, e: int)
    requires 1 < p && 1 < q
  {
    && 0 < d < Phi(p, q) && Cong(d * e, 1, Phi(p, q)) && dp == d % (p - 1) && dq == d % (q - 1)
    && 0 < qp < p && Cong(qp * q, 1, p)
  }

  lemma KeyEquationsAre(d: int, dp: int, dq: int, qp: int, p: int, q: int, e: int)
    requires 1 < p && 1 < q
    ensures 0 < (p - 1) * (q - 1)
    ensures KeyEquations(d, dp, dq, qp, p, q, e) <==>
      && 0 < d < (p - 1) * (q - 1) && Cong(d * e, 1, (p - 1) * (q - 1)) && dp == d % (p - 1) && dq == d % (q - 1)
      && 0 < qp < p && Cong(qp * q, 1, p)
  {
    hide Cong;
    MulStrictMono(0, p - 1, q - 1);
  }

  /** What is left in the context for an accepted pair. */
  ghost predicate Derived(ctx: RsaContext)
    reads ctx, ctx.N, ctx.E, ctx.D, ctx.P, ctx.Q, ctx.DP, ctx.DQ, ctx.QP, ctx.RN, ctx.RP, ctx.RQ
  {
    && ctx.N.Ok() && ctx.E.Ok() && ctx.D.Ok() && ctx.P.Ok() && ctx.Q.Ok()
    && ctx.DP.Ok() && ctx.DQ.Ok() && ctx.QP.Ok() && 1 < ctx.P.Mag() && 1 < ctx.Q.Mag()
    && (InversesExact(ctx.P.Mag(), ctx.Q.Mag(), ctx.E.Mag()) ==> RightKey(ctx))
    && (InversesClean(ctx.P.Mag(), ctx.Q.Mag(), ctx.E.Mag()) ==> RightKey(ctx))
    && (InversesSmall(ctx.P.Mag(), ctx.Q.Mag(), ctx.E.Mag()) ==> InversesExact(ctx.P.Mag(), ctx.Q.Mag(), ctx.E.Mag()))
  }

  /** A whole and right key pair. */
  ghost predicate RightKey(ctx: RsaContext)
    reads ctx, ctx.N, ctx.E, ctx.D, ctx.P, ctx.Q, ctx.DP, ctx.DQ, ctx.QP, ctx.RN, ctx.RP, ctx.RQ
  {
    && ctx.PrivateOk() && LengthOk(ctx) && 1 < ctx.P.Mag() && 1 < ctx.Q.Mag()
    && KeyEquations(ctx.D.Mag(), ctx.DP.Mag(), ctx.DQ.Mag(), ctx.QP.Mag(), ctx.P.Mag(), ctx.Q.Mag(), ctx.E.Mag())
  }

  /** One pass of the loop of rsa_gen_key on a pair of primes, and the derivation of the private key
      when the pair is accepted.  The key is right if no carry goes lost in the two inversions. */
  method DeriveKey(ctx: RsaContext) returns (accepted: bool)
    requires Candidate(ctx)
    modifies ctx, ctx.N, ctx.P, ctx.Q, ctx.D, ctx.DP, ctx.DQ, ctx.QP
    ensures {ctx.P.Mag(), ctx.Q.Mag()} == {old(ctx.P.Mag()), old(ctx.Q.Mag())}
    ensures 2 < ctx.P.Mag() && 2 < ctx.Q.Mag() && 0 < (ctx.P.Mag() - 1) * (ctx.Q.Mag() - 1)
    ensures accepted <==> old(ctx.P.Mag()) != old(ctx.Q.Mag()) &&
                          Gcd(ctx.E.Mag(), (ctx.P.Mag() - 1) * (ctx.Q.Mag() - 1)) == 1
    ensures accepted ==> ctx.Q.Mag() < ctx.P.Mag() && ctx.N.Ok() && ctx.N.V() == ctx.P.Mag() * ctx.Q.Mag()
    ensures var p, q, e, d := ctx.P.Mag(), ctx.Q.Mag(), ctx.E.Mag(), ctx.D.Mag();
      accepted && (InversesExact(p, q, e) || InversesClean(p, q, e)) ==>
        && ctx.PrivateOk() && LengthOk(ctx)
        && 0 < d < (p - 1) * (q - 1) && Cong(d * e, 1, (p - 1) * (q - 1))
        && ctx.DP.Mag() == d % (p - 1) && ctx.DQ.Mag() == d % (q - 1)
        && 0 < ctx.QP.Mag() < p && Cong(ctx.QP.Mag() * q, 1, p)
    ensures accepted && InversesSmall(ctx.P.Mag(), ctx.Q.Mag(), ctx.E.Mag()) ==>
              InversesExact(ctx.P.Mag(), ctx.Q.Mag(), ctx.E.Mag())
  {
    hide Val, Pow, Sig, Gcd, Cong, IsPrime, Radix, Divides, Phi, InversesExact, InversesSmall, InversesClean;
    hide KeyEquations, ValidKey, CacheOk, LengthOk, Derived;
    LargerFirst(ctx);
    PhiIs(ctx.P.Mag(), ctx.Q.Mag());
    LargeProduct(ctx.P.Mag(), ctx.Q.Mag());
    var r := CmpMpi(ctx.P, ctx.Q);
    if r == 0 {
      return false;
    }
    MulMpi(ctx.N, ctx.P, ctx.Q);
    accepted := DeriveExponents(ctx);
    if accepted {
      DerivedIs(ctx);
    }
  }

  method LargerFirst(ctx: RsaContext)
    requires Candidate(ctx)
    modifies ctx.P, ctx.Q
    ensures Candidate(ctx) && ctx.Q.Mag() <= ctx.P.Mag() && 2 < ctx.Q.Mag()
    ensures {ctx.P.Mag(), ctx.Q.Mag()} == {old(ctx.P.Mag()), old(ctx.Q.Mag())}
    ensures ctx.P.Mag() == ctx.Q.Mag() <==> old(ctx.P.Mag()) == old(ctx.Q.Mag())
  {
    hide Val, Pow, Sig, IsPrime;
    PrimeIsLarge(ctx.P.Mag());
    PrimeIsLarge(ctx.Q.Mag());
    var r := CmpMpi(ctx.P, ctx.Q);
    if r < 0 {
      Swap(ctx.P, ctx.Q);
    }
  }

  lemma DerivedIs(ctx: RsaContext)
    requires Derived(ctx)
    ensures ctx.E.Ok() && ctx.D.Ok() && ctx.P.Ok() && ctx.Q.Ok() && ctx.DP.Ok() && ctx.DQ.Ok() && ctx.QP.Ok()
    ensures 1 < ctx.P.Mag() && 1 < ctx.Q.Mag() && 0 < (ctx.P.Mag() - 1) * (ctx.Q.Mag() - 1)
    ensures var p, q, e, d := ctx.P.Mag(), ctx.Q.Mag(), ctx.E.Mag(), ctx.D.Mag();
      InversesExact(p, q, e) || InversesClean(p, q, e) ==>
        && ctx.PrivateOk() && LengthOk(ctx)
        && 0 < d < (p - 1) * (q - 1) && Cong(d * e, 1, (p - 1) * (q - 1))
        && ctx.DP.Mag() == d % (p - 1) && ctx.DQ.Mag() == d % (q - 1)
        && 0 < ctx.QP.Mag() < p && Cong(ctx.QP.Mag() * q, 1, p)
    ensures InversesSmall(ctx.P.Mag(), ctx.Q.Mag(), ctx.E.Mag()) ==>
              InversesExact(ctx.P.Mag(), ctx.Q.Mag(), ctx.E.Mag())
  {
    hide Val, Pow, Sig, Cong, Radix, InversesExact, InversesSmall, InversesClean, KeyEquations, ValidKey, CacheOk;
    KeyEquationsAre(ctx.D.Mag(), ctx.DP.Mag(), ctx.DQ.Mag(), ctx.QP.Mag(), ctx.P.Mag(), ctx.Q.Mag(), ctx.E.Mag());
  }

  method DeriveExponents(ctx: RsaContext) returns (accepted: bool)
    requires Candidate(ctx) && ctx.Q.Mag() < ctx.P.Mag()
    requires ctx.N.Ok() && ctx.N.s == 1 && ctx.N.Mag() == ctx.P.Mag() * ctx.Q.Mag()
    modifies ctx, ctx.D, ctx.DP, ctx.DQ, ctx.QP
    ensures accepted <==> Gcd(ctx.E.Mag(), Phi(ctx.P.Mag(), ctx.Q.Mag())) == 1
    ensures accepted ==> Derived(ctx)
  {
    hide Val, Pow, Sig, Gcd, Cong, IsPrime, Radix, BitLen, Divides, Phi, Derived;
    BaseFacts();
    PrimeIsLarge(ctx.P.Mag());
    PrimeIsLarge(ctx.Q.Mag());
    var P1, Q1, H, G := Totient(ctx.P, ctx.Q, ctx.E);
    var r := CmpInt(G, 1);
    if r != 0 {
      return false;
    }
    FinishKey(ctx, P1, Q1, H);
    accepted := true;
  }

  /** x is right as the inverse of a modulo n when no carry goes lost. */
  ghost predicate InverseOf(x: int, a: int, n: int) {
    && 1 < n && 0 < a % n && x < n && RightWhenExact(x, a, n)
    && (RunIsClean(a % n, n) ==> 0 < x && Cong(x * a, 1, n))
  }

  /** The numbers that follow from an accepted pair of primes. */
  method FinishKey(ctx: RsaContext, P1: Mpi, Q1: Mpi, H: Mpi)
    requires Candidate(ctx) && ctx.Q.Mag() < ctx.P.Mag()
    requires ctx.N.Ok() && ctx.N.s == 1 && ctx.N.Mag() == ctx.P.Mag() * ctx.Q.Mag()
    requires {P1, Q1, H} !! {ctx.D, ctx.DP, ctx.DQ, ctx.QP} && P1.Ok() && Q1.Ok() && H.Ok()
    requires P1.s == 1 && Q1.s == 1 && H.s == 1
    requires 0 < ctx.Q.Mag() && P1.Mag() == ctx.P.Mag() - 1 && Q1.Mag() == ctx.Q.Mag() - 1
    requires H.Mag() == Phi(ctx.P.Mag(), ctx.Q.Mag()) && Gcd(ctx.E.Mag(), H.Mag()) == 1
    modifies ctx, ctx.D, ctx.DP, ctx.DQ, ctx.QP
    ensures Derived(ctx)
  {
    hide Val, Pow, Sig, Gcd, Cong, IsPrime, Radix, BitLen, Phi, ValidKey, CacheOk, Derived, InverseOf;
    PrimeIsLarge(ctx.P.Mag());
    PrimeIsLarge(ctx.Q.Mag());
    LargeProduct(ctx.P.Mag(), ctx.Q.Mag());
    PrimesCoprime(ctx.P.Mag(), ctx.Q.Mag());
    Invert(ctx.D, ctx.E, H);
    var r := ModMpi(ctx.DP, ctx.D, P1);
    r := ModMpi(ctx.DQ, ctx.D, Q1);
    Invert(ctx.QP, ctx.Q, ctx.P);
    var bits := Size(ctx.N);
    ctx.len := (bits + 7) / 8;
    KeyFollows(ctx);
  }

  /** mpi_inv_mod on numbers that are known to have an inverse. */
  method Invert(X: Mpi, A: Mpi, N: Mpi)
    requires X != A && X != N && A.Ok() && N.Ok() && A.s == 1 && N.s == 1 && 1 < N.Mag()
    requires Gcd(A.Mag(), N.Mag()) == 1
    modifies X
    ensures X.Ok() && InverseOf(X.V(), A.Mag(), N.Mag())
  {
    hide Val, Pow, Sig, Gcd, Cong, BitLen, Inverse, RightWhenExact, RoundsOf, CleanRound, CleanStart, InverseOf;
    var r := InvMod(X, A, N);
    InverseStood(X.V(), A.Mag(), N.Mag());
  }

  /** What mpi_inv_mod ensures of an inverse x below n. */
  lemma InverseStood(x: int, a: nat, n: nat)
    requires 1 < n && 0 < a % n && x < n && RightWhenExact(x, a, n)
    requires
      && (4 + BitLen(a % n) + BitLen(n) <= BASE || forall r :: r in RoundsOf(a % n, n) ==> CleanStart(r, a % n, n))
      && (forall r :: r in RoundsOf(a % n, n) ==> CleanRound(r)) ==>
        0 < x && Cong(x * a, 1, n)
    ensures InverseOf(x, a, n)
  {
    hide RightWhenExact, RoundsOf, CleanRound, CleanStart, BitLen, Cong;
  }

  lemma KeyFollows(ctx: RsaContext)
    requires Candidate(ctx) && ctx.Q.Mag() < ctx.P.Mag() && 2 < ctx.Q.Mag() && 1 < Phi(ctx.P.Mag(), ctx.Q.Mag())
    requires ctx.N.Ok() && ctx.N.s == 1 && ctx.N.Mag() == ctx.P.Mag() * ctx.Q.Mag() && LengthOk(ctx)
    requires ctx.D.Ok() && ctx.DP.Ok() && ctx.DQ.Ok() && ctx.QP.Ok()
    requires InverseOf(ctx.D.V(), ctx.E.Mag(), Phi(ctx.P.Mag(), ctx.Q.Mag()))
    requires InverseOf(ctx.QP.V(), ctx.Q.Mag(), ctx.P.Mag())
    requires 0 < ctx.D.V() ==> ctx.DP.V() == ctx.D.V() % (ctx.P.Mag() - 1)
    requires 0 < ctx.D.V() ==> ctx.DQ.V() == ctx.D.V() % (ctx.Q.Mag() - 1)
    ensures Derived(ctx)
  {
    hide Val, Pow, Sig, Cong, IsPrime, Radix, BitLen, Phi, ValidKey, CacheOk, InverseOf, LengthOk;
    hide InversesExact, InversesSmall, InversesClean, KeyEquations;
    EmptyCaches(ctx);
    var p, q, e := ctx.P.Mag(), ctx.Q.Mag(), ctx.E.Mag();
    InversesRight(ctx.D.V(), ctx.QP.V(), p, q, e);
    if InversesExact(p, q, e) || InversesClean(p, q, e) {
      EquationsSigns(ctx.D.V(), ctx.QP.V(), p, q, e);
      KeyIsValid(ctx.PrivateKey());
    }
  }

  lemma EquationsSigns(d: int, qp: int, p: int, q: int, e: int)
    requires 1 < p && 1 < q && KeyEquations(d, d % (p - 1), d % (q - 1), qp, p, q, e)
    ensures 0 < d && 0 < qp
  {
  }

  /** What the two inverses of a key are good for. */
  lemma InversesRight(d: int, qp: int, p: int, q: int, e: int)
    requires 1 < p && 1 < q && 0 <= e
    requires InverseOf(d, e, Phi(p, q)) && InverseOf(qp, q, p)
    ensures InversesExact(p, q, e) || InversesClean(p, q, e) ==> KeyEquations(d, d % (p - 1), d % (q - 1), qp, p, q, e)
    ensures InversesSmall(p, q, e) ==> InversesExact(p, q, e)
  {
    hide Cong, Phi, PlainInverse, InvertsExactly, SubtractsExactly, FewBits, SmallModulus, RunIsClean;
  }

  lemma EmptyCaches(ctx: RsaContext)
    requires Candidate(ctx)
    ensures CacheOk(ctx.RN, ctx.N) && CacheOk(ctx.RP, ctx.P) && CacheOk(ctx.RQ, ctx.Q)
  {
  }

  lemma KeyIsValid(k: Key)
    requires IsPrime(k.p) && IsPrime(k.q) && k.q < k.p && k.p % 2 == 1 && k.q % 2 == 1 && k.n == k.p * k.q
    requires 2 < k.p && 2 < k.q && KeyEquations(k.d, k.dp, k.dq, k.qp, k.p, k.q, k.e)
    ensures ValidKey(k)
  {
    hide Cong, IsPrime;
    assert k.d * k.e == k.e * k.d;
  }

  lemma PrimeIsLarge(p: int)
    requires IsPrime(p) && p % 2 == 1
    ensures 2 < p
  {
  }

  lemma LargeProduct(p: int, q: int)
    requires 2 < p && 2 < q
    ensures 1 < Phi(p, q)
  {
    MulMono(2, p - 1, q - 1);
  }
}
