/** The RSA operations on octet strings: rsa_public and rsa_private. */
module Rsa {
  import opened Arithmetic
  import opened Bytes
  import opened Digits
  import opened Limbs
  import opened Mpis
  import opened MpiAddSub
  import opened MpiMul
  import opened MpiDiv
  import opened SlidingWindow
  import opened Octets
  import opened RsaMath

  const ERR_RSA_BAD_INPUT_DATA: int := 0x0300
  const ERR_RSA_PUBLIC_FAILED: int := 0x0340
  const ERR_RSA_PRIVATE_FAILED: int := 0x0350

  /** The numbers of a key and the cached Montgomery constants of its three moduli. */
  class RsaContext {
    var len: int
    const N: Mpi
    const E: Mpi
    const D: Mpi
    const P: Mpi
    const Q: Mpi
    const DP: Mpi
    const DQ: Mpi
    const QP: Mpi
    const RN: Mpi
    const RP: Mpi
    const RQ: Mpi

    /** An empty context. */
    constructor ()
      ensures len == 0 && Apart()
    {
      len := 0;
      N := new Mpi();
      E := new Mpi();
      D := new Mpi();
      P := new Mpi();
      Q := new Mpi();
      DP := new Mpi();
      DQ := new Mpi();
      QP := new Mpi();
      RN := new Mpi();
      RP := new Mpi();
      RQ := new Mpi();
    }

    /** The caches are none of the numbers of the key. */
    ghost predicate Apart() {
      {RN, RP, RQ} !! {N, E, D, P, Q, DP, DQ, QP} && RN != RP && RN != RQ && RP != RQ
    }

    /** A public key: a positive modulus and an exponent. */
    ghost predicate PublicOk()
      reads this, N, E, RN
    {
      Apart() && N.Ok() && E.Ok() && N.s == 1 && CacheOk(RN, N)
    }

    ghost function PrivateKey(): Key
      reads N, E, D, P, Q, DP, DQ, QP
    {
      Key(N.Mag(), E.Mag(), D.Mag(), P.Mag(), Q.Mag(), DP.Mag(), DQ.Mag(), QP.Mag())
    }

    /** A key pair as rsa_gen_key leaves it. */
    ghost predicate PrivateOk()
      reads this, N, E, D, P, Q, DP, DQ, QP, RN, RP, RQ
    {
      && PublicOk() && ValidKey(PrivateKey())
      && D.Ok() && P.Ok() && Q.Ok() && DP.Ok() && DQ.Ok() && QP.Ok()
      && P.s == 1 && Q.s == 1 && QP.s == 1
      && CacheOk(RP, P) && CacheOk(RQ, Q)
    }
  }

  /** rsa_public: every outcome, for every input and both lengths. */
  method RsaPublic(ctx: RsaContext, input: array<byte>, ilen: nat, output: array<byte>, olen: int)
    returns (ret: int, olen': int)
    requires ctx.PublicOk() && ilen <= input.Length && olen <= output.Length
    modifies ctx.RN, output
    ensures ctx.PublicOk()
    ensures var m := Os2ip(old(input[..ilen])); var n := ctx.N.Mag();
      ret ==
        if n <= m then ERR_RSA_BAD_INPUT_DATA
        else if n % 2 == 0 then ERR_RSA_PUBLIC_FAILED + ERR_MPI_INVALID_PARAMETER
        else if olen < OctetLen(Pow(m, ctx.E.Mag()) % n) then ERR_RSA_PUBLIC_FAILED + ERR_MPI_BUFFER_TOO_SMALL
        else 0
    ensures ret == 0 ==> ctx.N.Mag() != 0 && 0 <= olen
    ensures olen' == if ret == ERR_RSA_PUBLIC_FAILED + ERR_MPI_BUFFER_TOO_SMALL && ctx.N.Mag() != 0
                     then OctetLen(Pow(Os2ip(old(input[..ilen])), ctx.E.Mag()) % ctx.N.Mag()) else olen
    ensures ret == 0 ==> output[olen..] == old(output[olen..])
    ensures ret == 0 ==> var m := Os2ip(old(input[..ilen]));
      output[..olen] == I2osp(Pow(m, ctx.E.Mag()) % ctx.N.Mag(), olen)
    ensures ret != 0 ==> output[..] == old(output[..])
  {
    hide Val, Pow, Sig, Os2ip, I2osp, OctetLen, Radix;
    olen' := olen;
    var T := new Mpi();
    Import(T, input, ilen);
    var r := CmpMpi(T, ctx.N);
    if r >= 0 {
      return ERR_RSA_BAD_INPUT_DATA, olen;
    }
    ret := ExpMod(T, T, ctx.E, ctx.N, ctx.RN);
    if ret == 0 {
      ret, olen' := Export(T, output, olen);
    }
    if ret != 0 {
      ret := ERR_RSA_PUBLIC_FAILED + ret;
    }
  }

  /** The value of T2 + h * Q that the private operation adds up: neither a carry nor anything else
      is lost, because T2 is below Q. */
  lemma RecombinationIsExact(T: Mpi, T2: Mpi, T1: Mpi, q: int, h: int)
    requires T != T1 && T != T2 && T2.Mag() < q && 0 <= h && T1.Mag() == h * q
    ensures !AddFaulty(T, T2, T1)
  {
    hide Val, Pow, Sig;
    BaseFacts();
    T1.SigFacts();
    var n := Sig(T1.p);
    if h == 0 {
      NothingAddsExactly(T, T2, T1);
    } else {
      MulMono(1, h, q);
      SigMono(T2.p, T1.p, BASE);
      AboveIsZero(T, T2, T1);
    }
  }

  lemma AboveIsZero(T: Mpi, T2: Mpi, T1: Mpi)
    requires T != T1 && T != T2 && 0 < Sig(T1.p) && Sig(T2.p) <= Sig(T1.p)
    ensures !AddFaulty(T, T2, T1)
  {
    hide Val, Pow;
    BaseFacts();
    var g, n := Ground(T, T2, T1), Sig(T1.p);
    assert n < |g| ==> g[n] == 0;
  }

  /** T = T2 + ((T1 - T2) * QP mod P) * Q */
  method Recombine(T: Mpi, T1: Mpi, T2: Mpi, QP: Mpi, P: Mpi, Q: Mpi)
    requires |{T, T1, T2}| == 3 && {T, T1, T2} !! {QP, P, Q}
    requires T1.Ok() && T2.Ok() && QP.Ok() && P.Ok() && Q.Ok()
    requires T1.s == 1 && T2.s == 1 && QP.s == 1 && P.s == 1 && Q.s == 1
    requires 1 < P.Mag() && QP.Mag() != 0 && T2.Mag() < Q.Mag()
    modifies T, T1
    ensures T.Ok() && T.s == 1
    ensures T.Mag() == T2.Mag() + (((old(T1.Mag()) - T2.Mag()) * QP.Mag()) % P.Mag()) * Q.Mag()
  {
    hide Val, Pow, Sig, AddFaulty;
    ghost var u, qp, p := T1.Mag() - T2.Mag(), QP.Mag(), P.Mag();
    SubMpi(T, T1, T2);
    assert T.V() == u && (u == 0 ==> T.s == 1);
    MulMpi(T1, T, QP);
    assert T1.V() == u * qp;
    NonZeroProduct(T.Mag(), qp);
    var r := ModMpi(T, T1, P);
    ghost var h := T.Mag();
    assert h == (u * qp) % p;
    MulMpi(T1, T, Q);
    RecombinationIsExact(T, T2, T1, Q.Mag(), h);
    AddMpi(T, T2, T1);
  }

  lemma NonZeroProduct(a: int, b: int)
    requires b != 0
    ensures a * b == 0 ==> a == 0
  {
  }

  /** rsa_private: every outcome on a key as rsa_gen_key leaves it. */
  method RsaPrivate(ctx: RsaContext, input: array<byte>, ilen: nat, output: array<byte>, olen: int)
    returns (ret: int, olen': int)
    requires ctx.PrivateOk() && ilen <= input.Length && olen <= output.Length
    modifies ctx.RP, ctx.RQ, output
    ensures ctx.PrivateOk()
    ensures ctx.N.Mag() != 0
    ensures var m := Os2ip(old(input[..ilen])); var n := ctx.N.Mag();
      ret ==
        if n <= m then ERR_RSA_BAD_INPUT_DATA
        else if olen < OctetLen(Pow(m, ctx.D.Mag()) % n) then ERR_RSA_PRIVATE_FAILED + ERR_MPI_BUFFER_TOO_SMALL
        else 0
    ensures ret == 0 ==> 0 <= olen && output[olen..] == old(output[olen..])
    ensures ret == 0 ==> var m := Os2ip(old(input[..ilen]));
      output[..olen] == I2osp(Pow(m, ctx.D.Mag()) % ctx.N.Mag(), olen)
    ensures ret != 0 ==> output[..] == old(output[..])
    ensures olen' == if ret == ERR_RSA_PRIVATE_FAILED + ERR_MPI_BUFFER_TOO_SMALL
                     then OctetLen(Pow(Os2ip(old(input[..ilen])), ctx.D.Mag()) % ctx.N.Mag()) else olen
  {
    hide Val, Pow, Sig, Os2ip, I2osp, OctetLen, Radix;
    olen' := olen;
    var T := new Mpi();
    Import(T, input, ilen);
    CrtIsPlain(ctx.PrivateKey(), T.Mag());
    var r := CmpMpi(T, ctx.N);
    if r >= 0 {
      return ERR_RSA_BAD_INPUT_DATA, olen;
    }
    CrtPrivate(ctx, T);
    ret, olen' := Export(T, output, olen);
    if ret != 0 {
      ret := ERR_RSA_PRIVATE_FAILED + ret;
    }
  }

  lemma KeyFacts(k: Key)
    requires ValidKey(k)
    ensures 1 < k.p && 1 < k.q && k.qp != 0 && k.p % 2 == 1 && k.q % 2 == 1
  {
    DivModUnique(-1, k.p, -1, k.p - 1);
  }

  /** The branch by the Chinese remainder theorem. */
  method CrtPrivate(ctx: RsaContext, T: Mpi)
    requires ctx.PrivateOk() && T.Ok() && T.s == 1
    requires T !in {ctx.N, ctx.E, ctx.D, ctx.P, ctx.Q, ctx.DP, ctx.DQ, ctx.QP, ctx.RN, ctx.RP, ctx.RQ}
    modifies T, ctx.RP, ctx.RQ
    ensures ctx.PrivateOk() && T.Ok() && T.s == 1 && T.Mag() == PrivateCrt(ctx.PrivateKey(), old(T.Mag()))
  {
    hide Val, Pow, Sig, Cong, ValidKey, Radix;
    KeyFacts(ctx.PrivateKey());
    var T1 := new Mpi();
    var T2 := new Mpi();
    var ret := ExpMod(T1, T, ctx.DP, ctx.P, ctx.RP);
    ret := ExpMod(T2, T, ctx.DQ, ctx.Q, ctx.RQ);
    Recombine(T, T1, T2, ctx.QP, ctx.P, ctx.Q);
  }
}
