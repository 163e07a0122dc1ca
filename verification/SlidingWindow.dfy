/** Sliding-window exponentiation, mpi_exp_mod (algorithm 14.85 of the Handbook of Applied
    Cryptography). */
module SlidingWindow {
  import opened Arithmetic
  import opened Digits
  import opened Limbs
  import opened Mpis
  import opened MpiShift
  import opened MpiDiv
  import opened Montgomery

  const ERR_MPI_INVALID_PARAMETER: int := 0x0004

  // ---- residues in Montgomery form ----

  lemma CancelTwo(a: int, b: int, n: int)
    requires 0 < n && n % 2 == 1 && Cong(a * 2, b * 2, n)
    ensures Cong(a, b, n)
  {
    hide Cong;
    var k := CongElim(a * 2, b * 2, n);
    var h, j := n / 2, k / 2;
    OddTimes(k, h);
    assert k == 2 * j;
    MulAssoc(2, j, n);
    CongIntro(a, b, n, j);
  }

  /** Powers of two cancel modulo an odd number. */
  lemma {:induction false} CancelPow2(a: int, b: int, e: nat, n: int)
    requires 0 < n && n % 2 == 1 && Cong(a * Pow(2, e), b * Pow(2, e), n)
    ensures Cong(a, b, n)
  {
    if e > 0 {
      var w := Pow(2, e - 1);
      assert Pow(2, e) == w * 2;
      MulAssoc(a, w, 2);
      MulAssoc(b, w, 2);
      CancelTwo(a * w, b * w, n);
      CancelPow2(a, b, e - 1, n);
    }
  }

  ghost function Radix(N: Mpi): (r: int)
    reads N
    ensures 0 < r
  {
    Pow(BASE, |N.p|)
  }

  lemma CancelRadix(a: int, b: int, N: Mpi)
    requires N.Mag() % 2 == 1 && Cong(a * Radix(N), b * Radix(N), N.Mag())
    ensures Cong(a, b, N.Mag())
  {
    hide Pow, Cong;
    PowPow(2, LIMB_BITS, |N.p|);
    CancelPow2(a, b, LIMB_BITS * |N.p|, N.Mag());
  }

  /** An odd modulus with its Montgomery constant and scratch space. */
  ghost predicate Modulus(N: Mpi, mm: int, T: Mpi)
    reads N, T
  {
    && N != T && 0 < |N.p| && 2 * |N.p| + 2 <= |T.p|
    && N.Mag() % 2 == 1 && MontConst(mm, N.p[0])
  }

  /** X is x in Montgomery form: x * R modulo N, reduced, with a limb to spare. */
  ghost predicate Holds(X: Mpi, N: Mpi, x: int)
    reads X, N
  {
    |N.p| < |X.p| && 0 < N.Mag() && X.Mag() < N.Mag() && Cong(X.Mag(), x * Radix(N), N.Mag())
  }

  lemma MontProduct(z: int, u: int, v: int, x: int, y: int, r: int, n: int)
    requires 0 < n && Cong(z * r, u * v, n) && Cong(u, x * r, n) && Cong(v, y * r, n)
    ensures Cong(z * r, ((x * y) * r) * r, n)
  {
    hide Cong;
    CongMul(u, x * r, v, y * r, n);
    CongTrans(z * r, u * v, (x * r) * (y * r), n);
    MulShuffle(x, r, y, r);
    MulAssoc(x * y, r, r);
  }

  /** A Montgomery product of Montgomery forms is the Montgomery form of the product. */
  method MulForms(X: Mpi, Y: Mpi, N: Mpi, mm: limb, T: Mpi, ghost x: int, ghost y: int)
    requires Modulus(N, mm, T) && X != N && X != T && Y != T
    requires Holds(X, N, x) && Holds(Y, N, y)
    modifies X`p, T`p
    ensures |T.p| == old(|T.p|) && Holds(X, N, x * y)
  {
    hide Val, Pow, Cong, MontConst;
    ghost var u, v := X.Mag(), Y.Mag();
    ValBounds(N.p, BASE);
    MontMul(X, Y, N, mm, T);
    MontProduct(X.Mag(), u, v, x, y, Radix(N), N.Mag());
    CancelRadix(X.Mag(), (x * y) * Radix(N), N);
  }

  // ---- the precomputed residues ----

  /** R^2 mod N: computed, or taken from the cache, and left in the cache. */
  method MontSquare(N: Mpi, cache: Mpi?) returns (RR: Mpi)
    requires N.Ok() && N.s == 1 && 0 < N.Mag() && cache != N
    requires cache != null && 0 < |cache.p| ==> cache.Mag() == (Radix(N) * Radix(N)) % N.Mag()
    modifies cache
    ensures fresh(RR) && 0 < |RR.p| && RR.Mag() == (Radix(N) * Radix(N)) % N.Mag()
    ensures cache == null || 0 == old(|cache.p|) ==> RR.s == 1
    ensures cache != null ==> cache.p == RR.p && cache.s == RR.s
    ensures cache != null && 0 < old(|cache.p|) ==> cache.p == old(cache.p) && cache.s == old(cache.s)
  {
    hide Val, Pow, LimbsFor;
    RR := new Mpi();
    if cache == null || |cache.p| == 0 {
      BaseFacts();
      LSet(RR, 1);
      ShiftL(RR, |N.p| * 2 * LIMB_BITS);
      RadixSquared(|N.p|);
      var ret := ModMpi(RR, RR, N);
      if cache != null {
        cache.s, cache.p := RR.s, RR.p;
      }
    } else {
      RR.s, RR.p := cache.s, cache.p;
    }
  }

  lemma RadixSquared(n: nat)
    ensures 0 <= n * 2 * LIMB_BITS && Pow(2, n * 2 * LIMB_BITS) == Pow(BASE, n) * Pow(BASE, n)
  {
    hide Pow;
    PowPow(2, LIMB_BITS, n);
    var e := LIMB_BITS * n;
    PowAdd(2, e, e);
    assert n * 2 * LIMB_BITS == e + e;
  }

  /** W1 = A mod N, or A itself when it is below N. */
  method LoadBase(W1: Mpi, A: Mpi, N: Mpi)
    requires W1 != A && W1 != N && A.Ok() && N.Ok() && N.s == 1 && 0 < N.Mag() && 0 <= A.V()
    requires |N.p| < |W1.p|
    modifies W1
    ensures |N.p| < |W1.p| && W1.Mag() <= N.Mag() && Cong(W1.Mag(), A.Mag(), N.Mag())
  {
    hide Val, Pow, Cong, Sig;
    var nv := N.Mag();
    A.SigFacts();
    N.SigFacts();
    var r := CmpMpi(A, N);
    if r >= 0 {
      r := ModMpi(W1, A, N);
      CongMod(A.Mag(), nv);
      NegZeroCong(nv);
    } else {
      CongRefl(A.Mag(), nv);
      Copy(W1, A);
    }
  }

  lemma NegZeroCong(n: int)
    requires 0 < n
    ensures Cong(n, 0, n)
  {
    CongIntro(n, 0, n, 1);
  }

  // ---- the window table ----

  /** W[k] is a^k in Montgomery form, for lo <= k < hi. */
  ghost predicate Table(W: seq<Mpi>, N: Mpi, a: int, lo: nat, hi: nat)
    requires hi <= |W|
    reads W, N
  {
    forall k {:trigger W[k]} :: lo <= k < hi ==> Holds(W[k], N, Pow(a, k))
  }

  /** The objects of one exponentiation do not share. */
  ghost predicate Separate(W: seq<Mpi>, X: Mpi, N: Mpi, T: Mpi) {
    && |W| == 64 && X != N && X != T && N != T
    && X !in W && N !in W && T !in W
    && (forall j, k :: 0 <= j < k < |W| ==> W[j] != W[k])
  }

  lemma HoldsFrom(X: Mpi, N: Mpi, u: int, x: int, square: int)
    requires 0 < N.Mag() && N.Mag() % 2 == 1 && |N.p| < |X.p| && X.Mag() < N.Mag()
    requires square == (Radix(N) * Radix(N)) % N.Mag()
    requires Cong(X.Mag() * Radix(N), u * square, N.Mag()) && Cong(u, x, N.Mag())
    ensures Holds(X, N, x)
  {
    hide Pow, Cong;
    var r, n := Radix(N), N.Mag();
    CongMod(r * r, n);
    CongMul(u, x, square, r * r, n);
    CongTrans(X.Mag() * r, u * square, x * (r * r), n);
    MulAssoc(x, r, r);
    CancelRadix(X.Mag(), x * r, N);
  }

  /** X = R mod N, the Montgomery form of 1. */
  method LoadOne(X: Mpi, RR: Mpi, N: Mpi, mm: limb, T: Mpi)
    requires Modulus(N, mm, T) && X != N && X != T && X != RR && 0 < N.Mag()
    requires 0 < |RR.p| && RR.Mag() == (Radix(N) * Radix(N)) % N.Mag() && |N.p| < |X.p|
    modifies X, T`p
    ensures |T.p| == old(|T.p|) && Holds(X, N, 1) && (RR.s != 0 ==> X.s == RR.s)
  {
    hide Val, Pow, Cong, MontConst, Sig;
    ValBounds(N.p, BASE);
    Copy(X, RR);
    ghost var u := X.Mag();
    MontRed(X, N, mm, T);
    CongRefl(1, N.Mag());
    HoldsFrom(X, N, 1, 1, u);
  }

  /** W[1] = A * R mod N. */
  method LoadFirst(W1: Mpi, A: Mpi, RR: Mpi, N: Mpi, mm: limb, T: Mpi)
    requires Modulus(N, mm, T) && W1 != N && W1 != T && W1 != RR && W1 != A && RR != T && RR != N && A != T
    requires A.Ok() && N.Ok() && N.s == 1 && 0 < N.Mag() && 0 <= A.V()
    requires 0 < |RR.p| && RR.Mag() == (Radix(N) * Radix(N)) % N.Mag() && |N.p| < |W1.p|
    modifies W1, T`p
    ensures |T.p| == old(|T.p|) && Holds(W1, N, A.Mag())
  {
    hide Val, Pow, Cong, MontConst, Sig;
    ValBounds(N.p, BASE);
    LoadBase(W1, A, N);
    ghost var u := W1.Mag();
    MontMul(W1, RR, N, mm, T);
    HoldsFrom(W1, N, u, A.Mag(), RR.Mag());
  }

  /** k squarings. */
  method SquareTimes(X: Mpi, N: Mpi, mm: limb, T: Mpi, k: nat, ghost a: int, ghost e: nat)
    requires Modulus(N, mm, T) && X != N && X != T && Holds(X, N, Pow(a, e))
    modifies X`p, T`p
    ensures |T.p| == old(|T.p|) && 0 <= e * Pow(2, k) && Holds(X, N, Pow(a, e * Pow(2, k)))
  {
    hide Pow, Holds, MontConst;
    PowStep(2, 0);
    var i := 0;
    while i < k
      invariant i <= k && |T.p| == old(|T.p|) && Modulus(N, mm, T)
      invariant 0 <= e * Pow(2, i) && Holds(X, N, Pow(a, e * Pow(2, i)))
    {
      SquareOnce(X, N, mm, T, a, e * Pow(2, i));
      PowStep(2, i);
      DoubleExponent(e, Pow(2, i));
      i := i + 1;
    }
  }

  lemma DoubleExponent(e: nat, w: int)
    requires 0 < w
    ensures e * (2 * w) == e * w + e * w && 0 <= e * (2 * w)
  {
    MulNonNegative(e, w);
  }

  method SquareOnce(X: Mpi, N: Mpi, mm: limb, T: Mpi, ghost a: int, ghost e: nat)
    requires Modulus(N, mm, T) && X != N && X != T && Holds(X, N, Pow(a, e))
    modifies X`p, T`p
    ensures |T.p| == old(|T.p|) && Holds(X, N, Pow(a, e + e))
  {
    hide Pow, Cong, MontConst;
    PowAdd(a, e, e);
    MulForms(X, X, N, mm, T, Pow(a, e), Pow(a, e));
  }

  method TimesTable(X: Mpi, W: seq<Mpi>, w: nat, N: Mpi, mm: limb, T: Mpi, ghost a: int, ghost e: nat)
    requires Modulus(N, mm, T) && Separate(W, X, N, T) && w < 64
    requires Holds(X, N, Pow(a, e)) && Holds(W[w], N, Pow(a, w))
    modifies X`p, T`p
    ensures |T.p| == old(|T.p|) && Holds(X, N, Pow(a, e + w))
  {
    hide Pow, Cong, MontConst;
    PowAdd(a, e, w);
    MulForms(X, W[w], N, mm, T, Pow(a, e), Pow(a, w));
  }

  /** W[i] = W[j] for a fresh slot, with room for Montgomery products. */
  method CopySlot(W: seq<Mpi>, i: nat, j: nat, N: Mpi, ghost x: int)
    requires i < |W| && j < |W| && W[i] != W[j] && W[i] != N && Holds(W[j], N, x)
    modifies W[i]
    ensures Holds(W[i], N, x) && Holds(W[j], N, x)
  {
    hide Pow, Cong, Val, Sig;
    Grow(W[i], |N.p| + 1);
    Copy(W[i], W[j]);
  }

  lemma WindowSize(wsize: nat)
    requires 1 <= wsize <= 6
    ensures 1 <= Pow(2, wsize - 1) < Pow(2, wsize) == 2 * Pow(2, wsize - 1) <= 64
    ensures 1 < wsize ==> 1 < Pow(2, wsize - 1)
  {
    PowMono(2, wsize, 6);
    assert Pow(2, 6) == Pow(2, 3) * Pow(2, 3) by { PowAdd(2, 3, 3); }
    PowMono(2, 0, wsize - 1);
    if 1 < wsize {
      PowMono(2, 1, wsize - 1);
    }
  }

  /** The top half of the table. */
  method FillTable(W: seq<Mpi>, X: Mpi, N: Mpi, mm: limb, T: Mpi, wsize: nat, ghost a: int)
    requires Separate(W, X, N, T) && Modulus(N, mm, T) && 1 < wsize <= 6 && Holds(W[1], N, a)
    modifies W, T`p
    ensures |T.p| == old(|T.p|) && Pow(2, wsize) <= 64 && Holds(W[1], N, a)
    ensures Table(W, N, a, Pow(2, wsize - 1), Pow(2, wsize))
  {
    hide Pow, MontConst, Holds;
    WindowSize(wsize);
    PowStep(a, 0);
    var j := Pow(2, wsize - 1);
    CopySlot(W, j, 1, N, a);
    SquareTimes(W[j], N, mm, T, wsize - 1, a, 1);
    var i := j + 1;
    while i < Pow(2, wsize)
      invariant j < i <= Pow(2, wsize) && |T.p| == old(|T.p|)
      invariant Holds(W[1], N, a)
      invariant Table(W, N, a, j, i)
    {
      CopySlot(W, i, i - 1, N, Pow(a, i - 1));
      PowAdd(a, i - 1, 1);
      PowStep(a, 0);
      MulForms(W[i], W[1], N, mm, T, Pow(a, i - 1), a);
      i := i + 1;
    }
  }

  // ---- the window loop ----

  /** The bits of ev above place pos are done * 2^nbits + pend: X is a^done, and the window holds
      the nbits bits of pend, moved up to bit wsize. */
  ghost predicate Scanned(ev: nat, pos: nat, done: nat, pend: nat, nbits: nat, wbits: int, state: int, wsize: nat) {
    && nbits < wsize && pend < Pow(2, nbits) && 0 <= state <= 2
    && ev / Pow(2, pos) == done * Pow(2, nbits) + pend
    && wbits == pend * Pow(2, wsize - nbits)
    && (state == 0 ==> done == 0)
    && (state < 2 ==> nbits == 0)
    && (state == 2 ==> 0 < nbits && Pow(2, nbits - 1) <= pend)
  }

  lemma NextBit(ev: nat, pos: nat)
    requires 0 < pos
    ensures ev / Pow(2, pos - 1) == 2 * (ev / Pow(2, pos)) + Bit(ev, pos - 1)
  {
    var d := Pow(2, pos - 1);
    assert Pow(2, pos) == d * 2;
    DivDiv(ev, d, 2);
  }

  lemma ScanFirst(ev: nat, pos: nat, wsize: nat)
    requires ev < Pow(2, pos) && 0 < wsize
    ensures Scanned(ev, pos, 0, 0, 0, 0, 0, wsize)
  {
    DivModUnique(ev, Pow(2, pos), 0, ev);
  }

  /** A zero bit outside a window: skipped before the first one bit, a squaring after it. */
  lemma ScanZero(ev: nat, pos: nat, done: nat, pend: nat, nbits: nat, wbits: int, state: int, wsize: nat)
    requires 0 < pos && Scanned(ev, pos, done, pend, nbits, wbits, state, wsize) && state < 2
    requires Bit(ev, pos - 1) == 0
    ensures Scanned(ev, pos - 1, done + done, pend, nbits, wbits, state, wsize)
  {
    NextBit(ev, pos);
  }

  /** The window after taking in bit ei: the bits are disjoint, so | is +. */
  function AddBit(wbits: int, ei: int, nbits: nat, wsize: nat): int
    requires nbits < wsize
  {
    wbits + ei * Pow(2, wsize - (nbits + 1))
  }

  lemma WindowBits(pend: nat, ei: int, nbits: nat, wsize: nat)
    requires nbits < wsize
    ensures pend * Pow(2, wsize - nbits) + ei * Pow(2, wsize - (nbits + 1))
         == (2 * pend + ei) * Pow(2, wsize - (nbits + 1))
  {
    var w := Pow(2, wsize - (nbits + 1));
    assert Pow(2, wsize - nbits) == 2 * w;
    MulAssoc(pend, 2, w);
  }

  lemma MoreBits(done: int, pend: int, ei: int, nbits: nat)
    ensures 2 * (done * Pow(2, nbits) + pend) + ei == done * Pow(2, nbits + 1) + (2 * pend + ei)
  {
    PowStep(2, nbits);
    MulAssoc(done, 2, Pow(2, nbits));
  }

  /** The counters once a bit is in the window: either it is not full yet ... */
  lemma ScanBit(ev: nat, pos: nat, done: nat, pend: nat, nbits: nat, wbits: int, state: int, wsize: nat, ei: int)
    requires 0 < pos && Scanned(ev, pos, done, pend, nbits, wbits, state, wsize)
    requires ei == Bit(ev, pos - 1) && (state < 2 ==> ei == 1)
    ensures AddBit(wbits, ei, nbits, wsize) == (2 * pend + ei) * Pow(2, wsize - (nbits + 1))
    ensures Pow(2, nbits) <= 2 * pend + ei < Pow(2, nbits + 1)
    ensures ev / Pow(2, pos - 1) == done * Pow(2, nbits + 1) + (2 * pend + ei)
  {
    NextBit(ev, pos);
    WindowBits(pend, ei, nbits, wsize);
    MoreBits(done, pend, ei, nbits);
    PowStep(2, nbits);
    if state < 2 {
      assert pend == 0 && Pow(2, 0) == 1;
    } else {
      PowStep(2, nbits - 1);
    }
  }

  lemma ScanMore(ev: nat, pos: nat, done: nat, pend: nat, nbits: nat, wbits: int, state: int, wsize: nat, ei: int)
    requires 0 < pos && Scanned(ev, pos, done, pend, nbits, wbits, state, wsize) && nbits + 1 < wsize
    requires ei == Bit(ev, pos - 1) && (state < 2 ==> ei == 1)
    ensures Scanned(ev, pos - 1, done, 2 * pend + ei, nbits + 1, AddBit(wbits, ei, nbits, wsize), 2, wsize)
  {
    hide Pow, AddBit;
    ScanBit(ev, pos, done, pend, nbits, wbits, state, wsize, ei);
  }

  /** ... or it is, and then it is multiplied in. */
  lemma ScanFull(ev: nat, pos: nat, done: nat, pend: nat, nbits: nat, wbits: int, state: int, wsize: nat, ei: int)
    requires 0 < pos && Scanned(ev, pos, done, pend, nbits, wbits, state, wsize) && nbits + 1 == wsize
    requires ei == Bit(ev, pos - 1) && (state < 2 ==> ei == 1)
    ensures Pow(2, wsize - 1) <= AddBit(wbits, ei, nbits, wsize) < Pow(2, wsize)
    ensures 0 <= done * Pow(2, wsize)
    ensures Scanned(ev, pos - 1, done * Pow(2, wsize) + AddBit(wbits, ei, nbits, wsize), 0, 0, 0, 1, wsize)
  {
    hide Pow, AddBit;
    ScanBit(ev, pos, done, pend, nbits, wbits, state, wsize, ei);
    PowStep(2, 0);
    MulNonNegative(done, Pow(2, wsize));
  }

  lemma FirstPosition(E: Mpi)
    ensures 0 <= |E.p| * LIMB_BITS && E.Mag() < Pow(2, |E.p| * LIMB_BITS)
  {
    hide Pow, Val;
    ValBounds(E.p, BASE);
    PowPow(2, LIMB_BITS, |E.p|);
  }

  lemma PositionBit(E: Mpi, i: nat, j: nat)
    requires i < |E.p| && j < LIMB_BITS
    ensures 0 <= i * LIMB_BITS + j && Bit(E.Mag(), i * LIMB_BITS + j) == Bit(E.p[i], j)
  {
    LimbBit(E.p, i, j);
  }

  lemma NextLimb(n: nat)
    requires 0 < n
    ensures n * LIMB_BITS == (n - 1) * LIMB_BITS + LIMB_BITS
  {
  }

  /** The while( 1 ) loop over the bits of E. */
  method ScanBits(X: Mpi, W: seq<Mpi>, E: Mpi, N: Mpi, mm: limb, T: Mpi, wsize: nat, ghost a: int)
    returns (nbits: nat, wbits: int, ghost done: nat, ghost pend: nat, ghost state: int)
    requires Separate(W, X, N, T) && Modulus(N, mm, T) && 1 <= wsize <= 6 && E != X && E != T
    requires Holds(X, N, Pow(a, 0)) && Pow(2, wsize) <= 64
    requires Table(W, N, a, Pow(2, wsize - 1), Pow(2, wsize))
    modifies X`p, T`p
    ensures |T.p| == old(|T.p|) && Holds(X, N, Pow(a, done))
    ensures Scanned(E.Mag(), 0, done, pend, nbits, wbits, state, wsize)
  {
    hide Pow, Val, Bit, MontConst, Holds, Scanned, AddBit;
    var nblimbs: int := |E.p|;
    var bufsize := 0;
    var st := 0;
    nbits, wbits, done, pend, state := 0, 0, 0, 0, 0;
    FirstPosition(E);
    ghost var pos := |E.p| * LIMB_BITS;
    ScanFirst(E.Mag(), pos, wsize);
    while true
      invariant 0 <= nblimbs <= |E.p| && 0 <= bufsize < LIMB_BITS && pos == nblimbs * LIMB_BITS + bufsize
      invariant 0 < bufsize ==> nblimbs < |E.p|
      invariant st == state && 0 <= st <= 2 && |T.p| == old(|T.p|) && nbits < wsize && (st < 2 ==> nbits == 0)
      invariant Holds(X, N, Pow(a, done))
      invariant Scanned(E.Mag(), pos, done, pend, nbits, wbits, state, wsize)
      decreases nblimbs, bufsize
    {
      if bufsize == 0 {
        if nblimbs == 0 {
          break;
        }
        NextLimb(nblimbs);
        nblimbs := nblimbs - 1;
        bufsize := LIMB_BITS;
      }
      bufsize := bufsize - 1;
      PositionBit(E, nblimbs, bufsize);
      var ei := Bit(E.p[nblimbs], bufsize);
      if ei == 0 && st < 2 {
        ScanZero(E.Mag(), pos, done, pend, nbits, wbits, state, wsize);
        if st == 1 {
          SquareOnce(X, N, mm, T, a, done);
        } else {
          NothingYet(E.Mag(), pos, done, pend, nbits, wbits, state, wsize);
        }
        done := done + done;
      } else if nbits + 1 == wsize {
        ScanFull(E.Mag(), pos, done, pend, nbits, wbits, state, wsize, ei);
        wbits := AddBit(wbits, ei, nbits, wsize);
        SquareTimes(X, N, mm, T, wsize, a, done);
        TimesTable(X, W, wbits, N, mm, T, a, done * Pow(2, wsize));
        done, pend, state := done * Pow(2, wsize) + wbits, 0, 1;
        st, nbits, wbits := 1, 0, 0;
      } else {
        ScanMore(E.Mag(), pos, done, pend, nbits, wbits, state, wsize, ei);
        wbits := AddBit(wbits, ei, nbits, wsize);
        pend, state := 2 * pend + ei, 2;
        st, nbits := 2, nbits + 1;
      }
      pos := pos - 1;
    }
  }

  lemma NothingYet(ev: nat, pos: nat, done: nat, pend: nat, nbits: nat, wbits: int, state: int, wsize: nat)
    requires Scanned(ev, pos, done, pend, nbits, wbits, state, wsize) && state == 0
    ensures done == 0
  {
  }

  // ---- the bits left in the window ----

  lemma CancelFactor(x: nat, v: int, u: int)
    requires 0 < u && 0 < v
    ensures 0 < v * u && 0 <= x * u && (x * u) / (v * u) == x / v
  {
    var q, r := x / v, x % v;
    MulStrictMono(0, v, u);
    MulNonNegative(x, u);
    MulNonNegative(r, u);
    MulStrictMono(r, v, u);
    MulAssoc(q, v, u);
    assert x * u == q * (v * u) + r * u;
    DivModUnique(x * u, v * u, q, r * u);
  }

  /** Shifting the window one to the left brings the next bit of pend to place wsize. */
  lemma TailBit(pend: nat, nbits: nat, wsize: nat, i: nat)
    requires i < nbits < wsize
    ensures 0 <= pend * Pow(2, wsize - nbits + i + 1)
    ensures Bit(pend * Pow(2, wsize - nbits + i + 1), wsize) == Bit(pend, nbits - i - 1)
    ensures pend * Pow(2, wsize - nbits + i + 1) == (pend * Pow(2, wsize - nbits + i)) * 2
    ensures pend / Pow(2, nbits - i - 1) == 2 * (pend / Pow(2, nbits - i)) + Bit(pend, nbits - i - 1)
  {
    var u := Pow(2, wsize - nbits + i + 1);
    PowAdd(2, nbits - i - 1, wsize - nbits + i + 1);
    CancelFactor(pend, Pow(2, nbits - i - 1), u);
    NextBit(pend, nbits - i);
    PowStep(2, wsize - nbits + i);
  }

  lemma TailExponent(done: nat, h: nat, bit: int, w: int)
    requires 0 < w && 0 <= bit
    ensures 0 <= done * w && 0 <= done * (2 * w)
    ensures (done * w + h) + (done * w + h) + bit == done * (2 * w) + (2 * h + bit)
  {
    MulNonNegative(done, w);
  }

  method FinishBits(X: Mpi, W: seq<Mpi>, N: Mpi, mm: limb, T: Mpi, wsize: nat, nbits: nat, wbits: int,
                    ghost a: int, ghost done: nat, ghost pend: nat)
    requires Separate(W, X, N, T) && Modulus(N, mm, T) && nbits < wsize && Holds(W[1], N, a)
    requires Holds(X, N, Pow(a, done)) && pend < Pow(2, nbits) && wbits == pend * Pow(2, wsize - nbits)
    modifies X`p, T`p
    ensures |T.p| == old(|T.p|)
    ensures 0 <= done * Pow(2, nbits) + pend && Holds(X, N, Pow(a, done * Pow(2, nbits) + pend))
  {
    hide Pow, MontConst, Holds, Bit;
    PowStep(2, 0);
    PowStep(a, 0);
    DivModUnique(pend, Pow(2, nbits), 0, pend);
    var wb := wbits;
    var i := 0;
    ghost var e := done;
    while i < nbits
      invariant i <= nbits && |T.p| == old(|T.p|)
      invariant wb == pend * Pow(2, wsize - nbits + i)
      invariant e == done * Pow(2, i) + pend / Pow(2, nbits - i)
      invariant Holds(X, N, Pow(a, e)) && Holds(W[1], N, a)
    {
      SquareOnce(X, N, mm, T, a, e);
      wb := wb * 2;
      TailBit(pend, nbits, wsize, i);
      TailExponent(done, pend / Pow(2, nbits - i), Bit(pend, nbits - i - 1), Pow(2, i));
      PowStep(2, i);
      e := e + e;
      if Bit(wb, wsize) != 0 {
        TimesTable(X, W, 1, N, mm, T, a, e);
        e := e + 1;
      }
      i := i + 1;
    }
  }

  // ---- the whole exponentiation ----

  /** A cached R^2 mod N, or nothing yet. */
  ghost predicate CacheOk(cache: Mpi?, N: Mpi)
    reads cache, N
  {
    cache != null && 0 < |cache.p| && 0 < N.Mag() ==>
      cache.s == 1 && cache.Mag() == (Radix(N) * Radix(N)) % N.Mag()
  }

  method NewTable() returns (W: seq<Mpi>)
    ensures |W| == 64 && fresh(set w | w in W)
    ensures forall j, k :: 0 <= j < k < |W| ==> W[j] != W[k]
  {
    W := [];
    while |W| < 64
      invariant |W| <= 64 && fresh(set w | w in W)
      invariant forall j, k :: 0 <= j < k < |W| ==> W[j] != W[k]
    {
      var w := new Mpi();
      W := W + [w];
    }
  }

  function WindowFor(bits: nat): (wsize: nat)
    ensures 1 <= wsize <= 6
  {
    if bits > 671 then 6 else if bits > 239 then 5 else if bits > 79 then 4 else if bits > 23 then 3 else 1
  }

  /** X = X * R^-1 mod N turns a Montgomery form into the residue it stands for. */
  method LeaveForm(X: Mpi, N: Mpi, mm: limb, T: Mpi, ghost x: int)
    requires Modulus(N, mm, T) && X != N && X != T && Holds(X, N, x)
    modifies X`p, T`p
    ensures 0 < |X.p| && X.Mag() == x % N.Mag()
  {
    hide Pow, Cong, Val, MontConst;
    ValBounds(N.p, BASE);
    ghost var u, n := X.Mag(), N.Mag();
    MontRed(X, N, mm, T);
    CongTrans(X.Mag() * Radix(N), u, x * Radix(N), n);
    CancelRadix(X.Mag(), x, N);
    CongSameMod(X.Mag(), x, n);
    DivModUnique(X.Mag(), n, 0, X.Mag());
  }

  /** Everything between the setup and the clean-up: X = a^E mod N. */
  method Exponentiate(X: Mpi, W: seq<Mpi>, A: Mpi, E: Mpi, N: Mpi, RR: Mpi, mm: limb, T: Mpi, wsize: nat)
    requires Separate(W, X, N, T) && Modulus(N, mm, T) && 1 <= wsize <= 6
    requires A.Ok() && N.Ok() && N.s == 1 && 0 < N.Mag() && 0 <= A.V()
    requires A !in W && A != T && E !in W && E != X && E != T && RR != X && RR != N && RR != T && RR !in W
    requires 0 < |RR.p| && RR.s == 1 && RR.Mag() == (Radix(N) * Radix(N)) % N.Mag()
    requires |N.p| < |X.p| && |N.p| < |W[1].p|
    modifies X, W, T`p
    ensures X.Ok() && X.s == 1 && X.Mag() == Pow(old(A.Mag()), E.Mag()) % N.Mag()
  {
    hide Pow, Cong, Val, MontConst, Holds;
    ghost var a := A.Mag();
    LoadFirst(W[1], A, RR, N, mm, T);
    PowStep(a, 0);
    PowStep(2, 0);
    WindowSize(wsize);
    LoadOne(X, RR, N, mm, T);
    if wsize > 1 {
      FillTable(W, X, N, mm, T, wsize, a);
    }
    assert Table(W, N, a, Pow(2, wsize - 1), Pow(2, wsize));
    assert Holds(W[1], N, a);
    var nbits, wbits, done, pend, state := ScanBits(X, W, E, N, mm, T, wsize, a);
    ScanLast(E.Mag(), done, pend, nbits, wbits, state, wsize);
    FinishBits(X, W, N, mm, T, wsize, nbits, wbits, a, done, pend);
    LeaveForm(X, N, mm, T, Pow(a, E.Mag()));
    assert 0 < |X.p|;
  }

  lemma ScanLast(ev: nat, done: nat, pend: nat, nbits: nat, wbits: int, state: int, wsize: nat)
    requires Scanned(ev, 0, done, pend, nbits, wbits, state, wsize)
    ensures nbits < wsize && pend < Pow(2, nbits) && wbits == pend * Pow(2, wsize - nbits)
    ensures done * Pow(2, nbits) + pend == ev
  {
    assert Pow(2, 0) == 1;
  }

  /** mpi_exp_mod: X = A^|E| mod N for every odd positive N; the cache, when given, holds or
      receives R^2 mod N. */
  method ExpMod(X: Mpi, A: Mpi, E: Mpi, N: Mpi, cache: Mpi?) returns (ret: int)
    requires A.Ok() && E.Ok() && N.Ok() && 0 <= A.V()
    requires X != E && X != N && X != cache && cache != A && cache != E && cache != N
    requires CacheOk(cache, N)
    modifies X, cache
    ensures ret == if N.V() < 0 || N.Mag() % 2 == 0 then ERR_MPI_INVALID_PARAMETER else 0
    ensures ret != 0 ==> X.s == old(X.s) && X.p == old(X.p)
    ensures ret == 0 ==> X.Ok() && X.s == 1
    ensures ret == 0 ==> 0 < N.Mag() && X.V() == Pow(old(A.V()), E.Mag()) % N.Mag()
    ensures ret != 0 && cache != null ==> cache.s == old(cache.s) && cache.p == old(cache.p)
    ensures CacheOk(cache, N)
  {
    hide Pow, Cong, Val, MontConst;
    LowLimbParity(N.p);
    var r := CmpInt(N, 0);
    if r < 0 || N.p[0] % 2 == 0 {
      return ERR_MPI_INVALID_PARAMETER;
    }
    ExpOdd(X, A, E, N, cache);
    return 0;
  }

  method ExpOdd(X: Mpi, A: Mpi, E: Mpi, N: Mpi, cache: Mpi?)
    requires A.Ok() && E.Ok() && N.Ok() && N.s == 1 && N.Mag() % 2 == 1 && 0 <= A.V()
    requires X != E && X != N && X != cache && cache != A && cache != E && cache != N
    requires CacheOk(cache, N)
    modifies X, cache
    ensures X.Ok() && X.s == 1 && X.Mag() == Pow(old(A.Mag()), E.Mag()) % N.Mag()
    ensures CacheOk(cache, N)
  {
    hide Pow, Cong, Val, MontConst, WindowFor, BitLen, Sig;
    LowLimbParity(N.p);
    var mm := MontgInit(N);
    var T := new Mpi();
    var W := NewTable();
    var i := Size(E);
    var wsize := WindowFor(i);
    var j := |N.p| + 1;
    Grow(X, j);
    Grow(W[1], j);
    Grow(T, j * 2);
    var RR := MontSquare(N, cache);
    assert Separate(W, X, N, T);
    Exponentiate(X, W, A, E, N, RR, mm, T, wsize);
  }
}
