/** The binary extended Euclid of mpi_inv_mod as a function of its inputs (algorithm 14.61 of the
    Handbook of Applied Cryptography), carries that mpi_add_abs loses included.  A coefficient is
    known by its sign, its magnitude and the length of its buffer, which is all that decides whether
    a carry is lost. */
module InverseRun {
  import opened Arithmetic
  import opened NumberTheory
  import opened Limbs
  import opened Mpis
  import opened MpiShift
  import opened BinaryEuclid

  // ---- one coefficient ----

  datatype Held = Held(s: int, m: nat, l: nat) {
    function V(): int { if s < 0 then 0 - m else m }

    predicate Signed() { s == 1 || s == -1 }
  }

  /** The number of significant limbs of a magnitude. */
  function LimbLen(m: nat): nat { LimbsFor(BitLen(m)) }

  lemma LimbLenLeq(m: nat, k: nat)
    ensures LimbLen(m) <= k <==> m < Pow(BASE, k)
  {
    hide Pow, BitLen, LimbsFor;
    LimbsForLeq(BitLen(m), k);
    PowPow(2, LIMB_BITS, k);
    BitLenLess(m, LIMB_BITS * k);
  }

  lemma LimbLenIs(m: nat, k: nat)
    requires m < Pow(BASE, k) && (0 < k ==> Pow(BASE, k - 1) <= m)
    ensures LimbLen(m) == k
  {
    hide Pow, LimbLen;
    LimbLenLeq(m, k);
    if 0 < k {
      LimbLenLeq(m, k - 1);
    }
  }

  /** Adding magnitude m to x in place: the last carry meets a limb of ones below the end of the buffer. */
  predicate SumLoses(x: Held, m: nat) {
    var w := Pow(BASE, LimbLen(m));
    LimbLen(m) + 1 < x.l && (x.m / w) % BASE == BASE - 1 && w <= x.m % w + m
  }

  /** What is left of the sum. */
  function Sum(x: Held, m: nat): nat {
    if SumLoses(x, m) then
      LossBound(x.m, Pow(BASE, LimbLen(m)), BASE);
      x.m + m - (BASE - 1) * Pow(BASE, LimbLen(m))
    else x.m + m
  }

  lemma LossBound(x: nat, w: int, b: int)
    requires 0 < w && 1 < b && (x / w) % b == b - 1
    ensures 0 < (b - 1) * w <= x
  {
    var q := x / w;
    assert q == b * (q / b) + (b - 1);
    MulNonNegative(b, q / b);
    MulMono(b - 1, q, w);
    MulStrictMono(0, b - 1, w);
    assert x == q * w + x % w;
  }

  /** x plus a number of sign s and magnitude m, as mpi_add_mpi and mpi_sub_mpi leave it in place. */
  function Added(x: Held, s: int, m: nat): Held {
    if x.s == s then Held(s, Sum(x, m), Max(Max(x.l, LimbLen(m)), LimbLen(Sum(x, m))))
    else if m <= x.m then Held(x.s, x.m - m, x.l)
    else Held(s, m - x.m, Max(x.l, LimbLen(m)))
  }

  predicate AddsExactly(x: Held, s: int, m: nat) { x.s != s || !SumLoses(x, m) }

  lemma AddedValue(x: Held, s: int, m: nat)
    requires x.Signed() && (s == 1 || s == -1)
    ensures Added(x, s, m).Signed()
    ensures Added(x, s, m).V() == x.V() + s * m <==> AddsExactly(x, s, m)
  {
    hide LimbLen, Pow;
    BaseFacts();
    if SumLoses(x, m) {
      LossBound(x.m, Pow(BASE, LimbLen(m)), BASE);
    }
  }

  function Half(x: Held): Held { Held(x.s, x.m / 2, x.l) }

  // ---- one side of the algorithm ----

  /** TU, U1 and U2, or TV, V1 and V2; strips says that no carry lost in a strip loop has gone into the
      coefficients, and subs that none lost in a subtraction has. */
  datatype Side = Side(t: nat, c: Held, d: Held, strips: bool, subs: bool) {
    predicate Signed() { c.Signed() && d.Signed() }

    predicate Exact() { strips && subs }
  }

  /** One pass of a strip loop. */
  function Halved(x: Side, a: nat, n: nat): Side {
    if x.c.m % 2 == 1 || x.d.m % 2 == 1 then
      Side(x.t / 2, Half(Added(x.c, 1, n)), Half(Added(x.d, -1, a)),
           x.strips && AddsExactly(x.c, 1, n) && AddsExactly(x.d, -1, a), x.subs)
    else Side(x.t / 2, Half(x.c), Half(x.d), x.strips, x.subs)
  }

  /** A strip loop. */
  function Stripped(x: Side, a: nat, n: nat): (y: Side)
    requires 0 < x.t
    ensures 0 < y.t <= x.t && y.t % 2 == 1
    decreases x.t
  {
    if x.t % 2 == 1 then x else Stripped(Halved(x, a, n), a, n)
  }

  /** The subtraction of side y from side x. */
  function Reduced(x: Side, y: Side): Side
    requires y.t <= x.t
  {
    Side(x.t - y.t, Added(x.c, -y.c.s, y.c.m), Added(x.d, -y.d.s, y.d.m), x.strips && y.strips,
         x.subs && y.subs && AddsExactly(x.c, -y.c.s, y.c.m) && AddsExactly(x.d, -y.d.s, y.d.m))
  }

  /** The main loop: the side of TV when TU has become zero. */
  function Run(u: Side, v: Side, a: nat, n: nat): Side
    requires 0 < u.t && 0 < v.t
    decreases u.t + v.t
  {
    var x, y := Stripped(u, a, n), Stripped(v, a, n);
    if x.t < y.t then Run(x, Reduced(y, x), a, n)
    else if x.t == y.t then y
    else Run(Reduced(x, y), y, a, n)
  }

  function First(t: nat, c: nat, d: nat): Side { Side(t, Held(1, c, 1), Held(1, d, 1), true, true) }

  /** The side of TV that mpi_inv_mod ends with for the residue a and the modulus n. */
  function Inverse(a: nat, n: nat): Side
    requires 0 < a && 0 < n
  {
    Run(First(a, 1, 0), First(n, 0, 1), a, n)
  }

  /** A subtraction is one of numbers, and is recorded as one, unless the carry of an addition of equal
      signs is lost. */
  lemma ReducedExactly(x: Side, y: Side)
    requires y.t <= x.t && x.Signed() && y.Signed()
    ensures var z := Reduced(x, y);
      var lossC, lossD := x.c.s == -y.c.s && SumLoses(x.c, y.c.m), x.d.s == -y.d.s && SumLoses(x.d, y.d.m);
      && z.t == x.t - y.t && z.Signed() && z.strips == (x.strips && y.strips)
      && (z.c.V() == x.c.V() - y.c.V() <==> !lossC) && (z.d.V() == x.d.V() - y.d.V() <==> !lossD)
      && z.subs == (x.subs && y.subs && !lossC && !lossD)
  {
    hide Added, SumLoses;
    AddedValue(x.c, -y.c.s, y.c.m);
    AddedValue(x.d, -y.d.s, y.d.m);
  }

  /** A halving takes n and -a along where a coefficient is odd, unless the carry of an addition of
      equal signs is lost. */
  lemma HalvedExactly(x: Side, a: nat, n: nat)
    requires x.Signed()
    ensures var z := Halved(x, a, n);
      var odd := x.c.m % 2 == 1 || x.d.m % 2 == 1;
      var lossC, lossD := odd && x.c.s == 1 && SumLoses(x.c, n), odd && x.d.s == -1 && SumLoses(x.d, a);
      && z.t == x.t / 2 && z.Signed() && z.subs == x.subs && z.strips == (x.strips && !lossC && !lossD)
      && (!odd ==> 2 * z.c.V() == x.c.V() && 2 * z.d.V() == x.d.V())
      && (odd && !lossC && (x.c.V() + n) % 2 == 0 ==> 2 * z.c.V() == x.c.V() + n)
      && (odd && !lossD && (x.d.V() - a) % 2 == 0 ==> 2 * z.d.V() == x.d.V() - a)
  {
    hide Added, SumLoses;
    AddedValue(x.c, 1, n);
    AddedValue(x.d, -1, a);
    HalfValue(x.c);
    HalfValue(x.d);
    HalfValue(Added(x.c, 1, n));
    HalfValue(Added(x.d, -1, a));
  }

  // ---- as long as no carry is lost, the run is the algorithm on integers ----

  /** x holds the numbers of z, unless a lost carry has gone into it. */
  ghost predicate Tracks(x: Side, z: Plain) {
    x.Signed() && x.t == z.t && (x.Exact() ==> x.c.V() == z.c && x.d.V() == z.d)
  }

  lemma SignedParity(m: int)
    ensures (-m) % 2 == m % 2
    ensures m % 2 == 0 ==> (-m) / 2 == -(m / 2)
  {
  }

  lemma HalfValue(x: Held)
    requires x.Signed()
    ensures Half(x).Signed() && x.V() % 2 == x.m % 2
    ensures x.V() % 2 == 0 ==> Half(x).V() == x.V() / 2
  {
    SignedParity(x.m);
  }

  lemma HalvedTracks(x: Side, z: Plain, a: nat, n: nat)
    requires Tracks(x, z) && Combines(z, a, n) && x.t % 2 == 0 && (a % 2 == 1 || n % 2 == 1)
    ensures Tracks(Halved(x, a, n), PlainHalved(z, a, n)) && Combines(PlainHalved(z, a, n), a, n)
  {
    hide Added, AddsExactly, Half, Bezout;
    HalvedCombines(z, a, n);
    Parity(z.c, z.d, z.t, a, n);
    HalfValue(x.c);
    HalfValue(x.d);
    AddedValue(x.c, 1, n);
    AddedValue(x.d, -1, a);
    HalfValue(Added(x.c, 1, n));
    HalfValue(Added(x.d, -1, a));
  }

  lemma {:induction false} StrippedTracks(x: Side, z: Plain, a: nat, n: nat)
    requires 0 < x.t && Tracks(x, z) && Combines(z, a, n) && (a % 2 == 1 || n % 2 == 1)
    ensures Tracks(Stripped(x, a, n), PlainStripped(z, a, n)) && Combines(PlainStripped(z, a, n), a, n)
    decreases x.t
  {
    hide Combines, Halved, PlainHalved;
    if x.t % 2 == 0 {
      HalvedTracks(x, z, a, n);
      HalvedNumber(x, a, n);
      StrippedTracks(Halved(x, a, n), PlainHalved(z, a, n), a, n);
    }
  }

  lemma HalvedNumber(x: Side, a: nat, n: nat)
    ensures Halved(x, a, n).t == x.t / 2
  {
  }

  lemma ReducedTracks(x: Side, y: Side, z: Plain, w: Plain)
    requires y.t <= x.t && Tracks(x, z) && Tracks(y, w)
    ensures Tracks(Reduced(x, y), PlainReduced(z, w)) && Reduced(x, y).t == x.t - y.t
  {
    hide Added, AddsExactly;
    AddedValue(x.c, -y.c.s, y.c.m);
    AddedValue(x.d, -y.d.s, y.d.m);
  }

  /** The run of the code is the run on integers in every coefficient no lost carry has gone into. */
  lemma {:induction false} RunTracks(u: Side, v: Side, z: Plain, w: Plain, a: nat, n: nat)
    requires 0 < u.t && 0 < v.t && Tracks(u, z) && Tracks(v, w)
    requires Combines(z, a, n) && Combines(w, a, n) && (a % 2 == 1 || n % 2 == 1)
    ensures Tracks(Run(u, v, a, n), PlainRun(z, w, a, n))
    decreases u.t + v.t
  {
    hide Combines, Stripped, PlainStripped, Reduced, PlainReduced;
    var x, y := Stripped(u, a, n), Stripped(v, a, n);
    var p, q := PlainStripped(z, a, n), PlainStripped(w, a, n);
    StrippedTracks(u, z, a, n);
    StrippedTracks(v, w, a, n);
    if x.t < y.t {
      ReducedTracks(y, x, q, p);
      ReducedCombines(q, p, a, n);
      RunTracks(x, Reduced(y, x), p, PlainReduced(q, p), a, n);
    } else if y.t < x.t {
      ReducedTracks(x, y, p, q);
      ReducedCombines(p, q, a, n);
      RunTracks(Reduced(x, y), y, PlainReduced(p, q), q, a, n);
    }
  }

  /** What mpi_inv_mod ends with is what the algorithm on integers ends with, unless a lost carry has
      gone into it. */
  lemma InverseTracks(a: nat, n: nat)
    requires 0 < a && 1 < n && Gcd(a, n) == 1
    ensures Inverse(a, n).c.Signed()
    ensures Inverse(a, n).Exact() ==> Inverse(a, n).c.V() == PlainInverse(a, n).c
  {
    hide Gcd, Run, PlainRun, Bezout;
    UnitBezout(a, n);
    OneOdd(a, n);
    RunTracks(First(a, 1, 0), First(n, 0, 1), Plain(a, 1, 0), Plain(n, 0, 1), a, n);
  }

  /** mpi_inv_mod is right exactly when it agrees modulo n with the algorithm on integers. */
  lemma RightIsAgreeing(a: int, n: nat)
    requires 1 < n && 0 < a % n && Gcd(a % n, n) == 1
    ensures Cong(Inverse(a % n, n).c.V() * a, 1, n) <==> Cong(Inverse(a % n, n).c.V(), PlainInverse(a % n, n).c, n)
    ensures Inverse(a % n, n).Exact() ==> Cong(Inverse(a % n, n).c.V() * a, 1, n)
  {
    hide Gcd, Cong, Inverse, PlainInverse;
    var x, y := Inverse(a % n, n).c.V(), PlainInverse(a % n, n).c;
    PlainInverseIsInverse(a, n);
    InverseTracks(a % n, n);
    CongRefl(x, n);
    if Cong(x, y, n) {
      InversesAgree(x, y, a, n);
    }
    if Cong(x * a, 1, n) {
      InverseIsUnique(x, y, a, n);
    }
  }

  lemma InversesAgree(x: int, y: int, a: int, n: int)
    requires 0 < n && Cong(x, y, n) && Cong(y * a, 1, n)
    ensures Cong(x * a, 1, n)
  {
    hide Cong;
    CongRefl(a, n);
    CongMul(x, y, a, a, n);
    CongTrans(x * a, y * a, 1, n);
  }

  lemma InverseIsUnique(x: int, y: int, a: int, n: int)
    requires 0 < n && Cong(x * a, 1, n) && Cong(y * a, 1, n)
    ensures Cong(x, y, n)
  {
    hide Cong;
    var j := CongElim(x * a, 1, n);
    var k := CongElim(y * a, 1, n);
    assert x - y == (y * j - x * k) * n by {
      assert x * (y * a) == y * (x * a);
      assert x * (y * a) == x + x * (k * n) && y * (x * a) == y + y * (j * n);
      MulAssoc(x, k, n);
      MulAssoc(y, j, n);
    }
    CongIntro(x, y, n, y * j - x * k);
  }

  // ---- how far the coefficients grow, whether or not carries are lost ----

  lemma AddedBelow(x: Held, s: int, m: nat)
    ensures Added(x, s, m).m <= x.m + m
  {
    hide LimbLen, Pow;
    BaseFacts();
    if SumLoses(x, m) {
      LossBound(x.m, Pow(BASE, LimbLen(m)), BASE);
    }
  }

  ghost predicate Below(x: Side, b: int, e: int) { x.c.m <= b && x.d.m <= e }

  /** The coefficients of an even number have a halving to come. */
  ghost predicate Tame(x: Side, b: int, e: int) {
    if x.t % 2 == 1 then Below(x, b, e) else Below(x, 2 * b, 2 * e)
  }

  lemma HalvedBelow(x: Side, a: nat, n: nat, b: nat, e: nat)
    requires Below(x, b, e)
    ensures Below(Halved(x, a, n), (b + n) / 2, (e + a) / 2)
  {
    hide Added, AddsExactly;
    AddedBelow(x.c, 1, n);
    AddedBelow(x.d, -1, a);
  }

  lemma {:induction false} StrippedBelow(x: Side, a: nat, n: nat, b: nat, e: nat)
    requires 0 < x.t && Below(x, b, e) && n <= b && a <= e
    ensures Below(Stripped(x, a, n), b, e)
    decreases x.t
  {
    hide Halved;
    if x.t % 2 == 0 {
      HalvedBelow(x, a, n, b, e);
      HalvedNumber(x, a, n);
      StrippedBelow(Halved(x, a, n), a, n, b, e);
    }
  }

  lemma StrippedTame(x: Side, a: nat, n: nat, b: nat, e: nat)
    requires 0 < x.t && Tame(x, b, e) && n <= b && a <= e
    ensures Below(Stripped(x, a, n), if x.t % 2 == 1 then b else b + n / 2, if x.t % 2 == 1 then e else e + a / 2)
    ensures if x.t % 2 == 1 then Stripped(x, a, n).t == x.t else 2 * Stripped(x, a, n).t <= x.t
  {
    hide Halved;
    if x.t % 2 == 0 {
      HalvedBelow(x, a, n, 2 * b, 2 * e);
      HalvedNumber(x, a, n);
      StrippedBelow(Halved(x, a, n), a, n, b + n / 2, e + a / 2);
    }
  }

  lemma ReducedTame(x: Side, y: Side, b: nat, e: nat)
    requires Below(x, b, e) && Below(y, b, e) && y.t <= x.t && x.t % 2 == 1 && y.t % 2 == 1
    ensures Tame(Reduced(x, y), b, e) && Tame(y, b, e) && Reduced(x, y).t == x.t - y.t
  {
    hide Added, AddsExactly;
    AddedBelow(x.c, -y.c.s, y.c.m);
    AddedBelow(x.d, -y.d.s, y.d.m);
  }

  lemma FewerBits(v: nat, w: nat)
    ensures w <= v ==> BitLen(w) <= BitLen(v)
    ensures 0 < w && 2 * w <= v ==> BitLen(w) + 1 <= BitLen(v)
  {
    hide BitLen, Pow;
    BitLenBounds(v);
    BitLenLess(w, BitLen(v));
    if 0 < w && 2 * w <= v {
      PowStep(2, BitLen(v) - 1);
      BitLenLess(w, BitLen(v) - 1);
    }
  }

  /** The potential of a state: each halving uses up one bit. */
  ghost function Bits(u: Side, v: Side): nat { BitLen(u.t) + BitLen(v.t) }

  /** A coefficient that has grown by at most half of n for each of the bits used up out of total. */
  ghost predicate Within(b: int, n: int, bits: int, total: int) { n <= b && 2 * b + n * bits <= n * (2 + total) }

  lemma WithinNext(b: int, b': int, n: nat, bits: int, bits': int, total: int)
    requires Within(b, n, bits, total) && bits' <= bits && (b' == b || (b' == b + n / 2 && bits' < bits))
    ensures Within(b', n, bits', total)
  {
    if b' == b {
      MulMono(bits', bits, n);
    } else {
      MulMono(bits', bits - 1, n);
    }
  }

  lemma WithinBound(b: int, n: nat, bits: nat, total: nat)
    requires Within(b, n, bits, total)
    ensures 2 * b + 2 * n <= n * (4 + total)
  {
    MulNonNegative(n, bits);
  }

  lemma WithinFirst(n: nat, total: nat)
    ensures Within(n, n, total, total)
  {
    assert n * (2 + total) == 2 * n + n * total;
  }

  /** Both coefficients of both sides are within their bounds. */
  ghost predicate Bounded(u: Side, v: Side, a: nat, n: nat, b: nat, e: nat, total: nat) {
    && Tame(u, b, e) && Tame(v, b, e)
    && Within(b, n, Bits(u, v), total) && Within(e, a, Bits(u, v), total)
  }

  /** The bounds behind the two strip loops. */
  lemma StripsBounded(u: Side, v: Side, a: nat, n: nat, b: nat, e: nat, total: nat) returns (b': nat, e': nat)
    requires 0 < u.t && 0 < v.t && Bounded(u, v, a, n, b, e, total)
    ensures var x, y := Stripped(u, a, n), Stripped(v, a, n);
      && Below(x, b', e') && Below(y, b', e')
      && Within(b', n, Bits(x, y), total) && Within(e', a, Bits(x, y), total)
  {
    hide Stripped, Tame, BitLen;
    var x, y := Stripped(u, a, n), Stripped(v, a, n);
    var half := u.t % 2 == 0 || v.t % 2 == 0;
    b' := if half then b + n / 2 else b;
    e' := if half then e + a / 2 else e;
    StrippedTame(u, a, n, b, e);
    StrippedTame(v, a, n, b, e);
    FewerBits(u.t, x.t);
    FewerBits(v.t, y.t);
    WithinNext(b, b', n, Bits(u, v), Bits(x, y), total);
    WithinNext(e, e', a, Bits(u, v), Bits(x, y), total);
  }

  /** The bounds behind a subtraction. */
  lemma ReducedBounded(x: Side, y: Side, bits: nat, a: nat, n: nat, b: nat, e: nat, total: nat)
    requires Below(x, b, e) && Below(y, b, e) && y.t < x.t && x.t % 2 == 1 && y.t % 2 == 1
    requires bits == Bits(x, y) && Within(b, n, bits, total) && Within(e, a, bits, total)
    ensures Reduced(x, y).t == x.t - y.t
    ensures Bounded(Reduced(x, y), y, a, n, b, e, total) && Bounded(y, Reduced(x, y), a, n, b, e, total)
  {
    hide Reduced, Below, Tame, Within, BitLen;
    ReducedTame(x, y, b, e);
    var w := Reduced(x, y);
    FewerBits(x.t, w.t);
    WithinNext(b, b, n, bits, Bits(w, y), total);
    WithinNext(e, e, a, bits, Bits(w, y), total);
  }

  ghost function TotalBits(a: nat, n: nat): nat { BitLen(a) + BitLen(n) }

  lemma FirstBounded(a: nat, n: nat)
    requires 0 < a && 0 < n
    ensures Bounded(First(a, 1, 0), First(n, 0, 1), a, n, n, a, TotalBits(a, n))
  {
    hide Within, BitLen;
    WithinFirst(n, TotalBits(a, n));
    WithinFirst(a, TotalBits(a, n));
  }

  // ---- the strip loops lose no carry ----

  /** Numbers of one limb more than n. */
  ghost function Cap(n: nat): int { Pow(BASE, LimbLen(n) + 1) }

  lemma RoomAbove(b: int, n: nat, bits: nat, total: nat)
    requires Within(b, n, bits, total) && 4 + total <= BASE
    ensures 2 * b + 2 * n < Cap(n) || n == 0
  {
    hide LimbLen, Pow, Within;
    BaseFacts();
    WithinBound(b, n, bits, total);
    LimbLenLeq(n, LimbLen(n));
    PowStep(BASE, LimbLen(n));
    MulMono(4 + total, BASE, n);
    MulStrictMono(n, Pow(BASE, LimbLen(n)), BASE);
  }

  /** The buffers are at most one limb longer than the moduli the strip loops add. */
  ghost predicate Short(x: Side, a: nat, n: nat) {
    x.c.l <= LimbLen(n) + 1 && x.d.l <= LimbLen(a) + 1
  }

  lemma AddedShort(x: Held, s: int, m: nat, n: nat)
    requires x.l <= LimbLen(n) + 1 && x.m + m < Cap(n)
    ensures Added(x, s, m).l <= LimbLen(n) + 1
  {
    hide LimbLen, Pow, SumLoses, Sum;
    SumBelow(x, m);
    LimbLenLeq(m, LimbLen(n) + 1);
    LimbLenLeq(Sum(x, m), LimbLen(n) + 1);
  }

  lemma SumBelow(x: Held, m: nat)
    ensures Sum(x, m) <= x.m + m
  {
    hide LimbLen, Pow;
    BaseFacts();
    if SumLoses(x, m) {
      LossBound(x.m, Pow(BASE, LimbLen(m)), BASE);
    }
  }

  lemma NoLossInShort(x: Held, n: nat)
    requires x.l <= LimbLen(n) + 1
    ensures !SumLoses(x, n)
  {
    hide LimbLen, Pow;
  }

  lemma HalvedShort(x: Side, a: nat, n: nat, b: nat, e: nat)
    requires Short(x, a, n) && Below(x, b, e) && b + n < Cap(n) && e + a < Cap(a)
    ensures Short(Halved(x, a, n), a, n) && Halved(x, a, n).strips == x.strips
  {
    hide Added, SumLoses, LimbLen, Cap;
    NoLossInShort(x.c, n);
    NoLossInShort(x.d, a);
    AddedShort(x.c, 1, n, n);
    AddedShort(x.d, -1, a, a);
  }

  lemma {:induction false} StrippedShort(x: Side, a: nat, n: nat, b: nat, e: nat)
    requires 0 < x.t && Short(x, a, n) && Below(x, b, e) && n <= b && a <= e && b + n < Cap(n) && e + a < Cap(a)
    ensures Short(Stripped(x, a, n), a, n) && Stripped(x, a, n).strips == x.strips
    decreases x.t
  {
    hide Halved, Short, Cap;
    if x.t % 2 == 0 {
      HalvedShort(x, a, n, b, e);
      HalvedBelow(x, a, n, b, e);
      HalvedNumber(x, a, n);
      StrippedShort(Halved(x, a, n), a, n, b, e);
    }
  }

  lemma ReducedShort(x: Side, y: Side, a: nat, n: nat, b: nat, e: nat)
    requires y.t <= x.t && Short(x, a, n) && Below(x, b, e) && Below(y, b, e) && 2 * b < Cap(n) && 2 * e < Cap(a)
    ensures Short(Reduced(x, y), a, n) && Reduced(x, y).strips == (x.strips && y.strips)
  {
    hide Added, AddsExactly, LimbLen, Cap;
    AddedShort(x.c, -y.c.s, y.c.m, n);
    AddedShort(x.d, -y.d.s, y.d.m, a);
  }

  /** The strip loop of a side within its bounds. */
  lemma TameStripsShort(x: Side, a: nat, n: nat, b: nat, e: nat, bits: nat, total: nat)
    requires 0 < x.t && 0 < a && 0 < n && Short(x, a, n) && Tame(x, b, e) && 4 + total <= BASE
    requires Within(b, n, bits, total) && Within(e, a, bits, total)
    ensures Short(Stripped(x, a, n), a, n) && Stripped(x, a, n).strips == x.strips
  {
    hide Stripped, Short, Cap;
    RoomAbove(b, n, bits, total);
    RoomAbove(e, a, bits, total);
    StrippedShort(x, a, n, 2 * b, 2 * e);
  }

  /** For a modulus of up to about half of BASE bits no strip loop ever loses a carry. */
  lemma {:induction false} RunStrips(u: Side, v: Side, a: nat, n: nat, b: nat, e: nat, total: nat)
    requires 0 < u.t && 0 < v.t && 0 < a && 0 < n && 4 + total <= BASE && Bounded(u, v, a, n, b, e, total)
    requires Short(u, a, n) && Short(v, a, n) && u.strips && v.strips
    ensures Run(u, v, a, n).strips
    decreases u.t + v.t
  {
    hide Stripped, Reduced, Tame, Below, Within, Short, Bits, Cap;
    var x, y := Stripped(u, a, n), Stripped(v, a, n);
    TameStripsShort(u, a, n, b, e, Bits(u, v), total);
    TameStripsShort(v, a, n, b, e, Bits(u, v), total);
    var b', e' := StripsBounded(u, v, a, n, b, e, total);
    RoomAbove(b', n, Bits(x, y), total);
    RoomAbove(e', a, Bits(x, y), total);
    if x.t < y.t {
      BitsSymmetric(x, y);
      ReducedShort(y, x, a, n, b', e');
      ReducedBounded(y, x, Bits(x, y), a, n, b', e', total);
      RunStrips(x, Reduced(y, x), a, n, b', e', total);
    } else if y.t < x.t {
      ReducedShort(x, y, a, n, b', e');
      ReducedBounded(x, y, Bits(x, y), a, n, b', e', total);
      RunStrips(Reduced(x, y), y, a, n, b', e', total);
    }
  }

  lemma BitsSymmetric(x: Side, y: Side)
    ensures Bits(x, y) == Bits(y, x)
  {
  }

  /** Only the subtractions can lose a carry. */
  lemma StripsLoseNothing(a: nat, n: nat)
    requires 0 < a && 0 < n && 4 + TotalBits(a, n) <= BASE
    ensures Inverse(a, n).strips
  {
    hide Run, BitLen, Bounded, Pow;
    BaseFacts();
    FirstBounded(a, n);
    RunStrips(First(a, 1, 0), First(n, 0, 1), a, n, n, a, TotalBits(a, n));
  }

  // ---- a small modulus loses no carry at all ----

  /** A carry is lost only in a number that reaches this far. */
  ghost function Reach(): int { (BASE - 1) * BASE }

  lemma NoLoss(x: Held, m: nat)
    requires x.m < Reach()
    ensures !SumLoses(x, m)
  {
    hide Pow, LimbLen;
    BaseFacts();
    var k := LimbLen(m);
    LimbLenLeq(m, 0);
    PowStep(BASE, 0);
    if SumLoses(x, m) && 0 < k {
      LossBound(x.m, Pow(BASE, k), BASE);
      PowMono(BASE, 1, k);
      PowStep(BASE, k - 1);
      MulMono(BASE, Pow(BASE, k), BASE - 1);
    }
  }

  lemma HalvedExact(x: Side, a: nat, n: nat, b: nat, e: nat)
    requires Below(x, b, e) && b < Reach() && e < Reach() && x.Exact()
    ensures Halved(x, a, n).Exact()
  {
    hide Added, SumLoses, Reach;
    NoLoss(x.c, n);
    NoLoss(x.d, a);
  }

  lemma {:induction false} StrippedExact(x: Side, a: nat, n: nat, b: nat, e: nat)
    requires 0 < x.t && x.Exact() && Below(x, b, e) && n <= b < Reach() && a <= e < Reach()
    ensures Stripped(x, a, n).Exact()
    decreases x.t
  {
    hide Halved, Reach;
    if x.t % 2 == 0 {
      HalvedExact(x, a, n, b, e);
      HalvedBelow(x, a, n, b, e);
      HalvedNumber(x, a, n);
      StrippedExact(Halved(x, a, n), a, n, b, e);
    }
  }

  lemma ReducedExact(x: Side, y: Side, b: nat, e: nat)
    requires y.t <= x.t && x.Exact() && y.Exact() && Below(x, b, e) && b < Reach() && e < Reach()
    ensures Reduced(x, y).Exact()
  {
    hide Added, SumLoses, Reach;
    NoLoss(x.c, y.c.m);
    NoLoss(x.d, y.d.m);
  }

  /** The coefficients of n stay where no carry is lost. */
  ghost predicate Small(n: nat, total: nat) { n * (4 + total) < Reach() }

  lemma SmallBound(b: int, n: nat, k: nat, bits: nat, total: nat)
    requires Within(b, k, bits, total) && k <= n && Small(n, total)
    ensures 2 * b < Reach()
  {
    hide Within, Reach;
    WithinBound(b, k, bits, total);
    MulMono(k, n, 4 + total);
  }

  lemma {:induction false} RunExact(u: Side, v: Side, a: nat, n: nat, b: nat, e: nat, total: nat)
    requires 0 < u.t && 0 < v.t && a <= n && Small(n, total) && Bounded(u, v, a, n, b, e, total)
    requires u.Exact() && v.Exact()
    ensures Run(u, v, a, n).Exact()
    decreases u.t + v.t
  {
    hide Stripped, Reduced, Below, Within, Bits, Small, Reach;
    var x, y := Stripped(u, a, n), Stripped(v, a, n);
    TameStripsExact(u, a, n, b, e, Bits(u, v), total);
    TameStripsExact(v, a, n, b, e, Bits(u, v), total);
    var b', e' := StripsBounded(u, v, a, n, b, e, total);
    SmallBound(b', n, n, Bits(x, y), total);
    SmallBound(e', n, a, Bits(x, y), total);
    if x.t < y.t {
      BitsSymmetric(x, y);
      ReducedExact(y, x, b', e');
      ReducedBounded(y, x, Bits(x, y), a, n, b', e', total);
      RunExact(x, Reduced(y, x), a, n, b', e', total);
    } else if y.t < x.t {
      ReducedExact(x, y, b', e');
      ReducedBounded(x, y, Bits(x, y), a, n, b', e', total);
      RunExact(Reduced(x, y), y, a, n, b', e', total);
    }
  }

  lemma TameStripsExact(x: Side, a: nat, n: nat, b: nat, e: nat, bits: nat, total: nat)
    requires 0 < x.t && x.Exact() && Tame(x, b, e) && a <= n && Small(n, total)
    requires Within(b, n, bits, total) && Within(e, a, bits, total)
    ensures Stripped(x, a, n).Exact()
  {
    hide Stripped, Small, Reach;
    SmallBound(b, n, n, bits, total);
    SmallBound(e, n, a, bits, total);
    StrippedExact(x, a, n, 2 * b, 2 * e);
  }

  /** A modulus whose product with four more than the bits of both inputs is below (BASE - 1) * BASE. */
  ghost predicate SmallModulus(a: nat, n: nat) { n * (4 + TotalBits(a, n)) < (BASE - 1) * BASE }

  lemma SmallExact(a: nat, n: nat)
    requires 0 < a <= n && SmallModulus(a, n)
    ensures Inverse(a, n).Exact()
  {
    hide Run, BitLen, Bounded;
    FirstBounded(a, n);
    RunExact(First(a, 1, 0), First(n, 0, 1), a, n, n, a, TotalBits(a, n));
  }

  /** Every modulus of one limb is small. */
  lemma OneLimbSmall(a: nat, n: nat)
    requires a <= n < BASE
    ensures SmallModulus(a, n)
  {
    hide BitLen, Pow;
    BaseFacts();
    BitLenLess(a, LIMB_BITS);
    BitLenLess(n, LIMB_BITS);
    WidthsFit();
    OneLimbProduct(n, 4 + TotalBits(a, n), BASE);
  }

  lemma OneLimbExact(a: nat, n: nat)
    requires 0 < a <= n < BASE
    ensures Inverse(a, n).Exact()
  {
    hide Inverse, SmallModulus;
    OneLimbSmall(a, n);
    SmallExact(a, n);
  }

  lemma WidthsFit()
    ensures 4 + 2 * LIMB_BITS < BASE
  {
    BaseFacts();
  }

  lemma OneLimbProduct(n: int, k: int, b: int)
    requires 0 <= n < b && 0 <= k < b && 1 < b
    ensures n * k < (b - 1) * b
  {
    MulMono(n, b - 1, k);
    MulStrictMono(k, b, b - 1);
  }
}
