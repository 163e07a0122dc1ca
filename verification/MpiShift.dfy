/** mpi_shift_l and mpi_shift_r: multiplication by 2^count and floor division by it, limb by limb. */
module MpiShift {
  import opened Arithmetic
  import opened Digits
  import opened Limbs
  import opened Mpis

  /** BITS_TO_LIMBS */
  function LimbsFor(bits: nat): nat {
    (bits + LIMB_BITS - 1) / LIMB_BITS
  }

  function BitsIn(limbs: nat): nat {
    limbs * LIMB_BITS
  }

  /** A shift count in whole limbs and the bits left over. */
  function WholeLimbs(count: nat): nat { count / LIMB_BITS }

  function BitsOver(count: nat): (r: nat)
    ensures r < LIMB_BITS
  {
    count % LIMB_BITS
  }

  lemma LimbsForLeq(bits: nat, n: nat)
    ensures LimbsFor(bits) <= n <==> bits <= BitsIn(n)
  {
    CeilDiv(bits, LIMB_BITS, n);
  }

  // ---- one limb ----

  lemma SplitBase(t: nat)
    requires t <= LIMB_BITS
    ensures Pow(2, t) * Pow(2, LIMB_BITS - t) == BASE
  {
    PowAdd(2, t, LIMB_BITS - t);
  }

  /** x << t spills x >> (LIMB_BITS - t) and leaves room for t bits below. */
  lemma ShlSplit(x: int, c: int, d: int, b: int)
    requires 0 < c && 0 < d && c * d == b && 0 <= x < b
    ensures 0 < b && x * c == (x / d) * b + (x * c) % b
    ensures 0 <= x / d < c && 0 <= (x * c) % b <= b - c
  {
    var hi, r := x / d, x % d;
    ScaleQuotient(x, hi, d, r, c, b);
    RemainderRoom(r, c, d, b);
    MulStrictMono(0, c, d);
    DivModUnique(x * c, b, hi, r * c);
    QuotientRange(x, d, c, b);
  }

  lemma ScaleQuotient(x: int, hi: int, d: int, r: int, c: int, b: int)
    requires x == hi * d + r && c * d == b
    ensures x * c == hi * b + r * c
  {
    MulAssoc(hi, d, c);
  }

  lemma RemainderRoom(r: int, c: int, d: int, b: int)
    requires 0 < c && 0 <= r < d && c * d == b
    ensures 0 <= r * c <= b - c
  {
    MulMono(r, d - 1, c);
    MulNonNegative(r, c);
  }

  lemma QuotientRange(x: int, d: int, c: int, b: int)
    requires 0 < c && 0 < d && c * d == b && 0 <= x < b
    ensures 0 <= x / d < c
  {
    if c <= x / d {
      MulMono(c, x / d, d);
    }
  }

  /** x >> v spills the low bits, moved to the top of the next limb down. */
  lemma ShrSplit(x: int, c: int, d: int, b: int)
    requires 0 < c && 0 < d && c * d == b && 0 <= x < b
    ensures 0 < b && (x * d) % b == (x % c) * d && 0 <= x / c < d
  {
    var hi, r := x / c, x % c;
    ScaleQuotient(x, hi, c, r, d, b);
    RemainderRoom(r, d, c, b);
    MulStrictMono(0, c, d);
    DivModUnique(x * d, b, hi, r * d);
    QuotientRange(x, c, d, b);
  }

  // ---- shifting left ----

  lemma ShlStep(low: int, lowOld: int, r0: int, r1: int, x: int, y: int, c: int, w: int, b: int)
    requires low + r0 * w == lowOld * c
    requires x * c + r0 == y + r1 * b
    ensures (low + y * w) + r1 * (b * w) == (lowOld + x * w) * c
  {
    calc {
      (low + y * w) + r1 * (b * w);
      { MulAssoc(r1, b, w); }
      low + (y + r1 * b) * w;
      low + (x * c + r0) * w;
      (low + r0 * w) + (x * c) * w;
      { MulAssoc(x, c, w); MulAssoc(x, w, c); }
      lowOld * c + (x * w) * c;
      (lowOld + x * w) * c;
    }
  }

  /** The low i limbs of q are shifted, the bits they spilled are in r0, the rest is untouched. */
  ghost predicate ShlDone(p: seq<limb>, q: seq<limb>, i: nat, r0: int, t1: nat) {
    && i <= |p| == |q|
    && (forall k :: i <= k < |q| ==> p[k] == q[k])
    && 0 <= r0 < Pow(2, t1)
    && Val(p[..i], BASE) + r0 * Pow(BASE, i) == Val(q[..i], BASE) * Pow(2, t1)
  }

  lemma ShlFirst(q: seq<limb>, i: nat, t1: nat)
    requires i <= |q| && forall k :: 0 <= k < i ==> q[k] == 0
    ensures ShlDone(q, q, i, 0, t1)
  {
    ValZeros(q[..i], BASE);
  }

  /** The limb stored and the bits spilled; the shifted limb has t1 zero bits at the bottom, so
      the | of the source is a sum. */
  function ShlLimb(x: limb, r0: int, t1: nat): int { (x * Pow(2, t1)) % BASE + r0 }

  function ShlSpill(x: limb, t1: nat): int
    requires t1 <= LIMB_BITS
  {
    x / Pow(2, LIMB_BITS - t1)
  }

  lemma ShlNext(p: seq<limb>, q: seq<limb>, i: nat, r0: int, t1: nat)
    requires 0 < t1 < LIMB_BITS && i < |p| && ShlDone(p, q, i, r0, t1)
    ensures 0 <= ShlLimb(p[i], r0, t1) < BASE && 0 <= ShlSpill(p[i], t1) < BASE
    ensures ShlDone(p[i := ShlLimb(p[i], r0, t1)], q, i + 1, ShlSpill(p[i], t1), t1)
  {
    hide Val, Pow;
    SplitBase(t1);
    ShlSplit(p[i], Pow(2, t1), Pow(2, LIMB_BITS - t1), BASE);
    var y, r1 := ShlLimb(p[i], r0, t1), ShlSpill(p[i], t1);
    var p' := p[i := y];
    assert p'[..i] == p[..i];
    ValSnoc(p', i, BASE);
    ValSnoc(q, i, BASE);
    PowStep(BASE, i);
    ShlStep(Val(p[..i], BASE), Val(q[..i], BASE), r0, r1, p[i], y, Pow(2, t1), Pow(BASE, i), BASE);
    assert Pow(2, t1) <= BASE by { PowMono(2, t1, LIMB_BITS); }
  }

  lemma NoSpill(v: int, r: int, w: int)
    requires 0 <= v && 0 <= r && 0 < w && v + r * w < w
    ensures r == 0
  {
    if r > 0 {
      MulMono(1, r, w);
    }
  }

  lemma ShlLast(p: seq<limb>, q: seq<limb>, r0: int, t1: nat)
    requires ShlDone(p, q, |p|, r0, t1) && Val(q, BASE) * Pow(2, t1) < Pow(BASE, |p|)
    ensures Val(p, BASE) == Val(q, BASE) * Pow(2, t1)
  {
    hide Val, Pow;
    assert p[..|p|] == p && q[..|p|] == q;
    ValBounds(p, BASE);
    var w := Pow(BASE, |p|);
    assert Val(p, BASE) + r0 * w == Val(q, BASE) * Pow(2, t1);
    NoSpill(Val(p, BASE), r0, w);
  }

  method ShlLimbs(X: Mpi, v0: nat)
    requires v0 <= |X.p|
    modifies X`p
    ensures |X.p| == old(|X.p|) && X.p == Zeros(v0) + old(X.p)[..|X.p| - v0]
  {
    ghost var q := X.p;
    var i := |X.p| - 1;
    while v0 <= i
      invariant v0 - 1 <= i < |X.p| == |q|
      invariant forall k {:trigger X.p[k]} :: i < k < |q| ==> X.p[k] == q[k - v0]
      invariant forall k {:trigger X.p[k]} :: 0 <= k <= i ==> X.p[k] == q[k]
    {
      X.p := X.p[i := X.p[i - v0]];
      i := i - 1;
    }
    ClearLow(X, i);
    assert X.p == Zeros(v0) + q[..|q| - v0];
  }

  /** The second loop: the limbs from i down. */
  method ClearLow(X: Mpi, top: int)
    requires -1 <= top < |X.p|
    modifies X`p
    ensures |X.p| == old(|X.p|) && X.p == Zeros(top + 1) + old(X.p)[top + 1..]
  {
    ghost var q := X.p;
    var i := top;
    while 0 <= i
      invariant -1 <= i <= top && |X.p| == |q|
      invariant forall k {:trigger X.p[k]} :: i < k <= top ==> X.p[k] == 0
      invariant forall k {:trigger X.p[k]} :: top < k < |q| ==> X.p[k] == q[k]
    {
      X.p := X.p[i := 0];
      i := i - 1;
    }
  }

  method ShlBits(X: Mpi, v0: nat, t1: nat)
    requires 0 < t1 < LIMB_BITS && v0 <= |X.p|
    requires forall k :: 0 <= k < v0 ==> X.p[k] == 0
    requires X.Mag() * Pow(2, t1) < Pow(BASE, |X.p|)
    modifies X`p
    ensures |X.p| == old(|X.p|) && X.Mag() == old(X.Mag()) * Pow(2, t1)
  {
    hide Val, Pow, ShlDone, ShlLimb, ShlSpill;
    ghost var q := X.p;
    ShlFirst(q, v0, t1);
    var r0 := 0;
    var i := v0;
    while i < |X.p|
      invariant v0 <= i <= |X.p| == |q|
      invariant ShlDone(X.p, q, i, r0, t1)
    {
      ShlNext(X.p, q, i, r0, t1);
      var r1 := ShlSpill(X.p[i], t1);
      X.p := X.p[i := ShlLimb(X.p[i], r0, t1)];
      r0 := r1;
      i := i + 1;
    }
    ShlLast(X.p, q, r0, t1);
  }

  /** mpi_shift_l */
  method ShiftL(X: Mpi, count: nat)
    requires X.Ok()
    modifies X
    ensures X.Ok() && X.s == old(X.s)
    ensures X.Mag() == old(X.Mag()) * Pow(2, count)
    ensures |X.p| == Max(old(|X.p|), LimbsFor(BitLen(old(X.Mag())) + count))
  {
    hide Val, Pow, LimbsFor, BitsIn, WholeLimbs, BitsOver;
    var v0, t1 := WholeLimbs(count), BitsOver(count);
    ghost var m := X.Mag();
    ShiftParts(m, count);
    var i := Size(X);
    i := i + count;
    LimbsForLeq(i, |X.p|);
    if BitsIn(|X.p|) < i {
      Grow(X, LimbsFor(i));
    }
    LimbsForLeq(i, |X.p|);
    ShiftFits(X.p, m, count);
    ghost var q := X.p;
    ShlLimbsValue(q, v0);
    if v0 > 0 {
      ShlLimbs(X, v0);
    } else {
      assert X.p == Zeros(0) + q[..|q|];
    }
    assert X.Mag() == Pow(BASE, v0) * m;
    if t1 > 0 {
      ShlBits(X, v0, t1);
    }
  }

  lemma ShiftParts(m: int, count: nat)
    ensures m * Pow(2, count) == (Pow(BASE, WholeLimbs(count)) * m) * Pow(2, BitsOver(count))
    ensures Pow(2, count) == Pow(BASE, WholeLimbs(count)) * Pow(2, BitsOver(count))
    ensures BitsOver(count) == 0 ==> m * Pow(2, count) == Pow(BASE, WholeLimbs(count)) * m
  {
    var v0, t1 := WholeLimbs(count), BitsOver(count);
    assert count == LIMB_BITS * v0 + t1;
    PowPow(2, LIMB_BITS, v0);
    PowAdd(2, LIMB_BITS * v0, t1);
    PowStep(2, 0);
    hide Pow;
    MulAssoc(m, Pow(BASE, v0), Pow(2, t1));
  }

  lemma FitsBits(m: nat, count: nat, size: nat)
    requires BitLen(m) + count <= size
    ensures m * Pow(2, count) < Pow(2, size)
  {
    hide Pow;
    BitLenBounds(m);
    MulStrictMono(m, Pow(2, BitLen(m)), Pow(2, count));
    PowAdd(2, BitLen(m), count);
    PowMono(2, BitLen(m) + count, size);
  }

  lemma FitsLimbs(n: nat, v0: nat, l: nat, count: nat, size: nat)
    requires 0 < l && size == n * l && l * v0 <= count <= size
    ensures v0 <= n && l * (n - v0) == size - l * v0 && l * n == size
  {
    MulCancelLeq(v0, n, l);
  }

  /** The buffer has room for the shifted value, so the limbs shifted out are zero. */
  lemma ShiftFits(p: seq<limb>, m: nat, count: nat)
    requires Val(p, BASE) == m && BitLen(m) + count <= BitsIn(|p|)
    ensures WholeLimbs(count) <= |p|
    ensures m * Pow(2, count) < Pow(BASE, |p|)
    ensures forall k :: |p| - WholeLimbs(count) <= k < |p| ==> p[k] == 0
  {
    hide Val, Pow, BitLen;
    var size, v0 := BitsIn(|p|), WholeLimbs(count);
    assert LIMB_BITS * v0 <= count;
    FitsLimbs(|p|, v0, LIMB_BITS, count, size);
    hide BitsIn, WholeLimbs;
    PowPow(2, LIMB_BITS, |p|);
    FitsBits(m, count, size);
    PowPow(2, LIMB_BITS, |p| - v0);
    BitLenLess(m, size - LIMB_BITS * v0);
    SmallValZeroTop(p, |p| - v0, BASE);
  }

  lemma ShlLimbsValue(q: seq<limb>, v0: nat)
    requires v0 <= |q| && forall k :: |q| - v0 <= k < |q| ==> q[k] == 0
    ensures Val(Zeros(v0) + q[..|q| - v0], BASE) == Pow(BASE, v0) * Val(q, BASE)
  {
    ValConcat(Zeros(v0), q[..|q| - v0], BASE);
    ValZeros(Zeros(v0), BASE);
    ValZeroTop(q, |q| - v0, BASE);
  }

  // ---- shifting right ----

  method ShrLimbs(X: Mpi, v0: nat)
    modifies X`p
    ensures |X.p| == old(|X.p|)
    ensures X.Mag() == old(X.Mag()) / Pow(BASE, v0)
  {
    ghost var q := X.p;
    var i := 0;
    while i < |X.p| - v0
      invariant 0 <= i <= |X.p| == |q| && (0 < i ==> i <= |q| - v0)
      invariant forall k :: 0 <= k < i ==> X.p[k] == q[k + v0]
      invariant X.p[i..] == q[i..]
    {
      assert X.p[i + v0] == X.p[i..][v0];
      X.p := X.p[i := X.p[i + v0]];
      i := i + 1;
    }
    while i < |X.p|
      invariant 0 <= i <= |X.p| == |q| && |q| - v0 <= i
      invariant forall k :: 0 <= k < |q| - v0 ==> X.p[k] == q[k + v0]
      invariant forall k :: 0 <= k < i && |q| - v0 <= k ==> X.p[k] == 0
    {
      X.p := X.p[i := 0];
      i := i + 1;
    }
    if v0 <= |q| {
      assert X.p == q[v0..] + Zeros(v0);
      MagExtend(q[v0..], v0);
      DropLimbs(q, v0);
    } else {
      ValZeros(X.p, BASE);
      BaseFacts();
      ValBounds(q, BASE);
      PowMono(BASE, |q|, v0);
      DivModUnique(Val(q, BASE), Pow(BASE, v0), 0, Val(q, BASE));
    }
  }

  lemma ShrStep(x: int, high: int, highOld: int, rem: int, c: int, d: int, b: int)
    requires 0 < c && c * d == b && highOld == high * c + rem
    ensures x + b * highOld == ((x / c + rem * d) + b * high) * c + x % c
  {
    calc {
      x + b * highOld;
      x + b * (high * c) + b * rem;
      { MulAssoc(b, high, c); MulAssoc(c, d, rem); }
      x + (b * high) * c + c * (d * rem);
      (x / c) * c + x % c + (b * high) * c + (rem * d) * c;
      ((x / c + rem * d) + b * high) * c + x % c;
    }
  }

  lemma ShrFits(h: int, rem: int, c: int, d: int, b: int)
    requires 0 <= h < d && 0 <= rem < c && c * d == b
    ensures 0 <= rem * d && h + rem * d < b
  {
    MulMono(rem, c - 1, d);
    MulNonNegative(rem, d);
  }

  /** The limbs of q above place i are shifted; r0 holds the rem they spilled, moved to the top. */
  ghost predicate ShrDone(p: seq<limb>, q: seq<limb>, i: nat, rem: int, r0: int, v1: nat)
    requires v1 <= LIMB_BITS
  {
    && i <= |p| == |q|
    && (forall k :: 0 <= k < i ==> p[k] == q[k])
    && 0 <= rem < Pow(2, v1) && r0 == rem * Pow(2, LIMB_BITS - v1)
    && Val(q[i..], BASE) == Val(p[i..], BASE) * Pow(2, v1) + rem
  }

  /** The limb stored and the bits spilled; the shifted limb has v1 zero bits at the top, so the |
      of the source is a sum. */
  function ShrLimb(x: limb, r0: int, v1: nat): int { x / Pow(2, v1) + r0 }

  function ShrSpill(x: limb, v1: nat): int
    requires v1 <= LIMB_BITS
  {
    (x * Pow(2, LIMB_BITS - v1)) % BASE
  }

  lemma ShrFirst(q: seq<limb>, v1: nat)
    requires v1 <= LIMB_BITS
    ensures ShrDone(q, q, |q|, 0, 0, v1)
  {
    ValZeros(q[|q|..], BASE);
  }

  lemma ShrNext(p: seq<limb>, q: seq<limb>, i: nat, rem: int, r0: int, v1: nat) returns (rem': int)
    requires 0 < v1 < LIMB_BITS && i < |p| && ShrDone(p, q, i + 1, rem, r0, v1)
    ensures 0 <= ShrLimb(p[i], r0, v1) < BASE
    ensures ShrDone(p[i := ShrLimb(p[i], r0, v1)], q, i, rem', ShrSpill(p[i], v1), v1)
  {
    hide Val, Pow;
    SplitBase(v1);
    ghost var c, d := Pow(2, v1), Pow(2, LIMB_BITS - v1);
    ShrSplit(p[i], c, d, BASE);
    ShrFits(p[i] / c, rem, c, d, BASE);
    rem' := p[i] % c;
    var p' := p[i := ShrLimb(p[i], r0, v1)];
    assert p'[i + 1..] == p[i + 1..];
    ShrStep(p[i], Val(p[i + 1..], BASE), Val(q[i + 1..], BASE), rem, c, d, BASE);
    ValCons(q, i, BASE);
    ValCons(p', i, BASE);
  }

  lemma ShrLast(p: seq<limb>, q: seq<limb>, rem: int, r0: int, v1: nat)
    requires v1 <= LIMB_BITS && ShrDone(p, q, 0, rem, r0, v1)
    ensures Val(p, BASE) == Val(q, BASE) / Pow(2, v1)
  {
    hide Val, Pow;
    assert p[0..] == p && q[0..] == q;
    DivModUnique(Val(q, BASE), Pow(2, v1), Val(p, BASE), rem);
  }

  method ShrBits(X: Mpi, v1: nat)
    requires 0 < v1 < LIMB_BITS
    modifies X`p
    ensures |X.p| == old(|X.p|) && X.Mag() == old(X.Mag()) / Pow(2, v1)
  {
    hide Val, Pow, ShrDone, ShrLimb, ShrSpill;
    ghost var q := X.p;
    ShrFirst(q, v1);
    var r0 := 0;
    ghost var rem := 0;
    var i := |X.p| - 1;
    while 0 <= i
      invariant -1 <= i < |X.p| == |q|
      invariant ShrDone(X.p, q, i + 1, rem, r0, v1)
    {
      rem := ShrNext(X.p, q, i, rem, r0, v1);
      var r1 := ShrSpill(X.p[i], v1);
      X.p := X.p[i := ShrLimb(X.p[i], r0, v1)];
      r0 := r1;
      i := i - 1;
    }
    ShrLast(X.p, q, rem, r0, v1);
  }

  /** mpi_shift_r */
  method ShiftR(X: Mpi, count: nat)
    modifies X`p
    ensures |X.p| == old(|X.p|)
    ensures X.Mag() == old(X.Mag()) / Pow(2, count)
  {
    hide Val, Pow, WholeLimbs, BitsOver;
    var v0, v1 := WholeLimbs(count), BitsOver(count);
    ghost var m := X.Mag();
    ShiftParts(m, count);
    DivDiv(m, Pow(BASE, v0), Pow(2, v1));
    PowStep(BASE, 0);
    PowStep(2, 0);
    if v0 > 0 {
      ShrLimbs(X, v0);
    }
    assert X.Mag() == m / Pow(BASE, v0);
    if v1 > 0 {
      ShrBits(X, v1);
    }
  }
}
