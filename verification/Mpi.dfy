/** The mpi record and its elementary operations: sizing, copying, shifting, comparing.

    A limb buffer belongs to exactly one mpi, is only ever reached through it and grows with
    realloc, so it is a sequence-valued field that stores replace one limb of; X->n is |X.p|. */
module Mpis {
  import opened Arithmetic
  import opened Digits
  import opened Limbs

  class Mpi {
    var s: int
    var p: seq<limb>

    /** mpi_init */
    constructor ()
      ensures s == 0 && p == []
    {
      s := 0;
      p := [];
    }

    /** Holds a number: some operation has given it a sign and at least one limb. */
    ghost predicate Ok()
      reads this
    {
      0 < |p| && (s == 1 || s == -1)
    }

    ghost function Mag(): (m: int)
      reads this
      ensures 0 <= m
    {
      ValBounds(p, BASE);
      Val(p, BASE)
    }

    ghost function V(): int
      reads this
    {
      if s < 0 then -Mag() else Mag()
    }

    lemma SigFacts()
      ensures Val(p[..Sig(p)], BASE) == Mag() < Pow(BASE, Sig(p))
      ensures Sig(p) > 0 ==> Pow(BASE, Sig(p) - 1) <= Mag()
      ensures Sig(p) == 0 <==> Mag() == 0
    {
      BaseFacts();
      SigBounds(p, BASE);
    }
  }

  function Max(x: int, y: int): int { if x < y then y else x }

  function Abs(x: int): nat { if x < 0 then -x else x }

  /** -1, 0 or 1 as x is below, equal to or above y. */
  function Order(x: int, y: int): int { if x < y then -1 else if x == y then 0 else 1 }

  /** The number of limbs mpi_copy transfers. */
  function CopyLen(p: seq<limb>): (n: nat)
    ensures n <= |p|
  {
    if |p| == 0 then 0 else Max(Sig(p), 1)
  }

  lemma MagExtend(p: seq<limb>, n: nat)
    ensures Val(p + Zeros(n), BASE) == Val(p, BASE)
    ensures Sig(p + Zeros(n)) == Sig(p)
  {
    assert (p + Zeros(n))[..|p|] == p;
    ValZeroTop(p + Zeros(n), |p|, BASE);
    SigUnique(p + Zeros(n), Sig(p));
  }

  method Grow(X: Mpi, nblimbs: int)
    modifies X
    ensures |X.p| == Max(old(|X.p|), nblimbs)
    ensures X.p == old(X.p) + Zeros(|X.p| - old(|X.p|))
    ensures X.s == if old(|X.p|) < nblimbs && old(X.s) == 0 then 1 else old(X.s)
    ensures X.Mag() == old(X.Mag()) && Sig(X.p) == old(Sig(X.p))
  {
    var n := |X.p|;
    if n < nblimbs {
      if X.s == 0 {
        X.s := 1;
      }
      MagExtend(X.p, nblimbs - n);
      X.p := X.p + Zeros(nblimbs - n);
    } else {
      assert Zeros(0) == [];
    }
  }

  lemma CopyLenIs(p: seq<limb>, i: nat)
    requires i <= |p| && (forall k :: i <= k < |p| ==> p[k] == 0)
    requires if |p| == 0 then i == 0 else 0 < i && (1 < i ==> p[i - 1] != 0)
    ensures i == CopyLen(p) && Sig(p) <= i
    ensures Val(p[..i], BASE) == Val(p, BASE) && Sig(p[..i]) == Sig(p)
  {
    ValZeroTop(p, i, BASE);
    if i == 1 && p[0] == 0 {
      SigUnique(p, 0);
      SigUnique(p[..i], 0);
    } else {
      SigUnique(p, i);
      SigUnique(p[..i], i);
    }
  }

  method Copy(X: Mpi, Y: Mpi)
    modifies X
    ensures old(Y.s) != 0 ==> X.s == old(Y.s)
    ensures X.Mag() == old(Y.Mag()) && Sig(X.p) == old(Sig(Y.p))
    ensures X != Y ==> |X.p| == Max(old(|X.p|), CopyLen(Y.p))
    ensures X != Y ==> X.p == Y.p[..CopyLen(Y.p)] + Zeros(|X.p| - CopyLen(Y.p))
    ensures X == Y ==> X.p == old(X.p)
    ensures 0 < old(|Y.p|) ==> 0 < |X.p|
  {
    hide Val, Sig, CopyLen;
    if X == Y {
      return;
    }
    var i := LimbsToCopy(Y);
    X.s := Y.s;
    Grow(X, i);
    X.p := Zeros(|X.p|);
    X.p := Y.p[..i] + X.p[i..];
    assert X.p == Y.p[..i] + Zeros(|X.p| - i);
    MagExtend(Y.p[..i], |X.p| - i);
  }

  /** The scan of mpi_copy for the limbs to transfer. */
  method LimbsToCopy(Y: Mpi) returns (i: nat)
    ensures i == CopyLen(Y.p) && Sig(Y.p) <= i
    ensures Val(Y.p[..i], BASE) == Y.Mag() && Sig(Y.p[..i]) == Sig(Y.p)
    ensures 0 < |Y.p| ==> 0 < i
  {
    hide Val, Sig, CopyLen;
    var j := |Y.p| - 1;
    while 0 < j
      invariant -1 <= j < |Y.p|
      invariant forall k :: j < k < |Y.p| ==> Y.p[k] == 0
      invariant |Y.p| == 0 || 0 <= j
    {
      if Y.p[j] != 0 {
        break;
      }
      j := j - 1;
    }
    i := j + 1;
    CopyLenIs(Y.p, i);
  }

  method LSet(X: Mpi, z: int)
    requires Abs(z) < BASE
    modifies X
    ensures |X.p| == Max(old(|X.p|), 1) && X.Ok()
    ensures X.p == [Abs(z)] + Zeros(|X.p| - 1)
    ensures X.s == if z < 0 then -1 else 1
    ensures X.Mag() == Abs(z) && X.V() == z
  {
    hide Val, Pow, Sig;
    Grow(X, 1);
    X.p := Zeros(|X.p|);
    X.p := X.p[0 := if z < 0 then -z else z];
    X.s := if z < 0 then -1 else 1;
    assert X.p == [Abs(z)] + Zeros(|X.p| - 1);
    MagExtend([Abs(z)], |X.p| - 1);
    ValOne(Abs(z), BASE);
  }

  // ---- counting bits ----

  lemma LeadingZero(v: int, low: int, d: int, w: int)
    requires v == low + d * w
    ensures d == 0 ==> v == low
  {
  }

  lemma SizeFromTop(p: seq<limb>, i: nat)
    requires i < |p| && (forall k :: i < k < |p| ==> p[k] == 0) && (p[i] == 0 ==> i == 0)
    ensures 0 <= Val(p, BASE) && BitLen(Val(p, BASE)) == if p[i] == 0 then 0 else LIMB_BITS * i + BitLen(p[i])
  {
    hide Val, Pow, BitLen;
    BitLenBounds(0);
    ValBounds(p, BASE);
    ValTop(p, i, BASE);
    LeadingZero(Val(p, BASE), Val(p[..i], BASE), p[i], Pow(BASE, i));
    if i == 0 {
      PowStep(BASE, 0);
    }
    PowPow(2, LIMB_BITS, i);
    if p[i] > 0 {
      BitLenTop(Val(p[..i], BASE), p[i], LIMB_BITS * i);
    }
  }

  /** mpi_size */
  method Size(X: Mpi) returns (r: int)
    requires 0 < |X.p|
    ensures r == BitLen(X.Mag())
  {
    hide Val, Bit;
    var i := |X.p| - 1;
    while 0 < i
      invariant 0 <= i < |X.p|
      invariant forall k :: i < k < |X.p| ==> X.p[k] == 0
    {
      if X.p[i] != 0 {
        break;
      }
      i := i - 1;
    }
    var j := LIMB_BITS - 1;
    while 0 <= j
      invariant -1 <= j < LIMB_BITS
      invariant X.p[i] < Pow(2, j + 1)
    {
      TopBit(X.p[i], j);
      if Bit(X.p[i], j) != 0 {
        break;
      }
      j := j - 1;
    }
    assert j == -1 ==> X.p[i] < Pow(2, 0) == 1;
    BitLenUnique(X.p[i], j + 1);
    SizeFromTop(X.p, i);
    r := i * LIMB_BITS + j + 1;
  }

  /** The exponent of the largest power of two that divides v, and 0 for v = 0. */
  ghost predicate IsLsb(v: nat, c: nat) {
    if v == 0 then c == 0 else v % Pow(2, c) == 0 && (v / Pow(2, c)) % 2 == 1
  }

  /** mpi_lsb */
  method Lsb(X: Mpi) returns (count: nat)
    ensures IsLsb(X.Mag(), count)
  {
    hide Val, Pow, Bit;
    count := 0;
    PowStep(2, 0);
    var i := 0;
    while i < |X.p|
      invariant 0 <= i <= |X.p| && count == LIMB_BITS * i
      invariant X.Mag() % Pow(2, count) == 0
    {
      var j := 0;
      while j < LIMB_BITS
        invariant 0 <= j <= LIMB_BITS && count == LIMB_BITS * i + j
        invariant X.Mag() % Pow(2, count) == 0
      {
        LimbBit(X.p, i, j);
        LowBit(X.Mag(), count);
        if Bit(X.p[i], j) != 0 {
          return;
        }
        j := j + 1;
        count := count + 1;
      }
      i := i + 1;
    }
    ValBounds(X.p, BASE);
    PowPow(2, LIMB_BITS, |X.p|);
    DivModUnique(X.Mag(), Pow(2, count), 0, X.Mag());
    count := 0;
  }

  // ---- comparing ----

  /** mpi_cmp_abs */
  method CmpAbs(X: Mpi, Y: Mpi) returns (r: int)
    ensures r == Order(X.Mag(), Y.Mag())
  {
    hide Val, Pow, Sig;
    var i := TopLimb(X);
    var j := TopLimb(Y);
    X.SigFacts();
    Y.SigFacts();
    if i < 0 && j < 0 {
      return 0;
    }
    if i > j {
      BaseFacts();
      MoreDigitsWin(Y.p, X.p, BASE);
      return 1;
    }
    if j > i {
      BaseFacts();
      MoreDigitsWin(X.p, Y.p, BASE);
      return -1;
    }
    r := CmpLimbs(X.p, Y.p, i);
  }

  /** The index of the highest nonzero limb, or -1: the scan every operation starts with. */
  method TopLimb(X: Mpi) returns (i: int)
    ensures i == Sig(X.p) - 1
  {
    i := |X.p| - 1;
    while 0 <= i
      invariant -1 <= i < |X.p|
      invariant forall k :: i < k < |X.p| ==> X.p[k] == 0
    {
      if X.p[i] != 0 {
        break;
      }
      i := i - 1;
    }
    SigUnique(X.p, i + 1);
  }

  /** The highest limb that differs decides. */
  lemma HighestDifference(x: seq<limb>, y: seq<limb>, i: nat)
    requires |x| == |y| && i < |x| && x[i] != y[i] && x[i + 1..] == y[i + 1..]
    ensures Order(Val(x, BASE), Val(y, BASE)) == if x[i] > y[i] then 1 else -1
  {
    hide Val, Pow;
    if x[i] > y[i] {
      HigherDigitWins(y, x, i, BASE);
    } else {
      HigherDigitWins(x, y, i, BASE);
    }
  }

  /** The loop the two comparisons share, from limb top down. */
  method CmpLimbs(x: seq<limb>, y: seq<limb>, top: int) returns (r: int)
    requires -1 <= top < |x| && top < |y|
    ensures r == Order(Val(x[..top + 1], BASE), Val(y[..top + 1], BASE))
  {
    hide Val, Pow;
    var i := top;
    while 0 <= i
      invariant -1 <= i <= top
      invariant x[i + 1..top + 1] == y[i + 1..top + 1]
    {
      if x[i] != y[i] {
        assert x[..top + 1][i + 1..] == y[..top + 1][i + 1..];
        HighestDifference(x[..top + 1], y[..top + 1], i);
        return if x[i] > y[i] then 1 else -1;
      }
      i := i - 1;
    }
    return 0;
  }

  /** When mpi_cmp_mpi decides by the sign of X alone it has to be right about Y's sign too. */
  ghost predicate Comparable(X: Mpi, Y: Mpi)
    reads X, Y
  {
    Sig(Y.p) <= Sig(X.p) || X.s == Y.s
  }

  /** One against minus BASE: the scan returns -1, as if one were the smaller. */
  lemma IncomparableExample(X: Mpi, Y: Mpi)
    requires X.s == 1 && X.p == [1] && Y.s == -1 && Y.p == [0, 1]
    ensures !Comparable(X, Y) && Y.V() < X.V() && -X.s == -1
  {
    hide Val, Pow;
    BaseFacts();
    SigUnique(X.p, 1);
    SigUnique(Y.p, 2);
    ValOne(1, BASE);
    ValHead(Y.p, BASE);
    assert Y.p[1..] == [1];
  }

  /** mpi_cmp_mpi: the integer order exactly on comparable operands. */
  method CmpMpi(X: Mpi, Y: Mpi) returns (r: int)
    requires X.Ok() && Y.Ok()
    ensures r == if Comparable(X, Y) then Order(X.V(), Y.V()) else -X.s
    ensures r == Order(X.V(), Y.V()) <==> Comparable(X, Y)
  {
    hide Val, Pow, Sig;
    var i := TopLimb(X);
    var j := TopLimb(Y);
    X.SigFacts();
    Y.SigFacts();
    if i < 0 && j < 0 {
      return 0;
    }
    if i > j {
      BaseFacts();
      MoreDigitsWin(Y.p, X.p, BASE);
      return X.s;
    }
    if j > i {
      BaseFacts();
      MoreDigitsWin(X.p, Y.p, BASE);
      return -X.s;
    }
    if X.s > 0 && Y.s < 0 {
      return 1;
    }
    if Y.s > 0 && X.s < 0 {
      return -1;
    }
    r := CmpLimbs(X.p, Y.p, i);
    r := if r > 0 then X.s else if r < 0 then -X.s else 0;
  }

  /** mpi_cmp_int: wrong only for a zero whose sign is not that of a nonzero z. */
  method CmpInt(X: Mpi, z: int) returns (r: int)
    requires X.Ok() && Abs(z) < BASE
    ensures z == 0 || X.Mag() != 0 || (X.s < 0) == (z < 0) <==> r == Order(X.V(), z)
    ensures r == if z == 0 || X.Mag() != 0 || (X.s < 0) == (z < 0) then Order(X.V(), z) else -X.s
  {
    var Y := new Mpi();
    Y.s := if z < 0 then -1 else 1;
    Y.p := [if z < 0 then -z else z];
    ValOne(Abs(z), BASE);
    X.SigFacts();
    Y.SigFacts();
    r := CmpMpi(X, Y);
  }
}
