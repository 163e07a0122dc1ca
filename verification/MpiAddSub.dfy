/** Addition and subtraction.  mpi_sub_abs and everything that goes through it is exact.
    mpi_add_abs ripples its last carry through a pointer that it does not advance; AddFaulty says
    exactly on which operands that loses the carry. */
module MpiAddSub {
  import opened Arithmetic
  import opened Digits
  import opened Limbs
  import opened Mpis

  // ---- subtraction ----

  /** q minus m has been computed below place i, at the price of a borrow c from place i. */
  ghost predicate Borrowed(p: seq<limb>, q: seq<limb>, i: nat, c: int, m: int) {
    && i <= |p| == |q| && 0 <= c <= 1
    && (forall k {:trigger p[k]} :: i <= k < |q| ==> p[k] == q[k])
    && Val(p[..i], BASE) - c * Pow(BASE, i) == Val(q[..i], BASE) - m
  }

  lemma BorrowFirst(q: seq<limb>)
    ensures Borrowed(q, q, 0, 0, 0)
  {
    ValZeros(q[..0], BASE);
  }

  lemma BorrowStep(low: int, lowOld: int, m: int, c: int, c': int, x: int, s: int, y: int, w: int, b: int)
    requires low - c * w == lowOld - m && y - c' * b == x - s - c
    ensures (low + y * w) - c' * (b * w) == (lowOld + x * w) - (m + s * w)
  {
    calc {
      (low + y * w) - c' * (b * w);
      { MulAssoc(c', b, w); }
      low + (y - c' * b) * w;
      low + (x - s - c) * w;
      (low - c * w) + x * w - s * w;
    }
  }

  /** Subtracting digit s and the borrow c at place i. */
  lemma BorrowNext(p: seq<limb>, q: seq<limb>, i: nat, c: int, m: int, s: limb, y: limb, c': int)
    requires i < |p| && Borrowed(p, q, i, c, m) && 0 <= c' <= 1 && y - c' * BASE == p[i] - s - c
    ensures Borrowed(p[i := y], q, i + 1, c', m + s * Pow(BASE, i))
  {
    hide Val, Pow;
    var p' := p[i := y];
    assert p'[..i] == p[..i];
    ValSnoc(p', i, BASE);
    ValSnoc(q, i, BASE);
    PowStep(BASE, i);
    BorrowStep(Val(p[..i], BASE), Val(q[..i], BASE), m, c, c', q[i], s, y, Pow(BASE, i), BASE);
  }

  /** A borrow cannot leave a buffer that holds at least what is subtracted. */
  lemma BorrowStops(p: seq<limb>, q: seq<limb>, c: int, m: int)
    requires Borrowed(p, q, |q|, c, m) && m <= Val(q, BASE)
    ensures c == 0
  {
    hide Val, Pow;
    assert p[..|q|] == p && q[..|q|] == q;
    ValBounds(p, BASE);
  }

  lemma BorrowDone(p: seq<limb>, q: seq<limb>, i: nat, m: int)
    requires Borrowed(p, q, i, 0, m)
    ensures Val(p, BASE) == Val(q, BASE) - m
  {
    hide Val, Pow;
    assert p[i..] == q[i..];
    SameTop(p, q, i, BASE);
  }

  /** mpi_sub_hlp: d -= s, where d is the buffer of D; n limbs of s, then the borrow ripples. */
  method SubHlp(n: nat, s: seq<limb>, D: Mpi)
    requires n <= |s| && n <= |D.p| && Val(s[..n], BASE) <= D.Mag()
    modifies D`p
    ensures |D.p| == old(|D.p|) && D.Mag() == old(D.Mag()) - Val(s[..n], BASE)
  {
    hide Val, Pow, Borrowed, Sig;
    BaseFacts();
    ghost var q := D.p;
    var i, c := SubLimbs(n, s, D);
    while c != 0
      invariant i <= |D.p| == |q| && 0 <= c <= 1
      invariant Borrowed(D.p, q, i, c, Val(s[..n], BASE))
      decreases |q| - i, c
    {
      if i == |q| {
        BorrowStops(D.p, q, c, Val(s[..n], BASE));
      }
      var z := if D.p[i] < c then 1 else 0;
      BorrowNext(D.p, q, i, c, Val(s[..n], BASE), 0, WrapSub(D.p[i], c), z);
      D.p := D.p[i := WrapSub(D.p[i], c)];
      c, i := z, i + 1;
    }
    BorrowDone(D.p, q, i, Val(s[..n], BASE));
  }

  /** The first loop of mpi_sub_hlp. */
  method SubLimbs(n: nat, s: seq<limb>, D: Mpi) returns (i: nat, c: int)
    requires n <= |s| && n <= |D.p|
    modifies D`p
    ensures i == n && |D.p| == old(|D.p|) && 0 <= c <= 1
    ensures Borrowed(D.p, old(D.p), n, c, Val(s[..n], BASE))
  {
    hide Val, Pow, Borrowed, Sig;
    BaseFacts();
    ghost var q := D.p;
    i, c := 0, 0;
    BorrowFirst(q);
    ValZeros(s[..0], BASE);
    while i < n
      invariant i <= n <= |D.p| == |q| && 0 <= c <= 1
      invariant Borrowed(D.p, q, i, c, Val(s[..i], BASE))
    {
      ghost var c0, m := c, Val(s[..i], BASE);
      ghost var p0 := D.p;
      var z := if D.p[i] < c then 1 else 0;
      D.p := D.p[i := WrapSub(D.p[i], c)];
      c := (if D.p[i] < s[i] then 1 else 0) + z;
      D.p := D.p[i := WrapSub(D.p[i], s[i])];
      BorrowNext(p0, q, i, c0, m, s[i], D.p[i], c);
      assert D.p == p0[i := D.p[i]];
      ValSnoc(s, i, BASE);
      i := i + 1;
    }
  }

  const ERR_MPI_NEGATIVE_VALUE: int := 0x0008

  /** mpi_sub_abs: X = |A| - |B|, or an error and no change. */
  method SubAbs(X: Mpi, A: Mpi, B: Mpi) returns (ret: int)
    requires A.Ok() && B.Ok()
    modifies X
    ensures ret == if old(A.Mag()) < old(B.Mag()) then ERR_MPI_NEGATIVE_VALUE else 0
    ensures ret == 0 ==> X.Ok() && X.Mag() == old(A.Mag()) - old(B.Mag()) && X.s == old(A.s)
    ensures ret == 0 ==> old(Sig(A.p)) <= |X.p| && old(|X.p|) <= |X.p|
    ensures ret == 0 ==> |X.p| == if X == A then old(|X.p|) else Max(old(|X.p|), old(CopyLen(A.p)))
    ensures ret != 0 ==> X.s == old(X.s) && X.p == old(X.p)
  {
    hide Val, Pow, Sig, CopyLen;
    var r := CmpAbs(A, B);
    if r < 0 {
      return ERR_MPI_NEGATIVE_VALUE;
    }
    BaseFacts();
    SigMono(B.p, A.p, BASE);
    B.SigFacts();
    var b := B;
    if X == B {
      b := new Mpi();
      Copy(b, B);
    }
    b.SigFacts();
    if X != A {
      Copy(X, A);
    }
    var n := TopLimb(b);
    SubHlp(n + 1, b.p, X);
    return 0;
  }

  // ---- unsigned addition ----

  /** The limbs mpi_add_abs works on, after its copy and growth, and the limbs it adds to them. */
  ghost function Ground(X: Mpi, A: Mpi, B: Mpi): (x: seq<limb>)
    reads X, A, B
  {
    var n := Sig(Addend(X, A, B));
    if X == A || X == B then Extended(X.p, n) else Extended(A.p[..CopyLen(A.p)], Max(|X.p|, n))
  }

  /** A buffer grown to n limbs. */
  function Extended(p: seq<limb>, n: nat): (q: seq<limb>)
    ensures |q| == Max(|p|, n)
  {
    p + Zeros(Max(n - |p|, 0))
  }

  lemma ExtendTwice(p: seq<limb>, a: nat, b: nat)
    ensures Extended(Extended(p, a), b) == Extended(p, Max(a, b))
  {
    var q, r := Extended(Extended(p, a), b), Extended(p, Max(a, b));
    assert q[..|p|] == p == r[..|p|];
    assert q[|p|..] == Zeros(|r| - |p|) == r[|p|..];
    assert q == q[..|p|] + q[|p|..] && r == r[..|p|] + r[|p|..];
  }

  ghost function Addend(X: Mpi, A: Mpi, B: Mpi): seq<limb>
    reads X, A, B
  {
    if X == B then A.p else B.p
  }

  /** The last carry meets a limb of ones that is not the last one of x. */
  ghost predicate CarryLost(x: seq<limb>, y: seq<limb>) {
    var n := Sig(y);
    && n + 1 < |x| && x[n] == BASE - 1
    && Pow(BASE, n) <= Val(x[..n], BASE) + Val(y[..n], BASE)
  }

  /** Three limbs, two of ones below a zero, plus one. */
  lemma CarryLostExample()
    ensures CarryLost([BASE - 1, BASE - 1, 0], [1])
  {
    hide Pow;
    BaseFacts();
    var x, y: seq<limb> := [BASE - 1, BASE - 1, 0], [1];
    SigUnique(y, 1);
    PowStep(BASE, 0);
    assert x[..1] == [BASE - 1] && y[..1] == [1];
    ValOne(BASE - 1, BASE);
    ValOne(1, BASE);
  }

  /** Doubling in place has no carries at all. */
  ghost predicate DoublingWraps(p: seq<limb>) {
    exists k :: 0 <= k < |p| && BASE <= 2 * (p[k] as int)
  }

  function Doubled(p: seq<limb>): (d: seq<limb>)
    ensures |d| == |p| && forall k :: 0 <= k < |p| ==> d[k] == WrapAdd(p[k], p[k])
  {
    seq(|p|, k requires 0 <= k < |p| => WrapAdd(p[k], p[k]))
  }

  /** The operands on which mpi_add_abs is wrong. */
  ghost predicate AddFaulty(X: Mpi, A: Mpi, B: Mpi)
    reads X, A, B
  {
    if X == A == B then DoublingWraps(X.p) else CarryLost(Ground(X, A, B), Addend(X, A, B))
  }

  /** Adding zero cannot lose a carry. */
  lemma NothingAddsExactly(X: Mpi, A: Mpi, B: Mpi)
    requires X != B && B.Mag() == 0
    ensures !AddFaulty(X, A, B)
  {
    hide Val, Pow, Sig, Ground;
    BaseFacts();
    B.SigFacts();
    NoCarryFromNothing(Ground(X, A, B), B.p);
  }

  lemma NoCarryFromNothing(x: seq<limb>, y: seq<limb>)
    requires Sig(y) == 0
    ensures !CarryLost(x, y)
  {
    hide Sig;
    if 0 < |x| {
      assert x[..0] == [] && y[..0] == [];
    }
  }

  /** Adding a number to a zero cannot lose a carry. */
  lemma ZeroAddsExactly(X: Mpi, B: Mpi)
    requires X != B && X.Mag() == 0
    ensures !AddFaulty(X, X, B)
  {
    hide Val, Pow, Sig;
    X.SigFacts();
    BaseFacts();
    MagExtend(X.p, Max(Sig(B.p) - |X.p|, 0));
    assert Sig(Ground(X, X, B)) == 0;
  }

  lemma {:induction false} DoubledVal(p: seq<limb>)
    ensures Val(Doubled(p), BASE) <= 2 * Val(p, BASE)
    ensures Val(Doubled(p), BASE) == 2 * Val(p, BASE) <==> !DoublingWraps(p)
  {
    if |p| == 0 {
      assert Doubled(p) == p;
    } else {
      hide Val, DoublingWraps;
      var d := Doubled(p);
      DoubledVal(p[1..]);
      assert d[1..] == Doubled(p[1..]) && p[0..] == p && d[0..] == d;
      ValCons(p, 0, BASE);
      ValCons(d, 0, BASE);
      DoubledStep(d[0], Val(d[1..], BASE), p[0], Val(p[1..], BASE), BASE);
      DoublingTail(p);
    }
  }

  lemma DoublingTail(p: seq<limb>)
    requires 0 < |p|
    ensures DoublingWraps(p) <==> BASE <= 2 * (p[0] as int) || DoublingWraps(p[1..])
  {
    if DoublingWraps(p[1..]) {
      var k :| 0 <= k < |p[1..]| && BASE <= 2 * (p[1..][k] as int);
      assert BASE <= 2 * (p[k + 1] as int);
    }
    if DoublingWraps(p) {
      var k :| 0 <= k < |p| && BASE <= 2 * (p[k] as int);
      assert k == 0 || BASE <= 2 * (p[1..][k - 1] as int);
    }
  }

  lemma DoubledStep(d0: int, d: int, p0: int, v: int, b: int)
    requires 0 < b && d <= 2 * v && (d0 == 2 * p0 || d0 == 2 * p0 - b)
    ensures d0 + b * d <= 2 * (p0 + b * v)
    ensures d0 + b * d == 2 * (p0 + b * v) <==> d0 == 2 * p0 && d == 2 * v
  {
    MulMono(d, 2 * v, b);
    if d < 2 * v {
      MulStrictMono(d, 2 * v, b);
    }
  }

  /** x plus m has been computed below place i, with a carry c into place i. */
  ghost predicate Carried(p: seq<limb>, x: seq<limb>, i: nat, c: int, m: int) {
    && i <= |p| == |x| && 0 <= c
    && (forall k {:trigger p[k]} :: i <= k < |x| ==> p[k] == x[k])
    && Val(p[..i], BASE) + c * Pow(BASE, i) == Val(x[..i], BASE) + m
  }

  lemma CarryFirst(x: seq<limb>)
    ensures Carried(x, x, 0, 0, 0)
  {
    ValZeros(x[..0], BASE);
  }

  lemma CarryNext(p: seq<limb>, x: seq<limb>, i: nat, c: int, m: int, s: int, y: limb, c': int)
    requires i < |p| && Carried(p, x, i, c, m) && 0 <= c' && y + c' * BASE == p[i] + s + c
    ensures Carried(p[i := y], x, i + 1, c', m + s * Pow(BASE, i))
  {
    hide Val, Pow;
    var p' := p[i := y];
    assert p'[..i] == p[..i];
    ValSnoc(p', i, BASE);
    ValSnoc(x, i, BASE);
    PowStep(BASE, i);
    BorrowStep(Val(p[..i], BASE), Val(x[..i], BASE), -m, -c, -c', x[i], 0 - s, y, Pow(BASE, i), BASE);
  }

  /** The sum after the limb loop, the carry included. */
  lemma CarryDone(p: seq<limb>, x: seq<limb>, i: nat, c: int, m: int)
    requires Carried(p, x, i, c, m)
    ensures Val(p, BASE) + c * Pow(BASE, i) == Val(x, BASE) + m
  {
    hide Val, Pow;
    assert p[i..] == x[i..];
    SameTop(p, x, i, BASE);
  }

  /** The carry out is decided by the low parts. */
  lemma CarryIs(p: seq<limb>, x: seq<limb>, i: nat, c: int, m: int)
    requires Carried(p, x, i, c, m) && c <= 1
    ensures c == 1 <==> Pow(BASE, i) <= Val(x[..i], BASE) + m
  {
    hide Val, Pow;
    ValBounds(p[..i], BASE);
  }

  /** The limb loop of mpi_add_abs on separate buffers. */
  method AddLimbs(X: Mpi, B: Mpi, n: nat) returns (c: int)
    requires X != B && n <= |B.p| && n <= |X.p|
    modifies X`p
    ensures Carried(X.p, old(X.p), n, c, Val(B.p[..n], BASE))
    ensures |X.p| == old(|X.p|) && 0 <= c <= 1
  {
    hide Val, Pow, Carried, Sig;
    BaseFacts();
    ghost var x := X.p;
    var i := 0;
    c := 0;
    CarryFirst(x);
    ValZeros(B.p[..0], BASE);
    while i < n
      invariant i <= n <= |X.p| == |x| && 0 <= c <= 1
      invariant Carried(X.p, x, i, c, Val(B.p[..i], BASE))
    {
      ghost var c0, m, p0 := c, Val(B.p[..i], BASE), X.p;
      X.p := X.p[i := WrapAdd(X.p[i], c)];
      c := if X.p[i] < c then 1 else 0;
      X.p := X.p[i := WrapAdd(X.p[i], B.p[i])];
      c := c + if X.p[i] < B.p[i] then 1 else 0;
      CarryNext(p0, x, i, c0, m, B.p[i], X.p[i], c);
      assert X.p == p0[i := X.p[i]];
      ValSnoc(B.p, i, BASE);
      i := i + 1;
    }
  }

  /** The same loop when the addend is X itself: the second comparison sees the limb just stored. */
  method DoubleLimbs(X: Mpi, n: nat) returns (c: int)
    requires n <= |X.p| && forall k :: n <= k < |X.p| ==> X.p[k] == 0
    modifies X`p
    ensures c == 0 && X.p == Doubled(old(X.p))
  {
    hide Val, Pow, Sig;
    ghost var x := X.p;
    var i := 0;
    c := 0;
    while i < n
      invariant i <= n <= |X.p| == |x| && c == 0
      invariant forall k {:trigger X.p[k]} :: 0 <= k < i ==> X.p[k] == WrapAdd(x[k], x[k])
      invariant forall k {:trigger X.p[k]} :: i <= k < |x| ==> X.p[k] == x[k]
    {
      X.p := X.p[i := WrapAdd(X.p[i], c)];
      c := if X.p[i] < c then 1 else 0;
      X.p := X.p[i := WrapAdd(X.p[i], X.p[i])];
      c := c + if X.p[i] < X.p[i] then 1 else 0;
      i := i + 1;
    }
  }

  /** The value left when the last carry c is rippled into place n of p. */
  ghost function Rippled(p: seq<limb>, n: nat, c: int): int
    requires n <= |p|
  {
    Val(p, BASE) + c * Pow(BASE, n)
      - if c == 1 && n + 1 < |p| && p[n] == BASE - 1 then (BASE - 1) * Pow(BASE, n) else 0
  }

  lemma StoreAtEnd(p: seq<limb>)
    ensures Val(p + [1], BASE) == Val(p, BASE) + Pow(BASE, |p|)
  {
    hide Val, Pow;
    ValConcat(p, [1], BASE);
    ValOne(1, BASE);
  }

  lemma StoreAt(p: seq<limb>, n: nat, y: limb)
    requires n < |p|
    ensures y == (p[n] as int) + 1 ==> Val(p[n := y], BASE) == Val(p, BASE) + Pow(BASE, n)
    ensures y == 0 && p[n] == BASE - 1 ==> Val(p[n := y], BASE) == Val(p, BASE) + Pow(BASE, n) - Pow(BASE, n + 1)
    ensures y == 1 && p[n] == BASE - 1 ==>
              Val(p[n := y], BASE) == Val(p, BASE) + Pow(BASE, n) - (BASE - 1) * Pow(BASE, n)
  {
    hide Val, Pow;
    ValUpdate(p, n, y, BASE);
    PowStep(BASE, n);
  }

  /** The carry loop of mpi_add_abs: the pointer d follows i only when the buffer grows. */
  method RippleCarry(X: Mpi, n: nat, carry: int)
    requires n <= |X.p| && 0 <= carry <= 1 && X.s != 0
    modifies X
    ensures X.s == old(X.s) && old(|X.p|) <= |X.p|
    ensures |X.p| == old(|X.p|) || |X.p| == Sig(X.p)
    ensures X.Mag() == Rippled(old(X.p), n, carry)
    ensures carry == 0 ==> X.p == old(X.p)
  {
    hide Val, Pow, Sig;
    BaseFacts();
    ghost var p := X.p;
    var i, d, c := n, n, carry;
    while c != 0
      invariant n <= i && 0 <= c <= carry && X.s == old(X.s) && |p| <= |X.p|
      invariant |X.p| == |p| || (c == 0 && X.p[|X.p| - 1] != 0)
      invariant c == 1 ==> i <= n + 1 && d == n
      invariant c == 1 && i == n ==> X.p == p
      invariant c == 1 && i == n + 1 ==> n < |p| && p[n] == BASE - 1 && X.p == p[n := 0]
      invariant c == 0 ==> X.Mag() == Rippled(p, n, carry)
      invariant carry == 0 ==> X.p == p
      decreases c, n + 2 - i
    {
      if i == n + 1 {
        StoreAt(p, n, 0);
      }
      if i >= |X.p| {
        StoreAtEnd(X.p);
        ghost var before := X.p;
        Grow(X, i + 1);
        d := i;
        assert X.p[d := 1] == before + [1];
      }
      var y := WrapAdd(X.p[d], c);
      if d < |p| {
        StoreAt(p, n, y);
        assert i == n + 1 ==> X.p[d := y] == p[n := 1];
      }
      X.p := X.p[d := y];
      c := if y < c then 1 else 0;
      i := i + 1;
    }
    if |X.p| != |p| {
      SigUnique(X.p, |X.p|);
    }
  }

  lemma RippledExact(p: seq<limb>, x: seq<limb>, y: seq<limb>, c: int)
    requires Sig(y) <= |x| && Carried(p, x, Sig(y), c, Val(y[..Sig(y)], BASE)) && c <= 1
    ensures Rippled(p, Sig(y), c) == Val(x, BASE) + Val(y, BASE) <==> !CarryLost(x, y)
    ensures CarryLost(x, y) ==>
              Rippled(p, Sig(y), c) == Val(x, BASE) + Val(y, BASE) - (BASE - 1) * Pow(BASE, Sig(y))
  {
    hide Val, Pow, Sig;
    BaseFacts();
    var n := Sig(y);
    var m := Val(y[..n], BASE);
    CarryDone(p, x, n, c, m);
    CarryIs(p, x, n, c, m);
    SigBounds(y, BASE);
    MulStrictMono(0, BASE - 1, Pow(BASE, n));
  }

  /** mpi_add_abs: X = |A| + |B| exactly on the operands that are not faulty. */
  method AddAbs(X: Mpi, A: Mpi, B: Mpi)
    requires A.Ok() && B.Ok()
    modifies X
    ensures X.Ok() && X.s == if X == B then old(B.s) else old(A.s)
    ensures old(|X.p|) <= |X.p|
    ensures X == A ==> |X.p| == Max(Max(old(|X.p|), old(Sig(B.p))), Sig(X.p))
    ensures X.Mag() == old(A.Mag()) + old(B.Mag()) <==> !old(AddFaulty(X, A, B))
    ensures X == A == B ==> X.p == Doubled(old(X.p))
    ensures !(X == A == B) && old(AddFaulty(X, A, B)) ==>
              X.Mag() == old(A.Mag()) + old(B.Mag()) - (BASE - 1) * Pow(BASE, old(Sig(Addend(X, A, B))))
  {
    hide Val, Pow, Sig, AddFaulty;
    SumIsSymmetric(X, A);
    if X == B {
      AddOnto(X, X, A);
    } else {
      AddOnto(X, A, B);
    }
  }

  lemma SumIsSymmetric(X: Mpi, A: Mpi)
    ensures AddFaulty(X, X, A) == AddFaulty(X, A, X) && Addend(X, X, A) == Addend(X, A, X)
  {
  }

  /** mpi_add_abs once its operands are ordered so that only A can be X, or both are. */
  method AddOnto(X: Mpi, A: Mpi, B: Mpi)
    requires A.Ok() && B.Ok() && (X == B ==> X == A)
    modifies X
    ensures X.Ok() && X.s == old(A.s) && old(|X.p|) <= |X.p|
    ensures X.Mag() == old(A.Mag()) + old(B.Mag()) <==> !old(AddFaulty(X, A, B))
    ensures X == A ==> |X.p| == Max(Max(old(|X.p|), old(Sig(B.p))), Sig(X.p))
    ensures X == B ==> X.p == Doubled(old(X.p))
    ensures X != B && old(AddFaulty(X, A, B)) ==>
              X.Mag() == old(A.Mag()) + old(B.Mag()) - (BASE - 1) * Pow(BASE, old(Sig(B.p)))
  {
    hide Val, Pow, Sig, Carried, Rippled, CarryLost, DoublingWraps, Ground;
    ghost var y := B.p;
    var n := PrepareSum(X, A, B);
    ghost var x := X.p;
    if B == X {
      DoubledVal(x);
      var c := DoubleLimbs(X, n);
      RippledNothing(X.p, n);
      RippleCarry(X, n, c);
    } else {
      var c := AddLimbs(X, B, n);
      RippledExact(X.p, x, y, c);
      RippleCarry(X, n, c);
    }
  }

  /** The copy and the growth in front of the limb loop. */
  method PrepareSum(X: Mpi, A: Mpi, B: Mpi) returns (n: nat)
    requires A.Ok() && B.Ok() && (X == B ==> X == A)
    modifies X
    ensures n == Sig(B.p) <= |B.p| && n <= |X.p|
    ensures X.Ok() && X.s == old(A.s) && X.p == old(Ground(X, A, B)) && X.Mag() == old(A.Mag())
    ensures old(|X.p|) <= |X.p| && (X == A ==> |X.p| == Max(old(|X.p|), n))
    ensures X == B ==> X.p == old(X.p)
  {
    hide Val, Pow, Sig, CopyLen;
    ghost var l := |X.p|;
    if X != A {
      Copy(X, A);
      assert X.p == Extended(A.p[..CopyLen(A.p)], l);
    }
    ghost var x := X.p;
    var j := TopLimb(B);
    Grow(X, j + 1);
    n := j + 1;
    assert X.p == Extended(x, n);
    if X != A {
      ExtendTwice(A.p[..CopyLen(A.p)], l, n);
    }
  }

  lemma RippledNothing(p: seq<limb>, n: nat)
    requires n <= |p|
    ensures Rippled(p, n, 0) == Val(p, BASE)
  {
  }

  // ---- signed addition and subtraction ----

  /** mpi_add_mpi */
  method AddMpi(X: Mpi, A: Mpi, B: Mpi)
    requires A.Ok() && B.Ok()
    modifies X
    ensures X.Ok() && old(|X.p|) <= |X.p|
    ensures X == A ==> |X.p| == Max(Max(old(|X.p|), old(Sig(B.p))), Sig(X.p))
    ensures X.V() == old(A.V()) + old(B.V()) <==> !(old(A.s == B.s) && old(AddFaulty(X, A, B)))
    ensures old(A.s == B.s) ==> X.s == old(A.s)
    ensures !(X == A == B) && old(A.s == B.s) && old(AddFaulty(X, A, B)) ==>
              X.Mag() == old(A.Mag()) + old(B.Mag()) - (BASE - 1) * Pow(BASE, old(Sig(Addend(X, A, B))))
    ensures X == A == B ==> X.p == Doubled(old(X.p))
    ensures old(A.s != B.s) ==> X.s == if old(A.Mag()) < old(B.Mag()) then old(B.s) else old(A.s)
  {
    hide Val, Pow, Sig, AddFaulty;
    var s := A.s;
    if A.s * B.s < 0 {
      SigOrder(A, B);
      var r := CmpAbs(A, B);
      if r >= 0 {
        r := SubAbs(X, A, B);
        X.s := s;
      } else {
        r := SubAbs(X, B, A);
        X.s := -s;
      }
    } else {
      AddAbs(X, A, B);
      X.s := s;
    }
  }

  lemma SigOrder(A: Mpi, B: Mpi)
    ensures A.Mag() <= B.Mag() ==> Sig(A.p) <= Sig(B.p)
    ensures B.Mag() <= A.Mag() ==> Sig(B.p) <= Sig(A.p)
  {
    hide Val;
    BaseFacts();
    if A.Mag() <= B.Mag() {
      SigMono(A.p, B.p, BASE);
    }
    if B.Mag() <= A.Mag() {
      SigMono(B.p, A.p, BASE);
    }
  }

  /** mpi_sub_mpi */
  method SubMpi(X: Mpi, A: Mpi, B: Mpi)
    requires A.Ok() && B.Ok()
    modifies X
    ensures X.Ok() && old(|X.p|) <= |X.p|
    ensures X == A ==> |X.p| == Max(Max(old(|X.p|), old(Sig(B.p))), Sig(X.p))
    ensures X.V() == old(A.V()) - old(B.V()) <==> !(old(A.s != B.s) && old(AddFaulty(X, A, B)))
    ensures old(A.s != B.s) ==> X.s == old(A.s)
    ensures !(X == A == B) && old(A.s != B.s) && old(AddFaulty(X, A, B)) ==>
              X.Mag() == old(A.Mag()) + old(B.Mag()) - (BASE - 1) * Pow(BASE, old(Sig(Addend(X, A, B))))
    ensures old(A.s == B.s) ==> X.s == if old(A.Mag()) < old(B.Mag()) then -old(A.s) else old(A.s)
  {
    hide Val, Pow, Sig, AddFaulty;
    var s := A.s;
    if A.s * B.s > 0 {
      SigOrder(A, B);
      var r := CmpAbs(A, B);
      if r >= 0 {
        r := SubAbs(X, A, B);
        X.s := s;
      } else {
        r := SubAbs(X, B, A);
        X.s := -s;
      }
    } else {
      AddAbs(X, A, B);
      X.s := s;
    }
  }
}
