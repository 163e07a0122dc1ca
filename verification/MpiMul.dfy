/** Schoolbook multiplication, mpi_mul_hlp and mpi_mul_mpi. */
module MpiMul {
  import opened Arithmetic
  import opened Digits
  import opened Limbs
  import opened Mpis
  import opened MpiAddSub

  /** MULADDC_CORE: s * b + d + c fits two limbs. */
  lemma MulAddFits(s: int, b: int, d: int, c: int, base: int)
    requires 0 <= s < base && 0 <= b < base && 0 <= d < base && 0 <= c < base
    ensures 0 <= s * b && 0 <= (s * b + d + c) / base < base
  {
    MulNonNegative(s, b);
    MulMono(s, base - 1, b);
    MulMono(b, base - 1, base - 1);
    SquareBelow(base);
    DivLess(s * b + d + c, base, base);
  }

  lemma SquareBelow(base: int)
    ensures (base - 1) * (base - 1) + 2 * (base - 1) == base * base - 1
  {
  }

  /** A carry cannot leave a window that has room for the sum. */
  lemma CarryStops(p: seq<limb>, x: seq<limb>, c: int, m: int)
    requires Carried(p, x, |x|, c, m) && Val(x, BASE) + m < Pow(BASE, |x|)
    ensures c == 0
  {
    hide Val, Pow;
    assert p[..|x|] == p && x[..|x|] == x;
    ValBounds(p, BASE);
    if 0 < c {
      MulMono(1, c, Pow(BASE, |x|));
    }
  }

  ghost function Window(D: Mpi, off: nat, w: nat): seq<limb>
    requires off + w <= |D.p|
    reads D
  {
    D.p[off..off + w]
  }

  /** The limbs of p outside the window are those of q. */
  ghost predicate SameOutside(p: seq<limb>, q: seq<limb>, off: nat, w: nat) {
    && |p| == |q|
    && (forall k {:trigger p[k]} :: 0 <= k < |q| && (k < off || off + w <= k) ==> p[k] == q[k])
  }

  /** mpi_mul_hlp: d += s * b, for i limbs of s and d at offset off of D; no store leaves the w
      limbs from off on as long as they have room for the result. */
  method MulHlp(i: nat, s: seq<limb>, D: Mpi, off: nat, b: limb, ghost w: nat)
    requires i <= |s| && off + w <= |D.p| && i < w
    requires Val(Window(D, off, w), BASE) + b * Val(s[..i], BASE) < Pow(BASE, w)
    modifies D`p
    ensures SameOutside(D.p, old(D.p), off, w)
    ensures Val(Window(D, off, w), BASE) == old(Val(Window(D, off, w), BASE)) + b * Val(s[..i], BASE)
  {
    hide Val, Pow, Carried, Sig;
    ghost var x, m := Window(D, off, w), b * Val(s[..i], BASE);
    var c: limb := MulAddLimbs(i, s, D, off, b, w);
    var k := i;
    var more := true;
    while more
      invariant k <= w && (more && k == w ==> 0 < c) && (!more ==> c == 0)
      invariant SameOutside(D.p, old(D.p), off, w) && |D.p| == old(|D.p|)
      invariant Carried(Window(D, off, w), x, k, c, m)
      decreases more, w - k
    {
      if k == w {
        CarryStops(Window(D, off, w), x, c, m);
      }
      ghost var win := Window(D, off, w);
      var y := WrapAdd(D.p[off + k], c);
      CarryNext(win, x, k, c, m, 0, y, if y < c then 1 else 0);
      D.p := D.p[off + k := y];
      assert Window(D, off, w) == win[k := y];
      BaseFacts();
      c := if y < c then 1 else 0;
      k := k + 1;
      more := c != 0;
    }
    CarryDone(Window(D, off, w), x, k, 0, m);
  }

  /** The multiply-add part; the unrolled bodies of the source do the same steps. */
  method MulAddLimbs(i: nat, s: seq<limb>, D: Mpi, off: nat, b: limb, ghost w: nat) returns (c: limb)
    requires i <= |s| && off + w <= |D.p| && i < w
    modifies D`p
    ensures |D.p| == old(|D.p|) && SameOutside(D.p, old(D.p), off, w)
    ensures Carried(Window(D, off, w), old(Window(D, off, w)), i, c, b * Val(s[..i], BASE))
  {
    hide Val, Pow, Carried, Sig;
    ghost var x := Window(D, off, w);
    c := 0;
    CarryFirst(x);
    ValZeros(s[..0], BASE);
    var k := 0;
    while k < i
      invariant k <= i && |D.p| == old(|D.p|) && SameOutside(D.p, old(D.p), off, w)
      invariant Carried(Window(D, off, w), x, k, c, b * Val(s[..k], BASE))
    {
      ghost var win := Window(D, off, w);
      MulAddFits(s[k], b, D.p[off + k], c, BASE);
      var y, c' := MulAddCore(s[k], b, D.p[off + k], c);
      MulSnoc(s, k, b);
      CarryNext(win, x, k, c, b * Val(s[..k], BASE), s[k] * b, y, c');
      D.p := D.p[off + k := y];
      assert Window(D, off, w) == win[k := y];
      c := c';
      k := k + 1;
    }
  }

  method MulAddCore(s: limb, b: limb, d: limb, c: limb) returns (y: limb, c': limb)
    ensures y + c' * BASE == d + (s * b) + c
  {
    hide Pow;
    BaseFacts();
    var r: int := s * b;
    MulNonNegative(s, b);
    var r0: limb, r1 := r % BASE, r / BASE;
    ghost var low := r0;
    r0 := WrapAdd(r0, c);
    r1 := r1 + if r0 < c then 1 else 0;
    assert r0 + r1 * BASE == low + (r / BASE) * BASE + c;
    r0 := WrapAdd(r0, d);
    r1 := r1 + if r0 < d then 1 else 0;
    CoreFits(s, b, d, c, r0, r1, BASE);
    y, c' := r0, r1;
  }

  /** The high half is a limb again. */
  lemma CoreFits(s: int, b: int, d: int, c: int, r0: int, r1: int, base: int)
    requires 0 <= s < base && 0 <= b < base && 0 <= d < base && 0 <= c < base && 0 <= r0 < base
    requires r0 + r1 * base == s * b + c + d
    ensures 0 <= r1 < base
  {
    MulAddFits(s, b, d, c, base);
    DivModUnique(s * b + d + c, base, r1, r0);
  }

  lemma MulSnoc(s: seq<limb>, k: nat, b: int)
    requires k < |s|
    ensures b * Val(s[..k + 1], BASE) == b * Val(s[..k], BASE) + (s[k] * b) * Pow(BASE, k)
  {
    hide Val, Pow;
    ValSnoc(s, k, BASE);
    MulAssoc(b, s[k], Pow(BASE, k));
  }

  lemma ProductRoom(u: int, m: nat, v: int, n: nat, b: int)
    requires 0 < b && 0 <= u < Pow(b, m) && 0 <= v < Pow(b, n)
    ensures 0 <= u * v < Pow(b, m + n)
  {
    hide Pow;
    PowAdd(b, m, n);
    MulNonNegative(u, v);
    MulMono(u, Pow(b, m), v);
    MulStrictMono(v, Pow(b, n), Pow(b, m));
  }

  /** The digits of b from j on have been multiplied into the limbs of x from j on, below n. */
  ghost predicate Multiplied(x: seq<limb>, j: nat, va: int, b: seq<limb>, n: nat) {
    && j <= |b| && j <= n <= |x|
    && (forall k :: 0 <= k < j ==> x[k] == 0)
    && (forall k :: n <= k < |x| ==> x[k] == 0)
    && Val(x[j..n], BASE) == va * Val(b[j..], BASE)
  }

  lemma MultipliedFirst(x: seq<limb>, va: int, b: seq<limb>, n: nat)
    requires |b| <= n <= |x| && forall k :: 0 <= k < |x| ==> x[k] == 0
    ensures Multiplied(x, |b|, va, b, n)
  {
    ValZeros(x[|b|..n], BASE);
    ValZeros(b[|b|..], BASE);
  }

  /** Before and after row j. */
  lemma MultipliedRow(x: seq<limb>, j: nat, va: int, sa: nat, b: seq<limb>, n: nat)
    requires Multiplied(x, j + 1, va, b, n) && n == sa + |b| && 0 <= va < Pow(BASE, sa)
    ensures Val(x[j..n], BASE) + b[j] * va == va * Val(b[j..], BASE) < Pow(BASE, n - j)
  {
    hide Val, Pow;
    var w := x[j..n];
    assert w[0..] == w && w[1..] == x[j + 1..n];
    ValCons(w, 0, BASE);
    ValCons(b, j, BASE);
    var rest := Val(b[j + 1..], BASE);
    MulAssoc(BASE, va, rest);
    MulAssoc(va, BASE, rest);
    assert va * (b[j] + BASE * rest) == va * b[j] + va * (BASE * rest);
    ValBounds(b[j..], BASE);
    ProductRoom(va, sa, Val(b[j..], BASE), |b| - j, BASE);
  }

  lemma MultipliedNext(x: seq<limb>, y: seq<limb>, j: nat, va: int, b: seq<limb>, n: nat)
    requires Multiplied(x, j + 1, va, b, n) && SameOutside(y, x, j, n - j)
    requires Val(y[j..n], BASE) == va * Val(b[j..], BASE)
    ensures Multiplied(y, j, va, b, n)
  {
  }

  lemma MultipliedLast(x: seq<limb>, va: int, b: seq<limb>, n: nat)
    requires Multiplied(x, 0, va, b, n)
    ensures Val(x, BASE) == va * Val(b, BASE)
  {
    hide Val;
    assert b[0..] == b && x[0..n] == x[..n];
    ValZeroTop(x, n, BASE);
  }

  /** mpi_mul_mpi: X = A * B, whichever of the three are the same object. */
  method MulMpi(X: Mpi, A: Mpi, B: Mpi)
    requires A.Ok() && B.Ok()
    modifies X
    ensures X.Ok() && X.s == old(A.s) * old(B.s)
    ensures X.Mag() == old(A.Mag()) * old(B.Mag()) && X.V() == old(A.V()) * old(B.V())
    ensures |X.p| == Max(Max(old(|X.p|), old(Sig(A.p) + Sig(B.p))), 1)
  {
    hide Val, Pow, Sig;
    var a := Detached(X, A);
    var b := Detached(X, B);
    SignedProduct(a.Mag(), b.Mag(), a.s, b.s);
    MulRows(X, a, b);
    X.s := a.s * b.s;
  }

  /** A, or a copy of it when the result is about to overwrite it. */
  method Detached(X: Mpi, A: Mpi) returns (a: Mpi)
    requires A.Ok()
    ensures a != X && (a == A || fresh(a))
    ensures a.Ok() && a.s == A.s && a.Mag() == A.Mag() && Sig(a.p) == Sig(A.p)
  {
    hide Val, Pow, Sig;
    a := A;
    if X == A {
      a := new Mpi();
      Copy(a, A);
    }
  }

  lemma SignedProduct(x: int, y: int, s: int, t: int)
    ensures (s == 1 || s == -1) && (t == 1 || t == -1) ==>
      (if s * t < 0 then -(x * y) else x * y) == (if s < 0 then -x else x) * (if t < 0 then -y else y)
  {
    assert (-x) * y == -(x * y) && x * (-y) == -(x * y) && (-x) * (-y) == x * y;
  }

  /** The part of mpi_mul_mpi after the copies: the rows, from the high limb of B down. */
  method MulRows(X: Mpi, A: Mpi, B: Mpi)
    requires X != A && X != B && A.Ok() && B.Ok()
    modifies X
    ensures X.Ok() && X.Mag() == A.Mag() * B.Mag()
    ensures |X.p| == Max(Max(old(|X.p|), Sig(A.p) + Sig(B.p)), 1)
  {
    hide Val, Pow, Sig, Multiplied;
    BaseFacts();
    var i := TopLimb(A);
    var j := TopLimb(B);
    A.SigFacts();
    B.SigFacts();
    ghost var va, sa, b, n := A.Mag(), i + 1, B.p[..j + 1], i + j + 2;
    Grow(X, i + j + 2);
    LSet(X, 0);
    assert forall k :: 0 <= k < |X.p| ==> X.p[k] == 0;
    MultipliedFirst(X.p, va, b, n);
    i := i + 1;
    while 0 <= j
      invariant -1 <= j < |b| && n <= |X.p|
      invariant X.Ok() && |X.p| == Max(Max(old(|X.p|), n), 1)
      invariant Multiplied(X.p, j + 1, va, b, n)
    {
      ghost var x := X.p;
      MultipliedRow(x, j, va, sa, b, n);
      MulHlp(i, A.p, X, j, B.p[j], n - j);
      MultipliedNext(x, X.p, j, va, b, n);
      j := j - 1;
    }
    MultipliedLast(X.p, va, b, n);
  }

  /** mpi_mul_int */
  method MulInt(X: Mpi, A: Mpi, b: limb)
    requires A.Ok()
    modifies X
    ensures X.Ok() && X.s == old(A.s)
    ensures X.Mag() == old(A.Mag()) * b
    ensures |X.p| == Max(Max(old(|X.p|), old(Sig(A.p)) + if b == 0 then 0 else 1), 1)
  {
    hide Val, Pow, Sig;
    var B := new Mpi();
    B.s := 1;
    B.p := [b];
    ValOne(b, BASE);
    SigUnique([b], if b == 0 then 0 else 1);
    MulMpi(X, A, B);
  }
}
