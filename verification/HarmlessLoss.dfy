/** A lost carry need not spoil the inverse: with the residue BASE^2 + 5 modulo 3 * BASE^2 / 2 + 8 the
    last subtraction of mpi_inv_mod loses one in V2, and V1 is right, at every limb width. */
module HarmlessLoss {
  import opened Arithmetic
  import opened NumberTheory
  import opened Limbs
  import opened Mpis
  import opened InverseRun
  import opened InverseLoss

  /** The power of two that the numbers are made of. */
  function Part(): nat { Pow(2, 2 * LIMB_BITS - 6) }

  lemma PartFacts()
    ensures Eighth() == 8 * Part() && 65536 <= Part() && Part() % 2 == 0
  {
    hide Pow;
    BaseFacts();
    PowAdd(2, 3, 2 * LIMB_BITS - 6);
    PowAdd(2, 1, 2 * LIMB_BITS - 7);
    PowMono(2, 16, 2 * LIMB_BITS - 6);
    SmallPowers();
  }

  lemma PartOfBase()
    ensures BASE == 64 * (BASE / 64) && Part() == (BASE / 64) * BASE
  {
    hide Pow, Part, Eighth;
    PartFacts();
    EighthFacts();
    PowAdd(2, 6, LIMB_BITS - 6);
    PowAdd(2, 3, 3);
    SmallPowers();
    DivModUnique(BASE, 64, Pow(2, LIMB_BITS - 6), 0);
    MulAssoc(64, BASE / 64, BASE);
  }

  /** The residue and the modulus. */
  ghost predicate Numbers(h: nat, a: nat, n: nat) {
    h == Part() && a == 64 * h + 5 && n == 96 * h + 8
  }

  // ---- the run ----

  lemma TwoLimbs(m: nat)
    requires BASE <= m < 8 * Eighth()
    ensures LimbLen(m) == 2
  {
    hide Pow, LimbLen, Eighth;
    EighthIsPower();
    BaseFacts();
    OneLimb(1);
    LimbLenIs(m, 2);
  }

  /** A halving of two even coefficients to side y. */
  lemma HalvedPlainly(x: Side, y: Side, a: nat, n: nat)
    requires x == Side(2 * y.t, Held(y.c.s, 2 * y.c.m, y.c.l), Held(y.d.s, 2 * y.d.m, y.d.l), y.strips, y.subs)
    ensures Halved(x, a, n) == y
  {
    hide Added, AddsExactly;
  }

  lemma StrippedTo(x: Side, y: Side, j: nat, a: nat, n: nat)
    requires x.t == 2 * y.t && Halved(x, a, n) == y && y.t == 2 * j + 1
    ensures Stripped(x, a, n) == y
  {
    hide Halved;
    StrippedOdd(y, a, n);
  }

  lemma StripModulus(h: nat, a: nat, n: nat)
    requires Numbers(h, a, n)
    ensures Stripped(First(n, 0, 1), a, n) ==
            Side(12 * h + 1, Held(1, 60 * h + 5, 3), Held(-1, 40 * h + 3, 3), true, true)
  {
    hide Added, AddsExactly, Eighth, Part, Halved;
    PartFacts();
    AddLong(Held(1, 0, 1), 1, n);
    AddOpposite(Held(1, 1, 1), -1, a);
    var y := Side(48 * h + 4, Held(1, 48 * h + 4, 3), Held(-1, 32 * h + 2, 3), true, true);
    HalvedTo(First(n, 0, 1), y, 0, a, n);
    HalvedPlainly(y, Side(24 * h + 2, Held(1, 24 * h + 2, 3), Held(-1, 16 * h + 1, 3), true, true), a, n);
    StripModulusRest(h, a, n);
    assert Stripped(y, a, n) == Stripped(Halved(y, a, n), a, n);
  }

  lemma StripModulusRest(h: nat, a: nat, n: nat)
    requires Numbers(h, a, n)
    ensures Stripped(Side(24 * h + 2, Held(1, 24 * h + 2, 3), Held(-1, 16 * h + 1, 3), true, true), a, n) ==
            Side(12 * h + 1, Held(1, 60 * h + 5, 3), Held(-1, 40 * h + 3, 3), true, true)
  {
    hide Added, AddsExactly, Eighth, Part, Halved, Stripped;
    PartFacts();
    var x := Side(24 * h + 2, Held(1, 24 * h + 2, 3), Held(-1, 16 * h + 1, 3), true, true);
    AddLong(x.c, 1, n);
    AddLong(x.d, -1, a);
    var y := Side(12 * h + 1, Held(1, 60 * h + 5, 3), Held(-1, 40 * h + 3, 3), true, true);
    HalvedTo(x, y, 8 * h, a, n);
    StrippedTo(x, y, 6 * h, a, n);
  }

  lemma FirstDifference(h: nat, a: nat, n: nat)
    requires Numbers(h, a, n)
    ensures Reduced(First(a, 1, 0), Side(12 * h + 1, Held(1, 60 * h + 5, 3), Held(-1, 40 * h + 3, 3), true, true)) ==
            Side(52 * h + 4, Held(-1, 60 * h + 4, 2), Held(1, 40 * h + 3, 2), true, true)
  {
    hide LimbLen, Eighth, Part;
    PartFacts();
    BaseBelow();
    TwoLimbs(60 * h + 5);
    TwoLimbs(40 * h + 3);
  }

  lemma StripDifference(h: nat, a: nat, n: nat)
    requires Numbers(h, a, n)
    ensures Stripped(Side(52 * h + 4, Held(-1, 60 * h + 4, 2), Held(1, 40 * h + 3, 2), true, true), a, n) ==
            Side(13 * h + 1, Held(1, 57 * h + 5, 3), Held(-1, 38 * h + 3, 3), true, true)
  {
    hide Added, AddsExactly, Eighth, Part, Halved;
    PartFacts();
    var x := Side(52 * h + 4, Held(-1, 60 * h + 4, 2), Held(1, 40 * h + 3, 2), true, true);
    AddOpposite(x.c, 1, n);
    AddOpposite(x.d, -1, a);
    HalvedTo(x, Side(26 * h + 2, Held(1, 18 * h + 2, 3), Held(-1, 12 * h + 1, 3), true, true), 20 * h + 1, a, n);
    StripDifferenceRest(h, a, n);
    assert Stripped(x, a, n) == Stripped(Halved(x, a, n), a, n);
  }

  lemma StripDifferenceRest(h: nat, a: nat, n: nat)
    requires Numbers(h, a, n)
    ensures Stripped(Side(26 * h + 2, Held(1, 18 * h + 2, 3), Held(-1, 12 * h + 1, 3), true, true), a, n) ==
            Side(13 * h + 1, Held(1, 57 * h + 5, 3), Held(-1, 38 * h + 3, 3), true, true)
  {
    hide Added, AddsExactly, Eighth, Part, Halved, Stripped;
    PartFacts();
    var x := Side(26 * h + 2, Held(1, 18 * h + 2, 3), Held(-1, 12 * h + 1, 3), true, true);
    AddLong(x.c, 1, n);
    AddLong(x.d, -1, a);
    var y := Side(13 * h + 1, Held(1, 57 * h + 5, 3), Held(-1, 38 * h + 3, 3), true, true);
    HalvedTo(x, y, 6 * h, a, n);
    StrippedTo(x, y, 13 * (h / 2), a, n);
  }

  lemma SecondDifference(h: nat, a: nat, n: nat)
    requires Numbers(h, a, n)
    ensures Reduced(Side(13 * h + 1, Held(1, 57 * h + 5, 3), Held(-1, 38 * h + 3, 3), true, true),
                    Side(12 * h + 1, Held(1, 60 * h + 5, 3), Held(-1, 40 * h + 3, 3), true, true)) ==
            Side(h, Held(-1, 3 * h, 3), Held(1, 2 * h, 3), true, true)
  {
    hide Added, AddsExactly, Eighth, Part;
    PartFacts();
    AddOpposite(Held(1, 57 * h + 5, 3), -1, 60 * h + 5);
    AddOpposite(Held(-1, 38 * h + 3, 3), 1, 40 * h + 3);
  }

  /** A power of two is stripped to 1 together with coefficients that are even as long as it is. */
  lemma {:induction false} StripTriple(i: nat, a: nat, n: nat)
    ensures var e := Pow(2, i);
      Stripped(Side(e, Held(-1, 3 * e, 3), Held(1, 2 * e, 3), true, true), a, n) ==
      Side(1, Held(-1, 3, 3), Held(1, 2, 3), true, true)
    decreases i
  {
    hide Added, AddsExactly, Halved;
    if 0 < i {
      hide Pow;
      PowStep(2, i - 1);
      var e := Pow(2, i - 1);
      HalvedPlainly(Side(2 * e, Held(-1, 6 * e, 3), Held(1, 4 * e, 3), true, true),
                    Side(e, Held(-1, 3 * e, 3), Held(1, 2 * e, 3), true, true), a, n);
      StripTriple(i - 1, a, n);
    }
  }

  /** Three times a power of two is stripped to 3; the coefficients close in on N and -A. */
  lemma {:induction false} StripNinefold(i: nat, h: nat, a: nat, n: nat)
    requires Pow(2, i) <= 4 * h && Numbers(h, a, n)
    ensures var e := Pow(2, i);
      && 9 * e <= n && 6 * e <= a
      && Stripped(Side(3 * e, Held(1, n - 9 * e, 3), Held(-1, a - 6 * e, 3), true, true), a, n)
         == Side(3, Held(1, n - 9, 3), Held(-1, a - 6, 3), true, true)
    decreases i
  {
    hide Added, AddsExactly, Part, Halved;
    if 0 < i {
      hide Pow;
      PowStep(2, i - 1);
      NinefoldHalving(Pow(2, i - 1), h, a, n);
      StripNinefold(i - 1, h, a, n);
    }
  }

  lemma NinefoldHalving(e: nat, h: nat, a: nat, n: nat)
    requires 0 < e && 2 * e <= 4 * h && Numbers(h, a, n)
    ensures 18 * e <= n && 12 * e <= a
    ensures Halved(Side(6 * e, Held(1, n - 18 * e, 3), Held(-1, a - 12 * e, 3), true, true), a, n)
            == Side(3 * e, Held(1, n - 9 * e, 3), Held(-1, a - 6 * e, 3), true, true)
  {
    hide Added, AddsExactly, Eighth, Part, Halved;
    PartFacts();
    AddLong(Held(1, n - 18 * e, 3), 1, n);
    AddLong(Held(-1, a - 12 * e, 3), -1, a);
    HalvedTo(Side(6 * e, Held(1, n - 18 * e, 3), Held(-1, a - 12 * e, 3), true, true),
             Side(3 * e, Held(1, n - 9 * e, 3), Held(-1, a - 6 * e, 3), true, true), 32 * h + 2 - 6 * e, a, n);
  }

  lemma ThirdDifference(h: nat, a: nat, n: nat)
    requires Numbers(h, a, n)
    ensures Reduced(Side(12 * h + 1, Held(1, 60 * h + 5, 3), Held(-1, 40 * h + 3, 3), true, true),
                    Side(1, Held(-1, 3, 3), Held(1, 2, 3), true, true)) ==
            Side(12 * h, Held(1, n - 36 * h, 3), Held(-1, a - 24 * h, 3), true, true)
  {
    hide Added, AddsExactly, Eighth, Part;
    PartFacts();
    BaseFacts();
    PartOfBase();
    MulAssoc(60, BASE / 64, BASE);
    MulAssoc(40, BASE / 64, BASE);
    AddShort(Held(1, 60 * h + 5, 3), 1, 3, 60 * (BASE / 64), 5);
    AddShort(Held(-1, 40 * h + 3, 3), -1, 2, 40 * (BASE / 64), 3);
  }

  /** A carry into a limb that is not all ones is not lost. */
  lemma AddCarry(x: Held, s: int, m: nat, hi: nat, lo: nat)
    requires x.s == s && x.l == 3 && 0 < m < BASE && lo < BASE && x.m == hi * BASE + lo && hi % BASE != BASE - 1
    requires x.m + m < 41 * Eighth()
    ensures Added(x, s, m) == Held(s, x.m + m, 3) && AddsExactly(x, s, m)
  {
    hide Pow, LimbLen, Eighth;
    OneLimb(m);
    DivModUnique(x.m, BASE, hi, lo);
    StrayLength(x.m + m);
  }

  /** Only the second addition loses its carry. */
  lemma FourthDifference(h: nat, a: nat, n: nat)
    requires Numbers(h, a, n)
    ensures Reduced(Side(3, Held(1, n - 9, 3), Held(-1, a - 6, 3), true, true),
                    Side(1, Held(-1, 3, 3), Held(1, 2, 3), true, true)) ==
            Side(2, Held(1, 96 * h + 2, 3), Held(-1, BASE + 1, 3), true, false)
  {
    hide Added, AddsExactly, Eighth, Part;
    PartFacts();
    BaseFacts();
    FourthKept(h);
    FourthLost(h);
  }

  lemma FourthKept(h: nat)
    requires h == Part()
    ensures 0 < h && Added(Held(1, 96 * h - 1, 3), 1, 3) == Held(1, 96 * h + 2, 3)
    ensures AddsExactly(Held(1, 96 * h - 1, 3), 1, 3)
  {
    hide Added, AddsExactly, Eighth, Part, Pow;
    PartFacts();
    BaseFacts();
    PartOfBase();
    var q := BASE / 64;
    HalfOnes(h, q, BASE);
    AddCarry(Held(1, 96 * h - 1, 3), 1, 3, 96 * q - 1, BASE - 1);
  }

  lemma HalfOnes(h: int, q: int, b: int)
    requires b == 64 * q && h == q * b && 0 < q
    ensures 96 * h - 1 == (96 * q - 1) * b + (b - 1) && (96 * q - 1) % b != b - 1
  {
    MulAssoc(96, q, b);
    assert (96 * q - 1) * b == (96 * q) * b - b;
    DivModUnique(96 * q - 1, b, 1, 32 * q - 1);
  }

  lemma FourthLost(h: nat)
    requires h == Part()
    ensures 0 < h && Added(Held(-1, 64 * h - 1, 3), -1, 2) == Held(-1, BASE + 1, 3)
    ensures !AddsExactly(Held(-1, 64 * h - 1, 3), -1, 2)
  {
    hide Added, AddsExactly, Eighth, Part, Pow, CarryMeetsOnes;
    PartFacts();
    BaseFacts();
    OnesParts(8 * h);
    MoreCarry(64 * h - 1);
    AddStray(Held(-1, 64 * h - 1, 3), -1, 2);
  }

  lemma MoreCarry(x: nat)
    requires CarryMeetsOnes(x, 1)
    ensures CarryMeetsOnes(x, 2)
  {
  }

  lemma LastHalving(h: nat, a: nat, n: nat)
    requires Numbers(h, a, n)
    ensures Stripped(Side(2, Held(1, 96 * h + 2, 3), Held(-1, BASE + 1, 3), true, false), a, n) ==
            Side(1, Held(1, 96 * h + 5, 3), Held(-1, 32 * h + BASE / 2 + 3, 3), true, false)
  {
    hide Added, AddsExactly, Eighth, Part, Halved, Pow, Stripped;
    PartFacts();
    BaseFacts();
    BaseBelow();
    var x := Side(2, Held(1, 96 * h + 2, 3), Held(-1, BASE + 1, 3), true, false);
    AddLong(x.c, 1, n);
    AddLong(x.d, -1, a);
    var y := Side(1, Held(1, 96 * h + 5, 3), Held(-1, 32 * h + BASE / 2 + 3, 3), true, false);
    HalvedTo(x, y, BASE / 2, a, n);
    StrippedTo(x, y, 0, a, n);
  }

  /** What the run ends with. */
  lemma RunEnds(h: nat, a: nat, n: nat)
    requires Numbers(h, a, n)
    ensures Inverse(a, n).c == Held(1, n - 3, 3) && !Inverse(a, n).subs && Inverse(a, n).strips
  {
    hide Run, Reduced, Stripped, Eighth, Part;
    PartFacts();
    var u := Side(13 * h + 1, Held(1, 57 * h + 5, 3), Held(-1, 38 * h + 3, 3), true, true);
    var v := Side(12 * h + 1, Held(1, 60 * h + 5, 3), Held(-1, 40 * h + 3, 3), true, true);
    var w := Side(1, Held(-1, 3, 3), Held(1, 2, 3), true, true);
    var x := Side(3, Held(1, n - 9, 3), Held(-1, a - 6, 3), true, true);
    StrippedOdd(First(a, 1, 0), a, n);
    StripModulus(h, a, n);
    FirstDifference(h, a, n);
    RunStep(First(a, 1, 0), First(n, 0, 1), First(a, 1, 0), v, a, n);
    StrippedOdd(v, a, n);
    StripDifference(h, a, n);
    SecondDifference(h, a, n);
    RunStep(Reduced(First(a, 1, 0), v), v, u, v, a, n);
    StripPowers(h, a, n);
    ThirdDifference(h, a, n);
    RunStep(Reduced(u, v), v, w, v, a, n);
    StrippedOdd(w, a, n);
    FourthDifference(h, a, n);
    RunStep(w, Reduced(v, w), w, x, a, n);
    LastHalving(h, a, n);
    RunStep(w, Reduced(x, w), w, Stripped(Reduced(x, w), a, n), a, n);
  }

  lemma StripPowers(h: nat, a: nat, n: nat)
    requires Numbers(h, a, n)
    ensures Stripped(Side(h, Held(-1, 3 * h, 3), Held(1, 2 * h, 3), true, true), a, n) ==
            Side(1, Held(-1, 3, 3), Held(1, 2, 3), true, true)
    ensures Stripped(Side(12 * h, Held(1, n - 36 * h, 3), Held(-1, a - 24 * h, 3), true, true), a, n) ==
            Side(3, Held(1, n - 9, 3), Held(-1, a - 6, 3), true, true)
  {
    hide Pow, Stripped;
    PowAdd(2, 2, 2 * LIMB_BITS - 6);
    PowAdd(2, 1, 1);
    SmallPowers();
    StripTriple(2 * LIMB_BITS - 6, a, n);
    StripNinefold(2 * LIMB_BITS - 4, h, a, n);
  }

  /** A carry is lost on the way to the result, and the result is the inverse: that no lost carry has
      gone into a result is enough for it to be right, and not necessary. */
  lemma LossWithoutHarm()
    ensures var a: nat, n: nat := 64 * Part() + 5, 96 * Part() + 8;
      && 0 < a < n && Gcd(a, n) == 1
      && !Inverse(a, n).Exact() && Cong(Inverse(a, n).c.V() * a, 1, n)
  {
    hide Inverse, Part, Gcd, Cong;
    PartFacts();
    var h := Part();
    var a: nat, n: nat := 64 * h + 5, 96 * h + 8;
    RunEnds(h, a, n);
    MinusThreeInverts(a, n);
  }

  lemma MinusThreeInverts(a: nat, n: nat)
    requires 0 < a && 3 < n && 2 * n == 3 * a + 1
    ensures Gcd(a, n) == 1 && Cong((n - 3) * a, 1, n)
  {
    hide Gcd, Divides, Cong;
    GcdIsGcd(a, n);
    var g := Gcd(a, n);
    DividesCombination(g, n, a, 2, -3);
    DividesLeq(g, 1);
    assert (n - 3) * a - 1 == (a - 2) * n;
    CongIntro((n - 3) * a, 1, n, a - 2);
  }
}
