/** Numbers of three limbs whose inverse mpi_inv_mod gets wrong, at every limb width: the residue
    BASE^2 + 2 modulo 2 * BASE^2 + 5. */
module InverseLoss {
  import opened Arithmetic
  import opened NumberTheory
  import opened Limbs
  import opened Mpis
  import opened InverseRun

  /** The power of two that the numbers are made of. */
  function Eighth(): nat { Pow(2, 2 * LIMB_BITS - 3) }

  lemma EighthFacts()
    ensures BASE * BASE == 8 * Eighth() == Pow(BASE, 2) && 65536 <= Eighth() && Eighth() % 2 == 0
    ensures 41 * Eighth() < Pow(BASE, 3)
  {
    hide Pow, Eighth;
    BaseFacts();
    EighthIsPower();
    PowStep(BASE, 0);
    PowStep(BASE, 1);
    PowStep(BASE, 2);
    MulMono(6, BASE, Pow(BASE, 2));
  }

  lemma EighthEven()
    ensures 65536 <= Eighth() && Eighth() % 2 == 0
  {
    hide Pow, Eighth;
    EighthIsPower();
  }

  lemma EighthIsPower()
    ensures 8 * Eighth() == Pow(BASE, 2) && 65536 <= Eighth() && Eighth() % 2 == 0
  {
    hide Pow;
    BaseFacts();
    PowPow(2, LIMB_BITS, 2);
    PowAdd(2, 3, 2 * LIMB_BITS - 3);
    PowAdd(2, 1, 2 * LIMB_BITS - 4);
    PowMono(2, 16, 2 * LIMB_BITS - 3);
    SmallPowers();
  }

  lemma SmallPowers()
    ensures Pow(2, 1) == 2 && Pow(2, 3) == 8 && 65536 <= Pow(2, 16)
  {
    PowAdd(2, 8, 8);
    PowAdd(2, 4, 4);
  }

  function Residue(): nat { 8 * Eighth() + 2 }

  function Modulus(): nat { 16 * Eighth() + 5 }

  // ---- additions to a coefficient of three limbs ----

  lemma AddLong(x: Held, s: int, m: nat)
    requires x.s == s && x.l <= 3 && 8 * Eighth() <= m && x.m + m < 41 * Eighth()
    ensures Added(x, s, m) == Held(s, x.m + m, 3) && AddsExactly(x, s, m)
  {
    hide Pow, LimbLen, Eighth;
    EighthFacts();
    LongEnough(m);
    LongEnough(x.m + m);
  }

  lemma LongEnough(m: nat)
    requires 8 * Eighth() <= m < 41 * Eighth()
    ensures LimbLen(m) == 3
  {
    hide Pow, LimbLen, Eighth;
    EighthFacts();
    LimbLenIs(m, 3);
  }

  lemma AddOpposite(x: Held, s: int, m: nat)
    requires x.s == -s && s != 0 && x.l <= 3 && m < 41 * Eighth()
    requires x.l == 3 || (8 * Eighth() <= m && x.m < m)
    ensures Added(x, s, m) == (if m <= x.m then Held(x.s, x.m - m, 3) else Held(s, m - x.m, 3))
    ensures AddsExactly(x, s, m)
  {
    hide Pow, LimbLen, Eighth;
    EighthFacts();
    if 8 * Eighth() <= m {
      LongEnough(m);
    } else {
      LimbLenLeq(m, 3);
    }
  }

  lemma OneLimb(m: nat)
    requires 0 < m < BASE
    ensures LimbLen(m) == 1 && Pow(BASE, 1) == BASE
  {
    hide Pow, LimbLen;
    PowStep(BASE, 0);
    LimbLenIs(m, 1);
  }

  lemma AddShort(x: Held, s: int, m: nat, hi: nat, lo: nat)
    requires x.s == s && x.l == 3 && 0 < m < BASE && x.m == hi * BASE + lo && lo + m < BASE
    requires x.m + m < 41 * Eighth()
    ensures Added(x, s, m) == Held(s, x.m + m, 3) && AddsExactly(x, s, m)
  {
    hide Pow, LimbLen, Eighth;
    EighthFacts();
    OneLimb(m);
    DivModUnique(x.m, BASE, hi, lo);
    LimbLenLeq(x.m + m, 3);
  }

  /** A carry out of the lowest limb goes astray in the limb of ones above it. */
  ghost predicate CarryMeetsOnes(x: nat, m: nat) {
    (x / BASE) % BASE == BASE - 1 && BASE <= x % BASE + m
  }

  lemma AddStray(x: Held, s: int, m: nat)
    requires x.s == s && x.l == 3 && 0 < m < BASE && x.m + m < 41 * Eighth() && CarryMeetsOnes(x.m, m)
    ensures 8 * Eighth() <= x.m + m + BASE
    ensures Added(x, s, m) == Held(s, x.m + m + BASE - 8 * Eighth(), 3) && !AddsExactly(x, s, m)
  {
    hide Pow, LimbLen, Eighth, Sum, SumLoses, CarryMeetsOnes;
    OneLimbLost(x, m);
    StrayLength(Sum(x, m));
    OneLimb(m);
  }

  lemma StrayLength(m: nat)
    requires m < 41 * Eighth()
    ensures LimbLen(m) <= 3
  {
    hide Pow, LimbLen, Eighth;
    EighthFacts();
    LimbLenLeq(m, 3);
  }

  lemma OneLimbLost(x: Held, m: nat)
    requires 2 < x.l && 0 < m < BASE && CarryMeetsOnes(x.m, m)
    ensures SumLoses(x, m) && Sum(x, m) == x.m + m + BASE - 8 * Eighth() <= x.m + m
  {
    hide Pow, LimbLen, Eighth, SumLoses, CarryMeetsOnes;
    OneLimbLoses(x, m);
    OneLimb(m);
    BaseBelow();
    LostWeight();
  }

  lemma OneLimbLoses(x: Held, m: nat)
    requires 2 < x.l && 0 < m < BASE && CarryMeetsOnes(x.m, m)
    ensures SumLoses(x, m)
  {
    hide Pow, LimbLen;
    OneLimb(m);
  }

  lemma LostWeight()
    ensures (BASE - 1) * BASE == 8 * Eighth() - BASE
  {
    hide Pow, Eighth;
    EighthFacts();
    LessOne(BASE);
  }

  lemma LessOne(b: int)
    ensures (b - 1) * b == b * b - b
  {
  }

  lemma OnesBelow(x: int, top: nat, b: int)
    requires 0 < b && x == (top + 1) * (b * b) - 1
    ensures (x / b) % b == b - 1 && x % b == b - 1
  {
    var q := top * b + (b - 1);
    MulAssoc(top, b, b);
    assert q * b == (top * b) * b + (b - 1) * b;
    DivModUnique(x, b, q, b - 1);
    DivModUnique(q, b, top, b - 1);
  }

  // ---- the run ----

  /** A halving to side y by way of the sums with N and -A. */
  lemma HalvedTo(x: Side, y: Side, k: nat, a: nat, n: nat)
    requires (x.c.m == 2 * k + 1 || x.d.m == 2 * k + 1) && x.t == 2 * y.t && x.strips == y.strips && x.subs == y.subs
    requires Added(x.c, 1, n) == Held(y.c.s, 2 * y.c.m, y.c.l) && AddsExactly(x.c, 1, n)
    requires Added(x.d, -1, a) == Held(y.d.s, 2 * y.d.m, y.d.l) && AddsExactly(x.d, -1, a)
    ensures Halved(x, a, n) == y
  {
    hide Added, AddsExactly;
  }

  /** The first strip loop and subtraction. */
  lemma FirstRound(e: nat, a: nat, n: nat)
    requires e == Eighth() && a == 8 * e + 2 && n == 16 * e + 5
    ensures var u := Side(4 * e + 1, Held(1, 8 * e + 3, 3), Held(-1, 4 * e + 1, 3), true, true);
      && Stripped(First(a, 1, 0), a, n) == u
      && Reduced(First(n, 0, 1), u) == Side(12 * e + 4, Held(-1, 8 * e + 3, 3), Held(1, 4 * e + 2, 2), true, true)
  {
    hide Added, AddsExactly, Eighth, Halved;
    EighthEven();
    FirstHalving(e, a, n);
    AddOpposite(Held(1, 0, 1), -1, 8 * e + 3);
    AddTwoLimbs();
  }

  lemma FirstHalving(e: nat, a: nat, n: nat)
    requires e == Eighth() && a == 8 * e + 2 && n == 16 * e + 5
    ensures Halved(First(a, 1, 0), a, n) == Side(4 * e + 1, Held(1, 8 * e + 3, 3), Held(-1, 4 * e + 1, 3), true, true)
  {
    hide Added, AddsExactly, Eighth, Halved;
    EighthEven();
    AddFresh(Held(1, 1, 1), 1, n);
    AddOpposite(Held(1, 0, 1), -1, a);
    HalvedTo(First(a, 1, 0), Side(4 * e + 1, Held(1, 8 * e + 3, 3), Held(-1, 4 * e + 1, 3), true, true), 0, a, n);
  }

  lemma AddFresh(x: Held, s: int, m: nat)
    requires x == Held(s, 1, 1) && 8 * Eighth() <= m < 40 * Eighth()
    ensures Added(x, s, m) == Held(s, m + 1, 3) && AddsExactly(x, s, m)
  {
    hide Added, AddsExactly, Eighth, Halved;
    EighthEven();
    AddLong(x, s, m);
  }

  lemma AddTwoLimbs()
    ensures Added(Held(1, 1, 1), 1, 4 * Eighth() + 1) == Held(1, 4 * Eighth() + 2, 2)
    ensures AddsExactly(Held(1, 1, 1), 1, 4 * Eighth() + 1)
  {
    hide Pow, LimbLen, Eighth;
    EighthIsPower();
    BaseFacts();
    BaseBelow();
    OneLimb(1);
    LimbLenIs(4 * Eighth() + 1, 2);
    LimbLenIs(4 * Eighth() + 2, 2);
  }

  lemma SecondRound(e: nat, a: nat, n: nat)
    requires e == Eighth() && a == 8 * e + 2 && n == 16 * e + 5
    ensures var u := Side(4 * e + 1, Held(1, 8 * e + 3, 3), Held(-1, 4 * e + 1, 3), true, true);
      var v := Side(3 * e + 1, Held(1, 10 * e + 3, 3), Held(-1, 5 * e + 1, 3), true, true);
      && Stripped(Side(12 * e + 4, Held(-1, 8 * e + 3, 3), Held(1, 4 * e + 2, 2), true, true), a, n) == v
      && Reduced(u, v) == Side(e, Held(-1, 2 * e, 3), Held(1, e, 3), true, true)
  {
    hide Added, AddsExactly, Eighth, Halved;
    EighthEven();
    SecondHalvings(e, a, n);
    SecondHalvingsRest(e, a, n);
    var v := Side(3 * e + 1, Held(1, 10 * e + 3, 3), Held(-1, 5 * e + 1, 3), true, true);
    assert Stripped(v, a, n) == v;
    assert Stripped(Side(6 * e + 2, Held(1, 4 * e + 1, 3), Held(-1, 2 * e, 3), true, true), a, n) == v;
    AddOpposite(Held(1, 8 * e + 3, 3), -1, 10 * e + 3);
    AddOpposite(Held(-1, 4 * e + 1, 3), 1, 5 * e + 1);
  }

  lemma SecondHalvings(e: nat, a: nat, n: nat)
    requires e == Eighth() && a == 8 * e + 2 && n == 16 * e + 5
    ensures Halved(Side(12 * e + 4, Held(-1, 8 * e + 3, 3), Held(1, 4 * e + 2, 2), true, true), a, n)
            == Side(6 * e + 2, Held(1, 4 * e + 1, 3), Held(-1, 2 * e, 3), true, true)
  {
    hide Added, AddsExactly, Eighth, Halved;
    EighthEven();
    AddOpposite(Held(-1, 8 * e + 3, 3), 1, n);
    AddOpposite(Held(1, 4 * e + 2, 2), -1, a);
    HalvedTo(Side(12 * e + 4, Held(-1, 8 * e + 3, 3), Held(1, 4 * e + 2, 2), true, true),
             Side(6 * e + 2, Held(1, 4 * e + 1, 3), Held(-1, 2 * e, 3), true, true), 4 * e + 1, a, n);
  }

  lemma SecondHalvingsRest(e: nat, a: nat, n: nat)
    requires e == Eighth() && a == 8 * e + 2 && n == 16 * e + 5
    ensures Halved(Side(6 * e + 2, Held(1, 4 * e + 1, 3), Held(-1, 2 * e, 3), true, true), a, n)
            == Side(3 * e + 1, Held(1, 10 * e + 3, 3), Held(-1, 5 * e + 1, 3), true, true)
  {
    hide Added, AddsExactly, Eighth, Halved;
    EighthEven();
    AddLong(Held(1, 4 * e + 1, 3), 1, n);
    AddLong(Held(-1, 2 * e, 3), -1, a);
    HalvedTo(Side(6 * e + 2, Held(1, 4 * e + 1, 3), Held(-1, 2 * e, 3), true, true),
             Side(3 * e + 1, Held(1, 10 * e + 3, 3), Held(-1, 5 * e + 1, 3), true, true), 2 * e, a, n);
  }

  /** A power of two is stripped to 1 together with coefficients that are even as long as it is. */
  lemma {:induction false} StripPower(i: nat, a: nat, n: nat)
    ensures var e := Pow(2, i);
      Stripped(Side(e, Held(-1, 2 * e, 3), Held(1, e, 3), true, true), a, n) == Side(1, Held(-1, 2, 3), Held(1, 1, 3), true, true)
    decreases i
  {
    hide Added, AddsExactly;
    if 0 < i {
      hide Pow;
      PowStep(2, i - 1);
      var e := Pow(2, i - 1);
      assert Halved(Side(2 * e, Held(-1, 4 * e, 3), Held(1, 2 * e, 3), true, true), a, n) ==
             Side(e, Held(-1, 2 * e, 3), Held(1, e, 3), true, true);
      StripPower(i - 1, a, n);
    }
  }

  /** Three times a power of two is stripped to 3; the coefficients close in on N and -A. */
  lemma {:induction false} StripThrice(i: nat, a: nat, n: nat)
    requires Pow(2, i) <= Eighth() && a == Residue() && n == Modulus()
    ensures var e := Pow(2, i);
      && 6 * e <= n && 3 * e <= a
      && Stripped(Side(3 * e, Held(1, n - 6 * e, 3), Held(-1, a - 3 * e, 3), true, true), a, n)
         == Side(3, Held(1, n - 6, 3), Held(-1, a - 3, 3), true, true)
    decreases i
  {
    hide Added, AddsExactly, Eighth, Halved;
    if 0 < i {
      hide Pow;
      PowStep(2, i - 1);
      ThriceHalving(Pow(2, i - 1), a, n);
      StripThrice(i - 1, a, n);
    }
  }

  lemma ThriceHalving(e: nat, a: nat, n: nat)
    requires 0 < e && 2 * e <= Eighth() && a == Residue() && n == Modulus()
    ensures 12 * e <= n && 6 * e <= a
    ensures Halved(Side(6 * e, Held(1, n - 12 * e, 3), Held(-1, a - 6 * e, 3), true, true), a, n)
            == Side(3 * e, Held(1, n - 6 * e, 3), Held(-1, a - 3 * e, 3), true, true)
  {
    hide Added, AddsExactly, Eighth, Halved;
    EighthEven();
    AddLong(Held(1, n - 12 * e, 3), 1, n);
    AddLong(Held(-1, a - 6 * e, 3), -1, a);
    HalvedTo(Side(6 * e, Held(1, n - 12 * e, 3), Held(-1, a - 6 * e, 3), true, true),
             Side(3 * e, Held(1, n - 6 * e, 3), Held(-1, a - 3 * e, 3), true, true), 8 * Eighth() + 2 - 6 * e, a, n);
  }

  lemma ThirdRound()
    ensures var e := Eighth();
      Reduced(Side(3 * e + 1, Held(1, 10 * e + 3, 3), Held(-1, 5 * e + 1, 3), true, true),
              Side(1, Held(-1, 2, 3), Held(1, 1, 3), true, true))
      == Side(3 * e, Held(1, Modulus() - 6 * e, 3), Held(-1, Residue() - 3 * e, 3), true, true)
  {
    hide Added, AddsExactly, Eighth;
    ThirdSums(Eighth());
  }

  lemma ThirdSums(e: nat)
    requires e == Eighth()
    ensures Added(Held(1, 10 * e + 3, 3), 1, 2) == Held(1, 10 * e + 5, 3)
    ensures Added(Held(-1, 5 * e + 1, 3), -1, 1) == Held(-1, 5 * e + 2, 3)
    ensures AddsExactly(Held(1, 10 * e + 3, 3), 1, 2) && AddsExactly(Held(-1, 5 * e + 1, 3), -1, 1)
  {
    hide Added, AddsExactly, Eighth, Halved;
    EighthEven();
    BaseFacts();
    EighthOfBase();
    ThirdParts(e, BASE / 8, BASE);
    AddShort(Held(1, 10 * e + 3, 3), 1, 2, 10 * (BASE / 8), 3);
    AddShort(Held(-1, 5 * e + 1, 3), -1, 1, 5 * (BASE / 8), 1);
  }

  lemma ThirdParts(e: int, h: int, b: int)
    requires e == h * b
    ensures 10 * e == (10 * h) * b && 5 * e == (5 * h) * b
  {
    MulAssoc(10, h, b);
    MulAssoc(5, h, b);
  }

  lemma EighthOfBase()
    ensures BASE == 8 * (BASE / 8) && Eighth() == (BASE / 8) * BASE
  {
    hide Pow, Eighth;
    EighthFacts();
    PowAdd(2, 3, LIMB_BITS - 3);
    SmallPowers();
    DivModUnique(BASE, 8, Pow(2, LIMB_BITS - 3), 0);
    MulAssoc(8, BASE / 8, BASE);
  }

  /** Both additions of the fourth round lose a carry. */
  lemma FourthRound()
    ensures var e := Eighth();
      Reduced(Side(3, Held(1, Modulus() - 6, 3), Held(-1, Residue() - 3, 3), true, true),
              Side(1, Held(-1, 2, 3), Held(1, 1, 3), true, true))
      == Side(2, Held(1, 8 * e + BASE + 1, 3), Held(-1, BASE, 3), true, false)
  {
    hide Added, AddsExactly, Eighth;
    FourthSums(Eighth());
  }

  lemma FourthSums(e: nat)
    requires e == Eighth()
    ensures 1 <= e
    ensures Added(Held(1, 16 * e - 1, 3), 1, 2) == Held(1, 8 * e + BASE + 1, 3)
    ensures Added(Held(-1, 8 * e - 1, 3), -1, 1) == Held(-1, BASE, 3)
    ensures !AddsExactly(Held(1, 16 * e - 1, 3), 1, 2) && !AddsExactly(Held(-1, 8 * e - 1, 3), -1, 1)
  {
    hide Added, AddsExactly, Eighth, CarryMeetsOnes;
    EighthEven();
    BaseFacts();
    OnesParts(e);
    AddStray(Held(1, 16 * e - 1, 3), 1, 2);
    AddStray(Held(-1, 8 * e - 1, 3), -1, 1);
  }

  lemma OnesParts(e: nat)
    requires e == Eighth()
    ensures 0 < e && CarryMeetsOnes(16 * e - 1, 2) && CarryMeetsOnes(8 * e - 1, 1)
  {
    hide Eighth, Pow;
    BaseFacts();
    EighthFacts();
    OnesBelow(16 * e - 1, 1, BASE);
    OnesBelow(8 * e - 1, 0, BASE);
  }

  lemma LastStrip()
    ensures var e := Eighth();
      Stripped(Side(2, Held(1, 8 * e + BASE + 1, 3), Held(-1, BASE, 3), true, false), Residue(), Modulus())
      == Side(1, Held(1, 12 * e + BASE / 2 + 3, 3), Held(-1, 4 * e + BASE / 2 + 1, 3), true, false)
  {
    hide Halved, Eighth;
    BaseFacts();
    BaseBelow();
    EighthEven();
    LastSums(Eighth(), BASE);
  }

  lemma LastSums(e: nat, b: nat)
    requires e == Eighth() && b < e && e % 2 == 0 && b % 2 == 0
    ensures Halved(Side(2, Held(1, 8 * e + b + 1, 3), Held(-1, b, 3), true, false), Residue(), Modulus())
            == Side(1, Held(1, 12 * e + b / 2 + 3, 3), Held(-1, 4 * e + b / 2 + 1, 3), true, false)
  {
    hide Added, AddsExactly, Eighth, Halved;
    AddLong(Held(1, 8 * e + b + 1, 3), 1, Modulus());
    AddLong(Held(-1, b, 3), -1, Residue());
    HalvedTo(Side(2, Held(1, 8 * e + b + 1, 3), Held(-1, b, 3), true, false),
             Side(1, Held(1, 12 * e + b / 2 + 3, 3), Held(-1, 4 * e + b / 2 + 1, 3), true, false), 4 * e + b / 2,
             Residue(), Modulus());
  }

  lemma BaseBelow()
    ensures BASE < Eighth()
  {
    hide Pow, Eighth;
    BaseFacts();
    EighthOfBase();
    MulMono(2, BASE / 8, BASE);
  }

  lemma StrippedOdd(x: Side, a: nat, n: nat)
    requires x.t % 2 == 1
    ensures Stripped(x, a, n) == x
  {
  }

  lemma RunStep(u: Side, v: Side, x: Side, y: Side, a: nat, n: nat)
    requires 0 < u.t && 0 < v.t && x == Stripped(u, a, n) && y == Stripped(v, a, n)
    ensures Run(u, v, a, n) ==
      if x.t < y.t then Run(x, Reduced(y, x), a, n)
      else if x.t == y.t then y
      else Run(Reduced(x, y), y, a, n)
  {
    hide Stripped, Reduced;
  }

  /** The coefficient the run ends with. */
  lemma RunIs()
    ensures Inverse(Residue(), Modulus()).c == Held(1, 12 * Eighth() + BASE / 2 + 3, 3)
  {
    hide Run, Reduced, Stripped, Eighth;
    EighthEven();
    var e, a, n := Eighth(), Residue(), Modulus();
    var u := Side(4 * e + 1, Held(1, 8 * e + 3, 3), Held(-1, 4 * e + 1, 3), true, true);
    var v := Side(3 * e + 1, Held(1, 10 * e + 3, 3), Held(-1, 5 * e + 1, 3), true, true);
    var w := Side(1, Held(-1, 2, 3), Held(1, 1, 3), true, true);
    StrippedOdd(First(n, 0, 1), a, n);
    FirstRound(e, a, n);
    RunStep(First(a, 1, 0), First(n, 0, 1), u, First(n, 0, 1), a, n);
    StrippedOdd(u, a, n);
    SecondRound(e, a, n);
    RunStep(u, Reduced(First(n, 0, 1), u), u, v, a, n);
    StripEighth();
    StrippedOdd(v, a, n);
    ThirdRound();
    RunStep(Reduced(u, v), v, w, v, a, n);
    StrippedOdd(w, a, n);
    FourthRound();
    var x := Side(3, Held(1, n - 6, 3), Held(-1, a - 3, 3), true, true);
    RunStep(w, Reduced(v, w), w, x, a, n);
    LastStrip();
    RunStep(w, Reduced(x, w), w, Stripped(Reduced(x, w), a, n), a, n);
  }

  lemma StripEighth()
    ensures var e, a, n := Eighth(), Residue(), Modulus();
      && Stripped(Side(e, Held(-1, 2 * e, 3), Held(1, e, 3), true, true), a, n)
         == Side(1, Held(-1, 2, 3), Held(1, 1, 3), true, true)
      && Stripped(Side(3 * e, Held(1, n - 6 * e, 3), Held(-1, a - 3 * e, 3), true, true), a, n)
         == Side(3, Held(1, n - 6, 3), Held(-1, a - 3, 3), true, true)
  {
    hide Pow, Stripped;
    EighthEven();
    StripPower(2 * LIMB_BITS - 3, Residue(), Modulus());
    StripThrice(2 * LIMB_BITS - 3, Residue(), Modulus());
  }

  /** The residue has an inverse, but no number that the run yields is one. */
  lemma InverseGoesWrong(x: int)
    requires Cong(x, Inverse(Residue(), Modulus()).c.V(), Modulus())
    ensures 0 < Residue() < Modulus() && Gcd(Residue(), Modulus()) == 1
    ensures Cong((Modulus() - 2) * Residue(), 1, Modulus())
    ensures !Cong(x * Residue(), 1, Modulus())
  {
    hide Inverse, Cong, Eighth, Gcd;
    EighthEven();
    BaseBelow();
    RunIs();
    var a, n, v := Residue(), Modulus(), Inverse(Residue(), Modulus()).c.V();
    CoprimeFromUnit(a, n);
    MinusTwoInverts(a, n);
    if Cong(x * a, 1, n) {
      OnlyMinusTwo(x, a, n);
      CongSym(x, v, n);
      CongTrans(v, x, -2, n);
      NotMinusTwo(v, n);
    }
  }

  lemma CoprimeFromUnit(a: nat, n: nat)
    requires 0 < a && n == 2 * a + 1
    ensures Gcd(a, n) == 1
  {
    hide Gcd, Divides;
    GcdIsGcd(a, n);
    var g := Gcd(a, n);
    DividesCombination(g, n, a, 1, -2);
    DividesLeq(g, 1);
  }

  lemma MinusTwoInverts(a: int, n: int)
    requires 0 < n == 2 * a + 1
    ensures Cong((n - 2) * a, 1, n)
  {
    hide Cong;
    assert (n - 2) * a - 1 == (a - 1) * n;
    CongIntro((n - 2) * a, 1, n, a - 1);
  }

  lemma NotMinusTwo(x: int, n: int)
    requires 0 <= x && x + 2 < n
    ensures !Cong(x, -2, n)
  {
    DivModUnique(x + 2, n, 0, x + 2);
  }

  /** With n = 2a + 1 only numbers congruent to -2 invert a. */
  lemma OnlyMinusTwo(x: int, a: int, n: int)
    requires 0 < a && n == 2 * a + 1 && Cong(x * a, 1, n)
    ensures Cong(x, -2, n)
  {
    hide Cong;
    var k := CongElim(x * a, 1, n);
    assert x * n == 2 * (x * a) + x;
    assert x + 2 == (x - 2 * k) * n;
    CongIntro(x, -2, n, x - 2 * k);
  }
}
