/** When mpi_inv_mod is right, said of the algorithm on integers alone: the rounds of its run with the
    lengths that the coefficient buffers have then, and the subtractions whose last carry would meet a
    limb of ones below the end of a buffer. */
module CleanRun {
  import opened Arithmetic
  import opened NumberTheory
  import opened Limbs
  import opened Mpis
  import opened MpiShift
  import opened BinaryEuclid
  import opened InverseRun

  // ---- buffers ----

  /** The limbs of a buffer of l limbs that holds x after y is added to it in place. */
  function Room(l: nat, x: int, y: int): (r: nat)
    ensures l <= r
  {
    Max(Max(l, LimbLen(Abs(y))), LimbLen(Abs(x + y)))
  }

  /** x and y have one sign, and the carry out of the significant limbs of y meets a limb of ones of x
      that is not the last of the l limbs. */
  predicate MeetsOnes(l: nat, x: int, y: int) {
    var w := Pow(BASE, LimbLen(Abs(y)));
    && ((0 < x && 0 < y) || (x < 0 && y < 0))
    && LimbLen(Abs(y)) + 1 < l && (Abs(x) / w) % BASE == BASE - 1 && w <= Abs(x) % w + Abs(y)
  }

  // ---- the rounds of the run on integers ----

  /** The lengths of the buffers of U1 and U2, or of V1 and V2. */
  datatype Lengths = Lengths(c: nat, d: nat)

  /** A round: both sides and their buffers in front of the strip loops and behind them. */
  datatype Round = Round(u: Plain, v: Plain, lu: Lengths, lv: Lengths, x: Plain, y: Plain, lx: Lengths, ly: Lengths)

  function HalvedLengths(z: Plain, l: Lengths, a: nat, n: nat): Lengths {
    if z.c % 2 == 1 || z.d % 2 == 1 then Lengths(Room(l.c, z.c, n), Room(l.d, z.d, 0 - a)) else l
  }

  function StrippedLengths(z: Plain, l: Lengths, a: nat, n: nat): Lengths
    requires 0 < z.t
    decreases z.t
  {
    if z.t % 2 == 1 then l else StrippedLengths(PlainHalved(z, a, n), HalvedLengths(z, l, a, n), a, n)
  }

  /** The buffers of side x after side y is subtracted from it. */
  function ReducedLengths(x: Plain, l: Lengths, y: Plain): Lengths {
    Lengths(Room(l.c, x.c, -y.c), Room(l.d, x.d, -y.d))
  }

  function Rounds(u: Plain, v: Plain, lu: Lengths, lv: Lengths, a: nat, n: nat): (rs: seq<Round>)
    requires 0 < u.t && 0 < v.t
    ensures 0 < |rs|
    decreases u.t + v.t
  {
    var x, y := PlainStripped(u, a, n), PlainStripped(v, a, n);
    var lx, ly := StrippedLengths(u, lu, a, n), StrippedLengths(v, lv, a, n);
    [Round(u, v, lu, lv, x, y, lx, ly)] +
      if x.t < y.t then Rounds(x, PlainReduced(y, x), lx, ReducedLengths(y, ly, x), a, n)
      else if x.t == y.t then []
      else Rounds(PlainReduced(x, y), y, ReducedLengths(x, lx, y), ly, a, n)
  }

  /** The rounds of mpi_inv_mod for residue a and modulus n; every buffer starts with one limb. */
  function RoundsOf(a: nat, n: nat): (rs: seq<Round>)
    requires 0 < a && 0 < n
    ensures 0 < |rs|
  {
    Rounds(Plain(a, 1, 0), Plain(n, 0, 1), Lengths(1, 1), Lengths(1, 1), a, n)
  }

  /** No subtraction of the round loses a carry. */
  predicate CleanRound(r: Round) {
    if r.x.t < r.y.t then !MeetsOnes(r.ly.c, r.y.c, -r.x.c) && !MeetsOnes(r.ly.d, r.y.d, -r.x.d)
    else if r.x.t == r.y.t then true
    else !MeetsOnes(r.lx.c, r.x.c, -r.y.c) && !MeetsOnes(r.lx.d, r.x.d, -r.y.d)
  }

  /** No addition of a strip loop loses a carry. */
  predicate CleanStrips(z: Plain, l: Lengths, a: nat, n: nat)
    requires 0 < z.t
    decreases z.t
  {
    z.t % 2 == 1 ||
    (&& (z.c % 2 == 1 || z.d % 2 == 1 ==> !MeetsOnes(l.c, z.c, n) && !MeetsOnes(l.d, z.d, 0 - a))
     && CleanStrips(PlainHalved(z, a, n), HalvedLengths(z, l, a, n), a, n))
  }

  /** No strip loop of the round does. */
  predicate CleanStart(r: Round, a: nat, n: nat) {
    0 < r.u.t && 0 < r.v.t && CleanStrips(r.u, r.lu, a, n) && CleanStrips(r.v, r.lv, a, n)
  }

  lemma CleanRoundIs(r: Round)
    ensures CleanRound(r) <==>
      && (r.x.t < r.y.t ==> !MeetsOnes(r.ly.c, r.y.c, -r.x.c) && !MeetsOnes(r.ly.d, r.y.d, -r.x.d))
      && (r.y.t < r.x.t ==> !MeetsOnes(r.lx.c, r.x.c, -r.y.c) && !MeetsOnes(r.lx.d, r.x.d, -r.y.d))
  {
  }

  // ---- what these definitions say, without limbs and recursion ----

  /** The least length that is not below l and holds both y and the sum. */
  lemma RoomIs(l: nat, x: int, y: int, k: nat)
    ensures Room(l, x, y) <= k <==> l <= k && Abs(y) < Pow(BASE, k) && Abs(x + y) < Pow(BASE, k)
  {
    hide LimbLen, Pow;
    LimbLenLeq(Abs(y), k);
    LimbLenLeq(Abs(x + y), k);
  }

  /** y has k significant limbs. */
  ghost predicate Significant(y: int, k: nat) {
    Abs(y) < Pow(BASE, k) && (0 < k ==> Pow(BASE, k - 1) <= Abs(y))
  }

  lemma MeetsOnesMeans(l: nat, x: int, y: int, k: nat)
    requires Significant(y, k)
    ensures 0 < BASE && 0 < Pow(BASE, k)
    ensures MeetsOnes(l, x, y) <==>
      && ((0 < x && 0 < y) || (x < 0 && y < 0)) && k + 1 < l
      && (Abs(x) / Pow(BASE, k)) % BASE == BASE - 1 && Pow(BASE, k) <= Abs(x) % Pow(BASE, k) + Abs(y)
  {
    hide LimbLen, Pow;
    BaseFacts();
    LimbLenIs(Abs(y), k);
  }

  /** z is y times 2^k after j times n is added to one coefficient and j times a taken from the other. */
  ghost predicate StripsBy(z: Plain, y: Plain, k: nat, j: nat, a: nat, n: nat) {
    && z.t == Pow(2, k) * y.t && j < Pow(2, k)
    && Pow(2, k) * y.c == z.c + j * n && Pow(2, k) * y.d == z.d - j * a
  }

  /** A strip loop divides the number by the largest power of two in it, and the coefficients with it
      after adding one multiple of n and subtracting the same multiple of a. */
  lemma StripIs(z: Plain, a: nat, n: nat) returns (k: nat, j: nat)
    requires 0 < z.t && Combines(z, a, n) && (a % 2 == 1 || n % 2 == 1)
    ensures var y := PlainStripped(z, a, n);
      && y.t % 2 == 1 && z.t == Pow(2, k) * y.t && j < Pow(2, k)
      && Pow(2, k) * y.c == z.c + j * n && Pow(2, k) * y.d == z.d - j * a
  {
    hide Combines, Pow;
    k, j := StripRun(z, a, n);
  }

  lemma {:induction false} StripRun(z: Plain, a: nat, n: nat) returns (k: nat, j: nat)
    requires 0 < z.t && Combines(z, a, n) && (a % 2 == 1 || n % 2 == 1)
    ensures PlainStripped(z, a, n).t % 2 == 1 && StripsBy(z, PlainStripped(z, a, n), k, j, a, n)
    decreases z.t
  {
    hide Pow, PlainHalved, Combines, StripsBy;
    if z.t % 2 == 1 {
      k, j := 0, 0;
      StripsNothing(z, a, n);
    } else {
      var h := PlainHalved(z, a, n);
      var e := if z.c % 2 == 1 || z.d % 2 == 1 then 1 else 0;
      HalvedCombines(z, a, n);
      HalvedTwice(z, a, n, e);
      k, j := StripRun(h, a, n);
      StripsOnceMore(z, h, PlainStripped(h, a, n), k, j, e, a, n);
      k, j := k + 1, e + 2 * j;
    }
  }

  lemma StripsNothing(z: Plain, a: nat, n: nat)
    ensures StripsBy(z, z, 0, 0, a, n)
  {
  }

  lemma StripsOnceMore(z: Plain, h: Plain, y: Plain, k: nat, j: nat, e: nat, a: nat, n: nat)
    requires StripsBy(h, y, k, j, a, n) && e <= 1
    requires 2 * h.t == z.t && 2 * h.c == z.c + e * n && 2 * h.d == z.d - e * a
    ensures StripsBy(z, y, k + 1, e + 2 * j, a, n)
  {
    hide Pow;
    var w := Pow(2, k);
    PowStep(2, k);
    MulAssoc(2, w, y.t);
    StripStep(w, y.c, h.c, z.c, j, e, n);
    StripStep(w, y.d, h.d, z.d, 0 - j, 0 - e, a);
  }

  lemma StripStep(w: int, y: int, h: int, z: int, j: int, e: int, n: int)
    requires w * y == h + j * n && 2 * h == z + e * n
    ensures (2 * w) * y == z + (e + 2 * j) * n
  {
    MulAssoc(2, w, y);
    assert (e + 2 * j) * n == e * n + 2 * (j * n);
  }

  lemma HalvedTwice(z: Plain, a: nat, n: nat, e: int)
    requires z.t % 2 == 0 && Combines(z, a, n) && (a % 2 == 1 || n % 2 == 1)
    requires e == if z.c % 2 == 1 || z.d % 2 == 1 then 1 else 0
    ensures var h := PlainHalved(z, a, n); 2 * h.t == z.t && 2 * h.c == z.c + e * n && 2 * h.d == z.d - e * a
  {
    hide Bezout;
    Parity(z.c, z.d, z.t, a, n);
  }

  /** z is what is left of y when x is subtracted from it, and y' that behind the next strip loop; the
      same for the lengths. */
  ghost predicate Follows(x: Plain, y: Plain, l: Lengths, z: Plain, k: Lengths, y': Plain, l': Lengths,
          a: nat, n: nat)
  {
    && x.t < y.t && z == Plain(y.t - x.t, y.c - x.c, y.d - x.d)
    && k == Lengths(Room(l.c, y.c, -x.c), Room(l.d, y.d, -x.d))
    && y' == PlainStripped(z, a, n) && l' == StrippedLengths(z, k, a, n)
  }

  ghost predicate Next(r: Round, s: Round, a: nat, n: nat) {
    if r.x.t < r.y.t then
      s.u == s.x == r.x && s.lu == s.lx == r.lx && Follows(r.x, r.y, r.ly, s.v, s.lv, s.y, s.ly, a, n)
    else
      s.v == s.y == r.y && s.lv == s.ly == r.ly && Follows(r.y, r.x, r.lx, s.u, s.lu, s.x, s.lx, a, n)
  }

  /** The first round is the start behind the strip loops, each round follows from the one before it by
      one subtraction and a strip loop, and the last one ends with equal numbers and the inverse. */
  lemma {:induction false} RoundsFollow(u: Plain, v: Plain, lu: Lengths, lv: Lengths, a: nat, n: nat, k: nat)
    requires 0 < u.t && 0 < v.t && k < |Rounds(u, v, lu, lv, a, n)|
    ensures var rs := Rounds(u, v, lu, lv, a, n);
      && rs[0] == Round(u, v, lu, lv, PlainStripped(u, a, n), PlainStripped(v, a, n),
                        StrippedLengths(u, lu, a, n), StrippedLengths(v, lv, a, n))
      && (k < |rs| - 1 ==> Next(rs[k], rs[k + 1], a, n))
      && (k == |rs| - 1 ==> rs[k].x.t == rs[k].y.t && rs[k].y == PlainRun(u, v, a, n))
    decreases u.t + v.t
  {
    hide PlainStripped, StrippedLengths, Room;
    var rs := Rounds(u, v, lu, lv, a, n);
    var r := rs[0];
    StrippedStays(r.x, r.lx, a, n, u);
    StrippedStays(r.y, r.ly, a, n, v);
    var next := if k == 0 then 0 else k - 1;
    if r.x.t < r.y.t {
      RoundsFollow(r.x, PlainReduced(r.y, r.x), r.lx, ReducedLengths(r.y, r.ly, r.x), a, n, next);
    } else if r.y.t < r.x.t {
      RoundsFollow(PlainReduced(r.x, r.y), r.y, ReducedLengths(r.x, r.lx, r.y), r.ly, a, n, next);
    }
  }

  /** A stripped side has nothing left to strip. */
  lemma StrippedStays(y: Plain, l: Lengths, a: nat, n: nat, z: Plain)
    requires 0 < z.t && y == PlainStripped(z, a, n)
    ensures 0 < y.t && PlainStripped(y, a, n) == y && StrippedLengths(y, l, a, n) == l
  {
  }

  // ---- the code's run is the run on integers as long as it is clean ----

  /** x holds the numbers of z exactly, in buffers of lengths l. */
  ghost predicate Matches(x: Side, z: Plain, l: Lengths) {
    && x.Signed() && x.Exact() && x.t == z.t && x.c.V() == z.c && x.d.V() == z.d
    && x.c.l == l.c && x.d.l == l.d && Fits(x.c) && Fits(x.d)
  }

  ghost predicate Fits(x: Held) { LimbLen(x.m) <= x.l }

  lemma MeetsIsLoss(x: Held, s: int, m: nat)
    requires x.Signed() && (s == 1 || s == -1)
    ensures AddsExactly(x, s, m) <==> !MeetsOnes(x.l, x.V(), s * m)
  {
    hide Pow, LimbLen;
    BaseFacts();
    assert Abs(s * m) == m && Abs(x.V()) == x.m;
    if m == 0 {
      LimbLenLeq(0, 0);
      PowStep(BASE, 0);
    } else if x.m == 0 {
      ZeroParts(Pow(BASE, LimbLen(m)));
    }
  }

  lemma ZeroParts(w: int)
    requires 0 < w
    ensures 0 / w == 0 && 0 % w == 0
  {
  }

  lemma LimbLenGrows(m: nat, k: nat)
    requires m <= k
    ensures LimbLen(m) <= LimbLen(k)
  {
    hide LimbLen, Pow;
    LimbLenLeq(k, LimbLen(k));
    LimbLenLeq(m, LimbLen(k));
  }

  /** An addition that loses nothing: value and buffer length. */
  lemma AddedMatches(x: Held, s: int, m: nat)
    requires x.Signed() && (s == 1 || s == -1) && Fits(x) && AddsExactly(x, s, m)
    ensures var y := Added(x, s, m);
      y.Signed() && y.V() == x.V() + s * m && y.l == Room(x.l, x.V(), s * m) && Fits(y)
  {
    hide LimbLen, Pow;
    AddedValue(x, s, m);
    assert Abs(s * m) == m && Abs(Added(x, s, m).V()) == Added(x, s, m).m;
    if x.s != s {
      if m <= x.m {
        LimbLenGrows(m, x.m);
        LimbLenGrows(x.m - m, x.m);
      } else {
        LimbLenGrows(m - x.m, m);
      }
    }
  }

  lemma HalfFits(x: Held)
    requires x.Signed() && Fits(x) && x.V() % 2 == 0
    ensures Half(x).Signed() && Fits(Half(x)) && Half(x).V() == x.V() / 2 && Half(x).l == x.l
  {
    hide LimbLen;
    HalfValue(x);
    LimbLenGrows(x.m / 2, x.m);
  }

  lemma HalvedMatches(x: Side, z: Plain, l: Lengths, a: nat, n: nat)
    requires Matches(x, z, l) && Combines(z, a, n) && z.t % 2 == 0 && (a % 2 == 1 || n % 2 == 1)
    requires Halved(x, a, n).strips
    ensures Matches(Halved(x, a, n), PlainHalved(z, a, n), HalvedLengths(z, l, a, n))
  {
    hide Added, AddsExactly, Half, Bezout, Fits, Room;
    Parity(z.c, z.d, z.t, a, n);
    HalfValue(x.c);
    HalfValue(x.d);
    if x.c.m % 2 == 1 || x.d.m % 2 == 1 {
      AddedMatches(x.c, 1, n);
      AddedMatches(x.d, -1, a);
      HalfFits(Added(x.c, 1, n));
      HalfFits(Added(x.d, -1, a));
    } else {
      HalfFits(x.c);
      HalfFits(x.d);
    }
  }

  /** A loss in a strip loop is not forgotten. */
  lemma {:induction false} StripsStay(x: Side, a: nat, n: nat)
    requires 0 < x.t && Stripped(x, a, n).strips
    ensures x.strips
    decreases x.t
  {
    hide Added, AddsExactly;
    if x.t % 2 == 0 {
      StripsStay(Halved(x, a, n), a, n);
    }
  }

  lemma {:induction false} StrippedMatches(x: Side, z: Plain, l: Lengths, a: nat, n: nat)
    requires 0 < x.t && Matches(x, z, l) && Combines(z, a, n) && (a % 2 == 1 || n % 2 == 1)
    requires Stripped(x, a, n).strips
    ensures Matches(Stripped(x, a, n), PlainStripped(z, a, n), StrippedLengths(z, l, a, n))
    decreases x.t
  {
    hide Combines, Halved, PlainHalved, HalvedLengths;
    if x.t % 2 == 0 {
      HalvedNumber(x, a, n);
      StripsStay(Halved(x, a, n), a, n);
      HalvedMatches(x, z, l, a, n);
      HalvedCombines(z, a, n);
      StrippedMatches(Halved(x, a, n), PlainHalved(z, a, n), HalvedLengths(z, l, a, n), a, n);
    }
  }

  lemma ReducedMatches(x: Side, y: Side, z: Plain, w: Plain, l: Lengths, k: Lengths)
    requires y.t <= x.t && Matches(x, z, l) && Matches(y, w, k)
    requires !MeetsOnes(l.c, z.c, -w.c) && !MeetsOnes(l.d, z.d, -w.d)
    ensures Matches(Reduced(x, y), PlainReduced(z, w), ReducedLengths(z, l, w))
  {
    hide Added, AddsExactly, MeetsOnes, Fits, Room;
    SignTimes(y.c);
    SignTimes(y.d);
    MeetsIsLoss(x.c, -y.c.s, y.c.m);
    MeetsIsLoss(x.d, -y.d.s, y.d.m);
    AddedMatches(x.c, -y.c.s, y.c.m);
    AddedMatches(x.d, -y.d.s, y.d.m);
  }

  lemma SignTimes(x: Held)
    requires x.Signed()
    ensures -x.s * x.m == -x.V()
  {
  }

  /** Each strip loop of the code within its bounds loses nothing. */
  lemma BoundedStrips(u: Side, v: Side, a: nat, n: nat, b: nat, e: nat, total: nat)
    requires 0 < u.t && 0 < v.t && 0 < a && 0 < n && 4 + total <= BASE && Bounded(u, v, a, n, b, e, total)
    requires Short(u, a, n) && Short(v, a, n) && u.strips && v.strips
    ensures Stripped(u, a, n).strips && Stripped(v, a, n).strips
    ensures Short(Stripped(u, a, n), a, n) && Short(Stripped(v, a, n), a, n)
  {
    hide Stripped, Short, Tame, Within, Bits;
    TameStripsShort(u, a, n, b, e, Bits(u, v), total);
    TameStripsShort(v, a, n, b, e, Bits(u, v), total);
  }

  /** A clean run of the integers is the run of the code. */
  lemma {:induction false} CleanIsExact(u: Side, v: Side, z: Plain, w: Plain, lu: Lengths, lv: Lengths,
          a: nat, n: nat, b: nat, e: nat, total: nat)
    requires 0 < u.t && 0 < v.t && Matches(u, z, lu) && Matches(v, w, lv)
    requires Combines(z, a, n) && Combines(w, a, n) && (a % 2 == 1 || n % 2 == 1) && 0 < a && 0 < n
    requires 4 + total <= BASE && Bounded(u, v, a, n, b, e, total) && Short(u, a, n) && Short(v, a, n)
    requires forall r :: r in Rounds(z, w, lu, lv, a, n) ==> CleanRound(r)
    ensures Run(u, v, a, n).Exact()
    decreases u.t + v.t
  {
    hide Combines, Stripped, PlainStripped, StrippedLengths, Reduced, PlainReduced, ReducedLengths;
    hide Bounded, Short, Below, Within, Bits, Cap, MeetsOnes, Fits;
    var x, y := Stripped(u, a, n), Stripped(v, a, n);
    var p, q := PlainStripped(z, a, n), PlainStripped(w, a, n);
    var lx, ly := StrippedLengths(z, lu, a, n), StrippedLengths(w, lv, a, n);
    BoundedStrips(u, v, a, n, b, e, total);
    StrippedMatches(u, z, lu, a, n);
    StrippedMatches(v, w, lv, a, n);
    StrippedCombines(z, a, n);
    StrippedCombines(w, a, n);
    var b', e' := StripsBounded(u, v, a, n, b, e, total);
    var bits := Bits(x, y);
    RoomAbove(b', n, bits, total);
    RoomAbove(e', a, bits, total);
    assert Round(z, w, lu, lv, p, q, lx, ly) in Rounds(z, w, lu, lv, a, n);
    if x.t < y.t {
      BitsSymmetric(x, y);
      ReducedMatches(y, x, q, p, ly, lx);
      ReducedCombines(q, p, a, n);
      ReducedShort(y, x, a, n, b', e');
      ReducedBounded(y, x, bits, a, n, b', e', total);
      CleanIsExact(x, Reduced(y, x), p, PlainReduced(q, p), lx, ReducedLengths(q, ly, p), a, n, b', e', total);
    } else if y.t < x.t {
      ReducedMatches(x, y, p, q, lx, ly);
      ReducedCombines(p, q, a, n);
      ReducedShort(x, y, a, n, b', e');
      ReducedBounded(x, y, bits, a, n, b', e', total);
      CleanIsExact(Reduced(x, y), y, PlainReduced(p, q), q, ReducedLengths(p, lx, q), ly, a, n, b', e', total);
    }
  }

  // ---- runs of any length ----

  lemma {:induction false} CleanStripsLoseNothing(x: Side, z: Plain, l: Lengths, a: nat, n: nat)
    requires 0 < x.t && Matches(x, z, l) && Combines(z, a, n) && (a % 2 == 1 || n % 2 == 1)
    requires CleanStrips(z, l, a, n)
    ensures Stripped(x, a, n).strips
    decreases x.t
  {
    hide Combines, PlainHalved, HalvedLengths, MeetsOnes, Halved;
    if x.t % 2 == 0 {
      HalvedNumber(x, a, n);
      CleanHalving(x, z, l, a, n);
      HalvedMatches(x, z, l, a, n);
      HalvedCombines(z, a, n);
      CleanStripsLoseNothing(Halved(x, a, n), PlainHalved(z, a, n), HalvedLengths(z, l, a, n), a, n);
    }
  }

  lemma CleanHalving(x: Side, z: Plain, l: Lengths, a: nat, n: nat)
    requires Matches(x, z, l)
    requires z.c % 2 == 1 || z.d % 2 == 1 ==> !MeetsOnes(l.c, z.c, n) && !MeetsOnes(l.d, z.d, 0 - a)
    ensures Halved(x, a, n).strips
  {
    hide Added, AddsExactly, MeetsOnes, Half, Fits;
    HalfValue(x.c);
    HalfValue(x.d);
    MeetsIsLoss(x.c, 1, n);
    MeetsIsLoss(x.d, -1, a);
  }

  /** Whatever the size of the numbers: a run on integers with clean strip loops and clean subtractions is
      the run of the code. */
  lemma {:induction false} AllCleanIsExact(u: Side, v: Side, z: Plain, w: Plain, lu: Lengths, lv: Lengths,
          a: nat, n: nat)
    requires 0 < u.t && 0 < v.t && Matches(u, z, lu) && Matches(v, w, lv)
    requires Combines(z, a, n) && Combines(w, a, n) && (a % 2 == 1 || n % 2 == 1) && 0 < a && 0 < n
    requires forall r :: r in Rounds(z, w, lu, lv, a, n) ==> CleanRound(r) && CleanStart(r, a, n)
    ensures Run(u, v, a, n).Exact()
    decreases u.t + v.t
  {
    hide Combines, Stripped, PlainStripped, StrippedLengths, PlainReduced, ReducedLengths, CleanStrips;
    hide Added, AddsExactly, MeetsOnes, Fits;
    var x, y := Stripped(u, a, n), Stripped(v, a, n);
    var p, q := PlainStripped(z, a, n), PlainStripped(w, a, n);
    var lx, ly := StrippedLengths(z, lu, a, n), StrippedLengths(w, lv, a, n);
    assert Round(z, w, lu, lv, p, q, lx, ly) in Rounds(z, w, lu, lv, a, n);
    CleanStripsLoseNothing(u, z, lu, a, n);
    CleanStripsLoseNothing(v, w, lv, a, n);
    StrippedMatches(u, z, lu, a, n);
    StrippedMatches(v, w, lv, a, n);
    StrippedCombines(z, a, n);
    StrippedCombines(w, a, n);
    if x.t < y.t {
      ReducedMatches(y, x, q, p, ly, lx);
      ReducedCombines(q, p, a, n);
      AllCleanIsExact(x, Reduced(y, x), p, PlainReduced(q, p), lx, ReducedLengths(q, ly, p), a, n);
    } else if y.t < x.t {
      ReducedMatches(x, y, p, q, lx, ly);
      ReducedCombines(p, q, a, n);
      AllCleanIsExact(Reduced(x, y), y, PlainReduced(p, q), q, ReducedLengths(p, lx, q), ly, a, n);
    }
  }

  /** If no addition of the run on integers loses a carry, no lost carry goes into the result. */
  lemma AllCleanInverse(a: nat, n: nat)
    requires 0 < a && 1 < n && Gcd(a, n) == 1
    requires forall r :: r in RoundsOf(a, n) ==> CleanRound(r) && CleanStart(r, a, n)
    ensures Inverse(a, n).Exact()
  {
    hide Gcd, Run, Rounds, CleanRound, CleanStart, Bezout, Pow;
    UnitBezout(a, n);
    OneOdd(a, n);
    FirstMatches(a, n);
    assert Combines(Plain(a, 1, 0), a, n) && Combines(Plain(n, 0, 1), a, n);
    AllCleanIsExact(First(a, 1, 0), First(n, 0, 1), Plain(a, 1, 0), Plain(n, 0, 1), Lengths(1, 1), Lengths(1, 1), a, n);
  }

  /** If no subtraction of the run on integers loses a carry, no lost carry goes into the result, for
      numbers too short for a strip loop to lose one. */
  lemma CleanInverse(a: nat, n: nat)
    requires 0 < a && 1 < n && Gcd(a, n) == 1 && 4 + TotalBits(a, n) <= BASE
    requires forall r :: r in RoundsOf(a, n) ==> CleanRound(r)
    ensures Inverse(a, n).Exact()
  {
    hide Gcd, Run, Rounds, CleanRound, Bounded, BitLen, Bezout, Pow;
    BaseFacts();
    UnitBezout(a, n);
    OneOdd(a, n);
    FirstBounded(a, n);
    FirstMatches(a, n);
    CleanIsExact(First(a, 1, 0), First(n, 0, 1), Plain(a, 1, 0), Plain(n, 0, 1), Lengths(1, 1), Lengths(1, 1),
                 a, n, n, a, TotalBits(a, n));
  }

  lemma FirstMatches(a: nat, n: nat)
    ensures Matches(First(a, 1, 0), Plain(a, 1, 0), Lengths(1, 1))
    ensures Matches(First(n, 0, 1), Plain(n, 0, 1), Lengths(1, 1))
  {
    hide LimbLen, Pow;
    BaseFacts();
    LimbLenLeq(0, 1);
    LimbLenLeq(1, 1);
    PowStep(BASE, 0);
  }
}
