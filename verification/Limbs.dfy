/** The limb: an unsigned machine word of 2, 4 or 8 octets, and the bits of a number held in limbs. */
module Limbs {
  import opened Arithmetic
  import opened Digits

  /** The width biL of t_int in bits: the proofs hold for every width the header can select. */
  type LimbBits = c: nat | c == 16 || c == 32 || c == 64 witness 32

  const LIMB_BITS: LimbBits
  const LIMB_BYTES: nat := LIMB_BITS / 8
  const BASE: nat := Pow(2, LIMB_BITS)

  lemma BaseFacts()
    ensures BASE == Pow(2, LIMB_BITS) && 16 <= LIMB_BITS && 65536 <= BASE && BASE % 2 == 0
    ensures BASE == Pow(256, LIMB_BYTES)
  {
    PowMono(2, 16, LIMB_BITS);
    assert Pow(2, 16) == Pow(2, 8) * Pow(2, 8) by { PowAdd(2, 8, 8); }
    assert Pow(2, 8) == 256 by { PowAdd(2, 4, 4); }
    PowAdd(2, 1, LIMB_BITS - 1);
    assert 8 * LIMB_BYTES == LIMB_BITS;
    PowPow(2, 8, LIMB_BYTES);
  }

  type limb = x: int | 0 <= x < BASE witness 0

  function Zeros(n: nat): (z: seq<limb>)
    ensures |z| == n && forall i :: 0 <= i < n ==> z[i] == 0
  {
    seq(n, _ => 0)
  }

  /** Addition and subtraction on t_int wrap around. */
  function WrapAdd(x: limb, y: limb): limb { if x + y < BASE then x + y else x + y - BASE }

  function WrapSub(x: limb, y: limb): limb { if y <= x then x - y else x - y + BASE }

  // ---- bits ----

  /** Bit k of v: (v >> k) & 1. */
  function Bit(v: nat, k: nat): (r: int)
    ensures 0 <= r <= 1
  {
    (v / Pow(2, k)) % 2
  }

  /** The number of bits up to and including the highest one bit. */
  function BitLen(v: nat): nat {
    if v == 0 then 0 else 1 + BitLen(v / 2)
  }

  lemma {:induction false} BitLenUnique(v: nat, k: nat)
    requires v < Pow(2, k) && (0 < k ==> Pow(2, k - 1) <= v)
    ensures BitLen(v) == k
  {
    if k == 1 {
      assert Pow(2, 1) == 2 && Pow(2, 0) == 1;
      assert v == 1 && v / 2 == 0;
    } else if k > 1 {
      assert Pow(2, k) == 2 * Pow(2, k - 1) && Pow(2, k - 1) == 2 * Pow(2, k - 2);
      assert v > 0;
      BitLenUnique(v / 2, k - 1);
    }
  }

  lemma {:induction false} BitLenBounds(v: nat)
    ensures v < Pow(2, BitLen(v))
    ensures if v == 0 then BitLen(v) == 0 else 0 < BitLen(v) && Pow(2, BitLen(v) - 1) <= v
  {
    if v > 0 {
      BitLenBounds(v / 2);
      assert Pow(2, BitLen(v)) == 2 * Pow(2, BitLen(v / 2));
      if v / 2 > 0 {
        assert Pow(2, BitLen(v) - 1) == 2 * Pow(2, BitLen(v / 2) - 1);
      }
    }
  }

  lemma BitLenLess(v: nat, k: nat)
    ensures BitLen(v) <= k <==> v < Pow(2, k)
  {
    hide Pow, BitLen;
    BitLenBounds(v);
    if BitLen(v) <= k {
      PowMono(2, BitLen(v), k);
    } else {
      PowMono(2, k, BitLen(v) - 1);
    }
  }

  /** The highest bit of low + x * 2^e, for low < 2^e, is e places above that of x. */
  lemma BitLenTop(low: nat, x: nat, e: nat)
    requires low < Pow(2, e) && 0 < x
    ensures 0 <= x * Pow(2, e) && BitLen(low + x * Pow(2, e)) == e + BitLen(x)
  {
    hide Pow, BitLen;
    var w, l := Pow(2, e), BitLen(x);
    BitLenBounds(x);
    MulMono(Pow(2, l - 1), x, w);
    MulMono(x, Pow(2, l) - 1, w);
    PowAdd(2, l, e);
    PowAdd(2, l - 1, e);
    BitLenUnique(low + x * w, e + l);
  }

  /** Multiplying by 2^k moves the highest bit up by k. */
  lemma BitLenShift(v: nat, k: nat)
    requires 0 < v
    ensures 0 <= v * Pow(2, k) && BitLen(v * Pow(2, k)) == BitLen(v) + k
  {
    hide Pow, BitLen;
    BitLenBounds(v);
    var l := BitLen(v);
    MulStrictMono(v, Pow(2, l), Pow(2, k));
    MulMono(Pow(2, l - 1), v, Pow(2, k));
    PowAdd(2, l, k);
    PowAdd(2, l - 1, k);
    BitLenUnique(v * Pow(2, k), l + k);
  }

  /** Peeling the top bit of a number below 2^(k+1). */
  lemma TopBit(v: nat, k: nat)
    requires v < Pow(2, k + 1)
    ensures Bit(v, k) == 0 ==> v < Pow(2, k)
    ensures Bit(v, k) == 1 ==> Pow(2, k) <= v
  {
    var d := Pow(2, k);
    assert Pow(2, k + 1) == 2 * d;
    if v < d {
      DivModUnique(v, d, 0, v);
    } else {
      DivModUnique(v, d, 1, v - d);
    }
  }

  /** Peeling the low bits of a multiple of 2^k. */
  lemma LowBit(v: nat, k: nat)
    requires v % Pow(2, k) == 0
    ensures Bit(v, k) == 0 ==> v % Pow(2, k + 1) == 0
    ensures Bit(v, k) == 1 ==> v != 0 && (v / Pow(2, k)) % 2 == 1
  {
    var d := Pow(2, k);
    DivModUnique(0, d, 0, 0);
    assert Pow(2, k + 1) == 2 * d;
    DivIsMultiple(v, d);
    if Bit(v, k) == 0 {
      var q := v / d / 2;
      assert v == q * (2 * d) by {
        assert v / d == 2 * q;
        MulAssoc(q, 2, d);
      }
      MultipleMod(q, 2 * d);
    }
  }

  /** Bits above bit k do not disturb it. */
  lemma BitOfSum(low: nat, high: nat, k: nat)
    ensures Bit(low + Pow(2, k + 1) * high, k) == Bit(low, k)
    ensures (low + Pow(2, k + 1) * high) / Pow(2, k) == low / Pow(2, k) + 2 * high
  {
    var d := Pow(2, k);
    var q, r := low / d, low % d;
    assert Pow(2, k + 1) * high == (2 * high) * d by {
      assert Pow(2, k + 1) == 2 * d;
      MulAssoc(2, d, high);
      MulAssoc(2, high, d);
    }
    assert (q + 2 * high) * d + r == low + Pow(2, k + 1) * high;
    DivModUnique(low + Pow(2, k + 1) * high, d, q + 2 * high, r);
  }

  /** Dropping the low i limbs is dividing by BASE^i. */
  lemma DropLimbs(p: seq<limb>, i: nat)
    requires i <= |p|
    ensures 0 <= Val(p, BASE) && Val(p, BASE) / Pow(BASE, i) == Val(p[i..], BASE)
  {
    hide Pow, Val;
    ValBounds(p, BASE);
    ValSplit(p, i, BASE);
    ValBounds(p[..i], BASE);
    DivModUnique(Val(p, BASE), Pow(BASE, i), Val(p[i..], BASE), Val(p[..i], BASE));
  }

  lemma BitOfLowLimb(x: limb, high: nat, j: nat)
    requires j < LIMB_BITS
    ensures 0 <= BASE * high && Bit(x + BASE * high, j) == Bit(x, j)
  {
    hide Pow, Bit;
    var rest := Pow(2, LIMB_BITS - j - 1);
    PowAdd(2, j + 1, LIMB_BITS - j - 1);
    MulAssoc(Pow(2, j + 1), rest, high);
    MulNonNegative(rest, high);
    MulNonNegative(BASE, high);
    BitOfSum(x, rest * high, j);
  }

  /** Bit i * LIMB_BITS + j of a number is bit j of its limb i. */
  lemma LimbBit(p: seq<limb>, i: nat, j: nat)
    requires i < |p| && j < LIMB_BITS
    ensures 0 <= Val(p, BASE) && Bit(Val(p, BASE), LIMB_BITS * i + j) == Bit(p[i], j)
  {
    hide Pow, Val;
    DropLimbs(p, i);
    ValCons(p, i, BASE);
    ValBounds(p[i + 1..], BASE);
    BitOfLowLimb(p[i], Val(p[i + 1..], BASE), j);
    PowPow(2, LIMB_BITS, i);
    DivDiv(Val(p, BASE), Pow(BASE, i), Pow(2, j));
    PowAdd(2, LIMB_BITS * i, j);
  }

  /** The lowest limb decides parity. */
  lemma LowLimbParity(p: seq<limb>)
    requires 0 < |p|
    ensures Val(p, BASE) % 2 == p[0] % 2
  {
    hide Val, Pow;
    BaseFacts();
    ValCons(p, 0, BASE);
    assert p[0..] == p;
    EvenMultiple(p[0], BASE / 2, Val(p[1..], BASE));
  }

  lemma EvenMultiple(x: int, h: int, k: int)
    ensures (x + (2 * h) * k) % 2 == x % 2
  {
    MulAssoc(2, h, k);
  }
}
