/** The reflected CRC-32 as a shift register over GF(2) (section 8 of RFC 1952), one bit at a time,
    and the algebra that lets crc32.c take eight or thirty-two bits at once. */
module Crc32Bits {
  type octet = bv8

  /** The polynomial without its leading term, lowest power in the highest bit. */
  const POLY: bv32 := 0xedb88320

  function Xor(a: bv32, b: bv32): bv32 { a ^ b }

  /** Multiply the register by x. */
  function Step(c: bv32): bv32 { if c & 1 == 1 then POLY ^ (c >> 1) else c >> 1 }

  function Steps(c: bv32, n: nat): bv32
    decreases n
  {
    if n == 0 then c else Steps(Step(c), n - 1)
  }

  /** Shift one message bit into the register. */
  function Feed(c: bv32, bit: bool): bv32 { Step(if bit then c ^ 1 else c) }

  function Low1(c: bv32): bv32 { c & 1 }

  function High31(c: bv32): bv32 { c & 0xfffffffe }

  function Shr1(c: bv32): bv32 { c >> 1 }

  /** Shift in the n lowest bits of x, lowest first. */
  function FeedLow(c: bv32, x: bv32, n: nat): bv32
    decreases n
  {
    if n == 0 then c else FeedLow(Feed(c, Low1(x) == 1), Shr1(x), n - 1)
  }

  /** The register after a message, bit by bit. */
  function BitSerial(c: bv32, s: seq<octet>): bv32
    decreases |s|
  {
    if |s| == 0 then c else BitSerial(FeedLow(c, s[0] as bv32, 8), s[1..])
  }

  lemma {:induction false} BitSerialConcat(c: bv32, s: seq<octet>, t: seq<octet>)
    ensures BitSerial(c, s + t) == BitSerial(BitSerial(c, s), t)
    decreases |s|
  {
    hide FeedLow;
    if |s| == 0 {
      assert s + t == t;
    } else {
      assert (s + t)[1..] == s[1..] + t;
      BitSerialConcat(FeedLow(c, s[0] as bv32, 8), s[1..], t);
    }
  }

  lemma BitSerialEmpty(c: bv32)
    ensures BitSerial(c, []) == c
  {
  }

  lemma BitSerialSnoc(c: bv32, s: seq<octet>, x: octet)
    ensures BitSerial(c, s + [x]) == FeedLow(BitSerial(c, s), x as bv32, 8)
  {
    hide FeedLow;
    BitSerialConcat(c, s, [x]);
    assert [x][1..] == [];
  }

  // ---- the register is linear ----

  lemma ShiftXor(a: bv32, b: bv32)
    ensures (a ^ b) >> 1 == (a >> 1) ^ (b >> 1)
    ensures (a ^ b) & 1 == (a & 1) ^ (b & 1)
    ensures a & 1 == 0 || a & 1 == 1
  {
  }

  lemma XorLaws(p: bv32, a: bv32, b: bv32)
    ensures p ^ (a ^ b) == (p ^ a) ^ b && p ^ (a ^ b) == a ^ (p ^ b) && (p ^ a) ^ (p ^ b) == a ^ b
  {
  }

  lemma StepXor(a: bv32, b: bv32)
    ensures Step(a ^ b) == Step(a) ^ Step(b)
  {
    ShiftXor(a, b);
    ShiftXor(b, a);
    XorLaws(POLY, a >> 1, b >> 1);
  }

  lemma StepLinear(a: bv32, b: bv32)
    ensures Step(Xor(a, b)) == Xor(Step(a), Step(b))
  {
    hide Step;
    StepXor(a, b);
  }

  lemma {:induction false} StepsLinear(a: bv32, b: bv32, n: nat)
    ensures Steps(Xor(a, b), n) == Xor(Steps(a, n), Steps(b, n))
    decreases n
  {
    hide Step, Xor;
    if n > 0 {
      StepLinear(a, b);
      StepsLinear(Step(a), Step(b), n - 1);
    }
  }

  // ---- eight bits at once ----

  /** x has at most n bits. */
  predicate Narrow(x: bv32, n: nat)
    decreases n
  {
    if n == 0 then x == 0 else Narrow(Shr1(x), n - 1)
  }

  lemma SplitLow(c: bv32, x: bv32)
    ensures Xor(c, x) == Xor(Xor(c, Low1(x)), High31(x))
    ensures Shr1(High31(x)) == Shr1(x) && Low1(High31(x)) == 0
  {
  }

  lemma HighStep(h: bv32)
    requires Low1(h) == 0
    ensures Step(h) == Shr1(h)
  {
  }

  lemma FeedIs(c: bv32, x: bv32)
    ensures Feed(c, Low1(x) == 1) == Step(Xor(c, Low1(x)))
  {
    hide Step, Xor, Low1;
    LowBit(x);
    XorBit(c, Low1(x));
  }

  lemma LowBit(x: bv32)
    ensures Low1(x) == 0 || Low1(x) == 1
  {
  }

  lemma XorBit(c: bv32, b: bv32)
    requires b == 0 || b == 1
    ensures Xor(c, b) == if b == 1 then c ^ 1 else c
  {
    if b == 0 {
      XorZero(c);
    }
  }

  lemma FeedXor(c: bv32, x: bv32)
    ensures Step(Xor(c, x)) == Xor(Feed(c, Low1(x) == 1), Shr1(x))
  {
    hide Step, Feed, Xor, Low1, High31, Shr1;
    SplitLow(c, x);
    FeedIs(c, x);
    StepLinear(Xor(c, Low1(x)), High31(x));
    HighStep(High31(x));
  }

  /** Feeding bits one by one is adding them all and then stepping. */
  lemma {:induction false} FeedIsSteps(c: bv32, x: bv32, n: nat)
    requires Narrow(x, n)
    ensures FeedLow(c, x, n) == Steps(Xor(c, x), n)
    decreases n
  {
    hide Feed, Step, Xor, Low1, Shr1;
    if n > 0 {
      FeedXor(c, x);
      FeedIsSteps(Feed(c, Low1(x) == 1), Shr1(x), n - 1);
    } else {
      XorZero(c);
    }
  }

  lemma XorZero(c: bv32)
    ensures Xor(c, 0) == c && Xor(0, c) == c
  {
  }

  lemma OctetNarrow(x: octet)
    ensures Narrow(x as bv32, 8)
  {
  }

  lemma OctetFeed(c: bv32, x: octet)
    ensures FeedLow(c, x as bv32, 8) == Steps(Xor(c, x as bv32), 8)
  {
    hide Narrow, FeedLow, Steps, Xor;
    OctetNarrow(x);
    FeedIsSteps(c, x as bv32, 8);
  }

  function Low8(c: bv32): bv32 { c & 255 }

  function High24(c: bv32): bv32 { c & 0xffffff00 }

  function Shr8(c: bv32): bv32 { c >> 8 }

  function Shl8(c: bv32): bv32 { c << 8 }

  lemma EightUnrolled(c: bv32)
    ensures Steps(c, 8) == Step(Step(Step(Step(Step(Step(Step(Step(c))))))))
  {
    hide Step;
  }

  lemma EightShifts(h: bv32)
    requires Low8(h) == 0
    ensures Step(Step(Step(Step(Step(Step(Step(Step(h)))))))) == Shr8(h)
  {
  }

  /** Eight zero bits at the bottom are just shifted out. */
  lemma ZeroOctetOut(h: bv32)
    requires Low8(h) == 0
    ensures Steps(h, 8) == Shr8(h)
  {
    hide Step, Steps, Low8, Shr8;
    EightShifts(h);
    EightUnrolled(h);
  }

  lemma SplitOctet(c: bv32)
    ensures c == Xor(Low8(c), High24(c)) && Shr8(High24(c)) == Shr8(c) && Low8(High24(c)) == 0
  {
  }

  /** Eight steps depend on the low octet through the table and shift the rest. */
  lemma EightSteps(c: bv32)
    ensures Steps(c, 8) == Xor(Steps(Low8(c), 8), Shr8(c))
  {
    hide Steps, Xor, Low8, High24, Shr8;
    SplitOctet(c);
    StepsLinear(Low8(c), High24(c), 8);
    ZeroOctetOut(High24(c));
  }

  lemma OctetXor(c: bv32, x: octet)
    ensures Shr8(Xor(c, x as bv32)) == Shr8(c)
  {
  }

  /** The table step of crc32.c feeds eight bits. */
  lemma TableStep(c: bv32, x: octet, entry: bv32)
    requires entry == Steps(Low8(Xor(c, x as bv32)), 8)
    ensures Xor(entry, Shr8(c)) == FeedLow(c, x as bv32, 8)
  {
    hide Steps, Xor, Low8, Shr8, FeedLow;
    OctetFeed(c, x);
    EightSteps(Xor(c, x as bv32));
    OctetXor(c, x);
  }

  // ---- thirty-two bits at once ----

  lemma XorAssoc(a: bv32, b: bv32, c: bv32)
    ensures Xor(a, Xor(b, c)) == Xor(Xor(a, b), c)
  {
  }

  lemma ShlShr(w: bv32)
    requires w & 0xff000000 == 0
    ensures Low8(Shl8(w)) == 0 && Shr8(Shl8(w)) == w
  {
  }

  /** The octets of a word that are not due yet stay where they are, eight places further down. */
  lemma WordOctet(c: bv32, x: bv32, w: bv32)
    requires w & 0xff000000 == 0
    ensures Steps(Xor(c, Xor(x, Shl8(w))), 8) == Xor(Steps(Xor(c, x), 8), w)
  {
    ShlShr(w);
    hide Steps, Xor, Low8, Shr8, Shl8;
    XorAssoc(c, x, Shl8(w));
    StepsLinear(Xor(c, x), Shl8(w), 8);
    ZeroOctetOut(Shl8(w));
  }

  /** A 32-bit word, loaded little-endian. */
  function Word(x0: octet, x1: octet, x2: octet, x3: octet): bv32 {
    Xor(x0 as bv32, Shl8(Xor(x1 as bv32, Shl8(Xor(x2 as bv32, Shl8(x3 as bv32))))))
  }

  lemma Rooms(x1: octet, x2: octet, x3: octet)
    ensures (x3 as bv32) & 0xff000000 == 0 && Xor(x2 as bv32, Shl8(x3 as bv32)) & 0xff000000 == 0
    ensures Xor(x1 as bv32, Shl8(Xor(x2 as bv32, Shl8(x3 as bv32)))) & 0xff000000 == 0
  {
  }

  function Eight(c: bv32): bv32 { Steps(c, 8) }

  /** Adding a word and stepping thirty-two times feeds its four octets. */
  lemma WordStep(c: bv32, x0: octet, x1: octet, x2: octet, x3: octet)
    ensures Eight(Eight(Eight(Eight(Xor(c, Word(x0, x1, x2, x3)))))) == BitSerial(c, [x0, x1, x2, x3])
  {
    Rooms(x1, x2, x3);
    FourOctets(c, x0, x1, x2, x3);
    hide Steps, Xor, Shl8, FeedLow, BitSerial;
    var w3 := x3 as bv32;
    var w2 := Xor(x2 as bv32, Shl8(w3));
    var w1 := Xor(x1 as bv32, Shl8(w2));
    var c1 := Eight(Xor(c, x0 as bv32));
    var c2 := Eight(Xor(c1, x1 as bv32));
    var c3 := Eight(Xor(c2, x2 as bv32));
    WordOctet(c, x0 as bv32, w1);
    WordOctet(c1, x1 as bv32, w2);
    WordOctet(c2, x2 as bv32, w3);
    OctetFeed(c, x0);
    OctetFeed(c1, x1);
    OctetFeed(c2, x2);
    OctetFeed(c3, x3);
  }

  lemma FourOctets(c: bv32, x0: octet, x1: octet, x2: octet, x3: octet)
    ensures BitSerial(c, [x0, x1, x2, x3]) ==
            FeedLow(FeedLow(FeedLow(FeedLow(c, x0 as bv32, 8), x1 as bv32, 8), x2 as bv32, 8), x3 as bv32, 8)
  {
    hide FeedLow, BitSerial;
    BitSerialEmpty(c);
    BitSerialSnoc(c, [], x0);
    BitSerialSnoc(c, [x0], x1);
    BitSerialSnoc(c, [x0, x1], x2);
    BitSerialSnoc(c, [x0, x1, x2], x3);
    assert [] + [x0] == [x0] && [x0] + [x1] == [x0, x1];
    assert [x0, x1] + [x2] == [x0, x1, x2] && [x0, x1, x2] + [x3] == [x0, x1, x2, x3];
  }
}
