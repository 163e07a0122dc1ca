/** The table and the word-at-a-time loop of crc32.c. */
module Crc32 {
  import opened Crc32Bits

  /** The exponents of the polynomial's terms, without the leading one. */
  const TERMS: seq<nat> := [0, 1, 2, 4, 5, 7, 8, 10, 11, 12, 16, 22, 23, 26]

  /** The exclusive-or pattern of the first n terms. */
  const PATTERNS: seq<bv32> := [
    0x00000000, 0x80000000, 0xc0000000, 0xe0000000, 0xe8000000,
    0xec000000, 0xed000000, 0xed800000, 0xeda00000, 0xedb00000,
    0xedb80000, 0xedb88000, 0xedb88200, 0xedb88300, 0xedb88320
  ]

  function Pattern(n: nat): bv32
    requires n <= 14
  {
    PATTERNS[n]
  }

  function Term(n: nat): (e: nat)
    requires n < 14
    ensures e <= 31
  {
    TERMS[n]
  }

  function AddTerm(poly: bv32, e: nat): bv32
    requires e <= 31
  {
    poly | ((1 as bv32) << (31 - e))
  }

  lemma PatternLow(n: nat)
    requires n < 7
    ensures Pattern(n + 1) == AddTerm(Pattern(n), Term(n))
  {
  }

  lemma PatternHigh(n: nat)
    requires 7 <= n < 14
    ensures Pattern(n + 1) == AddTerm(Pattern(n), Term(n))
  {
  }

  lemma PatternEnds()
    ensures Pattern(0) == 0 && Pattern(14) == POLY
  {
  }

  /** Entry n is the register after eight steps from n. */
  ghost predicate TableOk(tab: seq<bv32>) {
    |tab| == 256 && forall n: nat :: n < 256 ==> tab[n] == Steps(n as bv32, 8)
  }

  /** make_crc_table */
  method MakeCrcTable() returns (tab: array<bv32>)
    ensures fresh(tab) && TableOk(tab[..])
  {
    hide Steps;
    tab := new bv32[256];
    var poly := MakePattern();
    var n := 0;
    while n < 256
      invariant n <= 256 && forall m: nat :: m < n ==> tab[m] == Steps(m as bv32, 8)
    {
      tab[n] := MakeEntry(poly, n as bv32);
      n := n + 1;
    }
  }

  method MakePattern() returns (poly: bv32)
    ensures poly == POLY
  {
    hide Pattern, Term, AddTerm;
    PatternEnds();
    poly := 0;
    var n := 0;
    while n < 14
      invariant n <= 14 && poly == Pattern(n)
    {
      if n < 7 {
        PatternLow(n);
      } else {
        PatternHigh(n);
      }
      poly := AddTerm(poly, Term(n));
      n := n + 1;
    }
  }

  method MakeEntry(poly: bv32, n: bv32) returns (c: bv32)
    requires poly == POLY
    ensures c == Steps(n, 8)
  {
    hide Step;
    c := n;
    var k := 0;
    while k < 8
      invariant k <= 8 && Steps(c, 8 - k) == Steps(n, 8)
    {
      c := ShiftOnce(poly, c);
      k := k + 1;
    }
  }

  method ShiftOnce(poly: bv32, c: bv32) returns (d: bv32)
    requires poly == POLY
    ensures d == Step(c)
  {
    d := if c & 1 == 1 then poly ^ (c >> 1) else c >> 1;
  }

  // ---- crc32_no_comp and crc32 ----

  lemma LowIndex(c: bv32)
    ensures c & 255 < 256 && Low8(c) == c & 255 && (c & 255) as int < 256 && ((c & 255) as int) as bv32 == Low8(c)
  {
    IndexRoundTrip(c & 255);
  }

  lemma IndexRoundTrip(i: bv32)
    requires i < 256
    ensures 0 <= i as int < 256 && (i as int) as bv32 == i
  {
  }

  /** The table step: tab[(crc ^ x) & 255] ^ (crc >> 8). */
  method DoCrc(tab: seq<bv32>, crc: bv32, x: octet) returns (r: bv32)
    requires TableOk(tab)
    ensures r == FeedLow(crc, x as bv32, 8)
  {
    hide Steps, FeedLow, Xor, Low8, Shr8;
    var i := Xor(crc, x as bv32);
    LowIndex(i);
    TableStep(crc, x, tab[(i & 255) as int]);
    ShrIs(crc);
    r := Xor(tab[(i & 255) as int], crc >> 8);
  }

  lemma ShrIs(c: bv32)
    ensures Shr8(c) == c >> 8
  {
  }

  /** The table step with a zero octet. */
  method DoCrcZero(tab: seq<bv32>, crc: bv32) returns (r: bv32)
    requires TableOk(tab)
    ensures r == Eight(crc)
  {
    hide Steps, FeedLow, Xor;
    r := DoCrc(tab, crc, 0);
    OctetFeed(crc, 0);
    XorZero(crc);
  }

  /** crc32_no_comp on a little-endian machine: octets up to a word boundary, then whole words, then
      the rest.  addr is the address of the buffer. */
  method NoComp(tab: seq<bv32>, crc0: bv32, buf: seq<octet>, addr: nat) returns (crc: bv32)
    requires TableOk(tab)
    ensures crc == BitSerial(crc0, buf)
  {
    hide Steps, FeedLow, BitSerial, TableOk, Eight, Word, Xor;
    BitSerialEmpty(crc0);
    assert buf[..0] == [];
    crc := crc0;
    var p, len := 0, |buf|;
    if addr % 4 != 0 && len != 0 {
      while true
        invariant p < |buf| && len == |buf| - p && crc == BitSerial(crc0, buf[..p])
        decreases len
      {
        crc := NextOctet(tab, crc0, crc, buf, p);
        p, len := p + 1, len - 1;
        if !(len != 0 && (addr + p) % 4 != 0) {
          break;
        }
      }
    }
    var remLen := len % 4;
    len := len / 4;
    while len != 0
      invariant p <= |buf| && 4 * len + remLen == |buf| - p && crc == BitSerial(crc0, buf[..p])
      invariant 0 < len ==> (addr + p) % 4 == 0
      decreases len
    {
      crc := NextWord(tab, crc0, crc, buf, p);
      p, len := p + 4, len - 1;
    }
    len := remLen;
    if len != 0 {
      while true
        invariant p < |buf| && len == |buf| - p && crc == BitSerial(crc0, buf[..p])
        decreases len
      {
        crc := NextOctet(tab, crc0, crc, buf, p);
        p, len := p + 1, len - 1;
        if len == 0 {
          break;
        }
      }
    }
    assert buf[..p] == buf;
  }

  method NextOctet(tab: seq<bv32>, ghost crc0: bv32, crc: bv32, buf: seq<octet>, p: nat) returns (r: bv32)
    requires TableOk(tab) && p < |buf| && crc == BitSerial(crc0, buf[..p])
    ensures r == BitSerial(crc0, buf[..p + 1])
  {
    hide FeedLow, BitSerial, TableOk;
    r := DoCrc(tab, crc, buf[p]);
    BitSerialSnoc(crc0, buf[..p], buf[p]);
    assert buf[..p] + [buf[p]] == buf[..p + 1];
  }

  method NextWord(tab: seq<bv32>, ghost crc0: bv32, crc: bv32, buf: seq<octet>, p: nat) returns (r: bv32)
    requires TableOk(tab) && p + 4 <= |buf| && crc == BitSerial(crc0, buf[..p])
    ensures r == BitSerial(crc0, buf[..p + 4])
  {
    hide FeedLow, BitSerial, TableOk, Eight, Word, Xor;
    r := Xor(crc, Word(buf[p], buf[p + 1], buf[p + 2], buf[p + 3]));
    r := DoCrcZero(tab, r);
    r := DoCrcZero(tab, r);
    r := DoCrcZero(tab, r);
    r := DoCrcZero(tab, r);
    WordStep(crc, buf[p], buf[p + 1], buf[p + 2], buf[p + 3]);
    BitSerialConcat(crc0, buf[..p], [buf[p], buf[p + 1], buf[p + 2], buf[p + 3]]);
    assert buf[..p] + [buf[p], buf[p + 1], buf[p + 2], buf[p + 3]] == buf[..p + 4];
  }

  /** The CRC-32 of a message, continued from crc. */
  function Crc(crc: bv32, s: seq<octet>): bv32 {
    Xor(BitSerial(Xor(crc, 0xffffffff), s), 0xffffffff)
  }

  /** crc32 */
  method CalcCrc32(tab: seq<bv32>, crc: bv32, buf: seq<octet>, addr: nat) returns (r: bv32)
    requires TableOk(tab)
    ensures r == Crc(crc, buf)
  {
    hide BitSerial, TableOk, Xor;
    r := NoComp(tab, Xor(crc, 0xffffffff), buf, addr);
    r := Xor(r, 0xffffffff);
  }

  lemma Complement(c: bv32)
    ensures Xor(Xor(c, 0xffffffff), 0xffffffff) == c
  {
  }

  /** A checksum can be continued: the checksum of a + b is that of b, continued from that of a. */
  lemma Chains(crc: bv32, a: seq<octet>, b: seq<octet>)
    ensures Crc(Crc(crc, a), b) == Crc(crc, a + b)
  {
    hide BitSerial, Xor;
    Complement(BitSerial(Xor(crc, 0xffffffff), a));
    BitSerialConcat(Xor(crc, 0xffffffff), a, b);
  }
}
