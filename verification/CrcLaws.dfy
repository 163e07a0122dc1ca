/** What identifies CRC-32 without its register: the check value, the value of one octet, and the residue
    (section 8 of RFC 1952). */
module CrcLaws {
  import opened Crc32Bits
  import opened Crc32

  // ---- one octet ----

  /** The polynomial of RFC 1952 and the complements before and after: the register and what eight
      shifts make of it. */
  lemma OneOctet(c: bv32, x: octet) returns (s: seq<bv32>)
    ensures |s| == 9 && s[0] == (c ^ 0xffffffff) ^ (x as bv32)
    ensures forall k :: 0 <= k < 8 ==> s[k + 1] == if s[k] & 1 == 1 then 0xedb88320 ^ (s[k] >> 1) else s[k] >> 1
    ensures Crc(c, [x]) == s[8] ^ 0xffffffff
  {
    hide FeedLow, BitSerial, Steps, Step;
    var r := Xor(c, 0xffffffff);
    s := Shifts(Xor(r, x as bv32), 8);
    forall k | 0 <= k < 8
      ensures s[k + 1] == if s[k] & 1 == 1 then 0xedb88320 ^ (s[k] >> 1) else s[k] >> 1
    {
      StepIs(s[k]);
    }
    BitSerialEmpty(r);
    BitSerialSnoc(r, [], x);
    assert [] + [x] == [x];
    OctetFeed(r, x);
  }

  lemma StepIs(c: bv32)
    ensures Step(c) == if c & 1 == 1 then 0xedb88320 ^ (c >> 1) else c >> 1
  {
  }

  lemma {:induction false} Shifts(c: bv32, n: nat) returns (s: seq<bv32>)
    ensures |s| == n + 1 && s[0] == c && s[n] == Steps(c, n) && forall k :: 0 <= k < n ==> s[k + 1] == Step(s[k])
    decreases n
  {
    hide Step;
    s := [c];
    if n > 0 {
      var t := Shifts(Step(c), n - 1);
      s := [c] + t;
    }
  }

  lemma NoOctet(c: bv32)
    ensures Crc(c, []) == c
  {
    hide BitSerial;
    BitSerialEmpty(Xor(c, 0xffffffff));
    Complement(c);
  }

  // ---- the check value ----

  lemma NextRegister(c: bv32, s: seq<octet>, x: octet, r: bv32, r': bv32)
    requires BitSerial(c, s) == r && Steps(Xor(r, x as bv32), 8) == r'
    ensures BitSerial(c, s + [x]) == r'
  {
    hide BitSerial, FeedLow, Steps, Xor;
    BitSerialSnoc(c, s, x);
    OctetFeed(r, x);
  }

  lemma Registers0()
    ensures Steps(Xor(0xffffffff, 0x31), 8) == 0x7c231048
    ensures Steps(Xor(0x7c231048, 0x32), 8) == 0xb0acbb32
    ensures Steps(Xor(0xb0acbb32, 0x33), 8) == 0x77b79c2d
  {
  }

  lemma Registers1()
    ensures Steps(Xor(0x77b79c2d, 0x34), 8) == 0x641c1f5c
    ensures Steps(Xor(0x641c1f5c, 0x35), 8) == 0x340ac5e3
    ensures Steps(Xor(0x340ac5e3, 0x36), 8) == 0xf68d2c9e
  {
  }

  lemma Registers2()
    ensures Steps(Xor(0xf68d2c9e, 0x37), 8) == 0xaffc9660
    ensures Steps(Xor(0xaffc9660, 0x38), 8) == 0x651f2550
    ensures Steps(Xor(0x651f2550, 0x39), 8) == 0x340bc6d9
  {
  }

  /** The checksum of the nine digits 1 to 9. */
  lemma CheckValue()
    ensures Crc(0, [0x31, 0x32, 0x33, 0x34, 0x35, 0x36, 0x37, 0x38, 0x39]) == 0xcbf43926
  {
    hide BitSerial, Steps;
    assert Xor(0, 0xffffffff) == 0xffffffff && Xor(0x340bc6d9, 0xffffffff) == 0xcbf43926;
    hide Xor;
    var f: bv32 := 0xffffffff;
    Registers0();
    Registers1();
    Registers2();
    BitSerialEmpty(f);
    var m: seq<octet> := [];
    NextRegister(f, m, 0x31, 0xffffffff, 0x7c231048);
    m := m + [0x31];
    NextRegister(f, m, 0x32, 0x7c231048, 0xb0acbb32);
    m := m + [0x32];
    NextRegister(f, m, 0x33, 0xb0acbb32, 0x77b79c2d);
    m := m + [0x33];
    NextRegister(f, m, 0x34, 0x77b79c2d, 0x641c1f5c);
    m := m + [0x34];
    NextRegister(f, m, 0x35, 0x641c1f5c, 0x340ac5e3);
    m := m + [0x35];
    NextRegister(f, m, 0x36, 0x340ac5e3, 0xf68d2c9e);
    m := m + [0x36];
    NextRegister(f, m, 0x37, 0xf68d2c9e, 0xaffc9660);
    m := m + [0x37];
    NextRegister(f, m, 0x38, 0xaffc9660, 0x651f2550);
    m := m + [0x38];
    NextRegister(f, m, 0x39, 0x651f2550, 0x340bc6d9);
    m := m + [0x39];
    assert m == [0x31, 0x32, 0x33, 0x34, 0x35, 0x36, 0x37, 0x38, 0x39];
  }

  // ---- the residue ----

  /** Whatever the register was, its complement as the next four octets leaves the same register. */
  lemma ComplementFed(r: bv32, x0: octet, x1: octet, x2: octet, x3: octet)
    requires Word(x0, x1, x2, x3) == Xor(r, 0xffffffff)
    ensures BitSerial(r, [x0, x1, x2, x3]) == 0xdebb20e3
  {
    WordStep(r, x0, x1, x2, x3);
    assert Xor(r, Xor(r, 0xffffffff)) == 0xffffffff;
    hide Xor, BitSerial;
    OnesShifted();
  }

  lemma OnesShifted()
    ensures Eight(0xffffffff) == 0x2dfd1072 && Eight(0x2dfd1072) == 0xbe26ed00
    ensures Eight(0xbe26ed00) == 0x00be26ed && Eight(0x00be26ed) == 0xdebb20e3
  {
  }

  lemma WordIs(x0: octet, x1: octet, x2: octet, x3: octet)
    ensures Word(x0, x1, x2, x3) ==
            (x0 as bv32) | ((x1 as bv32) << 8) | ((x2 as bv32) << 16) | ((x3 as bv32) << 24)
  {
  }

  /** The checksum of a message with its own checksum behind it, low octet first, is one constant. */
  lemma Residue(c: bv32, s: seq<octet>, x0: octet, x1: octet, x2: octet, x3: octet)
    requires Crc(c, s) == (x0 as bv32) | ((x1 as bv32) << 8) | ((x2 as bv32) << 16) | ((x3 as bv32) << 24)
    ensures Crc(c, s + [x0, x1, x2, x3]) == 0x2144df1c
  {
    WordIs(x0, x1, x2, x3);
    assert Xor(0xdebb20e3, 0xffffffff) == 0x2144df1c;
    hide Xor, BitSerial, Word;
    var r := BitSerial(Xor(c, 0xffffffff), s);
    ComplementFed(r, x0, x1, x2, x3);
    BitSerialConcat(Xor(c, 0xffffffff), s, [x0, x1, x2, x3]);
  }
}
