/** The octets themselves: encryption and signature blocks, the DigestInfo of each algorithm, and the
    numbers that the two RSA operations make of them. */
module Pkcs1Format {
  import opened Arithmetic
  import opened Bytes
  import opened Octets
  import opened RsaMath
  import opened Der
  import opened Pkcs1

  // ---- object identifiers ----

  lemma Digit(b: byte, rest: seq<byte>, high: nat)
    ensures Base128([b] + rest, high) ==
            if 128 <= b then Base128(rest, (high + b - 128) * 128) else [high + b] + Base128(rest, 0)
  {
    assert ([b] + rest)[1..] == rest;
  }

  /** rsadsi digestAlgorithm, then the member. */
  lemma MdTail(c: nat)
    requires c < 128
    ensures Base128([0x86, 0xF7, 0x0D, 0x02, c], 0) == [113549, 2, c]
  {
    hide Base128;
    DigitEnd();
    Digit(c, [], 0);
    Digit(0x02, [c], 0);
    Digit(0x0D, [0x02, c], 113536);
    Digit(0xF7, [0x0D, 0x02, c], 768);
    Digit(0x86, [0xF7, 0x0D, 0x02, c], 0);
    assert [c] + [] == [c] && [0x02] + [c] == [0x02, c] && [0x0D] + [0x02, c] == [0x0D, 0x02, c];
    assert [0xF7] + [0x0D, 0x02, c] == [0xF7, 0x0D, 0x02, c];
    assert [0x86] + [0xF7, 0x0D, 0x02, c] == [0x86, 0xF7, 0x0D, 0x02, c];
  }

  /** md2, md4 and md5: 1.2.840.113549.2.c */
  lemma MdArcs(c: nat)
    requires c < 128
    ensures Arcs([0x2A, 0x86, 0x48, 0x86, 0xF7, 0x0D, 0x02, c]) == [1, 2, 840, 113549, 2, c]
  {
    assert Base128([0x2A, 0x86, 0x48, 0x86, 0xF7, 0x0D, 0x02, c], 0) == [42, 840, 113549, 2, c] by {
      hide Base128;
      var tail := [0x86, 0xF7, 0x0D, 0x02, c];
      MdTail(c);
      Digit(0x48, tail, 768);
      Digit(0x86, [0x48] + tail, 0);
      Digit(0x2A, [0x86] + ([0x48] + tail), 0);
      assert [0x2A] + ([0x86] + ([0x48] + tail)) == [0x2A, 0x86, 0x48, 0x86, 0xF7, 0x0D, 0x02, c];
    }
  }

  lemma DigitEnd()
    ensures Base128([], 0) == []
  {
  }

  /** sha1: 1.3.14.3.2.26 */
  lemma Sha1Arcs()
    ensures Arcs([0x2B, 0x0E, 0x03, 0x02, 0x1A]) == [1, 3, 14, 3, 2, 26]
  {
    assert Base128([0x2B, 0x0E, 0x03, 0x02, 0x1A], 0) == [43, 14, 3, 2, 26] by {
      hide Base128;
      DigitEnd();
      Digit(0x1A, [], 0);
      Digit(0x02, [0x1A], 0);
      Digit(0x03, [0x02, 0x1A], 0);
      Digit(0x0E, [0x03, 0x02, 0x1A], 0);
      Digit(0x2B, [0x0E, 0x03, 0x02, 0x1A], 0);
      assert [0x1A] + [] == [0x1A] && [0x02] + [0x1A] == [0x02, 0x1A] && [0x03] + [0x02, 0x1A] == [0x03, 0x02, 0x1A];
      assert [0x0E] + [0x03, 0x02, 0x1A] == [0x0E, 0x03, 0x02, 0x1A];
      assert [0x2B] + [0x0E, 0x03, 0x02, 0x1A] == [0x2B, 0x0E, 0x03, 0x02, 0x1A];
    }
  }

  // ---- DigestInfo ----

  /** The identifiers of the algorithms of rsa.h, the octets of hash each reads and what it signs. */
  lemma AlgorithmTable(alg: int, hashlen: nat)
    ensures Supported(alg) <==> alg in {0, 2, 3, 4, 5}
    ensures HashLen(alg, hashlen) ==
            if alg == 0 then hashlen else if alg in {2, 3, 4} then 16 else if alg == 5 then 20 else 0
  {
  }

  /** A raw hash is signed as it is; the data of any other algorithm is a DigestInfo that names the
      algorithm and holds the hash. */
  lemma DigestInfoIs(alg: int, hash: seq<byte>)
    requires Supported(alg) && |hash| == HashLen(alg, |hash|)
    ensures alg == 0 ==> DigestInfo(alg, hash) == hash
    ensures alg in {2, 3, 4} ==> |DigestInfo(alg, hash)| == 34
    ensures alg == 5 ==> |DigestInfo(alg, hash)| == 35
    ensures alg == 2 ==> ReadDigestInfo(DigestInfo(alg, hash)) == Some(Digest([1, 2, 840, 113549, 2, 2], hash))
    ensures alg == 3 ==> ReadDigestInfo(DigestInfo(alg, hash)) == Some(Digest([1, 2, 840, 113549, 2, 4], hash))
    ensures alg == 4 ==> ReadDigestInfo(DigestInfo(alg, hash)) == Some(Digest([1, 2, 840, 113549, 2, 5], hash))
    ensures alg == 5 ==> ReadDigestInfo(DigestInfo(alg, hash)) == Some(Digest([1, 3, 14, 3, 2, 26], hash))
  {
    hide ReadDigestInfo, Arcs;
    if IsMd(alg) {
      MdDigestInfo(MdOctet(alg), hash);
    } else if alg == RSA_SHA1 {
      Sha1DigestInfo(hash);
    }
  }

  lemma MdDigestInfo(c: nat, hash: seq<byte>)
    requires c < 128 && |hash| == 16
    ensures ReadDigestInfo(ASN1_HASH_MDX[13 := c] + hash) == Some(Digest([1, 2, 840, 113549, 2, c], hash))
  {
    hide ReadDigestInfo, Arcs;
    var id := [0x2A, 0x86, 0x48, 0x86, 0xF7, 0x0D, 0x02, c];
    MdArcs(c);
    DigestInfoReads(id, hash);
    assert ASN1_HASH_MDX[13 := c] + hash ==
      [0x30, 32] + ([0x30, 12] + ([0x06, 8] + id + [0x05, 0x00]) + [0x04, 16] + hash);
  }

  lemma Sha1DigestInfo(hash: seq<byte>)
    requires |hash| == 20
    ensures ReadDigestInfo(ASN1_HASH_SHA1 + hash) == Some(Digest([1, 3, 14, 3, 2, 26], hash))
  {
    hide ReadDigestInfo, Arcs;
    var id := [0x2B, 0x0E, 0x03, 0x02, 0x1A];
    Sha1Arcs();
    DigestInfoReads(id, hash);
    assert ASN1_HASH_SHA1 + hash ==
      [0x30, 33] + ([0x30, 9] + ([0x06, 5] + id + [0x05, 0x00]) + [0x04, 20] + hash);
  }

  // ---- blocks ----

  /** What rsa_pkcs1_sign leaves: the private operation on 0, 1, octets of ones, 0 and the data. */
  lemma SignatureFormat(k: Key, alg: int, hash: seq<byte>) returns (t: seq<byte>)
    requires ValidKey(k) && Supported(alg) && |hash| == HashLen(alg, |hash|)
    requires |DigestInfo(alg, hash)| + 3 <= OctetLen(k.n)
    ensures 0 < k.n && |t| + 3 <= OctetLen(k.n) && |Signature(k, alg, hash)| == OctetLen(k.n)
    ensures var b := [0, 1] + seq(OctetLen(k.n) - 3 - |t|, _ => 0xFF) + [0] + t;
      Os2ip(Signature(k, alg, hash)) == Pow(Os2ip(b), k.d) % k.n
    ensures alg == 0 ==> t == hash
    ensures alg == 2 ==> ReadDigestInfo(t) == Some(Digest([1, 2, 840, 113549, 2, 2], hash))
    ensures alg == 3 ==> ReadDigestInfo(t) == Some(Digest([1, 2, 840, 113549, 2, 4], hash))
    ensures alg == 4 ==> ReadDigestInfo(t) == Some(Digest([1, 2, 840, 113549, 2, 5], hash))
    ensures alg == 5 ==> ReadDigestInfo(t) == Some(Digest([1, 3, 14, 3, 2, 26], hash))
  {
    hide Os2ip, I2osp, OctetLen, ValidKey, Pow, DigestInfo, ReadDigestInfo, PrivateOctets;
    t := DigestInfo(alg, hash);
    DigestInfoIs(alg, hash);
    PrivateOctetsAre(k, SignatureBlock(alg, hash, OctetLen(k.n)));
    assert Ones(OctetLen(k.n) - 3 - |t|) == seq(OctetLen(k.n) - 3 - |t|, _ => 0xFF);
  }
}
