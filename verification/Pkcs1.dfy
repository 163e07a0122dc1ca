/** PKCS#1 v1.5 blocks (sections 7.2 and 9.2 of RFC 8017): what padding and parsing do to octet
    strings, and the two round trips through RSA. */
module Pkcs1 {
  import opened Arithmetic
  import opened Bytes
  import opened Octets
  import opened Der
  import opened RsaMath

  const ERR_RSA_INVALID_PADDING: int := 0x0310
  const ERR_RSA_VERIFY_FAILED: int := 0x0360

  const RSA_SIGN: byte := 1
  const RSA_CRYPT: byte := 2

  const RSA_RAW: int := 0
  const RSA_MD2: int := 2
  const RSA_MD4: int := 3
  const RSA_MD5: int := 4
  const RSA_SHA1: int := 5

  /** The DigestInfo prefix of the MD family; octet 13 tells the member. */
  const ASN1_HASH_MDX: seq<byte> :=
    [0x30, 0x20, 0x30, 0x0C, 0x06, 0x08, 0x2A, 0x86, 0x48, 0x86, 0xF7, 0x0D, 0x02, 0x00, 0x05, 0x00, 0x04, 0x10]

  const ASN1_HASH_SHA1: seq<byte> :=
    [0x30, 0x21, 0x30, 0x09, 0x06, 0x05, 0x2B, 0x0E, 0x03, 0x02, 0x1A, 0x05, 0x00, 0x04, 0x14]

  // ---- blocks ----

  function Block(kind: byte, pad: seq<byte>, data: seq<byte>): (b: seq<byte>)
    ensures |b| == |pad| + |data| + 3
  {
    [0, kind] + pad + [0] + data
  }

  function Ones(n: nat): (s: seq<byte>)
    ensures |s| == n && forall i :: 0 <= i < n ==> s[i] == 0xFF
  {
    seq(n, _ => 0xFF)
  }

  predicate NonZero(s: seq<byte>) {
    forall i :: 0 <= i < |s| ==> s[i] != 0
  }

  /** The place of the first zero octet from i on, or the length. */
  function FirstZero(b: seq<byte>, i: nat): (z: nat)
    requires i <= |b|
    ensures i <= z <= |b| && (z < |b| ==> b[z] == 0)
    ensures forall k :: i <= k < z ==> b[k] != 0
    decreases |b| - i
  {
    if i == |b| || b[i] == 0 then i else FirstZero(b, i + 1)
  }

  /** What rsa_pkcs1_decrypt makes of a decrypted block: the data behind the first zero octet. */
  function Unpad(b: seq<byte>): Option<seq<byte>>
    requires 2 <= |b|
  {
    if b[0] != 0 || b[1] != RSA_CRYPT then None
    else
      var z := FirstZero(b, 2);
      if z == |b| then None else Some(b[z + 1..])
  }

  lemma FirstZeroIs(b: seq<byte>, z: nat)
    requires 2 <= z < |b| && b[z] == 0 && forall k :: 2 <= k < z ==> b[k] != 0
    ensures FirstZero(b, 2) == z
  {
    assert FirstZero(b, 2) <= z;
  }

  /** Unpadding recovers exactly the padded data: a block unpads to data if and only if it is the
      data behind some nonzero padding. */
  lemma UnpadIsInverse(b: seq<byte>, data: seq<byte>)
    requires 2 <= |b|
    ensures Unpad(b) == Some(data) <==> exists pad :: NonZero(pad) && b == [0, 2] + pad + [0] + data
  {
    if Unpad(b) == Some(data) {
      var z := FirstZero(b, 2);
      var pad := b[2..z];
      assert NonZero(pad) && b == [0, 2] + pad + [0] + data;
    }
    if pad :| NonZero(pad) && b == [0, 2] + pad + [0] + data {
      UnpadBlock(pad, data);
    }
  }

  lemma UnpadBlock(pad: seq<byte>, data: seq<byte>)
    requires NonZero(pad)
    ensures Unpad(Block(RSA_CRYPT, pad, data)) == Some(data)
  {
    var b := Block(RSA_CRYPT, pad, data);
    var z := |pad| + 2;
    assert forall k :: 2 <= k < z ==> b[k] == pad[k - 2];
    FirstZeroIs(b, z);
    assert b[z + 1..] == data;
  }

  /** A block as long as the modulus is below it, thanks to its leading zero. */
  lemma BlockBelowModulus(b: seq<byte>, n: nat)
    requires |b| == OctetLen(n) && 0 < |b| && b[0] == 0
    ensures Os2ip(b) < n
  {
    hide Pow, Os2ip, OctetLen;
    LeadingZeros(b, 1);
    OctetBounds(b[1..]);
    OctetLenLeq(n, |b| - 1);
  }

  /** Octets of the modulus' length hold every residue. */
  lemma ResidueFits(x: nat, n: nat)
    requires x < n
    ensures OctetLen(x) <= OctetLen(n) && Os2ip(I2osp(x, OctetLen(n))) == x
  {
    hide Pow, Os2ip, I2osp, OctetLen;
    OctetLenLeq(n, OctetLen(n));
    OctetLenLeq(x, OctetLen(n));
    DecodeEncode(x, OctetLen(n));
  }

  // ---- the octet-level operations ----

  function PublicOctets(k: Key, s: seq<byte>): seq<byte>
    requires 0 < k.n
  {
    I2osp(Public(k, Os2ip(s)), |s|)
  }

  ghost function PrivateOctets(k: Key, s: seq<byte>): seq<byte>
    requires ValidKey(k)
  {
    CrtIsPlain(k, Os2ip(s));
    I2osp(PrivateCrt(k, Os2ip(s)), |s|)
  }

  /** The numbers that the two operations leave, in strings as long as the modulus. */
  lemma PublicOctetsAre(k: Key, s: seq<byte>)
    requires 0 < k.n && OctetLen(k.n) == |s|
    ensures |PublicOctets(k, s)| == |s| && Os2ip(PublicOctets(k, s)) == Pow(Os2ip(s), k.e) % k.n
  {
    hide Pow, Os2ip, I2osp, OctetLen;
    ResidueFits(Public(k, Os2ip(s)), k.n);
  }

  lemma PrivateOctetsAre(k: Key, s: seq<byte>)
    requires ValidKey(k) && OctetLen(k.n) == |s|
    ensures 0 < k.n && |PrivateOctets(k, s)| == |s| && Os2ip(PrivateOctets(k, s)) == Pow(Os2ip(s), k.d) % k.n
  {
    CrtIsPlain(k, Os2ip(s));
    hide Pow, Os2ip, I2osp, OctetLen, PrivateCrt;
    ResidueFits(PrivateCrt(k, Os2ip(s)), k.n);
  }

  /** On octet strings as long as the modulus, below the modulus, each operation undoes the other. */
  lemma OctetRoundTrip(k: Key, s: seq<byte>)
    requires ValidKey(k) && |s| == OctetLen(k.n) && Os2ip(s) < k.n
    ensures 0 < k.n && PrivateOctets(k, PublicOctets(k, s)) == s && Os2ip(PublicOctets(k, s)) < k.n
    ensures PublicOctets(k, PrivateOctets(k, s)) == s && Os2ip(PrivateOctets(k, s)) < k.n
  {
    var m := Os2ip(s);
    assert 0 < k.p && 0 < k.q;
    hide Pow, Os2ip, I2osp, OctetLen, ValidKey, PrivateCrt, Public;
    CrtIsPlain(k, m);
    PublicRange(k, m);
    RoundTrip(k, m);
    ResidueFits(Public(k, m), k.n);
    ResidueFits(PrivateCrt(k, m), k.n);
    EncodeDecode(s);
  }

  lemma PublicRange(k: Key, m: nat)
    requires 0 < k.n
    ensures Public(k, m) < k.n
  {
  }

  // ---- encryption ----

  /** Decrypting what was encrypted returns the message, for every choice of the padding. */
  lemma EncryptionRoundTrip(k: Key, pad: seq<byte>, msg: seq<byte>)
    requires ValidKey(k) && NonZero(pad) && |pad| + |msg| + 3 == OctetLen(k.n)
    ensures 0 < k.n && Os2ip(PublicOctets(k, Block(RSA_CRYPT, pad, msg))) < k.n
    ensures Unpad(PrivateOctets(k, PublicOctets(k, Block(RSA_CRYPT, pad, msg)))) == Some(msg)
  {
    hide Os2ip, I2osp, OctetLen, ValidKey, PrivateOctets, PublicOctets, Unpad;
    var b := Block(RSA_CRYPT, pad, msg);
    BlockBelowModulus(b, k.n);
    OctetRoundTrip(k, b);
    UnpadBlock(pad, msg);
  }

  // ---- signatures ----

  predicate IsMd(alg: int) { alg == RSA_MD2 || alg == RSA_MD4 || alg == RSA_MD5 }

  predicate Supported(alg: int) { alg == RSA_RAW || IsMd(alg) || alg == RSA_SHA1 }

  function MdOctet(alg: int): byte
    requires IsMd(alg)
  {
    if alg == RSA_MD2 then 2 else if alg == RSA_MD4 then 4 else 5
  }

  /** The octets of hash an algorithm reads. */
  function HashLen(alg: int, hashlen: nat): nat {
    if alg == RSA_RAW then hashlen else if IsMd(alg) then 16 else if alg == RSA_SHA1 then 20 else 0
  }

  /** What is signed: the raw hash, or a DigestInfo around it. */
  function DigestInfo(alg: int, hash: seq<byte>): seq<byte>
    requires Supported(alg)
  {
    if alg == RSA_RAW then hash
    else if IsMd(alg) then ASN1_HASH_MDX[13 := MdOctet(alg)] + hash
    else ASN1_HASH_SHA1 + hash
  }

  /** The block of len octets that rsa_pkcs1_sign signs. */
  function SignatureBlock(alg: int, hash: seq<byte>, len: nat): (b: seq<byte>)
    requires Supported(alg) && |DigestInfo(alg, hash)| + 3 <= len
    ensures |b| == len
  {
    var info := DigestInfo(alg, hash);
    Block(RSA_SIGN, Ones(len - 3 - |info|), info)
  }

  /** The parser of rsa_pkcs1_verify: the data behind the run of 0xFF octets. */
  function ParseSignature(b: seq<byte>): Option<seq<byte>>
    requires 2 <= |b|
  {
    if b[0] != 0 || b[1] != RSA_SIGN then None
    else
      var z := FirstZero(b, 2);
      if z < |b| && b[2..z] == Ones(z - 2) then Some(b[z + 1..]) else None
  }

  /** The verdict of rsa_pkcs1_verify on the data t. */
  function Verdict(t: seq<byte>, alg: int, hash: seq<byte>): int {
    var u := if |t| == 34 then t[13 := 0] else t;
    if |t| == 34 && u[..18] != ASN1_HASH_MDX then ERR_RSA_VERIFY_FAILED
    else if |t| == 34 && IsMd(alg) && t[13] == MdOctet(alg) then
      if t[18..] == hash then 0 else ERR_RSA_VERIFY_FAILED
    else if |t| == 35 && alg == RSA_SHA1 then
      if t[..15] == ASN1_HASH_SHA1 && t[15..] == hash then 0 else ERR_RSA_VERIFY_FAILED
    else if |t| == |hash| && alg == RSA_RAW then
      if u == hash then 0 else ERR_RSA_VERIFY_FAILED
    else ERR_RSA_INVALID_PADDING
  }

  function VerifyBlock(b: seq<byte>, alg: int, hash: seq<byte>): int
    requires 2 <= |b|
  {
    match ParseSignature(b)
    case None => ERR_RSA_INVALID_PADDING
    case Some(t) => Verdict(t, alg, hash)
  }

  /** The data that verification accepts: the DigestInfo of the hash, but a raw hash of 34 octets
      has to look like an MD DigestInfo itself, and then octet 13 of the data is not looked at. */
  predicate Matches(t: seq<byte>, alg: int, hash: seq<byte>)
    requires Supported(alg)
  {
    if alg == RSA_RAW && |hash| == 34 then hash[..18] == ASN1_HASH_MDX && |t| == 34 && t[13 := 0] == hash
    else t == DigestInfo(alg, hash)
  }

  lemma ParseIsInverse(b: seq<byte>, t: seq<byte>)
    requires 2 <= |b|
    ensures ParseSignature(b) == Some(t) <==>
            |t| + 3 <= |b| && b == [0, 1] + Ones(|b| - |t| - 3) + [0] + t
  {
    if ParseSignature(b) == Some(t) {
      var z := FirstZero(b, 2);
      assert b == [b[0], b[1]] + b[2..z] + [b[z]] + b[z + 1..];
    }
    if |t| + 3 <= |b| && b == Block(RSA_SIGN, Ones(|b| - |t| - 3), t) {
      var z := |b| - |t| - 1;
      assert forall k :: 2 <= k < z ==> b[k] == Ones(z - 2)[k - 2];
      FirstZeroIs(b, z);
      assert b[2..z] == Ones(z - 2) && b[z + 1..] == t;
    }
  }

  /** The data of length 34 that passes the first comparison is the MD prefix with its member octet. */
  lemma MdPrefix(t: seq<byte>)
    requires |t| == 34
    ensures t[13 := 0][..18] == ASN1_HASH_MDX <==> t[..18] == ASN1_HASH_MDX[13 := t[13]]
  {
    var u := t[13 := 0];
    if u[..18] == ASN1_HASH_MDX {
      assert forall k :: 0 <= k < 18 && k != 13 ==> t[k] == u[..18][k];
    }
    if t[..18] == ASN1_HASH_MDX[13 := t[13]] {
      assert forall k :: 0 <= k < 18 && k != 13 ==> u[k] == t[..18][k];
    }
  }

  /** The parser accepts exactly the data that matches. */
  lemma VerdictIsZero(t: seq<byte>, alg: int, hash: seq<byte>)
    requires Supported(alg) && |hash| == HashLen(alg, |hash|)
    ensures Verdict(t, alg, hash) == 0 <==> Matches(t, alg, hash)
  {
    if alg == RSA_RAW {
      RawVerdict(t, hash);
    } else if IsMd(alg) {
      MdVerdict(t, alg, hash);
    } else {
      assert |t| == 35 ==> t == t[..15] + t[15..];
    }
  }

  /** Data of the length that the algorithm calls for, or of 34 octets without the MD prefix, fails the
      comparison; anything else that is refused has the wrong format. */
  lemma VerdictCode(t: seq<byte>, alg: int, hash: seq<byte>)
    requires Supported(alg) && |hash| == HashLen(alg, |hash|) && Verdict(t, alg, hash) != 0
    ensures Verdict(t, alg, hash) ==
      if (|t| == 34 && t[13 := 0][..18] != ASN1_HASH_MDX)
         || (|t| == |DigestInfo(alg, hash)| && (alg in {2, 3, 4} ==> t[13] == DigestInfo(alg, hash)[13]))
      then ERR_RSA_VERIFY_FAILED else ERR_RSA_INVALID_PADDING
  {
  }

  lemma MdVerdict(t: seq<byte>, alg: int, hash: seq<byte>)
    requires IsMd(alg) && |hash| == 16
    ensures Verdict(t, alg, hash) == 0 <==> t == DigestInfo(alg, hash)
  {
    if |t| == 34 {
      MdPrefix(t);
      assert t == t[..18] + t[18..];
      assert ASN1_HASH_MDX[13 := t[13]][13] == t[13];
    }
  }

  lemma RawVerdict(t: seq<byte>, hash: seq<byte>)
    ensures Verdict(t, RSA_RAW, hash) == 0 <==> Matches(t, RSA_RAW, hash)
  {
  }

  /** Verification accepts exactly the block that signing makes, except for raw hashes of 34 octets. */
  lemma VerifiesOnlyItsBlock(b: seq<byte>, alg: int, hash: seq<byte>)
    requires Supported(alg) && |hash| == HashLen(alg, |hash|) && 2 <= |b|
    requires !(alg == RSA_RAW && |hash| == 34)
    ensures VerifyBlock(b, alg, hash) == 0 <==>
            |DigestInfo(alg, hash)| + 3 <= |b| && b == SignatureBlock(alg, hash, |b|)
  {
    hide DigestInfo, Verdict, ParseSignature;
    var info := DigestInfo(alg, hash);
    ParseIsInverse(b, info);
    if ParseSignature(b).Some? {
      VerdictIsZero(ParseSignature(b).value, alg, hash);
    } else {
      VerdictIsZero(info, alg, hash);
    }
  }

  /** Raw hashes of 34 octets: their own block verifies only if they look like an MD DigestInfo. */
  lemma RawDigestInfo(hash: seq<byte>, len: nat)
    requires |hash| == 34 && 37 <= len
    ensures VerifyBlock(SignatureBlock(RSA_RAW, hash, len), RSA_RAW, hash) == 0 <==> hash[..18] == ASN1_HASH_MDX
  {
    hide Verdict, ParseSignature;
    ParseIsInverse(SignatureBlock(RSA_RAW, hash, len), hash);
    VerdictIsZero(hash, RSA_RAW, hash);
    assert hash[..18] == ASN1_HASH_MDX ==> hash[13] == hash[..18][13] == 0;
  }

  /** A concrete raw hash whose own signature is refused. */
  lemma RawHashRefused(len: nat)
    requires 37 <= len
    ensures VerifyBlock(SignatureBlock(RSA_RAW, Ones(34), len), RSA_RAW, Ones(34)) != 0
  {
    RawDigestInfo(Ones(34), len);
    assert Ones(34)[..18][0] == 0xFF;
  }

  ghost function Signature(k: Key, alg: int, hash: seq<byte>): seq<byte>
    requires ValidKey(k) && Supported(alg) && |DigestInfo(alg, hash)| + 3 <= OctetLen(k.n)
  {
    PrivateOctets(k, SignatureBlock(alg, hash, OctetLen(k.n)))
  }

  /** Verification accepts a signature if and only if it is the one signing makes. */
  lemma VerifiesOnlyTheSignature(k: Key, alg: int, hash: seq<byte>, sig: seq<byte>)
    requires ValidKey(k) && Supported(alg) && |hash| == HashLen(alg, |hash|)
    requires |DigestInfo(alg, hash)| + 3 <= OctetLen(k.n) && !(alg == RSA_RAW && |hash| == 34)
    requires |sig| == OctetLen(k.n) && Os2ip(sig) < k.n
    ensures 0 < k.n && (VerifyBlock(PublicOctets(k, sig), alg, hash) == 0 <==> sig == Signature(k, alg, hash))
  {
    hide Os2ip, I2osp, OctetLen, ValidKey, PrivateOctets, PublicOctets, VerifyBlock, DigestInfo;
    var b := SignatureBlock(alg, hash, OctetLen(k.n));
    BlockBelowModulus(b, k.n);
    OctetRoundTrip(k, sig);
    OctetRoundTrip(k, b);
    PublicLength(k, sig);
    VerifiesOnlyItsBlock(PublicOctets(k, sig), alg, hash);
  }

  lemma PublicLength(k: Key, s: seq<byte>)
    requires 0 < k.n
    ensures |PublicOctets(k, s)| == |s|
  {
  }

  /** Verification accepts what signing makes; a raw hash of 34 octets exactly when it looks like an
      MD DigestInfo. */
  lemma SignatureRoundTrip(k: Key, alg: int, hash: seq<byte>)
    requires ValidKey(k) && Supported(alg) && |hash| == HashLen(alg, |hash|)
    requires |DigestInfo(alg, hash)| + 3 <= OctetLen(k.n)
    ensures 0 < k.n && Os2ip(Signature(k, alg, hash)) < k.n
    ensures VerifyBlock(PublicOctets(k, Signature(k, alg, hash)), alg, hash) == 0 <==>
            (alg == RSA_RAW && |hash| == 34 ==> hash[..18] == ASN1_HASH_MDX)
  {
    hide Os2ip, I2osp, OctetLen, ValidKey, PrivateOctets, PublicOctets, VerifyBlock;
    var b := SignatureBlock(alg, hash, OctetLen(k.n));
    BlockBelowModulus(b, k.n);
    OctetRoundTrip(k, b);
    if alg == RSA_RAW && |hash| == 34 {
      RawDigestInfo(hash, OctetLen(k.n));
    } else {
      VerifiesOnlyItsBlock(b, alg, hash);
    }
  }
}
