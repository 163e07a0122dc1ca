/** The four PKCS#1 v1.5 calls of rsa.c on caller-owned buffers. */
module RsaPkcs1 {
  import opened Arithmetic
  import opened Bytes
  import opened Mpis
  import opened SlidingWindow
  import opened Octets
  import opened RsaMath
  import opened Rsa
  import opened Der
  import opened Pkcs1

  /** memcpy of n octets to offset at of dst. */
  method Memcpy(dst: array<byte>, at: nat, src: seq<byte>, n: nat)
    requires at + n <= dst.Length && n <= |src|
    modifies dst
    ensures dst[..at + n] == old(dst[..at]) + src[..n] && dst[at + n..] == old(dst[at + n..])
  {
    var k := 0;
    while k < n
      invariant k <= n
      invariant dst[..at + k] == old(dst[..at]) + src[..k] && dst[at + k..] == old(dst[at + k..])
    {
      dst[at + k] := src[k];
      k := k + 1;
    }
  }

  /** The context knows the length of its modulus. */
  ghost predicate LengthOk(ctx: RsaContext)
    reads ctx, ctx.N
  {
    ctx.len == OctetLen(ctx.N.Mag())
  }

  // ---- the two RSA operations at the length of the modulus ----

  method PublicAtLength(ctx: RsaContext, input: array<byte>, output: array<byte>, len: nat)
    returns (ret: int)
    requires ctx.PublicOk() && LengthOk(ctx) && len == ctx.len && len <= input.Length && len <= output.Length
    modifies ctx.RN, output
    ensures ctx.PublicOk() && LengthOk(ctx)
    ensures ret ==
      if ctx.N.Mag() <= Os2ip(old(input[..len])) then ERR_RSA_BAD_INPUT_DATA
      else if ctx.N.Mag() % 2 == 0 then ERR_RSA_PUBLIC_FAILED + ERR_MPI_INVALID_PARAMETER
      else 0
    ensures ret != 0 ==> output[..] == old(output[..])
    ensures ret == 0 ==> ctx.N.Mag() != 0 && output[len..] == old(output[len..])
    ensures ret == 0 ==> output[..len] == PublicOctets(ctx.PrivateKey(), old(input[..len]))
  {
    hide Os2ip, I2osp, OctetLen, Pow, CacheOk;
    ghost var m := Os2ip(input[..len]);
    if m < ctx.N.Mag() {
      PublicRange(ctx.PrivateKey(), m);
      ResidueFits(Public(ctx.PrivateKey(), m), ctx.N.Mag());
    }
    var len';
    ret, len' := RsaPublic(ctx, input, len, output, len);
  }

  method PrivateAtLength(ctx: RsaContext, input: array<byte>, output: array<byte>, len: nat)
    returns (ret: int)
    requires ctx.PrivateOk() && LengthOk(ctx) && len == ctx.len && len <= input.Length && len <= output.Length
    modifies ctx.RP, ctx.RQ, output
    ensures ctx.PrivateOk() && LengthOk(ctx)
    ensures ret == if ctx.N.Mag() <= Os2ip(old(input[..len])) then ERR_RSA_BAD_INPUT_DATA else 0
    ensures ret != 0 ==> output[..] == old(output[..])
    ensures ret == 0 ==> output[len..] == old(output[len..])
    ensures ret == 0 ==> output[..len] == PrivateOctets(ctx.PrivateKey(), old(input[..len]))
  {
    hide Os2ip, I2osp, OctetLen, Pow, CacheOk, ValidKey, PrivateOctets;
    PrivateFits(ctx.PrivateKey(), input[..len]);
    var len';
    ret, len' := RsaPrivate(ctx, input, len, output, len);
  }

  lemma PrivateFits(k: Key, s: seq<byte>)
    requires ValidKey(k)
    ensures 0 < k.n && OctetLen(Pow(Os2ip(s), k.d) % k.n) <= OctetLen(k.n)
    ensures PrivateOctets(k, s) == I2osp(Pow(Os2ip(s), k.d) % k.n, |s|)
  {
    hide Pow, Os2ip, I2osp, OctetLen, PrivateCrt;
    CrtIsPlain(k, Os2ip(s));
    ResidueFits(PrivateCrt(k, Os2ip(s)), k.n);
  }

  // ---- encryption ----

  /** rsa_pkcs1_encrypt; pad holds the nonzero octets that the random source delivers. */
  method Encrypt(ctx: RsaContext, input: array<byte>, ilen: nat, output: array<byte>, olen: int, pad: seq<byte>)
    returns (ret: int)
    requires ctx.PublicOk() && LengthOk(ctx)
    requires input != output && ilen <= input.Length && olen <= output.Length
    requires (forall i :: 0 <= i < |pad| ==> pad[i] != 0) && (ilen + 11 <= olen ==> |pad| == olen - 3 - ilen)
    modifies ctx.RN, output
    ensures ctx.PublicOk() && LengthOk(ctx)
    ensures ret ==
      if olen != ctx.len || olen < ilen + 11 then ERR_RSA_BAD_INPUT_DATA
      else if ctx.N.Mag() % 2 == 0 then ERR_RSA_PUBLIC_FAILED + ERR_MPI_INVALID_PARAMETER
      else 0
    ensures ret == ERR_RSA_BAD_INPUT_DATA ==> output[..] == old(output[..])
    ensures ret == 0 ==> ctx.N.Mag() != 0 && 0 <= olen && output[olen..] == old(output[olen..])
    ensures ret == 0 ==> output[..olen] == PublicOctets(ctx.PrivateKey(), Block(RSA_CRYPT, pad, input[..ilen]))
    ensures ret == 0 ==>
      Os2ip(output[..olen]) == Pow(Os2ip([0, 2] + pad + [0] + input[..ilen]), ctx.E.Mag()) % ctx.N.Mag()
  {
    hide Os2ip, I2osp, OctetLen, Pow, CacheOk, Public;
    if olen != ctx.len || olen < ilen + 11 {
      return ERR_RSA_BAD_INPUT_DATA;
    }
    WriteCryptBlock(input, ilen, output, olen, pad);
    BlockBelowModulus(output[..olen], ctx.N.Mag());
    PublicOctetsAre(ctx.PrivateKey(), output[..olen]);
    ret := PublicAtLength(ctx, output, output, olen);
  }

  method WriteCryptBlock(input: array<byte>, ilen: nat, output: array<byte>, olen: nat, pad: seq<byte>)
    requires input != output && ilen <= input.Length && olen <= output.Length
    requires ilen + 11 <= olen && |pad| == olen - 3 - ilen
    modifies output
    ensures output[..olen] == Block(RSA_CRYPT, pad, input[..ilen]) && output[olen..] == old(output[olen..])
  {
    var nbPad := olen - 3 - ilen;
    output[0] := 0;
    output[1] := RSA_CRYPT;
    var p := 2;
    while p < 2 + nbPad
      invariant 2 <= p <= 2 + nbPad
      invariant output[..p] == [0, RSA_CRYPT] + pad[..p - 2] && output[olen..] == old(output[olen..])
    {
      output[p] := pad[p - 2];
      p := p + 1;
    }
    output[p] := 0;
    p := p + 1;
    assert output[..p] == Block(RSA_CRYPT, pad, []);
    Memcpy(output, p, input[..], ilen);
    assert Block(RSA_CRYPT, pad, []) + input[..ilen] == Block(RSA_CRYPT, pad, input[..ilen]);
  }

  /** rsa_pkcs1_decrypt */
  method Decrypt(ctx: RsaContext, input: array<byte>, ilen: nat, output: array<byte>, olen: int)
    returns (ret: int, olen': int)
    requires ctx.PrivateOk() && LengthOk(ctx) && ilen <= input.Length && olen <= output.Length
    modifies ctx.RP, ctx.RQ, output
    ensures ctx.PrivateOk() && LengthOk(ctx)
    ensures ret == ERR_RSA_BAD_INPUT_DATA <==>
            ilen != ctx.len || ilen < 16 || 512 < ilen || ctx.N.Mag() <= Os2ip(old(input[..ilen]))
    ensures ret != ERR_RSA_BAD_INPUT_DATA ==> Unpadded(
                PrivateOctets(ctx.PrivateKey(), old(input[..ilen])), ret, olen, olen', old(output[..]), output[..])
    ensures ret != 0 ==> olen' == olen && output[..] == old(output[..])
  {
    hide Os2ip, I2osp, OctetLen, Pow, CacheOk, ValidKey, PrivateCrt;
    olen' := olen;
    if ilen != ctx.len || ilen < 16 || ilen > 512 {
      return ERR_RSA_BAD_INPUT_DATA, olen;
    }
    var buf := new byte[512];
    ret := PrivateAtLength(ctx, input, buf, ilen);
    if ret != 0 {
      return;
    }
    ret, olen' := StripPadding(buf, ilen, output, olen);
  }

  /** The outcome of unpadding block b into a buffer for olen octets: the message and its length, or
      an error when there is no separator or the message does not fit. */
  ghost predicate Unpadded(b: seq<byte>, ret: int, olen: int, olen': int, before: seq<byte>, after: seq<byte>)
    requires 2 <= |b|
  {
    match Unpad(b)
    case None => ret == ERR_RSA_INVALID_PADDING
    case Some(msg) =>
      && ret == (if olen < |msg| then ERR_RSA_INVALID_PADDING else 0)
      && (ret == 0 ==> olen' == |msg| && |after| == |before| && |msg| <= |before|)
      && (ret == 0 ==> after == msg + before[|msg|..])
  }

  /** The message behind 0, 2, nonzero octets and 0 if it fits; every other block is refused. */
  lemma UnpaddedIs(b: seq<byte>, pad: seq<byte>, msg: seq<byte>, ret: int, olen: int, olen': int,
          before: seq<byte>, after: seq<byte>)
    requires 2 <= |b| && Unpadded(b, ret, olen, olen', before, after)
    ensures b == [0, 2] + pad + [0] + msg && (forall i :: 0 <= i < |pad| ==> pad[i] != 0) ==>
      if olen < |msg| then ret == ERR_RSA_INVALID_PADDING
      else ret == 0 && olen' == |msg| && |msg| <= |before| && after == msg + before[|msg|..]
    ensures ret != ERR_RSA_INVALID_PADDING ==>
      && ret == 0 && b[0] == 0 && b[1] == 2
      && exists z :: 2 <= z < |b| && b[z] == 0 && forall i :: 2 <= i < z ==> b[i] != 0
  {
    if b == [0, 2] + pad + [0] + msg && NonZero(pad) {
      UnpadBlock(pad, msg);
    }
    assert Unpad(b).Some? ==> b[FirstZero(b, 2)] == 0;
  }

  /** The second half of rsa_pkcs1_decrypt. */
  method StripPadding(buf: array<byte>, ilen: nat, output: array<byte>, olen: int) returns (ret: int, olen': int)
    requires 16 <= ilen <= buf.Length && olen <= output.Length && buf != output
    modifies output
    ensures Unpadded(buf[..ilen], ret, olen, olen', old(output[..]), output[..])
    ensures ret != 0 ==> olen' == olen && output[..] == old(output[..])
    ensures ret == 0 || ret == ERR_RSA_INVALID_PADDING
  {
    var p;
    ret, p := FindData(buf, ilen);
    if ret != 0 {
      return ret, olen;
    }
    if olen < ilen - p {
      return ERR_RSA_INVALID_PADDING, olen;
    }
    olen' := ilen - p;
    Memcpy(output, 0, buf[p..ilen], olen');
    assert output[..] == output[..olen'] + output[olen'..];
    assert old(output[..])[olen'..] == old(output[olen'..]);
  }

  /** The parser of rsa_pkcs1_decrypt: the start of the data. */
  method FindData(buf: array<byte>, ilen: nat) returns (ret: int, p: nat)
    requires 16 <= ilen <= buf.Length
    ensures ret == if Unpad(buf[..ilen]).None? then ERR_RSA_INVALID_PADDING else 0
    ensures ret == 0 ==> p <= ilen && Unpad(buf[..ilen]) == Some(buf[p..ilen])
  {
    ghost var b := buf[..ilen];
    p := 0;
    if buf[0] != 0 || buf[1] != RSA_CRYPT {
      return ERR_RSA_INVALID_PADDING, 0;
    }
    p := 2;
    while buf[p] != 0
      invariant 2 <= p < ilen && FirstZero(b, 2) == FirstZero(b, p)
      decreases ilen - p
    {
      if p >= ilen - 1 {
        assert FirstZero(b, p) == FirstZero(b, p + 1) == ilen;
        return ERR_RSA_INVALID_PADDING, 0;
      }
      p := p + 1;
    }
    p := p + 1;
    assert b[p..] == buf[p..ilen];
    return 0, p;
  }

  // ---- signatures ----

  /** The caller's hash buffer holds what the algorithm reads. */
  predicate HashReady(alg: int, hash: array<byte>, hashlen: nat) {
    HashLen(alg, hashlen) <= hash.Length
  }

  /** rsa_pkcs1_sign */
  method Sign(ctx: RsaContext, alg: int, hash: array<byte>, hashlen: nat, sig: array<byte>, siglen: nat)
    returns (ret: int)
    requires ctx.PrivateOk() && LengthOk(ctx) && siglen <= sig.Length && hash != sig && HashReady(alg, hash, hashlen)
    modifies ctx.RP, ctx.RQ, sig
    ensures ctx.PrivateOk() && LengthOk(ctx)
    ensures ret ==
      if siglen == ctx.len && 16 <= siglen &&
         ((alg == 0 && hashlen + 11 <= siglen) || (alg in {2, 3, 4} && 45 <= siglen) || (alg == 5 && 46 <= siglen))
      then 0 else ERR_RSA_BAD_INPUT_DATA
    ensures ret != 0 ==> sig[..] == old(sig[..])
    ensures ret == 0 ==> sig[siglen..] == old(sig[siglen..])
    ensures ret == 0 ==> sig[..siglen] == Signature(ctx.PrivateKey(), alg, hash[..HashLen(alg, hashlen)])
  {
    hide Os2ip, I2osp, OctetLen, Pow, CacheOk, ValidKey, PrivateOctets;
    if siglen != ctx.len || siglen < 16 {
      return ERR_RSA_BAD_INPUT_DATA;
    }
    var nbPad;
    if alg == RSA_RAW {
      nbPad := siglen - 3 - hashlen;
    } else if alg == RSA_MD2 || alg == RSA_MD4 || alg == RSA_MD5 {
      nbPad := siglen - 3 - 34;
    } else if alg == RSA_SHA1 {
      nbPad := siglen - 3 - 35;
    } else {
      return ERR_RSA_BAD_INPUT_DATA;
    }
    if nbPad < 8 {
      return ERR_RSA_BAD_INPUT_DATA;
    }
    WriteSignatureBlock(alg, hash, hashlen, sig, siglen, nbPad);
    BlockBelowModulus(sig[..siglen], ctx.N.Mag());
    ret := PrivateAtLength(ctx, sig, sig, siglen);
  }

  method WriteSignatureBlock(alg: int, hash: array<byte>, hashlen: nat, sig: array<byte>, siglen: nat, nbPad: nat)
    requires hash != sig && siglen <= sig.Length && Supported(alg) && HashReady(alg, hash, hashlen)
    requires nbPad + 3 + |DigestInfo(alg, hash[..HashLen(alg, hashlen)])| == siglen
    modifies sig
    ensures sig[..siglen] == SignatureBlock(alg, hash[..HashLen(alg, hashlen)], siglen)
    ensures sig[siglen..] == old(sig[siglen..])
  {
    hide DigestInfo;
    sig[0] := 0;
    sig[1] := RSA_SIGN;
    Memcpy(sig, 2, Ones(nbPad), nbPad);
    var p := 2 + nbPad;
    sig[p] := 0;
    p := p + 1;
    assert sig[..p] == Block(RSA_SIGN, Ones(nbPad), []);
    WriteDigestInfo(alg, hash, hashlen, sig, p);
  }

  method WriteDigestInfo(alg: int, hash: array<byte>, hashlen: nat, sig: array<byte>, p: nat)
    requires hash != sig && Supported(alg) && HashReady(alg, hash, hashlen)
    requires p + |DigestInfo(alg, hash[..HashLen(alg, hashlen)])| <= sig.Length
    modifies sig
    ensures var info := DigestInfo(alg, hash[..HashLen(alg, hashlen)]);
      sig[..p + |info|] == old(sig[..p]) + info && sig[p + |info|..] == old(sig[p + |info|..])
  {
    if alg == RSA_RAW {
      Memcpy(sig, p, hash[..], hashlen);
    } else if alg == RSA_SHA1 {
      Memcpy(sig, p, ASN1_HASH_SHA1, 15);
      Memcpy(sig, p + 15, hash[..], 20);
    } else {
      WriteMdInfo(MdOctet(alg), hash, sig, p);
    }
  }

  method WriteMdInfo(c: byte, hash: array<byte>, sig: array<byte>, p: nat)
    requires hash != sig && 16 <= hash.Length && p + 34 <= sig.Length
    modifies sig
    ensures sig[..p + 34] == old(sig[..p]) + (ASN1_HASH_MDX[13 := c] + hash[..16])
    ensures sig[p + 34..] == old(sig[p + 34..])
  {
    Memcpy(sig, p, ASN1_HASH_MDX, 18);
    ghost var tail := sig[p + 18..];
    sig[p + 13] := c;
    assert sig[..p + 18] == old(sig[..p]) + ASN1_HASH_MDX[13 := c];
    assert sig[p + 18..] == tail;
    Memcpy(sig, p + 18, hash[..], 16);
    assert sig[p + 34..] == tail[16..];
  }

  /** rsa_pkcs1_verify */
  method Verify(ctx: RsaContext, alg: int, hash: array<byte>, hashlen: nat, sig: array<byte>, siglen: nat)
    returns (ret: int)
    requires ctx.PublicOk() && LengthOk(ctx) && siglen <= sig.Length && HashReady(alg, hash, hashlen)
    modifies ctx.RN
    ensures ctx.PublicOk() && LengthOk(ctx)
    ensures ret == ERR_RSA_BAD_INPUT_DATA <==>
            siglen != ctx.len || siglen < 16 || 512 < siglen || ctx.N.Mag() <= Os2ip(sig[..siglen])
    ensures ret != ERR_RSA_BAD_INPUT_DATA && ctx.N.Mag() % 2 == 0 ==>
              ret == ERR_RSA_PUBLIC_FAILED + ERR_MPI_INVALID_PARAMETER
    ensures ret != ERR_RSA_BAD_INPUT_DATA && ctx.N.Mag() % 2 != 0 ==>
              ret == VerifyBlock(PublicOctets(ctx.PrivateKey(), sig[..siglen]), alg, hash[..HashLen(alg, hashlen)])
  {
    hide Os2ip, I2osp, OctetLen, Pow, CacheOk, VerifyBlock, Public;
    if siglen != ctx.len || siglen < 16 || siglen > 512 {
      return ERR_RSA_BAD_INPUT_DATA;
    }
    var buf := new byte[512];
    ret := PublicAtLength(ctx, sig, buf, siglen);
    if ret != 0 {
      return;
    }
    ret := CheckBlock(buf, siglen, alg, hash, hashlen);
  }

  /** The second half of rsa_pkcs1_verify. */
  method CheckBlock(buf: array<byte>, siglen: nat, alg: int, hash: array<byte>, hashlen: nat) returns (ret: int)
    requires 16 <= siglen <= buf.Length && HashReady(alg, hash, hashlen) && buf != hash
    modifies buf
    ensures ret == VerifyBlock(old(buf[..siglen]), alg, hash[..HashLen(alg, hashlen)])
    ensures ret != ERR_RSA_BAD_INPUT_DATA
  {
    hide Verdict;
    VerdictCodes(buf[..siglen], alg, hash[..HashLen(alg, hashlen)]);
    ghost var b := buf[..siglen];
    if buf[0] != 0 || buf[1] != RSA_SIGN {
      return ERR_RSA_INVALID_PADDING;
    }
    var p := 2;
    while buf[p] != 0
      invariant 2 <= p < siglen && FirstZero(b, 2) == FirstZero(b, p)
      invariant forall k :: 2 <= k < p ==> b[k] == 0xFF
      decreases siglen - p
    {
      if p >= siglen - 1 || buf[p] != 0xFF {
        NoSeparator(b, p);
        return ERR_RSA_INVALID_PADDING;
      }
      p := p + 1;
    }
    p := p + 1;
    assert b[2..p - 1] == Ones(p - 3);
    ret := CheckData(buf, p, siglen, alg, hash, hashlen);
  }

  lemma NoSeparator(b: seq<byte>, p: nat)
    requires 2 <= p < |b| && b[p] != 0 && (p == |b| - 1 || b[p] != 0xFF) && FirstZero(b, 2) == FirstZero(b, p)
    ensures ParseSignature(b).None?
  {
    assert FirstZero(b, p) == FirstZero(b, p + 1);
    assert b[2..FirstZero(b, 2)][p - 2] == b[p];
  }

  lemma VerdictCodes(b: seq<byte>, alg: int, hash: seq<byte>)
    requires 2 <= |b|
    ensures VerifyBlock(b, alg, hash) != ERR_RSA_BAD_INPUT_DATA
  {
  }

  /** memcmp(&buf[at], s, |s|) == 0 */
  method Same(buf: array<byte>, at: nat, s: seq<byte>) returns (same: bool)
    requires at + |s| <= buf.Length
    ensures same <==> buf[at..at + |s|] == s
  {
    var k := 0;
    while k < |s|
      invariant k <= |s| && forall h :: 0 <= h < k ==> buf[at + h] == s[h]
    {
      if buf[at + k] != s[k] {
        assert buf[at..at + |s|][k] != s[k];
        return false;
      }
      k := k + 1;
    }
    return true;
  }

  /** The comparisons at the end of rsa_pkcs1_verify, on the data from p on. */
  method CheckData(buf: array<byte>, p: nat, siglen: nat, alg: int, hash: array<byte>, hashlen: nat) returns (ret: int)
    requires p <= siglen <= buf.Length && HashReady(alg, hash, hashlen) && buf != hash
    modifies buf
    ensures ret == Verdict(old(buf[p..siglen]), alg, hash[..HashLen(alg, hashlen)])
  {
    var len := siglen - p;
    if len == 34 {
      ghost var t := buf[p..siglen];
      var c := buf[p + 13];
      buf[p + 13] := 0;
      assert buf[p..siglen] == t[13 := 0];
      assert buf[p..p + 18] == t[13 := 0][..18] && buf[p + 18..p + 34] == t[18..];
      var r := Same(buf, p, ASN1_HASH_MDX);
      if !r {
        return ERR_RSA_VERIFY_FAILED;
      }
      if (c == 2 && alg == RSA_MD2) || (c == 4 && alg == RSA_MD4) || (c == 5 && alg == RSA_MD5) {
        r := Same(buf, p + 18, hash[..16]);
        return if r then 0 else ERR_RSA_VERIFY_FAILED;
      }
    }
    if len == 35 && alg == RSA_SHA1 {
      var r := Same(buf, p, ASN1_HASH_SHA1);
      if r {
        r := Same(buf, p + 15, hash[..20]);
      }
      return if r then 0 else ERR_RSA_VERIFY_FAILED;
    }
    if len == hashlen && alg == RSA_RAW {
      var r := Same(buf, p, hash[..hashlen]);
      return if r then 0 else ERR_RSA_VERIFY_FAILED;
    }
    return ERR_RSA_INVALID_PADDING;
  }
}
