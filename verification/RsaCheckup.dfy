/** The checkup of rsa.c, for every key, message and hash: what is encrypted is decrypted again, and
    what is signed is verified, all on the caller's buffers. */
module RsaCheckup {
  import opened Arithmetic
  import opened Bytes
  import opened NumberTheory
  import opened MpiAddSub
  import opened MpiDiv
  import opened SlidingWindow
  import opened Octets
  import opened RsaMath
  import opened Rsa
  import opened GcdInverse
  import opened RsaKey
  import opened Der
  import opened Pkcs1
  import opened Pkcs1Format
  import opened RsaPkcs1

  /** The error codes of bignum.h and rsa.h that the model returns. */
  lemma ErrorCodes()
    ensures ERR_MPI_INVALID_PARAMETER == 0x0004 && ERR_MPI_BUFFER_TOO_SMALL == 0x0006
    ensures ERR_MPI_NEGATIVE_VALUE == 0x0008 && ERR_MPI_DIVISION_BY_ZERO == 0x000A && ERR_MPI_NOT_INVERTIBLE == 0x000C
    ensures ERR_RSA_BAD_INPUT_DATA == 0x0300 && ERR_RSA_INVALID_PADDING == 0x0310 && ERR_RSA_KEY_CHK_FAILED == 0x0330
    ensures ERR_RSA_PUBLIC_FAILED == 0x0340 && ERR_RSA_PRIVATE_FAILED == 0x0350 && ERR_RSA_VERIFY_FAILED == 0x0360
  {
  }

  lemma OddKey(k: Key)
    requires ValidKey(k)
    ensures k.n % 2 == 1
  {
    hide IsPrime, Cong;
    OddProduct(k.p, k.q);
  }

  lemma OddProduct(p: int, q: int)
    requires p % 2 == 1 && q % 2 == 1
    ensures (p * q) % 2 == 1
  {
    var g, h := p / 2, q / 2;
    OddTimes(p, h);
    assert p * q == 2 * (p * h + g) + 1;
  }

  /** rsa_pkcs1_encrypt into cipher, and rsa_pkcs1_decrypt of that into output. */
  method EncryptThenDecrypt(ctx: RsaContext, input: array<byte>, ilen: nat, cipher: array<byte>,
          output: array<byte>, olen: nat, pad: seq<byte>)
    returns (ret: int, olen': int)
    requires ctx.PrivateOk() && LengthOk(ctx) && 16 <= ctx.len <= 512 && ilen + 11 <= ctx.len
    requires (forall i :: 0 <= i < |pad| ==> pad[i] != 0) && |pad| == ctx.len - 3 - ilen
    requires cipher !in {input, output} && ilen <= input.Length && ctx.len <= cipher.Length
    requires ilen <= olen <= output.Length
    modifies ctx.RN, ctx.RP, ctx.RQ, cipher, output
    ensures ret == 0 && olen' == ilen && output[..ilen] == old(input[..ilen]) && output[ilen..] == old(output[ilen..])
    ensures ctx.PrivateOk() && LengthOk(ctx)
  {
    hide Os2ip, I2osp, OctetLen, Pow, CacheOk, ValidKey, Public, PrivateCrt, Unpad, Block;
    ghost var k, msg := ctx.PrivateKey(), input[..ilen];
    ghost var before := output[..];
    OddKey(k);
    EncryptionRoundTrip(k, pad, msg);
    ret := Encrypt(ctx, input, ilen, cipher, ctx.len, pad);
    assert cipher[..ctx.len] == PublicOctets(k, Block(RSA_CRYPT, pad, msg));
    ret, olen' := Decrypt(ctx, cipher, ctx.len, output, olen);
    assert output[..] == msg + before[ilen..];
    assert output[..ilen] == output[..][..ilen] && output[ilen..] == output[..][ilen..];
  }

  /** rsa_pkcs1_sign into sig, and rsa_pkcs1_verify of that: accepted, but for a raw hash of 34 octets
      that does not look like a DigestInfo. */
  method SignThenVerify(ctx: RsaContext, alg: int, hash: array<byte>, hashlen: nat, sig: array<byte>) returns (ret: int)
    requires ctx.PrivateOk() && LengthOk(ctx) && 16 <= ctx.len <= 512 && ctx.len <= sig.Length && hash != sig
    requires HashReady(alg, hash, hashlen)
    requires (alg == 0 && hashlen + 11 <= ctx.len) || (alg in {2, 3, 4} && 45 <= ctx.len) || (alg == 5 && 46 <= ctx.len)
    modifies ctx.RN, ctx.RP, ctx.RQ, sig
    ensures ret == 0 <==> (alg == 0 && hashlen == 34 ==> hash[..18] == ASN1_HASH_MDX)
    ensures ctx.PrivateOk() && LengthOk(ctx) && hash[..] == old(hash[..])
  {
    hide Os2ip, I2osp, OctetLen, Pow, CacheOk, ValidKey, Public, PrivateCrt, VerifyBlock, DigestInfo;
    ghost var k, h := ctx.PrivateKey(), hash[..HashLen(alg, hashlen)];
    OddKey(k);
    DigestInfoIs(alg, h);
    SignatureRoundTrip(k, alg, h);
    ret := Sign(ctx, alg, hash, hashlen, sig, ctx.len);
    ret := Verify(ctx, alg, hash, hashlen, sig, ctx.len);
    assert alg == RSA_RAW && hashlen == 34 ==> h[..18] == hash[..18];
  }
}
