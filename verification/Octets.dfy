/** Octet strings and the numbers they stand for (sections 4.1 and 4.2 of RFC 8017), and their
    transfer to and from limbs: mpi_import and mpi_export. */
module Octets {
  import opened Arithmetic
  import opened Bytes
  import opened Digits
  import opened Limbs
  import opened Mpis

  /** OS2IP: the number an octet string stands for, first octet most significant. */
  function Os2ip(s: seq<byte>): nat {
    if |s| == 0 then 0 else Os2ip(s[..|s| - 1]) * 256 + s[|s| - 1]
  }

  /** I2OSP: the octet string of length n for x. */
  function I2osp(x: nat, n: nat): (s: seq<byte>)
    ensures |s| == n
  {
    if n == 0 then [] else I2osp(x / 256, n - 1) + [x % 256]
  }

  lemma {:induction false} OctetBounds(s: seq<byte>)
    ensures Os2ip(s) < Pow(256, |s|)
  {
    if |s| > 0 {
      OctetBounds(s[..|s| - 1]);
      PowStep(256, |s| - 1);
    }
  }

  lemma {:induction false} OctetConcat(s: seq<byte>, t: seq<byte>)
    ensures Os2ip(s + t) == Os2ip(s) * Pow(256, |t|) + Os2ip(t)
  {
    if |t| == 0 {
      assert s + t == s;
    } else {
      var t' := t[..|t| - 1];
      assert (s + t)[..|s + t| - 1] == s + t';
      OctetConcat(s, t');
      PowStep(256, |t'|);
      MulAssoc(Os2ip(s), Pow(256, |t'|), 256);
      assert Os2ip(s) * (256 * Pow(256, |t'|)) == (Os2ip(s) * Pow(256, |t'|)) * 256;
    }
  }

  lemma OneOctet(b: byte)
    ensures Os2ip([b]) == b
  {
    assert [b][..0] == [];
  }

  /** One more octet in front of a suffix. */
  lemma OctetCons(s: seq<byte>, i: nat)
    requires i < |s|
    ensures Os2ip(s[i..]) == s[i] * Pow(256, |s| - i - 1) + Os2ip(s[i + 1..])
  {
    assert s[i..] == [s[i]] + s[i + 1..];
    OctetConcat([s[i]], s[i + 1..]);
    OneOctet(s[i]);
  }

  /** Leading zeros do not count. */
  lemma {:induction false} OctetZeros(s: seq<byte>)
    requires forall i :: 0 <= i < |s| ==> s[i] == 0
    ensures Os2ip(s) == 0
  {
    if |s| > 0 {
      OctetZeros(s[..|s| - 1]);
    }
  }

  lemma LeadingZeros(s: seq<byte>, n: nat)
    requires n <= |s| && forall i :: 0 <= i < n ==> s[i] == 0
    ensures Os2ip(s) == Os2ip(s[n..])
  {
    assert s == s[..n] + s[n..];
    OctetConcat(s[..n], s[n..]);
    OctetZeros(s[..n]);
  }

  /** Encoding undoes decoding. */
  lemma {:induction false} EncodeDecode(s: seq<byte>)
    ensures I2osp(Os2ip(s), |s|) == s
  {
    if |s| > 0 {
      var t, b := s[..|s| - 1], s[|s| - 1];
      EncodeDecode(t);
      DivModUnique(Os2ip(s), 256, Os2ip(t), b);
      assert s == t + [b];
    }
  }

  /** Decoding undoes encoding of a number that fits. */
  lemma {:induction false} DecodeEncode(x: nat, n: nat)
    requires x < Pow(256, n)
    ensures Os2ip(I2osp(x, n)) == x
  {
    if n > 0 {
      PowStep(256, n - 1);
      DivLess(x, 256, Pow(256, n - 1));
      DecodeEncode(x / 256, n - 1);
      var s := I2osp(x, n);
      assert s[..n - 1] == I2osp(x / 256, n - 1);
    }
  }

  /** The number of octets a number takes: (mpi_size + 7) >> 3. */
  function OctetLen(v: nat): nat { (BitLen(v) + 7) / 8 }

  lemma Power256(n: nat)
    ensures Pow(256, n) == Pow(2, 8 * n)
  {
    assert Pow(2, 8) == 256 by { PowAdd(2, 4, 4); }
    PowPow(2, 8, n);
  }

  lemma OctetLenLeq(v: nat, n: nat)
    ensures OctetLen(v) <= n <==> v < Pow(256, n)
  {
    hide Pow, BitLen;
    CeilDiv(BitLen(v), 8, n);
    BitLenLess(v, 8 * n);
    Power256(n);
  }

  // ---- octets of limbs ----

  /** The limb that holds octet j, and the place of the octet in it. */
  function LimbOf(j: nat): nat {
    assert 0 < LIMB_BYTES by { BaseFacts(); }
    j / LIMB_BYTES
  }

  function PlaceOf(j: nat): nat {
    assert 0 < LIMB_BYTES by { BaseFacts(); }
    j % LIMB_BYTES
  }

  lemma Place(j: nat)
    ensures 0 < LIMB_BYTES && PlaceOf(j) < LIMB_BYTES && j == LIMB_BYTES * LimbOf(j) + PlaceOf(j)
  {
    hide Pow;
    BaseFacts();
  }

  lemma PlaceWeight(j: nat)
    ensures Pow(256, j) == Pow(BASE, LimbOf(j)) * Pow(256, PlaceOf(j))
  {
    hide Pow, LimbOf, PlaceOf;
    Place(j);
    BaseFacts();
    PowPow(256, LIMB_BYTES, LimbOf(j));
    PowAdd(256, LIMB_BYTES * LimbOf(j), PlaceOf(j));
  }

  /** An octet above everything that a limb buffer holds so far; the octets of a limb are disjoint
      bits, so the |= of the source is a sum. */
  lemma PlaceOctet(p: seq<limb>, j: nat, b: byte)
    requires LimbOf(j) < |p| && Val(p, BASE) < Pow(256, j)
    ensures var k := LimbOf(j); var y := p[k] + b * Pow(256, PlaceOf(j));
      0 <= y < BASE && Val(p[k := y], BASE) == Val(p, BASE) + b * Pow(256, j)
  {
    hide Val, Pow, LimbOf, PlaceOf;
    Place(j);
    PlaceWeight(j);
    LimbRoom(p, j);
    StoreOctet(p, LimbOf(j), b, PlaceOf(j), Pow(256, j));
  }

  lemma LimbRoom(p: seq<limb>, j: nat)
    requires LimbOf(j) < |p| && Val(p, BASE) < Pow(256, j)
    ensures p[LimbOf(j)] < Pow(256, PlaceOf(j))
  {
    hide Val, Pow, LimbOf, PlaceOf;
    PlaceWeight(j);
    DropLimbs(p, LimbOf(j));
    DivLess(Val(p, BASE), Pow(BASE, LimbOf(j)), Pow(256, PlaceOf(j)));
    LimbBelow(p, LimbOf(j));
  }

  lemma StoreOctet(p: seq<limb>, k: nat, b: byte, m: nat, weight: int)
    requires k < |p| && m < LIMB_BYTES && p[k] < Pow(256, m) && weight == Pow(BASE, k) * Pow(256, m)
    ensures var y := p[k] + b * Pow(256, m);
      0 <= y < BASE && Val(p[k := y], BASE) == Val(p, BASE) + b * weight
  {
    hide Val, Pow;
    OctetRoom(p[k], b, m);
    ValUpdate(p, k, p[k] + b * Pow(256, m), BASE);
    MulAssoc(b, Pow(256, m), Pow(BASE, k));
  }

  lemma LimbBelow(p: seq<limb>, k: nat)
    requires k < |p|
    ensures p[k] <= Val(p[k..], BASE)
  {
    hide Val;
    ValCons(p, k, BASE);
    ValBounds(p[k + 1..], BASE);
    MulNonNegative(BASE, Val(p[k + 1..], BASE));
  }

  lemma OctetRoom(x: nat, b: byte, m: nat)
    requires m < LIMB_BYTES && x < Pow(256, m)
    ensures 0 <= x + b * Pow(256, m) < BASE
  {
    hide Pow;
    BaseFacts();
    MulNonNegative(b, Pow(256, m));
    MulMono(b, 255, Pow(256, m));
    PowStep(256, m);
    PowMono(256, m + 1, LIMB_BYTES);
  }

  lemma OctetOfSum(low: nat, high: nat, w: int, v: int)
    requires 0 < w && 0 <= 256 * w * v * high
    ensures ((low + 256 * w * v * high) / w) % 256 == (low / w) % 256
  {
    MulAssoc(256, w, v);
    var q, r := low / w, low % w;
    assert 256 * w * v * high == (256 * (v * high)) * w by {
      MulAssoc(w, v, high);
      MulAssoc(256, w, v * high);
      MulAssoc(256, v * high, w);
    }
    DivModUnique(low + 256 * w * v * high, w, q + 256 * (v * high), r);
    AddMultiple(q, v * high);
  }

  lemma AddMultiple(q: int, k: int)
    ensures (q + 256 * k) % 256 == q % 256
  {
  }

  /** Octet j of a number is octet j mod ciL of limb j / ciL. */
  lemma LimbOctet(p: seq<limb>, j: nat)
    requires LimbOf(j) < |p|
    ensures 0 <= Val(p, BASE)
    ensures (Val(p, BASE) / Pow(256, j)) % 256 == (p[LimbOf(j)] / Pow(256, PlaceOf(j))) % 256
  {
    hide Val, Pow, LimbOf, PlaceOf;
    var k, m := LimbOf(j), PlaceOf(j);
    Place(j);
    PlaceWeight(j);
    DropLimbs(p, k);
    ValCons(p, k, BASE);
    ValBounds(p[k + 1..], BASE);
    OctetOfLowLimb(p[k], Val(p[k + 1..], BASE), m);
    DivDiv(Val(p, BASE), Pow(BASE, k), Pow(256, m));
  }

  lemma OctetOfLowLimb(x: limb, rest: nat, m: nat)
    requires m < LIMB_BYTES
    ensures 0 <= BASE * rest && ((x + BASE * rest) / Pow(256, m)) % 256 == (x / Pow(256, m)) % 256
  {
    hide Pow;
    BaseFacts();
    var w, v := Pow(256, m), Pow(256, LIMB_BYTES - m - 1);
    PowAdd(256, m + 1, LIMB_BYTES - m - 1);
    PowStep(256, m);
    MulNonNegative(w, v);
    MulAssoc(256, w, v);
    MulNonNegative(BASE, rest);
    OctetOfSum(x, rest, w, v);
  }

  // ---- mpi_import and mpi_export ----

  function CharsToLimbs(i: nat): nat {
    assert 0 < LIMB_BYTES by { BaseFacts(); }
    (i + LIMB_BYTES - 1) / LIMB_BYTES
  }

  lemma OctetFits(j: nat, n: nat)
    requires j < n
    ensures LimbOf(j) < CharsToLimbs(n)
  {
    hide LimbOf, PlaceOf;
    Place(j);
    CeilDiv(n, LIMB_BYTES, LimbOf(j));
  }

  /** mpi_import */
  method Import(X: Mpi, buf: array<byte>, buflen: nat)
    requires buflen <= buf.Length
    modifies X
    ensures X.Ok() && X.s == 1 && X.Mag() == Os2ip(buf[..buflen])
  {
    hide Val, Pow, Sig, Os2ip;
    BaseFacts();
    var n := 0;
    while n < buflen
      invariant n <= buflen && forall k :: 0 <= k < n ==> buf[k] == 0
    {
      if buf[n] != 0 {
        break;
      }
      n := n + 1;
    }
    ghost var s := buf[..buflen];
    LeadingZeros(s, n);
    Grow(X, CharsToLimbs(buflen - n));
    LSet(X, 0);
    ImportLoop(X, buf, buflen, n);
    assert s == buf[..buflen];
  }

  method ImportLoop(X: Mpi, buf: array<byte>, buflen: nat, n: nat)
    requires n <= buflen <= buf.Length && CharsToLimbs(buflen - n) <= |X.p|
    requires X.Ok() && X.s == 1 && X.Mag() == 0
    modifies X
    ensures X.Ok() && X.s == 1 && X.Mag() == Os2ip(buf[..buflen][n..])
  {
    hide Val, Pow, Sig, Os2ip, CharsToLimbs, LimbOf, PlaceOf;
    BaseFacts();
    ghost var s := buf[..buflen];
    var i, j := buflen - 1, 0;
    assert s[buflen..] == [];
    OctetZeros(s[buflen..]);
    while i >= n
      invariant n - 1 <= i < buflen && j == buflen - 1 - i
      invariant X.Ok() && X.s == 1 && CharsToLimbs(buflen - n) <= |X.p|
      invariant X.Mag() == Os2ip(s[i + 1..])
    {
      OctetFits(j, buflen - n);
      OctetBounds(s[i + 1..]);
      OctetCons(s, i);
      PlaceOctet(X.p, j, buf[i]);
      var k := LimbOf(j);
      X.p := X.p[k := X.p[k] + buf[i] * Pow(256, PlaceOf(j))];
      i, j := i - 1, j + 1;
    }
  }

  const ERR_MPI_BUFFER_TOO_SMALL: int := 0x0006

  /** mpi_export: the number in the first buflen octets, big-endian, or the length it needs. */
  method Export(X: Mpi, buf: array<byte>, buflen: int) returns (ret: int, buflen': int)
    requires X.Ok() && buflen <= buf.Length
    modifies buf
    ensures ret == if buflen < OctetLen(X.Mag()) then ERR_MPI_BUFFER_TOO_SMALL else 0
    ensures buflen' == if ret == 0 then buflen else OctetLen(X.Mag())
    ensures ret == 0 ==> 0 <= buflen && buf[..buflen] == I2osp(X.Mag(), buflen) && buf[buflen..] == old(buf[buflen..])
    ensures ret != 0 ==> buf[..] == old(buf[..])
  {
    hide Val, Pow, Sig, Os2ip, I2osp, BitLen;
    var bits := Size(X);
    var n := (bits + 7) / 8;
    if buflen < n {
      return ERR_MPI_BUFFER_TOO_SMALL, n;
    }
    ghost var tail := buf[buflen..];
    var k := 0;
    while k < buflen
      invariant k <= buflen && buf[buflen..] == tail && forall h :: 0 <= h < k ==> buf[h] == 0
    {
      buf[k] := 0;
      k := k + 1;
    }
    ExportLoop(X, buf, buflen, n);
    return 0, buflen;
  }

  /** Octet j of the number in limbs p: a limb shifted down and cut to eight bits. */
  function OctetOf(p: seq<limb>, j: nat): byte
    requires LimbOf(j) < |p|
  {
    (p[LimbOf(j)] / Pow(256, PlaceOf(j))) % 256
  }

  /** s holds the lowest octets of v. */
  ghost predicate LowOctets(s: seq<byte>, v: nat) {
    Os2ip(s) == v % Pow(256, |s|)
  }

  lemma NextOctet(p: seq<limb>, rest: seq<byte>)
    requires 0 <= Val(p, BASE) && LowOctets(rest, Val(p, BASE)) && |rest| < OctetLen(Val(p, BASE))
    ensures LimbOf(|rest|) < |p| && LowOctets([OctetOf(p, |rest|)] + rest, Val(p, BASE))
  {
    hide Os2ip, Pow, Val, OctetLen, LimbOf, PlaceOf;
    var v, j := Val(p, BASE), |rest|;
    OctetInLimbs(p, j);
    LimbOctet(p, j);
    var s := [OctetOf(p, j)] + rest;
    assert s[0..] == s && s[1..] == rest;
    OctetCons(s, 0);
    PowStep(256, j);
    SplitOctet(v, Pow(256, j));
  }

  lemma SplitOctet(v: nat, w: nat)
    requires 0 < w
    ensures v % (256 * w) == ((v / w) % 256) * w + v % w
  {
    var q, r := v / w, v % w;
    var q', b := q / 256, q % 256;
    MulMono(b, 255, w);
    MulNonNegative(b, w);
    assert v == q' * (256 * w) + (b * w + r) by {
      assert v == (q' * 256 + b) * w + r;
      MulAssoc(q', 256, w);
    }
    DivModUnique(v, 256 * w, q', b * w + r);
  }

  method ExportLoop(X: Mpi, buf: array<byte>, buflen: nat, n: nat)
    requires X.Ok() && n <= buflen <= buf.Length && n == OctetLen(X.Mag())
    requires forall k :: 0 <= k < buflen ==> buf[k] == 0
    modifies buf
    ensures buf[buflen..] == old(buf[buflen..]) && buf[..buflen] == I2osp(X.Mag(), buflen)
  {
    hide Val, Pow, Sig, Os2ip, I2osp, OctetLen, LimbOf, OctetOf, LowOctets;
    var i, j, left := buflen - 1, 0, n;
    ghost var v := X.Mag();
    NoOctets(v);
    assert buf[buflen..buflen] == [];
    while left > 0
      invariant j + left == n && i == buflen - 1 - j
      invariant buf[buflen..] == old(buf[buflen..])
      invariant forall k :: 0 <= k <= i ==> buf[k] == 0
      invariant LowOctets(buf[i + 1..buflen], v)
    {
      ghost var rest := buf[i + 1..buflen];
      NextOctet(X.p, rest);
      buf[i] := OctetOf(X.p, j);
      assert buf[i..buflen] == [buf[i]] + rest;
      i, j, left := i - 1, j + 1, left - 1;
    }
    ExportDone(buf[..buflen], v, n);
  }

  lemma NoOctets(v: nat)
    ensures LowOctets([], v)
  {
    OctetZeros([]);
    PowStep(256, 0);
  }

  lemma ExportDone(s: seq<byte>, v: nat, n: nat)
    requires n <= |s| && n == OctetLen(v) && (forall k :: 0 <= k < |s| - n ==> s[k] == 0)
    requires LowOctets(s[|s| - n..], v)
    ensures s == I2osp(v, |s|)
  {
    hide Pow, Os2ip, I2osp, OctetLen, LowOctets;
    AllOctets(s[|s| - n..], v);
    LeadingZeros(s, |s| - n);
    EncodeDecode(s);
  }

  lemma AllOctets(s: seq<byte>, v: nat)
    requires |s| == OctetLen(v) && LowOctets(s, v)
    ensures Os2ip(s) == v
  {
    hide Pow, Os2ip, OctetLen;
    OctetLenLeq(v, |s|);
    DivModUnique(v, Pow(256, |s|), 0, v);
  }

  lemma OctetInLimbs(p: seq<limb>, j: nat)
    requires 0 <= Val(p, BASE) && j < OctetLen(Val(p, BASE))
    ensures LimbOf(j) < |p|
  {
    hide Val, Pow, OctetLen, LimbOf, PlaceOf;
    OctetLenLeq(Val(p, BASE), j);
    ValBounds(p, BASE);
    BaseFacts();
    PowPow(256, LIMB_BYTES, |p|);
    PowCancelLess(256, j, LIMB_BYTES * |p|);
    Place(j);
    if |p| <= LimbOf(j) {
      MulMono(|p|, LimbOf(j), LIMB_BYTES);
    }
  }
}
