/** Positional numerals: the value of a little-endian digit string in any base.  Limb buffers use
    it with the limb base, octet strings with base 256. */
module Digits {
  import opened Arithmetic

  /** The value of s, least significant digit first. */
  function Val(s: seq<int>, b: int): int {
    if |s| == 0 then 0 else s[0] + b * Val(s[1..], b)
  }

  ghost predicate IsNumeral(s: seq<int>, b: int) {
    forall i :: 0 <= i < |s| ==> 0 <= s[i] < b
  }

  lemma {:induction false} ValBounds(s: seq<int>, b: int)
    requires 0 < b && IsNumeral(s, b)
    ensures 0 <= Val(s, b) < Pow(b, |s|)
  {
    if |s| > 0 {
      ValBounds(s[1..], b);
      var v, w := Val(s[1..], b), Pow(b, |s| - 1);
      MulNonNegative(b, v);
      MulMono(v, w - 1, b);
      assert b * v <= b * w - b;
    }
  }

  lemma {:induction false} ValConcat(s: seq<int>, t: seq<int>, b: int)
    ensures Val(s + t, b) == Val(s, b) + Pow(b, |s|) * Val(t, b)
  {
    if |s| == 0 {
      assert s + t == t;
    } else {
      assert (s + t)[1..] == s[1..] + t;
      ValConcat(s[1..], t, b);
      var v, w, x := Val(s[1..], b), Pow(b, |s| - 1), Val(t, b);
      assert b * (v + w * x) == b * v + (b * w) * x by {
        MulAssoc(b, w, x);
      }
    }
  }

  lemma ValSplit(s: seq<int>, k: nat, b: int)
    requires k <= |s|
    ensures Val(s, b) == Val(s[..k], b) + Pow(b, k) * Val(s[k..], b)
  {
    assert s == s[..k] + s[k..];
    ValConcat(s[..k], s[k..], b);
  }

  lemma ValOne(d: int, b: int)
    ensures Val([d], b) == d
  {
    assert [d][1..] == [];
  }

  /** One more digit at the top of a prefix. */
  lemma ValSnoc(s: seq<int>, k: nat, b: int)
    requires k < |s|
    ensures Val(s[..k + 1], b) == Val(s[..k], b) + s[k] * Pow(b, k)
  {
    assert s[..k + 1] == s[..k] + [s[k]];
    ValConcat(s[..k], [s[k]], b);
    ValOne(s[k], b);
  }

  /** One more digit at the bottom of a suffix. */
  lemma ValCons(s: seq<int>, k: nat, b: int)
    requires k < |s|
    ensures Val(s[k..], b) == s[k] + b * Val(s[k + 1..], b)
  {
    assert s[k..][1..] == s[k + 1..];
  }

  lemma ValHead(s: seq<int>, b: int)
    requires 0 < |s|
    ensures Val(s, b) == s[0] + b * Val(s[1..], b)
  {
  }

  /** Storing a digit changes the value by the difference at that place. */
  lemma ValUpdate(s: seq<int>, k: nat, v: int, b: int)
    requires k < |s|
    ensures Val(s[k := v], b) == Val(s, b) + (v - s[k]) * Pow(b, k)
  {
    var t := s[k := v];
    ValSplit(s, k, b);
    ValSplit(t, k, b);
    assert t[..k] == s[..k] && t[k + 1..] == s[k + 1..];
    ValCons(s, k, b);
    ValCons(t, k, b);
    var w, x := Pow(b, k), b * Val(s[k + 1..], b);
    assert w * (v + x) == w * (s[k] + x) + (v - s[k]) * w;
  }

  lemma {:induction false} ValZeros(s: seq<int>, b: int)
    requires forall i :: 0 <= i < |s| ==> s[i] == 0
    ensures Val(s, b) == 0
  {
    if |s| > 0 {
      ValZeros(s[1..], b);
    }
  }

  lemma {:induction false} ZeroVal(s: seq<int>, b: int)
    requires 0 < b && IsNumeral(s, b) && Val(s, b) == 0
    ensures forall i :: 0 <= i < |s| ==> s[i] == 0
  {
    if |s| > 0 {
      ValBounds(s[1..], b);
      var v := Val(s[1..], b);
      if v > 0 {
        MulStrictMono(0, v, b);
      }
      ZeroVal(s[1..], b);
      assert forall i :: 0 < i < |s| ==> s[i] == s[1..][i - 1];
    }
  }

  /** Zeros at the top do not count. */
  lemma ValZeroTop(s: seq<int>, k: nat, b: int)
    requires k <= |s| && forall i :: k <= i < |s| ==> s[i] == 0
    ensures Val(s, b) == Val(s[..k], b)
  {
    ValSplit(s, k, b);
    ValZeros(s[k..], b);
  }

  lemma SmallQuotient(x: int, low: int, high: int, d: int)
    requires 0 <= low && 0 <= high && 0 < d && x == low + d * high && x < d
    ensures high == 0
  {
    if high > 0 {
      MulMono(1, high, d);
    }
  }

  /** A small value has zeros at the top. */
  lemma SmallValZeroTop(s: seq<int>, k: nat, b: int)
    requires 0 < b && IsNumeral(s, b) && k <= |s| && Val(s, b) < Pow(b, k)
    ensures forall i :: k <= i < |s| ==> s[i] == 0
    ensures Val(s[..k], b) == Val(s, b)
  {
    ValSplit(s, k, b);
    ValBounds(s[..k], b);
    ValBounds(s[k..], b);
    SmallQuotient(Val(s, b), Val(s[..k], b), Val(s[k..], b), Pow(b, k));
    ZeroVal(s[k..], b);
    assert forall i :: k <= i < |s| ==> s[i] == s[k..][i - k];
  }

  /** Numerals of one length are determined by their value. */
  lemma {:induction false} ValUnique(s: seq<int>, t: seq<int>, b: int)
    requires 0 < b && IsNumeral(s, b) && IsNumeral(t, b) && |s| == |t| && Val(s, b) == Val(t, b)
    ensures s == t
  {
    if |s| > 0 {
      var v, w := Val(s[1..], b), Val(t[1..], b);
      DivModUnique(Val(s, b), b, v, s[0]);
      DivModUnique(Val(t, b), b, w, t[0]);
      ValUnique(s[1..], t[1..], b);
      assert s == [s[0]] + s[1..] && t == [t[0]] + t[1..];
    }
  }

  /** The number of significant digits. */
  function Sig(s: seq<int>): (n: nat)
    ensures n <= |s|
    ensures n > 0 ==> s[n - 1] != 0
    ensures forall i :: n <= i < |s| ==> s[i] == 0
  {
    if |s| == 0 then 0
    else if s[|s| - 1] != 0 then |s|
    else Sig(s[..|s| - 1])
  }

  lemma SigUnique(s: seq<int>, n: nat)
    requires n <= |s| && (n > 0 ==> s[n - 1] != 0) && forall i :: n <= i < |s| ==> s[i] == 0
    ensures Sig(s) == n
  {
  }

  lemma SigBounds(s: seq<int>, b: int)
    requires 0 < b && IsNumeral(s, b)
    ensures Val(s[..Sig(s)], b) == Val(s, b) < Pow(b, Sig(s))
    ensures Sig(s) > 0 ==> Pow(b, Sig(s) - 1) <= Val(s, b)
    ensures Sig(s) == 0 <==> Val(s, b) == 0
  {
    var n := Sig(s);
    ValZeroTop(s, n, b);
    ValBounds(s[..n], b);
    if n > 0 {
      ValSnoc(s, n - 1, b);
      ValBounds(s[..n - 1], b);
      MulMono(1, s[n - 1], Pow(b, n - 1));
    }
  }

  /** A value below b^k has at most k significant digits, and conversely. */
  lemma SigLeq(s: seq<int>, k: nat, b: int)
    requires 1 < b && IsNumeral(s, b)
    ensures Sig(s) <= k <==> Val(s, b) < Pow(b, k)
  {
    SigBounds(s, b);
    if Sig(s) <= k {
      PowMono(b, Sig(s), k);
    } else {
      PowMono(b, k, Sig(s) - 1);
    }
  }

  lemma SigMono(s: seq<int>, t: seq<int>, b: int)
    requires 1 < b && IsNumeral(s, b) && IsNumeral(t, b) && Val(s, b) <= Val(t, b)
    ensures Sig(s) <= Sig(t)
  {
    SigBounds(t, b);
    SigLeq(s, Sig(t), b);
  }

  lemma HigherDigitWins(s: seq<int>, t: seq<int>, i: nat, b: int)
    requires 0 < b && IsNumeral(s, b) && IsNumeral(t, b)
    requires |s| == |t| && i < |s| && s[i + 1..] == t[i + 1..] && s[i] < t[i]
    ensures Val(s, b) < Val(t, b)
  {
    SameTop(s, t, i + 1, b);
    ValSnoc(s, i, b);
    ValSnoc(t, i, b);
    ValBounds(s[..i], b);
    ValBounds(t[..i], b);
    LeadingDigit(Val(s[..i], b), s[i], Val(t[..i], b), t[i], Pow(b, i));
  }

  lemma SameTop(s: seq<int>, t: seq<int>, k: nat, b: int)
    requires k <= |s| && k <= |t| && s[k..] == t[k..]
    ensures Val(s, b) - Val(t, b) == Val(s[..k], b) - Val(t[..k], b)
  {
    ValSplit(s, k, b);
    ValSplit(t, k, b);
  }

  lemma LeadingDigit(x: int, d: int, y: int, e: int, w: int)
    requires x < w && 0 <= y && d < e
    requires 0 < w
    ensures x + d * w < y + e * w
  {
    MulMono(d + 1, e, w);
  }

  /** More significant digits, larger value. */
  lemma MoreDigitsWin(s: seq<int>, t: seq<int>, b: int)
    requires 1 < b && IsNumeral(s, b) && IsNumeral(t, b) && Sig(s) < Sig(t)
    ensures Val(s, b) < Val(t, b)
  {
    SigLeq(t, Sig(s), b);
    SigLeq(s, Sig(s), b);
  }

  /** The value is the part below place i, the digit there and the part above. */
  lemma ValTop(s: seq<int>, i: nat, b: int)
    requires 0 < b && IsNumeral(s, b) && i < |s| && forall k :: i < k < |s| ==> s[k] == 0
    ensures Val(s, b) == Val(s[..i], b) + s[i] * Pow(b, i) && 0 <= Val(s[..i], b) < Pow(b, i)
  {
    ValZeroTop(s, i + 1, b);
    ValSnoc(s, i, b);
    ValBounds(s[..i], b);
  }
}
