/** One level of sharing: splitting a secret at a threshold and recovering it with its digest. */
module Slip39Secret {
  import opened Options
  import opened Bits
  import opened Gf256
  import opened Poly
  import opened Slip39Gf

  /** HMAC-SHA256: key and message to 32 bytes. */
  type Mac = (seq<byte>, seq<byte>) -> seq<byte>

  ghost predicate IsMac(hmac: Mac)
  {
    forall k, m :: |hmac(k, m)| == 32
  }

  /** The values of all byte polynomials at `x`. */
  function ValuesAt(polys: seq<Poly>, x: byte): (r: seq<byte>)
    ensures |r| == |polys|
  {
    seq(|polys|, b requires 0 <= b < |polys| => Eval(K, polys[b], x))
  }

  ghost predicate DigestOk(hmac: Mac, digest: seq<byte>, secret: seq<byte>)
    requires IsMac(hmac)
  {
    |digest| >= 4 && hmac(digest[4..], secret)[..4] == digest[..4]
  }

  /** `polys` shares `secret` at threshold `t`: degree below `t`, the secret at 255 and, above
      threshold 1, its digest at 254. */
  ghost predicate Shares(hmac: Mac, t: nat, secret: seq<byte>, polys: seq<Poly>)
    requires IsMac(hmac)
  {
    && t >= 1 && |polys| == |secret|
    && (forall b :: 0 <= b < |polys| ==> |polys[b]| == t)
    && ValuesAt(polys, 255) == secret
    && (t > 1 ==> DigestOk(hmac, ValuesAt(polys, 254), secret))
  }

  // ----- splitting

  function BaseShares(hmac: Mac, secret: seq<byte>, random: seq<seq<byte>>, randomPart: seq<byte>): (r: seq<RawShare>)
    requires |random| <= 14
    requires |hmac(randomPart, secret)| == 32
    ensures |r| == |random| + 2
  {
    seq(|random|, i requires 0 <= i < |random| => RawShare(i, random[i]))
    + [RawShare(254, hmac(randomPart, secret)[..4] + randomPart), RawShare(255, secret)]
  }

  ghost function SplitPolys(hmac: Mac, secret: seq<byte>, random: seq<seq<byte>>, randomPart: seq<byte>): (r: seq<Poly>)
    requires IsMac(hmac) && |random| <= 14
    requires WellFormed(BaseShares(hmac, secret, random, randomPart), |secret|)
  {
    var base := BaseShares(hmac, secret, random, randomPart);
    seq(|secret|, b requires 0 <= b < |secret| => Interpolant(Points(base), Column(base, b)))
  }

  /** Random shares of the right length, the digest and the secret determine a sharing of the secret,
      and the random shares are shares of it. */
  lemma SplitShares(hmac: Mac, secret: seq<byte>, random: seq<seq<byte>>, randomPart: seq<byte>)
    requires IsMac(hmac) && |random| <= 14 && |secret| >= 4 && |randomPart| == |secret| - 4
    requires forall i :: 0 <= i < |random| ==> |random[i]| == |secret|
    ensures WellFormed(BaseShares(hmac, secret, random, randomPart), |secret|)
    ensures var polys := SplitPolys(hmac, secret, random, randomPart);
      && Shares(hmac, |random| + 2, secret, polys)
      && forall i :: 0 <= i < |random| ==> ValuesAt(polys, i) == random[i]
  {
    hide Eval;
    hide Interpolant;
    var base := BaseShares(hmac, secret, random, randomPart);
    var polys := SplitPolys(hmac, secret, random, randomPart);
    forall k | 0 <= k < |base|
      ensures ValuesAt(polys, base[k].x) == base[k].data
    {
      forall b | 0 <= b < |secret|
        ensures ValuesAt(polys, base[k].x)[b] == base[k].data[b]
      {
        InterpolantPasses(Points(base), Column(base, b), k);
      }
    }
    var n := |random|;
    assert ValuesAt(polys, base[n].x) == base[n].data;
    assert ValuesAt(polys, base[n + 1].x) == base[n + 1].data;
    var d := base[n].data;
    assert d[4..] == randomPart && d[..4] == hmac(randomPart, secret)[..4];
    forall i | 0 <= i < n
      ensures ValuesAt(polys, i) == random[i]
    {
      assert base[i].x == i && base[i].data == random[i];
    }
  }

  /** What the splitter draws at random for one level: all shares but two, and the rest of the digest share. */
  datatype Randomness = Randomness(shares: seq<seq<byte>>, part: seq<byte>)

  predicate Drawn(t: nat, n: nat, rnd: Randomness)
  {
    1 <= t <= 16 && n >= 4 &&
    (t > 1 ==> |rnd.shares| == t - 2 && |rnd.part| == n - 4 && forall i :: 0 <= i < t - 2 ==> |rnd.shares[i]| == n)
  }

  /** The polynomials of one level: constants at threshold 1, otherwise through the base shares. */
  ghost function LevelPolys(hmac: Mac, t: nat, secret: seq<byte>, rnd: Randomness): (polys: seq<Poly>)
    requires IsMac(hmac) && Drawn(t, |secret|, rnd)
  {
    if t == 1 then seq(|secret|, b requires 0 <= b < |secret| => [secret[b]])
    else
      SplitShares(hmac, secret, rnd.shares, rnd.part);
      SplitPolys(hmac, secret, rnd.shares, rnd.part)
  }

  /** Every split of one level is a sharing; at threshold 1 every share is the secret itself, otherwise the
      drawn shares are shares of it. */
  lemma LevelShares(hmac: Mac, t: nat, secret: seq<byte>, rnd: Randomness)
    requires IsMac(hmac) && Drawn(t, |secret|, rnd)
    ensures var polys := LevelPolys(hmac, t, secret, rnd);
      && Shares(hmac, t, secret, polys)
      && (t == 1 ==> forall x: byte :: ValuesAt(polys, x) == secret)
      && (t > 1 ==> forall i :: 0 <= i < t - 2 ==> ValuesAt(polys, i) == rnd.shares[i])
  {
    hide SplitPolys;
    hide Eval;
    if t == 1 {
      var polys := LevelPolys(hmac, t, secret, rnd);
      forall x: byte
        ensures ValuesAt(polys, x) == secret
      {
        forall b | 0 <= b < |secret|
          ensures ValuesAt(polys, x)[b] == secret[b]
        {
          ConstantValue(secret[b], x);
        }
      }
    } else {
      SplitShares(hmac, secret, rnd.shares, rnd.part);
    }
  }

  lemma ConstantValue(c: byte, x: byte)
    ensures Eval(K, [c], x) == c
  {
    assert [c][1..] == [];
    MulZero(K, x);
    AddZero(c);
  }

  // ----- recovering

  /** The interpolated bytes at `x`, or nothing for shares of unequal length or with a repeated point. */
  ghost function InterpolateAt(shares: seq<RawShare>, x: byte, vlen: nat): Option<seq<byte>>
  {
    if WellFormed(shares, vlen) then
      Some(seq(vlen, b requires 0 <= b < vlen => Eval(K, Interpolant(Points(shares), Column(shares, b)), x)))
    else
      None
  }

  ghost function SecretOf(hmac: Mac, t: nat, shares: seq<RawShare>, vlen: nat): Option<seq<byte>>
    requires IsMac(hmac)
  {
    if t == 1 then
      if |shares| < 1 then None else Some(shares[0].data)
    else if vlen < 4 then
      None
    else
      var secret := InterpolateAt(shares, 255, vlen);
      var digest := InterpolateAt(shares, 254, vlen);
      if secret.None? || digest.None? || !DigestOk(hmac, digest.value, secret.value) then None else secret
  }

  /** The shares lie at different points on polynomials with as many coefficients as there are shares. */
  ghost predicate LieOn(shares: seq<RawShare>, polys: seq<Poly>)
  {
    && (forall i, j :: 0 <= i < j < |shares| ==> shares[i].x != shares[j].x)
    && (forall b :: 0 <= b < |polys| ==> |polys[b]| == |shares|)
    && forall i :: 0 <= i < |shares| ==> shares[i].data == ValuesAt(polys, shares[i].x)
  }

  /** The shares yield `x`: at threshold 1 the first share is `x`; otherwise the polynomials through them take
      the value `x` at 255 and at 254 a value whose first four bytes are the digest of `x`. */
  ghost predicate Yields(hmac: Mac, t: nat, shares: seq<RawShare>, vlen: nat, x: seq<byte>)
    requires IsMac(hmac)
  {
    && |x| == vlen
    && if t == 1 then |shares| >= 1 && x == shares[0].data
       else vlen >= 4 && exists polys :: Carries(hmac, shares, vlen, x, polys)
  }

  ghost predicate Carries(hmac: Mac, shares: seq<RawShare>, vlen: nat, x: seq<byte>, polys: seq<Poly>)
    requires IsMac(hmac)
  {
    && |polys| == vlen && LieOn(shares, polys)
    && ValuesAt(polys, 255) == x && DigestOk(hmac, ValuesAt(polys, 254), x)
  }

  ghost function Interpolants(shares: seq<RawShare>, vlen: nat): (polys: seq<Poly>)
    requires WellFormed(shares, vlen)
    ensures |polys| == vlen && forall b :: 0 <= b < vlen ==> |polys[b]| == |shares|
  {
    seq(vlen, b requires 0 <= b < vlen => Interpolant(Points(shares), Column(shares, b)))
  }

  lemma InterpolantsCarry(shares: seq<RawShare>, vlen: nat)
    requires WellFormed(shares, vlen)
    ensures LieOn(shares, Interpolants(shares, vlen))
    ensures InterpolateAt(shares, 255, vlen) == Some(ValuesAt(Interpolants(shares, vlen), 255))
    ensures InterpolateAt(shares, 254, vlen) == Some(ValuesAt(Interpolants(shares, vlen), 254))
  {
    hide Eval;
    hide Interpolant;
    var polys := Interpolants(shares, vlen);
    forall i | 0 <= i < |shares|
      ensures shares[i].data == ValuesAt(polys, shares[i].x)
    {
      forall b | 0 <= b < vlen
        ensures shares[i].data[b] == ValuesAt(polys, shares[i].x)[b]
      {
        InterpolantPasses(Points(shares), Column(shares, b), i);
      }
    }
    forall i, j | 0 <= i < j < |shares|
      ensures shares[i].x != shares[j].x
    {
      assert Points(shares)[i] != Points(shares)[j];
    }
    assert InterpolateAt(shares, 255, vlen).value == ValuesAt(polys, 255);
    assert InterpolateAt(shares, 254, vlen).value == ValuesAt(polys, 254);
  }

  lemma OnlyPolys(shares: seq<RawShare>, vlen: nat, polys: seq<Poly>)
    requires LieOn(shares, polys) && |polys| == vlen
    ensures WellFormed(shares, vlen) && polys == Interpolants(shares, vlen)
  {
    hide Eval;
    hide Interpolant;
    assert Distinct(Points(shares));
    forall b | 0 <= b < vlen
      ensures polys[b] == Interpolants(shares, vlen)[b]
    {
      InterpolantUnique(Points(shares), Column(shares, b), polys[b]);
    }
  }

  /** The secret recovered is exactly what the shares yield. */
  lemma SecretExact(hmac: Mac, t: nat, shares: seq<RawShare>, vlen: nat, x: seq<byte>)
    requires IsMac(hmac) && (|shares| > 0 ==> |shares[0].data| == vlen)
    ensures SecretOf(hmac, t, shares, vlen) == Some(x) <==> Yields(hmac, t, shares, vlen, x)
  {
    hide Interpolants;
    hide InterpolateAt;
    hide ValuesAt;
    hide LieOn;
    if t != 1 && vlen >= 4 {
      if SecretOf(hmac, t, shares, vlen) == Some(x) {
        NotWellFormed(shares, vlen);
        InterpolantsCarry(shares, vlen);
        assert Carries(hmac, shares, vlen, x, Interpolants(shares, vlen));
      }
      if Yields(hmac, t, shares, vlen, x) {
        var polys :| Carries(hmac, shares, vlen, x, polys);
        OnlyPolys(shares, vlen, polys);
        InterpolantsCarry(shares, vlen);
      }
    }
  }

  lemma NotWellFormed(shares: seq<RawShare>, vlen: nat)
    ensures InterpolateAt(shares, 255, vlen).Some? <==> WellFormed(shares, vlen)
  {
  }

  /** Recovers one level's secret: what the shares yield, or nothing if they yield nothing. */
  method RecoverSecret(hmac: Mac, exp: seq<byte>, log: seq<byte>, t: nat, shares: seq<RawShare>, vlen: nat)
    returns (r: Option<seq<byte>>)
    requires IsMac(hmac) && IsLogTables(exp, log)
    requires |shares| > 0 ==> |shares[0].data| == vlen
    ensures r == SecretOf(hmac, t, shares, vlen)
    ensures forall x :: r == Some(x) <==> Yields(hmac, t, shares, vlen, x)
    ensures r.Some? ==> |r.value| == vlen
  {
    forall x
      ensures SecretOf(hmac, t, shares, vlen) == Some(x) <==> Yields(hmac, t, shares, vlen, x)
    {
      SecretExact(hmac, t, shares, vlen, x);
    }
    hide Yields;
    hide Eval;
    hide Interpolant;
    hide IsLogTables;
    if t == 1 {
      if |shares| < 1 {
        return None;
      }
      return Some(shares[0].data);
    }
    if vlen < 4 {
      return None;
    }
    var secret := Interpolate(exp, log, shares, 255, vlen);
    if secret.None? {
      return None;
    }
    assert secret.value == InterpolateAt(shares, 255, vlen).value;
    var digest := Interpolate(exp, log, shares, 254, vlen);
    if digest.None? {
      return None;
    }
    assert digest.value == InterpolateAt(shares, 254, vlen).value;
    var want := hmac(digest.value[4..], secret.value)[..4];
    if want != digest.value[..4] {
      return None;
    }
    return secret;
  }

  lemma EvalConstant(f: Poly, x: byte, y: byte)
    requires |f| == 1
    ensures Eval(K, f, x) == Eval(K, f, y)
  {
    assert f[1..] == [];
    MulZero(K, x);
    MulZero(K, y);
  }

  /** Any `t` shares of a sharing at distinct points give its secret. */
  lemma AnyThresholdShares(hmac: Mac, t: nat, secret: seq<byte>, polys: seq<Poly>, shares: seq<RawShare>)
    requires IsMac(hmac) && Shares(hmac, t, secret, polys)
    requires |shares| == t && Distinct(Points(shares))
    requires forall i :: 0 <= i < t ==> shares[i].data == ValuesAt(polys, shares[i].x)
    ensures SecretOf(hmac, t, shares, |secret|) == Some(secret)
  {
    hide Eval;
    hide Interpolant;
    if t == 1 {
      forall b | 0 <= b < |secret|
        ensures shares[0].data[b] == secret[b]
      {
        EvalConstant(polys[b], shares[0].x, 255);
      }
      assert shares[0].data == secret;
    } else {
      forall b | 0 <= b < |secret|
        ensures Interpolant(Points(shares), Column(shares, b)) == polys[b]
      {
        InterpolantUnique(Points(shares), Column(shares, b), polys[b]);
      }
      assert InterpolateAt(shares, 255, |secret|).value == ValuesAt(polys, 255);
      assert InterpolateAt(shares, 254, |secret|).value == ValuesAt(polys, 254);
    }
  }
}
