/** Two or more roots to spare: words that are accepted without becoming codewords. */
module RsBeyond {
  import opened Options
  import opened Bits
  import opened Gf256
  import opened GfOrder
  import opened Poly
  import opened Sums
  import opened RsAlgebra
  import opened RsCode
  import opened BerlekampMassey
  import opened RsDecode
  import opened RsRegister
  import opened RsCorrect

  /** The erasure locator misses the first syndrome past the erasures and no other. */
  ghost predicate MissesOne(nu: nat, s: seq<byte>, lam: Poly)
  {
    nu < |s| && Conv(M, lam, s, nu) != 0 && forall j :: nu < j < |s| ==> Conv(M, lam, s, j) == 0
  }

  /** The first round corrects the locator and the second takes the correction back, but the register stays
      longer. */
  lemma {:induction false} TakenBack(nu: nat, s: seq<byte>, lam: Poly, r: nat)
    requires MissesOne(nu, s, lam) && |lam| == |s| + 1 && nu + 2 <= r <= |s|
    ensures Run(M, nu, s, lam, r).lam == lam && Run(M, nu, s, lam, r).el == nu + 1
  {
    hide Conv;
    hide Corrected;
    hide Shift;
    hide Inv;
    hide Scale;
    if r > nu + 2 {
      TakenBack(nu, s, lam, r - 1);
    } else {
      var delta := Conv(M, lam, s, nu);
      var lam1, b1 := Corrected(M, lam, lam, delta), Scale(M, Inv(M, delta), lam);
      assert Run(M, nu, s, lam, nu) == Register(lam, lam, nu);
      assert Run(M, nu, s, lam, nu + 1) == Register(lam1, b1, nu + 1);
      SecondDiscrepancy(nu, s, lam);
      Cancels(lam, delta);
      assert Run(M, nu, s, lam, nu + 2).lam == Corrected(M, lam1, b1, Mul(M, delta, delta));
    }
  }

  lemma SecondDiscrepancy(nu: nat, s: seq<byte>, lam: Poly)
    requires MissesOne(nu, s, lam) && |lam| == |s| + 1 && nu + 2 <= |s|
    ensures var delta := Conv(M, lam, s, nu);
      var square := Mul(M, delta, delta);
      Conv(M, Corrected(M, lam, lam, delta), s, nu + 1) == square != 0
  {
    hide Conv;
    hide Mul;
    hide Add;
    hide Corrected;
    var delta := Conv(M, lam, s, nu);
    ConvCorrected(M, lam, lam, delta, s, nu + 1);
    ConvShift(M, lam, s, nu + 1);
    AddZero(Mul(M, delta, delta));
    NoZeroDivisors(M, delta, delta);
  }

  lemma Cancels(lam: Poly, delta: byte)
    requires |lam| > 0 && delta != 0
    ensures Corrected(M, Corrected(M, lam, lam, delta), Scale(M, Inv(M, delta), lam), Mul(M, delta, delta)) == lam
  {
    hide Mul;
    hide Add;
    hide Inv;
    var inv := Inv(M, delta);
    var r := Corrected(M, Corrected(M, lam, lam, delta), Scale(M, inv, lam), Mul(M, delta, delta));
    forall i | 0 <= i < |lam|
      ensures r[i] == lam[i]
    {
      MulZero(M, delta);
      MulZero(M, Mul(M, delta, delta));
      AddZero(lam[i]);
      if i > 0 {
        var a := lam[i - 1];
        MulAssoc(M, delta, delta, Mul(M, inv, a));
        MulAssoc(M, delta, inv, a);
        MulOne(M, a);
        assert r[i] == Add(Add(lam[i], Mul(M, delta, a)), Mul(M, delta, a));
        AddCancel(lam[i], Mul(M, delta, a));
      }
    }
  }

  /** Such a word is accepted: only its erased layers are filled in, and the result is no codeword. */
  lemma AcceptedUncorrected(w: seq<byte>, nroots: nat, erased: seq<nat>)
    requires |w| == 255 && Positions(erased, 255) && 0 < |erased| && |erased| + 2 <= nroots
    requires MissesOne(|erased|, SyndromesOf(w, nroots), ErasureStart(erased, nroots))
    ensures var d := Decoded(w, nroots, erased);
      d.Some? && AgreeOutside(w, d.value, erased) && !IsCodeword(d.value, nroots)
    ensures var q := RegisterOf(w, nroots, erased); q.el == |erased| + 1 && q.lam[q.el] == 0
  {
    hide MissesOne;
    hide Locator;
    hide Syndrome;
    hide Run;
    hide Exp;
    hide Decoded;
    hide IsCodeword;
    var q, lam := RegisterOf(w, nroots, erased), ErasureStart(erased, nroots);
    TakenBack(|erased|, SyndromesOf(w, nroots), lam, nroots);
    assert Splits(q.lam, erased);
    DecodedExact(w, nroots, erased, erased);
    SplitsDegree(q.lam, erased);
    DecodedCodeword(w, nroots, erased);
  }

  // ----- such words exist

  lemma ConvPrefix(c: Poly, s: seq<byte>, s': seq<byte>, i: nat)
    requires i < |s| && i < |s'| && forall j :: 0 <= j <= i ==> s[j] == s'[j]
    ensures Conv(M, c, s, i) == Conv(M, c, s', i)
  {
    hide Mul;
    hide Add;
    SumSame(ConvTerm(M, c, s, i), ConvTerm(M, c, s', i), 0, i + 1);
  }

  /** Any sequence is what a polynomial with constant 1 makes of some syndromes. */
  lemma {:induction false} SolveConv(c: Poly, t: seq<byte>) returns (s: seq<byte>)
    requires At(c, 0) == 1
    ensures |s| == |t| && forall j :: 0 <= j < |t| ==> Conv(M, c, s, j) == t[j]
  {
    hide Conv;
    hide Add;
    s := [];
    while |s| < |t|
      invariant |s| <= |t| && forall j :: 0 <= j < |s| ==> Conv(M, c, s, j) == t[j]
    {
      var n := |s|;
      var x := Add(t[n], Conv(M, c, s + [0], n));
      NextTerm(c, s, x);
      AddCancel(t[n], Conv(M, c, s + [0], n));
      forall j | 0 <= j < n
        ensures Conv(M, c, s + [x], j) == t[j]
      {
        ConvPrefix(c, s, s + [x], j);
      }
      s := s + [x];
    }
  }

  lemma NextTerm(c: Poly, s: seq<byte>, x: byte)
    requires At(c, 0) == 1
    ensures Conv(M, c, s + [x], |s|) == Add(x, Conv(M, c, s + [0], |s|))
  {
    hide Mul;
    hide Add;
    var n := |s|;
    var f, g := ConvTerm(M, c, s + [x], n), ConvTerm(M, c, s + [0], n);
    SumFirst(f, 0, n + 1);
    SumFirst(g, 0, n + 1);
    SumSame(f, g, 1, n + 1);
    MulOne(M, x);
    MulOne(M, 0);
    AddZero(Sum(g, 1, n + 1));
  }

  function Upto(n: nat): (r: seq<nat>)
    ensures |r| == n && forall i :: 0 <= i < n ==> r[i] == i
  {
    seq(n, i => i)
  }

  /** Any syndromes are those of some word. */
  lemma WordOf(s: seq<byte>) returns (w: seq<byte>)
    requires |s| <= 255
    ensures |w| == 255 && SyndromesOf(w, |s|) == s
  {
    hide Exp;
    hide Geo;
    hide Values;
    hide Syndrome;
    var p := Upto(|s|);
    PlacesReciprocal(p);
    var ys := SolvePowerSums(M, s, Places(p), ReciprocalPlaces(p));
    w := ErrorWord(p, ys);
    forall i | 0 <= i < |s|
      ensures Syndrome(w, i) == s[i]
    {
      SyndromeSupport(w, p, i);
    }
  }

  /** Whatever is erased, if two roots or more are to spare. */
  lemma UncorrectedExists(nroots: nat, erased: seq<nat>) returns (w: seq<byte>)
    requires Positions(erased, 255) && 0 < |erased| && |erased| + 2 <= nroots <= 255
    ensures |w| == 255 && MissesOne(|erased|, SyndromesOf(w, nroots), ErasureStart(erased, nroots))
  {
    hide Locator;
    hide Syndrome;
    hide Conv;
    var lam := ErasureStart(erased, nroots);
    LocatorConstant(M, Places(erased));
    var s := SolveConv(lam, seq(nroots, i => if i == |erased| then 1 else 0));
    w := WordOf(s);
  }

  ghost predicate LoneFirst(s: seq<byte>)
  {
    |s| > 0 && s[0] != 0 && forall i :: 0 < i < |s| ==> s[i] == 0
  }

  /** A concrete case: one erased layer, and only the first syndrome different from zero. */
  lemma LoneSyndrome(w: seq<byte>, nroots: nat, erased: seq<nat>)
    requires |w| == 255 && Positions(erased, 255) && |erased| == 1 && 3 <= nroots && LoneFirst(SyndromesOf(w, nroots))
    ensures var d := Decoded(w, nroots, erased); d.Some? && !IsCodeword(d.value, nroots)
  {
    hide Mul;
    hide Add;
    hide Exp;
    hide Syndrome;
    hide Locator;
    hide Conv;
    hide Decoded;
    hide IsCodeword;
    var s, x := SyndromesOf(w, nroots), Place(erased[0]);
    var lam := ErasureStart(erased, nroots);
    assert Places(erased) == [x];
    LocatorOne(x);
    forall j | 0 < j < nroots
      ensures Conv(M, lam, s, j) == if j == 1 then Mul(M, x, s[0]) else 0
    {
      TwoTerms(lam, x, s, j);
      AddZero(Mul(M, x, s[0]));
      MulZero(M, x);
      AddZero(0);
    }
    PlaceNonzero(erased[0], 0);
    NoZeroDivisors(M, x, s[0]);
    AcceptedUncorrected(w, nroots, erased);
  }

  lemma TwoTerms(lam: Poly, x: byte, s: seq<byte>, j: nat)
    requires 0 < j < |s| && |lam| >= 2 && lam[0] == 1 && lam[1] == x && forall k :: 2 <= k < |lam| ==> lam[k] == 0
    ensures Conv(M, lam, s, j) == Add(s[j], Mul(M, x, s[j - 1]))
  {
    hide Mul;
    hide Add;
    var f := ConvTerm(M, lam, s, j);
    SumFirst(f, 0, j + 1);
    SumFirst(f, 1, j + 1);
    forall k | 2 <= k < j + 1
      ensures f(k) == 0
    {
      MulZero(M, At(s, j - k));
    }
    SumZero(f, 2, j + 1);
    MulOne(M, s[j]);
    AddZero(Mul(M, x, s[j - 1]));
  }
}
