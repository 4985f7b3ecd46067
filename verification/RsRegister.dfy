/** What the decoder takes a word for: the register its iteration ends with, and the word its corrections give. */
module RsRegister {
  import opened Options
  import opened Bits
  import opened Gf256
  import opened GfOrder
  import opened Poly
  import opened Sums
  import opened RsAlgebra
  import opened RsCode
  import opened BerlekampMassey
  import opened RsDecode

  ghost function SyndromesOf(w: seq<byte>, n: nat): (s: seq<byte>)
    ensures |s| == n && forall i :: 0 <= i < n ==> s[i] == Syndrome(w, i)
  {
    seq(n, i requires 0 <= i < n => Syndrome(w, i))
  }

  // ----- the register

  /** The locator of the erased layers, with room for one coefficient per root more. */
  ghost function ErasureStart(erased: seq<nat>, nroots: nat): (lam: Poly)
    requires Positions(erased, 255)
    ensures Padded(lam, Locator(M, Places(erased)), nroots + 1)
  {
    seq(nroots + 1, i requires 0 <= i <= nroots => At(Locator(M, Places(erased)), i))
  }

  /** The register after all rounds on the syndromes of a word. */
  ghost function RegisterOf(w: seq<byte>, nroots: nat, erased: seq<nat>): (q: Register)
    requires Positions(erased, 255) && |erased| <= nroots
    ensures |q.lam| == nroots + 1
  {
    Run(M, |erased|, SyndromesOf(w, nroots), ErasureStart(erased, nroots), nroots)
  }

  /** Its locator vanishes on the erased layers and annihilates the syndromes from the register length on. */
  lemma RegisterRuns(w: seq<byte>, nroots: nat, erased: seq<nat>)
    requires Positions(erased, 255) && |erased| <= nroots
    ensures Running(M, ReciprocalPlaces(erased), SyndromesOf(w, nroots), RegisterOf(w, nroots, erased), nroots)
  {
    hide Locator;
    hide Running;
    hide Run;
    hide Syndrome;
    hide Exp;
    Start(erased, nroots, ErasureStart(erased, nroots));
    RunKeeps(M, ReciprocalPlaces(erased), SyndromesOf(w, nroots), ErasureStart(erased, nroots), nroots);
  }

  // ----- locators and layers

  ghost function Elements(s: seq<nat>): set<nat>
  {
    set x | x in s
  }

  lemma {:induction false} ElementsCount(s: seq<nat>)
    requires forall i, j :: 0 <= i < j < |s| ==> s[i] != s[j]
    ensures |Elements(s)| == |s|
  {
    if |s| > 0 {
      var k := |s| - 1;
      ElementsCount(s[..k]);
      assert Elements(s) == Elements(s[..k]) + {s[k]};
    }
  }

  lemma LayerInjective(i: nat, j: nat)
    requires 1 <= i < j <= 255
    ensures LayerOf(i) != LayerOf(j)
  {
    hide Exp;
    hide LayerOf;
    if LayerOf(i) == LayerOf(j) {
      LayerReciprocal(i);
      LayerReciprocal(j);
      ExpSame(i, j);
    }
  }

  lemma RootIsLayer(p: seq<nat>, nroots: nat, lam: Poly, i: nat)
    requires Positions(p, 255) && |p| <= nroots && Padded(lam, Locator(M, Places(p)), nroots + 1) && i > 0
    ensures Eval(M, lam, Exp(M, i)) == 0 <==> LayerOf(i) in p
  {
    hide Mul;
    hide Eval;
    hide Locator;
    hide Exp;
    var l, xs := LayerOf(i), Places(p);
    LayerReciprocal(i);
    PlaceReciprocal(l);
    LocatorRoot(M, xs, Place(l), Exp(M, i));
    assert lam[..|p| + 1] == Locator(M, xs);
    EvalTruncate(M, lam, |p| + 1, Exp(M, i));
    if Place(l) in xs {
      var k :| 0 <= k < |xs| && xs[k] == Place(l);
      PlaceInjective(p[k], l);
    }
    if l in p {
      var k :| 0 <= k < |p| && p[k] == l;
      assert xs[k] == Place(l);
    }
  }

  lemma {:induction false} LeadingCoefficient(m: Field, fs: seq<Factor>)
    requires forall k :: 0 <= k < |fs| ==> fs[k].b != 0
    ensures Prod(m, fs)[|fs|] != 0
  {
    hide Mul;
    hide Add;
    hide MulLin;
    if |fs| > 0 {
      var n := |fs| - 1;
      LeadingCoefficient(m, fs[..n]);
      var c := Prod(m, fs[..n]);
      MulLinAt(m, fs[n].a, fs[n].b, c, n + 1);
      MulZero(m, fs[n].a);
      AddZero(Mul(m, fs[n].b, c[n]));
      NoZeroDivisors(m, fs[n].b, c[n]);
    }
  }

  lemma LocatorDegree(xs: seq<byte>, zs: seq<byte>)
    requires Reciprocals(M, xs, zs)
    ensures Locator(M, xs)[|xs|] != 0
  {
    hide Mul;
    ReciprocalsDistinct(M, xs, zs);
    LeadingCoefficient(M, Factors(xs));
  }

  /** The polynomial is the locator of the layers `p`. */
  ghost predicate Splits(lam: Poly, p: seq<nat>)
  {
    Positions(p, 255) && |p| < |lam| && Padded(lam, Locator(M, Places(p)), |lam|)
  }

  /** The layers of a locator are determined but for their order. */
  lemma SplitsSame(lam: Poly, p: seq<nat>, q: seq<nat>)
    requires Splits(lam, p) && Splits(lam, q)
    ensures |p| == |q| && Elements(p) == Elements(q)
  {
    hide Eval;
    hide Locator;
    hide Exp;
    hide LayerOf;
    forall l | 0 <= l < 255
      ensures l in p <==> l in q
    {
      var i := LayerVisited(l);
      RootIsLayer(p, |lam| - 1, lam, i);
      RootIsLayer(q, |lam| - 1, lam, i);
    }
    assert Elements(p) == Elements(q);
    ElementsCount(p);
    ElementsCount(q);
  }

  lemma SplitsDegree(lam: Poly, p: seq<nat>)
    requires Splits(lam, p)
    ensures |p| < |lam| && lam[|p|] != 0 && DegreeAtMost(lam, |p|)
  {
    hide Locator;
    hide Exp;
    PlacesReciprocal(p);
    LocatorDegree(Places(p), ReciprocalPlaces(p));
  }

  lemma AgreeElements(w: seq<byte>, v: seq<byte>, p: seq<nat>, q: seq<nat>)
    requires AgreeOutside(w, v, p) && Elements(p) <= Elements(q)
    ensures AgreeOutside(w, v, q)
  {
    forall l | 0 <= l < |w| && l !in q
      ensures w[l] == v[l]
    {
      assert l !in Elements(q);
      assert l !in Elements(p);
    }
  }

  // ----- the word the corrections give

  /** The polynomial is the locator of some layers. */
  ghost predicate IsLocator(lam: Poly)
  {
    exists p :: Splits(lam, p)
  }

  ghost function LayersOf(lam: Poly): (p: seq<nat>)
    requires IsLocator(lam)
    ensures Splits(lam, p) && Positions(p, 255)
  {
    var p :| Splits(lam, p);
    p
  }

  /** If the register's locator is one of distinct layers, the word that agrees outside these layers and has
      as many vanishing syndromes as there are of them; otherwise nothing. */
  ghost function Decoded(w: seq<byte>, nroots: nat, erased: seq<nat>): (r: Option<seq<byte>>)
    requires |w| == 255 && Positions(erased, 255) && |erased| <= nroots
    ensures r.Some? ==> |r.value| == 255
  {
    var lam := RegisterOf(w, nroots, erased).lam;
    if IsLocator(lam) then Some(Completion(w, |LayersOf(lam)|, LayersOf(lam))) else None
  }

  /** It is the only such word. */
  lemma DecodedExact(w: seq<byte>, nroots: nat, erased: seq<nat>, p: seq<nat>)
    requires |w| == 255 && Positions(erased, 255) && |erased| <= nroots
    requires Splits(RegisterOf(w, nroots, erased).lam, p)
    ensures Decoded(w, nroots, erased).Some?
    ensures var v := Decoded(w, nroots, erased).value; AgreeOutside(w, v, p) && IsCodeword(v, |p|)
    ensures forall c :: AgreeOutside(w, c, p) && IsCodeword(c, |p|) ==> Decoded(w, nroots, erased) == Some(c)
  {
    hide Splits;
    hide RegisterOf;
    hide IsCodeword;
    hide AgreeOutside;
    hide Completion;
    hide LayersOf;
    var lam := RegisterOf(w, nroots, erased).lam;
    var q := LayersOf(lam);
    var v := Completion(w, |q|, q);
    SplitsSame(lam, p, q);
    AgreeElements(w, v, q, p);
    forall c | AgreeOutside(w, c, p) && IsCodeword(c, |p|)
      ensures c == v
    {
      AgreeBoth(w, c, v, p);
      SplitsPositions(lam, p);
      CodewordUnique(c, v, |p|, p);
    }
  }

  lemma SplitsPositions(lam: Poly, p: seq<nat>)
    requires Splits(lam, p)
    ensures Positions(p, 255)
  {
  }

  lemma AgreeBoth(w: seq<byte>, c: seq<byte>, v: seq<byte>, p: seq<nat>)
    requires AgreeOutside(w, c, p) && AgreeOutside(w, v, p)
    ensures AgreeOutside(c, v, p)
  {
  }

  // ----- when the word is a codeword

  /** The erased layers are among those of the locator. */
  lemma ErasedInside(w: seq<byte>, nroots: nat, erased: seq<nat>, p: seq<nat>)
    requires Positions(erased, 255) && |erased| <= nroots && Splits(RegisterOf(w, nroots, erased).lam, p)
    ensures Elements(erased) <= Elements(p)
  {
    hide Eval;
    hide Locator;
    hide Exp;
    hide LayerOf;
    hide Conv;
    hide Run;
    hide Auxiliary;
    var lam := RegisterOf(w, nroots, erased).lam;
    RegisterRuns(w, nroots, erased);
    forall l | l in erased
      ensures l in p
    {
      var k :| 0 <= k < |erased| && erased[k] == l;
      assert Eval(M, lam, ReciprocalPlaces(erased)[k]) == 0;
      var i := LayerVisited(l);
      LayerReciprocal(i);
      RootIsLayer(p, nroots, lam, i);
    }
  }

  /** Of two words that differ in the layers of a locator, the locator makes the same of the syndromes past
      its degree. */
  lemma ConvSame(w: seq<byte>, v: seq<byte>, n: nat, lam: Poly, p: seq<nat>, j: nat)
    requires |w| == |v| == 255 && Splits(lam, p) && |lam| == n + 1 && |p| <= j < n && AgreeOutside(w, v, p)
    ensures Conv(M, lam, SyndromesOf(w, n), j) == Conv(M, lam, SyndromesOf(v, n), j)
  {
    hide Mul;
    hide Add;
    hide Eval;
    hide Geo;
    hide Exp;
    hide Locator;
    hide Syndrome;
    hide Conv;
    hide Values;
    var e := AddP(w, v);
    var d := Damage(Values(e, p), Places(p), ReciprocalPlaces(p), |p|);
    var sw, sv, se := SyndromesOf(w, n), SyndromesOf(v, n), SyndromesOf(e, n);
    PlacesReciprocal(p);
    forall l | 0 <= l < 255 && l !in p
      ensures At(e, l) == 0
    {
      AddSelf(w[l]);
    }
    forall i | 0 <= i < n
      ensures se[i] == Geo(M, d.ys, d.xs, i) && se[i] == Add(sw[i], sv[i])
    {
      SyndromeSupport(e, p, i);
      SyndromeAdd(w, v, i);
    }
    Start(p, n, lam);
    assert d.zs[..|p|] == d.zs;
    NothingLeft(M, d, se, lam, |p|);
    ConvAddRight(lam, sw, sv, se, j);
    AddCancel(Conv(M, lam, sw, j), Conv(M, lam, sv, j));
  }

  lemma ConvAddRight(c: Poly, s: seq<byte>, s': seq<byte>, sum: seq<byte>, i: nat)
    requires |s| == |s'| == |sum| > i && forall k :: 0 <= k < |s| ==> sum[k] == Add(s[k], s'[k])
    ensures Conv(M, c, sum, i) == Add(Conv(M, c, s, i), Conv(M, c, s', i))
  {
    hide Mul;
    hide Add;
    forall j | 0 <= j < i + 1
      ensures ConvTerm(M, c, sum, i)(j) == Add(ConvTerm(M, c, s, i)(j), ConvTerm(M, c, s', i)(j))
    {
      MulAddRight(M, At(c, j), At(s, i - j), At(s', i - j));
    }
    SumAdd(ConvTerm(M, c, s, i), ConvTerm(M, c, s', i), ConvTerm(M, c, sum, i), 0, i + 1);
  }

  /** A word whose first syndromes vanish, and which the locator annihilates past its degree, is a codeword. */
  lemma AnnihilatedCodeword(v: seq<byte>, nroots: nat, lam: Poly, n: nat)
    requires |v| == 255 && IsCodeword(v, n) && n <= nroots && At(lam, 0) == 1
    requires forall j :: n <= j < nroots ==> Conv(M, lam, SyndromesOf(v, nroots), j) == 0
    ensures IsCodeword(v, nroots)
  {
    hide Syndrome;
    hide Conv;
    var s, zero := SyndromesOf(v, nroots), seq(nroots, _ => 0);
    forall j | 0 <= j < nroots
      ensures Conv(M, lam, s, j) == 0 == Conv(M, lam, zero, j)
    {
      ConvZero(M, lam, zero, j);
      if j < n {
        ConvZeroTo(M, lam, s, j);
      }
    }
    if nroots > 0 {
      ConvDetermines(M, lam, s, zero, nroots - 1);
      forall j | 0 <= j < nroots
        ensures Syndrome(v, j) == 0
      {
        assert At(s, j) == At(zero, j);
      }
    }
  }

  lemma ConvZeroTo(m: byte, c: Poly, s: seq<byte>, i: nat)
    requires i < |s| && forall j :: 0 <= j <= i ==> s[j] == 0
    ensures Conv(m, c, s, i) == 0
  {
    hide Mul;
    forall j | 0 <= j < i + 1
      ensures ConvTerm(m, c, s, i)(j) == 0
    {
      MulZero(m, At(c, j));
    }
    SumZero(ConvTerm(m, c, s, i), 0, i + 1);
  }

  /** The word is a codeword exactly when the locator's degree is the register length. */
  lemma DecodedCodeword(w: seq<byte>, nroots: nat, erased: seq<nat>)
    requires |w| == 255 && Positions(erased, 255) && 0 < |erased| <= nroots && Decoded(w, nroots, erased).Some?
    ensures var q := RegisterOf(w, nroots, erased);
      && 0 < q.el <= nroots
      && (IsCodeword(Decoded(w, nroots, erased).value, nroots) <==> q.lam[q.el] != 0)
  {
    hide Conv;
    hide Eval;
    hide Splits;
    hide Syndrome;
    hide RegisterOf;
    hide AgreeOutside;
    hide Completion;
    hide Auxiliary;
    hide VanishesOn;
    var q, v := RegisterOf(w, nroots, erased), Decoded(w, nroots, erased).value;
    var p := LayersOf(q.lam);
    hide Decoded;
    DecodedExact(w, nroots, erased, p);
    SplitsDegree(q.lam, p);
    RegisterRuns(w, nroots, erased);
    assert |p| <= q.el;
    if q.lam[q.el] != 0 {
      assert q.el == |p|;
      forall j | |p| <= j < nroots
        ensures Conv(M, q.lam, SyndromesOf(v, nroots), j) == 0
      {
        ConvSame(w, v, nroots, q.lam, p, j);
      }
      AnnihilatedCodeword(v, nroots, q.lam, |p|);
    } else if IsCodeword(v, nroots) {
      RegisterShort(w, v, nroots, erased, p);
    }
  }

  /** If the word is a codeword, the register is no longer than there are layers in its locator. */
  lemma RegisterShort(w: seq<byte>, v: seq<byte>, nroots: nat, erased: seq<nat>, p: seq<nat>)
    requires Positions(erased, 255) && |erased| <= nroots && Splits(RegisterOf(w, nroots, erased).lam, p)
    requires IsCodeword(v, nroots) && AgreeOutside(w, v, p)
    ensures RegisterOf(w, nroots, erased).el <= |p|
  {
    hide Exp;
    hide Geo;
    hide Values;
    hide Syndrome;
    hide Running;
    hide RegisterOf;
    hide IsCodeword;
    hide Locator;
    ErasedInside(w, nroots, erased, p);
    var p' := Reordered(erased, p);
    AgreeElements(w, v, p, p');
    var d := Damage(Values(AddP(w, v), p'), Places(p'), ReciprocalPlaces(p'), |erased|);
    PlacesReciprocal(p');
    forall i | 0 <= i < nroots
      ensures Syndrome(w, i) == Geo(M, d.ys, d.xs, i)
    {
      SyndromeOfDamage(w, v, nroots, p', i);
    }
    RegisterRuns(w, nroots, erased);
    assert d.zs[..|erased|] == ReciprocalPlaces(erased);
    ShortestRegister(M, d, SyndromesOf(w, nroots), RegisterOf(w, nroots, erased));
  }

  /** The same layers with the erased ones first. */
  lemma Reordered(erased: seq<nat>, p: seq<nat>) returns (p': seq<nat>)
    requires Positions(erased, 255) && Positions(p, 255) && Elements(erased) <= Elements(p)
    ensures Positions(p', 255) && Elements(p') == Elements(p) && |p'| == |p|
    ensures |erased| <= |p'| && p'[..|erased|] == erased
  {
    p' := erased;
    var k := 0;
    while k < |p|
      invariant 0 <= k <= |p| && Positions(p', 255) && |erased| <= |p'| && p'[..|erased|] == erased
      invariant forall l :: l in p' <==> l in erased || l in p[..k]
    {
      assert p[..k + 1] == p[..k] + [p[k]];
      if p[k] !in p' {
        p' := p' + [p[k]];
      }
      k := k + 1;
    }
    assert p[..|p|] == p;
    assert Elements(p') == Elements(p) by {
      forall l | l in erased
        ensures l in p
      {
        assert l in Elements(erased);
      }
    }
    ElementsCount(p');
    ElementsCount(p);
  }

  // ----- damage within reach

  /** `w` is the codeword `c` with damage at the erased layers and at further unknown layers `errors`,
      each unknown layer costing two syndromes and each erased layer one. */
  ghost predicate Correctable(w: seq<byte>, c: seq<byte>, nroots: nat, erased: seq<nat>, errors: seq<nat>)
  {
    && IsCodeword(c, nroots)
    && Positions(erased + errors, 255)
    && 0 < |erased| && |erased| + 2 * |errors| <= nroots
    && AgreeOutside(w, c, erased + errors)
    && forall k :: 0 <= k < |errors| ==> At(w, errors[k]) != At(c, errors[k])
  }

  ghost function DamageOf(w: seq<byte>, c: seq<byte>, erased: seq<nat>, errors: seq<nat>): Damage
    requires |w| == |c| && Positions(erased + errors, 255)
  {
    var p := erased + errors;
    Damage(Values(AddP(w, c), p), Places(p), ReciprocalPlaces(p), |erased|)
  }

  lemma CorrectableSeen(w: seq<byte>, c: seq<byte>, nroots: nat, erased: seq<nat>, errors: seq<nat>, s: seq<byte>)
    requires Correctable(w, c, nroots, erased, errors)
    requires s == SyndromesOf(w, nroots)
    ensures Seen(M, DamageOf(w, c, erased, errors), s)
    ensures Positions(erased, 255) && DamageOf(w, c, erased, errors).zs[..|erased|] == ReciprocalPlaces(erased)
  {
    hide Mul;
    hide Add;
    hide Exp;
    hide Geo;
    hide Values;
    hide Syndrome;
    var p := erased + errors;
    var d := DamageOf(w, c, erased, errors);
    PlacesReciprocal(p);
    forall i | 0 <= i < nroots
      ensures s[i] == Geo(M, d.ys, d.xs, i)
    {
      SyndromeOfDamage(w, c, nroots, p, i);
    }
    forall k | |erased| <= k < |p|
      ensures d.ys[k] != 0
    {
      assert p[k] == errors[k - |erased|];
      ValueZero(AddP(w, c), p, k);
      AddCancel(w[p[k]], c[p[k]]);
    }
    forall i, j | 0 <= i < j < |erased|
      ensures erased[i] != erased[j]
    {
      assert p[i] != p[j];
    }
    forall k | 0 <= k < |erased|
      ensures erased[k] < 255
    {
      assert p[k] < 255;
    }
  }

  lemma CorrectableBounds(w: seq<byte>, c: seq<byte>, nroots: nat, erased: seq<nat>, errors: seq<nat>)
    requires Correctable(w, c, nroots, erased, errors)
    ensures |w| == |c| == 255 && IsCodeword(c, nroots) && AgreeOutside(w, c, erased + errors)
    ensures Positions(erased + errors, 255) && 0 < |erased| && |erased + errors| <= nroots
  {
  }

  /** A codeword that agrees outside the erased layers is within reach whenever there are no more of them than roots. */
  lemma ErasuresCorrectable(w: seq<byte>, c: seq<byte>, nroots: nat, erased: seq<nat>)
    requires IsCodeword(c, nroots) && Positions(erased, 255) && 0 < |erased| <= nroots && AgreeOutside(w, c, erased)
    ensures Correctable(w, c, nroots, erased, [])
  {
    hide IsCodeword;
    assert erased + [] == erased;
  }

  /** The decoder takes a damaged word for the codeword within reach, if there is one. */
  lemma WithinReach(w: seq<byte>, c: seq<byte>, nroots: nat, erased: seq<nat>, errors: seq<nat>)
    requires Correctable(w, c, nroots, erased, errors) && Positions(erased, 255)
    ensures |w| == 255 && |erased| <= nroots && Decoded(w, nroots, erased) == Some(c)
    ensures Splits(RegisterOf(w, nroots, erased).lam, erased + errors)
  {
    hide Exp;
    hide Locator;
    hide Syndrome;
    hide Running;
    hide RegisterOf;
    hide Seen;
    hide Values;
    hide Decoded;
    var q, s, d, p := RegisterOf(w, nroots, erased), SyndromesOf(w, nroots), DamageOf(w, c, erased, errors),
      erased + errors;
    CorrectableSeen(w, c, nroots, erased, errors, s);
    RegisterRuns(w, nroots, erased);
    Finished(M, d, s, q);
    assert Splits(q.lam, p);
    DecodedExact(w, nroots, erased, p);
    assert IsCodeword(c, |p|);
  }
}
