/** One root to spare: when all roots but one serve erasures, the last syndrome decides what the decoder
    takes the word for. */
module RsSpare {
  import opened Options
  import opened Bits
  import opened Gf256
  import opened GfOrder
  import opened Poly
  import opened Sums
  import opened RsAlgebra
  import opened RsCode
  import opened BerlekampMassey
  import opened RsDecode
  import opened RsRegister
  import opened RsCorrect

  /** The discrepancy the erasures leave: the erasure locator against one syndrome more than there are erasures. */
  ghost function Spare(w: seq<byte>, erased: seq<nat>): byte
    requires Positions(erased, 255)
  {
    Conv(M, Locator(M, Places(erased)), SyndromesOf(w, |erased| + 1), |erased|)
  }

  /** What an error of value 1 at layer `u` contributes to it. */
  function SpareFactor(erased: seq<nat>, u: nat): byte
    requires u < 255 && forall k :: 0 <= k < |erased| ==> erased[k] < 255
  {
    var x := Place(u);
    Mul(M, Mul(M, Pow(M, x, FIRST_ROOT), Eval(M, Locator(M, Places(erased)), Reciprocal(u))), Pow(M, x, |erased|))
  }

  lemma SpareFactorNonzero(erased: seq<nat>, u: nat)
    requires Positions(erased, 255) && u < 255 && u !in erased
    ensures SpareFactor(erased, u) != 0
  {
    hide Mul;
    hide Pow;
    hide Eval;
    hide Locator;
    hide Exp;
    var x, xs := Place(u), Places(erased);
    PlaceReciprocal(u);
    LocatorRoot(M, xs, x, Reciprocal(u));
    if x in xs {
      var k :| 0 <= k < |xs| && xs[k] == x;
      PlaceInjective(erased[k], u);
      assert false;
    }
    var f, e, p := Pow(M, x, FIRST_ROOT), Eval(M, Locator(M, xs), Reciprocal(u)), Pow(M, x, |erased|);
    PlaceNonzero(u, FIRST_ROOT);
    PlaceNonzero(u, |erased|);
    NoZeroDivisors(M, f, e);
    NoZeroDivisors(M, Mul(M, f, e), p);
  }

  /** Next to a codeword that agrees outside the erased layers and layer `u`, the discrepancy is the error
      at `u` times its factor. */
  lemma SpareValue(w: seq<byte>, c: seq<byte>, nroots: nat, erased: seq<nat>, u: nat)
    requires IsCodeword(c, nroots) && Positions(erased, 255) && |erased| < nroots && u < 255 && u !in erased
    requires AgreeOutside(w, c, erased + [u])
    ensures Spare(w, erased) == Mul(M, Add(w[u], c[u]), SpareFactor(erased, u))
  {
    hide Mul;
    hide Add;
    hide Pow;
    hide Eval;
    hide Locator;
    hide Syndrome;
    hide Exp;
    hide Geo;
    hide Sum;
    hide Conv;
    var n, p, l := |erased|, erased + [u], Locator(M, Places(erased));
    var d := Damage(Values(AddP(w, c), p), Places(p), ReciprocalPlaces(p), n);
    var s := SyndromesOf(w, n + 1);
    PlacesReciprocal(p);
    forall j | 0 <= j <= n
      ensures At(s, j) == Geo(M, d.ys, d.xs, j)
    {
      SyndromeOfDamage(w, c, nroots, p, j);
    }
    ConvGeo(M, l, s, d.ys, d.xs, n);
    FilteredTerms(M, d, l, n);
    SpareGeo(w, c, erased, u, d);
  }

  lemma SpareGeo(w: seq<byte>, c: seq<byte>, erased: seq<nat>, u: nat, d: Damage)
    requires |w| == |c| == 255 && Positions(erased, 255) && u < 255 && u !in erased
    requires var p := erased + [u];
      d == Damage(Values(AddP(w, c), p), Places(p), ReciprocalPlaces(p), |erased|)
    ensures Geo(M, Filtered(M, d, Locator(M, Places(erased))), d.xs, |erased|)
      == Mul(M, Add(w[u], c[u]), SpareFactor(erased, u))
  {
    hide Mul;
    hide Add;
    hide Pow;
    hide Eval;
    hide Locator;
    hide Exp;
    var n, l := |erased|, Locator(M, Places(erased));
    var g := GeoTerm(M, Filtered(M, d, l), d.xs, n);
    forall k | 0 <= k < n
      ensures g(k) == 0
    {
      PlaceReciprocal(erased[k]);
      LocatorRoot(M, Places(erased), Place(erased[k]), Reciprocal(erased[k]));
      assert Places(erased)[k] == Place(erased[k]);
      MulZeroRight(d.ys[k]);
      MulZero(M, Pow(M, d.xs[k], n));
    }
    SumZero(g, 0, n);
    SpareTerm(Add(w[u], c[u]), erased, u);
    AddZero(g(n));
  }

  lemma MulZeroRight(a: byte)
    ensures Mul(M, a, 0) == 0
  {
    hide Mul;
    MulComm(M, a, 0);
    MulZero(M, a);
  }

  lemma SpareTerm(v: byte, erased: seq<nat>, u: nat)
    requires Positions(erased, 255) && u < 255
    ensures var x, e := Place(u), Eval(M, Locator(M, Places(erased)), Reciprocal(u));
      Mul(M, Mul(M, Mul(M, v, Pow(M, x, FIRST_ROOT)), e), Pow(M, x, |erased|)) == Mul(M, v, SpareFactor(erased, u))
  {
    hide Mul;
    hide Pow;
    hide Eval;
    hide Locator;
    hide Exp;
    var x, e := Place(u), Eval(M, Locator(M, Places(erased)), Reciprocal(u));
    var f, p := Pow(M, x, FIRST_ROOT), Pow(M, x, |erased|);
    MulAssoc(M, v, f, e);
    MulAssoc(M, v, Mul(M, f, e), p);
  }

  // ----- places and layers

  /** Every nonzero element is the place of a layer. */
  lemma PlaceOnto(x: byte) returns (l: nat)
    requires x != 0
    ensures l < 255 && Place(l) == x
  {
    hide Mul;
    hide Exp;
    hide Inv;
    hide LayerOf;
    var z := Inv(M, x);
    var i := if Log(M, z) == 0 then 255 else Log(M, z);
    ExpPeriod(M, 255);
    l := LayerOf(i);
    LayerReciprocal(i);
    LayerSmall(i);
    PlaceReciprocal(l);
    MulComm(M, x, z);
    MulComm(M, Place(l), z);
    MulCancel(M, z, x, Place(l));
  }

  lemma LayerSmall(i: nat)
    requires i > 0
    ensures LayerOf(i) < 255
  {
  }

  lemma {:induction false} MissingLayer(erased: seq<nat>, n: nat) returns (u: nat)
    requires Positions(erased, n) && |erased| < n
    ensures u < n && u !in erased
  {
    if n - 1 !in erased {
      u := n - 1;
    } else {
      var k :| 0 <= k < |erased| && erased[k] == n - 1;
      var rest := erased[..k] + erased[k + 1..];
      u := MissingLayer(rest, n - 1);
    }
  }

  // ----- the one step of Berlekamp-Massey

  /** A correction by its own copy multiplies the locator by one more factor. */
  lemma SpareStep(lam: Poly, xs: seq<byte>, delta: byte)
    requires Padded(lam, Locator(M, xs), |xs| + 2)
    ensures Padded(Corrected(M, lam, lam, delta), Locator(M, xs + [delta]), |xs| + 2)
  {
    hide Mul;
    hide Add;
    hide Locator;
    var f, r := Locator(M, xs), Corrected(M, lam, lam, delta);
    LocatorSnoc(xs, delta);
    forall i | 0 <= i < |xs| + 2
      ensures r[i] == At(Locator(M, xs + [delta]), i)
    {
      TimesFactorAt(f, delta, i);
      MulComm(M, delta, At(f, i - 1));
      if i == 0 {
        MulZeroRight(delta);
        MulZero(M, delta);
      }
    }
  }

  // ----- what the decoder makes of it

  /** The outcome when all roots but one serve erasures: with a discrepancy at an erased place the decoder
      gives up; otherwise it takes the discrepancy for one more damaged layer, or for none. */
  ghost predicate SpareOutcome(w: seq<byte>, v: seq<byte>, erased: seq<nat>, nroots: nat, rc: int)
    requires Positions(erased, 255)
  {
    var x := Spare(w, erased);
    && (x in Places(erased) ==> rc == -1 && v == w)
    && (x !in Places(erased) ==> rc == 0 && IsCodeword(v, nroots))
    && (x == 0 ==> AgreeOutside(w, v, erased))
    && forall u :: 0 <= u < 255 && u !in erased && x == Place(u) ==> AgreeOutside(w, v, erased + [u])
  }

  ghost predicate OneSpare(erased: seq<nat>, nroots: nat)
  {
    Positions(erased, 255) && 0 < |erased| && |erased| + 1 == nroots <= 255
  }

  /** A word without discrepancy is a codeword but for the erased layers, and only such a word is. */
  lemma SpareZero(w: seq<byte>, nroots: nat, erased: seq<nat>) returns (c: seq<byte>)
    requires |w| == 255 && OneSpare(erased, nroots)
    ensures Spare(w, erased) == 0 ==> Correctable(w, c, nroots, erased, [])
    ensures forall d :: IsCodeword(d, nroots) && AgreeOutside(w, d, erased) ==> Spare(w, erased) == 0 && d == c
  {
    hide Mul;
    hide Add;
    hide Spare;
    hide SpareFactor;
    hide Syndrome;
    var u := MissingLayer(erased, 255);
    c := ParityExists(w, nroots, erased + [u]);
    SpareValue(w, c, nroots, erased, u);
    SpareFactorNonzero(erased, u);
    NoZeroDivisors(M, Add(w[u], c[u]), SpareFactor(erased, u));
    AddCancel(w[u], c[u]);
    if Spare(w, erased) == 0 {
      MulZero(M, SpareFactor(erased, u));
      ErasuresCorrectable(w, c, nroots, erased);
    }
    forall d | IsCodeword(d, nroots) && AgreeOutside(w, d, erased)
      ensures Spare(w, erased) == 0 && d == c
    {
      CodewordUnique(d, c, nroots, erased + [u]);
      AddSelf(w[u]);
      MulZero(M, SpareFactor(erased, u));
    }
  }

  /** The locator after the one round there is. */
  lemma SpareRegister(w: seq<byte>, nroots: nat, erased: seq<nat>)
    requires OneSpare(erased, nroots)
    ensures Padded(RegisterOf(w, nroots, erased).lam,
                   Locator(M, Places(erased) + if Spare(w, erased) == 0 then [] else [Spare(w, erased)]), nroots + 1)
  {
    hide Locator;
    hide Conv;
    hide Corrected;
    hide Exp;
    hide Syndrome;
    hide Shift;
    hide Inv;
    var s, lam, n := SyndromesOf(w, nroots), ErasureStart(erased, nroots), |erased|;
    var x := Spare(w, erased);
    assert s == SyndromesOf(w, n + 1);
    ConvPadded(lam, Locator(M, Places(erased)), s, n);
    assert Run(M, n, s, lam, n) == Register(lam, lam, n);
    assert Places(erased) + [] == Places(erased);
    SpareStep(lam, Places(erased), x);
  }

  /** A discrepancy at the place of another layer makes the decoder take that layer for damaged too. */
  lemma SpareElsewhere(w: seq<byte>, nroots: nat, erased: seq<nat>) returns (u: nat)
    requires |w| == 255 && OneSpare(erased, nroots)
    requires Spare(w, erased) != 0 && Spare(w, erased) !in Places(erased)
    ensures u < 255 && u !in erased && Spare(w, erased) == Place(u)
    ensures Splits(RegisterOf(w, nroots, erased).lam, erased + [u])
  {
    hide Locator;
    hide Exp;
    hide Syndrome;
    hide Spare;
    hide RegisterOf;
    u := PlaceOnto(Spare(w, erased));
    assert forall k :: 0 <= k < |erased| ==> Places(erased)[k] == Place(erased[k]);
    SpareRegister(w, nroots, erased);
    assert Places(erased + [u]) == Places(erased) + [Place(u)];
  }

  /** A discrepancy at an erased place gives a locator with a double root, which is that of no layers. */
  lemma RepeatedRoot(erased: seq<nat>, x: byte, lam: Poly)
    requires Positions(erased, 255) && x in Places(erased)
    requires Padded(lam, Locator(M, Places(erased) + [x]), |erased| + 2)
    ensures !IsLocator(lam)
  {
    hide Mul;
    hide Add;
    hide Eval;
    hide Exp;
    hide Prod;
    hide LayerOf;
    if IsLocator(lam) {
      var p := LayersOf(lam);
      var xs := Places(erased) + [x];
      NoZeroPlace(erased);
      LeadingCoefficient(M, Factors(xs));
      assert lam[|erased| + 1] != 0;
      hide Locator;
      SplitsDegree(lam, p);
      forall l | l in p
        ensures l in erased
      {
        var i := LayerVisited(l);
        RootIsLayer(p, |erased| + 1, lam, i);
        RootErased(erased, x, lam, i);
      }
      ElementsCount(p);
      ElementsCount(erased);
      assert Elements(p) <= Elements(erased);
      SmallerSet(Elements(p), Elements(erased));
    }
  }

  lemma SmallerSet(a: set<nat>, b: set<nat>)
    requires a <= b
    ensures |a| <= |b|
  {
    assert b == a + (b - a);
  }

  lemma RootErased(erased: seq<nat>, x: byte, lam: Poly, i: nat)
    requires Positions(erased, 255) && x in Places(erased) && i > 0
    requires Padded(lam, Locator(M, Places(erased) + [x]), |erased| + 2) && Eval(M, lam, Exp(M, i)) == 0
    ensures LayerOf(i) in erased
  {
    hide Mul;
    hide Eval;
    hide Locator;
    hide Exp;
    var l, xs := LayerOf(i), Places(erased) + [x];
    LayerReciprocal(i);
    LayerBound(i);
    PlaceReciprocal(l);
    assert lam == Locator(M, xs);
    LocatorRoot(M, xs, Place(l), Exp(M, i));
    assert Place(l) in Places(erased);
    var k :| 0 <= k < |erased| && Places(erased)[k] == Place(l);
    PlaceInjective(erased[k], l);
  }

  lemma NoZeroPlace(erased: seq<nat>)
    requires Positions(erased, 255)
    ensures 0 !in Places(erased) && forall u :: 0 <= u < 255 ==> Place(u) != 0
  {
    hide Exp;
    forall u | 0 <= u < 255
      ensures Place(u) != 0
    {
      PlaceNonzero(u, 0);
    }
  }

  /** With one root to spare the discrepancy decides the outcome. */
  lemma SpareDecides(w: seq<byte>, v: seq<byte>, nroots: nat, erased: seq<nat>, rc: int)
    requires |w| == 255 && OneSpare(erased, nroots) && Verdict(w, v, nroots, erased, rc)
    ensures SpareOutcome(w, v, erased, nroots, rc)
  {
    hide Spare;
    hide Exp;
    hide RegisterOf;
    hide IsCodeword;
    hide Padded;
    hide SpareOutcome;
    var x := Spare(w, erased);
    if x == 0 {
      var c := SpareZero(w, nroots, erased);
      WithinReach(w, c, nroots, erased, []);
      CorrectableBounds(w, c, nroots, erased, []);
      NoZeroPlace(erased);
      SpareDone(w, v, nroots, erased, 0);
    } else if x in Places(erased) {
      SpareRegister(w, nroots, erased);
      RepeatedRoot(erased, x, RegisterOf(w, nroots, erased).lam);
      SpareGivesUp(w, nroots, erased);
    } else {
      var u := SpareElsewhere(w, nroots, erased);
      DecodedExact(w, nroots, erased, erased + [u]);
      SpareDone(w, v, nroots, erased, u);
    }
  }

  lemma SpareGivesUp(w: seq<byte>, nroots: nat, erased: seq<nat>)
    requires |w| == 255 && OneSpare(erased, nroots) && Spare(w, erased) in Places(erased)
    ensures SpareOutcome(w, w, erased, nroots, -1)
  {
    hide Spare;
    hide Exp;
    NoZeroPlace(erased);
  }

  lemma SpareDone(w: seq<byte>, c: seq<byte>, nroots: nat, erased: seq<nat>, u: nat)
    requires |w| == 255 && OneSpare(erased, nroots) && Spare(w, erased) !in Places(erased) && IsCodeword(c, nroots)
    requires Spare(w, erased) == 0 ==> AgreeOutside(w, c, erased + [])
    requires Spare(w, erased) != 0 ==>
      u < 255 && AgreeOutside(w, c, erased + [u]) && Spare(w, erased) == Place(u)
    ensures SpareOutcome(w, c, erased, nroots, 0)
  {
    hide Spare;
    hide IsCodeword;
    hide Exp;
    NoZeroPlace(erased);
    assert erased + [] == erased;
    forall u' | 0 <= u' < 255 && u' !in erased && Spare(w, erased) == Place(u')
      ensures AgreeOutside(w, c, erased + [u'])
    {
      if u' != u && Place(u') == Place(u) {
        PlaceInjective(u', u);
      }
    }
  }
}
