/** The decoder as a whole: it computes what the register of a word says, and so restores every codeword whose
    erasures and errors are within the reach of the code. */
module RsCorrect {
  import opened Options
  import opened Bits
  import opened Gf256
  import opened GfOrder
  import opened GfTables
  import opened Poly
  import opened Sums
  import opened RsAlgebra
  import opened RsCode
  import opened BerlekampMassey
  import opened RsDecode
  import opened RsRegister

  // ----- Forney's formula is exact

  lemma ForneyAlgebra(m: Field, e: byte, x: byte, z: byte, q: byte, y: byte, num2: byte, v: byte)
    requires Mul(m, x, z) == 1 && q != 0
    requires y == Mul(m, e, Pow(m, x, FIRST_ROOT)) && num2 == Pow(m, z, FIRST_ROOT - 1)
    requires Mul(m, v, Mul(m, x, q)) == Mul(m, Mul(m, y, q), num2)
    ensures v == e && Mul(m, x, q) != 0
  {
    hide Mul;
    hide Pow;
    var p := Pow(m, x, FIRST_ROOT - 1);
    PowNext(m, x, FIRST_ROOT - 1);
    PowMul(m, x, z, FIRST_ROOT - 1);
    PowOne(m, FIRST_ROOT - 1);
    assert Mul(m, p, num2) == 1;
    // (e (x p)) q num2 == e (x q) (p num2)
    MulAssoc(m, e, x, p);
    MulSwap(m, Mul(m, e, x), p, q, num2);
    MulAssoc(m, Mul(m, Mul(m, e, x), p), q, num2);
    MulOne(m, Mul(m, Mul(m, e, x), q));
    MulAssoc(m, e, x, q);
    MulZero(m, z);
    NoZeroDivisors(m, x, q);
    var d := Mul(m, x, q);
    MulComm(m, v, d);
    MulComm(m, e, d);
    MulCancel(m, d, v, e);
  }

  /** The evaluator the decoder computes is the combination of the partial locators. */
  lemma EvaluatorIs(ys: seq<byte>, xs: seq<byte>, s: seq<byte>, lam: Poly, ov: Poly)
    requires |ys| == |xs| <= |s| && forall j :: 0 <= j < |xs| ==> s[j] == Geo(M, ys, xs, j)
    requires Padded(lam, Locator(M, xs), |s| + 1)
    requires |ov| == |xs| && forall i :: 0 <= i < |ov| ==> ov[i] == Conv(M, lam, s, i)
    ensures ov == Comb(M, ys, AllOthers(M, xs), |xs|)
  {
    hide Mul;
    hide Add;
    hide Geo;
    hide Comb;
    hide Locator;
    var full := Locator(M, xs);
    forall i | 0 <= i < |ov|
      ensures ov[i] == Comb(M, ys, AllOthers(M, xs), |xs|)[i]
    {
      ConvPadded(lam, full, s, i);
      KeyEquation(M, s, ys, xs, i);
    }
  }

  lemma ConvPadded(lam: Poly, full: Poly, s: seq<byte>, i: nat)
    requires i < |lam| && forall k :: 0 <= k < |lam| ==> lam[k] == At(full, k)
    ensures Conv(M, lam, s, i) == Conv(M, full, s, i)
  {
    hide Mul;
    hide Add;
    SumSame(ConvTerm(M, lam, s, i), ConvTerm(M, full, s, i), 0, i + 1);
  }

  lemma DenominatorIs(xs: seq<byte>, zs: seq<byte>, nroots: nat, lam: Poly, k: nat, den: byte)
    requires Reciprocals(M, xs, zs) && k < |xs| <= nroots && Padded(lam, Locator(M, xs), nroots + 1)
    requires den == Sum(OddTerm(M, lam, zs[k]), 0, (if |xs| < nroots - 1 then |xs| else nroots - 1) / 2 + 1)
    ensures den == Mul(M, xs[k], Eval(M, Others(M, xs, k), zs[k]))
  {
    hide Mul;
    hide Add;
    hide Eval;
    hide OddTerm;
    hide Locator;
    hide MulLin;
    var n := (if |xs| < nroots - 1 then |xs| else nroots - 1) / 2 + 1;
    var q := Others(M, xs, k);
    LocatorSplit(M, xs, k);
    OddSum(M, lam, q, xs[k], zs[k], n);
    EvalSum(M, q, zs[k], 2 * n);
  }

  /** What the decoder holds when its locator is that of the layers `p`, and the word `c` it works towards. */
  ghost predicate Located(w: seq<byte>, c: seq<byte>, nroots: nat, p: seq<nat>, lam: Poly, ov: Poly)
  {
    && |w| == 255 && AgreeOutside(w, c, p) && IsCodeword(c, |p|)
    && |lam| == nroots + 1 && Splits(lam, p)
    && ov == Comb(M, Values(AddP(w, c), p), AllOthers(M, Places(p)), |p|)
  }

  /** At a layer of the locator the denominator does not vanish, and the quotient is the difference of the word
      and the one to come. */
  lemma ForneyExact(w: seq<byte>, c: seq<byte>, nroots: nat, p: seq<nat>, lam: Poly, ov: Poly,
                    root: nat, num1: byte, num2: byte, den: byte, v: byte)
    requires Located(w, c, nroots, p, lam, ov) && root > 0 && LayerOf(root) in p
    requires num1 == Eval(M, ov, Exp(M, root)) && num2 == Exp(M, root * (FIRST_ROOT - 1))
    requires var n := |p|;
      den == Sum(OddTerm(M, lam, Exp(M, root)), 0, (if n < nroots - 1 then n else nroots - 1) / 2 + 1)
    requires den != 0 && num1 != 0 ==> Mul(M, v, den) == Mul(M, num1, num2)
    ensures den != 0
    ensures num1 != 0 ==> v == Add(w[LayerOf(root)], c[LayerOf(root)])
    ensures num1 == 0 ==> w[LayerOf(root)] == c[LayerOf(root)]
  {
    hide Mul;
    hide Add;
    hide Eval;
    hide Pow;
    hide OddTerm;
    hide Locator;
    hide Comb;
    hide Values;
    hide Sum;
    hide IsCodeword;
    hide LayerOf;
    hide Others;
    hide AllOthers;
    hide Padded;
    var l, xs, zs, ys := LayerOf(root), Places(p), ReciprocalPlaces(p), Values(AddP(w, c), p);
    var k :| 0 <= k < |p| && p[k] == l;
    LayerReciprocal(root);
    PlacesReciprocal(p);
    var z := zs[k];
    assert z == Exp(M, root);
    var q := Eval(M, Others(M, xs, k), z);
    DenominatorIs(xs, zs, nroots, lam, k, den);
    EvaluatorAt(M, ys, xs, zs, k);
    OthersRoot(M, xs, zs, k, k);
    PowPow(M, Generator(M), root, FIRST_ROOT - 1, root * (FIRST_ROOT - 1));
    var e := Add(w[l], c[l]);
    ValueAt(AddP(w, c), p, k);
    AddCancel(w[l], c[l]);
    ReciprocalsDistinct(M, xs, zs);
    NoZeroDivisors(M, xs[k], q);
    NoZeroDivisors(M, ys[k], q);
    if num1 == 0 {
      ValueZero(AddP(w, c), p, k);
    } else {
      ForneyAlgebra(M, e, xs[k], z, q, ys[k], num2, v);
    }
  }

  lemma ValueAt(e: seq<byte>, pos: seq<nat>, k: nat)
    requires Positions(pos, 255) && k < |pos|
    ensures Values(e, pos)[k] == Mul(M, At(e, pos[k]), Pow(M, Places(pos)[k], FIRST_ROOT))
  {
    hide Pow;
    hide Mul;
  }

  // ----- the search finds exactly the layers of the locator

  lemma SearchExact(p: seq<nat>, nroots: nat, lam: Poly, roots: seq<nat>, locs: seq<nat>)
    requires Positions(p, 255) && |p| <= nroots && Padded(lam, Locator(M, Places(p)), nroots + 1)
    requires Found(lam, roots, locs, 255)
    requires |roots| == |p| || forall i :: 1 <= i <= 255 && Eval(M, lam, Exp(M, i)) == 0 ==> i in roots
    ensures |roots| == |p| && Elements(locs) == Elements(p)
    ensures forall i, j :: 0 <= i < j < |locs| ==> locs[i] != locs[j]
  {
    hide Mul;
    hide Eval;
    hide Locator;
    hide Exp;
    forall i, j | 0 <= i < j < |locs|
      ensures locs[i] != locs[j]
    {
      LayerInjective(roots[i], roots[j]);
    }
    forall i | 1 <= i <= 255
      ensures Eval(M, lam, Exp(M, i)) == 0 <==> LayerOf(i) in p
    {
      RootIsLayer(p, nroots, lam, i);
    }
    ElementsCount(locs);
    ElementsCount(p);
    assert Elements(locs) <= Elements(p);
    if forall i :: 1 <= i <= 255 && Eval(M, lam, Exp(M, i)) == 0 ==> i in roots {
      forall l | l in p
        ensures l in locs
      {
        var i := LayerVisited(l);
        assert Eval(M, lam, Exp(M, i)) == 0;
        var k :| 0 <= k < |roots| && roots[k] == i;
        assert locs[k] == l;
      }
      assert Elements(p) == Elements(locs);
    } else {
      SubsetFull(Elements(locs), Elements(p));
    }
  }

  /** As many roots as the degree: the locator is that of the layers found. */
  lemma FoundAll(lam: Poly, deg: nat, roots: seq<nat>, locs: seq<nat>)
    requires deg < |lam| && DegreeAtMost(lam, deg) && lam[0] == 1 && Found(lam, roots, locs, 255) && |roots| == deg
    ensures Splits(lam, locs)
  {
    hide Mul;
    hide Eval;
    hide Exp;
    hide Locator;
    hide LayerOf;
    FoundDistinct(lam, roots, locs);
    forall k | 0 <= k < |locs|
      ensures locs[k] < 255
    {
      LayerBound(roots[k]);
    }
    var xs, zs := Places(locs), ReciprocalPlaces(locs);
    PlacesReciprocal(locs);
    var top, full := lam[..deg + 1], Locator(M, xs);
    forall k | 0 <= k < deg
      ensures Eval(M, top, zs[k]) == 0 == Eval(M, full, zs[k])
    {
      LayerReciprocal(roots[k]);
      EvalTruncate(M, lam, deg + 1, zs[k]);
      LocatorRoot(M, xs, xs[k], zs[k]);
    }
    LocatorConstant(M, xs);
    SameRoots(M, top, full, xs, zs);
  }

  lemma FoundDistinct(lam: Poly, roots: seq<nat>, locs: seq<nat>)
    requires Found(lam, roots, locs, 255)
    ensures forall i, j :: 0 <= i < j < |locs| ==> locs[i] != locs[j]
  {
    hide Eval;
    forall i, j | 0 <= i < j < |locs|
      ensures locs[i] != locs[j]
    {
      LayerInjective(roots[i], roots[j]);
    }
  }

  lemma LayerBound(i: nat)
    requires i > 0
    ensures LayerOf(i) < 255
  {
  }

  /** The degree is the number of roots found exactly for locators. */
  lemma SearchDecides(lam: Poly, deg: nat, roots: seq<nat>, locs: seq<nat>)
    requires deg < |lam| && DegreeAtMost(lam, deg) && (deg == 0 || lam[deg] != 0) && lam[0] == 1
    requires Found(lam, roots, locs, 255)
    requires |roots| == deg || forall i :: 1 <= i <= 255 && Eval(M, lam, Exp(M, i)) == 0 ==> i in roots
    ensures |roots| == deg <==> IsLocator(lam)
    ensures |roots| == deg ==> Splits(lam, locs)
  {
    hide Eval;
    hide Exp;
    hide Found;
    hide Padded;
    if |roots| == deg {
      FoundAll(lam, deg, roots, locs);
    } else if IsLocator(lam) {
      var p := LayersOf(lam);
      SplitsDegree(lam, p);
      assert deg == |p|;
      SearchExact(p, |lam| - 1, lam, roots, locs);
    }
  }

  // ----- the method

  method Degree(t: Tables, li: seq<nat>, ghost lam: Poly) returns (deg: nat)
    requires IsTables(t) && IndexForm(t, lam, li) && |lam| > 0
    ensures deg < |lam| && DegreeAtMost(lam, deg) && (deg == 0 || lam[deg] != 0)
  {
    hide Log;
    hide Exp;
    deg := 0;
    for i := 0 to |li|
      invariant deg < |lam| && (deg == 0 || lam[deg] != 0)
      invariant forall j :: deg < j < i ==> lam[j] == 0
    {
      IndexBound(t, lam[i]);
      if li[i] != 255 {
        deg := i;
      }
    }
  }

  method Quotient2(t: Tables, num1: byte, num2: byte, den: byte) returns (v: byte)
    requires IsTables(t) && num1 != 0 && num2 != 0 && den != 0
    ensures Mul(M, v, den) == Mul(M, num1, num2)
  {
    hide Mul;
    hide Log;
    hide IsTables;
    TablesSize(t);
    IndexBound(t, num1);
    IndexBound(t, num2);
    IndexBound(t, den);
    var a, b, d := t.indexOf[num1], t.indexOf[num2], t.indexOf[den];
    var e := a + b + 255 - d;
    v := t.alphaTo[e % 255];
    AlphaAt(t, e);
    PowAdd(M, Generator(M), e, d);
    PowAdd(M, Generator(M), a, b);
    SameResidue(e + d, a + b, 1);
    ExpSame(e + d, a + b);
  }

  /** Applies a correction at every located layer. */
  method ApplyForney(t: Tables, sym: array<byte>, nroots: nat, deg: nat, li: seq<nat>, omega: seq<nat>,
                     roots: seq<nat>, locs: seq<nat>, ghost lam: Poly, ghost ov: Poly, ghost c: seq<byte>)
    returns (rc: int)
    requires IsTables(t) && sym.Length == 255 && IndexForm(t, lam, li) && IndexForm(t, ov, omega)
    requires 0 < nroots == |lam| - 1 && Found(lam, roots, locs, 255)
    requires forall i, j :: 0 <= i < j < |locs| ==> locs[i] != locs[j]
    modifies sym
    ensures Located(old(sym[..]), c, nroots, locs, lam, ov) && deg == |locs| ==> rc == 0 && sym[..] == c
  {
    hide Mul;
    hide Add;
    hide Exp;
    hide Log;
    hide Eval;
    hide Located;
    hide Sum;
    hide LayerOf;
    ghost var w := sym[..];
    ghost var good := Located(w, c, nroots, locs, lam, ov) && deg == |locs|;
    if good { LocatedLength(w, c, nroots, locs, lam, ov); }
    var j := |roots|;
    while j > 0
      invariant 0 <= j <= |roots|
      invariant forall l :: 0 <= l < 255 && l !in locs[j..] ==> sym[l] == w[l]
      invariant good ==> |c| == 255 && forall l :: 0 <= l < 255 && l in locs[j..] ==> sym[l] == c[l]
    {
      j := j - 1;
      var root, location := roots[j], locs[j];
      assert locs[j..] == [location] + locs[j + 1..];
      LayerBound(root);
      var num1 := Numerator(t, omega, root, ov);
      var num2 := t.alphaTo[(root * (FIRST_ROOT - 1) + 255) % 255];
      AlphaAt(t, root * (FIRST_ROOT - 1) + 255);
      ExpNonzero(M, root * (FIRST_ROOT - 1) + 255);
      ExpSame(root * (FIRST_ROOT - 1) + 255, root * (FIRST_ROOT - 1));
      var den := Denominator(t, li, deg, nroots, root, lam);
      if num1 != 0 {
        if den == 0 {
          if good {
            ForneyExact(w, c, nroots, locs, lam, ov, root, num1, num2, den, 0);
          }
          return -1;
        }
        var v := Quotient2(t, num1, num2, den);
        if good {
          ForneyExact(w, c, nroots, locs, lam, ov, root, num1, num2, den, v);
          AddCancel(c[location], w[location]);
          LocatedLength(w, c, nroots, locs, lam, ov);
        }
        sym[location] := Add(sym[location], v);
      } else if good {
        ForneyExact(w, c, nroots, locs, lam, ov, root, num1, num2, den, 0);
      }
    }
    assert locs[0..] == locs;
    if good {
      LocatedLength(w, c, nroots, locs, lam, ov);
    }
    return 0;
  }

  lemma LocatedLength(w: seq<byte>, c: seq<byte>, nroots: nat, p: seq<nat>, lam: Poly, ov: Poly)
    requires Located(w, c, nroots, p, lam, ov)
    ensures |w| == |c| == 255 && forall l :: 0 <= l < 255 && l !in p ==> w[l] == c[l]
  {
  }

  lemma LocatedNow(w: seq<byte>, nroots: nat, erased: seq<nat>, s: seq<byte>, lam: Poly, p: seq<nat>, ov: Poly)
    requires |w| == 255 && Positions(erased, 255) && |erased| <= nroots && s == SyndromesOf(w, nroots)
    requires lam == RegisterOf(w, nroots, erased).lam && Splits(lam, p)
    requires |ov| == |p| && forall i :: 0 <= i < |ov| ==> ov[i] == Conv(M, lam, s, i)
    ensures Decoded(w, nroots, erased).Some?
    ensures Located(w, Decoded(w, nroots, erased).value, nroots, p, lam, ov)
  {
    hide Mul;
    hide Add;
    hide Exp;
    hide Locator;
    hide Values;
    hide Syndrome;
    hide Comb;
    hide Conv;
    hide RegisterOf;
    hide Decoded;
    DecodedExact(w, nroots, erased, p);
    var c := Decoded(w, nroots, erased).value;
    var ys, xs := Values(AddP(w, c), p), Places(p);
    forall j | 0 <= j < |p|
      ensures s[j] == Geo(M, ys, xs, j)
    {
      SyndromeOfDamage(w, c, |p|, p, j);
    }
    EvaluatorIs(ys, xs, s, lam, ov);
  }

  // ----- the decoder

  /** The locator the iteration ends with, and its degree. */
  method BuildLocator(t: Tables, erased: seq<nat>, nroots: nat, si: seq<nat>, ghost w: seq<byte>)
    returns (li: seq<nat>, deg: nat, ghost lam: Poly)
    requires IsTables(t) && Positions(erased, 255) && 0 < |erased| <= nroots
    requires IndexForm(t, SyndromesOf(w, nroots), si)
    ensures lam == RegisterOf(w, nroots, erased).lam && lam[0] == 1 && IndexForm(t, lam, li)
    ensures deg <= nroots && DegreeAtMost(lam, deg) && (deg == 0 || lam[deg] != 0)
  {
    hide Exp;
    hide Log;
    hide Syndrome;
    hide Locator;
    hide Run;
    hide Conv;
    hide Auxiliary;
    hide VanishesOn;
    var lambda := ErasureLocator(t, erased, nroots);
    assert lambda[..] == ErasureStart(erased, nroots);
    ExtendLocator(t, lambda, |erased|, si, SyndromesOf(w, nroots));
    RegisterRuns(w, nroots, erased);
    lam := lambda[..];
    li := ToIndex(t, lambda[..]);
    deg := Degree(t, li, lam);
  }

  /** A word without syndromes is taken for itself. */
  lemma CleanWord(w: seq<byte>, nroots: nat, erased: seq<nat>)
    requires |w| == 255 && Positions(erased, 255) && 0 < |erased| <= nroots && IsCodeword(w, nroots)
    ensures Decoded(w, nroots, erased) == Some(w)
  {
    hide IsCodeword;
    hide Decoded;
    hide RegisterOf;
    ErasuresCorrectable(w, w, nroots, erased);
    WithinReach(w, w, nroots, erased, []);
  }

  /** Decodes one codeword in place.  Nothing erased, or more erased than the code can bear, leaves the symbols
      alone; otherwise the symbols become what the register takes them for, or stay if it takes them for
      nothing.  Damage within reach is undone exactly.  A result of 0 means a codeword exactly when the
      locator's degree is the register length. */
  method DecodeCodeword(t: Tables, sym: array<byte>, erased: seq<nat>, nroots: nat) returns (rc: int)
    requires IsTables(t) && sym.Length == 255 && Positions(erased, 255)
    modifies sym
    ensures |erased| == 0 ==> rc == 0 && sym[..] == old(sym[..])
    ensures |erased| > nroots ==> rc == -1 && sym[..] == old(sym[..])
    ensures 0 < |erased| <= nroots ==> Verdict(old(sym[..]), sym[..], nroots, erased, rc)
    ensures forall c, errors :: Correctable(old(sym[..]), c, nroots, erased, errors) ==> rc == 0 && sym[..] == c
    ensures 0 < |erased| <= nroots && rc == 0 ==>
      var q := RegisterOf(old(sym[..]), nroots, erased);
      0 < q.el <= nroots && (IsCodeword(sym[..], nroots) <==> q.lam[q.el] != 0)
  {
    hide Mul;
    hide Add;
    hide Exp;
    hide Log;
    hide Syndrome;
    hide Correctable;
    hide Found;
    hide Conv;
    hide IsCodeword;
    hide Located;
    hide Decoded;
    hide RegisterOf;
    hide Splits;
    ghost var w := sym[..];
    if |erased| == 0 {
      NotCorrectable(w, nroots, erased);
      return 0;
    }
    if |erased| > nroots {
      NotCorrectable(w, nroots, erased);
      return -1;
    }
    var syn := Syndromes(t, sym, nroots);
    var synError := false;
    for i := 0 to nroots
      invariant synError <==> exists k :: 0 <= k < i && syn[k] != 0
    {
      synError := synError || syn[i] != 0;
    }
    var si := ToIndex(t, syn);
    assert syn == SyndromesOf(w, nroots);
    if !synError {
      assert IsCodeword(w, nroots) by { NoSyndromes(w, nroots); }
      CleanWord(w, nroots, erased);
      VerdictMeans(w, w, nroots, erased, 0);
      return 0;
    }
    var li, deg, lam := BuildLocator(t, erased, nroots, si, w);
    var roots, locs := ChienSearch(t, li, deg, lam);
    SearchDecides(lam, deg, roots, locs);
    if deg != |roots| {
      NotLocator(w, nroots, erased);
      VerdictMeans(w, w, nroots, erased, -1);
      return -1;
    }
    FoundDistinct(lam, roots, locs);
    FoundLength(lam, roots, locs);
    var omega, ov := Evaluator(t, si, li, deg, syn, lam);
    LocatedNow(w, nroots, erased, syn, lam, locs, ov);
    rc := ApplyForney(t, sym, nroots, deg, li, omega, roots, locs, lam, ov, Decoded(w, nroots, erased).value);
    VerdictMeans(w, sym[..], nroots, erased, 0);
  }

  /** The outcome of decoding `w`: the symbols `v` and the result. */
  ghost predicate Verdict(w: seq<byte>, v: seq<byte>, nroots: nat, erased: seq<nat>, rc: int)
    requires |w| == 255 && Positions(erased, 255) && |erased| <= nroots
  {
    var d := Decoded(w, nroots, erased);
    if d.Some? then rc == 0 && v == d.value else rc == -1 && v == w
  }

  lemma NotCorrectable(w: seq<byte>, nroots: nat, erased: seq<nat>)
    requires |erased| == 0 || |erased| > nroots
    ensures forall c, errors :: !Correctable(w, c, nroots, erased, errors)
  {
  }

  lemma NoSyndromes(w: seq<byte>, nroots: nat)
    requires |w| == 255 && forall i :: 0 <= i < nroots ==> SyndromesOf(w, nroots)[i] == 0
    ensures IsCodeword(w, nroots)
  {
    hide Syndrome;
    forall i | 0 <= i < nroots
      ensures Syndrome(w, i) == 0
    {
      assert SyndromesOf(w, nroots)[i] == 0;
    }
  }

  lemma NotLocator(w: seq<byte>, nroots: nat, erased: seq<nat>)
    requires |w| == 255 && Positions(erased, 255) && |erased| <= nroots && !IsLocator(RegisterOf(w, nroots, erased).lam)
    ensures Decoded(w, nroots, erased).None?
  {
  }

  lemma FoundLength(lam: Poly, roots: seq<nat>, locs: seq<nat>)
    requires Found(lam, roots, locs, 255)
    ensures |roots| == |locs|
  {
  }

  lemma VerdictMeans(w: seq<byte>, v: seq<byte>, nroots: nat, erased: seq<nat>, rc: int)
    requires |w| == 255 && Positions(erased, 255) && 0 < |erased| <= nroots && Verdict(w, v, nroots, erased, rc)
    ensures forall c, errors :: Correctable(w, c, nroots, erased, errors) ==> rc == 0 && v == c
    ensures var q := RegisterOf(w, nroots, erased);
      rc == 0 ==> 0 < q.el <= nroots && (IsCodeword(v, nroots) <==> q.lam[q.el] != 0)
  {
    hide Correctable;
    hide Decoded;
    hide RegisterOf;
    hide IsCodeword;
    forall c, errors | Correctable(w, c, nroots, erased, errors)
      ensures rc == 0 && v == c
    {
      WithinReach(w, c, nroots, erased, errors);
    }
    if rc == 0 {
      DecodedCodeword(w, nroots, erased);
    }
  }
}
