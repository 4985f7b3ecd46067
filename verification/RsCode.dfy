/** The RS03 code: 255 symbols, one per layer, with the syndromes and places of the codec. */
module RsCode {
  import opened Bits
  import opened Gf256
  import opened GfOrder
  import opened Poly
  import opened Sums
  import opened RsAlgebra

  const FIRST_ROOT: nat := 112
  const PRIM_ELEM: nat := 11
  const PRIMTH: nat := 116

  /** The place of layer `l`: alpha to the PRIM_ELEM times its codeword position 254 - l. */
  function Place(l: nat): byte
    requires l < 255
  {
    Exp(M, PRIM_ELEM * (254 - l))
  }

  function Reciprocal(l: nat): byte
    requires l < 255
  {
    Exp(M, PRIM_ELEM * (l + 1))
  }

  function Places(pos: seq<nat>): (r: seq<byte>)
    requires forall k :: 0 <= k < |pos| ==> pos[k] < 255
    ensures |r| == |pos|
  {
    seq(|pos|, k requires 0 <= k < |pos| => Place(pos[k]))
  }

  function ReciprocalPlaces(pos: seq<nat>): (r: seq<byte>)
    requires forall k :: 0 <= k < |pos| ==> pos[k] < 255
    ensures |r| == |pos|
  {
    seq(|pos|, k requires 0 <= k < |pos| => Reciprocal(pos[k]))
  }

  lemma ExpSame(a: nat, b: nat)
    ensures Exp(M, a) == Exp(M, b) <==> a % 255 == b % 255
  {
    hide Exp;
    hide Log;
    ExpPeriod(M, a);
    ExpPeriod(M, b);
    LogUnique(M, a % 255);
    LogUnique(M, b % 255);
  }

  lemma ModEqual(a: nat, b: nat) returns (q: int)
    requires a % 255 == b % 255
    ensures a - b == 255 * q
  {
    q := a / 255 - b / 255;
  }

  lemma PlaceInjective(l: nat, k: nat)
    requires l < 255 && k < 255 && Place(l) == Place(k)
    ensures l == k
  {
    hide Exp;
    ExpSame(PRIM_ELEM * (254 - l), PRIM_ELEM * (254 - k));
    var q := ModEqual(PRIM_ELEM * (254 - l), PRIM_ELEM * (254 - k));
    assert k - l == 255 * (116 * q - 5 * (k - l));
  }

  lemma PlaceReciprocal(l: nat)
    requires l < 255
    ensures Mul(M, Place(l), Reciprocal(l)) == 1
  {
    hide Mul;
    PowAdd(M, Generator(M), PRIM_ELEM * (254 - l), PRIM_ELEM * (l + 1));
    ExpSame(PRIM_ELEM * 255, 0);
    PowZero(M, Generator(M));
  }

  lemma PlacesReciprocal(pos: seq<nat>)
    requires Positions(pos, 255)
    ensures Reciprocals(M, Places(pos), ReciprocalPlaces(pos))
  {
    hide Mul;
    hide Exp;
    var xs := Places(pos);
    forall k | 0 <= k < |pos|
      ensures Mul(M, xs[k], ReciprocalPlaces(pos)[k]) == 1
    {
      PlaceReciprocal(pos[k]);
    }
    forall i, j | 0 <= i < j < |pos|
      ensures xs[i] != xs[j]
    {
      if xs[i] == xs[j] { PlaceInjective(pos[i], pos[j]); }
    }
  }

  // ----- syndromes

  function SynTerm(w: seq<byte>, i: nat): int -> byte
  {
    l => if 0 <= l < 255 then Mul(M, At(w, l), Pow(M, Place(l), FIRST_ROOT + i)) else 0
  }

  function Syndrome(w: seq<byte>, i: nat): byte
  {
    Sum(SynTerm(w, i), 0, 255)
  }

  ghost predicate IsCodeword(w: seq<byte>, nroots: nat)
  {
    |w| == 255 && forall i :: 0 <= i < nroots ==> Syndrome(w, i) == 0
  }

  lemma SyndromeAdd(w: seq<byte>, v: seq<byte>, i: nat)
    requires |w| == |v|
    ensures Syndrome(AddP(w, v), i) == Add(Syndrome(w, i), Syndrome(v, i))
  {
    hide Mul;
    hide Add;
    hide Pow;
    forall l | 0 <= l < 255
      ensures SynTerm(AddP(w, v), i)(l) == Add(SynTerm(w, i)(l), SynTerm(v, i)(l))
    {
      AddZero(0);
      MulAddLeft(M, At(w, l), At(v, l), Pow(M, Place(l), FIRST_ROOT + i));
    }
    SumAdd(SynTerm(w, i), SynTerm(v, i), SynTerm(AddP(w, v), i), 0, 255);
  }

  ghost predicate AgreeOutside(w: seq<byte>, v: seq<byte>, pos: seq<nat>)
  {
    |w| == |v| && forall l :: 0 <= l < |w| && l !in pos ==> w[l] == v[l]
  }

  /** The error values at `pos`, each scaled by its place to the first root. */
  function Values(e: seq<byte>, pos: seq<nat>): (r: seq<byte>)
    requires forall k :: 0 <= k < |pos| ==> pos[k] < 255
    ensures |r| == |pos|
  {
    seq(|pos|, k requires 0 <= k < |pos| => Mul(M, At(e, pos[k]), Pow(M, Place(pos[k]), FIRST_ROOT)))
  }

  lemma SyndromeSupport(e: seq<byte>, pos: seq<nat>, i: nat)
    requires Positions(pos, 255)
    requires forall l :: 0 <= l < 255 && l !in pos ==> At(e, l) == 0
    ensures Syndrome(e, i) == Geo(M, Values(e, pos), Places(pos), i)
  {
    hide Mul;
    hide Pow;
    hide Exp;
    var f := SynTerm(e, i);
    forall l | 0 <= l < 255 && l !in pos
      ensures f(l) == 0
    {
      MulZero(M, Pow(M, Place(l), FIRST_ROOT + i));
    }
    SumSupport(f, pos, 255);
    forall k | 0 <= k < |pos|
      ensures Pick(f, pos)(k) == GeoTerm(M, Values(e, pos), Places(pos), i)(k)
    {
      ScaledTerm(e, pos[k], i);
    }
    hide SynTerm;
    SumSame(Pick(f, pos), GeoTerm(M, Values(e, pos), Places(pos), i), 0, |pos|);
  }

  lemma ScaledTerm(e: seq<byte>, l: nat, i: nat)
    requires l < 255
    ensures SynTerm(e, i)(l) == Mul(M, Mul(M, At(e, l), Pow(M, Place(l), FIRST_ROOT)), Pow(M, Place(l), i))
  {
    hide Mul;
    hide Pow;
    hide Exp;
    var x := Place(l);
    PowAdd(M, x, FIRST_ROOT, i);
    MulAssoc(M, At(e, l), Pow(M, x, FIRST_ROOT), Pow(M, x, i));
  }

  /** The syndromes of a damaged codeword are the power sums of the damage. */
  lemma SyndromeOfDamage(w: seq<byte>, c: seq<byte>, nroots: nat, pos: seq<nat>, i: nat)
    requires IsCodeword(c, nroots) && i < nroots && Positions(pos, 255) && AgreeOutside(w, c, pos)
    ensures Syndrome(w, i) == Geo(M, Values(AddP(w, c), pos), Places(pos), i)
  {
    hide Add;
    hide Syndrome;
    hide Geo;
    var e := AddP(w, c);
    SyndromeAdd(w, c, i);
    AddZero(Syndrome(w, i));
    forall l | 0 <= l < 255 && l !in pos
      ensures At(e, l) == 0
    {
      AddSelf(w[l]);
    }
    SyndromeSupport(e, pos, i);
  }

  lemma PlaceNonzero(l: nat, n: nat)
    requires l < 255
    ensures Place(l) != 0 && Pow(M, Place(l), n) != 0
  {
    hide Exp;
    ExpNonzero(M, PRIM_ELEM * (254 - l));
    PowNonzero(M, Place(l), n);
  }

  lemma ValueZero(e: seq<byte>, pos: seq<nat>, k: nat)
    requires Positions(pos, 255) && k < |pos|
    ensures Values(e, pos)[k] == 0 <==> At(e, pos[k]) == 0
  {
    hide Mul;
    hide Exp;
    PlaceNonzero(pos[k], FIRST_ROOT);
    NoZeroDivisors(M, At(e, pos[k]), Pow(M, Place(pos[k]), FIRST_ROOT));
  }

  /** The code is maximum distance separable: codewords that agree outside at most `nroots`
      positions are equal. */
  lemma CodewordUnique(w: seq<byte>, c: seq<byte>, nroots: nat, pos: seq<nat>)
    requires IsCodeword(w, nroots) && IsCodeword(c, nroots)
    requires Positions(pos, 255) && |pos| <= nroots && AgreeOutside(w, c, pos)
    ensures w == c
  {
    hide Add;
    hide Mul;
    hide Exp;
    hide Geo;
    hide Values;
    hide Syndrome;
    var e := AddP(w, c);
    forall i | 0 <= i < |pos|
      ensures Geo(M, Values(e, pos), Places(pos), i) == 0
    {
      SyndromeOfDamage(w, c, nroots, pos, i);
    }
    PlacesReciprocal(pos);
    Vandermonde(M, Values(e, pos), Places(pos), ReciprocalPlaces(pos));
    forall l | 0 <= l < 255
      ensures w[l] == c[l]
    {
      if l in pos {
        var k :| 0 <= k < |pos| && pos[k] == l;
        ValueZero(e, pos, k);
        AddCancel(w[l], c[l]);
      }
    }
  }

  // ----- every word can be completed to a codeword on any `nroots` positions

  lemma {:induction false} ConvDetermines(m: byte, c: Poly, s: seq<byte>, s': seq<byte>, i: nat)
    requires At(c, 0) == 1
    requires forall j :: 0 <= j <= i ==> Conv(m, c, s, j) == Conv(m, c, s', j)
    ensures forall j :: 0 <= j <= i ==> At(s, j) == At(s', j)
  {
    hide Mul;
    hide Add;
    if i > 0 {
      ConvDetermines(m, c, s, s', i - 1);
    }
    var f, f' := ConvTerm(m, c, s, i), ConvTerm(m, c, s', i);
    assert Conv(m, c, s, i) == Conv(m, c, s', i);
    SumFirst(f, 0, i + 1);
    SumFirst(f', 0, i + 1);
    SumSame(f, f', 1, i + 1);
    MulOne(m, At(s, i));
    MulOne(m, At(s', i));
    var t := Sum(f, 1, i + 1);
    AddCancel(At(s, i), t);
    AddCancel(At(s', i), t);
  }

  /** Any power sums can be reached on enough places. */
  lemma SolvePowerSums(m: Field, s: seq<byte>, xs: seq<byte>, zs: seq<byte>) returns (ys: seq<byte>)
    requires Reciprocals(m, xs, zs) && |s| == |xs|
    ensures |ys| == |xs| && forall i :: 0 <= i < |s| ==> Geo(m, ys, xs, i) == s[i]
  {
    hide Mul;
    hide Add;
    hide Geo;
    hide Ratio;
    hide Eval;
    hide Others;
    var n := |xs|;
    var lam, ps := Locator(m, xs), AllOthers(m, xs);
    var omega := seq(n, i requires 0 <= i < n => Conv(m, lam, s, i));
    forall k | 0 <= k < n
      ensures Eval(m, Others(m, xs, k), zs[k]) != 0
    {
      OthersRoot(m, xs, zs, k, k);
    }
    ys := seq(n, k requires 0 <= k < n => Ratio(m, Eval(m, omega, zs[k]), Eval(m, Others(m, xs, k), zs[k])));
    ReciprocalsDistinct(m, xs, zs);
    forall i, k | 0 <= i < n && 0 <= k < n && i != k
      ensures Eval(m, ps[k], zs[i]) == 0
    {
      OthersRoot(m, xs, zs, k, i);
    }
    Interpolation(m, omega, zs, ys, ps);
    var s' := seq(n, i requires 0 <= i < n => Geo(m, ys, xs, i));
    if n > 0 {
      SameConvolution(m, s, s', ys, xs, omega);
      LocatorConstant(m, xs);
      ConvDetermines(m, lam, s, s', n - 1);
    }
    forall i | 0 <= i < n
      ensures Geo(m, ys, xs, i) == s[i]
    {
      assert At(s, i) == At(s', i);
    }
  }

  lemma SameConvolution(m: Field, s: seq<byte>, s': seq<byte>, ys: seq<byte>, xs: seq<byte>, omega: Poly)
    requires |s| == |s'| == |xs| == |ys| == |omega|
    requires forall i :: 0 <= i < |xs| ==> omega[i] == Conv(m, Locator(m, xs), s, i)
    requires forall i :: 0 <= i < |xs| ==> s'[i] == Geo(m, ys, xs, i)
    requires Comb(m, ys, AllOthers(m, xs), |xs|) == omega
    ensures forall j :: 0 <= j < |xs| ==> Conv(m, Locator(m, xs), s, j) == Conv(m, Locator(m, xs), s', j)
  {
    hide Geo;
    hide Conv;
    hide Comb;
    forall j | 0 <= j < |xs|
      ensures Conv(m, Locator(m, xs), s, j) == Conv(m, Locator(m, xs), s', j)
    {
      KeyEquation(m, s', ys, xs, j);
    }
  }

  /** Parity exists: any word agrees, outside any `nroots` positions, with some codeword. */
  lemma ParityExists(w: seq<byte>, nroots: nat, pos: seq<nat>) returns (c: seq<byte>)
    requires |w| == 255 && Positions(pos, 255) && |pos| == nroots
    ensures IsCodeword(c, nroots) && AgreeOutside(w, c, pos)
  {
    hide Add;
    hide Mul;
    hide Exp;
    hide Geo;
    hide Values;
    hide Syndrome;
    hide Ratio;
    var xs := Places(pos);
    PlacesReciprocal(pos);
    var s := seq(nroots, i requires 0 <= i < nroots => Syndrome(w, i));
    var ys := SolvePowerSums(M, s, xs, ReciprocalPlaces(pos));
    var e := ErrorWord(pos, ys);
    c := AddP(w, e);
    forall i | 0 <= i < nroots
      ensures Syndrome(c, i) == 0
    {
      SyndromeAdd(w, e, i);
      SyndromeSupport(e, pos, i);
      assert Values(e, pos) == ys;
      assert Geo(M, ys, xs, i) == s[i];
      AddSelf(Syndrome(w, i));
    }
    forall l | 0 <= l < 255 && l !in pos
      ensures c[l] == w[l]
    {
      AddZero(w[l]);
    }
  }

  lemma CompletionExists(w: seq<byte>, nroots: nat, pos: seq<nat>)
    requires |w| == 255 && Positions(pos, 255) && |pos| == nroots
    ensures exists c :: IsCodeword(c, nroots) && AgreeOutside(w, c, pos)
  {
    var c := ParityExists(w, nroots, pos);
  }

  /** A codeword that agrees with a word outside as many positions as there are roots. */
  ghost function Completion(w: seq<byte>, nroots: nat, pos: seq<nat>): (c: seq<byte>)
    requires |w| == 255 && Positions(pos, 255) && |pos| == nroots
    ensures IsCodeword(c, nroots) && AgreeOutside(w, c, pos)
  {
    CompletionExists(w, nroots, pos);
    var c :| IsCodeword(c, nroots) && AgreeOutside(w, c, pos);
    c
  }

  /** The word whose scaled values at `pos` are `ys`. */
  lemma ErrorWord(pos: seq<nat>, ys: seq<byte>) returns (e: seq<byte>)
    requires Positions(pos, 255) && |ys| == |pos|
    ensures |e| == 255 && Values(e, pos) == ys
    ensures forall l :: 0 <= l < 255 && l !in pos ==> e[l] == 0
  {
    hide Mul;
    hide Exp;
    hide Ratio;
    e := seq(255, _ => 0);
    var k := 0;
    while k < |pos|
      invariant 0 <= k <= |pos| && |e| == 255
      invariant forall l :: 0 <= l < 255 && l !in pos ==> e[l] == 0
      invariant forall j :: 0 <= j < k ==> Mul(M, e[pos[j]], Pow(M, Place(pos[j]), FIRST_ROOT)) == ys[j]
    {
      PlaceNonzero(pos[k], FIRST_ROOT);
      e := e[pos[k] := Ratio(M, ys[k], Pow(M, Place(pos[k]), FIRST_ROOT))];
      k := k + 1;
    }
  }

  // ----- codewords differ in more places than there are roots

  /** Different codewords that agree outside nroots places and some others differ in one of the nroots places,
      as long as the others are at most nroots. */
  lemma WrongInside(c: seq<byte>, d: seq<byte>, nroots: nat, inside: seq<nat>, others: seq<nat>)
    requires IsCodeword(c, nroots) && IsCodeword(d, nroots) && c != d
    requires Positions(others, 255) && |others| <= nroots && AgreeOutside(c, d, inside + others)
    ensures exists k :: 0 <= k < |inside| && inside[k] < 255 && c[inside[k]] != d[inside[k]]
  {
    hide Syndrome;
    if forall k :: 0 <= k < |inside| && inside[k] < 255 ==> c[inside[k]] == d[inside[k]] {
      forall l | 0 <= l < 255 && l !in others
        ensures c[l] == d[l]
      {
        if l in inside {
          var k :| 0 <= k < |inside| && inside[k] == l;
        } else {
          assert l !in inside + others;
        }
      }
      CodewordUnique(c, d, nroots, others);
      assert false;
    }
  }

  /** Codewords that differ in one place outside nroots others differ in all of those. */
  lemma WrongEverywhere(c: seq<byte>, d: seq<byte>, nroots: nat, inside: seq<nat>, l: nat, k: nat)
    requires IsCodeword(c, nroots) && IsCodeword(d, nroots)
    requires Positions(inside, 255) && |inside| == nroots && k < nroots && l < 255 && l !in inside && c[l] != d[l]
    requires AgreeOutside(c, d, inside + [l])
    ensures c[inside[k]] != d[inside[k]]
  {
    hide Syndrome;
    if c[inside[k]] == d[inside[k]] {
      var p := inside[k := l];
      assert p[k] == l && forall j :: 0 <= j < nroots && j != k ==> p[j] == inside[j];
      forall x | 0 <= x < 255 && x !in p
        ensures c[x] == d[x]
      {
        assert x in inside ==> x == inside[k];
        assert x !in inside ==> x !in inside + [l];
      }
      CodewordUnique(c, d, nroots, p);
      assert false;
    }
  }
}
