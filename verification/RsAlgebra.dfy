/** The algebra behind Reed-Solomon decoding: power sums, locator polynomials, convolution with
    the syndromes, and the key equation that ties them together. */
module RsAlgebra {
  import opened Bits
  import opened Gf256
  import opened GfOrder
  import opened Poly
  import opened Sums

  // ----- evaluation as a sum of terms

  function EvalTerm(m: byte, c: Poly, z: byte): int -> byte
  {
    i => if i < 0 then 0 else Mul(m, At(c, i), Pow(m, z, i))
  }

  lemma {:induction false} EvalSum(m: byte, c: Poly, z: byte, k: nat)
    requires |c| <= k
    ensures Sum(EvalTerm(m, c, z), 0, k) == Eval(m, c, z)
    decreases k
  {
    hide Mul;
    hide Add;
    var f := EvalTerm(m, c, z);
    if |c| == 0 {
      forall i | 0 <= i < k
        ensures f(i) == 0
      {
        MulZero(m, Pow(m, z, i));
      }
      SumZero(f, 0, k);
    } else {
      var t := c[1..];
      EvalSum(m, t, z, k - 1);
      EvalShift(m, c, z, k - 1);
      SumFirst(f, 0, k);
      assert f(0) == Mul(m, c[0], Pow(m, z, 0));
      MulOne(m, c[0]);
    }
  }

  lemma {:induction false} EvalShift(m: byte, c: Poly, z: byte, k: nat)
    requires |c| > 0
    ensures Sum(EvalTerm(m, c, z), 1, k + 1) == Mul(m, z, Sum(EvalTerm(m, c[1..], z), 0, k))
    decreases k
  {
    hide Mul;
    hide Add;
    MulZero(m, z);
    if k > 0 {
      EvalShift(m, c, z, k - 1);
      var t := c[1..];
      var f, g := EvalTerm(m, c, z), EvalTerm(m, t, z);
      MulAddRight(m, z, Sum(g, 0, k - 1), g(k - 1));
      assert At(c, k) == At(t, k - 1);
      MulTurn(m, At(c, k), z, Pow(m, z, k - 1));
      assert f(k) == Mul(m, z, g(k - 1));
    }
  }

  // ----- power sums

  function GeoTerm(m: byte, ys: seq<byte>, xs: seq<byte>, i: nat): int -> byte
  {
    k => if 0 <= k < |xs| then Mul(m, At(ys, k), Pow(m, xs[k], i)) else 0
  }

  /** The power sum of the values `ys` at the places `xs`. */
  function Geo(m: byte, ys: seq<byte>, xs: seq<byte>, i: nat): byte
  {
    Sum(GeoTerm(m, ys, xs, i), 0, |xs|)
  }

  // ----- convolution

  function ConvTerm(m: byte, c: Poly, s: seq<byte>, i: int): int -> byte
  {
    j => Mul(m, At(c, j), At(s, i - j))
  }

  /** Coefficient `i` of the product of c(x) with the series `s`. */
  function Conv(m: byte, c: Poly, s: seq<byte>, i: int): byte
  {
    Sum(ConvTerm(m, c, s, i), 0, i + 1)
  }

  /** The convolution of `c` with the geometric series of `x`, by Horner's rule. */
  function Horner(m: byte, c: Poly, x: byte, i: nat): byte
  {
    if i == 0 then At(c, 0) else Add(Mul(m, x, Horner(m, c, x, i - 1)), At(c, i))
  }

  function HornerTerm(m: byte, ys: seq<byte>, xs: seq<byte>, c: Poly, i: nat): int -> byte
  {
    k => if 0 <= k < |xs| then Mul(m, At(ys, k), Horner(m, c, xs[k], i)) else 0
  }

  function Grid(m: byte, ys: seq<byte>, xs: seq<byte>, c: Poly, i: nat): (int, int) -> byte
  {
    (j, k) => if 0 <= j <= i && 0 <= k < |xs| then Mul(m, At(c, j), Mul(m, At(ys, k), Pow(m, xs[k], i - j))) else 0
  }

  lemma GridColumn(m: byte, ys: seq<byte>, xs: seq<byte>, c: Poly, i: nat, k: nat)
    requires k < |xs|
    ensures Sum(Column(Grid(m, ys, xs, c, i), k), 0, i + 1) == Mul(m, At(ys, k), Horner(m, c, xs[k], i))
  {
    hide Mul;
    hide Add;
    hide Pow;
    GridColumnTo(m, ys, xs, c, i, k, i);
    PowZero(m, xs[k]);
    MulOne(m, Horner(m, c, xs[k], i));
  }

  lemma PowZero(m: byte, x: byte)
    ensures Pow(m, x, 0) == 1
  {
  }

  lemma {:induction false} GridColumnTo(m: byte, ys: seq<byte>, xs: seq<byte>, c: Poly, i: nat, k: nat, j: nat)
    requires k < |xs| && j <= i
    ensures Sum(Column(Grid(m, ys, xs, c, i), k), 0, j + 1)
      == Mul(m, At(ys, k), Mul(m, Pow(m, xs[k], i - j), Horner(m, c, xs[k], j)))
    decreases j
  {
    hide Mul;
    hide Add;
    var f := Column(Grid(m, ys, xs, c, i), k);
    var x, y, p := xs[k], At(ys, k), Pow(m, xs[k], i - j);
    assert f(j) == Mul(m, At(c, j), Mul(m, y, p));
    MulTurn(m, At(c, j), y, p);
    MulComm(m, At(c, j), p);
    assert Sum(f, 0, j + 1) == Add(Sum(f, 0, j), f(j));
    if j == 0 {
      AddZero(f(0));
    } else {
      GridColumnTo(m, ys, xs, c, i, k, j - 1);
      var h := Horner(m, c, x, j - 1);
      assert Pow(m, x, i - j + 1) == Mul(m, x, p);
      MulComm(m, x, p);
      MulAssoc(m, p, x, h);
      MulAddRight(m, p, Mul(m, x, h), At(c, j));
      MulAddRight(m, y, Mul(m, p, Mul(m, x, h)), Mul(m, p, At(c, j)));
    }
  }

  lemma GridRow(m: byte, ys: seq<byte>, xs: seq<byte>, c: Poly, s: seq<byte>, i: nat, j: nat)
    requires j <= i && At(s, i - j) == Geo(m, ys, xs, i - j)
    ensures Sum(Row(Grid(m, ys, xs, c, i), j), 0, |xs|) == ConvTerm(m, c, s, i)(j)
  {
    hide Mul;
    hide Add;
    hide Pow;
    SumScale(m, At(c, j), GeoTerm(m, ys, xs, i - j), Row(Grid(m, ys, xs, c, i), j), 0, |xs|);
  }

  /** Convolving with a series of power sums. */
  lemma ConvGeo(m: byte, c: Poly, s: seq<byte>, ys: seq<byte>, xs: seq<byte>, i: nat)
    requires forall j :: 0 <= j <= i ==> At(s, j) == Geo(m, ys, xs, j)
    ensures Conv(m, c, s, i) == Sum(HornerTerm(m, ys, xs, c, i), 0, |xs|)
  {
    hide Mul;
    hide Add;
    hide Horner;
    hide Geo;
    var f := Grid(m, ys, xs, c, i);
    forall j | 0 <= j < i + 1
      ensures RowSums(f, |xs|)(j) == ConvTerm(m, c, s, i)(j)
    {
      assert At(s, i - j) == Geo(m, ys, xs, i - j);
      GridRow(m, ys, xs, c, s, i, j);
    }
    SumSame(RowSums(f, |xs|), ConvTerm(m, c, s, i), 0, i + 1);
    SumSwap(f, i + 1, |xs|);
    forall k | 0 <= k < |xs|
      ensures ColumnSums(f, i + 1)(k) == HornerTerm(m, ys, xs, c, i)(k)
    {
      GridColumn(m, ys, xs, c, i, k);
    }
    SumSame(ColumnSums(f, i + 1), HornerTerm(m, ys, xs, c, i), 0, |xs|);
  }

  /** Past the degree of `c`, the Horner value is x^i c(1/x). */
  lemma HornerHigh(m: byte, c: Poly, x: byte, z: byte, i: nat)
    requires Mul(m, x, z) == 1 && forall j :: i < j < |c| ==> c[j] == 0
    ensures Horner(m, c, x, i) == Mul(m, Pow(m, x, i), Eval(m, c, z))
  {
    hide Mul;
    hide Add;
    hide Pow;
    var f := EvalTerm(m, c, z);
    HornerSum(m, c, x, z, i);
    var n := if |c| < i + 1 then i + 1 else |c|;
    EvalSum(m, c, z, n);
    SumSplit(f, 0, i + 1, n);
    forall j | i + 1 <= j < n
      ensures f(j) == 0
    {
      MulZero(m, Pow(m, z, j));
    }
    SumZero(f, i + 1, n);
    AddZero(Sum(f, 0, i + 1));
  }

  lemma {:induction false} HornerSum(m: byte, c: Poly, x: byte, z: byte, i: nat)
    requires Mul(m, x, z) == 1
    ensures Horner(m, c, x, i) == Mul(m, Pow(m, x, i), Sum(EvalTerm(m, c, z), 0, i + 1))
  {
    hide Mul;
    hide Add;
    var f := EvalTerm(m, c, z);
    assert Sum(f, 0, i + 1) == Add(Sum(f, 0, i), f(i));
    if i == 0 {
      AddZero(f(0));
      MulOne(m, f(0));
      MulOne(m, At(c, 0));
    } else {
      HornerSum(m, c, x, z, i - 1);
      var p := Pow(m, x, i);
      MulAddRight(m, p, Sum(f, 0, i), f(i));
      MulAssoc(m, x, Pow(m, x, i - 1), Sum(f, 0, i));
      MulTurn(m, p, At(c, i), Pow(m, z, i));
      PowMul(m, x, z, i);
      PowOne(m, i);
      MulOne(m, At(c, i));
    }
  }

  lemma {:induction false} HornerSkip(m: byte, q: Poly, x: byte, i: nat)
    ensures Horner(m, MulLin(m, 1, x, q), x, i) == At(q, i)
  {
    hide Mul;
    hide Add;
    hide MulLin;
    MulLinAt(m, 1, x, q, i);
    MulOne(m, At(q, i));
    if i == 0 {
      MulZero(m, x);
      AddZero(At(q, 0));
    } else {
      HornerSkip(m, q, x, i - 1);
      var t := Mul(m, x, At(q, i - 1));
      AddComm(At(q, i), t);
      AddCancel(At(q, i), t);
    }
  }

  // ----- locators

  /** The factors 1 + x_k z of a locator. */
  function Factors(xs: seq<byte>): (r: seq<Factor>)
    ensures |r| == |xs|
    ensures forall k :: 0 <= k < |xs| ==> r[k] == Factor(1, xs[k])
  {
    seq(|xs|, k requires 0 <= k < |xs| => Factor(1, xs[k]))
  }

  function Locator(m: byte, xs: seq<byte>): (r: Poly)
    ensures |r| == |xs| + 1
  {
    Prod(m, Factors(xs))
  }

  lemma {:induction false} ProdConstant(m: byte, fs: seq<Factor>)
    requires forall k :: 0 <= k < |fs| ==> fs[k].a == 1
    ensures Prod(m, fs)[0] == 1
  {
    hide Mul;
    hide Add;
    if |fs| > 0 {
      var n := |fs| - 1;
      ProdConstant(m, fs[..n]);
      MulLinAt(m, fs[n].a, fs[n].b, Prod(m, fs[..n]), 0);
      MulOne(m, 1);
      MulZero(m, fs[n].b);
      AddZero(1);
    }
  }

  lemma LocatorConstant(m: byte, xs: seq<byte>)
    ensures Locator(m, xs)[0] == 1
  {
    ProdConstant(m, Factors(xs));
  }

  /** The locator with factor `k` left out. */
  function Others(m: byte, xs: seq<byte>, k: nat): (r: Poly)
    requires k < |xs|
    ensures |r| == |xs|
  {
    Prod(m, Skip(Factors(xs), k))
  }

  function AllOthers(m: byte, xs: seq<byte>): (r: seq<Poly>)
    ensures |r| == |xs| && AllOfLength(r, |xs|)
    ensures forall k :: 0 <= k < |xs| ==> r[k] == Others(m, xs, k)
  {
    seq(|xs|, k requires 0 <= k < |xs| => Others(m, xs, k))
  }

  lemma LocatorSplit(m: byte, xs: seq<byte>, k: nat)
    requires k < |xs|
    ensures Locator(m, xs) == MulLin(m, 1, xs[k], Others(m, xs, k))
  {
    ProdSkip(m, Factors(xs), k);
  }

  /** The reciprocals of distinct nonzero places. */
  ghost predicate Reciprocals(m: Field, xs: seq<byte>, zs: seq<byte>)
  {
    && |xs| == |zs|
    && (forall k :: 0 <= k < |xs| ==> Mul(m, xs[k], zs[k]) == 1)
    && Distinct(xs)
  }

  lemma FactorRoot(m: Field, x: byte, x': byte, z': byte)
    requires Mul(m, x', z') == 1
    ensures FactorAt(m, Factor(1, x), z') == 0 <==> x == x'
  {
    hide Mul;
    hide Add;
    AddCancel(1, Mul(m, x, z'));
    AddSelf(1);
    if Mul(m, x, z') == 1 {
      MulComm(m, x, z');
      MulComm(m, x', z');
      MulZero(m, x);
      NoZeroDivisors(m, z', x);
      MulCancel(m, z', x, x');
    }
  }

  lemma ReciprocalsDistinct(m: Field, xs: seq<byte>, zs: seq<byte>)
    requires Reciprocals(m, xs, zs)
    ensures Distinct(zs) && forall k :: 0 <= k < |xs| ==> xs[k] != 0 && zs[k] != 0
  {
    hide Mul;
    forall k | 0 <= k < |xs|
      ensures xs[k] != 0 && zs[k] != 0
    {
      MulZero(m, xs[k]);
      MulZero(m, zs[k]);
    }
    forall i, j | 0 <= i < j < |zs|
      ensures zs[i] != zs[j]
    {
      if zs[i] == zs[j] {
        MulComm(m, xs[i], zs[i]);
        MulComm(m, xs[j], zs[j]);
        MulCancel(m, zs[i], xs[i], xs[j]);
      }
    }
  }

  lemma LocatorRoot(m: Field, xs: seq<byte>, x: byte, z: byte)
    requires Mul(m, x, z) == 1
    ensures Eval(m, Locator(m, xs), z) == 0 <==> x in xs
  {
    hide Mul;
    hide Add;
    hide Eval;
    hide Prod;
    hide FactorAt;
    var fs := Factors(xs);
    EvalProd(m, fs, z);
    forall k | 0 <= k < |xs|
      ensures FactorAt(m, fs[k], z) == 0 <==> xs[k] == x
    {
      FactorRoot(m, xs[k], x, z);
    }
  }

  lemma OthersRoot(m: Field, xs: seq<byte>, zs: seq<byte>, k: nat, j: nat)
    requires Reciprocals(m, xs, zs) && k < |xs| && j < |xs|
    ensures Eval(m, Others(m, xs, k), zs[j]) == 0 <==> j != k
  {
    hide Mul;
    hide Add;
    hide Eval;
    hide Prod;
    hide FactorAt;
    var fs := Skip(Factors(xs), k);
    EvalProd(m, fs, zs[j]);
    forall i | 0 <= i < |fs|
      ensures FactorAt(m, fs[i], zs[j]) == 0 <==> (if i < k then i else i + 1) == j
    {
      FactorRoot(m, fs[i].b, xs[j], zs[j]);
    }
    if j < k {
      assert FactorAt(m, fs[j], zs[j]) == 0;
    } else if j > k {
      assert FactorAt(m, fs[j - 1], zs[j]) == 0;
    }
  }

  function CombTerm(m: byte, ws: seq<byte>, ps: seq<Poly>, i: int): int -> byte
  {
    k => if 0 <= k < |ps| then Mul(m, At(ws, k), At(ps[k], i)) else 0
  }

  lemma {:induction false} CombAt(m: byte, ws: seq<byte>, ps: seq<Poly>, n: nat, i: nat)
    requires |ws| == |ps| && AllOfLength(ps, n)
    ensures At(Comb(m, ws, ps, n), i) == Sum(CombTerm(m, ws, ps, i), 0, |ps|)
  {
    hide Mul;
    hide Add;
    if |ps| > 0 {
      var k := |ps| - 1;
      CombAt(m, ws[..k], ps[..k], n, i);
      SumSame(CombTerm(m, ws, ps, i), CombTerm(m, ws[..k], ps[..k], i), 0, k);
      MulZero(m, ws[k]);
      AddZero(0);
    }
  }

  /** The key equation: convolving the locator with power sums leaves a combination of the
      partial locators, of degree below the number of places. */
  lemma KeyEquation(m: byte, s: seq<byte>, ys: seq<byte>, xs: seq<byte>, i: nat)
    requires |ys| == |xs|
    requires forall j :: 0 <= j <= i ==> At(s, j) == Geo(m, ys, xs, j)
    ensures Conv(m, Locator(m, xs), s, i) == At(Comb(m, ys, AllOthers(m, xs), |xs|), i)
  {
    hide Mul;
    hide Add;
    hide Geo;
    hide Conv;
    var lam, ps := Locator(m, xs), AllOthers(m, xs);
    ConvGeo(m, lam, s, ys, xs, i);
    CombAt(m, ys, ps, |xs|, i);
    forall k | 0 <= k < |xs|
      ensures HornerTerm(m, ys, xs, lam, i)(k) == CombTerm(m, ys, ps, i)(k)
    {
      LocatorSplit(m, xs, k);
      HornerSkip(m, Others(m, xs, k), xs[k], i);
    }
    SumSame(HornerTerm(m, ys, xs, lam, i), CombTerm(m, ys, ps, i), 0, |xs|);
  }

  /** The value of the evaluator polynomial at a reciprocal place. */
  lemma EvaluatorAt(m: Field, ys: seq<byte>, xs: seq<byte>, zs: seq<byte>, k: nat)
    requires Reciprocals(m, xs, zs) && |ys| == |xs| && k < |xs|
    ensures Eval(m, Comb(m, ys, AllOthers(m, xs), |xs|), zs[k]) == Mul(m, ys[k], Eval(m, Others(m, xs, k), zs[k]))
  {
    hide Mul;
    hide Eval;
    hide Others;
    hide Comb;
    forall j | 0 <= j < |xs| && j != k
      ensures Eval(m, AllOthers(m, xs)[j], zs[k]) == 0
    {
      OthersRoot(m, xs, zs, j, k);
    }
    EvalCombSingle(m, ys, AllOthers(m, xs), |xs|, zs[k], k);
  }

  /** Vandermonde: as many vanishing consecutive power sums as places force every value to zero. */
  lemma Vandermonde(m: Field, ys: seq<byte>, xs: seq<byte>, zs: seq<byte>)
    requires Reciprocals(m, xs, zs) && |ys| == |xs|
    requires forall i :: 0 <= i < |xs| ==> Geo(m, ys, xs, i) == 0
    ensures IsZero(ys)
  {
    hide Mul;
    hide Add;
    hide Geo;
    hide Comb;
    hide AllOthers;
    var n := |xs|;
    var s := seq(n, _ => 0);
    var c := Comb(m, ys, AllOthers(m, xs), n);
    forall i | 0 <= i < n
      ensures c[i] == 0
    {
      KeyEquation(m, s, ys, xs, i);
      ConvZero(m, Locator(m, xs), s, i);
    }
    forall k | 0 <= k < n
      ensures ys[k] == 0
    {
      EvalZero(m, c, zs[k]);
      EvaluatorAt(m, ys, xs, zs, k);
      OthersRoot(m, xs, zs, k, k);
      NoZeroDivisors(m, ys[k], Eval(m, Others(m, xs, k), zs[k]));
    }
  }

  lemma ConvZero(m: byte, c: Poly, s: seq<byte>, i: nat)
    requires IsZero(s)
    ensures Conv(m, c, s, i) == 0
  {
    hide Mul;
    forall j | 0 <= j < i + 1
      ensures ConvTerm(m, c, s, i)(j) == 0
    {
      MulZero(m, At(c, j));
    }
    SumZero(ConvTerm(m, c, s, i), 0, i + 1);
  }

  /** Vandermonde, starting from any exponent. */
  lemma VandermondeFrom(m: Field, ys: seq<byte>, xs: seq<byte>, zs: seq<byte>, from: nat)
    requires Reciprocals(m, xs, zs) && |ys| == |xs|
    requires forall i :: from <= i < from + |xs| ==> Geo(m, ys, xs, i) == 0
    ensures IsZero(ys)
  {
    hide Mul;
    var ws := seq(|xs|, k requires 0 <= k < |xs| => Mul(m, ys[k], Pow(m, xs[k], from)));
    forall i | 0 <= i < |xs|
      ensures Geo(m, ws, xs, i) == 0
    {
      forall k | 0 <= k < |xs|
        ensures GeoTerm(m, ws, xs, i)(k) == GeoTerm(m, ys, xs, from + i)(k)
      {
        PowAdd(m, xs[k], from, i);
        MulAssoc(m, ys[k], Pow(m, xs[k], from), Pow(m, xs[k], i));
      }
      SumSame(GeoTerm(m, ws, xs, i), GeoTerm(m, ys, xs, from + i), 0, |xs|);
      assert Geo(m, ys, xs, from + i) == 0;
    }
    Vandermonde(m, ws, xs, zs);
    ReciprocalsDistinct(m, xs, zs);
    forall k | 0 <= k < |xs|
      ensures ys[k] == 0
    {
      assert ws[k] == 0;
      PowNonzero(m, xs[k], from);
      NoZeroDivisors(m, ys[k], Pow(m, xs[k], from));
    }
  }

  lemma {:induction false} PowNonzero(m: Field, x: byte, n: nat)
    requires x != 0
    ensures Pow(m, x, n) != 0
  {
    hide Mul;
    if n > 0 {
      PowNonzero(m, x, n - 1);
      NoZeroDivisors(m, x, Pow(m, x, n - 1));
    }
  }
}
