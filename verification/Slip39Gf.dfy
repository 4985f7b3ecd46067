/** Shamir interpolation over GF(256) with modulus 0x11B, by logarithm tables. */
module Slip39Gf {
  import opened Options
  import opened Bits
  import opened Gf256
  import opened GfOrder
  import opened GfTables
  import opened Poly
  import opened Sums

  const K: Field := 0x1B

  // ----- tables

  ghost predicate IsLogTables(exp: seq<byte>, log: seq<byte>)
  {
    && |exp| == 255 && |log| == 256
    && (forall i :: 0 <= i < 255 ==> exp[i] == Exp(K, i))
    && log[0] == 0
    && forall a :: 0 < a < 256 ==> log[a] == Log(K, a)
  }

  method ShareGfInit() returns (exp: seq<byte>, log: seq<byte>)
    ensures IsLogTables(exp, log)
  {
    hide Exp;
    hide Log;
    hide Xor;
    hide Mul;
    hide Add;
    var e := new byte[255](_ => 0);
    var l := new byte[256](_ => 0);
    var poly := 1;
    ExpZero(K);
    for i := 0 to 255
      invariant poly == Exp(K, i)
      invariant forall k :: 0 <= k < i ==> e[k] == Exp(K, k)
      invariant forall k :: 0 <= k < i ==> l[Exp(K, k)] == k
    {
      e[i] := poly;
      forall k | 0 <= k < i
        ensures Exp(K, k) != poly
      {
        ExpInjective(K, k, i);
      }
      l[poly] := i;
      ExpNext(K, i);
      MulByThree(K, poly);
      TripleAndReduce(K, poly);
      poly := Xor(2 * poly, poly);
      if poly >= 256 {
        poly := Xor(poly, 0x11B);
      }
    }
    forall a: byte | 0 < a < 256
      ensures l[a] == Log(K, a)
    {
      assert l[Exp(K, Log(K, a))] == Log(K, a);
    }
    ExpNonzeroAll(K);
    l[0] := 0;
    exp, log := e[..], l[..];
  }

  // ----- the interpolating polynomial

  /** The factors x + x_j that vanish at the share points. */
  function Nodes(xs: seq<byte>): (r: seq<Factor>)
    ensures |r| == |xs|
    ensures forall k :: 0 <= k < |xs| ==> r[k] == Factor(xs[k], 1)
  {
    seq(|xs|, k requires 0 <= k < |xs| => Factor(xs[k], 1))
  }

  /** The product of the factors of all points but the i-th. */
  function Basis(xs: seq<byte>, i: nat): (r: Poly)
    requires i < |xs|
    ensures |r| == |xs|
  {
    Prod(K, Skip(Nodes(xs), i))
  }

  function AllBasis(xs: seq<byte>): (r: seq<Poly>)
    ensures |r| == |xs| && AllOfLength(r, |xs|)
    ensures forall i :: 0 <= i < |xs| ==> r[i] == Basis(xs, i)
  {
    seq(|xs|, i requires 0 <= i < |xs| => Basis(xs, i))
  }

  lemma NodeRoot(a: byte, z: byte)
    ensures FactorAt(K, Factor(a, 1), z) == Add(a, z)
    ensures FactorAt(K, Factor(a, 1), z) == 0 <==> a == z
  {
    hide Mul;
    hide Add;
    MulOne(K, z);
    AddCancel(a, z);
    AddSelf(a);
  }

  lemma BasisRoot(xs: seq<byte>, i: nat, k: nat)
    requires Distinct(xs) && i < |xs| && k < |xs|
    ensures Eval(K, Basis(xs, i), xs[k]) == 0 <==> i != k
  {
    hide Mul;
    hide Add;
    hide Eval;
    hide Prod;
    hide FactorAt;
    var fs := Skip(Nodes(xs), i);
    EvalProd(K, fs, xs[k]);
    forall j | 0 <= j < |fs|
      ensures FactorAt(K, fs[j], xs[k]) == 0 <==> (if j < i then j else j + 1) == k
    {
      NodeRoot(fs[j].a, xs[k]);
    }
    if k < i {
      assert FactorAt(K, fs[k], xs[k]) == 0;
    } else if k > i {
      assert FactorAt(K, fs[k - 1], xs[k]) == 0;
    }
  }

  ghost function Weights(xs: seq<byte>, ys: seq<byte>): (ws: seq<byte>)
    requires Distinct(xs) && |ys| == |xs|
    ensures |ws| == |xs|
    ensures forall i :: 0 <= i < |xs| ==> Mul(K, ws[i], Eval(K, Basis(xs, i), xs[i])) == ys[i]
  {
    seq(|xs|, i requires 0 <= i < |xs| => (BasisRoot(xs, i, i); Ratio(K, ys[i], Eval(K, Basis(xs, i), xs[i]))))
  }

  /** The polynomial of degree below the number of points that passes through them. */
  ghost function Interpolant(xs: seq<byte>, ys: seq<byte>): (f: Poly)
    requires Distinct(xs) && |ys| == |xs|
    ensures |f| == |xs|
  {
    Comb(K, Weights(xs, ys), AllBasis(xs), |xs|)
  }

  lemma InterpolantPasses(xs: seq<byte>, ys: seq<byte>, i: nat)
    requires Distinct(xs) && |ys| == |xs| && i < |xs|
    ensures Eval(K, Interpolant(xs, ys), xs[i]) == ys[i]
  {
    hide Mul;
    hide Eval;
    hide Comb;
    hide Basis;
    hide Weights;
    forall k | 0 <= k < |xs| && k != i
      ensures Eval(K, AllBasis(xs)[k], xs[i]) == 0
    {
      BasisRoot(xs, k, i);
    }
    EvalCombSingle(K, Weights(xs, ys), AllBasis(xs), |xs|, xs[i], i);
  }

  /** Shares of a polynomial determine it. */
  lemma InterpolantUnique(xs: seq<byte>, ys: seq<byte>, f: Poly)
    requires Distinct(xs) && |ys| == |xs| == |f|
    requires forall i :: 0 <= i < |xs| ==> Eval(K, f, xs[i]) == ys[i]
    ensures Interpolant(xs, ys) == f
  {
    hide Mul;
    hide Eval;
    hide Comb;
    hide Basis;
    hide Weights;
    forall i, k | 0 <= i < |xs| && 0 <= k < |xs| && i != k
      ensures Eval(K, AllBasis(xs)[k], xs[i]) == 0
    {
      BasisRoot(xs, k, i);
    }
    Interpolation(K, f, xs, Weights(xs, ys), AllBasis(xs));
  }

  // ----- logarithms of products

  /** The sum of the table logarithms of the factors at `z`. */
  function LogSum(log: seq<byte>, fs: seq<Factor>, z: byte): nat
    requires |log| == 256
  {
    if |fs| == 0 then 0 else
      var n := |fs| - 1;
      LogSum(log, fs[..n], z) + log[FactorAt(K, fs[n], z)] as nat
  }

  lemma {:induction false} ExpLogSum(exp: seq<byte>, log: seq<byte>, fs: seq<Factor>, z: byte)
    requires IsLogTables(exp, log)
    requires forall k :: 0 <= k < |fs| ==> FactorAt(K, fs[k], z) != 0
    ensures Exp(K, LogSum(log, fs, z)) == Eval(K, Prod(K, fs), z)
  {
    hide Mul;
    hide Add;
    hide Log;
    hide MulLin;
    if |fs| == 0 {
      MulZero(K, z);
      AddZero(1);
      assert Prod(K, fs)[1..] == [];
    } else {
      var n := |fs| - 1;
      var v := FactorAt(K, fs[n], z);
      ExpLogSum(exp, log, fs[..n], z);
      EvalMulLin(K, fs[n].a, fs[n].b, Prod(K, fs[..n]), z);
      var s := LogSum(log, fs[..n], z);
      PowAdd(K, Generator(K), s, log[v]);
      MulComm(K, Exp(K, s), v);
    }
  }

  /** Leaving one factor out subtracts its logarithm. */
  lemma {:induction false} LogSumSkip(log: seq<byte>, fs: seq<Factor>, z: byte, i: nat)
    requires |log| == 256 && i < |fs|
    ensures LogSum(log, fs, z) == LogSum(log, Skip(fs, i), z) + log[FactorAt(K, fs[i], z)] as nat
  {
    hide FactorAt;
    var n := |fs| - 1;
    if i < n {
      LogSumSkip(log, fs[..n], z, i);
      assert Skip(fs, i)[..n - 1] == Skip(fs[..n], i);
      assert Skip(fs, i)[n - 1] == fs[n];
    } else {
      assert Skip(fs, i) == fs[..n];
    }
  }

  lemma SkipNonzero(xs: seq<byte>, i: nat, z: byte)
    requires i < |xs| && forall k :: 0 <= k < |xs| && k != i ==> xs[k] != z
    ensures forall k :: 0 <= k < |xs| - 1 ==> FactorAt(K, Skip(Nodes(xs), i)[k], z) != 0
  {
    hide FactorAt;
    var fs := Skip(Nodes(xs), i);
    forall k | 0 <= k < |xs| - 1
      ensures FactorAt(K, fs[k], z) != 0
    {
      NodeRoot(fs[k].a, z);
    }
  }

  /** The exponent the code computes for share `i` is the logarithm of the Lagrange coefficient. */
  lemma BasisExponent(exp: seq<byte>, log: seq<byte>, xs: seq<byte>, i: nat, x: byte, e: nat)
    requires IsLogTables(exp, log) && Distinct(xs) && i < |xs| && x !in xs
    requires e == (LogSum(log, Nodes(xs), x) - log[Add(xs[i], x)] as int - LogSum(log, Nodes(xs), xs[i])) % 255
    ensures Mul(K, Exp(K, e), Eval(K, Basis(xs, i), xs[i])) == Eval(K, Basis(xs, i), x)
  {
    hide Mul;
    hide Log;
    hide Prod;
    hide Eval;
    hide FactorAt;
    hide LogSum;
    var fs := Nodes(xs);
    var sk := Skip(fs, i);
    NodeRoot(xs[i], x);
    NodeRoot(xs[i], xs[i]);
    LogSumSkip(log, fs, x, i);
    LogSumSkip(log, fs, xs[i], i);
    SkipNonzero(xs, i, x);
    SkipNonzero(xs, i, xs[i]);
    ExpLogSum(exp, log, sk, x);
    ExpLogSum(exp, log, sk, xs[i]);
    var a: int, b: int := LogSum(log, sk, x), LogSum(log, sk, xs[i]);
    assert e == (a - b) % 255;
    PowAdd(K, Generator(K), e, b);
    ExpSameK(e + b, a, (a - b) / 255);
  }

  lemma ExpSameK(n: nat, a: nat, q: int)
    requires n + 255 * q == a
    ensures Exp(K, n) == Exp(K, a)
  {
    hide Exp;
    ExpPeriod(K, n);
    ExpPeriod(K, a);
    QuotientUnique(a, 255, n / 255 + q, n % 255);
  }

  // ----- the interpolation loop

  function CombAtTerm(ws: seq<byte>, ps: seq<Poly>, z: byte): int -> byte
  {
    k => if 0 <= k < |ps| && k < |ws| then Mul(K, ws[k], Eval(K, ps[k], z)) else 0
  }

  lemma {:induction false} EvalComb(ws: seq<byte>, ps: seq<Poly>, n: nat, z: byte)
    requires |ws| == |ps| && AllOfLength(ps, n)
    ensures Eval(K, Comb(K, ws, ps, n), z) == Sum(CombAtTerm(ws, ps, z), 0, |ps|)
  {
    hide Mul;
    hide Add;
    if |ps| == 0 {
      EvalZero(K, Comb(K, ws, ps, n), z);
    } else {
      var k := |ps| - 1;
      EvalComb(ws[..k], ps[..k], n, z);
      EvalAdd(K, Comb(K, ws[..k], ps[..k], n), Scale(K, ws[k], ps[k]), z);
      EvalScale(K, ws[k], ps[k], z);
      SumSame(CombAtTerm(ws, ps, z), CombAtTerm(ws[..k], ps[..k], z), 0, k);
    }
  }

  datatype RawShare = RawShare(x: byte, data: seq<byte>)

  function Points(shares: seq<RawShare>): (xs: seq<byte>)
    ensures |xs| == |shares|
  {
    seq(|shares|, i requires 0 <= i < |shares| => shares[i].x)
  }

  /** Byte `b` of every share. */
  function Column(shares: seq<RawShare>, b: nat): (ys: seq<byte>)
    requires forall i :: 0 <= i < |shares| ==> b < |shares[i].data|
    ensures |ys| == |shares|
  {
    seq(|shares|, i requires 0 <= i < |shares| => shares[i].data[b])
  }

  /** Shares of equal length at distinct points. */
  ghost predicate WellFormed(shares: seq<RawShare>, vlen: nat)
  {
    (forall i :: 0 <= i < |shares| ==> |shares[i].data| == vlen) && Distinct(Points(shares))
  }

  /** The term of share `i` in the Lagrange sum. */
  lemma LagrangeTerm(exp: seq<byte>, log: seq<byte>, xs: seq<byte>, ys: seq<byte>, i: nat, x: byte, e: nat)
    requires IsLogTables(exp, log) && Distinct(xs) && |ys| == |xs| && i < |xs| && x !in xs
    requires e == (LogSum(log, Nodes(xs), x) - log[Add(xs[i], x)] as int - LogSum(log, Nodes(xs), xs[i])) % 255
    ensures Mul(K, ys[i], Exp(K, e)) == CombAtTerm(Weights(xs, ys), AllBasis(xs), x)(i)
  {
    hide Mul;
    hide Add;
    hide Exp;
    hide Eval;
    hide Log;
    hide LogSum;
    hide Basis;
    var w, n := Weights(xs, ys)[i], Eval(K, Basis(xs, i), xs[i]);
    BasisExponent(exp, log, xs, i, x, e);
    MulAssoc(K, w, n, Exp(K, e));
    MulComm(K, n, Exp(K, e));
  }

  /** Where no share sits, the value of the interpolant is the Lagrange sum. */
  lemma LagrangeSum(xs: seq<byte>, ys: seq<byte>, x: byte)
    requires Distinct(xs) && |ys| == |xs|
    ensures Eval(K, Interpolant(xs, ys), x) == Sum(CombAtTerm(Weights(xs, ys), AllBasis(xs), x), 0, |xs|)
  {
    EvalComb(Weights(xs, ys), AllBasis(xs), |xs|, x);
  }

  ghost predicate Partial(shares: seq<RawShare>, vlen: nat, x: byte, n: nat, out: seq<byte>, m: nat, rest: nat)
    requires WellFormed(shares, vlen) && |out| == vlen && n < |shares| + 1
  {
    forall b :: m <= b < rest && b < vlen ==>
      out[b] == Sum(CombAtTerm(Weights(Points(shares), Column(shares, b)), AllBasis(Points(shares)), x), 0, n)
  }

  method CheckShares(shares: seq<RawShare>, vlen: nat) returns (ok: bool)
    ensures ok <==> WellFormed(shares, vlen)
  {
    for i := 0 to |shares|
      invariant forall k :: 0 <= k < i ==> |shares[k].data| == vlen
      invariant forall k, j :: 0 <= k < i && k < j < |shares| ==> Points(shares)[k] != Points(shares)[j]
    {
      if |shares[i].data| != vlen {
        return false;
      }
      for j := i + 1 to |shares|
        invariant forall k :: i < k < j ==> Points(shares)[i] != Points(shares)[k]
      {
        if shares[i].x == shares[j].x {
          assert Points(shares)[i] == Points(shares)[j];
          return false;
        }
      }
    }
    return true;
  }

  method SumLogs(log: seq<byte>, xs: seq<byte>, x: byte) returns (s: nat)
    requires |log| == 256
    ensures s == LogSum(log, Nodes(xs), x)
  {
    hide Mul;
    hide FactorAt;
    s := 0;
    for i := 0 to |xs|
      invariant s == LogSum(log, Nodes(xs)[..i], x)
    {
      NodeRoot(xs[i], x);
      assert Nodes(xs)[..i + 1][..i] == Nodes(xs)[..i];
      s := s + log[Add(xs[i], x)] as nat;
    }
    assert Nodes(xs)[..|xs|] == Nodes(xs);
  }

  /** Adds the Lagrange term of share `i` to every byte of the result. */
  method AddTerm(exp: seq<byte>, log: seq<byte>, shares: seq<RawShare>, x: byte, vlen: nat, i: nat, basis: nat,
                 out: array<byte>)
    requires IsLogTables(exp, log) && WellFormed(shares, vlen) && i < |shares| && x !in Points(shares)
    requires basis == (LogSum(log, Nodes(Points(shares)), x) - log[Add(shares[i].x, x)] as int
                       - LogSum(log, Nodes(Points(shares)), shares[i].x)) % 255
    requires out.Length == vlen && Partial(shares, vlen, x, i, out[..], 0, vlen)
    modifies out
    ensures Partial(shares, vlen, x, i + 1, out[..], 0, vlen)
  {
    hide Mul;
    hide Add;
    hide Exp;
    hide Eval;
    hide Log;
    hide LogSum;
    hide Interpolant;
    hide Weights;
    hide AllBasis;
    hide CombAtTerm;
    for b := 0 to vlen
      invariant Partial(shares, vlen, x, i + 1, out[..], 0, b)
      invariant Partial(shares, vlen, x, i, out[..], b, vlen)
    {
      var sv := shares[i].data[b];
      ghost var ys := Column(shares, b);
      LagrangeTerm(exp, log, Points(shares), ys, i, x, basis);
      if sv != 0 {
        var e := (log[sv] as nat + basis) % 255;
        LogStep(exp, log, sv, basis);
        out[b] := Add(out[b], exp[e]);
      } else {
        MulZero(K, Exp(K, basis));
        AddZero(out[b]);
      }
    }
  }

  /** Evaluates the interpolating polynomials of all byte columns at `x`; fails exactly on shares of
      unequal length or with a repeated point. */
  method Interpolate(exp: seq<byte>, log: seq<byte>, shares: seq<RawShare>, x: byte, vlen: nat)
    returns (r: Option<seq<byte>>)
    requires IsLogTables(exp, log)
    ensures r.Some? <==> WellFormed(shares, vlen)
    ensures r.Some? ==> |r.value| == vlen && forall b :: 0 <= b < vlen ==>
      r.value[b] == Eval(K, Interpolant(Points(shares), Column(shares, b)), x)
  {
    hide Mul;
    hide Add;
    hide Exp;
    hide Eval;
    hide Log;
    hide LogSum;
    hide Interpolant;
    hide Weights;
    hide AllBasis;
    hide CombAtTerm;
    var ok := CheckShares(shares, vlen);
    if !ok {
      return None;
    }
    var xs := Points(shares);
    for i := 0 to |shares|
      invariant x !in xs[..i]
    {
      if shares[i].x == x {
        forall b | 0 <= b < vlen
          ensures shares[i].data[b] == Eval(K, Interpolant(xs, Column(shares, b)), x)
        {
          InterpolantPasses(xs, Column(shares, b), i);
        }
        return Some(shares[i].data);
      }
    }
    assert xs[..|shares|] == xs;
    var logProd := SumLogs(log, xs, x);
    var out := new byte[vlen](_ => 0);
    for i := 0 to |shares|
      invariant Partial(shares, vlen, x, i, out[..], 0, vlen)
    {
      var sumOthers := SumLogs(log, xs, xs[i]);
      var p: int, q: int, o: int := logProd, log[Add(xs[i], x)], sumOthers;
      var basis := (p - q - o) % 255;
      AddTerm(exp, log, shares, x, vlen, i, basis, out);
    }
    forall b | 0 <= b < vlen
      ensures out[b] == Eval(K, Interpolant(xs, Column(shares, b)), x)
    {
      LagrangeSum(xs, Column(shares, b), x);
    }
    return Some(out[..]);
  }

  lemma LogStep(exp: seq<byte>, log: seq<byte>, v: byte, e: nat)
    requires IsLogTables(exp, log) && v != 0
    ensures exp[(log[v] as nat + e) % 255] == Mul(K, v, Exp(K, e))
  {
    hide Mul;
    hide Log;
    ExpPeriod(K, log[v] as nat + e);
    PowAdd(K, Generator(K), log[v], e);
  }
}
