/** Polynomials over GF(2^8) as coefficient sequences, lowest degree first. */
module Poly {
  import opened Bits
  import opened Gf256
  import opened GfOrder

  type Poly = seq<byte>

  function At(c: Poly, i: int): byte
  {
    if 0 <= i < |c| then c[i] else 0
  }

  function Eval(m: byte, c: Poly, z: byte): byte
  {
    if |c| == 0 then 0 else Add(c[0], Mul(m, z, Eval(m, c[1..], z)))
  }

  function AddP(c: Poly, d: Poly): (r: Poly)
    requires |c| == |d|
    ensures |r| == |c|
  {
    seq(|c|, i requires 0 <= i < |c| => Add(c[i], d[i]))
  }

  function Scale(m: byte, a: byte, c: Poly): (r: Poly)
    ensures |r| == |c|
  {
    seq(|c|, i requires 0 <= i < |c| => Mul(m, a, c[i]))
  }

  /** The product (a + b x) c(x). */
  function MulLin(m: byte, a: byte, b: byte, c: Poly): (r: Poly)
    ensures |r| == |c| + 1
  {
    AddP(Scale(m, a, c + [0]), Scale(m, b, [0] + c))
  }

  lemma MulLinAt(m: byte, a: byte, b: byte, c: Poly, i: int)
    ensures At(MulLin(m, a, b, c), i) == Add(Mul(m, a, At(c, i)), Mul(m, b, At(c, i - 1)))
  {
    hide Mul;
    hide Add;
    MulZero(m, a);
    MulZero(m, b);
    AddZero(0);
  }

  lemma {:induction false} EvalAdd(m: byte, c: Poly, d: Poly, z: byte)
    requires |c| == |d|
    ensures Eval(m, AddP(c, d), z) == Add(Eval(m, c, z), Eval(m, d, z))
  {
    hide Mul;
    hide Add;
    if |c| == 0 {
      AddZero(0);
    } else {
      assert AddP(c, d)[1..] == AddP(c[1..], d[1..]);
      EvalAdd(m, c[1..], d[1..], z);
      var ec, ed := Eval(m, c[1..], z), Eval(m, d[1..], z);
      MulAddRight(m, z, ec, ed);
      AddSwap(c[0], d[0], Mul(m, z, ec), Mul(m, z, ed));
    }
  }

  lemma {:induction false} EvalScale(m: byte, a: byte, c: Poly, z: byte)
    ensures Eval(m, Scale(m, a, c), z) == Mul(m, a, Eval(m, c, z))
  {
    hide Mul;
    hide Add;
    if |c| == 0 {
      MulZero(m, a);
    } else {
      assert Scale(m, a, c)[1..] == Scale(m, a, c[1..]);
      EvalScale(m, a, c[1..], z);
      var e := Eval(m, c[1..], z);
      MulAddRight(m, a, c[0], Mul(m, z, e));
      MulAssoc(m, a, z, e);
      MulComm(m, a, z);
      MulAssoc(m, z, a, e);
    }
  }

  lemma {:induction false} EvalPad(m: byte, c: Poly, z: byte)
    ensures Eval(m, c + [0], z) == Eval(m, c, z)
  {
    hide Mul;
    hide Add;
    if |c| == 0 {
      MulZero(m, z);
      AddZero(0);
      assert (c + [0])[1..] == [];
    } else {
      assert (c + [0])[1..] == c[1..] + [0];
      EvalPad(m, c[1..], z);
    }
  }

  lemma EvalMulLin(m: byte, a: byte, b: byte, c: Poly, z: byte)
    ensures Eval(m, MulLin(m, a, b, c), z) == Mul(m, Add(a, Mul(m, b, z)), Eval(m, c, z))
  {
    hide Mul;
    hide Add;
    var e := Eval(m, c, z);
    EvalAdd(m, Scale(m, a, c + [0]), Scale(m, b, [0] + c), z);
    EvalScale(m, a, c + [0], z);
    EvalScale(m, b, [0] + c, z);
    EvalPad(m, c, z);
    assert ([0] + c)[1..] == c;
    AddZero(Mul(m, z, e));
    MulAssoc(m, b, z, e);
    MulAddLeft(m, a, Mul(m, b, z), e);
  }

  // ----- products of linear factors

  datatype Factor = Factor(a: byte, b: byte)

  function FactorAt(m: byte, f: Factor, z: byte): byte
  {
    Add(f.a, Mul(m, f.b, z))
  }

  function Prod(m: byte, fs: seq<Factor>): (r: Poly)
    ensures |r| == |fs| + 1
  {
    if |fs| == 0 then [1] else
      var f := fs[|fs| - 1];
      MulLin(m, f.a, f.b, Prod(m, fs[..|fs| - 1]))
  }

  lemma {:induction false} EvalProd(m: Field, fs: seq<Factor>, z: byte)
    ensures Eval(m, Prod(m, fs), z) == 0 <==> exists k :: 0 <= k < |fs| && FactorAt(m, fs[k], z) == 0
  {
    hide Mul;
    hide Add;
    hide MulLin;
    if |fs| == 0 {
      MulZero(m, z);
      AddZero(1);
      assert Prod(m, fs)[1..] == [];
    } else {
      var n := |fs| - 1;
      var init := fs[..n];
      EvalProd(m, init, z);
      EvalMulLin(m, fs[n].a, fs[n].b, Prod(m, init), z);
      NoZeroDivisors(m, FactorAt(m, fs[n], z), Eval(m, Prod(m, init), z));
      assert forall k :: 0 <= k < n ==> init[k] == fs[k];
    }
  }

  function Skip(fs: seq<Factor>, i: nat): seq<Factor>
    requires i < |fs|
  {
    fs[..i] + fs[i + 1..]
  }

  lemma MulLinComm(m: byte, a: byte, b: byte, a': byte, b': byte, c: Poly)
    ensures MulLin(m, a, b, MulLin(m, a', b', c)) == MulLin(m, a', b', MulLin(m, a, b, c))
  {
    hide Mul;
    hide Add;
    var d, d' := MulLin(m, a, b, c), MulLin(m, a', b', c);
    var l, r := MulLin(m, a, b, d'), MulLin(m, a', b', d);
    forall i | 0 <= i < |l|
      ensures l[i] == r[i]
    {
      MulLinAt(m, a, b, d', i);
      MulLinAt(m, a', b', d, i);
      MulLinAt(m, a, b, c, i);
      MulLinAt(m, a, b, c, i - 1);
      MulLinAt(m, a', b', c, i);
      MulLinAt(m, a', b', c, i - 1);
      hide MulLin;
      CrossTerms(m, a, b, a', b', At(c, i), At(c, i - 1), At(c, i - 2));
    }
  }

  lemma CrossTerms(m: byte, a: byte, b: byte, a': byte, b': byte, x: byte, y: byte, w: byte)
    ensures Add(Mul(m, a, Add(Mul(m, a', x), Mul(m, b', y))), Mul(m, b, Add(Mul(m, a', y), Mul(m, b', w))))
         == Add(Mul(m, a', Add(Mul(m, a, x), Mul(m, b, y))), Mul(m, b', Add(Mul(m, a, y), Mul(m, b, w))))
  {
    hide *;
    MulAddRight(m, a, Mul(m, a', x), Mul(m, b', y));
    MulAddRight(m, b, Mul(m, a', y), Mul(m, b', w));
    MulAddRight(m, a', Mul(m, a, x), Mul(m, b, y));
    MulAddRight(m, b', Mul(m, a, y), Mul(m, b, w));
    MulTurn(m, a, a', x);
    MulTurn(m, b, b', w);
    MulTurn(m, a, b', y);
    MulTurn(m, b, a', y);
    AddSwap(Mul(m, a, Mul(m, a', x)), Mul(m, a, Mul(m, b', y)), Mul(m, b, Mul(m, a', y)), Mul(m, b, Mul(m, b', w)));
  }

  lemma MulTurn(m: byte, a: byte, b: byte, c: byte)
    ensures Mul(m, a, Mul(m, b, c)) == Mul(m, b, Mul(m, a, c))
  {
    hide *;
    MulAssoc(m, a, b, c);
    MulComm(m, a, b);
    MulAssoc(m, b, a, c);
  }

  /** Any one factor can be taken out of the product. */
  lemma {:induction false} ProdSkip(m: byte, fs: seq<Factor>, i: nat)
    requires i < |fs|
    ensures Prod(m, fs) == MulLin(m, fs[i].a, fs[i].b, Prod(m, Skip(fs, i)))
  {
    hide MulLin;
    var n := |fs| - 1;
    if i < n {
      var init := fs[..n];
      ProdSkip(m, init, i);
      assert Skip(fs, i)[..n - 1] == Skip(init, i);
      assert Skip(fs, i)[n - 1] == fs[n];
      MulLinComm(m, fs[n].a, fs[n].b, fs[i].a, fs[i].b, Prod(m, Skip(init, i)));
    } else {
      assert Skip(fs, i) == fs[..n];
    }
  }

  // ----- roots

  /** The quotient of c(x) - c(z) by x - z. */
  function Quotient(m: byte, c: Poly, z: byte): (r: Poly)
    requires |c| > 0
    ensures |r| == |c| - 1
  {
    if |c| == 1 then [] else [Eval(m, c[1..], z)] + Quotient(m, c[1..], z)
  }

  lemma {:induction false} EvalQuotient(m: byte, c: Poly, z: byte, x: byte)
    requires |c| > 0
    ensures Add(Eval(m, c, x), Eval(m, c, z)) == Mul(m, Add(x, z), Eval(m, Quotient(m, c, z), x))
  {
    hide Mul;
    hide Add;
    var t := c[1..];
    var ex, ez := Eval(m, t, x), Eval(m, t, z);
    AddSwap(c[0], Mul(m, x, ex), c[0], Mul(m, z, ez));
    AddSelf(c[0]);
    AddZero(Add(Mul(m, x, ex), Mul(m, z, ez)));
    if |c| == 1 {
      MulZero(m, x);
      MulZero(m, z);
      MulZero(m, Add(x, z));
      AddZero(0);
    } else {
      var q := Eval(m, Quotient(m, t, z), x);
      EvalQuotient(m, t, z, x);
      assert Quotient(m, c, z)[1..] == Quotient(m, t, z);
      QuotientStep(m, x, z, ex, ez, q);
    }
  }

  lemma QuotientStep(m: byte, x: byte, z: byte, ex: byte, ez: byte, q: byte)
    requires Add(ex, ez) == Mul(m, Add(x, z), q)
    ensures Add(Mul(m, x, ex), Mul(m, z, ez)) == Mul(m, Add(x, z), Add(ez, Mul(m, x, q)))
  {
    hide *;
    var d := Add(x, z);
    MulAddRight(m, d, ez, Mul(m, x, q));
    MulTurn(m, d, x, q);
    MulAddRight(m, x, ex, ez);
    MulAddLeft(m, x, z, ez);
    var p, r, s := Mul(m, x, ex), Mul(m, x, ez), Mul(m, z, ez);
    AddComm(r, s);
    AddAssoc(s, r, Add(p, r));
    AddComm(p, r);
    AddCancel(p, r);
    AddComm(s, p);
  }

  ghost predicate IsZero(c: Poly)
  {
    forall i :: 0 <= i < |c| ==> c[i] == 0
  }

  lemma {:induction false} EvalZero(m: byte, c: Poly, z: byte)
    requires IsZero(c)
    ensures Eval(m, c, z) == 0
  {
    hide Mul;
    hide Add;
    if |c| > 0 {
      EvalZero(m, c[1..], z);
      MulZero(m, z);
      AddZero(0);
    }
  }

  lemma {:induction false} QuotientZero(m: byte, c: Poly, z: byte)
    requires |c| > 0 && IsZero(Quotient(m, c, z)) && Eval(m, c, z) == 0
    ensures IsZero(c)
  {
    hide Mul;
    hide Add;
    var t := c[1..];
    if |c| > 1 {
      var q := Quotient(m, c, z);
      assert q[0] == 0;
      assert q[1..] == Quotient(m, t, z);
      assert forall i :: 0 <= i < |q| - 1 ==> q[1..][i] == q[i + 1];
      QuotientZero(m, t, z);
    } 
    EvalZero(m, t, z);
    MulZero(m, z);
    AddZero(c[0]);
    assert forall i :: 0 < i < |c| ==> c[i] == t[i - 1];
  }

  ghost predicate Distinct(zs: seq<byte>)
  {
    forall i, j :: 0 <= i < j < |zs| ==> zs[i] != zs[j]
  }

  /** A polynomial with as many distinct roots as coefficients is zero. */
  lemma {:induction false} TooManyRoots(m: Field, c: Poly, zs: seq<byte>)
    requires |zs| == |c| && Distinct(zs)
    requires forall i :: 0 <= i < |zs| ==> Eval(m, c, zs[i]) == 0
    ensures IsZero(c)
    decreases |c|
  {
    hide Mul;
    hide Add;
    if |c| > 0 {
      var n := |c| - 1;
      var z, q := zs[n], Quotient(m, c, zs[n]);
      forall i | 0 <= i < n
        ensures Eval(m, q, zs[i]) == 0
      {
        EvalQuotient(m, c, z, zs[i]);
        AddZero(0);
        NoZeroDivisors(m, Add(zs[i], z), Eval(m, q, zs[i]));
        AddCancel(zs[i], z);
      }
      assert forall i :: 0 <= i < n ==> zs[..n][i] == zs[i];
      TooManyRoots(m, q, zs[..n]);
      QuotientZero(m, c, z);
    }
  }

  // ----- linear combinations and interpolation

  ghost predicate AllOfLength(ps: seq<Poly>, n: nat)
  {
    forall i :: 0 <= i < |ps| ==> |ps[i]| == n
  }

  function Comb(m: byte, ws: seq<byte>, ps: seq<Poly>, n: nat): (r: Poly)
    requires |ws| == |ps| && AllOfLength(ps, n)
    ensures |r| == n
  {
    if |ps| == 0 then seq(n, _ => 0) else
      var k := |ps| - 1;
      AddP(Comb(m, ws[..k], ps[..k], n), Scale(m, ws[k], ps[k]))
  }

  /** At a point where every polynomial but one vanishes, only that one contributes. */
  lemma {:induction false} EvalCombSingle(m: byte, ws: seq<byte>, ps: seq<Poly>, n: nat, z: byte, i: nat)
    requires |ws| == |ps| && AllOfLength(ps, n)
    requires forall k :: 0 <= k < |ps| && k != i ==> Eval(m, ps[k], z) == 0
    ensures Eval(m, Comb(m, ws, ps, n), z) == if i < |ps| then Mul(m, ws[i], Eval(m, ps[i], z)) else 0
  {
    hide Mul;
    hide Add;
    if |ps| == 0 {
      EvalZero(m, Comb(m, ws, ps, n), z);
    } else {
      var k := |ps| - 1;
      EvalCombSingle(m, ws[..k], ps[..k], n, z, i);
      var c := Comb(m, ws[..k], ps[..k], n);
      EvalAdd(m, c, Scale(m, ws[k], ps[k]), z);
      EvalScale(m, ws[k], ps[k], z);
      MulZero(m, ws[k]);
      AddZero(Eval(m, c, z));
      AddZero(Mul(m, ws[k], Eval(m, ps[k], z)));
    }
  }

  /** Interpolation: a combination that matches `f` at as many points as `f` has coefficients is `f`. */
  lemma Interpolation(m: Field, f: Poly, zs: seq<byte>, ws: seq<byte>, ps: seq<Poly>)
    requires |f| == |zs| == |ws| == |ps| && AllOfLength(ps, |f|) && Distinct(zs)
    requires forall i, k :: 0 <= i < |ps| && 0 <= k < |ps| && i != k ==> Eval(m, ps[k], zs[i]) == 0
    requires forall i :: 0 <= i < |ps| ==> Mul(m, ws[i], Eval(m, ps[i], zs[i])) == Eval(m, f, zs[i])
    ensures Comb(m, ws, ps, |f|) == f
  {
    hide Mul;
    hide Add;
    var n := |f|;
    var c := Comb(m, ws, ps, n);
    var d := AddP(c, f);
    forall i | 0 <= i < n
      ensures Eval(m, d, zs[i]) == 0
    {
      EvalCombSingle(m, ws, ps, n, zs[i], i);
      EvalAdd(m, c, f, zs[i]);
      AddSelf(Eval(m, f, zs[i]));
    }
    TooManyRoots(m, d, zs);
    forall i | 0 <= i < n
      ensures c[i] == f[i]
    {
      assert d[i] == 0;
      AddCancel(c[i], f[i]);
    }
  }
}
