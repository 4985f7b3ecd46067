/** One codeword of the RS03 image: syndromes, erasure locator, Berlekamp-Massey, Chien search
    and Forney's formula, in index form over the log tables. */
module RsDecode {
  import opened Bits
  import opened Gf256
  import opened GfOrder
  import opened GfTables
  import opened Poly
  import opened Sums
  import opened RsAlgebra
  import opened RsCode
  import opened BerlekampMassey

  // ----- index form

  /** `x` holds the logarithms of `v`, with 255 for the logarithm of zero. */
  ghost predicate IndexForm(t: Tables, v: Poly, x: seq<nat>)
    requires |t.indexOf| == 256
  {
    |x| == |v| && forall i :: 0 <= i < |v| ==> x[i] == t.indexOf[v[i]]
  }

  method ToIndex(t: Tables, v: Poly) returns (x: seq<nat>)
    requires IsTables(t)
    ensures IndexForm(t, v, x)
  {
    var a := new nat[|v|](_ => 0);
    for i := 0 to |v|
      invariant forall k :: 0 <= k < i ==> a[k] == t.indexOf[v[k]]
    {
      a[i] := t.indexOf[v[i]];
    }
    x := a[..];
  }

  // ----- syndromes

  /** Horner's rule over the first `j` symbols at the root of syndrome `i`. */
  function HornerPrefix(w: seq<byte>, i: nat, j: nat): byte
    requires 0 < j <= |w|
  {
    if j == 1 then w[0] else Add(w[j - 1], Mul(M, HornerPrefix(w, i, j - 1), Exp(M, (FIRST_ROOT + i) * PRIM_ELEM)))
  }

  lemma RootPower(i: nat, l: nat)
    requires l < 255
    ensures Pow(M, Exp(M, (FIRST_ROOT + i) * PRIM_ELEM), 254 - l) == Pow(M, Place(l), FIRST_ROOT + i)
  {
    hide Mul;
    hide Pow;
    var a, b := (FIRST_ROOT + i) * PRIM_ELEM, 254 - l;
    var n := a * b;
    PowPow(M, Generator(M), a, b, n);
    assert n == (PRIM_ELEM * b) * (FIRST_ROOT + i);
    PowPow(M, Generator(M), PRIM_ELEM * b, FIRST_ROOT + i, n);
  }

  lemma {:induction false} HornerIsSyndrome(w: seq<byte>, i: nat, j: nat)
    requires |w| == 255 && 0 < j <= 255
    ensures Mul(M, HornerPrefix(w, i, j), Pow(M, Exp(M, (FIRST_ROOT + i) * PRIM_ELEM), 255 - j))
         == Sum(SynTerm(w, i), 0, j)
  {
    hide Mul;
    hide Add;
    hide Exp;
    hide Pow;
    var beta := Exp(M, (FIRST_ROOT + i) * PRIM_ELEM);
    var f := SynTerm(w, i);
    RootPower(i, j - 1);
    assert f(j - 1) == Mul(M, w[j - 1], Pow(M, beta, 255 - j));
    if j == 1 {
      AddZero(f(0));
      assert Sum(f, 0, 1) == Add(Sum(f, 0, 0), f(0));
    } else {
      HornerIsSyndrome(w, i, j - 1);
      var h, p := HornerPrefix(w, i, j - 1), Pow(M, beta, 255 - j);
      PowNext(M, beta, 255 - j);
      MulAddLeft(M, w[j - 1], Mul(M, h, beta), p);
      MulAssoc(M, h, beta, p);
      AddComm(f(j - 1), Sum(f, 0, j - 1));
    }
  }

  lemma PowNext(m: byte, x: byte, n: nat)
    ensures Pow(m, x, n + 1) == Mul(m, x, Pow(m, x, n))
  {
  }

  lemma HornerComplete(w: seq<byte>, i: nat)
    requires |w| == 255
    ensures HornerPrefix(w, i, 255) == Syndrome(w, i)
  {
    hide Mul;
    hide Exp;
    hide Pow;
    hide HornerPrefix;
    HornerIsSyndrome(w, i, 255);
    PowZero(M, Exp(M, (FIRST_ROOT + i) * PRIM_ELEM));
    MulOne(M, HornerPrefix(w, i, 255));
  }

  method Syndromes(t: Tables, sym: array<byte>, nroots: nat) returns (syn: seq<byte>)
    requires IsTables(t) && sym.Length == 255
    ensures |syn| == nroots && forall i :: 0 <= i < nroots ==> syn[i] == Syndrome(sym[..], i)
  {
    hide Mul;
    hide Add;
    hide Exp;
    hide Log;
    hide Syndrome;
    ghost var w := sym[..];
    var a := new byte[nroots](_ => 0);
    for i := 0 to nroots
      invariant forall k :: 0 <= k < i ==> a[k] == HornerPrefix(w, k, 1)
    {
      a[i] := sym[0];
    }
    for j := 1 to 255
      invariant forall k :: 0 <= k < nroots ==> a[k] == HornerPrefix(w, k, j)
    {
      var data := sym[j];
      for i := 0 to nroots
        invariant forall k :: 0 <= k < i ==> a[k] == HornerPrefix(w, k, j + 1)
        invariant forall k :: i <= k < nroots ==> a[k] == HornerPrefix(w, k, j)
      {
        var e := (FIRST_ROOT + i) * PRIM_ELEM;
        MulZero(M, Exp(M, e));
        AddZero(data);
        if a[i] == 0 {
          a[i] := data;
        } else {
          AlphaSum(t, a[i], e);
          a[i] := Add(data, t.alphaTo[(t.indexOf[a[i]] + e) % 255]);
        }
      }
    }
    hide HornerPrefix;
    forall i | 0 <= i < nroots
      ensures a[i] == Syndrome(w, i)
    {
      HornerComplete(w, i);
    }
    syn := a[..];
  }

  // ----- the erasure locator

  /** A polynomial padded with zeros to length `n`. */
  ghost predicate Padded(c: Poly, f: Poly, n: nat)
  {
    |c| == n && forall i :: 0 <= i < n ==> c[i] == At(f, i)
  }

  lemma LocatorSnoc(xs: seq<byte>, x: byte)
    ensures Locator(M, xs + [x]) == MulLin(M, 1, x, Locator(M, xs))
  {
    hide MulLin;
    assert Factors(xs + [x])[..|xs|] == Factors(xs);
  }

  lemma TimesFactorAt(f: Poly, x: byte, k: int)
    ensures At(MulLin(M, 1, x, f), k) == Add(At(f, k), Mul(M, At(f, k - 1), x))
  {
    hide Mul;
    hide Add;
    hide MulLin;
    MulLinAt(M, 1, x, f, k);
    MulOne(M, At(f, k));
    MulComm(M, x, At(f, k - 1));
  }

  method MultiplyFactor(t: Tables, lambda: array<byte>, i: nat, u: nat, ghost f: Poly, ghost x: byte)
    requires IsTables(t) && i + 1 < lambda.Length
    requires |f| == i + 1 && Padded(lambda[..], f, lambda.Length) && x == Exp(M, u)
    modifies lambda
    ensures Padded(lambda[..], MulLin(M, 1, x, f), lambda.Length)
  {
    hide Mul;
    hide Add;
    hide Exp;
    hide Log;
    hide MulLin;
    var j := i + 1;
    while j > 0
      invariant 0 <= j <= i + 1
      invariant forall k :: 0 <= k <= j ==> lambda[k] == At(f, k)
      invariant forall k :: j < k < lambda.Length ==> lambda[k] == At(MulLin(M, 1, x, f), k)
      invariant lambda[0] == At(f, 0)
    {
      var tmp := t.indexOf[lambda[j - 1]];
      IndexBound(t, lambda[j - 1]);
      TimesFactorAt(f, x, j);
      MulZero(M, x);
      AddZero(lambda[j]);
      if tmp != 255 {
        AlphaSum(t, lambda[j - 1], u);
        lambda[j] := Add(lambda[j], t.alphaTo[(u + tmp) % 255]);
      }
      j := j - 1;
    }
    TimesFactorAt(f, x, 0);
    MulZero(M, x);
    AddZero(At(f, 0));
  }

  method ErasureLocator(t: Tables, erased: seq<nat>, nroots: nat) returns (lambda: array<byte>)
    requires IsTables(t) && Positions(erased, 255) && 0 < |erased| <= nroots
    ensures fresh(lambda) && lambda.Length == nroots + 1
    ensures Padded(lambda[..], Locator(M, Places(erased)), nroots + 1)
  {
    hide Mul;
    hide Add;
    hide Exp;
    hide Log;
    hide MulLin;
    lambda := new byte[nroots + 1](_ => 0);
    lambda[0] := 1;
    LocatorOne(Place(erased[0]));
    AlphaAt(t, PRIM_ELEM * (254 - erased[0]));
    lambda[1] := t.alphaTo[PRIM_ELEM * (254 - erased[0]) % 255];
    assert Places(erased[..1]) == [Place(erased[0])];
    for i := 1 to |erased|
      invariant Padded(lambda[..], Locator(M, Places(erased[..i])), nroots + 1)
    {
      var u := PRIM_ELEM * (254 - erased[i]) % 255;
      ExpPeriod(M, PRIM_ELEM * (254 - erased[i]));
      assert Places(erased[..i + 1]) == Places(erased[..i]) + [Place(erased[i])];
      LocatorSnoc(Places(erased[..i]), Place(erased[i]));
      MultiplyFactor(t, lambda, i, u, Locator(M, Places(erased[..i])), Place(erased[i]));
    }
    assert erased[..|erased|] == erased;
  }

  lemma LocatorOne(x: byte)
    ensures Locator(M, [x]) == [1, x]
  {
    hide Mul;
    hide Add;
    LocatorSnoc([], x);
    assert [] + [x] == [x];
    MulLinAt(M, 1, x, [1], 0);
    MulLinAt(M, 1, x, [1], 1);
    MulOne(M, 1);
    MulOne(M, x);
    MulZero(M, x);
    MulZero(M, 1);
    AddZero(1);
    AddZero(x);
  }

  // ----- Berlekamp-Massey

  method Discrepancy(t: Tables, lambda: array<byte>, si: seq<nat>, r: nat, ghost s: seq<byte>) returns (d: byte)
    requires IsTables(t) && IndexForm(t, s, si) && r < |s| < lambda.Length
    ensures d == Conv(M, lambda[..], s, r)
  {
    hide Mul;
    hide Add;
    hide Exp;
    hide Log;
    ghost var f := ConvTerm(M, lambda[..], s, r);
    d := 0;
    for i := 0 to r + 1
      invariant d == Sum(f, 0, i)
    {
      IndexBound(t, s[r - i]);
      MulZero(M, lambda[i]);
      MulZero(M, s[r - i]);
      AddZero(d);
      if lambda[i] != 0 && si[r - i] != 255 {
        AlphaProduct(t, lambda[i], s[r - i]);
        d := Add(d, t.alphaTo[(t.indexOf[lambda[i]] + si[r - i]) % 255]);
      }
    }
  }

  method ShiftIndex(t: Tables, b: array<nat>, ghost bv: Poly)
    requires IsTables(t) && b.Length > 0 && IndexForm(t, bv, b[..])
    modifies b
    ensures IndexForm(t, Shift(bv), b[..])
  {
    var i := b.Length - 1;
    while i >= 1
      invariant 0 <= i < b.Length
      invariant forall k :: 0 <= k <= i ==> b[k] == t.indexOf[bv[k]]
      invariant forall k :: i < k < b.Length ==> b[k] == t.indexOf[bv[k - 1]]
    {
      b[i] := b[i - 1];
      i := i - 1;
    }
    b[0] := 255;
  }

  method CorrectedLocator(t: Tables, lambda: array<byte>, b: array<nat>, delta: byte, ghost bv: Poly)
    returns (next: array<byte>)
    requires IsTables(t) && lambda.Length == b.Length > 0 && IndexForm(t, bv, b[..]) && delta != 0
    ensures fresh(next) && next.Length == lambda.Length && next[..] == Corrected(M, lambda[..], bv, delta)
  {
    hide Mul;
    hide Add;
    hide Exp;
    hide Log;
    next := new byte[lambda.Length](_ => 0);
    next[0] := lambda[0];
    ghost var want := Corrected(M, lambda[..], bv, delta);
    MulZero(M, delta);
    AddZero(lambda[0]);
    for i := 0 to lambda.Length - 1
      invariant forall k :: 0 <= k <= i ==> next[k] == want[k]
    {
      IndexBound(t, bv[i]);
      AddZero(lambda[i + 1]);
      assert want[i + 1] == Add(lambda[i + 1], Mul(M, delta, bv[i]));
      if b[i] != 255 {
        AlphaProduct(t, delta, bv[i]);
        next[i + 1] := Add(lambda[i + 1], t.alphaTo[(t.indexOf[delta] + b[i]) % 255]);
      } else {
        next[i + 1] := lambda[i + 1];
      }
    }
  }

  /** b := lambda / delta in index form. */
  method SaveScaled(t: Tables, lambda: array<byte>, b: array<nat>, delta: byte)
    requires IsTables(t) && lambda.Length == b.Length && delta != 0
    modifies b
    ensures IndexForm(t, Scale(M, Inv(M, delta), lambda[..]), b[..])
  {
    hide Mul;
    hide Add;
    hide Exp;
    hide Log;
    var dr := t.indexOf[delta];
    IndexBound(t, delta);
    ghost var inv := Exp(M, 255 - dr);
    InverseExp(t, delta);
    for i := 0 to lambda.Length
      invariant forall k :: 0 <= k < i ==> b[k] == t.indexOf[Mul(M, inv, lambda[k])]
    {
      IndexBound(t, lambda[i]);
      MulZero(M, inv);
      if lambda[i] == 0 {
        b[i] := 255;
      } else {
        var e := (t.indexOf[lambda[i]] + 255 - dr) % 255;
        AlphaSum(t, lambda[i], 255 - dr);
        MulComm(M, inv, lambda[i]);
        LogUnique(M, e);
        AlphaAt(t, e);
        b[i] := e;
      }
    }
  }

  /** The inverse by its logarithm. */
  lemma InverseExp(t: Tables, delta: byte)
    requires IsTables(t) && delta != 0
    ensures t.indexOf[delta] < 255 && Inv(M, delta) == Exp(M, 255 - t.indexOf[delta])
  {
    hide Mul;
    hide Exp;
    hide Log;
    hide Inv;
    var inv := Exp(M, 255 - t.indexOf[delta]);
    IndexBound(t, delta);
    AlphaSum(t, delta, 255 - t.indexOf[delta]);
    ExpZero(M);
    MulCancel(M, delta, inv, Inv(M, delta));
  }

  method CopyInto(src: array<byte>, dst: array<byte>)
    requires src.Length == dst.Length && src != dst
    modifies dst
    ensures dst[..] == src[..]
  {
    for i := 0 to src.Length
      invariant dst[..i] == src[..i]
    {
      dst[i] := src[i];
    }
    assert dst[..] == dst[..src.Length] && src[..] == src[..src.Length];
  }

  /** Extends the erasure locator by the rounds of the Berlekamp-Massey iteration. */
  method ExtendLocator(t: Tables, lambda: array<byte>, nerased: nat, si: seq<nat>, ghost s: seq<byte>)
    requires IsTables(t) && IndexForm(t, s, si) && nerased <= |s| && lambda.Length == |s| + 1
    modifies lambda
    ensures lambda[..] == Run(M, nerased, s, old(lambda[..]), |s|).lam
  {
    hide Mul;
    hide Add;
    hide Exp;
    hide Log;
    hide Conv;
    hide Shift;
    hide Corrected;
    hide Scale;
    hide Inv;
    ghost var lam0 := lambda[..];
    var nroots := |si|;
    var bi := ToIndex(t, lambda[..]);
    var b := new nat[nroots + 1](i requires 0 <= i <= nroots => bi[i]);
    ghost var q := Register(lam0, lam0, nerased);
    var el, r := nerased, nerased;
    while r < nroots
      invariant nerased <= r <= nroots && el == q.el
      invariant q == Run(M, nerased, s, lam0, r)
      invariant lambda[..] == q.lam && IndexForm(t, q.b, b[..])
    {
      var delta := Discrepancy(t, lambda, si, r, s);
      r := r + 1;
      if delta == 0 {
        ShiftIndex(t, b, q.b);
      } else {
        var next := CorrectedLocator(t, lambda, b, delta, q.b);
        if 2 * el <= r + nerased - 1 {
          SaveScaled(t, lambda, b, delta);
          el := r + nerased - el;
        } else {
          ShiftIndex(t, b, q.b);
        }
        CopyInto(next, lambda);
      }
      q := Advance(M, nerased, s, q, r - 1);
    }
  }

  /** The erasure locator is what a run may begin with. */
  lemma Start(erased: seq<nat>, nroots: nat, lam: Poly)
    requires Positions(erased, 255) && |erased| <= nroots && Padded(lam, Locator(M, Places(erased)), nroots + 1)
    ensures lam[0] == 1 && DegreeAtMost(lam, |erased|) && VanishesOn(M, ReciprocalPlaces(erased), lam)
  {
    hide Mul;
    hide Add;
    hide Eval;
    hide Exp;
    hide Locator;
    var xs, zs := Places(erased), ReciprocalPlaces(erased);
    PlacesReciprocal(erased);
    LocatorConstant(M, xs);
    assert lam[..|erased| + 1] == Locator(M, xs);
    forall k | 0 <= k < |zs|
      ensures Eval(M, lam, zs[k]) == 0
    {
      EvalTruncate(M, lam, |erased| + 1, zs[k]);
      LocatorRoot(M, xs, xs[k], zs[k]);
    }
  }

  // ----- Chien search

  /** The layer whose reciprocal place is alpha to the `i`. */
  function LayerOf(i: nat): nat
    requires i > 0
  {
    (PRIMTH * i - 1) % 255
  }

  lemma LayerReciprocal(i: nat)
    requires i > 0
    ensures Exp(M, i) == Reciprocal(LayerOf(i))
  {
    hide Exp;
    var l := LayerOf(i);
    var q := (PRIMTH * i - 1) / 255;
    assert l + 1 == PRIMTH * i - 255 * q;
    assert PRIM_ELEM * (l + 1) == i + 255 * (5 * i - PRIM_ELEM * q);
    SameResidue(PRIM_ELEM * (l + 1), i, 5 * i - PRIM_ELEM * q);
    ExpSame(PRIM_ELEM * (l + 1), i);
  }

  lemma SameResidue(a: nat, b: nat, q: int)
    requires a == b + 255 * q
    ensures a % 255 == b % 255
  {
    QuotientUnique(a, 255, b / 255 + q, b % 255);
  }

  /** Every layer is visited. */
  lemma LayerVisited(l: nat) returns (i: nat)
    requires l < 255
    ensures 1 <= i <= 255 && LayerOf(i) == l
  {
    var e := PRIM_ELEM * (l + 1);
    var q := (e - 1) / 255;
    i := e - 255 * q;
    assert 1 <= i <= 255;
    assert PRIMTH * i - 1 == (5 * (l + 1) - PRIMTH * q) * 255 + l;
    QuotientUnique(PRIMTH * i - 1, 255, 5 * (l + 1) - PRIMTH * q, l);
  }

  /** The Chien registers after `i` rounds: the terms of lambda at alpha^i, in index form. */
  ghost predicate Registers(t: Tables, lam: Poly, reg: seq<nat>, i: nat)
    requires |t.indexOf| == 256
  {
    |reg| == |lam| && forall j :: 1 <= j < |lam| ==> reg[j] == t.indexOf[EvalTerm(M, lam, Exp(M, i))(j)]
  }

  lemma IndexStep(t: Tables, v: byte, j: nat)
    requires IsTables(t) && v != 0
    ensures t.indexOf[Mul(M, v, Exp(M, j))] == (t.indexOf[v] + j) % 255
    ensures t.alphaTo[(t.indexOf[v] + j) % 255] == Mul(M, v, Exp(M, j))
  {
    hide Mul;
    hide Exp;
    hide Log;
    AlphaSum(t, v, j);
    AlphaAt(t, (t.indexOf[v] + j) % 255);
    LogUnique(M, (t.indexOf[v] + j) % 255);
  }

  lemma TermStep(lam: Poly, i: nat, j: nat)
    ensures EvalTerm(M, lam, Exp(M, i + 1))(j) == Mul(M, EvalTerm(M, lam, Exp(M, i))(j), Exp(M, j))
  {
    hide Mul;
    hide Pow;
    var g, z := Generator(M), Exp(M, i);
    PowNext(M, g, i);
    MulComm(M, g, z);
    PowMul(M, z, g, j);
    MulAssoc(M, At(lam, j), Pow(M, z, j), Pow(M, g, j));
  }

  lemma TermZero(lam: Poly, z: byte, j: nat)
    requires At(lam, j) == 0
    ensures EvalTerm(M, lam, z)(j) == 0
  {
    hide Mul;
    MulZero(M, Pow(M, z, j));
  }

  lemma EvalWithoutConstant(lam: Poly, z: byte, deg: nat)
    requires deg < |lam| && DegreeAtMost(lam, deg)
    ensures Eval(M, lam, z) == Add(lam[0], Sum(EvalTerm(M, lam, z), 1, deg + 1))
  {
    hide Mul;
    hide Add;
    hide Eval;
    var f := EvalTerm(M, lam, z);
    EvalSum(M, lam, z, |lam|);
    SumSplit(f, 0, deg + 1, |lam|);
    forall j | deg + 1 <= j < |lam|
      ensures f(j) == 0
    {
      TermZero(lam, z, j);
    }
    SumZero(f, deg + 1, |lam|);
    AddZero(Sum(f, 0, deg + 1));
    SumFirst(f, 0, deg + 1);
    PowZero(M, z);
    MulOne(M, lam[0]);
  }

  lemma SumEmpty(f: int -> byte, n: int)
    ensures Sum(f, n, n) == 0
  {
  }

  lemma Accumulate(f: int -> byte, j: int, hi: int, q: byte)
    requires j < hi && q == Add(1, Sum(f, j + 1, hi))
    ensures Add(q, f(j)) == Add(1, Sum(f, j, hi))
  {
    hide Add;
    var s := Sum(f, j + 1, hi);
    SumFirst(f, j, hi);
    AddComm(f(j), s);
    AddAssoc(1, s, f(j));
  }

  method Round(t: Tables, reg: array<nat>, deg: nat, ghost i: nat, ghost lam: Poly) returns (q: byte)
    requires IsTables(t) && deg < reg.Length && DegreeAtMost(lam, deg) && lam != [] && lam[0] == 1
    requires Registers(t, lam, reg[..], i)
    modifies reg
    ensures Registers(t, lam, reg[..], i + 1)
    ensures q == Eval(M, lam, Exp(M, i + 1))
  {
    hide Mul;
    hide Add;
    hide Exp;
    hide Log;
    hide EvalTerm;
    hide Eval;
    hide IsTables;
    hide Sum;
    TablesSize(t);
    SumEmpty(EvalTerm(M, lam, Exp(M, i + 1)), deg + 1);
    q := 1;
    var j := deg;
    ghost var old', new' := EvalTerm(M, lam, Exp(M, i)), EvalTerm(M, lam, Exp(M, i + 1));
    AddZero(1);
    forall k | deg < k < |lam|
      ensures old'(k) == new'(k) == 0
    {
      TermZero(lam, Exp(M, i), k);
      TermZero(lam, Exp(M, i + 1), k);
    }
    while j > 0
      invariant 0 <= j <= deg
      invariant q == Add(1, Sum(new', j + 1, deg + 1))
      invariant forall k :: 1 <= k <= j ==> reg[k] == t.indexOf[old'(k)]
      invariant forall k :: j < k < |lam| ==> reg[k] == t.indexOf[new'(k)]
    {
      ghost var v := old'(j);
      IndexBound(t, v);
      TermStep(lam, i, j);
      Accumulate(new', j, deg + 1, q);
      MulZero(M, Exp(M, j));
      AddZero(q);
      if reg[j] != 255 {
        IndexStep(t, v, j);
        reg[j] := (reg[j] + j) % 255;
        q := Add(q, t.alphaTo[reg[j]]);
      }
      j := j - 1;
    }
    EvalWithoutConstant(lam, Exp(M, i + 1), deg);
  }

  /** What the search has found after trying alpha^1 up to alpha^i. */
  ghost predicate Found(lam: Poly, roots: seq<nat>, locs: seq<nat>, i: nat)
  {
    && |roots| == |locs|
    && (forall k :: 0 <= k < |roots| ==> 1 <= roots[k] <= i && locs[k] == LayerOf(roots[k]))
    && (forall k :: 0 <= k < |roots| ==> Eval(M, lam, Exp(M, roots[k])) == 0)
    && (forall j, k :: 0 <= j < k < |roots| ==> roots[j] < roots[k])
  }

  method ChienSearch(t: Tables, li: seq<nat>, deg: nat, ghost lam: Poly) returns (roots: seq<nat>, locs: seq<nat>)
    requires IsTables(t) && IndexForm(t, lam, li) && deg < |lam| && DegreeAtMost(lam, deg) && lam[0] == 1
    ensures Found(lam, roots, locs, 255) && |roots| <= 255
    ensures |roots| == deg || forall i :: 1 <= i <= 255 && Eval(M, lam, Exp(M, i)) == 0 ==> i in roots
  {
    hide Mul;
    hide Add;
    hide Exp;
    hide Log;
    hide Eval;
    var reg := new nat[|li|](j requires 0 <= j < |li| => li[j]);
    forall j | 1 <= j < |lam|
      ensures EvalTerm(M, lam, Exp(M, 0))(j) == lam[j]
    {
      ExpZero(M);
      PowOne(M, j);
      MulOne(M, lam[j]);
    }
    hide EvalTerm;
    roots, locs := [], [];
    var k := PRIMTH - 1;
    for i := 1 to 256
      invariant Registers(t, lam, reg[..], i - 1)
      invariant k == LayerOf(i)
      invariant Found(lam, roots, locs, i - 1) && |roots| <= i - 1
      invariant forall j :: 1 <= j < i && Eval(M, lam, Exp(M, j)) == 0 ==> j in roots
    {
      var q := Round(t, reg, deg, i - 1, lam);
      if q == 0 {
        roots, locs := roots + [i], locs + [k];
        if |roots| == deg {
          return;
        }
      }
      LayerNext(i);
      k := (k + PRIMTH) % 255;
    }
  }

  lemma LayerNext(i: nat)
    requires i > 0
    ensures LayerOf(i + 1) == (LayerOf(i) + PRIMTH) % 255
  {
    var a := PRIMTH * i - 1;
    SameResidue(a + PRIMTH, LayerOf(i) + PRIMTH, a / 255);
  }

  // ----- evaluator and Forney's formula

  method Evaluator(t: Tables, si: seq<nat>, li: seq<nat>, deg: nat, ghost s: seq<byte>, ghost lam: Poly)
    returns (omega: seq<nat>, ghost ov: Poly)
    requires IsTables(t) && IndexForm(t, s, si) && IndexForm(t, lam, li) && deg <= |s| < |lam|
    ensures |ov| == deg && IndexForm(t, ov, omega)
    ensures forall i :: 0 <= i < deg ==> ov[i] == Conv(M, lam, s, i)
  {
    hide Mul;
    hide Add;
    hide Exp;
    hide Log;
    omega, ov := [], [];
    for i := 0 to deg
      invariant |ov| == i && IndexForm(t, ov, omega)
      invariant forall k :: 0 <= k < i ==> ov[k] == Conv(M, lam, s, k)
    {
      ghost var f := ConvTerm(M, lam, s, i);
      var tmp := 0;
      var j := i;
      while j >= 0
        invariant -1 <= j <= i
        invariant tmp == Sum(f, j + 1, i + 1)
      {
        IndexBound(t, s[i - j]);
        IndexBound(t, lam[j]);
        MulZero(M, lam[j]);
        MulZero(M, s[i - j]);
        AddZero(tmp);
        SumFirst(f, j, i + 1);
        AddComm(f(j), tmp);
        if si[i - j] != 255 && li[j] != 255 {
          AlphaProduct(t, lam[j], s[i - j]);
          tmp := Add(tmp, t.alphaTo[(si[i - j] + li[j]) % 255]);
        }
        j := j - 1;
      }
      omega, ov := omega + [t.indexOf[tmp]], ov + [tmp];
    }
  }

  lemma TermLookup(t: Tables, c: Poly, i: nat, k: nat, e: nat, root: nat)
    requires IsTables(t) && i < |c| && e == k * root
    ensures t.indexOf[c[i]] == 255 <==> c[i] == 0
    ensures c[i] != 0 ==> t.alphaTo[(t.indexOf[c[i]] + e) % 255] == Mul(M, c[i], Pow(M, Exp(M, root), k))
    ensures c[i] == 0 ==> Mul(M, c[i], Pow(M, Exp(M, root), k)) == 0
  {
    hide Mul;
    hide Log;
    hide Pow;
    IndexBound(t, c[i]);
    if c[i] != 0 {
      PowPow(M, Generator(M), root, k, e);
      AlphaSum(t, c[i], e);
    } else {
      MulZero(M, Pow(M, Exp(M, root), k));
    }
  }

  method Numerator(t: Tables, omega: seq<nat>, root: nat, ghost ov: Poly) returns (num: byte)
    requires IsTables(t) && IndexForm(t, ov, omega)
    ensures num == Eval(M, ov, Exp(M, root))
  {
    hide Mul;
    hide Add;
    hide Exp;
    hide Log;
    hide Pow;
    ghost var f := EvalTerm(M, ov, Exp(M, root));
    num := 0;
    var i := |omega| - 1;
    while i >= 0
      invariant -1 <= i < |omega|
      invariant num == Sum(f, i + 1, |omega|)
    {
      var e := i * root;
      TermLookup(t, ov, i, i, e, root);
      AddZero(num);
      SumFirst(f, i, |omega|);
      AddComm(f(i), num);
      if omega[i] != 255 {
        num := Add(num, t.alphaTo[(omega[i] + e) % 255]);
      }
      i := i - 1;
    }
    EvalSum(M, ov, Exp(M, root), |ov|);
  }

  function OddAt(m: byte, c: Poly, z: byte, k: nat): byte
  {
    Mul(m, At(c, 2 * k + 1), Pow(m, z, 2 * k))
  }

  function OddTerm(m: byte, c: Poly, z: byte): int -> byte
  {
    k => if k < 0 then 0 else OddAt(m, c, z, k)
  }

  /** The formal derivative: the odd coefficients at even powers. */
  method Denominator(t: Tables, li: seq<nat>, deg: nat, nroots: nat, root: nat, ghost lam: Poly) returns (den: byte)
    requires IsTables(t) && IndexForm(t, lam, li) && 0 < nroots == |lam| - 1
    ensures den == Sum(OddTerm(M, lam, Exp(M, root)), 0, (if deg < nroots - 1 then deg else nroots - 1) / 2 + 1)
  {
    hide Mul;
    hide Add;
    hide Exp;
    hide Log;
    hide Pow;
    ghost var f := OddTerm(M, lam, Exp(M, root));
    den := 0;
    var top := (if deg < nroots - 1 then deg else nroots - 1) / 2;
    var i := 2 * top;
    ghost var h := top;
    while i >= 0
      invariant -1 <= h <= top && i == 2 * h
      invariant den == Sum(f, h + 1, top + 1)
    {
      var e := i * root;
      TermLookup(t, lam, i + 1, i, e, root);
      AddZero(den);
      SumFirst(f, h, top + 1);
      AddComm(f(h), den);
      if li[i + 1] != 255 {
        den := Add(den, t.alphaTo[(li[i + 1] + e) % 255]);
      }
      i := i - 2;
      h := h - 1;
    }
  }

  lemma OddPair(m: byte, lam: Poly, q: Poly, x: byte, z: byte, k: nat)
    requires At(lam, 2 * k + 1) == At(MulLin(m, 1, x, q), 2 * k + 1) && Mul(m, x, z) == 1
    ensures OddTerm(m, lam, z)(k) == Mul(m, x, Add(EvalTerm(m, q, z)(2 * k), EvalTerm(m, q, z)(2 * k + 1)))
  {
    hide Mul;
    hide Add;
    hide MulLin;
    var p, a, b := Pow(m, z, 2 * k), At(q, 2 * k + 1), At(q, 2 * k);
    MulLinAt(m, 1, x, q, 2 * k + 1);
    MulOne(m, a);
    PowNext(m, z, 2 * k);
    MulAddRight(m, x, Mul(m, b, p), Mul(m, a, Mul(m, z, p)));
    MulTurn(m, x, a, Mul(m, z, p));
    MulAssoc(m, x, z, p);
    MulOne(m, p);
    MulAssoc(m, x, b, p);
    MulAddLeft(m, a, Mul(m, x, b), p);
    AddComm(Mul(m, a, p), Mul(m, Mul(m, x, b), p));
  }

  lemma {:induction false} OddSum(m: byte, lam: Poly, q: Poly, x: byte, z: byte, n: nat)
    requires forall k :: 0 <= k < n ==> At(lam, 2 * k + 1) == At(MulLin(m, 1, x, q), 2 * k + 1)
    requires Mul(m, x, z) == 1
    ensures Sum(OddTerm(m, lam, z), 0, n) == Mul(m, x, Sum(EvalTerm(m, q, z), 0, 2 * n))
  {
    hide Mul;
    hide Add;
    hide MulLin;
    hide OddTerm;
    hide EvalTerm;
    if n == 0 {
      MulZero(m, x);
    } else {
      var f := EvalTerm(m, q, z);
      OddSum(m, lam, q, x, z, n - 1);
      OddPair(m, lam, q, x, z, n - 1);
      assert Sum(f, 0, 2 * n) == Add(Add(Sum(f, 0, 2 * n - 2), f(2 * n - 2)), f(2 * n - 1));
      AddAssoc(Sum(f, 0, 2 * n - 2), f(2 * n - 2), f(2 * n - 1));
      MulAddRight(m, x, Sum(f, 0, 2 * n - 2), Add(f(2 * n - 2), f(2 * n - 1)));
    }
  }
}
