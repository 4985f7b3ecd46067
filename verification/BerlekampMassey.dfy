/** Why the Berlekamp-Massey extension of an erasure locator finds the errors as well. */
module BerlekampMassey {
  import opened Bits
  import opened Gf256
  import opened GfOrder
  import opened Poly
  import opened Sums
  import opened RsAlgebra

  /** Damage seen through its syndromes: values `ys` at places `xs`, of which the first `nu`
      are erasures (any value) and the rest are errors (nonzero value). */
  datatype Damage = Damage(ys: seq<byte>, xs: seq<byte>, zs: seq<byte>, nu: nat)

  /** The values that a polynomial `c` leaves of the damage. */
  function Filtered(m: Field, d: Damage, c: Poly): (r: seq<byte>)
    requires |d.ys| == |d.xs| == |d.zs|
    ensures |r| == |d.xs|
  {
    seq(|d.xs|, k requires 0 <= k < |d.xs| => Mul(m, d.ys[k], Eval(m, c, d.zs[k])))
  }

  ghost predicate DegreeAtMost(c: Poly, n: int)
  {
    forall j :: 0 <= j < |c| && n < j ==> c[j] == 0
  }

  /** The syndromes are the power sums of values at distinct places. */
  ghost predicate SumsOf(m: Field, d: Damage, s: seq<byte>)
  {
    && Reciprocals(m, d.xs, d.zs)
    && |d.ys| == |d.xs| && d.nu <= |d.xs|
    && (forall j :: 0 <= j < |s| ==> s[j] == Geo(m, d.ys, d.xs, j))
  }

  /** Damage within reach: its power sums are the syndromes, the errors among it are real, and there are
      two syndromes for each error and one for each erasure. */
  ghost predicate Seen(m: Field, d: Damage, s: seq<byte>)
  {
    SumsOf(m, d, s) && (forall k :: d.nu <= k < |d.ys| ==> d.ys[k] != 0) && 2 * |d.xs| <= |s| + d.nu
  }

  /** Past its degree, a polynomial's convolution with the syndromes is a power sum. */
  lemma ConvHigh(m: Field, d: Damage, s: seq<byte>, c: Poly, i: nat)
    requires SumsOf(m, d, s) && i < |s| && DegreeAtMost(c, i)
    ensures Conv(m, c, s, i) == Geo(m, Filtered(m, d, c), d.xs, i)
  {
    hide Mul;
    hide Add;
    hide Pow;
    hide Eval;
    hide Horner;
    assert forall j :: 0 <= j <= i ==> At(s, j) == Geo(m, d.ys, d.xs, j);
    hide Geo;
    ConvGeo(m, c, s, d.ys, d.xs, i);
    FilteredTerms(m, d, c, i);
  }

  lemma FilteredTerms(m: Field, d: Damage, c: Poly, i: nat)
    requires Reciprocals(m, d.xs, d.zs) && |d.ys| == |d.xs| && DegreeAtMost(c, i)
    ensures Sum(HornerTerm(m, d.ys, d.xs, c, i), 0, |d.xs|) == Geo(m, Filtered(m, d, c), d.xs, i)
  {
    hide Mul;
    hide Add;
    hide Pow;
    hide Eval;
    hide Horner;
    var us := Filtered(m, d, c);
    forall k | 0 <= k < |d.xs|
      ensures HornerTerm(m, d.ys, d.xs, c, i)(k) == GeoTerm(m, us, d.xs, i)(k)
    {
      var p, e := Pow(m, d.xs[k], i), Eval(m, c, d.zs[k]);
      HornerHigh(m, c, d.xs[k], d.zs[k], i);
      MulComm(m, p, e);
      MulAssoc(m, d.ys[k], e, p);
    }
    SumSame(HornerTerm(m, d.ys, d.xs, c, i), GeoTerm(m, us, d.xs, i), 0, |d.xs|);
  }

  ghost predicate VanishesOn(m: Field, zs: seq<byte>, c: Poly)
  {
    forall k :: 0 <= k < |zs| ==> Eval(m, c, zs[k]) == 0
  }

  lemma GeoTail(m: Field, ys: seq<byte>, xs: seq<byte>, nu: nat, i: nat)
    requires |ys| == |xs| && nu <= |xs|
    requires forall k :: 0 <= k < nu ==> ys[k] == 0
    ensures Geo(m, ys, xs, i) == Geo(m, ys[nu..], xs[nu..], i)
  {
    hide Mul;
    hide Add;
    hide Pow;
    var f, g := GeoTerm(m, ys, xs, i), GeoTerm(m, ys[nu..], xs[nu..], i);
    SumSplit(f, 0, nu, |xs|);
    forall k | 0 <= k < nu
      ensures f(k) == 0
    {
      MulZero(m, Pow(m, xs[k], i));
    }
    SumZero(f, 0, nu);
    AddZero(Sum(f, nu, |xs|));
    forall k | 0 <= k < |xs| - nu
      ensures g(k) == f(nu + k)
    {
    }
    SumShift(f, g, nu, |xs| - nu);
  }

  lemma {:induction false} SumShift(f: int -> byte, g: int -> byte, d: int, n: nat)
    requires forall k :: 0 <= k < n ==> g(k) == f(d + k)
    ensures Sum(f, d, d + n) == Sum(g, 0, n)
  {
    hide Add;
    if n > 0 {
      SumShift(f, g, d, n - 1);
    }
  }

  /** A polynomial that vanishes on the erasures and annihilates as many syndromes in a row as
      there are other damaged places leaves nothing of the damage. */
  lemma NothingLeft(m: Field, d: Damage, s: seq<byte>, c: Poly, from: nat)
    requires SumsOf(m, d, s) && DegreeAtMost(c, from) && VanishesOn(m, d.zs[..d.nu], c)
    requires from + |d.xs| - d.nu <= |s|
    requires forall i :: from <= i < from + |d.xs| - d.nu ==> Conv(m, c, s, i) == 0
    ensures IsZero(Filtered(m, d, c))
    ensures forall i :: from <= i < |s| ==> Conv(m, c, s, i) == 0
  {
    hide Mul;
    hide Eval;
    hide Geo;
    hide Conv;
    var us := Filtered(m, d, c);
    forall k | 0 <= k < d.nu
      ensures us[k] == 0
    {
      assert d.zs[..d.nu][k] == d.zs[k];
      MulZero(m, d.ys[k]);
    }
    forall i | from <= i < from + |d.xs| - d.nu
      ensures Geo(m, us[d.nu..], d.xs[d.nu..], i) == 0
    {
      ConvHigh(m, d, s, c, i);
      GeoTail(m, us, d.xs, d.nu, i);
    }
    VandermondeFrom(m, us[d.nu..], d.xs[d.nu..], d.zs[d.nu..], from);
    forall k | d.nu <= k < |d.xs|
      ensures us[k] == 0
    {
      assert us[d.nu..][k - d.nu] == us[k];
    }
    forall i | from <= i < |s|
      ensures Conv(m, c, s, i) == 0
    {
      ConvHigh(m, d, s, c, i);
      GeoZero(m, us, d.xs, i);
    }
  }

  lemma GeoZero(m: byte, ys: seq<byte>, xs: seq<byte>, i: nat)
    requires IsZero(ys)
    ensures Geo(m, ys, xs, i) == 0
  {
    hide Mul;
    hide Pow;
    forall k | 0 <= k < |xs|
      ensures GeoTerm(m, ys, xs, i)(k) == 0
    {
      MulZero(m, Pow(m, xs[k], i));
    }
    SumZero(GeoTerm(m, ys, xs, i), 0, |xs|);
  }

  // ----- the iteration on coefficient sequences of fixed length

  /** x b(x), dropping the top coefficient. */
  function Shift(b: Poly): (r: Poly)
    requires |b| > 0
    ensures |r| == |b|
  {
    [0] + b[..|b| - 1]
  }

  /** lambda(x) + delta x b(x). */
  function Corrected(m: byte, lam: Poly, b: Poly, delta: byte): (r: Poly)
    requires |lam| == |b| > 0
    ensures |r| == |lam|
  {
    AddP(lam, Scale(m, delta, Shift(b)))
  }

  /** The locator built so far, the polynomial saved for the next correction, and the register length. */
  datatype Register = Register(lam: Poly, b: Poly, el: nat)

  /** One round of the loop on syndrome `r`, with `nu` erasures. */
  ghost function Advance(m: Field, nu: nat, s: seq<byte>, q: Register, r: nat): (q': Register)
    requires |q.lam| == |q.b| > 0
    ensures |q'.lam| == |q'.b| == |q.lam|
  {
    var delta := Conv(m, q.lam, s, r);
    if delta == 0 then Register(q.lam, Shift(q.b), q.el)
    else if 2 * q.el <= r + nu then
      Register(Corrected(m, q.lam, q.b, delta), Scale(m, Inv(m, delta), q.lam), r + 1 + nu - q.el)
    else Register(Corrected(m, q.lam, q.b, delta), Shift(q.b), q.el)
  }

  /** The rounds on syndromes `nu` to `r`, begun from the erasure locator. */
  ghost function Run(m: Field, nu: nat, s: seq<byte>, lam: Poly, r: nat): (q: Register)
    requires |lam| > 0 && nu <= r
    ensures |q.lam| == |q.b| == |lam|
  {
    if r == nu then Register(lam, lam, nu) else Advance(m, nu, s, Run(m, nu, s, lam, r - 1), r - 1)
  }

  /** What the loop keeps after looking at the first `r` syndromes, whatever they are: the locator vanishes
      on the erasures `zs`, and annihilates the syndromes from the register length on. */
  ghost predicate Running(m: Field, zs: seq<byte>, s: seq<byte>, q: Register, r: nat)
  {
    && |q.lam| == |q.b| == |s| + 1
    && |zs| <= q.el <= r <= |s|
    && q.lam[0] == 1
    && DegreeAtMost(q.lam, q.el)
    && DegreeAtMost(q.b, r - q.el + |zs|)
    && VanishesOn(m, zs, q.lam)
    && VanishesOn(m, zs, q.b)
    && (forall j :: q.el <= j < r ==> Conv(m, q.lam, s, j) == 0)
    && (q.el == |zs| || Auxiliary(m, s, q.b, r - q.el + |zs|, r))
  }

  /** The saved polynomial misses the last syndrome by exactly one. */
  ghost predicate Auxiliary(m: Field, s: seq<byte>, b: Poly, lo: int, r: nat)
  {
    && (forall j :: lo <= j < r - 1 ==> Conv(m, b, s, j) == 0)
    && Conv(m, b, s, r - 1) == 1
  }

  lemma ConvShift(m: byte, b: Poly, s: seq<byte>, i: nat)
    requires |b| > i
    ensures Conv(m, Shift(b), s, i) == if i == 0 then 0 else Conv(m, b, s, i - 1)
  {
    hide Mul;
    hide Add;
    var f, g := ConvTerm(m, Shift(b), s, i), ConvTerm(m, b, s, i - 1);
    SumFirst(f, 0, i + 1);
    MulZero(m, At(s, i));
    AddZero(Sum(f, 1, i + 1));
    SumShift(f, g, 1, i);
  }

  lemma ConvCorrected(m: byte, lam: Poly, b: Poly, delta: byte, s: seq<byte>, i: nat)
    requires |lam| == |b| > i
    ensures Conv(m, Corrected(m, lam, b, delta), s, i)
      == Add(Conv(m, lam, s, i), Mul(m, delta, Conv(m, Shift(b), s, i)))
  {
    hide Mul;
    hide Add;
    var sc := Scale(m, delta, Shift(b));
    forall j | 0 <= j < i + 1
      ensures ConvTerm(m, sc, s, i)(j) == Mul(m, delta, ConvTerm(m, Shift(b), s, i)(j))
      ensures ConvTerm(m, Corrected(m, lam, b, delta), s, i)(j)
        == Add(ConvTerm(m, lam, s, i)(j), ConvTerm(m, sc, s, i)(j))
    {
      MulAssoc(m, delta, At(Shift(b), j), At(s, i - j));
      MulAddLeft(m, At(lam, j), At(sc, j), At(s, i - j));
    }
    SumScale(m, delta, ConvTerm(m, Shift(b), s, i), ConvTerm(m, sc, s, i), 0, i + 1);
    SumAdd(ConvTerm(m, lam, s, i), ConvTerm(m, sc, s, i), ConvTerm(m, Corrected(m, lam, b, delta), s, i), 0, i + 1);
  }

  lemma ConvScale(m: byte, a: byte, c: Poly, s: seq<byte>, i: nat)
    ensures Conv(m, Scale(m, a, c), s, i) == Mul(m, a, Conv(m, c, s, i))
  {
    hide Mul;
    hide Add;
    forall j | 0 <= j < i + 1
      ensures ConvTerm(m, Scale(m, a, c), s, i)(j) == Mul(m, a, ConvTerm(m, c, s, i)(j))
    {
      MulZero(m, a);
      MulZero(m, At(s, i - j));
      MulAssoc(m, a, At(c, j), At(s, i - j));
    }
    SumScale(m, a, ConvTerm(m, c, s, i), ConvTerm(m, Scale(m, a, c), s, i), 0, i + 1);
  }

  lemma EvalShifted(m: Field, b: Poly, z: byte)
    requires |b| > 0 && b[|b| - 1] == 0
    ensures Eval(m, Shift(b), z) == Mul(m, z, Eval(m, b, z))
  {
    hide Mul;
    hide Add;
    var t := b[..|b| - 1];
    assert b == t + [0];
    EvalPad(m, t, z);
    assert Shift(b)[1..] == t;
    AddZero(Mul(m, z, Eval(m, t, z)));
  }

  lemma ShiftKeeps(m: Field, zs: seq<byte>, s: seq<byte>, b: Poly, lo: nat, r: nat)
    requires |b| == |s| + 1 && lo <= r < |s|
    requires DegreeAtMost(b, lo) && VanishesOn(m, zs, b)
    ensures DegreeAtMost(Shift(b), lo + 1) && VanishesOn(m, zs, Shift(b))
    ensures Auxiliary(m, s, b, lo, r) && r > 0 ==> Auxiliary(m, s, Shift(b), lo + 1, r + 1)
  {
    hide Mul;
    hide Add;
    hide Eval;
    hide Conv;
    forall k | 0 <= k < |zs|
      ensures Eval(m, Shift(b), zs[k]) == 0
    {
      EvalShifted(m, b, zs[k]);
      MulZero(m, zs[k]);
    }
    forall j | 0 < j < |b|
      ensures Conv(m, Shift(b), s, j) == Conv(m, b, s, j - 1)
    {
      ConvShift(m, b, s, j);
    }
  }

  lemma StepZero(m: Field, zs: seq<byte>, s: seq<byte>, q: Register, r: nat)
    requires Running(m, zs, s, q, r) && r < |s|
    requires Conv(m, q.lam, s, r) == 0
    ensures Running(m, zs, s, Advance(m, |zs|, s, q, r), r + 1)
  {
    hide Mul;
    hide Add;
    hide Eval;
    hide Conv;
    hide Shift;
    hide Corrected;
    ShiftKeeps(m, zs, s, q.b, r - q.el + |zs|, r);
  }

  /** The corrected locator, whatever becomes of the saved polynomial. */
  lemma CorrectedKeeps(m: Field, zs: seq<byte>, s: seq<byte>, q: Register, r: nat, delta: byte, el': nat)
    requires Running(m, zs, s, q, r) && r < |s|
    requires delta == Conv(m, q.lam, s, r)
    requires el' >= q.el && el' >= r + 1 - q.el + |zs|
    requires q.el == |zs| ==> el' == r + 1
    ensures var lam' := Corrected(m, q.lam, q.b, delta);
      && lam'[0] == 1 && DegreeAtMost(lam', el') && VanishesOn(m, zs, lam')
      && forall j :: el' <= j < r + 1 ==> Conv(m, lam', s, j) == 0
  {
    hide Mul;
    hide Add;
    hide Eval;
    hide Conv;
    var lam', xb := Corrected(m, q.lam, q.b, delta), Shift(q.b);
    ShiftKeeps(m, zs, s, q.b, r - q.el + |zs|, r);
    MulZero(m, delta);
    AddZero(0);
    AddZero(1);
    forall k | 0 <= k < |zs|
      ensures Eval(m, lam', zs[k]) == 0
    {
      EvalAdd(m, q.lam, Scale(m, delta, xb), zs[k]);
      EvalScale(m, delta, xb, zs[k]);
    }
    forall j | el' <= j < r + 1
      ensures Conv(m, lam', s, j) == 0
    {
      ConvCorrected(m, q.lam, q.b, delta, s, j);
      MulOne(m, delta);
      AddSelf(delta);
    }
  }

  lemma StepKeepLength(m: Field, zs: seq<byte>, s: seq<byte>, q: Register, r: nat)
    requires Running(m, zs, s, q, r) && r < |s|
    requires Conv(m, q.lam, s, r) != 0 && 2 * q.el > r + |zs|
    ensures Running(m, zs, s, Advance(m, |zs|, s, q, r), r + 1)
  {
    hide Mul;
    hide Add;
    hide Eval;
    hide Conv;
    hide Corrected;
    hide Shift;
    ShiftKeeps(m, zs, s, q.b, r - q.el + |zs|, r);
    CorrectedKeeps(m, zs, s, q, r, Conv(m, q.lam, s, r), q.el);
  }

  lemma StepGrow(m: Field, zs: seq<byte>, s: seq<byte>, q: Register, r: nat)
    requires Running(m, zs, s, q, r) && r < |s|
    requires Conv(m, q.lam, s, r) != 0 && 2 * q.el <= r + |zs|
    ensures Running(m, zs, s, Advance(m, |zs|, s, q, r), r + 1)
  {
    hide Mul;
    hide Add;
    hide Eval;
    hide Conv;
    hide Corrected;
    hide Inv;
    var delta := Conv(m, q.lam, s, r);
    var inv := Inv(m, delta);
    CorrectedKeeps(m, zs, s, q, r, delta, r + 1 + |zs| - q.el);
    var b' := Scale(m, inv, q.lam);
    MulZero(m, inv);
    MulComm(m, inv, delta);
    forall k | 0 <= k < |zs|
      ensures Eval(m, b', zs[k]) == 0
    {
      EvalScale(m, inv, q.lam, zs[k]);
    }
    forall j | q.el <= j < r + 1
      ensures Conv(m, b', s, j) == if j == r then 1 else 0
    {
      ConvScale(m, inv, q.lam, s, j);
    }
  }

  /** Every run keeps the invariant, for any syndromes. */
  lemma {:induction false} RunKeeps(m: Field, zs: seq<byte>, s: seq<byte>, lam: Poly, r: nat)
    requires |zs| <= r <= |s| && |lam| == |s| + 1 && lam[0] == 1
    requires DegreeAtMost(lam, |zs|) && VanishesOn(m, zs, lam)
    ensures Running(m, zs, s, Run(m, |zs|, s, lam, r), r)
  {
    hide Eval;
    hide Conv;
    hide Advance;
    if r > |zs| {
      hide Running;
      RunKeeps(m, zs, s, lam, r - 1);
      var q := Run(m, |zs|, s, lam, r - 1);
      if Conv(m, q.lam, s, r - 1) == 0 {
        StepZero(m, zs, s, q, r - 1);
      } else if 2 * q.el <= r - 1 + |zs| {
        StepGrow(m, zs, s, q, r - 1);
      } else {
        StepKeepLength(m, zs, s, q, r - 1);
      }
    }
  }

  /** If the syndromes are the power sums of damage that includes the erasures, the register is never longer
      than there are damaged places. */
  lemma ShortestRegister(m: Field, d: Damage, s: seq<byte>, q: Register)
    requires SumsOf(m, d, s) && |d.xs| <= |s| && Running(m, d.zs[..d.nu], s, q, |s|)
    ensures q.el <= |d.xs|
  {
    hide Mul;
    hide Eval;
    hide Conv;
    hide Geo;
    if q.el > |d.xs| {
      NothingLeft(m, d, s, q.b, |s| - q.el + d.nu);
    }
  }

  /** When all syndromes are used, the polynomial is the locator of all the damage within reach. */
  lemma Finished(m: Field, d: Damage, s: seq<byte>, q: Register)
    requires Seen(m, d, s) && Running(m, d.zs[..d.nu], s, q, |s|)
    ensures forall i :: 0 <= i < |q.lam| ==> q.lam[i] == At(Locator(m, d.xs), i)
    ensures |d.xs| <= |s|
  {
    hide Mul;
    hide Add;
    hide Eval;
    hide Conv;
    hide Geo;
    var n := |d.xs|;
    ShortestRegister(m, d, s, q);
    NothingLeft(m, d, s, q.lam, q.el);
    DamageVanishes(m, d, q.lam);
    var full := Locator(m, d.xs);
    var top := q.lam[..n + 1];
    forall k | 0 <= k < n
      ensures Eval(m, top, d.zs[k]) == 0 && Eval(m, full, d.zs[k]) == 0
    {
      EvalTruncate(m, q.lam, n + 1, d.zs[k]);
      LocatorRoot(m, d.xs, d.xs[k], d.zs[k]);
    }
    LocatorConstant(m, d.xs);
    SameRoots(m, top, full, d.xs, d.zs);
  }

  /** A polynomial that leaves nothing of the damage vanishes on all of it. */
  lemma DamageVanishes(m: Field, d: Damage, c: Poly)
    requires |d.ys| == |d.xs| == |d.zs| && d.nu <= |d.xs|
    requires IsZero(Filtered(m, d, c)) && VanishesOn(m, d.zs[..d.nu], c)
    requires forall k :: d.nu <= k < |d.ys| ==> d.ys[k] != 0
    ensures forall k :: 0 <= k < |d.xs| ==> Eval(m, c, d.zs[k]) == 0
  {
    hide Mul;
    hide Eval;
    forall k | 0 <= k < |d.xs|
      ensures Eval(m, c, d.zs[k]) == 0
    {
      if k < d.nu {
        assert d.zs[..d.nu][k] == d.zs[k];
      } else {
        assert Filtered(m, d, c)[k] == 0;
        NoZeroDivisors(m, d.ys[k], Eval(m, c, d.zs[k]));
      }
    }
  }

  lemma {:induction false} EvalTruncate(m: byte, c: Poly, n: nat, z: byte)
    requires n <= |c| && forall j :: n <= j < |c| ==> c[j] == 0
    ensures Eval(m, c[..n], z) == Eval(m, c, z)
  {
    hide Mul;
    hide Add;
    if n == 0 {
      EvalZero(m, c, z);
    } else {
      assert c[..n][1..] == c[1..][..n - 1];
      EvalTruncate(m, c[1..], n - 1, z);
    }
  }

  lemma EvalAtZero(m: byte, c: Poly)
    requires |c| > 0
    ensures Eval(m, c, 0) == c[0]
  {
    hide Mul;
    hide Add;
    MulZero(m, Eval(m, c[1..], 0));
    AddZero(c[0]);
  }

  /** Polynomials of degree n with the same n nonzero roots and the same constant are equal. */
  lemma SameRoots(m: Field, c: Poly, f: Poly, xs: seq<byte>, zs: seq<byte>)
    requires Reciprocals(m, xs, zs) && |c| == |f| == |xs| + 1 && c[0] == f[0]
    requires forall k :: 0 <= k < |xs| ==> Eval(m, c, zs[k]) == 0 == Eval(m, f, zs[k])
    ensures c == f
  {
    hide Mul;
    hide Add;
    hide Eval;
    var d := AddP(c, f);
    var all := [0] + zs;
    ReciprocalsDistinct(m, xs, zs);
    forall i | 0 <= i < |all|
      ensures Eval(m, d, all[i]) == 0
    {
      EvalAdd(m, c, f, all[i]);
      EvalAtZero(m, c);
      EvalAtZero(m, f);
      AddSelf(c[0]);
      AddZero(0);
    }
    TooManyRoots(m, d, all);
    forall i | 0 <= i < |c|
      ensures c[i] == f[i]
    {
      assert d[i] == 0;
      AddCancel(c[i], f[i]);
    }
  }
}
