/** The mnemonic checksum as a Reed-Solomon code: the state is the remainder modulo the polynomial with the roots
    x, x^2 and x^3 in GF(1024), so any three wrong words among up to 1023 are found. */
module Rs1024Distance {
  import opened Bits
  import opened Rs1024
  import opened Gf1024

  // ----- the state as three elements

  function Triple(c2: elem, c1: elem, c0: elem): (s: state)
  {
    c2 * 0x10_0000 + c1 * 1024 + c0
  }

  lemma XorPair(h: nat, a: elem, k: nat, b: elem)
    ensures Xor(h * 1024 + a, k * 1024 + b) == Xor(h, k) * 1024 + Add(a, b)
  {
    hide Xor;
    hide High;
    hide Low;
    hide Pow2;
    PowTen();
    var x, y := h * 1024 + a, k * 1024 + b;
    XorSplit(x, y, 10);
    HighLow(x, 10);
    HighLow(y, 10);
    HighLow(Xor(x, y), 10);
    QuotientUnique(x, 1024, h, a);
    QuotientUnique(y, 1024, k, b);
  }

  lemma XorTriple(a2: elem, a1: elem, a0: elem, b2: elem, b1: elem, b0: elem)
    ensures Xor(Triple(a2, a1, a0), Triple(b2, b1, b0)) == Triple(Add(a2, b2), Add(a1, b1), Add(a0, b0))
  {
    hide Add;
    XorPair(a2 * 1024 + a1, a0, b2 * 1024 + b1, b0);
    XorPair(a2, a1, b2, b1);
    SameAdd(a2, b2);
  }

  lemma SameAdd(a: elem, b: elem)
    ensures Xor(a, b) == Add(a, b)
  {
  }

  // ----- the generators are the multiples of one triple

  function Shifted(x: elem, i: nat): elem
  {
    if i == 0 then x else XTime(Shifted(x, i - 1))
  }

  lemma XTimeIs(b: elem)
    ensures XTime(b)
      == if b < 512 then 2 * b else if b / 4 % 2 == 0 then 2 * (b - 512) + 9 else 2 * (b - 512) - 7
  {
    hide Add;
    if b < 512 {
      XTimeSmall(b);
    } else {
      var c: elem := b - 512;
      assert b % 512 == c && b / 4 == c / 4 + 128;
      NineBits(c);
    }
  }

  lemma NineBits(c: elem)
    requires c < 512
    ensures Add(2 * c, 9) == if c / 4 % 2 == 0 then 2 * c + 9 else 2 * c - 7
  {
    hide Xor;
    XorHalf(2 * c, 9);
    XorHalf(c, 4);
    XorHalf(c / 2, 2);
    XorHalf(c / 2 / 2, 1);
    XorZero(c / 2 / 2 / 2);
  }

  lemma Shifts(x: elem, i: nat)
    requires (x == 14 || x == 56 || x == 64) && i < 10
    ensures x == 14 ==> Shifted(x, i) == [14, 28, 56, 112, 224, 448, 896, 777, 539, 63][i]
    ensures x == 56 ==> Shifted(x, i) == [56, 112, 224, 448, 896, 777, 539, 63, 126, 252][i]
    ensures x == 64 ==> Shifted(x, i) == [64, 128, 256, 512, 9, 18, 36, 72, 144, 288][i]
  {
    hide XTime;
    if i > 0 {
      Shifts(x, i - 1);
      XTimeIs(Shifted(x, i - 1));
    }
  }

  /** Generator `i` is x^i times the three elements 14, 56 and 64. */
  lemma GenTriple(i: nat)
    requires i < 10
    ensures Gen[i] == Triple(Shifted(14, i), Shifted(56, i), Shifted(64, i))
  {
    hide Shifted;
    Shifts(14, i);
    Shifts(56, i);
    Shifts(64, i);
  }

  /** The multiples of `y` selected by the lowest `n` bits of `a`. */
  function Selected(a: nat, y: elem, n: nat): elem
  {
    if n == 0 then 0 else Add(Selected(a, y, n - 1), if Bit(a, n - 1) then Shifted(y, n - 1) else 0)
  }

  lemma {:induction false} FoldTriple(b: nat, n: nat)
    requires n <= 10
    ensures Fold(b, n) == Triple(Selected(b, 14, n), Selected(b, 56, n), Selected(b, 64, n))
  {
    hide Xor;
    hide Add;
    hide Bit;
    hide Shifted;
    if n > 0 {
      FoldTriple(b, n - 1);
      GenTriple(n - 1);
      if Bit(b, n - 1) {
        XorTriple(Selected(b, 14, n - 1), Selected(b, 56, n - 1), Selected(b, 64, n - 1),
                  Shifted(14, n - 1), Shifted(56, n - 1), Shifted(64, n - 1));
      } else {
        XorTriple(Selected(b, 14, n - 1), Selected(b, 56, n - 1), Selected(b, 64, n - 1), 0, 0, 0);
      }
    }
  }

  lemma HighNext(a: nat, n: nat)
    ensures High(a, n) <= a && High(a, n + 1) == High(a, n) / 2
    decreases n
  {
    if n > 0 {
      HighNext(a / 2, n - 1);
    }
  }

  lemma {:induction false} MulSelected(a: elem, y: elem, n: nat)
    ensures High(a, n) <= a && Mul(a, y) == Add(Selected(a, y, n), Mul(High(a, n), Shifted(y, n)))
  {
    hide Add;
    hide XTime;
    hide High;
    HighNext(a, n);
    if n == 0 {
      HighNone(a);
      AddZero(Mul(a, y));
    } else {
      var h, x := High(a, n - 1), Shifted(y, n - 1);
      MulSelected(a, y, n - 1);
      HighNext(a, n - 1);
      var low := if h % 2 == 1 then x else 0;
      if h == 0 {
        AddZero(0);
      }
      assert Mul(h, x) == Add(low, Mul(h / 2, XTime(x)));
      AddAssoc(Selected(a, y, n - 1), low, Mul(h / 2, XTime(x)));
    }
  }

  lemma HighNone(a: nat)
    ensures High(a, 0) == a
  {
  }

  lemma FoldIs(b: elem)
    ensures Fold(b, 10) == Triple(Mul(b, 14), Mul(b, 56), Mul(b, 64))
  {
    hide Mul;
    hide Add;
    hide High;
    hide Fold;
    hide Selected;
    hide Shifted;
    FoldTriple(b, 10);
    PowTen();
    HighLow(b, 10);
    WholeProduct(b, 14);
    WholeProduct(b, 56);
    WholeProduct(b, 64);
  }

  lemma WholeProduct(b: elem, y: elem)
    requires High(b, 10) == 0
    ensures Mul(b, y) == Selected(b, y, 10)
  {
    hide Mul;
    hide Add;
    hide High;
    hide Selected;
    MulSelected(b, y, 10);
    MulZero(Shifted(y, 10));
    AddZero(Selected(b, y, 10));
  }

  lemma StepTriple(c2: elem, c1: elem, c0: elem, v: word)
    ensures Step(Triple(c2, c1, c0), v) == Triple(Add(c1, Mul(c2, 14)), Add(c0, Mul(c2, 56)), Add(v, Mul(c2, 64)))
  {
    hide Xor;
    hide Add;
    hide Mul;
    hide Fold;
    hide High;
    hide Low;
    hide Pow2;
    Pow2At30();
    var s := Triple(c2, c1, c0);
    HighLow(s, 20);
    QuotientUnique(s, 0x10_0000, c2, c1 * 1024 + c0);
    FoldIs(c2);
    AppendWord(c1 * 1024 + c0, v);
    XorTriple(c1, c0, v, Mul(c2, 14), Mul(c2, 56), Mul(c2, 64));
  }

  lemma AppendWord(x: nat, v: word)
    ensures Xor(x * 1024, v) == x * 1024 + v
  {
    hide Xor;
    hide Pow2;
    PowTen();
    XorDisjoint(x, v, 10);
  }

  // ----- the state at a root of the generator polynomial

  /** `r` is a root of z^3 + 14 z^2 + 56 z + 64. */
  ghost predicate IsRoot(r: elem)
  {
    Mul(r, Mul(r, r)) == Add(Mul(14, Mul(r, r)), Add(Mul(56, r), 64))
  }

  /** The polynomial is (z + x)(z + x^2)(z + x^3). */
  lemma Roots()
    ensures IsRoot(Exp(1)) && IsRoot(Exp(2)) && IsRoot(Exp(3))
  {
    hide Exp;
    hide Mul;
    SmallPowers();
    RootAt(1);
    RootAt(2);
    RootAt(3);
  }

  lemma RootAt(j: nat)
    requires 1 <= j <= 3
    ensures IsRoot(Exp(j))
  {
    hide Exp;
    hide Mul;
    hide Add;
    var r := Exp(j);
    var q := Mul(r, r);
    SmallPowers();
    ExpAdd(j, j);
    ExpAdd(j, 2 * j);
    assert q == Exp(2 * j) && Mul(r, q) == Exp(3 * j);
    Fourteen(q, 2 * j);
    FiftySix(r, j);
    RootSum(j);
  }

  lemma Fourteen(q: elem, n: nat)
    requires q == Exp(n)
    ensures Mul(14, q) == Add(Exp(n + 1), Add(Exp(n + 2), Exp(n + 3)))
  {
    hide Exp;
    hide Mul;
    hide Add;
    SmallPowers();
    FourteenIs();
    MulAddLeft(2, Add(4, 8), q);
    MulAddLeft(4, 8, q);
    ExpAdd(1, n);
    ExpAdd(2, n);
    ExpAdd(3, n);
  }

  lemma FourteenIs()
    ensures Add(2, Add(4, 8)) == 14
  {
    hide Add;
    ValPlus(Ten(0, 0, 0, 0, 0, 0, 0, 1, 0, 0), Ten(0, 0, 0, 0, 0, 0, 1, 0, 0, 0));
    ValPlus(Ten(0, 0, 0, 0, 0, 0, 0, 0, 1, 0), Ten(0, 0, 0, 0, 0, 0, 1, 1, 0, 0));
  }

  lemma FiftySixIs()
    ensures Add(8, Add(16, 32)) == 56
  {
    hide Add;
    ValPlus(Ten(0, 0, 0, 0, 0, 1, 0, 0, 0, 0), Ten(0, 0, 0, 0, 1, 0, 0, 0, 0, 0));
    ValPlus(Ten(0, 0, 0, 0, 0, 0, 1, 0, 0, 0), Ten(0, 0, 0, 0, 1, 1, 0, 0, 0, 0));
  }

  lemma FiftySix(q: elem, n: nat)
    requires q == Exp(n)
    ensures Mul(56, q) == Add(Exp(n + 3), Add(Exp(n + 4), Exp(n + 5)))
  {
    hide Exp;
    hide Mul;
    hide Add;
    SmallPowers();
    FiftySixIs();
    MulAddLeft(8, Add(16, 32), q);
    MulAddLeft(16, 32, q);
    ExpAdd(3, n);
    ExpAdd(4, n);
    ExpAdd(5, n);
  }

  /** In x^(2j+1) + x^(2j+2) + x^(2j+3) + x^(j+3) + x^(j+4) + x^(j+5) + x^6 all terms but x^(3j) cancel. */
  lemma RootSum(j: nat)
    requires 1 <= j <= 3
    ensures Add(Add(Exp(2 * j + 1), Add(Exp(2 * j + 2), Exp(2 * j + 3))),
                Add(Add(Exp(j + 3), Add(Exp(j + 4), Exp(j + 5))), 64)) == Exp(3 * j)
  {
    hide Exp;
    hide Mul;
    hide Add;
    SmallPowers();
    if j == 1 {
      Cancel(Exp(3), Exp(4), Exp(5), Exp(6), 64);
    } else if j == 2 {
      AddSelf(Add(Exp(5), Add(Exp(6), Exp(7))));
      Cancel2(Add(Exp(5), Add(Exp(6), Exp(7))), 64);
    } else {
      Cancel3(Exp(7), Exp(8), Exp(9), Exp(6));
    }
  }

  lemma Cancel(a: elem, b: elem, c: elem, d: elem, e: elem)
    requires d == e
    ensures Add(Add(a, Add(b, c)), Add(Add(b, Add(c, d)), e)) == a
  {
    hide Add;
    AddAssoc(b, c, d);
    AddCancel(Add(b, c), d);
    AddCancel(a, Add(b, c));
  }

  lemma Cancel2(a: elem, e: elem)
    ensures Add(a, Add(a, e)) == e
  {
    AddCancel(e, a);
  }

  lemma Cancel3(a: elem, b: elem, c: elem, d: elem)
    ensures Add(Add(a, Add(b, c)), Add(Add(d, Add(a, b)), d)) == c
  {
    hide Add;
    AddComm(d, Add(a, b));
    AddCancel(Add(a, b), d);
    AddAssoc(a, b, c);
    AddComm(Add(Add(a, b), c), Add(a, b));
    AddCancel(c, Add(a, b));
  }

  /** The remainder a state stands for, at the point `r`. */
  function At(s: state, r: elem): elem
  {
    Add(Mul(Add(Mul(s / 0x10_0000, r), s / 1024 % 1024), r), s % 1024)
  }

  lemma TripleParts(c2: elem, c1: elem, c0: elem)
    ensures var s := Triple(c2, c1, c0); s / 0x10_0000 == c2 && s / 1024 % 1024 == c1 && s % 1024 == c0
  {
    var s := Triple(c2, c1, c0);
    QuotientUnique(s, 0x10_0000, c2, c1 * 1024 + c0);
    QuotientUnique(s, 1024, c2 * 1024 + c1, c0);
    QuotientUnique(c2 * 1024 + c1, 1024, c2, c1);
  }

  /** One step multiplies the value at a root by the root and adds the word. */
  lemma StepAt(s: state, v: word, r: elem)
    requires IsRoot(r)
    ensures Step(s, v) < 0x4000_0000 && At(Step(s, v), r) == Add(Mul(At(s, r), r), v)
  {
    hide Add;
    hide Mul;
    hide Step;
    hide IsRoot;
    var a, b, c: elem := s / 0x10_0000, s / 1024 % 1024, s % 1024;
    assert s == Triple(a, b, c);
    StepTriple(a, b, c, v);
    StepBound(s, v);
    TripleParts(Add(b, Mul(a, 14)), Add(c, Mul(a, 56)), Add(v, Mul(a, 64)));
    RootAlgebra(a, b, c, v, r);
  }

  lemma RootAlgebra(a: elem, b: elem, c: elem, v: elem, r: elem)
    requires IsRoot(r)
    ensures Add(Mul(Add(Mul(Add(b, Mul(a, 14)), r), Add(c, Mul(a, 56))), r), Add(v, Mul(a, 64)))
         == Add(Mul(Add(Mul(Add(Mul(a, r), b), r), c), r), v)
  {
    hide Add;
    hide Mul;
    var q := Mul(r, r);
    var p, u, t, w, z := Mul(b, q), Mul(Mul(a, 14), q), Mul(c, r), Mul(Mul(a, 56), r), Mul(a, 64);
    // the left side is (p + u) + (t + w) + (v + z)
    MulAddLeft(b, Mul(a, 14), r);
    MulAddLeft(Add(Mul(b, r), Mul(Mul(a, 14), r)), Add(c, Mul(a, 56)), r);
    MulAddLeft(Mul(b, r), Mul(Mul(a, 14), r), r);
    MulAddLeft(c, Mul(a, 56), r);
    MulAssoc(b, r, r);
    MulAssoc(Mul(a, 14), r, r);
    // the right side is ((a r^3 + p) + t) + v, and a r^3 is u + (w + z)
    MulAddLeft(Mul(a, r), b, r);
    MulAssoc(a, r, r);
    MulAddLeft(Add(Mul(a, q), Mul(b, r)), c, r);
    MulAddLeft(Mul(a, q), Mul(b, r), r);
    MulAssoc(a, q, r);
    MulComm(q, r);
    MulAddRight(a, Mul(14, q), Add(Mul(56, r), 64));
    MulAddRight(a, Mul(56, r), 64);
    MulAssoc(a, 14, q);
    MulAssoc(a, 56, r);
    SixTerms(p, u, t, w, v, z);
  }

  lemma SixTerms(p: elem, u: elem, t: elem, w: elem, v: elem, z: elem)
    ensures Add(Add(Add(p, u), Add(t, w)), Add(v, z)) == Add(Add(Add(Add(u, Add(w, z)), p), t), v)
  {
    hide Add;
    AddSwap(p, u, t, w);
    AddSwap(Add(p, t), Add(u, w), v, z);
    AddAssoc(u, w, z);
    var x := Add(u, Add(w, z));
    AddComm(Add(Add(p, t), v), x);
    AddAssoc(x, Add(p, t), v);
    AddAssoc(x, p, t);
  }

  // ----- words as the coefficients of a polynomial

  /** Horner's rule over the words, begun with `c`. */
  function Horner(c: elem, ws: seq<word>, r: elem): elem
  {
    if |ws| == 0 then c else Add(Mul(Horner(c, ws[..|ws| - 1], r), r), ws[|ws| - 1])
  }

  /** The final state at a root is the polynomial of the words there. */
  lemma {:induction false} RunAt(s: state, ws: seq<word>, r: elem)
    requires IsRoot(r)
    ensures Run(s, ws) < 0x4000_0000 && At(Run(s, ws), r) == Horner(At(s, r), ws, r)
  {
    hide Step;
    hide At;
    hide Add;
    hide Mul;
    hide IsRoot;
    if |ws| > 0 {
      var n := |ws| - 1;
      RunAt(s, ws[..n], r);
      StepAt(Run(s, ws[..n]), ws[n], r);
    }
  }

  function Difference(a: seq<word>, b: seq<word>): (d: seq<word>)
    requires |a| == |b|
    ensures |d| == |a|
  {
    seq(|a|, i requires 0 <= i < |a| => Add(a[i], b[i]))
  }

  lemma {:induction false} HornerDifference(c: elem, a: seq<word>, b: seq<word>, r: elem)
    requires |a| == |b|
    ensures Add(Horner(c, a, r), Horner(c, b, r)) == Horner(0, Difference(a, b), r)
  {
    hide Add;
    hide Mul;
    if |a| == 0 {
      AddSelf(c);
    } else {
      var n := |a| - 1;
      var x, y := Horner(c, a[..n], r), Horner(c, b[..n], r);
      HornerDifference(c, a[..n], b[..n], r);
      assert Difference(a, b)[..n] == Difference(a[..n], b[..n]);
      AddSwap(Mul(x, r), a[n], Mul(y, r), b[n]);
      MulAddLeft(x, y, r);
    }
  }

  function Power(r: elem, e: nat): elem
  {
    if e == 0 then 1 else Mul(Power(r, e - 1), r)
  }

  /** Taking one word out takes one term away. */
  lemma {:induction false} HornerWithout(d: seq<word>, i: nat, r: elem)
    requires i < |d|
    ensures Horner(0, d, r) == Add(Horner(0, d[i := 0], r), Mul(d[i], Power(r, |d| - 1 - i)))
    decreases |d|
  {
    hide Add;
    hide Mul;
    var n, e := |d| - 1, d[i := 0];
    if i == n {
      assert e[..n] == d[..n];
      MulOne(d[i]);
      AddZero(Mul(Horner(0, d[..n], r), r));
    } else {
      HornerWithout(d[..n], i, r);
      assert e[..n] == d[..n][i := 0];
      var q := Power(r, n - 1 - i);
      var x, y := Horner(0, e[..n], r), Mul(d[i], q);
      MulAddLeft(x, y, r);
      MulAssoc(d[i], q, r);
      var t := Mul(d[i], Power(r, n - i));
      AddAssoc(Mul(x, r), t, d[n]);
      AddComm(t, d[n]);
      AddAssoc(Mul(x, r), d[n], t);
    }
  }

  lemma {:induction false} HornerNone(d: seq<word>, r: elem)
    requires forall i :: 0 <= i < |d| ==> d[i] == 0
    ensures Horner(0, d, r) == 0
  {
    hide Mul;
    if |d| > 0 {
      HornerNone(d[..|d| - 1], r);
      MulZero(r);
      AddZero(0);
    }
  }

  /** A word sequence that is zero but for three places is three terms at every point. */
  lemma ThreeTerms(d: seq<word>, i: nat, j: nat, k: nat, r: elem)
    requires i < j < k < |d| && forall l :: 0 <= l < |d| && l != i && l != j && l != k ==> d[l] == 0
    ensures var n := |d| - 1;
      Horner(0, d, r) == Sum3(d[k], d[j], d[i], Power(r, n - k), Power(r, n - j), Power(r, n - i))
  {
    hide Add;
    hide Mul;
    hide Power;
    hide Horner;
    var n := |d| - 1;
    var d1 := d[i := 0];
    var d2 := d1[j := 0];
    var d3 := d2[k := 0];
    HornerWithout(d, i, r);
    HornerWithout(d1, j, r);
    HornerWithout(d2, k, r);
    HornerNone(d3, r);
    AddZero(Mul(d[k], Power(r, n - k)));
  }

  // ----- three values that vanish in three power sums

  /** The sum of three terms at the first three powers of three different nonzero elements is zero only if
      all values are. */
  lemma Vandermonde(a: elem, b: elem, c: elem, x: elem, y: elem, z: elem)
    requires x != 0 && y != 0 && z != 0 && x != y && x != z && y != z
    requires Sum3(a, b, c, x, y, z) == 0
    requires Sum3(a, b, c, Mul(x, x), Mul(y, y), Mul(z, z)) == 0
    requires Sum3(a, b, c, Mul(x, Mul(x, x)), Mul(y, Mul(y, y)), Mul(z, Mul(z, z))) == 0
    ensures a == 0 && b == 0 && c == 0
  {
    hide Add;
    hide Mul;
    hide Sum3;
    var u, v := Mul(a, Add(x, z)), Mul(b, Add(y, z));
    Eliminate(a, b, c, x, y, z, x, y, z);
    Eliminate(a, b, c, Mul(x, x), Mul(y, y), Mul(z, z), x, y, z);
    EliminateTwo(u, v, x, y);
    Different(x, z);
    Different(y, z);
    Different(x, y);
    NoZeroDivisors(a, Add(x, z));
    NoZeroDivisors(b, Add(y, z));
    NoZeroDivisors(Mul(u, x), Add(x, y));
    NoZeroDivisors(u, x);
    LastOne(u, v, x, y);
    NoZeroDivisors(v, y);
    LastOfThree(a, b, c, x, y, z);
    NoZeroDivisors(c, z);
  }

  function Sum3(a: elem, b: elem, c: elem, x: elem, y: elem, z: elem): elem
  {
    Add(Add(Mul(a, x), Mul(b, y)), Mul(c, z))
  }

  lemma Different(x: elem, y: elem)
    requires x != y
    ensures Add(x, y) != 0
  {
    AddCancel(x, y);
  }

  /** Multiplying a sum by z and adding it to the next takes the third term away. */
  lemma Eliminate(a: elem, b: elem, c: elem, p: elem, q: elem, s: elem, x: elem, y: elem, z: elem)
    requires Sum3(a, b, c, p, q, s) == 0 && Sum3(a, b, c, Mul(x, p), Mul(y, q), Mul(z, s)) == 0
    ensures Add(Mul(Mul(a, Add(x, z)), p), Mul(Mul(b, Add(y, z)), q)) == 0
  {
    hide Add;
    hide Mul;
    var t := Sum3(a, b, c, p, q, s);
    var zt := Add(Add(Mul(z, Mul(a, p)), Mul(z, Mul(b, q))), Mul(z, Mul(c, s)));
    MulAddRight(z, Add(Mul(a, p), Mul(b, q)), Mul(c, s));
    MulAddRight(z, Mul(a, p), Mul(b, q));
    MulZero(z);
    assert zt == 0;
    Shared(a, p, x, z);
    Shared(b, q, y, z);
    Moved(c, s, z);
    var a1, a2, b1, b2, c1 := Mul(a, Mul(x, p)), Mul(z, Mul(a, p)), Mul(b, Mul(y, q)), Mul(z, Mul(b, q)),
      Mul(c, Mul(z, s));
    AddSwap(Add(a1, b1), c1, Add(a2, b2), c1);
    AddSelf(c1);
    AddZero(Add(Add(a1, b1), Add(a2, b2)));
    AddSwap(a1, b1, a2, b2);
    AddZero(0);
  }

  lemma Moved(c: elem, s: elem, z: elem)
    ensures Mul(c, Mul(z, s)) == Mul(z, Mul(c, s))
  {
    hide Mul;
    MulAssoc(c, z, s);
    MulComm(c, z);
    MulAssoc(z, c, s);
  }

  lemma Shared(a: elem, p: elem, x: elem, z: elem)
    ensures Add(Mul(a, Mul(x, p)), Mul(z, Mul(a, p))) == Mul(Mul(a, Add(x, z)), p)
  {
    hide Add;
    hide Mul;
    Moved(a, p, z);
    MulAssoc(a, x, p);
    MulAssoc(a, z, p);
    MulAddRight(a, x, z);
    MulAddLeft(Mul(a, x), Mul(a, z), p);
  }

  lemma EliminateTwo(u: elem, v: elem, x: elem, y: elem)
    requires Add(Mul(u, x), Mul(v, y)) == 0 && Add(Mul(u, Mul(x, x)), Mul(v, Mul(y, y))) == 0
    ensures Mul(Mul(u, x), Add(x, y)) == 0
  {
    hide Add;
    hide Mul;
    MulAssoc(u, x, x);
    MulAssoc(v, y, y);
    AddCancel(Mul(u, x), Mul(v, y));
    MulAddRight(Mul(u, x), x, y);
  }

  lemma LastOne(u: elem, v: elem, x: elem, y: elem)
    requires u == 0 && Add(Mul(u, x), Mul(v, y)) == 0
    ensures Mul(v, y) == 0
  {
    hide Add;
    hide Mul;
    MulZero(x);
    AddZero(Mul(v, y));
  }

  lemma LastOfThree(a: elem, b: elem, c: elem, x: elem, y: elem, z: elem)
    requires a == 0 && b == 0 && Sum3(a, b, c, x, y, z) == 0
    ensures Mul(c, z) == 0
  {
    hide Add;
    hide Mul;
    MulZero(x);
    MulZero(y);
    AddZero(0);
    AddZero(Mul(c, z));
  }

  // ----- any three words

  lemma {:induction false} PowersOfPower(e: nat)
    ensures Power(Exp(1), e) == Exp(e)
    ensures Power(Exp(2), e) == Mul(Exp(e), Exp(e)) && Power(Exp(3), e) == Mul(Exp(e), Mul(Exp(e), Exp(e)))
  {
    hide Mul;
    hide Exp;
    ExpAdd(e, e);
    ExpAdd(e, 2 * e);
    if e == 0 {
      SmallPowers();
    } else {
      PowersOfPower(e - 1);
      ExpAdd(e - 1, e - 1);
      ExpAdd(e - 1, 2 * (e - 1));
      ExpAdd(e - 1, 1);
      ExpAdd(2 * (e - 1), 2);
      ExpAdd(3 * (e - 1), 3);
    }
  }

  /** At the roots, words with the same final state differ by a polynomial that vanishes. */
  lemma VanishesAt(start: state, a: seq<word>, b: seq<word>, m: nat)
    requires |a| == |b| && Run(start, a) == Run(start, b) && 1 <= m <= 3
    ensures Horner(0, Difference(a, b), Exp(m)) == 0
  {
    hide Add;
    hide Mul;
    hide Exp;
    hide Run;
    hide Horner;
    hide At;
    hide IsRoot;
    Roots();
    RunAt(start, a, Exp(m));
    RunAt(start, b, Exp(m));
    var c := At(start, Exp(m));
    HornerDifference(c, a, b, Exp(m));
    AddSelf(Horner(c, a, Exp(m)));
  }

  /** Word sequences of up to 1023 words that differ in at most three places, anywhere, have different final
      states. */
  lemma ThreeWrongWords(start: state, a: seq<word>, b: seq<word>, i: nat, j: nat, k: nat)
    requires |a| == |b| <= 1023 && i < j < k < |a| && Run(start, a) == Run(start, b)
    requires forall l :: 0 <= l < |a| && l != i && l != j && l != k ==> a[l] == b[l]
    ensures a == b
  {
    hide Add;
    hide Mul;
    hide Exp;
    hide Run;
    hide Horner;
    hide Sum3;
    var d, n := Difference(a, b), |a| - 1;
    forall l | 0 <= l < |d| && l != i && l != j && l != k
      ensures d[l] == 0
    {
      AddSelf(a[l]);
    }
    var ei, ej, ek := n - i, n - j, n - k;
    SumAt(start, a, b, i, j, k, 1);
    SumAt(start, a, b, i, j, k, 2);
    SumAt(start, a, b, i, j, k, 3);
    PowersOfPower(ei);
    PowersOfPower(ej);
    PowersOfPower(ek);
    ExpNonzero(ei);
    ExpNonzero(ej);
    ExpNonzero(ek);
    ExpInjective(ek, ej);
    ExpInjective(ek, ei);
    ExpInjective(ej, ei);
    Vandermonde(d[k], d[j], d[i], Exp(ek), Exp(ej), Exp(ei));
    forall l | 0 <= l < |a|
      ensures a[l] == b[l]
    {
      AddCancel(a[l], b[l]);
    }
  }

  lemma SumAt(start: state, a: seq<word>, b: seq<word>, i: nat, j: nat, k: nat, m: nat)
    requires |a| == |b| && i < j < k < |a| && Run(start, a) == Run(start, b) && 1 <= m <= 3
    requires forall l :: 0 <= l < |a| && l != i && l != j && l != k ==> Difference(a, b)[l] == 0
    ensures var d, n := Difference(a, b), |a| - 1;
      Sum3(d[k], d[j], d[i], Power(Exp(m), n - k), Power(Exp(m), n - j), Power(Exp(m), n - i)) == 0
  {
    hide Add;
    hide Mul;
    hide Exp;
    hide Run;
    hide Horner;
    VanishesAt(start, a, b, m);
    ThreeTerms(Difference(a, b), i, j, k, Exp(m));
  }

  /** A valid mnemonic with up to three wrong words is refused wherever they stand, as long as the damage does
      not change which customization string applies. */
  lemma WrongWordsRefused(a: seq<word>, b: seq<word>, extendable: bool, i: nat, j: nat, k: nat)
    requires |a| == |b| <= 1023 && i < j < k < |a| && a != b && ChecksumValid(a, extendable)
    requires forall l :: 0 <= l < |a| && l != i && l != j && l != k ==> a[l] == b[l]
    ensures !ChecksumValid(b, extendable)
  {
    hide Run;
    var c := Custom(extendable);
    RunConcat(1, c, a);
    RunConcat(1, c, b);
    RunBound(1, c);
    if ChecksumValid(b, extendable) {
      ThreeWrongWords(Run(1, c), a, b, i, j, k);
    }
  }
}
