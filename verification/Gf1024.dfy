/** Arithmetic in GF(1024), the binary polynomials modulo x^10 + x^3 + 1, as far as the mnemonic checksum
    needs it: the ring laws, the order of x, and that there are no zero divisors. */
module Gf1024 {
  import opened Bits
  import GfOrder

  type elem = x: nat | x < 1024

  function Add(a: elem, b: elem): elem
  {
    PowTen();
    XorBound(a, b, 10);
    Xor(a, b)
  }

  lemma PowTen()
    ensures Pow2(9) == 512 && Pow2(10) == 1024
  {
    Pow2Add(9, 1);
    assert Pow2(9) == 2 * Pow2(8) && Pow2(8) == 2 * Pow2(7);
  }

  /** Multiplication by x. */
  function XTime(b: elem): elem
  {
    Add(2 * (b % 512), if b < 512 then 0 else 9)
  }

  function Mul(a: elem, b: elem): elem
    decreases a
  {
    if a == 0 then 0 else Add(if a % 2 == 1 then b else 0, Mul(a / 2, XTime(b)))
  }

  // ----- the additive group

  lemma AddComm(a: elem, b: elem)
    ensures Add(a, b) == Add(b, a)
  {
    XorComm(a, b);
  }

  lemma AddAssoc(a: elem, b: elem, c: elem)
    ensures Add(Add(a, b), c) == Add(a, Add(b, c))
  {
    XorAssoc(a, b, c);
  }

  lemma AddZero(a: elem)
    ensures Add(a, 0) == a == Add(0, a)
  {
    XorZero(a);
  }

  lemma AddSelf(a: elem)
    ensures Add(a, a) == 0
  {
    XorSelf(a);
  }

  lemma AddSwap(a: elem, b: elem, c: elem, d: elem)
    ensures Add(Add(a, b), Add(c, d)) == Add(Add(a, c), Add(b, d))
  {
    hide *;
    AddAssoc(a, b, Add(c, d));
    AddAssoc(b, c, d);
    AddComm(b, c);
    AddAssoc(c, b, d);
    AddAssoc(a, c, Add(b, d));
  }

  lemma AddCancel(a: elem, b: elem)
    ensures Add(Add(a, b), b) == a && Add(b, Add(b, a)) == a
    ensures Add(a, b) == 0 ==> a == b
  {
    hide *;
    AddAssoc(a, b, b);
    AddAssoc(b, b, a);
    AddSelf(b);
    AddZero(a);
    AddZero(b);
  }

  // ----- the ring

  lemma TopBit(a: elem, b: elem)
    ensures Add(a, b) % 512 == Xor(a % 512, b % 512)
    ensures Add(a, b) < 512 <==> (a < 512 <==> b < 512)
  {
    hide Xor;
    hide High;
    hide Low;
    hide Pow2;
    PowTen();
    XorZero(a / 512);
    XorZero(b / 512);
    XorSelf(1);
    HighLow(a, 9);
    HighLow(b, 9);
    HighLow(Add(a, b), 9);
    XorSplit(a, b, 9);
  }

  lemma XTimeLinear(a: elem, b: elem)
    ensures XTime(Add(a, b)) == Add(XTime(a), XTime(b))
  {
    var ta: elem, tb: elem := if a < 512 then 0 else 9, if b < 512 then 0 else 9;
    TopBit(a, b);
    AddSelf(9);
    AddZero(9);
    hide *;
    XorDouble(a % 512, b % 512);
    AddSwap(2 * (a % 512), ta, 2 * (b % 512), tb);
  }

  lemma XTimeSmall(h: elem)
    requires h < 512
    ensures XTime(h) == 2 * h
  {
    hide Add;
    assert h % 512 == h;
    AddZero(2 * h);
  }

  lemma {:induction false} MulAddRight(a: elem, b: elem, c: elem)
    ensures Mul(a, Add(b, c)) == Add(Mul(a, b), Mul(a, c))
    decreases a
  {
    hide Add;
    hide XTime;
    if a == 0 {
      AddZero(0);
    } else {
      MulAddRight(a / 2, XTime(b), XTime(c));
      XTimeLinear(b, c);
      AddZero(0);
      AddSwap(if a % 2 == 1 then b else 0, Mul(a / 2, XTime(b)), if a % 2 == 1 then c else 0, Mul(a / 2, XTime(c)));
    }
  }

  lemma {:induction false} MulXTime(a: elem, b: elem)
    ensures Mul(a, XTime(b)) == XTime(Mul(a, b))
    decreases a
  {
    hide Add;
    hide XTime;
    XTimeSmall(0);
    if a != 0 {
      MulXTime(a / 2, XTime(b));
      XTimeLinear(if a % 2 == 1 then b else 0, Mul(a / 2, XTime(b)));
    }
  }

  lemma {:induction false} MulZero(a: elem)
    ensures Mul(a, 0) == 0 == Mul(0, a)
    decreases a
  {
    hide Add;
    hide XTime;
    if a != 0 {
      XTimeSmall(0);
      MulZero(a / 2);
      AddZero(0);
    }
  }

  lemma MulOne(a: elem)
    ensures Mul(a, 1) == a == Mul(1, a)
  {
    hide Add;
    hide XTime;
    assert Mul(0, XTime(a)) == 0;
    assert Mul(1, a) == Add(a, 0);
    AddZero(a);
    MulOneRight(a);
  }

  lemma {:induction false} MulOneRight(a: elem)
    ensures Mul(a, 1) == a
    decreases a
  {
    hide Add;
    hide XTime;
    if a != 0 {
      MulXTime(a / 2, 1);
      MulOneRight(a / 2);
      XTimeSmall(a / 2);
      BitOnTop(a / 2, a % 2);
    }
  }

  lemma BitOnTop(h: elem, bit: elem)
    requires h < 512 && bit < 2
    ensures Add(bit, 2 * h) == 2 * h + bit
  {
    hide Xor;
    XorHalf(bit, 2 * h);
    XorZero(h);
  }

  lemma {:induction false} MulComm(a: elem, b: elem)
    ensures Mul(a, b) == Mul(b, a)
    decreases a
  {
    hide Add;
    hide XTime;
    if a == 0 {
      MulZero(b);
    } else {
      var low: elem := a % 2;
      var h: elem := a / 2;
      MulXTime(h, b);
      MulComm(h, b);
      MulXTime(b, h);
      XTimeSmall(h);
      BitOnTop(h, low);
      MulAddRight(b, low, 2 * h);
      MulOne(b);
      MulZero(b);
    }
  }

  lemma MulAddLeft(a: elem, b: elem, c: elem)
    ensures Mul(Add(a, b), c) == Add(Mul(a, c), Mul(b, c))
  {
    hide *;
    MulComm(Add(a, b), c);
    MulComm(a, c);
    MulComm(b, c);
    MulAddRight(c, a, b);
  }

  lemma {:induction false} MulAssoc(a: elem, b: elem, c: elem)
    ensures Mul(Mul(a, b), c) == Mul(a, Mul(b, c))
    decreases a
  {
    if a == 0 {
      MulZero(c);
      MulZero(Mul(b, c));
    } else {
      var low := if a % 2 == 1 then b else 0;
      var h: elem := a / 2;
      assert Mul(a, b) == Add(low, Mul(h, XTime(b)));
      assert Mul(a, Mul(b, c)) == Add(if a % 2 == 1 then Mul(b, c) else 0, Mul(h, XTime(Mul(b, c))));
      hide *;
      MulAddLeft(low, Mul(h, XTime(b)), c);
      MulAssoc(h, XTime(b), c);
      MulComm(XTime(b), c);
      MulXTime(c, b);
      MulComm(b, c);
      MulZero(c);
    }
  }

  // ----- powers of x

  function Exp(n: nat): elem
  {
    if n == 0 then 1 else XTime(Exp(n - 1))
  }

  lemma ExpNext(n: nat)
    ensures Exp(n) < 512 ==> Exp(n + 1) == 2 * Exp(n)
  {
    hide XTime;
    if Exp(n) < 512 {
      XTimeSmall(Exp(n));
    }
  }

  lemma {:induction false} ExpAdd(i: nat, j: nat)
    ensures Exp(i + j) == Mul(Exp(i), Exp(j))
  {
    hide Mul;
    hide XTime;
    if j == 0 {
      MulOne(Exp(i));
    } else {
      ExpAdd(i, j - 1);
      MulXTime(Exp(i), Exp(j - 1));
    }
  }

  /** The square of x^10 = x^3 + 1, again and again. */
  lemma {:induction false} TenthPower(k: nat)
    ensures Exp(10 * Pow2(k)) == Add(Exp(3 * Pow2(k)), 1)
  {
    hide Exp;
    hide Mul;
    hide Add;
    if k == 0 {
      TenthIs();
    } else {
      var p := Pow2(k - 1);
      var u := Exp(3 * p);
      TenthPower(k - 1);
      ExpAdd(10 * p, 10 * p);
      ExpAdd(3 * p, 3 * p);
      MulAddRight(Add(u, 1), u, 1);
      MulAddLeft(u, 1, u);
      MulOne(u);
      MulOne(Add(u, 1));
      var s := Mul(u, u);
      AddAssoc(Add(s, u), u, 1);
      AddCancel(s, u);
    }
  }

  lemma TenthIs()
    ensures Exp(10) == Add(Exp(3), 1)
  {
    hide Exp;
    SmallPowers();
    hide Mul;
    TenSteps();
    BitOnTop(4, 1);
    AddComm(1, 8);
  }

  lemma TenSteps()
    ensures Exp(9) == 512 ==> Exp(10) == 9
  {
    hide Xor;
    assert Exp(10) == XTime(Exp(9));
    XorZero(9);
  }

  // ----- exclusive or of constants, on explicit bits

  datatype Ten = Ten(b9: GfOrder.bit, b8: GfOrder.bit, b7: GfOrder.bit, b6: GfOrder.bit, b5: GfOrder.bit,
                     b4: GfOrder.bit, b3: GfOrder.bit, b2: GfOrder.bit, b1: GfOrder.bit, b0: GfOrder.bit)

  function Val(x: Ten): elem
  {
    x.b0 + 2 * x.b1 + 4 * x.b2 + 8 * x.b3 + 16 * x.b4 + 32 * x.b5 + 64 * x.b6 + 128 * x.b7 + 256 * x.b8 + 512 * x.b9
  }

  function Plus(x: Ten, y: Ten): Ten
  {
    Ten(GfOrder.Flip(x.b9, y.b9), GfOrder.Flip(x.b8, y.b8), GfOrder.Flip(x.b7, y.b7), GfOrder.Flip(x.b6, y.b6),
        GfOrder.Flip(x.b5, y.b5), GfOrder.Flip(x.b4, y.b4), GfOrder.Flip(x.b3, y.b3), GfOrder.Flip(x.b2, y.b2),
        GfOrder.Flip(x.b1, y.b1), GfOrder.Flip(x.b0, y.b0))
  }

  lemma ValParts(x: Ten)
    ensures Val(x) == GfOrder.Nibble(x.b3, x.b2, x.b1, x.b0)
      + 16 * (GfOrder.Nibble(x.b7, x.b6, x.b5, x.b4) + 16 * GfOrder.Nibble(0, 0, x.b9, x.b8))
  {
  }

  lemma ValPlus(x: Ten, y: Ten)
    ensures Val(Plus(x, y)) == Add(Val(x), Val(y))
  {
    hide Xor;
    hide GfOrder.Flip;
    hide Val;
    hide GfOrder.Nibble;
    XorZero(0);
    ValParts(x);
    ValParts(y);
    ValParts(Plus(x, y));
    GfOrder.XorNibble(0, 0, 0, 0, x.b9, x.b8, 0, 0, y.b9, y.b8);
    NoFlip();
    var h, k := GfOrder.Nibble(0, 0, x.b9, x.b8), GfOrder.Nibble(0, 0, y.b9, y.b8);
    GfOrder.XorNibble(h, k, x.b7, x.b6, x.b5, x.b4, y.b7, y.b6, y.b5, y.b4);
    GfOrder.XorNibble(GfOrder.Nibble(x.b7, x.b6, x.b5, x.b4) + 16 * h, GfOrder.Nibble(y.b7, y.b6, y.b5, y.b4) + 16 * k,
                      x.b3, x.b2, x.b1, x.b0, y.b3, y.b2, y.b1, y.b0);
  }

  lemma NoFlip()
    ensures GfOrder.Flip(0, 0) == 0
  {
  }

  /** A power of x from two lower ones. */
  lemma Reduce(n: nat, p: nat, x: Ten, y: Ten, r: nat)
    requires p in {1, 2, 4, 8, 16, 32, 64} && Exp(n + 3 * p) == Val(x) && Exp(n) == Val(y) && Val(Plus(x, y)) == r
    ensures Exp(n + 10 * p) == r
  {
    hide Exp;
    hide Mul;
    hide Add;
    hide Val;
    hide Plus;
    var k := if p == 1 then 0 else if p == 2 then 1 else if p == 4 then 2 else if p == 8 then 3 else if p == 16 then 4
      else if p == 32 then 5 else 6;
    assert Pow2(k) == p by { SmallPow2(k); }
    TenthPower(k);
    ExpAdd(n, 10 * p);
    ExpAdd(n, 3 * p);
    MulAddRight(Val(y), Exp(3 * p), 1);
    MulOne(Val(y));
    ValPlus(x, y);
  }

  lemma SmallPow2(k: nat)
    requires k <= 6
    ensures Pow2(k) == [1, 2, 4, 8, 16, 32, 64][k]
  {
    if k > 0 {
      SmallPow2(k - 1);
    }
  }

  lemma SmallPowers()
    ensures Exp(0) == 1 && Exp(1) == 2 && Exp(2) == 4 && Exp(3) == 8 && Exp(4) == 16
    ensures Exp(5) == 32 && Exp(6) == 64 && Exp(7) == 128 && Exp(8) == 256 && Exp(9) == 512
  {
    ExpNext(0);
    ExpNext(1);
    ExpNext(2);
    ExpNext(3);
    ExpNext(4);
    ExpNext(5);
    ExpNext(6);
    ExpNext(7);
    ExpNext(8);
  }

  lemma LowPowers()
    ensures Exp(13) == 72 && Exp(17) == 137 && Exp(19) == 548 && Exp(21) == 130 && Exp(23) == 520
  {
    hide Exp;
    SmallPowers();
    TenSteps();
    Reduce(3, 1, Ten(0, 0, 0, 1, 0, 0, 0, 0, 0, 0), Ten(0, 0, 0, 0, 0, 0, 1, 0, 0, 0), 72);
    Reduce(2, 1, Ten(0, 0, 0, 0, 1, 0, 0, 0, 0, 0), Ten(0, 0, 0, 0, 0, 0, 0, 1, 0, 0), 36);
    Reduce(9, 1, Ten(0, 0, 0, 0, 1, 0, 0, 1, 0, 0), Ten(1, 0, 0, 0, 0, 0, 0, 0, 0, 0), 548);
    Reduce(7, 1, Ten(0, 0, 0, 0, 0, 0, 1, 0, 0, 1), Ten(0, 0, 1, 0, 0, 0, 0, 0, 0, 0), 137);
    Reduce(3, 2, Ten(1, 0, 0, 0, 0, 0, 0, 0, 0, 0), Ten(0, 0, 0, 0, 0, 0, 1, 0, 0, 0), 520);
    Reduce(1, 2, Ten(0, 0, 1, 0, 0, 0, 0, 0, 0, 0), Ten(0, 0, 0, 0, 0, 0, 0, 0, 1, 0), 130);
  }

  lemma MiddlePowers()
    ensures Exp(33) == 620 && Exp(93) == 713 && Exp(341) == 237
  {
    hide Exp;
    LowPowers();
    Reduce(13, 2, Ten(1, 0, 0, 0, 1, 0, 0, 1, 0, 0), Ten(0, 0, 0, 1, 0, 0, 1, 0, 0, 0), 620);
    Reduce(17, 2, Ten(1, 0, 0, 0, 0, 0, 1, 0, 0, 0), Ten(0, 0, 1, 0, 0, 0, 1, 0, 0, 1), 641);
    Reduce(13, 8, Ten(1, 0, 1, 0, 0, 0, 0, 0, 0, 1), Ten(0, 0, 0, 1, 0, 0, 1, 0, 0, 0), 713);
    Reduce(21, 4, Ten(1, 0, 0, 1, 1, 0, 1, 1, 0, 0), Ten(0, 0, 1, 0, 0, 0, 0, 0, 1, 0), 750);
    Reduce(37, 8, Ten(1, 0, 1, 1, 1, 0, 1, 1, 1, 0), Ten(1, 0, 1, 0, 0, 0, 0, 0, 0, 1), 111);
    Reduce(21, 32, Ten(0, 0, 0, 1, 1, 0, 1, 1, 1, 1), Ten(0, 0, 1, 0, 0, 0, 0, 0, 1, 0), 237);
  }

  lemma UpperPowers()
    ensures Exp(11) == 18 && Exp(15) == 288 && Exp(39) == 534 && Exp(63) == 938 && Exp(79) == 12
  {
    hide Exp;
    SmallPowers();
    LowPowers();
    Reduce(5, 1, Ten(0, 1, 0, 0, 0, 0, 0, 0, 0, 0), Ten(0, 0, 0, 0, 1, 0, 0, 0, 0, 0), 288);
    Reduce(15, 2, Ten(0, 0, 1, 0, 0, 0, 0, 0, 1, 0), Ten(0, 1, 0, 0, 1, 0, 0, 0, 0, 0), 418);
    Reduce(23, 4, Ten(0, 1, 1, 0, 1, 0, 0, 0, 1, 0), Ten(1, 0, 0, 0, 0, 0, 1, 0, 0, 0), 938);
    Reduce(1, 1, Ten(0, 0, 0, 0, 0, 1, 0, 0, 0, 0), Ten(0, 0, 0, 0, 0, 0, 0, 0, 1, 0), 18);
    Reduce(5, 2, Ten(0, 0, 0, 0, 0, 1, 0, 0, 1, 0), Ten(0, 0, 0, 0, 1, 0, 0, 0, 0, 0), 50);
    Reduce(19, 2, Ten(0, 0, 0, 0, 1, 1, 0, 0, 1, 0), Ten(1, 0, 0, 0, 1, 0, 0, 1, 0, 0), 534);
    Reduce(11, 4, Ten(1, 0, 0, 0, 0, 0, 1, 0, 0, 0), Ten(0, 0, 0, 0, 0, 1, 0, 0, 1, 0), 538);
    Reduce(39, 4, Ten(1, 0, 0, 0, 0, 1, 1, 0, 1, 0), Ten(1, 0, 0, 0, 0, 1, 0, 1, 1, 0), 12);
  }

  lemma FurtherPowers()
    ensures Exp(31) == 155 && Exp(47) == 676 && Exp(95) == 822 && Exp(143) == 945 && Exp(383) == 778
  {
    hide Exp;
    SmallPowers();
    LowPowers();
    UpperPowers();
    Reduce(7, 4, Ten(1, 0, 0, 0, 1, 0, 0, 1, 0, 0), Ten(0, 0, 1, 0, 0, 0, 0, 0, 0, 0), 676);
    Reduce(23, 8, Ten(1, 0, 1, 0, 1, 0, 0, 1, 0, 0), Ten(1, 0, 0, 0, 0, 0, 1, 0, 0, 0), 172);
    Reduce(79, 8, Ten(0, 0, 1, 0, 1, 0, 1, 1, 0, 0), Ten(0, 0, 0, 0, 0, 0, 1, 1, 0, 0), 160);
    Reduce(63, 32, Ten(0, 0, 1, 0, 1, 0, 0, 0, 0, 0), Ten(1, 1, 1, 0, 1, 0, 1, 0, 1, 0), 778);
    Reduce(15, 8, Ten(1, 0, 0, 0, 0, 1, 0, 1, 1, 0), Ten(0, 1, 0, 0, 1, 0, 0, 0, 0, 0), 822);
    Reduce(11, 2, Ten(0, 0, 1, 0, 0, 0, 1, 0, 0, 1), Ten(0, 0, 0, 0, 0, 1, 0, 0, 1, 0), 155);
    Reduce(7, 8, Ten(0, 0, 1, 0, 0, 1, 1, 0, 1, 1), Ten(0, 0, 1, 0, 0, 0, 0, 0, 0, 0), 27);
    Reduce(63, 8, Ten(0, 0, 0, 0, 0, 1, 1, 0, 1, 1), Ten(1, 1, 1, 0, 1, 0, 1, 0, 1, 0), 945);
  }

  lemma HighPowers()
    ensures Exp(1023) == 1
  {
    hide Exp;
    SmallPowers();
    UpperPowers();
    FurtherPowers();
    Reduce(95, 16, Ten(1, 1, 1, 0, 1, 1, 0, 0, 0, 1), Ten(1, 1, 0, 0, 1, 1, 0, 1, 1, 0), 135);
    Reduce(3, 4, Ten(0, 1, 0, 0, 1, 0, 0, 0, 0, 0), Ten(0, 0, 0, 0, 0, 0, 1, 0, 0, 0), 296);
    Reduce(31, 4, Ten(0, 1, 0, 0, 1, 0, 1, 0, 0, 0), Ten(0, 0, 1, 0, 0, 1, 1, 0, 1, 1), 435);
    Reduce(47, 8, Ten(0, 1, 1, 0, 1, 1, 0, 0, 1, 1), Ten(1, 0, 1, 0, 1, 0, 0, 1, 0, 0), 791);
    Reduce(31, 32, Ten(1, 1, 0, 0, 0, 1, 0, 1, 1, 1), Ten(0, 0, 1, 0, 0, 1, 1, 0, 1, 1), 908);
    Reduce(255, 32, Ten(1, 1, 1, 0, 0, 0, 1, 1, 0, 0), Ten(0, 0, 1, 0, 0, 0, 0, 1, 1, 1), 779);
    Reduce(383, 64, Ten(1, 1, 0, 0, 0, 0, 1, 0, 1, 1), Ten(1, 1, 0, 0, 0, 0, 1, 0, 1, 0), 1);
  }

  // ----- the order of x is 1023 and no less

  lemma {:induction false} ExpMultiple(n: nat, k: nat, kn: nat)
    requires Exp(n) == 1 && kn == n * k
    ensures Exp(kn) == 1
    decreases k
  {
    hide Exp;
    if k == 0 {
      SmallPowers();
    } else {
      assert kn == n + n * (k - 1);
      ExpMultiple(n, k - 1, kn - n);
      ExpMinus(n, kn - n);
    }
  }

  lemma ExpMinus(a: nat, b: nat)
    requires Exp(a) == 1
    ensures Exp(a + b) == Exp(b)
  {
    hide Exp;
    hide Mul;
    ExpAdd(a, b);
    MulOne(Exp(b));
  }

  ghost predicate Cofactors(c: nat, q: nat)
  {
    (c == 341 && q == 3) || (c == 93 && q == 11) || (c == 33 && q == 31)
  }

  lemma NoFactor(q: nat, r: nat)
    requires q == 3 || q == 11 || q == 31
    requires 1 < r < q
    ensures q % r != 0
  {
    if q == 31 {
      assert r <= 8 ==> r == 2 || r == 3 || r == 4 || r == 5 || r == 6 || r == 7 || r == 8;
      assert 8 < r <= 16 ==> r == 9 || r == 10 || r == 11 || r == 12 || r == 13 || r == 14 || r == 15 || r == 16;
      assert r > 15 ==> 31 / r == 1;
    } else if q == 11 {
      assert r == 2 || r == 3 || r == 4 || r == 5 || r == 6 || r == 7 || r == 8 || r == 9 || r == 10;
    }
  }

  /** If the order divided `c * r` with `0 < r < q` and `q` a prime cofactor of 1023, it would divide `c`. */
  lemma {:induction false} OrderDescent(c: nat, q: nat, r: nat)
    requires Cofactors(c, q) && 0 < r < q && Exp(c * r) == 1
    ensures Exp(c) == 1
    decreases r
  {
    hide Exp;
    if r > 1 {
      var s, k := q % r, q / r;
      NoFactor(q, r);
      assert q == k * r + s;
      assert c * q == k * (c * r) + c * s;
      ExpMultiple(c * r, k, k * (c * r));
      ExpMinus(k * (c * r), c * s);
      HighPowers();
      OrderDescent(c, q, s);
    }
  }

  lemma OrderFactor(d: nat, c: nat, q: nat)
    requires Cofactors(c, q) && Exp(d) == 1 && d % q != 0
    ensures Exp(c) == 1
  {
    hide Exp;
    var r := d % q;
    assert c * d == (d / q) * 1023 + c * r;
    ExpMultiple(d, c, c * d);
    HighPowers();
    ExpMultiple(1023, d / q, (d / q) * 1023);
    ExpMinus((d / q) * 1023, c * r);
    OrderDescent(c, q, r);
  }

  lemma OrderExact(d: nat)
    requires 0 < d < 1023
    ensures Exp(d) != 1
  {
    hide Exp;
    if Exp(d) == 1 {
      if d % 3 != 0 {
        OrderFactor(d, 341, 3);
      } else if d % 11 != 0 {
        OrderFactor(d, 93, 11);
      } else {
        assert d % 31 != 0;
        OrderFactor(d, 33, 31);
      }
      MiddlePowers();
    }
  }

  // ----- a field

  lemma ExpInverse(n: nat)
    requires n <= 1023
    ensures Mul(Exp(n), Exp(1023 - n)) == 1
  {
    hide Mul;
    hide Exp;
    HighPowers();
    ExpAdd(n, 1023 - n);
  }

  lemma ExpNonzero(n: nat)
    requires n <= 1023
    ensures Exp(n) != 0
  {
    hide Mul;
    hide Exp;
    ExpInverse(n);
    MulZero(Exp(1023 - n));
  }

  lemma ExpInjective(i: nat, j: nat)
    requires i < j < 1023
    ensures Exp(i) != Exp(j)
  {
    hide Mul;
    hide Exp;
    var x, y, d := Exp(i), Exp(1023 - i), Exp(j - i);
    ExpAdd(i, j - i);
    ExpInverse(i);
    MulAssoc(y, x, d);
    MulComm(y, x);
    MulOne(d);
    OrderExact(j - i);
  }

  ghost function Powers(n: nat): set<nat>
  {
    set i | 0 <= i < n :: Exp(i)
  }

  lemma {:induction false} PowersCount(n: nat)
    requires n <= 1023
    ensures |Powers(n)| == n
  {
    hide Exp;
    if n != 0 {
      PowersCount(n - 1);
      forall i | 0 <= i < n - 1
        ensures Exp(i) != Exp(n - 1)
      {
        ExpInjective(i, n - 1);
      }
      assert Powers(n) == Powers(n - 1) + {Exp(n - 1)};
    }
  }

  /** Every nonzero element is a power of x. */
  lemma LogExists(a: elem) returns (n: nat)
    requires a != 0
    ensures n < 1023 && Exp(n) == a
  {
    hide Exp;
    var all := GfOrder.Positives(1023);
    forall i | 0 <= i < 1023
      ensures Exp(i) in all
    {
      ExpNonzero(i);
    }
    PowersCount(1023);
    GfOrder.SubsetFull(Powers(1023), all);
    assert a in Powers(1023);
    n :| n < 1023 && Exp(n) == a;
  }

  lemma NoZeroDivisors(a: elem, b: elem)
    ensures Mul(a, b) == 0 <==> a == 0 || b == 0
  {
    hide Mul;
    hide Exp;
    MulZero(a);
    MulZero(b);
    if a != 0 && Mul(a, b) == 0 {
      var n := LogExists(a);
      var y := Exp(1023 - n);
      ExpInverse(n);
      MulComm(a, y);
      MulAssoc(y, a, b);
      MulOne(b);
      MulZero(y);
    }
  }
}
