/** The generators 2 (modulus 0x187) and 3 (modulus 0x11B) have order exactly 255.
    Products of constants are evaluated on explicit octets of bits, which the solver folds. */
module GfOrder {
  import opened Bits
  import opened Gf256

  type bit = b: nat | b < 2

  datatype Octet = Octet(b7: bit, b6: bit, b5: bit, b4: bit, b3: bit, b2: bit, b1: bit, b0: bit)

  function Flip(a: bit, b: bit): bit
  {
    if a == b then 0 else 1
  }

  function Val(x: Octet): byte
  {
    x.b0 + 2 * x.b1 + 4 * x.b2 + 8 * x.b3 + 16 * x.b4 + 32 * x.b5 + 64 * x.b6 + 128 * x.b7
  }

  function Plus(x: Octet, y: Octet): Octet
  {
    Octet(Flip(x.b7, y.b7), Flip(x.b6, y.b6), Flip(x.b5, y.b5), Flip(x.b4, y.b4),
          Flip(x.b3, y.b3), Flip(x.b2, y.b2), Flip(x.b1, y.b1), Flip(x.b0, y.b0))
  }

  const Zero := Octet(0, 0, 0, 0, 0, 0, 0, 0)

  function Double(m: Octet, x: Octet): Octet
  {
    Plus(Octet(x.b6, x.b5, x.b4, x.b3, x.b2, x.b1, x.b0, 0), if x.b7 == 1 then m else Zero)
  }

  function Step(b: bit, x: Octet, rest: Octet): Octet
  {
    Plus(if b == 1 then x else Zero, rest)
  }

  function Times(m: Octet, a: Octet, x0: Octet): Octet
  {
    var x1 := Double(m, x0);
    var x2 := Double(m, x1);
    var x3 := Double(m, x2);
    var x4 := Double(m, x3);
    var x5 := Double(m, x4);
    var x6 := Double(m, x5);
    var x7 := Double(m, x6);
    Step(a.b0, x0, Step(a.b1, x1, Step(a.b2, x2, Step(a.b3, x3,
      Step(a.b4, x4, Step(a.b5, x5, Step(a.b6, x6, Step(a.b7, x7, Zero))))))))
  }

  lemma XorPush(h: nat, k: nat, i: bit, j: bit)
    ensures Xor(i + 2 * h, j + 2 * k) == Flip(i, j) + 2 * Xor(h, k)
  {
    hide Xor;
    XorHalf(i + 2 * h, j + 2 * k);
    SplitEqual(Xor(i + 2 * h, j + 2 * k), Flip(i, j) + 2 * Xor(h, k));
  }

  function Nibble(a3: bit, a2: bit, a1: bit, a0: bit): nat
  {
    a0 + 2 * (a1 + 2 * (a2 + 2 * a3))
  }

  lemma XorNibble(h: nat, k: nat, a3: bit, a2: bit, a1: bit, a0: bit, b3: bit, b2: bit, b1: bit, b0: bit)
    ensures Xor(Nibble(a3, a2, a1, a0) + 16 * h, Nibble(b3, b2, b1, b0) + 16 * k)
      == Nibble(Flip(a3, b3), Flip(a2, b2), Flip(a1, b1), Flip(a0, b0)) + 16 * Xor(h, k)
  {
    hide Xor;
    hide Flip;
    var x3, y3 := a3 + 2 * h, b3 + 2 * k;
    var x2, y2 := a2 + 2 * x3, b2 + 2 * y3;
    var x1, y1 := a1 + 2 * x2, b1 + 2 * y2;
    XorPush(h, k, a3, b3);
    XorPush(x3, y3, a2, b2);
    XorPush(x2, y2, a1, b1);
    XorPush(x1, y1, a0, b0);
  }

  lemma ValNibbles(x: Octet)
    ensures Val(x) == Nibble(x.b3, x.b2, x.b1, x.b0) + 16 * Nibble(x.b7, x.b6, x.b5, x.b4)
  {
  }

  lemma ValPlus(x: Octet, y: Octet)
    ensures Val(Plus(x, y)) == Xor(Val(x), Val(y))
  {
    hide Xor;
    hide Flip;
    hide Val;
    hide Nibble;
    XorZero(0);
    ValNibbles(x);
    ValNibbles(y);
    ValNibbles(Plus(x, y));
    XorNibble(0, 0, x.b7, x.b6, x.b5, x.b4, y.b7, y.b6, y.b5, y.b4);
    XorNibble(Nibble(x.b7, x.b6, x.b5, x.b4), Nibble(y.b7, y.b6, y.b5, y.b4),
              x.b3, x.b2, x.b1, x.b0, y.b3, y.b2, y.b1, y.b0);
  }

  lemma ValShift(x: Octet)
    ensures Val(Octet(x.b6, x.b5, x.b4, x.b3, x.b2, x.b1, x.b0, 0)) == 2 * (Val(x) % 128)
    ensures x.b7 == 1 <==> Val(x) >= 128
  {
    var low := x.b0 + 2 * x.b1 + 4 * x.b2 + 8 * x.b3 + 16 * x.b4 + 32 * x.b5 + 64 * x.b6;
    QuotientUnique(Val(x), 128, x.b7, low);
  }

  lemma ValDouble(m: Octet, x: Octet)
    ensures Val(Double(m, x)) == XTime(Val(m), Val(x))
  {
    hide Xor;
    hide Plus;
    hide Val;
    ValShift(x);
    ValZero();
    ValPlus(Octet(x.b6, x.b5, x.b4, x.b3, x.b2, x.b1, x.b0, 0), if x.b7 == 1 then m else Zero);
  }

  lemma ValStep(m: byte, b: bit, h: byte, x: Octet, rest: Octet)
    requires h < 128
    requires Val(rest) == Mul(m, h, XTime(m, Val(x)))
    ensures Val(Step(b, x, rest)) == Mul(m, b + 2 * h, Val(x))
  {
    hide Xor;
    hide Val;
    hide Plus;
    hide XTime;
    ValZero();
    AddZero(0);
    ValPlus(if b == 1 then x else Zero, rest);
  }

  lemma ValZero()
    ensures Val(Zero) == 0
  {
  }

  lemma ValTimes(m: Octet, a: Octet, x: Octet)
    ensures Val(Times(m, a, x)) == Mul(Val(m), Val(a), Val(x))
  {
    hide Val;
    hide Double;
    hide Step;
    hide Mul;
    hide XTime;
    var x1 := Double(m, x);
    var x2 := Double(m, x1);
    var x3 := Double(m, x2);
    var x4 := Double(m, x3);
    var x5 := Double(m, x4);
    var x6 := Double(m, x5);
    var x7 := Double(m, x6);
    ValDouble(m, x);
    ValDouble(m, x1);
    ValDouble(m, x2);
    ValDouble(m, x3);
    ValDouble(m, x4);
    ValDouble(m, x5);
    ValDouble(m, x6);
    var v := Val(m);
    var a6: byte := a.b6 + 2 * a.b7;
    var a5: byte := a.b5 + 2 * a6;
    var a4: byte := a.b4 + 2 * a5;
    var a3: byte := a.b3 + 2 * a4;
    var a2: byte := a.b2 + 2 * a3;
    var a1: byte := a.b1 + 2 * a2;
    ValNested(a);
    ValZero();
    MulZero(v, XTime(v, Val(x7)));
    var t7 := Step(a.b7, x7, Zero);
    ValStep(v, a.b7, 0, x7, Zero);
    var t6 := Step(a.b6, x6, t7);
    ValStep(v, a.b6, a.b7, x6, t7);
    var t5 := Step(a.b5, x5, t6);
    ValStep(v, a.b5, a6, x5, t6);
    var t4 := Step(a.b4, x4, t5);
    ValStep(v, a.b4, a5, x4, t5);
    var t3 := Step(a.b3, x3, t4);
    ValStep(v, a.b3, a4, x3, t4);
    var t2 := Step(a.b2, x2, t3);
    ValStep(v, a.b2, a3, x2, t3);
    var t1 := Step(a.b1, x1, t2);
    ValStep(v, a.b1, a2, x1, t2);
    ValStep(v, a.b0, a1, x, t1);
  }

  lemma ValNested(a: Octet)
    ensures Val(a) == a.b0 + 2 * (a.b1 + 2 * (a.b2 + 2 * (a.b3 + 2 * (a.b4 + 2 * (a.b5 + 2 * (a.b6 + 2 * a.b7))))))
  {
  }

  lemma Product(m: Field, modulus: Octet, i: nat, x: Octet, j: nat, y: Octet, z: Octet)
    requires Val(modulus) == m && Exp(m, i) == Val(x) && Exp(m, j) == Val(y)
    requires Times(modulus, x, y) == z
    ensures Exp(m, i + j) == Val(z)
  {
    hide Val;
    hide Times;
    hide Mul;
    ValTimes(modulus, x, y);
    PowAdd(m, Generator(m), i, j);
  }

  lemma ValIs(x: Octet, v: nat)
    requires v == x.b0 + 2 * x.b1 + 4 * x.b2 + 8 * x.b3 + 16 * x.b4 + 32 * x.b5 + 64 * x.b6 + 128 * x.b7
    ensures Val(x) == v
  {
  }

  lemma ExpOne(m: Field)
    ensures Exp(m, 1) == Generator(m)
  {
    hide Mul;
    assert Pow(m, Generator(m), 0) == 1;
    MulOne(m, Generator(m));
  }

  /** The powers of the generator that decide its order, for modulus 0x187. */
  lemma PowersLow187()
    ensures Exp(0x87, 15) == 244 && Exp(0x87, 17) == 222
  {
    var m: Field := 0x87;
    var modulus := Octet(1, 0, 0, 0, 0, 1, 1, 1);
    var x1 := Octet(0, 0, 0, 0, 0, 0, 1, 0);
    var x2 := Octet(0, 0, 0, 0, 0, 1, 0, 0);
    var x3 := Octet(0, 0, 0, 0, 1, 0, 0, 0);
    var x5 := Octet(0, 0, 1, 0, 0, 0, 0, 0);
    var x10 := Octet(1, 0, 0, 1, 0, 1, 0, 1);
    var x15 := Octet(1, 1, 1, 1, 0, 1, 0, 0);
    var x17 := Octet(1, 1, 0, 1, 1, 1, 1, 0);
    hide Exp;
    hide Val;
    ValIs(modulus, 135);
    ValIs(x1, 2);
    ExpOne(m);
    Product(m, modulus, 1, x1, 1, x1, x2);
    Product(m, modulus, 1, x1, 2, x2, x3);
    Product(m, modulus, 2, x2, 3, x3, x5);
    Product(m, modulus, 5, x5, 5, x5, x10);
    Product(m, modulus, 5, x5, 10, x10, x15);
    Product(m, modulus, 2, x2, 15, x15, x17);
    ValIs(x15, 244);
    ValIs(x17, 222);
  }

  lemma PowersMid187()
    ensures Exp(0x87, 51) == 108 && Exp(0x87, 85) == 170
  {
    var m: Field := 0x87;
    var modulus := Octet(1, 0, 0, 0, 0, 1, 1, 1);
    var x17 := Octet(1, 1, 0, 1, 1, 1, 1, 0);
    var x34 := Octet(0, 1, 1, 1, 0, 1, 0, 0);
    var x51 := Octet(0, 1, 1, 0, 1, 1, 0, 0);
    var x85 := Octet(1, 0, 1, 0, 1, 0, 1, 0);
    hide Exp;
    hide Val;
    ValIs(modulus, 135);
    ValIs(x17, 222);
    PowersLow187();
    Product(m, modulus, 17, x17, 17, x17, x34);
    Product(m, modulus, 17, x17, 34, x34, x51);
    Product(m, modulus, 34, x34, 51, x51, x85);
    ValIs(x51, 108);
    ValIs(x85, 170);
  }

  lemma PowersHigh187()
    ensures Exp(0x87, 255) == 1
  {
    var m: Field := 0x87;
    var modulus := Octet(1, 0, 0, 0, 0, 1, 1, 1);
    var x85 := Octet(1, 0, 1, 0, 1, 0, 1, 0);
    var x170 := Octet(1, 0, 1, 0, 1, 0, 1, 1);
    var x255 := Octet(0, 0, 0, 0, 0, 0, 0, 1);
    hide Exp;
    PowersMid187();
    Product(m, modulus, 85, x85, 85, x85, x170);
    Product(m, modulus, 85, x85, 170, x170, x255);
  }

  /** The powers of the generator that decide its order, for modulus 0x11B. */
  lemma PowersLow11B()
    ensures Exp(0x1B, 15) == 53 && Exp(0x1B, 17) == 225
  {
    var m: Field := 0x1B;
    var modulus := Octet(0, 0, 0, 1, 1, 0, 1, 1);
    var x1 := Octet(0, 0, 0, 0, 0, 0, 1, 1);
    var x2 := Octet(0, 0, 0, 0, 0, 1, 0, 1);
    var x3 := Octet(0, 0, 0, 0, 1, 1, 1, 1);
    var x5 := Octet(0, 0, 1, 1, 0, 0, 1, 1);
    var x10 := Octet(0, 1, 1, 1, 0, 0, 1, 0);
    var x15 := Octet(0, 0, 1, 1, 0, 1, 0, 1);
    var x17 := Octet(1, 1, 1, 0, 0, 0, 0, 1);
    hide Exp;
    hide Val;
    ValIs(modulus, 27);
    ValIs(x1, 3);
    ExpOne(m);
    Product(m, modulus, 1, x1, 1, x1, x2);
    Product(m, modulus, 1, x1, 2, x2, x3);
    Product(m, modulus, 2, x2, 3, x3, x5);
    Product(m, modulus, 5, x5, 5, x5, x10);
    Product(m, modulus, 5, x5, 10, x10, x15);
    Product(m, modulus, 2, x2, 15, x15, x17);
    ValIs(x15, 53);
    ValIs(x17, 225);
  }

  lemma PowersMid11B()
    ensures Exp(0x1B, 51) == 12 && Exp(0x1B, 85) == 189
  {
    var m: Field := 0x1B;
    var modulus := Octet(0, 0, 0, 1, 1, 0, 1, 1);
    var x17 := Octet(1, 1, 1, 0, 0, 0, 0, 1);
    var x34 := Octet(0, 1, 0, 1, 1, 1, 0, 0);
    var x51 := Octet(0, 0, 0, 0, 1, 1, 0, 0);
    var x85 := Octet(1, 0, 1, 1, 1, 1, 0, 1);
    hide Exp;
    hide Val;
    ValIs(modulus, 27);
    ValIs(x17, 225);
    PowersLow11B();
    Product(m, modulus, 17, x17, 17, x17, x34);
    Product(m, modulus, 17, x17, 34, x34, x51);
    Product(m, modulus, 34, x34, 51, x51, x85);
    ValIs(x51, 12);
    ValIs(x85, 189);
  }

  lemma PowersHigh11B()
    ensures Exp(0x1B, 255) == 1
  {
    var m: Field := 0x1B;
    var modulus := Octet(0, 0, 0, 1, 1, 0, 1, 1);
    var x85 := Octet(1, 0, 1, 1, 1, 1, 0, 1);
    var x170 := Octet(1, 0, 1, 1, 1, 1, 0, 0);
    var x255 := Octet(0, 0, 0, 0, 0, 0, 0, 1);
    hide Exp;
    PowersMid11B();
    Product(m, modulus, 85, x85, 85, x85, x170);
    Product(m, modulus, 85, x85, 170, x170, x255);
  }

  // ----- the order is 255 and no less

  lemma ExpMultiple(m: Field, n: nat, k: nat, kn: nat)
    requires Exp(m, n) == 1 && kn == n * k
    ensures Exp(m, kn) == 1
  {
    hide Mul;
    PowPow(m, Generator(m), n, k, kn);
    PowOne(m, k);
  }

  lemma ExpMinus(m: Field, a: nat, b: nat)
    requires Exp(m, a) == 1
    ensures Exp(m, a + b) == Exp(m, b)
  {
    hide Mul;
    PowAdd(m, Generator(m), a, b);
    MulOne(m, Exp(m, b));
  }

  lemma ExpCycle(m: Field)
    ensures Exp(m, 255) == 1
  {
    hide Exp;
    PowersHigh187();
    PowersHigh11B();
  }

  lemma ExpNotOne(m: Field)
    ensures Exp(m, 85) != 1 && Exp(m, 51) != 1 && Exp(m, 15) != 1
  {
    hide Exp;
    PowersLow187();
    PowersMid187();
    PowersLow11B();
    PowersMid11B();
  }

  /** If the order divided `c * r` with `0 < r < q` and `q` a prime cofactor of 255, it would divide `c`. */
  lemma {:induction false} OrderDescent(m: Field, c: nat, q: nat, r: nat)
    requires (c == 85 && q == 3) || (c == 51 && q == 5) || (c == 15 && q == 17)
    requires 0 < r < q && Exp(m, c * r) == 1
    ensures Exp(m, c) == 1
    decreases r
  {
    hide Exp;
    if r > 1 {
      var s := q % r;
      assert s != 0 by { NoFactor(q, r); }
      var k := q / r;
      assert q == k * r + s;
      assert c * q == k * (c * r) + c * s;
      ExpMultiple(m, c * r, k, k * (c * r));
      ExpMinus(m, k * (c * r), c * s);
      ExpCycle(m);
      OrderDescent(m, c, q, s);
    }
  }

  lemma NoFactor(q: nat, r: nat)
    requires q == 3 || q == 5 || q == 17
    requires 1 < r < q
    ensures q % r != 0
  {
    if q == 17 {
      assert r == 2 || r == 3 || r == 4 || r == 5 || r == 6 || r == 7 || r == 8 || r == 9
          || r == 10 || r == 11 || r == 12 || r == 13 || r == 14 || r == 15 || r == 16;
    }
  }

  lemma OrderFactor(m: Field, d: nat, c: nat, q: nat)
    requires (c == 85 && q == 3) || (c == 51 && q == 5) || (c == 15 && q == 17)
    requires Exp(m, d) == 1 && d % q != 0
    ensures Exp(m, c) == 1
  {
    hide Exp;
    var r := d % q;
    assert c * d == (d / q) * 255 + c * r;
    ExpMultiple(m, d, c, c * d);
    ExpCycle(m);
    ExpMultiple(m, 255, d / q, (d / q) * 255);
    ExpMinus(m, (d / q) * 255, c * r);
    OrderDescent(m, c, q, r);
  }

  lemma OrderExact(m: Field, d: nat)
    requires 0 < d < 255
    ensures Exp(m, d) != 1
  {
    hide Exp;
    if Exp(m, d) == 1 {
      if d % 3 != 0 {
        OrderFactor(m, d, 85, 3);
      } else if d % 5 != 0 {
        OrderFactor(m, d, 51, 5);
      } else if d % 17 != 0 {
        OrderFactor(m, d, 15, 17);
      }
      ExpNotOne(m);
      assert false;
    }
  }

  // ----- discrete logarithms

  lemma ExpPeriod(m: Field, n: nat)
    ensures Exp(m, n) == Exp(m, n % 255)
  {
    hide Exp;
    ExpCycle(m);
    ExpMultiple(m, 255, n / 255, (n / 255) * 255);
    assert n == (n / 255) * 255 + n % 255;
    ExpMinus(m, (n / 255) * 255, n % 255);
  }

  lemma ExpInverse(m: Field, n: nat)
    requires n <= 255
    ensures Mul(m, Exp(m, n), Exp(m, 255 - n)) == 1
  {
    hide Mul;
    ExpCycle(m);
    PowAdd(m, Generator(m), n, 255 - n);
  }

  lemma ExpNonzero(m: Field, n: nat)
    ensures Exp(m, n) != 0
  {
    hide Exp;
    hide Mul;
    var r := n % 255;
    ExpPeriod(m, n);
    ExpInverse(m, r);
    MulZero(m, Exp(m, 255 - r));
  }

  lemma ExpInjective(m: Field, i: nat, j: nat)
    requires i < j < 255
    ensures Exp(m, i) != Exp(m, j)
  {
    hide Mul;
    var x, y, d := Exp(m, i), Exp(m, 255 - i), Exp(m, j - i);
    PowAdd(m, Generator(m), i, j - i);
    if Exp(m, i) == Exp(m, j) {
      ExpInverse(m, i);
      MulAssoc(m, y, x, d);
      MulComm(m, y, x);
      MulOne(m, d);
      OrderExact(m, j - i);
      assert false;
    }
  }

  ghost function Powers(m: Field, n: nat): set<nat>
  {
    set i | 0 <= i < n :: Exp(m, i)
  }

  lemma {:induction false} PowersCount(m: Field, n: nat)
    requires n <= 255
    ensures |Powers(m, n)| == n
  {
    hide Exp;
    if n != 0 {
      PowersCount(m, n - 1);
      forall i | 0 <= i < n - 1
        ensures Exp(m, i) != Exp(m, n - 1)
      {
        ExpInjective(m, i, n - 1);
      }
      assert Powers(m, n) == Powers(m, n - 1) + {Exp(m, n - 1)};
    }
  }

  ghost function Positives(n: nat): (s: set<nat>)
    ensures forall i :: i in s <==> 0 < i <= n
    ensures |s| == n
  {
    if n == 0 then {} else Positives(n - 1) + {n}
  }

  lemma {:induction false} SubsetFull(a: set<nat>, b: set<nat>)
    requires a <= b && |a| == |b|
    ensures a == b
  {
    if b - a != {} {
      var x :| x in b - a;
      assert a <= b - {x};
      SubsetCount(a, b - {x});
      assert false;
    }
  }

  lemma {:induction false} SubsetCount(a: set<nat>, b: set<nat>)
    requires a <= b
    ensures |a| <= |b|
  {
    if a != {} {
      var x :| x in a;
      SubsetCount(a - {x}, b - {x});
    }
  }

  /** Every nonzero element is a power of the generator. */
  lemma LogExists(m: Field, a: byte)
    requires a != 0
    ensures exists n :: 0 <= n < 255 && Exp(m, n) == a
  {
    hide Exp;
    forall n | 0 <= n < 255
      ensures Exp(m, n) in Positives(255)
    {
      ExpNonzero(m, n);
    }
    PowersCount(m, 255);
    SubsetFull(Powers(m, 255), Positives(255));
    assert a in Positives(255);
  }

  ghost function Log(m: Field, a: byte): (n: nat)
    requires a != 0
    ensures n < 255 && Exp(m, n) == a
  {
    LogExists(m, a);
    var n :| 0 <= n < 255 && Exp(m, n) == a;
    n
  }

  lemma LogUnique(m: Field, n: nat)
    requires n < 255
    ensures Exp(m, n) != 0 && Log(m, Exp(m, n)) == n
  {
    hide Exp;
    ExpNonzero(m, n);
    var k := Log(m, Exp(m, n));
    if k < n {
      ExpInjective(m, k, n);
    } else if n < k {
      ExpInjective(m, n, k);
    }
  }

  // ----- consequences: a field

  lemma NoZeroDivisors(m: Field, a: byte, b: byte)
    ensures Mul(m, a, b) == 0 <==> a == 0 || b == 0
  {
    hide Mul;
    hide Log;
    if a == 0 || b == 0 {
      MulZero(m, a);
      MulZero(m, b);
    } else {
      PowAdd(m, Generator(m), Log(m, a), Log(m, b));
      ExpNonzero(m, Log(m, a) + Log(m, b));
    }
  }

  ghost function Inv(m: Field, a: byte): (r: byte)
    requires a != 0
    ensures r != 0 && Mul(m, a, r) == 1
  {
    ExpNonzero(m, 255 - Log(m, a));
    ExpInverse(m, Log(m, a));
    Exp(m, 255 - Log(m, a))
  }

  lemma MulCancel(m: Field, a: byte, b: byte, c: byte)
    requires a != 0 && Mul(m, a, b) == Mul(m, a, c)
    ensures b == c
  {
    hide Inv;
    hide Mul;
    var r := Inv(m, a);
    MulComm(m, a, r);
    MulAssoc(m, r, a, b);
    MulAssoc(m, r, a, c);
    MulOne(m, b);
    MulOne(m, c);
  }

  ghost function Ratio(m: Field, a: byte, b: byte): (r: byte)
    requires b != 0
    ensures Mul(m, r, b) == a
  {
    MulAssoc(m, a, Inv(m, b), b);
    MulComm(m, Inv(m, b), b);
    MulOne(m, a);
    Mul(m, a, Inv(m, b))
  }
}
