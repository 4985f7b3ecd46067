/** Arithmetic in GF(2)[x] modulo x^8 + m(x), for every low part `m` of the modulus,
    and the two fields the recovery tools use: 0x187 (Reed-Solomon) and 0x11B (key shares). */
module Gf256 {
  import opened Bits

  /** Addition: exclusive-or. */
  function Add(a: byte, b: byte): byte
  {
    XorBound(a, b, 8);
    Xor(a, b)
  }

  /** Exclusive-or byte by byte. */
  function XorBytes(a: seq<byte>, b: seq<byte>): (r: seq<byte>)
    requires |a| == |b|
    ensures |r| == |a|
  {
    seq(|a|, k requires 0 <= k < |a| => Add(a[k], b[k]))
  }

  /** Multiplication by x. */
  function XTime(m: byte, b: byte): byte
  {
    Add(2 * (b % 128), if b < 128 then 0 else m)
  }

  /** Carry-less product reduced modulo x^8 + m. */
  function Mul(m: byte, a: byte, b: byte): byte
    decreases a
  {
    if a == 0 then 0 else Add(if a % 2 == 1 then b else 0, Mul(m, a / 2, XTime(m, b)))
  }

  // ----- the additive group

  lemma AddComm(a: byte, b: byte)
    ensures Add(a, b) == Add(b, a)
  {
    XorComm(a, b);
  }

  lemma AddAssoc(a: byte, b: byte, c: byte)
    ensures Add(Add(a, b), c) == Add(a, Add(b, c))
  {
    XorAssoc(a, b, c);
  }

  lemma AddZero(a: byte)
    ensures Add(a, 0) == a == Add(0, a)
  {
    XorZero(a);
  }

  lemma AddSelf(a: byte)
    ensures Add(a, a) == 0
  {
    XorSelf(a);
  }

  lemma AddSwap(a: byte, b: byte, c: byte, d: byte)
    ensures Add(Add(a, b), Add(c, d)) == Add(Add(a, c), Add(b, d))
  {
    hide *;
    AddAssoc(a, b, Add(c, d));
    AddAssoc(b, c, d);
    AddComm(b, c);
    AddAssoc(c, b, d);
    AddAssoc(a, c, Add(b, d));
  }

  lemma AddCancel(a: byte, b: byte)
    ensures Add(Add(a, b), b) == a && Add(b, Add(b, a)) == a
    ensures Add(a, b) == 0 ==> a == b
  {
    hide *;
    AddAssoc(a, b, b);
    AddAssoc(b, b, a);
    AddSelf(b);
    AddZero(a);
    AddZero(b);
  }

  // ----- the ring

  lemma XTimeLinear(m: byte, a: byte, b: byte)
    ensures XTime(m, Add(a, b)) == Add(XTime(m, a), XTime(m, b))
  {
    var ta: byte, tb: byte := if a < 128 then 0 else m, if b < 128 then 0 else m;
    TopBit(a, b);
    AddSelf(m);
    AddZero(m);
    hide *;
    XorDouble(a % 128, b % 128);
    AddSwap(2 * (a % 128), ta, 2 * (b % 128), tb);
  }

  lemma TopBit(a: byte, b: byte)
    ensures Add(a, b) % 128 == Xor(a % 128, b % 128)
    ensures Add(a, b) < 128 <==> (a < 128 <==> b < 128)
  {
    hide Xor;
    hide High;
    hide Low;
    assert Pow2(7) == 128;
    XorZero(a / 128);
    XorZero(b / 128);
    XorSelf(1);
    HighLow(a, 7);
    HighLow(b, 7);
    HighLow(Add(a, b), 7);
    XorSplit(a, b, 7);
  }

  lemma {:induction false} MulAddRight(m: byte, a: byte, b: byte, c: byte)
    ensures Mul(m, a, Add(b, c)) == Add(Mul(m, a, b), Mul(m, a, c))
    decreases a
  {
    if a == 0 {
      AddZero(0);
    } else {
      MulAddRight(m, a / 2, XTime(m, b), XTime(m, c));
      XTimeLinear(m, b, c);
      AddZero(0);
      AddSwap(if a % 2 == 1 then b else 0, Mul(m, a / 2, XTime(m, b)),
              if a % 2 == 1 then c else 0, Mul(m, a / 2, XTime(m, c)));
    }
  }

  lemma {:induction false} MulXTime(m: byte, a: byte, b: byte)
    ensures Mul(m, a, XTime(m, b)) == XTime(m, Mul(m, a, b))
    decreases a
  {
    if a == 0 {
      XTimeZero(m);
    } else {
      MulXTime(m, a / 2, XTime(m, b));
      XTimeLinear(m, if a % 2 == 1 then b else 0, Mul(m, a / 2, XTime(m, b)));
      XTimeZero(m);
    }
  }

  lemma XTimeZero(m: byte)
    ensures XTime(m, 0) == 0
  {
    AddZero(0);
  }

  lemma {:induction false} MulZero(m: byte, a: byte)
    ensures Mul(m, a, 0) == 0 == Mul(m, 0, a)
    decreases a
  {
    if a != 0 {
      XTimeZero(m);
      MulZero(m, a / 2);
      AddZero(0);
    }
  }

  lemma {:induction false} MulOne(m: byte, a: byte)
    ensures Mul(m, a, 1) == a == Mul(m, 1, a)
  {
    MulZero(m, XTime(m, a));
    AddZero(a);
    MulOneRight(m, a);
  }

  lemma {:induction false} MulOneRight(m: byte, a: byte)
    ensures Mul(m, a, 1) == a
    decreases a
  {
    if a != 0 {
      MulXTime(m, a / 2, 1);
      MulOneRight(m, a / 2);
      XTimeSmall(m, a / 2);
      BitOnTop(a / 2, a % 2);
    }
  }

  lemma XTimeSmall(m: byte, h: byte)
    requires h < 128
    ensures XTime(m, h) == 2 * h
  {
    AddZero(2 * h);
  }

  lemma BitOnTop(h: byte, bit: byte)
    requires h < 128 && bit < 2
    ensures Add(bit, 2 * h) == 2 * h + bit
  {
    XorHalf(bit, 2 * h);
    XorZero(h);
  }

  lemma {:induction false} MulComm(m: byte, a: byte, b: byte)
    ensures Mul(m, a, b) == Mul(m, b, a)
    decreases a
  {
    if a == 0 {
      MulZero(m, b);
    } else {
      var low: byte := a % 2;
      var h: byte := a / 2;
      MulXTime(m, h, b);
      MulComm(m, h, b);
      MulXTime(m, b, h);
      XTimeSmall(m, h);
      BitOnTop(h, low);
      MulAddRight(m, b, low, 2 * h);
      MulOne(m, b);
      MulZero(m, b);
    }
  }

  lemma MulAddLeft(m: byte, a: byte, b: byte, c: byte)
    ensures Mul(m, Add(a, b), c) == Add(Mul(m, a, c), Mul(m, b, c))
  {
    hide *;
    MulComm(m, Add(a, b), c);
    MulComm(m, a, c);
    MulComm(m, b, c);
    MulAddRight(m, c, a, b);
  }

  lemma {:induction false} MulAssoc(m: byte, a: byte, b: byte, c: byte)
    ensures Mul(m, Mul(m, a, b), c) == Mul(m, a, Mul(m, b, c))
    decreases a
  {
    if a == 0 {
      MulZero(m, c);
      MulZero(m, Mul(m, b, c));
    } else {
      var low := if a % 2 == 1 then b else 0;
      var h: byte := a / 2;
      assert Mul(m, a, b) == Add(low, Mul(m, h, XTime(m, b)));
      assert Mul(m, a, Mul(m, b, c)) ==
        Add(if a % 2 == 1 then Mul(m, b, c) else 0, Mul(m, h, XTime(m, Mul(m, b, c))));
      hide *;
      MulAddLeft(m, low, Mul(m, h, XTime(m, b)), c);
      MulAssoc(m, h, XTime(m, b), c);
      MulComm(m, XTime(m, b), c);
      MulXTime(m, c, b);
      MulComm(m, b, c);
      MulZero(m, c);
    }
  }

  // ----- powers

  function Pow(m: byte, x: byte, n: nat): byte
  {
    if n == 0 then 1 else Mul(m, x, Pow(m, x, n - 1))
  }

  lemma {:induction false} PowAdd(m: byte, x: byte, i: nat, j: nat)
    ensures Pow(m, x, i + j) == Mul(m, Pow(m, x, i), Pow(m, x, j))
  {
    hide Mul;
    if i == 0 {
      MulOne(m, Pow(m, x, j));
    } else {
      PowAdd(m, x, i - 1, j);
      MulAssoc(m, x, Pow(m, x, i - 1), Pow(m, x, j));
    }
  }

  lemma {:induction false} PowPow(m: byte, x: byte, i: nat, j: nat, n: nat)
    requires n == i * j
    ensures Pow(m, Pow(m, x, i), j) == Pow(m, x, n)
    decreases j
  {
    hide Mul;
    if j != 0 {
      assert Pow(m, Pow(m, x, i), j) == Mul(m, Pow(m, x, i), Pow(m, Pow(m, x, i), j - 1));
      assert i * j == i * (j - 1) + i;
      PowPow(m, x, i, j - 1, n - i);
      PowAdd(m, x, i, n - i);
    }
  }

  lemma {:induction false} PowOne(m: byte, n: nat)
    ensures Pow(m, 1, n) == 1
  {
    if n != 0 {
      PowOne(m, n - 1);
      MulOne(m, 1);
    }
  }

  lemma {:induction false} PowMul(m: byte, x: byte, y: byte, n: nat)
    ensures Pow(m, Mul(m, x, y), n) == Mul(m, Pow(m, x, n), Pow(m, y, n))
  {
    hide Mul;
    if n == 0 {
      MulOne(m, 1);
    } else {
      PowMul(m, x, y, n - 1);
      MulSwap(m, x, y, Pow(m, x, n - 1), Pow(m, y, n - 1));
    }
  }

  lemma MulSwap(m: byte, a: byte, b: byte, c: byte, d: byte)
    ensures Mul(m, Mul(m, a, b), Mul(m, c, d)) == Mul(m, Mul(m, a, c), Mul(m, b, d))
  {
    hide *;
    MulAssoc(m, a, b, Mul(m, c, d));
    MulAssoc(m, b, c, d);
    MulComm(m, b, c);
    MulAssoc(m, c, b, d);
    MulAssoc(m, a, c, Mul(m, b, d));
  }

  // ----- the two fields

  /** The low bytes of the moduli 0x187 and 0x11B. */
  type Field = m: byte | m == 0x87 || m == 0x1B witness 0x1B

  /** The Reed-Solomon codec's field. */
  const M: Field := 0x87

  /** The table generators: `b <<= 1` in one module, `poly << 1 ^ poly` in the other. */
  function Generator(m: Field): byte
  {
    if m == 0x87 then 2 else 3
  }

  function Exp(m: Field, n: nat): byte
  {
    Pow(m, Generator(m), n)
  }

}
