/** The logarithm and exponential tables of the two tools, and the lookups built on them. */
module GfTables {
  import opened Bits
  import opened Gf256
  import opened GfOrder

  // ----- doubling with an explicit carry bit, as the table loops do it

  lemma XorBlocks(h: nat, u: byte, k: nat, v: byte)
    ensures Xor(256 * h + u, 256 * k + v) == 256 * Xor(h, k) + Xor(u, v)
  {
    hide Xor;
    hide High;
    hide Low;
    var x, y := 256 * h + u, 256 * k + v;
    assert Pow2(8) == 256;
    HighLow(x, 8);
    HighLow(y, 8);
    HighLow(Xor(x, y), 8);
    XorSplit(x, y, 8);
  }

  lemma DoubleAndReduce(m: byte, b: byte)
    ensures b < 128 ==> 2 * b == XTime(m, b)
    ensures b >= 128 ==> Xor(2 * b, 256 + m) == XTime(m, b)
  {
    hide Xor;
    if b < 128 {
      AddZero(2 * b);
    } else {
      XorBlocks(1, 2 * b - 256, 1, m);
      XorSelf(1);
    }
  }

  lemma TripleAndReduce(m: byte, b: byte)
    ensures b < 128 ==> Xor(2 * b, b) == Add(XTime(m, b), b)
    ensures b >= 128 ==> Xor(2 * b, b) >= 256 && Xor(Xor(2 * b, b), 256 + m) == Add(XTime(m, b), b)
    ensures b < 128 ==> Xor(2 * b, b) < 256
  {
    hide Xor;
    hide Add;
    if b < 128 {
      DoubleAndReduce(m, b);
      XorIsAdd(2 * b, b);
    } else {
      var u: byte := 2 * b - 256;
      XorBlocks(1, u, 0, b);
      XorZero(1);
      XorIsAdd(u, b);
      XorBlocks(1, Add(u, b), 1, m);
      XorSelf(1);
      XorIsAdd(Add(u, b), m);
      AddAssoc(u, b, m);
      AddComm(b, m);
      AddAssoc(u, m, b);
    }
  }

  lemma XorIsAdd(a: byte, b: byte)
    ensures Xor(a, b) == Add(a, b)
  {
  }

  lemma MulByTwo(m: byte, b: byte)
    ensures Mul(m, 2, b) == XTime(m, b)
  {
    hide XTime;
    hide Add;
    MulOne(m, XTime(m, b));
    AddZero(XTime(m, b));
  }

  lemma MulByThree(m: byte, b: byte)
    ensures Mul(m, 3, b) == Add(XTime(m, b), b)
  {
    hide XTime;
    hide Add;
    MulOne(m, XTime(m, b));
    AddComm(XTime(m, b), b);
  }

  // ----- the codec's tables

  datatype Tables = Tables(alphaTo: seq<byte>, indexOf: seq<nat>)

  ghost predicate IsTables(t: Tables)
  {
    && |t.alphaTo| == 256 && |t.indexOf| == 256
    && (forall i :: 0 <= i < 255 ==> t.alphaTo[i] == Exp(M, i))
    && t.alphaTo[255] == 0
    && t.indexOf[0] == 255
    && forall a :: 0 < a < 256 ==> t.indexOf[a] == Log(M, a)
  }

  method GfInit() returns (t: Tables)
    ensures IsTables(t)
  {
    hide Exp;
    hide Log;
    hide Xor;
    hide Mul;
    var alphaTo := new byte[256](_ => 0);
    var indexOf := new nat[256](_ => 0);
    var b := 1;
    ExpZero(M);
    for i := 0 to 255
      invariant b == Exp(M, i)
      invariant forall k :: 0 <= k < i ==> alphaTo[k] == Exp(M, k)
      invariant forall k :: 0 <= k < i ==> indexOf[Exp(M, k)] == k
    {
      alphaTo[i] := b;
      forall k | 0 <= k < i
        ensures Exp(M, k) != b
      {
        ExpInjective(M, k, i);
      }
      indexOf[b] := i;
      ExpNext(M, i);
      MulByTwo(M, b);
      DoubleAndReduce(M, b);
      b := 2 * b;
      if b >= 256 {
        b := Xor(b, 0x187);
      }
      b := b % 256;
    }
    forall a: byte | 0 < a < 256
      ensures indexOf[a] == Log(M, a)
    {
      assert indexOf[Exp(M, Log(M, a))] == Log(M, a);
    }
    ExpNonzeroAll(M);
    indexOf[0] := 255;
    alphaTo[255] := 0;
    t := Tables(alphaTo[..], indexOf[..]);
  }

  lemma ExpZero(m: Field)
    ensures Exp(m, 0) == 1
  {
  }

  lemma ExpNext(m: Field, n: nat)
    ensures Exp(m, n + 1) == Mul(m, Generator(m), Exp(m, n))
  {
  }

  lemma ExpNonzeroAll(m: Field)
    ensures forall n: nat :: Exp(m, n) != 0
  {
    hide Exp;
    forall n: nat
      ensures Exp(m, n) != 0
    {
      ExpNonzero(m, n);
    }
  }

  // ----- lookups

  lemma IndexBound(t: Tables, a: byte)
    requires IsTables(t)
    ensures t.indexOf[a] <= 255 && (t.indexOf[a] == 255 <==> a == 0)
    ensures t.alphaTo[t.indexOf[a]] == a
    ensures a != 0 ==> Exp(M, t.indexOf[a]) == a
  {
    hide Exp;
    hide Log;
  }

  lemma TablesSize(t: Tables)
    requires IsTables(t)
    ensures |t.alphaTo| == 256 && |t.indexOf| == 256
  {
  }

  lemma AlphaAt(t: Tables, e: nat)
    requires IsTables(t)
    ensures t.alphaTo[e % 255] == Exp(M, e)
  {
    hide Exp;
    hide Log;
    ExpPeriod(M, e);
  }

  /** Adding logarithms multiplies. */
  lemma AlphaSum(t: Tables, a: byte, e: nat)
    requires IsTables(t) && a != 0
    ensures t.alphaTo[(t.indexOf[a] + e) % 255] == Mul(M, a, Exp(M, e))
  {
    hide Log;
    hide Mul;
    IndexBound(t, a);
    AlphaAt(t, t.indexOf[a] + e);
    PowAdd(M, Generator(M), t.indexOf[a], e);
  }

  lemma AlphaProduct(t: Tables, a: byte, b: byte)
    requires IsTables(t) && a != 0 && b != 0
    ensures t.alphaTo[(t.indexOf[a] + t.indexOf[b]) % 255] == Mul(M, a, b)
  {
    hide Exp;
    hide Mul;
    IndexBound(t, b);
    AlphaSum(t, a, t.indexOf[b]);
  }

  /** Reduction of a sum of exponents by repeated subtraction. */
  method ModFm(x: nat) returns (r: nat)
    ensures r == x % 255
  {
    r := x;
    while r >= 255
      invariant r % 255 == x % 255
    {
      r := r - 255;
    }
  }

  method GfMul(t: Tables, a: byte, b: byte) returns (r: byte)
    requires IsTables(t)
    ensures r == Mul(M, a, b)
  {
    hide Exp;
    hide Mul;
    hide Log;
    if a == 0 || b == 0 {
      MulZero(M, a);
      MulZero(M, b);
      return 0;
    }
    IndexBound(t, a);
    IndexBound(t, b);
    AlphaProduct(t, a, b);
    var s := t.indexOf[a] + t.indexOf[b];
    if s >= 255 {
      s := s - 255;
    }
    r := t.alphaTo[s];
  }

  /** Division inverts multiplication; dividing by zero gives zero. */
  method GfDiv(t: Tables, a: byte, b: byte) returns (r: byte)
    requires IsTables(t)
    ensures b == 0 ==> r == 0
    ensures b != 0 ==> Mul(M, r, b) == a
  {
    hide Exp;
    hide Mul;
    hide Log;
    if a == 0 || b == 0 {
      MulZero(M, b);
      return 0;
    }
    IndexBound(t, a);
    IndexBound(t, b);
    var la: int, lb: int := t.indexOf[a], t.indexOf[b];
    var s := la - lb;
    if s < 0 {
      s := s + 255;
    }
    r := t.alphaTo[s];
    ExpNonzero(M, s);
    LogUnique(M, s);
    AlphaProduct(t, r, b);
  }

  method GfInv(t: Tables, a: byte) returns (r: byte)
    requires IsTables(t)
    ensures a == 0 ==> r == 0
    ensures a != 0 ==> Mul(M, a, r) == 1
  {
    hide Exp;
    hide Mul;
    hide Log;
    if a == 0 {
      return 0;
    }
    IndexBound(t, a);
    var e := 255 - t.indexOf[a];
    if e >= 255 {
      e := e - 255;
    }
    r := t.alphaTo[e];
    AlphaSum(t, a, e);
    ExpZero(M);
  }
}
