/** The sector checksum: reflected CRC-32 without the final inversion, table-driven. */
module Crc32 {
  import opened Bits

  const POLYNOMIAL: nat := 0xedb88320

  /** One bit of polynomial division. */
  function BitStep(c: nat): nat
  {
    if c % 2 == 1 then Xor(POLYNOMIAL, c / 2) else c / 2
  }

  function Steps(c: nat, k: nat): nat
    decreases k
  {
    if k == 0 then c else Steps(BitStep(c), k - 1)
  }

  /** Bit-serial checksum of the bytes from register `c` on. */
  function CrcFrom(c: nat, data: seq<byte>): nat
    decreases |data|
  {
    if |data| == 0 then c else CrcFrom(Steps(Xor(c, data[0]), 8), data[1..])
  }

  function Crc(data: seq<byte>): nat
  {
    CrcFrom(0xffffffff, data)
  }

  lemma BitStepLinear(a: nat, b: nat)
    ensures BitStep(Xor(a, b)) == Xor(BitStep(a), BitStep(b))
  {
    hide Xor;
    XorHalf(a, b);
    var p, h, k := POLYNOMIAL, a / 2, b / 2;
    XorAssoc(p, h, k);
    XorComm(p, h);
    XorAssoc(h, p, k);
    XorAssoc(p, h, Xor(p, k));
    XorAssoc(h, p, k);
    XorAssoc(Xor(p, h), p, k);
    XorAssoc(h, p, p);
    XorSelf(p);
    XorZero(h);
  }

  lemma {:induction false} StepsLinear(a: nat, b: nat, k: nat)
    ensures Steps(Xor(a, b), k) == Xor(Steps(a, k), Steps(b, k))
    decreases k
  {
    hide Xor;
    if k > 0 {
      BitStepLinear(a, b);
      StepsLinear(BitStep(a), BitStep(b), k - 1);
    }
  }

  lemma EvenStep(x: nat)
    ensures BitStep(2 * x) == x
  {
  }

  lemma {:induction false} StepsShift(h: nat, k: nat)
    ensures Steps(h * Pow2(k), k) == h
    decreases k
  {
    if k > 0 {
      var x := h * Pow2(k - 1);
      Twice(h, Pow2(k - 1));
      assert h * Pow2(k) == 2 * x;
      hide Pow2;
      EvenStep(x);
      StepsShift(h, k - 1);
    }
  }

  /** Eight bit steps at once: one table entry for the low byte, a shift for the rest. */
  lemma StepsByTable(x: nat)
    ensures Steps(x, 8) == Xor(Steps(x % 256, 8), x / 256)
  {
    hide Xor;
    hide Steps;
    assert Pow2(8) == 256;
    var h, l := x / 256, x % 256;
    XorDisjoint(h, l, 8);
    StepsLinear(256 * h, l, 8);
    StepsShift(h, 8);
    XorComm(h, Steps(l, 8));
  }

  /** Numbers without common bits: exclusive-or is addition. */
  lemma XorLowByte(c: nat, b: byte)
    ensures Xor(c, b) / 256 == c / 256
  {
    hide Xor;
    hide High;
    hide Low;
    assert Pow2(8) == 256;
    HighLow(c, 8);
    HighLow(b, 8);
    HighLow(Xor(c, b), 8);
    XorSplit(c, b, 8);
    XorZero(c / 256);
  }

  method CrcInit() returns (table: seq<nat>)
    ensures |table| == 256 && forall n :: 0 <= n < 256 ==> table[n] == Steps(n, 8)
  {
    hide Xor;
    var a := new nat[256](_ => 0);
    for n := 0 to 256
      invariant forall i :: 0 <= i < n ==> a[i] == Steps(i, 8)
    {
      var c := n;
      for k := 0 to 8
        invariant Steps(c, 8 - k) == Steps(n, 8)
      {
        if c % 2 == 1 {
          c := Xor(POLYNOMIAL, c / 2);
        } else {
          c := c / 2;
        }
      }
      a[n] := c;
    }
    table := a[..];
  }

  /** The table-driven loop computes the bit-serial checksum. */
  method Checksum(table: seq<nat>, data: seq<byte>) returns (c: nat)
    requires |table| == 256 && forall n :: 0 <= n < 256 ==> table[n] == Steps(n, 8)
    ensures c == Crc(data)
  {
    hide Xor;
    hide Steps;
    c := 0xffffffff;
    for i := 0 to |data|
      invariant CrcFrom(c, data[i..]) == Crc(data)
    {
      StepsByTable(Xor(c, data[i]));
      XorLowByte(c, data[i]);
      assert data[i..][1..] == data[i + 1..];
      c := Xor(table[Xor(c, data[i]) % 256], c / 256);
    }
  }

  // ----- the register stays within 32 bits, so the source's masks change nothing

  lemma BitStepBound(c: nat)
    requires c < Pow2(32)
    ensures BitStep(c) < Pow2(32)
  {
    hide Xor;
    Pow2Words();
    XorBound(POLYNOMIAL, c / 2, 32);
  }

  lemma {:induction false} StepsBound(c: nat, k: nat)
    requires c < Pow2(32)
    ensures Steps(c, k) < Pow2(32)
    decreases k
  {
    if k > 0 {
      BitStepBound(c);
      StepsBound(BitStep(c), k - 1);
    }
  }

  lemma {:induction false} CrcBound(c: nat, data: seq<byte>)
    requires c < Pow2(32)
    ensures CrcFrom(c, data) < Pow2(32)
    decreases |data|
  {
    hide Xor;
    hide Steps;
    if |data| > 0 {
      Pow2Words();
      XorBound(c, data[0], 32);
      StepsBound(Xor(c, data[0]), 8);
      CrcBound(Steps(Xor(c, data[0]), 8), data[1..]);
    }
  }
}
