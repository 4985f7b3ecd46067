/** The RS1024 checksum of share mnemonics: three 10-bit words folded into a 30-bit state. */
module Rs1024 {
  import opened Bits

  type word = x: nat | x < 1024

  type state = x: nat | x < 0x4000_0000

  const Gen: seq<state> := [
    0xE0E040, 0x1C1C080, 0x3838100, 0x7070200, 0xE0E0009,
    0x1C0C2412, 0x38086C24, 0x3090FC48, 0x21B1F890, 0x3F3F120
  ]

  const CustomOrig: seq<word> := ['s' as int, 'h' as int, 'a' as int, 'm' as int, 'i' as int, 'r' as int]
  const CustomExt: seq<word> := CustomOrig + ['_' as int, 'e' as int, 'x' as int, 't' as int, 'e' as int, 'n' as int,
                                              'd' as int, 'a' as int, 'b' as int, 'l' as int, 'e' as int]

  // ----- the step of the checksum

  predicate Bit(x: nat, i: nat)
  {
    High(x, i) % 2 == 1
  }

  /** The generators selected by the lowest `n` bits of `b`. */
  function Fold(b: nat, n: nat): (r: nat)
    requires n <= 10
  {
    if n == 0 then 0 else Xor(Fold(b, n - 1), if Bit(b, n - 1) then Gen[n - 1] else 0)
  }

  function Step(chk: nat, v: nat): nat
  {
    Xor(Xor(Low(chk, 20) * 1024, v), Fold(High(chk, 20), 10))
  }

  function Run(chk: nat, values: seq<word>): nat
  {
    if |values| == 0 then chk else Step(Run(chk, values[..|values| - 1]), values[|values| - 1])
  }

  lemma {:induction false} RunConcat(chk: nat, a: seq<word>, b: seq<word>)
    ensures Run(chk, a + b) == Run(Run(chk, a), b)
  {
    hide Step;
    if |b| == 0 {
      assert a + b == a;
    } else {
      var n := |b| - 1;
      RunConcat(chk, a, b[..n]);
      assert (a + b)[..|a| + n] == a + b[..n];
    }
  }

  lemma {:induction false} Pow2At30()
    ensures Pow2(10) == 1024 && Pow2(20) == 0x10_0000 && Pow2(30) == 0x4000_0000
  {
    Pow2Add(10, 10);
    Pow2Add(20, 10);
  }

  lemma {:induction false} FoldBound(b: nat, n: nat)
    requires n <= 10
    ensures Fold(b, n) < 0x4000_0000
  {
    hide Xor;
    hide Bit;
    hide Pow2;
    Pow2At30();
    if n > 0 {
      FoldBound(b, n - 1);
      XorBound(Fold(b, n - 1), if Bit(b, n - 1) then Gen[n - 1] else 0, 30);
    }
  }

  lemma StepBound(chk: nat, v: word)
    ensures Step(chk, v) < 0x4000_0000
  {
    hide Xor;
    hide Pow2;
    hide Fold;
    hide High;
    hide Low;
    Pow2At30();
    HighLow(chk, 20);
    XorBound(Low(chk, 20) * 1024, v, 30);
    FoldBound(High(chk, 20), 10);
    XorBound(Xor(Low(chk, 20) * 1024, v), Fold(High(chk, 20), 10), 30);
  }

  lemma RunBound(chk: state, values: seq<word>)
    ensures Run(chk, values) < 0x4000_0000
  {
    hide Step;
    if |values| > 0 {
      StepBound(Run(chk, values[..|values| - 1]), values[|values| - 1]);
    }
  }

  /** Continues the checksum over `values`: shift, mask, and one conditional exclusive-or per generator. */
  method Polymod(start: state, values: seq<word>) returns (chk: state)
    ensures chk == Run(start, values)
  {
    hide Xor;
    hide High;
    hide Low;
    hide Pow2;
    chk := start;
    for k := 0 to |values|
      invariant chk == Run(start, values[..k])
    {
      assert values[..k + 1][..k] == values[..k];
      HighLow(chk, 20);
      Pow2At30();
      var b := chk / 0x10_0000;
      var acc := Xor(chk % 0x10_0000 * 1024, values[k]);
      ghost var base := acc;
      XorZero(base);
      for i := 0 to 10
        invariant acc == Xor(base, Fold(b, i))
      {
        HighLow(b, i);
        XorAssoc(base, Fold(b, i), Gen[i]);
        XorZero(Fold(b, i));
        if b / Pow2(i) % 2 == 1 {
          acc := Xor(acc, Gen[i]);
        }
      }
      StepBound(chk, values[k]);
      chk := acc;
    }
    assert values[..|values|] == values;
  }

  // ----- linearity

  lemma XorCancel(a: nat, b: nat)
    ensures Xor(a, b) == 0 ==> a == b
    ensures Xor(a, Xor(a, b)) == b
  {
    hide Xor;
    XorAssoc(a, a, b);
    XorSelf(a);
    XorZero(b);
    XorZero(a);
  }

  lemma XorSwap(a: nat, b: nat, c: nat, d: nat)
    ensures Xor(Xor(a, b), Xor(c, d)) == Xor(Xor(a, c), Xor(b, d))
  {
    hide Xor;
    XorAssoc(a, b, Xor(c, d));
    XorAssoc(b, c, d);
    XorComm(b, c);
    XorAssoc(c, b, d);
    XorAssoc(a, c, Xor(b, d));
  }

  lemma BitXor(a: nat, b: nat, i: nat)
    ensures Bit(Xor(a, b), i) == (Bit(a, i) != Bit(b, i))
  {
    hide Xor;
    hide High;
    XorSplit(a, b, i);
    XorHalf(High(a, i), High(b, i));
  }

  lemma {:induction false} FoldLinear(a: nat, b: nat, n: nat)
    requires n <= 10
    ensures Fold(Xor(a, b), n) == Xor(Fold(a, n), Fold(b, n))
  {
    hide Xor;
    hide Bit;
    if n == 0 {
      XorZero(0);
    } else {
      FoldLinear(a, b, n - 1);
      BitXor(a, b, n - 1);
      var ga := if Bit(a, n - 1) then Gen[n - 1] else 0;
      var gb := if Bit(b, n - 1) then Gen[n - 1] else 0;
      XorSwap(Fold(a, n - 1), ga, Fold(b, n - 1), gb);
      XorZero(Gen[n - 1]);
      XorZero(0);
      XorSelf(Gen[n - 1]);
    }
  }

  lemma {:induction false} XorShift(a: nat, b: nat, k: nat)
    ensures Xor(a * Pow2(k), b * Pow2(k)) == Xor(a, b) * Pow2(k)
  {
    hide Xor;
    if k > 0 {
      XorShift(a, b, k - 1);
      var p := Pow2(k - 1);
      XorDouble(a * p, b * p);
      Twice(a, p);
      Twice(b, p);
      Twice(Xor(a, b), p);
    }
  }

  lemma StepLinear(a: nat, b: nat, u: nat, v: nat)
    ensures Step(Xor(a, b), Xor(u, v)) == Xor(Step(a, u), Step(b, v))
  {
    hide Xor;
    hide Pow2;
    hide Low;
    hide High;
    hide Fold;
    Pow2At30();
    XorSplit(a, b, 20);
    XorShift(Low(a, 20), Low(b, 20), 10);
    FoldLinear(High(a, 20), High(b, 20), 10);
    var x, y := Low(a, 20) * 1024, Low(b, 20) * 1024;
    XorSwap(x, y, u, v);
    XorSwap(Xor(x, u), Xor(y, v), Fold(High(a, 20), 10), Fold(High(b, 20), 10));
  }

  // ----- the step loses nothing

  /** Bit `j` of the folded generators, as a parity of the selecting bits. */
  function Parity(b: nat, n: nat, j: nat): bool
    requires n <= 10
    decreases n
  {
    n > 0 && Parity(b, n - 1, j) != (Bit(b, n - 1) && Bit(Gen[n - 1], j))
  }

  lemma {:induction false} FoldBit(b: nat, n: nat, j: nat)
    requires n <= 10
    ensures Bit(Fold(b, n), j) == Parity(b, n, j)
  {
    hide Xor;
    hide Bit;
    if n == 0 {
      NoBits(j);
    } else {
      FoldBit(b, n - 1, j);
      NoBits(j);
      BitXor(Fold(b, n - 1), if Bit(b, n - 1) then Gen[n - 1] else 0, j);
    }
  }

  lemma {:induction false} NoBits(j: nat)
    ensures !Bit(0, j)
  {
    if j > 0 {
      NoBits(j - 1);
    }
  }

  lemma {:induction false} LowZero(x: nat, k: nat, j: nat)
    requires Low(x, k) == 0 && j < k
    ensures !Bit(x, j)
    decreases k
  {
    if j > 0 {
      LowZero(x / 2, k - 1, j - 1);
    }
  }

  lemma {:induction false} AllBitsZero(x: nat, k: nat)
    requires x < Pow2(k) && forall j :: 0 <= j < k ==> !Bit(x, j)
    ensures x == 0
  {
    if k > 0 {
      assert !Bit(x, 0);
      forall j | 0 <= j < k - 1
        ensures !Bit(x / 2, j)
      {
        assert !Bit(x, j + 1);
      }
      AllBitsZero(x / 2, k - 1);
    }
  }

  /** The low ten bits of the generators are linearly independent. */
  lemma FoldKernel(b: nat)
    requires b < 1024 && Low(Fold(b, 10), 10) == 0
    ensures b == 0
  {
    forall j | 0 <= j < 10
      ensures !Parity(b, 10, j)
    {
      LowZero(Fold(b, 10), 10, j);
      FoldBit(b, 10, j);
    }
    ParityRows(b);
    AllBitsZero(b, 10);
  }

  /** Whether generator `i` has bit `j`, for the ten lowest bits. */
  predicate GenHas(i: nat, j: nat)
  {
    j == (i + 6) % 10 || (i >= 4 && j == i - 1)
  }

  /** In their ten lowest bits the generators are the multiples of x^6 in GF(1024) with x^10 = x^3 + 1. */
  lemma GenBit(i: nat, j: nat)
    requires i < 10 && j < 10
    ensures Bit(Gen[i], j) <==> GenHas(i, j)
  {
    hide Bit;
    BitAt(Gen[i], j);
    if i < 5 {
      LowerGen(i, j);
    } else {
      UpperGen(i, j);
    }
  }

  lemma LowerGen(i: nat, j: nat)
    requires i < 5 && j < 10
    ensures BitIn(Gen[i], j) <==> GenHas(i, j)
  {
    match i
    case 0 => assert Gen[i] == 0xE0E040;
    case 1 => assert Gen[i] == 0x1C1C080;
    case 2 => assert Gen[i] == 0x3838100;
    case 3 => assert Gen[i] == 0x7070200;
    case 4 => assert Gen[i] == 0xE0E0009;
  }

  lemma UpperGen(i: nat, j: nat)
    requires 5 <= i < 10 && j < 10
    ensures BitIn(Gen[i], j) <==> GenHas(i, j)
  {
    match i
    case 5 => assert Gen[i] == 0x1C0C2412;
    case 6 => assert Gen[i] == 0x38086C24;
    case 7 => assert Gen[i] == 0x3090FC48;
    case 8 => assert Gen[i] == 0x21B1F890;
    case 9 => assert Gen[i] == 0x3F3F120;
  }

  predicate BitIn(x: nat, j: nat)
  {
    var q := match j
      case 0 => x
      case 1 => x / 2
      case 2 => x / 4
      case 3 => x / 8
      case 4 => x / 16
      case 5 => x / 32
      case 6 => x / 64
      case 7 => x / 128
      case 8 => x / 256
      case _ => x / 512;
    q % 2 == 1
  }

  lemma BitAt(x: nat, j: nat)
    requires j < 10
    ensures Bit(x, j) <==> BitIn(x, j)
  {
    hide High;
    HighLow(x, j);
  }

  lemma ParityRows(b: nat)
    requires forall j :: 0 <= j < 10 ==> !Parity(b, 10, j)
    ensures forall j :: 0 <= j < 10 ==> !Bit(b, j)
  {
    hide Bit;
    hide Xor;
    forall i, j | 0 <= i < 10 && 0 <= j < 10
      ensures Bit(Gen[i], j) <==> GenHas(i, j)
    {
      GenBit(i, j);
    }
    assert !Parity(b, 10, 0) && !Parity(b, 10, 1) && !Parity(b, 10, 2);
    assert !Bit(b, 4) && !Bit(b, 5) && !Bit(b, 6);
    assert !Parity(b, 10, 3) && !Parity(b, 10, 4) && !Parity(b, 10, 5);
    assert !Bit(b, 7) && !Bit(b, 8) && !Bit(b, 9);
    assert !Parity(b, 10, 6) && !Parity(b, 10, 7) && !Parity(b, 10, 8) && !Parity(b, 10, 9);
  }

  lemma StepKernel(d: state)
    requires Step(d, 0) == 0
    ensures d == 0
  {
    hide Xor;
    hide Pow2;
    hide Low;
    hide High;
    hide Fold;
    Pow2At30();
    HighLow(d, 20);
    var s, f := Low(d, 20) * 1024, Fold(High(d, 20), 10);
    XorZero(s);
    XorSplit(s, f, 10);
    HighLow(s, 10);
    QuotientUnique(s, 1024, Low(d, 20), 0);
    HighLow(0, 10);
    XorZero(Low(f, 10));
    FoldKernel(High(d, 20));
    FoldNone(10);
  }

  lemma {:induction false} FoldNone(n: nat)
    requires n <= 10
    ensures Fold(0, n) == 0
  {
    hide Bit;
    if n > 0 {
      FoldNone(n - 1);
      NoBits(n - 1);
    }
  }

  lemma StepInjective(a: state, b: state, v: word)
    requires Step(a, v) == Step(b, v)
    ensures a == b
  {
    hide Xor;
    hide Pow2;
    hide Step;
    StepLinear(a, b, v, v);
    XorSelf(v);
    XorSelf(Step(a, v));
    Pow2At30();
    XorBound(a, b, 30);
    StepKernel(Xor(a, b));
    XorCancel(a, b);
  }

  /** Different states stay different whatever words follow. */
  lemma {:induction false} RunInjective(a: state, b: state, values: seq<word>)
    requires Run(a, values) == Run(b, values)
    ensures a == b
  {
    hide Step;
    if |values| > 0 {
      var n := |values| - 1;
      RunBound(a, values[..n]);
      RunBound(b, values[..n]);
      StepInjective(Run(a, values[..n]), Run(b, values[..n]), values[n]);
      RunInjective(a, b, values[..n]);
    }
  }

  // ----- three words in a row

  function Three(x: nat, u: nat, v: nat, w: nat): nat
  {
    Step(Step(Step(x, u), v), w)
  }

  lemma RunThree(x: nat, c: seq<word>)
    requires |c| == 3
    ensures Run(x, c) == Three(x, c[0], c[1], c[2])
  {
    hide Step;
    assert c[..2][..1] == c[..1];
    assert c[..1][..0] == [];
    assert Run(x, c[..1]) == Step(x, c[0]);
    assert Run(x, c[..2]) == Step(Step(x, c[0]), c[1]);
  }

  /** While the state has at most twenty bits a step appends the word to it. */
  lemma StepAppend(x: nat, v: word)
    requires x < 0x10_0000
    ensures Step(x, v) == x * 1024 + v
  {
    hide Xor;
    hide Pow2;
    hide Low;
    hide High;
    hide Fold;
    Pow2At30();
    HighLow(x, 20);
    FoldNone(10);
    XorDisjoint(x, v, 10);
    XorZero(Xor(x * 1024, v));
  }

  lemma ThreeFromZero(u: word, v: word, w: word)
    ensures Three(0, u, v, w) == u * 0x10_0000 + v * 1024 + w
  {
    hide Step;
    StepAppend(0, u);
    StepAppend(u, v);
    StepAppend(u * 1024 + v, w);
  }

  lemma ThreeLinear(x: nat, y: nat, u: nat, v: nat, w: nat, u': nat, v': nat, w': nat)
    ensures Three(Xor(x, y), Xor(u, u'), Xor(v, v'), Xor(w, w')) == Xor(Three(x, u, v, w), Three(y, u', v', w'))
  {
    hide Xor;
    hide Step;
    StepLinear(x, y, u, u');
    StepLinear(Step(x, u), Step(y, u'), v, v');
    StepLinear(Step(Step(x, u), v), Step(Step(y, u'), v'), w, w');
  }

  lemma XorWord(a: word, b: word)
    ensures Xor(a, b) < 1024
  {
    hide Xor;
    hide Pow2;
    Pow2At30();
    XorBound(a, b, 10);
  }

  lemma ThreeInjective(x: state, c: seq<word>, d: seq<word>)
    requires |c| == |d| == 3 && Run(x, c) == Run(x, d)
    ensures c == d
  {
    hide Xor;
    hide Step;
    hide Three;
    RunThree(x, c);
    RunThree(x, d);
    ThreeLinear(x, x, c[0], c[1], c[2], d[0], d[1], d[2]);
    XorSelf(x);
    XorSelf(Run(x, c));
    XorWord(c[0], d[0]);
    XorWord(c[1], d[1]);
    XorWord(c[2], d[2]);
    ThreeFromZero(Xor(c[0], d[0]), Xor(c[1], d[1]), Xor(c[2], d[2]));
    XorCancel(c[0], d[0]);
    XorCancel(c[1], d[1]);
    XorCancel(c[2], d[2]);
  }

  /** Two mnemonics that differ only inside some three consecutive words have different checksums. */
  lemma BurstDetected(start: state, a: seq<word>, b: seq<word>, s: nat)
    requires |a| == |b| && s + 3 <= |a| && a != b
    requires a[..s] == b[..s] && a[s + 3..] == b[s + 3..]
    ensures Run(start, a) != Run(start, b)
  {
    hide Step;
    hide Run;
    var c, d, rest := a[s..s + 3], b[s..s + 3], a[s + 3..];
    assert a == a[..s] + (c + rest);
    assert b == a[..s] + (d + rest);
    var x := Run(start, a[..s]);
    RunConcat(start, a[..s], c + rest);
    RunConcat(start, a[..s], d + rest);
    RunConcat(x, c, rest);
    RunConcat(x, d, rest);
    RunBound(start, a[..s]);
    RunBound(x, c);
    RunBound(x, d);
    if Run(start, a) == Run(start, b) {
      RunInjective(Run(x, c), Run(x, d), rest);
      ThreeInjective(x, c, d);
      assert false;
    }
  }

  // ----- creating and verifying

  function Custom(extendable: bool): (c: seq<word>)
  {
    if extendable then CustomExt else CustomOrig
  }

  /** The mnemonic checks out: the customization string and the words fold to 1. */
  predicate ChecksumValid(data: seq<word>, extendable: bool)
  {
    Run(1, Custom(extendable) + data) == 1
  }

  method Rs1024Verify(data: seq<word>, extendable: bool) returns (ok: bool)
    ensures ok <==> ChecksumValid(data, extendable)
  {
    hide Run;
    var chk := Polymod(1, Custom(extendable));
    chk := Polymod(chk, data);
    RunConcat(1, Custom(extendable), data);
    ok := chk == 1;
  }

  function Checksum(data: seq<word>, extendable: bool): (c: seq<word>)
    ensures |c| == 3
  {
    var p := Xor(Run(1, Custom(extendable) + data + [0, 0, 0]), 1);
    [p / 0x10_0000 % 1024, p / 1024 % 1024, p % 1024]
  }

  /** The three checksum words always exist, and no other three do. */
  lemma ChecksumExact(data: seq<word>, extendable: bool, c: seq<word>)
    requires |c| == 3
    ensures ChecksumValid(data + c, extendable) <==> c == Checksum(data, extendable)
  {
    hide Xor;
    hide Run;
    hide Three;
    hide Pow2;
    var head := Custom(extendable) + data;
    var x := Run(1, head);
    var k := Checksum(data, extendable);
    RunBound(1, head);
    RunConcat(1, head, [0, 0, 0]);
    RunThree(x, [0, 0, 0]);
    var z := Run(x, [0, 0, 0]);
    RunBound(x, [0, 0, 0]);
    var p := Xor(z, 1);
    Pow2At30();
    XorBound(z, 1, 30);
    ThreeLinear(x, 0, 0, 0, 0, k[0], k[1], k[2]);
    XorZero(x);
    XorZero(k[0]);
    XorZero(k[1]);
    XorZero(k[2]);
    ThreeFromZero(k[0], k[1], k[2]);
    XorCancel(z, 1);
    RunThree(x, k);
    RunConcat(1, head, k);
    RunConcat(1, head, c);
    assert head + k == Custom(extendable) + (data + k);
    assert head + c == Custom(extendable) + (data + c);
    if ChecksumValid(data + c, extendable) {
      ThreeInjective(x, c, k);
    }
  }

  /** A valid mnemonic damaged inside three consecutive words is refused, as long as the damage does
      not change which customization string applies. */
  lemma DamageRefused(a: seq<word>, b: seq<word>, extendable: bool, s: nat)
    requires |a| == |b| && s + 3 <= |a| && a != b
    requires a[..s] == b[..s] && a[s + 3..] == b[s + 3..]
    requires ChecksumValid(a, extendable)
    ensures !ChecksumValid(b, extendable)
  {
    hide Run;
    var c := Custom(extendable);
    RunConcat(1, c, a);
    RunConcat(1, c, b);
    RunBound(1, c);
    BurstDetected(Run(1, c), a, b, s);
  }
}
