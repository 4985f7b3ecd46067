/** Poly1305 over radix-2^26 limbs, against the polynomial evaluation modulo 2^130 - 5. */
module Poly1305 {
  import opened Bits
  import opened LittleEndian

  const B26: nat := 0x400_0000
  const W64: nat := 0x1_0000_0000_0000_0000
  const W96: nat := 0x1_0000_0000_0000_0000_0000_0000
  const W128: nat := 0x1_0000_0000_0000_0000_0000_0000_0000_0000
  const B52: nat := 0x10_0000_0000_0000
  const B78: nat := 0x4000_0000_0000_0000_0000
  const B104: nat := 0x100_0000_0000_0000_0000_0000_0000
  const B130: nat := 0x4_0000_0000_0000_0000_0000_0000_0000_0000
  const P: nat := B130 - 5

  // ----- the specification

  function Pow256(n: nat): nat
  {
    if n == 0 then 1 else 256 * Pow256(n - 1)
  }

  /** The key with the top four bits of every fourth byte and the low two bits of the byte after it cleared. */
  function ClampByte(i: nat, b: byte): byte
  {
    if i % 4 == 3 then b % 16 else if i == 4 || i == 8 || i == 12 then b - b % 4 else b
  }

  function Clamp(key: seq<byte>): (r: nat)
    requires |key| == 16
  {
    LE(seq(16, i requires 0 <= i < 16 => ClampByte(i, key[i])))
  }

  function BlockLength(msg: seq<byte>): nat
  {
    if |msg| < 16 then |msg| else 16
  }

  /** One block with its length bit appended. */
  function BlockValue(msg: seq<byte>): nat
  {
    var n := BlockLength(msg);
    LE(msg[..n]) + Pow256(n)
  }

  /** Horner's rule over the blocks, modulo 2^130 - 5. */
  function Evaluate(r: nat, acc: nat, msg: seq<byte>): nat
    decreases |msg|
  {
    if |msg| == 0 then acc else
      Evaluate(r, ((acc + BlockValue(msg)) * r) % P, msg[BlockLength(msg)..])
  }

  function Tag(rKey: seq<byte>, sKey: seq<byte>, msg: seq<byte>): nat
    requires |rKey| == 16 && |sKey| == 16
  {
    (Evaluate(Clamp(rKey), 0, msg) + LE(sKey)) % W128
  }

  // ----- words and limbs

  lemma LESixteen(s: seq<byte>)
    requires |s| == 16
    ensures LE(s) == Load(s, 0) + W32 * Load(s, 4) + W64 * Load(s, 8) + W96 * Load(s, 12)
  {
    LEFour(s);
    LEFour(s[4..]);
    LEFour(s[8..]);
    LEFour(s[12..]);
    assert s[4..][4..] == s[8..] && s[8..][4..] == s[12..] && s[12..][4..] == [];
  }

  datatype Limbs = Limbs(l0: nat, l1: nat, l2: nat, l3: nat, l4: nat)

  function Value(h: Limbs): nat
  {
    h.l0 + B26 * h.l1 + B52 * h.l2 + B78 * h.l3 + B104 * h.l4
  }

  /** Cutting 128 bits into 26-bit limbs.  The disjunctions of the source join disjoint bits, so they are sums. */
  function Split(t0: nat, t1: nat, t2: nat, t3: nat): Limbs
  {
    Limbs(t0 % B26,
          (t0 / B26 + t1 * 0x40) % B26,
          (t1 / 0x10_0000 + t2 * 0x1000) % B26,
          (t2 / 0x4000 + t3 * 0x4_0000) % B26,
          t3 / 0x100)
  }

  lemma Join(lo: nat, hi: nat, a: nat, b: nat)
    requires 0 < a && 0 < b && lo < a && a * b == B26
    ensures (lo + hi * a) % B26 == lo + a * (hi % b)
  {
    var q, r := hi / b, hi % b;
    assert hi == q * b + r;
    assert hi * a == q * (a * b) + r * a;
    assert r * a <= (b - 1) * a;
    QuotientUnique(lo + hi * a, B26, q, lo + r * a);
  }

  lemma SplitValue(t0: nat, t1: nat, t2: nat, t3: nat)
    requires t0 < W32 && t1 < W32 && t2 < W32 && t3 < W32
    ensures Value(Split(t0, t1, t2, t3)) == t0 + W32 * t1 + W64 * t2 + W96 * t3
    ensures var m := Split(t0, t1, t2, t3);
      m.l0 < B26 && m.l1 < B26 && m.l2 < B26 && m.l3 < B26 && m.l4 < 0x100_0000
  {
    Join(t0 / B26, t1, 0x40, 0x10_0000);
    Join(t1 / 0x10_0000, t2, 0x1000, 0x4000);
    Join(t2 / 0x4000, t3, 0x4_0000, 0x100);
  }

  // ----- clamping

  /** `x` with the bits from weight `lo` up to weight `hi` cleared. */
  function Clear(x: nat, lo: nat, hi: nat): nat
    requires 0 < lo && 0 < hi
  {
    if x % hi < x % lo then x else x - x % hi + x % lo
  }

  /** The masked limbs of the key. */
  function KeyLimbs(t0: nat, t1: nat, t2: nat, t3: nat): Limbs
  {
    var m := Split(t0, t1, t2, t3);
    Limbs(m.l0, Clear(m.l1, 0x4, 0x100), Clear(m.l2, 0x100, 0x4000), Clear(m.l3, 0x4000, 0x10_0000), m.l4 % 0x10_0000)
  }

  /** A word with its top four bits, and its low two bits unless it is the first, cleared. */
  function ClampWord(t: nat, first: bool): nat
  {
    var low := if first then 0 else t % 4;
    t % 0x1000_0000 - low
  }

  lemma ClampHigh(u: nat, first: bool)
    requires u < W32
    ensures ClampWord(u, first) / 0x400_0000 == u / 0x400_0000 % 0x4
    ensures ClampWord(u, first) / 0x10_0000 == u / 0x10_0000 % 0x100
    ensures ClampWord(u, first) / 0x4000 == u / 0x4000 % 0x4000
    ensures ClampWord(u, first) / 0x100 == u / 0x100 % 0x10_0000
  {
    var low := if first then 0 else u % 4;
    HighPart(u, low, 0x400_0000, 0x4);
    HighPart(u, low, 0x10_0000, 0x100);
    HighPart(u, low, 0x4000, 0x4000);
    HighPart(u, low, 0x100, 0x10_0000);
  }

  lemma Nested(u: nat, a: nat, c: nat)
    requires a > 0 && c > 0
    ensures a * c > 0 && u % (a * c) == (u / a % c) * a + u % a
  {
    var q, r := u / a, u % a;
    DivisionStep(u, a);
    DivisionStep(q, c);
    NestedParts(u, a, c, q, r, q / c, q % c);
  }

  lemma DivisionStep(u: nat, a: nat)
    requires a > 0
    ensures u == u / a * a + u % a && 0 <= u % a < a && u / a >= 0
  {
  }

  lemma NestedParts(u: nat, a: nat, c: nat, q: nat, r: nat, k: nat, v: nat)
    requires a > 0 && c > 0 && u == q * a + r && q == k * c + v && r < a && v < c
    ensures a * c > 0 && u % (a * c) == v * a + r
  {
    SplitTwice(k, c, v, a);
    MulMono(v + 1, c, a);
    MulNext(v, a);
    MulMono(1, a, c);
    QuotientUnique(u, a * c, k, v * a + r);
  }

  lemma SplitTwice(k: nat, c: nat, v: nat, a: nat)
    ensures (k * c + v) * a == k * (a * c) + v * a && c * a == a * c
  {
  }

  lemma HighPart(u: nat, low: nat, a: nat, c: nat)
    requires a * c == 0x1000_0000 && a >= 4 && a % 4 == 0 && c > 0 && (low == 0 || low == u % 4)
    ensures u % 0x1000_0000 >= low && (u % 0x1000_0000 - low) / a == u / a % c
    ensures (u % 0x1000_0000 - low) % a == u % a - low
  {
    Nested(u, a, c);
    Nested(u, 4, a / 4);
    var v, r := u / a % c, u % a;
    assert low <= r;
    QuotientUnique(v * a + r - low, a, v, r - low);
  }

  lemma ClampLow(t: nat)
    requires t < W32
    ensures ClampWord(t, false) % 0x10_0000 == t % 0x10_0000 - t % 4
    ensures ClampWord(t, false) % 0x4000 == t % 0x4000 - t % 4
    ensures ClampWord(t, false) % 0x100 == t % 0x100 - t % 4
  {
    HighPart(t, t % 4, 0x10_0000, 0x100);
    HighPart(t, t % 4, 0x4000, 0x4000);
    HighPart(t, t % 4, 0x100, 0x10_0000);
  }

  lemma JointHigh(v: nat, w: nat, k: nat)
    requires v < k
    ensures (v + k * w) % (4 * k) == v + k * (w % 4)
  {
    var q, r := w / 4, w % 4;
    assert w == 4 * q + r;
    assert k * w == q * (4 * k) + k * r;
    MulMono(r, 3, k);
    QuotientUnique(v + k * w, 4 * k, q, v + k * r);
  }

  lemma JointLow(v: nat, w: nat, k: nat, lo: nat)
    requires lo > 0 && k % lo == 0
    ensures (v + k * w) % lo == v % lo
  {
    var e := k / lo;
    assert k == e * lo;
    assert k * w == (e * w) * lo;
    QuotientUnique(v + k * w, lo, e * w + v / lo, v % lo);
  }

  lemma ClearJoint(v: nat, w: nat, k: nat, lo: nat)
    requires v < k && lo > 0 && k % lo == 0
    ensures Clear(v + k * w, lo, 4 * k) == v % lo + k * (w - w % 4)
  {
    hide Clear;
    JointHigh(v, w, k);
    JointLow(v, w, k, lo);
    RemainderSmall(v, lo);
    var a, b := w - w % 4, w % 4;
    SplitFactor(k, a, b);
    MulMono(0, b, k);
    Cleared(v + k * w, lo, 4 * k, v + k * b, v % lo);
  }

  lemma RemainderSmall(v: nat, lo: nat)
    requires lo > 0
    ensures 0 <= v % lo <= v
  {
    MulMono(0, v / lo, lo);
  }

  lemma SplitFactor(k: nat, a: nat, b: nat)
    ensures k * (a + b) == k * a + k * b
  {
  }

  lemma Cleared(x: nat, lo: nat, hi: nat, below: nat, rest: nat)
    requires lo > 0 && hi > 0 && x % hi == below && x % lo == rest && rest <= below
    ensures Clear(x, lo, hi) == x - below + rest
  {
  }

  /** One limb that straddles two words: masking it is clamping both words first. */
  lemma StraddlingLimb(v: nat, t: nat, cv: nat, ct: nat, w: nat, k: nat, b: nat, lo: nat)
    requires k * b == B26 && 0 < k && 0 < b && 0 < lo && k % lo == 0
    requires v < k && cv == v % lo && cv < k && w == t % b && ct % b == w - w % 4
    ensures Clear((v + t * k) % B26, lo, 4 * k) == (cv + ct * k) % B26
  {
    hide Clear;
    Join(v, t, k, b);
    Join(cv, ct, k, b);
    ClearJoint(v, w, k, lo);
  }

  lemma LowTwo(t: nat)
    ensures t % 0x10_0000 % 4 == t % 4 && t % 0x4000 % 4 == t % 4 && t % 0x100 % 4 == t % 4
  {
    Nested(t, 4, 0x4_0000);
    Nested(t, 4, 0x1000);
    Nested(t, 4, 0x40);
  }

  lemma ClampLimbs(u: nat, t: nat, first: bool)
    requires u < W32 && t < W32
    ensures var cu, ct := ClampWord(u, first), ClampWord(t, false);
      && Clear((u / B26 + t * 0x40) % B26, 0x4, 0x100) == (cu / B26 + ct * 0x40) % B26
      && Clear((u / 0x10_0000 + t * 0x1000) % B26, 0x100, 0x4000) == (cu / 0x10_0000 + ct * 0x1000) % B26
      && Clear((u / 0x4000 + t * 0x4_0000) % B26, 0x4000, 0x10_0000) == (cu / 0x4000 + ct * 0x4_0000) % B26
  {
    hide Clear;
    hide ClampWord;
    var cu, ct := ClampWord(u, first), ClampWord(t, false);
    ClampHigh(u, first);
    ClampLow(t);
    LowTwo(t);
    StraddlingLimb(u / B26, t, cu / B26, ct, t % 0x10_0000, 0x40, 0x10_0000, 0x4);
    StraddlingLimb(u / 0x10_0000, t, cu / 0x10_0000, ct, t % 0x4000, 0x1000, 0x4000, 0x100);
    StraddlingLimb(u / 0x4000, t, cu / 0x4000, ct, t % 0x100, 0x4_0000, 0x100, 0x4000);
  }

  /** Masking the limbs is clamping the key. */
  lemma KeyLimbsAreClamped(t0: nat, t1: nat, t2: nat, t3: nat)
    requires t0 < W32 && t1 < W32 && t2 < W32 && t3 < W32
    ensures KeyLimbs(t0, t1, t2, t3)
         == Split(ClampWord(t0, true), ClampWord(t1, false), ClampWord(t2, false), ClampWord(t3, false))
  {
    hide Clear;
    hide ClampWord;
    ClampLimbs(t0, t1, true);
    ClampLimbs(t1, t2, false);
    ClampLimbs(t2, t3, false);
    ClampHigh(t3, false);
    ClampFirst(t0);
  }

  lemma ClampFirst(t: nat)
    ensures ClampWord(t, true) % B26 == t % B26
  {
    Nested(t, B26, 4);
    QuotientUnique(t % 0x1000_0000, B26, t / B26 % 4, t % B26);
  }

  lemma ClampedBytes(b0: byte, b1: byte, b2: byte, b3: byte, first: bool, t: nat)
    requires t == b0 as nat + 0x100 * b1 as nat + 0x1_0000 * b2 as nat + 0x100_0000 * b3 as nat
    ensures ClampWord(t, first) == (if first then b0 as nat else b0 as nat - b0 as nat % 4)
      + 0x100 * b1 as nat + 0x1_0000 * b2 as nat + 0x100_0000 * (b3 as nat % 16)
  {
    var c0: nat, c1: nat, c2: nat, c3: nat := b0, b1, b2, b3;
    QuotientUnique(t, 0x1000_0000, c3 / 16, c0 + 0x100 * c1 + 0x1_0000 * c2 + 0x100_0000 * (c3 % 16));
    QuotientUnique(t, 4, c0 / 4 + 0x40 * c1 + 0x4000 * c2 + 0x40_0000 * c3, c0 % 4);
  }

  lemma ClampedWord(s: seq<byte>, c: seq<byte>, off: nat)
    requires |s| == |c| == 16 && (off == 0 || off == 4 || off == 8 || off == 12)
    requires forall i :: 0 <= i < 16 ==> c[i] == ClampByte(i, s[i])
    ensures Load(c, off) == ClampWord(Load(s, off), off == 0)
  {
    hide ClampWord;
    ClampedBytes(s[off], s[off + 1], s[off + 2], s[off + 3], off == 0, Load(s, off));
  }

  lemma KeyValue(key: seq<byte>)
    requires |key| == 16
    ensures Value(KeyLimbs(Load(key, 0), Load(key, 4), Load(key, 8), Load(key, 12))) == Clamp(key)
    ensures var r := KeyLimbs(Load(key, 0), Load(key, 4), Load(key, 8), Load(key, 12));
      r.l0 < B26 && r.l1 < B26 && r.l2 < B26 && r.l3 < B26 && r.l4 < B26
  {
    hide KeyLimbs;
    hide Split;
    hide Value;
    hide Load;
    hide LE;
    hide ClampWord;
    hide ClampByte;
    var c := seq(16, i requires 0 <= i < 16 => ClampByte(i, key[i]));
    ClampedWord(key, c, 0);
    ClampedWord(key, c, 4);
    ClampedWord(key, c, 8);
    ClampedWord(key, c, 12);
    LESixteen(c);
    KeyLimbsAreClamped(Load(key, 0), Load(key, 4), Load(key, 8), Load(key, 12));
    SplitValue(Load(c, 0), Load(c, 4), Load(c, 8), Load(c, 12));
  }

  // ----- multiplication modulo 2^130 - 5

  lemma Distribute(a: nat, r: Limbs)
    ensures a * Value(r) == a * r.l0 + B26 * (a * r.l1) + B52 * (a * r.l2) + B78 * (a * r.l3) + B104 * (a * r.l4)
  {
    DistributeOne(a, r.l0, B26, r.l1);
    DistributeOne(a, r.l0 + B26 * r.l1, B52, r.l2);
    DistributeOne(a, r.l0 + B26 * r.l1 + B52 * r.l2, B78, r.l3);
    DistributeOne(a, r.l0 + B26 * r.l1 + B52 * r.l2 + B78 * r.l3, B104, r.l4);
  }

  lemma DistributeOne(a: nat, x: nat, b: nat, y: nat)
    ensures a * (x + b * y) == a * x + b * (a * y)
  {
    assert a * (b * y) == b * (a * y);
  }

  lemma DistributeLeft(h: Limbs, v: nat)
    ensures Value(h) * v == h.l0 * v + B26 * (h.l1 * v) + B52 * (h.l2 * v) + B78 * (h.l3 * v) + B104 * (h.l4 * v)
  {
    Distribute(v, h);
  }

  datatype Wide = Wide(d0: nat, d1: nat, d2: nat, d3: nat, d4: nat)

  /** The five column sums, with columns past 2^130 folded in times five. */
  function Columns(h: Limbs, r: Limbs): Wide
  {
    var s1, s2, s3, s4 := r.l1 * 5, r.l2 * 5, r.l3 * 5, r.l4 * 5;
    Wide(h.l0 * r.l0 + h.l1 * s4 + h.l2 * s3 + h.l3 * s2 + h.l4 * s1,
         h.l0 * r.l1 + h.l1 * r.l0 + h.l2 * s4 + h.l3 * s3 + h.l4 * s2,
         h.l0 * r.l2 + h.l1 * r.l1 + h.l2 * r.l0 + h.l3 * s4 + h.l4 * s3,
         h.l0 * r.l3 + h.l1 * r.l2 + h.l2 * r.l1 + h.l3 * r.l0 + h.l4 * s4,
         h.l0 * r.l4 + h.l1 * r.l3 + h.l2 * r.l2 + h.l3 * r.l1 + h.l4 * r.l0)
  }

  function WideValue(d: Wide): nat
  {
    d.d0 + B26 * d.d1 + B52 * d.d2 + B78 * d.d3 + B104 * d.d4
  }

  /** What the folding drops: the columns past 2^130. */
  function Overflow(h: Limbs, r: Limbs): nat
  {
    (h.l1 * r.l4 + h.l2 * r.l3 + h.l3 * r.l2 + h.l4 * r.l1)
      + B26 * (h.l2 * r.l4 + h.l3 * r.l3 + h.l4 * r.l2)
      + B52 * (h.l3 * r.l4 + h.l4 * r.l3)
      + B78 * (h.l4 * r.l4)
  }

  lemma FiveTimes(a: nat, b: nat)
    ensures a * (b * 5) == 5 * (a * b)
  {
  }

  lemma ColumnsValue(h: Limbs, r: Limbs)
    ensures Value(h) * Value(r) == WideValue(Columns(h, r)) + P * Overflow(h, r)
  {
    DistributeLeft(h, Value(r));
    Distribute(h.l0, r);
    Distribute(h.l1, r);
    Distribute(h.l2, r);
    Distribute(h.l3, r);
    Distribute(h.l4, r);
    FiveTimes(h.l1, r.l4);
    FiveTimes(h.l2, r.l3);
    FiveTimes(h.l2, r.l4);
    FiveTimes(h.l3, r.l2);
    FiveTimes(h.l3, r.l3);
    FiveTimes(h.l3, r.l4);
    FiveTimes(h.l4, r.l1);
    FiveTimes(h.l4, r.l2);
    FiveTimes(h.l4, r.l3);
    FiveTimes(h.l4, r.l4);
    hide Value;
  }

  /** Limbs after a block has been added: one bit of slack, and the carry that limb 1 may still hold. */
  ghost predicate Loaded(h: Limbs)
  {
    h.l0 < 2 * B26 && h.l1 < 2 * B26 + 64 && h.l2 < 2 * B26 && h.l3 < 2 * B26 && h.l4 < 2 * B26
  }

  /** Limbs between blocks. */
  ghost predicate Carried(h: Limbs)
  {
    h.l0 < B26 && h.l1 < B26 + 64 && h.l2 < B26 && h.l3 < B26 && h.l4 < B26
  }

  ghost predicate Reduced(h: Limbs)
  {
    h.l0 < B26 && h.l1 < B26 && h.l2 < B26 && h.l3 < B26 && h.l4 < B26
  }

  lemma ProductBound(a: nat, b: nat)
    requires a < 2 * B26 + 64 && b < B26
    ensures a * b <= (2 * B26 + 63) * (B26 - 1)
    ensures a * (b * 5) <= 5 * ((2 * B26 + 63) * (B26 - 1))
  {
    MulMono(a, 2 * B26 + 63, b);
    MulMono(b, B26 - 1, 2 * B26 + 63);
    FiveTimes(a, b);
  }

  /** Every column sum fits 64 bits, with room for the incoming carry. */
  lemma ColumnBounds(h: Limbs, r: Limbs)
    requires Loaded(h) && Reduced(r)
    ensures var d, x := Columns(h, r), (2 * B26 + 63) * (B26 - 1);
      d.d0 <= 21 * x && d.d1 <= 17 * x && d.d2 <= 13 * x && d.d3 <= 9 * x && d.d4 <= 5 * x
    ensures 21 * ((2 * B26 + 63) * (B26 - 1)) + W32 < W64
  {
    ProductBound(h.l0, r.l0);
    ProductBound(h.l0, r.l1);
    ProductBound(h.l0, r.l2);
    ProductBound(h.l0, r.l3);
    ProductBound(h.l0, r.l4);
    ProductBound(h.l1, r.l0);
    ProductBound(h.l1, r.l1);
    ProductBound(h.l1, r.l2);
    ProductBound(h.l1, r.l3);
    ProductBound(h.l1, r.l4);
    ProductBound(h.l2, r.l0);
    ProductBound(h.l2, r.l1);
    ProductBound(h.l2, r.l2);
    ProductBound(h.l2, r.l3);
    ProductBound(h.l2, r.l4);
    ProductBound(h.l3, r.l0);
    ProductBound(h.l3, r.l1);
    ProductBound(h.l3, r.l2);
    ProductBound(h.l3, r.l3);
    ProductBound(h.l3, r.l4);
    ProductBound(h.l4, r.l0);
    ProductBound(h.l4, r.l1);
    ProductBound(h.l4, r.l2);
    ProductBound(h.l4, r.l3);
    ProductBound(h.l4, r.l4);
  }

  /** Carrying the columns back into limbs.  Every carry fits 32 bits and every sum 64. */
  method CarryColumns(d: Wide) returns (h: Limbs, ghost k: nat)
    requires var x := (2 * B26 + 63) * (B26 - 1);
      d.d0 <= 21 * x && d.d1 <= 17 * x && d.d2 <= 13 * x && d.d3 <= 9 * x && d.d4 <= 5 * x
    ensures Carried(h) && Value(h) + P * k == WideValue(d)
  {
    var d0, d1, d2, d3, d4 := d.d0, d.d1, d.d2, d.d3, d.d4;
    var c := d0 / B26;
    var h0 := d0 % B26;
    assert c < W32;
    d1 := d1 + c;
    ghost var c0 := c;
    c := d1 / B26;
    var h1 := d1 % B26;
    assert c < W32 && d1 < W64;
    d2 := d2 + c;
    ghost var c1 := c;
    c := d2 / B26;
    var h2 := d2 % B26;
    assert c < W32 && d2 < W64;
    d3 := d3 + c;
    ghost var c2 := c;
    c := d3 / B26;
    var h3 := d3 % B26;
    assert c < W32 && d3 < W64;
    d4 := d4 + c;
    ghost var c3 := c;
    c := d4 / B26;
    var h4 := d4 % B26;
    assert c < W32 && d4 < W64;
    k := c;
    h0 := h0 + c * 5;
    assert h0 < W32;
    c := h0 / B26;
    h0 := h0 % B26;
    assert c < 64;
    h1 := h1 + c;
    h := Limbs(h0, h1, h2, h3, h4);
  }

  lemma ModMinus(a: nat, b: nat, k: nat)
    requires b + P * k == a
    ensures b % P == a % P
  {
    QuotientUnique(a, P, b / P + k, b % P);
  }

  method MulReduce(h: Limbs, r: Limbs) returns (n: Limbs)
    requires Loaded(h) && Reduced(r)
    ensures Carried(n) && Value(n) % P == (Value(h) * Value(r)) % P
  {
    hide Value;
    hide WideValue;
    hide Overflow;
    ColumnBounds(h, r);
    ColumnsValue(h, r);
    ghost var k: nat;
    n, k := CarryColumns(Columns(h, r));
    hide Columns;
    var o := Overflow(h, r);
    assert P * k + P * o == P * (k + o);
    ModMinus(Value(h) * Value(r), Value(n), k + o);
  }

  // ----- message blocks

  lemma {:induction false} LEConcat(a: seq<byte>, b: seq<byte>)
    ensures LE(a + b) == LE(a) + Pow256(|a|) * LE(b)
  {
    if |a| == 0 {
      assert a + b == b;
    } else {
      LEConcat(a[1..], b);
      assert (a + b)[1..] == a[1..] + b;
      assert 256 * (Pow256(|a| - 1) * LE(b)) == Pow256(|a|) * LE(b);
    }
  }

  lemma {:induction false} LEZeros(z: seq<byte>)
    requires forall i :: 0 <= i < |z| ==> z[i] == 0
    ensures LE(z) == 0
  {
    if |z| > 0 {
      LEZeros(z[1..]);
    }
  }

  lemma LEOne(z: seq<byte>)
    ensures LE([1] + z) == 1 + 256 * LE(z)
  {
    assert ([1] + z)[1..] == z;
  }

  lemma PaddedBlock(s: seq<byte>, z: seq<byte>)
    requires forall i :: 0 <= i < |z| ==> z[i] == 0
    ensures LE(s + ([1] + z)) == LE(s) + Pow256(|s|)
  {
    hide LE;
    hide Pow256;
    LEConcat(s, [1] + z);
    LEZeros(z);
    LEOne(z);
  }

  lemma {:induction false} Pow256Add(i: nat, j: nat)
    ensures Pow256(i + j) == Pow256(i) * Pow256(j)
  {
    if i > 0 {
      Pow256Add(i - 1, j);
      assert 256 * (Pow256(i - 1) * Pow256(j)) == 256 * Pow256(i - 1) * Pow256(j);
    }
  }

  lemma Pow256Sixteen()
    ensures Pow256(16) == W128
  {
    Pow256Add(4, 4);
    Pow256Add(8, 8);
  }

  /** The padded block as a byte array. */
  method BuildBlock(msg: seq<byte>) returns (block: seq<byte>, n: nat)
    requires |msg| > 0
    ensures n == BlockLength(msg) && |block| == 16
    ensures LE(block) + (if n == 16 then W128 else 0) == BlockValue(msg)
  {
    hide LE;
    n := if |msg| >= 16 then 16 else |msg|;
    var a := new byte[16](_ => 0);
    for i := 0 to n
      invariant forall k :: 0 <= k < i ==> a[k] == msg[k]
    {
      a[i] := msg[i];
    }
    if n < 16 {
      a[n] := 1;
      for i := n + 1 to 16
        invariant forall k :: 0 <= k < n ==> a[k] == msg[k]
        invariant a[n] == 1 && forall k :: n < k < i ==> a[k] == 0
      {
        a[i] := 0;
      }
      assert a[..] == msg[..n] + ([1] + a[n + 1..]);
      PaddedBlock(msg[..n], a[n + 1..]);
    } else {
      assert a[..] == msg[..16];
      Pow256Sixteen();
    }
    block := a[..];
  }

  /** h + block, limb by limb. */
  method AddBlock(h: Limbs, block: seq<byte>, full: bool) returns (m: Limbs)
    requires Carried(h) && |block| == 16
    ensures Loaded(m) && Value(m) == Value(h) + LE(block) + if full then W128 else 0
  {
    hide LE;
    hide Load;
    var t0, t1, t2, t3 := Load(block, 0), Load(block, 4), Load(block, 8), Load(block, 12);
    LESixteen(block);
    SplitValue(t0, t1, t2, t3);
    var p := Split(t0, t1, t2, t3);
    hide Split;
    m := Limbs(h.l0 + p.l0, h.l1 + p.l1, h.l2 + p.l2, h.l3 + p.l3, h.l4 + p.l4 + if full then 0x100_0000 else 0);
  }

  lemma ModCong(x: nat, b: nat, r: nat)
    ensures ((x % P + b) * r) % P == ((x + b) * r) % P
  {
    var q, x' := x / P, x % P;
    assert x == P * q + x';
    assert (x + b) * r == (x' + b) * r + P * (q * r);
    ModMinus((x + b) * r, (x' + b) * r, q * r);
  }

  // ----- the final reduction

  method FinalCarry(h: Limbs) returns (n: Limbs)
    requires Carried(h)
    ensures Reduced(n) && Value(n) % P == Value(h) % P
  {
    var h0, h1, h2, h3, h4 := h.l0, h.l1, h.l2, h.l3, h.l4;
    var c := h1 / B26; h1 := h1 % B26; h2 := h2 + c;
    ghost var c1 := c;
    assert h1 + B26 * c1 == h.l1 && (c1 == 0 || (c1 == 1 && h1 < 64));
    c := h2 / B26; h2 := h2 % B26; h3 := h3 + c;
    ghost var c2 := c;
    assert h2 + B26 * c2 == h.l2 + c1 && c2 <= c1;
    c := h3 / B26; h3 := h3 % B26; h4 := h4 + c;
    ghost var c3 := c;
    assert h3 + B26 * c3 == h.l3 + c2 && c3 <= c2;
    c := h4 / B26; h4 := h4 % B26; h0 := h0 + c * 5;
    ghost var c4 := c;
    assert h4 + B26 * c4 == h.l4 + c3 && c4 <= c3;
    c := h0 / B26; h0 := h0 % B26; h1 := h1 + c;
    assert h0 + B26 * c == h.l0 + 5 * c4 && c <= c4;
    n := Limbs(h0, h1, h2, h3, h4);
    assert Value(n) + P * c4 == Value(h);
    ModMinus(Value(h), Value(n), c4);
  }

  /** Adding five and looking at bit 130 decides whether one subtraction of the modulus is due;
      one is always enough. */
  method Subtract(h: Limbs) returns (n: Limbs)
    requires Reduced(h)
    ensures Reduced(n) && Value(n) == Value(h) % P
  {
    var g0 := h.l0 + 5; var c := g0 / B26; g0 := g0 % B26;
    var g1 := h.l1 + c; c := g1 / B26; g1 := g1 % B26;
    var g2 := h.l2 + c; c := g2 / B26; g2 := g2 % B26;
    var g3 := h.l3 + c; c := g3 / B26; g3 := g3 % B26;
    var g4 := h.l4 + c;
    assert Value(Limbs(g0, g1, g2, g3, g4)) == Value(h) + 5;
    if g4 >= B26 {
      n := Limbs(g0, g1, g2, g3, g4 % B26);
      assert Value(n) + P == Value(h);
      QuotientUnique(Value(h), P, 1, Value(n));
    } else {
      n := h;
      assert Value(h) < P;
      QuotientUnique(Value(h), P, 0, Value(h));
    }
  }

  // ----- packing and the final addition

  function Joined(f0: nat, f1: nat, f2: nat, f3: nat): nat
  {
    f0 + W32 * f1 + W64 * f2 + W96 * f3
  }

  lemma PackWord(lo: nat, hi: nat, k: nat, c: nat)
    requires lo < k && k * c == W32 && 0 < c
    ensures (lo + hi * k) % W32 == lo + k * (hi % c)
  {
    var q, r := hi / c, hi % c;
    assert hi == q * c + r;
    assert hi * k == q * (k * c) + r * k;
    assert r * k <= (c - 1) * k;
    QuotientUnique(lo + hi * k, W32, q, lo + r * k);
  }

  method Pack(h: Limbs) returns (f0: nat, f1: nat, f2: nat, f3: nat)
    requires Reduced(h)
    ensures f0 < W32 && f1 < W32 && f2 < W32 && f3 < W32
    ensures Joined(f0, f1, f2, f3) == Value(h) % W128
  {
    PackWord(h.l0, h.l1, 0x400_0000, 0x40);
    PackWord(h.l1 / 0x40, h.l2, 0x10_0000, 0x1000);
    PackWord(h.l2 / 0x1000, h.l3, 0x4000, 0x4_0000);
    PackWord(h.l3 / 0x4_0000, h.l4, 0x100, 0x100_0000);
    f0 := (h.l0 + h.l1 * 0x400_0000) % W32;
    f1 := (h.l1 / 0x40 + h.l2 * 0x10_0000) % W32;
    f2 := (h.l2 / 0x1000 + h.l3 * 0x4000) % W32;
    f3 := (h.l3 / 0x4_0000 + h.l4 * 0x100) % W32;
    assert Value(h) == W128 * (h.l4 / 0x100_0000) + Joined(f0, f1, f2, f3);
    QuotientUnique(Value(h), W128, h.l4 / 0x100_0000, Joined(f0, f1, f2, f3));
  }

  method AddKey(f0: nat, f1: nat, f2: nat, f3: nat, s: seq<byte>) returns (g0: nat, g1: nat, g2: nat, g3: nat)
    requires f0 < W32 && f1 < W32 && f2 < W32 && f3 < W32 && |s| == 16
    ensures g0 < W32 && g1 < W32 && g2 < W32 && g3 < W32
    ensures Joined(g0, g1, g2, g3) == (Joined(f0, f1, f2, f3) + LE(s)) % W128
  {
    hide LE;
    hide Load;
    LESixteen(s);
    var f := f0 + Load(s, 0);
    g0 := f % W32;
    f := f1 + Load(s, 4) + f / W32;
    g1 := f % W32;
    f := f2 + Load(s, 8) + f / W32;
    g2 := f % W32;
    f := f3 + Load(s, 12) + f / W32;
    g3 := f % W32;
    assert f < W64;
    QuotientUnique(Joined(f0, f1, f2, f3) + LE(s), W128, f / W32, Joined(g0, g1, g2, g3));
  }

  lemma WordBytesValue(f: nat, rest: seq<byte>)
    requires f < W32
    ensures LE(WordBytes(f) + rest) == f + W32 * LE(rest)
  {
    hide WordBytes;
    hide LE;
    hide Load;
    var s := WordBytes(f) + rest;
    assert s[0..0 + 4] == WordBytes(f) && s[4..] == rest;
    LoadBytes(s, 0, f);
    LEFour(s);
  }

  lemma TagBytes(f0: nat, f1: nat, f2: nat, f3: nat)
    requires f0 < W32 && f1 < W32 && f2 < W32 && f3 < W32
    ensures LE(WordBytes(f0) + (WordBytes(f1) + (WordBytes(f2) + (WordBytes(f3) + [])))) == Joined(f0, f1, f2, f3)
  {
    hide WordBytes;
    WordBytesValue(f3, []);
    WordBytesValue(f2, WordBytes(f3) + []);
    WordBytesValue(f1, WordBytes(f2) + (WordBytes(f3) + []));
    WordBytesValue(f0, WordBytes(f1) + (WordBytes(f2) + (WordBytes(f3) + [])));
  }

  /** The authenticator: for every key and message the tag is the polynomial evaluation, plus the
      pad, modulo 2^128. */
  method Mac(rKey: seq<byte>, sKey: seq<byte>, msg: seq<byte>) returns (tag: seq<byte>)
    requires |rKey| == 16 && |sKey| == 16
    ensures |tag| == 16 && LE(tag) == Tag(rKey, sKey, msg)
  {
    hide LE;
    hide Load;
    hide Value;
    hide KeyLimbs;
    hide Clamp;
    hide BlockValue;
    hide Joined;
    hide WordBytes;
    KeyValue(rKey);
    var r := KeyLimbs(Load(rKey, 0), Load(rKey, 4), Load(rKey, 8), Load(rKey, 12));
    var h := Limbs(0, 0, 0, 0, 0);
    ValueZero();
    var rest := msg;
    while |rest| > 0
      invariant Carried(h)
      invariant Evaluate(Clamp(rKey), Value(h) % P, rest) == Evaluate(Clamp(rKey), 0, msg)
      decreases |rest|
    {
      var block, n := BuildBlock(rest);
      var loaded := AddBlock(h, block, n == 16);
      ModCong(Value(h), BlockValue(rest), Clamp(rKey));
      h := MulReduce(loaded, r);
      rest := rest[n..];
    }
    h := FinalCarry(h);
    h := Subtract(h);
    var f0, f1, f2, f3 := Pack(h);
    ModAdd(Value(h), LE(sKey));
    f0, f1, f2, f3 := AddKey(f0, f1, f2, f3, sKey);
    TagBytes(f0, f1, f2, f3);
    tag := WordBytes(f0) + (WordBytes(f1) + (WordBytes(f2) + (WordBytes(f3) + [])));
  }

  lemma ValueZero()
    ensures Value(Limbs(0, 0, 0, 0, 0)) % P == 0
  {
  }

  lemma ModAdd(a: nat, b: nat)
    ensures (a % W128 + b) % W128 == (a + b) % W128
  {
    var q, x := a / W128, a % W128;
    QuotientUnique(a + b, W128, q + (x + b) / W128, (x + b) % W128);
  }

  // ----- Horner's rule is the sum of blocks times powers of the key

  function Blocks(msg: seq<byte>): nat
    decreases |msg|
  {
    if |msg| == 0 then 0 else 1 + Blocks(msg[BlockLength(msg)..])
  }

  function Power(r: nat, n: nat): nat
  {
    if n == 0 then 1 else r * Power(r, n - 1)
  }

  /** The first block times the highest power of the key, down to the last times the key itself. */
  function BlockSum(r: nat, msg: seq<byte>): nat
    decreases |msg|
  {
    if |msg| == 0 then 0 else BlockValue(msg) * Power(r, Blocks(msg)) + BlockSum(r, msg[BlockLength(msg)..])
  }

  lemma {:induction false} EvaluateIsSum(r: nat, acc: nat, msg: seq<byte>)
    ensures Evaluate(r, acc, msg) % P == (acc * Power(r, Blocks(msg)) + BlockSum(r, msg)) % P
    decreases |msg|
  {
    hide BlockValue;
    if |msg| > 0 {
      var v, rest := BlockValue(msg), msg[BlockLength(msg)..];
      var n := Blocks(rest);
      var next, p, s := ((acc + v) * r) % P, Power(r, n), BlockSum(r, rest);
      EvaluateIsSum(r, next, rest);
      SumStep(acc, v, r, p, s, next);
    }
  }

  lemma SumStep(acc: nat, v: nat, r: nat, p: nat, s: nat, next: nat)
    requires next == ((acc + v) * r) % P
    ensures (next * p + s) % P == (acc * (r * p) + (v * (r * p) + s)) % P
  {
    var full := (acc + v) * r;
    var q := full / P;
    assert full == P * q + next;
    assert full * p == next * p + P * (q * p) by { Expand(P, q, next, p); }
    assert full * p == acc * (r * p) + v * (r * p) by { Expand2(acc, v, r, p); }
    ModMinus(full * p + s, next * p + s, q * p);
  }

  lemma Expand(a: nat, q: nat, n: nat, p: nat)
    ensures (a * q + n) * p == n * p + a * (q * p)
  {
  }

  lemma Expand2(a: nat, v: nat, r: nat, p: nat)
    ensures ((a + v) * r) * p == a * (r * p) + v * (r * p)
  {
  }

  /** The tag as a polynomial in the clamped key. */
  lemma TagIsPolynomial(rKey: seq<byte>, sKey: seq<byte>, msg: seq<byte>)
    requires |rKey| == 16 && |sKey| == 16
    ensures Tag(rKey, sKey, msg) == (BlockSum(Clamp(rKey), msg) % P + LE(sKey)) % W128
  {
    hide Clamp;
    hide LE;
    hide Evaluate;
    hide Power;
    hide BlockSum;
    hide Blocks;
    var r := Clamp(rKey);
    var e := Evaluate(r, 0, msg);
    EvaluateIsSum(r, 0, msg);
    EvaluateBound(r, 0, msg);
    QuotientUnique(e, P, 0, e);
  }

  lemma {:induction false} EvaluateBound(r: nat, acc: nat, msg: seq<byte>)
    requires acc < P
    ensures Evaluate(r, acc, msg) < P
    decreases |msg|
  {
    hide BlockValue;
    if |msg| > 0 {
      EvaluateBound(r, ((acc + BlockValue(msg)) * r) % P, msg[BlockLength(msg)..]);
    }
  }
}
