/** BlockMix and SMix of scrypt over flat buffers, against sections 4 and 5 of RFC 7914. */
module ScryptMix {
  import opened Bits
  import opened Gf256
  import opened LittleEndian
  import opened Scrypt

  type Core = seq<byte> -> seq<byte>

  /** A permutation of 64-byte blocks. */
  ghost predicate IsCore(salsa: Core)
  {
    forall x: seq<byte> :: |x| == 64 ==> |salsa(x)| == 64
  }

  function Block(b: seq<byte>, i: nat): (r: seq<byte>)
    requires 64 * i + 64 <= |b|
    ensures |r| == 64
  {
    b[64 * i..64 * i + 64]
  }

  // ----- the specification

  /** The running block after `n` blocks: it starts as the last one. */
  function Chain(salsa: Core, b: seq<byte>, r: nat, n: nat): (x: seq<byte>)
    requires IsCore(salsa) && r >= 1 && |b| == 128 * r && n <= 2 * r
    ensures |x| == 64
  {
    if n == 0 then Block(b, 2 * r - 1) else salsa(XorBytes(Chain(salsa, b, r, n - 1), Block(b, n - 1)))
  }

  /** Which running block stands at place `k` of the result: first the odd ones, then the even ones. */
  function Shuffled(r: nat, k: nat): nat
  {
    if k < r then 2 * k + 1 else 2 * (k - r) + 2
  }

  function MixedByte(salsa: Core, b: seq<byte>, r: nat, t: nat): byte
    requires IsCore(salsa) && r >= 1 && |b| == 128 * r && t < 128 * r
  {
    Chain(salsa, b, r, Shuffled(r, t / 64))[t % 64]
  }

  function BlockMix(salsa: Core, b: seq<byte>, r: nat): (x: seq<byte>)
    requires IsCore(salsa) && r >= 1 && |b| == 128 * r
    ensures |x| == 128 * r
  {
    seq(128 * r, t requires 0 <= t < 128 * r => MixedByte(salsa, b, r, t))
  }

  // ----- the closed form for the identity core

  /** Byte `t` of the exclusive or of the last block and the first `n` blocks. */
  function XorOf(b: seq<byte>, n: nat, t: nat): byte
    requires |b| >= 64 && 64 * n <= |b| && t < 64
  {
    if n == 0 then b[|b| - 64 + t] else Add(XorOf(b, n - 1, t), b[64 * (n - 1) + t])
  }

  lemma {:induction false} IdentityChain(b: seq<byte>, r: nat, n: nat, t: nat)
    requires r >= 1 && |b| == 128 * r && n <= 2 * r && t < 64
    ensures IsCore(x => x) && Chain(x => x, b, r, n)[t] == XorOf(b, n, t)
  {
    hide Add;
    if n > 0 {
      IdentityChain(b, r, n - 1, t);
    }
  }

  /** With a core that does nothing, block `k` of the result is the last block combined with the first 2k + 1
      blocks in the first half, and with the first 2(k - r) + 2 blocks in the second. */
  lemma IdentityMix(b: seq<byte>, r: nat, k: nat, t: nat)
    requires r >= 1 && |b| == 128 * r && k < 2 * r && t < 64
    ensures IsCore(x => x)
    ensures BlockMix(x => x, b, r)[64 * k + t] == XorOf(b, if k < r then 2 * k + 1 else 2 * (k - r) + 2, t)
  {
    hide Chain;
    hide XorOf;
    IdentityChain(b, r, Shuffled(r, k), t);
    assert (64 * k + t) / 64 == k && (64 * k + t) % 64 == t;
  }

  /** For two blocks: their exclusive or, then the first of them. */
  lemma IdentityTwo(x: seq<byte>, y: seq<byte>)
    requires |x| == |y| == 64
    ensures IsCore(z => z) && BlockMix(z => z, x + y, 1) == XorBytes(x, y) + x
  {
    hide Add;
    hide BlockMix;
    var b := x + y;
    forall t | 0 <= t < 64
      ensures BlockMix(z => z, b, 1)[t] == XorBytes(x, y)[t] && BlockMix(z => z, b, 1)[64 + t] == x[t]
    {
      IdentityMix(b, 1, 0, t);
      IdentityMix(b, 1, 1, t);
      assert XorOf(b, 1, t) == Add(XorOf(b, 0, t), x[t]) == Add(y[t], x[t]);
      assert XorOf(b, 2, t) == Add(XorOf(b, 1, t), y[t]);
      AddComm(x[t], y[t]);
      AddCancel(x[t], y[t]);
    }
  }

  function Iterate(salsa: Core, b: seq<byte>, r: nat, n: nat): (x: seq<byte>)
    requires IsCore(salsa) && r >= 1 && |b| == 128 * r
    ensures |x| == 128 * r
  {
    if n == 0 then b else BlockMix(salsa, Iterate(salsa, b, r, n - 1), r)
  }

  /** The last block as a little-endian number. */
  function Integerify(x: seq<byte>, r: nat): nat
    requires r >= 1 && |x| == 128 * r
  {
    LE(Block(x, 2 * r - 1))
  }

  /** The second half of SMix: `n` rounds that look back into the table of iterates. */
  function LookBack(salsa: Core, b: seq<byte>, r: nat, N: nat, n: nat): (x: seq<byte>)
    requires IsCore(salsa) && r >= 1 && |b| == 128 * r && N >= 1
    ensures |x| == 128 * r
  {
    if n == 0 then Iterate(salsa, b, r, N) else
      var x := LookBack(salsa, b, r, N, n - 1);
      BlockMix(salsa, XorBytes(x, Iterate(salsa, b, r, Integerify(x, r) % N)), r)
  }

  function SMix(salsa: Core, b: seq<byte>, r: nat, N: nat): (x: seq<byte>)
    requires IsCore(salsa) && r >= 1 && |b| == 128 * r && N >= 1
    ensures |x| == 128 * r
  {
    LookBack(salsa, b, r, N, N)
  }

  // ----- ROMix with the identity core, two entries and two blocks

  predicate Odd(x: seq<byte>)
    requires |x| > 0
  {
    x[0] % 2 == 1
  }

  lemma XorJoin(a: seq<byte>, b: seq<byte>, c: seq<byte>, d: seq<byte>)
    requires |a| == |c| && |b| == |d|
    ensures XorBytes(a + b, c + d) == XorBytes(a, c) + XorBytes(b, d)
  {
  }

  /** Taking a block twice takes it out. */
  lemma XorOut(x: seq<byte>, y: seq<byte>)
    requires |x| == |y|
    ensures XorBytes(XorBytes(x, y), x) == y == XorBytes(x, XorBytes(x, y))
    ensures XorBytes(XorBytes(x, y), y) == x == XorBytes(y, XorBytes(x, y))
    ensures XorBytes(y, x) == XorBytes(x, y)
  {
    hide Add;
    forall k | 0 <= k < |x|
      ensures Add(Add(x[k], y[k]), x[k]) == y[k] == Add(x[k], Add(x[k], y[k]))
      ensures Add(Add(x[k], y[k]), y[k]) == x[k] == Add(y[k], Add(x[k], y[k])) && Add(y[k], x[k]) == Add(x[k], y[k])
    {
      AddComm(x[k], y[k]);
      AddCancel(x[k], y[k]);
      AddCancel(y[k], x[k]);
    }
  }

  lemma IntegerParity(x: seq<byte>, y: seq<byte>)
    requires |x| == |y| == 64
    ensures Integerify(x + y, 1) % 2 == if Odd(y) then 1 else 0
  {
    hide LE;
    assert Block(x + y, 1) == y;
    FirstByteParity(y);
  }

  lemma FirstByteParity(y: seq<byte>)
    requires |y| > 0
    ensures LE(y) % 2 == y[0] % 2
  {
  }

  /** The first three iterates. */
  lemma IdentityIterates(x: seq<byte>, y: seq<byte>)
    requires |x| == |y| == 64
    ensures IsCore(z => z) && Iterate(z => z, x + y, 1, 0) == x + y
    ensures Iterate(z => z, x + y, 1, 1) == XorBytes(x, y) + x
    ensures Iterate(z => z, x + y, 1, 2) == y + XorBytes(x, y)
  {
    hide BlockMix;
    hide XorBytes;
    IdentityTwo(x, y);
    IdentityTwo(XorBytes(x, y), x);
    XorOut(x, y);
    assert Iterate(z => z, x + y, 1, 1) == BlockMix(z => z, Iterate(z => z, x + y, 1, 0), 1);
    assert Iterate(z => z, x + y, 1, 2) == BlockMix(z => z, Iterate(z => z, x + y, 1, 1), 1);
  }

  /** One look back from the blocks (u, v): the table entry is chosen by the parity of v. */
  lemma IdentityLook(x: seq<byte>, y: seq<byte>, n: nat, u: seq<byte>, v: seq<byte>)
    requires |x| == |y| == |u| == |v| == 64
    requires IsCore(z => z) && LookBack(z => z, x + y, 1, 2, n) == u + v
    ensures var a, b := if Odd(v) then XorBytes(x, y) else x, if Odd(v) then x else y;
      LookBack(z => z, x + y, 1, 2, n + 1) == XorBytes(XorBytes(u, a), XorBytes(v, b)) + XorBytes(u, a)
  {
    hide BlockMix;
    hide XorBytes;
    hide Iterate;
    hide Integerify;
    var a, b := if Odd(v) then XorBytes(x, y) else x, if Odd(v) then x else y;
    IdentityIterates(x, y);
    IntegerParity(u, v);
    assert Iterate(z => z, x + y, 1, Integerify(u + v, 1) % 2) == a + b;
    XorJoin(u, v, a, b);
    IdentityTwo(XorBytes(u, a), XorBytes(v, b));
  }

  /** The result in closed form, for all pairs of blocks. */
  lemma IdentitySMix(x: seq<byte>, y: seq<byte>)
    requires |x| == |y| == 64
    ensures IsCore(z => z)
    ensures SMix(z => z, x + y, 1, 2)
      == if !Odd(XorBytes(x, y)) then y + XorBytes(x, y) else if !Odd(x) then x + y else Zeros(128)
  {
    hide BlockMix;
    hide Iterate;
    hide LookBack;
    hide Odd;
    var s := XorBytes(x, y);
    IdentityIterates(x, y);
    XorOut(x, y);
    XorOut(x, s);
    XorOut(y, s);
    NoLooks(x, y);
    IdentityLook(x, y, 0, y, s);
    if !Odd(s) {
      IdentityLook(x, y, 1, y, s);
    } else {
      IdentityLook(x, y, 1, s, x);
      if Odd(x) {
        XorNone(s);
        XorNone(x);
        XorNone(Zeros(64));
        assert XorBytes(s, s) == Zeros(64) && XorBytes(x, x) == Zeros(64);
        assert Zeros(64) + Zeros(64) == Zeros(128);
      }
    }
  }

  lemma NoLooks(x: seq<byte>, y: seq<byte>)
    requires |x| == |y| == 64 && IsCore(z => z)
    ensures LookBack(z => z, x + y, 1, 2, 0) == Iterate(z => z, x + y, 1, 2)
  {
  }

  lemma XorNone(x: seq<byte>)
    ensures XorBytes(x, x) == Zeros(|x|)
  {
    hide Add;
    forall k | 0 <= k < |x|
      ensures Add(x[k], x[k]) == 0
    {
      AddSelf(x[k]);
    }
  }

  // ----- the table index

  /** A power of two up to 2^32 divides 2^32. */
  lemma {:induction false} Pow2Divides(k: nat)
    requires k <= 32
    ensures W32 == Pow2(32 - k) * Pow2(k)
  {
    Pow2Words();
    Pow2Add(32 - k, k);
  }

  lemma Pow2Grows(k: nat, m: nat)
    requires m <= k
    ensures Pow2(m) <= Pow2(k)
  {
    Pow2Add(m, k - m);
    MulMono(1, Pow2(k - m), Pow2(m));
  }

  /** Masking the first word of the last block is the whole block modulo N. */
  lemma TableIndex(x: seq<byte>, r: nat, N: nat)
    requires r >= 1 && |x| == 128 * r && N >= 2 && IsPow2(N) && N <= MaxWork
    ensures And(Load(x, 128 * r - 64), N - 1) == Integerify(x, r) % N
  {
    hide And;
    hide LE;
    hide Pow2;
    var k: nat :| N == Pow2(k);
    if k > 32 {
      Pow2Grows(k, 32);
      Pow2Words();
      assert false;
    }
    var blk := Block(x, 2 * r - 1);
    var w := Load(x, 128 * r - 64);
    LEFour(blk);
    assert Load(blk, 0) == w;
    MaskIsMod(w, k);
    Pow2Divides(k);
    var q := Pow2(32 - k) * LE(blk[4..]);
    TurnProduct(Pow2(32 - k), N, LE(blk[4..]));
    SameRemainder(w, q, N);
  }

  lemma TurnProduct(a: nat, n: nat, c: nat)
    ensures a * n * c == a * c * n
  {
  }

  lemma SameRemainder(w: nat, q: nat, n: nat)
    requires n > 0
    ensures (w + q * n) % n == w % n
  {
    MulNext2(q, w / n, n);
    QuotientUnique(w + q * n, n, q + w / n, w % n);
  }

  lemma MulNext2(a: nat, b: nat, n: nat)
    ensures (a + b) * n == a * n + b * n
  {
  }

  // ----- the loops

  /** Overwrites the bytes from `off` on. */
  method Copy(dst: array<byte>, off: nat, src: seq<byte>)
    requires off + |src| <= dst.Length
    modifies dst
    ensures dst[off..off + |src|] == src
    ensures forall t :: 0 <= t < dst.Length && !(off <= t < off + |src|) ==> dst[t] == old(dst[t])
  {
    for k := 0 to |src|
      invariant forall t :: 0 <= t < k ==> dst[off + t] == src[t]
      invariant forall t :: 0 <= t < dst.Length && !(off <= t < off + k) ==> dst[t] == old(dst[t])
    {
      dst[off + k] := src[k];
    }
    assert forall t :: 0 <= t < |src| ==> dst[off..off + |src|][t] == src[t];
  }

  /** Overwrites one 64-byte block. */
  method CopyBlock(dst: array<byte>, i: nat, src: seq<byte>)
    requires 64 * i + 64 <= dst.Length && |src| == 64
    modifies dst
    ensures Block(dst[..], i) == src
    ensures forall j: nat :: j != i && 64 * j + 64 <= dst.Length ==> Block(dst[..], j) == Block(old(dst[..]), j)
  {
    Copy(dst, 64 * i, src);
    forall j: nat | j != i && 64 * j + 64 <= dst.Length
      ensures Block(dst[..], j) == Block(old(dst[..]), j)
    {
      assert forall t :: 64 * j <= t < 64 * j + 64 ==> dst[t] == old(dst[t]);
    }
  }

  ghost predicate ChainsWritten(salsa: Core, b: seq<byte>, r: nat, y: seq<byte>, n: nat)
    requires IsCore(salsa) && r >= 1 && |b| == 128 * r == |y| && n <= 2 * r
  {
    forall i :: 0 <= i < n ==> Block(y, i) == Chain(salsa, b, r, i + 1)
  }

  method MixBlocks(salsa: Core, B: array<byte>, r: nat, Y: array<byte>)
    requires IsCore(salsa) && r >= 1 && B.Length == Y.Length == 128 * r && B != Y
    modifies Y
    ensures ChainsWritten(salsa, B[..], r, Y[..], 2 * r)
  {
    hide XorBytes;
    hide Block;
    var X := Block(B[..], 2 * r - 1);
    for blk := 0 to 2 * r
      invariant X == Chain(salsa, B[..], r, blk) && ChainsWritten(salsa, B[..], r, Y[..], blk)
    {
      X := salsa(XorBytes(X, Block(B[..], blk)));
      CopyBlock(Y, blk, X);
    }
  }

  /** Whether the first `n` pairs of blocks of `y` have been dealt to the two halves of `b`. */
  ghost predicate DealtOut(b: seq<byte>, y: seq<byte>, r: nat, n: nat)
    requires |b| == |y| == 128 * r && n <= r
  {
    forall k :: 0 <= k < n ==> Block(b, k) == Block(y, 2 * k) && Block(b, r + k) == Block(y, 2 * k + 1)
  }

  method Shuffle(B: array<byte>, r: nat, Y: array<byte>)
    requires r >= 1 && B.Length == Y.Length == 128 * r && B != Y
    modifies B
    ensures DealtOut(B[..], Y[..], r, r)
  {
    hide Block;
    for blk := 0 to r
      invariant DealtOut(B[..], Y[..], r, blk)
    {
      CopyBlock(B, blk, Block(Y[..], 2 * blk));
      CopyBlock(B, r + blk, Block(Y[..], 2 * blk + 1));
    }
  }

  lemma DealtChain(salsa: Core, b: seq<byte>, r: nat, x: seq<byte>, y: seq<byte>, k: nat)
    requires IsCore(salsa) && r >= 1 && |b| == |x| == |y| == 128 * r && k < 2 * r
    requires ChainsWritten(salsa, b, r, y, 2 * r) && DealtOut(x, y, r, r)
    ensures Block(x, k) == Chain(salsa, b, r, Shuffled(r, k))
  {
    hide Block;
    hide Chain;
    if k >= r {
      assert Block(x, r + (k - r)) == Block(y, 2 * (k - r) + 1);
    }
  }

  lemma DealtMixed(salsa: Core, b: seq<byte>, r: nat, x: seq<byte>, y: seq<byte>)
    requires IsCore(salsa) && r >= 1 && |b| == |x| == |y| == 128 * r
    requires ChainsWritten(salsa, b, r, y, 2 * r) && DealtOut(x, y, r, r)
    ensures x == BlockMix(salsa, b, r)
  {
    hide Chain;
    hide ChainsWritten;
    hide DealtOut;
    forall t | 0 <= t < 128 * r
      ensures x[t] == MixedByte(salsa, b, r, t)
    {
      DealtChain(salsa, b, r, x, y, t / 64);
      assert Block(x, t / 64)[t % 64] == x[t];
    }
  }

  /** BlockMix in place. */
  method BlockMixInPlace(salsa: Core, B: array<byte>, r: nat, Y: array<byte>)
    requires IsCore(salsa) && r >= 1 && B.Length == Y.Length == 128 * r && B != Y
    modifies B, Y
    ensures B[..] == BlockMix(salsa, old(B[..]), r)
  {
    hide BlockMix;
    hide ChainsWritten;
    hide DealtOut;
    ghost var b := B[..];
    MixBlocks(salsa, B, r, Y);
    Shuffle(B, r, Y);
    DealtMixed(salsa, b, r, B[..], Y[..]);
  }

  // ----- SMix

  /** Entry `i` of a table of `bs`-byte entries. */
  function Slot(v: seq<byte>, bs: nat, i: nat): (r: seq<byte>)
    requires i * bs + bs <= |v|
    ensures |r| == bs
  {
    v[i * bs..i * bs + bs]
  }

  lemma SlotInside(i: nat, n: nat, bs: nat)
    requires i < n
    ensures 0 <= i * bs && i * bs + bs <= n * bs
  {
    MulMono(0, i, bs);
    MulNext(i, bs);
    MulMono(i + 1, n, bs);
  }

  /** The table's first `n` entries are the iterates. */
  ghost predicate Filled(salsa: Core, b: seq<byte>, r: nat, N: nat, v: seq<byte>, n: nat)
    requires IsCore(salsa) && r >= 1 && |b| == 128 * r && |v| == N * (128 * r) && n <= N
  {
    forall i :: 0 <= i < n ==> SlotIs(v, 128 * r, i, Iterate(salsa, b, r, i))
  }

  ghost predicate SlotIs(v: seq<byte>, bs: nat, i: nat, x: seq<byte>)
  {
    i * bs + bs <= |v| && Slot(v, bs, i) == x
  }

  method FillSlot(V: array<byte>, bs: nat, N: nat, i: nat, x: seq<byte>)
    requires V.Length == N * bs && i < N && |x| == bs
    modifies V
    ensures SlotIs(V[..], bs, i, x)
    ensures forall j: nat, y :: j < i && SlotIs(old(V[..]), bs, j, y) ==> SlotIs(V[..], bs, j, y)
  {
    SlotInside(i, N, bs);
    Copy(V, i * bs, x);
    forall j: nat, y | j < i && SlotIs(old(V[..]), bs, j, y)
      ensures SlotIs(V[..], bs, j, y)
    {
      SlotInside(j, i, bs);
      assert forall t :: j * bs <= t < j * bs + bs ==> V[t] == old(V[t]);
      assert Slot(V[..], bs, j) == Slot(old(V[..]), bs, j);
    }
  }

  /** SMix on the `128 * r` bytes of B from `off` on. The masked table index is Integerify modulo N, and
      every access stays inside its buffer. */
  method SMixInPlace(salsa: Core, B: array<byte>, off: nat, r: nat, N: nat,
                     V: array<byte>, X: array<byte>, Y: array<byte>)
    requires IsCore(salsa) && r >= 1 && N >= 2 && IsPow2(N) && N <= MaxWork
    requires off + 128 * r <= B.Length && V.Length == N * (128 * r) && X.Length == Y.Length == 128 * r
    requires B != V && B != X && B != Y && V != X && V != Y && X != Y
    modifies B, V, X, Y
    ensures B[off..off + 128 * r] == SMix(salsa, old(B[off..off + 128 * r]), r, N)
    ensures forall t :: 0 <= t < B.Length && !(off <= t < off + 128 * r) ==> B[t] == old(B[t])
  {
    hide IsPow2;
    hide BlockMix;
    hide And;
    hide Slot;
    hide XorBytes;
    var bs := 128 * r;
    ghost var b := B[off..off + bs];
    Copy(X, 0, B[off..off + bs]);
    assert X[..] == X[0..0 + bs] == b;
    for step := 0 to N
      invariant X[..] == Iterate(salsa, b, r, step) && Filled(salsa, b, r, N, V[..], step)
      invariant B[..] == old(B[..])
    {
      FillSlot(V, bs, N, step, X[..]);
      BlockMixInPlace(salsa, X, r, Y);
    }
    for step := 0 to N
      invariant X[..] == LookBack(salsa, b, r, N, step) && Filled(salsa, b, r, N, V[..], N)
      invariant B[..] == old(B[..])
    {
      TableIndex(X[..], r, N);
      var j := And(Load(X[..], bs - 64), N - 1);
      SlotInside(j, N, bs);
      assert SlotIs(V[..], bs, j, Iterate(salsa, b, r, j));
      var T := XorBytes(X[..], Slot(V[..], bs, j));
      Copy(X, 0, T);
      assert X[..] == X[0..0 + bs] == T;
      BlockMixInPlace(salsa, X, r, Y);
    }
    Copy(B, off, X[..]);
  }

  // ----- scrypt

  /** PBKDF2-HMAC-SHA256 with one iteration: password, salt and length to key. */
  type Kdf = (seq<byte>, seq<byte>, nat) -> seq<byte>

  ghost predicate IsKdf(kdf: Kdf)
  {
    forall pw, salt, n :: |kdf(pw, salt, n)| == n
  }

  /** The first `n` lanes of `128 * r` bytes, each mixed on its own. */
  function Lanes(salsa: Core, b: seq<byte>, r: nat, N: nat, p: nat, n: nat): (x: seq<byte>)
    requires IsCore(salsa) && r >= 1 && N >= 1 && |b| == p * (128 * r) && n <= p
    ensures |x| == n * (128 * r)
  {
    if n == 0 then [] else
      SlotInside(n - 1, p, 128 * r);
      MulNext(n - 1, 128 * r);
      Lanes(salsa, b, r, N, p, n - 1) + SMix(salsa, Slot(b, 128 * r, n - 1), r, N)
  }

  /** Lane `k` of the result is lane `k` of the input, mixed. */
  lemma {:induction false} LaneAt(salsa: Core, b: seq<byte>, r: nat, N: nat, p: nat, n: nat, k: nat)
    requires IsCore(salsa) && r >= 1 && N >= 1 && |b| == p * (128 * r) && k < n <= p
    ensures k * (128 * r) + 128 * r <= |b| && k * (128 * r) + 128 * r <= |Lanes(salsa, b, r, N, p, n)|
    ensures Slot(Lanes(salsa, b, r, N, p, n), 128 * r, k) == SMix(salsa, Slot(b, 128 * r, k), r, N)
  {
    hide SMix;
    var bs := 128 * r;
    SlotInside(k, p, bs);
    SlotInside(k, n, bs);
    SlotInside(n - 1, p, bs);
    MulNext(n - 1, bs);
    var before, all := Lanes(salsa, b, r, N, p, n - 1), Lanes(salsa, b, r, N, p, n);
    if k < n - 1 {
      SlotInside(k, n - 1, bs);
      LaneAt(salsa, b, r, N, p, n - 1, k);
      assert all[k * bs..k * bs + bs] == before[k * bs..k * bs + bs];
    }
  }

  method MixLanes(salsa: Core, B: array<byte>, r: nat, N: nat, p: nat)
    requires IsCore(salsa) && r >= 1 && N >= 2 && IsPow2(N) && N <= MaxWork && B.Length == p * (128 * r)
    modifies B
    ensures B[..] == Lanes(salsa, old(B[..]), r, N, p, p)
  {
    hide SMix;
    hide IsPow2;
    hide Lanes;
    var bs := 128 * r;
    MulMono(0, N, bs);
    var V := new byte[N * bs](_ => 0);
    var X := new byte[bs](_ => 0);
    var Y := new byte[bs](_ => 0);
    ghost var b := B[..];
    LanesStart(salsa, b, r, N, p);
    for i := 0 to p
      invariant MixedUpTo(salsa, b, r, N, p, B[..], i)
    {
      SlotInside(i, p, bs);
      ghost var before := B[..];
      SMixInPlace(salsa, B, i * bs, r, N, V, X, Y);
      LaneStep(salsa, b, r, N, p, before, B[..], i);
    }
    assert B[..p * bs] == B[..];
  }

  /** The first `i` lanes are mixed, the others still as they were. */
  ghost predicate MixedUpTo(salsa: Core, b: seq<byte>, r: nat, N: nat, p: nat, x: seq<byte>, i: nat)
    requires IsCore(salsa) && r >= 1 && N >= 1 && |b| == p * (128 * r) && i <= p
  {
    && 0 <= i * (128 * r) <= p * (128 * r) && |x| == |b|
    && x[..i * (128 * r)] == Lanes(salsa, b, r, N, p, i) && x[i * (128 * r)..] == b[i * (128 * r)..]
  }

  lemma LanesStart(salsa: Core, b: seq<byte>, r: nat, N: nat, p: nat)
    requires IsCore(salsa) && r >= 1 && N >= 1 && |b| == p * (128 * r)
    ensures MixedUpTo(salsa, b, r, N, p, b, 0)
  {
    MulMono(0, p, 128 * r);
  }

  lemma LaneStep(salsa: Core, b: seq<byte>, r: nat, N: nat, p: nat, x: seq<byte>, y: seq<byte>, i: nat)
    requires IsCore(salsa) && r >= 1 && N >= 1 && |b| == p * (128 * r) && i < p
    requires MixedUpTo(salsa, b, r, N, p, x, i) && |y| == |x|
    requires i * (128 * r) + 128 * r <= |x|
    requires var o, bs := i * (128 * r), 128 * r;
      y[o..o + bs] == SMix(salsa, x[o..o + bs], r, N) && forall t :: 0 <= t < |x| && !(o <= t < o + bs) ==> y[t] == x[t]
    ensures MixedUpTo(salsa, b, r, N, p, y, i + 1)
  {
    hide SMix;
    var bs := 128 * r;
    var o := i * bs;
    MulNext(i, bs);
    SlotInside(i, p, bs);
    assert x[o..o + bs] == x[o..][..bs] == b[o..][..bs] == Slot(b, bs, i);
    assert y[..o] == x[..o];
    assert y[..o + bs] == y[..o] + y[o..o + bs];
    assert y[o + bs..] == x[o..][bs..] == b[o + bs..];
  }

  /** The key, or nothing exactly when the parameters are outside the limits. */
  method DeriveKey(salsa: Core, kdf: Kdf, pw: seq<byte>, salt: seq<byte>, N: nat, r: nat, p: nat, dklen: nat)
    returns (ok: bool, dk: seq<byte>)
    requires IsCore(salsa) && IsKdf(kdf)
    ensures ok <==> WithinLimits(N, r, p)
    ensures ok ==>
      && |kdf(pw, salt, p * (128 * r))| == p * (128 * r)
      && dk == kdf(pw, Lanes(salsa, kdf(pw, salt, p * (128 * r)), r, N, p, p), dklen)
  {
    hide Lanes;
    dk := [];
    ok := ParamsOk(N, r, p);
    if !ok {
      return;
    }
    WorkCovers(N, r, p);
    MulMono(0, p, 128 * r);
    var start := kdf(pw, salt, p * (128 * r));
    var B := new byte[|start|](i requires 0 <= i < |start| => start[i]);
    assert B[..] == start;
    MixLanes(salsa, B, r, N, p);
    dk := kdf(pw, B[..], dklen);
  }

  lemma WorkCovers(N: nat, r: nat, p: nat)
    requires WithinLimits(N, r, p)
    ensures N <= MaxWork
  {
    hide IsPow2;
    ProductLimits(N, r, p);
  }
}
