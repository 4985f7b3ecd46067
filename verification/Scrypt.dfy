/** scrypt's cost limits and its memory-hard core (sections 4 and 5 of RFC 7914), with the Salsa20/8
    permutation and PBKDF2 left abstract. */
module Scrypt {
  import opened Bits
  import opened Options
  import opened Gf256

  const MaxWork: nat := 0x200_0000
  const MaxMem: nat := 0x8000_0000

  // ----- masks

  function And(a: nat, b: nat): nat
  {
    if a == 0 || b == 0 then 0 else (if a % 2 == 1 && b % 2 == 1 then 1 else 0) + 2 * And(a / 2, b / 2)
  }

  ghost predicate IsPow2(n: nat)
  {
    exists k: nat :: n == Pow2(k)
  }

  /** Masking with one less than a power of two is the remainder. */
  lemma {:induction false} MaskIsMod(x: nat, k: nat)
    ensures And(x, Pow2(k) - 1) == x % Pow2(k)
  {
    if k == 0 {
      assert x % 1 == 0;
    } else {
      MaskIsMod(x / 2, k - 1);
      var p := Pow2(k - 1);
      assert (2 * p - 1) / 2 == p - 1 && (2 * p - 1) % 2 == 1;
      HalfMod(x, p);
      MaskZero(x);
    }
  }

  lemma MaskZero(x: nat)
    ensures And(0, x) == 0 == And(x, 0)
  {
  }

  lemma HalfMod(x: nat, p: nat)
    requires p > 0
    ensures x % (2 * p) == x % 2 + 2 * (x / 2 % p)
  {
    var q, m := x / 2 / p, x / 2 % p;
    assert x / 2 == q * p + m;
    DoubleProduct(q, p);
    QuotientUnique(x, 2 * p, q, x % 2 + 2 * m);
  }

  lemma DoubleProduct(q: nat, p: nat)
    ensures 2 * (q * p) == q * (2 * p)
  {
  }

  /** n & (n - 1) vanishes exactly on powers of two. */
  lemma {:induction false} LowestBit(n: nat)
    requires n > 0
    ensures And(n, n - 1) == 0 <==> IsPow2(n)
  {
    if n == 1 {
      assert Pow2(0) == 1;
    } else if n % 2 == 1 {
      assert And(n, n - 1) == 2 * And(n / 2, (n - 1) / 2) && (n - 1) / 2 == n / 2;
      AndSelf(n / 2);
      OddNotPow2(n);
    } else {
      LowestBit(n / 2);
      assert (n - 1) / 2 == n / 2 - 1;
      EvenPow2(n / 2);
    }
  }

  lemma {:induction false} AndSelf(a: nat)
    ensures And(a, a) == a
  {
    if a > 0 {
      AndSelf(a / 2);
    }
  }

  lemma OddNotPow2(n: nat)
    requires n > 1 && n % 2 == 1
    ensures !IsPow2(n)
  {
    forall k: nat
      ensures n != Pow2(k)
    {
      assert k > 0 ==> Pow2(k) == 2 * Pow2(k - 1);
    }
  }

  lemma EvenPow2(h: nat)
    requires h > 0
    ensures IsPow2(2 * h) <==> IsPow2(h)
  {
    if IsPow2(h) {
      var k: nat :| h == Pow2(k);
      assert 2 * h == Pow2(k + 1);
    }
    if IsPow2(2 * h) {
      var k: nat :| 2 * h == Pow2(k);
      assert k > 0 && h == Pow2(k - 1);
    }
  }

  // ----- the limits

  ghost predicate WithinLimits(N: nat, r: nat, p: nat)
  {
    && N >= 2 && IsPow2(N) && r >= 1 && p >= 1
    && N * r * p <= MaxWork
    && 128 * r * (N + p + 3) <= MaxMem
  }

  /** A quotient test is the product test. */
  lemma QuotientTest(a: nat, b: nat, c: nat)
    requires c > 0
    ensures a <= b / c <==> a * c <= b
  {
    var q, m := b / c, b % c;
    assert b == q * c + m;
    if a <= q {
      MulMono(a, q, c);
    } else {
      MulMono(q + 1, a, c);
      MulNext(q, c);
    }
  }

  lemma ProductLimits(N: nat, r: nat, p: nat)
    requires N >= 2 && r >= 1 && p >= 1
    ensures r <= MaxWork && N * r <= MaxWork && p * (N * r) <= MaxWork <==> N * r * p <= MaxWork
    ensures N * r <= MaxWork ==> 2 * r <= MaxWork && N <= MaxWork
    ensures (N + p + 3) * (128 * r) == 128 * r * (N + p + 3)
  {
    MulMono(2, N, r);
    MulMono(1, r, N);
    assert r * N == N * r && p * (N * r) == N * r * p;
    MulMono(1, p, N * r);
  }

  /** Accepts exactly the parameters within the limits; no intermediate value needs more than 32 bits. */
  method ParamsOk(N: nat, r: nat, p: nat) returns (ok: bool)
    ensures ok <==> WithinLimits(N, r, p)
  {
    hide And;
    hide IsPow2;
    if N < 2 {
      return false;
    }
    LowestBit(N);
    if And(N, N - 1) != 0 {
      return false;
    }
    if r == 0 || p == 0 {
      return false;
    }
    ProductLimits(N, r, p);
    if r > MaxWork {
      return false;
    }
    QuotientTest(N, MaxWork, r);
    if N > MaxWork / r {
      return false;
    }
    var nr := N * r;
    assert nr < 0x1_0000_0000;
    QuotientTest(p, MaxWork, nr);
    if p > MaxWork / nr {
      return false;
    }
    var bs := 128 * r;
    assert bs < 0x1_0000_0000 && N + p + 3 < 0x1_0000_0000;
    QuotientTest(N + p + 3, MaxMem, bs);
    if N + p + 3 > MaxMem / bs {
      return false;
    }
    return true;
  }

  /** Within the limits every buffer size fits 32 bits. */
  lemma SizesFit(N: nat, r: nat, p: nat)
    requires WithinLimits(N, r, p)
    ensures 128 * r * p <= MaxMem && 128 * r * N <= MaxMem && 128 * r <= MaxMem
    ensures 128 * r * p + 128 * r * N + 3 * (128 * r) <= MaxMem
  {
    hide IsPow2;
    var bs := 128 * r;
    assert bs * (N + p + 3) == bs * p + bs * N + 3 * bs;
    MulMono(0, bs, N);
    MulMono(0, bs, p);
  }
}
