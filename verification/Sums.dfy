/** Finite sums in GF(2^8). */
module Sums {
  import opened Bits
  import opened Gf256

  function Sum(f: int -> byte, lo: int, hi: int): byte
    decreases hi - lo
  {
    if hi <= lo then 0 else Add(Sum(f, lo, hi - 1), f(hi - 1))
  }

  lemma {:induction false} SumSplit(f: int -> byte, lo: int, mid: int, hi: int)
    requires lo <= mid <= hi
    ensures Sum(f, lo, hi) == Add(Sum(f, lo, mid), Sum(f, mid, hi))
    decreases hi - mid
  {
    hide Add;
    if mid == hi {
      AddZero(Sum(f, lo, mid));
    } else {
      SumSplit(f, lo, mid, hi - 1);
      AddAssoc(Sum(f, lo, mid), Sum(f, mid, hi - 1), f(hi - 1));
    }
  }

  lemma SumFirst(f: int -> byte, lo: int, hi: int)
    requires lo < hi
    ensures Sum(f, lo, hi) == Add(f(lo), Sum(f, lo + 1, hi))
  {
    hide Add;
    SumSplit(f, lo, lo + 1, hi);
    assert Sum(f, lo, lo + 1) == Add(Sum(f, lo, lo), f(lo));
    AddZero(f(lo));
  }

  lemma {:induction false} SumSame(f: int -> byte, g: int -> byte, lo: int, hi: int)
    requires forall i :: lo <= i < hi ==> f(i) == g(i)
    ensures Sum(f, lo, hi) == Sum(g, lo, hi)
    decreases hi - lo
  {
    if lo < hi { SumSame(f, g, lo, hi - 1); }
  }

  lemma {:induction false} SumZero(f: int -> byte, lo: int, hi: int)
    requires forall i :: lo <= i < hi ==> f(i) == 0
    ensures Sum(f, lo, hi) == 0
    decreases hi - lo
  {
    hide Add;
    AddZero(0);
    if lo < hi { SumZero(f, lo, hi - 1); }
  }

  lemma {:induction false} SumAdd(f: int -> byte, g: int -> byte, h: int -> byte, lo: int, hi: int)
    requires forall i :: lo <= i < hi ==> h(i) == Add(f(i), g(i))
    ensures Sum(h, lo, hi) == Add(Sum(f, lo, hi), Sum(g, lo, hi))
    decreases hi - lo
  {
    hide Add;
    AddZero(0);
    if lo < hi {
      SumAdd(f, g, h, lo, hi - 1);
      AddSwap(Sum(f, lo, hi - 1), Sum(g, lo, hi - 1), f(hi - 1), g(hi - 1));
    }
  }

  lemma {:induction false} SumScale(m: byte, a: byte, f: int -> byte, g: int -> byte, lo: int, hi: int)
    requires forall i :: lo <= i < hi ==> g(i) == Mul(m, a, f(i))
    ensures Sum(g, lo, hi) == Mul(m, a, Sum(f, lo, hi))
    decreases hi - lo
  {
    hide Add;
    hide Mul;
    MulZero(m, a);
    if lo < hi {
      SumScale(m, a, f, g, lo, hi - 1);
      MulAddRight(m, a, Sum(f, lo, hi - 1), f(hi - 1));
    }
  }

  /** Two summands that differ at one place only. */
  lemma {:induction false} SumUpdate(f: int -> byte, g: int -> byte, lo: int, hi: int, k: int)
    requires lo <= k < hi
    requires forall i :: lo <= i < hi && i != k ==> f(i) == g(i)
    requires g(k) == 0
    ensures Sum(f, lo, hi) == Add(Sum(g, lo, hi), f(k))
  {
    hide Add;
    SumSplit(f, lo, k, hi);
    SumSplit(g, lo, k, hi);
    SumFirst(f, k, hi);
    SumFirst(g, k, hi);
    SumSame(f, g, lo, k);
    SumSame(f, g, k + 1, hi);
    var a, b := Sum(f, lo, k), Sum(f, k + 1, hi);
    AddZero(b);
    AddComm(f(k), b);
    AddAssoc(a, b, f(k));
  }

  function Row(f: (int, int) -> byte, j: int): int -> byte
  {
    k => f(j, k)
  }

  function Column(f: (int, int) -> byte, k: int): int -> byte
  {
    j => f(j, k)
  }

  function RowSums(f: (int, int) -> byte, n: int): int -> byte
  {
    j => Sum(Row(f, j), 0, n)
  }

  function ColumnSums(f: (int, int) -> byte, n: int): int -> byte
  {
    k => Sum(Column(f, k), 0, n)
  }

  lemma {:induction false} SumSwap(f: (int, int) -> byte, n: nat, p: nat)
    ensures Sum(RowSums(f, p), 0, n) == Sum(ColumnSums(f, n), 0, p)
  {
    hide Add;
    if n == 0 {
      forall k | 0 <= k < p
        ensures ColumnSums(f, 0)(k) == 0
      {
      }
      SumZero(ColumnSums(f, 0), 0, p);
    } else {
      SumSwap(f, n - 1, p);
      forall k | 0 <= k < p
        ensures ColumnSums(f, n)(k) == Add(ColumnSums(f, n - 1)(k), Row(f, n - 1)(k))
      {
        assert Sum(Column(f, k), 0, n) == Add(Sum(Column(f, k), 0, n - 1), Column(f, k)(n - 1));
      }
      SumAdd(ColumnSums(f, n - 1), Row(f, n - 1), ColumnSums(f, n), 0, p);
    }
  }

  /** The summands at the listed places. */
  function Pick(f: int -> byte, pos: seq<nat>): int -> byte
  {
    k => if 0 <= k < |pos| then f(pos[k]) else 0
  }

  ghost predicate Positions(pos: seq<nat>, n: nat)
  {
    && (forall k :: 0 <= k < |pos| ==> pos[k] < n)
    && forall i, j :: 0 <= i < j < |pos| ==> pos[i] != pos[j]
  }

  lemma {:induction false} SumSupport(f: int -> byte, pos: seq<nat>, n: nat)
    requires Positions(pos, n)
    requires forall i :: 0 <= i < n && i !in pos ==> f(i) == 0
    ensures Sum(f, 0, n) == Sum(Pick(f, pos), 0, |pos|)
    decreases |pos|
  {
    hide Add;
    if |pos| == 0 {
      SumZero(f, 0, n);
    } else {
      var k := |pos| - 1;
      var g: int -> byte := i => if i == pos[k] then 0 else f(i);
      SumUpdate(f, g, 0, n, pos[k]);
      var init := pos[..k];
      forall i | 0 <= i < n && i !in init
        ensures g(i) == 0
      {
        assert i in pos ==> i == pos[k];
      }
      SumSupport(g, init, n);
      SumSame(Pick(f, pos), Pick(g, init), 0, k);
    }
  }
}
