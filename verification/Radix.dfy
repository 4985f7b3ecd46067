/** Big-endian numerals with digits of `k` bits. */
module Radix {
  import opened Bits

  /** The number whose digits, most significant first, are `ds`. */
  function Number(k: nat, ds: seq<nat>): nat
  {
    if |ds| == 0 then 0 else Number(k, ds[..|ds| - 1]) * Pow2(k) + ds[|ds| - 1]
  }

  function Digits(k: nat, v: nat, n: nat): (ds: seq<nat>)
    ensures |ds| == n && Fits(k, ds)
    decreases n
  {
    if n == 0 then [] else
      HighLow(v, k);
      Digits(k, High(v, k), n - 1) + [Low(v, k)]
  }

  predicate Fits(k: nat, ds: seq<nat>)
  {
    forall i :: 0 <= i < |ds| ==> ds[i] < Pow2(k)
  }

  lemma {:induction false} NumberBound(k: nat, ds: seq<nat>)
    requires Fits(k, ds)
    ensures Number(k, ds) < Pow2(k * |ds|)
  {
    hide Pow2;
    if |ds| > 0 {
      var n := |ds| - 1;
      NumberBound(k, ds[..n]);
      Pow2Add(k * n, k);
      MulMono(Number(k, ds[..n]) + 1, Pow2(k * n), Pow2(k));
      MulNext(Number(k, ds[..n]), Pow2(k));
      assert k * n + k == k * |ds|;
    } else {
      assert k * |ds| == 0;
    }
  }

  lemma DigitSplit(k: nat, q: nat, d: nat)
    requires d < Pow2(k)
    ensures High(q * Pow2(k) + d, k) == q && Low(q * Pow2(k) + d, k) == d
  {
    hide Pow2;
    HighLow(q * Pow2(k) + d, k);
    QuotientUnique(q * Pow2(k) + d, Pow2(k), q, d);
  }

  lemma {:induction false} DigitsOfNumber(k: nat, ds: seq<nat>)
    requires Fits(k, ds)
    ensures Digits(k, Number(k, ds), |ds|) == ds
  {
    hide Pow2;
    hide High;
    hide Low;
    if |ds| > 0 {
      var n := |ds| - 1;
      DigitsOfNumber(k, ds[..n]);
      DigitSplit(k, Number(k, ds[..n]), ds[n]);
    }
  }

  lemma {:induction false} NumberOfDigits(k: nat, v: nat, n: nat)
    requires v < Pow2(k * n)
    ensures Number(k, Digits(k, v, n)) == v
    decreases n
  {
    if n > 0 {
      hide Pow2;
      hide High;
      hide Low;
      TimesNext(k, n - 1);
      Pow2Add(k * (n - 1), k);
      HighLow(v, k);
      var q := High(v, k);
      if q >= Pow2(k * (n - 1)) {
        MulMono(Pow2(k * (n - 1)), q, Pow2(k));
        assert false;
      }
      NumberOfDigits(k, q, n - 1);
      assert Digits(k, v, n)[..n - 1] == Digits(k, q, n - 1);
    } else {
      assert k * n == 0;
    }
  }

  lemma Pow2Zero()
    ensures Pow2(0) == 1
  {
  }

  lemma TimesNext(k: nat, n: nat)
    ensures k * (n + 1) == k * n + k
  {
  }

  lemma TimesTurn(a: nat, b: nat, c: nat)
    ensures a * b * c == a * (b * c)
  {
  }

  /** The leading digits give the high part of the number. */
  lemma {:induction false} NumberPrefix(k: nat, ds: seq<nat>, i: nat, rest: nat)
    requires i + rest == |ds|
    ensures Number(k, ds) >= Number(k, ds[..i]) * Pow2(k * rest)
  {
    hide Pow2;
    if rest == 0 {
      assert ds[..i] == ds && k * rest == 0;
      Pow2Zero();
    } else {
      var n := |ds| - 1;
      NumberPrefix(k, ds[..n], i, rest - 1);
      assert ds[..n][..i] == ds[..i];
      TimesNext(k, rest - 1);
      Pow2Add(k * (rest - 1), k);
      var a, q := Number(k, ds[..i]), Pow2(k * (rest - 1));
      MulMono(a * q, Number(k, ds[..n]), Pow2(k));
      TimesTurn(a, q, Pow2(k));
    }
  }
}
