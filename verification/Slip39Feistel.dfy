/** The four-round Feistel network that encrypts the master secret. */
module Slip39Feistel {
  import opened Options
  import opened Bits
  import opened Gf256

  /** PBKDF2-HMAC-SHA256: password, salt, iterations and key length to key. */
  type Kdf = (seq<byte>, seq<byte>, nat, nat) -> seq<byte>

  ghost predicate IsKdf(kdf: Kdf)
  {
    forall pw, salt, iters, n :: |kdf(pw, salt, iters, n)| == n
  }

  type RoundFunction = (nat, seq<byte>) -> seq<byte>

  ghost predicate KeepsLength(f: RoundFunction)
  {
    forall i, r :: |f(i, r)| == |r|
  }

  datatype Halves = Halves(left: seq<byte>, right: seq<byte>)

  ghost predicate Even(h: Halves)
  {
    |h.left| == |h.right|
  }

  function Swap(h: Halves): Halves
  {
    Halves(h.right, h.left)
  }

  function Round(f: RoundFunction, i: nat, h: Halves): (r: Halves)
    requires KeepsLength(f) && Even(h)
    ensures Even(r) && |r.left| == |h.left|
  {
    Halves(h.right, XorBytes(h.left, f(i, h.right)))
  }

  function Rounds(f: RoundFunction, schedule: seq<nat>, h: Halves): (r: Halves)
    requires KeepsLength(f) && Even(h)
    ensures Even(r) && |r.left| == |h.left|
  {
    if |schedule| == 0 then h else Rounds(f, schedule[1..], Round(f, schedule[0], h))
  }

  function Split(s: seq<byte>): (h: Halves)
    requires |s| % 2 == 0
    ensures Even(h) && |h.left| == |s| / 2
  {
    Halves(s[..|s| / 2], s[|s| / 2..])
  }

  /** Runs the rounds of a schedule and emits the right half first. */
  function Network(f: RoundFunction, schedule: seq<nat>, s: seq<byte>): (r: seq<byte>)
    requires KeepsLength(f) && |s| % 2 == 0
    ensures |r| == |s|
  {
    var h := Rounds(f, schedule, Split(s));
    h.right + h.left
  }

  const Forward: seq<nat> := [0, 1, 2, 3]
  const Backward: seq<nat> := [3, 2, 1, 0]

  function Encrypt(f: RoundFunction, master: seq<byte>): (r: seq<byte>)
    requires KeepsLength(f) && |master| % 2 == 0
    ensures |r| == |master|
  {
    Network(f, Forward, master)
  }

  function Decrypt(f: RoundFunction, encrypted: seq<byte>): (r: seq<byte>)
    requires KeepsLength(f) && |encrypted| % 2 == 0
    ensures |r| == |encrypted|
  {
    Network(f, Backward, encrypted)
  }

  function Reversed(s: seq<nat>): (r: seq<nat>)
  {
    if |s| == 0 then [] else Reversed(s[1..]) + [s[0]]
  }

  lemma {:induction false} RoundsConcat(f: RoundFunction, a: seq<nat>, b: seq<nat>, h: Halves)
    requires KeepsLength(f) && Even(h)
    ensures Rounds(f, a + b, h) == Rounds(f, b, Rounds(f, a, h))
  {
    if |a| == 0 {
      assert a + b == b;
    } else {
      assert (a + b)[1..] == a[1..] + b;
      RoundsConcat(f, a[1..], b, Round(f, a[0], h));
    }
  }

  lemma XorTwice(a: seq<byte>, b: seq<byte>)
    requires |a| == |b|
    ensures XorBytes(XorBytes(a, b), b) == a
  {
    hide Add;
    forall k | 0 <= k < |a|
      ensures Add(Add(a[k], b[k]), b[k]) == a[k]
    {
      AddAssoc(a[k], b[k], b[k]);
      AddSelf(b[k]);
      AddZero(a[k]);
    }
  }

  /** Running a schedule on the swapped halves, backwards, undoes it. */
  lemma {:induction false} RoundsUndone(f: RoundFunction, schedule: seq<nat>, h: Halves)
    requires KeepsLength(f) && Even(h)
    ensures Rounds(f, Reversed(schedule), Swap(Rounds(f, schedule, h))) == Swap(h)
  {
    if |schedule| > 0 {
      var i := schedule[0];
      var g := Round(f, i, h);
      RoundsUndone(f, schedule[1..], g);
      RoundsConcat(f, Reversed(schedule[1..]), [i], Swap(Rounds(f, schedule, h)));
      XorTwice(h.left, f(i, h.right));
      assert Round(f, i, Swap(g)) == Swap(h);
      assert Rounds(f, [i], Swap(g)) == Round(f, i, Swap(g));
    }
  }

  /** Decryption inverts encryption, and encryption decryption, whatever the round function is. */
  lemma DecryptInverts(f: RoundFunction, s: seq<byte>)
    requires KeepsLength(f) && |s| % 2 == 0
    ensures Decrypt(f, Encrypt(f, s)) == s && Encrypt(f, Decrypt(f, s)) == s
  {
    assert Reversed(Forward) == Backward && Reversed(Backward) == Forward by {
      assert Reversed([3]) == [3] && Reversed([0]) == [0];
      assert Reversed([2, 3]) == [3, 2] && Reversed([1, 0]) == [0, 1];
      assert Reversed([1, 2, 3]) == [3, 2, 1] && Reversed([2, 1, 0]) == [0, 1, 2];
    }
    NetworkUndone(f, Forward, s);
    NetworkUndone(f, Backward, s);
  }

  lemma NetworkUndone(f: RoundFunction, schedule: seq<nat>, s: seq<byte>)
    requires KeepsLength(f) && |s| % 2 == 0
    ensures Network(f, Reversed(schedule), Network(f, schedule, s)) == s
  {
    var h := Rounds(f, schedule, Split(s));
    assert Split(Network(f, schedule, s)) == Swap(h);
    RoundsUndone(f, schedule, Split(s));
  }

  // ----- the round function and the decryption loop

  function ShareRound(kdf: Kdf, passphrase: seq<byte>, exponent: nat, salt: seq<byte>): RoundFunction
  {
    (i: nat, r: seq<byte>) => kdf([i % 256] + passphrase, salt + r, 10000 * Pow2(exponent) / 4, |r|)
  }

  lemma ShareRoundKeeps(kdf: Kdf, passphrase: seq<byte>, exponent: nat, salt: seq<byte>)
    requires IsKdf(kdf)
    ensures KeepsLength(ShareRound(kdf, passphrase, exponent, salt))
  {
    forall i: nat, r: seq<byte>
      ensures |ShareRound(kdf, passphrase, exponent, salt)(i, r)| == |r|
    {
      assert |kdf([i % 256] + passphrase, salt + r, 10000 * Pow2(exponent) / 4, |r|)| == |r|;
    }
  }

  method XorInto(target: array<byte>, a: seq<byte>, b: seq<byte>)
    requires target.Length == |a| == |b|
    modifies target
    ensures target[..] == XorBytes(a, b)
  {
    hide Add;
    for k := 0 to |a|
      invariant forall j :: 0 <= j < k ==> target[j] == XorBytes(a, b)[j]
    {
      target[k] := Add(a[k], b[k]);
    }
  }

  /** Runs rounds 3, 2, 1, 0 on the two halves; refuses odd lengths and the empty input. */
  method FeistelDecrypt(f: RoundFunction, encrypted: seq<byte>) returns (r: Option<seq<byte>>)
    requires KeepsLength(f)
    ensures r == if |encrypted| < 2 || |encrypted| % 2 == 1 then None else Some(Decrypt(f, encrypted))
  {
    hide XorBytes;
    if |encrypted| < 2 || |encrypted| % 2 == 1 {
      return None;
    }
    var half := |encrypted| / 2;
    var left, right := encrypted[..half], encrypted[half..];
    var newRight := new byte[half];
    for i: int := 4 downto 0
      invariant |left| == |right| == half
      invariant Rounds(f, Backward[4 - i..], Halves(left, right)) == Rounds(f, Backward, Split(encrypted))
    {
      var key := f(i, right);
      XorInto(newRight, left, key);
      assert Backward[3 - i..][0] == i && Backward[3 - i..][1..] == Backward[4 - i..];
      left := right;
      right := newRight[..];
    }
    return Some(right + left);
  }
}
