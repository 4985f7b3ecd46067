/** The encryption side, as the share maker runs it, against the decryption of the recovery tool. */
module Slip39Encrypt {
  import opened Bits
  import opened Gf256
  import opened Slip39Share
  import opened Slip39Recover
  import F = Slip39Feistel

  /** A number as `n` bytes, most significant first. */
  function BigEndian(v: nat, n: nat): (r: seq<byte>)
    ensures |r| == n
  {
    if n == 0 then [] else BigEndian(v / 256, n - 1) + [v % 256]
  }

  function Ascii(s: string): (r: seq<byte>)
    requires forall i :: 0 <= i < |s| ==> s[i] as int < 256
    ensures |r| == |s|
  {
    seq(|s|, i requires 0 <= i < |s| => s[i] as int)
  }

  /** Nothing for extendable sets, otherwise the customization string and the identifier in two bytes. */
  function MakerSalt(identifier: nat, extendable: bool): seq<byte>
  {
    if extendable then [] else Ascii("shamir") + BigEndian(identifier, 2)
  }

  /** Doubled `k` times. */
  function ShiftLeft(v: nat, k: nat): nat
    decreases k
  {
    if k == 0 then v else ShiftLeft(2 * v, k - 1)
  }

  lemma {:induction false} ShiftLeftIs(v: nat, k: nat)
    ensures ShiftLeft(v, k) == v * Pow2(k)
    decreases k
  {
    if k > 0 {
      ShiftLeftIs(2 * v, k - 1);
      assert 2 * v * Pow2(k - 1) == v * (2 * Pow2(k - 1));
    }
  }

  lemma Shamir()
    ensures Ascii("shamir") == ['s' as int, 'h' as int, 'a' as int, 'm' as int, 'i' as int, 'r' as int]
  {
  }

  lemma SameSalt(s: Share)
    requires s.identifier < 0x8000
    ensures MakerSalt(s.identifier, s.extendable) == Salt(s)
  {
    if !s.extendable {
      Shamir();
      assert BigEndian(s.identifier / 256 / 256, 0) == [];
      assert BigEndian(s.identifier / 256, 1) == [s.identifier / 256 % 256];
      assert BigEndian(s.identifier, 2) == [s.identifier / 256 % 256, s.identifier % 256];
    }
  }

  /** The maker's round key is the recovery tool's. */
  lemma SameRound(p: Primitives, passphrase: seq<byte>, s: Share, i: nat, r: seq<byte>)
    requires s.identifier < 0x8000 && i < 256
    ensures RoundOf(p, passphrase, s)(i, r)
      == p.kdf([i] + passphrase, MakerSalt(s.identifier, s.extendable) + r, ShiftLeft(10000, s.exponent) / 4, |r|)
  {
    hide Pow2;
    SameSalt(s);
    ShiftLeftIs(10000, s.exponent);
  }

  lemma NextRound(f: F.RoundFunction, i: nat, left: seq<byte>, right: seq<byte>)
    requires F.KeepsLength(f) && i < 4 && |left| == |right|
    ensures |f(i, right)| == |left|
    ensures F.Rounds(f, F.Forward[i..], F.Halves(left, right))
      == F.Rounds(f, F.Forward[i + 1..], F.Halves(right, XorBytes(left, f(i, right))))
  {
    hide XorBytes;
    assert F.Forward[i..][0] == i && F.Forward[i..][1..] == F.Forward[i + 1..];
  }

  /** Four rounds over the halves; what the recovery tool decrypts, with the parameters of any share of the
      set, back to the master secret. */
  method EncryptMaster(p: Primitives, master: seq<byte>, passphrase: seq<byte>, exponent: nat, identifier: nat,
                       extendable: bool)
    returns (r: seq<byte>)
    requires IsPrimitives(p) && |master| % 2 == 0 && identifier < 0x8000
    ensures |r| == |master|
    ensures forall s: Share :: s.identifier == identifier && s.extendable == extendable && s.exponent == exponent ==>
      && F.KeepsLength(RoundOf(p, passphrase, s))
      && r == F.Encrypt(RoundOf(p, passphrase, s), master)
      && F.Decrypt(RoundOf(p, passphrase, s), r) == master
  {
    hide XorBytes;
    hide RoundOf;
    hide F.Encrypt;
    hide F.Decrypt;
    hide F.Rounds;
    hide F.KeepsLength;
    ghost var any := Share(identifier, extendable, exponent, 0, 1, 1, 0, 1, []);
    ghost var f := RoundOf(p, passphrase, any);
    RoundKeeps(p, passphrase, any);
    var half := |master| / 2;
    var left, right := master[..half], master[half..];
    var salt := MakerSalt(identifier, extendable);
    for i := 0 to 4
      invariant |left| == |right| == half
      invariant F.Rounds(f, F.Forward[i..], F.Halves(left, right)) == F.Rounds(f, F.Forward, F.Split(master))
    {
      SameRound(p, passphrase, any, i, right);
      NextRound(f, i, left, right);
      var key := p.kdf([i] + passphrase, salt + right, ShiftLeft(10000, exponent) / 4, |right|);
      left, right := right, XorBytes(left, key);
    }
    r := right + left;
    assert F.Forward[4..] == [];
    Emitted(f, master, left, right);
    F.DecryptInverts(f, master);
    forall s: Share | s.identifier == identifier && s.extendable == extendable && s.exponent == exponent
      ensures RoundOf(p, passphrase, s) == f
    {
      SameParameters(p, passphrase, any, s);
    }
  }

  /** The round function depends on three parameters of a share only. */
  lemma SameParameters(p: Primitives, passphrase: seq<byte>, s: Share, t: Share)
    requires s.identifier == t.identifier && s.extendable == t.extendable && s.exponent == t.exponent
    ensures RoundOf(p, passphrase, s) == RoundOf(p, passphrase, t)
  {
  }

  lemma Emitted(f: F.RoundFunction, master: seq<byte>, left: seq<byte>, right: seq<byte>)
    requires F.KeepsLength(f) && |master| % 2 == 0 && |left| == |right|
    requires F.Rounds(f, [], F.Halves(left, right)) == F.Rounds(f, F.Forward, F.Split(master))
    ensures F.Encrypt(f, master) == right + left
  {
  }
}
