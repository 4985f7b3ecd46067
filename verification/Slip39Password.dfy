/** Passwords framed as master secrets: a two-byte length, the bytes, zeros up to an even length of at least 16. */
module Slip39Password {
  import opened Options
  import opened Bits
  import opened Rs1024
  import opened Slip39Share
  import opened Slip39Recover
  import opened Slip39Scheme

  function FrameLength(n: nat): nat
  {
    var even := n + 2 + n % 2;
    if even < 16 then 16 else even
  }

  function Frame(pw: seq<byte>): (ms: seq<byte>)
    requires |pw| <= 0xFFFF
    ensures |ms| == FrameLength(|pw|) && |ms| % 2 == 0 && 16 <= |ms| <= MaxSecretBytes
  {
    [|pw| / 256, |pw| % 256] + pw + Zeros(FrameLength(|pw|) - 2 - |pw|)
  }

  /** Refuses a secret without a length, or with a length beyond its end. */
  function Unframe(ms: seq<byte>): (r: Option<seq<byte>>)
    ensures r.Some? ==> 2 + |r.value| <= |ms| && |r.value| <= 0xFFFF
  {
    if |ms| < 2 then None else
      var n := ms[0] as nat * 256 + ms[1];
      if 2 + n > |ms| then None else Some(ms[2..2 + n])
  }

  /** Every password comes back from its frame, whatever its bytes. */
  lemma FrameRoundTrip(pw: seq<byte>)
    requires |pw| <= 0xFFFF
    ensures Unframe(Frame(pw)) == Some(pw)
  {
    var ms := Frame(pw);
    assert ms[0] as nat * 256 + ms[1] == |pw|;
    assert ms[2..2 + |pw|] == pw;
  }

  /** The password whose frame was dealt comes back from every hand that is enough. */
  method RecoverPassword(p: Primitives, cards: seq<seq<word>>, passphrase: seq<byte>) returns (r: Option<seq<byte>>)
    requires IsPrimitives(p)
    ensures forall c, hand, pw: seq<byte> ::
      DealtCards(p, passphrase, c, hand, cards) && Enough(c, hand) && |pw| <= 0xFFFF && c.master == Frame(pw) ==>
        r == Some(pw)
  {
    hide DealtCards;
    hide Enough;
    hide Frame;
    hide Unframe;
    var ms, groups := Recover(p, cards, passphrase);
    if ms.None? {
      return None;
    }
    r := Unframe(ms.value);
    forall pw: seq<byte> | |pw| <= 0xFFFF && ms.value == Frame(pw)
      ensures r == Some(pw)
    {
      FrameRoundTrip(pw);
    }
  }
}
