/** Share mnemonics as word sequences: value packing, metadata, checksum. */
module Slip39Share {
  import opened Options
  import opened Bits
  import opened Radix
  import opened Rs1024

  const MaxSecretBytes: nat := 65538
  const MaxMnemonicWords: nat := 52431 + 7

  datatype Share = Share(identifier: nat, extendable: bool, exponent: nat, groupIndex: nat, groupThreshold: nat,
                         groupCount: nat, memberIndex: nat, memberThreshold: nat, value: seq<byte>)

  // ----- the value words

  /** The bits in front of the value that fill its words up. */
  function Padding(n: nat): nat
  {
    10 * n % 16
  }

  /** The number of words holds a whole, even number of bytes after at most eight zero bits. */
  ghost predicate WellPadded(ws: seq<word>)
  {
    Padding(|ws|) <= 8 && Number(10, ws) < Pow2(10 * |ws| - Padding(|ws|))
  }

  /** The reader's state after `t` bits of value `v`, of which the first `p` are padding. */
  ghost predicate Reading(v: nat, t: nat, p: nat, pad: nat, out: seq<byte>, acc: nat, accbits: nat)
  {
    if t < p then
      pad == p - t && v == 0 && out == [] && acc == 0 && accbits == 0
    else
      && pad == 0 && t - p == 8 * |out| + accbits
      && accbits < 8 && acc < Pow2(accbits)
      && v == Number(8, out) * Pow2(accbits) + acc
  }

  lemma ReadBit(v: nat, t: nat, p: nat, out: seq<byte>, acc: nat, accbits: nat, b: nat)
    requires Reading(v, t, p, 0, out, acc, accbits) && b < 2
    ensures accbits < 7 ==> Reading(2 * v + b, t + 1, p, 0, out, 2 * acc + b, accbits + 1)
    ensures accbits == 7 ==> 2 * acc + b < 256 && Reading(2 * v + b, t + 1, p, 0, out + [2 * acc + b], 0, 0)
  {
    hide Pow2;
    Pow2Next(accbits);
    DoubleTurn(Number(8, out), Pow2(accbits));
    if accbits == 7 {
      Pow2Words();
      Pow2Zero();
      assert (out + [2 * acc + b])[..|out|] == out;
    }
  }

  lemma {:induction false} HighNext(a: nat, k: nat)
    ensures High(a, k) == 2 * High(a, k + 1) + High(a, k) % 2
    decreases k
  {
    if k > 0 {
      HighNext(a / 2, k - 1);
    }
  }

  /** The value of the first words and of the upper bits of the next one. */
  ghost function BitsSoFar(ws: seq<word>, i: nat, bit: nat): nat
    requires i < |ws| && bit <= 10
  {
    MulMono(0, Number(10, ws[..i]), Pow2(10 - bit));
    Number(10, ws[..i]) * Pow2(10 - bit) + High(ws[i], bit)
  }

  lemma NextBit(ws: seq<word>, i: nat, bit: nat)
    requires i < |ws| && bit < 10
    ensures BitsSoFar(ws, i, bit) == 2 * BitsSoFar(ws, i, bit + 1) + High(ws[i], bit) % 2
  {
    hide Pow2;
    hide High;
    hide Number;
    HighNext(ws[i], bit);
    Pow2Next(9 - bit);
    DoubleTurn(Number(10, ws[..i]), Pow2(9 - bit));
  }

  lemma WordBegin(ws: seq<word>, i: nat)
    requires i < |ws|
    ensures BitsSoFar(ws, i, 10) == Number(10, ws[..i])
    ensures BitsSoFar(ws, i, 0) == Number(10, ws[..i + 1])
  {
    hide High;
    Pow2At30();
    Pow2Zero();
    HighLow(ws[i], 10);
    HighLow(ws[i], 0);
    assert ws[..i + 1][..i] == ws[..i];
  }

  /** The bits read so far bound the whole number from below. */
  lemma BitsBelow(ws: seq<word>, i: nat, bit: nat, t: nat)
    requires i < |ws| && bit <= 10 && t == 10 * i + 10 - bit
    ensures Number(10, ws) >= BitsSoFar(ws, i, bit) * Pow2(10 * |ws| - t)
  {
    hide Pow2;
    hide High;
    var rest := |ws| - i - 1;
    NumberPrefix(10, ws, i + 1, rest);
    WordBegin(ws, i);
    BitsShift(ws, i, bit);
    var a, p, q := BitsSoFar(ws, i, bit), Pow2(bit), Pow2(10 * rest);
    Pow2Add(bit, 10 * rest);
    assert bit + 10 * rest == 10 * |ws| - t;
    MulMono(a * p, BitsSoFar(ws, i, 0), q);
    TimesTurn(a, p, q);
  }

  lemma {:induction false} BitsShift(ws: seq<word>, i: nat, bit: nat)
    requires i < |ws| && bit <= 10
    ensures BitsSoFar(ws, i, 0) >= BitsSoFar(ws, i, bit) * Pow2(bit)
  {
    if bit > 0 {
      hide BitsSoFar;
      hide Pow2;
      BitsShift(ws, i, bit - 1);
      NextBit(ws, i, bit - 1);
      var a, p := BitsSoFar(ws, i, bit), Pow2(bit - 1);
      Pow2Next(bit - 1);
      MulMono(2 * a, BitsSoFar(ws, i, bit - 1), p);
      DoubleTurn(a, p);
    } else {
      Pow2Zero();
    }
  }

  lemma Pow2Next(k: nat)
    ensures Pow2(k + 1) == 2 * Pow2(k)
  {
  }

  lemma DoubleTurn(a: nat, p: nat)
    ensures a * (2 * p) == 2 * a * p == 2 * (a * p)
  {
  }

  /** A set bit inside the padding makes the number too large. */
  lemma PaddingSet(ws: seq<word>, i: nat, bit: nat, t: nat)
    requires i < |ws| && bit <= 10 && t == 10 * i + 10 - bit && t <= Padding(|ws|)
    requires BitsSoFar(ws, i, bit) >= 1
    ensures !WellPadded(ws)
  {
    hide Pow2;
    hide BitsSoFar;
    BitsBelow(ws, i, bit, t);
    var e := 10 * |ws| - Padding(|ws|);
    var d := Padding(|ws|) - t;
    Pow2Add(d, e);
    MulMono(1, Pow2(d), Pow2(e));
    MulMono(1, BitsSoFar(ws, i, bit), Pow2(10 * |ws| - t));
  }

  /** A zero bit inside the padding is skipped; outside it there is no padding left. */
  lemma SkipBit(v: nat, t: nat, p: nat, pad: nat, out: seq<byte>, acc: nat, accbits: nat)
    requires Reading(v, t, p, pad, out, acc, accbits)
    ensures pad > 0 <==> t < p
    ensures pad > 0 ==> v == 0 && Reading(0, t + 1, p, pad - 1, out, acc, accbits)
    ensures pad == 0 ==> t - p == 8 * |out| + accbits && accbits < 8
  {
    hide Pow2;
    hide Number;
    Pow2Zero();
    NumberEmpty(8);
  }

  lemma ReadAll(ws: seq<word>, p: nat, pad: nat, out: seq<byte>, acc: nat, accbits: nat)
    requires p == Padding(|ws|) <= 8 && Reading(Number(10, ws), 10 * |ws|, p, pad, out, acc, accbits)
    ensures WellPadded(ws) && accbits == 0
    ensures 8 * |out| == 10 * |ws| - p && Number(8, out) == Number(10, ws)
  {
    hide Pow2;
    hide Number;
    Leftover(|ws|, |out|, accbits);
    Pow2Zero();
    BytesFit(out);
    NumberBound(8, out);
  }

  /** Without its padding the value has a multiple of sixteen bits, so none are left over. */
  lemma Leftover(n: nat, len: nat, accbits: nat)
    requires Padding(n) <= 8 && accbits < 8 && 10 * n - Padding(n) == 8 * len + accbits
    ensures accbits == 0
  {
    var q := 10 * n / 16;
    assert 8 * (2 * q - len) == accbits;
  }

  /** Reads the value bits, most significant first, dropping the padding: succeeds exactly on words
      that are well padded, and then the bytes are the same number. The reader's leftover-bits check
      cannot fail. */
  method Unpack(ws: seq<word>) returns (r: Option<seq<byte>>)
    ensures r.Some? <==> WellPadded(ws)
    ensures r.Some? ==> 8 * |r.value| == 10 * |ws| - Padding(|ws|) && Number(8, r.value) == Number(10, ws)
  {
    hide Pow2;
    hide High;
    hide Number;
    hide Reading;
    hide BitsSoFar;
    var padding := Padding(|ws|);
    if padding > 8 {
      assert !WellPadded(ws);
      return None;
    }
    hide WellPadded;
    var valueBytes := (10 * |ws| - padding + 7) / 8;
    var out: seq<byte>, acc: nat, accbits: nat, pad: nat := [], 0, 0, padding;
    ReadNone(padding);
    assert ws[..0] == [];
    for i := 0 to |ws|
      invariant Reading(Number(10, ws[..i]), 10 * i, padding, pad, out, acc, accbits)
    {
      WordBegin(ws, i);
      var bit := 10;
      while bit > 0
        invariant bit <= 10
        invariant Reading(BitsSoFar(ws, i, bit), 10 * i + 10 - bit, padding, pad, out, acc, accbits)
      {
        bit := bit - 1;
        ghost var t, v := 10 * i + 9 - bit, BitsSoFar(ws, i, bit + 1);
        NextBit(ws, i, bit);
        HighLow(ws[i], bit);
        SkipBit(v, t, padding, pad, out, acc, accbits);
        var b := ws[i] / Pow2(bit) % 2;
        if pad > 0 {
          if b != 0 {
            PaddingSet(ws, i, bit, t + 1);
            return None;
          }
          pad := pad - 1;
        } else {
          ReadBit(v, t, padding, out, acc, accbits, b);
          acc := 2 * acc + b;
          accbits := accbits + 1;
          if accbits == 8 {
            assert |out| < valueBytes;
            out := out + [acc];
            acc := 0;
            accbits := 0;
          }
        }
      }
    }
    assert ws[..|ws|] == ws;
    ReadAll(ws, padding, pad, out, acc, accbits);
    assert accbits == 0 && |out| == valueBytes;
    return Some(out);
  }

  lemma ReadNone(p: nat)
    ensures Reading(Number(10, []), 0, p, p, [], 0, 0)
  {
  }

  lemma NumberEmpty(k: nat)
    ensures Number(k, []) == 0
  {
  }

  /** The words that carry a value: as many as its bits need, base 1024, most significant first. */
  function Pack(value: seq<byte>): (ws: seq<word>)
    ensures |ws| == (8 * |value| + 9) / 10
  {
    WordDigits(Number(8, value), (8 * |value| + 9) / 10)
  }

  function WordDigits(v: nat, n: nat): (ws: seq<word>)
    ensures |ws| == n
  {
    Pow2At30();
    Digits(10, v, n)
  }

  lemma BytesFit(value: seq<byte>)
    ensures Fits(8, value)
  {
    hide Pow2;
    Pow2Words();
  }

  lemma WordsFit(ws: seq<word>)
    ensures Fits(10, ws)
  {
    hide Pow2;
    Pow2At30();
  }

  lemma SameNumber(a: seq<byte>, b: seq<byte>)
    requires |a| == |b| && Number(8, a) == Number(8, b)
    ensures a == b
  {
    hide Digits;
    BytesFit(a);
    BytesFit(b);
    DigitsOfNumber(8, a);
    DigitsOfNumber(8, b);
  }

  /** Packing an even number of bytes gives well padded words with the same number. */
  lemma PackWellPadded(value: seq<byte>)
    requires |value| % 2 == 0
    ensures WellPadded(Pack(value)) && Number(10, Pack(value)) == Number(8, value)
    ensures 8 * |value| == 10 * |Pack(value)| - Padding(|Pack(value)|)
  {
    hide Pow2;
    hide Digits;
    hide Number;
    var k := (8 * |value| + 9) / 10;
    BytesFit(value);
    NumberBound(8, value);
    Pow2Add(8 * |value|, 10 * k - 8 * |value|);
    MulMono(1, Pow2(10 * k - 8 * |value|), Pow2(8 * |value|));
    NumberOfDigits(10, Number(8, value), k);
    PaddingExact(|value| / 2, k);
  }

  lemma PaddingExact(half: nat, k: nat)
    requires k == (16 * half + 9) / 10
    ensures Padding(k) == 10 * k - 16 * half <= 8
  {
    QuotientUnique(10 * k, 16, half, 10 * k - 16 * half);
  }

  /** Words that unpack to a value are the packing of that value. */
  lemma PackUnpacked(ws: seq<word>, value: seq<byte>)
    requires Padding(|ws|) <= 8 && 8 * |value| == 10 * |ws| - Padding(|ws|) && Number(8, value) == Number(10, ws)
    ensures Pack(value) == ws && |value| % 2 == 0
    ensures |ws| >= 13 ==> |value| >= 16
  {
    hide Digits;
    hide Number;
    WordsFit(ws);
    DigitsOfNumber(10, ws);
    HalfBytes(|ws|, |value|);
  }

  lemma HalfBytes(n: nat, len: nat)
    requires Padding(n) <= 8 && 8 * len == 10 * n - Padding(n)
    ensures len % 2 == 0 && n == (8 * len + 9) / 10 && (n >= 13 ==> len >= 16)
  {
    var q := 10 * n / 16;
    assert 8 * len == 16 * q;
  }

  // ----- the whole mnemonic

  predicate ValidShare(s: Share)
  {
    && s.identifier < 0x8000 && s.exponent < 16
    && s.groupIndex < 16 && 1 <= s.groupThreshold <= s.groupCount <= 16
    && s.memberIndex < 16 && 1 <= s.memberThreshold <= 16
    && 16 <= |s.value| <= MaxSecretBytes && |s.value| % 2 == 0
  }

  function IdExp(s: Share): nat
  {
    s.identifier * 32 + (if s.extendable then 16 else 0) + s.exponent
  }

  function Params(s: Share): nat
    requires s.groupThreshold > 0 && s.groupCount > 0 && s.memberThreshold > 0
  {
    (((s.groupIndex * 16 + (s.groupThreshold - 1)) * 16 + (s.groupCount - 1)) * 16 + s.memberIndex) * 16
    + (s.memberThreshold - 1)
  }

  function Body(s: Share): (ws: seq<word>)
    requires ValidShare(s)
  {
    WordDigits(IdExp(s), 2) + WordDigits(Params(s), 2) + Pack(s.value)
  }

  /** The mnemonic of a share: prefix, parameters, value and checksum. */
  function Words(s: Share): (ws: seq<word>)
    requires ValidShare(s)
  {
    Body(s) + Checksum(Body(s), s.extendable)
  }

  ghost predicate Card(ws: seq<word>, s: Share)
  {
    ValidShare(s) && Words(s) == ws
  }

  /** The share whose metadata the first four words spell. */
  function Metadata(ws: seq<word>, value: seq<byte>): Share
    requires |ws| >= 4
  {
    var idExp := ws[0] as nat * 1024 + ws[1];
    var params := ws[2] as nat * 1024 + ws[3];
    Share(idExp / 32, idExp / 16 % 2 == 1, idExp % 16, params / 0x1_0000 % 16, params / 0x1000 % 16 + 1,
          params / 0x100 % 16 + 1, params / 16 % 16, params % 16 + 1, value)
  }

  lemma TwoWords(v: nat, a: word, b: word)
    ensures v < 0x10_0000 ==> (WordDigits(v, 2) == [a, b] <==> v == a as nat * 1024 + b)
  {
    hide Pow2;
    hide High;
    hide Low;
    Pow2At30();
    HighLow(v, 10);
    HighLow(v / 1024, 10);
    assert Digits(10, High(v, 10), 1) == [Low(High(v, 10), 10)];
    assert WordDigits(v, 2) == [v / 1024 % 1024, v % 1024];
  }

  /** Sharing out the bits of the parameters loses nothing. */
  lemma MetadataExact(ws: seq<word>, s: Share)
    requires |ws| >= 4 && ValidShare(s)
    ensures WordDigits(IdExp(s), 2) == ws[..2] && WordDigits(Params(s), 2) == ws[2..4]
            <==> Metadata(ws, s.value) == s
  {
    hide WordDigits;
    TwoWords(IdExp(s), ws[0], ws[1]);
    TwoWords(Params(s), ws[2], ws[3]);
    assert ws[..2] == [ws[0], ws[1]] && ws[2..4] == [ws[2], ws[3]];
    var idExp := ws[0] as nat * 1024 + ws[1];
    var params := ws[2] as nat * 1024 + ws[3];
    IdSplit(idExp, s);
    ParamSplit(params, s);
  }

  lemma IdSplit(v: nat, s: Share)
    requires ValidShare(s) && v < 0x10_0000
    ensures IdExp(s) < 0x10_0000
    ensures IdExp(s) == v <==> s.identifier == v / 32 && s.extendable == (v / 16 % 2 == 1) && s.exponent == v % 16
  {
    var h := s.identifier * 2 + if s.extendable then 1 else 0;
    assert s.identifier < 0x8000 && s.exponent < 16;
    hide ValidShare;
    assert IdExp(s) == h * 16 + s.exponent;
    Quarter(v, h, s.exponent);
    HalfSplit(v / 16, s.identifier, if s.extendable then 1 else 0);
    assert v / 16 / 2 == v / 32;
  }

  lemma HalfSplit(v: nat, q: nat, d: nat)
    requires d < 2
    ensures q * 2 + d == v <==> q == v / 2 && d == v % 2
  {
  }

  lemma ParamSplit(v: nat, s: Share)
    requires ValidShare(s) && v < 0x10_0000
    ensures Params(s) < 0x10_0000
    ensures Params(s) == v <==>
      && s.groupIndex == v / 0x1_0000 % 16 && s.groupThreshold == v / 0x1000 % 16 + 1
      && s.groupCount == v / 0x100 % 16 + 1 && s.memberIndex == v / 16 % 16 && s.memberThreshold == v % 16 + 1
  {
    var a, b, c, d, e := s.groupIndex, s.groupThreshold - 1, s.groupCount - 1, s.memberIndex, s.memberThreshold - 1;
    var v3, v2, v1, v0 := ((a * 16 + b) * 16 + c) * 16 + d, (a * 16 + b) * 16 + c, a * 16 + b, a;
    assert Params(s) == v3 * 16 + e;
    Quarter(v, v3, e);
    Quarter(v / 16, v2, d);
    Quarter(v / 0x100, v1, c);
    Quarter(v / 0x1000, v0, b);
    Quarter(v / 0x1_0000, 0, a);
  }

  lemma Quarter(v: nat, q: nat, d: nat)
    requires d < 16
    ensures q * 16 + d == v <==> q == v / 16 && d == v % 16
    ensures v / 16 / 16 == v / 0x100 && v / 0x100 / 16 == v / 0x1000
  {
  }

  /** Decodes one mnemonic: succeeds exactly on the mnemonics of valid shares, with that share. */
  method ParseShare(words: seq<word>) returns (r: Option<Share>)
    ensures r.Some? ==> Card(words, r.value)
    ensures r.None? ==> forall s :: !Card(words, s)
  {
    hide Checksum;
    hide ChecksumValid;
    hide WordDigits;
    hide Number;
    hide Metadata;
    hide Pack;
    hide WellPadded;
    forall s | Card(words, s)
      ensures Accepted(words, s)
    {
      CardAccepted(words, s);
    }
    var n := |words|;
    if n > MaxMnemonicWords || n < 20 || Padding(n - 7) > 8 {
      return None;
    }
    var meta := Metadata(words, []);
    var ok := Rs1024Verify(words, meta.extendable);
    if !ok || meta.groupCount < meta.groupThreshold {
      return None;
    }
    var value := Unpack(words[4..n - 3]);
    if value.None? {
      return None;
    }
    AcceptedCard(words, value.value);
    return Some(Metadata(words, value.value));
  }

  /** What the parser checks of the mnemonic of `s`. */
  ghost predicate Accepted(ws: seq<word>, s: Share)
  {
    && 20 <= |ws| <= MaxMnemonicWords && Padding(|ws| - 7) <= 8
    && ChecksumValid(ws, Metadata(ws, []).extendable)
    && Metadata(ws, []).groupThreshold <= Metadata(ws, []).groupCount
    && WellPadded(ws[4..|ws| - 3])
  }

  lemma CardAccepted(ws: seq<word>, s: Share)
    requires Card(ws, s)
    ensures Accepted(ws, s)
    ensures ws[4..|ws| - 3] == Pack(s.value) && Metadata(ws, s.value) == s
  {
    hide Checksum;
    hide ChecksumValid;
    hide WordDigits;
    hide Number;
    hide Pack;
    hide IdExp;
    hide Params;
    hide WellPadded;
    PackWellPadded(s.value);
    var b := Body(s);
    assert b[..2] == WordDigits(IdExp(s), 2);
    assert b[2..4] == WordDigits(Params(s), 2);
    assert b[4..] == Pack(s.value);
    assert ws[..2] == b[..2] && ws[2..4] == b[2..4];
    assert ws[4..|ws| - 3] == b[4..];
    MetadataExact(ws, s);
    ChecksumExact(b, s.extendable, Checksum(b, s.extendable));
  }

  lemma AcceptedCard(ws: seq<word>, value: seq<byte>)
    requires 20 <= |ws| <= MaxMnemonicWords && Padding(|ws| - 7) <= 8
    requires ChecksumValid(ws, Metadata(ws, []).extendable)
    requires Metadata(ws, []).groupThreshold <= Metadata(ws, []).groupCount
    requires 8 * |value| == 10 * (|ws| - 7) - Padding(|ws| - 7) && Number(8, value) == Number(10, ws[4..|ws| - 3])
    ensures Card(ws, Metadata(ws, value))
  {
    hide Checksum;
    hide ChecksumValid;
    hide WordDigits;
    hide Number;
    hide Pack;
    hide IdExp;
    hide Params;
    var s := Metadata(ws, value);
    var v := ws[4..|ws| - 3];
    PackUnpacked(v, value);
    MetadataExact(ws, s);
    assert ValidShare(s);
    assert Body(s) == ws[..|ws| - 3];
    ChecksumExact(Body(s), s.extendable, ws[|ws| - 3..]);
    assert ws == ws[..|ws| - 3] + ws[|ws| - 3..];
  }

  /** A mnemonic determines its share. */
  lemma CardUnique(ws: seq<word>, s: Share, t: Share)
    requires Card(ws, s) && Card(ws, t)
    ensures s == t
  {
    hide Words;
    hide Pack;
    hide Number;
    CardAccepted(ws, s);
    CardAccepted(ws, t);
    PackWellPadded(s.value);
    PackWellPadded(t.value);
    SameNumber(s.value, t.value);
  }
}
