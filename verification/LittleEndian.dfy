/** Little-endian numbers in byte strings. */
module LittleEndian {
  import opened Bits

  const W32: nat := 0x1_0000_0000

  /** Little-endian value of a byte string. */
  function LE(s: seq<byte>): nat
  {
    if |s| == 0 then 0 else s[0] as nat + 256 * LE(s[1..])
  }

  function Load(s: seq<byte>, off: nat): (w: nat)
    requires off + 4 <= |s|
    ensures w < W32
  {
    s[off] as nat + 0x100 * s[off + 1] as nat + 0x1_0000 * s[off + 2] as nat + 0x100_0000 * s[off + 3] as nat
  }

  lemma LEFour(s: seq<byte>)
    requires |s| >= 4
    ensures LE(s) == Load(s, 0) + W32 * LE(s[4..])
  {
    assert s[1..][1..] == s[2..] && s[2..][1..] == s[3..] && s[3..][1..] == s[4..];
  }

  /** The four bytes of a word. */
  function WordBytes(f: nat): (r: seq<byte>)
    ensures |r| == 4
  {
    [f % 256, f / 0x100 % 256, f / 0x1_0000 % 256, f / 0x100_0000 % 256]
  }

  lemma LoadBytes(s: seq<byte>, off: nat, v: nat)
    requires off + 4 <= |s| && v < 0x1_0000_0000 && s[off..off + 4] == WordBytes(v)
    ensures Load(s, off) == v
  {
    var b := s[off..off + 4];
    assert b[0] == s[off] && b[1] == s[off + 1] && b[2] == s[off + 2] && b[3] == s[off + 3];
    assert v == v % 256 + 0x100 * (v / 0x100);
    assert v / 0x100 == v / 0x100 % 256 + 0x100 * (v / 0x1_0000);
    assert v / 0x1_0000 == v / 0x1_0000 % 256 + 0x100 * (v / 0x100_0000);
  }
}
