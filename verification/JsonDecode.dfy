/** Decoding number and string tokens. Characters stand for bytes. */
module JsonDecode {
  import opened Options
  import opened JsonTree
  import opened JsonSyntax

  const MaxLong: int := 0x7FFF_FFFF_FFFF_FFFF

  // ----- integers

  predicate IsDigit(c: char)
  {
    '0' <= c <= '9'
  }

  predicate AllDigits(s: seq<char>)
  {
    forall i :: 0 <= i < |s| ==> IsDigit(s[i])
  }

  function Magnitude(s: seq<char>): nat
    requires AllDigits(s)
  {
    if |s| == 0 then 0 else Magnitude(s[..|s| - 1]) * 10 + (s[|s| - 1] - '0') as nat
  }

  function Unsigned(s: seq<char>): seq<char>
  {
    if |s| > 0 && s[0] == '-' then s[1..] else s
  }

  /** A decimal numeral, possibly negative, of magnitude at most 2^63 - 1. */
  predicate IsLong(s: seq<char>)
  {
    var u := Unsigned(s);
    |u| > 0 && AllDigits(u) && Magnitude(u) <= MaxLong
  }

  function LongValue(s: seq<char>): int
    requires IsLong(s)
  {
    var m: int := Magnitude(Unsigned(s));
    if s[0] == '-' then -m else m
  }

  lemma {:induction false} MagnitudeGrows(s: seq<char>, n: nat)
    requires AllDigits(s) && n <= |s|
    ensures Magnitude(s[..n]) <= Magnitude(s)
  {
    if n == |s| {
      assert s[..n] == s;
    } else {
      MagnitudeGrows(s[..|s| - 1], n);
      assert s[..|s| - 1][..n] == s[..n];
    }
  }

  /** Reads a number token: succeeds exactly on the numerals that fit, and no intermediate value overflows. */
  method DecodeInt(text: seq<char>) returns (r: Option<int>)
    ensures r == if IsLong(text) then Some(LongValue(text)) else None
  {
    var u := Unsigned(text);
    var neg := |text| > 0 && text[0] == '-';
    if |u| == 0 {
      return None;
    }
    var v := 0;
    for i := 0 to |u|
      invariant AllDigits(u[..i]) && v == Magnitude(u[..i]) && v <= MaxLong
    {
      if !IsDigit(u[i]) {
        return None;
      }
      var d := (u[i] - '0') as int;
      assert u[..i + 1][..i] == u[..i];
      if v > (MaxLong - d) / 10 {
        if AllDigits(u) {
          MagnitudeGrows(u, i + 1);
        }
        return None;
      }
      v := v * 10 + d;
    }
    assert u[..|u|] == u;
    return Some(if neg then -v else v);
  }

  /** The decimal digits of a number, and a minus sign before those of a negative one. */
  function Decimal(n: nat): (r: seq<char>)
    ensures |r| > 0
  {
    (if n < 10 then [] else Decimal(n / 10)) + ['0' + (n % 10) as char]
  }

  function Printed(v: int): seq<char>
  {
    if v < 0 then ['-'] + Decimal(-v) else Decimal(v)
  }

  lemma {:induction false} DecimalValue(n: nat)
    ensures AllDigits(Decimal(n)) && Magnitude(Decimal(n)) == n && Decimal(n)[0] != '-'
  {
    var d := '0' + (n % 10) as char;
    if n >= 10 {
      DecimalValue(n / 10);
      var r := Decimal(n);
      assert r[..|r| - 1] == Decimal(n / 10);
    } else {
      assert [d][..0] == [];
    }
  }

  /** Every number whose magnitude fits is read back from its digits. */
  lemma IntRoundTrip(v: int)
    requires -MaxLong <= v <= MaxLong
    ensures IsLong(Printed(v)) && LongValue(Printed(v)) == v
  {
    hide Decimal;
    hide Magnitude;
    hide AllDigits;
    var n := if v < 0 then -v else v;
    DecimalValue(n);
    var s := Printed(v);
    assert Unsigned(s) == Decimal(n);
    assert s[0] == '-' <==> v < 0;
  }

  // ----- strings

  function Hex(c: char): (v: int)
    ensures -1 <= v < 16
  {
    if '0' <= c <= '9' then (c - '0') as int
    else if 'a' <= c <= 'f' then (c - 'a') as int + 10
    else if 'A' <= c <= 'F' then (c - 'A') as int + 10
    else -1
  }

  /** The bytes of a code point below 2^16. */
  function Utf8(cp: nat): (r: seq<char>)
    requires cp < 0x1_0000
    ensures 1 <= |r| <= 3 && forall i :: 0 <= i < |r| ==> r[i] < 256 as char
  {
    if cp < 0x80 then [cp as char]
    else if cp < 0x800 then [(0xC0 + cp / 0x40) as char, (0x80 + cp % 0x40) as char]
    else [(0xE0 + cp / 0x1000) as char, (0x80 + cp / 0x40 % 0x40) as char, (0x80 + cp % 0x40) as char]
  }

  /** The code point back from its bytes. */
  function FromUtf8(r: seq<char>): int
    requires 1 <= |r| <= 3
  {
    if |r| == 1 then r[0] as int
    else if |r| == 2 then (r[0] as int - 0xC0) * 0x40 + (r[1] as int - 0x80)
    else (r[0] as int - 0xE0) * 0x1000 + (r[1] as int - 0x80) * 0x40 + (r[2] as int - 0x80)
  }

  lemma Utf8RoundTrip(cp: nat)
    requires cp < 0x1_0000
    ensures FromUtf8(Utf8(cp)) == cp
  {
    assert cp / 0x1000 == cp / 0x40 / 0x40;
  }

  function SimpleEscape(e: char): Option<char>
  {
    match e
    case '"' => Some('"')
    case '\\' => Some('\\')
    case '/' => Some('/')
    case 'b' => Some(8 as char)
    case 'f' => Some(12 as char)
    case 'n' => Some('\n')
    case 'r' => Some('\r')
    case 't' => Some('\t')
    case _ => None
  }

  function CodePoint(s: seq<char>): Option<nat>
    requires |s| == 4
  {
    var a, b, c, d := Hex(s[0]), Hex(s[1]), Hex(s[2]), Hex(s[3]);
    if a < 0 || b < 0 || c < 0 || d < 0 then None else Some(a * 0x1000 + b * 0x100 + c * 0x10 + d)
  }

  /** What the next character or escape stands for, and how much of the text it takes. */
  function Piece(s: seq<char>): (r: Option<(seq<char>, nat)>)
    requires |s| > 0
    ensures r.Some? ==> 1 <= r.value.1 <= |s| && |r.value.0| > 0
  {
    if s[0] != '\\' || |s| == 1 then Some(([s[0]], 1))
    else if s[1] == 'u' then
      if |s| < 6 then None else
        var cp := CodePoint(s[2..6]);
        if cp.None? then None else Some((Utf8(cp.value), 6))
    else
      var c := SimpleEscape(s[1]);
      if c.None? then None else Some(([c.value], 2))
  }

  function Unescape(s: seq<char>): Option<seq<char>>
  {
    if |s| == 0 then Some([]) else
      var p := Piece(s);
      if p.None? then None else
        Prefixed(p.value.0, Unescape(s[p.value.1..]))
  }

  // ----- short escapes

  /** The letters of the short escapes and the four hexadecimal digits they stand for, from section 7 of RFC 8259. */
  const ShortForms: seq<(char, seq<char>)> := [
    ('"', "0022"), ('\\', "005C"), ('/', "002F"), ('b', "0008"), ('f', "000C"), ('n', "000A"), ('r', "000D"),
    ('t', "0009")]

  /** A short escape decodes like its long form. */
  lemma ShortEscape(k: nat, rest: seq<char>)
    requires k < |ShortForms|
    ensures var (e, digits) := ShortForms[k];
      Unescape(['\\', e] + rest) == Unescape(['\\', 'u'] + digits + rest)
  {
    var (e, digits) := ShortForms[k];
    var short, long := ['\\', e] + rest, ['\\', 'u'] + digits + rest;
    assert long[2..6] == digits;
    assert short[2..] == rest && long[6..] == rest;
    DigitsValue(k);
    assert Piece(short).value.0 == Piece(long).value.0;
  }

  lemma DigitsValue(k: nat)
    requires k < |ShortForms|
    ensures var (e, digits) := ShortForms[k];
      |digits| == 4 && e != 'u' && SimpleEscape(e).Some? && CodePoint(digits) == Some(SimpleEscape(e).value as int)
      && SimpleEscape(e).value as int < 0x80
  {
  }

  /** No other character may follow the backslash, except `u`. */
  lemma NoOtherEscape(e: char, rest: seq<char>)
    requires e != 'u' && forall k :: 0 <= k < |ShortForms| ==> ShortForms[k].0 != e
    ensures Unescape(['\\', e] + rest) == None
  {
    assert ShortForms[0].0 == '"' && ShortForms[1].0 == '\\' && ShortForms[2].0 == '/' && ShortForms[3].0 == 'b';
    assert ShortForms[4].0 == 'f' && ShortForms[5].0 == 'n' && ShortForms[6].0 == 'r' && ShortForms[7].0 == 't';
  }

  /** Decodes into a buffer of `cap` bytes, the last kept for the terminator: succeeds exactly when the
      text decodes and fits. */
  method DecodeString(text: seq<char>, cap: nat) returns (r: Option<seq<char>>)
    ensures r == var u := Unescape(text); if u.Some? && |u.value| < cap then u else None
  {
    if cap == 0 {
      return None;
    }
    var i, out: seq<char> := 0, [];
    assert text[0..] == text;
    PrefixNone(Unescape(text));
    while i < |text|
      invariant i <= |text| && |out| < cap
      invariant Unescape(text) == Prefixed(out, Unescape(text[i..]))
    {
      var p := Piece(text[i..]);
      if p.None? {
        return None;
      }
      assert text[i..][p.value.1..] == text[i + p.value.1..];
      PrefixTwice(out, p.value.0, Unescape(text[i + p.value.1..]));
      if |out| + |p.value.0| >= cap {
        return None;
      }
      out := out + p.value.0;
      i := i + p.value.1;
    }
    assert text[i..] == [] && out + [] == out;
    return Some(out);
  }

  function Prefixed(out: seq<char>, u: Option<seq<char>>): Option<seq<char>>
  {
    if u.None? then None else Some(out + u.value)
  }

  lemma PrefixNone(u: Option<seq<char>>)
    ensures Prefixed([], u) == u
  {
    if u.Some? {
      assert [] + u.value == u.value;
    }
  }

  lemma PrefixTwice(a: seq<char>, b: seq<char>, u: Option<seq<char>>)
    ensures Prefixed(a, Prefixed(b, u)) == Prefixed(a + b, u)
  {
    if u.Some? {
      assert a + (b + u.value) == (a + b) + u.value;
    }
  }

  // ----- escaping, the inverse

  function HexDigit(v: nat): char
    requires v < 16
  {
    if v < 10 then '0' + v as char else 'a' + (v - 10) as char
  }

  function EscapeChar(c: char): seq<char>
  {
    if c == '"' || c == '\\' then ['\\', c]
    else if c < ' ' then ['\\', 'u', '0', '0', HexDigit(c as int / 16), HexDigit(c as int % 16)]
    else [c]
  }

  function Escape(s: seq<char>): seq<char>
  {
    if |s| == 0 then [] else EscapeChar(s[0]) + Escape(s[1..])
  }

  lemma HexRoundTrip(v: nat)
    requires v < 16
    ensures Hex(HexDigit(v)) == v
  {
  }

  lemma PieceOfEscape(c: char, rest: seq<char>)
    ensures Piece(EscapeChar(c) + rest) == Some(([c], |EscapeChar(c)|))
  {
    var s := EscapeChar(c) + rest;
    if c < ' ' {
      HexRoundTrip(c as int / 16);
      HexRoundTrip(c as int % 16);
      assert s[2..6] == ['0', '0', HexDigit(c as int / 16), HexDigit(c as int % 16)];
      assert CodePoint(s[2..6]) == Some(c as int);
    }
  }

  /** Escaped text decodes to what was escaped. */
  lemma {:induction false} EscapeRoundTrip(s: seq<char>)
    ensures Unescape(Escape(s)) == Some(s)
  {
    if |s| > 0 {
      var e := EscapeChar(s[0]);
      EscapeRoundTrip(s[1..]);
      PieceOfEscape(s[0], Escape(s[1..]));
      assert Escape(s)[|e|..] == Escape(s[1..]);
      assert [s[0]] + s[1..] == s;
    }
  }
}
