/** The augment side: data, header, padding, checksum layer, then parity solved as erasures. */
module Rs03Augment {
  import opened Options
  import opened Bits
  import opened LittleEndian
  import opened Gf256
  import opened GfTables
  import opened Sums
  import opened RsCode
  import opened Crc32
  import opened Rs03Layout
  import opened Rs03Medium
  import opened Rs03Fix
  import opened Rs03Image

  // ----- the header

  const CREATOR_VERSION: nat := 7910
  const NEEDED_VERSION: nat := 7900
  const FINGERPRINT_SECTOR: nat := 16
  const SELFCRC_PLACEHOLDER: nat := 0x004c5047

  /** Bytes 0 to 83: cookie, method and the counts. */
  function HeaderHead(g: Layout): (r: seq<byte>)
    ensures |r| == 84
  {
    COOKIE + METHOD + Zeros(52) + WordBytes(g.dataSectors) + Zeros(4) + WordBytes(g.ndata) + WordBytes(g.nroots)
  }

  /** Bytes 84 to 119: versions, fingerprint sector, checksum and last-sector fill. */
  function HeaderMiddle(selfCrc: nat, inLast: nat): (r: seq<byte>)
    ensures |r| == 36
  {
    WordBytes(CREATOR_VERSION) + WordBytes(NEEDED_VERSION) + WordBytes(FINGERPRINT_SECTOR) + WordBytes(selfCrc)
      + Zeros(16) + WordBytes(inLast)
  }

  /** Bytes 120 to 4095. */
  function HeaderTail(g: Layout): (r: seq<byte>)
    ensures |r| == 3976
  {
    WordBytes(g.sectorsPerLayer) + Zeros(4)
      + WordBytes(g.nroots * g.sectorsPerLayer + g.sectorsPerLayer + 2) + Zeros(3964)
  }

  function HeaderWith(g: Layout, selfCrc: nat, inLast: nat): (r: seq<byte>)
    ensures |r| == 4096
  {
    HeaderHead(g) + HeaderMiddle(selfCrc, inLast) + HeaderTail(g)
  }

  /** The header carries the checksum of itself with the placeholder in the checksum field. */
  function Header(g: Layout, inLast: nat): (r: seq<byte>)
    ensures |r| == 4096
  {
    HeaderWith(g, Crc(HeaderWith(g, SELFCRC_PLACEHOLDER, inLast)), inLast)
  }

  lemma HeadFields(g: Layout)
    ensures HeaderHead(g)[0..12] == COOKIE && HeaderHead(g)[12..16] == METHOD
    ensures HeaderHead(g)[68..72] == WordBytes(g.dataSectors)
    ensures HeaderHead(g)[76..80] == WordBytes(g.ndata) && HeaderHead(g)[80..84] == WordBytes(g.nroots)
  {
    hide WordBytes;
  }

  lemma HeaderFields(g: Layout, inLast: nat)
    ensures var h := Header(g, inLast);
      && h[0..12] == COOKIE && h[12..16] == METHOD
      && h[68..72] == WordBytes(g.dataSectors) && h[76..80] == WordBytes(g.ndata)
      && h[80..84] == WordBytes(g.nroots) && h[120..124] == WordBytes(g.sectorsPerLayer)
  {
    hide WordBytes;
    hide HeaderHead;
    hide HeaderMiddle;
    hide Crc;
    var h, a := Header(g, inLast), HeaderHead(g);
    HeadFields(g);
    assert h[..84] == a;
    assert forall i, j :: 0 <= i <= j <= 84 ==> h[i..j] == a[i..j];
    var t := HeaderTail(g);
    assert h[120..124] == t[0..4];
    assert t[0..4] == WordBytes(g.sectorsPerLayer);
  }

  /** Bytes 96 to 99 hold the checksum of the header with the placeholder in them. */
  lemma HeaderChecksum(g: Layout, inLast: nat)
    ensures var h := Header(g, inLast);
      h[96..100] == WordBytes(Crc(h[..96] + WordBytes(SELFCRC_PLACEHOLDER) + h[100..]))
  {
    hide WordBytes;
    hide HeaderHead;
    hide HeaderTail;
    hide Crc;
    var blank := HeaderWith(g, SELFCRC_PLACEHOLDER, inLast);
    var crc := Crc(blank);
    var h := Header(g, inLast);
    MiddleParts(crc, inLast);
    MiddleParts(SELFCRC_PLACEHOLDER, inLast);
    var m, m' := HeaderMiddle(crc, inLast), HeaderMiddle(SELFCRC_PLACEHOLDER, inLast);
    assert h[96..100] == m[12..16];
    assert h[..96] == HeaderHead(g) + m[..12];
    assert h[100..] == m[16..] + HeaderTail(g);
    assert h[..96] + WordBytes(SELFCRC_PLACEHOLDER) + h[100..] == HeaderHead(g) + m' + HeaderTail(g);
  }

  lemma MiddleParts(selfCrc: nat, inLast: nat)
    ensures var m := HeaderMiddle(selfCrc, inLast);
      && m == m[..12] + WordBytes(selfCrc) + m[16..] && m[12..16] == WordBytes(selfCrc)
      && m[..12] == WordBytes(CREATOR_VERSION) + WordBytes(NEEDED_VERSION) + WordBytes(FINGERPRINT_SECTOR)
      && m[16..] == Zeros(16) + WordBytes(inLast)
  {
    hide WordBytes;
  }

  lemma FieldOf(img: seq<byte>, h: seq<byte>, off: nat, i: nat, j: nat)
    requires off + |h| <= |img| && img[off..off + |h|] == h && i <= j <= |h|
    ensures img[off + i..off + j] == h[i..j]
  {
    var w := img[off..off + |h|];
    forall k | i <= k < j
      ensures img[off + k] == h[k]
    {
      assert w[k] == img[off + k];
    }
  }

  /** A header written at its declared place parses back to the layout it was written from. */
  lemma HeaderParses(g: Layout, inLast: nat, img: seq<byte>)
    requires Consistent(g) && g.sectorsPerLayer <= 0x7fffffff && g.dataSectors < 0x1_0000_0000
    requires (g.dataSectors + 2) * SECTOR_SIZE <= |img|
    requires img[g.dataSectors * SECTOR_SIZE..(g.dataSectors + 2) * SECTOR_SIZE] == Header(g, inLast)
    ensures HeaderAt(img, g.dataSectors) && ParseAt(img, g.dataSectors) == Some(g)
  {
    hide WordBytes;
    hide Header;
    hide Load;
    var off := g.dataSectors * SECTOR_SIZE;
    var h := Header(g, inLast);
    HeaderFields(g, inLast);
    FieldOf(img, h, off, 0, 12);
    FieldOf(img, h, off, 12, 16);
    FieldOf(img, h, off, 68, 72);
    FieldOf(img, h, off, 76, 80);
    FieldOf(img, h, off, 80, 84);
    FieldOf(img, h, off, 120, 124);
    LoadBytes(img, off + OFF_SECTORS, g.dataSectors);
    LoadBytes(img, off + OFF_DATABYTES, g.ndata);
    LoadBytes(img, off + OFF_ECCBYTES, g.nroots);
    LoadBytes(img, off + OFF_SECTORSPERLAYER, g.sectorsPerLayer);
  }

  // ----- the parity layers

  ghost predicate ParityFlags(g: Layout, bad: seq<bool>)
  {
    |bad| == g.totalSectors && forall sec :: 0 <= sec < |bad| ==> (bad[sec] <==> sec >= g.firstEccPos)
  }

  lemma {:induction false} ParityFlagged(g: Layout, bad: seq<bool>, pos: nat, n: nat)
    requires Consistent(g) && ParityFlags(g, bad) && pos < g.sectorsPerLayer && n <= 255
    ensures |FlaggedTo(g, bad, pos, n)| == if n <= g.ndata then 0 else n - g.ndata
  {
    hide SectorIndex;
    if n > 0 {
      ParityFlagged(g, bad, pos, n - 1);
      ParitySide(g, n - 1, pos);
      SectorIndexBound(g, n - 1, pos);
    }
  }

  lemma ParitySide(g: Layout, layer: nat, pos: nat)
    requires Consistent(g) && pos < g.sectorsPerLayer
    ensures SectorIndex(g, layer, pos) >= g.firstEccPos <==> layer >= g.ndata
  {
    SectorIndexLinear(g, layer, pos);
    LayersFit(g);
    if layer >= g.ndata {
      MulMono(g.ndata, layer, g.sectorsPerLayer);
    } else {
      MulNext(layer, g.sectorsPerLayer);
      MulMono(layer + 1, g.ndata, g.sectorsPerLayer);
    }
  }

  /** The image with every parity byte replaced by the one its codeword needs. */
  ghost function ParityByte(g: Layout, img: seq<byte>, bad: seq<bool>, layer: nat, pos: nat, b: nat): byte
    requires ImageFor(g, img) && ParityFlags(g, bad) && layer < 255 && pos < g.sectorsPerLayer && b < SECTOR_SIZE
  {
    ParityFlagged(g, bad, pos, 255);
    Completion(Word(g, img, pos, b), g.nroots, Flagged(g, bad, pos))[layer]
  }

  ghost function ParityImage(g: Layout, img: seq<byte>, bad: seq<bool>): (r: seq<byte>)
    requires ImageFor(g, img) && ParityFlags(g, bad)
    ensures |r| == g.totalSectors * SECTOR_SIZE
  {
    seq(g.totalSectors * SECTOR_SIZE, i requires 0 <= i < g.totalSectors * SECTOR_SIZE =>
      var (layer, pos) := Coordinates(g, i / SECTOR_SIZE);
      ParityByte(g, img, bad, layer, pos, i % SECTOR_SIZE))
  }

  ghost function Coordinates(g: Layout, sec: nat): (r: (nat, nat))
    requires Consistent(g) && sec < g.totalSectors
    ensures r.0 < 255 && r.1 < g.sectorsPerLayer && SectorIndex(g, r.0, r.1) == sec
  {
    SectorCoordinates(g, sec);
    (LayerOfSector(g, sec), PosOfSector(g, sec))
  }

  lemma SectorCoordinates(g: Layout, sec: nat)
    requires Consistent(g) && sec < g.totalSectors
    ensures LayerOfSector(g, sec) < 255 && PosOfSector(g, sec) < g.sectorsPerLayer
    ensures SectorIndex(g, LayerOfSector(g, sec), PosOfSector(g, sec)) == sec
  {
    hide SectorIndex;
    var layer, pos := SectorIndexOnto(g, sec);
    SectorSplit(g, layer, pos);
  }

  lemma ParityCell(g: Layout, img: seq<byte>, bad: seq<bool>, layer: nat, pos: nat, b: nat)
    requires ImageFor(g, img) && ParityFlags(g, bad) && layer < 255 && pos < g.sectorsPerLayer && b < SECTOR_SIZE
    ensures Cell(g, ParityImage(g, img, bad), layer, pos, b) == ParityByte(g, img, bad, layer, pos, b)
  {
    hide SectorIndex;
    hide ParityByte;
    AddrBound(g, layer, pos, b);
    var i := Addr(g, layer, pos, b);
    assert i % SECTOR_SIZE == b;
    var (l, p) := Coordinates(g, i / SECTOR_SIZE);
    SectorIndexInjective(g, layer, pos, l, p);
  }

  /** Solving the parity as erasures always has an answer, and it is a valid image. */
  lemma ParityImageAugmented(g: Layout, img: seq<byte>, bad: seq<bool>)
    requires ImageFor(g, img) && |img| == g.totalSectors * SECTOR_SIZE && ParityFlags(g, bad)
    ensures Augmented(g, ParityImage(g, img, bad)) && FlaggedDamage(g, bad, img, ParityImage(g, img, bad))
  {
    hide SectorIndex;
    hide IsCodeword;
    hide ParityImage;
    hide FlaggedTo;
    hide Completion;
    var orig := ParityImage(g, img, bad);
    forall pos, b | 0 <= pos < g.sectorsPerLayer && 0 <= b < SECTOR_SIZE
      ensures IsCodeword(Word(g, orig, pos, b), g.nroots)
    {
      ParityFlagged(g, bad, pos, 255);
      var c := Completion(Word(g, img, pos, b), g.nroots, Flagged(g, bad, pos));
      forall l | 0 <= l < 255
        ensures Word(g, orig, pos, b)[l] == c[l]
      {
        ParityCell(g, img, bad, l, pos, b);
      }
      assert Word(g, orig, pos, b) == c;
    }
    forall i | 0 <= i < |img| && (i / SECTOR_SIZE < g.totalSectors ==> !bad[i / SECTOR_SIZE])
      ensures orig[i] == img[i]
    {
      var sec, b := i / SECTOR_SIZE, i % SECTOR_SIZE;
      var layer, pos := SectorIndexOnto(g, sec);
      ParityCell(g, img, bad, layer, pos, b);
      ParityFlagged(g, bad, pos, 255);
      FlaggedIff(g, bad, pos, 255, layer);
      var w := Word(g, img, pos, b);
      assert w[layer] == img[i];
      assert Cell(g, orig, layer, pos, b) == orig[i];
    }
    forall pos | 0 <= pos < g.sectorsPerLayer
      ensures |Flagged(g, bad, pos)| <= g.nroots
    {
      ParityFlagged(g, bad, pos, 255);
    }
  }

  // ----- building the image

  method Blit(img: array<byte>, off: nat, src: seq<byte>)
    requires off + |src| <= img.Length
    modifies img
    ensures img[..] == old(img[..off]) + src + old(img[off + |src|..])
  {
    ghost var before := img[..];
    for i := 0 to |src|
      invariant img[..] == before[..off] + src[..i] + before[off + i..]
    {
      img[off + i] := src[i];
    }
  }

  /** The data, zero-filled to a whole sector, and the header after it. */
  ghost predicate Front(g: Layout, img: seq<byte>, data: seq<byte>, header: seq<byte>)
  {
    && (g.dataSectors + 2) * SECTOR_SIZE <= |img| && |data| <= g.dataSectors * SECTOR_SIZE
    && img[..|data|] == data
    && (forall i :: |data| <= i < g.dataSectors * SECTOR_SIZE ==> img[i] == 0)
    && img[g.dataSectors * SECTOR_SIZE..(g.dataSectors + 2) * SECTOR_SIZE] == header
  }

  ghost predicate PaddedTo(g: Layout, img: seq<byte>, padding: nat -> seq<byte>, n: nat)
  {
    forall sec :: g.dataSectors + 2 <= sec < n ==>
      (sec + 1) * SECTOR_SIZE <= |img| && SectorBytes(img, sec) == padding(sec)
  }

  /** Data, header and padding: everything before the checksum layer. */
  ghost predicate LaidOut(g: Layout, img: seq<byte>, data: seq<byte>, header: seq<byte>, padding: nat -> seq<byte>)
  {
    && |img| == g.totalSectors * SECTOR_SIZE && Front(g, img, data, header)
    && PaddedTo(g, img, padding, g.firstCrcPos) && BlankFrom(img, g.firstCrcPos * SECTOR_SIZE)
  }

  ghost predicate BlankFrom(img: seq<byte>, from: nat)
  {
    forall i :: from <= i < |img| ==> img[i] == 0
  }

  /** The padding sectors from `a` up to `b`. */
  function Pads(padding: nat -> seq<byte>, a: nat, b: nat): seq<byte>
  {
    if b <= a then [] else Pads(padding, a, b - 1) + padding(b - 1)
  }

  /** Every byte before the checksum layer. */
  ghost function DataLayers(g: Layout, data: seq<byte>, header: seq<byte>, padding: nat -> seq<byte>): seq<byte>
  {
    WholeSectors(data) + header + Pads(padding, g.dataSectors + 2, g.firstCrcPos)
  }

  lemma {:induction false} PadsInPlace(g: Layout, img: seq<byte>, padding: nat -> seq<byte>, n: nat)
    requires PaddedTo(g, img, padding, n) && g.dataSectors + 2 <= n && n * SECTOR_SIZE <= |img|
    requires forall sec: nat :: |padding(sec)| == SECTOR_SIZE
    ensures img[(g.dataSectors + 2) * SECTOR_SIZE..n * SECTOR_SIZE] == Pads(padding, g.dataSectors + 2, n)
  {
    var a := (g.dataSectors + 2) * SECTOR_SIZE;
    if n > g.dataSectors + 2 {
      PadsInPlace(g, img, padding, n - 1);
      assert SectorBytes(img, n - 1) == padding(n - 1);
      assert img[a..n * SECTOR_SIZE] == img[a..(n - 1) * SECTOR_SIZE] + SectorBytes(img, n - 1);
    }
  }

  lemma DataLayersInPlace(g: Layout, img: seq<byte>, data: seq<byte>, header: seq<byte>, padding: nat -> seq<byte>)
    requires Front(g, img, data, header) && PaddedTo(g, img, padding, g.firstCrcPos) && |header| == 4096
    requires g.dataSectors == (|data| + 2047) / 2048 && g.dataSectors + 2 <= g.firstCrcPos
    requires g.firstCrcPos * SECTOR_SIZE <= |img| && forall sec: nat :: |padding(sec)| == SECTOR_SIZE
    ensures img[..g.firstCrcPos * SECTOR_SIZE] == DataLayers(g, data, header, padding)
  {
    hide PaddedTo;
    hide Pads;
    PadsInPlace(g, img, padding, g.firstCrcPos);
    var a, b, c := g.dataSectors * SECTOR_SIZE, (g.dataSectors + 2) * SECTOR_SIZE, g.firstCrcPos * SECTOR_SIZE;
    DataInPlace(g, img, data, header);
    assert img[..c] == img[..a] + img[a..b] + img[b..c];
  }

  lemma DataInPlace(g: Layout, img: seq<byte>, data: seq<byte>, header: seq<byte>)
    requires Front(g, img, data, header) && g.dataSectors == (|data| + 2047) / 2048
    ensures img[..g.dataSectors * SECTOR_SIZE] == WholeSectors(data)
    ensures img[g.dataSectors * SECTOR_SIZE..(g.dataSectors + 2) * SECTOR_SIZE] == header
  {
    var n, w := g.dataSectors * SECTOR_SIZE, WholeSectors(data);
    forall i | 0 <= i < n
      ensures img[i] == w[i]
    {
      if i < |data| {
        assert img[..|data|][i] == data[i];
      }
    }
  }

  /** What lies before an edge decides the front. */
  lemma FrontKept(g: Layout, before: seq<byte>, after: seq<byte>, data: seq<byte>, header: seq<byte>, edge: nat)
    requires Front(g, before, data, header) && |before| == |after|
    requires (g.dataSectors + 2) * SECTOR_SIZE <= edge <= |before|
    requires forall i :: 0 <= i < edge ==> after[i] == before[i]
    ensures Front(g, after, data, header)
  {
    assert after[..|data|] == before[..|data|];
    assert after[g.dataSectors * SECTOR_SIZE..(g.dataSectors + 2) * SECTOR_SIZE]
        == before[g.dataSectors * SECTOR_SIZE..(g.dataSectors + 2) * SECTOR_SIZE];
  }

  lemma PaddingKept(g: Layout, before: seq<byte>, after: seq<byte>, padding: nat -> seq<byte>, sec: nat)
    requires PaddedTo(g, before, padding, sec) && (sec + 1) * SECTOR_SIZE <= |before| && |padding(sec)| == SECTOR_SIZE
    requires after == before[..sec * SECTOR_SIZE] + padding(sec) + before[sec * SECTOR_SIZE + SECTOR_SIZE..]
    ensures PaddedTo(g, after, padding, sec + 1) && |after| == |before|
    ensures forall i :: 0 <= i < sec * SECTOR_SIZE ==> after[i] == before[i]
    ensures BlankFrom(before, sec * SECTOR_SIZE) ==> BlankFrom(after, (sec + 1) * SECTOR_SIZE)
  {
    forall s | g.dataSectors + 2 <= s < sec
      ensures SectorBytes(after, s) == padding(s)
    {
      assert SectorBytes(after, s) == SectorBytes(before, s);
    }
    assert SectorBytes(after, sec) == padding(sec);
  }

  lemma FrontStart(g: Layout, zero: seq<byte>, one: seq<byte>, two: seq<byte>, data: seq<byte>, header: seq<byte>)
    requires (g.dataSectors + 2) * SECTOR_SIZE <= |zero| && |data| <= g.dataSectors * SECTOR_SIZE && |header| == 4096
    requires forall i :: 0 <= i < |zero| ==> zero[i] == 0
    requires one == zero[..0] + data + zero[|data|..]
    requires two == one[..g.dataSectors * SECTOR_SIZE] + header + one[g.dataSectors * SECTOR_SIZE + 4096..]
    ensures Front(g, two, data, header) && BlankFrom(two, (g.dataSectors + 2) * SECTOR_SIZE)
  {
    var o := g.dataSectors * SECTOR_SIZE;
    assert two[..|data|] == one[..|data|] == data;
    assert two[o..o + 4096] == header;
    forall i | |data| <= i < o
      ensures two[i] == 0
    {
      assert two[i] == one[i] == zero[i];
    }
    forall i | o + 4096 <= i < |two|
      ensures two[i] == 0
    {
      assert two[i] == one[i] == zero[i];
    }
  }

  lemma NoPadding(g: Layout, img: seq<byte>, padding: nat -> seq<byte>)
    ensures PaddedTo(g, img, padding, g.dataSectors + 2)
  {
  }

  /** Lays one padding sector down behind what is there. */
  method PadSector(g: Layout, img: array<byte>, sec: nat, padding: nat -> seq<byte>,
                   ghost data: seq<byte>, ghost header: seq<byte>)
    requires g.dataSectors + 2 <= sec && (sec + 1) * SECTOR_SIZE <= img.Length && |padding(sec)| == SECTOR_SIZE
    requires Front(g, img[..], data, header) && PaddedTo(g, img[..], padding, sec)
    requires BlankFrom(img[..], sec * SECTOR_SIZE)
    modifies img
    ensures Front(g, img[..], data, header) && PaddedTo(g, img[..], padding, sec + 1)
    ensures BlankFrom(img[..], (sec + 1) * SECTOR_SIZE)
  {
    hide Front;
    hide PaddedTo;
    hide BlankFrom;
    ghost var before := img[..];
    Blit(img, sec * SECTOR_SIZE, padding(sec));
    PaddingKept(g, before, img[..], padding, sec);
    FrontKept(g, before, img[..], data, header, sec * SECTOR_SIZE);
  }

  method LayDown(g: Layout, data: seq<byte>, header: seq<byte>, padding: nat -> seq<byte>) returns (img: array<byte>)
    requires Consistent(g) && g.dataSectors + 2 <= g.firstCrcPos && |data| <= g.dataSectors * SECTOR_SIZE
    requires |header| == 4096 && forall sec: nat :: |padding(sec)| == SECTOR_SIZE
    ensures fresh(img) && LaidOut(g, img[..], data, header, padding)
  {
    hide Consistent;
    hide Front;
    hide PaddedTo;
    hide BlankFrom;
    LayersFit(g);
    ConsistentBounds(g);
    img := new byte[g.totalSectors * SECTOR_SIZE](_ => 0);
    ghost var zero := img[..];
    Blit(img, 0, data);
    ghost var one := img[..];
    Blit(img, g.dataSectors * SECTOR_SIZE, header);
    FrontStart(g, zero, one, img[..], data, header);
    NoPadding(g, img[..], padding);
    for sec := g.dataSectors + 2 to g.firstCrcPos
      invariant Front(g, img[..], data, header) && PaddedTo(g, img[..], padding, sec)
      invariant BlankFrom(img[..], sec * SECTOR_SIZE)
    {
      PadSector(g, img, sec, padding, data, header);
    }
  }

  /** The first `n` data sectors have their checksum in place. */
  ghost predicate Checked(g: Layout, img: seq<byte>, data: seq<byte>, n: nat)
    requires g.sectorsPerLayer > 0
  {
    forall sec :: 0 <= sec < n ==> CheckedAt(g, img, data, sec)
  }

  ghost predicate CheckedAt(g: Layout, img: seq<byte>, data: seq<byte>, sec: nat)
    requires g.sectorsPerLayer > 0
  {
    var slot := Slot(g, LayerOfSector(g, sec), PosOfSector(g, sec));
    && slot + 4 <= |img| && (sec + 1) * SECTOR_SIZE <= |data|
    && img[slot..slot + 4] == WordBytes(Crc(SectorBytes(data, sec)))
  }

  /** Equal but for one four-byte word. */
  ghost predicate SameOutside(before: seq<byte>, after: seq<byte>, slot: nat)
  {
    |before| == |after| && forall i :: 0 <= i < |before| && !(slot <= i < slot + 4) ==> after[i] == before[i]
  }

  lemma KeepsChecked(g: Layout, before: seq<byte>, after: seq<byte>, data: seq<byte>, n: nat, layer: nat, pos: nat)
    requires Consistent(g) && layer < g.ndata - 1 && pos < g.sectorsPerLayer && n == SectorIndex(g, layer, pos)
    requires Slot(g, layer, pos) + 4 <= |before| && Checked(g, before, data, n) && n < g.firstCrcPos
    requires SameOutside(before, after, Slot(g, layer, pos))
    ensures Checked(g, after, data, n)
  {
    hide Slot;
    hide WordBytes;
    hide Crc;
    var slot := Slot(g, layer, pos);
    forall sec | 0 <= sec < n
      ensures CheckedAt(g, after, data, sec)
    {
      assert CheckedAt(g, before, data, sec);
      SectorJoin(g, sec);
      SlotsDisjoint(g, LayerOfSector(g, sec), PosOfSector(g, sec), layer, pos);
      var s := Slot(g, LayerOfSector(g, sec), PosOfSector(g, sec));
      assert after[s..s + 4] == before[s..s + 4];
    }
  }

  /** A byte past the checksums of a sector. */
  predicate IsSlack(g: Layout, i: nat)
  {
    i % SECTOR_SIZE >= 4 * (g.ndata - 1)
  }

  /** Those bytes are kept. */
  ghost predicate SlackKept(g: Layout, before: seq<byte>, after: seq<byte>)
  {
    && |before| == |after|
    && forall i :: 0 <= i < |before| && IsSlack(g, i) ==> after[i] == before[i]
  }

  lemma SlackSame(g: Layout, img: seq<byte>)
    ensures SlackKept(g, img, img)
  {
  }

  lemma KeepsSlack(g: Layout, data: seq<byte>, before: seq<byte>, after: seq<byte>, layer: nat, pos: nat)
    requires Consistent(g) && layer < g.ndata - 1 && pos < g.sectorsPerLayer
    requires SlackKept(g, data, before) && SameOutside(before, after, Slot(g, layer, pos))
    ensures SlackKept(g, data, after)
  {
    ChecksumElsewhere(g, layer, pos);
    var slot := Slot(g, layer, pos);
    hide Slot;
    hide SectorIndex;
    assert slot % SECTOR_SIZE == 4 * layer;
    forall i | slot <= i < slot + 4
      ensures !IsSlack(g, i)
    {
      assert i % SECTOR_SIZE == 4 * layer + (i - slot);
    }
  }

  /** Writes the checksum of every data-layer sector one position back in the checksum layer. */
  method WriteCrcLayer(table: seq<nat>, g: Layout, img: array<byte>)
    requires |table| == 256 && forall n :: 0 <= n < 256 ==> table[n] == Steps(n, 8)
    requires Consistent(g) && img.Length == g.totalSectors * SECTOR_SIZE
    requires g.firstCrcPos * SECTOR_SIZE <= img.Length
    modifies img
    ensures img[..g.firstCrcPos * SECTOR_SIZE] == old(img[..g.firstCrcPos * SECTOR_SIZE])
    ensures Checked(g, img[..], old(img[..]), g.firstCrcPos) && SlackKept(g, old(img[..]), img[..])
  {
    hide Steps;
    hide Crc;
    hide SectorIndex;
    hide Slot;
    hide WordBytes;
    hide CheckedAt;
    hide SlackKept;
    LayersFit(g);
    ghost var data := img[..];
    SlackSame(g, data);
    var spl := g.sectorsPerLayer;
    var edge := g.firstCrcPos * SECTOR_SIZE;
    ghost var n := 0;
    for layer := 0 to g.ndata - 1
      invariant n == layer * spl && n <= g.firstCrcPos
      invariant img[..edge] == data[..edge] && Checked(g, img[..], data, n) && SlackKept(g, data, img[..])
    {
      NextLayer(g, layer);
      for pos := 0 to spl
        invariant n == layer * spl + pos
        invariant img[..edge] == data[..edge] && Checked(g, img[..], data, n) && SlackKept(g, data, img[..])
      {
        SectorIndexLinear(g, layer, pos);
        SectorSplit(g, layer, pos);
        SlotInCrcLayer(g, layer, pos);
        var sec := SectorIndex(g, layer, pos);
        SectorOfPrefix(img[..], data, edge, sec);
        var crc := Checksum(table, SectorBytes(img[..], sec));
        ghost var before := img[..];
        var slot := Slot(g, layer, pos);
        Blit(img, slot, WordBytes(crc));
        AfterBlit(img[..], before, slot, WordBytes(crc), edge);
        KeepsChecked(g, before, img[..], data, n, layer, pos);
        KeepsSlack(g, data, before, img[..], layer, pos);
        assert CheckedAt(g, img[..], data, sec) by { NewChecked(g, img[..], data, sec, slot, crc); }
        n := n + 1;
      }
    }
  }

  lemma NewChecked(g: Layout, img: seq<byte>, data: seq<byte>, sec: nat, slot: nat, crc: nat)
    requires Consistent(g) && slot == Slot(g, LayerOfSector(g, sec), PosOfSector(g, sec)) && slot + 4 <= |img|
    requires (sec + 1) * SECTOR_SIZE <= |data| && crc == Crc(SectorBytes(data, sec))
    requires slot + 4 <= |img| && img[slot..slot + 4] == WordBytes(crc)
    ensures CheckedAt(g, img, data, sec)
  {
  }

  lemma SectorOfPrefix(img: seq<byte>, data: seq<byte>, edge: nat, sec: nat)
    requires |img| == |data| && edge <= |img| && img[..edge] == data[..edge] && (sec + 1) * SECTOR_SIZE <= edge
    ensures SectorBytes(img, sec) == SectorBytes(data, sec)
  {
    assert forall i :: 0 <= i < edge ==> img[i] == img[..edge][i] && data[i] == data[..edge][i];
  }

  lemma AfterBlit(after: seq<byte>, before: seq<byte>, slot: nat, bs: seq<byte>, edge: nat)
    requires |bs| == 4 && edge <= slot && slot + 4 <= |before|
    requires after == before[..slot] + bs + before[slot + 4..]
    ensures SameOutside(before, after, slot) && after[..edge] == before[..edge] && after[slot..slot + 4] == bs
  {
  }

  method MarkParity(g: Layout) returns (bad: seq<bool>)
    requires Consistent(g)
    ensures ParityFlags(g, bad)
  {
    hide SectorIndex;
    hide Consistent;
    hide FlagsBelow;
    LayersFit(g);
    ConsistentBounds(g);
    var spl := g.sectorsPerLayer;
    bad := seq(g.totalSectors, _ => false);
    NoFlags(g, bad);
    ghost var n := g.firstEccPos;
    for layer := g.ndata to 255
      invariant n == layer * spl && g.firstEccPos <= n && FlagsBelow(g, bad, n)
    {
      MulNext(layer, spl);
      for pos := 0 to spl
        invariant n == layer * spl + pos && g.firstEccPos <= n && FlagsBelow(g, bad, n)
      {
        SectorAt(g, layer, pos, n);
        NextFlag(g, bad, n);
        bad := bad[SectorIndex(g, layer, pos) := true];
        n := n + 1;
      }
    }
    AllFlags(g, bad);
  }

  /** Parity sectors below `n` are flagged. */
  ghost predicate FlagsBelow(g: Layout, bad: seq<bool>, n: nat)
  {
    |bad| == g.totalSectors && forall sec :: 0 <= sec < |bad| ==> (bad[sec] <==> g.firstEccPos <= sec < n)
  }

  lemma NoFlags(g: Layout, bad: seq<bool>)
    requires |bad| == g.totalSectors && forall sec :: 0 <= sec < |bad| ==> !bad[sec]
    ensures FlagsBelow(g, bad, g.firstEccPos)
  {
  }

  lemma NextFlag(g: Layout, bad: seq<bool>, n: nat)
    requires FlagsBelow(g, bad, n) && g.firstEccPos <= n < g.totalSectors
    ensures |bad| == g.totalSectors && FlagsBelow(g, bad[n := true], n + 1)
  {
  }

  lemma AllFlags(g: Layout, bad: seq<bool>)
    requires Consistent(g) && FlagsBelow(g, bad, 255 * g.sectorsPerLayer)
    ensures ParityFlags(g, bad)
  {
  }

  lemma SectorAt(g: Layout, layer: nat, pos: nat, n: nat)
    requires Consistent(g) && layer < 255 && pos < g.sectorsPerLayer && n == layer * g.sectorsPerLayer + pos
    ensures SectorIndex(g, layer, pos) == n < g.totalSectors
  {
    hide SectorIndex;
    SectorIndexLinear(g, layer, pos);
    SectorIndexBound(g, layer, pos);
  }

  /** A finished image: the data in place, the header after it, every data sector's checksum right
      and every codeword complete. */
  ghost predicate Finished(g: Layout, img: seq<byte>, data: seq<byte>, inLast: nat)
  {
    && Augmented(g, img) && |img| == g.totalSectors * SECTOR_SIZE
    && Front(g, img, data, Header(g, inLast))
    && forall sec :: 0 <= sec < g.firstCrcPos ==> !Damaged(g, img, sec)
  }

  /** A finished image with all its bytes: the data layers as laid out, and zeros past the checksums. */
  ghost predicate Complete(g: Layout, img: seq<byte>, data: seq<byte>, inLast: nat, padding: nat -> seq<byte>)
  {
    && Finished(g, img, data, inLast)
    && g.firstCrcPos * SECTOR_SIZE <= |img| && g.firstEccPos * SECTOR_SIZE <= |img|
    && img[..g.firstCrcPos * SECTOR_SIZE] == DataLayers(g, data, Header(g, inLast), padding)
    && PaddedTo(g, img, padding, g.firstCrcPos)
    && forall i :: g.firstCrcPos * SECTOR_SIZE <= i < g.firstEccPos * SECTOR_SIZE && IsSlack(g, i) ==> img[i] == 0
  }

  /** Builds the augmented image.  It fails only when the medium ladder has no room. */
  method Augment(t: Tables, table: seq<nat>, data: seq<byte>, inLast: nat, padding: nat -> seq<byte>)
    returns (rc: int, img: array<byte>)
    requires IsTables(t) && |table| == 256 && forall n :: 0 <= n < 256 ==> table[n] == Steps(n, 8)
    requires inLast < 0x1_0000_0000 && forall sec: nat :: |padding(sec)| == SECTOR_SIZE
    ensures fresh(img)
    ensures rc == if CalcLayout((|data| + 2047) / 2048).Some? then 0 else -1
    ensures rc == 0 ==>
      var last := if inLast == 0 then SECTOR_SIZE else inLast;
      Complete(CalcLayout((|data| + 2047) / 2048).value, img[..], data, last, padding)
  {
    hide CalcLayout;
    hide Steps;
    hide Crc;
    hide Augmented;
    hide Header;
    hide Damaged;
    hide IsTables;
    hide Checked;
    hide ParityImage;
    hide FlaggedDamage;
    hide AllRestored;
    hide KeepsUnflagged;
    hide Decided;
    hide OverloadedTo;
    hide Front;
    hide PaddedTo;
    hide BlankFrom;
    hide SlackKept;
    hide DataLayers;
    hide Outcome;
    var dataSectors := (|data| + SECTOR_SIZE - 1) / SECTOR_SIZE;
    var layout := CalcLayout(dataSectors);
    if layout.None? {
      img := new byte[0];
      return -1, img;
    }
    var g := layout.value;
    CalcLayoutSound(dataSectors);
    LayersFit(g);
    var last := if inLast == 0 then SECTOR_SIZE else inLast;
    img := LayDown(g, data, Header(g, last), padding);
    ghost var laid := img[..];
    WriteCrcLayer(table, g, img);
    var bad := MarkParity(g);
    ghost var img0 := img[..];
    ghost var orig := ParityImage(g, img0, bad);
    ParityImageAugmented(g, img0, bad);
    rc := Fix(t, g, img, bad, orig);
    FixRestoresImage(g, bad, img0, img[..], orig);
    FinishedImage(g, laid, img0, img[..], bad, data, last, padding);
    CompleteImage(g, laid, img0, img[..], bad, data, last, padding);
    if rc != 0 {
      rc := if rc > 0 then rc else -1;
    }
  }

  lemma KeptPrefix(g: Layout, bad: seq<bool>, before: seq<byte>, after: seq<byte>)
    requires Consistent(g) && ParityFlags(g, bad) && KeepsUnflagged(g, bad, before, after)
    requires |before| == g.totalSectors * SECTOR_SIZE
    ensures g.firstEccPos * SECTOR_SIZE <= |before| == |after|
    ensures after[..g.firstEccPos * SECTOR_SIZE] == before[..g.firstEccPos * SECTOR_SIZE]
  {
    LayersFit(g);
    forall i | 0 <= i < g.firstEccPos * SECTOR_SIZE
      ensures after[i] == before[i]
    {
      assert i / SECTOR_SIZE < g.firstEccPos;
    }
  }

  lemma FinishedImage(g: Layout, laid: seq<byte>, img0: seq<byte>, img: seq<byte>, bad: seq<bool>, data: seq<byte>,
                      inLast: nat, padding: nat -> seq<byte>)
    requires Consistent(g) && ParityFlags(g, bad) && Augmented(g, img) && g.dataSectors + 2 <= g.firstCrcPos
    requires LaidOut(g, laid, data, Header(g, inLast), padding)
    requires g.firstCrcPos * SECTOR_SIZE <= |laid| == |img0|
    requires img0[..g.firstCrcPos * SECTOR_SIZE] == laid[..g.firstCrcPos * SECTOR_SIZE]
    requires Checked(g, img0, laid, g.firstCrcPos) && KeepsUnflagged(g, bad, img0, img)
    ensures Finished(g, img, data, inLast)
  {
    hide Augmented;
    hide Header;
    hide Damaged;
    hide CheckedAt;
    hide Front;
    var edge, top := g.firstCrcPos * SECTOR_SIZE, g.firstEccPos * SECTOR_SIZE;
    KeptPrefix(g, bad, img0, img);
    hide KeepsUnflagged;
    assert img[..edge] == img[..top][..edge] && img0[..edge] == img0[..top][..edge];
    assert forall i :: 0 <= i < edge ==> img[i] == img[..edge][i] && laid[i] == laid[..edge][i];
    FrontKept(g, laid, img, data, Header(g, inLast), edge);
    forall sec | 0 <= sec < g.firstCrcPos
      ensures !Damaged(g, img, sec)
    {
      assert CheckedAt(g, img0, laid, sec);
      CheckedUndamaged(g, img0, img, laid, sec);
    }
  }

  lemma CompleteImage(g: Layout, laid: seq<byte>, img0: seq<byte>, img: seq<byte>, bad: seq<bool>, data: seq<byte>,
                      inLast: nat, padding: nat -> seq<byte>)
    requires Consistent(g) && ParityFlags(g, bad) && g.dataSectors + 2 <= g.firstCrcPos
    requires g.dataSectors == (|data| + 2047) / 2048 && forall sec: nat :: |padding(sec)| == SECTOR_SIZE
    requires LaidOut(g, laid, data, Header(g, inLast), padding) && Finished(g, img, data, inLast)
    requires g.firstCrcPos * SECTOR_SIZE <= |laid| == |img0|
    requires img0[..g.firstCrcPos * SECTOR_SIZE] == laid[..g.firstCrcPos * SECTOR_SIZE]
    requires SlackKept(g, laid, img0) && KeepsUnflagged(g, bad, img0, img)
    ensures Complete(g, img, data, inLast, padding)
  {
    hide Finished;
    hide Header;
    hide Front;
    hide PaddedTo;
    hide DataLayers;
    var edge, top := g.firstCrcPos * SECTOR_SIZE, g.firstEccPos * SECTOR_SIZE;
    KeptPrefix(g, bad, img0, img);
    hide KeepsUnflagged;
    assert img[..edge] == img[..top][..edge] && img0[..edge] == img0[..top][..edge];
    FinishedFront(g, img, data, inLast);
    SamePadding(g, laid, img, padding);
    DataLayersInPlace(g, img, data, Header(g, inLast), padding);
    forall i | edge <= i < top && IsSlack(g, i)
      ensures img[i] == 0
    {
      assert img[i] == img[..top][i] && img0[i] == img0[..top][i];
    }
  }

  lemma FinishedFront(g: Layout, img: seq<byte>, data: seq<byte>, inLast: nat)
    requires Finished(g, img, data, inLast)
    ensures Front(g, img, data, Header(g, inLast)) && |img| == g.totalSectors * SECTOR_SIZE
  {
  }

  lemma SamePadding(g: Layout, laid: seq<byte>, img: seq<byte>, padding: nat -> seq<byte>)
    requires g.firstCrcPos * SECTOR_SIZE <= |laid| && g.firstCrcPos * SECTOR_SIZE <= |img|
    requires img[..g.firstCrcPos * SECTOR_SIZE] == laid[..g.firstCrcPos * SECTOR_SIZE]
    requires PaddedTo(g, laid, padding, g.firstCrcPos)
    ensures PaddedTo(g, img, padding, g.firstCrcPos)
  {
    var edge := g.firstCrcPos * SECTOR_SIZE;
    forall sec | g.dataSectors + 2 <= sec < g.firstCrcPos
      ensures SectorBytes(img, sec) == padding(sec)
    {
      assert SectorBytes(laid, sec) == padding(sec);
      SliceOfPrefix(img, img[..edge], edge, sec * SECTOR_SIZE, (sec + 1) * SECTOR_SIZE);
      SliceOfPrefix(laid, img[..edge], edge, sec * SECTOR_SIZE, (sec + 1) * SECTOR_SIZE);
    }
  }

  lemma CheckedUndamaged(g: Layout, img0: seq<byte>, img: seq<byte>, laid: seq<byte>, sec: nat)
    requires Consistent(g) && sec < g.firstCrcPos && |img| == |img0| == |laid| == g.totalSectors * SECTOR_SIZE
    requires CheckedAt(g, img0, laid, sec)
    requires g.firstCrcPos * SECTOR_SIZE <= |img|
    requires img[..g.firstCrcPos * SECTOR_SIZE] == laid[..g.firstCrcPos * SECTOR_SIZE]
    requires g.firstEccPos * SECTOR_SIZE <= |img|
    requires img[..g.firstEccPos * SECTOR_SIZE] == img0[..g.firstEccPos * SECTOR_SIZE]
    ensures !Damaged(g, img, sec)
  {
    hide Crc;
    hide Slot;
    hide WordBytes;
    hide Load;
    SectorJoin(g, sec);
    var slot := Slot(g, LayerOfSector(g, sec), PosOfSector(g, sec));
    SlotInCrcLayer(g, LayerOfSector(g, sec), PosOfSector(g, sec));
    SectorOfPrefix(img, laid, g.firstCrcPos * SECTOR_SIZE, sec);
    WordOfPrefix(img, img0, g.firstEccPos * SECTOR_SIZE, slot);
    CrcWord(SectorBytes(laid, sec));
    LoadBytes(img, slot, Crc(SectorBytes(laid, sec)));
  }

  lemma WordOfPrefix(img: seq<byte>, img0: seq<byte>, top: nat, slot: nat)
    requires top <= |img| && top <= |img0| && img[..top] == img0[..top] && slot + 4 <= top
    ensures img[slot..slot + 4] == img0[slot..slot + 4]
  {
    assert img[slot..slot + 4] == img[..top][slot..slot + 4];
    assert img0[slot..slot + 4] == img0[..top][slot..slot + 4];
  }

  lemma CrcWord(data: seq<byte>)
    ensures Crc(data) < 0x1_0000_0000
  {
    Pow2Words();
    CrcBound(0xffffffff, data);
  }

  // ----- round trips

  /** The data has no sector that looks like a header. */
  ghost predicate NoOwnHeader(img: seq<byte>, n: nat)
  {
    forall s: nat :: s < n ==> !HeaderAt(img, s)
  }

  /** The data filled up with zeros to whole sectors, as it is laid down. */
  function WholeSectors(data: seq<byte>): (r: seq<byte>)
    ensures |r| == (|data| + 2047) / 2048 * SECTOR_SIZE
  {
    data + Zeros((|data| + 2047) / 2048 * SECTOR_SIZE - |data|)
  }

  /** The headers among an image's data sectors are those of the data itself. */
  lemma DataHeaders(g: Layout, img: seq<byte>, data: seq<byte>, header: seq<byte>)
    requires Front(g, img, data, header) && g.dataSectors == (|data| + 2047) / 2048
    ensures NoOwnHeader(img, g.dataSectors) <==> NoOwnHeader(WholeSectors(data), g.dataSectors)
  {
    var n, w := g.dataSectors * SECTOR_SIZE, WholeSectors(data);
    assert img[..n] == w;
    forall s: nat | s < g.dataSectors
      ensures HeaderAt(img, s) <==> HeaderAt(w, s)
    {
      var o := s * SECTOR_SIZE;
      MulMono(s + 1, g.dataSectors, SECTOR_SIZE);
      SliceOfPrefix(img, w, n, o, o + 12);
      SliceOfPrefix(img, w, n, o + 12, o + 16);
    }
  }

  lemma SliceOfPrefix(img: seq<byte>, w: seq<byte>, n: nat, a: nat, b: nat)
    requires n <= |img| && img[..n] == w && a <= b <= n
    ensures img[a..b] == w[a..b]
  {
    forall i | a <= i < b
      ensures img[i] == w[i]
    {
      assert img[..n][i] == img[i];
    }
  }

  /** A finished image parses back to its layout exactly when no sector of the data looks like a header. */
  lemma ParseRoundTrip(img: seq<byte>, data: seq<byte>, inLast: nat, r: Option<Layout>)
    requires var layout := CalcLayout((|data| + 2047) / 2048);
      layout.Some? && Finished(layout.value, img, data, inLast)
    requires forall s: nat :: FirstHeaderAt(img, s) ==> r == ParseAt(img, s)
    ensures var n := (|data| + 2047) / 2048;
      r == CalcLayout(n) <==> NoOwnHeader(WholeSectors(data), n)
  {
    hide CalcLayout;
    hide Augmented;
    hide Header;
    hide HeaderAt;
    hide ParseAt;
    var dataSectors := (|data| + 2047) / 2048;
    CalcLayoutSound(dataSectors);
    var g := CalcLayout(dataSectors).value;
    HeaderParses(g, inLast, img);
    DataHeaders(g, img, data, Header(g, inLast));
    if !NoOwnHeader(img, dataSectors) {
      var s := FirstHeader(img, dataSectors);
      ParsedConsistent(img, s);
    }
  }

  /** A sector of data that begins like a header, and the image augmented from it does not parse back. */
  lemma OwnHeaderBreaks(img: seq<byte>, inLast: nat, r: Option<Layout>)
    requires var layout := CalcLayout(1); layout.Some? && Finished(layout.value, img, HeaderLike(), inLast)
    requires forall s: nat :: FirstHeaderAt(img, s) ==> r == ParseAt(img, s)
    ensures r != CalcLayout(1)
  {
    hide CalcLayout;
    hide Finished;
    hide ParseAt;
    var data := HeaderLike();
    var w := WholeSectors(data);
    assert w == data;
    assert w[0..12] == COOKIE && w[12..16] == METHOD;
    assert HeaderAt(w, 0);
    ParseRoundTrip(img, data, inLast, r);
  }

  function HeaderLike(): (data: seq<byte>)
    ensures |data| == SECTOR_SIZE
  {
    COOKIE + METHOD + Zeros(2032)
  }

  lemma {:induction false} FirstHeader(img: seq<byte>, n: nat) returns (s: nat)
    requires !NoOwnHeader(img, n)
    ensures s < n && HeaderAt(img, s) && NoOwnHeader(img, s)
  {
    hide HeaderAt;
    s := 0;
    while !HeaderAt(img, s)
      invariant s <= n && NoOwnHeader(img, s)
      decreases n - s
    {
      s := s + 1;
    }
  }

  /** A finished image verifies clean. */
  lemma VerifyRoundTrip(g: Layout, img: seq<byte>, data: seq<byte>, inLast: nat, bad: seq<bool>)
    requires Finished(g, img, data, inLast) && |bad| == g.totalSectors
    requires forall sec :: 0 <= sec < g.totalSectors ==> (bad[sec] <==> sec < g.firstCrcPos && Damaged(g, img, sec))
    ensures CountTrue(bad) == 0
  {
    hide Augmented;
    hide Damaged;
    hide Front;
    CountNone(bad);
  }
}
