/** Parsing, verifying and augmenting RS03 images. */
module Rs03Image {
  import opened Options
  import opened Bits
  import opened LittleEndian
  import opened Gf256
  import opened GfTables
  import opened Poly
  import opened Sums
  import opened RsCode
  import opened RsCorrect
  import opened Crc32
  import opened Rs03Layout
  import opened Rs03Medium
  import opened Rs03Fix

  /** A 32-bit word read into a signed int. */
  function AsSigned(v: nat): int
  {
    if v < 0x8000_0000 then v else v - 0x1_0000_0000
  }

  // ----- the ECC header

  const COOKIE: seq<byte> := [42, 100, 118, 100, 105, 115, 97, 115, 116, 101, 114, 42]
  const METHOD: seq<byte> := [82, 83, 48, 51]
  const OFF_SECTORS: nat := 68
  const OFF_DATABYTES: nat := 76
  const OFF_ECCBYTES: nat := 80
  const OFF_SECTORSPERLAYER: nat := 120

  predicate HeaderAt(img: seq<byte>, sec: nat)
  {
    && (sec + 1) * SECTOR_SIZE <= |img|
    && img[sec * SECTOR_SIZE..sec * SECTOR_SIZE + 12] == COOKIE
    && img[sec * SECTOR_SIZE + 12..sec * SECTOR_SIZE + 16] == METHOD
  }

  /** The geometry four header fields declare, if it is sane. */
  function FromHeader(dataSectors: nat, ndata: int, nroots: int, spl: nat): Option<Layout>
  {
    if ndata <= 0 || ndata >= 255 || nroots <= 0 || nroots >= 255 || ndata + nroots != 255
       || spl == 0 || spl > 0x7fffffff then None
    else
      var firstCrcPos := CrcStart(ndata, spl);
      if dataSectors >= firstCrcPos then None else
        Some(Layout(dataSectors, ndata, nroots, spl, 255 * spl, dataSectors, firstCrcPos, firstCrcPos + spl))
  }

  /** A header sector is believed only if it declares its own position. */
  /** The header that parsing goes by. */
  ghost predicate FirstHeaderAt(img: seq<byte>, sec: nat)
  {
    HeaderAt(img, sec) && forall s: nat :: s < sec ==> !HeaderAt(img, s)
  }

  function ParseAt(img: seq<byte>, sec: nat): Option<Layout>
    requires (sec + 1) * SECTOR_SIZE <= |img|
  {
    var off := sec * SECTOR_SIZE;
    var dataSectors := Load(img, off + OFF_SECTORS);
    if dataSectors != sec then None else
      FromHeader(dataSectors, AsSigned(Load(img, off + OFF_DATABYTES)), AsSigned(Load(img, off + OFF_ECCBYTES)),
                 Load(img, off + OFF_SECTORSPERLAYER))
  }

  lemma ParsedConsistent(img: seq<byte>, sec: nat)
    requires (sec + 1) * SECTOR_SIZE <= |img|
    ensures var r := ParseAt(img, sec); r.Some? ==> Consistent(r.value) && r.value.dataSectors == sec
  {
    hide Load;
  }

  /** Scans for the first header sector and reads it. */
  method Parse(img: seq<byte>) returns (r: Option<Layout>)
    ensures (forall s: nat :: !HeaderAt(img, s)) ==> r == None
    ensures forall s: nat :: FirstHeaderAt(img, s) ==> r == ParseAt(img, s)
    ensures r.Some? ==> Consistent(r.value) && HeaderAt(img, r.value.dataSectors)
  {
    hide ParseAt;
    if |img| < SECTOR_SIZE {
      return None;
    }
    var off, sec := 0, 0;
    while off + SECTOR_SIZE <= |img|
      invariant off == sec * SECTOR_SIZE
      invariant forall s: nat :: s < sec ==> !HeaderAt(img, s)
    {
      if img[off..off + 12] == COOKIE && img[off + 12..off + 16] == METHOD {
        assert HeaderAt(img, sec);
        ParsedConsistent(img, sec);
        return ParseAt(img, sec);
      }
      off, sec := off + SECTOR_SIZE, sec + 1;
    }
    return None;
  }

  // ----- verification

  /** Where the checksum of data sector (layer, pos) is kept: one position back in the CRC layer. */
  function Slot(g: Layout, layer: nat, pos: nat): nat
    requires g.sectorsPerLayer > 0
  {
    (g.firstCrcPos + (pos + g.sectorsPerLayer - 1) % g.sectorsPerLayer) * SECTOR_SIZE + layer * 4
  }

  lemma ChainBack(spl: nat, pos: nat)
    requires pos < spl
    ensures (pos + spl - 1) % spl == if pos == 0 then spl - 1 else pos - 1
  {
    if pos == 0 {
      QuotientUnique(spl - 1, spl, 0, spl - 1);
    } else {
      QuotientUnique(pos + spl - 1, spl, 1, pos - 1);
    }
  }

  /** Checksum slots never overlap. */
  lemma SlotsDisjoint(g: Layout, layer: nat, pos: nat, layer': nat, pos': nat)
    requires Consistent(g) && layer < g.ndata - 1 && layer' < g.ndata - 1
    requires pos < g.sectorsPerLayer && pos' < g.sectorsPerLayer && (layer, pos) != (layer', pos')
    ensures Slot(g, layer, pos) + 4 <= Slot(g, layer', pos') || Slot(g, layer', pos') + 4 <= Slot(g, layer, pos)
  {
    hide Consistent;
    ConsistentBounds(g);
    var spl := g.sectorsPerLayer;
    ChainBack(spl, pos);
    ChainBack(spl, pos');
  }

  /** The checksum of a data sector is one word per layer in the sector of the checksum layer one position back,
      so with more than one position it is part of another codeword than the sector itself. */
  lemma ChecksumElsewhere(g: Layout, layer: nat, pos: nat)
    requires Consistent(g) && layer < g.ndata - 1 && pos < g.sectorsPerLayer
    ensures var back := if pos == 0 then g.sectorsPerLayer - 1 else pos - 1;
      && Slot(g, layer, pos) == SectorIndex(g, g.ndata - 1, back) * SECTOR_SIZE + 4 * layer
      && 4 * layer + 4 <= SECTOR_SIZE
      && (g.sectorsPerLayer > 1 ==> back != pos)
  {
    ChainBack(g.sectorsPerLayer, pos);
    SectorIndexLinear(g, g.ndata - 1, if pos == 0 then g.sectorsPerLayer - 1 else pos - 1);
  }

  lemma LayersFit(g: Layout)
    requires Consistent(g)
    ensures g.firstEccPos == g.ndata * g.sectorsPerLayer <= g.totalSectors
  {
    MulNext(g.ndata - 1, g.sectorsPerLayer);
    MulMono(g.ndata, 255, g.sectorsPerLayer);
  }

  lemma SlotInCrcLayer(g: Layout, layer: nat, pos: nat)
    requires Consistent(g) && layer < g.ndata - 1 && pos < g.sectorsPerLayer
    ensures g.firstCrcPos * SECTOR_SIZE <= Slot(g, layer, pos) && Slot(g, layer, pos) + 4 <= g.firstEccPos * SECTOR_SIZE
  {
    hide Consistent;
    ConsistentBounds(g);
    ChainBack(g.sectorsPerLayer, pos);
  }

  lemma ConsistentBounds(g: Layout)
    requires Consistent(g)
    ensures 0 < g.ndata < 255 && 0 < g.sectorsPerLayer && g.firstEccPos == g.firstCrcPos + g.sectorsPerLayer
  {
  }

  function SectorBytes(img: seq<byte>, sec: nat): seq<byte>
    requires (sec + 1) * SECTOR_SIZE <= |img|
  {
    img[sec * SECTOR_SIZE..(sec + 1) * SECTOR_SIZE]
  }

  /** The layer and position of a sector. */
  function LayerOfSector(g: Layout, sec: nat): nat
    requires g.sectorsPerLayer > 0
  {
    sec / g.sectorsPerLayer
  }

  function PosOfSector(g: Layout, sec: nat): nat
    requires g.sectorsPerLayer > 0
  {
    sec % g.sectorsPerLayer
  }

  lemma SectorSplit(g: Layout, layer: nat, pos: nat)
    requires Consistent(g) && pos < g.sectorsPerLayer
    ensures var sec := SectorIndex(g, layer, pos); LayerOfSector(g, sec) == layer && PosOfSector(g, sec) == pos
  {
    SectorIndexLinear(g, layer, pos);
    QuotientUnique(SectorIndex(g, layer, pos), g.sectorsPerLayer, layer, pos);
  }

  lemma SectorJoin(g: Layout, sec: nat)
    requires Consistent(g) && sec < g.firstCrcPos
    ensures LayerOfSector(g, sec) < g.ndata - 1 && PosOfSector(g, sec) < g.sectorsPerLayer
    ensures SectorIndex(g, LayerOfSector(g, sec), PosOfSector(g, sec)) == sec
  {
    var l, p := LayerOfSector(g, sec), PosOfSector(g, sec);
    assert sec == l * g.sectorsPerLayer + p;
    if l >= g.ndata - 1 {
      MulMono(g.ndata - 1, l, g.sectorsPerLayer);
      assert false;
    }
    SectorIndexLinear(g, l, p);
  }

  /** A data sector is damaged if it or its checksum lies beyond the image, or they disagree. */
  ghost predicate Damaged(g: Layout, img: seq<byte>, sec: nat)
    requires g.sectorsPerLayer > 0
  {
    var slot := Slot(g, LayerOfSector(g, sec), PosOfSector(g, sec));
    || (sec + 1) * SECTOR_SIZE > |img|
    || slot + 4 > |img|
    || Load(img, slot) != Crc(SectorBytes(img, sec))
  }

  function CountTrue(s: seq<bool>): nat
  {
    if |s| == 0 then 0 else CountTrue(s[..|s| - 1]) + if s[|s| - 1] then 1 else 0
  }

  method SectorDamaged(table: seq<nat>, g: Layout, img: seq<byte>, layer: nat, pos: nat) returns (damaged: bool)
    requires |table| == 256 && forall n :: 0 <= n < 256 ==> table[n] == Steps(n, 8)
    requires Consistent(g) && pos < g.sectorsPerLayer
    ensures damaged <==> Damaged(g, img, SectorIndex(g, layer, pos))
  {
    hide Crc;
    hide Steps;
    hide Load;
    hide Slot;
    hide SectorBytes;
    SectorSplit(g, layer, pos);
    var sec := SectorIndex(g, layer, pos);
    if (sec + 1) * SECTOR_SIZE > |img| {
      return true;
    }
    if Slot(g, layer, pos) + 4 > |img| {
      return true;
    }
    var stored := Load(img, Slot(g, layer, pos));
    var actual := Checksum(table, SectorBytes(img, sec));
    return stored != actual;
  }

  /** Checks every data-layer sector against its stored checksum. */
  method Verify(table: seq<nat>, g: Layout, img: seq<byte>) returns (bad: seq<bool>, ndamaged: nat)
    requires |table| == 256 && forall n :: 0 <= n < 256 ==> table[n] == Steps(n, 8)
    requires Consistent(g)
    ensures |bad| == g.totalSectors && ndamaged == CountTrue(bad)
    ensures forall sec :: 0 <= sec < g.totalSectors ==> (bad[sec] <==> sec < g.firstCrcPos && Damaged(g, img, sec))
  {
    hide Damaged;
    hide Steps;
    hide SectorIndex;
    bad := seq(g.totalSectors, _ => false);
    ndamaged := 0;
    var spl := g.sectorsPerLayer;
    CountNone(bad);
    LayersFit(g);
    ghost var n := 0;
    for layer := 0 to g.ndata - 1
      invariant |bad| == g.totalSectors && ndamaged == CountTrue(bad)
      invariant n == layer * spl
      invariant forall sec :: 0 <= sec < g.totalSectors ==> (bad[sec] <==> sec < n && Damaged(g, img, sec))
    {
      NextLayer(g, layer);
      for pos := 0 to spl
        invariant |bad| == g.totalSectors && ndamaged == CountTrue(bad)
        invariant n == layer * spl + pos
        invariant forall sec :: 0 <= sec < g.totalSectors ==> (bad[sec] <==> sec < n && Damaged(g, img, sec))
      {
        SectorIndexLinear(g, layer, pos);
        var sec := SectorIndex(g, layer, pos);
        var damaged := SectorDamaged(table, g, img, layer, pos);
        if damaged {
          CountSet(bad, sec);
          bad := bad[sec := true];
          ndamaged := ndamaged + 1;
        }
        n := n + 1;
      }
    }
  }

  lemma NextLayer(g: Layout, layer: nat)
    requires Consistent(g) && layer < g.ndata - 1
    ensures layer * g.sectorsPerLayer + g.sectorsPerLayer == (layer + 1) * g.sectorsPerLayer <= g.firstCrcPos
  {
    MulNext(layer, g.sectorsPerLayer);
    MulMono(layer + 1, g.ndata - 1, g.sectorsPerLayer);
  }

  lemma {:induction false} CountNone(s: seq<bool>)
    requires forall i :: 0 <= i < |s| ==> !s[i]
    ensures CountTrue(s) == 0
  {
    if |s| > 0 { CountNone(s[..|s| - 1]); }
  }

  lemma {:induction false} CountSet(s: seq<bool>, k: nat)
    requires k < |s| && !s[k]
    ensures CountTrue(s[k := true]) == CountTrue(s) + 1
  {
    var n := |s| - 1;
    if k < n {
      CountSet(s[..n], k);
      assert s[k := true][..n] == s[..n][k := true];
    } else {
      assert s[k := true][..n] == s[..n];
    }
  }
}
