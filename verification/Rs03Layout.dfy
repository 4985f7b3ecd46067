/** Geometry of an RS03 image: 255 layers of equally many sectors, interleaved so that sector
    `pos` of every layer forms one family of codewords. */
module Rs03Layout {
  import opened Bits

  const SECTOR_SIZE: nat := 2048

  datatype Layout = Layout(
    dataSectors: nat,
    ndata: nat,
    nroots: nat,
    sectorsPerLayer: nat,
    totalSectors: nat,
    eccHeaderPos: nat,
    firstCrcPos: nat,
    firstEccPos: nat)

  /** The first sector of the checksum layer. */
  function CrcStart(ndata: nat, spl: nat): nat
    requires ndata > 0
  {
    (ndata - 1) * spl
  }

  /** The derived fields follow from the header fields, and the counts are sane. */
  ghost predicate Consistent(g: Layout)
  {
    && 0 < g.ndata && 0 < g.nroots && g.ndata + g.nroots == 255
    && 0 < g.sectorsPerLayer
    && g.totalSectors == 255 * g.sectorsPerLayer
    && g.eccHeaderPos == g.dataSectors
    && g.firstCrcPos == (g.ndata - 1) * g.sectorsPerLayer
    && g.firstEccPos == g.firstCrcPos + g.sectorsPerLayer
    && g.dataSectors < g.firstCrcPos
  }

  function SectorIndex(g: Layout, layer: nat, pos: nat): nat
    requires g.ndata > 0
  {
    if layer < g.ndata - 1 then layer * g.sectorsPerLayer + pos
    else if layer == g.ndata - 1 then g.firstCrcPos + pos
    else g.firstEccPos + (layer - g.ndata) * g.sectorsPerLayer + pos
  }

  /** The three regions are one contiguous grid of layers. */
  lemma SectorIndexLinear(g: Layout, layer: nat, pos: nat)
    requires Consistent(g)
    ensures SectorIndex(g, layer, pos) == layer * g.sectorsPerLayer + pos
  {
    var spl := g.sectorsPerLayer;
    if layer > g.ndata - 1 {
      assert (g.ndata - 1) * spl + spl + (layer - g.ndata) * spl == layer * spl;
    }
  }

  lemma SectorIndexBound(g: Layout, layer: nat, pos: nat)
    requires Consistent(g) && layer < 255 && pos < g.sectorsPerLayer
    ensures SectorIndex(g, layer, pos) < g.totalSectors
  {
    SectorIndexLinear(g, layer, pos);
    var spl := g.sectorsPerLayer;
    assert layer * spl <= 254 * spl;
  }

  lemma SectorIndexInjective(g: Layout, layer: nat, pos: nat, layer': nat, pos': nat)
    requires Consistent(g) && pos < g.sectorsPerLayer && pos' < g.sectorsPerLayer
    requires SectorIndex(g, layer, pos) == SectorIndex(g, layer', pos')
    ensures layer == layer' && pos == pos'
  {
    SectorIndexLinear(g, layer, pos);
    SectorIndexLinear(g, layer', pos');
    QuotientUnique(SectorIndex(g, layer, pos), g.sectorsPerLayer, layer, pos);
    QuotientUnique(SectorIndex(g, layer, pos), g.sectorsPerLayer, layer', pos');
  }

  /** Every sector of the image belongs to exactly one layer and position. */
  lemma SectorIndexOnto(g: Layout, sec: nat) returns (layer: nat, pos: nat)
    requires Consistent(g) && sec < g.totalSectors
    ensures layer < 255 && pos < g.sectorsPerLayer && SectorIndex(g, layer, pos) == sec
  {
    var spl := g.sectorsPerLayer;
    layer, pos := sec / spl, sec % spl;
    assert sec == layer * spl + pos;
    if layer >= 255 {
      MulMono(255, layer, spl);
      assert false;
    }
    hide SectorIndex;
    SectorIndexLinear(g, layer, pos);
  }

  /** The byte address of offset `b` in the sector of `layer` at `pos`. */
  function Addr(g: Layout, layer: nat, pos: nat, b: nat): nat
    requires g.ndata > 0
  {
    SectorIndex(g, layer, pos) * SECTOR_SIZE + b
  }

  lemma AddrBound(g: Layout, layer: nat, pos: nat, b: nat)
    requires Consistent(g) && layer < 255 && pos < g.sectorsPerLayer && b < SECTOR_SIZE
    ensures Addr(g, layer, pos, b) < g.totalSectors * SECTOR_SIZE
    ensures Addr(g, layer, pos, b) / SECTOR_SIZE == SectorIndex(g, layer, pos)
  {
    SectorIndexBound(g, layer, pos);
  }

  lemma AddrInjective(g: Layout, layer: nat, pos: nat, b: nat, layer': nat, pos': nat, b': nat)
    requires Consistent(g) && pos < g.sectorsPerLayer && pos' < g.sectorsPerLayer && b < SECTOR_SIZE && b' < SECTOR_SIZE
    requires Addr(g, layer, pos, b) == Addr(g, layer', pos', b')
    ensures layer == layer' && pos == pos' && b == b'
  {
    SectorIndexInjective(g, layer, pos, layer', pos');
  }
}
