/** Choosing the medium and the layer geometry for a plain image. */
module Rs03Medium {
  import opened Options
  import opened Bits
  import opened Rs03Layout

  const CDR_SIZE: nat := 351 * 1024
  const DVD_SL_SIZE: nat := 2295104
  const DVD_DL_SIZE: nat := 4171712
  const BD_SL_SIZE: nat := 11826176
  const BD_DL_SIZE: nat := 23652352
  const BDXL_TL_SIZE: nat := 47305728
  const BDXL_QL_SIZE: nat := 60403712

  /** Parity roots left if the image were padded to `capacity` sectors. */
  function GetRoots(dataSectors: nat, capacity: nat): int
  {
    var spl := capacity / 255;
    if spl == 0 then -1 else 255 - (dataSectors + 2 + spl - 1) / spl - 1
  }

  /** The smallest medium of the ladder leaving at least eight roots, or zero. */
  function Capacity(dataSectors: nat): nat
  {
    if GetRoots(dataSectors, CDR_SIZE) >= 8 then CDR_SIZE
    else if GetRoots(dataSectors, DVD_SL_SIZE) >= 8 then DVD_SL_SIZE
    else if GetRoots(dataSectors, DVD_DL_SIZE) >= 8 then DVD_DL_SIZE
    else if GetRoots(dataSectors, BD_SL_SIZE) >= 8 then BD_SL_SIZE
    else if GetRoots(dataSectors, BD_DL_SIZE) >= 8 then BD_DL_SIZE
    else if GetRoots(dataSectors, BDXL_TL_SIZE) >= 8 then BDXL_TL_SIZE
    else if GetRoots(dataSectors, BDXL_QL_SIZE) >= 8 then BDXL_QL_SIZE
    else 0
  }

  function CalcLayout(dataSectors: nat): Option<Layout>
  {
    if dataSectors == 0 || Capacity(dataSectors) == 0 then None else
      var spl := Capacity(dataSectors) / 255;
      var needed := (dataSectors + 2 + spl - 1) / spl;
      var ndata := (if needed < 84 then 84 else needed) + 1;
      var g := Layout(dataSectors, ndata, if ndata <= 255 then 255 - ndata else 0, spl, 255 * spl,
                      dataSectors, CrcStart(ndata, spl), CrcStart(ndata, spl) + spl);
      if 255 - ndata < 8 || dataSectors >= g.firstCrcPos then None else Some(g)
  }

  /** Rounding up: `needed` layers are just enough. */
  lemma CeilDiv(n: nat, spl: nat)
    requires spl > 0
    ensures forall k: nat :: (n + spl - 1) / spl <= k <==> n <= k * spl
  {
    var q, r := (n + spl - 1) / spl, (n + spl - 1) % spl;
    assert n + spl - 1 == q * spl + r;
    forall k: nat
      ensures q <= k <==> n <= k * spl
    {
      assert q <= k ==> q * spl <= k * spl;
      assert k < q ==> k * spl <= (q - 1) * spl;
    }
  }

  lemma RootsEnough(dataSectors: nat, capacity: nat)
    requires capacity >= 255
    ensures GetRoots(dataSectors, capacity) >= 8 <==> dataSectors + 2 <= 246 * (capacity / 255)
  {
    CeilDiv(dataSectors + 2, capacity / 255);
  }

  /** The ladder never falls through to the final sanity check, and the chosen layout has room for
      the two header sectors before the CRC layer and at least eight roots. */
  lemma CalcLayoutSound(dataSectors: nat)
    requires CalcLayout(dataSectors).Some?
    ensures var g := CalcLayout(dataSectors).value;
      && Consistent(g)
      && g.dataSectors == dataSectors
      && g.nroots >= 8 && g.ndata >= 85
      && dataSectors + 2 <= g.firstCrcPos
      && g.totalSectors <= Capacity(dataSectors)
      && g.totalSectors < 0x1_0000_0000
  {
    hide GetRoots;
    var spl := Capacity(dataSectors) / 255;
    CeilDiv(dataSectors + 2, spl);
    var needed := (dataSectors + 2 + spl - 1) / spl;
    var ndata := (if needed < 84 then 84 else needed) + 1;
    assert dataSectors + 2 <= (ndata - 1) * spl;
  }

  /** The layers are as long as the medium allows, and the data layers with the checksum layer are the fewest,
      from 85 on, that hold the data and both header sectors. */
  lemma FewestLayers(dataSectors: nat)
    requires CalcLayout(dataSectors).Some?
    ensures var g := CalcLayout(dataSectors).value;
      && g.totalSectors <= Capacity(dataSectors) < g.totalSectors + 255
      && g.ndata >= 85 && dataSectors + 2 <= CrcStart(g.ndata, g.sectorsPerLayer)
      && forall n: nat :: 85 <= n && dataSectors + 2 <= CrcStart(n, g.sectorsPerLayer) ==> g.ndata <= n
  {
    hide Capacity;
    var spl := Capacity(dataSectors) / 255;
    CalcLayoutSound(dataSectors);
    CeilDiv(dataSectors + 2, spl);
    var needed := (dataSectors + 2 + spl - 1) / spl;
    forall n: nat | 85 <= n && dataSectors + 2 <= CrcStart(n, spl)
      ensures CalcLayout(dataSectors).value.ndata <= n
    {
      assert needed <= n - 1;
    }
  }

  /** A layout exists exactly for non-empty images that leave eight roots on the largest medium. */
  lemma CalcLayoutExactly(dataSectors: nat)
    ensures CalcLayout(dataSectors).Some? <==> 0 < dataSectors && dataSectors + 2 <= 246 * 236877
  {
    RootsEnough(dataSectors, CDR_SIZE);
    RootsEnough(dataSectors, DVD_SL_SIZE);
    RootsEnough(dataSectors, DVD_DL_SIZE);
    RootsEnough(dataSectors, BD_SL_SIZE);
    RootsEnough(dataSectors, BD_DL_SIZE);
    RootsEnough(dataSectors, BDXL_TL_SIZE);
    RootsEnough(dataSectors, BDXL_QL_SIZE);
    hide GetRoots;
    if Capacity(dataSectors) != 0 {
      var spl := Capacity(dataSectors) / 255;
      CeilDiv(dataSectors + 2, spl);
      var needed := (dataSectors + 2 + spl - 1) / spl;
      assert needed <= 246;
      var ndata := (if needed < 84 then 84 else needed) + 1;
      assert dataSectors + 2 <= (ndata - 1) * spl;
    }
  }

  /** Every smaller medium of the ladder would leave fewer than eight roots. */
  lemma CapacitySmallest(dataSectors: nat, capacity: nat)
    requires capacity in [CDR_SIZE, DVD_SL_SIZE, DVD_DL_SIZE, BD_SL_SIZE, BD_DL_SIZE, BDXL_TL_SIZE, BDXL_QL_SIZE]
    requires GetRoots(dataSectors, capacity) >= 8
    ensures 0 < Capacity(dataSectors) <= capacity
  {
    hide GetRoots;
  }
}
