/** Verification followed by repair: the flags the checksums raise are the erasures the code fills in. */
module Rs03Repair {
  import opened Bits
  import opened LittleEndian
  import opened GfTables
  import opened Crc32
  import opened Rs03Layout
  import opened Rs03Fix
  import opened Rs03Image
  import opened Rs03Augment

  lemma SectorFits(g: Layout, sec: nat, img: seq<byte>)
    requires sec < g.totalSectors && |img| == g.totalSectors * SECTOR_SIZE
    ensures (sec + 1) * SECTOR_SIZE <= |img|
  {
    MulMono(sec + 1, g.totalSectors, SECTOR_SIZE);
  }

  ghost predicate SectorDiffers(g: Layout, orig: seq<byte>, img: seq<byte>, sec: nat)
    requires sec < g.totalSectors && |img| == |orig| == g.totalSectors * SECTOR_SIZE
  {
    SectorFits(g, sec, img);
    SectorBytes(img, sec) != SectorBytes(orig, sec)
  }

  /** The sectors of `img` that differ from `orig`. */
  ghost function Differing(g: Layout, orig: seq<byte>, img: seq<byte>): (bad: seq<bool>)
    requires |img| == |orig| == g.totalSectors * SECTOR_SIZE
    ensures |bad| == g.totalSectors
    ensures forall sec :: 0 <= sec < g.totalSectors ==> (bad[sec] <==> SectorDiffers(g, orig, img, sec))
  {
    seq(g.totalSectors, sec requires 0 <= sec < g.totalSectors => SectorDiffers(g, orig, img, sec))
  }

  /** Damage in data layers only, each damaged sector with another checksum than before. */
  ghost predicate Detectable(g: Layout, orig: seq<byte>, img: seq<byte>)
    requires Consistent(g)
  {
    && |img| == |orig| == g.totalSectors * SECTOR_SIZE
    && forall sec :: 0 <= sec < g.totalSectors && SectorDiffers(g, orig, img, sec) ==>
      sec < g.firstCrcPos && (SectorFits(g, sec, img); Crc(SectorBytes(img, sec)) != Crc(SectorBytes(orig, sec)))
  }

  /** At most `nroots` layers of any position are damaged. */
  ghost predicate NotOverloaded(g: Layout, orig: seq<byte>, img: seq<byte>)
    requires Consistent(g)
  {
    && |img| == |orig| == g.totalSectors * SECTOR_SIZE
    && forall pos :: 0 <= pos < g.sectorsPerLayer ==> |Flagged(g, Differing(g, orig, img), pos)| <= g.nroots
  }

  lemma SameSectorByte(g: Layout, orig: seq<byte>, img: seq<byte>, i: nat)
    requires |img| == |orig| == g.totalSectors * SECTOR_SIZE && i < |img|
    requires !SectorDiffers(g, orig, img, i / SECTOR_SIZE)
    ensures img[i] == orig[i]
  {
    var sec, b := i / SECTOR_SIZE, i % SECTOR_SIZE;
    SectorFits(g, sec, img);
    assert SectorBytes(img, sec)[b] == img[i] && SectorBytes(orig, sec)[b] == orig[i];
  }

  /** A stored checksum lies in the CRC layer, so it is the original one. */
  lemma StoredKept(g: Layout, orig: seq<byte>, img: seq<byte>, sec: nat)
    requires Consistent(g) && Detectable(g, orig, img) && sec < g.firstCrcPos
    ensures var slot := Slot(g, LayerOfSector(g, sec), PosOfSector(g, sec));
      slot + 4 <= |img| && Load(img, slot) == Load(orig, slot)
  {
    hide Crc;
    hide SectorDiffers;
    hide Slot;
    SectorJoin(g, sec);
    var slot := Slot(g, LayerOfSector(g, sec), PosOfSector(g, sec));
    SlotInCrcLayer(g, LayerOfSector(g, sec), PosOfSector(g, sec));
    LayersFit(g);
    MulMono(g.firstEccPos, g.totalSectors, SECTOR_SIZE);
    forall i | slot <= i < slot + 4
      ensures img[i] == orig[i]
    {
      assert g.firstCrcPos <= i / SECTOR_SIZE < g.totalSectors;
      SameSectorByte(g, orig, img, i);
    }
    assert img[slot..slot + 4] == orig[slot..slot + 4];
  }

  /** The sectors verification flags are exactly the damaged ones. */
  lemma FlagsAreDamage(g: Layout, orig: seq<byte>, img: seq<byte>, bad: seq<bool>)
    requires Consistent(g) && Detectable(g, orig, img) && |bad| == g.totalSectors
    requires forall sec :: 0 <= sec < g.firstCrcPos ==> !Damaged(g, orig, sec)
    requires forall sec :: 0 <= sec < g.totalSectors ==> (bad[sec] <==> sec < g.firstCrcPos && Damaged(g, img, sec))
    ensures bad == Differing(g, orig, img)
  {
    hide Crc;
    hide Slot;
    hide Load;
    hide SectorBytes;
    forall sec | 0 <= sec < g.totalSectors
      ensures bad[sec] == Differing(g, orig, img)[sec]
    {
      SectorFits(g, sec, img);
      if sec < g.firstCrcPos {
        StoredKept(g, orig, img, sec);
        assert !Damaged(g, orig, sec);
      }
    }
  }

  lemma DamageFlagged(g: Layout, orig: seq<byte>, img: seq<byte>)
    requires Consistent(g) && Detectable(g, orig, img)
    requires NotOverloaded(g, orig, img)
    ensures FlaggedDamage(g, Differing(g, orig, img), img, orig)
  {
    hide SectorDiffers;
    hide Detectable;
    hide Flagged;
    assert |img| == |orig| == g.totalSectors * SECTOR_SIZE by {
      DetectableSize(g, orig, img);
    }
    forall i | 0 <= i < |orig| && (i / SECTOR_SIZE < g.totalSectors ==> !Differing(g, orig, img)[i / SECTOR_SIZE])
      ensures img[i] == orig[i]
    {
      SameSectorByte(g, orig, img, i);
    }
  }

  lemma DetectableSize(g: Layout, orig: seq<byte>, img: seq<byte>)
    requires Consistent(g) && Detectable(g, orig, img)
    ensures |img| == |orig| == g.totalSectors * SECTOR_SIZE
  {
  }

  /** Every damaged data sector is flagged, and every position is within reach of the code. Damage may
      also lie in the checksum and parity layers. */
  ghost predicate DataReachable(g: Layout, bad: seq<bool>, img: seq<byte>, orig: seq<byte>)
    requires Consistent(g) && |bad| == g.totalSectors
  {
    && |img| == |orig| == g.totalSectors * SECTOR_SIZE
    && (forall sec :: 0 <= sec < g.firstCrcPos && sec < g.totalSectors && SectorDiffers(g, orig, img, sec) ==> bad[sec])
    && forall pos :: 0 <= pos < g.sectorsPerLayer ==> Repairable(g, bad, img, orig, pos)
  }

  /** Then all data sectors come back, whatever happens to the other layers. */
  lemma DataRestored(g: Layout, bad: seq<bool>, img0: seq<byte>, img: seq<byte>, orig: seq<byte>)
    requires Augmented(g, orig) && |bad| == g.totalSectors && DataReachable(g, bad, img0, orig)
    requires KeepsUnflagged(g, bad, img0, img) && ImageFor(g, img)
    requires AllRestored(g, bad, img0, img, orig, g.sectorsPerLayer)
    ensures g.firstCrcPos * SECTOR_SIZE <= |img|
    ensures img[..g.firstCrcPos * SECTOR_SIZE] == orig[..g.firstCrcPos * SECTOR_SIZE]
  {
    hide Repairable;
    hide SectorDiffers;
    hide FlaggedTo;
    hide SectorIndex;
    LayersFit(g);
    MulMono(g.firstCrcPos, g.totalSectors, SECTOR_SIZE);
    forall i | 0 <= i < g.firstCrcPos * SECTOR_SIZE
      ensures img[i] == orig[i]
    {
      var sec, b := i / SECTOR_SIZE, i % SECTOR_SIZE;
      if bad[sec] {
        FlaggedByteRestored(g, bad, img, orig, sec, b);
      } else {
        SameSectorByte(g, orig, img0, i);
      }
    }
  }

  lemma FlaggedByteRestored(g: Layout, bad: seq<bool>, img: seq<byte>, orig: seq<byte>, sec: nat, b: nat)
    requires ImageFor(g, img) && ImageFor(g, orig) && |bad| == g.totalSectors
    requires sec < g.totalSectors && b < SECTOR_SIZE && bad[sec]
    requires forall pos :: 0 <= pos < g.sectorsPerLayer ==> PositionRestored(g, bad, img, orig, pos)
    ensures sec * SECTOR_SIZE + b < |img| && sec * SECTOR_SIZE + b < |orig|
    ensures img[sec * SECTOR_SIZE + b] == orig[sec * SECTOR_SIZE + b]
  {
    hide FlaggedTo;
    hide SectorIndex;
    var layer, pos := SectorIndexOnto(g, sec);
    FlaggedIff(g, bad, pos, 255, layer);
    AddrBound(g, layer, pos, b);
    var k :| 0 <= k < |Flagged(g, bad, pos)| && Flagged(g, bad, pos)[k] == layer;
    assert PositionRestored(g, bad, img, orig, pos);
    assert Restored(g, bad, img, orig, pos, b);
    assert SameCell(g, img, orig, Flagged(g, bad, pos)[k], pos, b);
  }

  /** Verifies and repairs in place.  The data comes back whenever its damage is flagged and every position
      is within reach; if only data sectors are damaged, each with another checksum and in at most
      `nroots` layers per position, the whole image is undone byte for byte with result 0. */
  method VerifyAndFix(t: Tables, table: seq<nat>, g: Layout, img: array<byte>,
                      ghost orig: seq<byte>, ghost data: seq<byte>, ghost inLast: nat)
    returns (rc: int, ghost bad: seq<bool>)
    requires IsTables(t) && |table| == 256 && (forall n :: 0 <= n < 256 ==> table[n] == Steps(n, 8)) && Consistent(g)
    modifies img
    ensures |bad| == g.totalSectors && forall sec :: 0 <= sec < g.totalSectors ==>
      (bad[sec] <==> sec < g.firstCrcPos && Damaged(g, old(img[..]), sec))
    ensures |img[..]| == |old(img[..])|
    ensures Augmented(g, orig) && DataReachable(g, bad, old(img[..]), orig) ==>
      && g.firstCrcPos * SECTOR_SIZE <= |orig| == |img[..]|
      && img[..g.firstCrcPos * SECTOR_SIZE] == orig[..g.firstCrcPos * SECTOR_SIZE]
    ensures Finished(g, orig, data, inLast) && Detectable(g, orig, old(img[..])) ==>
      NotOverloaded(g, orig, old(img[..])) ==>
      rc == 0 && img[..] == orig
  {
    hide IsTables;
    hide Steps;
    hide Augmented;
    hide Damaged;
    hide Detectable;
    hide DataReachable;
    hide Flagged;
    hide FlaggedDamage;
    hide KeepsUnflagged;
    hide AllRestored;
    hide Decided;
    hide Outcome;
    hide Front;
    hide Differing;
    ghost var img0 := img[..];
    var flags, n := Verify(table, g, img[..]);
    bad := flags;
    rc := Fix(t, g, img, flags, orig);
    KeptLength(g, bad, img0, img[..]);
    if Augmented(g, orig) && DataReachable(g, bad, img0, orig) {
      ReachableSize(g, bad, img0, orig);
      DataRestored(g, bad, img0, img[..], orig);
    }
    if Finished(g, orig, data, inLast) && Detectable(g, orig, img0) && NotOverloaded(g, orig, img0) {
      DetectableSize(g, orig, img0);
      FlagsAreDamage(g, orig, img0, bad);
      DamageFlagged(g, orig, img0);
      FixRestoresImage(g, bad, img0, img[..], orig);
    }
  }

  lemma KeptLength(g: Layout, bad: seq<bool>, before: seq<byte>, after: seq<byte>)
    requires Consistent(g) && |bad| == g.totalSectors && KeepsUnflagged(g, bad, before, after)
    ensures |before| == |after|
  {
  }

  lemma ReachableSize(g: Layout, bad: seq<bool>, img: seq<byte>, orig: seq<byte>)
    requires Consistent(g) && |bad| == g.totalSectors && DataReachable(g, bad, img, orig)
    ensures |img| == |orig| == g.totalSectors * SECTOR_SIZE
  {
  }
}
