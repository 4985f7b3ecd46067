/** The augmented image of given data is unique: what the augment side promises leaves no byte open. */
module Rs03Unique {
  import opened Bits
  import opened LittleEndian
  import opened Gf256
  import opened Sums
  import opened RsCode
  import opened Crc32
  import opened Rs03Layout
  import opened Rs03Fix
  import opened Rs03Image
  import opened Rs03Augment

  lemma LoadInjective(s: seq<byte>, t: seq<byte>, off: nat)
    requires off + 4 <= |s| && off + 4 <= |t| && Load(s, off) == Load(t, off)
    ensures forall i :: off <= i < off + 4 ==> s[i] == t[i]
  {
    WordInjective(s[off], s[off + 1], s[off + 2], s[off + 3], t[off], t[off + 1], t[off + 2], t[off + 3]);
  }

  lemma WordInjective(a: byte, b: byte, c: byte, d: byte, a': byte, b': byte, c': byte, d': byte)
    requires a + 0x100 * b + 0x1_0000 * c + 0x100_0000 * d == a' + 0x100 * b' + 0x1_0000 * c' + 0x100_0000 * d'
    ensures a == a' && b == b' && c == c' && d == d'
  {
    LastDigit(a, b + 256 * (c + 256 * d), a', b' + 256 * (c' + 256 * d'));
    LastDigit(b, c + 256 * d, b', c' + 256 * d');
    LastDigit(c, d, c', d');
  }

  lemma LastDigit(x: byte, a: nat, y: byte, b: nat)
    requires x + 256 * a == y + 256 * b
    ensures x == y && a == b
  {
  }

  /** The checksum of a sector is a word, equal in images that agree on the sector. */
  lemma SameChecksum(g: Layout, img: seq<byte>, img': seq<byte>, layer: nat, pos: nat)
    requires Consistent(g) && |img| == |img'| && layer < g.ndata - 1 && pos < g.sectorsPerLayer
    requires g.firstCrcPos * SECTOR_SIZE <= |img|
    requires img[..g.firstCrcPos * SECTOR_SIZE] == img'[..g.firstCrcPos * SECTOR_SIZE]
    requires forall sec :: 0 <= sec < g.firstCrcPos ==> !Damaged(g, img, sec) && !Damaged(g, img', sec)
    ensures var slot := Slot(g, layer, pos); slot + 4 <= |img| && forall i :: slot <= i < slot + 4 ==> img[i] == img'[i]
  {
    hide Crc;
    hide Load;
    hide Slot;
    var sec := SectorIndex(g, layer, pos);
    SectorSplit(g, layer, pos);
    SectorIndexLinear(g, layer, pos);
    hide SectorIndex;
    MulNext(layer, g.sectorsPerLayer);
    MulMono(layer + 1, g.ndata - 1, g.sectorsPerLayer);
    assert !Damaged(g, img, sec) && !Damaged(g, img', sec);
    SectorOfPrefix(img, img', g.firstCrcPos * SECTOR_SIZE, sec);
    LoadInjective(img, img', Slot(g, layer, pos));
  }

  /** Every byte of the checksum layer is part of a checksum or slack. */
  lemma SlotOf(g: Layout, i: nat) returns (layer: nat, pos: nat)
    requires Consistent(g) && g.firstCrcPos * SECTOR_SIZE <= i < g.firstEccPos * SECTOR_SIZE && !IsSlack(g, i)
    ensures layer < g.ndata - 1 && pos < g.sectorsPerLayer
    ensures Slot(g, layer, pos) <= i < Slot(g, layer, pos) + 4
  {
    var back := i / SECTOR_SIZE - g.firstCrcPos;
    layer := i % SECTOR_SIZE / 4;
    pos := if back == g.sectorsPerLayer - 1 then 0 else back + 1;
    ChainBack(g.sectorsPerLayer, pos);
  }

  lemma SameDataAndChecksums(g: Layout, img: seq<byte>, img': seq<byte>, data: seq<byte>, inLast: nat,
                             padding: nat -> seq<byte>, i: nat)
    requires Consistent(g) && Complete(g, img, data, inLast, padding) && Complete(g, img', data, inLast, padding)
    requires i < g.firstEccPos * SECTOR_SIZE
    ensures |img| == |img'| && i < |img| && img[i] == img'[i]
  {
    hide DataLayers;
    hide Augmented;
    hide Damaged;
    hide Front;
    hide PaddedTo;
    hide IsSlack;
    hide Slot;
    var edge := g.firstCrcPos * SECTOR_SIZE;
    if i < edge {
      assert img[i] == img[..edge][i] && img'[i] == img'[..edge][i];
    } else if !IsSlack(g, i) {
      var layer, pos := SlotOf(g, i);
      SameChecksum(g, img, img', layer, pos);
    }
  }

  /** Two complete images of the same data are the same image. */
  lemma CompleteUnique(g: Layout, img: seq<byte>, img': seq<byte>, data: seq<byte>, inLast: nat,
                       padding: nat -> seq<byte>)
    requires Consistent(g) && Complete(g, img, data, inLast, padding) && Complete(g, img', data, inLast, padding)
    ensures img == img'
  {
    hide SectorIndex;
    hide IsCodeword;
    hide Cell;
    hide Word;
    hide DataLayers;
    hide Damaged;
    hide Front;
    hide PaddedTo;
    hide IsSlack;
    forall i | 0 <= i < |img|
      ensures img[i] == img'[i]
    {
      var sec, b := i / SECTOR_SIZE, i % SECTOR_SIZE;
      var layer, pos := SectorIndexOnto(g, sec);
      forall l | 0 <= l < g.ndata
        ensures Word(g, img, pos, b)[l] == Word(g, img', pos, b)[l]
      {
        SameBelowParity(g, img, img', data, inLast, padding, l, pos, b);
      }
      SameCodeword(Word(g, img, pos, b), Word(g, img', pos, b), g.ndata, g.nroots);
      CellByte(g, img, layer, pos, b, i);
      CellByte(g, img', layer, pos, b, i);
    }
  }

  lemma CellByte(g: Layout, img: seq<byte>, layer: nat, pos: nat, b: nat, i: nat)
    requires ImageFor(g, img) && layer < 255 && pos < g.sectorsPerLayer && b < SECTOR_SIZE
    requires i == SectorIndex(g, layer, pos) * SECTOR_SIZE + b
    ensures i < |img| && Word(g, img, pos, b)[layer] == img[i]
  {
    AddrBound(g, layer, pos, b);
  }

  lemma SameBelowParity(g: Layout, img: seq<byte>, img': seq<byte>, data: seq<byte>, inLast: nat,
                        padding: nat -> seq<byte>, l: nat, pos: nat, b: nat)
    requires Consistent(g) && Complete(g, img, data, inLast, padding) && Complete(g, img', data, inLast, padding)
    requires ImageFor(g, img) && ImageFor(g, img') && l < g.ndata && pos < g.sectorsPerLayer && b < SECTOR_SIZE
    ensures Word(g, img, pos, b)[l] == Word(g, img', pos, b)[l]
  {
    hide SectorIndex;
    hide Complete;
    var i := SectorIndex(g, l, pos) * SECTOR_SIZE + b;
    ParitySide(g, l, pos);
    SameDataAndChecksums(g, img, img', data, inLast, padding, i);
    CellByte(g, img, l, pos, b, i);
    CellByte(g, img', l, pos, b, i);
  }

  /** Codewords that agree below the parity agree. */
  lemma SameCodeword(w: seq<byte>, v: seq<byte>, ndata: nat, nroots: nat)
    requires IsCodeword(w, nroots) && IsCodeword(v, nroots) && ndata + nroots == 255
    requires |w| == |v| == 255 && forall l :: 0 <= l < ndata ==> w[l] == v[l]
    ensures w == v
  {
    hide IsCodeword;
    var parity: seq<nat> := seq(nroots, k requires 0 <= k < nroots => ndata + k);
    forall l | ndata <= l < 255
      ensures l in parity
    {
      assert parity[l - ndata] == l;
    }
    CodewordUnique(w, v, nroots, parity);
  }
}
