/** Where a repair that reports success has not restored the image: errors the flags do not show, at positions
    whose flags use up all the roots, all but one, or fewer. */
module Rs03Limits {
  import opened Options
  import opened Bits
  import opened Gf256
  import opened Sums
  import opened Poly
  import opened GfOrder
  import opened RsCode
  import opened BerlekampMassey
  import opened RsDecode
  import opened RsRegister
  import opened RsCorrect
  import opened RsSpare
  import opened RsBeyond
  import opened Rs03Layout
  import opened Rs03Fix
  import opened Rs03Augment

  /** One unflagged byte away from an augmented image. */
  ghost predicate OneByteOff(g: Layout, bad: seq<bool>, orig: seq<byte>, img: seq<byte>, layer: nat, pos: nat, b: nat)
    requires Consistent(g) && |bad| == g.totalSectors && layer < 255 && pos < g.sectorsPerLayer && b < SECTOR_SIZE
  {
    && |img| == |orig| == g.totalSectors * SECTOR_SIZE && layer !in Flagged(g, bad, pos)
    && (AddrBound(g, layer, pos, b); img[Addr(g, layer, pos, b)] != orig[Addr(g, layer, pos, b)])
    && forall i :: 0 <= i < |img| && i != Addr(g, layer, pos, b) ==> img[i] == orig[i]
  }

  lemma OnlyOneWrong(g: Layout, bad: seq<bool>, orig: seq<byte>, img: seq<byte>, layer: nat, pos: nat, b: nat)
    requires Consistent(g) && |bad| == g.totalSectors && layer < 255 && pos < g.sectorsPerLayer && b < SECTOR_SIZE
    requires OneByteOff(g, bad, orig, img, layer, pos, b)
    ensures ImageFor(g, img) && ImageFor(g, orig) && WrongAt(g, bad, img, orig, pos, b) == [layer]
  {
    hide FlaggedTo;
    hide WrongTo;
    hide SectorIndex;
    var w, c := Word(g, img, pos, b), Word(g, orig, pos, b);
    forall l | 0 <= l < 255
      ensures w[l] != c[l] <==> l == layer
    {
      AddrBound(g, l, pos, b);
      AddrBound(g, layer, pos, b);
      if l != layer && Addr(g, l, pos, b) == Addr(g, layer, pos, b) {
        AddrInjective(g, l, pos, b, layer, pos, b);
      }
    }
    var u := WrongAt(g, bad, img, orig, pos, b);
    assert layer in u;
    OneElement(u, layer);
  }

  lemma OneElement(u: seq<nat>, x: nat)
    requires x in u && (forall k :: 0 <= k < |u| ==> u[k] == x)
    requires forall i, j :: 0 <= i < j < |u| ==> u[i] < u[j]
    ensures u == [x]
  {
    var n := |u| - 1;
    assert u[0] == x && u[n] == x;
  }

  /** A single unflagged wrong byte makes every flagged byte of its codeword come out wrong, while the
      repair reports success. */
  lemma SilentErrorSpreads(g: Layout, bad: seq<bool>, orig: seq<byte>, img0: seq<byte>, img: seq<byte>, rc: int,
                           layer: nat, pos: nat, b: nat)
    requires Consistent(g) && |bad| == g.totalSectors && layer < 255 && pos < g.sectorsPerLayer && b < SECTOR_SIZE
    requires forall p :: 0 <= p < g.sectorsPerLayer ==> |Flagged(g, bad, p)| == g.nroots
    requires Augmented(g, orig) && OneByteOff(g, bad, orig, img0, layer, pos, b)
    requires ImageFor(g, img0) && ImageFor(g, img) && Outcome(g, bad, img0, img, rc)
    ensures rc == 0
    ensures var erased := Flagged(g, bad, pos);
      forall k :: 0 <= k < |erased| ==> !SameCell(g, img, orig, erased[k], pos, b)
    ensures img != orig
  {
    hide FlaggedTo;
    hide Cell;
    hide Augmented;
    hide OneByteOff;
    hide Outcome;
    OnlyOneWrong(g, bad, orig, img0, layer, pos, b);
    FullLoadExact(g, bad, img0, img, orig, rc, pos, b);
    FullNeverCounts(g, bad, img0, img, rc);
    assert !SameCell(g, img, orig, Flagged(g, bad, pos)[0], pos, b);
  }

  /** With nroots flags at every position the repair cannot report a failure. */
  lemma FullNeverCounts(g: Layout, bad: seq<bool>, img0: seq<byte>, img: seq<byte>, rc: int)
    requires ImageFor(g, img0) && ImageFor(g, img) && |bad| == g.totalSectors && Outcome(g, bad, img0, img, rc)
    requires forall p :: 0 <= p < g.sectorsPerLayer ==> |Flagged(g, bad, p)| == g.nroots
    ensures rc == 0
  {
    hide FlaggedTo;
    hide KeepsUnflagged;
    hide AllTreatedTo;
    hide Fails;
    forall p | 0 <= p < g.sectorsPerLayer
      ensures !Fails(g, bad, img0, p, 0)
    {
      FullNeverFails(g, bad, img0, p, 0);
    }
    NoneFailed(g, bad, img0);
  }

  /** Without overloaded positions and first codewords that fail, the result is 0. */
  lemma NoneFailed(g: Layout, bad: seq<bool>, img: seq<byte>)
    requires ImageFor(g, img) && |bad| == g.totalSectors
    requires forall p :: 0 <= p < g.sectorsPerLayer ==> |Flagged(g, bad, p)| <= g.nroots && !Fails(g, bad, img, p, 0)
    ensures FailedTo(g, bad, img, g.sectorsPerLayer) == 0
  {
    hide FlaggedTo;
    hide Fails;
    OnlyOverloaded(g, bad, img, g.sectorsPerLayer);
    NoneOverloaded(g, bad, g.sectorsPerLayer);
  }

  // ----- a concrete input

  lemma ZeroCodeword(w: seq<byte>, nroots: nat)
    requires |w| == 255 && forall l :: 0 <= l < 255 ==> w[l] == 0
    ensures IsCodeword(w, nroots)
  {
    hide Mul;
    hide Sum;
    hide Pow;
    forall i | 0 <= i < nroots
      ensures Syndrome(w, i) == 0
    {
      forall l | 0 <= l < 255
        ensures SynTerm(w, i)(l) == 0
      {
        MulZero(M, Pow(M, Place(l), FIRST_ROOT + i));
      }
      SumZero(SynTerm(w, i), 0, 255);
    }
  }

  /** The image of zeros is augmented: its parity is zero. */
  lemma ZeroImage(g: Layout)
    requires Consistent(g)
    ensures Augmented(g, Zeros(g.totalSectors * SECTOR_SIZE))
  {
    hide IsCodeword;
    hide SectorIndex;
    var z := Zeros(g.totalSectors * SECTOR_SIZE);
    forall pos, b | 0 <= pos < g.sectorsPerLayer && 0 <= b < SECTOR_SIZE
      ensures IsCodeword(Word(g, z, pos, b), g.nroots)
    {
      var w := Word(g, z, pos, b);
      forall l | 0 <= l < 255
        ensures w[l] == 0
      {
        AddrBound(g, l, pos, b);
      }
      ZeroCodeword(w, g.nroots);
    }
  }

  /** In every layout: zeros with the first byte changed to 1 and all parity flagged. The repair reports
      success and leaves every parity byte of the first codeword wrong. */
  lemma ZeroImageSpoiled(g: Layout, bad: seq<bool>, img: seq<byte>, rc: int)
    requires Consistent(g) && ParityFlags(g, bad)
    requires var z := Zeros(g.totalSectors * SECTOR_SIZE);
      |z| > 0 && ImageFor(g, img) && Outcome(g, bad, z[0 := 1], img, rc)
    ensures rc == 0 && img != Zeros(g.totalSectors * SECTOR_SIZE)
    ensures forall l :: g.ndata <= l < 255 ==> Cell(g, img, l, 0, 0) != 0
  {
    hide FlaggedTo;
    hide SectorIndex;
    hide Augmented;
    hide Outcome;
    var z := Zeros(g.totalSectors * SECTOR_SIZE);
    forall p | 0 <= p < g.sectorsPerLayer
      ensures |Flagged(g, bad, p)| == g.nroots
    {
      ParityFlagged(g, bad, p, 255);
    }
    ZeroImage(g);
    FirstByte(g);
    ParityLayers(g, bad, 0);
    SilentErrorSpreads(g, bad, z, z[0 := 1], img, rc, 0, 0, 0);
    forall l | g.ndata <= l < 255
      ensures Cell(g, img, l, 0, 0) != 0
    {
      AddrBound(g, l, 0, 0);
      assert l in Flagged(g, bad, 0);
      var k :| 0 <= k < |Flagged(g, bad, 0)| && Flagged(g, bad, 0)[k] == l;
      assert !SameCell(g, img, z, Flagged(g, bad, 0)[k], 0, 0);
    }
  }

  lemma FirstByte(g: Layout)
    requires Consistent(g)
    ensures Addr(g, 0, 0, 0) == 0
  {
    SectorIndexLinear(g, 0, 0);
  }

  lemma ParityLayers(g: Layout, bad: seq<bool>, pos: nat)
    requires Consistent(g) && ParityFlags(g, bad) && pos < g.sectorsPerLayer
    ensures forall l :: 0 <= l < 255 ==> (l in Flagged(g, bad, pos) <==> l >= g.ndata)
  {
    hide SectorIndex;
    hide FlaggedTo;
    forall l | 0 <= l < 255
      ensures l in Flagged(g, bad, pos) <==> l >= g.ndata
    {
      FlaggedIff(g, bad, pos, 255, l);
      ParitySide(g, l, pos);
      SectorIndexBound(g, l, pos);
    }
  }

  // ----- a failure that is not counted

  /** Flags on all parity layers but the last. */
  ghost predicate SpareFlags(g: Layout, bad: seq<bool>)
  {
    && |bad| == g.totalSectors && g.nroots >= 2
    && forall sec :: 0 <= sec < |bad| ==> (bad[sec] <==> g.firstEccPos <= sec < 254 * g.sectorsPerLayer)
  }

  lemma {:induction false} SpareFlagged(g: Layout, bad: seq<bool>, pos: nat, n: nat)
    requires Consistent(g) && SpareFlags(g, bad) && pos < g.sectorsPerLayer && n <= 255
    ensures |FlaggedTo(g, bad, pos, n)| == if n <= g.ndata then 0 else if n == 255 then n - 1 - g.ndata else n - g.ndata
    ensures forall l :: 0 <= l < n ==> (l in FlaggedTo(g, bad, pos, n) <==> g.ndata <= l < 254)
  {
    hide SectorIndex;
    if n > 0 {
      SpareFlagged(g, bad, pos, n - 1);
      ParitySide(g, n - 1, pos);
      SectorIndexBound(g, n - 1, pos);
      SectorIndexLinear(g, n - 1, pos);
      if n == 255 {
        assert SectorIndex(g, 254, pos) == 254 * g.sectorsPerLayer + pos;
      } else {
        MulMono(n, 254, g.sectorsPerLayer);
        MulNext(n - 1, g.sectorsPerLayer);
      }
    }
  }

  /** The byte that makes the discrepancy of an otherwise zero codeword fall on the first flagged layer. */
  ghost function BadByte(g: Layout, bad: seq<bool>): byte
    requires Consistent(g) && SpareFlags(g, bad)
  {
    SpareFlagged(g, bad, 0, 255);
    var erased := Flagged(g, bad, 0);
    SpareFactorNonzero(erased, 0);
    Ratio(M, Place(g.ndata), SpareFactor(erased, 0))
  }

  /** Zeros but for that byte in the first data sector, at byte offset 1, and a damaged byte of a flagged
      sector at byte offset 2. */
  ghost predicate StopInput(g: Layout, bad: seq<bool>, img: seq<byte>)
    requires Consistent(g) && SpareFlags(g, bad)
  {
    && |img| == g.totalSectors * SECTOR_SIZE
    && forall l, p, b :: 0 <= l < 255 && 0 <= p < g.sectorsPerLayer && 0 <= b < SECTOR_SIZE ==>
      Cell(g, img, l, p, b)
      == if (l, p, b) == (0, 0, 1) then BadByte(g, bad) else if (l, p, b) == (g.ndata, 0, 2) then 1 else 0
  }

  /** With one root to spare a codeword fails exactly when its discrepancy is at an erased place. */
  lemma SpareFails(g: Layout, bad: seq<bool>, img: seq<byte>, pos: nat, b: nat)
    requires ImageFor(g, img) && |bad| == g.totalSectors && pos < g.sectorsPerLayer && b < SECTOR_SIZE
    requires OneSpare(Flagged(g, bad, pos), g.nroots)
    ensures Fails(g, bad, img, pos, b) <==>
      Spare(Word(g, img, pos, b), Flagged(g, bad, pos)) in Places(Flagged(g, bad, pos))
  {
    hide FlaggedTo;
    hide Word;
    hide Spare;
    hide Decoded;
    hide IsCodeword;
    var w, erased := Word(g, img, pos, b), Flagged(g, bad, pos);
    var d := Decoded(w, g.nroots, erased);
    if d.Some? {
      SpareDecides(w, d.value, g.nroots, erased, 0);
    } else {
      SpareDecides(w, w, g.nroots, erased, -1);
    }
  }

  /** In every layout with at least two roots: the repair reports success, but stops at byte offset 1 and leaves
      the flagged byte at offset 2 damaged, although it is the only damage in its codeword. */
  lemma FailureNotCounted(g: Layout, bad: seq<bool>, img0: seq<byte>, img: seq<byte>, rc: int)
    requires Consistent(g) && SpareFlags(g, bad) && StopInput(g, bad, img0)
    requires ImageFor(g, img) && Outcome(g, bad, img0, img, rc)
    ensures rc == 0 && Cell(g, img, g.ndata, 0, 2) == 1
    ensures var z := Zeros(g.totalSectors * SECTOR_SIZE);
      Augmented(g, z) && WrongAt(g, bad, img0, z, 0, 2) == []
  {
    hide FlaggedTo;
    hide Cell;
    hide Fails;
    hide SectorIndex;
    hide BadByte;
    forall p | 0 <= p < g.sectorsPerLayer
      ensures |Flagged(g, bad, p)| <= g.nroots && !Fails(g, bad, img0, p, 0)
    {
      SpareFlagged(g, bad, p, 255);
      ZeroWordFine(g, bad, img0, p, 0);
    }
    NoneFailed(g, bad, img0);
    SecondByteFails(g, bad, img0);
    assert Treated(g, bad, img0, img, 0);
    assert FailsBy(g, bad, img0, 0, 2);
    assert SameCell(g, img0, img, g.ndata, 0, 2);
    ZeroImage(g);
    ThirdByteReachable(g, bad, img0);
  }

  /** A zero codeword does not fail. */
  lemma ZeroWordFine(g: Layout, bad: seq<bool>, img: seq<byte>, pos: nat, b: nat)
    requires ImageFor(g, img) && |bad| == g.totalSectors && pos < g.sectorsPerLayer && b < SECTOR_SIZE
    requires forall l :: 0 <= l < 255 ==> Cell(g, img, l, pos, b) == 0
    ensures !Fails(g, bad, img, pos, b)
  {
    hide FlaggedTo;
    hide Cell;
    hide Decoded;
    hide IsCodeword;
    var w, erased := Word(g, img, pos, b), Flagged(g, bad, pos);
    ZeroCodeword(w, g.nroots);
    if 0 < |erased| <= g.nroots {
      CleanWord(w, g.nroots, erased);
    }
  }

  lemma SecondByteFails(g: Layout, bad: seq<bool>, img: seq<byte>)
    requires Consistent(g) && SpareFlags(g, bad) && StopInput(g, bad, img) && ImageFor(g, img)
    ensures Fails(g, bad, img, 0, 1)
  {
    hide FlaggedTo;
    hide Cell;
    hide Spare;
    hide SpareFactor;
    hide IsCodeword;
    hide Exp;
    hide Mul;
    hide Add;
    hide Fails;
    SpareFlagged(g, bad, 0, 255);
    var w, erased, z := Word(g, img, 0, 1), Flagged(g, bad, 0), Zeros(255);
    ZeroCodeword(z, g.nroots);
    assert AgreeOutside(w, z, erased + [0]);
    SpareValue(w, z, g.nroots, erased, 0);
    AddZero(w[0]);
    SpareFactorNonzero(erased, 0);
    assert Spare(w, erased) == Place(g.ndata);
    assert g.ndata in erased;
    var k :| 0 <= k < |erased| && erased[k] == g.ndata;
    assert Places(erased)[k] == Place(g.ndata);
    SpareFails(g, bad, img, 0, 1);
  }

  lemma ThirdByteReachable(g: Layout, bad: seq<bool>, img: seq<byte>)
    requires Consistent(g) && SpareFlags(g, bad) && StopInput(g, bad, img) && ImageFor(g, img)
    ensures var z := Zeros(g.totalSectors * SECTOR_SIZE);
      ImageFor(g, z) && WrongAt(g, bad, img, z, 0, 2) == []
  {
    hide FlaggedTo;
    hide BadByte;
    hide SectorIndex;
    SpareFlagged(g, bad, 0, 255);
    var z, erased := Zeros(g.totalSectors * SECTOR_SIZE), Flagged(g, bad, 0);
    forall l | 0 <= l < 255 && l !in erased
      ensures Word(g, img, 0, 2)[l] == Word(g, z, 0, 2)[l]
    {
      AddrBound(g, l, 0, 2);
      assert Cell(g, img, l, 0, 2) == 0;
    }
    NoneWrong(Word(g, img, 0, 2), Word(g, z, 0, 2), erased, 255);
  }

  /** Such an image exists in every layout with at least two roots. */
  lemma StopInputExists(g: Layout, bad: seq<bool>) returns (img: seq<byte>)
    requires Consistent(g) && SpareFlags(g, bad)
    ensures StopInput(g, bad, img) && ImageFor(g, img)
  {
    hide SectorIndex;
    hide BadByte;
    AddrBound(g, 0, 0, 1);
    AddrBound(g, g.ndata, 0, 2);
    var i, j := Addr(g, 0, 0, 1), Addr(g, g.ndata, 0, 2);
    img := Zeros(g.totalSectors * SECTOR_SIZE)[i := BadByte(g, bad)][j := 1];
    forall l, p, b | 0 <= l < 255 && 0 <= p < g.sectorsPerLayer && 0 <= b < SECTOR_SIZE
      ensures Cell(g, img, l, p, b)
        == if (l, p, b) == (0, 0, 1) then BadByte(g, bad) else if (l, p, b) == (g.ndata, 0, 2) then 1 else 0
    {
      AddrBound(g, l, p, b);
      if Addr(g, l, p, b) == i {
        AddrInjective(g, l, p, b, 0, 0, 1);
      }
      if Addr(g, l, p, b) == j {
        AddrInjective(g, l, p, b, g.ndata, 0, 2);
      }
    }
  }

  // ----- two or more roots to spare

  /** Zeros but for the first codeword, whose erasure locator misses one syndrome. */
  ghost predicate MissInput(g: Layout, bad: seq<bool>, img: seq<byte>)
    requires Consistent(g) && |bad| == g.totalSectors
  {
    && |img| == g.totalSectors * SECTOR_SIZE
    && (var erased := Flagged(g, bad, 0);
        MissesOne(|erased|, SyndromesOf(Word(g, img, 0, 0), g.nroots), ErasureStart(erased, g.nroots)))
    && forall l, p, b :: 0 <= l < 255 && 0 <= p < g.sectorsPerLayer && 0 <= b < SECTOR_SIZE && (p, b) != (0, 0) ==>
      Cell(g, img, l, p, b) == 0
  }

  /** However many roots are to spare beyond one: the repair reports success, and the codeword at the flagged
      position is none. */
  lemma SuccessWithoutCodeword(g: Layout, bad: seq<bool>, img0: seq<byte>, img: seq<byte>, rc: int)
    requires Consistent(g) && |bad| == g.totalSectors && MissInput(g, bad, img0)
    requires 0 < |Flagged(g, bad, 0)| && |Flagged(g, bad, 0)| + 2 <= g.nroots
    requires forall p :: 0 <= p < g.sectorsPerLayer ==> |Flagged(g, bad, p)| <= g.nroots
    requires ImageFor(g, img) && Outcome(g, bad, img0, img, rc)
    ensures rc == 0 && !IsCodeword(Word(g, img, 0, 0), g.nroots)
  {
    hide FlaggedTo;
    hide Word;
    hide Cell;
    hide Decoded;
    hide RegisterOf;
    hide MissesOne;
    hide IsCodeword;
    hide KeepsUnflagged;
    var w, erased := Word(g, img0, 0, 0), Flagged(g, bad, 0);
    AcceptedUncorrected(w, g.nroots, erased);
    assert !Fails(g, bad, img0, 0, 0);
    hide Fails;
    forall p | 0 <= p < g.sectorsPerLayer
      ensures !Fails(g, bad, img0, p, 0)
    {
      if p > 0 {
        ZeroWordFine(g, bad, img0, p, 0);
      }
    }
    NoneFailed(g, bad, img0);
    assert Treated(g, bad, img0, img, 0);
    assert Written(g, bad, img0, img, 0, 0);
    WrittenWord(g, bad, img0, img, 0, 0, Decoded(w, g.nroots, erased).value);
  }

  /** Such an image exists for all such flags. */
  lemma MissInputExists(g: Layout, bad: seq<bool>) returns (img: seq<byte>)
    requires Consistent(g) && |bad| == g.totalSectors
    requires 0 < |Flagged(g, bad, 0)| && |Flagged(g, bad, 0)| + 2 <= g.nroots
    ensures MissInput(g, bad, img)
  {
    hide FlaggedTo;
    hide SectorIndex;
    hide MissesOne;
    hide Coordinates;
    hide Syndrome;
    var w := UncorrectedExists(g.nroots, Flagged(g, bad, 0));
    img := seq(g.totalSectors * SECTOR_SIZE, i requires 0 <= i < g.totalSectors * SECTOR_SIZE =>
      var (layer, pos) := Coordinates(g, i / SECTOR_SIZE);
      if pos == 0 && i % SECTOR_SIZE == 0 then w[layer] else 0);
    forall l, p, b | 0 <= l < 255 && 0 <= p < g.sectorsPerLayer && 0 <= b < SECTOR_SIZE
      ensures Cell(g, img, l, p, b) == if (p, b) == (0, 0) then w[l] else 0
    {
      AddrBound(g, l, p, b);
      var i := Addr(g, l, p, b);
      assert i % SECTOR_SIZE == b && i / SECTOR_SIZE == SectorIndex(g, l, p);
      var (layer, pos) := Coordinates(g, i / SECTOR_SIZE);
      SectorIndexInjective(g, l, p, layer, pos);
    }
    assert Word(g, img, 0, 0) == w;
  }
}
