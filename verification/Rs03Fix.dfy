/** Repair of a whole image: every codeword position with flagged sectors is decoded byte by byte. */
module Rs03Fix {
  import opened Options
  import opened Bits
  import opened Gf256
  import opened GfTables
  import opened Poly
  import opened Sums
  import opened RsCode
  import opened RsRegister
  import opened RsCorrect
  import opened Rs03Layout

  ghost predicate ImageFor(g: Layout, img: seq<byte>)
  {
    Consistent(g) && |img| >= g.totalSectors * SECTOR_SIZE
  }

  ghost function Cell(g: Layout, img: seq<byte>, layer: nat, pos: nat, b: nat): byte
    requires ImageFor(g, img) && layer < 255 && pos < g.sectorsPerLayer && b < SECTOR_SIZE
  {
    AddrBound(g, layer, pos, b);
    img[Addr(g, layer, pos, b)]
  }

  /** The codeword at one position and byte offset, one symbol per layer. */
  ghost function Word(g: Layout, img: seq<byte>, pos: nat, b: nat): (w: seq<byte>)
    requires ImageFor(g, img) && pos < g.sectorsPerLayer && b < SECTOR_SIZE
    ensures |w| == 255
  {
    seq(255, layer requires 0 <= layer < 255 => Cell(g, img, layer, pos, b))
  }

  /** An image whose every codeword has vanishing syndromes. */
  ghost predicate Augmented(g: Layout, img: seq<byte>)
  {
    && ImageFor(g, img)
    && forall pos, b :: 0 <= pos < g.sectorsPerLayer && 0 <= b < SECTOR_SIZE ==>
      IsCodeword(Word(g, img, pos, b), g.nroots)
  }

  /** The flagged layers at a position below layer `n`, in ascending order. */
  function FlaggedTo(g: Layout, bad: seq<bool>, pos: nat, n: nat): (r: seq<nat>)
    requires Consistent(g) && |bad| == g.totalSectors && pos < g.sectorsPerLayer && n <= 255
    ensures forall k :: 0 <= k < |r| ==> r[k] < n
    ensures forall i, j :: 0 <= i < j < |r| ==> r[i] < r[j]
  {
    if n == 0 then [] else
      SectorIndexBound(g, n - 1, pos);
      FlaggedTo(g, bad, pos, n - 1) + if bad[SectorIndex(g, n - 1, pos)] then [n - 1] else []
  }

  function Flagged(g: Layout, bad: seq<bool>, pos: nat): (r: seq<nat>)
    requires Consistent(g) && |bad| == g.totalSectors && pos < g.sectorsPerLayer
    ensures Positions(r, 255)
  {
    FlaggedTo(g, bad, pos, 255)
  }

  ghost predicate IsFlagged(g: Layout, bad: seq<bool>, layer: nat, pos: nat)
    requires Consistent(g) && |bad| == g.totalSectors && pos < g.sectorsPerLayer && layer < 255
  {
    SectorIndexBound(g, layer, pos);
    bad[SectorIndex(g, layer, pos)]
  }

  lemma {:induction false} FlaggedIff(g: Layout, bad: seq<bool>, pos: nat, n: nat, layer: nat)
    requires Consistent(g) && |bad| == g.totalSectors && pos < g.sectorsPerLayer && n <= 255 && layer < n
    ensures layer in FlaggedTo(g, bad, pos, n) <==> IsFlagged(g, bad, layer, pos)
  {
    if layer < n - 1 {
      FlaggedIff(g, bad, pos, n - 1, layer);
    } else {
      var init := FlaggedTo(g, bad, pos, n - 1);
      assert n - 1 !in init;
    }
  }

  /** The unflagged layers below `n` where the image is wrong. */
  ghost function WrongTo(w: seq<byte>, c: seq<byte>, erased: seq<nat>, n: nat): (r: seq<nat>)
    requires |w| == |c| == 255 && n <= 255
    ensures forall k :: 0 <= k < |r| ==> r[k] < n && r[k] !in erased && w[r[k]] != c[r[k]]
    ensures forall i, j :: 0 <= i < j < |r| ==> r[i] < r[j]
    ensures forall l :: 0 <= l < n && l !in erased && w[l] != c[l] ==> l in r
  {
    if n == 0 then [] else
      WrongTo(w, c, erased, n - 1) + if n - 1 !in erased && w[n - 1] != c[n - 1] then [n - 1] else []
  }

  /** A position the code can repair: at every byte offset the flagged layers plus twice the wrong
      unflagged layers stay within the number of roots. */
  ghost predicate Repairable(g: Layout, bad: seq<bool>, img: seq<byte>, orig: seq<byte>, pos: nat)
    requires ImageFor(g, img) && ImageFor(g, orig) && |bad| == g.totalSectors && pos < g.sectorsPerLayer
  {
    forall b :: 0 <= b < SECTOR_SIZE ==> ByteRepairable(g, bad, img, orig, pos, b)
  }

  ghost predicate ByteRepairable(g: Layout, bad: seq<bool>, img: seq<byte>, orig: seq<byte>, pos: nat, b: nat)
    requires ImageFor(g, img) && ImageFor(g, orig) && |bad| == g.totalSectors
    requires pos < g.sectorsPerLayer && b < SECTOR_SIZE
  {
    var erased := Flagged(g, bad, pos);
    |erased| + 2 * |WrongTo(Word(g, img, pos, b), Word(g, orig, pos, b), erased, 255)| <= g.nroots
  }

  lemma RepairableCorrectable(g: Layout, bad: seq<bool>, img: seq<byte>, orig: seq<byte>, pos: nat, b: nat)
    requires ImageFor(g, img) && Augmented(g, orig) && |bad| == g.totalSectors
    requires pos < g.sectorsPerLayer && b < SECTOR_SIZE
    requires ByteRepairable(g, bad, img, orig, pos, b) && |Flagged(g, bad, pos)| > 0
    ensures var erased, w, c := Flagged(g, bad, pos), Word(g, img, pos, b), Word(g, orig, pos, b);
      Correctable(w, c, g.nroots, erased, WrongTo(w, c, erased, 255))
  {
    hide IsCodeword;
    hide Cell;
    hide FlaggedTo;
    hide WrongTo;
    var erased, w, c := Flagged(g, bad, pos), Word(g, img, pos, b), Word(g, orig, pos, b);
    var wrong := WrongTo(w, c, erased, 255);
    Disjoint(erased, wrong);
    hide Word;
    forall l | 0 <= l < 255 && l !in erased + wrong
      ensures w[l] == c[l]
    {
      assert l !in erased && l !in wrong;
    }
  }

  /** Different places without a common one are different places together. */
  lemma Disjoint(a: seq<nat>, b: seq<nat>)
    requires Positions(a, 255) && forall k :: 0 <= k < |b| ==> b[k] < 255 && b[k] !in a
    requires forall i, j :: 0 <= i < j < |b| ==> b[i] < b[j]
    ensures Positions(a + b, 255)
  {
    var p := a + b;
    forall i, j | 0 <= i < j < |p|
      ensures p[i] != p[j]
    {
      if i < |a| <= j {
        assert p[i] in a;
        assert p[j] == b[j - |a|];
      }
    }
  }

  // ----- the methods

  method CollectErased(g: Layout, bad: seq<bool>, pos: nat) returns (erased: seq<nat>, sectors: seq<nat>)
    requires Consistent(g) && |bad| == g.totalSectors && pos < g.sectorsPerLayer
    ensures erased == Flagged(g, bad, pos) && |sectors| == |erased|
    ensures forall k :: 0 <= k < |erased| ==> sectors[k] == SectorIndex(g, erased[k], pos)
  {
    erased, sectors := [], [];
    for layer := 0 to 255
      invariant erased == FlaggedTo(g, bad, pos, layer) && |sectors| == |erased|
      invariant forall k :: 0 <= k < |erased| ==> sectors[k] == SectorIndex(g, erased[k], pos)
    {
      SectorIndexBound(g, layer, pos);
      var sec := SectorIndex(g, layer, pos);
      if bad[sec] {
        erased, sectors := erased + [layer], sectors + [sec];
      }
    }
  }

  method GatherWord(g: Layout, img: array<byte>, pos: nat, b: nat) returns (sym: array<byte>)
    requires ImageFor(g, img[..]) && pos < g.sectorsPerLayer && b < SECTOR_SIZE
    ensures fresh(sym) && sym.Length == 255 && sym[..] == Word(g, img[..], pos, b)
  {
    sym := new byte[255](_ => 0);
    for layer := 0 to 255
      invariant forall l :: 0 <= l < layer ==> sym[l] == Cell(g, img[..], l, pos, b)
    {
      AddrBound(g, layer, pos, b);
      sym[layer] := img[SectorIndex(g, layer, pos) * SECTOR_SIZE + b];
    }
  }

  /** What a write to the flagged sectors at (pos, b) may change. */
  ghost predicate ChangedOnlyAt(g: Layout, old_: seq<byte>, new_: seq<byte>, pos: nat, b: nat, erased: seq<nat>)
    requires Consistent(g)
  {
    && |old_| == |new_|
    && forall i :: 0 <= i < |old_| && (forall k :: 0 <= k < |erased| ==> i != Addr(g, erased[k], pos, b)) ==>
      new_[i] == old_[i]
  }

  method WriteBack(g: Layout, img: array<byte>, pos: nat, b: nat, erased: seq<nat>, sectors: seq<nat>, sym: array<byte>)
    requires ImageFor(g, img[..]) && pos < g.sectorsPerLayer && b < SECTOR_SIZE
    requires Positions(erased, 255) && sym.Length == 255 && sym != img && |sectors| == |erased|
    requires forall k :: 0 <= k < |erased| ==> sectors[k] == SectorIndex(g, erased[k], pos)
    modifies img
    ensures ChangedOnlyAt(g, old(img[..]), img[..], pos, b, erased)
    ensures forall k :: 0 <= k < |erased| ==> Cell(g, img[..], erased[k], pos, b) == sym[erased[k]]
  {
    hide SectorIndex;
    ghost var img0 := img[..];
    for i := 0 to |erased|
      invariant ChangedOnlyAt(g, img0, img[..], pos, b, erased)
      invariant forall k :: 0 <= k < i ==> Cell(g, img[..], erased[k], pos, b) == sym[erased[k]]
    {
      AddrBound(g, erased[i], pos, b);
      forall k | 0 <= k < i
        ensures Addr(g, erased[k], pos, b) != Addr(g, erased[i], pos, b)
        ensures Addr(g, erased[k], pos, b) < img.Length
      {
        AddrBound(g, erased[k], pos, b);
        if Addr(g, erased[k], pos, b) == Addr(g, erased[i], pos, b) {
          AddrInjective(g, erased[k], pos, b, erased[i], pos, b);
        }
      }
      img[sectors[i] * SECTOR_SIZE + b] := sym[erased[i]];
    }
  }

  /** Bytes of unflagged sectors, and bytes past the layers, are kept. */
  ghost predicate KeepsUnflagged(g: Layout, bad: seq<bool>, old_: seq<byte>, new_: seq<byte>)
    requires Consistent(g) && |bad| == g.totalSectors
  {
    && |old_| == |new_|
    && forall i :: 0 <= i < |old_| && (i / SECTOR_SIZE < g.totalSectors ==> !bad[i / SECTOR_SIZE]) ==>
      new_[i] == old_[i]
  }

  ghost predicate SameCell(g: Layout, old_: seq<byte>, new_: seq<byte>, layer: nat, pos: nat, b: nat)
    requires ImageFor(g, old_) && ImageFor(g, new_) && layer < 255 && pos < g.sectorsPerLayer && b < SECTOR_SIZE
  {
    Cell(g, old_, layer, pos, b) == Cell(g, new_, layer, pos, b)
  }

  ghost predicate SameElsewhere(g: Layout, old_: seq<byte>, new_: seq<byte>, pos: nat)
    requires ImageFor(g, old_) && ImageFor(g, new_)
  {
    forall l, p, b :: 0 <= l < 255 && 0 <= p < g.sectorsPerLayer && 0 <= b < SECTOR_SIZE && p != pos ==>
      SameCell(g, old_, new_, l, p, b)
  }

  lemma ChangedKeeps(g: Layout, bad: seq<bool>, old_: seq<byte>, new_: seq<byte>, pos: nat, b: nat)
    requires ImageFor(g, old_) && |bad| == g.totalSectors && pos < g.sectorsPerLayer && b < SECTOR_SIZE
    requires ChangedOnlyAt(g, old_, new_, pos, b, Flagged(g, bad, pos))
    ensures KeepsUnflagged(g, bad, old_, new_) && SameElsewhere(g, old_, new_, pos)
    ensures forall l, b' :: 0 <= l < 255 && 0 <= b' < SECTOR_SIZE && b' != b ==> SameCell(g, old_, new_, l, pos, b')
  {
    hide SectorIndex;
    hide FlaggedTo;
    var erased := Flagged(g, bad, pos);
    forall i | 0 <= i < |old_| && (i / SECTOR_SIZE < g.totalSectors ==> !bad[i / SECTOR_SIZE])
      ensures new_[i] == old_[i]
    {
      forall k | 0 <= k < |erased|
        ensures i != Addr(g, erased[k], pos, b)
      {
        SectorIndexBound(g, erased[k], pos);
        AddrBound(g, erased[k], pos, b);
        FlaggedIff(g, bad, pos, 255, erased[k]);
      }
    }
    forall l, p, b' | 0 <= l < 255 && 0 <= p < g.sectorsPerLayer && 0 <= b' < SECTOR_SIZE && (p != pos || b' != b)
      ensures SameCell(g, old_, new_, l, p, b')
    {
      AddrBound(g, l, p, b');
      forall k | 0 <= k < |erased|
        ensures Addr(g, l, p, b') != Addr(g, erased[k], pos, b)
      {
        if Addr(g, l, p, b') == Addr(g, erased[k], pos, b) {
          AddrInjective(g, l, p, b', erased[k], pos, b);
        }
      }
    }
  }

  lemma SameWord(g: Layout, old_: seq<byte>, new_: seq<byte>, pos: nat, b: nat)
    requires ImageFor(g, old_) && ImageFor(g, new_) && pos < g.sectorsPerLayer && b < SECTOR_SIZE
    requires forall l :: 0 <= l < 255 ==> SameCell(g, old_, new_, l, pos, b)
    ensures Word(g, old_, pos, b) == Word(g, new_, pos, b)
  {
    hide Cell;
    forall l | 0 <= l < 255
      ensures Word(g, old_, pos, b)[l] == Word(g, new_, pos, b)[l]
    {
      assert SameCell(g, old_, new_, l, pos, b);
    }
  }

  ghost predicate Restored(g: Layout, bad: seq<bool>, img: seq<byte>, orig: seq<byte>, pos: nat, b: nat)
    requires ImageFor(g, img) && ImageFor(g, orig) && |bad| == g.totalSectors
    requires pos < g.sectorsPerLayer && b < SECTOR_SIZE
  {
    var erased := Flagged(g, bad, pos);
    forall k :: 0 <= k < |erased| ==> SameCell(g, img, orig, erased[k], pos, b)
  }

  // ----- what becomes of a position

  /** The decoder takes the codeword at one byte offset for nothing. */
  ghost predicate Fails(g: Layout, bad: seq<bool>, img: seq<byte>, pos: nat, b: nat)
    requires ImageFor(g, img) && |bad| == g.totalSectors && pos < g.sectorsPerLayer && b < SECTOR_SIZE
  {
    var erased := Flagged(g, bad, pos);
    0 < |erased| <= g.nroots && Decoded(Word(g, img, pos, b), g.nroots, erased).None?
  }

  ghost predicate FailsBy(g: Layout, bad: seq<bool>, img: seq<byte>, pos: nat, b: nat)
    requires ImageFor(g, img) && |bad| == g.totalSectors && pos < g.sectorsPerLayer && b < SECTOR_SIZE
  {
    exists b' :: 0 <= b' <= b && Fails(g, bad, img, pos, b')
  }

  ghost predicate Untouched(g: Layout, img0: seq<byte>, img: seq<byte>, pos: nat, b: nat)
    requires ImageFor(g, img0) && ImageFor(g, img) && pos < g.sectorsPerLayer && b < SECTOR_SIZE
  {
    forall l :: 0 <= l < 255 ==> SameCell(g, img0, img, l, pos, b)
  }

  /** The flagged symbols at one byte offset are those the decoder takes the codeword for. */
  ghost predicate Written(g: Layout, bad: seq<bool>, img0: seq<byte>, img: seq<byte>, pos: nat, b: nat)
    requires ImageFor(g, img0) && ImageFor(g, img) && |bad| == g.totalSectors
    requires pos < g.sectorsPerLayer && b < SECTOR_SIZE && |Flagged(g, bad, pos)| <= g.nroots
  {
    var erased := Flagged(g, bad, pos);
    var d := Decoded(Word(g, img0, pos, b), g.nroots, erased);
    d.Some? && forall k :: 0 <= k < |erased| ==> Cell(g, img, erased[k], pos, b) == d.value[erased[k]]
  }

  /** A position without flags, or with more than roots, stays as it is; any other is rewritten up to the first
      byte offset that fails, and stays as it is from there on. */
  ghost predicate Treated(g: Layout, bad: seq<bool>, img0: seq<byte>, img: seq<byte>, pos: nat)
    requires ImageFor(g, img0) && ImageFor(g, img) && |bad| == g.totalSectors && pos < g.sectorsPerLayer
  {
    var n := |Flagged(g, bad, pos)|;
    forall b :: 0 <= b < SECTOR_SIZE ==>
      if n == 0 || n > g.nroots || FailsBy(g, bad, img0, pos, b)
      then Untouched(g, img0, img, pos, b)
      else Written(g, bad, img0, img, pos, b)
  }

  /** Byte offsets below `n` are rewritten and the others are as they were. */
  ghost predicate TreatedTo(g: Layout, bad: seq<bool>, img0: seq<byte>, img: seq<byte>, pos: nat, n: nat)
    requires ImageFor(g, img0) && ImageFor(g, img) && |bad| == g.totalSectors && pos < g.sectorsPerLayer
    requires |Flagged(g, bad, pos)| <= g.nroots
  {
    && (forall b :: 0 <= b < SECTOR_SIZE && b < n ==>
      !Fails(g, bad, img0, pos, b) && Written(g, bad, img0, img, pos, b))
    && forall b :: n <= b < SECTOR_SIZE ==> Untouched(g, img0, img, pos, b)
  }

  /** All byte offsets of one position. */
  method FixPosition(t: Tables, g: Layout, img: array<byte>, bad: seq<bool>, pos: nat,
                     erased: seq<nat>, sectors: seq<nat>) returns (counted: nat)
    requires IsTables(t) && ImageFor(g, img[..]) && |bad| == g.totalSectors && pos < g.sectorsPerLayer
    requires erased == Flagged(g, bad, pos) && 0 < |erased| <= g.nroots && |sectors| == |erased|
    requires forall k :: 0 <= k < |erased| ==> sectors[k] == SectorIndex(g, erased[k], pos)
    modifies img
    ensures KeepsUnflagged(g, bad, old(img[..]), img[..]) && SameElsewhere(g, old(img[..]), img[..], pos)
    ensures Treated(g, bad, old(img[..]), img[..], pos)
    ensures counted == if Fails(g, bad, old(img[..]), pos, 0) then 1 else 0
  {
    hide SectorIndex;
    hide FlaggedTo;
    hide Cell;
    hide Word;
    hide IsTables;
    hide Decoded;
    hide RegisterOf;
    hide Fails;
    hide Written;
    hide Untouched;
    hide Treated;
    hide TreatedTo;
    hide KeepsUnflagged;
    hide SameElsewhere;
    hide Correctable;
    hide IsCodeword;
    hide Verdict;
    hide ChangedOnlyAt;
    counted := 0;
    ghost var img0 := img[..];
    NothingTreated(g, bad, img0, pos);
    for b := 0 to SECTOR_SIZE
      invariant KeepsUnflagged(g, bad, img0, img[..]) && SameElsewhere(g, img0, img[..], pos)
      invariant TreatedTo(g, bad, img0, img[..], pos, b)
      invariant counted == 0 && (b > 0 ==> !Fails(g, bad, img0, pos, 0))
    {
      ghost var before := img[..];
      var sym := GatherWord(g, img, pos, b);
      SameWordNow(g, bad, img0, before, pos, b);
      var rc := DecodeCodeword(t, sym, erased, g.nroots);
      VerdictAt(g, bad, img0, pos, b, sym[..], rc);
      if rc != 0 {
        StopsHere(g, bad, img0, img[..], pos, b);
        if b == 0 {
          counted := 1;
        }
        return;
      }
      WriteBack(g, img, pos, b, erased, sectors, sym);
      ChangedKeeps(g, bad, before, img[..], pos, b);
      KeepsTransitive(g, bad, img0, before, img[..], pos);
      TreatedNext(g, bad, img0, before, img[..], pos, b, sym[..]);
    }
    AllTreated(g, bad, img0, img[..], pos);
  }

  lemma NothingTreated(g: Layout, bad: seq<bool>, img: seq<byte>, pos: nat)
    requires ImageFor(g, img) && |bad| == g.totalSectors && pos < g.sectorsPerLayer
    requires |Flagged(g, bad, pos)| <= g.nroots
    ensures TreatedTo(g, bad, img, img, pos, 0) && KeepsUnflagged(g, bad, img, img) && SameElsewhere(g, img, img, pos)
  {
    hide Cell;
    hide FlaggedTo;
  }

  lemma SameWordNow(g: Layout, bad: seq<bool>, img0: seq<byte>, before: seq<byte>, pos: nat, b: nat)
    requires ImageFor(g, img0) && ImageFor(g, before) && |bad| == g.totalSectors && pos < g.sectorsPerLayer
    requires |Flagged(g, bad, pos)| <= g.nroots && b < SECTOR_SIZE && TreatedTo(g, bad, img0, before, pos, b)
    ensures Word(g, img0, pos, b) == Word(g, before, pos, b)
  {
    hide Cell;
    hide Word;
    hide FlaggedTo;
    hide Fails;
    hide Written;
    assert Untouched(g, img0, before, pos, b);
    SameWord(g, img0, before, pos, b);
  }

  lemma VerdictAt(g: Layout, bad: seq<bool>, img: seq<byte>, pos: nat, b: nat, v: seq<byte>, rc: int)
    requires ImageFor(g, img) && |bad| == g.totalSectors && pos < g.sectorsPerLayer && b < SECTOR_SIZE
    requires 0 < |Flagged(g, bad, pos)| <= g.nroots
    requires Verdict(Word(g, img, pos, b), v, g.nroots, Flagged(g, bad, pos), rc)
    ensures rc != 0 <==> Fails(g, bad, img, pos, b)
    ensures rc == 0 ==> Decoded(Word(g, img, pos, b), g.nroots, Flagged(g, bad, pos)) == Some(v)
  {
    hide Word;
    hide FlaggedTo;
    hide Decoded;
  }

  lemma StopsHere(g: Layout, bad: seq<bool>, img0: seq<byte>, img: seq<byte>, pos: nat, b: nat)
    requires ImageFor(g, img0) && ImageFor(g, img) && |bad| == g.totalSectors && pos < g.sectorsPerLayer
    requires 0 < |Flagged(g, bad, pos)| <= g.nroots && b < SECTOR_SIZE && TreatedTo(g, bad, img0, img, pos, b)
    requires Fails(g, bad, img0, pos, b)
    ensures Treated(g, bad, img0, img, pos)
  {
    hide Cell;
    hide FlaggedTo;
    hide Fails;
    hide Written;
    hide Untouched;
  }

  lemma AllTreated(g: Layout, bad: seq<bool>, img0: seq<byte>, img: seq<byte>, pos: nat)
    requires ImageFor(g, img0) && ImageFor(g, img) && |bad| == g.totalSectors && pos < g.sectorsPerLayer
    requires 0 < |Flagged(g, bad, pos)| <= g.nroots && TreatedTo(g, bad, img0, img, pos, SECTOR_SIZE)
    ensures Treated(g, bad, img0, img, pos)
  {
    hide Cell;
    hide FlaggedTo;
    hide Fails;
    hide Written;
    hide Untouched;
  }

  lemma TreatedNext(g: Layout, bad: seq<bool>, img0: seq<byte>, before: seq<byte>, after: seq<byte>, pos: nat, b: nat,
                    v: seq<byte>)
    requires ImageFor(g, img0) && ImageFor(g, before) && ImageFor(g, after) && |bad| == g.totalSectors
    requires pos < g.sectorsPerLayer && |Flagged(g, bad, pos)| <= g.nroots && b < SECTOR_SIZE
    requires TreatedTo(g, bad, img0, before, pos, b) && !Fails(g, bad, img0, pos, b)
    requires forall l, b' :: 0 <= l < 255 && 0 <= b' < SECTOR_SIZE && b' != b ==> SameCell(g, before, after, l, pos, b')
    requires Decoded(Word(g, img0, pos, b), g.nroots, Flagged(g, bad, pos)) == Some(v)
    requires var erased := Flagged(g, bad, pos);
      |v| == 255 && forall k :: 0 <= k < |erased| ==> Cell(g, after, erased[k], pos, b) == v[erased[k]]
    ensures TreatedTo(g, bad, img0, after, pos, b + 1)
  {
    hide Cell;
    hide Word;
    hide FlaggedTo;
    hide Fails;
    hide Decoded;
    var erased := Flagged(g, bad, pos);
    forall b' | 0 <= b' < b
      ensures Written(g, bad, img0, after, pos, b')
    {
      assert Written(g, bad, img0, before, pos, b');
      forall k | 0 <= k < |erased|
        ensures Cell(g, after, erased[k], pos, b') == Cell(g, before, erased[k], pos, b')
      {
        assert SameCell(g, before, after, erased[k], pos, b');
      }
    }
    forall b' | b + 1 <= b' < SECTOR_SIZE
      ensures Untouched(g, img0, after, pos, b')
    {
      assert Untouched(g, img0, before, pos, b');
      forall l | 0 <= l < 255
        ensures SameCell(g, img0, after, l, pos, b')
      {
        assert SameCell(g, img0, before, l, pos, b') && SameCell(g, before, after, l, pos, b');
      }
    }
  }

  lemma KeepsTransitive(g: Layout, bad: seq<bool>, a: seq<byte>, b: seq<byte>, c: seq<byte>, pos: nat)
    requires ImageFor(g, a) && ImageFor(g, b) && ImageFor(g, c) && |bad| == g.totalSectors
    requires KeepsUnflagged(g, bad, a, b) && KeepsUnflagged(g, bad, b, c)
    requires SameElsewhere(g, a, b, pos) && SameElsewhere(g, b, c, pos)
    ensures KeepsUnflagged(g, bad, a, c) && SameElsewhere(g, a, c, pos)
  {
    hide Cell;
    forall l, p, o | 0 <= l < 255 && 0 <= p < g.sectorsPerLayer && 0 <= o < SECTOR_SIZE && p != pos
      ensures SameCell(g, a, c, l, p, o)
    {
      assert SameCell(g, a, b, l, p, o) && SameCell(g, b, c, l, p, o);
    }
  }

  // ----- the whole image

  /** Positions below `n` that count as failures: those with more flags than roots, and those whose first
      codeword fails. */
  ghost function FailedTo(g: Layout, bad: seq<bool>, img: seq<byte>, n: nat): nat
    requires ImageFor(g, img) && |bad| == g.totalSectors && n <= g.sectorsPerLayer
  {
    if n == 0 then 0 else
      FailedTo(g, bad, img, n - 1)
      + if |Flagged(g, bad, n - 1)| > g.nroots || Fails(g, bad, img, n - 1, 0) then 1 else 0
  }

  ghost predicate AllTreatedTo(g: Layout, bad: seq<bool>, img0: seq<byte>, img: seq<byte>, n: nat)
    requires ImageFor(g, img0) && ImageFor(g, img) && |bad| == g.totalSectors && n <= g.sectorsPerLayer
  {
    forall pos :: 0 <= pos < n ==> Treated(g, bad, img0, img, pos)
  }

  /** What a repair does to any image: every byte of the new image and the result follow from the old one. */
  ghost predicate Outcome(g: Layout, bad: seq<bool>, img0: seq<byte>, img: seq<byte>, rc: int)
    requires ImageFor(g, img0) && ImageFor(g, img) && |bad| == g.totalSectors
  {
    && KeepsUnflagged(g, bad, img0, img)
    && AllTreatedTo(g, bad, img0, img, g.sectorsPerLayer)
    && rc == FailedTo(g, bad, img0, g.sectorsPerLayer)
  }

  /** Positions below `n` with more flagged sectors than roots. */
  ghost function OverloadedTo(g: Layout, bad: seq<bool>, n: nat): nat
    requires Consistent(g) && |bad| == g.totalSectors && n <= g.sectorsPerLayer
  {
    if n == 0 then 0 else OverloadedTo(g, bad, n - 1) + if |Flagged(g, bad, n - 1)| > g.nroots then 1 else 0
  }

  ghost predicate PositionRestored(g: Layout, bad: seq<bool>, img: seq<byte>, orig: seq<byte>, pos: nat)
    requires ImageFor(g, img) && ImageFor(g, orig) && |bad| == g.totalSectors && pos < g.sectorsPerLayer
  {
    forall b :: 0 <= b < SECTOR_SIZE ==> Restored(g, bad, img, orig, pos, b)
  }

  /** Each position is empty of flags, fully loaded or overloaded with them, or within reach. */
  ghost predicate Decided(g: Layout, bad: seq<bool>, img: seq<byte>, orig: seq<byte>)
    requires ImageFor(g, img) && ImageFor(g, orig) && |bad| == g.totalSectors
  {
    forall pos :: 0 <= pos < g.sectorsPerLayer ==>
      || |Flagged(g, bad, pos)| == 0
      || |Flagged(g, bad, pos)| >= g.nroots
      || Repairable(g, bad, img, orig, pos)
  }

  ghost predicate AllRestored(g: Layout, bad: seq<bool>, img0: seq<byte>, img: seq<byte>, orig: seq<byte>, n: nat)
    requires ImageFor(g, img0) && ImageFor(g, img) && ImageFor(g, orig)
    requires |bad| == g.totalSectors && n <= g.sectorsPerLayer
  {
    forall pos :: 0 <= pos < n && Repairable(g, bad, img0, orig, pos) ==> PositionRestored(g, bad, img, orig, pos)
  }

  /** Positions from `pos` on are as they were. */
  ghost predicate SameFrom(g: Layout, old_: seq<byte>, new_: seq<byte>, pos: nat)
    requires ImageFor(g, old_) && ImageFor(g, new_)
  {
    forall l, p, b :: 0 <= l < 255 && pos <= p < g.sectorsPerLayer && 0 <= b < SECTOR_SIZE ==>
      SameCell(g, old_, new_, l, p, b)
  }

  /** Repairs the image in place.  Whatever the input, the outcome is decided position by position by what the
      decoder takes the codewords for.  For every augmented image `orig`, each position within reach of the
      code gets its flagged sectors back; when every position is decided, the result counts exactly the
      overloaded ones. */
  method Fix(t: Tables, g: Layout, img: array<byte>, bad: seq<bool>, ghost orig: seq<byte>) returns (rc: int)
    requires IsTables(t) && Consistent(g) && |bad| == g.totalSectors
    modifies img
    ensures img.Length < g.totalSectors * SECTOR_SIZE ==> rc == -1 && img[..] == old(img[..])
    ensures KeepsUnflagged(g, bad, old(img[..]), img[..])
    ensures ImageFor(g, old(img[..])) ==> Outcome(g, bad, old(img[..]), img[..], rc)
    ensures ImageFor(g, old(img[..])) && Augmented(g, orig) ==>
      AllRestored(g, bad, old(img[..]), img[..], orig, g.sectorsPerLayer)
    ensures ImageFor(g, old(img[..])) && Augmented(g, orig) && Decided(g, bad, old(img[..]), orig) ==>
      rc == OverloadedTo(g, bad, g.sectorsPerLayer)
  {
    hide SectorIndex;
    hide FlaggedTo;
    hide Cell;
    hide IsTables;
    hide Augmented;
    hide Treated;
    hide Fails;
    hide Decided;
    hide AllRestored;
    hide AllTreatedTo;
    hide SameFrom;
    hide SameElsewhere;
    var uncorrectable := 0;
    ghost var img0 := img[..];
    if img.Length < g.totalSectors * SECTOR_SIZE {
      return -1;
    }
    NoneTreated(g, bad, img0);
    for pos := 0 to g.sectorsPerLayer
      invariant KeepsUnflagged(g, bad, img0, img[..])
      invariant SameFrom(g, img0, img[..], pos)
      invariant AllTreatedTo(g, bad, img0, img[..], pos)
      invariant uncorrectable == FailedTo(g, bad, img0, pos)
    {
      var erased, sectors := CollectErased(g, bad, pos);
      ghost var before := img[..];
      NothingToDo(g, bad, img0, before, pos);
      if |erased| == 0 {
        continue;
      }
      if |erased| > g.nroots {
        uncorrectable := uncorrectable + 1;
        continue;
      }
      var counted := FixPosition(t, g, img, bad, pos, erased, sectors);
      uncorrectable := uncorrectable + counted;
      NextTreated(g, bad, img0, before, img[..], pos);
      KeepsChain(g, bad, img0, before, img[..], pos);
    }
    if Augmented(g, orig) {
      AugmentedImage(g, orig);
      OutcomeRestores(g, bad, img0, img[..], orig, uncorrectable);
    }
    return uncorrectable;
  }

  lemma AugmentedImage(g: Layout, orig: seq<byte>)
    requires Augmented(g, orig)
    ensures ImageFor(g, orig)
  {
  }

  lemma NoneTreated(g: Layout, bad: seq<bool>, img: seq<byte>)
    requires ImageFor(g, img) && |bad| == g.totalSectors
    ensures SameFrom(g, img, img, 0) && AllTreatedTo(g, bad, img, img, 0)
  {
    hide Cell;
    hide Treated;
  }

  /** Without flags, or with too many, a position as it was is treated. */
  lemma NothingToDo(g: Layout, bad: seq<bool>, img0: seq<byte>, before: seq<byte>, pos: nat)
    requires ImageFor(g, img0) && ImageFor(g, before) && |bad| == g.totalSectors && pos < g.sectorsPerLayer
    requires SameFrom(g, img0, before, pos) && AllTreatedTo(g, bad, img0, before, pos)
    ensures Fails(g, bad, img0, pos, 0) ==> 0 < |Flagged(g, bad, pos)| <= g.nroots
    ensures |Flagged(g, bad, pos)| == 0 || |Flagged(g, bad, pos)| > g.nroots ==>
      AllTreatedTo(g, bad, img0, before, pos + 1)
    ensures SameFrom(g, img0, before, pos + 1)
  {
    hide Cell;
    hide Word;
    hide FlaggedTo;
    hide Decoded;
    if |Flagged(g, bad, pos)| == 0 || |Flagged(g, bad, pos)| > g.nroots {
      assert Treated(g, bad, img0, before, pos);
    }
    hide Treated;
  }

  /** A position fixed after others is treated by the codewords of the input. */
  lemma NextTreated(g: Layout, bad: seq<bool>, img0: seq<byte>, before: seq<byte>, after: seq<byte>, pos: nat)
    requires ImageFor(g, img0) && ImageFor(g, before) && ImageFor(g, after) && |bad| == g.totalSectors
    requires pos < g.sectorsPerLayer && SameFrom(g, img0, before, pos) && SameElsewhere(g, before, after, pos)
    requires AllTreatedTo(g, bad, img0, before, pos) && Treated(g, bad, before, after, pos)
    ensures AllTreatedTo(g, bad, img0, after, pos + 1)
    ensures Fails(g, bad, img0, pos, 0) <==> Fails(g, bad, before, pos, 0)
  {
    hide Cell;
    hide FlaggedTo;
    hide Treated;
    hide Decoded;
    hide Word;
    forall b | 0 <= b < SECTOR_SIZE
      ensures Word(g, img0, pos, b) == Word(g, before, pos, b) && Untouched(g, img0, before, pos, b)
    {
      SameWord(g, img0, before, pos, b);
    }
    TreatedFrom(g, bad, img0, before, after, pos);
    forall p | 0 <= p < pos
      ensures Treated(g, bad, img0, after, p)
    {
      forall b | 0 <= b < SECTOR_SIZE
        ensures Untouched(g, before, after, p, b)
      {
      }
      TreatedOn(g, bad, img0, before, after, p);
    }
  }

  /** Treatment looks at the codewords of the image before it only. */
  lemma TreatedFrom(g: Layout, bad: seq<bool>, img0: seq<byte>, before: seq<byte>, after: seq<byte>, pos: nat)
    requires ImageFor(g, img0) && ImageFor(g, before) && ImageFor(g, after) && |bad| == g.totalSectors
    requires pos < g.sectorsPerLayer && Treated(g, bad, before, after, pos)
    requires forall b :: 0 <= b < SECTOR_SIZE ==>
      Word(g, img0, pos, b) == Word(g, before, pos, b) && Untouched(g, img0, before, pos, b)
    ensures Treated(g, bad, img0, after, pos)
  {
    hide Cell;
    hide Word;
    hide FlaggedTo;
    hide Decoded;
    forall b | 0 <= b < SECTOR_SIZE
      ensures Fails(g, bad, img0, pos, b) <==> Fails(g, bad, before, pos, b)
    {
    }
    hide Fails;
    var n := |Flagged(g, bad, pos)|;
    forall b | 0 <= b < SECTOR_SIZE
      ensures if n == 0 || n > g.nroots || FailsBy(g, bad, img0, pos, b)
        then Untouched(g, img0, after, pos, b) else Written(g, bad, img0, after, pos, b)
    {
      assert FailsBy(g, bad, img0, pos, b) <==> FailsBy(g, bad, before, pos, b);
      if Untouched(g, before, after, pos, b) {
        UntouchedOn(g, img0, before, after, pos, b);
      }
    }
  }

  lemma UntouchedOn(g: Layout, a: seq<byte>, b: seq<byte>, c: seq<byte>, pos: nat, o: nat)
    requires ImageFor(g, a) && ImageFor(g, b) && ImageFor(g, c) && pos < g.sectorsPerLayer && o < SECTOR_SIZE
    requires Untouched(g, a, b, pos, o) && Untouched(g, b, c, pos, o)
    ensures Untouched(g, a, c, pos, o)
  {
    hide Cell;
    forall l | 0 <= l < 255
      ensures SameCell(g, a, c, l, pos, o)
    {
      assert SameCell(g, a, b, l, pos, o) && SameCell(g, b, c, l, pos, o);
    }
  }

  /** A treated position that nothing touches any more stays treated. */
  lemma TreatedOn(g: Layout, bad: seq<bool>, img0: seq<byte>, before: seq<byte>, after: seq<byte>, pos: nat)
    requires ImageFor(g, img0) && ImageFor(g, before) && ImageFor(g, after) && |bad| == g.totalSectors
    requires pos < g.sectorsPerLayer && Treated(g, bad, img0, before, pos)
    requires forall b :: 0 <= b < SECTOR_SIZE ==> Untouched(g, before, after, pos, b)
    ensures Treated(g, bad, img0, after, pos)
  {
    hide Cell;
    hide Word;
    hide FlaggedTo;
    hide Decoded;
    hide Fails;
    hide FailsBy;
    forall b | 0 <= b < SECTOR_SIZE && Untouched(g, img0, before, pos, b)
      ensures Untouched(g, img0, after, pos, b)
    {
      UntouchedOn(g, img0, before, after, pos, b);
    }
    if |Flagged(g, bad, pos)| <= g.nroots {
      forall b | 0 <= b < SECTOR_SIZE && Written(g, bad, img0, before, pos, b)
        ensures Written(g, bad, img0, after, pos, b)
      {
        WrittenOn(g, bad, img0, before, after, pos, b);
      }
    }
  }

  lemma WrittenOn(g: Layout, bad: seq<bool>, img0: seq<byte>, before: seq<byte>, after: seq<byte>, pos: nat, b: nat)
    requires ImageFor(g, img0) && ImageFor(g, before) && ImageFor(g, after) && |bad| == g.totalSectors
    requires pos < g.sectorsPerLayer && b < SECTOR_SIZE && |Flagged(g, bad, pos)| <= g.nroots
    requires Written(g, bad, img0, before, pos, b) && Untouched(g, before, after, pos, b)
    ensures Written(g, bad, img0, after, pos, b)
  {
    hide Cell;
    hide Word;
    hide FlaggedTo;
    hide Decoded;
    var erased := Flagged(g, bad, pos);
    forall k | 0 <= k < |erased|
      ensures Cell(g, after, erased[k], pos, b) == Cell(g, before, erased[k], pos, b)
    {
      assert SameCell(g, before, after, erased[k], pos, b);
    }
  }

  lemma KeepsChain(g: Layout, bad: seq<bool>, a: seq<byte>, b: seq<byte>, c: seq<byte>, pos: nat)
    requires ImageFor(g, a) && ImageFor(g, b) && ImageFor(g, c) && |bad| == g.totalSectors
    requires KeepsUnflagged(g, bad, a, b) && KeepsUnflagged(g, bad, b, c)
    requires SameFrom(g, a, b, pos) && SameElsewhere(g, b, c, pos)
    ensures KeepsUnflagged(g, bad, a, c) && SameFrom(g, a, c, pos + 1)
  {
    hide Cell;
    forall l, p, o | 0 <= l < 255 && pos + 1 <= p < g.sectorsPerLayer && 0 <= o < SECTOR_SIZE
      ensures SameCell(g, a, c, l, p, o)
    {
      assert SameCell(g, a, b, l, p, o) && SameCell(g, b, c, l, p, o);
    }
  }

  // ----- consequences for positions within reach

  /** A codeword within reach does not fail, and is taken for the original. */
  lemma RepairableDecoded(g: Layout, bad: seq<bool>, img: seq<byte>, orig: seq<byte>, pos: nat, b: nat)
    requires ImageFor(g, img) && Augmented(g, orig) && |bad| == g.totalSectors
    requires pos < g.sectorsPerLayer && b < SECTOR_SIZE
    requires ByteRepairable(g, bad, img, orig, pos, b) && 0 < |Flagged(g, bad, pos)| <= g.nroots
    ensures Decoded(Word(g, img, pos, b), g.nroots, Flagged(g, bad, pos)) == Some(Word(g, orig, pos, b))
    ensures !Fails(g, bad, img, pos, b)
  {
    hide Word;
    hide FlaggedTo;
    hide WrongTo;
    hide Decoded;
    hide Correctable;
    hide RegisterOf;
    hide ByteRepairable;
    RepairableCorrectable(g, bad, img, orig, pos, b);
    var erased, w, c := Flagged(g, bad, pos), Word(g, img, pos, b), Word(g, orig, pos, b);
    WithinReach(w, c, g.nroots, erased, WrongTo(w, c, erased, 255));
  }

  lemma RepairableRestored(g: Layout, bad: seq<bool>, img0: seq<byte>, img: seq<byte>, orig: seq<byte>, pos: nat)
    requires ImageFor(g, img0) && ImageFor(g, img) && Augmented(g, orig) && |bad| == g.totalSectors
    requires pos < g.sectorsPerLayer && Treated(g, bad, img0, img, pos) && Repairable(g, bad, img0, orig, pos)
    ensures PositionRestored(g, bad, img, orig, pos) && !Fails(g, bad, img0, pos, 0)
  {
    hide Word;
    hide FlaggedTo;
    hide Decoded;
    hide Cell;
    hide Fails;
    hide Augmented;
    AugmentedImage(g, orig);
    var erased := Flagged(g, bad, pos);
    assert ByteRepairable(g, bad, img0, orig, pos, 0);
    assert |erased| <= g.nroots by { hide WrongTo; }
    hide ByteRepairable;
    if |erased| == 0 {
      NoFlagsNoFailure(g, bad, img0, pos);
    } else {
      forall b | 0 <= b < SECTOR_SIZE
        ensures Decoded(Word(g, img0, pos, b), g.nroots, erased) == Some(Word(g, orig, pos, b))
        ensures !Fails(g, bad, img0, pos, b)
      {
        assert ByteRepairable(g, bad, img0, orig, pos, b);
        RepairableDecoded(g, bad, img0, orig, pos, b);
      }
      forall b | 0 <= b < SECTOR_SIZE
        ensures Restored(g, bad, img, orig, pos, b)
      {
        assert Written(g, bad, img0, img, pos, b);
        forall k | 0 <= k < |erased|
          ensures SameCell(g, img, orig, erased[k], pos, b)
        {
          WordCell(g, orig, pos, b, erased[k]);
        }
      }
    }
  }

  lemma NoFlagsNoFailure(g: Layout, bad: seq<bool>, img: seq<byte>, pos: nat)
    requires ImageFor(g, img) && |bad| == g.totalSectors && pos < g.sectorsPerLayer && |Flagged(g, bad, pos)| == 0
    ensures !Fails(g, bad, img, pos, 0)
  {
  }

  lemma WordCell(g: Layout, img: seq<byte>, pos: nat, b: nat, l: nat)
    requires ImageFor(g, img) && pos < g.sectorsPerLayer && b < SECTOR_SIZE && l < 255
    ensures Word(g, img, pos, b)[l] == Cell(g, img, l, pos, b)
  {
  }

  lemma OutcomeRestores(g: Layout, bad: seq<bool>, img0: seq<byte>, img: seq<byte>, orig: seq<byte>, rc: int)
    requires ImageFor(g, img0) && ImageFor(g, img) && Augmented(g, orig) && ImageFor(g, orig)
    requires |bad| == g.totalSectors && Outcome(g, bad, img0, img, rc)
    ensures AllRestored(g, bad, img0, img, orig, g.sectorsPerLayer)
    ensures Decided(g, bad, img0, orig) ==> rc == OverloadedTo(g, bad, g.sectorsPerLayer)
  {
    hide Treated;
    hide Repairable;
    hide FlaggedTo;
    hide Fails;
    hide Augmented;
    hide PositionRestored;
    forall pos | 0 <= pos < g.sectorsPerLayer && Repairable(g, bad, img0, orig, pos)
      ensures PositionRestored(g, bad, img, orig, pos) && !Fails(g, bad, img0, pos, 0)
    {
      RepairableRestored(g, bad, img0, img, orig, pos);
    }
    if Decided(g, bad, img0, orig) {
      forall pos | 0 <= pos < g.sectorsPerLayer
        ensures !Fails(g, bad, img0, pos, 0)
      {
        if !Repairable(g, bad, img0, orig, pos) {
          FullNeverFails(g, bad, img0, pos, 0);
        }
      }
      OnlyOverloaded(g, bad, img0, g.sectorsPerLayer);
    }
  }

  lemma {:induction false} OnlyOverloaded(g: Layout, bad: seq<bool>, img: seq<byte>, n: nat)
    requires ImageFor(g, img) && |bad| == g.totalSectors && n <= g.sectorsPerLayer
    requires forall pos :: 0 <= pos < n ==> !Fails(g, bad, img, pos, 0)
    ensures FailedTo(g, bad, img, n) == OverloadedTo(g, bad, n)
  {
    hide Fails;
    hide FlaggedTo;
    if n > 0 {
      OnlyOverloaded(g, bad, img, n - 1);
    }
  }

  // ----- consequences for fully loaded positions

  /** With nroots flags every codeword is taken for the one codeword that agrees with its unflagged symbols. */
  lemma FullDecoded(g: Layout, bad: seq<bool>, img: seq<byte>, pos: nat, b: nat) returns (c: seq<byte>)
    requires ImageFor(g, img) && |bad| == g.totalSectors && pos < g.sectorsPerLayer && b < SECTOR_SIZE
    requires 0 < |Flagged(g, bad, pos)| == g.nroots
    ensures Decoded(Word(g, img, pos, b), g.nroots, Flagged(g, bad, pos)) == Some(c)
    ensures IsCodeword(c, g.nroots) && AgreeOutside(Word(g, img, pos, b), c, Flagged(g, bad, pos))
  {
    hide Word;
    hide FlaggedTo;
    hide Decoded;
    hide RegisterOf;
    hide IsCodeword;
    hide Correctable;
    var w, erased := Word(g, img, pos, b), Flagged(g, bad, pos);
    c := ParityExists(w, g.nroots, erased);
    ErasuresCorrectable(w, c, g.nroots, erased);
    WithinReach(w, c, g.nroots, erased, []);
  }

  lemma FullNeverFails(g: Layout, bad: seq<bool>, img: seq<byte>, pos: nat, b: nat)
    requires ImageFor(g, img) && |bad| == g.totalSectors && pos < g.sectorsPerLayer && b < SECTOR_SIZE
    requires |Flagged(g, bad, pos)| == 0 || |Flagged(g, bad, pos)| >= g.nroots
    ensures !Fails(g, bad, img, pos, b)
  {
    hide Word;
    hide FlaggedTo;
    hide Decoded;
    if 0 < |Flagged(g, bad, pos)| == g.nroots {
      var c := FullDecoded(g, bad, img, pos, b);
    }
  }

  /** The first `n` codewords of a position have vanishing syndromes. */
  ghost predicate Completed(g: Layout, img: seq<byte>, pos: nat, n: nat)
    requires ImageFor(g, img) && pos < g.sectorsPerLayer && n <= SECTOR_SIZE
  {
    forall b :: 0 <= b < n ==> IsCodeword(Word(g, img, pos, b), g.nroots)
  }

  /** Fully loaded positions become codewords. */
  lemma FullCompleted(g: Layout, bad: seq<bool>, img0: seq<byte>, img: seq<byte>, pos: nat)
    requires ImageFor(g, img0) && ImageFor(g, img) && |bad| == g.totalSectors && pos < g.sectorsPerLayer
    requires 0 < |Flagged(g, bad, pos)| == g.nroots
    requires KeepsUnflagged(g, bad, img0, img) && Treated(g, bad, img0, img, pos)
    ensures Completed(g, img, pos, SECTOR_SIZE)
  {
    hide Word;
    hide Cell;
    hide FlaggedTo;
    hide Decoded;
    hide IsCodeword;
    hide Fails;
    hide KeepsUnflagged;
    var erased := Flagged(g, bad, pos);
    forall b | 0 <= b < SECTOR_SIZE
      ensures !Fails(g, bad, img0, pos, b)
    {
      FullNeverFails(g, bad, img0, pos, b);
    }
    forall b | 0 <= b < SECTOR_SIZE
      ensures IsCodeword(Word(g, img, pos, b), g.nroots)
    {
      var c := FullDecoded(g, bad, img0, pos, b);
      assert Written(g, bad, img0, img, pos, b);
      WrittenWord(g, bad, img0, img, pos, b, c);
    }
  }

  /** Flagged symbols as written and the others as they were make up the word the decoder ended with, if that
      agrees outside the flagged layers. */
  lemma WrittenWord(g: Layout, bad: seq<bool>, img0: seq<byte>, img: seq<byte>, pos: nat, b: nat, v: seq<byte>)
    requires ImageFor(g, img0) && ImageFor(g, img) && |bad| == g.totalSectors
    requires pos < g.sectorsPerLayer && b < SECTOR_SIZE && |Flagged(g, bad, pos)| <= g.nroots
    requires KeepsUnflagged(g, bad, img0, img) && Written(g, bad, img0, img, pos, b)
    requires Decoded(Word(g, img0, pos, b), g.nroots, Flagged(g, bad, pos)) == Some(v)
    requires AgreeOutside(Word(g, img0, pos, b), v, Flagged(g, bad, pos))
    ensures Word(g, img, pos, b) == v
  {
    hide Cell;
    hide FlaggedTo;
    hide Decoded;
    hide KeepsUnflagged;
    var erased := Flagged(g, bad, pos);
    forall l | 0 <= l < 255
      ensures Word(g, img, pos, b)[l] == v[l]
    {
      if l in erased {
        var k :| 0 <= k < |erased| && erased[k] == l;
      } else {
        UnflaggedCell(g, bad, img0, img, l, pos, b);
      }
    }
  }

  lemma UnflaggedCell(g: Layout, bad: seq<bool>, before: seq<byte>, after: seq<byte>, l: nat, pos: nat, b: nat)
    requires ImageFor(g, before) && ImageFor(g, after) && |bad| == g.totalSectors
    requires l < 255 && pos < g.sectorsPerLayer && b < SECTOR_SIZE
    requires KeepsUnflagged(g, bad, before, after) && l !in Flagged(g, bad, pos)
    ensures SameCell(g, before, after, l, pos, b)
  {
    hide FlaggedTo;
    hide SectorIndex;
    FlaggedIff(g, bad, pos, 255, l);
    AddrBound(g, l, pos, b);
    SectorIndexBound(g, l, pos);
  }

  // ----- consequences for images that differ only where flagged

  /** Damage confined to flagged sectors, with no position overloaded. */
  ghost predicate FlaggedDamage(g: Layout, bad: seq<bool>, img: seq<byte>, orig: seq<byte>)
    requires Consistent(g) && |bad| == g.totalSectors
  {
    && |img| == |orig| == g.totalSectors * SECTOR_SIZE
    && KeepsUnflagged(g, bad, orig, img)
    && forall pos :: 0 <= pos < g.sectorsPerLayer ==> |Flagged(g, bad, pos)| <= g.nroots
  }

  lemma FlaggedDamageRepairable(g: Layout, bad: seq<bool>, img: seq<byte>, orig: seq<byte>, pos: nat)
    requires Consistent(g) && |bad| == g.totalSectors && FlaggedDamage(g, bad, img, orig) && pos < g.sectorsPerLayer
    ensures Repairable(g, bad, img, orig, pos)
  {
    hide SectorIndex;
    hide FlaggedTo;
    var erased := Flagged(g, bad, pos);
    forall b | 0 <= b < SECTOR_SIZE
      ensures ByteRepairable(g, bad, img, orig, pos, b)
    {
      var w, c := Word(g, img, pos, b), Word(g, orig, pos, b);
      forall l | 0 <= l < 255 && l !in erased
        ensures w[l] == c[l]
      {
        FlaggedIff(g, bad, pos, 255, l);
        AddrBound(g, l, pos, b);
      }
      NoneWrong(w, c, erased, 255);
    }
  }

  lemma {:induction false} NoneWrong(w: seq<byte>, c: seq<byte>, erased: seq<nat>, n: nat)
    requires |w| == |c| == 255 && n <= 255
    requires forall l :: 0 <= l < 255 && l !in erased ==> w[l] == c[l]
    ensures WrongTo(w, c, erased, n) == []
  {
    if n > 0 { NoneWrong(w, c, erased, n - 1); }
  }

  /** If flags cover the damage and no position is overloaded, the whole image comes back. */
  lemma FixRestoresImage(g: Layout, bad: seq<bool>, img0: seq<byte>, img: seq<byte>, orig: seq<byte>)
    requires Consistent(g) && |bad| == g.totalSectors && FlaggedDamage(g, bad, img0, orig)
    requires KeepsUnflagged(g, bad, img0, img) && ImageFor(g, img)
    requires AllRestored(g, bad, img0, img, orig, g.sectorsPerLayer)
    ensures img == orig
    ensures Decided(g, bad, img0, orig) && OverloadedTo(g, bad, g.sectorsPerLayer) == 0
  {
    hide SectorIndex;
    hide FlaggedTo;
    forall pos | 0 <= pos < g.sectorsPerLayer
      ensures Repairable(g, bad, img0, orig, pos)
    {
      FlaggedDamageRepairable(g, bad, img0, orig, pos);
    }
    hide Repairable;
    forall i | 0 <= i < |img|
      ensures img[i] == orig[i]
    {
      var sec, b := i / SECTOR_SIZE, i % SECTOR_SIZE;
      if bad[sec] {
        var layer, pos := SectorIndexOnto(g, sec);
        FlaggedIff(g, bad, pos, 255, layer);
        var k :| 0 <= k < |Flagged(g, bad, pos)| && Flagged(g, bad, pos)[k] == layer;
        assert PositionRestored(g, bad, img, orig, pos);
        assert Restored(g, bad, img, orig, pos, b);
        assert SameCell(g, img, orig, Flagged(g, bad, pos)[k], pos, b);
      }
    }
    NoneOverloaded(g, bad, g.sectorsPerLayer);
  }

  lemma {:induction false} NoneOverloaded(g: Layout, bad: seq<bool>, n: nat)
    requires Consistent(g) && |bad| == g.totalSectors && n <= g.sectorsPerLayer
    requires forall pos :: 0 <= pos < n ==> |Flagged(g, bad, pos)| <= g.nroots
    ensures OverloadedTo(g, bad, n) == 0
  {
    if n > 0 { NoneOverloaded(g, bad, n - 1); }
  }

  // ----- fully loaded positions: the result is a codeword, but whose?

  /** The unflagged layers that are wrong at one byte offset. */
  ghost function WrongAt(g: Layout, bad: seq<bool>, img: seq<byte>, orig: seq<byte>, pos: nat, b: nat): seq<nat>
    requires ImageFor(g, img) && ImageFor(g, orig) && |bad| == g.totalSectors
    requires pos < g.sectorsPerLayer && b < SECTOR_SIZE
  {
    WrongTo(Word(g, img, pos, b), Word(g, orig, pos, b), Flagged(g, bad, pos), 255)
  }

  /** The codewords before and after differ from the original in flagged layers and the wrong unflagged ones only. */
  lemma FullLoadAgree(g: Layout, bad: seq<bool>, img0: seq<byte>, img: seq<byte>, orig: seq<byte>, pos: nat, b: nat)
    requires ImageFor(g, img0) && ImageFor(g, img) && Augmented(g, orig) && |bad| == g.totalSectors
    requires pos < g.sectorsPerLayer && b < SECTOR_SIZE && KeepsUnflagged(g, bad, img0, img)
    ensures IsCodeword(Word(g, orig, pos, b), g.nroots) && Positions(WrongAt(g, bad, img0, orig, pos, b), 255)
    ensures var u := WrongAt(g, bad, img0, orig, pos, b);
      && AgreeOutside(Word(g, img, pos, b), Word(g, orig, pos, b), Flagged(g, bad, pos) + u)
      && forall k :: 0 <= k < |u| ==> Word(g, img, pos, b)[u[k]] != Word(g, orig, pos, b)[u[k]]
  {
    hide IsCodeword;
    hide FlaggedTo;
    hide WrongTo;
    var erased, u := Flagged(g, bad, pos), WrongAt(g, bad, img0, orig, pos, b);
    forall l | 0 <= l < 255 && l !in erased
      ensures Word(g, img, pos, b)[l] == Word(g, img0, pos, b)[l]
    {
      UnflaggedCell(g, bad, img0, img, l, pos, b);
    }
    forall l | 0 <= l < 255 && l !in erased + u
      ensures Word(g, img, pos, b)[l] == Word(g, orig, pos, b)[l]
    {
      assert l !in erased && l !in u;
    }
  }

  lemma RestoredWord(g: Layout, bad: seq<bool>, img: seq<byte>, orig: seq<byte>, pos: nat, b: nat)
    requires ImageFor(g, img) && ImageFor(g, orig) && |bad| == g.totalSectors
    requires pos < g.sectorsPerLayer && b < SECTOR_SIZE
    ensures Restored(g, bad, img, orig, pos, b) <==> var erased := Flagged(g, bad, pos);
      forall k :: 0 <= k < |erased| ==> Word(g, img, pos, b)[erased[k]] == Word(g, orig, pos, b)[erased[k]]
  {
    hide Cell;
    hide FlaggedTo;
    var erased := Flagged(g, bad, pos);
    forall k | 0 <= k < |erased|
      ensures SameCell(g, img, orig, erased[k], pos, b)
        <==> Word(g, img, pos, b)[erased[k]] == Word(g, orig, pos, b)[erased[k]]
    {
    }
  }

  /** At a fully loaded position whose unflagged layers are wrong in at most nroots places, the flagged bytes
      come back exactly when none of them is wrong; if exactly one is, every flagged byte comes back wrong. */
  lemma FullLoadExact(g: Layout, bad: seq<bool>, img0: seq<byte>, img: seq<byte>, orig: seq<byte>, rc: int,
                      pos: nat, b: nat)
    requires ImageFor(g, img0) && ImageFor(g, img) && Augmented(g, orig) && |bad| == g.totalSectors
    requires pos < g.sectorsPerLayer && b < SECTOR_SIZE && |Flagged(g, bad, pos)| == g.nroots
    requires Outcome(g, bad, img0, img, rc)
    ensures var u := WrongAt(g, bad, img0, orig, pos, b);
      |u| <= g.nroots ==> (Restored(g, bad, img, orig, pos, b) <==> u == [])
    ensures var u, erased := WrongAt(g, bad, img0, orig, pos, b), Flagged(g, bad, pos);
      |u| == 1 ==> forall k :: 0 <= k < |erased| ==> !SameCell(g, img, orig, erased[k], pos, b)
  {
    hide IsCodeword;
    hide Cell;
    hide Word;
    hide FlaggedTo;
    hide WrongTo;
    hide KeepsUnflagged;
    var erased, u := Flagged(g, bad, pos), WrongAt(g, bad, img0, orig, pos, b);
    var c, d := Word(g, img, pos, b), Word(g, orig, pos, b);
    FullLoadAgree(g, bad, img0, img, orig, pos, b);
    FullCompleted(g, bad, img0, img, pos);
    RestoredWord(g, bad, img, orig, pos, b);
    if u == [] {
      assert erased + u == erased;
      CodewordUnique(c, d, g.nroots, erased);
    } else if |u| <= g.nroots {
      assert c[u[0]] != d[u[0]];
      WrongInside(c, d, g.nroots, erased, u);
    }
    if |u| == 1 {
      OneWrong(g, bad, img0, img, orig, pos, b);
    }
  }

  lemma OneWrong(g: Layout, bad: seq<bool>, img0: seq<byte>, img: seq<byte>, orig: seq<byte>, pos: nat, b: nat)
    requires ImageFor(g, img0) && ImageFor(g, img) && Augmented(g, orig) && |bad| == g.totalSectors
    requires pos < g.sectorsPerLayer && b < SECTOR_SIZE && |Flagged(g, bad, pos)| == g.nroots
    requires KeepsUnflagged(g, bad, img0, img) && Completed(g, img, pos, SECTOR_SIZE)
    requires |WrongAt(g, bad, img0, orig, pos, b)| == 1
    ensures var erased := Flagged(g, bad, pos);
      forall k :: 0 <= k < |erased| ==> !SameCell(g, img, orig, erased[k], pos, b)
  {
    hide IsCodeword;
    hide FlaggedTo;
    hide WrongTo;
    hide Cell;
    hide Word;
    hide KeepsUnflagged;
    hide Augmented;
    AugmentedImage(g, orig);
    var erased, u := Flagged(g, bad, pos), WrongAt(g, bad, img0, orig, pos, b);
    var c, d := Word(g, img, pos, b), Word(g, orig, pos, b);
    FullLoadAgree(g, bad, img0, img, orig, pos, b);
    assert u == [u[0]];
    forall k | 0 <= k < |erased|
      ensures !SameCell(g, img, orig, erased[k], pos, b)
    {
      WrongEverywhere(c, d, g.nroots, erased, u[0], k);
      WordCell(g, img, pos, b, erased[k]);
      WordCell(g, orig, pos, b, erased[k]);
    }
  }
}
