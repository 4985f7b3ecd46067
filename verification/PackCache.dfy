/** Pack cache: copying packs from a disc under a temporary name, and draining whole discs. */
module PackCache {
  import opened Bits

  type Name = string

  /** Pack files by name; discs agree on what a name holds. */
  type Packs = map<Name, seq<byte>>

  function PartOf(n: Name): Name
  {
    n + ".part"
  }

  /** No pack is named like the temporary copy of another. */
  ghost predicate PartsApart(packs: Packs)
  {
    forall n :: n in packs ==> PartOf(n) !in packs
  }

  /** Whatever stands under a pack's own name is the whole pack. */
  ghost predicate Whole(packs: Packs, files: Packs)
  {
    forall n :: n in packs && n in files ==> files[n] == packs[n]
  }

  /** The cache is still whole with the first `k` bytes of a pack under its temporary name. */
  ghost predicate PartHarmless(packs: Packs, files: Packs, n: Name, k: nat)
    requires n in packs && k <= |packs[n]|
  {
    Whole(packs, files[PartOf(n) := packs[n][..k]])
  }

  /** A copy in progress does no harm exactly when no other pack has its temporary name, or both are empty. */
  lemma PartSafeExactly(packs: Packs, files: Packs, n: Name)
    requires n in packs && Whole(packs, files)
    ensures (forall k :: 0 <= k <= |packs[n]| ==> PartHarmless(packs, files, n, k))
            <==> PartOf(n) !in packs || (packs[n] == [] && packs[PartOf(n)] == [])
  {
    var p := PartOf(n);
    if p in packs && !(packs[n] == [] && packs[p] == []) {
      var k := if packs[p] == [] then |packs[n]| else 0;
      assert files[p := packs[n][..k]][p] != packs[p];
      assert !PartHarmless(packs, files, n, k);
    }
  }

  // ----- what the cache still lacks

  /** How many of the listed packs the cache lacks, and their bytes. */
  function Lacking(packs: Packs, listing: seq<Name>, files: Packs): nat
  {
    if |listing| == 0 then 0 else
      var n := listing[|listing| - 1];
      Lacking(packs, listing[..|listing| - 1], files) + if n in files then 0 else 1
  }

  function Left(packs: Packs, listing: seq<Name>, files: Packs): nat
    requires forall n <- listing :: n in packs
  {
    if |listing| == 0 then 0 else
      var n := listing[|listing| - 1];
      Left(packs, listing[..|listing| - 1], files) + if n in files then 0 else |packs[n]|
  }

  ghost predicate IsListing(packs: Packs, listing: seq<Name>)
  {
    && (forall n <- listing :: n in packs)
    && forall i, j :: 0 <= i < j < |listing| ==> listing[i] != listing[j]
  }

  /** The caches agree about the listed packs. */
  ghost predicate SameOn(listing: seq<Name>, f: Packs, g: Packs)
  {
    forall n <- listing :: n in f <==> n in g
  }

  lemma {:induction false} LackingSame(packs: Packs, listing: seq<Name>, f: Packs, g: Packs)
    requires SameOn(listing, f, g) && forall n <- listing :: n in packs
    ensures Lacking(packs, listing, f) == Lacking(packs, listing, g)
    ensures Left(packs, listing, f) == Left(packs, listing, g)
  {
    if |listing| > 0 {
      assert listing[|listing| - 1] in listing;
      LackingSame(packs, listing[..|listing| - 1], f, g);
    }
  }

  /** Caching one more listed pack takes exactly it off what is lacking. */
  lemma {:induction false} LackingOne(packs: Packs, listing: seq<Name>, f: Packs, g: Packs, k: nat)
    requires IsListing(packs, listing) && k < |listing| && listing[k] !in f && listing[k] in g
    requires forall i :: 0 <= i < |listing| && i != k ==> (listing[i] in f <==> listing[i] in g)
    ensures Lacking(packs, listing, f) == Lacking(packs, listing, g) + 1
    ensures Left(packs, listing, f) == Left(packs, listing, g) + |packs[listing[k]]|
  {
    var n := |listing| - 1;
    if k < n {
      LackingOne(packs, listing[..n], f, g, k);
    } else {
      LackingSame(packs, listing[..n], f, g);
    }
  }

  /** Bytes lacking mean packs lacking. */
  lemma {:induction false} LeftLacking(packs: Packs, listing: seq<Name>, files: Packs)
    requires IsListing(packs, listing)
    ensures Left(packs, listing, files) > 0 ==> Lacking(packs, listing, files) > 0
  {
    if |listing| > 0 {
      LeftLacking(packs, listing[..|listing| - 1], files);
    }
  }

  // ----- the cache directory

  /** The cache directory; `trail` records every state of it, a crash being possible after any. `fails` says which
      of the requests to the devices fail, counted by `asked`. */
  class Cache {
    var files: Packs
    ghost var trail: seq<Packs>
    const fails: nat -> bool
    var asked: nat

    /** No request from number `start` on has failed. */
    ghost predicate FineSince(start: nat)
      reads this`asked
    {
      start <= asked && forall k :: start <= k < asked ==> !fails(k)
    }

    method Ask() returns (ok: bool)
      modifies this`asked
      ensures asked == old(asked) + 1 && ok == !fails(old(asked))
      ensures forall start :: 0 <= start <= old(asked) ==> (FineSince(start) <==> old(FineSince(start)) && ok)
    {
      ok := !fails(asked);
      asked := asked + 1;
    }

    ghost predicate AlwaysWhole(packs: Packs)
      reads this`files, this`trail
    {
      && |trail| > 0 && trail[|trail| - 1] == files
      && forall i :: 0 <= i < |trail| ==> Whole(packs, trail[i])
    }

    constructor (device: nat -> bool)
      ensures files == map[] && trail == [map[]] && fails == device
    {
      fails := device;
      asked := 0;
      files := map[];
      trail := [map[]];
    }

    /** A new run over the directory a killed one left behind. */
    constructor Resume(ghost packs: Packs, left: Packs, device: nat -> bool)
      requires Whole(packs, left)
      ensures files == left && AlwaysWhole(packs) && fails == device
    {
      fails := device;
      asked := 0;
      files := left;
      trail := [left];
    }

    /** Copies a pack: reading, writing and renaming may fail at any point, and the copy fails only with them.
        Only a finished copy gets its proper name. */
    method CopyFile(ghost packs: Packs, dst: Name, content: seq<byte>) returns (ok: bool)
      requires PartsApart(packs) && AlwaysWhole(packs) && dst in packs && packs[dst] == content
      modifies this
      ensures AlwaysWhole(packs) && old(trail) <= trail
      ensures old(asked) <= asked && (ok <==> FineSince(old(asked)))
      ensures ok ==> dst in files
      ensures forall n :: n in packs && (n != dst || !ok) ==> (n in files <==> n in old(files))
    {
      ghost var start := asked;
      assert FineSince(start);
      hide FineSince;
      ok := Ask();
      if !ok {
        return;
      }
      SetPart(packs, dst, []);
      ok := FillPart(packs, dst, content, start);
      if ok {
        ok := Ask();
        }
      if ok {
        Promote(packs, dst);
      } else {
        DropPart(packs, dst);
      }
    }

    method FillPart(ghost packs: Packs, dst: Name, content: seq<byte>, ghost start: nat) returns (ok: bool)
      requires PartsApart(packs) && AlwaysWhole(packs) && dst in packs && FineSince(start)
      requires start <= asked && PartOf(dst) in files && files[PartOf(dst)] == []
      modifies this
      ensures AlwaysWhole(packs) && old(trail) <= trail && old(asked) <= asked && (ok <==> FineSince(start))
      ensures PartOf(dst) in files && files == old(files)[PartOf(dst) := files[PartOf(dst)]]
      ensures ok ==> files[PartOf(dst)] == content
    {
      hide FineSince;
      hide AlwaysWhole;
      var done := 0;
      assert files == files[PartOf(dst) := content[..0]];
      while done < |content|
        invariant done <= |content| && AlwaysWhole(packs) && old(trail) <= trail
        invariant files == old(files)[PartOf(dst) := content[..done]]
        invariant FineSince(start) && start <= old(asked) <= asked
      {
        ok := Ask();
        if !ok {
          return;
        }
        var k :| 1 <= k <= |content| - done;
        done := done + k;
        SetPart(packs, dst, content[..done]);
      }
      assert content[..done] == content;
      return true;
    }

    /** Gives the finished copy its proper name. */
    method Promote(ghost packs: Packs, dst: Name)
      requires PartsApart(packs) && AlwaysWhole(packs) && dst in packs
      requires PartOf(dst) in files && files[PartOf(dst)] == packs[dst]
      modifies this`files, this`trail
      ensures AlwaysWhole(packs) && trail == old(trail) + [files]
      ensures files == (old(files) - {PartOf(dst)})[dst := packs[dst]]
    {
      files := (files - {PartOf(dst)})[dst := files[PartOf(dst)]];
      trail := trail + [files];
    }

    method DropPart(ghost packs: Packs, dst: Name)
      requires AlwaysWhole(packs)
      modifies this`files, this`trail
      ensures AlwaysWhole(packs) && trail == old(trail) + [files] && files == old(files) - {PartOf(dst)}
    {
      files := files - {PartOf(dst)};
      trail := trail + [files];
    }

    /** Creates, truncates or extends the temporary copy of `dst`. */
    method SetPart(ghost packs: Packs, dst: Name, d: seq<byte>)
      requires PartsApart(packs) && AlwaysWhole(packs) && dst in packs
      modifies this`files, this`trail
      ensures AlwaysWhole(packs) && trail == old(trail) + [files] && files == old(files)[PartOf(dst) := d]
    {
      files := files[PartOf(dst) := d];
      trail := trail + [files];
    }

    /** Adds up the bytes of the listed packs that are not cached. */
    method Measure(packs: Packs, listing: seq<Name>) returns (total: nat)
      requires IsListing(packs, listing)
      ensures total == Left(packs, listing, files)
    {
      total := 0;
      for i := 0 to |listing|
        invariant total == Left(packs, listing[..i], files)
      {
        assert listing[..i + 1][..i] == listing[..i];
        if listing[i] !in files {
          total := total + |packs[listing[i]]|;
        }
      }
      assert listing[..|listing|] == listing;
    }

    /** Copies listed packs that are not cached, at most `limit` of them if that is positive. Every copy
        takes one pack off what is lacking, and bytes done plus bytes left stay the same. */
    method Walk(packs: Packs, listing: seq<Name>, limit: int) returns (copied: nat, done: nat, failures: nat)
      requires IsListing(packs, listing) && PartsApart(packs) && AlwaysWhole(packs)
      modifies this
      ensures AlwaysWhole(packs) && old(trail) <= trail
      ensures forall n :: n in packs && n in old(files) ==> n in files
      ensures copied + Lacking(packs, listing, files) == Lacking(packs, listing, old(files))
      ensures done + Left(packs, listing, files) == Left(packs, listing, old(files))
      ensures limit > 0 ==> copied <= limit
      ensures old(asked) <= asked && (failures == 0 <==> FineSince(old(asked)))
      ensures failures == 0 ==> Lacking(packs, listing, files) == 0 || (limit > 0 && copied == limit)
    {
      copied, done, failures := 0, 0, 0;
      for i := 0 to |listing|
        invariant AlwaysWhole(packs) && old(trail) <= trail
        invariant forall n :: n in packs && n in old(files) ==> n in files
        invariant copied + Lacking(packs, listing, files) == Lacking(packs, listing, old(files))
        invariant done + Left(packs, listing, files) == Left(packs, listing, old(files))
        invariant limit > 0 ==> copied < limit
        invariant old(asked) <= asked && (failures == 0 <==> FineSince(old(asked)))
        invariant failures == 0 ==> forall k :: 0 <= k < i ==> listing[k] in files
      {
        if listing[i] in files {
          continue;
        }
        ghost var before, start := files, asked;
        var ok := CopyFile(packs, listing[i], packs[listing[i]]);
        if ok {
          LackingOne(packs, listing, before, files, i);
          copied := copied + 1;
          done := done + |packs[listing[i]]|;
          if limit > 0 && copied >= limit {
            return;
          }
        } else {
          LackingSame(packs, listing, before, files);
          failures := failures + 1;
        }
      }
      if failures == 0 {
        NoneLacking(packs, listing, files);
      }
    }

    /** Drains a disc: does nothing when no bytes are lacking; otherwise, unless a copy fails, strictly
        reduces what is lacking. */
    method DrainDisc(packs: Packs, listing: seq<Name>, limit: int) returns (done: nat, total: nat, failures: nat)
      requires IsListing(packs, listing) && PartsApart(packs) && AlwaysWhole(packs)
      modifies this
      ensures AlwaysWhole(packs) && old(trail) <= trail
      ensures forall n :: n in packs && n in old(files) ==> n in files
      ensures old(asked) <= asked && (failures == 0 <==> FineSince(old(asked)))
      ensures total == Left(packs, listing, old(files)) == done + Left(packs, listing, files)
      ensures failures == 0 ==>
        (Lacking(packs, listing, files) < Lacking(packs, listing, old(files)) <==> Left(packs, listing, old(files)) > 0)
      ensures failures == 0 && limit <= 0 && total > 0 ==> Lacking(packs, listing, files) == 0
    {
      done, failures := 0, 0;
      total := Measure(packs, listing);
      if total == 0 {
        return;
      }
      LeftLacking(packs, listing, files);
      var copied: nat;
      copied, done, failures := Walk(packs, listing, limit);
    }
  }

  lemma {:induction false} NoneLacking(packs: Packs, listing: seq<Name>, files: Packs)
    requires forall k :: 0 <= k < |listing| ==> listing[k] in files
    ensures Lacking(packs, listing, files) == 0
  {
    if |listing| > 0 {
      NoneLacking(packs, listing[..|listing| - 1], files);
    }
  }
}
