/** The blob index: loaded in two passes over the index files, sorted, then searched by halves. */
module BlobIndex {
  import opened Options
  import opened Bits
  import JsonDecode

  type Id = s: seq<byte> | |s| == 32 witness seq(32, _ => 0)

  datatype Loc = Loc(id: Id, pack: Id, offset: int, length: int, tree: bool, uncompressed: int)

  // ----- the order of ids

  /** The sign of memcmp. */
  function Compare(a: seq<byte>, b: seq<byte>): (c: int)
    requires |a| == |b|
    ensures -1 <= c <= 1
  {
    if |a| == 0 then 0 else if a[0] < b[0] then -1 else if a[0] > b[0] then 1 else Compare(a[1..], b[1..])
  }

  lemma {:induction false} CompareEqual(a: seq<byte>, b: seq<byte>)
    requires |a| == |b|
    ensures Compare(a, b) == 0 <==> a == b
    ensures Compare(b, a) == -Compare(a, b)
  {
    if |a| > 0 {
      CompareEqual(a[1..], b[1..]);
      assert a == [a[0]] + a[1..] && b == [b[0]] + b[1..];
    }
  }

  lemma {:induction false} CompareTransitive(a: seq<byte>, b: seq<byte>, c: seq<byte>)
    requires |a| == |b| == |c| && Compare(a, b) <= 0 && Compare(b, c) <= 0
    ensures Compare(a, c) <= 0
    ensures Compare(a, b) < 0 || Compare(b, c) < 0 ==> Compare(a, c) < 0
  {
    if |a| > 0 && a[0] == b[0] == c[0] {
      CompareTransitive(a[1..], b[1..], c[1..]);
    }
  }

  ghost predicate Sorted(s: seq<Loc>)
  {
    forall i, j :: 0 <= i < j < |s| ==> Compare(s[i].id, s[j].id) <= 0
  }

  ghost predicate Mentions(s: seq<Loc>, id: Id)
  {
    exists e <- s :: e.id == id
  }

  // ----- sorting and searching

  /** Places `e` into a sorted sequence. */
  method Insert(s: seq<Loc>, e: Loc) returns (r: seq<Loc>)
    requires Sorted(s)
    ensures Sorted(r) && multiset(r) == multiset(s) + multiset{e}
  {
    hide Compare;
    hide Sorted;
    var k: nat := |s|;
    while k > 0 && Compare(e.id, s[k - 1].id) < 0
      invariant 0 <= k <= |s| && forall i :: k <= i < |s| ==> Compare(e.id, s[i].id) <= 0
    {
      k := k - 1;
    }
    r := s[..k] + [e] + s[k..];
    InsertMembers(s, e, k);
    InsertSorted(s, e, k);
  }

  lemma InsertMembers(s: seq<Loc>, e: Loc, k: nat)
    requires k <= |s|
    ensures multiset(s[..k] + [e] + s[k..]) == multiset(s) + multiset{e}
  {
    assert s == s[..k] + s[k..];
  }

  lemma InsertSorted(s: seq<Loc>, e: Loc, k: nat)
    requires Sorted(s) && k <= |s| && forall i :: k <= i < |s| ==> Compare(e.id, s[i].id) <= 0
    requires k > 0 ==> Compare(e.id, s[k - 1].id) >= 0
    ensures Sorted(s[..k] + [e] + s[k..])
  {
    hide Compare;
    var r := s[..k] + [e] + s[k..];
    forall i | 0 <= i < k
      ensures Compare(s[i].id, e.id) <= 0
    {
      CompareEqual(e.id, s[k - 1].id);
      if i < k - 1 {
        CompareTransitive(s[i].id, s[k - 1].id, e.id);
      }
    }
    forall i, j | 0 <= i < j < |r|
      ensures Compare(r[i].id, r[j].id) <= 0
    {
      var i', j' := if i < k then i else i - 1, if j < k then j else j - 1;
      assert i != k ==> r[i] == s[i'];
      assert j != k ==> r[j] == s[j'];
    }
  }

  class Index {
    var entries: seq<Loc>

    constructor ()
      ensures entries == []
    {
      entries := [];
    }

    method Push(e: Loc)
      modifies this
      ensures entries == old(entries) + [e]
    {
      entries := entries + [e];
    }

    /** Sorts by id, keeping every entry. */
    method Sort()
      modifies this
      ensures Sorted(entries) && multiset(entries) == multiset(old(entries))
    {
      var r: seq<Loc> := [];
      for i := 0 to |entries|
        invariant entries == old(entries) && Sorted(r) && multiset(r) == multiset(entries[..i])
      {
        assert entries[..i + 1] == entries[..i] + [entries[i]];
        r := Insert(r, entries[i]);
      }
      assert entries[..|entries|] == entries;
      entries := r;
    }

    /** Finds an entry by halving: one with the id, if and only if there is one. */
    method Find(id: Id) returns (r: Option<Loc>)
      requires Sorted(entries)
      ensures r.Some? <==> Mentions(entries, id)
      ensures r.Some? ==> r.value in entries && r.value.id == id
    {
      var lo, hi := 0, |entries|;
      while lo < hi
        invariant lo <= hi <= |entries|
        invariant forall i :: 0 <= i < |entries| && entries[i].id == id ==> lo <= i < hi
      {
        var mid := lo + (hi - lo) / 2;
        var c := Compare(id, entries[mid].id);
        CompareEqual(id, entries[mid].id);
        if c == 0 {
          assert entries[mid] in entries;
          return Some(entries[mid]);
        }
        forall i | 0 <= i < |entries| && entries[i].id == id
          ensures if c < 0 then i < mid else mid < i
        {
          CompareEqual(entries[mid].id, id);
        }
        if c < 0 {
          hi := mid;
        } else {
          lo := mid + 1;
        }
      }
      return None;
    }
  }

  // ----- index files

  const BlobLenMax: int := 512 * 1024 * 1024
  const MaxIndexFiles: nat := 1000000
  const MaxSupersedes: nat := 8192

  /** One blob of a pack, its fields as far as they decode. */
  datatype BlobDesc = BlobDesc(id: Option<Id>, offset: Option<int>, length: Option<int>, tree: Option<bool>,
                               uncompressed: int)

  datatype PackDesc = PackDesc(id: Option<Id>, blobs: seq<BlobDesc>)

  /** What a file of the index directory decrypts to: nothing (skipped), something this reader must not
      half-load, or a document. */
  datatype Decoded = Unreadable | Unusable | Doc(supersedes: seq<string>, packs: seq<PackDesc>)

  datatype IndexFile = IndexFile(name: string, decoded: Decoded)

  /** An entry that can be read: from 1 byte to 512 MiB, at an offset from 0, ending within a signed long. */
  predicate InRange(e: Loc)
  {
    0 <= e.offset && 1 <= e.length <= BlobLenMax && e.offset + e.length <= JsonDecode.MaxLong
  }

  /** A blob's description names an entry field by field. */
  predicate Names(b: BlobDesc, e: Loc)
  {
    && b.id == Some(e.id) && b.offset == Some(e.offset) && b.length == Some(e.length)
    && b.tree == Some(e.tree) && b.uncompressed == e.uncompressed
  }

  /** The entry a blob description yields, if its numbers are in range. */
  function Entry(pack: Id, b: BlobDesc): (r: Option<Loc>)
    ensures forall e :: r == Some(e) <==> e.pack == pack && Names(b, e) && InRange(e)
  {
    if b.id.None? || b.offset.None? || b.length.None? || b.tree.None? then None
    else if b.offset.value < 0 || b.length.value <= 0 || b.length.value > BlobLenMax
         || b.offset.value > JsonDecode.MaxLong - b.length.value then None
    else Some(Loc(b.id.value, pack, b.offset.value, b.length.value, b.tree.value, b.uncompressed))
  }

  predicate Eligible(name: string)
  {
    |name| <= 64 && !(|name| > 0 && name[0] == '.')
  }

  function Listed(dir: seq<IndexFile>): (r: seq<IndexFile>)
    ensures forall f :: f in r <==> f in dir && Eligible(f.name)
  {
    if |dir| == 0 then [] else
      var r := Listed(dir[..|dir| - 1]);
      assert dir == dir[..|dir| - 1] + [dir[|dir| - 1]];
      if Eligible(dir[|dir| - 1].name) then r + [dir[|dir| - 1]] else r
  }

  /** The names a document supersedes; longer strings are no file names and are passed over. */
  function SupersededBy(d: Decoded): seq<string>
  {
    if d.Doc? then Short(d.supersedes) else []
  }

  function Short(names: seq<string>): (r: seq<string>)
    ensures forall n :: n in r <==> n in names && |n| <= 64
  {
    if |names| == 0 then [] else
      var n := names[|names| - 1];
      assert names == names[..|names| - 1] + [n];
      if |n| <= 64 then Short(names[..|names| - 1]) + [n] else Short(names[..|names| - 1])
  }

  function AllSuperseded(files: seq<IndexFile>): (r: seq<string>)
    ensures forall n :: n in r <==> exists f :: f in files && n in SupersededBy(f.decoded)
  {
    if |files| == 0 then [] else
      var m := |files| - 1;
      assert files == files[..m] + [files[m]];
      AllSuperseded(files[..m]) + SupersededBy(files[m].decoded)
  }

  /** An index file that counts: authenticated, and no authenticated file supersedes it. */
  ghost predicate Live(dir: seq<IndexFile>, f: IndexFile)
  {
    && f in dir && Eligible(f.name) && f.decoded.Doc?
    && !exists g :: g in dir && Eligible(g.name) && f.name in SupersededBy(g.decoded)
  }

  /** The description of an entry in a document: a pack with its pack id, a blob with its fields, in range. */
  ghost predicate Holds(d: Decoded, e: Loc)
  {
    d.Doc? && InRange(e) && exists p, b :: p in d.packs && p.id == Some(e.pack) && b in p.blobs && Names(b, e)
  }

  /** An entry some live index file describes. */
  ghost predicate Described(dir: seq<IndexFile>, e: Loc)
  {
    exists f :: Live(dir, f) && Holds(f.decoded, e)
  }

  /** The directory is small enough, and every file in it is a document or skipped. */
  ghost predicate Loadable(dir: seq<IndexFile>)
  {
    && |Listed(dir)| <= MaxIndexFiles
    && (forall f :: f in dir && Eligible(f.name) ==> !f.decoded.Unusable?)
    && |AllSuperseded(Listed(dir))| <= MaxSupersedes
  }

  // ----- loading

  method ListFiles(dir: seq<IndexFile>) returns (r: Option<seq<IndexFile>>)
    ensures r == if |Listed(dir)| <= MaxIndexFiles then Some(Listed(dir)) else None
  {
    var files: seq<IndexFile> := [];
    for i := 0 to |dir|
      invariant files == Listed(dir[..i]) && |files| <= MaxIndexFiles
    {
      assert dir[..i + 1][..i] == dir[..i];
      ListedGrows(dir, i + 1);
      if !Eligible(dir[i].name) {
        continue;
      }
      if |files| >= MaxIndexFiles {
        return None;
      }
      files := files + [dir[i]];
    }
    assert dir[..|dir|] == dir;
    return Some(files);
  }

  lemma {:induction false} ListedGrows(dir: seq<IndexFile>, n: nat)
    requires n <= |dir|
    ensures |Listed(dir[..n])| <= |Listed(dir)|
  {
    if n == |dir| {
      assert dir[..n] == dir;
    } else {
      ListedGrows(dir[..|dir| - 1], n);
      assert dir[..|dir| - 1][..n] == dir[..n];
    }
  }

  lemma {:induction false} SupersededGrows(files: seq<IndexFile>, n: nat)
    requires n <= |files|
    ensures |AllSuperseded(files[..n])| <= |AllSuperseded(files)|
  {
    if n == |files| {
      assert files[..n] == files;
    } else {
      SupersededGrows(files[..|files| - 1], n);
      assert files[..|files| - 1][..n] == files[..n];
    }
  }

  /** Adds the superseded names of one document, as long as there is room. */
  method AddSupersedes(all: seq<string>, names: seq<string>) returns (r: Option<seq<string>>)
    requires |all| <= MaxSupersedes
    ensures r == if |all| + |Short(names)| <= MaxSupersedes then Some(all + Short(names)) else None
  {
    var now := all;
    for k := 0 to |names|
      invariant now == all + Short(names[..k]) && |now| <= MaxSupersedes
    {
      assert names[..k + 1][..k] == names[..k];
      ShortGrows(names, k + 1);
      if |names[k]| <= 64 {
        if |now| >= MaxSupersedes {
          return None;
        }
        now := now + [names[k]];
      }
    }
    assert names[..|names|] == names;
    return Some(now);
  }

  lemma SupersededNext(files: seq<IndexFile>, i: nat)
    requires i < |files|
    ensures AllSuperseded(files[..i + 1]) == AllSuperseded(files[..i]) + SupersededBy(files[i].decoded)
    ensures |AllSuperseded(files[..i + 1])| <= |AllSuperseded(files)|
  {
    assert files[..i + 1][..i] == files[..i];
    SupersededGrows(files, i + 1);
  }

  /** Pass 1: collects the superseded names of all files, superseded or not. */
  method CollectSupersedes(files: seq<IndexFile>) returns (r: Option<seq<string>>)
    ensures r.Some? <==> (forall f <- files :: !f.decoded.Unusable?) && |AllSuperseded(files)| <= MaxSupersedes
    ensures r.Some? ==> r.value == AllSuperseded(files)
  {
    hide AllSuperseded;
    hide Short;
    var all: seq<string> := [];
    NoneSuperseded();
    assert files[..0] == [];
    for i := 0 to |files|
      invariant all == AllSuperseded(files[..i]) && |all| <= MaxSupersedes
      invariant forall k :: 0 <= k < i ==> !files[k].decoded.Unusable?
    {
      var d := files[i].decoded;
      SupersededNext(files, i);
      if d.Unusable? {
        assert files[i] in files;
        return None;
      }
      if d.Unreadable? {
        continue;
      }
      var more := AddSupersedes(all, d.supersedes);
      if more.None? {
        return None;
      }
      all := more.value;
    }
    assert files[..|files|] == files;
    return Some(all);
  }

  lemma NoneSuperseded()
    ensures AllSuperseded([]) == []
  {
  }

  lemma {:induction false} ShortGrows(names: seq<string>, n: nat)
    requires n <= |names|
    ensures |Short(names[..n])| <= |Short(names)|
  {
    if n == |names| {
      assert names[..n] == names;
    } else {
      ShortGrows(names[..|names| - 1], n);
      assert names[..|names| - 1][..n] == names[..n];
    }
  }

  // ----- pass 2

  /** The valid entries of a pack, in order. */
  function PackEntries(pack: Id, blobs: seq<BlobDesc>): (r: seq<Loc>)
    ensures forall e :: e in r <==> exists b :: b in blobs && Entry(pack, b) == Some(e)
  {
    if |blobs| == 0 then [] else
      var m := |blobs| - 1;
      assert blobs == blobs[..m] + [blobs[m]];
      var e := Entry(pack, blobs[m]);
      PackEntries(pack, blobs[..m]) + if e.Some? then [e.value] else []
  }

  function EntriesOf(packs: seq<PackDesc>): (r: seq<Loc>)
    ensures forall e :: e in r <==> exists p :: p in packs && p.id.Some? && e in PackEntries(p.id.value, p.blobs)
  {
    if |packs| == 0 then [] else
      var m := |packs| - 1;
      assert packs == packs[..m] + [packs[m]];
      EntriesOf(packs[..m]) + if packs[m].id.Some? then PackEntries(packs[m].id.value, packs[m].blobs) else []
  }

  predicate Counts(superseded: seq<string>, f: IndexFile)
  {
    f.decoded.Doc? && f.name !in superseded
  }

  function LiveEntries(files: seq<IndexFile>, superseded: seq<string>): (r: seq<Loc>)
    ensures forall e :: e in r <==> exists f :: f in files && Counts(superseded, f) && e in EntriesOf(f.decoded.packs)
  {
    if |files| == 0 then [] else
      var m := |files| - 1;
      assert files == files[..m] + [files[m]];
      LiveEntries(files[..m], superseded)
      + if Counts(superseded, files[m]) then EntriesOf(files[m].decoded.packs) else []
  }

  method AddPack(ix: Index, pack: Id, blobs: seq<BlobDesc>)
    modifies ix
    ensures ix.entries == old(ix.entries) + PackEntries(pack, blobs)
  {
    for k := 0 to |blobs|
      invariant ix.entries == old(ix.entries) + PackEntries(pack, blobs[..k])
    {
      assert blobs[..k + 1][..k] == blobs[..k];
      var e := Entry(pack, blobs[k]);
      if e.Some? {
        ix.Push(e.value);
      }
    }
    assert blobs[..|blobs|] == blobs;
  }

  method AddFile(ix: Index, packs: seq<PackDesc>)
    modifies ix
    ensures ix.entries == old(ix.entries) + EntriesOf(packs)
  {
    hide PackEntries;
    for k := 0 to |packs|
      invariant ix.entries == old(ix.entries) + EntriesOf(packs[..k])
    {
      assert packs[..k + 1][..k] == packs[..k];
      if packs[k].id.Some? {
        AddPack(ix, packs[k].id.value, packs[k].blobs);
      }
    }
    assert packs[..|packs|] == packs;
  }

  /** Loads the index directory: fails exactly on a directory that is not loadable, and otherwise holds,
      sorted, exactly the entries that live index files describe. */
  method LoadIndex(dir: seq<IndexFile>) returns (ok: bool, ix: Index)
    ensures ok <==> Loadable(dir)
    ensures ok ==> Sorted(ix.entries) && forall e :: e in ix.entries <==> Described(dir, e)
  {
    hide Listed;
    hide AllSuperseded;
    hide EntriesOf;
    hide LiveEntries;
    hide Compare;
    hide SupersededBy;
    ix := new Index();
    var listed := ListFiles(dir);
    if listed.None? {
      return false, ix;
    }
    var files := listed.value;
    var superseded := CollectSupersedes(files);
    if superseded.None? {
      return false, ix;
    }
    LoadFiles(ix, files, superseded.value);
    ghost var loaded := ix.entries;
    ix.Sort();
    forall e
      ensures e in ix.entries <==> Described(dir, e)
    {
      assert e in ix.entries <==> multiset(ix.entries)[e] > 0;
      assert e in loaded <==> multiset(loaded)[e] > 0;
      EntryLive(dir, e);
    }
    return true, ix;
  }

  method LoadFiles(ix: Index, files: seq<IndexFile>, superseded: seq<string>)
    requires ix.entries == [] && forall f <- files :: !f.decoded.Unusable?
    modifies ix
    ensures ix.entries == LiveEntries(files, superseded)
  {
    hide EntriesOf;
    for i := 0 to |files|
      invariant ix.entries == LiveEntries(files[..i], superseded)
    {
      assert files[..i + 1][..i] == files[..i];
      if files[i].name in superseded {
        continue;
      }
      assert files[i] in files;
      if files[i].decoded.Unreadable? {
        continue;
      }
      AddFile(ix, files[i].decoded.packs);
    }
    assert files[..|files|] == files;
  }

  lemma EntryLive(dir: seq<IndexFile>, e: Loc)
    ensures e in LiveEntries(Listed(dir), AllSuperseded(Listed(dir))) <==> Described(dir, e)
  {
    hide Listed;
    hide AllSuperseded;
    hide EntriesOf;
    hide LiveEntries;
    hide SupersededBy;
    hide PackEntries;
    hide Entry;
    hide Names;
    hide InRange;
    var files := Listed(dir);
    var gone := AllSuperseded(files);
    forall f | f in files
      ensures Counts(gone, f) <==> Live(dir, f)
    {
    }
    forall f: IndexFile | f.decoded.Doc?
      ensures e in EntriesOf(f.decoded.packs) <==> Holds(f.decoded, e)
    {
    }
  }

  /** After a successful load an id is found exactly when a live index file describes an entry for it. */
  method LoadAndFind(dir: seq<IndexFile>, id: Id) returns (ok: bool, r: Option<Loc>)
    ensures ok <==> Loadable(dir)
    ensures ok ==> (r.Some? <==> exists e: Loc :: e.id == id && Described(dir, e))
    ensures r.Some? ==> r.value.id == id && Described(dir, r.value) && InRange(r.value)
  {
    hide Described;
    hide Loadable;
    hide Compare;
    var ix: Index;
    r := None;
    ok, ix := LoadIndex(dir);
    if ok {
      r := ix.Find(id);
      if r.Some? {
        DescribedInRange(dir, r.value);
      }
    }
  }

  lemma DescribedInRange(dir: seq<IndexFile>, e: Loc)
    requires Described(dir, e)
    ensures InRange(e)
  {
  }

  // ----- the order of the directory does not matter

  ghost predicate SameFiles(dir: seq<IndexFile>, dir': seq<IndexFile>)
  {
    multiset(dir) == multiset(dir')
  }

  lemma SameMembers(dir: seq<IndexFile>, dir': seq<IndexFile>, f: IndexFile)
    requires SameFiles(dir, dir')
    ensures f in dir <==> f in dir'
  {
    assert f in multiset(dir) <==> f in multiset(dir');
  }

  lemma DescribedSame(dir: seq<IndexFile>, dir': seq<IndexFile>, e: Loc)
    requires SameFiles(dir, dir')
    ensures Described(dir, e) <==> Described(dir', e)
  {
    hide SameFiles;
    hide Holds;
    hide SupersededBy;
    forall f
      ensures f in dir <==> f in dir'
    {
      SameMembers(dir, dir', f);
    }
    assert forall f :: Live(dir, f) <==> Live(dir', f);
  }

  function ListedSize(dir: seq<IndexFile>): (r: (nat, nat))
  {
    (|Listed(dir)|, |AllSuperseded(Listed(dir))|)
  }

  /** One more file among those counted. */
  function Grow(f: IndexFile, t: (nat, nat)): (nat, nat)
  {
    if Eligible(f.name) then (t.0 + 1, t.1 + |SupersededBy(f.decoded)|) else t
  }

  lemma GrowSwap(f: IndexFile, g: IndexFile, t: (nat, nat))
    ensures Grow(f, Grow(g, t)) == Grow(g, Grow(f, t))
  {
  }

  lemma ListedNext(dir: seq<IndexFile>)
    requires |dir| > 0
    ensures ListedSize(dir) == Grow(dir[|dir| - 1], ListedSize(dir[..|dir| - 1]))
  {
    hide SupersededBy;
    hide Eligible;
    var n := |dir| - 1;
    var r := Listed(dir[..n]) + [dir[n]];
    assert r[..|r| - 1] == Listed(dir[..n]);
  }

  function Without(dir: seq<IndexFile>, k: nat): seq<IndexFile>
    requires k < |dir|
  {
    dir[..k] + dir[k + 1..]
  }

  lemma {:induction false} ListedWithout(dir: seq<IndexFile>, k: nat)
    requires k < |dir|
    ensures ListedSize(dir) == Grow(dir[k], ListedSize(Without(dir, k)))
  {
    hide ListedSize;
    hide Grow;
    var n := |dir| - 1;
    ListedNext(dir);
    if k == n {
      assert Without(dir, k) == dir[..n];
    } else {
      ListedWithout(dir[..n], k);
      var rest := Without(dir, k);
      assert rest[..|rest| - 1] == Without(dir[..n], k) && rest[|rest| - 1] == dir[n];
      ListedNext(rest);
      GrowSwap(dir[n], dir[k], ListedSize(Without(dir[..n], k)));
    }
  }

  lemma WithoutMembers(dir: seq<IndexFile>, k: nat)
    requires k < |dir|
    ensures multiset(dir) == multiset(Without(dir, k)) + multiset{dir[k]}
    ensures multiset(Without(dir, k)) == multiset(dir) - multiset{dir[k]}
  {
    assert dir == dir[..k] + [dir[k]] + dir[k + 1..];
  }

  lemma {:induction false} SizesSame(dir: seq<IndexFile>, dir': seq<IndexFile>)
    requires SameFiles(dir, dir')
    ensures ListedSize(dir) == ListedSize(dir')
    decreases |dir|
  {
    hide ListedSize;
    hide Grow;
    hide Without;
    if |dir| == 0 {
      assert |multiset(dir')| == |dir'|;
      assert dir == dir';
    } else {
      SameMembers(dir, dir', dir[0]);
      assert dir[0] in dir;
      var k :| 0 <= k < |dir'| && dir'[k] == dir[0];
      WithoutMembers(dir, 0);
      WithoutMembers(dir', k);
      assert |multiset(Without(dir, 0))| == |Without(dir, 0)| && |multiset(dir)| == |dir|;
      SizesSame(Without(dir, 0), Without(dir', k));
      ListedWithout(dir, 0);
      ListedWithout(dir', k);
    }
  }

  /** Loading, and what the index then describes, do not depend on the order in which the directory is read. */
  lemma OrderIrrelevant(dir: seq<IndexFile>, dir': seq<IndexFile>)
    requires SameFiles(dir, dir')
    ensures Loadable(dir) <==> Loadable(dir')
    ensures forall e :: Described(dir, e) <==> Described(dir', e)
  {
    hide Described;
    hide Listed;
    hide AllSuperseded;
    SizesSame(dir, dir');
    forall f
      ensures f in dir <==> f in dir'
    {
      SameMembers(dir, dir', f);
    }
    forall e
      ensures Described(dir, e) <==> Described(dir', e)
    {
      DescribedSame(dir, dir', e);
    }
  }
}
