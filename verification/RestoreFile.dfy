/** Writing one restored file: blobs in order, long runs of zeros left as holes, then the declared size. */
module RestoreFile {
  import opened Options
  import opened Bits

  const HoleMin: nat := 4096

  predicate AllZero(s: seq<byte>)
  {
    forall i :: 0 <= i < |s| ==> s[i] == 0
  }

  /** Cut to `n` bytes, or fill up with zeros. */
  function Resize(s: seq<byte>, n: nat): (r: seq<byte>)
    ensures |r| == n
  {
    if n <= |s| then s[..n] else s + Zeros(n - |s|)
  }

  /** Writing `chunk` at `pos`: a gap before it reads as zeros, bytes behind it stay; an empty write does nothing. */
  function WriteAt(d: seq<byte>, pos: nat, chunk: seq<byte>): (r: seq<byte>)
  {
    if |chunk| == 0 then d else
      Resize(d, pos) + chunk + if pos + |chunk| < |d| then d[pos + |chunk|..] else []
  }

  /** At or behind the end a write appends, after zeros up to its position. */
  lemma WriteBehind(d: seq<byte>, pos: nat, chunk: seq<byte>)
    requires |d| <= pos && |chunk| > 0
    ensures WriteAt(d, pos, chunk) == d + Zeros(pos - |d|) + chunk
  {
  }

  function Concat(blobs: seq<seq<byte>>): seq<byte>
  {
    if |blobs| == 0 then [] else Concat(blobs[..|blobs| - 1]) + blobs[|blobs| - 1]
  }

  lemma {:induction false} ConcatPrefix(blobs: seq<seq<byte>>, n: nat)
    requires n <= |blobs|
    ensures Concat(blobs[..n]) <= Concat(blobs)
  {
    if n == |blobs| {
      assert blobs[..n] == blobs;
    } else {
      var m := |blobs| - 1;
      ConcatPrefix(blobs[..m], n);
      assert blobs[..m][..n] == blobs[..n];
    }
  }

  /** What may stand in a file that is being restored: a beginning of its content, or the finished file. */
  ghost predicate Sound(content: seq<byte>, size: Option<nat>, d: seq<byte>)
  {
    d <= content || (size.Some? && d == Resize(content, size.value))
  }

  /** A file of the declared size is finished, so skipping it by size alone loses nothing. */
  lemma SizeDecides(content: seq<byte>, size: Option<nat>, d: seq<byte>)
    requires Sound(content, size, d) && size.Some? && |d| == size.value
    ensures d == Resize(content, size.value)
  {
    if d <= content {
      assert content[..|d|] == d;
    }
  }

  method NextZero(buf: seq<byte>, i: nat) returns (z: nat)
    requires i < |buf|
    ensures i <= z <= |buf| && (z < |buf| ==> buf[z] == 0)
  {
    z := i;
    while z < |buf| && buf[z] != 0
      invariant i <= z <= |buf|
    {
      z := z + 1;
    }
  }

  method ZeroRunEnd(buf: seq<byte>, z: nat) returns (e: nat)
    requires z < |buf| && buf[z] == 0
    ensures z < e <= |buf| && buf[z..e] == Zeros(e - z)
  {
    e := z;
    while e < |buf| && buf[e] == 0
      invariant z <= e <= |buf| && forall i :: z <= i < e ==> buf[i] == 0
      invariant e == z ==> buf[e] == 0
    {
      e := e + 1;
    }
  }

  lemma Pieces(start: seq<byte>, buf: seq<byte>, i: nat, j: nat, whole: seq<byte>)
    requires i <= j <= |buf| && start + buf <= whole
    ensures start + buf[..i] + buf[i..j] == start + buf[..j] <= whole
    ensures i == j ==> buf[..i] == buf[..j]
  {
    assert buf[..i] + buf[i..j] == buf[..j];
    assert start + buf[..j] == whole[..|start| + j];
  }

  /** An open file with its write position; `trail` records every content it has had. `fails` says which of the
      requests to the devices fail, counted by `asked`. */
  class OpenFile {
    var data: seq<byte>
    var pos: nat
    ghost var trail: seq<seq<byte>>
    const fails: nat -> bool
    var asked: nat

    constructor (device: nat -> bool)
      ensures Valid() && data == [] && pos == 0 && trail == [[]] && fails == device
    {
      fails := device;
      asked := 0;
      data := [];
      pos := 0;
      trail := [[]];
    }

    ghost predicate Valid()
      reads this`data, this`pos, this`trail
    {
      |data| <= pos && |trail| > 0 && trail[|trail| - 1] == data
    }

    /** No request from number `start` on has failed. */
    ghost predicate FineSince(start: nat)
      reads this`asked
    {
      start <= asked && forall k :: start <= k < asked ==> !fails(k)
    }

    method Ask() returns (ok: bool)
      modifies this`asked
      ensures asked == old(asked) + 1 && ok == !fails(old(asked))
    {
      ok := !fails(asked);
      asked := asked + 1;
    }

    /** The bytes up to the write position, holes read as zeros. */
    ghost function Dense(): (r: seq<byte>)
      requires Valid()
      reads this`data, this`pos, this`trail
      ensures |r| == pos && data <= r
    {
      data + Zeros(pos - |data|)
    }

    /** Everything recorded since `before` is a beginning of `whole`. */
    ghost predicate TrailWithin(before: seq<seq<byte>>, whole: seq<byte>)
      reads this`trail
    {
      before <= trail && forall i :: |before| <= i < |trail| ==> trail[i] <= whole
    }

    /** Writes the chunk piece by piece; the device may stop accepting at any point, and only then this fails. */
    method WriteExact(chunk: seq<byte>, ghost whole: seq<byte>) returns (ok: bool)
      requires Valid() && Dense() + chunk <= whole
      modifies this
      ensures Valid() && TrailWithin(old(trail), whole)
      ensures old(asked) <= asked && (ok <==> FineSince(old(asked)))
      ensures ok ==> Dense() == old(Dense()) + chunk
    {
      hide WriteAt;
      hide Zeros;
      var done := 0;
      ghost var start := Dense();
      assert start + chunk[..0] == start;
      while done < |chunk|
        invariant done <= |chunk| && Valid() && Dense() == start + chunk[..done] && FineSince(old(asked))
        invariant TrailWithin(old(trail), whole)
      {
        ok := Ask();
        if !ok {
          return;
        }
        var n :| 1 <= n <= |chunk| - done;
        ghost var dense := Dense();
        WriteBehind(data, pos, chunk[done..done + n]);
        data := WriteAt(data, pos, chunk[done..done + n]);
        assert data == dense + chunk[done..done + n] == start + chunk[..done + n];
        assert data <= whole;
        pos := pos + n;
        trail := trail + [data];
        done := done + n;
        assert pos - |data| == 0 && Dense() == data;
      }
      assert chunk[..done] == chunk;
      return true;
    }

    method Seek(n: nat) returns (ok: bool)
      requires Valid()
      modifies this`pos, this`asked
      ensures Valid()
      ensures asked == old(asked) + 1 && ok == !fails(old(asked))
      ensures ok ==> Dense() == old(Dense()) + Zeros(n)
    {
      ok := Ask();
      if !ok {
        return;
      }
      pos := pos + n;
      assert Zeros(pos - |data|) == Zeros(old(pos) - |data|) + Zeros(n);
    }

    /** Writes a blob, seeking over runs of at least 4096 zeros: equal to writing it densely, and at
        every moment the file is a beginning of the dense result. Fails only with the device. */
    method WriteBlobSparse(buf: seq<byte>, ghost whole: seq<byte>) returns (ok: bool)
      requires Valid() && Dense() + buf <= whole
      modifies this
      ensures Valid() && TrailWithin(old(trail), whole)
      ensures old(asked) <= asked && (ok <==> FineSince(old(asked)))
      ensures ok ==> Dense() == old(Dense()) + buf
    {
      hide Zeros;
      hide Dense;
      var i := 0;
      ghost var start := Dense();
      assert start + buf[..0] == start;
      while i < |buf|
        invariant i <= |buf| && Valid() && Dense() == start + buf[..i] && FineSince(old(asked))
        invariant TrailWithin(old(trail), whole)
        decreases |buf| - i
      {
        var zstart := NextZero(buf, i);
        Pieces(start, buf, i, zstart, whole);
        if zstart > i {
          ok := WriteExact(buf[i..zstart], whole);
          if !ok {
            return false;
          }
        }
        if zstart >= |buf| {
          assert buf[..zstart] == buf;
          return true;
        }
        var zend := ZeroRunEnd(buf, zstart);
        Pieces(start, buf, zstart, zend, whole);
        if zend - zstart >= HoleMin {
          ok := Seek(zend - zstart);
        } else {
          ok := WriteExact(buf[zstart..zend], whole);
        }
        if !ok {
          return false;
        }
        i := zend;
      }
      assert buf[..i] == buf;
      return true;
    }

    /** Restores a file's content: reading or writing may fail at any point, and so may the final truncation,
        which is only reported. Without a failure the file is complete and has its declared size. */
    method RestoreContent(blobs: seq<seq<byte>>, size: Option<nat>) returns (ok: bool, sized: bool)
      requires Valid() && data == [] && pos == 0 && trail == [[]]
      modifies this
      ensures forall i :: 0 <= i < |trail| ==> Sound(Concat(blobs), size, trail[i])
      ensures Sound(Concat(blobs), size, data)
      ensures old(asked) <= asked && (FineSince(old(asked)) ==> ok && (sized <==> size.Some?))
      ensures ok && !sized ==> size.None? || !FineSince(old(asked))
      ensures ok && sized ==> size.Some? && data == Resize(Concat(blobs), size.value)
      ensures ok && !sized ==> data <= Concat(blobs) && AllZero(Concat(blobs)[|data|..])
    {
      hide Zeros;
      ghost var content := Concat(blobs);
      sized := false;
      for b := 0 to |blobs|
        invariant Valid() && Dense() == Concat(blobs[..b]) && FineSince(old(asked))
        invariant TrailWithin([], content)
      {
        ConcatPrefix(blobs, b + 1);
        assert blobs[..b + 1][..b] == blobs[..b];
        ok := Ask();
        if !ok {
          return false, false;
        }
        ok := WriteBlobSparse(blobs[b], content);
        if !ok {
          return false, false;
        }
      }
      assert blobs[..|blobs|] == blobs;
      if size.Some? {
        sized := Ask();
        if sized {
          assert Resize(data, size.value) == Resize(content, size.value);
          data := Resize(data, size.value);
          trail := trail + [data];
        }
      }
      return true, sized;
    }
  }
}
