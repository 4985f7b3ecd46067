/** JSON documents as trees over their source text, and the flat token arrays that encode them. */
module JsonTree {

  datatype Kind = Invalid | Object | Array | String | Number | True | False | Null

  datatype Tok = Tok(kind: Kind, start: nat, end: nat, size: nat, parent: int)

  datatype Tree =
    | Leaf(kind: Kind, start: nat, end: nat)
    | Node(obj: bool, start: nat, end: nat, kids: seq<Tree>)

  // ----- flattening

  function Size(t: Tree): (n: nat)
    ensures n >= 1
  {
    match t
    case Leaf(_, _, _) => 1
    case Node(_, _, _, kids) => 1 + SizeAll(kids)
  }

  function SizeAll(ts: seq<Tree>): nat
  {
    if |ts| == 0 then 0 else SizeAll(ts[..|ts| - 1]) + Size(ts[|ts| - 1])
  }

  /** The size field: pairs of an object, elements of an array, raw length of a string. */
  function SizeField(t: Tree): nat
  {
    match t
    case Leaf(kind, start, end) => if kind == String && start <= end then end - start else 0
    case Node(obj, _, _, kids) => if obj then |kids| / 2 else |kids|
  }

  function KindOf(t: Tree): Kind
  {
    match t
    case Leaf(kind, _, _) => kind
    case Node(obj, _, _, _) => if obj then Object else Array
  }

  function Head(t: Tree, parent: int): Tok
  {
    Tok(KindOf(t), t.start, t.end, SizeField(t), parent)
  }

  /** The tokens of a tree whose own token has index `base`: itself first, then its children. */
  function Flat(t: Tree, base: nat, parent: int): (toks: seq<Tok>)
    ensures |toks| == Size(t)
  {
    match t
    case Leaf(_, _, _) => [Head(t, parent)]
    case Node(_, _, _, kids) => [Head(t, parent)] + FlatAll(kids, base + 1, base)
  }

  function FlatAll(ts: seq<Tree>, base: nat, parent: int): (toks: seq<Tok>)
    ensures |toks| == SizeAll(ts)
  {
    if |ts| == 0 then [] else
      FlatAll(ts[..|ts| - 1], base, parent) + Flat(ts[|ts| - 1], base + SizeAll(ts[..|ts| - 1]), parent)
  }

  lemma {:induction false} SizeAllConcat(a: seq<Tree>, b: seq<Tree>)
    ensures SizeAll(a + b) == SizeAll(a) + SizeAll(b)
  {
    if |b| == 0 {
      assert a + b == a;
    } else {
      assert (a + b)[..|a + b| - 1] == a + b[..|b| - 1];
      SizeAllConcat(a, b[..|b| - 1]);
    }
  }

  lemma FlatSnoc(ts: seq<Tree>, t: Tree, base: nat, parent: int)
    ensures SizeAll(ts + [t]) == SizeAll(ts) + Size(t)
    ensures FlatAll(ts + [t], base, parent) == FlatAll(ts, base, parent) + Flat(t, base + SizeAll(ts), parent)
  {
    hide Flat;
    hide Size;
    assert (ts + [t])[..|ts|] == ts;
  }

  lemma {:induction false} FlatAllConcat(a: seq<Tree>, b: seq<Tree>, base: nat, parent: int)
    ensures SizeAll(a + b) == SizeAll(a) + SizeAll(b)
    ensures FlatAll(a + b, base, parent) == FlatAll(a, base, parent) + FlatAll(b, base + SizeAll(a), parent)
  {
    hide Flat;
    hide Size;
    hide FlatAll;
    hide SizeAll;
    if |b| == 0 {
      assert a + b == a;
      FlatNone(base + SizeAll(a), parent);
    } else {
      var n := |b| - 1;
      assert a + b == (a + b[..n]) + [b[n]] && b == b[..n] + [b[n]];
      FlatAllConcat(a, b[..n], base, parent);
      FlatSnoc(a + b[..n], b[n], base, parent);
      FlatSnoc(b[..n], b[n], base + SizeAll(a), parent);
    }
  }

  lemma FlatNone(base: nat, parent: int)
    ensures FlatAll([], base, parent) == [] && SizeAll([]) == 0
  {
  }

  lemma FlatNode(obj: bool, start: nat, end: nat, kids: seq<Tree>, base: nat, parent: int)
    ensures var t := Node(obj, start, end, kids);
      && Size(t) == 1 + SizeAll(kids)
      && Flat(t, base, parent) == [Head(t, parent)] + FlatAll(kids, base + 1, base)
  {
  }

  lemma FlatOne(t: Tree, base: nat, parent: int)
    ensures FlatAll([t], base, parent) == Flat(t, base, parent) && SizeAll([t]) == Size(t)
  {
    assert [t][..0] == [];
    assert SizeAll([t][..0]) == 0;
  }

  // ----- spans

  /** A tree inside `[from, to)`: children lie inside their parent, one after the other, and the
      children of an object alternate string key and value. */
  ghost predicate Proper(t: Tree, from: nat, to: nat)
  {
    from <= t.start <= t.end < to + 1
    && match t
       case Leaf(kind, start, end) => kind !in {Invalid, Object, Array} && (kind != String ==> start < end)
       case Node(obj, start, end, kids) =>
         && start + 2 <= end
         && (obj ==> |kids| % 2 == 0 && forall i :: 0 <= i < |kids| && i % 2 == 0 ==> IsString(kids[i]))
         && ProperAll(kids, start + 1, end - 1)
  }

  predicate IsString(t: Tree)
  {
    t.Leaf? && t.kind == String
  }

  ghost predicate ProperAll(ts: seq<Tree>, from: nat, to: nat)
  {
    if |ts| == 0 then from <= to else
      var n := |ts| - 1;
      Proper(ts[n], from, to) && ProperAll(ts[..n], from, ts[n].start)
  }

  lemma {:induction false} ProperLater(t: Tree, from: nat, from': nat, to: nat, to': nat)
    requires Proper(t, from, to) && from' <= from && to <= to'
    ensures Proper(t, from', to')
  {
  }

  lemma {:induction false} ProperAppend(ts: seq<Tree>, t: Tree, from: nat, mid: nat, to: nat)
    requires ProperAll(ts, from, mid) && Proper(t, mid, to)
    ensures ProperAll(ts + [t], from, to)
  {
    assert (ts + [t])[..|ts|] == ts;
    ProperUpTo(ts, from, mid, t.start);
  }

  lemma {:induction false} ProperUpTo(ts: seq<Tree>, from: nat, to: nat, to': nat)
    requires ProperAll(ts, from, to) && to <= to'
    ensures ProperAll(ts, from, to')
    ensures from <= to
  {
    if |ts| > 0 {
      ProperFrom(ts[..|ts| - 1], from, ts[|ts| - 1].start);
    }
  }

  lemma {:induction false} ProperFrom(ts: seq<Tree>, from: nat, to: nat)
    requires ProperAll(ts, from, to)
    ensures from <= to
  {
    if |ts| > 0 {
      ProperFrom(ts[..|ts| - 1], from, ts[|ts| - 1].start);
    }
  }

  lemma {:induction false} ProperAt(ts: seq<Tree>, from: nat, to: nat, i: nat)
    requires ProperAll(ts, from, to) && i < |ts|
    ensures Proper(ts[i], from, to)
    ensures forall j :: i < j < |ts| ==> ts[i].end <= ts[j].start
    ensures ProperAll(ts[..i], from, ts[i].start)
  {
    var n := |ts| - 1;
    if i < n {
      ProperAt(ts[..n], from, ts[n].start, i);
      assert ts[..n][..i] == ts[..i];
      forall j | i < j < |ts|
        ensures ts[i].end <= ts[j].start
      {
        assert j < n ==> ts[..n][j] == ts[j];
      }
    }
  }
}
