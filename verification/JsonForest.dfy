/** Token arrays as pre-order forests: which token is whose child, and how their spans nest. */
module JsonForest {
  import opened JsonTree

  /** The subtree whose token has index `i`. */
  ghost function Subtree(t: Tree, i: nat): Tree
    requires i < Size(t)
  {
    if i == 0 then t else SubtreeIn(t.kids, i - 1)
  }

  ghost function SubtreeIn(ts: seq<Tree>, i: nat): Tree
    requires i < SizeAll(ts)
  {
    var n := |ts| - 1;
    var m := SizeAll(ts[..n]);
    if i < m then SubtreeIn(ts[..n], i) else Subtree(ts[n], i - m)
  }

  /** `s` is one of `kids`, whose tokens begin at `first`, and its own token is at `j`. */
  ghost predicate KidAt(kids: seq<Tree>, first: nat, j: nat, s: Tree)
  {
    exists k :: 0 <= k < |kids| && j == first + SizeAll(kids[..k]) && s == kids[k]
  }

  /** Each token's own fields are those of its subtree, and its parent field leads to the subtree it is a child of. */
  lemma {:induction false} FlatChild(t: Tree, base: nat, parent: int, j: nat)
    requires j < Size(t)
    ensures var tok := Flat(t, base, parent)[j];
      && tok == Head(Subtree(t, j), tok.parent)
      && (j == 0 ==> tok.parent == parent)
      && (j > 0 ==>
            && base <= tok.parent < base + j
            && Subtree(t, tok.parent - base).Node?
            && KidAt(Subtree(t, tok.parent - base).kids, tok.parent - base + 1, j, Subtree(t, j)))
    decreases t
  {
    hide KidAt;
    if j > 0 {
      FlatAllChild(t.kids, base + 1, base, j - 1);
      var tok := Flat(t, base, parent)[j];
      assert tok == FlatAll(t.kids, base + 1, base)[j - 1];
      if tok.parent == base {
        KidShift(t.kids, 0, 1, j - 1, Subtree(t, j));
      } else {
        var p := tok.parent - base - 1;
        KidShift(SubtreeIn(t.kids, p).kids, p + 1, 1, j - 1, Subtree(t, j));
      }
    }
  }

  lemma KidShift(kids: seq<Tree>, first: nat, d: nat, j: nat, s: Tree)
    requires KidAt(kids, first, j, s)
    ensures KidAt(kids, first + d, j + d, s)
  {
    var k :| 0 <= k < |kids| && j == first + SizeAll(kids[..k]) && s == kids[k];
    assert j + d == first + d + SizeAll(kids[..k]);
  }

  lemma {:induction false} FlatAllChild(ts: seq<Tree>, base: nat, parent: int, j: nat)
    requires j < SizeAll(ts) && parent < base
    ensures var tok := FlatAll(ts, base, parent)[j];
      && tok == Head(SubtreeIn(ts, j), tok.parent)
      && (tok.parent == parent ==> KidAt(ts, 0, j, SubtreeIn(ts, j)))
      && (tok.parent != parent ==>
            && base <= tok.parent < base + j
            && SubtreeIn(ts, tok.parent - base).Node?
            && KidAt(SubtreeIn(ts, tok.parent - base).kids, tok.parent - base + 1, j, SubtreeIn(ts, j)))
    decreases ts
  {
    hide KidAt;
    hide Flat;
    var n := |ts| - 1;
    var m := SizeAll(ts[..n]);
    var tok := FlatAll(ts, base, parent)[j];
    if j < m {
      FlatAllChild(ts[..n], base, parent, j);
      assert tok == FlatAll(ts[..n], base, parent)[j];
      if tok.parent == parent {
        KidMore(ts, n, j, SubtreeIn(ts, j));
      }
    } else {
      FlatChild(ts[n], base + m, parent, j - m);
      assert tok == Flat(ts[n], base + m, parent)[j - m];
      if j == m {
        KidLast(ts);
      } else {
        var p := tok.parent - base - m;
        KidShift(Subtree(ts[n], p).kids, p + 1, m, j - m, SubtreeIn(ts, j));
      }
    }
  }

  lemma KidMore(ts: seq<Tree>, n: nat, j: nat, s: Tree)
    requires n <= |ts| && KidAt(ts[..n], 0, j, s)
    ensures KidAt(ts, 0, j, s)
  {
    var k :| 0 <= k < n && j == SizeAll(ts[..n][..k]) && s == ts[..n][k];
    assert ts[..n][..k] == ts[..k];
    assert j == 0 + SizeAll(ts[..k]) && s == ts[k];
  }

  lemma KidLast(ts: seq<Tree>)
    requires |ts| > 0
    ensures KidAt(ts, 0, SizeAll(ts[..|ts| - 1]), ts[|ts| - 1])
  {
    var k := |ts| - 1;
    assert SizeAll(ts[..|ts| - 1]) == 0 + SizeAll(ts[..k]) && ts[|ts| - 1] == ts[k];
  }

  lemma {:induction false} SubProper(t: Tree, from: nat, to: nat, i: nat)
    requires i < Size(t) && Proper(t, from, to)
    ensures Proper(Subtree(t, i), from, to)
    decreases t
  {
    if i > 0 {
      SubProperIn(t.kids, t.start + 1, t.end - 1, i - 1);
      ProperLater(Subtree(t, i), t.start + 1, from, t.end - 1, to);
    }
  }

  lemma {:induction false} SubProperIn(ts: seq<Tree>, from: nat, to: nat, i: nat)
    requires i < SizeAll(ts) && ProperAll(ts, from, to)
    ensures Proper(SubtreeIn(ts, i), from, to)
    decreases ts
  {
    hide Proper;
    var n := |ts| - 1;
    var m := SizeAll(ts[..n]);
    if i < m {
      SubProperIn(ts[..n], from, ts[n].start, i);
      ProperStart(ts[n], from, to);
      ProperLater(SubtreeIn(ts, i), from, from, ts[n].start, to);
    } else {
      SubProper(ts[n], from, to, i - m);
    }
  }

  lemma ProperStart(t: Tree, from: nat, to: nat)
    requires Proper(t, from, to)
    ensures from <= t.start <= t.end <= to
  {
  }

  /** The tokens of a subtree lie together behind its own token. */
  lemma {:induction false} SubFlat(t: Tree, base: nat, parent: int, i: nat)
    requires i < Size(t)
    ensures i + Size(Subtree(t, i)) <= Size(t)
    ensures var up := Flat(t, base, parent)[i].parent;
      Flat(t, base, parent)[i..i + Size(Subtree(t, i))] == Flat(Subtree(t, i), base + i, up)
    decreases t
  {
    if i > 0 {
      hide FlatAll;
      SubFlatIn(t.kids, base + 1, base, i - 1);
      var s := Subtree(t, i);
      assert Flat(t, base, parent)[i..i + Size(s)] == FlatAll(t.kids, base + 1, base)[i - 1..i - 1 + Size(s)];
    } else {
      assert Flat(t, base, parent)[0..Size(t)] == Flat(t, base, parent);
    }
  }

  lemma {:induction false} SubFlatIn(ts: seq<Tree>, base: nat, parent: int, i: nat)
    requires i < SizeAll(ts)
    ensures i + Size(SubtreeIn(ts, i)) <= SizeAll(ts)
    ensures var up := FlatAll(ts, base, parent)[i].parent;
      FlatAll(ts, base, parent)[i..i + Size(SubtreeIn(ts, i))] == Flat(SubtreeIn(ts, i), base + i, up)
    decreases ts
  {
    hide Flat;
    var n := |ts| - 1;
    var m := SizeAll(ts[..n]);
    var s := SubtreeIn(ts, i);
    var all := FlatAll(ts, base, parent);
    if i < m {
      SubFlatIn(ts[..n], base, parent, i);
      assert all[i..i + Size(s)] == FlatAll(ts[..n], base, parent)[i..i + Size(s)];
    } else {
      SubFlat(ts[n], base + m, parent, i - m);
      assert all[i..i + Size(s)] == Flat(ts[n], base + m, parent)[i - m..i - m + Size(s)];
    }
  }

  // ----- what a successful parse promises of its tokens

  /** Every token but the first has an earlier parent that spans it; tokens with the same parent
      follow each other without overlap. */
  ghost predicate Forest(toks: seq<Tok>)
  {
    && (forall j :: 0 < j < |toks| ==> Nested(toks, j))
    && forall i, j :: 0 < i < j < |toks| ==> toks[i].parent == toks[j].parent ==> toks[i].end <= toks[j].start
  }

  ghost predicate Nested(toks: seq<Tok>, j: nat)
    requires j < |toks|
  {
    var p := toks[j].parent;
    && 0 <= p < j && toks[p].kind in {Object, Array}
    && toks[p].start < toks[j].start <= toks[j].end < toks[p].end
  }

  lemma {:induction false} SizeMono(ts: seq<Tree>, a: nat, b: nat)
    requires a <= b <= |ts|
    ensures SizeAll(ts[..a]) + b - a <= SizeAll(ts[..b])
  {
    if a < b {
      SizeMono(ts, a, b - 1);
      assert ts[..b][..b - 1] == ts[..b - 1];
    }
  }

  lemma KidSpan(s: Tree, from: nat, to: nat, k: nat)
    requires s.Node? && Proper(s, from, to) && k < |s.kids|
    ensures s.start < s.kids[k].start <= s.kids[k].end < s.end
    ensures forall m :: k < m < |s.kids| ==> s.kids[k].end <= s.kids[m].start
  {
    hide ProperAll;
    ProperAt(s.kids, s.start + 1, s.end - 1, k);
    ProperStart(s.kids[k], s.start + 1, s.end - 1);
  }

  lemma NestedToken(t: Tree, from: nat, to: nat, j: nat)
    requires 0 < j < Size(t) && Proper(t, from, to)
    ensures Nested(Flat(t, 0, -1), j)
  {
    hide Flat;
    hide Subtree;
    hide Proper;
    hide Size;
    hide SizeAll;
    FlatChild(t, 0, -1, j);
    var p := Flat(t, 0, -1)[j].parent;
    FlatChild(t, 0, -1, p);
    SubProper(t, from, to, p);
    var s := Subtree(t, p);
    var k :| 0 <= k < |s.kids| && j == p + 1 + SizeAll(s.kids[..k]) && Subtree(t, j) == s.kids[k];
    KidSpan(s, from, to, k);
  }

  lemma SiblingTokens(t: Tree, from: nat, to: nat, i: nat, j: nat)
    requires 0 < i < j < Size(t) && Proper(t, from, to)
    requires Flat(t, 0, -1)[i].parent == Flat(t, 0, -1)[j].parent
    ensures Flat(t, 0, -1)[i].end <= Flat(t, 0, -1)[j].start
  {
    hide Flat;
    hide Subtree;
    hide Proper;
    hide Size;
    hide SizeAll;
    FlatChild(t, 0, -1, i);
    FlatChild(t, 0, -1, j);
    var p := Flat(t, 0, -1)[j].parent;
    SubProper(t, from, to, p);
    var s := Subtree(t, p);
    var a :| 0 <= a < |s.kids| && i == p + 1 + SizeAll(s.kids[..a]) && Subtree(t, i) == s.kids[a];
    var b :| 0 <= b < |s.kids| && j == p + 1 + SizeAll(s.kids[..b]) && Subtree(t, j) == s.kids[b];
    if b <= a {
      SizeMono(s.kids, b, a);
      assert false;
    }
    KidSpan(s, from, to, a);
  }

  lemma FlatForest(t: Tree, from: nat, to: nat)
    requires Proper(t, from, to)
    ensures Forest(Flat(t, 0, -1))
  {
    hide Nested;
    hide Proper;
    forall j | 0 < j < Size(t)
      ensures Nested(Flat(t, 0, -1), j)
    {
      NestedToken(t, from, to, j);
    }
    forall i, j | 0 < i < j < Size(t) && Flat(t, 0, -1)[i].parent == Flat(t, 0, -1)[j].parent
      ensures Flat(t, 0, -1)[i].end <= Flat(t, 0, -1)[j].start
    {
      SiblingTokens(t, from, to, i, j);
    }
  }

  // ----- size fields count direct children

  function CountParent(toks: seq<Tok>, p: int): nat
  {
    if |toks| == 0 then 0 else
      CountParent(toks[..|toks| - 1], p) + if toks[|toks| - 1].parent == p then 1 else 0
  }

  lemma {:induction false} CountConcat(a: seq<Tok>, b: seq<Tok>, p: int)
    ensures CountParent(a + b, p) == CountParent(a, p) + CountParent(b, p)
  {
    if |b| == 0 {
      assert a + b == a;
    } else {
      assert (a + b)[..|a + b| - 1] == a + b[..|b| - 1];
      CountConcat(a, b[..|b| - 1], p);
    }
  }

  lemma {:induction false} CountNone(toks: seq<Tok>, p: int)
    requires forall i :: 0 <= i < |toks| ==> toks[i].parent != p
    ensures CountParent(toks, p) == 0
  {
    if |toks| > 0 {
      CountNone(toks[..|toks| - 1], p);
    }
  }

  lemma CountTree(t: Tree, base: nat, parent: int)
    requires parent < base
    ensures CountParent(Flat(t, base, parent), parent) == 1
  {
    hide Flat;
    hide Subtree;
    var toks := Flat(t, base, parent);
    forall j | 0 <= j < |toks|
      ensures j == 0 <==> toks[j].parent == parent
    {
      FlatChild(t, base, parent, j);
    }
    assert toks == [toks[0]] + toks[1..];
    CountConcat([toks[0]], toks[1..], parent);
    CountNone(toks[1..], parent);
    CountOne(toks[0], parent);
  }

  lemma CountOne(tok: Tok, p: int)
    requires tok.parent == p
    ensures CountParent([tok], p) == 1
  {
    assert [tok][..0] == [];
  }

  lemma {:induction false} CountKids(ts: seq<Tree>, base: nat, parent: int)
    requires parent < base
    ensures CountParent(FlatAll(ts, base, parent), parent) == |ts|
  {
    hide Flat;
    if |ts| > 0 {
      var n := |ts| - 1;
      CountKids(ts[..n], base, parent);
      CountTree(ts[n], base + SizeAll(ts[..n]), parent);
      CountConcat(FlatAll(ts[..n], base, parent), Flat(ts[n], base + SizeAll(ts[..n]), parent), parent);
    }
  }

  /** A token has as many direct children as its size field says: pairs count twice, leaves have none. */
  lemma ChildrenCounted(t: Tree, from: nat, to: nat, i: nat)
    requires i < Size(t) && Proper(t, from, to)
    ensures var toks := Flat(t, 0, -1);
      CountParent(toks, i) ==
        match toks[i].kind
        case Object => 2 * toks[i].size
        case Array => toks[i].size
        case _ => 0
  {
    hide Flat;
    hide Subtree;
    hide CountParent;
    var toks := Flat(t, 0, -1);
    var s := Subtree(t, i);
    FlatChild(t, 0, -1, i);
    SubProper(t, from, to, i);
    SubFlat(t, 0, -1, i);
    var n := i + Size(s);
    var up := toks[i].parent;
    assert toks == toks[..i] + Flat(s, i, up) + toks[n..];
    CountConcat(toks[..i] + Flat(s, i, up), toks[n..], i);
    CountConcat(toks[..i], Flat(s, i, up), i);
    forall j | 0 <= j < Size(t) && toks[j].parent == i
      ensures i < j < n
    {
      ChildInside(t, i, j);
    }
    CountNone(toks[..i], i);
    CountNone(toks[n..], i);
    CountNode(s, i, up);
  }

  lemma ChildInside(t: Tree, i: nat, j: nat)
    requires i < Size(t) && j < Size(t) && Flat(t, 0, -1)[j].parent == i
    ensures i < j < i + Size(Subtree(t, i))
  {
    hide Flat;
    hide Subtree;
    FlatChild(t, 0, -1, j);
    var s := Subtree(t, i);
    var k :| 0 <= k < |s.kids| && j == i + 1 + SizeAll(s.kids[..k]) && Subtree(t, j) == s.kids[k];
    SizeMono(s.kids, k, |s.kids|);
    assert s.kids[..|s.kids|] == s.kids;
  }

  lemma CountNode(s: Tree, i: nat, up: int)
    requires up < i
    ensures CountParent(Flat(s, i, up), i) == if s.Node? then |s.kids| else 0
  {
    hide CountParent;
    var head := [Head(s, up)];
    CountNone(head, i);
    if s.Node? {
      CountConcat(head, FlatAll(s.kids, i + 1, i), i);
      CountKids(s.kids, i + 1, i);
    }
  }

  // ----- keys and values alternate

  /** A child of an object with an even number of siblings before it is a string key, and the token right
      behind it is its value. */
  ghost predicate Alternates(toks: seq<Tok>, j: nat)
    requires j < |toks|
  {
    var p := toks[j].parent;
    0 <= p < j && toks[p].kind == Object && CountParent(toks[..j], p) % 2 == 0 ==>
      toks[j].kind == String && j + 1 < |toks| && toks[j + 1].parent == p
  }

  /** The tokens before child `k` of a subtree hold exactly `k` of its children. */
  lemma ChildNumber(t: Tree, i: nat, k: nat)
    requires i < Size(t) && Subtree(t, i).Node? && k < |Subtree(t, i).kids|
    ensures var j := i + 1 + SizeAll(Subtree(t, i).kids[..k]);
      j < Size(t) && CountParent(Flat(t, 0, -1)[..j], i) == k
  {
    hide Flat;
    hide FlatAll;
    hide Subtree;
    hide CountParent;
    hide Size;
    hide SizeAll;
    hide KidAt;
    var toks, s := Flat(t, 0, -1), Subtree(t, i);
    var ks := s.kids[..k];
    var j := i + 1 + SizeAll(ks);
    FlatChild(t, 0, -1, i);
    SubFlat(t, 0, -1, i);
    SizeMono(s.kids, k, |s.kids|);
    assert s.kids[..|s.kids|] == s.kids;
    var up := toks[i].parent;
    FlatNode(s.obj, s.start, s.end, s.kids, i, up);
    KidsPrefix(s, i, up, k);
    var w := Flat(s, i, up);
    assert toks[i..j] == toks[i..i + Size(s)][..j - i] == w[..j - i];
    assert toks[..j] == toks[..i] + w[..j - i];
    CountConcat(toks[..i], w[..j - i], i);
    CountConcat([Head(s, up)], FlatAll(ks, i + 1, i), i);
    CountNone([Head(s, up)], i);
    CountKids(ks, i + 1, i);
    forall x | 0 <= x < i
      ensures toks[..i][x].parent != i
    {
      FlatChild(t, 0, -1, x);
    }
    CountNone(toks[..i], i);
  }

  lemma KidsPrefix(s: Tree, base: nat, up: int, k: nat)
    requires s.Node? && k <= |s.kids|
    ensures var n := 1 + SizeAll(s.kids[..k]);
      n <= Size(s) && Flat(s, base, up)[..n] == [Head(s, up)] + FlatAll(s.kids[..k], base + 1, base)
  {
    hide FlatAll;
    var a, b := s.kids[..k], s.kids[k..];
    assert s.kids == a + b;
    FlatAllConcat(a, b, base + 1, base);
  }

  lemma KeysAlternate(t: Tree, from: nat, to: nat, j: nat)
    requires 0 < j < Size(t) && Proper(t, from, to)
    ensures Alternates(Flat(t, 0, -1), j)
  {
    hide Flat;
    hide Subtree;
    hide CountParent;
    hide Proper;
    hide Size;
    hide SizeAll;
    var toks := Flat(t, 0, -1);
    FlatChild(t, 0, -1, j);
    var p := toks[j].parent;
    FlatChild(t, 0, -1, p);
    SubProper(t, from, to, p);
    var s := Subtree(t, p);
    var k :| 0 <= k < |s.kids| && j == p + 1 + SizeAll(s.kids[..k]) && Subtree(t, j) == s.kids[k];
    ChildNumber(t, p, k);
    if toks[p].kind == Object && k % 2 == 0 {
      ObjectKey(s, from, to, k);
      NextKid(t, p, k);
    }
  }

  lemma ObjectKey(s: Tree, from: nat, to: nat, k: nat)
    requires s.Node? && s.obj && Proper(s, from, to) && k < |s.kids| && k % 2 == 0
    ensures IsString(s.kids[k]) && k + 1 < |s.kids|
  {
    hide ProperAll;
  }

  /** Behind a key without children stands the next child of the same object. */
  lemma NextKid(t: Tree, p: nat, k: nat)
    requires p < Size(t) && Subtree(t, p).Node? && k + 1 < |Subtree(t, p).kids| && Subtree(t, p).kids[k].Leaf?
    ensures var j := p + 1 + SizeAll(Subtree(t, p).kids[..k]);
      j + 1 < Size(t) && Flat(t, 0, -1)[j + 1].parent == p
  {
    hide Flat;
    hide FlatAll;
    hide Subtree;
    hide Size;
    hide SizeAll;
    hide KidAt;
    var toks, s := Flat(t, 0, -1), Subtree(t, p);
    var j := p + 1 + SizeAll(s.kids[..k]);
    FlatChild(t, 0, -1, p);
    SubFlat(t, 0, -1, p);
    var up := toks[p].parent;
    SecondKid(s, p, up, k);
    assert toks[p..p + Size(s)][j + 1 - p] == toks[j + 1];
  }

  lemma SecondKid(s: Tree, base: nat, up: int, k: nat)
    requires s.Node? && k + 1 < |s.kids| && s.kids[k].Leaf?
    ensures var j := 1 + SizeAll(s.kids[..k]);
      j + 1 < Size(s) && Flat(s, base, up)[j + 1].parent == base
  {
    hide Flat;
    hide FlatAll;
    hide SizeAll;
    var key, x := s.kids[k], s.kids[k + 1];
    var a, b := s.kids[..k], s.kids[..k + 1];
    assert b == a + [key] && s.kids[..k + 2] == b + [x];
    FlatSnoc(a, key, base + 1, base);
    FlatSnoc(b, x, base + 1, base);
    KidsPrefix(s, base, up, k + 2);
    var n := SizeAll(b);
    var f := FlatAll(s.kids[..k + 2], base + 1, base);
    FlatChild(x, base + 1 + n, base, 0);
    assert f[n] == Flat(x, base + 1 + n, base)[0];
    assert Flat(s, base, up)[..1 + |f|][n + 1] == f[n];
  }
}
