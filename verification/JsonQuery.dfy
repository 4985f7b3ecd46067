/** The tokenizer's entry points and the accessors over its tokens. */
module JsonQuery {
  import opened Options
  import opened JsonTree
  import opened JsonSyntax
  import opened JsonForest
  import opened JsonParser

  // ----- parsing

  /** What a parse with room for `cap` tokens returns. */
  function ParseCode(src: seq<char>, cap: nat): int
  {
    var o := Document(src);
    if Need(o) > cap then -2 else if o.Bad? then -1 else Size(o.tree)
  }

  function Tokens(src: seq<char>): seq<Tok>
  {
    var o := Document(src);
    if o.Bad? then [] else Flat(o.tree, 0, -1)
  }

  /** Tokenizes the whole text into the buffer given. */
  method Parse(src: seq<char>, toks: array<Tok>) returns (n: int)
    modifies toks
    ensures n == ParseCode(src, toks.Length)
    ensures n >= 0 ==> n <= toks.Length && toks[..n] == Tokens(src)
  {
    hide Value;
    hide SkipSpace;
    hide Flat;
    hide Size;
    var p := new Parser(src, toks);
    assert toks[..0] == [];
    var root := p.ParseValue();
    ghost var o := Value(src, 0, 0);
    if root < 0 {
      return root;
    }
    assert Need(o) <= toks.Length;
    p.SkipWs();
    if p.pos != |src| {
      return -1;
    }
    assert [] + Flat(o.tree, 0, -1) == Flat(o.tree, 0, -1);
    n := p.ntoks;
  }

  /** The result does not depend on the capacity once it is not the capacity that fails, and a
      capacity of one token per byte never fails. */
  lemma CapacityStable(src: seq<char>, cap: nat, cap': nat)
    requires cap <= cap'
    ensures ParseCode(src, cap) != -2 ==> ParseCode(src, cap') == ParseCode(src, cap)
    ensures cap >= |src| ==> ParseCode(src, cap) != -2
    ensures -2 <= ParseCode(src, cap) <= |src|
  {
    DocumentProper(src);
  }

  /** The tokens of every successful parse form a pre-order forest. */
  lemma TokensForest(src: seq<char>)
    ensures Forest(Tokens(src))
    ensures forall j :: 0 < j < |Tokens(src)| ==> Alternates(Tokens(src), j)
    ensures forall i :: 0 <= i < |Tokens(src)| ==>
      CountParent(Tokens(src), i) == match Tokens(src)[i].kind
        case Object => 2 * Tokens(src)[i].size
        case Array => Tokens(src)[i].size
        case _ => 0
  {
    hide Flat;
    hide Document;
    hide Proper;
    hide Forest;
    hide Alternates;
    DocumentProper(src);
    var o := Document(src);
    if o.Good? {
      FlatForest(o.tree, 0, |src|);
      forall j | 0 < j < Size(o.tree)
        ensures Alternates(Tokens(src), j)
      {
        KeysAlternate(o.tree, 0, |src|, j);
      }
      forall i | 0 <= i < Size(o.tree)
        ensures CountParent(Tokens(src), i) == match Tokens(src)[i].kind
          case Object => 2 * Tokens(src)[i].size
          case Array => Tokens(src)[i].size
          case _ => 0
      {
        ChildrenCounted(o.tree, 0, |src|, i);
      }
    } else {
      NoForest();
    }
  }

  lemma NoForest()
    ensures Forest([])
  {
  }

  /** The most tokens the growing parse allows itself. */
  function Ceiling(len: nat, maxBytes: nat, tokBytes: nat): (c: nat)
    requires tokBytes > 0
    ensures 1 <= c <= len + 1
  {
    var byBytes := if maxBytes / tokBytes < 1 then 1 else maxBytes / tokBytes;
    if len + 1 > byBytes then byBytes else len + 1
  }

  /** Doubles the buffer until the parse fits: whatever the first guess, the result is that of one
      parse at the ceiling, and -2 means the byte ceiling is below one token per byte. */
  method ParseAlloc(src: seq<char>, initialToks: nat, maxBytes: nat, tokBytes: nat) returns (n: int, toks: seq<Tok>)
    requires tokBytes > 0
    ensures n == ParseCode(src, Ceiling(|src|, maxBytes, tokBytes))
    ensures n >= 0 ==> toks == Tokens(src) && |toks| == n
    ensures n == -2 ==> Ceiling(|src|, maxBytes, tokBytes) < |src|
  {
    hide Document;
    hide Tokens;
    hide ParseCode;
    var ceiling := Ceiling(|src|, maxBytes, tokBytes);
    var cap := if initialToks < 1 then 1 else initialToks;
    if cap > ceiling {
      cap := ceiling;
    }
    while true
      invariant 1 <= cap <= ceiling
      decreases ceiling - cap
    {
      var buffer := new Tok[cap](_ => Tok(Invalid, 0, 0, 0, 0));
      n := Parse(src, buffer);
      CapacityStable(src, cap, ceiling);
      if n >= 0 {
        toks := buffer[..n];
        return;
      }
      toks := [];
      if n == -1 {
        return;
      }
      if cap >= ceiling {
        return;
      }
      cap := 2 * cap;
      if cap > ceiling {
        cap := ceiling;
      }
    }
  }

  // ----- object lookup

  predicate KeyIs(src: seq<char>, t: Tree, key: seq<char>)
  {
    t.start <= t.end <= |src| && src[t.start..t.end] == key
  }

  /** The token index of the value whose key is child `k` of the object at `at`. */
  function ValueIndex(kids: seq<Tree>, at: nat, k: nat): nat
    requires k < |kids|
  {
    at + 1 + SizeAll(kids[..k + 1])
  }

  ghost predicate NoKeyBefore(src: seq<char>, kids: seq<Tree>, n: nat, key: seq<char>)
  {
    forall m :: 0 <= m < n && m < |kids| && m % 2 == 0 ==> !KeyIs(src, kids[m], key)
  }

  predicate IsObject(t: Tree)
  {
    t.Node? && t.obj
  }

  ghost predicate FirstKey(src: seq<char>, kids: seq<Tree>, k: nat, key: seq<char>)
  {
    k < |kids| && k % 2 == 0 && KeyIs(src, kids[k], key) && NoKeyBefore(src, kids, k, key)
  }

  /** The scan of the object at `at` stands `r` tokens into child `k`. */
  ghost predicate Standing(kids: seq<Tree>, at: nat, i: nat, k: nat, r: nat)
  {
    && i == at + 1 + SizeAll(kids[..if k < |kids| then k else |kids|]) + r
    && k <= |kids| && (k < |kids| ==> r < Size(kids[k])) && (k == |kids| ==> r == 0)
  }

  lemma StandNext(kids: seq<Tree>, at: nat, i: nat, k: nat, r: nat)
    requires Standing(kids, at, i, k, r) && k < |kids|
    ensures if r + 1 < Size(kids[k]) then Standing(kids, at, i + 1, k, r + 1) else Standing(kids, at, i + 1, k + 1, 0)
  {
    hide Size;
    assert kids[..k + 1][..k] == kids[..k];
  }

  /** The token the scan reads is a direct child exactly when it begins a child. */
  lemma StandToken(t: Tree, from: nat, to: nat, at: nat, i: nat, k: nat, r: nat)
    requires at < Size(t) && Proper(t, from, to) && Subtree(t, at).Node?
    requires var s := Subtree(t, at); Standing(s.kids, at, i, k, r) && k < |s.kids|
    ensures at < i < Size(t)
    ensures var toks, s := Flat(t, 0, -1), Subtree(t, at);
      && toks[i].start < toks[at].end
      && (toks[i].parent == at <==> r == 0)
      && (r == 0 ==> toks[i] == Head(s.kids[k], at))
  {
    hide Flat;
    hide Subtree;
    hide Proper;
    hide Size;
    hide SizeAll;
    hide KidAt;
    var toks, s := Flat(t, 0, -1), Subtree(t, at);
    FlatChild(t, 0, -1, at);
    SubFlat(t, 0, -1, at);
    var up := toks[at].parent;
    KidsToken(s, at, up, k, r);
    var w := Flat(s, at, up);
    assert toks[at..at + Size(s)][i - at] == w[i - at] == toks[i];
    FlatChild(s, at, up, i - at);
    SubProper(t, from, to, at);
    SubSpan(s, from, to, i - at);
  }

  lemma SubSpan(s: Tree, from: nat, to: nat, j: nat)
    requires Proper(s, from, to) && 0 < j < Size(s)
    ensures Subtree(s, j).start < s.end
  {
    SubProperIn(s.kids, s.start + 1, s.end - 1, j - 1);
  }

  lemma KidsToken(s: Tree, at: nat, up: int, k: nat, r: nat)
    requires s.Node? && k < |s.kids| && r < Size(s.kids[k]) && up < at
    ensures var j := 1 + SizeAll(s.kids[..k]) + r;
      && j < Size(s)
      && (Flat(s, at, up)[j].parent == at <==> r == 0)
      && (r == 0 ==> Flat(s, at, up)[j] == Head(s.kids[k], at))
  {
    hide Size;
    hide SizeAll;
    hide Flat;
    hide FlatAll;
    var a, b := s.kids[..k], s.kids[k + 1..];
    var j := 1 + SizeAll(a) + r;
    assert s.kids == (a + [s.kids[k]]) + b;
    FlatAllConcat(a + [s.kids[k]], b, at + 1, at);
    FlatSnoc(a, s.kids[k], at + 1, at);
    FlatNode(s.obj, s.start, s.end, s.kids, at, up);
    var f := Flat(s.kids[k], at + 1 + SizeAll(a), at);
    assert Flat(s, at, up)[j] == FlatAll(s.kids, at + 1, at)[j - 1] == f[r];
    FlatChild(s.kids[k], at + 1 + SizeAll(a), at, r);
  }

  /** Looks a key up in the object at `objIdx`: never reads past the tokens, and finds the value of
      the first key with those bytes, or -1 exactly when there is none. */
  method ObjGet(src: seq<char>, toks: seq<Tok>, objIdx: int, key: seq<char>, ghost t: Tree) returns (r: int)
    requires toks == Flat(t, 0, -1) && Proper(t, 0, |src|) && objIdx < |toks|
    ensures objIdx < 0 || !IsObject(Subtree(t, objIdx)) ==> r == -1
    ensures objIdx >= 0 && IsObject(Subtree(t, objIdx)) ==>
      var kids := Subtree(t, objIdx).kids;
      if NoKeyBefore(src, kids, |kids|, key) then r == -1
      else exists k :: 0 <= k < |kids| && FirstKey(src, kids, k, key) && r == ValueIndex(kids, objIdx, k)
  {
    hide Flat;
    hide Subtree;
    hide Proper;
    hide Size;
    hide SizeAll;
    hide Standing;
    if objIdx < 0 {
      return -1;
    }
    FlatChild(t, 0, -1, objIdx);
    ghost var s := Subtree(t, objIdx);
    if toks[objIdx].kind != Object {
      return -1;
    }
    ObjectKids(t, |src|, objIdx);
    ghost var kids := s.kids;
    var target := toks[objIdx].size;
    if target == 0 {
      return -1;
    }
    var pairsSeen, nextIsKey, i := 0, true, objIdx + 1;
    ghost var k, d := 0, 0;
    StandFirst(kids, objIdx);
    while pairsSeen < target
      invariant Standing(kids, objIdx, i, k, d) && k <= |kids|
      invariant var seen := if d > 0 then k + 1 else k;
        nextIsKey == (seen % 2 == 0) && pairsSeen == seen / 2 && NoKeyBefore(src, kids, seen, key) && seen <= |kids|
      decreases |toks| - i
    {
      StandToken(t, 0, |src|, objIdx, i, k, d);
      StandNext(kids, objIdx, i, k, d);
      if toks[i].start >= toks[objIdx].end {
        break;
      }
      if toks[i].parent == objIdx {
        if nextIsKey {
          KeyToken(t, |src|, objIdx, k);
          if toks[i].kind == String && toks[i].size == |key| {
            var match_ := Equal(src, toks[i].start, key);
            if match_ {
              StandKey(kids, objIdx, i, k);
              assert FirstKey(src, kids, k, key);
              return i + 1;
            }
          }
          nextIsKey := false;
        } else {
          pairsSeen := pairsSeen + 1;
          nextIsKey := true;
        }
      }
      if d + 1 < Size(kids[k]) {
        d := d + 1;
      } else {
        k, d := k + 1, 0;
      }
      i := i + 1;
    }
    return -1;
  }

  method Equal(src: seq<char>, at: nat, key: seq<char>) returns (b: bool)
    requires at + |key| <= |src|
    ensures b <==> src[at..at + |key|] == key
  {
    for k := 0 to |key|
      invariant forall i :: 0 <= i < k ==> src[at..at + |key|][i] == key[i]
    {
      assert src[at..at + |key|][k] == src[at + k];
      if src[at + k] != key[k] {
        return false;
      }
    }
    return true;
  }

  lemma StandFirst(kids: seq<Tree>, at: nat)
    ensures Standing(kids, at, at + 1, 0, 0)
  {
    assert kids[..0] == [];
  }

  lemma StandKey(kids: seq<Tree>, at: nat, i: nat, k: nat)
    requires Standing(kids, at, i, k, 0) && k < |kids| && IsString(kids[k])
    ensures i + 1 == ValueIndex(kids, at, k)
  {
    assert kids[..k + 1][..k] == kids[..k];
  }

  lemma ObjectKids(t: Tree, to: nat, at: nat)
    requires at < Size(t) && Proper(t, 0, to) && KindOf(Subtree(t, at)) == Object
    ensures var s := Subtree(t, at); IsObject(s) && |s.kids| % 2 == 0 && SizeField(s) == |s.kids| / 2
  {
    SubProper(t, 0, to, at);
  }

  lemma KeyToken(t: Tree, to: nat, at: nat, k: nat)
    requires at < Size(t) && Proper(t, 0, to) && IsObject(Subtree(t, at))
    requires k < |Subtree(t, at).kids| && k % 2 == 0
    ensures var key := Subtree(t, at).kids[k];
      IsString(key) && key.start <= key.end <= to && SizeField(key) == key.end - key.start
  {
    hide ProperAll;
    SubProper(t, 0, to, at);
    var s := Subtree(t, at);
    KidSpan(s, 0, to, k);
  }
}
