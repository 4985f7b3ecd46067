/** The texts the tokenizer accepts are exactly the spaced renderings of values of at most 64 levels. */
module JsonExact {
  import opened Options
  import opened JsonTree
  import opened JsonSyntax
  import R = JsonRender

  /** The white space found in a text at each offset. */
  function GapsOf(src: seq<char>): R.Gaps
  {
    (p: nat) => if p <= |src| then src[p..SkipSpace(src, p)] else []
  }

  lemma {:induction false} SkippedBlank(src: seq<char>, pos: nat)
    requires pos <= |src|
    ensures R.IsBlank(src[pos..SkipSpace(src, pos)]) && SkipSpace(src, SkipSpace(src, pos)) == SkipSpace(src, pos)
    decreases |src| - pos
  {
    if pos < |src| && IsSpace(src[pos]) {
      SkippedBlank(src, pos + 1);
      var q := SkipSpace(src, pos);
      assert src[pos..q] == [src[pos]] + src[pos + 1..q];
    }
  }

  lemma GapsBlank(src: seq<char>)
    ensures R.AllSpace(GapsOf(src))
  {
    hide SkipSpace;
    hide R.IsBlank;
    forall p: nat
      ensures R.IsBlank(GapsOf(src)(p))
    {
      if p <= |src| {
        SkippedBlank(src, p);
      } else {
        R.NoBlank();
      }
    }
  }

  lemma {:induction false} EndIsRaw(src: seq<char>, pos: nat)
    requires pos <= |src| && StringEnd(src, pos).Some?
    ensures R.RawOk(src[pos..StringEnd(src, pos).value])
    decreases |src| - pos
  {
    var q := StringEnd(src, pos).value;
    var s := src[pos..q];
    if src[pos] != '"' {
      var k := if src[pos] == '\\' then 2 else 1;
      EndIsRaw(src, pos + k);
      assert s[k..] == src[pos + k..q];
    }
  }

  lemma {:induction false} NumberRun(src: seq<char>, pos: nat)
    requires pos <= |src|
    ensures forall i :: pos <= i < NumberEnd(src, pos) ==> IsNumberChar(src[i])
    decreases |src| - pos
  {
    if pos < |src| && IsNumberChar(src[pos]) {
      NumberRun(src, pos + 1);
    }
  }

  /** The value is written from `p` up to `e`. */
  ghost predicate Written(src: seq<char>, j: R.Json, p: nat, e: nat, depth: nat)
  {
    R.Valid(j) && depth + R.Depth(j) <= MaxDepth && p <= e <= |src| && R.Render(j, p, GapsOf(src)) == src[p..e]
  }

  ghost predicate ItemWritten(src: seq<char>, x: R.Item, obj: bool, p: nat, e: nat, depth: nat)
  {
    && R.ItemOk(x, obj) && depth + R.DepthItem(x) <= MaxDepth && p <= e <= |src|
    && R.RenderItem(x, p, GapsOf(src)) == src[p..e]
  }

  ghost predicate ItemsWritten(src: seq<char>, items: seq<R.Item>, obj: bool, p: nat, e: nat, depth: nat)
  {
    && R.ItemsOk(items, obj) && depth + R.DepthAll(items) <= MaxDepth && p <= e <= |src|
    && R.RenderItems(items, obj, p, GapsOf(src)) == src[p..e]
  }

  lemma {:induction false} ValueWritten(src: seq<char>, pos: nat, depth: nat) returns (j: R.Json)
    requires pos <= |src| && Value(src, pos, depth).Good? && depth <= MaxDepth
    ensures Written(src, j, SkipSpace(src, pos), Value(src, pos, depth).pos, depth)
    decreases |src| - pos, 1
  {
    hide SkipSpace;
    hide Container;
    hide JsonSyntax.Text;
    hide NumberEnd;
    hide Literal;
    hide Written;
    var p := SkipSpace(src, pos);
    var c := src[p];
    if c == '{' || c == '[' {
      j := ContainerWritten(src, p, depth + 1);
    } else if c == '"' {
      j := TextWritten(src, p, depth);
    } else if c == 't' {
      j := WordWritten(src, p, True, depth);
    } else if c == 'f' {
      j := WordWritten(src, p, False, depth);
    } else if c == 'n' {
      j := WordWritten(src, p, Null, depth);
    } else {
      j := NumberWritten(src, p, depth);
    }
  }

  lemma TextWritten(src: seq<char>, p: nat, depth: nat) returns (j: R.Json)
    requires p <= |src| && JsonSyntax.Text(src, p).Good? && depth <= MaxDepth
    ensures Written(src, j, p, JsonSyntax.Text(src, p).pos, depth)
  {
    hide StringEnd;
    hide R.RawOk;
    var q := StringEnd(src, p + 1).value;
    EndIsRaw(src, p + 1);
    j := R.Text(src[p + 1..q]);
    QuotedSlice(src, p, q);
  }

  lemma WordWritten(src: seq<char>, p: nat, kind: Kind, depth: nat) returns (j: R.Json)
    requires kind == True || kind == False || kind == Null
    requires Literal(src, p, R.Spelled(kind), kind).Good? && depth <= MaxDepth
    ensures Written(src, j, p, Literal(src, p, R.Spelled(kind), kind).pos, depth)
  {
    j := R.Word(kind);
  }

  lemma QuotedSlice(src: seq<char>, p: nat, q: nat)
    requires p < q < |src| && src[p] == '"' && src[q] == '"'
    ensures R.Quoted(src[p + 1..q]) == src[p..q + 1]
  {
  }

  lemma NumberWritten(src: seq<char>, p: nat, depth: nat) returns (j: R.Json)
    requires p < |src| && (src[p] == '-' || '0' <= src[p] <= '9') && depth <= MaxDepth
    ensures Written(src, j, p, NumberEnd(src, p), depth)
  {
    var e := NumberEnd(src, p);
    NumberRun(src, p);
    j := R.Numeral(src[p..e]);
    assert e >= p + 1;
    assert j.text[0] == src[p];
  }

  lemma {:induction false} ContainerWritten(src: seq<char>, pos: nat, depth: nat) returns (j: R.Json)
    requires pos < |src| && (src[pos] == '{' || src[pos] == '[') && Container(src, pos, depth).Good?
    requires 1 <= depth <= MaxDepth
    ensures Written(src, j, pos, Container(src, pos, depth).pos, depth - 1)
    decreases |src| - pos, 0
  {
    hide SkipSpace;
    hide Items;
    hide R.RenderItems;
    hide R.DepthAll;
    hide GapsOf;
    var obj := src[pos] == '{';
    var q := SkipSpace(src, pos + 1);
    var e := Container(src, pos, depth).pos;
    var items: seq<R.Item> := [];
    SkippedBlank(src, pos + 1);
    if At(src, q, Close(obj)) {
      NoItems(src, pos + 1, obj, depth);
    } else {
      var f;
      items, f := ItemsAreWritten(src, q, depth, obj);
      GapFirst(src, items, obj, pos + 1, q, f, SkipSpace(src, f), e, depth);
    }
    j := R.Group(obj, items);
    GroupWritten(src, j, pos, e, depth);
  }

  lemma NoItems(src: seq<char>, p: nat, obj: bool, depth: nat)
    requires p <= |src| && At(src, SkipSpace(src, p), Close(obj)) && depth <= MaxDepth
    ensures ItemsWritten(src, [], obj, p, SkipSpace(src, p) + 1, depth)
  {
    hide SkipSpace;
    var q := SkipSpace(src, p);
    assert src[p..q] + [src[q]] == src[p..q + 1];
  }

  /** The tail of a rendered list, from the separator of its first item on. */
  function Tail(items: seq<R.Item>, obj: bool, q: nat, ws: R.Gaps): seq<char>
    requires |items| > 0 && R.ItemsOk(items, obj)
  {
    if |items| == 1 then [Close(obj)] else [','] + R.RenderItems(items[1..], obj, q + 1, ws)
  }

  /** A list whose first item and the white space around it stand in the text. */
  lemma FirstParts(src: seq<char>, items: seq<R.Item>, obj: bool, a: nat, p: nat, e: nat, q: nat, ws: R.Gaps)
    requires |items| > 0 && R.ItemsOk(items, obj) && a <= p <= e <= q <= |src|
    requires ws(a) == src[a..p] && R.RenderItem(items[0], p, ws) == src[p..e] && ws(e) == src[e..q]
    ensures R.RenderItems(items, obj, a, ws) == src[a..q] + Tail(items, obj, q, ws)
  {
    hide R.RenderItem;
    hide R.RenderItems;
    assert R.ItemOk(items[0], obj);
    hide R.ItemsOk;
    R.RenderUnfold(items, obj, a, ws);
    assert a + |ws(a)| == p && p + |src[p..e]| == e;
    NextIs(items[0], a, p, e, q, ws, src);
    ThreeParts(src, a, p, e, q);
  }

  lemma NextIs(x: R.Item, a: nat, p: nat, e: nat, q: nat, ws: R.Gaps, src: seq<char>)
    requires R.Valid(x.value) && a <= p <= e <= q <= |src|
    requires ws(a) == src[a..p] && R.RenderItem(x, p, ws) == src[p..e] && ws(e) == src[e..q]
    ensures R.Next(x, a, ws) == q + 1
  {
    hide R.RenderItem;
    assert a + |ws(a)| == p;
    assert p + |R.RenderItem(x, p, ws)| == e;
  }

  lemma ThreeParts(src: seq<char>, a: nat, p: nat, e: nat, q: nat)
    requires a <= p <= e <= q <= |src|
    ensures src[a..p] + src[p..e] + src[e..q] == src[a..q]
  {
  }

  /** White space before the first item is part of the list. */
  lemma GapFirst(src: seq<char>, items: seq<R.Item>, obj: bool, a: nat, p: nat, e: nat, q: nat, z: nat, depth: nat)
    requires |items| > 0 && a <= p <= e <= q <= |src| && ItemsWritten(src, items, obj, p, z, depth)
    requires p == SkipSpace(src, a) == SkipSpace(src, p) && q == SkipSpace(src, e)
    requires R.RenderItem(items[0], p, GapsOf(src)) == src[p..e]
    ensures ItemsWritten(src, items, obj, a, z, depth)
  {
    hide SkipSpace;
    hide R.RenderItem;
    hide R.RenderItems;
    hide R.DepthAll;
    hide R.ItemsOk;
    hide Tail;
    var ws := GapsOf(src);
    FirstParts(src, items, obj, a, p, e, q, ws);
    FirstParts(src, items, obj, p, p, e, q, ws);
    JoinFront(src, a, p, q, z, Tail(items, obj, q, ws));
  }

  lemma JoinFront(src: seq<char>, a: nat, p: nat, q: nat, z: nat, t: seq<char>)
    requires a <= p <= q <= |src| && p <= z <= |src| && src[p..q] + t == src[p..z]
    ensures src[a..q] + t == src[a..z]
  {
    assert src[a..q] == src[a..p] + src[p..q];
    assert src[a..z] == src[a..p] + src[p..z];
    assert src[a..p] + src[p..q] + t == src[a..p] + (src[p..q] + t);
  }

  lemma GroupWritten(src: seq<char>, j: R.Json, pos: nat, e: nat, depth: nat)
    requires pos < |src| && src[pos] == (if j.Group? && j.obj then '{' else '[') && j.Group? && depth >= 1
    requires ItemsWritten(src, j.items, j.obj, pos + 1, e, depth)
    ensures Written(src, j, pos, e, depth - 1)
  {
    hide R.RenderItems;
    hide R.DepthAll;
    hide GapsOf;
    hide R.RawOk;
    assert [src[pos]] + src[pos + 1..e] == src[pos..e];
  }

  lemma {:induction false} ItemIsWritten(src: seq<char>, pos: nat, depth: nat, obj: bool) returns (x: R.Item)
    requires pos <= |src| && JsonSyntax.Item(src, pos, depth, obj).Kids? && depth <= MaxDepth
    ensures ItemWritten(src, x, obj, SkipSpace(src, pos), JsonSyntax.Item(src, pos, depth, obj).pos, depth)
    decreases |src| - pos, 2
  {
    hide SkipSpace;
    hide Value;
    hide JsonSyntax.Text;
    hide R.Render;
    hide R.Valid;
    hide R.Depth;
    hide GapsOf;
    var p := SkipSpace(src, pos);
    var e := JsonSyntax.Item(src, pos, depth, obj).pos;
    SkippedBlank(src, pos);
    if !obj {
      var j := ValueWritten(src, p, depth);
      x := R.Item(None, j);
    } else {
      var k := JsonSyntax.Text(src, p).pos;
      var q := SkipSpace(src, k);
      var j := ValueWritten(src, q + 1, depth);
      x := KeyWritten(src, p, k, q, j, e, depth);
    }
  }

  lemma KeyWritten(src: seq<char>, p: nat, k: nat, q: nat, j: R.Json, e: nat, depth: nat) returns (x: R.Item)
    requires p <= |src| && JsonSyntax.Text(src, p).Good? && k == JsonSyntax.Text(src, p).pos
    requires q == SkipSpace(src, k) < |src| && src[q] == ':' && Written(src, j, SkipSpace(src, q + 1), e, depth)
    ensures ItemWritten(src, x, true, p, e, depth)
  {
    hide SkipSpace;
    hide StringEnd;
    hide R.Render;
    hide R.Valid;
    hide R.Depth;
    hide R.RawOk;
    hide JsonSyntax.Text;
    hide GapsOf;
    var raw := KeyText(src, p);
    x := R.Item(Some(raw), j);
    var v := SkipSpace(src, q + 1);
    KeyPartSlice(src, raw, p, k, q, v);
    MemberJoin(src, raw, j, p, v, e);
  }

  lemma KeyText(src: seq<char>, p: nat) returns (raw: seq<char>)
    requires p <= |src| && JsonSyntax.Text(src, p).Good?
    ensures R.RawOk(raw) && R.Quoted(raw) == src[p..JsonSyntax.Text(src, p).pos]
  {
    hide StringEnd;
    hide R.RawOk;
    hide R.Quoted;
    var q := StringEnd(src, p + 1).value;
    raw := src[p + 1..q];
    EndIsRaw(src, p + 1);
    QuotedSlice(src, p, q);
  }

  lemma MemberJoin(src: seq<char>, raw: seq<char>, j: R.Json, p: nat, v: nat, e: nat)
    requires p <= v <= e <= |src| && R.Valid(j)
    requires R.KeyPart(raw, p, GapsOf(src)) == src[p..v] && R.Render(j, v, GapsOf(src)) == src[v..e]
    ensures R.RenderItem(R.Item(Some(raw), j), p, GapsOf(src)) == src[p..e]
  {
    hide R.KeyPart;
    hide R.Render;
    hide R.Valid;
    hide GapsOf;
    assert p + |src[p..v]| == v;
    assert src[p..v] + src[v..e] == src[p..e];
  }

  lemma KeyPartSlice(src: seq<char>, raw: seq<char>, p: nat, k: nat, q: nat, v: nat)
    requires p <= k <= q < v <= |src| && R.Quoted(raw) == src[p..k] && src[q] == ':'
    requires q == SkipSpace(src, k) && v == SkipSpace(src, q + 1)
    ensures R.KeyPart(raw, p, GapsOf(src)) == src[p..v]
  {
    hide SkipSpace;
    hide R.Quoted;
    var ws := GapsOf(src);
    assert ws(k) == src[k..q] && ws(q + 1) == src[q + 1..v];
    assert src[p..k] + src[k..q] + [src[q]] == src[p..q + 1];
    assert src[p..q + 1] + src[q + 1..v] == src[p..v];
  }

  /** The list is written, its first item from behind the white space up to `f`. */
  lemma {:induction false} ItemsAreWritten(src: seq<char>, pos: nat, depth: nat, obj: bool)
    returns (items: seq<R.Item>, f: nat)
    requires pos <= |src| && Items(src, pos, depth, obj).Kids? && depth <= MaxDepth
    ensures |items| > 0 && ItemsWritten(src, items, obj, pos, Items(src, pos, depth, obj).pos, depth)
    ensures SkipSpace(src, pos) <= f <= |src|
    ensures R.RenderItem(items[0], SkipSpace(src, pos), GapsOf(src)) == src[SkipSpace(src, pos)..f]
    decreases |src| - pos, 3
  {
    hide SkipSpace;
    hide JsonSyntax.Item;
    hide ItemWritten;
    hide ItemsWritten;
    hide R.RenderItem;
    hide GapsOf;
    f := JsonSyntax.Item(src, pos, depth, obj).pos;
    var x := ItemIsWritten(src, pos, depth, obj);
    var q := SkipSpace(src, f);
    ItemText(src, x, obj, SkipSpace(src, pos), f, depth);
    if At(src, q, ',') {
      var rest, r := ItemsAreWritten(src, q + 1, depth, obj);
      items := [x] + rest;
      MoreWritten(src, x, rest, obj, pos, f, q, Items(src, q + 1, depth, obj).pos, depth);
    } else {
      items := [x];
      LastWritten(src, x, obj, pos, f, q, depth);
    }
  }

  lemma ItemText(src: seq<char>, x: R.Item, obj: bool, p: nat, e: nat, depth: nat)
    requires ItemWritten(src, x, obj, p, e, depth)
    ensures p <= e <= |src| && R.Valid(x.value) && R.RenderItem(x, p, GapsOf(src)) == src[p..e]
  {
  }

  lemma LastWritten(src: seq<char>, x: R.Item, obj: bool, pos: nat, e: nat, q: nat, depth: nat)
    requires pos <= |src| && ItemWritten(src, x, obj, SkipSpace(src, pos), e, depth)
    requires q == SkipSpace(src, e) < |src| && src[q] == Close(obj)
    ensures ItemsWritten(src, [x], obj, pos, q + 1, depth)
  {
    hide SkipSpace;
    hide R.RenderItem;
    hide R.RenderItems;
    hide R.ItemOk;
    hide R.DepthItem;
    hide R.DepthAll;
    OneDepth(x);
    FirstParts(src, [x], obj, pos, SkipSpace(src, pos), e, q, GapsOf(src));
    assert src[pos..q] + [src[q]] == src[pos..q + 1];
  }

  lemma OneDepth(x: R.Item)
    ensures R.DepthAll([x]) == R.DepthItem(x)
  {
    assert [x][1..] == [];
  }

  lemma MoreDepth(x: R.Item, rest: seq<R.Item>)
    ensures R.DepthAll([x] + rest) == if R.DepthItem(x) < R.DepthAll(rest) then R.DepthAll(rest) else R.DepthItem(x)
  {
    assert ([x] + rest)[1..] == rest;
  }

  lemma MoreWritten(src: seq<char>, x: R.Item, rest: seq<R.Item>, obj: bool, pos: nat, e: nat, q: nat, z: nat,
                    depth: nat)
    requires pos <= |src| && ItemWritten(src, x, obj, SkipSpace(src, pos), e, depth) && |rest| > 0
    requires q == SkipSpace(src, e) < |src| && src[q] == ',' && ItemsWritten(src, rest, obj, q + 1, z, depth)
    ensures ItemsWritten(src, [x] + rest, obj, pos, z, depth)
  {
    hide SkipSpace;
    hide R.RenderItem;
    hide R.RenderItems;
    hide R.ItemOk;
    hide R.DepthItem;
    hide R.DepthAll;
    var items := [x] + rest;
    assert items[1..] == rest && items[0] == x;
    MoreDepth(x, rest);
    FirstParts(src, items, obj, pos, SkipSpace(src, pos), e, q, GapsOf(src));
    assert src[pos..q] + ([src[q]] + src[q + 1..z]) == src[pos..z];
  }

  /** The accepted texts are exactly the values of at most 64 levels, written with any white space. */
  lemma DocumentExact(src: seq<char>)
    ensures Document(src).Good? <==> exists j, ws :: Spelling(src, j, ws)
  {
    hide Value;
    hide R.Render;
    hide R.Valid;
    hide R.Depth;
    hide R.TreeAt;
    hide SkipSpace;
    if Document(src).Good? {
      var j := ValueWritten(src, 0, 0);
      var ws, p, e := GapsOf(src), SkipSpace(src, 0), Value(src, 0, 0).pos;
      GapsBlank(src);
      assert ws(0) == src[0..p] && ws(e) == src[e..];
      assert src[0..p] + src[p..e] + src[e..] == src;
      assert Spelling(src, j, ws);
    }
    if exists j, ws :: Spelling(src, j, ws) {
      var j, ws :| Spelling(src, j, ws);
      R.RenderReadsBack(j, ws);
    }
  }

  /** `src` spells the value with the white space `ws`. */
  ghost predicate Spelling(src: seq<char>, j: R.Json, ws: R.Gaps)
  {
    R.Valid(j) && R.Depth(j) <= MaxDepth && R.AllSpace(ws) && src == R.RenderDocument(j, ws)
  }
}
