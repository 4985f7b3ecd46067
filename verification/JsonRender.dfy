/** JSON values written out with any white space between their tokens, and the proof that the tokenizer reads
    them back. */
module JsonRender {
  import opened Options
  import opened JsonTree
  import opened JsonSyntax
  import opened JsonDecode

  datatype Json =
    | Word(kind: Kind)
    | Numeral(text: seq<char>)
    | Text(raw: seq<char>)
    | Group(obj: bool, items: seq<Item>)

  /** An element of an array, or a value with its key. Keys and texts are as they stand between the quotes. */
  datatype Item = Item(key: Option<seq<char>>, value: Json)

  predicate Valid(j: Json)
  {
    match j
    case Word(kind) => kind == True || kind == False || kind == Null
    case Numeral(text) =>
      |text| > 0 && (text[0] == '-' || '0' <= text[0] <= '9') && forall i :: 0 <= i < |text| ==> IsNumberChar(text[i])
    case Text(raw) => RawOk(raw)
    case Group(obj, items) => forall i :: 0 <= i < |items| ==> KeyOk(items[i].key, obj) && Valid(items[i].value)
  }

  predicate KeyOk(key: Option<seq<char>>, obj: bool)
  {
    (obj <==> key.Some?) && (key.Some? ==> RawOk(key.value))
  }

  /** What may stand between quotes: no bare quote or control character, and no backslash at the end. */
  predicate RawOk(s: seq<char>)
  {
    |s| == 0
    || if s[0] == '\\' then |s| >= 2 && RawOk(s[2..]) else s[0] != '"' && s[0] >= ' ' && RawOk(s[1..])
  }

  function Depth(j: Json): nat
  {
    match j
    case Group(_, items) => 1 + DepthAll(items)
    case _ => 0
  }

  function DepthAll(items: seq<Item>): nat
  {
    if |items| == 0 then 0 else
      var a, b := DepthItem(items[0]), DepthAll(items[1..]);
      if a < b then b else a
  }

  function DepthItem(x: Item): nat
  {
    Depth(x.value)
  }

  function Spelled(kind: Kind): seq<char>
  {
    if kind == True then "true" else if kind == False then "false" else "null"
  }

  /** The white space at each offset of a text: whatever stands there between two tokens. */
  type Gaps = nat -> seq<char>

  ghost predicate AllSpace(ws: Gaps)
  {
    forall p: nat :: IsBlank(ws(p))
  }

  predicate IsBlank(g: seq<char>)
  {
    forall i :: 0 <= i < |g| ==> g[i] == ' ' || g[i] == '\t' || g[i] == '\n' || g[i] == '\r'
  }

  /** The text of a value that begins at offset `p`. */
  function Render(j: Json, p: nat, ws: Gaps): (s: seq<char>)
    requires Valid(j)
  {
    match j
    case Word(kind) => Spelled(kind)
    case Numeral(text) => text
    case Text(raw) => Quoted(raw)
    case Group(obj, items) => [if obj then '{' else '['] + RenderItems(items, obj, p + 1, ws)
  }

  function Quoted(raw: seq<char>): seq<char>
  {
    ['"'] + raw + ['"']
  }

  /** The key of a member, the colon and the white space around it. */
  function KeyPart(key: seq<char>, p: nat, ws: Gaps): seq<char>
  {
    var k := Quoted(key);
    var c := k + ws(p + |k|) + [':'];
    c + ws(p + |c|)
  }

  function RenderItem(x: Item, p: nat, ws: Gaps): seq<char>
    requires Valid(x.value)
    decreases x, 0
  {
    if x.key.None? then Render(x.value, p, ws) else
      var k := KeyPart(x.key.value, p, ws);
      k + Render(x.value, p + |k|, ws)
  }

  predicate ItemOk(x: Item, obj: bool)
  {
    KeyOk(x.key, obj) && Valid(x.value)
  }

  predicate ItemsOk(items: seq<Item>, obj: bool)
  {
    forall i :: 0 <= i < |items| ==> ItemOk(items[i], obj)
  }

  /** The offset behind the first item and the separator that follows it. */
  function Next(x: Item, p: nat, ws: Gaps): nat
    requires Valid(x.value)
    decreases x, 1
  {
    var q := p + |ws(p)| + |RenderItem(x, p + |ws(p)|, ws)|;
    q + |ws(q)| + 1
  }

  /** The items from offset `p` on, each after its white space and followed by more of it and a comma or the
      closing bracket. */
  function RenderItems(items: seq<Item>, obj: bool, p: nat, ws: Gaps): seq<char>
    requires ItemsOk(items, obj)
  {
    var g := ws(p);
    if |items| == 0 then g + [Close(obj)] else
      var first := RenderItem(items[0], p + |g|, ws);
      var h := ws(p + |g| + |first|);
      g + first + h
      + if |items| == 1 then [Close(obj)] else [','] + RenderItems(items[1..], obj, Next(items[0], p, ws), ws)
  }

  /** A whole document, with white space before and after the value. */
  function RenderDocument(j: Json, ws: Gaps): seq<char>
    requires Valid(j)
  {
    var g := ws(0);
    var r := Render(j, |g|, ws);
    g + r + ws(|g| + |r|)
  }

  // ----- the trees the text should give

  function TreeAt(j: Json, p: nat, ws: Gaps): Tree
    requires Valid(j)
  {
    match j
    case Word(kind) => Leaf(kind, p, p + |Spelled(kind)|)
    case Numeral(text) => Leaf(Number, p, p + |text|)
    case Text(raw) => Leaf(String, p + 1, p + 1 + |raw|)
    case Group(obj, items) => Node(obj, p, p + |Render(j, p, ws)|, KidsAt(items, obj, p + 1, ws))
  }

  function ItemTrees(x: Item, p: nat, ws: Gaps): seq<Tree>
    requires Valid(x.value)
  {
    if x.key.None? then [TreeAt(x.value, p, ws)] else
      [Leaf(String, p + 1, p + 1 + |x.key.value|), TreeAt(x.value, p + |KeyPart(x.key.value, p, ws)|, ws)]
  }

  function KidsAt(items: seq<Item>, obj: bool, p: nat, ws: Gaps): seq<Tree>
    requires ItemsOk(items, obj)
  {
    if |items| == 0 then [] else
      ItemTrees(items[0], p + |ws(p)|, ws) + KidsAt(items[1..], obj, Next(items[0], p, ws), ws)
  }

  // ----- reading back

  /** The text after a value must not continue a number. */
  predicate Ends(after: seq<char>)
  {
    |after| == 0 || !IsNumberChar(after[0])
  }

  /** White space is skipped up to the next token. */
  lemma {:induction false} SkipsGap(before: seq<char>, g: seq<char>, rest: seq<char>)
    requires IsBlank(g) && (rest == [] || !IsSpace(rest[0]))
    ensures var src := before + g + rest; SkipSpace(src, |before|) == |before| + |g|
    decreases |g|
  {
    var src := before + g + rest;
    if |g| > 0 {
      assert src[|before|] == g[0];
      SkipsGap(before + [g[0]], g[1..], rest);
      assert src == before + [g[0]] + g[1..] + rest;
    } else if rest != [] {
      assert src[|before|] == rest[0];
    }
  }

  lemma FirstChar(j: Json, p: nat, ws: Gaps)
    requires Valid(j)
    ensures |Render(j, p, ws)| > 0
    ensures var c := Render(j, p, ws)[0]; !IsSpace(c) && c != Close(true) && c != Close(false)
  {
  }

  lemma {:induction false} NumberRuns(src: seq<char>, p: nat, n: nat)
    requires p + n <= |src| && (forall i :: p <= i < p + n ==> IsNumberChar(src[i]))
    requires p + n == |src| || !IsNumberChar(src[p + n])
    ensures NumberEnd(src, p) == p + n
    decreases n
  {
    if n > 0 {
      NumberRuns(src, p + 1, n - 1);
    }
  }

  /** The scan for the closing quote takes such text whole. */
  lemma {:induction false} RawIsOneString(before: seq<char>, s: seq<char>, after: seq<char>)
    requires RawOk(s)
    ensures StringEnd(before + s + ['"'] + after, |before|) == Some(|before| + |s|)
    decreases |s|
  {
    var src, p := before + s + ['"'] + after, |before|;
    if |s| == 0 {
      assert src[p] == '"';
    } else {
      var k := if s[0] == '\\' then 2 else 1;
      RawIsOneString(before + s[..k], s[k..], after);
      assert src == (before + s[..k]) + s[k..] + ['"'] + after;
      assert src[p] == s[0];
    }
  }

  lemma ReadString(before: seq<char>, s: seq<char>, after: seq<char>)
    requires RawOk(s)
    ensures var src, p := before + Quoted(s) + after, |before|;
      JsonSyntax.Text(src, p) == Good(Leaf(String, p + 1, p + 1 + |s|), p + |s| + 2)
  {
    hide StringEnd;
    hide RawOk;
    hide JsonSyntax.Text;
    var src := before + Quoted(s) + after;
    QuotedSplit(before, s, after);
    RawIsOneString(before + ['"'], s, after);
    TextAt(src, |before|, |before| + 1 + |s|);
  }

  lemma QuotedSplit(before: seq<char>, s: seq<char>, after: seq<char>)
    ensures before + Quoted(s) + after == (before + ['"']) + s + ['"'] + after
    ensures (before + Quoted(s) + after)[|before|] == '"'
  {
  }

  lemma TextAt(src: seq<char>, p: nat, q: nat)
    requires p < |src| && src[p] == '"' && StringEnd(src, p + 1) == Some(q)
    ensures JsonSyntax.Text(src, p) == Good(Leaf(String, p + 1, q), q + 1)
  {
    hide StringEnd;
  }

  /** Escaped text may stand between quotes. */
  lemma {:induction false} EscapedRaw(s: seq<char>)
    ensures RawOk(Escape(s))
  {
    if |s| > 0 {
      EscapedRaw(s[1..]);
      OneEscapedRaw(s[0], Escape(s[1..]));
    }
  }

  lemma OneEscapedRaw(c: char, rest: seq<char>)
    requires RawOk(rest)
    ensures RawOk(EscapeChar(c) + rest)
  {
    var e := EscapeChar(c);
    var s := e + rest;
    assert s[|e|..] == rest;
    if |e| == 6 {
      assert s[2..][1..] == s[3..] && s[3..][1..] == s[4..] && s[4..][1..] == s[5..] && s[5..][1..] == s[6..];
      assert RawOk(s[5..]) && RawOk(s[4..]) && RawOk(s[3..]) && RawOk(s[2..]);
    }
  }

  /** The tokenizer takes escaped text between quotes as one string. */
  lemma EscapeIsOneString(before: seq<char>, s: seq<char>, after: seq<char>)
    ensures var src := before + Escape(s) + ['"'] + after;
      StringEnd(src, |before|) == Some(|before| + |Escape(s)|)
  {
    hide StringEnd;
    hide RawOk;
    hide Escape;
    EscapedRaw(s);
    RawIsOneString(before, Escape(s), after);
  }

  lemma {:induction false} ReadValue(before: seq<char>, j: Json, after: seq<char>, depth: nat, ws: Gaps)
    requires Valid(j) && Ends(after) && depth + Depth(j) <= MaxDepth && AllSpace(ws)
    ensures var r := Render(j, |before|, ws);
      Value(before + r + after, |before|, depth) == Good(TreeAt(j, |before|, ws), |before| + |r|)
    decreases j, 1
  {
    hide Container;
    hide JsonSyntax.Text;
    hide NumberEnd;
    hide RenderItems;
    hide KidsAt;
    hide RawOk;
    hide Literal;
    hide AllSpace;
    var r := Render(j, |before|, ws);
    var src, p := before + r + after, |before|;
    FirstChar(j, p, ws);
    assert src[p] == r[0];
    assert SkipSpace(src, p) == p;
    match j
    case Word(kind) =>
      ReadWord(before, kind, after);
    case Numeral(text) =>
      ReadNumeral(before, text, after);
    case Text(raw) =>
      ReadString(before, raw, after);
    case Group(obj, items) =>
      ReadGroup(before, j, after, depth + 1, ws);
  }

  lemma ReadWord(before: seq<char>, kind: Kind, after: seq<char>)
    ensures var src, p, w := before + Spelled(kind) + after, |before|, Spelled(kind);
      Literal(src, p, w, kind) == Good(Leaf(kind, p, p + |w|), p + |w|)
  {
    var src, p, w := before + Spelled(kind) + after, |before|, Spelled(kind);
    assert src[p..p + |w|] == w;
  }

  lemma ReadNumeral(before: seq<char>, text: seq<char>, after: seq<char>)
    requires Ends(after) && forall i :: 0 <= i < |text| ==> IsNumberChar(text[i])
    ensures NumberEnd(before + text + after, |before|) == |before| + |text|
  {
    var src, p := before + text + after, |before|;
    forall i | p <= i < p + |text|
      ensures IsNumberChar(src[i])
    {
      assert src[i] == text[i - p];
    }
    assert after != [] ==> src[p + |text|] == after[0];
    NumberRuns(src, p, |text|);
  }

  lemma {:induction false} ReadGroup(before: seq<char>, j: Json, after: seq<char>, depth: nat, ws: Gaps)
    requires Valid(j) && j.Group? && depth + DepthAll(j.items) <= MaxDepth && AllSpace(ws)
    ensures var r := Render(j, |before|, ws);
      Container(before + r + after, |before|, depth) == Good(TreeAt(j, |before|, ws), |before| + |r|)
    decreases j, 0
  {
    hide Items;
    hide KidsAt;
    hide RenderItems;
    hide DepthAll;
    hide IsBlank;
    var open := if j.obj then '{' else '[';
    var p := |before|;
    var body := RenderItems(j.items, j.obj, p + 1, ws);
    var src := before + Render(j, p, ws) + after;
    assert src == (before + [open]) + body + after;
    var g := ws(p + 1);
    BodyStart(j.items, j.obj, p + 1, ws);
    var rest := body[|g|..] + after;
    assert src == (before + [open]) + g + rest;
    assert IsBlank(g);
    SkipsGap(before + [open], g, rest);
    assert src[p] == open && src[p + 1 + |g|] == body[|g|];
    if |j.items| > 0 {
      ReadItems(before + [open], j.items, after, depth, j.obj, ws, true);
    } else {
      NoKids(j.obj, p + 1, ws);
    }
  }

  lemma NoKids(obj: bool, p: nat, ws: Gaps)
    ensures KidsAt([], obj, p, ws) == []
  {
  }

  lemma BodyStart(items: seq<Item>, obj: bool, p: nat, ws: Gaps)
    requires ItemsOk(items, obj)
    ensures var b, g := RenderItems(items, obj, p, ws), ws(p);
      && |b| > |g| && b[..|g|] == g && !IsSpace(b[|g|]) && (|items| > 0 ==> b[|g|] != Close(obj))
      && (|items| == 0 ==> b == g + [Close(obj)])
  {
    hide RenderItem;
    if |items| > 0 {
      ItemStart(items[0], obj, p + |ws(p)|, ws);
    }
  }

  lemma ItemStart(x: Item, obj: bool, p: nat, ws: Gaps)
    requires ItemOk(x, obj)
    ensures var r := RenderItem(x, p, ws); |r| > 0 && !IsSpace(r[0]) && r[0] != Close(true) && r[0] != Close(false)
  {
    hide Render;
    FirstChar(x.value, p, ws);
  }

  /** An item after white space. */
  lemma {:induction false} ReadItem(before: seq<char>, g: seq<char>, x: Item, after: seq<char>, depth: nat, obj: bool,
                                    ws: Gaps)
    requires ItemOk(x, obj) && Ends(after) && depth + DepthItem(x) <= MaxDepth && AllSpace(ws) && IsBlank(g)
    ensures var p := |before| + |g|;
      var r := RenderItem(x, p, ws);
      JsonSyntax.Item(before + g + r + after, |before|, depth, obj) == Kids(ItemTrees(x, p, ws), p + |r|)
    decreases x, 0
  {
    hide JsonSyntax.Item;
    hide Value;
    hide JsonSyntax.Text;
    hide Render;
    hide TreeAt;
    hide KeyPart;
    hide IsBlank;
    hide SkipSpace;
    hide AllSpace;
    var p := |before| + |g|;
    var r := RenderItem(x, p, ws);
    var src := before + g + r + after;
    ItemStart(x, obj, p, ws);
    assert src == before + g + (r + after);
    SkipsGap(before, g, r + after);
    if x.key.None? {
      ReadValue(before + g, x.value, after, depth, ws);
      ElementAt(src, |before|, p, depth);
    } else {
      var q := ReadMember(before + g, x.key.value, x.value, after, depth, ws);
      MemberAt(src, |before|, p, depth, q);
    }
  }

  /** A key of `n` characters at `p`, a colon at `q`, and a value up to `e`. */
  ghost predicate MemberReads(src: seq<char>, p: nat, n: nat, q: nat, depth: nat, t: Tree, e: nat)
  {
    && p + n + 2 <= |src|
    && JsonSyntax.Text(src, p) == Good(Leaf(String, p + 1, p + 1 + n), p + n + 2)
    && SkipSpace(src, p + n + 2) == q < |src| && src[q] == ':'
    && Value(src, q + 1, depth) == Good(t, e)
  }

  /** A member reads as a key, a colon after white space, and a value after more of it. */
  lemma {:induction false} ReadMember(before: seq<char>, key: seq<char>, v: Json, after: seq<char>, depth: nat,
                                      ws: Gaps) returns (q: nat)
    requires Valid(v) && Ends(after) && depth + Depth(v) <= MaxDepth && AllSpace(ws) && RawOk(key)
    ensures var p, n := |before|, |key|;
      var k := KeyPart(key, p, ws);
      var r := Render(v, p + |k|, ws);
      MemberReads(before + (k + r) + after, p, n, q, depth, TreeAt(v, p + |k|, ws), p + |k| + |r|)
    decreases v, 2
  {
    hide JsonSyntax.Text;
    hide Value;
    hide Render;
    hide TreeAt;
    hide KeyPart;
    hide RawOk;
    hide SkipSpace;
    hide AllSpace;
    hide IsSpace;
    var p := |before|;
    var k := KeyPart(key, p, ws);
    var r := Render(v, p + |k|, ws);
    FirstChar(v, p + |k|, ws);
    assert before + (k + r) + after == before + k + (r + after) == before + k + r + after;
    q := ReadKey(before, key, r + after, ws);
    ReadValue(before + k, v, after, depth, ws);
    SpaceBeforeValue(before + k + r + after, q + 1, p + |k|, depth);
  }

  lemma ElementAt(src: seq<char>, pos: nat, p: nat, depth: nat)
    requires pos <= |src| && SkipSpace(src, pos) == p
    ensures JsonSyntax.Item(src, pos, depth, false)
      == match Value(src, p, depth)
         case Good(t, e) => Kids([t], e)
         case Bad(used) => BadKids(used)
  {
    hide Value;
    hide SkipSpace;
  }

  lemma MemberAt(src: seq<char>, pos: nat, p: nat, depth: nat, q: nat)
    requires pos <= |src| && SkipSpace(src, pos) == p && JsonSyntax.Text(src, p).Good?
    requires SkipSpace(src, JsonSyntax.Text(src, p).pos) == q < |src| && src[q] == ':'
    requires Value(src, q + 1, depth).Good?
    ensures var v := Value(src, q + 1, depth);
      JsonSyntax.Item(src, pos, depth, true) == Kids([JsonSyntax.Text(src, p).tree, v.tree], v.pos)
  {
    hide Value;
    hide JsonSyntax.Text;
    hide SkipSpace;
  }

  /** A value does not mind white space before it. */
  lemma SpaceBeforeValue(src: seq<char>, pos: nat, p: nat, depth: nat)
    requires pos <= p <= |src| && SkipSpace(src, pos) == p == SkipSpace(src, p)
    ensures Value(src, pos, depth) == Value(src, p, depth)
  {
    hide Container;
    hide JsonSyntax.Text;
    hide Literal;
    hide NumberEnd;
    hide SkipSpace;
  }

  /** A key reads as a string, a colon after white space, and more of it up to the value. */
  lemma ReadKey(before: seq<char>, key: seq<char>, rest: seq<char>, ws: Gaps) returns (q: nat)
    requires AllSpace(ws) && rest != [] && !IsSpace(rest[0]) && RawOk(key)
    ensures var p, n := |before|, |key|;
      var k := KeyPart(key, p, ws);
      var src := before + k + rest;
      && JsonSyntax.Text(src, p) == Good(Leaf(String, p + 1, p + 1 + n), p + n + 2)
      && p + n + 2 <= |src| && SkipSpace(src, p + n + 2) == q < |src| && src[q] == ':'
      && q + 1 <= p + |k| && SkipSpace(src, q + 1) == p + |k| == SkipSpace(src, p + |k|)
  {
    hide JsonSyntax.Text;
    hide RawOk;
    hide SkipSpace;
    hide IsBlank;
    var p, s := |before|, Quoted(key);
    var g := ws(p + |s|);
    var c := s + g + [':'];
    var h := ws(p + |c|);
    var src := before + KeyPart(key, p, ws) + rest;
    q := p + |s| + |g|;
    assert IsBlank(g) && IsBlank(h);
    NoBlank();
    assert src == before + s + (g + [':'] + h + rest);
    ReadString(before, key, g + [':'] + h + rest);
    assert src == (before + s) + g + ([':'] + h + rest);
    SkipsGap(before + s, g, [':'] + h + rest);
    assert src == (before + c) + h + rest;
    SkipsGap(before + c, h, rest);
    assert src == (before + c + h) + [] + rest;
    SkipsGap(before + c + h, [], rest);
  }

  /** One step of the item list, up to the separator after white space. */
  lemma ItemsUnfold(src: seq<char>, p: nat, depth: nat, obj: bool, ks: seq<Tree>, e: nat, q: nat)
    requires p <= |src| && e <= |src| && JsonSyntax.Item(src, p, depth, obj) == Kids(ks, e)
    requires SkipSpace(src, e) == q < |src|
    ensures src[q] == Close(obj) ==> Items(src, p, depth, obj) == Kids(ks, q + 1)
    ensures src[q] == ',' ==> Items(src, p, depth, obj) == Extend(ks, Items(src, q + 1, depth, obj))
  {
    hide JsonSyntax.Item;
    hide SkipSpace;
  }

  /** The parts of a rendered list. */
  lemma RenderUnfold(items: seq<Item>, obj: bool, p: nat, ws: Gaps)
    requires |items| > 0 && ItemsOk(items, obj)
    ensures ItemsOk(items[1..], obj)
    ensures var g := ws(p);
      var first := RenderItem(items[0], p + |g|, ws);
      var h := ws(p + |g| + |first|);
      RenderItems(items, obj, p, ws)
      == g + first + h
         + (if |items| == 1 then [Close(obj)] else [','] + RenderItems(items[1..], obj, Next(items[0], p, ws), ws))
  {
    hide RenderItem;
    hide ItemOk;
    hide KidsAt;
    hide Next;
  }

  lemma KidsUnfold(items: seq<Item>, obj: bool, p: nat, ws: Gaps)
    requires |items| > 0 && ItemsOk(items, obj)
    ensures ItemsOk(items[1..], obj)
    ensures KidsAt(items, obj, p, ws)
      == ItemTrees(items[0], p + |ws(p)|, ws) + KidsAt(items[1..], obj, Next(items[0], p, ws), ws)
  {
    hide RenderItem;
    hide ItemTrees;
    hide RenderItems;
    hide Next;
    hide ItemOk;
  }

  /** The first item of a list, from before its white space or behind it, and the separator it ends at. */
  lemma {:induction false} ReadFirst(before: seq<char>, g: seq<char>, x: Item, h: seq<char>, more: seq<char>,
                                     depth: nat, obj: bool, ws: Gaps, skipped: bool)
    requires ItemOk(x, obj) && depth + DepthItem(x) <= MaxDepth && AllSpace(ws) && IsBlank(g) && IsBlank(h)
    requires more != [] && (more[0] == ',' || more[0] == Close(obj))
    ensures var p := |before| + |g|;
      var r := RenderItem(x, p, ws);
      var src, from := before + g + r + (h + more), if skipped then p else |before|;
      && JsonSyntax.Item(src, from, depth, obj) == Kids(ItemTrees(x, p, ws), p + |r|)
      && SkipSpace(src, p + |r|) == p + |r| + |h| < |src| && src[p + |r| + |h|] == more[0]
    decreases x, 1
  {
    hide JsonSyntax.Item;
    hide RenderItem;
    hide ItemTrees;
    hide DepthItem;
    hide IsBlank;
    hide SkipSpace;
    var r := RenderItem(x, |before| + |g|, ws);
    var src := before + g + r + (h + more);
    SeparatorEnds(h, more, obj);
    if skipped {
      NoBlank();
      ReadItem(before + g, [], x, h + more, depth, obj, ws);
      assert before + g + [] == before + g;
    } else {
      ReadItem(before, g, x, h + more, depth, obj, ws);
    }
    assert src == (before + g + r) + h + more;
    SkipsGap(before + g + r, h, more);
  }

  lemma NoBlank()
    ensures IsBlank([])
  {
  }

  /** Reading a list up to its first separator. */
  lemma {:induction false} ReadHead(before: seq<char>, items: seq<Item>, after: seq<char>, depth: nat, obj: bool,
                                    ws: Gaps, skipped: bool)
    requires |items| > 0 && ItemsOk(items, obj) && depth + DepthItem(items[0]) <= MaxDepth && AllSpace(ws)
    ensures var p, n := |before|, Next(items[0], |before|, ws);
      var src, from := before + RenderItems(items, obj, p, ws) + after, if skipped then p + |ws(p)| else p;
      var ks := ItemTrees(items[0], p + |ws(p)|, ws);
      && from <= |src| && n <= |src|
      && Items(src, from, depth, obj) == if |items| == 1 then Kids(ks, n) else Extend(ks, Items(src, n, depth, obj))
    decreases items, 0
  {
    hide JsonSyntax.Item;
    hide Items;
    hide RenderItem;
    hide RenderItems;
    hide KidsAt;
    hide ItemTrees;
    hide DepthItem;
    hide IsBlank;
    hide SkipSpace;
    hide AllSpace;
    var p := |before|;
    var g := ws(p);
    var first := RenderItem(items[0], p + |g|, ws);
    var e := p + |g| + |first|;
    var h := ws(e);
    GapsBlank(ws, p, e);
    RenderUnfold(items, obj, p, ws);
    var rest := if |items| == 1 then [Close(obj)] else [','] + RenderItems(items[1..], obj, e + |h| + 1, ws);
    Regroup(before, g, first, h, rest, after);
    ReadFirst(before, g, items[0], h, rest + after, depth, obj, ws, skipped);
    ItemsUnfold(before + g + first + (h + (rest + after)), if skipped then p + |g| else p, depth, obj,
                ItemTrees(items[0], p + |g|, ws), e, e + |h|);
  }

  /** The list of items, from before its white space or behind it. */
  lemma {:induction false} ReadItems(before: seq<char>, items: seq<Item>, after: seq<char>, depth: nat, obj: bool,
                                     ws: Gaps, skipped: bool)
    requires |items| > 0 && ItemsOk(items, obj) && depth + DepthAll(items) <= MaxDepth && AllSpace(ws)
    ensures var p := |before|;
      var r := RenderItems(items, obj, p, ws);
      var from := if skipped then p + |ws(p)| else p;
      && from <= |before + r + after|
      && Items(before + r + after, from, depth, obj) == Kids(KidsAt(items, obj, p, ws), p + |r|)
    decreases items, 1
  {
    hide Items;
    hide RenderItem;
    hide RenderItems;
    hide KidsAt;
    hide ItemTrees;
    hide DepthItem;
    hide DepthAll;
    hide AllSpace;
    DepthParts(items);
    var p := |before|;
    ReadHead(before, items, after, depth, obj, ws, skipped);
    RenderUnfold(items, obj, p, ws);
    KidsUnfold(items, obj, p, ws);
    if |items| == 1 {
      assert items[1..] == [];
      NoKids(obj, Next(items[0], p, ws), ws);
    } else {
      var g := ws(p);
      var first := RenderItem(items[0], p + |g|, ws);
      var h := ws(p + |g| + |first|);
      var head := before + g + first + h + [','];
      RegroupNext(before, g, first, h, RenderItems(items[1..], obj, |head|, ws), after);
      ReadItems(head, items[1..], after, depth, obj, ws, false);
    }
  }

  lemma DepthParts(items: seq<Item>)
    requires |items| > 0
    ensures DepthItem(items[0]) <= DepthAll(items) && DepthAll(items[1..]) <= DepthAll(items)
  {
  }

  lemma GapsBlank(ws: Gaps, p: nat, q: nat)
    requires AllSpace(ws)
    ensures IsBlank(ws(p)) && IsBlank(ws(q))
  {
  }

  lemma RegroupNext(before: seq<char>, g: seq<char>, first: seq<char>, h: seq<char>, tail: seq<char>, after: seq<char>)
    ensures before + (g + first + h + ([','] + tail)) + after == before + g + first + h + [','] + tail + after
  {
  }

  lemma Regroup(before: seq<char>, g: seq<char>, first: seq<char>, h: seq<char>, rest: seq<char>, after: seq<char>)
    ensures before + (g + first + h + rest) + after == before + g + first + (h + (rest + after))
  {
  }

  /** A separator after white space ends a number. */
  lemma SeparatorEnds(h: seq<char>, more: seq<char>, obj: bool)
    requires IsBlank(h) && more != [] && (more[0] == ',' || more[0] == Close(obj))
    ensures Ends(h + more)
  {
  }

  lemma BlankEnds(h: seq<char>)
    requires IsBlank(h)
    ensures Ends(h)
  {
  }

  /** A value of at most 64 levels, written with any white space between its tokens, tokenizes to its own tree. */
  lemma RenderReadsBack(j: Json, ws: Gaps)
    requires Valid(j) && Depth(j) <= MaxDepth && AllSpace(ws)
    ensures var text := RenderDocument(j, ws); Document(text) == Good(TreeAt(j, |ws(0)|, ws), |text|)
  {
    hide Value;
    hide Render;
    hide SkipSpace;
    hide IsBlank;
    hide AllSpace;
    hide TreeAt;
    hide Depth;
    var g := ws(0);
    var r := Render(j, |g|, ws);
    var h := ws(|g| + |r|);
    var text := RenderDocument(j, ws);
    GapsBlank(ws, 0, |g| + |r|);
    BlankEnds(h);
    ReadValue(g, j, h, 0, ws);
    FirstChar(j, |g|, ws);
    assert text == [] + g + (r + h) && text == g + [] + (r + h);
    NoBlank();
    SkipsGap([], g, r + h);
    SkipsGap(g, [], r + h);
    SpaceBeforeValue(text, 0, |g|, 0);
    assert text == (g + r) + h + [];
    SkipsGap(g + r, h, []);
  }

  // ----- the trees carry the values

  /** The tree read from a text stands for a value, whatever its offsets are. */
  ghost predicate Denotes(src: seq<char>, t: Tree, j: Json)
    decreases j
  {
    t.start <= t.end <= |src|
    && match j
       case Word(kind) => t.Leaf? && t.kind == kind
       case Numeral(text) => t.Leaf? && t.kind == Number && src[t.start..t.end] == text
       case Text(raw) => DenotesText(src, t, raw)
       case Group(obj, items) => t.Node? && t.obj == obj && DenotesItems(src, t.kids, items)
  }

  ghost predicate DenotesText(src: seq<char>, t: Tree, raw: seq<char>)
  {
    t.Leaf? && t.kind == String && t.start <= t.end <= |src| && src[t.start..t.end] == raw
  }

  ghost predicate DenotesItem(src: seq<char>, kids: seq<Tree>, x: Item)
    decreases x
  {
    match x.key
    case None => |kids| == 1 && Denotes(src, kids[0], x.value)
    case Some(key) => |kids| == 2 && DenotesText(src, kids[0], key) && Denotes(src, kids[1], x.value)
  }

  ghost predicate DenotesItems(src: seq<char>, kids: seq<Tree>, items: seq<Item>)
    decreases items
  {
    if |items| == 0 then kids == [] else
      var n := if items[0].key.Some? then 2 else 1;
      |kids| >= n && DenotesItem(src, kids[..n], items[0]) && DenotesItems(src, kids[n..], items[1..])
  }

  lemma Middle(a: seq<char>, b: seq<char>, c: seq<char>)
    ensures (a + b + c)[|a|..|a| + |b|] == b
  {
  }

  lemma TextDenotes(before: seq<char>, raw: seq<char>, after: seq<char>)
    ensures var p := |before|; DenotesText(before + Quoted(raw) + after, Leaf(String, p + 1, p + 1 + |raw|), raw)
  {
    Middle(before + ['"'], raw, ['"'] + after);
    assert before + Quoted(raw) + after == before + ['"'] + raw + (['"'] + after);
  }

  lemma {:induction false} TreeDenotes(before: seq<char>, j: Json, after: seq<char>, ws: Gaps)
    requires Valid(j)
    ensures var r := Render(j, |before|, ws); Denotes(before + r + after, TreeAt(j, |before|, ws), j)
    decreases j, 1
  {
    hide RenderItems;
    hide KidsAt;
    hide RawOk;
    hide DenotesItems;
    hide Quoted;
    var p := |before|;
    match j
    case Word(kind) =>
    case Numeral(text) =>
      Middle(before, text, after);
    case Text(raw) =>
      TextDenotes(before, raw, after);
    case Group(obj, items) =>
      var open := [if obj then '{' else '['];
      var body := RenderItems(items, obj, p + 1, ws);
      assert before + (open + body) + after == (before + open) + body + after;
      KidsDenote(before + open, items, after, obj, ws);
  }

  lemma {:induction false} KidsDenote(before: seq<char>, items: seq<Item>, after: seq<char>, obj: bool, ws: Gaps)
    requires ItemsOk(items, obj)
    ensures var r := RenderItems(items, obj, |before|, ws);
      DenotesItems(before + r + after, KidsAt(items, obj, |before|, ws), items)
    decreases items
  {
    hide RenderItem;
    hide RenderItems;
    hide KidsAt;
    hide ItemTrees;
    hide DenotesItem;
    var p := |before|;
    var all := RenderItems(items, obj, p, ws);
    var src := before + all + after;
    if |items| == 0 {
      NoKids(obj, p, ws);
    } else {
      RenderUnfold(items, obj, p, ws);
      KidsUnfold(items, obj, p, ws);
      var g := ws(p);
      var first := RenderItem(items[0], p + |g|, ws);
      var h := ws(p + |g| + |first|);
      var tail := all[|g| + |first|..] + after;
      assert src == (before + g) + first + tail;
      ItemDenotes(before + g, items[0], tail, ws);
      var ks, more := ItemTrees(items[0], p + |g|, ws), KidsAt(items[1..], obj, Next(items[0], p, ws), ws);
      var n := if items[0].key.Some? then 2 else 1;
      assert (ks + more)[..n] == ks && (ks + more)[n..] == more;
      if |items| == 1 {
        assert items[1..] == [];
        NoKids(obj, Next(items[0], p, ws), ws);
      } else {
        var head := before + g + first + h + [','];
        RegroupNext(before, g, first, h, RenderItems(items[1..], obj, |head|, ws), after);
        KidsDenote(head, items[1..], after, obj, ws);
      }
    }
  }

  lemma {:induction false} ItemDenotes(before: seq<char>, x: Item, after: seq<char>, ws: Gaps)
    requires Valid(x.value)
    ensures var r := RenderItem(x, |before|, ws);
      && |ItemTrees(x, |before|, ws)| == (if x.key.Some? then 2 else 1)
      && DenotesItem(before + r + after, ItemTrees(x, |before|, ws), x)
    decreases x
  {
    hide Render;
    hide TreeAt;
    hide Denotes;
    hide DenotesText;
    hide RawOk;
    var p := |before|;
    if x.key.None? {
      TreeDenotes(before, x.value, after, ws);
    } else {
      var key := x.key.value;
      var k := KeyPart(key, p, ws);
      var r := Render(x.value, p + |k|, ws);
      assert before + (k + r) + after == (before + k) + r + after;
      TreeDenotes(before + k, x.value, after, ws);
      var rest := k[|Quoted(key)|..] + r + after;
      assert before + (k + r) + after == before + Quoted(key) + rest;
      TextDenotes(before, key, rest);
    }
  }

  /** White space does not matter: any two spacings of a value read back to trees that stand for it. */
  lemma SpacingIrrelevant(j: Json, ws: Gaps)
    requires Valid(j) && Depth(j) <= MaxDepth && AllSpace(ws)
    ensures var text := RenderDocument(j, ws);
      Document(text).Good? && Denotes(text, Document(text).tree, j)
  {
    hide Render;
    hide Denotes;
    hide TreeAt;
    hide Document;
    var g := ws(0);
    RenderReadsBack(j, ws);
    TreeDenotes(g, j, ws(|g| + |Render(j, |g|, ws)|), ws);
  }
}
