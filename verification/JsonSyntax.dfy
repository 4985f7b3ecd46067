/** What the tokenizer recognizes, without any token buffer: the tree of a value, or a syntax error
    together with the number of tokens begun before it shows. */
module JsonSyntax {
  import opened Options
  import opened JsonTree

  const MaxDepth: nat := 64

  datatype Outcome = Good(tree: Tree, pos: nat) | Bad(used: nat)

  datatype KidsOutcome = Kids(kids: seq<Tree>, pos: nat) | BadKids(used: nat)

  // ----- scanning

  predicate IsSpace(c: char)
  {
    c == ' ' || c == '\t' || c == '\n' || c == '\r'
  }

  predicate IsNumberChar(c: char)
  {
    '0' <= c <= '9' || c == '.' || c == 'e' || c == 'E' || c == '+' || c == '-'
  }

  predicate At(src: seq<char>, pos: nat, c: char)
  {
    pos < |src| && src[pos] == c
  }

  function SkipSpace(src: seq<char>, pos: nat): (p: nat)
    requires pos <= |src|
    ensures pos <= p <= |src|
    decreases |src| - pos
  {
    if pos < |src| && IsSpace(src[pos]) then SkipSpace(src, pos + 1) else pos
  }

  /** The closing quote of a string whose text begins at `pos`. */
  function StringEnd(src: seq<char>, pos: nat): (q: Option<nat>)
    requires pos <= |src|
    ensures q.Some? ==> pos <= q.value < |src| && src[q.value] == '"'
    decreases |src| - pos
  {
    if pos == |src| then None
    else if src[pos] == '"' then Some(pos)
    else if src[pos] == '\\' then (if pos + 1 >= |src| then None else StringEnd(src, pos + 2))
    else if src[pos] < ' ' then None
    else StringEnd(src, pos + 1)
  }

  function NumberEnd(src: seq<char>, pos: nat): (q: nat)
    requires pos <= |src|
    ensures pos <= q <= |src|
    decreases |src| - pos
  {
    if pos < |src| && IsNumberChar(src[pos]) then NumberEnd(src, pos + 1) else pos
  }

  function Text(src: seq<char>, pos: nat): (o: Outcome)
    requires pos <= |src|
    ensures o.Good? ==> pos + 2 <= o.pos <= |src|
  {
    if !At(src, pos, '"') then Bad(0) else
      var q := StringEnd(src, pos + 1);
      if q.None? then Bad(0) else Good(Leaf(String, pos + 1, q.value), q.value + 1)
  }

  predicate Matches(src: seq<char>, pos: nat, lit: seq<char>)
  {
    pos + |lit| <= |src| && src[pos..pos + |lit|] == lit
  }

  function Literal(src: seq<char>, pos: nat, lit: seq<char>, kind: Kind): Outcome
  {
    if Matches(src, pos, lit) then Good(Leaf(kind, pos, pos + |lit|), pos + |lit|) else Bad(0)
  }

  // ----- values

  function Value(src: seq<char>, pos: nat, depth: nat): (o: Outcome)
    requires pos <= |src|
    ensures o.Good? ==> pos < o.pos <= |src|
    decreases |src| - pos, 1
  {
    var p := SkipSpace(src, pos);
    if p == |src| then Bad(0)
    else if src[p] == '{' || src[p] == '[' then
      if depth >= MaxDepth then Bad(0) else Container(src, p, depth + 1)
    else if src[p] == '"' then Text(src, p)
    else if src[p] == 't' then Literal(src, p, "true", True)
    else if src[p] == 'f' then Literal(src, p, "false", False)
    else if src[p] == 'n' then Literal(src, p, "null", Null)
    else if src[p] == '-' || '0' <= src[p] <= '9' then
      Good(Leaf(Number, p, NumberEnd(src, p)), NumberEnd(src, p))
    else Bad(0)
  }

  function Close(obj: bool): char
  {
    if obj then '}' else ']'
  }

  function Container(src: seq<char>, pos: nat, depth: nat): (o: Outcome)
    requires pos < |src|
    ensures o.Good? ==> pos + 1 < o.pos <= |src|
    decreases |src| - pos, 0
  {
    var obj := src[pos] == '{';
    var q := SkipSpace(src, pos + 1);
    if At(src, q, Close(obj)) then Good(Node(obj, pos, q + 1, []), q + 1) else
      match Items(src, q, depth, obj)
      case Kids(kids, e) => Good(Node(obj, pos, e, kids), e)
      case BadKids(used) => Bad(1 + used)
  }

  /** One element of an array, or one key with its value. */
  function Item(src: seq<char>, pos: nat, depth: nat, obj: bool): (o: KidsOutcome)
    requires pos <= |src|
    ensures o.Kids? ==> pos < o.pos <= |src|
    decreases |src| - pos, 2
  {
    var p := SkipSpace(src, pos);
    if !obj then
      match Value(src, p, depth)
      case Good(t, e) => Kids([t], e)
      case Bad(used) => BadKids(used)
    else
      match Text(src, p)
      case Bad(used) => BadKids(used)
      case Good(key, k) =>
        var q := SkipSpace(src, k);
        if !At(src, q, ':') then BadKids(1) else
          match Value(src, q + 1, depth)
          case Good(t, e) => Kids([key, t], e)
          case Bad(used) => BadKids(1 + used)
  }

  /** Items separated by commas up to and including the closing bracket. */
  function Items(src: seq<char>, pos: nat, depth: nat, obj: bool): (o: KidsOutcome)
    requires pos <= |src|
    ensures o.Kids? ==> pos < o.pos <= |src|
    decreases |src| - pos, 3
  {
    match Item(src, pos, depth, obj)
    case BadKids(used) => BadKids(used)
    case Kids(ks, e) =>
      var q := SkipSpace(src, e);
      if At(src, q, ',') then Extend(ks, Items(src, q + 1, depth, obj))
      else if At(src, q, Close(obj)) then Kids(ks, q + 1)
      else BadKids(SizeAll(ks))
  }

  function Extend(done: seq<Tree>, o: KidsOutcome): KidsOutcome
  {
    match o
    case Kids(ks, e) => Kids(done + ks, e)
    case BadKids(used) => BadKids(SizeAll(done) + used)
  }

  /** The tokens a value takes before it is complete or found wrong. */
  function Need(o: Outcome): nat
  {
    match o
    case Good(t, _) => Size(t)
    case Bad(used) => used
  }

  function NeedKids(o: KidsOutcome): nat
  {
    match o
    case Kids(ks, _) => SizeAll(ks)
    case BadKids(used) => used
  }

  /** The whole text: one value and nothing but white space after it. */
  function Document(src: seq<char>): Outcome
  {
    match Value(src, 0, 0)
    case Bad(used) => Bad(used)
    case Good(t, e) => if SkipSpace(src, e) == |src| then Good(t, |src|) else Bad(Size(t))
  }

  // ----- every recognized value is proper and costs a byte per token

  lemma SizeTwo(a: Tree, b: Tree)
    ensures SizeAll([a]) == Size(a) && SizeAll([a, b]) == Size(a) + Size(b)
  {
    assert [a][..0] == [] && [a, b][..1] == [a];
  }

  ghost predicate GoodKids(kids: seq<Tree>, obj: bool, from: nat, to: nat)
  {
    && ProperAll(kids, from, to) && SizeAll(kids) <= to - from
    && (obj ==> |kids| % 2 == 0 && forall i :: 0 <= i < |kids| && i % 2 == 0 ==> IsString(kids[i]))
  }

  lemma {:induction false} ProperConcat(a: seq<Tree>, b: seq<Tree>, from: nat, mid: nat, mid': nat, to: nat)
    requires ProperAll(a, from, mid) && ProperAll(b, mid', to) && mid <= mid'
    ensures ProperAll(a + b, from, to)
  {
    hide Proper;
    if |b| == 0 {
      assert a + b == a;
      ProperUpTo(a, from, mid, to);
    } else {
      var n := |b| - 1;
      assert (a + b)[..|a + b| - 1] == a + b[..n] && (a + b)[|a + b| - 1] == b[n];
      ProperConcat(a, b[..n], from, mid, mid', b[n].start);
      ProperFrom(a, from, mid);
      ProperLater(b[n], mid', from, to, to);
    }
  }

  lemma GoodConcat(a: seq<Tree>, b: seq<Tree>, obj: bool, from: nat, mid: nat, mid': nat, to: nat)
    requires GoodKids(a, obj, from, mid) && GoodKids(b, obj, mid', to) && mid <= mid'
    ensures GoodKids(a + b, obj, from, to)
  {
    hide ProperAll;
    hide SizeAll;
    SizeAllConcat(a, b);
    ProperConcat(a, b, from, mid, mid', to);
  }

  lemma {:induction false} ValueProper(src: seq<char>, pos: nat, depth: nat)
    requires pos <= |src|
    ensures var o := Value(src, pos, depth);
      o.Good? ==> Proper(o.tree, pos, o.pos) && Size(o.tree) <= o.pos - pos
    ensures var o := Value(src, pos, depth);
      o.Bad? ==> o.used <= |src| - pos
    decreases |src| - pos, 1
  {
    hide Container;
    hide SkipSpace;
    var p := SkipSpace(src, pos);
    if p < |src| && (src[p] == '{' || src[p] == '[') && depth < MaxDepth {
      ContainerProper(src, p, depth + 1);
    } else if p < |src| && IsNumberChar(src[p]) {
      assert NumberEnd(src, p) >= p + 1;
    }
  }

  lemma {:induction false} ContainerProper(src: seq<char>, pos: nat, depth: nat)
    requires pos < |src|
    ensures var o := Container(src, pos, depth);
      o.Good? ==> Proper(o.tree, pos, o.pos) && Size(o.tree) <= o.pos - pos
    ensures var o := Container(src, pos, depth);
      o.Bad? ==> o.used <= |src| - pos
    decreases |src| - pos, 0
  {
    hide Items;
    hide SkipSpace;
    var obj := src[pos] == '{';
    var q := SkipSpace(src, pos + 1);
    if !At(src, q, Close(obj)) {
      ItemsProper(src, q, depth, obj);
      match Items(src, q, depth, obj) {
        case Kids(kids, e) =>
          ProperConcat([], kids, pos + 1, q, q, e - 1);
          assert [] + kids == kids;
        case BadKids(used) =>
      }
    }
  }

  lemma {:induction false} ItemProper(src: seq<char>, pos: nat, depth: nat, obj: bool)
    requires pos <= |src|
    ensures var o := Item(src, pos, depth, obj);
      o.Kids? ==> GoodKids(o.kids, obj, pos, o.pos) && |o.kids| > 0
    ensures var o := Item(src, pos, depth, obj);
      o.BadKids? ==> o.used <= |src| - pos
    decreases |src| - pos, 2
  {
    hide Value;
    hide SkipSpace;
    hide StringEnd;
    var p := SkipSpace(src, pos);
    if !obj {
      ValueProper(src, p, depth);
      match Value(src, p, depth) {
        case Good(t, e) =>
          SizeTwo(t, t);
          ProperLater(t, p, pos, e, e);
          ProperAppend([], t, pos, pos, e);
          assert [] + [t] == [t];
        case Bad(_) =>
      }
    } else {
      match Text(src, p) {
        case Bad(_) =>
        case Good(key, k) =>
          var q := SkipSpace(src, k);
          if At(src, q, ':') {
            ValueProper(src, q + 1, depth);
            match Value(src, q + 1, depth) {
              case Good(t, e) =>
                SizeTwo(key, t);
                ProperAppend([], key, pos, pos, k);
                ProperLater(t, q + 1, k, e, e);
                ProperAppend([key], t, pos, k, e);
                assert [] + [key] == [key] && [key] + [t] == [key, t];
              case Bad(_) =>
            }
          }
      }
    }
  }

  lemma {:induction false} ItemsProper(src: seq<char>, pos: nat, depth: nat, obj: bool)
    requires pos <= |src|
    ensures var o := Items(src, pos, depth, obj);
      o.Kids? ==> GoodKids(o.kids, obj, pos, o.pos - 1)
    ensures var o := Items(src, pos, depth, obj);
      o.BadKids? ==> o.used <= |src| - pos
    decreases |src| - pos, 3
  {
    hide Item;
    hide SkipSpace;
    hide ProperAll;
    hide SizeAll;
    hide IsString;
    ItemProper(src, pos, depth, obj);
    match Item(src, pos, depth, obj) {
      case BadKids(_) =>
      case Kids(ks, e) =>
        var q := SkipSpace(src, e);
        if At(src, q, ',') {
          ItemsProper(src, q + 1, depth, obj);
          var rest := Items(src, q + 1, depth, obj);
          if rest.Kids? {
            GoodConcat(ks, rest.kids, obj, pos, e, q + 1, rest.pos - 1);
          }
        } else if At(src, q, Close(obj)) {
          ProperUpTo(ks, pos, e, q);
        }
    }
  }

  /** A recognized document is a proper tree of at most one token per byte; a rejected one has begun no more. */
  lemma DocumentProper(src: seq<char>)
    ensures Need(Document(src)) <= |src|
    ensures Document(src).Good? ==> Proper(Document(src).tree, 0, |src|)
  {
    hide Value;
    hide SkipSpace;
    ValueProper(src, 0, 0);
    var o := Value(src, 0, 0);
    if o.Good? {
      ProperLater(o.tree, 0, 0, o.pos, |src|);
    }
  }
}
