/** The tokenizer proper: recursive methods over a cursor and a caller-provided token buffer. */
module JsonParser {
  import opened Options
  import opened JsonTree
  import opened JsonSyntax

  /** The tokens of the recognized tree follow those written before, unless the buffer of `cap`
      tokens is too short for all the tokens begun. */
  ghost predicate Result(rc: int, o: Outcome, before: seq<Tok>, up: int, cap: nat, pos: nat, written: seq<Tok>)
  {
    && (|before| + Need(o) > cap ==> rc == -2)
    && (|before| + Need(o) <= cap ==>
          match o
          case Bad(_) => rc == -1
          case Good(t, e) => rc == |before| && pos == e && written == before + Flat(t, |before|, up))
  }

  ghost predicate KidsResult(rc: int, o: KidsOutcome, before: seq<Tok>, up: int, cap: nat, pos: nat, written: seq<Tok>)
  {
    && (|before| + NeedKids(o) > cap ==> rc == -2)
    && (|before| + NeedKids(o) <= cap ==>
          match o
          case BadKids(_) => rc == -1
          case Kids(ks, e) => rc >= 0 && pos == e && written == before + FlatAll(ks, |before|, up))
  }

  class Parser {
    const src: seq<char>
    const toks: array<Tok>
    var pos: nat
    var ntoks: nat
    var parent: int
    var depth: nat

    constructor (src: seq<char>, toks: array<Tok>)
      ensures this.src == src && this.toks == toks
      ensures pos == 0 && ntoks == 0 && parent == -1 && depth == 0
    {
      this.src := src;
      this.toks := toks;
      pos := 0;
      ntoks := 0;
      parent := -1;
      depth := 0;
    }

    ghost predicate Valid()
      reads this
    {
      pos <= |src| && ntoks <= toks.Length
    }

    /** The tokens written so far. */
    ghost function Written(): seq<Tok>
      requires Valid()
      reads this, toks
    {
      toks[..ntoks]
    }

    /** The state after `o` has been recognized with `before` already written. */
    ghost predicate Parsed(rc: int, o: Outcome, before: seq<Tok>, up: int, d: nat)
      reads this, toks
    {
      Valid() && parent == up && depth == d && Result(rc, o, before, up, toks.Length, pos, Written())
    }

    method AllocTok() returns (idx: int)
      requires Valid()
      modifies this`ntoks, toks
      ensures Valid()
      ensures old(ntoks) == toks.Length ==> idx == -2 && ntoks == old(ntoks) && Written() == old(Written())
      ensures old(ntoks) < toks.Length ==>
        && idx == old(ntoks) && ntoks == old(ntoks) + 1
        && Written() == old(Written()) + [Tok(Invalid, 0, 0, 0, parent)]
    {
      if ntoks >= toks.Length {
        return -2;
      }
      toks[ntoks] := Tok(Invalid, 0, 0, 0, parent);
      idx := ntoks;
      ntoks := ntoks + 1;
    }

    /** Begins the token of a container at the cursor. */
    method OpenTok(kind: Kind) returns (idx: int)
      requires Valid()
      modifies this`ntoks, toks
      ensures Valid()
      ensures old(ntoks) == toks.Length ==> idx == -2 && ntoks == old(ntoks)
      ensures old(ntoks) < toks.Length ==>
        && idx == old(ntoks) && ntoks == old(ntoks) + 1
        && Written() == old(Written()) + [Tok(kind, pos, 0, 0, parent)]
    {
      idx := AllocTok();
      if idx >= 0 {
        toks[idx] := toks[idx].(kind := kind, start := pos);
      }
    }

    /** Completes the token of a container once its children are written behind it. */
    method CloseTok(idx: nat, end: nat, size: nat, ghost before: seq<Tok>, ghost head: Tok, ghost rest: seq<Tok>)
      requires Valid() && idx == |before| && Written() == before + [head] + rest
      modifies toks
      ensures Written() == before + [head.(end := end, size := size)] + rest
    {
      assert Written()[idx] == head;
      toks[idx] := toks[idx].(end := end, size := size);
    }

    method SkipWs()
      requires Valid()
      modifies this`pos
      ensures Valid() && pos == SkipSpace(src, old(pos))
    {
      while pos < |src| && IsSpace(src[pos])
        invariant pos <= |src| && SkipSpace(src, pos) == SkipSpace(src, old(pos))
      {
        pos := pos + 1;
      }
    }

    /** Appends a leaf token that spans `[start, end)`. */
    method Emit(kind: Kind, start: nat, end: nat) returns (idx: int)
      requires Valid()
      modifies this`ntoks, toks
      ensures Parsed(idx, Good(Leaf(kind, start, end), pos), old(Written()), parent, depth)
    {
      idx := AllocTok();
      if idx >= 0 {
        toks[idx] := Head(Leaf(kind, start, end), parent);
      }
    }

    method ParseString() returns (rc: int)
      requires Valid()
      modifies this, toks
      ensures Parsed(rc, Text(src, old(pos)), old(Written()), old(parent), old(depth))
    {
      if pos >= |src| || src[pos] != '"' {
        return -1;
      }
      pos := pos + 1;
      var start := pos;
      while pos < |src| && src[pos] != '"'
        invariant pos <= |src| && StringEnd(src, pos) == StringEnd(src, start)
        invariant parent == old(parent) && depth == old(depth) && ntoks == old(ntoks) && toks[..] == old(toks[..])
        decreases |src| - pos
      {
        if src[pos] == '\\' {
          if pos + 1 >= |src| {
            return -1;
          }
          pos := pos + 2;
          continue;
        }
        if src[pos] < ' ' {
          return -1;
        }
        pos := pos + 1;
      }
      if pos >= |src| {
        return -1;
      }
      rc := Emit(String, start, pos);
      if rc < 0 {
        return rc;
      }
      pos := pos + 1;
    }

    method ParseNumber() returns (rc: int)
      requires Valid() && pos < |src| && (src[pos] == '-' || '0' <= src[pos] <= '9')
      modifies this, toks
      ensures Parsed(rc, Good(Leaf(Number, old(pos), NumberEnd(src, old(pos))), NumberEnd(src, old(pos))),
                     old(Written()), old(parent), old(depth))
    {
      var start := pos;
      if src[pos] == '-' {
        pos := pos + 1;
      }
      while pos < |src| && IsNumberChar(src[pos])
        invariant pos <= |src| && NumberEnd(src, pos) == NumberEnd(src, start)
        invariant parent == old(parent) && depth == old(depth) && ntoks == old(ntoks) && toks[..] == old(toks[..])
      {
        pos := pos + 1;
      }
      rc := Emit(Number, start, pos);
    }

    method ParseLiteral(lit: seq<char>, kind: Kind) returns (rc: int)
      requires Valid()
      modifies this, toks
      ensures Parsed(rc, Literal(src, old(pos), lit, kind), old(Written()), old(parent), old(depth))
    {
      var i, start := 0, pos;
      while i < |lit|
        invariant i <= |lit| && pos == start + i <= |src| && forall k :: 0 <= k < i ==> src[start + k] == lit[k]
        invariant parent == old(parent) && depth == old(depth) && ntoks == old(ntoks) && toks[..] == old(toks[..])
      {
        if pos >= |src| || src[pos] != lit[i] {
          assert Matches(src, start, lit) ==> src[start..start + |lit|][i] == lit[i];
          return -1;
        }
        pos := pos + 1;
        i := i + 1;
      }
      rc := Emit(kind, start, pos);
    }

    ghost predicate ParsedKids(rc: int, o: KidsOutcome, before: seq<Tok>, up: int, d: nat)
      reads this, toks
    {
      Valid() && parent == up && depth == d && KidsResult(rc, o, before, up, toks.Length, pos, Written())
    }

    /** One key and its value, or one element. */
    method ParseItem(obj: bool) returns (rc: int)
      requires Valid()
      modifies this, toks
      ensures ParsedKids(rc, Item(src, old(pos), old(depth), obj), old(Written()), old(parent), old(depth))
      decreases |src| - pos, 2
    {
      hide Value;
      hide Text;
      hide Flat;
      hide FlatAll;
      hide Size;
      hide SizeAll;
      ghost var before := Written();
      SkipWs();
      if !obj {
        ghost var o := Value(src, pos, depth);
        rc := ParseValue();
        if o.Good? {
          FlatOne(o.tree, |before|, parent);
        }
        return rc;
      }
      ghost var key := Text(src, pos);
      ItemNeedsKey(src, old(pos), depth);
      rc := ParseString();
      if rc < 0 {
        return rc;
      }
      ghost var q := SkipSpace(src, pos);
      SkipWs();
      TextSize(src, SkipSpace(src, old(pos)));
      if pos >= |src| || src[pos] != ':' {
        return -1;
      }
      pos := pos + 1;
      ghost var v := Value(src, pos, depth);
      rc := ParseValue();
      if v.Good? {
        FlatPair(key.tree, v.tree, |before|, parent);
      }
    }

    /** Items up to the closing bracket; `count` is the number of pairs or elements. */
    method ParseItems(obj: bool) returns (rc: int, count: nat)
      requires Valid()
      modifies this, toks
      ensures ParsedKids(rc, Items(src, old(pos), old(depth), obj), old(Written()), old(parent), old(depth))
      ensures rc >= 0 ==>
        var o := Items(src, old(pos), old(depth), obj); o.Kids? && count == if obj then |o.kids| / 2 else |o.kids|
      decreases |src| - pos, 3
    {
      hide Item;
      hide Items;
      hide FlatAll;
      hide SizeAll;
      hide SkipSpace;
      hide KidsResult;
      hide Extend;
      ghost var before, q, d := Written(), pos, depth;
      ghost var done: seq<Tree> := [];
      count := 0;
      ExtendNone(Items(src, q, d, obj));
      FlatNone(|before|, parent);
      while true
        invariant Valid() && parent == old(parent) && depth == d && old(pos) <= pos
        invariant Items(src, q, d, obj) == Extend(done, Items(src, pos, d, obj))
        invariant Written() == before + FlatAll(done, |before|, parent)
        invariant count == (if obj then |done| / 2 else |done|) && (obj ==> |done| % 2 == 0)
        decreases |src| - pos
      {
        ghost var from := pos;
        ghost var item, all := Item(src, pos, d, obj), Items(src, pos, d, obj);
        NeedItems(src, pos, d, obj);
        ItemsStep(src, pos, d, obj);
        rc := ParseItem(obj);
        if rc < 0 {
          ItemFailed(done, item, all, rc, before, parent, toks.Length, pos, Written());
          return;
        }
        ItemDone(done, item, rc, before, parent, toks.Length, pos, Written());
        count := count + 1;
        SkipWs();
        if pos < |src| && src[pos] == ',' {
          pos := pos + 1;
          ExtendTwice(done, item.kids, Items(src, pos, d, obj));
          done := done + item.kids;
          continue;
        }
        if pos < |src| && src[pos] == Close(obj) {
          pos := pos + 1;
          ItemsDone(done, item.kids, rc, before, parent, toks.Length, pos, Written());
          return;
        }
        rc := -1;
        ItemsCut(done, item.kids, before, parent, toks.Length, pos, Written());
        return;
      }
    }

    method ParseContainer() returns (rc: int)
      requires Valid() && pos < |src| && (src[pos] == '{' || src[pos] == '[')
      modifies this, toks
      ensures Parsed(rc, Container(src, old(pos), old(depth)), old(Written()), old(parent), old(depth))
      decreases |src| - pos, 0
    {
      hide Items;
      hide FlatAll;
      hide SkipSpace;
      hide Container;
      hide Result;
      hide KidsResult;
      ghost var before, start, d := Written(), pos, depth;
      var obj := src[pos] == '{';
      var kind := if obj then Object else Array;
      var idx := OpenTok(kind);
      if idx < 0 {
        NodeUnopened(src, start, d, before, parent, toks.Length, pos, Written());
        return idx;
      }
      ghost var head := Tok(kind, start, 0, 0, parent);
      pos := pos + 1;
      var saved := parent;
      parent := idx;
      SkipWs();
      if pos < |src| && src[pos] == Close(obj) {
        CloseTok(idx, pos + 1, 0, before, head, []);
        pos := pos + 1;
        parent := saved;
        NodeEmpty(src, start, d, before, saved, toks.Length, Written());
        return idx;
      }
      ghost var o := Items(src, pos, depth, obj);
      var count: nat;
      rc, count := ParseItems(obj);
      parent := saved;
      if rc < 0 {
        NodeFailed(src, start, d, rc, before, head, saved, toks.Length, pos, Written());
        return;
      }
      KidsWritten(rc, o, before + [head], idx, toks.Length, pos, Written());
      CloseTok(idx, pos, count, before, head, FlatAll(o.kids, idx + 1, idx));
      NodeFull(src, start, d, before, saved, toks.Length, Written());
      rc := idx;
    }

    method ParseValue() returns (rc: int)
      requires Valid()
      modifies this, toks
      ensures Parsed(rc, Value(src, old(pos), old(depth)), old(Written()), old(parent), old(depth))
      decreases |src| - pos, 1
    {
      hide Container;
      hide Text;
      hide Literal;
      hide NumberEnd;
      hide Flat;
      hide Size;
      SkipWs();
      if pos >= |src| {
        return -1;
      }
      var c := src[pos];
      if c == '{' || c == '[' {
        if depth >= MaxDepth {
          return -1;
        }
        depth := depth + 1;
        rc := ParseContainer();
        depth := depth - 1;
        return rc;
      }
      if c == '"' {
        rc := ParseString();
      } else if c == 't' {
        rc := ParseLiteral("true", True);
      } else if c == 'f' {
        rc := ParseLiteral("false", False);
      } else if c == 'n' {
        rc := ParseLiteral("null", Null);
      } else if c == '-' || '0' <= c <= '9' {
        rc := ParseNumber();
      } else {
        return -1;
      }
    }
  }

  // ----- token counts of partial results

  lemma SizeNone()
    ensures SizeAll([]) == 0
  {
  }

  lemma TextSize(src: seq<char>, pos: nat)
    requires pos <= |src|
    ensures var o := Text(src, pos); o.Good? ==> Size(o.tree) == 1
    ensures Need(Text(src, pos)) <= 1
  {
  }

  lemma FlatPair(a: Tree, b: Tree, base: nat, parent: int)
    ensures SizeAll([a, b]) == Size(a) + Size(b)
    ensures FlatAll([a, b], base, parent) == Flat(a, base, parent) + Flat(b, base + Size(a), parent)
  {
    hide Flat;
    hide Size;
    FlatOne(a, base, parent);
    assert [a, b][..1] == [a];
  }

  lemma ExtendNone(o: KidsOutcome)
    ensures Extend([], o) == o
  {
    if o.Kids? {
      assert [] + o.kids == o.kids;
    }
  }

  lemma ExtendTwice(a: seq<Tree>, b: seq<Tree>, o: KidsOutcome)
    ensures Extend(a + b, o) == Extend(a, Extend(b, o))
  {
    SizeAllConcat(a, b);
    if o.Kids? {
      assert (a + b) + o.kids == a + (b + o.kids);
    }
  }

  lemma ItemNeedsKey(src: seq<char>, pos: nat, depth: nat)
    requires pos <= |src|
    ensures NeedKids(Item(src, pos, depth, true)) >= Need(Text(src, SkipSpace(src, pos)))
  {
    hide Value;
    hide SkipSpace;
    hide StringEnd;
    var key := Text(src, SkipSpace(src, pos));
    if key.Good? && Item(src, pos, depth, true).Kids? {
      SizeTwo(key.tree, Item(src, pos, depth, true).kids[1]);
    }
  }

  lemma ExtendNeed(a: seq<Tree>, o: KidsOutcome)
    ensures NeedKids(Extend(a, o)) == SizeAll(a) + NeedKids(o)
  {
    if o.Kids? {
      SizeAllConcat(a, o.kids);
    }
  }

  lemma KidsWritten(rc: int, o: KidsOutcome, before: seq<Tok>, up: int, cap: nat, pos: nat, written: seq<Tok>)
    requires KidsResult(rc, o, before, up, cap, pos, written) && rc >= 0 && o.Kids?
    ensures written == before + FlatAll(o.kids, |before|, up) && pos == o.pos
    ensures |before| + SizeAll(o.kids) <= cap
  {
    hide FlatAll;
  }

  lemma ItemFailed(done: seq<Tree>, item: KidsOutcome, all: KidsOutcome, rc: int,
                   before: seq<Tok>, up: int, cap: nat, pos: nat, w: seq<Tok>)
    requires KidsResult(rc, item, before + FlatAll(done, |before|, up), up, cap, pos, w) && rc < 0
    requires NeedKids(all) >= NeedKids(item) && (item.BadKids? ==> all == item)
    ensures KidsResult(rc, Extend(done, all), before, up, cap, pos, w)
  {
    hide FlatAll;
    ExtendNeed(done, all);
  }

  lemma ItemDone(done: seq<Tree>, item: KidsOutcome, rc: int,
                 before: seq<Tok>, up: int, cap: nat, pos: nat, w: seq<Tok>)
    requires KidsResult(rc, item, before + FlatAll(done, |before|, up), up, cap, pos, w) && rc >= 0
    ensures item.Kids? && pos == item.pos && w == before + FlatAll(done + item.kids, |before|, up)
    ensures |before| + SizeAll(done + item.kids) <= cap
  {
    hide FlatAll;
    FlatAllConcat(done, item.kids, |before|, up);
  }

  lemma ItemsDone(done: seq<Tree>, ks: seq<Tree>, rc: int, before: seq<Tok>, up: int, cap: nat, pos: nat, w: seq<Tok>)
    requires w == before + FlatAll(done + ks, |before|, up) && |before| + SizeAll(done + ks) <= cap && rc >= 0
    ensures Extend(done, Kids(ks, pos)) == Kids(done + ks, pos)
    ensures KidsResult(rc, Extend(done, Kids(ks, pos)), before, up, cap, pos, w)
  {
    hide FlatAll;
  }

  lemma ItemsCut(done: seq<Tree>, ks: seq<Tree>, before: seq<Tok>, up: int, cap: nat, pos: nat, w: seq<Tok>)
    requires |before| + SizeAll(done + ks) <= cap
    ensures KidsResult(-1, Extend(done, BadKids(SizeAll(ks))), before, up, cap, pos, w)
  {
    hide FlatAll;
    SizeAllConcat(done, ks);
  }

  lemma NodeUnopened(src: seq<char>, pos: nat, depth: nat, before: seq<Tok>, up: int, cap: nat, p: nat, w: seq<Tok>)
    requires pos < |src| && |before| >= cap
    ensures Result(-2, Container(src, pos, depth), before, up, cap, p, w)
  {
    hide Container;
    hide Items;
    hide SkipSpace;
    ContainerStep(src, pos, depth);
  }

  lemma NodeEmpty(src: seq<char>, pos: nat, depth: nat, before: seq<Tok>, up: int, cap: nat, w: seq<Tok>)
    requires pos < |src| && |before| < cap
    requires At(src, SkipSpace(src, pos + 1), Close(src[pos] == '{'))
    requires var e := SkipSpace(src, pos + 1) + 1;
      w == before + [Tok(if src[pos] == '{' then Object else Array, pos, e, 0, up)] + []
    ensures Result(|before|, Container(src, pos, depth), before, up, cap, SkipSpace(src, pos + 1) + 1, w)
  {
    hide Container;
    hide Items;
    hide SkipSpace;
    ContainerStep(src, pos, depth);
    FlatNone(|before| + 1, |before|);
  }

  lemma NodeFailed(src: seq<char>, pos: nat, depth: nat, rc: int,
                   before: seq<Tok>, head: Tok, up: int, cap: nat, p: nat, w: seq<Tok>)
    requires pos < |src| && !At(src, SkipSpace(src, pos + 1), Close(src[pos] == '{')) && rc < 0
    requires var o := Items(src, SkipSpace(src, pos + 1), depth, src[pos] == '{');
      KidsResult(rc, o, before + [head], |before|, cap, p, w)
    ensures Result(rc, Container(src, pos, depth), before, up, cap, p, w)
  {
    hide Container;
    hide Items;
    hide SkipSpace;
    hide Flat;
    hide FlatAll;
    ContainerStep(src, pos, depth);
  }

  lemma NodeFull(src: seq<char>, pos: nat, depth: nat, before: seq<Tok>, up: int, cap: nat, w: seq<Tok>)
    requires pos < |src| && !At(src, SkipSpace(src, pos + 1), Close(src[pos] == '{'))
    requires var o := Items(src, SkipSpace(src, pos + 1), depth, src[pos] == '{');
      && o.Kids? && |before| + 1 + SizeAll(o.kids) <= cap
      && var n := if src[pos] == '{' then |o.kids| / 2 else |o.kids|;
      w == before + [Tok(if src[pos] == '{' then Object else Array, pos, o.pos, n, up)]
           + FlatAll(o.kids, |before| + 1, |before|)
    ensures var o := Items(src, SkipSpace(src, pos + 1), depth, src[pos] == '{');
      Result(|before|, Container(src, pos, depth), before, up, cap, o.pos, w)
  {
    hide Container;
    hide Items;
    hide SkipSpace;
    hide FlatAll;
    ContainerStep(src, pos, depth);
  }

  /** What a container is, and how many tokens it takes, from its items. */
  lemma ContainerStep(src: seq<char>, pos: nat, depth: nat)
    requires pos < |src|
    ensures var o, obj, q := Container(src, pos, depth), src[pos] == '{', SkipSpace(src, pos + 1);
      if At(src, q, Close(obj)) then o == Good(Node(obj, pos, q + 1, []), q + 1) && Need(o) == 1
      else
        match Items(src, q, depth, obj)
        case Kids(kids, e) => o == Good(Node(obj, pos, e, kids), e) && Need(o) == 1 + SizeAll(kids)
        case BadKids(used) => o == Bad(1 + used)
  {
    hide Items;
    hide SkipSpace;
    SizeNone();
  }

  lemma ItemsStep(src: seq<char>, pos: nat, depth: nat, obj: bool)
    requires pos <= |src|
    ensures var o := Item(src, pos, depth, obj);
      o.Kids? ==>
        var q := SkipSpace(src, o.pos);
        Items(src, pos, depth, obj) ==
          if At(src, q, ',') then Extend(o.kids, Items(src, q + 1, depth, obj))
          else if At(src, q, Close(obj)) then Kids(o.kids, q + 1)
          else BadKids(SizeAll(o.kids))
  {
  }

  /** Completing more items never takes back a token. */
  lemma NeedItems(src: seq<char>, pos: nat, depth: nat, obj: bool)
    requires pos <= |src|
    ensures NeedKids(Items(src, pos, depth, obj)) >= NeedKids(Item(src, pos, depth, obj))
    ensures Item(src, pos, depth, obj).BadKids? ==> Items(src, pos, depth, obj) == Item(src, pos, depth, obj)
    ensures var o := Item(src, pos, depth, obj);
      o.Kids? ==> (obj ==> |o.kids| == 2) && (!obj ==> |o.kids| == 1)
  {
    hide Value;
    hide SkipSpace;
    var o := Item(src, pos, depth, obj);
    if o.Kids? {
      var q := SkipSpace(src, o.pos);
      if At(src, q, ',') {
        var rest := Items(src, q + 1, depth, obj);
        if rest.Kids? {
          SizeAllConcat(o.kids, rest.kids);
        }
      }
    }
  }
}
