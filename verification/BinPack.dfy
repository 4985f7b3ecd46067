/** First-fit-decreasing selection of packs for fixed-capacity volumes. */
module BinPack {
  import opened Bits
  import opened Options

  datatype Item = Item(id: string, size: nat)

  // ----- the order: larger first, then by identifier

  predicate TextLeq(a: string, b: string)
  {
    |a| == 0 || (|b| > 0 && (a[0] < b[0] || (a[0] == b[0] && TextLeq(a[1..], b[1..]))))
  }

  lemma {:induction false} TextOrder(a: string, b: string)
    ensures TextLeq(a, b) || TextLeq(b, a)
    ensures TextLeq(a, b) && TextLeq(b, a) ==> a == b
  {
    if |a| > 0 && |b| > 0 && a[0] == b[0] {
      TextOrder(a[1..], b[1..]);
      assert a == [a[0]] + a[1..] && b == [b[0]] + b[1..];
    }
  }

  lemma {:induction false} TextTransitive(a: string, b: string, c: string)
    requires TextLeq(a, b) && TextLeq(b, c)
    ensures TextLeq(a, c)
  {
    if |a| > 0 && a[0] == b[0] == c[0] {
      TextTransitive(a[1..], b[1..], c[1..]);
    }
  }

  /** After `k` characters in common, `a` ends or goes on with a smaller character. */
  ghost predicate PartsAt(a: string, b: string, k: nat)
  {
    k <= |a| && k <= |b| && a[..k] == b[..k] && (k == |a| || (k < |b| && a[k] < b[k]))
  }

  /** `a` comes no later than `b` in a dictionary. */
  ghost predicate NotAfter(a: string, b: string)
  {
    exists k: nat :: PartsAt(a, b, k)
  }

  lemma PartsLater(a: string, b: string, k: nat)
    requires |a| > 0 && |b| > 0 && a[0] == b[0]
    ensures PartsAt(a, b, k + 1) <==> PartsAt(a[1..], b[1..], k)
    ensures !PartsAt(a, b, 0)
  {
    if k < |a| && k < |b| {
      assert a[..k + 1] == [a[0]] + a[1..][..k] && b[..k + 1] == [b[0]] + b[1..][..k];
      assert a[..k + 1][1..] == a[1..][..k] && b[..k + 1][1..] == b[1..][..k];
    }
  }

  lemma {:induction false} DictionaryOrder(a: string, b: string)
    ensures TextLeq(a, b) <==> NotAfter(a, b)
  {
    if |a| == 0 || |b| == 0 || a[0] != b[0] {
      PartsFirst(a, b);
    } else {
      hide PartsAt;
      var c, d := a[1..], b[1..];
      DictionaryOrder(c, d);
      if NotAfter(a, b) {
        var k: nat :| PartsAt(a, b, k);
        PartsLater(a, b, 0);
        PartsLater(a, b, k - 1);
      }
      if NotAfter(c, d) {
        var k: nat :| PartsAt(c, d, k);
        PartsLater(a, b, k);
      }
    }
  }

  lemma PartsFirst(a: string, b: string)
    requires |a| == 0 || |b| == 0 || a[0] != b[0]
    ensures TextLeq(a, b) <==> NotAfter(a, b)
  {
    assert a[..0] == b[..0];
    assert PartsAt(a, b, 0) <==> TextLeq(a, b);
    forall k: nat | 0 < k <= |a| && k <= |b|
      ensures a[..k] != b[..k]
    {
      assert a[..k][0] == a[0] && b[..k][0] == b[0];
    }
  }

  predicate Before(x: Item, y: Item)
  {
    x.size > y.size || (x.size == y.size && TextLeq(x.id, y.id))
  }

  lemma BeforeOrder(x: Item, y: Item)
    ensures Before(x, y) || Before(y, x)
    ensures Before(x, y) && Before(y, x) ==> x == y
  {
    TextOrder(x.id, y.id);
  }

  lemma BeforeTransitive(x: Item, y: Item, z: Item)
    requires Before(x, y) && Before(y, z)
    ensures Before(x, z)
  {
    if x.size == y.size == z.size {
      TextTransitive(x.id, y.id, z.id);
    }
  }

  ghost predicate Ordered(s: seq<Item>)
  {
    forall i, j :: 0 <= i < j < |s| ==> Before(s[i], s[j])
  }

  function Insert(s: seq<Item>, x: Item): (r: seq<Item>)
  {
    if |s| == 0 then [x] else if Before(x, s[0]) then [x] + s else [s[0]] + Insert(s[1..], x)
  }

  function Sort(items: seq<Item>): seq<Item>
  {
    if |items| == 0 then [] else Insert(Sort(items[1..]), items[0])
  }

  lemma MultisetFirst(s: seq<Item>)
    requires |s| > 0
    ensures multiset(s) == multiset{s[0]} + multiset(s[1..]) && multiset(s[1..]) == multiset(s) - multiset{s[0]}
  {
    assert s == [s[0]] + s[1..];
  }

  lemma OrderedCons(x: Item, s: seq<Item>)
    requires Ordered(s) && forall y <- s :: Before(x, y)
    ensures Ordered([x] + s)
  {
    hide Before;
  }

  lemma OrderedTail(s: seq<Item>)
    requires Ordered(s) && |s| > 0
    ensures Ordered(s[1..]) && forall y <- s[1..] :: Before(s[0], y)
  {
    hide Before;
    forall j | 0 <= j < |s| - 1
      ensures Before(s[0], s[1..][j])
    {
      assert s[1..][j] == s[j + 1];
    }
  }

  lemma {:induction false} InsertOrdered(s: seq<Item>, x: Item)
    requires Ordered(s)
    ensures Ordered(Insert(s, x)) && multiset(Insert(s, x)) == multiset(s) + multiset{x}
  {
    hide Before;
    hide Ordered;
    if |s| == 0 {
      SingleOrdered(x);
    } else {
      MultisetFirst(s);
      OrderedTail(s);
      BeforeOrder(x, s[0]);
      if Before(x, s[0]) {
        forall y | y in s
          ensures Before(x, y)
        {
          assert y in multiset(s);
          if y != s[0] {
            assert y in s[1..];
            BeforeTransitive(x, s[0], y);
          }
        }
        OrderedCons(x, s);
      } else {
        InsertOrdered(s[1..], x);
        var r := Insert(s[1..], x);
        forall y | y in r
          ensures Before(s[0], y)
        {
          assert y in multiset(r);
          assert y in multiset(s[1..]) || y == x;
        }
        OrderedCons(s[0], r);
        MultisetFirst([s[0]] + r);
      }
    }
  }

  lemma SingleOrdered(x: Item)
    ensures Ordered([x])
  {
  }

  lemma {:induction false} SortOrdered(items: seq<Item>)
    ensures Ordered(Sort(items)) && multiset(Sort(items)) == multiset(items)
  {
    if |items| > 0 {
      SortOrdered(items[1..]);
      InsertOrdered(Sort(items[1..]), items[0]);
      assert items == [items[0]] + items[1..];
    }
  }

  lemma FirstSame(s: seq<Item>, t: seq<Item>)
    requires Ordered(s) && Ordered(t) && multiset(s) == multiset(t) && |s| > 0 && |t| > 0
    ensures s[0] == t[0]
  {
    hide Before;
    assert s[0] in multiset(t) && t[0] in multiset(s);
    var i :| 0 <= i < |t| && t[i] == s[0];
    var j :| 0 <= j < |s| && s[j] == t[0];
    assert i > 0 ==> Before(t[0], t[i]);
    assert j > 0 ==> Before(s[0], s[j]);
    BeforeOrder(s[0], t[0]);
  }

  /** There is only one way to order the same items. */
  lemma {:induction false} OrderedUnique(s: seq<Item>, t: seq<Item>)
    requires Ordered(s) && Ordered(t) && multiset(s) == multiset(t)
    ensures s == t
  {
    hide Ordered;
    assert |multiset(s)| == |s| && |multiset(t)| == |t|;
    if |s| > 0 {
      FirstSame(s, t);
      MultisetFirst(s);
      MultisetFirst(t);
      OrderedTail(s);
      OrderedTail(t);
      OrderedUnique(s[1..], t[1..]);
      assert s == [s[0]] + s[1..] && t == [t[0]] + t[1..];
    }
  }

  // ----- the greedy pass

  function Total(s: seq<Item>): nat
  {
    if |s| == 0 then 0 else Total(s[..|s| - 1]) + s[|s| - 1].size
  }

  function Selected(s: seq<Item>, usable: nat): (r: seq<Item>)
    ensures Total(r) <= usable
  {
    if |s| == 0 then [] else
      var before, x := Selected(s[..|s| - 1], usable), s[|s| - 1];
      assert (before + [x])[..|before|] == before;
      if Total(before) + x.size <= usable then before + [x] else before
  }

  function Remaining(s: seq<Item>, usable: nat): (r: seq<Item>)
  {
    if |s| == 0 then [] else
      var before, x := Remaining(s[..|s| - 1], usable), s[|s| - 1];
      if Total(Selected(s[..|s| - 1], usable)) + x.size <= usable then before else before + [x]
  }

  lemma TotalSnoc(s: seq<Item>, x: Item)
    ensures Total(s + [x]) == Total(s) + x.size
  {
    assert (s + [x])[..|s|] == s;
  }

  /** One more item: it is selected if it still fits. */
  lemma GreedyStep(s: seq<Item>, x: Item, usable: nat)
    ensures var sel, rem := Selected(s, usable), Remaining(s, usable);
      if Total(sel) + x.size <= usable
      then Selected(s + [x], usable) == sel + [x] && Remaining(s + [x], usable) == rem
           && Total(sel + [x]) == Total(sel) + x.size
      else Selected(s + [x], usable) == sel && Remaining(s + [x], usable) == rem + [x]
  {
    assert (s + [x])[..|s|] == s;
    TotalSnoc(Selected(s, usable), x);
  }

  lemma {:induction false} GreedyPartition(s: seq<Item>, usable: nat)
    ensures multiset(Selected(s, usable)) + multiset(Remaining(s, usable)) == multiset(s)
  {
    if |s| > 0 {
      hide Selected;
      hide Remaining;
      hide Total;
      var n := |s| - 1;
      GreedyPartition(s[..n], usable);
      assert s == s[..n] + [s[n]];
      GreedyStep(s[..n], s[n], usable);
    }
  }

  lemma {:induction false} GreedyMaximal(s: seq<Item>, usable: nat, x: Item)
    requires x in Remaining(s, usable)
    ensures Total(Selected(s, usable)) + x.size > usable
  {
    if |s| > 0 {
      hide Selected;
      hide Remaining;
      hide Total;
      var n := |s| - 1;
      assert s == s[..n] + [s[n]];
      GreedyStep(s[..n], s[n], usable);
      if x in Remaining(s[..n], usable) {
        GreedyMaximal(s[..n], usable, x);
      }
    }
  }

  // ----- what decreasing order means for the outcome

  /** Non-increasing sizes, and equal sizes by identifier. */
  ghost predicate Decreasing(s: seq<Item>)
  {
    forall i, j :: 0 <= i < j < |s| ==>
      s[i].size > s[j].size || (s[i].size == s[j].size && NotAfter(s[i].id, s[j].id))
  }

  /** The size of those items of a list that are larger than `x`, or as large with an identifier not after it. */
  ghost function SizeAhead(s: seq<Item>, x: Item): nat
  {
    if |s| == 0 then 0 else
      var y := s[|s| - 1];
      SizeAhead(s[..|s| - 1], x)
      + if y.size > x.size || (y.size == x.size && NotAfter(y.id, x.id)) then y.size else 0
  }

  lemma BeforeMeans(x: Item, y: Item)
    ensures Before(x, y) <==> x.size > y.size || (x.size == y.size && NotAfter(x.id, y.id))
  {
    DictionaryOrder(x.id, y.id);
  }

  lemma OrderedDecreasing(s: seq<Item>)
    requires Ordered(s)
    ensures Decreasing(s)
  {
    hide Before;
    hide NotAfter;
    forall i, j | 0 <= i < j < |s|
      ensures s[i].size > s[j].size || (s[i].size == s[j].size && NotAfter(s[i].id, s[j].id))
    {
      BeforeMeans(s[i], s[j]);
    }
  }

  lemma {:induction false} AllAhead(s: seq<Item>, x: Item)
    requires forall y <- s :: Before(y, x)
    ensures SizeAhead(s, x) == Total(s)
  {
    hide Before;
    hide NotAfter;
    if |s| > 0 {
      var y := s[|s| - 1];
      assert y in s;
      BeforeMeans(y, x);
      AllAhead(s[..|s| - 1], x);
    }
  }

  lemma AheadSnoc(s: seq<Item>, y: Item, x: Item)
    ensures SizeAhead(s + [y], x) >= SizeAhead(s, x)
  {
    assert (s + [y])[..|s|] == s;
  }

  lemma {:induction false} SelectedFrom(s: seq<Item>, usable: nat)
    ensures forall y <- Selected(s, usable) :: y in s
    ensures forall y <- Remaining(s, usable) :: y in s
  {
    if |s| > 0 {
      hide Selected;
      hide Remaining;
      hide Total;
      var n := |s| - 1;
      assert s == s[..n] + [s[n]];
      SelectedFrom(s[..n], usable);
      GreedyStep(s[..n], s[n], usable);
    }
  }

  /** Both results keep the order of the items. */
  lemma {:induction false} GreedyOrdered(s: seq<Item>, usable: nat)
    requires Ordered(s)
    ensures Ordered(Selected(s, usable)) && Ordered(Remaining(s, usable))
  {
    if |s| > 0 {
      hide Selected;
      hide Remaining;
      hide Total;
      hide Before;
      var n := |s| - 1;
      assert s == s[..n] + [s[n]];
      assert Ordered(s[..n]);
      GreedyOrdered(s[..n], usable);
      SelectedFrom(s[..n], usable);
      GreedyStep(s[..n], s[n], usable);
      forall y | y in s[..n]
        ensures Before(y, s[n])
      {
        var i :| 0 <= i < n && s[..n][i] == y;
        assert Before(s[i], s[n]);
      }
      OrderedSnoc(Selected(s[..n], usable), s[n]);
      OrderedSnoc(Remaining(s[..n], usable), s[n]);
    }
  }

  lemma OrderedSnoc(s: seq<Item>, x: Item)
    requires Ordered(s) && forall y <- s :: Before(y, x)
    ensures Ordered(s + [x])
  {
    hide Before;
  }

  /** An item is left out only because what goes before it leaves no room. */
  lemma {:induction false} LeftOutByBetter(s: seq<Item>, usable: nat, x: Item)
    requires Ordered(s) && x in Remaining(s, usable)
    ensures SizeAhead(Selected(s, usable), x) + x.size > usable
  {
    hide Selected;
    hide Remaining;
    hide Total;
    hide Before;
    hide SizeAhead;
    if |s| == 0 {
      NothingSelected(usable);
    } else {
      var n := |s| - 1;
      var sel := Selected(s[..n], usable);
      assert s == s[..n] + [s[n]];
      assert Ordered(s[..n]);
      GreedyStep(s[..n], s[n], usable);
      if x in Remaining(s[..n], usable) {
        LeftOutByBetter(s[..n], usable, x);
        AheadSnoc(sel, s[n], x);
      } else {
        SelectedFrom(s[..n], usable);
        forall y | y in sel
          ensures Before(y, x)
        {
          var i :| 0 <= i < n && s[..n][i] == y;
          assert Before(s[i], s[n]);
        }
        AllAhead(sel, x);
      }
    }
  }

  /** Selects items for one volume: a partition of the items, within the usable capacity, that leaves
      nothing out that would still fit. Without usable capacity everything remains, in the given order;
      otherwise both results are in decreasing order, and an item is left out exactly because the selected
      items ahead of it leave no room. */
  method FirstFitDecreasing(items: seq<Item>, capacity: int, reserved: int)
    returns (selected: seq<Item>, remaining: seq<Item>)
    ensures capacity <= reserved ==> selected == [] && remaining == items
    ensures capacity > reserved ==>
      selected == Selected(Sort(items), capacity - reserved) && remaining == Remaining(Sort(items), capacity - reserved)
    ensures multiset(selected) + multiset(remaining) == multiset(items)
    ensures capacity > reserved ==> Total(selected) <= capacity - reserved
    ensures capacity > reserved ==> forall x <- remaining :: Total(selected) + x.size > capacity - reserved
    ensures capacity > reserved ==> Decreasing(selected) && Decreasing(remaining)
    ensures capacity > reserved ==> forall x <- remaining :: SizeAhead(selected, x) > capacity - reserved - x.size
  {
    hide Sort;
    hide Selected;
    hide Remaining;
    hide Total;
    hide Decreasing;
    hide SizeAhead;
    var usable := capacity - reserved;
    if usable <= 0 {
      return [], items;
    }
    var sorted := Sort(items);
    GreedyProperties(items, usable);
    selected, remaining := [], [];
    var fill := 0;
    NothingSelected(usable);
    assert sorted[..0] == [];
    for i := 0 to |sorted|
      invariant selected == Selected(sorted[..i], usable) && remaining == Remaining(sorted[..i], usable)
      invariant fill == Total(selected)
    {
      var x := sorted[i];
      assert sorted[..i + 1] == sorted[..i] + [x];
      GreedyStep(sorted[..i], x, usable);
      if fill + x.size <= usable {
        selected := selected + [x];
        fill := fill + x.size;
      } else {
        remaining := remaining + [x];
      }
    }
    assert sorted[..|sorted|] == sorted;
  }

  lemma GreedyProperties(items: seq<Item>, usable: nat)
    ensures var selected, remaining := Selected(Sort(items), usable), Remaining(Sort(items), usable);
      && multiset(selected) + multiset(remaining) == multiset(items)
      && Decreasing(selected) && Decreasing(remaining)
      && (forall x <- remaining :: Total(selected) + x.size > usable)
      && forall x <- remaining :: SizeAhead(selected, x) > usable - x.size
  {
    hide Sort;
    hide Selected;
    hide Remaining;
    hide Total;
    hide Decreasing;
    hide SizeAhead;
    hide Ordered;
    var sorted := Sort(items);
    SortOrdered(items);
    GreedyPartition(sorted, usable);
    GreedyOrdered(sorted, usable);
    OrderedDecreasing(Selected(sorted, usable));
    OrderedDecreasing(Remaining(sorted, usable));
    forall x | x in Remaining(sorted, usable)
      ensures Total(Selected(sorted, usable)) + x.size > usable
      ensures SizeAhead(Selected(sorted, usable), x) > usable - x.size
    {
      GreedyMaximal(sorted, usable, x);
      LeftOutByBetter(sorted, usable, x);
    }
  }

  lemma NothingSelected(usable: nat)
    ensures Selected([], usable) == [] && Remaining([], usable) == [] && Total([]) == 0
  {
  }

  /** The order of the input does not matter while there is usable capacity. */
  lemma InputOrderIrrelevant(items: seq<Item>, items': seq<Item>)
    requires multiset(items) == multiset(items')
    ensures Sort(items) == Sort(items')
  {
    SortOrdered(items);
    SortOrdered(items');
    OrderedUnique(Sort(items), Sort(items'));
  }

  // ----- volume after volume

  ghost predicate NoneOversized(items: seq<Item>, usable: nat)
  {
    forall x <- items :: x.size <= usable
  }

  function Without(t: seq<Item>, k: nat): (r: seq<Item>)
    requires k < |t|
    ensures |r| == |t| - 1
  {
    t[..k] + t[k + 1..]
  }

  lemma MultisetWithout(t: seq<Item>, k: nat)
    requires k < |t|
    ensures multiset(Without(t, k)) == multiset(t) - multiset{t[k]}
  {
    assert t == t[..k] + [t[k]] + t[k + 1..];
  }

  lemma FindMember(s: seq<Item>, x: Item) returns (k: nat)
    requires x in multiset(s)
    ensures k < |s| && s[k] == x
  {
    k :| k < |s| && s[k] == x;
  }

  lemma {:induction false} TotalSame(s: seq<Item>, t: seq<Item>)
    requires multiset(s) == multiset(t)
    ensures Total(s) == Total(t)
    decreases |s|
  {
    hide Total;
    hide Without;
    if |s| == 0 {
      assert |multiset(t)| == |t|;
      assert s == t;
    } else {
      assert s[0] in multiset(s);
      var k := FindMember(t, s[0]);
      MultisetWithout(s, 0);
      MultisetWithout(t, k);
      TotalSame(Without(s, 0), Without(t, k));
      TotalWithout(s, 0);
      TotalWithout(t, k);
    }
  }

  lemma {:induction false} TotalWithout(t: seq<Item>, k: nat)
    requires k < |t|
    ensures Total(t) == Total(Without(t, k)) + t[k].size
  {
    var n := |t| - 1;
    var rest := Without(t, k);
    if k == n {
      assert rest == t[..n];
    } else {
      TotalWithout(t[..n], k);
      assert rest[..|rest| - 1] == Without(t[..n], k);
    }
  }

  lemma {:induction false} TotalConcat(a: seq<Item>, b: seq<Item>)
    ensures Total(a + b) == Total(a) + Total(b)
  {
    if |b| == 0 {
      assert a + b == a;
    } else {
      assert (a + b)[..|a + b| - 1] == a + b[..|b| - 1];
      TotalConcat(a, b[..|b| - 1]);
    }
  }

  lemma {:induction false} TotalMember(s: seq<Item>, x: Item)
    requires x in s
    ensures Total(s) >= x.size
  {
    var n := |s| - 1;
    if x != s[n] {
      assert x in s[..n];
      TotalMember(s[..n], x);
    }
  }

  function Sum(vols: seq<seq<Item>>): nat
  {
    if |vols| == 0 then 0 else Sum(vols[..|vols| - 1]) + Total(vols[|vols| - 1])
  }

  function Contents(vols: seq<seq<Item>>): seq<Item>
  {
    if |vols| == 0 then [] else Contents(vols[..|vols| - 1]) + vols[|vols| - 1]
  }

  /** Volumes within capacity of which any two in a row exceed it together. */
  ghost predicate Packed(vols: seq<seq<Item>>, usable: nat)
  {
    && (forall i :: 0 <= i < |vols| ==> Total(vols[i]) <= usable && |vols[i]| > 0)
    && forall i :: 0 <= i < |vols| - 1 ==> Total(vols[i]) + Total(vols[i + 1]) > usable
  }

  /** Fills volume after volume until nothing remains, or reports that some item can never fit. */
  method FillVolumes(items: seq<Item>, capacity: int, reserved: int) returns (r: Option<seq<seq<Item>>>)
    ensures r.Some? <==> items == [] || (capacity > reserved && NoneOversized(items, capacity - reserved))
    ensures r.Some? ==> multiset(Contents(r.value)) == multiset(items)
    ensures r.Some? && capacity > reserved ==> Packed(r.value, capacity - reserved)
  {
    hide Selected;
    hide Remaining;
    hide Sort;
    hide Total;
    hide Contents;
    hide Filling;
    var vols: seq<seq<Item>>, rest := [], items;
    NothingFilled(items, capacity, reserved);
    while |rest| > 0
      invariant Filling(items, vols, rest, capacity, reserved)
      decreases |rest|
    {
      var selected, remaining := FirstFitDecreasing(rest, capacity, reserved);
      assert |multiset(selected)| + |multiset(remaining)| == |multiset(rest)|;
      if |selected| == 0 {
        Stuck(items, vols, rest, remaining, capacity, reserved);
        return None;
      }
      OneMore(items, vols, rest, selected, remaining, capacity, reserved);
      vols := vols + [selected];
      rest := remaining;
    }
    Fits(items, vols, rest, capacity, reserved);
    return Some(vols);
  }

  /** Volumes filled so far, and the items that did not fit in the last of them. */
  ghost predicate Filling(items: seq<Item>, vols: seq<seq<Item>>, rest: seq<Item>, capacity: int, reserved: int)
  {
    && multiset(Contents(vols)) + multiset(rest) == multiset(items)
    && (|vols| > 0 ==> capacity > reserved)
    && (capacity > reserved ==> Packed(vols, capacity - reserved))
    && (|vols| > 0 ==> forall x <- rest :: Total(vols[|vols| - 1]) + x.size > capacity - reserved)
  }

  lemma NothingFilled(items: seq<Item>, capacity: int, reserved: int)
    ensures Filling(items, [], items, capacity, reserved)
  {
  }

  lemma OneMore(items: seq<Item>, vols: seq<seq<Item>>, rest: seq<Item>, selected: seq<Item>, remaining: seq<Item>,
                capacity: int, reserved: int)
    requires Filling(items, vols, rest, capacity, reserved) && |selected| > 0 && capacity > reserved
    requires multiset(selected) + multiset(remaining) == multiset(rest) && Total(selected) <= capacity - reserved
    requires forall x <- remaining :: Total(selected) + x.size > capacity - reserved
    ensures Filling(items, vols + [selected], remaining, capacity, reserved)
  {
    hide Total;
    hide Contents;
    hide Packed;
    ContentsSnoc(vols, selected);
    assert multiset(Contents(vols + [selected])) + multiset(remaining) == multiset(items);
    if |vols| > 0 {
      assert selected[0] in multiset(rest);
      assert selected[0] in rest;
      TotalMember(selected, selected[0]);
    }
    PackedSnoc(vols, selected, capacity - reserved);
  }

  lemma ContentsSnoc(vols: seq<seq<Item>>, v: seq<Item>)
    ensures multiset(Contents(vols + [v])) == multiset(Contents(vols)) + multiset(v)
  {
    assert (vols + [v])[..|vols|] == vols;
  }

  lemma PackedSnoc(vols: seq<seq<Item>>, v: seq<Item>, usable: nat)
    requires Packed(vols, usable) && |v| > 0 && Total(v) <= usable
    requires |vols| > 0 ==> Total(vols[|vols| - 1]) + Total(v) > usable
    ensures Packed(vols + [v], usable)
  {
    hide Total;
    var all := vols + [v];
    forall i | 0 <= i < |all| - 1
      ensures Total(all[i]) + Total(all[i + 1]) > usable
    {
      assert i < |vols| - 1 ==> Total(vols[i]) + Total(vols[i + 1]) > usable;
    }
  }

  lemma Stuck(items: seq<Item>, vols: seq<seq<Item>>, rest: seq<Item>, remaining: seq<Item>,
              capacity: int, reserved: int)
    requires Filling(items, vols, rest, capacity, reserved) && |rest| > 0 && multiset(remaining) == multiset(rest)
    requires capacity > reserved ==> forall x <- remaining :: Total([]) + x.size > capacity - reserved
    ensures items != [] && !(capacity > reserved && NoneOversized(items, capacity - reserved))
  {
    assert rest[0] in multiset(remaining) && rest[0] in multiset(items);
    assert rest[0] in remaining && rest[0] in items;
  }

  lemma {:induction false} MemberVolume(vols: seq<seq<Item>>, x: Item) returns (i: nat)
    requires x in Contents(vols)
    ensures i < |vols| && x in vols[i]
  {
    var n := |vols| - 1;
    if x in vols[n] {
      i := n;
    } else {
      i := MemberVolume(vols[..n], x);
    }
  }

  lemma Fits(items: seq<Item>, vols: seq<seq<Item>>, rest: seq<Item>, capacity: int, reserved: int)
    requires Filling(items, vols, rest, capacity, reserved) && |rest| == 0
    ensures multiset(Contents(vols)) == multiset(items)
    ensures capacity > reserved ==> Packed(vols, capacity - reserved)
    ensures items == [] || (capacity > reserved && NoneOversized(items, capacity - reserved))
  {
    if |vols| == 0 {
      assert |multiset(items)| == |items|;
    } else {
      forall x | x in items
        ensures x.size <= capacity - reserved
      {
        assert x in multiset(items) && x in Contents(vols);
        var i := MemberVolume(vols, x);
        TotalMember(vols[i], x);
      }
    }
  }

  // ----- the estimate

  /** Python's int() of a quotient by 100. */
  function Hundredth(a: int): int
  {
    if a >= 0 then a / 100 else -(-a / 100)
  }

  function UsableAfterEcc(capacity: int, reserved: int, ecc: int): int
  {
    Hundredth(capacity * (100 - ecc)) - reserved
  }

  /** The least number of volumes whose usable capacities hold the total; no answer without usable capacity. */
  method EstimateVolumesNeeded(total: int, capacity: int, reserved: int, ecc: int) returns (r: Option<nat>)
    ensures total <= 0 ==> r == Some(0)
    ensures total > 0 ==> (r.None? <==> UsableAfterEcc(capacity, reserved, ecc) <= 0)
    ensures total > 0 && r.Some? ==>
      var usable := UsableAfterEcc(capacity, reserved, ecc);
      r.value >= 1 && total <= r.value * usable && (r.value - 1) * usable < total
    ensures total > 0 && ecc == 0 && capacity > reserved && capacity >= 0 ==>
      r == Some(Estimate(total, capacity - reserved))
  {
    if total <= 0 {
      return Some(0);
    }
    var usable := UsableAfterEcc(capacity, reserved, ecc);
    if usable <= 0 {
      return None;
    }
    var count := (total + usable - 1) / usable;
    QuotientPositive(total + usable - 1, usable);
    CeilingExact(total, usable, count);
    return Some(if count > 1 then count else 1);
  }

  lemma CeilingExact(total: nat, usable: nat, c: nat)
    requires usable > 0 && c >= 1 && c == (total + usable - 1) / usable
    ensures total <= c * usable && (c - 1) * usable < total
  {
    var m := (total + usable - 1) % usable;
    assert total + usable - 1 == c * usable + m;
    MulNext(c - 1, usable);
  }

  /** The estimate without error correction: the total over the usable capacity, rounded up. */
  function Estimate(total: nat, usable: nat): nat
    requires usable > 0
  {
    if total == 0 then 0 else (total + usable - 1) / usable
  }

  lemma {:induction false} SumContents(vols: seq<seq<Item>>)
    ensures Total(Contents(vols)) == Sum(vols)
  {
    if |vols| > 0 {
      SumContents(vols[..|vols| - 1]);
      TotalConcat(Contents(vols[..|vols| - 1]), vols[|vols| - 1]);
    }
  }

  lemma {:induction false} SumAtMost(vols: seq<seq<Item>>, usable: nat)
    requires forall i :: 0 <= i < |vols| ==> Total(vols[i]) <= usable
    ensures Sum(vols) <= |vols| * usable
  {
    if |vols| > 0 {
      var n := |vols| - 1;
      SumAtMost(vols[..n], usable);
      MulNext(n, usable);
    }
  }

  /** Pairs of volumes exceed the capacity, so `2 * m` volumes hold more than `m` times it. */
  lemma {:induction false} SumAtLeast(vols: seq<seq<Item>>, usable: nat, m: nat)
    requires Packed(vols, usable) && 2 * m <= |vols|
    ensures Sum(vols) >= m * (usable + 1)
  {
    hide Packed;
    var n := |vols|;
    if n > 2 * m {
      PackedPrefix(vols, usable, n - 1);
      SumAtLeast(vols[..n - 1], usable, m);
    } else if m > 0 {
      PackedPrefix(vols, usable, n - 2);
      SumAtLeast(vols[..n - 2], usable, m - 1);
      SumLastTwo(vols, usable);
      MulNext(m - 1, usable + 1);
    }
  }

  lemma SumLastTwo(vols: seq<seq<Item>>, usable: nat)
    requires Packed(vols, usable) && |vols| >= 2
    ensures Sum(vols) > Sum(vols[..|vols| - 2]) + usable
  {
    var n := |vols|;
    assert vols[..n - 1][..n - 2] == vols[..n - 2];
    assert Total(vols[n - 2]) + Total(vols[n - 2 + 1]) > usable;
  }

  lemma PackedPrefix(vols: seq<seq<Item>>, usable: nat, n: nat)
    requires Packed(vols, usable) && n <= |vols|
    ensures Packed(vols[..n], usable)
  {
    forall i | 0 <= i < n - 1
      ensures Total(vols[..n][i]) + Total(vols[..n][i + 1]) > usable
    {
      assert Total(vols[i]) + Total(vols[i + 1]) > usable;
    }
  }

  /** The estimate never exceeds the number of volumes filled, which is at most twice the estimate
      (one volume if all items are empty). */
  lemma EstimateBounds(items: seq<Item>, vols: seq<seq<Item>>, usable: nat)
    requires usable > 0 && Packed(vols, usable) && multiset(Contents(vols)) == multiset(items)
    ensures Estimate(Total(items), usable) <= |vols|
    ensures Total(items) > 0 ==> |vols| <= 2 * Estimate(Total(items), usable)
  {
    hide Packed;
    TotalSame(Contents(vols), items);
    SumContents(vols);
    VolumesWithin(vols, usable);
    SumAtMost(vols, usable);
    SumAtLeast(vols, usable, |vols| / 2);
    RoundedUp(Total(items), usable, |vols|);
  }

  lemma VolumesWithin(vols: seq<seq<Item>>, usable: nat)
    requires Packed(vols, usable)
    ensures forall i :: 0 <= i < |vols| ==> Total(vols[i]) <= usable
  {
  }

  lemma QuotientPositive(a: nat, b: nat)
    requires a >= b > 0
    ensures a / b >= 1
  {
  }

  lemma RoundedUp(total: nat, usable: nat, n: nat)
    requires usable > 0 && total <= n * usable && total >= n / 2 * (usable + 1)
    ensures Estimate(total, usable) <= n
    ensures total > 0 ==> n <= 2 * Estimate(total, usable)
  {
    if total > 0 {
      var e, m := (total + usable - 1) / usable, (total + usable - 1) % usable;
      assert total + usable - 1 == e * usable + m;
      if e > n {
        MulMono(n + 1, e, usable);
        MulNext(n, usable);
        assert false;
      }
      var h := n / 2;
      assert h * (usable + 1) == h * usable + h;
      if e < h + 1 && h > 0 {
        MulMono(e, h, usable);
        assert false;
      }
      QuotientPositive(total + usable - 1, usable);
    }
  }
}
