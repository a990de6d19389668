/** The two helpers of utils/ocrProcessor.ts that work on a list of parsed
    items: the distinct categories, and the items grouped by category. */
module ReceiptItems {
  import opened Wrappers
  import opened ReceiptParser

  /* ---------- getUniqueCategories ---------- */

  predicate NoDup(xs: seq<string>) {
    forall i, j :: 0 <= i < j < |xs| ==> xs[i] != xs[j]
  }

  /** `.map(item => item.category).filter(category => category !== undefined)`. */
  function DefinedCategories(items: seq<Item>): (r: seq<string>)
    ensures forall c :: c in r <==> exists i :: 0 <= i < |items| && items[i].category == Some(c)
    decreases |items|
  {
    if items == [] then []
    else
      var n := |items| - 1;
      var d := DefinedCategories(items[..n]);
      assert forall i :: 0 <= i < n ==> items[..n][i] == items[i];
      match items[n].category
      case None => d
      case Some(c) => d + [c]
  }

  /** `Array.from(new Set(xs))`: each value once, where it first occurs. */
  function Dedup(xs: seq<string>): (r: seq<string>)
    ensures NoDup(r)
    ensures forall x :: x in r <==> x in xs
    decreases |xs|
  {
    if xs == [] then []
    else
      var n := |xs| - 1;
      var d := Dedup(xs[..n]);
      assert forall x :: x in xs <==> x in xs[..n] || x == xs[n] by {
        assert xs == xs[..n] + [xs[n]];
      }
      if xs[n] in d then d else d + [xs[n]]
  }

  /** Index of the first occurrence of `x`. */
  function First(xs: seq<string>, x: string): (k: nat)
    requires x in xs
    ensures k < |xs| && xs[k] == x && x !in xs[..k]
  {
    if xs[0] == x then 0 else 1 + First(xs[1..], x)
  }

  /** `getUniqueCategories`. */
  function UniqueCategories(items: seq<Item>): seq<string> {
    Dedup(DefinedCategories(items))
  }

  lemma FirstOfPrefix(xs: seq<string>, n: nat, x: string)
    requires n <= |xs| && x in xs[..n]
    ensures x in xs && First(xs, x) == First(xs[..n], x)
  {
    var k := First(xs[..n], x);
    assert xs[..k] == xs[..n][..k];
  }

  /** `Set` keeps insertion order: the values come out in the order of their
      first occurrence. */
  lemma {:induction false} DedupKeepsFirstOrder(xs: seq<string>)
    ensures forall i, j :: 0 <= i < j < |Dedup(xs)| ==> First(xs, Dedup(xs)[i]) < First(xs, Dedup(xs)[j])
    decreases |xs|
  {
    if xs != [] {
      var n := |xs| - 1;
      var d := Dedup(xs[..n]);
      DedupKeepsFirstOrder(xs[..n]);
      forall i | 0 <= i < |d| ensures d[i] in xs && First(xs, d[i]) == First(xs[..n], d[i]) {
        FirstOfPrefix(xs, n, d[i]);
      }
      if xs[n] !in d {
        assert xs[n] !in xs[..n];
      }
    }
  }

  /** The unique categories are the defined ones, each once, in order of
      first appearance. */
  lemma UniqueCategoriesSpec(items: seq<Item>)
    ensures NoDup(UniqueCategories(items))
    ensures forall c :: c in UniqueCategories(items) <==> exists i :: 0 <= i < |items| && items[i].category == Some(c)
    ensures var ds := DefinedCategories(items); var u := UniqueCategories(items);
            forall i, j :: 0 <= i < j < |u| ==> First(ds, u[i]) < First(ds, u[j])
  {
    DedupKeepsFirstOrder(DefinedCategories(items));
  }

  /* ---------- groupItemsByCategory ---------- */

  /** The names a fresh object literal already answers through its
      prototype, `Object.prototype`. */
  predicate PrototypeName(c: string) {
    c == "constructor" || c == "__proto__" || c == "toString" || c == "toLocaleString" ||
    c == "valueOf" || c == "hasOwnProperty" || c == "isPrototypeOf" || c == "propertyIsEnumerable" ||
    c == "__defineGetter__" || c == "__defineSetter__" || c == "__lookupGetter__" || c == "__lookupSetter__"
  }

  /** `if (item.category)`: a category that is set and not the empty
      string. */
  predicate Grouped(it: Item) {
    it.category.Some? && it.category.value != []
  }

  /** The items of category `c`, in their original order. */
  function GroupOf(items: seq<Item>, c: string): seq<Item>
    decreases |items|
  {
    if items == [] then []
    else
      var n := |items| - 1;
      GroupOf(items[..n], c) + (if items[n].category == Some(c) then [items[n]] else [])
  }

  lemma GroupStep(items: seq<Item>, it: Item, c: string)
    ensures GroupOf(items + [it], c) == GroupOf(items, c) + (if it.category == Some(c) then [it] else [])
  {
    assert (items + [it])[..|items|] == items;
  }

  /** A category no item carries has an empty group. */
  lemma {:induction false} GroupOfAbsent(items: seq<Item>, c: string)
    requires forall i :: 0 <= i < |items| ==> items[i].category != Some(c)
    ensures GroupOf(items, c) == []
    decreases |items|
  {
    if items != [] {
      var n := |items| - 1;
      GroupOfAbsent(items[..n], c);
    }
  }

  /** Some grouped item names a prototype member. */
  predicate HitsPrototype(items: seq<Item>) {
    exists i :: 0 <= i < |items| && Grouped(items[i]) && PrototypeName(items[i].category.value)
  }

  /** `acc` holds, for every non-empty category of `items`, its group. */
  ghost predicate IsGrouping(acc: map<string, seq<Item>>, items: seq<Item>) {
    (forall c :: c in acc <==> c != [] && exists i :: 0 <= i < |items| && items[i].category == Some(c)) &&
    (forall c :: c in acc ==> acc[c] == GroupOf(items, c))
  }

  /** An item the reducer skips changes no group that exists. */
  lemma SkipStep(acc: map<string, seq<Item>>, items: seq<Item>, it: Item)
    requires IsGrouping(acc, items) && !Grouped(it)
    ensures IsGrouping(acc, items + [it])
  {
    var items' := items + [it];
    forall c | c in acc ensures acc[c] == GroupOf(items', c) {
      GroupStep(items, it, c);
    }
    assert forall k :: 0 <= k < |items| ==> items'[k] == items[k];
  }

  /** An item with a category goes to the end of its group, which is made
      first if it is missing. */
  lemma PushStep(acc: map<string, seq<Item>>, items: seq<Item>, it: Item)
    requires IsGrouping(acc, items) && Grouped(it)
    ensures var c := it.category.value;
            var acc' := if c in acc then acc else acc[c := []];
            IsGrouping(acc'[c := acc'[c] + [it]], items + [it])
  {
    var c := it.category.value;
    var items' := items + [it];
    if c !in acc {
      GroupOfAbsent(items, c);
    }
    var acc' := if c in acc then acc else acc[c := []];
    forall d | d in acc'[c := acc'[c] + [it]] ensures acc'[c := acc'[c] + [it]][d] == GroupOf(items', d) {
      GroupStep(items, it, d);
    }
    assert forall k :: 0 <= k < |items| ==> items'[k] == items[k];
    assert items'[|items|] == it;
  }

  /** `groupItemsByCategory`. The accumulator starts as `{}`: for a name
      `Object.prototype` already answers, `!acc[c]` is false, so no array is
      made, and `acc[c].push` is not a function and throws a `TypeError`. */
  method GroupItemsByCategory(items: seq<Item>) returns (r: Result<map<string, seq<Item>>, string>)
    ensures r.Failure? <==> HitsPrototype(items)
    ensures r.Failure? ==> r.error == "TypeError"
    ensures r.Success? ==> IsGrouping(r.value, items)
  {
    var acc: map<string, seq<Item>> := map[];
    for i := 0 to |items|
      invariant !HitsPrototype(items[..i])
      invariant IsGrouping(acc, items[..i])
    {
      var item := items[i];
      assert items[..i + 1] == items[..i] + [item];
      if item.category.Some? && item.category.value != [] {
        var c := item.category.value;
        PushStep(acc, items[..i], item);
        if c !in acc && !PrototypeName(c) {
          acc := acc[c := []];
        }
        if c !in acc {
          assert Grouped(items[..i + 1][i]);
          return Failure("TypeError");
        }
        acc := acc[c := acc[c] + [item]];
      } else {
        SkipStep(acc, items[..i], item);
      }
    }
    assert items[..|items|] == items;
    return Success(acc);
  }

  /* ---------- the groups together ---------- */

  /** The items that land in some group, in order. */
  function Categorised(items: seq<Item>): seq<Item>
    decreases |items|
  {
    if items == [] then []
    else
      var n := |items| - 1;
      Categorised(items[..n]) + (if Grouped(items[n]) then [items[n]] else [])
  }

  /** The keys of the grouping: the unique non-empty categories. */
  function GroupKeys(items: seq<Item>): (keys: seq<string>)
    ensures NoDup(keys)
    ensures forall c :: c in keys <==> c in UniqueCategories(items) && c != []
  {
    Dedup(NonEmpty(DefinedCategories(items)))
  }

  /** A successful grouping has exactly those keys. */
  lemma GroupingKeys(acc: map<string, seq<Item>>, items: seq<Item>)
    requires IsGrouping(acc, items)
    ensures forall c :: c in acc <==> c in GroupKeys(items)
  {
    UniqueCategoriesSpec(items);
  }

  /** The sizes of the groups of `keys`, added up. */
  function SizeSum(items: seq<Item>, keys: seq<string>): nat {
    if keys == [] then 0 else |GroupOf(items, keys[0])| + SizeSum(items, keys[1..])
  }

  lemma {:induction false} SizeSumAppend(items: seq<Item>, k1: seq<string>, k2: seq<string>)
    ensures SizeSum(items, k1 + k2) == SizeSum(items, k1) + SizeSum(items, k2)
  {
    if k1 == [] {
      assert k1 + k2 == k2;
    } else {
      assert (k1 + k2)[1..] == k1[1..] + k2;
      SizeSumAppend(items, k1[1..], k2);
    }
  }

  lemma {:induction false} SizeSumSame(items: seq<Item>, pre: seq<Item>, keys: seq<string>)
    requires forall k :: k in keys ==> GroupOf(items, k) == GroupOf(pre, k)
    ensures SizeSum(items, keys) == SizeSum(pre, keys)
  {
    if keys != [] {
      SizeSumSame(items, pre, keys[1..]);
    }
  }

  lemma {:induction false} SizeSumBump(items: seq<Item>, pre: seq<Item>, keys: seq<string>, c: string)
    requires NoDup(keys) && c in keys
    requires |GroupOf(items, c)| == |GroupOf(pre, c)| + 1
    requires forall k :: k in keys && k != c ==> GroupOf(items, k) == GroupOf(pre, k)
    ensures SizeSum(items, keys) == SizeSum(pre, keys) + 1
  {
    if keys[0] == c {
      assert c !in keys[1..] by {
        forall j | 0 <= j < |keys[1..]| ensures keys[1..][j] != c {
          assert keys[1..][j] == keys[j + 1];
        }
      }
      SizeSumSame(items, pre, keys[1..]);
    } else {
      SizeSumBump(items, pre, keys[1..], c);
    }
  }

  lemma KeysStep(items: seq<Item>, it: Item)
    ensures GroupKeys(items + [it]) ==
              if Grouped(it) && it.category.value !in GroupKeys(items) then GroupKeys(items) + [it.category.value]
              else GroupKeys(items)
  {
    var items' := items + [it];
    assert items'[..|items|] == items;
    var ds := DefinedCategories(items);
    var extra := if it.category.Some? then [it.category.value] else [];
    assert DefinedCategories(items') == ds + extra;
    NonEmptyAppend(ds, extra);
    var ne := NonEmpty(ds) + NonEmpty(extra);
    if Grouped(it) {
      assert NonEmpty(extra) == [it.category.value];
      assert ne[..|ne| - 1] == NonEmpty(ds);
    } else {
      assert NonEmpty(extra) == [];
      assert ne == NonEmpty(ds);
    }
  }

  /** No item is lost or counted twice: the group sizes add up to the number
      of items with a non-empty category. */
  lemma {:induction false} GroupSizes(items: seq<Item>)
    ensures SizeSum(items, GroupKeys(items)) == |Categorised(items)|
    decreases |items|
  {
    if items != [] {
      var n := |items| - 1;
      assert items == items[..n] + [items[n]];
      GroupSizes(items[..n]);
      GroupSizesStep(items[..n], items[n]);
    }
  }

  /** One more item keeps the group sizes adding up. */
  lemma GroupSizesStep(pre: seq<Item>, it: Item)
    requires SizeSum(pre, GroupKeys(pre)) == |Categorised(pre)|
    ensures SizeSum(pre + [it], GroupKeys(pre + [it])) == |Categorised(pre + [it])|
  {
    assert (pre + [it])[..|pre|] == pre;
    if Grouped(it) {
      SizesGrouped(pre, it);
    } else {
      SizesUngrouped(pre, it);
    }
  }

  /** An item with a non-empty category adds one to exactly one group. */
  lemma SizesGrouped(pre: seq<Item>, it: Item)
    requires Grouped(it)
    ensures SizeSum(pre + [it], GroupKeys(pre + [it])) == SizeSum(pre, GroupKeys(pre)) + 1
  {
    KeysStep(pre, it);
    if it.category.value in GroupKeys(pre) {
      OldKeySizes(pre, it, it.category.value);
    } else {
      NewKeySizes(pre, it, it.category.value);
    }
  }

  lemma OldKeySizes(pre: seq<Item>, it: Item, c: string)
    requires it.category == Some(c) && c in GroupKeys(pre)
    ensures SizeSum(pre + [it], GroupKeys(pre)) == SizeSum(pre, GroupKeys(pre)) + 1
  {
    var items := pre + [it];
    forall k ensures GroupOf(items, k) == GroupOf(pre, k) + (if it.category == Some(k) then [it] else []) {
      GroupStep(pre, it, k);
    }
    SizeSumBump(items, pre, GroupKeys(pre), c);
  }

  lemma NewKeySizes(pre: seq<Item>, it: Item, c: string)
    requires it.category == Some(c) && c != [] && c !in GroupKeys(pre)
    ensures SizeSum(pre + [it], GroupKeys(pre) + [c]) == SizeSum(pre, GroupKeys(pre)) + 1
  {
    var items, keys := pre + [it], GroupKeys(pre);
    forall k | k in keys
      ensures GroupOf(items, k) == GroupOf(pre, k)
    {
      GroupStep(pre, it, k);
    }
    SizeSumSame(items, pre, keys);
    NewKeySize(pre, it, c);
    SizeSumAppend(items, keys, [c]);
  }

  /** The group of a category first met at the last item is that item. */
  lemma NewKeySize(pre: seq<Item>, it: Item, c: string)
    requires it.category == Some(c) && c != [] && c !in GroupKeys(pre)
    ensures SizeSum(pre + [it], [c]) == 1
  {
    UniqueCategoriesSpec(pre);
    assert c !in UniqueCategories(pre);
    GroupOfAbsent(pre, c);
    GroupStep(pre, it, c);
    assert [c][1..] == [];
  }

  /** An item without a category changes no group. */
  lemma SizesUngrouped(pre: seq<Item>, it: Item)
    requires !Grouped(it)
    ensures SizeSum(pre + [it], GroupKeys(pre + [it])) == SizeSum(pre, GroupKeys(pre))
  {
    var items := pre + [it];
    KeysStep(pre, it);
    var keys := GroupKeys(pre);
    forall k | k in keys
      ensures GroupOf(items, k) == GroupOf(pre, k)
    {
      GroupStep(pre, it, k);
    }
    SizeSumSame(items, pre, keys);
  }

  /** Items the receipt parser produces carry one of the five table labels
      or none, so grouping them never meets a prototype name. */
  lemma ParsedItemsGroup(items: seq<Item>)
    requires forall i :: 0 <= i < |items| ==> WellFormed(items[i])
    ensures !HitsPrototype(items)
  {
  }
}
