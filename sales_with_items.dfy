/**
 * `make_sales_with_items`: walks the item names in insertion order with one
 * forward cursor into a shop's flat sales list and hands one value to every
 * leaf, giving { major name => value, major name => { minor name => value } }.
 */
module SalesWithItems {
  import opened RubyHash
  import opened SalesItemNames

  /** `sales[index]`: Ruby's Array#[] gives nil past the end. */
  function At(sales: seq<string>, index: nat): (r: Option<string>)
    ensures r.Some? <==> index < |sales|
    ensures r.Some? ==> r.value == sales[index]
  {
    if index < |sales| then Some(sales[index]) else None
  }

  /** A major name's merged value: one sales figure, or a nested Hash minor name => figure. */
  datatype Value = Scalar(sale: Option<string>) | Nested(sales: Hash<string, Option<string>>)

  type SalesWithItemName = Hash<string, Value>

  /** How many values an item takes from the list. */
  function Width(item: Item): nat {
    match item
    case Leaf => 1
    case Group(minors) => |minors|
  }

  /** The number of leaves of the item names. */
  function LeafCount(names: ItemNames): nat {
    if names == [] then 0 else LeafCount(names[..|names| - 1]) + Width(names[|names| - 1].value)
  }

  /** The nested Hash for `minors`, reading values from `index` on. */
  function MinorSales(minors: seq<string>, sales: seq<string>, index: nat): (r: Hash<string, Option<string>>)
    ensures |r| == |minors|
    ensures forall j :: 0 <= j < |minors| ==> r[j] == Entry(minors[j], At(sales, index + j))
  {
    seq(|minors|, j requires 0 <= j < |minors| => Entry(minors[j], At(sales, index + j)))
  }

  /** The result entries of one item, reading values from `index` on; an empty group gives none. */
  function MergeItem(e: Entry<string, Item>, sales: seq<string>, index: nat): SalesWithItemName {
    match e.value
    case Leaf => [Entry(e.key, Scalar(At(sales, index)))]
    case Group(minors) =>
      if minors == [] then [] else [Entry(e.key, Nested(MinorSales(minors, sales, index)))]
  }

  /** The reference merge: item by item, each reading the values after the leaves of the items before it. */
  function Merge(names: ItemNames, sales: seq<string>): SalesWithItemName {
    if names == [] then []
    else
      var init := names[..|names| - 1];
      Merge(init, sales) + MergeItem(names[|names| - 1], sales, LeafCount(init))
  }

  method MakeSalesWithItems(itemNames: ItemNames, sales: seq<string>) returns (result: SalesWithItemName)
    requires WellFormed(itemNames)
    ensures result == Merge(itemNames, sales)
  {
    result := [];
    var index := 0;
    for i := 0 to |itemNames|
      invariant result == Merge(itemNames[..i], sales)
      invariant index == LeafCount(itemNames[..i])
    {
      var itemName, itemValue := itemNames[i].key, itemNames[i].value;
      ghost var prior, start := result, index;
      NextItem(itemNames, i, sales);
      match itemValue
      case Group(minors) =>
        assert Distinct(minors) by {
          LookupAt(itemNames, i);
          assert MinorsOf(itemNames, itemName) == minors;
        }
        result, index := MergeGroup(result, itemName, minors, sales, index);
      case Leaf =>
        PutFresh(result, itemName, Scalar(At(sales, index)));
        result := Put(result, itemName, Scalar(At(sales, index)));
        index := index + 1;
    }
    assert itemNames[..|itemNames|] == itemNames;
  }

  /** The inner loop: one value per minor name, written into the item's nested Hash. */
  method MergeGroup(prior: SalesWithItemName, itemName: string, minors: seq<string>, sales: seq<string>, start: nat)
    returns (result: SalesWithItemName, index: nat)
    requires itemName !in Keys(prior) && Distinct(minors)
    ensures result == prior + MergeItem(Entry(itemName, Group(minors)), sales, start)
    ensures index == start + |minors|
  {
    result, index := prior, start;
    for j := 0 to |minors|
      invariant index == start + j
      invariant result == GroupSoFar(prior, itemName, minors[..j], sales, start)
    {
      AssignMinor(prior, itemName, minors, j, sales, start);
      result := OrEmpty(result, itemName);
      var nested := Lookup(result, itemName).value.sales;
      result := Put(result, itemName, Nested(Put(nested, minors[j], At(sales, index))));
      index := index + 1;
    }
    assert minors[..|minors|] == minors;
  }

  /** The inner loop's state: the item's entry holds the minor names `done` with their figures, once there is one. */
  function GroupSoFar(prior: SalesWithItemName, key: string, done: seq<string>, sales: seq<string>, start: nat): SalesWithItemName {
    if done == [] then prior else prior + [Entry(key, Nested(MinorSales(done, sales, start)))]
  }

  /**
   * `h[key] ||= {}`: assigns an empty nested Hash unless `h[key]` holds one
   * (the merge meets each major name once, so a figure is never found there).
   */
  function OrEmpty(h: SalesWithItemName, key: string): (r: SalesWithItemName)
    ensures Lookup(r, key).Some? && Lookup(r, key).value.Nested?
    ensures Lookup(h, key).Some? && Lookup(h, key).value.Nested? ==> r == h
    ensures !(Lookup(h, key).Some? && Lookup(h, key).value.Nested?) ==>
      Keys(r) == AddKey(Keys(h), key) && Lookup(r, key) == Some(Nested([]))
    ensures forall k :: k != key ==> Lookup(r, k) == Lookup(h, k)
  {
    if Lookup(h, key).Some? && Lookup(h, key).value.Nested? then h else Put(h, key, Nested([]))
  }

  /**
   * Minor name `j`: `||=` finds no entry before the first minor name and
   * appends an empty nested Hash, or finds the one there; assigning the
   * figure extends that nested Hash in place.
   */
  lemma AssignMinor(prior: SalesWithItemName, key: string, minors: seq<string>, j: nat, sales: seq<string>, start: nat)
    requires key !in Keys(prior) && Distinct(minors) && j < |minors|
    ensures var h := OrEmpty(GroupSoFar(prior, key, minors[..j], sales, start), key);
      && Lookup(h, key) == Some(Nested(MinorSales(minors[..j], sales, start)))
      && Put(h, key, Nested(Put(MinorSales(minors[..j], sales, start), minors[j], At(sales, start + j))))
        == GroupSoFar(prior, key, minors[..j + 1], sales, start)
  {
    var sofar := MinorSales(minors[..j], sales, start);
    var h := OrEmpty(GroupSoFar(prior, key, minors[..j], sales, start), key);
    if j == 0 {
      PutFresh(prior, key, Nested([]));
      assert sofar == [];
    } else {
      LookupFresh(prior, key, Nested(sofar));
    }
    assert h == prior + [Entry(key, Nested(sofar))];
    LookupFresh(prior, key, Nested(sofar));
    NextMinor(minors, j, sales, start);
    PutLast(prior, key, Nested(sofar), Nested(MinorSales(minors[..j + 1], sales, start)));
  }

  /** What item `i` adds to the merge of the items before it, and that its name is new there. */
  lemma NextItem(names: ItemNames, i: nat, sales: seq<string>)
    requires Distinct(Keys(names)) && i < |names|
    ensures Merge(names[..i + 1], sales) == Merge(names[..i], sales) + MergeItem(names[i], sales, LeafCount(names[..i]))
    ensures LeafCount(names[..i + 1]) == LeafCount(names[..i]) + Width(names[i].value)
    ensures names[i].key !in Keys(Merge(names[..i], sales))
  {
    assert names[..i + 1][..i] == names[..i];
    KeyNewSoFar(names, i);
    KeysPrefix(names, i);
    MergeKeysWithin(names[..i], sales);
  }

  /** What minor name `j` adds to the nested Hash of the minor names before it, and that it is new there. */
  lemma NextMinor(minors: seq<string>, j: nat, sales: seq<string>, start: nat)
    requires Distinct(minors) && j < |minors|
    ensures Put(MinorSales(minors[..j], sales, start), minors[j], At(sales, start + j))
      == MinorSales(minors[..j + 1], sales, start)
  {
    var m := MinorSales(minors[..j], sales, start);
    MinorKeys(minors[..j], sales, start);
    PutFresh(m, minors[j], At(sales, start + j));
    assert m + [Entry(minors[j], At(sales, start + j))] == MinorSales(minors[..j + 1], sales, start);
  }

  /** The merge holds no major name that the item names lack. */
  lemma {:induction false} MergeKeysWithin(names: ItemNames, sales: seq<string>)
    ensures forall k :: k in Keys(Merge(names, sales)) ==> k in Keys(names)
  {
    if names != [] {
      var init, last := names[..|names| - 1], names[|names| - 1];
      var head, item := Merge(init, sales), MergeItem(last, sales, LeafCount(init));
      MergeKeysWithin(init, sales);
      KeysAppend(head, item);
      assert names == init + [last];
      KeysAppend(init, [last]);
      assert Keys(item) == [] || Keys(item) == [last.key];
      forall k | k in Keys(head + item) ensures k in Keys(names) {
        if k in Keys(head) {
          assert k in Keys(init);
        }
      }
    }
  }

  lemma MinorKeys(minors: seq<string>, sales: seq<string>, index: nat)
    ensures Keys(MinorSales(minors, sales, index)) == minors
  {
    var m := MinorSales(minors, sales, index);
    forall k | 0 <= k < |minors| ensures Keys(m)[k] == minors[k] {
      KeysAt(m, k);
    }
  }

  /** The item names without the empty groups, which the merge drops. */
  function NonEmpty(names: ItemNames): ItemNames {
    if names == [] then []
    else
      var last := names[|names| - 1];
      NonEmpty(names[..|names| - 1]) + if last.value == Group([]) then [] else [last]
  }

  /** A merged entry with its figures stripped: a figure becomes nil, a nested Hash its key sequence. */
  function EntryShape(e: Entry<string, Value>): Entry<string, Item> {
    match e.value
    case Scalar(_) => Entry(e.key, Leaf)
    case Nested(m) => Entry(e.key, Group(Keys(m)))
  }

  /** The merged Hash with its sales figures stripped. */
  function ShapeOf(merged: SalesWithItemName): ItemNames {
    if merged == [] then [] else [EntryShape(merged[0])] + ShapeOf(merged[1..])
  }

  lemma {:induction false} ShapeOfAppend(a: SalesWithItemName, b: SalesWithItemName)
    ensures ShapeOf(a + b) == ShapeOf(a) + ShapeOf(b)
  {
    if a == [] {
      assert a + b == b;
    } else {
      assert (a + b)[0] == a[0] && (a + b)[1..] == a[1..] + b;
      ShapeOfAppend(a[1..], b);
    }
  }

  lemma ItemShape(e: Entry<string, Item>, sales: seq<string>, index: nat)
    ensures ShapeOf(MergeItem(e, sales, index)) == if e.value == Group([]) then [] else [e]
  {
    var r := MergeItem(e, sales, index);
    if r != [] {
      assert ShapeOf(r) == [EntryShape(r[0])] + ShapeOf([]);
      if e.value.Group? {
        MinorKeys(e.value.minors, sales, index);
      }
    }
  }

  /**
   * The merge has the shape of the item names, major and minor names in the
   * same order, except that an empty group gives no entry.
   */
  lemma {:induction false} MergeHasTheShapeOfTheItemNames(names: ItemNames, sales: seq<string>)
    ensures ShapeOf(Merge(names, sales)) == NonEmpty(names)
  {
    if names != [] {
      var init, last := names[..|names| - 1], names[|names| - 1];
      MergeHasTheShapeOfTheItemNames(init, sales);
      ShapeOfAppend(Merge(init, sales), MergeItem(last, sales, LeafCount(init)));
      ItemShape(last, sales, LeafCount(init));
    }
  }

  /** Where a leaf sits: under a major name, or under a major and a minor name. */
  datatype Path = Major(major: string) | Minor(major: string, minor: string)

  /** A leaf of the merged Hash with its sales figure. */
  datatype Sale = Sale(path: Path, sale: Option<string>)

  function ItemPaths(e: Entry<string, Item>): (ps: seq<Path>)
    ensures |ps| == Width(e.value)
  {
    match e.value
    case Leaf => [Major(e.key)]
    case Group(minors) => seq(|minors|, j requires 0 <= j < |minors| => Minor(e.key, minors[j]))
  }

  /** The leaves of the item names in depth-first order. */
  function LeafPaths(names: ItemNames): (ps: seq<Path>)
    ensures |ps| == LeafCount(names)
  {
    if names == [] then [] else LeafPaths(names[..|names| - 1]) + ItemPaths(names[|names| - 1])
  }

  function EntrySales(e: Entry<string, Value>): seq<Sale> {
    match e.value
    case Scalar(v) => [Sale(Major(e.key), v)]
    case Nested(m) => seq(|m|, j requires 0 <= j < |m| => Sale(Minor(e.key, m[j].key), m[j].value))
  }

  /** The leaves of a merged Hash with their figures, in depth-first order. */
  function SalesOf(merged: SalesWithItemName): seq<Sale> {
    if merged == [] then [] else EntrySales(merged[0]) + SalesOf(merged[1..])
  }

  /** Leaf paths paired with the sales figures read from `index` on. */
  function Labelled(paths: seq<Path>, sales: seq<string>, index: nat): (r: seq<Sale>)
    ensures |r| == |paths|
    ensures forall k :: 0 <= k < |paths| ==> r[k] == Sale(paths[k], At(sales, index + k))
  {
    seq(|paths|, k requires 0 <= k < |paths| => Sale(paths[k], At(sales, index + k)))
  }

  lemma {:induction false} SalesOfAppend(a: SalesWithItemName, b: SalesWithItemName)
    ensures SalesOf(a + b) == SalesOf(a) + SalesOf(b)
  {
    if a == [] {
      assert a + b == b;
    } else {
      assert (a + b)[1..] == a[1..] + b;
      SalesOfAppend(a[1..], b);
    }
  }

  /** The merge gives the `k`-th leaf in depth-first order the figure at `k`, nil past the list's end. */
  lemma {:induction false} MergeLabelsLeavesInOrder(names: ItemNames, sales: seq<string>)
    ensures SalesOf(Merge(names, sales)) == Labelled(LeafPaths(names), sales, 0)
  {
    if names != [] {
      var init, last := names[..|names| - 1], names[|names| - 1];
      MergeLabelsLeavesInOrder(init, sales);
      SalesOfAppend(Merge(init, sales), MergeItem(last, sales, LeafCount(init)));
      ItemLabels(last, sales, LeafCount(init));
      LabelledAppend(LeafPaths(init), ItemPaths(last), sales, 0);
    }
  }

  lemma ItemLabels(e: Entry<string, Item>, sales: seq<string>, index: nat)
    ensures SalesOf(MergeItem(e, sales, index)) == Labelled(ItemPaths(e), sales, index)
  {
  }

  lemma LabelledAppend(p: seq<Path>, q: seq<Path>, sales: seq<string>, index: nat)
    ensures Labelled(p + q, sales, index) == Labelled(p, sales, index) + Labelled(q, sales, index + |p|)
  {
  }

  /** For a whole list: the `k`-th leaf gets `sales[k]`, or nil when the list is shorter. */
  lemma LeafGetsItsFigure(names: ItemNames, sales: seq<string>, k: nat)
    requires k < LeafCount(names)
    ensures |SalesOf(Merge(names, sales))| == LeafCount(names)
    ensures SalesOf(Merge(names, sales))[k] == Sale(LeafPaths(names)[k], if k < |sales| then Some(sales[k]) else None)
  {
    MergeLabelsLeavesInOrder(names, sales);
  }

  /** Figures past the last leaf are never read. */
  lemma {:induction false} MergeIgnoresExtraSales(names: ItemNames, sales: seq<string>, extra: seq<string>)
    requires LeafCount(names) <= |sales|
    ensures Merge(names, sales + extra) == Merge(names, sales)
  {
    if names != [] {
      var init, last := names[..|names| - 1], names[|names| - 1];
      MergeIgnoresExtraSales(init, sales, extra);
      if last.value.Group? {
        assert MinorSales(last.value.minors, sales + extra, LeafCount(init)) == MinorSales(last.value.minors, sales, LeafCount(init));
      }
    }
  }
}
