/**
 * `get_sales_each_shop`: the shop roster row gives one name per column, and
 * every row of the detail table gives, in column `i`, one sales figure of
 * the shop at roster position `i`. The result maps each shop name to its
 * figures in row order.
 */
module SalesEachShop {
  import opened RubyHash
  import opened HtmlTable

  /** The full-width colon that separates a roster cell's number from the shop name. */
  const Colon: char := '\U{FF1A}'

  /** The text after the first colon. */
  function AfterColon(text: string): (rest: string)
    requires Colon in text
    ensures |rest| < |text|
    ensures text[|text| - |rest| - 1] == Colon
    ensures text[|text| - |rest|..] == rest
    ensures Colon !in text[..|text| - |rest| - 1]
  {
    if text[0] == Colon then text[1..]
    else
      var rest := AfterColon(text[1..]);
      assert text[1..][|text| - 1 - |rest|..] == text[|text| - |rest|..];
      assert text[..|text| - |rest| - 1] == [text[0]] + text[1..][..|text| - 1 - |rest| - 1];
      rest
  }

  /**
   * `text.split('：', 2).last`: the text after the first colon, the whole
   * text when it has none, and nil for the empty text (whose split is `[]`).
   */
  function ShopName(text: string): (name: Option<string>)
    ensures name.None? <==> text == []
    ensures Colon !in text && text != [] ==> name == Some(text)
  {
    if text == [] then None
    else if Colon in text then Some(AfterColon(text))
    else Some(text)
  }

  /** With a colon, the text is a colon-free number, the first colon, and the name. */
  lemma ShopNameSplitsAtFirstColon(text: string)
    requires Colon in text
    ensures ShopName(text).Some?
    ensures var name := ShopName(text).value;
      && |name| < |text|
      && text == text[..|text| - |name| - 1] + [Colon] + name
      && Colon !in text[..|text| - |name| - 1]
  {
  }

  /** Later colons stay in the name: the name is what follows the first one. */
  lemma {:induction false} ShopNameAfterNumber(number: string, name: string)
    requires Colon !in number
    ensures ShopName(number + [Colon] + name) == Some(name)
  {
    var text := number + [Colon] + name;
    assert text[|number|] == Colon;
    ShopNameSplitsAtFirstColon(text);
    var got := ShopName(text).value;
    var p := |text| - |got| - 1;
    assert text[p] == Colon && Colon !in text[..p];
    assert got == text[p + 1..];
    assert text[|number| + 1..] == name;
  }

  /** Every detail row has a cell for every roster position (otherwise `nil.text` raises). */
  predicate Covers(roster: Row, detail: seq<Row>) {
    forall j :: 0 <= j < |detail| ==> |roster| <= |detail[j]|
  }

  /** The names of the roster cells, in roster order. */
  function Names(roster: Row): (names: seq<Option<string>>)
    ensures |names| == |roster|
    ensures forall i :: 0 <= i < |roster| ==> names[i] == ShopName(roster[i].text)
  {
    seq(|roster|, i requires 0 <= i < |roster| => ShopName(roster[i].text))
  }

  /** Column `i` of the detail table, in row order. */
  function Column(detail: seq<Row>, i: nat): (col: seq<string>)
    requires forall j :: 0 <= j < |detail| ==> i < |detail[j]|
    ensures |col| == |detail|
    ensures forall j :: 0 <= j < |detail| ==> col[j] == detail[j][i].text
  {
    seq(|detail|, j requires 0 <= j < |detail| => detail[j][i].text)
  }

  /** The columns of the first `n` roster positions named `name`, concatenated in roster order. */
  function SalesUpTo(roster: Row, detail: seq<Row>, name: Option<string>, n: nat): seq<string>
    requires Covers(roster, detail) && n <= |roster|
  {
    if n == 0 then []
    else SalesUpTo(roster, detail, name, n - 1) + if ShopName(roster[n - 1].text) == name then Column(detail, n - 1) else []
  }

  /** The columns of every roster position named `name`, concatenated in roster order. */
  function ShopSales(roster: Row, detail: seq<Row>, name: Option<string>): seq<string>
    requires Covers(roster, detail)
  {
    SalesUpTo(roster, detail, name, |roster|)
  }

  /** The shop names held after the first `n` roster positions: none for an empty detail table. */
  function KeysUpTo(roster: Row, detail: seq<Row>, n: nat): seq<Option<string>>
    requires n <= |roster|
  {
    if detail == [] then [] else Dedup(Names(roster)[..n])
  }

  method GetSalesEachShop(roster: Row, detail: seq<Row>) returns (shops: Hash<Option<string>, seq<string>>)
    requires Covers(roster, detail)
    ensures Keys(shops) == KeysUpTo(roster, detail, |roster|)
    ensures forall name :: name in Keys(shops) ==> Lookup(shops, name) == Some(ShopSales(roster, detail, name))
  {
    shops := [];
    for i := 0 to |roster|
      invariant Extracted(roster, detail, i, shops)
    {
      var shopName := ShopName(roster[i].text);
      ghost var before := shops;
      ghost var sold := SalesUpTo(roster, detail, shopName, i);
      ghost var column := Column(detail, i);
      SalesSoFar(roster, detail, i, shops);
      for j := 0 to |detail|
        invariant Pushed(before, shopName, sold, column, j, shops)
      {
        PushStep(before, shopName, sold, column, j, shops);
        shops := OrEmptyList(shops, shopName);
        var sales := Lookup(shops, shopName).value;
        var value := detail[j][i].text;
        shops := Put(shops, shopName, sales + [value]);
      }
      ExtendShop(roster, detail, i, before, shops);
    }
  }

  /** The outer loop's invariant: the Hash after the first `n` roster positions. */
  ghost predicate Extracted(roster: Row, detail: seq<Row>, n: nat, shops: Hash<Option<string>, seq<string>>)
    requires Covers(roster, detail) && n <= |roster|
  {
    && Keys(shops) == KeysUpTo(roster, detail, n)
    && forall name :: name in Keys(shops) ==> Lookup(shops, name) == Some(SalesUpTo(roster, detail, name, n))
  }

  /** The inner loop's invariant: the shop's list has grown by the first `j` figures of its column, nothing else changed. */
  ghost predicate Pushed(before: Hash<Option<string>, seq<string>>, shopName: Option<string>, sold: seq<string>,
                         column: seq<string>, j: nat, shops: Hash<Option<string>, seq<string>>)
    requires j <= |column|
  {
    && (j == 0 ==> shops == before)
    && (j > 0 ==> Keys(shops) == AddKey(Keys(before), shopName) && Lookup(shops, shopName) == Some(sold + column[..j]))
    && forall name :: name != shopName ==> Lookup(shops, name) == Lookup(before, name)
  }

  /** Before roster position `i`, its name holds the columns so far, or is absent and has none. */
  lemma SalesSoFar(roster: Row, detail: seq<Row>, i: nat, shops: Hash<Option<string>, seq<string>>)
    requires Covers(roster, detail) && i < |roster| && Extracted(roster, detail, i, shops)
    ensures var name := ShopName(roster[i].text);
      detail != [] ==>
      || Lookup(shops, name) == Some(SalesUpTo(roster, detail, name, i))
      || (Lookup(shops, name).None? && SalesUpTo(roster, detail, name, i) == [])
  {
    var name := ShopName(roster[i].text);
    if name !in Keys(shops) && detail != [] {
      DedupFirstAppearance(Names(roster)[..i]);
      NoSalesWithoutName(roster, detail, name, i);
    }
  }

  /** The inner loop's result is the outer loop's invariant for one more roster position. */
  lemma ExtendShop(roster: Row, detail: seq<Row>, i: nat, before: Hash<Option<string>, seq<string>>,
                   after: Hash<Option<string>, seq<string>>)
    requires Covers(roster, detail) && i < |roster| && Extracted(roster, detail, i, before)
    requires var shopName := ShopName(roster[i].text);
      Pushed(before, shopName, SalesUpTo(roster, detail, shopName, i), Column(detail, i), |detail|, after)
    ensures Extracted(roster, detail, i + 1, after)
  {
    var column := Column(detail, i);
    assert detail != [] ==> column[..|detail|] == column;
    ExtendShopKeys(roster, detail, i, Keys(before), Keys(after));
    ExtendShopSales(roster, detail, i, ShopName(roster[i].text), before, after);
  }

  /** `h[key] ||= []`: assigns an empty list unless `h[key]` holds one. */
  function OrEmptyList(h: Hash<Option<string>, seq<string>>, key: Option<string>): (r: Hash<Option<string>, seq<string>>)
    ensures Lookup(r, key).Some?
    ensures Lookup(h, key).Some? ==> r == h
    ensures Lookup(h, key).None? ==> Lookup(r, key) == Some([]) && Keys(r) == AddKey(Keys(h), key)
    ensures forall k :: k != key ==> Lookup(r, k) == Lookup(h, k)
  {
    if Lookup(h, key).Some? then h else Put(h, key, [])
  }

  /** One pass of the inner loop: the shop's list grows by the figure of row `j`, nothing else changes. */
  lemma PushStep(before: Hash<Option<string>, seq<string>>, shopName: Option<string>, sold: seq<string>,
                 column: seq<string>, j: nat, shops: Hash<Option<string>, seq<string>>)
    requires Lookup(before, shopName) == Some(sold) || (Lookup(before, shopName).None? && sold == [])
    requires j < |column| && Pushed(before, shopName, sold, column, j, shops)
    ensures Lookup(OrEmptyList(shops, shopName), shopName) == Some(sold + column[..j])
    ensures Pushed(before, shopName, sold, column, j + 1, Put(OrEmptyList(shops, shopName), shopName, sold + column[..j] + [column[j]]))
  {
    assert column[..j + 1] == column[..j] + [column[j]];
    assert sold + column[..j] + [column[j]] == sold + column[..j + 1];
    var h := OrEmptyList(shops, shopName);
    if j == 0 {
      assert sold + column[..j] == sold;
      if Lookup(before, shopName).None? {
        assert h == Put(before, shopName, []);
      } else {
        assert shopName in Keys(before) && h == before;
      }
    } else {
      assert h == shops;
    }
    var after := Put(h, shopName, sold + column[..j] + [column[j]]);
    forall name | name != shopName ensures Lookup(after, name) == Lookup(before, name) {
      assert Lookup(h, name) == Lookup(shops, name);
    }
  }

  /** What the inner loop's result means for one more roster position: the keys. */
  lemma ExtendShopKeys(roster: Row, detail: seq<Row>, i: nat, before: seq<Option<string>>, after: seq<Option<string>>)
    requires i < |roster|
    requires before == KeysUpTo(roster, detail, i)
    requires detail == [] ==> after == before
    requires detail != [] ==> after == AddKey(before, ShopName(roster[i].text))
    ensures after == KeysUpTo(roster, detail, i + 1)
  {
    assert Names(roster)[..i + 1][..i] == Names(roster)[..i];
  }

  /** What the inner loop's result means for one more roster position: the sales under each key. */
  lemma ExtendShopSales(roster: Row, detail: seq<Row>, i: nat, shopName: Option<string>,
                        before: Hash<Option<string>, seq<string>>, after: Hash<Option<string>, seq<string>>)
    requires Covers(roster, detail) && i < |roster| && shopName == ShopName(roster[i].text)
    requires forall name :: name in Keys(before) ==> Lookup(before, name) == Some(SalesUpTo(roster, detail, name, i))
    requires detail == [] ==> after == before && Keys(before) == []
    requires detail != [] ==>
      && Keys(after) == AddKey(Keys(before), shopName)
      && Lookup(after, shopName) == Some(SalesUpTo(roster, detail, shopName, i) + Column(detail, i))
    requires forall name :: name != shopName ==> Lookup(after, name) == Lookup(before, name)
    ensures forall name :: name in Keys(after) ==> Lookup(after, name) == Some(SalesUpTo(roster, detail, name, i + 1))
  {
    forall name | name in Keys(after)
      ensures Lookup(after, name) == Some(SalesUpTo(roster, detail, name, i + 1))
    {
      if name != shopName {
        assert name in Keys(before);
        var sold := SalesUpTo(roster, detail, name, i);
        assert SalesUpTo(roster, detail, name, i + 1) == sold + [] == sold;
        assert Lookup(after, name) == Lookup(before, name);
      } else {
        assert detail != [];
        assert SalesUpTo(roster, detail, name, i + 1) == SalesUpTo(roster, detail, name, i) + Column(detail, i);
      }
    }
  }

  /** A name none of the first `n` roster cells carries receives no sales from them. */
  lemma {:induction false} NoSalesWithoutName(roster: Row, detail: seq<Row>, name: Option<string>, n: nat)
    requires Covers(roster, detail) && n <= |roster| && name !in Names(roster)[..n]
    ensures SalesUpTo(roster, detail, name, n) == []
  {
    if n > 0 {
      assert Names(roster)[..n - 1] <= Names(roster)[..n];
      assert Names(roster)[n - 1] in Names(roster)[..n];
      NoSalesWithoutName(roster, detail, name, n - 1);
    }
  }

  /** A shop whose name no other roster cell carries receives exactly its own column. */
  lemma {:induction false} UniqueShopGetsItsColumn(roster: Row, detail: seq<Row>, i: nat, n: nat)
    requires Covers(roster, detail) && i < n <= |roster|
    requires forall k :: 0 <= k < |roster| && k != i ==> Names(roster)[k] != Names(roster)[i]
    ensures SalesUpTo(roster, detail, Names(roster)[i], n) == Column(detail, i)
  {
    if n - 1 == i {
      assert Names(roster)[i] !in Names(roster)[..i];
      NoSalesWithoutName(roster, detail, Names(roster)[i], i);
    } else {
      UniqueShopGetsItsColumn(roster, detail, i, n - 1);
    }
  }
}
