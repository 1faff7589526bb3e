/**
 * `get_all_sales`: inside the page's iframe, gives nil when the sales
 * table is not rendered; otherwise decodes the item names once and merges
 * them with every shop's figures, { shop name => merged Hash }.
 */
module AllSales {
  import opened RubyHash
  import opened HtmlTable
  import opened SalesItemNames
  import opened SalesEachShop
  import opened SalesWithItems

  type AllShopSales = Hash<Option<string>, SalesWithItemName>

  /**
   * `hasTable` is whether `#col_fixed_table` is on the page; `header`,
   * `roster` and `detail` are the rows of the three tables the helpers read.
   */
  method GetAllSales(hasTable: bool, header: seq<Row>, roster: Row, detail: seq<Row>) returns (r: Option<AllShopSales>)
    requires hasTable ==> HeaderRows(header) && Covers(roster, detail)
    ensures r.None? <==> !hasTable
    ensures r.Some? ==> Keys(r.value) == KeysUpTo(roster, detail, |roster|)
    ensures r.Some? ==> forall name :: name in Keys(r.value) ==>
      Lookup(r.value, name) == Some(Merge(Decode(header).names, ShopSales(roster, detail, name)))
  {
    if !hasTable {
      return None;
    }
    var itemNames := GetSalesItemNames(header);
    var shops := GetSalesEachShop(roster, detail);
    assert Distinct(Keys(shops)) by {
      if detail != [] {
        DedupFirstAppearance(Names(roster)[..|roster|]);
      }
    }
    var result: AllShopSales := [];
    for i := 0 to |shops|
      invariant Keys(result) == Keys(shops)[..i]
      invariant forall name :: name in Keys(result) ==>
        Lookup(result, name) == Some(Merge(itemNames, ShopSales(roster, detail, name)))
    {
      var shopName, sales := shops[i].key, shops[i].value;
      LookupAt(shops, i);
      KeyNewSoFar(shops, i);
      KeysAt(shops, i);
      PrefixStep(Keys(shops), i);
      var merged := MakeSalesWithItems(itemNames, sales);
      result := Put(result, shopName, merged);
    }
    assert Keys(shops)[..|shops|] == Keys(shops);
    return Some(result);
  }
}
