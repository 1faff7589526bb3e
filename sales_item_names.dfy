/**
 * `get_sales_item_names`: decodes the sales-analysis header table, whose
 * first column merges cells with `rowspan`, into the ordered two-level Hash
 * of item names { major name => nil, major name => { minor name => nil } }.
 */
module SalesItemNames {
  import opened RubyHash
  import opened HtmlTable

  /**
   * The value under a major item name: `nil`, or a nested Hash whose values
   * are all `nil`, kept here as its key sequence.
   */
  datatype Item = Leaf | Group(minors: seq<string>)

  type ItemNames = Hash<string, Item>

  /** Whether `names[key]` is a nested Hash, hence truthy for `||=`. */
  predicate IsGroup(names: ItemNames, key: string) {
    Lookup(names, key).Some? && Lookup(names, key).value.Group?
  }

  /** The minor names under `key`, none when `names[key]` is nil or absent. */
  function MinorsOf(names: ItemNames, key: string): seq<string> {
    if IsGroup(names, key) then Lookup(names, key).value.minors else []
  }

  /** What a Ruby Hash guarantees at both levels: no key twice. */
  ghost predicate WellFormed(names: ItemNames) {
    Distinct(Keys(names)) && forall key :: Distinct(MinorsOf(names, key))
  }

  /** The loop's state: the Hash so far, `rowspan` (rows the current group still covers) and `key` (the current major name). */
  datatype Decoder = Decoder(names: ItemNames, rowspan: int, key: string)

  const Initial := Decoder([], 0, "")

  /** The cells a row must have: a first `td`, and a second one when the first carries `rowspan`. */
  predicate HeaderRow(row: Row) {
    |row| >= 1 && (row[0].rowspan.Some? ==> |row| >= 2)
  }

  predicate HeaderRows(rows: seq<Row>) {
    forall i :: 0 <= i < |rows| ==> HeaderRow(rows[i])
  }

  /** While a group is open, its major name holds a nested Hash. */
  ghost predicate Consistent(d: Decoder) {
    WellFormed(d.names) && (d.rowspan > 0 ==> IsGroup(d.names, d.key))
  }

  /** One iteration of the loop over the header rows. */
  function Step(d: Decoder, row: Row): (e: Decoder)
    requires Consistent(d) && HeaderRow(row)
    ensures Consistent(e)
    // a `rowspan` attribute, whatever its value, opens a group under the first cell's text
    ensures row[0].rowspan.Some? ==>
      && e.key == row[0].text && e.rowspan == row[0].rowspan.value - 1
      && Keys(e.names) == AddKey(Keys(d.names), e.key)
      && Lookup(e.names, e.key) == Some(Group(AddKey(MinorsOf(d.names, e.key), row[1].text)))
    // inside an open group the first cell is one more minor name
    ensures row[0].rowspan.None? && d.rowspan > 0 ==>
      && e.key == d.key && e.rowspan == d.rowspan - 1
      && Keys(e.names) == Keys(d.names)
      && Lookup(e.names, e.key) == Some(Group(AddKey(MinorsOf(d.names, e.key), row[0].text)))
    // otherwise the first cell is a major name with value nil
    ensures row[0].rowspan.None? && d.rowspan <= 0 ==>
      && e.key == row[0].text && e.rowspan == d.rowspan
      && Keys(e.names) == AddKey(Keys(d.names), e.key)
      && Lookup(e.names, e.key) == Some(Leaf)
    ensures forall k :: k != e.key ==> Lookup(e.names, k) == Lookup(d.names, k)
  {
    var td := row[0];
    if td.rowspan.Some? then
      var key := td.text;
      var names := if IsGroup(d.names, key) then d.names else Put(d.names, key, Group([]));
      assert MinorsOf(names, key) == MinorsOf(d.names, key);
      assert WellFormed(names) by {
        if !IsGroup(d.names, key) {
          PutKeepsWellFormed(d.names, key, Group([]));
        }
      }
      PutKeepsWellFormed(names, key, Group(AddKey(MinorsOf(names, key), row[1].text)));
      Decoder(Put(names, key, Group(AddKey(MinorsOf(names, key), row[1].text))), td.rowspan.value - 1, key)
    else if d.rowspan > 0 then
      PutKeepsWellFormed(d.names, d.key, Group(AddKey(MinorsOf(d.names, d.key), td.text)));
      Decoder(Put(d.names, d.key, Group(AddKey(MinorsOf(d.names, d.key), td.text))), d.rowspan - 1, d.key)
    else
      PutKeepsWellFormed(d.names, td.text, Leaf);
      Decoder(Put(d.names, td.text, Leaf), d.rowspan, td.text)
  }

  lemma PutKeepsWellFormed(names: ItemNames, key: string, item: Item)
    requires WellFormed(names) && (item.Group? ==> Distinct(item.minors))
    ensures WellFormed(Put(names, key, item))
  {
    var after := Put(names, key, item);
    forall k ensures Distinct(MinorsOf(after, k)) {
      if k != key {
        assert MinorsOf(after, k) == MinorsOf(names, k);
      }
    }
  }

  /** The state after the loop has seen `rows`. */
  function Decode(rows: seq<Row>): (d: Decoder)
    requires HeaderRows(rows)
    ensures Consistent(d)
  {
    if rows == [] then Initial
    else
      assert HeaderRows(rows[..|rows| - 1]);
      Step(Decode(rows[..|rows| - 1]), rows[|rows| - 1])
  }

  method GetSalesItemNames(rows: seq<Row>) returns (names: ItemNames)
    requires HeaderRows(rows)
    ensures names == Decode(rows).names
    ensures WellFormed(names)
  {
    names := [];
    var rowspan := 0;
    var key := "";
    for i := 0 to |rows|
      invariant Decoder(names, rowspan, key) == Decode(rows[..i])
    {
      DecodeOneMore(rows, i);
      var td := rows[i][0];
      if td.rowspan.Some? {
        rowspan := td.rowspan.value - 1;
        key := td.text;
        if !IsGroup(names, key) {
          names := Put(names, key, Group([]));
        }
        var smallKey := rows[i][1].text;
        names := Put(names, key, Group(AddKey(MinorsOf(names, key), smallKey)));
      } else if rowspan > 0 {
        rowspan := rowspan - 1;
        names := Put(names, key, Group(AddKey(MinorsOf(names, key), td.text)));
      } else {
        key := td.text;
        names := Put(names, key, Leaf);
      }
    }
    assert rows[..|rows|] == rows;
  }

  lemma DecodeOneMore(rows: seq<Row>, i: nat)
    requires HeaderRows(rows) && i < |rows|
    ensures HeaderRows(rows[..i]) && HeaderRows(rows[..i + 1])
    ensures Decode(rows[..i + 1]) == Step(Decode(rows[..i]), rows[i])
  {
    assert rows[..i + 1][..i] == rows[..i];
  }

  /** The `rowspan` counter alone, computed from the rows' attributes without the Hash. */
  function SpanAfter(rows: seq<Row>): int
    requires HeaderRows(rows)
  {
    if rows == [] then 0
    else
      assert HeaderRows(rows[..|rows| - 1]);
      var before, td := SpanAfter(rows[..|rows| - 1]), rows[|rows| - 1][0];
      if td.rowspan.Some? then td.rowspan.value - 1
      else if before > 0 then before - 1
      else before
  }

  /** The first-cell texts of the rows that do not continue an open group, in row order. */
  function Majors(rows: seq<Row>): seq<string>
    requires HeaderRows(rows)
  {
    if rows == [] then []
    else
      assert HeaderRows(rows[..|rows| - 1]);
      var init, td := rows[..|rows| - 1], rows[|rows| - 1][0];
      Majors(init) + if td.rowspan.None? && SpanAfter(init) > 0 then [] else [td.text]
  }

  /**
   * The major names are the first cells of the rows that open a group or
   * stand alone, each once, in the order of its first such row; the counter
   * depends on the `rowspan` attributes only.
   */
  lemma {:induction false} MajorNamesInFirstAppearanceOrder(rows: seq<Row>)
    requires HeaderRows(rows)
    ensures Keys(Decode(rows).names) == Dedup(Majors(rows))
    ensures Decode(rows).rowspan == SpanAfter(rows)
  {
    if rows != [] {
      var init := rows[..|rows| - 1];
      assert HeaderRows(init);
      MajorNamesInFirstAppearanceOrder(init);
      var td := rows[|rows| - 1][0];
      if td.rowspan.None? && SpanAfter(init) > 0 {
        assert Majors(rows) == Majors(init);
      } else {
        assert Majors(rows) == Majors(init) + [td.text];
        assert Majors(rows)[..|Majors(rows)| - 1] == Majors(init);
      }
    }
  }
}
