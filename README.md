# Sales-analysis table decoding (TakaScraping, `AquaticOrganisms`)

A Dafny model of the scraping core of `lib/tasks/fra_database.rb`: the four
methods of `AquaticOrganisms` that turn the rendered sales-analysis page into
`{ shop name => { item name => figure, item name => { minor item name => figure } } }`.

- `get_sales_item_names` decodes the header table, whose first column merges
  cells with `rowspan`, into an ordered two-level Hash of item names
  (`SalesItemNames`). The loop is `GetSalesItemNames`, proved equal to
  `Decode`, the fold of one loop step `Step` over the rows.
- `get_sales_each_shop` splits every roster cell at its first full-width
  colon `：` and collects, per shop name, column `i` of the detail table
  (`SalesEachShop`). The nested loops are `GetSalesEachShop`, proved against
  `ShopSales` (the concatenated columns of every roster position carrying the
  name) and `KeysUpTo` (the names in first-appearance order).
- `make_sales_with_items` walks the item names with one cursor into a shop's
  flat figures (`SalesWithItems`). The nested loops are `MakeSalesWithItems`
  with its inner loop `MergeGroup`, proved equal to `Merge`, which gives every
  item the figures after the leaves of the items before it.
- `get_all_sales` returns nil without the `#col_fixed_table` element and
  otherwise merges the shared item names with every shop's figures
  (`AllSales.GetAllSales`).

Ruby's Hash is an ordered association sequence (`RubyHash`): assigning an
existing key replaces its value in place, assigning a new key appends it;
`h[k]` is nil for a missing key, and `||=` assigns only over nil or absence.
A `td` is a `Cell` with its text and its `rowspan` attribute, if any, already
converted by `to_i`; a `tr` is a `Row` (`HtmlTable`).

The model keeps these behaviours of the code, some of which are easy to
misread:

- the presence of a `rowspan` attribute opens a group, whatever its value: a
  `rowspan="1"` row is a group with one minor name and a counter of 0, not a
  standalone row;
- a figures list shorter than the leaves gives nil leaves, not an error;
- two roster cells with the same shop name concatenate their columns (the
  `||= []` keeps the first list), rather than the later one replacing the first;
- a group whose nested Hash is empty gives no entry in the merge, because the
  `||= {}` sits inside the loop over its minor names;
- a missing `#col_fixed_table` makes `get_all_sales` return nil, not `{}`;
- an empty detail table gives no shops at all, since `||= []` runs only per row.

## Model

| member | source | states |
|---|---|---|
| RubyHash.Put | lib/tasks/fra_database.rb:83 | `h[k] = v`: the key sequence gains `k` at the end only if it was absent, `k` now maps to `v`, every other key is unchanged |
| RubyHash.Lookup | lib/tasks/fra_database.rb:74 | `h[k]` is present exactly when `k` is among the keys |
| SalesItemNames.Step | lib/tasks/fra_database.rb:69-84 | a row with a `rowspan` attribute (any value) opens or reopens the group of its first cell, sets the counter to rowspan−1 and adds its second cell as a minor name, keeping the group's earlier minor names; while the counter is positive a row adds its first cell as a minor name of the open group and decrements it; otherwise the first cell becomes a major name with value nil, keeping its position if it existed; no other key changes and no key appears twice |
| SalesItemNames.Decode | lib/tasks/fra_database.rb:68-85 | after any header rows the names have no repeated major or minor key, and while the counter is positive the current major name holds a nested Hash |
| SalesItemNames.GetSalesItemNames | lib/tasks/fra_database.rb:63-87 | the loop computes exactly `Decode` of the rows; the result has no repeated key at either level |
| SalesItemNames.MajorNamesInFirstAppearanceOrder | lib/tasks/fra_database.rb:70-83 | the major names are the first cells of the rows that open a group or stand alone, each once, in the order of first appearance; the counter depends only on the `rowspan` attributes |
| SalesEachShop.ShopName | lib/tasks/fra_database.rb:97 | the split gives nil exactly for the empty text, and the whole text when it has no colon |
| SalesEachShop.ShopNameSplitsAtFirstColon | lib/tasks/fra_database.rb:97 | with a colon, the text is a colon-free prefix, the first colon, and the shop name |
| SalesEachShop.ShopNameAfterNumber | lib/tasks/fra_database.rb:96-97 | for a colon-free number, `number：name` gives exactly `name`, later colons included; `1：` gives the empty name |
| SalesEachShop.OrEmptyList | lib/tasks/fra_database.rb:101 | `h[k] ||= []` leaves a present list alone and otherwise appends `k` with an empty list; every other shop keeps its list |
| SalesEachShop.PushStep | lib/tasks/fra_database.rb:100-104 | one detail row appends its figure to the shop's list and changes no other shop |
| SalesEachShop.GetSalesEachShop | lib/tasks/fra_database.rb:91-107 | the shop names are the roster names in first-appearance order (none for an empty detail table), and each maps to the columns of all roster positions carrying it, concatenated in roster order |
| SalesEachShop.UniqueShopGetsItsColumn | lib/tasks/fra_database.rb:95-104 | a shop whose name no other roster cell carries gets exactly its own column, one figure per detail row in row order |
| SalesWithItems.At | lib/tasks/fra_database.rb:121-125 | `sales[index]` (at :121 and :125) is present exactly when `index` is within the list, and is then the figure at `index`: nil past the end |
| SalesWithItems.OrEmpty | lib/tasks/fra_database.rb:120 | `h[k] ||= {}` keeps a nested Hash already under `k`; otherwise `k` (appended if absent) holds an empty nested Hash; every other key is unchanged; afterwards `k` holds a nested Hash |
| SalesWithItems.MergeGroup | lib/tasks/fra_database.rb:119-123 | the inner loop appends the group's entry, each minor name with the figure at the cursor in order, advances the cursor by the number of minor names, and appends nothing for an empty group |
| SalesWithItems.MakeSalesWithItems | lib/tasks/fra_database.rb:113-130 | the loop computes exactly `Merge` of the item names and the figures |
| SalesWithItems.MergeHasTheShapeOfTheItemNames | lib/tasks/fra_database.rb:116-128 | stripped of its figures, the merge is the item names with the same major and minor names in the same order, minus the empty groups |
| SalesWithItems.MergeLabelsLeavesInOrder | lib/tasks/fra_database.rb:115-128 | the `k`-th leaf in depth-first order gets `sales[k]`, nil past the end of the list |
| SalesWithItems.LeafGetsItsFigure | lib/tasks/fra_database.rb:121-126 | the merge has one figure per leaf, and leaf `k` gets `sales[k]` or nil when the list is shorter |
| SalesWithItems.MergeIgnoresExtraSales | lib/tasks/fra_database.rb:115-128 | figures past the number of leaves do not change the merge |
| SalesWithItems.MergeKeysWithin | lib/tasks/fra_database.rb:116-128 | the merge has no major name the item names lack |
| AllSales.GetAllSales | lib/tasks/fra_database.rb:42-59 | nil exactly when the table is absent; otherwise the shops in first-appearance order, each mapped to the merge of the shared decoded item names with its own figures |

## Left out

- Browser lifecycle (`start`, `capybara_init`, `close_browser_session`, lib/tasks/fra_database.rb:10-37 and 133-135): Capybara and Selenium calls into code outside the model.
- DOM access (`within_frame`, `find`, `first`, `find_all`, the CSS selectors): each table becomes its rows as an input, and `has_css?('#col_fixed_table')` becomes the boolean `hasTable`.
- The `target_date` parameter of `get_all_sales`: the method never reads it.
- Rows without the cells the code reads (a `tr` without a `td`, a `rowspan` row without a second cell, a detail row narrower than the roster) make Ruby raise on `nil`; they are preconditions (`HeaderRows`, `Covers`), not modelled exceptions.
- `String#to_i` on the `rowspan` attribute: the attribute arrives already converted, as any integer.
- `SCRAPING_TARGET` (lib/tasks/fra_database.rb:8): an unused constant.
- The migration `db/migrate/20191229082447_create_species_names.rb`: a schema declaration with no logic.
- SalesWithItems.OrEmpty: tests for a nested Hash rather than Ruby truthiness, so a non-nil figure under the key would be replaced; the merge meets each major name once, so the key is always absent or already nested.
- The item names are never mutated by the merge: Dafny values are immutable, so this holds by construction and has no lemma.
- Strings are sequences of characters; the scraped text is taken as given, with no encoding or whitespace handling.
