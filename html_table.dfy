/**
 * The rows of a rendered HTML table, as the scraper reads them: each `tr`
 * is the sequence of its `td` cells.
 */
module HtmlTable {
  import opened RubyHash

  /** A `td`: its text and, when the attribute is present, its `rowspan` already converted with `to_i`. */
  datatype Cell = Cell(text: string, rowspan: Option<int>)

  type Row = seq<Cell>
}
