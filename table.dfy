/**
 * The self-contained logic of the markdown table: the plain text of a cell,
 * the keys of the body rows, ten-row pagination with its guarded page
 * change, the rows handed to the spreadsheet export, and the colour of the
 * status column.
 */
module MarkdownTable {
  import opened Wrappers
  import opened JsString

  // ---------------------------------------------------------------------
  // Cell content and its plain text
  // ---------------------------------------------------------------------

  /** The content of a cell, as far as its plain text depends on it. */
  datatype Node =
    | Text(text: string)           // a string
    | Number(digits: string)       // a number, with the text `toString()` gives it
    | Date(iso: string)            // a Date, with the text `toISOString()` gives it
    | Fragment(items: seq<Node>)   // an array of nodes
    | Element(children: Node)      // an element, with its `props.children`
    | Other(truthy: bool)          // null, undefined, a boolean, or any other value

  /** JavaScript truthiness of a node. */
  predicate Truthy(n: Node) {
    match n
    case Text(t) => t != ""
    case Number(d) => d != "0" && d != "NaN"
    case Other(b) => b
    case _ => true
  }

  /** `getPlainText`: the text of a node, with an element's text that of its truthy children. */
  function PlainText(n: Node): string
    decreases n
  {
    match n
    case Text(t) => t
    case Number(d) => d
    case Date(iso) => iso
    case Fragment(items) => Join(seq(|items|, i requires 0 <= i < |items| => PlainText(items[i])), "")
    case Element(children) => if Truthy(children) then PlainText(children) else ""
    case Other(_) => ""
  }

  /** Joining with "" distributes over concatenation. */
  lemma {:induction false} JoinEmptyAppend(a: seq<string>, b: seq<string>)
    ensures Join(a + b, "") == Join(a, "") + Join(b, "")
    decreases |a|
  {
    if a == [] {
      assert a + b == b;
    } else if |a| == 1 {
      if b != [] {
        assert (a + b)[1..] == b;
      }
    } else {
      assert (a + b)[1..] == a[1..] + b;
      JoinEmptyAppend(a[1..], b);
    }
  }

  /** The plain text of an array of nodes splits at any point of the array. */
  lemma FragmentTextAppend(a: seq<Node>, b: seq<Node>)
    ensures PlainText(Fragment(a + b)) == PlainText(Fragment(a)) + PlainText(Fragment(b))
  {
    var ta := seq(|a|, i requires 0 <= i < |a| => PlainText(a[i]));
    var tb := seq(|b|, i requires 0 <= i < |b| => PlainText(b[i]));
    var tab := seq(|a + b|, i requires 0 <= i < |a + b| => PlainText((a + b)[i]));
    assert tab == ta + tb;
    JoinEmptyAppend(ta, tb);
  }

  /**
   * The plain text of an array is the text of its first node followed by
   * that of the rest: the in-order concatenation of the children's texts.
   */
  lemma FragmentTextCons(head: Node, rest: seq<Node>)
    ensures PlainText(Fragment([head] + rest)) == PlainText(head) + PlainText(Fragment(rest))
  {
    FragmentTextAppend([head], rest);
    assert PlainText(Fragment([head])) == PlainText(head);
  }

  /** An empty array has no text; an element with falsy children has none; nor has any other value. */
  lemma PlainTextEmptyCases(n: Node)
    ensures PlainText(Fragment([])) == ""
    ensures n.Element? && !Truthy(n.children) ==> PlainText(n) == ""
    ensures n.Other? ==> PlainText(n) == ""
  {
  }

  /**
   * Wrapping content in an element keeps its plain text, except for a
   * number whose text is "0" or "NaN": that number is falsy and the
   * element's text is empty.
   */
  lemma ElementTextIsChildrenText(c: Node)
    ensures PlainText(Element(c)) == PlainText(c) <==> !(c.Number? && (c.digits == "0" || c.digits == "NaN"))
  {
  }

  // ---------------------------------------------------------------------
  // Rows and their keys
  // ---------------------------------------------------------------------

  datatype TableRow = TableRow(key: string, cells: seq<Node>)

  datatype TableData = TableData(headers: TableRow, bodyRows: seq<TableRow>)

  /** The key of the body row at `index`. */
  function RowKey(index: nat): string {
    "row-" + NatToString(index)
  }

  /**
   * A body cell is replaced by its children when it is an element with
   * truthy children, and kept as it is otherwise.
   */
  function UnwrapBodyCell(cell: Node): Node {
    if cell.Element? && Truthy(cell.children) then cell.children else cell
  }

  /**
   * A header cell is read the same way, except that reading the children of
   * a cell that is not an element throws (`None`).
   */
  function UnwrapHeaderCell(cell: Node): Option<Node> {
    if !cell.Element? then None
    else if Truthy(cell.children) then Some(cell.children)
    else Some(cell)
  }

  /** Unwrapping a cell never changes its plain text. */
  lemma UnwrapKeepsText(cell: Node)
    ensures PlainText(UnwrapBodyCell(cell)) == PlainText(cell)
    ensures UnwrapHeaderCell(cell).Some? <==> cell.Element?
    ensures UnwrapHeaderCell(cell).Some? ==> PlainText(UnwrapHeaderCell(cell).value) == PlainText(cell)
  {
  }

  /**
   * `parseTableData`, given the rows of the head (none when there is no
   * head) and the cells of each body row (none when there is no body): the
   * header row is the first row of the head, and every body row is keyed by
   * its position. `None` is the exception the header row throws on a cell
   * that is not an element.
   */
  function ParseTableData(headerRows: seq<seq<Node>>, bodyRowCells: seq<seq<Node>>): Option<TableData>
  {
    if |headerRows| > 0 && exists k :: 0 <= k < |headerRows[0]| && !headerRows[0][k].Element? then
      None
    else
      var headerCells := if |headerRows| > 0 then headerRows[0] else [];
      Some(TableData(
        TableRow("headers", seq(|headerCells|, k requires 0 <= k < |headerCells| => UnwrapHeaderCell(headerCells[k]).value)),
        seq(|bodyRowCells|, i requires 0 <= i < |bodyRowCells| =>
          TableRow(RowKey(i), seq(|bodyRowCells[i]|, k requires 0 <= k < |bodyRowCells[i]| => UnwrapBodyCell(bodyRowCells[i][k]))))))
  }

  /** Rows at different positions get different keys. */
  lemma RowKeysDistinct(i: nat, j: nat)
    requires i != j
    ensures RowKey(i) != RowKey(j)
  {
    if RowKey(i) == RowKey(j) {
      assert RowKey(i)[4..] == NatToString(i);
      assert RowKey(j)[4..] == NatToString(j);
      NatToStringInjective(i, j);
    }
  }

  /** Parsing fails exactly when the first head row holds a cell that is not an element. */
  lemma ParseFailsOnlyOnBareHeaderCell(headerRows: seq<seq<Node>>, bodyRowCells: seq<seq<Node>>)
    ensures ParseTableData(headerRows, bodyRowCells).None? <==>
      |headerRows| > 0 && exists k :: 0 <= k < |headerRows[0]| && !headerRows[0][k].Element?
  {
  }

  /**
   * The parsed table keeps one body row per source row, in order and with
   * as many cells; the keys of the body rows are pairwise distinct and
   * differ from the header row's key; and every cell, header or body, has
   * the plain text of the cell it was read from.
   */
  lemma ParsedRowsKeepTexts(headerRows: seq<seq<Node>>, bodyRowCells: seq<seq<Node>>)
    requires ParseTableData(headerRows, bodyRowCells).Some?
    ensures var d := ParseTableData(headerRows, bodyRowCells).value;
      |d.bodyRows| == |bodyRowCells| &&
      (forall i :: 0 <= i < |d.bodyRows| ==>
        d.bodyRows[i].key != d.headers.key && CellTexts(d.bodyRows[i].cells) == CellTexts(bodyRowCells[i])) &&
      (forall i, j :: 0 <= i < j < |d.bodyRows| ==> d.bodyRows[i].key != d.bodyRows[j].key) &&
      CellTexts(d.headers.cells) == (if |headerRows| > 0 then CellTexts(headerRows[0]) else [])
  {
    var d := ParseTableData(headerRows, bodyRowCells).value;
    forall i, j | 0 <= i < j < |d.bodyRows| ensures d.bodyRows[i].key != d.bodyRows[j].key {
      RowKeysDistinct(i, j);
    }
    forall i | 0 <= i < |d.bodyRows|
      ensures d.bodyRows[i].key != d.headers.key
      ensures CellTexts(d.bodyRows[i].cells) == CellTexts(bodyRowCells[i])
    {
      assert d.bodyRows[i].key[0] == 'r';
      forall k | 0 <= k < |bodyRowCells[i]| ensures PlainText(d.bodyRows[i].cells[k]) == PlainText(bodyRowCells[i][k]) {
        UnwrapKeepsText(bodyRowCells[i][k]);
      }
    }
    if |headerRows| > 0 {
      forall k | 0 <= k < |headerRows[0]| ensures PlainText(d.headers.cells[k]) == PlainText(headerRows[0][k]) {
        UnwrapKeepsText(headerRows[0][k]);
      }
    }
  }

  // ---------------------------------------------------------------------
  // Pagination
  // ---------------------------------------------------------------------

  const RowsPerPage := 10

  /** `Math.ceil(n / rowsPerPage)`. */
  function TotalPages(n: nat): (r: nat)
    ensures r * RowsPerPage >= n
    ensures r > 0 ==> (r - 1) * RowsPerPage < n
    ensures r == 0 <==> n == 0
  {
    (n + RowsPerPage - 1) / RowsPerPage
  }

  /** `bodyRows.slice(start, start + rowsPerPage)` with `start = (page - 1) * rowsPerPage`. */
  function DisplayedRows<T>(rows: seq<T>, page: int): (r: seq<T>)
    requires page >= 1
    ensures |r| <= RowsPerPage
    ensures r == rows[Min((page - 1) * RowsPerPage, |rows|)..Min(page * RowsPerPage, |rows|)]
    ensures r != [] <==> page <= TotalPages(|rows|)
  {
    var start := (page - 1) * RowsPerPage;
    if start >= |rows| then [] else rows[start..Min(start + RowsPerPage, |rows|)]
  }

  /** The rows of pages 1 to `k`, one page after another. */
  function PagesUpTo<T>(rows: seq<T>, k: nat): seq<T>
    decreases k
  {
    if k == 0 then [] else PagesUpTo(rows, k - 1) + DisplayedRows(rows, k)
  }

  /** Pages 1 to `k` hold the first `k` pages' worth of rows. */
  lemma {:induction false} PagesUpToIsPrefix<T>(rows: seq<T>, k: nat)
    ensures PagesUpTo(rows, k) == rows[..Min(k * RowsPerPage, |rows|)]
    decreases k
  {
    if k > 0 {
      PagesUpToIsPrefix(rows, k - 1);
      var a := Min((k - 1) * RowsPerPage, |rows|);
      var b := Min(k * RowsPerPage, |rows|);
      assert rows[..a] + rows[a..b] == rows[..b];
    }
  }

  /** Reading every page in order gives back exactly the body rows. */
  lemma AllPagesAreTheRows<T>(rows: seq<T>)
    ensures PagesUpTo(rows, TotalPages(|rows|)) == rows
  {
    PagesUpToIsPrefix(rows, TotalPages(|rows|));
    assert rows[..|rows|] == rows;
  }

  /** `handlePageChange` accepts a page between 1 and the number of pages. */
  predicate AcceptsPage(newPage: int, totalPages: nat) {
    1 <= newPage <= totalPages
  }

  /** The pager is shown only for more than one page. */
  predicate PagerShown(totalPages: nat) {
    totalPages > 1
  }

  predicate PreviousDisabled(currentPage: int) {
    currentPage == 1
  }

  predicate NextDisabled(currentPage: int, totalPages: nat) {
    currentPage == totalPages
  }

  /** The pager appears exactly when the rows do not fit on one page. */
  lemma PagerShownIffRowsOverflow(n: nat)
    ensures PagerShown(TotalPages(n)) <==> n > RowsPerPage
  {
    var r := TotalPages(n);
    if r > 1 {
      assert (r - 1) * RowsPerPage >= RowsPerPage;
    } else if r == 1 {
      assert n <= RowsPerPage;
    }
  }

  /**
   * On a page that exists, each button is enabled exactly when the page
   * change it asks for is accepted.
   */
  lemma ButtonsMatchGuard(currentPage: int, totalPages: nat)
    requires 1 <= currentPage <= totalPages
    ensures !PreviousDisabled(currentPage) <==> AcceptsPage(currentPage - 1, totalPages)
    ensures !NextDisabled(currentPage, totalPages) <==> AcceptsPage(currentPage + 1, totalPages)
  {
  }

  /**
   * When the table shrinks to two or more pages before the current one,
   * both buttons are enabled but neither is accepted, and the page shows no
   * rows.
   */
  lemma StalePageIsStuck<T>(rows: seq<T>, currentPage: int)
    requires currentPage > TotalPages(|rows|) + 1
    ensures !PreviousDisabled(currentPage) && !NextDisabled(currentPage, TotalPages(|rows|))
    ensures !AcceptsPage(currentPage - 1, TotalPages(|rows|)) && !AcceptsPage(currentPage + 1, TotalPages(|rows|))
    ensures DisplayedRows(rows, currentPage) == []
  {
  }

  /** The table's current page, the one piece of state it keeps. */
  class Pager {
    var currentPage: int

    predicate Valid()
      reads this
    {
      currentPage >= 1
    }

    constructor ()
      ensures currentPage == 1 && Valid()
    {
      currentPage := 1;
    }

    /** The rows shown on the current page. */
    function Displayed<T>(rows: seq<T>): (r: seq<T>)
      reads this
      requires Valid()
      ensures |r| <= RowsPerPage
    {
      DisplayedRows(rows, currentPage)
    }

    /** `handlePageChange`: move to `newPage` if it is a page of the table, else stay. */
    method HandlePageChange(newPage: int, totalPages: nat)
      requires Valid()
      modifies this
      ensures currentPage == if AcceptsPage(newPage, totalPages) then newPage else old(currentPage)
      ensures Valid()
    {
      if newPage >= 1 && newPage <= totalPages {
        currentPage := newPage;
      }
    }

    /** The "previous page" button's click. */
    method PreviousPage(totalPages: nat)
      requires Valid()
      modifies this
      ensures currentPage == if AcceptsPage(old(currentPage) - 1, totalPages) then old(currentPage) - 1 else old(currentPage)
      ensures Valid()
    {
      HandlePageChange(currentPage - 1, totalPages);
    }

    /** The "next page" button's click. */
    method NextPage(totalPages: nat)
      requires Valid()
      modifies this
      ensures currentPage == if AcceptsPage(old(currentPage) + 1, totalPages) then old(currentPage) + 1 else old(currentPage)
      ensures Valid()
    {
      HandlePageChange(currentPage + 1, totalPages);
    }
  }

  // ---------------------------------------------------------------------
  // Export rows
  // ---------------------------------------------------------------------

  /** The width given to every exported column, in characters. */
  const ExportColumnWidth := 20

  datatype ColumnWidth = ColumnWidth(wch: nat)

  /** The plain texts of a row's cells, in order. */
  function CellTexts(cells: seq<Node>): (r: seq<string>)
    ensures |r| == |cells|
    ensures forall i :: 0 <= i < |cells| ==> r[i] == PlainText(cells[i])
  {
    seq(|cells|, i requires 0 <= i < |cells| => PlainText(cells[i]))
  }

  /**
   * `handleExport` up to the spreadsheet library: the header texts, then
   * the texts of each body row in order, and one column width per header.
   */
  method ExportRows(data: TableData) returns (allData: seq<seq<string>>, colWidths: seq<ColumnWidth>)
    ensures |allData| == 1 + |data.bodyRows|
    ensures allData[0] == CellTexts(data.headers.cells)
    ensures forall i :: 0 <= i < |data.bodyRows| ==> allData[i + 1] == CellTexts(data.bodyRows[i].cells)
    ensures |colWidths| == |data.headers.cells|
    ensures forall k :: 0 <= k < |colWidths| ==> colWidths[k] == ColumnWidth(ExportColumnWidth)
  {
    allData := [];
    var headersPlain := CellTexts(data.headers.cells);
    allData := allData + [headersPlain];

    var i := 0;
    while i < |data.bodyRows|
      invariant 0 <= i <= |data.bodyRows|
      invariant |allData| == 1 + i && allData[0] == headersPlain
      invariant forall j :: 0 <= j < i ==> allData[j + 1] == CellTexts(data.bodyRows[j].cells)
    {
      var rowData := CellTexts(data.bodyRows[i].cells);
      allData := allData + [rowData];
      i := i + 1;
    }

    colWidths := seq(|allData[0]|, _ => ColumnWidth(ExportColumnWidth));
  }

  // ---------------------------------------------------------------------
  // Status column
  // ---------------------------------------------------------------------

  /** The column whose cells are coloured by status. */
  const StatusColumn := 3

  const Completed := "已完成"
  const Paused := "已暂停"
  const InProgress := "进行中"

  /** The colour class of the cell at column `index` with plain text `text`. */
  function StatusClass(index: nat, text: string): string
  {
    if index == StatusColumn then
      if text == Completed then "text-green-600"
      else if text == Paused then "text-yellow-600"
      else if text == InProgress then "text-blue-600"
      else "text-gray-400"
    else ""
  }

  /**
   * Only the status column gets a class; there, each of the three statuses
   * has its own colour and every other text is grey.
   */
  lemma StatusClassSpec(index: nat, text: string)
    ensures StatusClass(index, text) != "" <==> index == StatusColumn
    ensures index == StatusColumn ==>
      (StatusClass(index, text) == "text-green-600" <==> text == Completed) &&
      (StatusClass(index, text) == "text-yellow-600" <==> text == Paused) &&
      (StatusClass(index, text) == "text-blue-600" <==> text == InProgress) &&
      (StatusClass(index, text) == "text-gray-400" <==> text !in {Completed, Paused, InProgress})
  {
  }
}
