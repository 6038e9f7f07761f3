/** The row extractor: turns the cells of the line-items table into invoice items. `Step` and
    `RunCells` specify the loop cell by cell; `ProcessTable` is the loop itself. */
module RowExtractor {
  import opened Wrappers
  import opened Blocks
  import Text
  import Numbers
  import CellText
  import Seqs

  /** One line item. All three numbers are doubles in the record: the quantity is the 32-bit
      integer read from column 4, widened; unit price and total are exact decimals standing in
      for Java doubles. */
  datatype InvoiceItem = InvoiceItem(
    code: Option<string>,
    description: Option<string>,
    quantity: real,
    unitPrice: real,
    total: real)

  /** Why an extraction aborts. Each is an exception in the handler, caught at its top level. */
  datatype ExtractionError =
    | NullRelationships              // the table's relationship list is null
    | UnresolvedChild(id: string)    // a child id of the table names no block
    | MalformedNumber(text: string)  // a NumberFormatException; `text` is what the parser got

  /** The loop's state: the skip-row sentinel, the five accumulators and the items so far. */
  datatype Extraction = Extraction(
    skipRow: int,
    code: Option<string>,
    description: Option<string>,
    quantity: int,
    unitPrice: real,
    total: real,
    items: seq<InvoiceItem>)

  /** No row skipped yet (sentinel -1), no code or description, zero numbers, no items. */
  const Initial := Extraction(-1, None, None, 0, 0.0, 0.0, [])

  /** The item the accumulators currently describe. */
  function ItemOf(st: Extraction): InvoiceItem {
    InvoiceItem(st.code, st.description, st.quantity as real, st.unitPrice, st.total)
  }

  /** A cell is looked at only when it has both indices, is not in the header row 1 and is not
      in the row the sentinel names. */
  predicate Processed(cell: Block, skipRow: int) {
    && cell.rowIndex.Some? && cell.rowIndex.value != 1 && cell.rowIndex.value != skipRow
    && cell.columnIndex.Some?
  }

  /** One iteration of the loop over the table's cells; `content` is the cell's text. */
  function Step(st: Extraction, cell: Block, content: string): (r: Result<Extraction, ExtractionError>)
    ensures !Processed(cell, st.skipRow) ==> r == Ok(st)
    ensures r.Ok? ==> st.items <= r.value.items
    ensures r.Ok? ==> |r.value.items| <= |st.items| + (if MayCommit(cell, content) then 1 else 0)
  {
    if !Processed(cell, st.skipRow) then Ok(st)
    else
      var row := cell.rowIndex.value;
      var column := cell.columnIndex.value;
      if column == 1 then
        if content == "" then Ok(st.(skipRow := row)) else Ok(st.(code := Some(content)))
      else if column == 2 then
        Ok(st.(description := Some(content)))
      else if column == 4 && content != "" then
        match Numbers.ParseInt(content)
        case Ok(q) => Ok(st.(quantity := q))
        case Err(e) => Err(MalformedNumber(e.input))
      else if column == 6 && content != "" then
        match Numbers.ParseDecimal(Text.StripCommas(content))
        case Ok(p) => Ok(st.(unitPrice := p))
        case Err(e) => Err(MalformedNumber(e.input))
      else if column == 7 && content != "" then
        match Numbers.ParseDecimal(Text.StripCommas(content))
        case Ok(t) =>
          var totalled := st.(total := t);
          Ok(totalled.(items := st.items + [ItemOf(totalled)], skipRow := row))
        case Err(e) => Err(MalformedNumber(e.input))
      else
        Ok(st)
  }

  /** What one cell can change: each accumulator only through its own column, the sentinel only
      through columns 1 and 7 (and then to the cell's row), the output only through column 7, by
      exactly one item built from the accumulators; the code and description once set stay set;
      only columns 4, 6 and 7 can abort. */
  lemma StepFrame(st: Extraction, cell: Block, content: string)
    ensures var r := Step(st, cell, content);
      && (r.Err? ==> Processed(cell, st.skipRow) && cell.columnIndex.value in {4, 6, 7})
      && (r.Ok? && |r.value.items| > |st.items| ==>
            && MayCommit(cell, content)
            && r.value.items == st.items + [ItemOf(r.value)]
            && cell.rowIndex == Some(r.value.skipRow))
      && (r.Ok? && r.value.skipRow != st.skipRow ==>
            cell.rowIndex == Some(r.value.skipRow) && cell.columnIndex.value in {1, 7})
      && (r.Ok? && r.value.code != st.code ==> cell.columnIndex == Some(1) && r.value.code.Some?)
      && (r.Ok? && r.value.description != st.description ==>
            cell.columnIndex == Some(2) && r.value.description.Some?)
      && (r.Ok? && r.value.quantity != st.quantity ==> cell.columnIndex == Some(4))
      && (r.Ok? && r.value.unitPrice != st.unitPrice ==> cell.columnIndex == Some(6))
      && (r.Ok? && r.value.total != st.total ==> cell.columnIndex == Some(7))
  {
  }

  /** A cell that can commit an item: a column-7 cell outside the header row with some text. */
  predicate MayCommit(cell: Block, content: string) {
    cell.columnIndex == Some(7) && cell.rowIndex.Some? && cell.rowIndex.value != 1 && content != ""
  }

  /** The text of each cell, as `getCellContent` reads it from the blocks. */
  function Texts(cells: seq<Block>, blocks: seq<Block>): (ts: seq<string>)
    ensures |ts| == |cells|
    ensures forall i :: 0 <= i < |cells| ==> ts[i] == CellText.GetCellContent(cells[i], blocks)
  {
    if cells == [] then [] else [CellText.GetCellContent(cells[0], blocks)] + Texts(cells[1..], blocks)
  }

  function CountMayCommit(cells: seq<Block>, texts: seq<string>): (n: nat)
    requires |texts| == |cells|
    ensures n <= |cells|
  {
    if cells == [] then 0
    else (if MayCommit(cells[0], texts[0]) then 1 else 0) + CountMayCommit(cells[1..], texts[1..])
  }

  /** The loop run over `cells`, whose texts are `texts`, from state `st`; the first failing
      cell aborts the whole run. Items are only ever appended, at most one per cell that may
      commit. */
  function RunCells(st: Extraction, cells: seq<Block>, texts: seq<string>): (r: Result<Extraction, ExtractionError>)
    requires |texts| == |cells|
    ensures r.Ok? ==> st.items <= r.value.items
    ensures r.Ok? ==> |r.value.items| <= |st.items| + CountMayCommit(cells, texts)
    decreases |cells|
  {
    if cells == [] then Ok(st)
    else
      match Step(st, cells[0], texts[0])
      case Err(e) => Err(e)
      case Ok(next) => RunCells(next, cells[1..], texts[1..])
  }

  /** Running over `xs + ys` is running over `xs`, then over `ys` from where that left off;
      a failure in `xs` aborts the rest. */
  lemma {:induction false} RunCellsAppend(st: Extraction, xs: seq<Block>, ys: seq<Block>,
                                          xts: seq<string>, yts: seq<string>)
    requires |xts| == |xs| && |yts| == |ys|
    ensures RunCells(st, xs + ys, xts + yts) ==
      match RunCells(st, xs, xts)
      case Ok(mid) => RunCells(mid, ys, yts)
      case Err(e) => Err(e)
    decreases |xs|
  {
    if xs == [] {
      assert xs + ys == ys && xts + yts == yts;
    } else {
      assert (xs + ys)[0] == xs[0] && (xs + ys)[1..] == xs[1..] + ys;
      assert (xts + yts)[0] == xts[0] && (xts + yts)[1..] == xts[1..] + yts;
      var step := Step(st, xs[0], xts[0]);
      if step.Ok? {
        RunCellsAppend(step.value, xs[1..], ys, xts[1..], yts);
      }
    }
  }

  /** Cells that are not processed (header row, missing index, or the skipped row) change
      neither the sentinel, nor the accumulators, nor the output. */
  lemma {:induction false} UnprocessedCellsInert(st: Extraction, cells: seq<Block>, texts: seq<string>)
    requires |texts| == |cells|
    requires forall i :: 0 <= i < |cells| ==> !Processed(cells[i], st.skipRow)
    ensures RunCells(st, cells, texts) == Ok(st)
  {
    if cells != [] {
      assert !Processed(cells[0], st.skipRow);
      assert forall i :: 0 <= i < |cells[1..]| ==> cells[1..][i] == cells[i + 1];
      UnprocessedCellsInert(st, cells[1..], texts[1..]);
    }
  }

  /** A row whose code cell is empty is void: that cell only sets the sentinel to its row, and
      every following cell of the same row is then skipped. */
  lemma VoidRow(st: Extraction, cells: seq<Block>, texts: seq<string>)
    requires |texts| == |cells| && cells != []
    requires Processed(cells[0], st.skipRow) && cells[0].columnIndex == Some(1) && texts[0] == ""
    requires forall i :: 0 <= i < |cells| ==> cells[i].rowIndex == cells[0].rowIndex
    ensures RunCells(st, cells, texts) == Ok(st.(skipRow := cells[0].rowIndex.value))
  {
    var next := st.(skipRow := cells[0].rowIndex.value);
    assert Step(st, cells[0], texts[0]) == Ok(next);
    assert forall i :: 0 <= i < |cells[1..]| ==> cells[1..][i] == cells[i + 1];
    UnprocessedCellsInert(next, cells[1..], texts[1..]);
  }

  /** The cells of one row, in column order 1, 2, 4, 6, 7. */
  predicate IsRowOf(cells: seq<Block>, row: int) {
    && |cells| == 5
    && cells[0].columnIndex == Some(1) && cells[1].columnIndex == Some(2)
    && cells[2].columnIndex == Some(4) && cells[3].columnIndex == Some(6)
    && cells[4].columnIndex == Some(7)
    && forall i :: 0 <= i < 5 ==> cells[i].rowIndex == Some(row)
  }

  /** A run whose every step succeeds threads the state from each cell to the next. */
  lemma {:induction false} RunCellsSteps(states: seq<Extraction>, cells: seq<Block>, texts: seq<string>)
    requires |texts| == |cells| && |states| == |cells| + 1
    requires forall i :: 0 <= i < |cells| ==> Step(states[i], cells[i], texts[i]) == Ok(states[i + 1])
    ensures RunCells(states[0], cells, texts) == Ok(states[|cells|])
    decreases |cells|
  {
    if cells != [] {
      assert Step(states[0], cells[0], texts[0]) == Ok(states[1]);
      assert forall i :: 0 <= i < |cells| - 1 ==>
        cells[1..][i] == cells[i + 1] && texts[1..][i] == texts[i + 1] && states[1..][i] == states[i + 1];
      RunCellsSteps(states[1..], cells[1..], texts[1..]);
    }
  }

  /** A processed column-1 cell with text sets the code and nothing else. */
  lemma CodeCell(st: Extraction, cell: Block, content: string)
    requires Processed(cell, st.skipRow) && cell.columnIndex == Some(1) && content != ""
    ensures Step(st, cell, content) == Ok(st.(code := Some(content)))
  {
  }

  /** A processed column-2 cell sets the description, even to "", and nothing else. */
  lemma DescriptionCell(st: Extraction, cell: Block, content: string)
    requires Processed(cell, st.skipRow) && cell.columnIndex == Some(2)
    ensures Step(st, cell, content) == Ok(st.(description := Some(content)))
  {
  }

  /** A processed column-4 cell whose text reads as the integer `q` sets the quantity to `q`
      and nothing else. */
  lemma QuantityCell(st: Extraction, cell: Block, content: string, q: int)
    requires Processed(cell, st.skipRow) && cell.columnIndex == Some(4) && content != ""
    requires Numbers.ParseInt(content) == Ok(q)
    ensures Step(st, cell, content) == Ok(st.(quantity := q))
  {
  }

  /** A processed column-6 cell whose text, with the commas removed, reads as `p` sets the
      unit price to `p` and nothing else. */
  lemma UnitPriceCell(st: Extraction, cell: Block, content: string, p: real)
    requires Processed(cell, st.skipRow) && cell.columnIndex == Some(6) && content != ""
    requires Numbers.ParseDecimal(Text.StripCommas(content)) == Ok(p)
    ensures Step(st, cell, content) == Ok(st.(unitPrice := p))
  {
  }

  /** A processed column-7 cell whose text, with the commas removed, reads as `t` sets the
      total to `t`, appends the item the accumulators now describe and sets the sentinel to the
      cell's row. */
  lemma TotalCell(st: Extraction, cell: Block, content: string, t: real)
    requires Processed(cell, st.skipRow) && cell.columnIndex == Some(7) && content != ""
    requires Numbers.ParseDecimal(Text.StripCommas(content)) == Ok(t)
    ensures Step(st, cell, content) ==
      Ok(st.(total := t, skipRow := cell.rowIndex.value,
             items := st.items + [InvoiceItem(st.code, st.description, st.quantity as real, st.unitPrice, t)]))
  {
  }

  /** A processed column-4 cell whose text is not a 32-bit integer aborts the extraction. */
  lemma MalformedQuantity(st: Extraction, cell: Block, content: string)
    requires Processed(cell, st.skipRow) && cell.columnIndex == Some(4) && content != ""
    requires Numbers.ParseInt(content).Err?
    ensures Step(st, cell, content) == Err(MalformedNumber(content))
  {
  }

  /** A processed column-6 or column-7 cell whose text, with the commas removed, is not a
      number aborts the extraction with the stripped text. */
  lemma MalformedPrice(st: Extraction, cell: Block, content: string)
    requires Processed(cell, st.skipRow) && (cell.columnIndex == Some(6) || cell.columnIndex == Some(7))
    requires content != "" && Numbers.ParseDecimal(Text.StripCommas(content)).Err?
    ensures Step(st, cell, content) == Err(MalformedNumber(Text.StripCommas(content)))
  {
  }

  /** A processed column-4, 6 or 7 cell with no text is passed over: nothing is parsed, no item
      is committed and the sentinel stays. */
  lemma EmptyNumberCell(st: Extraction, cell: Block)
    requires Processed(cell, st.skipRow) && cell.columnIndex.Some? && cell.columnIndex.value in {4, 6, 7}
    ensures Step(st, cell, "") == Ok(st)
  {
  }

  /** A cell in any column other than 1, 2, 4, 6 and 7 changes nothing. */
  lemma UnusedColumnCell(st: Extraction, cell: Block, content: string)
    requires cell.columnIndex.Some? && cell.columnIndex.value !in {1, 2, 4, 6, 7}
    ensures Step(st, cell, content) == Ok(st)
  {
  }

  /** A complete row with a code, a description, a quantity, a unit price and a total commits
      exactly one item holding those five values, and marks its row as done. */
  lemma CompleteRow(st: Extraction, cells: seq<Block>, texts: seq<string>, row: int,
                    quantity: int, unitPrice: real, total: real)
    requires |texts| == |cells| && IsRowOf(cells, row) && row != 1 && row != st.skipRow
    requires texts[0] != "" && texts[2] != "" && texts[3] != "" && texts[4] != ""
    requires Numbers.ParseInt(texts[2]) == Ok(quantity)
    requires Numbers.ParseDecimal(Text.StripCommas(texts[3])) == Ok(unitPrice)
    requires Numbers.ParseDecimal(Text.StripCommas(texts[4])) == Ok(total)
    ensures RunCells(st, cells, texts) ==
      Ok(Extraction(row, Some(texts[0]), Some(texts[1]), quantity, unitPrice, total,
                    st.items + [InvoiceItem(Some(texts[0]), Some(texts[1]), quantity as real, unitPrice, total)]))
  {
    var s1 := st.(code := Some(texts[0]));
    var s2 := s1.(description := Some(texts[1]));
    var s3 := s2.(quantity := quantity);
    var s4 := s3.(unitPrice := unitPrice);
    var s5 := s4.(total := total, skipRow := row, items := st.items + [ItemOf(s4.(total := total))]);
    CodeCell(st, cells[0], texts[0]);
    DescriptionCell(s1, cells[1], texts[1]);
    QuantityCell(s2, cells[2], texts[2], quantity);
    UnitPriceCell(s3, cells[3], texts[3], unitPrice);
    TotalCell(s4, cells[4], texts[4], total);
    RunCellsCons(s4, cells[4..], texts[4..], s5);
    RunCellsCons(s3, cells[3..], texts[3..], s4);
    RunCellsCons(s2, cells[2..], texts[2..], s3);
    RunCellsCons(s1, cells[1..], texts[1..], s2);
    RunCellsCons(st, cells, texts, s1);
  }

  /** A run is its first step followed by the run over the remaining cells. */
  lemma RunCellsCons(st: Extraction, cells: seq<Block>, texts: seq<string>, next: Extraction)
    requires |texts| == |cells| && cells != [] && Step(st, cells[0], texts[0]) == Ok(next)
    ensures RunCells(st, cells, texts) == RunCells(next, cells[1..], texts[1..])
  {
  }

  /** Resolves every id to its block; the first id that names no block is the error. */
  function ResolveAll(ids: seq<string>, blocks: seq<Block>): (r: Result<seq<Block>, string>)
    ensures r.Ok? <==> forall i :: 0 <= i < |ids| ==> FindBlockById(blocks, ids[i]).Some?
    ensures r.Ok? ==> (|r.value| == |ids| &&
      forall i :: 0 <= i < |ids| ==> FindBlockById(blocks, ids[i]) == Some(r.value[i]))
    ensures r.Err? ==> r.error in ids && FindBlockById(blocks, r.error).None?
  {
    if ids == [] then Ok([])
    else
      match FindBlockById(blocks, ids[0])
      case None => Err(ids[0])
      case Some(b) =>
        var rest := ResolveAll(ids[1..], blocks);
        assert forall i :: 1 <= i < |ids| ==> ids[i] == ids[1..][i - 1];
        match rest
        case Err(id) => Err(id)
        case Ok(bs) => Ok([b] + bs)
  }

  predicate IsCell(b: Block) {
    b.blockType == Cell
  }

  /** The table's cells: the CELL blocks its CHILD ids resolve to, in relationship and id order.
      A null relationship list, or a child id naming no block, is an error. */
  function TableCells(table: Block, blocks: seq<Block>): (r: Result<seq<Block>, ExtractionError>)
    ensures table.relationships.None? ==> r == Err(NullRelationships)
    ensures r.Ok? <==> (table.relationships.Some? &&
      forall id :: id in ChildIds(table.relationships.value) ==> FindBlockById(blocks, id).Some?)
    ensures r.Ok? ==> forall c :: c in r.value ==> c.blockType == Cell && c in blocks
    ensures r.Ok? ==> exists bs: seq<Block> ::
      var ids := ChildIds(table.relationships.value);
      && |bs| == |ids|
      && (forall i :: 0 <= i < |ids| ==> FindBlockById(blocks, ids[i]) == Some(bs[i]))
      && r.value == Seqs.Filter(bs, IsCell)
  {
    if table.relationships.None? then Err(NullRelationships)
    else
      match ResolveAll(ChildIds(table.relationships.value), blocks)
      case Err(id) => Err(UnresolvedChild(id))
      case Ok(bs) =>
        Seqs.FilterMembers(bs, IsCell);
        Ok(Seqs.Filter(bs, IsCell))
  }

  /** No CELL child is lost: every child id that resolves to a CELL contributes that cell; and
      a failure names a child id that resolves to nothing. */
  lemma TableCellsComplete(table: Block, blocks: seq<Block>)
    requires table.relationships.Some?
    ensures var r := TableCells(table, blocks);
      r.Ok? ==> forall id :: (id in ChildIds(table.relationships.value) &&
        FindBlockById(blocks, id).Some? && FindBlockById(blocks, id).value.blockType == Cell) ==>
        FindBlockById(blocks, id).value in r.value
    ensures var r := TableCells(table, blocks);
      r.Err? ==> exists id :: (id in ChildIds(table.relationships.value) && r == Err(UnresolvedChild(id)) &&
                               FindBlockById(blocks, id).None?)
    ensures var r := TableCells(table, blocks);
      r.Ok? ==> forall c :: c in r.value ==>
        exists id :: id in ChildIds(table.relationships.value) && FindBlockById(blocks, id) == Some(c)
  {
    var ids := ChildIds(table.relationships.value);
    match ResolveAll(ids, blocks)
    case Err(id) =>
    case Ok(bs) =>
      Seqs.FilterMembers(bs, IsCell);
      forall id | id in ids && FindBlockById(blocks, id).Some? ensures FindBlockById(blocks, id).value in bs {
        var i :| 0 <= i < |ids| && ids[i] == id;
        assert FindBlockById(blocks, ids[i]) == Some(bs[i]);
      }
      forall c | c in bs ensures exists id :: id in ids && FindBlockById(blocks, id) == Some(c) {
        var i :| 0 <= i < |bs| && bs[i] == c;
        assert ids[i] in ids && FindBlockById(blocks, ids[i]) == Some(c);
      }
  }

  /** A header row followed by the row A1 / Widget / 3 / 10.50 / 31.50 yields exactly one item
      with those values. */
  lemma InvoiceRowExample(header: seq<Block>, headerTexts: seq<string>, cells: seq<Block>, texts: seq<string>)
    requires |headerTexts| == |header| && forall i :: 0 <= i < |header| ==> header[i].rowIndex == Some(1)
    requires IsRowOf(cells, 2) && texts == ["A1", "Widget", "3", "10.50", "31.50"]
    ensures RunCells(Initial, header + cells, headerTexts + texts) ==
      Ok(Extraction(2, Some("A1"), Some("Widget"), 3, 10.5, 31.5,
                    [InvoiceItem(Some("A1"), Some("Widget"), 3.0, 10.5, 31.5)]))
  {
    ExampleNumbers(texts);
    RowAfterHeader(header, headerTexts, cells, texts, 2, 3, 10.5, 31.5);
  }

  /** Header cells contribute nothing, so a complete row after them yields its one item. */
  lemma RowAfterHeader(header: seq<Block>, headerTexts: seq<string>, cells: seq<Block>, texts: seq<string>,
                       row: int, quantity: int, unitPrice: real, total: real)
    requires |headerTexts| == |header| && forall i :: 0 <= i < |header| ==> header[i].rowIndex == Some(1)
    requires |texts| == |cells| && IsRowOf(cells, row) && row != 1 && row != -1
    requires texts[0] != "" && texts[2] != "" && texts[3] != "" && texts[4] != ""
    requires Numbers.ParseInt(texts[2]) == Ok(quantity)
    requires Numbers.ParseDecimal(Text.StripCommas(texts[3])) == Ok(unitPrice)
    requires Numbers.ParseDecimal(Text.StripCommas(texts[4])) == Ok(total)
    ensures RunCells(Initial, header + cells, headerTexts + texts) ==
      Ok(Extraction(row, Some(texts[0]), Some(texts[1]), quantity, unitPrice, total,
                    [InvoiceItem(Some(texts[0]), Some(texts[1]), quantity as real, unitPrice, total)]))
  {
    var st := Initial;
    UnprocessedCellsInert(st, header, headerTexts);
    assert RunCells(st, header, headerTexts) == Ok(st);
    RunCellsAppend(st, header, cells, headerTexts, texts);
    assert RunCells(st, header + cells, headerTexts + texts) == RunCells(st, cells, texts);
    CompleteRow(st, cells, texts, row, quantity, unitPrice, total);
    var item := InvoiceItem(Some(texts[0]), Some(texts[1]), quantity as real, unitPrice, total);
    assert st.items + [item] == [item];
  }

  /** The numbers of the example row read as 3, 10.5 and 31.5. */
  lemma ExampleNumbers(texts: seq<string>)
    requires texts == ["A1", "Widget", "3", "10.50", "31.50"]
    ensures Numbers.ParseInt(texts[2]) == Ok(3)
    ensures Numbers.ParseDecimal(Text.StripCommas(texts[3])) == Ok(10.5)
    ensures Numbers.ParseDecimal(Text.StripCommas(texts[4])) == Ok(31.5)
  {
    ExampleQuantity();
    ExamplePrice();
    ExampleTotal();
  }

  lemma ExampleQuantity()
    ensures Numbers.ParseInt("3") == Ok(3)
  {
    assert "3"[1..] == [];
  }

  lemma ExamplePrice()
    ensures Numbers.ParseDecimal(Text.StripCommas("10.50")) == Ok(10.5)
  {
    Text.StripCommasNone("10.50");
    Numbers.ParseDecimalExample();
  }

  lemma ExampleTotal()
    ensures Numbers.ParseDecimal(Text.StripCommas("31.50")) == Ok(31.5)
  {
    Text.StripCommasNone("31.50");
    Numbers.TotalExample();
  }

  /** What the handler gets from processing the table: the items, or the error that aborted. */
  function ExtractItems(table: Block, blocks: seq<Block>): (r: Result<seq<InvoiceItem>, ExtractionError>)
    ensures TableCells(table, blocks).Err? ==> r == Err(TableCells(table, blocks).error)
    ensures r.Ok? ==> TableCells(table, blocks).Ok?
    ensures r.Ok? ==> var cells := TableCells(table, blocks).value;
      |r.value| <= CountMayCommit(cells, Texts(cells, blocks))
  {
    match TableCells(table, blocks)
    case Err(e) => Err(e)
    case Ok(cells) =>
      match RunCells(Initial, cells, Texts(cells, blocks))
      case Err(e) => Err(e)
      case Ok(done) => Ok(done.items)
  }

  /** The items of a table, computed by walking its cells with a skip sentinel and five
      accumulators, committing one item per total cell. */
  method ProcessTable(table: Block, blocks: seq<Block>) returns (r: Result<seq<InvoiceItem>, ExtractionError>)
    ensures r == ExtractItems(table, blocks)
  {
    var found := TableCells(table, blocks);
    if found.Err? {
      return Err(found.error);
    }
    var tableCells := found.value;
    ghost var texts := Texts(tableCells, blocks);
    var invoiceItems: seq<InvoiceItem> := [];
    var skipRowIndex := -1;
    var invoiceCode: Option<string> := None;
    var invoiceDescription: Option<string> := None;
    var invoiceQuantity := 0;
    var invoiceUnitPrice := 0.0;
    var invoiceTotal := 0.0;
    for i := 0 to |tableCells|
      invariant RunCells(Initial, tableCells, texts) ==
        RunCells(Extraction(skipRowIndex, invoiceCode, invoiceDescription, invoiceQuantity,
                            invoiceUnitPrice, invoiceTotal, invoiceItems), tableCells[i..], texts[i..])
    {
      var cell := tableCells[i];
      assert tableCells[i..][1..] == tableCells[i + 1..] && texts[i..][1..] == texts[i + 1..];
      if cell.rowIndex.Some? && cell.rowIndex.value != 1 && cell.rowIndex.value != skipRowIndex
         && cell.columnIndex.Some? {
        var cellContent := CellText.GetCellContent(cell, blocks);
        var row, column := cell.rowIndex.value, cell.columnIndex.value;
        if column == 1 {
          if cellContent == "" {
            skipRowIndex := row;
          } else {
            invoiceCode := Some(cellContent);
          }
        } else if column == 2 {
          invoiceDescription := Some(cellContent);
        } else if column == 4 && cellContent != "" {
          var parsed := Numbers.ParseInt(cellContent);
          if parsed.Err? {
            return Err(MalformedNumber(parsed.error.input));
          }
          invoiceQuantity := parsed.value;
        } else if column == 6 && cellContent != "" {
          var parsed := Numbers.ParseDecimal(Text.StripCommas(cellContent));
          if parsed.Err? {
            return Err(MalformedNumber(parsed.error.input));
          }
          invoiceUnitPrice := parsed.value;
        } else if column == 7 && cellContent != "" {
          var parsed := Numbers.ParseDecimal(Text.StripCommas(cellContent));
          if parsed.Err? {
            return Err(MalformedNumber(parsed.error.input));
          }
          invoiceTotal := parsed.value;
          invoiceItems := invoiceItems + [InvoiceItem(invoiceCode, invoiceDescription, invoiceQuantity as real,
                                                      invoiceUnitPrice, invoiceTotal)];
          skipRowIndex := row;
        }
      }
    }
    return Ok(invoiceItems);
  }
}
