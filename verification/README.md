# Invoice line-item extraction, modelled in Dafny

The invoice handler takes a scanned invoice and runs an asynchronous table analysis on it. It
then rebuilds the invoice's line-items table from the blocks the analysis returns. The blocks
form a flat graph of TABLE, CELL and WORD nodes linked by CHILD ids. The handler publishes the
items as JSON on a queue.

This project models the table-reconstruction core and the outcomes of the handler around it:

- **Blocks**: the block graph, lookup of a block by id (the first block with that id), and the
  locator of the line-items table (the first TABLE block tagged STRUCTURED_TABLE).
- **CellText**: a cell's text. The texts of the WORD blocks its CHILD ids resolve to, each
  followed by a space, then trimmed the way Java's `String.trim` trims (module **Text**).
- **RowExtractor**: the walk over the table's cells, with a skip-row sentinel and five
  accumulators (code, description, quantity, unit price, total).
  - Column 1 with no text voids its row.
  - Column 4 is read by `Integer.parseInt`; columns 6 and 7 are read by `Double.parseDouble`
    after the commas are removed (module **Numbers**).
  - A non-empty column-7 cell commits one item and marks its row as done.
  - `Step`/`RunCells` specify the walk cell by cell. `ProcessTable` is the loop itself, proved
    equal to that specification.
- **Handler**: the polling loop, the pagination loop, and the handler's answer. The answer is the
  published JSON, `{}`, the error text of an aborted extraction, or the failure text naming the
  job's status.

The model follows the code as written, also where a reader might expect otherwise
(trailing-only trimming, publishing `{}` when nothing was found, an integer quantity):

- `String.trim` removes leading as well as trailing characters up to U+0020, not just trailing
  whitespace.
- When no table is found, or the items cannot be serialized, `{}` is returned but nothing is
  published.
- The item record holds the quantity as a `double`; the model widens the 32-bit integer into it.
- Commas are stripped from the price columns only. A quantity written with a thousands separator
  aborts the extraction (`Numbers.ParseIntRejectsComma`).

Prices are exact decimals (`real`) rather than binary doubles.

## Model

| member | source | states |
|---|---|---|
| Seqs.FindFirst | InvoiceDataExtractionFunction/src/main/java/com/epam/demo/invoice/InvoiceHandler.java:193-196 | None exactly when no element satisfies the predicate; otherwise an element of the sequence that satisfies it |
| Seqs.FindFirstIsFirst | InvoiceDataExtractionFunction/src/main/java/com/epam/demo/invoice/InvoiceHandler.java:193-196 | what `findFirst` returns is the earliest element that satisfies the filter |
| Seqs.Filter | InvoiceDataExtractionFunction/src/main/java/com/epam/demo/invoice/InvoiceHandler.java:128-133 | a filtered stream is never longer than its source and holds only elements that satisfy the predicate |
| Seqs.FilterMembers | InvoiceDataExtractionFunction/src/main/java/com/epam/demo/invoice/InvoiceHandler.java:128-133 | filtering keeps exactly the elements that satisfy the predicate |
| Seqs.FilterMultiplicity | InvoiceDataExtractionFunction/src/main/java/com/epam/demo/invoice/InvoiceHandler.java:128-133 | filtering keeps every occurrence of a kept element and none of the others |
| Seqs.FilterAppend | InvoiceDataExtractionFunction/src/main/java/com/epam/demo/invoice/InvoiceHandler.java:128-133 | filtering a concatenation filters each part, in order |
| Blocks.FindBlockById | InvoiceDataExtractionFunction/src/main/java/com/epam/demo/invoice/InvoiceHandler.java:192-197 | None (Java's null) exactly when no block has the id; otherwise a block of the list with that id |
| Blocks.FindBlockByIdFirst | InvoiceDataExtractionFunction/src/main/java/com/epam/demo/invoice/InvoiceHandler.java:192-197 | with duplicate ids, the earliest block is returned |
| Blocks.GetItemsDetailTable | InvoiceDataExtractionFunction/src/main/java/com/epam/demo/invoice/InvoiceHandler.java:118-123 | None exactly when no block is a STRUCTURED_TABLE TABLE; otherwise such a block of the list |
| Blocks.ItemsDetailTableFirst | InvoiceDataExtractionFunction/src/main/java/com/epam/demo/invoice/InvoiceHandler.java:118-123 | with several structured tables, the first one is processed |
| Blocks.IsItemsDetailTable | InvoiceDataExtractionFunction/src/main/java/com/epam/demo/invoice/InvoiceHandler.java:120-121 | a table is the line-items table when it is a TABLE block tagged STRUCTURED_TABLE |
| Blocks.ChildIds | InvoiceDataExtractionFunction/src/main/java/com/epam/demo/invoice/InvoiceHandler.java:128-130 | an id is collected exactly when it is listed by some CHILD relationship; order and repeats are fixed by ChildIdsSingle with ChildIdsAppend |
| Blocks.ChildIdsSingle | InvoiceDataExtractionFunction/src/main/java/com/epam/demo/invoice/InvoiceHandler.java:129-130 | a CHILD relationship contributes all its ids, in its own order and with repeats; any other relationship contributes none |
| Blocks.ChildIdsAppend | InvoiceDataExtractionFunction/src/main/java/com/epam/demo/invoice/InvoiceHandler.java:128-130 | the CHILD ids of concatenated relationship lists are concatenated in order |
| Text.SkipBlanks | InvoiceDataExtractionFunction/src/main/java/com/epam/demo/invoice/InvoiceHandler.java:189 | the first non-blank position at or after the start; everything skipped is blank |
| Text.DropBlanks | InvoiceDataExtractionFunction/src/main/java/com/epam/demo/invoice/InvoiceHandler.java:189 | the end once trailing blanks are dropped; it never passes the start, and everything dropped is blank |
| Text.Trim | InvoiceDataExtractionFunction/src/main/java/com/epam/demo/invoice/InvoiceHandler.java:189 | the result neither starts nor ends with a character up to U+0020, and it is empty exactly when the input is all blank |
| Text.TrimInfix | InvoiceDataExtractionFunction/src/main/java/com/epam/demo/invoice/InvoiceHandler.java:189 | trim keeps an infix of the input, and everything it cuts off on either side is blank |
| Text.TrimTrimmed | InvoiceDataExtractionFunction/src/main/java/com/epam/demo/invoice/InvoiceHandler.java:189 | a string without blank ends is unchanged by trim |
| Text.TrimIdempotent | InvoiceDataExtractionFunction/src/main/java/com/epam/demo/invoice/InvoiceHandler.java:189 | trimming twice is trimming once |
| Text.TrimSpaceAfter | InvoiceDataExtractionFunction/src/main/java/com/epam/demo/invoice/InvoiceHandler.java:187-189 | the space appended after the last word is exactly what trim removes |
| Text.StripCommas | InvoiceDataExtractionFunction/src/main/java/com/epam/demo/invoice/InvoiceHandler.java:162 | removing commas never lengthens the text and leaves no comma |
| Text.StripCommasMembers | InvoiceDataExtractionFunction/src/main/java/com/epam/demo/invoice/InvoiceHandler.java:162 | no comma survives, and every other character does |
| Text.StripCommasCount | InvoiceDataExtractionFunction/src/main/java/com/epam/demo/invoice/InvoiceHandler.java:162 | each non-comma character keeps its number of occurrences |
| Text.StripCommasNone | InvoiceDataExtractionFunction/src/main/java/com/epam/demo/invoice/InvoiceHandler.java:162 | text without commas is unchanged |
| Text.StripCommaBetween | InvoiceDataExtractionFunction/src/main/java/com/epam/demo/invoice/InvoiceHandler.java:162 | a thousands separator between comma-free parts is simply dropped |
| Numbers.ParseInt | InvoiceDataExtractionFunction/src/main/java/com/epam/demo/invoice/InvoiceHandler.java:160 | a result lies in the 32-bit range and comes from an optionally signed digit string; a failure is a NumberFormatException carrying the input |
| Numbers.ParseIntRoundTrip | InvoiceDataExtractionFunction/src/main/java/com/epam/demo/invoice/InvoiceHandler.java:160 | every 32-bit integer printed in decimal parses back to itself |
| Numbers.ParseIntRejectsComma | InvoiceDataExtractionFunction/src/main/java/com/epam/demo/invoice/InvoiceHandler.java:159-160 | a quantity containing a comma is a NumberFormatException |
| Numbers.ParseDecimal | InvoiceDataExtractionFunction/src/main/java/com/epam/demo/invoice/InvoiceHandler.java:162 | a failure carries the input; blank text is always a failure |
| Numbers.ReadDecimal | InvoiceDataExtractionFunction/src/main/java/com/epam/demo/invoice/InvoiceHandler.java:162 | empty text is not a number |
| Numbers.ParseDecimalTrimmed | InvoiceDataExtractionFunction/src/main/java/com/epam/demo/invoice/InvoiceHandler.java:162 | surrounding blanks change neither whether nor what the price parser reads |
| Numbers.ParseDecimalOfInt | InvoiceDataExtractionFunction/src/main/java/com/epam/demo/invoice/InvoiceHandler.java:162 | on integer text the price parser agrees with the integer parser |
| Numbers.ReadDecimalWhole | InvoiceDataExtractionFunction/src/main/java/com/epam/demo/invoice/InvoiceHandler.java:162 | digits without a point, unsigned or with a "+" or "-" sign, read as that whole number |
| Numbers.ReadDecimalFixed | InvoiceDataExtractionFunction/src/main/java/com/epam/demo/invoice/InvoiceHandler.java:162 | `w.f` reads as the value of its digits |
| Numbers.ParseDecimalExample | InvoiceDataExtractionFunction/src/main/java/com/epam/demo/invoice/InvoiceHandler.java:162 | "10.50" reads as 10.5 |
| Numbers.TotalExample | InvoiceDataExtractionFunction/src/main/java/com/epam/demo/invoice/InvoiceHandler.java:164 | "31.50" reads as 31.5 |
| Numbers.ThousandsExample | InvoiceDataExtractionFunction/src/main/java/com/epam/demo/invoice/InvoiceHandler.java:162 | "1,050.00" with its commas stripped reads as 1050 |
| Numbers.CommaExample | InvoiceDataExtractionFunction/src/main/java/com/epam/demo/invoice/InvoiceHandler.java:162 | stripping "1,050.00" gives "1050.00" |
| CellText.WordText | InvoiceDataExtractionFunction/src/main/java/com/epam/demo/invoice/InvoiceHandler.java:187 | a word's text as the StringBuilder appends it: an absent text is written as "null" |
| CellText.WordTexts | InvoiceDataExtractionFunction/src/main/java/com/epam/demo/invoice/InvoiceHandler.java:182-187 | a cell never has more word texts than child ids; which texts, in which order, is fixed by WordTextsSingle with WordTextsAppend |
| CellText.Spaced | InvoiceDataExtractionFunction/src/main/java/com/epam/demo/invoice/InvoiceHandler.java:187 | each text is followed by one space: for at least one text, the texts joined by single spaces plus one trailing space |
| CellText.GetCellContent | InvoiceDataExtractionFunction/src/main/java/com/epam/demo/invoice/InvoiceHandler.java:176-190 | a null relationship list gives ""; the text never starts or ends with a blank |
| CellText.IsWordId | InvoiceDataExtractionFunction/src/main/java/com/epam/demo/invoice/InvoiceHandler.java:185-186 | an id counts as a word when it resolves to a block and that block is a WORD |
| CellText.WordTextsSingle | InvoiceDataExtractionFunction/src/main/java/com/epam/demo/invoice/InvoiceHandler.java:184-187 | one child id contributes the text of the WORD block it resolves to, and nothing when it resolves to nothing or to another kind of block |
| CellText.WordTextsAppend | InvoiceDataExtractionFunction/src/main/java/com/epam/demo/invoice/InvoiceHandler.java:182-187 | word texts of concatenated id lists are concatenated in order |
| CellText.IgnoredChild | InvoiceDataExtractionFunction/src/main/java/com/epam/demo/invoice/InvoiceHandler.java:185-186 | a child id that resolves to nothing, or to a block that is not a WORD, contributes nothing |
| CellText.SpacedAllBlank | InvoiceDataExtractionFunction/src/main/java/com/epam/demo/invoice/InvoiceHandler.java:187-189 | the spaced text is all blank exactly when every word is |
| CellText.CellContentEmpty | InvoiceDataExtractionFunction/src/main/java/com/epam/demo/invoice/InvoiceHandler.java:176-190 | a cell reads as empty exactly when every word it points to is blank |
| CellText.CellContentJoined | InvoiceDataExtractionFunction/src/main/java/com/epam/demo/invoice/InvoiceHandler.java:181-189 | for words without surrounding blanks, the cell text is the words joined by single spaces |
| CellText.TrimSpacedJoin | InvoiceDataExtractionFunction/src/main/java/com/epam/demo/invoice/InvoiceHandler.java:187-189 | trimming the space-terminated words gives the words joined by single spaces |
| CellText.WidgetCableExample | InvoiceDataExtractionFunction/src/main/java/com/epam/demo/invoice/InvoiceHandler.java:176-190 | the words "Widget" and "Cable" read as "Widget Cable" |
| RowExtractor.InvoiceItem | InvoiceDataExtractionFunction/src/main/java/com/epam/demo/invoice/InvoiceHandler.java:199-200 | the item record: code and description may be null, quantity, unit price and total are numbers |
| RowExtractor.Initial | InvoiceDataExtractionFunction/src/main/java/com/epam/demo/invoice/InvoiceHandler.java:137-143 | the walk starts with sentinel -1, null code and description, zero numbers and no items |
| RowExtractor.Processed | InvoiceDataExtractionFunction/src/main/java/com/epam/demo/invoice/InvoiceHandler.java:146-147 | a cell is looked at only when both indices are present, it is not in row 1 and not in the sentinel's row |
| RowExtractor.ItemOf | InvoiceDataExtractionFunction/src/main/java/com/epam/demo/invoice/InvoiceHandler.java:165-166 | the item built from the current accumulators, the quantity widened to a double |
| RowExtractor.Step | InvoiceDataExtractionFunction/src/main/java/com/epam/demo/invoice/InvoiceHandler.java:145-169 | an unprocessed cell changes nothing; items are only appended, at most one per cell that may commit |
| RowExtractor.StepFrame | InvoiceDataExtractionFunction/src/main/java/com/epam/demo/invoice/InvoiceHandler.java:145-169 | each accumulator changes only through its own column, the sentinel only through columns 1 and 7, the output only by one item built from the accumulators, and only columns 4, 6 and 7 can abort |
| RowExtractor.Texts | InvoiceDataExtractionFunction/src/main/java/com/epam/demo/invoice/InvoiceHandler.java:148 | one text per cell, each the cell's content |
| RowExtractor.RunCells | InvoiceDataExtractionFunction/src/main/java/com/epam/demo/invoice/InvoiceHandler.java:145-170 | the items of a run extend the starting items by at most one per cell that may commit |
| RowExtractor.RunCellsAppend | InvoiceDataExtractionFunction/src/main/java/com/epam/demo/invoice/InvoiceHandler.java:145-170 | running over two cell lists is running over the first and continuing from its state; a failure aborts the rest |
| RowExtractor.RunCellsCons | InvoiceDataExtractionFunction/src/main/java/com/epam/demo/invoice/InvoiceHandler.java:145-148 | a run is its first step followed by the run over the remaining cells |
| RowExtractor.RunCellsSteps | InvoiceDataExtractionFunction/src/main/java/com/epam/demo/invoice/InvoiceHandler.java:145-170 | a run whose every step succeeds threads the state from cell to cell |
| RowExtractor.UnprocessedCellsInert | InvoiceDataExtractionFunction/src/main/java/com/epam/demo/invoice/InvoiceHandler.java:146-147 | header-row cells, cells without indices and cells of the skipped row change nothing |
| RowExtractor.VoidRow | InvoiceDataExtractionFunction/src/main/java/com/epam/demo/invoice/InvoiceHandler.java:150-154 | an empty code cell sets the sentinel to its row, and the rest of that row is skipped |
| RowExtractor.CodeCell | InvoiceDataExtractionFunction/src/main/java/com/epam/demo/invoice/InvoiceHandler.java:150-156 | a column-1 cell with text sets the code and nothing else |
| RowExtractor.DescriptionCell | InvoiceDataExtractionFunction/src/main/java/com/epam/demo/invoice/InvoiceHandler.java:157-158 | a column-2 cell sets the description, even to "", and nothing else |
| RowExtractor.QuantityCell | InvoiceDataExtractionFunction/src/main/java/com/epam/demo/invoice/InvoiceHandler.java:159-160 | a column-4 cell that parses as an integer sets the quantity and nothing else |
| RowExtractor.UnitPriceCell | InvoiceDataExtractionFunction/src/main/java/com/epam/demo/invoice/InvoiceHandler.java:161-162 | a column-6 cell that parses after comma removal sets the unit price and nothing else |
| RowExtractor.TotalCell | InvoiceDataExtractionFunction/src/main/java/com/epam/demo/invoice/InvoiceHandler.java:163-167 | a column-7 cell that parses sets the total, appends the item the accumulators describe and sets the sentinel to its row |
| RowExtractor.MalformedQuantity | InvoiceDataExtractionFunction/src/main/java/com/epam/demo/invoice/InvoiceHandler.java:159-160 | a column-4 text that is not a 32-bit integer aborts with that text |
| RowExtractor.MalformedPrice | InvoiceDataExtractionFunction/src/main/java/com/epam/demo/invoice/InvoiceHandler.java:161-164 | a column-6 or column-7 text that does not parse after comma removal aborts with the stripped text |
| RowExtractor.EmptyNumberCell | InvoiceDataExtractionFunction/src/main/java/com/epam/demo/invoice/InvoiceHandler.java:159-164 | an empty column-4, 6 or 7 cell is passed over: nothing is parsed or committed |
| RowExtractor.UnusedColumnCell | InvoiceDataExtractionFunction/src/main/java/com/epam/demo/invoice/InvoiceHandler.java:150-168 | cells in columns other than 1, 2, 4, 6 and 7 change nothing |
| RowExtractor.CompleteRow | InvoiceDataExtractionFunction/src/main/java/com/epam/demo/invoice/InvoiceHandler.java:150-167 | a complete row commits exactly one item with its five values and marks its row as done |
| RowExtractor.RowAfterHeader | InvoiceDataExtractionFunction/src/main/java/com/epam/demo/invoice/InvoiceHandler.java:145-167 | after a header row, a complete row yields exactly its one item |
| RowExtractor.InvoiceRowExample | InvoiceDataExtractionFunction/src/main/java/com/epam/demo/invoice/InvoiceHandler.java:145-167 | a header row followed by A1 / Widget / 3 / 10.50 / 31.50 yields the one item (A1, Widget, 3, 10.5, 31.5) |
| RowExtractor.ResolveAll | InvoiceDataExtractionFunction/src/main/java/com/epam/demo/invoice/InvoiceHandler.java:131 | every id resolves, in order, or the error is an id that names no block |
| RowExtractor.IsCell | InvoiceDataExtractionFunction/src/main/java/com/epam/demo/invoice/InvoiceHandler.java:132 | only CELL blocks are kept among the table's children |
| RowExtractor.TableCells | InvoiceDataExtractionFunction/src/main/java/com/epam/demo/invoice/InvoiceHandler.java:128-133 | a null relationship list is an error; the cells are found exactly when every CHILD id resolves; they are then the CELL blocks the CHILD ids resolve to, one per id, in relationship and id order |
| RowExtractor.TableCellsComplete | InvoiceDataExtractionFunction/src/main/java/com/epam/demo/invoice/InvoiceHandler.java:128-133 | every CHILD id that resolves to a CELL contributes it; every cell comes from a CHILD id; an error names an unresolved id |
| RowExtractor.ExtractItems | InvoiceDataExtractionFunction/src/main/java/com/epam/demo/invoice/InvoiceHandler.java:125-174 | a table error aborts the extraction; the items number at most the cells that may commit |
| RowExtractor.ProcessTable | InvoiceDataExtractionFunction/src/main/java/com/epam/demo/invoice/InvoiceHandler.java:125-174 | the loop over the cells returns exactly what the cell-by-cell specification gives |
| Handler.StatusName | InvoiceDataExtractionFunction/src/main/java/com/epam/demo/invoice/InvoiceHandler.java:109 | a status prints as the service's name for it, and as "null" exactly when the SDK does not know it |
| Handler.StatusNameInjective | InvoiceDataExtractionFunction/src/main/java/com/epam/demo/invoice/InvoiceHandler.java:109 | distinct statuses print differently |
| Handler.Settled | InvoiceDataExtractionFunction/src/main/java/com/epam/demo/invoice/InvoiceHandler.java:62 | the loop continues exactly while the status is IN_PROGRESS |
| Handler.FinalStatus | InvoiceDataExtractionFunction/src/main/java/com/epam/demo/invoice/InvoiceHandler.java:55-62 | the loop stops at an answer that is not IN_PROGRESS; None exactly when every answer is IN_PROGRESS |
| Handler.PollCount | InvoiceDataExtractionFunction/src/main/java/com/epam/demo/invoice/InvoiceHandler.java:55-62 | the checks made run up to the first settled answer, all earlier answers being IN_PROGRESS |
| Handler.ThreeChecks | InvoiceDataExtractionFunction/src/main/java/com/epam/demo/invoice/InvoiceHandler.java:55-62 | IN_PROGRESS, IN_PROGRESS, SUCCEEDED takes three checks and ends in SUCCEEDED |
| Handler.AwaitJob | InvoiceDataExtractionFunction/src/main/java/com/epam/demo/invoice/InvoiceHandler.java:53-62 | the polling loop returns the final status and the number of checks made |
| Handler.Concat | InvoiceDataExtractionFunction/src/main/java/com/epam/demo/invoice/InvoiceHandler.java:77 | the blocks of all pages appended in page order |
| Handler.ConcatAppend | InvoiceDataExtractionFunction/src/main/java/com/epam/demo/invoice/InvoiceHandler.java:66-79 | gathering pages in two batches gathers them all, in order |
| Handler.ConcatMembers | InvoiceDataExtractionFunction/src/main/java/com/epam/demo/invoice/InvoiceHandler.java:66-79 | a block is gathered exactly when it is on some page |
| Handler.CollectBlocks | InvoiceDataExtractionFunction/src/main/java/com/epam/demo/invoice/InvoiceHandler.java:66-79 | the pagination loop returns the first page's blocks and then every following page's, in page order |
| Handler.Respond | InvoiceDataExtractionFunction/src/main/java/com/epam/demo/invoice/InvoiceHandler.java:64-115 | a published message is also the reply; a status other than SUCCEEDED gives the failure text and no message |
| Handler.HandleRequest | InvoiceDataExtractionFunction/src/main/java/com/epam/demo/invoice/InvoiceHandler.java:53-115 | the handler answers only once the job settles, and then with the answer `Respond` specifies for the gathered blocks |
| Handler.PublishedIffExtracted | InvoiceDataExtractionFunction/src/main/java/com/epam/demo/invoice/InvoiceHandler.java:81-98 | items are published exactly when the job succeeded, a table was found, its extraction succeeded and the JSON was written; the message is that JSON |
| Handler.EmptyReplyIff | InvoiceDataExtractionFunction/src/main/java/com/epam/demo/invoice/InvoiceHandler.java:81-107 | "{}" without a message is answered exactly when the job succeeded but there was no table or no JSON |
| Handler.ExtractionErrorReply | InvoiceDataExtractionFunction/src/main/java/com/epam/demo/invoice/InvoiceHandler.java:112-114 | an aborted extraction answers the error prefix followed by the exception's message, and publishes nothing |
| Handler.FailedReplyNamesStatus | InvoiceDataExtractionFunction/src/main/java/com/epam/demo/invoice/InvoiceHandler.java:108-110 | different failed statuses give different failure texts |

## Left out

- Reading the S3 event and starting the analysis job (lines 26-51) are not modelled. The polling and pagination loops receive the service's answers as sequences (`polls`, `first`, `next`).
- `Thread.sleep` between polls is left out, and so is its `InterruptedException`: the model has no clock.
- Handler.AwaitJob: a job that never settles makes the handler poll forever. The model observes only a finite list of answers and returns None when they run out.
- Sending the JSON to the queue, and `System.getenv` for its URL, are left out. The send is taken to succeed; a failing send would give the error reply instead.
- The JSON mapper is a parameter (`serialize`): None stands for a `JsonProcessingException`. The JSON format itself is not modelled.
- Exception messages are a parameter (`describe`), since their texts come from the Java runtime.
- Logging through the Lambda context is left out; it has no effect on the result.
- Numbers.ParseInt: reads ASCII digits only. `Integer.parseInt` also accepts other Unicode decimal digits.
- Numbers.ParseDecimal: covers plain decimal text only. Exponents, NaN, Infinity, hexadecimal forms and the d/f suffixes are read as errors. Values are exact decimals, without binary rounding.
- Block ids are taken to be non-null; a null id would make `findBlockById` throw.
- Unknown and absent job statuses are one case, `UnknownToSdkVersion`: both print as "null".
- The unit test file is not part of this model.
