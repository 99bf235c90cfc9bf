# A verified model of the database-in-c storage core

This project models the core of a small single-file database written in C
(TadejDragojlovic/database-in-c) and proves properties of that model in
Dafny. The model covers three layers:

- **Pages and the page cache**. These come from `src/table.c` and
  `include/table.h`.
  - The backing file is a byte sequence.
  - `Storage.Pager` is a class with a cache array of optional
    4096-byte page buffers. It is filled lazily by `get_page` and
    emptied by `db_close`.
  - `Storage.Table` holds the pager, the B-tree root page number and
    the row count of the append-only table.
  - Rows are serialised at fixed offsets into the slot `row_slot`
    computes.
- **Leaf B+tree nodes**. These come from `src/btree.c` and
  `include/btree.h`.
  - A node is the byte buffer of its page, as in C. View functions
    read the header and cells at the offsets of the header file;
    methods write into the buffer.
  - The binary search of `leaf_node_find`, the shifting insert of
    `leaf_node_insert` and the descending split loop of
    `leaf_node_split_and_insert` are methods with loop invariants.
  - `create_new_root` rewrites the root page in place.
- **Statements**. These come from `src/statement.c`.
  - Input lines are byte sequences. `strtok`, `strncmp`, `strcpy`
    and `atoi` are modelled as functions.
  - `prepare_statement` and `prepare_insert` are functions returning
    the result code and the updated statement.
  - `execute_insert` and `execute_select` are methods on the table.
    Their printed lines are returned as a sequence.

Files:

- `wrappers.dfy`: `Option`, `Result` and `Outcome`.
- `bytes.dfy`: bytes, little-endian `uint32_t`, `memcpy`.
- `table_layout.dfy`: row and page constants.
- `node_layout.dfy`: node header and cell constants.
- `storage.dfy`: row codec, `row_slot`, pager and table.
- `btree.dfy`: leaf nodes, insert, split, new root.
- `statement.dfy`: parser and executor.

Fatal `exit(EXIT_FAILURE)` paths become explicit error results:
`PagerError`, `BTreeError`, `PrepareResult` and `ExecuteResult`.

The C code is an early stage of a B+tree database. Where it stops short of
a complete one (whole-page flushes, refusal of malformed files, leaf
sibling chains, parent pointers, refusal of duplicate keys), the model
follows the code:

- `db_close` writes only the used part of a partly filled last page, not
  a whole page.
- Opening a file whose size is not a multiple of the page size is not
  refused.
- Leaves have no next-leaf pointer.
- Inserting a key that is already present is not refused.
- `create_new_root` does not set the children's parent pointers.
- A page loaded past the end of the file comes from `malloc`, not a
  zero-filled allocation. The model takes its bytes to be zero.

## Model

| member | source | states |
|---|---|---|
| Bytes.EncodeU32 | src/btree.c:113-114 | a `uint32_t` store writes 4 bytes that decode back to the stored value |
| Bytes.EncodeDecode | src/btree.c:98 | decoding any 4 bytes and encoding again gives the same bytes |
| Bytes.DecodeInjective | src/btree.c:180-181 | two 4-byte fields hold the same key exactly when their bytes are equal |
| Bytes.Memcpy | src/btree.c:109 | the destination range receives the source bytes and every other destination byte is kept |
| Bytes.Store | src/table.c:5-7 | a byte sequence lands at the given offset and every other byte is kept |
| NodeLayout.NodeTypeByte | include/btree.h:8 | NODE_INTERNAL is tag 0 and NODE_LEAF is tag 1 |
| NodeLayout.NodeTypeOf | src/btree.c:29-33 | a tag byte names a node type exactly when it is 0 or 1 |
| NodeLayout.NodeTypeRoundTrip | src/btree.c:29-39 | a type written as a tag reads back as the same type, and a valid tag is re-encoded to the same byte |
| NodeLayout.CommonHeaderContiguous | include/btree.h:14-20 | type at byte 0, root flag at 1, parent pointer at 2 for 4 bytes, 6 bytes in all |
| NodeLayout.LeafHeaderAndCell | include/btree.h:23-34 | the cell count follows the common header (10-byte leaf header); a cell is a 4-byte key then a row, 297 bytes |
| NodeLayout.MaxCellsFit | include/btree.h:35-36 | 13 cells fit after the leaf header and a 14th would not |
| NodeLayout.SplitCounts | src/btree.c:130-137 | LEFT + RIGHT = MAX + 1, both halves non-empty, RIGHT <= LEFT, and `i % LEFT` is the slot in the right leaf for every position from LEFT on |
| NodeLayout.InternalLayout | src/btree.c:70-79 | the key count is at 6, the right child at 10, the internal header is 14 bytes, cells are 8 bytes and fit in the page |
| TableLayout.RowFieldsBackToBack | include/table.h:60-68 | id at 0, username right after the id, email right after the username, row size = end of email |
| TableLayout.BuffersReserveTerminator | include/table.h:16-17 | the username and email buffers are one byte longer than the column limits 32 and 255 |
| TableLayout.CacheGeometry | include/table.h:22 | 1000 slots of 4096-byte pages; 13 rows fit a page and 14 do not; the table holds 13000 rows |
| Storage.RowBytes | src/table.c:4-8 | a serialised row is ROW_SIZE bytes |
| Storage.RowOf | src/table.c:11-16 | any ROW_SIZE bytes deserialise to a row with buffers of the declared widths |
| Storage.RowRoundTrip | src/table.c:4-16 | deserialising a serialised row gives the same id, username bytes and email bytes |
| Storage.RowBytesRoundTrip | src/table.c:4-16 | serialising a deserialised slot gives back the slot's bytes, so the codec is a bijection |
| Storage.SerializeRow | src/table.c:4-8 | the destination slot holds the row's bytes and no byte outside `[off, off + ROW_SIZE)` changes |
| Storage.DeserializeRow | src/table.c:11-16 | the result is the row the slot's bytes encode |
| Storage.RowSlotLocation | src/table.c:20-32 | the slot lies inside its page on a row boundary, determines the row index back, and is in the cache range exactly when the index is below TABLE_MAXIMUM_ROWS |
| Storage.RowSlotsDisjoint | src/table.c:20-32 | distinct row indices get non-overlapping slots |
| Storage.PagesInFile | src/table.c:45-50 | the page count of the file, rounded up for a partial last page |
| Storage.FileRead | src/table.c:53-54 | `read` at an offset returns the file's bytes there, short at the end of the file, empty past it |
| Storage.WriteAt | src/table.c:162-169 | `write` at an offset replaces those bytes, extends the file if needed, and keeps the rest |
| Storage.ReadAfterWrite | src/table.c:156-175 | reading back what was just written returns it |
| Storage.LoadPage | src/table.c:42-60 | a page made on a cache miss is PAGE_SIZE bytes |
| Storage.LoadPageReadsFile | src/table.c:45-59 | a loaded page is the file's bytes at `n * PAGE_SIZE`, zero past the end of the file |
| Storage.Pager.Views | src/table.c:35-64 | the view of every page: its cached buffer, or what `get_page` would load |
| Storage.Pager.Open | src/table.c:130-153 | the file and its size are recorded and every cache slot is empty |
| Storage.Pager.GetPage | src/table.c:35-64 | fails exactly for page numbers outside the cache; a cached page is returned with nothing changed; a miss loads the page from the file into a fresh buffer in that slot only; after a successful load the `page_count` watermark is past the page (a modelling addition, see below); no page's view changes |
| Storage.PageCountAfter | include/table.h:39 | the watermark after loading page `n` is the larger of the old watermark and `n + 1` |
| Storage.Pager.GetUnusedPageNumber | include/table.h:78 | the page number returned is not cached |
| Storage.Pager.Flush | src/table.c:156-175 | flushing an uncached page fails and leaves the file; otherwise the first `size` bytes of the page are written at `page_number * PAGE_SIZE` |
| Storage.Pager.FlushWholePages | src/table.c:85-95 | every cached page below the count is written whole, in page order, and its slot emptied; the other slots are untouched |
| Storage.Pager.FreePages | src/table.c:115-122 | every cache slot ends empty |
| Storage.RowCountOnOpen | src/table.c:71 | a file within the cache's capacity never reopens with more than TABLE_MAXIMUM_ROWS rows |
| Storage.RowCountRoundTrip | src/table.c:68-106 | the row count of a reopened file equals the count that was closed into it |
| Storage.FlushedPagesLength | src/table.c:88-95 | flushing pages 0..k-1, all cached, into an empty file leaves exactly k pages |
| Storage.FlushedPagesHold | src/table.c:88-95 | after the flush loop, each flushed page's bytes are in the file at that page's offset |
| Storage.ClosedFileLength | src/table.c:83-106 | closing into an empty file gives 4096 bytes per whole page of rows plus 293 bytes per row of the last page |
| Storage.RowInClosedRange | src/table.c:85-102 | every row below the row count lies in a whole flushed page or in the flushed part of the last page |
| Storage.ClosedFileHoldsRow | src/table.c:83-106 | every byte of every row is in the closed file at its slot's offset |
| Storage.ReopenRoundTrip | src/table.c:68-106 | closing then reopening gives back the row count, and each row's page loads back with the row's bytes |
| Storage.RowsIn | src/statement.c:80-81 | the rows visible through the page views are `count` long |
| Storage.Table.Rows | src/statement.c:78-86 | the table's rows in slot order, row `i` being the row in slot `i` |
| Storage.Table.Open | src/table.c:68-78 | a table over the file, every slot empty, with root page 0 and the rows the file holds counted |
| Storage.Table.RowSlot | src/table.c:20-32 | returns the buffer of the row's page (loaded if needed) and the row's offset; no page's view changes |
| Storage.RowCountAsWrittenOvercounts | src/table.c:71 | 26 rows fill two whole pages; the as-written count reopens them as 27 rows, the corrected count as 26 |
| Storage.PageBufferAsWrittenTooSmall | src/table.c:43 | the as-written allocation is smaller than a page and smaller than the end of row slot 1 |
| Storage.GetPageAsWrittenAdmitsPastCache | src/table.c:36-39 | some page number at or past TABLE_MAX_PAGES passes the as-written bound check |
| Storage.Table.Close | src/table.c:83-126 | the file becomes the whole-page flush followed by the partial-page flush, and every slot ends empty |
| BTree.LeafCellOffset | src/btree.c:47-49 | cells follow the leaf header and every cell below the maximum lies inside the page |
| BTree.LeafCell | src/btree.c:47-49 | a cell is LEAF_NODE_CELL_SIZE bytes |
| BTree.CellValue | src/btree.c:57-59 | a cell's value is a ROW_SIZE row |
| BTree.LeafCellLayout | src/btree.c:52-59 | a cell's key is the `uint32_t` at the cell's start and its value the row bytes after the key |
| BTree.LeafCellsDisjoint | src/btree.c:47-49 | cells lie in order and never overlap |
| BTree.CellBytes | src/btree.c:114-115 | a cell made from a key and a row is one cell wide |
| BTree.CellRoundTrip | src/btree.c:114-115 | a cell gives back its key and its row |
| BTree.LeafCells | src/btree.c:42-49 | the first `n` cells of a leaf, each one cell wide |
| BTree.Keys | src/btree.c:52-54 | one key per cell |
| BTree.InsertionPointFindsKey | src/btree.c:176-193 | among ascending keys, the key is present exactly when its insertion point holds it |
| BTree.InsertAtIndex | src/btree.c:106-115 | an insertion keeps the elements before it, puts the new one at its index and moves the rest up one |
| BTree.KeysOfInsert | src/btree.c:106-115 | the keys of the cells after an insertion are the old keys with the new key inserted at the same place |
| BTree.InsertKeepsSorted | src/btree.c:95-116 | an absent key inserted at its insertion point keeps the keys strictly ascending |
| BTree.LeafInsertKeepsSorted | src/btree.c:95-116 | inserting a cell at the point `leaf_node_find` returns for an absent key keeps the leaf's keys strictly ascending |
| BTree.InternalCellOffset | src/btree.c:219-222 | internal cells follow the 14-byte header and every cell below the maximum is inside the page |
| BTree.LeafMaxKeyIsMaximum | src/btree.c:221 | in a leaf with ascending keys, `get_node_max_key` is one of the keys and no key exceeds it |
| BTree.SetU32 | src/btree.c:113 | a `uint32_t` store reads back as the value and changes no other byte |
| BTree.SetNodeType | src/btree.c:36-39 | the tag reads back as the type and only byte 0 changes |
| BTree.SetNodeRoot | src/btree.c:235-238 | the root flag reads back as given and only byte 1 changes |
| BTree.InitializeLeafNode | src/btree.c:62-65 | a leaf with no cells; only the tag and the cell count are written |
| BTree.InitializeInternalNode | src/btree.c:83-87 | a non-root internal node with no keys; only the tag, the root flag and the key count are written |
| BTree.LeafKeyAt | src/btree.c:52-54 | the keys of a leaf are the keys its cells hold, in cell order |
| BTree.FoundIsInsertionPoint | src/btree.c:181-185 | a key found between the search bounds is at its insertion point |
| BTree.NarrowSearch | src/btree.c:186-189 | each narrowing of the search keeps every key outside the bounds on its side of the target |
| BTree.LeafFindCell | src/btree.c:175-193 | the result is at most the cell count and, when the keys ascend, is the target's insertion point, so it holds the key when present |
| BTree.LeafNodeFind | src/btree.c:167-194 | fails only for a page outside the cache; otherwise a cursor on that page at a cell no greater than the count, at the key's insertion point when the keys ascend; no page changes |
| BTree.CellOutsideWrite | src/btree.c:106-115 | a write outside a cell leaves that cell unchanged |
| BTree.ShiftStep | src/btree.c:108-110 | one pass of the shift loop keeps its invariant |
| BTree.ShiftCellsUp | src/btree.c:106-111 | cells from the cursor to the last move up one slot, and nothing else changes |
| BTree.WriteCell | src/btree.c:114-115 | the cell at the cursor becomes the key followed by the row; nothing else changes |
| BTree.InsertAssembled | src/btree.c:106-115 | shift, count store and cell write together give the old cells with the new cell inserted |
| BTree.InsertFrame | src/btree.c:106-115 | together the three writes touch only the cell count and the cells up to the new last one |
| BTree.LeafInsertInPlace | src/btree.c:106-115 | on a leaf with room: one more cell, and the cells are the old cells with the new cell at the cursor; the common header and the bytes past the new last cell are kept |
| BTree.OtherCellsKept | src/btree.c:138-148 | a write to one cell keeps every other cell |
| BTree.SplitStepRight | src/btree.c:132-148 | placing a position in the new leaf keeps the split loop's invariant |
| BTree.SplitStepLeft | src/btree.c:132-148 | placing a position in the old leaf keeps the split loop's invariant |
| BTree.SplitSource | src/btree.c:141-148 | position `i` of the combined cells is the new cell at the cursor, an old cell moved up after it, or an old cell kept before it |
| BTree.WriteSplitCell | src/btree.c:138-148 | the destination cell receives what position `i` gets; only that cell changes |
| BTree.PlaceSplitCell | src/btree.c:131-148 | one pass of the split loop keeps its invariant |
| BTree.SplitStep | src/btree.c:131-148 | a pass that writes position `i`'s cell to its page and slot, and nothing else, keeps the invariant |
| BTree.LeafSplitCells | src/btree.c:127-153 | the new page is a leaf with RIGHT cells; the old page has LEFT cells; the old page's cells then the new page's cells are the old cells with the new cell inserted at the cursor |
| BTree.SplitFinish | src/btree.c:152-153 | the two count stores give LEFT and RIGHT cells and keep every cell |
| BTree.SplitCellAsWritten | src/btree.c:141-142 | the as-written split cell is one cell wide; its key reads as the row's id and its value is the row shifted by a key's width |
| BTree.SplitCellAsWrittenLosesRow | src/btree.c:141-142 | for key 1 and row (1, "", ""), the as-written cell's row reads back with id 0, while the corrected cell gives back key 1 and the row |
| BTree.SplitSeparatorKey | src/btree.c:221-222 | after a split of ascending cells, the old leaf's max key is at least each of its keys and below every key of the new leaf |
| BTree.U32Kept | src/btree.c:218-223 | a `uint32_t` field outside a write keeps its value |
| BTree.MaxKeyIgnoresRootFlag | src/btree.c:212-213 | clearing the root flag changes neither the node's type nor its max key |
| BTree.WriteNewRoot | src/btree.c:215-223 | the root page becomes an internal root with one key, the given left child, key and right child; only the header fields and the first cell change |
| BTree.InstallNewRoot | src/btree.c:212-223 | the left child is a byte copy of the old root with only the root flag cleared; the root gets the left child's max key between the two children |
| BTree.RootFlagOnly | src/btree.c:213 | setting the root flag keeps the type, the cell count and the cells |
| BTree.InsertedInPlaceKeepsSorted | src/btree.c:95-116 | after an in-place insert at the insertion point of an absent key, the leaf's keys still ascend |
| BTree.NewRootSeparatesChildren | src/btree.c:197-224 | after a root split of ascending cells, the root's one key is at least every left key and below every right key |
| BTree.LoadNewRootPages | src/btree.c:201-208 | succeeds exactly when the root and right-child page numbers are in range and the watermark after loading both is below TABLE_MAX_PAGES; then it loads the root, the right child and a fresh unused page for the left child; no page's view changes |
| BTree.CreateNewRoot | src/btree.c:197-224 | succeeds exactly when both page numbers are in range and the left child's page, the watermark after loading them, is below TABLE_MAX_PAGES; the root page number is unchanged; on success a fresh page is the old root with only the root flag cleared; the root page is an internal root whose one key is that page's max key, with that page left and the split-off page right; no other page changes |
| BTree.LoadSplitPages | src/btree.c:122-126 | succeeds exactly when the leaf's page is in range and the watermark after loading it is below TABLE_MAX_PAGES; then it loads the leaf's page and a fresh page at that watermark, which it raises by one; no page's view changes |
| BTree.SplitLoadedLeaf | src/btree.c:127-153 | seen through the cache, the old leaf keeps its type and root flag and has the first LEFT cells, the new leaf has the rest, and no other page changes |
| BTree.SplitRootAssembled | src/btree.c:155-157 | the two halves and the new root together are a split into a new root |
| BTree.SplitIntoParent | src/btree.c:155-161 | a root leaf gets a new root over its two halves exactly when there is a page for the left child; a non-root leaf fails as not implemented |
| BTree.LeafNodeSplitAndInsert | src/btree.c:120-162 | fails for a page outside the cache; succeeds exactly for a root leaf when the watermark leaves two unused pages below TABLE_MAX_PAGES; a non-root leaf with room for its new page fails as not implemented, every other failure is a page out of range; a successful split leaves the old cells plus the new one in two leaves under a new internal root; the root page number is kept |
| BTree.LeafNodeInsert | src/btree.c:95-116 | fails for a page outside the cache; a leaf with room gets the new cell in place; a full leaf is split with the outcome of `leaf_node_split_and_insert`, so a full root leaf with two unused pages below TABLE_MAX_PAGES always gets a new root; the root page number is kept |
| Statements.CString | src/statement.c:24 | the bytes before the first NUL: a NUL-free prefix followed by the terminator if any |
| Statements.CStringOfTerminated | src/statement.c:29-30 | a NUL-free string followed by its terminator reads back as itself whatever follows |
| Statements.CStringOfPlain | src/statement.c:24 | a buffer with no NUL is all string |
| Statements.StrCpy | src/statement.c:29-30 | `strcpy` into a buffer with room: same width, the C string read back is the source, and the bytes past its terminator are kept |
| Statements.TokenLength | src/statement.c:9-12 | the length of the run before the first space |
| Statements.TokenLengthOf | src/statement.c:9-12 | a token ends at the space after it or at the end of the line |
| Statements.Tokens | src/statement.c:9-12 | the tokens `strtok` returns are non-empty and space-free, and NUL-free when the line is |
| Statements.TokensOfJoin | src/statement.c:9-12 | splitting a line joined with single spaces from non-empty, space-free tokens gives the tokens back |
| Statements.SpaceCount | src/statement.c:18 | the leading white space `atoi` skips |
| Statements.DigitCount | src/statement.c:18 | the run of digits `atoi` reads |
| Statements.DigitCountOf | src/statement.c:18 | a run of digits ends at the first non-digit |
| Statements.Decimal | src/statement.c:89 | `%d` of a non-negative number: digits only, no leading zero |
| Statements.DecimalRoundTrip | src/statement.c:18 | reading back the digits of `n` gives `n` |
| Statements.ClampLong | src/statement.c:18 | `strtol` saturates to the `long` range and keeps values inside it |
| Statements.ToInt | src/statement.c:18 | the conversion to `int` lands in the `int` range and is congruent modulo 2^32 |
| Statements.Atoi | src/statement.c:18 | `atoi` always yields an `int` |
| Statements.IntUnchanged | src/statement.c:18 | any `int` value passes through saturation and conversion unchanged |
| Statements.AtoiOfDecimal | src/statement.c:18 | `atoi` of a number's digits followed by a non-digit is the number |
| Statements.AtoiOfNegative | src/statement.c:18-21 | `atoi("-n")` is `-n` |
| Statements.AtoiOfNonNumeric | src/statement.c:18-21 | a token starting with no sign, digit or space reads as id 0 and is accepted |
| Statements.PrepareInsert | src/statement.c:4-38 | a syntax error exactly when fewer than 4 tokens; with 4 or more, a negative id exactly when `atoi` of the second token is negative; with a non-negative id, too long exactly when the username exceeds 32 or the email 255 bytes, so 32 and 255 are accepted; every error leaves the statement unchanged; success is an INSERT of `atoi` of the second token with the third and fourth tokens as the strings |
| Statements.PrepareStatement | src/statement.c:40-49 | unrecognised exactly when the line starts with neither keyword, and then the statement is unchanged; a line starting with "insert" is `prepare_insert`; a line starting with "select" but not "insert" succeeds as a SELECT with the row kept |
| Statements.PrepareInsertLine | src/statement.c:15-37 | for `insert id username email`: a negative id is refused first, then a username over 32 or an email over 255 bytes; otherwise an INSERT of exactly those values; 32 and 255 are accepted |
| Statements.InsertLineTokens | src/statement.c:9-12 | the line `keyword id username email` starts with "insert" and splits back into its four tokens |
| Statements.JoinAvoids | src/statement.c:9-12 | a byte no token holds, other than the space, is not in the joined line |
| Statements.FormatId | src/statement.c:89 | `%d` of a `uint32_t` id prints its digits up to INT_MAX and a minus sign above it |
| Statements.Listing | src/statement.c:80-83 | one printed line per row, line `i` being row `i` |
| Statements.ExecuteInsert | src/statement.c:64-76 | a full table gives TABLE_FULL, no output, and no change to count or pages; otherwise SUCCESS, "Inserted.", and the row appended to the table's rows |
| Statements.AppendRow | src/statement.c:70-71 | the row store and the count increment append the row to the table's rows |
| Statements.RowsAfterStore | src/statement.c:70-71 | storing a row's bytes in slot `n` and nothing else appends the row to the first `n` rows |
| Statements.ExecuteSelect | src/statement.c:78-86 | prints every row in insertion order and changes no row and no page |
| Statements.PrintRows | src/statement.c:80-83 | the loop's output is the listing of slots 0 to `row_count - 1` |
| Statements.ListingGrows | src/statement.c:80-83 | listing one more slot adds that slot's line at the end |
| Statements.ReadRow | src/statement.c:81 | the row read from slot `i`; no page's view changes |
| Statements.ExecuteStatement | src/statement.c:55-62 | an INSERT runs `execute_insert` and a SELECT runs `execute_select`, with their outcomes |
| Statements.BlankStatement | src/database.c:35 | the statement declared before preparing a line has buffers of the declared widths |
| Statements.PrepareIdOneLine | tests.py:6-7 | `insert 1 <username> <email>` with short strings prepares an INSERT of id 1 with those strings |
| Statements.PrepareLongStrings | tests.py:46-47 | for non-empty strings of any lengths: too long exactly when the username exceeds 32 or the email 255 bytes (as with 33 and 256 in the test), and accepted exactly otherwise |
| Statements.PrepareNegativeIdLine | tests.py:53-54 | `insert -1 ...` is refused for its id and leaves the statement unchanged |
| Statements.InsertThenSelect | tests.py:6-7 | on an empty database file, the insert prints "Inserted." and the select prints `(1, username, email)` |
| Statements.InsertIntoEmptyTable | src/statement.c:64-86 | on a table opened over an empty file, an insert and then a select print "Inserted." and the inserted row |

## Left out

- The REPL loops in `database.c` and `src/database.c`, `read_input` and the meta commands are not part of this model. Printing is modelled as the returned sequence of output lines.
- Syscall failures (`open`, `lseek`, `read`, `write`, `close`), `errno` reporting and `exit` are left out. Fatal paths that can arise from the model's own state are error results instead.
- `malloc`'d and stack memory is indeterminate in C. The model takes it to be zeros: page buffers from `get_page`, and the statement `main` declares (`BlankStatement`).
- `strtok`'s in-place buffer mutation is left out. Tokens are computed as values from the line.
- `Storage.Pager.Open`: `page_count` is never initialised in the C code. The model starts it at the file's rounded-up page count, so `get_unused_page_number` never returns a page the file holds.
- `Storage.Pager.GetPage`: raises `page_count` past each page it loads. The C `get_page` never writes `page_count`, and no shown file sets it. Without the raise, `get_unused_page_number` would keep returning the same page.
- `Storage.Table.Open`: `root_page_number` and `internal_node_layers` are never initialised in the C code; the model sets both to 0.
- `Storage.Table.Open`: requires a file no larger than the cache (1000 pages), so that the row count it computes fits the table. `db_open` does not check this.
- `BTree.LeafNodeFind`: the cursor's `end_of_table` field, never set by `leaf_node_find`, is false in the model.
- `src/btree.c:215` is not a valid C statement. The model does what it evidently means, `initialize_internal_node(root)`.
- `btree.c` calls `serialize_row` while `table.c` defines `row_serialization`. Both are `Storage.SerializeRow`.
- `pager_flush` takes three arguments in `src/table.c` and two in `include/table.h`. The three-argument form is modelled.
- `Table.row_count` is used by the C code but missing from `include/table.h`; the model adds the field.
- Symbols that no shown file defines are assumed:
  - LEFT/RIGHT split counts: 7 and 7.
  - The internal-node layout: key count at 6, right child at 10, 8-byte cells of child then key.
  - `get_node_max_key`: the key of the last cell.
  - `internal_node_child` and `internal_node_key`: fields of an internal cell.
  - `get_unused_page_number`: the `page_count` field.
  - `MAXIMUM_ROWS_PER_PAGE`: 4096 / 293 = 13.
  - `TABLE_MAXIMUM_ROWS`: 13 × 1000 = 13000. `tests.py:35-40` (1300) and `tester.py` (1400) expect smaller limits from other stages of the code.
- A node is a view over its page buffer, not a class of its own. The C node is a bare `void*` into the page, and every write goes through the page's `array`.
- Internal-node insertion and splitting, parent updates after a non-root leaf split, and leaf sibling chains are not in the code. A non-root split returns `ParentUpdateNotImplemented` where the C code exits.
- `table_start`, `table_find`, `cursor_position` and `cursor_advance` are only declared. They are not part of this model.
- `print_row`'s `%s` on a buffer with no terminator is left out: a row read from its slot could have no NUL. The model prints the bytes up to the first NUL or the end of the buffer.
- `print_constants` and `print_leaf_node` are console output only and are not part of this model.
- `Statements.Atoi`: follows glibc, `(int) strtol(s, NULL, 10)`. The C standard leaves `atoi` of an out-of-range value undefined.
- `include/statement.h` declares an older `PrepareResult` and a one-argument `execute_statement`. The model uses the results `src/statement.c` returns.

## Findings

| source | as written | input that shows it | evidently intended | confidence | as-written member | corrected member |
|---|---|---|---|---|---|---|
| src/table.c:36 | `get_page` rejects only page numbers above TABLE_MAX_PAGES | page number 1000 passes the check and indexes one past the 1000-slot cache | reject every page number at or above TABLE_MAX_PAGES | high, not executed | Storage.GetPageAsWrittenAdmitsPastCache | Storage.Pager.GetPage |
| src/table.c:43 | a missed page is allocated `sizeof(PAGE_SIZE)` bytes, the size of a `uint32_t` | any cache miss: `read` then fills 4096 bytes, and `row_slot(table, 1)` points 293 bytes in | allocate PAGE_SIZE bytes | high, not executed | Storage.PageBufferAsWrittenTooSmall | Storage.Pager.GetPage |
| src/table.c:71 | on open, the row count is the file size divided by ROW_SIZE | 26 rows fill two pages exactly (8192 bytes); reopened, 8192 / 293 counts 27 rows | 13 rows per whole page plus the rows of the partial last page | high, not executed | Storage.RowCountAsWrittenOvercounts | Storage.RowCountRoundTrip |
| src/btree.c:141-142 | the split writes the new row at the start of its cell and never writes the key | key 1 and row (1, "", "") into a full leaf: the cell's key reads 1 but its row reads back with id 0 | write the key, then the row after it, as `leaf_node_insert` does | high, not executed | BTree.SplitCellAsWrittenLosesRow | BTree.WriteSplitCell |
