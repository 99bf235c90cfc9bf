/** The leaf B+tree of src/btree.c. C gives a node no type of its own (it is
    a `void*` into a page buffer), so a node here is the `PAGE_SIZE`-byte
    buffer of its page: view functions read it at the offsets of
    include/btree.h, and methods write into the buffer. */
module BTree {
  import opened Bytes
  import opened Wrappers
  import opened TableLayout
  import opened NodeLayout
  import opened Storage

  // ------------------------------------------------------------------
  // Reading a node

  /** The `uint32_t` stored at byte `off`. */
  function U32At(node: seq<byte>, off: nat): u32
    requires off + 4 <= |node|
  {
    DecodeU32(node[off..off + 4])
  }

  /** `get_node_type`: the tag in the node's first byte, if it names a type. */
  function GetNodeType(node: seq<byte>): Option<NodeType>
    requires |node| == PAGE_SIZE
  {
    NodeTypeOf(node[NODE_TYPE_OFFSET])
  }

  /** `is_node_root`: any non-zero root byte reads as true. */
  function IsNodeRoot(node: seq<byte>): bool
    requires |node| == PAGE_SIZE
  {
    node[IS_ROOT_OFFSET] != 0
  }

  /** `*leaf_node_num_cells(node)`. */
  function LeafNumCells(node: seq<byte>): u32
    requires |node| == PAGE_SIZE
  {
    U32At(node, LEAF_NODE_NUM_CELLS_OFFSET)
  }

  /** The offset `leaf_node_cell` computes: cells follow the leaf header back
      to back, and every cell below the maximum lies inside the page. */
  function LeafCellOffset(cell_num: nat): (off: nat)
    ensures off >= LEAF_NODE_HEADER_SIZE
    ensures cell_num < LEAF_NODE_MAX_CELLS ==> off + LEAF_NODE_CELL_SIZE <= PAGE_SIZE
  {
    LEAF_NODE_HEADER_SIZE + cell_num * LEAF_NODE_CELL_SIZE
  }

  /** The bytes of cell `cell_num`. */
  function LeafCell(node: seq<byte>, cell_num: nat): (cell: seq<byte>)
    requires |node| == PAGE_SIZE && cell_num < LEAF_NODE_MAX_CELLS
    ensures |cell| == LEAF_NODE_CELL_SIZE
  {
    node[LeafCellOffset(cell_num)..LeafCellOffset(cell_num) + LEAF_NODE_CELL_SIZE]
  }

  /** The key of a cell: its first four bytes. */
  function CellKey(cell: seq<byte>): u32
    requires |cell| == LEAF_NODE_CELL_SIZE
  {
    DecodeU32(cell[LEAF_NODE_KEY_OFFSET..LEAF_NODE_KEY_OFFSET + LEAF_NODE_KEY_SIZE])
  }

  /** The value of a cell: the serialised row after the key. */
  function CellValue(cell: seq<byte>): (value: seq<byte>)
    requires |cell| == LEAF_NODE_CELL_SIZE
    ensures |value| == ROW_SIZE
  {
    cell[LEAF_NODE_VALUE_OFFSET..]
  }

  /** `*leaf_node_key(node, cell_num)`. */
  function LeafKey(node: seq<byte>, cell_num: nat): u32
    requires |node| == PAGE_SIZE && cell_num < LEAF_NODE_MAX_CELLS
  {
    CellKey(LeafCell(node, cell_num))
  }

  /** The bytes `leaf_node_value(node, cell_num)` points at. */
  function LeafValue(node: seq<byte>, cell_num: nat): seq<byte>
    requires |node| == PAGE_SIZE && cell_num < LEAF_NODE_MAX_CELLS
  {
    CellValue(LeafCell(node, cell_num))
  }

  /** A cell's key is the `uint32_t` at the cell's start and its value the
      `ROW_SIZE` bytes after the key. */
  lemma LeafCellLayout(node: seq<byte>, i: nat)
    requires |node| == PAGE_SIZE && i < LEAF_NODE_MAX_CELLS
    ensures LeafKey(node, i) == U32At(node, LeafCellOffset(i))
    ensures LeafValue(node, i) == node[LeafCellOffset(i) + LEAF_NODE_KEY_SIZE..LeafCellOffset(i) + LEAF_NODE_CELL_SIZE]
  {
    var off := LeafCellOffset(i);
    assert LeafCell(node, i)[..LEAF_NODE_KEY_SIZE] == node[off..off + 4];
  }

  /** Cells lie in cell order and never overlap. */
  lemma LeafCellsDisjoint(i: nat, j: nat)
    requires i < j
    ensures LeafCellOffset(i) + LEAF_NODE_CELL_SIZE <= LeafCellOffset(j)
  { }

  /** The cell a key and a row make: the key, then the serialised row. */
  function CellBytes(key: u32, value: Row): (cell: seq<byte>)
    requires ValidRow(value)
    ensures |cell| == LEAF_NODE_CELL_SIZE
  {
    EncodeU32(key) + RowBytes(value)
  }

  /** A cell gives back the key and the row it was made from. */
  lemma CellRoundTrip(key: u32, value: Row)
    requires ValidRow(value)
    ensures CellKey(CellBytes(key, value)) == key
    ensures RowOf(CellValue(CellBytes(key, value))) == value
  {
    var cell := CellBytes(key, value);
    assert cell[..LEAF_NODE_KEY_SIZE] == EncodeU32(key);
    assert CellValue(cell) == RowBytes(value);
    RowRoundTrip(value);
  }

  /** Every cell of a sequence has the width of a leaf cell. */
  predicate WellFormedCells(cells: seq<seq<byte>>) {
    forall i :: 0 <= i < |cells| ==> |cells[i]| == LEAF_NODE_CELL_SIZE
  }

  /** The first `n` cells of a leaf, in cell order. */
  function LeafCells(node: seq<byte>, n: nat): (cells: seq<seq<byte>>)
    requires |node| == PAGE_SIZE && n <= LEAF_NODE_MAX_CELLS
    ensures |cells| == n && WellFormedCells(cells)
  {
    seq(n, i requires 0 <= i < n => LeafCell(node, i))
  }

  /** The keys of a sequence of cells. */
  function Keys(cells: seq<seq<byte>>): (keys: seq<u32>)
    requires WellFormedCells(cells)
    ensures |keys| == |cells|
  {
    seq(|cells|, i requires 0 <= i < |cells| => CellKey(cells[i]))
  }

  /** The keys of the first `n` cells of a leaf. */
  function LeafKeys(node: seq<byte>, n: nat): seq<u32>
    requires |node| == PAGE_SIZE && n <= LEAF_NODE_MAX_CELLS
  {
    Keys(LeafCells(node, n))
  }

  predicate StrictlySorted(keys: seq<u32>) {
    forall i, j :: 0 <= i < j < |keys| ==> keys[i] < keys[j]
  }

  /** `c` splits `keys` into the keys below `key` and the keys not below it. */
  predicate IsInsertionPoint(keys: seq<u32>, key: u32, c: nat) {
    c <= |keys|
    && (forall i :: 0 <= i < c ==> keys[i] < key)
    && (forall i :: c <= i < |keys| ==> key <= keys[i])
  }

  /** Among ascending keys, `key` is present exactly when its insertion point
      holds it. */
  lemma InsertionPointFindsKey(keys: seq<u32>, key: u32, c: nat)
    requires StrictlySorted(keys) && IsInsertionPoint(keys, key, c)
    ensures key in keys <==> c < |keys| && keys[c] == key
  {
    if key in keys {
      var i :| 0 <= i < |keys| && keys[i] == key;
      assert i >= c;
      assert c < |keys| ==> key <= keys[c];
      assert i <= c;
    }
  }

  /** `s` with `x` inserted before position `i`. */
  function InsertAt<T>(s: seq<T>, i: nat, x: T): seq<T>
    requires i <= |s|
  {
    s[..i] + [x] + s[i..]
  }

  /** Position by position, an insertion keeps the elements before `i`, puts
      `x` at `i`, and moves the rest up one. */
  lemma InsertAtIndex<T>(s: seq<T>, i: nat, x: T, j: nat)
    requires i <= |s| && j <= |s|
    ensures |InsertAt(s, i, x)| == |s| + 1
    ensures InsertAt(s, i, x)[j] == if j < i then s[j] else if j == i then x else s[j - 1]
  { }

  /** The keys of cells with one cell inserted are the old keys with that
      cell's key inserted at the same place. */
  lemma KeysOfInsert(cells: seq<seq<byte>>, c: nat, cell: seq<byte>)
    requires WellFormedCells(cells) && |cell| == LEAF_NODE_CELL_SIZE && c <= |cells|
    ensures WellFormedCells(InsertAt(cells, c, cell))
    ensures Keys(InsertAt(cells, c, cell)) == InsertAt(Keys(cells), c, CellKey(cell))
  {
    var ins := InsertAt(cells, c, cell);
    forall j | 0 <= j < |ins|
      ensures |ins[j]| == LEAF_NODE_CELL_SIZE
    {
      InsertAtIndex(cells, c, cell, j);
    }
    forall j | 0 <= j < |ins|
      ensures Keys(ins)[j] == InsertAt(Keys(cells), c, CellKey(cell))[j]
    {
      InsertAtIndex(cells, c, cell, j);
      InsertAtIndex(Keys(cells), c, CellKey(cell), j);
    }
  }

  /** A key absent from ascending keys, inserted at its insertion point,
      keeps them strictly ascending. */
  lemma {:induction false} InsertKeepsSorted(keys: seq<u32>, key: u32, c: nat)
    requires StrictlySorted(keys) && IsInsertionPoint(keys, key, c) && key !in keys
    ensures StrictlySorted(InsertAt(keys, c, key))
  {
    var ins := InsertAt(keys, c, key);
    forall i, j | 0 <= i < j < |ins|
      ensures ins[i] < ins[j]
    {
      InsertAtIndex(keys, c, key, i);
      InsertAtIndex(keys, c, key, j);
      if i < c && c < |keys| {
        assert key <= keys[c];
      }
      if i == c && j - 1 < |keys| {
        assert key != keys[j - 1];
      }
    }
  }

  /** `leaf_node_insert` at the cell `leaf_node_find` returned for an absent
      key keeps a leaf's keys strictly ascending. */
  lemma LeafInsertKeepsSorted(cells: seq<seq<byte>>, c: nat, key: u32, value: Row)
    requires WellFormedCells(cells) && ValidRow(value) && c <= |cells|
    requires StrictlySorted(Keys(cells)) && IsInsertionPoint(Keys(cells), key, c) && key !in Keys(cells)
    ensures WellFormedCells(InsertAt(cells, c, CellBytes(key, value)))
    ensures StrictlySorted(Keys(InsertAt(cells, c, CellBytes(key, value))))
  {
    KeysOfInsert(cells, c, CellBytes(key, value));
    CellRoundTrip(key, value);
    InsertKeepsSorted(Keys(cells), key, c);
  }

  // ------------------------------------------------------------------
  // Internal nodes

  /** `*internal_node_num_keys(node)`. */
  function InternalNumKeys(node: seq<byte>): u32
    requires |node| == PAGE_SIZE
  {
    U32At(node, INTERNAL_NODE_NUM_KEYS_OFFSET)
  }

  /** `*internal_node_right_child(node)`. */
  function InternalRightChild(node: seq<byte>): u32
    requires |node| == PAGE_SIZE
  {
    U32At(node, INTERNAL_NODE_RIGHT_CHILD_OFFSET)
  }

  /** The offset of internal cell `cell_num`; every cell below the maximum
      lies after the internal header and inside the page. */
  function InternalCellOffset(cell_num: nat): (off: nat)
    ensures off >= INTERNAL_NODE_HEADER_SIZE
    ensures cell_num < INTERNAL_NODE_MAX_CELLS ==> off + INTERNAL_NODE_CELL_SIZE <= PAGE_SIZE
  {
    INTERNAL_NODE_HEADER_SIZE + cell_num * INTERNAL_NODE_CELL_SIZE
  }

  /** `*internal_node_child(node, cell_num)`, for a child held in a cell. */
  function InternalChild(node: seq<byte>, cell_num: nat): u32
    requires |node| == PAGE_SIZE && cell_num < INTERNAL_NODE_MAX_CELLS
  {
    U32At(node, InternalCellOffset(cell_num))
  }

  /** `*internal_node_key(node, cell_num)`. */
  function InternalKey(node: seq<byte>, cell_num: nat): u32
    requires |node| == PAGE_SIZE && cell_num < INTERNAL_NODE_MAX_CELLS
  {
    U32At(node, InternalCellOffset(cell_num) + INTERNAL_NODE_CHILD_SIZE)
  }

  /** Whether `get_node_max_key` reads a cell of the node: a leaf with at
      least one cell, or an internal node with at least one key. */
  predicate HasMaxKey(node: seq<byte>)
    requires |node| == PAGE_SIZE
  {
    (GetNodeType(node) == Some(NodeLeaf) && 0 < LeafNumCells(node) <= LEAF_NODE_MAX_CELLS)
    || (GetNodeType(node) == Some(NodeInternal) && 0 < InternalNumKeys(node) <= INTERNAL_NODE_MAX_CELLS)
  }

  /** `get_node_max_key`: the key of the node's last cell. */
  function GetNodeMaxKey(node: seq<byte>): u32
    requires |node| == PAGE_SIZE && HasMaxKey(node)
  {
    if GetNodeType(node) == Some(NodeInternal) then InternalKey(node, InternalNumKeys(node) - 1)
    else LeafKey(node, LeafNumCells(node) - 1)
  }

  /** In a leaf whose keys ascend, the max key is one of its keys and no key
      exceeds it. */
  lemma LeafMaxKeyIsMaximum(node: seq<byte>)
    requires |node| == PAGE_SIZE && GetNodeType(node) == Some(NodeLeaf)
    requires 0 < LeafNumCells(node) <= LEAF_NODE_MAX_CELLS
    requires StrictlySorted(LeafKeys(node, LeafNumCells(node)))
    ensures HasMaxKey(node)
    ensures GetNodeMaxKey(node) in LeafKeys(node, LeafNumCells(node))
    ensures forall k :: k in LeafKeys(node, LeafNumCells(node)) ==> k <= GetNodeMaxKey(node)
  {
    var keys := LeafKeys(node, LeafNumCells(node));
    assert keys[|keys| - 1] == GetNodeMaxKey(node);
  }

  // ------------------------------------------------------------------
  // Writing a node

  /** A `uint32_t` store through a pointer at byte `off` of the node. */
  method SetU32(node: array<byte>, off: nat, v: u32)
    requires off + 4 <= node.Length
    modifies node
    ensures U32At(node[..], off) == v && node[off..off + 4] == EncodeU32(v)
    ensures forall k :: 0 <= k < node.Length && !(off <= k < off + 4) ==> node[k] == old(node[k])
  {
    Store(node, off, EncodeU32(v));
    assert node[..][off..off + 4] == node[off..off + 4];
  }

  /** `set_node_type`: the tag byte reads back as the type, and no other byte
      changes. */
  method SetNodeType(node: array<byte>, t: NodeType)
    requires node.Length == PAGE_SIZE
    modifies node
    ensures GetNodeType(node[..]) == Some(t)
    ensures node[..] == old(node[..])[NODE_TYPE_OFFSET := NodeTypeByte(t)]
  {
    node[NODE_TYPE_OFFSET] := NodeTypeByte(t);
    NodeTypeRoundTrip(t, 0);
  }

  /** `set_node_root`: the root flag reads back as given, and no other byte
      changes. */
  method SetNodeRoot(node: array<byte>, is_root: bool)
    requires node.Length == PAGE_SIZE
    modifies node
    ensures IsNodeRoot(node[..]) == is_root
    ensures node[..] == old(node[..])[IS_ROOT_OFFSET := if is_root then 1 else 0]
  {
    node[IS_ROOT_OFFSET] := if is_root then 1 else 0;
  }

  /** `initialize_leaf_node`: a leaf with no cells; only the tag and the cell
      count are written. */
  method InitializeLeafNode(node: array<byte>)
    requires node.Length == PAGE_SIZE
    modifies node
    ensures GetNodeType(node[..]) == Some(NodeLeaf) && LeafNumCells(node[..]) == 0
    ensures forall k :: 0 <= k < PAGE_SIZE ==>
              (k == NODE_TYPE_OFFSET || LEAF_NODE_NUM_CELLS_OFFSET <= k < LEAF_NODE_HEADER_SIZE || node[k] == old(node[k]))
  {
    SetNodeType(node, NodeLeaf);
    SetU32(node, LEAF_NODE_NUM_CELLS_OFFSET, 0);
  }

  /** `initialize_internal_node`: a non-root internal node with no keys; only
      the tag, the root flag and the key count are written. */
  method InitializeInternalNode(node: array<byte>)
    requires node.Length == PAGE_SIZE
    modifies node
    ensures GetNodeType(node[..]) == Some(NodeInternal) && !IsNodeRoot(node[..])
    ensures InternalNumKeys(node[..]) == 0
    ensures forall k :: 0 <= k < PAGE_SIZE ==>
              (k == NODE_TYPE_OFFSET || k == IS_ROOT_OFFSET
               || INTERNAL_NODE_NUM_KEYS_OFFSET <= k < INTERNAL_NODE_NUM_KEYS_OFFSET + 4 || node[k] == old(node[k]))
  {
    SetNodeType(node, NodeInternal);
    SetNodeRoot(node, false);
    SetU32(node, INTERNAL_NODE_NUM_KEYS_OFFSET, 0);
  }

  // ------------------------------------------------------------------
  // Search and in-place insertion

  /** The keys of a leaf are the keys its cells hold, in cell order. */
  lemma LeafKeyAt(node: seq<byte>, n: nat, i: nat)
    requires |node| == PAGE_SIZE && i < n <= LEAF_NODE_MAX_CELLS
    ensures LeafKeys(node, n)[i] == LeafKey(node, i) == U32At(node, LeafCellOffset(i))
  {
    LeafCellLayout(node, i);
  }

  /** A key the search meets between its bounds is at its insertion point. */
  lemma FoundIsInsertionPoint(keys: seq<u32>, key: u32, lo: nat, hi: nat, index: nat)
    requires StrictlySorted(keys) && lo <= index < hi <= |keys| && keys[index] == key
    requires forall i :: 0 <= i < lo ==> keys[i] < key
    requires forall i :: hi <= i < |keys| ==> key < keys[i]
    ensures IsInsertionPoint(keys, key, index)
  { }

  /** Narrowing the search to one side of a probed key keeps every key
      outside the bounds on its side of `key`. */
  lemma NarrowSearch(keys: seq<u32>, key: u32, index: nat)
    requires StrictlySorted(keys) && index < |keys|
    ensures key < keys[index] ==> forall i :: index <= i < |keys| ==> key < keys[i]
    ensures keys[index] < key ==> forall i :: 0 <= i <= index ==> keys[i] < key
  { }

  /** The binary search of `leaf_node_find` over the leaf's cells. When the
      keys ascend, the result is the insertion point of `key`, and so holds
      `key` exactly when `key` is in the leaf (`InsertionPointFindsKey`). */
  method LeafFindCell(node: array<byte>, key: u32) returns (cell_num: nat)
    requires node.Length == PAGE_SIZE && LeafNumCells(node[..]) <= LEAF_NODE_MAX_CELLS
    ensures cell_num <= LeafNumCells(node[..])
    ensures StrictlySorted(LeafKeys(node[..], LeafNumCells(node[..]))) ==>
              IsInsertionPoint(LeafKeys(node[..], LeafNumCells(node[..])), key, cell_num)
  {
    ghost var contents := node[..];
    ghost var keys := LeafKeys(contents, LeafNumCells(contents));
    ghost var sorted := StrictlySorted(keys);
    var num_cells := U32At(node[..], LEAF_NODE_NUM_CELLS_OFFSET);
    var min_index := 0;
    var one_past_max_index := num_cells;
    while one_past_max_index != min_index
      invariant 0 <= min_index <= one_past_max_index <= num_cells
      invariant sorted ==> forall i :: 0 <= i < min_index ==> keys[i] < key
      invariant sorted ==> forall i :: one_past_max_index <= i < num_cells ==> key < keys[i]
      decreases one_past_max_index - min_index
    {
      var index := (min_index + one_past_max_index) / 2;
      var key_at_index := U32At(node[..], LeafCellOffset(index));
      LeafKeyAt(contents, num_cells, index);
      if key == key_at_index {
        if sorted {
          FoundIsInsertionPoint(keys, key, min_index, one_past_max_index, index);
        }
        return index;
      }
      if sorted {
        NarrowSearch(keys, key, index);
      }
      if key < key_at_index {
        one_past_max_index := index;
      } else {
        min_index := index + 1;
      }
    }
    cell_num := min_index;
  }

  /** A write confined to bytes `[lo, hi)` leaves every cell outside that
      range as it was. */
  lemma CellOutsideWrite(a: seq<byte>, b: seq<byte>, lo: nat, hi: nat, j: nat)
    requires |a| == PAGE_SIZE && |b| == PAGE_SIZE && j < LEAF_NODE_MAX_CELLS
    requires forall k :: 0 <= k < PAGE_SIZE && !(lo <= k < hi) ==> b[k] == a[k]
    requires hi <= LeafCellOffset(j) || LeafCellOffset(j) + LEAF_NODE_CELL_SIZE <= lo
    ensures LeafCell(b, j) == LeafCell(a, j)
  {
    var off := LeafCellOffset(j);
    assert forall k :: 0 <= k < LEAF_NODE_CELL_SIZE ==> LeafCell(b, j)[k] == b[off + k] == a[off + k];
  }

  /** One step of the shift loop: once cell `i - 1` has been copied into
      cell `i`, cells `i .. num_cells` hold the original cells one slot down,
      and only bytes from cell `i` up to the old end have changed. */
  lemma ShiftStep(before: seq<byte>, step: seq<byte>, now: seq<byte>, i: nat, num_cells: nat)
    requires |before| == PAGE_SIZE && |step| == PAGE_SIZE && |now| == PAGE_SIZE
    requires 0 < i <= num_cells < LEAF_NODE_MAX_CELLS
    requires forall k :: 0 <= k < PAGE_SIZE ==>
               (LeafCellOffset(i + 1) <= k < LeafCellOffset(num_cells + 1) || step[k] == before[k])
    requires forall j :: i < j <= num_cells ==> LeafCell(step, j) == LeafCell(before, j - 1)
    requires now[LeafCellOffset(i)..LeafCellOffset(i) + LEAF_NODE_CELL_SIZE]
             == step[LeafCellOffset(i - 1)..LeafCellOffset(i - 1) + LEAF_NODE_CELL_SIZE]
    requires forall k :: 0 <= k < PAGE_SIZE ==> (LeafCellOffset(i) <= k < LeafCellOffset(i + 1) || now[k] == step[k])
    ensures forall k :: 0 <= k < PAGE_SIZE ==>
              (LeafCellOffset(i) <= k < LeafCellOffset(num_cells + 1) || now[k] == before[k])
    ensures forall j :: i - 1 < j <= num_cells ==> LeafCell(now, j) == LeafCell(before, j - 1)
  {
    CellOutsideWrite(before, step, LeafCellOffset(i + 1), LeafCellOffset(num_cells + 1), i - 1);
    forall j | i < j <= num_cells
      ensures LeafCell(now, j) == LeafCell(before, j - 1)
    {
      CellOutsideWrite(step, now, LeafCellOffset(i), LeafCellOffset(i + 1), j);
    }
  }

  /** The shift loop of `leaf_node_insert`: cells `from .. num_cells - 1`
      each move up one slot, the last first, and no other byte changes. */
  method ShiftCellsUp(node: array<byte>, from: nat, num_cells: nat)
    requires node.Length == PAGE_SIZE && from <= num_cells < LEAF_NODE_MAX_CELLS
    modifies node
    ensures forall j :: from < j <= num_cells ==> LeafCell(node[..], j) == LeafCell(old(node[..]), j - 1)
    ensures forall k :: 0 <= k < PAGE_SIZE ==>
              (LeafCellOffset(from + 1) <= k < LeafCellOffset(num_cells + 1) || node[k] == old(node[k]))
  {
    ghost var before := node[..];
    var i := num_cells;
    while i > from
      invariant from <= i <= num_cells
      invariant forall k :: 0 <= k < PAGE_SIZE ==>
                  (LeafCellOffset(i + 1) <= k < LeafCellOffset(num_cells + 1) || node[k] == before[k])
      invariant forall j :: i < j <= num_cells ==> LeafCell(node[..], j) == LeafCell(before, j - 1)
    {
      ghost var step := node[..];
      Memcpy(node, LeafCellOffset(i), node, LeafCellOffset(i - 1), LEAF_NODE_CELL_SIZE);
      ShiftStep(before, step, node[..], i, num_cells);
      i := i - 1;
    }
  }

  /** The writes that finish `leaf_node_insert`: the key, then the row, as
      cell `cell_num`; no other byte changes. */
  method WriteCell(node: array<byte>, cell_num: nat, key: u32, value: Row)
    requires node.Length == PAGE_SIZE && ValidRow(value) && cell_num < LEAF_NODE_MAX_CELLS
    modifies node
    ensures LeafCell(node[..], cell_num) == CellBytes(key, value)
    ensures forall k :: 0 <= k < PAGE_SIZE ==>
              (LeafCellOffset(cell_num) <= k < LeafCellOffset(cell_num + 1) || node[k] == old(node[k]))
  {
    var off := LeafCellOffset(cell_num);
    SetU32(node, off, key);
    ghost var keyed := node[..];
    SerializeRow(value, node, off + LEAF_NODE_KEY_SIZE);
    forall j | 0 <= j < LEAF_NODE_KEY_SIZE
      ensures node[off + j] == EncodeU32(key)[j]
    {
      assert node[off + j] == keyed[off + j];
    }
    assert node[off..off + LEAF_NODE_KEY_SIZE] == EncodeU32(key);
    assert LeafCell(node[..], cell_num) == node[off..off + LEAF_NODE_KEY_SIZE] + node[off + LEAF_NODE_KEY_SIZE..off + LEAF_NODE_CELL_SIZE];
  }

  /** The three stages of `leaf_node_insert` put together: after the shift,
      the count store and the cell write, the cells are the old cells with
      the new cell inserted. */
  lemma InsertAssembled(before: seq<byte>, shifted: seq<byte>, counted: seq<byte>, after: seq<byte>,
                        cell_num: nat, num_cells: nat, key: u32, value: Row)
    requires |before| == PAGE_SIZE && |shifted| == PAGE_SIZE && |counted| == PAGE_SIZE && |after| == PAGE_SIZE
    requires ValidRow(value) && cell_num <= num_cells < LEAF_NODE_MAX_CELLS
    requires forall j :: cell_num < j <= num_cells ==> LeafCell(shifted, j) == LeafCell(before, j - 1)
    requires forall k :: 0 <= k < PAGE_SIZE ==>
               (LeafCellOffset(cell_num + 1) <= k < LeafCellOffset(num_cells + 1) || shifted[k] == before[k])
    requires forall k :: 0 <= k < PAGE_SIZE ==>
               (LEAF_NODE_NUM_CELLS_OFFSET <= k < LEAF_NODE_HEADER_SIZE || counted[k] == shifted[k])
    requires LeafCell(after, cell_num) == CellBytes(key, value)
    requires forall k :: 0 <= k < PAGE_SIZE ==>
               (LeafCellOffset(cell_num) <= k < LeafCellOffset(cell_num + 1) || after[k] == counted[k])
    ensures LeafCells(after, num_cells + 1) == InsertAt(LeafCells(before, num_cells), cell_num, CellBytes(key, value))
  {
    var inserted := InsertAt(LeafCells(before, num_cells), cell_num, CellBytes(key, value));
    forall j | 0 <= j <= num_cells
      ensures LeafCell(after, j) == inserted[j]
    {
      if j < cell_num {
        CellOutsideWrite(before, shifted, LeafCellOffset(cell_num + 1), LeafCellOffset(num_cells + 1), j);
        CellOutsideWrite(shifted, counted, LEAF_NODE_NUM_CELLS_OFFSET, LEAF_NODE_HEADER_SIZE, j);
        CellOutsideWrite(counted, after, LeafCellOffset(cell_num), LeafCellOffset(cell_num + 1), j);
      } else if j > cell_num {
        CellOutsideWrite(shifted, counted, LEAF_NODE_NUM_CELLS_OFFSET, LEAF_NODE_HEADER_SIZE, j);
        CellOutsideWrite(counted, after, LeafCellOffset(cell_num), LeafCellOffset(cell_num + 1), j);
      }
    }
    assert LeafCells(after, num_cells + 1) == inserted;
  }

  /** The three writes of `leaf_node_insert` together touch only the cell
      count and the cells up to the new last one. */
  lemma InsertFrame(before: seq<byte>, shifted: seq<byte>, counted: seq<byte>, after: seq<byte>,
                    cell_num: nat, num_cells: nat)
    requires |before| == PAGE_SIZE && |shifted| == PAGE_SIZE && |counted| == PAGE_SIZE && |after| == PAGE_SIZE
    requires cell_num <= num_cells < LEAF_NODE_MAX_CELLS
    requires SameOutside(before, shifted, LeafCellOffset(cell_num + 1), LeafCellOffset(num_cells + 1))
    requires SameOutside(shifted, counted, LEAF_NODE_NUM_CELLS_OFFSET, LEAF_NODE_HEADER_SIZE)
    requires SameOutside(counted, after, LeafCellOffset(cell_num), LeafCellOffset(cell_num + 1))
    ensures SameOutside(before, after, LEAF_NODE_NUM_CELLS_OFFSET, LeafCellOffset(num_cells + 1))
  { }

  /** The non-full path of `leaf_node_insert`: the cells from `cell_num` on
      move up one slot, the count goes up by one, and the key and row are
      written as cell `cell_num`. The cells are the old cells with the new
      cell inserted at `cell_num`, and neither the common header nor any byte
      past the new last cell changes. */
  method LeafInsertInPlace(node: array<byte>, cell_num: nat, key: u32, value: Row)
    requires node.Length == PAGE_SIZE && ValidRow(value)
    requires LeafNumCells(node[..]) < LEAF_NODE_MAX_CELLS && cell_num <= LeafNumCells(node[..])
    modifies node
    ensures LeafNumCells(node[..]) == old(LeafNumCells(node[..])) + 1
    ensures LeafCells(node[..], LeafNumCells(node[..]))
            == InsertAt(old(LeafCells(node[..], LeafNumCells(node[..]))), cell_num, CellBytes(key, value))
    ensures forall k :: 0 <= k < PAGE_SIZE ==>
              (LEAF_NODE_NUM_CELLS_OFFSET <= k < LeafCellOffset(old(LeafNumCells(node[..])) + 1) || node[k] == old(node[k]))
  {
    ghost var before := node[..];
    var num_cells := U32At(node[..], LEAF_NODE_NUM_CELLS_OFFSET);
    if cell_num < num_cells {
      ShiftCellsUp(node, cell_num, num_cells);
    }
    ghost var shifted := node[..];
    SetU32(node, LEAF_NODE_NUM_CELLS_OFFSET, num_cells + 1);
    ghost var counted := node[..];
    WriteCell(node, cell_num, key, value);
    InsertAssembled(before, shifted, counted, node[..], cell_num, num_cells, key, value);
    InsertFrame(before, shifted, counted, node[..], cell_num, num_cells);
  }

  // ------------------------------------------------------------------
  // Splitting a full leaf

  /** The old page still holds the original cells `0 .. i`. */
  ghost predicate OldCellsIntact(o: seq<byte>, cells: seq<seq<byte>>, i: int)
    requires |o| == PAGE_SIZE && |cells| == LEAF_NODE_MAX_CELLS
  {
    forall j :: 0 <= j <= i && j < LEAF_NODE_MAX_CELLS ==> LeafCell(o, j) == cells[j]
  }

  /** Placed positions from `LEFT` on are in the new page. */
  ghost predicate RightPlaced(n: seq<byte>, all: seq<seq<byte>>, i: int)
    requires |n| == PAGE_SIZE && |all| == LEAF_NODE_MAX_CELLS + 1
  {
    forall j :: i < j <= LEAF_NODE_MAX_CELLS && LEAF_NODE_LEFT_SPLIT_COUNT <= j ==>
      LeafCell(n, j - LEAF_NODE_LEFT_SPLIT_COUNT) == all[j]
  }

  /** Placed positions below `LEFT` are in the old page. */
  ghost predicate LeftPlaced(o: seq<byte>, all: seq<seq<byte>>, i: int)
    requires |o| == PAGE_SIZE && |all| == LEAF_NODE_MAX_CELLS + 1
  {
    forall j :: 0 <= j && i < j < LEAF_NODE_LEFT_SPLIT_COUNT ==> LeafCell(o, j) == all[j]
  }

  /** Bytes of `b` outside `[lo, hi)` are those of `a`. */
  ghost predicate SameOutside(a: seq<byte>, b: seq<byte>, lo: int, hi: int)
    requires |a| == PAGE_SIZE && |b| == PAGE_SIZE
  {
    forall k :: 0 <= k < PAGE_SIZE ==> (lo <= k < hi || b[k] == a[k])
  }

  /** The loop invariant of the split once positions `i + 1 ..
      LEAF_NODE_MAX_CELLS` are placed; the old page has changed only in cells
      placed there, and the new page only past its header. */
  ghost predicate SplitInvariant(o0: seq<byte>, n0: seq<byte>, o: seq<byte>, n: seq<byte>,
                                 cells: seq<seq<byte>>, all: seq<seq<byte>>, i: int)
    requires |o0| == PAGE_SIZE && |n0| == PAGE_SIZE && |o| == PAGE_SIZE && |n| == PAGE_SIZE
    requires |cells| == LEAF_NODE_MAX_CELLS && |all| == LEAF_NODE_MAX_CELLS + 1
  {
    -1 <= i <= LEAF_NODE_MAX_CELLS
    && OldCellsIntact(o, cells, i)
    && RightPlaced(n, all, i)
    && LeftPlaced(o, all, i)
    && SameOutside(o0, o, LeafCellOffset(i + 1), LeafCellOffset(LEAF_NODE_LEFT_SPLIT_COUNT))
    && SameOutside(n0, n, LEAF_NODE_HEADER_SIZE, PAGE_SIZE)
  }

  /** A write confined to one cell keeps every other cell (pointwise form of
      `CellOutsideWrite` over a range of cells). */
  lemma OtherCellsKept(a: seq<byte>, b: seq<byte>, w: nat)
    requires |a| == PAGE_SIZE && |b| == PAGE_SIZE && w < LEAF_NODE_MAX_CELLS
    requires SameOutside(a, b, LeafCellOffset(w), LeafCellOffset(w + 1))
    ensures forall j :: 0 <= j < LEAF_NODE_MAX_CELLS && j != w ==> LeafCell(b, j) == LeafCell(a, j)
  {
    forall j | 0 <= j < LEAF_NODE_MAX_CELLS && j != w
      ensures LeafCell(b, j) == LeafCell(a, j)
    {
      CellOutsideWrite(a, b, LeafCellOffset(w), LeafCellOffset(w + 1), j);
    }
  }

  /** Placing position `i` in the new page (its cell written to slot
      `i - LEFT`, nothing else changed) carries the invariant to `i - 1`. */
  lemma SplitStepRight(o0: seq<byte>, n0: seq<byte>, o: seq<byte>, n: seq<byte>, n': seq<byte>,
                       cells: seq<seq<byte>>, all: seq<seq<byte>>, i: nat)
    requires |o0| == PAGE_SIZE && |n0| == PAGE_SIZE && |o| == PAGE_SIZE && |n| == PAGE_SIZE && |n'| == PAGE_SIZE
    requires |cells| == LEAF_NODE_MAX_CELLS && |all| == LEAF_NODE_MAX_CELLS + 1
    requires LEAF_NODE_LEFT_SPLIT_COUNT <= i <= LEAF_NODE_MAX_CELLS
    requires SplitInvariant(o0, n0, o, n, cells, all, i)
    requires LeafCell(n', i - LEAF_NODE_LEFT_SPLIT_COUNT) == all[i]
    requires SameOutside(n, n', LeafCellOffset(i - LEAF_NODE_LEFT_SPLIT_COUNT), LeafCellOffset(i - LEAF_NODE_LEFT_SPLIT_COUNT + 1))
    ensures SplitInvariant(o0, n0, o, n', cells, all, i - 1)
  {
    OtherCellsKept(n, n', i - LEAF_NODE_LEFT_SPLIT_COUNT);
    assert RightPlaced(n', all, i - 1);
  }

  /** Placing position `i` in the old page (its cell written to slot `i`,
      nothing else changed) carries the invariant to `i - 1`. */
  lemma SplitStepLeft(o0: seq<byte>, n0: seq<byte>, o: seq<byte>, n: seq<byte>, o': seq<byte>,
                      cells: seq<seq<byte>>, all: seq<seq<byte>>, i: nat)
    requires |o0| == PAGE_SIZE && |n0| == PAGE_SIZE && |o| == PAGE_SIZE && |n| == PAGE_SIZE && |o'| == PAGE_SIZE
    requires |cells| == LEAF_NODE_MAX_CELLS && |all| == LEAF_NODE_MAX_CELLS + 1
    requires i < LEAF_NODE_LEFT_SPLIT_COUNT
    requires SplitInvariant(o0, n0, o, n, cells, all, i)
    requires LeafCell(o', i) == all[i]
    requires SameOutside(o, o', LeafCellOffset(i), LeafCellOffset(i + 1))
    ensures SplitInvariant(o0, n0, o', n, cells, all, i - 1)
  {
    SplitCounts();
    OtherCellsKept(o, o', i);
    assert OldCellsIntact(o', cells, i - 1);
    assert LeftPlaced(o', all, i - 1);
  }

  /** The cell position `i` receives: the new cell at `cell_num`, an old
      cell moved up one slot after it, an old cell kept before it. */
  lemma SplitSource(o: seq<byte>, cells: seq<seq<byte>>, all: seq<seq<byte>>, i: nat, cell_num: nat, key: u32, value: Row)
    requires |o| == PAGE_SIZE && |cells| == LEAF_NODE_MAX_CELLS && ValidRow(value)
    requires i <= LEAF_NODE_MAX_CELLS && cell_num <= LEAF_NODE_MAX_CELLS
    requires all == InsertAt(cells, cell_num, CellBytes(key, value))
    requires OldCellsIntact(o, cells, i)
    ensures i == cell_num ==> all[i] == CellBytes(key, value)
    ensures i > cell_num ==> all[i] == LeafCell(o, i - 1)
    ensures i < cell_num ==> all[i] == LeafCell(o, i)
  {
    InsertAtIndex(cells, cell_num, CellBytes(key, value), i);
  }

  /** Cell `d` of `dst` holds what position `i` of the split receives from
      the old page `src`: the new cell at `cell_num`, old cell `i - 1` after
      it, old cell `i` before it. */
  ghost predicate CellFrom(dst: seq<byte>, d: nat, src: seq<byte>, i: nat, cell_num: nat, key: u32, value: Row)
    requires |dst| == PAGE_SIZE && |src| == PAGE_SIZE && ValidRow(value)
    requires d < LEAF_NODE_MAX_CELLS && i <= LEAF_NODE_MAX_CELLS && cell_num <= LEAF_NODE_MAX_CELLS
  {
    && (i == cell_num ==> LeafCell(dst, d) == CellBytes(key, value))
    && (i > cell_num ==> LeafCell(dst, d) == LeafCell(src, i - 1))
    && (i < cell_num ==> LeafCell(dst, d) == LeafCell(src, i))
  }

  /** The body of the split loop's `if`: cell `destination_index` of the
      destination page receives the new cell when `i` is the insertion
      position, otherwise old cell `i - 1` after it or old cell `i` before
      it; nothing else in the destination page changes. */
  method WriteSplitCell(destination_page: array<byte>, destination_index: nat, old_page: array<byte>,
                        i: nat, cell_num: nat, key: u32, value: Row)
    requires destination_page.Length == PAGE_SIZE && old_page.Length == PAGE_SIZE && ValidRow(value)
    requires destination_index < LEAF_NODE_MAX_CELLS && i <= LEAF_NODE_MAX_CELLS && cell_num <= LEAF_NODE_MAX_CELLS
    requires destination_page == old_page ==> destination_index == i
    modifies destination_page
    ensures CellFrom(destination_page[..], destination_index, old(old_page[..]), i, cell_num, key, value)
    ensures SameOutside(old(destination_page[..]), destination_page[..],
                        LeafCellOffset(destination_index), LeafCellOffset(destination_index + 1))
  {
    var destination_cell := LeafCellOffset(destination_index);
    if i == cell_num {
      WriteCell(destination_page, destination_index, key, value);
    } else if i > cell_num {
      Memcpy(destination_page, destination_cell, old_page, LeafCellOffset(i - 1), LEAF_NODE_CELL_SIZE);
    } else {
      Memcpy(destination_page, destination_cell, old_page, LeafCellOffset(i), LEAF_NODE_CELL_SIZE);
    }
  }

  /** One pass of the split loop: position `i`'s cell is written to the page
      and slot `i` belongs to. */
  method PlaceSplitCell(old_page: array<byte>, new_page: array<byte>, i: nat, cell_num: nat, key: u32, value: Row,
                        ghost o0: seq<byte>, ghost n0: seq<byte>, ghost cells: seq<seq<byte>>, ghost all: seq<seq<byte>>)
    requires old_page.Length == PAGE_SIZE && new_page.Length == PAGE_SIZE && old_page != new_page
    requires |o0| == PAGE_SIZE && |n0| == PAGE_SIZE
    requires ValidRow(value) && cell_num <= LEAF_NODE_MAX_CELLS && i <= LEAF_NODE_MAX_CELLS
    requires |cells| == LEAF_NODE_MAX_CELLS && all == InsertAt(cells, cell_num, CellBytes(key, value))
    requires SplitInvariant(o0, n0, old_page[..], new_page[..], cells, all, i)
    modifies old_page, new_page
    ensures SplitInvariant(o0, n0, old_page[..], new_page[..], cells, all, i - 1)
  {
    SplitCounts();
    ghost var o, n := old_page[..], new_page[..];
    var destination_page := if i >= LEAF_NODE_LEFT_SPLIT_COUNT then new_page else old_page;
    var cell_index_within_page := i % LEAF_NODE_LEFT_SPLIT_COUNT;
    WriteSplitCell(destination_page, cell_index_within_page, old_page, i, cell_num, key, value);
    SplitStep(o0, n0, o, n, old_page[..], new_page[..], cells, all, i, cell_num, key, value);
  }

  /** One pass of the split loop keeps its invariant: the cell written to
      the page and slot position `i` belongs to is `all[i]`, and no other
      byte changed. */
  lemma SplitStep(o0: seq<byte>, n0: seq<byte>, o: seq<byte>, n: seq<byte>, o': seq<byte>, n': seq<byte>,
                  cells: seq<seq<byte>>, all: seq<seq<byte>>, i: nat, cell_num: nat, key: u32, value: Row)
    requires |o0| == PAGE_SIZE && |n0| == PAGE_SIZE && |o| == PAGE_SIZE && |n| == PAGE_SIZE
    requires |o'| == PAGE_SIZE && |n'| == PAGE_SIZE
    requires ValidRow(value) && cell_num <= LEAF_NODE_MAX_CELLS && i <= LEAF_NODE_MAX_CELLS
    requires |cells| == LEAF_NODE_MAX_CELLS && all == InsertAt(cells, cell_num, CellBytes(key, value))
    requires SplitInvariant(o0, n0, o, n, cells, all, i)
    requires i >= LEAF_NODE_LEFT_SPLIT_COUNT ==>
               o' == o && CellFrom(n', i - LEAF_NODE_LEFT_SPLIT_COUNT, o, i, cell_num, key, value)
               && SameOutside(n, n', LeafCellOffset(i - LEAF_NODE_LEFT_SPLIT_COUNT),
                              LeafCellOffset(i - LEAF_NODE_LEFT_SPLIT_COUNT + 1))
    requires i < LEAF_NODE_LEFT_SPLIT_COUNT ==>
               n' == n && CellFrom(o', i, o, i, cell_num, key, value)
               && SameOutside(o, o', LeafCellOffset(i), LeafCellOffset(i + 1))
    ensures SplitInvariant(o0, n0, o', n', cells, all, i - 1)
  {
    SplitCounts();
    SplitSource(o, cells, all, i, cell_num, key, value);
    if i >= LEAF_NODE_LEFT_SPLIT_COUNT {
      SplitStepRight(o0, n0, o, n, n', cells, all, i);
    } else {
      SplitStepLeft(o0, n0, o, n, o', cells, all, i);
    }
  }

  /** The cell moves of `leaf_node_split_and_insert`. The new page becomes an
      empty leaf. Then, from the last of the `LEAF_NODE_MAX_CELLS + 1`
      positions down to the first, each position's cell (the new cell at
      `cell_num`, otherwise an old cell) is written into the old page for the
      first `LEFT` positions and into the new page for the rest. Last, both
      counts are set. The old page's `LEFT` cells followed by the new page's
      `RIGHT` cells are the old cells with the new cell inserted at
      `cell_num`. */
  method LeafSplitCells(old_page: array<byte>, new_page: array<byte>, cell_num: nat, key: u32, value: Row)
    requires old_page.Length == PAGE_SIZE && new_page.Length == PAGE_SIZE && old_page != new_page
    requires ValidRow(value) && cell_num <= LEAF_NODE_MAX_CELLS
    modifies old_page, new_page
    ensures LeafNumCells(old_page[..]) == LEAF_NODE_LEFT_SPLIT_COUNT
    ensures GetNodeType(new_page[..]) == Some(NodeLeaf) && LeafNumCells(new_page[..]) == LEAF_NODE_RIGHT_SPLIT_COUNT
    ensures LeafCells(old_page[..], LEAF_NODE_LEFT_SPLIT_COUNT) + LeafCells(new_page[..], LEAF_NODE_RIGHT_SPLIT_COUNT)
            == InsertAt(old(LeafCells(old_page[..], LEAF_NODE_MAX_CELLS)), cell_num, CellBytes(key, value))
    ensures forall k :: 0 <= k < PAGE_SIZE ==>
              (LEAF_NODE_NUM_CELLS_OFFSET <= k < LeafCellOffset(LEAF_NODE_LEFT_SPLIT_COUNT) || old_page[k] == old(old_page[k]))
    ensures forall k :: NODE_TYPE_OFFSET < k < LEAF_NODE_NUM_CELLS_OFFSET ==> new_page[k] == old(new_page[k])
  {
    ghost var cells := LeafCells(old_page[..], LEAF_NODE_MAX_CELLS);
    ghost var all := InsertAt(cells, cell_num, CellBytes(key, value));
    InitializeLeafNode(new_page);
    ghost var o0, n0 := old_page[..], new_page[..];
    var i: int := LEAF_NODE_MAX_CELLS;
    while i >= 0
      invariant SplitInvariant(o0, n0, old_page[..], new_page[..], cells, all, i)
    {
      PlaceSplitCell(old_page, new_page, i, cell_num, key, value, o0, n0, cells, all);
      i := i - 1;
    }
    SplitFinish(old_page, new_page, o0, n0, cells, all);
  }

  /** The count stores that end the split. */
  method SplitFinish(old_page: array<byte>, new_page: array<byte>,
                     ghost o0: seq<byte>, ghost n0: seq<byte>, ghost cells: seq<seq<byte>>, ghost all: seq<seq<byte>>)
    requires old_page.Length == PAGE_SIZE && new_page.Length == PAGE_SIZE && old_page != new_page
    requires |o0| == PAGE_SIZE && |n0| == PAGE_SIZE
    requires |cells| == LEAF_NODE_MAX_CELLS && |all| == LEAF_NODE_MAX_CELLS + 1
    requires SplitInvariant(o0, n0, old_page[..], new_page[..], cells, all, -1)
    modifies old_page, new_page
    ensures LeafNumCells(old_page[..]) == LEAF_NODE_LEFT_SPLIT_COUNT
    ensures LeafNumCells(new_page[..]) == LEAF_NODE_RIGHT_SPLIT_COUNT
    ensures LeafCells(old_page[..], LEAF_NODE_LEFT_SPLIT_COUNT) + LeafCells(new_page[..], LEAF_NODE_RIGHT_SPLIT_COUNT) == all
    ensures SameOutside(o0, old_page[..], LEAF_NODE_NUM_CELLS_OFFSET, LeafCellOffset(LEAF_NODE_LEFT_SPLIT_COUNT))
    ensures forall k :: 0 <= k < LEAF_NODE_NUM_CELLS_OFFSET ==> new_page[k] == n0[k]
  {
    SplitCounts();
    ghost var o1, n1 := old_page[..], new_page[..];
    SetU32(old_page, LEAF_NODE_NUM_CELLS_OFFSET, LEAF_NODE_LEFT_SPLIT_COUNT);
    SetU32(new_page, LEAF_NODE_NUM_CELLS_OFFSET, LEAF_NODE_RIGHT_SPLIT_COUNT);
    forall j | 0 <= j < LEAF_NODE_LEFT_SPLIT_COUNT
      ensures LeafCell(old_page[..], j) == all[j]
    {
      CellOutsideWrite(o1, old_page[..], LEAF_NODE_NUM_CELLS_OFFSET, LEAF_NODE_HEADER_SIZE, j);
    }
    forall j | 0 <= j < LEAF_NODE_RIGHT_SPLIT_COUNT
      ensures LeafCell(new_page[..], j) == all[j + LEAF_NODE_LEFT_SPLIT_COUNT]
    {
      CellOutsideWrite(n1, new_page[..], LEAF_NODE_NUM_CELLS_OFFSET, LEAF_NODE_HEADER_SIZE, j);
    }
    assert LeafCells(old_page[..], LEAF_NODE_LEFT_SPLIT_COUNT) + LeafCells(new_page[..], LEAF_NODE_RIGHT_SPLIT_COUNT) == all;
  }

  /** The cell the split writes at the insertion position as written: the
      row serialised at the cell's start and no key, so the cell's last four
      bytes keep what the page held there. Read as a cell, its key is the
      row's id and its value is the row shifted by the width of a key. */
  function SplitCellAsWritten(old_cell: seq<byte>, value: Row): (cell: seq<byte>)
    requires |old_cell| == LEAF_NODE_CELL_SIZE && ValidRow(value)
    ensures |cell| == LEAF_NODE_CELL_SIZE
    ensures CellKey(cell) == value.id
    ensures CellValue(cell) == RowBytes(value)[LEAF_NODE_KEY_SIZE..] + old_cell[ROW_SIZE..]
  {
    var cell := RowBytes(value) + old_cell[ROW_SIZE..];
    assert cell[..LEAF_NODE_KEY_SIZE] == EncodeU32(value.id);
    cell
  }

  /** A row with id 1 and empty strings, inserted with key 1 into a full
      leaf: the as-written cell reads back a row whose id is 0, while the
      cell `WriteCell` lays down reads back key 1 and the row itself. */
  lemma SplitCellAsWrittenLosesRow()
    ensures var value := Row(1, Zeros(USERNAME_SIZE), Zeros(EMAIL_SIZE));
            var cell := SplitCellAsWritten(Zeros(LEAF_NODE_CELL_SIZE), value);
            RowOf(CellValue(cell)).id == 0 && RowOf(CellValue(cell)) != value
            && CellKey(CellBytes(1, value)) == 1 && RowOf(CellValue(CellBytes(1, value))) == value
  {
    var value := Row(1, Zeros(USERNAME_SIZE), Zeros(EMAIL_SIZE));
    var cell := SplitCellAsWritten(Zeros(LEAF_NODE_CELL_SIZE), value);
    var v := CellValue(cell);
    assert v[ID_OFFSET..ID_OFFSET + ID_SIZE] == RowBytes(value)[LEAF_NODE_KEY_SIZE..LEAF_NODE_KEY_SIZE + ID_SIZE];
    assert RowBytes(value)[LEAF_NODE_KEY_SIZE..LEAF_NODE_KEY_SIZE + ID_SIZE] == Zeros(USERNAME_SIZE)[..4];
    assert DecodeU32(Zeros(USERNAME_SIZE)[..4]) == 0;
    CellRoundTrip(1, value);
  }

  /** The keys of both halves of a split, when all its cells ascend: the
      old page's last key is the largest in the old page and smaller than
      every key of the new page, so it separates the two halves. */
  lemma SplitSeparatorKey(o: seq<byte>, n: seq<byte>, all: seq<seq<byte>>)
    requires |o| == PAGE_SIZE && |n| == PAGE_SIZE
    requires GetNodeType(o) == Some(NodeLeaf)
    requires LeafNumCells(o) == LEAF_NODE_LEFT_SPLIT_COUNT && LeafNumCells(n) == LEAF_NODE_RIGHT_SPLIT_COUNT
    requires LeafCells(o, LEAF_NODE_LEFT_SPLIT_COUNT) + LeafCells(n, LEAF_NODE_RIGHT_SPLIT_COUNT) == all
    requires StrictlySorted(Keys(all))
    ensures HasMaxKey(o)
    ensures forall i :: 0 <= i < LEAF_NODE_LEFT_SPLIT_COUNT ==> LeafKey(o, i) <= GetNodeMaxKey(o)
    ensures forall i :: 0 <= i < LEAF_NODE_RIGHT_SPLIT_COUNT ==> GetNodeMaxKey(o) < LeafKey(n, i)
  {
    SplitCounts();
    var keys := Keys(all);
    assert GetNodeMaxKey(o) == keys[LEAF_NODE_LEFT_SPLIT_COUNT - 1];
    forall i | 0 <= i < LEAF_NODE_LEFT_SPLIT_COUNT
      ensures LeafKey(o, i) == keys[i]
    {
      assert all[i] == LeafCell(o, i);
    }
    forall i | 0 <= i < LEAF_NODE_RIGHT_SPLIT_COUNT
      ensures LeafKey(n, i) == keys[LEAF_NODE_LEFT_SPLIT_COUNT + i]
    {
      assert all[LEAF_NODE_LEFT_SPLIT_COUNT + i] == LeafCell(n, i);
    }
  }

  // ------------------------------------------------------------------
  // A new root

  /** A `uint32_t` field outside a write keeps its value. */
  lemma U32Kept(a: seq<byte>, b: seq<byte>, off: nat, lo: int, hi: int)
    requires |a| == PAGE_SIZE && |b| == PAGE_SIZE && off + 4 <= PAGE_SIZE
    requires SameOutside(a, b, lo, hi)
    requires off + 4 <= lo || hi <= off
    ensures U32At(b, off) == U32At(a, off)
  {
    assert b[off..off + 4] == a[off..off + 4];
  }

  /** Clearing or setting the root flag changes neither the node's type nor
      its max key. */
  lemma MaxKeyIgnoresRootFlag(node: seq<byte>, flag: byte)
    requires |node| == PAGE_SIZE && HasMaxKey(node)
    ensures HasMaxKey(node[IS_ROOT_OFFSET := flag])
    ensures GetNodeMaxKey(node[IS_ROOT_OFFSET := flag]) == GetNodeMaxKey(node)
  {
    var m := node[IS_ROOT_OFFSET := flag];
    assert SameOutside(node, m, IS_ROOT_OFFSET, IS_ROOT_OFFSET + 1);
    U32Kept(node, m, LEAF_NODE_NUM_CELLS_OFFSET, IS_ROOT_OFFSET, IS_ROOT_OFFSET + 1);
    if GetNodeType(node) == Some(NodeInternal) {
      U32Kept(node, m, InternalCellOffset(InternalNumKeys(node) - 1) + INTERNAL_NODE_CHILD_SIZE,
              IS_ROOT_OFFSET, IS_ROOT_OFFSET + 1);
    } else {
      LeafCellLayout(node, LeafNumCells(node) - 1);
      LeafCellLayout(m, LeafNumCells(node) - 1);
      U32Kept(node, m, LeafCellOffset(LeafNumCells(node) - 1), IS_ROOT_OFFSET, IS_ROOT_OFFSET + 1);
    }
  }

  /** The root page as `create_new_root` leaves it, given its bytes before
      the field stores. */
  ghost predicate NewRootFields(root: seq<byte>, left_child_page_number: u32, max_key: u32, right_child_page_number: u32)
    requires |root| == PAGE_SIZE
  {
    GetNodeType(root) == Some(NodeInternal) && IsNodeRoot(root)
    && InternalNumKeys(root) == 1
    && InternalChild(root, 0) == left_child_page_number
    && InternalKey(root, 0) == max_key
    && InternalRightChild(root) == right_child_page_number
  }

  /** The stores of `create_new_root` into the root page, from
      `initialize_internal_node` on: an internal root whose one key is
      `max_key`, with the given left and right children. Only the tag, the
      root flag, the key count, the right child and the first cell change. */
  method WriteNewRoot(root: array<byte>, left_child_page_number: u32, max_key: u32, right_child_page_number: u32)
    requires root.Length == PAGE_SIZE
    modifies root
    ensures NewRootFields(root[..], left_child_page_number, max_key, right_child_page_number)
    ensures SameOutside(old(root[..]), root[..], NODE_TYPE_OFFSET, InternalCellOffset(1))
  {
    InitializeInternalNode(root);
    SetNodeRoot(root, true);
    ghost var r0 := root[..];
    SetU32(root, INTERNAL_NODE_NUM_KEYS_OFFSET, 1);
    ghost var r1 := root[..];
    SetU32(root, InternalCellOffset(0), left_child_page_number);
    ghost var r2 := root[..];
    SetU32(root, InternalCellOffset(0) + INTERNAL_NODE_CHILD_SIZE, max_key);
    ghost var r3 := root[..];
    SetU32(root, INTERNAL_NODE_RIGHT_CHILD_OFFSET, right_child_page_number);
    ghost var r4 := root[..];
    var child_cell := InternalCellOffset(0);
    U32Kept(r1, r2, INTERNAL_NODE_NUM_KEYS_OFFSET, child_cell, child_cell + 4);
    U32Kept(r2, r3, INTERNAL_NODE_NUM_KEYS_OFFSET, child_cell + 4, child_cell + 8);
    U32Kept(r3, r4, INTERNAL_NODE_NUM_KEYS_OFFSET, INTERNAL_NODE_RIGHT_CHILD_OFFSET, INTERNAL_NODE_RIGHT_CHILD_OFFSET + 4);
    U32Kept(r2, r3, child_cell, child_cell + 4, child_cell + 8);
    U32Kept(r3, r4, child_cell, INTERNAL_NODE_RIGHT_CHILD_OFFSET, INTERNAL_NODE_RIGHT_CHILD_OFFSET + 4);
    U32Kept(r3, r4, child_cell + 4, INTERNAL_NODE_RIGHT_CHILD_OFFSET, INTERNAL_NODE_RIGHT_CHILD_OFFSET + 4);
  }

  /** `create_new_root` on the two buffers it writes: the root page is copied
      whole into the left child's page, which is then marked non-root; the
      root page becomes an internal root with one key, the left child's max
      key, between the left child and the right child. */
  method InstallNewRoot(root: array<byte>, left_child: array<byte>, left_child_page_number: u32, right_child_page_number: u32)
    requires root.Length == PAGE_SIZE && left_child.Length == PAGE_SIZE && root != left_child
    requires HasMaxKey(root[..])
    modifies root, left_child
    ensures left_child[..] == old(root[..])[IS_ROOT_OFFSET := 0]
    ensures NewRootFields(root[..], left_child_page_number, GetNodeMaxKey(old(root[..])), right_child_page_number)
    ensures SameOutside(old(root[..]), root[..], NODE_TYPE_OFFSET, InternalCellOffset(1))
  {
    ghost var before := root[..];
    Memcpy(left_child, 0, root, 0, PAGE_SIZE);
    assert left_child[..] == before;
    SetNodeRoot(left_child, false);
    MaxKeyIgnoresRootFlag(before, 0);
    var left_child_max_key := GetNodeMaxKey(left_child[..]);
    WriteNewRoot(root, left_child_page_number, left_child_max_key, right_child_page_number);
  }

  // ------------------------------------------------------------------
  // Operations on the table's pages

  /** Why a B-tree operation stops: the pager's fatal bound check, or the
      split of a non-root leaf, whose parent update the code does not have. */
  datatype BTreeError = PagerFailure(failure: PagerError) | ParentUpdateNotImplemented

  /** A snapshot of every page of the cache is a sequence of whole pages. */
  ghost predicate WholePages(views: seq<seq<byte>>) {
    |views| == TABLE_MAX_PAGES && forall m :: 0 <= m < TABLE_MAX_PAGES ==> |views[m]| == PAGE_SIZE
  }

  /** Setting the root flag leaves a node's type, cell count and cells as
      they were. */
  lemma RootFlagOnly(node: seq<byte>, flag: byte, n: nat)
    requires |node| == PAGE_SIZE && n <= LEAF_NODE_MAX_CELLS
    ensures GetNodeType(node[IS_ROOT_OFFSET := flag]) == GetNodeType(node)
    ensures LeafNumCells(node[IS_ROOT_OFFSET := flag]) == LeafNumCells(node)
    ensures LeafCells(node[IS_ROOT_OFFSET := flag], n) == LeafCells(node, n)
  {
    var m := node[IS_ROOT_OFFSET := flag];
    assert SameOutside(node, m, IS_ROOT_OFFSET, IS_ROOT_OFFSET + 1);
    U32Kept(node, m, LEAF_NODE_NUM_CELLS_OFFSET, IS_ROOT_OFFSET, IS_ROOT_OFFSET + 1);
    forall j | 0 <= j < n
      ensures LeafCell(m, j) == LeafCell(node, j)
    {
      CellOutsideWrite(node, m, IS_ROOT_OFFSET, IS_ROOT_OFFSET + 1, j);
    }
  }

  /** The outcome of `leaf_node_insert` on a leaf with room: page `p` holds
      its old cells with the new cell inserted at `c`, one more cell, the same
      common header, and every other page is as it was. */
  ghost predicate InsertedInPlace(before: seq<seq<byte>>, after: seq<seq<byte>>, p: nat, c: nat, key: u32, value: Row)
    requires WholePages(before) && WholePages(after) && ValidRow(value)
  {
    p < TABLE_MAX_PAGES
    && LeafNumCells(before[p]) < LEAF_NODE_MAX_CELLS && c <= LeafNumCells(before[p])
    && LeafNumCells(after[p]) == LeafNumCells(before[p]) + 1
    && LeafCells(after[p], LeafNumCells(after[p]))
       == InsertAt(LeafCells(before[p], LeafNumCells(before[p])), c, CellBytes(key, value))
    && after[p][..LEAF_NODE_NUM_CELLS_OFFSET] == before[p][..LEAF_NODE_NUM_CELLS_OFFSET]
    && (forall m :: 0 <= m < TABLE_MAX_PAGES && m != p ==> after[m] == before[m])
  }

  /** The outcome of splitting the full root leaf `p` into a new root: the
      fresh page `right` and the page `left` (a copy of the root, no longer
      marked root) hold the old cells with the new cell inserted at `c`, the
      first `LEFT` in `left`; page `p` is now an internal root with the one
      key `left`'s max key between `left` and `right`; every other page is
      as it was. */
  ghost predicate SplitIntoNewRoot(before: seq<seq<byte>>, after: seq<seq<byte>>, p: nat, right: nat, left: nat,
                                   c: nat, key: u32, value: Row)
    requires WholePages(before) && WholePages(after) && ValidRow(value)
  {
    p < TABLE_MAX_PAGES && right < TABLE_MAX_PAGES && left < TABLE_MAX_PAGES
    && p != right && p != left && right != left && c <= LEAF_NODE_MAX_CELLS
    && GetNodeType(after[left]) == Some(NodeLeaf) && !IsNodeRoot(after[left])
    && LeafNumCells(after[left]) == LEAF_NODE_LEFT_SPLIT_COUNT
    && GetNodeType(after[right]) == Some(NodeLeaf) && LeafNumCells(after[right]) == LEAF_NODE_RIGHT_SPLIT_COUNT
    && LeafCells(after[left], LEAF_NODE_LEFT_SPLIT_COUNT) + LeafCells(after[right], LEAF_NODE_RIGHT_SPLIT_COUNT)
       == InsertAt(LeafCells(before[p], LEAF_NODE_MAX_CELLS), c, CellBytes(key, value))
    && HasMaxKey(after[left])
    && NewRootFields(after[p], left, GetNodeMaxKey(after[left]), right)
    && (forall m :: 0 <= m < TABLE_MAX_PAGES && m != p && m != left && m != right ==> after[m] == before[m])
  }

  /** Inserting at the insertion point of an absent key keeps the leaf's
      keys strictly ascending. */
  lemma InsertedInPlaceKeepsSorted(before: seq<seq<byte>>, after: seq<seq<byte>>, p: nat, c: nat, key: u32, value: Row)
    requires WholePages(before) && WholePages(after) && ValidRow(value)
    requires InsertedInPlace(before, after, p, c, key, value)
    requires var keys := LeafKeys(before[p], LeafNumCells(before[p]));
             StrictlySorted(keys) && IsInsertionPoint(keys, key, c) && key !in keys
    ensures StrictlySorted(LeafKeys(after[p], LeafNumCells(after[p])))
  {
    LeafInsertKeepsSorted(LeafCells(before[p], LeafNumCells(before[p])), c, key, value);
  }

  /** After a root split at the insertion point of an absent key, both
      children ascend and the root's key separates them: no key of the left
      child exceeds it, and every key of the right child exceeds it. */
  lemma NewRootSeparatesChildren(before: seq<seq<byte>>, after: seq<seq<byte>>, p: nat, right: nat, left: nat,
                                 c: nat, key: u32, value: Row)
    requires WholePages(before) && WholePages(after) && ValidRow(value)
    requires SplitIntoNewRoot(before, after, p, right, left, c, key, value)
    requires var keys := LeafKeys(before[p], LEAF_NODE_MAX_CELLS);
             StrictlySorted(keys) && IsInsertionPoint(keys, key, c) && key !in keys
    ensures forall i :: 0 <= i < LEAF_NODE_LEFT_SPLIT_COUNT ==> LeafKey(after[left], i) <= InternalKey(after[p], 0)
    ensures forall i :: 0 <= i < LEAF_NODE_RIGHT_SPLIT_COUNT ==> InternalKey(after[p], 0) < LeafKey(after[right], i)
  {
    var all := InsertAt(LeafCells(before[p], LEAF_NODE_MAX_CELLS), c, CellBytes(key, value));
    LeafInsertKeepsSorted(LeafCells(before[p], LEAF_NODE_MAX_CELLS), c, key, value);
    SplitSeparatorKey(after[left], after[right], all);
  }

  /** `leaf_node_find`: loads page `page_number` and binary-searches its
      cells for `key`. The cursor's cell is at most the cell count and, when
      the keys ascend, is the insertion point of `key`; no page's view
      changes. `end_of_table` is left false. */
  method LeafNodeFind(table: Table, page_number: nat, key: u32) returns (r: Result<Cursor, PagerError>)
    requires table.Valid()
    requires page_number < TABLE_MAX_PAGES ==> LeafNumCells(table.pager.PageView(page_number)) <= LEAF_NODE_MAX_CELLS
    modifies table.pager, table.pager.pages
    ensures table.Valid() && table.pager.pages == old(table.pager.pages) && table.pager.file == old(table.pager.file)
    ensures table.pager.Views() == old(table.pager.Views())
    ensures r.Err? <==> page_number >= TABLE_MAX_PAGES
    ensures r.Err? ==> r.error == PageOutOfBounds
    ensures r.Ok? ==> r.value.table == table && r.value.page_number == page_number && !r.value.end_of_table
    ensures r.Ok? ==>
              var node := table.pager.PageView(page_number);
              var keys := LeafKeys(node, LeafNumCells(node));
              r.value.cell_number <= LeafNumCells(node)
              && (StrictlySorted(keys) ==> IsInsertionPoint(keys, key, r.value.cell_number))
  {
    var got := table.pager.GetPage(page_number);
    if got.Err? {
      return Err(got.error);
    }
    var cell_number := LeafFindCell(got.value, key);
    r := Ok(Cursor(table, page_number, cell_number, false));
  }

  /** The three page loads of `create_new_root`: the root page, the right
      child's page, and the page at the unused page number, which becomes
      the left child. Loading changes no page's view. */
  method LoadNewRootPages(pager: Pager, root_page_number: nat, right_child_page_number: nat)
    returns (r: Result<(array<byte>, array<byte>, nat), PagerError>)
    requires pager.Valid()
    modifies pager, pager.pages
    ensures pager.Valid() && pager.pages == old(pager.pages) && pager.file == old(pager.file)
    ensures pager.Views() == old(pager.Views())
    ensures r.Err? ==> r.error == PageOutOfBounds
    ensures r.Ok? <==>
              root_page_number < TABLE_MAX_PAGES && right_child_page_number < TABLE_MAX_PAGES
              && PageCountAfter(PageCountAfter(old(pager.page_count), root_page_number), right_child_page_number)
                 < TABLE_MAX_PAGES
    ensures r.Ok? ==>
              var (root, left_child, left_child_page_number) := r.value;
              root_page_number < TABLE_MAX_PAGES && right_child_page_number < TABLE_MAX_PAGES
              && left_child_page_number < TABLE_MAX_PAGES
              && left_child_page_number != root_page_number && left_child_page_number != right_child_page_number
              && old(pager.pages[left_child_page_number]) == null
              && root == pager.pages[root_page_number] && left_child == pager.pages[left_child_page_number]
              && (root in old(pager.Cached()) || fresh(root)) && fresh(left_child)
  {
    var got_root := pager.GetPage(root_page_number);
    if got_root.Err? {
      return Err(got_root.error);
    }
    var got_right := pager.GetPage(right_child_page_number);
    if got_right.Err? {
      return Err(got_right.error);
    }
    var left_child_page_number := pager.GetUnusedPageNumber();
    var got_left := pager.GetPage(left_child_page_number);
    if got_left.Err? {
      return Err(got_left.error);
    }
    r := Ok((got_root.value, got_left.value, left_child_page_number));
  }

  /** `create_new_root`: loads the root page and the right child's page,
      takes the unused page number for the left child and loads it, then
      copies the root into the left child and rewrites the root as an
      internal root over the two. The table's root page number does not
      change. */
  method CreateNewRoot(table: Table, right_child_page_number: nat) returns (r: Outcome<BTreeError>, ghost left_child_page_number: nat)
    requires table.Valid()
    requires table.root_page_number < TABLE_MAX_PAGES ==> HasMaxKey(table.pager.PageView(table.root_page_number))
    modifies table.pager, table.pager.pages, table.pager.Cached()
    ensures table.Valid() && table.pager.pages == old(table.pager.pages) && table.pager.file == old(table.pager.file)
    ensures table.root_page_number == old(table.root_page_number)
    ensures r.Fail? ==> r.error == PagerFailure(PageOutOfBounds) && table.pager.Views() == old(table.pager.Views())
    ensures r.Pass? <==>
              table.root_page_number < TABLE_MAX_PAGES && right_child_page_number < TABLE_MAX_PAGES
              && PageCountAfter(PageCountAfter(old(table.pager.page_count), table.root_page_number),
                                right_child_page_number) < TABLE_MAX_PAGES
    ensures r.Pass? ==>
              var root := table.root_page_number;
              var before, after := old(table.pager.Views()), table.pager.Views();
              root < TABLE_MAX_PAGES && right_child_page_number < TABLE_MAX_PAGES && left_child_page_number < TABLE_MAX_PAGES
              && left_child_page_number != root && left_child_page_number != right_child_page_number
              && old(table.pager.pages[left_child_page_number]) == null
              && after[left_child_page_number] == before[root][IS_ROOT_OFFSET := 0]
              && NewRootFields(after[root], left_child_page_number, GetNodeMaxKey(before[root]), right_child_page_number)
              && (forall m :: 0 <= m < TABLE_MAX_PAGES && m != root && m != left_child_page_number ==> after[m] == before[m])
  {
    var pager := table.pager;
    ghost var v0 := pager.Views();
    var loaded := LoadNewRootPages(pager, table.root_page_number, right_child_page_number);
    if loaded.Err? {
      return Fail(PagerFailure(loaded.error)), 0;
    }
    var (root, left_child, left_number) := loaded.value;
    left_child_page_number := left_number;
    assert root[..] == v0[table.root_page_number];
    InstallNewRoot(root, left_child, left_number, right_child_page_number);
    r := Pass;
  }

  /** The outcome of `leaf_node_split_and_insert` on page `p`, with the
      pager's watermark at `page_count` before the call. The split takes the
      unused page after `p` for the new leaf and, for a root, the next one
      for the left child, so it succeeds exactly for a root leaf with room
      for those two pages below `TABLE_MAX_PAGES`, and then has made a new
      root over two leaves. A leaf that is not the root fails as not
      implemented once its new page is in range; every other failure is a
      page out of range. */
  ghost predicate SplitOutcome(before: seq<seq<byte>>, after: seq<seq<byte>>, page_count: nat, p: nat, c: nat,
                               key: u32, value: Row, r: Outcome<BTreeError>)
    requires WholePages(before) && WholePages(after) && ValidRow(value) && p < TABLE_MAX_PAGES
  {
    (r.Pass? <==> IsNodeRoot(before[p]) && PageCountAfter(page_count, p) + 1 < TABLE_MAX_PAGES)
    && (r.Fail? ==> r.error == ParentUpdateNotImplemented || r.error == PagerFailure(PageOutOfBounds))
    && (r == Fail(ParentUpdateNotImplemented) <==>
          !IsNodeRoot(before[p]) && PageCountAfter(page_count, p) < TABLE_MAX_PAGES)
    && (r.Pass? ==> exists right: nat, left: nat :: SplitIntoNewRoot(before, after, p, right, left, c, key, value))
  }

  /** The page loads of `leaf_node_split_and_insert`: the leaf's page, then
      the page at the unused page number, which becomes the new leaf.
      Loading changes no page's view. */
  method LoadSplitPages(pager: Pager, page_number: nat) returns (r: Result<(array<byte>, array<byte>, nat), PagerError>)
    requires pager.Valid()
    modifies pager, pager.pages
    ensures pager.Valid() && pager.pages == old(pager.pages) && pager.file == old(pager.file)
    ensures pager.Views() == old(pager.Views())
    ensures forall a :: a in pager.Cached() ==> a in old(pager.Cached()) || fresh(a)
    ensures r.Err? ==> r.error == PageOutOfBounds
    ensures r.Ok? <==>
              page_number < TABLE_MAX_PAGES && PageCountAfter(old(pager.page_count), page_number) < TABLE_MAX_PAGES
    ensures r.Ok? ==>
              r.value.2 == PageCountAfter(old(pager.page_count), page_number) && pager.page_count == r.value.2 + 1
    ensures r.Ok? ==>
              var (old_page, new_page, new_page_number) := r.value;
              page_number < TABLE_MAX_PAGES && new_page_number < TABLE_MAX_PAGES && new_page_number != page_number
              && old(pager.pages[new_page_number]) == null
              && old_page == pager.pages[page_number] && new_page == pager.pages[new_page_number]
              && (old_page in old(pager.Cached()) || fresh(old_page)) && fresh(new_page)
  {
    var got_old := pager.GetPage(page_number);
    if got_old.Err? {
      return Err(got_old.error);
    }
    var new_page_number := pager.GetUnusedPageNumber();
    var got_new := pager.GetPage(new_page_number);
    if got_new.Err? {
      return Err(got_new.error);
    }
    r := Ok((got_old.value, got_new.value, new_page_number));
  }

  /** The pages right after the cells of a full leaf `p` have been divided
      between it and the fresh page `right`, before any root is made. */
  ghost predicate SplitHalves(before: seq<seq<byte>>, after: seq<seq<byte>>, p: nat, right: nat,
                              c: nat, key: u32, value: Row)
    requires WholePages(before) && WholePages(after) && ValidRow(value)
  {
    p < TABLE_MAX_PAGES && right < TABLE_MAX_PAGES && p != right && c <= LEAF_NODE_MAX_CELLS
    && GetNodeType(after[p]) == GetNodeType(before[p]) && IsNodeRoot(after[p]) == IsNodeRoot(before[p])
    && LeafNumCells(after[p]) == LEAF_NODE_LEFT_SPLIT_COUNT
    && GetNodeType(after[right]) == Some(NodeLeaf) && LeafNumCells(after[right]) == LEAF_NODE_RIGHT_SPLIT_COUNT
    && LeafCells(after[p], LEAF_NODE_LEFT_SPLIT_COUNT) + LeafCells(after[right], LEAF_NODE_RIGHT_SPLIT_COUNT)
       == InsertAt(LeafCells(before[p], LEAF_NODE_MAX_CELLS), c, CellBytes(key, value))
    && (forall m :: 0 <= m < TABLE_MAX_PAGES && m != p && m != right ==> after[m] == before[m])
  }

  /** The cell moves and count stores of `leaf_node_split_and_insert` on
      the two loaded pages, seen through the cache: the old page keeps its
      type and root flag and gets the first `LEFT` cells, the new page is a
      leaf with the rest, and no other page changes. */
  method SplitLoadedLeaf(pager: Pager, page_number: nat, new_page_number: nat, old_page: array<byte>, new_page: array<byte>,
                         cell_num: nat, key: u32, value: Row)
    requires pager.Valid() && page_number < TABLE_MAX_PAGES && new_page_number < TABLE_MAX_PAGES
    requires page_number != new_page_number
    requires old_page == pager.pages[page_number] && new_page == pager.pages[new_page_number]
    requires ValidRow(value) && cell_num <= LEAF_NODE_MAX_CELLS
    modifies old_page, new_page
    ensures SplitHalves(old(pager.Views()), pager.Views(), page_number, new_page_number, cell_num, key, value)
  {
    ghost var v0 := pager.Views();
    assert old_page[..] == v0[page_number];
    LeafSplitCells(old_page, new_page, cell_num, key, value);
    assert old_page[0] == v0[page_number][0] && old_page[1] == v0[page_number][1];
  }

  /** The two halves of a split and the new root put together. */
  lemma SplitRootAssembled(v0: seq<seq<byte>>, v2: seq<seq<byte>>, v3: seq<seq<byte>>, p: nat, right: nat, left: nat,
                           c: nat, key: u32, value: Row)
    requires WholePages(v0) && WholePages(v2) && WholePages(v3) && ValidRow(value)
    requires SplitHalves(v0, v2, p, right, c, key, value) && GetNodeType(v0[p]) == Some(NodeLeaf)
    requires left < TABLE_MAX_PAGES && left != p && left != right
    requires HasMaxKey(v2[p])
    requires v3[left] == v2[p][IS_ROOT_OFFSET := 0]
    requires NewRootFields(v3[p], left, GetNodeMaxKey(v2[p]), right)
    requires forall m :: 0 <= m < TABLE_MAX_PAGES && m != p && m != left ==> v3[m] == v2[m]
    ensures SplitIntoNewRoot(v0, v3, p, right, left, c, key, value)
  {
    SplitCounts();
    RootFlagOnly(v2[p], 0, LEAF_NODE_LEFT_SPLIT_COUNT);
    MaxKeyIgnoresRootFlag(v2[p], 0);
  }

  /** The end of `leaf_node_split_and_insert`: once the cells are divided,
      a split root gets a new internal root above the two halves; a split
      non-root leaf would need its parent updated, which the source leaves
      unimplemented. */
  method SplitIntoParent(table: Table, page_number: nat, old_page: array<byte>, new_page_number: nat,
                         cell_num: nat, key: u32, value: Row, ghost v0: seq<seq<byte>>, ghost page_count: nat)
    returns (r: Outcome<BTreeError>)
    requires table.Valid() && WholePages(v0) && ValidRow(value)
    requires new_page_number == PageCountAfter(page_count, page_number) && table.pager.page_count == new_page_number + 1
    requires page_number < TABLE_MAX_PAGES && old_page == table.pager.pages[page_number]
    requires SplitHalves(v0, table.pager.Views(), page_number, new_page_number, cell_num, key, value)
    requires GetNodeType(v0[page_number]) == Some(NodeLeaf)
    requires IsNodeRoot(v0[page_number]) ==> page_number == table.root_page_number
    modifies table.pager, table.pager.pages, table.pager.Cached()
    ensures table.Valid() && table.pager.pages == old(table.pager.pages) && table.pager.file == old(table.pager.file)
    ensures table.root_page_number == old(table.root_page_number)
    ensures SplitOutcome(v0, table.pager.Views(), page_count, page_number, cell_num, key, value, r)
  {
    ghost var v2 := table.pager.Views();
    if IsNodeRoot(old_page[..]) {
      SplitCounts();
      ghost var left: nat;
      r, left := CreateNewRoot(table, new_page_number);
      if r.Pass? {
        SplitRootAssembled(v0, v2, table.pager.Views(), page_number, new_page_number, left,
                           cell_num, key, value);
      }
    } else {
      r := Fail(ParentUpdateNotImplemented);
    }
  }

  /** `leaf_node_split_and_insert`: loads the full leaf and a new page,
      shares the leaf's cells and the new cell between them, then, for a
      root leaf, makes a new root over the two; splitting a leaf that is not
      the root is fatal. */
  method LeafNodeSplitAndInsert(cursor: Cursor, key: u32, value: Row) returns (r: Outcome<BTreeError>)
    requires cursor.table.Valid() && ValidRow(value) && cursor.cell_number <= LEAF_NODE_MAX_CELLS
    requires cursor.page_number < TABLE_MAX_PAGES ==>
               var node := cursor.table.pager.PageView(cursor.page_number);
               GetNodeType(node) == Some(NodeLeaf)
               && (IsNodeRoot(node) ==> cursor.page_number == cursor.table.root_page_number)
    modifies cursor.table.pager, cursor.table.pager.pages, cursor.table.pager.Cached()
    ensures cursor.table.Valid() && cursor.table.pager.pages == old(cursor.table.pager.pages)
    ensures cursor.table.pager.file == old(cursor.table.pager.file)
    ensures cursor.table.root_page_number == old(cursor.table.root_page_number)
    ensures cursor.page_number >= TABLE_MAX_PAGES ==>
              r == Fail(PagerFailure(PageOutOfBounds)) && cursor.table.pager.Views() == old(cursor.table.pager.Views())
    ensures cursor.page_number < TABLE_MAX_PAGES ==>
              SplitOutcome(old(cursor.table.pager.Views()), cursor.table.pager.Views(),
                           old(cursor.table.pager.page_count), cursor.page_number,
                           cursor.cell_number, key, value, r)
  {
    var table := cursor.table;
    var pager := table.pager;
    ghost var v0 := pager.Views();
    var loaded := LoadSplitPages(pager, cursor.page_number);
    if loaded.Err? {
      return Fail(PagerFailure(loaded.error));
    }
    var (old_page, new_page, new_page_number) := loaded.value;
    SplitLoadedLeaf(pager, cursor.page_number, new_page_number, old_page, new_page, cursor.cell_number, key, value);
    r := SplitIntoParent(table, cursor.page_number, old_page, new_page_number, cursor.cell_number, key, value,
                        v0, old(pager.page_count));
  }

  /** `leaf_node_insert`: loads the cursor's leaf; a full leaf goes to
      `leaf_node_split_and_insert`, otherwise the new cell is inserted in
      place at the cursor's cell. */
  method LeafNodeInsert(cursor: Cursor, key: u32, value: Row) returns (r: Outcome<BTreeError>)
    requires cursor.table.Valid() && ValidRow(value)
    requires cursor.page_number < TABLE_MAX_PAGES ==>
               var node := cursor.table.pager.PageView(cursor.page_number);
               cursor.cell_number <= LeafNumCells(node) && cursor.cell_number <= LEAF_NODE_MAX_CELLS
               && (LeafNumCells(node) >= LEAF_NODE_MAX_CELLS ==>
                     GetNodeType(node) == Some(NodeLeaf)
                     && (IsNodeRoot(node) ==> cursor.page_number == cursor.table.root_page_number))
    modifies cursor.table.pager, cursor.table.pager.pages, cursor.table.pager.Cached()
    ensures cursor.table.Valid() && cursor.table.pager.pages == old(cursor.table.pager.pages)
    ensures cursor.table.pager.file == old(cursor.table.pager.file)
    ensures cursor.table.root_page_number == old(cursor.table.root_page_number)
    ensures cursor.page_number >= TABLE_MAX_PAGES ==>
              r == Fail(PagerFailure(PageOutOfBounds)) && cursor.table.pager.Views() == old(cursor.table.pager.Views())
    ensures cursor.page_number < TABLE_MAX_PAGES
            && old(LeafNumCells(cursor.table.pager.PageView(cursor.page_number))) < LEAF_NODE_MAX_CELLS ==>
              r == Pass
              && InsertedInPlace(old(cursor.table.pager.Views()), cursor.table.pager.Views(), cursor.page_number,
                                 cursor.cell_number, key, value)
    ensures cursor.page_number < TABLE_MAX_PAGES
            && old(LeafNumCells(cursor.table.pager.PageView(cursor.page_number))) >= LEAF_NODE_MAX_CELLS ==>
              SplitOutcome(old(cursor.table.pager.Views()), cursor.table.pager.Views(),
                           old(cursor.table.pager.page_count), cursor.page_number,
                           cursor.cell_number, key, value, r)
  {
    var pager := cursor.table.pager;
    ghost var v0 := pager.Views();
    var got := pager.GetPage(cursor.page_number);
    if got.Err? {
      return Fail(PagerFailure(got.error));
    }
    var node := got.value;
    var num_cells := U32At(node[..], LEAF_NODE_NUM_CELLS_OFFSET);
    if num_cells >= LEAF_NODE_MAX_CELLS {
      assert pager.Views() == v0;
      r := LeafNodeSplitAndInsert(cursor, key, value);
      return;
    }
    assert node[..] == v0[cursor.page_number];
    LeafInsertInPlace(node, cursor.cell_number, key, value);
    assert node[..][..LEAF_NODE_NUM_CELLS_OFFSET] == v0[cursor.page_number][..LEAF_NODE_NUM_CELLS_OFFSET];
    r := Pass;
  }
}
