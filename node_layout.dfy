/** The node type tag and the node header and leaf cell layout of
    include/btree.h, together with the split counts and internal-node layout
    that the B-tree code uses but no shown header defines. */
module NodeLayout {
  import opened Bytes
  import opened Wrappers
  import opened TableLayout

  /** The two node kinds; the C enum numbers them 0 and 1 in this order. */
  datatype NodeType = NodeInternal | NodeLeaf

  /** The tag stored in a node's first byte. */
  function NodeTypeByte(t: NodeType): (b: byte)
    ensures b == if t == NodeInternal then 0 else 1
  {
    match t
    case NodeInternal => 0
    case NodeLeaf => 1
  }

  /** Reading the tag back: the cast `(NodeType)value` gives a valid enum value
      only for bytes 0 and 1. */
  function NodeTypeOf(b: byte): (t: Option<NodeType>)
    ensures t.Some? <==> b < 2
  {
    if b == 0 then Some(NodeInternal) else if b == 1 then Some(NodeLeaf) else None
  }

  /** The tag byte and the enum determine each other. */
  lemma NodeTypeRoundTrip(t: NodeType, b: byte)
    ensures NodeTypeOf(NodeTypeByte(t)) == Some(t)
    ensures NodeTypeOf(b).Some? ==> NodeTypeByte(NodeTypeOf(b).value) == b
  { }

  // Common node header.
  const NODE_TYPE_SIZE: nat := 1
  const NODE_TYPE_OFFSET: nat := 0
  const IS_ROOT_SIZE: nat := 1
  const IS_ROOT_OFFSET: nat := NODE_TYPE_OFFSET + NODE_TYPE_SIZE
  const PARENT_POINTER_SIZE: nat := 4
  const PARENT_POINTER_OFFSET: nat := IS_ROOT_OFFSET + IS_ROOT_SIZE
  const COMMON_HEADER_SIZE: nat := NODE_TYPE_SIZE + IS_ROOT_SIZE + PARENT_POINTER_SIZE

  // Leaf node header.
  const LEAF_NODE_NUM_CELLS_SIZE: nat := 4
  const LEAF_NODE_NUM_CELLS_OFFSET: nat := COMMON_HEADER_SIZE
  const LEAF_NODE_HEADER_SIZE: nat := COMMON_HEADER_SIZE + LEAF_NODE_NUM_CELLS_SIZE

  // Leaf node body: a cell is a key followed by a serialised row.
  const LEAF_NODE_KEY_SIZE: nat := 4
  const LEAF_NODE_KEY_OFFSET: nat := 0
  const LEAF_NODE_VALUE_SIZE: nat := ROW_SIZE
  const LEAF_NODE_VALUE_OFFSET: nat := LEAF_NODE_KEY_OFFSET + LEAF_NODE_KEY_SIZE
  const LEAF_NODE_CELL_SIZE: nat := LEAF_NODE_KEY_SIZE + LEAF_NODE_VALUE_SIZE
  const LEAF_NODE_SPACE_FOR_CELLS: nat := PAGE_SIZE - LEAF_NODE_HEADER_SIZE
  const LEAF_NODE_MAX_CELLS: nat := LEAF_NODE_SPACE_FOR_CELLS / LEAF_NODE_CELL_SIZE

  /** How a full leaf's cells plus one new cell are shared out by a split: the
      right half gets the smaller share when the total is odd. Not defined in
      any shown header. */
  const LEAF_NODE_RIGHT_SPLIT_COUNT: nat := (LEAF_NODE_MAX_CELLS + 1) / 2
  const LEAF_NODE_LEFT_SPLIT_COUNT: nat := (LEAF_NODE_MAX_CELLS + 1) - LEAF_NODE_RIGHT_SPLIT_COUNT

  /** Internal node header and body: a key count and a right-child page number
      after the common header, then cells of (child page number, key). Not
      defined in any shown header. */
  const INTERNAL_NODE_NUM_KEYS_SIZE: nat := 4
  const INTERNAL_NODE_NUM_KEYS_OFFSET: nat := COMMON_HEADER_SIZE
  const INTERNAL_NODE_RIGHT_CHILD_SIZE: nat := 4
  const INTERNAL_NODE_RIGHT_CHILD_OFFSET: nat := INTERNAL_NODE_NUM_KEYS_OFFSET + INTERNAL_NODE_NUM_KEYS_SIZE
  const INTERNAL_NODE_HEADER_SIZE: nat := COMMON_HEADER_SIZE + INTERNAL_NODE_NUM_KEYS_SIZE + INTERNAL_NODE_RIGHT_CHILD_SIZE
  const INTERNAL_NODE_CHILD_SIZE: nat := 4
  const INTERNAL_NODE_KEY_SIZE: nat := 4
  const INTERNAL_NODE_CELL_SIZE: nat := INTERNAL_NODE_CHILD_SIZE + INTERNAL_NODE_KEY_SIZE
  const INTERNAL_NODE_MAX_CELLS: nat := (PAGE_SIZE - INTERNAL_NODE_HEADER_SIZE) / INTERNAL_NODE_CELL_SIZE

  /** The common header is contiguous: type at 0 (1 byte), root flag at 1
      (1 byte), parent pointer at 2 (4 bytes), 6 bytes in all. */
  lemma CommonHeaderContiguous()
    ensures NODE_TYPE_OFFSET == 0 && NODE_TYPE_SIZE == 1
    ensures IS_ROOT_OFFSET == 1 && IS_ROOT_SIZE == 1
    ensures PARENT_POINTER_OFFSET == 2 && PARENT_POINTER_SIZE == 4
    ensures COMMON_HEADER_SIZE == PARENT_POINTER_OFFSET + PARENT_POINTER_SIZE == 6
  { }

  /** The cell count follows the common header, making a 10-byte leaf header;
      a cell is a 4-byte key followed by a row, 297 bytes. */
  lemma LeafHeaderAndCell()
    ensures LEAF_NODE_NUM_CELLS_OFFSET == COMMON_HEADER_SIZE
    ensures LEAF_NODE_HEADER_SIZE == LEAF_NODE_NUM_CELLS_OFFSET + LEAF_NODE_NUM_CELLS_SIZE == 10
    ensures LEAF_NODE_KEY_OFFSET == 0 && LEAF_NODE_VALUE_OFFSET == LEAF_NODE_KEY_SIZE == 4
    ensures LEAF_NODE_VALUE_SIZE == ROW_SIZE && LEAF_NODE_CELL_SIZE == 4 + ROW_SIZE == 297
  { }

  /** `LEAF_NODE_MAX_CELLS` cells fit in a page after the leaf header, and one
      more would not. */
  lemma MaxCellsFit()
    ensures LEAF_NODE_HEADER_SIZE + LEAF_NODE_MAX_CELLS * LEAF_NODE_CELL_SIZE <= PAGE_SIZE
    ensures PAGE_SIZE < LEAF_NODE_HEADER_SIZE + (LEAF_NODE_MAX_CELLS + 1) * LEAF_NODE_CELL_SIZE
    ensures LEAF_NODE_MAX_CELLS == 13
  { }

  /** The split counts share out all `LEAF_NODE_MAX_CELLS + 1` cells, neither
      half is empty, and the right half is no larger than the left, so that
      `i % LEFT` is the position within the right node of every overall
      position `i` from `LEFT` on. */
  lemma SplitCounts()
    ensures LEAF_NODE_LEFT_SPLIT_COUNT + LEAF_NODE_RIGHT_SPLIT_COUNT == LEAF_NODE_MAX_CELLS + 1
    ensures 0 < LEAF_NODE_RIGHT_SPLIT_COUNT <= LEAF_NODE_LEFT_SPLIT_COUNT <= LEAF_NODE_MAX_CELLS
    ensures forall i :: LEAF_NODE_LEFT_SPLIT_COUNT <= i <= LEAF_NODE_MAX_CELLS ==>
              i % LEAF_NODE_LEFT_SPLIT_COUNT == i - LEAF_NODE_LEFT_SPLIT_COUNT < LEAF_NODE_RIGHT_SPLIT_COUNT
    ensures forall i :: 0 <= i < LEAF_NODE_LEFT_SPLIT_COUNT ==> i % LEAF_NODE_LEFT_SPLIT_COUNT == i
  { }

  /** The internal header is 14 bytes, and an internal cell is a child page
      number followed by its key. */
  lemma InternalLayout()
    ensures INTERNAL_NODE_NUM_KEYS_OFFSET == 6 && INTERNAL_NODE_RIGHT_CHILD_OFFSET == 10
    ensures INTERNAL_NODE_HEADER_SIZE == INTERNAL_NODE_RIGHT_CHILD_OFFSET + INTERNAL_NODE_RIGHT_CHILD_SIZE == 14
    ensures INTERNAL_NODE_CELL_SIZE == 8
    ensures INTERNAL_NODE_HEADER_SIZE + INTERNAL_NODE_MAX_CELLS * INTERNAL_NODE_CELL_SIZE <= PAGE_SIZE
  { }
}
