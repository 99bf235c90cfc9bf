/** The row, pager and page constants of include/table.h, with the values the
    C compiler gives `sizeof` and `offsetof` written out. */
module TableLayout {
  import opened Bytes

  /** Column limits: the longest username and email a row may hold. */
  const COLUMN_USERNAME_SIZE: nat := 32
  const COLUMN_EMAIL_SIZE: nat := 255

  /** Number of slots in the pager's page cache. */
  const TABLE_MAX_PAGES: nat := 1000

  /** Size of one page, in memory and in the database file. */
  const PAGE_SIZE: nat := 4096

  /** A row as the C struct holds it: the id, then the username and email as
      character buffers one byte longer than their column limits, so that a
      value of maximal length still has room for its NUL terminator. */
  datatype Row = Row(id: u32, username: seq<byte>, email: seq<byte>)

  /** `sizeof` of the three members of `Row`. */
  const ID_SIZE: nat := 4
  const USERNAME_SIZE: nat := COLUMN_USERNAME_SIZE + 1
  const EMAIL_SIZE: nat := COLUMN_EMAIL_SIZE + 1

  /** `offsetof` of the three members of `Row`: character arrays need no
      alignment, so the compiler places them right after the id. */
  const ID_OFFSET: nat := 0
  const USERNAME_OFFSET: nat := 4
  const EMAIL_OFFSET: nat := 37

  /** Width of a serialised row. */
  const ROW_SIZE: nat := ID_SIZE + USERNAME_SIZE + EMAIL_SIZE

  /** Rows per page and the table's row capacity, for the append-only table.
      Neither is defined in the header; they are the values the table's code
      needs for `row_slot` and the table-full check. */
  const MAXIMUM_ROWS_PER_PAGE: nat := PAGE_SIZE / ROW_SIZE
  const TABLE_MAXIMUM_ROWS: nat := MAXIMUM_ROWS_PER_PAGE * TABLE_MAX_PAGES

  /** The buffers have exactly the sizes the struct declares. */
  predicate ValidRow(r: Row) {
    |r.username| == USERNAME_SIZE && |r.email| == EMAIL_SIZE
  }

  /** The serialised fields are back to back, in declaration order, with no
      padding, and the row is exactly as wide as its three fields. */
  lemma RowFieldsBackToBack()
    ensures ID_OFFSET == 0
    ensures USERNAME_OFFSET == ID_OFFSET + ID_SIZE
    ensures EMAIL_OFFSET == USERNAME_OFFSET + USERNAME_SIZE
    ensures ROW_SIZE == EMAIL_OFFSET + EMAIL_SIZE
  { }

  /** Each character buffer reserves one byte beyond its column limit. */
  lemma BuffersReserveTerminator()
    ensures USERNAME_SIZE == COLUMN_USERNAME_SIZE + 1 && COLUMN_USERNAME_SIZE == 32
    ensures EMAIL_SIZE == COLUMN_EMAIL_SIZE + 1 && COLUMN_EMAIL_SIZE == 255
  { }

  /** The cache holds 1000 slots of 4096-byte pages, and a page holds 13 whole
      rows, so the append-only table holds 13000 rows. */
  lemma CacheGeometry()
    ensures TABLE_MAX_PAGES == 1000 && PAGE_SIZE == 4096
    ensures MAXIMUM_ROWS_PER_PAGE == 13
    ensures MAXIMUM_ROWS_PER_PAGE * ROW_SIZE <= PAGE_SIZE < (MAXIMUM_ROWS_PER_PAGE + 1) * ROW_SIZE
    ensures TABLE_MAXIMUM_ROWS == 13000
  { }
}
