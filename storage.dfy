/** The row store of src/table.c: the row codec, `row_slot`, the page cache
    (`get_page`, `pager_open`, `pager_flush`) and the table's open and close.
    The database file is an abstract byte sequence: `lseek` followed by `read`
    or `write` becomes a function on that sequence. */
module Storage {
  import opened Bytes
  import opened Wrappers
  import opened TableLayout

  // ------------------------------------------------------------------
  // Row codec

  /** The `ROW_SIZE` bytes `row_serialization` lays down: the id at
      `ID_OFFSET`, the username buffer at `USERNAME_OFFSET`, the email buffer
      at `EMAIL_OFFSET`. */
  function RowBytes(r: Row): (bs: seq<byte>)
    requires ValidRow(r)
    ensures |bs| == ROW_SIZE
  {
    EncodeU32(r.id) + r.username + r.email
  }

  /** The row `row_deserialization` reads back from `ROW_SIZE` bytes. */
  function RowOf(bs: seq<byte>): (r: Row)
    requires |bs| == ROW_SIZE
    ensures ValidRow(r)
  {
    Row(DecodeU32(bs[ID_OFFSET..ID_OFFSET + ID_SIZE]),
        bs[USERNAME_OFFSET..USERNAME_OFFSET + USERNAME_SIZE],
        bs[EMAIL_OFFSET..EMAIL_OFFSET + EMAIL_SIZE])
  }

  /** Deserialising a serialised row gives back the same id, username bytes
      and email bytes. */
  lemma RowRoundTrip(r: Row)
    requires ValidRow(r)
    ensures RowOf(RowBytes(r)) == r
  {
    var bs := RowBytes(r);
    assert bs[ID_OFFSET..ID_OFFSET + ID_SIZE] == EncodeU32(r.id);
    assert bs[USERNAME_OFFSET..USERNAME_OFFSET + USERNAME_SIZE] == r.username;
    assert bs[EMAIL_OFFSET..EMAIL_OFFSET + EMAIL_SIZE] == r.email;
  }

  /** Every `ROW_SIZE`-byte image is the serialisation of the row read from
      it, so the codec loses nothing in either direction. */
  lemma RowBytesRoundTrip(bs: seq<byte>)
    requires |bs| == ROW_SIZE
    ensures RowBytes(RowOf(bs)) == bs
  {
    EncodeDecode(bs[..ID_SIZE]);
    assert bs == bs[..ID_SIZE] + bs[USERNAME_OFFSET..EMAIL_OFFSET] + bs[EMAIL_OFFSET..];
  }

  /** `row_serialization(source, destination + off)`: three copies, one per
      field, and nothing outside the row's `ROW_SIZE` bytes is written. */
  method SerializeRow(source: Row, destination: array<byte>, off: nat)
    requires ValidRow(source) && off + ROW_SIZE <= destination.Length
    modifies destination
    ensures destination[off..off + ROW_SIZE] == RowBytes(source)
    ensures forall k :: 0 <= k < destination.Length && !(off <= k < off + ROW_SIZE) ==> destination[k] == old(destination[k])
  {
    Store(destination, off + ID_OFFSET, EncodeU32(source.id));
    ghost var afterId := destination[..];
    Store(destination, off + USERNAME_OFFSET, source.username);
    ghost var afterName := destination[..];
    Store(destination, off + EMAIL_OFFSET, source.email);
    assert destination[off + ID_OFFSET..off + ID_OFFSET + ID_SIZE] == afterName[off + ID_OFFSET..off + ID_OFFSET + ID_SIZE] == afterId[off + ID_OFFSET..off + ID_OFFSET + ID_SIZE];
    assert destination[off + USERNAME_OFFSET..off + EMAIL_OFFSET] == afterName[off + USERNAME_OFFSET..off + EMAIL_OFFSET];
    assert destination[off..off + ROW_SIZE]
        == destination[off + ID_OFFSET..off + ID_OFFSET + ID_SIZE]
         + destination[off + USERNAME_OFFSET..off + EMAIL_OFFSET]
         + destination[off + EMAIL_OFFSET..off + ROW_SIZE];
  }

  /** `row_deserialization(source + off, &destination)`. */
  method DeserializeRow(source: array<byte>, off: nat) returns (destination: Row)
    requires off + ROW_SIZE <= source.Length
    ensures destination == RowOf(source[off..off + ROW_SIZE])
  {
    destination := Row(DecodeU32(source[off + ID_OFFSET..off + ID_OFFSET + ID_SIZE]),
                       source[off + USERNAME_OFFSET..off + USERNAME_OFFSET + USERNAME_SIZE],
                       source[off + EMAIL_OFFSET..off + EMAIL_OFFSET + EMAIL_SIZE]);
  }

  // ------------------------------------------------------------------
  // Row addressing

  /** Where `row_slot` puts a row: a page number and a byte offset in it. */
  datatype RowLocation = RowLocation(page_num: nat, byte_offset: nat)

  /** The row index a location holds: the inverse of `RowSlotLocation`. */
  function RowIndexAt(loc: RowLocation): nat {
    loc.page_num * MAXIMUM_ROWS_PER_PAGE + loc.byte_offset / ROW_SIZE
  }

  /** The address arithmetic of `row_slot`: page `row_index /
      MAXIMUM_ROWS_PER_PAGE`, at byte `(row_index % MAXIMUM_ROWS_PER_PAGE) *
      ROW_SIZE`. The slot lies inside its page, starts on a row boundary and
      determines the row index back. */
  function RowSlotLocation(row_index: nat): (loc: RowLocation)
    ensures loc.byte_offset + ROW_SIZE <= PAGE_SIZE
    ensures loc.byte_offset % ROW_SIZE == 0
    ensures RowIndexAt(loc) == row_index
    ensures row_index < TABLE_MAXIMUM_ROWS <==> loc.page_num < TABLE_MAX_PAGES
  {
    var slot := row_index % MAXIMUM_ROWS_PER_PAGE;
    assert slot * ROW_SIZE / ROW_SIZE == slot;
    RowLocation(row_index / MAXIMUM_ROWS_PER_PAGE, slot * ROW_SIZE)
  }

  /** Distinct row indices get non-overlapping `ROW_SIZE`-byte slots: on
      different pages, or disjoint within one page. */
  lemma RowSlotsDisjoint(i: nat, j: nat)
    requires i != j
    ensures var a, b := RowSlotLocation(i), RowSlotLocation(j);
            a.page_num != b.page_num
            || a.byte_offset + ROW_SIZE <= b.byte_offset
            || b.byte_offset + ROW_SIZE <= a.byte_offset
  {
  }

  // ------------------------------------------------------------------
  // The database file

  /** Number of pages `get_page` counts in a file of `file_size` bytes: a
      partial last page counts as a page. */
  function PagesInFile(file_size: nat): (n: nat)
    ensures file_size <= n * PAGE_SIZE < file_size + PAGE_SIZE
  {
    file_size / PAGE_SIZE + if file_size % PAGE_SIZE != 0 then 1 else 0
  }

  /** What `read(fd, buf, len)` returns after `lseek(fd, off, SEEK_SET)`: the
      bytes of the file from `off`, at most `len` of them. */
  function FileRead(file: seq<byte>, off: nat, len: nat): (got: seq<byte>)
    ensures off >= |file| ==> got == []
    ensures off < |file| ==> |got| == if off + len <= |file| then len else |file| - off
    ensures forall k :: 0 <= k < |got| ==> got[k] == file[off + k]
  {
    if off >= |file| then [] else if off + len <= |file| then file[off..off + len] else file[off..]
  }

  /** The file after `lseek(fd, off, SEEK_SET)` and `write(fd, data, |data|)`:
      `data` at `off`, everything else as before, and any gap between the old
      end of the file and `off` reading as zeros. */
  function WriteAt(file: seq<byte>, off: nat, data: seq<byte>): (f: seq<byte>)
    ensures |f| == if off + |data| > |file| then off + |data| else |file|
    ensures forall k :: 0 <= k < |f| ==>
              f[k] == if off <= k < off + |data| then data[k - off]
                      else if k < |file| then file[k] else 0
  {
    var base := if off <= |file| then file else file + Zeros(off - |file|);
    base[..off] + data + if off + |data| < |base| then base[off + |data|..] else []
  }

  /** Reading back a range just written returns what was written. */
  lemma ReadAfterWrite(file: seq<byte>, off: nat, data: seq<byte>)
    ensures FileRead(WriteAt(file, off, data), off, |data|) == data
  {
    var f := WriteAt(file, off, data);
    var got := FileRead(f, off, |data|);
    assert |got| == |data|;
  }

  /** The contents `get_page` gives a page it has to create: read from file
      offset `n * PAGE_SIZE` when `n` is within the file's (rounded-up) page
      count, otherwise a fresh buffer. The bytes a short read leaves untouched
      are indeterminate in C; the model takes them to be zero. */
  function LoadPage(file: seq<byte>, file_size: nat, n: nat): (page: seq<byte>)
    ensures |page| == PAGE_SIZE
  {
    var got := if n <= PagesInFile(file_size) then FileRead(file, n * PAGE_SIZE, PAGE_SIZE) else [];
    got + Zeros(PAGE_SIZE - |got|)
  }

  /** When the recorded size is the file's size, a loaded page is exactly the
      file's bytes at `n * PAGE_SIZE`, padded with zeros past the end of the
      file: the read-or-fresh choice never hides data. */
  lemma LoadPageReadsFile(file: seq<byte>, n: nat, k: nat)
    requires k < PAGE_SIZE
    ensures LoadPage(file, |file|, n)[k] == if n * PAGE_SIZE + k < |file| then file[n * PAGE_SIZE + k] else 0
  {
    var got := if n <= PagesInFile(|file|) then FileRead(file, n * PAGE_SIZE, PAGE_SIZE) else [];
    if n > PagesInFile(|file|) {
      assert n * PAGE_SIZE >= (PagesInFile(|file|) + 1) * PAGE_SIZE;
    }
    assert LoadPage(file, |file|, n) == got + Zeros(PAGE_SIZE - |got|);
  }

  // ------------------------------------------------------------------
  // The pager

  /** The watermark after a page load that succeeds: it already lies past
      a page below it, and otherwise moves to one past the loaded page. */
  function PageCountAfter(page_count: nat, n: nat): (c: nat)
    ensures c > n && c >= page_count
    ensures c == page_count || c == n + 1
  {
    if n < page_count then page_count else n + 1
  }

  /** The fatal conditions of the pager (each is `exit(EXIT_FAILURE)` in C). */
  datatype PagerError = PageOutOfBounds | FlushOfUncachedPage

  /** `Pager`: the open file, its size at open time, a page-number watermark
      and the cache of page buffers, NULL for a page not yet loaded. */
  class Pager {
    var file: seq<byte>
    var file_size: nat
    var page_count: nat
    var pages: array<array?<byte>>

    /** The cache has `TABLE_MAX_PAGES` slots; a filled slot holds a
        `PAGE_SIZE`-byte buffer owned by that slot alone; no slot at or above
        the watermark is filled. */
    ghost predicate Valid()
      reads this, pages
    {
      pages.Length == TABLE_MAX_PAGES
      && (forall n :: 0 <= n < TABLE_MAX_PAGES && pages[n] != null ==> pages[n].Length == PAGE_SIZE)
      && (forall n :: page_count <= n < TABLE_MAX_PAGES ==> pages[n] == null)
      && (forall n, m :: 0 <= n < m < TABLE_MAX_PAGES && pages[n] != null ==> pages[n] != pages[m])
    }

    /** The buffers currently in the cache. */
    ghost function Cached(): set<array<byte>>
      reads this, pages
    {
      set n | 0 <= n < pages.Length && pages[n] != null :: pages[n]
    }

    /** Page `n` as the cache presents it: the cached buffer, or what
        `get_page` would load. */
    ghost function PageView(n: nat): (p: seq<byte>)
      reads this, pages, Cached()
      requires Valid() && n < TABLE_MAX_PAGES
      ensures |p| == PAGE_SIZE
    {
      if pages[n] != null then pages[n][..] else LoadPage(file, file_size, n)
    }

    /** The contents of every cache slot. */
    ghost function CacheSnapshot(): (c: seq<Option<seq<byte>>>)
      reads this, pages, Cached()
      requires Valid()
      ensures |c| == TABLE_MAX_PAGES
      ensures forall n :: 0 <= n < TABLE_MAX_PAGES ==>
                (c[n].Some? <==> pages[n] != null) && (c[n].Some? ==> c[n].value == pages[n][..])
    {
      seq(TABLE_MAX_PAGES, n requires 0 <= n < pages.Length reads this, pages, Cached() =>
        if pages[n] == null then None else Some(pages[n][..]))
    }

    /** Every page as the cache presents it. */
    ghost function Views(): (v: seq<seq<byte>>)
      reads this, pages, Cached()
      requires Valid()
      ensures |v| == TABLE_MAX_PAGES
      ensures forall m :: 0 <= m < TABLE_MAX_PAGES ==> v[m] == PageView(m)
    {
      seq(TABLE_MAX_PAGES, m requires 0 <= m < TABLE_MAX_PAGES && Valid() reads this, pages, Cached() => PageView(m))
    }

    /** `pager_open` on a file with the given contents: the size is recorded,
        the watermark starts past the last page the file holds, and every
        cache slot is set to NULL. */
    constructor Open(contents: seq<byte>)
      ensures Valid() && fresh(pages)
      ensures file == contents && file_size == |contents| && page_count == PagesInFile(|contents|)
      ensures forall n :: 0 <= n < TABLE_MAX_PAGES ==> pages[n] == null
    {
      file := contents;
      file_size := |contents|;
      page_count := PagesInFile(|contents|);
      var slots := new array?<byte>[TABLE_MAX_PAGES];
      var i := 0;
      while i < TABLE_MAX_PAGES
        invariant 0 <= i <= TABLE_MAX_PAGES
        invariant forall n :: 0 <= n < i ==> slots[n] == null
      {
        slots[i] := null;
        i := i + 1;
      }
      pages := slots;
    }

    /** `get_page`: page numbers outside the cache are fatal; a cached page is
        returned as it is; otherwise a new `PAGE_SIZE` buffer is filled from
        the file, cached and returned. No other slot changes, and no page's
        view changes. */
    method GetPage(n: nat) returns (r: Result<array<byte>, PagerError>)
      requires Valid()
      modifies this, pages
      ensures Valid() && pages == old(pages)
      ensures file == old(file) && file_size == old(file_size)
      ensures r.Err? <==> n >= TABLE_MAX_PAGES
      ensures r.Err? ==> r.error == PageOutOfBounds && page_count == old(page_count) && pages[..] == old(pages[..])
      ensures r.Ok? ==> r.value == pages[n] && r.value.Length == PAGE_SIZE
      ensures r.Ok? ==> page_count == PageCountAfter(old(page_count), n)
      ensures r.Ok? && old(pages[n]) != null ==>
                r.value == old(pages[n]) && pages[..] == old(pages[..]) && page_count == old(page_count)
      ensures r.Ok? && old(pages[n]) == null ==>
                fresh(r.value) && r.value[..] == LoadPage(file, file_size, n)
                && (forall m :: 0 <= m < TABLE_MAX_PAGES && m != n ==> pages[m] == old(pages[m]))
                && page_count == if n < old(page_count) then old(page_count) else n + 1
      ensures r.Ok? ==> Cached() == old(Cached()) + {r.value}
      ensures forall m :: 0 <= m < TABLE_MAX_PAGES ==> PageView(m) == old(PageView(m))
    {
      if n >= TABLE_MAX_PAGES {
        return Err(PageOutOfBounds);
      }
      if pages[n] == null {
        var page := new byte[PAGE_SIZE](_ => 0);
        var number_of_pages := file_size / PAGE_SIZE;
        if file_size % PAGE_SIZE != 0 {
          number_of_pages := number_of_pages + 1;
        }
        if n <= number_of_pages {
          Store(page, 0, FileRead(file, n * PAGE_SIZE, PAGE_SIZE));
        }
        assert page[..] == LoadPage(file, file_size, n);
        pages[n] := page;
        if n >= page_count {
          page_count := n + 1;
        }
        assert Cached() == old(Cached()) + {page} by {
          assert forall m :: 0 <= m < TABLE_MAX_PAGES && m != n ==> pages[m] == old(pages[m]);
        }
      }
      r := Ok(pages[n]);
    }

    /** `get_unused_page_number`: the watermark, which names a page the cache
        does not hold. */
    function GetUnusedPageNumber(): (n: nat)
      reads this, pages
      requires Valid()
      ensures n < TABLE_MAX_PAGES ==> pages[n] == null
    {
      page_count
    }

    /** `pager_flush`: flushing an uncached page is fatal; otherwise the first
        `size` bytes of the page are written at file offset
        `page_number * PAGE_SIZE`. */
    method Flush(page_number: nat, size: nat) returns (r: Outcome<PagerError>)
      requires Valid() && page_number < TABLE_MAX_PAGES && size <= PAGE_SIZE
      modifies this`file
      ensures pages[page_number] == null ==> r == Fail(FlushOfUncachedPage) && file == old(file)
      ensures pages[page_number] != null ==>
                r == Pass && file == WriteAt(old(file), page_number * PAGE_SIZE, pages[page_number][..size])
    {
      if pages[page_number] == null {
        return Fail(FlushOfUncachedPage);
      }
      file := WriteAt(file, page_number * PAGE_SIZE, pages[page_number][..size]);
      r := Pass;
    }

    /** The first loop of `db_close`: each cached page below `count` is
        flushed whole and its slot cleared, in page order; slots from `count`
        on are untouched. */
    method FlushWholePages(count: nat)
      requires Valid() && count <= TABLE_MAX_PAGES
      modifies this`file, pages
      ensures Valid() && pages == old(pages)
      ensures file == FlushedPages(old(file), old(CacheSnapshot()), count)
      ensures forall n :: 0 <= n < count ==> pages[n] == null
      ensures forall n :: count <= n < TABLE_MAX_PAGES ==> pages[n] == old(pages[n])
    {
      ghost var cache := CacheSnapshot();
      var i := 0;
      while i < count
        invariant 0 <= i <= count
        invariant Valid()
        invariant file == FlushedPages(old(file), cache, i)
        invariant forall n :: 0 <= n < i ==> pages[n] == null
        invariant forall n :: i <= n < TABLE_MAX_PAGES ==> pages[n] == old(pages[n])
      {
        if pages[i] != null {
          var _ := Flush(i, PAGE_SIZE);
          pages[i] := null;
        }
        i := i + 1;
      }
    }

    /** The last loop of `db_close`: every slot still filled is freed. */
    method FreePages()
      requires Valid()
      modifies pages
      ensures Valid()
      ensures forall n :: 0 <= n < TABLE_MAX_PAGES ==> pages[n] == null
    {
      var i := 0;
      while i < TABLE_MAX_PAGES
        invariant 0 <= i <= TABLE_MAX_PAGES
        invariant Valid()
        invariant forall n :: 0 <= n < i ==> pages[n] == null
      {
        if pages[i] != null {
          pages[i] := null;
        }
        i := i + 1;
      }
    }
  }

  // ------------------------------------------------------------------
  // Closing and reopening

  /** Whether a cache snapshot is well formed: every slot, and every filled
      slot holds a page. */
  ghost predicate WellFormedCache(cache: seq<Option<seq<byte>>>) {
    |cache| == TABLE_MAX_PAGES
    && forall n :: 0 <= n < |cache| && cache[n].Some? ==> |cache[n].value| == PAGE_SIZE
  }

  /** The file after flushing, in page order, every cached page below `k`. */
  ghost function FlushedPages(file: seq<byte>, cache: seq<Option<seq<byte>>>, k: nat): seq<byte>
    requires WellFormedCache(cache) && k <= TABLE_MAX_PAGES
  {
    if k == 0 then file
    else
      var f := FlushedPages(file, cache, k - 1);
      if cache[k - 1].Some? then WriteAt(f, (k - 1) * PAGE_SIZE, cache[k - 1].value) else f
  }

  /** The file `db_close` leaves: every cached page filled with rows written
      whole, then the cached part of a partially filled last page, only as far
      as its rows reach. */
  ghost function ClosedFile(file: seq<byte>, cache: seq<Option<seq<byte>>>, row_count: nat): seq<byte>
    requires WellFormedCache(cache) && row_count <= TABLE_MAXIMUM_ROWS
  {
    var filled := row_count / MAXIMUM_ROWS_PER_PAGE;
    var leftover := row_count % MAXIMUM_ROWS_PER_PAGE;
    var f := FlushedPages(file, cache, filled);
    if leftover != 0 && cache[filled].Some? then
      WriteAt(f, filled * PAGE_SIZE, cache[filled].value[..leftover * ROW_SIZE])
    else f
  }

  /** The file length a close leaves behind for a table of `row_count` rows
      written from scratch: whole pages, then the rows of the last page. */
  function FileExtent(row_count: nat): nat {
    (row_count / MAXIMUM_ROWS_PER_PAGE) * PAGE_SIZE + (row_count % MAXIMUM_ROWS_PER_PAGE) * ROW_SIZE
  }

  /** The row count of a reopened file: 13 rows per whole page, then the rows
      of a partial last page. */
  function RowCountOnOpen(file_size: nat): (rows: nat)
    ensures file_size <= TABLE_MAX_PAGES * PAGE_SIZE ==> rows <= TABLE_MAXIMUM_ROWS
  {
    (file_size / PAGE_SIZE) * MAXIMUM_ROWS_PER_PAGE + (file_size % PAGE_SIZE) / ROW_SIZE
  }

  /** Reopening a file of `row_count` rows counts them back exactly. */
  lemma RowCountRoundTrip(row_count: nat)
    ensures RowCountOnOpen(FileExtent(row_count)) == row_count
  {
    var full, part := row_count / MAXIMUM_ROWS_PER_PAGE, row_count % MAXIMUM_ROWS_PER_PAGE;
    var size := FileExtent(row_count);
    assert part * ROW_SIZE < PAGE_SIZE;
    assert size / PAGE_SIZE == full && size % PAGE_SIZE == part * ROW_SIZE;
    assert part * ROW_SIZE / ROW_SIZE == part;
  }

  /** `db_open`'s row count as written: the file size divided by the row
      width, as if rows were packed with no slack at the end of each page. */
  function RowCountOnOpenAsWritten(file_size: nat): nat {
    file_size / ROW_SIZE
  }

  /** A table of 26 rows fills exactly two pages; reopened, the as-written
      count finds 27 rows, while the corrected count finds 26. */
  lemma RowCountAsWrittenOvercounts()
    ensures FileExtent(26) == 2 * PAGE_SIZE
    ensures RowCountOnOpenAsWritten(FileExtent(26)) == 27
    ensures RowCountOnOpen(FileExtent(26)) == 26
  {
    RowCountRoundTrip(26);
  }

  /** Flushing pages below `k` into an empty file, with all of them cached,
      leaves a file of exactly `k` pages. */
  lemma {:induction false} FlushedPagesLength(cache: seq<Option<seq<byte>>>, k: nat)
    requires WellFormedCache(cache) && k <= TABLE_MAX_PAGES
    requires forall n :: 0 <= n < k ==> cache[n].Some?
    ensures |FlushedPages([], cache, k)| == k * PAGE_SIZE
  {
    if k > 0 {
      FlushedPagesLength(cache, k - 1);
    }
  }

  /** Once flushed, each cached page below `k` is in the file at its page
      offset: later flushes write other pages only. */
  lemma {:induction false} FlushedPagesHold(file: seq<byte>, cache: seq<Option<seq<byte>>>, k: nat, n: nat, j: nat)
    requires WellFormedCache(cache) && k <= TABLE_MAX_PAGES
    requires n < k && cache[n].Some? && j < PAGE_SIZE
    ensures n * PAGE_SIZE + j < |FlushedPages(file, cache, k)|
    ensures FlushedPages(file, cache, k)[n * PAGE_SIZE + j] == cache[n].value[j]
  {
    var f := FlushedPages(file, cache, k - 1);
    if n < k - 1 {
      FlushedPagesHold(file, cache, k - 1, n, j);
      if cache[k - 1].Some? {
        assert (k - 1) * PAGE_SIZE >= n * PAGE_SIZE + PAGE_SIZE;
      }
    }
  }

  /** Every page holding one of the first `row_count` rows is cached. */
  ghost predicate RowPagesCached(cache: seq<Option<seq<byte>>>, row_count: nat)
    requires |cache| == TABLE_MAX_PAGES
  {
    forall n :: 0 <= n < TABLE_MAX_PAGES && n * MAXIMUM_ROWS_PER_PAGE < row_count ==> cache[n].Some?
  }

  /** Closing a table whose row pages are all cached into an empty file
      leaves a file exactly as long as its rows reach. */
  lemma ClosedFileLength(cache: seq<Option<seq<byte>>>, row_count: nat)
    requires WellFormedCache(cache) && row_count <= TABLE_MAXIMUM_ROWS
    requires RowPagesCached(cache, row_count)
    ensures |ClosedFile([], cache, row_count)| == FileExtent(row_count)
  {
    var filled := row_count / MAXIMUM_ROWS_PER_PAGE;
    FlushedPagesLength(cache, filled);
    if row_count % MAXIMUM_ROWS_PER_PAGE != 0 {
      assert filled * MAXIMUM_ROWS_PER_PAGE < row_count;
    }
  }

  /** Row `i` of a table of `row_count` rows lies in a page the close writes
      whole, or in the written part of the partially filled last page. */
  lemma RowInClosedRange(row_count: nat, i: nat)
    requires i < row_count
    ensures var loc := RowSlotLocation(i);
            loc.page_num < row_count / MAXIMUM_ROWS_PER_PAGE
            || (loc.page_num == row_count / MAXIMUM_ROWS_PER_PAGE
                && loc.byte_offset + ROW_SIZE <= (row_count % MAXIMUM_ROWS_PER_PAGE) * ROW_SIZE)
  {
    var page, slot := i / MAXIMUM_ROWS_PER_PAGE, i % MAXIMUM_ROWS_PER_PAGE;
    assert i == page * MAXIMUM_ROWS_PER_PAGE + slot;
    if page == row_count / MAXIMUM_ROWS_PER_PAGE {
      assert row_count == page * MAXIMUM_ROWS_PER_PAGE + row_count % MAXIMUM_ROWS_PER_PAGE;
      assert slot < row_count % MAXIMUM_ROWS_PER_PAGE;
      assert (slot + 1) * ROW_SIZE <= (row_count % MAXIMUM_ROWS_PER_PAGE) * ROW_SIZE;
    }
  }

  /** After a close, byte `k` of row `i`'s slot is in the file at the slot's
      page offset, holding what the cache held. */
  lemma ClosedFileHoldsRow(file: seq<byte>, cache: seq<Option<seq<byte>>>, row_count: nat, i: nat, k: nat)
    requires WellFormedCache(cache) && row_count <= TABLE_MAXIMUM_ROWS
    requires RowPagesCached(cache, row_count)
    requires i < row_count && k < ROW_SIZE
    ensures var loc := RowSlotLocation(i);
            var f := ClosedFile(file, cache, row_count);
            loc.page_num * PAGE_SIZE + loc.byte_offset + k < |f|
            && f[loc.page_num * PAGE_SIZE + loc.byte_offset + k] == cache[loc.page_num].value[loc.byte_offset + k]
  {
    var loc := RowSlotLocation(i);
    var filled := row_count / MAXIMUM_ROWS_PER_PAGE;
    var leftover := row_count % MAXIMUM_ROWS_PER_PAGE;
    RowInClosedRange(row_count, i);
    var f := FlushedPages(file, cache, filled);
    if loc.page_num < filled {
      FlushedPagesHold(file, cache, filled, loc.page_num, loc.byte_offset + k);
      assert filled * PAGE_SIZE >= loc.page_num * PAGE_SIZE + PAGE_SIZE;
    } else {
      assert cache[filled].Some? && leftover != 0;
      var data := cache[filled].value[..leftover * ROW_SIZE];
      assert ClosedFile(file, cache, row_count) == WriteAt(f, filled * PAGE_SIZE, data);
      assert data[loc.byte_offset + k] == cache[filled].value[loc.byte_offset + k];
    }
  }

  /** Persistence round trip: close a table of `row_count` rows whose pages
      are all cached into a fresh file, then reopen it. The reopened table
      counts the same rows, and every row slot loads the bytes the cache held. */
  lemma ReopenRoundTrip(cache: seq<Option<seq<byte>>>, row_count: nat, i: nat)
    requires WellFormedCache(cache) && row_count <= TABLE_MAXIMUM_ROWS
    requires RowPagesCached(cache, row_count)
    requires i < row_count
    ensures var f := ClosedFile([], cache, row_count);
            var loc := RowSlotLocation(i);
            RowCountOnOpen(|f|) == row_count
            && LoadPage(f, |f|, loc.page_num)[loc.byte_offset..loc.byte_offset + ROW_SIZE]
               == cache[loc.page_num].value[loc.byte_offset..loc.byte_offset + ROW_SIZE]
  {
    var f := ClosedFile([], cache, row_count);
    var loc := RowSlotLocation(i);
    ClosedFileLength(cache, row_count);
    RowCountRoundTrip(row_count);
    var loaded := LoadPage(f, |f|, loc.page_num);
    var page := cache[loc.page_num].value;
    forall k | loc.byte_offset <= k < loc.byte_offset + ROW_SIZE
      ensures loaded[k] == page[k]
    {
      LoadPageReadsFile(f, loc.page_num, k);
      ClosedFileHoldsRow([], cache, row_count, i, k - loc.byte_offset);
    }
    assert loaded[loc.byte_offset..loc.byte_offset + ROW_SIZE] == page[loc.byte_offset..loc.byte_offset + ROW_SIZE];
  }

  /** `malloc(sizeof(PAGE_SIZE))` as written: `PAGE_SIZE` is a `uint32_t`
      constant, so this allocates 4 bytes. */
  function PageBufferSizeAsWritten(): nat {
    ID_SIZE
  }

  /** The as-written allocation is smaller than the page `read` fills and
      smaller than the second row slot `row_slot` hands out. */
  lemma PageBufferAsWrittenTooSmall()
    ensures PageBufferSizeAsWritten() < PAGE_SIZE
    ensures PageBufferSizeAsWritten() < RowSlotLocation(1).byte_offset + ROW_SIZE
  { }

  /** The bound check of `get_page` as written: it rejects page numbers above
      `TABLE_MAX_PAGES`, not at it. */
  predicate GetPageRejectsAsWritten(n: nat) {
    n > TABLE_MAX_PAGES
  }

  /** The as-written check lets page number `TABLE_MAX_PAGES` through, one
      past the last slot of the cache. */
  lemma GetPageAsWrittenAdmitsPastCache()
    ensures exists n: nat :: !GetPageRejectsAsWritten(n) && n >= TABLE_MAX_PAGES
  {
    assert !GetPageRejectsAsWritten(TABLE_MAX_PAGES);
  }

  // ------------------------------------------------------------------
  // The table

  /** A cursor: a table, a position inside it, and whether it is past the end. */
  datatype Cursor = Cursor(table: Table, page_number: nat, cell_number: nat, end_of_table: bool)

  /** The row stored in slot `i` of the given pages, where `row_slot`
      places it. */
  function SlotRow(views: seq<seq<byte>>, i: nat): Row
    requires |views| == TABLE_MAX_PAGES && i < TABLE_MAXIMUM_ROWS
    requires forall m :: 0 <= m < TABLE_MAX_PAGES ==> |views[m]| == PAGE_SIZE
  {
    var loc := RowSlotLocation(i);
    RowOf(views[loc.page_num][loc.byte_offset..loc.byte_offset + ROW_SIZE])
  }

  /** The first `count` rows of the append-only table laid out over the
      given pages, in slot order. */
  function RowsIn(views: seq<seq<byte>>, count: nat): (rows: seq<Row>)
    requires |views| == TABLE_MAX_PAGES && count <= TABLE_MAXIMUM_ROWS
    requires forall m :: 0 <= m < TABLE_MAX_PAGES ==> |views[m]| == PAGE_SIZE
    ensures |rows| == count
  {
    seq(count, i requires 0 <= i < count => SlotRow(views, i))
  }

  /** `Table`: the pager, the B-tree's root page and internal-layer count, and
      the row count of the append-only table. */
  class Table {
    var root_page_number: nat
    var internal_node_layers: nat
    var row_count: nat
    const pager: Pager

    ghost predicate Valid()
      reads this, pager, pager.pages
    {
      pager.Valid() && row_count <= TABLE_MAXIMUM_ROWS
    }

    /** Row `i` of the append-only table, as its slot holds it. */
    ghost function RowAt(i: nat): Row
      reads this, pager, pager.pages, pager.Cached()
      requires pager.Valid() && i < TABLE_MAXIMUM_ROWS
    {
      var loc := RowSlotLocation(i);
      RowOf(pager.PageView(loc.page_num)[loc.byte_offset..loc.byte_offset + ROW_SIZE])
    }

    /** The rows of the append-only table, in insertion order: they are read
        through the page views alone. */
    ghost function Rows(): (rows: seq<Row>)
      reads this, pager, pager.pages, pager.Cached()
      requires Valid()
      ensures rows == RowsIn(pager.Views(), row_count)
      ensures forall i :: 0 <= i < row_count ==> rows[i] == RowAt(i)
    {
      RowsIn(pager.Views(), row_count)
    }

    /** `db_open`: opens the pager and counts the rows the file holds. */
    constructor Open(contents: seq<byte>)
      requires |contents| <= TABLE_MAX_PAGES * PAGE_SIZE
      ensures Valid() && fresh(pager) && fresh(pager.pages)
      ensures pager.file == contents && pager.file_size == |contents|
      ensures forall n :: 0 <= n < TABLE_MAX_PAGES ==> pager.pages[n] == null
      ensures row_count == RowCountOnOpen(|contents|)
      ensures root_page_number == 0 && internal_node_layers == 0
    {
      var p := new Pager.Open(contents);
      pager := p;
      row_count := RowCountOnOpen(p.file_size);
      root_page_number := 0;
      internal_node_layers := 0;
    }

    /** `row_slot`: the buffer of the row's page, loaded if need be, and the
        row's offset in it. No page's view changes. */
    method RowSlot(row_index: nat) returns (page: array<byte>, byte_offset: nat)
      requires Valid() && row_index < TABLE_MAXIMUM_ROWS
      modifies pager, pager.pages
      ensures Valid() && pager.pages == old(pager.pages) && pager.file == old(pager.file)
      ensures page == pager.pages[RowSlotLocation(row_index).page_num] && page.Length == PAGE_SIZE
      ensures byte_offset == RowSlotLocation(row_index).byte_offset
      ensures fresh(page) || page in old(pager.Cached())
      ensures pager.Cached() == old(pager.Cached()) + {page}
      ensures forall m :: 0 <= m < TABLE_MAX_PAGES ==> pager.PageView(m) == old(pager.PageView(m))
    {
      var loc := RowSlotLocation(row_index);
      var r := pager.GetPage(loc.page_num);
      page := r.value;
      byte_offset := loc.byte_offset;
    }

    /** `db_close`: flushes the pages filled with rows whole, then the rows of
        a partially filled last page, and frees every cache slot. */
    method Close()
      requires Valid()
      modifies pager, pager.pages
      ensures pager.Valid() && pager.pages == old(pager.pages)
      ensures forall n :: 0 <= n < TABLE_MAX_PAGES ==> pager.pages[n] == null
      ensures pager.file == ClosedFile(old(pager.file), old(pager.CacheSnapshot()), row_count)
    {
      ghost var cache := pager.CacheSnapshot();
      var number_of_filled_pages := row_count / MAXIMUM_ROWS_PER_PAGE;
      pager.FlushWholePages(number_of_filled_pages);
      var num_leftover_rows := row_count % MAXIMUM_ROWS_PER_PAGE;
      if num_leftover_rows != 0 {
        var page_number := number_of_filled_pages;
        if pager.pages[page_number] != null {
          assert cache[page_number].value == pager.pages[page_number][..];
          var _ := pager.Flush(page_number, num_leftover_rows * ROW_SIZE);
          pager.pages[page_number] := null;
        }
      }
      pager.FreePages();
    }
  }
}
