/** The front end and the executor of src/statement.c: a line of input is
    parsed into a statement, and an INSERT or SELECT statement is run against
    the append-only table, whose row `i` lives in the slot `row_slot` gives. */
module Statements {
  import opened Bytes
  import opened TableLayout
  import opened Storage

  const NUL: byte := 0
  const SPACE: byte := 32
  const PLUS: byte := 43
  const MINUS: byte := 45
  const ZERO: byte := 48

  /** The two statement keywords, `insert` and `select`. */
  const INSERT_KEYWORD: seq<byte> := [0x69, 0x6e, 0x73, 0x65, 0x72, 0x74]
  const SELECT_KEYWORD: seq<byte> := [0x73, 0x65, 0x6c, 0x65, 0x63, 0x74]

  // ---------------------------------------------------------------------
  // C strings and the libc routines the parser calls
  // ---------------------------------------------------------------------

  /** The C string a buffer holds: the bytes before its first NUL, or all of
      them when it has none. */
  function CString(buf: seq<byte>): (s: seq<byte>)
    ensures |s| <= |buf| && s == buf[..|s|]
    ensures NUL !in s
    ensures |s| < |buf| ==> buf[|s|] == NUL
  {
    if |buf| == 0 || buf[0] == NUL then [] else [buf[0]] + CString(buf[1..])
  }

  /** A string followed by its terminator reads back as itself, whatever
      comes after the terminator. */
  lemma {:induction false} CStringOfTerminated(s: seq<byte>, rest: seq<byte>)
    requires NUL !in s
    ensures CString(s + [NUL] + rest) == s
  {
    if |s| > 0 {
      assert (s + [NUL] + rest)[1..] == s[1..] + [NUL] + rest;
      CStringOfTerminated(s[1..], rest);
    }
  }

  /** A buffer without NUL is all string. */
  lemma {:induction false} CStringOfPlain(s: seq<byte>)
    requires NUL !in s
    ensures CString(s) == s
  {
    if |s| > 0 {
      assert s[0] in s;
      assert forall b :: b in s[1..] ==> b in s;
      CStringOfPlain(s[1..]);
      assert s == [s[0]] + s[1..];
    }
  }

  /** `strncmp(buf, word, |word|) == 0` for a word without NUL: the C string
      in `buf` starts with `word`. */
  predicate StartsWith(buf: seq<byte>, word: seq<byte>) {
    |word| <= |CString(buf)| && CString(buf)[..|word|] == word
  }

  /** `strcpy(dest, src)` into a buffer with room for the terminator: the
      source, its NUL, and the old contents of the rest of the buffer. */
  function StrCpy(dest: seq<byte>, src: seq<byte>): (buf: seq<byte>)
    requires |src| < |dest|
    ensures |buf| == |dest|
    ensures NUL !in src ==> CString(buf) == src
    ensures buf[|src| + 1..] == dest[|src| + 1..]
  {
    var buf := src + [NUL] + dest[|src| + 1..];
    if NUL !in src then CStringOfTerminated(src, dest[|src| + 1..]); buf else buf
  }

  /** The number of bytes before the first space. */
  function TokenLength(s: seq<byte>): (n: nat)
    ensures n <= |s|
    ensures forall k :: 0 <= k < n ==> s[k] != SPACE
    ensures n < |s| ==> s[n] == SPACE
  {
    if |s| == 0 || s[0] == SPACE then 0 else 1 + TokenLength(s[1..])
  }

  /** A token ends at the space after it, or at the end of the line. */
  lemma {:induction false} TokenLengthOf(t: seq<byte>, rest: seq<byte>)
    requires SPACE !in t && (|rest| == 0 || rest[0] == SPACE)
    ensures TokenLength(t + rest) == |t|
  {
    if |t| > 0 {
      assert (t + rest)[1..] == t[1..] + rest;
      TokenLengthOf(t[1..], rest);
    }
  }

  /** What successive `strtok(…, " ")` calls return from a C string: its
      maximal runs of non-space bytes, in order. */
  function Tokens(s: seq<byte>): (ts: seq<seq<byte>>)
    ensures forall t :: t in ts ==> |t| > 0 && SPACE !in t
    ensures NUL !in s ==> forall t :: t in ts ==> NUL !in t
    decreases |s|
  {
    if |s| == 0 then []
    else if s[0] == SPACE then Tokens(s[1..])
    else
      var n := TokenLength(s);
      [s[..n]] + Tokens(s[n..])
  }

  /** A token a line can be written from: non-empty, with no space and no
      NUL in it. */
  predicate Word(t: seq<byte>) {
    |t| > 0 && SPACE !in t && NUL !in t
  }

  /** Tokens written out with one space between each two. */
  function Join(ts: seq<seq<byte>>): seq<byte> {
    if |ts| == 0 then []
    else if |ts| == 1 then ts[0]
    else ts[0] + [SPACE] + Join(ts[1..])
  }

  /** Splitting a line joined from non-empty, space-free tokens gives the
      tokens back. */
  lemma {:induction false} TokensOfJoin(ts: seq<seq<byte>>)
    requires forall t :: t in ts ==> |t| > 0 && SPACE !in t
    ensures Tokens(Join(ts)) == ts
  {
    if |ts| == 1 {
      var t := ts[0];
      assert t in ts;
      TokenLengthOf(t, []);
      assert t + [] == t && t[..|t|] == t && t[|t|..] == [];
    } else if |ts| > 1 {
      var t, rest := ts[0], Join(ts[1..]);
      var line := t + ([SPACE] + rest);
      assert t in ts;
      assert line == Join(ts);
      TokenLengthOf(t, [SPACE] + rest);
      assert line[..|t|] == t && line[|t|..] == [SPACE] + rest;
      assert ([SPACE] + rest)[1..] == rest;
      assert forall u :: u in ts[1..] ==> u in ts;
      TokensOfJoin(ts[1..]);
      assert ts == [t] + ts[1..];
    }
  }

  /** Leading runs of a class of bytes. */
  predicate IsSpace(b: byte) {
    b == SPACE || 9 <= b <= 13
  }

  predicate IsDigit(b: byte) {
    ZERO <= b <= ZERO + 9
  }

  function SpaceCount(s: seq<byte>): (n: nat)
    ensures n <= |s|
    ensures forall k :: 0 <= k < n ==> IsSpace(s[k])
    ensures n < |s| ==> !IsSpace(s[n])
  {
    if |s| == 0 || !IsSpace(s[0]) then 0 else 1 + SpaceCount(s[1..])
  }

  function DigitCount(s: seq<byte>): (n: nat)
    ensures n <= |s|
    ensures forall k :: 0 <= k < n ==> IsDigit(s[k])
    ensures n < |s| ==> !IsDigit(s[n])
  {
    if |s| == 0 || !IsDigit(s[0]) then 0 else 1 + DigitCount(s[1..])
  }

  /** A run of digits ends at the first byte that is not one. */
  lemma {:induction false} DigitCountOf(ds: seq<byte>, rest: seq<byte>)
    requires forall k :: 0 <= k < |ds| ==> IsDigit(ds[k])
    requires |rest| == 0 || !IsDigit(rest[0])
    ensures DigitCount(ds + rest) == |ds|
  {
    if |ds| > 0 {
      assert (ds + rest)[1..] == ds[1..] + rest;
      DigitCountOf(ds[1..], rest);
    }
  }

  /** The number a string of decimal digits denotes. */
  function DecimalValue(ds: seq<byte>): nat
    requires forall k :: 0 <= k < |ds| ==> IsDigit(ds[k])
  {
    if |ds| == 0 then 0
    else
      var last := ds[|ds| - 1];
      assert IsDigit(last);
      DecimalValue(ds[..|ds| - 1]) * 10 + (last as int - ZERO as int)
  }

  /** The decimal digits of `n`, most significant first, with no leading
      zero: what `printf("%d")` writes for a non-negative `int`. */
  function Decimal(n: nat): (ds: seq<byte>)
    ensures |ds| > 0 && forall k :: 0 <= k < |ds| ==> IsDigit(ds[k])
    ensures ds[0] != ZERO || n == 0
  {
    if n < 10 then [ZERO + n] else Decimal(n / 10) + [ZERO + n % 10]
  }

  /** Reading back the digits `Decimal` writes gives the number. */
  lemma {:induction false} DecimalRoundTrip(n: nat)
    ensures DecimalValue(Decimal(n)) == n
  {
    if n >= 10 {
      var ds := Decimal(n);
      assert ds[..|ds| - 1] == Decimal(n / 10);
      DecimalRoundTrip(n / 10);
    }
  }

  const INT_MIN: int := -0x8000_0000
  const INT_MAX: int := 0x7fff_ffff
  const LONG_MIN: int := -0x8000_0000_0000_0000
  const LONG_MAX: int := 0x7fff_ffff_ffff_ffff

  /** `strtol` saturates a value out of range of a 64-bit `long`. */
  function ClampLong(x: int): (y: int)
    ensures LONG_MIN <= y <= LONG_MAX
    ensures LONG_MIN <= x <= LONG_MAX ==> y == x
  {
    if x < LONG_MIN then LONG_MIN else if x > LONG_MAX then LONG_MAX else x
  }

  /** The conversion of a `long` to a 32-bit `int`: the value modulo 2^32,
      read as two's complement. */
  function ToInt(x: int): (y: int)
    ensures INT_MIN <= y <= INT_MAX
    ensures (y - x) % 0x1_0000_0000 == 0
  {
    var m := x % 0x1_0000_0000;
    if m > INT_MAX then m - 0x1_0000_0000 else m
  }

  /** `atoi` as glibc computes it, `(int) strtol(s, NULL, 10)`: leading
      white space is skipped, one optional sign is read, then the longest
      run of decimal digits; anything after it is ignored, and a string with
      no digits there reads as 0. */
  function Atoi(s: seq<byte>): (v: int)
    ensures INT_MIN <= v <= INT_MAX
  {
    var rest := s[SpaceCount(s)..];
    var signed := |rest| > 0 && (rest[0] == PLUS || rest[0] == MINUS);
    var digits := if signed then rest[1..] else rest;
    var magnitude := DecimalValue(digits[..DigitCount(digits)]);
    ToInt(ClampLong(if signed && rest[0] == MINUS then -(magnitude as int) else magnitude))
  }

  /** A value an `int` holds passes through `strtol`'s saturation and the
      conversion to `int` unchanged. */
  lemma IntUnchanged(x: int)
    requires INT_MIN <= x <= INT_MAX
    ensures ToInt(ClampLong(x)) == x
  {
    assert ClampLong(x) == x;
    if x < 0 {
      assert x % 0x1_0000_0000 == x + 0x1_0000_0000;
    }
  }

  /** Any digits after the number are not read: `atoi` of `n`'s digits,
      followed by text that does not start with a digit, is `n`. */
  lemma AtoiOfDecimal(n: nat, tail: seq<byte>)
    requires n <= INT_MAX
    requires |tail| > 0 ==> !IsDigit(tail[0])
    ensures Atoi(Decimal(n) + tail) == n
  {
    var s := Decimal(n) + tail;
    assert SpaceCount(s) == 0 by { assert IsDigit(s[0]); }
    assert s[0..] == s;
    assert !(s[0] == PLUS || s[0] == MINUS) by { assert IsDigit(s[0]); }
    DigitCountOf(Decimal(n), tail);
    assert s[..|Decimal(n)|] == Decimal(n);
    DecimalRoundTrip(n);
    IntUnchanged(n);
  }

  /** A minus sign negates: `atoi("-n")` is `-n` for every `n` an `int`
      can hold negated. */
  lemma AtoiOfNegative(n: nat)
    requires n <= -INT_MIN
    ensures Atoi([MINUS] + Decimal(n)) == -(n as int)
  {
    var s := [MINUS] + Decimal(n);
    assert SpaceCount(s) == 0;
    assert s[0..] == s && s[1..] == Decimal(n);
    DigitCountOf(Decimal(n), []);
    assert Decimal(n) + [] == Decimal(n);
    assert Decimal(n)[..|Decimal(n)|] == Decimal(n);
    DecimalRoundTrip(n);
    IntUnchanged(-(n as int));
  }

  /** A token that starts with neither white space, a sign nor a digit reads
      as 0, which `prepare_insert` accepts as an id. */
  lemma AtoiOfNonNumeric(s: seq<byte>)
    requires |s| > 0 && !IsSpace(s[0]) && s[0] != PLUS && s[0] != MINUS && !IsDigit(s[0])
    ensures Atoi(s) == 0
  {
    assert SpaceCount(s) == 0;
    assert s[0..] == s;
  }

  // ---------------------------------------------------------------------
  // The compiler: prepare_statement and prepare_insert
  // ---------------------------------------------------------------------

  datatype StatementType = StatementInsert | StatementSelect

  /** A statement and the row an INSERT carries. */
  datatype Statement = Statement(stype: StatementType, row_to_insert: Row)

  datatype PrepareResult =
    | PrepareSuccess
    | PrepareNegativeId
    | PrepareStringTooLong
    | PrepareSyntaxError
    | PrepareUnrecognizedStatement

  /** `prepare_insert`: the line is split at spaces; a keyword, an id, a
      username and an email token must be there, the id read by `atoi` must
      not be negative, and the two strings must fit their columns. On
      success the id and the two strings are copied into the statement;
      on every error the statement is left as it was. */
  function PrepareInsert(line: seq<byte>, statement: Statement): (r: (PrepareResult, Statement))
    requires ValidRow(statement.row_to_insert)
    ensures ValidRow(r.1.row_to_insert)
    ensures r.0 != PrepareSuccess ==> r.1 == statement
    ensures r.0 == PrepareSyntaxError <==> |Tokens(CString(line))| < 4
    ensures var ts := Tokens(CString(line));
            |ts| >= 4 ==> (r.0 == PrepareNegativeId <==> Atoi(ts[1]) < 0)
    ensures var ts := Tokens(CString(line));
            |ts| >= 4 && Atoi(ts[1]) >= 0 ==>
              (r.0 == PrepareStringTooLong <==> |ts[2]| > COLUMN_USERNAME_SIZE || |ts[3]| > COLUMN_EMAIL_SIZE)
    ensures r.0 == PrepareSuccess ==>
              var ts := Tokens(CString(line));
              r.1.stype == StatementInsert
              && r.1.row_to_insert.id == Atoi(ts[1])
              && CString(r.1.row_to_insert.username) == ts[2]
              && CString(r.1.row_to_insert.email) == ts[3]
  {
    var ts := Tokens(CString(line));
    if |ts| < 4 then (PrepareSyntaxError, statement)
    else
      var id := Atoi(ts[1]);
      if id < 0 then (PrepareNegativeId, statement)
      else if |ts[2]| > COLUMN_USERNAME_SIZE || |ts[3]| > COLUMN_EMAIL_SIZE then (PrepareStringTooLong, statement)
      else
        assert ts[2] in ts && ts[3] in ts;
        var row := statement.row_to_insert;
        (PrepareSuccess,
         Statement(StatementInsert, Row(id, StrCpy(row.username, ts[2]), StrCpy(row.email, ts[3]))))
  }

  /** `prepare_statement`: the first six bytes of the line pick INSERT or
      SELECT; anything else is unrecognised and leaves the statement alone. */
  function PrepareStatement(line: seq<byte>, statement: Statement): (r: (PrepareResult, Statement))
    requires ValidRow(statement.row_to_insert)
    ensures ValidRow(r.1.row_to_insert)
    ensures r.0 == PrepareUnrecognizedStatement <==>
              !StartsWith(line, INSERT_KEYWORD) && !StartsWith(line, SELECT_KEYWORD)
    ensures r.0 == PrepareUnrecognizedStatement ==> r.1 == statement
    ensures !StartsWith(line, INSERT_KEYWORD) && StartsWith(line, SELECT_KEYWORD) ==>
              r == (PrepareSuccess, statement.(stype := StatementSelect))
    ensures StartsWith(line, INSERT_KEYWORD) ==> r == PrepareInsert(line, statement)
  {
    if StartsWith(line, INSERT_KEYWORD) then PrepareInsert(line, statement)
    else if StartsWith(line, SELECT_KEYWORD) then (PrepareSuccess, statement.(stype := StatementSelect))
    else (PrepareUnrecognizedStatement, statement)
  }

  /** What `prepare_statement` makes of `insert <id> <username> <email>`
      written with single spaces: a negative id is refused first, then a
      username over 32 bytes or an email over 255 bytes; otherwise the
      statement is an INSERT of the row read back from the line. Exactly 32
      and 255 bytes are accepted. */
  lemma PrepareInsertLine(keyword: seq<byte>, id: seq<byte>, username: seq<byte>, email: seq<byte>,
                          statement: Statement)
    requires ValidRow(statement.row_to_insert)
    requires StartsWith(keyword, INSERT_KEYWORD)
    requires Word(keyword) && Word(id) && Word(username) && Word(email)
    ensures var (result, prepared) := PrepareStatement(Join([keyword, id, username, email]), statement);
            (Atoi(id) < 0 ==> result == PrepareNegativeId && prepared == statement)
            && (Atoi(id) >= 0 && (|username| > COLUMN_USERNAME_SIZE || |email| > COLUMN_EMAIL_SIZE) ==>
                  result == PrepareStringTooLong && prepared == statement)
            && (Atoi(id) >= 0 && |username| <= COLUMN_USERNAME_SIZE && |email| <= COLUMN_EMAIL_SIZE ==>
                  result == PrepareSuccess && prepared.stype == StatementInsert
                  && prepared.row_to_insert.id == Atoi(id)
                  && CString(prepared.row_to_insert.username) == username
                  && CString(prepared.row_to_insert.email) == email)
  {
    InsertLineTokens(keyword, id, username, email);
  }

  /** The line `keyword id username email` starts with "insert" and splits
      back into its four tokens. */
  lemma InsertLineTokens(keyword: seq<byte>, id: seq<byte>, username: seq<byte>, email: seq<byte>)
    requires StartsWith(keyword, INSERT_KEYWORD)
    requires Word(keyword) && Word(id) && Word(username) && Word(email)
    ensures var line := Join([keyword, id, username, email]);
            StartsWith(line, INSERT_KEYWORD) && Tokens(CString(line)) == [keyword, id, username, email]
  {
    var ts := [keyword, id, username, email];
    var line := Join(ts);
    assert forall t :: t in ts ==> Word(t);
    TokensOfJoin(ts);
    JoinAvoids(ts, NUL);
    CStringOfPlain(line);
    CStringOfPlain(keyword);
    assert line[..|keyword|] == keyword;
  }

  /** A byte other than the space that no token holds is not in the line. */
  lemma {:induction false} JoinAvoids(ts: seq<seq<byte>>, b: byte)
    requires b != SPACE && forall t :: t in ts ==> b !in t
    ensures b !in Join(ts)
  {
    if |ts| > 1 {
      assert ts[0] in ts;
      assert forall t :: t in ts[1..] ==> t in ts;
      JoinAvoids(ts[1..], b);
    } else if |ts| == 1 {
      assert ts[0] in ts;
    }
  }

  // ---------------------------------------------------------------------
  // The virtual machine: execute_statement, execute_insert, execute_select
  // ---------------------------------------------------------------------

  datatype ExecuteResult = ExecuteSuccess | ExecuteTableFull

  /** How `%d` prints a `uint32_t` id: as the `int` with the same bits. */
  function FormatId(id: u32): (text: seq<byte>)
    ensures |text| > 0
    ensures id <= INT_MAX ==> text == Decimal(id)
    ensures id > INT_MAX ==> text[0] == MINUS
  {
    if id <= INT_MAX then Decimal(id) else [MINUS] + Decimal(0x1_0000_0000 - id)
  }

  /** "(", ", " and ")", the punctuation of `print_row`'s format. */
  const OPEN_PAREN: seq<byte> := [0x28]
  const COMMA_SPACE: seq<byte> := [0x2c, 0x20]
  const CLOSE_PAREN: seq<byte> := [0x29]

  /** The line `print_row` writes: `(id, username, email)`. */
  function FormatRow(row: Row): seq<byte> {
    OPEN_PAREN + FormatId(row.id) + COMMA_SPACE + CString(row.username) + COMMA_SPACE + CString(row.email) + CLOSE_PAREN
  }

  /** The lines `execute_select` prints for the given rows, one per row. */
  function Listing(rows: seq<Row>): (lines: seq<seq<byte>>)
    ensures |lines| == |rows| && forall i :: 0 <= i < |rows| ==> lines[i] == FormatRow(rows[i])
  {
    seq(|rows|, i requires 0 <= i < |rows| => FormatRow(rows[i]))
  }

  /** "Inserted." */
  const INSERTED: seq<byte> := [0x49, 0x6e, 0x73, 0x65, 0x72, 0x74, 0x65, 0x64, 0x2e]

  /** `execute_insert`: a full table refuses the row and nothing changes;
      otherwise the row is written into slot `row_count`, which appends it
      to the table's rows, and "Inserted." is printed. */
  method ExecuteInsert(statement: Statement, table: Table) returns (r: ExecuteResult, output: seq<seq<byte>>)
    requires table.Valid() && ValidRow(statement.row_to_insert)
    modifies table, table.pager, table.pager.pages, table.pager.Cached()
    ensures table.Valid() && table.pager.pages == old(table.pager.pages) && table.pager.file == old(table.pager.file)
    ensures table.root_page_number == old(table.root_page_number)
    ensures old(table.row_count) >= TABLE_MAXIMUM_ROWS ==>
              r == ExecuteTableFull && output == [] && table.row_count == old(table.row_count)
              && table.pager.Views() == old(table.pager.Views())
    ensures old(table.row_count) < TABLE_MAXIMUM_ROWS ==>
              r == ExecuteSuccess && output == [INSERTED]
              && table.Rows() == old(table.Rows()) + [statement.row_to_insert]
  {
    if table.row_count >= TABLE_MAXIMUM_ROWS {
      return ExecuteTableFull, [];
    }
    ghost var rows := table.Rows();
    var page, byte_offset := table.RowSlot(table.row_count);
    AppendRow(table, page, byte_offset, statement.row_to_insert, rows);
    r, output := ExecuteSuccess, [INSERTED];
  }

  /** The store and the count update of `execute_insert`, once the slot's
      page is in the cache. */
  method AppendRow(table: Table, page: array<byte>, byte_offset: nat, row: Row, ghost rows: seq<Row>)
    requires table.Valid() && ValidRow(row) && table.row_count < TABLE_MAXIMUM_ROWS
    requires page == table.pager.pages[RowSlotLocation(table.row_count).page_num]
    requires byte_offset == RowSlotLocation(table.row_count).byte_offset
    requires rows == table.Rows()
    modifies table, page
    ensures table.Valid() && table.Rows() == rows + [row]
    ensures table.row_count == old(table.row_count) + 1 && table.root_page_number == old(table.root_page_number)
  {
    ghost var n := table.row_count;
    ghost var loc := RowSlotLocation(n);
    ghost var v0 := table.pager.Views();
    SerializeRow(row, page, byte_offset);
    table.row_count := table.row_count + 1;
    ghost var v1 := table.pager.Views();
    assert v1[loc.page_num] == page[..];
    RowsAfterStore(v0, v1, n, row);
  }

  /** Storing a row's bytes into slot `n` and nothing else appends the row to
      the first `n` rows. */
  lemma RowsAfterStore(v0: seq<seq<byte>>, v1: seq<seq<byte>>, n: nat, row: Row)
    requires |v0| == TABLE_MAX_PAGES && |v1| == TABLE_MAX_PAGES && n < TABLE_MAXIMUM_ROWS && ValidRow(row)
    requires forall m :: 0 <= m < TABLE_MAX_PAGES ==> |v0[m]| == PAGE_SIZE && |v1[m]| == PAGE_SIZE
    requires var loc := RowSlotLocation(n);
             (forall m :: 0 <= m < TABLE_MAX_PAGES && m != loc.page_num ==> v1[m] == v0[m])
             && v1[loc.page_num][loc.byte_offset..loc.byte_offset + ROW_SIZE] == RowBytes(row)
             && (forall k :: 0 <= k < PAGE_SIZE && !(loc.byte_offset <= k < loc.byte_offset + ROW_SIZE) ==>
                   v1[loc.page_num][k] == v0[loc.page_num][k])
    ensures RowsIn(v1, n + 1) == RowsIn(v0, n) + [row]
  {
    var loc := RowSlotLocation(n);
    var after, before := RowsIn(v1, n + 1), RowsIn(v0, n);
    forall i | 0 <= i < n
      ensures after[i] == before[i]
    {
      var at := RowSlotLocation(i);
      if at.page_num == loc.page_num {
        RowSlotsDisjoint(i, n);
        assert v1[at.page_num][at.byte_offset..at.byte_offset + ROW_SIZE]
            == v0[at.page_num][at.byte_offset..at.byte_offset + ROW_SIZE];
      }
    }
    RowRoundTrip(row);
    assert after == before + [row];
  }

  /** `execute_select`: every row, from slot 0 up to `row_count`, is read
      back and printed in insertion order. Pages may be loaded into the
      cache, but no page's contents change. */
  method ExecuteSelect(statement: Statement, table: Table) returns (r: ExecuteResult, output: seq<seq<byte>>)
    requires table.Valid()
    modifies table.pager, table.pager.pages
    ensures table.Valid() && table.pager.pages == old(table.pager.pages) && table.pager.file == old(table.pager.file)
    ensures table.pager.Views() == old(table.pager.Views())
    ensures table.Rows() == old(table.Rows())
    ensures r == ExecuteSuccess && output == Listing(old(table.Rows()))
  {
    output := PrintRows(table);
    r := ExecuteSuccess;
  }

  /** The loop of `execute_select`: slots 0 up to `row_count`, in order, each
      read back and formatted as `print_row` prints it. */
  method PrintRows(table: Table) returns (output: seq<seq<byte>>)
    requires table.Valid()
    modifies table.pager, table.pager.pages
    ensures table.Valid() && table.pager.pages == old(table.pager.pages) && table.pager.file == old(table.pager.file)
    ensures table.pager.Views() == old(table.pager.Views())
    ensures output == Listing(RowsIn(old(table.pager.Views()), table.row_count))
  {
    ghost var views := table.pager.Views();
    output := [];
    var i := 0;
    while i < table.row_count
      invariant 0 <= i <= table.row_count
      invariant table.Valid() && table.pager.pages == old(table.pager.pages) && table.pager.file == old(table.pager.file)
      invariant table.pager.Views() == views
      invariant output == Listing(RowsIn(views, i))
    {
      var row := ReadRow(table, i);
      ListingGrows(views, i);
      output := output + [FormatRow(row)];
      i := i + 1;
    }
  }

  /** Listing one more slot adds that slot's line at the end. */
  lemma ListingGrows(views: seq<seq<byte>>, n: nat)
    requires |views| == TABLE_MAX_PAGES && n < TABLE_MAXIMUM_ROWS
    requires forall m :: 0 <= m < TABLE_MAX_PAGES ==> |views[m]| == PAGE_SIZE
    ensures Listing(RowsIn(views, n + 1)) == Listing(RowsIn(views, n)) + [FormatRow(SlotRow(views, n))]
  {
    assert RowsIn(views, n + 1) == RowsIn(views, n) + [SlotRow(views, n)];
  }

  /** The row at `row_slot(table, i)`, deserialised. The slot's page may be
      loaded into the cache; no page's contents change. */
  method ReadRow(table: Table, i: nat) returns (row: Row)
    requires table.Valid() && i < table.row_count
    modifies table.pager, table.pager.pages
    ensures table.Valid() && table.pager.pages == old(table.pager.pages) && table.pager.file == old(table.pager.file)
    ensures table.pager.Views() == old(table.pager.Views())
    ensures row == SlotRow(table.pager.Views(), i)
  {
    var page, byte_offset := table.RowSlot(i);
    row := DeserializeRow(page, byte_offset);
    assert table.pager.Views() == old(table.pager.Views());
  }

  /** `execute_statement`: dispatch on the statement's type. */
  method ExecuteStatement(statement: Statement, table: Table) returns (r: ExecuteResult, output: seq<seq<byte>>)
    requires table.Valid() && ValidRow(statement.row_to_insert)
    modifies table, table.pager, table.pager.pages, table.pager.Cached()
    ensures table.Valid() && table.pager.pages == old(table.pager.pages) && table.pager.file == old(table.pager.file)
    ensures statement.stype == StatementSelect ==>
              r == ExecuteSuccess && output == Listing(old(table.Rows())) && table.Rows() == old(table.Rows())
    ensures statement.stype == StatementInsert && old(table.row_count) >= TABLE_MAXIMUM_ROWS ==>
              r == ExecuteTableFull && output == [] && table.Rows() == old(table.Rows())
    ensures statement.stype == StatementInsert && old(table.row_count) < TABLE_MAXIMUM_ROWS ==>
              r == ExecuteSuccess && output == [INSERTED]
              && table.Rows() == old(table.Rows()) + [statement.row_to_insert]
  {
    match statement.stype {
      case StatementInsert =>
        r, output := ExecuteInsert(statement, table);
      case StatementSelect =>
        r, output := ExecuteSelect(statement, table);
    }
  }

  // ---------------------------------------------------------------------
  // The scripted sessions of tests.py
  // ---------------------------------------------------------------------

  /** The statement `main` declares before preparing a line; its contents
      are whatever the stack held, taken here as zeros. */
  function BlankStatement(): (statement: Statement)
    ensures ValidRow(statement.row_to_insert)
  {
    Statement(StatementSelect, Row(0, Zeros(USERNAME_SIZE), Zeros(EMAIL_SIZE)))
  }

  /** tests.py's first session: `insert 1 <username> <email>` with short
      strings prepares an INSERT of id 1 whose strings read back unchanged. */
  lemma PrepareIdOneLine(username: seq<byte>, email: seq<byte>, statement: Statement)
    requires ValidRow(statement.row_to_insert) && Word(username) && Word(email)
    requires |username| <= COLUMN_USERNAME_SIZE && |email| <= COLUMN_EMAIL_SIZE
    ensures var (result, prepared) := PrepareStatement(Join([INSERT_KEYWORD, Decimal(1), username, email]), statement);
            result == PrepareSuccess && prepared.stype == StatementInsert && prepared.row_to_insert.id == 1
            && CString(prepared.row_to_insert.username) == username
            && CString(prepared.row_to_insert.email) == email
  {
    CStringOfPlain(INSERT_KEYWORD);
    AtoiOfDecimal(1, []);
    assert Decimal(1) + [] == Decimal(1);
    PrepareInsertLine(INSERT_KEYWORD, Decimal(1), username, email, statement);
  }

  /** tests.py's buffer-overflow session: a username of 33 bytes with an
      email of 256 bytes is refused as too long, and so is either one alone;
      32 and 255 bytes are accepted. */
  lemma PrepareLongStrings(username_length: nat, email_length: nat, statement: Statement)
    requires ValidRow(statement.row_to_insert) && username_length > 0 && email_length > 0
    ensures var line := Join([INSERT_KEYWORD, Decimal(1), seq(username_length, _ => 0x61), seq(email_length, _ => 0x62)]);
            var result := PrepareStatement(line, statement).0;
            (result == PrepareStringTooLong <==>
               username_length > COLUMN_USERNAME_SIZE || email_length > COLUMN_EMAIL_SIZE)
            && (result == PrepareSuccess <==>
               username_length <= COLUMN_USERNAME_SIZE && email_length <= COLUMN_EMAIL_SIZE)
  {
    var username: seq<byte> := seq(username_length, _ => 0x61);
    var email: seq<byte> := seq(email_length, _ => 0x62);
    CStringOfPlain(INSERT_KEYWORD);
    AtoiOfDecimal(1, []);
    assert Decimal(1) + [] == Decimal(1);
    assert Word(username) && Word(email);
    PrepareInsertLine(INSERT_KEYWORD, Decimal(1), username, email, statement);
  }

  /** tests.py's negative-id session: `insert -1 <username> <email>` is
      refused for its id and leaves the statement as it was. */
  lemma PrepareNegativeIdLine(username: seq<byte>, email: seq<byte>, statement: Statement)
    requires ValidRow(statement.row_to_insert) && Word(username) && Word(email)
    ensures PrepareStatement(Join([INSERT_KEYWORD, [MINUS] + Decimal(1), username, email]), statement)
            == (PrepareNegativeId, statement)
  {
    CStringOfPlain(INSERT_KEYWORD);
    AtoiOfNegative(1);
    PrepareInsertLine(INSERT_KEYWORD, [MINUS] + Decimal(1), username, email, statement);
  }

  /** tests.py's first session on an empty database file: the insert prints
      "Inserted." and the select prints the row back as `(1, username,
      email)`. */
  method InsertThenSelect(username: seq<byte>, email: seq<byte>) returns (output: seq<seq<byte>>)
    requires Word(username) && Word(email)
    requires |username| <= COLUMN_USERNAME_SIZE && |email| <= COLUMN_EMAIL_SIZE
    ensures output == [INSERTED, OPEN_PAREN + Decimal(1) + COMMA_SPACE + username + COMMA_SPACE + email + CLOSE_PAREN]
  {
    var line := Join([INSERT_KEYWORD, Decimal(1), username, email]);
    var (_, prepared) := PrepareStatement(line, BlankStatement());
    PrepareIdOneLine(username, email, BlankStatement());
    output := InsertIntoEmptyTable(prepared);
  }

  /** An INSERT run on a table opened over an empty file, then a SELECT:
      the one line the select prints is the inserted row. */
  method InsertIntoEmptyTable(statement: Statement) returns (output: seq<seq<byte>>)
    requires ValidRow(statement.row_to_insert)
    ensures output == [INSERTED, FormatRow(statement.row_to_insert)]
  {
    CacheGeometry();
    var table := new Table.Open([]);
    assert table.row_count == 0 by { assert RowCountOnOpen(0) == 0; }
    ghost var initial := table.Rows();
    assert initial == [];
    var _, inserted := ExecuteInsert(statement, table);
    ghost var rows := table.Rows();
    assert rows == [statement.row_to_insert];
    var _, printed := ExecuteSelect(statement, table);
    assert printed == Listing(rows);
    output := inserted + printed;
  }
}
