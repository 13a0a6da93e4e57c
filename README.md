# simpleDB table engine in Dafny

This project models the in-memory table engine of `simpleDB_v1.cpp`, a small
C++ read-eval loop that stores rows of `(id, username, email)` in pages of
4096 bytes. The model covers:

- the fixed row layout: `id` at byte 0, a 32-byte `username` at byte 4 and a
  255-byte `email` at byte 36, 291 bytes per row, 14 rows per page and at
  most 100 pages, so 1400 rows;
- the row codec: `serializeRow` and `deserializeRow` copy a row into and out
  of its slot of a page;
- the page store: `newTable`, and `rowSlot`, which maps a row number to a page
  and byte offset and allocates that page on first use;
- the statement parser `prepareStatement`, including the way
  `sscanf(line, "insert %d %s %s")` reads its three conversions;
- the executor: `executeInsert`, `executeSelect` and `executeStatement`;
- the meta-command test `doMetaCommand`, and the body of the `main` loop that
  routes one input line and reports an outcome.

Files and modules:

| file | module | contents |
|---|---|---|
| `common.dfy` | `Common` | bytes, `uint32`, `Option`, NUL-free byte strings |
| `layout.dfy` | `Layout` | size constants, field offsets, slot arithmetic, the pointer-scaling discrepancy |
| `codec.dfy` | `RowCodec` | `Row`, packing and unpacking, `memcpy` into a page, `serializeRow`, `deserializeRow` |
| `table.dfy` | `PageStore` | class `Table` (`newTable`, `rowSlot`, `executeInsert`, `executeSelect`) |
| `statements.dfy` | `Statements` | `prepareStatement` and the `sscanf` conversions |
| `repl.dfy` | `Repl` | `doMetaCommand`, `executeStatement`, one turn of the loop (`Step`) and the loop (`Session`) |
| `scenarios.dfy` | `Scenarios` | concrete lines and short sessions |

The table is a class. Its fields are `numRows` and `pages`, an array of 100
optional byte arrays. A ghost field `Rows` holds the rows inserted so far,
and the invariant `Valid()` says that the slot of row `i` holds `Rows[i]`,
packed. Each method is proved against a function on `Rows`:

- `ExecuteInsert` against `InsertSpec`;
- `ExecuteStatement` against `ExecuteSpec`;
- `Step` against `StepSpec`;
- `Session` against `Run`.

The properties of the system are proved as lemmas about those functions.

A line is a sequence of bytes. C string functions see it up to its first NUL
byte (`CString`). `readInput` copies the whole line and its NUL into a
50-byte buffer without checking the length, so a line of 50 bytes or more
overflows it. `Step` and `Session` therefore require every line to be
shorter than 50 bytes.

## Model

| member | source | states |
|---|---|---|
| `Layout.Constants` | simpleDB_v1.cpp:53-62 | A row is 291 bytes, a page holds 14 rows, and the table holds at most 1400 rows. |
| `Layout.FieldsTileRow` | simpleDB_v1.cpp:53-59 | `id` starts at 0, and each field starts where the previous one ends. The email ends exactly at `ROW_SIZE`: the layout is contiguous, has no overlaps and fills the row. |
| `Layout.RowsFitPage` | simpleDB_v1.cpp:60-61 | `ROWS_PER_PAGE * ROW_SIZE <= PAGE_SIZE`, and a page holds at least one row. |
| `Layout.SlotAddress` | simpleDB_v1.cpp:214-223 | For every row number, the slot lies wholly inside its page and starts on a row boundary. The row number can be recovered from the page and the offset. The page index is below `TABLE_MAX_PAGES` exactly when the row number is below `TABLE_MAX_ROWS`. |
| `Layout.SlotsDisjoint` | simpleDB_v1.cpp:221-222 | Two different rows on the same page occupy disjoint byte ranges. |
| `Layout.FieldStart` | simpleDB_v1.cpp:56-58 | A field copied at its declared byte offset lies inside its slot, and so inside the page. |
| `Layout.ScaledEmailLeavesPage` | simpleDB_v1.cpp:199 | As written, the email copy starts at or past the end of the page for every slot and every struct size of at least 291 bytes. |
| `Layout.ScaledUsernameHitsRowFour` | simpleDB_v1.cpp:198 | As written, with a struct size of 291 to 363 bytes, row 0's username is copied into row 4's slot. |
| `RowCodec.EncodeU32` | simpleDB_v1.cpp:38 | The `id` field is packed as exactly `ID_SIZE` bytes. |
| `RowCodec.U32RoundTrip` | simpleDB_v1.cpp:197-205 | Decoding the four bytes of an encoded `id` gives back that `id`. |
| `RowCodec.U32BytesRoundTrip` | simpleDB_v1.cpp:197-205 | Every 4-byte pattern is the encoding of the `id` it decodes to. |
| `RowCodec.EncodeRow` | simpleDB_v1.cpp:37-41 | A packed row is `ROW_SIZE` bytes long. Its `id`, `username` and `email` bytes sit at the declared offsets with the declared sizes. |
| `RowCodec.RowRoundTrip` | simpleDB_v1.cpp:190-206 | Unpacking a packed row yields the same `id`, `username` and `email`. |
| `RowCodec.SlotRoundTrip` | simpleDB_v1.cpp:190-206 | Packing the row unpacked from any slot reproduces that slot's bytes. |
| `RowCodec.CopyBytes` | simpleDB_v1.cpp:197-199 | `memcpy`: the destination becomes its bytes before `at`, then the source, then its bytes after the copied range. |
| `RowCodec.SerializeRow` | simpleDB_v1.cpp:190-200 | The slot at `slotStart` now holds the packed row. Every byte of the page outside the slot is unchanged. |
| `RowCodec.DeserializeRow` | simpleDB_v1.cpp:202-206 | The returned row packs to exactly the bytes of the slot. |
| `PageStore.InsertKeepsCapacity` | simpleDB_v1.cpp:144-153 | An insert never takes the rows past `TABLE_MAX_ROWS`. It reports a full table exactly when the table holds `TABLE_MAX_ROWS` rows. |
| `PageStore.EarlierSlotKept` | simpleDB_v1.cpp:149 | Packing row `n` into its slot leaves the slot of every earlier row on that page unchanged. |
| `PageStore.Table.constructor` | simpleDB_v1.cpp:174-181 | A new table has no rows and every page slot empty, and it satisfies the table invariant. |
| `PageStore.Table.RowSlot` | simpleDB_v1.cpp:214-224 | Returns `SlotAddress(rowNum)`. If the page exists, nothing changes. Otherwise only that page slot changes, to a fresh page. Row count and rows are unchanged. |
| `PageStore.Table.ExecuteInsert` | simpleDB_v1.cpp:144-153 | Result and new rows are `InsertSpec(old rows, r)`: at capacity the result is a full table and no object changes; otherwise the row is appended and `numRows` grows by exactly 1. The invariant is kept, so `numRows <= TABLE_MAX_ROWS`. |
| `PageStore.Table.ExecuteSelect` | simpleDB_v1.cpp:155-163 | Returns the rows in slots `0 .. numRows-1` in ascending order, which is the rows in insertion order. Pages, row count and rows are unchanged. |
| `PageStore.InsertThreeThenSelect` | simpleDB_v1.cpp:144-163 | On a new table, inserting r1, r2 and r3 and then selecting yields exactly `[r1, r2, r3]`. |
| `PageStore.RowSlotTwice` | simpleDB_v1.cpp:216-220 | Two requests for the same row's slot return the same address, `SlotAddress(rowNum)`. |
| `Statements.CString` | simpleDB_v1.cpp:102-106 | The C string held in the buffer is a prefix of it with no NUL, followed by a NUL if it is shorter than the buffer. |
| `Statements.CStringOfText` | simpleDB_v1.cpp:102-106 | A buffer without NUL bytes is its own C string. |
| `Statements.SkipSpace` | simpleDB_v1.cpp:126 | Whitespace skipping drops only `isspace` bytes and stops at a non-space byte or the end. |
| `Statements.SpanToken` | simpleDB_v1.cpp:126 | `%s` reads the longest prefix without whitespace. It stops at whitespace or the end. |
| `Statements.SpanDigits` | simpleDB_v1.cpp:126 | `%d` reads the longest prefix of decimal digits. |
| `Statements.Decimal` | simpleDB_v1.cpp:126 | The decimal digits of `n` are non-empty, are all digits and denote `n`. |
| `Statements.ScanInt` | simpleDB_v1.cpp:126-127 | When `%d` succeeds, the unread rest is a proper suffix of the input and does not start with a digit. Its value and its failure cases are stated by `ScanIntOf` and `ScanIntFails`. |
| `Statements.ScanString` | simpleDB_v1.cpp:126-129 | `%s` fails exactly when only whitespace is left. Otherwise it returns a non-empty token without whitespace. Only whitespace comes before the token in the input, so the token is the first one. The rest follows the token and is a suffix that is empty or starts with whitespace. |
| `Statements.ToUint32` | simpleDB_v1.cpp:126-127 | A value in `0 .. 2^32-1` is stored unchanged, and a negative value of at least `-2^32` is stored plus 2^32. |
| `Statements.PadText` | simpleDB_v1.cpp:126-129 | The C string of a stored column is exactly the token scanned into it. |
| `Statements.Prepare` | simpleDB_v1.cpp:123-142 | A line is unrecognized exactly when its text neither starts with `insert` nor equals `select`. It is a select exactly when its text is `select`. It is an insert or a syntax error exactly when its text starts with `insert`. |
| `Statements.PreparedRowFits` | simpleDB_v1.cpp:126-133 | Each column of a parsed insert holds a non-empty, whitespace-free token that fits the column together with its NUL. |
| `Statements.ScanIntOf` | simpleDB_v1.cpp:126-127 | `%d` over any whitespace, an optional `+` or `-`, digits and then text not starting with a digit reads the digits' value, negated after `-`, and leaves that text unread. |
| `Statements.ScanIntFails` | simpleDB_v1.cpp:126-127 | After the whitespace and the optional sign, `%d` fails exactly when no digit follows. |
| `Statements.ScanStringOf` | simpleDB_v1.cpp:126-129 | `%s` over any whitespace, a token and then whitespace or the end reads that token and leaves the rest. |
| `Statements.ScanArguments` | simpleDB_v1.cpp:126-131 | The three conversions of `sscanf(line, "insert %d %s %s")` fail exactly when `%d` fails or only whitespace is left for the username or for the email, as `argsAssigned < 3`. Otherwise the id is the `%d` value, and the username and email are non-empty tokens without whitespace. |
| `Statements.ScanInsert` | simpleDB_v1.cpp:126-133 | An insert line gives no row exactly when a conversion fails, or the username does not fit its 32 bytes with its NUL, or the email does not fit its 255 bytes with its NUL. Otherwise the row is the id taken modulo 2^32 with both tokens NUL-padded to their column widths. |
| `Statements.ArgumentsFail` | simpleDB_v1.cpp:126-131 | An insert line whose conversions fail is a syntax error. |
| `Statements.PrepareInsertLine` | simpleDB_v1.cpp:123-133 | Parsing `insert <id> <username> <email>` yields the insert of exactly that row: the parser inverts `InsertLine`. |
| `Statements.MissingEmailIsSyntaxError` | simpleDB_v1.cpp:126-131 | `insert <id> <username>` assigns fewer than three fields and is a syntax error. |
| `Statements.NonNumericIdIsSyntaxError` | simpleDB_v1.cpp:126-131 | `insert` followed by a word that is neither a sign nor a digit is a syntax error. |
| `Repl.DoMetaCommand` | simpleDB_v1.cpp:114-121 | The session ends exactly when the buffer holds the C string `.exit`. Every other meta command is unrecognized. |
| `Repl.ExitText` | simpleDB_v1.cpp:115 | `strcmp(buffer, ".exit") == 0` exactly when the line starts with `.exit` and ends there or continues with a NUL. |
| `Repl.ExecuteStatement` | simpleDB_v1.cpp:165-172 | Result, printed rows and new rows are `ExecuteSpec`: an insert is `InsertSpec` and prints nothing, and a select prints every row and changes nothing. |
| `Repl.StepShape` | simpleDB_v1.cpp:233-266 | One line either leaves the rows unchanged or appends one row below capacity and reports `Executed`. A dot-line changes nothing and is `.exit` or unrecognized. A turn that ends the session changes nothing. |
| `Repl.Step` | simpleDB_v1.cpp:232-266 | One turn of the loop reports and leaves exactly `StepSpec(old rows, line)`, and keeps the table invariant. |
| `Repl.Session` | simpleDB_v1.cpp:227-269 | The loop over the lines reports the outcomes, up to and including the one that ends the session, and leaves the rows that `Run` gives. |
| `Repl.RunKeepsCapacity` | simpleDB_v1.cpp:230-268 | A session never takes the table past capacity and never loses or reorders rows: the old rows are a prefix of the final rows. |
| `Repl.StepInsertLine` | simpleDB_v1.cpp:246-265 | A well-formed insert line appends exactly its row below capacity. At capacity it reports a full table and changes nothing. |
| `Repl.StepSelect` | simpleDB_v1.cpp:135-137 | The line `select` prints every row, in insertion order, and changes nothing. |
| `Repl.FullTableIsFrozen` | simpleDB_v1.cpp:145-147 | Once the table is full, no sequence of lines changes its rows. Every `Executed` outcome then prints all rows or nothing. |
| `Repl.StepPrints` | simpleDB_v1.cpp:155-163 | A turn that prints rows prints all of them and changes nothing. |
| `Repl.InsertThenSelect` | simpleDB_v1.cpp:144-163 | Inserting a row and then selecting prints the earlier rows followed by the new one. The session reports both turns. |
| `Scenarios.EmptyLineIsFatal` | simpleDB_v1.cpp:97-100 | An empty read ends the session with an error, whatever lines would follow. |
| `Scenarios.ExitEndsSession` | simpleDB_v1.cpp:115-116 | `.exit` ends the session, and the lines after it never run. |
| `Scenarios.ExitWithArgument` | simpleDB_v1.cpp:114-121 | `.exit now` is an unrecognized meta command. |
| `Scenarios.UnknownMetaCommand` | simpleDB_v1.cpp:233-241 | `.tables` is an unrecognized meta command. |
| `Scenarios.UnknownKeyword` | simpleDB_v1.cpp:139-141 | `foo` is an unrecognized statement. |
| `Scenarios.SelectWithArgument` | simpleDB_v1.cpp:135-141 | `select x` is an unrecognized statement. |
| `Scenarios.InsertWithoutEmail` | simpleDB_v1.cpp:126-131 | `insert 1 bob` is a syntax error. |
| `Scenarios.InsertWithWordId` | simpleDB_v1.cpp:126-131 | `insert abc bob bob@x.com` is a syntax error. |
| `Scenarios.InsertOneThenSelect` | simpleDB_v1.cpp:144-163 | On an empty table, `insert 1 bob bob@x.com` then `select` prints exactly that one row. |

## Left out

- Terminal output (`printPrompt`, `printRow`, the messages in `main`) is not modelled. An outcome value (`Outcome`) and the sequence of rows a select would print stand in for it.
- `readInput` is modelled only as far as its effect on the loop:
  - an empty read is the `Fatal` outcome;
  - a line of 50 bytes or more would overflow the 50-byte buffer, so `Step` and `Session` require every line to be shorter;
  - a read error at end of stream is not distinguished from an empty line.
- `exit(0)` and `exit(1)` are the `Terminate` and `Fatal` outcomes, which end `Run` and `Session`. Exit statuses are not modelled.
- Memory management is not modelled:
  - `newInputBuffer`, `closeInputBuffer` and `freeTable` are left out;
  - so are the mismatched `delete` on `malloc`'d pages and `freeTable` scanning until the first empty page slot.
  - Pages are Dafny arrays owned by the table.
- The host byte order of `id` is fixed as little-endian in `EncodeU32`.
- The model says nothing about the bytes of a fresh page, just as `malloc` leaves them indeterminate. No unwritten slot is ever read, so no result depends on them.
- `Statements.ScanInsert`: a `username` of 32 bytes or more, or an `email` of 255 bytes or more, overflows its column in the source, which is undefined behaviour. The model rejects such a line as a syntax error instead.
- `Statements.ToUint32`: the `%d` value is taken modulo 2^32 as a mathematical integer. The C library's behaviour on a decimal outside the `int` range is not modelled.
- `Statements.Pad`: the column bytes after the token's NUL are uninitialised stack bytes in the source. The model fills them with NUL. No result observed through C strings depends on this.
- `Layout.ScaledFieldStart`: the `Row*`-scaled addresses that `serializeRow` and `deserializeRow` compute are undefined behaviour. They are recorded under Findings. The rest of the model copies fields at their declared byte offsets (`Layout.FieldStart`).
- `PageStore.RowSlotTwice`: that the second request allocates nothing is shown inside its body. Its `ensures` states only the equal addresses.
- `Repl.Session` models the loop over a given finite list of lines, and does not model a blocking read of the next line.

## Findings

| source | as written | input that shows it | evidently intended | confidence | as-written member | corrected member |
|---|---|---|---|---|---|---|
| simpleDB_v1.cpp:197-205 | `destination + USERNAME_OFFSET` and `destination + EMAIL_OFFSET` add the offsets to a `Row*`, so C scales them by `sizeof(Row)` (at least 291, usually 292). The username copy starts 4 rows into the page and the email copy 36 rows in. | Any insert. For row 0 with `sizeof(Row) == 292`, the email is written at byte 10512 of a 4096-byte page, and the username lands inside row 4's slot. | Add the byte offsets to a `char*`, so each field lands at its declared offset inside the row's slot. | not executed | `Layout.ScaledEmailLeavesPage`, `Layout.ScaledUsernameHitsRowFour` (on `Layout.ScaledFieldStart`) | `Layout.FieldStart`, used by `RowCodec.SerializeRow` and `RowCodec.DeserializeRow` |
