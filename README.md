# music_lib — a Dafny model of the song repository and its HTTP handlers

music_lib is a small Go web service that keeps a library of songs in
PostgreSQL. It has two layers:

- the repository, `src/internal/base/db.go`;
- the HTTP handlers, `src/internal/service/service.go`. Each handler parses a
  request, calls the repository and turns the outcome into a status and a
  body.

This project models both layers and proves what they do.

- **wrappers.dfy, model.dfy**: `Option`, and the `Song` record of
  `src/internal/model/song.go`.
- **strings.dfy**: Go's `strings.Split` for a one-character separator, the
  only strings function the encoder calls, and `Join` with a string
  separator, used to state what the encoder returns. Their laws: split/join
  round trip, splitting around a separator, joining two lists.
- **filter.dfy**: the filter encoder `encode`.
  - It is written as an imperative method with the loop, the accumulator
    `all` and the in-place rename of `twice[0]`.
  - It is proved equal to a specification: the rendered clauses of the
    `&`-pieces, joined by `" and "`.
  - A reader for the WHERE text shows that the text stands for exactly the
    clauses whenever no value holds a quote and no column name holds a
    space. It also shows how a quote
    inside a value ends the value early.
- **paging.dfy**: 64-bit wrap-around of `offset := (page - 1) * size`.
  - The window `Offset(offset).Limit(size)` selects. gorm leaves a negative
    offset or limit out of the SQL.
  - Consecutive pages tile the table.
- **table.dfy**: what the SQL statements do to the table, which is held as
  a sequence of rows in primary-key order:
  - the WHERE selection;
  - the first match by id;
  - DELETE, which partitions the table;
  - UPDATE, which merges non-zero fields and leaves every other row alone;
    the decoded update is taken to carry no id, so no id changes;
  - INSERT at the end, with the id the database assigns to a row whose
    decoded id is blank.
- **base.dfy**: the repository as the class `Repository`.
  - Its fields are the table and the next id the database assigns.
  - Queries are functions that read the fields; `AddSong`, `DeleteSong` and
    `UpdateSong` are methods that modify them.
  - `Valid()` keeps the table in strictly ascending id order, below the next
    id.
  - A per-call input says whether the database round trip fails.
- **service.dfy**: the handlers as methods of a class `Service` that holds
  the repository.
  - `Add` performs the find-then-insert-if-absent sequence. It uses the rule
    that the first status written wins.
  - `AddIfAbsent` states the resulting table, and lemmas prove it idempotent
    and key-preserving.

Inputs that stand for I/O are parameters of the model:

- the outcome of `strconv.Atoi` (`Option<Int64>`);
- the outcome of JSON decoding (`Decoded`);
- the encoded query string (the filter, a `string`);
- whether a database call fails (`dbFails`, `findFails`);
- the driver's error text for a failed insert (`createError`).

In four places the code is more permissive than a careful design would be.
In each the model follows the code:

- page 0 and negative sizes reach the database unchecked;
- a duplicate add is skipped silently and still answers 201;
- filter keys are not checked against a list of columns;
- update and delete of a missing key succeed.

## Model

| member | source | states |
|---|---|---|
| Strings.Split | src/internal/base/db.go:77 | strings.Split always yields at least one piece |
| Strings.SplitCount | src/internal/base/db.go:77 | there is a second piece exactly when the separator occurs, so `twice[1]` exists iff the piece holds `=` |
| Strings.SplitPieces | src/internal/base/db.go:69 | no piece contains the separator |
| Strings.JoinSplit | src/internal/base/db.go:69 | joining the pieces with the separator gives back the original string |
| Strings.SplitAround | src/internal/base/db.go:69 | splitting `a + sep + b` is splitting `a` followed by splitting `b` |
| Strings.SplitWithout | src/internal/base/db.go:77 | a string without the separator is one piece, itself |
| Strings.JoinAppend | src/internal/base/db.go:73-74 | joining two non-empty lists puts exactly one separator between their joins |
| Filter.Encode | src/internal/base/db.go:68-88 | the loop, with its rename of `twice[0]`, returns the rendered clauses of the `&`-pieces joined by `" and "`: " and " before every clause but the first, clauses in piece order; it needs every piece to hold `=` |
| Filter.PieceText | src/internal/base/db.go:77-82 | the `temple` text built from one piece is the rendered clause of that piece |
| Filter.ConcatenatedFilters | src/internal/base/db.go:69-84 | `f1&f2` is well-formed iff both are; its clauses are those of f1 then f2, and its text is their texts joined by " and " |
| Filter.SinglePair | src/internal/base/db.go:77-82 | `key=value` gives the single clause on the renamed key (only `group` becomes `group_name`), with the value unchanged, quotes and all |
| Filter.SecondEqualsDropped | src/internal/base/db.go:77-82 | whatever follows a second `=` in a piece is dropped from the value |
| Filter.EmptyFilterIsMalformed | src/internal/base/db.go:69-82 | the empty filter is one empty piece without `=`, so encode indexes out of range on it |
| Filter.ParseRendered | src/internal/base/db.go:73-83 | the joined text of clauses with no space in a column and no quote in a value reads back as exactly those clauses, in order |
| Filter.EncodedTextReadsBack | src/internal/base/db.go:68-88 | the text encode writes for a filter with plain clauses reads back as the filter's clauses |
| Filter.QuoteEndsValue | src/internal/base/db.go:82 | a quote inside a value ends the quoted value early and the rest is read as further SQL; a short rest does not parse at all |
| Paging.Wrap64 | src/internal/base/db.go:117 | Go's int arithmetic: in-range values are unchanged, otherwise the result equals the input modulo 2^64 |
| Paging.Offset | src/internal/base/db.go:117 | no contract; defined as `(page - 1) * size` with both operations wrapped to 64 bits, the same line as db.go:128 and db.go:140; characterised by Paging.OffsetExact and Paging.HugePageWrapsToStart |
| Paging.OffsetExact | src/internal/base/db.go:117 | without overflow the offset is `(page - 1) * size` |
| Paging.HugePageWrapsToStart | src/internal/base/db.go:117 | the product is not checked: page 2^62+1 with size 4 wraps to offset 0 |
| Paging.Skip | src/internal/base/db.go:119 | OFFSET skips at most the whole table |
| Paging.Window | src/internal/base/db.go:119 | `Offset(offset).Limit(size)` returns the consecutive rows starting after the skipped ones, at most `size` of them when `size` is non-negative |
| Paging.WindowUnique | src/internal/base/db.go:119 | the window is the only sequence meeting its specification |
| Paging.PageZeroIsPageOne | src/internal/base/db.go:117-119 | for a non-negative size, page 0 gives the same rows as page 1, since its negative offset is dropped |
| Paging.NegativeSizeIsWholeTable | src/internal/base/db.go:117-119 | a negative size, from page 1 on and while `(page-1)*size` does not overflow, returns the whole table |
| Paging.PagesTileTable | src/internal/base/db.go:115-124 | pages 1..k are the first k*size rows in order, and all rows once k*size covers the table |
| Paging.PageAtOffset | src/internal/base/db.go:116-119 | page k of the tiling is the window the read selects at the offset `(page-1)*size` for page k, whenever that offset fits in 64 bits |
| Table.KeyClausesMeanKey | src/internal/base/db.go:93 | the bound condition `group_name = ? and song = ?` holds exactly for rows with that group and song |
| Table.Where | src/internal/base/db.go:131 | the selection keeps exactly the rows meeting every clause, keeps ascending id order, and is no longer than the table |
| Table.Matching | src/internal/base/db.go:142 | the rows selected by the key condition are exactly the rows with the key |
| Table.MatchingEmpty | src/internal/base/db.go:142 | no row is selected iff no row has the key |
| Table.First | src/internal/base/db.go:108 | First is none iff no row meets the clauses; otherwise it is a row of the table that meets them |
| Table.FirstIsLeast | src/internal/base/db.go:179 | with the rows in primary-key order, First returns the selected row with the least id |
| Table.RemovedMembers | src/internal/base/db.go:188 | after DELETE the rows left are exactly the rows without the key |
| Table.Removed | src/internal/base/db.go:188 | no contract; defined as the table without the rows that have the key, in order; characterised by Table.RemovedMembers, Table.RemovedDropsKey, Table.RemovedKeepsOrder and Table.DeletePartitions |
| Table.RemovedDropsKey | src/internal/base/db.go:188 | after DELETE no row has the key |
| Table.RemovedWithoutKey | src/internal/base/db.go:186-193 | deleting a key no row has leaves the table unchanged |
| Table.RemovedKeepsOrder | src/internal/base/db.go:188 | DELETE keeps the id order of the remaining rows |
| Table.DeletePartitions | src/internal/base/db.go:188 | the rows kept plus the rows the key selects are, as a multiset, the table before the delete |
| Table.UpdateFrame | src/internal/base/db.go:197 | UPDATE keeps the table's length and every id, hence the id order, and changes nothing when no row has the key |
| Table.Updated | src/internal/base/db.go:197 | no contract; defined as the table with each keyed row merged with the update and every other row as it was; characterised by Table.UpdateFrame and Table.UpdateMovesKey |
| Table.Merge | src/internal/base/db.go:197 | no contract; defined as gorm's struct `Update` on one row, an assumption about the library: each non-empty text field of the update replaces the row's, and the id is kept because the decoded update is taken to carry a zero id; characterised by Table.UpdateMovesKey |
| Table.UpdateMovesKey | src/internal/base/db.go:197 | an update giving both key fields moves the key: the new key is present when the old one was, and the old one is gone unless it is the new one |
| Table.InsertKeepsOrder | src/internal/base/db.go:156 | inserting with an id above all others keeps the id order and makes the key present |
| Table.Inserted | src/internal/base/db.go:156 | no contract; defined as the table with the song appended under the given id; characterised by Table.InsertKeepsOrder |
| Base.RunnableTextMeansClauses | src/internal/base/db.go:106-108 | for a filter on text columns with quote-free values, the WHERE text handed to the database stands for exactly the filter's clauses |
| Base.AsWrittenHidesFailedInsert | src/internal/base/db.go:156-157 | as written, an insert that fails leaves the song out and still reports no error |
| Base.AddSongAsWritten | src/internal/base/db.go:154-163 | no contract; defined as AddSong as written, which checks the handle's error and not Create's, so a failed insert inserts nothing and reports nothing; characterised by Base.AsWrittenHidesFailedInsert |
| Base.AddSongReportsFailure | src/internal/base/db.go:154-163 | with the Create error checked: an error is reported exactly when the insert fails; a failed insert changes nothing; a successful one appends one row with a fresh id, after all others, holding the key |
| Base.AddSongOutcome | src/internal/base/db.go:154-163 | no contract; defined as AddSong with Create's own error checked: the wrapped error on a failed insert, otherwise the row appended under the next id; characterised by Base.AddSongReportsFailure |
| Base.CollectLyrics | src/internal/base/db.go:146-149 | the lyrics list has one entry per song, in the same order, element k being song k's lyrics |
| Base.Repository.Find | src/internal/base/db.go:90-102 | true iff some row has the key; not-found gives false without error; a failed call gives an error |
| Base.Repository.FindWithFilter | src/internal/base/db.go:104-113 | panics exactly on a filter with a piece without `=`; otherwise returns the selected row with the least id, or not-found exactly when no row meets the clauses, or the query or connection error |
| Base.Repository.GetLibraryWithPagination | src/internal/base/db.go:115-124 | the window at the wrapped offset `(page-1)*size` of the whole table, or exactly on a failed call a connection error |
| Base.Repository.FindWithFilterAndPagination | src/internal/base/db.go:126-136 | the window of the selected rows; a panic exactly on a malformed filter; no match is an empty page, never not-found |
| Base.Repository.GetLyricsWithPagination | src/internal/base/db.go:138-152 | the lyrics of the window of rows with the key, same length and order; no match is an empty list; exactly a failed call is a connection error |
| Base.Repository.AddSong | src/internal/base/db.go:154-163 | keeps `Valid()` and its new table, next id and reported error are those of the checked AddSong |
| Base.Repository.GetLibrary | src/internal/base/db.go:165-174 | every row, in table order, or exactly on a failed call a connection error |
| Base.Repository.GetLyrics | src/internal/base/db.go:176-184 | the lyrics of the row with the key and the least id; not-found exactly when no row has the key |
| Base.Repository.DeleteSong | src/internal/base/db.go:186-193 | the table becomes the rows without the key and `Valid()` is kept; no match is success; a failed call changes nothing |
| Base.Repository.UpdateSong | src/internal/base/db.go:195-202 | the rows with the key are merged with the update and all others stay; no match is success; a failed call changes nothing |
| Service.AddIfAbsentIdempotent | src/internal/service/service.go:334-341 | after add-if-absent the key is present, and adding the same key again leaves the table and the next id unchanged |
| Service.AddIfAbsent | src/internal/service/service.go:334-341 | no contract; defined as the table effect of the Add handler: unchanged when the key is present, otherwise the song appended under the next id; characterised by Service.AddIfAbsentIdempotent and Service.AddIfAbsentKeepsKeysUnique |
| Service.WriteHeader | src/internal/service/service.go:338-345 | no contract; defined as net/http's rule behind these lines that the first status written wins and later ones are ignored; characterised by the contract of Service.Service.Add |
| Service.AddIfAbsentKeepsKeysUnique | src/internal/service/service.go:334-341 | add-if-absent never creates a second row with an existing key |
| Service.Service.LibraryWithPagination | src/internal/service/service.go:78-102 | 400 "Invalid page number" or "Invalid page size" before the repository is called; 500 on a repository error; otherwise 200 with the window of the table |
| Service.Service.FilterWithPagination | src/internal/service/service.go:114-139 | 400 on an unparsed page or size; no reply on a malformed filter; 404 on any repository error; otherwise 200 with the window of the selected rows |
| Service.Service.LyricsWithPagination | src/internal/service/service.go:154-179 | 400 on an unparsed page or size; 404 on a repository error; otherwise 200 with the lyrics of the window of rows with the key |
| Service.Service.Filter | src/internal/service/service.go:190-202 | no reply on a malformed filter, including the empty one; 404 on an error or no match; otherwise 200 with a row meeting the clauses, the one with the least id when the table is in id order |
| Service.Service.Library | src/internal/service/service.go:212-223 | 500 on a repository error, otherwise 200 with every row |
| Service.Service.Lyrics | src/internal/service/service.go:235-248 | 404 on an error or when no row has the key, otherwise 200 with the lyrics of a row with the key, the one with the least id when the table is in id order |
| Service.Service.Delete | src/internal/service/service.go:259-271 | 204 and the rows with the key gone on success, 500 and the table unchanged on error |
| Service.Service.Update | src/internal/service/service.go:286-305 | 400 on an undecodable body without touching the table, 500 on error, else the default 200 with the rows merged |
| Service.Service.Add | src/internal/service/service.go:318-346 | 400 with the decoder's message; 500 "Something went wrong" when Find fails; 201 with no insert when the key exists; 201 and one appended row otherwise, or the 500 written first when the insert fails; when the insert does not fail the table is AddIfAbsent's, and when it fails the table is unchanged |

## Left out

- Logging. It has no effect on the results.
- Opening the database, migrations, `Close`, configuration and start-up. These are connection and file I/O.
- Routing with gorilla/mux, `ListenAndServe`, JSON encoding of response bodies, and header writes other than the status. These are library and network I/O.
- JSON decoding of request bodies. Its outcome is an input (`Decoded`).
- `strconv.Atoi`. Its outcome is an input (`Option<Int64>`).
- `r.URL.Query().Encode()`, which sorts keys and percent-escapes. The encoded filter string is an input.
- Real SQL evaluation. WHERE texts are given meaning only for equality clauses on the four text columns (`group_name`, `song`, `release_date`, `lyrics`) with values without a quote. They are read back and proved to stand for the clauses (`Base.RunnableTextMeansClauses`). Every other WHERE text is treated as a statement the database rejects (`QueryFailed`).
- Base.Repository.FindWithFilter: a filter on the `id` column, or one whose quotes make a different valid SQL fragment, is reported as `QueryFailed` rather than evaluated. Case folding and padding in PostgreSQL comparison are not modelled.
- Base.Repository.FindWithFilterAndPagination: the same restriction as FindWithFilter for filters that are not plain text-column equalities.
- gorm's struct `Update` writes only non-zero fields (`Table.Merge`). This is an assumption about the library, not code in the repository.
- Base.Repository.AddSong: it follows the corrected insert that checks Create's own error (see Findings). It assumes the decoded body carries a blank (zero) id. `Song.ID` has no json tag, so a body with an `id` member sets it, and gorm then inserts that id as given. The model always assigns the next id, and does not model an explicit id or its clash with an existing key. It also assumes a failed insert uses up no value of the id sequence. PostgreSQL does not roll back `nextval`, so an insert rejected after its serial default was evaluated uses up an id, and the next successful insert gets a higher id than the model's `nextId`. Only the id of later rows differs; which rows hold which keys, and their order, are the same.
- Base.Repository.UpdateSong: it assumes the decoded update carries a zero id. A non-zero `id` in the body would be written by gorm's struct `Update` as a non-zero field; `Table.Merge` always keeps the row's id.
- gorm drops a negative OFFSET or LIMIT from the SQL (`Paging.Skip`, `Paging.Window`). This too is an assumption about the library.
- Ordering: the table sequence is kept in primary-key order and `First` takes the first row in that order. This is how gorm's `First` orders by primary key. `GetLibrary` (db.go:169) and the paginated reads (db.go:119, 131, 142) add no ORDER BY, so PostgreSQL returns their rows in an unspecified order. The model assumes primary-key order for them as well. `Paging.PagesTileTable` and the windows of the paginated reads depend on that assumption.
- Service.Service.Add: it uses the AddSong that checks its own Create error (see Findings). The code as written can never take the 500 branch after an insert, and answers 201 after a failed insert.
- Error messages in response bodies. Two bodies carry one: Add's 400 carries the JSON decoder's message, and Add's 500 carries the failed insert's driver message. The second appears only with the corrected Create check; as written, that message never reaches a response. The model carries both as they are. The code does not hide internal detail.
- Concurrency. The code has none.

## Findings

| source | as written | input that shows it | evidently intended | confidence | as-written member | corrected member |
|---|---|---|---|---|---|---|
| src/internal/base/db.go:156-157 | `r.base.Create(&newSong)` and then `r.base.Error` is checked. That is the long-lived handle's error, which Create does not set: Create returns a new handle that carries its own error. | A song whose insert the database rejects (any driver error when Create runs, with the key absent). AddSong returns nil, the row is not there, and the Add handler answers 201. | Check `r.base.Create(&newSong).Error` and return it wrapped. Add then answers 500 with that message. | not executed | Base.AsWrittenHidesFailedInsert | Base.AddSongReportsFailure |
