# ETL pipeline for JSONPlaceholder posts — verified model

The system is a four-stage extract-transform-load script (`etl.py`). It creates a
SQLite table `post(user_id, id, title, body)`, fetches a page of posts from a JSON
API (falling back to a fixed two-post dataset when the request fails), normalises
each record into a `(user_id, post_id, title, body)` tuple with defaults for
missing keys, and appends the tuples that pass a type check to the table.

The model, in four modules:

- `Values` (`values.dfy`): JSON values (`IntV`, `BoolV`, `StrV`, `NullV`, `Other`),
  raw records as `map<string, Value>`, the normalised `Post` tuple and
  `ValidatePost`. `IsInt` accepts booleans, as Python's `isinstance(True, int)` does.
- `Normalize` (`normalize.dfy`): `NormalizeRecord` (the four `dict.get` calls),
  the specification function `Parsed`, the loop `ParsePostData` proved against it,
  `SimulateData` and `GetPostData` (request outcome as a parameter).
- `Store` (`store.dfy`): the filter `ValidPosts` with an index-based reference
  `ValidIndices`, the table-after-a-store function `Stored`, and a `Database`
  class whose fields (`tableExists`, `rows`) the methods `CreateTable` and
  `StorePosts` update in place. The object invariant `Valid()` says that rows
  exist only in an existing table and that every row passed the validator.
- `Flow` (`flow.dfy`): `MyEtlFlow` runs the stages in sequence on a `Database`;
  `FlowRows` is its functional specification.

Missing keys get the defaults 0, 0, `'Sin título'` and `'Sin contenido'`
(`etl.py:67-70`).

Storage behaviour follows the connection helper at `etl.py:16-26`. Opening the
connection (`etl.py:18`) happens before the `try`, so a failure there is not
caught: it propagates out of `create_table` or `store_posts` (`Raised`).
Any exception inside the guarded block is logged and swallowed. The commit is
then skipped and closing the connection discards the uncommitted rows, so the
table is unchanged. Inside that block the INSERT fails when:

- the storage layer faults (`ExecuteError`);
- the table was never created;
- any valid tuple carries an int that sqlite3 cannot bind to a signed 64-bit
  INTEGER (Python ints are unbounded, and sqlite3 raises OverflowError);
- any valid tuple carries a title or body holding a lone surrogate (JSON
  `"\ud800"` decodes to such a `str`), which sqlite3 cannot encode
  (UnicodeEncodeError). This case is not in the model; see "Left out".

## Model

| member | source | states |
|---|---|---|
| `Values.ValidatePost` | etl.py:78-80 | a tuple passes only with a string title and body and with ids that are neither null, string nor another JSON value; int or boolean ids with string title and body always pass |
| `Values.ValidatePostCases` | etl.py:78-80 | well-typed tuples pass; a string id, a numeric title or a null id fails; a boolean id passes, as Python's int check allows |
| `Normalize.Get` | etl.py:67-70 | `dict.get`: the stored value when the key is present, the default otherwise; the result is always one of the two |
| `Normalize.NormalizeRecord` | etl.py:66-71 | a record with all four keys becomes exactly its four values in order; a record with none becomes (0, 0, 'Sin título', 'Sin contenido') |
| `Normalize.NormalizeRecordFields` | etl.py:66-71 | each present key's value is copied unchanged into its tuple position; a missing userId/id becomes 0, title 'Sin título', body 'Sin contenido' |
| `Normalize.NormalizeValidIffWellTyped` | etl.py:67-80 | a normalised record passes the validator iff every present field has the right type; a record with all four keys missing always passes |
| `Normalize.Parsed` | etl.py:63-75 | one output tuple per input record: output length equals input length |
| `Normalize.ParsedAt` | etl.py:65-72 | the i-th output tuple is the normalisation of the i-th input record (order preserved) |
| `Normalize.ParsedAppend` | etl.py:65-72 | normalising a concatenation is the concatenation of the normalised parts |
| `Normalize.ParsePostData` | etl.py:62-75 | the append loop returns exactly one normalised tuple per record, in order, equal to `Parsed(raw)`; empty input gives empty output |
| `Normalize.SimulateData` | etl.py:53-58 | exactly two records, all four keys present and well typed, (userId, id) = (1, 1) and (2, 2), titles 'Título post 1' and 'Título post 2' |
| `Normalize.GetPostData` | etl.py:43-50 | received records are returned as they are; on any request exception the result is the two-record fallback, whose records are well typed |
| `Normalize.ParsedFallback` | etl.py:55-58 | the fallback dataset normalises to two fully specified tuples that both pass the validator |
| `Store.ValidPosts` | etl.py:88 | the filter result is no longer than its input and every tuple in it passes the validator |
| `Store.ValidPostsMembers` | etl.py:88 | a tuple is kept iff it is in the input and valid: no invalid tuple is kept, no valid one lost |
| `Store.ValidIndices` | etl.py:88 | the positions of the valid tuples, strictly increasing, covering every valid position |
| `Store.ValidPostsSelects` | etl.py:88 | the filter result is exactly the input at the valid positions, in order and with multiplicity |
| `Store.ValidPostsAppend` | etl.py:88 | filtering distributes over concatenation, so kept tuples keep their relative order |
| `Store.ValidPostsOfValid` | etl.py:88 | an all-valid list passes the filter unchanged (the filter is idempotent) |
| `Store.Stored` | etl.py:84-91 | the table after one store is all or nothing: either unchanged or the old rows followed by every kept tuple; old rows always stay as a prefix |
| `Store.StoredExtendsWithValid` | etl.py:83-91 | a store keeps every existing row in place and only appends rows that pass the validator |
| `Store.StoredCases` | etl.py:84-91 | empty input, a storage fault, a missing table, or a kept tuple with an int beyond 64 bits leaves the table unchanged; with an existing table, no fault and every kept tuple bindable, the table is the old rows followed by the filtered tuples (dropped tuples are never bound) |
| `Store.StoreTwiceDoubles` | etl.py:90-91 | when the kept tuples are bindable, storing the same input twice appends its valid tuples twice (no deduplication) |
| `Store.Database.constructor` | etl.py:17-18 | a fresh database file holds no table and no rows |
| `Store.Database.CreateTable` | etl.py:29-38 | create-if-absent: the table exists afterwards unless a fault occurred, rows are untouched, and a connection failure is raised |
| `Store.Database.StorePosts` | etl.py:83-93 | returns early on empty input; otherwise the new table is `Stored(old state, input, fault)`; only a connection failure is raised; the object invariant (only validated rows) is preserved |
| `Flow.FlowRows` | etl.py:96-101 | the table after one run: unchanged when `create_table` cannot connect; otherwise either unchanged or extended by the kept normalisations of the fetched records |
| `Flow.MyEtlFlow` | etl.py:96-101 | the flow's new table is `FlowRows` of the old one; nothing is stored after `create_table` raises; the flow raises exactly when a connection fails |
| `Flow.FallbackRunStoresTwo` | etl.py:97-101 | with a failed request and no storage fault, one run on a fresh database stores the two fallback posts |
| `Flow.FallbackTwiceFourRows` | etl.py:97-101 | two such runs leave four rows, each fallback post twice |
| `Flow.FlowOnlyAppendsValid` | etl.py:96-101 | whatever the API returns, a run never alters existing rows and never stores an invalid tuple |
| `Flow.ValidPostsOfParsed` | etl.py:65-88 | normalising then filtering equals normalising the well-typed records, in order: only values sent by the API can cause a drop |

## Left out

- The HTTP request itself (session, query parameter `_limit=5`, status check, JSON decoding): network I/O. Its outcome is the parameter `Response`; a response whose JSON is not a list of objects is not modelled.
- The retry count, retry delay and result persistence of the task decorators: they belong to the external orchestration library.
- Logging and its file configuration: output only.
- The SQL text of the CREATE TABLE and INSERT statements, and how SQLite stores values. Rows are kept as the `Post` values handed to `executemany`, so a stored boolean is not shown as the integer 0 or 1 SQLite keeps.
- Strings are sequences of Unicode scalar values, so a title or body holding a lone surrogate cannot be represented. The batch drop it causes (sqlite3 raises UnicodeEncodeError inside the guarded block, and nothing is committed) is not modelled: for such input the model appends where the program appends nothing.
- Storage faults are a parameter (`DbFault`): which I/O error occurs, and when, is outside the program. Exceptions that are not `Exception` subclasses (interrupts) are not modelled.
- The module constants `DB_NAME`, `API_URL`, `REQUEST_SIZE` and the `__main__` entry point.
