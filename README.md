# Apache access-log aggregator: a Dafny model of its core

The aggregator reads Apache-style access-log lines, stores them in an SQLite
table `logs` without duplicates, and answers column/time-range queries from
a console prompt and an HTTP endpoint. This project models and proves the
three parts of `main.py` with precise behaviour:

- **Records** (`log_entry.dfy`, module `LogEntries`): `LogEntry` with seven
  optional text fields `h, l, u, t, r, s, b`, positional construction
  (`LogEntry(*pieces)`), and the `__repr__` text.
- **Line parser** (`log_parser.dfy`, module `LogParser`): `read_logs` after
  the file is read. It right-strips every line and keeps the lines the
  pattern matches at their start, in order. It splits each kept line by the
  pattern and builds an entry from the pieces minus the first and the last.
  The regular-expression engine stays abstract: a compiled pattern is a pair
  of functions `matchesAtStart` and `split`, passed as a parameter. A pattern
  that does not compile is `None`.
- **Deduplicating store** (`log_store.dfy`, module `LogStore`, and the class
  `LogDatabase` in `database.dfy`): the `logs` table under primary key
  `(h, t, r)` and the `INSERT OR IGNORE` loop of `write_to_db`, which counts
  the statements that added a row.
- **Query engine** (`log_query.dfy`, module `LogQuery`, and the read methods
  of `LogDatabase`): the optional `t BETWEEN start AND end` filter, the
  `date + ":" + time` bounds, and the projection of rows onto the requested
  columns, as `get_logs` (a name-to-value mapping per row) and
  `select_to_user` (a tuple per row) do it.

`wrappers.dfy` holds the `Option` and `Result` datatypes.

Semantics taken from SQLite:
- The key columns are nullable TEXT in a rowid table. SQLite admits NULL
  there and treats NULLs as distinct, so two rows conflict only when `h`, `t`
  and `r` are all present and equal (`LogStore.SameKey`).
- `BETWEEN` on TEXT under the default BINARY collation compares UTF-8 bytes.
  That order equals code-point lexicographic order (`LogQuery.TextLe`), and
  NULL never satisfies it.

## Behaviour of the code worth knowing

- Ingestion is idempotent only for entries whose `h`, `t` and `r` are all
  present (`LogStore.IngestIdempotent`). An entry with a missing key field
  never conflicts, so ingesting the same file again stores it once more
  (`LogStore.NullKeyReingestGrows`).
- An invalid pattern raises only when `re.match` first runs. A file with no
  lines therefore parses to no entries, with no error
  (`LogParser.InvalidPatternFails`).
- Nothing validates the requested field list; it is pasted into the SQL
  text. The model's request type `LogQuery.Fields` can only name the seven
  columns or `*`. An empty list stands for the SQL syntax error that
  `SELECT  FROM logs` raises.
- A range that matches nothing is not an error; the query returns no rows.
- The console applies the range whenever the user asks for one, even when
  the dates and times given are empty. The HTTP endpoint applies it only
  when all four arguments are non-empty.
- `write_to_db` returns nothing; it prints the count. The model returns the
  printed count.
- An absent `query` argument of the HTTP endpoint means `*`
  (`LogQuery.Requested`).

## Model

| member | source | states |
|---|---|---|
| `LogEntries.Construct` | main.py:10-17 | positional arguments fill h, l, u, t, r, s, b in order and missing ones are `None`; more than seven arguments fail with a TypeError; the error records the number of pieces (Python's message counts one more, for `self`) |
| `LogEntries.ConstructFields` | main.py:10-17 | constructing from a record's own seven fields gives the record back |
| `LogEntries.DisplayRoundTrip` | main.py:19-20 | the repr text, split at ", ", gives back the seven shown fields (`None` shown as "None") when no field holds a comma |
| `LogParser.RStrip` | main.py:56 | the stripped line is a prefix of the line, does not end in whitespace, and only whitespace was removed |
| `LogParser.RStripIdempotent` | main.py:56 | stripping twice equals stripping once |
| `LogParser.StripAll` | main.py:56 | one stripped line per input line, each a prefix of its line that does not end in whitespace, with only whitespace removed |
| `LogParser.DropEndsPositions` | main.py:57 | `pieces[1:-1]` has two pieces fewer (none for fewer than two) and piece i is input piece i+1 |
| `LogParser.KeptMembers` | main.py:57 | a line is kept if and only if it is an input line the pattern matches at its start |
| `LogParser.KeptAppend` | main.py:57 | the filter distributes over concatenation, so kept lines stay in input order |
| `LogParser.KeptNoLonger` | main.py:57 | no more lines are kept than were given |
| `LogParser.ParseLinesSucceeds` | main.py:57 | parsing succeeds if and only if every kept line has at most seven fields; otherwise it fails with the too-many-fields error |
| `LogParser.ParseLinesEntries` | main.py:57 | a successful parse has one entry per kept line, and entry k is built from kept line k |
| `LogParser.ReadLogsSpec` | main.py:53-57 | on success, entry k comes from the k-th stripped input line the pattern matches, holds that line's split pieces minus the ends positionally, and there are no more entries than lines |
| `LogParser.UnmatchedLineSkipped` | main.py:57 | inserting a line the pattern does not match at its start anywhere leaves the parse result unchanged |
| `LogParser.InvalidPatternFails` | main.py:57 | a pattern that does not compile fails the parse if and only if there is at least one line |
| `LogStore.Ingested` | main.py:65-71 | inserting a batch keeps the old rows as a prefix, adds at most one row per batch entry, and every added row comes from the batch |
| `LogStore.DuplicateIgnored` | main.py:66-69 | inserting an entry whose complete key is already stored leaves the table, including the stored row's other fields, unchanged |
| `LogStore.NullKeyAlwaysAdded` | main.py:39-47 | an entry missing h, t or r is always appended |
| `LogStore.InsertedKeepsKeysUnique` | main.py:47 | one insert keeps the primary key free of duplicates |
| `LogStore.IngestedKeepsKeysUnique` | main.py:65-71 | a whole batch keeps the primary key free of duplicates |
| `LogStore.IngestedCovers` | main.py:65-71 | after a batch, every batch entry with a complete key has a stored row with the same key |
| `LogStore.IngestedAllPresent` | main.py:65-71 | a batch whose every entry's key is already stored changes nothing |
| `LogStore.IngestIdempotent` | main.py:65-71 | ingesting a batch of complete-key entries a second time leaves the table identical |
| `LogStore.NullKeyReingestGrows` | main.py:39-47 | ingesting an entry with a missing key field twice stores it twice |
| `LogStore.InBatchDuplicateIgnored` | main.py:65-69 | an entry whose key repeats an earlier entry of the same batch adds no row |
| `LogQuery.TextLeReflexive` | main.py:92 | every text lies between itself and itself |
| `LogQuery.TextLeAntisymmetric` | main.py:92 | texts ordered both ways are equal |
| `LogQuery.TextLeTransitive` | main.py:92 | the text order is transitive |
| `LogQuery.TextLeTotal` | main.py:92 | any two texts are ordered one way or the other |
| `LogQuery.TextLeSharedPrefix` | main.py:92 | a shared leading text does not change how two timestamps compare |
| `LogQuery.InRangeMembers` | main.py:92-93 | a row is returned if and only if it is stored and its `t` is present and lies between the bounds inclusive |
| `LogQuery.InRangeAppend` | main.py:92-93 | the range filter distributes over concatenation, so rows come in insertion order |
| `LogQuery.InRangeNoLonger` | main.py:92-93 | the filter returns no more rows than are stored |
| `LogQuery.BoundsIncluded` | main.py:92 | a row whose time equals either bound is returned |
| `LogQuery.NarrowerRange` | main.py:92 | a narrower range's result equals the wider range's result filtered again by the narrower range |
| `LogQuery.RangeExample` | main.py:92-93 | for times ending 36 and 40 after a shared text, the range 36..40 returns both rows and 36..38 returns the first only |
| `LogQuery.TimestampOrder` | main.py:90-91 | two `date:time` bounds on the same date compare exactly as their times do |
| `LogQuery.ProjectSpec` | main.py:98 | a result row has exactly the requested column names as keys, each mapped to that column's stored value |
| `LogQuery.RestrictProjection` | main.py:98 | projecting onto wider columns and keeping the names of narrower ones equals projecting onto the narrower ones |
| `LogQuery.WildcardThenRestrict` | main.py:92-98 | a `*` result row cut down to some columns equals the row queried with those columns |
| `LogQuery.GetLogsSpec` | main.py:80-98 | an absent `query` means `*`; with all four range arguments non-empty, exactly the rows with `t` between `start_date:start_time` and `end_date:end_time` inclusive are returned, in insertion order; otherwise all rows; each row maps each requested name to its value |
| `LogQuery.GetLogsWildcardThenRestrict` | main.py:92-98 | a whole `*` query, each row cut down to some columns, equals the same query asking for those columns: same length, row by row equal |
| `LogQuery.ConsoleAgreesWithEndpointNoRange` | main.py:95-125 | without a range, both the console and the HTTP endpoint return every stored row, each tuple holding column by column the values of the JSON row |
| `LogQuery.ConsoleAgreesWithEndpoint` | main.py:89-125 | with a range given, each console tuple holds column by column the values of the corresponding HTTP row |
| `Database.LogDatabase.Open` | main.py:36-47 | an opened database has no rows without the table and a duplicate-free primary key |
| `Database.LogDatabase.SetupDatabase` | main.py:35-50 | creating the table if it does not exist keeps every stored row |
| `Database.LogDatabase.InsertOrIgnore` | main.py:66-71 | the row count is 0 and the table unchanged when the key is taken, else 1 with the entry appended |
| `Database.LogDatabase.WriteToDb` | main.py:60-75 | the table becomes the batch ingested in order and the count is the number of rows added; without the table a non-empty batch reports the SQLite error and changes nothing |
| `Database.LogDatabase.Ingest` | main.py:136-139 | the table exists afterwards; a parse failure stores nothing; otherwise the table becomes the parsed entries ingested in order and the reported count is the number of rows added |
| `Database.LogDatabase.GetLogs` | main.py:78-101 | an empty column list is a syntax error; a missing table is an error; otherwise the result is the query result `GetLogsSpec` describes |
| `Database.LogDatabase.SelectToUser` | main.py:104-130 | the same errors; otherwise the row tuples for the chosen columns, range-filtered when a range was asked for |

## Left out

- Reading the log file and `cfg.txt` (`read_config`, `open`, `readlines`): I/O. The lines and the compiled pattern are parameters.
- The regular-expression engine (`re.match`, `re.split`, `re.search`): a foreign library, kept as the two functions of `LogParser.Regex`.
- SQLite connections, cursors, `commit`, transactions, and storage faults such as I/O or locking errors. Only the missing-table error is modelled; it follows from the database state.
- Arbitrary SQL text in the `query` argument: only `*` and lists of the seven column names are modelled.
- Flask routing, `jsonify`, the HTTP 500 body, and JSON key order. A result row is a map from column name to value.
- The console prompts, the `.strip()` of answers, the yes/no question, and printing: the answers are parameters of `SelectToUser`.
- The console/api mode loop, the logging setup and starting the server: process control.
- Any calendar meaning of timestamps: the code compares them only as text.
- LogQuery.Fetch: the `SELECT`s have no `ORDER BY`, so SQLite may return rows in any scan order; a column list drawn only from `h`, `t` and `r` can be served from the primary-key index in key order. The model fixes the order to insertion order. The order claims of `LogQuery.GetLogsSpec`, `LogQuery.GetLogsWildcardThenRestrict`, `LogQuery.ConsoleAgreesWithEndpoint` and `LogQuery.ConsoleAgreesWithEndpointNoRange` hold for that order only; which rows are returned does not depend on it.
