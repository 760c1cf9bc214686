/**
 * The SQLite file `Parser.db` as an object: whether `setup_database` has
 * created the `logs` table, and the table's rows in storage order.
 * `write_to_db` runs its `INSERT OR IGNORE` loop against it; `get_logs`
 * and `select_to_user` read it.
 */
module Database {
  import opened Wrappers
  import opened LogEntries
  import opened LogStore
  import LogParser
  import LogQuery

  /** What `write_to_db` reports: the count it prints, or the caught `sqlite3.Error`. */
  datatype WriteOutcome = Written(inserted: nat) | SqliteError

  /** How the ingestion run at start-up ends. */
  datatype IngestOutcome =
    | ParseFailed(error: LogParser.ParseError)  // the exception leaves `read_logs`
    | Stored(outcome: WriteOutcome)

  class LogDatabase {
    var hasLogsTable: bool
    var rows: seq<LogEntry>

    /** Without the table there are no rows; with it, the primary key holds. */
    ghost predicate Valid()
      reads this
    {
      (!hasLogsTable ==> rows == []) && KeysUnique(rows)
    }

    /** Opens the database file as it is on disk. */
    constructor Open(tableExists: bool, stored: seq<LogEntry>)
      requires tableExists || stored == []
      requires KeysUnique(stored)
      ensures Valid() && hasLogsTable == tableExists && rows == stored
    {
      hasLogsTable := tableExists;
      rows := stored;
    }

    /** `CREATE TABLE IF NOT EXISTS logs (...)`: never touches stored rows. */
    method SetupDatabase()
      requires Valid()
      modifies this
      ensures Valid() && hasLogsTable && rows == old(rows)
    {
      hasLogsTable := true;
    }

    /**
     * One `INSERT OR IGNORE` statement; the result is `cursor.rowcount`.
     * A row whose key is taken is ignored, never written over the stored one.
     */
    method InsertOrIgnore(e: LogEntry) returns (rowcount: nat)
      requires Valid() && hasLogsTable
      modifies this`rows
      ensures Valid()
      ensures rowcount == if Conflicts(old(rows), e) then 0 else 1
      ensures rows == if rowcount == 0 then old(rows) else old(rows) + [e]
    {
      InsertedKeepsKeysUnique(rows, e);
      if Conflicts(rows, e) {
        rowcount := 0;
      } else {
        rows := rows + [e];
        rowcount := 1;
      }
    }

    /**
     * `write_to_db`: inserts the batch in order and counts the statements
     * that added a row. Without the table the first insert raises, which is
     * caught and reported; an empty batch executes nothing and reports 0.
     */
    method WriteToDb(batch: seq<LogEntry>) returns (outcome: WriteOutcome)
      requires Valid()
      modifies this`rows
      ensures Valid()
      ensures !hasLogsTable && batch != [] ==> outcome == SqliteError && rows == old(rows)
      ensures hasLogsTable || batch == [] ==>
                rows == Ingested(old(rows), batch) && outcome == Written(|rows| - |old(rows)|)
    {
      if !hasLogsTable && batch != [] {
        return SqliteError;
      }
      var inserted := 0;
      for i := 0 to |batch|
        invariant Valid()
        invariant rows == Ingested(old(rows), batch[..i])
        invariant inserted == |rows| - |old(rows)|
      {
        assert batch[..i + 1][..i] == batch[..i];
        var rowcount := InsertOrIgnore(batch[i]);
        if rowcount > 0 {
          inserted := inserted + 1;
        }
      }
      assert batch[..|batch|] == batch;
      outcome := Written(inserted);
    }

    /**
     * The ingestion run at start-up: `setup_database`, then `read_logs` on
     * the file's lines, then `write_to_db` on the entries it returns.
     */
    method Ingest(lines: seq<string>, pattern: Option<LogParser.Regex>) returns (outcome: IngestOutcome)
      requires Valid()
      modifies this
      ensures Valid() && hasLogsTable
      ensures LogParser.ReadLogs(lines, pattern).Failure? ==>
                outcome == ParseFailed(LogParser.ReadLogs(lines, pattern).error) && rows == old(rows)
      ensures LogParser.ReadLogs(lines, pattern).Success? ==>
                rows == Ingested(old(rows), LogParser.ReadLogs(lines, pattern).value) &&
                outcome == Stored(Written(|rows| - |old(rows)|))
    {
      SetupDatabase();
      match LogParser.ReadLogs(lines, pattern)
      case Failure(error) =>
        outcome := ParseFailed(error);
      case Success(entries) =>
        var written := WriteToDb(entries);
        outcome := Stored(written);
    }

    /**
     * `get_logs`: the statement is prepared first, so an empty column list
     * is a syntax error even without the table; otherwise a missing table
     * is reported, and an existing one is queried.
     */
    method GetLogs(args: LogQuery.QueryArgs) returns (response: Result<seq<map<string, Option<string>>>, LogQuery.QueryError>)
      requires Valid()
      ensures LogQuery.Selected(LogQuery.Requested(args)) == [] ==> response == Failure(LogQuery.EmptySelectList)
      ensures LogQuery.Selected(LogQuery.Requested(args)) != [] && !hasLogsTable ==> response == Failure(LogQuery.NoSuchTable)
      ensures LogQuery.Selected(LogQuery.Requested(args)) != [] && hasLogsTable ==> response == LogQuery.GetLogs(rows, args)
    {
      if LogQuery.Selected(LogQuery.Requested(args)) != [] && !hasLogsTable {
        response := Failure(LogQuery.NoSuchTable);
      } else {
        response := LogQuery.GetLogs(rows, args);
      }
    }

    /** `select_to_user`, with the console's answers as parameters. */
    method SelectToUser(query: LogQuery.Fields, range: LogQuery.ConsoleRange)
      returns (response: Result<seq<seq<Option<string>>>, LogQuery.QueryError>)
      requires Valid()
      ensures LogQuery.Selected(query) == [] ==> response == Failure(LogQuery.EmptySelectList)
      ensures LogQuery.Selected(query) != [] && !hasLogsTable ==> response == Failure(LogQuery.NoSuchTable)
      ensures LogQuery.Selected(query) != [] && hasLogsTable ==> response == LogQuery.SelectToUser(rows, query, range)
    {
      if LogQuery.Selected(query) != [] && !hasLogsTable {
        response := Failure(LogQuery.NoSuchTable);
      } else {
        response := LogQuery.SelectToUser(rows, query, range);
      }
    }
  }
}
