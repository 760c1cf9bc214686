/**
 * The read side of `get_logs` and `select_to_user`: the optional
 * `t BETWEEN start AND end` filter over the stored rows and the projection
 * of each row onto the requested columns.
 */
module LogQuery {
  import opened Wrappers
  import opened LogEntries

  // ---------------------------------------------------------------------
  // Text order

  /**
   * SQLite's BINARY collation on TEXT: byte-wise comparison of the UTF-8
   * encodings, a proper prefix first. UTF-8 preserves code-point order, so
   * this is lexicographic order on characters.
   */
  predicate TextLe(a: string, b: string)
  {
    if a == [] then true
    else if b == [] then false
    else if a[0] != b[0] then a[0] < b[0]
    else TextLe(a[1..], b[1..])
  }

  lemma {:induction false} TextLeReflexive(a: string)
    ensures TextLe(a, a)
  {
    if a != [] {
      TextLeReflexive(a[1..]);
    }
  }

  lemma {:induction false} TextLeAntisymmetric(a: string, b: string)
    requires TextLe(a, b) && TextLe(b, a)
    ensures a == b
  {
    if a != [] && b != [] {
      TextLeAntisymmetric(a[1..], b[1..]);
      assert a == [a[0]] + a[1..];
      assert b == [b[0]] + b[1..];
    }
  }

  lemma {:induction false} TextLeTransitive(a: string, b: string, c: string)
    requires TextLe(a, b) && TextLe(b, c)
    ensures TextLe(a, c)
  {
    if a != [] && b != [] && c != [] && a[0] == b[0] == c[0] {
      TextLeTransitive(a[1..], b[1..], c[1..]);
    }
  }

  lemma {:induction false} TextLeTotal(a: string, b: string)
    ensures TextLe(a, b) || TextLe(b, a)
  {
    if a != [] && b != [] && a[0] == b[0] {
      TextLeTotal(a[1..], b[1..]);
    }
  }

  /** A shared prefix does not affect the comparison. */
  lemma {:induction false} TextLeSharedPrefix(p: string, a: string, b: string)
    ensures TextLe(p + a, p + b) <==> TextLe(a, b)
  {
    if p != [] {
      assert (p + a)[1..] == p[1..] + a;
      assert (p + b)[1..] == p[1..] + b;
      TextLeSharedPrefix(p[1..], a, b);
    } else {
      assert p + a == a && p + b == b;
    }
  }

  // ---------------------------------------------------------------------
  // The time-range filter

  /** `t BETWEEN lo AND hi`: NULL never satisfies it, both ends are inclusive. */
  predicate Between(t: Option<string>, lo: string, hi: string)
  {
    t.Some? && TextLe(lo, t.value) && TextLe(t.value, hi)
  }

  /** The stored rows that satisfy the range, in storage order. */
  function InRange(rows: seq<LogEntry>, lo: string, hi: string): seq<LogEntry>
  {
    if rows == [] then []
    else if Between(rows[0].t, lo, hi) then [rows[0]] + InRange(rows[1..], lo, hi)
    else InRange(rows[1..], lo, hi)
  }

  lemma {:induction false} InRangeMembers(rows: seq<LogEntry>, lo: string, hi: string, e: LogEntry)
    ensures e in InRange(rows, lo, hi) <==> e in rows && Between(e.t, lo, hi)
  {
    if rows != [] {
      InRangeMembers(rows[1..], lo, hi, e);
      assert rows == [rows[0]] + rows[1..];
    }
  }

  /** The filter distributes over concatenation: storage order is kept. */
  lemma {:induction false} InRangeAppend(a: seq<LogEntry>, b: seq<LogEntry>, lo: string, hi: string)
    ensures InRange(a + b, lo, hi) == InRange(a, lo, hi) + InRange(b, lo, hi)
  {
    if a == [] {
      assert a + b == b;
    } else {
      assert (a + b)[1..] == a[1..] + b;
      InRangeAppend(a[1..], b, lo, hi);
    }
  }

  lemma {:induction false} InRangeNoLonger(rows: seq<LogEntry>, lo: string, hi: string)
    ensures |InRange(rows, lo, hi)| <= |rows|
  {
    if rows != [] {
      InRangeNoLonger(rows[1..], lo, hi);
    }
  }

  /** Rows whose time equals either bound are returned. */
  lemma BoundsIncluded(e: LogEntry, lo: string, hi: string)
    requires TextLe(lo, hi)
    requires e.t == Some(lo) || e.t == Some(hi)
    ensures InRange([e], lo, hi) == [e]
  {
    TextLeReflexive(lo);
    TextLeReflexive(hi);
  }

  /**
   * Querying a narrower range equals filtering the wider range's result by
   * the narrower range.
   */
  lemma {:induction false} NarrowerRange(rows: seq<LogEntry>, lo: string, hi: string, lo': string, hi': string)
    requires TextLe(lo, lo') && TextLe(hi', hi)
    ensures InRange(rows, lo', hi') == InRange(InRange(rows, lo, hi), lo', hi')
  {
    if rows != [] {
      NarrowerRange(rows[1..], lo, hi, lo', hi');
      var t := rows[0].t;
      if Between(t, lo', hi') {
        TextLeTransitive(lo, lo', t.value);
        TextLeTransitive(t.value, hi', hi);
      }
    }
  }

  // ---------------------------------------------------------------------
  // Request and projection

  /** The requested columns: `*` or a list of the table's column names. */
  datatype Fields = Wildcard | Columns(cols: seq<Column>)

  /** The columns the result carries, in order (`cursor.description`). */
  function Selected(f: Fields): seq<Column>
  {
    match f
    case Wildcard => AllColumns
    case Columns(cs) => cs
  }

  /** `dict(zip(names, values))`: a later equal name overrides an earlier one. */
  function ZipDict(names: seq<string>, values: seq<Option<string>>): map<string, Option<string>>
    requires |names| == |values|
  {
    if names == [] then map[]
    else ZipDict(names[..|names| - 1], values[..|values| - 1])[names[|names| - 1] := values[|values| - 1]]
  }

  function Names(cols: seq<Column>): seq<string>
  {
    seq(|cols|, i requires 0 <= i < |cols| => Name(cols[i]))
  }

  /** The row tuple SQLite returns for the selected columns. */
  function Values(cols: seq<Column>, e: LogEntry): seq<Option<string>>
  {
    seq(|cols|, i requires 0 <= i < |cols| => Field(e, cols[i]))
  }

  /** One result row of `get_logs`: column name to stored value. */
  function Project(cols: seq<Column>, e: LogEntry): map<string, Option<string>>
  {
    ZipDict(Names(cols), Values(cols, e))
  }

  /**
   * A projected row has exactly the requested column names as keys, and
   * each maps to that column's stored value.
   */
  lemma {:induction false} ProjectSpec(cols: seq<Column>, e: LogEntry)
    ensures Project(cols, e).Keys == set c | c in cols :: Name(c)
    ensures forall c :: c in cols ==> Project(cols, e)[Name(c)] == Field(e, c)
    decreases |cols|
  {
    if cols != [] {
      var n := |cols|;
      var front := cols[..n - 1];
      assert Names(cols)[..n - 1] == Names(front);
      assert Values(cols, e)[..n - 1] == Values(front, e);
      ProjectSpec(front, e);
      assert cols == front + [cols[n - 1]];
      forall c | c in cols ensures Project(cols, e)[Name(c)] == Field(e, c) {
        NameInjective(c, cols[n - 1]);
      }
    }
  }

  /** Keeps the entries of `m` whose keys are in `keys`. */
  function Restrict(m: map<string, Option<string>>, keys: set<string>): map<string, Option<string>>
  {
    map k | k in m && k in keys :: m[k]
  }

  /**
   * Projecting a row onto a wider column list and then keeping the names of
   * a narrower list equals projecting onto the narrower list directly.
   */
  lemma RestrictProjection(wide: seq<Column>, cols: seq<Column>, e: LogEntry)
    requires forall c :: c in cols ==> c in wide
    ensures Restrict(Project(wide, e), set c | c in cols :: Name(c)) == Project(cols, e)
  {
    var names := set c | c in cols :: Name(c);
    var full, direct := Project(wide, e), Project(cols, e);
    ProjectSpec(wide, e);
    ProjectSpec(cols, e);
    forall k | k in names ensures k in full && full[k] == direct[k] {
      var c :| c in cols && Name(c) == k;
    }
    var restricted := Restrict(full, names);
    assert restricted.Keys == direct.Keys;
    assert forall k :: k in restricted ==> restricted[k] == direct[k];
  }

  /**
   * Projecting a wildcard result row onto a list of columns equals
   * querying that list directly.
   */
  lemma WildcardThenRestrict(cols: seq<Column>, e: LogEntry)
    ensures Restrict(Project(Selected(Wildcard), e), set c | c in cols :: Name(c)) == Project(cols, e)
  {
    forall c | c in cols ensures c in AllColumns {
      match c
      case H => assert AllColumns[0] == H;
      case L => assert AllColumns[1] == L;
      case U => assert AllColumns[2] == U;
      case T => assert AllColumns[3] == T;
      case R => assert AllColumns[4] == R;
      case S => assert AllColumns[5] == S;
      case B => assert AllColumns[6] == B;
    }
    RestrictProjection(AllColumns, cols, e);
  }

  // ---------------------------------------------------------------------
  // The two query paths

  /** The HTTP query arguments; an absent argument is `None`. */
  datatype QueryArgs = QueryArgs(
    query: Option<Fields>,
    startDate: Option<string>,
    endDate: Option<string>,
    startTime: Option<string>,
    endTime: Option<string>)

  /** The requested columns; an absent `query` argument defaults to `*`. */
  function Requested(args: QueryArgs): Fields
  {
    match args.query
    case None => Wildcard
    case Some(f) => f
  }

  /** A present, non-empty argument (Python truthiness of `str | None`). */
  predicate Given(arg: Option<string>)
  {
    arg.Some? && arg.value != ""
  }

  /** A bound as the stored timestamps spell it: date, ':', time. */
  function Timestamp(date: string, time: string): string
  {
    date + ":" + time
  }

  /**
   * Two bounds on the same date compare as their times do: the range filter
   * orders same-day timestamps by their time text.
   */
  lemma TimestampOrder(date: string, time1: string, time2: string)
    ensures TextLe(Timestamp(date, time1), Timestamp(date, time2)) <==> TextLe(time1, time2)
  {
    assert Timestamp(date, time1) == (date + ":") + time1;
    assert Timestamp(date, time2) == (date + ":") + time2;
    TextLeSharedPrefix(date + ":", time1, time2);
  }

  /** The range `get_logs` applies: only when all four arguments are given. */
  function RangeOf(args: QueryArgs): Option<(string, string)>
  {
    if Given(args.startDate) && Given(args.endDate) && Given(args.startTime) && Given(args.endTime)
    then Some((Timestamp(args.startDate.value, args.startTime.value),
               Timestamp(args.endDate.value, args.endTime.value)))
    else None
  }

  /** The rows a `SELECT` returns before projection. */
  function Fetch(rows: seq<LogEntry>, range: Option<(string, string)>): seq<LogEntry>
  {
    match range
    case None => rows
    case Some((lo, hi)) => InRange(rows, lo, hi)
  }

  datatype QueryError =
    | EmptySelectList  // `SELECT  FROM logs` is a syntax error
    | NoSuchTable      // the `logs` table was never created

  /** `get_logs` over a table that exists: one name-to-value row per fetched row. */
  function GetLogs(rows: seq<LogEntry>, args: QueryArgs): Result<seq<map<string, Option<string>>>, QueryError>
  {
    var cols := Selected(Requested(args));
    if cols == [] then Failure(EmptySelectList)
    else
      var fetched := Fetch(rows, RangeOf(args));
      Success(seq(|fetched|, i requires 0 <= i < |fetched| => Project(cols, fetched[i])))
  }

  /** The console's answers after the yes/no range question. */
  datatype ConsoleRange =
    | NoRange
    | WithRange(startDate: string, endDate: string, startTime: string, endTime: string)

  function ConsoleBounds(range: ConsoleRange): Option<(string, string)>
  {
    match range
    case NoRange => None
    case WithRange(sd, ed, st, et) => Some((Timestamp(sd, st), Timestamp(ed, et)))
  }

  /** `select_to_user` over a table that exists: the row tuples it prints. */
  function SelectToUser(rows: seq<LogEntry>, query: Fields, range: ConsoleRange): Result<seq<seq<Option<string>>>, QueryError>
  {
    var cols := Selected(query);
    if cols == [] then Failure(EmptySelectList)
    else
      var fetched := Fetch(rows, ConsoleBounds(range));
      Success(seq(|fetched|, i requires 0 <= i < |fetched| => Values(cols, fetched[i])))
  }

  // ---------------------------------------------------------------------
  // What the queries return

  /**
   * With all four range arguments given, `get_logs` returns exactly the
   * rows whose time lies between the two assembled bounds, inclusive, in
   * storage order; otherwise it returns every row. Each result row maps
   * each requested name to that row's value.
   */
  lemma GetLogsSpec(rows: seq<LogEntry>, args: QueryArgs)
    requires Selected(Requested(args)) != []
    ensures args.query.None? ==> Selected(Requested(args)) == AllColumns
    ensures GetLogs(rows, args).Success?
    ensures var fetched := Fetch(rows, RangeOf(args));
            && |GetLogs(rows, args).value| == |fetched| <= |rows|
            && (RangeOf(args).None? ==> fetched == rows)
            && (RangeOf(args).Some? ==>
                  var lo := args.startDate.value + ":" + args.startTime.value;
                  var hi := args.endDate.value + ":" + args.endTime.value;
                  fetched == InRange(rows, lo, hi) &&
                  forall e :: e in fetched <==> e in rows && Between(e.t, lo, hi))
            && forall i, c :: 0 <= i < |fetched| && c in Selected(Requested(args)) ==>
                 Name(c) in GetLogs(rows, args).value[i] &&
                 GetLogs(rows, args).value[i][Name(c)] == Field(fetched[i], c)
  {
    var fetched := Fetch(rows, RangeOf(args));
    forall i | 0 <= i < |fetched| {
      ProjectSpec(Selected(Requested(args)), fetched[i]);
    }
    if RangeOf(args).Some? {
      var (lo, hi) := RangeOf(args).value;
      InRangeNoLonger(rows, lo, hi);
      forall e ensures e in fetched <==> e in rows && Between(e.t, lo, hi) {
        InRangeMembers(rows, lo, hi, e);
      }
    }
  }

  /**
   * When all four range arguments are given, the console and the HTTP
   * endpoint return the same rows: each printed tuple holds, column by
   * column, the values of the corresponding JSON row.
   */
  lemma ConsoleAgreesWithEndpoint(rows: seq<LogEntry>, args: QueryArgs)
    requires RangeOf(args).Some? && Selected(Requested(args)) != []
    ensures var console := SelectToUser(rows, Requested(args),
              WithRange(args.startDate.value, args.endDate.value, args.startTime.value, args.endTime.value));
            var api := GetLogs(rows, args);
            var cols := Selected(Requested(args));
            && console.Success? && api.Success?
            && |console.value| == |api.value|
            && forall i, k :: 0 <= i < |api.value| && 0 <= k < |cols| ==>
                 Name(cols[k]) in api.value[i] &&
                 console.value[i][k] == api.value[i][Name(cols[k])]
  {
    var fetched := Fetch(rows, RangeOf(args));
    var cols := Selected(Requested(args));
    forall i | 0 <= i < |fetched| {
      ProjectSpec(cols, fetched[i]);
    }
  }

  /**
   * A whole `*` query cut down, row by row, to some columns equals the same
   * query asking for those columns.
   */
  lemma GetLogsWildcardThenRestrict(rows: seq<LogEntry>, args: QueryArgs, cols: seq<Column>)
    requires Requested(args) == Wildcard && cols != []
    ensures var all := GetLogs(rows, args);
            var some := GetLogs(rows, args.(query := Some(Columns(cols))));
            && all.Success? && some.Success?
            && |all.value| == |some.value|
            && forall i :: 0 <= i < |all.value| ==>
                 Restrict(all.value[i], set c | c in cols :: Name(c)) == some.value[i]
  {
    var fetched := Fetch(rows, RangeOf(args));
    forall i | 0 <= i < |fetched| {
      WildcardThenRestrict(cols, fetched[i]);
    }
  }

  /**
   * Without a range, the console and the HTTP endpoint both return every
   * stored row, and each printed tuple holds, column by column, the values
   * of the corresponding JSON row.
   */
  lemma ConsoleAgreesWithEndpointNoRange(rows: seq<LogEntry>, args: QueryArgs)
    requires RangeOf(args).None? && Selected(Requested(args)) != []
    ensures var console := SelectToUser(rows, Requested(args), NoRange);
            var api := GetLogs(rows, args);
            var cols := Selected(Requested(args));
            && console.Success? && api.Success?
            && |console.value| == |api.value| == |rows|
            && forall i, k :: 0 <= i < |rows| && 0 <= k < |cols| ==>
                 && console.value[i][k] == Field(rows[i], cols[k])
                 && Name(cols[k]) in api.value[i]
                 && console.value[i][k] == api.value[i][Name(cols[k])]
  {
    var cols := Selected(Requested(args));
    forall i | 0 <= i < |rows| {
      ProjectSpec(cols, rows[i]);
    }
  }

  /**
   * Range inclusivity on two timestamps that differ only in their seconds
   * (for instance after the shared text "10/Oct/2023:13:55:"): the range
   * from the first to the second returns both rows, and moving the upper
   * bound to a time between them returns only the first.
   */
  lemma RangeExample(p: string, first: LogEntry, second: LogEntry)
    requires first.t == Some(p + "36") && second.t == Some(p + "40")
    ensures InRange([first, second], p + "36", p + "40") == [first, second]
    ensures InRange([first, second], p + "36", p + "38") == [first]
  {
    var t36, t38, t40 := p + "36", p + "38", p + "40";
    assert TextLe("36", "40") && TextLe("36", "38") && !TextLe("40", "38");
    TextLeSharedPrefix(p, "36", "40");
    TextLeSharedPrefix(p, "36", "38");
    TextLeSharedPrefix(p, "40", "38");
    TextLeReflexive(t36);
    TextLeReflexive(t40);
    assert Between(first.t, t36, t40) && Between(second.t, t36, t40);
    assert Between(first.t, t36, t38) && !Between(second.t, t36, t38);
    assert [first, second][1..] == [second] && [second][1..] == [];
    assert InRange([second], t36, t40) == [second];
    assert InRange([second], t36, t38) == [];
  }
}
