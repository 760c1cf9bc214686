/**
 * The seven-field access-log record (`LogEntry` in main.py), its
 * positional construction and its diagnostic text form.
 */
module LogEntries {
  import opened Wrappers

  /** One parsed log line; every field is optional text (Python `None` is `None`). */
  datatype LogEntry = LogEntry(
    h: Option<string>,  // remote host
    l: Option<string>,  // remote logname
    u: Option<string>,  // authenticated user
    t: Option<string>,  // time of request, opaque text
    r: Option<string>,  // first request line
    s: Option<string>,  // final status
    b: Option<string>)  // size of the response in bytes

  /** The seven columns of the `logs` table, in declaration order. */
  datatype Column = H | L | U | T | R | S | B

  const AllColumns: seq<Column> := [H, L, U, T, R, S, B]

  /** The column's name in the table and in query results. */
  function Name(c: Column): string
  {
    match c
    case H => "h"
    case L => "l"
    case U => "u"
    case T => "t"
    case R => "r"
    case S => "s"
    case B => "b"
  }

  function Field(e: LogEntry, c: Column): Option<string>
  {
    match c
    case H => e.h
    case L => e.l
    case U => e.u
    case T => e.t
    case R => e.r
    case S => e.s
    case B => e.b
  }

  /** The record's fields in positional order h, l, u, t, r, s, b. */
  function Fields(e: LogEntry): (fs: seq<Option<string>>)
    ensures |fs| == |AllColumns|
    ensures forall i :: 0 <= i < |AllColumns| ==> fs[i] == Field(e, AllColumns[i])
  {
    [e.h, e.l, e.u, e.t, e.r, e.s, e.b]
  }

  lemma NameInjective(c: Column, d: Column)
    ensures Name(c) == Name(d) <==> c == d
  {
  }

  /** `LogEntry(*args)` raises a TypeError when given more than seven positional arguments. */
  datatype ConstructError = TooManyArguments(given: nat)

  /** The i-th positional argument, or the keyword default `None` when it is missing. */
  function Arg(args: seq<Option<string>>, i: nat): Option<string>
  {
    if i < |args| then args[i] else None
  }

  /**
   * `LogEntry(*args)`: positional arguments fill h, l, u, t, r, s, b in order,
   * missing trailing ones stay `None`, values are taken verbatim.
   */
  function Construct(args: seq<Option<string>>): (r: Result<LogEntry, ConstructError>)
    ensures r.Success? <==> |args| <= 7
    ensures r.Failure? ==> r.error.given == |args|
    ensures r.Success? ==> Fields(r.value) == args + seq(7 - |args|, _ => None)
  {
    if |args| > 7 then Failure(TooManyArguments(|args|))
    else
      var e := LogEntry(Arg(args, 0), Arg(args, 1), Arg(args, 2), Arg(args, 3),
                        Arg(args, 4), Arg(args, 5), Arg(args, 6));
      assert Fields(e) == args + seq(7 - |args|, _ => None);
      Success(e)
  }

  /** Constructing from a record's own fields gives the record back. */
  lemma ConstructFields(e: LogEntry)
    ensures Construct(Fields(e)) == Success(e)
  {
  }

  /** How a field prints in an f-string: `None` becomes the text "None". */
  function Show(o: Option<string>): string
  {
    match o
    case None => "None"
    case Some(s) => s
  }

  function ShownFields(e: LogEntry): (shown: seq<string>)
    ensures |shown| == 7
    ensures forall i :: 0 <= i < 7 ==> shown[i] == Show(Fields(e)[i])
  {
    [Show(e.h), Show(e.l), Show(e.u), Show(e.t), Show(e.r), Show(e.s), Show(e.b)]
  }

  /** Joins the parts with ", " between consecutive parts. */
  function JoinComma(parts: seq<string>): string
  {
    if |parts| == 0 then ""
    else if |parts| == 1 then parts[0]
    else parts[0] + ", " + JoinComma(parts[1..])
  }

  /** `LogEntry.__repr__`: the seven shown fields joined with ", ". */
  function Display(e: LogEntry): string
  {
    JoinComma(ShownFields(e))
  }

  /** Splits a text at every ", " separator; the inverse of `JoinComma`. */
  function SplitComma(s: string): (parts: seq<string>)
    ensures |parts| >= 1
    decreases |s|
  {
    if |s| == 0 then [""]
    else if |s| >= 2 && s[0] == ',' && s[1] == ' ' then [""] + SplitComma(s[2..])
    else
      var rest := SplitComma(s[1..]);
      [[s[0]] + rest[0]] + rest[1..]
  }

  predicate NoComma(s: string)
  {
    forall i :: 0 <= i < |s| ==> s[i] != ','
  }

  lemma {:induction false} SplitCommaPart(p: string, tail: string)
    requires NoComma(p)
    ensures SplitComma(p) == [p]
    ensures SplitComma(p + ", " + tail) == [p] + SplitComma(tail)
    decreases |p|
  {
    if |p| == 0 {
      assert p + ", " + tail == ", " + tail;
      assert (", " + tail)[2..] == tail;
    } else {
      assert NoComma(p[1..]);
      SplitCommaPart(p[1..], tail);
      assert (p + ", " + tail)[1..] == p[1..] + ", " + tail;
      assert [p[0]] + p[1..] == p;
    }
  }

  /** Splitting a join of comma-free parts gives the parts back. */
  lemma {:induction false} SplitJoinComma(parts: seq<string>)
    requires |parts| >= 1
    requires forall i :: 0 <= i < |parts| ==> NoComma(parts[i])
    ensures SplitComma(JoinComma(parts)) == parts
    decreases |parts|
  {
    if |parts| == 1 {
      SplitCommaPart(parts[0], "");
    } else {
      SplitCommaPart(parts[0], JoinComma(parts[1..]));
      SplitJoinComma(parts[1..]);
    }
  }

  /**
   * The diagnostic text of a record whose shown fields hold no comma
   * determines its seven shown fields, in order.
   */
  lemma DisplayRoundTrip(e: LogEntry)
    requires forall i :: 0 <= i < 7 ==> NoComma(ShownFields(e)[i])
    ensures SplitComma(Display(e)) == ShownFields(e)
  {
    SplitJoinComma(ShownFields(e));
  }
}
