/**
 * `read_logs`: right-strip every line, keep the lines the pattern matches at
 * their start, split each kept line by the pattern and build a `LogEntry`
 * from the pieces between the first and the last.
 *
 * The regular-expression engine is not modelled: a compiled pattern is the
 * pair of its anchored-match test and its split function.
 */
module LogParser {
  import opened Wrappers
  import opened LogEntries

  /** Python's `str.isspace`, the characters `str.rstrip()` removes. */
  predicate IsSpace(c: char)
  {
    || ('\U{9}' <= c <= '\U{D}')
    || ('\U{1C}' <= c <= '\U{20}')
    || c == '\U{85}' || c == '\U{A0}' || c == '\U{1680}'
    || ('\U{2000}' <= c <= '\U{200A}')
    || c == '\U{2028}' || c == '\U{2029}' || c == '\U{202F}' || c == '\U{205F}' || c == '\U{3000}'
  }

  /**
   * `str.rstrip()`: the longest prefix of `s` that does not end in
   * whitespace; everything removed is whitespace.
   */
  function RStrip(s: string): (r: string)
    ensures r <= s
    ensures r == [] || !IsSpace(r[|r| - 1])
    ensures forall i :: |r| <= i < |s| ==> IsSpace(s[i])
  {
    if |s| > 0 && IsSpace(s[|s| - 1]) then RStrip(s[..|s| - 1]) else s
  }

  lemma RStripIdempotent(s: string)
    ensures RStrip(RStrip(s)) == RStrip(s)
  {
  }

  /**
   * The stripped lines, `[line.rstrip() for line in lines]`: one per line,
   * each a prefix of its line that does not end in whitespace, with only
   * whitespace removed.
   */
  function StripAll(lines: seq<string>): (r: seq<string>)
    ensures |r| == |lines|
    ensures forall i :: 0 <= i < |lines| ==>
              && r[i] <= lines[i]
              && (r[i] == [] || !IsSpace(r[i][|r[i]| - 1]))
              && forall j :: |r[i]| <= j < |lines[i]| ==> IsSpace(lines[i][j])
  {
    seq(|lines|, i requires 0 <= i < |lines| => RStrip(lines[i]))
  }

  /**
   * A compiled pattern: `re.match(pattern, line)` succeeding (a match at
   * position 0) and `re.split(pattern, line)` (pieces, `None` for a group
   * that did not take part in the match).
   */
  datatype Regex = Regex(matchesAtStart: string -> bool, split: string -> seq<Option<string>>)

  datatype ParseError =
    | InvalidPattern            // `re.error` from compiling the pattern
    | TooManyFields(given: nat) // `TypeError` from `LogEntry(*pieces)`

  /** Python's `pieces[1:-1]`. */
  function DropEnds(pieces: seq<Option<string>>): (r: seq<Option<string>>)
  {
    if |pieces| < 2 then [] else pieces[1..|pieces| - 1]
  }

  lemma DropEndsPositions(pieces: seq<Option<string>>)
    ensures |DropEnds(pieces)| == if |pieces| < 2 then 0 else |pieces| - 2
    ensures forall i :: 0 <= i < |DropEnds(pieces)| ==> DropEnds(pieces)[i] == pieces[i + 1]
  {
  }

  /** The (stripped) lines the pattern matches at their start, in input order. */
  function Kept(re: Regex, lines: seq<string>): seq<string>
  {
    if lines == [] then []
    else if re.matchesAtStart(lines[0]) then [lines[0]] + Kept(re, lines[1..])
    else Kept(re, lines[1..])
  }

  /** A kept line splits into at most seven fields. */
  predicate Fits(re: Regex, line: string)
  {
    |DropEnds(re.split(line))| <= 7
  }

  /** The entry a fitting line turns into. */
  function EntryOf(re: Regex, line: string): LogEntry
    requires Fits(re, line)
  {
    Construct(DropEnds(re.split(line))).value
  }

  /** The list comprehension of `read_logs` over already stripped lines. */
  function ParseLines(re: Regex, lines: seq<string>): Result<seq<LogEntry>, ParseError>
  {
    if lines == [] then Success([])
    else if !re.matchesAtStart(lines[0]) then ParseLines(re, lines[1..])
    else
      match Construct(DropEnds(re.split(lines[0])))
      case Failure(e) => Failure(TooManyFields(e.given))
      case Success(entry) =>
        match ParseLines(re, lines[1..])
        case Failure(err) => Failure(err)
        case Success(rest) => Success([entry] + rest)
  }

  /**
   * `read_logs` after the file is read: `pattern` is `None` when it does not
   * compile. Compilation happens at the first `re.match` call, so an empty
   * file parses to nothing even with an invalid pattern.
   */
  function ReadLogs(lines: seq<string>, pattern: Option<Regex>): Result<seq<LogEntry>, ParseError>
  {
    match pattern
    case None => if lines == [] then Success([]) else Failure(InvalidPattern)
    case Some(re) => ParseLines(re, StripAll(lines))
  }

  // ---------------------------------------------------------------------
  // The filter: anchoring and order

  /** A line is kept exactly when the pattern matches at its start. */
  lemma {:induction false} KeptMembers(re: Regex, lines: seq<string>, x: string)
    ensures x in Kept(re, lines) <==> x in lines && re.matchesAtStart(x)
  {
    if lines != [] {
      KeptMembers(re, lines[1..], x);
      assert lines == [lines[0]] + lines[1..];
    }
  }

  /** Filtering distributes over concatenation, so input order is kept. */
  lemma {:induction false} KeptAppend(re: Regex, a: seq<string>, b: seq<string>)
    ensures Kept(re, a + b) == Kept(re, a) + Kept(re, b)
  {
    if a == [] {
      assert a + b == b;
    } else {
      assert (a + b)[1..] == a[1..] + b;
      KeptAppend(re, a[1..], b);
    }
  }

  lemma {:induction false} KeptNoLonger(re: Regex, lines: seq<string>)
    ensures |Kept(re, lines)| <= |lines|
  {
    if lines != [] {
      KeptNoLonger(re, lines[1..]);
    }
  }

  // ---------------------------------------------------------------------
  // The parse: success condition and result

  /** Every line of `ls` has at most seven fields. */
  predicate AllFit(re: Regex, ls: seq<string>)
  {
    forall k :: 0 <= k < |ls| ==> Fits(re, ls[k])
  }

  /**
   * The parse succeeds exactly when every kept line has at most seven
   * fields; otherwise it fails with a too-many-fields error.
   */
  lemma {:induction false} ParseLinesSucceeds(re: Regex, lines: seq<string>)
    ensures ParseLines(re, lines).Success? <==> AllFit(re, Kept(re, lines))
    ensures ParseLines(re, lines).Failure? ==> ParseLines(re, lines).error.TooManyFields?
  {
    if lines != [] {
      ParseLinesSucceeds(re, lines[1..]);
      var kept, rest := Kept(re, lines), Kept(re, lines[1..]);
      if re.matchesAtStart(lines[0]) {
        assert kept == [lines[0]] + rest;
        assert forall k :: 0 <= k < |rest| ==> kept[k + 1] == rest[k];
        if ParseLines(re, lines).Success? {
          forall k | 0 <= k < |kept| ensures Fits(re, kept[k]) {
            if k > 0 { assert kept[k] == rest[k - 1]; }
          }
        } else if Fits(re, lines[0]) {
          var k :| 0 <= k < |rest| && !Fits(re, rest[k]);
          assert !Fits(re, kept[k + 1]);
        } else {
          assert !Fits(re, kept[0]);
        }
      }
    }
  }

  /** A successful parse yields one entry per kept line, in order. */
  lemma {:induction false} ParseLinesEntries(re: Regex, lines: seq<string>)
    requires ParseLines(re, lines).Success?
    ensures AllFit(re, Kept(re, lines))
    ensures |ParseLines(re, lines).value| == |Kept(re, lines)|
    ensures forall k :: 0 <= k < |Kept(re, lines)| ==>
              ParseLines(re, lines).value[k] == EntryOf(re, Kept(re, lines)[k])
  {
    ParseLinesSucceeds(re, lines);
    if lines != [] {
      var kept, rest := Kept(re, lines), Kept(re, lines[1..]);
      if re.matchesAtStart(lines[0]) {
        ParseLinesEntries(re, lines[1..]);
        assert kept == [lines[0]] + rest;
        var entries := ParseLines(re, lines).value;
        assert entries == [EntryOf(re, lines[0])] + ParseLines(re, lines[1..]).value;
        forall k | 0 <= k < |kept| ensures entries[k] == EntryOf(re, kept[k]) {
          if k > 0 { assert kept[k] == rest[k - 1]; }
        }
      } else {
        ParseLinesEntries(re, lines[1..]);
      }
    }
  }

  /**
   * With a pattern that compiles, `read_logs` yields one entry per stripped
   * line the pattern matches at its start, in file order, each entry holding
   * that line's split pieces without the first and last, positionally.
   */
  lemma ReadLogsSpec(lines: seq<string>, re: Regex)
    requires ReadLogs(lines, Some(re)).Success?
    ensures var entries := ReadLogs(lines, Some(re)).value;
            var kept := Kept(re, StripAll(lines));
            && |entries| == |kept| <= |lines|
            && forall k :: 0 <= k < |kept| ==>
                 && (exists i :: 0 <= i < |lines| && kept[k] == RStrip(lines[i]))
                 && re.matchesAtStart(kept[k])
                 && Fits(re, kept[k])
                 && Fields(entries[k]) == DropEnds(re.split(kept[k])) +
                      seq(7 - |DropEnds(re.split(kept[k]))|, _ => None)
  {
    var stripped := StripAll(lines);
    var kept := Kept(re, stripped);
    ParseLinesEntries(re, stripped);
    KeptNoLonger(re, stripped);
    forall k | 0 <= k < |kept|
      ensures exists i :: 0 <= i < |lines| && kept[k] == RStrip(lines[i])
      ensures re.matchesAtStart(kept[k])
    {
      KeptMembers(re, stripped, kept[k]);
      var i :| 0 <= i < |stripped| && stripped[i] == kept[k];
    }
  }

  /** A line the pattern does not match at its start contributes nothing. */
  lemma {:induction false} UnmatchedLineSkipped(re: Regex, before: seq<string>, line: string, after: seq<string>)
    requires !re.matchesAtStart(line)
    ensures ParseLines(re, before + [line] + after) == ParseLines(re, before + after)
  {
    if before == [] {
      assert before + [line] + after == [line] + after;
      assert ([line] + after)[1..] == after;
      assert before + after == after;
    } else {
      UnmatchedLineSkipped(re, before[1..], line, after);
      assert (before + [line] + after)[0] == before[0];
      assert (before + [line] + after)[1..] == before[1..] + [line] + after;
      assert (before + after)[0] == before[0];
      assert (before + after)[1..] == before[1..] + after;
    }
  }

  /** An invalid pattern fails the run exactly when there is a line to match. */
  lemma InvalidPatternFails(lines: seq<string>)
    ensures ReadLogs(lines, None).Failure? <==> |lines| > 0
    ensures ReadLogs(lines, None).Failure? ==> ReadLogs(lines, None).error == InvalidPattern
  {
  }
}
