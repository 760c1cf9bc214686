/**
 * The `logs` table and `INSERT OR IGNORE` under its primary key
 * `(h, t, r)`, as values: a table is the sequence of its rows in storage
 * order.
 *
 * The key columns are nullable TEXT in a rowid table, so SQLite lets NULL
 * into them and, as for every UNIQUE constraint, treats NULLs as distinct:
 * a row conflicts with another only when all three key fields are present
 * and equal.
 */
module LogStore {
  import opened LogEntries

  predicate KeyComplete(e: LogEntry)
  {
    e.h.Some? && e.t.Some? && e.r.Some?
  }

  /** The two rows would violate the primary key together. */
  predicate SameKey(a: LogEntry, b: LogEntry)
  {
    KeyComplete(a) && KeyComplete(b) && a.h == b.h && a.t == b.t && a.r == b.r
  }

  /** Some stored row has the key of `e`. */
  predicate Conflicts(rows: seq<LogEntry>, e: LogEntry)
  {
    exists i :: 0 <= i < |rows| && SameKey(rows[i], e)
  }

  /** The primary-key constraint holds of the table. */
  predicate KeysUnique(rows: seq<LogEntry>)
  {
    forall i, j :: 0 <= i < j < |rows| ==> !SameKey(rows[i], rows[j])
  }

  /** One `INSERT OR IGNORE`: append the row unless its key is taken. */
  function Inserted(rows: seq<LogEntry>, e: LogEntry): seq<LogEntry>
  {
    if Conflicts(rows, e) then rows else rows + [e]
  }

  /** The table after inserting the batch's rows one by one, in order. */
  function Ingested(rows: seq<LogEntry>, batch: seq<LogEntry>): (r: seq<LogEntry>)
    ensures rows <= r
    ensures |r| <= |rows| + |batch|
    ensures forall k :: |rows| <= k < |r| ==> r[k] in batch
    decreases |batch|
  {
    if batch == [] then rows
    else
      var prefix := batch[..|batch| - 1];
      var before := Ingested(rows, prefix);
      assert forall x :: x in prefix ==> x in batch;
      Inserted(before, batch[|batch| - 1])
  }

  // ---------------------------------------------------------------------
  // Single inserts

  /** A row whose key is taken leaves the table as it was: no overwrite. */
  lemma DuplicateIgnored(rows: seq<LogEntry>, e: LogEntry, i: nat)
    requires i < |rows| && SameKey(rows[i], e)
    ensures Inserted(rows, e) == rows
    ensures Inserted(rows, e)[i] == rows[i]
  {
  }

  /** A row missing any key field never conflicts, so it is always added. */
  lemma NullKeyAlwaysAdded(rows: seq<LogEntry>, e: LogEntry)
    requires !KeyComplete(e)
    ensures Inserted(rows, e) == rows + [e]
  {
  }

  lemma SameKeyTransitive(a: LogEntry, b: LogEntry, c: LogEntry)
    requires SameKey(a, b) && SameKey(b, c)
    ensures SameKey(a, c)
  {
  }

  lemma InsertedKeepsKeysUnique(rows: seq<LogEntry>, e: LogEntry)
    requires KeysUnique(rows)
    ensures KeysUnique(Inserted(rows, e))
  {
  }

  /** A conflict found in a table is still found after the table grows. */
  lemma ConflictsGrow(rows: seq<LogEntry>, more: seq<LogEntry>, e: LogEntry)
    requires rows <= more && Conflicts(rows, e)
    ensures Conflicts(more, e)
  {
  }

  // ---------------------------------------------------------------------
  // Batches

  /** The primary-key constraint survives any batch. */
  lemma {:induction false} IngestedKeepsKeysUnique(rows: seq<LogEntry>, batch: seq<LogEntry>)
    requires KeysUnique(rows)
    ensures KeysUnique(Ingested(rows, batch))
    decreases |batch|
  {
    if batch != [] {
      IngestedKeepsKeysUnique(rows, batch[..|batch| - 1]);
      InsertedKeepsKeysUnique(Ingested(rows, batch[..|batch| - 1]), batch[|batch| - 1]);
    }
  }

  /** After a batch, every batch row with a complete key has a stored row with that key. */
  lemma {:induction false} IngestedCovers(rows: seq<LogEntry>, batch: seq<LogEntry>, e: LogEntry)
    requires e in batch && KeyComplete(e)
    ensures Conflicts(Ingested(rows, batch), e)
    decreases |batch|
  {
    var prefix, last := batch[..|batch| - 1], batch[|batch| - 1];
    var before := Ingested(rows, prefix);
    assert batch == prefix + [last];
    if e == last {
      if !Conflicts(before, e) {
        assert (before + [e])[|before|] == e;
        assert SameKey(e, e);
      }
    } else {
      assert e in prefix;
      IngestedCovers(rows, prefix, e);
      ConflictsGrow(before, Inserted(before, last), e);
    }
  }

  /** A batch all of whose rows are already keyed in the table changes nothing. */
  lemma {:induction false} IngestedAllPresent(rows: seq<LogEntry>, batch: seq<LogEntry>)
    requires forall x :: x in batch ==> Conflicts(rows, x)
    ensures Ingested(rows, batch) == rows
    decreases |batch|
  {
    if batch != [] {
      var prefix := batch[..|batch| - 1];
      assert forall x :: x in prefix ==> x in batch;
      IngestedAllPresent(rows, prefix);
    }
  }

  /**
   * Re-ingesting a batch whose rows all have complete keys adds nothing and
   * leaves the table identical.
   */
  lemma IngestIdempotent(rows: seq<LogEntry>, batch: seq<LogEntry>)
    requires forall x :: x in batch ==> KeyComplete(x)
    ensures Ingested(Ingested(rows, batch), batch) == Ingested(rows, batch)
  {
    forall x | x in batch ensures Conflicts(Ingested(rows, batch), x) {
      IngestedCovers(rows, batch, x);
    }
    IngestedAllPresent(Ingested(rows, batch), batch);
  }

  /** Re-ingesting a row missing a key field stores it a second time. */
  lemma NullKeyReingestGrows(rows: seq<LogEntry>, e: LogEntry)
    requires !KeyComplete(e)
    ensures |Ingested(Ingested(rows, [e]), [e])| == |rows| + 2
  {
  }

  /**
   * A batch row whose key repeats an earlier row of the same batch adds
   * nothing: the table after it equals the table before it.
   */
  lemma InBatchDuplicateIgnored(rows: seq<LogEntry>, batch: seq<LogEntry>, i: nat, j: nat)
    requires i < j < |batch| && SameKey(batch[i], batch[j])
    ensures Ingested(rows, batch[..j + 1]) == Ingested(rows, batch[..j])
  {
    var before := Ingested(rows, batch[..j]);
    assert batch[..j + 1][..j] == batch[..j];
    assert batch[i] in batch[..j];
    IngestedCovers(rows, batch[..j], batch[i]);
    var k :| 0 <= k < |before| && SameKey(before[k], batch[i]);
    SameKeyTransitive(before[k], batch[i], batch[j]);
  }
}
