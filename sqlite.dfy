/**
  internal/storage/sqlite.go: the batching consumer of probe records and the
  transactional upsert of a batch into the `servers` table, keyed by
  `(ip, port)`.

  The table is a `Table` object whose rows map a key to the stored columns.
  What the database does wrong is an input: a `Faults` value says whether
  `Begin`, `Prepare` or `Commit` fails and which rows' inserts are refused;
  `time.Now()` is a `clock` giving the instant read for each row.
*/
module Sqlite {
  import opened Wrappers
  import opened Bytes
  import opened Types
  import opened Seqs

  /** The stored columns of one row, besides its key. */
  datatype Row = Row(
    versionName: Str,
    protocol: int,
    playersOnline: int,
    playersMax: int,
    whitelist: bool,
    software: Str,
    mods: map<Str, Str>,
    plugins: seq<Str>,
    secureChat: bool,
    timestamp: Time)

  /** The `UNIQUE(ip, port)` key of a record. */
  function Key(s: ServerDetail): (Str, int) {
    (s.ip, s.port)
  }

  /** The columns `Flush` binds for record `s`, `now` being what `time.Now()` returns for it. */
  function RowOf(s: ServerDetail, now: Time): Row {
    Row(s.versionName, s.protocol, s.playersOnline, s.playersMax, s.isWhitelist, s.software,
        s.mods, s.plugins, s.enforcesSecureChat, if s.timestamp.ZeroTime? then now else s.timestamp)
  }

  /** What goes wrong in one call of `Flush`. */
  datatype Faults = Faults(beginFails: bool, prepareFails: bool, rejected: set<nat>, commitFails: bool)

  datatype FlushError = BeginFailed | PrepareFailed | CommitFailed

  /** The error `Flush` returns; a refused row insert is logged and is not an error. */
  function FlushErrorOf(f: Faults): Option<FlushError> {
    if f.beginFails then Some(BeginFailed)
    else if f.prepareFails then Some(PrepareFailed)
    else if f.commitFails then Some(CommitFailed)
    else None
  }

  /** The rows after `INSERT OR REPLACE` of the first `n` records of `batch`, skipping the refused ones. */
  function Upserted(rows: map<(Str, int), Row>, batch: seq<ServerDetail>, n: nat, rejected: set<nat>,
                    clock: nat -> Time): map<(Str, int), Row>
    requires n <= |batch|
  {
    if n == 0 then rows
    else
      var prev := Upserted(rows, batch, n - 1, rejected, clock);
      if n - 1 in rejected then prev else prev[Key(batch[n - 1]) := RowOf(batch[n - 1], clock(n - 1))]
  }

  /** The rows after one `Flush`: the whole batch committed, or nothing when the transaction fails. */
  function Flushed(rows: map<(Str, int), Row>, batch: seq<ServerDetail>, f: Faults, clock: nat -> Time)
    : map<(Str, int), Row>
  {
    if FlushErrorOf(f).None? then Upserted(rows, batch, |batch|, f.rejected, clock) else rows
  }

  /** The `servers` table. */
  class Table {
    var rows: map<(Str, int), Row>

    constructor ()
      ensures rows == map[]
    {
      rows := map[];
    }

    /**
      `Flush`: in one transaction, upsert every record of the batch by its key,
      stamping a zero timestamp with the current time; a refused insert is
      skipped. A failing `Begin` or `Prepare` or `Commit` leaves the table as it was.
    */
    method Flush(batch: seq<ServerDetail>, faults: Faults, clock: nat -> Time) returns (err: Option<FlushError>)
      modifies this
      ensures err == FlushErrorOf(faults)
      ensures rows == Flushed(old(rows), batch, faults, clock)
    {
      if faults.beginFails {
        return Some(BeginFailed);
      }
      if faults.prepareFails {
        return Some(PrepareFailed);  // rolled back: nothing written
      }
      var pending := rows;
      for i := 0 to |batch|
        invariant pending == Upserted(rows, batch, i, faults.rejected, clock)
      {
        var s := batch[i];
        var ts := s.timestamp;
        if ts.ZeroTime? {
          ts := clock(i);
        }
        if i in faults.rejected {
          continue;
        }
        pending := pending[(s.ip, s.port) := Row(s.versionName, s.protocol, s.playersOnline, s.playersMax,
                                                 s.isWhitelist, s.software, s.mods, s.plugins,
                                                 s.enforcesSecureChat, ts)];
      }
      if faults.commitFails {
        return Some(CommitFailed);
      }
      rows := pending;
      err := None;
    }
  }

  // ---------------------------------------------------------------------------
  // Properties of the upsert

  /** The keys afterwards are the keys before and the keys of the records not refused. */
  lemma {:induction false} UpsertedKeys(rows: map<(Str, int), Row>, batch: seq<ServerDetail>, n: nat,
                                        rejected: set<nat>, clock: nat -> Time)
    requires n <= |batch|
    ensures Upserted(rows, batch, n, rejected, clock).Keys
            == rows.Keys + set j | 0 <= j < n && j !in rejected :: Key(batch[j])
    decreases n
  {
    if n > 0 {
      UpsertedKeys(rows, batch, n - 1, rejected, clock);
      var before := set j | 0 <= j < n - 1 && j !in rejected :: Key(batch[j]);
      var after := set j | 0 <= j < n && j !in rejected :: Key(batch[j]);
      if n - 1 in rejected {
        assert after == before;
      } else {
        assert after == before + {Key(batch[n - 1])};
      }
    }
  }

  /** A key met again later in the batch holds the row of its last record that was not refused. */
  lemma {:induction false} UpsertedLastWins(rows: map<(Str, int), Row>, batch: seq<ServerDetail>, n: nat,
                                            rejected: set<nat>, clock: nat -> Time, i: nat)
    requires i < n <= |batch| && i !in rejected
    requires forall j :: i < j < n && j !in rejected ==> Key(batch[j]) != Key(batch[i])
    ensures Key(batch[i]) in Upserted(rows, batch, n, rejected, clock)
    ensures Upserted(rows, batch, n, rejected, clock)[Key(batch[i])] == RowOf(batch[i], clock(i))
    decreases n
  {
    if i < n - 1 {
      UpsertedLastWins(rows, batch, n - 1, rejected, clock, i);
    }
  }

  /** A key no accepted record of the batch has keeps its row, or its absence. */
  lemma {:induction false} UpsertedKeepsOthers(rows: map<(Str, int), Row>, batch: seq<ServerDetail>, n: nat,
                                               rejected: set<nat>, clock: nat -> Time, k: (Str, int))
    requires n <= |batch|
    requires forall j :: 0 <= j < n && j !in rejected ==> Key(batch[j]) != k
    ensures k in Upserted(rows, batch, n, rejected, clock) <==> k in rows
    ensures k in rows ==> Upserted(rows, batch, n, rejected, clock)[k] == rows[k]
    decreases n
  {
    if n > 0 {
      UpsertedKeepsOthers(rows, batch, n - 1, rejected, clock, k);
    }
  }

  /**
    A stored timestamp is never Go's zero time when the clock never reads as
    it: every row is either untouched or written with a non-zero timestamp,
    the record's own when it has one.
  */
  lemma {:induction false} UpsertedTimestamps(rows: map<(Str, int), Row>, batch: seq<ServerDetail>, n: nat,
                                              rejected: set<nat>, clock: nat -> Time)
    requires n <= |batch|
    requires forall i :: 0 <= i < n ==> clock(i) != ZeroTime
    ensures forall k :: k in Upserted(rows, batch, n, rejected, clock) ==>
              (k in rows && Upserted(rows, batch, n, rejected, clock)[k] == rows[k]) ||
              Upserted(rows, batch, n, rejected, clock)[k].timestamp != ZeroTime
    ensures forall i :: 0 <= i < n && batch[i].timestamp != ZeroTime ==>
              RowOf(batch[i], clock(i)).timestamp == batch[i].timestamp
    decreases n
  {
    if n > 0 {
      UpsertedTimestamps(rows, batch, n - 1, rejected, clock);
    }
  }

  // ---------------------------------------------------------------------------
  // StartSQLiteManager

  /**
    The batches the manager flushes from `records` when each batch holds
    `size` records: full batches, then the non-empty remainder.
  */
  function Chunks(records: seq<ServerDetail>, size: nat): seq<seq<ServerDetail>>
    requires size >= 1
    decreases |records|
  {
    if records == [] then []
    else if |records| <= size then [records]
    else [records[..size]] + Chunks(records[size..], size)
  }

  /** The batches of `StartSQLiteManager`: a batch size below 1 flushes every record alone. */
  function Batches(records: seq<ServerDetail>, batchSize: int): seq<seq<ServerDetail>> {
    Chunks(records, if batchSize < 1 then 1 else batchSize)
  }

  /** The table after flushing `batches` one after another, the `j`-th with `faults(j)` and `now(j)`. */
  function FlushAll(rows: map<(Str, int), Row>, batches: seq<seq<ServerDetail>>,
                    faults: nat -> Faults, now: nat -> nat -> Time): map<(Str, int), Row>
  {
    if batches == [] then rows
    else
      var j := |batches| - 1;
      Flushed(FlushAll(rows, batches[..j], faults, now), batches[j], faults(j), now(j))
  }

  /** The batches hold the records in order, nothing lost or repeated. */
  lemma {:induction false} ChunksConcat(records: seq<ServerDetail>, size: nat)
    requires size >= 1
    ensures Concat(Chunks(records, size)) == records
    decreases |records|
  {
    if records != [] {
      if |records| <= size {
        assert Concat([records]) == records by {
          assert [records][..0] == [];
        }
      } else {
        var first, rest := records[..size], Chunks(records[size..], size);
        assert Chunks(records, size) == [first] + rest;
        assert Concat([first] + rest) == Concat([first]) + Concat(rest) by {
          ConcatAppend([first], rest);
        }
        assert Concat([first]) == first by {
          assert [first][..0] == [];
        }
        ChunksConcat(records[size..], size);
        assert first + records[size..] == records;
      }
    }
  }

  /** Every batch but the last holds exactly `size` records; the last holds 1 to `size`. */
  lemma {:induction false} ChunksSizes(records: seq<ServerDetail>, size: nat)
    requires size >= 1
    ensures forall j :: 0 <= j < |Chunks(records, size)| - 1 ==> |Chunks(records, size)[j]| == size
    ensures records != [] ==> 1 <= |Chunks(records, size)[|Chunks(records, size)| - 1]| <= size
    decreases |records|
  {
    if |records| > size {
      ChunksSizes(records[size..], size);
      var rest := Chunks(records[size..], size);
      assert Chunks(records, size) == [records[..size]] + rest;
      forall j | 1 <= j < |Chunks(records, size)| - 1
        ensures |Chunks(records, size)[j]| == size
      {
        assert Chunks(records, size)[j] == rest[j - 1];
      }
    }
  }

  /** There are `ceil(n / size)` flushes for `n` records: the fewest batches of `size` that hold them all. */
  lemma {:induction false} ChunksCount(records: seq<ServerDetail>, size: nat)
    requires size >= 1
    ensures (|Chunks(records, size)| - 1) * size < |records| <= |Chunks(records, size)| * size
    decreases |records|
  {
    if |records| > size {
      ChunksCount(records[size..], size);
      var c := |Chunks(records[size..], size)|;
      assert |Chunks(records, size)| == c + 1;
      assert (c + 1) * size == c * size + size;
      assert c * size == (c - 1) * size + size;
    }
  }

  /** With a batch size of 0 or 1 every record is flushed alone. */
  lemma {:induction false} SmallBatchSizeFlushesEach(records: seq<ServerDetail>, batchSize: int)
    requires batchSize <= 1
    ensures Batches(records, batchSize) == seq(|records|, i requires 0 <= i < |records| => [records[i]])
    decreases |records|
  {
    var each := seq(|records|, i requires 0 <= i < |records| => [records[i]]);
    if |records| > 1 {
      SmallBatchSizeFlushesEach(records[1..], batchSize);
      assert Batches(records, batchSize) == [records[..1]] + Batches(records[1..], batchSize);
      assert records[..1] == [records[0]];
      assert each == [[records[0]]] + seq(|records| - 1, i requires 0 <= i < |records| - 1 => [records[1..][i]]);
    } else if |records| == 1 {
      assert records == [records[0]];
      assert each == [records];
    }
  }

  /** Every batch holds exactly `size` records. */
  predicate AllFull(batches: seq<seq<ServerDetail>>, size: nat) {
    forall k :: 0 <= k < |batches| ==> |batches[k]| == size
  }

  /** After records that fill whole batches, one more batch of at most `size` records is flushed as it is. */
  lemma {:induction false} ChunksExtend(s: seq<ServerDetail>, b: seq<ServerDetail>, size: nat)
    requires size >= 1 && 1 <= |b| <= size && AllFull(Chunks(s, size), size)
    ensures Chunks(s + b, size) == Chunks(s, size) + [b]
    decreases |s|
  {
    if s == [] {
      assert s + b == b;
    } else if |s| <= size {
      assert Chunks(s, size)[0] == s;
      assert (s + b)[..size] == s && (s + b)[size..] == b;
    } else {
      var c := Chunks(s, size);
      assert c == [s[..size]] + Chunks(s[size..], size);
      assert forall k :: 0 <= k < |c| - 1 ==> Chunks(s[size..], size)[k] == c[k + 1];
      ChunksExtend(s[size..], b, size);
      assert (s + b)[..size] == s[..size] && (s + b)[size..] == s[size..] + b;
    }
  }

  /**
    `StartSQLiteManager`: appends each record received to the buffer; when
    the buffer holds `batchSize` records it is flushed and emptied, whether or
    not the flush failed; at the end a non-empty remainder is flushed once.
    `make` with a negative capacity panics, so the batch size is not negative.
  */
  method StartSQLiteManager(table: Table, records: seq<ServerDetail>, batchSize: int,
                            faults: nat -> Faults, now: nat -> nat -> Time)
    returns (flushed: seq<seq<ServerDetail>>)
    requires batchSize >= 0
    modifies table
    ensures flushed == Batches(records, batchSize)
    ensures table.rows == FlushAll(old(table.rows), flushed, faults, now)
  {
    ghost var size := if batchSize < 1 then 1 else batchSize;
    ghost var rows0 := table.rows;
    var buffer: seq<ServerDetail> := [];
    flushed := [];
    ghost var start := 0;  // where the buffered records begin
    for i := 0 to |records|
      invariant start + |buffer| == i && buffer == records[start..i]
      invariant |buffer| < size
      invariant flushed == Chunks(records[..start], size) && AllFull(flushed, size)
      invariant table.rows == FlushAll(rows0, flushed, faults, now)
    {
      buffer := buffer + [records[i]];
      assert buffer == records[start..i + 1];
      if |buffer| >= batchSize {
        var err := table.Flush(buffer, faults(|flushed|), now(|flushed|));
        ChunksStep(records, start, i + 1, size);
        FlushAllSnoc(rows0, flushed, buffer, faults, now);
        flushed := flushed + [buffer];
        buffer := [];
        start := i + 1;
      }
    }
    if |buffer| > 0 {
      var err := table.Flush(buffer, faults(|flushed|), now(|flushed|));
      ChunksStep(records, start, |records|, size);
      FlushAllSnoc(rows0, flushed, buffer, faults, now);
      flushed := flushed + [buffer];
    }
    assert records[..|records|] == records;
  }

  /** Flushing one more batch. */
  lemma FlushAllSnoc(rows: map<(Str, int), Row>, batches: seq<seq<ServerDetail>>, b: seq<ServerDetail>,
                     faults: nat -> Faults, now: nat -> nat -> Time)
    ensures FlushAll(rows, batches + [b], faults, now)
            == Flushed(FlushAll(rows, batches, faults, now), b, faults(|batches|), now(|batches|))
  {
    assert (batches + [b])[..|batches|] == batches;
  }

  /** A buffer of 1 to `size` records after whole batches is the next batch. */
  lemma ChunksStep(records: seq<ServerDetail>, n: nat, m: nat, size: nat)
    requires size >= 1 && n < m <= |records| && m - n <= size && AllFull(Chunks(records[..n], size), size)
    ensures Chunks(records[..m], size) == Chunks(records[..n], size) + [records[n..m]]
    ensures AllFull(Chunks(records[..m], size), size) <==> m - n == size
  {
    assert records[..m] == records[..n] + records[n..m];
    ChunksExtend(records[..n], records[n..m], size);
    var c := Chunks(records[..n], size);
    assert (c + [records[n..m]])[|c|] == records[n..m];
    assert forall k :: 0 <= k < |c| ==> (c + [records[n..m]])[k] == c[k];
  }

  /** One record with a batch size of 2, as in sqlite_test.go: one flush, and the table holds its row. */
  lemma OneRecordStored(s: ServerDetail, clock: nat -> Time)
    ensures Batches([s], 2) == [[s]]
    ensures FlushAll(map[], [[s]], _ => Faults(false, false, {}, false), _ => clock)
            == map[Key(s) := RowOf(s, clock(0))]
  {
    assert [[s]][..0] == [];
    assert Upserted(map[], [s], 1, {}, clock) == map[Key(s) := RowOf(s, clock(0))];
  }
}
