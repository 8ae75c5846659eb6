/**
  internal/storage/buffer.go: the goroutine of `StartManager`, which collects
  probe records into a batch and hands the batch to the database when it
  reaches the batch size, on every tick of a five-second ticker, and when the
  result channel is closed, after which it closes `done`.

  What the goroutine observes is a sequence of `Event`s: a record received, a
  tick, or the channel found closed. `Database.SaveBatch` is not part of this
  model: the batches handed to it are the output, and its error, which is only
  logged, changes nothing.
*/
module Buffer {
  import opened Types
  import opened Seqs

  datatype Event = Received(record: ServerDetail) | Tick | Closed

  /** The goroutine's state: the batches saved so far, the pending batch, and whether it has returned. */
  datatype Manager = Manager(saved: seq<seq<ServerDetail>>, batch: seq<ServerDetail>, done: bool)

  /** The state before the first event. */
  const Start: Manager := Manager([], [], false)

  /** Saves the pending batch if it is non-empty and resets it. */
  function SaveIfAny(m: Manager): Manager {
    if |m.batch| > 0 then m.(saved := m.saved + [m.batch], batch := []) else m
  }

  /** One round of the `select` loop; a goroutine that has returned ignores further events. */
  function Step(m: Manager, e: Event, batchSize: int): Manager {
    if m.done then m
    else
      match e
      case Closed => SaveIfAny(m).(done := true)
      case Received(r) =>
        var grown := m.batch + [r];
        if |grown| >= batchSize then m.(saved := m.saved + [grown], batch := []) else m.(batch := grown)
      case Tick => SaveIfAny(m)
  }

  /** The state after `events`. */
  function Run(events: seq<Event>, batchSize: int): Manager {
    if events == [] then Start else Step(Run(events[..|events| - 1], batchSize), events[|events| - 1], batchSize)
  }

  /** The records received before the channel is found closed. */
  function Records(events: seq<Event>): seq<ServerDetail> {
    if events == [] then []
    else
      var prefix := events[..|events| - 1];
      var e := events[|events| - 1];
      if Closed in prefix || !e.Received? then Records(prefix) else Records(prefix) + [e.record]
  }

  /**
    `StartManager`'s goroutine over the events it observes: append a record
    and save a full batch; on a tick save a non-empty batch; on close save the
    non-empty remainder and return. The batch is reset after every save.
  */
  method StartManager(events: seq<Event>, batchSize: int)
    returns (saved: seq<seq<ServerDetail>>, batch: seq<ServerDetail>, done: bool)
    ensures Manager(saved, batch, done) == Run(events, batchSize)
  {
    saved, batch, done := [], [], false;
    var i := 0;
    while i < |events|
      invariant 0 <= i <= |events|
      invariant Manager(saved, batch, done) == Run(events[..i], batchSize) && !done
    {
      assert events[..i + 1][..i] == events[..i];
      match events[i] {
        case Closed =>
          if |batch| > 0 {
            saved := saved + [batch];
            batch := [];
          }
          done := true;
          RunAfterDone(events, i + 1, batchSize);
          return;
        case Received(res) =>
          batch := batch + [res];
          if |batch| >= batchSize {
            saved := saved + [batch];
            batch := [];
          }
        case Tick =>
          if |batch| > 0 {
            saved := saved + [batch];
            batch := [];
          }
      }
      i := i + 1;
    }
    assert events[..i] == events;
  }

  /** Once the goroutine has returned, later events change nothing. */
  lemma {:induction false} RunAfterDone(events: seq<Event>, n: nat, batchSize: int)
    requires n <= |events| && Run(events[..n], batchSize).done
    ensures Run(events, batchSize) == Run(events[..n], batchSize)
    decreases |events| - n
  {
    if n < |events| {
      assert events[..n + 1][..n] == events[..n];
      RunAfterDone(events, n + 1, batchSize);
    } else {
      assert events[..n] == events;
    }
  }

  /**
    Nothing is lost or repeated: the saved batches followed by the pending
    batch are the records received, in order; and once the goroutine has
    returned nothing is pending.
  */
  lemma {:induction false} RunConserves(events: seq<Event>, batchSize: int)
    ensures Concat(Run(events, batchSize).saved) + Run(events, batchSize).batch == Records(events)
    ensures Run(events, batchSize).done ==> Run(events, batchSize).batch == []
    ensures Run(events, batchSize).done <==> Closed in events
    decreases |events|
  {
    if events != [] {
      var prefix := events[..|events| - 1];
      var e := events[|events| - 1];
      RunConserves(prefix, batchSize);
      var m := Run(prefix, batchSize);
      assert events == prefix + [e];
      if !m.done {
        match e
        case Closed =>
          ConcatAppend(m.saved, [m.batch]);
          assert Concat([m.batch]) == m.batch by { assert [m.batch][..0] == []; }
        case Received(r) =>
          var grown := m.batch + [r];
          ConcatAppend(m.saved, [grown]);
          assert Concat([grown]) == grown by { assert [grown][..0] == []; }
        case Tick =>
          ConcatAppend(m.saved, [m.batch]);
          assert Concat([m.batch]) == m.batch by { assert [m.batch][..0] == []; }
      }
    }
  }

  /**
    With a batch size of at least 1, the pending batch between events is
    always smaller than the batch size, and every saved batch holds 1 to
    `batchSize` records.
  */
  lemma {:induction false} RunBatchBound(events: seq<Event>, batchSize: int)
    requires batchSize >= 1
    ensures |Run(events, batchSize).batch| < batchSize
    ensures forall j :: 0 <= j < |Run(events, batchSize).saved| ==>
              1 <= |Run(events, batchSize).saved[j]| <= batchSize
    decreases |events|
  {
    if events != [] {
      RunBatchBound(events[..|events| - 1], batchSize);
    }
  }

  /** With a batch size of at most 1, every record is saved alone as soon as it arrives. */
  lemma {:induction false} SmallBatchSizeSavesEach(events: seq<Event>, batchSize: int)
    requires batchSize <= 1
    ensures Run(events, batchSize).batch == []
    ensures forall j :: 0 <= j < |Run(events, batchSize).saved| ==> |Run(events, batchSize).saved[j]| == 1
    decreases |events|
  {
    if events != [] {
      SmallBatchSizeSavesEach(events[..|events| - 1], batchSize);
    }
  }

  /** A tick saves a non-empty pending batch and leaves an empty one alone. */
  lemma TickSaves(events: seq<Event>, batchSize: int)
    requires !Run(events, batchSize).done
    ensures var m := Run(events, batchSize);
            Run(events + [Tick], batchSize)
            == if m.batch == [] then m else Manager(m.saved + [m.batch], [], false)
  {
    assert (events + [Tick])[..|events|] == events;
  }
}
