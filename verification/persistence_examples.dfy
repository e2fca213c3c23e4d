/** The behaviour the source's tests describe, on the model. */
module PersistenceExamples {
  import opened Common
  import opened Clock
  import opened Windows
  import opened Chains
  import opened Persistence

  /** `time_go_backwards`: a write at 1ns and then one at 0ns, with
      increasing sequence numbers, are both accepted, and the second is
      taken to be made at 1ns. */
  lemma TimeGoesBackwards()
    ensures var s0 := Persistence.New(60 * NANOS_PER_SEC, 0);
      var s1 := Persistence.AddRange(s0, 1, Some(Sequence(1, 1)), 1, 100, 200);
      && s1.Ok?
      && var s2 := Persistence.AddRange(s1.value, 0, Some(Sequence(1, 2)), 1, 100, 200);
         && s2.Ok?
         && s2.value.timeOfLastWrite == 1
         && s2.value.open.value.timeOfLastWrite == 1
  {
    var s0 := Persistence.New(60 * NANOS_PER_SEC, 0);
    var s1 := Persistence.AddRange(s0, 1, Some(Sequence(1, 1)), 1, 100, 200);
    assert s1.value.maxSequenceNumbers == map[1 := 1];
    assert !Stale(s1.value.maxSequenceNumbers, Some(Sequence(1, 2)));
  }

  /** `panics_when_min_time_gt_max_time`: a write whose oldest row is later
      than its newest is refused. */
  lemma MinTimeAfterMaxTimeRefused()
    ensures Persistence.AddRange(Persistence.New(60 * NANOS_PER_SEC, 0), 0, Some(Sequence(1, 1)), 1, NANOS_PER_SEC, 1)
         == Err(MinTimeAfterMaxTime)
  {
  }

  /** A write whose sequence number does not exceed its sequencer's recorded
      maximum is refused, however its rows lie. */
  lemma StaleSequenceRefused(pw: PersistenceWindows, now: Time, number: nat, rowCount: NonZero, minTime: Time, maxTime: Time)
    requires Valid(pw) && 1 in pw.maxSequenceNumbers && number <= pw.maxSequenceNumbers[1] && minTime <= maxTime
    ensures Persistence.AddRange(pw, now, Some(Sequence(1, number)), rowCount, minTime, maxTime) == Err(SequenceNotIncreasing)
  {
  }

  /** `test_mark_seen_and_persisted`: two replayed checkpoints, the second
      with a lower maximum for sequencer 1 and a new sequencer 2, leave the
      larger maxima and, with no windows, no minima. */
  lemma MarkSeenExample()
    ensures var s := Persistence.New(100 * NANOS_PER_SEC, 47069490749);
      var c1 := Checkpoint(map[1 := OptionalMinMax(Some(1), 2)], 260936036);
      var c2 := Checkpoint(map[1 := OptionalMinMax(Some(0), 1), 2 := OptionalMinMax(None, 3)], 345345);
      SequencerNumbers(MarkSeenAndPersisted(MarkSeenAndPersisted(s, c1), c2))
        == map[1 := OptionalMinMax(None, 2), 2 := OptionalMinMax(None, 3)]
  {
    var s := Persistence.New(100 * NANOS_PER_SEC, 47069490749);
    var c1 := Checkpoint(map[1 := OptionalMinMax(Some(1), 2)], 260936036);
    var c2 := Checkpoint(map[1 := OptionalMinMax(Some(0), 1), 2 := OptionalMinMax(None, 3)], 345345);
    var s1 := MarkSeenAndPersisted(s, c1);
    assert s1.maxSequenceNumbers == map[1 := 2];
    var s2 := MarkSeenAndPersisted(s1, c2);
    assert s2.maxSequenceNumbers == map[1 := 2, 2 := 3];
    assert WindowsOf(s2) == [];
  }

  const LATE: Duration := 30 * NANOS_PER_SEC

  /** The windows of `flush_min_max_timestamp`: two writes of two rows,
      each covering every timestamp, at time 0 and at 30s. */
  const A: Window := Window(0, 0, 2, TIME_MIN, TIME_MAX, map[1 := MinMax(2, 2)])
  const B: Window := Window(LATE, LATE, 2, TIME_MIN, TIME_MAX, map[1 := MinMax(3, 3)])

  lemma FlushMinMaxFirstWrite()
    ensures Persistence.AddRange(Persistence.New(LATE, 0), 0, Some(Sequence(1, 2)), 2, TIME_MIN, TIME_MAX)
         == Ok(PersistenceWindows(None, false, [], Some(A), LATE, LATE, 0, 0, map[1 := 2]))
  {
    var s0 := PersistenceWindows(None, false, [], None, LATE, LATE, 0, 0, map[]);
    assert Persistence.New(LATE, 0) == s0;
    var r := Persistence.AddRange(s0, 0, Some(Sequence(1, 2)), 2, TIME_MIN, TIME_MAX);
    assert r == Ok(PersistenceWindows(None, false, [], Some(A), LATE, LATE, 0, 0, map[1 := 2])) by {
      assert !Stale(map[], Some(Sequence(1, 2)));
      assert RotateImpl(s0, 0) == s0;
      assert Record(map[], Some(Sequence(1, 2))) == map[1 := 2];
      assert OpenWith(None, Some(Sequence(1, 2)), 2, TIME_MIN, TIME_MAX, 0) == A;
    }
  }

  /** At 30s the first window closes and, being thirty seconds old, becomes
      the persistable window. */
  lemma FlushMinMaxSecondWrite()
    ensures var s1 := PersistenceWindows(None, false, [], Some(A), LATE, LATE, 0, 0, map[1 := 2]);
      Persistence.AddRange(s1, LATE, Some(Sequence(1, 3)), 2, TIME_MIN, TIME_MAX)
        == Ok(PersistenceWindows(Some(A), false, [], Some(B), LATE, LATE, 0, LATE, map[1 := 3]))
  {
    var s1 := PersistenceWindows(None, false, [], Some(A), LATE, LATE, 0, 0, map[1 := 2]);
    var r := Persistence.AddRange(s1, LATE, Some(Sequence(1, 3)), 2, TIME_MIN, TIME_MAX);
    assert r == Ok(PersistenceWindows(Some(A), false, [], Some(B), LATE, LATE, 0, LATE, map[1 := 3])) by {
      assert !Stale(map[1 := 2], Some(Sequence(1, 3)));
      FlushMinMaxFirstRotation();
      assert Record(map[1 := 2], Some(Sequence(1, 3))) == map[1 := 3];
      assert OpenWith(None, Some(Sequence(1, 3)), 2, TIME_MIN, TIME_MAX, LATE) == B;
    }
  }

  /** At 30s the first window is thirty seconds old: it is closed and
      becomes the persistable window. */
  lemma FlushMinMaxFirstRotation()
    ensures var s1 := PersistenceWindows(None, false, [], Some(A), LATE, LATE, 0, 0, map[1 := 2]);
      RotateImpl(s1, LATE) == s1.(persistable := Some(A), open := None)
  {
    var s1 := PersistenceWindows(None, false, [], Some(A), LATE, LATE, 0, 0, map[1 := 2]);
    assert IsCloseable(A, LATE, LATE) && IsPersistable(A, LATE, LATE);
    var closing := s1.(closed := [A], open := None);
    assert CloseOpen(s1, LATE) == closing;
    assert [A][1..] == [];
    assert Persist(None, [A], LATE, LATE) == Persist(Some(A), [], LATE, LATE) == (Some(A), []);
  }

  /** At 33s the open window is closed; it is too young to persist, so
      rotation keeps the first window as the persistable one. */
  lemma FlushMinMaxRotation()
    ensures var s2 := PersistenceWindows(Some(A), false, [], Some(B), LATE, LATE, 0, LATE, map[1 := 3]);
      RotateImpl(MoveOpen(s2), 33 * NANOS_PER_SEC)
        == PersistenceWindows(Some(A), false, [B], None, LATE, LATE, 0, LATE, map[1 := 3])
  {
    var s2 := PersistenceWindows(Some(A), false, [], Some(B), LATE, LATE, 0, LATE, map[1 := 3]);
    var now := 33 * NANOS_PER_SEC;
    var moved := MoveOpen(s2);
    assert moved == s2.(closed := [B], open := None);
    assert CloseOpen(moved, now) == moved;
    assert !IsPersistable(B, now, LATE);
    assert Persist(Some(A), [B], now, LATE) == (Some(A), [B]);
  }

  /** Skipping the persistable window, whose newest row is `Time::MAX`,
      no window is newer, so sequencer 1 has no unpersisted minimum. */
  lemma FlushMinMaxSequencerNumbers()
    ensures var frozen := PersistenceWindows(Some(A), true, [B], None, LATE, LATE, 0, LATE, map[1 := 3]);
      SequencerNumbersInner(frozen, true) == map[1 := OptionalMinMax(None, 3)]
  {
    var frozen := PersistenceWindows(Some(A), true, [B], None, LATE, LATE, 0, LATE, map[1 := 3]);
    assert Searched(frozen, true) == [B] by {
      assert WindowsOf(frozen) == [A, B];
    }
    assert SearchFlushTime(frozen, true) == Some(TIME_MAX);
    FirstMinNothingNewer([B], 1);
  }

  /** At 33s a flush handle is taken: the second window is closed but too
      young to persist, and the handle's timestamp is `Time::MAX`. */
  lemma FlushMinMaxHandle()
    ensures var s2 := PersistenceWindows(Some(A), false, [], Some(B), LATE, LATE, 0, LATE, map[1 := 3]);
      FlushHandleImpl(s2, 33 * NANOS_PER_SEC)
        == (PersistenceWindows(Some(A), true, [B], None, LATE, LATE, 0, LATE, map[1 := 3]),
            Some(FlushHandle(1, TIME_MAX, map[1 := OptionalMinMax(None, 3)])))
  {
    FlushMinMaxRotation();
    FlushMinMaxSequencerNumbers();
  }

  /** `flush_min_max_timestamp`: after two writes covering every timestamp,
      the handle taken at 33s has timestamp `Time::MAX`, so does its
      checkpoint, and the flush leaves no closed and no persistable window. */
  lemma FlushMinMaxTimestamp()
    ensures var s0 := Persistence.New(LATE, 0);
      var s1 := Persistence.AddRange(s0, 0, Some(Sequence(1, 2)), 2, TIME_MIN, TIME_MAX);
      && s1.Ok?
      && var s2 := Persistence.AddRange(s1.value, LATE, Some(Sequence(1, 3)), 2, TIME_MIN, TIME_MAX);
         && s2.Ok?
         && var (s3, handle) := FlushHandleImpl(s2.value, 33 * NANOS_PER_SEC);
            && handle.Some?
            && handle.value.timestamp == TIME_MAX
            && HandleCheckpoint(handle.value).flushTimestamp == TIME_MAX
            && Flush(s3, handle.value).closed == []
            && Flush(s3, handle.value).persistable.None?
  {
    FlushMinMaxFirstWrite();
    FlushMinMaxSecondWrite();
    FlushMinMaxHandle();
  }
}
