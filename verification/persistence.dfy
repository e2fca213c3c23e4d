/** `PersistenceWindows`: the writes of one partition, grouped by when they
    arrived into an optional persistable window, a queue of closed windows
    and an optional open window, oldest first. The wall clock is the `now`
    argument of each operation; the `Freezable` wrapper around the
    persistable window is the `frozen` flag, set while a flush handle is
    outstanding. */
module Persistence {
  import opened Common
  import opened Clock
  import opened Windows
  import opened Chains

  const DEFAULT_CLOSED_WINDOW: Duration := 30 * NANOS_PER_SEC

  /** `OptionalMinMaxSequence`: the first unpersisted sequence number of a
      sequencer, if any, and the last one seen. */
  datatype OptionalMinMax = OptionalMinMax(min: Option<nat>, max: nat)

  /** `PartitionCheckpoint`, without the table and partition names. */
  datatype Checkpoint = Checkpoint(sequencerNumbers: map<nat, OptionalMinMax>, flushTimestamp: Time)

  /** `FlushHandle`, without the freeze handle it owns (its presence is the
      `frozen` flag) and the partition address. */
  datatype FlushHandle = FlushHandle(closedCount: nat, timestamp: Time, sequencerNumbers: map<nat, OptionalMinMax>)

  /** `FlushHandle::checkpoint`. */
  function HandleCheckpoint(handle: FlushHandle): Checkpoint
  {
    Checkpoint(handle.sequencerNumbers, handle.timestamp)
  }

  datatype PersistenceWindows = PersistenceWindows(
    persistable: Option<Window>,
    frozen: bool,
    closed: seq<Window>,
    open: Option<Window>,
    lateArrivalPeriod: Duration,
    closedWindowPeriod: Duration,
    timeOfFirstWrite: Time,
    timeOfLastWrite: Time,
    maxSequenceNumbers: map<nat, nat>)

  /** The two panics of `add_range`, as errors. */
  datatype AddRangeError = MinTimeAfterMaxTime | SequenceNotIncreasing

  function AsSeq(w: Option<Window>): seq<Window>
  {
    if w.Some? then [w.value] else []
  }

  /** `windows`: the persistable window, the closed windows, then the open
      window. */
  function WindowsOf(pw: PersistenceWindows): seq<Window>
  {
    AsSeq(pw.persistable) + pw.closed + AsSeq(pw.open)
  }

  /** What every reachable state satisfies: its windows are well formed and
      in write order, none is written after the last write or holds a
      sequence number above the recorded maximum, the closing period is
      the late arrival period capped at thirty seconds, and a frozen state
      has a persistable window. */
  predicate Valid(pw: PersistenceWindows)
  {
    && Chain(WindowsOf(pw))
    && AllBounded(WindowsOf(pw), pw.timeOfLastWrite, pw.maxSequenceNumbers)
    && pw.closedWindowPeriod == Min(pw.lateArrivalPeriod, DEFAULT_CLOSED_WINDOW)
    && (pw.frozen ==> pw.persistable.Some?)
  }

  /** `PersistenceWindows::new`, created at `now`. */
  function New(lateArrivalPeriod: Duration, now: Time): (pw: PersistenceWindows)
    ensures Valid(pw) && WindowsOf(pw) == [] && !pw.frozen
    ensures pw.lateArrivalPeriod == lateArrivalPeriod
    ensures pw.closedWindowPeriod <= lateArrivalPeriod && pw.closedWindowPeriod <= DEFAULT_CLOSED_WINDOW
    ensures pw.closedWindowPeriod == lateArrivalPeriod || pw.closedWindowPeriod == DEFAULT_CLOSED_WINDOW
    ensures pw.timeOfFirstWrite == now && pw.timeOfLastWrite == now && pw.maxSequenceNumbers == map[]
  {
    PersistenceWindows(None, false, [], None, lateArrivalPeriod, Min(lateArrivalPeriod, DEFAULT_CLOSED_WINDOW), now, now, map[])
  }

  /** `set_late_arrival_period`: the closing period follows the new late
      arrival period; the windows are not touched. */
  function SetLateArrivalPeriod(pw: PersistenceWindows, lateArrivalPeriod: Duration): (r: PersistenceWindows)
    ensures Valid(pw) ==> Valid(r)
    ensures r.lateArrivalPeriod == lateArrivalPeriod
    ensures r.closedWindowPeriod <= lateArrivalPeriod && r.closedWindowPeriod <= DEFAULT_CLOSED_WINDOW
    ensures r.closedWindowPeriod == lateArrivalPeriod || r.closedWindowPeriod == DEFAULT_CLOSED_WINDOW
    ensures r == pw.(lateArrivalPeriod := r.lateArrivalPeriod, closedWindowPeriod := r.closedWindowPeriod)
  {
    pw.(closedWindowPeriod := Min(lateArrivalPeriod, DEFAULT_CLOSED_WINDOW), lateArrivalPeriod := lateArrivalPeriod)
  }

  /** `mark_seen_and_persisted`: every sequencer of the checkpoint has its
      recorded maximum raised to at least the checkpoint's maximum. */
  function MarkSeenAndPersisted(pw: PersistenceWindows, checkpoint: Checkpoint): (r: PersistenceWindows)
    ensures r.maxSequenceNumbers.Keys == pw.maxSequenceNumbers.Keys + checkpoint.sequencerNumbers.Keys
    ensures Dominates(r.maxSequenceNumbers, pw.maxSequenceNumbers)
    ensures forall id :: id in checkpoint.sequencerNumbers ==>
      checkpoint.sequencerNumbers[id].max <= r.maxSequenceNumbers[id]
    ensures forall id :: id in r.maxSequenceNumbers ==>
      || (id in pw.maxSequenceNumbers && r.maxSequenceNumbers[id] == pw.maxSequenceNumbers[id])
      || (id in checkpoint.sequencerNumbers && r.maxSequenceNumbers[id] == checkpoint.sequencerNumbers[id].max)
    ensures r == pw.(maxSequenceNumbers := r.maxSequenceNumbers)
  {
    var seen := checkpoint.sequencerNumbers;
    var numbers := map id | id in pw.maxSequenceNumbers.Keys + seen.Keys ::
      if id in pw.maxSequenceNumbers && id in seen then Max(pw.maxSequenceNumbers[id], seen[id].max)
      else if id in pw.maxSequenceNumbers then pw.maxSequenceNumbers[id]
      else seen[id].max;
    pw.(maxSequenceNumbers := numbers)
  }

  /** `closed.push_back(open.take())`. */
  function MoveOpen(pw: PersistenceWindows): (r: PersistenceWindows)
    ensures WindowsOf(r) == WindowsOf(pw) && r.open.None?
    ensures r.closed == pw.closed + AsSeq(pw.open)
    ensures Valid(pw) ==> Valid(r)
  {
    assert AsSeq(pw.persistable) + pw.closed + AsSeq(pw.open) + [] == AsSeq(pw.persistable) + (pw.closed + AsSeq(pw.open));
    pw.(closed := pw.closed + AsSeq(pw.open), open := None)
  }

  /** A chain's prefix is a chain. */
  lemma ChainPrefix(a: seq<Window>, b: seq<Window>)
    requires Chain(a + b)
    ensures Chain(a)
  {
    Slice(a + b, 0, |a|, 0, map[]);
    assert (a + b)[0..|a|] == a;
  }

  /** A closed window folded into the persistable window, or becoming it. */
  function Absorb(p: Option<Window>, w: Window): (r: Window)
    requires p.Some? ==> Before(p.value, w) && WellFormed(w)
  {
    match p
    case None => w
    case Some(v) =>
      assert forall id :: id in v.sequencerNumbers && id in w.sequencerNumbers ==>
        w.sequencerNumbers[id].max > v.sequencerNumbers[id].max by {
        forall id | id in v.sequencerNumbers && id in w.sequencerNumbers
          ensures w.sequencerNumbers[id].max > v.sequencerNumbers[id].max
        {
          assert w.sequencerNumbers[id].min <= w.sequencerNumbers[id].max;
        }
      }
      AddWindow(v, w)
  }

  /** One round of the loop of `rotate_impl`: folding the oldest closed
      window into the persistable window keeps the chain, its bounds and
      its row count. */
  lemma PersistStep(p: Option<Window>, closed: seq<Window>, tail: seq<Window>, lastWrite: int, maxSequence: map<nat, nat>)
    requires |closed| > 0 && Chain(AsSeq(p) + closed + tail)
    ensures p.Some? ==> Before(p.value, closed[0]) && WellFormed(closed[0])
    ensures Chain([Absorb(p, closed[0])] + closed[1..] + tail)
    ensures AllBounded(AsSeq(p) + closed + tail, lastWrite, maxSequence) ==>
      AllBounded([Absorb(p, closed[0])] + closed[1..] + tail, lastWrite, maxSequence)
    ensures TotalRows([Absorb(p, closed[0])] + closed[1..] + tail) == TotalRows(AsSeq(p) + closed + tail)
  {
    var ws := AsSeq(p) + closed + tail;
    if p.None? {
      assert ws == [closed[0]] + closed[1..] + tail;
    } else {
      assert ws[0] == p.value && ws[1] == closed[0] && ws[2..] == closed[1..] + tail;
      MergeHead(ws);
      MergeHeadRows(ws);
      if AllBounded(ws, lastWrite, maxSequence) {
        MergeHeadBounded(ws, lastWrite, maxSequence);
      }
      assert [Absorb(p, closed[0])] + closed[1..] + tail == [AddWindow(ws[0], ws[1])] + ws[2..];
    }
  }

  /** The loop of `rotate_impl`: while the oldest closed window is
      persistable, fold it into the persistable window. */
  function Persist(p: Option<Window>, closed: seq<Window>, now: Time, lateArrivalPeriod: Duration): (r: (Option<Window>, seq<Window>))
    requires Chain(AsSeq(p) + closed)
    decreases |closed|
  {
    if |closed| > 0 && IsPersistable(closed[0], now, lateArrivalPeriod) then
      assert AsSeq(p) + closed + [] == AsSeq(p) + closed;
      PersistStep(p, closed, [], 0, map[]);
      var q := Absorb(p, closed[0]);
      assert [q] + closed[1..] + [] == AsSeq(Some(q)) + closed[1..];
      Persist(Some(q), closed[1..], now, lateArrivalPeriod)
    else (p, closed)
  }

  /** What the loop keeps: the windows still form a chain within the same
      bounds, and hold the same rows. */
  lemma {:induction false} PersistKeeps(p: Option<Window>, closed: seq<Window>, tail: seq<Window>, now: Time, lateArrivalPeriod: Duration, lastWrite: int, maxSequence: map<nat, nat>)
    requires Chain(AsSeq(p) + closed + tail)
    decreases |closed|
    ensures Chain(AsSeq(p) + closed)
    ensures var r := Persist(p, closed, now, lateArrivalPeriod);
      && Chain(AsSeq(r.0) + r.1 + tail)
      && (AllBounded(AsSeq(p) + closed + tail, lastWrite, maxSequence) ==> AllBounded(AsSeq(r.0) + r.1 + tail, lastWrite, maxSequence))
      && TotalRows(AsSeq(r.0) + r.1 + tail) == TotalRows(AsSeq(p) + closed + tail)
  {
    ChainPrefix(AsSeq(p) + closed, tail);
    if |closed| > 0 && IsPersistable(closed[0], now, lateArrivalPeriod) {
      PersistStep(p, closed, tail, lastWrite, maxSequence);
      var q := Absorb(p, closed[0]);
      assert AsSeq(Some(q)) + closed[1..] + tail == [q] + closed[1..] + tail;
      PersistKeeps(Some(q), closed[1..], tail, now, lateArrivalPeriod, lastWrite, maxSequence);
      assert Persist(p, closed, now, lateArrivalPeriod) == Persist(Some(q), closed[1..], now, lateArrivalPeriod);
    }
  }

  /** What the loop takes: the longest run of persistable windows at the
      front of the closed queue, and nothing when there is none. */
  lemma {:induction false} PersistTakes(p: Option<Window>, closed: seq<Window>, now: Time, lateArrivalPeriod: Duration)
    requires Chain(AsSeq(p) + closed)
    decreases |closed|
    ensures var r := Persist(p, closed, now, lateArrivalPeriod);
      && |r.1| <= |closed| && r.1 == closed[|closed| - |r.1|..]
      && (forall i :: 0 <= i < |closed| - |r.1| ==> IsPersistable(closed[i], now, lateArrivalPeriod))
      && (|r.1| > 0 ==> !IsPersistable(r.1[0], now, lateArrivalPeriod))
      && (r.0.None? ==> p.None? && r.1 == closed)
  {
    if |closed| > 0 && IsPersistable(closed[0], now, lateArrivalPeriod) {
      assert p.Some? ==> Before(p.value, closed[0]) && WellFormed(closed[0]) by {
        assert AsSeq(p) + closed + [] == AsSeq(p) + closed;
        PersistStep(p, closed, [], 0, map[]);
      }
      var q := Absorb(p, closed[0]);
      assert Chain(AsSeq(Some(q)) + closed[1..]) by {
        assert AsSeq(p) + closed + [] == AsSeq(p) + closed;
        PersistStep(p, closed, [], 0, map[]);
        assert [q] + closed[1..] + [] == AsSeq(Some(q)) + closed[1..];
      }
      PersistTakes(Some(q), closed[1..], now, lateArrivalPeriod);
      var r := Persist(Some(q), closed[1..], now, lateArrivalPeriod);
      assert Persist(p, closed, now, lateArrivalPeriod) == r;
      forall i | 0 <= i < |closed| - |r.1|
        ensures IsPersistable(closed[i], now, lateArrivalPeriod)
      {
        if i > 0 {
          assert closed[i] == closed[1..][i - 1];
        }
      }
      assert closed[1..][|closed| - 1 - |r.1|..] == closed[|closed| - |r.1|..];
    }
  }

  /** The first step of `rotate_impl`: the open window is closed once it is
      `closedWindowPeriod` old. */
  function CloseOpen(pw: PersistenceWindows, now: Time): (r: PersistenceWindows)
    ensures WindowsOf(r) == WindowsOf(pw)
    ensures r.open.None? <==> pw.open.None? || IsCloseable(pw.open.value, now, pw.closedWindowPeriod)
    ensures r.open.Some? ==> r == pw
  {
    if pw.open.Some? && IsCloseable(pw.open.value, now, pw.closedWindowPeriod) then MoveOpen(pw) else pw
  }

  /** `rotate_impl`: close the open window if it is old enough; then, unless
      a flush handle is outstanding, fold the persistable closed windows
      into the persistable window. */
  function RotateImpl(pw: PersistenceWindows, now: Time): (r: PersistenceWindows)
    requires Valid(pw)
    ensures Valid(r)
    ensures r == pw.(persistable := r.persistable, closed := r.closed, open := r.open)
    ensures TotalRows(WindowsOf(r)) == TotalRows(WindowsOf(pw))
    ensures r.open.None? <==> pw.open.None? || IsCloseable(pw.open.value, now, pw.closedWindowPeriod)
    ensures r.open.Some? ==> r.open == pw.open
    ensures pw.frozen ==> r.persistable == pw.persistable && |r.closed| >= |pw.closed| && r.closed[..|pw.closed|] == pw.closed
    ensures !pw.frozen && |r.closed| > 0 ==> !IsPersistable(r.closed[0], now, pw.lateArrivalPeriod)
    ensures r.persistable.None? ==> pw.persistable.None?
    ensures pw.frozen ==> r == CloseOpen(pw, now)
  {
    var closing := CloseOpen(pw, now);
    if closing.frozen then
      assert closing.closed[..|pw.closed|] == pw.closed;
      closing
    else
      PersistKeeps(closing.persistable, closing.closed, AsSeq(closing.open), now, closing.lateArrivalPeriod,
                   closing.timeOfLastWrite, closing.maxSequenceNumbers);
      PersistTakes(closing.persistable, closing.closed, now, closing.lateArrivalPeriod);
      var persisted := Persist(closing.persistable, closing.closed, now, closing.lateArrivalPeriod);
      closing.(persistable := persisted.0, closed := persisted.1)
  }

  /** What rotation folds into the persistable window, when no handle is
      outstanding: the longest run of persistable windows at the front of
      the closed queue, once the open window has been closed; the rest of
      the queue stays as it was. */
  lemma RotateTakes(pw: PersistenceWindows, now: Time)
    requires Valid(pw) && !pw.frozen
    ensures var r := RotateImpl(pw, now); var c := CloseOpen(pw, now).closed;
      && |r.closed| <= |c| && r.closed == c[|c| - |r.closed|..]
      && (forall i :: 0 <= i < |c| - |r.closed| ==> IsPersistable(c[i], now, pw.lateArrivalPeriod))
  {
    var closing := CloseOpen(pw, now);
    ChainPrefix(AsSeq(closing.persistable) + closing.closed, AsSeq(closing.open));
    PersistTakes(closing.persistable, closing.closed, now, closing.lateArrivalPeriod);
  }

  /** A write that `add_range` refuses: its sequence number does not exceed
      the recorded maximum of its sequencer. */
  predicate Stale(maxSequenceNumbers: map<nat, nat>, sequence: Option<Sequence>)
  {
    && sequence.Some?
    && sequence.value.id in maxSequenceNumbers
    && maxSequenceNumbers[sequence.value.id] >= sequence.value.number
  }

  /** The recorded maxima after a write. */
  function Record(maxSequenceNumbers: map<nat, nat>, sequence: Option<Sequence>): map<nat, nat>
  {
    match sequence
    case None => maxSequenceNumbers
    case Some(s) => maxSequenceNumbers[s.id := s.number]
  }

  /** What `Window::add_range` asserts of a write to the open window: it is
      not earlier than the window's writes, and its sequence number exceeds
      the window's maximum for its sequencer. */
  predicate Accepts(open: Option<Window>, sequence: Option<Sequence>, timeOfWrite: Time)
  {
    && (open.Some? ==> open.value.timeOfFirstWrite <= timeOfWrite && open.value.timeOfLastWrite <= timeOfWrite)
    && (open.Some? && sequence.Some? && sequence.value.id in open.value.sequencerNumbers ==>
          sequence.value.number > open.value.sequencerNumbers[sequence.value.id].max)
  }

  /** The open window after a write: the write added to it, or a new window
      holding only the write. */
  function OpenWith(open: Option<Window>, sequence: Option<Sequence>, rowCount: NonZero, minTime: Time, maxTime: Time, timeOfWrite: Time): Window
    requires Accepts(open, sequence, timeOfWrite)
  {
    match open
    case None => Windows.New(timeOfWrite, sequence, rowCount, minTime, maxTime)
    case Some(w) => Windows.AddRange(w, sequence, rowCount, minTime, maxTime, timeOfWrite)
  }

  /** The open window of a valid state accepts any write that is not stale
      and is made no earlier than the last write. */
  lemma OpenAccepts(pw: PersistenceWindows, sequence: Option<Sequence>, timeOfWrite: Time)
    requires Valid(pw) && !Stale(pw.maxSequenceNumbers, sequence) && pw.timeOfLastWrite <= timeOfWrite
    ensures Accepts(pw.open, sequence, timeOfWrite)
  {
    if pw.open.Some? {
      var ws := WindowsOf(pw);
      assert ws[|ws| - 1] == pw.open.value;
      assert Bounded(pw.open.value, pw.timeOfLastWrite, pw.maxSequenceNumbers) && WellFormed(pw.open.value);
    }
  }

  /** Every window of a valid state is written before a window that holds
      a new write: the write is not earlier than any of them and its
      sequence number exceeds every number they hold for its sequencer. */
  lemma BeforeNewOpen(pw: PersistenceWindows, sequence: Option<Sequence>, rowCount: NonZero, minTime: Time, maxTime: Time, timeOfWrite: Time, i: nat)
    requires Valid(pw) && !Stale(pw.maxSequenceNumbers, sequence) && pw.timeOfLastWrite <= timeOfWrite
    requires i < |AsSeq(pw.persistable) + pw.closed|
    ensures Accepts(pw.open, sequence, timeOfWrite)
    ensures Before((AsSeq(pw.persistable) + pw.closed)[i], OpenWith(pw.open, sequence, rowCount, minTime, maxTime, timeOfWrite))
  {
    OpenAccepts(pw, sequence, timeOfWrite);
    var ws := WindowsOf(pw);
    var x := (AsSeq(pw.persistable) + pw.closed)[i];
    assert x == ws[i];
    assert Bounded(x, pw.timeOfLastWrite, pw.maxSequenceNumbers);
    var w' := OpenWith(pw.open, sequence, rowCount, minTime, maxTime, timeOfWrite);
    if pw.open.Some? {
      var o := pw.open.value;
      assert ws[|ws| - 1] == o && i < |ws| - 1;
      assert Before(x, o);
      forall id | id in x.sequencerNumbers && id in w'.sequencerNumbers
        ensures x.sequencerNumbers[id].max < w'.sequencerNumbers[id].min
      {
        if id !in o.sequencerNumbers {
          assert x.sequencerNumbers[id].max <= pw.maxSequenceNumbers[id];
        }
      }
    } else {
      forall id | id in x.sequencerNumbers && id in w'.sequencerNumbers
        ensures x.sequencerNumbers[id].max < w'.sequencerNumbers[id].min
      {
        assert x.sequencerNumbers[id].max <= pw.maxSequenceNumbers[id];
      }
    }
  }

  /** Replacing the last window of a chain by a well-formed window that
      all the others precede keeps a chain, within bounds that only grew. */
  lemma ReplaceOpen(prefix: seq<Window>, open: seq<Window>, w: Window, lastWrite: int, maxSequence: map<nat, nat>, lastWrite': int, maxSequence': map<nat, nat>)
    requires Chain(prefix + open) && AllBounded(prefix + open, lastWrite, maxSequence)
    requires WellFormed(w) && forall i :: 0 <= i < |prefix| ==> Before(prefix[i], w)
    requires Bounded(w, lastWrite', maxSequence') && lastWrite <= lastWrite' && Dominates(maxSequence', maxSequence)
    ensures Chain(prefix + [w]) && AllBounded(prefix + [w], lastWrite', maxSequence')
  {
    ChainPrefix(prefix, open);
    Snoc(prefix, w);
    Slice(prefix + open, 0, |prefix|, lastWrite, maxSequence);
    assert (prefix + open)[0..|prefix|] == prefix;
    BoundedWeaken(prefix, lastWrite, maxSequence, lastWrite', maxSequence');
    forall i | 0 <= i < |prefix| + 1
      ensures Bounded((prefix + [w])[i], lastWrite', maxSequence')
    {
      if i < |prefix| {
        assert (prefix + [w])[i] == prefix[i];
      }
    }
  }

  /** Replacing the last window adds the rows the new one holds beyond it. */
  lemma ReplaceOpenRows(prefix: seq<Window>, open: Option<Window>, w: Window, rowCount: nat)
    requires w.rowCount == (if open.Some? then open.value.rowCount else 0) + rowCount
    ensures TotalRows(prefix + [w]) == TotalRows(prefix + AsSeq(open)) + rowCount
  {
    TotalRowsConcat(prefix, [w]);
    TotalRowsConcat(prefix, AsSeq(open));
    assert [w][1..] == [];
    assert AsSeq(open) != [] ==> AsSeq(open)[1..] == [];
  }

  /** The window holding a new write is well formed and within the bounds
      the write sets. */
  lemma NewOpenWithin(pw: PersistenceWindows, sequence: Option<Sequence>, rowCount: NonZero, minTime: Time, maxTime: Time, timeOfWrite: Time)
    requires Valid(pw) && !Stale(pw.maxSequenceNumbers, sequence) && pw.timeOfLastWrite <= timeOfWrite
    requires minTime <= maxTime
    ensures Accepts(pw.open, sequence, timeOfWrite)
    ensures var w := OpenWith(pw.open, sequence, rowCount, minTime, maxTime, timeOfWrite);
      && WellFormed(w)
      && Bounded(w, timeOfWrite, Record(pw.maxSequenceNumbers, sequence))
      && w.rowCount == (if pw.open.Some? then pw.open.value.rowCount else 0) + rowCount
  {
    OpenAccepts(pw, sequence, timeOfWrite);
    if pw.open.Some? {
      var ws := WindowsOf(pw);
      assert ws[|ws| - 1] == pw.open.value;
      assert WellFormed(pw.open.value);
      assert Bounded(pw.open.value, pw.timeOfLastWrite, pw.maxSequenceNumbers);
    }
  }

  /** Recording a new write in the open window of a rotated valid state
      keeps the state valid and adds the write's rows. */
  lemma RecordKeepsValid(pw: PersistenceWindows, sequence: Option<Sequence>, rowCount: NonZero, minTime: Time, maxTime: Time, timeOfWrite: Time)
    requires Valid(pw) && !Stale(pw.maxSequenceNumbers, sequence) && pw.timeOfLastWrite <= timeOfWrite
    requires minTime <= maxTime
    ensures Accepts(pw.open, sequence, timeOfWrite)
    ensures var r := pw.(timeOfLastWrite := timeOfWrite,
                         maxSequenceNumbers := Record(pw.maxSequenceNumbers, sequence),
                         open := Some(OpenWith(pw.open, sequence, rowCount, minTime, maxTime, timeOfWrite)));
      Valid(r) && TotalRows(WindowsOf(r)) == TotalRows(WindowsOf(pw)) + rowCount
  {
    NewOpenWithin(pw, sequence, rowCount, minTime, maxTime, timeOfWrite);
    var w' := OpenWith(pw.open, sequence, rowCount, minTime, maxTime, timeOfWrite);
    var numbers := Record(pw.maxSequenceNumbers, sequence);
    var prefix := AsSeq(pw.persistable) + pw.closed;
    assert WindowsOf(pw) == prefix + AsSeq(pw.open);
    forall i | 0 <= i < |prefix|
      ensures Before(prefix[i], w')
    {
      BeforeNewOpen(pw, sequence, rowCount, minTime, maxTime, timeOfWrite, i);
    }
    assert Dominates(numbers, pw.maxSequenceNumbers);
    ReplaceOpen(prefix, AsSeq(pw.open), w', pw.timeOfLastWrite, pw.maxSequenceNumbers, timeOfWrite, numbers);
    ReplaceOpenRows(prefix, pw.open, w', rowCount);
    var r := pw.(timeOfLastWrite := timeOfWrite, maxSequenceNumbers := numbers, open := Some(w'));
    assert WindowsOf(r) == prefix + [w'];
  }

  /** `PersistenceWindows::add_range`, with the clock reading `now`: the
      write is made at the later of `now` and the last write, the windows
      are rotated, and the write joins the open window or opens one. A
      write whose row range is reversed, or whose sequence number is not
      above the recorded maximum of its sequencer, is refused, in that
      order. */
  function AddRange(pw: PersistenceWindows, now: Time, sequence: Option<Sequence>, rowCount: NonZero, minTime: Time, maxTime: Time): (r: Result<PersistenceWindows, AddRangeError>)
    requires Valid(pw)
    ensures r.Err? <==> minTime > maxTime || Stale(pw.maxSequenceNumbers, sequence)
    ensures minTime > maxTime ==> r == Err(MinTimeAfterMaxTime)
    ensures r.Ok? ==> Valid(r.value)
    ensures r.Ok? ==> r.value.timeOfLastWrite >= pw.timeOfLastWrite && r.value.timeOfLastWrite >= now
    ensures r.Ok? ==> r.value.timeOfLastWrite == pw.timeOfLastWrite || r.value.timeOfLastWrite == now
    ensures r.Ok? && sequence.None? ==> r.value.maxSequenceNumbers == pw.maxSequenceNumbers
    ensures r.Ok? && sequence.Some? ==>
      r.value.maxSequenceNumbers == pw.maxSequenceNumbers[sequence.value.id := sequence.value.number]
    ensures r.Ok? ==> TotalRows(WindowsOf(r.value)) == TotalRows(WindowsOf(pw)) + rowCount
    ensures r.Ok? ==> r.value.open.Some?
    ensures r.Ok? ==> var w := r.value.open.value;
      && w.timeOfLastWrite == r.value.timeOfLastWrite
      && w.minTime <= minTime && maxTime <= w.maxTime
      && (sequence.Some? ==> sequence.value.id in w.sequencerNumbers && w.sequencerNumbers[sequence.value.id].max == sequence.value.number)
    ensures r.Ok? ==> r.value.frozen == pw.frozen && r.value.lateArrivalPeriod == pw.lateArrivalPeriod
    ensures r.Ok? && pw.frozen ==>
      r.value.persistable == pw.persistable && |r.value.closed| >= |pw.closed| && r.value.closed[..|pw.closed|] == pw.closed
  {
    if minTime > maxTime then Err(MinTimeAfterMaxTime)
    else if Stale(pw.maxSequenceNumbers, sequence) then Err(SequenceNotIncreasing)
    else
      var timeOfWrite: Time := Max(pw.timeOfLastWrite, now);
      // The source records the sequence number before rotating; rotation
      // reads neither the recorded maxima nor the last write time, so
      // rotating first gives the same state.
      var rotated := RotateImpl(pw, now);
      RecordKeepsValid(rotated, sequence, rowCount, minTime, maxTime, timeOfWrite);
      Ok(rotated.(timeOfLastWrite := timeOfWrite,
                  maxSequenceNumbers := Record(pw.maxSequenceNumbers, sequence),
                  open := Some(OpenWith(rotated.open, sequence, rowCount, minTime, maxTime, timeOfWrite))))
  }

  /** The windows `sequencer_numbers_inner` searches: all of them, or, when
      asked to skip a persistable window that exists, the ones after it. */
  function Searched(pw: PersistenceWindows, skipPersistable: bool): seq<Window>
  {
    if skipPersistable && pw.persistable.Some? then WindowsOf(pw)[1..] else WindowsOf(pw)
  }

  /** The flush time below which the search ignores windows: the
      persistable window's newest row, when that window is skipped. */
  function SearchFlushTime(pw: PersistenceWindows, skipPersistable: bool): Option<Time>
  {
    if skipPersistable && pw.persistable.Some? then Some(pw.persistable.value.maxTime) else None
  }

  /** `sequencer_numbers_inner`: for every sequencer with a recorded
      maximum, the minimum of the first searched window that holds it, and
      the recorded maximum. The source's early return for an empty state
      has no effect (its value is discarded), so an empty state still
      reports every sequencer, with no minimum. */
  function SequencerNumbersInner(pw: PersistenceWindows, skipPersistable: bool): (r: map<nat, OptionalMinMax>)
    ensures r.Keys == pw.maxSequenceNumbers.Keys
    ensures forall id :: id in r ==> r[id].max == pw.maxSequenceNumbers[id]
  {
    var ws := Searched(pw, skipPersistable);
    var flushTime := SearchFlushTime(pw, skipPersistable);
    map id | id in pw.maxSequenceNumbers :: OptionalMinMax(FirstMin(ws, id, flushTime), pw.maxSequenceNumbers[id])
  }

  /** `sequencer_numbers`. */
  function SequencerNumbers(pw: PersistenceWindows): map<nat, OptionalMinMax>
  {
    SequencerNumbersInner(pw, false)
  }

  /** A flush handle fits a state: the state is frozen on it, its persistable
      window's newest row is the handle's timestamp, and none of the closed
      windows it counted has gone. */
  predicate HandleMatches(pw: PersistenceWindows, handle: FlushHandle)
  {
    && pw.frozen
    && pw.persistable.Some?
    && pw.persistable.value.maxTime == handle.timestamp
    && handle.closedCount <= |pw.closed|
  }

  /** `flush_handle_impl`: `None`, with nothing changed, while a handle is
      outstanding. Otherwise the open window is closed and the windows are
      rotated; when a persistable window results, the state is frozen and
      the handle records the closed count, the persistable window's newest
      row and the sequence ranges that stay unpersisted. When none results
      the freeze is released again, but the closing and rotation remain. */
  function FlushHandleImpl(pw: PersistenceWindows, now: Time): (r: (PersistenceWindows, Option<FlushHandle>))
    requires Valid(pw)
    ensures Valid(r.0)
    ensures pw.frozen ==> r == (pw, None)
    ensures !pw.frozen ==> r.0.open.None? && TotalRows(WindowsOf(r.0)) == TotalRows(WindowsOf(pw))
    ensures !pw.frozen ==> (r.1.Some? <==> r.0.persistable.Some?) && r.0.frozen == r.1.Some?
    ensures r.1.Some? ==> HandleMatches(r.0, r.1.value) && r.1.value.closedCount == |r.0.closed|
    ensures r.1.Some? ==> r.1.value.sequencerNumbers == SequencerNumbersInner(r.0, true)
    ensures r.0 == pw.(persistable := r.0.persistable, frozen := r.0.frozen, closed := r.0.closed, open := r.0.open)
    ensures !pw.frozen ==> r.0 == RotateImpl(MoveOpen(pw), now).(frozen := r.1.Some?)
  {
    if pw.frozen then (pw, None)
    else
      var rotated := RotateImpl(MoveOpen(pw), now);
      match rotated.persistable
      case None => (rotated, None)
      case Some(p) =>
        var frozen := rotated.(frozen := true);
        (frozen, Some(FlushHandle(|rotated.closed|, p.maxTime, SequencerNumbersInner(frozen, true))))
  }

  /** The closed windows after a flush, as corrected: with `newMin` one
      nanosecond past the flushed timestamp, the windows the handle counted
      lose their flushed rows (and are dropped when nothing newer is left);
      the windows closed since are kept. When the timestamp is `Time::MAX`
      every counted window is flushed entirely, and only the later ones
      are kept. */
  function FlushedClosed(closed: seq<Window>, closedCount: nat, timestamp: Time): seq<Window>
    requires closedCount <= |closed|
  {
    match CheckedAdd(timestamp, 1)
    case Some(newMin) => Trim(closed[..closedCount], newMin) + closed[closedCount..]
    case None => closed[closedCount..]
  }

  /** Truncating the counted windows keeps the chain and its bounds, keeps
      the windows closed since at the end, leaves no counted window with a
      row before `newMin`, and drops rows at most. */
  lemma TrimCounted(counted: seq<Window>, later: seq<Window>, newMin: Time, lastWrite: int, maxSequence: map<nat, nat>)
    requires Chain(counted + later) && AllBounded(counted + later, lastWrite, maxSequence)
    ensures var t := Trim(counted, newMin);
      && Chain(t + later) && AllBounded(t + later, lastWrite, maxSequence)
      && (forall i :: 0 <= i < |t| ==> t[i].minTime >= newMin)
      && TotalRows(t + later) <= TotalRows(counted + later)
  {
    var all := counted + later;
    var t := Trim(counted, newMin);
    assert Chain(t + later) by {
      TrimChain(counted, later, newMin);
    }
    assert AllBounded(t + later, lastWrite, maxSequence) by {
      Slice(all, |counted|, |all|, lastWrite, maxSequence);
      Slice(all, 0, |counted|, lastWrite, maxSequence);
      assert all[|counted|..] == later && all[0..|counted|] == counted;
      TrimBounded(counted, newMin, lastWrite, maxSequence);
      BoundedConcat(t, later, lastWrite, maxSequence);
    }
    TrimRaises(counted, newMin);
    TrimRows(counted, newMin);
    TotalRowsConcat(t, later);
    TotalRowsConcat(counted, later);
  }

  /** What a flush leaves of the closed windows: a chain within the same
      bounds, the windows closed after the handle unchanged at the end,
      no counted window with a row at or before the timestamp, and no more
      rows than before. */
  lemma FlushedClosedEffect(closed: seq<Window>, closedCount: nat, timestamp: Time, open: seq<Window>, lastWrite: int, maxSequence: map<nat, nat>)
    requires closedCount <= |closed|
    requires Chain(closed + open) && AllBounded(closed + open, lastWrite, maxSequence)
    ensures var r := FlushedClosed(closed, closedCount, timestamp);
      && Chain(r + open) && AllBounded(r + open, lastWrite, maxSequence)
      && |r| >= |closed| - closedCount && r[|r| - (|closed| - closedCount)..] == closed[closedCount..]
      && (forall i :: 0 <= i < |r| - (|closed| - closedCount) ==> r[i].minTime > timestamp)
      && TotalRows(r + open) <= TotalRows(closed + open)
  {
    var counted := closed[..closedCount];
    var later := closed[closedCount..] + open;
    assert closed + open == counted + later;
    var r := FlushedClosed(closed, closedCount, timestamp);
    match CheckedAdd(timestamp, 1)
    case Some(newMin) =>
      TrimCounted(counted, later, newMin, lastWrite, maxSequence);
      var t := Trim(counted, newMin);
      assert r + open == t + later;
      assert r[|t|..] == closed[closedCount..];
      assert forall i :: 0 <= i < |t| ==> r[i] == t[i];
    case None =>
      var all := closed + open;
      Slice(all, closedCount, |all|, lastWrite, maxSequence);
      assert all[closedCount..] == later;
      TotalRowsConcat(counted, later);
      assert r + open == later;
  }

  /** Which counted windows a flush keeps: each one with a row after the
      timestamp survives with its oldest row raised past the timestamp,
      and nothing else is left in front of the windows closed since. */
  lemma FlushedCounted(closed: seq<Window>, closedCount: nat, timestamp: Time)
    requires closedCount <= |closed|
    ensures var r := FlushedClosed(closed, closedCount, timestamp);
      var kept := |closed| - closedCount;
      && |r| >= kept
      && (timestamp < TIME_MAX ==> KeepsLive(closed[..closedCount], r[..|r| - kept], timestamp + 1))
      && (timestamp == TIME_MAX ==> |r| == kept)
  {
    var r := FlushedClosed(closed, closedCount, timestamp);
    var kept := |closed| - closedCount;
    if timestamp < TIME_MAX {
      var newMin := timestamp + 1;
      assert CheckedAdd(timestamp, 1) == Some(newMin);
      var t := Trim(closed[..closedCount], newMin);
      assert r == t + closed[closedCount..];
      assert r[..|r| - kept] == t;
      TrimMembers(closed[..closedCount], newMin);
    } else {
      assert CheckedAdd(timestamp, 1) == None;
    }
  }

  /** `flush`, as corrected (see `PersistenceFindings`): the persistable
      window is dropped and the freeze released, and the closed windows are
      flushed up to the handle's timestamp. The source asserts the handle
      fits the state. */
  function Flush(pw: PersistenceWindows, handle: FlushHandle): (r: PersistenceWindows)
    requires Valid(pw) && HandleMatches(pw, handle)
    ensures Valid(r)
    ensures r.persistable.None? && !r.frozen
    ensures r == pw.(persistable := None, frozen := false, closed := r.closed)
    ensures var kept := |pw.closed| - handle.closedCount;
      && |r.closed| >= kept && r.closed[|r.closed| - kept..] == pw.closed[handle.closedCount..]
      && (forall i :: 0 <= i < |r.closed| - kept ==> r.closed[i].minTime > handle.timestamp)
    ensures TotalRows(WindowsOf(r)) + pw.persistable.value.rowCount <= TotalRows(WindowsOf(pw))
  {
    var ws := WindowsOf(pw);
    assert ws == [pw.persistable.value] + (pw.closed + AsSeq(pw.open));
    assert ws[1..] == pw.closed + AsSeq(pw.open);
    Slice(ws, 1, |ws|, pw.timeOfLastWrite, pw.maxSequenceNumbers);
    FlushedClosedEffect(pw.closed, handle.closedCount, handle.timestamp, AsSeq(pw.open), pw.timeOfLastWrite, pw.maxSequenceNumbers);
    var closed := FlushedClosed(pw.closed, handle.closedCount, handle.timestamp);
    var r := pw.(persistable := None, frozen := false, closed := closed);
    assert WindowsOf(r) == closed + AsSeq(pw.open);
    r
  }

  /** Which counted windows a flush keeps, in front of those closed since
      the handle: exactly the ones with a row after the timestamp, each
      with its oldest row raised past it; none when the timestamp is
      `Time::MAX`. */
  lemma FlushKeeps(pw: PersistenceWindows, handle: FlushHandle)
    requires Valid(pw) && HandleMatches(pw, handle)
    ensures var r := Flush(pw, handle); var kept := |pw.closed| - handle.closedCount;
      && |r.closed| >= kept
      && (handle.timestamp < TIME_MAX ==>
            KeepsLive(pw.closed[..handle.closedCount], r.closed[..|r.closed| - kept], handle.timestamp + 1))
      && (handle.timestamp == TIME_MAX ==> r.closed == pw.closed[handle.closedCount..])
  {
    FlushedCounted(pw.closed, handle.closedCount, handle.timestamp);
    assert Flush(pw, handle).closed == FlushedClosed(pw.closed, handle.closedCount, handle.timestamp);
  }

  /** A `WriteSummary` of `summaries`. */
  datatype WriteSummary = WriteSummary(timeOfFirstWrite: Time, timeOfLastWrite: Time, minTimestamp: Time, maxTimestamp: Time, rowCount: nat)

  function Summary(w: Window): WriteSummary
  {
    WriteSummary(w.timeOfFirstWrite, w.timeOfLastWrite, w.minTime, w.maxTime, w.rowCount)
  }

  /** `summaries`: one summary per window, oldest first. */
  function Summaries(pw: PersistenceWindows): (r: seq<WriteSummary>)
    ensures |r| == |WindowsOf(pw)|
    ensures forall i :: 0 <= i < |r| ==> r[i] == Summary(WindowsOf(pw)[i])
  {
    var ws := WindowsOf(pw);
    seq(|ws|, i requires 0 <= i < |ws| => Summary(ws[i]))
  }

  /** `minimum_window`: the oldest window. */
  function MinimumWindow(pw: PersistenceWindows): Option<Window>
  {
    var ws := WindowsOf(pw);
    if |ws| == 0 then None else Some(ws[0])
  }

  /** `is_empty`. */
  function IsEmpty(pw: PersistenceWindows): (r: bool)
    ensures r <==> pw.persistable.None? && pw.closed == [] && pw.open.None?
  {
    MinimumWindow(pw).None?
  }

  /** `minimum_unpersisted_sequence`: the sequencer ranges of the oldest
      window. */
  function MinimumUnpersistedSequence(pw: PersistenceWindows): Option<map<nat, MinMax>>
  {
    match MinimumWindow(pw)
    case None => None
    case Some(w) => Some(w.sequencerNumbers)
  }

  /** `minimum_unpersisted_age`: when the oldest window was first written. */
  function MinimumUnpersistedAge(pw: PersistenceWindows): Option<Time>
  {
    match MinimumWindow(pw)
    case None => None
    case Some(w) => Some(w.timeOfFirstWrite)
  }

  /** The least oldest row of some windows. */
  function LeastMinTime(ws: seq<Window>): Time
    requires |ws| > 0
  {
    if |ws| == 1 then ws[0].minTime else Min(ws[0].minTime, LeastMinTime(ws[1..]))
  }

  /** The greatest newest row of some windows. */
  function GreatestMaxTime(ws: seq<Window>): Time
    requires |ws| > 0
  {
    if |ws| == 1 then ws[0].maxTime else Max(ws[0].maxTime, GreatestMaxTime(ws[1..]))
  }

  /** `minimum_unpersisted_timestamp`. */
  function MinimumUnpersistedTimestamp(pw: PersistenceWindows): Option<Time>
  {
    var ws := WindowsOf(pw);
    if |ws| == 0 then None else Some(LeastMinTime(ws))
  }

  /** `maximum_unpersisted_timestamp`. */
  function MaximumUnpersistedTimestamp(pw: PersistenceWindows): Option<Time>
  {
    var ws := WindowsOf(pw);
    if |ws| == 0 then None else Some(GreatestMaxTime(ws))
  }

  /** `persistable_row_count`, with the clock reading `now`: the rows of the
      leading persistable windows. */
  function PersistableRowCount(pw: PersistenceWindows, now: Time): nat
  {
    LeadingPersistableRows(WindowsOf(pw), now, pw.lateArrivalPeriod)
  }
}
