/** One persistence window: the writes of a partition that arrived within a
    span of wall-clock time, summarised by their row count, their row
    timestamp range, and per sequencer the range of sequence numbers. */
module Windows {
  import opened Common
  import opened Clock

  /** `NonZeroUsize`. */
  type NonZero = n: nat | n > 0 witness 1

  /** The position of a write in a sequencer's log: `Sequence { id, number }`. */
  datatype Sequence = Sequence(id: nat, number: nat)

  /** `MinMaxSequence`: the first and last sequence number seen. */
  datatype MinMax = MinMax(min: nat, max: nat)

  datatype Window = Window(
    timeOfFirstWrite: Time,
    timeOfLastWrite: Time,
    rowCount: NonZero,
    minTime: Time,
    maxTime: Time,
    sequencerNumbers: map<nat, MinMax>)

  /** The ranges a window records are ranges: its row timestamps, its
      write times and each sequencer's numbers run from low to high. */
  predicate WellFormed(w: Window)
  {
    && w.minTime <= w.maxTime
    && w.timeOfFirstWrite <= w.timeOfLastWrite
    && forall id :: id in w.sequencerNumbers ==> w.sequencerNumbers[id].min <= w.sequencerNumbers[id].max
  }

  /** The sequencer map of a window holding a single write. */
  function Single(sequence: Option<Sequence>): (r: map<nat, MinMax>)
    ensures sequence.None? ==> r == map[]
    ensures sequence.Some? ==>
      r.Keys == {sequence.value.id} && r[sequence.value.id] == MinMax(sequence.value.number, sequence.value.number)
  {
    match sequence
    case None => map[]
    case Some(s) => map[s.id := MinMax(s.number, s.number)]
  }

  /** `Window::new`: a window holding one write, made at `timeOfWrite`. */
  function New(timeOfWrite: Time, sequence: Option<Sequence>, rowCount: NonZero, minTime: Time, maxTime: Time): (w: Window)
    ensures w.timeOfFirstWrite == timeOfWrite && w.timeOfLastWrite == timeOfWrite
    ensures w.rowCount == rowCount && w.minTime == minTime && w.maxTime == maxTime
    ensures w.sequencerNumbers == Single(sequence)
    ensures WellFormed(w) <==> minTime <= maxTime
  {
    Window(timeOfWrite, timeOfWrite, rowCount, minTime, maxTime, Single(sequence))
  }

  /** The sequencer ranges of two windows combined: a sequencer in both
      keeps the first window's minimum and takes the second's maximum. */
  function MergeSequencers(m: map<nat, MinMax>, n: map<nat, MinMax>): (r: map<nat, MinMax>)
    ensures r.Keys == m.Keys + n.Keys
    ensures forall id :: id in r ==>
      && r[id].min == (if id in m then m[id].min else n[id].min)
      && r[id].max == (if id in n then n[id].max else m[id].max)
  {
    map id | id in m.Keys + n.Keys ::
      if id in m && id in n then MinMax(m[id].min, n[id].max)
      else if id in m then m[id]
      else n[id]
  }

  /** `Window::add_window`: `other`, which was written after `w`, folded
      into `w`. The source asserts that `other` comes later in wall-clock
      time and that its sequence numbers exceed `w`'s. */
  function AddWindow(w: Window, other: Window): (r: Window)
    requires w.timeOfLastWrite <= other.timeOfFirstWrite
    requires w.timeOfLastWrite <= other.timeOfLastWrite
    requires forall id :: id in w.sequencerNumbers && id in other.sequencerNumbers ==>
      other.sequencerNumbers[id].max > w.sequencerNumbers[id].max
    ensures r.timeOfFirstWrite == w.timeOfFirstWrite && r.timeOfLastWrite == other.timeOfLastWrite
    ensures r.rowCount == w.rowCount + other.rowCount
    ensures r.minTime <= w.minTime && r.minTime <= other.minTime
    ensures r.maxTime >= w.maxTime && r.maxTime >= other.maxTime
    ensures r.minTime == w.minTime || r.minTime == other.minTime
    ensures r.maxTime == w.maxTime || r.maxTime == other.maxTime
    ensures r.sequencerNumbers.Keys == w.sequencerNumbers.Keys + other.sequencerNumbers.Keys
    ensures forall id :: id in r.sequencerNumbers ==>
      && r.sequencerNumbers[id].min ==
           (if id in w.sequencerNumbers then w.sequencerNumbers[id].min else other.sequencerNumbers[id].min)
      && r.sequencerNumbers[id].max ==
           (if id in other.sequencerNumbers then other.sequencerNumbers[id].max else w.sequencerNumbers[id].max)
  {
    w.(timeOfLastWrite := other.timeOfLastWrite,
       rowCount := w.rowCount + other.rowCount,
       minTime := Min(w.minTime, other.minTime),
       maxTime := Max(w.maxTime, other.maxTime),
       sequencerNumbers := MergeSequencers(w.sequencerNumbers, other.sequencerNumbers))
  }

  /** `Window::add_range`: one more write, made at `timeOfWrite`, recorded
      in `w`. The source asserts that the write is not earlier than the
      window's writes and that its sequence number exceeds the window's
      maximum for its sequencer. */
  function AddRange(w: Window, sequence: Option<Sequence>, rowCount: NonZero, minTime: Time, maxTime: Time, timeOfWrite: Time): (r: Window)
    requires w.timeOfFirstWrite <= timeOfWrite && w.timeOfLastWrite <= timeOfWrite
    requires sequence.Some? && sequence.value.id in w.sequencerNumbers ==>
      sequence.value.number > w.sequencerNumbers[sequence.value.id].max
    ensures r.timeOfFirstWrite == w.timeOfFirstWrite && r.timeOfLastWrite == timeOfWrite
    ensures r.rowCount == w.rowCount + rowCount
    ensures r.minTime <= w.minTime && r.minTime <= minTime && (r.minTime == w.minTime || r.minTime == minTime)
    ensures r.maxTime >= w.maxTime && r.maxTime >= maxTime && (r.maxTime == w.maxTime || r.maxTime == maxTime)
    ensures sequence.None? ==> r.sequencerNumbers == w.sequencerNumbers
    ensures sequence.Some? ==> var s := sequence.value;
      && r.sequencerNumbers.Keys == w.sequencerNumbers.Keys + {s.id}
      && r.sequencerNumbers[s.id].max == s.number
      && r.sequencerNumbers[s.id].min == (if s.id in w.sequencerNumbers then w.sequencerNumbers[s.id].min else s.number)
      && forall id :: id in w.sequencerNumbers && id != s.id ==> r.sequencerNumbers[id] == w.sequencerNumbers[id]
  {
    var numbers :=
      match sequence
      case None => w.sequencerNumbers
      case Some(s) =>
        if s.id in w.sequencerNumbers then w.sequencerNumbers[s.id := MinMax(w.sequencerNumbers[s.id].min, s.number)]
        else w.sequencerNumbers[s.id := MinMax(s.number, s.number)];
    w.(timeOfLastWrite := timeOfWrite,
       rowCount := w.rowCount + rowCount,
       minTime := Min(w.minTime, minTime),
       maxTime := Max(w.maxTime, maxTime),
       sequencerNumbers := numbers)
  }

  /** Recording a write in a window has the effect of folding in a window
      holding only that write. */
  lemma AddRangeIsAddWindow(w: Window, sequence: Option<Sequence>, rowCount: NonZero, minTime: Time, maxTime: Time, timeOfWrite: Time)
    requires w.timeOfFirstWrite <= timeOfWrite && w.timeOfLastWrite <= timeOfWrite
    requires sequence.Some? && sequence.value.id in w.sequencerNumbers ==>
      sequence.value.number > w.sequencerNumbers[sequence.value.id].max
    ensures AddRange(w, sequence, rowCount, minTime, maxTime, timeOfWrite)
         == AddWindow(w, New(timeOfWrite, sequence, rowCount, minTime, maxTime))
  {
    var single := New(timeOfWrite, sequence, rowCount, minTime, maxTime);
    var a := AddRange(w, sequence, rowCount, minTime, maxTime, timeOfWrite).sequencerNumbers;
    var b := MergeSequencers(w.sequencerNumbers, single.sequencerNumbers);
    assert a == b by {
      forall id | id in a
        ensures a[id] == b[id]
      {
      }
    }
  }

  /** Folding a later window into a well-formed window leaves it
      well-formed. */
  lemma AddWindowWellFormed(w: Window, other: Window)
    requires WellFormed(w) && WellFormed(other) && Before(w, other)
    ensures WellFormed(AddWindow(w, other))
  {
    var r := AddWindow(w, other);
    forall id | id in r.sequencerNumbers
      ensures r.sequencerNumbers[id].min <= r.sequencerNumbers[id].max
    {
      if id in w.sequencerNumbers && id in other.sequencerNumbers {
        assert w.sequencerNumbers[id].max < other.sequencerNumbers[id].min;
      }
    }
  }

  /** `Window::is_closeable`: at least `closedWindowPeriod` has passed since
      the window's first write; never when `now` precedes that write. */
  predicate IsCloseable(w: Window, now: Time, closedWindowPeriod: Duration)
  {
    match CheckedDurationSince(now, w.timeOfFirstWrite)
    case None => false
    case Some(age) => age >= closedWindowPeriod
  }

  /** `Window::is_persistable`: at least `lateArrivalPeriod` has passed
      since the window's first write. */
  predicate IsPersistable(w: Window, now: Time, lateArrivalPeriod: Duration)
  {
    match CheckedDurationSince(now, w.timeOfFirstWrite)
    case None => false
    case Some(age) => age >= lateArrivalPeriod
  }

  /** Age decides both tests: a window is persistable exactly when `now`
      is at least `lateArrivalPeriod` after its first write, so a window
      that was first written no later than a persistable one is
      persistable, and a persistable window is closeable for any shorter
      closing period. */
  lemma PersistableByAge(a: Window, b: Window, now: Time, lateArrivalPeriod: Duration, closedWindowPeriod: Duration)
    ensures IsPersistable(a, now, lateArrivalPeriod) <==> now - a.timeOfFirstWrite >= lateArrivalPeriod
    ensures a.timeOfFirstWrite <= b.timeOfFirstWrite && IsPersistable(b, now, lateArrivalPeriod) ==>
      IsPersistable(a, now, lateArrivalPeriod)
    ensures closedWindowPeriod <= lateArrivalPeriod && IsPersistable(a, now, lateArrivalPeriod) ==>
      IsCloseable(a, now, closedWindowPeriod)
  {
  }

  /** `a` was written entirely before `b`: its last write is no later than
      `b`'s first, and for every sequencer both saw, `a`'s numbers are
      below `b`'s. */
  predicate Before(a: Window, b: Window)
  {
    && a.timeOfLastWrite <= b.timeOfFirstWrite
    && forall id :: id in a.sequencerNumbers && id in b.sequencerNumbers ==>
         a.sequencerNumbers[id].max < b.sequencerNumbers[id].min
  }

  /** A window written before two others is written before the one folded
      from them, and the folded window is written before any window that
      both parts precede. */
  lemma AddWindowOrder(w: Window, other: Window, c: Window)
    requires WellFormed(other) && Before(w, other)
    ensures Before(c, w) && Before(c, other) ==> Before(c, AddWindow(w, other))
    ensures Before(w, c) && Before(other, c) ==> Before(AddWindow(w, other), c)
  {
  }
}
