/** The device path of src/Helpers/DmaFramePool.cpp as a system of steps: every queue operation and every atomic
    counter operation is one step, and any thread may take the next. */
module FramePool {

  type Frame = nat

  datatype Option<T> = None | Some(value: T)

  /** Where one owner, a thread with its handle, is in acquire, release or resetStats. */
  datatype Owner =
    | Idle                                               // an empty handle
    | Taken(f: Frame)                                    // received from the queue, not yet counted
    | Noting(held: Option<Frame>, n: nat)                // noteInUse(n), about to load the mark
    | Raising(held: Option<Frame>, n: nat, cur: nat)     // in its compare-exchange loop
    | Holding(f: Frame)                                  // a handle lent out
    | Leaving(f: Frame)                                  // subtracted, about to be sent back
    | Resetting(v: nat)                                  // resetStats, about to store the mark

  /** size is kPoolSize; peak is history: the most that inUse has been. */
  datatype Pool = Pool(size: nat, queue: seq<Frame>, inUse: nat, maxInUse: nat, owners: seq<Owner>, peak: nat)

  datatype Step =
    | Receive | Starve | Count | LoadMark | Raise(spurious: bool) | Uncount | Send | ResetLoad | ResetStore
    | Move(to: nat)

  /** The frame an owner has. */
  function FrameOf(o: Owner): Option<Frame> {
    match o
    case Idle => None
    case Taken(f) => Some(f)
    case Noting(held, _) => held
    case Raising(held, _, _) => held
    case Holding(f) => Some(f)
    case Leaving(f) => Some(f)
    case Resetting(_) => None
  }

  /** Whether the owner's frame is counted in use. */
  predicate Counted(o: Owner) {
    match o
    case Noting(held, _) => held.Some?
    case Raising(held, _, _) => held.Some?
    case Holding(_) => true
    case _ => false
  }

  /** After noteInUse: the handle is returned, or the starved caller gets an empty one. */
  function Returned(held: Option<Frame>): Owner {
    match held case None => Idle case Some(f) => Holding(f)
  }

  function Max(a: nat, b: nat): nat { if a < b then b else a }

  /** Whether owner i may take the step. */
  predicate Enabled(p: Pool, i: nat, s: Step) {
    i < |p.owners| &&
    match s
    case Receive => p.owners[i] == Idle && p.queue != []
    case Starve => p.owners[i] == Idle && p.queue == []
    case Count => p.owners[i].Taken?
    case LoadMark => p.owners[i].Noting?
    case Raise(_) => p.owners[i].Raising?
    case Uncount => p.owners[i].Holding?
    case Send => p.owners[i].Leaving?
    case ResetLoad => p.owners[i] == Idle
    case ResetStore => p.owners[i].Resetting?
    case Move(to) => p.owners[i].Holding? && to < |p.owners| && p.owners[to] == Idle
  }

  function With(p: Pool, i: nat, o: Owner): Pool
    requires i < |p.owners|
  {
    p.(owners := p.owners[i := o])
  }

  function Next(p: Pool, i: nat, s: Step): Pool
    requires Enabled(p, i, s)
  {
    var o := p.owners[i];
    match s
    case Receive => With(p, i, Taken(p.queue[0])).(queue := p.queue[1..])
    case Starve => With(p, i, Noting(None, p.size))
    case Count => With(p, i, Noting(Some(o.f), p.inUse + 1)).(inUse := p.inUse + 1, peak := Max(p.peak, p.inUse + 1))
    case LoadMark => With(p, i, Raising(o.held, o.n, p.maxInUse))
    case Raise(spurious) =>
      if o.n <= o.cur then With(p, i, Returned(o.held))
      else if o.cur == p.maxInUse && !spurious then With(p, i, Returned(o.held)).(maxInUse := o.n)
      else With(p, i, Raising(o.held, o.n, p.maxInUse))
    case Uncount => With(p, i, Leaving(o.f)).(inUse := if p.inUse > 0 then p.inUse - 1 else 0xFFFF_FFFF)
    case Send => With(p, i, Idle).(queue := if |p.queue| < p.size then p.queue + [o.f] else p.queue)
    case ResetLoad => With(p, i, Resetting(p.inUse))
    case ResetStore => With(p, i, Idle).(maxInUse := o.v)
    case Move(to) => With(With(p, i, Idle), to, o)
  }

  // ---------------------------------------------------------------- bookkeeping

  function Has(o: Owner, f: Frame): nat { if FrameOf(o) == Some(f) then 1 else 0 }

  function Lends(o: Owner): nat { if FrameOf(o).Some? then 1 else 0 }

  function Counts(o: Owner): nat { if Counted(o) then 1 else 0 }

  /** How many owners have the frame. */
  function HeldBy(owners: seq<Owner>, f: Frame): nat {
    if owners == [] then 0 else HeldBy(owners[..|owners| - 1], f) + Has(owners[|owners| - 1], f)
  }

  /** How many frames are lent. */
  function Lent(owners: seq<Owner>): nat {
    if owners == [] then 0 else Lent(owners[..|owners| - 1]) + Lends(owners[|owners| - 1])
  }

  /** How many of them are counted in use. */
  function CountedIn(owners: seq<Owner>): nat {
    if owners == [] then 0 else CountedIn(owners[..|owners| - 1]) + Counts(owners[|owners| - 1])
  }

  /** How often the queue has the frame. */
  function Queued(queue: seq<Frame>, f: Frame): nat {
    if queue == [] then 0 else Queued(queue[..|queue| - 1], f) + (if queue[|queue| - 1] == f then 1 else 0)
  }

  lemma {:induction false} Update(owners: seq<Owner>, i: nat, o: Owner, f: Frame)
    requires i < |owners|
    ensures HeldBy(owners[i := o], f) + Has(owners[i], f) == HeldBy(owners, f) + Has(o, f)
    ensures Lent(owners[i := o]) + Lends(owners[i]) == Lent(owners) + Lends(o)
    ensures CountedIn(owners[i := o]) + Counts(owners[i]) == CountedIn(owners) + Counts(o)
  {
    hide Has, Lends, Counts;
    var k := |owners| - 1;
    if i < k {
      assert owners[i := o][..k] == owners[..k][i := o];
      Update(owners[..k], i, o, f);
    } else {
      assert owners[i := o][..k] == owners[..k];
    }
  }

  lemma {:induction false} SomeoneHas(owners: seq<Owner>, i: nat, f: Frame)
    requires i < |owners|
    ensures HeldBy(owners, f) >= Has(owners[i], f) && Lent(owners) >= Lends(owners[i])
    ensures CountedIn(owners) >= Counts(owners[i])
  {
    hide Has, Lends, Counts;
    var k := |owners| - 1;
    if i < k {
      SomeoneHas(owners[..k], i, f);
    }
  }

  /** Counted frames are lent ones. */
  lemma {:induction false} CountedAreLent(owners: seq<Owner>)
    ensures CountedIn(owners) <= Lent(owners)
  {
    if owners != [] {
      CountedAreLent(owners[..|owners| - 1]);
    }
  }

  lemma {:induction false} QueueHead(queue: seq<Frame>, f: Frame)
    requires queue != []
    ensures Queued(queue, f) == Queued(queue[1..], f) + (if queue[0] == f then 1 else 0)
  {
    var k := |queue| - 1;
    if k > 0 {
      QueueHead(queue[..k], f);
      assert queue[..k][1..] == queue[1..][..k - 1] && queue[1..][k - 1] == queue[k];
    }
  }

  lemma QueueTail(queue: seq<Frame>, f: Frame, g: Frame)
    ensures Queued(queue + [g], f) == Queued(queue, f) + (if g == f then 1 else 0)
  {
    assert (queue + [g])[..|queue|] == queue;
  }

  // ---------------------------------------------------------------- the invariant

  /** The frame is in one place: in the queue once, or with one owner. */
  predicate Once(p: Pool, f: Frame) {
    Queued(p.queue, f) + HeldBy(p.owners, f) == if f < p.size then 1 else 0
  }

  ghost predicate EachOnce(p: Pool) {
    forall f: Frame :: Once(p, f)
  }

  /** What noteInUse is told: a count that was reached, or the whole pool. */
  predicate NoteFits(p: Pool, o: Owner) {
    match o
    case Noting(_, n) => n == p.size || n <= p.peak
    case Raising(_, n, _) => n == p.size || n <= p.peak
    case Resetting(v) => v <= p.peak
    case _ => true
  }

  ghost predicate NotesFit(p: Pool) {
    && (forall i :: 0 <= i < |p.owners| ==> NoteFits(p, p.owners[i]))
    && (p.maxInUse == p.size || p.maxInUse <= p.peak)
  }

  ghost predicate Valid(p: Pool) {
    && EachOnce(p) && NotesFit(p)
    && |p.queue| + Lent(p.owners) == p.size
    && p.inUse == CountedIn(p.owners) <= p.peak <= p.size
  }

  /** The pool as poolInitInternal fills it: frames 0 to size - 1 queued, every owner idle. */
  lemma FullPoolIsValid(size: nat, owners: seq<Owner>)
    requires forall i :: 0 <= i < |owners| ==> owners[i] == Idle
    ensures Valid(Pool(size, seq(size, k => k), 0, 0, owners, 0))
  {
    AllIdle(owners, 0);
    forall f: Frame
      ensures Queued(seq(size, k => k), f) + HeldBy(owners, f) == if f < size then 1 else 0
    {
      AllIdle(owners, f);
      AllQueued(size, f);
    }
  }

  lemma {:induction false} AllQueued(size: nat, f: Frame)
    ensures Queued(seq(size, k => k), f) == if f < size then 1 else 0
  {
    if size > 0 {
      assert seq(size, k => k)[..size - 1] == seq(size - 1, k => k);
      AllQueued(size - 1, f);
    }
  }

  lemma {:induction false} AllIdle(owners: seq<Owner>, f: Frame)
    requires forall i :: 0 <= i < |owners| ==> owners[i] == Idle
    ensures Lent(owners) == 0 && CountedIn(owners) == 0 && HeldBy(owners, f) == 0
  {
    if owners != [] {
      AllIdle(owners[..|owners| - 1], f);
    }
  }

  /** A frame on its way back finds room in the queue. */
  lemma RoomForOne(p: Pool, i: nat)
    requires |p.queue| + Lent(p.owners) == p.size && i < |p.owners| && FrameOf(p.owners[i]).Some?
    ensures |p.queue| < p.size
  {
    hide Lent;
    SomeoneHas(p.owners, i, 0);
  }

  /** The balance of one frame, and of the numbers of frames, over one step of one owner. */
  lemma StepBalances(p: Pool, i: nat, s: Step, f: Frame)
    requires Valid(p) && Enabled(p, i, s) && !s.Move?
    ensures var q := Next(p, i, s);
            && Once(q, f) && |q.queue| + Lent(q.owners) == q.size
            && q.inUse == CountedIn(q.owners) && q.inUse <= q.peak
  {
    hide NotesFit, Lent, CountedIn, HeldBy, Queued;
    var o := p.owners[i];
    var q := Next(p, i, s);
    assert Once(p, f);
    SomeoneHas(p.owners, i, f);
    Update(p.owners, i, q.owners[i], f);
    if s == Receive {
      QueueHead(p.queue, f);
    } else if s == Send {
      RoomForOne(p, i);
      QueueTail(p.queue, f, o.f);
    }
  }

  lemma StepNotes(p: Pool, i: nat, s: Step)
    requires Valid(p) && Enabled(p, i, s)
    ensures NotesFit(Next(p, i, s)) && Next(p, i, s).peak >= p.peak
  {
    hide EachOnce, Lent, CountedIn;
    var q := Next(p, i, s);
    assert NoteFits(p, p.owners[i]);
    forall k | 0 <= k < |q.owners|
      ensures NoteFits(q, q.owners[k])
    {
      assert NoteFits(p, p.owners[k]);
    }
  }

  lemma MoveBalances(p: Pool, i: nat, to: nat, f: Frame)
    requires Valid(p) && Enabled(p, i, Move(to))
    ensures var q := Next(p, i, Move(to));
            && Once(q, f) && |q.queue| + Lent(q.owners) == q.size
            && q.inUse == CountedIn(q.owners) && q.inUse <= q.peak
  {
    hide NotesFit, Lent, CountedIn, HeldBy, Queued;
    assert Once(p, f);
    var mid := p.owners[i := Idle];
    Update(p.owners, i, Idle, f);
    Update(mid, to, p.owners[i], f);
  }

  /** Frame safety: every step, by any owner at any time, keeps each frame in exactly one place, the count of
      frames in use equal to the counted handles, and the queue with room for every frame on its way back. */
  lemma StepKeeps(p: Pool, i: nat, s: Step)
    requires Valid(p) && Enabled(p, i, s)
    ensures Valid(Next(p, i, s))
  {
    hide NotesFit, Lent, CountedIn, Once, Next, Enabled;
    var q := Next(p, i, s);
    forall f: Frame
      ensures Once(q, f) && |q.queue| + Lent(q.owners) == q.size && q.inUse == CountedIn(q.owners) && q.inUse <= q.peak
    {
      if s.Move? {
        MoveBalances(p, i, s.to, f);
      } else {
        StepBalances(p, i, s, f);
      }
    }
    assert Once(q, 0);
    StepNotes(p, i, s);
    CountedAreLent(q.owners);
    SizeKept(p, i, s);
    PeakFits(p, i, s);
  }

  lemma PeakFits(p: Pool, i: nat, s: Step)
    requires Valid(p) && Enabled(p, i, s)
    requires Next(p, i, s).inUse <= p.size
    ensures Next(p, i, s).peak <= p.size
  {
    hide EachOnce, Lent, CountedIn;
  }

  lemma SizeKept(p: Pool, i: nat, s: Step)
    requires Enabled(p, i, s)
    ensures Next(p, i, s).size == p.size
  {}

  // ---------------------------------------------------------------- runs

  /** The steps of a run, with who takes them. */
  ghost predicate Possible(p: Pool, run: seq<(nat, Step)>)
    decreases |run|
  {
    run == [] || (Enabled(p, run[0].0, run[0].1) && Possible(Next(p, run[0].0, run[0].1), run[1..]))
  }

  ghost function After(p: Pool, run: seq<(nat, Step)>): Pool
    requires Possible(p, run)
    decreases |run|
  {
    if run == [] then p else After(Next(p, run[0].0, run[0].1), run[1..])
  }

  lemma {:induction false} RunKeeps(p: Pool, run: seq<(nat, Step)>)
    requires Valid(p) && Possible(p, run)
    ensures Valid(After(p, run))
    decreases |run|
  {
    hide Valid, Enabled, Next;
    if run != [] {
      StepKeeps(p, run[0].0, run[0].1);
      RunKeeps(Next(p, run[0].0, run[0].1), run[1..]);
    }
  }

  /** In every reachable pool: no frame is lost or lent twice, in-use never exceeds the frames outside the queue,
      and neither mark exceeds the pool. */
  lemma FramesAreSafe(p: Pool, run: seq<(nat, Step)>, f: Frame)
    requires Valid(p) && Possible(p, run)
    ensures var q := After(p, run);
            && (Queued(q.queue, f) + HeldBy(q.owners, f) == if f < q.size then 1 else 0)
            && q.inUse <= q.size - |q.queue| && q.peak <= q.size && q.maxInUse <= q.size
  {
    hide Possible, After, Lent, CountedIn;
    RunKeeps(p, run);
    var q := After(p, run);
    CountedAreLent(q.owners);
    assert Once(q, f);
  }

  /** No two owners have the same frame, and no owner has one that is in the queue. */
  lemma NoFrameIsShared(p: Pool, i: nat, j: nat)
    requires Valid(p) && i < j < |p.owners| && FrameOf(p.owners[i]).Some?
    ensures FrameOf(p.owners[i]) != FrameOf(p.owners[j])
    ensures FrameOf(p.owners[i]).value !in p.queue
  {
    hide NotesFit, Lent, CountedIn;
    var f := FrameOf(p.owners[i]).value;
    TwoHave(p.owners, i, j, f);
    assert Once(p, f);
    InQueue(p.queue, f);
  }

  lemma {:induction false} InQueue(queue: seq<Frame>, f: Frame)
    ensures f in queue <==> Queued(queue, f) > 0
  {
    if queue != [] {
      InQueue(queue[..|queue| - 1], f);
      assert queue == queue[..|queue| - 1] + [queue[|queue| - 1]];
    }
  }

  lemma {:induction false} TwoHave(owners: seq<Owner>, i: nat, j: nat, f: Frame)
    requires i < j < |owners|
    ensures HeldBy(owners, f) >= Has(owners[i], f) + Has(owners[j], f)
  {
    hide Has;
    var k := |owners| - 1;
    if j < k {
      TwoHave(owners[..k], i, j, f);
    } else {
      SomeoneHas(owners[..k], i, f);
    }
  }

  // ---------------------------------------------------------------- the mark

  /** Somebody is still on the way to raise the mark to n. */
  ghost predicate Underway(p: Pool, n: nat) {
    exists i :: 0 <= i < |p.owners| && Raises(p.owners[i], n)
  }

  predicate Raises(o: Owner, n: nat) {
    match o case Noting(_, m) => m >= n case Raising(_, m, _) => m >= n case _ => false
  }

  /** The mark covers the peak, or somebody is about to see to it; and nobody has loaded a higher mark. */
  ghost predicate Marked(p: Pool) {
    && (p.peak <= p.maxInUse || Underway(p, p.peak))
    && (forall i :: 0 <= i < |p.owners| ==> Saw(p, p.owners[i]))
  }

  predicate Saw(p: Pool, o: Owner) { o.Raising? ==> o.cur <= p.maxInUse }

  /** As long as nobody resets, the mark misses no peak: this is what the compare-exchange loop is for. */
  lemma StepMarks(p: Pool, i: nat, s: Step)
    requires Marked(p) && Enabled(p, i, s) && !s.ResetStore?
    ensures Marked(Next(p, i, s))
  {
    var q := Next(p, i, s);
    assert Saw(p, p.owners[i]);
    forall k | 0 <= k < |q.owners|
      ensures Saw(q, q.owners[k])
    {
      assert Saw(p, p.owners[k]);
    }
    if p.peak > p.maxInUse {
      var k :| 0 <= k < |p.owners| && Raises(p.owners[k], p.peak);
      if q.peak == p.peak {
        assert q.peak <= q.maxInUse || Raises(q.owners[k], q.peak);
      } else {
        assert Raises(q.owners[i], q.peak);
      }
    } else if q.peak > q.maxInUse {
      assert Raises(q.owners[i], q.peak);
    }
  }

  /** At rest nobody is inside an operation. */
  predicate AtRest(p: Pool) {
    forall i :: 0 <= i < |p.owners| ==> p.owners[i].Idle? || p.owners[i].Holding?
  }

  lemma {:induction false} RunMarks(p: Pool, run: seq<(nat, Step)>)
    requires Marked(p) && Possible(p, run)
    requires forall k :: 0 <= k < |run| ==> !run[k].1.ResetStore?
    ensures Marked(After(p, run))
    decreases |run|
  {
    hide Marked, Next, Enabled;
    if run != [] {
      StepMarks(p, run[0].0, run[0].1);
      RunMarks(Next(p, run[0].0, run[0].1), run[1..]);
    }
  }

  /** At rest after a run with no reset, the mark is the peak of frames in use, or the whole pool because a caller
      found the queue empty; and the count is exact. */
  lemma MarkIsPeakAtRest(p: Pool, run: seq<(nat, Step)>)
    requires Valid(p) && Marked(p) && Possible(p, run)
    requires forall k :: 0 <= k < |run| ==> !run[k].1.ResetStore?
    requires AtRest(After(p, run))
    ensures var q := After(p, run);
            && (q.maxInUse == q.peak || q.maxInUse == q.size)
            && q.inUse == q.size - |q.queue|
  {
    hide Possible, After, EachOnce;
    RunKeeps(p, run);
    RunMarks(p, run);
    var q := After(p, run);
    RestCountsAll(q.owners);
  }

  // ---------------------------------------------------------------- the mark after resets

  /** The most the mark has been told of since the last reset: the count that reset stored, every count since, and the
      whole pool if a caller found the queue empty. */
  function Followed(p: Pool, i: nat, s: Step, told: nat): nat
    requires Enabled(p, i, s)
  {
    match s
    case ResetStore => p.owners[i].v
    case Count => Max(told, p.inUse + 1)
    case Starve => Max(told, p.size)
    case _ => told
  }

  ghost function Told(p: Pool, run: seq<(nat, Step)>, told: nat): nat
    requires Possible(p, run)
    decreases |run|
  {
    if run == [] then told
    else Told(Next(p, run[0].0, run[0].1), run[1..], Followed(p, run[0].0, run[0].1, told))
  }

  /** Somebody still has to raise the mark to n, and will not be misled by a mark loaded before a reset. */
  predicate WillRaise(o: Owner, n: nat) {
    match o case Noting(_, m) => m >= n case Raising(_, m, cur) => m >= n && m > cur case _ => false
  }

  ghost predicate Covered(p: Pool, told: nat) {
    told <= p.maxInUse || exists i :: 0 <= i < |p.owners| && WillRaise(p.owners[i], told)
  }

  /** No step loses what the mark has been told, a reset at any moment included. */
  lemma StepCovers(p: Pool, i: nat, s: Step, told: nat)
    requires Covered(p, told) && Enabled(p, i, s)
    ensures Covered(Next(p, i, s), Followed(p, i, s, told))
  {
    var q, n := Next(p, i, s), Followed(p, i, s, told);
    if s == Count || s == Starve {
      if n > told {
        assert WillRaise(q.owners[i], n);
      }
    }
    if told > p.maxInUse && n == told && n > q.maxInUse {
      var k :| 0 <= k < |p.owners| && WillRaise(p.owners[k], told);
      assert WillRaise(q.owners[k], n) || WillRaise(q.owners[i], n) || (s.Move? && WillRaise(q.owners[s.to], n));
    }
  }

  lemma {:induction false} RunCovers(p: Pool, run: seq<(nat, Step)>, told: nat)
    requires Covered(p, told) && Possible(p, run)
    ensures Covered(After(p, run), Told(p, run, told))
    decreases |run|
  {
    hide Covered, Next, Enabled, Followed;
    if run != [] {
      StepCovers(p, run[0].0, run[0].1, told);
      RunCovers(Next(p, run[0].0, run[0].1), run[1..], Followed(p, run[0].0, run[0].1, told));
    }
  }

  /** At rest after any run, resets included, the mark is at least the count the last reset stored and every count
      since, and at most the peak, or the whole pool because a caller found the queue empty. */
  lemma MarkSinceReset(p: Pool, run: seq<(nat, Step)>, told: nat)
    requires Valid(p) && Covered(p, told) && Possible(p, run) && AtRest(After(p, run))
    ensures var q := After(p, run);
            && Told(p, run, told) <= q.maxInUse
            && (q.maxInUse <= q.peak || q.maxInUse == q.size)
            && q.inUse == q.size - |q.queue|
  {
    hide Possible, After, EachOnce, Told;
    RunKeeps(p, run);
    RunCovers(p, run, told);
    RestCountsAll(After(p, run).owners);
  }

  /** Nothing and nobody is above what the mark has been told. */
  predicate Within(p: Pool, told: nat) {
    && p.maxInUse <= told
    && forall i :: 0 <= i < |p.owners| ==> NoteWithin(p.owners[i], told)
  }

  predicate NoteWithin(o: Owner, told: nat) {
    match o case Noting(_, m) => m <= told case Raising(_, m, _) => m <= told case _ => true
  }

  lemma StepWithin(p: Pool, i: nat, s: Step, told: nat)
    requires Within(p, told) && Enabled(p, i, s) && !s.ResetStore?
    ensures Within(Next(p, i, s), Followed(p, i, s, told))
  {
    var q := Next(p, i, s);
    assert NoteWithin(p.owners[i], told);
    forall k | 0 <= k < |q.owners|
      ensures NoteWithin(q.owners[k], Followed(p, i, s, told))
    {
      assert NoteWithin(p.owners[k], told);
    }
  }

  lemma {:induction false} RunWithin(p: Pool, run: seq<(nat, Step)>, told: nat)
    requires Within(p, told) && Possible(p, run)
    requires forall k :: 0 <= k < |run| ==> !run[k].1.ResetStore?
    ensures Within(After(p, run), Told(p, run, told))
    decreases |run|
  {
    hide Within, Next, Enabled, Followed;
    if run != [] {
      StepWithin(p, run[0].0, run[0].1, told);
      RunWithin(Next(p, run[0].0, run[0].1), run[1..], Followed(p, run[0].0, run[0].1, told));
    }
  }

  /** From rest to rest with no reset the mark is exactly the largest of what it was, every count made, and the whole
      pool if anybody found the queue empty. */
  lemma MarkIsTold(p: Pool, run: seq<(nat, Step)>)
    requires Valid(p) && AtRest(p) && Possible(p, run) && AtRest(After(p, run))
    requires forall k :: 0 <= k < |run| ==> !run[k].1.ResetStore?
    ensures After(p, run).maxInUse == Told(p, run, p.maxInUse)
  {
    hide Valid, Possible, After, Told;
    RunCovers(p, run, p.maxInUse);
    RunWithin(p, run, p.maxInUse);
  }

  lemma {:induction false} RestCountsAll(owners: seq<Owner>)
    requires forall i :: 0 <= i < |owners| ==> owners[i].Idle? || owners[i].Holding?
    ensures CountedIn(owners) == Lent(owners)
  {
    if owners != [] {
      var k := |owners| - 1;
      RestCountsAll(owners[..k]);
    }
  }
}
