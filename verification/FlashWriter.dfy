/** src/Helpers/FlashWriter.cpp and the queues that feed it, as a system of steps: producers overwrite depth-1 queues
    and wake the one writer task, which makes passes over the queues and waits for a notification. */
module FlashWriter {

  /** What one queue item holds: a complete snapshot. */
  type Blob = int

  datatype Option<T> = None | Some(value: T)

  // ---------------------------------------------------------------- one pass, alone

  /** Whether source k has something to write. */
  predicate Waits(ready: seq<bool>, queues: seq<Option<Blob>>, k: nat) {
    k < |ready| && k < |queues| && ready[k] && queues[k].Some?
  }

  /** The units of the first k queues, in order. */
  function Pending(ready: seq<bool>, queues: seq<Option<Blob>>, k: nat): seq<(nat, Blob)> {
    if k == 0 then []
    else
      Pending(ready, queues, k - 1)
      + (if Waits(ready, queues, k - 1) then [(k - 1, queues[k - 1].value)] else [])
  }

  /** One unit of each queue that waits, the queues in order. */
  lemma {:induction false} PendingIs(ready: seq<bool>, queues: seq<Option<Blob>>, k: nat)
    ensures forall i, j :: 0 <= i < j < |Pending(ready, queues, k)| ==> Pending(ready, queues, k)[i].0 < Pending(ready, queues, k)[j].0
    ensures forall u: (nat, Blob) :: u in Pending(ready, queues, k) <==> u.0 < k && Waits(ready, queues, u.0) && queues[u.0].value == u.1
  {
    if k > 0 {
      PendingIs(ready, queues, k - 1);
      var before := Pending(ready, queues, k - 1);
      forall i | 0 <= i < |before|
        ensures before[i].0 < k - 1
      {
        assert before[i] in before;
      }
    }
  }

  /** passOnce with nobody producing: every ready queue gives its unit, in order, once, and the count is theirs. */
  method PassOnce(ready: seq<bool>, queues: array<Option<Blob>>) returns (n: nat, written: seq<(nat, Blob)>)
    requires |ready| == queues.Length
    modifies queues
    ensures written == Pending(ready, old(queues[..]), queues.Length) && n == |written|
    ensures forall k :: 0 <= k < queues.Length ==> queues[k] == if ready[k] then None else old(queues[k])
  {
    n, written := 0, [];
    for k := 0 to queues.Length
      invariant written == Pending(ready, old(queues[..]), k) && n == |written|
      invariant forall j :: 0 <= j < k ==> queues[j] == if ready[j] then None else old(queues[j])
      invariant forall j :: k <= j < queues.Length ==> queues[j] == old(queues[j])
    {
      if ready[k] && queues[k].Some? {
        written := written + [(k, queues[k].value)];
        queues[k] := None;
        n := n + 1;
      }
    }
  }

  // ---------------------------------------------------------------- the system

  /** Where the task is. */
  datatype Task =
    | NotCreated
    | InPass(next: nat)               // about to look at queue `next`
    | Writing(k: nat, unit: Blob)     // took a unit, the flash write runs
    | Waiting                         // ulTaskNotifyTake

  /** `owed` counts, for each queue, the producers that overwrote it and have not called wake yet.  `newest` and
      `written` are history: what was last staged and last written, by queue; `units` counts finished writes. */
  datatype World = World(task: Task, handle: bool, notified: bool,
                         ready: seq<bool>, queues: seq<Option<Blob>>, owed: seq<nat>,
                         newest: seq<Option<Blob>>, written: seq<Option<Blob>>, units: nat)

  datatype Step =
    | CreateTask | StoreHandle        // start()
    | Publish(k: nat)                 // a source becomes ready, once start() returned true
    | Overwrite(k: nat, blob: Blob)   // xQueueOverwrite
    | Wake(k: nat)                    // xTaskNotifyGive, if the handle is there
    | Look                            // the task looks at its next queue
    | Finish                          // the write is done
    | EndPass
    | TakeNotification

  predicate Sized(w: World) {
    |w.ready| == |w.queues| == |w.owed| == |w.newest| == |w.written|
  }

  predicate Enabled(w: World, s: Step) {
    Sized(w) &&
    match s
    case CreateTask => w.task == NotCreated
    case StoreHandle => w.task != NotCreated
    case Publish(k) => k < |w.ready| && w.handle
    case Overwrite(k, _) => k < |w.ready| && w.ready[k]
    case Wake(k) => k < |w.ready| && w.owed[k] > 0
    case Look => w.task.InPass? && w.task.next < |w.ready|
    case Finish => w.task.Writing? && w.task.k < |w.ready|
    case EndPass => w.task.InPass? && w.task.next >= |w.ready|
    case TakeNotification => w.task == Waiting && w.notified
  }

  function Next(w: World, s: Step): World
    requires Enabled(w, s)
  {
    match s
    case CreateTask => w.(task := InPass(0))
    case StoreHandle => w.(handle := true)
    case Publish(k) => w.(ready := w.ready[k := true])
    case Overwrite(k, blob) =>
      w.(queues := w.queues[k := Some(blob)], newest := w.newest[k := Some(blob)], owed := w.owed[k := w.owed[k] + 1])
    case Wake(k) => w.(owed := w.owed[k := w.owed[k] - 1], notified := w.notified || w.handle)
    case Look =>
      var k := w.task.next;
      if Waits(w.ready, w.queues, k) then
        w.(task := Writing(k, w.queues[k].value), queues := w.queues[k := None])
      else w.(task := InPass(k + 1))
    case Finish =>
      w.(task := InPass(w.task.k + 1), written := w.written[w.task.k := Some(w.task.unit)], units := w.units + 1)
    case EndPass => w.(task := Waiting)
    case TakeNotification => w.(task := InPass(0), notified := false)
  }

  /** A step of the task itself. */
  predicate ByTask(s: Step) { s == Look || s == Finish || s == EndPass || s == TakeNotification }

  // ---------------------------------------------------------------- no unit is lost

  /** The task still has to look at queue k in this pass. */
  predicate StillAhead(w: World, k: nat) {
    match w.task
    case NotCreated => true
    case InPass(next) => next <= k
    case Writing(j, _) => j < k
    case Waiting => false
  }

  /** Somebody sees to a unit in queue k: a notification is pending, the running pass will reach it, or its producer
      is about to wake the task. */
  predicate SeenTo(w: World, k: nat)
    requires k < |w.owed|
  {
    w.notified || StillAhead(w, k) || w.owed[k] > 0
  }

  /** The newest value staged in queue k is in the queue, being written, or written. */
  predicate Kept(w: World, k: nat)
    requires Sized(w) && k < |w.queues|
  {
    w.newest[k].Some? ==>
      || w.queues[k] == w.newest[k]
      || (w.queues[k].None? && w.task == Writing(k, w.newest[k].value))
      || (w.queues[k].None? && !(w.task.Writing? && w.task.k == k) && w.written[k] == w.newest[k])
  }

  predicate QueueFine(w: World, k: nat)
    requires Sized(w) && k < |w.queues|
  {
    && (w.ready[k] ==> w.handle && w.task != NotCreated)
    && (w.queues[k].Some? ==> w.ready[k] && SeenTo(w, k) && w.newest[k] == w.queues[k])
    && Kept(w, k)
  }

  ghost predicate Valid(w: World) {
    && Sized(w) && (w.handle ==> w.task != NotCreated)
    && (w.task.Writing? ==> w.task.k < |w.ready|)
    && forall k :: 0 <= k < |w.queues| ==> QueueFine(w, k)
  }

  lemma BootIsValid(n: nat)
    ensures Valid(World(NotCreated, false, false, seq(n, k => false), seq(n, k => None), seq(n, k => 0),
                        seq(n, k => None), seq(n, k => None), 0))
  {}

  lemma TaskStepKeeps(w: World, s: Step, k: nat)
    requires Valid(w) && Enabled(w, s) && ByTask(s) && k < |w.queues|
    ensures QueueFine(Next(w, s), k)
  {
    assert QueueFine(w, k);
  }

  lemma OtherStepKeeps(w: World, s: Step, k: nat)
    requires Valid(w) && Enabled(w, s) && !ByTask(s) && k < |w.queues|
    ensures QueueFine(Next(w, s), k)
  {
    assert QueueFine(w, k);
  }

  lemma StepKeepsTask(w: World, s: Step)
    requires Valid(w) && Enabled(w, s)
    ensures var q := Next(w, s);
            && Sized(q) && |q.queues| == |w.queues| && (q.handle ==> q.task != NotCreated)
            && (q.task.Writing? ==> q.task.k < |q.ready|)
  {
    hide QueueFine;
  }

  /** Every step keeps this, whoever takes it. */
  lemma StepKeeps(w: World, s: Step)
    requires Valid(w) && Enabled(w, s)
    ensures Valid(Next(w, s))
  {
    hide QueueFine, Next, Enabled;
    var q := Next(w, s);
    StepKeepsTask(w, s);
    forall k | 0 <= k < |q.queues|
      ensures QueueFine(q, k)
    {
      if ByTask(s) {
        TaskStepKeeps(w, s, k);
      } else {
        OtherStepKeeps(w, s, k);
      }
    }
  }

  ghost predicate Possible(w: World, run: seq<Step>)
    decreases |run|
  {
    run == [] || (Enabled(w, run[0]) && Possible(Next(w, run[0]), run[1..]))
  }

  ghost function After(w: World, run: seq<Step>): World
    requires Possible(w, run)
    decreases |run|
  {
    if run == [] then w else After(Next(w, run[0]), run[1..])
  }

  lemma {:induction false} RunKeeps(w: World, run: seq<Step>)
    requires Valid(w) && Possible(w, run)
    ensures Valid(After(w, run))
    decreases |run|
  {
    hide Valid, Enabled, Next;
    if run != [] {
      StepKeeps(w, run[0]);
      RunKeeps(Next(w, run[0]), run[1..]);
    }
  }

  /** In every run, a non-empty queue has a pending notification, a pass still to reach it, or a producer that has
      not called wake; and the newest staged value is in its queue, being written, or the last one written. */
  lemma NoUnitIsLost(w: World, run: seq<Step>, k: nat)
    requires Valid(w) && Possible(w, run) && k < |After(w, run).queues|
    ensures var r := After(w, run);
            && Sized(r) && (r.queues[k].Some? ==> SeenTo(r, k)) && Kept(r, k)
  {
    hide Possible, After;
    RunKeeps(w, run);
    assert QueueFine(After(w, run), k);
  }

  // ---------------------------------------------------------------- how long a unit waits

  /** How many writes may finish before the task takes the unit in queue k: what is left of this pass, and if that
      has gone by, what comes before k in the next. */
  function UnitsAhead(w: World, k: nat): nat {
    var n := |w.queues|;
    match w.task
    case NotCreated => k
    case InPass(next) => if next <= k then k - next else if next <= n then n - next + k else k
    case Writing(j, _) => if j < k then k - j else if j < n then n - j + k else k
    case Waiting => k
  }

  /** How many steps of its own the task may take before it takes the unit. */
  function StepsAhead(w: World, k: nat): nat {
    var n := |w.queues|;
    match w.task
    case NotCreated => 2 * k + 1
    case InPass(next) =>
      if next <= k then 2 * (k - next) + 1 else if next <= n then 2 * (n - next) + 2 * k + 3 else 2 * k + 3
    case Writing(j, _) =>
      if j < k then 2 * (k - j) else if j < n then 2 * (n - j) + 2 * k + 2 else 2 * k + 3
    case Waiting => 2 * k + 2
  }

  /** The step takes the unit of queue k. */
  predicate Takes(w: World, s: Step, k: nat) { s == Look && w.task == InPass(k) }

  /** Never more than the unit in progress and one of every other queue. */
  lemma WaitIsBounded(w: World, k: nat)
    requires Valid(w) && k < |w.queues|
    ensures UnitsAhead(w, k) <= |w.queues|
    ensures UnitsAhead(w, k) == |w.queues| ==> w.task.Writing? && w.task.k == k
  {}

  /** While the unit waits, every finished write and every step of the task brings it nearer, and nobody sets it
      back: not even a producer that never stops. */
  lemma StepComesNearer(w: World, s: Step, k: nat)
    requires Valid(w) && Enabled(w, s) && k < |w.queues| && w.queues[k].Some? && !Takes(w, s, k)
    ensures var q := Next(w, s);
            && q.queues[k].Some?
            && UnitsAhead(q, k) + (if s == Finish then 1 else 0) <= UnitsAhead(w, k)
            && StepsAhead(q, k) + (if ByTask(s) then 1 else 0) <= StepsAhead(w, k)
  {
    assert QueueFine(w, k);
  }

  /** The task is never stuck with a unit waiting: it can step, or a producer still has to wake it. */
  lemma NeverStuck(w: World, k: nat)
    requires Valid(w) && k < |w.queues| && w.queues[k].Some?
    ensures (exists s :: ByTask(s) && Enabled(w, s)) || Enabled(w, Wake(k))
  {
    assert QueueFine(w, k);
    match w.task
    case NotCreated => assert false;
    case InPass(next) =>
      assert Enabled(w, Look) || Enabled(w, EndPass);
      assert ByTask(Look) && ByTask(EndPass);
    case Writing(_, _) => assert ByTask(Finish) && Enabled(w, Finish);
    case Waiting =>
      assert w.notified ==> ByTask(TakeNotification) && Enabled(w, TakeNotification);
  }

  function TaskSteps(run: seq<Step>): nat {
    if run == [] then 0 else (if ByTask(run[0]) then 1 else 0) + TaskSteps(run[1..])
  }

  /** No step of the run takes the unit of queue k. */
  ghost predicate NotTaken(w: World, run: seq<Step>, k: nat)
    requires Possible(w, run)
    decreases |run|
  {
    run == [] || (!Takes(w, run[0], k) && NotTaken(Next(w, run[0]), run[1..], k))
  }

  /** A unit waits at most for the unit in progress plus one unit of every other queue, and at most a bounded number
      of steps of the task, however often any queue, its own included, is overwritten meanwhile. */
  lemma {:induction false} WaitsAtMost(w: World, run: seq<Step>, k: nat)
    requires Valid(w) && Possible(w, run) && k < |w.queues| && w.queues[k].Some? && NotTaken(w, run, k)
    ensures var r := After(w, run);
            && |r.queues| == |w.queues| && r.queues[k].Some?
            && r.units - w.units <= UnitsAhead(w, k)
            && TaskSteps(run) <= StepsAhead(w, k)
    decreases |run|
  {
    hide Valid, Enabled, Next, UnitsAhead, StepsAhead;
    if run != [] {
      StepComesNearer(w, run[0], k);
      StepKeeps(w, run[0]);
      UnitsCounted(w, run[0]);
      WaitsAtMost(Next(w, run[0]), run[1..], k);
    }
  }

  lemma UnitsCounted(w: World, s: Step)
    requires Enabled(w, s)
    ensures Next(w, s).units == w.units + (if s == Finish then 1 else 0)
    ensures |Next(w, s).queues| == |w.queues|
  {}
}
