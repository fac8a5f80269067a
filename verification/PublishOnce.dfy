/** detail::publishOnce of src/Helpers/DmaFramePool.hpp with any number of callers, every atomic operation a step of
    its own. */
module PublishOnce {

  /** What make builds: never the null value, and never one that has not been destroyed yet.  A destroyed one may
      come again, as an address does. */
  type Resource = nat

  datatype Option<T> = None | Some(value: T)

  /** Where a caller is. */
  datatype Caller =
    | Entering                          // about to load the slot
    | Making                            // saw null; make() runs with no lock held
    | Failed                            // make() failed; about to load the slot
    | Made(mine: Resource)              // about to compare-exchange
    | Losing(mine: Resource, winner: Resource)   // somebody else published; about to destroy its own
    | Done(result: Option<Resource>)

  /** `live` are the resources built and not destroyed. */
  datatype World = World(slot: Option<Resource>, callers: seq<Caller>, live: set<Resource>)

  datatype Step = Load | MakeSucceeds(r: Resource) | MakeFails | LoadAgain | Publish | Destroy

  predicate Enabled(w: World, i: nat, s: Step) {
    i < |w.callers| &&
    match s
    case Load => w.callers[i] == Entering
    case MakeSucceeds(r) => w.callers[i] == Making && r !in w.live
    case MakeFails => w.callers[i] == Making
    case LoadAgain => w.callers[i] == Failed
    case Publish => w.callers[i].Made?
    case Destroy => w.callers[i].Losing?
  }

  function With(w: World, i: nat, c: Caller): World
    requires i < |w.callers|
  {
    w.(callers := w.callers[i := c])
  }

  function Next(w: World, i: nat, s: Step): World
    requires Enabled(w, i, s)
  {
    var c := w.callers[i];
    match s
    case Load => With(w, i, if w.slot.Some? then Done(w.slot) else Making)
    case MakeSucceeds(r) => With(w, i, Made(r)).(live := w.live + {r})
    case MakeFails => With(w, i, Failed)
    case LoadAgain => With(w, i, Done(w.slot))
    case Publish =>
      if w.slot.None? then With(w, i, Done(Some(c.mine))).(slot := Some(c.mine))
      else With(w, i, Losing(c.mine, w.slot.value))
    case Destroy => With(w, i, Done(Some(c.winner))).(live := w.live - {c.mine})
  }

  /** A resource a caller has built and not yet published or destroyed. */
  predicate Has(c: Caller, r: Resource) {
    match c case Made(mine) => mine == r case Losing(mine, _) => mine == r case _ => false
  }

  /** What a caller may believe. */
  predicate Honest(w: World, c: Caller) {
    match c
    case Made(mine) => mine in w.live && w.slot != Some(mine)
    case Losing(mine, winner) => mine in w.live && w.slot == Some(winner) && winner != mine
    case Done(result) => result.Some? ==> w.slot == result
    case _ => true
  }

  ghost predicate Valid(w: World) {
    && (forall i :: 0 <= i < |w.callers| ==> Honest(w, w.callers[i]))
    && (forall i, j, r :: 0 <= i < j < |w.callers| && Has(w.callers[i], r) ==> !Has(w.callers[j], r))
    && (w.slot.Some? ==> w.slot.value in w.live)
    // whatever is alive is published or still with its maker
    && (forall r :: r in w.live ==> w.slot == Some(r) || Pending(w, r))
  }

  ghost predicate Pending(w: World, r: Resource) {
    exists i :: 0 <= i < |w.callers| && Has(w.callers[i], r)
  }

  lemma EntryIsValid(callers: seq<Caller>)
    requires forall i :: 0 <= i < |callers| ==> callers[i] == Entering
    ensures Valid(World(None, callers, {}))
  {}

  lemma StepKeepsPending(w: World, i: nat, s: Step, r: Resource)
    requires Valid(w) && Enabled(w, i, s) && r in Next(w, i, s).live
    ensures var q := Next(w, i, s); q.slot == Some(r) || Pending(q, r)
  {
    var q := Next(w, i, s);
    if r in w.live && w.slot != Some(r) {
      var k :| 0 <= k < |w.callers| && Has(w.callers[k], r);
      assert k != i ==> Has(q.callers[k], r);
      assert k == i ==> q.slot == Some(r) || Has(q.callers[i], r);
    } else if r !in w.live {
      assert Has(q.callers[i], r);
    }
  }

  /** Every step by any caller keeps the invariant. */
  lemma StepKeeps(w: World, i: nat, s: Step)
    requires Valid(w) && Enabled(w, i, s)
    ensures Valid(Next(w, i, s))
  {
    var q := Next(w, i, s);
    assert Honest(w, w.callers[i]);
    forall k | 0 <= k < |q.callers|
      ensures Honest(q, q.callers[k])
    {
      assert Honest(w, w.callers[k]);
      if k != i && w.callers[i].Losing? {
        assert !Has(w.callers[k], w.callers[i].mine) by {
          assert Has(w.callers[i], w.callers[i].mine);
        }
      }
      if k != i && w.callers[i].Made? {
        assert !Has(w.callers[k], w.callers[i].mine) by {
          assert Has(w.callers[i], w.callers[i].mine);
        }
      }
    }
    forall k, j, r | 0 <= k < j < |q.callers| && Has(q.callers[k], r)
      ensures !Has(q.callers[j], r)
    {
      assert Honest(w, w.callers[k]) && Honest(w, w.callers[j]);
      assert k != i ==> Has(w.callers[k], r);
    }
    forall r | r in q.live
      ensures q.slot == Some(r) || Pending(q, r)
    {
      StepKeepsPending(w, i, s, r);
    }
  }

  /** Once published, a resource stays published. */
  lemma SlotIsForever(w: World, i: nat, s: Step)
    requires Enabled(w, i, s) && w.slot.Some?
    ensures Next(w, i, s).slot == w.slot
  {}

  ghost predicate Possible(w: World, run: seq<(nat, Step)>)
    decreases |run|
  {
    run == [] || (Enabled(w, run[0].0, run[0].1) && Possible(Next(w, run[0].0, run[0].1), run[1..]))
  }

  ghost function After(w: World, run: seq<(nat, Step)>): World
    requires Possible(w, run)
    decreases |run|
  {
    if run == [] then w else After(Next(w, run[0].0, run[0].1), run[1..])
  }

  lemma {:induction false} RunKeeps(w: World, run: seq<(nat, Step)>)
    requires Valid(w) && Possible(w, run)
    ensures Valid(After(w, run))
    decreases |run|
  {
    hide Valid, Enabled, Next;
    if run != [] {
      StepKeeps(w, run[0].0, run[0].1);
      RunKeeps(Next(w, run[0].0, run[0].1), run[1..]);
    }
  }

  /** In every interleaving every caller that gets a resource gets the published one, which is not destroyed;
      and once all callers are done it is the only one left undestroyed. */
  lemma OneResource(callers: seq<Caller>, run: seq<(nat, Step)>, i: nat)
    requires forall k :: 0 <= k < |callers| ==> callers[k] == Entering
    requires Possible(World(None, callers, {}), run)
    requires i < |After(World(None, callers, {}), run).callers|
    ensures var w := After(World(None, callers, {}), run);
            && (w.callers[i].Done? && w.callers[i].result.Some? ==>
                  w.slot == w.callers[i].result && w.slot.value in w.live)
            && ((forall k :: 0 <= k < |w.callers| ==> w.callers[k].Done?) ==>
                  w.live == match w.slot case None => {} case Some(r) => {r})
  {
    hide Possible, After;
    var w := After(World(None, callers, {}), run);
    EntryIsValid(callers);
    RunKeeps(World(None, callers, {}), run);
    assert Honest(w, w.callers[i]);
    if forall k :: 0 <= k < |w.callers| ==> w.callers[k].Done? {
      forall r | r in w.live
        ensures w.slot == Some(r)
      {}
    }
  }
}
