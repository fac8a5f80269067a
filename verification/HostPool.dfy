/** The mutex path of src/Helpers/DmaFramePool.cpp: a stack of free frames, and the low-water mark of free frames.
    acquire and release run under a mutex, but resetStats and getMinAvailable do not take it, so what they do to the
    counters falls between any two steps of the others. */
module HostPool {

  type Frame = nat

  // ---------------------------------------------------------------- the mark

  /** The counters, and history: the fewest frames that were free at any moment since the last reset. */
  datatype Gauge = Gauge(size: nat, inUse: nat, maxInUse: nat, least: nat)

  function Min(a: nat, b: nat): nat { if a < b then a else b }

  function Max(a: nat, b: nat): nat { if a < b then b else a }

  /** getMinAvailable. */
  function MinAvailable(g: Gauge): nat { g.size - Min(g.maxInUse, g.size) }

  predicate Exact(g: Gauge) { MinAvailable(g) == g.least }

  predicate Fits(g: Gauge) { g.inUse <= g.size && g.least <= g.size - g.inUse }

  /** noteInUse: the compare-exchange loop ends with one load or exchange that has this effect. */
  function Noted(g: Gauge, n: nat): Gauge {
    if n > g.maxInUse then g.(maxInUse := n) else g
  }

  /** acquire up to noteInUse: a frame, if there is one. */
  function Counted(g: Gauge): Gauge
    requires Fits(g)
  {
    if g.inUse < g.size then g.(inUse := g.inUse + 1, least := Min(g.least, g.size - g.inUse - 1)) else g
  }

  /** acquire with nothing in between: a frame and its note, or the note that there is none. */
  function Lend(g: Gauge): Gauge
    requires Fits(g)
  {
    Noted(Counted(g), Counted(g).inUse)
  }

  /** release. */
  function Return(g: Gauge): Gauge
    requires Fits(g) && g.inUse > 0
  {
    g.(inUse := g.inUse - 1)
  }

  /** The second half of resetStats: the count it loaded earlier becomes the mark, and history starts again. */
  function StoreMark(g: Gauge, loaded: nat): Gauge
    requires Fits(g)
  {
    g.(maxInUse := loaded, least := g.size - g.inUse)
  }

  /** Right after a reset the mark is exact if and only if the count it loaded is still the count. */
  lemma ResetIsExactIff(g: Gauge, loaded: nat)
    requires Fits(g) && loaded <= g.size
    ensures Exact(StoreMark(g, loaded)) <==> loaded == g.inUse
  {}

  /** A caller that finds no frame leaves a minimum of zero, however the mark stood. */
  lemma StarvationShows(g: Gauge)
    requires Fits(g) && g.inUse == g.size
    ensures MinAvailable(Lend(g)) == 0
  {}

  // ---------------------------------------------------------------- runs

  /** Who is inside acquire, with the mutex: nobody, or a caller that still has to note a count. */
  datatype Inside = Nobody | Noting(n: nat)

  /** The counters, and the counts that callers of resetStats have loaded and not yet stored. */
  datatype World = World(g: Gauge, inside: Inside, loaded: map<nat, nat>)

  datatype Event = Count | Note | Returned | Load(caller: nat) | Store(caller: nat)

  /** The pool as poolInitInternalUnlocked leaves it. */
  function Full(size: nat): World { World(Gauge(size, 0, 0, size), Nobody, map[]) }

  predicate Possible(w: World, e: Event) {
    Fits(w.g) &&
    match e
    case Count => w.inside == Nobody
    case Note => w.inside.Noting?
    case Returned => w.inside == Nobody && w.g.inUse > 0
    case Load(c) => c !in w.loaded
    case Store(c) => c in w.loaded
  }

  function Next(w: World, e: Event): World
    requires Possible(w, e)
  {
    match e
    case Count => w.(g := Counted(w.g), inside := Noting(Counted(w.g).inUse))
    case Note => w.(g := Noted(w.g, w.inside.n), inside := Nobody)
    case Returned => w.(g := Return(w.g))
    case Load(c) => w.(loaded := w.loaded[c := w.g.inUse])
    case Store(c) => w.(g := StoreMark(w.g, w.loaded[c]), loaded := w.loaded - {c})
  }

  predicate Runs(w: World, events: seq<Event>)
    decreases |events|
  {
    events == [] || (Possible(w, events[0]) && Runs(Next(w, events[0]), events[1..]))
  }

  function Run(w: World, events: seq<Event>): World
    requires Runs(w, events)
    decreases |events|
  {
    if events == [] then w else Run(Next(w, events[0]), events[1..])
  }

  lemma {:induction false} RunsOn(w: World, a: seq<Event>, b: seq<Event>)
    requires Runs(w, a + b)
    ensures Runs(w, a) && Runs(Run(w, a), b) && Run(w, a + b) == Run(Run(w, a), b)
    decreases |a|
  {
    hide Possible, Next;
    if a == [] {
      assert a + b == b;
    } else {
      assert (a + b)[1..] == a[1..] + b && (a + b)[0] == a[0];
      RunsOn(Next(w, a[0]), a[1..], b);
    }
  }

  // ---------------------------------------------------------------- when the minimum is exact

  /** The last reset of a run: the count it stored, the count in use when it did, and the largest note since.  Every
      store begins anew, so nothing before the last one matters. */
  datatype Since = Since(stored: nat, held: nat, noted: nat)

  function Followed(w: World, e: Event, t: Since): Since
    requires Possible(w, e)
  {
    match e
    case Store(c) => Since(w.loaded[c], w.g.inUse, 0)
    case Note => t.(noted := Max(t.noted, w.inside.n))
    case _ => t
  }

  function LastReset(w: World, events: seq<Event>, t: Since): Since
    requires Runs(w, events)
    decreases |events|
  {
    if events == [] then t else LastReset(Next(w, events[0]), events[1..], Followed(w, events[0], t))
  }

  /** What holds of the counters at any moment; a note still to come is at most a count already made. */
  predicate Tracks(w: World, t: Since) {
    && Fits(w.g) && t.stored <= w.g.size && t.held <= w.g.size && t.noted <= w.g.size
    && (forall c :: c in w.loaded ==> w.loaded[c] <= w.g.size)
    && w.g.maxInUse == Max(t.stored, t.noted)
    && w.g.size - w.g.least == Max(t.held, Max(t.noted, if w.inside.Noting? then w.inside.n else 0))
    && (w.inside.Noting? ==> w.inside.n == w.g.inUse)
  }

  lemma StepTracks(w: World, e: Event, t: Since)
    requires Possible(w, e) && Tracks(w, t)
    ensures Tracks(Next(w, e), Followed(w, e, t))
  {}

  lemma {:induction false} RunTracks(w: World, events: seq<Event>, t: Since)
    requires Runs(w, events) && Tracks(w, t)
    ensures Tracks(Run(w, events), LastReset(w, events, t))
    decreases |events|
  {
    hide Tracks, Possible, Next, Followed;
    if events != [] {
      StepTracks(w, events[0], t);
      RunTracks(Next(w, events[0]), events[1..], Followed(w, events[0], t));
    }
  }

  /** After any run, whatever resets race whatever acquires and releases: what getMinAvailable returns, what the
      minimum since the last reset is, and that they agree if and only if that reset stored the count in use, or
      since then at least as many frames as the larger of the two were out at once. */
  lemma MinimumIsExact(size: nat, events: seq<Event>)
    requires Runs(Full(size), events) && Run(Full(size), events).inside == Nobody
    ensures var g, t := Run(Full(size), events).g, LastReset(Full(size), events, Since(0, 0, 0));
            && MinAvailable(g) == size - Max(t.stored, t.noted)
            && g.least == size - Max(t.held, t.noted)
            && (Exact(g) <==> t.stored == t.held || t.noted >= Max(t.stored, t.held))
  {
    hide Runs, Run, LastReset;
    RunTracks(Full(size), events, Since(0, 0, 0));
    SameSize(Full(size), events);
  }

  lemma {:induction false} SameSize(w: World, events: seq<Event>)
    requires Runs(w, events)
    ensures Run(w, events).g.size == w.g.size
    decreases |events|
  {
    if events != [] {
      SameSize(Next(w, events[0]), events[1..]);
    }
  }

  // ---------------------------------------------------------------- what a caller can do about it

  predicate NoReset(events: seq<Event>) { forall i :: 0 <= i < |events| ==> !events[i].Store? }

  /** Neither acquire nor release changes the count, and the caller's own reset is not over. */
  predicate Quiet(events: seq<Event>, caller: nat) {
    forall i :: 0 <= i < |events| ==> events[i] != Count && events[i] != Returned && events[i] != Store(caller)
  }

  lemma {:induction false} QuietKeepsCount(w: World, events: seq<Event>, caller: nat)
    requires Runs(w, events) && Quiet(events, caller) && caller in w.loaded
    ensures Run(w, events).g.inUse == w.g.inUse
    ensures caller in Run(w, events).loaded && Run(w, events).loaded[caller] == w.loaded[caller]
    decreases |events|
  {
    if events != [] {
      QuietKeepsCount(Next(w, events[0]), events[1..], caller);
    }
  }

  lemma {:induction false} NoResetFollows(w: World, events: seq<Event>, t: Since)
    requires Runs(w, events) && NoReset(events)
    ensures var r := LastReset(w, events, t); r.stored == t.stored && r.held == t.held
    decreases |events|
  {
    if events != [] {
      NoResetFollows(Next(w, events[0]), events[1..], Followed(w, events[0], t));
    }
  }

  lemma {:induction false} LastResetOn(w: World, a: seq<Event>, b: seq<Event>, t: Since)
    requires Runs(w, a + b)
    ensures Runs(w, a) && Runs(Run(w, a), b)
    ensures LastReset(w, a + b, t) == LastReset(Run(w, a), b, LastReset(w, a, t))
    decreases |a|
  {
    hide Possible, Next, Followed;
    RunsOn(w, a, b);
    if a == [] {
      assert a + b == b;
    } else {
      assert (a + b)[1..] == a[1..] + b && (a + b)[0] == a[0];
      LastResetOn(Next(w, a[0]), a[1..], b, Followed(w, a[0], t));
    }
  }

  /** A reset between whose halves nobody acquires or releases makes the minimum exact, for good: until the next
      reset, whatever resets went before or raced it. */
  lemma QuietResetIsExact(size: nat, before: seq<Event>, caller: nat, quiet: seq<Event>, after: seq<Event>)
    requires Runs(Full(size), before + [Load(caller)] + quiet + [Store(caller)] + after)
    requires Run(Full(size), before + [Load(caller)] + quiet + [Store(caller)] + after).inside == Nobody
    requires Quiet(quiet, caller) && NoReset(after)
    ensures Exact(Run(Full(size), before + [Load(caller)] + quiet + [Store(caller)] + after).g)
  {
    hide Possible, Next, Followed, Exact;
    var w, t := Full(size), Since(0, 0, 0);
    var loaded := before + [Load(caller)];
    var all := loaded + quiet + [Store(caller)];
    MinimumIsExact(size, all + after);
    LastResetOn(w, all, after, t);
    LastResetOn(w, loaded + quiet, [Store(caller)], t);
    RunsOn(w, loaded, quiet);
    RunsOn(w, before, [Load(caller)]);
    JustLoaded(Run(w, before), caller);
    QuietKeepsCount(Run(w, loaded), quiet, caller);
    JustStored(Run(w, loaded + quiet), caller, LastReset(w, loaded + quiet, t));
    RunsOn(w, all, after);
    NoResetFollows(Run(w, all), after, LastReset(w, all, t));
  }

  lemma JustLoaded(w: World, caller: nat)
    requires Runs(w, [Load(caller)])
    ensures var r := Run(w, [Load(caller)]); caller in r.loaded && r.loaded[caller] == r.g.inUse
  {
    assert [Load(caller)][1..] == [];
  }

  lemma JustStored(w: World, caller: nat, t: Since)
    requires Runs(w, [Store(caller)])
    ensures caller in w.loaded
    ensures var r := LastReset(w, [Store(caller)], t); r.stored == w.loaded[caller] && r.held == w.g.inUse
  {
    assert [Store(caller)][1..] == [];
  }

  /** It can fail: a frame lent between the two halves is never seen; and the next lend mends it. */
  lemma ResetCanMissALend()
    ensures var missed := [Load(0), Count, Note, Store(0)];
            && Runs(Full(6), missed) && Runs(Full(6), missed + [Count, Note])
            && !Exact(Run(Full(6), missed).g) && Exact(Run(Full(6), missed + [Count, Note]).g)
  {
    hide Possible, Next, Exact;
    MissedLend([]);
    MissedLend([Count, Note]);
    assert [Load(0), Count, Note, Store(0)] + [] == [Load(0), Count, Note, Store(0)];
  }

  lemma MissedLend(rest: seq<Event>)
    requires rest == [] || rest == [Count, Note]
    ensures Runs(Full(6), [Load(0), Count, Note, Store(0)] + rest)
    ensures Exact(Run(Full(6), [Load(0), Count, Note, Store(0)] + rest).g) <==> rest != []
  {
    var w4 := World(Gauge(6, 1, 0, 5), Nobody, map[]);
    if rest != [] {
      assert rest == [Count] + [Note] && [Note] == [Note] + [];
      RunsFrom(World(Gauge(6, 2, 0, 4), Noting(2), map[]), Note, []);
      RunsFrom(w4, Count, [Note]);
    }
    assert map[0 := 0] - {0} == map[];
    RunsFrom(World(Gauge(6, 1, 1, 5), Nobody, map[0 := 0]), Store(0), rest);
    RunsFrom(World(Gauge(6, 1, 0, 5), Noting(1), map[0 := 0]), Note, [Store(0)] + rest);
    RunsFrom(World(Gauge(6, 0, 0, 6), Nobody, map[0 := 0]), Count, [Note] + ([Store(0)] + rest));
    RunsFrom(Full(6), Load(0), [Count] + ([Note] + ([Store(0)] + rest)));
    assert [Load(0), Count, Note, Store(0)] + rest == [Load(0)] + ([Count] + ([Note] + ([Store(0)] + rest)));
  }

  lemma RunsFrom(w: World, e: Event, rest: seq<Event>)
    requires Possible(w, e) && Runs(Next(w, e), rest)
    ensures Runs(w, [e] + rest) && Run(w, [e] + rest) == Run(Next(w, e), rest)
  {
    assert ([e] + rest)[1..] == rest;
  }

  // ---------------------------------------------------------------- the pool

  /** Every frame is free, once in the stack, or lent. */
  ghost predicate EachOnce(stack: seq<Frame>, lent: set<Frame>, size: nat) {
    && (forall i, j :: 0 <= i < j < |stack| ==> stack[i] != stack[j])
    && (forall i :: 0 <= i < |stack| ==> stack[i] < size && stack[i] !in lent)
    && (forall f: Frame :: f < size ==> f in lent || f in stack)
    && (forall f :: f in lent ==> f < size)
    && |lent| + |stack| == size
  }

  lemma FullStack(size: nat)
    ensures EachOnce(seq(size, i => i), {}, size)
  {
    var stack := seq(size, i => i);
    forall f: Frame | f < size
      ensures f in stack
    {
      assert stack[f] == f;
    }
  }

  lemma Popped(stack: seq<Frame>, lent: set<Frame>, size: nat)
    requires EachOnce(stack, lent, size) && stack != []
    ensures var top := stack[|stack| - 1];
            top !in lent && top < size && EachOnce(stack[..|stack| - 1], lent + {top}, size)
  {
    var top, rest := stack[|stack| - 1], stack[..|stack| - 1];
    assert stack == rest + [top];
    forall i | 0 <= i < |rest|
      ensures rest[i] < size && rest[i] !in lent + {top}
    {
      assert rest[i] == stack[i];
    }
  }

  lemma Pushed(stack: seq<Frame>, lent: set<Frame>, size: nat, f: Frame)
    requires EachOnce(stack, lent, size) && f in lent
    ensures |stack| < size && EachOnce(stack + [f], lent - {f}, size)
  {
    assert |lent| > 0;
    forall i | 0 <= i < |stack|
      ensures stack[i] != f
    {}
  }

  class Pool {
    const size: nat
    const freeStack: array<Frame>
    var top: nat
    var inUse: nat
    var maxInUse: nat
    var allocations: nat
    var exhaustions: nat
    ghost var lent: set<Frame>     // the frames handles have
    ghost var least: nat           // the fewest that were free since the last reset

    ghost predicate Valid()
      reads this, freeStack
    {
      && freeStack.Length == size && top <= size && inUse == size - top && least <= top
      && EachOnce(freeStack[..top], lent, size)
    }

    ghost function State(): Gauge
      reads this
    {
      Gauge(size, inUse, maxInUse, least)
    }

    /** poolInitInternalUnlocked. */
    constructor (size: nat)
      ensures Valid() && fresh(freeStack) && lent == {} && top == size && this.size == size
      ensures State() == Gauge(size, 0, 0, size)
    {
      this.size := size;
      freeStack := new Frame[size](i => i);
      top, inUse, maxInUse, allocations, exhaustions := size, 0, 0, 0, 0;
      lent, least := {}, size;
      new;
      FullStack(size);
      assert freeStack[..top] == seq(size, i => i);
    }

    method NoteInUse(n: nat)
      modifies `maxInUse
      ensures State() == Noted(old(State()), n)
    {
      var cur := maxInUse;
      if n > cur { maxInUse := n; }
    }

    /** acquire: the frame of the handle, or none when every frame is lent. */
    method Acquire() returns (ok: bool, f: Frame)
      requires Valid()
      modifies this
      ensures Valid() && State() == Lend(old(State()))
      ensures ok == (old(top) > 0)
      ensures ok ==> f !in old(lent) && f < size && lent == old(lent) + {f} && allocations == old(allocations) + 1
      ensures ok ==> freeStack[..top] + [f] == old(freeStack[..top])
      ensures !ok ==> lent == old(lent) && exhaustions == old(exhaustions) + 1 && |lent| == size
    {
      if top > 0 {
        Popped(freeStack[..top], lent, size);
        hide EachOnce;
        ghost var stack := freeStack[..top];
        top := top - 1;
        allocations := allocations + 1;
        inUse := inUse + 1;
        NoteInUse(inUse);
        f := freeStack[top];
        assert freeStack[..top] == stack[..top] && stack[top] == f;
        lent, least := lent + {f}, Min(least, top);
        return true, f;
      }
      exhaustions := exhaustions + 1;
      NoteInUse(size);
      return false, 0;
    }

    /** Handle::release of a handle that has a frame: exactly that frame is free again, on top of the stack. */
    method Release(f: Frame)
      requires Valid() && f in lent
      modifies this, freeStack
      ensures Valid() && State() == Return(old(State()))
      ensures lent == old(lent) - {f}
      ensures freeStack[..top] == old(freeStack[..top]) + [f]
    {
      Pushed(freeStack[..top], lent, size, f);
      hide EachOnce;
      ghost var stack := freeStack[..top];
      if top < size {
        inUse := inUse - 1;
        freeStack[top] := f;
        top := top + 1;
        assert freeStack[..top] == stack + [f];
        lent := lent - {f};
      }
    }

    /** The two halves of resetStats. */
    method LoadInUse() returns (loaded: nat)
      requires Valid()
      ensures loaded == inUse <= size
    {
      loaded := inUse;
    }

    method StoreMaxInUse(loaded: nat)
      requires Valid()
      modifies this
      ensures Valid() && State() == StoreMark(old(State()), loaded) && lent == old(lent)
    {
      exhaustions, allocations := 0, 0;
      maxInUse := loaded;
      least := top;
    }

    /** resetStats with nothing in between. */
    method ResetStats()
      requires Valid()
      modifies this
      ensures Valid() && Exact(State()) && lent == old(lent)
    {
      var loaded := LoadInUse();
      StoreMaxInUse(loaded);
    }

    method GetMinAvailable() returns (m: nat)
      requires Valid()
      ensures m == MinAvailable(State())
    {
      var most := maxInUse;
      m := size - (if most < size then most else size);
    }
  }
}
