/** The lockout of each client, over every interleaving: what the bucket of a key counts while it keeps its slot, that
    nothing gets past an engaged lockout, and that a lockout ends. */
module BucketRuns {
  import opened Lockouts
  import opened LoginSteps
  import opened LoginRuns

  /** What an event does to the table: nothing, one attempt under a key, or a fresh start for every key. */
  datatype Touch = Untouched | Under(key: string, v: Verdict) | Reset

  function Touches(h: Hasher, w: World, e: Event): Touch {
    match e
    case Tick(_) => Untouched
    case StartAuth(u, p, c) => Under(AuthKey(c, IsOwner(w.s, u)), Started(BeginAuthenticate(w.s, u, p, c, w.now).1))
    case EndAuth(t, candidate) =>
      if Current(w.s, t) then Under(t.key, FinishAuthenticate(w.s, t, candidate, w.now).1) else Untouched
    case StartVerify(u, p, c) => Under(c, Started(BeginVerify(w.s, u, p, c, w.now).1))
    case EndVerify(t, candidate) =>
      if Current(w.s, t.(owner := false)) then Under(t.key, FinishVerify(w.s, t, candidate, w.now).1) else Untouched
    case StartDtmf => if w.s.pin.provisioned then Under("", Refused) else Untouched
    case EndDtmf(p, matched) => if PinCurrent(w.s, p) then Under("", FinishDtmf(w.s, p, matched, w.now).1) else Untouched
    case NewLogin(u, p, salt, allowed, persisted) =>
      if SetLogin(h, w.s, u, p, salt, allowed, persisted).1 then Reset else Untouched
    case NewOwner(u, p, salt, allowed, persisted) =>
      if SetOwner(h, w.s, u, p, salt, allowed, persisted).1 then Reset else Untouched
    case NewPin(digits, claimed, salt, allowed, persisted) =>
      if SetPin(h, w.s, digits, claimed, salt, allowed, persisted).1 then Reset else Untouched
    case Clear => Reset
  }

  /** For each slot, the times of the misses charged under its key since the key got the slot, or since a hit. */
  type Logs = l: seq<seq<nat>> | |l| == MAX_ATTEMPT_BUCKETS witness [[], [], [], [], [], [], [], []]

  function NoLogs(): Logs { [[], [], [], [], [], [], [], []] }

  function Kept(t: Table, key: string, logs: Logs): seq<nat> {
    var i := SlotFor(t, key);
    if Holds(t, i, key) then logs[i] else []
  }

  function Followed(h: Hasher, w: World, e: Event, logs: Logs): Logs {
    match Touches(h, w, e)
    case Untouched => logs
    case Under(key, v) => logs[SlotFor(w.s.attempts, key) := Logged(Kept(w.s.attempts, key, logs), v, w.now)]
    case Reset => NoLogs()
  }

  function Misses(h: Hasher, w: World, events: seq<Event>, logs: Logs): Logs
    decreases |events|
  {
    if events == [] then logs else Misses(h, Step(h, w, events[0]), events[1..], Followed(h, w, events[0], logs))
  }

  // ---------------------------------------------------------------- the table follows

  /** The table after an attempt: the key acquires its slot, and the attempt is charged if it counted. */
  function Attempted(t: Table, key: string, v: Verdict, now: nat): Table {
    var r := Acquire(t, key, now);
    if v.Refused? then r else r[SlotFor(t, key) := Charge(r[SlotFor(t, key)], v.Hit?, now)]
  }

  /** Every step does to the table what Touches says; and a miss or a hit counts only where no lockout of the bucket
      is engaged. */
  lemma StepTouches(h: Hasher, w: World, e: Event)
    ensures var r := Step(h, w, e).s.attempts;
            match Touches(h, w, e)
            case Untouched => r == w.s.attempts
            case Under(key, v) =>
              && r == Attempted(w.s.attempts, key, v, w.now)
              && (!v.Refused? ==> !Engaged(Bucketed(w.s, key, w.now).lockoutUntilMs, w.now))
            case Reset => r == EmptyTable()
  {
    hide Acquire, SlotFor, Backstopped, Charge, AuthKey, EmptyTable, UsernameValid, PasswordValid, PinValid, Engaged;
    SameVerdicts();
  }

  lemma SameVerdicts()
    ensures VerdictOf(true) == Hit && VerdictOf(false) == Miss
  {}

  // ---------------------------------------------------------------- what every step keeps

  ghost predicate Counted(w: World, logs: Logs) {
    forall i :: 0 <= i < MAX_ATTEMPT_BUCKETS ==> Metered(5, Meter(w.s.attempts[i]), logs[i], w.now)
  }

  lemma FreshMeters(now: nat)
    ensures Metered(5, NO_BACKSTOP, [], now)
  {}

  lemma EmptyIsCounted(w: World)
    requires w.s.attempts == EmptyTable()
    ensures Counted(w, NoLogs())
  {
    hide Metered;
    FreshMeters(w.now);
  }

  /** One bucket, over one attempt. */
  lemma AttemptMeters(t: Table, key: string, v: Verdict, logs: Logs, now: nat)
    requires forall i :: 0 <= i < MAX_ATTEMPT_BUCKETS ==> Metered(5, Meter(t[i]), logs[i], now)
    requires !v.Refused? ==> !Engaged(Acquire(t, key, now)[SlotFor(t, key)].lockoutUntilMs, now)
    ensures var i := SlotFor(t, key);
            Metered(5, Meter(Attempted(t, key, v, now)[i]), Logged(Kept(t, key, logs), v, now), now)
  {
    hide Metered, SlotFor, Charge, Engaged;
    var i := SlotFor(t, key);
    var b := Acquire(t, key, now)[i];
    FreshMeters(now);
    assert Metered(5, Meter(b), Kept(t, key, logs), now);
    ChargeMeters(b, v.Hit?, now);
    if v.Miss? {
      MissedKeeps(5, Meter(b), Kept(t, key, logs), now, now);
    }
  }

  lemma OthersKept(t: Table, key: string, v: Verdict, now: nat, j: nat)
    requires j < MAX_ATTEMPT_BUCKETS && j != SlotFor(t, key)
    ensures Attempted(t, key, v, now)[j] == t[j]
  {}

  lemma StepCounts(h: Hasher, w: World, e: Event, logs: Logs)
    requires Counted(w, logs)
    ensures Counted(Step(h, w, e), Followed(h, w, e, logs))
  {
    hide Metered, SlotFor, Acquire, Attempted, Step, Touches, Kept, EmptyTable;
    StepTouches(h, w, e);
    var r := Step(h, w, e);
    StepTime(h, w, e);
    match Touches(h, w, e) {
      case Untouched =>
        forall i | 0 <= i < MAX_ATTEMPT_BUCKETS
          ensures Metered(5, Meter(r.s.attempts[i]), logs[i], r.now)
        {
          StillMetered(Meter(w.s.attempts[i]), logs[i], w.now, r.now);
        }
      case Under(key, v) =>
        AttemptMeters(w.s.attempts, key, v, logs, w.now);
        forall j | 0 <= j < MAX_ATTEMPT_BUCKETS && j != SlotFor(w.s.attempts, key)
          ensures r.s.attempts[j] == w.s.attempts[j]
        {
          OthersKept(w.s.attempts, key, v, w.now, j);
        }
      case Reset =>
        EmptyIsCounted(r);
    }
  }

  lemma StepTime(h: Hasher, w: World, e: Event)
    ensures Step(h, w, e).now >= w.now && (!e.Tick? ==> Step(h, w, e).now == w.now)
    ensures e.Tick? ==> Touches(h, w, e) == Untouched
  {}

  lemma StillMetered(g: Backstop, log: seq<nat>, before: nat, now: nat)
    requires Metered(5, g, log, before) && before <= now
    ensures Metered(5, g, log, now)
  {}

  lemma {:induction false} RunCounts(h: Hasher, w: World, events: seq<Event>, logs: Logs)
    requires Counted(w, logs)
    ensures Counted(Run(h, w, events), Misses(h, w, events, logs))
    decreases |events|
  {
    hide Counted, Step, Followed;
    if events != [] {
      StepCounts(h, w, events[0], logs);
      RunCounts(h, Step(h, w, events[0]), events[1..], Followed(h, w, events[0], logs));
    }
  }

  // ---------------------------------------------------------------- the bound, and what it means

  /** In every reachable world, for every bucket: the misses charged since its key got the slot or last logged in are
      five a trip and fewer than five more, and each trip comes at least the cooldown after the one before. */
  lemma BucketBound(h: Hasher, w: World, events: seq<Event>, i: nat, n: nat)
    requires w.s.attempts == EmptyTable() && i < MAX_ATTEMPT_BUCKETS
    ensures var r, logs := Run(h, w, events), Misses(h, w, events, NoLogs());
            BoundsGuesses(5, Meter(r.s.attempts[i]), logs[i], n)
  {
    hide Metered, BoundsGuesses, Meter;
    EmptyIsCounted(w);
    RunCounts(h, w, events, NoLogs());
    var r, logs := Run(h, w, events), Misses(h, w, events, NoLogs());
    MeteredBounds(5, Meter(r.s.attempts[i]), logs[i], r.now, n);
  }

  /** And a bucket that has tripped is locked from its last trip on for the cooldown of that trip. */
  lemma BucketLocks(h: Hasher, w: World, events: seq<Event>, i: nat, now: nat)
    requires w.s.attempts == EmptyTable() && i < MAX_ATTEMPT_BUCKETS
    ensures var b, log := Run(h, w, events).s.attempts[i], Misses(h, w, events, NoLogs())[i];
            && (b.trips == 0 ==> !Engaged(b.lockoutUntilMs, now))
            && (b.trips > 0 ==>
                  (0 < 5 * b.trips <= |log|
                   && (Engaged(b.lockoutUntilMs, now) <==> now < log[5 * b.trips - 1] + Cooldown(b.trips))))
  {
    hide Cooldown;
    EmptyIsCounted(w);
    RunCounts(h, w, events, NoLogs());
    var b, log := Run(h, w, events).s.attempts[i], Misses(h, w, events, NoLogs())[i];
    assert Metered(5, Meter(b), log, Run(h, w, events).now);
    TrippedIs(5, b.trips);
  }

  /** The bucket that an attempt under a key will look at: the key's own, or a new one. */
  predicate KeyLocked(s: State, key: string, now: nat) {
    exists i: nat :: i < MAX_ATTEMPT_BUCKETS && Holds(s.attempts, i, key) && Engaged(s.attempts[i].lockoutUntilMs, now)
  }

  lemma BucketedIs(s: State, key: string, now: nat)
    requires OnePerKey(s.attempts)
    ensures Engaged(Bucketed(s, key, now).lockoutUntilMs, now) <==> KeyLocked(s, key, now)
  {
    AcquireKeeps(s.attempts, key, now);
    var i := SlotFor(s.attempts, key);
    if Holds(s.attempts, i, key) {
      assert KeyLocked(s, key, now) ==> Engaged(s.attempts[i].lockoutUntilMs, now);
      assert Engaged(s.attempts[i].lockoutUntilMs, now) ==> KeyLocked(s, key, now);
    }
  }

  /** While the key's own lockout is engaged nothing under it counts: every begin and finish of every check is refused,
      with the right secret too. */
  lemma LockedIsRefused(s: State, key: string, now: nat, username: string, password: string, client: string, t: LoginTicket,
                        p: PinTicket, candidate: string, matched: bool)
    requires OnePerKey(s.attempts) && KeyLocked(s, key, now)
    ensures AuthKey(client, IsOwner(s, username)) == key ==> BeginAuthenticate(s, username, password, client, now).1 == Done(Refused)
    ensures client == key ==> BeginVerify(s, username, password, client, now).1 == Done(Refused)
    ensures t.key == key ==> FinishAuthenticate(s, t, candidate, now).1 == Refused && FinishVerify(s, t, candidate, now).1 == Refused
    ensures key == "" ==> BeginDtmf(s, now).1 == Done(Refused) && FinishDtmf(s, p, matched, now).1 == Refused
  {
    hide KeyLocked, Bucketed, RecordAuth, RecordShared, Touched, Engaged, AuthKey, OnePerKey;
    BucketedIs(s, key, now);
  }
}
