/** Soundness of the login checks over every interleaving of the locked sections, and the bound on
    guesses. */
module LoginRuns {
  import opened Lockouts
  import opened LoginSteps

  // ---------------------------------------------------------------- runs

  /** The locked sections, and the clock.  Tickets are arbitrary: a finish may be anyone's. */
  datatype Event =
    | Tick(ms: nat)
    | StartAuth(username: string, password: string, client: string)
    | EndAuth(t: LoginTicket, candidate: string)
    | StartVerify(username: string, password: string, client: string)
    | EndVerify(t: LoginTicket, candidate: string)
    | StartDtmf
    | EndDtmf(p: PinTicket, matched: bool)
    | NewLogin(username: string, password: string, salt: string, allowed: bool, persisted: bool)
    | NewOwner(username: string, password: string, salt: string, allowed: bool, persisted: bool)
    | NewPin(digits: string, claimed: bool, salt: string, allowed: bool, persisted: bool)
    | Clear

  /** The state, the clock, and history: the salts drawn so far, and for each backstop the times of the
      failures counted since it was last reset. */
  datatype World = World(s: State, now: nat, drawn: set<string>,
                         shared: seq<nat>, sysop: seq<nat>, owner: seq<nat>)

  function Logged(log: seq<nat>, v: Verdict, now: nat): seq<nat> {
    match v case Refused => log case Miss => log + [now] case Hit => []
  }

  function AuthLogged(w: World, s: State, owner: bool, v: Verdict): World {
    if owner then w.(s := s, owner := Logged(w.owner, v, w.now))
    else w.(s := s, sysop := Logged(w.sysop, v, w.now))
  }

  function SharedLogged(w: World, s: State, v: Verdict): World {
    w.(s := s, shared := Logged(w.shared, v, w.now))
  }

  function Started<T>(b: Begun<T>): Verdict {
    match b case Done(v) => v case Hashing(_) => Refused
  }

  function Step(h: Hasher, w: World, e: Event): World {
    match e
    case Tick(ms) => w.(now := w.now + ms)
    case StartAuth(u, p, c) =>
      var (s, b) := BeginAuthenticate(w.s, u, p, c, w.now);
      AuthLogged(w, s, IsOwner(w.s, u), Started(b))
    case EndAuth(t, candidate) =>
      var (s, v) := FinishAuthenticate(w.s, t, candidate, w.now);
      AuthLogged(w, s, t.owner, v)
    case StartVerify(u, p, c) =>
      var (s, b) := BeginVerify(w.s, u, p, c, w.now);
      SharedLogged(w, s, Started(b))
    case EndVerify(t, candidate) =>
      var (s, v) := FinishVerify(w.s, t, candidate, w.now);
      SharedLogged(w, s, v)
    case StartDtmf =>
      SharedLogged(w, BeginDtmf(w.s, w.now).0, Refused)
    case EndDtmf(p, matched) =>
      var (s, v) := FinishDtmf(w.s, p, matched, w.now);
      SharedLogged(w, s, v)
    case NewLogin(u, p, salt, allowed, persisted) =>
      var (s, done) := SetLogin(h, w.s, u, p, salt, allowed, persisted);
      w.(s := s, drawn := w.drawn + {salt}, shared := if done then [] else w.shared)
    case NewOwner(u, p, salt, allowed, persisted) =>
      var (s, done) := SetOwner(h, w.s, u, p, salt, allowed, persisted);
      if done then World(s, w.now, w.drawn + {salt}, [], [], []) else w.(s := s, drawn := w.drawn + {salt})
    case NewPin(digits, claimed, salt, allowed, persisted) =>
      var (s, done) := SetPin(h, w.s, digits, claimed, salt, allowed, persisted);
      w.(s := s, drawn := w.drawn + {salt}, shared := if done then [] else w.shared)
    case Clear => World(Cleared(), w.now, w.drawn, [], [], [])
  }

  /** A setter's salt was never drawn before. */
  predicate Fresh(w: World, e: Event) {
    match e
    case NewLogin(_, _, salt, _, _) => salt !in w.drawn
    case NewOwner(_, _, salt, _, _) => salt !in w.drawn
    case NewPin(_, _, salt, _, _) => salt !in w.drawn
    case _ => true
  }

  function Run(h: Hasher, w: World, events: seq<Event>): World
    decreases |events|
  {
    if events == [] then w else Run(h, Step(h, w, events[0]), events[1..])
  }

  predicate FreshRun(h: Hasher, w: World, events: seq<Event>)
    decreases |events|
  {
    events == [] || (Fresh(w, events[0]) && FreshRun(h, Step(h, w, events[0]), events[1..]))
  }

  // ---------------------------------------------------------------- what every step keeps

  /** The two principals are distinguishable, and every salt in use was drawn. */
  ghost predicate Distinguished(w: World) {
    && (w.s.owner.provisioned ==> w.s.owner.username != w.s.sysop.username)
    && (w.s.sysop.provisioned ==> w.s.sysop.salt in w.drawn)
    && (w.s.owner.provisioned ==> w.s.owner.salt in w.drawn)
    && (w.s.pin.provisioned ==> w.s.pin.salt in w.drawn)
  }

  /** Every backstop agrees with its log, so the counted failures are 20 a trip and spread out. */
  ghost predicate Bounded(w: World) {
    && Metered(20, w.s.shared, w.shared, w.now)
    && Metered(20, w.s.sysopBackstop, w.sysop, w.now)
    && Metered(20, w.s.ownerBackstop, w.owner, w.now)
  }

  ghost predicate Valid(w: World) {
    Distinguished(w) && OnePerKey(w.s.attempts) && Bounded(w)
  }

  /** First boot. */
  lemma BootIsValid(now: nat, drawn: set<string>)
    ensures Valid(World(Cleared(), now, drawn, [], [], []))
  {}

  /** An attempt that its gate let through changes its own backstop and log together. */
  lemma LoggedMeters(g: Backstop, log: seq<nat>, v: Verdict, now: nat)
    requires Metered(20, g, log, now) && (v.Refused? || !Engaged(g.lockoutUntilMs, now))
    ensures Metered(20, if v.Refused? then g else Backstopped(g, v.Hit?, now), Logged(log, v, now), now)
  {
    if v.Miss? {
      MissedKeeps(20, g, log, now, now);
    }
  }

  lemma LaterMeters(g: Backstop, log: seq<nat>, before: nat, now: nat)
    requires Metered(20, g, log, before) && before <= now
    ensures Metered(20, g, log, now)
  {}

  lemma NothingLogged(now: nat)
    ensures Metered(20, NO_BACKSTOP, [], now)
  {}

  predicate IsAttempt(e: Event) {
    e.StartAuth? || e.EndAuth? || e.StartVerify? || e.EndVerify? || e.EndDtmf?
  }

  lemma AttemptKeepsBounds(h: Hasher, w: World, e: Event)
    requires Bounded(w) && IsAttempt(e)
    ensures Bounded(Step(h, w, e))
  {
    hide Metered, Acquire, SlotFor, Backstopped, Charge, AuthKey, VerdictOf, Logged, Engaged, Current, Bucketed, Charged;
    match e {
      case StartAuth(u, p, c) =>
        var v := Started(BeginAuthenticate(w.s, u, p, c, w.now).1);
        var owner := IsOwner(w.s, u);
        GateIsOpen(w.s, AuthKey(c, owner), BackstopOf(w.s, owner), w.now);
        LoggedMeters(BackstopOf(w.s, owner), if owner then w.owner else w.sysop, v, w.now);
      case EndAuth(t, candidate) =>
        var v := FinishAuthenticate(w.s, t, candidate, w.now).1;
        GateIsOpen(w.s, t.key, BackstopOf(w.s, t.owner), w.now);
        LoggedMeters(BackstopOf(w.s, t.owner), if t.owner then w.owner else w.sysop, v, w.now);
      case StartVerify(u, p, c) =>
        GateIsOpen(w.s, c, w.s.shared, w.now);
        LoggedMeters(w.s.shared, w.shared, Started(BeginVerify(w.s, u, p, c, w.now).1), w.now);
      case EndVerify(t, candidate) =>
        GateIsOpen(w.s, t.key, w.s.shared, w.now);
        LoggedMeters(w.s.shared, w.shared, FinishVerify(w.s, t, candidate, w.now).1, w.now);
      case EndDtmf(p, matched) =>
        GateIsOpen(w.s, "", w.s.shared, w.now);
        LoggedMeters(w.s.shared, w.shared, FinishDtmf(w.s, p, matched, w.now).1, w.now);
      case _ =>
    }
    VerdictsAre();
  }

  lemma VerdictsAre()
    ensures VerdictOf(true) == Hit && VerdictOf(false) == Miss
  {}

  lemma GateIsOpen(s: State, key: string, g: Backstop, now: nat)
    ensures !LockedOut(s, key, g, now) ==> !Engaged(g.lockoutUntilMs, now)
  {}

  lemma OtherKeepsBounds(h: Hasher, w: World, e: Event)
    requires Bounded(w) && !IsAttempt(e)
    ensures Bounded(Step(h, w, e))
  {
    hide Metered, Acquire, SlotFor, EmptyTable, UsernameValid, PasswordValid, PinValid, LockedOut;
    NothingLogged(w.now);
    if e.Tick? {
      LaterMeters(w.s.shared, w.shared, w.now, w.now + e.ms);
      LaterMeters(w.s.sysopBackstop, w.sysop, w.now, w.now + e.ms);
      LaterMeters(w.s.ownerBackstop, w.owner, w.now, w.now + e.ms);
    }
  }

  lemma StepKeepsBounds(h: Hasher, w: World, e: Event)
    requires Bounded(w)
    ensures Bounded(Step(h, w, e))
  {
    hide Bounded, Step;
    if IsAttempt(e) {
      AttemptKeepsBounds(h, w, e);
    } else {
      OtherKeepsBounds(h, w, e);
    }
  }

  lemma ChargedKeeps(s: State, key: string, ok: bool, now: nat)
    requires OnePerKey(s.attempts)
    ensures OnePerKey(Acquire(s.attempts, key, now)) && OnePerKey(Charged(s, key, ok, now))
  {
    AcquireKeeps(s.attempts, key, now);
  }

  lemma StepKeepsTable(h: Hasher, w: World, e: Event)
    requires OnePerKey(w.s.attempts)
    ensures OnePerKey(Step(h, w, e).s.attempts)
  {
    hide Acquire, SlotFor, Backstopped, Charged, LockedOut, OnePerKey, UsernameValid, PasswordValid, PinValid;
    EmptyHasOnePerKey();
    match e {
      case StartAuth(u, p, c) =>
        var key := AuthKey(c, IsOwner(w.s, u));
        ChargedKeeps(w.s, key, true, w.now);
        ChargedKeeps(w.s, key, false, w.now);
      case EndAuth(t, candidate) =>
        ChargedKeeps(w.s, t.key, true, w.now);
        ChargedKeeps(w.s, t.key, false, w.now);
      case StartVerify(u, p, c) =>
        ChargedKeeps(w.s, c, true, w.now);
        ChargedKeeps(w.s, c, false, w.now);
      case EndVerify(t, candidate) =>
        ChargedKeeps(w.s, t.key, true, w.now);
        ChargedKeeps(w.s, t.key, false, w.now);
      case StartDtmf =>
        ChargedKeeps(w.s, "", true, w.now);
      case EndDtmf(p, matched) =>
        ChargedKeeps(w.s, "", matched, w.now);
      case _ =>
    }
  }

  lemma EmptyHasOnePerKey()
    ensures OnePerKey(EmptyTable())
  {}

  lemma StepKeepsPrincipals(h: Hasher, w: World, e: Event)
    requires Distinguished(w) && Fresh(w, e)
    ensures Distinguished(Step(h, w, e))
  {
    hide Acquire, SlotFor, Backstopped, Charged, LockedOut, EmptyTable, UsernameValid, PasswordValid, PinValid;
  }

  /** Every step keeps the invariant. */
  lemma StepKeeps(h: Hasher, w: World, e: Event)
    requires Valid(w) && Fresh(w, e)
    ensures Valid(Step(h, w, e))
  {
    hide Distinguished, OnePerKey, Bounded, Step;
    StepKeepsPrincipals(h, w, e);
    StepKeepsTable(h, w, e);
    StepKeepsBounds(h, w, e);
  }

  /** So does every run. */
  lemma {:induction false} RunKeeps(h: Hasher, w: World, events: seq<Event>)
    requires Valid(w) && FreshRun(h, w, events)
    ensures Valid(Run(h, w, events))
    decreases |events|
  {
    hide Valid, Step;
    if events != [] {
      StepKeeps(h, w, events[0]);
      RunKeeps(h, Step(h, w, events[0]), events[1..]);
    }
  }

  // ---------------------------------------------------------------- the guess bound

  /** In every reachable world each backstop - the one verifyCredential and the DTMF check share, and each
      principal's own - bounds the failures counted since its last reset. */
  lemma GuessBound(h: Hasher, w: World, events: seq<Event>, n: nat)
    requires Valid(w) && FreshRun(h, w, events)
    ensures var r := Run(h, w, events);
            && BoundsGuesses(20, r.s.shared, r.shared, n)
            && BoundsGuesses(20, r.s.sysopBackstop, r.sysop, n)
            && BoundsGuesses(20, r.s.ownerBackstop, r.owner, n)
  {
    hide Step, Run, BoundsGuesses, Metered;
    RunKeeps(h, w, events);
    var r := Run(h, w, events);
    MeteredBounds(20, r.s.shared, r.shared, r.now, n);
    MeteredBounds(20, r.s.sysopBackstop, r.sysop, r.now, n);
    MeteredBounds(20, r.s.ownerBackstop, r.owner, r.now, n);
  }

  // ---------------------------------------------------------------- fresh salts identify credentials

  /** What w has of the salts that w0 had drawn, w0 had the same. */
  ghost predicate Descends(w0: World, w: World) {
    && (w.s.sysop.provisioned && w.s.sysop.salt in w0.drawn ==> w.s.sysop == w0.s.sysop)
    && (w.s.owner.provisioned && w.s.owner.salt in w0.drawn ==> w.s.owner == w0.s.owner)
    && (w.s.pin.provisioned && w.s.pin.salt in w0.drawn ==> w.s.pin == w0.s.pin)
    && w0.drawn <= w.drawn
  }

  lemma StepDescends(h: Hasher, w0: World, w: World, e: Event)
    requires Descends(w0, w) && Fresh(w, e)
    ensures Descends(w0, Step(h, w, e))
  {
    hide Acquire, SlotFor, Backstopped, Charged, LockedOut, EmptyTable, UsernameValid, PasswordValid, PinValid;
  }

  lemma {:induction false} RunDescends(h: Hasher, w0: World, w: World, events: seq<Event>)
    requires Descends(w0, w) && FreshRun(h, w, events)
    ensures Descends(w0, Run(h, w, events))
    decreases |events|
  {
    hide Descends, Step;
    if events != [] {
      StepDescends(h, w0, w, events[0]);
      RunDescends(h, w0, Step(h, w, events[0]), events[1..]);
    }
  }

  // ---------------------------------------------------------------- soundness

  /** Whatever runs between the two locked sections of authenticate, it succeeds only if the same check
      in one locked step at the finish would, with the same role and the same effect.  If the credential
      was replaced or cleared it changes nothing; if a lockout is engaged it counts nothing; and while the
      name still resolves to the same principal it is exactly the one-step check. */
  lemma AuthenticateSound(h: Hasher, w: World, username: string, password: string, client: string, events: seq<Event>)
    requires Valid(w)
    requires BeginAuthenticate(w.s, username, password, client, w.now).1.Hashing?
    requires FreshRun(h, Step(h, w, StartAuth(username, password, client)), events)
    ensures var t := BeginAuthenticate(w.s, username, password, client, w.now).1.ticket;
            var r := Run(h, Step(h, w, StartAuth(username, password, client)), events);
            var (s, v) := FinishAuthenticate(r.s, t, h(t.salt, password), r.now);
            var (s', v') := AtomicAuthenticate(h, r.s, username, password, client, r.now);
            && (v.Hit? ==> v'.Hit? && s' == s && IsOwner(r.s, username) == t.owner)
            && (!Current(r.s, t) ==> s == r.s && v.Refused?)
            && (LockedOut(r.s, t.key, BackstopOf(r.s, t.owner), r.now) ==>
                  v.Refused? && (s == r.s || s == Touched(r.s, t.key, r.now)))
            && (Current(r.s, t) && IsOwner(r.s, username) == t.owner ==> (s, v) == (s', v'))
  {
    hide Step, Run, LockedOut, Touched, RecordAuth, OnePerKey, Bounded;
    var t := BeginAuthenticate(w.s, username, password, client, w.now).1.ticket;
    var w1 := Step(h, w, StartAuth(username, password, client));
    StartKeepsCredentials(h, w, username, password, client);
    RunDescends(h, w, w1, events);
    StepKeeps(h, w, StartAuth(username, password, client));
    RunKeeps(h, w1, events);
  }

  lemma StartKeepsCredentials(h: Hasher, w: World, username: string, password: string, client: string)
    ensures Descends(w, Step(h, w, StartAuth(username, password, client)))
    ensures Descends(w, Step(h, w, StartVerify(username, password, client)))
    ensures Descends(w, Step(h, w, StartDtmf))
  {
    hide Acquire, SlotFor, Backstopped, Charged, LockedOut, EmptyTable;
  }

  /** The same for verifyCredential, which is exactly the one-step check unless the credential was
      replaced, when it changes nothing. */
  lemma VerifySound(h: Hasher, w: World, username: string, password: string, client: string, events: seq<Event>)
    requires Valid(w)
    requires BeginVerify(w.s, username, password, client, w.now).1.Hashing?
    requires FreshRun(h, Step(h, w, StartVerify(username, password, client)), events)
    ensures var t := BeginVerify(w.s, username, password, client, w.now).1.ticket;
            var r := Run(h, Step(h, w, StartVerify(username, password, client)), events);
            FinishVerify(r.s, t, h(t.salt, password), r.now) ==
            if Current(r.s, t) then AtomicVerify(h, r.s, username, password, client, r.now) else (r.s, Refused)
  {
    hide Step, Run, LockedOut, Touched, RecordShared, OnePerKey, Bounded;
    StartKeepsCredentials(h, w, username, password, client);
    RunDescends(h, w, Step(h, w, StartVerify(username, password, client)), events);
  }

  /** And for the DTMF check: begin, match with the mutex released, finish. */
  lemma DtmfSound(h: Hasher, w: World, digits: string, events: seq<Event>)
    requires BeginDtmf(w.s, w.now).1.Hashing?
    ensures var t := BeginDtmf(w.s, w.now).1.ticket;
            var r := Run(h, Step(h, w, StartDtmf), events);
            FinishDtmf(r.s, t, h(t.salt, digits) == t.hash, r.now) ==
            if PinCurrent(r.s, t) then AtomicDtmf(h, r.s, digits, r.now) else (r.s, Refused)
  {
    hide Step, Run, LockedOut, Touched, RecordShared;
  }
}
