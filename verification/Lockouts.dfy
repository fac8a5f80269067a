/** Brute-force accounting of src/Helpers/AdminAuth.cpp: the table of per-client buckets, and the
    aggregate backstops that escalate. */
module Lockouts {
  import opened Numbers

  const MAX_FAILED_ATTEMPTS := 5
  const LOCKOUT_MS := 60_000
  const MAX_ATTEMPT_BUCKETS := 8
  const MAX_LOCKOUT_SHIFT := 4
  const MAX_FAILED_ATTEMPTS_GLOBAL := 20

  /** How long the lockout of trip `trips` lasts: kLockoutMs << shift. */
  function Cooldown(trips: nat): (ms: nat)
    requires trips > 0
    ensures ms >= LOCKOUT_MS
  {
    var shift := if trips - 1 < MAX_LOCKOUT_SHIFT then trips - 1 else MAX_LOCKOUT_SHIFT;
    LOCKOUT_MS * Pow2(shift)
  }

  /** One, two, four, eight minutes, and sixteen from the fifth trip on. */
  lemma CooldownsDouble(trips: nat)
    requires trips > 0
    ensures Cooldown(1) == 60_000 && Cooldown(2) == 120_000 && Cooldown(3) == 240_000 && Cooldown(4) == 480_000
    ensures trips >= 5 ==> Cooldown(trips) == 960_000
  {
    assert Pow2(0) == 1 && Pow2(1) == 2 && Pow2(2) == 4 && Pow2(3) == 8 && Pow2(4) == 16;
  }

  predicate Engaged(lockoutUntilMs: nat, now: nat) { lockoutUntilMs != 0 && now < lockoutUntilMs }

  // ---------------------------------------------------------------- buckets

  datatype Bucket = Bucket(key: string, used: bool, failures: nat, trips: nat, lockoutUntilMs: nat, lastSeenMs: nat)

  const NO_BUCKET := Bucket("", false, 0, 0, 0, 0)

  /** An attempt charged to a bucket. */
  function Charge(b: Bucket, ok: bool, now: nat): (r: Bucket)
    ensures r.key == b.key && r.used == b.used && r.lastSeenMs == b.lastSeenMs
  {
    if ok then b.(failures := 0, trips := 0, lockoutUntilMs := 0)
    else if b.failures + 1 >= MAX_FAILED_ATTEMPTS then
      b.(failures := 0, trips := b.trips + 1, lockoutUntilMs := now + Cooldown(b.trips + 1))
    else b.(failures := b.failures + 1)
  }

  // ---------------------------------------------------------------- the table

  type Table = t: seq<Bucket> | |t| == MAX_ATTEMPT_BUCKETS
    witness [NO_BUCKET, NO_BUCKET, NO_BUCKET, NO_BUCKET, NO_BUCKET, NO_BUCKET, NO_BUCKET, NO_BUCKET]

  function EmptyTable(): Table {
    [NO_BUCKET, NO_BUCKET, NO_BUCKET, NO_BUCKET, NO_BUCKET, NO_BUCKET, NO_BUCKET, NO_BUCKET]
  }

  predicate Holds(t: Table, i: nat, key: string) { i < |t| && t[i].used && t[i].key == key }

  /** The first slot, at or after i, that holds the key; |t| if none does. */
  function Find(t: Table, key: string, i: nat): (r: nat)
    requires i <= |t|
    ensures i <= r <= |t|
    ensures r < |t| ==> Holds(t, r, key)
    ensures forall j :: i <= j < r ==> !Holds(t, j, key)
    decreases |t| - i
  {
    if i == |t| || Holds(t, i, key) then i else Find(t, key, i + 1)
  }

  /** The slot to recycle, seen from slot i with the best keyed slot so far: the first free slot, else
      the keyed slot seen least recently; |t| if there is neither. */
  function Victim(t: Table, i: nat, best: nat): (r: nat)
    requires i <= |t| && best <= |t|
    ensures r <= |t|
    decreases |t| - i
  {
    if i == |t| then best
    else if !t[i].used then i
    else if t[i].key == "" then Victim(t, i + 1, best)
    else if best == |t| || t[i].lastSeenMs < t[best].lastSeenMs then Victim(t, i + 1, i)
    else Victim(t, i + 1, best)
  }

  /** The slot that an attempt under the key is charged to. */
  function SlotFor(t: Table, key: string): (i: nat)
    ensures i < |t|
  {
    var found := Find(t, key, 0);
    if found < |t| then found
    else
      var victim := Victim(t, 0, |t|);
      if victim < |t| then victim else 0
  }

  /** acquireBucketLocked: the table after it, with SlotFor(t, key) touched or recycled. */
  function Acquire(t: Table, key: string, now: nat): (r: Table) {
    var i := SlotFor(t, key);
    t[i := if Holds(t, i, key) then t[i].(lastSeenMs := now) else Bucket(key, true, 0, 0, 0, now)]
  }

  /** One slot per key. */
  ghost predicate OnePerKey(t: Table) {
    forall i, j :: 0 <= i < |t| && 0 <= j < |t| && t[i].used && t[j].used && t[i].key == t[j].key ==> i == j
  }

  // ---------------------------------------------------------------- what the table keeps

  predicate Better(t: Table, i: nat, best: nat)
    requires i < |t| && best < |t|
  {
    t[best].lastSeenMs <= t[i].lastSeenMs
  }

  /** What Victim returns. */
  ghost predicate IsVictim(t: Table, r: nat) {
    && r < |t|
    && (t[r].used ==> t[r].key != "" && forall i: nat :: i < |t| ==> t[i].used && (t[i].key != "" ==> Better(t, i, r)))
    && (!t[r].used ==> forall i: nat :: i < r ==> t[i].used)
  }

  lemma SomeSlotIsKeyed(t: Table)
    requires OnePerKey(t) && forall j: nat :: j < |t| ==> t[j].used
    ensures exists j: nat :: j < |t| && t[j].key != ""
  {
    assert t[0].key == "" ==> t[1].key != "";
  }

  lemma {:induction false} VictimIsOldest(t: Table, i: nat, best: nat)
    requires i <= |t| && best <= i
    requires forall j: nat :: j < i ==> t[j].used
    requires best == i ==> forall j: nat :: j < i ==> t[j].key == ""
    requires best < i ==> t[best].key != "" && forall j: nat :: j < i && t[j].key != "" ==> Better(t, j, best)
    requires OnePerKey(t)
    ensures IsVictim(t, Victim(t, i, if best < i then best else |t|))
    decreases |t| - i
  {
    if i == |t| {
      SomeSlotIsKeyed(t);
    } else if t[i].used {
      if t[i].key == "" {
        VictimIsOldest(t, i + 1, if best == i then i + 1 else best);
      } else if best == i || t[i].lastSeenMs < t[best].lastSeenMs {
        VictimIsOldest(t, i + 1, i);
      } else {
        VictimIsOldest(t, i + 1, best);
      }
    }
  }

  /** The table keeps one slot per key; only one slot changes, and it ends up holding the key.  It held
      the key already, or was free, or was, with no slot free, the keyed one seen least recently: the
      unkeyed bucket is never recycled. */
  lemma AcquireKeeps(t: Table, key: string, now: nat)
    requires OnePerKey(t)
    ensures var r, i := Acquire(t, key, now), SlotFor(t, key);
            && OnePerKey(r) && Holds(r, i, key)
            && (forall j: nat :: j < |t| && j != i ==> r[j] == t[j])
            && (Holds(t, i, key) ==> r[i] == t[i].(lastSeenMs := now))
            && (!Holds(t, i, key) ==>
                  r[i] == Bucket(key, true, 0, 0, 0, now) && IsVictim(t, i) && forall j: nat :: j < |t| ==> !Holds(t, j, key))
  {
    VictimIsOldest(t, 0, 0);
    var r, i := Acquire(t, key, now), SlotFor(t, key);
    forall j: nat | j < |t| && j != i && r[j].used
      ensures r[j].key != key
    {
      assert Holds(t, i, key) || !Holds(t, j, key);
    }
  }

  /** A client's history, the unkeyed one's above all, survives any attempt under another key, unless
      its slot was the keyed one seen least recently in a full table. */
  lemma HistorySurvives(t: Table, key: string, now: nat, other: string, j: nat)
    requires OnePerKey(t) && other != key && Holds(t, j, other)
    ensures Acquire(t, key, now)[j] == t[j]
            || (other != "" && forall i: nat :: i < |t| ==> t[i].used && (t[i].key != "" ==> Better(t, i, j)))
  {
    AcquireKeeps(t, key, now);
    var i := SlotFor(t, key);
    if i == j {
      assert IsVictim(t, i);
    }
  }

  // ---------------------------------------------------------------- aggregate backstops

  datatype Backstop = Backstop(failures: nat, trips: nat, lockoutUntilMs: nat)

  const NO_BACKSTOP := Backstop(0, 0, 0)

  /** One more failure, with a lockout at every limit-th. */
  function Missed(limit: nat, g: Backstop, now: nat): Backstop {
    if g.failures + 1 >= limit then Backstop(0, g.trips + 1, now + Cooldown(g.trips + 1))
    else g.(failures := g.failures + 1)
  }

  function Backstopped(g: Backstop, ok: bool, now: nat): Backstop {
    if ok then NO_BACKSTOP else Missed(MAX_FAILED_ATTEMPTS_GLOBAL, g, now)
  }

  /** A bucket counts like a backstop, with a limit of its own. */
  function Meter(b: Bucket): Backstop { Backstop(b.failures, b.trips, b.lockoutUntilMs) }

  lemma ChargeMeters(b: Bucket, ok: bool, now: nat)
    ensures Meter(Charge(b, ok, now)) == if ok then NO_BACKSTOP else Missed(MAX_FAILED_ATTEMPTS, Meter(b), now)
  {}

  /** The failures of k trips. */
  function Tripped(limit: nat, k: nat): nat { limit * k }

  lemma TrippedRises(limit: nat, k: nat, m: nat)
    ensures Tripped(limit, 0) == 0 && Tripped(limit, k + 1) == Tripped(limit, k) + limit
    ensures k < m ==> Tripped(limit, k) + limit <= Tripped(limit, m)
  {
    if k < m {
      assert limit * m == limit * (k + 1) + limit * (m - k - 1);
    }
  }

  /** The failures counted since a last reset, by their times: none of those after trip k comes before its cooldown has
      passed. */
  ghost predicate Spaced(limit: nat, log: seq<nat>) {
    forall k: nat, j: nat :: 0 < k && 0 < Tripped(limit, k) <= j < |log| ==> After(limit, log, k, j)
  }

  ghost predicate After(limit: nat, log: seq<nat>, k: nat, j: nat)
    requires 0 < k && 0 < Tripped(limit, k) <= j < |log|
  {
    log[j] >= log[Tripped(limit, k) - 1] + Cooldown(k)
  }

  /** When trip k of a log is over. */
  ghost predicate OverBy(limit: nat, log: seq<nat>, k: nat, at: nat) {
    0 < k && 0 < Tripped(limit, k) <= |log| && at >= log[Tripped(limit, k) - 1] + Cooldown(k)
  }

  /** A counter and the log of its counted failures agree. */
  ghost predicate Metered(limit: nat, g: Backstop, log: seq<nat>, now: nat) {
    && g.failures < limit
    && |log| == Tripped(limit, g.trips) + g.failures
    && (forall j :: 0 <= j < |log| ==> log[j] <= now)
    && (if g.trips == 0 then g.lockoutUntilMs == 0
        else 0 < Tripped(limit, g.trips) && g.lockoutUntilMs == log[Tripped(limit, g.trips) - 1] + Cooldown(g.trips))
    && (forall k: nat :: 0 < k < g.trips ==> OverBy(limit, log, k, g.lockoutUntilMs))
    && Spaced(limit, log)
  }

  /** One more failure, counted only when no lockout is engaged, keeps them in agreement. */
  lemma MissedKeeps(limit: nat, g: Backstop, log: seq<nat>, before: nat, now: nat)
    requires Metered(limit, g, log, before) && before <= now && !Engaged(g.lockoutUntilMs, now)
    ensures Metered(limit, Missed(limit, g, now), log + [now], now)
  {
    hide Cooldown, Tripped;
    var log' := log + [now];
    TrippedRises(limit, g.trips, g.trips);
    forall k: nat, j: nat | 0 < k && 0 < Tripped(limit, k) <= j < |log'|
      ensures After(limit, log', k, j)
    {
      TrippedRises(limit, g.trips, k);
      if j < |log| {
        assert After(limit, log, k, j);
      } else if k < g.trips {
        assert OverBy(limit, log, k, g.lockoutUntilMs);
      }
    }
    var g' := Missed(limit, g, now);
    if g'.trips > g.trips {
      forall k: nat | 0 < k < g'.trips
        ensures OverBy(limit, log', k, g'.lockoutUntilMs)
      {
        TrippedRises(limit, k, g.trips);
        TrippedRises(limit, 0, k);
        assert After(limit, log', k, |log|);
      }
    } else {
      forall k: nat | 0 < k < g'.trips
        ensures OverBy(limit, log', k, g'.lockoutUntilMs)
      {
        assert OverBy(limit, log, k, g.lockoutUntilMs);
      }
    }
  }

  /** The least time that trips 2 to n take after trip 1. */
  function Waiting(n: nat): nat {
    if n < 2 then 0 else Waiting(n - 1) + Cooldown(n - 1)
  }

  /** The guess bound: n trips since the last reset span at least the cooldowns between them. */
  lemma {:induction false} GuessesAreSpread(limit: nat, log: seq<nat>, n: nat)
    requires Spaced(limit, log) && 0 < n && 0 < limit && Tripped(limit, n) <= |log|
    ensures 0 < Tripped(limit, 1) <= Tripped(limit, n)
    ensures log[Tripped(limit, n) - 1] >= log[Tripped(limit, 1) - 1] + Waiting(n)
  {
    hide Tripped, Cooldown;
    TrippedRises(limit, n - 1, n);
    TrippedRises(limit, 0, 0);
    if n > 1 {
      TrippedRises(limit, 1, n);
      TrippedRises(limit, 1, n - 1);
      GuessesAreSpread(limit, log, n - 1);
      assert After(limit, log, n - 1, Tripped(limit, n) - 1);
    }
  }

  /** What a counter bounds: the failures counted since its last reset, `limit` a trip and fewer than that more; and the
      n-th trip among them comes after all the cooldowns before it. */
  ghost predicate BoundsGuesses(limit: nat, g: Backstop, log: seq<nat>, n: nat)
    requires limit > 0
  {
    && |log| == limit * g.trips + g.failures && g.failures < limit
    && (0 < n <= g.trips ==> limit <= limit * n <= |log| && log[limit * n - 1] >= log[limit - 1] + Waiting(n))
    && (0 < n < g.trips ==> limit * n + limit <= |log| && log[limit * n + limit - 1] >= log[limit * n - 1] + Cooldown(n))
  }

  lemma MeteredBounds(limit: nat, g: Backstop, log: seq<nat>, now: nat, n: nat)
    requires limit > 0 && Metered(limit, g, log, now)
    ensures BoundsGuesses(limit, g, log, n)
  {
    hide Cooldown, Waiting;
    TrippedIs(limit, n);
    TrippedIs(limit, g.trips);
    hide Tripped;
    if 0 < n <= g.trips {
      TrippedRises(limit, n, g.trips);
      TrippedRises(limit, 0, n);
      GuessesAreSpread(limit, log, n);
      if n < g.trips {
        assert After(limit, log, n, Tripped(limit, n + 1) - 1);
      }
    }
  }

  lemma TrippedIs(limit: nat, k: nat)
    ensures Tripped(limit, k) == limit * k && Tripped(limit, 1) == limit
  {}

  /** After the fifth trip every further one costs sixteen minutes. */
  lemma {:induction false} WaitingGrows(n: nat)
    requires n >= 5
    ensures Waiting(n) == 15 * LOCKOUT_MS + (n - 5) * 16 * LOCKOUT_MS
    decreases n
  {
    assert Pow2(0) == 1 && Pow2(1) == 2;
    assert Pow2(2) == 4 && Pow2(3) == 8 && Pow2(4) == 16;
    if n == 5 {
      assert Cooldown(1) == LOCKOUT_MS && Cooldown(2) == 2 * LOCKOUT_MS;
      assert Cooldown(3) == 4 * LOCKOUT_MS && Cooldown(4) == 8 * LOCKOUT_MS;
      assert Waiting(2) == LOCKOUT_MS;
      assert Waiting(3) == 3 * LOCKOUT_MS;
      assert Waiting(4) == 7 * LOCKOUT_MS;
    } else {
      WaitingGrows(n - 1);
      assert Cooldown(n - 1) == 16 * LOCKOUT_MS;
    }
  }
}
