/** The schema plan and the migration walk of src/Helpers/DeviceConfig.cpp. */
module SchemaWalk {

  /** A uint16_t. */
  type Version = v: nat | v < 0x1_0000

  const BASELINE: Version := 1

  // ---------------------------------------------------------------- the plan

  datatype Probe = Probe(storeReadable: bool, versionPresent: bool, version: Version, hasExistingData: bool)

  datatype Outcome = FreshInstall | AdoptedLegacy | UpToDate | Migrated | MigrationFailed | Downgrade | StoreUnavailable

  datatype Plan = Plan(outcome: Outcome, fromVersion: Version, toVersion: Version, migrate: bool, stamp: bool)

  /** planSchema. */
  function PlanSchema(probe: Probe, current: Version): Plan {
    if !probe.storeReadable then Plan(StoreUnavailable, 0, 0, false, false)
    else
      var haveVersion := probe.versionPresent && probe.version != 0;
      var from := if haveVersion then probe.version else if probe.hasExistingData then BASELINE else current;
      var outcome :=
        if !haveVersion then (if probe.hasExistingData then AdoptedLegacy else FreshInstall)
        else if from > current then Downgrade
        else if from < current then Migrated else UpToDate;
      Plan(outcome, from, current, outcome != Downgrade && from < current,
           outcome != Downgrade && outcome != UpToDate)
  }

  /** What each plan promises: an unreadable store is never taken for a blank one, data without a stamp starts from
      version 1 and never from the current one, a newer stamp is left alone, and an up-to-date boot writes
      nothing. */
  lemma PlanIsSafe(probe: Probe, current: Version)
    requires current >= BASELINE
    ensures var plan := PlanSchema(probe, current);
            && (plan.outcome == FreshInstall ==> probe.storeReadable && !probe.hasExistingData)
            && (probe.storeReadable && probe.hasExistingData && (!probe.versionPresent || probe.version == 0) ==>
                  plan.outcome == AdoptedLegacy && plan.fromVersion == 1 && (plan.migrate <==> current > 1))
            && (probe.storeReadable && probe.versionPresent && probe.version > current ==>
                  !plan.migrate && !plan.stamp && plan.fromVersion == probe.version)
            && (plan.migrate ==> plan.stamp && plan.fromVersion < plan.toVersion == current)
            && (!plan.migrate && !plan.stamp <==>
                  !probe.storeReadable || (probe.versionPresent && probe.version != 0 && probe.version >= current))
  {}

  // ---------------------------------------------------------------- the walk

  /** One row of the table; runnable when its function is not null. */
  datatype Row = Row(from: Version, to: Version, runnable: bool)

  /** How the steps and the stamps of one run go: by the version they start from, which is enough because no version
      comes twice. */
  datatype Luck = Luck(step: Version -> bool, stamp: Version -> bool)

  /** The first row that starts at a version; |table| if there is none. */
  function RowAt(table: seq<Row>, at: Version, i: nat): (r: nat)
    requires i <= |table|
    ensures i <= r <= |table|
    ensures r < |table| ==> table[r].from == at
    decreases |table| - i
  {
    if i == |table| || table[i].from == at then i else RowAt(table, at, i + 1)
  }

  /** A row that leads on from a version. */
  predicate Leads(table: seq<Row>, at: Version) {
    var r := RowAt(table, at, 0);
    r < |table| && table[r].runnable && table[r].to > at
  }

  function Target(table: seq<Row>, at: Version): Version
    requires Leads(table, at)
  {
    table[RowAt(table, at, 0)].to
  }

  /** Where a walk stopped, whether it got there, and the versions it stamped on the way. */
  datatype Walked = Walked(ok: bool, reached: Version, stamped: seq<Version>)

  /** The walk with no guard: it rises with every step, so it ends. */
  function Walk(table: seq<Row>, at: Version, to: Version, luck: Luck): (w: Walked)
    decreases if at < to then to - at else 0
  {
    if at >= to then Walked(true, at, [])
    else if !Leads(table, at) || !luck.step(at) || !luck.stamp(at) then Walked(false, at, [])
    else
      var next := Target(table, at);
      var rest := Walk(table, next, to, luck);
      rest.(stamped := [next] + rest.stamped)
  }

  /** The rows a walk uses, in order. */
  function Used(table: seq<Row>, at: Version, to: Version, luck: Luck): (rows: seq<nat>)
    ensures |rows| == |Walk(table, at, to, luck).stamped|
    decreases if at < to then to - at else 0
  {
    if at >= to || !Leads(table, at) || !luck.step(at) || !luck.stamp(at) then []
    else [RowAt(table, at, 0)] + Used(table, Target(table, at), to, luck)
  }

  /** Versions rise strictly, and the last one stamped is where the walk stopped. */
  lemma {:induction false} WalkRises(table: seq<Row>, at: Version, to: Version, luck: Luck)
    ensures var w := Walk(table, at, to, luck);
            && (forall i :: 0 <= i < |w.stamped| ==> at < w.stamped[i] <= w.reached)
            && (forall i, j :: 0 <= i < j < |w.stamped| ==> w.stamped[i] < w.stamped[j])
            && w.reached == (if w.stamped == [] then at else w.stamped[|w.stamped| - 1])
            && (w.ok <==> w.reached >= to)
    decreases if at < to then to - at else 0
  {
    hide RowAt;
    if at < to && Leads(table, at) && luck.step(at) && luck.stamp(at) {
      WalkRises(table, Target(table, at), to, luck);
    }
  }

  /** Rows of the table that start at or above a version, each different. */
  ghost predicate DistinctFrom(table: seq<Row>, rows: seq<nat>, at: Version) {
    && (forall i :: 0 <= i < |rows| ==> rows[i] < |table| && at <= table[rows[i]].from)
    && (forall i, j :: 0 <= i < j < |rows| ==> rows[i] != rows[j])
  }

  lemma DistinctMore(table: seq<Row>, row: nat, rows: seq<nat>, at: Version, next: Version)
    requires row < |table| && table[row].from == at < next && DistinctFrom(table, rows, next)
    ensures DistinctFrom(table, [row] + rows, at)
  {
    forall i | 0 <= i < |rows|
      ensures rows[i] != row
    {
      assert next <= table[rows[i]].from;
    }
  }

  /** No row is used twice. */
  lemma {:induction false} RowsAreUsedOnce(table: seq<Row>, at: Version, to: Version, luck: Luck)
    ensures DistinctFrom(table, Used(table, at, to, luck), at)
    decreases if at < to then to - at else 0
  {
    hide DistinctFrom;
    if at < to && Leads(table, at) && luck.step(at) && luck.stamp(at) {
      var next := Target(table, at);
      RowsAreUsedOnce(table, next, to, luck);
      DistinctMore(table, RowAt(table, at, 0), Used(table, next, to, luck), at, next);
    } else {
      NothingUsed(table, at);
    }
  }

  lemma NothingUsed(table: seq<Row>, at: Version)
    ensures DistinctFrom(table, [], at)
  {}

  /** So many different numbers below n are at most n. */
  lemma {:induction false} DistinctBelow(rows: seq<nat>, n: nat)
    requires forall i :: 0 <= i < |rows| ==> rows[i] < n
    requires forall i, j :: 0 <= i < j < |rows| ==> rows[i] != rows[j]
    ensures |rows| <= n
  {
    assert rows != [] ==> rows[0] < n;
    if n == 0 {
    } else if exists k :: 0 <= k < |rows| && rows[k] == n - 1 {
      var k :| 0 <= k < |rows| && rows[k] == n - 1;
      var rest := rows[..k] + rows[k + 1..];
      forall i | 0 <= i < |rest|
        ensures rest[i] < n - 1
      {
        assert rest[i] == rows[if i < k then i else i + 1];
      }
      forall i, j | 0 <= i < j < |rest|
        ensures rest[i] != rest[j]
      {
        assert rest[i] == rows[if i < k then i else i + 1] && rest[j] == rows[if j < k then j else j + 1];
      }
      DistinctBelow(rest, n - 1);
    } else {
      DistinctBelow(rows, n - 1);
    }
  }

  /** A walk takes no more steps than the table has rows. */
  lemma StepsFitTable(table: seq<Row>, at: Version, to: Version, luck: Luck)
    ensures |Walk(table, at, to, luck).stamped| <= |table|
  {
    hide Used, Walk;
    RowsAreUsedOnce(table, at, to, luck);
    var rows := Used(table, at, to, luck);
    DistinctBelow(rows, |table|);
  }

  // ---------------------------------------------------------------- the loop

  /** The stamp in the store, if there is one. */
  datatype Stored = Absent | Stamp(version: Version)

  /** The store, and history: the versions whose conversion was started. */
  class Store {
    var stored: Stored
    ghost var started: seq<Version>

    constructor (stored: Stored)
      ensures this.stored == stored && started == []
    {
      this.stored := stored;
      started := [];
    }

    method Step(at: Version, luck: Luck) returns (ok: bool)
      modifies `started
      ensures ok == luck.step(at) && started == old(started) + [at]
    {
      started := started + [at];
      ok := luck.step(at);
    }

    method WriteStamp(to: Version, succeeds: bool) returns (ok: bool)
      modifies `stored
      ensures ok == succeeds && stored == if ok then Stamp(to) else old(stored)
    {
      ok := succeeds;
      if ok { stored := Stamp(to); }
    }
  }

  method FindRow(table: seq<Row>, at: Version) returns (i: nat)
    ensures i == RowAt(table, at, 0)
  {
    i := 0;
    while i < |table|
      invariant i <= |table| && RowAt(table, at, 0) == RowAt(table, at, i)
    {
      if table[i].from == at { return; }
      i := i + 1;
    }
  }

  /** The conversions a walk starts: every version it steps from. */
  function Started(table: seq<Row>, at: Version, to: Version, luck: Luck): seq<Version>
    decreases if at < to then to - at else 0
  {
    if at >= to || !Leads(table, at) then []
    else if !luck.step(at) || !luck.stamp(at) then [at]
    else [at] + Started(table, Target(table, at), to, luck)
  }

  /** runSchemaMigrations, with its guard of count + 1 steps: exactly the walk that has none, for every table, cyclic
      or with gaps.  Every version reached is stamped before the next step starts. */
  method RunSchemaMigrations(from: Version, to: Version, table: seq<Row>, luck: Luck, store: Store)
    returns (ok: bool, reached: Version)
    modifies store
    ensures ok == Walk(table, from, to, luck).ok && reached == Walk(table, from, to, luck).reached
    ensures store.stored == if Walk(table, from, to, luck).stamped == [] then old(store.stored) else Stamp(reached)
    ensures store.started == old(store.started) + Started(table, from, to, luck)
  {
    hide Leads;
    reached := from;
    if from >= to { return true, reached; }
    StepsFitTable(table, from, to, luck);
    var at := from;
    ghost var steps: seq<Version> := [];
    var guard := 0;
    while at < to && guard <= |table|
      invariant guard <= |table| + 1
      invariant at == reached && from <= at
      invariant store.stored == if steps == [] then old(store.stored) else Stamp(at)
      invariant Walk(table, from, to, luck) == Walk(table, at, to, luck).(stamped := steps + Walk(table, at, to, luck).stamped)
      invariant |steps| == guard
      invariant store.started + Started(table, at, to, luck) == old(store.started) + Started(table, from, to, luck)
    {
      var row := FindRow(table, at);
      if row == |table| || !table[row].runnable || table[row].to <= at {
        NoWay(table, at);
        return false, reached;
      }
      Way(table, at);
      ghost var before := store.started;
      var stepped := store.Step(at, luck);
      if !stepped { return false, reached; }
      var stamped := store.WriteStamp(table[row].to, luck.stamp(at));
      if !stamped { return false, reached; }
      ghost var next := table[row].to;
      assert steps + ([next] + Walk(table, next, to, luck).stamped) == steps + [next] + Walk(table, next, to, luck).stamped;
      assert before + ([at] + Started(table, next, to, luck)) == store.started + Started(table, next, to, luck);
      steps := steps + [next];
      at := table[row].to;
      reached := at;
      guard := guard + 1;
    }
    ok := at >= to;
  }

  lemma NoWay(table: seq<Row>, at: Version)
    requires var r := RowAt(table, at, 0); r == |table| || !table[r].runnable || table[r].to <= at
    ensures !Leads(table, at)
  {}

  lemma Way(table: seq<Row>, at: Version)
    requires var r := RowAt(table, at, 0); r < |table| && table[r].runnable && table[r].to > at
    ensures Leads(table, at) && Target(table, at) == table[RowAt(table, at, 0)].to
  {}

  // ---------------------------------------------------------------- running again

  /** A version leads on exactly if the first row that starts from it can run and rises; and to where that row says. */
  lemma {:induction false} FirstRowLeads(table: seq<Row>, at: Version, i: nat)
    requires i <= |table|
    ensures forall k :: i <= k < RowAt(table, at, i) ==> table[k].from != at
    ensures i == 0 ==> (Leads(table, at) <==> exists r: nat :: IsFirst(table, at, r) && table[r].runnable && table[r].to > at)
    ensures i == 0 && Leads(table, at) ==> IsFirst(table, at, RowAt(table, at, 0)) && Target(table, at) == table[RowAt(table, at, 0)].to
    decreases |table| - i
  {
    if i < |table| && table[i].from != at {
      FirstRowLeads(table, at, i + 1);
    }
    if i == 0 && Leads(table, at) {
      assert IsFirst(table, at, RowAt(table, at, 0));
    }
  }

  predicate IsFirst(table: seq<Row>, at: Version, r: nat) {
    r < |table| && table[r].from == at && forall k :: 0 <= k < r ==> table[k].from != at
  }

  /** The walk step by step: it goes on from each version as its row says, stamps each version it comes to, stops short
      only where there is no way on or a step or a stamp failed, and starts a conversion just where there is a way. */
  lemma {:induction false} WalkSteps(table: seq<Row>, at: Version, to: Version, luck: Luck)
    ensures var w := Walk(table, at, to, luck);
            var visited := [at] + w.stamped;
            && (forall i :: 0 <= i < |w.stamped| ==> StepsOn(table, visited[i], visited[i + 1], to, luck))
            && (w.reached < to ==> !Leads(table, w.reached) || !luck.step(w.reached) || !luck.stamp(w.reached))
            && Started(table, at, to, luck) == (if w.reached < to && Leads(table, w.reached) then visited else visited[..|w.stamped|])
    decreases if at < to then to - at else 0
  {
    hide Leads, Target;
    if at < to && Leads(table, at) && luck.step(at) && luck.stamp(at) {
      var next := Target(table, at);
      WayOn(table, at);
      WalkSteps(table, next, to, luck);
      var w, rest := Walk(table, at, to, luck), Walk(table, next, to, luck);
      assert [at] + w.stamped == [at] + ([next] + rest.stamped);
      forall i | 0 <= i < |w.stamped|
        ensures StepsOn(table, ([at] + w.stamped)[i], ([at] + w.stamped)[i + 1], to, luck)
      {
        if i > 0 {
          assert StepsOn(table, ([next] + rest.stamped)[i - 1], ([next] + rest.stamped)[i], to, luck);
        }
      }
    }
  }

  predicate StepsOn(table: seq<Row>, v: Version, next: Version, to: Version, luck: Luck) {
    v < to && Leads(table, v) && Target(table, v) == next && luck.step(v) && luck.stamp(v)
  }

  /** The chain a table gives when nothing fails. */
  function Chain(table: seq<Row>, at: Version, to: Version): seq<Version> {
    Walk(table, at, to, Luck(v => true, v => true)).stamped
  }

  /** Whatever failed, what was stamped and what a rerun has still to do are together the whole chain. */
  lemma {:induction false} RerunContinues(table: seq<Row>, at: Version, to: Version, luck: Luck)
    ensures var w := Walk(table, at, to, luck);
            Chain(table, at, to) == w.stamped + Chain(table, w.reached, to)
    decreases if at < to then to - at else 0
  {
    hide Leads;
    var w := Walk(table, at, to, luck);
    if at < to && Leads(table, at) && luck.step(at) && luck.stamp(at) {
      var next := Target(table, at);
      WayOn(table, at);
      RerunContinues(table, next, to, luck);
      var rest := Walk(table, next, to, luck);
      assert [next] + (rest.stamped + Chain(table, rest.reached, to)) == [next] + rest.stamped + Chain(table, rest.reached, to);
    } else {
      assert w.stamped + Chain(table, at, to) == Chain(table, at, to);
    }
  }

  /** A rerun starts no conversion from below where it starts; one whose version was stamped started below. */
  lemma {:induction false} StartsFromHere(table: seq<Row>, at: Version, to: Version, luck: Luck)
    ensures forall i :: 0 <= i < |Started(table, at, to, luck)| ==> Started(table, at, to, luck)[i] >= at
    ensures var w, s := Walk(table, at, to, luck), Started(table, at, to, luck);
            |w.stamped| <= |s| && forall i :: 0 <= i < |w.stamped| ==> s[i] < w.stamped[i] <= w.reached
    decreases if at < to then to - at else 0
  {
    hide Leads;
    if at < to && Leads(table, at) && luck.step(at) && luck.stamp(at) {
      WayOn(table, at);
      StartsFromHere(table, Target(table, at), to, luck);
      WalkRises(table, Target(table, at), to, luck);
    }
  }

  lemma WayOn(table: seq<Row>, at: Version)
    requires Leads(table, at)
    ensures Target(table, at) > at
  {}

  /** After any failure, a rerun from the stored version starts no conversion that was stamped. */
  lemma RerunRunsOnlyUnstamped(table: seq<Row>, at: Version, to: Version, first: Luck, second: Luck, i: nat, j: nat)
    requires i < |Walk(table, at, to, first).stamped|
    requires j < |Started(table, Walk(table, at, to, first).reached, to, second)|
    ensures i < |Started(table, at, to, first)|
    ensures Started(table, at, to, first)[i] != Started(table, Walk(table, at, to, first).reached, to, second)[j]
  {
    hide Walk, Started;
    StartsFromHere(table, at, to, first);
    StartsFromHere(table, Walk(table, at, to, first).reached, to, second);
  }

  // ---------------------------------------------------------------- boots

  /** What a boot makes of the stamp: the plan, the walk, and the one stamp left to write for a device that needed no
      migration.  `last` says whether that write succeeds. */
  function Boot(table: seq<Row>, readable: bool, hasData: bool, stored: Stored, current: Version, luck: Luck, last: bool)
    : (Stored, Outcome)
  {
    var plan := PlanSchema(ProbeOf(readable, hasData, stored), current);
    var walk := if plan.migrate then Walk(table, plan.fromVersion, plan.toVersion, luck)
                else Walked(true, plan.fromVersion, []);
    var stamped := if walk.stamped == [] then stored else Stamp(walk.reached);
    (if plan.stamp && walk.reached == plan.fromVersion && stored != Stamp(walk.reached) && last then Stamp(walk.reached)
     else stamped,
     if walk.ok then plan.outcome else MigrationFailed)
  }

  function ProbeOf(readable: bool, hasData: bool, stored: Stored): Probe {
    match stored case Absent => Probe(readable, false, 0, hasData) case Stamp(v) => Probe(readable, true, v, hasData)
  }

  /** No stamp, or the zero that nobody writes. */
  predicate Unstamped(stored: Stored) { stored == Absent || stored == Stamp(0) }

  /** Every boot, by what it finds.  An unreadable store, a newer stamp and a current one are left alone. */
  lemma BootLeavesAlone(table: seq<Row>, readable: bool, hasData: bool, stored: Stored, current: Version, luck: Luck, last: bool)
    ensures !readable ==> Boot(table, readable, hasData, stored, current, luck, last) == (stored, StoreUnavailable)
    ensures readable && stored.Stamp? && stored.version > current ==>
              Boot(table, readable, hasData, stored, current, luck, last) == (stored, Downgrade)
    ensures readable && !Unstamped(stored) && stored.version == current ==>
              Boot(table, readable, hasData, stored, current, luck, last) == (stored, UpToDate)
  {
    hide Walk;
  }

  /** A blank device is stamped as current, whatever the table says; a device without a stamp that has data starts from
      version 1, and an older stamp from itself.  The walk decides what is reported and how far the stamp comes. */
  lemma BootWalks(table: seq<Row>, hasData: bool, stored: Stored, current: Version, luck: Luck, last: bool)
    requires current >= 1
    ensures Unstamped(stored) && !hasData ==>
              Boot(table, true, hasData, stored, current, luck, last) == (if last then Stamp(current) else stored, FreshInstall)
    ensures Unstamped(stored) && hasData ==>
              var w := Walk(table, 1, current, luck);
              Boot(table, true, hasData, stored, current, luck, last) ==
              (if w.reached > 1 || last then Stamp(w.reached) else stored, if w.reached >= current then AdoptedLegacy else MigrationFailed)
    ensures stored.Stamp? && 0 < stored.version < current ==>
              var w := Walk(table, stored.version, current, luck);
              Boot(table, true, hasData, stored, current, luck, last) ==
              (Stamp(w.reached), if w.reached >= current then Migrated else MigrationFailed)
  {
    hide Walk;
    WalkRises(table, 1, current, luck);
    if stored.Stamp? { WalkRises(table, stored.version, current, luck); }
    WalkNowhere(table, current, luck);
  }

  lemma WalkNowhere(table: seq<Row>, current: Version, luck: Luck)
    ensures Walk(table, current, current, luck) == Walked(true, current, [])
  {}

  /** The act part of ensureSchemaVersion. */
  method EnsureSchemaVersion(table: seq<Row>, readable: bool, hasData: bool, current: Version, luck: Luck, last: bool,
                             store: Store) returns (outcome: Outcome)
    modifies store
    ensures (store.stored, outcome) == Boot(table, readable, hasData, old(store.stored), current, luck, last)
  {
    hide Walk;
    ghost var before := store.stored;
    var probe := ProbeOf(readable, hasData, store.stored);
    var plan := PlanSchema(probe, current);
    outcome := plan.outcome;
    var reached := plan.fromVersion;
    if plan.migrate {
      var ok;
      ok, reached := RunSchemaMigrations(plan.fromVersion, plan.toVersion, table, luck, store);
      if !ok { outcome := MigrationFailed; }
      WalkRises(table, plan.fromVersion, plan.toVersion, luck);
    }
    if plan.stamp && reached == plan.fromVersion && !(probe.versionPresent && probe.version == reached) {
      var _ := store.WriteStamp(reached, last);
    }
  }

  /** Boots of a device that has a stamp, each with its own luck. */
  function Boots(table: seq<Row>, stored: Stored, current: Version, lucks: seq<Luck>): Stored
    decreases |lucks|
  {
    if lucks == [] then stored
    else Boots(table, Boot(table, true, true, stored, current, lucks[0], true).0, current, lucks[1..])
  }

  lemma BootOfStamped(table: seq<Row>, version: Version, current: Version, luck: Luck)
    requires version != 0
    ensures Boot(table, true, true, Stamp(version), current, luck, true).0
            == Stamp(if version < current then Walk(table, version, current, luck).reached else version)
  {
    hide Walk;
    WalkRises(table, version, current, luck);
  }

  /** However often a chain is interrupted, over any number of boots the stamp never falls, and what the boots have
      stamped and what is left are together the chain from where the device started. */
  lemma {:induction false} BootsMakeProgress(table: seq<Row>, version: Version, current: Version, lucks: seq<Luck>)
    requires version != 0
    ensures var b := Boots(table, Stamp(version), current, lucks);
            && b.Stamp? && b.version >= version && (version >= current ==> b.version == version)
            && var all, left := Chain(table, version, current), Chain(table, b.version, current);
               |left| <= |all| && left == all[|all| - |left|..]
    decreases |lucks|
  {
    hide Leads, Walk, Chain, Boot;
    if lucks != [] {
      BootOfStamped(table, version, current, lucks[0]);
      WalkRises(table, version, current, lucks[0]);
      RerunContinues(table, version, current, lucks[0]);
      var next := if version < current then Walk(table, version, current, lucks[0]).reached else version;
      BootsMakeProgress(table, next, current, lucks[1..]);
    }
  }

  /** A device stamped with the current version is up to date: nothing is migrated or written. */
  lemma StampedIsUpToDate(table: seq<Row>, current: Version, luck: Luck, last: bool)
    requires current >= BASELINE
    ensures Boot(table, true, true, Stamp(current), current, luck, last) == (Stamp(current), UpToDate)
  {}

  /** A boot on which everything succeeded leaves the current version stamped, on a blank, a legacy or a stamped
      device alike, if no row jumps past it. */
  lemma SettledBootStamps(table: seq<Row>, hasData: bool, stored: Stored, current: Version, luck: Luck)
    requires current >= BASELINE && (stored.Stamp? ==> stored.version <= current)
    requires forall v: Version :: v < current && Leads(table, v) ==> Target(table, v) <= current
    requires Boot(table, true, hasData, stored, current, luck, true).1 != MigrationFailed
    ensures Boot(table, true, hasData, stored, current, luck, true).0 == Stamp(current)
  {
    hide Walk, Leads, Target;
    var plan := PlanSchema(ProbeOf(true, hasData, stored), current);
    WalkRises(table, plan.fromVersion, current, luck);
    NeverPast(table, plan.fromVersion, current, luck);
  }

  /** Rows that do not jump past the current version cannot carry a walk past it. */
  lemma {:induction false} NeverPast(table: seq<Row>, at: Version, to: Version, luck: Luck)
    requires at <= to
    requires forall v: Version :: v < to && Leads(table, v) ==> Target(table, v) <= to
    ensures Walk(table, at, to, luck).reached <= to
    decreases if at < to then to - at else 0
  {
    if at < to && Leads(table, at) && luck.step(at) && luck.stamp(at) {
      var next := Target(table, at);
      WayOn(table, at);
      NeverPast(table, next, to, luck);
    }
  }
}
