/** Compile guards of tools/gen_index_html.py: what a guard promises, and the preprocessor condition that
    carries it. */
module Guards {
  /** The macros a build defines, with their values.  ESP_PLATFORM tells a device from a host. */
  type Env = map<string, int>

  const ESP_PLATFORM := "ESP_PLATFORM"

  predicate Device(env: Env) { ESP_PLATFORM in env }

  datatype Mode = If | Unless | Only

  /** `@if NAME`, `@if NAME!=0`, `@unless NAME` or `@only NAME`. */
  datatype Clause = Clause(name: string, value: bool, mode: Mode)

  /** The clauses before one path; none for an unguarded file. */
  type Guard = seq<Clause>

  predicate Strict(guard: Guard) { exists i :: 0 <= i < |guard| && guard[i].mode == Only }

  /** What the manifest reader lets through. */
  predicate WellFormed(guard: Guard) {
    && (Strict(guard) ==> |guard| == 1)
    && (forall i :: 0 <= i < |guard| && guard[i].value ==> guard[i].mode == If)
    && (forall i, j :: 0 <= i < j < |guard| ==> guard[i].name != guard[j].name)
  }

  // ---------------------------------------------------------------- what a guard promises

  predicate Asks(env: Env, c: Clause) {
    match c.mode
    case If => c.name in env && (c.value ==> env[c.name] != 0)
    case Unless => c.name !in env
    case Only => c.name in env
  }

  /** A guarded file is in a build if all its clauses ask for it; and in every host build, unless the guard
      is strict. */
  predicate Kept(env: Env, guard: Guard) {
    || (forall i :: 0 <= i < |guard| ==> Asks(env, guard[i]))
    || (!Strict(guard) && !Device(env))
  }

  // ---------------------------------------------------------------- the condition

  /** An expression after #if.  An undefined name counts as zero. */
  datatype Cond = Defined(name: string) | NonZero(name: string) | Not(c: Cond) | And(cs: seq<Cond>) | Or(a: Cond, b: Cond)

  predicate Holds(env: Env, c: Cond)
    decreases c
  {
    match c
    case Defined(name) => name in env
    case NonZero(name) => name in env && env[name] != 0
    case Not(d) => !Holds(env, d)
    case And(cs) => forall i :: 0 <= i < |cs| ==> Holds(env, cs[i])
    case Or(a, b) => Holds(env, a) || Holds(env, b)
  }

  /** clause_cond. */
  function ClauseCond(c: Clause): Cond {
    if c.mode == Only then Defined(c.name)
    else if c.mode == Unless then Not(Defined(c.name))
    else if c.value then And([Defined(c.name), NonZero(c.name)]) else Defined(c.name)
  }

  /** guard_cond. */
  function GuardCond(guard: Guard): Cond
    requires guard != []
  {
    if |guard| == 1 then ClauseCond(guard[0])
    else And(seq(|guard|, i requires 0 <= i < |guard| => ClauseCond(guard[i])))
  }

  /** The condition wrap puts around a guarded part. */
  function WrapCond(guard: Guard): Cond
    requires guard != []
  {
    if Strict(guard) then GuardCond(guard) else Or(GuardCond(guard), Not(Defined(ESP_PLATFORM)))
  }

  lemma ClauseCondAsks(env: Env, c: Clause)
    ensures Holds(env, ClauseCond(c)) <==> Asks(env, c)
  {
    if c.mode == If && c.value {
      var cs := [Defined(c.name), NonZero(c.name)];
      assert Holds(env, cs[0]) <==> c.name in env;
      assert Holds(env, cs[1]) <==> c.name in env && env[c.name] != 0;
    }
  }

  lemma GuardCondAsks(env: Env, guard: Guard)
    requires guard != []
    ensures Holds(env, GuardCond(guard)) <==> forall i :: 0 <= i < |guard| ==> Asks(env, guard[i])
  {
    hide ClauseCond, Asks;
    forall i | 0 <= i < |guard|
      ensures Holds(env, ClauseCond(guard[i])) <==> Asks(env, guard[i])
    {
      ClauseCondAsks(env, guard[i]);
    }
    if |guard| > 1 {
      var cs := seq(|guard|, i requires 0 <= i < |guard| => ClauseCond(guard[i]));
      assert GuardCond(guard) == And(cs);
      assert forall i :: 0 <= i < |guard| ==> cs[i] == ClauseCond(guard[i]);
    }
  }

  /** On every build, the condition around a part holds exactly when the part's file is kept. */
  lemma WrapCondMeansKept(env: Env, guard: Guard)
    requires guard != []
    ensures Holds(env, WrapCond(guard)) <==> Kept(env, guard)
  {
    hide Asks;
    GuardCondAsks(env, guard);
  }

  /** What each line before a path promises for the macro it names, and that several lines promise all they say: on the
      host everything is there but what `@only` asks for. */
  lemma LinesMean(env: Env, name: string, guard: Guard)
    ensures Kept(env, []) && (Kept(env, [Clause(name, false, If)]) <==> name in env || "ESP_PLATFORM" !in env)
    ensures Kept(env, [Clause(name, true, If)]) <==> (name in env && env[name] != 0) || "ESP_PLATFORM" !in env
    ensures Kept(env, [Clause(name, false, Unless)]) <==> name !in env || "ESP_PLATFORM" !in env
    ensures Kept(env, [Clause(name, false, Only)]) <==> name in env
    ensures WellFormed(guard) ==> (Kept(env, guard) <==> forall c :: c in guard ==> Kept(env, [c]))
  {
    LineMeans(env, Clause(name, false, If));
    LineMeans(env, Clause(name, true, If));
    LineMeans(env, Clause(name, false, Unless));
    LineMeans(env, Clause(name, false, Only));
    if WellFormed(guard) {
      forall c | c in guard
        ensures Kept(env, [c]) <==> Asks(env, c) || (c.mode != Only && !Device(env))
      {
        LineMeans(env, c);
      }
      if Strict(guard) {
        assert guard == [guard[0]];
      } else {
        assert forall i :: 0 <= i < |guard| ==> guard[i] in guard && guard[i].mode != Only;
      }
    }
  }

  lemma LineMeans(env: Env, c: Clause)
    ensures Kept(env, [c]) <==> Asks(env, c) || (c.mode != Only && !Device(env))
  {
    assert Strict([c]) <==> [c][0].mode == Only;
    assert (forall i :: 0 <= i < 1 ==> Asks(env, [c][i])) <==> Asks(env, c);
  }

  // ---------------------------------------------------------------- guests and hosts

  /** may_host: every clause of the host's guard is also one of the guest's. */
  predicate MayHost(host: Guard, guest: Guard) {
    forall c :: c in host ==> c in guest
  }

  /** So wherever the guest is kept its host is. */
  lemma GuestImpliesHost(env: Env, host: Guard, guest: Guard)
    requires MayHost(host, guest) && WellFormed(guest) && Kept(env, guest)
    ensures Kept(env, host)
  {
    hide Asks;
    if Strict(host) {
      var i :| 0 <= i < |host| && host[i].mode == Only;
      assert host[i] in host;
      var j :| 0 <= j < |guest| && guest[j] == host[i];
    }
    if forall j :: 0 <= j < |guest| ==> Asks(env, guest[j]) {
      forall i | 0 <= i < |host|
        ensures Asks(env, host[i])
      {
        assert host[i] in host && host[i] in guest;
      }
    }
  }

  /** Without the subset the promise fails: on a host build a strict host can be gone while an unguarded guest is
      kept. */
  lemma SubsetIsNeeded()
    ensures var host := [Clause("SBC", false, Only)];
            !MayHost(host, []) && Kept(map[], []) && !Kept(map[], host)
  {
    var host := [Clause("SBC", false, Only)];
    assert host[0] in host && host[0] !in [];
    assert host[0].mode == Only && !Asks(map[], host[0]);
  }
}
