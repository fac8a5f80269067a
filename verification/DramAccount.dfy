/** The lock-free account of src/Helpers/HttpDramAccount.hpp as a system of steps: every atomic operation of add, sub and
    raise is one step, and holders on any threads interleave. */
module DramAccount {

  const SLOTS := 5
  const WORD := 0x1_0000_0000

  type Word = n: nat | n < WORD

  /** fetch_add and fetch_sub on a uint32_t. */
  function Plus(a: Word, n: nat): Word { (a + n) % WORD }

  function Minus(a: Word, n: nat): Word { (a + WORD - n % WORD) % WORD }

  /** Where a holder is in add or sub.  `held` is what it has been credited with, as Held keeps it. */
  datatype Op =
    | Rest
    | SlotAdded(n: nat, v: Word)                   // slot added, giving v; about to load the slot's high-water mark
    | SlotRaising(n: nat, v: Word, seen: Word)     // raising that mark to v
    | SlotRaised(n: nat)                           // about to add to the total
    | TotalAdded(n: nat, t: Word)                  // total added, giving t; about to load the total's mark
    | TotalRaising(n: nat, t: Word, seen: Word)    // raising that mark to t
    | Subbing(n: nat, seen: Word)                  // about to compare-exchange the slot
    | SlotSubbed(n: nat, take: nat)                // about to subtract from the total

  /** One Held object: its slot, its bytes, and the operation it is in. */
  datatype Holder = Holder(slot: nat, held: nat, op: Op)

  /** The account; `peak` is history, the most that the total has been. */
  datatype Account = Account(now: seq<Word>, hwm: seq<Word>, total: Word, totalHwm: Word, holders: seq<Holder>,
                             peak: Word)

  datatype Step =
    | StartAdd(n: nat) | LoadSlotMark | RaiseSlot(spurious: bool)
    | AddTotal | LoadTotalMark | RaiseTotal(spurious: bool)
    | StartSub(n: nat) | TakeSlot(spurious: bool) | SubTotal

  // ---------------------------------------------------------------- what holders account for

  /** What a holder has put into its slot. */
  function InSlot(h: Holder): nat {
    match h.op
    case SlotAdded(n, _) => h.held + n
    case SlotRaising(n, _, _) => h.held + n
    case SlotRaised(n) => h.held + n
    case TotalAdded(n, _) => h.held + n
    case TotalRaising(n, _, _) => h.held + n
    case SlotSubbed(_, take) => if take <= h.held then h.held - take else 0
    case _ => h.held
  }

  /** What it has put into the total. */
  function InTotal(h: Holder): nat {
    match h.op
    case TotalAdded(n, _) => h.held + n
    case TotalRaising(n, _, _) => h.held + n
    case _ => h.held
  }

  function SlotSum(holders: seq<Holder>, s: nat): nat {
    if holders == [] then 0
    else
      var k := |holders| - 1;
      SlotSum(holders[..k], s) + (if holders[k].slot == s then InSlot(holders[k]) else 0)
  }

  function TotalSum(holders: seq<Holder>): nat {
    if holders == [] then 0
    else
      var k := |holders| - 1;
      TotalSum(holders[..k]) + InTotal(holders[k])
  }

  /** Everything held or about to be: the memory there must be. */
  function Claimed(holders: seq<Holder>): nat {
    if holders == [] then 0
    else
      var k := |holders| - 1;
      Claimed(holders[..k]) + (if InSlot(holders[k]) < InTotal(holders[k]) then InTotal(holders[k]) else InSlot(holders[k]))
  }

  // ---------------------------------------------------------------- steps

  /** Held::set and ~Held: a holder adds when at rest, and releases at most what it holds.  The bytes exist, so they
      fit a word with all others. */
  predicate Enabled(a: Account, i: nat, s: Step) {
    i < |a.holders| && a.holders[i].slot < |a.now| && |a.hwm| == |a.now| &&
    match s
    case StartAdd(n) => a.holders[i].op == Rest && n > 0 && Claimed(a.holders) + n < WORD
    case LoadSlotMark => a.holders[i].op.SlotAdded?
    case RaiseSlot(_) => a.holders[i].op.SlotRaising?
    case AddTotal => a.holders[i].op.SlotRaised?
    case LoadTotalMark => a.holders[i].op.TotalAdded?
    case RaiseTotal(_) => a.holders[i].op.TotalRaising?
    case StartSub(n) => a.holders[i].op == Rest && 0 < n <= a.holders[i].held
    case TakeSlot(_) => a.holders[i].op.Subbing?
    case SubTotal => a.holders[i].op.SlotSubbed?
  }

  function With(a: Account, i: nat, h: Holder): Account
    requires i < |a.holders|
  {
    a.(holders := a.holders[i := h])
  }

  function Max(a: Word, b: Word): Word { if a < b then b else a }

  function Next(a: Account, i: nat, s: Step): Account
    requires Enabled(a, i, s)
  {
    var h := a.holders[i];
    var k := h.slot;
    match s
    case StartAdd(n) =>
      var v := Plus(a.now[k], n);
      With(a, i, h.(op := SlotAdded(n, v))).(now := a.now[k := v])
    case LoadSlotMark => With(a, i, h.(op := SlotRaising(h.op.n, h.op.v, a.hwm[k])))
    case RaiseSlot(spurious) =>
      if h.op.v <= h.op.seen then With(a, i, h.(op := SlotRaised(h.op.n)))
      else if h.op.seen == a.hwm[k] && !spurious then
        With(a, i, h.(op := SlotRaised(h.op.n))).(hwm := a.hwm[k := h.op.v])
      else With(a, i, h.(op := SlotRaising(h.op.n, h.op.v, a.hwm[k])))
    case AddTotal =>
      var t := Plus(a.total, h.op.n);
      With(a, i, h.(op := TotalAdded(h.op.n, t))).(total := t, peak := Max(a.peak, t))
    case LoadTotalMark => With(a, i, h.(op := TotalRaising(h.op.n, h.op.t, a.totalHwm)))
    case RaiseTotal(spurious) =>
      var rested := h.(held := h.held + h.op.n, op := Rest);
      if h.op.t <= h.op.seen then With(a, i, rested)
      else if h.op.seen == a.totalHwm && !spurious then With(a, i, rested).(totalHwm := h.op.t)
      else With(a, i, h.(op := TotalRaising(h.op.n, h.op.t, a.totalHwm)))
    case StartSub(n) => With(a, i, h.(op := Subbing(n, a.now[k])))
    case TakeSlot(spurious) =>
      var take := if h.op.n < h.op.seen then h.op.n else h.op.seen;
      if h.op.seen == a.now[k] && !spurious then
        With(a, i, h.(op := SlotSubbed(h.op.n, take))).(now := a.now[k := Minus(a.now[k], take)])
      else With(a, i, h.(op := Subbing(h.op.n, a.now[k])))
    case SubTotal =>
      With(a, i, h.(held := if h.op.n <= h.held then h.held - h.op.n else 0, op := Rest)).(
        total := if h.op.take != 0 then Minus(a.total, h.op.take) else a.total)
  }

  // ---------------------------------------------------------------- the invariant

  /** A release takes from its own slot no more than it put there. */
  predicate HolderFine(a: Account, h: Holder) {
    && h.slot < |a.now|
    && match h.op
       case TotalAdded(n, t) => t <= a.peak
       case TotalRaising(n, t, seen) => t <= a.peak && seen <= a.totalHwm
       case Subbing(n, seen) => 0 < n <= h.held && n <= seen
       case SlotSubbed(n, take) => take == n && 0 < n <= h.held
       case _ => true
  }

  ghost predicate Valid(a: Account) {
    && |a.now| == |a.hwm| == SLOTS
    && (forall i :: 0 <= i < |a.holders| ==> HolderFine(a, a.holders[i]))
    && (forall s :: 0 <= s < SLOTS ==> a.now[s] == SlotSum(a.holders, s))
    && a.total == TotalSum(a.holders) <= a.peak
    && Claimed(a.holders) < WORD
    && a.totalHwm <= a.peak
    && (a.peak <= a.totalHwm || Underway(a))
  }

  /** Somebody is still raising the mark to the peak. */
  ghost predicate Underway(a: Account) {
    exists i :: 0 <= i < |a.holders| && Raises(a.holders[i], a.peak)
  }

  predicate Raises(h: Holder, peak: Word) { (h.op.TotalAdded? || h.op.TotalRaising?) && h.op.t == peak }

  lemma EmptyIsValid(holders: seq<Holder>)
    requires forall i :: 0 <= i < |holders| ==> holders[i].slot < SLOTS && holders[i].held == 0 && holders[i].op == Rest
    ensures Valid(Account(seq(SLOTS, k => 0), seq(SLOTS, k => 0), 0, 0, holders, 0))
  {
    forall s: nat
      ensures SlotSum(holders, s) == 0 && TotalSum(holders) == 0 && Claimed(holders) == 0
    {
      NothingHeld(holders, s);
    }
    NothingHeld(holders, 0);
  }

  lemma {:induction false} NothingHeld(holders: seq<Holder>, s: nat)
    requires forall i :: 0 <= i < |holders| ==> holders[i].held == 0 && holders[i].op == Rest
    ensures SlotSum(holders, s) == 0 && TotalSum(holders) == 0 && Claimed(holders) == 0
  {
    if holders != [] {
      NothingHeld(holders[..|holders| - 1], s);
    }
  }

  function Share(h: Holder, s: nat): nat { if h.slot == s then InSlot(h) else 0 }

  function Claim(h: Holder): nat { if InSlot(h) < InTotal(h) then InTotal(h) else InSlot(h) }

  /** One holder changes: what that changes of the sums. */
  lemma {:induction false} Update(holders: seq<Holder>, i: nat, h: Holder, s: nat)
    requires i < |holders|
    ensures SlotSum(holders[i := h], s) + Share(holders[i], s) == SlotSum(holders, s) + Share(h, s)
    ensures TotalSum(holders[i := h]) + InTotal(holders[i]) == TotalSum(holders) + InTotal(h)
    ensures Claimed(holders[i := h]) + Claim(holders[i]) == Claimed(holders) + Claim(h)
  {
    hide InSlot, InTotal;
    var k := |holders| - 1;
    if i < k {
      assert holders[i := h][..k] == holders[..k][i := h];
      Update(holders[..k], i, h, s);
    } else {
      assert holders[i := h][..k] == holders[..k];
    }
  }

  /** A holder's own bytes are in the sums, and the sums within what is claimed. */
  lemma {:induction false} OwnIsInSums(holders: seq<Holder>, i: nat, s: nat)
    requires i < |holders|
    ensures SlotSum(holders, s) >= Share(holders[i], s)
    ensures TotalSum(holders) >= InTotal(holders[i])
    ensures SlotSum(holders, s) <= Claimed(holders) && TotalSum(holders) <= Claimed(holders)
  {
    hide InSlot, InTotal;
    var k := |holders| - 1;
    SumsWithinClaims(holders, s);
    if i < k {
      OwnIsInSums(holders[..k], i, s);
    }
  }

  lemma {:induction false} SumsWithinClaims(holders: seq<Holder>, s: nat)
    ensures SlotSum(holders, s) <= Claimed(holders) && TotalSum(holders) <= Claimed(holders)
  {
    hide InSlot, InTotal;
    if holders != [] {
      SumsWithinClaims(holders[..|holders| - 1], s);
    }
  }

  /** Without a wrap. */
  lemma NoWrap(a: Word, n: nat)
    ensures a + n < WORD ==> Plus(a, n) == a + n
    ensures n <= a ==> Minus(a, n) == a - n
  {}

  /** What a step does to the slots, in whole numbers. */
  lemma SlotChanges(a: Account, i: nat, s: Step)
    requires Valid(a) && Enabled(a, i, s)
    ensures var b, h := Next(a, i, s), a.holders[i];
            && |b.now| == |b.hwm| == SLOTS && |b.holders| == |a.holders| && b.holders == a.holders[i := b.holders[i]]
            && b.holders[i].slot == h.slot
            && b.now == a.now[h.slot := b.now[h.slot]]
            && b.now[h.slot] + InSlot(h) == a.now[h.slot] + InSlot(b.holders[i])
  {
    hide SlotSum, TotalSum, Claimed, Plus, Minus, Underway;
    var h := a.holders[i];
    assert HolderFine(a, h);
    OwnIsInSums(a.holders, i, h.slot);
    if s.StartAdd? {
      NoWrap(a.now[h.slot], s.n);
    } else if s.TakeSlot? {
      NoWrap(a.now[h.slot], h.op.n);
    }
  }

  /** The counters follow the sums: the slots. */
  lemma StepSlots(a: Account, i: nat, s: Step, k: nat)
    requires Valid(a) && Enabled(a, i, s) && k < SLOTS
    ensures var b := Next(a, i, s); |b.now| == |b.hwm| == SLOTS && b.now[k] == SlotSum(b.holders, k)
  {
    assert i < |a.holders|;
    hide SlotSum, TotalSum, Claimed, Next, Enabled, HolderFine, InSlot, Underway;
    SlotChanges(a, i, s);
    Update(a.holders, i, Next(a, i, s).holders[i], k);
  }

  /** The total, and what must fit a word. */
  lemma StepTotals(a: Account, i: nat, s: Step)
    requires Valid(a) && Enabled(a, i, s)
    ensures var b := Next(a, i, s); b.total == TotalSum(b.holders) && Claimed(b.holders) < WORD
  {
    hide SlotSum, TotalSum, Claimed, Plus, Minus, Underway;
    var b := Next(a, i, s);
    var h := a.holders[i];
    assert HolderFine(a, h);
    OwnIsInSums(a.holders, i, h.slot);
    Update(a.holders, i, b.holders[i], 0);
    OwnIsInSums(b.holders, i, 0);
    if s.AddTotal? {
      NoWrap(a.total, h.op.n);
    } else if s.SubTotal? {
      NoWrap(a.total, h.op.take);
    }
  }

  /** What a step leaves of one holder's promises. */
  lemma StepHolder(a: Account, i: nat, s: Step, j: nat)
    requires Valid(a) && Enabled(a, i, s) && j < |a.holders|
    ensures HolderFine(Next(a, i, s), Next(a, i, s).holders[j])
  {
    hide SlotSum, TotalSum, Claimed, Plus, Minus, Underway;
    assert HolderFine(a, a.holders[i]) && HolderFine(a, a.holders[j]);
    OwnIsInSums(a.holders, i, a.holders[i].slot);
  }

  /** The mark of the total, and who still raises it. */
  lemma StepMarks(a: Account, i: nat, s: Step)
    requires Valid(a) && Enabled(a, i, s)
    ensures var b := Next(a, i, s);
            b.totalHwm <= b.peak && a.peak <= b.peak && (b.peak <= b.totalHwm || Underway(b))
  {
    hide SlotSum, TotalSum, Claimed, Plus, Minus;
    var b := Next(a, i, s);
    assert HolderFine(a, a.holders[i]);
    if b.peak > b.totalHwm {
      if b.peak > a.peak {
        assert Raises(b.holders[i], b.peak);
      } else {
        var j :| 0 <= j < |a.holders| && Raises(a.holders[j], a.peak);
        assert Raises(b.holders[j], b.peak);
      }
    }
  }

  lemma StepTotal(a: Account, i: nat, s: Step)
    requires Valid(a) && Enabled(a, i, s)
    ensures Next(a, i, s).total <= Next(a, i, s).peak
  {
    hide SlotSum, Claimed, Underway, Plus;
    assert HolderFine(a, a.holders[i]);
    OwnIsInSums(a.holders, i, 0);
    if s.SubTotal? {
      NoWrap(a.total, a.holders[i].op.take);
    }
  }

  lemma SameHolders(a: Account, i: nat, s: Step)
    requires Enabled(a, i, s)
    ensures |Next(a, i, s).holders| == |a.holders|
  {}

  /** Every step by any holder keeps the invariant. */
  lemma StepKeeps(a: Account, i: nat, s: Step)
    requires Valid(a) && Enabled(a, i, s)
    ensures Valid(Next(a, i, s))
  {
    hide Next, Enabled, HolderFine, SlotSum, TotalSum, Claimed, Underway;
    var b := Next(a, i, s);
    StepSlots(a, i, s, 0);
    forall k | 0 <= k < SLOTS
      ensures b.now[k] == SlotSum(b.holders, k)
    {
      StepSlots(a, i, s, k);
    }
    StepTotals(a, i, s);
    forall j | 0 <= j < |b.holders|
      ensures HolderFine(b, b.holders[j])
    {
      SameHolders(a, i, s);
      StepHolder(a, i, s, j);
    }
    StepMarks(a, i, s);
    StepTotal(a, i, s);
  }

  /** No counter wraps: each change is by whole numbers. */
  lemma NothingWraps(a: Account, i: nat, s: Step)
    requires Valid(a) && Enabled(a, i, s)
    ensures var b, h := Next(a, i, s), a.holders[i];
            && (s.StartAdd? ==> b.now[h.slot] == a.now[h.slot] + s.n)
            && (s.AddTotal? ==> b.total == a.total + h.op.n)
            && (s.TakeSlot? && b.now != a.now ==> b.now[h.slot] == a.now[h.slot] - h.op.n)
            && (s.SubTotal? ==> b.total == a.total - h.op.n)
  {
    hide SlotSum, TotalSum, Claimed, Underway, Plus, Minus;
    var h := a.holders[i];
    assert HolderFine(a, h);
    OwnIsInSums(a.holders, i, h.slot);
    match s {
      case StartAdd(n) => NoWrap(a.now[h.slot], n);
      case AddTotal =>
        SumsWithinClaims(Next(a, i, s).holders, 0);
        Update(a.holders, i, Next(a, i, s).holders[i], 0);
        NoWrap(a.total, h.op.n);
      case TakeSlot(_) => NoWrap(a.now[h.slot], h.op.n);
      case SubTotal => NoWrap(a.total, h.op.take);
      case _ =>
    }
  }

  // ---------------------------------------------------------------- runs

  ghost predicate Possible(a: Account, run: seq<(nat, Step)>)
    decreases |run|
  {
    run == [] || (Enabled(a, run[0].0, run[0].1) && Possible(Next(a, run[0].0, run[0].1), run[1..]))
  }

  ghost function After(a: Account, run: seq<(nat, Step)>): Account
    requires Possible(a, run)
    decreases |run|
  {
    if run == [] then a else After(Next(a, run[0].0, run[0].1), run[1..])
  }

  lemma {:induction false} RunKeeps(a: Account, run: seq<(nat, Step)>)
    requires Valid(a) && Possible(a, run)
    ensures Valid(After(a, run))
    decreases |run|
  {
    hide Valid, Enabled, Next;
    if run != [] {
      StepKeeps(a, run[0].0, run[0].1);
      RunKeeps(Next(a, run[0].0, run[0].1), run[1..]);
    }
  }

  // ---------------------------------------------------------------- the total and the slots

  /** All slots together. */
  function Sum(now: seq<Word>): nat {
    if now == [] then 0 else Sum(now[..|now| - 1]) + now[|now| - 1]
  }

  /** In the slots and not yet in the total, and the other way round. */
  function Added(holders: seq<Holder>): nat {
    if holders == [] then 0
    else
      var h := holders[|holders| - 1];
      Added(holders[..|holders| - 1])
      + (if h.op.SlotAdded? || h.op.SlotRaising? || h.op.SlotRaised? then h.op.n else 0)
  }

  function Subtracted(holders: seq<Holder>): nat {
    if holders == [] then 0
    else
      var h := holders[|holders| - 1];
      Subtracted(holders[..|holders| - 1]) + (if h.op.SlotSubbed? then h.op.n else 0)
  }

  /** The first k slots together hold what the holders put there. */
  function SlotSums(holders: seq<Holder>, k: nat): nat {
    if k == 0 then 0 else SlotSums(holders, k - 1) + SlotSum(holders, k - 1)
  }

  predicate Takes(h: Holder) { h.op.SlotSubbed? ==> h.op.take == h.op.n <= h.held }

  lemma {:induction false} EmptySums(k: nat)
    ensures SlotSums([], k) == 0
  {
    if k > 0 {
      EmptySums(k - 1);
    }
  }

  lemma {:induction false} SumsMore(holders: seq<Holder>, h: Holder, k: nat)
    ensures SlotSums(holders + [h], k) == SlotSums(holders, k) + (if h.slot < k then InSlot(h) else 0)
  {
    hide InSlot;
    if k > 0 {
      SumsMore(holders, h, k - 1);
      assert (holders + [h])[..|holders|] == holders;
    }
  }

  lemma {:induction false} SlotsAgainstTotal(holders: seq<Holder>, k: nat)
    requires forall i :: 0 <= i < |holders| ==> holders[i].slot < k && Takes(holders[i])
    ensures SlotSums(holders, k) + Subtracted(holders) == TotalSum(holders) + Added(holders)
  {
    if holders == [] {
      EmptySums(k);
    } else {
      hide SlotSums;
      var n := |holders| - 1;
      SlotsAgainstTotal(holders[..n], k);
      assert holders[..n] + [holders[n]] == holders;
      SumsMore(holders[..n], holders[n], k);
    }
  }

  lemma {:induction false} SumIsSlotSums(now: seq<Word>, holders: seq<Holder>)
    requires forall s :: 0 <= s < |now| ==> now[s] == SlotSum(holders, s)
    ensures Sum(now) == SlotSums(holders, |now|)
  {
    hide SlotSum;
    if now != [] {
      SumIsSlotSums(now[..|now| - 1], holders);
    }
  }

  predicate AtRest(a: Account) { forall i :: 0 <= i < |a.holders| ==> a.holders[i].op == Rest }

  /** In every reachable account the total is the sum of the slots up to the operations in flight; at rest exactly,
      and then totalHwm is the largest value the total ever took. */
  lemma TotalIsExact(a: Account, run: seq<(nat, Step)>)
    requires Valid(a) && Possible(a, run)
    ensures var b := After(a, run);
            && b.total + Added(b.holders) == Sum(b.now) + Subtracted(b.holders)
            && b.total <= b.peak && b.totalHwm <= b.peak
            && (AtRest(b) ==> b.total == Sum(b.now) && b.totalHwm == b.peak)
  {
    hide Possible, After, SlotSum, TotalSum, Claimed;
    RunKeeps(a, run);
    var b := After(a, run);
    SumIsSlotSums(b.now, b.holders);
    forall i | 0 <= i < |b.holders|
      ensures b.holders[i].slot < SLOTS && Takes(b.holders[i])
    {
      assert HolderFine(b, b.holders[i]);
    }
    SlotsAgainstTotal(b.holders, SLOTS);
    if AtRest(b) {
      NothingInFlight(b.holders);
    }
  }

  lemma {:induction false} NothingInFlight(holders: seq<Holder>)
    requires forall i :: 0 <= i < |holders| ==> holders[i].op == Rest
    ensures Added(holders) == 0 && Subtracted(holders) == 0
  {
    if holders != [] {
      NothingInFlight(holders[..|holders| - 1]);
    }
  }

  // ---------------------------------------------------------------- Held

  /** What Held::set asks of the account. */
  datatype Request = Nothing | Add(n: nat) | Sub(n: nat)

  /** The difference. */
  function Asked(held: Word, bytes: Word): Request {
    if bytes > held then Add(bytes - held) else if bytes < held then Sub(held - bytes) else Nothing
  }

  /** The first step of the add or sub that a request is. */
  function FirstStep(r: Request): Step
    requires !r.Nothing?
  {
    match r case Add(n) => StartAdd(n) case Sub(n) => StartSub(n)
  }

  /** What a holder will have when the operation it is in is over. */
  function Target(h: Holder): int {
    match h.op
    case Rest => h.held
    case SlotAdded(n, _) => h.held + n
    case SlotRaising(n, _, _) => h.held + n
    case SlotRaised(n) => h.held + n
    case TotalAdded(n, _) => h.held + n
    case TotalRaising(n, _, _) => h.held + n
    case Subbing(n, _) => h.held - n
    case SlotSubbed(n, _) => h.held - n
  }

  predicate Starts(i: nat, s: (nat, Step)) { s.0 == i && (s.1.StartAdd? || s.1.StartSub?) }

  /** Only starting another operation changes that, and only the holder itself can. */
  lemma StepKeepsTarget(a: Account, i: nat, j: nat, s: Step)
    requires Valid(a) && Enabled(a, j, s) && i < |a.holders| && !Starts(i, (j, s))
    ensures i < |Next(a, j, s).holders| && Target(Next(a, j, s).holders[i]) == Target(a.holders[i])
  {
    hide SlotSum, TotalSum, Claimed, Underway, Plus, Minus;
    assert HolderFine(a, a.holders[i]);
  }

  lemma {:induction false} RunKeepsTarget(a: Account, i: nat, run: seq<(nat, Step)>)
    requires Valid(a) && Possible(a, run) && i < |a.holders|
    requires forall k :: 0 <= k < |run| ==> !Starts(i, run[k])
    ensures i < |After(a, run).holders| && Target(After(a, run).holders[i]) == Target(a.holders[i])
    decreases |run|
  {
    hide Valid, Enabled, Next, Starts, Target;
    if run != [] {
      assert !Starts(i, (run[0].0, run[0].1));
      StepKeepsTarget(a, i, run[0].0, run[0].1);
      StepKeeps(a, run[0].0, run[0].1);
      RunKeepsTarget(Next(a, run[0].0, run[0].1), i, run[1..]);
    }
  }

  /** A hold at rest may always take the first step of what set asks - an add if the bytes exist, a release without
      condition - and whatever others do meanwhile, when it is at rest again it holds just those bytes. */
  lemma HoldIsServed(a: Account, i: nat, bytes: Word, run: seq<(nat, Step)>)
    requires Valid(a) && i < |a.holders| && a.holders[i].op == Rest && a.holders[i].held < WORD
    requires var r := Asked(a.holders[i].held, bytes); !r.Nothing? && (r.Add? ==> Claimed(a.holders) + r.n < WORD)
    ensures var s := FirstStep(Asked(a.holders[i].held, bytes));
            && Enabled(a, i, s)
            && (Possible(Next(a, i, s), run) && (forall k :: 0 <= k < |run| ==> !Starts(i, run[k])) ==>
                  var b := After(Next(a, i, s), run);
                  i < |b.holders| && (b.holders[i].op == Rest ==> b.holders[i].held == bytes))
  {
    hide SlotSum, TotalSum, Claimed, Underway, Plus, Minus, Possible, After;
    var s := FirstStep(Asked(a.holders[i].held, bytes));
    assert HolderFine(a, a.holders[i]);
    StepKeeps(a, i, s);
    if Possible(Next(a, i, s), run) && forall k :: 0 <= k < |run| ==> !Starts(i, run[k]) {
      RunKeepsTarget(Next(a, i, s), i, run);
    }
  }

  /** One request's hold, with what it has asked of the account so far. */
  class Held {
    var held: Word
    ghost var added: nat
    ghost var released: nat

    ghost predicate Valid()
      reads this
    {
      added == released + held
    }

    constructor ()
      ensures Valid() && held == 0 && added == 0
    {
      held, added, released := 0, 0, 0;
    }

    /** set: moves the account by the difference, so a release never exceeds what this hold added. */
    method Set(bytes: Word) returns (r: Request)
      requires Valid()
      modifies this
      ensures Valid() && held == bytes
      ensures r == Asked(old(held), bytes)
      ensures r.Sub? ==> released == old(released) + r.n <= added
    {
      if bytes > held {
        r := Add(bytes - held);
        added := added + r.n;
      } else if bytes < held {
        r := Sub(held - bytes);
        released := released + r.n;
      } else {
        r := Nothing;
      }
      held := bytes;
    }

    /** The destructor. */
    method Release() returns (r: Request)
      requires Valid()
      modifies this
      ensures r == Asked(old(held), 0)
      ensures held == 0 && released == added
    {
      r := Set(0);
    }
  }
}
