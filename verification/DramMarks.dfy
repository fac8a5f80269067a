/** The high-water marks of src/Helpers/HttpDramAccount.hpp against the values that a run really showed. */
module DramMarks {
  import opened DramAccount

  // ---------------------------------------------------------------- what a run showed

  /** The most that slot s, and the total, held in any state of a run, or `most` if that is more. */
  ghost function SlotPeak(a: Account, run: seq<(nat, Step)>, s: nat, most: Word): Word
    requires Valid(a) && Possible(a, run) && s < SLOTS
    decreases |run|
  {
    if run == [] then most
    else
      StepKeeps(a, run[0].0, run[0].1);
      var b := Next(a, run[0].0, run[0].1);
      SlotPeak(b, run[1..], s, Max(most, b.now[s]))
  }

  ghost function TotalPeak(a: Account, run: seq<(nat, Step)>, most: Word): Word
    requires Possible(a, run)
    decreases |run|
  {
    if run == [] then most
    else
      var b := Next(a, run[0].0, run[0].1);
      TotalPeak(b, run[1..], Max(most, b.total))
  }

  // ---------------------------------------------------------------- the invariant of a slot's mark

  predicate InSlotRaise(h: Holder, s: nat) { h.slot == s && (h.op.SlotAdded? || h.op.SlotRaising?) }

  /** Somebody is still raising the mark of the slot to `most`. */
  ghost predicate SlotUnderway(a: Account, s: nat, most: Word) {
    exists i :: 0 <= i < |a.holders| && InSlotRaise(a.holders[i], s) && a.holders[i].op.v == most
  }

  predicate RaiserFine(a: Account, h: Holder, s: nat, most: Word)
    requires s < |a.hwm|
  {
    && (InSlotRaise(h, s) ==> h.op.v <= most)
    && (h.slot == s && h.op.SlotRaising? ==> h.op.seen <= a.hwm[s])
  }

  ghost predicate MarkFine(a: Account, s: nat, most: Word) {
    && s < |a.now| == |a.hwm|
    && a.now[s] <= most && a.hwm[s] <= most
    && (forall i :: 0 <= i < |a.holders| ==> RaiserFine(a, a.holders[i], s, most))
    && (most <= a.hwm[s] || SlotUnderway(a, s, most))
  }

  lemma StepRaiser(a: Account, i: nat, step: Step, s: nat, most: Word, j: nat)
    requires Valid(a) && Enabled(a, i, step) && MarkFine(a, s, most) && j < |a.holders|
    ensures var b := Next(a, i, step);
            |b.holders| == |a.holders| && s < |b.now| == |b.hwm| && a.hwm[s] <= b.hwm[s]
            && RaiserFine(b, b.holders[j], s, Max(most, b.now[s]))
  {
    hide SlotSum, TotalSum, Claimed, Underway, Plus, Minus, HolderFine, SlotUnderway;
    assert RaiserFine(a, a.holders[i], s, most) && RaiserFine(a, a.holders[j], s, most);
  }

  /** A step that raises the slot adds a raiser; one that ends a raise leaves the mark there. */
  lemma StepUnderway(a: Account, i: nat, step: Step, s: nat, most: Word)
    requires Valid(a) && Enabled(a, i, step) && MarkFine(a, s, most)
    ensures var b := Next(a, i, step);
            var more := Max(most, b.now[s]);
            b.hwm[s] <= more && (more <= b.hwm[s] || SlotUnderway(b, s, more))
  {
    hide SlotSum, TotalSum, Claimed, Underway, Plus, Minus, HolderFine;
    var b := Next(a, i, step);
    var more := Max(most, b.now[s]);
    assert RaiserFine(a, a.holders[i], s, most);
    if more > b.hwm[s] {
      if more > most {
        SlotOnlyGrowsByAdd(a, i, step, s);
        assert InSlotRaise(b.holders[i], s) && b.holders[i].op.v == more;
      } else {
        var j :| 0 <= j < |a.holders| && InSlotRaise(a.holders[j], s) && a.holders[j].op.v == most;
        assert InSlotRaise(b.holders[j], s) && b.holders[j].op.v == more;
      }
    }
  }

  /** A slot grows by the first step of an add only. */
  lemma SlotOnlyGrowsByAdd(a: Account, i: nat, step: Step, s: nat)
    requires Valid(a) && Enabled(a, i, step) && s < SLOTS
    ensures Next(a, i, step).now[s] > a.now[s] ==> step.StartAdd? && a.holders[i].slot == s
  {
    hide SlotSum, TotalSum, Claimed, Underway, Plus, Minus;
    assert HolderFine(a, a.holders[i]);
    SlotTake(a, i, step);
  }

  lemma SlotTake(a: Account, i: nat, step: Step)
    requires Valid(a) && Enabled(a, i, step)
    ensures step.TakeSlot? && Next(a, i, step).now != a.now ==>
              Next(a, i, step).now == a.now[a.holders[i].slot := a.now[a.holders[i].slot] - a.holders[i].op.n]
  {
    hide SlotSum, TotalSum, Claimed, Underway, Plus;
    NothingWraps(a, i, step);
    SlotChanges(a, i, step);
  }

  lemma StepMark(a: Account, i: nat, step: Step, s: nat, most: Word)
    requires Valid(a) && Enabled(a, i, step) && s < SLOTS && MarkFine(a, s, most)
    ensures MarkFine(Next(a, i, step), s, Max(most, Next(a, i, step).now[s]))
  {
    hide Enabled, Next, RaiserFine, SlotUnderway, HolderFine, SlotSum, TotalSum, Claimed, Underway;
    var b := Next(a, i, step);
    StepKeeps(a, i, step);
    SameHolders(a, i, step);
    StepUnderway(a, i, step, s, most);
    forall j | 0 <= j < |b.holders|
      ensures RaiserFine(b, b.holders[j], s, Max(most, b.now[s]))
    {
      StepRaiser(a, i, step, s, most, j);
    }
  }

  lemma {:induction false} RunMarks(a: Account, run: seq<(nat, Step)>, s: nat, most: Word)
    requires Valid(a) && Possible(a, run) && s < SLOTS && MarkFine(a, s, most)
    ensures MarkFine(After(a, run), s, SlotPeak(a, run, s, most))
    decreases |run|
  {
    hide Enabled, Next, MarkFine, Max, HolderFine, SlotSum, TotalSum, Claimed, Underway;
    if run != [] {
      StepKeeps(a, run[0].0, run[0].1);
      StepMark(a, run[0].0, run[0].1, s, most);
      var b := Next(a, run[0].0, run[0].1);
      RunMarks(b, run[1..], s, Max(most, b.now[s]));
    }
  }

  lemma {:induction false} RunPeaks(a: Account, run: seq<(nat, Step)>)
    requires Valid(a) && Possible(a, run)
    ensures After(a, run).peak == TotalPeak(a, run, a.peak)
    decreases |run|
  {
    hide Enabled, HolderFine, SlotSum, TotalSum, Claimed, Underway, Minus, Plus;
    if run != [] {
      var b := Next(a, run[0].0, run[0].1);
      StepKeeps(a, run[0].0, run[0].1);
      PeakStep(a, run[0].0, run[0].1);
      RunPeaks(b, run[1..]);
    }
  }

  lemma PeakStep(a: Account, i: nat, s: Step)
    requires Valid(a) && Enabled(a, i, s)
    ensures Next(a, i, s).peak == Max(a.peak, Next(a, i, s).total)
  {
    hide SlotSum, TotalSum, Claimed, Underway, Plus, HolderFine;
    StepTotal(a, i, s);
    NothingWraps(a, i, s);
  }

  /** When nobody is in an operation, each mark is the most that its slot, or the total, ever held: nothing a slot
      showed for a moment between two other operations is missed. */
  lemma MarksAreExact(a: Account, run: seq<(nat, Step)>, s: nat)
    requires Valid(a) && Possible(a, run) && s < SLOTS && AtRest(a) && a.now[s] <= a.hwm[s]
    ensures var b := After(a, run);
            s < |b.hwm| && (AtRest(b) ==> b.hwm[s] == SlotPeak(a, run, s, a.hwm[s]) && b.totalHwm == TotalPeak(a, run, a.peak))
  {
    hide Possible, After, SlotSum, TotalSum, Claimed, SlotPeak, TotalPeak, HolderFine;
    RunMarks(a, run, s, a.hwm[s]);
    RunPeaks(a, run);
    TotalIsExact(a, run);
  }
}
