/** generate of tools/gen_index_html.py from end to end: every build that compiles the header serves the page
    assembled from only the files its macros keep. */
module PageGenerate {
  import opened Guards
  import opened PageTree
  import opened PageSite
  import opened PageParts
  import opened PageHeader
  import opened PageUtf8

  /** Every run in order, whatever its guard: what a test sees. */
  function AllText(runs: seq<Run>): Text {
    if runs == [] then [] else AllText(runs[..|runs| - 1]) + runs[|runs| - 1].text
  }

  /** The parts of one run. */
  function Guarded(guard: Guard, texts: seq<Text>): (runs: seq<Run>)
    ensures |runs| == |texts|
  {
    seq(|texts|, i requires 0 <= i < |texts| => Run(guard, texts[i]))
  }

  /** How many markers the runs hold, each on its own: all of them, or the guarded ones only. */
  function Markers(runs: seq<Run>, all: bool): nat {
    if runs == [] then 0
    else
      var n := |runs| - 1;
      Markers(runs[..n], all) + (if all || runs[n].guard != [] then |Spans(runs[n].text, 0)| else 0)
  }

  lemma AllMore(runs: seq<Run>, run: Run)
    ensures AllText(runs + [run]) == AllText(runs) + run.text
    ensures Markers(runs + [run], true) == Markers(runs, true) + |Spans(run.text, 0)|
    ensures Markers(runs + [run], false) == Markers(runs, false) + (if run.guard != [] then |Spans(run.text, 0)| else 0)
    ensures AllValueNames(runs + [run]) == AllValueNames(runs) + ValueNames(run.guard)
  {
    assert (runs + [run])[..|runs|] == runs;
  }

  lemma GuardedMore(runs: seq<Run>, guard: Guard, texts: seq<Text>)
    ensures runs + Guarded(guard, []) == runs
    ensures texts != [] ==> var k := |texts| - 1;
              runs + Guarded(guard, texts) == runs + Guarded(guard, texts[..k]) + [Run(guard, texts[k])]
  {}

  /** The parts of a run behind others: what they add. */
  lemma {:induction false} SplitAdds(env: Env, runs: seq<Run>, guard: Guard, texts: seq<Text>)
    ensures var all := runs + Guarded(guard, texts);
            && Surviving(env, all) == Surviving(env, runs) + (if Kept(env, guard) then Joined(texts) else [])
            && AllText(all) == AllText(runs) + Joined(texts)
            && AllValueNames(all) == AllValueNames(runs) + (if texts == [] then {} else ValueNames(guard))
            && Markers(all, true) == Markers(runs, true) + MarkersIn(texts)
            && Markers(all, false) == Markers(runs, false) + (if guard != [] then MarkersIn(texts) else 0)
    decreases |texts|
  {
    hide Markers, Spans, Kept, Surviving, AllText, AllValueNames, ValueNames, Guarded;
    GuardedMore(runs, guard, texts);
    if texts != [] {
      var k := |texts| - 1;
      var init := runs + Guarded(guard, texts[..k]);
      SplitAdds(env, runs, guard, texts[..k]);
      SurvivingMore(env, init, Run(guard, texts[k]));
      AllMore(init, Run(guard, texts[k]));
    }
  }

  /** The parts survive on every build exactly as the runs do, hold the same markers, and none is over the cap. */
  ghost predicate SameOnEveryBuild(runs: seq<Run>, parts: seq<Run>) {
    && (forall env: Env :: Surviving(env, parts) == Surviving(env, runs))
    && AllText(parts) == AllText(runs) && AllValueNames(parts) == AllValueNames(runs)
    && Markers(parts, true) == Markers(runs, true) && Markers(parts, false) == Markers(runs, false)
    && (forall i :: 0 <= i < |parts| ==> 0 < |parts[i].text| <= PART_CAP)
  }

  /** split_segments. */
  method SplitSegments(runs: seq<Run>) returns (r: Result<seq<Run>>)
    ensures r.Ok? ==> SameOnEveryBuild(runs, r.value)
    ensures (forall i :: 0 <= i < |runs| ==> runs[i].text != [] && Utf8(runs[i].text)) ==> r.Ok?
  {
    hide Surviving, AllText, AllValueNames, Markers, Utf8, CutsSpareMarkers;
    NothingSplit();
    var parts: seq<Run> := [];
    assert runs[..0] == [];
    for k := 0 to |runs|
      invariant SameOnEveryBuild(runs[..k], parts)
    {
      var split := SplitParts(runs[k].text, PART_CAP);
      if split.Raised? { return Raised; }
      OneMoreRun(runs, k, parts, split.value);
      parts := parts + Guarded(runs[k].guard, split.value);
    }
    assert runs[..|runs|] == runs;
    return Ok(parts);
  }

  lemma NothingSplit()
    ensures SameOnEveryBuild([], [])
  {}

  lemma OneMoreRun(runs: seq<Run>, k: nat, parts: seq<Run>, texts: seq<Text>)
    requires k < |runs| && SameOnEveryBuild(runs[..k], parts) && GoodParts(runs[k].text, texts, PART_CAP)
    requires texts != [] && CutsSpareMarkers(runs[k].text, texts)
    ensures SameOnEveryBuild(runs[..k + 1], parts + Guarded(runs[k].guard, texts))
  {
    hide Kept, Utf8, Surviving, AllText, AllValueNames, Markers, Spans, CutsSpareMarkers;
    var run := runs[k];
    var more := parts + Guarded(run.guard, texts);
    assert runs[..k + 1] == runs[..k] + [run];
    SplitAdds(map[], parts, run.guard, texts);
    PartsKeepMarkers(run.text, texts);
    AllMore(runs[..k], run);
    forall env: Env
      ensures Surviving(env, more) == Surviving(env, runs[..k + 1])
    {
      SplitAdds(env, parts, run.guard, texts);
      SurvivingMore(env, runs[..k], run);
    }
  }

  /** A guarded run holds the marker, or the page does not hold it exactly once. */
  predicate MarkerMisplaced(runs: seq<Run>) {
    || (exists i :: 0 <= i < |runs| && runs[i].guard != [] && Spans(runs[i].text, 0) != [])
    || |Spans(AllText(runs), 0)| != 1
  }

  /** One part holds the marker, and it is unguarded. */
  predicate MarkerHeld(parts: seq<Run>) {
    exists i :: 0 <= i < |parts| && HeldIn(parts, i)
  }

  predicate HeldIn(parts: seq<Run>, i: nat)
    requires i < |parts|
  {
    parts[i].guard == [] && |Spans(parts[i].text, 0)| == 1
    && forall j :: 0 <= j < |parts| && j != i ==> Spans(parts[j].text, 0) == []
  }

  predicate NoneHold(parts: seq<Run>) { forall j :: 0 <= j < |parts| ==> Spans(parts[j].text, 0) == [] }

  /** One part more. */
  lemma HeldMore(parts: seq<Run>, run: Run)
    ensures MarkerHeld(parts + [run]) <==>
            || (MarkerHeld(parts) && Spans(run.text, 0) == [])
            || (NoneHold(parts) && run.guard == [] && |Spans(run.text, 0)| == 1)
  {
    hide Spans;
    var more := parts + [run];
    assert more[|parts|] == run && forall j :: 0 <= j < |parts| ==> more[j] == parts[j];
    if i :| 0 <= i < |more| && HeldIn(more, i) {
      if i < |parts| {
        assert forall j :: 0 <= j < |parts| && j != i ==> Spans(more[j].text, 0) == [];
        assert HeldIn(parts, i);
      }
    }
    if MarkerHeld(parts) && Spans(run.text, 0) == [] {
      var i :| 0 <= i < |parts| && HeldIn(parts, i);
      assert HeldIn(more, i);
    }
    if NoneHold(parts) && run.guard == [] && |Spans(run.text, 0)| == 1 {
      assert HeldIn(more, |parts|);
    }
  }

  /** That is: all of them together hold it once, and the guarded ones do not. */
  lemma {:induction false} HeldMeansOnce(parts: seq<Run>)
    ensures MarkerHeld(parts) <==> Markers(parts, true) == 1 && Markers(parts, false) == 0
  {
    if parts != [] {
      hide Spans, MarkerHeld, NoneHold;
      var n := |parts| - 1;
      assert parts == parts[..n] + [parts[n]];
      HeldMeansOnce(parts[..n]);
      NoMarkers(parts[..n]);
      HeldMore(parts[..n], parts[n]);
    }
  }

  lemma {:induction false} NoMarkers(parts: seq<Run>)
    ensures Markers(parts, false) <= Markers(parts, true)
    ensures Markers(parts, true) == 0 <==> NoneHold(parts)
  {
    hide Spans;
    if parts != [] {
      var n := |parts| - 1;
      NoMarkers(parts[..n]);
      assert forall j :: 0 <= j < n ==> parts[j] == parts[..n][j];
    }
  }

  /** The page holds the marker once, whole inside one run, and that run is unguarded. */
  predicate MarkerOnce(runs: seq<Run>) {
    !MarkerMisplaced(runs) && MarkerHeld(runs)
  }

  /** What a build of the whole header should serve. */
  ghost function Expected(env: Env, site: Site): Served
    requires GuardsWellFormed(site)
  {
    if NamesDefined(env, AllValueNames(RunsOf(site))) then Page(SitePage(env, site, site.shell)) else Broken
  }

  /** generate: on every build the header either stops the compiler, exactly when a device leaves undefined a macro
      that some file's guard compares with zero, or serves the page assembled from the files that build keeps.  From
      sources that are UTF-8, as the tool checks when it reads them, it is made exactly when the site is accepted and
      the marker is in one unguarded run, once. */
  method Generate(site: Site, page8: Text, page9: Text) returns (r: Result<seq<Line>>)
    requires GuardsWellFormed(site)
    ensures r.Ok? ==> Accepts(site) && forall env: Env :: Serve(env, r.value) == Expected(env, site)
    ensures r.Ok? ==> forall env: Env :: KeepsPages(env, r.value, page8, page9)
    ensures r.Ok? ==> MarkerOnce(RunsOf(site))
    ensures SourcesAreUtf8(site) && Accepts(site) && MarkerOnce(RunsOf(site)) ==> r.Ok?
  {
    hide Surviving, SitePage, Serve, KeepsPages, Accepts, RunsOf, NamesDefined, Header, MarkerMisplaced, MarkerHeld, SourcesAreUtf8;
    var accepted, segments := AssembleSegments(site);
    if !accepted { return Raised; }
    var runs := segments.runs;
    if MarkerMisplaced(runs) { return Raised; }
    if SourcesAreUtf8(site) { RunsAreUtf8(site); }
    HeldMeansOnce(runs);
    var split := SplitSegments(runs);
    if split.Raised? { return Raised; }
    HeldMeansOnce(split.value);
    if !MarkerHeld(split.value) { return Raised; }
    var lines := Render(split.value, page8, page9);
    forall env: Env
      ensures Serve(env, lines) == Expected(env, site)
    {
      HeaderServes(env, split.value, page8, page9);
      RunsShowThePage(env, site);
    }
    return Ok(lines);
  }
}
