/** dumpInternalRecords of main/HeapLeakProbe.cpp: outstanding allocations grouped by call stack, sorted by bytes, and a
    census of stack prefixes. */
module LeakProbe {

  const WORD := 0x1_0000_0000

  /** A uint32_t. */
  type Word = n: nat | n < WORD

  type Stack = seq<nat>

  /** A trace record; `internal` when it was read, has an address, and the address is in internal RAM. */
  datatype Record = Record(internal: bool, frames: Stack, size: Word)

  datatype SiteTotal = SiteTotal(frames: Stack, bytes: Word, count: nat)

  // ---------------------------------------------------------------- the group-by, defined

  predicate Of(r: Record, frames: Stack) { r.internal && r.frames == frames }

  /** The bytes and the number of internal records with a stack. */
  function BytesOf(records: seq<Record>, frames: Stack): nat {
    if records == [] then 0
    else
      var n := |records| - 1;
      BytesOf(records[..n], frames) + (if Of(records[n], frames) then records[n].size else 0)
  }

  function CountOf(records: seq<Record>, frames: Stack): nat {
    if records == [] then 0
    else
      var n := |records| - 1;
      CountOf(records[..n], frames) + (if Of(records[n], frames) then 1 else 0)
  }

  function InternalBytes(records: seq<Record>): nat {
    if records == [] then 0
    else
      var n := |records| - 1;
      InternalBytes(records[..n]) + (if records[n].internal then records[n].size else 0)
  }

  function InternalCount(records: seq<Record>): nat {
    if records == [] then 0
    else
      var n := |records| - 1;
      InternalCount(records[..n]) + (if records[n].internal then 1 else 0)
  }

  /** Each site is a different stack, with the totals of its records; its 32-bit byte total wraps. */
  ghost predicate Grouped(records: seq<Record>, sites: seq<SiteTotal>) {
    && (forall a, b :: 0 <= a < b < |sites| ==> sites[a].frames != sites[b].frames)
    && (forall k :: 0 <= k < |sites| ==> IsSite(records, sites[k]))
  }

  predicate IsSite(records: seq<Record>, s: SiteTotal) {
    && s.bytes == BytesOf(records, s.frames) % WORD
    && s.count == CountOf(records, s.frames) > 0
  }

  predicate Listed(sites: seq<SiteTotal>, frames: Stack) {
    exists k :: 0 <= k < |sites| && sites[k].frames == frames
  }

  /** No internal record is left out. */
  ghost predicate Complete(records: seq<Record>, sites: seq<SiteTotal>) {
    forall i :: 0 <= i < |records| && records[i].internal ==> Listed(sites, records[i].frames)
  }

  // ---------------------------------------------------------------- aggregation

  /** What one more record does to the totals. */
  lemma OneMore(records: seq<Record>, i: nat, frames: Stack)
    requires i < |records|
    ensures BytesOf(records[..i + 1], frames) == BytesOf(records[..i], frames) + (if Of(records[i], frames) then records[i].size else 0)
    ensures CountOf(records[..i + 1], frames) == CountOf(records[..i], frames) + (if Of(records[i], frames) then 1 else 0)
    ensures InternalBytes(records[..i + 1]) == InternalBytes(records[..i]) + (if records[i].internal then records[i].size else 0)
    ensures InternalCount(records[..i + 1]) == InternalCount(records[..i]) + (if records[i].internal then 1 else 0)
  {
    assert records[..i + 1][..i] == records[..i];
  }

  /** A stack of no record has no bytes. */
  lemma {:induction false} NotSeen(records: seq<Record>, frames: Stack)
    requires forall i :: 0 <= i < |records| && records[i].internal ==> records[i].frames != frames
    ensures BytesOf(records, frames) == 0 && CountOf(records, frames) == 0
  {
    if records != [] {
      NotSeen(records[..|records| - 1], frames);
    }
  }

  /** The table after one more internal record: its site is found or new. */
  lemma SiteGrows(records: seq<Record>, i: nat, before: seq<SiteTotal>, after: seq<SiteTotal>, k: nat)
    requires i < |records| && records[i].internal
    requires Grouped(records[..i], before) && Complete(records[..i], before)
    requires k <= |before|
    requires forall j :: 0 <= j < |before| && j < k ==> before[j].frames != records[i].frames
    requires if k < |before| then
               before[k].frames == records[i].frames
               && after == before[k := SiteTotal(before[k].frames, (before[k].bytes + records[i].size) % WORD, before[k].count + 1)]
             else after == before + [SiteTotal(records[i].frames, records[i].size, 1)]
    ensures Grouped(records[..i + 1], after) && Complete(records[..i + 1], after)
  {
    hide BytesOf, CountOf;
    var r := records[i];
    if k == |before| {
      var done := records[..i];
      forall j | 0 <= j < |done| && done[j].internal
        ensures done[j].frames != r.frames
      {
        assert Listed(before, done[j].frames);
      }
      NotSeen(done, r.frames);
    }
    forall j | 0 <= j < |after|
      ensures IsSite(records[..i + 1], after[j])
    {
      OneMore(records, i, after[j].frames);
      if j < |before| {
        assert IsSite(records[..i], before[j]);
        assert before[j].frames == r.frames ==> j == k;
        Wraps(BytesOf(records[..i], before[j].frames), r.size);
      }
    }
    var done, more := records[..i], records[..i + 1];
    forall j | 0 <= j < |more| && more[j].internal
      ensures Listed(after, more[j].frames)
    {
      if j == i {
        assert after[k].frames == r.frames;
      } else {
        assert done[j] == more[j] && Listed(before, done[j].frames);
        var m :| 0 <= m < |before| && before[m].frames == done[j].frames;
        assert after[m].frames == before[m].frames;
      }
    }
  }

  lemma Wraps(a: nat, b: nat)
    ensures (a % WORD + b) % WORD == (a + b) % WORD
  {}

  /** A record that is not internal changes nothing. */
  lemma NothingGrows(records: seq<Record>, i: nat, sites: seq<SiteTotal>)
    requires i < |records| && !records[i].internal
    requires Grouped(records[..i], sites) && Complete(records[..i], sites)
    ensures Grouped(records[..i + 1], sites) && Complete(records[..i + 1], sites)
  {
    hide BytesOf, CountOf;
    forall k | 0 <= k < |sites|
      ensures IsSite(records[..i + 1], sites[k])
    {
      OneMore(records, i, sites[k].frames);
      assert IsSite(records[..i], sites[k]);
    }
    var done, more := records[..i], records[..i + 1];
    forall j | 0 <= j < |more| && more[j].internal
      ensures Listed(sites, more[j].frames)
    {
      assert done[j] == more[j];
    }
  }

  /** The site of a stack; siteCount if it has none yet. */
  method FindSite(sites: array<SiteTotal>, siteCount: nat, frames: Stack) returns (k: nat)
    requires siteCount <= sites.Length
    ensures k <= siteCount && (k < siteCount ==> sites[k].frames == frames)
    ensures forall j :: 0 <= j < k ==> sites[j].frames != frames
  {
    k := 0;
    while k < siteCount
      invariant k <= siteCount && forall j :: 0 <= j < k ==> sites[j].frames != frames
    {
      if sites[k].frames == frames { return; }
      k := k + 1;
    }
  }

  /** The first loop: for a list no longer than the table, an exact group-by with nothing left out. */
  method Aggregate(records: seq<Record>, sites: array<SiteTotal>)
    returns (siteCount: nat, internalSeen: nat, internalBytes: nat, overflow: int)
    requires |records| <= sites.Length
    modifies sites
    ensures overflow == 0 && siteCount <= |records|
    ensures Grouped(records, sites[..siteCount]) && Complete(records, sites[..siteCount])
    ensures internalSeen == InternalCount(records) && internalBytes == InternalBytes(records)
  {
    hide Grouped, Complete, InternalBytes, InternalCount;
    siteCount, internalSeen, internalBytes, overflow := 0, 0, 0, 0;
    NothingYet(records);
    assert sites[..0] == [];
    for i := 0 to |records|
      invariant siteCount <= i && overflow == 0
      invariant Grouped(records[..i], sites[..siteCount]) && Complete(records[..i], sites[..siteCount])
      invariant internalSeen == InternalCount(records[..i]) && internalBytes == InternalBytes(records[..i])
    {
      var rec := records[i];
      OneMore(records, i, rec.frames);
      if rec.internal {
        internalSeen := internalSeen + 1;
        internalBytes := internalBytes + rec.size;
        var k := FindSite(sites, siteCount, rec.frames);
        ghost var before := sites[..siteCount];
        var placed := true;
        if k == siteCount {
          if siteCount < sites.Length {
            sites[siteCount] := SiteTotal(rec.frames, 0, 0);
            siteCount := siteCount + 1;
          } else {
            overflow := overflow + 1;
            placed := false;
          }
        }
        if placed {
          sites[k] := sites[k].(bytes := (sites[k].bytes + rec.size) % WORD, count := sites[k].count + 1);
          SiteGrows(records, i, before, sites[..siteCount], k);
        }
      } else {
        NothingGrows(records, i, sites[..siteCount]);
      }
    }
    assert records[..|records|] == records;
  }

  lemma NothingYet(records: seq<Record>)
    ensures Grouped(records[..0], []) && Complete(records[..0], [])
    ensures InternalCount(records[..0]) == 0 && InternalBytes(records[..0]) == 0
  {}

  // ---------------------------------------------------------------- the totals

  function TotalBytes(sites: seq<SiteTotal>): nat {
    if sites == [] then 0 else TotalBytes(sites[..|sites| - 1]) + sites[|sites| - 1].bytes
  }

  /** The same without the wrap. */
  function FullBytes(records: seq<Record>, sites: seq<SiteTotal>): nat {
    if sites == [] then 0
    else FullBytes(records, sites[..|sites| - 1]) + BytesOf(records, sites[|sites| - 1].frames)
  }

  /** How many of the sites, all different, have a stack. */
  function SitesWith(sites: seq<SiteTotal>, frames: Stack): nat {
    if sites == [] then 0
    else SitesWith(sites[..|sites| - 1], frames) + (if sites[|sites| - 1].frames == frames then 1 else 0)
  }

  lemma {:induction false} OneSiteWith(sites: seq<SiteTotal>, frames: Stack)
    requires forall a, b :: 0 <= a < b < |sites| ==> sites[a].frames != sites[b].frames
    ensures SitesWith(sites, frames) == if Listed(sites, frames) then 1 else 0
  {
    if sites != [] {
      var n := |sites| - 1;
      OneSiteWith(sites[..n], frames);
      assert Listed(sites[..n], frames) ==> Listed(sites, frames);
      assert Listed(sites, frames) ==> Listed(sites[..n], frames) || sites[n].frames == frames;
      assert sites[n].frames == frames ==> !Listed(sites[..n], frames);
    }
  }

  lemma {:induction false} NothingToSum(sites: seq<SiteTotal>)
    ensures FullBytes([], sites) == 0
  {
    if sites != [] {
      NothingToSum(sites[..|sites| - 1]);
    }
  }

  lemma OneTimes(c: nat, x: nat)
    ensures (c + 1) * x == c * x + x
  {}

  lemma {:induction false} FullBytesGrow(records: seq<Record>, i: nat, sites: seq<SiteTotal>)
    requires i < |records|
    ensures FullBytes(records[..i + 1], sites) == FullBytes(records[..i], sites)
              + (if records[i].internal then SitesWith(sites, records[i].frames) * records[i].size else 0)
  {
    hide BytesOf;
    if sites != [] {
      var n := |sites| - 1;
      FullBytesGrow(records, i, sites[..n]);
      OneMore(records, i, sites[n].frames);
      OneTimes(SitesWith(sites[..n], records[i].frames), records[i].size);
    }
  }

  /** Every internal byte is in exactly one site. */
  lemma {:induction false} SitesShareAllBytes(records: seq<Record>, i: nat, sites: seq<SiteTotal>)
    requires i <= |records| && Complete(records, sites)
    requires forall a, b :: 0 <= a < b < |sites| ==> sites[a].frames != sites[b].frames
    ensures FullBytes(records[..i], sites) == InternalBytes(records[..i])
    decreases i
  {
    hide FullBytes, SitesWith, InternalBytes;
    if i == 0 {
      NothingToSum(sites);
      NothingYet(records);
      assert records[..0] == [];
    } else {
      SitesShareAllBytes(records, i - 1, sites);
      FullBytesGrow(records, i - 1, sites);
      OneMore(records, i - 1, []);
      OneSiteWith(sites, records[i - 1].frames);
    }
  }

  lemma {:induction false} WrapLosesWords(records: seq<Record>, sites: seq<SiteTotal>)
    requires forall k :: 0 <= k < |sites| ==> IsSite(records, sites[k])
    ensures TotalBytes(sites) <= FullBytes(records, sites)
    ensures TotalBytes(sites) == FullBytes(records, sites) <==>
            forall k :: 0 <= k < |sites| ==> BytesOf(records, sites[k].frames) < WORD
  {
    hide BytesOf, CountOf;
    if sites != [] {
      var n := |sites| - 1;
      assert IsSite(records, sites[n]);
      WrapLosesWords(records, sites[..n]);
      assert (forall k :: 0 <= k < |sites| ==> BytesOf(records, sites[k].frames) < WORD) <==>
             (forall k :: 0 <= k < n ==> BytesOf(records, sites[..n][k].frames) < WORD)
             && BytesOf(records, sites[n].frames) < WORD;
    }
  }

  /** The sites' bytes add up to internalBytes exactly when no site's total reaches 2^32, which no chip's internal
      RAM does. */
  lemma TotalsAddUp(records: seq<Record>, sites: seq<SiteTotal>)
    requires Grouped(records, sites) && Complete(records, sites)
    ensures TotalBytes(sites) == InternalBytes(records) <==>
            forall k :: 0 <= k < |sites| ==> BytesOf(records, sites[k].frames) < WORD
    ensures InternalBytes(records) < WORD ==> TotalBytes(sites) == InternalBytes(records)
  {
    hide BytesOf, InternalBytes, TotalBytes, FullBytes;
    SitesShareAllBytes(records, |records|, sites);
    assert records[..|records|] == records;
    WrapLosesWords(records, sites);
    forall k | 0 <= k < |sites|
      ensures BytesOf(records, sites[k].frames) <= InternalBytes(records)
    {
      PartOfAll(records, sites[k].frames);
    }
  }

  lemma {:induction false} PartOfAll(records: seq<Record>, frames: Stack)
    ensures BytesOf(records, frames) <= InternalBytes(records)
  {
    if records != [] {
      PartOfAll(records[..|records| - 1], frames);
    }
  }

  // ---------------------------------------------------------------- the sort

  ghost predicate Descending(sites: seq<SiteTotal>) {
    forall a, b :: 0 <= a <= b < |sites| ==> sites[a].bytes >= sites[b].bytes
  }

  lemma SwapPermutes(s: seq<SiteTotal>, a: nat, b: nat)
    requires a < |s| && b < |s|
    ensures multiset(s[a := s[b]][b := s[a]]) == multiset(s)
  {}

  method FindBest(sites: array<SiteTotal>, a: nat, siteCount: nat) returns (best: nat)
    requires a < siteCount <= sites.Length
    ensures a <= best < siteCount
    ensures forall b :: a <= b < siteCount ==> sites[b].bytes <= sites[best].bytes
  {
    best := a;
    for b := a + 1 to siteCount
      invariant a <= best < siteCount
      invariant forall j :: a <= j < b ==> sites[j].bytes <= sites[best].bytes
    {
      if sites[b].bytes > sites[best].bytes { best := b; }
    }
  }

  /** Where the sort stands: the first a sites are in order and no later one is larger. */
  ghost predicate SortedTo(s: seq<SiteTotal>, a: nat) {
    && (forall i, j :: 0 <= i <= j < a && j < |s| ==> s[i].bytes >= s[j].bytes)
    && (forall i, j :: 0 <= i < a <= j < |s| ==> s[i].bytes >= s[j].bytes)
  }

  lemma SwapSorts(s: seq<SiteTotal>, a: nat, best: nat)
    requires SortedTo(s, a) && a <= best < |s|
    requires forall b :: a <= b < |s| ==> s[b].bytes <= s[best].bytes
    ensures SortedTo(s[a := s[best]][best := s[a]], a + 1)
  {}

  /** The selection sort: the same sites, by bytes, descending. */
  method SortSites(sites: array<SiteTotal>, siteCount: nat)
    requires siteCount <= sites.Length
    modifies sites
    ensures Descending(sites[..siteCount]) && multiset(sites[..siteCount]) == multiset(old(sites[..siteCount]))
    ensures sites[siteCount..] == old(sites[siteCount..])
  {
    hide SortedTo;
    ghost var before, rest := sites[..siteCount], sites[siteCount..];
    NothingSorted(sites[..siteCount]);
    var a := 0;
    while a + 1 < siteCount
      invariant a <= siteCount
      invariant SortedTo(sites[..siteCount], a)
      invariant multiset(sites[..siteCount]) == multiset(before) && sites[siteCount..] == rest
    {
      var best := FindBest(sites, a, siteCount);
      ghost var s := sites[..siteCount];
      SwapSorts(s, a, best);
      SwapPermutes(s, a, best);
      if best != a {
        sites[a], sites[best] := sites[best], sites[a];
      }
      assert sites[..siteCount] == s[a := s[best]][best := s[a]];
      a := a + 1;
    }
    AllSorted(sites[..siteCount], a);
  }

  lemma NothingSorted(s: seq<SiteTotal>)
    ensures SortedTo(s, 0)
  {}

  lemma AllSorted(s: seq<SiteTotal>, a: nat)
    requires SortedTo(s, a) && a + 1 >= |s|
    ensures Descending(s)
  {}

  /** Sorting keeps the grouping: a permutation of distinct sites is the same sites. */
  lemma SortKeepsGroups(records: seq<Record>, a: seq<SiteTotal>, b: seq<SiteTotal>)
    requires Grouped(records, a) && Complete(records, a) && multiset(a) == multiset(b)
    ensures Grouped(records, b) && Complete(records, b)
  {
    hide IsSite;
    forall k | 0 <= k < |b|
      ensures IsSite(records, b[k])
    {
      InBoth(a, b, k);
    }
    forall i, j | 0 <= i < j < |b|
      ensures b[i].frames != b[j].frames
    {
      InBoth(a, b, i);
      InBoth(a, b, j);
      if b[i].frames == b[j].frames {
        assert b[i] == b[j];
        Twice(b, i, j);
        Once(a, b[i]);
      }
    }
    forall i | 0 <= i < |records| && records[i].internal
      ensures Listed(b, records[i].frames)
    {
      assert Listed(a, records[i].frames);
      var k :| 0 <= k < |a| && a[k].frames == records[i].frames;
      InBoth(b, a, k);
    }
  }

  lemma InBoth(a: seq<SiteTotal>, b: seq<SiteTotal>, k: nat)
    requires multiset(a) == multiset(b) && k < |b|
    ensures b[k] in a
  {
    assert b[k] in multiset(b);
  }

  lemma {:induction false} Twice(b: seq<SiteTotal>, i: nat, j: nat)
    requires i < j < |b| && b[i] == b[j]
    ensures multiset(b)[b[i]] >= 2
  {
    assert b == b[..j] + b[j..];
    assert b[..j][i] == b[i] && b[j..][0] == b[i];
    assert b[i] in multiset(b[..j]) && b[i] in multiset(b[j..]);
  }

  lemma {:induction false} Once(a: seq<SiteTotal>, s: SiteTotal)
    requires forall i, j :: 0 <= i < j < |a| ==> a[i].frames != a[j].frames
    ensures multiset(a)[s] <= 1
  {
    if a != [] {
      var n := |a| - 1;
      Once(a[..n], s);
      assert a == a[..n] + [a[n]];
      if s == a[n] {
        assert s !in a[..n];
        assert multiset(a[..n])[s] == 0;
      }
    }
  }

  // ---------------------------------------------------------------- the prefix census

  function Prefix(s: Stack, depth: nat): Stack { if depth <= |s| then s[..depth] else s }

  /** Two stacks count as one at a depth if their first frames agree so far. */
  lemma PrefixIs(s: Stack, t: Stack, depth: nat)
    requires depth <= |s| && depth <= |t|
    ensures Prefix(s, depth) == Prefix(t, depth) <==> forall k :: 0 <= k < depth ==> s[k] == t[k]
  {
    assert forall k :: 0 <= k < depth ==> Prefix(s, depth)[k] == s[k] && Prefix(t, depth)[k] == t[k];
  }

  /** The different prefixes of the sites' stacks. */
  ghost function Prefixes(sites: seq<SiteTotal>, depth: nat): set<Stack> {
    set k | 0 <= k < |sites| :: Prefix(sites[k].frames, depth)
  }

  /** The different prefixes among the internal records. */
  ghost function RecordPrefixes(records: seq<Record>, depth: nat): set<Stack> {
    set i | 0 <= i < |records| && records[i].internal :: Prefix(records[i].frames, depth)
  }

  method SeenBefore(sites: array<SiteTotal>, a: nat, depth: nat) returns (seen: bool)
    requires a < sites.Length
    ensures seen == (Prefix(sites[a].frames, depth) in Prefixes(sites[..a], depth))
  {
    seen := false;
    for b := 0 to a
      invariant !seen && Prefix(sites[a].frames, depth) !in Prefixes(sites[..b], depth)
    {
      if Prefix(sites[a].frames, depth) == Prefix(sites[b].frames, depth) {
        assert sites[..a][b] == sites[b];
        return true;
      }
      PrefixesMore(sites[..], b, depth);
    }
  }

  lemma PrefixesMore(sites: seq<SiteTotal>, a: nat, depth: nat)
    requires a < |sites|
    ensures Prefixes(sites[..a + 1], depth) == Prefixes(sites[..a], depth) + {Prefix(sites[a].frames, depth)}
  {
    var more := sites[..a + 1];
    forall p | p in Prefixes(sites[..a], depth) + {Prefix(sites[a].frames, depth)}
      ensures p in Prefixes(more, depth)
    {
      if p == Prefix(sites[a].frames, depth) {
        assert more[a] == sites[a];
      } else {
        var k :| 0 <= k < a && Prefix(sites[..a][k].frames, depth) == p;
        assert more[k] == sites[..a][k];
      }
    }
    forall p | p in Prefixes(more, depth)
      ensures p in Prefixes(sites[..a], depth) + {Prefix(sites[a].frames, depth)}
    {
      var k :| 0 <= k < a + 1 && Prefix(more[k].frames, depth) == p;
      assert k < a ==> sites[..a][k] == more[k];
    }
  }

  method Census(sites: array<SiteTotal>, siteCount: nat, depth: nat) returns (distinct: nat)
    requires siteCount <= sites.Length
    ensures distinct == |Prefixes(sites[..siteCount], depth)|
  {
    hide Prefixes, Prefix;
    distinct := 0;
    NoPrefixes(depth);
    assert sites[..0] == [];
    for a := 0 to siteCount
      invariant distinct == |Prefixes(sites[..a], depth)|
    {
      var seen := SeenBefore(sites, a, depth);
      PrefixesMore(sites[..], a, depth);
      assert sites[..][..a] == sites[..a] && sites[..][..a + 1] == sites[..a + 1];
      if !seen { distinct := distinct + 1; } else {
        assert Prefixes(sites[..a + 1], depth) == Prefixes(sites[..a], depth);
      }
    }
  }

  lemma NoPrefixes(depth: nat)
    ensures Prefixes([], depth) == {}
  {}

  /** The census counts the different prefixes among the internal records themselves. */
  lemma CensusIsOfRecords(records: seq<Record>, sites: seq<SiteTotal>, depth: nat)
    requires Grouped(records, sites) && Complete(records, sites)
    ensures Prefixes(sites, depth) == RecordPrefixes(records, depth)
  {
    hide BytesOf, CountOf, Prefix;
    forall p | p in Prefixes(sites, depth)
      ensures p in RecordPrefixes(records, depth)
    {
      var k :| 0 <= k < |sites| && Prefix(sites[k].frames, depth) == p;
      assert IsSite(records, sites[k]);
      var i := SomeRecord(records, sites[k].frames);
    }
    forall p | p in RecordPrefixes(records, depth)
      ensures p in Prefixes(sites, depth)
    {
      var i :| 0 <= i < |records| && records[i].internal && Prefix(records[i].frames, depth) == p;
      assert Listed(sites, records[i].frames);
    }
  }

  lemma {:induction false} SomeRecord(records: seq<Record>, frames: Stack) returns (i: nat)
    requires CountOf(records, frames) > 0
    ensures i < |records| && Of(records[i], frames)
  {
    var n := |records| - 1;
    if Of(records[n], frames) {
      i := n;
    } else {
      i := SomeRecord(records[..n], frames);
    }
  }

  /** The depths that are reported: 1, 2 and 4, while they are below the depth of a stack. */
  function Depths(stackDepth: nat): seq<nat> {
    if stackDepth <= 1 then [] else if stackDepth <= 2 then [1] else if stackDepth <= 4 then [1, 2] else [1, 2, 4]
  }

  /** No other depth, and none twice. */
  lemma DepthsAre(stackDepth: nat, depth: nat)
    ensures depth in Depths(stackDepth) <==> depth in {1, 2, 4} && depth < stackDepth
    ensures forall a, b :: 0 <= a < b < |Depths(stackDepth)| ==> Depths(stackDepth)[a] < Depths(stackDepth)[b]
  {}

  /** dumpInternalRecords: the sites, sorted, and the census. */
  method DumpInternalRecords(records: seq<Record>, sites: array<SiteTotal>, stackDepth: nat)
    returns (siteCount: nat, internalBytes: nat, overflow: int, census: seq<nat>)
    requires |records| <= sites.Length
    modifies sites
    ensures overflow == 0 && siteCount <= |records| && internalBytes == InternalBytes(records)
    ensures Grouped(records, sites[..siteCount]) && Complete(records, sites[..siteCount])
    ensures Descending(sites[..siteCount])
    ensures |census| == |Depths(stackDepth)|
    ensures forall d :: 0 <= d < |census| ==> census[d] == |RecordPrefixes(records, Depths(stackDepth)[d])|
  {
    hide Grouped, Complete, Descending, InternalBytes, Prefixes, RecordPrefixes;
    var internalSeen;
    siteCount, internalSeen, internalBytes, overflow := Aggregate(records, sites);
    ghost var before := sites[..siteCount];
    SortSites(sites, siteCount);
    SortKeepsGroups(records, before, sites[..siteCount]);
    ghost var sorted := sites[..];
    assert sorted[..siteCount] == sites[..siteCount];
    census := [];
    var depth := 1;
    while depth <= 4
      invariant sites[..] == sorted && |census| <= |Depths(stackDepth)|
      invariant (depth == 1 && census == []) || (depth == 2 && |census| == 1) || (depth == 4 && |census| == 2)
                || (depth == 8 && |census| == 3)
      invariant forall d :: 0 <= d < |census| ==> census[d] == |RecordPrefixes(records, Depths(stackDepth)[d])|
      decreases 8 - depth
    {
      if depth >= stackDepth { break; }
      var distinct := Census(sites, siteCount, depth);
      CensusIsOfRecords(records, sites[..siteCount], depth);
      assert Depths(stackDepth)[|census|] == depth;
      census := census + [distinct];
      depth := depth * 2;
    }
  }
}
