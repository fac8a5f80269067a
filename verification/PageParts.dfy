/** split_parts of tools/gen_index_html.py: a run is cut into parts under a size cap, never inside a UTF-8 sequence
    or the CSRF marker. */
module PageParts {
  import opened Numbers
  import opened Guards
  import opened PageTree

  const PART_CAP := 16000

  /** __PD_CSRF__ */
  const MARKER: Text := [0x5F, 0x5F, 0x50, 0x44, 0x5F, 0x43, 0x53, 0x52, 0x46, 0x5F, 0x5F]

  const NEWLINE: Octet := 0x0A

  // ---------------------------------------------------------------- UTF-8

  /** (b & 0xC0) == 0x80 */
  predicate Continues(b: Octet) { 0x80 <= b < 0xC0 }

  /** How long a sequence is, by its first byte; 0 if no sequence starts so. */
  function SequenceLength(b: Octet): nat {
    if b < 0x80 then 1
    else if b < 0xC0 then 0
    else if b < 0xE0 then 2
    else if b < 0xF0 then 3
    else if b < 0xF8 then 4 else 0
  }

  /** A whole sequence at the start. */
  predicate StartsWhole(t: Text) {
    t != [] &&
    var n := SequenceLength(t[0]);
    0 < n <= |t| && forall i :: 0 < i < n ==> Continues(t[i])
  }

  /** Whole sequences only. */
  predicate Utf8(t: Text)
    decreases |t|
  {
    t == [] || (StartsWhole(t) && Utf8(t[SequenceLength(t[0])..]))
  }

  /** Cut where no continuation byte follows, both sides are whole. */
  lemma {:induction false} CutIsWhole(t: Text, i: nat)
    requires Utf8(t) && i <= |t| && (i < |t| ==> !Continues(t[i]))
    ensures Utf8(t[..i]) && Utf8(t[i..])
    decreases |t|
  {
    if i == 0 {
      assert t[0..] == t && t[..0] == [];
    } else {
      var n := SequenceLength(t[0]);
      assert i >= n;
      CutIsWhole(t[n..], i - n);
      assert t[n..][..i - n] == t[..i][n..] && t[n..][i - n..] == t[i..];
    }
  }

  /** No more than three continuation bytes in a row. */
  lemma {:induction false} FewContinue(t: Text, i: nat)
    requires Utf8(t) && i + 4 <= |t|
    ensures !Continues(t[i]) || !Continues(t[i + 1]) || !Continues(t[i + 2]) || !Continues(t[i + 3])
    decreases |t|
  {
    var n := SequenceLength(t[0]);
    if i >= n {
      FewContinue(t[n..], i - n);
    } else if n < |t| {
      assert t[n..] != [] && StartsWhole(t[n..]) && t[n..][0] == t[n];
    }
  }

  // ---------------------------------------------------------------- the marker

  predicate MarkerAt(t: Text, a: nat) {
    a + |MARKER| <= |t| && t[a..a + |MARKER|] == MARKER
  }

  /** A cut that splits no marker. */
  ghost predicate SparesMarkers(t: Text, cut: nat) {
    forall a: nat :: MarkerAt(t, a) ==> !(a < cut < a + |MARKER|)
  }

  /** The markers re.finditer finds: from left to right, none overlapping the one before. */
  function Spans(t: Text, from: nat): (spans: seq<nat>)
    decreases |t| - from
  {
    if from >= |t| then []
    else if MarkerAt(t, from) then [from] + Spans(t, from + |MARKER|)
    else Spans(t, from + 1)
  }

  /** Where the search for marker i begins, and where it ends. */
  function SearchFrom(spans: seq<nat>, from: nat, i: nat): nat
    requires i <= |spans|
  {
    if i == 0 then from else spans[i - 1] + |MARKER|
  }

  function SearchTo(spans: seq<nat>, t: Text, i: nat): nat
    requires i <= |spans|
  {
    if i < |spans| then spans[i] else |t|
  }

  /** No marker is passed over: between the end of one found and the start of the next, and behind the last, none begins. */
  lemma {:induction false} SpansLeftmost(t: Text, from: nat, i: nat, a: nat)
    requires i <= |Spans(t, from)| && SearchFrom(Spans(t, from), from, i) <= a < SearchTo(Spans(t, from), t, i)
    ensures !MarkerAt(t, a)
    decreases |t| - from
  {
    hide MarkerAt;
    SpansFound(t, from);
    if from < |t| {
      if MarkerAt(t, from) {
        if i > 0 {
          SpansLeftmost(t, from + |MARKER|, i - 1, a);
        }
      } else if a > from {
        SpansLeftmost(t, from + 1, i, a);
      }
    }
  }

  lemma {:induction false} SpansFound(t: Text, from: nat)
    ensures forall i :: 0 <= i < |Spans(t, from)| ==> MarkerAt(t, Spans(t, from)[i]) && from <= Spans(t, from)[i]
    ensures forall i, j :: 0 <= i < j < |Spans(t, from)| ==> Spans(t, from)[i] + |MARKER| <= Spans(t, from)[j]
    decreases |t| - from
  {
    hide MarkerAt;
    if from < |t| {
      if MarkerAt(t, from) {
        SpansFound(t, from + |MARKER|);
      } else {
        SpansFound(t, from + 1);
      }
    }
  }

  lemma MarkerBytes(t: Text, a: nat, k: nat)
    requires MarkerAt(t, a) && k < |MARKER|
    ensures t[a + k] == MARKER[k] && !Continues(t[a + k]) && t[a + k] != NEWLINE
  {
    assert t[a..a + |MARKER|][k] == t[a + k];
  }

  // ---------------------------------------------------------------- one cut

  datatype Result<T> = Ok(value: T) | Raised

  /** rfind: the last newline in [from, end); -1 if there is none. */
  method LastNewline(t: Text, from: nat, end: nat) returns (nl: int)
    requires from <= end <= |t|
    ensures nl == -1 || (from <= nl < end && t[nl] == NEWLINE)
    ensures forall k :: from <= k < end && nl < k ==> t[k] != NEWLINE
  {
    var k := end;
    while k > from
      invariant from <= k <= end
      invariant forall j :: k <= j < end ==> t[j] != NEWLINE
    {
      k := k - 1;
      if t[k] == NEWLINE { return k; }
    }
    return -1;
  }

  /** Where the next part would end, the markers aside: after the last newline that fits, else at the cap,
      backed out of a UTF-8 sequence. */
  method PlainCut(t: Text, pos: nat, cap: nat) returns (cut: nat, atNewline: bool)
    requires 0 < cap < |t| - pos
    ensures pos <= cut <= pos + cap
    ensures atNewline ==> pos < cut && t[cut - 1] == NEWLINE && forall k :: cut <= k < pos + cap ==> t[k] != NEWLINE
    ensures !atNewline ==> forall k :: pos <= k < pos + cap ==> t[k] != NEWLINE
    ensures !atNewline ==> forall k :: cut < k <= pos + cap ==> Continues(t[k])
    ensures !atNewline ==> cut == pos || !Continues(t[cut])
  {
    var end := pos + cap;
    var nl := LastNewline(t, pos, end);
    if nl >= pos { return nl + 1, true; }
    cut := end;
    while cut > pos && Continues(t[cut])
      invariant pos <= cut <= end
      invariant forall k :: cut < k <= end ==> Continues(t[k])
    {
      cut := cut - 1;
    }
    atNewline := false;
  }

  /** for a, b in marker_spans: if a < cut < b: cut = a */
  method OutOfMarkers(t: Text, spans: seq<nat>, from: nat) returns (cut: nat)
    requires forall i :: 0 <= i < |spans| ==> MarkerAt(t, spans[i])
    requires forall i, j :: 0 <= i < j < |spans| ==> spans[i] + |MARKER| <= spans[j]
    ensures cut == from || (MarkerAt(t, cut) && cut < from < cut + |MARKER|)
    ensures forall i :: 0 <= i < |spans| ==> !(spans[i] < cut < spans[i] + |MARKER|)
  {
    hide MarkerAt;
    cut := from;
    for k := 0 to |spans|
      invariant cut == from || (MarkerAt(t, cut) && cut < from < cut + |MARKER|)
      invariant cut == from || exists i :: 0 <= i < k && spans[i] == cut
      invariant forall i :: 0 <= i < k ==> !(spans[i] < cut < spans[i] + |MARKER|)
    {
      if spans[k] < cut < spans[k] + |MARKER| {
        cut := spans[k];
      }
    }
  }

  // ---------------------------------------------------------------- all parts

  function Joined(parts: seq<Text>): Text {
    if parts == [] then [] else Joined(parts[..|parts| - 1]) + parts[|parts| - 1]
  }

  lemma JoinedMore(parts: seq<Text>, part: Text)
    ensures Joined(parts + [part]) == Joined(parts) + part
  {
    assert (parts + [part])[..|parts|] == parts;
  }

  /** A cut the tool may make: it makes progress, keeps under the cap, comes after the last newline that fits if
      there is one, and splits neither a sequence nor a marker. */
  ghost predicate GoodCut(t: Text, pos: nat, cut: nat, cap: nat) {
    && pos < cut <= pos + cap < |t|
    && (forall k :: cut <= k < pos + cap ==> t[k] != NEWLINE)
    && (t[cut - 1] == NEWLINE || forall k :: pos <= k < pos + cap ==> t[k] != NEWLINE)
    && (Utf8(t[pos..]) ==> cut == |t| || !Continues(t[cut]))
    && forall i :: 0 <= i < |Spans(t, 0)| ==> !(Spans(t, 0)[i] < cut < Spans(t, 0)[i] + |MARKER|)
  }

  lemma AfterNewline(t: Text, pos: nat, cut: nat)
    requires pos < cut < |t| && t[cut - 1] == NEWLINE && Utf8(t[pos..])
    ensures !Continues(t[cut])
    decreases cut - pos
  {
    var rest := t[pos..];
    var n := SequenceLength(rest[0]);
    assert forall i :: 0 < i < n ==> Continues(rest[i]);
    assert rest[n..] == t[pos + n..];
    if pos + n < cut {
      assert forall i :: 0 < i < n ==> rest[i] != NEWLINE;
      AfterNewline(t, pos + n, cut);
    } else {
      assert rest[cut - 1 - pos] == NEWLINE;
      assert t[cut..] == rest[n..];
    }
  }

  lemma FewBack(t: Text, pos: nat, cut: nat, cap: nat)
    requires 4 <= cap < |t| - pos && pos <= cut <= pos + cap && Utf8(t[pos..])
    requires forall k :: cut < k <= pos + cap ==> Continues(t[k])
    ensures cut + 3 >= pos + cap
  {
    var rest := t[pos..];
    assert forall k :: cut - pos < k <= cap ==> Continues(rest[k]) by {
      forall k | cut - pos < k <= cap
        ensures Continues(rest[k])
      {
        assert rest[k] == t[pos + k];
      }
    }
    if cut + 4 <= pos + cap {
      FewContinue(rest, cut + 1 - pos);
      assert false;
    }
  }

  /** One turn of the loop; it raises only where there is no good place to cut, which a cap of 14 rules out for
      UTF-8 text. */
  method NextCut(t: Text, pos: nat, cap: nat, spans: seq<nat>) returns (r: Result<nat>)
    requires spans == Spans(t, 0) && 0 < cap < |t| - pos
    ensures r.Ok? ==> GoodCut(t, pos, r.value, cap)
    ensures Utf8(t[pos..]) && cap >= 14 ==> r.Ok?
  {
    hide Utf8, Spans;
    SpansFound(t, 0);
    var plain, atNewline := PlainCut(t, pos, cap);
    var cut := OutOfMarkers(t, spans, plain);
    if cut < plain {
      MarkerBytes(t, cut, 0);
      if atNewline {
        MarkerBytes(t, cut, plain - 1 - cut);
      }
    }
    if Utf8(t[pos..]) {
      if atNewline && plain < |t| {
        AfterNewline(t, pos, plain);
      }
      if cap >= 14 && !atNewline {
        FewBack(t, pos, plain, cap);
      }
    }
    if cut <= pos { return Raised; }
    return Ok(cut);
  }

  /** What split_parts promises of its parts. */
  ghost predicate GoodParts(t: Text, parts: seq<Text>, cap: nat) {
    && Joined(parts) == t
    && (forall i :: 0 <= i < |parts| ==> 0 < |parts[i]| <= cap)
    && (Utf8(t) ==> forall i :: 0 <= i < |parts| ==> Utf8(parts[i]))
  }

  /** Where the parts end. */
  ghost predicate CutsSpareMarkers(t: Text, parts: seq<Text>) {
    forall i :: 0 <= i <= |parts| ==> SparesFound(t, |Joined(parts[..i])|)
  }

  ghost predicate SparesFound(t: Text, cut: nat) { NoneStraddles(Spans(t, 0), cut) }

  /** No marker reaches over the place. */
  ghost predicate NoneStraddles(spans: seq<nat>, cut: nat) {
    forall i :: 0 <= i < |spans| ==> !(spans[i] < cut < spans[i] + |MARKER|)
  }

  /** split_parts: the parts join to the text, none is empty or over the cap, each is UTF-8 if the text is, and
      no cut falls inside a marker.  UTF-8 text is never refused, except the empty text. */
  method SplitParts(t: Text, cap: nat) returns (r: Result<seq<Text>>)
    requires cap > 0
    ensures r.Ok? ==> GoodParts(t, r.value, cap) && CutsSpareMarkers(t, r.value)
    ensures t == [] ==> r.Raised?
    ensures r.Ok? ==> r.value != []
    ensures t != [] && Utf8(t) && cap >= 14 ==> r.Ok?
  {
    hide Utf8, Spans;
    if t == [] { return Raised; }
    var spans := FindSpans(t);
    SpansFound(t, 0);
    var parts: seq<Text>, pos := [], 0;
    assert t[0..] == t && t[..0] == [];
    while pos < |t|
      invariant pos <= |t| && Joined(parts) == t[..pos]
      invariant forall i :: 0 <= i < |parts| ==> 0 < |parts[i]| <= cap
      invariant Utf8(t) ==> Utf8(t[pos..]) && forall i :: 0 <= i < |parts| ==> Utf8(parts[i])
      invariant CutsSpareMarkers(t, parts)
    {
      var cut := |t|;
      if |t| - pos > cap {
        var next := NextCut(t, pos, cap, spans);
        if next.Raised? { return Raised; }
        cut := next.value;
      } else {
        EndSparesMarkers(t);
      }
      CutOff(t, pos, cut);
      AddPart(t, parts, pos, cut);
      parts := parts + [t[pos..cut]];
      pos := cut;
    }
    assert t[..pos] == t;
    return Ok(parts);
  }

  lemma EndSparesMarkers(t: Text)
    ensures SparesFound(t, |t|)
  {
    SpansFound(t, 0);
  }

  lemma CutOff(t: Text, pos: nat, cut: nat)
    requires pos <= cut <= |t| && (cut < |t| && Utf8(t[pos..]) ==> !Continues(t[cut]))
    ensures t[..pos] + t[pos..cut] == t[..cut]
    ensures Utf8(t[pos..]) ==> Utf8(t[pos..cut]) && Utf8(t[cut..])
  {
    if Utf8(t[pos..]) {
      CutIsWhole(t[pos..], cut - pos);
      assert t[pos..][..cut - pos] == t[pos..cut] && t[pos..][cut - pos..] == t[cut..];
    }
  }

  lemma AddPart(t: Text, parts: seq<Text>, pos: nat, cut: nat)
    requires pos <= cut <= |t| && Joined(parts) == t[..pos] && CutsSpareMarkers(t, parts) && SparesFound(t, cut)
    ensures Joined(parts + [t[pos..cut]]) == t[..cut] && CutsSpareMarkers(t, parts + [t[pos..cut]])
  {
    hide SparesFound;
    var part := t[pos..cut];
    var more := parts + [part];
    JoinedMore(parts, part);
    assert t[..pos] + part == t[..cut];
    forall i | 0 <= i <= |more|
      ensures SparesFound(t, |Joined(more[..i])|)
    {
      if i <= |parts| {
        assert more[..i] == parts[..i];
      } else {
        assert more[..i] == more;
      }
    }
  }

  /** re.finditer. */
  method FindSpans(t: Text) returns (spans: seq<nat>)
    ensures spans == Spans(t, 0)
  {
    hide MarkerAt;
    spans := [];
    var i := 0;
    while i < |t|
      invariant spans + Spans(t, i) == Spans(t, 0)
      decreases |t| - i
    {
      if MarkerAt(t, i) {
        assert spans + ([i] + Spans(t, i + |MARKER|)) == spans + [i] + Spans(t, i + |MARKER|);
        spans := spans + [i];
        i := i + |MARKER|;
      } else {
        i := i + 1;
      }
    }
    assert spans + [] == spans;
  }

  /** A text with one marker, as the tool checks: the marker is whole inside one part. */
  lemma OneMarkerIsSpared(t: Text, parts: seq<Text>, a: nat, i: nat)
    requires CutsSpareMarkers(t, parts) && i <= |parts|
    requires MarkerAt(t, a) && forall b: nat :: MarkerAt(t, b) ==> b == a
    ensures SparesMarkers(t, |Joined(parts[..i])|)
  {
    hide MarkerAt;
    OneMarkerIsFound(t, 0, a);
    assert SparesFound(t, |Joined(parts[..i])|);
    assert Spans(t, 0)[0] == a;
  }

  /** A cut outside the markers divides them: those before it are found on its left, as many as there are behind
      it on its right. */
  lemma {:induction false} CutDividesSpans(t: Text, from: nat, cut: nat)
    requires from <= cut <= |t| && NoneStraddles(Spans(t, from), cut)
    ensures |Spans(t, from)| == |Spans(t[..cut], from)| + |Spans(t[cut..], 0)|
    ensures Spans(t[..cut], from) <= Spans(t, from)
    decreases cut - from
  {
    hide MarkerAt;
    if from == cut {
      SpansBehind(t, cut, 0);
    } else {
      MarkerInPrefix(t, from, cut);
      var rest := if MarkerAt(t, from) then from + |MARKER| else from + 1;
      if MarkerAt(t, from) {
        assert Spans(t, from) == [from] + Spans(t, rest) && Spans(t, from)[0] == from;
      }
      forall i | 0 <= i < |Spans(t, rest)|
        ensures !(Spans(t, rest)[i] < cut < Spans(t, rest)[i] + |MARKER|)
      {
        assert MarkerAt(t, from) ==> Spans(t, rest)[i] == Spans(t, from)[i + 1];
        assert !MarkerAt(t, from) ==> Spans(t, rest)[i] == Spans(t, from)[i];
      }
      CutDividesSpans(t, rest, cut);
    }
  }

  lemma MarkerInPrefix(t: Text, a: nat, cut: nat)
    requires a < cut <= |t|
    ensures MarkerAt(t[..cut], a) <==> MarkerAt(t, a) && a + |MARKER| <= cut
  {
    if a + |MARKER| <= cut {
      assert t[..cut][a..a + |MARKER|] == t[a..a + |MARKER|];
    }
  }

  lemma {:induction false} SpansBehind(t: Text, cut: nat, k: nat)
    requires cut <= |t|
    ensures |Spans(t, cut + k)| == |Spans(t[cut..], k)|
    decreases |t| - cut - k
  {
    hide MarkerAt;
    if cut + k < |t| {
      MarkerBehind(t, cut, k);
      SpansBehind(t, cut, if MarkerAt(t, cut + k) then k + |MARKER| else k + 1);
    }
  }

  lemma MarkerBehind(t: Text, cut: nat, k: nat)
    requires cut <= |t|
    ensures MarkerAt(t[cut..], k) <==> MarkerAt(t, cut + k)
  {
    if cut + k + |MARKER| <= |t| {
      assert t[cut..][k..k + |MARKER|] == t[cut + k..cut + k + |MARKER|];
    }
  }

  /** How many markers the parts hold, each on its own. */
  function MarkersIn(parts: seq<Text>): nat {
    if parts == [] then 0 else MarkersIn(parts[..|parts| - 1]) + |Spans(parts[|parts| - 1], 0)|
  }

  /** No marker is lost or made by splitting. */
  lemma {:induction false} PartsKeepMarkers(t: Text, parts: seq<Text>)
    requires Joined(parts) == t && CutsSpareMarkers(t, parts)
    ensures MarkersIn(parts) == |Spans(t, 0)|
    decreases |parts|
  {
    hide Spans;
    if parts == [] {
      NoText();
    } else {
      var k := |parts| - 1;
      var cut := |Joined(parts[..k])|;
      assert t[..cut] == Joined(parts[..k]) && t[cut..] == parts[k];
      assert SparesFound(t, |Joined(parts[..k])|);
      CutDividesSpans(t, 0, cut);
      forall i | 0 <= i <= k
        ensures SparesFound(t[..cut], |Joined(parts[..k][..i])|)
      {
        assert parts[..k][..i] == parts[..i];
        assert SparesFound(t, |Joined(parts[..i])|);
        PrefixSpares(t, cut, |Joined(parts[..i])|);
      }
      PartsKeepMarkers(t[..cut], parts[..k]);
    }
  }

  lemma PrefixSpares(t: Text, cut: nat, c: nat)
    requires cut <= |t| && Spans(t[..cut], 0) <= Spans(t, 0) && SparesFound(t, c)
    ensures SparesFound(t[..cut], c)
  {
    hide Spans;
    forall i | 0 <= i < |Spans(t[..cut], 0)|
      ensures !(Spans(t[..cut], 0)[i] < c < Spans(t[..cut], 0)[i] + |MARKER|)
    {
      assert Spans(t[..cut], 0)[i] == Spans(t, 0)[i];
    }
  }

  lemma NoText()
    ensures Spans([], 0) == []
  {}

  lemma {:induction false} OneMarkerIsFound(t: Text, from: nat, a: nat)
    requires MarkerAt(t, a) && from <= a
    requires forall b: nat :: from <= b && MarkerAt(t, b) ==> b == a
    ensures Spans(t, from) == [a]
    decreases |t| - from
  {
    hide MarkerAt;
    InsideText(t, a);
    if from == a {
      NoneLeft(t, from + |MARKER|);
    } else {
      OneMarkerIsFound(t, from + 1, a);
    }
  }

  lemma InsideText(t: Text, a: nat)
    requires MarkerAt(t, a)
    ensures a < |t|
  {}

  lemma {:induction false} NoneLeft(t: Text, from: nat)
    requires forall b: nat :: from <= b ==> !MarkerAt(t, b)
    ensures Spans(t, from) == []
    decreases |t| - from
  {
    hide MarkerAt;
    if from < |t| {
      NoneLeft(t, from + 1);
    }
  }
}
