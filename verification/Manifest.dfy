/** read_manifest_guards of tools/gen_index_html.py: which manifests are accepted, and with what guards.  A line comes
    here already matched against the tool's regular expressions. */
module Manifest {
  import opened Guards

  datatype Line =
    | Blank                         // empty, or a comment
    | Directive(clause: Clause)     // @if NAME, @if NAME!=0, @unless NAME, @only NAME; also @unless NAME!=0
    | Malformed                     // any other line that starts with @
    | PathLine(path: string)

  datatype Entry = Entry(path: string, guard: Guard)

  datatype Result = Ok(entries: seq<Entry>) | Error

  // ---------------------------------------------------------------- paths

  predicate Contains(s: string, c: char) { exists i :: 0 <= i < |s| && s[i] == c }

  /** ".." in path.split("/") */
  predicate HasDotDot(s: string) {
    exists i :: 0 <= i < |s| && DotDotAt(s, i)
  }

  predicate DotDotAt(s: string, i: int) {
    && 0 <= i <= |s| - 2 && s[i] == '.' && s[i + 1] == '.'
    && (i == 0 || s[i - 1] == '/') && (i + 2 == |s| || s[i + 2] == '/')
  }

  predicate Relative(path: string) {
    !("/" <= path) && !HasDotDot(path) && !Contains(path, '\\')
  }

  predicate EndsWith(s: string, end: string) {
    |end| <= |s| && s[|s| - |end|..] == end
  }

  /** app/NN-name.js, but not app/00-*, or sections/NN-name.html: one file of its directory. */
  predicate Guardable(path: string) {
    || ("app/" <= path && !("app/00-" <= path) && EndsWith(path, ".js")
        && |path| > 7 && !Contains(path[4..], '/'))
    || ("sections/" <= path && EndsWith(path, ".html")
        && |path| > 14 && !Contains(path[9..], '/'))
  }

  // ---------------------------------------------------------------- what that means

  /** path.split("/"). */
  function Split(s: string): (parts: seq<string>)
    ensures |parts| > 0
  {
    if s == "" then [""]
    else
      var n := |s| - 1;
      var parts := Split(s[..n]);
      if s[n] == '/' then parts + [""] else parts[..|parts| - 1] + [parts[|parts| - 1] + [s[n]]]
  }

  /** The last part reaches back to the last slash. */
  lemma {:induction false} LastPart(s: string)
    ensures var last := Split(s)[|Split(s)| - 1];
            && |last| <= |s| && last == s[|s| - |last|..] && '/' !in last
            && (|last| < |s| ==> s[|s| - |last| - 1] == '/')
  {
    if s != "" {
      LastPart(s[..|s| - 1]);
    }
  }

  /** Two dots between slashes, or between the start and a slash. */
  predicate ClosedAt(s: string, i: int) { DotDotAt(s, i) && i + 2 < |s| }

  ghost predicate Closed(s: string) { exists i :: 0 <= i < |s| && ClosedAt(s, i) }

  lemma {:induction false} PartsBefore(s: string)
    ensures ".." in Split(s)[..|Split(s)| - 1] <==> Closed(s)
  {
    hide DotDotAt;
    if s != "" {
      var n := |s| - 1;
      var t, parts := s[..n], Split(s[..n]);
      PartsBefore(t);
      LastIsDots(t);
      ClosedMore(t, s[n]);
      assert t + [s[n]] == s;
      if s[n] == '/' {
        assert Split(s)[..|Split(s)| - 1] == parts == parts[..|parts| - 1] + [parts[|parts| - 1]];
      } else {
        assert Split(s)[..|Split(s)| - 1] == parts[..|parts| - 1];
      }
    }
  }

  lemma LastIsDots(s: string)
    ensures Split(s)[|Split(s)| - 1] == ".." <==> DotDotAt(s, |s| - 2)
  {
    LastPart(s);
    var last := Split(s)[|Split(s)| - 1];
    if DotDotAt(s, |s| - 2) {
      assert s[|s| - 2..] == "..";
      DotsReachBack(s, |last|);
    }
  }

  /** Two dots behind a slash are the whole of what follows it. */
  lemma DotsReachBack(s: string, k: nat)
    requires DotDotAt(s, |s| - 2) && k <= |s| && '/' !in s[|s| - k..] && (k < |s| ==> s[|s| - k - 1] == '/')
    ensures k == 2
  {
    var t := s[|s| - k..];
    assert forall i :: 0 <= i < k ==> t[i] == s[|s| - k + i] != '/';
  }

  lemma ClosedMore(t: string, c: char)
    ensures Closed(t + [c]) <==> Closed(t) || (c == '/' && DotDotAt(t, |t| - 2))
  {
    var s := t + [c];
    if Closed(s) {
      var i :| 0 <= i < |s| && ClosedAt(s, i);
      if i + 2 < |t| {
        assert ClosedAt(t, i);
      } else {
        assert DotDotAt(t, |t| - 2);
      }
    }
    if Closed(t) {
      var i :| 0 <= i < |t| && ClosedAt(t, i);
      assert ClosedAt(s, i);
    }
    if c == '/' && DotDotAt(t, |t| - 2) {
      assert ClosedAt(s, |t| - 2);
    }
  }

  /** A path is relative if it does not start with a slash, holds no backslash, and no part between its slashes is two dots. */
  lemma RelativeIs(path: string)
    ensures Relative(path) <==> !(path != "" && path[0] == '/') && '\\' !in path && ".." !in Split(path)
  {
    var parts := Split(path);
    PartsBefore(path);
    LastIsDots(path);
    assert parts == parts[..|parts| - 1] + [parts[|parts| - 1]];
    if HasDotDot(path) {
      var i :| 0 <= i < |path| && DotDotAt(path, i);
      assert i + 2 == |path| || ClosedAt(path, i);
    }
    if Closed(path) {
      var i :| 0 <= i < |path| && ClosedAt(path, i);
      assert DotDotAt(path, i);
    }
  }

  /** A guardable path has a name: one part, not empty, in its directory and with its ending. */
  lemma GuardableIs(path: string)
    ensures Guardable(path) <==>
            || (exists name: string :: AppFile(path, name))
            || (exists name: string :: SectionFile(path, name))
  {
    if Guardable(path) {
      assert "app/" <= path ==> path[0] == "app/"[0];
      assert "sections/" <= path ==> path[0] == "sections/"[0];
      if "sections/" <= path {
        SectionHasName(path);
      } else {
        AppHasName(path);
      }
    }
    forall name | AppFile(path, name)
      ensures Guardable(path)
    {
      AppIsGuardable(path, name);
    }
    forall name | SectionFile(path, name)
      ensures Guardable(path)
    {
      SectionIsGuardable(path, name);
    }
  }

  predicate AppFile(path: string, name: string) {
    path == "app/" + name + ".js" && name != "" && '/' !in name && !("00-" <= name + ".js")
  }

  predicate SectionFile(path: string, name: string) { path == "sections/" + name + ".html" && name != "" && '/' !in name }

  lemma Under(dir: string, x: string, path: string)
    requires dir <= path
    ensures dir + x <= path <==> x <= path[|dir|..]
  {
    if x <= path[|dir|..] {
      assert path == dir + path[|dir|..];
    }
  }

  lemma AppHasName(path: string)
    requires "app/" <= path && !("app/00-" <= path) && EndsWith(path, ".js") && |path| > 7 && !Contains(path[4..], '/')
    ensures exists name: string :: AppFile(path, name)
  {
    var name := path[4..|path| - 3];
    assert path == path[..4] + name + path[|path| - 3..];
    assert forall i :: 0 <= i < |name| ==> name[i] == path[4..][i];
    assert path[4..] == name + ".js";
    Under("app/", "00-", path);
    assert "app/" + "00-" == "app/00-";
    assert AppFile(path, name);
  }

  lemma SectionHasName(path: string)
    requires "sections/" <= path && EndsWith(path, ".html") && |path| > 14 && !Contains(path[9..], '/')
    ensures exists name: string :: SectionFile(path, name)
  {
    var name := path[9..|path| - 5];
    assert path == path[..9] + name + path[|path| - 5..];
    assert forall i :: 0 <= i < |name| ==> name[i] == path[9..][i];
    assert SectionFile(path, name);
  }

  lemma AppIsGuardable(path: string, name: string)
    requires AppFile(path, name)
    ensures Guardable(path)
  {
    assert path[4..] == name + ".js";
    assert path[|path| - 3..] == ".js";
    Under("app/", "00-", path);
    assert "app/" + "00-" == "app/00-";
  }

  lemma SectionIsGuardable(path: string, name: string)
    requires SectionFile(path, name)
    ensures Guardable(path)
  {
    assert path[9..] == name + ".html";
    assert path[|path| - 5..] == ".html";
  }

  // ---------------------------------------------------------------- reading

  predicate Paths(entries: seq<Entry>, path: string) {
    exists i :: 0 <= i < |entries| && entries[i].path == path
  }

  predicate Names(guard: Guard, name: string) {
    exists i :: 0 <= i < |guard| && guard[i].name == name
  }

  /** A clause that may follow the pending ones. */
  predicate MayStack(pending: Guard, c: Clause) {
    && (c.value ==> c.mode == If)
    && (pending != [] ==> c.mode != Only && !Strict(pending))
    && !Names(pending, c.name)
  }

  /** A path that may follow the pending guard. */
  predicate MayEnter(entries: seq<Entry>, pending: Guard, path: string) {
    && Relative(path) && !Paths(entries, path)
    && (pending != [] ==> Guardable(path))
  }

  method ReadManifest(lines: seq<Line>) returns (r: Result)
    ensures r == Reading([], [], lines)
  {
    hide MayStack, MayEnter;
    var entries: seq<Entry>, pending: Guard := [], [];
    assert lines[0..] == lines;
    for n := 0 to |lines|
      invariant Reading([], [], lines) == Reading(entries, pending, lines[n..])
    {
      assert lines[n..][1..] == lines[n + 1..];
      match lines[n]
      case Blank =>
      case Malformed => return Error;
      case Directive(clause) =>
        if !MayStack(pending, clause) { return Error; }
        pending := pending + [clause];
      case PathLine(path) =>
        if !MayEnter(entries, pending, path) { return Error; }
        entries := entries + [Entry(path, pending)];
        pending := [];
    }
    if pending != [] { return Error; }
    return Ok(entries);
  }

  function Reading(entries: seq<Entry>, pending: Guard, lines: seq<Line>): Result
    decreases |lines|
  {
    if lines == [] then (if pending != [] then Error else Ok(entries))
    else
      match lines[0]
      case Blank => Reading(entries, pending, lines[1..])
      case Malformed => Error
      case Directive(c) => if MayStack(pending, c) then Reading(entries, pending + [c], lines[1..]) else Error
      case PathLine(path) =>
        if MayEnter(entries, pending, path) then Reading(entries + [Entry(path, pending)], [], lines[1..]) else Error
  }

  // ---------------------------------------------------------------- the manifests that are accepted

  /** A manifest's lines without the blank ones. */
  function Meaningful(lines: seq<Line>): seq<Line> {
    if lines == [] then []
    else (if lines[0] == Blank then [] else [lines[0]]) + Meaningful(lines[1..])
  }

  function Directives(guard: Guard): (ls: seq<Line>)
    ensures |ls| == |guard|
  {
    seq(|guard|, i requires 0 <= i < |guard| => Directive(guard[i]))
  }

  /** Entries written out: each path after its guard lines. */
  function Written(entries: seq<Entry>): seq<Line> {
    if entries == [] then []
    else Directives(entries[0].guard) + [PathLine(entries[0].path)] + Written(entries[1..])
  }

  ghost predicate ValidEntry(e: Entry) {
    WellFormed(e.guard) && Relative(e.path) && (e.guard != [] ==> Guardable(e.path))
  }

  /** What the design promises of a manifest: well-formed guards on guardable files only, relative paths, no path
      twice. */
  ghost predicate ValidManifest(entries: seq<Entry>) {
    && (forall i :: 0 <= i < |entries| ==> ValidEntry(entries[i]))
    && (forall i, j :: 0 <= i < j < |entries| ==> entries[i].path != entries[j].path)
  }

  lemma StackKeeps(pending: Guard, c: Clause)
    requires WellFormed(pending)
    ensures MayStack(pending, c) <==> WellFormed(pending + [c])
  {
    var more := pending + [c];
    assert more[|pending|] == c && forall i :: 0 <= i < |pending| ==> more[i] == pending[i];
    assert Strict(more) <==> Strict(pending) || c.mode == Only by {
      if Strict(pending) {
        var i :| 0 <= i < |pending| && pending[i].mode == Only;
        assert more[i].mode == Only;
      }
    }
    assert Names(pending, c.name) ==> exists i :: 0 <= i < |pending| && more[i].name == more[|pending|].name;
    if MayStack(pending, c) {
      forall i, j | 0 <= i < j < |more|
        ensures more[i].name != more[j].name
      {
        assert j == |pending| ==> pending[i].name != c.name;
      }
    }
  }

  lemma {:induction false} PrefixWellFormed(guard: Guard, k: nat)
    requires WellFormed(guard) && k <= |guard|
    ensures WellFormed(guard[..k])
  {
    if Strict(guard[..k]) {
      var i :| 0 <= i < k && guard[..k][i].mode == Only;
      assert guard[i].mode == Only;
    }
  }

  lemma EnterKeeps(entries: seq<Entry>, pending: Guard, path: string)
    requires ValidManifest(entries) && WellFormed(pending)
    ensures MayEnter(entries, pending, path) <==> ValidManifest(entries + [Entry(path, pending)])
  {
    hide WellFormed, Relative, Guardable;
    var more, n := entries + [Entry(path, pending)], |entries|;
    if ValidManifest(more) {
      assert ValidEntry(more[n]);
      forall i | 0 <= i < n
        ensures entries[i].path != path
      {
        assert more[i].path != more[n].path;
      }
    }
    if MayEnter(entries, pending, path) {
      forall i | 0 <= i < |more|
        ensures ValidEntry(more[i])
      {
        assert i < n ==> ValidEntry(entries[i]);
      }
    }
  }

  /** The pending guard, then what is still to come. */
  lemma {:induction false} ReadsOnlyWritten(entries: seq<Entry>, pending: Guard, lines: seq<Line>)
    requires ValidManifest(entries) && WellFormed(pending) && Reading(entries, pending, lines).Ok?
    ensures var r := Reading(entries, pending, lines).entries;
            entries <= r && ValidManifest(r)
            && Directives(pending) + Meaningful(lines) == Written(r[|entries|..])
    decreases |lines|
  {
    hide WellFormed, ValidManifest, MayStack, MayEnter, Meaningful, Written, Directives;
    MeaningfulStep(lines);
    WrittenStep([], pending, []);
    if lines == [] {
      assert entries[|entries|..] == [];
      Regroup([], [], []);
    } else {
      var rest := Meaningful(lines[1..]);
      match lines[0]
      case Blank =>
        ReadsOnlyWritten(entries, pending, lines[1..]);
      case Directive(c) =>
        StackKeeps(pending, c);
        ReadsOnlyWritten(entries, pending + [c], lines[1..]);
        DirectivesMore(pending, c);
        Regroup(Directives(pending), [Directive(c)], rest);
      case PathLine(path) =>
        EnterKeeps(entries, pending, path);
        NothingPending();
        var e := Entry(path, pending);
        ReadsOnlyWritten(entries + [e], [], lines[1..]);
        var r := Reading(entries, pending, lines).entries;
        LaterEntries(entries, e, r);
        WrittenStep([e], pending, r[|entries| + 1..]);
        Regroup(Directives(pending), [PathLine(path)], rest);
    }
  }

  lemma MeaningfulStep(lines: seq<Line>)
    ensures lines == [] ==> Meaningful(lines) == []
    ensures lines != [] && lines[0] == Blank ==> Meaningful(lines) == Meaningful(lines[1..])
    ensures lines != [] && lines[0] != Blank ==> Meaningful(lines) == [lines[0]] + Meaningful(lines[1..])
  {}

  lemma WrittenStep(one: seq<Entry>, guard: Guard, rest: seq<Entry>)
    ensures Written([]) == [] && Directives([]) == []
    ensures forall tail: seq<Line> :: Directives([]) + tail == tail
    ensures |one| == 1 ==> Written(one + rest) == Directives(one[0].guard) + [PathLine(one[0].path)] + Written(rest)
  {
    if |one| == 1 {
      assert (one + rest)[1..] == rest;
    }
  }

  lemma DirectivesMore(guard: Guard, c: Clause)
    ensures Directives(guard + [c]) == Directives(guard) + [Directive(c)]
  {}

  lemma Regroup(a: seq<Line>, b: seq<Line>, c: seq<Line>)
    ensures a + (b + c) == a + b + c && a + [] == a
  {}

  lemma LaterEntries(entries: seq<Entry>, e: Entry, r: seq<Entry>)
    requires entries + [e] <= r
    ensures entries <= r && r[|entries|..] == [e] + r[|entries| + 1..]
  {}

  lemma NothingPending()
    ensures WellFormed([])
  {}

  /** Reading the rest of one guard and its path. */
  lemma {:induction false} ReadsEntry(entries: seq<Entry>, e: Entry, k: nat, rest: seq<Line>)
    requires ValidManifest(entries + [e]) && ValidManifest(entries) && k <= |e.guard|
    ensures Reading(entries, e.guard[..k], Directives(e.guard)[k..] + [PathLine(e.path)] + rest)
            == Reading(entries + [e], [], rest)
    decreases |e.guard| - k
  {
    hide WellFormed, Relative, Guardable, MayStack, MayEnter;
    assert ValidEntry((entries + [e])[|entries|]);
    var lines := Directives(e.guard)[k..] + [PathLine(e.path)] + rest;
    PrefixWellFormed(e.guard, k);
    if k == |e.guard| {
      assert lines == [PathLine(e.path)] + rest && e.guard[..k] == e.guard;
      assert lines[1..] == rest;
      EnterKeeps(entries, e.guard, e.path);
      assert Entry(e.path, e.guard) == e;
    } else {
      var c := e.guard[k];
      assert lines[0] == Directive(c);
      assert lines[1..] == Directives(e.guard)[k + 1..] + [PathLine(e.path)] + rest;
      assert e.guard[..k] + [c] == e.guard[..k + 1];
      PrefixWellFormed(e.guard, k + 1);
      StackKeeps(e.guard[..k], c);
      ReadsEntry(entries, e, k + 1, rest);
    }
  }

  lemma PrefixValid(entries: seq<Entry>, k: nat)
    requires ValidManifest(entries) && k <= |entries|
    ensures ValidManifest(entries[..k])
  {
    hide ValidEntry;
  }

  lemma {:induction false} ReadsWritten(entries: seq<Entry>, k: nat)
    requires ValidManifest(entries) && k <= |entries|
    ensures Reading(entries[..k], [], Written(entries[k..])) == Ok(entries)
    decreases |entries| - k
  {
    hide ValidManifest;
    if k == |entries| {
      assert entries[..k] == entries;
    } else {
      var e := entries[k];
      PrefixValid(entries, k);
      PrefixValid(entries, k + 1);
      assert entries[..k + 1] == entries[..k] + [e];
      var rest := Written(entries[k + 1..]);
      assert entries[k..][1..] == entries[k + 1..];
      assert e.guard[..0] == [] && Directives(e.guard)[0..] == Directives(e.guard);
      ReadsEntry(entries[..k], e, 0, rest);
      ReadsWritten(entries, k + 1);
    }
  }

  /** Blank lines and comments make no difference. */
  lemma {:induction false} BlanksDoNotMatter(entries: seq<Entry>, pending: Guard, lines: seq<Line>)
    ensures Reading(entries, pending, lines) == Reading(entries, pending, Meaningful(lines))
    decreases |lines|
  {
    hide MayStack, MayEnter;
    if lines != [] {
      var m := Meaningful(lines[1..]);
      match lines[0]
      case Blank =>
        BlanksDoNotMatter(entries, pending, lines[1..]);
        assert Meaningful(lines) == m;
      case Malformed =>
      case Directive(c) =>
        BlanksDoNotMatter(entries, pending + [c], lines[1..]);
        assert Meaningful(lines)[1..] == m;
      case PathLine(path) =>
        BlanksDoNotMatter(entries + [Entry(path, pending)], [], lines[1..]);
        assert Meaningful(lines)[1..] == m;
    }
  }

  /** The reader accepts exactly the valid manifests, and reads each as it is written. */
  lemma AcceptsExactlyValid(lines: seq<Line>, entries: seq<Entry>)
    ensures Reading([], [], lines) == Ok(entries) <==> ValidManifest(entries) && Meaningful(lines) == Written(entries)
  {
    hide ValidManifest, Meaningful, Written;
    EmptyIsValid();
    if Reading([], [], lines) == Ok(entries) {
      ReadsOnlyWritten([], [], lines);
      assert Directives([]) + Meaningful(lines) == Meaningful(lines);
      assert entries[0..] == entries;
    }
    if ValidManifest(entries) && Meaningful(lines) == Written(entries) {
      ReadsWritten(entries, 0);
      assert entries[0..] == entries && entries[..0] == [];
      BlanksDoNotMatter([], [], lines);
    }
  }

  lemma EmptyIsValid()
    ensures ValidManifest([]) && WellFormed([])
  {}
}
