/** render of tools/gen_index_html.py, and a build of the header it writes: parts under #if, a table of parts under
    the same #if, and the page served from the table. */
module PageHeader {
  import opened Guards
  import opened PageTree
  import PageParts
  import PageSite

  // ---------------------------------------------------------------- the header

  datatype Line =
    | IfLine(cond: Cond)
    | EndIf
    | ErrorLine
    | Define(id: nat, text: Text)     // static const char PD_HTML_<id>[] = ...
    | Entry(id: nat)                  // { PD_HTML_<id>, sizeof(PD_HTML_<id>) - 1 },

  /** part_ids: 8 and 9 belong to the standalone pages. */
  function PartId(k: nat): nat { if k < 8 then k else k + 2 }

  /** wrap. */
  function Wrapped(guard: Guard, line: Line): seq<Line> {
    if guard == [] then [line] else [IfLine(WrapCond(guard)), line, EndIf]
  }

  /** The #error for a macro that must be defined on a device. */
  function Belt(name: string): seq<Line> {
    [IfLine(And([Defined(ESP_PLATFORM), Not(Defined(name))])), ErrorLine, EndIf]
  }

  /** The value macros of the first k clauses. */
  function ValueNames(guard: Guard): set<string> {
    if guard == [] then {}
    else
      var c := guard[|guard| - 1];
      ValueNames(guard[..|guard| - 1]) + (if c.value then {c.name} else {})
  }

  /** The belts for a guard, for the names that have none yet. */
  function Belts(guard: Guard, belted: set<string>): seq<Line> {
    if guard == [] then []
    else
      var c, init := guard[|guard| - 1], guard[..|guard| - 1];
      Belts(init, belted) + (if c.value && c.name !in belted + ValueNames(init) then Belt(c.name) else [])
  }

  function AllValueNames(parts: seq<Run>): set<string> {
    if parts == [] then {} else AllValueNames(parts[..|parts| - 1]) + ValueNames(parts[|parts| - 1].guard)
  }

  function Definitions(parts: seq<Run>): seq<Line> {
    if parts == [] then []
    else
      var k, init := |parts| - 1, parts[..|parts| - 1];
      Definitions(init) + Belts(parts[k].guard, AllValueNames(init))
      + Wrapped(parts[k].guard, Define(PartId(k), parts[k].text))
  }

  function Entries(parts: seq<Run>): seq<Line> {
    if parts == [] then []
    else
      var k := |parts| - 1;
      Entries(parts[..k]) + Wrapped(parts[k].guard, Entry(PartId(k)))
  }

  /** The two standalone pages are kept from the old header. */
  function Header(parts: seq<Run>, page8: Text, page9: Text): seq<Line> {
    Definitions(parts) + [Define(8, page8), Define(9, page9)] + Entries(parts)
  }

  method RenderBelts(guard: Guard, known: set<string>) returns (lines: seq<Line>, belted: set<string>)
    ensures lines == Belts(guard, known) && belted == known + ValueNames(guard)
  {
    hide Belt;
    lines, belted := [], known;
    for j := 0 to |guard|
      invariant lines == Belts(guard[..j], known) && belted == known + ValueNames(guard[..j])
    {
      assert guard[..j + 1][..j] == guard[..j];
      if guard[j].value && guard[j].name !in belted {
        belted := belted + {guard[j].name};
        lines := lines + Belt(guard[j].name);
      }
    }
    assert guard[..|guard|] == guard;
  }

  method RenderDefinitions(parts: seq<Run>) returns (lines: seq<Line>)
    ensures lines == Definitions(parts)
  {
    hide Belts, Wrapped;
    lines := [];
    var belted: set<string> := {};
    for k := 0 to |parts|
      invariant lines == Definitions(parts[..k]) && belted == AllValueNames(parts[..k])
    {
      assert parts[..k + 1][..k] == parts[..k];
      var belts;
      belts, belted := RenderBelts(parts[k].guard, belted);
      lines := lines + belts + Wrapped(parts[k].guard, Define(PartId(k), parts[k].text));
    }
    assert parts[..|parts|] == parts;
  }

  method RenderEntries(parts: seq<Run>) returns (lines: seq<Line>)
    ensures lines == Entries(parts)
  {
    hide Wrapped;
    lines := [];
    for k := 0 to |parts|
      invariant lines == Entries(parts[..k])
    {
      assert parts[..k + 1][..k] == parts[..k];
      lines := lines + Wrapped(parts[k].guard, Entry(PartId(k)));
    }
    assert parts[..|parts|] == parts;
  }

  /** render. */
  method Render(parts: seq<Run>, page8: Text, page9: Text) returns (lines: seq<Line>)
    ensures lines == Header(parts, page8, page9)
    ensures forall env: Env :: KeepsPages(env, lines, page8, page9)
  {
    hide Header, KeepsPages;
    forall env: Env
      ensures KeepsPages(env, Header(parts, page8, page9), page8, page9)
    {
      HeaderServes(env, parts, page8, page9);
    }
    lines := RenderDefinitions(parts);
    lines := lines + [Define(8, page8), Define(9, page9)];
    var table := RenderEntries(parts);
    lines := lines + table;
    HeaderIs(parts, page8, page9);
  }

  lemma HeaderIs(parts: seq<Run>, page8: Text, page9: Text)
    ensures Header(parts, page8, page9) == Definitions(parts) + [Define(8, page8), Define(9, page9)] + Entries(parts)
  {}

  // ---------------------------------------------------------------- a build

  /** A compiler half way through the header: whether it is inside an #if, whether that is taken, whether all is
      well, the arrays defined and the table so far. */
  datatype Build = Build(inIf: bool, on: bool, ok: bool, defs: map<nat, Text>, table: seq<Text>)

  function Read(env: Env, b: Build, line: Line): Build {
    match line
    case IfLine(cond) => b.(inIf := true, on := Holds(env, cond), ok := b.ok && !b.inIf)
    case EndIf => b.(inIf := false, on := true, ok := b.ok && b.inIf)
    case ErrorLine => if b.on then b.(ok := false) else b
    case Define(id, text) => if b.on then b.(ok := b.ok && id !in b.defs, defs := b.defs[id := text]) else b
    case Entry(id) =>
      if !b.on then b
      else if id in b.defs then b.(table := b.table + [b.defs[id]]) else b.(ok := false)
  }

  function ReadAll(env: Env, b: Build, lines: seq<Line>): Build {
    if lines == [] then b else Read(env, ReadAll(env, b, lines[..|lines| - 1]), lines[|lines| - 1])
  }

  const START := Build(false, true, true, map[], [])

  /** A device build must define every macro that a guard compares with zero. */
  predicate NamesDefined(env: Env, names: set<string>) {
    Device(env) ==> forall name :: name in names ==> name in env
  }

  lemma {:induction false} ReadMore(env: Env, b: Build, x: seq<Line>, y: seq<Line>)
    ensures ReadAll(env, b, x + y) == ReadAll(env, ReadAll(env, b, x), y)
    decreases |y|
  {
    hide Read;
    if y == [] {
      assert x + y == x;
    } else {
      var k := |y| - 1;
      assert (x + y)[..|x| + k] == x + y[..k] && (x + y)[|x| + k] == y[k];
      ReadMore(env, b, x, y[..k]);
    }
  }

  lemma ReadOne(env: Env, b: Build, line: Line)
    ensures ReadAll(env, b, [line]) == Read(env, b, line)
  {
    hide Read;
    assert [line][..0] == [];
  }

  lemma ReadThree(env: Env, b: Build, x: Line, y: Line, z: Line)
    ensures ReadAll(env, b, [x, y, z]) == Read(env, Read(env, Read(env, b, x), y), z)
  {
    hide Read, ReadAll;
    assert [x, y, z] == [x] + [y] + [z];
    ReadMore(env, b, [x] + [y], [z]);
    ReadMore(env, b, [x], [y]);
    ReadOne(env, b, x);
    ReadOne(env, Read(env, b, x), y);
    ReadOne(env, Read(env, Read(env, b, x), y), z);
  }

  /** Outside any #if. */
  predicate Open(b: Build) { !b.inIf && b.on }

  /** A wrapped line is read exactly on the builds that keep the guard. */
  lemma ReadWrapped(env: Env, b: Build, guard: Guard, line: Line)
    requires Open(b) && (line.Define? || line.Entry?)
    ensures ReadAll(env, b, Wrapped(guard, line)) == if Kept(env, guard) then Read(env, b, line) else b
  {
    hide Kept, WrapCond, Holds, ReadAll;
    if guard == [] {
      ReadOne(env, b, line);
      NoGuardIsKept(env);
    } else {
      WrapCondMeansKept(env, guard);
      ReadThree(env, b, IfLine(WrapCond(guard)), line, EndIf);
    }
  }

  lemma NoGuardIsKept(env: Env)
    ensures Kept(env, [])
  {}

  lemma ReadBelt(env: Env, b: Build, name: string)
    requires Open(b)
    ensures ReadAll(env, b, Belt(name)) == b.(ok := b.ok && NamesDefined(env, {name}))
  {
    hide ReadAll;
    var cs := [Defined(ESP_PLATFORM), Not(Defined(name))];
    assert Holds(env, cs[0]) <==> Device(env);
    assert Holds(env, cs[1]) <==> name !in env;
    assert Holds(env, And(cs)) <==> Device(env) && name !in env;
    ReadThree(env, b, IfLine(And(cs)), ErrorLine, EndIf);
    assert NamesDefined(env, {name}) <==> (Device(env) ==> name in env);
  }

  lemma {:induction false} ReadBelts(env: Env, b: Build, guard: Guard, belted: set<string>)
    requires Open(b) && (b.ok ==> NamesDefined(env, belted))
    ensures ReadAll(env, b, Belts(guard, belted)) == b.(ok := b.ok && NamesDefined(env, belted + ValueNames(guard)))
  {
    hide ReadAll, Belt, Device;
    if guard == [] {
      ReadNothing(env, b);
      assert belted + ValueNames(guard) == belted;
    } else {
      var c, init := guard[|guard| - 1], guard[..|guard| - 1];
      ReadBelts(env, b, init, belted);
      var mid := ReadAll(env, b, Belts(init, belted));
      var known := belted + ValueNames(init);
      if c.value {
        assert belted + ValueNames(guard) == known + {c.name};
      } else {
        assert belted + ValueNames(guard) == known;
      }
      if c.value && c.name !in known {
        ReadMore(env, b, Belts(init, belted), Belt(c.name));
        ReadBelt(env, mid, c.name);
      } else {
        assert Belts(init, belted) + [] == Belts(init, belted);
        assert belted + ValueNames(guard) == known;
      }
    }
  }

  lemma ReadNothing(env: Env, b: Build)
    ensures ReadAll(env, b, []) == b
  {}

  // ---------------------------------------------------------------- what the build serves

  /** The arrays that a build defines of the first parts. */
  ghost predicate Holding(env: Env, parts: seq<Run>, defs: map<nat, Text>) {
    && (forall k: nat :: k < |parts| && Kept(env, parts[k].guard) ==>
          PartId(k) in defs && defs[PartId(k)] == parts[k].text)
    && (forall id :: id in defs ==> exists k: nat :: k < |parts| && PartId(k) == id)
  }

  lemma {:induction false} ReadDefinitions(env: Env, parts: seq<Run>)
    ensures var b := ReadAll(env, START, Definitions(parts));
            && Open(b) && b.table == [] && Holding(env, parts, b.defs)
            && (b.ok <==> NamesDefined(env, AllValueNames(parts)))
  {
    hide Kept, ReadAll, Belts, Wrapped, Device, ValueNames;
    if parts == [] {
      ReadNothing(env, START);
    } else {
      var k, init := |parts| - 1, parts[..|parts| - 1];
      var guard, line := parts[k].guard, Define(PartId(k), parts[k].text);
      ReadDefinitions(env, init);
      var b := ReadAll(env, START, Definitions(init));
      ReadMore(env, START, Definitions(init) + Belts(guard, AllValueNames(init)), Wrapped(guard, line));
      ReadMore(env, START, Definitions(init), Belts(guard, AllValueNames(init)));
      ReadBelts(env, b, guard, AllValueNames(init));
      ReadWrapped(env, ReadAll(env, b, Belts(guard, AllValueNames(init))), guard, line);
      DefineOne(env, parts, b.defs);
    }
  }

  lemma DefineOne(env: Env, parts: seq<Run>, defs: map<nat, Text>)
    requires parts != [] && Holding(env, parts[..|parts| - 1], defs)
    ensures var k := |parts| - 1;
            PartId(k) !in defs
            && Holding(env, parts, if Kept(env, parts[k].guard) then defs[PartId(k) := parts[k].text] else defs)
  {
    hide Kept;
    var k := |parts| - 1;
    var init := parts[..k];
    forall id | id in defs
      ensures exists j: nat :: j < |parts| && PartId(j) == id
    {
      var j: nat :| j < |init| && PartId(j) == id;
      assert j < |parts|;
    }
    assert PartId(k) == PartId(k);
  }

  /** What a build serves: nothing if the compiler stops, else the table's parts joined. */
  datatype Served = Broken | Page(text: Text)

  function Serve(env: Env, lines: seq<Line>): Served {
    var b := ReadAll(env, START, lines);
    if b.ok then Page(PageParts.Joined(b.table)) else Broken
  }

  /** On this build PD_HTML_8 is the one standalone page and PD_HTML_9 the other, and neither is in the table of parts. */
  predicate KeepsPages(env: Env, lines: seq<Line>, page8: Text, page9: Text) {
    var b := ReadAll(env, START, lines);
    8 in b.defs && b.defs[8] == page8 && 9 in b.defs && b.defs[9] == page9
  }

  /** A build of the header fails exactly on a device that leaves a value macro undefined; every other build
      serves the parts whose guard it keeps, in page order. */
  lemma HeaderServes(env: Env, parts: seq<Run>, page8: Text, page9: Text)
    ensures Serve(env, Header(parts, page8, page9)) ==
            if NamesDefined(env, AllValueNames(parts)) then Page(Surviving(env, parts)) else Broken
    ensures KeepsPages(env, Header(parts, page8, page9), page8, page9)
  {
    hide ReadAll, Kept, Definitions, Entries, Device, Surviving;
    ReadDefinitions(env, parts);
    var b := ReadAll(env, START, Definitions(parts));
    var two := [Define(8, page8)] + [Define(9, page9)];
    assert [Define(8, page8), Define(9, page9)] == two;
    ReadMore(env, START, Definitions(parts) + two, Entries(parts));
    ReadMore(env, START, Definitions(parts), two);
    ReadMore(env, b, [Define(8, page8)], [Define(9, page9)]);
    ReadOne(env, b, Define(8, page8));
    var b8 := Read(env, b, Define(8, page8));
    ReadOne(env, b8, Define(9, page9));
    var b9 := Read(env, b8, Define(9, page9));
    ReservedAreFree(env, parts, b.defs, page8, page9);
    ReadEntriesAmong(env, parts, b9, b.defs);
  }

  lemma {:induction false} InValueNames(guard: Guard, name: string)
    ensures name in ValueNames(guard) <==> exists j :: 0 <= j < |guard| && guard[j].value && guard[j].name == name
  {
    if guard != [] {
      InValueNames(guard[..|guard| - 1], name);
    }
  }

  lemma {:induction false} InAllValueNames(parts: seq<Run>, name: string)
    ensures name in AllValueNames(parts) <==> exists i :: 0 <= i < |parts| && name in ValueNames(parts[i].guard)
  {
    hide ValueNames;
    if parts != [] {
      InAllValueNames(parts[..|parts| - 1], name);
    }
  }

  /** Clause j of part i compares with zero a macro that the build leaves undefined. */
  predicate Undefined(env: Env, parts: seq<Run>, i: nat, j: nat) {
    i < |parts| && j < |parts[i].guard| && parts[i].guard[j].value && parts[i].guard[j].name !in env
  }

  /** Exactly the device builds that leave such a macro undefined stop. */
  lemma BrokenIff(env: Env, parts: seq<Run>, page8: Text, page9: Text)
    ensures Serve(env, Header(parts, page8, page9)).Broken? <==>
            "ESP_PLATFORM" in env && exists i: nat, j: nat :: Undefined(env, parts, i, j)
  {
    hide Serve, Header, ValueNames, AllValueNames;
    HeaderServes(env, parts, page8, page9);
    if i: nat, j: nat :| Undefined(env, parts, i, j) {
      var name := parts[i].guard[j].name;
      InValueNames(parts[i].guard, name);
      InAllValueNames(parts, name);
    }
    if !NamesDefined(env, AllValueNames(parts)) {
      var name :| name in AllValueNames(parts) && name !in env;
      InAllValueNames(parts, name);
      var i :| 0 <= i < |parts| && name in ValueNames(parts[i].guard);
      InValueNames(parts[i].guard, name);
      var j :| 0 <= j < |parts[i].guard| && parts[i].guard[j].value && parts[i].guard[j].name == name;
      assert Undefined(env, parts, i, j);
    }
  }

  /** No part takes the ids of the standalone pages. */
  lemma ReservedAreFree(env: Env, parts: seq<Run>, defs: map<nat, Text>, page8: Text, page9: Text)
    requires Holding(env, parts, defs)
    ensures 8 !in defs && 9 !in defs
  {}

  lemma ReadEntriesAmong(env: Env, parts: seq<Run>, b: Build, defs: map<nat, Text>)
    requires Open(b) && b.table == [] && Holding(env, parts, defs)
    requires forall id :: id in defs ==> id in b.defs && b.defs[id] == defs[id]
    ensures var r := ReadAll(env, b, Entries(parts));
            r.ok == b.ok && PageParts.Joined(r.table) == Surviving(env, parts) && r.defs == b.defs
  {
    hide Kept;
    ReadEntriesFrom(env, parts, b, parts);
  }

  lemma {:induction false} ReadEntriesFrom(env: Env, parts: seq<Run>, b: Build, all: seq<Run>)
    requires Open(b) && b.table == [] && parts <= all
    requires forall k: nat :: k < |all| && Kept(env, all[k].guard) ==> PartId(k) in b.defs && b.defs[PartId(k)] == all[k].text
    ensures var r := ReadAll(env, b, Entries(parts));
            r == b.(table := r.table) && PageParts.Joined(r.table) == Surviving(env, parts)
  {
    hide Kept, ReadAll, Wrapped;
    if parts == [] {
      ReadNothing(env, b);
    } else {
      var k := |parts| - 1;
      ReadEntriesFrom(env, parts[..k], b, all);
      var mid := ReadAll(env, b, Entries(parts[..k]));
      ReadMore(env, b, Entries(parts[..k]), Wrapped(parts[k].guard, Entry(PartId(k))));
      ReadWrapped(env, mid, parts[k].guard, Entry(PartId(k)));
      assert all[k] == parts[k];
      PageParts.JoinedMore(mid.table, parts[k].text);
    }
  }
}
