/** assemble_segments of tools/gen_index_html.py: the shell, the scripts and the section fragments become a page
    tree in which every guest's guard implies its host's, so flattening it keeps the meaning on every build. */
module PageSite {
  import opened Numbers
  import opened Guards
  import opened PageTree

  /** A fragment's text: raw bytes, and the empty `<div id="NAME-slot"></div>` of a possible guest. */
  datatype Item = Raw(text: Text) | Slot(name: Text)

  datatype Fragment = Fragment(name: Text, guard: Guard, body: seq<Item>)

  datatype Script = Script(guard: Guard, text: Text)

  /** The shell: markup, the one place of the scripts, and sections with their own tags. */
  datatype Part = Markup(text: Text) | Scripts | Section(name: Text, open: Text, close: Text)

  datatype Site = Site(shell: seq<Part>, scripts: seq<Script>, fragments: seq<Fragment>)

  // ---------------------------------------------------------------- markup

  function Ascii(s: string): Text { seq(|s|, i requires 0 <= i < |s| => s[i] as int % 256) }

  function SlotEmpty(name: Text): Text { Ascii("<div id=\"") + name + Ascii("-slot\"></div>") }

  function SlotOpen(name: Text): Text { Ascii("<div id=\"") + name + Ascii("-slot\">\n") }

  function SlotClose(): Text { Ascii("\n</div>") }

  const SCRIPT_OPEN := Ascii("<script>\n")
  const SCRIPT_CLOSE := Ascii("</script>\n")

  /** The text of a fragment that hosts nobody. */
  function Plain(body: seq<Item>): Text {
    if body == [] then []
    else
      Plain(body[..|body| - 1]) + (match body[|body| - 1] case Raw(text) => text case Slot(name) => SlotEmpty(name))
  }

  // ---------------------------------------------------------------- guests and hosts

  predicate OwnsSection(site: Site, name: Text) {
    exists p :: 0 <= p < |site.shell| && site.shell[p].Section? && site.shell[p].name == name
  }

  function Slots(body: seq<Item>, name: Text): nat {
    if body == [] then 0 else Slots(body[..|body| - 1], name) + (if body[|body| - 1] == Slot(name) then 1 else 0)
  }

  /** A fragment that could hold the guest: it owns a section, its guard may host the guest's, and it has the
      slot. */
  predicate CanHost(site: Site, h: nat, g: nat)
    requires h < |site.fragments| && g < |site.fragments|
  {
    var host, guest := site.fragments[h], site.fragments[g];
    OwnsSection(site, host.name) && MayHost(host.guard, guest.guard) && Slots(host.body, guest.name) > 0
  }

  /** A guest needs exactly one host with exactly one slot. */
  predicate HasHost(site: Site, g: nat)
    requires g < |site.fragments|
  {
    exists h: nat :: h < |site.fragments| && CanHost(site, h, g) && Slots(site.fragments[h].body, site.fragments[g].name) == 1
      && forall k: nat :: k < |site.fragments| && CanHost(site, k, g) ==> k == h
  }

  /** The fragment of a section; |fragments| if there is none. */
  function FragmentOf(site: Site, name: Text, i: nat): (r: nat)
    requires i <= |site.fragments|
    ensures i <= r <= |site.fragments|
    ensures r < |site.fragments| ==> site.fragments[r].name == name
    decreases |site.fragments| - i
  {
    if i == |site.fragments| || site.fragments[i].name == name then i else FragmentOf(site, name, i + 1)
  }

  /** What the tool accepts; it raises an error for anything else. */
  predicate Accepts(site: Site) {
    && (forall p :: 0 <= p < |site.shell| && site.shell[p].Section? ==>
          FragmentOf(site, site.shell[p].name, 0) < |site.fragments|)
    && (forall p, q :: 0 <= p < q < |site.shell| && site.shell[p].Section? && site.shell[q].Section? ==>
          site.shell[p].name != site.shell[q].name)
    && (forall g :: 0 <= g < |site.fragments| ==>
          OwnsSection(site, site.fragments[g].name) || HasHost(site, g))
  }

  /** What the manifest reader guarantees of the guards. */
  predicate GuardsWellFormed(site: Site) {
    && (forall i :: 0 <= i < |site.fragments| ==> WellFormed(site.fragments[i].guard))
    && (forall i :: 0 <= i < |site.scripts| ==> WellFormed(site.scripts[i].guard))
  }

  /** The guest that goes into the slot of a host; |fragments| if none does. */
  function GuestFor(site: Site, h: nat, name: Text): (g: nat)
    requires h < |site.fragments|
    ensures g <= |site.fragments|
    ensures g < |site.fragments| ==> site.fragments[g].name == name && CanHost(site, h, g)
  {
    var g := FragmentOf(site, name, 0);
    if g < |site.fragments| && !OwnsSection(site, name) && CanHost(site, h, g) then g else |site.fragments|
  }

  // ---------------------------------------------------------------- the page a build should see

  function IfKept(env: Env, guard: Guard, text: Text): Text {
    if Kept(env, guard) then text else []
  }

  function ScriptText(env: Env, scripts: seq<Script>): Text {
    if scripts == [] then []
    else
      var n := |scripts| - 1;
      ScriptText(env, scripts[..n]) + IfKept(env, scripts[n].guard, scripts[n].text)
  }

  /** A host with the guests that are kept in its slots; a slot whose guest is left out stays open and empty. */
  function HostText(env: Env, site: Site, h: nat, body: seq<Item>): Text
    requires h < |site.fragments|
  {
    if body == [] then []
    else
      var n := |body| - 1;
      HostText(env, site, h, body[..n]) + ItemText(env, site, h, body[n])
  }

  function ItemText(env: Env, site: Site, h: nat, item: Item): Text
    requires h < |site.fragments|
  {
    match item
    case Raw(text) => text
    case Slot(name) =>
      var g := GuestFor(site, h, name);
      if g == |site.fragments| then SlotEmpty(name)
      else SlotOpen(name) + IfKept(env, site.fragments[g].guard, Plain(site.fragments[g].body)) + SlotClose()
  }

  /** The page assembled from only the files whose guard keeps them: a section goes with its fragment. */
  function SitePage(env: Env, site: Site, shell: seq<Part>): Text {
    if shell == [] then []
    else
      var n := |shell| - 1;
      SitePage(env, site, shell[..n]) + PartText(env, site, shell[n])
  }

  function PartText(env: Env, site: Site, part: Part): Text {
    match part
    case Markup(text) => text
    case Scripts => SCRIPT_OPEN + ScriptText(env, site.scripts) + SCRIPT_CLOSE
    case Section(name, open, close) =>
      var h := FragmentOf(site, name, 0);
      if h == |site.fragments| then []
      else IfKept(env, site.fragments[h].guard, open + HostText(env, site, h, site.fragments[h].body) + close)
  }

  // ---------------------------------------------------------------- the tree

  // Placeholders: every fragment as a guest, every script, every section.  The tool makes one only where
  // there is a guard; an unguarded one unfolds into its surroundings exactly as inlining does.

  function GuestId(site: Site, g: nat): nat { g }
  function ScriptId(site: Site, i: nat): nat { |site.fragments| + i }
  function SectionId(site: Site, p: nat): nat { |site.fragments| + |site.scripts| + p }

  function HostPieces(site: Site, h: nat, body: seq<Item>): seq<Piece>
    requires h < |site.fragments|
  {
    if body == [] then []
    else
      var n := |body| - 1;
      HostPieces(site, h, body[..n]) + ItemPieces(site, h, body[n])
  }

  function ItemPieces(site: Site, h: nat, item: Item): seq<Piece>
    requires h < |site.fragments|
  {
    match item
    case Raw(text) => [Lit(text)]
    case Slot(name) =>
      var g := GuestFor(site, h, name);
      if g == |site.fragments| then [Lit(SlotEmpty(name))]
      else [Lit(SlotOpen(name)), Ref(GuestId(site, g)), Lit(SlotClose())]
  }

  function SectionPlaced(site: Site, part: Part): Placed {
    match part
    case Section(name, open, close) =>
      var h := FragmentOf(site, name, 0);
      if h == |site.fragments| then Placed([], [])
      else
        Placed(site.fragments[h].guard,
               [Lit(open)] + HostPieces(site, h, site.fragments[h].body) + [Lit(close)])
    case _ => Placed([], [])
  }

  function Placeholders(site: Site): (placed: seq<Placed>)
    ensures |placed| == SectionId(site, |site.shell|)
  {
    seq(|site.fragments|, g requires 0 <= g < |site.fragments| =>
      Placed(site.fragments[g].guard, [Lit(Plain(site.fragments[g].body))]))
    + seq(|site.scripts|, i requires 0 <= i < |site.scripts| =>
      Placed(site.scripts[i].guard, [Lit(site.scripts[i].text)]))
    + seq(|site.shell|, p requires 0 <= p < |site.shell| => SectionPlaced(site, site.shell[p]))
  }

  function ScriptPieces(site: Site, k: nat): seq<Piece> {
    if k == 0 then [] else ScriptPieces(site, k - 1) + [Ref(ScriptId(site, k - 1))]
  }

  function PartPieces(site: Site, p: nat): seq<Piece>
    requires p < |site.shell|
  {
    match site.shell[p]
    case Markup(text) => [Lit(text)]
    case Scripts => [Lit(SCRIPT_OPEN)] + ScriptPieces(site, |site.scripts|) + [Lit(SCRIPT_CLOSE)]
    case Section(_, _, _) => [Ref(SectionId(site, p))]
  }

  /** The shell up to part p. */
  function ShellPieces(site: Site, p: nat): seq<Piece>
    requires p <= |site.shell|
  {
    if p == 0 then [] else ShellPieces(site, p - 1) + PartPieces(site, p - 1)
  }

  // ---------------------------------------------------------------- the tree is in order

  lemma GroundedMore(a: seq<Piece>, b: seq<Piece>, n: nat)
    requires Grounded(a, n) && Grounded(b, n)
    ensures Grounded(a + b, n)
  {}

  /** A host takes only guests that may be there. */
  lemma ItemPiecesFit(site: Site, h: nat, item: Item, placed: seq<Placed>)
    requires h < |site.fragments| <= |placed|
    requires forall g :: 0 <= g < |site.fragments| ==> placed[g].guard == site.fragments[g].guard
    ensures Grounded(ItemPieces(site, h, item), |site.fragments|)
    ensures Nests(site.fragments[h].guard, placed, ItemPieces(site, h, item))
  {
    hide GuestFor, OwnsSection, Slots, SlotEmpty, SlotOpen, SlotClose, MayHost;
  }

  lemma NestsMore(guard: Guard, placed: seq<Placed>, a: seq<Piece>, b: seq<Piece>)
    requires Nests(guard, placed, a) && Nests(guard, placed, b)
    ensures Nests(guard, placed, a + b)
  {
    hide MayHost;
  }

  lemma {:induction false} HostPiecesFit(site: Site, h: nat, body: seq<Item>, placed: seq<Placed>)
    requires h < |site.fragments| <= |placed|
    requires forall g :: 0 <= g < |site.fragments| ==> placed[g].guard == site.fragments[g].guard
    ensures Grounded(HostPieces(site, h, body), |site.fragments|)
    ensures Nests(site.fragments[h].guard, placed, HostPieces(site, h, body))
  {
    if body != [] {
      hide ItemPieces, MayHost, Nests, Grounded;
      var n := |body| - 1;
      HostPiecesFit(site, h, body[..n], placed);
      ItemPiecesFit(site, h, body[n], placed);
      NestsMore(site.fragments[h].guard, placed, HostPieces(site, h, body[..n]), ItemPieces(site, h, body[n]));
      GroundedMore(HostPieces(site, h, body[..n]), ItemPieces(site, h, body[n]), |site.fragments|);
    }
  }

  lemma {:induction false} ScriptPiecesFit(site: Site, k: nat)
    requires k <= |site.scripts|
    ensures Grounded(ScriptPieces(site, k), |site.fragments| + |site.scripts|)
  {
    if k > 0 {
      ScriptPiecesFit(site, k - 1);
    }
  }

  lemma {:induction false} ShellPiecesFit(site: Site, p: nat)
    requires p <= |site.shell|
    ensures Grounded(ShellPieces(site, p), SectionId(site, p))
  {
    if p > 0 {
      ShellPiecesFit(site, p - 1);
      ScriptPiecesFit(site, |site.scripts|);
    }
  }

  /** The tree is well founded, and every guest's guard implies its host's. */
  lemma TreeNests(site: Site)
    requires GuardsWellFormed(site)
    ensures WellPlaced(Placeholders(site)) && GuardsNest(Placeholders(site))
  {
    hide HostPieces, Plain, FragmentOf, WellFormed, MayHost;
    var placed := Placeholders(site);
    NoGuardIsWellFormed();
    forall i | 0 <= i < |placed|
      ensures Grounded(placed[i].body, i) && WellFormed(placed[i].guard) && Nests(placed[i].guard, placed, placed[i].body)
    {
      if i >= |site.fragments| + |site.scripts| {
        var part := site.shell[i - |site.fragments| - |site.scripts|];
        assert placed[i] == SectionPlaced(site, part);
        if part.Section? && FragmentOf(site, part.name, 0) < |site.fragments| {
          HostPiecesFit(site, FragmentOf(site, part.name, 0), site.fragments[FragmentOf(site, part.name, 0)].body, placed);
        }
      }
    }
  }

  lemma NoGuardIsWellFormed()
    ensures WellFormed([])
  {}

  // ---------------------------------------------------------------- the tree is the page

  lemma {:induction false} PageMore(env: Env, placed: seq<Placed>, a: seq<Piece>, b: seq<Piece>, n: nat)
    requires n <= |placed| && WellPlaced(placed) && Grounded(a, n) && Grounded(b, n)
    ensures Grounded(a + b, n) && Page(env, placed, a + b, n) == Page(env, placed, a, n) + Page(env, placed, b, n)
    decreases |b|
  {
    hide OnePiece;
    if b == [] {
      assert a + b == a;
    } else {
      var k := |b| - 1;
      assert (a + b)[..|a| + k] == a + b[..k] && (a + b)[|a| + k] == b[k];
      PageMore(env, placed, a, b[..k], n);
    }
  }

  lemma PageOne(env: Env, placed: seq<Placed>, piece: Piece, n: nat)
    requires n <= |placed| && WellPlaced(placed) && (piece.Ref? ==> piece.id < n)
    ensures Grounded([piece], n) && Page(env, placed, [piece], n) == OnePiece(env, placed, piece, n)
  {
    hide OnePiece;
    assert [piece][..0] == [];
  }

  /** The bound on placeholders does not matter to what a text shows. */
  lemma {:induction false} PageBound(env: Env, placed: seq<Placed>, pieces: seq<Piece>, m: nat, n: nat)
    requires m <= n <= |placed| && WellPlaced(placed) && Grounded(pieces, m)
    ensures Grounded(pieces, n) && Page(env, placed, pieces, m) == Page(env, placed, pieces, n)
    decreases |pieces|
  {
    if pieces != [] {
      PageBound(env, placed, pieces[..|pieces| - 1], m, n);
    }
  }

  /** A placeholder for plain text shows the text where its guard keeps it. */
  lemma PageOfText(env: Env, placed: seq<Placed>, i: nat, n: nat, guard: Guard, text: Text)
    requires i < n <= |placed| && WellPlaced(placed) && placed[i] == Placed(guard, [Lit(text)])
    ensures Grounded([Ref(i)], n) && Page(env, placed, [Ref(i)], n) == IfKept(env, guard, text)
  {
    hide Kept;
    PageOne(env, placed, Ref(i), n);
    PageOne(env, placed, Lit(text), i);
  }

  lemma SlotShows(env: Env, site: Site, placed: seq<Placed>, h: nat, name: Text, n: nat)
    requires h < |site.fragments| <= n <= |placed| && placed == Placeholders(site) && WellPlaced(placed)
    requires GuestFor(site, h, name) < |site.fragments|
    ensures Grounded(ItemPieces(site, h, Slot(name)), n)
    ensures Page(env, placed, ItemPieces(site, h, Slot(name)), n) == ItemText(env, site, h, Slot(name))
  {
    hide Plain, SlotOpen, SlotClose, SlotEmpty, GuestFor, IfKept, Page;
    var g := GuestFor(site, h, name);
    var open, close := Lit(SlotOpen(name)), Lit(SlotClose());
    PageOfText(env, placed, g, n, site.fragments[g].guard, Plain(site.fragments[g].body));
    PageOne(env, placed, open, n);
    PageOne(env, placed, close, n);
    PageMore(env, placed, [open], [Ref(g)], n);
    PageMore(env, placed, [open] + [Ref(g)], [close], n);
    assert ItemPieces(site, h, Slot(name)) == [open] + [Ref(g)] + [close];
  }

  lemma {:induction false} HostShows(env: Env, site: Site, placed: seq<Placed>, h: nat, body: seq<Item>, n: nat)
    requires h < |site.fragments| <= n <= |placed| && placed == Placeholders(site) && WellPlaced(placed)
    ensures Grounded(HostPieces(site, h, body), n)
    ensures Page(env, placed, HostPieces(site, h, body), n) == HostText(env, site, h, body)
    decreases |body|
  {
    hide GuestFor, Plain, SlotEmpty, SlotOpen, SlotClose, Placeholders, Page, IfKept;
    if body == [] {
      PageNothing(env, placed, n);
    } else {
      var k := |body| - 1;
      HostShows(env, site, placed, h, body[..k], n);
      match body[k] {
        case Raw(text) => PageOne(env, placed, Lit(text), n);
        case Slot(name) =>
          if GuestFor(site, h, name) == |site.fragments| {
            PageOne(env, placed, Lit(SlotEmpty(name)), n);
          } else {
            SlotShows(env, site, placed, h, name, n);
          }
      }
      PageMore(env, placed, HostPieces(site, h, body[..k]), ItemPieces(site, h, body[k]), n);
    }
  }

  lemma PageNothing(env: Env, placed: seq<Placed>, n: nat)
    requires n <= |placed| && WellPlaced(placed)
    ensures Page(env, placed, [], n) == []
  {}

  lemma {:induction false} ScriptsShow(env: Env, site: Site, placed: seq<Placed>, k: nat, n: nat)
    requires k <= |site.scripts| && |site.fragments| + |site.scripts| <= n <= |placed|
    requires placed == Placeholders(site) && WellPlaced(placed)
    ensures Grounded(ScriptPieces(site, k), n)
    ensures Page(env, placed, ScriptPieces(site, k), n) == ScriptText(env, site.scripts[..k])
  {
    hide Page, IfKept;
    if k == 0 {
      PageNothing(env, placed, n);
    } else {
      ScriptsShow(env, site, placed, k - 1, n);
      assert site.scripts[..k][..k - 1] == site.scripts[..k - 1];
      PageOfText(env, placed, ScriptId(site, k - 1), n, site.scripts[k - 1].guard, site.scripts[k - 1].text);
      PageMore(env, placed, ScriptPieces(site, k - 1), [Ref(ScriptId(site, k - 1))], n);
    }
  }

  lemma SectionShows(env: Env, site: Site, placed: seq<Placed>, p: nat, n: nat)
    requires p < |site.shell| && site.shell[p].Section? && SectionId(site, p) < n <= |placed|
    requires placed == Placeholders(site) && WellPlaced(placed)
    ensures Grounded([Ref(SectionId(site, p))], n)
    ensures Page(env, placed, [Ref(SectionId(site, p))], n) == PartText(env, site, site.shell[p])
  {
    hide Page, HostPieces, FragmentOf, Kept;
    var part, id := site.shell[p], SectionId(site, p);
    PageOne(env, placed, Ref(id), n);
    assert placed[id] == SectionPlaced(site, part);
    var h := FragmentOf(site, part.name, 0);
    if h == |site.fragments| {
      PageNothing(env, placed, id);
    } else {
      var host := HostPieces(site, h, site.fragments[h].body);
      HostShows(env, site, placed, h, site.fragments[h].body, id);
      PageOne(env, placed, Lit(part.open), id);
      PageOne(env, placed, Lit(part.close), id);
      PageMore(env, placed, [Lit(part.open)], host, id);
      PageMore(env, placed, [Lit(part.open)] + host, [Lit(part.close)], id);
    }
  }

  lemma ScriptPartShows(env: Env, site: Site, placed: seq<Placed>, n: nat)
    requires |site.fragments| + |site.scripts| <= n <= |placed| && placed == Placeholders(site) && WellPlaced(placed)
    ensures var pieces := [Lit(SCRIPT_OPEN)] + ScriptPieces(site, |site.scripts|) + [Lit(SCRIPT_CLOSE)];
            Grounded(pieces, n) && Page(env, placed, pieces, n) == PartText(env, site, Scripts)
  {
    hide Page, ScriptPieces, ScriptText, Ascii, Placeholders;
    var scripts := ScriptPieces(site, |site.scripts|);
    ScriptsShow(env, site, placed, |site.scripts|, n);
    assert site.scripts[..|site.scripts|] == site.scripts;
    PageOne(env, placed, Lit(SCRIPT_OPEN), n);
    PageOne(env, placed, Lit(SCRIPT_CLOSE), n);
    PageMore(env, placed, [Lit(SCRIPT_OPEN)], scripts, n);
    PageMore(env, placed, [Lit(SCRIPT_OPEN)] + scripts, [Lit(SCRIPT_CLOSE)], n);
  }

  lemma {:induction false} ShellShows(env: Env, site: Site, placed: seq<Placed>, p: nat, n: nat)
    requires p <= |site.shell| && SectionId(site, p) <= n <= |placed| && placed == Placeholders(site) && WellPlaced(placed)
    ensures Grounded(ShellPieces(site, p), n)
    ensures Page(env, placed, ShellPieces(site, p), n) == SitePage(env, site, site.shell[..p])
    decreases p
  {
    hide Page, PartText, Placeholders, ScriptPieces, Ascii;
    if p == 0 {
      PageNothing(env, placed, n);
    } else {
      ShellShows(env, site, placed, p - 1, n);
      assert site.shell[..p][..p - 1] == site.shell[..p - 1];
      match site.shell[p - 1] {
        case Markup(text) =>
          PageOne(env, placed, Lit(text), n);
          MarkupIsItself(env, site, text);
        case Scripts => ScriptPartShows(env, site, placed, n);
        case Section(_, _, _) => SectionShows(env, site, placed, p - 1, n);
      }
      PageMore(env, placed, ShellPieces(site, p - 1), PartPieces(site, p - 1), n);
    }
  }

  lemma MarkupIsItself(env: Env, site: Site, text: Text)
    ensures PartText(env, site, Markup(text)) == text
  {}

  /** The runs the tool makes of a site. */
  ghost function RunsOf(site: Site): seq<Run>
    requires GuardsWellFormed(site)
  {
    TreeNests(site);
    ShellPiecesFit(site, |site.shell|);
    Unfolded(Placeholders(site), [], ShellPieces(site, |site.shell|), |Placeholders(site)|, [])
  }

  /** On every build, device or host, whatever its macros, joining the runs that survive is the page assembled
      from only the files whose guard keeps them. */
  lemma RunsShowThePage(env: Env, site: Site)
    requires GuardsWellFormed(site)
    ensures Surviving(env, RunsOf(site)) == SitePage(env, site, site.shell)
  {
    hide Page, Unfolded, SitePage, Placeholders, ShellPieces, Kept, GuardsNest, WellPlaced;
    var placed, pieces := Placeholders(site), ShellPieces(site, |site.shell|);
    TreeNests(site);
    ShellPiecesFit(site, |site.shell|);
    UnguardedHostsAll(placed, pieces);
    UnfoldedMeans(env, placed, [], pieces, |placed|, []);
    ShellShows(env, site, placed, |site.shell|, |placed|);
    assert site.shell[..|site.shell|] == site.shell;
    NothingSurvives(env);
  }

  lemma UnguardedHostsAll(placed: seq<Placed>, pieces: seq<Piece>)
    ensures Nests([], placed, pieces)
  {}

  lemma NothingSurvives(env: Env)
    ensures Surviving(env, []) == [] && Kept(env, [])
  {}

  // ---------------------------------------------------------------- the tool

  /** The fragments that could hold the guest: hosts = [n for n in frag_data if ...]. */
  method FindHosts(site: Site, g: nat) returns (hosts: seq<nat>)
    requires g < |site.fragments|
    ensures forall h: nat :: h in hosts <==> h < |site.fragments| && CanHost(site, h, g)
    ensures forall i, j :: 0 <= i < j < |hosts| ==> hosts[i] < hosts[j]
  {
    hide CanHost;
    hosts := [];
    for h := 0 to |site.fragments|
      invariant forall k: nat :: k in hosts <==> k < h && CanHost(site, k, g)
      invariant forall i, j :: 0 <= i < j < |hosts| ==> hosts[i] < hosts[j]
    {
      if CanHost(site, h, g) {
        assert forall i :: 0 <= i < |hosts| ==> hosts[i] in hosts;
        hosts := hosts + [h];
      }
    }
  }

  /** body.count(slot) */
  method CountSlots(body: seq<Item>, name: Text) returns (n: nat)
    ensures n == Slots(body, name)
  {
    n := 0;
    for i := 0 to |body|
      invariant n == Slots(body[..i], name)
    {
      assert body[..i + 1][..i] == body[..i];
      if body[i] == Slot(name) { n := n + 1; }
    }
    assert body[..|body|] == body;
  }

  /** Every fragment that owns no section has one host with one slot; the loop stops at the first that has not. */
  method GuestsHaveHosts(site: Site) returns (ok: bool)
    ensures ok <==> forall g :: 0 <= g < |site.fragments| ==>
              OwnsSection(site, site.fragments[g].name) || HasHost(site, g)
  {
    hide CanHost, OwnsSection;
    for g := 0 to |site.fragments|
      invariant forall k :: 0 <= k < g ==> OwnsSection(site, site.fragments[k].name) || HasHost(site, k)
    {
      if !OwnsSection(site, site.fragments[g].name) {
        var hosts := FindHosts(site, g);
        if |hosts| != 1 {
          OneHost(site, g, hosts);
          return false;
        }
        assert hosts[0] in hosts;
        var n := CountSlots(site.fragments[hosts[0]].body, site.fragments[g].name);
        OneHost(site, g, hosts);
        if n != 1 { return false; }
      }
    }
    return true;
  }

  /** len(hosts) == 1 and one slot in it: that is having a host. */
  lemma OneHost(site: Site, g: nat, hosts: seq<nat>)
    requires g < |site.fragments|
    requires forall h: nat :: h in hosts <==> h < |site.fragments| && CanHost(site, h, g)
    requires forall i, j :: 0 <= i < j < |hosts| ==> hosts[i] < hosts[j]
    ensures |hosts| > 0 ==> hosts[0] < |site.fragments|
    ensures HasHost(site, g) <==>
            |hosts| == 1 && Slots(site.fragments[hosts[0]].body, site.fragments[g].name) == 1
  {
    hide CanHost, Slots;
    if |hosts| > 0 {
      assert hosts[0] in hosts;
    }
    if |hosts| > 1 {
      assert hosts[1] in hosts && hosts[0] < hosts[1];
    }
  }

  /** do_section over the shell: every section has a fragment, and none comes twice. */
  method SectionsMatch(site: Site) returns (ok: bool)
    ensures ok <==>
            && (forall p :: 0 <= p < |site.shell| && site.shell[p].Section? ==>
                  FragmentOf(site, site.shell[p].name, 0) < |site.fragments|)
            && (forall p, q :: 0 <= p < q < |site.shell| && site.shell[p].Section? && site.shell[q].Section? ==>
                  site.shell[p].name != site.shell[q].name)
  {
    hide FragmentOf;
    var shellNames: seq<Text> := [];
    for p := 0 to |site.shell|
      invariant forall q :: 0 <= q < p && site.shell[q].Section? ==>
                  FragmentOf(site, site.shell[q].name, 0) < |site.fragments| && site.shell[q].name in shellNames
      invariant forall name :: name in shellNames ==> exists q :: 0 <= q < p && site.shell[q].Section? && site.shell[q].name == name
      invariant forall q, r :: 0 <= q < r < p && site.shell[q].Section? && site.shell[r].Section? ==>
                  site.shell[q].name != site.shell[r].name
    {
      match site.shell[p] {
        case Section(name, _, _) =>
          if FragmentOf(site, name, 0) == |site.fragments| || name in shellNames { return false; }
          shellNames := shellNames + [name];
        case _ =>
      }
    }
    return true;
  }

  /** assemble_segments. */
  method AssembleSegments(site: Site) returns (accepted: bool, segments: Segments)
    requires GuardsWellFormed(site)
    ensures accepted == Accepts(site)
    ensures accepted ==> segments.runs == RunsOf(site)
  {
    hide CanHost, HasHost, OwnsSection, FragmentOf;
    TreeNests(site);
    ShellPiecesFit(site, |site.shell|);
    segments := new Segments();
    accepted := GuestsHaveHosts(site);
    if !accepted { return; }
    accepted := SectionsMatch(site);
    if accepted {
      segments.Unfold(Placeholders(site), [], ShellPieces(site, |site.shell|), |Placeholders(site)|);
    }
  }
}
