/** The runs of tools/gen_index_html.py, as bytes: read_source refuses a file that is not UTF-8, so every run is
    UTF-8 too, and none is empty. */
module PageUtf8 {
  import opened Numbers
  import opened Guards
  import opened PageTree
  import opened PageSite
  import opened PageParts

  /** What read_source and the manifest's names guarantee. */
  ghost predicate SourcesAreUtf8(site: Site) {
    && (forall p :: 0 <= p < |site.shell| ==> PartIsUtf8(site.shell[p]))
    && (forall i :: 0 <= i < |site.scripts| ==> Utf8(site.scripts[i].text))
    && (forall g :: 0 <= g < |site.fragments| ==> BodyIsUtf8(site.fragments[g].body))
  }

  ghost predicate PartIsUtf8(part: Part) {
    match part
    case Markup(text) => Utf8(text)
    case Scripts => true
    case Section(_, open, close) => Utf8(open) && Utf8(close)
  }

  ghost predicate BodyIsUtf8(body: seq<Item>) {
    forall i :: 0 <= i < |body| ==> ItemIsUtf8(body[i])
  }

  ghost predicate ItemIsUtf8(item: Item) {
    match item case Raw(text) => Utf8(text) case Slot(name) => Utf8(name)
  }

  // ---------------------------------------------------------------- texts

  lemma {:induction false} Utf8Joins(a: Text, b: Text)
    requires Utf8(a) && Utf8(b)
    ensures Utf8(a + b)
    decreases |a|
  {
    if a == [] {
      assert a + b == b;
    } else {
      hide SequenceLength, Continues;
      var n := SequenceLength(a[0]);
      Utf8Joins(a[n..], b);
      assert (a + b)[n..] == a[n..] + b && (a + b)[0] == a[0];
      assert StartsWhole(a + b) by {
        assert forall i :: 0 <= i < n ==> (a + b)[i] == a[i];
      }
    }
  }

  lemma {:induction false} AsciiIsUtf8(t: Text)
    requires forall i :: 0 <= i < |t| ==> t[i] < 0x80
    ensures Utf8(t)
    decreases |t|
  {
    if t != [] {
      AsciiIsUtf8(t[1..]);
    }
  }

  lemma MarkupIsUtf8(s: string)
    requires forall i :: 0 <= i < |s| ==> s[i] < '\U{80}'
    ensures Utf8(Ascii(s))
  {
    AsciiIsUtf8(Ascii(s));
  }

  lemma TagsAreUtf8(name: Text)
    requires Utf8(name)
    ensures Utf8(SlotEmpty(name)) && Utf8(SlotOpen(name)) && Utf8(SlotClose()) && Utf8(SCRIPT_OPEN) && Utf8(SCRIPT_CLOSE)
  {
    hide Utf8, Ascii;
    MarkupIsUtf8("<div id=\"");
    MarkupIsUtf8("-slot\"></div>");
    MarkupIsUtf8("-slot\">\n");
    MarkupIsUtf8("\n</div>");
    MarkupIsUtf8("<script>\n");
    MarkupIsUtf8("</script>\n");
    Utf8Joins(Ascii("<div id=\""), name);
    Utf8Joins(Ascii("<div id=\"") + name, Ascii("-slot\"></div>"));
    Utf8Joins(Ascii("<div id=\"") + name, Ascii("-slot\">\n"));
  }

  lemma {:induction false} PlainIsUtf8(body: seq<Item>)
    requires BodyIsUtf8(body)
    ensures Utf8(Plain(body))
  {
    hide Utf8, SlotEmpty;
    if body == [] {
      AsciiIsUtf8([]);
    } else {
      var n := |body| - 1;
      PlainIsUtf8(body[..n]);
      match body[n] {
        case Raw(text) => Utf8Joins(Plain(body[..n]), text);
        case Slot(name) =>
          TagsAreUtf8(name);
          Utf8Joins(Plain(body[..n]), SlotEmpty(name));
      }
    }
  }

  // ---------------------------------------------------------------- pieces

  ghost predicate PiecesAreUtf8(pieces: seq<Piece>) {
    forall i :: 0 <= i < |pieces| && pieces[i].Lit? ==> Utf8(pieces[i].text)
  }

  ghost predicate BodiesAreUtf8(placed: seq<Placed>) {
    forall i :: 0 <= i < |placed| ==> PiecesAreUtf8(placed[i].body)
  }

  ghost predicate WholeRuns(runs: seq<Run>) {
    forall i :: 0 <= i < |runs| ==> runs[i].text != [] && Utf8(runs[i].text)
  }

  lemma AppendedIsWhole(runs: seq<Run>, guard: Guard, text: Text)
    requires WholeRuns(runs) && Utf8(text)
    ensures WholeRuns(Appended(runs, guard, text))
  {
    hide Utf8;
    if guard == [] && runs != [] && runs[|runs| - 1].guard == [] {
      Utf8Joins(runs[|runs| - 1].text, text);
    }
  }

  /** Unfolding keeps runs whole: no sequence of bytes is cut, and no run is empty. */
  lemma {:induction false} UnfoldedIsWhole(placed: seq<Placed>, guard: Guard, pieces: seq<Piece>, n: nat, runs: seq<Run>)
    requires n <= |placed| && WellPlaced(placed) && Grounded(pieces, n)
    requires BodiesAreUtf8(placed) && PiecesAreUtf8(pieces) && WholeRuns(runs)
    ensures WholeRuns(Unfolded(placed, guard, pieces, n, runs))
    decreases n, |pieces|
  {
    hide Utf8, Appended, WholeRuns;
    if pieces != [] {
      var last := |pieces| - 1;
      UnfoldedIsWhole(placed, guard, pieces[..last], n, runs);
      var before := Unfolded(placed, guard, pieces[..last], n, runs);
      match pieces[last]
      case Lit(text) =>
        AppendedIsWhole(before, guard, text);
      case Ref(i) =>
        UnfoldedIsWhole(placed, placed[i].guard, placed[i].body, i, before);
    }
  }

  lemma {:induction false} HostPiecesAreUtf8(site: Site, h: nat, body: seq<Item>)
    requires h < |site.fragments| && BodyIsUtf8(body)
    ensures PiecesAreUtf8(HostPieces(site, h, body))
  {
    hide Utf8, SlotEmpty, SlotOpen, SlotClose, GuestFor;
    if body != [] {
      var n := |body| - 1;
      HostPiecesAreUtf8(site, h, body[..n]);
      assert ItemIsUtf8(body[n]);
      if body[n].Slot? {
        TagsAreUtf8(body[n].name);
      }
    }
  }

  lemma {:induction false} ScriptPiecesAreUtf8(site: Site, k: nat)
    ensures PiecesAreUtf8(ScriptPieces(site, k))
  {
    hide Utf8;
    if k > 0 {
      ScriptPiecesAreUtf8(site, k - 1);
    }
  }

  lemma {:induction false} ShellPiecesAreUtf8(site: Site, p: nat)
    requires p <= |site.shell| && SourcesAreUtf8(site)
    ensures PiecesAreUtf8(ShellPieces(site, p))
  {
    hide Utf8, BodyIsUtf8, ScriptPieces;
    if p > 0 {
      ShellPiecesAreUtf8(site, p - 1);
      assert PartIsUtf8(site.shell[p - 1]);
      ScriptPiecesAreUtf8(site, |site.scripts|);
      AsciiIsUtf8([]);
      TagsAreUtf8([]);
    }
  }

  lemma PlaceholdersAreUtf8(site: Site)
    requires SourcesAreUtf8(site)
    ensures BodiesAreUtf8(Placeholders(site))
  {
    hide Utf8, HostPieces, Plain, FragmentOf, BodyIsUtf8;
    var placed := Placeholders(site);
    forall i | 0 <= i < |placed|
      ensures PiecesAreUtf8(placed[i].body)
    {
      if i < |site.fragments| {
        PlainIsUtf8(site.fragments[i].body);
      } else if i >= |site.fragments| + |site.scripts| {
        var part := site.shell[i - |site.fragments| - |site.scripts|];
        assert placed[i] == SectionPlaced(site, part) && PartIsUtf8(part);
        if part.Section? && FragmentOf(site, part.name, 0) < |site.fragments| {
          var h := FragmentOf(site, part.name, 0);
          HostPiecesAreUtf8(site, h, site.fragments[h].body);
        }
      }
    }
  }

  /** From UTF-8 sources every run is UTF-8 and not empty. */
  lemma RunsAreUtf8(site: Site)
    requires GuardsWellFormed(site) && SourcesAreUtf8(site)
    ensures WholeRuns(RunsOf(site))
  {
    hide SourcesAreUtf8, Placeholders, ShellPieces, Utf8, Unfolded, BodiesAreUtf8, PiecesAreUtf8;
    TreeNests(site);
    ShellPiecesFit(site, |site.shell|);
    PlaceholdersAreUtf8(site);
    ShellPiecesAreUtf8(site, |site.shell|);
    UnfoldedIsWhole(Placeholders(site), [], ShellPieces(site, |site.shell|), |Placeholders(site)|, []);
  }
}
