/** Flattening the page of tools/gen_index_html.py: files spliced in through placeholders become one list of
    guarded runs, and no build can tell the difference. */
module PageTree {
  import opened Numbers
  import opened Guards

  type Text = seq<Octet>

  /** A text with placeholders, split at them. */
  datatype Piece = Lit(text: Text) | Ref(id: nat)

  /** The guard and the text behind a placeholder. */
  datatype Placed = Placed(guard: Guard, body: seq<Piece>)

  /** A run of bytes under one guard. */
  datatype Run = Run(guard: Guard, text: Text)

  /** Every placeholder is one of the first n. */
  ghost predicate Grounded(pieces: seq<Piece>, n: nat) {
    forall i :: 0 <= i < |pieces| && pieces[i].Ref? ==> pieces[i].id < n
  }

  /** Bodies use only placeholders made before them. */
  ghost predicate WellPlaced(placed: seq<Placed>) {
    forall i :: 0 <= i < |placed| ==> Grounded(placed[i].body, i)
  }

  // ---------------------------------------------------------------- the tree and the list

  /** The page as a tree: a placeholder stands for its body where its guard keeps it, and for nothing else. */
  ghost function Page(env: Env, placed: seq<Placed>, pieces: seq<Piece>, n: nat): Text
    requires n <= |placed| && WellPlaced(placed) && Grounded(pieces, n)
    decreases n, |pieces|
  {
    if pieces == [] then []
    else
      var last := |pieces| - 1;
      Page(env, placed, pieces[..last], n) + OnePiece(env, placed, pieces[last], n)
  }

  ghost function OnePiece(env: Env, placed: seq<Placed>, piece: Piece, n: nat): Text
    requires n <= |placed| && WellPlaced(placed) && (piece.Ref? ==> piece.id < n)
    decreases n, 0
  {
    match piece
    case Lit(text) => text
    case Ref(i) => if Kept(env, placed[i].guard) then Page(env, placed, placed[i].body, i) else []
  }

  /** What a build sees of a list of runs. */
  function Surviving(env: Env, runs: seq<Run>): Text {
    if runs == [] then []
    else
      var last := |runs| - 1;
      Surviving(env, runs[..last]) + (if Kept(env, runs[last].guard) then runs[last].text else [])
  }

  /** Every file's guard implies the guard of the file it is spliced into. */
  ghost predicate Nests(guard: Guard, placed: seq<Placed>, pieces: seq<Piece>) {
    forall i :: 0 <= i < |pieces| && pieces[i].Ref? && pieces[i].id < |placed| ==>
      MayHost(guard, placed[pieces[i].id].guard)
  }

  ghost predicate GuardsNest(placed: seq<Placed>) {
    forall i :: 0 <= i < |placed| ==> WellFormed(placed[i].guard) && Nests(placed[i].guard, placed, placed[i].body)
  }

  // ---------------------------------------------------------------- unfolding

  /** One piece of text under a guard: unguarded neighbours share a run. */
  function Appended(runs: seq<Run>, guard: Guard, text: Text): seq<Run> {
    if text == [] then runs
    else if guard == [] && runs != [] && runs[|runs| - 1].guard == [] then
      runs[..|runs| - 1] + [Run([], runs[|runs| - 1].text + text)]
    else runs + [Run(guard, text)]
  }

  ghost function Unfolded(placed: seq<Placed>, guard: Guard, pieces: seq<Piece>, n: nat, runs: seq<Run>): seq<Run>
    requires n <= |placed| && WellPlaced(placed) && Grounded(pieces, n)
    decreases n, |pieces|
  {
    if pieces == [] then runs
    else
      var last := |pieces| - 1;
      UnfoldedPiece(placed, guard, pieces[last], n, Unfolded(placed, guard, pieces[..last], n, runs))
  }

  ghost function UnfoldedPiece(placed: seq<Placed>, guard: Guard, piece: Piece, n: nat, runs: seq<Run>): seq<Run>
    requires n <= |placed| && WellPlaced(placed) && (piece.Ref? ==> piece.id < n)
    decreases n, 0
  {
    match piece
    case Lit(text) => Appended(runs, guard, text)
    case Ref(i) => Unfolded(placed, placed[i].guard, placed[i].body, i, runs)
  }

  lemma SurvivingMore(env: Env, runs: seq<Run>, run: Run)
    ensures Surviving(env, runs + [run]) == Surviving(env, runs) + (if Kept(env, run.guard) then run.text else [])
  {
    hide Kept;
    assert (runs + [run])[..|runs|] == runs;
  }

  lemma AppendedSurvives(env: Env, runs: seq<Run>, guard: Guard, text: Text)
    ensures Surviving(env, Appended(runs, guard, text)) == Surviving(env, runs) + (if Kept(env, guard) then text else [])
  {
    hide Kept, Surviving;
    KeptUnguarded(env);
    SurvivingMore(env, runs, Run(guard, text));
    if guard == [] && runs != [] && runs[|runs| - 1].guard == [] {
      var init, last := runs[..|runs| - 1], runs[|runs| - 1];
      assert runs == init + [last];
      SurvivingMore(env, init, last);
      SurvivingMore(env, init, Run([], last.text + text));
      Associates(Surviving(env, init), last.text, text);
    }
  }

  lemma Associates(a: Text, b: Text, c: Text)
    ensures a + (b + c) == a + b + c && a + [] == a
  {}

  lemma KeptUnguarded(env: Env)
    ensures Kept(env, [])
  {}

  /** Flattening preserves meaning: on every build, joining the runs whose condition survives is assembling the
      tree with only the files whose guard holds. */
  lemma {:induction false} UnfoldedMeans(env: Env, placed: seq<Placed>, guard: Guard, pieces: seq<Piece>, n: nat, runs: seq<Run>)
    requires n <= |placed| && WellPlaced(placed) && Grounded(pieces, n)
    requires GuardsNest(placed) && Nests(guard, placed, pieces)
    ensures Surviving(env, Unfolded(placed, guard, pieces, n, runs)) ==
            Surviving(env, runs) + (if Kept(env, guard) then Page(env, placed, pieces, n) else [])
    decreases n, |pieces|
  {
    hide Kept, MayHost, WellFormed, Surviving, Appended;
    if pieces != [] {
      var last := |pieces| - 1;
      UnfoldedMeans(env, placed, guard, pieces[..last], n, runs);
      var before := Unfolded(placed, guard, pieces[..last], n, runs);
      match pieces[last]
      case Lit(text) =>
        AppendedSurvives(env, before, guard, text);
      case Ref(i) =>
        var guest := placed[i];
        UnfoldedMeans(env, placed, guest.guard, guest.body, i, before);
        if Kept(env, guest.guard) {
          GuestImpliesHost(env, guard, guest.guard);
        }
    }
  }

  /** The run list being built. */
  class Segments {
    var runs: seq<Run>

    constructor ()
      ensures runs == []
    {
      runs := [];
    }

    /** unfold. */
    method Unfold(placed: seq<Placed>, guard: Guard, pieces: seq<Piece>, ghost n: nat)
      requires n <= |placed| && WellPlaced(placed) && Grounded(pieces, n)
      modifies this
      ensures runs == Unfolded(placed, guard, pieces, n, old(runs))
      decreases n
    {
      var k := 0;
      while k < |pieces|
        invariant k <= |pieces|
        invariant runs == Unfolded(placed, guard, pieces[..k], n, old(runs))
        decreases |pieces| - k
      {
        assert pieces[..k + 1][..k] == pieces[..k];
        match pieces[k] {
          case Ref(i) =>
            Unfold(placed, placed[i].guard, placed[i].body, i);
          case Lit(text) =>
            if text == [] {
            } else if guard == [] && runs != [] && runs[|runs| - 1].guard == [] {
              runs := runs[..|runs| - 1] + [Run([], runs[|runs| - 1].text + text)];
            } else {
              runs := runs + [Run(guard, text)];
            }
        }
        k := k + 1;
      }
      assert pieces[..|pieces|] == pieces;
    }
  }
}
