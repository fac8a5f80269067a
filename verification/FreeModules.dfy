/** How many modules the function patterns of main/ui/qrcode.c leave for codewords, counted for every version. */
module FreeModules {
  import opened Zigzag
  import opened FormatInfo
  import opened Patterns

  /** The modules that the function patterns leave for codewords, in scan order. */
  ghost function Spaces(version: nat, cells: seq<Cell>): seq<Cell>
    requires version >= 1
  {
    if cells == [] then []
    else
      var n := |cells| - 1;
      Spaces(version, cells[..n]) + (if Reserved(version, cells[n]) then [] else [cells[n]])
  }

  lemma SymbolSide(version: nat)
    requires version >= 1
    ensures Side(4 * version + 17) && 4 * version + 17 >= 21
  {
    assert 4 * version + 17 == 2 * (2 * version + 8) + 1;
    OddNumber(2 * version + 8);
  }

  lemma OddNumber(k: nat)
    ensures (2 * k + 1) % 2 == 1
  {}

  // ---------------------------------------------------------------- sizes

  function Rect(x: nat, y: nat, w: nat, h: nat): set<Cell> {
    set i: nat, j: nat | x <= i < x + w && y <= j < y + h :: Cell(i, j)
  }

  lemma InRect(c: Cell, x: nat, y: nat, w: nat, h: nat)
    ensures c in Rect(x, y, w, h) <==> x <= c.x < x + w && y <= c.y < y + h
  {
    assert c == Cell(c.x, c.y);
  }

  lemma {:induction false} ColumnSize(x: nat, y: nat, h: nat)
    ensures |Rect(x, y, 1, h)| == h
  {
    if h > 0 {
      ColumnSize(x, y, h - 1);
      var last := Cell(x, y + h - 1);
      forall c
        ensures c in Rect(x, y, 1, h) <==> c in Rect(x, y, 1, h - 1) + {last}
      {
        InRect(c, x, y, 1, h);
        InRect(c, x, y, 1, h - 1);
      }
      assert Rect(x, y, 1, h) == Rect(x, y, 1, h - 1) + {last};
      InRect(last, x, y, 1, h - 1);
    } else {
      assert Rect(x, y, 1, 0) == {};
    }
  }

  lemma {:induction false} RectSize(x: nat, y: nat, w: nat, h: nat)
    ensures |Rect(x, y, w, h)| == w * h
  {
    if w > 0 {
      RectSize(x, y, w - 1, h);
      ColumnSize(x + w - 1, y, h);
      var rest, column := Rect(x, y, w - 1, h), Rect(x + w - 1, y, 1, h);
      forall c
        ensures c in Rect(x, y, w, h) <==> c in rest + column
        ensures c !in rest * column
      {
        InRect(c, x, y, w, h);
        InRect(c, x, y, w - 1, h);
        InRect(c, x + w - 1, y, 1, h);
      }
      Together(Rect(x, y, w, h), rest, column);
      assert w * h == (w - 1) * h + h;
    } else {
      assert Rect(x, y, 0, h) == {};
    }
  }

  lemma Together(whole: set<Cell>, a: set<Cell>, b: set<Cell>)
    requires forall c :: c in whole <==> c in a + b
    requires forall c :: c !in a * b
    ensures |whole| == |a| + |b|
  {
    assert whole == a + b && a * b == {};
  }

  function Elements(s: seq<Cell>): set<Cell> { set c | c in s }

  lemma {:induction false} DistinctSize(s: seq<Cell>)
    requires Distinct(s)
    ensures |Elements(s)| == |s|
  {
    if s != [] {
      var n := |s| - 1;
      DistinctSize(s[..n]);
      assert s == s[..n] + [s[n]];
      assert Elements(s) == Elements(s[..n]) + {s[n]} && s[n] !in Elements(s[..n]);
    } else {
      assert Elements(s) == {};
    }
  }

  // ---------------------------------------------------------------- alignment patterns

  /** The cells of one alignment pattern beside the timing patterns. */
  function Square(version: nat, a: nat, b: nat): set<Cell>
    requires 2 <= version <= 40 && a < AlignCount(version) && b < AlignCount(version)
  {
    CentersFit(version, a);
    CentersFit(version, b);
    if AtFinder(AlignCount(version), a, b) then {}
    else set c | c in Rect(AlignPosition(version, a) - 2, AlignPosition(version, b) - 2, 5, 5) && c.x != 6 && c.y != 6
  }

  function SquareSize(n: nat, a: nat, b: nat): nat {
    if AtFinder(n, a, b) then 0 else if a == 0 || b == 0 then 20 else 25
  }

  lemma InSquare(version: nat, a: nat, b: nat, c: Cell)
    requires 2 <= version <= 40 && a < AlignCount(version) && b < AlignCount(version)
    ensures c in Square(version, a, b) <==> AlignedAt(4 * version + 17, version, a, b, c) && c.x != 6 && c.y != 6
  {
    hide AlignPosition, AlignCount, AtFinder, Rect;
    CentersFit(version, a);
    CentersFit(version, b);
    InRect(c, AlignPosition(version, a) - 2, AlignPosition(version, b) - 2, 5, 5);
  }

  /** A center on an axis loses five cells to the timing pattern there. */
  lemma SquareHas(version: nat, a: nat, b: nat)
    requires 2 <= version <= 40 && a < AlignCount(version) && b < AlignCount(version)
    ensures |Square(version, a, b)| == SquareSize(AlignCount(version), a, b)
  {
    hide AlignPosition, AlignCount, Rect;
    FirstCenter(version);
    var x, y := AlignPosition(version, a), AlignPosition(version, b);
    CentersFit(version, a);
    CentersFit(version, b);
    if a > 0 { CentersRise(version, 0, a); }
    if b > 0 { CentersRise(version, 0, b); }
    if AtFinder(AlignCount(version), a, b) {
    } else if a == 0 {
      RectSize(4, y - 2, 2, 5);
      RectSize(7, y - 2, 2, 5);
      forall c
        ensures c in Square(version, a, b) <==> c in Rect(4, y - 2, 2, 5) + Rect(7, y - 2, 2, 5)
        ensures c !in Rect(4, y - 2, 2, 5) * Rect(7, y - 2, 2, 5)
      {
        InRect(c, x - 2, y - 2, 5, 5);
        InRect(c, 4, y - 2, 2, 5);
        InRect(c, 7, y - 2, 2, 5);
      }
      Together(Square(version, a, b), Rect(4, y - 2, 2, 5), Rect(7, y - 2, 2, 5));
    } else if b == 0 {
      RectSize(x - 2, 4, 5, 2);
      RectSize(x - 2, 7, 5, 2);
      forall c
        ensures c in Square(version, a, b) <==> c in Rect(x - 2, 4, 5, 2) + Rect(x - 2, 7, 5, 2)
        ensures c !in Rect(x - 2, 4, 5, 2) * Rect(x - 2, 7, 5, 2)
      {
        InRect(c, x - 2, y - 2, 5, 5);
        InRect(c, x - 2, 4, 5, 2);
        InRect(c, x - 2, 7, 5, 2);
      }
      Together(Square(version, a, b), Rect(x - 2, 4, 5, 2), Rect(x - 2, 7, 5, 2));
    } else {
      RectSize(x - 2, y - 2, 5, 5);
      forall c
        ensures c in Square(version, a, b) <==> c in Rect(x - 2, y - 2, 5, 5)
      {
        InRect(c, x - 2, y - 2, 5, 5);
      }
      assert Square(version, a, b) == Rect(x - 2, y - 2, 5, 5);
    }
  }

  lemma FirstCenter(version: nat)
    requires version >= 2
    ensures AlignPosition(version, 0) == 6 && AlignCount(version) >= 2
  {}

  /** The cells of all patterns before center (i, j). */
  ghost function Squares(version: nat, i: nat, j: nat): set<Cell>
    requires 2 <= version <= 40 && j <= AlignCount(version) && (i < AlignCount(version) || (i == AlignCount(version) && j == 0))
    decreases i, j
  {
    if j > 0 then Squares(version, i, j - 1) + Square(version, i, j - 1)
    else if i > 0 then Squares(version, i - 1, AlignCount(version))
    else {}
  }

  function SquaresSize(n: nat, i: nat, j: nat): nat
    decreases i, j
  {
    if j > 0 then SquaresSize(n, i, j - 1) + SquareSize(n, i, j - 1)
    else if i > 0 then SquaresSize(n, i - 1, n)
    else 0
  }

  lemma {:induction false} InSquares(version: nat, i: nat, j: nat, c: Cell)
    requires 2 <= version <= 40 && j <= AlignCount(version) && (i < AlignCount(version) || (i == AlignCount(version) && j == 0))
    ensures c in Squares(version, i, j) <==> Patterns.Aligned(4 * version + 17, version, i, j, c) && c.x != 6 && c.y != 6
    decreases i, j
  {
    hide AlignCount, Square, AlignedAt;
    var size := 4 * version + 17;
    if j > 0 {
      InSquares(version, i, j - 1, c);
      InSquare(version, i, j - 1, c);
      AlignedNext(size, version, i, j - 1, c);
    } else if i > 0 {
      FirstCenter(version);
      InSquares(version, i - 1, AlignCount(version), c);
      assert Patterns.Aligned(size, version, i, 0, c) <==> Patterns.Aligned(size, version, i - 1, AlignCount(version), c);
    }
  }

  lemma {:induction false} SquaresHave(version: nat, i: nat, j: nat)
    requires 2 <= version <= 40 && j <= AlignCount(version) && (i < AlignCount(version) || (i == AlignCount(version) && j == 0))
    ensures |Squares(version, i, j)| == SquaresSize(AlignCount(version), i, j)
    decreases i, j
  {
    hide AlignCount, Square, SquareSize, AlignedAt, Patterns.Aligned;
    if j > 0 {
      SquaresHave(version, i, j - 1);
      SquareHas(version, i, j - 1);
      var before, now := Squares(version, i, j - 1), Square(version, i, j - 1);
      forall c
        ensures c !in before * now
      {
        NotBefore(version, i, j - 1, c);
      }
      Together(Squares(version, i, j), before, now);
    } else if i > 0 {
      SquaresHave(version, i - 1, AlignCount(version));
    }
  }

  /** No pattern shares a cell with one before it. */
  lemma NotBefore(version: nat, i: nat, j: nat, c: Cell)
    requires 2 <= version <= 40 && i < AlignCount(version) && j < AlignCount(version)
    ensures !(c in Squares(version, i, j) && c in Square(version, i, j))
  {
    hide AlignCount, Square, Squares, AlignedAt;
    var size := 4 * version + 17;
    InSquares(version, i, j, c);
    InSquare(version, i, j, c);
    if Patterns.Aligned(size, version, i, j, c) && AlignedAt(size, version, i, j, c) {
      var a: nat, b: nat :| a < AlignCount(version) && b < AlignCount(version) && Earlier(a, b, i, j) && AlignedAt(size, version, a, b, c);
      AlignmentsApart(size, version, a, b, i, j, c);
    }
  }

  // ---------------------------------------------------------------- all function modules

  /** The function modules of a symbol in parts that share no cell. */
  ghost function Corners(size: nat): set<Cell>
    requires size >= 21
  {
    Rect(0, 0, 8, 8) + Rect(size - 8, 0, 8, 8) + Rect(0, size - 8, 8, 8)
  }

  ghost function Tracks(size: nat): set<Cell>
    requires size >= 21
  {
    Rect(8, 6, size - 16, 1) + Rect(6, 8, 1, size - 16)
  }

  ghost function VersionCopies(version: nat): set<Cell> {
    if version < 7 then {} else Rect(4 * version + 6, 0, 3, 6) + Rect(0, 4 * version + 6, 6, 3)
  }

  ghost function AllSquares(version: nat): set<Cell>
    requires 1 <= version <= 40
  {
    if version == 1 then {} else Squares(version, AlignCount(version), 0)
  }

  ghost function ReservedCells(version: nat): set<Cell>
    requires 1 <= version <= 40
  {
    var size := 4 * version + 17;
    Corners(size) + Tracks(size) + Elements(FormatCells(size)) + VersionCopies(version) + AllSquares(version)
  }

  lemma InCorners(size: nat, c: Cell)
    requires size >= 21
    ensures c in Corners(size) <==> (c.x < 8 && c.y < 8) || (size - 8 <= c.x < size && c.y < 8) || (c.x < 8 && size - 8 <= c.y < size)
  {
    hide Rect;
    InRect(c, 0, 0, 8, 8);
    InRect(c, size - 8, 0, 8, 8);
    InRect(c, 0, size - 8, 8, 8);
  }

  lemma InTracks(size: nat, c: Cell)
    requires size >= 21
    ensures c in Tracks(size) <==> (c.y == 6 && 8 <= c.x < size - 8) || (c.x == 6 && 8 <= c.y < size - 8)
  {
    hide Rect;
    InRect(c, 8, 6, size - 16, 1);
    InRect(c, 6, 8, 1, size - 16);
  }

  lemma InCopies(version: nat, c: Cell)
    ensures c in VersionCopies(version) <==>
            version >= 7 && ((4 * version + 6 <= c.x < 4 * version + 9 && c.y < 6) || (c.x < 6 && 4 * version + 6 <= c.y < 4 * version + 9))
  {
    hide Rect;
    InRect(c, 4 * version + 6, 0, 3, 6);
    InRect(c, 0, 4 * version + 6, 6, 3);
  }

  /** Where the format information is: along row 8 and column 8, beside the corners. */
  lemma FormatPlace(size: nat, c: Cell)
    requires size >= 21 && c in FormatCells(size)
    ensures Inside(size, c) && c.x != 6 && c.y != 6
    ensures (c.x == 8 && (c.y <= 8 || c.y >= size - 8)) || (c.y == 8 && (c.x <= 8 || c.x >= size - 8))
  {
    var t :| 0 <= t < 31 && FormatCells(size)[t] == c;
    assert c == FormatCell(size, t);
  }

  /** Where alignment patterns are: away from corners, format information and version copies. */
  lemma SquarePlace(version: nat, a: nat, b: nat, c: Cell)
    requires 2 <= version <= 40 && a < AlignCount(version) && b < AlignCount(version)
    requires AlignedAt(4 * version + 17, version, a, b, c)
    ensures var size := 4 * version + 17;
            && Inside(size, c)
            && ((16 <= c.x && 16 <= c.y) || (4 <= c.x <= 8 && 16 <= c.y < size - 16) || (16 <= c.x < size - 16 && 4 <= c.y <= 8))
  {
    hide AlignPosition, AlignCount;
    FirstCenter(version);
    var last := AlignCount(version) - 1;
    CentersFit(version, a);
    CentersFit(version, b);
    if a > 0 { CentersRise(version, 0, a); }
    if b > 0 { CentersRise(version, 0, b); }
    if a < last { CentersRise(version, a, last); }
    if b < last { CentersRise(version, b, last); }
  }

  lemma AllSquaresPlace(version: nat, c: Cell)
    requires 1 <= version <= 40 && c in AllSquares(version)
    ensures var size := 4 * version + 17;
            && Inside(size, c) && c.x != 6 && c.y != 6
            && ((16 <= c.x && 16 <= c.y) || (4 <= c.x <= 8 && 16 <= c.y < size - 16) || (16 <= c.x < size - 16 && 4 <= c.y <= 8))
  {
    hide AlignCount, AlignedAt, Squares;
    InSquares(version, AlignCount(version), 0, c);
    var a: nat, b: nat :| a < AlignCount(version) && b < AlignCount(version) && AlignedAt(4 * version + 17, version, a, b, c);
    SquarePlace(version, a, b, c);
  }

  /** An alignment pattern on an axis covers timing modules only there. */
  lemma SquaresReserved(version: nat, c: Cell)
    requires 1 <= version <= 40 && Inside(4 * version + 17, c)
    ensures c in AllSquares(version) || c.x == 6 || c.y == 6 <==>
            (version > 1 && Patterns.Aligned(4 * version + 17, version, AlignCount(version), 0, c)) || c.x == 6 || c.y == 6
  {
    hide AlignCount, AlignedAt, Squares, Patterns.Aligned;
    if version > 1 {
      InSquares(version, AlignCount(version), 0, c);
    }
  }

  /** These parts are the function modules. */
  lemma ReservedIs(version: nat, c: Cell)
    requires 1 <= version <= 40
    ensures c in ReservedCells(version) <==> Inside(4 * version + 17, c) && Reserved(version, c)
  {
    hide AlignCount, AllSquares, Patterns.Aligned, Corners, Tracks, VersionCopies, FormatCells;
    var size := 4 * version + 17;
    InCorners(size, c);
    InTracks(size, c);
    InCopies(version, c);
    if c in FormatCells(size) { FormatPlace(size, c); }
    if c in AllSquares(version) { AllSquaresPlace(version, c); }
    if Inside(size, c) {
      SquaresReserved(version, c);
      CornerIs(size, c);
    }
  }

  lemma CornerIs(size: nat, c: Cell)
    requires size >= 21 && Inside(size, c)
    ensures AtCorner(size, c) <==> (c.x < 8 && c.y < 8) || (size - 8 <= c.x < size && c.y < 8) || (c.x < 8 && size - 8 <= c.y < size)
  {}

  /** And they share no cell. */
  lemma PartsApart(version: nat, c: Cell)
    requires 1 <= version <= 40
    ensures var size := 4 * version + 17;
            && c !in Corners(size) * Tracks(size)
            && c !in (Corners(size) + Tracks(size)) * Elements(FormatCells(size))
            && c !in (Corners(size) + Tracks(size) + Elements(FormatCells(size))) * VersionCopies(version)
            && c !in (Corners(size) + Tracks(size) + Elements(FormatCells(size)) + VersionCopies(version)) * AllSquares(version)
  {
    hide AlignCount, AllSquares, Corners, Tracks, VersionCopies, FormatCells;
    var size := 4 * version + 17;
    InCorners(size, c);
    InTracks(size, c);
    InCopies(version, c);
    if c in FormatCells(size) { FormatPlace(size, c); }
    if c in AllSquares(version) { AllSquaresPlace(version, c); }
  }

  lemma PartSizes(version: nat)
    requires 1 <= version <= 40
    ensures var size := 4 * version + 17;
            && |Corners(size)| == 192 && |Tracks(size)| == 2 * size - 32 && |Elements(FormatCells(size))| == 31
            && |VersionCopies(version)| == if version < 7 then 0 else 36
  {
    var size := 4 * version + 17;
    DistinctSize(FormatCells(size));
    hide Rect, FormatCells;
    RectSize(0, 0, 8, 8);
    RectSize(size - 8, 0, 8, 8);
    RectSize(0, size - 8, 8, 8);
    RectSize(8, 6, size - 16, 1);
    RectSize(6, 8, 1, size - 16);
    RectSize(4 * version + 6, 0, 3, 6);
    RectSize(0, 4 * version + 6, 6, 3);
    var k1, k2, k3 := Rect(0, 0, 8, 8), Rect(size - 8, 0, 8, 8), Rect(0, size - 8, 8, 8);
    var t1, t2 := Rect(8, 6, size - 16, 1), Rect(6, 8, 1, size - 16);
    var v1, v2 := Rect(4 * version + 6, 0, 3, 6), Rect(0, 4 * version + 6, 6, 3);
    forall c
      ensures c !in k1 * k2 && c !in (k1 + k2) * k3 && c !in t1 * t2 && c !in v1 * v2
    {
      InRect(c, 0, 0, 8, 8);
      InRect(c, size - 8, 0, 8, 8);
      InRect(c, 0, size - 8, 8, 8);
      InRect(c, 8, 6, size - 16, 1);
      InRect(c, 6, 8, 1, size - 16);
      InRect(c, 4 * version + 6, 0, 3, 6);
      InRect(c, 0, 4 * version + 6, 6, 3);
    }
    Together(k1 + k2, k1, k2);
    Together(Corners(size), k1 + k2, k3);
    Together(Tracks(size), t1, t2);
    if version >= 7 {
      Together(VersionCopies(version), v1, v2);
    }
  }

  function AllSquaresSize(version: nat): nat {
    if version == 1 then 0 else SquaresSize(AlignCount(version), AlignCount(version), 0)
  }

  lemma ReservedSize(version: nat)
    requires 1 <= version <= 40
    ensures |ReservedCells(version)| == 2 * (4 * version + 17) + 191 + (if version < 7 then 0 else 36) + AllSquaresSize(version)
  {
    hide AlignCount, Squares, SquaresSize, Corners, Tracks, VersionCopies, FormatCells;
    var size := 4 * version + 17;
    PartSizes(version);
    if version > 1 { SquaresHave(version, AlignCount(version), 0); }
    var a, b := Corners(size) + Tracks(size), Elements(FormatCells(size));
    forall c
      ensures c !in Corners(size) * Tracks(size) && c !in a * b && c !in (a + b) * VersionCopies(version)
      ensures c !in (a + b + VersionCopies(version)) * AllSquares(version)
    {
      PartsApart(version, c);
    }
    Together(a, Corners(size), Tracks(size));
    Together(a + b, a, b);
    Together(a + b + VersionCopies(version), a + b, VersionCopies(version));
    Together(ReservedCells(version), a + b + VersionCopies(version), AllSquares(version));
  }

  /** The squares of row i up to column j. */
  function RowSize(n: nat, i: nat, j: nat): nat
    requires 2 <= n
  {
    if j == 0 then 0
    else if i == 0 then (if j < n then 20 * (j - 1) else 20 * (n - 2))
    else if i == n - 1 then 25 * (j - 1)
    else 20 + 25 * (j - 1)
  }

  lemma {:induction false} RowAdds(n: nat, i: nat, j: nat)
    requires 2 <= n && i < n && j <= n
    ensures SquaresSize(n, i, j) == SquaresSize(n, i, 0) + RowSize(n, i, j)
  {
    if j > 0 {
      RowAdds(n, i, j - 1);
    }
  }

  lemma {:induction false} RowsAdd(n: nat, i: nat)
    requires 2 <= n && 1 <= i < n
    ensures SquaresSize(n, i, 0) == 20 * (n - 2) + (i - 1) * (20 + 25 * (n - 1))
  {
    RowAdds(n, i - 1, n);
    if i > 1 {
      RowsAdd(n, i - 1);
      assert (i - 1) * (20 + 25 * (n - 1)) == (i - 2) * (20 + 25 * (n - 1)) + (20 + 25 * (n - 1));
    }
  }

  /** The squares of all centers. */
  lemma SquaresCounted(n: nat)
    requires 2 <= n
    ensures SquaresSize(n, n, 0) == 20 * (n - 2) + (n - 2) * (20 + 25 * (n - 1)) + 25 * (n - 1)
  {
    RowsAdd(n, n - 1);
    RowAdds(n, n - 1, n);
    assert SquaresSize(n, n, 0) == SquaresSize(n, n - 1, n);
  }

  // ---------------------------------------------------------------- the spaces

  lemma {:induction false} SpacesAre(version: nat, cells: seq<Cell>)
    requires version >= 1 && Distinct(cells)
    ensures Distinct(Spaces(version, cells))
    ensures forall c :: c in Spaces(version, cells) <==> c in cells && !Reserved(version, c)
  {
    hide Reserved;
    if cells != [] {
      var n := |cells| - 1;
      SpacesAre(version, cells[..n]);
      assert cells == cells[..n] + [cells[n]];
    }
  }

  /** What is left: the whole square less the function modules. */
  lemma SpacesCounted(version: nat)
    requires 1 <= version <= 40
    ensures var size := 4 * version + 17;
            && Side(size)
            && |Spaces(version, Whole(size))| + 2 * size + 191 + (if version < 7 then 0 else 36) + AllSquaresSize(version) == size * size
  {
    hide Reserved, ReservedCells, AllSquaresSize, Whole, Spaces, Side;
    var size := 4 * version + 17;
    SymbolSide(version);
    ScanVisitsOnce(size);
    SpacesAre(version, Whole(size));
    var spaces := Spaces(version, Whole(size));
    DistinctSize(spaces);
    ReservedSize(version);
    RectSize(0, 0, size, size);
    forall c: Cell
      ensures c in Rect(0, 0, size, size) <==> c in Elements(spaces) + ReservedCells(version)
      ensures c !in Elements(spaces) * ReservedCells(version)
    {
      InRect(c, 0, 0, size, size);
      ReservedIs(version, c);
      if Inside(size, c) && c.x == 6 { TimingReserved(version, c); }
    }
    Together(Rect(0, 0, size, size), Elements(spaces), ReservedCells(version));
  }

  lemma TimingReserved(version: nat, c: Cell)
    requires version >= 1 && c.x == 6
    ensures Reserved(version, c)
  {}
}
