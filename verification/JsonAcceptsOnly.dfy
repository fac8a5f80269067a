/** The grammar against the parser: whatever is accepted is what some syntax tree looks like, and is read as what that
    tree stands for. */
module JsonAcceptsOnly {
  import opened Numbers
  import opened JsonReader
  import opened JsonGrammar
  import opened JsonAccepts

  // ---------------------------------------------------------------- slices

  lemma Join(t: Text, a: nat, b: nat, c: nat)
    requires a <= b <= c <= |t|
    ensures t[a..c] == t[a..b] + t[b..c]
  {}

  lemma One(t: Text, p: nat)
    requires p < |t|
    ensures t[p..p + 1] == [t[p]]
  {}

  lemma {:induction false} WsIs(t: Text, p: nat)
    requires p <= |t|
    ensures AllWs(t[p..SkipWs(t, p)])
    decreases |t| - p
  {
    if p < |t| && IsWs(t[p]) {
      WsIs(t, p + 1);
      Join(t, p, p + 1, SkipWs(t, p));
    }
  }

  lemma {:induction false} DigitsAre(t: Text, p: nat)
    requires p <= |t|
    ensures forall i :: p <= i < Digits(t, p) ==> IsDigit(t[i])
    decreases |t| - p
  {
    if DigitAt(t, p) {
      DigitsAre(t, p + 1);
    }
  }

  lemma SomeDigitsAre(t: Text, p: nat)
    requires p <= |t| && SomeDigits(t, p).At?
    ensures AllDigits(t[p..SomeDigits(t, p).end])
  {
    DigitsAre(t, p);
  }

  // ---------------------------------------------------------------- numbers

  lemma ExponentIs(t: Text, p: nat, n: Num) returns (m: Num)
    requires p <= |t| && Exponent(t, p).At?
    ensures m.neg == n.neg && m.whole == n.whole && m.dot == n.dot && m.fraction == n.fraction
    ensures m.exp ==> (m.e == 'e' || m.e == 'E') && (m.sign == "" || m.sign == "+" || m.sign == "-") && AllDigits(m.exponent)
    ensures ExponentText(m) == t[p..Exponent(t, p).end]
  {
    var end := Exponent(t, p).end;
    m := n.(exp := false);
    if Is(t, p, 0x65) || Is(t, p, 0x45) {
      var q := if Is(t, p + 1, 0x2B) || Is(t, p + 1, 0x2D) then p + 2 else p + 1;
      SomeDigitsAre(t, q);
      m := n.(exp := true, e := if Is(t, p, 0x65) then 'e' else 'E',
              sign := if q == p + 1 then "" else if Is(t, p + 1, 0x2B) then "+" else "-", exponent := t[q..end]);
      Join(t, p, p + 1, end);
      Join(t, p + 1, q, end);
      assert Ascii(m.sign) == t[p + 1..q];
      assert [Code(m.e)] == t[p..p + 1];
    }
  }

  lemma FractionIs(t: Text, p: nat, n: Num) returns (m: Num)
    requires p <= |t| && Fraction(t, p).At?
    ensures m.neg == n.neg && m.whole == n.whole && (m.dot ==> AllDigits(m.fraction))
    ensures FractionText(m) == t[p..Fraction(t, p).end]
  {
    var end := Fraction(t, p).end;
    m := n.(dot := false);
    if Is(t, p, 0x2E) {
      SomeDigitsAre(t, p + 1);
      m := n.(dot := true, fraction := t[p + 1..end]);
      Join(t, p, p + 1, end);
      assert Ascii(".") == t[p..p + 1];
    }
  }

  lemma NumberIs(t: Text, p: nat) returns (n: Num)
    requires p <= |t| && NumberAt(t, p).At?
    ensures NumFits(n) && NumText(n) == t[p..NumberAt(t, p).end] == NumberAt(t, p).value
  {
    var q := if Is(t, p, 0x2D) then p + 1 else p;
    var w := SomeDigits(t, q).end;
    var f := Fraction(t, w).end;
    var e := Exponent(t, f).end;
    SomeDigitsAre(t, q);
    n := Num(q > p, t[q..w], false, [], false, 'e', "", []);
    n := FractionIs(t, w, n);
    n := ExponentIs(t, f, n);
    assert (if n.neg then Ascii("-") else []) == t[p..q];
    Join(t, w, f, e);
    Join(t, q, w, e);
    Join(t, p, q, e);
  }

  // ---------------------------------------------------------------- strings

  lemma DigitIs(c: Octet) returns (d: Digit)
    requires HexDigit(c) >= 0
    ensures DigitFits(d) && d.value == HexDigit(c) && DigitText(d) == c
  {
    d := Digit(HexDigit(c), c < 0x60);
  }

  lemma ShortIs(c: Octet) returns (letter: char)
    requires ShortEscape(c) >= 0
    ensures ChFits(Short(letter)) && Code(letter) == c && ChBytes(Short(letter)) == [ShortEscape(c)]
  {
    letter := if c == 0x22 then '"' else if c == 0x5C then '\\' else if c == 0x2F then '/' else if c == 0x62 then 'b'
              else if c == 0x66 then 'f' else if c == 0x6E then 'n' else if c == 0x72 then 'r' else 't';
  }

  lemma ChIs(t: Text, p: nat) returns (ch: Ch)
    requires OneChar(t, p).At? && !Is(t, p, QUOTE)
    ensures ChFits(ch) && ChText(ch) == t[p..OneChar(t, p).end] && ChBytes(ch) == OneChar(t, p).value
  {
    hide Utf8, HexDigit, DigitText, ShortEscape;
    if t[p] != BACKSLASH {
      ch := Plain(t[p]);
    } else if ShortEscape(t[p + 1]) >= 0 {
      var letter := ShortIs(t[p + 1]);
      ch := Short(letter);
    } else {
      var a := DigitIs(t[p + 2]);
      var b := DigitIs(t[p + 3]);
      var c := DigitIs(t[p + 4]);
      var d := DigitIs(t[p + 5]);
      ch := Hex(a, b, c, d);
    }
  }

  lemma {:induction false} ChsAre(t: Text, p: nat) returns (chs: seq<Ch>)
    requires p <= |t| && StringRest(t, p).At?
    ensures ChsFit(chs) && ChsText(chs) + Ascii("\"") == t[p..StringRest(t, p).end] && ChsBytes(chs) == StringRest(t, p).value
    decreases |t| - p
  {
    hide OneChar, ChFits, ChText, ChBytes;
    var end := StringRest(t, p).end;
    if Is(t, p, QUOTE) {
      chs := [];
      assert Ascii("\"") == t[p..end];
    } else {
      var q := OneChar(t, p).end;
      var ch := ChIs(t, p);
      var rest := ChsAre(t, q);
      chs := [ch] + rest;
      assert chs[1..] == rest;
      Join(t, p, q, end);
      assert ChsText(chs) + Ascii("\"") == ChText(ch) + (ChsText(rest) + Ascii("\""));
    }
  }

  lemma StringIs(t: Text, p: nat) returns (chs: seq<Ch>)
    requires StringAt(t, p).At?
    ensures ChsFit(chs) && StringText(chs) == t[p..StringAt(t, p).end] && ChsBytes(chs) == StringAt(t, p).value
  {
    hide ChsFit, ChsText, ChsBytes;
    chs := ChsAre(t, p + 1);
    Join(t, p, p + 1, StringAt(t, p).end);
    assert Ascii("\"") == t[p..p + 1];
  }

  // ---------------------------------------------------------------- values

  /** The tree looks like the value read, and stands for it. */
  predicate IsOf(t: Text, v: Value, s: Syntax, depth: nat) {
    && v.spanStart <= v.spanEnd <= |t| && Fits(s) && Shown(s) == t[v.spanStart..v.spanEnd]
    && Means(s) == Bare(v) && depth + Levels(s) <= MAX_DEPTH
  }

  lemma LiteralIs(t: Text, p: nat) returns (s: Syntax)
    requires p < |t| && ScalarAt(t, p).At? && (ScalarAt(t, p).value.Null? || ScalarAt(t, p).value.Bool?)
    ensures IsScalar(s) && Fits(s) && Shown(s) == t[p..ScalarAt(t, p).end] && Means(s) == BareContent(ScalarAt(t, p).value)
  {
    hide StringAt, NumberAt;
    match ScalarAt(t, p).value {
      case Null => s := SNull;
      case Bool(b) => s := if b then STrue else SFalse;
    }
    assert Ascii("null") == NULL && Ascii("true") == TRUE && Ascii("false") == FALSE;
  }

  lemma ScalarIs(t: Text, p: nat) returns (s: Syntax)
    requires p < |t| && ScalarAt(t, p).At?
    ensures IsScalar(s) && Fits(s) && Shown(s) == t[p..ScalarAt(t, p).end] && Means(s) == BareContent(ScalarAt(t, p).value)
  {
    hide StringAt, NumberAt, NumFits, NumText, ChsFit, StringText, ChsBytes;
    match ScalarAt(t, p).value {
      case String(_) =>
        var chs := StringIs(t, p);
        s := SString(chs);
      case Number(_) =>
        var n := NumberIs(t, p);
        s := SNumber(n);
      case _ => s := LiteralIs(t, p);
    }
  }

  /** What the parser saw of an array. */
  lemma ArrayParts(t: Text, p: nat, depth: nat)
    requires ValueAt(t, p, depth).At? && Is(t, ValueAt(t, p, depth).value.spanStart, OPEN_BRACKET)
    ensures var v := ValueAt(t, p, depth).value;
            var (q, r) := (SkipWs(t, v.spanStart + 1), ItemsAt(t, v.spanStart + 1, depth + 1));
            if Is(t, q, CLOSE_BRACKET) then v.content == Array([]) && v.spanEnd == q + 1
            else r.At? && v.content == Array(r.value) && v.spanEnd == r.end
  {
    hide ItemsAt, MembersAt, ScalarAt, SkipWs;
    ItemsSkip(t, ValueAt(t, p, depth).value.spanStart + 1, depth + 1);
  }

  lemma ObjectParts(t: Text, p: nat, depth: nat)
    requires ValueAt(t, p, depth).At? && Is(t, ValueAt(t, p, depth).value.spanStart, OPEN_BRACE)
    ensures var v := ValueAt(t, p, depth).value;
            var (q, r) := (SkipWs(t, v.spanStart + 1), MembersAt(t, v.spanStart + 1, depth + 1));
            if Is(t, q, CLOSE_BRACE) then v.content == Object([]) && v.spanEnd == q + 1
            else r.At? && v.content == Object(r.value) && v.spanEnd == r.end
  {
    hide ItemsAt, MembersAt, ScalarAt, SkipWs;
    ItemsSkip(t, ValueAt(t, p, depth).value.spanStart + 1, depth + 1);
  }

  lemma ScalarParts(t: Text, p: nat, depth: nat)
    requires ValueAt(t, p, depth).At?
    ensures var v := ValueAt(t, p, depth).value;
            !Is(t, v.spanStart, OPEN_BRACE) && !Is(t, v.spanStart, OPEN_BRACKET) ==>
              ScalarAt(t, v.spanStart) == At(v.content, v.spanEnd)
  {
    hide ItemsAt, MembersAt, ScalarAt, SkipWs;
  }

  lemma {:induction false} ValueIs(t: Text, p: nat, depth: nat) returns (s: Syntax)
    requires ValueAt(t, p, depth).At?
    ensures IsOf(t, ValueAt(t, p, depth).value, s, depth)
    decreases MAX_DEPTH - depth, 1, 0
  {
    var v := ValueAt(t, p, depth).value;
    if Is(t, v.spanStart, OPEN_BRACE) {
      s := ObjectOf(t, p, depth);
    } else if Is(t, v.spanStart, OPEN_BRACKET) {
      s := ArrayOf(t, p, depth);
    } else {
      hide Fits, Shown, Means, ValueAt, ScalarAt;
      ScalarParts(t, p, depth);
      s := ScalarIs(t, v.spanStart);
    }
  }

  lemma EmptyArrayIs(t: Text, v: Value, q: nat, depth: nat)
    requires v.content == Array([]) && v.spanStart < q < v.spanEnd == q + 1 <= |t|
    requires t[v.spanStart] == OPEN_BRACKET && t[q] == CLOSE_BRACKET
    requires AllWs(t[v.spanStart + 1..q]) && depth < MAX_DEPTH
    ensures IsOf(t, v, SArray(t[v.spanStart + 1..q], []), depth)
  {
    hide AllWs;
    Join(t, v.spanStart, v.spanStart + 1, v.spanEnd);
    Join(t, v.spanStart + 1, q, v.spanEnd);
    assert t[v.spanStart..v.spanStart + 1] == Ascii("[") && t[q..v.spanEnd] == Ascii("]");
    BareNoMembers();
    ArrayIs(v);
    var s := SArray(t[v.spanStart + 1..q], []);
    assert Fits(s);
    assert Shown(s) == t[v.spanStart..v.spanEnd];
    assert Means(s) == Bare(v);
    assert Levels(s) == 1;
  }

  lemma FullArrayIs(t: Text, v: Value, items: seq<Item>, depth: nat)
    requires v.content.Array? && v.spanStart < v.spanEnd <= |t| && t[v.spanStart] == OPEN_BRACKET
    requires items != [] && ItemsFit(items) && ItemsText(items) == t[v.spanStart + 1..v.spanEnd]
    requires ItemsMean(items) == BareItems(v.content.arrVal) && depth + 1 + ItemLevels(items) <= MAX_DEPTH
    ensures IsOf(t, v, SArray([], items), depth)
  {
    hide ItemsText, ItemsFit, ItemsMean, ItemLevels, Bare, BareItems;
    Join(t, v.spanStart, v.spanStart + 1, v.spanEnd);
    assert t[v.spanStart..v.spanStart + 1] == Ascii("[");
    ArrayIs(v);
  }

  lemma {:induction false} ArrayOf(t: Text, p: nat, depth: nat) returns (s: Syntax)
    requires ValueAt(t, p, depth).At? && Is(t, ValueAt(t, p, depth).value.spanStart, OPEN_BRACKET)
    ensures IsOf(t, ValueAt(t, p, depth).value, s, depth)
    decreases MAX_DEPTH - depth, 0, 0
  {
    hide ValueAt, ItemsAt, SkipWs, ItemsFit, ItemsText, ItemsMean, ItemLevels, BareItems, AllWs, IsOf;
    ArrayParts(t, p, depth);
    var v := ValueAt(t, p, depth).value;
    var start, q := v.spanStart, SkipWs(t, v.spanStart + 1);
    if Is(t, q, CLOSE_BRACKET) {
      WsIs(t, start + 1);
      s := SArray(t[start + 1..q], []);
      EmptyArrayIs(t, v, q, depth);
    } else {
      var items := ItemsAre(t, start + 1, depth + 1);
      s := SArray([], items);
      FullArrayIs(t, v, items, depth);
    }
  }

  lemma EmptyObjectIs(t: Text, v: Value, q: nat, depth: nat)
    requires v.content == Object([]) && v.spanStart < q < v.spanEnd == q + 1 <= |t|
    requires t[v.spanStart] == OPEN_BRACE && t[q] == CLOSE_BRACE
    requires AllWs(t[v.spanStart + 1..q]) && depth < MAX_DEPTH
    ensures IsOf(t, v, SObject(t[v.spanStart + 1..q], []), depth)
  {
    hide AllWs;
    Join(t, v.spanStart, v.spanStart + 1, v.spanEnd);
    Join(t, v.spanStart + 1, q, v.spanEnd);
    assert t[v.spanStart..v.spanStart + 1] == Ascii("{") && t[q..v.spanEnd] == Ascii("}");
    BareNoMembers();
    ObjectIs(v);
    var s := SObject(t[v.spanStart + 1..q], []);
    assert Fits(s);
    assert Shown(s) == t[v.spanStart..v.spanEnd];
    assert Means(s) == Bare(v);
    assert Levels(s) == 1;
  }

  lemma FullObjectIs(t: Text, v: Value, members: seq<Pair>, depth: nat)
    requires v.content.Object? && v.spanStart < v.spanEnd <= |t| && t[v.spanStart] == OPEN_BRACE
    requires members != [] && MembersFit(members) && MembersText(members) == t[v.spanStart + 1..v.spanEnd]
    requires MembersMean(members) == BareMembers(v.content.objVal) && depth + 1 + MemberLevels(members) <= MAX_DEPTH
    ensures IsOf(t, v, SObject([], members), depth)
  {
    hide MembersText, MembersFit, MembersMean, MemberLevels, Bare, BareMembers;
    Join(t, v.spanStart, v.spanStart + 1, v.spanEnd);
    assert t[v.spanStart..v.spanStart + 1] == Ascii("{");
    ObjectIs(v);
  }

  lemma {:induction false} ObjectOf(t: Text, p: nat, depth: nat) returns (s: Syntax)
    requires ValueAt(t, p, depth).At? && Is(t, ValueAt(t, p, depth).value.spanStart, OPEN_BRACE)
    ensures IsOf(t, ValueAt(t, p, depth).value, s, depth)
    decreases MAX_DEPTH - depth, 0, 0
  {
    hide ValueAt, MembersAt, SkipWs, MembersFit, MembersText, MembersMean, MemberLevels, BareMembers, AllWs, IsOf;
    ObjectParts(t, p, depth);
    var v := ValueAt(t, p, depth).value;
    var start, q := v.spanStart, SkipWs(t, v.spanStart + 1);
    if Is(t, q, CLOSE_BRACE) {
      WsIs(t, start + 1);
      s := SObject(t[start + 1..q], []);
      EmptyObjectIs(t, v, q, depth);
    } else {
      var members := MembersAre(t, start + 1, depth + 1);
      s := SObject([], members);
      FullObjectIs(t, v, members, depth);
    }
  }

  // ---------------------------------------------------------------- items and members

  lemma ItemsParts(t: Text, p: nat, depth: nat)
    requires p <= |t| && depth <= MAX_DEPTH && ItemsAt(t, p, depth).At?
    ensures var (r, v) := (ItemsAt(t, p, depth), ValueAt(t, p, depth));
            v.At? && v.value.spanStart == SkipWs(t, p) &&
            var x := SkipWs(t, v.end);
            if Is(t, x, COMMA) then
              var rest := ItemsAt(t, x + 1, depth);
              rest.At? && r == At([v.value] + rest.value, rest.end)
            else Is(t, x, CLOSE_BRACKET) && r == At([v.value], x + 1)
  {
    SkipAgain(t, p);
    SameValue(t, p, SkipWs(t, p), depth);
    hide ValueAt, SkipWs;
  }

  lemma Pieces(t: Text, a: nat, b: nat, c: nat, d: nat, e: nat)
    requires a <= b <= c <= d <= e <= |t|
    ensures t[a..e] == t[a..b] + (t[b..c] + (t[c..d] + t[d..e]))
  {}

  /** The last item. */
  lemma LastItem(t: Text, p: nat, x: nat, v: Value, s: Syntax, depth: nat) returns (items: seq<Item>)
    requires p <= v.spanStart && v.spanEnd <= x && Is(t, x, CLOSE_BRACKET) && IsOf(t, v, s, depth)
    requires AllWs(t[p..v.spanStart]) && AllWs(t[v.spanEnd..x])
    ensures items != [] && ItemsFit(items) && ItemsText(items) == t[p..x + 1]
    ensures ItemsMean(items) == BareItems([v]) && depth + ItemLevels(items) <= MAX_DEPTH
  {
    hide Bare, Fits, Shown, Means, Levels, AllWs;
    items := [Item(t[p..v.spanStart], s, t[v.spanEnd..x])];
    Pieces(t, p, v.spanStart, v.spanEnd, x, x + 1);
    assert t[x..x + 1] == Ascii("]");
    assert items[1..] == [] && [v][1..] == [];
  }

  /** An item and the ones behind it. */
  lemma MoreItems(t: Text, p: nat, x: nat, end: nat, v: Value, vs: seq<Value>, s: Syntax, rest: seq<Item>, depth: nat)
      returns (items: seq<Item>)
    requires p <= v.spanStart && v.spanEnd <= x < end <= |t| && Is(t, x, COMMA) && IsOf(t, v, s, depth)
    requires AllWs(t[p..v.spanStart]) && AllWs(t[v.spanEnd..x])
    requires rest != [] && ItemsFit(rest) && ItemsText(rest) == t[x + 1..end]
    requires ItemsMean(rest) == BareItems(vs) && depth + ItemLevels(rest) <= MAX_DEPTH
    ensures items != [] && ItemsFit(items) && ItemsText(items) == t[p..end]
    ensures ItemsMean(items) == BareItems([v] + vs) && depth + ItemLevels(items) <= MAX_DEPTH
  {
    hide Bare, Fits, Shown, Means, Levels, AllWs;
    items := [Item(t[p..v.spanStart], s, t[v.spanEnd..x])] + rest;
    Pieces(t, p, v.spanStart, v.spanEnd, x, end);
    Join(t, x, x + 1, end);
    assert t[x..x + 1] == Ascii(",");
    assert items[1..] == rest && ([v] + vs)[1..] == vs;
  }

  lemma {:induction false} ItemsAre(t: Text, p: nat, depth: nat) returns (items: seq<Item>)
    requires p <= |t| && 0 < depth <= MAX_DEPTH && ItemsAt(t, p, depth).At?
    ensures items != [] && ItemsFit(items) && ItemsText(items) == t[p..ItemsAt(t, p, depth).end]
    ensures ItemsMean(items) == BareItems(ItemsAt(t, p, depth).value) && depth + ItemLevels(items) <= MAX_DEPTH
    decreases MAX_DEPTH - depth, 2, |t| - p
  {
    hide ValueAt, SkipWs, AllWs, ItemsAt, IsOf, ItemsFit, ItemsText, ItemsMean, ItemLevels, BareItems;
    ItemsParts(t, p, depth);
    var v := ValueAt(t, p, depth).value;
    var x := SkipWs(t, v.spanEnd);
    var s := ValueIs(t, p, depth);
    WsIs(t, p);
    WsIs(t, v.spanEnd);
    if Is(t, x, COMMA) {
      var rest := ItemsAre(t, x + 1, depth);
      var r := ItemsAt(t, x + 1, depth);
      items := MoreItems(t, p, x, r.end, v, r.value, s, rest, depth);
    } else {
      items := LastItem(t, p, x, v, s, depth);
    }
  }

  lemma MembersUnfold(t: Text, p: nat, depth: nat)
    requires depth <= MAX_DEPTH && MembersAt(t, p, depth).At?
    ensures var (r, m) := (MembersAt(t, p, depth), MemberAt(t, p, depth));
            m.At? &&
            var x := SkipWs(t, m.end);
            if Is(t, x, COMMA) then
              var rest := MembersAt(t, x + 1, depth);
              rest.At? && r == At([m.value] + rest.value, rest.end)
            else Is(t, x, CLOSE_BRACE) && r == At([m.value], x + 1)
  {
    hide MemberAt, SkipWs;
  }

  lemma MembersParts(t: Text, p: nat, depth: nat)
    requires p <= |t| && depth <= MAX_DEPTH && MembersAt(t, p, depth).At?
    ensures var r := MembersAt(t, p, depth);
            var key := StringAt(t, SkipWs(t, p));
            key.At? &&
            var colon := SkipWs(t, key.end);
            Is(t, colon, COLON) &&
            var v := ValueAt(t, colon + 1, depth);
            v.At? && v.value.spanStart == SkipWs(t, colon + 1) &&
            var x := SkipWs(t, v.end);
            if Is(t, x, COMMA) then
              var rest := MembersAt(t, x + 1, depth);
              rest.At? && r == At([Member(key.value, v.value)] + rest.value, rest.end)
            else Is(t, x, CLOSE_BRACE) && r == At([Member(key.value, v.value)], x + 1)
  {
    hide ValueAt, SkipWs, StringAt, MembersAt;
    MembersUnfold(t, p, depth);
    var colon := SkipWs(t, StringAt(t, SkipWs(t, p)).end);
    SkipAgain(t, colon + 1);
    SameValue(t, colon + 1, SkipWs(t, colon + 1), depth);
  }

  lemma SevenPieces(t: Text, a: nat, b: nat, c: nat, d: nat, e: nat, f: nat, g: nat, h: nat)
    requires a <= b <= c <= d < e <= f <= g <= h <= |t| && e == d + 1
    ensures t[a..h] == t[a..b] + (t[b..c] + (t[c..d] + ([t[d]] + (t[e..f] + (t[f..g] + t[g..h])))))
  {
    Pieces(t, a, b, c, d, h);
    Pieces(t, d, e, f, g, h);
    One(t, d);
  }

  /** The text from p to the value of a member: white space, the key, white space, a colon, white space. */
  predicate KeyOf(t: Text, p: nat, k: nat, e: nat, colon: nat, start: nat, chs: seq<Ch>) {
    && p <= k <= e <= colon < start <= |t| && t[colon] == COLON
    && AllWs(t[p..k]) && ChsFit(chs) && StringText(chs) == t[k..e] && AllWs(t[e..colon]) && AllWs(t[colon + 1..start])
  }

  function PairOf(t: Text, p: nat, k: nat, e: nat, colon: nat, v: Value, x: nat, chs: seq<Ch>, s: Syntax): Pair
    requires p <= k <= e <= colon < v.spanStart <= v.spanEnd <= x <= |t|
  {
    Pair(t[p..k], chs, t[e..colon], t[colon + 1..v.spanStart], s, t[v.spanEnd..x])
  }

  lemma PairText(t: Text, p: nat, k: nat, e: nat, colon: nat, v: Value, x: nat, end: nat, chs: seq<Ch>, s: Syntax, depth: nat)
    requires v.spanEnd <= x <= end <= |t| && IsOf(t, v, s, depth) && KeyOf(t, p, k, e, colon, v.spanStart, chs)
    ensures var m := PairOf(t, p, k, e, colon, v, x, chs, s);
            MemberShown(m, t[x..end]) == t[p..end]
  {
    hide Bare, Fits, Shown, Means, Levels, AllWs, ChsFit, StringText;
    SevenPieces(t, p, k, e, colon, colon + 1, v.spanStart, v.spanEnd, end);
    Join(t, v.spanEnd, x, end);
    assert [COLON] == Ascii(":");
  }

  /** The last member. */
  lemma LastMember(t: Text, p: nat, k: nat, e: nat, colon: nat, x: nat, chs: seq<Ch>, v: Value, s: Syntax, depth: nat)
      returns (members: seq<Pair>)
    requires v.spanEnd <= x && Is(t, x, CLOSE_BRACE) && IsOf(t, v, s, depth) && KeyOf(t, p, k, e, colon, v.spanStart, chs)
    requires AllWs(t[v.spanEnd..x])
    ensures members != [] && MembersFit(members) && MembersText(members) == t[p..x + 1]
    ensures MembersMean(members) == BareMembers([Member(ChsBytes(chs), v)]) && depth + MemberLevels(members) <= MAX_DEPTH
  {
    hide Bare, Fits, Shown, Means, Levels, AllWs, ChsFit, ChsBytes, StringText;
    members := [PairOf(t, p, k, e, colon, v, x, chs, s)];
    PairText(t, p, k, e, colon, v, x, x + 1, chs, s, depth);
    assert t[x..x + 1] == Ascii("}");
    assert members[1..] == [] && [Member(ChsBytes(chs), v)][1..] == [];
  }

  lemma ConsPair(m: Pair, rest: seq<Pair>)
    requires AllWs(m.before) && ChsFit(m.key) && AllWs(m.afterKey) && AllWs(m.beforeValue) && Fits(m.value) && AllWs(m.after)
    requires MembersFit(rest)
    ensures var ms := [m] + rest;
            && ms[1..] == rest && MembersFit(ms) && MembersMean(ms) == [Entry(ChsBytes(m.key), Means(m.value))] + MembersMean(rest)
            && MemberLevels(ms) == Larger(Levels(m.value), MemberLevels(rest))
  {
    hide Fits, Means, Levels, AllWs, ChsFit, ChsBytes;
    assert ([m] + rest)[1..] == rest;
  }

  /** A member and the ones behind it. */
  lemma MoreMembers(t: Text, p: nat, k: nat, e: nat, colon: nat, x: nat, end: nat, chs: seq<Ch>, v: Value, s: Syntax,
                    ms: seq<Member>, rest: seq<Pair>, depth: nat) returns (members: seq<Pair>)
    requires v.spanEnd <= x < end <= |t| && Is(t, x, COMMA) && IsOf(t, v, s, depth) && KeyOf(t, p, k, e, colon, v.spanStart, chs)
    requires AllWs(t[v.spanEnd..x])
    requires rest != [] && MembersFit(rest) && MembersText(rest) == t[x + 1..end]
    requires MembersMean(rest) == BareMembers(ms) && depth + MemberLevels(rest) <= MAX_DEPTH
    ensures members != [] && MembersFit(members) && MembersText(members) == t[p..end]
    ensures MembersMean(members) == BareMembers([Member(ChsBytes(chs), v)] + ms) && depth + MemberLevels(members) <= MAX_DEPTH
  {
    hide Bare, Fits, Shown, Means, Levels, AllWs, ChsFit, ChsBytes, StringText, BareMembers, MembersText, MembersFit,
      MembersMean, MemberLevels;
    members := [PairOf(t, p, k, e, colon, v, x, chs, s)] + rest;
    PairText(t, p, k, e, colon, v, x, end, chs, s, depth);
    Join(t, x, x + 1, end);
    assert t[x..x + 1] == Ascii(",");
    ConsPair(members[0], rest);
    MembersTextIs(members);
    BareOneMember(Member(ChsBytes(chs), v), ms);
  }

  lemma KeyIs(t: Text, p: nat) returns (chs: seq<Ch>)
    requires p <= |t| && StringAt(t, SkipWs(t, p)).At?
    requires Is(t, SkipWs(t, StringAt(t, SkipWs(t, p)).end), COLON)
    ensures var (k, r) := (SkipWs(t, p), StringAt(t, SkipWs(t, p)));
            var colon := SkipWs(t, r.end);
            KeyOf(t, p, k, r.end, colon, SkipWs(t, colon + 1), chs) && ChsFit(chs) && ChsBytes(chs) == r.value
  {
    hide SkipWs, StringAt, AllWs, ChsFit, ChsBytes, StringText;
    var k := SkipWs(t, p);
    var e := StringAt(t, k).end;
    chs := StringIs(t, k);
    WsIs(t, p);
    WsIs(t, e);
    WsIs(t, SkipWs(t, e) + 1);
  }

  lemma {:induction false} MembersAre(t: Text, p: nat, depth: nat) returns (members: seq<Pair>)
    requires p <= |t| && 0 < depth <= MAX_DEPTH && MembersAt(t, p, depth).At?
    ensures members != [] && MembersFit(members) && MembersText(members) == t[p..MembersAt(t, p, depth).end]
    ensures MembersMean(members) == BareMembers(MembersAt(t, p, depth).value) && depth + MemberLevels(members) <= MAX_DEPTH
    decreases MAX_DEPTH - depth, 2, |t| - p
  {
    hide ValueAt, SkipWs, StringAt, AllWs, MembersAt, IsOf, KeyOf, MembersFit, MembersText, MembersMean, MemberLevels,
      BareMembers, ChsBytes;
    MembersParts(t, p, depth);
    var k := SkipWs(t, p);
    var e := StringAt(t, k).end;
    var colon := SkipWs(t, e);
    var chs := KeyIs(t, p);
    var v := ValueAt(t, colon + 1, depth).value;
    var x := SkipWs(t, v.spanEnd);
    var s := ValueIs(t, colon + 1, depth);
    WsIs(t, v.spanEnd);
    if Is(t, x, COMMA) {
      var rest := MembersAre(t, x + 1, depth);
      var r := MembersAt(t, x + 1, depth);
      members := MoreMembers(t, p, k, e, colon, x, r.end, chs, v, s, r.value, rest, depth);
    } else {
      members := LastMember(t, p, k, e, colon, x, chs, v, s, depth);
    }
  }

  // ---------------------------------------------------------------- whole texts

  /** A text of the grammar: a tree of limited depth with white space around it. */
  ghost predicate OfGrammar(t: Text, before: Text, s: Syntax, after: Text) {
    AllWs(before) && Fits(s) && AllWs(after) && Levels(s) <= MAX_DEPTH && t == before + Shown(s) + after
  }

  /** What is accepted is a text of the grammar, and is read as what its tree stands for. */
  lemma AcceptedIs(t: Text) returns (before: Text, s: Syntax, after: Text)
    requires Parse(t).At?
    ensures |t| <= MAX_BYTES && OfGrammar(t, before, s, after) && Means(s) == Bare(Parse(t).value)
  {
    hide ValueAt, SkipWs, AllWs, Fits, Shown, Means, Levels, Bare;
    var q := SkipWs(t, 0);
    var e := ValueAt(t, q, 0).value.spanEnd;
    s := ValueIs(t, q, 0);
    SkipAgain(t, 0);
    WsIs(t, 0);
    WsIs(t, e);
    before, after := t[0..q], t[e..|t|];
    Join(t, 0, q, e);
    Join(t, 0, e, |t|);
    assert t == t[0..|t|];
  }

  /** The parser accepts exactly the texts of the grammar within the size limit. */
  lemma AcceptsExactly(t: Text)
    ensures Parse(t).At? <==> |t| <= MAX_BYTES && exists before, s, after :: OfGrammar(t, before, s, after)
  {
    hide Parse, AllWs, Fits, Shown, Levels, Means, Bare;
    if Parse(t).At? {
      var before, s, after := AcceptedIs(t);
    }
    forall before, s, after | OfGrammar(t, before, s, after)
      ensures |t| <= MAX_BYTES ==> Parse(t).At?
    {
      GrammarReads(before, s, after);
    }
  }

  /** A text has one meaning: its trees all stand for the same. */
  lemma OneMeaning(t: Text, before: Text, s: Syntax, after: Text, before': Text, s': Syntax, after': Text)
    requires |t| <= MAX_BYTES && OfGrammar(t, before, s, after) && OfGrammar(t, before', s', after')
    ensures Means(s) == Means(s')
  {
    hide Parse, AllWs, Fits, Shown, Levels, Means, Bare;
    GrammarReads(before, s, after);
    GrammarReads(before', s', after');
  }
}
